/** Python's ordering of strings and the `sorted(set_of_values)` lists the
    sidebar offers. */
module Ordering {

  /** Python's `a < b` on `str`: compare code point by code point; a proper
      prefix comes first. */
  predicate Less(a: string, b: string)
    decreases |a|
  {
    if |a| == 0 then |b| > 0
    else if |b| == 0 then false
    else if a[0] != b[0] then a[0] < b[0]
    else Less(a[1..], b[1..])
  }

  lemma {:induction false} LessIrreflexive(a: string)
    ensures !Less(a, a)
    decreases |a|
  {
    if |a| > 0 {
      LessIrreflexive(a[1..]);
    }
  }

  lemma {:induction false} LessAsymmetric(a: string, b: string)
    requires Less(a, b)
    ensures !Less(b, a)
    decreases |a|
  {
    if |a| > 0 && |b| > 0 && a[0] == b[0] {
      LessAsymmetric(a[1..], b[1..]);
    }
  }

  lemma {:induction false} LessTransitive(a: string, b: string, c: string)
    requires Less(a, b) && Less(b, c)
    ensures Less(a, c)
    decreases |a|
  {
    if |a| > 0 && a[0] == b[0] && b[0] == c[0] {
      LessTransitive(a[1..], b[1..], c[1..]);
    }
  }

  lemma {:induction false} LessTotal(a: string, b: string)
    requires a != b
    ensures Less(a, b) || Less(b, a)
    decreases |a|
  {
    if |a| > 0 && |b| > 0 && a[0] == b[0] {
      assert a == [a[0]] + a[1..] && b == [b[0]] + b[1..];
      LessTotal(a[1..], b[1..]);
    }
  }

  ghost predicate StrictlyAscending(s: seq<string>) {
    forall i, j :: 0 <= i < j < |s| ==> Less(s[i], s[j])
  }

  /** Adds `x` to an ascending list without duplicates, at its place. */
  function InsertUnique(xs: seq<string>, x: string): (r: seq<string>)
    requires StrictlyAscending(xs)
    ensures StrictlyAscending(r)
    ensures forall v :: v in r <==> v in xs || v == x
  {
    if |xs| == 0 then [x]
    else if x == xs[0] then xs
    else if Less(x, xs[0]) then
      forall j | 0 < j < |xs| ensures Less(x, xs[j]) {
        LessTransitive(x, xs[0], xs[j]);
      }
      assert forall i, j :: 0 < i < j < |xs| + 1 ==> ([x] + xs)[i] == xs[i - 1] && ([x] + xs)[j] == xs[j - 1];
      [x] + xs
    else
      LessTotal(x, xs[0]);
      var rest := InsertUnique(xs[1..], x);
      forall j | 0 <= j < |rest| ensures Less(xs[0], rest[j]) {
        if rest[j] != x {
          assert rest[j] in xs[1..];
        }
      }
      assert xs == [xs[0]] + xs[1..];
      [xs[0]] + rest
  }

  /** Python's `sorted(values.unique())`: the distinct values, ascending. */
  function SortedUnique(values: seq<string>): (r: seq<string>)
    ensures StrictlyAscending(r)
    ensures forall v :: v in r <==> v in values
  {
    if |values| == 0 then []
    else InsertUnique(SortedUnique(values[1..]), values[0])
  }

  /** An ascending list without duplicates is fixed by its elements: whatever
      way the distinct values are gathered, the offered list is the same. */
  lemma {:induction false} AscendingDeterminedByElements(a: seq<string>, b: seq<string>)
    requires StrictlyAscending(a) && StrictlyAscending(b)
    requires forall v :: v in a <==> v in b
    ensures a == b
    decreases |a|
  {
    assert |b| > 0 ==> b[0] in b;
    if |a| > 0 {
      assert a[0] in a && a[0] in b;
      assert |b| > 0;
      assert b[0] in b && b[0] in a;
      assert a == [a[0]] + a[1..] && b == [b[0]] + b[1..];
      if a[0] != b[0] {
        var j :| 0 <= j < |a| && a[j] == b[0];
        var k :| 0 <= k < |b| && b[k] == a[0];
        assert j > 0 && k > 0;
        assert Less(a[0], b[0]) && Less(b[0], a[0]);
        LessAsymmetric(a[0], b[0]);
      }
      forall v ensures v in a[1..] <==> v in b[1..] {
        if v in a[1..] {
          var j :| 0 <= j < |a[1..]| && a[1..][j] == v;
          assert a[j + 1] == v;
          LessIrreflexive(a[0]);
          assert v != a[0] && v in b;
          var m :| 0 <= m < |b| && b[m] == v;
          assert m > 0 && b[1..][m - 1] == v;
        }
        if v in b[1..] {
          var j :| 0 <= j < |b[1..]| && b[1..][j] == v;
          assert b[j + 1] == v;
          LessIrreflexive(b[0]);
          assert v != b[0] && v in a;
          var m :| 0 <= m < |a| && a[m] == v;
          assert m > 0 && a[1..][m - 1] == v;
        }
      }
      AscendingDeterminedByElements(a[1..], b[1..]);
    }
  }
}
