/** Counting the values of a column: pandas' `Series.value_counts()`, the
    totals the map aggregation relies on, and `value_counts().head(n)`. */
module Counting {

  /** One line of a value-count table: a value and how often it occurs. */
  datatype Entry<T> = Entry(value: T, count: nat)

  ghost predicate HasValue<T>(es: seq<Entry<T>>, v: T) {
    exists i :: 0 <= i < |es| && es[i].value == v
  }

  /** No value has two lines. */
  ghost predicate DistinctValues<T>(es: seq<Entry<T>>) {
    forall i, j :: 0 <= i < j < |es| ==> es[i].value != es[j].value
  }

  /** The index of the first line for `x`; `|es|` when there is none. */
  function LineOf<T(==)>(es: seq<Entry<T>>, x: T): (k: nat)
    ensures k <= |es|
    ensures k < |es| ==> es[k].value == x
    ensures forall i :: 0 <= i < k ==> es[i].value != x
  {
    if |es| == 0 then 0
    else if es[0].value == x then 0
    else 1 + LineOf(es[1..], x)
  }

  /** Records one more occurrence of `x`: its line goes up by one, or a new
      line `(x, 1)` is appended when `x` had none. */
  function Bump<T(==)>(es: seq<Entry<T>>, x: T): (r: seq<Entry<T>>)
    requires DistinctValues(es)
    ensures DistinctValues(r)
    ensures HasValue(es, x) ==> |r| == |es|
    ensures !HasValue(es, x) ==> |r| == |es| + 1 && r[|es|] == Entry(x, 1)
    ensures forall i :: 0 <= i < |es| ==>
              r[i].value == es[i].value && r[i].count == es[i].count + (if es[i].value == x then 1 else 0)
  {
    var k := LineOf(es, x);
    if k < |es| then es[k := Entry(x, es[k].count + 1)] else es + [Entry(x, 1)]
  }

  /** `Series.value_counts()` before it sorts: every distinct value once,
      in order of first occurrence, with its exact number of occurrences. */
  function ValueCounts<T(==,!new)>(s: seq<T>): (r: seq<Entry<T>>)
    ensures DistinctValues(r)
    ensures forall i :: 0 <= i < |r| ==> r[i].count == multiset(s)[r[i].value] && r[i].count >= 1
    ensures forall v :: v in s <==> HasValue(r, v)
    decreases |s|
  {
    if |s| == 0 then []
    else
      var es := ValueCounts(s[..|s| - 1]);
      var r := Bump(es, s[|s| - 1]);
      BumpCounts(s[..|s| - 1], s[|s| - 1], es, r);
      BumpValues(s[..|s| - 1], s[|s| - 1], es, r);
      assert s == s[..|s| - 1] + [s[|s| - 1]];
      r
  }

  lemma BumpCounts<T>(init: seq<T>, x: T, es: seq<Entry<T>>, r: seq<Entry<T>>)
    requires DistinctValues(es) && r == Bump(es, x)
    requires forall i :: 0 <= i < |es| ==> es[i].count == multiset(init)[es[i].value]
    requires forall v :: v in init <==> HasValue(es, v)
    ensures forall i :: 0 <= i < |r| ==> r[i].count == multiset(init + [x])[r[i].value] && r[i].count >= 1
  {
    var m := multiset(init + [x]);
    assert m == multiset(init) + multiset{x};
    forall i | 0 <= i < |es| ensures r[i].count == m[r[i].value] && r[i].count >= 1 {
      var v := es[i].value;
      assert HasValue(es, v);
      assert v in init;
      assert m[v] == multiset(init)[v] + (if v == x then 1 else 0);
    }
    if !HasValue(es, x) {
      assert x !in init;
      assert multiset(init)[x] == 0;
      assert r[|es|] == Entry(x, 1);
    }
  }

  lemma BumpValues<T>(init: seq<T>, x: T, es: seq<Entry<T>>, r: seq<Entry<T>>)
    requires DistinctValues(es) && r == Bump(es, x)
    requires forall v :: v in init <==> HasValue(es, v)
    ensures forall v :: v in init + [x] <==> HasValue(r, v)
  {
    forall v ensures v in init + [x] <==> HasValue(r, v) {
      if v in init {
        var i :| 0 <= i < |es| && es[i].value == v;
        assert r[i].value == v;
      }
      if v == x && !HasValue(es, x) {
        assert r[|es|].value == v;
      }
      if HasValue(r, v) {
        var i :| 0 <= i < |r| && r[i].value == v;
        if i < |es| {
          assert es[i].value == v;
        }
      }
    }
  }

  /** Sum of the counts of the lines whose value lies in `keys`. */
  function SumIn<T>(es: seq<Entry<T>>, keys: set<T>): nat {
    if |es| == 0 then 0
    else Share(es[0], keys) + SumIn(es[1..], keys)
  }

  /** What one line adds to `SumIn`. */
  function Share<T>(e: Entry<T>, keys: set<T>): nat {
    if e.value in keys then e.count else 0
  }

  /** Number of elements of `s` that lie in `keys`. */
  function CountIn<T>(s: seq<T>, keys: set<T>): nat {
    if |s| == 0 then 0
    else CountIn(s[..|s| - 1], keys) + (if s[|s| - 1] in keys then 1 else 0)
  }

  lemma SumInBump<T>(es: seq<Entry<T>>, x: T, keys: set<T>)
    requires DistinctValues(es)
    ensures SumIn(Bump(es, x), keys) == SumIn(es, keys) + (if x in keys then 1 else 0)
  {
    var k := LineOf(es, x);
    if k < |es| {
      SumInUpdate(es, k, Entry(x, es[k].count + 1), keys);
    } else {
      SumInAppend(es, Entry(x, 1), keys);
    }
  }

  /** Replacing line `k` swaps its share of the sum for the new line's. */
  lemma {:induction false} SumInUpdate<T>(es: seq<Entry<T>>, k: nat, e: Entry<T>, keys: set<T>)
    requires k < |es|
    ensures SumIn(es[k := e], keys) + Share(es[k], keys) == SumIn(es, keys) + Share(e, keys)
    decreases k
  {
    if k > 0 {
      SumInUpdate(es[1..], k - 1, e, keys);
      assert es[k := e][1..] == es[1..][k - 1 := e];
    } else {
      assert es[k := e][1..] == es[1..];
    }
  }

  /** A line appended at the end adds its share. */
  lemma {:induction false} SumInAppend<T>(es: seq<Entry<T>>, e: Entry<T>, keys: set<T>)
    ensures SumIn(es + [e], keys) == SumIn(es, keys) + Share(e, keys)
    decreases |es|
  {
    if |es| > 0 {
      SumInAppend(es[1..], e, keys);
      assert (es + [e])[1..] == es[1..] + [e];
    } else {
      assert ([e])[1..] == [];
    }
  }

  /** Counting, then adding up the lines for `keys`, gives the number of
      elements in `keys`: nothing is lost or counted twice. */
  lemma {:induction false} SumInValueCounts<T(!new)>(s: seq<T>, keys: set<T>)
    ensures SumIn(ValueCounts(s), keys) == CountIn(s, keys)
    decreases |s|
  {
    if |s| > 0 {
      SumInValueCounts(s[..|s| - 1], keys);
      SumInBump(ValueCounts(s[..|s| - 1]), s[|s| - 1], keys);
    }
  }

  /** Position of the first occurrence of `v` in `s`, or `|s|` if none. */
  function FirstIndex<T(==)>(s: seq<T>, v: T): (k: nat)
    ensures k <= |s|
    ensures k < |s| <==> v in s
    ensures k < |s| ==> s[k] == v
    ensures forall j :: 0 <= j < k ==> s[j] != v
  {
    if |s| == 0 then 0
    else if s[0] == v then 0
    else 1 + FirstIndex(s[1..], v)
  }

  /** The order of the top-n list: a larger count first, and between equal
      counts, the value met first in `s`. */
  predicate Precedes<T(==)>(s: seq<T>, a: Entry<T>, b: Entry<T>) {
    a.count > b.count || (a.count == b.count && FirstIndex(s, a.value) < FirstIndex(s, b.value))
  }

  ghost predicate Ranked<T>(s: seq<T>, es: seq<Entry<T>>) {
    forall i, j :: 0 <= i < j < |es| ==> Precedes(s, es[i], es[j])
  }

  lemma PrecedesTransitive<T>(s: seq<T>, a: Entry<T>, b: Entry<T>, c: Entry<T>)
    requires Precedes(s, a, b) && Precedes(s, b, c)
    ensures Precedes(s, a, c)
  {
  }

  /** Inserts `e` where the ranking puts it. */
  function Place<T(==,!new)>(s: seq<T>, e: Entry<T>, xs: seq<Entry<T>>): (r: seq<Entry<T>>)
    requires Ranked(s, xs) && DistinctValues(xs)
    requires e.value in s && forall i :: 0 <= i < |xs| ==> xs[i].value in s && xs[i].value != e.value
    ensures Ranked(s, r) && DistinctValues(r)
    ensures |r| == |xs| + 1
    ensures forall x :: x in r <==> x == e || x in xs
    ensures multiset(r) == multiset(xs) + multiset{e}
  {
    if |xs| == 0 || Precedes(s, e, xs[0]) then
      forall j | 0 <= j < |xs| ensures Precedes(s, e, xs[j]) && e.value != xs[j].value {
        if j > 0 {
          PrecedesTransitive(s, e, xs[0], xs[j]);
        }
      }
      RankedCons(s, e, xs);
      [e] + xs
    else
      assert xs == [xs[0]] + xs[1..];
      var rest := Place(s, e, xs[1..]);
      assert FirstIndex(s, e.value) != FirstIndex(s, xs[0].value);
      forall j | 0 <= j < |rest| ensures Precedes(s, xs[0], rest[j]) && xs[0].value != rest[j].value {
        if rest[j] != e {
          assert rest[j] in xs[1..];
        }
      }
      RankedCons(s, xs[0], rest);
      [xs[0]] + rest
  }

  /** A line that ranks before every line of a ranked table, with a value of
      its own, can go in front of it. */
  lemma RankedCons<T>(s: seq<T>, h: Entry<T>, rest: seq<Entry<T>>)
    requires Ranked(s, rest) && DistinctValues(rest)
    requires forall j :: 0 <= j < |rest| ==> Precedes(s, h, rest[j]) && h.value != rest[j].value
    ensures Ranked(s, [h] + rest) && DistinctValues([h] + rest)
  {
    var r := [h] + rest;
    assert forall j :: 0 < j < |r| ==> r[j] == rest[j - 1];
  }

  /** Insertion sort of a value-count table into ranking order. */
  function Rank<T(==,!new)>(s: seq<T>, es: seq<Entry<T>>): (r: seq<Entry<T>>)
    requires DistinctValues(es) && forall i :: 0 <= i < |es| ==> es[i].value in s
    ensures Ranked(s, r) && DistinctValues(r)
    ensures |r| == |es|
    ensures forall x :: x in r <==> x in es
    ensures multiset(r) == multiset(es)
  {
    if |es| == 0 then []
    else
      var rest := Rank(s, es[1..]);
      forall i | 0 <= i < |rest| ensures rest[i].value in s && rest[i].value != es[0].value {
        assert rest[i] in es[1..];
      }
      assert es == [es[0]] + es[1..];
      Place(s, es[0], rest)
  }

  /** `Series.value_counts()`: every distinct value of `s` once, with its
      exact number of occurrences, most frequent first, ties in order of
      first occurrence. */
  function SortedCounts<T(==,!new)>(s: seq<T>): (r: seq<Entry<T>>)
    ensures Ranked(s, r) && DistinctValues(r)
    ensures forall i :: 0 <= i < |r| ==> r[i].value in s && r[i].count == multiset(s)[r[i].value]
    ensures forall v :: v in s ==> Entry(v, multiset(s)[v]) in r
  {
    var counts := ValueCounts(s);
    var ranked := Rank(s, counts);
    RankedHolds(s, counts, ranked);
    ranked
  }

  /** For any set of keys, the lines of `value_counts()` for those keys add
      up to the number of elements in the set. */
  lemma SortedCountsSum<T(!new)>(s: seq<T>, keys: set<T>)
    ensures SumIn(SortedCounts(s), keys) == CountIn(s, keys)
  {
    SumInValueCounts(s, keys);
    SumInPermutation(ValueCounts(s), SortedCounts(s), keys);
  }

  /** `value_counts().head(n)`: the n most frequent values of `s` with
      their counts, most frequent first, ties in order of first occurrence;
      every value left out ranks below every value kept. */
  function TopN<T(==,!new)>(s: seq<T>, n: nat): (r: seq<Entry<T>>)
    ensures |r| <= n
    ensures |r| < n ==> forall v :: v in s ==> HasValue(r, v)
    ensures DistinctValues(r)
    ensures forall i :: 0 <= i < |r| ==> r[i].value in s && r[i].count == multiset(s)[r[i].value]
    ensures forall i, j :: 0 <= i < j < |r| ==> r[i].count >= r[j].count
    ensures forall i, j :: 0 <= i < j < |r| && r[i].count == r[j].count ==>
              FirstIndex(s, r[i].value) < FirstIndex(s, r[j].value)
    ensures forall i, v :: 0 <= i < |r| && v in s && !HasValue(r, v) ==>
              Precedes(s, r[i], Entry(v, multiset(s)[v]))
  {
    var ranked := SortedCounts(s);
    var r := if |ranked| <= n then ranked else ranked[..n];
    TopNKept(s, ranked, r);
    TopNLeftOut(s, n, ranked, r);
    r
  }

  /** The same lines in another order have the same sum. */
  lemma {:induction false} SumInPermutation<T>(a: seq<Entry<T>>, b: seq<Entry<T>>, keys: set<T>)
    requires multiset(a) == multiset(b)
    ensures SumIn(a, keys) == SumIn(b, keys)
    decreases |a|
  {
    if |a| == 0 {
      assert |b| == |multiset(b)| == 0;
    } else {
      assert a[0] in multiset(b);
      var j :| 0 <= j < |b| && b[j] == a[0];
      var rest := b[..j] + b[j + 1..];
      RemoveMatching(a, b, j);
      SumInPermutation(a[1..], rest, keys);
      SumInRemove(b, j, keys);
    }
  }

  /** Taking the same line out of two permutations of each other leaves
      permutations of each other. */
  lemma RemoveMatching<X>(a: seq<X>, b: seq<X>, j: nat)
    requires multiset(a) == multiset(b) && |a| > 0 && j < |b| && b[j] == a[0]
    ensures multiset(a[1..]) == multiset(b[..j] + b[j + 1..])
  {
    assert b == b[..j] + [b[j]] + b[j + 1..];
    assert a == [a[0]] + a[1..];
    calc {
      multiset(a[1..]);
      multiset(a) - multiset{a[0]};
      multiset(b) - multiset{b[j]};
      multiset(b[..j]) + multiset(b[j + 1..]);
      multiset(b[..j] + b[j + 1..]);
    }
  }

  /** Taking out line `j` takes out its share of the sum. */
  lemma {:induction false} SumInRemove<T>(b: seq<Entry<T>>, j: nat, keys: set<T>)
    requires j < |b|
    ensures SumIn(b, keys) == Share(b[j], keys) + SumIn(b[..j] + b[j + 1..], keys)
    decreases j
  {
    if j > 0 {
      SumInRemove(b[1..], j - 1, keys);
      assert b[1..][..j - 1] + b[1..][j..] == (b[..j] + b[j + 1..])[1..];
    } else {
      assert b[..j] + b[j + 1..] == b[1..];
    }
  }

  /** Every value of `s` has its line, with its exact count, in the ranked
      table, and every line of the ranked table is such a line. */
  lemma RankedHolds<T(!new)>(s: seq<T>, counts: seq<Entry<T>>, ranked: seq<Entry<T>>)
    requires forall i :: 0 <= i < |counts| ==> counts[i].count == multiset(s)[counts[i].value]
    requires forall v :: v in s <==> HasValue(counts, v)
    requires forall x :: x in ranked <==> x in counts
    ensures forall i :: 0 <= i < |ranked| ==> ranked[i].value in s && ranked[i].count == multiset(s)[ranked[i].value]
    ensures forall v :: v in s ==> Entry(v, multiset(s)[v]) in ranked
  {
    forall i | 0 <= i < |ranked| ensures ranked[i].value in s && ranked[i].count == multiset(s)[ranked[i].value] {
      assert ranked[i] in counts;
      var k :| 0 <= k < |counts| && counts[k] == ranked[i];
      assert HasValue(counts, ranked[i].value);
    }
    forall v | v in s ensures Entry(v, multiset(s)[v]) in ranked {
      var k :| 0 <= k < |counts| && counts[k].value == v;
      assert counts[k] == Entry(v, multiset(s)[v]);
      assert counts[k] in counts;
    }
  }

  /** A prefix of the ranked table keeps its exact counts and its order. */
  lemma TopNKept<T>(s: seq<T>, ranked: seq<Entry<T>>, r: seq<Entry<T>>)
    requires forall i :: 0 <= i < |ranked| ==> ranked[i].value in s && ranked[i].count == multiset(s)[ranked[i].value]
    requires Ranked(s, ranked) && DistinctValues(ranked)
    requires |r| <= |ranked| && r == ranked[..|r|]
    ensures forall i :: 0 <= i < |r| ==> r[i].value in s && r[i].count == multiset(s)[r[i].value]
    ensures DistinctValues(r)
    ensures forall i, j :: 0 <= i < j < |r| ==> r[i].count >= r[j].count
    ensures forall i, j :: 0 <= i < j < |r| && r[i].count == r[j].count ==>
              FirstIndex(s, r[i].value) < FirstIndex(s, r[j].value)
  {
    assert forall i :: 0 <= i < |r| ==> r[i] == ranked[i];
    forall i, j | 0 <= i < j < |r| ensures Precedes(s, r[i], r[j]) && r[i].value != r[j].value {
      assert Precedes(s, ranked[i], ranked[j]);
    }
  }

  lemma TopNLeftOut<T(!new)>(s: seq<T>, n: nat, ranked: seq<Entry<T>>, r: seq<Entry<T>>)
    requires Ranked(s, ranked)
    requires forall v :: v in s ==> Entry(v, multiset(s)[v]) in ranked
    requires r == if |ranked| <= n then ranked else ranked[..n]
    ensures |r| < n ==> forall v :: v in s ==> HasValue(r, v)
    ensures forall i, v :: 0 <= i < |r| && v in s && !HasValue(r, v) ==>
              Precedes(s, r[i], Entry(v, multiset(s)[v]))
  {
    forall i, v | 0 <= i < |r| && v in s && !HasValue(r, v) ensures Precedes(s, r[i], Entry(v, multiset(s)[v])) {
      var j :| 0 <= j < |ranked| && ranked[j] == Entry(v, multiset(s)[v]);
      assert forall k :: 0 <= k < |r| ==> r[k] == ranked[k] && ranked[k].value != v;
    }
    if |r| < n {
      forall v | v in s ensures HasValue(r, v) {
        var j :| 0 <= j < |ranked| && ranked[j] == Entry(v, multiset(s)[v]);
        assert r[j].value == v;
      }
    }
  }
}
