/** The string operations the dashboard relies on: Python's `str.strip()`
    and `str.upper()` as the loader applies them to region names, and the
    substring test `sub in s` used to recognise column names. */
module Text {

  /** Python's `str.isspace()` for one character: the ASCII controls
      TAB..CR and FS..US, the space, NEL, NO-BREAK SPACE and the Unicode
      space separators. */
  predicate IsSpace(c: char) {
    var n := c as int;
    || (0x09 <= n <= 0x0D)
    || (0x1C <= n <= 0x20)
    || n == 0x85 || n == 0xA0 || n == 0x1680
    || (0x2000 <= n <= 0x200A)
    || n == 0x2028 || n == 0x2029 || n == 0x202F || n == 0x205F || n == 0x3000
  }

  /** The lower-case letters whose upper-case form is 32 code points below:
      ASCII `a`..`z` and Latin-1 `à`..`þ` except the division sign. */
  predicate IsLower(c: char) {
    var n := c as int;
    (0x61 <= n <= 0x7A) || (0xE0 <= n <= 0xFE && n != 0xF7)
  }

  function UpperChar(c: char): (u: char)
    ensures !IsLower(u)
    ensures IsSpace(u) <==> IsSpace(c)
    ensures !IsLower(c) ==> u == c
    ensures IsLower(c) ==> u as int == c as int - 32
  {
    if IsLower(c) then (c as int - 32) as char else c
  }

  predicate IsUpperCase(s: string) {
    forall k :: 0 <= k < |s| ==> !IsLower(s[k])
  }

  predicate AllSpace(s: string) {
    forall k :: 0 <= k < |s| ==> IsSpace(s[k])
  }

  /** Neither end of `s` is white space. */
  predicate IsTrimmed(s: string) {
    |s| == 0 || (!IsSpace(s[0]) && !IsSpace(s[|s| - 1]))
  }

  /** Python's `str.upper()`: every lower-case letter is replaced by its
      upper-case form and every other character is kept. */
  function Upper(s: string): (r: string)
    ensures |r| == |s|
    ensures IsUpperCase(r)
    ensures forall k :: 0 <= k < |s| && !IsLower(s[k]) ==> r[k] == s[k]
    ensures forall k :: 0 <= k < |s| && IsLower(s[k]) ==> r[k] as int == s[k] as int - 32
    ensures forall k :: 0 <= k < |s| ==> (IsSpace(r[k]) <==> IsSpace(s[k]))
    ensures IsUpperCase(s) ==> r == s
  {
    seq(|s|, k requires 0 <= k < |s| => UpperChar(s[k]))
  }

  /** Python's `str.lstrip()`: drops the longest all-space prefix. */
  function TrimStart(s: string): (r: string)
    ensures |r| <= |s| && r == s[|s| - |r|..]
    ensures AllSpace(s[..|s| - |r|])
    ensures |r| == 0 || !IsSpace(r[0])
  {
    if |s| > 0 && IsSpace(s[0]) then
      var r := TrimStart(s[1..]);
      assert s[..|s| - |r|] == [s[0]] + s[1..][..|s| - 1 - |r|];
      r
    else
      s
  }

  /** Python's `str.rstrip()`: drops the longest all-space suffix. */
  function TrimEnd(s: string): (r: string)
    ensures |r| <= |s| && r == s[..|r|]
    ensures AllSpace(s[|r|..])
    ensures |r| == 0 || !IsSpace(r[|r| - 1])
  {
    if |s| > 0 && IsSpace(s[|s| - 1]) then
      var r := TrimEnd(s[..|s| - 1]);
      assert s[|r|..] == s[..|s| - 1][|r|..] + [s[|s| - 1]];
      r
    else
      s
  }

  /** `r` is what is left of `s` once the white space before position `i`
      and after position `i + |r|` is cut away. */
  ghost predicate StripsTo(s: string, r: string, i: int) {
    0 <= i <= |s| - |r| && r == s[i..i + |r|] && AllSpace(s[..i]) && AllSpace(s[i + |r|..])
  }

  /** Python's `str.strip()` with no argument: `r` is the slice of `s`
      left once the white space at both ends is removed. */
  function Strip(s: string): (r: string)
    ensures IsTrimmed(r)
    ensures exists i :: StripsTo(s, r, i)
    ensures |r| == 0 <==> AllSpace(s)
    ensures IsTrimmed(s) ==> r == s
  {
    var t := TrimStart(s);
    var r := TrimEnd(t);
    StripFacts(s, t, r);
    r
  }

  /** What `TrimStart` promises of `t`, cut from the front of `s`. */
  ghost predicate CutFront(s: string, t: string) {
    |t| <= |s| && t == s[|s| - |t|..] && AllSpace(s[..|s| - |t|]) && (|t| == 0 || !IsSpace(t[0]))
  }

  /** What `TrimEnd` promises of `r`, cut from the back of `t`. */
  ghost predicate CutBack(t: string, r: string) {
    |r| <= |t| && r == t[..|r|] && AllSpace(t[|r|..]) && (|r| == 0 || !IsSpace(r[|r| - 1]))
  }

  lemma StripFacts(s: string, t: string, r: string)
    requires CutFront(s, t) && CutBack(t, r)
    ensures IsTrimmed(r)
    ensures StripsTo(s, r, |s| - |t|)
    ensures |r| == 0 <==> AllSpace(s)
    ensures IsTrimmed(s) ==> r == s
  {
    StripTrimmed(t, r);
    StripSlice(s, t, r);
    StripEmpty(s, t, r);
    StripIdentity(s, t, r);
  }

  lemma StripTrimmed(t: string, r: string)
    requires (|t| == 0 || !IsSpace(t[0])) && CutBack(t, r)
    ensures IsTrimmed(r)
  {
    if |r| > 0 {
      assert r[0] == t[0];
    }
  }

  lemma StripSlice(s: string, t: string, r: string)
    requires CutFront(s, t) && CutBack(t, r)
    ensures StripsTo(s, r, |s| - |t|)
  {
    var i := |s| - |t|;
    assert r == s[i..i + |r|];
    assert s[i + |r|..] == t[|r|..];
  }

  lemma StripIdentity(s: string, t: string, r: string)
    requires CutFront(s, t) && CutBack(t, r)
    ensures IsTrimmed(s) ==> r == s
  {
    if IsTrimmed(s) && |s| > 0 {
      assert t == s;
    }
  }

  lemma StripEmpty(s: string, t: string, r: string)
    requires CutFront(s, t) && CutBack(t, r)
    ensures |r| == 0 <==> AllSpace(s)
  {
    var i := |s| - |t|;
    if AllSpace(s) {
      SpaceSuffix(s, i);
      assert |t| == 0;
    }
    if |r| == 0 {
      assert AllSpace(t);
      JoinSpace(s[..i], t);
      assert s == s[..i] + t;
    }
  }

  lemma SpaceSuffix(s: string, i: int)
    requires AllSpace(s) && 0 <= i <= |s|
    ensures AllSpace(s[i..])
  {
  }

  lemma JoinSpace(a: string, b: string)
    requires AllSpace(a) && AllSpace(b)
    ensures AllSpace(a + b)
  {
  }

  /** What the loader does to a region name: `strip()`, then `upper()`. The
      result is empty exactly when the name held nothing but white space, and
      a name that is already clean is left alone, so cleaning twice is
      cleaning once. */
  function Clean(s: string): (r: string)
    ensures IsTrimmed(r) && IsUpperCase(r)
    ensures |r| == 0 <==> AllSpace(s)
    ensures IsTrimmed(s) && IsUpperCase(s) ==> r == s
  {
    Upper(Strip(s))
  }

  /** `sub` occurs in `s` as a contiguous run of characters. */
  ghost predicate IsSubstring(sub: string, s: string) {
    exists i :: OccursAt(sub, s, i)
  }

  ghost predicate OccursAt(sub: string, s: string, i: int) {
    0 <= i <= |s| - |sub| && s[i..i + |sub|] == sub
  }

  /** Python's `sub in s` on strings. */
  function Contains(s: string, sub: string): (b: bool)
    ensures b <==> IsSubstring(sub, s)
    decreases |s|
  {
    if |sub| > |s| then false
    else if s[..|sub|] == sub then assert OccursAt(sub, s, 0); true
    else
      var b := Contains(s[1..], sub);
      ShiftSubstring(s, sub);
      b
  }

  /** When `sub` is not a prefix of `s`, it occurs in `s` exactly when it
      occurs in `s` without its first character. */
  lemma ShiftSubstring(s: string, sub: string)
    requires |sub| <= |s| && s[..|sub|] != sub
    ensures IsSubstring(sub, s) <==> IsSubstring(sub, s[1..])
  {
    if IsSubstring(sub, s) {
      var i :| OccursAt(sub, s, i);
      assert i != 0;
      assert s[1..][i - 1..i - 1 + |sub|] == sub;
      assert OccursAt(sub, s[1..], i - 1);
    }
    if IsSubstring(sub, s[1..]) {
      var i :| OccursAt(sub, s[1..], i);
      assert s[i + 1..i + 1 + |sub|] == sub;
      assert OccursAt(sub, s, i + 1);
    }
  }

  /** A string cannot occur in one that lacks one of its characters. */
  lemma MissingCharNotSubstring(sub: string, s: string, k: nat)
    requires k < |sub| && sub[k] !in s
    ensures !IsSubstring(sub, s)
  {
    forall i | 0 <= i <= |s| - |sub| ensures !OccursAt(sub, s, i) {
      assert s[i..i + |sub|][k] == s[i + k];
      assert s[i + k] in s;
    }
  }
}
