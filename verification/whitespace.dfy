/** Python's `str.strip()` with no argument: removes the characters for which
    `str.isspace()` holds from both ends of a string. */
module Whitespace {

  /** The characters Python's `str.isspace()` accepts. */
  predicate IsSpace(c: char) {
    || c == ' '
    || ('\t' <= c <= '\r')
    || ('\U{1C}' <= c <= '\U{1F}')
    || c == '\U{85}' || c == '\U{A0}' || c == '\U{1680}'
    || ('\U{2000}' <= c <= '\U{200A}')
    || c == '\U{2028}' || c == '\U{2029}' || c == '\U{202F}' || c == '\U{205F}' || c == '\U{3000}'
  }

  predicate AllSpace(s: string) {
    forall k :: 0 <= k < |s| ==> IsSpace(s[k])
  }

  /** Neither end of `s` is a whitespace character. */
  predicate IsStripped(s: string) {
    s == [] || (!IsSpace(s[0]) && !IsSpace(s[|s| - 1]))
  }

  /** `r` is a slice of `s` and everything around it is whitespace. */
  predicate TrimmedFrom(s: string, r: string) {
    exists i :: 0 <= i && i + |r| <= |s| && r == s[i..i + |r|] && AllSpace(s[..i]) && AllSpace(s[i + |r|..])
  }

  /** The end of the run of whitespace starting at `i`: the first position
      at or after `i` that is not whitespace, or `|s|`. */
  function SkipForward(s: string, i: nat): (n: nat)
    requires i <= |s|
    ensures i <= n <= |s|
    ensures forall k :: i <= k < n ==> IsSpace(s[k])
    ensures n == |s| || !IsSpace(s[n])
    decreases |s| - i
  {
    if i < |s| && IsSpace(s[i]) then SkipForward(s, i + 1) else i
  }

  /** The start of the run of whitespace ending at `j`, not going below `lo`:
      the last position after which `s[lo..j]` holds only whitespace. */
  function SkipBackward(s: string, lo: nat, j: nat): (n: nat)
    requires lo <= j <= |s|
    ensures lo <= n <= j
    ensures forall k :: n <= k < j ==> IsSpace(s[k])
    ensures n == lo || !IsSpace(s[n - 1])
    decreases j - lo
  {
    if lo < j && IsSpace(s[j - 1]) then SkipBackward(s, lo, j - 1) else j
  }

  /** `strip()`: the result is a slice of `s` whose ends are not whitespace,
      and every character cut away on either side is whitespace. */
  function Strip(s: string): (r: string)
    ensures IsStripped(r)
    ensures TrimmedFrom(s, r)
  {
    var a := SkipForward(s, 0);
    var b := SkipBackward(s, a, |s|);
    CutSpaces(s, a, b);
    s[a..b]
  }

  /** Cutting whitespace-only runs from both ends leaves a trimmed slice. */
  lemma {:induction false} CutSpaces(s: string, a: nat, b: nat)
    requires a <= b <= |s|
    requires forall k :: 0 <= k < a ==> IsSpace(s[k])
    requires forall k :: b <= k < |s| ==> IsSpace(s[k])
    ensures TrimmedFrom(s, s[a..b])
  {
    assert s[a..b] == s[a..a + |s[a..b]|];
    assert forall k :: 0 <= k < |s[..a]| ==> s[..a][k] == s[k];
    assert forall k :: 0 <= k < |s[b..]| ==> s[b..][k] == s[b + k];
  }

  /** The run of whitespace from 0 ends at the first non-whitespace position. */
  lemma {:induction false} SkipForwardStops(s: string, i: nat)
    requires i <= |s| && AllSpace(s[..i]) && (i == |s| || !IsSpace(s[i]))
    ensures SkipForward(s, 0) == i
  {
    var a := SkipForward(s, 0);
    assert forall k :: 0 <= k < i ==> s[..i][k] == s[k];
    assert a < |s| ==> !IsSpace(s[a]);
  }

  /** The run of whitespace ending at `|s|` starts after the last
      non-whitespace position at or above `lo`. */
  lemma {:induction false} SkipBackwardStops(s: string, lo: nat, j: nat)
    requires lo <= j <= |s| && AllSpace(s[j..]) && (j == lo || !IsSpace(s[j - 1]))
    ensures SkipBackward(s, lo, |s|) == j
  {
    var b := SkipBackward(s, lo, |s|);
    assert forall k :: j <= k < |s| ==> s[j..][k - j] == s[k];
    assert b > lo ==> !IsSpace(s[b - 1]);
  }

  /** Two whitespace-only parts make a whitespace-only whole. */
  lemma {:induction false} AllSpaceJoin(s: string, i: nat)
    requires i <= |s| && AllSpace(s[..i]) && AllSpace(s[i..])
    ensures AllSpace(s[..|s|])
  {
    assert forall k :: 0 <= k < i ==> s[..|s|][k] == s[..i][k];
    assert forall k :: i <= k < |s| ==> s[..|s|][k] == s[i..][k - i];
  }

  /** The reference definition is exact: a string whose ends are not
      whitespace and that is cut from `s` by removing whitespace only is
      `Strip(s)`. */
  lemma {:induction false} StripUnique(s: string, r: string)
    requires IsStripped(r) && TrimmedFrom(s, r)
    ensures r == Strip(s)
  {
    var i :| 0 <= i && i + |r| <= |s| && r == s[i..i + |r|] && AllSpace(s[..i]) && AllSpace(s[i + |r|..]);
    if r == [] {
      AllSpaceJoin(s, i);
      SkipForwardStops(s, |s|);
    } else {
      assert s[i] == r[0] && s[i + |r| - 1] == r[|r| - 1];
      SkipForwardStops(s, i);
      SkipBackwardStops(s, i, i + |r|);
    }
  }

  /** Stripping a string whose ends are not whitespace changes nothing. */
  lemma {:induction false} StripStripped(r: string)
    requires IsStripped(r)
    ensures Strip(r) == r
  {
    assert TrimmedFrom(r, r) by {
      assert r[..0] == [] && r[|r|..] == [];
      assert r == r[0..0 + |r|];
    }
    StripUnique(r, r);
  }

  /** Stripping twice is stripping once. */
  lemma {:induction false} StripIdempotent(s: string)
    ensures Strip(Strip(s)) == Strip(s)
  {
    StripStripped(Strip(s));
  }
}
