/**
 Python's `str.strip()` with no argument: remove leading and trailing characters
 for which `str.isspace()` holds, and nothing else.
 */
module Whitespace {

  /**
   The code points Python's `str.isspace()` accepts: the ASCII controls TAB to CR,
   the separators FS to US, SPACE, NEL, NO-BREAK SPACE and the remaining Unicode
   space separators.
   */
  predicate IsSpace(c: char) {
    var k := c as int;
    || 0x09 <= k <= 0x0D
    || 0x1C <= k <= 0x20
    || k == 0x85 || k == 0xA0 || k == 0x1680
    || 0x2000 <= k <= 0x200A
    || k == 0x2028 || k == 0x2029 || k == 0x202F || k == 0x205F || k == 0x3000
  }

  /** ASCII and Unicode spaces count; the zero-width space and letters do not. */
  lemma IsSpaceExamples()
    ensures IsSpace(' ') && IsSpace('\t') && IsSpace('\n') && IsSpace('\r')
    ensures IsSpace('\U{1F}') && IsSpace('\U{A0}') && IsSpace('\U{2009}') && IsSpace('\U{3000}')
    ensures !IsSpace('a') && !IsSpace('\U{200B}') && !IsSpace('\U{FEFF}') && !IsSpace('\U{1B}')
  {
  }

  predicate AllSpace(s: string) {
    forall i :: 0 <= i < |s| ==> IsSpace(s[i])
  }

  /** Every character of `s` from `lo` up to (not including) `hi` is whitespace. */
  predicate SpaceBetween(s: string, lo: int, hi: int) {
    forall k :: lo <= k < hi && 0 <= k < |s| ==> IsSpace(s[k])
  }

  /** Neither end of `s` is whitespace. */
  predicate Stripped(s: string) {
    s == [] || (!IsSpace(s[0]) && !IsSpace(s[|s| - 1]))
  }

  /** The first index at or after `i` that does not hold whitespace, or `|s|`. */
  function SkipForward(s: string, i: nat): (j: nat)
    requires i <= |s|
    ensures i <= j <= |s|
    ensures SpaceBetween(s, i, j)
    ensures j == |s| || !IsSpace(s[j])
    decreases |s| - i
  {
    if i < |s| && IsSpace(s[i]) then SkipForward(s, i + 1) else i
  }

  /** Moving down from `hi`, the first cut above `lo` whose left neighbour is not whitespace, or `lo`. */
  function SkipBackward(s: string, lo: nat, hi: nat): (j: nat)
    requires lo <= hi <= |s|
    ensures lo <= j <= hi
    ensures SpaceBetween(s, j, hi)
    ensures j == lo || !IsSpace(s[j - 1])
    decreases hi
  {
    if lo < hi && IsSpace(s[hi - 1]) then SkipBackward(s, lo, hi - 1) else hi
  }

  /** `s[..i]` and `s[j..]` are all whitespace: cutting there removes only padding. */
  predicate Margins(s: string, i: int, j: int) {
    0 <= i <= j <= |s| && SpaceBetween(s, 0, i) && SpaceBetween(s, j, |s|)
  }

  /** `s.strip()`: a slice of `s` between two all-whitespace margins, itself unpadded. */
  function Strip(s: string): (r: string)
    ensures Stripped(r)
    ensures exists i, j :: Margins(s, i, j) && r == s[i..j]
  {
    var i := SkipForward(s, 0);
    var j := SkipBackward(s, i, |s|);
    assert Margins(s, i, j);
    s[i..j]
  }

  /** Any index that ends a whitespace run from `i` at a non-whitespace character is where skipping stops. */
  lemma {:induction false} SkipForwardStops(s: string, i: nat, m: nat)
    requires i <= m <= |s| && SpaceBetween(s, i, m)
    requires m == |s| || !IsSpace(s[m])
    ensures SkipForward(s, i) == m
    decreases m - i
  {
    if i < m {
      SkipForwardStops(s, i + 1, m);
    }
  }

  /** Any cut in `lo..hi` with only whitespace above it and none just below it is where skipping back stops. */
  lemma {:induction false} SkipBackwardStops(s: string, lo: nat, hi: nat, m: nat)
    requires lo <= m <= hi <= |s| && SpaceBetween(s, m, hi)
    requires m == lo || !IsSpace(s[m - 1])
    ensures SkipBackward(s, lo, hi) == m
    decreases hi - m
  {
    if m < hi {
      SkipBackwardStops(s, lo, hi - 1, m);
    }
  }

  /**
   The characterisation of `strip`: whenever `s` is an unpadded core between two
   all-whitespace margins, stripping yields exactly that core.
   */
  lemma StripUnique(a: string, r: string, b: string)
    requires AllSpace(a) && AllSpace(b) && Stripped(r)
    ensures Strip(a + r + b) == r
  {
    var s := a + r + b;
    var i := |a|;
    var j := |a| + |r|;
    assert forall k :: 0 <= k < |a| ==> s[k] == a[k];
    assert forall k :: j <= k < |s| ==> s[k] == b[k - j];
    assert forall k :: i <= k < j ==> s[k] == r[k - i];
    if r == [] {
      SkipForwardStops(s, 0, |s|);
      assert s[|s|..|s|] == [];
    } else {
      SkipForwardStops(s, 0, i);
      SkipBackwardStops(s, i, |s|, j);
      assert s[i..j] == r;
    }
  }

  /** Stripping twice is stripping once. */
  lemma StripIdempotent(s: string)
    ensures Strip(Strip(s)) == Strip(s)
  {
    StripFixedIff(Strip(s));
  }

  /** A string is left unchanged by stripping exactly when neither end is whitespace. */
  lemma StripFixedIff(s: string)
    ensures Strip(s) == s <==> Stripped(s)
  {
    if Stripped(s) {
      assert [] + s + [] == s;
      StripUnique([], s, []);
    }
  }
}
