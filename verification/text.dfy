/** Characters and substrings: the small vocabulary the URL scanners share. */
module Text {

  /** `\d` and `[0-9]` in a JavaScript regular expression without the `u` flag. */
  predicate IsDigit(c: char) {
    '0' <= c <= '9'
  }

  predicate AllDigits(s: string) {
    forall k :: 0 <= k < |s| ==> IsDigit(s[k])
  }

  lemma AllDigitsConcat(p: string, q: string)
    requires AllDigits(p) && AllDigits(q)
    ensures AllDigits(p + q)
  {
    forall k | 0 <= k < |p + q|
      ensures IsDigit((p + q)[k])
    {
      if k >= |p| {
        assert (p + q)[k] == q[k - |p|];
      }
    }
  }

  /** Every character of `s` from index `lo` up to, not including, `hi` is
      a digit. */
  predicate DigitsBetween(s: string, lo: int, hi: int) {
    forall k :: lo <= k < hi ==> 0 <= k < |s| && IsDigit(s[k])
  }

  /** The digits between two indices are the digits of the slice. */
  lemma DigitsBetweenSlice(s: string, lo: int, hi: int)
    requires 0 <= lo <= hi <= |s|
    ensures DigitsBetween(s, lo, hi) <==> AllDigits(s[lo..hi])
  {
    if AllDigits(s[lo..hi]) {
      forall k | lo <= k < hi
        ensures IsDigit(s[k])
      {
        assert s[k] == s[lo..hi][k - lo];
      }
    }
  }

  /** `pat` occurs in `s` starting at index `i`. */
  predicate OccursAt(s: string, pat: string, i: int) {
    0 <= i && i + |pat| <= |s| && forall k :: 0 <= k < |pat| ==> s[i + k] == pat[k]
  }

  /** An occurrence is a slice of the text. */
  lemma OccursAtSlice(s: string, pat: string, i: int)
    requires 0 <= i && i + |pat| <= |s|
    ensures OccursAt(s, pat, i) <==> s[i..i + |pat|] == pat
  {
    if OccursAt(s, pat, i) {
      assert forall k :: 0 <= k < |pat| ==> s[i..i + |pat|][k] == pat[k];
    }
  }

  /** Scans `s` from index `i` for an occurrence of `pat`. */
  function IncludesFrom(s: string, pat: string, i: nat): (b: bool)
    requires i <= |s|
    ensures b <==> exists j :: i <= j && OccursAt(s, pat, j)
    decreases |s| - i
  {
    if i + |pat| > |s| then false
    else if OccursAt(s, pat, i) then true
    else IncludesFrom(s, pat, i + 1)
  }

  /** `String.prototype.includes`. */
  function Includes(s: string, pat: string): (b: bool)
    ensures b <==> exists j :: OccursAt(s, pat, j)
  {
    IncludesFrom(s, pat, 0)
  }

  /** An occurrence of a concatenation is an occurrence of each part, side by side. */
  lemma OccursConcat(s: string, x: string, y: string, i: int)
    ensures OccursAt(s, x + y, i) <==> OccursAt(s, x, i) && OccursAt(s, y, i + |x|)
  {
    if OccursAt(s, x + y, i) {
      forall k | 0 <= k < |x|
        ensures s[i + k] == x[k]
      {
        assert s[i + k] == (x + y)[k];
      }
      forall k | 0 <= k < |y|
        ensures s[i + |x| + k] == y[k]
      {
        assert s[i + (|x| + k)] == (x + y)[|x| + k];
      }
    }
    if OccursAt(s, x, i) && OccursAt(s, y, i + |x|) {
      forall k | 0 <= k < |x + y|
        ensures s[i + k] == (x + y)[k]
      {
        if k >= |x| {
          assert s[i + |x| + (k - |x|)] == y[k - |x|];
        }
      }
    }
  }

}
