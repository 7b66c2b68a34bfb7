/** `getCommentId`: the regular expression
    `/fsd_comment:\((\d+),urn:li:activity:\d+\)/` run once (no `g` flag) over
    the percent-decoded URL; the result is capture group 1 of the leftmost
    match. The matcher is written for patterns of this one shape — a literal,
    a captured `\d+`, a literal, a `\d+`, a literal — and proved for every
    such pattern whose inner literals start with a non-digit, so that the
    proofs never look inside the three literals. */
module CommentId {

  import opened Optional
  import opened Text

  /** The literal text before the captured comment number. */
  const CommentPrefix: string := "fsd_comment:("

  /** The literal text between the comment number and the activity number. */
  const ActivityInfix: string := ",urn:li:activity:"

  /** The literal text that closes the fragment. */
  const Closing: string := ")"

  /** A pattern `prefix(\d+)infix\d+closing`. */
  datatype Fragment = Fragment(prefix: string, infix: string, closing: string)

  /** The pattern `getCommentId` uses. */
  const CommentFragment: Fragment := Fragment(CommentPrefix, ActivityInfix, Closing)

  /** Each digit run is ended by a literal that starts with a non-digit, so a
      greedy `\d+` never eats into the text after it. */
  predicate Delimited(f: Fragment) {
    && |f.infix| >= 1 && !IsDigit(f.infix[0])
    && |f.closing| >= 1 && !IsDigit(f.closing[0])
  }

  lemma CommentFragmentDelimited()
    ensures Delimited(CommentFragment)
  {
    assert CommentFragment.infix[0] == ',';
  }

  /** What a pattern means, without any engine: at index `i` the text reads
      the prefix, the non-empty digits `first`, the infix, the non-empty
      digits `second`, and the closing literal, side by side. */
  ghost predicate FragmentAt(f: Fragment, s: string, i: int, first: string, second: string) {
    var a := i + |f.prefix|;
    var b := a + |first|;
    var c := b + |f.infix|;
    var e := c + |second|;
    && |first| >= 1 && AllDigits(first)
    && |second| >= 1 && AllDigits(second)
    && OccursAt(s, f.prefix, i)
    && OccursAt(s, first, a)
    && OccursAt(s, f.infix, b)
    && OccursAt(s, second, c)
    && OccursAt(s, f.closing, e)
  }

  /** The pattern matches somewhere at index `i`. */
  ghost predicate StartsAt(f: Fragment, s: string, i: int) {
    exists first, second :: FragmentAt(f, s, i, first, second)
  }

  /** The pattern matches at no index before `i`. */
  ghost predicate NoneBefore(f: Fragment, s: string, i: int) {
    forall j, first, second :: 0 <= j < i ==> !FragmentAt(f, s, j, first, second)
  }

  /** The parts side by side are the whole text of the fragment. */
  lemma {:induction false} FragmentText(f: Fragment, s: string, i: int, first: string, second: string)
    ensures FragmentAt(f, s, i, first, second) <==>
      && |first| >= 1 && AllDigits(first)
      && |second| >= 1 && AllDigits(second)
      && OccursAt(s, f.prefix + first + f.infix + second + f.closing, i)
  {
    var p1 := f.prefix;
    var p2 := p1 + first;
    var p3 := p2 + f.infix;
    var p4 := p3 + second;
    OccursConcat(s, p4, f.closing, i);
    OccursConcat(s, p3, second, i);
    OccursConcat(s, p2, f.infix, i);
    OccursConcat(s, p1, first, i);
  }

  /** Length of the maximal run of digits starting at index `i` (what a greedy
      `\d+` consumes before backtracking). */
  function DigitRunLength(s: string, i: nat): (k: nat)
    requires i <= |s|
    ensures i + k <= |s|
    decreases |s| - i
  {
    if i < |s| && IsDigit(s[i]) then 1 + DigitRunLength(s, i + 1) else 0
  }

  /** The index just past the maximal run of digits starting at index `i`. */
  function RunEnd(s: string, i: nat): (e: nat)
    requires i <= |s|
    ensures i <= e <= |s|
  {
    i + DigitRunLength(s, i)
  }

  /** The run is all digits, and a non-digit or the end of the text follows it. */
  lemma {:induction false} DigitRunIsRun(s: string, i: nat)
    requires i <= |s|
    ensures DigitsBetween(s, i, RunEnd(s, i))
    ensures RunEnd(s, i) == |s| || !IsDigit(s[RunEnd(s, i)])
    decreases |s| - i
  {
    if i < |s| && IsDigit(s[i]) {
      DigitRunIsRun(s, i + 1);
    }
  }

  /** A digit run followed by a non-digit is the maximal run. */
  lemma {:induction false} DigitRunIsMaximal(s: string, i: nat, k: nat)
    requires DigitsBetween(s, i, i + k)
    requires i + k < |s| && !IsDigit(s[i + k])
    ensures RunEnd(s, i) == i + k
    decreases k
  {
    if k > 0 {
      assert IsDigit(s[i]);
      DigitRunIsMaximal(s, i + 1, k - 1);
    }
  }

  /** An occurrence of a digit string is a run of digits in the text. */
  lemma DigitsOfOccurrence(s: string, pat: string, i: int)
    requires OccursAt(s, pat, i) && AllDigits(pat)
    ensures DigitsBetween(s, i, i + |pat|)
  {
    forall k | i <= k < i + |pat|
      ensures 0 <= k < |s| && IsDigit(s[k])
    {
      assert s[i + (k - i)] == pat[k - i];
    }
  }

  /** A run of digits in the text is a digit string occurring there. */
  lemma OccurrenceOfDigits(s: string, a: int, b: int)
    requires 0 <= a <= b <= |s| && DigitsBetween(s, a, b)
    ensures AllDigits(s[a..b]) && OccursAt(s, s[a..b], a)
  {
    assert forall k :: 0 <= k < b - a ==> s[a..b][k] == s[a + k];
  }

  /** The engine at one start position: greedy `\d+` for each number. A
      shorter split by backtracking would put a digit where the infix or the
      closing literal must start, so the greedy split is the only one that
      can succeed. */
  function MatchAt(f: Fragment, s: string, i: nat): (r: Option<string>)
    requires i <= |s|
  {
    if OccursAt(s, f.prefix, i) then MatchFirstNumber(f, s, i + |f.prefix|) else None
  }

  /** The rest of the engine's work once the prefix has matched, the first
      number starting at index `a`. */
  function MatchFirstNumber(f: Fragment, s: string, a: nat): (r: Option<string>)
    requires a <= |s|
  {
    var b := RunEnd(s, a);
    if b > a && OccursAt(s, f.infix, b) && SecondNumberCloses(f, s, b + |f.infix|) then Some(s[a..b])
    else None
  }

  /** A non-empty second number starts at index `c` and the closing literal
      follows it. */
  predicate SecondNumberCloses(f: Fragment, s: string, c: nat)
    requires c <= |s|
  {
    var e := RunEnd(s, c);
    e > c && OccursAt(s, f.closing, e)
  }

  /** What a successful engine saw before its first number. */
  lemma MatchAtPrefix(f: Fragment, s: string, i: nat)
    requires i <= |s| && MatchAt(f, s, i).Some?
    ensures OccursAt(s, f.prefix, i) && i + |f.prefix| <= |s|
    ensures MatchAt(f, s, i) == MatchFirstNumber(f, s, i + |f.prefix|)
  {
  }

  /** What a successful engine saw from its first number on. */
  lemma FirstNumberParts(f: Fragment, s: string, a: nat)
    requires a <= |s| && MatchFirstNumber(f, s, a).Some?
    ensures RunEnd(s, a) > a
    ensures MatchFirstNumber(f, s, a).value == s[a..RunEnd(s, a)]
    ensures DigitsBetween(s, a, RunEnd(s, a))
    ensures OccursAt(s, f.infix, RunEnd(s, a))
    ensures SecondNumberCloses(f, s, RunEnd(s, a) + |f.infix|)
  {
    DigitRunIsRun(s, a);
  }

  /** What a successful engine saw from its second number on. */
  lemma SecondNumberParts(f: Fragment, s: string, c: nat)
    requires c <= |s| && SecondNumberCloses(f, s, c)
    ensures RunEnd(s, c) > c
    ensures DigitsBetween(s, c, RunEnd(s, c))
    ensures OccursAt(s, f.closing, RunEnd(s, c))
  {
    DigitRunIsRun(s, c);
  }

  /** Maximal digit runs between the literals make a match. */
  lemma RunsMakeFragment(f: Fragment, s: string, i: nat) returns (second: string)
    requires OccursAt(s, f.prefix, i) && i + |f.prefix| <= |s|
    requires var a := i + |f.prefix|;
      && RunEnd(s, a) > a && DigitsBetween(s, a, RunEnd(s, a))
      && OccursAt(s, f.infix, RunEnd(s, a))
      && var c := RunEnd(s, a) + |f.infix|;
      && c <= |s| && RunEnd(s, c) > c && DigitsBetween(s, c, RunEnd(s, c))
      && OccursAt(s, f.closing, RunEnd(s, c))
    ensures var a := i + |f.prefix|;
      FragmentAt(f, s, i, s[a..RunEnd(s, a)], second)
  {
    var a := i + |f.prefix|;
    var b := RunEnd(s, a);
    var c := b + |f.infix|;
    var e := RunEnd(s, c);
    OccurrenceOfDigits(s, a, b);
    OccurrenceOfDigits(s, c, e);
    second := s[c..e];
  }

  /** Once the prefix has matched, a successful rest of the engine makes a
      match with the number it returns. */
  lemma FirstNumberSound(f: Fragment, s: string, i: nat) returns (second: string)
    requires OccursAt(s, f.prefix, i) && i + |f.prefix| <= |s|
    requires MatchFirstNumber(f, s, i + |f.prefix|).Some?
    ensures FragmentAt(f, s, i, MatchFirstNumber(f, s, i + |f.prefix|).value, second)
  {
    FirstNumberParts(f, s, i + |f.prefix|);
    SecondNumberParts(f, s, RunEnd(s, i + |f.prefix|) + |f.infix|);
    second := RunsMakeFragment(f, s, i);
  }

  /** Where the matcher succeeds, the pattern matches, and the matcher returns
      its first number. */
  lemma MatchAtSound(f: Fragment, s: string, i: nat) returns (second: string)
    requires i <= |s| && MatchAt(f, s, i).Some?
    ensures FragmentAt(f, s, i, MatchAt(f, s, i).value, second)
  {
    MatchAtPrefix(f, s, i);
    second := FirstNumberSound(f, s, i);
  }

  /** The engine captures a non-empty run of digits. */
  lemma MatchAtDigits(f: Fragment, s: string, i: nat)
    requires i <= |s| && MatchAt(f, s, i).Some?
    ensures |MatchAt(f, s, i).value| >= 1 && AllDigits(MatchAt(f, s, i).value)
  {
    MatchAtPrefix(f, s, i);
    var a := i + |f.prefix|;
    FirstNumberParts(f, s, a);
    OccurrenceOfDigits(s, a, RunEnd(s, a));
  }

  /** A closed second number of `m` digits. */
  lemma SecondNumberClosesAt(f: Fragment, s: string, c: nat, m: nat)
    requires c <= |s| && m >= 1 && RunEnd(s, c) == c + m && OccursAt(s, f.closing, c + m)
    ensures SecondNumberCloses(f, s, c)
  {
  }

  /** The engine after the prefix, given the first number's run length. */
  lemma MatchFirstNumberAt(f: Fragment, s: string, a: nat, k: nat)
    requires a <= |s| && k >= 1 && RunEnd(s, a) == a + k
    requires OccursAt(s, f.infix, a + k) && SecondNumberCloses(f, s, a + k + |f.infix|)
    ensures MatchFirstNumber(f, s, a) == Some(s[a..a + k])
  {
  }

  /** Where the pattern matches, the matcher succeeds with that match's
      first number. */
  lemma MatchAtComplete(f: Fragment, s: string, i: nat, first: string, second: string)
    requires Delimited(f) && i <= |s|
    requires FragmentAt(f, s, i, first, second)
    ensures MatchAt(f, s, i) == Some(first)
  {
    var a := i + |f.prefix|;
    var c := a + |first| + |f.infix|;
    FirstRunOfMatch(f, s, i, first, second);
    SecondRunOfMatch(f, s, i, first, second);
    SecondNumberClosesAt(f, s, c, |second|);
    MatchFirstNumberAt(f, s, a, |first|);
    OccursAtSlice(s, first, a);
  }

  /** In a match, the greedy run at the first number is the first number. */
  lemma FirstRunOfMatch(f: Fragment, s: string, i: nat, first: string, second: string)
    requires Delimited(f) && FragmentAt(f, s, i, first, second)
    ensures RunEnd(s, i + |f.prefix|) == i + |f.prefix| + |first|
  {
    var a := i + |f.prefix|;
    assert s[a + |first| + 0] == f.infix[0];
    DigitsOfOccurrence(s, first, a);
    DigitRunIsMaximal(s, a, |first|);
  }

  /** In a match, the greedy run at the second number is the second number. */
  lemma SecondRunOfMatch(f: Fragment, s: string, i: nat, first: string, second: string)
    requires Delimited(f) && FragmentAt(f, s, i, first, second)
    ensures var c := i + |f.prefix| + |first| + |f.infix|;
      RunEnd(s, c) == c + |second|
  {
    var c := i + |f.prefix| + |first| + |f.infix|;
    assert s[c + |second| + 0] == f.closing[0];
    DigitsOfOccurrence(s, second, c);
    DigitRunIsMaximal(s, c, |second|);
  }

  /** The matcher and the pattern agree at every start position. */
  lemma MatchAtMeaning(f: Fragment, s: string, i: nat)
    requires Delimited(f) && i <= |s|
    ensures MatchAt(f, s, i).Some? <==> StartsAt(f, s, i)
    ensures forall first, second :: FragmentAt(f, s, i, first, second) ==> MatchAt(f, s, i) == Some(first)
  {
    forall first, second | FragmentAt(f, s, i, first, second)
      ensures MatchAt(f, s, i) == Some(first)
    {
      MatchAtComplete(f, s, i, first, second);
    }
    if MatchAt(f, s, i).Some? {
      var second := MatchAtSound(f, s, i);
    }
  }

  /** The engine's scan: the first start position at or after `i` where the
      pattern matches. */
  function FindMatchFrom(f: Fragment, s: string, i: nat): (r: Option<nat>)
    requires i <= |s|
    ensures r.Some? ==> i <= r.value <= |s| && MatchAt(f, s, r.value).Some?
    ensures r.Some? ==> forall k :: i <= k < r.value ==> MatchAt(f, s, k).None?
    ensures r.None? ==> forall j :: i <= j <= |s| ==> MatchAt(f, s, j).None?
    decreases |s| - i
  {
    if MatchAt(f, s, i).Some? then Some(i)
    else if i == |s| then None
    else FindMatchFrom(f, s, i + 1)
  }

  /** One run of a non-global regular expression: the first number of the
      leftmost match. */
  function FirstCapture(f: Fragment, s: string): (r: Option<string>)
    ensures r.Some? ==> |r.value| >= 1 && AllDigits(r.value)
  {
    match FindMatchFrom(f, s, 0)
    case None => None
    case Some(j) => MatchAtDigits(f, s, j); MatchAt(f, s, j)
  }

  /** `getCommentId` after decoding: the comment number of the leftmost match. */
  function GetCommentId(decoded: string): (r: Option<string>)
    ensures r.Some? ==> |r.value| >= 1 && AllDigits(r.value)
  {
    FirstCapture(CommentFragment, decoded)
  }

  /** A position before which the matcher fails everywhere has no match of
      the pattern before it. */
  lemma NoneBeforeFromScan(f: Fragment, s: string, j: nat)
    requires Delimited(f) && j <= |s|
    requires forall k :: 0 <= k < j ==> MatchAt(f, s, k).None?
    ensures NoneBefore(f, s, j)
  {
    forall k, first, second | 0 <= k < j
      ensures !FragmentAt(f, s, k, first, second)
    {
      if FragmentAt(f, s, k, first, second) {
        MatchAtComplete(f, s, k, first, second);
      }
    }
  }

  /** What the scan returns comes from the leftmost match. */
  lemma FirstCaptureSound(f: Fragment, s: string) returns (i: nat, second: string)
    requires Delimited(f) && FirstCapture(f, s).Some?
    ensures FragmentAt(f, s, i, FirstCapture(f, s).value, second) && NoneBefore(f, s, i)
  {
    i := FindMatchFrom(f, s, 0).value;
    assert FirstCapture(f, s) == MatchAt(f, s, i);
    second := MatchAtSound(f, s, i);
    NoneBeforeFromScan(f, s, i);
  }

  /** The leftmost match's first number is what the scan returns. */
  lemma FirstCaptureComplete(f: Fragment, s: string, i: int, first: string, second: string)
    requires Delimited(f)
    requires FragmentAt(f, s, i, first, second) && NoneBefore(f, s, i)
    ensures FirstCapture(f, s) == Some(first)
  {
    MatchAtComplete(f, s, i, first, second);
    var r := FindMatchFrom(f, s, 0);
    assert r.Some?;
    var j := r.value;
    if j < i {
      var other := MatchAtSound(f, s, j);
      assert false;
    }
  }

  /** The scan finds a match wherever the pattern matches. */
  lemma FirstCaptureFinds(f: Fragment, s: string, i: int)
    requires Delimited(f) && StartsAt(f, s, i)
    ensures FirstCapture(f, s).Some?
  {
    var first, second :| FragmentAt(f, s, i, first, second);
    MatchAtComplete(f, s, i, first, second);
    assert FindMatchFrom(f, s, 0).Some?;
  }

  /** The scan returns a value exactly when the pattern matches somewhere,
      and that value is the first number (never the second) of the leftmost
      match. */
  lemma FirstCaptureMeaning(f: Fragment, s: string)
    requires Delimited(f)
    ensures FirstCapture(f, s).Some? <==> exists i :: StartsAt(f, s, i)
    ensures FirstCapture(f, s).Some? ==>
      exists i, second :: FragmentAt(f, s, i, FirstCapture(f, s).value, second) && NoneBefore(f, s, i)
    ensures forall i, first, second :: FragmentAt(f, s, i, first, second) && NoneBefore(f, s, i) ==>
      FirstCapture(f, s) == Some(first)
  {
    if FirstCapture(f, s).Some? {
      var i, second := FirstCaptureSound(f, s);
      assert StartsAt(f, s, i);
    }
    forall i | StartsAt(f, s, i)
      ensures FirstCapture(f, s).Some?
    {
      FirstCaptureFinds(f, s, i);
    }
    forall i, first, second | FragmentAt(f, s, i, first, second) && NoneBefore(f, s, i)
      ensures FirstCapture(f, s) == Some(first)
    {
      FirstCaptureComplete(f, s, i, first, second);
    }
  }

  /** `getCommentId` returns a value exactly when the pattern matches
      somewhere, and that value is the comment number (never the activity
      number) of the leftmost match. */
  lemma GetCommentIdMeaning(s: string)
    ensures GetCommentId(s).Some? <==> exists i :: StartsAt(CommentFragment, s, i)
    ensures GetCommentId(s).Some? ==>
      exists i, activity :: FragmentAt(CommentFragment, s, i, GetCommentId(s).value, activity) &&
        NoneBefore(CommentFragment, s, i)
    ensures forall i, comment, activity ::
      FragmentAt(CommentFragment, s, i, comment, activity) && NoneBefore(CommentFragment, s, i) ==>
      GetCommentId(s) == Some(comment)
  {
    CommentFragmentDelimited();
    FirstCaptureMeaning(CommentFragment, s);
  }

  /** Every match holds the prefix's last character where the prefix ends. */
  lemma PrefixEndOfMatch(f: Fragment, s: string)
    requires |f.prefix| >= 1
    ensures forall j :: StartsAt(f, s, j) ==>
      0 <= j + |f.prefix| - 1 < |s| && s[j + |f.prefix| - 1] == f.prefix[|f.prefix| - 1]
  {
    forall j | StartsAt(f, s, j)
      ensures 0 <= j + |f.prefix| - 1 < |s| && s[j + |f.prefix| - 1] == f.prefix[|f.prefix| - 1]
    {
      var first, second :| FragmentAt(f, s, j, first, second);
      assert s[j + (|f.prefix| - 1)] == f.prefix[|f.prefix| - 1];
    }
  }

  /** Text without an opening parenthesis holds no comment fragment. */
  lemma NoParenthesisNoMatch(s: string)
    requires forall k :: 0 <= k < |s| ==> s[k] != '('
    ensures forall j :: !StartsAt(CommentFragment, s, j)
  {
    assert CommentFragment.prefix[|CommentFragment.prefix| - 1] == '(';
    PrefixEndOfMatch(CommentFragment, s);
  }

}
