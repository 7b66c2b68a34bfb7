/** Worked examples: the model's results on concrete URLs, proved as lemmas. */
module Examples {

  import opened Optional
  import opened Text
  import opened Binary
  import opened PostId
  import opened CommentId
  import opened Snowflake
  import opened Extractor

  /** A LinkedIn post identifier. */
  const FixtureId: string := "7033253973129029632"

  /** The start of a post URL, up to the identifier; it holds no digit
      and no parenthesis. */
  const FixtureHost: string := "https://www." + LinkedInDomain + "feed/"
  const FixturePath: string := "update/urn:li:activity:"

  /** A post URL carrying `FixtureId`. */
  const FixtureUrl: string := FixtureHost + FixturePath + FixtureId + "/"

  /** No character of `s` is `c`. */
  ghost predicate Lacks(s: string, c: char) {
    forall k :: 0 <= k < |s| ==> s[k] != c
  }

  /** No character of `s` is a digit. */
  ghost predicate NoDigits(s: string) {
    forall k :: 0 <= k < |s| ==> !IsDigit(s[k])
  }

  lemma LacksConcat(x: string, y: string, c: char)
    requires Lacks(x, c) && Lacks(y, c)
    ensures Lacks(x + y, c)
  {
    forall k | |x| <= k < |x + y|
      ensures (x + y)[k] != c
    {
      assert (x + y)[k] == y[k - |x|];
    }
  }

  lemma NoDigitsConcat(x: string, y: string)
    requires NoDigits(x) && NoDigits(y)
    ensures NoDigits(x + y)
  {
    forall k | |x| <= k < |x + y|
      ensures !IsDigit((x + y)[k])
    {
      assert (x + y)[k] == y[k - |x|];
    }
  }

  /** The second part of a concatenation occurs where the first ends. */
  lemma OccursAfter(x: string, y: string)
    ensures OccursAt(x + y, y, |x|)
  {
    assert forall k :: 0 <= k < |y| ==> (x + y)[|x| + k] == y[k];
  }

  /** An occurrence survives appending text. */
  lemma OccursExtend(s: string, t: string, pat: string, i: int)
    requires OccursAt(s, pat, i)
    ensures OccursAt(s + t, pat, i)
  {
  }

  /** A run of nineteen digits starts with a digit. */
  lemma RunsStartWithDigits(s: string)
    ensures forall j :: RunAt(s, j) ==> IsDigit(s[j])
  {
    forall j | RunAt(s, j)
      ensures IsDigit(s[j])
    {
      assert s[j..j + PostIdLength][0] == s[j];
    }
  }

  /** The middle part of a concatenation, sliced back out. */
  lemma SliceOfConcat(x: string, y: string, z: string)
    ensures (x + y + z)[|x|..|x| + |y|] == y
  {
    assert forall k :: 0 <= k < |y| ==> (x + y + z)[|x|..|x| + |y|][k] == y[k];
  }

  /** A decoder for URLs without percent sequences. */
  function Unescaped(u: string): Option<string> {
    Some(u)
  }

  /** The value of a string, three digits at a time. */
  lemma DecimalStep(p: string, q: string, value: nat)
    requires AllDigits(p) && DecimalValue(p) == value
    requires |q| == 3 && AllDigits(q)
    ensures AllDigits(p + q)
    ensures DecimalValue(p + q) == value * 1000 + 100 * DigitValue(q[0]) + 10 * DigitValue(q[1]) + DigitValue(q[2])
  {
    DecimalSnoc(p, q[0]);
    DecimalSnoc(p + [q[0]], q[1]);
    DecimalSnoc(p + [q[0]] + [q[1]], q[2]);
    assert p + q == p + [q[0]] + [q[1]] + [q[2]];
  }

  lemma FixtureIdHead()
    ensures AllDigits("703325397") && DecimalValue("703325397") == 703325397
  {
    assert DecimalValue("703") == 703;
    DecimalStep("703", "325", 703);
    assert "703" + "325" == "703325";
    DecimalStep("703325", "397", 703325);
    assert "703325" + "397" == "703325397";
  }

  lemma FixtureIdMiddle()
    ensures AllDigits("703325397312902") && DecimalValue("703325397312902") == 703325397312902
  {
    FixtureIdHead();
    DecimalStep("703325397", "312", 703325397);
    assert "703325397" + "312" == "703325397312";
    DecimalStep("703325397312", "902", 703325397312);
    assert "703325397312" + "902" == "703325397312902";
  }

  lemma FixtureIdValue()
    ensures AllDigits(FixtureId) && DecimalValue(FixtureId) == 7033253973129029632
  {
    FixtureIdMiddle();
    DecimalStep("703325397312902", "963", 703325397312902);
    assert "703325397312902" + "963" == "703325397312902963";
    DecimalSnoc("703325397312902963", '2');
    assert "703325397312902963" + ['2'] == FixtureId;
  }

  lemma Pow2Fixture()
    ensures Pow2(22) == 4194304
    ensures Pow2(62) == 4611686018427387904
    ensures Pow2(63) == 9223372036854775808
  {
    assert Pow2(3) == 8;
    Pow2Add(3, 3);
    assert Pow2(6) == 64;
    Pow2Add(6, 6);
    assert Pow2(12) == 4096;
    Pow2Add(12, 10);
    assert Pow2(10) == 1024;
    Pow2Landmarks();
    assert Pow2(64) == 2 * Pow2(63);
    assert Pow2(63) == 2 * Pow2(62);
  }

  /** The identifier has 63 bits; its top 41 are 1676858418733 ms after the
      epoch. */
  lemma FixtureTimestamp()
    ensures Leading41(7033253973129029632) == 1676858418733
  {
    Pow2Fixture();
    assert HasBitLength(7033253973129029632, 63);
    Leading41Shift(7033253973129029632, 63);
    ShiftRightDivides(7033253973129029632, 22);
  }

  /** Neither the URL's start nor its identifier holds a parenthesis, and
      everything before the identifier is a non-digit. */
  lemma FixtureUrlCharacters()
    ensures Lacks(FixtureUrl, '(')
    ensures NoDigits(FixtureHost + FixturePath)
  {
    var start := "https://www.";
    assert Lacks(start, '(') && NoDigits(start);
    assert Lacks(LinkedInDomain, '(') && NoDigits(LinkedInDomain);
    assert Lacks("feed/", '(') && NoDigits("feed/");
    assert Lacks(FixturePath, '(') && NoDigits(FixturePath);
    assert Lacks("/", '(');
    LacksConcat(start, LinkedInDomain, '(');
    LacksConcat(start + LinkedInDomain, "feed/", '(');
    LacksConcat(FixtureHost, FixturePath, '(');
    NoDigitsConcat(start, LinkedInDomain);
    NoDigitsConcat(start + LinkedInDomain, "feed/");
    NoDigitsConcat(FixtureHost, FixturePath);
    FixtureIdValue();
    LacksConcat(FixtureHost + FixturePath, FixtureId, '(');
    LacksConcat(FixtureHost + FixturePath + FixtureId, "/", '(');
  }

  /** The LinkedIn domain sits right after `https://www.`. */
  lemma FixtureDomain()
    ensures OccursAt(FixtureUrl, LinkedInDomain, 12)
  {
    var start := "https://www.";
    OccursAfter(start, LinkedInDomain);
    OccursExtend(start + LinkedInDomain, "feed/", LinkedInDomain, 12);
    OccursExtend(FixtureHost, FixturePath, LinkedInDomain, 12);
    OccursExtend(FixtureHost + FixturePath, FixtureId, LinkedInDomain, 12);
    OccursExtend(FixtureHost + FixturePath + FixtureId, "/", LinkedInDomain, 12);
  }

  /** The identifier is the leftmost run of nineteen digits in the URL. */
  lemma FixtureRun()
    ensures RunAt(FixtureUrl, |FixtureHost + FixturePath|)
    ensures NoRunBefore(FixtureUrl, |FixtureHost + FixturePath|)
    ensures FixtureUrl[|FixtureHost + FixturePath|..|FixtureHost + FixturePath| + PostIdLength] == FixtureId
  {
    var url := FixtureUrl;
    var front := FixtureHost + FixturePath;
    SliceOfConcat(front, FixtureId, "/");
    FixtureIdValue();
    FixtureUrlCharacters();
    RunsStartWithDigits(url);
    forall j | 0 <= j < |front|
      ensures !RunAt(url, j)
    {
      assert url[j] == front[j];
    }
  }

  /** The URL's post identifier is `FixtureId`. */
  lemma FixturePostId()
    ensures GetPostId(FixtureUrl) == Some(FixtureId)
  {
    FixtureRun();
  }

  /** The URL holds no comment fragment: it has no parenthesis. */
  lemma FixtureNoComment()
    ensures GetCommentId(FixtureUrl).None?
  {
    FixtureUrlCharacters();
    NoParenthesisNoMatch(FixtureUrl);
    GetCommentIdMeaning(FixtureUrl);
  }

  /** `extractUnixTimestamp(FixtureId)` is 1676858418733. */
  lemma FixtureIdTimestamp()
    ensures ExtractTimestamp(Some(FixtureId)) == Some(1676858418733)
  {
    FixtureIdValue();
    Leading41IsFit(7033253973129029632);
    FixtureTimestamp();
  }

  /** The post URL, read end to end, shows 1676858418733 ms. */
  lemma FixtureExtract()
    ensures Extract(FixtureUrl, Unescaped) == Shown(Success(1676858418733))
  {
    FixtureDomain();
    FixturePostId();
    FixtureNoComment();
    FixtureIdTimestamp();
  }

  /** After a non-digit, nineteen digits are taken whatever follows them:
      a later run of nineteen digits is never preferred to an earlier one. */
  lemma FirstRunIsTaken(c: char, first: string, rest: string)
    requires !IsDigit(c) && |first| == PostIdLength && AllDigits(first)
    ensures GetPostId([c] + first + rest) == Some(first)
  {
    var s := [c] + first + rest;
    assert s[1..1 + PostIdLength] == first;
    DigitsBetweenSlice(s, 1, 1 + PostIdLength);
    assert RunAt(s, 1);
    assert !RunAt(s, 0) by { assert s[0] == c; }
    assert NoRunBefore(s, 1);
  }

  /** Twenty digits in a row: the first nineteen are taken. */
  lemma LongerRunIsCut()
    ensures GetPostId("12345678901234567890") == Some("1234567890123456789")
  {
    var s := "12345678901234567890";
    assert forall k :: 0 <= k < 19 ==> s[0..19][k] == s[k];
    assert s[0..19] == "1234567890123456789";
    assert RunAt(s, 0);
  }

  /** A comment fragment with comment number 12 and activity number 34. */
  const CommentFragmentText: string := CommentPrefix + "12" + ActivityInfix + "34" + Closing

  const CommentText: string := "x/" + CommentFragmentText

  lemma CommentTextMatch()
    ensures FragmentAt(CommentFragment, CommentText, 2, "12", "34")
  {
    OccursAfter("x/", CommentFragmentText);
    FragmentText(CommentFragment, CommentText, 2, "12", "34");
  }

  lemma CommentTextNoEarlierMatch()
    ensures NoneBefore(CommentFragment, CommentText, 2)
  {
    var s := CommentText;
    forall j, comment, activity | 0 <= j < 2
      ensures !FragmentAt(CommentFragment, s, j, comment, activity)
    {
      assert s[j] == "x/"[j];
      assert s[j + 0] != CommentPrefix[0];
    }
  }

  /** The comment number is returned, not the activity number. */
  lemma CommentNumberIsTaken()
    ensures GetCommentId(CommentText) == Some("12")
  {
    CommentTextMatch();
    CommentTextNoEarlierMatch();
    GetCommentIdMeaning(CommentText);
  }

}
