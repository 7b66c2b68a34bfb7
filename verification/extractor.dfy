/** `handleExtract` with the React plumbing taken away: from the URL the user
    entered to either an epoch-millisecond timestamp or a classified failure. */
module Extractor {

  import opened Optional
  import opened Text
  import opened Binary
  import opened PostId
  import opened CommentId
  import opened Snowflake

  /** The substring a URL must contain to be accepted as a LinkedIn URL. */
  const LinkedInDomain: string := "linkedin.com/"

  /** The three error messages the page can show. */
  datatype ErrorKind =
    | InvalidUrl            // "Please enter a valid LinkedIn URL."
    | NoIdentifierFound     // "Could not extract a valid ID from the URL."
    | TimestampDecodeError  // "Could not calculate timestamp from the URL. ..."

  /** What the page shows: a creation time, or an error. */
  datatype Extraction = Success(ms: nat) | Failure(reason: ErrorKind)

  /** How a call ends. `Aborted` is the case where `decodeURIComponent`
      throws on a malformed percent sequence. Nothing catches it, so the
      callback ends with neither a result nor an error shown, and the page
      is left in its loading state. */
  datatype Outcome = Shown(extraction: Extraction) | Aborted

  /** The URL contains the LinkedIn domain somewhere. */
  ghost predicate OnLinkedIn(url: string) {
    exists i :: OccursAt(url, LinkedInDomain, i)
  }

  /** `handleExtract`. `decodeUri` stands for `decodeURIComponent`, which
      yields nothing where the browser would throw `URIError`. */
  function Extract(url: string, decodeUri: string -> Option<string>): (r: Outcome)
    ensures r == Shown(Failure(InvalidUrl)) <==> !OnLinkedIn(url)
    ensures r == Aborted <==> OnLinkedIn(url) && decodeUri(url).None?
    ensures r != Shown(Failure(TimestampDecodeError))
    ensures r.Shown? && r.extraction.Success? ==> r.extraction.ms < Pow2(TimestampBits)
  {
    if !Includes(url, LinkedInDomain) then Shown(Failure(InvalidUrl))
    else
      var postId := GetPostId(url);
      match decodeUri(url)
      case None => Aborted
      case Some(decoded) =>
        var commentId := GetCommentId(decoded);
        if commentId.None? && postId.None? then Shown(Failure(NoIdentifierFound))
        else
          var id := if commentId.Some? then commentId else postId;
          match ExtractTimestamp(id)
          case None => Shown(Failure(TimestampDecodeError))
          case Some(ms) => Shown(Success(ms))
  }

  /** Without the LinkedIn domain the answer is the invalid-URL failure, and
      it does not depend on the decoder: no identifier search takes place. */
  lemma NotLinkedInIsInvalid(url: string, decodeUri: string -> Option<string>, otherDecode: string -> Option<string>)
    requires !OnLinkedIn(url)
    ensures Extract(url, decodeUri) == Extract(url, otherDecode) == Shown(Failure(InvalidUrl))
  {
  }

  /** A comment identifier, when there is one, is the identifier decoded,
      whether or not the URL also holds a post identifier. */
  lemma CommentIdTakesPriority(url: string, decodeUri: string -> Option<string>, i: int, comment: string, activity: string)
    requires OnLinkedIn(url)
    requires decodeUri(url).Some?
    requires FragmentAt(CommentFragment, decodeUri(url).value, i, comment, activity) && NoneBefore(CommentFragment, decodeUri(url).value, i)
    ensures Extract(url, decodeUri) == Shown(Success(FitTo41Bits(DecimalValue(comment))))
  {
    GetCommentIdMeaning(decodeUri(url).value);
  }

  /** Without a comment identifier, the leftmost 19-digit run of the raw URL
      is the identifier decoded. */
  lemma PostIdFallback(url: string, decodeUri: string -> Option<string>, i: int)
    requires OnLinkedIn(url)
    requires decodeUri(url).Some?
    requires forall j :: !StartsAt(CommentFragment, decodeUri(url).value, j)
    requires RunAt(url, i) && NoRunBefore(url, i)
    ensures Extract(url, decodeUri) == Shown(Success(FitTo41Bits(DecimalValue(url[i..i + PostIdLength]))))
  {
    GetCommentIdMeaning(decodeUri(url).value);
  }

  /** On a LinkedIn URL with neither identifier the answer is the
      no-identifier failure. */
  lemma NoIdentifierIsReported(url: string, decodeUri: string -> Option<string>)
    requires OnLinkedIn(url)
    requires decodeUri(url).Some?
    requires forall j :: !StartsAt(CommentFragment, decodeUri(url).value, j)
    requires forall j :: !RunAt(url, j)
    ensures Extract(url, decodeUri) == Shown(Failure(NoIdentifierFound))
  {
    GetCommentIdMeaning(decodeUri(url).value);
  }

  /** Once the URL decodes, a timestamp is shown exactly when an identifier
      is found: the decode-failure branch is never taken. */
  lemma SuccessIffIdentifier(url: string, decodeUri: string -> Option<string>)
    requires OnLinkedIn(url)
    requires decodeUri(url).Some?
    ensures Extract(url, decodeUri).Shown?
    ensures Extract(url, decodeUri).extraction.Success? <==>
      (exists j :: StartsAt(CommentFragment, decodeUri(url).value, j)) || (exists j :: RunAt(url, j))
  {
    GetCommentIdMeaning(decodeUri(url).value);
  }

  lemma Pow2Landmarks()
    ensures Pow2(40) == 1099511627776
    ensures Pow2(59) == 576460752303423488
    ensures Pow2(64) == 18446744073709551616
  {
    assert Pow2(3) == 8;
    assert Pow2(4) == 16;
    Pow2Add(4, 4);
    assert Pow2(8) == 256;
    Pow2Add(8, 8);
    assert Pow2(16) == 65536;
    Pow2Add(16, 16);
    assert Pow2(32) == 4294967296;
    Pow2Add(32, 32);
    Pow2Add(32, 8);
    Pow2Add(40, 16);
    assert Pow2(56) == 72057594037927936;
    Pow2Add(56, 3);
  }

  lemma Pow10Landmarks()
    ensures Pow10(18) == 1000000000000000000
    ensures Pow10(19) == 10000000000000000000
  {
    assert Pow10(3) == 1000;
    Pow10Add(3, 3);
    Pow10Add(6, 6);
    Pow10Add(12, 6);
    Pow10Add(18, 1);
  }

  /** Where nineteen decimal digits sit among the powers of two. */
  lemma NineteenDigitPowers()
    ensures Pow2(TimestampBits - 1) <= Pow2(59) <= Pow10(18)
    ensures Pow10(19) <= Pow2(64)
  {
    Pow2Landmarks();
    Pow10Landmarks();
  }

  /** A post identifier has at most 64 bits, so at most 23 are shifted out;
      without a leading zero it has at least 60, so at least 19 are. */
  lemma PostIdBitLength(id: string, len: nat)
    requires |id| == PostIdLength && AllDigits(id)
    requires HasBitLength(DecimalValue(id), len)
    ensures len <= 64
    ensures id[0] != '0' ==> 60 <= len && 19 <= len - TimestampBits <= 23
  {
    NineteenDigitPowers();
    if len > 64 {
      Pow2Monotonic(64, len - 1);
    }
    if id[0] != '0' {
      DecimalLeadingDigit(id);
      if len < 60 {
        Pow2Monotonic(len, 59);
      }
    }
  }

  /** The timestamp of a post identifier without a leading zero has its top
      (41st) bit set. */
  lemma PostIdTimestampRange(id: string)
    requires |id| == PostIdLength && AllDigits(id) && id[0] != '0'
    ensures Pow2(TimestampBits - 1) <= FitTo41Bits(DecimalValue(id)) < Pow2(TimestampBits)
  {
    var n := DecimalValue(id);
    DecimalLeadingDigit(id);
    NineteenDigitPowers();
    assert Pow2(TimestampBits - 1) <= n;
    FitTo41BitsRange(n);
  }

}
