/** `getPostId`: the regular expression `/([0-9]{19})/` run once (no `g` flag)
    over the raw URL. `exec(...)?.pop()` is capture group 1 of the leftmost
    match, which here is the whole match. */
module PostId {

  import opened Optional
  import opened Text

  /** Number of digits in a LinkedIn post (activity) identifier. */
  const PostIdLength: nat := 19

  /** `[0-9]{19}` matches at index `i`: nineteen digits begin there. Nothing
      is demanded of the characters around them, so a longer run of digits
      matches at each of its first positions. */
  predicate RunAt(s: string, i: int) {
    0 <= i && i + PostIdLength <= |s| && DigitsBetween(s, i, i + PostIdLength)
  }

  /** No run of nineteen digits starts before index `i`. */
  ghost predicate NoRunBefore(s: string, i: int) {
    forall j :: 0 <= j < i ==> !RunAt(s, j)
  }

  /** The regular-expression engine's scan: the first start position at or
      after `i` where the pattern matches. */
  function FindRunFrom(s: string, i: nat): (r: Option<nat>)
    requires i <= |s|
    ensures r.Some? ==> i <= r.value && RunAt(s, r.value)
    ensures r.Some? ==> forall j :: i <= j < r.value ==> !RunAt(s, j)
    ensures r.None? ==> forall j :: i <= j ==> !RunAt(s, j)
    decreases |s| - i
  {
    if i + PostIdLength > |s| then None
    else if DigitsBetween(s, i, i + PostIdLength) then Some(i)
    else FindRunFrom(s, i + 1)
  }

  /** `getPostId(url)`: the nineteen digits at the leftmost position where
      nineteen consecutive digits begin, or nothing when there is none. */
  function GetPostId(url: string): (r: Option<string>)
    ensures r.Some? <==> exists i :: RunAt(url, i)
    ensures r.Some? ==> |r.value| == PostIdLength && AllDigits(r.value)
    ensures r.Some? ==> exists i :: RunAt(url, i) && NoRunBefore(url, i) && r.value == url[i..i + PostIdLength]
    ensures forall i :: RunAt(url, i) && NoRunBefore(url, i) ==> r == Some(url[i..i + PostIdLength])
  {
    match FindRunFrom(url, 0)
    case None => None
    case Some(i) => DigitsBetweenSlice(url, i, i + PostIdLength); Some(url[i..i + PostIdLength])
  }

}
