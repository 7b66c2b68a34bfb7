# linkedTimer: when was this LinkedIn post or comment written?

linkedTimer is a single-page web tool. The user pastes the URL of a LinkedIn
post or comment. The page finds the numeric identifier in the URL and reads
the creation time from it. A LinkedIn identifier is a "snowflake": its most
significant 41 bits are milliseconds since the Unix epoch.

This project models the extraction logic of
`src/components/pages/main-page.tsx`. The model has five parts.

- The domain gate: the URL must contain `linkedin.com/`.
- `getPostId`: the leftmost run of nineteen digits in the raw URL.
- `getCommentId`: the comment number of the leftmost
  `fsd_comment:(<digits>,urn:li:activity:<digits>)` fragment in the
  percent-decoded URL.
- `extractUnixTimestamp`: the leading 41 bits of the identifier's binary text.
- `handleExtract`: comment identifier first, then post identifier, then the
  error messages.

Modules:

- `Optional`: `Option`, standing in for `undefined` and `null`.
- `Text`: digits, occurrences and `String.prototype.includes`.
- `PostId`: the `/([0-9]{19})/` scan.
- `CommentId`: a matcher for patterns of the shape
  `prefix(\d+)infix\d+closing`, with greedy digit runs.
  - It is proved against a declarative meaning (`FragmentAt`) for every such
    pattern whose inner literals start with a non-digit.
  - It is then instantiated at the comment pattern.
- `Binary`: `toString(2)` and `parseInt(…, 2)` on naturals, and bit lengths.
- `Snowflake`:
  - `BigInt` on digit strings;
  - `slice(0, 41)`;
  - the leading-41-bits read-off;
  - an arithmetic reference definition (`FitTo41Bits`: halve until below
    `2^41`).
- `Extractor`: `handleExtract` as a pure function from the URL to an outcome.
  Its results are:
  - a timestamp;
  - one of the three error messages;
  - `Aborted`, for when `decodeURIComponent` throws.
- `Examples`: the model's results on concrete URLs, proved as lemmas.

## Model

| member | source | states |
|---|---|---|
| Text.Includes | src/components/pages/main-page.tsx:98 | `url.includes(pat)` is true exactly when `pat` occurs at some index of `url` |
| PostId.FindRunFrom | src/components/pages/main-page.tsx:40-41 | the regex scan from index `i` returns the first start at or after `i` where nineteen digits begin, and nothing exactly when no such start exists |
| PostId.GetPostId | src/components/pages/main-page.tsx:39-43 | a post id is returned exactly when some nineteen-digit run exists; it is nineteen digits long, and it is the run at the leftmost such position (both directions: every leftmost run is the result) |
| CommentId.DigitRunIsRun | src/components/pages/main-page.tsx:47 | the greedy `\d+` consumes only digits and stops at a non-digit or the end of the text |
| CommentId.DigitRunIsMaximal | src/components/pages/main-page.tsx:47 | a digit run followed by a non-digit is exactly what the greedy `\d+` consumes |
| CommentId.FragmentText | src/components/pages/main-page.tsx:47 | a match of the comment pattern is the literal text `fsd_comment:(` + digits + `,urn:li:activity:` + digits + `)` at that index |
| CommentId.MatchAtSound | src/components/pages/main-page.tsx:47-48 | whatever the matcher accepts at an index is a real match of the pattern there, with the returned digits as the first number |
| CommentId.MatchAtComplete | src/components/pages/main-page.tsx:47-48 | every match of the pattern at an index is found by the matcher, which returns its first number |
| CommentId.MatchAtMeaning | src/components/pages/main-page.tsx:47-48 | the matcher succeeds at an index exactly when the pattern matches there, and then returns the first number |
| CommentId.FindMatchFrom | src/components/pages/main-page.tsx:48 | the scan from index `i` returns the first index at or after `i` where the matcher succeeds, and nothing exactly when it succeeds nowhere |
| CommentId.FirstCapture | src/components/pages/main-page.tsx:48-52 | a captured group is a non-empty string of digits |
| CommentId.GetCommentId | src/components/pages/main-page.tsx:47-55 | on the decoded URL, a returned comment id is a non-empty string of digits; `GetCommentIdMeaning` pins down which one |
| CommentId.FirstCaptureMeaning | src/components/pages/main-page.tsx:47-55 | for any delimited pattern, a capture is returned exactly when the pattern matches somewhere; it is the first number of the leftmost match; every leftmost match yields its first number |
| CommentId.GetCommentIdMeaning | src/components/pages/main-page.tsx:45-56 | `getCommentId` returns a value exactly when the comment pattern matches the decoded text; the value is the comment number (not the activity number) of the leftmost match |
| CommentId.NoParenthesisNoMatch | src/components/pages/main-page.tsx:47 | text with no `(` never matches the comment pattern |
| Binary.ToBinary | src/components/pages/main-page.tsx:64 | `toString(2)` yields a non-empty string of binary digits that starts with `1` exactly when the value is positive |
| Binary.ParseBinary | src/components/pages/main-page.tsx:66 | `parseInt(bits, 2)` of `k` binary digits is below `2^k`; `ParseToBinary` and `ParsePrefix` pin down its value |
| Binary.ToBinaryLength | src/components/pages/main-page.tsx:64 | the binary text of `n` has exactly as many digits as `n` has bits |
| Binary.ParseToBinary | src/components/pages/main-page.tsx:64-66 | `parseInt(n.toString(2), 2)` is `n` |
| Binary.ShiftRightDivides | src/components/pages/main-page.tsx:64-66 | shifting right one bit at a time `k` times is dividing by `2^k` |
| Binary.ParsePrefix | src/components/pages/main-page.tsx:65-66 | parsing the first `k` binary digits gives the value divided by `2^(length - k)` |
| Snowflake.ParseDecimal | src/components/pages/main-page.tsx:64 | `BigInt(id)` accepts exactly the all-digit strings; the value is below `10^len`, and at least `10^(len-1)` without a leading zero |
| Snowflake.SliceFront | src/components/pages/main-page.tsx:65 | `slice(0, k)` is a prefix of length `min(k, len)` |
| Snowflake.Leading41 | src/components/pages/main-page.tsx:64-66 | the read-off value is below `2^41` |
| Snowflake.Leading41Shift | src/components/pages/main-page.tsx:64-66 | for a value of bit length `len`, the read-off is `n >> max(0, len - 41)` |
| Snowflake.Leading41IsFit | src/components/pages/main-page.tsx:64-66 | the string read-off agrees with the arithmetic reference definition for every value |
| Snowflake.FitTo41BitsShift | src/components/pages/main-page.tsx:64-66 | the arithmetic reference definition is the shift by `max(0, len - 41)` |
| Snowflake.FitTo41BitsRange | src/components/pages/main-page.tsx:64-66 | the timestamp is below `2^41`; a value that fits is kept; a value of at least `2^40` gives at least `2^40` |
| Snowflake.ExtractTimestamp | src/components/pages/main-page.tsx:58-71 | a timestamp is returned exactly when an identifier is present and made of digits; it is the leading 41 bits of its decimal value |
| Extractor.Extract | src/components/pages/main-page.tsx:98-130 | invalid-URL exactly when the domain is missing; aborted exactly when on LinkedIn and the decoder throws; the decode-error message is never shown; a timestamp is below `2^41` |
| Extractor.NotLinkedInIsInvalid | src/components/pages/main-page.tsx:98-102 | without the domain the answer is the invalid-URL error, whatever the decoder does |
| Extractor.CommentIdTakesPriority | src/components/pages/main-page.tsx:105-111 | when the decoded URL holds a comment fragment, the timestamp of its comment number is shown, whatever post id the URL holds |
| Extractor.PostIdFallback | src/components/pages/main-page.tsx:105-114 | without a comment fragment, the timestamp of the leftmost nineteen-digit run is shown |
| Extractor.NoIdentifierIsReported | src/components/pages/main-page.tsx:115-119 | with neither identifier, the no-identifier error is shown |
| Extractor.SuccessIffIdentifier | src/components/pages/main-page.tsx:104-130 | once the URL decodes, something is shown, and it is a timestamp exactly when either identifier exists |
| Extractor.PostIdBitLength | src/components/pages/main-page.tsx:64-65 | a nineteen-digit id has at most 64 bits; without a leading zero it has at least 60, so 19 to 23 bits are cut off |
| Extractor.PostIdTimestampRange | src/components/pages/main-page.tsx:58-71 | the timestamp of a nineteen-digit id without a leading zero lies in `[2^40, 2^41)` |
| Examples.FixtureTimestamp | src/components/pages/main-page.tsx:64-66 | the id `7033253973129029632` has 63 bits, and its leading 41 bits are `1676858418733` |
| Examples.FixtureExtract | src/components/pages/main-page.tsx:98-130 | a real post URL with that id shows `1676858418733` ms |
| Examples.FirstRunIsTaken | src/components/pages/main-page.tsx:39-43 | nineteen digits after a non-digit are returned whatever text follows, so a later nineteen-digit run is never taken instead |
| Examples.LongerRunIsCut | src/components/pages/main-page.tsx:39-43 | a twenty-digit run gives its first nineteen digits |
| Examples.CommentNumberIsTaken | src/components/pages/main-page.tsx:45-56 | of the two numbers in a comment fragment, the comment number is returned |

## Left out

- Rendering and React state are not modelled:
  - `setTimeState`;
  - `setIsLoading`;
  - the one-second `setTimeout`;
  - `preventDefault`.

  `Extract` returns what `handleExtract` makes the page show.
- `Extract` does not model the form's browser validation. The form at line 167
  submits from an input with `type="url"` (line 177) and `required`
  (line 179), and the browser checks both before `handleExtract` runs. An
  empty field or text that is not an absolute URL (for example one without a
  scheme) never reaches `handleExtract`; the browser asks for a URL instead.
  `Extract` is defined on every string, which is more than what reaches
  `handleExtract`. Its results on the strings the browser rejects describe
  `handleExtract`, not the page.
- Date formatting is not modelled: `unixTimestampToHumanDate` and
  `unixTimestampToLocalDate` (lines 73-90). `Date`, `toUTCString` and the
  locale formatter are host code. A timestamp is shown as milliseconds.
- `handleCopy` is not modelled. The clipboard and the toast are browser I/O.
- `decodeURIComponent` is a parameter of `Extract`:
  - `None` means the browser throws `URIError`;
  - percent-decoding itself is host code.
- `Extract`, on a decoder failure: the exception is not caught inside the
  timer callback, and the model says `Aborted`. The page then shows neither
  a result nor an error. It is also stuck loading:
  - `setIsLoading(true)` ran at line 96;
  - none of the `setIsLoading(false)` calls is reached;
  - so the "Extracting..." spinner stays on, and the input and button stay
    disabled (lines 183-186) until the page is reloaded.

  This happens even when a post id was found, because `getCommentId` is
  called before the post id is looked at. The loading flag itself is not
  modelled.
- `ParseDecimal` models `BigInt(s)` only on strings of ASCII digits, and treats
  every other string as a failure. The model never passes other strings,
  because both scanners return digits only. `BigInt`'s signs, whitespace,
  `0x` prefixes and so on are not modelled.
- `ParseBinary` does not model `parseInt`'s `NaN` for an empty string or its
  floating-point rounding above `2^53`. Neither can arise: `slice(0, 41)` of a
  non-empty binary string is non-empty and below `2^41`.
- `CommentId.FirstCapture`:
  - It is a matcher for one pattern shape, not a general regular-expression
    engine.
  - It is proved correct for any pattern of that shape whose inner literals
    start with a non-digit.
  - On such patterns, greedy `\d+` never needs to backtrack.

## Behaviour of the code

The contracts above pin down three facts about the code.

- The leftmost nineteen-digit run is taken. The regex has no `g` flag, and
  `pop()` returns group 1 of the first match.
- An identifier of fewer than 41 bits is kept whole, because `slice(0, 41)`
  of a shorter string is the whole string.
- The "could not calculate timestamp" message (lines 121-125) cannot be
  reached. `BigInt` never throws on the digit strings the scanners return,
  so `extractUnixTimestamp` never returns `null` for them.
  `Extract`'s contract proves this.
