/** `extractUnixTimestamp`: a LinkedIn identifier is a snowflake whose most
    significant 41 bits are the creation time in milliseconds since the Unix
    epoch. The source reads them off the binary text of the identifier. */
module Snowflake {

  import opened Optional
  import opened Text
  import opened Binary

  /** Width of the timestamp field at the top of an identifier. */
  const TimestampBits: nat := 41

  function Pow10(k: nat): (r: nat)
    ensures r >= 1
  {
    if k == 0 then 1 else 10 * Pow10(k - 1)
  }

  lemma {:induction false} Pow10Add(a: nat, b: nat)
    ensures Pow10(a + b) == Pow10(a) * Pow10(b)
    decreases a
  {
    if a > 0 {
      Pow10Add(a - 1, b);
    }
  }

  function DigitValue(c: char): (d: nat)
    requires IsDigit(c)
    ensures d < 10
  {
    (c as int) - ('0' as int)
  }

  /** The value of a string of decimal digits, most significant first. */
  function DecimalValue(s: string): (n: nat)
    requires AllDigits(s)
    ensures n < Pow10(|s|)
  {
    if |s| == 0 then 0 else 10 * DecimalValue(s[..|s| - 1]) + DigitValue(s[|s| - 1])
  }

  /** A decimal string whose first digit is not `0` is at least `10^(|s|-1)`. */
  lemma {:induction false} DecimalLeadingDigit(s: string)
    requires |s| >= 1 && AllDigits(s) && s[0] != '0'
    ensures Pow10(|s| - 1) <= DecimalValue(s)
  {
    if |s| > 1 {
      DecimalLeadingDigit(s[..|s| - 1]);
    }
  }

  /** Appending a digit multiplies by ten and adds it. */
  lemma DecimalSnoc(s: string, last: char)
    requires AllDigits(s) && IsDigit(last)
    ensures AllDigits(s + [last])
    ensures DecimalValue(s + [last]) == 10 * DecimalValue(s) + DigitValue(last)
  {
    AllDigitsConcat(s, [last]);
    assert (s + [last])[..|s|] == s;
  }

  /** `BigInt(id)` on a string of ASCII digits: its decimal value, leading
      zeros allowed, the empty string reading as 0. Any other character is
      a parse failure. */
  function ParseDecimal(s: string): (r: Option<nat>)
    ensures r.Some? <==> AllDigits(s)
    ensures r.Some? ==> r.value < Pow10(|s|)
    ensures r.Some? && |s| >= 1 && s[0] != '0' ==> Pow10(|s| - 1) <= r.value
  {
    if AllDigits(s) then
      if |s| >= 1 && s[0] != '0' then DecimalLeadingDigit(s); Some(DecimalValue(s))
      else Some(DecimalValue(s))
    else None
  }

  /** `s.slice(0, k)`: the first `k` characters, or all of a shorter string. */
  function SliceFront(s: string, k: nat): (r: string)
    ensures r <= s
    ensures |r| == if |s| < k then |s| else k
  {
    if |s| < k then s else s[..k]
  }

  /** `parseInt(BigInt(n).toString(2).slice(0, 41), 2)`: the leading 41 bits
      of `n`, or `n` itself when it has no more than 41 bits. */
  function Leading41(n: nat): (t: nat)
    ensures t < Pow2(TimestampBits)
  {
    var bits := ToBinary(n);
    var head := SliceFront(bits, TimestampBits);
    assert forall k :: 0 <= k < |head| ==> head[k] == bits[k];
    Pow2Monotonic(|head|, TimestampBits);
    ParseBinary(head)
  }

  /** Reference definition, by arithmetic alone: shift right one bit at a
      time until the value fits in 41 bits. */
  function FitTo41Bits(n: nat): nat
    decreases n
  {
    if n < Pow2(TimestampBits) then n else FitTo41Bits(n / 2)
  }

  /** How many low bits a value of bit length `len` loses: `max(0, len - 41)`. */
  function DroppedBits(len: nat): nat {
    if len > TimestampBits then len - TimestampBits else 0
  }

  /** The leading-41-bits read-off is `n >> max(0, bitlen(n) - 41)`. */
  lemma Leading41Shift(n: nat, len: nat)
    requires HasBitLength(n, len)
    ensures Leading41(n) == ShiftRight(n, DroppedBits(len))
  {
    if len > TimestampBits {
      Leading41OfLong(n, len);
    } else {
      Leading41OfShort(n, len);
    }
  }

  /** Leading41 of a value with at most 41 bits. */
  lemma Leading41OfShort(n: nat, len: nat)
    requires HasBitLength(n, len) && len <= TimestampBits
    ensures Leading41(n) == n
  {
    var bits := ToBinary(n);
    ToBinaryLength(n);
    BitLengthUnique(n, len, |bits|);
    ParseToBinary(n);
    assert SliceFront(bits, TimestampBits) == bits;
  }

  /** Leading41 of a value with more than 41 bits. */
  lemma Leading41OfLong(n: nat, len: nat)
    requires HasBitLength(n, len) && len > TimestampBits
    ensures Leading41(n) == ShiftRight(n, len - TimestampBits)
  {
    ShiftRightDivides(n, len - TimestampBits);
    var bits := ToBinary(n);
    ToBinaryLength(n);
    BitLengthUnique(n, len, |bits|);
    ParseToBinary(n);
    assert SliceFront(bits, TimestampBits) == bits[..TimestampBits];
    ParsePrefix(bits, TimestampBits);
  }

  /** The shift of `Leading41Shift` agrees with shifting one bit at a time
      until the value fits. */
  lemma {:induction false} FitTo41BitsShift(n: nat, len: nat)
    requires HasBitLength(n, len)
    ensures FitTo41Bits(n) == ShiftRight(n, DroppedBits(len))
    decreases n
  {
    if n < Pow2(TimestampBits) {
      if len > TimestampBits {
        Pow2Monotonic(TimestampBits, len - 1);
        assert false;
      }
      assert DroppedBits(len) == 0;
    } else {
      if len <= TimestampBits {
        Pow2Monotonic(len, TimestampBits);
        assert false;
      }
      HalveBitLength(n, len);
      FitTo41BitsShift(n / 2, len - 1);
      assert DroppedBits(len) == DroppedBits(len - 1) + 1;
      assert FitTo41Bits(n) == FitTo41Bits(n / 2);
    }
  }

  /** Reading the leading 41 bits off the binary text is the arithmetic
      shift of the reference definition. */
  lemma Leading41IsFit(n: nat)
    ensures Leading41(n) == FitTo41Bits(n)
  {
    var len := |ToBinary(n)|;
    ToBinaryLength(n);
    Leading41Shift(n, len);
    FitTo41BitsShift(n, len);
  }

  /** The decoded timestamp fits in 41 bits, keeps a value that already fits,
      and has its top bit set whenever the identifier has 41 bits or more. */
  lemma {:induction false} FitTo41BitsRange(n: nat)
    ensures FitTo41Bits(n) < Pow2(TimestampBits)
    ensures n < Pow2(TimestampBits) ==> FitTo41Bits(n) == n
    ensures n >= Pow2(TimestampBits - 1) ==> FitTo41Bits(n) >= Pow2(TimestampBits - 1)
    decreases n
  {
    if n >= Pow2(TimestampBits) {
      FitTo41BitsRange(n / 2);
    }
  }

  /** `extractUnixTimestamp(id)`: nothing for a missing identifier or one
      `BigInt` rejects, otherwise the leading 41 bits of its value. */
  function ExtractTimestamp(id: Option<string>): (r: Option<nat>)
    ensures r.Some? <==> id.Some? && AllDigits(id.value)
    ensures r.Some? ==> r.value == FitTo41Bits(DecimalValue(id.value))
    ensures r.Some? ==> r.value < Pow2(TimestampBits)
  {
    match id
    case None => None
    case Some(s) =>
      match ParseDecimal(s)
      case None => None
      case Some(n) => Leading41IsFit(n); Some(Leading41(n))
  }

}
