/** Base-2 text and powers of two: `BigInt.prototype.toString(2)` and
    `parseInt(s, 2)`, modelled exactly on unbounded naturals. */
module Binary {

  function Pow2(k: nat): (r: nat)
    ensures r >= 1
  {
    if k == 0 then 1 else 2 * Pow2(k - 1)
  }

  lemma {:induction false} Pow2Monotonic(a: nat, b: nat)
    requires a <= b
    ensures Pow2(a) <= Pow2(b)
    decreases b - a
  {
    if a < b {
      Pow2Monotonic(a, b - 1);
    }
  }

  lemma {:induction false} Pow2Add(a: nat, b: nat)
    ensures Pow2(a + b) == Pow2(a) * Pow2(b)
    decreases a
  {
    if a > 0 {
      Pow2Add(a - 1, b);
    }
  }

  /** Euclidean division is determined by any quotient and remainder that fit. */
  lemma DivUnique(x: nat, d: nat, q: nat, r: nat)
    requires d > 0 && x == d * q + r && r < d
    ensures x / d == q
  {
    var t := q - x / d;
    assert d * t == d * q - d * (x / d);
    if t >= 1 {
      assert false;
    } else if t <= -1 {
      assert false;
    }
  }

  /** Halving and then dividing by `2^m` is dividing by `2^(m+1)`. */
  lemma HalveThenDivide(x: nat, m: nat)
    ensures (x / 2) / Pow2(m) == x / Pow2(m + 1)
  {
    var p := Pow2(m);
    var q := (x / 2) / p;
    var r := (x / 2) % p;
    assert x / 2 == p * q + r;
    assert x == (2 * p) * q + (2 * r + x % 2);
    DivUnique(x, 2 * p, q, 2 * r + x % 2);
  }

  /** `n >> k`: `k` halvings, one bit at a time. */
  function ShiftRight(n: nat, k: nat): nat
    decreases k
  {
    if k == 0 then n else ShiftRight(n / 2, k - 1)
  }

  /** Shifting right by `k` is dividing by `2^k`. */
  lemma {:induction false} ShiftRightDivides(n: nat, k: nat)
    ensures ShiftRight(n, k) == n / Pow2(k)
    decreases k
  {
    if k > 0 {
      ShiftRightDivides(n / 2, k - 1);
      HalveThenDivide(n, k - 1);
    }
  }

  predicate IsBinary(s: string) {
    forall k :: 0 <= k < |s| ==> s[k] == '0' || s[k] == '1'
  }

  function BitChar(b: nat): char
    requires b < 2
  {
    if b == 0 then '0' else '1'
  }

  function BitValue(c: char): nat {
    if c == '1' then 1 else 0
  }

  /** `n` has exactly `len` significant binary digits; zero is written with
      the single digit `0`. */
  ghost predicate HasBitLength(n: nat, len: nat) {
    len >= 1 && n < Pow2(len) && (len == 1 || Pow2(len - 1) <= n)
  }

  /** Halving drops one bit. */
  lemma HalveBitLength(n: nat, len: nat)
    requires HasBitLength(n, len) && len >= 2
    ensures HasBitLength(n / 2, len - 1)
  {
    assert Pow2(len) == 2 * Pow2(len - 1);
    assert Pow2(len - 1) == 2 * Pow2(len - 2);
  }


  /** `BigInt.prototype.toString(2)` of a non-negative value: most significant
      digit first, `0` for zero, otherwise starting with `1`. */
  function ToBinary(n: nat): (r: string)
    ensures |r| >= 1 && IsBinary(r)
    ensures r[0] == '1' <==> n > 0
    decreases n
  {
    if n < 2 then [BitChar(n)] else ToBinary(n / 2) + [BitChar(n % 2)]
  }

  /** `parseInt(s, 2)` of a string of binary digits, computed exactly (the
      empty string, which the caller never passes, reads as 0). */
  function ParseBinary(s: string): (n: nat)
    requires IsBinary(s)
    ensures n < Pow2(|s|)
  {
    if |s| == 0 then 0 else 2 * ParseBinary(s[..|s| - 1]) + BitValue(s[|s| - 1])
  }

  /** A bit length, when it exists, is unique. */
  lemma BitLengthUnique(n: nat, a: nat, b: nat)
    requires HasBitLength(n, a) && HasBitLength(n, b)
    ensures a == b
  {
    if a < b {
      Pow2Monotonic(a, b - 1);
    } else if b < a {
      Pow2Monotonic(b, a - 1);
    }
  }

  /** The text `toString(2)` produces has as many digits as the value has bits. */
  lemma {:induction false} ToBinaryLength(n: nat)
    ensures HasBitLength(n, |ToBinary(n)|)
    decreases n
  {
    if n >= 2 {
      ToBinaryLength(n / 2);
    }
  }

  /** Reading back the binary text of `n` gives `n`. */
  lemma {:induction false} ParseToBinary(n: nat)
    ensures ParseBinary(ToBinary(n)) == n
    decreases n
  {
    if n >= 2 {
      var high := ToBinary(n / 2);
      var s := high + [BitChar(n % 2)];
      assert s[..|s| - 1] == high;
      ParseToBinary(n / 2);
    }
  }

  /** Keeping the first `k` binary digits drops the last `|s| - k` bits:
      it divides the value by `2^(|s| - k)`. */
  lemma {:induction false} ParsePrefix(s: string, k: nat)
    requires IsBinary(s) && k <= |s|
    ensures ParseBinary(s[..k]) == ParseBinary(s) / Pow2(|s| - k)
    decreases |s| - k
  {
    if k == |s| {
      assert s[..k] == s;
    } else {
      var init := s[..|s| - 1];
      assert init[..k] == s[..k];
      ParsePrefix(init, k);
      assert ParseBinary(s) / 2 == ParseBinary(init);
      HalveThenDivide(ParseBinary(s), |init| - k);
    }
  }

}
