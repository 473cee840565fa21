/** Natural-number arithmetic shared by the integer length and rendering
    models: powers, positional digit strings (least-significant digit
    generated last, upper-case hexadecimal), their inverse, and bit lengths. */
module Numeric {

  /** An 8-bit unsigned byte (`u8`). */
  newtype byte = b: int | 0 <= b < 256

  function Pow(base: nat, k: nat): (r: nat)
    ensures base >= 1 ==> r >= 1
  {
    if k == 0 then 1 else base * Pow(base, k - 1)
  }

  lemma {:induction false} PowAdd(base: nat, a: nat, b: nat)
    ensures Pow(base, a + b) == Pow(base, a) * Pow(base, b)
  {
    if a > 0 {
      PowAdd(base, a - 1, b);
      assert Pow(base, a + b) == base * Pow(base, a - 1 + b);
      MulAssoc(base, Pow(base, a - 1), Pow(base, b));
    }
  }

  lemma {:induction false} PowMonotone(base: nat, a: nat, b: nat)
    requires base >= 1 && a <= b
    ensures Pow(base, a) <= Pow(base, b)
  {
    if a < b {
      PowMonotone(base, a, b - 1);
      assert Pow(base, b) == base * Pow(base, b - 1);
      MulLe(1, base, Pow(base, b - 1));
    }
  }

  /** The powers of two that bound the integer widths 8, 16, 32, 64 and 128. */
  lemma Pow2Values()
    ensures Pow(2, 8) == 0x100 && Pow(2, 16) == 0x1_0000 && Pow(2, 32) == 0x1_0000_0000
    ensures Pow(2, 64) == 0x1_0000_0000_0000_0000
    ensures Pow(2, 128) == 0x1_0000_0000_0000_0000_0000_0000_0000_0000
  {
    assert Pow(2, 4) == 16;
    PowAdd(2, 4, 4);
    assert Pow(2, 8) == 0x100;
    PowAdd(2, 8, 8);
    assert Pow(2, 16) == 0x1_0000;
    PowAdd(2, 16, 16);
    assert Pow(2, 32) == 0x1_0000_0000;
    PowAdd(2, 32, 32);
    assert Pow(2, 64) == 0x1_0000_0000_0000_0000;
    PowAdd(2, 64, 64);
  }

  /** The powers of ten used as thresholds by the decimal digit count. */
  lemma Pow10Values()
    ensures Pow(10, 2) == 100 && Pow(10, 4) == 1_0000 && Pow(10, 8) == 1_0000_0000
    ensures Pow(10, 12) == 1_0000_0000_0000 && Pow(10, 16) == 1_0000_0000_0000_0000
    ensures Pow(10, 28) == 1_0000_0000_0000_0000_0000_0000_0000
    ensures Pow(10, 39) == 1_000_000_000_000_000_000_000_000_000_000_000_000_000
  {
    assert Pow(10, 2) == 100;
    PowAdd(10, 2, 2);
    assert Pow(10, 4) == 1_0000;
    PowAdd(10, 4, 4);
    assert Pow(10, 8) == 1_0000_0000;
    PowAdd(10, 8, 4);
    assert Pow(10, 12) == 1_0000_0000_0000;
    PowAdd(10, 8, 8);
    assert Pow(10, 16) == 1_0000_0000_0000_0000;
    PowAdd(10, 16, 12);
    assert Pow(10, 28) == 1_0000_0000_0000_0000_0000_0000_0000;
    assert Pow(10, 3) == 1000;
    PowAdd(10, 8, 3);
    PowAdd(10, 28, 11);
  }

  lemma MulLe(a: nat, b: nat, m: nat)
    requires a <= b
    ensures a * m <= b * m
  {
    assert b * m == a * m + (b - a) * m;
  }

  /** Euclidean division by a product is division by each factor in turn. */
  lemma DivDiv(n: nat, a: nat, c: nat)
    requires a > 0 && c > 0
    ensures n / a / c == n / (a * c)
  {
    DivModOf(n, a);
    var q, r := n / a, n % a;
    DivModOf(q, c);
    var q2, r2 := q / c, q % c;
    MulRegroup(q2, c, r2, a);
    assert r2 * a + r < a * c by {
      MulLe(r2, c - 1, a);
      MulPred(c, a);
    }
    DivUnique(n, a * c, q2, r2 * a + r);
  }

  lemma DivModOf(n: nat, d: nat)
    requires d > 0
    ensures 0 <= n / d && 0 <= n % d < d && n == (n / d) * d + n % d
  {
  }

  lemma MulAssoc(x: nat, y: nat, z: nat)
    ensures x * (y * z) == (x * y) * z
  {
  }

  lemma MulRegroup(x: nat, c: nat, y: nat, a: nat)
    ensures (x * c + y) * a == x * (a * c) + y * a
  {
  }

  lemma MulPred(c: nat, a: nat)
    requires c > 0
    ensures (c - 1) * a == a * c - a
  {
  }

  lemma DivUnique(n: nat, m: nat, q: nat, r: nat)
    requires m > 0 && n == q * m + r && r < m
    ensures n / m == q
  {
    var q', r' := n / m, n % m;
    if q' < q {
      QuotientOrder(q', q, m, r', r);
    } else if q < q' {
      QuotientOrder(q, q', m, r, r');
    }
  }

  lemma QuotientOrder(q1: nat, q2: nat, m: nat, r1: nat, r2: nat)
    requires q1 < q2 && r1 < m
    ensures q1 * m + r1 < q2 * m + r2
  {
    assert (q1 + 1) * m == q1 * m + m;
    MulLe(q1 + 1, q2, m);
  }

  lemma DivMod(n: nat, b: nat)
    requires b >= 2
    ensures n == (n / b) * b + n % b && n % b < b
    ensures n >= b ==> 1 <= n / b < n
  {
  }

  lemma DivLess(n: nat, b: nat, m: nat)
    requires b > 0
    ensures n / b < m <==> n < b * m
  {
    if n / b < m {
      assert n == (n / b) * b + n % b;
      assert (n / b) * b <= (m - 1) * b;
    } else {
      assert n >= (n / b) * b;
      assert (n / b) * b >= m * b;
    }
  }

  /** The byte of a digit value below 16: `'0'..'9'`, then upper-case `'A'..'F'`. */
  function DigitByte(d: nat): (b: byte)
    requires d < 16
    ensures IsHexDigit(b) && DigitValue(b) == d
  {
    if d <= 9 then 48 + d as byte else 65 - 10 + d as byte
  }

  predicate IsHexDigit(b: byte) {
    48 <= b <= 57 || 65 <= b <= 70
  }

  function DigitValue(b: byte): nat
    requires IsHexDigit(b)
  {
    if b <= 57 then (b - 48) as nat else (b - 65 + 10) as nat
  }

  predicate ValidBase(base: nat) {
    2 <= base <= 16
  }

  /** The digits of `n` in `base`, most significant first, with no leading zeros
      (zero is the single digit `'0'`). */
  function Digits(n: nat, base: nat): (s: seq<byte>)
    requires ValidBase(base)
    ensures |s| >= 1
    decreases n
  {
    if n < base then [DigitByte(n)] else Digits(n / base, base) + [DigitByte(n % base)]
  }

  /** Every byte of a digit string is a digit below the base, and the leading
      one is `'0'` only for zero. */
  lemma {:induction false} DigitsWellFormed(n: nat, base: nat)
    requires ValidBase(base)
    ensures forall i | 0 <= i < |Digits(n, base)| :: IsHexDigit(Digits(n, base)[i]) && DigitValue(Digits(n, base)[i]) < base
    ensures (Digits(n, base)[0] == 48) <==> (n == 0)
    decreases n
  {
    if n >= base {
      DivMod(n, base);
      DigitsWellFormed(n / base, base);
      var front := Digits(n / base, base);
      assert Digits(n, base) == front + [DigitByte(n % base)];
    }
  }

  /** The last digit of `n` is `n % base`, preceded by the digits of
      `n / base` unless that is zero. */
  lemma LastDigit(n: nat, base: nat)
    requires ValidBase(base)
    ensures Digits(n, base) == (if n < base then [] else Digits(n / base, base)) + [DigitByte(n % base)]
    ensures n < base <==> n / base == 0
  {
    if n < base {
      assert n % base == n;
    }
  }

  /** The value of a digit string, read most significant digit first. */
  function ParseDigits(s: seq<byte>, base: nat): nat
    requires ValidBase(base)
    requires forall i | 0 <= i < |s| :: IsHexDigit(s[i])
  {
    if s == [] then 0 else ParseDigits(s[..|s| - 1], base) * base + DigitValue(s[|s| - 1])
  }

  /** Rendering a number and reading it back gives the number. */
  lemma {:induction false} DigitsRoundTrip(n: nat, base: nat)
    requires ValidBase(base)
    ensures var s := Digits(n, base);
      (forall i | 0 <= i < |s| :: IsHexDigit(s[i])) && ParseDigits(s, base) == n
    decreases n
  {
    DigitsWellFormed(n, base);
    var s := Digits(n, base);
    if n >= base {
      DivMod(n, base);
      DigitsWellFormed(n / base, base);
      var front := Digits(n / base, base);
      assert s == front + [DigitByte(n % base)];
      assert s[..|s| - 1] == front;
      assert ParseDigits(s, base) == ParseDigits(front, base) * base + DigitValue(DigitByte(n % base));
      DigitsRoundTrip(n / base, base);
    }
  }

  /** A number has at most `k` digits exactly when it is below `base^k`. */
  lemma {:induction false} DigitsLenBound(n: nat, base: nat, k: nat)
    requires ValidBase(base) && k >= 1
    ensures |Digits(n, base)| <= k <==> n < Pow(base, k)
    decreases n
  {
    PowMonotone(base, 1, k);
    if n >= base {
      DivMod(n, base);
      if k == 1 {
        assert Pow(base, 1) == base;
      } else {
        DigitsLenBound(n / base, base, k - 1);
        DivLess(n, base, Pow(base, k - 1));
      }
    }
  }

  /** Dividing by `base^k` removes exactly `k` digits from a number that has more than `k`. */
  lemma {:induction false} DigitsShift(n: nat, base: nat, k: nat)
    requires ValidBase(base) && n >= Pow(base, k)
    ensures |Digits(n, base)| == k + |Digits(n / Pow(base, k), base)|
    decreases k
  {
    if k > 0 {
      PowMonotone(base, 1, k);
      assert n >= base;
      DivLess(n, base, Pow(base, k - 1));
      DigitsShift(n / base, base, k - 1);
      DivDiv(n, base, Pow(base, k - 1));
    }
  }

  /** The number of significant bits: `W - leading_zeros` for a value of width `W`. */
  function BitLen(n: nat): nat
    decreases n
  {
    if n == 0 then 0 else 1 + BitLen(n / 2)
  }

  /** A value fits in `k` bits exactly when it is below `2^k`. */
  lemma {:induction false} BitLenBound(n: nat, k: nat)
    ensures BitLen(n) <= k <==> n < Pow(2, k)
    decreases n
  {
    if n > 0 {
      if k == 0 {
        assert Pow(2, 0) == 1;
      } else {
        BitLenBound(n / 2, k - 1);
        DivLess(n, 2, Pow(2, k - 1));
      }
    }
  }

  /** `BitLen(n)` is the least `k` with `n < 2^k`. */
  lemma BitLenTight(n: nat)
    ensures n < Pow(2, BitLen(n))
    ensures BitLen(n) > 0 ==> Pow(2, BitLen(n) - 1) <= n
  {
    BitLenBound(n, BitLen(n));
    if BitLen(n) > 0 {
      BitLenBound(n, BitLen(n) - 1);
    }
  }

  /** The binary digit string has `BitLen(n)` digits, or one for zero. */
  lemma {:induction false} BinaryDigitsLen(n: nat)
    ensures |Digits(n, 2)| == if n == 0 then 1 else BitLen(n)
    decreases n
  {
    if n >= 2 {
      BinaryDigitsLen(n / 2);
    }
  }

  lemma BitLenDiv16(n: nat)
    requires n >= 16
    ensures BitLen(n) == 4 + BitLen(n / 16) && BitLen(n / 16) >= 1
  {
    assert n / 2 / 2 == n / 4 && n / 4 / 2 == n / 8 && n / 8 / 2 == n / 16;
    assert BitLen(n) == 1 + BitLen(n / 2);
    assert BitLen(n / 2) == 1 + BitLen(n / 2 / 2);
    assert BitLen(n / 4) == 1 + BitLen(n / 4 / 2);
    assert BitLen(n / 8) == 1 + BitLen(n / 8 / 2);
  }

  /** The hexadecimal digit string has `ceil(BitLen(n) / 4)` digits, or one for zero. */
  lemma {:induction false} HexDigitsLen(n: nat)
    ensures |Digits(n, 16)| == if n == 0 then 1 else (BitLen(n) + 3) / 4
    decreases n
  {
    if n >= 16 {
      HexDigitsLen(n / 16);
      BitLenDiv16(n);
    } else if n > 0 {
      assert BitLen(n) <= 4 by { BitLenBound(n, 4); assert Pow(2, 4) == 16; }
    }
  }
}
