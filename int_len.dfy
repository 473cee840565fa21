/** The length pass for integers (`pwrapper.rs`): how many bytes the decimal,
    hexadecimal and binary renderings of a value of each primitive integer
    type take, computed without rendering. Every length is proved equal to the
    length of the corresponding text of `IntTypes`. */
module IntLen {
  import opened Numeric
  import opened IntTypes

  /** `wrapping_abs` of a signed type: the magnitude, except that `MIN`,
      whose magnitude does not fit, wraps around to itself. */
  function WrappingAbs(v: int, t: IntType): (r: int)
    requires t.IsSigned() && t.Contains(v)
    ensures t.Contains(r)
    ensures r == if v == t.Min() then v else Abs(v)
  {
    ContainsBounds(v, t);
    if v == t.Min() then
      MinWrapsToItself(t);
      AsSigned(Abs(v), t.Bits())
    else
      AsSigned(Abs(v), t.Bits())
  }

  lemma MinWrapsToItself(t: IntType)
    requires t.IsSigned()
    ensures AsSigned(Abs(t.Min()), t.Bits()) == t.Min()
  {
    var w: nat := t.Bits();
    HalfWidth(t.Bits());
    var r := AsSigned(Abs(t.Min()), t.Bits());
    assert AsUnsigned(r, w) == Pow(2, w - 1);
    if r < 0 {
      AsUnsignedNegative(r, w);
    }
  }

  /** `unsigned_abs`: `wrapping_abs` cast to the unsigned type of the same
      width for a signed type, the value itself for an unsigned one. The cast
      turns the wrapped `MIN` back into its true magnitude `2^(W-1)`. */
  function UnsignedAbs(v: int, t: IntType): (r: nat)
    requires t.Contains(v)
    ensures r == Abs(v)
    ensures r < Pow(2, t.Bits())
  {
    ContainsBounds(v, t);
    HalfWidth(t.Bits());
    if t.IsSigned() then AsUnsigned(WrappingAbs(v, t), t.Bits()) else v
  }

  /** The digit-count staircase (`impl_number_of_digits!`): starting from the
      count `len0`, it adds the number of decimal digits of `n0` beyond the
      first, dividing by 10^16, 10^12, 10^8 and 10^4 (each tier only for widths
      that can reach it), then by 100 and finally comparing with 10. The tiers
      are only enough because `n0` fits in `bits` bits. */
  method NumberOfDigits(bits: Width, n0: nat, len0: nat) returns (len: nat)
    requires n0 < Pow(2, bits)
    ensures len + 1 == len0 + |Digits(n0, 10)|
  {
    WidthBelowPow10(bits);
    var n := n0;
    len := len0;
    n, len := DigitTier(n, len, bits == 128, 16, 1_0000_0000_0000_0000, 1_0000_0000_0000_0000_0000_0000_0000);
    n, len := DigitTier(n, len, bits >= 64, 12, 1_0000_0000_0000, 1_0000_0000_0000_0000);
    n, len := DigitTier(n, len, bits >= 32, 8, 1_0000_0000, 1_0000_0000);
    n, len := DigitTier(n, len, bits >= 16, 4, 1_0000, 1_0000);
    n, len := DigitTier(n, len, true, 2, 100, 100);
    LastTwoDigits(n);
    if n >= 10 {
      len := len + 1;
    }
  }

  /** One tier of the staircase, present in the code only for the widths
      that can reach it (`present`): when `n` has at least `k + 1` digits it
      is divided by `d = 10^k` and `k` is added to the count. Either way the
      count plus the digits left is unchanged, and what is left is below
      `below`. */
  method DigitTier(n: nat, len: nat, present: bool, k: nat, d: nat, below: nat) returns (n': nat, len': nat)
    requires d == Pow(10, k) && d <= below && n < d * below
    requires present || n < below
    ensures len' + |Digits(n', 10)| == len + |Digits(n, 10)| && n' < below
    ensures if present && n >= d then n' == n / d && len' == len + k else n' == n && len' == len
  {
    n', len' := n, len;
    if present {
      if n >= d {
        Tier(n, k, d, below);
        n' := n / d;
        len' := len + k;
      }
    }
  }

  /** One tier of the staircase: dividing by `d = 10^k` drops `k` digits and
      leaves a quotient below `below`. */
  lemma Tier(n: nat, k: nat, d: nat, below: nat)
    requires d == Pow(10, k) && n >= d && n < d * below
    ensures |Digits(n, 10)| == k + |Digits(n / d, 10)| && n / d < below
  {
    DigitsShift(n, 10, k);
    DivLess(n, d, below);
  }

  lemma LastTwoDigits(n: nat)
    requires n < 100
    ensures |Digits(n, 10)| == if n >= 10 then 2 else 1
  {
    if n >= 10 {
      assert n / 10 < 10;
    }
  }

  /** Every width's values are below the bound the staircase starts from. */
  lemma WidthBelowPow10(bits: Width)
    ensures bits == 128 ==> Pow(2, bits) < 1_0000_0000_0000_0000 * 1_0000_0000_0000_0000_0000_0000_0000
    ensures bits == 64 ==> Pow(2, bits) < 1_0000_0000_0000_0000_0000_0000_0000
    ensures bits == 32 ==> Pow(2, bits) < 1_0000_0000_0000_0000
    ensures bits == 16 ==> Pow(2, bits) < 1_0000_0000
    ensures bits == 8 ==> Pow(2, bits) < 1_0000
    ensures Pow(10, 16) == 1_0000_0000_0000_0000 && Pow(10, 12) == 1_0000_0000_0000
    ensures Pow(10, 8) == 1_0000_0000 && Pow(10, 4) == 1_0000 && Pow(10, 2) == 100
  {
    Pow2Values();
    Pow10Values();
  }

  /** `compute_display_len`: the number of bytes of the decimal text, sign
      included. `usize`/`isize` delegate to the 64-bit types. */
  method ComputeDisplayLen(v: int, t: IntType) returns (len: nat)
    requires t.Contains(v)
    ensures len == |DisplayText(v)|
    decreases t.IsWordSized()
  {
    if t.IsWordSized() {
      WordSizedDelegates(v, t, FormattingFlags(Regular, false));
      len := ComputeDisplayLen(v, t.Word());
      return;
    }
    var n := UnsignedAbs(v, t);
    assert |DisplayText(v)| == (if v < 0 then 1 else 0) + |Digits(n, 10)|;
    if t.IsSigned() {
      len := 1 + if v < 0 then 1 else 0;
    } else {
      len := 1;
    }
    len := NumberOfDigits(t.Bits(), n, len);
  }

  /** `leading_zeros` of a `bits`-wide bit pattern: the number of zero bits
      above the most significant one bit. */
  function LeadingZeros(bits: Width, x: nat): (r: nat)
    requires x < Pow(2, bits)
    ensures r <= bits
    ensures x < Pow(2, bits - r)
    ensures r < bits ==> Pow(2, bits - r - 1) <= x
  {
    BitLenBound(x, bits);
    BitLenTight(x);
    bits - BitLen(x)
  }

  /** `compute_hex_count!`: with `i = bits - leading_zeros`, one digit for
      zero and otherwise `ceil(i / 4)` digits (`(i >> 2) + ((i & 3) != 0)`),
      plus two bytes for `"0x"` when `with0x`. */
  function HexCount(bits: Width, x: nat, with0x: bool): (r: nat)
    requires x < Pow(2, bits)
    ensures r == |HexText(x, with0x)|
    ensures with0x ==> r >= 3
  {
    HexDigitsLen(x);
    BitLenBound(x, bits);
    var prefix := if with0x then 2 else 0;
    var i := bits - LeadingZeros(bits, x);
    (if i == 0 then 1 else i / 4 + (if i % 4 != 0 then 1 else 0)) + prefix
  }

  /** `compute_binary_count!`: `max(1, bits - leading_zeros)` digits, plus two
      bytes for `"0b"` when `with0b`. */
  function BinaryCount(bits: Width, x: nat, with0b: bool): (r: nat)
    requires x < Pow(2, bits)
    ensures r == |BinaryText(x, with0b)|
    ensures with0b ==> r >= 3
  {
    BinaryDigitsLen(x);
    BitLenBound(x, bits);
    var prefix := if with0b then 2 else 0;
    var i := bits - LeadingZeros(bits, x);
    (if i == 0 then 1 else i) + prefix
  }

  /** `hexadecimal_len`: the hex count of the value's own bit pattern
      (`leading_zeros` of a signed value looks at its two's complement). */
  function HexadecimalLen(v: int, t: IntType, flags: FormattingFlags): (r: nat)
    requires t.Contains(v)
    ensures r == |HexText(AsUnsigned(v, t.Bits()), flags.isAlternate)|
    decreases t.IsWordSized()
  {
    if t.IsWordSized() then HexadecimalLen(v, t.Word(), flags)
    else HexCount(t.Bits(), AsUnsigned(v, t.Bits()), flags.isAlternate)
  }

  /** `binary_len`: the binary count of the value's own bit pattern. */
  function BinaryLen(v: int, t: IntType, flags: FormattingFlags): (r: nat)
    requires t.Contains(v)
    ensures r == |BinaryText(AsUnsigned(v, t.Bits()), flags.isAlternate)|
    decreases t.IsWordSized()
  {
    if t.IsWordSized() then BinaryLen(v, t.Word(), flags)
    else BinaryCount(t.Bits(), AsUnsigned(v, t.Bits()), flags.isAlternate)
  }

  /** `compute_debug_len`: the display length in regular mode, the hex count
      in hexadecimal mode, the binary count in binary mode. */
  method ComputeDebugLen(v: int, t: IntType, flags: FormattingFlags) returns (len: nat)
    requires t.Contains(v)
    ensures len == |DebugText(v, t, flags)|
    decreases t.IsWordSized()
  {
    if t.IsWordSized() {
      len := ComputeDebugLen(v, t.Word(), flags);
      return;
    }
    match flags.mode
    case Regular =>
      len := ComputeDisplayLen(v, t);
    case Hexadecimal =>
      len := HexCount(t.Bits(), AsUnsigned(v, t.Bits()), flags.isAlternate);
    case Binary =>
      len := BinaryCount(t.Bits(), AsUnsigned(v, t.Bits()), flags.isAlternate);
  }

  /** `usize` and `isize` have the lengths of `u64` and `i64` for every value
      and every flag setting. */
  lemma WordSizedDelegates(v: int, t: IntType, flags: FormattingFlags)
    requires t.IsWordSized() && t.Contains(v)
    ensures t.Word().Contains(v)
    ensures DebugText(v, t, flags) == DebugText(v, t.Word(), flags)
    ensures HexadecimalLen(v, t, flags) == HexadecimalLen(v, t.Word(), flags)
    ensures BinaryLen(v, t, flags) == BinaryLen(v, t.Word(), flags)
  {
    var w := t.Word();
    assert w.Bits() == t.Bits() && w.IsSigned() == t.IsSigned();
    assert w.Min() == t.Min() && w.Max() == t.Max();
    match flags.mode {
      case Regular =>
      case Hexadecimal =>
        assert AsUnsigned(v, w.Bits()) == AsUnsigned(v, t.Bits());
      case Binary =>
        assert AsUnsigned(v, w.Bits()) == AsUnsigned(v, t.Bits());
    }
  }

  /** The powers of ten around the 64-bit and 128-bit limits. */
  lemma LargePow10Values()
    ensures Pow(10, 18) == 1_000_000_000_000_000_000
    ensures Pow(10, 19) == 10_000_000_000_000_000_000
    ensures Pow(10, 20) == 100_000_000_000_000_000_000
    ensures Pow(10, 38) == 100_000_000_000_000_000_000_000_000_000_000_000_000
    ensures Pow(10, 39) == 1_000_000_000_000_000_000_000_000_000_000_000_000_000
  {
    Pow10Values();
    assert Pow(10, 1) == 10;
    PowAdd(10, 16, 2);
    PowAdd(10, 18, 1);
    PowAdd(10, 16, 4);
    PowAdd(10, 28, 8);
    PowAdd(10, 36, 2);
  }

  /** A decimal digit count pinned by the powers of ten around the value. */
  lemma DecimalDigitCount(n: nat, k: nat)
    requires k >= 1 && Pow(10, k - 1) <= n < Pow(10, k)
    ensures |Digits(n, 10)| == k
  {
    DigitsLenBound(n, 10, k);
    if k > 1 {
      DigitsLenBound(n, 10, k - 1);
    }
  }

  /** The decimal texts of the 8-bit `MIN` and `MAX` are the standard
      library's. */
  lemma MinMaxTexts8()
    ensures DisplayText(I8.Min()) == [45, 49, 50, 56]  // "-128"
    ensures DisplayText(I8.Max()) == [49, 50, 55]  // "127"
    ensures DisplayText(U8.Min()) == [48]  // "0"
    ensures DisplayText(U8.Max()) == [50, 53, 53]  // "255"
  {
    Limits8();
    assert Digits(128, 10) == [49, 50, 56] by {
      assert Digits(12, 10) == [49, 50];
    }
    assert Digits(255, 10) == [50, 53, 53] by {
      assert Digits(25, 10) == [50, 53];
    }
  }

  /** The display lengths of `MIN` and `MAX` of every width are the lengths of
      the standard library's texts (`-128`/`127`, `-32768`/`32767`, ...,
      `0`/`340282366920938463463374607431768211455`). */
  lemma MinMaxLengths8()
    ensures |DisplayText(I8.Min())| == 4 && |DisplayText(I8.Max())| == 3
    ensures |DisplayText(U8.Min())| == 1 && |DisplayText(U8.Max())| == 3
  {
    Limits8();
    DecimalLen8();
  }

  lemma Limits8()
    ensures I8.Min() == -128 && I8.Max() == 127 && U8.Min() == 0 && U8.Max() == 255
  {
    Pow2Values();
    HalfWidth(8);
  }

  lemma DecimalLen8()
    ensures |DisplayText(-128)| == 4 && |DisplayText(127)| == 3
    ensures |DisplayText(0)| == 1 && |DisplayText(255)| == 3
  {
    MagnitudeLen8();
    assert |DisplayText(127)| == 3;
    assert |DisplayText(255)| == 3;
  }

  lemma MagnitudeLen8()
    ensures |DisplayText(-128)| == 4
  {
    assert |Digits(128, 10)| == 3;
  }

  lemma MinMaxLengths16()
    ensures |DisplayText(I16.Min())| == 6 && |DisplayText(I16.Max())| == 5
    ensures |DisplayText(U16.Min())| == 1 && |DisplayText(U16.Max())| == 5
  {
    Limits16();
    DecimalLen16();
  }

  lemma Limits16()
    ensures I16.Min() == -32768 && I16.Max() == 32767 && U16.Min() == 0 && U16.Max() == 65535
  {
    Pow2Values();
    HalfWidth(16);
  }

  lemma DecimalLen16()
    ensures |DisplayText(-32768)| == 6 && |DisplayText(32767)| == 5
    ensures |DisplayText(0)| == 1 && |DisplayText(65535)| == 5
  {
    MagnitudeLen16();
    assert |DisplayText(32767)| == 5;
    assert |DisplayText(65535)| == 5;
  }

  lemma MagnitudeLen16()
    ensures |DisplayText(-32768)| == 6
  {
    assert |Digits(32768, 10)| == 5;
  }

  lemma MinMaxLengths32()
    ensures |DisplayText(I32.Min())| == 11 && |DisplayText(I32.Max())| == 10
    ensures |DisplayText(U32.Min())| == 1 && |DisplayText(U32.Max())| == 10
  {
    Limits32();
    DecimalLen32();
  }

  lemma Limits32()
    ensures I32.Min() == -2147483648 && I32.Max() == 2147483647 && U32.Min() == 0 && U32.Max() == 4294967295
  {
    Pow2Values();
    HalfWidth(32);
  }

  lemma DecimalLen32()
    ensures |DisplayText(-2147483648)| == 11 && |DisplayText(2147483647)| == 10
    ensures |DisplayText(0)| == 1 && |DisplayText(4294967295)| == 10
  {
    MagnitudeLen32();
    assert |DisplayText(2147483647)| == 10;
    assert |DisplayText(4294967295)| == 10;
  }

  lemma MagnitudeLen32()
    ensures |DisplayText(-2147483648)| == 11
  {
    assert |Digits(2147483648, 10)| == 10;
  }

  lemma MinMaxLengths64()
    ensures |DisplayText(I64.Min())| == 20 && |DisplayText(I64.Max())| == 19
    ensures |DisplayText(U64.Min())| == 1 && |DisplayText(U64.Max())| == 20
  {
    Limits64();
    DecimalLen64();
  }

  lemma Limits64()
    ensures I64.Min() == -9223372036854775808 && I64.Max() == 9223372036854775807 && U64.Min() == 0 && U64.Max() == 18446744073709551615
  {
    Pow2Values();
    HalfWidth(64);
  }

  lemma DecimalLen64()
    ensures |DisplayText(-9223372036854775808)| == 20 && |DisplayText(9223372036854775807)| == 19
    ensures |DisplayText(0)| == 1 && |DisplayText(18446744073709551615)| == 20
  {
    LargePow10Values();
    DecimalDigitCount(9223372036854775808, 19);
    DecimalDigitCount(9223372036854775807, 19);
    DecimalDigitCount(18446744073709551615, 20);
  }

  lemma MinMaxLengths128()
    ensures |DisplayText(I128.Min())| == 40 && |DisplayText(I128.Max())| == 39
    ensures |DisplayText(U128.Min())| == 1 && |DisplayText(U128.Max())| == 39
  {
    Limits128();
    DecimalLen128();
  }

  lemma Limits128()
    ensures I128.Min() == -170141183460469231731687303715884105728 && I128.Max() == 170141183460469231731687303715884105727 && U128.Min() == 0 && U128.Max() == 340282366920938463463374607431768211455
  {
    Pow2Values();
    HalfWidth(128);
  }

  lemma DecimalLen128()
    ensures |DisplayText(-170141183460469231731687303715884105728)| == 40 && |DisplayText(170141183460469231731687303715884105727)| == 39
    ensures |DisplayText(0)| == 1 && |DisplayText(340282366920938463463374607431768211455)| == 39
  {
    LargePow10Values();
    DecimalDigitCount(170141183460469231731687303715884105728, 39);
    DecimalDigitCount(170141183460469231731687303715884105727, 39);
    DecimalDigitCount(340282366920938463463374607431768211455, 39);
  }

  lemma MinMaxWordSized()
    ensures Isize.Min() == I64.Min() && Isize.Max() == I64.Max()
    ensures Usize.Min() == U64.Min() && Usize.Max() == U64.Max()
  {
  }
}
