/** The digit renderers of `PWrapper<Integer>` (`pwrapper.rs`): each writes the
    digits of a type-erased integer right to left into a fixed array, moving a
    `start` cursor down, and returns the cursor with the array. The bytes from
    `start` to the end are proved to be the text of `IntTypes`, so the length
    pass of `IntLen` counts exactly the bytes rendered here. */
module IntRender {
  import opened Numeric
  import opened IntTypes
  import opened IntLen

  /** The type-erased integer the renderers take: the sign, the magnitude as a
      `u128`, and the mask of the declared width (`2^W - 1`), kept as `W`. */
  datatype Integer = Integer(isNegative: bool, unsigned: nat, maskBits: Width)

  /** The magnitude is a `u128`. */
  predicate ValidInteger(i: Integer) {
    i.unsigned < Pow(2, MAX_BITS)
  }

  /** The erasure of a value `v` of type `t`: negative exactly when `v` is,
      the magnitude `unsigned_abs`, the mask of `t`'s width. */
  function IntegerOf(v: int, t: IntType): (i: Integer)
    requires t.Contains(v)
    ensures ValidInteger(i)
    ensures i.isNegative <==> v < 0
    ensures i.unsigned == Abs(v) && i.maskBits == t.Bits()
  {
    PowMonotone(2, t.Bits(), MAX_BITS);
    Integer(v < 0, UnsignedAbs(v, t), t.Bits())
  }

  /** `as_negative`: the magnitude cast to `i128` and negated with wrap-around.
      Its `u128` bit pattern is `2^128 - unsigned` (zero stays zero). */
  function AsNegative(i: Integer): (r: int)
    requires ValidInteger(i)
    ensures AsUnsigned(r, MAX_BITS) == if i.unsigned == 0 then 0 else Pow(2, MAX_BITS) - i.unsigned
  {
    var wrapped := AsSigned(i.unsigned, MAX_BITS);
    NegatedPattern(i.unsigned, MAX_BITS);
    AsSigned(-wrapped, MAX_BITS)
  }

  /** Negating the signed reading of a `bits`-wide pattern `u` (with
      wrap-around) gives the pattern `2^bits - u`, and zero for zero. */
  lemma NegatedPattern(u: nat, bits: Width)
    requires u < Pow(2, bits)
    ensures AsUnsigned(-AsSigned(u, bits), bits) == if u == 0 then 0 else Pow(2, bits) - u
  {
    SignedReading(u, bits);
    NegatedResidue(u, AsSigned(u, bits), Pow(2, bits));
  }

  /** A `bits`-wide pattern read as signed is itself or itself minus `2^bits`. */
  lemma SignedReading(u: nat, bits: Width)
    requires u < Pow(2, bits)
    ensures AsSigned(u, bits) == u || AsSigned(u, bits) == u - Pow(2, bits)
  {
    var s := AsSigned(u, bits);
    HalfWidth(bits);
    if s < 0 {
      AsUnsignedNegative(s, bits);
    }
  }

  /** The residue of `-s` when `s` is `u` read as unsigned or as signed. */
  lemma NegatedResidue(u: nat, s: int, m: int)
    requires u < m && (s == u || s == u - m)
    ensures (-s) % m == if u == 0 then 0 else m - u
  {
    if u == 0 {
      ModUnique(-s, m, if s == 0 then 0 else 1, 0);
    } else if s == u {
      ModUnique(-s, m, -1, m - u);
    } else {
      ModUnique(-s, m, 0, m - u);
    }
  }

  /** The `u128` the hexadecimal and binary renderers start from: the
      `as_negative` pattern for a negative integer, the magnitude otherwise. */
  function Unmasked(i: Integer): (n: nat)
    requires ValidInteger(i)
    ensures n < Pow(2, MAX_BITS)
  {
    if i.isNegative then AsUnsigned(AsNegative(i), MAX_BITS) else i.unsigned
  }

  /** The bit pattern the hexadecimal and binary renderers print: the
      unmasked value `& mask`. */
  function Pattern(i: Integer): (n: nat)
    requires ValidInteger(i)
    ensures n < Pow(2, i.maskBits)
  {
    AsUnsigned(Unmasked(i), i.maskBits)
  }

  /** The pattern of an erased value is the value's own `W`-bit two's
      complement, i.e. what `{:x}` and `{:b}` print for it. */
  lemma TwosComplement(v: int, t: IntType)
    requires t.Contains(v)
    ensures Pattern(IntegerOf(v, t)) == AsUnsigned(v, t.Bits())
  {
    var i := IntegerOf(v, t);
    if v < 0 {
      var u := Unmasked(i);
      assert u == Pow(2, MAX_BITS) + v by {
        assert i.isNegative && i.unsigned == -v;
      }
      ShiftByLimit(v, t.Bits(), MAX_BITS);
      assert Pattern(i) == AsUnsigned(u, i.maskBits);
    }
  }

  /** Adding `2^b` (the `u128` modulus when `b` is 128) does not change the
      low `w` bits, for `w <= b`. */
  lemma ShiftByLimit(v: int, w: nat, b: nat)
    requires w <= b
    ensures AsUnsigned(Pow(2, b) + v, w) == AsUnsigned(v, w)
  {
    var m: int, c: int := Pow(2, w), Pow(2, b - w);
    PowAdd(2, w, b - w);
    assert Pow(2, b) == m * c;
    ModAddMultiple(v, c, m);
  }

  /** The decimal text `to_start_array_display` renders: `'-'` when negative,
      then the digits of the magnitude. */
  function IntegerDisplayText(i: Integer): seq<byte> {
    (if i.isNegative then [MINUS] else []) + Digits(i.unsigned, 10)
  }

  /** An erased value renders as the value's decimal text. */
  lemma DisplayOfErased(v: int, t: IntType)
    requires t.Contains(v)
    ensures IntegerDisplayText(IntegerOf(v, t)) == DisplayText(v)
  {
  }

  /** A cursor into a fixed array: the rendered bytes are `buffer[start..]` (the source's `array` field). */
  datatype StartAndArray = StartAndArray(start: nat, buffer: seq<byte>)

  /** `out.start -= 1; out.array[out.start] = b`: one byte written in front
      of the rendered ones, in place. */
  function Push(out: StartAndArray, b: byte): (r: StartAndArray)
    requires 0 < out.start <= |out.buffer|
    ensures r.start == out.start - 1 && |r.buffer| == |out.buffer|
    ensures r.buffer[r.start..] == [b] + out.buffer[out.start..]
  {
    var r := out.(start := out.start - 1);
    r.(buffer := r.buffer[r.start := b])
  }

  lemma PrependTwo(a: byte, b: byte, s: seq<byte>)
    ensures [a] + ([b] + s) == [a, b] + s
  {
  }

  /** The masked pattern has at most 128 binary and 32 hexadecimal digits. */
  lemma PatternDigitBounds(i: Integer)
    requires ValidInteger(i)
    ensures |Digits(Pattern(i), 2)| <= 128 && |Digits(Pattern(i), 16)| <= 32
  {
    var p := Pattern(i);
    PowMonotone(2, i.maskBits, MAX_BITS);
    DigitsLenBound(p, 2, MAX_BITS);
    HexDigitsLen(p);
    BitLenBound(p, MAX_BITS);
  }

  /** A `u128` magnitude has at most 39 decimal digits. */
  lemma MagnitudeDigitBound(i: Integer)
    requires ValidInteger(i)
    ensures |Digits(i.unsigned, 10)| <= 39
  {
    var u := i.unsigned;
    Pow2Values();
    Pow10Values();
    DigitsLenBound(u, 10, 39);
  }

  /** Writing the last digit of `n` in front of `rest` leaves the digits of
      `n / base` still to write, or none when that quotient is zero. */
  lemma DigitStep(n: nat, base: nat, rest: seq<byte>)
    requires ValidBase(base)
    ensures Digits(n, base) + rest
      == (if n / base == 0 then [] else Digits(n / base, base)) + ([DigitByte(n % base)] + rest)
  {
    LastDigit(n, base);
    var front := if n < base then [] else Digits(n / base, base);
    assert (front + [DigitByte(n % base)]) + rest == front + ([DigitByte(n % base)] + rest);
  }

  /** `to_start_array_binary`: the binary digits of the pattern, preceded by
      `"0b"` exactly when alternate, in the last bytes of a 130-byte array. */
  method ToStartArrayBinary(i: Integer, flags: FormattingFlags) returns (out: StartAndArray)
    requires ValidInteger(i)
    ensures |out.buffer| == 130 && out.start <= 130
    ensures out.buffer[out.start..] == BinaryText(Pattern(i), flags.isAlternate)
  {
    var n: nat := Unmasked(i);
    n := AsUnsigned(n, i.maskBits);   // `n &= mask`
    ghost var p := n;
    PatternDigitBounds(i);
    out := StartAndArray(130, seq(130, _ => 0));
    while true
      invariant |out.buffer| == 130 && out.start <= 130
      invariant Digits(p, 2) == Digits(n, 2) + out.buffer[out.start..]
      decreases n
    {
      ghost var rest := out.buffer[out.start..];
      out := Push(out, DigitByte(n % 2));
      DigitStep(n, 2, rest);
      n := n / 2;
      if n == 0 {
        break;
      }
    }
    ghost var digits := out.buffer[out.start..];
    assert digits == Digits(p, 2);
    if flags.isAlternate {
      out := Push(out, 98);   // 'b'
      out := Push(out, 48);   // '0'
      PrependTwo(48, 98, digits);
    }
    assert out.buffer[out.start..] == BinaryText(p, flags.isAlternate);
  }

  /** `to_start_array_hexadecimal`: the upper-case hexadecimal digits of the
      pattern, preceded by `"0x"` exactly when alternate, in the last bytes of
      a 34-byte array. */
  method ToStartArrayHexadecimal(i: Integer, flags: FormattingFlags) returns (out: StartAndArray)
    requires ValidInteger(i)
    ensures |out.buffer| == 34 && out.start <= 34
    ensures out.buffer[out.start..] == HexText(Pattern(i), flags.isAlternate)
  {
    var n: nat := Unmasked(i);
    n := AsUnsigned(n, i.maskBits);   // `n &= mask`
    ghost var p := n;
    PatternDigitBounds(i);
    out := StartAndArray(34, seq(34, _ => 0));
    while true
      invariant |out.buffer| == 34 && out.start <= 34
      invariant Digits(p, 16) == Digits(n, 16) + out.buffer[out.start..]
      decreases n
    {
      ghost var rest := out.buffer[out.start..];
      out := Push(out, DigitByte(n % 16));
      DigitStep(n, 16, rest);
      n := n / 16;
      if n == 0 {
        break;
      }
    }
    ghost var digits := out.buffer[out.start..];
    assert digits == Digits(p, 16);
    if flags.isAlternate {
      out := Push(out, 120);   // 'x'
      out := Push(out, 48);   // '0'
      PrependTwo(48, 120, digits);
    }
    assert out.buffer[out.start..] == HexText(p, flags.isAlternate);
  }

  /** `to_start_array_display`: the decimal digits of the magnitude, preceded
      by `'-'` exactly when negative, in the last bytes of a 40-byte array. The
      mask plays no part. */
  method ToStartArrayDisplay(i: Integer) returns (out: StartAndArray)
    requires ValidInteger(i)
    ensures |out.buffer| == 40 && out.start <= 40
    ensures out.buffer[out.start..] == IntegerDisplayText(i)
  {
    out := StartAndArray(40, seq(40, _ => 0));
    var n: nat := i.unsigned;
    ghost var u := n;
    MagnitudeDigitBound(i);
    while true
      invariant |out.buffer| == 40 && out.start <= 40
      invariant Digits(u, 10) == Digits(n, 10) + out.buffer[out.start..]
      decreases n
    {
      ghost var rest := out.buffer[out.start..];
      out := Push(out, DigitByte(n % 10));
      DigitStep(n, 10, rest);
      n := n / 10;
      if n == 0 {
        break;
      }
    }
    ghost var digits := out.buffer[out.start..];
    assert digits == Digits(u, 10);
    if i.isNegative {
      out := Push(out, MINUS);
    }
    assert out.buffer[out.start..] == (if i.isNegative then [MINUS] else []) + digits;
  }

  /** `to_start_array_debug`: the display rendering, whatever the flags. */
  method ToStartArrayDebug(i: Integer) returns (out: StartAndArray)
    requires ValidInteger(i)
    ensures |out.buffer| == 40 && out.start <= 40
    ensures out.buffer[out.start..] == IntegerDisplayText(i)
  {
    out := ToStartArrayDisplay(i);
  }

  /** The renderings of an erased value are its debug texts in each mode, so
      `compute_debug_len` counts exactly the bytes rendered. */
  lemma RenderingsMatchDebugText(v: int, t: IntType, alternate: bool)
    requires t.Contains(v)
    ensures IntegerDisplayText(IntegerOf(v, t)) == DebugText(v, t, FormattingFlags(Regular, alternate))
    ensures HexText(Pattern(IntegerOf(v, t)), alternate) == DebugText(v, t, FormattingFlags(Hexadecimal, alternate))
    ensures BinaryText(Pattern(IntegerOf(v, t)), alternate) == DebugText(v, t, FormattingFlags(Binary, alternate))
  {
    DisplayOfErased(v, t);
    TwosComplement(v, t);
  }

  /** The hexadecimal and binary renderings are as long as `hexadecimal_len`
      and `binary_len` count. */
  lemma RenderedLengths(v: int, t: IntType, alternate: bool)
    requires t.Contains(v)
    ensures |HexText(Pattern(IntegerOf(v, t)), alternate)| == HexadecimalLen(v, t, FormattingFlags(Hexadecimal, alternate))
    ensures |BinaryText(Pattern(IntegerOf(v, t)), alternate)| == BinaryLen(v, t, FormattingFlags(Binary, alternate))
  {
    TwosComplement(v, t);
  }

  /** 13 renders as `13`, `0xD` and `0b1101`. */
  lemma ThirteenRenderings()
    ensures IntegerDisplayText(IntegerOf(13, U32)) == [49, 51]
    ensures HexText(Pattern(IntegerOf(13, U32)), true) == [48, 120, 68]
    ensures BinaryText(Pattern(IntegerOf(13, U32)), true) == [48, 98, 49, 49, 48, 49]
  {
    var i := IntegerOf(13, U32);
    assert !i.isNegative && i.unsigned == 13;
    PatternOfSmall(13, U32);
    ThirteenDigits();
  }

  lemma ThirteenDigits()
    ensures Digits(13, 10) == [49, 51] && Digits(13, 16) == [68] && Digits(13, 2) == [49, 49, 48, 49]
  {
    assert Digits(1, 10) == [49];
    assert Digits(1, 2) == [49] && Digits(3, 2) == [49, 49] && Digits(6, 2) == [49, 49, 48];
  }

  /** -1 as an `i8` renders as `FF` in hexadecimal: its 8-bit pattern. */
  lemma MinusOneRendering()
    ensures HexText(Pattern(IntegerOf(-1, I8)), false) == [70, 70]
  {
    assert Pattern(IntegerOf(-1, I8)) == 255 by {
      TwosComplement(-1, I8);
      MinusOnePattern();
    }
    HexDigitsOf255();
  }

  lemma HexDigitsOf255()
    ensures Digits(255, 16) == [70, 70]
  {
    assert 255 / 16 == 15 && 255 % 16 == 15;
  }

  lemma MinusOnePattern()
    ensures AsUnsigned(-1, 8) == 255
  {
    Pow2Values();
    AsUnsignedNegative(-1, 8);
  }

  lemma PatternOfSmall(v: nat, t: IntType)
    requires v < 256 && t.Contains(v) && t.Bits() >= 8
    ensures Pattern(IntegerOf(v, t)) == v
  {
    TwosComplement(v, t);
    Pow2Values();
    PowMonotone(2, 8, t.Bits());
  }
}
