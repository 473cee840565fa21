/** The primitive integer types, the formatting flags, and the text that the
    standard library renders for an integer in each formatting mode. The
    length computations and the digit renderers of `pwrapper.rs` are both
    specified against these texts. */
module IntTypes {
  import opened Numeric

  /** The bit widths of the primitive integer types. */
  type Width = w: nat | w == 8 || w == 16 || w == 32 || w == 64 || w == 128 witness 8

  /** The pointer width this model fixes for `usize` and `isize`. */
  const WORD_BITS: Width := 64

  /** The widest integer width (`u128`, `i128`), the width the type-erased
      magnitude and `as_negative` work in. */
  const MAX_BITS: Width := 128

  datatype IntType = I8 | I16 | I32 | I64 | I128 | Isize | U8 | U16 | U32 | U64 | U128 | Usize
  {
    predicate IsSigned() {
      this == I8 || this == I16 || this == I32 || this == I64 || this == I128 || this == Isize
    }

    predicate IsWordSized() {
      this == Isize || this == Usize
    }

    /** The fixed-width counterpart a word-sized type delegates to (`UWord`, `IWord`). */
    function Word(): (t: IntType)
      ensures !t.IsWordSized() && t.IsSigned() == IsSigned()
      ensures t.Bits() == Bits()
    {
      match this
      case Isize => I64
      case Usize => U64
      case _ => this
    }

    function Bits(): Width {
      match this
      case I8 => 8
      case U8 => 8
      case I16 => 16
      case U16 => 16
      case I32 => 32
      case U32 => 32
      case I64 => 64
      case U64 => 64
      case I128 => 128
      case U128 => 128
      case Isize => WORD_BITS
      case Usize => WORD_BITS
    }

    function Min(): int {
      if IsSigned() then -(Pow(2, Bits() - 1) as int) else 0
    }

    function Max(): int {
      if IsSigned() then Pow(2, Bits() - 1) - 1 else Pow(2, Bits()) - 1
    }

    predicate Contains(v: int) {
      Min() <= v <= Max()
    }
  }

  lemma {:induction false} HalfWidth(w: Width)
    ensures Pow(2, w) == 2 * Pow(2, w - 1)
  {
  }

  lemma ContainsBounds(v: int, t: IntType)
    requires t.Contains(v)
    ensures -(Pow(2, t.Bits()) as int) < v < Pow(2, t.Bits())
    ensures v >= 0 ==> v < Pow(2, t.Bits())
    ensures v < 0 ==> t.IsSigned() && -v <= Pow(2, t.Bits() - 1)
  {
    HalfWidth(t.Bits());
  }

  datatype FormattingMode = Regular | Hexadecimal | Binary

  /** The mode and the `#` flag; the two are independent. */
  datatype FormattingFlags = FormattingFlags(mode: FormattingMode, isAlternate: bool)

  /** `FormattingFlags::NEW`: regular mode, not alternate. */
  const NEW_FLAGS := FormattingFlags(Regular, false)

  const MINUS: byte := 45   // '-'
  const HEX_PREFIX: seq<byte> := [48, 120]   // "0x"
  const BINARY_PREFIX: seq<byte> := [48, 98]   // "0b"

  function Abs(v: int): nat {
    if v < 0 then -v else v
  }

  /** The `as` cast of an integer to an unsigned type of width `bits`:
      the value modulo `2^bits`, i.e. its two's-complement bit pattern. */
  function AsUnsigned(x: int, bits: nat): (r: nat)
    ensures r < Pow(2, bits)
    ensures 0 <= x < Pow(2, bits) ==> r == x
  {
    x % Pow(2, bits)
  }

  lemma ModMultiple(x: int, q: int, m: nat)
    requires m > 0
    ensures (x - q * m) % m == x % m
  {
    var a := x - q * m;
    assert a == (x / m - q) * m + x % m;
    ModUnique(a, m, x / m - q, x % m);
  }

  lemma ModAddMultiple(x: int, q: int, m: nat)
    requires m > 0
    ensures (m * q + x) % m == x % m
  {
    var a := m * q + x;
    assert a == (x / m + q) * m + x % m;
    ModUnique(a, m, x / m + q, x % m);
  }

  /** A negative value's bit pattern is the value plus `2^bits`. */
  lemma AsUnsignedNegative(x: int, bits: nat)
    requires -(Pow(2, bits) as int) <= x < 0
    ensures AsUnsigned(x, bits) == x + Pow(2, bits)
  {
    ModUnique(x, Pow(2, bits), -1, x + Pow(2, bits));
  }

  lemma IntDivMod(a: int, m: nat)
    requires m > 0
    ensures a == (a / m) * m + a % m && 0 <= a % m < m
  {
  }

  lemma ModUnique(a: int, m: nat, q: int, r: int)
    requires m > 0 && a == q * m + r && 0 <= r < m
    ensures a % m == r && a / m == q
  {
    var q', r' := a / m, a % m;
    if q' < q {
      QuotientGap(q', q, m, r', r);
    } else if q < q' {
      QuotientGap(q, q', m, r, r');
    }
  }

  lemma QuotientGap(q1: int, q2: int, m: nat, r1: int, r2: int)
    requires q1 < q2 && r1 < m && 0 <= r2
    ensures q1 * m + r1 < q2 * m + r2
  {
    var d: nat := q2 - q1;
    MulLe(1, d, m);
    assert q2 == q1 + d;
    assert q2 * m == q1 * m + d * m;
  }

  /** The `as` cast into a signed type of width `bits`: wrap-around into
      `[-2^(bits-1), 2^(bits-1))`, keeping the bit pattern. */
  function AsSigned(x: int, bits: Width): (r: int)
    ensures -(Pow(2, bits - 1) as int) <= r < Pow(2, bits - 1)
    ensures AsUnsigned(r, bits) == AsUnsigned(x, bits)
    ensures -(Pow(2, bits - 1) as int) <= x < Pow(2, bits - 1) ==> r == x
  {
    AsSignedPattern(x, bits);
    AsUnsigned(x + Pow(2, bits - 1), bits) - Pow(2, bits - 1)
  }

  lemma AsSignedPattern(x: int, bits: Width)
    ensures var r := AsUnsigned(x + Pow(2, bits - 1), bits) - Pow(2, bits - 1);
      AsUnsigned(r, bits) == AsUnsigned(x, bits)
      && (-(Pow(2, bits - 1) as int) <= x < Pow(2, bits - 1) ==> r == x)
  {
    HalfWidth(bits);
    var h, m := Pow(2, bits - 1), Pow(2, bits);
    var q := (x + h) / m;
    var r := AsUnsigned(x + h, bits) - h;
    IntDivMod(x + h, m);
    assert r == x - q * m;
    ModMultiple(x, q, m);
  }

  /** Decimal text: a `'-'` exactly when negative, then the digits of the magnitude. */
  function DisplayText(v: int): seq<byte> {
    (if v < 0 then [MINUS] else []) + Digits(Abs(v), 10)
  }

  /** Upper-case hexadecimal text of a bit pattern, with `"0x"` when alternate. */
  function HexText(pattern: nat, alternate: bool): seq<byte> {
    (if alternate then HEX_PREFIX else []) + Digits(pattern, 16)
  }

  /** Binary text of a bit pattern, with `"0b"` when alternate. */
  function BinaryText(pattern: nat, alternate: bool): seq<byte> {
    (if alternate then BINARY_PREFIX else []) + Digits(pattern, 2)
  }

  /** The debug text of a value of type `t`: hexadecimal and binary render the
      two's-complement pattern of the declared width, never a sign. */
  function DebugText(v: int, t: IntType, flags: FormattingFlags): seq<byte> {
    match flags.mode
    case Regular => DisplayText(v)
    case Hexadecimal => HexText(AsUnsigned(v, t.Bits()), flags.isAlternate)
    case Binary => BinaryText(AsUnsigned(v, t.Bits()), flags.isAlternate)
  }
}
