/** The length pass for strings (`pwrapper.rs`): the debug length of a UTF-8
    byte string, quotes and escapes included, and the display length of a
    `&str`. Which bytes are escaped, and how, comes from an escape table of
    two 128-bit masks indexed by the byte value. */
module StrLen {
  import opened Numeric
  import opened IntTypes

  /** The escape table: bit `c` of `isEscaped` says byte `c` is escaped in
      debug output; bit `c` of `isBackslashEscaped` says the escape is a
      two-byte backslash escape (`\n`) rather than a four-byte numeric one
      (`\x01`). Only bytes below 128 are looked up. */
  datatype EscapeTable = EscapeTable(isEscaped: nat, isBackslashEscaped: nat)

  /** `mask & (1 << c) != 0`. */
  predicate HasBit(mask: nat, c: nat) {
    (mask / Pow(2, c)) % 2 == 1
  }

  /** A byte below 128 that is escaped, and not with a backslash. */
  predicate NumericEscaped(c: byte, t: EscapeTable) {
    c < 128 && HasBit(t.isEscaped, c as nat) && !HasBit(t.isBackslashEscaped, c as nat)
  }

  /** A byte below 128 that is escaped with a backslash. */
  predicate BackslashEscaped(c: byte, t: EscapeTable) {
    c < 128 && HasBit(t.isEscaped, c as nat) && HasBit(t.isBackslashEscaped, c as nat)
  }

  /** The number of bytes of `s` rendered as a numeric escape. */
  function NumericEscapes(s: seq<byte>, t: EscapeTable): (r: nat)
    ensures r <= |s|
  {
    if s == [] then 0
    else NumericEscapes(s[..|s| - 1], t) + (if NumericEscaped(s[|s| - 1], t) then 1 else 0)
  }

  /** The number of bytes of `s` rendered as a backslash escape. */
  function BackslashEscapes(s: seq<byte>, t: EscapeTable): (r: nat)
    ensures r <= |s|
  {
    if s == [] then 0
    else BackslashEscapes(s[..|s| - 1], t) + (if BackslashEscaped(s[|s| - 1], t) then 1 else 0)
  }

  /** The debug length of `s`: every byte once, two quotes, three more bytes
      per numeric escape and one more per backslash escape. */
  function Utf8DebugLen(s: seq<byte>, t: EscapeTable): nat {
    |s| + 2 + 3 * NumericEscapes(s, t) + BackslashEscapes(s, t)
  }

  /** `compute_utf8_debug_len`: starts from the byte length, adds 3 for each
      byte below 128 whose `is_escaped` bit is set and `is_backslash_escaped`
      bit is clear, 1 when both are set, then 2 for the quotes. */
  method ComputeUtf8DebugLen(s: seq<byte>, t: EscapeTable) returns (sum: nat)
    ensures sum == Utf8DebugLen(s, t)
  {
    sum := |s|;
    for i := 0 to |s|
      invariant sum == |s| + 3 * NumericEscapes(s[..i], t) + BackslashEscapes(s[..i], t)
    {
      assert s[..i + 1][..i] == s[..i];
      var c := s[i];
      if c < 128 {
        if HasBit(t.isEscaped, c as nat) {
          sum := sum + if !HasBit(t.isBackslashEscaped, c as nat) then 3 else 1;
        }
      }
    }
    assert s[..|s|] == s;
    sum := sum + 2;
  }

  /** `&str`'s `compute_debug_len`: the debug length of its UTF-8 bytes,
      whatever the flags; at least the display length plus the quotes. */
  method StrComputeDebugLen(s: seq<byte>, t: EscapeTable, flags: FormattingFlags) returns (len: nat)
    ensures len == Utf8DebugLen(s, t)
    ensures len >= StrComputeDisplayLen(s, flags) + 2
  {
    len := ComputeUtf8DebugLen(s, t);
  }

  /** `&str`'s `compute_display_len`: the byte length, whatever the flags. */
  function StrComputeDisplayLen(s: seq<byte>, flags: FormattingFlags): (r: nat)
    ensures r == |s|
  {
    |s|
  }

  /** Each byte adds at most three bytes of escape; with no escaped byte the
      debug length is exactly the byte length plus the quotes. */
  lemma {:induction false} EscapeCountBound(s: seq<byte>, t: EscapeTable)
    ensures NumericEscapes(s, t) + BackslashEscapes(s, t) <= |s|
    ensures NumericEscapes(s, t) + BackslashEscapes(s, t) == 0
      <==> forall i | 0 <= i < |s| :: !NumericEscaped(s[i], t) && !BackslashEscaped(s[i], t)
  {
    if s != [] {
      var front := s[..|s| - 1];
      EscapeCountBound(front, t);
      assert forall i | 0 <= i < |front| :: front[i] == s[i];
    }
  }

  /** The debug length lies between the byte length plus 2 and four times the
      byte length plus 2, and is the lower bound exactly when no byte below
      128 is escaped; bytes of 128 and above never add anything. */
  lemma DebugLenBounds(s: seq<byte>, t: EscapeTable)
    ensures |s| + 2 <= Utf8DebugLen(s, t) <= 4 * |s| + 2
    ensures Utf8DebugLen(s, t) == |s| + 2
      <==> forall i | 0 <= i < |s| :: !(s[i] < 128 && HasBit(t.isEscaped, s[i] as nat))
  {
    EscapeCountBound(s, t);
    if Utf8DebugLen(s, t) == |s| + 2 {
      forall i | 0 <= i < |s|
        ensures !(s[i] < 128 && HasBit(t.isEscaped, s[i] as nat))
      {
        assert !NumericEscaped(s[i], t) && !BackslashEscaped(s[i], t);
      }
    }
  }

  /** The counts add up over a concatenation, so the debug length of `a + b`
      is that of `a` and `b` less one pair of quotes. */
  lemma {:induction false} DebugLenConcat(a: seq<byte>, b: seq<byte>, t: EscapeTable)
    ensures Utf8DebugLen(a + b, t) + 2 == Utf8DebugLen(a, t) + Utf8DebugLen(b, t)
    decreases |b|
  {
    if b == [] {
      assert a + b == a;
    } else {
      var b' := b[..|b| - 1];
      DebugLenConcat(a, b', t);
      assert (a + b)[..|a + b| - 1] == a + b';
    }
  }

  /** `"foo\nbar\tbaz\x00"` (12 bytes) has debug length 19
      (`"foo\\nbar\\tbaz\\x00"` with its quotes) under any table that escapes
      `\n` and `\t` with a backslash, escapes NUL numerically, and leaves the
      letters alone. */
  lemma DebugLenExample(t: EscapeTable)
    requires BackslashEscaped(10, t) && BackslashEscaped(9, t)   // '\n', '\t'
    requires NumericEscaped(0, t)   // NUL
    requires forall c: byte | c in [102, 111, 98, 97, 114, 122] ::   // f o b a r z
      !NumericEscaped(c, t) && !BackslashEscaped(c, t)
    ensures Utf8DebugLen([102, 111, 111, 10, 98, 97, 114, 9, 98, 97, 122, 0], t) == 19
  {
    var foo: seq<byte> := [102, 111, 111];
    var bar: seq<byte> := [98, 97, 114];
    var baz: seq<byte> := [98, 97, 122];
    ExamplePieces(t);
    var s1: seq<byte> := [102, 111, 111, 10];
    var s2: seq<byte> := [102, 111, 111, 10, 98, 97, 114];
    var s3: seq<byte> := [102, 111, 111, 10, 98, 97, 114, 9];
    var s4: seq<byte> := [102, 111, 111, 10, 98, 97, 114, 9, 98, 97, 122];
    var s5: seq<byte> := [102, 111, 111, 10, 98, 97, 114, 9, 98, 97, 122, 0];
    assert s1 == foo + [10];
    assert s2 == s1 + bar;
    assert s3 == s2 + [9];
    assert s4 == s3 + baz;
    assert s5 == s4 + [0];
    DebugLenConcat(foo, [10], t);
    DebugLenConcat(s1, bar, t);
    DebugLenConcat(s2, [9], t);
    DebugLenConcat(s3, baz, t);
    DebugLenConcat(s4, [0], t);
  }

  /** The pieces of that example: each word adds only its quotes, `\n` and
      `\t` take two bytes and NUL four. */
  lemma ExamplePieces(t: EscapeTable)
    requires BackslashEscaped(10, t) && BackslashEscaped(9, t)
    requires NumericEscaped(0, t)
    requires forall c: byte | c in [102, 111, 98, 97, 114, 122] ::
      !NumericEscaped(c, t) && !BackslashEscaped(c, t)
    ensures Utf8DebugLen([102, 111, 111], t) == 5 && Utf8DebugLen([98, 97, 114], t) == 5
    ensures Utf8DebugLen([98, 97, 122], t) == 5
    ensures Utf8DebugLen([10], t) == 4 && Utf8DebugLen([9], t) == 4 && Utf8DebugLen([0], t) == 6
  {
    Unescaped([102, 111, 111], t);
    Unescaped([98, 97, 114], t);
    Unescaped([98, 97, 122], t);
    SingleByte(10, t);
    SingleByte(9, t);
    SingleByte(0, t);
  }

  /** A string of unescaped bytes adds only its quotes. */
  lemma Unescaped(s: seq<byte>, t: EscapeTable)
    requires forall i | 0 <= i < |s| :: !NumericEscaped(s[i], t) && !BackslashEscaped(s[i], t)
    ensures Utf8DebugLen(s, t) == |s| + 2
  {
    EscapeCountBound(s, t);
  }

  /** A single byte renders as itself, an escape of two or of four bytes,
      between quotes. */
  lemma SingleByte(c: byte, t: EscapeTable)
    ensures Utf8DebugLen([c], t) == 3 + (if NumericEscaped(c, t) then 3 else 0) + (if BackslashEscaped(c, t) then 1 else 0)
  {
    assert [c][..0] == [];
  }
}
