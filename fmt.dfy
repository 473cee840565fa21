/** The two passes of the formatting engine, seen from the code that drives
    them: a length accumulator (`FormattingLength`) that the length pass adds
    to, and an append-only writer (`Formatter`) over a buffer of fixed
    capacity that the write pass appends to and that fails, writing nothing,
    when a piece does not fit. `WriteAll` specifies a sequence of writes each
    guarded by `try_!`: it stops at the first failure. The `usize` length and
    write of `pwrapper.rs` are the integer parts both passes use. */
module Fmt {
  import opened Numeric
  import opened IntTypes
  import opened IntLen
  import opened IntRender

  /** `fmt::Error`: the only failure of the writer is running out of space. */
  datatype FmtError = NotEnoughSpace

  datatype FmtResult = Ok | Err(error: FmtError)

  /** `FormattingLength`: the number of bytes the length pass has counted,
      and the flags it counts them with. */
  class FormattingLength {
    var len: nat
    const flags: FormattingFlags

    constructor(flags: FormattingFlags)
      ensures len == 0 && this.flags == flags
    {
      len := 0;
      this.flags := flags;
    }

    /** `add_len`. */
    method AddLen(n: nat)
      modifies this
      ensures len == old(len) + n
    {
      len := len + n;
    }
  }

  /** `Formatter`: the bytes written so far into a buffer of `capacity`
      bytes, and the flags the write pass uses. */
  class Formatter {
    var written: seq<byte>
    const capacity: nat
    const flags: FormattingFlags

    constructor(capacity: nat, flags: FormattingFlags)
      ensures written == [] && this.capacity == capacity && this.flags == flags
    {
      written := [];
      this.capacity := capacity;
      this.flags := flags;
    }

    /** Appends `bytes` when they fit, and otherwise fails and writes nothing. */
    method WriteBytes(bytes: seq<byte>) returns (r: FmtResult)
      modifies this
      ensures (written, r) == WriteAll(old(written), capacity, [bytes])
    {
      if |written| + |bytes| > capacity {
        r := Err(NotEnoughSpace);
      } else {
        written := written + bytes;
        r := Ok;
      }
    }
  }

  /** The pieces concatenated in order. */
  function Concat(parts: seq<seq<byte>>): seq<byte> {
    if parts == [] then [] else parts[0] + Concat(parts[1..])
  }

  /** The writer's bytes and result after writing `parts` one by one into a
      buffer of `capacity` bytes holding `w`, returning at the first piece
      that does not fit. */
  function WriteAll(w: seq<byte>, capacity: nat, parts: seq<seq<byte>>): (seq<byte>, FmtResult)
    decreases |parts|
  {
    if parts == [] then (w, Ok)
    else if |w| + |parts[0]| > capacity then (w, Err(NotEnoughSpace))
    else WriteAll(w + parts[0], capacity, parts[1..])
  }

  /** Writing the pieces succeeds exactly when all of them fit together, and
      then appends their concatenation; a failure leaves the bytes of the
      pieces before the first one that did not fit, still within capacity. */
  lemma {:induction false} WriteAllSpec(w: seq<byte>, capacity: nat, parts: seq<seq<byte>>)
    requires |w| <= capacity
    ensures WriteAll(w, capacity, parts).1 == Ok <==> |w| + |Concat(parts)| <= capacity
    ensures WriteAll(w, capacity, parts).1 == Ok ==> WriteAll(w, capacity, parts).0 == w + Concat(parts)
    ensures WriteAll(w, capacity, parts).1 != Ok ==>
      exists k | 0 <= k < |parts| ::
        && WriteAll(w, capacity, parts).0 == w + Concat(parts[..k])
        && |w + Concat(parts[..k])| + |parts[k]| > capacity
    ensures |WriteAll(w, capacity, parts).0| <= capacity
    decreases |parts|
  {
    if parts != [] {
      if |w| + |parts[0]| > capacity {
        assert parts[..0] == [];
      } else {
        var rest := parts[1..];
        WriteAllSpec(w + parts[0], capacity, rest);
        assert w + parts[0] + Concat(rest) == w + Concat(parts);
        if WriteAll(w, capacity, parts).1 != Ok {
          var k :| 0 <= k < |rest| && WriteAll(w + parts[0], capacity, rest).0 == w + parts[0] + Concat(rest[..k])
            && |w + parts[0] + Concat(rest[..k])| + |rest[k]| > capacity;
          assert parts[..k + 1] == [parts[0]] + rest[..k];
          assert parts[..k + 1][1..] == rest[..k];
          assert w + parts[0] + Concat(rest[..k]) == w + Concat(parts[..k + 1]);
        }
      }
    }
  }

  /** Writing `a` and then `b` is writing `a + b`, as far as the first
      failure. */
  lemma {:induction false} WriteAllAppend(w: seq<byte>, capacity: nat, a: seq<seq<byte>>, b: seq<seq<byte>>)
    ensures WriteAll(w, capacity, a + b) ==
      (var (w', r) := WriteAll(w, capacity, a); if r == Ok then WriteAll(w', capacity, b) else (w', r))
    decreases |a|
  {
    if a == [] {
      assert a + b == b;
    } else {
      assert (a + b)[0] == a[0] && (a + b)[1..] == a[1..] + b;
      if |w| + |a[0]| <= capacity {
        WriteAllAppend(w + a[0], capacity, a[1..], b);
      }
    }
  }

  /** `const_debug_len` of a `usize` (`impl_for_xsize!`): adds the debug
      length for the accumulator's flags. */
  method UsizeDebugLen(v: nat, f: FormattingLength)
    requires Usize.Contains(v)
    modifies f
    ensures f.len == old(f.len) + |DebugText(v, Usize, f.flags)|
  {
    var len := ComputeDebugLen(v, Usize, f.flags);
    f.AddLen(len);
  }

  /** `const_debug_fmt` of a `usize`: the rendering of its mode (decimal,
      hexadecimal or binary, with the alternate prefix) written in one piece. */
  method UsizeDebugFmt(v: nat, f: Formatter) returns (r: FmtResult)
    requires Usize.Contains(v)
    modifies f
    ensures (f.written, r) == WriteAll(old(f.written), f.capacity, [DebugText(v, Usize, f.flags)])
  {
    var i := IntegerOf(v, Usize);
    RenderingsMatchDebugText(v, Usize, f.flags.isAlternate);
    var out: StartAndArray;
    match f.flags.mode {
      case Regular =>
        out := ToStartArrayDebug(i);
      case Hexadecimal =>
        out := ToStartArrayHexadecimal(i, f.flags);
      case Binary =>
        out := ToStartArrayBinary(i, f.flags);
    }
    r := f.WriteBytes(out.buffer[out.start..]);
  }

  /** `const_display_fmt` of a `&str`: its bytes, in one piece. */
  method StrDisplayFmt(s: seq<byte>, f: Formatter) returns (r: FmtResult)
    modifies f
    ensures (f.written, r) == WriteAll(old(f.written), f.capacity, [s])
  {
    r := f.WriteBytes(s);
  }
}
