/** Debug formatting of the six `usize` range types (`ranges.rs`). Each type
    has a length pass, which adds the debug lengths of its bounds and the
    length of its separator (`".."` or `"..="`) to a `FormattingLength`, and
    a write pass, which writes the same pieces in the same order to a
    `Formatter`, returning at the first error. `RangeAgreement` and its
    siblings prove that a successful write appends exactly the counted
    bytes. */
module Ranges {
  import opened Numeric
  import opened IntTypes
  import opened Fmt

  /** `usize` with the 64-bit word. */
  newtype usize = x: int | 0 <= x < 0x1_0000_0000_0000_0000

  lemma UsizeFits(x: usize)
    ensures Usize.Contains(x as int)
  {
    Pow2Values();
    assert Usize.Max() == Pow(2, 64) - 1;
  }

  /** The separators: `".."` for the half-open and full ranges, `"..="` for
      the inclusive ones. */
  const RANGE: seq<byte> := [46, 46]
  const RANGE_INCLUSIVE: seq<byte> := [46, 46, 61]

  datatype Range = Range(start: usize, end: usize)
  datatype RangeFrom = RangeFrom(start: usize)
  datatype RangeTo = RangeTo(end: usize)
  datatype RangeToInclusive = RangeToInclusive(end: usize)
  datatype RangeInclusive = RangeInclusive(start: usize, end: usize)
  datatype RangeFull = RangeFull

  /** The debug text of one bound under the given flags. */
  function Bound(x: usize, flags: FormattingFlags): seq<byte> {
    UsizeFits(x);
    DebugText(x as int, Usize, flags)
  }

  /** `coerce`: copies both bounds as they are; a backwards range such as
      `5..3` is neither rejected nor reordered. */
  function CoerceRange(r: Range): (c: Range)
    ensures c.start == r.start && c.end == r.end
  {
    Range(r.start, r.end)
  }

  function CoerceRangeFrom(r: RangeFrom): (c: RangeFrom)
    ensures c.start == r.start
  {
    RangeFrom(r.start)
  }

  function CoerceRangeTo(r: RangeTo): (c: RangeTo)
    ensures c.end == r.end
  {
    RangeTo(r.end)
  }

  function CoerceRangeToInclusive(r: RangeToInclusive): (c: RangeToInclusive)
    ensures c.end == r.end
  {
    RangeToInclusive(r.end)
  }

  /** Rebuilt with `RangeInclusive::new(*start(), *end())`. */
  function CoerceRangeInclusive(r: RangeInclusive): (c: RangeInclusive)
    ensures c.start == r.start && c.end == r.end
  {
    RangeInclusive(r.start, r.end)
  }

  /** `Range`: `start`, `".."`, `end`. */
  method RangeDebugLen(r: Range, f: FormattingLength)
    modifies f
    ensures f.len == old(f.len) + |Bound(r.start, f.flags)| + 2 + |Bound(r.end, f.flags)|
  {
    UsizeFits(r.start);
    UsizeFits(r.end);
    UsizeDebugLen(r.start as nat, f);
    f.AddLen(|RANGE|);
    UsizeDebugLen(r.end as nat, f);
  }

  method RangeDebugFmt(r: Range, f: Formatter) returns (res: FmtResult)
    modifies f
    ensures (f.written, res) == WriteAll(old(f.written), f.capacity, [Bound(r.start, f.flags), RANGE, Bound(r.end, f.flags)])
  {
    UsizeFits(r.start);
    UsizeFits(r.end);
    WriteThree(old(f.written), f.capacity, Bound(r.start, f.flags), RANGE, Bound(r.end, f.flags));
    res := UsizeDebugFmt(r.start as nat, f);
    if res.Err? {
      return;
    }
    res := StrDisplayFmt(RANGE, f);
    if res.Err? {
      return;
    }
    res := UsizeDebugFmt(r.end as nat, f);
  }

  /** `RangeFrom`: `start`, `".."`. */
  method RangeFromDebugLen(r: RangeFrom, f: FormattingLength)
    modifies f
    ensures f.len == old(f.len) + |Bound(r.start, f.flags)| + 2
  {
    UsizeFits(r.start);
    UsizeDebugLen(r.start as nat, f);
    f.AddLen(|RANGE|);
  }

  method RangeFromDebugFmt(r: RangeFrom, f: Formatter) returns (res: FmtResult)
    modifies f
    ensures (f.written, res) == WriteAll(old(f.written), f.capacity, [Bound(r.start, f.flags), RANGE])
  {
    UsizeFits(r.start);
    WriteTwo(old(f.written), f.capacity, Bound(r.start, f.flags), RANGE);
    res := UsizeDebugFmt(r.start as nat, f);
    if res.Err? {
      return;
    }
    res := StrDisplayFmt(RANGE, f);
  }

  /** `RangeTo`: `".."`, `end`. */
  method RangeToDebugLen(r: RangeTo, f: FormattingLength)
    modifies f
    ensures f.len == old(f.len) + 2 + |Bound(r.end, f.flags)|
  {
    UsizeFits(r.end);
    f.AddLen(|RANGE|);
    UsizeDebugLen(r.end as nat, f);
  }

  method RangeToDebugFmt(r: RangeTo, f: Formatter) returns (res: FmtResult)
    modifies f
    ensures (f.written, res) == WriteAll(old(f.written), f.capacity, [RANGE, Bound(r.end, f.flags)])
  {
    UsizeFits(r.end);
    WriteTwo(old(f.written), f.capacity, RANGE, Bound(r.end, f.flags));
    res := StrDisplayFmt(RANGE, f);
    if res.Err? {
      return;
    }
    res := UsizeDebugFmt(r.end as nat, f);
  }

  /** `RangeToInclusive`: `"..="`, `end`. */
  method RangeToInclusiveDebugLen(r: RangeToInclusive, f: FormattingLength)
    modifies f
    ensures f.len == old(f.len) + 3 + |Bound(r.end, f.flags)|
  {
    UsizeFits(r.end);
    f.AddLen(|RANGE_INCLUSIVE|);
    UsizeDebugLen(r.end as nat, f);
  }

  method RangeToInclusiveDebugFmt(r: RangeToInclusive, f: Formatter) returns (res: FmtResult)
    modifies f
    ensures (f.written, res) == WriteAll(old(f.written), f.capacity, [RANGE_INCLUSIVE, Bound(r.end, f.flags)])
  {
    UsizeFits(r.end);
    WriteTwo(old(f.written), f.capacity, RANGE_INCLUSIVE, Bound(r.end, f.flags));
    res := StrDisplayFmt(RANGE_INCLUSIVE, f);
    if res.Err? {
      return;
    }
    res := UsizeDebugFmt(r.end as nat, f);
  }

  /** `RangeInclusive`: `start`, `"..="`, `end`. */
  method RangeInclusiveDebugLen(r: RangeInclusive, f: FormattingLength)
    modifies f
    ensures f.len == old(f.len) + |Bound(r.start, f.flags)| + 3 + |Bound(r.end, f.flags)|
  {
    UsizeFits(r.start);
    UsizeFits(r.end);
    UsizeDebugLen(r.start as nat, f);
    f.AddLen(|RANGE_INCLUSIVE|);
    UsizeDebugLen(r.end as nat, f);
  }

  method RangeInclusiveDebugFmt(r: RangeInclusive, f: Formatter) returns (res: FmtResult)
    modifies f
    ensures (f.written, res) == WriteAll(old(f.written), f.capacity, [Bound(r.start, f.flags), RANGE_INCLUSIVE, Bound(r.end, f.flags)])
  {
    UsizeFits(r.start);
    UsizeFits(r.end);
    WriteThree(old(f.written), f.capacity, Bound(r.start, f.flags), RANGE_INCLUSIVE, Bound(r.end, f.flags));
    res := UsizeDebugFmt(r.start as nat, f);
    if res.Err? {
      return;
    }
    res := StrDisplayFmt(RANGE_INCLUSIVE, f);
    if res.Err? {
      return;
    }
    res := UsizeDebugFmt(r.end as nat, f);
  }

  /** `RangeFull`: always exactly `".."`. */
  method RangeFullDebugLen(r: RangeFull, f: FormattingLength)
    modifies f
    ensures f.len == old(f.len) + 2
  {
    f.AddLen(|RANGE|);
  }

  method RangeFullDebugFmt(r: RangeFull, f: Formatter) returns (res: FmtResult)
    modifies f
    ensures (f.written, res) == WriteAll(old(f.written), f.capacity, [RANGE])
  {
    res := StrDisplayFmt(RANGE, f);
  }

  /** Writing two pieces is writing the first and, if that succeeded, the second. */
  lemma WriteTwo(w: seq<byte>, capacity: nat, a: seq<byte>, b: seq<byte>)
    ensures WriteAll(w, capacity, [a, b]) ==
      (var (w', r) := WriteAll(w, capacity, [a]); if r == Ok then WriteAll(w', capacity, [b]) else (w', r))
  {
    WriteAllAppend(w, capacity, [a], [b]);
    assert [a] + [b] == [a, b];
  }

  /** Writing three pieces is writing them one at a time, up to the first failure. */
  lemma WriteThree(w: seq<byte>, capacity: nat, a: seq<byte>, b: seq<byte>, c: seq<byte>)
    ensures WriteAll(w, capacity, [a, b, c]) ==
      (var (w1, r1) := WriteAll(w, capacity, [a]);
       if r1 != Ok then (w1, r1) else
       var (w2, r2) := WriteAll(w1, capacity, [b]);
       if r2 != Ok then (w2, r2) else WriteAll(w2, capacity, [c]))
  {
    WriteAllAppend(w, capacity, [a], [b, c]);
    assert [a] + [b, c] == [a, b, c];
    var (w1, r1) := WriteAll(w, capacity, [a]);
    if r1 == Ok {
      WriteTwo(w1, capacity, b, c);
    }
  }

  /** Length and write agree for a three-piece range (`Range`,
      `RangeInclusive`): the write succeeds exactly when the counted length
      fits, and then appends exactly that many bytes. */
  lemma RangeAgreement(w: seq<byte>, capacity: nat, start: seq<byte>, sep: seq<byte>, end: seq<byte>)
    requires |w| <= capacity
    ensures var (w', r) := WriteAll(w, capacity, [start, sep, end]);
      && (r == Ok <==> |w| + |start| + |sep| + |end| <= capacity)
      && (r == Ok ==> w' == w + start + sep + end)
  {
    WriteAllSpec(w, capacity, [start, sep, end]);
    assert Concat([start, sep, end]) == start + sep + end by {
      assert [start, sep, end][1..] == [sep, end];
      assert [sep, end][1..] == [end];
      assert [end][1..] == [];
      assert Concat([end]) == end + Concat([]) == end;
      assert Concat([sep, end]) == sep + end;
    }
  }

  /** Length and write agree for a two-piece range (`RangeFrom`, `RangeTo`,
      `RangeToInclusive`). */
  lemma HalfRangeAgreement(w: seq<byte>, capacity: nat, first: seq<byte>, second: seq<byte>)
    requires |w| <= capacity
    ensures var (w', r) := WriteAll(w, capacity, [first, second]);
      && (r == Ok <==> |w| + |first| + |second| <= capacity)
      && (r == Ok ==> w' == w + first + second)
  {
    WriteAllSpec(w, capacity, [first, second]);
    assert Concat([first, second]) == first + second by {
      assert [first, second][1..] == [second];
      assert [second][1..] == [];
      assert Concat([second]) == second + Concat([]) == second;
    }
  }

  /** `RangeFull` writes `".."` whenever two bytes fit. */
  lemma FullRangeAgreement(w: seq<byte>, capacity: nat)
    requires |w| <= capacity
    ensures var (w', r) := WriteAll(w, capacity, [RANGE]);
      && (r == Ok <==> |w| + 2 <= capacity)
      && (r == Ok ==> w' == w + [46, 46])
  {
  }

  /** `55..89` with the default flags renders as `55..89` into an empty
      256-byte buffer. */
  lemma RangeExample()
    ensures WriteAll([], 256, [Bound(55, NEW_FLAGS), RANGE, Bound(89, NEW_FLAGS)]) == ([53, 53, 46, 46, 56, 57], Ok)
  {
    var start, end := Bound(55, NEW_FLAGS), Bound(89, NEW_FLAGS);
    assert start == [53, 53];
    assert end == [56, 57];
    RangeAgreement([], 256, start, RANGE, end);
    assert [] + start + RANGE + end == [53, 53, 46, 46, 56, 57];
  }
}
