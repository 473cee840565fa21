/** The debug dispatch of `call_debug_fmt!` (`call_debug_fmt.rs`) for
    arrays and slices, `Option`, single-field tuple structs and values with
    their own `const_debug_fmt`. The formatter and its list and tuple
    builders are seen only through the calls the macro makes on them: a
    `DebugFormatter` keeps the calls in order, and whether a fallible call
    (`finish`, `write_str` or a value's `const_debug_fmt`) succeeds is
    decided by a fixed function of the calls made before it. Each arm is
    proved to make the calls of its script (`ArrayScript`, `OptionScript`,
    …) one by one, returning the first error as it is (`Run`). */
module CallDebugFmt {
  import opened Wrappers
  import opened Fmt

  /** A call on the formatter or on one of its builders. */
  datatype Call<T> =
    | DebugList                // `formatter.debug_list()`
    | Entry                    // `list.entry()`
    | DebugTuple(name: string) // `formatter.debug_tuple(name)`
    | Field                    // `tuple.field()`
    | Finish                   // `list.finish()` or `tuple.finish()`
    | WriteStr(text: string)   // `formatter.write_str(text)`
    | CoercedFmt(value: T)     // `coerce_to_fmt!(&value).const_debug_fmt(..)`
    | OwnFmt(value: T)         // `value.const_debug_fmt(..)`

  /** The calls that return a `Result`. */
  predicate Fallible<T>(c: Call<T>) {
    c.Finish? || c.WriteStr? || c.CoercedFmt? || c.OwnFmt?
  }

  /** A formatter seen through the calls made on it; `outcome` says what a
      fallible call returns after the given calls. */
  class DebugFormatter<T> {
    var calls: seq<Call<T>>
    const outcome: (seq<Call<T>>, Call<T>) -> FmtResult

    constructor(outcome: (seq<Call<T>>, Call<T>) -> FmtResult)
      ensures calls == [] && this.outcome == outcome
    {
      calls := [];
      this.outcome := outcome;
    }

    /** A call that cannot fail: it is recorded. */
    method Do(c: Call<T>)
      requires !Fallible(c)
      modifies this
      ensures calls == old(calls) + [c]
    {
      calls := calls + [c];
    }

    /** A call that can fail: it is recorded and returns its outcome. */
    method Try(c: Call<T>) returns (r: FmtResult)
      requires Fallible(c)
      modifies this
      ensures calls == old(calls) + [c]
      ensures r == outcome(old(calls), c)
    {
      r := outcome(calls, c);
      calls := calls + [c];
    }
  }

  /** The calls made and the result when `script` is made after `h`,
      returning at the first fallible call that fails. */
  function Run<T>(outcome: (seq<Call<T>>, Call<T>) -> FmtResult, h: seq<Call<T>>, script: seq<Call<T>>): (seq<Call<T>>, FmtResult)
    decreases |script|
  {
    if script == [] then (h, Ok)
    else
      var c := script[0];
      if Fallible(c) && outcome(h, c).Err? then (h + [c], outcome(h, c))
      else Run(outcome, h + [c], script[1..])
  }

  /** Making `a` and then `b` is making `a + b`, as far as the first error. */
  lemma {:induction false} RunAppend<T>(outcome: (seq<Call<T>>, Call<T>) -> FmtResult, h: seq<Call<T>>, a: seq<Call<T>>, b: seq<Call<T>>)
    ensures Run(outcome, h, a + b) ==
      (var (h', r) := Run(outcome, h, a); if r == Ok then Run(outcome, h', b) else (h', r))
    decreases |a|
  {
    if a == [] {
      assert a + b == b;
    } else {
      assert (a + b)[0] == a[0] && (a + b)[1..] == a[1..] + b;
      RunAppend(outcome, h + [a[0]], a[1..], b);
    }
  }

  /** Every fallible call among the first `n` of `script`, made after `h`
      and the calls before it, succeeds. */
  predicate FallibleOk<T>(outcome: (seq<Call<T>>, Call<T>) -> FmtResult, h: seq<Call<T>>, script: seq<Call<T>>, n: nat)
    requires n <= |script|
  {
    forall k | 0 <= k < n && Fallible(script[k]) :: outcome(h + script[..k], script[k]) == Ok
  }

  /** A script completes, making every call and returning `Ok`, exactly when
      every fallible call in it succeeds. */
  lemma {:induction false} RunSucceeds<T>(outcome: (seq<Call<T>>, Call<T>) -> FmtResult, h: seq<Call<T>>, script: seq<Call<T>>)
    ensures Run(outcome, h, script).1 == Ok <==> FallibleOk(outcome, h, script, |script|)
    ensures Run(outcome, h, script).1 == Ok ==> Run(outcome, h, script).0 == h + script
    decreases |script|
  {
    if script != [] {
      var c, rest := script[0], script[1..];
      FallibleOkStep(outcome, h, script, |rest|);
      if !(Fallible(c) && outcome(h, c).Err?) {
        RunSucceeds(outcome, h + [c], rest);
        assert h + [c] + rest == h + script;
      }
    }
  }

  /** A script that fails stops right after the first fallible call that
      fails, making no call after it and returning that call's error
      unchanged. */
  lemma {:induction false} RunFails<T>(outcome: (seq<Call<T>>, Call<T>) -> FmtResult, h: seq<Call<T>>, script: seq<Call<T>>)
    requires Run(outcome, h, script).1 != Ok
    ensures exists k | 0 <= k < |script| :: FailsAt(outcome, h, script, k, Run(outcome, h, script))
    decreases |script|
  {
    var c, rest := script[0], script[1..];
    if Fallible(c) && outcome(h, c).Err? {
      assert script[..1] == [c] && h + script[..0] == h;
      assert FallibleOk(outcome, h, script, 0);
      assert FailsAt(outcome, h, script, 0, Run(outcome, h, script));
    } else {
      RunFails(outcome, h + [c], rest);
      var k :| 0 <= k < |rest| && FailsAt(outcome, h + [c], rest, k, Run(outcome, h + [c], rest));
      FallibleOkStep(outcome, h, script, k);
      PrefixShift(h, script, k);
      assert FailsAt(outcome, h, script, k + 1, Run(outcome, h, script));
    }
  }

  /** Call `k` of `script` is the first to fail, and the run ends with it. */
  ghost predicate FailsAt<T>(outcome: (seq<Call<T>>, Call<T>) -> FmtResult, h: seq<Call<T>>, script: seq<Call<T>>, k: nat, run: (seq<Call<T>>, FmtResult))
    requires k < |script|
  {
    && run.0 == h + script[..k + 1]
    && Fallible(script[k])
    && run.1 == outcome(h + script[..k], script[k])
    && FallibleOk(outcome, h, script, k)
  }

  /** Taking the first call of `script` into the history shifts prefixes of
      the rest by one. */
  lemma PrefixShift<T>(h: seq<Call<T>>, script: seq<Call<T>>, k: nat)
    requires k < |script| - 1
    ensures h + [script[0]] + script[1..][..k] == h + script[..k + 1]
    ensures h + [script[0]] + script[1..][..k + 1] == h + script[..k + 2]
    ensures script[1..][k] == script[k + 1]
  {
    assert script[..k + 1] == [script[0]] + script[1..][..k];
    assert script[..k + 2] == [script[0]] + script[1..][..k + 1];
  }

  /** The first `n + 1` calls of a script succeed exactly when its first call
      does (or cannot fail) and the first `n` of the rest succeed after it. */
  lemma FallibleOkStep<T>(outcome: (seq<Call<T>>, Call<T>) -> FmtResult, h: seq<Call<T>>, script: seq<Call<T>>, n: nat)
    requires n < |script|
    ensures FallibleOk(outcome, h, script, n + 1) <==>
      && (Fallible(script[0]) ==> outcome(h, script[0]) == Ok)
      && FallibleOk(outcome, h + [script[0]], script[1..], n)
  {
    var c, rest := script[0], script[1..];
    assert h + script[..0] == h;
    forall k | 0 <= k < n
      ensures h + [c] + rest[..k] == h + script[..k + 1] && rest[k] == script[k + 1]
    {
      assert script[..k + 1] == [c] + rest[..k];
    }
    if FallibleOk(outcome, h, script, n + 1) {
      forall k | 0 <= k < n && Fallible(rest[k])
        ensures outcome(h + [c] + rest[..k], rest[k]) == Ok
      {
        assert outcome(h + script[..k + 1], script[k + 1]) == Ok;
      }
    }
    if (Fallible(c) ==> outcome(h, c) == Ok) && FallibleOk(outcome, h + [c], rest, n) {
      forall k | 0 <= k < n + 1 && Fallible(script[k])
        ensures outcome(h + script[..k], script[k]) == Ok
      {
        if k > 0 {
          assert outcome(h + [c] + rest[..k - 1], rest[k - 1]) == Ok;
        }
      }
    }
  }

  /** `entry()` and the dispatch of each element, in order. */
  function Entries<T>(xs: seq<T>): (s: seq<Call<T>>)
    ensures |s| == 2 * |xs|
  {
    if xs == [] then [] else [Entry, CoercedFmt(xs[0])] + Entries(xs[1..])
  }

  /** The elements appear in order, one `entry()` before each, and no list is
      finished among them. */
  lemma {:induction false} EntriesShape<T>(xs: seq<T>)
    ensures forall i | 0 <= i < |xs| :: Entries(xs)[2 * i] == Entry && Entries(xs)[2 * i + 1] == CoercedFmt(xs[i])
    ensures Finish !in Entries(xs)
  {
    forall i | 0 <= i < |xs|
      ensures Entries(xs)[2 * i] == Entry && Entries(xs)[2 * i + 1] == CoercedFmt(xs[i])
    {
      EntriesAt(xs, i);
    }
    NoFinish(xs);
  }

  /** No list is finished among the entries. */
  lemma {:induction false} NoFinish<T>(xs: seq<T>)
    ensures Finish !in Entries(xs)
  {
    if xs != [] {
      NoFinish(xs[1..]);
    }
  }

  /** The `array` arm: `debug_list()`, each element's entry, `finish()`. */
  function ArrayScript<T>(xs: seq<T>): seq<Call<T>> {
    [DebugList] + Entries(xs) + [Finish]
  }

  /** `call_debug_fmt!(array, ..)`: formats the elements from index 0 on,
      each as an entry of a debug list, returning the first error, and then
      finishes the list. */
  method ArrayDebugFmt<T>(xs: seq<T>, f: DebugFormatter<T>) returns (r: FmtResult)
    modifies f
    ensures (f.calls, r) == Run(f.outcome, old(f.calls), ArrayScript(xs))
  {
    var n := 0;
    var len := |xs|;
    f.Do(DebugList);
    assert ArrayScript(xs) == [DebugList] + (Entries(xs[n..]) + [Finish]);
    while n != len
      invariant 0 <= n <= len
      invariant Run(f.outcome, old(f.calls), ArrayScript(xs)) == Run(f.outcome, f.calls, Entries(xs[n..]) + [Finish])
      decreases len - n
    {
      assert xs[n..][1..] == xs[n + 1..];
      assert Entries(xs[n..]) + [Finish] == [Entry, CoercedFmt(xs[n])] + (Entries(xs[n + 1..]) + [Finish]);
      f.Do(Entry);
      var e := f.Try(CoercedFmt(xs[n]));
      if e.Err? {
        return e;
      }
      n := n + 1;
    }
    r := f.Try(Finish);
  }

  /** `call_debug_fmt!(slice, ..)`: the `array` arm. */
  method SliceDebugFmt<T>(xs: seq<T>, f: DebugFormatter<T>) returns (r: FmtResult)
    modifies f
    ensures (f.calls, r) == Run(f.outcome, old(f.calls), ArrayScript(xs))
  {
    r := ArrayDebugFmt(xs, f);
  }

  /** `Entries` of a concatenation. */
  lemma {:induction false} EntriesConcat<T>(a: seq<T>, b: seq<T>)
    ensures Entries(a + b) == Entries(a) + Entries(b)
    decreases |a|
  {
    if a == [] {
      assert a + b == b;
    } else {
      assert (a + b)[0] == a[0] && (a + b)[1..] == a[1..] + b;
      EntriesConcat(a[1..], b);
    }
  }

  /** The entries of `xs` split around element `i`. */
  lemma {:induction false} EntriesAt<T>(xs: seq<T>, i: nat)
    requires i < |xs|
    ensures Entries(xs) == Entries(xs[..i]) + [Entry, CoercedFmt(xs[i])] + Entries(xs[i + 1..])
  {
    var front, back := xs[..i], xs[i..];
    assert front + back == xs;
    EntriesConcat(front, back);
    assert back[0] == xs[i] && back[1..] == xs[i + 1..];
  }

  /** When every call succeeds the array arm makes `debug_list()`, then
      `entry()` and the element for every index in order, then `finish()`. */
  lemma {:induction false} ArrayCompletes<T>(outcome: (seq<Call<T>>, Call<T>) -> FmtResult, h: seq<Call<T>>, xs: seq<T>)
    requires Run(outcome, h, ArrayScript(xs)).1 == Ok
    ensures var calls := Run(outcome, h, ArrayScript(xs)).0;
      && |calls| == |h| + 2 * |xs| + 2
      && calls[..|h|] == h
      && calls[|h|] == DebugList && calls[|calls| - 1] == Finish
      && forall i | 0 <= i < |xs| :: calls[|h| + 2 * i + 1] == Entry && calls[|h| + 2 * i + 2] == CoercedFmt(xs[i])
  {
    var script := ArrayScript(xs);
    RunSucceeds(outcome, h, script);
    EntriesShape(xs);
    var calls := Run(outcome, h, script).0;
    forall i | 0 <= i < |xs|
      ensures calls[|h| + 2 * i + 1] == Entry && calls[|h| + 2 * i + 2] == CoercedFmt(xs[i])
    {
      assert calls[|h| + 2 * i + 1] == Entries(xs)[2 * i];
      assert calls[|h| + 2 * i + 2] == Entries(xs)[2 * i + 1];
    }
  }

  /** The array arm's run ended with element `i`, whose formatting failed:
      the calls up to and including it were made, none after it, and its
      error is returned. */
  ghost predicate StopsAtElement<T>(outcome: (seq<Call<T>>, Call<T>) -> FmtResult, h: seq<Call<T>>, xs: seq<T>, i: nat, run: (seq<Call<T>>, FmtResult))
    requires i < |xs|
  {
    var before := h + [DebugList] + Entries(xs[..i]) + [Entry];
    run == (before + [CoercedFmt(xs[i])], outcome(before, CoercedFmt(xs[i])))
  }

  /** When the array arm fails, either formatting some element `i` failed,
      and the arm returns that error right after it, without formatting
      later elements or calling `finish()`; or every element was formatted
      and `finish()` failed. */
  lemma {:induction false} ArrayStops<T>(outcome: (seq<Call<T>>, Call<T>) -> FmtResult, h: seq<Call<T>>, xs: seq<T>)
    requires Run(outcome, h, ArrayScript(xs)).1 != Ok
    ensures var run := Run(outcome, h, ArrayScript(xs));
      || run == (h + ArrayScript(xs), outcome(h + [DebugList] + Entries(xs), Finish))
      || exists i | 0 <= i < |xs| :: StopsAtElement(outcome, h, xs, i, run)
  {
    var script := ArrayScript(xs);
    var run := Run(outcome, h, script);
    RunFails(outcome, h, script);
    var k :| 0 <= k < |script| && FailsAt(outcome, h, script, k, run);
    ArrayFailsAt(outcome, h, xs, k, run);
  }

  /** `ArrayStops` for a run whose call `k` is the first to fail. */
  lemma ArrayFailsAt<T>(outcome: (seq<Call<T>>, Call<T>) -> FmtResult, h: seq<Call<T>>, xs: seq<T>, k: nat, run: (seq<Call<T>>, FmtResult))
    requires k < |ArrayScript(xs)| && FailsAt(outcome, h, ArrayScript(xs), k, run)
    ensures || run == (h + ArrayScript(xs), outcome(h + [DebugList] + Entries(xs), Finish))
            || exists i | 0 <= i < |xs| :: StopsAtElement(outcome, h, xs, i, run)
  {
    var script := ArrayScript(xs);
    assert script[0] == DebugList;
    if k == |script| - 1 {
      assert script[..k + 1] == script && script[k] == Finish;
      assert script[..k] == [DebugList] + Entries(xs);
      assert h + script[..k] == h + [DebugList] + Entries(xs);
    } else {
      assert script[k] == Entries(xs)[k - 1];
      EntriesFallible(xs, k - 1);
      var i := (k - 1) / 2;
      assert k == 2 * i + 2;
      ArrayScriptPrefix(xs, i);
      var p := Entries(xs[..i]);
      var before := h + [DebugList] + p + [Entry];
      assert h + ([DebugList] + p + [Entry]) == before;
      assert h + ([DebugList] + p + [Entry, CoercedFmt(xs[i])]) == before + [CoercedFmt(xs[i])];
      assert StopsAtElement(outcome, h, xs, i, run);
    }
  }

  /** The array arm's calls up to the entry of element `i`, and up to the
      element itself. */
  lemma ArrayScriptPrefix<T>(xs: seq<T>, i: nat)
    requires i < |xs|
    ensures ArrayScript(xs)[..2 * i + 2] == [DebugList] + Entries(xs[..i]) + [Entry]
    ensures ArrayScript(xs)[..2 * i + 3] == [DebugList] + Entries(xs[..i]) + [Entry, CoercedFmt(xs[i])]
  {
    var e, p := Entries(xs), Entries(xs[..i]);
    EntriesAt(xs, i);
    assert e[..2 * i + 1] == p + [Entry];
    assert e[..2 * i + 2] == p + [Entry, CoercedFmt(xs[i])];
    assert ArrayScript(xs)[..2 * i + 2] == [DebugList] + e[..2 * i + 1];
    assert ArrayScript(xs)[..2 * i + 3] == [DebugList] + e[..2 * i + 2];
  }

  /** The only calls among the entries that can fail are the elements'. */
  lemma EntriesFallible<T>(xs: seq<T>, j: nat)
    requires j < |Entries(xs)| && Fallible(Entries(xs)[j])
    ensures j % 2 == 1 && Entries(xs)[j] == CoercedFmt(xs[j / 2])
  {
    EntriesShape(xs);
    assert Entries(xs)[2 * (j / 2)] == Entry;
  }

  /** A debug tuple with one field: `debug_tuple(name)`, `field()`, the
      field's value, `finish()`. */
  function TupleScript<T>(name: string, x: T): seq<Call<T>> {
    [DebugTuple(name), Field, CoercedFmt(x), Finish]
  }

  /** A one-field debug tuple fails exactly when formatting the field or
      finishing fails, returning that error; `finish()` is reached only when
      the field was formatted. */
  lemma {:induction false} TupleOutcome<T>(outcome: (seq<Call<T>>, Call<T>) -> FmtResult, h: seq<Call<T>>, name: string, x: T)
    ensures var started := h + [DebugTuple(name), Field];
      Run(outcome, h, TupleScript(name, x)) ==
        if outcome(started, CoercedFmt(x)).Err? then (started + [CoercedFmt(x)], outcome(started, CoercedFmt(x)))
        else (started + [CoercedFmt(x), Finish], outcome(started + [CoercedFmt(x)], Finish))
  {
    var script := TupleScript(name, x);
    var started := h + [DebugTuple(name), Field];
    var fin: seq<Call<T>> := [Finish];
    assert script[1..] == [Field, CoercedFmt(x), Finish];
    assert script[1..][1..] == [CoercedFmt(x)] + fin;
    assert (h + [DebugTuple(name)]) + [Field] == started;
    assert Run(outcome, h, script) == Run(outcome, started, [CoercedFmt(x)] + fin);
    RunAppend(outcome, started, [CoercedFmt(x)], fin);
    SingleCall(outcome, started, CoercedFmt(x));
    SingleCall(outcome, started + [CoercedFmt(x)], Finish);
    assert started + [CoercedFmt(x)] + [Finish] == started + [CoercedFmt(x), Finish];
  }

  /** The `Option` arm: `None` writes `"None"`; `Some(x)` formats `x` as the
      one field of a debug tuple named `"Some"`. */
  function OptionScript<T>(o: Option<T>): seq<Call<T>> {
    match o
    case None => [WriteStr("None")]
    case Some(x) => TupleScript("Some", x)
  }

  /** `call_debug_fmt!(Option, ..)`. */
  method OptionDebugFmt<T>(o: Option<T>, f: DebugFormatter<T>) returns (r: FmtResult)
    modifies f
    ensures (f.calls, r) == Run(f.outcome, old(f.calls), OptionScript(o))
  {
    match o {
      case Some(x) =>
        TupleOutcome(f.outcome, f.calls, "Some", x);
        f.Do(DebugTuple("Some"));
        f.Do(Field);
        ghost var started := f.calls;
        assert started == old(f.calls) + [DebugTuple("Some"), Field];
        r := f.Try(CoercedFmt(x));
        if r.Err? {
          return;
        }
        r := f.Try(Finish);
        assert f.calls == started + [CoercedFmt(x), Finish];
      case None =>
        SingleCall(f.outcome, f.calls, WriteStr("None"));
        r := f.Try(WriteStr("None"));
    }
  }

  /** A tuple struct with one field, `struct Name(T)`. */
  datatype Newtype<T> = Newtype(field0: T)

  /** `call_debug_fmt!(newtype Name, ..)`: a debug tuple named after the
      type, with field `.0` as its only field. */
  method NewtypeDebugFmt<T>(name: string, v: Newtype<T>, f: DebugFormatter<T>) returns (r: FmtResult)
    modifies f
    ensures (f.calls, r) == Run(f.outcome, old(f.calls), TupleScript(name, v.field0))
  {
    TupleOutcome(f.outcome, f.calls, name, v.field0);
    f.Do(DebugTuple(name));
    f.Do(Field);
    ghost var started := f.calls;
    assert started == old(f.calls) + [DebugTuple(name), Field];
    r := f.Try(CoercedFmt(v.field0));
    if r.Err? {
      return;
    }
    r := f.Try(Finish);
    assert f.calls == started + [CoercedFmt(v.field0), Finish];
  }

  /** `call_debug_fmt!(std, ..)`, which is also `__call_debug_fmt_dispatch!`:
      the coerced value's `const_debug_fmt`, its error returned as it is. */
  method StdDebugFmt<T>(x: T, f: DebugFormatter<T>) returns (r: FmtResult)
    modifies f
    ensures (f.calls, r) == Run(f.outcome, old(f.calls), [CoercedFmt(x)])
  {
    SingleCall(f.outcome, f.calls, CoercedFmt(x));
    r := f.Try(CoercedFmt(x));
  }

  /** `call_debug_fmt!(other, ..)`: the value's own `const_debug_fmt`, its
      error returned as it is. */
  method OtherDebugFmt<T>(x: T, f: DebugFormatter<T>) returns (r: FmtResult)
    modifies f
    ensures (f.calls, r) == Run(f.outcome, old(f.calls), [OwnFmt(x)])
  {
    SingleCall(f.outcome, f.calls, OwnFmt(x));
    r := f.Try(OwnFmt(x));
  }

  /** A one-call script returns that call's outcome, error included, and
      records the call either way. */
  lemma SingleCall<T>(outcome: (seq<Call<T>>, Call<T>) -> FmtResult, h: seq<Call<T>>, c: Call<T>)
    requires Fallible(c)
    ensures Run(outcome, h, [c]) == (h + [c], outcome(h, c))
  {
    assert [c][1..] == [];
  }

  /** A formatter with room for everything: every fallible call succeeds. */
  function AlwaysOk<T>(h: seq<Call<T>>, c: Call<T>): FmtResult {
    Ok
  }

  /** The array `[a, b]` with a formatter where every call succeeds:
      `debug_list()`, two entries and `finish()`. */
  lemma ArrayExample<T>(a: T, b: T)
    ensures Run(AlwaysOk, [], ArrayScript([a, b]))
      == ([DebugList, Entry, CoercedFmt(a), Entry, CoercedFmt(b), Finish], Ok)
  {
    var script := ArrayScript([a, b]);
    assert [a, b][1..] == [b] && [b][1..] == [];
    assert Entries([b]) == [Entry, CoercedFmt(b)];
    assert script == [DebugList, Entry, CoercedFmt(a), Entry, CoercedFmt(b), Finish];
    assert FallibleOk(AlwaysOk, [], script, |script|);
    RunSucceeds(AlwaysOk, [], script);
    assert [] + script == script;
  }
}
