/** Argument naming and placeholder resolution of the formatting macros
    (`FormatArgs::parse_with`, `parsing.rs`). The token parsing is outside
    the model: its output is the list of arguments, each an optional name
    and an opaque expression, and the list of format-string components.
    The three passes of the source are three methods:
    - `NameArgs` gives every argument its local variable and checks that
      named arguments come last;
    - `ResolveComponents` maps each placeholder to an argument, keeping the
      counter of implicit `{}` placeholders, the unused flags and the errors;
    - `ReportUnused` adds one error per argument nobody referenced.
    `Parse` is the declarative reference they are proved against: it gives
    each placeholder its slot (`Target`) without any running counter. */
module FormatArgs {
  import opened Numeric
  import opened Wrappers

  /** One argument as parsed: `name = expr` or just `expr`. */
  datatype UncheckedFormatArg<E> = UncheckedFormatArg(ident: Option<string>, expr: E)

  /** An argument bound to the local variable that holds its value. */
  datatype FormatArg<E> = FormatArg(localVariable: string, expr: E)

  /** What a placeholder refers to: `{name}`, `{3}` or `{}`. */
  datatype WhichArg = Ident(name: string) | Positional(index: Option<nat>)

  /** A piece of the format string: literal text, or a placeholder with its
      formatting options. */
  datatype FmtStrComponent<F> = Str(text: string) | Arg(whichArg: WhichArg, formatting: F)

  /** What each component expands into: the literal text with the rawness of
      the format string literal, or the local variable to format. */
  datatype ExpandInto<R, F> = StrPiece(text: string, rawness: R) | Formatted(localVariable: string, format: F)

  datatype FormatArgsOut<E, R, F> = FormatArgsOut(args: seq<FormatArg<E>>, expandedInto: seq<ExpandInto<R, F>>)

  /** The errors `parse_with` reports (their spans and wording are not
      modelled). */
  datatype ParseError =
    | PositionalAfterNamed(index: nat)
    | NonexistentPositional(position: nat)
    | UnusedArg(index: nat, ident: Option<string>)

  datatype Result<T> = Success(value: T) | Failure(errors: seq<ParseError>)

  /** The identifier given to a placeholder whose positional argument does not
      exist; the parse then fails, so it never reaches a result. */
  const DUMMY_IDENT: string := "__dummy_ident"

  predicate IsNamed<E>(a: UncheckedFormatArg<E>) {
    a.ident.Some?
  }

  /** Every named argument is followed only by named arguments. */
  predicate WellOrdered<E>(args: seq<UncheckedFormatArg<E>>) {
    forall i, j | 0 <= i < j < |args| :: IsNamed(args[i]) ==> IsNamed(args[j])
  }

  /** A positional argument right after a named one. */
  predicate MisplacedAt<E>(args: seq<UncheckedFormatArg<E>>, i: nat)
    requires 0 < i < |args|
  {
    IsNamed(args[i - 1]) && !IsNamed(args[i])
  }

  /** The first positional argument that follows a named one, or `|args|`. */
  function Misplaced<E>(args: seq<UncheckedFormatArg<E>>): (r: nat)
    ensures r <= |args|
    ensures r < |args| ==> 0 < r && MisplacedAt(args, r)
    ensures forall i | 0 < i < r && i < |args| :: !MisplacedAt(args, i)
  {
    if |args| < 2 then |args|
    else if IsNamed(args[0]) && !IsNamed(args[1]) then 1
    else
      var tail := args[1..];
      var r := 1 + Misplaced(tail);
      assert forall i | 1 < i < |args| :: MisplacedAt(args, i) == MisplacedAt(tail, i - 1);
      r
  }

  /** The arguments are well ordered exactly when no positional argument
      directly follows a named one. */
  lemma WellOrderedIffNoneMisplaced<E>(args: seq<UncheckedFormatArg<E>>)
    ensures WellOrdered(args) <==> Misplaced(args) == |args|
  {
    if Misplaced(args) == |args| {
      forall i, j | 0 <= i < j < |args| && IsNamed(args[i])
        ensures IsNamed(args[j])
      {
        NamedPropagates(args, i, j);
      }
    }
  }

  lemma {:induction false} NamedPropagates<E>(args: seq<UncheckedFormatArg<E>>, i: nat, j: nat)
    requires i <= j < |args| && IsNamed(args[i])
    requires forall k | 0 < k < |args| :: !MisplacedAt(args, k)
    ensures IsNamed(args[j])
    decreases j - i
  {
    if i < j {
      assert !MisplacedAt(args, i + 1);
      NamedPropagates(args, i + 1, j);
    }
  }

  /** The index of the first named argument, or `|args|` when there is none. */
  function FirstNamed<E>(args: seq<UncheckedFormatArg<E>>): (r: nat)
    ensures r <= |args|
    ensures forall j | 0 <= j < r :: !IsNamed(args[j])
    ensures r < |args| ==> IsNamed(args[r])
  {
    if args == [] then 0
    else if IsNamed(args[0]) then 0
    else 1 + FirstNamed(args[1..])
  }

  /** Any index with only positional arguments before it and a named one at
      it (or the end of the list) is `FirstNamed`. */
  lemma FirstNamedUnique<E>(args: seq<UncheckedFormatArg<E>>, f: nat)
    requires f <= |args|
    requires forall j | 0 <= j < |args| :: IsNamed(args[j]) <==> f <= j
    ensures f == FirstNamed(args)
  {
    var r := FirstNamed(args);
    if r < |args| {
      assert IsNamed(args[r]);
    }
    if f < |args| {
      assert IsNamed(args[f]);
    }
  }

  /** The names of the named arguments, in order. */
  function NamesOf<E>(args: seq<UncheckedFormatArg<E>>): seq<string> {
    if args == [] then []
    else
      var n := |args| - 1;
      NamesOf(args[..n]) + (match args[n].ident case Some(name) => [name] case None => [])
  }

  /** In a well-ordered list the named arguments are exactly those from
      `FirstNamed` on, and name `k` of `NamesOf` is that of argument
      `FirstNamed + k`. */
  lemma NamedSuffix<E>(args: seq<UncheckedFormatArg<E>>)
    requires WellOrdered(args)
    ensures forall j | 0 <= j < |args| :: IsNamed(args[j]) <==> FirstNamed(args) <= j
    ensures |NamesOf(args)| == |args| - FirstNamed(args)
    ensures forall k | 0 <= k < |NamesOf(args)| :: args[FirstNamed(args) + k].ident == Some(NamesOf(args)[k])
  {
    var f := FirstNamed(args);
    forall j | 0 <= j < |args|
      ensures IsNamed(args[j]) <==> f <= j
    {
      if f < j {
        assert IsNamed(args[f]);
      }
    }
    NamesFrom(args, f);
  }

  /** When the named arguments are those from `f` on, `NamesOf` lists their
      names in order. */
  lemma {:induction false} NamesFrom<E>(args: seq<UncheckedFormatArg<E>>, f: nat)
    requires f <= |args|
    requires forall j | 0 <= j < |args| :: IsNamed(args[j]) <==> f <= j
    ensures |NamesOf(args)| == |args| - f
    ensures forall k | 0 <= k < |NamesOf(args)| :: args[f + k].ident == Some(NamesOf(args)[k])
  {
    if args != [] {
      var n := |args| - 1;
      var front := args[..n];
      var names := NamesOf(front);
      assert forall j | 0 <= j < n :: front[j] == args[j];
      if f <= n {
        NamesFrom(front, f);
        assert IsNamed(args[n]);
        var name := args[n].ident.value;
        assert NamesOf(args) == names + [name];
        forall k | 0 <= k < |names| + 1
          ensures args[f + k].ident == Some((names + [name])[k])
        {
          if k < |names| {
            assert args[f + k] == front[f + k];
          }
        }
      } else {
        NamesFrom(front, n);
        assert !IsNamed(args[n]);
        assert NamesOf(args) == names;
      }
    }
  }

  /** The decimal text of an argument index. */
  function IndexText(i: nat): (s: string)
    ensures |s| == |Digits(i, 10)|
  {
    var d := Digits(i, 10);
    seq(|d|, k requires 0 <= k < |d| => (d[k] as int) as char)
  }

  /** The local variable of argument `i`: the prefix and its name when it is
      named, the prefix and its index when it is positional. */
  function LocalName<E>(prefix: string, a: UncheckedFormatArg<E>, i: nat): string {
    prefix + (match a.ident case Some(n) => n case None => IndexText(i))
  }

  /** The arguments in input order, each bound to its local variable. */
  function Named<E>(args: seq<UncheckedFormatArg<E>>, prefix: string): (fargs: seq<FormatArg<E>>)
    ensures |fargs| == |args|
    ensures forall i | 0 <= i < |args| :: fargs[i].expr == args[i].expr
  {
    seq(|args|, i requires 0 <= i < |args| => FormatArg(LocalName(prefix, args[i], i), args[i].expr))
  }

  datatype Naming<E> = Naming(firstNamedArg: nat, namedArgNames: seq<string>, args: seq<FormatArg<E>>)

  /** The naming loop (`parsing.rs` lines 94-130): gives each argument its
      local variable, records the names of the named arguments and where
      they start, and stops at the first positional argument that follows a
      named one. */
  method NameArgs<E>(args: seq<UncheckedFormatArg<E>>, prefix: string) returns (r: Result<Naming<E>>)
    ensures r.Success? <==> WellOrdered(args)
    ensures r.Failure? ==> r.errors == [PositionalAfterNamed(Misplaced(args))]
    ensures r.Success? ==> r.value == Naming(FirstNamed(args), NamesOf(args), Named(args, prefix))
  {
    var firstNamedArg: nat := |args|;
    var namedArgNames: seq<string> := [];
    var fargs: seq<FormatArg<E>> := [];
    var prevIsNamedArg := false;
    for i := 0 to |args|
      invariant prevIsNamedArg == (i > 0 && IsNamed(args[i - 1]))
      invariant firstNamedArg < i || firstNamedArg == |args|
      invariant forall j | 0 <= j < i :: IsNamed(args[j]) <==> firstNamedArg <= j
      invariant namedArgNames == NamesOf(args[..i])
      invariant fargs == Named(args[..i], prefix)
    {
      NamingStep(args, i, prefix);
      ghost var firstBefore := firstNamedArg;
      var arg := args[i];
      var isNamedArg := arg.ident.Some?;
      var varName;
      if firstNamedArg < i {
        assert IsNamed(args[i - 1]);
      }
      match arg.ident {
        case Some(ident) =>
          if !prevIsNamedArg {
            firstNamedArg := i;
          }
          varName := prefix + ident;
          assert varName == LocalName(prefix, arg, i);
          namedArgNames := namedArgNames + [ident];
        case None =>
          if prevIsNamedArg {
            FirstMisplaced(args, i, firstNamedArg);
            return Failure([PositionalAfterNamed(i)]);
          }
          varName := prefix + IndexText(i);
          assert varName == LocalName(prefix, arg, i);
      }
      FirstNamedStep(args, i, firstBefore, firstNamedArg);
      fargs := fargs + [FormatArg(varName, arg.expr)];
      prevIsNamedArg := isNamedArg;
    }
    assert args[..|args|] == args;
    FirstNamedUnique(args, firstNamedArg);
    r := Success(Naming(firstNamedArg, namedArgNames, fargs));
  }

  /** A positional argument right after a named one, with the arguments
      before it well ordered, is the first misplaced one. */
  lemma FirstMisplaced<E>(args: seq<UncheckedFormatArg<E>>, i: nat, f: nat)
    requires 0 < i < |args| && IsNamed(args[i - 1]) && !IsNamed(args[i])
    requires forall j | 0 <= j < i :: IsNamed(args[j]) <==> f <= j
    ensures Misplaced(args) == i && !WellOrdered(args)
  {
    assert MisplacedAt(args, i);
    forall k | 0 < k < i
      ensures !MisplacedAt(args, k)
    {
      assert IsNamed(args[k - 1]) ==> IsNamed(args[k]);
    }
    WellOrderedIffNoneMisplaced(args);
  }

  /** The first named argument stays where it was, or is the new argument
      when that is named and the previous one is not. */
  lemma FirstNamedStep<E>(args: seq<UncheckedFormatArg<E>>, i: nat, f: nat, f': nat)
    requires i < |args|
    requires f < i || f == |args|
    requires forall j | 0 <= j < i :: IsNamed(args[j]) <==> f <= j
    requires !IsNamed(args[i]) ==> i == 0 || !IsNamed(args[i - 1])
    requires f' == if IsNamed(args[i]) && (i == 0 || !IsNamed(args[i - 1])) then i else f
    ensures f' < i + 1 || f' == |args|
    ensures forall j | 0 <= j < i + 1 :: IsNamed(args[j]) <==> f' <= j
  {
    if 0 < i && IsNamed(args[i - 1]) {
      assert f <= i - 1;
    }
  }

  /** One more argument adds its local variable and, when it is named, its
      name. */
  lemma NamingStep<E>(args: seq<UncheckedFormatArg<E>>, i: nat, prefix: string)
    requires i < |args|
    ensures Named(args[..i + 1], prefix) == Named(args[..i], prefix) + [FormatArg(LocalName(prefix, args[i], i), args[i].expr)]
    ensures NamesOf(args[..i + 1]) == NamesOf(args[..i]) + (match args[i].ident case Some(name) => [name] case None => [])
  {
    assert args[..i + 1][..i] == args[..i];
  }

  /** Placeholders `{}` that take the next position from the counter. */
  predicate IsImplicit<F>(c: FmtStrComponent<F>) {
    c.Arg? && c.whichArg == Positional(None)
  }

  /** The number of implicit placeholders among `cs`. */
  function ImplicitCount<F>(cs: seq<FmtStrComponent<F>>): (n: nat)
    ensures n <= |cs|
  {
    if cs == [] then 0
    else ImplicitCount(cs[..|cs| - 1]) + (if IsImplicit(cs[|cs| - 1]) then 1 else 0)
  }

  /** The position a positional placeholder refers to: its explicit index,
      or the number of implicit placeholders before it. */
  function Position<F>(cs: seq<FmtStrComponent<F>>, k: nat): nat
    requires k < |cs| && cs[k].Arg? && cs[k].whichArg.Positional?
  {
    match cs[k].whichArg.index
    case Some(p) => p
    case None => ImplicitCount(cs[..k])
  }

  /** The first index of `name` in `names`, or `|names|`. */
  function IndexOf(names: seq<string>, name: string): (r: nat)
    ensures r <= |names|
    ensures r < |names| <==> name in names
    ensures r < |names| ==> names[r] == name
    ensures forall j | 0 <= j < r :: names[j] != name
  {
    if names == [] then 0
    else if names[0] == name then 0
    else 1 + IndexOf(names[1..], name)
  }

  /** Where a placeholder's value comes from. */
  datatype Slot = ArgSlot(index: nat) | Constant(name: string) | Missing(position: nat)

  /** The slot of placeholder `k`: a named placeholder takes the first named
      argument of that name, or else a constant of that name in scope; a
      positional one takes the positional argument at its position, or is
      missing. */
  function Target<F>(cs: seq<FmtStrComponent<F>>, k: nat, names: seq<string>, first: nat): (s: Slot)
    requires k < |cs| && cs[k].Arg?
    ensures s.ArgSlot? ==> s.index < first + |names|
    ensures s.ArgSlot? && cs[k].whichArg.Ident? ==>
      first <= s.index && names[s.index - first] == cs[k].whichArg.name
    ensures s.ArgSlot? && cs[k].whichArg.Positional? ==> s.index == Position(cs, k) < first
    ensures s.Constant? <==> cs[k].whichArg.Ident? && cs[k].whichArg.name !in names
    ensures s.Constant? ==> s.name == cs[k].whichArg.name
    ensures s.Missing? <==> cs[k].whichArg.Positional? && Position(cs, k) >= first
    ensures s.Missing? ==> s.position == Position(cs, k)
  {
    match cs[k].whichArg
    case Ident(name) =>
      var pos := IndexOf(names, name);
      if pos < |names| then ArgSlot(first + pos) else Constant(name)
    case Positional(_) =>
      var pos := Position(cs, k);
      if pos < first then ArgSlot(pos) else Missing(pos)
  }

  /** Some placeholder among the first `n` refers to argument `j`. */
  predicate ReferencedBefore<F>(cs: seq<FmtStrComponent<F>>, n: nat, names: seq<string>, first: nat, j: nat)
    requires n <= |cs|
  {
    exists k | 0 <= k < n && cs[k].Arg? :: Target(cs, k, names, first) == ArgSlot(j)
  }

  /** One `NonexistentPositional` error per placeholder whose position has no
      positional argument, in placeholder order. */
  function MissingErrors<F>(cs: seq<FmtStrComponent<F>>, names: seq<string>, first: nat): seq<ParseError> {
    if cs == [] then []
    else
      var k := |cs| - 1;
      MissingErrors(cs[..k], names, first) +
        (if cs[k].Arg? && Target(cs, k, names, first).Missing?
         then [NonexistentPositional(Target(cs, k, names, first).position)] else [])
  }

  /** The local variable a slot stands for. */
  function SlotName<E>(s: Slot, fargs: seq<FormatArg<E>>): string
    requires s.ArgSlot? ==> s.index < |fargs|
  {
    match s
    case ArgSlot(j) => fargs[j].localVariable
    case Constant(name) => name
    case Missing(_) => DUMMY_IDENT
  }

  /** What component `k` expands into. */
  function Expand<E, R, F>(cs: seq<FmtStrComponent<F>>, k: nat, fargs: seq<FormatArg<E>>, names: seq<string>, first: nat, rawness: R): ExpandInto<R, F>
    requires k < |cs| && first + |names| == |fargs|
  {
    match cs[k]
    case Str(text) => StrPiece(text, rawness)
    case Arg(_, formatting) => Formatted(SlotName(Target(cs, k, names, first), fargs), formatting)
  }

  /** The expansion of every component, in order. */
  function Expansion<E, R, F>(cs: seq<FmtStrComponent<F>>, fargs: seq<FormatArg<E>>, names: seq<string>, first: nat, rawness: R): (e: seq<ExpandInto<R, F>>)
    requires first + |names| == |fargs|
    ensures |e| == |cs|
  {
    seq(|cs|, k requires 0 <= k < |cs| => Expand(cs, k, fargs, names, first, rawness))
  }

  /** The unused flags of `count` arguments once the first `n` components
      have been resolved. */
  function UnusedFlags<F>(cs: seq<FmtStrComponent<F>>, n: nat, names: seq<string>, first: nat, count: nat): (u: seq<bool>)
    requires n <= |cs|
    ensures |u| == count
  {
    seq(count, j requires 0 <= j < count => !ReferencedBefore(cs, n, names, first, j))
  }

  lemma TargetOfPrefix<F>(cs: seq<FmtStrComponent<F>>, n: nat, k: nat, names: seq<string>, first: nat)
    requires k < n <= |cs| && cs[k].Arg?
    ensures Target(cs[..n], k, names, first) == Target(cs, k, names, first)
  {
    assert cs[..n][..k] == cs[..k];
  }

  /** Resolving component `k` clears the flag of the argument it refers to,
      and of no other. */
  lemma UnusedFlagsStep<F>(cs: seq<FmtStrComponent<F>>, k: nat, names: seq<string>, first: nat, count: nat)
    requires k < |cs|
    ensures UnusedFlags(cs, k + 1, names, first, count) ==
      if cs[k].Arg? && Target(cs, k, names, first).ArgSlot? && Target(cs, k, names, first).index < count
      then UnusedFlags(cs, k, names, first, count)[Target(cs, k, names, first).index := false]
      else UnusedFlags(cs, k, names, first, count)
  {
    forall j | 0 <= j < count
      ensures ReferencedBefore(cs, k + 1, names, first, j) <==>
        ReferencedBefore(cs, k, names, first, j) || (cs[k].Arg? && Target(cs, k, names, first) == ArgSlot(j))
    {
      if cs[k].Arg? && Target(cs, k, names, first) == ArgSlot(j) {
        assert ReferencedBefore(cs, k + 1, names, first, j);
      }
      if ReferencedBefore(cs, k + 1, names, first, j) {
        var k' :| 0 <= k' < k + 1 && cs[k'].Arg? && Target(cs, k', names, first) == ArgSlot(j);
        if k' < k {
          assert ReferencedBefore(cs, k, names, first, j);
        }
      }
    }
  }

  /** `get_variable_name` (`parsing.rs` lines 147-183) for placeholder `k`:
      a name is looked up among the named arguments and otherwise taken as a
      constant in scope; a positional placeholder takes its index, or the
      counter, which it then advances, and records an error when there is no
      positional argument there. The argument found is marked used. */
  method GetVariableName<E, F>(cs: seq<FmtStrComponent<F>>, k: nat, fargs: seq<FormatArg<E>>, names: seq<string>, first: nat, currentPosArg: nat, unused: seq<bool>)
    returns (name: string, nextPosArg: nat, unusedAfter: seq<bool>, error: Option<ParseError>)
    requires k < |cs| && cs[k].Arg?
    requires first + |names| == |fargs| && |unused| == |fargs|
    requires currentPosArg == ImplicitCount(cs[..k])
    ensures name == SlotName(Target(cs, k, names, first), fargs)
    ensures nextPosArg == ImplicitCount(cs[..k + 1])
    ensures unusedAfter == if Target(cs, k, names, first).ArgSlot? then unused[Target(cs, k, names, first).index := false] else unused
    ensures error == if Target(cs, k, names, first).Missing? then Some(NonexistentPositional(Target(cs, k, names, first).position)) else None
  {
    assert cs[..k + 1][..k] == cs[..k];
    nextPosArg := currentPosArg;
    unusedAfter := unused;
    error := None;
    match cs[k].whichArg {
      case Ident(ident) =>
        var pos := IndexOf(names, ident);
        if pos < |names| {
          unusedAfter := unused[pos + first := false];
          name := fargs[pos + first].localVariable;
        } else {
          name := ident;
        }
      case Positional(optPos) =>
        var pos;
        match optPos {
          case Some(p) =>
            pos := p;
          case None =>
            pos := nextPosArg;
            nextPosArg := nextPosArg + 1;
        }
        if pos < first {
          unusedAfter := unused[pos := false];
          name := fargs[pos].localVariable;
        } else {
          error := Some(NonexistentPositional(pos));
          name := DUMMY_IDENT;
        }
    }
  }

  /** The expansion of one component (`parsing.rs` lines 187-193): literal
      text passes through with the literal's rawness; a placeholder becomes
      the variable `GetVariableName` finds, with its formatting. */
  method ExpandComponent<E, R, F>(cs: seq<FmtStrComponent<F>>, k: nat, fargs: seq<FormatArg<E>>, names: seq<string>, first: nat, rawness: R,
                                 currentPosArg: nat, unused: seq<bool>, errors: seq<ParseError>)
    returns (expansion: ExpandInto<R, F>, nextPosArg: nat, unusedAfter: seq<bool>, errorsAfter: seq<ParseError>)
    requires k < |cs| && first + |names| == |fargs|
    requires currentPosArg == ImplicitCount(cs[..k])
    requires unused == UnusedFlags(cs, k, names, first, |fargs|)
    requires errors == MissingErrors(cs[..k], names, first)
    ensures expansion == Expand(cs, k, fargs, names, first, rawness)
    ensures nextPosArg == ImplicitCount(cs[..k + 1])
    ensures unusedAfter == UnusedFlags(cs, k + 1, names, first, |fargs|)
    ensures errorsAfter == MissingErrors(cs[..k + 1], names, first)
  {
    UnusedFlagsStep(cs, k, names, first, |fargs|);
    assert cs[..k + 1][..k] == cs[..k];
    match cs[k]
    case Str(text) =>
      expansion := StrPiece(text, rawness);
      nextPosArg, unusedAfter, errorsAfter := currentPosArg, unused, errors;
    case Arg(which, formatting) =>
      TargetOfPrefix(cs, k + 1, k, names, first);
      var name, error;
      name, nextPosArg, unusedAfter, error := GetVariableName(cs, k, fargs, names, first, currentPosArg, unused);
      errorsAfter := if error.Some? then errors + [error.value] else errors;
      expansion := Formatted(name, formatting);
  }

  /** The resolution pass (`parsing.rs` lines 145-195): expands every
      component in order, keeping the counter of implicit placeholders,
      clearing the unused flag of every argument a placeholder reaches and
      recording an error for every missing positional argument. */
  method ResolveComponents<E, R, F>(cs: seq<FmtStrComponent<F>>, fargs: seq<FormatArg<E>>, names: seq<string>, first: nat, rawness: R)
    returns (expanded: seq<ExpandInto<R, F>>, unused: seq<bool>, errors: seq<ParseError>)
    requires first + |names| == |fargs|
    ensures expanded == Expansion(cs, fargs, names, first, rawness)
    ensures unused == UnusedFlags(cs, |cs|, names, first, |fargs|)
    ensures errors == MissingErrors(cs, names, first)
  {
    var currentPosArg := 0;
    unused := seq(|fargs|, _ => true);
    assert unused == UnusedFlags(cs, 0, names, first, |fargs|);
    expanded := [];
    errors := [];
    for k := 0 to |cs|
      invariant currentPosArg == ImplicitCount(cs[..k])
      invariant |expanded| == k
      invariant forall k' | 0 <= k' < k :: expanded[k'] == Expand(cs, k', fargs, names, first, rawness)
      invariant unused == UnusedFlags(cs, k, names, first, |fargs|)
      invariant errors == MissingErrors(cs[..k], names, first)
    {
      var expansion;
      expansion, currentPosArg, unused, errors := ExpandComponent(cs, k, fargs, names, first, rawness, currentPosArg, unused, errors);
      expanded := expanded + [expansion];
    }
    assert cs[..|cs|] == cs;
  }

  /** One `UnusedArg` error per argument whose flag is still set, in argument
      order, naming the argument when it is named. */
  function UnusedErrors(unused: seq<bool>, idents: seq<Option<string>>): seq<ParseError>
    requires |unused| == |idents|
  {
    if unused == [] then []
    else
      var n := |unused| - 1;
      UnusedErrors(unused[..n], idents[..n]) + (if unused[n] then [UnusedArg(n, idents[n])] else [])
  }

  /** Every argument still flagged unused is reported exactly once, with its
      name, and nothing else is reported. */
  lemma {:induction false} UnusedReportedOnce(unused: seq<bool>, idents: seq<Option<string>>)
    requires |unused| == |idents|
    ensures forall e | e in UnusedErrors(unused, idents) ::
      e.UnusedArg? && e.index < |unused| && unused[e.index] && e.ident == idents[e.index]
    ensures forall j | 0 <= j < |unused| ::
      multiset(UnusedErrors(unused, idents))[UnusedArg(j, idents[j])] == (if unused[j] then 1 else 0)
  {
    if unused != [] {
      var n := |unused| - 1;
      var front, frontIds := unused[..n], idents[..n];
      UnusedReportedOnce(front, frontIds);
      var tail: seq<ParseError> := if unused[n] then [UnusedArg(n, idents[n])] else [];
      assert UnusedErrors(unused, idents) == UnusedErrors(front, frontIds) + tail;
      forall j | 0 <= j < |unused|
        ensures multiset(UnusedErrors(unused, idents))[UnusedArg(j, idents[j])] == (if unused[j] then 1 else 0)
      {
        if j == n {
          assert UnusedArg(n, idents[n]) !in UnusedErrors(front, frontIds);
        } else {
          assert front[j] == unused[j] && frontIds[j] == idents[j];
        }
      }
    }
  }

  /** No error is reported when every argument was referenced. */
  lemma {:induction false} UnusedErrorsEmpty(unused: seq<bool>, idents: seq<Option<string>>)
    requires |unused| == |idents|
    ensures UnusedErrors(unused, idents) == [] <==> forall j | 0 <= j < |unused| :: !unused[j]
  {
    if unused != [] {
      var n := |unused| - 1;
      UnusedErrorsEmpty(unused[..n], idents[..n]);
      assert forall j | 0 <= j < n :: unused[..n][j] == unused[j];
    }
  }

  /** No positional error is recorded exactly when every positional
      placeholder has its argument. */
  lemma {:induction false} MissingErrorsEmpty<F>(cs: seq<FmtStrComponent<F>>, names: seq<string>, first: nat)
    ensures MissingErrors(cs, names, first) == [] <==> AllPositionsExist(cs, names, first)
  {
    if cs != [] {
      var n := |cs| - 1;
      MissingErrorsEmpty(cs[..n], names, first);
      forall k | 0 <= k < n && cs[k].Arg?
        ensures Target(cs[..n], k, names, first) == Target(cs, k, names, first)
      {
        TargetOfPrefix(cs, n, k, names, first);
      }
    }
  }

  /** The unused-argument pass (`parsing.rs` lines 197-208). */
  method ReportUnused(unused: seq<bool>, idents: seq<Option<string>>) returns (errors: seq<ParseError>)
    requires |unused| == |idents|
    ensures errors == UnusedErrors(unused, idents)
  {
    errors := [];
    for i := 0 to |unused|
      invariant errors == UnusedErrors(unused[..i], idents[..i])
    {
      assert unused[..i + 1][..i] == unused[..i] && idents[..i + 1][..i] == idents[..i];
      if unused[i] {
        errors := errors + [UnusedArg(i, idents[i])];
      }
    }
    assert unused[..|unused|] == unused && idents[..|idents|] == idents;
  }

  /** The optional name of every argument. */
  function Idents<E>(args: seq<UncheckedFormatArg<E>>): (ids: seq<Option<string>>)
    ensures |ids| == |args|
  {
    seq(|args|, j requires 0 <= j < |args| => args[j].ident)
  }

  /** The reference result of `parse_with`: the ordering error alone, or all
      positional and unused-argument errors together, or the named arguments
      and the expansion of every component. */
  function Parse<E, R, F>(args: seq<UncheckedFormatArg<E>>, cs: seq<FmtStrComponent<F>>, prefix: string, rawness: R): Result<FormatArgsOut<E, R, F>> {
    if !WellOrdered(args) then Failure([PositionalAfterNamed(Misplaced(args))])
    else
      NamedSuffix(args);
      var first, names, fargs := FirstNamed(args), NamesOf(args), Named(args, prefix);
      var errors := MissingErrors(cs, names, first) + UnusedErrors(UnusedFlags(cs, |cs|, names, first, |args|), Idents(args));
      if errors != [] then Failure(errors)
      else Success(FormatArgsOut(fargs, Expansion(cs, fargs, names, first, rawness)))
  }

  /** `FormatArgs::parse_with` after token parsing. */
  method ParseWith<E, R, F>(args: seq<UncheckedFormatArg<E>>, cs: seq<FmtStrComponent<F>>, prefix: string, rawness: R)
    returns (r: Result<FormatArgsOut<E, R, F>>)
    ensures r == Parse(args, cs, prefix, rawness)
  {
    var naming := NameArgs(args, prefix);
    if naming.Failure? {
      return Failure(naming.errors);
    }
    var Naming(first, names, fargs) := naming.value;
    NamedSuffix(args);
    var expanded, unused, errors := ResolveComponents(cs, fargs, names, first, rawness);
    var unusedErrors := ReportUnused(unused, Idents(args));
    errors := errors + unusedErrors;
    if errors != [] {
      return Failure(errors);
    }
    r := Success(FormatArgsOut(fargs, expanded));
  }

  /** Every positional placeholder has its positional argument. */
  predicate AllPositionsExist<F>(cs: seq<FmtStrComponent<F>>, names: seq<string>, first: nat) {
    forall k | 0 <= k < |cs| && cs[k].Arg? :: !Target(cs, k, names, first).Missing?
  }

  /** Each of the `count` arguments is referenced by some placeholder. */
  predicate AllReferenced<F>(cs: seq<FmtStrComponent<F>>, names: seq<string>, first: nat, count: nat) {
    forall j | 0 <= j < count :: ReferencedBefore(cs, |cs|, names, first, j)
  }

  /** The flags left set are those of the arguments nobody referenced. */
  lemma AllReferencedIff<F>(cs: seq<FmtStrComponent<F>>, names: seq<string>, first: nat, count: nat)
    ensures AllReferenced(cs, names, first, count) <==> forall j | 0 <= j < count :: !UnusedFlags(cs, |cs|, names, first, count)[j]
  {
    var unused := UnusedFlags(cs, |cs|, names, first, count);
    assert forall j | 0 <= j < count :: unused[j] == !ReferencedBefore(cs, |cs|, names, first, j);
  }

  /** `parse_with` succeeds exactly when named arguments come last, every
      positional placeholder has its argument and every argument is
      referenced. */
  lemma ParseSucceeds<E, R, F>(args: seq<UncheckedFormatArg<E>>, cs: seq<FmtStrComponent<F>>, prefix: string, rawness: R)
    ensures Parse(args, cs, prefix, rawness).Success? <==>
      && WellOrdered(args)
      && AllPositionsExist(cs, NamesOf(args), FirstNamed(args))
      && AllReferenced(cs, NamesOf(args), FirstNamed(args), |args|)
  {
    if WellOrdered(args) {
      var first, names := FirstNamed(args), NamesOf(args);
      var unused := UnusedFlags(cs, |cs|, names, first, |args|);
      var missing, unusedErrors := MissingErrors(cs, names, first), UnusedErrors(unused, Idents(args));
      assert Parse(args, cs, prefix, rawness).Success? <==> missing + unusedErrors == [];
      assert missing + unusedErrors == [] <==> missing == [] && unusedErrors == [];
      MissingErrorsEmpty(cs, names, first);
      UnusedErrorsEmpty(unused, Idents(args));
      AllReferencedIff(cs, names, first, |args|);
    } else {
      assert Parse(args, cs, prefix, rawness).Failure?;
    }
  }

  /** A successful parse keeps one argument per input argument, in order, and
      one expansion per component, literal text passing through with the
      literal's rawness. */
  lemma ParseOutput<E, R, F>(args: seq<UncheckedFormatArg<E>>, cs: seq<FmtStrComponent<F>>, prefix: string, rawness: R)
    requires Parse(args, cs, prefix, rawness).Success?
    ensures var out := Parse(args, cs, prefix, rawness).value;
      && |out.args| == |args|
      && (forall i | 0 <= i < |args| :: out.args[i].expr == args[i].expr)
      && |out.expandedInto| == |cs|
      && (forall k | 0 <= k < |cs| && cs[k].Str? :: out.expandedInto[k] == StrPiece(cs[k].text, rawness))
  {
    NamedSuffix(args);
    var first, names, fargs := FirstNamed(args), NamesOf(args), Named(args, prefix);
    var out := Parse(args, cs, prefix, rawness).value;
    assert out == FormatArgsOut(fargs, Expansion(cs, fargs, names, first, rawness));
    forall k | 0 <= k < |cs| && cs[k].Str?
      ensures out.expandedInto[k] == StrPiece(cs[k].text, rawness)
    {
      assert out.expandedInto[k] == Expand(cs, k, fargs, names, first, rawness);
    }
  }

  /** Implicit placeholders take positions 0, 1, 2, … in order: the first
      takes 0 and each next one the position after the previous one, whatever
      explicit placeholders lie between. */
  lemma ImplicitPositions<F>(cs: seq<FmtStrComponent<F>>, k1: nat, k2: nat)
    requires k1 < k2 < |cs| && IsImplicit(cs[k1]) && IsImplicit(cs[k2])
    requires forall k | k1 < k < k2 :: !IsImplicit(cs[k])
    ensures Position(cs, k2) == Position(cs, k1) + 1
  {
    ImplicitCountConcat(cs[..k2], k1);
    assert cs[..k2][..k1] == cs[..k1];
    NoImplicit(cs[..k2][k1 + 1..]);
    ImplicitCountConcat(cs[..k2][k1..], 1);
    assert cs[..k2][k1..][..1] == [cs[k1]];
    assert [cs[k1]][..0] == [];
  }

  /** The first implicit placeholder takes position 0. */
  lemma FirstImplicitIsZero<F>(cs: seq<FmtStrComponent<F>>, k: nat)
    requires k < |cs| && IsImplicit(cs[k])
    requires forall k' | 0 <= k' < k :: !IsImplicit(cs[k'])
    ensures Position(cs, k) == 0
  {
    NoImplicit(cs[..k]);
  }

  lemma {:induction false} NoImplicit<F>(cs: seq<FmtStrComponent<F>>)
    requires forall k | 0 <= k < |cs| :: !IsImplicit(cs[k])
    ensures ImplicitCount(cs) == 0
  {
    if cs != [] {
      NoImplicit(cs[..|cs| - 1]);
    }
  }

  /** The count splits over a prefix and the rest. */
  lemma {:induction false} ImplicitCountConcat<F>(cs: seq<FmtStrComponent<F>>, m: nat)
    requires m <= |cs|
    ensures ImplicitCount(cs) == ImplicitCount(cs[..m]) + ImplicitCount(cs[m..])
    decreases |cs|
  {
    if m < |cs| {
      var n := |cs| - 1;
      ImplicitCountConcat(cs[..n], m);
      assert cs[..n][..m] == cs[..m];
      assert cs[m..][..|cs[m..]| - 1] == cs[..n][m..];
    } else {
      assert cs[..m] == cs;
    }
  }

  /** The arguments `21, 34, 55..89, x = 8, y = 13` (each expression
      stands for its value) and the components of
      `"{x},{y},{},{},{x:b},{y:x},{:?}"` (each formatting stands for a
      number). */
  const NAMED_ARGS: seq<UncheckedFormatArg<int>> :=
    [UncheckedFormatArg(None, 21), UncheckedFormatArg(None, 34), UncheckedFormatArg(None, 5589),
     UncheckedFormatArg(Some("x"), 8), UncheckedFormatArg(Some("y"), 13)]
  const NAMED_COMPONENTS: seq<FmtStrComponent<int>> :=
    [Arg(Ident("x"), 0), Str(","), Arg(Ident("y"), 0), Str(","), Arg(Positional(None), 0), Str(","),
     Arg(Positional(None), 0), Str(","), Arg(Ident("x"), 1), Str(","), Arg(Ident("y"), 2), Str(","),
     Arg(Positional(None), 3)]

  /** There the seven placeholders take the arguments 3, 4, 0, 1, 3, 4 and
      2: the names find the named arguments and the three `{}` take the
      positions 0, 1 and 2. */
  lemma NamedParametersTargets()
    ensures FirstNamed(NAMED_ARGS) == 3 && NamesOf(NAMED_ARGS) == ["x", "y"]
    ensures forall i | 0 <= i < 7 ::
      Target(NAMED_COMPONENTS, 2 * i, ["x", "y"], 3) == [ArgSlot(3), ArgSlot(4), ArgSlot(0), ArgSlot(1), ArgSlot(3), ArgSlot(4), ArgSlot(2)][i]
  {
    NamedArgsNames();
    NamedTargets();
    ImplicitTargets();
  }

  /** The named placeholders there take `x` and `y` by name. */
  lemma NamedTargets()
    ensures var cs, names := NAMED_COMPONENTS, ["x", "y"];
      Target(cs, 0, names, 3) == ArgSlot(3) && Target(cs, 2, names, 3) == ArgSlot(4)
      && Target(cs, 8, names, 3) == ArgSlot(3) && Target(cs, 10, names, 3) == ArgSlot(4)
  {
  }

  /** The three `{}` there take the positions 0, 1 and 2. */
  lemma ImplicitTargets()
    ensures var cs, names := NAMED_COMPONENTS, ["x", "y"];
      Target(cs, 4, names, 3) == ArgSlot(0) && Target(cs, 6, names, 3) == ArgSlot(1)
      && Target(cs, 12, names, 3) == ArgSlot(2)
  {
    var cs := NAMED_COMPONENTS;
    FirstImplicitIsZero(cs, 4);
    ImplicitPositions(cs, 4, 6);
    ImplicitPositions(cs, 6, 12);
  }

  /** The arguments of that example: three positional ones, then `x` and `y`. */
  lemma NamedArgsNames()
    ensures FirstNamed(NAMED_ARGS) == 3 && NamesOf(NAMED_ARGS) == ["x", "y"]
  {
    assert FirstNamed(NAMED_ARGS) == 3;
    assert WellOrdered(NAMED_ARGS);
    NamedSuffix(NAMED_ARGS);
  }

  /** Every argument is used there and every position exists, so the parse
      succeeds. */
  lemma NamedParametersExample()
    ensures Parse(NAMED_ARGS, NAMED_COMPONENTS, "const_fmt_local_", 0).Success?
  {
    var cs, names := NAMED_COMPONENTS, ["x", "y"];
    NamedArgsNames();
    NamedTargets();
    ImplicitTargets();
    assert WellOrdered(NAMED_ARGS);
    forall k | 0 <= k < |cs| && cs[k].Arg?
      ensures !Target(cs, k, names, 3).Missing?
    {
      if cs[k].whichArg.Positional? {
        assert k == 4 || k == 6 || k == 12;
      }
    }
    forall j | 0 <= j < |NAMED_ARGS|
      ensures ReferencedBefore(cs, |cs|, names, 3, j)
    {
      var k := if j == 0 then 4 else if j == 1 then 6 else if j == 2 then 12 else if j == 3 then 0 else 2;
      assert Target(cs, k, names, 3) == ArgSlot(j);
    }
    ParseSucceeds(NAMED_ARGS, cs, "const_fmt_local_", 0);
  }

  /** `"{0:},{0:?},{0:#x},{0:#b},{1},{1:?}"` with two positional arguments:
      repeating an explicit position is allowed, and both arguments are
      used. */
  lemma RepeatedPositionalExample()
    ensures var args := [UncheckedFormatArg(None, 13), UncheckedFormatArg(None, 0)];
      var cs := [Arg(Positional(Some(0)), 0), Arg(Positional(Some(0)), 1), Arg(Positional(Some(0)), 2),
                 Arg(Positional(Some(0)), 3), Arg(Positional(Some(1)), 0), Arg(Positional(Some(1)), 1)];
      Parse(args, cs, "const_fmt_local_", 0).Success?
  {
    var args := [UncheckedFormatArg(None, 13), UncheckedFormatArg(None, 0)];
    var cs := [Arg(Positional(Some(0)), 0), Arg(Positional(Some(0)), 1), Arg(Positional(Some(0)), 2),
               Arg(Positional(Some(0)), 3), Arg(Positional(Some(1)), 0), Arg(Positional(Some(1)), 1)];
    assert FirstNamed(args) == 2;
    NamedSuffix(args);
    assert NamesOf(args) == [];
    assert Target(cs, 0, [], 2) == ArgSlot(0);
    assert Target(cs, 4, [], 2) == ArgSlot(1);
    assert AllPositionsExist(cs, [], 2);
    ParseSucceeds(args, cs, "const_fmt_local_", 0);
  }
}
