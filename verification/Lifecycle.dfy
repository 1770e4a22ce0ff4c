/** The streaming component wrapper, which hot-swaps logic instances and owes each of them paired mount calls. */
module Lifecycle {
  import opened Common

  // ---------------------------------------------------------------- what the wrapper sees and calls

  /** A logic class: the no-op base, or one an author wrote. */
  datatype Class = Base | User(name: nat)

  /** The registry entry at a moment: the author's class if there is one, the entry's version, and whether a
      template has arrived. */
  datatype Entry = Entry(logic: Option<nat>, ver: nat, tpl: bool)

  datatype Instance = Instance(id: nat, cls: Class)

  datatype Call = DidMount(id: nat) | DidUpdate(id: nat) | WillUnmount(id: nat)

  /** A property's value, as far as `===` tells values apart: a NaN is not even equal to itself. */
  datatype Value = Undefined | NaN | Plain(v: nat)

  type Props = map<string, Value>

  predicate StrictEqual(a: Value, b: Value) {
    a == b && !a.NaN?
  }

  function Look(p: Props, key: string): Value {
    if key in p then p[key] else Undefined
  }

  /** The keys but for the children. */
  function OwnKeys(p: Props): set<string> {
    set key | key in p && key != "children"
  }

  /** `shallowEqual`. */
  predicate ShallowEqual(a: Props, b: Props) {
    |OwnKeys(a)| == |OwnKeys(b)| && forall key :: key in OwnKeys(a) ==> StrictEqual(Look(a, key), Look(b, key))
  }

  /** No property but the children is a NaN. */
  predicate NaNFree(p: Props) {
    forall key :: key in OwnKeys(p) ==> !p[key].NaN?
  }

  lemma SelfEqualIff(p: Props)
    ensures ShallowEqual(p, p) <==> NaNFree(p)
  {}

  /** Where React has the wrapper: constructed and rendering, committed, or removed. */
  datatype Phase = Rendering | Mounted | Removed

  datatype State = State(
    phase: Phase, logic: Instance, needsDidMount: bool,
    failedLogic: Option<nat>, failedVer: int, failedProps: Option<Props>,
    err: bool, made: nat, calls: seq<Call>)

  /** A failed construction, by class, registry version and props; it is not attempted again. */
  predicate Remembered(s: State, e: Entry, props: Props) {
    e.logic == s.failedLogic && e.ver == s.failedVer && s.failedProps.Some? && ShallowEqual(props, s.failedProps.value)
  }

  /** Whether rendering replaces the logic instance. */
  predicate Swaps(s: State, e: Entry, props: Props) {
    && !(e.logic.Some? && s.logic.cls == User(e.logic.value))
    && !(e.logic.None? && s.logic.cls.Base?)
    && !Remembered(s, e, props)
  }

  /** `__makeLogic`: a throwing constructor leaves the base class in place and the attempt on record. */
  function Made(s: State, e: Entry, props: Props, throws: bool): State {
    var t := s.(made := s.made + 1);
    if e.logic.Some? && throws then
      t.(logic := Instance(s.made, Base), failedLogic := e.logic, failedVer := e.ver, failedProps := Some(props))
    else
      t.(logic := Instance(s.made, if e.logic.Some? then User(e.logic.value) else Base), failedLogic := None, failedProps := None)
  }

  /** What React does to a mounted wrapper, and what the registry holds at that moment. */
  datatype Step =
    | Render(entry: Entry, props: Props, circular: bool, throws: bool)
    | Fail                      // a render below it threw: getDerivedStateFromError
    | Recover                   // the registry notified: the error is cleared
    | CommitMount
    | CommitUpdate(tpl: bool)
    | Remove

  predicate Legal(s: State, step: Step) {
    match step
    case Render(_, _, _, _) => !s.phase.Removed?
    case Fail => !s.phase.Removed?
    case Recover => !s.phase.Removed?
    case CommitMount => s.phase.Rendering?
    case CommitUpdate(_) => s.phase.Mounted?
    case Remove => s.phase.Mounted?
  }

  /** The render swaps the instance. */
  predicate SwapsAt(s: State, step: Step) {
    step.Render? && !step.circular && !s.err && Swaps(s, step.entry, step.props)
  }

  /** The instance exchanged: a mounted one is unmounted, the new one has yet to be mounted. */
  function Swapped(s: State, e: Entry, props: Props, throws: bool): State {
    var t := if s.needsDidMount then s else s.(calls := s.calls + [WillUnmount(s.logic.id)]);
    Made(t, e, props, throws).(needsDidMount := true)
  }

  function After(s: State, step: Step): State {
    match step
    case Render(e, props, _, throws) =>
      if !SwapsAt(s, step) then s else Swapped(s, e, props, throws)
    case Fail => s.(err := true)
    case Recover => s.(err := false)
    case CommitMount => s.(phase := Mounted, calls := s.calls + [DidMount(s.logic.id)])
    case CommitUpdate(tpl) =>
      if !s.needsDidMount then s.(calls := s.calls + [DidUpdate(s.logic.id)])
      else if s.err || !tpl then s
      else s.(needsDidMount := false, calls := s.calls + [DidMount(s.logic.id)])
    case Remove =>
      s.(phase := Removed, calls := if s.needsDidMount then s.calls else s.calls + [WillUnmount(s.logic.id)])
  }

  function Constructed(e: Entry, props: Props, throws: bool): State {
    Made(State(Rendering, Instance(0, Base), false, None, -1, None, false, 0, []), e, props, throws)
  }

  // ---------------------------------------------------------------- the wrapper

  class StreamableComponent {
    var phase: Phase
    var logic: Instance
    var needsDidMount: bool
    var failedLogic: Option<nat>
    var failedVer: int
    var failedProps: Option<Props>
    var err: bool
    var made: nat
    var calls: seq<Call>

    function Now(): State
      reads this
    {
      State(phase, logic, needsDidMount, failedLogic, failedVer, failedProps, err, made, calls)
    }

    constructor (e: Entry, props: Props, throws: bool)
      ensures Now() == Constructed(e, props, throws)
    {
      phase, needsDidMount, err, calls := Rendering, false, false, [];
      logic := Instance(0, Base);
      failedLogic, failedVer, failedProps, made := None, -1, None, 0;
      new;
      MakeLogic(e, props, throws);
    }

    method MakeLogic(e: Entry, props: Props, throws: bool)
      modifies `logic, `failedLogic, `failedVer, `failedProps, `made
      ensures Now() == Made(old(Now()), e, props, throws)
    {
      var cls := if e.logic.Some? then User(e.logic.value) else Base;
      if cls.User? && throws {
        failedLogic, failedProps, failedVer := e.logic, Some(props), e.ver;
        cls := Base;
      } else {
        failedLogic, failedProps := None, None;
      }
      logic := Instance(made, cls);
      made := made + 1;
    }

    method ReconcileLogic(e: Entry, props: Props, throws: bool)
      modifies `logic, `failedLogic, `failedVer, `failedProps, `made, `needsDidMount, `calls
      ensures Now() == if Swaps(old(Now()), e, props) then Swapped(old(Now()), e, props, throws) else old(Now())
    {
      hide Made, ShallowEqual;
      if (e.logic.Some? && logic.cls == User(e.logic.value)) || (e.logic.None? && logic.cls.Base?)
         || (e.logic == failedLogic && e.ver == failedVer && failedProps.Some? && ShallowEqual(props, failedProps.value)) {
        return;
      }
      if !needsDidMount {
        calls := calls + [WillUnmount(logic.id)];
      }
      MakeLogic(e, props, throws);
      needsDidMount := true;
    }

    method RenderOnce(e: Entry, props: Props, circular: bool, throws: bool)
      modifies `logic, `failedLogic, `failedVer, `failedProps, `made, `needsDidMount, `calls
      ensures Now() == After(old(Now()), Render(e, props, circular, throws))
    {
      if circular || err {
        return;
      }
      ReconcileLogic(e, props, throws);
    }

    method ComponentDidMount()
      modifies `phase, `calls
      ensures Now() == After(old(Now()), CommitMount)
    {
      phase := Mounted;
      calls := calls + [DidMount(logic.id)];
    }

    method ComponentDidUpdate(tpl: bool)
      modifies `needsDidMount, `calls
      ensures Now() == After(old(Now()), CommitUpdate(tpl))
    {
      if needsDidMount {
        if err || !tpl {
          return;
        }
        needsDidMount := false;
        calls := calls + [DidMount(logic.id)];
      } else {
        calls := calls + [DidUpdate(logic.id)];
      }
    }

    method ComponentWillUnmount()
      modifies `phase, `calls
      ensures Now() == After(old(Now()), Remove)
    {
      phase := Removed;
      if !needsDidMount {
        calls := calls + [WillUnmount(logic.id)];
      }
    }

    method SetError(b: bool)
      modifies `err
      ensures Now() == After(old(Now()), if b then Fail else Recover)
    {
      err := b;
    }
  }

  // ---------------------------------------------------------------- the life of an instance

  datatype Life = Unborn | Alive | Ended | Mixed

  /** What one more call makes of an instance: mount, any updates, unmount, and nothing else. */
  function Lived(l: Life, c: Call): Life {
    match c
    case DidMount(_) => if l.Unborn? then Alive else Mixed
    case DidUpdate(_) => if l.Alive? then Alive else Mixed
    case WillUnmount(_) => if l.Alive? then Ended else Mixed
  }

  function LifeOf(calls: seq<Call>, id: nat): Life {
    if calls == [] then Unborn
    else
      var l := LifeOf(calls[..|calls| - 1], id);
      var c := calls[|calls| - 1];
      if c.id == id then Lived(l, c) else l
  }

  lemma LifeStep(calls: seq<Call>, c: Call, id: nat)
    ensures LifeOf(calls + [c], id) == if c.id == id then Lived(LifeOf(calls, id), c) else LifeOf(calls, id)
  {
    assert (calls + [c])[..|calls|] == calls;
  }

  /** Some instance's calls are out of order. */
  ghost predicate SomeMixed(calls: seq<Call>) {
    exists id :: LifeOf(calls, id) == Mixed
  }

  // ---------------------------------------------------------------- runs

  ghost predicate LegalRun(s: State, steps: seq<Step>)
    decreases |steps|
  {
    steps == [] || (Legal(s, steps[0]) && LegalRun(After(s, steps[0]), steps[1..]))
  }

  function Run(s: State, steps: seq<Step>): State
    decreases |steps|
  {
    if steps == [] then s else Run(After(s, steps[0]), steps[1..])
  }

  /** Some render replaces the instance before the wrapper is first committed. */
  predicate EarlySwap(s: State, steps: seq<Step>)
    decreases |steps|
  {
    steps != [] && ((s.phase.Rendering? && SwapsAt(s, steps[0])) || EarlySwap(After(s, steps[0]), steps[1..]))
  }

  /** While calls stay paired: only the current instance can be alive, and it is exactly when it has been mounted. */
  ghost predicate Paired(s: State) {
    && s.logic.id < s.made && (s.phase.Rendering? ==> !s.needsDidMount)
    && (forall id :: id != s.logic.id ==> LifeOf(s.calls, id) in {Unborn, Ended})
    && (forall id :: id >= s.made ==> LifeOf(s.calls, id) == Unborn)
    && match s.phase
       case Rendering => LifeOf(s.calls, s.logic.id) == Unborn
       case Mounted => LifeOf(s.calls, s.logic.id) == if s.needsDidMount then Unborn else Alive
       case Removed => LifeOf(s.calls, s.logic.id) in {Unborn, Ended}
  }

  lemma StepKeepsPaired(s: State, step: Step)
    requires Paired(s) && Legal(s, step) && !(s.phase.Rendering? && SwapsAt(s, step))
    ensures Paired(After(s, step))
  {
    hide LifeOf;
    var t := After(s, step);
    if |t.calls| > |s.calls| {
      var c := t.calls[|s.calls|];
      assert t.calls == s.calls + [c];
      forall id ensures LifeOf(t.calls, id) == if c.id == id then Lived(LifeOf(s.calls, id), c) else LifeOf(s.calls, id) {
        LifeStep(s.calls, c, id);
      }
    }
  }

  /** Once an instance's calls are out of order they stay so. */
  lemma {:induction false} MixedStays(s: State, steps: seq<Step>, id: nat)
    requires LifeOf(s.calls, id) == Mixed
    ensures LifeOf(Run(s, steps).calls, id) == Mixed
    decreases |steps|
  {
    hide LifeOf;
    if steps != [] {
      var t := After(s, steps[0]);
      if |t.calls| > |s.calls| {
        LifeStep(s.calls, t.calls[|s.calls|], id);
        assert t.calls == s.calls + [t.calls[|s.calls|]];
      } else {
        assert t.calls == s.calls;
      }
      MixedStays(t, steps[1..], id);
    }
  }

  lemma {:induction false} RunFromPaired(s: State, steps: seq<Step>)
    requires Paired(s) && LegalRun(s, steps)
    ensures if EarlySwap(s, steps) then SomeMixed(Run(s, steps).calls) else Paired(Run(s, steps))
    decreases |steps|
  {
    hide LifeOf, Paired, SwapsAt, After;
    if steps != [] {
      var t := After(s, steps[0]);
      if s.phase.Rendering? && SwapsAt(s, steps[0]) {
        EarlySwapMixes(s, steps[0]);
        MixedStays(t, steps[1..], s.logic.id);
        assert LifeOf(Run(s, steps).calls, s.logic.id) == Mixed && Run(s, steps) == Run(t, steps[1..]);
      } else {
        StepKeepsPaired(s, steps[0]);
        RunFromPaired(t, steps[1..]);
        assert Run(s, steps) == Run(t, steps[1..]) && EarlySwap(s, steps) == EarlySwap(t, steps[1..]);
      }
    }
  }

  lemma EarlySwapMixes(s: State, step: Step)
    requires Paired(s) && s.phase.Rendering? && SwapsAt(s, step)
    ensures LifeOf(After(s, step).calls, s.logic.id) == Mixed
  {
    hide LifeOf;
    LifeStep(s.calls, WillUnmount(s.logic.id), s.logic.id);
  }

  /** Every logic instance the wrapper makes is told of mounting at most once, of unmounting exactly if it was
      mounted, and of updates only in between -- over every run, exactly if no render replaces the instance before
      the first commit. */
  lemma CallsArePairedIff(e: Entry, props: Props, throws: bool, steps: seq<Step>)
    requires LegalRun(Constructed(e, props, throws), steps)
    ensures var s := Constructed(e, props, throws);
      var calls := Run(s, steps).calls;
      !SomeMixed(calls) <==> !EarlySwap(s, steps)
  {
    hide Run, EarlySwap, LegalRun;
    var s := Constructed(e, props, throws);
    FreshIsPaired(e, props, throws);
    RunFromPaired(s, steps);
  }

  /** Then no replaced instance is left mounted, and none at all once the wrapper is removed. */
  lemma NobodyIsLeftMounted(e: Entry, props: Props, throws: bool, steps: seq<Step>, id: nat)
    requires LegalRun(Constructed(e, props, throws), steps) && !EarlySwap(Constructed(e, props, throws), steps)
    ensures var t := Run(Constructed(e, props, throws), steps);
      LifeOf(t.calls, id) == Alive ==> id == t.logic.id && t.phase.Mounted?
  {
    hide Run, EarlySwap, LegalRun, LifeOf;
    FreshIsPaired(e, props, throws);
    RunFromPaired(Constructed(e, props, throws), steps);
  }

  lemma FreshIsPaired(e: Entry, props: Props, throws: bool)
    ensures Paired(Constructed(e, props, throws))
  {}

  /** An entry and properties that do not make a render swap, a remembered failure included, never do so as long as they
      stay the same. */
  lemma {:induction false} SteadyEntryIsSafe(e: Entry, props: Props, s: State, steps: seq<Step>)
    requires !Swaps(s, e, props)
    requires forall r :: r in steps && r.Render? ==> r.entry == e && r.props == props
    ensures !EarlySwap(s, steps)
    decreases |steps|
  {
    if steps != [] {
      assert steps[0] in steps;
      assert !SwapsAt(s, steps[0]);
      SteadyEntryIsSafe(e, props, After(s, steps[0]), steps[1..]);
    }
  }

  /** Right after construction a render that sees the same entry and properties swaps exactly if the constructor failed
      and a property is a NaN, so that the failure is not recognised. */
  lemma ConstructionSwapsIff(e: Entry, props: Props, throws: bool)
    ensures Swaps(Constructed(e, props, throws), e, props) <==> e.logic.Some? && throws && !NaNFree(props)
  {
    hide ShallowEqual, NaNFree;
    SelfEqualIff(props);
  }

  /** Over a run that sees the same entry and properties throughout, calls are paired exactly if the constructor did not
      fail, or no property is a NaN, or no render gets to reconcile before the first commit. */
  lemma SteadyRunsPairedIff(e: Entry, props: Props, throws: bool, steps: seq<Step>)
    requires LegalRun(Constructed(e, props, throws), steps)
    requires forall r :: r in steps && r.Render? ==> r.entry == e && r.props == props
    ensures SomeMixed(Run(Constructed(e, props, throws), steps).calls) <==>
      e.logic.Some? && throws && !NaNFree(props) && ReconcilesEarly(false, steps)
  {
    hide Run, LegalRun, SomeMixed, Constructed, ShallowEqual, NaNFree, EarlySwap, Swaps, ReconcilesEarly;
    var s := Constructed(e, props, throws);
    CallsArePairedIff(e, props, throws, steps);
    ConstructionSwapsIff(e, props, throws);
    FreshState(e, props, throws);
    if Swaps(s, e, props) {
      SwapsWhenItReconciles(e, props, s, steps);
    } else {
      SteadyEntryIsSafe(e, props, s, steps);
    }
  }

  lemma FreshState(e: Entry, props: Props, throws: bool)
    ensures Constructed(e, props, throws).phase.Rendering? && !Constructed(e, props, throws).err
  {}

  /** Some render reconciles before the first commit: it is not circular, and no error is showing. */
  predicate ReconcilesEarly(err: bool, steps: seq<Step>)
    decreases |steps|
  {
    steps != [] &&
    match steps[0]
    case Render(_, _, circular, _) => (!circular && !err) || ReconcilesEarly(err, steps[1..])
    case Fail => ReconcilesEarly(true, steps[1..])
    case Recover => ReconcilesEarly(false, steps[1..])
    case _ => false
  }

  lemma {:induction false} SwapsWhenItReconciles(e: Entry, props: Props, s: State, steps: seq<Step>)
    requires s.phase.Rendering? && Swaps(s, e, props) && LegalRun(s, steps)
    requires forall r :: r in steps && r.Render? ==> r.entry == e && r.props == props
    ensures EarlySwap(s, steps) <==> ReconcilesEarly(s.err, steps)
    decreases |steps|
  {
    hide ShallowEqual;
    if steps != [] {
      assert steps[0] in steps;
      var t := After(s, steps[0]);
      match steps[0]
      case Render(_, _, circular, _) =>
        if circular || s.err {
          SwapsWhenItReconciles(e, props, t, steps[1..]);
        }
      case Fail => SwapsWhenItReconciles(e, props, t, steps[1..]);
      case Recover => SwapsWhenItReconciles(e, props, t, steps[1..]);
      case CommitMount => NoEarlySwapOnceMounted(t, steps[1..]);
      case CommitUpdate(_) =>
      case Remove =>
    }
  }

  lemma {:induction false} NoEarlySwapOnceMounted(s: State, steps: seq<Step>)
    requires !s.phase.Rendering? && LegalRun(s, steps)
    ensures !EarlySwap(s, steps)
    decreases |steps|
  {
    if steps != [] {
      NoEarlySwapOnceMounted(After(s, steps[0]), steps[1..]);
    }
  }

  /** A run of one early render: what it swaps in is mounted by the first commit and again by the next. */
  lemma EarlyRun(e: Entry, props: Props, throws: bool, r: Step)
    requires r.Render? && !r.circular && Swaps(Constructed(e, props, throws), r.entry, r.props)
    ensures var s := Constructed(e, props, throws);
      var steps := [r, CommitMount, CommitUpdate(true)];
      LegalRun(s, steps) && Run(s, steps).calls == [WillUnmount(0), DidMount(1), DidMount(1)]
  {
    hide ShallowEqual, Swaps;
    var s := Constructed(e, props, throws);
    var steps := [r, CommitMount, CommitUpdate(true)];
    var s1 := After(s, r);
    var s2 := After(s1, CommitMount);
    var s3 := After(s2, CommitUpdate(true));
    assert steps[1..] == [CommitMount, CommitUpdate(true)] && steps[1..][1..] == [CommitUpdate(true)];
    assert steps[1..][1..][1..] == [];
    assert Run(s2, steps[1..][1..]) == s3;
    assert Run(s1, steps[1..]) == s3;
    assert LegalRun(s2, steps[1..][1..]);
    assert LegalRun(s1, steps[1..]);
  }

  /** One case that breaks the pairing: the class arrives between the construction and the first commit. The base
      instance is unmounted without having been mounted, and the new one is mounted twice. */
  lemma ClassArrivesEarly(name: nat, props: Props)
    ensures var s := Constructed(Entry(None, 0, true), props, false);
      var steps := [Render(Entry(Some(name), 1, true), props, false, false), CommitMount, CommitUpdate(true)];
      LegalRun(s, steps) && Run(s, steps).calls == [WillUnmount(0), DidMount(1), DidMount(1)]
  {
    EarlyRun(Entry(None, 0, true), props, false, Render(Entry(Some(name), 1, true), props, false, false));
  }

  /** The other: nothing arrives and nothing changes, but the constructor failed with a NaN among the properties, so the
      first render tries again. */
  lemma NaNIsTriedAgain(e: Entry, props: Props, throws: bool)
    requires e.logic.Some? && !NaNFree(props)
    ensures var s := Constructed(e, props, true);
      var steps := [Render(e, props, false, throws), CommitMount, CommitUpdate(true)];
      LegalRun(s, steps) && Run(s, steps).calls == [WillUnmount(0), DidMount(1), DidMount(1)]
  {
    ConstructionSwapsIff(e, props, true);
    EarlyRun(e, props, true, Render(e, props, false, throws));
  }
}
