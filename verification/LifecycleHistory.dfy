/** What a wrapper does at a step, over the history of its run: which instance a render leaves, and what the instances
    are told. */
module LifecycleHistory {
  import opened Common
  import opened Lifecycle

  /** A construction the wrapper made. */
  datatype Try = Try(entry: Entry, props: Props, throws: bool)

  /** The latest construction of a run. */
  function LastTry(s: State, steps: seq<Step>, latest: Try): Try
    decreases |steps|
  {
    if steps == [] then latest
    else
      var t := After(s, steps[0]);
      LastTry(t, steps[1..], if t.made > s.made && steps[0].Render? then Try(steps[0].entry, steps[0].props, steps[0].throws) else latest)
  }

  function Wanted(e: Entry): Class {
    match e.logic
    case Some(name) => User(name)
    case None => Base
  }

  predicate Failed(r: Try) {
    r.throws && r.entry.logic.Some?
  }

  function Got(r: Try): Class {
    if Failed(r) then Base else Wanted(r.entry)
  }

  /** The same class and version, and properties that look the same. */
  predicate SameAttempt(r: Try, e: Entry, props: Props) {
    r.entry.logic == e.logic && r.entry.ver == e.ver && ShallowEqual(props, r.props)
  }

  /** What the wrapper remembers is its latest construction. */
  predicate Remembers(s: State, r: Try) {
    && s.made > 0 && s.logic == Instance(s.made - 1, Got(r))
    && (if Failed(r) then s.failedLogic == r.entry.logic && s.failedVer == r.entry.ver && s.failedProps == Some(r.props)
        else s.failedLogic.None? && s.failedProps.None?)
  }

  lemma {:induction false} RunRemembers(s: State, steps: seq<Step>, r: Try)
    requires Remembers(s, r)
    ensures Remembers(Run(s, steps), LastTry(s, steps, r))
    decreases |steps|
  {
    hide ShallowEqual;
    if steps != [] {
      var t := After(s, steps[0]);
      var latest := if t.made > s.made && steps[0].Render? then Try(steps[0].entry, steps[0].props, steps[0].throws) else r;
      RunRemembers(t, steps[1..], latest);
    }
  }

  /** A render that reaches the instance keeps it exactly if it is of the class wanted, or the latest construction failed
      and this would be the same attempt again; otherwise it makes a new one of that class, or of the base class if the
      constructor throws. */
  lemma RenderInstalls(e0: Entry, props0: Props, throws0: bool, steps: seq<Step>, e: Entry, props: Props, throws: bool)
    ensures var s := Run(Constructed(e0, props0, throws0), steps);
      var latest := LastTry(Constructed(e0, props0, throws0), steps, Try(e0, props0, throws0));
      var t := After(s, Render(e, props, false, throws));
      !s.err ==>
        if Wanted(e) == s.logic.cls || (Failed(latest) && SameAttempt(latest, e, props)) then t == s
        else t.logic == Instance(s.made, Got(Try(e, props, throws))) && t.made == s.made + 1
  {
    hide ShallowEqual, Run, LastTry;
    RunRemembers(Constructed(e0, props0, throws0), steps, Try(e0, props0, throws0));
  }

  /** An error shows from the last failure on until the registry notifies. */
  function Shows(steps: seq<Step>, err: bool): bool {
    if steps == [] then err
    else
      var last := steps[|steps| - 1];
      if last.Fail? then true else if last.Recover? then false else Shows(steps[..|steps| - 1], err)
  }

  lemma {:induction false} ErrorShows(s: State, steps: seq<Step>)
    ensures Run(s, steps).err == Shows(steps, s.err)
    decreases |steps|
  {
    if steps != [] {
      ErrorShows(After(s, steps[0]), steps[1..]);
      ShowsFirst(steps, s.err);
      assert After(s, steps[0]).err == Shows([steps[0]], s.err) by {
        assert [steps[0]][..0] == [];
      }
    }
  }

  lemma {:induction false} ShowsFirst(steps: seq<Step>, err: bool)
    requires steps != []
    ensures Shows(steps, err) == Shows(steps[1..], Shows([steps[0]], err))
    decreases |steps|
  {
    var k := |steps| - 1;
    if k == 0 {
      assert steps == [steps[0]] && steps[1..] == [];
    } else {
      ShowsFirst(steps[..k], err);
      assert steps[..k][1..] == steps[1..][..k - 1] && steps[..k][0] == steps[0];
    }
  }

  /** Properties compare equal exactly if they have the same keys but for the children and the same values, none a NaN --
      provided that none of them is undefined. */
  lemma ShallowEqualIff(a: Props, b: Props)
    requires forall key :: key in OwnKeys(a) ==> !a[key].Undefined?
    ensures ShallowEqual(a, b) <==> OwnKeys(a) == OwnKeys(b) && forall key :: key in OwnKeys(a) ==> a[key] == b[key] && !a[key].NaN?
  {
    if ShallowEqual(a, b) {
      assert OwnKeys(a) <= OwnKeys(b);
      SameSize(OwnKeys(a), OwnKeys(b));
    }
  }

  /** Properties that compare equal have the same keys exactly if no undefined one of the first is missing in the second. */
  lemma KeysAgreeIff(a: Props, b: Props)
    requires ShallowEqual(a, b)
    ensures OwnKeys(a) == OwnKeys(b) <==> forall key :: key in OwnKeys(a) && a[key].Undefined? ==> key in OwnKeys(b)
  {
    if forall key :: key in OwnKeys(a) && a[key].Undefined? ==> key in OwnKeys(b) {
      assert OwnKeys(a) <= OwnKeys(b);
      SameSize(OwnKeys(a), OwnKeys(b));
    }
  }

  lemma SameSize(x: set<string>, y: set<string>)
    requires x <= y && |x| == |y|
    ensures x == y
  {
    assert |y - x| == 0;
  }

  /** The condition is needed: an undefined property is equal to one that is not there. */
  lemma UndefinedLooksMissing()
    ensures ShallowEqual(map["x" := Undefined], map["y" := Plain(1)])
  {
    assert OwnKeys(map["x" := Undefined]) == {"x"};
    assert OwnKeys(map["y" := Plain(1)]) == {"y"};
  }

  // ---------------------------------------------------------------- what the instances are told

  /** What a step owes, by the lives so far: the first commit and the next commit with a template and without an error
      mount an instance that was never mounted, other commits tell a mounted one of the update, and a mounted one that is
      replaced or removed is unmounted. */
  ghost function Owed(s: State, step: Step): seq<Call> {
    var id := s.logic.id;
    match step
    case CommitMount => [DidMount(id)]
    case CommitUpdate(tpl) =>
      if LifeOf(s.calls, id) == Alive then [DidUpdate(id)] else if tpl && !s.err then [DidMount(id)] else []
    case Remove => if LifeOf(s.calls, id) == Alive then [WillUnmount(id)] else []
    case Render(_, _, _, _) => if After(s, step).logic.id != id && LifeOf(s.calls, id) == Alive then [WillUnmount(id)] else []
    case _ => []
  }

  lemma StepTells(s: State, step: Step)
    requires Paired(s) && Legal(s, step) && !(s.phase.Rendering? && SwapsAt(s, step))
    ensures After(s, step).calls == s.calls + Owed(s, step)
  {
    hide LifeOf, Swaps;
    assert s.calls + [] == s.calls;
  }

  /** In a run without an early swap every step tells the instances exactly what it owes them. */
  lemma RunTells(e: Entry, props: Props, throws: bool, steps: seq<Step>, step: Step)
    requires LegalRun(Constructed(e, props, throws), steps) && !EarlySwap(Constructed(e, props, throws), steps)
    requires var s := Run(Constructed(e, props, throws), steps);
      Legal(s, step) && !(s.phase.Rendering? && SwapsAt(s, step))
    ensures var s := Run(Constructed(e, props, throws), steps);
      After(s, step).calls == s.calls + Owed(s, step)
  {
    hide Run, LegalRun, EarlySwap, Paired, Legal, SwapsAt, Owed, After;
    FreshIsPaired(e, props, throws);
    RunFromPaired(Constructed(e, props, throws), steps);
    StepTells(Run(Constructed(e, props, throws), steps), step);
  }
}
