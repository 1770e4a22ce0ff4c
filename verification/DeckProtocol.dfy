/** The deck's two ways to edit, by itself and through its host, as steps of a state; they agree over every run. */
module DeckProtocol {
  import opened Common
  import opened DeckOrder

  /** `hash` is the number n of a `#n` location hash; `before` is the index to go back to on a refusal. */
  datatype State = State(slides: seq<Slide>, index: int, hash: Option<int>, locked: bool, before: Option<int>, squelch: bool)

  /** The index each edit asks for. */
  function NewIndex(op: Op, cur: nat, n: nat): int {
    match op
    case Remove(i) => RemoveIndex(i, cur, n)
    case RemoveMany(is_) => var t := NearestIndex(is_, cur, n); t - Below(is_, t)
    case Duplicate(i, _) => i + 1
    case Move(i, j) => MoveIndex(i, j, cur)
  }

  /** The survivor a bulk delete lands on. */
  function NearestIndex(indices: seq<nat>, cur: nat, n: nat): nat {
    if cur !in indices then cur
    else
      var a := After(indices, cur + 1, n);
      if a < n then a
      else
        var b := Before(indices, cur);
        if b.Some? then b.value else 0
  }

  /** The first index from j on that is not deleted, n when there is none. */
  function After(indices: seq<nat>, j: nat, n: nat): (t: nat)
    ensures t >= j && (t < n ==> t !in indices) && forall k :: j <= k < t && k < n ==> Deleted(indices, k)
    ensures t < n || forall k :: j <= k < n ==> Deleted(indices, k)
    decreases n - j
  {
    if j >= n || j !in indices then j else After(indices, j + 1, n)
  }

  /** The last index below j that is not deleted. */
  function Before(indices: seq<nat>, j: nat): (t: Option<nat>)
    ensures t.Some? ==> t.value < j && t.value !in indices && forall k :: t.value < k < j ==> Deleted(indices, k)
    ensures t.None? ==> forall k :: 0 <= k < j ==> Deleted(indices, k)
  {
    if j == 0 then None else if j - 1 !in indices then Some(j - 1) else Before(indices, j - 1)
  }

  lemma {:induction false} AllDeleted(indices: seq<nat>, j: nat)
    requires forall a, b :: 0 <= a < b < |indices| ==> indices[a] < indices[b]
    requires forall k :: 0 <= k < j ==> Deleted(indices, k)
    ensures Below(indices, j) == j
  {
    if j == 0 {
      BelowNothing(indices);
    } else {
      assert Deleted(indices, j - 1);
      AllDeleted(indices, j - 1);
      BelowStep(indices, j - 1);
    }
  }

  /** As long as a slide stays, the deck lands on the nearest one. */
  lemma NearestIndexIsNearest(indices: seq<nat>, cur: nat, n: nat)
    requires Strictly(indices, n) && |indices| < n && cur < n
    ensures Nearest(indices, cur, n, NearestIndex(indices, cur, n))
  {
    if cur in indices {
      var a := After(indices, cur + 1, n);
      var b := Before(indices, cur);
      if a >= n && b.None? {
        assert forall k :: 0 <= k < n ==> k < cur || k == cur || Deleted(indices, k);
        assert Deleted(indices, cur);
        AllDeleted(indices, n);
      }
    }
  }

  // ---------------------------------------------------------------- steps

  /** `_collectSlides` keeps the index inside the deck. */
  function Clamped(index: int, n: nat): int {
    if index >= n then (if n == 0 then 0 else n - 1) else index
  }

  function Collected(s: State, slides: seq<Slide>): State {
    s.(slides := slides, index := Clamped(s.index, |slides|))
  }

  /** `_restoreIndex`: a hash that names a slide wins. */
  function Restored(s: State): State {
    if s.hash.Some? && 0 <= s.hash.value - 1 < |s.slides| then s.(index := s.hash.value - 1) else s
  }

  /** `_applyIndex`: the hash follows the index, on a deck with slides. */
  function Shown(s: State): State {
    if s.slides == [] then s else s.(hash := Some(s.index + 1))
  }

  /** `_onSlotChange` over the slides the element then holds. */
  function SlotChanged(s: State, slides: seq<Slide>): State {
    if s.squelch then s.(squelch := false)
    else Shown(Restored(Collected(s.(locked := false), slides)))
  }

  /** `_emitDcOp` of a structural edit for a host that owns the slides. */
  function Emitted(s: State, ni: int): State {
    var t := s.(locked := true);
    if ni == s.index then t else t.(before := Some(s.index), index := ni, hash := Some(ni + 1))
  }

  /** The host's acknowledgement. */
  function Acked(s: State, applied: bool): State {
    var t := s.(locked := false, before := None);
    if !applied && s.before.Some? then t.(index := s.before.value, hash := Some(s.before.value + 1)) else t
  }

  /** The edit made by the deck itself. */
  function Edited(s: State, slides: seq<Slide>, ni: int): State {
    Shown(Collected(s.(index := ni, squelch := true), slides))
  }

  // ---------------------------------------------------------------- both ways agree

  /** A deck at rest: nothing in flight, the index on a slide and in the hash. */
  predicate AtRest(s: State) {
    && s.slides != [] && Distinct(s.slides) && 0 <= s.index < |s.slides|
    && s.hash == Some(s.index + 1) && !s.locked && s.before.None? && !s.squelch
  }

  /** The edit asks for a slide of the edited deck. */
  lemma NewIndexFits(op: Op, s: seq<Slide>, cur: nat)
    requires Distinct(s) && cur < |s| && Allowed(op, s)
    ensures Distinct(Applied(op, s)) && 0 <= NewIndex(op, cur, |s|) < |Applied(op, s)|
  {
    match op
    case Remove(i) =>
      RemoveOne(s, i);
      MinusMembers(s, {s[i]});
    case RemoveMany(is_) =>
      NearestIndexIsNearest(is_, cur, |s|);
      BulkDeleteKeepsPlace(s, is_, cur, NearestIndex(is_, cur, |s|));
      MinusMembers(s, At(s, is_));
    case Duplicate(i, copy) => DuplicatedIs(s, i, copy);
    case Move(i, j) =>
      MovedIs(s, i, j);
      MoveKeepsPlace(s, i, j, cur);
  }

  /** The local edit followed by the slotchange it caused. */
  function Locally(op: Op, s: State): State
    requires Allowed(op, s.slides) && s.index >= 0
  {
    var next := Applied(op, s.slides);
    SlotChanged(Edited(s, next, NewIndex(op, s.index, |s.slides|)), next)
  }

  /** How the host answers an emitted edit. */
  datatype Answer = RenderThenAck | AckThenRender | RenderOnly | Refuse

  /** The emitted edit, and the host's answer to it. */
  function ViaHost(op: Op, s: State, answer: Answer): State
    requires Allowed(op, s.slides) && s.index >= 0
  {
    var next := Applied(op, s.slides);
    var e := Emitted(s, NewIndex(op, s.index, |s.slides|));
    match answer
    case RenderThenAck => Acked(SlotChanged(e, next), true)
    case AckThenRender => SlotChanged(Acked(e, true), next)
    case RenderOnly => SlotChanged(e, next)
    case Refuse => Acked(e, false)
  }

  /** From rest, an edit through the host that applies it ends where the local edit ends, in whichever order
      the answer comes; a refusal ends where it began; and both ways come back to rest. */
  lemma HostAgrees(op: Op, s: State)
    requires AtRest(s) && Allowed(op, s.slides)
    ensures ViaHost(op, s, RenderThenAck) == ViaHost(op, s, AckThenRender) == Locally(op, s)
    ensures AtRest(Locally(op, s)) && Locally(op, s).slides == Applied(op, s.slides)
    ensures ViaHost(op, s, Refuse) == s
  {
    hide Applied, NewIndex, Distinct;
    NewIndexFits(op, s.slides, s.index);
  }

  /** Without the hash in step, the answer lands right exactly if the edit moves the index (and so writes the
      hash), or the stale hash names no slide of the edited deck, or names the right one. */
  lemma HostAgreesIff(op: Op, s: State)
    requires s.slides != [] && Distinct(s.slides) && 0 <= s.index < |s.slides| && !s.locked && s.before.None? && !s.squelch
    requires Allowed(op, s.slides)
    ensures var next := Applied(op, s.slides);
      ViaHost(op, s, RenderThenAck) == Locally(op, s) <==>
        (NewIndex(op, s.index, |s.slides|) != s.index
         || s.hash.None? || !(0 <= s.hash.value - 1 < |next|) || s.hash.value == s.index + 1)
  {
    hide Applied, NewIndex, Distinct;
    NewIndexFits(op, s.slides, s.index);
  }

  /** For one such deck: deleting its last slide while the hash names the second of three. */
  lemma StaleHashMisleads()
    ensures var s := State([1, 2, 3], 0, Some(2), false, None, false);
      && Allowed(Remove(2), s.slides)
      && ViaHost(Remove(2), s, RenderThenAck).index == 1 && Locally(Remove(2), s).index == 0
  {
    RemoveOne([1, 2, 3], 2);
  }

  /** An answer whose acknowledgement is lost leaves the old index behind. */
  lemma LostAckLeavesIndex(op: Op, s: State)
    requires AtRest(s) && Allowed(op, s.slides)
    ensures ViaHost(op, s, RenderOnly) ==
      Locally(op, s).(before := if NewIndex(op, s.index, |s.slides|) == s.index then None else Some(s.index))
  {
    hide Applied, NewIndex, Distinct;
    NewIndexFits(op, s.slides, s.index);
  }

  /** A refusal restores the deck exactly if the edit moved the index, or no other index was left behind. */
  lemma RefusalRestoresIff(op: Op, s: State)
    requires s.index >= 0 && s.hash == Some(s.index + 1) && !s.locked && !s.squelch && Allowed(op, s.slides)
    ensures ViaHost(op, s, Refuse) == s.(before := None) <==>
      (NewIndex(op, s.index, |s.slides|) != s.index || s.before.None? || s.before == Some(s.index))
  {
    hide Applied, NewIndex, Allowed;
  }

  /** Why prompt acknowledgements matter: after a lost one, refusing a later edit that does not move the index
      throws the deck back to the index it had before the earlier edit. */
  lemma LostAckMisleads(first: Op, second: Op, s: State)
    requires AtRest(s) && Allowed(first, s.slides) && NewIndex(first, s.index, |s.slides|) != s.index
    requires var t := ViaHost(first, s, RenderOnly);
      t.index >= 0 && Allowed(second, t.slides) && NewIndex(second, t.index, |t.slides|) == t.index
    ensures var t := ViaHost(first, s, RenderOnly); ViaHost(second, t, Refuse).index == s.index != t.index
  {
    hide Applied, NewIndex, Distinct;
    NewIndexFits(first, s.slides, s.index);
  }

  // ---------------------------------------------------------------- whole runs

  /** One edit asked for, and the answer it gets; an edit the deck does not let through is skipped. */
  datatype Turn = Turn(op: Op, answer: Answer)

  predicate Prompt(turns: seq<Turn>) {
    forall t :: t in turns ==> t.answer != RenderOnly
  }

  function RunViaHost(turns: seq<Turn>, s: State): State
    requires s.index >= 0 && AtRest(s) && Prompt(turns)
    ensures AtRest(RunViaHost(turns, s))
  {
    if turns == [] then s
    else
      var t := turns[0];
      assert t in turns;
      if !Allowed(t.op, s.slides) then RunViaHost(turns[1..], s)
      else
        HostAgrees(t.op, s);
        RunViaHost(turns[1..], ViaHost(t.op, s, t.answer))
  }

  function RunLocally(turns: seq<Turn>, s: State): State
    requires s.index >= 0 && AtRest(s)
    ensures AtRest(RunLocally(turns, s))
  {
    if turns == [] then s
    else
      var t := turns[0];
      if !Allowed(t.op, s.slides) || t.answer == Refuse then RunLocally(turns[1..], s)
      else
        HostAgrees(t.op, s);
        RunLocally(turns[1..], Locally(t.op, s))
  }

  /** Over any run of edits, each answered before the next, the deck that waits for its host and the deck that
      edits itself go through the same states, the refused edits having no effect. */
  lemma {:induction false} RunsAgree(turns: seq<Turn>, s: State)
    requires AtRest(s) && Prompt(turns)
    ensures RunViaHost(turns, s) == RunLocally(turns, s)
  {
    hide ViaHost, Locally, Allowed, Applied, Distinct;
    if turns != [] {
      var t := turns[0];
      assert t in turns;
      if Allowed(t.op, s.slides) {
        HostAgrees(t.op, s);
        RunsAgree(turns[1..], ViaHost(t.op, s, t.answer));
      } else {
        RunsAgree(turns[1..], s);
      }
    }
  }

  // ---------------------------------------------------------------- runs with lost acknowledgements

  /** What the deck shows, the index kept for a refusal left aside. */
  function Face(s: State): State {
    s.(before := None)
  }

  /** A deck at rest, but for an index that a lost acknowledgement may have left behind. */
  predicate Settled(s: State) {
    AtRest(Face(s)) && s.index >= 0
  }

  /** The guard of a refusal: the edit has moved the index, or no other index was left behind. */
  predicate Restores(op: Op, s: State)
    requires s.index >= 0
  {
    NewIndex(op, s.index, |s.slides|) != s.index || s.before.None? || s.before == Some(s.index)
  }

  function HostStep(t: Turn, s: State): State
    requires s.index >= 0
  {
    if Allowed(t.op, s.slides) then ViaHost(t.op, s, t.answer) else s
  }

  function LocalStep(t: Turn, s: State): State
    requires s.index >= 0
  {
    if Allowed(t.op, s.slides) && t.answer != Refuse then Locally(t.op, s) else s
  }

  /** A turn is harmless if it is no refusal of an edit, or one that restores. */
  predicate Harmless(t: Turn, s: State)
    requires s.index >= 0
  {
    Allowed(t.op, s.slides) && t.answer == Refuse ==> Restores(t.op, s)
  }

  /** One turn shows the same both ways exactly if it is harmless, and then both decks are settled again. */
  lemma TurnAgreesIff(t: Turn, s: State)
    requires Settled(s)
    ensures Face(HostStep(t, s)) == LocalStep(t, Face(s)) <==> Harmless(t, s)
    ensures Harmless(t, s) ==> Settled(HostStep(t, s)) && Settled(LocalStep(t, Face(s)))
  {
    hide Applied, NewIndex, Distinct;
    if Allowed(t.op, s.slides) {
      NewIndexFits(t.op, s.slides, s.index);
    }
  }

  /** After each turn of the run both decks show the same. */
  predicate InStep(turns: seq<Turn>, s: State)
    requires Settled(s)
  {
    turns == [] ||
    (TurnAgreesIff(turns[0], s);
     Face(HostStep(turns[0], s)) == LocalStep(turns[0], Face(s)) && InStep(turns[1..], HostStep(turns[0], s)))
  }

  /** Every refusal in the run restores. */
  predicate RefusalsRestore(turns: seq<Turn>, s: State)
    requires Settled(s)
  {
    turns == [] ||
    (TurnAgreesIff(turns[0], s);
     Harmless(turns[0], s) && RefusalsRestore(turns[1..], HostStep(turns[0], s)))
  }

  /** Over any run, lost acknowledgements included, the deck that waits for its host shows after every turn what the
      deck that edits itself shows, exactly if every refusal restores. */
  lemma {:induction false} RunsAgreeIff(turns: seq<Turn>, s: State)
    requires Settled(s)
    ensures InStep(turns, s) <==> RefusalsRestore(turns, s)
  {
    hide HostStep, LocalStep, Harmless, AtRest;
    if turns != [] {
      TurnAgreesIff(turns[0], s);
      if Harmless(turns[0], s) {
        RunsAgreeIff(turns[1..], HostStep(turns[0], s));
      }
    }
  }

  /** Prompt acknowledgements make every refusal restore. */
  lemma {:induction false} PromptRunsRestore(turns: seq<Turn>, s: State)
    requires AtRest(s) && s.index >= 0 && Prompt(turns)
    ensures Settled(s) && RefusalsRestore(turns, s)
  {
    hide ViaHost, Locally, Allowed, Applied, Distinct, NewIndex;
    assert Face(s) == s;
    if turns != [] {
      var t := turns[0];
      assert t in turns;
      if Allowed(t.op, s.slides) {
        HostAgrees(t.op, s);
      }
      PromptRunsRestore(turns[1..], HostStep(t, s));
    }
  }
}
