/** The deck element itself: its light DOM, its fields, and the methods that edit them in place. */
module DeckStage {
  import opened ChildList
  import opened DeckOrder
  import opened DeckProtocol
  import opened Common

  // ---------------------------------------------------------------- light DOM

  /** A child of the deck: a slide, or a template, script, style or text node. */
  datatype Node = SlideNode(id: Slide) | Other(id: nat)

  function SlidesOf(dom: seq<Node>): seq<Slide> {
    if dom == [] then [] else (if dom[0].SlideNode? then [dom[0].id] else []) + SlidesOf(dom[1..])
  }

  lemma {:induction false} SlidesConcat(a: seq<Node>, b: seq<Node>)
    ensures SlidesOf(a + b) == SlidesOf(a) + SlidesOf(b)
  {
    if a == [] {
      assert a + b == b;
    } else {
      var head := if a[0].SlideNode? then [a[0].id] else [];
      assert (a + b)[1..] == a[1..] + b && (a + b)[0] == a[0];
      SlidesConcat(a[1..], b);
      assert head + (SlidesOf(a[1..]) + SlidesOf(b)) == (head + SlidesOf(a[1..])) + SlidesOf(b);
    }
  }

  lemma {:induction false} SlidesMembers(dom: seq<Node>)
    ensures forall x :: x in SlidesOf(dom) <==> SlideNode(x) in dom
    ensures Distinct(dom) ==> Distinct(SlidesOf(dom))
  {
    if dom != [] {
      SlidesMembers(dom[1..]);
      assert forall x :: SlideNode(x) in dom <==> SlideNode(x) == dom[0] || SlideNode(x) in dom[1..];
      if Distinct(dom) {
        assert Distinct(dom[1..]) && dom[0] !in dom[1..];
      }
    }
  }

  lemma {:induction false} DetachedSlides(dom: seq<Node>, x: Slide)
    ensures SlidesOf(Detached(dom, SlideNode(x))) == Minus(SlidesOf(dom), {x})
  {
    hide SlidesOf, Minus;
    SlidesStep(dom);
    if dom == [] {
      MinusNothing([], {x});
    } else {
      var more, rest := SlidesOf(dom[1..]), Detached(dom[1..], SlideNode(x));
      DetachedSlides(dom[1..], x);
      SlidesStep([dom[0]] + rest);
      assert ([dom[0]] + rest)[1..] == rest && [] + rest == rest;
      if dom[0].SlideNode? {
        MinusConcat([dom[0].id], more, {x});
        MinusLone(dom[0].id, x);
      }
    }
  }

  lemma SlidesStep(dom: seq<Node>)
    ensures SlidesOf(dom) ==
      if dom == [] then [] else if dom[0].SlideNode? then [dom[0].id] + SlidesOf(dom[1..]) else SlidesOf(dom[1..])
  {
    assert dom != [] ==> [] + SlidesOf(dom[1..]) == SlidesOf(dom[1..]);
  }

  lemma MinusLone(y: Slide, x: Slide)
    ensures Minus([y], {x}) == if y == x then [] else [y]
  {
    assert [y][1..] == [];
  }

  /** A slide's place among the slides is its place among the nodes, less the other nodes. */
  lemma SlidePlace(dom: seq<Node>, p: nat, k: nat)
    requires Distinct(dom) && p < |dom| && k < |SlidesOf(dom)| && dom[p] == SlideNode(SlidesOf(dom)[k])
    ensures SlidesOf(dom[..p]) == SlidesOf(dom)[..k] && SlidesOf(dom[..p + 1]) == SlidesOf(dom)[..k + 1]
  {
    hide SlidesOf, Distinct;
    var s := SlidesOf(dom);
    var a, b := SlidesOf(dom[..p]), SlidesOf(dom[p + 1..]);
    SlidesMembers(dom);
    SlidesAround(dom, p, s[k]);
    OneSplit(s, a, b, k);
  }

  lemma SlidesAround(dom: seq<Node>, p: nat, x: Slide)
    requires p < |dom| && dom[p] == SlideNode(x)
    ensures SlidesOf(dom) == SlidesOf(dom[..p]) + [x] + SlidesOf(dom[p + 1..])
    ensures SlidesOf(dom[..p + 1]) == SlidesOf(dom[..p]) + [x]
  {
    hide SlidesOf;
    assert dom[..p + 1] == dom[..p] + [dom[p]];
    assert dom == dom[..p + 1] + dom[p + 1..];
    SlidesConcat(dom[..p + 1], dom[p + 1..]);
    SlidesConcat(dom[..p], [dom[p]]);
    LoneSlide(x);
  }

  lemma OneSplit(s: seq<Slide>, a: seq<Slide>, b: seq<Slide>, k: nat)
    requires Distinct(s) && k < |s| && s == a + [s[k]] + b
    ensures a == s[..k] && a + [s[k]] == s[..k + 1] && b == s[k + 1..]
  {
    assert s[|a|] == s[k];
  }

  lemma LoneSlide(x: Slide)
    ensures SlidesOf([SlideNode(x)]) == [x]
  {
    assert [SlideNode(x)][1..] == [];
  }

  lemma InsertedSlides(d: seq<Node>, p: nat, x: Slide)
    requires p <= |d|
    ensures SlidesOf(d[..p] + [SlideNode(x)] + d[p..]) == SlidesOf(d[..p]) + [x] + SlidesOf(d[p..])
    ensures SlidesOf(d[..p]) + SlidesOf(d[p..]) == SlidesOf(d)
  {
    SlidesConcat(d[..p] + [SlideNode(x)], d[p..]);
    SlidesConcat(d[..p], [SlideNode(x)]);
    LoneSlide(x);
    SlidesConcat(d[..p], d[p..]);
    assert d == d[..p] + d[p..];
  }

  /** Putting a copy after a slide. */
  lemma DuplicateInDom(dom: seq<Node>, i: nat, copy: Slide)
    requires Distinct(dom) && i < |SlidesOf(dom)| && SlideNode(copy) !in dom
    ensures var s := SlidesOf(dom);
      var r := InsertedBefore(dom, SlideNode(copy), NextSibling(dom, SlideNode(s[i])));
      Distinct(r) && SlidesOf(r) == Duplicated(s, i, copy)
  {
    hide SlidesOf, Distinct, Detached, PositionOf;
    var s := SlidesOf(dom);
    SlidesMembers(dom);
    assert s[i] in s;
    var y := SlideNode(s[i]);
    var p := PositionOf(dom, y);
    DetachedNodes(dom, SlideNode(copy));
    AfterNode(dom, p);
    SlidePlace(dom, p, i);
    InsertedSlides(dom, p + 1, copy);
    InsertedNodes(dom, p + 1, SlideNode(copy));
    assert SlidesOf(dom[p + 1..]) == s[i + 1..] by {
      assert s == s[..i + 1] + SlidesOf(dom[p + 1..]);
    }
  }

  /** Moving a slide, by the reference node the deck picks. */
  lemma MoveInDom(dom: seq<Node>, i: nat, j: nat)
    requires Distinct(dom) && i < |SlidesOf(dom)| && j < |SlidesOf(dom)| && i != j
    ensures var s := SlidesOf(dom);
      var ref := if j < i then Some(SlideNode(s[j])) else NextSibling(dom, SlideNode(s[j]));
      var r := InsertedBefore(dom, SlideNode(s[i]), ref);
      Distinct(r) && SlidesOf(r) == Moved(s, i, j)
  {
    hide SlidesOf, Distinct, Detached, PositionOf, NextSibling;
    var s := SlidesOf(dom);
    var x, y := SlideNode(s[i]), SlideNode(s[j]);
    var ref := if j < i then Some(y) else NextSibling(dom, y);
    var d := Detached(dom, x);
    var t := s[..i] + s[i + 1..];
    var q := if ref.Some? then PositionOf(d, ref.value) else |d|;
    WithoutMoved(dom, i);
    if j < i {
      MoveBack(dom, i, j);
    } else {
      MoveOn(dom, i, j);
    }
    InsertedSlides(d, q, s[i]);
    InsertedNodes(d, q, x);
    assert SlidesOf(d[q..]) == t[j..] by {
      assert t == t[..j] + SlidesOf(d[q..]);
    }
  }

  /** The DOM without the moved slide. */
  lemma WithoutMoved(dom: seq<Node>, i: nat)
    requires Distinct(dom) && i < |SlidesOf(dom)|
    ensures var s := SlidesOf(dom);
      var d := Detached(dom, SlideNode(s[i]));
      && SlideNode(s[i]) in dom && Distinct(d) && SlideNode(s[i]) !in d && SlidesOf(d) == s[..i] + s[i + 1..]
      && forall k :: 0 <= k < |s| && k != i ==> SlideNode(s[k]) in d
  {
    hide SlidesOf, Distinct, Detached, Minus;
    var s := SlidesOf(dom);
    SlidesMembers(dom);
    assert s[i] in s;
    DetachedNodes(dom, SlideNode(s[i]));
    DetachedSlides(dom, s[i]);
    RemoveOne(s, i);
    assert forall k :: 0 <= k < |s| && k != i ==> s[k] in s && s[k] != s[i];
  }

  /** There the reference node stands after the first j slides: moving back... */
  lemma MoveBack(dom: seq<Node>, i: nat, j: nat)
    requires Distinct(dom) && j < i < |SlidesOf(dom)|
    ensures var s := SlidesOf(dom);
      var d := Detached(dom, SlideNode(s[i]));
      SlidesOf(d[..PositionOf(d, SlideNode(s[j]))]) == (s[..i] + s[i + 1..])[..j]
  {
    hide SlidesOf, Distinct, Detached, PositionOf;
    var s := SlidesOf(dom);
    WithoutMoved(dom, i);
    var d := Detached(dom, SlideNode(s[i]));
    SlidePlace(d, PositionOf(d, SlideNode(s[j])), j);
  }

  /** ... and moving on. */
  lemma MoveOn(dom: seq<Node>, i: nat, j: nat)
    requires Distinct(dom) && i < j < |SlidesOf(dom)|
    ensures var s := SlidesOf(dom);
      var d := Detached(dom, SlideNode(s[i]));
      var ref := NextSibling(dom, SlideNode(s[j]));
      var q := if ref.Some? then PositionOf(d, ref.value) else |d|;
      q <= |d| && SlidesOf(d[..q]) == (s[..i] + s[i + 1..])[..j]
  {
    hide SlidesOf, Distinct, Detached, PositionOf, NextSibling;
    var s := SlidesOf(dom);
    var x, y := SlideNode(s[i]), SlideNode(s[j]);
    WithoutMoved(dom, i);
    WithoutMoved(dom, j);
    var d := Detached(dom, x);
    var p := PositionOf(d, y);
    assert (s[..i] + s[i + 1..])[j - 1] == s[j];
    SlidePlace(d, p, j - 1);
    AfterNode(d, p);
    SameNeighbour(dom, x, y, i, j);
  }

  /** Taking out an earlier slide does not change what follows a later one. */
  lemma SameNeighbour(dom: seq<Node>, x: Node, y: Node, i: nat, j: nat)
    requires Distinct(dom) && i < j < |SlidesOf(dom)| && x == SlideNode(SlidesOf(dom)[i]) && y == SlideNode(SlidesOf(dom)[j])
    requires x in dom && y in dom && PositionOf(dom, x) < |dom| && PositionOf(dom, y) < |dom|
    ensures NextSibling(dom, y) == NextSibling(Detached(dom, x), y)
  {
    hide SlidesOf, Detached, PositionOf, Distinct;
    var p, q := PositionOf(dom, x), PositionOf(dom, y);
    PlacesInOrder(dom, p, q, i, j);
    DetachedNodes(dom, x);
    var d := Detached(dom, x);
    CutShift(dom, p, q);
    PositionIs(d, y, q - 1);
  }

  lemma CutShift(dom: seq<Node>, p: nat, q: nat)
    requires p < q < |dom|
    ensures var d := dom[..p] + dom[p + 1..];
      |d| == |dom| - 1 && d[q - 1] == dom[q] && (q + 1 < |dom| ==> d[q] == dom[q + 1])
  {}

  lemma PlacesInOrder(dom: seq<Node>, p: nat, q: nat, i: nat, j: nat)
    requires Distinct(dom) && i < j < |SlidesOf(dom)| && p < |dom| && q < |dom|
    requires dom[p] == SlideNode(SlidesOf(dom)[i]) && dom[q] == SlideNode(SlidesOf(dom)[j])
    ensures p < q
  {
    hide SlidesOf, Distinct;
    SlidePlace(dom, p, i);
    SlidePlace(dom, q, j);
    if q <= p {
      assert dom[..p] == dom[..q] + dom[q..p];
      SlidesConcat(dom[..q], dom[q..p]);
    }
  }

  function Ids(els: seq<Slide>): set<Slide> {
    set x | x in els
  }

  function DetachedAll(dom: seq<Node>, els: seq<Slide>): seq<Node>
    decreases |els|
  {
    if els == [] then dom else DetachedAll(Detached(dom, SlideNode(els[0])), els[1..])
  }

  lemma {:induction false} MinusTwice(s: seq<Slide>, a: set<Slide>, b: set<Slide>)
    ensures Minus(Minus(s, a), b) == Minus(s, a + b)
  {
    if s != [] {
      MinusTwice(s[1..], a, b);
      if s[0] !in a {
        assert ([s[0]] + Minus(s[1..], a))[1..] == Minus(s[1..], a);
      }
      assert [] + Minus(s[1..], a) == Minus(s[1..], a);
    }
  }

  lemma {:induction false} DetachedAllSlides(dom: seq<Node>, els: seq<Slide>)
    requires Distinct(dom)
    ensures Distinct(DetachedAll(dom, els))
    ensures SlidesOf(DetachedAll(dom, els)) == Minus(SlidesOf(dom), Ids(els))
    decreases |els|
  {
    hide Distinct, SlidesOf, Detached, Minus;
    if els == [] {
      MinusNothing(SlidesOf(dom), Ids(els));
    } else {
      DetachedNodes(dom, SlideNode(els[0]));
      DetachedSlides(dom, els[0]);
      DetachedAllSlides(Detached(dom, SlideNode(els[0])), els[1..]);
      MinusTwice(SlidesOf(dom), {els[0]}, Ids(els[1..]));
      assert {els[0]} + Ids(els[1..]) == Ids(els);
    }
  }

  // ---------------------------------------------------------------- the element

  /** Who owns the light DOM: the deck itself, a host runtime, or a host that is streaming a template. */
  datatype Runtime = NoRuntime | Quiet | Streaming

  /** What asking for an edit does to the state. */
  function Asked(op: Op, rt: Runtime, s: State): State
    requires Allowed(op, s.slides) && s.index >= 0
  {
    var ni := NewIndex(op, s.index, |s.slides|);
    match rt
    case Streaming => s
    case Quiet => Emitted(s, ni)
    case NoRuntime => Edited(s, Applied(op, s.slides), ni)
  }

  function Elements(s: seq<Slide>, indices: seq<nat>): seq<Slide>
    requires forall x :: x in indices ==> x < |s|
  {
    seq(|indices|, k requires 0 <= k < |indices| => assert indices[k] in indices; s[indices[k]])
  }

  /** The light DOM after a local edit. */
  function Rebuilt(op: Op, dom: seq<Node>): seq<Node>
    requires Allowed(op, SlidesOf(dom))
  {
    var s := SlidesOf(dom);
    match op
    case Remove(i) => Detached(dom, SlideNode(s[i]))
    case RemoveMany(is_) => DetachedAll(dom, Elements(s, is_))
    case Duplicate(i, copy) => InsertedBefore(dom, SlideNode(copy), NextSibling(dom, SlideNode(s[i])))
    case Move(i, j) =>
      InsertedBefore(dom, SlideNode(s[i]), if j < i then Some(SlideNode(s[j])) else NextSibling(dom, SlideNode(s[j])))
  }

  /** The rebuilt DOM holds the edited slides, and the new index names one of them. */
  lemma RebuiltSlides(op: Op, dom: seq<Node>, cur: nat)
    requires Distinct(dom) && Allowed(op, SlidesOf(dom)) && cur < |SlidesOf(dom)|
    requires op.Duplicate? ==> SlideNode(op.copy) !in dom
    ensures Distinct(Rebuilt(op, dom)) && SlidesOf(Rebuilt(op, dom)) == Applied(op, SlidesOf(dom))
    ensures Distinct(Applied(op, SlidesOf(dom)))
    ensures 0 <= NewIndex(op, cur, |SlidesOf(dom)|) < |Applied(op, SlidesOf(dom))|
  {
    hide Distinct, SlidesOf, Detached, Minus, InsertedBefore, NewIndex, DetachedAll, NextSibling;
    var s := SlidesOf(dom);
    SlidesMembers(dom);
    NewIndexFits(op, s, cur);
    match op
    case Remove(i) =>
      DetachedNodes(dom, SlideNode(s[i]));
      DetachedSlides(dom, s[i]);
    case RemoveMany(is_) =>
      var els := Elements(s, is_);
      DetachedAllSlides(dom, els);
      ElementsAt(s, is_);
    case Duplicate(i, copy) => DuplicateInDom(dom, i, copy);
    case Move(i, j) => MoveInDom(dom, i, j);
  }

  lemma ElementsAt(s: seq<Slide>, indices: seq<nat>)
    requires forall x :: x in indices ==> x < |s|
    ensures Ids(Elements(s, indices)) == At(s, indices)
  {
    var els := Elements(s, indices);
    forall x | x in At(s, indices) ensures x in els {
      var i :| i in indices && s[i] == x;
      var k :| 0 <= k < |indices| && indices[k] == i;
      assert els[k] == x;
    }
  }

  /** The distinct indices of a list that name a slide, in order. */
  function Picked(list: seq<int>, n: nat): seq<nat> {
    if n == 0 then [] else Picked(list, n - 1) + if n - 1 in list then [n - 1] else []
  }

  lemma {:induction false} PickedIs(list: seq<int>, n: nat)
    ensures Strictly(Picked(list, n), n) && |Picked(list, n)| <= n
    ensures forall x: nat :: x in Picked(list, n) <==> x < n && x in list
  {
    if n > 0 {
      PickedIs(list, n - 1);
      var r := Picked(list, n - 1);
      assert forall x :: x in r ==> x < n - 1;
      assert forall k :: 0 <= k < |r| ==> r[k] in r;
    }
  }

  lemma NearestOfKept(indices: seq<nat>, cur: nat, n: nat)
    requires cur !in indices
    ensures NearestIndex(indices, cur, n) == cur
  {}

  lemma NextDetached(dom: seq<Node>, els: seq<Slide>, k: nat)
    requires k <= |els|
    ensures k == |els| ==> DetachedAll(dom, els[k..]) == dom
    ensures k < |els| ==> DetachedAll(dom, els[k..]) == DetachedAll(Detached(dom, SlideNode(els[k])), els[k + 1..])
  {
    assert k < |els| ==> els[k..][1..] == els[k + 1..];
  }

  class Deck {
    var dom: seq<Node>
    var slides: seq<Slide>
    var index: int
    var hash: Option<int>
    var locked: bool
    var before: Option<int>
    var squelch: bool
    var selected: set<Slide>
    var sent: seq<Op>

    function Now(): State
      reads this
    {
      State(slides, index, hash, locked, before, squelch)
    }

    /** The slide list is the DOM's, and a slide is current where there is one. */
    predicate Synced()
      reads this
    {
      Distinct(dom) && slides == SlidesOf(dom) && (slides != [] ==> 0 <= index < |slides|)
    }

    constructor (children: seq<Node>)
      ensures dom == children && Now() == State([], 0, None, false, None, false) && selected == {} && sent == []
    {
      dom, slides, index, hash := children, [], 0, None;
      locked, before, squelch, selected, sent := false, None, false, {}, [];
    }

    /** Slides that are gone leave the selection. */
    method CollectSlides()
      modifies `slides, `index, `selected
      ensures Now() == Collected(old(Now()), SlidesOf(dom))
      ensures selected == set x | x in old(selected) && x in slides
    {
      slides := SlidesOf(dom);
      selected := set x | x in selected && x in slides;
      if index >= |slides| {
        index := if |slides| == 0 then 0 else |slides| - 1;
      }
    }

    method RestoreIndex()
      modifies `index
      ensures Now() == Restored(old(Now()))
    {
      if hash.Some? {
        var n := hash.value - 1;
        if 0 <= n < |slides| {
          index := n;
        }
      }
    }

    method ApplyIndex()
      modifies `hash
      ensures Now() == Shown(old(Now()))
    {
      if slides != [] {
        hash := Some(index + 1);
      }
    }

    method OnSlotChange()
      modifies `slides, `index, `selected, `hash, `locked, `squelch
      ensures Now() == SlotChanged(old(Now()), SlidesOf(dom))
      ensures selected == if old(squelch) then old(selected) else set x | x in old(selected) && x in slides
    {
      if squelch {
        squelch := false;
        return;
      }
      locked := false;
      CollectSlides();
      RestoreIndex();
      ApplyIndex();
    }

    /** The host's `__dc_op_ack` message. */
    method OnAck(applied: bool)
      modifies `index, `hash, `locked, `before
      ensures Now() == Acked(old(Now()), applied)
    {
      locked := false;
      if !applied && before.Some? {
        index := before.value;
        hash := Some(index + 1);
      }
      before := None;
    }

    /** True when the caller must not edit the DOM itself. */
    method EmitDcOp(op: Op, ni: int, rt: Runtime) returns (emitOnly: bool)
      modifies `index, `hash, `locked, `before, `sent
      ensures emitOnly == !rt.NoRuntime?
      ensures Now() == if rt.Quiet? then Emitted(old(Now()), ni) else old(Now())
      ensures sent == if rt.Streaming? then old(sent) else old(sent) + [op]
    {
      if rt.Streaming? {
        return true;
      }
      if rt.Quiet? {
        locked := true;
        if ni != index {
          before := Some(index);
          index := ni;
          hash := Some(ni + 1);
        }
      }
      sent := sent + [op];
      return rt.Quiet?;
    }

    /** The end of every local edit: adopt the changed DOM and show the new current slide. */
    method Adopt(children: seq<Node>, ni: int)
      modifies `dom, `slides, `index, `hash, `squelch, `selected
      ensures Now() == Edited(old(Now()), SlidesOf(children), ni) && dom == children
    {
      index := ni;
      squelch := true;
      dom := children;
      CollectSlides();
      ApplyIndex();
    }

    /** What every edit does: nothing while locked, when the edit is not allowed or a template streams; else the
        host is told, and the deck moves on optimistically or edits its own DOM. */
    twostate predicate Does(op: Op, rt: Runtime)
      reads this
    {
      var s := old(Now());
      if s.locked || !Allowed(op, s.slides) || s.index < 0 || rt.Streaming? then
        Now() == s && dom == old(dom) && sent == old(sent)
      else
        && Now() == Asked(op, rt, s) && sent == old(sent) + [op]
        && (rt.Quiet? ==> dom == old(dom))
        && (rt.NoRuntime? && old(Synced()) ==> dom == Rebuilt(op, old(dom)) && Synced())
    }

    method DeleteSlide(i: int, rt: Runtime)
      requires !locked ==> Synced()
      modifies this
      ensures if i >= 0 then Does(Remove(i), rt) else Now() == old(Now()) && dom == old(dom) && sent == old(sent)
    {
      hide Distinct, SlidesOf, Detached, Minus;
      if locked || i < 0 || i >= |slides| || |slides| <= 1 {
        return;
      }
      RebuiltSlides(Remove(i), dom, index);
      var slide := SlideNode(slides[i]);
      var ni := if i < index || (i == index && i == |slides| - 1) then index - 1 else index;
      var emitOnly := EmitDcOp(Remove(i), ni, rt);
      if emitOnly {
        return;
      }
      Adopt(Detached(dom, slide), ni);
    }

    /** Where a bulk delete of the current slide lands, -1 when nothing stays. */
    method Survivor(indices: seq<nat>) returns (t: int)
      requires 0 <= index < |slides| && index in indices
      ensures t >= 0 ==> t == NearestIndex(indices, index, |slides|)
      ensures t < 0 ==> forall k :: 0 <= k < |slides| ==> Deleted(indices, k)
    {
      var cur, n: nat := index, |slides|;
      var j := cur + 1;
      while j < n
        invariant cur < j <= n && After(indices, j, n) == After(indices, cur + 1, n)
      {
        if j !in indices {
          return j;
        }
        j := j + 1;
      }
      assert Deleted(indices, cur);
      var k := cur;
      while k > 0
        invariant 0 <= k <= cur && Before(indices, k) == Before(indices, cur)
      {
        if k - 1 !in indices {
          return k - 1;
        }
        k := k - 1;
      }
      return -1;
    }

    /** Deletes a set of slides by one edit; a single one by the plain delete. */
    method DeleteSlides(list: seq<int>, rt: Runtime)
      requires !locked ==> Synced()
      modifies this
      ensures var is_ := Picked(list, |old(slides)|);
        if is_ == [] || |is_| >= |old(slides)| then Now() == old(Now()) && dom == old(dom) && sent == old(sent)
        else Does(if |is_| == 1 then Remove(is_[0]) else RemoveMany(is_), rt)
    {
      hide Distinct, SlidesOf, Picked, DetachedAll, Below, NearestIndex;
      if locked {
        return;
      }
      var indices := Picked(list, |slides|);
      PickedIs(list, |slides|);
      if indices == [] || |indices| >= |slides| {
        return;
      }
      if |indices| == 1 {
        DeleteSlide(indices[0], rt);
        return;
      }
      if rt.Streaming? {
        return;
      }
      var els := Elements(slides, indices);
      NearestIndexIsNearest(indices, index, |slides|);
      assert !Deleted(indices, NearestIndex(indices, index, |slides|));
      RebuiltSlides(RemoveMany(indices), dom, index);
      var ni: int := 0;
      if index !in indices {
        NearestOfKept(indices, index, |slides|);
        ni := index - Below(indices, index);
      } else {
        var t := Survivor(indices);
        ni := if t < 0 then 0 else t - Below(indices, t);
      }
      var emitOnly := EmitDcOp(RemoveMany(indices), ni, rt);
      if emitOnly {
        return;
      }
      var children := dom;
      ghost var whole := DetachedAll(dom, els);
      assert els[0..] == els;
      for k := 0 to |els|
        invariant DetachedAll(children, els[k..]) == whole
        modifies {}
      {
        NextDetached(children, els, k);
        children := Detached(children, SlideNode(els[k]));
      }
      NextDetached(children, els, |els|);
      Adopt(children, ni);
    }

    method DuplicateSlide(i: int, copy: Slide, rt: Runtime)
      requires !locked ==> Synced() && SlideNode(copy) !in dom
      modifies this
      ensures if i >= 0 then Does(Duplicate(i, copy), rt) else Now() == old(Now()) && dom == old(dom) && sent == old(sent)
    {
      hide Distinct, SlidesOf, InsertedBefore, NextSibling;
      if locked || i < 0 || i >= |slides| || rt.Streaming? {
        return;
      }
      SlidesMembers(dom);
      RebuiltSlides(Duplicate(i, copy), dom, index);
      var slide := SlideNode(slides[i]);
      var emitOnly := EmitDcOp(Duplicate(i, copy), i + 1, rt);
      if emitOnly {
        return;
      }
      Adopt(InsertedBefore(dom, SlideNode(copy), NextSibling(dom, slide)), i + 1);
    }

    method MoveSlide(i: nat, j: int, rt: Runtime)
      requires !locked ==> Synced() && (0 <= j < |slides| && j != i ==> i < |slides|)
      modifies this
      ensures if j >= 0 then Does(Move(i, j), rt) else Now() == old(Now()) && dom == old(dom) && sent == old(sent)
    {
      hide Distinct, SlidesOf, InsertedBefore, NextSibling, Moved;
      if locked || j < 0 || j >= |slides| || j == i {
        return;
      }
      RebuiltSlides(Move(i, j), dom, index);
      var cur := index;
      var ni := if cur == i then j else if i < cur && j >= cur then cur - 1 else if i > cur && j <= cur then cur + 1 else cur;
      var slide := SlideNode(slides[i]);
      var emitOnly := EmitDcOp(Move(i, j), ni, rt);
      if emitOnly {
        return;
      }
      var ref := if j < i then Some(SlideNode(slides[j])) else NextSibling(dom, SlideNode(slides[j]));
      Adopt(InsertedBefore(dom, slide, ref), ni);
    }
  }
}
