/** A parent's child list under `remove` and `insertBefore`. */
module ChildList {
  import opened Common

  /** `node.remove()`. */
  function Detached<T(==)>(dom: seq<T>, x: T): seq<T> {
    if dom == [] then [] else (if dom[0] == x then [] else [dom[0]]) + Detached(dom[1..], x)
  }

  function PositionOf<T(==)>(dom: seq<T>, x: T): (p: nat)
    ensures p <= |dom| && (p < |dom| ==> dom[p] == x) && forall k :: 0 <= k < p ==> dom[k] != x
  {
    if dom == [] || dom[0] == x then 0 else 1 + PositionOf(dom[1..], x)
  }

  function NextSibling<T(==)>(dom: seq<T>, x: T): Option<T> {
    var p := PositionOf(dom, x);
    if p + 1 < |dom| then Some(dom[p + 1]) else None
  }

  /** `parent.insertBefore(x, ref)`: x leaves its old place first; no ref means the end. */
  function InsertedBefore<T(==)>(dom: seq<T>, x: T, ref: Option<T>): seq<T> {
    var d := Detached(dom, x);
    var p := if ref.Some? then PositionOf(d, ref.value) else |d|;
    d[..p] + [x] + d[p..]
  }

  lemma {:induction false} DetachedNodes<T>(dom: seq<T>, x: T)
    requires Distinct(dom)
    ensures Detached(dom, x) == if x in dom then dom[..PositionOf(dom, x)] + dom[PositionOf(dom, x) + 1..] else dom
    ensures Distinct(Detached(dom, x)) && forall y :: y in Detached(dom, x) <==> y in dom && y != x
  {
    hide Detached, PositionOf;
    DetachedCut(dom, x);
    if x in dom {
      CutMembers(dom, PositionOf(dom, x));
    }
  }

  lemma CutMembers<T>(dom: seq<T>, p: nat)
    requires Distinct(dom) && p < |dom|
    ensures Distinct(dom[..p] + dom[p + 1..])
    ensures forall y :: y in dom[..p] + dom[p + 1..] <==> y in dom && y != dom[p]
  {
    assert dom == dom[..p] + [dom[p]] + dom[p + 1..];
  }

  lemma {:induction false} DetachedCut<T>(dom: seq<T>, x: T)
    requires Distinct(dom)
    ensures PositionOf(dom, x) < |dom| <==> x in dom
    ensures Detached(dom, x) == if x in dom then dom[..PositionOf(dom, x)] + dom[PositionOf(dom, x) + 1..] else dom
  {
    hide Distinct, PositionOf;
    PositionStep(dom, x);
    if dom != [] {
      TailDistinct(dom);
      DetachedCut(dom[1..], x);
      assert dom == [dom[0]] + dom[1..];
      if dom[0] != x && x in dom[1..] {
        CutStep(dom, PositionOf(dom, x));
      }
    }
  }

  lemma PositionStep<T>(dom: seq<T>, x: T)
    ensures PositionOf(dom, x) == if dom == [] || dom[0] == x then 0 else 1 + PositionOf(dom[1..], x)
  {}

  lemma CutStep<T>(dom: seq<T>, p: nat)
    requires 0 < p < |dom|
    ensures [dom[0]] + (dom[1..][..p - 1] + dom[1..][p..]) == dom[..p] + dom[p + 1..]
  {}

  lemma TailDistinct<T>(dom: seq<T>)
    requires Distinct(dom) && dom != []
    ensures Distinct(dom[1..]) && dom[0] !in dom[1..]
  {}

  lemma PositionIs<T>(dom: seq<T>, x: T, p: nat)
    requires Distinct(dom) && p < |dom| && dom[p] == x
    ensures PositionOf(dom, x) == p
  {}

  /** Where the next sibling of the node at p stands. */
  lemma AfterNode<T>(dom: seq<T>, p: nat)
    requires Distinct(dom) && p < |dom|
    ensures PositionOf(dom, dom[p]) == p
    ensures var ref := NextSibling(dom, dom[p]); (if ref.Some? then PositionOf(dom, ref.value) else |dom|) == p + 1
  {
    PositionIs(dom, dom[p], p);
    if p + 1 < |dom| {
      PositionIs(dom, dom[p + 1], p + 1);
    }
  }

  lemma InsertedNodes<T>(d: seq<T>, p: nat, x: T)
    requires Distinct(d) && p <= |d| && x !in d
    ensures Distinct(d[..p] + [x] + d[p..])
  {}
}
