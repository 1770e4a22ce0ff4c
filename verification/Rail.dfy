/** The thumbnail rail: reconciling thumbs with slides in place, and the skip-aware numbering and steps. */
module Rail {
  import opened ChildList
  import opened DeckOrder
  import opened Common
  import opened Text

  // ---------------------------------------------------------------- putting children in order

  /** The children that are not in xs, in their order. */
  function Others<T(==)>(dom: seq<T>, xs: seq<T>): seq<T> {
    if dom == [] then [] else (if dom[0] in xs then [] else [dom[0]]) + Others(dom[1..], xs)
  }

  lemma {:induction false} OthersOne<T>(dom: seq<T>, xs: seq<T>, x: T)
    ensures Others(dom, xs + [x]) == Detached(Others(dom, xs), x)
  {
    if dom != [] {
      OthersOne(dom[1..], xs, x);
      var rest := Others(dom[1..], xs);
      assert [] + rest == rest;
      if dom[0] !in xs {
        assert ([dom[0]] + rest)[1..] == rest;
        assert [] + Detached(rest, x) == Detached(rest, x);
      }
    }
  }

  lemma {:induction false} OthersMembers<T>(dom: seq<T>, xs: seq<T>)
    ensures forall y :: y in Others(dom, xs) <==> y in dom && y !in xs
    ensures Distinct(dom) ==> Distinct(Others(dom, xs))
  {
    if dom != [] {
      OthersMembers(dom[1..], xs);
      assert Distinct(dom) ==> Distinct(dom[1..]) && dom[0] !in dom[1..];
    }
  }

  lemma {:induction false} OthersOfNone<T>(dom: seq<T>, xs: seq<T>)
    requires forall y :: y in dom ==> y !in xs
    ensures Others(dom, xs) == dom
  {
    if dom != [] {
      assert dom[0] in dom;
      OthersOfNone(dom[1..], xs);
    }
  }

  lemma {:induction false} DetachedConcat<T>(a: seq<T>, b: seq<T>, x: T)
    requires x !in a
    ensures Detached(a + b, x) == a + Detached(b, x)
  {
    if a == [] {
      assert a + b == b;
    } else {
      assert (a + b)[1..] == a[1..] + b && a == [a[0]] + a[1..] && a[0] in a;
      DetachedConcat(a[1..], b, x);
    }
  }

  /** One turn of the ordering loop: the wanted child comes to stand after the ones already in order. */
  lemma Placed<T>(done: seq<T>, rest: seq<T>, want: T)
    requires Distinct(done + rest) && want !in done
    ensures var cur := done + rest;
      var r := if rest != [] && rest[0] == want then cur
               else InsertedBefore(cur, want, if rest != [] then Some(rest[0]) else None);
      r == done + [want] + Detached(rest, want)
  {
    var cur := done + rest;
    DetachedConcat(done, rest, want);
    if rest != [] {
      assert cur[|done|] == rest[0];
      assert Distinct(rest) by {
        assert forall i :: 0 <= i < |rest| ==> cur[|done| + i] == rest[i];
      }
      if rest[0] == want {
        FirstDetached(rest);
      } else {
        RestAfter(done, rest, want);
      }
    } else {
      assert cur == done;
    }
  }

  lemma FirstDetached<T>(rest: seq<T>)
    requires Distinct(rest) && rest != []
    ensures rest == [rest[0]] + Detached(rest, rest[0])
  {
    DetachedNodes(rest, rest[0]);
  }

  lemma RestAfter<T>(done: seq<T>, rest: seq<T>, want: T)
    requires Distinct(done + rest) && Distinct(rest) && want !in done && rest != [] && rest[0] != want
    requires Detached(done + rest, want) == done + Detached(rest, want)
    ensures InsertedBefore(done + rest, want, Some(rest[0])) == done + [want] + Detached(rest, want)
  {
    hide Detached;
    var d, t := done + Detached(rest, want), Detached(rest, want);
    DetachedNodes(done + rest, want);
    DetachedNodes(rest, want);
    DetachedStep(rest, want);
    assert d[|done|] == rest[0];
    PositionIs(d, rest[0], |done|);
  }

  lemma DetachedStep<T>(rest: seq<T>, x: T)
    requires rest != [] && rest[0] != x
    ensures Detached(rest, x) == [rest[0]] + Detached(rest[1..], x)
  {}

  lemma {:induction false} OthersTwice<T>(dom: seq<T>, xs: seq<T>, ys: seq<T>)
    ensures Others(Others(dom, xs), ys) == Others(dom, xs + ys)
  {
    if dom != [] {
      OthersTwice(dom[1..], xs, ys);
      var rest := Others(dom[1..], xs);
      assert [] + rest == rest && [] + Others(rest, ys) == Others(rest, ys);
      if dom[0] !in xs {
        assert ([dom[0]] + rest)[1..] == rest;
      }
    }
  }

  lemma {:induction false} OthersSame<T>(dom: seq<T>, xs: seq<T>, ys: seq<T>)
    requires forall y :: y in dom ==> (y in xs <==> y in ys)
    ensures Others(dom, xs) == Others(dom, ys)
  {
    if dom != [] {
      assert dom[0] in dom;
      OthersSame(dom[1..], xs, ys);
    }
  }

  // ---------------------------------------------------------------- numbers of visible slides

  /** How many of the first k slides are not skipped. */
  function Visible(slides: seq<Slide>, skipped: set<Slide>, k: nat): (v: nat)
    requires k <= |slides|
    ensures v <= k
  {
    if k == 0 then 0 else Visible(slides, skipped, k - 1) + if slides[k - 1] in skipped then 0 else 1
  }

  /** What the rail paints next to slide i. */
  function Label(slides: seq<Slide>, skipped: set<Slide>, i: nat): string
    requires i < |slides|
  {
    if slides[i] in skipped then "" else Decimal(Visible(slides, skipped, i) + 1)
  }

  lemma NoneVisible(slides: seq<Slide>, skipped: set<Slide>)
    ensures Visible(slides, skipped, 0) == 0
  {}

  lemma NumberStep(slides: seq<Slide>, skipped: set<Slide>, k: nat)
    requires k < |slides|
    ensures Visible(slides, skipped, k + 1) == Visible(slides, skipped, k) + if slides[k] in skipped then 0 else 1
    ensures Label(slides, skipped, k) == if slides[k] in skipped then "" else Decimal(Visible(slides, skipped, k) + 1)
  {}

  lemma {:induction false} VisibleGrows(slides: seq<Slide>, skipped: set<Slide>, i: nat, j: nat)
    requires i <= j <= |slides|
    ensures Visible(slides, skipped, i) <= Visible(slides, skipped, j)
    decreases j - i
  {
    if i < j {
      VisibleGrows(slides, skipped, i, j - 1);
    }
  }

  /** The numbers are contiguous: each of 1..total is painted on exactly one slide, in order, and no other is. */
  lemma {:induction false} NumbersAreContiguous(slides: seq<Slide>, skipped: set<Slide>, v: nat) returns (i: nat)
    requires 1 <= v <= Visible(slides, skipped, |slides|)
    ensures i < |slides| && Label(slides, skipped, i) == Decimal(v)
    ensures forall j :: 0 <= j < |slides| && Label(slides, skipped, j) == Decimal(v) ==> j == i
  {
    hide Decimal;
    i := Numbered(slides, skipped, v, |slides|);
    forall j | 0 <= j < |slides| && Label(slides, skipped, j) == Decimal(v) ensures j == i {
      if slides[j] !in skipped {
        DecimalInjective(Visible(slides, skipped, j) + 1, v);
        if j < i {
          VisibleGrows(slides, skipped, j + 1, i);
        } else if i < j {
          VisibleGrows(slides, skipped, i + 1, j);
        }
      } else {
        NoEmptyNumeral(v);
      }
    }
  }

  lemma NoEmptyNumeral(v: nat)
    ensures Decimal(v) != ""
  {}

  lemma {:induction false} Numbered(slides: seq<Slide>, skipped: set<Slide>, v: nat, k: nat) returns (i: nat)
    requires k <= |slides| && 1 <= v <= Visible(slides, skipped, k)
    ensures i < k && slides[i] !in skipped && Visible(slides, skipped, i) + 1 == v
  {
    if v <= Visible(slides, skipped, k - 1) {
      i := Numbered(slides, skipped, v, k - 1);
    } else {
      i := k - 1;
    }
  }

  // ---------------------------------------------------------------- steps over skipped slides

  /** The nearest slide in a direction that is not skipped. */
  ghost predicate IsStep(slides: seq<Slide>, skipped: set<Slide>, from: int, dir: int, to: int) {
    && 0 <= to < |slides| && slides[to] !in skipped
    && if dir > 0 then from < to && forall k :: from < k < to && 0 <= k ==> slides[k] in skipped
       else to < from && forall k :: to < k < from && k < |slides| ==> slides[k] in skipped
  }

  /** Going on and back returns to a slide that is not skipped, and only there. */
  lemma NextThenPrevious(slides: seq<Slide>, skipped: set<Slide>, from: int, to: int)
    requires 0 <= from < |slides| && slides[from] !in skipped && IsStep(slides, skipped, from, 1, to)
    ensures forall back :: IsStep(slides, skipped, to, -1, back) <==> back == from
  {
    assert IsStep(slides, skipped, to, -1, from);
  }

  // ---------------------------------------------------------------- the rail

  class Thumb {
    const slide: Slide
    var i: nat
    var skip: bool
    var marked: bool
    var num: string

    constructor (s: Slide)
      ensures slide == s
    {
      slide, i, skip, marked, num := s, 0, false, false, "";
    }
  }

  /** No two thumbs for one slide. */
  predicate Keyed(thumbs: seq<Thumb>) {
    forall i, j :: 0 <= i < j < |thumbs| ==> thumbs[i].slide != thumbs[j].slide
  }

  predicate ThumbsFor(thumbs: seq<Thumb>, slides: seq<Slide>) {
    |thumbs| == |slides| && forall k :: 0 <= k < |slides| ==> thumbs[k].slide == slides[k]
  }

  /** Each thumb of next is an old one, or new to the rail; a slide that had a thumb keeps it. */
  predicate Reuses(next: seq<Thumb>, thumbs: seq<Thumb>, slides: seq<Slide>) {
    && ThumbsFor(next, slides)
    && forall t :: t in thumbs && t.slide in slides ==> t in next
  }

  /** The thumbs whose slide is gone. */
  function Orphans(thumbs: seq<Thumb>, slides: seq<Slide>): seq<Thumb> {
    if thumbs == [] then []
    else Orphans(thumbs[..|thumbs| - 1], slides)
         + if thumbs[|thumbs| - 1].slide in slides then [] else [thumbs[|thumbs| - 1]]
  }

  lemma {:induction false} OrphansAre(thumbs: seq<Thumb>, slides: seq<Slide>)
    ensures forall t :: t in Orphans(thumbs, slides) <==> t in thumbs && t.slide !in slides
  {
    if thumbs != [] {
      OrphansAre(thumbs[..|thumbs| - 1], slides);
      assert thumbs == thumbs[..|thumbs| - 1] + [thumbs[|thumbs| - 1]];
    }
  }

  /** What is left of the children once the orphans are gone and the new thumbs are set apart is what was never a
      thumb. */
  lemma LeftOvers(children: seq<Thumb>, thumbs: seq<Thumb>, next: seq<Thumb>, slides: seq<Slide>)
    requires Reuses(next, thumbs, slides) && forall t :: t in next && t in children ==> t in thumbs
    ensures Others(Others(children, Orphans(thumbs, slides)), next) == Others(children, thumbs)
  {
    hide Others;
    OrphansAre(thumbs, slides);
    OthersTwice(children, Orphans(thumbs, slides), next);
    forall t | t in children ensures t in Orphans(thumbs, slides) + next <==> t in thumbs {
      if t in next {
        var k :| 0 <= k < |next| && next[k] == t;
      }
    }
    OthersSame(children, Orphans(thumbs, slides) + next, thumbs);
  }

  lemma ThumbsDistinct(thumbs: seq<Thumb>, slides: seq<Slide>)
    requires ThumbsFor(thumbs, slides) && Distinct(slides)
    ensures Distinct(thumbs) && Keyed(thumbs)
  {}

  /** The ordering loop's state: the first k thumbs in place, before the other children. */
  predicate InOrder(children: seq<Thumb>, next: seq<Thumb>, k: nat, all: seq<Thumb>)
    requires k <= |next|
  {
    children == next[..k] + Others(all, next[..k])
  }

  lemma OrderStarts(next: seq<Thumb>, all: seq<Thumb>)
    ensures InOrder(all, next, 0, all)
  {
    OthersOfNone(all, next[..0]);
  }

  lemma OrderEnds(children: seq<Thumb>, next: seq<Thumb>, all: seq<Thumb>)
    requires InOrder(children, next, |next|, all)
    ensures children == next + Others(all, next)
  {
    assert next[..|next|] == next;
  }

  lemma OrderStep(children: seq<Thumb>, next: seq<Thumb>, k: nat, all: seq<Thumb>)
    requires k < |next| && InOrder(children, next, k, all) && Distinct(next) && Distinct(all)
    ensures |children| >= k
    ensures var at := if k < |children| then Some(children[k]) else None;
      InOrder(if at == Some(next[k]) then children else InsertedBefore(children, next[k], at), next, k + 1, all)
  {
    hide Others, InsertedBefore, Detached, Distinct;
    var done, rest := next[..k], Others(all, next[..k]);
    DistinctBefore(next, k);
    OthersMembers(all, done);
    DistinctJoin(done, rest);
    Placed(done, rest, next[k]);
    OthersOne(all, done, next[k]);
    assert next[..k + 1] == done + [next[k]];
  }

  lemma DistinctBefore<T>(a: seq<T>, k: nat)
    requires Distinct(a) && k < |a|
    ensures Distinct(a[..k]) && a[k] !in a[..k]
  {}

  lemma DistinctJoin<T>(a: seq<T>, b: seq<T>)
    requires Distinct(a) && Distinct(b) && forall y :: y in b ==> y !in a
    ensures Distinct(a + b)
  {
    forall i, j | 0 <= i < j < |a + b| ensures (a + b)[i] != (a + b)[j] {
      if i < |a| <= j {
        assert b[j - |a|] in b;
      }
    }
  }

  class Rail {
    var slides: seq<Slide>
    var skipped: set<Slide>
    var selected: set<Slide>
    var index: int
    var thumbs: seq<Thumb>
    var children: seq<Thumb>
    var count: string
    var total: string

    constructor ()
      ensures slides == [] && thumbs == [] && children == []
    {
      slides, skipped, index, thumbs, children, count, total := [], {}, 0, [], [], "1", "1";
    }

    /** A thumb for each slide, the old one where there is one. */
    method Matched() returns (next: seq<Thumb>)
      requires Distinct(slides) && Keyed(thumbs)
      ensures Reuses(next, thumbs, slides)
      ensures forall t :: t in next ==> t in thumbs || fresh(t)
    {
      var bySlide: map<Slide, Thumb> := map[];
      for k := 0 to |thumbs|
        invariant forall s :: s in bySlide ==> bySlide[s] in thumbs && bySlide[s].slide == s
        invariant forall m :: 0 <= m < k ==> thumbs[m].slide in bySlide && bySlide[thumbs[m].slide] == thumbs[m]
      {
        bySlide := bySlide[thumbs[k].slide := thumbs[k]];
      }
      next := [];
      for k := 0 to |slides|
        invariant |next| == k && forall m :: 0 <= m < k ==> next[m].slide == slides[m]
        invariant forall t :: t in next ==> t in thumbs || fresh(t)
        invariant forall m :: 0 <= m < k && slides[m] in bySlide ==> next[m] == bySlide[slides[m]]
      {
        var t: Thumb;
        if slides[k] in bySlide {
          t := bySlide[slides[k]];
        } else {
          t := new Thumb(slides[k]);
        }
        next := next + [t];
      }
      forall t | t in thumbs && t.slide in slides ensures t in next {
        var m :| 0 <= m < |thumbs| && thumbs[m] == t;
        var k :| 0 <= k < |slides| && slides[k] == t.slide;
        assert next[k] == t;
      }
    }

    method DropOrphans()
      modifies `children
      ensures children == Others(old(children), Orphans(thumbs, slides))
    {
      hide Others;
      OthersOfNone(children, []);
      for k := 0 to |thumbs|
        invariant children == Others(old(children), Orphans(thumbs[..k], slides))
      {
        assert thumbs[..k + 1][..k] == thumbs[..k];
        assert Orphans(thumbs[..k], slides) + [] == Orphans(thumbs[..k], slides);
        if thumbs[k].slide !in slides {
          OthersOne(old(children), Orphans(thumbs[..k], slides), thumbs[k]);
          children := Detached(children, thumbs[k]);
        }
      }
      assert thumbs[..|thumbs|] == thumbs;
    }

    /** The thumb knows its place and shows whether its slide is skipped and selected. */
    predicate Marked(t: Thumb, k: nat)
      reads this`skipped, this`selected, t
    {
      t.i == k && t.skip == (t.slide in skipped) && t.marked == (t.slide in selected)
    }

    /** Puts the thumbs in order and marks them. */
    method Arrange(next: seq<Thumb>)
      requires ThumbsFor(next, slides) && Distinct(next) && Distinct(children)
      modifies `children, set t | t in next
      ensures children == next + Others(old(children), next)
      ensures forall k :: 0 <= k < |next| ==> Marked(next[k], k)
    {
      hide Others, InsertedBefore, Distinct, InOrder;
      ghost var all := children;
      OrderStarts(next, all);
      for k := 0 to |next|
        invariant InOrder(children, next, k, all)
        invariant forall m :: 0 <= m < k ==> Marked(next[m], m)
      {
        OrderStep(children, next, k, all);
        var want := next[k];
        var at := if k < |children| then Some(children[k]) else None;
        if at != Some(want) {
          children := InsertedBefore(children, want, at);
        }
        ThumbOnce(next, k);
        want.i, want.skip, want.marked := k, want.slide in skipped, want.slide in selected;
      }
      OrderEnds(children, next, all);
    }

    /** Reuses the thumb of each slide that stays, makes the missing ones, drops the orphans and puts the rest in
        order: the rail's children are the thumbs of the slides, before whatever else it held. */
    method RenderRail()
      requires Distinct(slides) && Keyed(thumbs) && Distinct(children) && forall t :: t in thumbs ==> t in children
      modifies `thumbs, `children, set t | t in thumbs
      ensures Reuses(thumbs, old(thumbs), slides) && Keyed(thumbs)
      ensures forall t :: t in thumbs ==> t in old(thumbs) || fresh(t)
      ensures children == thumbs + Others(old(children), old(thumbs))
      ensures Distinct(children) && forall t :: t in thumbs ==> t in children
      ensures forall k :: 0 <= k < |thumbs| ==> Marked(thumbs[k], k) && thumbs[k].num == Label(slides, skipped, k)
    {
      hide Others, Label, Distinct, Orphans;
      var next := Matched();
      ThumbsDistinct(next, slides);
      LeftOvers(children, thumbs, next, slides);
      OthersMembers(children, Orphans(thumbs, slides));
      DropOrphans();
      Arrange(next);
      OthersMembers(old(children), old(thumbs));
      DistinctJoin(next, Others(old(children), old(thumbs)));
      thumbs := next;
      RenumberRail();
    }

    /** Writes the numbers and nothing else. */
    method RenumberRail()
      requires ThumbsFor(thumbs, slides) && Distinct(thumbs)
      modifies (set t | t in thumbs)`num
      ensures forall k :: 0 <= k < |thumbs| ==> thumbs[k].num == Label(slides, skipped, k)
    {
      hide Distinct, Visible, Label, Decimal;
      var v := 0;
      NoneVisible(slides, skipped);
      for k := 0 to |thumbs|
        invariant v == Visible(slides, skipped, k)
        invariant forall m :: 0 <= m < k ==> thumbs[m].num == Label(slides, skipped, m)
        invariant thumbs == old(thumbs) && slides == old(slides) && skipped == old(skipped)
      {
        ThumbOnce(thumbs, k);
        NumberStep(slides, skipped, k);
        if thumbs[k].slide in skipped {
          thumbs[k].num := "";
        } else {
          v := v + 1;
          thumbs[k].num := Decimal(v);
        }
      }
    }

    /** The number the delete confirmation shows for slide i, none when there is no such slide. */
    method SlideLabel(i: int) returns (s: string)
      ensures s == if 0 <= i < |slides| then Label(slides, skipped, i) else ""
    {
      if i < 0 || i >= |slides| || slides[i] in skipped {
        return "";
      }
      var v := 0;
      for k := 0 to i + 1
        invariant v == Visible(slides, skipped, k)
      {
        if slides[k] !in skipped {
          v := v + 1;
        }
      }
      return Decimal(v);
    }

    /** The index names no slide, or a skipped one. */
    predicate Unnumbered()
      reads this
    {
      !(0 <= index < |slides|) || slides[index] in skipped
    }

    /** The overlay counter: the rail's number of the current slide, a dash where it has none, over the total. */
    method SyncCount()
      modifies `count, `total
      ensures if slides == [] then count == "1" && total == "1"
        else
          && count == (if Unnumbered() then "\U{2013}" else Label(slides, skipped, index))
          && total == Decimal(Visible(slides, skipped, |slides|))
    {
      hide Visible, Label, Decimal;
      if slides == [] {
        count, total := "1", "1";
        return;
      }
      var pos, n := 0, 0;
      NoneVisible(slides, skipped);
      for k := 0 to |slides|
        invariant n == Visible(slides, skipped, k)
        invariant k > index && !Unnumbered() ==> pos == Visible(slides, skipped, index) + 1
        modifies {}
      {
        NumberStep(slides, skipped, k);
        if slides[k] !in skipped {
          n := n + 1;
          if k <= index {
            pos := n;
          }
        }
      }
      if !Unnumbered() {
        NumberStep(slides, skipped, index);
      }
      count := if Unnumbered() then "\U{2013}" else Decimal(pos);
      total := Decimal(n);
    }

    /** Moves to the nearest slide in the direction that is not skipped, or stays when there is none. */
    method Advance(dir: int)
      requires (dir == 1 || dir == -1) && (slides != [] ==> 0 <= index < |slides|)
      modifies `index
      ensures if exists t :: IsStep(slides, skipped, old(index), dir, t) then IsStep(slides, skipped, old(index), dir, index)
              else index == old(index)
    {
      if slides == [] {
        return;
      }
      var i := index + dir;
      while 0 <= i < |slides| && slides[i] in skipped
        invariant -1 <= i <= |slides|
        invariant if dir > 0 then index < i && forall k :: index < k < i ==> slides[k] in skipped
                  else i < index && forall k :: i < k < index ==> slides[k] in skipped
        decreases if dir > 0 then |slides| - i else i + 1
        modifies {}
      {
        i := i + dir;
      }
      if 0 <= i < |slides| {
        assert IsStep(slides, skipped, index, dir, i);
        index := i;
      }
    }
  }

  lemma ThumbOnce(next: seq<Thumb>, k: nat)
    requires Distinct(next) && k < |next|
    ensures forall m :: 0 <= m < |next| && m != k ==> next[m] != next[k]
  {}
}
