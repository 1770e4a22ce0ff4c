/** Slide order under the structural edits of the deck, and where each edit puts the current slide. */
module DeckOrder {
  import opened Common

  type Slide = nat

  // ---------------------------------------------------------------- edits

  /** The slides that are not gone, in order. */
  function Minus(s: seq<Slide>, gone: set<Slide>): seq<Slide> {
    if s == [] then [] else (if s[0] in gone then [] else [s[0]]) + Minus(s[1..], gone)
  }

  /** The slide at i taken out and put back at j. */
  function Moved(s: seq<Slide>, i: nat, j: nat): seq<Slide>
    requires i < |s| && j < |s|
  {
    var t := s[..i] + s[i + 1..];
    t[..j] + [s[i]] + t[j..]
  }

  function Duplicated(s: seq<Slide>, i: nat, copy: Slide): seq<Slide>
    requires i < |s|
  {
    s[..i + 1] + [copy] + s[i + 1..]
  }

  /** A structural edit, as the `dc-op` carries it. */
  datatype Op = Remove(at: nat) | RemoveMany(indices: seq<nat>) | Duplicate(at: nat, copy: Slide) | Move(at: nat, to: nat)

  predicate Strictly(indices: seq<nat>, n: nat) {
    (forall i, j :: 0 <= i < j < |indices| ==> indices[i] < indices[j]) && forall x :: x in indices ==> x < n
  }

  /** The edits the deck lets through: never the whole deck, and a move goes somewhere else. */
  predicate Allowed(op: Op, s: seq<Slide>) {
    match op
    case Remove(i) => i < |s| && |s| > 1
    case RemoveMany(is_) => Strictly(is_, |s|) && 2 <= |is_| < |s|
    case Duplicate(i, copy) => i < |s| && copy !in s
    case Move(i, j) => i < |s| && j < |s| && i != j
  }

  function At(s: seq<Slide>, indices: seq<nat>): set<Slide>
    requires forall x :: x in indices ==> x < |s|
  {
    set x | x in indices :: s[x]
  }

  function Applied(op: Op, s: seq<Slide>): seq<Slide>
    requires Allowed(op, s)
  {
    match op
    case Remove(i) => Minus(s, {s[i]})
    case RemoveMany(is_) => Minus(s, At(s, is_))
    case Duplicate(i, copy) => Duplicated(s, i, copy)
    case Move(i, j) => Moved(s, i, j)
  }

  // ---------------------------------------------------------------- Minus

  lemma {:induction false} MinusConcat(a: seq<Slide>, b: seq<Slide>, gone: set<Slide>)
    ensures Minus(a + b, gone) == Minus(a, gone) + Minus(b, gone)
  {
    if a == [] {
      assert a + b == b;
    } else {
      assert (a + b)[1..] == a[1..] + b;
      MinusConcat(a[1..], b, gone);
    }
  }

  lemma {:induction false} MinusMembers(s: seq<Slide>, gone: set<Slide>)
    ensures forall x :: x in Minus(s, gone) <==> x in s && x !in gone
    ensures Distinct(s) ==> Distinct(Minus(s, gone))
  {
    if s != [] {
      MinusMembers(s[1..], gone);
      assert Distinct(s) ==> Distinct(s[1..]) && s[0] !in s[1..];
    }
  }

  lemma {:induction false} MinusNothing(s: seq<Slide>, gone: set<Slide>)
    requires forall x :: x in s ==> x !in gone
    ensures Minus(s, gone) == s
  {
    if s != [] {
      assert s[0] in s;
      MinusNothing(s[1..], gone);
    }
  }

  /** A slide that stays is found at the number of slides that stay before it. */
  lemma MinusKeeps(s: seq<Slide>, gone: set<Slide>, j: nat)
    requires j < |s| && s[j] !in gone
    ensures |Minus(s[..j], gone)| < |Minus(s, gone)|
    ensures Minus(s, gone)[|Minus(s[..j], gone)|] == s[j]
  {
    assert s == s[..j] + ([s[j]] + s[j + 1..]);
    MinusConcat(s[..j], [s[j]] + s[j + 1..], gone);
    assert ([s[j]] + s[j + 1..])[1..] == s[j + 1..];
  }

  lemma MinusMiddle(a: seq<Slide>, x: Slide, b: seq<Slide>)
    requires x !in a && x !in b
    ensures Minus(a + ([x] + b), {x}) == a + b
  {
    hide Minus;
    MinusConcat(a, [x] + b, {x});
    MinusConcat([x], b, {x});
    MinusOnly(x);
    MinusNothing(a, {x});
    MinusNothing(b, {x});
  }

  lemma MinusOnly(x: Slide)
    ensures Minus([x], {x}) == []
  {
    assert [x][1..] == [];
  }

  lemma OthersDiffer(s: seq<Slide>, i: nat)
    requires i < |s| && Distinct(s)
    ensures s[i] !in s[..i] && s[i] !in s[i + 1..]
  {}

  lemma CutAt(s: seq<Slide>, i: nat)
    requires i < |s|
    ensures s == s[..i] + ([s[i]] + s[i + 1..])
  {}

  lemma RemoveOne(s: seq<Slide>, i: nat)
    requires i < |s| && Distinct(s)
    ensures Minus(s, {s[i]}) == s[..i] + s[i + 1..]
  {
    hide Minus, Distinct;
    var a, x, b := s[..i], s[i], s[i + 1..];
    OthersDiffer(s, i);
    CutAt(s, i);
    MinusMiddle(a, x, b);
  }

  // ---------------------------------------------------------------- the new current index

  /** How many of the indices lie below n. */
  function Below(indices: seq<nat>, n: nat): (k: nat)
    ensures k <= |indices|
  {
    if indices == [] then 0 else (if indices[0] < n then 1 else 0) + Below(indices[1..], n)
  }

  predicate Deleted(indices: seq<nat>, j: int) {
    j >= 0 && j in indices
  }

  /** The index whose slide should be current after the deletion: cur itself, else the nearest survivor after
      it, else the nearest before it. */
  ghost predicate Nearest(indices: seq<nat>, cur: nat, n: nat, t: nat) {
    && t < n && t !in indices
    && if cur !in indices then t == cur
       else if t > cur then forall j :: cur < j < t ==> Deleted(indices, j)
       else t < cur && (forall j :: t < j < cur ==> Deleted(indices, j)) && forall j :: cur < j < n ==> Deleted(indices, j)
  }

  lemma {:induction false} BelowStep(indices: seq<nat>, j: nat)
    requires forall a, b :: 0 <= a < b < |indices| ==> indices[a] < indices[b]
    ensures Below(indices, j + 1) == Below(indices, j) + if j in indices then 1 else 0
  {
    if indices != [] {
      BelowStep(indices[1..], j);
      if indices[0] == j {
        assert forall b :: 0 < b < |indices| ==> indices[b] > j;
      }
    }
  }

  lemma GoneAt(s: seq<Slide>, indices: seq<nat>, j: nat)
    requires Distinct(s) && j < |s| && forall x :: x in indices ==> x < |s|
    ensures s[j] in At(s, indices) <==> j in indices
  {}

  /** Counting the deletions below an index gives its rank among the slides that stay. */
  lemma {:induction false} RankIs(s: seq<Slide>, indices: seq<nat>, j: nat)
    requires Distinct(s) && j <= |s| && Strictly(indices, |s|)
    ensures |Minus(s[..j], At(s, indices))| == j - Below(indices, j)
  {
    var gone := At(s, indices);
    if j == 0 {
      BelowNothing(indices);
    } else {
      RankIs(s, indices, j - 1);
      BelowStep(indices, j - 1);
      assert s[..j] == s[..j - 1] + [s[j - 1]];
      MinusConcat(s[..j - 1], [s[j - 1]], gone);
      GoneAt(s, indices, j - 1);
    }
  }

  lemma {:induction false} BelowNothing(indices: seq<nat>)
    ensures Below(indices, 0) == 0
  {
    if indices != [] {
      BelowNothing(indices[1..]);
    }
  }

  function RemoveIndex(i: nat, cur: nat, n: nat): int {
    if i < cur || (i == cur && i == n - 1) then cur - 1 else cur
  }

  function MoveIndex(i: nat, j: nat, cur: nat): int {
    if cur == i then j else if i < cur && j >= cur then cur - 1 else if i > cur && j <= cur then cur + 1 else cur
  }

  /** A bulk delete keeps its place: the new index names the current slide if it stays, else the nearest slide
      after it that stays, else the nearest before it. */
  lemma BulkDeleteKeepsPlace(s: seq<Slide>, indices: seq<nat>, cur: nat, t: nat)
    requires Distinct(s) && Strictly(indices, |s|) && cur < |s| && Nearest(indices, cur, |s|, t)
    ensures var r := Minus(s, At(s, indices)); 0 <= t - Below(indices, t) < |r| && r[t - Below(indices, t)] == s[t]
  {
    RankIs(s, indices, t);
    GoneAt(s, indices, t);
    MinusKeeps(s, At(s, indices), t);
  }

  /** Where slides stay, the nearest is unique. */
  lemma NearestIsUnique(indices: seq<nat>, cur: nat, n: nat, t: nat, u: nat)
    requires Nearest(indices, cur, n, t) && Nearest(indices, cur, n, u)
    ensures t == u
  {
    assert !Deleted(indices, t) && !Deleted(indices, u);
  }

  /** The single delete computes the same place as a bulk delete of one slide. */
  lemma SingleDeleteIsBulk(i: nat, cur: nat, n: nat, t: nat)
    requires i < n && cur < n && n > 1 && Nearest([i], cur, n, t)
    ensures RemoveIndex(i, cur, n) == t - Below([i], t)
  {
    assert [i][1..] == [];
    assert !Deleted([i], i + 1) && !Deleted([i], i - 1);
  }

  // ---------------------------------------------------------------- move and duplicate

  /** The move takes exactly one slide elsewhere: it stands at its target, all others keep their order. */
  lemma MovedIs(s: seq<Slide>, i: nat, j: nat)
    requires Distinct(s) && i < |s| && j < |s|
    ensures var r := Moved(s, i, j);
      |r| == |s| && Distinct(r) && r[j] == s[i] && Minus(r, {s[i]}) == Minus(s, {s[i]})
  {
    hide Minus;
    var r, t := Moved(s, i, j), s[..i] + s[i + 1..];
    var x := s[i];
    RemoveOne(s, i);
    MinusMembers(s, {x});
    assert t[..j] + t[j..] == t;
    assert forall y :: y in t[..j] || y in t[j..] ==> y in t;
    MiddleIs(t[..j], x, t[j..]);
    MinusMiddle(t[..j], x, t[j..]);
    assert r == t[..j] + ([x] + t[j..]);
  }

  lemma MiddleIs(a: seq<Slide>, x: Slide, b: seq<Slide>)
    requires Distinct(a + b) && x !in a && x !in b
    ensures Distinct(a + [x] + b)
  {
    assert forall k :: 0 <= k < |b| ==> (a + b)[|a| + k] == b[k];
    assert forall k :: 0 <= k < |a| ==> (a + b)[k] == a[k];
  }

  lemma MoveKeepsPlace(s: seq<Slide>, i: nat, j: nat, cur: nat)
    requires i < |s| && j < |s| && cur < |s|
    ensures 0 <= MoveIndex(i, j, cur) < |s| && Moved(s, i, j)[MoveIndex(i, j, cur)] == s[cur]
  {
    hide Moved;
    MovedAt(s, i, j, MoveIndex(i, j, cur));
  }

  /** The target position of a drop in the upper (before) or lower (after) half of the slide at i. */
  function DropTarget(from: nat, i: nat, after: bool): int {
    var to := if after then i + 1 else i;
    if from < to then to - 1 else to
  }

  /** Where each slide is after a move. */
  lemma MovedAt(s: seq<Slide>, i: nat, j: nat, k: nat)
    requires i < |s| && j < |s| && k < |s|
    ensures |Moved(s, i, j)| == |s|
    ensures Moved(s, i, j)[k] ==
      if k == j then s[i] else if k < j then (if k < i then s[k] else s[k + 1]) else if k - 1 < i then s[k - 1] else s[k]
  {}

  /** Dropping a slide on another one leaves it right before, or right after, that one. */
  lemma DropLands(s: seq<Slide>, from: nat, i: nat, after: bool)
    requires from < |s| && i < |s| && from != i
    ensures var to := DropTarget(from, i, after);
      && 0 <= to < |s|
      && var r := Moved(s, from, to);
        |r| == |s| && r[to] == s[from]
        && if after then to > 0 && r[to - 1] == s[i] else to + 1 < |s| && r[to + 1] == s[i]
    ensures DropTarget(from, i, after) == from ==> Moved(s, from, from) == s
  {
    hide Moved;
    var to := DropTarget(from, i, after);
    MovedAt(s, from, to, to);
    if after {
      MovedAt(s, from, to, to - 1);
    } else {
      MovedAt(s, from, to, to + 1);
    }
    MovedNowhere(s, from);
  }

  lemma MovedNowhere(s: seq<Slide>, i: nat)
    requires i < |s|
    ensures Moved(s, i, i) == s
  {}

  lemma DuplicatedIs(s: seq<Slide>, i: nat, copy: Slide)
    requires Distinct(s) && i < |s| && copy !in s
    ensures var r := Duplicated(s, i, copy);
      |r| == |s| + 1 && Distinct(r) && r[i] == s[i] && r[i + 1] == copy && Minus(r, {copy}) == s
  {
    var r := Duplicated(s, i, copy);
    assert r == s[..i + 1] + ([copy] + s[i + 1..]);
    MinusMiddle(s[..i + 1], copy, s[i + 1..]);
    assert s[..i + 1] + s[i + 1..] == s;
  }
}
