/** The keys React gets for the children of a deck, so that slides keep their identity when they move. */
module DeckKeys {
  import opened Common
  import opened Text

  /** What the walk tells apart: `template`-like helpers, control flow, and everything else. */
  datatype Tag = Helper | Flow | Plain

  datatype Child = TextNode(blank: bool) | Element(tag: Tag, slideId: Option<string>) | OtherNode

  predicate HexDigit(c: char) {
    '0' <= c <= '9' || 'a' <= c <= 'f'
  }

  predicate ValidId(v: string) {
    |v| == 8 && forall i :: 0 <= i < |v| ==> HexDigit(v[i])
  }

  predicate IsSlide(c: Child) {
    c.Element? && c.tag.Plain?
  }

  predicate IsBlank(c: Child) {
    c.TextNode? && c.blank
  }

  /** Each child can be keyed: blank text, helpers, and slides with valid ids of their own. */
  predicate Keyable(cs: seq<Child>) {
    && (forall i :: 0 <= i < |cs| ==>
         && (cs[i].TextNode? ==> cs[i].blank) && (cs[i].Element? ==> !cs[i].tag.Flow?)
         && (IsSlide(cs[i]) ==> cs[i].slideId.Some? && ValidId(cs[i].slideId.value)))
    && forall i, j :: 0 <= i < j < |cs| && IsSlide(cs[i]) && IsSlide(cs[j]) ==> cs[i].slideId != cs[j].slideId
  }

  // ---------------------------------------------------------------- keys

  /** The id of the next element at or after j, if that is a slide. */
  function Upcoming(cs: seq<Child>, j: nat): Option<string>
    requires j <= |cs|
    decreases |cs| - j
  {
    if j == |cs| then None
    else if cs[j].Element? then (if cs[j].tag.Plain? then cs[j].slideId else None)
    else Upcoming(cs, j + 1)
  }

  function BlankBase(id: Option<string>): string {
    if id.Some? && id.value != "" then "omid-ws:" + id.value else "omid-ws:aux"
  }

  /** How many blank texts before j share j's base. */
  function Earlier(cs: seq<Child>, base: string, j: nat): nat
    requires j <= |cs|
  {
    if j == 0 then 0
    else Earlier(cs, base, j - 1) + if IsBlank(cs[j - 1]) && BlankBase(Upcoming(cs, j - 1)) == base then 1 else 0
  }

  function Numbered(base: string, n: nat): string {
    if n == 0 then base else base + ":" + Decimal(n)
  }

  /** The key of child j of a keyable deck, as a string. */
  function KeyOf(cs: seq<Child>, j: nat): string
    requires j < |cs|
  {
    if IsBlank(cs[j]) then
      var base := BlankBase(Upcoming(cs, j));
      Numbered(base, Earlier(cs, base, j))
    else if IsSlide(cs[j]) && cs[j].slideId.Some? then "omid:" + cs[j].slideId.value
    else Decimal(j)
  }

  /** The ids of the slides before j. */
  function SeenIds(cs: seq<Child>, j: nat): set<string>
    requires j <= |cs|
  {
    set i | 0 <= i < j && IsSlide(cs[i]) && cs[i].slideId.Some? :: cs[i].slideId.value
  }

  method WalkDeckChildren(cs: seq<Child>) returns (keys: Option<seq<string>>)
    ensures keys.Some? <==> Keyable(cs)
    ensures keys.Some? ==> |keys.value| == |cs| && forall j :: 0 <= j < |cs| ==> keys.value[j] == KeyOf(cs, j)
  {
    hide BlankBase, Decimal, Numbered, ValidId;
    var next := new Option<string>[|cs|];
    var upcoming: Option<string> := None;
    var j := |cs|;
    while j > 0
      invariant 0 <= j <= |cs| && upcoming == Upcoming(cs, j)
      invariant forall k :: j <= k < |cs| ==> next[k] == Upcoming(cs, k)
    {
      j := j - 1;
      if cs[j].Element? {
        upcoming := if cs[j].tag.Plain? then cs[j].slideId else None;
      }
      next[j] := upcoming;
    }
    var seen: set<string> := {};
    var wsSeen: map<string, nat> := map[];
    var out: seq<string> := [];
    while j < |cs|
      invariant 0 <= j <= |cs| && Keyable(cs[..j])
      invariant seen == SeenIds(cs, j)
      invariant forall base :: (if base in wsSeen then wsSeen[base] else 0) == Earlier(cs, base, j)
      invariant |out| == j && forall k :: 0 <= k < j ==> out[k] == KeyOf(cs, k)
      invariant forall k :: 0 <= k < |cs| ==> next[k] == Upcoming(cs, k)
    {
      var c := cs[j];
      if c.TextNode? {
        if !c.blank {
          return None;
        }
        var base := BlankBase(next[j]);
        var n := if base in wsSeen then wsSeen[base] else 0;
        wsSeen := wsSeen[base := n + 1];
        out := out + [Numbered(base, n)];
      } else if !c.Element? || c.tag.Helper? {
        out := out + [Decimal(j)];
      } else {
        if c.tag.Flow? || c.slideId.None? || !ValidId(c.slideId.value) || c.slideId.value in seen {
          NotKeyable(cs, j);
          return None;
        }
        seen := seen + {c.slideId.value};
        out := out + ["omid:" + c.slideId.value];
      }
      OneMoreKeyable(cs, j);
      j := j + 1;
    }
    assert cs[..j] == cs;
    return Some(out);
  }

  lemma NotKeyable(cs: seq<Child>, j: nat)
    requires j < |cs| && cs[j].Element? && !cs[j].tag.Helper?
    requires cs[j].tag.Flow? || cs[j].slideId.None? || !ValidId(cs[j].slideId.value) || cs[j].slideId.value in SeenIds(cs, j)
    ensures !Keyable(cs)
  {
    if cs[j].slideId.Some? && cs[j].slideId.value in SeenIds(cs, j) {
      var i :| 0 <= i < j && IsSlide(cs[i]) && cs[i].slideId.Some? && cs[i].slideId.value == cs[j].slideId.value;
      assert cs[j].tag.Flow? || IsSlide(cs[j]);
    }
  }

  lemma OneMoreKeyable(cs: seq<Child>, j: nat)
    requires j < |cs| && Keyable(cs[..j])
    requires cs[j].TextNode? ==> cs[j].blank
    requires cs[j].Element? ==> !cs[j].tag.Flow?
    requires IsSlide(cs[j]) ==> cs[j].slideId.Some? && ValidId(cs[j].slideId.value) && cs[j].slideId.value !in SeenIds(cs, j)
    ensures Keyable(cs[..j + 1])
  {
    hide ValidId;
    var t := cs[..j + 1];
    assert forall i :: 0 <= i < j ==> t[i] == cs[..j][i];
    forall i | 0 <= i < j && IsSlide(t[i]) && IsSlide(t[j]) ensures t[i].slideId != t[j].slideId {
      assert t[i].slideId.value in SeenIds(cs, j);
    }
  }

  // ---------------------------------------------------------------- no two keys are the same

  predicate GoodBase(base: string) {
    base == "omid-ws:aux" || (|base| == 16 && base[..8] == "omid-ws:" && ValidId(base[8..]))
  }

  lemma {:induction false} UpcomingIsValid(cs: seq<Child>, j: nat)
    requires Keyable(cs) && j <= |cs|
    ensures Upcoming(cs, j).Some? ==> ValidId(Upcoming(cs, j).value)
    decreases |cs| - j
  {
    if j < |cs| && !cs[j].Element? {
      UpcomingIsValid(cs, j + 1);
    } else if j < |cs| {
      assert cs[j].tag.Plain? ==> IsSlide(cs[j]);
    }
  }

  lemma BaseIsGood(cs: seq<Child>, j: nat)
    requires Keyable(cs) && j <= |cs|
    ensures GoodBase(BlankBase(Upcoming(cs, j)))
  {
    hide Upcoming, Keyable;
    UpcomingIsValid(cs, j);
    var id := Upcoming(cs, j);
    if id.Some? {
      var b := "omid-ws:" + id.value;
      assert b[..8] == "omid-ws:" && b[8..] == id.value;
    }
  }

  lemma NumberedInjective(a: string, m: nat, b: string, n: nat)
    requires GoodBase(a) && GoodBase(b) && Numbered(a, m) == Numbered(b, n)
    ensures a == b && m == n
  {
    hide GoodBase, Decimal;
    BasesDiffer(a, m, b, n);
    NumeralIsVisible(m);
    NumeralIsVisible(n);
    if m > 0 && n > 0 {
      assert (a + ":" + Decimal(m))[|a| + 1..] == Decimal(m);
      assert (b + ":" + Decimal(n))[|b| + 1..] == Decimal(n);
      DecimalInjective(m, n);
    }
  }

  lemma NumeralIsVisible(n: nat)
    ensures Decimal(n) != ""
  {}

  lemma BasesDiffer(a: string, m: nat, b: string, n: nat)
    requires GoodBase(a) && GoodBase(b) && Numbered(a, m) == Numbered(b, n)
    ensures a == b
  {
    hide Decimal;
    var x, y := Numbered(a, m), Numbered(b, n);
    assert x[..|a|] == a && y[..|b|] == b;
    assert |a| == 16 ==> a[9] == a[8..][1];
    assert |b| == 16 ==> b[9] == b[8..][1];
  }

  lemma {:induction false} EarlierGrows(cs: seq<Child>, base: string, i: nat, j: nat)
    requires i < j <= |cs| && IsBlank(cs[i]) && BlankBase(Upcoming(cs, i)) == base
    ensures Earlier(cs, base, i) < Earlier(cs, base, j)
    decreases j
  {
    hide BlankBase, Upcoming;
    if i < j - 1 {
      EarlierGrows(cs, base, i, j - 1);
    }
  }

  datatype Kind = Blank | SlideKey | Position

  function KindOf(c: Child): Kind {
    if IsBlank(c) then Blank else if IsSlide(c) then SlideKey else Position
  }

  /** How each kind of key begins. */
  lemma KeyBegins(cs: seq<Child>, j: nat)
    requires Keyable(cs) && j < |cs|
    ensures var k := KeyOf(cs, j);
      match KindOf(cs[j])
      case Blank => |k| >= 8 && k[4] == '-'
      case SlideKey => |k| == 13 && k[4] == ':'
      case Position => k != "" && IsDigit(k[0])
    ensures !KindOf(cs[j]).Position? ==> KeyOf(cs, j)[0] == 'o'
  {
    hide Upcoming, Earlier, Decimal;
    if IsBlank(cs[j]) {
      BaseIsGood(cs, j);
      var base := BlankBase(Upcoming(cs, j));
      assert KeyOf(cs, j)[..|base|] == base;
    } else if !IsSlide(cs[j]) {
      assert Decimal(j)[0] in Decimal(j);
    }
  }

  /** In a keyable deck all keys are different. */
  lemma KeysAreDistinct(cs: seq<Child>, i: nat, j: nat)
    requires Keyable(cs) && i < j < |cs|
    ensures KeyOf(cs, i) != KeyOf(cs, j)
  {
    hide Upcoming, Earlier, Decimal, Numbered, BlankBase;
    KeyBegins(cs, i);
    KeyBegins(cs, j);
    if KindOf(cs[i]) == KindOf(cs[j]) {
      match KindOf(cs[i])
      case Blank => BlankKeysDiffer(cs, i, j);
      case SlideKey =>
        assert ("omid:" + cs[i].slideId.value)[5..] == cs[i].slideId.value;
        assert ("omid:" + cs[j].slideId.value)[5..] == cs[j].slideId.value;
      case Position =>
        if Decimal(i) == Decimal(j) {
          DecimalInjective(i, j);
        }
    }
  }

  lemma BlankKeysDiffer(cs: seq<Child>, i: nat, j: nat)
    requires Keyable(cs) && i < j < |cs| && IsBlank(cs[i]) && IsBlank(cs[j])
    ensures KeyOf(cs, i) != KeyOf(cs, j)
  {
    hide Upcoming, Decimal, Numbered, BlankBase, Keyable, GoodBase;
    var a, b := BlankBase(Upcoming(cs, i)), BlankBase(Upcoming(cs, j));
    BaseIsGood(cs, i);
    BaseIsGood(cs, j);
    if KeyOf(cs, i) == KeyOf(cs, j) {
      NumberedInjective(a, Earlier(cs, a, i), b, Earlier(cs, b, j));
      EarlierGrows(cs, a, i, j);
    }
  }

  /** A slide's key depends on the slide alone, so moving slides about leaves each its key. */
  lemma SlideKeepsKey(before: seq<Child>, i: nat, after: seq<Child>, j: nat)
    requires Keyable(before) && Keyable(after) && i < |before| && j < |after| && before[i] == after[j] && IsSlide(before[i])
    ensures KeyOf(before, i) == KeyOf(after, j)
  {}

  // ---------------------------------------------------------------- white space before a slide

  function Blanks(cs: seq<Child>, from: nat, to: nat): nat
    requires from <= to <= |cs|
  {
    if from == to then 0 else Blanks(cs, from, to - 1) + if IsBlank(cs[to - 1]) then 1 else 0
  }

  /** The white space before slide p: nothing else but text and other nodes from position g on. */
  predicate Gap(cs: seq<Child>, g: nat, p: nat) {
    g <= p < |cs| && IsSlide(cs[p]) && (g == 0 || cs[g - 1].Element?) && forall i :: g <= i < p ==> !cs[i].Element?
  }

  lemma {:induction false} UpcomingIsSlide(cs: seq<Child>, j: nat, p: nat)
    requires j <= p < |cs| && IsSlide(cs[p]) && forall i :: j <= i < p ==> !cs[i].Element?
    ensures Upcoming(cs, j) == cs[p].slideId
    decreases p - j
  {
    if j < p {
      UpcomingIsSlide(cs, j + 1, p);
    }
  }

  lemma {:induction false} UpcomingIsNear(cs: seq<Child>, i: nat, g: nat) returns (q: nat)
    requires i < g <= |cs| && cs[g - 1].Element?
    ensures i <= q < g && cs[q].Element? && Upcoming(cs, i) == if cs[q].tag.Plain? then cs[q].slideId else None
    decreases g - i
  {
    if cs[i].Element? {
      q := i;
    } else {
      q := UpcomingIsNear(cs, i + 1, g);
    }
  }

  lemma OtherBase(cs: seq<Child>, i: nat, g: nat, p: nat)
    requires Keyable(cs) && i < g && Gap(cs, g, p)
    ensures BlankBase(Upcoming(cs, i)) != BlankBase(cs[p].slideId)
  {
    hide Upcoming, HexDigit;
    var q := UpcomingIsNear(cs, i, g);
    var up, id := Upcoming(cs, i), cs[p].slideId.value;
    if up.Some? && up.value != "" {
      assert up.value != id;
      assert ("omid-ws:" + up.value)[8..] == up.value && ("omid-ws:" + id)[8..] == id;
    } else {
      assert |"omid-ws:aux"| == 11 && |"omid-ws:" + id| == 16;
    }
  }

  lemma {:induction false} NoneEarlier(cs: seq<Child>, k: nat, g: nat, p: nat)
    requires Keyable(cs) && k <= g && Gap(cs, g, p)
    ensures Earlier(cs, BlankBase(cs[p].slideId), k) == 0
  {
    hide Upcoming, BlankBase, Keyable;
    if k > 0 {
      NoneEarlier(cs, k - 1, g, p);
      OtherBase(cs, k - 1, g, p);
    }
  }

  lemma {:induction false} GapCounted(cs: seq<Child>, g: nat, j: nat, p: nat)
    requires Keyable(cs) && Gap(cs, g, p) && g <= j <= p
    ensures Earlier(cs, BlankBase(cs[p].slideId), j) == Blanks(cs, g, j)
  {
    hide Upcoming, BlankBase, Keyable;
    if g == j {
      NoneEarlier(cs, g, g, p);
    } else {
      GapCounted(cs, g, j - 1, p);
      UpcomingIsSlide(cs, j - 1, p);
    }
  }

  /** The blank texts before a slide are keyed by its id and counted from the slide's own gap alone, so slides take the
      keys of their white space along when they move. */
  lemma BlankKeyIs(cs: seq<Child>, g: nat, j: nat, p: nat)
    requires Keyable(cs) && Gap(cs, g, p) && g <= j < p && IsBlank(cs[j])
    ensures cs[p].slideId.Some?
    ensures var key := "omid-ws:" + cs[p].slideId.value;
      KeyOf(cs, j) == if Blanks(cs, g, j) == 0 then key else key + ":" + Decimal(Blanks(cs, g, j))
  {
    hide Upcoming, Earlier, Decimal, HexDigit;
    GapCounted(cs, g, j, p);
    UpcomingIsSlide(cs, j, p);
  }

  /** The next element is a slide. */
  predicate SlideAhead(cs: seq<Child>, j: nat) {
    exists p :: j <= p < |cs| && IsSlide(cs[p]) && forall i :: j <= i < p ==> !cs[i].Element?
  }

  function OtherBlanks(cs: seq<Child>, to: nat): nat
    requires to <= |cs|
  {
    if to == 0 then 0 else OtherBlanks(cs, to - 1) + if IsBlank(cs[to - 1]) && !SlideAhead(cs, to - 1) then 1 else 0
  }

  lemma {:induction false} UpcomingIsNone(cs: seq<Child>, j: nat)
    requires j <= |cs| && !SlideAhead(cs, j)
    ensures Upcoming(cs, j).None?
    decreases |cs| - j
  {
    if j < |cs| {
      if cs[j].Element? {
        assert !IsSlide(cs[j]);
      } else {
        UpcomingIsNone(cs, j + 1);
      }
    }
  }

  lemma SlideAheadKey(cs: seq<Child>, j: nat)
    requires Keyable(cs) && j < |cs| && SlideAhead(cs, j)
    ensures BlankBase(Upcoming(cs, j)) != "omid-ws:aux"
  {
    hide HexDigit, Upcoming;
    var p :| j <= p < |cs| && IsSlide(cs[p]) && forall i :: j <= i < p ==> !cs[i].Element?;
    UpcomingIsSlide(cs, j, p);
    assert |"omid-ws:aux"| == 11 && |BlankBase(cs[p].slideId)| == 16;
  }

  lemma {:induction false} OthersCounted(cs: seq<Child>, j: nat)
    requires Keyable(cs) && j <= |cs|
    ensures Earlier(cs, "omid-ws:aux", j) == OtherBlanks(cs, j)
  {
    hide Upcoming, Keyable, SlideAhead;
    if j > 0 {
      OthersCounted(cs, j - 1);
      if SlideAhead(cs, j - 1) {
        SlideAheadKey(cs, j - 1);
      } else {
        UpcomingIsNone(cs, j - 1);
      }
    }
  }

  /** Blank texts that stand before no slide are counted together, wherever they are. */
  lemma OtherBlankKeyIs(cs: seq<Child>, j: nat)
    requires Keyable(cs) && j < |cs| && IsBlank(cs[j]) && !SlideAhead(cs, j)
    ensures KeyOf(cs, j) == if OtherBlanks(cs, j) == 0 then "omid-ws:aux" else "omid-ws:aux:" + Decimal(OtherBlanks(cs, j))
  {
    hide Upcoming, Earlier, Decimal, Keyable;
    UpcomingIsNone(cs, j);
    OthersCounted(cs, j);
    assert "omid-ws:aux" + ":" == "omid-ws:aux:";
  }
}
