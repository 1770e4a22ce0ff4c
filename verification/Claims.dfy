/** The claims ledger court: a three-colour search for premise cycles and the class rules around it. */
module Claims {
  import opened Common
  import opened Text
  import opened Utf8


  // ---------------------------------------------------------------- the ledger

  /** A claim as loaded: every property is the sorted list of its values. */
  datatype Claim = Claim(
    iri: string, sentences: seq<string>, classes: seq<string>, evidenceKinds: seq<string>, receipts: seq<string>,
    publicRefs: seq<string>, premises: seq<string>, reasoning: seq<string>, missingInputs: seq<string>,
    quotes: seq<string>, suppliedSources: seq<string>, classifiedBy: seq<string>)

  /** Claim Cn is filed under n. */
  datatype Ledger = Ledger(claims: map<nat, Claim>, byIri: map<string, nat>, missing: seq<string>)

  /** `load_ledger` files a claim under its number and its IRI together. */
  ghost predicate Loaded(l: Ledger) {
    && (forall i :: i in l.byIri ==> l.byIri[i] in l.claims && l.claims[l.byIri[i]].iri == i)
    && (forall c :: c in l.claims ==> l.claims[c].iri in l.byIri && l.byIri[l.claims[c].iri] == c)
  }

  /** The claim a premise names; None when it names none. */
  predicate Names(l: Ledger, premise: string, c: nat) {
    premise in l.byIri && l.byIri[premise] == c
  }

  ghost predicate Premise(l: Ledger, u: nat, v: nat) {
    u in l.claims && exists p :: p in l.claims[u].premises && Names(l, p, v)
  }

  /** The premise graph without self-loops. */
  ghost predicate Edge(l: Ledger, u: nat, v: nat) {
    u != v && Premise(l, u, v)
  }

  ghost predicate Walk(l: Ledger, w: seq<nat>) {
    forall i :: 0 <= i < |w| - 1 ==> Edge(l, w[i], w[i + 1])
  }

  ghost predicate ClosedWalk(l: Ledger, w: seq<nat>) {
    |w| >= 2 && Walk(l, w) && w[0] == w[|w| - 1]
  }

  ghost predicate Cyclic(l: Ledger) {
    exists w :: ClosedWalk(l, w)
  }

  /** Everything a claim rests on stands before it. */
  ghost predicate Topological(l: Ledger, order: seq<nat>) {
    forall i, v :: 0 <= i < |order| && Edge(l, order[i], v) ==> v in order[..i]
  }

  // ---------------------------------------------------------------- refusals

  datatype Refusal = Refusal(subject: string, code: string, trail: seq<nat>)

  /** A cycle refusal shows a real one: its trail is a walk that comes back to a claim it has passed. */
  ghost predicate ShowsCycle(l: Ledger, r: Refusal) {
    && r.code == "inference_cycle" && Walk(l, r.trail)
    && exists k :: 0 <= k < |r.trail| - 1 && r.trail[k] == r.trail[|r.trail| - 1]
  }

  lemma ShownCycleIsCycle(l: Ledger, r: Refusal)
    requires ShowsCycle(l, r)
    ensures Cyclic(l)
  {
    var k :| 0 <= k < |r.trail| - 1 && r.trail[k] == r.trail[|r.trail| - 1];
    RepeatIsCycle(l, r.trail, k, |r.trail| - 1);
  }

  // ---------------------------------------------------------------- an order leaves no room for a cycle

  lemma {:induction false} WalkDescends(l: Ledger, order: seq<nat>, w: seq<nat>, i: nat) returns (j: nat)
    requires Topological(l, order) && Walk(l, w) && |w| >= 2 && i < |order| && order[i] == w[0]
    ensures j < i && order[j] == w[|w| - 1]
    decreases |w|
  {
    assert Edge(l, w[0], w[1]);
    var k :| 0 <= k < i && order[k] == w[1];
    if |w| == 2 {
      j := k;
    } else {
      forall n | 0 <= n < |w[1..]| - 1 ensures Edge(l, w[1..][n], w[1..][n + 1]) {
        assert Edge(l, w[n + 1], w[n + 2]);
      }
      j := WalkDescends(l, order, w[1..], k);
    }
  }

  lemma {:induction false} OrderedIsAcyclic(l: Ledger, order: seq<nat>, w: seq<nat>, i: nat)
    requires Topological(l, order) && i < |order| && |w| >= 2 && order[i] == w[0]
    ensures !ClosedWalk(l, w)
    decreases i
  {
    if ClosedWalk(l, w) {
      var j := WalkDescends(l, order, w, i);
      OrderedIsAcyclic(l, order, w, j);
    }
  }

  lemma CompleteOrderIsAcyclic(l: Ledger, order: seq<nat>)
    requires Topological(l, order) && forall c :: c in l.claims ==> c in order
    ensures !Cyclic(l)
  {
    forall w ensures !ClosedWalk(l, w) {
      if ClosedWalk(l, w) {
        assert Edge(l, w[0], w[1]);
        var i :| 0 <= i < |order| && order[i] == w[0];
        OrderedIsAcyclic(l, order, w, i);
      }
    }
  }

  // ---------------------------------------------------------------- the search

  datatype Colour = Grey | Black

  /** Grey claims are the ones on the trail; until a cycle is found the black ones, in the order they were
      finished, rest only on earlier ones; every refusal shows a cycle. */
  ghost predicate Consistent(l: Ledger, state: map<nat, Colour>, refusals: seq<Refusal>, finished: seq<nat>, trail: seq<nat>)
  {
    && Walk(l, trail)
    && (forall c :: c in state ==> c in l.claims)
    && (forall c :: c in trail <==> c in state && state[c] == Grey)
    && (forall c :: c in finished <==> c in state && state[c] == Black)
    && (forall r :: r in refusals ==> ShowsCycle(l, r))
    && (refusals == [] ==> Topological(l, finished))
  }

  /** The first n premises of a claim are finished, unless a cycle was found. */
  ghost predicate Settled(l: Ledger, c: nat, n: nat, refusals: seq<Refusal>, state: map<nat, Colour>)
    requires c in l.claims && n <= |l.claims[c].premises|
  {
    refusals == [] ==>
      forall k, v :: 0 <= k < n && v != c && Names(l, l.claims[c].premises[k], v) ==> v in state && state[v] == Black
  }

  /** Nothing is forgotten and no colour already given changes. */
  predicate Extends(before: map<nat, Colour>, refusalsBefore: seq<Refusal>, after: map<nat, Colour>, refusals: seq<Refusal>) {
    refusalsBefore <= refusals && forall c :: c in before ==> c in after && after[c] == before[c]
  }

  class CycleSearch {
    const ledger: Ledger
    var state: map<nat, Colour>
    var refusals: seq<Refusal>
    ghost var finished: seq<nat>

    constructor (l: Ledger)
      ensures ledger == l && state == map[] && refusals == [] && Consistent(l, state, refusals, finished, [])
    {
      ledger, state, refusals, finished := l, map[], [], [];
    }

    method Visit(cid: nat, trail: seq<nat>)
      requires Loaded(ledger) && Consistent(ledger, state, refusals, finished, trail)
      requires cid in ledger.claims && cid !in state && Walk(ledger, trail + [cid])
      modifies this
      ensures Consistent(ledger, state, refusals, finished, trail)
      ensures Extends(old(state), old(refusals), state, refusals) && cid in state && state[cid] == Black
      decreases ledger.claims.Keys - state.Keys
    {
      hide Consistent, Settled, Loaded, Walk, Edge;
      var onTrail := trail + [cid];
      TurnGrey(ledger, state, refusals, finished, trail, cid);
      state := state[cid := Grey];
      var premises := ledger.claims[cid].premises;
      var i := 0;
      while i < |premises|
        invariant i <= |premises|
        invariant Consistent(ledger, state, refusals, finished, onTrail)
        invariant Extends(old(state)[cid := Grey], old(refusals), state, refusals)
        invariant Settled(ledger, cid, i, refusals, state)
      {
        var premise := premises[i];
        if premise in ledger.byIri && ledger.byIri[premise] != cid {
          var pid := ledger.byIri[premise];
          PremiseIsEdge(ledger, cid, i, pid);
          if pid in state && state[pid] == Grey {
            AddCycle(ledger, state, refusals, finished, trail, cid, pid);
            refusals := refusals + [Refusal(ledger.claims[cid].iri, "inference_cycle", trail + [cid, pid])];
          } else if pid !in state {
            WalkOn(ledger, onTrail, pid);
            TrailWalks(ledger, state, refusals, finished, onTrail);
            ghost var was := state;
            ghost var said := refusals;
            Visit(pid, onTrail);
            SettledStays(ledger, cid, i, said, was, refusals, state);
          }
          OneMoreSettled(ledger, cid, i, refusals, state);
        } else {
          SkipPremise(ledger, cid, i, refusals, state);
        }
        i := i + 1;
      }
      TurnBlack(ledger, state, refusals, finished, trail, cid);
      state := state[cid := Black];
      finished := finished + [cid];
    }
  }

  lemma TurnGrey(l: Ledger, state: map<nat, Colour>, refusals: seq<Refusal>, finished: seq<nat>, trail: seq<nat>, c: nat)
    requires Consistent(l, state, refusals, finished, trail)
    requires c in l.claims && c !in state && Walk(l, trail + [c])
    ensures Consistent(l, state[c := Grey], refusals, finished, trail + [c])
    ensures c !in trail && Settled(l, c, 0, refusals, state[c := Grey])
  {}

  lemma PremiseIsEdge(l: Ledger, c: nat, i: nat, v: nat)
    requires Loaded(l) && c in l.claims && i < |l.claims[c].premises| && Names(l, l.claims[c].premises[i], v) && v != c
    ensures Edge(l, c, v) && v in l.claims
  {}

  lemma WalkOn(l: Ledger, trail: seq<nat>, v: nat)
    requires trail != [] && Edge(l, trail[|trail| - 1], v)
    ensures Walk(l, trail) ==> Walk(l, trail + [v])
  {}

  lemma TrailWalks(l: Ledger, state: map<nat, Colour>, refusals: seq<Refusal>, finished: seq<nat>, trail: seq<nat>)
    requires Consistent(l, state, refusals, finished, trail)
    ensures Walk(l, trail)
  {}

  lemma AddCycle(l: Ledger, state: map<nat, Colour>, refusals: seq<Refusal>, finished: seq<nat>, trail: seq<nat>, c: nat, p: nat)
    requires Consistent(l, state, refusals, finished, trail + [c])
    requires Edge(l, c, p) && p in state && state[p] == Grey && c in l.claims
    ensures Consistent(l, state, refusals + [Refusal(l.claims[c].iri, "inference_cycle", trail + [c, p])], finished, trail + [c])
  {
    hide Topological;
    CycleShown(l, trail, c, p);
  }

  lemma CycleShown(l: Ledger, trail: seq<nat>, c: nat, p: nat)
    requires Walk(l, trail + [c]) && Edge(l, c, p) && p in trail + [c] && c in l.claims
    ensures ShowsCycle(l, Refusal(l.claims[c].iri, "inference_cycle", trail + [c, p]))
  {
    WalkOn(l, trail + [c], p);
    assert trail + [c] + [p] == trail + [c, p];
    var k :| 0 <= k < |trail + [c]| && (trail + [c])[k] == p;
    assert (trail + [c, p])[k] == p;
  }

  lemma SettledStays(l: Ledger, c: nat, i: nat, said: seq<Refusal>, was: map<nat, Colour>,
                     refusals: seq<Refusal>, state: map<nat, Colour>)
    requires c in l.claims && i <= |l.claims[c].premises| && Settled(l, c, i, said, was)
    requires Extends(was, said, state, refusals)
    ensures Settled(l, c, i, refusals, state)
  {}

  /** After its turn a premise is black, or a cycle was found. */
  lemma OneMoreSettled(l: Ledger, c: nat, i: nat, refusals: seq<Refusal>, state: map<nat, Colour>)
    requires c in l.claims && i < |l.claims[c].premises| && l.claims[c].premises[i] in l.byIri
    requires refusals == [] ==> Settled(l, c, i, refusals, state)
    requires refusals == [] ==>
      l.byIri[l.claims[c].premises[i]] in state && state[l.byIri[l.claims[c].premises[i]]] == Black
    ensures Settled(l, c, i + 1, refusals, state)
  {}

  lemma SkipPremise(l: Ledger, c: nat, i: nat, refusals: seq<Refusal>, state: map<nat, Colour>)
    requires c in l.claims && i < |l.claims[c].premises| && Settled(l, c, i, refusals, state)
    requires l.claims[c].premises[i] !in l.byIri || l.byIri[l.claims[c].premises[i]] == c
    ensures Settled(l, c, i + 1, refusals, state)
  {}

  lemma TurnBlack(l: Ledger, state: map<nat, Colour>, refusals: seq<Refusal>, finished: seq<nat>, trail: seq<nat>, c: nat)
    requires Consistent(l, state, refusals, finished, trail + [c])
    requires c in l.claims && c !in trail && Settled(l, c, |l.claims[c].premises|, refusals, state)
    ensures Consistent(l, state[c := Black], refusals, finished + [c], trail)
  {
    hide Topological, ShowsCycle, Edge;
    var t := trail + [c];
    forall i | 0 <= i < |trail| - 1 ensures Edge(l, trail[i], trail[i + 1]) {
      assert Edge(l, t[i], t[i + 1]);
    }
    assert c in t;
    if refusals == [] {
      FinishedNext(l, state, finished, c);
    }
  }

  lemma FinishedNext(l: Ledger, state: map<nat, Colour>, finished: seq<nat>, c: nat)
    requires Topological(l, finished) && c in l.claims && Settled(l, c, |l.claims[c].premises|, [], state)
    requires forall v :: v in finished <==> v in state && state[v] == Black
    ensures Topological(l, finished + [c])
  {
    var order := finished + [c];
    forall i, v | 0 <= i < |order| && Edge(l, order[i], v) ensures v in order[..i] {
      if i < |finished| {
        assert order[..i] == finished[..i];
      } else {
        assert order[..i] == finished;
        var p :| p in l.claims[c].premises && Names(l, p, v);
        var k :| 0 <= k < |l.claims[c].premises| && l.claims[c].premises[k] == p;
      }
    }
  }

  // ---------------------------------------------------------------- claims in number order

  predicate Ascending(ids: seq<nat>) {
    forall i, j :: 0 <= i < j < |ids| ==> ids[i] < ids[j]
  }

  ghost predicate Below(m: nat, s: set<nat>) {
    forall x :: x in s ==> m <= x
  }

  method Least(s: set<nat>) returns (m: nat)
    requires s != {}
    ensures m in s && Below(m, s)
  {
    m :| m in s;
    var rest := s - {m};
    while rest != {}
      invariant m in s && rest <= s && forall x :: x in s && x !in rest ==> m <= x
      decreases rest
    {
      var y :| y in rest;
      rest := rest - {y};
      if y < m {
        m := y;
      }
    }
  }

  method Sorted(s: set<nat>) returns (r: seq<nat>)
    ensures Ascending(r) && forall x :: x in r <==> x in s
  {
    var rest := s;
    r := [];
    while rest != {}
      invariant rest <= s && Ascending(r)
      invariant forall x :: x in r <==> x in s - rest
      invariant forall x, y :: x in r && y in rest ==> x < y
      decreases rest
    {
      var m := Least(rest);
      rest := rest - {m};
      assert forall k :: 0 <= k < |r| ==> r[k] in r;
      r := r + [m];
    }
  }

  /** The search refuses exactly the cyclic ledgers, each refusal shows a cycle, and without one it leaves the
      claims in an order in which everything rests on what stands before it. */
  method CheckCycles(l: Ledger) returns (refusals: seq<Refusal>, ghost order: seq<nat>)
    requires Loaded(l)
    ensures refusals != [] <==> Cyclic(l)
    ensures forall r :: r in refusals ==> ShowsCycle(l, r)
    ensures refusals == [] ==> Topological(l, order) && forall c :: c in l.claims <==> c in order
  {
    hide Loaded, Walk, Cyclic, ShowsCycle, Topological;
    var search := new CycleSearch(l);
    var ids := Sorted(l.claims.Keys);
    var i := 0;
    while i < |ids|
      invariant i <= |ids| && search.ledger == l && fresh(search)
      invariant Consistent(l, search.state, search.refusals, search.finished, [])
      invariant forall k :: 0 <= k < i ==> ids[k] in search.state
    {
      if ids[i] !in search.state {
        LoneWalk(l, ids[i]);
        search.Visit(ids[i], []);
      }
      i := i + 1;
    }
    refusals, order := search.refusals, search.finished;
    if refusals == [] {
      CompleteOrderIsAcyclic(l, order);
    } else {
      ShownCycleIsCycle(l, refusals[0]);
    }
  }

  lemma LoneWalk(l: Ledger, c: nat)
    ensures Walk(l, [] + [c])
  {}

  // ---------------------------------------------------------------- class rules

  /** A file's content. */
  datatype Data = Data(bytes: seq<Byte>)

  /** What the rules look up outside the ledger: two text patterns, the pattern of public references and the guards of
      missing inputs; a receipt's standing, none for an unreadable one; the bytes of a file; their digest; and whether
      a receipt that is a file mentions a digest. */
  datatype World = World(
    markerLike: string -> bool, placeholderLike: string -> bool, isPublicRef: string -> bool, guarded: (string, string) -> bool,
    standing: string -> seq<string>, read: string -> Option<Data>, digest: Data -> string,
    mentions: (string, string) -> bool)

  const CLASSES := ["SUPPLIED", "PUBLICLY_OBSERVABLE", "ARCHITECTURAL_INFERENCE", "WD_DEPENDENT_UNKNOWN"]
  const EVIDENCE_KINDS := ["supplied-input", "observed-proof"]

  predicate IsClass(l: Ledger, c: nat, cls: string) {
    c in l.claims && l.claims[c].classes == [cls]
  }

  function When(b: bool, code: string): seq<string> {
    if b then [code] else []
  }

  /** The codes f finds for each of xs, in order. */
  function Each(xs: seq<string>, f: string -> seq<string>): (r: seq<string>)
    ensures r == [] <==> forall x :: x in xs ==> f(x) == []
  {
    if xs == [] then [] else f(xs[0]) + Each(xs[1..], f)
  }

  predicate SentenceEnd(c: char) {
    c == '.' || c == '!' || c == '?'
  }

  predicate CutsAfter(s: string, i: int)
    requires 0 <= i < |s| - 1
  {
    SentenceEnd(s[i]) && IsPySpace(s[i + 1]) && exists k :: i + 1 < k < |s| && !IsPySpace(s[k])
  }

  /** Whether the pattern that separates sentences cuts the text. */
  predicate SplitsSentence(s: string) {
    exists i :: 0 <= i < |s| - 1 && CutsAfter(s, i)
  }

  /** One line without outer white space or markers, which ends like a sentence, or is empty. */
  predicate BadSentence(w: World, s: string) {
    '\n' in s || s != PyStrip(s) || (s != "" && !SentenceEnd(s[|s| - 1])) || w.markerLike(s) || w.placeholderLike(s)
  }

  function SentenceFaults(w: World, s: string): seq<string> {
    if BadSentence(w, s) then ["sentence_invalid"] else When(SplitsSentence(s), "claim_sentence_not_single")
  }

  predicate StandsAt(data: seq<Byte>, needle: seq<Byte>, i: int) {
    0 <= i <= |data| - |needle| && data[i..i + |needle|] == needle
  }

  predicate Contains(data: Data, quote: string) {
    exists i :: 0 <= i <= |data.bytes| && StandsAt(data.bytes, Encode(quote), i)
  }

  /** The checks of supplied quotes against the text they are from, and of that text against the receipts. */
  function QuoteFaults(w: World, c: Claim): seq<string> {
    if |c.suppliedSources| != 1 || c.quotes == [] then ["supplied_quote_missing"]
    else if w.read(c.suppliedSources[0]).None? then ["supplied_source_unreadable"]
    else DataFaults(w, c, w.read(c.suppliedSources[0]).value)
  }

  function DataFaults(w: World, c: Claim, data: Data): seq<string> {
    Each(c.quotes, q => When(!Contains(data, q), "quote_not_in_supplied_source"))
    + When(forall r :: r in c.receipts ==> !w.mentions(r, w.digest(data)), "supplied_source_unbound")
  }

  function SuppliedFaults(w: World, c: Claim): seq<string> {
    var kind := if c.evidenceKinds == [] then "" else c.evidenceKinds[0];
    When(|c.evidenceKinds| != 1 || kind !in EVIDENCE_KINDS, "evidence_kind_invalid")
    + When(c.receipts == [], "receipt_missing")
    + (if kind == "supplied-input" then QuoteFaults(w, c)
       else if kind == "observed-proof" then
         Each(c.receipts, r => When(w.standing(r) != [] && w.standing(r) != ["ALIVE"], "proof_not_alive"))
       else [])
  }

  function PublicFaults(w: World, c: Claim): seq<string> {
    When(c.publicRefs == [], "public_ref_missing")
    + Each(c.publicRefs, r => When(!w.isPublicRef(r), "public_ref_invalid"))
  }

  function PremiseFault(l: Ledger, id: nat, premise: string): seq<string> {
    if premise !in l.byIri then ["premise_unresolved"]
    else if l.byIri[premise] == id then ["inference_cycle"]
    else When(IsClass(l, l.byIri[premise], "WD_DEPENDENT_UNKNOWN"), "inference_on_unknown")
  }

  function InferenceFaults(l: Ledger, w: World, id: nat): seq<string>
    requires id in l.claims
  {
    var c := l.claims[id];
    When(c.premises == [], "premise_missing")
    + When(forall r :: r in c.reasoning ==> PyStrip(r) == "", "reasoning_missing")
    + Each(c.premises, p => PremiseFault(l, id, p))
  }

  function UnknownFaults(l: Ledger, c: Claim): seq<string> {
    When(c.missingInputs == [], "missing_input_missing")
    + Each(c.missingInputs, m => When(m !in l.missing, "missing_input_unresolved"))
  }

  /** The refusal codes of one claim, in the order the court adds them. */
  function ClaimFaults(l: Ledger, w: World, id: nat): seq<string>
    requires id in l.claims
  {
    var c := l.claims[id];
    (if |c.sentences| != 1 then ["sentence_invalid"] else SentenceFaults(w, c.sentences[0]))
    + (if |c.classes| != 1 then ["class_count"]
       else if c.classes[0] !in CLASSES then ["class_invalid"]
       else
         When(c.classifiedBy == [], "classified_by_missing")
         + (if c.classes[0] == "SUPPLIED" then SuppliedFaults(w, c)
            else if c.classes[0] == "PUBLICLY_OBSERVABLE" then PublicFaults(w, c)
            else if c.classes[0] == "ARCHITECTURAL_INFERENCE" then InferenceFaults(l, w, id)
            else UnknownFaults(l, c)))
  }

  /** A missing input's guard matches the sentence of a claim that may not speak of it. */
  predicate Unsupplied(w: World, c: Claim, m: string) {
    && |c.sentences| == 1 && w.guarded(m, c.sentences[0])
    && !(c.classes == ["WD_DEPENDENT_UNKNOWN"] && m in c.missingInputs)
    && !(c.classes == ["SUPPLIED"] && c.evidenceKinds == ["supplied-input"])
  }

  function GuardFaults(l: Ledger, w: World, c: Claim): seq<string> {
    Each(l.missing, m => When(Unsupplied(w, c, m), "unsupplied_wd_fact"))
  }

  /** The rules the court applies claim by claim, all kept. */
  ghost predicate RulesKept(l: Ledger, w: World) {
    forall c :: c in l.claims ==> ClaimFaults(l, w, c) == [] && GuardFaults(l, w, l.claims[c]) == []
  }

  // ---------------------------------------------------------------- the rules over the fields

  predicate Visible(s: string) {
    exists i :: 0 <= i < |s| && !IsPySpace(s[i])
  }

  /** The sentence is one line, visible at both ends, ends like a sentence and is only one, or it is empty. */
  predicate GoodSentence(w: World, s: string) {
    && (forall i :: 0 <= i < |s| ==> s[i] != '\n')
    && (s == "" || (!IsPySpace(s[0]) && s[|s| - 1] in ['.', '!', '?']))
    && !w.markerLike(s) && !w.placeholderLike(s)
    && forall i :: 0 <= i < |s| - 1 && s[i] in ['.', '!', '?'] ==> !IsPySpace(s[i + 1])
  }

  ghost predicate Quotes(data: Data, q: string) {
    exists a, b :: data.bytes == a + (Encode(q) + b)
  }

  ghost predicate Quoted(w: World, c: Claim) {
    && c.quotes != []
    && exists path, data ::
         && c.suppliedSources == [path] && w.read(path) == Some(data)
         && (forall q :: q in c.quotes ==> Quotes(data, q))
         && exists r :: r in c.receipts && w.mentions(r, w.digest(data))
  }

  ghost predicate SuppliedKept(w: World, c: Claim) {
    && c.receipts != []
    && ((c.evidenceKinds == ["supplied-input"] && Quoted(w, c))
        || (c.evidenceKinds == ["observed-proof"]
            && forall r :: r in c.receipts ==> w.standing(r) == [] || w.standing(r) == ["ALIVE"]))
  }

  ghost predicate PublicKept(w: World, c: Claim) {
    c.publicRefs != [] && forall r :: r in c.publicRefs ==> w.isPublicRef(r)
  }

  ghost predicate InferenceKept(l: Ledger, id: nat, c: Claim) {
    && c.premises != [] && (exists r :: r in c.reasoning && Visible(r))
    && forall p :: p in c.premises ==>
         p in l.byIri && l.byIri[p] != id
         && !(l.byIri[p] in l.claims && l.claims[l.byIri[p]].classes == ["WD_DEPENDENT_UNKNOWN"])
  }

  ghost predicate UnknownKept(l: Ledger, c: Claim) {
    c.missingInputs != [] && forall m :: m in c.missingInputs ==> m in l.missing
  }

  ghost predicate ClassKept(l: Ledger, w: World, id: nat, c: Claim) {
    || (c.classes == ["SUPPLIED"] && SuppliedKept(w, c))
    || (c.classes == ["PUBLICLY_OBSERVABLE"] && PublicKept(w, c))
    || (c.classes == ["ARCHITECTURAL_INFERENCE"] && InferenceKept(l, id, c))
    || (c.classes == ["WD_DEPENDENT_UNKNOWN"] && UnknownKept(l, c))
  }

  /** A missing input's guard matches only an unknown that names it, or a supplied quote. */
  ghost predicate GuardsKept(l: Ledger, w: World, c: Claim) {
    forall m, s :: m in l.missing && c.sentences == [s] && w.guarded(m, s) ==>
      || (c.classes == ["WD_DEPENDENT_UNKNOWN"] && m in c.missingInputs)
      || (c.classes == ["SUPPLIED"] && c.evidenceKinds == ["supplied-input"])
  }

  /** What an accepted claim is like. */
  ghost predicate Kept(l: Ledger, w: World, id: nat, c: Claim) {
    && (exists s :: c.sentences == [s] && GoodSentence(w, s))
    && c.classifiedBy != [] && ClassKept(l, w, id, c) && GuardsKept(l, w, c)
  }

  ghost predicate LedgerKept(l: Ledger, w: World) {
    forall id :: id in l.claims ==> Kept(l, w, id, l.claims[id])
  }

  lemma {:induction false} StripIs(s: string)
    ensures PyStrip(s) == "" <==> !Visible(s)
    ensures PyStrip(s) == s <==> s == "" || (!IsPySpace(s[0]) && !IsPySpace(s[|s| - 1]))
    ensures |PyStrip(s)| <= |s|
    decreases |s|
  {
    hide IsPySpace;
    if s != "" && IsPySpace(s[0]) {
      StripIs(s[1..]);
      assert forall i :: 0 < i < |s| ==> s[i] == s[1..][i - 1];
    } else if s != "" && IsPySpace(s[|s| - 1]) {
      StripIs(s[..|s| - 1]);
    }
  }

  lemma EndsAreVisible(c: char)
    ensures SentenceEnd(c) <==> c in ['.', '!', '?']
    ensures SentenceEnd(c) ==> !IsPySpace(c)
  {}

  lemma SplitsIff(s: string)
    requires s != "" && !IsPySpace(s[|s| - 1])
    ensures SplitsSentence(s) <==> exists i :: 0 <= i < |s| - 1 && SentenceEnd(s[i]) && IsPySpace(s[i + 1])
  {
    hide IsPySpace, SentenceEnd;
    if i :| 0 <= i < |s| - 1 && SentenceEnd(s[i]) && IsPySpace(s[i + 1]) {
      assert i + 1 < |s| - 1;
      assert CutsAfter(s, i);
    }
  }

  lemma SentenceKeptIff(w: World, s: string)
    ensures SentenceFaults(w, s) == [] <==> GoodSentence(w, s)
  {
    hide IsPySpace, SentenceEnd, PyStrip, SplitsSentence;
    StripIs(s);
    forall c ensures SentenceEnd(c) <==> c in ['.', '!', '?'] ensures SentenceEnd(c) ==> !IsPySpace(c) {
      EndsAreVisible(c);
    }
    if s != "" && !IsPySpace(s[|s| - 1]) {
      SplitsIff(s);
    } else if s == "" {
      NothingSplits();
    }
  }

  lemma NothingSplits()
    ensures !SplitsSentence("")
  {}

  lemma EachIff(xs: seq<string>, f: string -> seq<string>)
    ensures Each(xs, f) == [] <==> forall x :: x in xs ==> f(x) == []
  {}

  lemma ContainsIff(data: Data, q: string)
    ensures Contains(data, q) <==> Quotes(data, q)
  {
    hide Encode;
    var needle := Encode(q);
    if Contains(data, q) {
      var i :| 0 <= i <= |data.bytes| && StandsAt(data.bytes, needle, i);
      assert data.bytes == data.bytes[..i] + (needle + data.bytes[i + |needle|..]);
    }
    forall a, b | data.bytes == a + (needle + b) ensures Contains(data, q) {
      assert StandsAt(data.bytes, needle, |a|);
    }
  }

  lemma QuotesKeptIff(w: World, c: Claim)
    ensures QuoteFaults(w, c) == [] <==> Quoted(w, c)
  {
    hide Contains, Quotes;
    if |c.suppliedSources| == 1 && c.quotes != [] && w.read(c.suppliedSources[0]).Some? {
      var path, data := c.suppliedSources[0], w.read(c.suppliedSources[0]).value;
      assert c.suppliedSources == [path];
      var f := q => When(!Contains(data, q), "quote_not_in_supplied_source");
      EachIff(c.quotes, f);
      forall q ensures f(q) == [] <==> Quotes(data, q) {
        ContainsIff(data, q);
      }
      assert DataFaults(w, c, data) == Each(c.quotes, f) + When(forall r :: r in c.receipts ==> !w.mentions(r, w.digest(data)), "supplied_source_unbound");
    }
  }

  lemma SuppliedKeptIff(w: World, c: Claim)
    ensures SuppliedFaults(w, c) == [] <==> SuppliedKept(w, c)
  {
    hide QuoteFaults, Quoted;
    QuotesKeptIff(w, c);
    var f := r => When(w.standing(r) != [] && w.standing(r) != ["ALIVE"], "proof_not_alive");
    EachIff(c.receipts, f);
    assert forall r :: f(r) == [] <==> w.standing(r) == [] || w.standing(r) == ["ALIVE"];
    assert "supplied-input"[0] != "observed-proof"[0];
    if |c.evidenceKinds| == 1 {
      assert c.evidenceKinds == [c.evidenceKinds[0]];
    }
  }

  lemma PublicKeptIff(w: World, c: Claim)
    ensures PublicFaults(w, c) == [] <==> PublicKept(w, c)
  {
    var f := r => When(!w.isPublicRef(r), "public_ref_invalid");
    EachIff(c.publicRefs, f);
    assert forall r :: f(r) == [] <==> w.isPublicRef(r);
  }

  lemma InferenceKeptIff(l: Ledger, w: World, id: nat)
    requires id in l.claims
    ensures InferenceFaults(l, w, id) == [] <==> InferenceKept(l, id, l.claims[id])
  {
    hide PyStrip, Visible;
    var c := l.claims[id];
    var f := p => PremiseFault(l, id, p);
    EachIff(c.premises, f);
    forall r ensures PyStrip(r) == "" <==> !Visible(r) {
      StripIs(r);
    }
    assert forall p :: f(p) == [] <==>
      p in l.byIri && l.byIri[p] != id
      && !(l.byIri[p] in l.claims && l.claims[l.byIri[p]].classes == ["WD_DEPENDENT_UNKNOWN"]);
  }

  lemma UnknownKeptIff(l: Ledger, c: Claim)
    ensures UnknownFaults(l, c) == [] <==> UnknownKept(l, c)
  {
    var f := m => When(m !in l.missing, "missing_input_unresolved");
    EachIff(c.missingInputs, f);
    assert forall m :: f(m) == [] <==> m in l.missing;
  }

  lemma GuardsKeptIff(l: Ledger, w: World, c: Claim)
    ensures GuardFaults(l, w, c) == [] <==> GuardsKept(l, w, c)
  {
    var f := m => When(Unsupplied(w, c, m), "unsupplied_wd_fact");
    EachIff(l.missing, f);
    assert forall m :: f(m) == [] <==> !Unsupplied(w, c, m);
    if |c.sentences| == 1 {
      assert c.sentences == [c.sentences[0]];
    }
  }

  lemma ClassesDiffer()
    ensures Distinct(CLASSES)
  {
    assert CLASSES[0][0] == 'S' && CLASSES[1][0] == 'P' && CLASSES[2][0] == 'A' && CLASSES[3][0] == 'W';
  }

  lemma ClassKeptIff(l: Ledger, w: World, id: nat)
    requires id in l.claims
    ensures ClaimFaults(l, w, id) == [] <==>
      var c := l.claims[id];
      (exists s :: c.sentences == [s] && GoodSentence(w, s)) && c.classifiedBy != [] && ClassKept(l, w, id, c)
  {
    hide SentenceFaults, GoodSentence, SuppliedFaults, SuppliedKept, PublicFaults, PublicKept, InferenceFaults, InferenceKept;
    hide UnknownFaults, UnknownKept;
    var c := l.claims[id];
    ClassesDiffer();
    SuppliedKeptIff(w, c);
    PublicKeptIff(w, c);
    InferenceKeptIff(l, w, id);
    UnknownKeptIff(l, c);
    if |c.sentences| == 1 {
      SentenceKeptIff(w, c.sentences[0]);
      assert c.sentences == [c.sentences[0]];
    }
    if |c.classes| == 1 {
      assert c.classes == [c.classes[0]];
    }
  }

  /** The rules the court applies are the rules over the fields. */
  lemma RulesKeptIff(l: Ledger, w: World)
    ensures RulesKept(l, w) <==> LedgerKept(l, w)
  {
    hide ClaimFaults, GuardFaults, ClassKept, GuardsKept, GoodSentence;
    forall id | id in l.claims
      ensures ClaimFaults(l, w, id) == [] && GuardFaults(l, w, l.claims[id]) == [] <==> Kept(l, w, id, l.claims[id])
    {
      ClassKeptIff(l, w, id);
      GuardsKeptIff(l, w, l.claims[id]);
    }
  }

  function Refused(c: Claim, codes: seq<string>): (r: seq<Refusal>)
    ensures r == [] <==> codes == []
  {
    seq(|codes|, i requires 0 <= i < |codes| => Refusal(c.iri, codes[i], []))
  }

  /** A claim of exactly one known class. */
  predicate Classified(c: Claim) {
    |c.classes| == 1 && c.classes[0] in CLASSES
  }

  /** No refusal means: every claim keeps every rule, and the premises are free of cycles. */
  method CheckClaims(l: Ledger, w: World) returns (refusals: seq<Refusal>, toValidate: set<string>)
    requires Loaded(l)
    ensures refusals == [] <==> LedgerKept(l, w) && !Cyclic(l)
    ensures forall r :: r in toValidate <==> exists c :: c in l.claims && Classified(l.claims[c]) && r in l.claims[c].receipts
  {
    hide Loaded, Cyclic, ClaimFaults, GuardFaults, Classified, LedgerKept;
    refusals, toValidate := [], {};
    var ids := Sorted(l.claims.Keys);
    for i := 0 to |ids|
      invariant refusals == [] <==> forall k :: 0 <= k < i ==> ClaimFaults(l, w, ids[k]) == []
      invariant forall r :: r in toValidate <==> exists k :: 0 <= k < i && Classified(l.claims[ids[k]]) && r in l.claims[ids[k]].receipts
    {
      var c := l.claims[ids[i]];
      refusals := refusals + Refused(c, ClaimFaults(l, w, ids[i]));
      if Classified(c) {
        toValidate := toValidate + (set r | r in c.receipts);
      }
    }
    var cycles, order := CheckCycles(l);
    refusals := refusals + cycles;
    ghost var said := refusals;
    for i := 0 to |ids|
      invariant refusals == [] <==> said == [] && forall k :: 0 <= k < i ==> GuardFaults(l, w, l.claims[ids[k]]) == []
    {
      refusals := refusals + Refused(l.claims[ids[i]], GuardFaults(l, w, l.claims[ids[i]]));
    }
    assert forall c :: c in l.claims ==> c in ids;
    RulesKeptIff(l, w);
  }

  // ---------------------------------------------------------------- an accepted ledger is grounded

  predicate Inference(l: Ledger, c: nat) {
    IsClass(l, c, "ARCHITECTURAL_INFERENCE")
  }

  /** A chain of reasoning: from each inference to one of its premises. */
  ghost predicate Chain(l: Ledger, w: seq<nat>) {
    w != [] && w[0] in l.claims && forall i :: 0 <= i < |w| - 1 ==> Inference(l, w[i]) && Premise(l, w[i], w[i + 1])
  }

  /** An inference that keeps the rules rests on other claims only, none of them unknown. */
  lemma AcceptedInference(l: Ledger, w: World, c: nat)
    requires Loaded(l) && Inference(l, c) && ClaimFaults(l, w, c) == []
    ensures exists v :: Premise(l, c, v)
    ensures forall v :: Premise(l, c, v) ==> v != c && v in l.claims && !IsClass(l, v, "WD_DEPENDENT_UNKNOWN")
    ensures forall p :: p in l.claims[c].premises ==> p in l.byIri
  {
    var ps := l.claims[c].premises;
    InferenceClean(l, w, c);
    assert forall p :: p in ps ==> PremiseFault(l, c, p) == [];
    assert Names(l, ps[0], l.byIri[ps[0]]);
    assert Premise(l, c, l.byIri[ps[0]]);
  }

  lemma InferenceClean(l: Ledger, w: World, c: nat)
    requires Inference(l, c) && ClaimFaults(l, w, c) == []
    ensures l.claims[c].premises != [] && forall p :: p in l.claims[c].premises ==> PremiseFault(l, c, p) == []
  {
    hide SuppliedFaults, PublicFaults, UnknownFaults;
    assert InferenceFaults(l, w, c) == [];
    var f := p => PremiseFault(l, c, p);
    assert Each(l.claims[c].premises, f) == [];
    assert forall p :: p in l.claims[c].premises ==> f(p) == [];
  }

  lemma AcceptedClass(l: Ledger, w: World, c: nat)
    requires c in l.claims && ClaimFaults(l, w, c) == []
    ensures |l.claims[c].classes| == 1 && l.claims[c].classes[0] in CLASSES
  {}

  /** A chain of accepted inferences is a walk through the ledger. */
  lemma ChainWalks(l: Ledger, world: World, w: seq<nat>)
    requires Loaded(l) && LedgerKept(l, world) && Chain(l, w)
    ensures Walk(l, w) && forall i :: 0 <= i < |w| ==> w[i] in l.claims
  {
    hide ClaimFaults, GuardFaults, Premise, Loaded;
    RulesKeptIff(l, world);
    forall i {:trigger w[i]} | 0 <= i < |w| ensures w[i] in l.claims && (i < |w| - 1 ==> Edge(l, w[i], w[i + 1])) {
      if i < |w| - 1 {
        AcceptedInference(l, world, w[i]);
      }
      if i > 0 {
        assert Inference(l, w[i - 1]) && Premise(l, w[i - 1], w[i - 1 + 1]);
        AcceptedInference(l, world, w[i - 1]);
      }
    }
  }

  lemma RepeatIsCycle(l: Ledger, w: seq<nat>, i: nat, j: nat)
    requires Walk(l, w) && i < j < |w| && w[i] == w[j]
    ensures Cyclic(l)
  {
    hide Edge;
    var t := w[i..j + 1];
    forall k | 0 <= k < |t| - 1 ensures Edge(l, t[k], t[k + 1]) {
      assert t[k] == w[i + k] && t[k + 1] == w[i + k + 1];
    }
    assert ClosedWalk(l, t);
  }

  /** Along a chain no claim comes twice, so no chain is longer than the ledger. */
  lemma ChainsAreShort(l: Ledger, world: World, w: seq<nat>)
    requires Loaded(l) && LedgerKept(l, world) && !Cyclic(l) && Chain(l, w)
    ensures forall i, j :: 0 <= i < j < |w| ==> w[i] != w[j]
    ensures |w| <= |l.claims|
  {
    hide Loaded, RulesKept, Cyclic, Chain, Walk;
    RulesKeptIff(l, world);
    ChainWalks(l, world, w);
    forall i, j | 0 <= i < j < |w| ensures w[i] != w[j] {
      if w[i] == w[j] {
        RepeatIsCycle(l, w, i, j);
      }
    }
    DistinctFit(w, l.claims.Keys);
    assert |l.claims.Keys| == |l.claims|;
  }

  lemma {:induction false} DistinctFit(w: seq<nat>, s: set<nat>)
    requires forall i, j :: 0 <= i < j < |w| ==> w[i] != w[j]
    requires forall i :: 0 <= i < |w| ==> w[i] in s
    ensures |w| <= |s|
  {
    if w != [] {
      DistinctFit(w[1..], s - {w[0]});
    }
  }

  /** An accepted ledger is grounded: a chain from an inference never meets an unsupplied input, it can be
      carried on while it stands at an inference, and where it cannot, it stands on a supplied or a publicly
      observable claim. */
  lemma AcceptedIsGrounded(l: Ledger, world: World, w: seq<nat>)
    requires Loaded(l) && LedgerKept(l, world) && !Cyclic(l) && Chain(l, w) && Inference(l, w[0])
    ensures var z := w[|w| - 1];
      && z in l.claims && !IsClass(l, z, "WD_DEPENDENT_UNKNOWN")
      && (Inference(l, z) ==> exists v :: Chain(l, w + [v]))
      && (!Inference(l, z) ==> IsClass(l, z, "SUPPLIED") || IsClass(l, z, "PUBLICLY_OBSERVABLE"))
  {
    hide ClaimFaults, GuardFaults, Premise;
    RulesKeptIff(l, world);
    var n := |w| - 1;
    var z := w[n];
    if n > 0 {
      assert w[n - 1 + 1] == z;
      AcceptedInference(l, world, w[n - 1]);
    }
    AcceptedClass(l, world, z);
    assert l.claims[z].classes == [l.claims[z].classes[0]];
    if Inference(l, z) {
      AcceptedInference(l, world, z);
      var v :| Premise(l, z, v);
      ChainOn(l, w, v);
    }
  }

  lemma ChainOn(l: Ledger, w: seq<nat>, v: nat)
    requires Chain(l, w) && Inference(l, w[|w| - 1]) && Premise(l, w[|w| - 1], v)
    ensures Chain(l, w + [v])
  {
    hide Premise;
  }
}
