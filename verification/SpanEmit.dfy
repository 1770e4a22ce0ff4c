/** What the span emitter writes and what the span checker makes of it.

    Every block of the document has a subject of its own, so what the graph says about a subject is what its block
    says. From there, rule by rule, an emitted candidate is refused nothing; and where the namespace is relative, or the
    prefix takes a name away from the vocabulary, the checker does refuse the document.

    The last part starts from an extraction that is refused nothing. */
module SpanEmit {
  import J = Json
  import opened Common
  import opened Text
  import opened Utf8
  import opened R = TurtleReader
  import opened Spans
  import opened SpanRender
  import opened SpanReading
  import opened SpanCheck

  // ---------------------------------------------------------------- every block has its own subject

  /** SHA-256 written in hexadecimal, as far as names depend on it. */
  predicate HexDigits(h: string) {
    |h| >= 16 && forall c :: c in h ==> IsDigit(c) || 'a' <= c <= 'f'
  }

  ghost predicate HexHash(d: Digest) {
    forall s :: HexDigits(d.hash(s))
  }

  const NAME_LENGTH := 18

  lemma NameShape(d: Digest, c: Candidate)
    requires HexHash(d) && c.local == CandidateLocal(d.source, d.hash, c.start, c.end, c.kind)
    ensures |c.local| == NAME_LENGTH && PlainLocal(c.local)
  {
    var h := d.hash(d.source + ":" + Numeral(c.start) + ":" + Numeral(c.end) + ":" + c.kind);
    assert HexDigits(h);
    assert c.local == "P-" + h[..16];
  }

  lemma ChildNameShape(local: string, h: HintKey, n: nat)
    requires |local| == NAME_LENGTH
    ensures var name := ChildName(local, h, n);
      |name| > NAME_LENGTH && name[..NAME_LENGTH] == local && name[NAME_LENGTH..] == "-" + KeyName(h) + "-" + Decimal(n)
  {
    hide Decimal, KeyName;
    Regroup(local, KeyName(h), Decimal(n));
  }

  lemma Regroup(a: string, b: string, c: string)
    ensures a + "-" + b + "-" + c == a + ("-" + b + "-" + c)
  {}

  lemma NodeKeysDiffer(h: HintKey, k: HintKey, m: nat, n: nat)
    requires NodeHint(h) && NodeHint(k) && "-" + KeyName(h) + "-" + Decimal(m) == "-" + KeyName(k) + "-" + Decimal(n)
    ensures h == k && m == n
  {
    hide Decimal;
    var a, b := "-" + KeyName(h) + "-" + Decimal(m), "-" + KeyName(k) + "-" + Decimal(n);
    assert a[1] == KeyName(h)[0] && b[1] == KeyName(k)[0];
    assert h == k;
    var z := |KeyName(h)| + 2;
    assert a[z..] == Decimal(m) && b[z..] == Decimal(n);
    DecimalInjective(m, n);
  }

  lemma ChildNamesDiffer(a: string, b: string, h: HintKey, k: HintKey, m: nat, n: nat)
    requires |a| == NAME_LENGTH == |b| && NodeHint(h) && NodeHint(k)
    requires ChildName(a, h, m) == ChildName(b, k, n)
    ensures a == b && h == k && m == n
  {
    hide Decimal, KeyName, ChildName;
    ChildNameShape(a, h, m);
    ChildNameShape(b, k, n);
    NodeKeysDiffer(h, k, m, n);
  }

  function Main(c: Candidate, job: Job): Block {
    Block(c.local, "Proposition", Body(c, job))
  }

  /** The n-th node of a hint, counted from one. */
  predicate IsChild(c: Candidate, h: HintKey, n: nat, b: Block) {
    NodeHint(h) && 0 < n <= |ValuesOf(c, h)| && b == Child(c.local, h, n, ValuesOf(c, h)[n - 1])
  }

  ghost predicate HasChild(c: Candidate, keys: seq<HintKey>, b: Block) {
    exists h, n :: h in keys && IsChild(c, h, n, b)
  }

  lemma KeyChildrenAre(c: Candidate, h: HintKey, b: Block)
    ensures b in KeyChildren(c.local, h, ValuesOf(c, h)) <==> exists n :: IsChild(c, h, n, b)
  {
    hide Child, ValuesOf;
    var vs := ValuesOf(c, h);
    var r := KeyChildren(c.local, h, vs);
    if NodeHint(h) {
      forall i | 0 <= i < |r| ensures IsChild(c, h, i + 1, r[i]) {
      }
      forall n | IsChild(c, h, n, b) ensures b in r {
        assert r[n - 1] == b;
      }
    }
  }

  lemma {:induction false} ChildrenAre(c: Candidate, keys: seq<HintKey>, b: Block)
    ensures b in Children(c, keys) <==> HasChild(c, keys, b)
  {
    hide IsChild, KeyChildren;
    if keys != [] {
      var k := |keys| - 1;
      ChildrenAre(c, keys[..k], b);
      KeyChildrenAre(c, keys[k], b);
      assert forall h :: h in keys <==> h in keys[..k] || h == keys[k];
    }
  }

  lemma AllKeys()
    ensures forall h: HintKey :: h in SORTED_KEYS
  {
    forall h: HintKey ensures h in SORTED_KEYS {
      match h
      case Acceptance => assert SORTED_KEYS[0] == h;
      case ConsequenceClass => assert SORTED_KEYS[1] == h;
      case EvidenceHorizon => assert SORTED_KEYS[2] == h;
      case Exclusion => assert SORTED_KEYS[3] == h;
      case Falsifier => assert SORTED_KEYS[4] == h;
      case Postcondition => assert SORTED_KEYS[5] == h;
      case RequiresCapability => assert SORTED_KEYS[6] == h;
      case SuccessorPolicy => assert SORTED_KEYS[7] == h;
    }
  }

  ghost predicate Owns(c: Candidate, job: Job, b: Block) {
    b == Main(c, job) || exists h, n :: IsChild(c, h, n, b)
  }

  lemma CandidateBlocksAre(c: Candidate, job: Job, b: Block)
    ensures b in CandidateBlocks(c, job) <==> Owns(c, job, b)
  {
    hide IsChild, Body, Children;
    ChildrenAre(c, SORTED_KEYS, b);
    AllKeys();
  }

  lemma {:induction false} AllBlocksAre(cs: seq<Candidate>, job: Job, b: Block)
    ensures b in AllBlocks(cs, job) <==> exists c :: c in cs && Owns(c, job, b)
  {
    hide Owns, CandidateBlocks;
    if cs != [] {
      var k := |cs| - 1;
      AllBlocksAre(cs[..k], job, b);
      CandidateBlocksAre(cs[k], job, b);
      assert forall c :: c in cs <==> c in cs[..k] || c == cs[k];
    }
  }

  ghost predicate WellNamed(cs: seq<Candidate>) {
    DistinctNames(cs) && forall c :: c in cs ==> |c.local| == NAME_LENGTH
  }

  lemma SameName(cs: seq<Candidate>, c: Candidate, e: Candidate)
    requires WellNamed(cs) && c in cs && e in cs && c.local == e.local
    ensures c == e
  {
    var i :| 0 <= i < |cs| && cs[i] == c;
    var j :| 0 <= j < |cs| && cs[j] == e;
  }

  /** Two blocks with the same subject are the same block. */
  lemma BlocksDiffer(cs: seq<Candidate>, job: Job, a: Block, b: Block)
    requires WellNamed(cs) && a in AllBlocks(cs, job) && b in AllBlocks(cs, job) && a.local == b.local
    ensures a == b
  {
    hide AllBlocks, IsChild, Body, WellNamed;
    AllBlocksAre(cs, job, a);
    AllBlocksAre(cs, job, b);
    var c :| c in cs && Owns(c, job, a);
    var e :| e in cs && Owns(e, job, b);
    SameOwner(cs, job, c, e, a, b);
  }

  lemma OwnedName(c: Candidate, job: Job, b: Block)
    requires Owns(c, job, b) && |c.local| == NAME_LENGTH
    ensures |b.local| >= NAME_LENGTH && b.local[..NAME_LENGTH] == c.local
    ensures |b.local| == NAME_LENGTH <==> b == Main(c, job)
  {
    hide ChildName, Body, KeyName;
    if b != Main(c, job) {
      var h, n :| IsChild(c, h, n, b);
      ChildNameShape(c.local, h, n);
    }
  }

  lemma SameOwner(cs: seq<Candidate>, job: Job, c: Candidate, e: Candidate, a: Block, b: Block)
    requires WellNamed(cs) && c in cs && e in cs && Owns(c, job, a) && Owns(e, job, b) && a.local == b.local
    ensures a == b
  {
    hide ChildName, Body, KeyName, DistinctNames;
    OwnedName(c, job, a);
    OwnedName(e, job, b);
    SameName(cs, c, e);
    if a != Main(c, job) {
      var h, m :| IsChild(c, h, m, a);
      var k, n :| IsChild(e, k, n, b);
      ChildNamesDiffer(c.local, e.local, h, k, m, n);
    }
  }

  // ---------------------------------------------------------------- what the graph says about one subject

  ghost predicate OwnSubjects(bs: seq<Block>) {
    GoodBlocks(bs) && forall a, b :: a in bs && b in bs && a.local == b.local ==> a == b
  }

  lemma TermsDiffer(a: string, b: string, st: Style)
    requires PlainLocal(a) && PlainLocal(b) && TermIri(a, st) == TermIri(b, st)
    ensures a == b
  {
    hide PlainLocal, SafeLocal, Chopped;
    PlainLocalIs(a);
    PlainLocalIs(b);
    var space := st.base(st.namespace);
    assert (space + a)[|space|..] == a && (space + b)[|space|..] == b;
  }

  /** What the graph says about a block's subject is what the block says. */
  lemma BlockSays(bs: seq<Block>, b: Block, st: Style, env: Scope)
    requires OwnSubjects(bs) && b in bs && "sj" in env.names && "dcterms" in env.names
    ensures forall t :: t in Graph(bs, st, env) && t.s == TermIri(b.local, st) <==> t in BlockTriples(b, st, env)
  {
    hide BodyTriples, PlainLocal, LocalText, GoodBody, TermIri;
    forall t | t in Graph(bs, st, env) && t.s == TermIri(b.local, st) ensures t in BlockTriples(b, st, env) {
      var a :| a in bs && t in BlockTriples(a, st, env);
      BlockSubject(a, t, st, env);
      TermsDiffer(a.local, b.local, st);
    }
    forall t | t in BlockTriples(b, st, env) ensures t in Graph(bs, st, env) && t.s == TermIri(b.local, st) {
      BlockSubject(b, t, st, env);
    }
  }

  lemma BlockSubject(b: Block, t: Triple, st: Style, env: Scope)
    requires GoodBlock(b) && "sj" in env.names && "dcterms" in env.names && t in BlockTriples(b, st, env)
    ensures t.s == TermIri(b.local, st)
  {
    hide GoodValue, GoodWord, PredIri, ValueNode;
  }

  /** The properties of a block that are written with a predicate's IRI. */
  lemma BlockObjects(bs: seq<Block>, b: Block, st: Style, env: Scope, p: string, o: Node)
    requires OwnSubjects(bs) && b in bs && "sj" in env.names && "dcterms" in env.names && GoodBody(b.body)
    ensures o in Objects(Graph(bs, st, env), TermIri(b.local, st), p) <==>
      (p == RDF_TYPE && o == Iri(env.names["sj"] + b.cls))
      || exists q :: q in b.body && p == PredIri(q.pred, env) && o == ValueNode(q.value, st, env)
  {
    hide GoodBlock, GoodValue, PredIri, ValueNode, Graph, OwnSubjects, TermIri;
    Lookups(bs, b);
    BlockSays(bs, b, st, env);
    var t := Triple(TermIri(b.local, st), p, o);
    assert t in BlockTriples(b, st, env) <==> t == TypeTriple(b, st, env) || t in BodyTriples(TermIri(b.local, st), b.body, st, env);
  }

  lemma Lookups(bs: seq<Block>, b: Block)
    requires OwnSubjects(bs) && b in bs
    ensures GoodBlocks(bs) && GoodBlock(b)
  {}

  // ---------------------------------------------------------------- predicates tell apart

  /** A number that tells the names apart: their length, first and last letters. */
  function NameRank(s: string): int
    requires s != ""
  {
    |s| * 1000000 + (s[0] as int) * 1000 + (s[|s| - 1] as int)
  }

  function Rank(q: Pred): int {
    match q
    case TheSingle(PropositionKind) => 15112100
    case TheSingle(Statement) => 9115116
    case TheSingle(SourceDocument) => 14115116
    case TheSingle(SourceSha256) => 12115054
    case TheSingle(SourceStart) => 11115116
    case TheSingle(SourceEnd) => 9115100
    case TheSingle(SourceText) => 10115116
    case TheSingle(BoundaryClass) => 13098115
    case TheSingle(CandidateStanding) => 17099103
    case TheSingle(ExtractedBy) => 11101121
    case RequiredBy => 10114121
    case Hint(ConsequenceClass) => 16099115
    case Hint(EvidenceHorizon) => 15101110
    case Hint(Exclusion) => 9101110
    case Hint(Postcondition) => 13112110
    case Hint(RequiresCapability) => 18114121
    case Hint(SuccessorPolicy) => 15115121
    case Hint(Acceptance) => 10097101
    case Hint(Falsifier) => 9102114
    case Description => 11100110
  }

  lemma SingleRankIs(p: Single)
    ensures SingleName(p) != "" && NameRank(SingleName(p)) == Rank(TheSingle(p))
  {}

  lemma HintRankIs(h: HintKey)
    ensures KeyName(h) != "" && NameRank(KeyName(h)) == Rank(Hint(h))
  {}

  lemma RankIs(q: Pred)
    ensures PredName(q) != "" && NameRank(PredName(q)) == Rank(q)
  {
    hide SingleName, KeyName, Rank, NameRank;
    OtherRanks();
    match q
    case TheSingle(p) => SingleRankIs(p);
    case Hint(h) => HintRankIs(h);
    case _ =>
  }

  lemma OtherRanks()
    ensures NameRank("requiredBy") == Rank(RequiredBy) && NameRank("description") == Rank(Description)
  {}

  lemma RanksDiffer(a: Pred, b: Pred)
    requires Rank(a) == Rank(b)
    ensures a == b
  {}

  lemma PredNamesDiffer(a: Pred, b: Pred)
    ensures PredName(a) == PredName(b) <==> a == b
  {
    hide PredName, Rank, NameRank;
    RankIs(a);
    RankIs(b);
    if PredName(a) == PredName(b) {
      RanksDiffer(a, b);
    }
  }

  lemma SjNamesDiffer(a: Pred, b: Pred)
    ensures Sj(PredName(a)) == Sj(PredName(b)) <==> a == b
  {
    hide PredName;
    PredNamesDiffer(a, b);
    assert Sj(PredName(a))[|SJ|..] == PredName(a) && Sj(PredName(b))[|SJ|..] == PredName(b);
  }

  lemma SchemesDiffer(x: string)
    ensures Sj(x) != RDF_TYPE && Sj(x) != DESCRIPTION && RDF_TYPE != DESCRIPTION
  {
    assert SJ[4] == 's' && Sj(x)[4] == 's';
    assert RDF_TYPE[4] == ':' && DCTERMS[4] == ':' && DESCRIPTION[4] == ':';
    assert RDF_TYPE[7] == 'w' && DCTERMS[7] == 'p' && DESCRIPTION[7] == 'p';
  }

  // ---------------------------------------------------------------- a candidate's body

  function SingleValue(c: Candidate, job: Job, p: Single): Word {
    match p
    case PropositionKind => Quote(c.kind)
    case Statement => Quote(c.statement)
    case SourceDocument => Quote(job.doc)
    case SourceSha256 => Quote(job.source)
    case SourceStart => Number(c.start)
    case SourceEnd => Number(c.end)
    case SourceText => Quote(c.text)
    case BoundaryClass => Named("sj", c.boundary)
    case CandidateStanding => Quote("UNKNOWN")
    case ExtractedBy => Quote(job.extractor)
  }

  predicate IsHint(c: Candidate, h: HintKey, n: nat, p: Property) {
    0 < n <= |ValuesOf(c, h)| && p == HintProp(c.local, h, n, ValuesOf(c, h)[n - 1])
  }

  /** Whether the candidate carries the property. */
  ghost predicate Carries(c: Candidate, job: Job, p: Property) {
    match p.pred
    case TheSingle(x) => p.value == SingleValue(c, job, x)
    case RequiredBy => exists g :: g in c.required && p.value == Local(g)
    case Hint(h) => exists n :: IsHint(c, h, n, p)
    case Description => false
  }

  lemma {:induction false} HintPropsAre(c: Candidate, keys: seq<HintKey>, p: Property)
    ensures p in HintProps(c, keys) <==>
      p.pred.Hint? && p.pred.h in keys
      && exists n :: IsHint(c, p.pred.h, n, p)
  {
    hide IsHint, KeyProps;
    if keys != [] {
      var k := |keys| - 1;
      HintPropsAre(c, keys[..k], p);
      KeyPropsAre(c, keys[k], p);
      assert forall h :: h in keys <==> h in keys[..k] || h == keys[k];
    }
  }

  lemma KeyPropsAre(c: Candidate, h: HintKey, p: Property)
    ensures p in KeyProps(c.local, h, ValuesOf(c, h)) <==> p.pred == Hint(h) && exists n :: IsHint(c, h, n, p)
  {
    hide ValuesOf, ChildName;
    var vs := ValuesOf(c, h);
    var r := KeyProps(c.local, h, vs);
    forall n | IsHint(c, h, n, p) ensures p in r {
      assert r[n - 1] == p;
    }
    forall i | 0 <= i < |r| ensures IsHint(c, h, i + 1, r[i]) {
    }
  }

  lemma GatePropsAre(gates: seq<string>, p: Property)
    ensures p in GateProps(gates) <==> p.pred == RequiredBy && exists g :: g in gates && p.value == Local(g)
  {
    var r := GateProps(gates);
    forall i | 0 <= i < |gates| ensures r[i] in r && gates[i] in gates {
    }
  }

  lemma FixedAre(c: Candidate, job: Job, p: Property)
    ensures p in Fixed(c, job) || p in Closing(job) <==> p.pred.TheSingle? && p.value == SingleValue(c, job, p.pred.p)
  {
    var f, e := Fixed(c, job), Closing(job);
    if p.pred.TheSingle? && p.value == SingleValue(c, job, p.pred.p) {
      match p.pred.p
      case PropositionKind => assert f[0] == p;
      case Statement => assert f[1] == p;
      case SourceDocument => assert f[2] == p;
      case SourceSha256 => assert f[3] == p;
      case SourceStart => assert f[4] == p;
      case SourceEnd => assert f[5] == p;
      case SourceText => assert f[6] == p;
      case BoundaryClass => assert f[7] == p;
      case CandidateStanding => assert e[0] == p;
      case ExtractedBy => assert e[1] == p;
    }
  }

  lemma BodyCarries(c: Candidate, job: Job, p: Property)
    ensures p in Body(c, job) <==> Carries(c, job, p)
  {
    hide Fixed, Closing, GateProps, HintProps, SingleValue, IsHint;
    FixedAre(c, job, p);
    GatePropsAre(c.required, p);
    HintPropsAre(c, SORTED_KEYS, p);
    AllKeys();
    assert p in Body(c, job) <==> p in Fixed(c, job) || p in GateProps(c.required) || p in HintProps(c, SORTED_KEYS) || p in Closing(job);
  }

  // ---------------------------------------------------------------- the emitted graph

  /** Arguments that are proper Turtle text, for the source they name, and a reader that resolves IRI references. */
  ghost predicate Arguments(job: Job, k: Check) {
    && GoodJob(job) && HexHash(k.d) && Resolves(job.style.base)
    && job.source == k.d.source && k.namespace == job.style.namespace && Names(k.resolved, job.doc)
  }

  /** Candidates bound to the source, under different names. */
  ghost predicate Setting(cs: seq<Candidate>, job: Job, k: Check) {
    && Arguments(job, k) && cs != [] && DistinctNames(cs)
    && forall c :: c in cs ==> WellBound(k.source, k.d, c)
  }

  lemma BoundariesArePlain(b: string)
    requires b in BOUNDARY_CLASSES
    ensures LocalText(b)
  {}

  lemma IsPrintable(k: Check, c: Candidate)
    requires HexHash(k.d) && WellBound(k.source, k.d, c)
    ensures Printable(c) && |c.local| == NAME_LENGTH
  {
    hide PlainLocal, LocalText, HexHash, CandidateLocal, GoodHints, Quotes;
    NameShape(k.d, c);
    BoundariesArePlain(c.boundary);
  }

  lemma ArePrintable(cs: seq<Candidate>, job: Job, k: Check)
    requires Setting(cs, job, k)
    ensures AllPrintable(cs) && WellNamed(cs)
  {
    hide Printable, WellBound, HexHash, GoodJob, Names;
    forall c | c in cs ensures Printable(c) && |c.local| == NAME_LENGTH {
      IsPrintable(k, c);
    }
  }

  lemma SubjectsAreOwn(cs: seq<Candidate>, job: Job)
    requires AllPrintable(cs) && WellNamed(cs)
    ensures OwnSubjects(AllBlocks(cs, job))
  {
    hide Printable, WellNamed, AllBlocks, GoodBlocks;
    AllBlocksAreGood(cs, job);
    var bs := AllBlocks(cs, job);
    forall a, b | a in bs && b in bs && a.local == b.local ensures a == b {
      BlocksDiffer(cs, job, a, b);
    }
  }

  ghost function Emitted(cs: seq<Candidate>, job: Job): set<Triple>
    requires AllPrintable(cs)
  {
    AllBlocksAreGood(cs, job);
    Graph(AllBlocks(cs, job), job.style, Env(job.style))
  }

  /** The `sj:` prefix still stands for its vocabulary. */
  predicate SjKept(st: Style) {
    Env(st).names["sj"] == SJ
  }

  /** And the namespace for itself. */
  predicate SpaceKept(st: Style) {
    st.base(st.namespace) == st.namespace
  }

  lemma MainIsThere(cs: seq<Candidate>, job: Job, c: Candidate)
    requires c in cs && AllPrintable(cs) && WellNamed(cs)
    ensures OwnSubjects(AllBlocks(cs, job)) && Main(c, job) in AllBlocks(cs, job) && GoodBody(Body(c, job))
  {
    hide Printable, WellNamed, AllBlocks, OwnSubjects, Body, GoodBody;
    SubjectsAreOwn(cs, job);
    AllBlocksAre(cs, job, Main(c, job));
    BodyIsGood(c, job);
  }

  /** A property of a candidate has, in the graph, the values the candidate carries. */
  lemma MainObjects(cs: seq<Candidate>, job: Job, c: Candidate, q: Pred, o: Node)
    requires c in cs && AllPrintable(cs) && WellNamed(cs) && SjKept(job.style) && !q.Description?
    ensures o in Objects(Emitted(cs, job), TermIri(c.local, job.style), Sj(PredName(q))) <==>
      exists p :: p in Body(c, job) && p.pred == q && GoodValue(p.value) && o == ValueNode(p.value, job.style, Env(job.style))
  {
    hide Printable, WellNamed, AllPrintable, AllBlocks, OwnSubjects, Body, Graph, Objects, ValueNode, GoodValue, PredName, Sj, TermIri;
    MainIsThere(cs, job, c);
    BlockObjects(AllBlocks(cs, job), Main(c, job), job.style, Env(job.style), Sj(PredName(q)), o);
    SchemesDiffer(PredName(q));
    forall p | p in Body(c, job) ensures PredIri(p.pred, Env(job.style)) == Sj(PredName(q)) <==> p.pred == q {
      NoDescription(c, job, p);
      SjNamesDiffer(p.pred, q);
      KeptIri(p.pred, job.style);
    }
  }

  lemma NoDescription(c: Candidate, job: Job, p: Property)
    requires p in Body(c, job)
    ensures !p.pred.Description?
  {
    hide Body;
    BodyCarries(c, job, p);
  }

  lemma KeptIri(q: Pred, st: Style)
    requires SjKept(st) && !q.Description?
    ensures PredIri(q, Env(st)) == Sj(PredName(q))
  {}

  lemma MainTypes(cs: seq<Candidate>, job: Job, c: Candidate, o: Node)
    requires c in cs && AllPrintable(cs) && WellNamed(cs) && SjKept(job.style)
    ensures o in Objects(Emitted(cs, job), TermIri(c.local, job.style), RDF_TYPE) <==> o == Proposition()
  {
    hide Printable, WellNamed, AllPrintable, AllBlocks, OwnSubjects, Body, Graph, Objects, ValueNode, GoodValue, PredName, TermIri;
    MainIsThere(cs, job, c);
    BlockObjects(AllBlocks(cs, job), Main(c, job), job.style, Env(job.style), RDF_TYPE, o);
    forall p | p in Body(c, job) ensures PredIri(p.pred, Env(job.style)) != RDF_TYPE {
      NoDescription(c, job, p);
      KeptIri(p.pred, job.style);
      SchemesDiffer(PredName(p.pred));
    }
  }

  lemma MainSingle(cs: seq<Candidate>, job: Job, c: Candidate, x: Single)
    requires c in cs && AllPrintable(cs) && WellNamed(cs) && SjKept(job.style)
    ensures GoodValue(SingleValue(c, job, x))
    ensures Val(Emitted(cs, job), TermIri(c.local, job.style), x) == Some(ValueNode(SingleValue(c, job, x), job.style, Env(job.style)))
  {
    hide Printable, WellNamed, AllPrintable, Body, Emitted, Objects, ValueNode, GoodValue, Sj, TermIri, SingleValue, SingleName, SjKept;
    var g, s := Emitted(cs, job), TermIri(c.local, job.style);
    var p := Property(TheSingle(x), SingleValue(c, job, x));
    BodyCarries(c, job, p);
    MainIsThere(cs, job, c);
    assert GoodValue(p.value);
    var v := ValueNode(p.value, job.style, Env(job.style));
    var objs := Objects(g, s, Sj(SingleName(x)));
    forall o ensures o in objs <==> o == v {
      MainObjects(cs, job, c, TheSingle(x), o);
      forall q | q in Body(c, job) && q.pred == TheSingle(x) ensures q == p {
        BodyCarries(c, job, q);
      }
    }
    assert objs == {v};
  }

  // ---------------------------------------------------------------- no rule refuses an emitted candidate

  ghost predicate Emits(cs: seq<Candidate>, job: Job, k: Check, c: Candidate) {
    Setting(cs, job, k) && AllPrintable(cs) && WellNamed(cs) && SjKept(job.style) && c in cs
  }

  function SubjectOf(c: Candidate, job: Job): Node {
    TermIri(c.local, job.style)
  }

  lemma Singles(cs: seq<Candidate>, job: Job, k: Check, c: Candidate)
    requires Emits(cs, job, k, c)
    ensures var g, s := Emitted(cs, job), SubjectOf(c, job);
      && Val(g, s, PropositionKind) == Some(Literal(c.kind, XSD_STRING))
      && Val(g, s, Statement) == Some(Literal(c.statement, XSD_STRING))
      && Val(g, s, SourceDocument) == Some(Literal(job.doc, XSD_STRING))
      && Val(g, s, SourceSha256) == Some(Literal(job.source, XSD_STRING))
      && Val(g, s, SourceText) == Some(Literal(c.text, XSD_STRING))
      && Val(g, s, CandidateStanding) == Some(Literal("UNKNOWN", XSD_STRING))
      && Val(g, s, BoundaryClass) == Some(Iri(Sj(c.boundary)))
      && Val(g, s, SourceStart) == Some(Literal(Decimal(c.start), XSD_INTEGER))
      && Val(g, s, SourceEnd) == Some(Literal(Decimal(c.end), XSD_INTEGER))
      && Val(g, s, ExtractedBy) == Some(Literal(job.extractor, XSD_STRING))
  {
    hide Setting, AllPrintable, WellNamed, Val, GoodWord, Decimal, TermIri, Emitted;
    forall x ensures GoodValue(SingleValue(c, job, x))
      && Val(Emitted(cs, job), SubjectOf(c, job), x) == Some(ValueNode(SingleValue(c, job, x), job.style, Env(job.style)))
    {
      MainSingle(cs, job, c, x);
    }
  }

  lemma NoSingleFault(cs: seq<Candidate>, job: Job, k: Check, c: Candidate)
    requires Emits(cs, job, k, c)
    ensures !Absent(Emitted(cs, job), SubjectOf(c, job)) && !Repeated(Emitted(cs, job), SubjectOf(c, job))
  {
    hide Setting, AllPrintable, WellNamed, Decimal, TermIri, Emitted, Objects, Sj, ValueNode, SingleValue, GoodValue, SjKept, SingleName;
    var g, s := Emitted(cs, job), SubjectOf(c, job);
    forall x ensures |Objects(g, s, Sj(SingleName(x)))| == 1 {
      MainSingle(cs, job, c, x);
      assert Val(g, s, x).Some?;
    }
  }

  lemma WhatIsEmitted(cs: seq<Candidate>, job: Job, k: Check, c: Candidate)
    requires Emits(cs, job, k, c)
    ensures WellBound(k.source, k.d, c) && job.source == k.d.source && Names(k.resolved, job.doc)
    ensures k.namespace == job.style.namespace && Chopped(c.local) == c.local && AllPrintable(cs) && WellNamed(cs) && SjKept(job.style)
    ensures c in cs && Printable(c)
  {
    hide WellBound, GoodJob, HexHash, Names, PlainLocal;
    PlainLocalIs(c.local);
  }

  lemma SubjectName(cs: seq<Candidate>, job: Job, k: Check, c: Candidate)
    requires Emits(cs, job, k, c)
    ensures SubjectOf(c, job) == Iri(job.style.base(job.style.namespace) + c.local)
  {
    hide Arguments, WellBound, PlainLocal, LocalText, SafeLocal;
    PlainLocalIs(c.local);
  }

  lemma NoWordFault(cs: seq<Candidate>, job: Job, k: Check, c: Candidate)
    requires Emits(cs, job, k, c)
    ensures forall f :: WordFault(f) ==> !Refused(Emitted(cs, job), k, SubjectOf(c, job), f)
  {
    hide Emits, Val, Decimal, Emitted, Names, Quotes, GoodHints, GoodGates, CandidateLocal, Sj;
    Singles(cs, job, k, c);
    WhatIsEmitted(cs, job, k, c);
  }

  lemma NoSourceFault(cs: seq<Candidate>, job: Job, k: Check, c: Candidate)
    requires Emits(cs, job, k, c)
    ensures forall f :: SourceFault(f) ==> !Refused(Emitted(cs, job), k, SubjectOf(c, job), f)
  {
    hide Emits, Val, Decimal, Emitted, Names, Quotes, GoodHints, GoodGates, CandidateLocal, Sj;
    Singles(cs, job, k, c);
    WhatIsEmitted(cs, job, k, c);
  }

  lemma DecimalReads(n: nat)
    ensures IntegerOf(Literal(Decimal(n), XSD_INTEGER)) == Some(n)
  {
    hide Decimal, Value;
    ValueOfDecimal(n);
  }

  lemma SpanIs(cs: seq<Candidate>, job: Job, k: Check, c: Candidate)
    requires Emits(cs, job, k, c)
    ensures SpanOf(Emitted(cs, job), SubjectOf(c, job)) == Some((c.start as int, c.end as int))
  {
    hide AllPrintable, WellNamed, Val, Decimal, Emitted, SjKept, Setting, IntegerOf;
    Singles(cs, job, k, c);
    DecimalReads(c.start);
    DecimalReads(c.end);
  }

  lemma QuoteDecodes(source: seq<Byte>, c: Candidate)
    requires Quotes(source, c)
    ensures InRange(source, c.start, c.end) && Decode(source[c.start..c.end]) == Some(c.text)
  {
    hide Decode, Encode;
    DecodeEncoded(c.text);
  }

  lemma NoSpanFault(cs: seq<Candidate>, job: Job, k: Check, c: Candidate)
    requires Emits(cs, job, k, c) && SpaceKept(job.style)
    ensures forall f :: SpanFault(f) || f.OffsetInvalid? ==> !Refused(Emitted(cs, job), k, SubjectOf(c, job), f)
  {
    hide Emits, Val, Decimal, Emitted, IntegerOf, Decode, SpanOf, Quotes, CandidateLocal, GoodHints, GoodGates, Sj, TermIri;
    SubjectName(cs, job, k, c);
    Singles(cs, job, k, c);
    SpanIs(cs, job, k, c);
    DecimalReads(c.start);
    DecimalReads(c.end);
    WhatIsEmitted(cs, job, k, c);
    QuoteDecodes(k.source, c);
  }

  lemma KnownHints(h: HintKey)
    ensures if NodeHint(h) then h in NODE_HINTS else h in LITERAL_HINTS
  {
    match h
    case Acceptance => assert NODE_HINTS[0] == h;
    case Falsifier => assert NODE_HINTS[1] == h;
    case ConsequenceClass => assert LITERAL_HINTS[0] == h;
    case EvidenceHorizon => assert LITERAL_HINTS[1] == h;
    case Exclusion => assert LITERAL_HINTS[2] == h;
    case Postcondition => assert LITERAL_HINTS[3] == h;
    case RequiresCapability => assert LITERAL_HINTS[4] == h;
    case SuccessorPolicy => assert LITERAL_HINTS[5] == h;
  }

  lemma IsAllowed(q: Pred)
    requires !q.Description?
    ensures Allowed(Sj(PredName(q)))
  {
    hide SingleName, KeyName, Sj;
    match q
    case TheSingle(p) => AllSingles();
    case Hint(h) => KnownHints(h);
    case RequiredBy =>
  }

  lemma NoStrangePredicate(cs: seq<Candidate>, job: Job, k: Check, c: Candidate)
    requires Emits(cs, job, k, c)
    ensures !StrangePredicate(Emitted(cs, job), SubjectOf(c, job))
  {
    hide Setting, AllPrintable, WellNamed, AllBlocks, OwnSubjects, Body, Graph, Objects, ValueNode, GoodValue, PredName, Sj, TermIri, SjKept, Allowed, Predicates;
    var g, s, env := Emitted(cs, job), SubjectOf(c, job), Env(job.style);
    MainIsThere(cs, job, c);
    TypeIsAllowed();
    forall p | p in Predicates(g, s) ensures Allowed(p) {
      var o :| Triple(s, p, o) in g;
      BlockObjects(AllBlocks(cs, job), Main(c, job), job.style, env, p, o);
      if p != RDF_TYPE {
        var q :| q in Body(c, job) && p == PredIri(q.pred, env);
        NoDescription(c, job, q);
        KeptIri(q.pred, job.style);
        IsAllowed(q.pred);
      }
    }
  }

  lemma TypeIsAllowed()
    ensures Allowed(RDF_TYPE)
  {}

  lemma TypesAre(cs: seq<Candidate>, job: Job, k: Check, c: Candidate)
    requires Emits(cs, job, k, c)
    ensures Objects(Emitted(cs, job), SubjectOf(c, job), RDF_TYPE) == {Proposition()}
    ensures SubjectOf(c, job) in Subjects(Emitted(cs, job))
  {
    hide Setting, AllPrintable, WellNamed, Emitted, Objects, TermIri, SjKept, Proposition;
    var g, s := Emitted(cs, job), SubjectOf(c, job);
    forall o ensures o in Objects(g, s, RDF_TYPE) <==> o == Proposition() {
      MainTypes(cs, job, c, o);
    }
    assert Proposition() in Objects(g, s, RDF_TYPE);
    assert Triple(s, RDF_TYPE, Proposition()) in g;
  }

  /** The gates in the graph are the candidate's. */
  lemma GatesAre(cs: seq<Candidate>, job: Job, k: Check, c: Candidate, o: Node)
    requires Emits(cs, job, k, c)
    ensures o in Objects(Emitted(cs, job), SubjectOf(c, job), Sj("requiredBy"))
       <==> exists g :: g in c.required && o == TermIri(g, job.style)
  {
    hide Setting, AllPrintable, WellNamed, Emitted, Objects, TermIri, SjKept, Body, GoodWord;
    MainObjects(cs, job, c, RequiredBy, o);
    MainIsThere(cs, job, c);
    forall p | p in Body(c, job) && p.pred == RequiredBy ensures exists g :: g in c.required && p.value == Local(g) {
      BodyCarries(c, job, p);
    }
    forall g | g in c.required ensures Property(RequiredBy, Local(g)) in Body(c, job) {
      BodyCarries(c, job, Property(RequiredBy, Local(g)));
    }
  }

  lemma CarriedIsLink(c: Candidate, job: Job, h: HintKey, o: Node, p: Property)
    requires p in Body(c, job) && p.pred == Hint(h) && GoodValue(p.value) && SjKept(job.style)
    requires o == ValueNode(p.value, job.style, Env(job.style))
    ensures exists n :: IsLink(c, job, h, n, o)
  {
    hide TermIri, SjKept, Body, GoodWord, ChildName, ValuesOf;
    BodyCarries(c, job, p);
    var n :| IsHint(c, h, n, p);
    assert IsLink(c, job, h, n, o);
  }

  lemma LinkIsInBody(c: Candidate, job: Job, h: HintKey, o: Node, n: nat) returns (p: Property)
    requires Printable(c) && SjKept(job.style) && IsLink(c, job, h, n, o)
    ensures p in Body(c, job) && p.pred == Hint(h) && GoodValue(p.value) && o == ValueNode(p.value, job.style, Env(job.style))
  {
    hide TermIri, SjKept, Body, GoodWord, ChildName, ValuesOf, PlainLocal, LocalText;
    p := HintProp(c.local, h, n, ValuesOf(c, h)[n - 1]);
    assert IsHint(c, h, n, p);
    BodyCarries(c, job, p);
    BodyIsGood(c, job);
  }

  lemma LinkIsCarried(c: Candidate, job: Job, h: HintKey, o: Node)
    requires Printable(c) && SjKept(job.style)
    ensures (exists p :: p in Body(c, job) && p.pred == Hint(h) && GoodValue(p.value) && o == ValueNode(p.value, job.style, Env(job.style)))
       <==> exists n :: IsLink(c, job, h, n, o)
  {
    hide SjKept, Body, GoodValue, ValueNode, IsLink, Printable;
    if p :| p in Body(c, job) && p.pred == Hint(h) && GoodValue(p.value) && o == ValueNode(p.value, job.style, Env(job.style)) {
      CarriedIsLink(c, job, h, o, p);
    }
    if n :| IsLink(c, job, h, n, o) {
      var p := LinkIsInBody(c, job, h, o, n);
    }
  }

  lemma HintsAre(cs: seq<Candidate>, job: Job, k: Check, c: Candidate, h: HintKey, o: Node)
    requires Emits(cs, job, k, c)
    ensures o in Linked(Emitted(cs, job), SubjectOf(c, job), h) <==> exists n :: IsLink(c, job, h, n, o)
  {
    hide Setting, WellNamed, Emitted, Objects, SjKept, Body, GoodValue, IsLink, KeyName, Printable;
    MainObjects(cs, job, c, Hint(h), o);
    LinkIsCarried(c, job, h, o);
  }

  /** The n-th value of a hint as the graph holds it. */
  predicate IsLink(c: Candidate, job: Job, h: HintKey, n: nat, o: Node) {
    0 < n <= |ValuesOf(c, h)|
    && o == if NodeHint(h) then NodeTerm(c, job, h, n) else Literal(ValuesOf(c, h)[n - 1], XSD_STRING)
  }

  lemma NoBadHint(cs: seq<Candidate>, job: Job, k: Check, c: Candidate)
    requires Emits(cs, job, k, c)
    ensures !BadHint(Emitted(cs, job), SubjectOf(c, job))
  {
    hide Emits, Emitted, Linked, ChildName, TermIri, Blank, Distinct, SubjectOf, Quotes, GoodGates, CandidateLocal;
    WhatIsEmitted(cs, job, k, c);
    var g, s := Emitted(cs, job), SubjectOf(c, job);
    LiteralsAreNotNodes();
    forall h, o | h in LITERAL_HINTS && o in Linked(g, s, h) ensures o.Literal? && !Blank(o.text) {
      HintsAre(cs, job, k, c, h, o);
      var n :| IsLink(c, job, h, n, o);
      assert h in c.hints && GoodValues(c.hints[h]);
    }
  }

  lemma LiteralsAreNotNodes()
    ensures forall h :: h in LITERAL_HINTS ==> !NodeHint(h)
  {}

  lemma NoLinkFault(cs: seq<Candidate>, job: Job, k: Check, c: Candidate, f: Fault)
    requires Emits(cs, job, k, c) && (f.TypeInvalid? || f.RequiredByInvalid? || f.HintsInvalid? || f.IriInvalid?)
    ensures !Refused(Emitted(cs, job), k, SubjectOf(c, job), f)
  {
    hide Emits, Emitted, Objects, BadHint, Sj;
    WhatIsEmitted(cs, job, k, c);
    var g, s := Emitted(cs, job), SubjectOf(c, job);
    TypesAre(cs, job, k, c);
    NoBadHint(cs, job, k, c);
    forall o | o in Objects(g, s, Sj("requiredBy")) ensures o.Iri? {
      GatesAre(cs, job, k, c, o);
    }
  }

  // ---------------------------------------------------------------- hint nodes

  predicate DcKept(st: Style) {
    Env(st).names["dcterms"] == DCTERMS
  }

  function DescribedBy(st: Style): string {
    Env(st).names["dcterms"] + "description"
  }

  lemma ChildIsThere(cs: seq<Candidate>, job: Job, c: Candidate, h: HintKey, n: nat, b: Block)
    requires c in cs && AllPrintable(cs) && WellNamed(cs) && IsChild(c, h, n, b)
    ensures OwnSubjects(AllBlocks(cs, job)) && b in AllBlocks(cs, job) && GoodBody(b.body)
  {
    hide PlainLocal, LocalText, WellNamed, AllBlocks, OwnSubjects, Child, GoodBody, ValuesOf;
    SubjectsAreOwn(cs, job);
    AllBlocksAre(cs, job, b);
    ChildIsGood(c.local, h, n, ValuesOf(c, h)[n - 1]);
  }

  /** Everything the graph says about a hint node. */
  lemma ChildObjects(cs: seq<Candidate>, job: Job, c: Candidate, h: HintKey, n: nat, b: Block, p: string, o: Node)
    requires c in cs && AllPrintable(cs) && WellNamed(cs) && SjKept(job.style) && IsChild(c, h, n, b)
    ensures o in Objects(Emitted(cs, job), TermIri(b.local, job.style), p) <==>
      (p == RDF_TYPE && o == Iri(Sj(NodeClass(h)))) || (p == DescribedBy(job.style) && o == Literal(ValuesOf(c, h)[n - 1], XSD_STRING))
  {
    hide Printable, WellNamed, AllPrintable, AllBlocks, OwnSubjects, Graph, Objects, TermIri, ValuesOf, NodeClass, ChildName;
    ChildIsThere(cs, job, c, h, n, b);
    BlockObjects(AllBlocks(cs, job), b, job.style, Env(job.style), p, o);
    var q := Property(Description, Quote(ValuesOf(c, h)[n - 1]));
    assert b.body == [q];
    assert q in b.body;
  }

  lemma NodeIsGoodOne(cs: seq<Candidate>, job: Job, k: Check, c: Candidate, h: HintKey, n: nat, b: Block)
    requires Emits(cs, job, k, c) && DcKept(job.style) && IsChild(c, h, n, b)
    ensures GoodNode(Emitted(cs, job), h, TermIri(b.local, job.style)) && Plainly(Emitted(cs, job), TermIri(b.local, job.style))
  {
    hide Emits, Emitted, Objects, TermIri, Quotes, GoodGates, CandidateLocal, Blank, GoodHints, NodeClass, Sj, IsChild;
    WhatIsEmitted(cs, job, k, c);
    NodeTextIs(c, h, n, b);
    var g, child, v := Emitted(cs, job), TermIri(b.local, job.style), Literal(NodeText(c, h, n, b), XSD_STRING);
    SchemesDiffer("");
    forall p, o ensures o in Objects(g, child, p) <==> (p == RDF_TYPE && o == Iri(Sj(NodeClass(h)))) || (p == DESCRIPTION && o == v) {
      ChildObjects(cs, job, c, h, n, b, p, o);
    }
    assert Objects(g, child, RDF_TYPE) == {Iri(Sj(NodeClass(h)))};
    assert Objects(g, child, DESCRIPTION) == {v};
    assert |{v}| == 1;
    forall p | p in Predicates(g, child) ensures p in {RDF_TYPE, DESCRIPTION} {
      var o :| Triple(child, p, o) in g;
      assert o in Objects(g, child, p);
    }
  }

  /** A hint node's text, which is not blank. */
  lemma NodeTextIs(c: Candidate, h: HintKey, n: nat, b: Block)
    requires IsChild(c, h, n, b) && GoodHints(c.hints)
    ensures !Blank(NodeText(c, h, n, b))
  {
    hide Blank, Child, Distinct;
    assert GoodValues(c.hints[h]);
  }

  function NodeText(c: Candidate, h: HintKey, n: nat, b: Block): string
    requires IsChild(c, h, n, b)
  {
    ValuesOf(c, h)[n - 1]
  }

  function NodeTerm(c: Candidate, job: Job, h: HintKey, n: nat): Node {
    TermIri(ChildName(c.local, h, n), job.style)
  }

  function NodeTerms(c: Candidate, job: Job, h: HintKey, m: nat): set<Node> {
    if m == 0 then {} else NodeTerms(c, job, h, m - 1) + {NodeTerm(c, job, h, m)}
  }

  lemma {:induction false} NodeTermsAre(c: Candidate, job: Job, h: HintKey, m: nat, o: Node)
    ensures o in NodeTerms(c, job, h, m) <==> exists n: nat :: 0 < n <= m && o == NodeTerm(c, job, h, n)
  {
    hide NodeTerm;
    if m > 0 {
      NodeTermsAre(c, job, h, m - 1, o);
    }
  }

  lemma ChildTermsDiffer(c: Candidate, job: Job, h: HintKey, m: nat, n: nat)
    requires PlainLocal(c.local) && NodeTerm(c, job, h, m) == NodeTerm(c, job, h, n)
    ensures m == n
  {
    hide TermIri, PlainLocal, Decimal, KeyName;
    var a, b := ChildName(c.local, h, m), ChildName(c.local, h, n);
    ChildNameIsPlain(c.local, h, m);
    ChildNameIsPlain(c.local, h, n);
    TermsDiffer(a, b, job.style);
    var z := |c.local| + 1 + |KeyName(h)| + 1;
    assert a[z..] == Decimal(m) && b[z..] == Decimal(n);
    DecimalInjective(m, n);
  }

  lemma {:induction false} NodesCounted(c: Candidate, job: Job, h: HintKey, m: nat)
    requires PlainLocal(c.local)
    ensures |NodeTerms(c, job, h, m)| == m
  {
    hide NodeTerm, PlainLocal;
    if m > 0 {
      NodesCounted(c, job, h, m - 1);
      var last := NodeTerm(c, job, h, m);
      NodeTermsAre(c, job, h, m - 1, last);
      if last in NodeTerms(c, job, h, m - 1) {
        var n :| 0 < n <= m - 1 && last == NodeTerm(c, job, h, n);
        ChildTermsDiffer(c, job, h, m, n);
      }
    }
  }

  lemma LinkedCounted(cs: seq<Candidate>, job: Job, k: Check, c: Candidate, h: HintKey)
    requires Emits(cs, job, k, c) && NodeHint(h)
    ensures |Linked(Emitted(cs, job), SubjectOf(c, job), h)| == |ValuesOf(c, h)|
  {
    hide Emits, Emitted, Linked, PlainLocal, LocalText, ValuesOf, SubjectOf, WellBound, NodeTerm;
    WhatIsEmitted(cs, job, k, c);
    var m := |ValuesOf(c, h)|;
    var linked := Linked(Emitted(cs, job), SubjectOf(c, job), h);
    NodesCounted(c, job, h, m);
    forall o ensures o in linked <==> o in NodeTerms(c, job, h, m) {
      HintsAre(cs, job, k, c, h, o);
      NodeTermsAre(c, job, h, m, o);
      assert forall n: nat :: IsLink(c, job, h, n, o) <==> 0 < n <= m && o == NodeTerm(c, job, h, n);
    }
    assert linked == NodeTerms(c, job, h, m);
  }

  /** A hint node is called after its candidate. */
  lemma ChildIri(c: Candidate, job: Job, h: HintKey, n: nat)
    requires PlainLocal(c.local)
    ensures Str(TermIri(ChildName(c.local, h, n), job.style)) == ChildName(Str(SubjectOf(c, job)), h, n)
  {
    hide PlainLocal, Decimal, KeyName, Chopped, SafeLocal;
    ChildNameIsPlain(c.local, h, n);
    PlainLocalIs(ChildName(c.local, h, n));
    PlainLocalIs(c.local);
    var a, x, y, z := job.style.base(job.style.namespace), c.local, KeyName(h), Decimal(n);
    assert a + (x + "-" + y + "-" + z) == (a + x) + "-" + y + "-" + z;
  }

  lemma LinkIsChild(c: Candidate, job: Job, h: HintKey, n: nat, o: Node) returns (b: Block)
    requires NodeHint(h) && IsLink(c, job, h, n, o)
    ensures IsChild(c, h, n, b) && o == TermIri(b.local, job.style)
  {
    hide TermIri, ChildName, ValuesOf, NodeClass;
    b := Child(c.local, h, n, ValuesOf(c, h)[n - 1]);
  }

  lemma NoNodeFault(cs: seq<Candidate>, job: Job, k: Check, c: Candidate, h: HintKey)
    requires Emits(cs, job, k, c) && NodeHint(h) && (DcKept(job.style) || ValuesOf(c, h) == [])
    ensures !AnyBadNode(Emitted(cs, job), SubjectOf(c, job), h) && !ClutteredNode(Emitted(cs, job), SubjectOf(c, job), h)
  {
    hide Setting, WellNamed, Emitted, SjKept, Linked, ChildName, PlainLocal, LocalText, TermIri, ValuesOf, SubjectOf, GoodNode, Plainly, IsChild, Str;
    var g, s := Emitted(cs, job), SubjectOf(c, job);
    LinkedCounted(cs, job, k, c, h);
    forall o | o in Linked(g, s, h) ensures IsNumbered(g, s, h, o) && GoodNode(g, h, o) && Plainly(g, o) {
      HintsAre(cs, job, k, c, h, o);
      var n :| IsLink(c, job, h, n, o);
      var b := LinkIsChild(c, job, h, n, o);
      NodeIsGoodOne(cs, job, k, c, h, n, b);
      ChildIri(c, job, h, n);
    }
  }

  // ---------------------------------------------------------------- the whole document

  lemma TripleOwner(cs: seq<Candidate>, job: Job, t: Triple) returns (c: Candidate, b: Block)
    requires AllPrintable(cs) && t in Emitted(cs, job)
    ensures c in cs && Owns(c, job, b) && t.s == TermIri(b.local, job.style)
  {
    hide AllPrintable, AllBlocks, GoodBlock, TermIri, BlockTriples, Owns;
    AllBlocksAreGood(cs, job);
    b :| b in AllBlocks(cs, job) && t in BlockTriples(b, job.style, Env(job.style));
    Lookup(AllBlocks(cs, job), b);
    BlockSubject(b, t, job.style, Env(job.style));
    AllBlocksAre(cs, job, b);
    c :| c in cs && Owns(c, job, b);
  }

  lemma Lookup(bs: seq<Block>, b: Block)
    requires GoodBlocks(bs) && b in bs
    ensures GoodBlock(b)
  {}

  lemma NodesAreNoPropositions(h: HintKey)
    ensures Sj(NodeClass(h)) != Sj("Proposition")
  {
    assert |NodeClass(h)| != |"Proposition"|;
    assert |Sj(NodeClass(h))| == |SJ| + |NodeClass(h)|;
  }

  ghost predicate Ready(cs: seq<Candidate>, job: Job, k: Check) {
    Setting(cs, job, k) && AllPrintable(cs) && WellNamed(cs) && SjKept(job.style)
  }

  /** The propositions in the graph are the candidates. */
  lemma SubjectsAre(cs: seq<Candidate>, job: Job, k: Check, s: Node)
    requires Ready(cs, job, k)
    ensures s in Subjects(Emitted(cs, job)) <==> exists c :: c in cs && s == SubjectOf(c, job)
  {
    hide Setting, AllPrintable, WellNamed, SjKept, TermIri, Body, ChildName, Sj, NodeClass, Emitted;
    var g := Emitted(cs, job);
    forall c | c in cs ensures SubjectOf(c, job) in Subjects(g) {
      TypesAre(cs, job, k, c);
    }
    if s in Subjects(g) {
      var t := Triple(s, RDF_TYPE, Proposition());
      assert t in g;
      var c, b := TripleOwner(cs, job, t);
      if b != Main(c, job) {
        var h, n :| IsChild(c, h, n, b);
        assert t.o in Objects(g, TermIri(b.local, job.style), RDF_TYPE);
        ChildObjects(cs, job, c, h, n, b, RDF_TYPE, t.o);
        NodesAreNoPropositions(h);
      }
    }
  }

  lemma NoStray(cs: seq<Candidate>, job: Job, k: Check, s: Node)
    requires Ready(cs, job, k)
    ensures !IsStray(Emitted(cs, job), s)
  {
    hide Setting, AllPrintable, WellNamed, SjKept, Body, ChildName, Sj, NodeClass, Emitted, Linked, Subjects, ValuesOf, KeyName;
    var g := Emitted(cs, job);
    if t :| t in g && t.s == s {
      var c, b := TripleOwner(cs, job, t);
      var candidate := SubjectOf(c, job);
      SubjectsAre(cs, job, k, candidate);
      if b != Main(c, job) {
        var h, n :| IsChild(c, h, n, b);
        assert IsLink(c, job, h, n, s);
        HintsAre(cs, job, k, c, h, s);
        assert s in NodesOf(g, candidate);
        assert HintNode(g, s);
      }
    }
  }

  function Written(cs: seq<Candidate>, job: Job): string {
    Joined(LineTexts(Document(cs, job), job.style))
  }

  /** The graph that a reader makes of the written document. */
  function ReadBack(cs: seq<Candidate>, job: Job): Option<set<Triple>> {
    ReadTurtle(Written(cs, job), job.style.base)
  }

  /** The namespace is absolute, and the prefix takes away no vocabulary that the document uses. */
  predicate Kept(cs: seq<Candidate>, job: Job) {
    && HasScheme(job.style.namespace)
    && (job.style.prefix == "sj" ==> job.style.namespace == SJ)
    && (job.style.prefix == "dcterms" && job.style.namespace != DCTERMS ==>
          forall c :: c in cs ==> ValuesOf(c, Acceptance) == [] && ValuesOf(c, HintKey.Falsifier) == [])
  }

  lemma VocabulariesHaveSchemes()
    ensures HasScheme(SJ) && HasScheme(DCTERMS)
  {
    assert SchemeEnds(SJ, 5) && SchemeEnds(DCTERMS, 4);
  }

  lemma EnvKept(st: Style)
    requires Resolves(st.base) && IsReference(st.namespace)
    ensures SpaceKept(st) <==> HasScheme(st.namespace)
    ensures SpaceKept(st) ==> (SjKept(st) <==> (st.prefix == "sj" ==> st.namespace == SJ))
    ensures SpaceKept(st) ==> (DcKept(st) <==> (st.prefix == "dcterms" ==> st.namespace == DCTERMS))
  {
    hide HasScheme;
    VocabulariesHaveSchemes();
    assert IsReference(SJ) && IsReference(DCTERMS);
    assert |"sj"| != |"dcterms"|;
  }

  lemma NothingRefused(cs: seq<Candidate>, job: Job, k: Check, c: Candidate, f: Fault)
    requires Emits(cs, job, k, c) && SpaceKept(job.style)
    requires DcKept(job.style) || (ValuesOf(c, Acceptance) == [] && ValuesOf(c, HintKey.Falsifier) == [])
    ensures !Refused(Emitted(cs, job), k, SubjectOf(c, job), f)
  {
    hide Emits, Refused, DcKept, SpaceKept, ValuesOf, SubjectOf;
    if WordFault(f) {
      NoWordFault(cs, job, k, c);
    } else if SourceFault(f) {
      NoSourceFault(cs, job, k, c);
    } else if SpanFault(f) || f.OffsetInvalid? {
      NoSpanFault(cs, job, k, c);
    } else if f.TypeInvalid? || f.RequiredByInvalid? || f.HintsInvalid? || f.IriInvalid? {
      NoLinkFault(cs, job, k, c, f);
    } else {
      NoOtherFault(cs, job, k, c, f);
    }
  }

  lemma NoOtherFault(cs: seq<Candidate>, job: Job, k: Check, c: Candidate, f: Fault)
    requires Emits(cs, job, k, c)
    requires DcKept(job.style) || (ValuesOf(c, Acceptance) == [] && ValuesOf(c, HintKey.Falsifier) == [])
    requires f.MissingProperty? || f.DuplicateProperty? || f.UnknownPredicate? || f.HintNodeInvalid?
    ensures !Refused(Emitted(cs, job), k, SubjectOf(c, job), f)
  {
    hide Emits, DcKept, ValuesOf, SubjectOf, Emitted, Absent, Repeated, StrangePredicate, AnyBadNode, ClutteredNode;
    WhatIsEmitted(cs, job, k, c);
    NoSingleFault(cs, job, k, c);
    NoStrangePredicate(cs, job, k, c);
    NoNodeFault(cs, job, k, c, Acceptance);
    NoNodeFault(cs, job, k, c, HintKey.Falsifier);
  }

  lemma ReferencesOf(job: Job, k: Check)
    requires Arguments(job, k)
    ensures Resolves(job.style.base) && IsReference(job.style.namespace)
  {
    hide Resolves, IsReference, OneLineText, PrefixName, HexHash;
  }

  /** What is emitted passes. */
  lemma EmitPasses(cs: seq<Candidate>, job: Job, k: Check)
    requires Setting(cs, job, k) && ReadableGates(cs) && Kept(cs, job)
    ensures AllPrintable(cs) && ReadBack(cs, job) == Some(Emitted(cs, job))
    ensures forall finding :: !Found(ReadBack(cs, job), k, finding)
  {
    hide AllPrintable, WellNamed, Refused, Emitted, Subjects, IsStray, ReadBack, WellBound, GoodJob, HexHash, Names;
    hide DistinctNames, ReadableGates, SjKept, DcKept, SpaceKept, Resolves, IsReference, HasScheme;
    ArePrintable(cs, job, k);
    ReferencesOf(job, k);
    EnvKept(job.style);
    EmittedIsRead(cs, job);
    var g := Emitted(cs, job);
    assert Ready(cs, job, k);
    SubjectsAre(cs, job, k, SubjectOf(cs[0], job));
    forall s, f | s in Subjects(g) ensures !Refused(g, k, s, f) {
      SubjectsAre(cs, job, k, s);
      var c :| c in cs && s == SubjectOf(c, job);
      NothingRefused(cs, job, k, c, f);
    }
    forall s ensures !IsStray(g, s) {
      NoStray(cs, job, k, s);
    }
  }

  lemma EmittedIsRead(cs: seq<Candidate>, job: Job)
    requires GoodJob(job) && AllPrintable(cs)
    ensures ReadBack(cs, job) == if ReadableGates(cs) then Some(Emitted(cs, job)) else None
  {
    hide GoodJob, AllPrintable, ReadTurtle, ReadableGates, Graph, Joined, LineTexts, Document;
    DocumentReads(cs, job);
  }

  // ---------------------------------------------------------------- what breaks it

  /** No predicate that the renderer writes is mistaken for rdf:type, whatever its prefix stands for. */
  lemma NoNameIsType(base: string, q: Pred)
    ensures base + PredName(q) != RDF_TYPE
  {
    hide PredName;
    NameEnds(q);
    var iri, name := base + PredName(q), PredName(q);
    assert iri[|iri| - 1] == name[|name| - 1] && iri[|iri| - 2] == name[|name| - 2];
    TypeEnds();
  }

  lemma TypeEnds()
    ensures RDF_TYPE[|RDF_TYPE| - 1] == 'e' && RDF_TYPE[|RDF_TYPE| - 2] == 'p'
  {
    assert RDF_TYPE == "http://www.w3.org/1999/02/22-rdf-syntax-ns#" + "type";
  }

  lemma NameEnds(q: Pred)
    ensures var name := PredName(q); |name| >= 2 && name[|name| - 2] != 'p'
  {
    hide SingleName, KeyName;
    match q
    case TheSingle(p) => SingleEnds(p);
    case Hint(h) => KeyEnds(h);
    case _ =>
  }

  lemma SingleEnds(p: Single)
    ensures var name := SingleName(p); |name| >= 2 && name[|name| - 2] != 'p'
  {}

  lemma KeyEnds(h: HintKey)
    ensures var name := KeyName(h); |name| >= 2 && name[|name| - 2] != 'p'
  {}

  predicate BlockClass(cls: string) {
    cls == "Proposition" || cls == "AcceptanceCriterion" || cls == "Falsifier"
  }

  lemma OwnedClass(c: Candidate, job: Job, b: Block)
    requires Owns(c, job, b)
    ensures BlockClass(b.cls)
  {
    hide Body, ChildName;
  }

  lemma SameEnding(a: string, b: string, x: string)
    requires a + x == b + x
    ensures a == b
  {
    assert (a + x)[..|a + x| - |x|] == a && (b + x)[..|b + x| - |x|] == b;
  }

  /** Under another namespace no class is the proposition class. */
  lemma OtherClass(base: string, cls: string)
    requires base != SJ && BlockClass(cls)
    ensures base + cls != Sj("Proposition")
  {
    var x, y := base + cls, Sj("Proposition");
    assert x[|x| - 1] == cls[|cls| - 1] && x[|x| - 9] == cls[|cls| - 9];
    assert y[|y| - 1] == 'n' && y[|y| - 9] == 'o';
    if cls == "Proposition" && x == y {
      SameEnding(base, SJ, "Proposition");
    }
  }

  lemma NoPropositions(cs: seq<Candidate>, job: Job, s: Node)
    requires AllPrintable(cs) && WellNamed(cs) && !SjKept(job.style)
    ensures s !in Subjects(Emitted(cs, job))
  {
    hide AllPrintable, WellNamed, AllBlocks, OwnSubjects, Owns, GoodBody, BlockClass, Sj, TermIri, Graph, PredName, Objects;
    var env := Env(job.style);
    if s in Subjects(Emitted(cs, job)) {
      var t := Triple(s, RDF_TYPE, Proposition());
      assert t in Emitted(cs, job);
      var c, b := TripleOwner(cs, job, t);
      SubjectsAreOwn(cs, job);
      AllBlocksAre(cs, job, b);
      OwnedClass(c, job, b);
      OwnedBodyIsGood(AllBlocks(cs, job), b);
      assert t.o in Objects(Emitted(cs, job), TermIri(b.local, job.style), RDF_TYPE);
      BlockObjects(AllBlocks(cs, job), b, job.style, env, RDF_TYPE, t.o);
      OtherClass(env.names["sj"], b.cls);
      forall q | q in b.body ensures PredIri(q.pred, env) != RDF_TYPE {
        NoNameIsType(env.names[if q.pred.Description? then "dcterms" else "sj"], q.pred);
      }
    }
  }

  lemma OwnedBodyIsGood(bs: seq<Block>, b: Block)
    requires OwnSubjects(bs) && b in bs
    ensures GoodBody(b.body)
  {}

  /** With the description prefix redefined, a hint node has no description. */
  lemma NodeHasNoDescription(cs: seq<Candidate>, job: Job, k: Check, c: Candidate, h: HintKey)
    requires Emits(cs, job, k, c) && !DcKept(job.style) && NodeHint(h) && ValuesOf(c, h) != []
    ensures Refused(Emitted(cs, job), k, SubjectOf(c, job), HintNodeInvalid)
  {
    hide Emits, Emitted, Linked, Objects, ChildName, ValuesOf, WellBound, TermIri;
    WhatIsEmitted(cs, job, k, c);
    var o := NodeTerm(c, job, h, 1);
    var b := LinkIsChild(c, job, h, 1, o);
    HintsAre(cs, job, k, c, h, o);
    var g := Emitted(cs, job);
    assert IsLink(c, job, h, 1, o) && o in Linked(g, SubjectOf(c, job), h);
    OtherDescription(job.style);
    forall v ensures v !in Objects(g, o, DESCRIPTION) {
      ChildObjects(cs, job, c, h, 1, b, DESCRIPTION, v);
    }
    assert Objects(g, o, DESCRIPTION) == {};
    assert BadNode(g, SubjectOf(c, job), h, o);
    assert AnyBadNode(g, SubjectOf(c, job), h);
    TermIsIri(c.local, job.style);
  }

  lemma TermIsIri(local: string, st: Style)
    ensures TermIri(local, st).Iri?
  {}

  lemma OtherDescription(st: Style)
    requires !DcKept(st)
    ensures DescribedBy(st) != DESCRIPTION && DESCRIPTION != RDF_TYPE
  {
    SchemesDiffer("");
    if DescribedBy(st) == DESCRIPTION {
      SameEnding(Env(st).names["dcterms"], DCTERMS, "description");
    }
  }

  /** Under a relative namespace a candidate's subject is not the name that is recomputed for it. */
  lemma RelativeNamesMove(cs: seq<Candidate>, job: Job, k: Check, c: Candidate)
    requires Emits(cs, job, k, c) && !SpaceKept(job.style)
    ensures Refused(Emitted(cs, job), k, SubjectOf(c, job), IriMismatch)
  {
    hide Emits, Val, Decimal, Emitted, SpanOf, Quotes, CandidateLocal, GoodHints, GoodGates, Sj, TermIri, Names;
    Singles(cs, job, k, c);
    SpanIs(cs, job, k, c);
    WhatIsEmitted(cs, job, k, c);
    SubjectName(cs, job, k, c);
    if job.style.base(job.style.namespace) + c.local == k.namespace + c.local {
      SameEnding(job.style.base(job.style.namespace), k.namespace, c.local);
    }
  }

  /** Exactly when the emitted document passes the check that re-verifies it. */
  lemma EmitPassesIff(cs: seq<Candidate>, job: Job, k: Check)
    requires Setting(cs, job, k) && ReadableGates(cs)
    ensures Passes(ReadBack(cs, job), k) <==> Kept(cs, job)
  {
    hide AllPrintable, WellNamed, Refused, Emitted, Subjects, ReadBack, Setting, ReadableGates, Kept;
    ArePrintable(cs, job, k);
    if Kept(cs, job) {
      EmitPasses(cs, job, k);
    } else {
      var finding := Breaks(cs, job, k);
      assert Found(ReadBack(cs, job), k, finding);
    }
  }

  lemma Breaks(cs: seq<Candidate>, job: Job, k: Check) returns (finding: Finding)
    requires Setting(cs, job, k) && ReadableGates(cs) && AllPrintable(cs) && WellNamed(cs) && !Kept(cs, job)
    ensures Found(ReadBack(cs, job), k, finding)
  {
    hide AllPrintable, WellNamed, Refused, Emitted, Subjects, ReadBack, WellBound, GoodJob, HexHash, Names;
    hide DistinctNames, ReadableGates, SjKept, DcKept, SpaceKept, ValuesOf, SubjectOf, Resolves, IsReference, HasScheme;
    ReferencesOf(job, k);
    EnvKept(job.style);
    EmittedIsRead(cs, job);
    if !SjKept(job.style) {
      forall s ensures s !in Subjects(Emitted(cs, job)) {
        NoPropositions(cs, job, s);
      }
      finding := NoCandidates;
    } else if !SpaceKept(job.style) {
      var c := cs[0];
      assert Ready(cs, job, k) && Emits(cs, job, k, c);
      RelativeNamesMove(cs, job, k, c);
      SubjectsAre(cs, job, k, SubjectOf(c, job));
      finding := About(SubjectOf(c, job), IriMismatch);
    } else {
      var c :| c in cs && !(ValuesOf(c, Acceptance) == [] && ValuesOf(c, HintKey.Falsifier) == []);
      var h := if ValuesOf(c, Acceptance) != [] then Acceptance else HintKey.Falsifier;
      assert Ready(cs, job, k) && Emits(cs, job, k, c);
      NodeHasNoDescription(cs, job, k, c, h);
      SubjectsAre(cs, job, k, SubjectOf(c, job));
      finding := About(SubjectOf(c, job), HintNodeInvalid);
    }
  }

  /** What the check tallies for a candidate is what was emitted: its kind, and its gates in the namespace. */
  lemma TallyIsEmitted(cs: seq<Candidate>, job: Job, k: Check, c: Candidate)
    requires Setting(cs, job, k) && ReadableGates(cs) && Kept(cs, job) && c in cs
    ensures ReadBack(cs, job).Some?
    ensures var g := ReadBack(cs, job).value;
      && Verified(g, k, Iri(k.namespace + c.local))
      && Val(g, Iri(k.namespace + c.local), PropositionKind).Some?
      && Summary(g, Iri(k.namespace + c.local)) == (c.kind, set gate | gate in c.required :: k.namespace + Chopped(gate))
  {
    hide AllPrintable, WellNamed, Refused, Emitted, Subjects, ReadBack, WellBound, GoodJob, HexHash, Names;
    hide DistinctNames, ReadableGates, SjKept, DcKept, ValuesOf, Val, SubjectOf, Resolves, IsReference, HasScheme;
    ArePrintable(cs, job, k);
    ReferencesOf(job, k);
    EnvKept(job.style);
    EmitPasses(cs, job, k);
    assert Emits(cs, job, k, c);
    SubjectName(cs, job, k, c);
    var g, s := Emitted(cs, job), SubjectOf(c, job);
    TypesAre(cs, job, k, c);
    Singles(cs, job, k, c);
    forall f ensures !Refused(g, k, s, f) {
      assert !Found(ReadBack(cs, job), k, About(s, f));
    }
    GatesAreEmitted(cs, job, k, c);
  }

  lemma LongerHasScheme(a: string, b: string)
    requires HasScheme(a)
    ensures HasScheme(a + b)
  {
    var k :| 0 < k < |a| && SchemeEnds(a, k);
    assert SchemeEnds(a + b, k);
  }

  lemma GateIri(gate: string, st: Style)
    requires Readable(gate) && Resolves(st.base) && HasScheme(st.namespace)
    ensures TermIri(gate, st) == Iri(st.namespace + Chopped(gate))
  {
    hide SafeLocal, HasScheme;
    LongerHasScheme(st.namespace, gate);
    assert IsReference(st.namespace) && IsReference(st.namespace + gate);
  }

  lemma GatesAreEmitted(cs: seq<Candidate>, job: Job, k: Check, c: Candidate)
    requires Emits(cs, job, k, c) && AllPrintable(cs) && ReadableGates(cs) && HasScheme(job.style.namespace)
    ensures GatesOf(Emitted(cs, job), SubjectOf(c, job)) == set gate | gate in c.required :: k.namespace + Chopped(gate)
  {
    hide Emits, Emitted, Objects, SubjectOf, Sj, Chopped, TermIri, HasScheme, Readable, Resolves;
    WhatIsEmitted(cs, job, k, c);
    ResolverOf(cs, job, k, c);
    var g, s := Emitted(cs, job), SubjectOf(c, job);
    forall gate | gate in c.required
      ensures TermIri(gate, job.style) in Objects(g, s, Sj("requiredBy")) && Str(TermIri(gate, job.style)) == k.namespace + Chopped(gate)
    {
      GatesAre(cs, job, k, c, TermIri(gate, job.style));
      GateIri(gate, job.style);
    }
    forall o | o in Objects(g, s, Sj("requiredBy")) ensures exists gate :: gate in c.required && o == TermIri(gate, job.style) {
      GatesAre(cs, job, k, c, o);
    }
  }

  lemma ResolverOf(cs: seq<Candidate>, job: Job, k: Check, c: Candidate)
    requires Emits(cs, job, k, c)
    ensures Resolves(job.style.base)
  {
    hide Resolves, WellBound, GoodJob, HexHash, Names, AllPrintable, WellNamed, SjKept;
  }

  // ---------------------------------------------------------------- from the extraction on

  lemma SortedNames(cs: seq<Candidate>)
    requires DistinctNames(cs)
    ensures DistinctNames(InOrder(cs)) && forall c :: c in InOrder(cs) <==> c in cs
  {
    hide Spans.Before, InOrder;
    InOrderIs(cs);
    var r := InOrder(cs);
    assert forall c :: c in r <==> c in multiset(r);
    assert forall c :: c in cs <==> c in multiset(cs);
    forall i, j | 0 <= i < j < |r| ensures r[i].local != r[j].local {
      var x, y := r[i], r[j];
      assert x in r && y in r;
      BeforeIsTotal(x, y);
      BeforeIsTotal(x, x);
      var m :| 0 <= m < |cs| && cs[m] == x;
      var n :| 0 <= n < |cs| && cs[n] == y;
    }
  }

  /** An extraction that is refused nothing yields a document that passes its own check, exactly under Kept. */
  lemma ExtractionPassesIff(items: seq<J.Json>, job: Job, k: Check)
    requires items != [] && Resolved(k.source, k.d, items).0 == [] && Arguments(job, k)
    ensures var cs := InOrder(Resolved(k.source, k.d, items).1);
      DistinctNames(cs) && (ReadableGates(cs) ==> (Passes(ReadBack(cs, job), k) <==> Kept(cs, job)))
  {
    hide FaultFree, Bound, InOrder, Resolved, Passes, Kept, Arguments, DistinctNames, WellBound, ReadBack, ReadableGates;
    AcceptedIff(k.source, k.d, items);
    var all := AllBound(k.source, k.d, items);
    var cs := InOrder(all);
    NamesOf(k, items);
    SortedNames(all);
    assert all[0] in all;
    assert cs != [] by {
      assert all[0] in cs;
    }
    forall c | c in cs ensures WellBound(k.source, k.d, c) {
      var i :| 0 <= i < |all| && all[i] == c;
      BoundIsWellBound(k.source, k.d, items[i]);
    }
    if ReadableGates(cs) {
      EmitPassesIff(cs, job, k);
    }
  }

  lemma NamesOf(k: Check, items: seq<J.Json>)
    requires Acceptable(k.source, k.d, items)
    ensures DistinctNames(AllBound(k.source, k.d, items))
  {
    hide FaultFree, Bound;
  }
}
