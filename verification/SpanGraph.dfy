/** What an emitted document says, over the fields of its candidates: every triple of the graph it is read back as, and
    no other. */
module SpanGraph {
  import opened Common
  import opened Text
  import opened Utf8
  import opened R = TurtleReader
  import opened Spans
  import opened SpanRender
  import opened SpanReading
  import opened SpanCheck
  import opened SpanEmit

  /** `{candidate}-{key}-{n}`. */
  function NodeName(c: Candidate, job: Job, h: HintKey, n: nat): string {
    job.style.namespace + (c.local + ("-" + (KeyName(h) + ("-" + Decimal(n)))))
  }

  /** A value of one of the candidate's properties. */
  ghost predicate ValueSaid(c: Candidate, job: Job, q: Pred, o: Node) {
    match q
    case TheSingle(p) =>
      o == (match p
            case PropositionKind => Literal(c.kind, XSD_STRING)
            case Statement => Literal(c.statement, XSD_STRING)
            case SourceDocument => Literal(job.doc, XSD_STRING)
            case SourceSha256 => Literal(job.source, XSD_STRING)
            case SourceStart => Literal(Decimal(c.start), XSD_INTEGER)
            case SourceEnd => Literal(Decimal(c.end), XSD_INTEGER)
            case SourceText => Literal(c.text, XSD_STRING)
            case BoundaryClass => Iri(SJ + c.boundary)
            case CandidateStanding => Literal("UNKNOWN", XSD_STRING)
            case ExtractedBy => Literal(job.extractor, XSD_STRING))
    case RequiredBy => exists gate :: gate in c.required && o == Iri(job.style.namespace + Chopped(gate))
    case Hint(h) => h in c.hints && exists i: nat :: i < |c.hints[h]| && HintSaid(c, job, h, i, o)
    case Description => false
  }

  ghost predicate HintSaid(c: Candidate, job: Job, h: HintKey, i: nat, o: Node)
    requires h in c.hints && i < |c.hints[h]|
  {
    if h.Acceptance? || h.Falsifier? then o == Iri(NodeName(c, job, h, i + 1)) else o == Literal(c.hints[h][i], XSD_STRING)
  }

  /** What is said of the candidate. */
  ghost predicate Said(c: Candidate, job: Job, t: Triple) {
    && t.s == Iri(job.style.namespace + c.local)
    && ((t.p == RDF_TYPE && t.o == Iri(SJ + "Proposition")) || exists q :: t.p == SJ + PredName(q) && ValueSaid(c, job, q, t.o))
  }

  /** What is said of the nodes of its acceptance criteria and falsifiers. */
  ghost predicate NodeSaid(c: Candidate, job: Job, h: HintKey, i: nat, t: Triple) {
    && (h.Acceptance? || h.Falsifier?) && h in c.hints && i < |c.hints[h]| && t.s == Iri(NodeName(c, job, h, i + 1))
    && ((t.p == RDF_TYPE && t.o == Iri(SJ + if h.Acceptance? then "AcceptanceCriterion" else "Falsifier"))
        || (t.p == DCTERMS + "description" && t.o == Literal(c.hints[h][i], XSD_STRING)))
  }

  ghost predicate AnyNodeSaid(c: Candidate, job: Job, t: Triple) {
    exists h, i: nat :: NodeSaid(c, job, h, i, t)
  }

  // ---------------------------------------------------------------- one property

  lemma ValueOfOne(g: set<Triple>, s: Node, p: Single, v: Node)
    requires Val(g, s, p) == Some(v)
    ensures forall o :: Triple(s, Sj(SingleName(p)), o) in g <==> o == v
  {
    hide SingleName;
    SoleVal(g, s, p);
    assert forall o :: o in Objects(g, s, Sj(SingleName(p))) <==> Triple(s, Sj(SingleName(p)), o) in g;
  }

  lemma SingleSaid(cs: seq<Candidate>, job: Job, k: Check, c: Candidate, p: Single, o: Node)
    requires Emits(cs, job, k, c)
    ensures Triple(SubjectOf(c, job), Sj(SingleName(p)), o) in Emitted(cs, job) <==> ValueSaid(c, job, TheSingle(p), o)
  {
    hide Setting, AllPrintable, WellNamed, Val, Decimal, TermIri, Emitted, SjKept, SingleName, SubjectOf;
    Singles(cs, job, k, c);
    ValueOfOne(Emitted(cs, job), SubjectOf(c, job), p, Val(Emitted(cs, job), SubjectOf(c, job), p).value);
  }

  lemma GateSaid(cs: seq<Candidate>, job: Job, k: Check, c: Candidate, o: Node)
    requires Emits(cs, job, k, c) && AllPrintable(cs) && ReadableGates(cs) && HasScheme(job.style.namespace)
    ensures Triple(SubjectOf(c, job), Sj("requiredBy"), o) in Emitted(cs, job) <==> ValueSaid(c, job, RequiredBy, o)
  {
    hide Emits, Emitted, Objects, SubjectOf, Sj, Chopped, TermIri, HasScheme, Readable, Resolves;
    ResolverOf(cs, job, k, c);
    WhatIsEmitted(cs, job, k, c);
    GatesAre(cs, job, k, c, o);
    forall gate | gate in c.required ensures TermIri(gate, job.style) == Iri(job.style.namespace + Chopped(gate)) {
      GateIri(gate, job.style);
    }
  }

  lemma NodeTermIs(cs: seq<Candidate>, job: Job, k: Check, c: Candidate, h: HintKey, n: nat)
    requires Emits(cs, job, k, c) && SpaceKept(job.style)
    ensures TermIri(ChildName(c.local, h, n), job.style) == Iri(NodeName(c, job, h, n))
  {
    hide Emits, TermIri, Decimal, KeyName, PlainLocal, LocalText, WellBound;
    WhatIsEmitted(cs, job, k, c);
    SubjectName(cs, job, k, c);
    ChildIri(c, job, h, n);
    TermIsIri(ChildName(c.local, h, n), job.style);
    var a, x, y, z := job.style.namespace, c.local, KeyName(h), Decimal(n);
    assert (a + x) + "-" + y + "-" + z == a + (x + ("-" + (y + ("-" + z))));
  }

  lemma HintsSaid(cs: seq<Candidate>, job: Job, k: Check, c: Candidate, h: HintKey, o: Node)
    requires Emits(cs, job, k, c) && SpaceKept(job.style)
    ensures Triple(SubjectOf(c, job), Sj(KeyName(h)), o) in Emitted(cs, job) <==> ValueSaid(c, job, Hint(h), o)
  {
    hide Emits, Emitted, SubjectOf, Sj, TermIri, KeyName, ChildName, NodeName, SpaceKept;
    WhatIsEmitted(cs, job, k, c);
    HintsAre(cs, job, k, c, h, o);
    assert o in Linked(Emitted(cs, job), SubjectOf(c, job), h) <==> Triple(SubjectOf(c, job), Sj(KeyName(h)), o) in Emitted(cs, job);
    forall n: nat ensures NodeTerm(c, job, h, n) == Iri(NodeName(c, job, h, n)) {
      NodeTermIs(cs, job, k, c, h, n);
    }
    if n: nat :| IsLink(c, job, h, n, o) {
      assert HintSaid(c, job, h, n - 1, o);
    }
    if ValueSaid(c, job, Hint(h), o) {
      var i: nat :| i < |c.hints[h]| && HintSaid(c, job, h, i, o);
      assert IsLink(c, job, h, i + 1, o);
    }
  }

  // ---------------------------------------------------------------- one subject

  ghost predicate Clear(cs: seq<Candidate>, job: Job, k: Check, c: Candidate) {
    && Emits(cs, job, k, c) && AllPrintable(cs) && ReadableGates(cs) && SpaceKept(job.style) && HasScheme(job.style.namespace)
  }

  lemma PropertySaid(cs: seq<Candidate>, job: Job, k: Check, c: Candidate, q: Pred, o: Node)
    requires Clear(cs, job, k, c) && !q.Description?
    ensures Triple(SubjectOf(c, job), SJ + PredName(q), o) in Emitted(cs, job) <==> ValueSaid(c, job, q, o)
  {
    hide Emits, Emitted, SubjectOf, KeyName, SingleName, ReadableGates, SpaceKept, HasScheme, ValueSaid, AllPrintable;
    match q
    case TheSingle(p) => SingleSaid(cs, job, k, c, p, o);
    case RequiredBy => GateSaid(cs, job, k, c, o);
    case Hint(h) => HintsSaid(cs, job, k, c, h, o);
  }

  lemma PropertyOf(cs: seq<Candidate>, job: Job, k: Check, c: Candidate, p: string, o: Node) returns (q: Pred)
    requires Emits(cs, job, k, c) && AllPrintable(cs) && p != RDF_TYPE && Triple(SubjectOf(c, job), p, o) in Emitted(cs, job)
    ensures !q.Description? && p == SJ + PredName(q)
  {
    hide Setting, AllPrintable, WellNamed, AllBlocks, OwnSubjects, Body, Graph, Objects, ValueNode, GoodValue, PredName, TermIri, SjKept;
    var env := Env(job.style);
    MainIsThere(cs, job, c);
    assert o in Objects(Emitted(cs, job), SubjectOf(c, job), p);
    BlockObjects(AllBlocks(cs, job), Main(c, job), job.style, env, p, o);
    var r :| r in Body(c, job) && p == PredIri(r.pred, env);
    NoDescription(c, job, r);
    KeptIri(r.pred, job.style);
    q := r.pred;
  }

  lemma SubjectSaid(cs: seq<Candidate>, job: Job, k: Check, c: Candidate, t: Triple)
    requires Clear(cs, job, k, c) && t.s == SubjectOf(c, job)
    ensures t in Emitted(cs, job) <==> Said(c, job, t)
  {
    hide Emits, Emitted, SubjectOf, PredName, ReadableGates, HasScheme, ValueSaid, AllPrintable, Objects;
    SubjectIs(cs, job, k, c);
    assert t == Triple(t.s, t.p, t.o);
    TypesAre(cs, job, k, c);
    if t.p == RDF_TYPE {
      assert t in Emitted(cs, job) <==> t.o in Objects(Emitted(cs, job), t.s, RDF_TYPE);
      forall q ensures SJ + PredName(q) != RDF_TYPE {
        SchemesDiffer(PredName(q));
      }
    } else {
      if t in Emitted(cs, job) {
        var q := PropertyOf(cs, job, k, c, t.p, t.o);
        PropertySaid(cs, job, k, c, q, t.o);
      }
      if q :| t.p == SJ + PredName(q) && ValueSaid(c, job, q, t.o) {
        NoDescriptionSaid(c, job, t.o);
        PropertySaid(cs, job, k, c, q, t.o);
      }
    }
  }

  lemma NoDescriptionSaid(c: Candidate, job: Job, o: Node)
    ensures !ValueSaid(c, job, Description, o)
  {}

  lemma SubjectIs(cs: seq<Candidate>, job: Job, k: Check, c: Candidate)
    requires Clear(cs, job, k, c)
    ensures SubjectOf(c, job) == Iri(job.style.namespace + c.local)
  {
    hide Emits, ReadableGates, HasScheme, AllPrintable;
    SubjectName(cs, job, k, c);
  }

  lemma ChildSaid(cs: seq<Candidate>, job: Job, k: Check, c: Candidate, h: HintKey, i: nat, t: Triple)
    requires Clear(cs, job, k, c) && (h.Acceptance? || h.Falsifier?) && h in c.hints && i < |c.hints[h]| && DcKept(job.style)
    requires t.s == TermIri(ChildName(c.local, h, i + 1), job.style)
    ensures t in Emitted(cs, job) <==> NodeSaid(c, job, h, i, t)
  {
    hide Emits, Emitted, ReadableGates, HasScheme, AllPrintable, NodeName, TermIri, ChildName, Objects;
    var b := Child(c.local, h, i + 1, ValuesOf(c, h)[i]);
    NodeTermIs(cs, job, k, c, h, i + 1);
    WhatIsEmitted(cs, job, k, c);
    assert IsChild(c, h, i + 1, b) && b.local == ChildName(c.local, h, i + 1);
    ChildObjects(cs, job, c, h, i + 1, b, t.p, t.o);
    assert t == Triple(t.s, t.p, t.o);
    assert t in Emitted(cs, job) <==> t.o in Objects(Emitted(cs, job), t.s, t.p);
  }

  // ---------------------------------------------------------------- the whole graph

  lemma NodesNeedDescriptions(cs: seq<Candidate>, job: Job, k: Check, c: Candidate, h: HintKey)
    requires Arguments(job, k) && Kept(cs, job) && SpaceKept(job.style) && c in cs && NodeHint(h) && ValuesOf(c, h) != []
    ensures DcKept(job.style)
  {
    hide Resolves, IsReference, HasScheme, ValuesOf, HexHash, DcKept, SpaceKept;
    ReferencesOf(job, k);
    EnvKept(job.style);
  }

  lemma TripleSaid(cs: seq<Candidate>, job: Job, k: Check, t: Triple) returns (c: Candidate)
    requires Setting(cs, job, k) && Kept(cs, job) && (forall c :: c in cs ==> Clear(cs, job, k, c)) && AllPrintable(cs) && t in Emitted(cs, job)
    ensures c in cs && (Said(c, job, t) || AnyNodeSaid(c, job, t))
  {
    hide AllPrintable, Emitted, TermIri, Clear, Said, NodeSaid, Kept, Arguments, WellBound, DistinctNames, Body, ChildName, SpaceKept, HasScheme;
    var b;
    c, b := TripleOwner(cs, job, t);
    ClearIs(cs, job, k, c);
    if b == Main(c, job) {
      SubjectSaid(cs, job, k, c, t);
    } else {
      var h, n: nat :| IsChild(c, h, n, b);
      NodesNeedDescriptions(cs, job, k, c, h);
      ChildSaid(cs, job, k, c, h, n - 1, t);
      assert NodeSaid(c, job, h, n - 1, t);
    }
  }

  lemma ClearIs(cs: seq<Candidate>, job: Job, k: Check, c: Candidate)
    requires Clear(cs, job, k, c)
    ensures SpaceKept(job.style) && c in cs
  {}

  lemma SaidIsThere(cs: seq<Candidate>, job: Job, k: Check, c: Candidate, t: Triple)
    requires Setting(cs, job, k) && Kept(cs, job) && Clear(cs, job, k, c) && AllPrintable(cs)
    requires Said(c, job, t) || AnyNodeSaid(c, job, t)
    ensures t in Emitted(cs, job)
  {
    hide AllPrintable, Emitted, TermIri, Clear, ValueSaid, Kept, Arguments, WellBound, DistinctNames, ChildName, SpaceKept, HasScheme, NodeName;
    ClearIs(cs, job, k, c);
    if Said(c, job, t) {
      SubjectIs(cs, job, k, c);
      SubjectSaid(cs, job, k, c, t);
    } else {
      var h, i: nat :| NodeSaid(c, job, h, i, t);
      NodesNeedDescriptions(cs, job, k, c, h);
      ClearEmits(cs, job, k, c);
      NodeTermIs(cs, job, k, c, h, i + 1);
      ChildSaid(cs, job, k, c, h, i, t);
    }
  }

  lemma ClearEmits(cs: seq<Candidate>, job: Job, k: Check, c: Candidate)
    requires Clear(cs, job, k, c)
    ensures Emits(cs, job, k, c)
  {}

  /** The graph a passing document is read back as says exactly what its candidates' fields say. */
  lemma GraphIsSaid(cs: seq<Candidate>, job: Job, k: Check)
    requires Setting(cs, job, k) && ReadableGates(cs) && Kept(cs, job)
    ensures ReadBack(cs, job).Some?
    ensures forall t :: t in ReadBack(cs, job).value <==> exists c :: c in cs && (Said(c, job, t) || AnyNodeSaid(c, job, t))
  {
    hide AllPrintable, Emitted, Clear, Said, AnyNodeSaid, ReadBack, WellBound, DistinctNames, ReadableGates, Kept;
    ArePrintable(cs, job, k);
    EmitPasses(cs, job, k);
    forall c | c in cs ensures Clear(cs, job, k, c) {
      AllClear(cs, job, k, c);
    }
    forall t ensures t in Emitted(cs, job) <==> exists c :: c in cs && (Said(c, job, t) || AnyNodeSaid(c, job, t)) {
      if t in Emitted(cs, job) {
        var c := TripleSaid(cs, job, k, t);
      }
      forall c | c in cs && (Said(c, job, t) || AnyNodeSaid(c, job, t)) ensures t in Emitted(cs, job) {
        SaidIsThere(cs, job, k, c, t);
      }
    }
  }

  lemma AllClear(cs: seq<Candidate>, job: Job, k: Check, c: Candidate)
    requires Setting(cs, job, k) && ReadableGates(cs) && Kept(cs, job) && AllPrintable(cs) && WellNamed(cs) && c in cs
    ensures Clear(cs, job, k, c)
  {
    hide Resolves, IsReference, HasScheme, AllPrintable, WellNamed, ReadableGates, WellBound, DistinctNames, HexHash, Names, SjKept, DcKept;
    ReferencesOf(job, k);
    EnvKept(job.style);
  }
}
