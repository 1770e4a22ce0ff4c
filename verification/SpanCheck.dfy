/** Re-verifying a candidates graph against the source bytes. */
module SpanCheck {
  import opened Common
  import opened Text
  import opened Utf8
  import opened R = TurtleReader
  import opened Spans
  import opened SpanRender

  /** What the checker is given beside the graph: the source, its digest, its resolved path and the namespace. */
  datatype Check = Check(source: seq<Byte>, d: Digest, resolved: string, namespace: string)

  /** The refusals a candidate can draw. */
  datatype Fault =
    | IriInvalid | UnknownPredicate | TypeInvalid | MissingProperty | DuplicateProperty | KindInvalid
    | BoundaryClassInvalid | StandingInvalid | StatementInvalid | SourceDocumentMismatch | SourceSha256Mismatch
    | OffsetInvalid | OffsetOutOfRange | Utf8SpanInvalid | SourceTextMismatch | IriMismatch | RequiredByInvalid
    | HintNodeInvalid | HintsInvalid

  datatype Finding = Unparseable | NoCandidates | Stray(s: Node) | About(s: Node, fault: Fault)

  // ---------------------------------------------------------------- looking things up

  function Str(n: Node): string {
    match n
    case Iri(x) => x
    case BNode(x) => x
    case Literal(x, _) => x
  }

  function Objects(g: set<Triple>, s: Node, p: string): (r: set<Node>)
    ensures forall o :: o in r <==> Triple(s, p, o) in g
  {
    set t | t in g && t.s == s && t.p == p :: t.o
  }

  function Predicates(g: set<Triple>, s: Node): (r: set<string>)
    ensures forall p :: p in r <==> exists o :: Triple(s, p, o) in g
  {
    var r := set t | t in g && t.s == s :: t.p;
    assert forall t :: t in g ==> t == Triple(t.s, t.p, t.o);
    r
  }

  const SINGLES := [
    PropositionKind, Statement, SourceDocument, SourceSha256, SourceStart, SourceEnd, SourceText, BoundaryClass,
    CandidateStanding, ExtractedBy]
  const LITERAL_HINTS := [ConsequenceClass, EvidenceHorizon, Exclusion, Postcondition, RequiresCapability, SuccessorPolicy]
  const NODE_HINTS := [Acceptance, Falsifier]

  function Sj(name: string): string {
    SJ + name
  }

  const DESCRIPTION := DCTERMS + "description"

  function Proposition(): Node {
    Iri(Sj("Proposition"))
  }

  /** The predicates a candidate may carry. */
  predicate Allowed(p: string) {
    p == RDF_TYPE || p == Sj("requiredBy")
    || (exists q :: q in SINGLES && p == Sj(SingleName(q)))
    || (exists h :: h in LITERAL_HINTS && p == Sj(KeyName(h)))
    || (exists h :: h in NODE_HINTS && p == Sj(KeyName(h)))
  }

  function Subjects(g: set<Triple>): set<Node> {
    set t | t in g && t.p == RDF_TYPE && t.o == Proposition() :: t.s
  }

  /** The one value of a property, None when it has none or several. */
  ghost function Sole(objs: set<Node>): (r: Option<Node>)
    ensures r.Some? <==> |objs| == 1
    ensures r.Some? ==> objs == {r.value}
  {
    if |objs| == 1 then
      var o :| o in objs;
      SoleIs(objs, o);
      Some(o)
    else None
  }

  lemma SoleIs(objs: set<Node>, o: Node)
    requires |objs| == 1 && o in objs
    ensures objs == {o}
  {
    assert |objs - {o}| == 0;
  }

  ghost function Val(g: set<Triple>, s: Node, p: Single): Option<Node> {
    Sole(Objects(g, s, Sj(SingleName(p))))
  }

  predicate Digits(s: string) {
    s != "" && forall c :: c in s ==> IsDigit(c)
  }

  function Magnitude(s: string): (r: int)
    requires Digits(s)
  {
    Value(s)
  }

  /** The number an xsd:integer literal stands for. */
  function IntegerOf(n: Node): Option<int> {
    if !n.Literal? || n.datatype_ != XSD_INTEGER then None
    else if Digits(n.text) then Some(Magnitude(n.text))
    else if n.text != "" && n.text[0] == '-' && Digits(n.text[1..]) then Some(-Magnitude(n.text[1..]))
    else if n.text != "" && n.text[0] == '+' && Digits(n.text[1..]) then Some(Magnitude(n.text[1..]))
    else None
  }

  /** The resolved source path is the document, or ends with it as whole components. */
  predicate Names(resolved: string, doc: string) {
    resolved == doc || (|doc| < |resolved| && resolved[|resolved| - |doc| - 1..] == "/" + doc)
  }

  // ---------------------------------------------------------------- the rules

  ghost predicate Has(v: Option<Node>, p: Node -> bool) {
    v.Some? && p(v.value)
  }

  predicate BadKind(v: Node) {
    !v.Literal? || v.text !in KINDS
  }

  predicate BadBoundary(v: Node) {
    !v.Iri? || !exists b :: b in BOUNDARY_CLASSES && v.name == Sj(b)
  }

  predicate BadStanding(v: Node) {
    Str(v) != "UNKNOWN"
  }

  predicate BadStatement(v: Node) {
    Blank(Str(v)) || '\n' in Str(v)
  }

  predicate NotInteger(v: Node) {
    IntegerOf(v).None?
  }

  /** The span the offsets give, None unless both are integers. */
  ghost function SpanOf(g: set<Triple>, s: Node): Option<(int, int)> {
    match (Val(g, s, SourceStart), Val(g, s, SourceEnd))
    case (Some(a), Some(b)) =>
      if IntegerOf(a).Some? && IntegerOf(b).Some? then Some((IntegerOf(a).value, IntegerOf(b).value)) else None
    case _ => None
  }

  predicate InRange(source: seq<Byte>, a: int, b: int) {
    0 <= a < b <= |source|
  }

  predicate Numbered(name: string, h: HintKey, child: Node, count: nat) {
    exists n :: 1 <= n <= count && Str(child) == ChildName(name, h, n)
  }

  ghost predicate GoodNode(g: set<Triple>, h: HintKey, child: Node) {
    var descriptions := Objects(g, child, DESCRIPTION);
    && Objects(g, child, RDF_TYPE) == {Iri(Sj(NodeClass(h)))}
    && Sole(descriptions).Some? && !Blank(Str(Sole(descriptions).value))
  }

  predicate Plainly(g: set<Triple>, child: Node) {
    Predicates(g, child) <= {RDF_TYPE, DESCRIPTION}
  }

  function Linked(g: set<Triple>, s: Node, h: HintKey): set<Node> {
    Objects(g, s, Sj(KeyName(h)))
  }

  predicate IsNumbered(g: set<Triple>, s: Node, h: HintKey, child: Node) {
    Numbered(Str(s), h, child, |Linked(g, s, h)|)
  }

  ghost predicate BadNode(g: set<Triple>, s: Node, h: HintKey, child: Node) {
    !(IsNumbered(g, s, h, child) && GoodNode(g, h, child))
  }

  ghost predicate Cluttered(g: set<Triple>, s: Node, h: HintKey, child: Node) {
    IsNumbered(g, s, h, child) && !Plainly(g, child)
  }

  predicate StrangePredicate(g: set<Triple>, s: Node) {
    exists p :: p in Predicates(g, s) && !Allowed(p)
  }

  ghost predicate ClutteredNode(g: set<Triple>, s: Node, h: HintKey) {
    exists child :: child in Linked(g, s, h) && Cluttered(g, s, h, child)
  }

  ghost predicate AnyBadNode(g: set<Triple>, s: Node, h: HintKey) {
    exists child :: child in Linked(g, s, h) && BadNode(g, s, h, child)
  }

  ghost predicate Absent(g: set<Triple>, s: Node) {
    exists p :: p in SINGLES && Objects(g, s, Sj(SingleName(p))) == {}
  }

  ghost predicate Repeated(g: set<Triple>, s: Node) {
    exists p :: p in SINGLES && |Objects(g, s, Sj(SingleName(p)))| > 1
  }

  predicate GateNotIri(g: set<Triple>, s: Node) {
    exists o :: o in Objects(g, s, Sj("requiredBy")) && !o.Iri?
  }

  predicate BadHint(g: set<Triple>, s: Node) {
    exists h, o :: h in LITERAL_HINTS && o in Linked(g, s, h) && !(o.Literal? && !Blank(o.text))
  }

  ghost predicate OffsetFault(g: set<Triple>, s: Node) {
    Has(Val(g, s, SourceStart), NotInteger) || Has(Val(g, s, SourceEnd), NotInteger)
  }

  ghost predicate RangeFault(g: set<Triple>, k: Check, s: Node) {
    SpanOf(g, s).Some? && !InRange(k.source, SpanOf(g, s).value.0, SpanOf(g, s).value.1)
  }

  ghost predicate DecodeFault(g: set<Triple>, k: Check, s: Node) {
    Spanned(g, k, s) && SpanText(g, k, s).None?
  }

  ghost predicate TextFault(g: set<Triple>, k: Check, s: Node) {
    Spanned(g, k, s) && SpanText(g, k, s).Some? && Has(Val(g, s, SourceText), v => Str(v) != SpanText(g, k, s).value)
  }

  ghost predicate NameFault(g: set<Triple>, k: Check, s: Node) {
    && SpanOf(g, s).Some? && Val(g, s, PropositionKind).Some? && Val(g, s, SourceSha256).Some?
    && Str(s) != k.namespace + CandidateLocal(
         Str(Val(g, s, SourceSha256).value), k.d.hash, SpanOf(g, s).value.0, SpanOf(g, s).value.1,
         Str(Val(g, s, PropositionKind).value))
  }

  /** Which refusals a candidate of the graph draws. */
  ghost predicate Refused(g: set<Triple>, k: Check, s: Node, f: Fault) {
    if f == IriInvalid then !s.Iri?
    else s.Iri? && match f
      case UnknownPredicate =>
        StrangePredicate(g, s) || ClutteredNode(g, s, Acceptance) || ClutteredNode(g, s, HintKey.Falsifier)
      case TypeInvalid => Objects(g, s, RDF_TYPE) != {Proposition()}
      case MissingProperty => Absent(g, s)
      case DuplicateProperty => Repeated(g, s)
      case KindInvalid => Has(Val(g, s, PropositionKind), BadKind)
      case BoundaryClassInvalid => Has(Val(g, s, BoundaryClass), BadBoundary)
      case StandingInvalid => Has(Val(g, s, CandidateStanding), BadStanding)
      case StatementInvalid => Has(Val(g, s, Statement), BadStatement)
      case SourceDocumentMismatch => Has(Val(g, s, SourceDocument), v => !Names(k.resolved, Str(v)))
      case SourceSha256Mismatch => Has(Val(g, s, SourceSha256), v => Str(v) != k.d.source)
      case OffsetInvalid => OffsetFault(g, s)
      case OffsetOutOfRange => RangeFault(g, k, s)
      case Utf8SpanInvalid => DecodeFault(g, k, s)
      case SourceTextMismatch => TextFault(g, k, s)
      case IriMismatch => NameFault(g, k, s)
      case RequiredByInvalid => GateNotIri(g, s)
      case HintNodeInvalid => AnyBadNode(g, s, Acceptance) || AnyBadNode(g, s, HintKey.Falsifier)
      case HintsInvalid => BadHint(g, s)
      case IriInvalid => false
  }

  ghost predicate Spanned(g: set<Triple>, k: Check, s: Node) {
    SpanOf(g, s).Some? && InRange(k.source, SpanOf(g, s).value.0, SpanOf(g, s).value.1)
  }

  ghost function SpanText(g: set<Triple>, k: Check, s: Node): Option<string>
    requires Spanned(g, k, s)
  {
    Decode(k.source[SpanOf(g, s).value.0..SpanOf(g, s).value.1])
  }

  ghost predicate Verified(g: set<Triple>, k: Check, s: Node) {
    s in Subjects(g) && forall f :: !Refused(g, k, s, f)
  }

  /** The nodes a candidate with a name links as its acceptance criteria and falsifiers. */
  function NodesOf(g: set<Triple>, s: Node): set<Node> {
    if s.Iri? then Linked(g, s, Acceptance) + Linked(g, s, HintKey.Falsifier) else {}
  }

  ghost predicate HintNode(g: set<Triple>, child: Node) {
    exists s :: s in Subjects(g) && child in NodesOf(g, s)
  }

  ghost predicate IsStray(g: set<Triple>, s: Node) {
    (exists t :: t in g && t.s == s) && s !in Subjects(g) && !HintNode(g, s)
  }

  /** Everything that is refused about a document, given the graph a parser made of it, if it made one. */
  ghost predicate Found(parsed: Option<set<Triple>>, k: Check, finding: Finding) {
    match parsed
    case None => finding.Unparseable?
    case Some(g) =>
      match finding
      case Unparseable => false
      case NoCandidates => Subjects(g) == {}
      case Stray(s) => IsStray(g, s)
      case About(s, f) => s in Subjects(g) && Refused(g, k, s, f)
  }

  ghost predicate Passes(parsed: Option<set<Triple>>, k: Check) {
    forall finding :: !Found(parsed, k, finding)
  }

  function GatesOf(g: set<Triple>, s: Node): set<string> {
    set o | o in Objects(g, s, Sj("requiredBy")) :: Str(o)
  }

  // ---------------------------------------------------------------- checking

  ghost predicate Holds(values: map<Single, Node>, g: set<Triple>, s: Node) {
    forall p :: (p in values <==> Val(g, s, p).Some?) && (p in values ==> values[p] == Val(g, s, p).value)
  }

  method ReadSingles(g: set<Triple>, k: Check, s: Node) returns (values: map<Single, Node>, faults: set<Fault>)
    requires s.Iri?
    ensures Holds(values, g, s)
    ensures forall f :: f in faults <==> (f == MissingProperty || f == DuplicateProperty) && Refused(g, k, s, f)
  {
    hide Objects, Sj, SingleName, Refused, SINGLES;
    SingleRules(g, k, s);
    values, faults := map[], {};
    for i := 0 to |SINGLES|
      invariant forall p :: p in values <==> p in SINGLES[..i] && Val(g, s, p).Some?
      invariant forall p :: p in values ==> values[p] == Val(g, s, p).value
      invariant faults <= {MissingProperty, DuplicateProperty}
      invariant MissingProperty in faults <==> exists p :: p in SINGLES[..i] && Objects(g, s, Sj(SingleName(p))) == {}
      invariant DuplicateProperty in faults <==> exists p :: p in SINGLES[..i] && |Objects(g, s, Sj(SingleName(p)))| > 1
    {
      var p := SINGLES[i];
      var objs := Objects(g, s, Sj(SingleName(p)));
      assert SINGLES[..i + 1] == SINGLES[..i] + [p];
      assert Val(g, s, p) == Sole(objs);
      if |objs| != 1 {
        faults := faults + {if objs == {} then MissingProperty else DuplicateProperty};
      } else {
        var o :| o in objs;
        SoleIs(objs, o);
        values := values[p := o];
      }
    }
    assert SINGLES[..|SINGLES|] == SINGLES;
    AllSingles();
  }

  lemma AllSingles()
    ensures forall p: Single :: p in SINGLES
  {
    forall p: Single ensures p in SINGLES {
      match p
      case PropositionKind => assert SINGLES[0] == p;
      case Statement => assert SINGLES[1] == p;
      case SourceDocument => assert SINGLES[2] == p;
      case SourceSha256 => assert SINGLES[3] == p;
      case SourceStart => assert SINGLES[4] == p;
      case SourceEnd => assert SINGLES[5] == p;
      case SourceText => assert SINGLES[6] == p;
      case BoundaryClass => assert SINGLES[7] == p;
      case CandidateStanding => assert SINGLES[8] == p;
      case ExtractedBy => assert SINGLES[9] == p;
    }
  }

  predicate KnownBad(values: map<Single, Node>, p: Single, bad: Node -> bool) {
    p in values && bad(values[p])
  }

  lemma KnownIs(values: map<Single, Node>, g: set<Triple>, s: Node)
    requires Holds(values, g, s)
    ensures forall p, bad :: KnownBad(values, p, bad) <==> Has(Val(g, s, p), bad)
  {
    hide Val;
  }

  predicate WordFault(f: Fault) {
    f.KindInvalid? || f.BoundaryClassInvalid? || f.StandingInvalid?
  }

  predicate SourceFault(f: Fault) {
    f.StatementInvalid? || f.SourceDocumentMismatch? || f.SourceSha256Mismatch?
  }

  method CheckWords(g: set<Triple>, k: Check, s: Node, values: map<Single, Node>) returns (faults: set<Fault>)
    requires s.Iri? && Holds(values, g, s)
    ensures forall f :: f in faults <==> WordFault(f) && Refused(g, k, s, f)
  {
    hide Val, Str, Sj, Names, KnownBad, Has, Holds;
    KnownIs(values, g, s);
    faults := {};
    if KnownBad(values, PropositionKind, BadKind) {
      faults := faults + {KindInvalid};
    }
    if KnownBad(values, BoundaryClass, BadBoundary) {
      faults := faults + {BoundaryClassInvalid};
    }
    if KnownBad(values, CandidateStanding, BadStanding) {
      faults := faults + {StandingInvalid};
    }
  }

  method CheckSource(g: set<Triple>, k: Check, s: Node, values: map<Single, Node>) returns (faults: set<Fault>)
    requires s.Iri? && Holds(values, g, s)
    ensures forall f :: f in faults <==> SourceFault(f) && Refused(g, k, s, f)
  {
    hide Val, Str, Sj, Names, KnownBad, Has, Holds;
    KnownIs(values, g, s);
    faults := {};
    if KnownBad(values, Statement, BadStatement) {
      faults := faults + {StatementInvalid};
    }
    if KnownBad(values, SourceDocument, v => !Names(k.resolved, Str(v))) {
      faults := faults + {SourceDocumentMismatch};
    }
    if KnownBad(values, SourceSha256, v => Str(v) != k.d.source) {
      faults := faults + {SourceSha256Mismatch};
    }
  }

  predicate SpanFault(f: Fault) {
    f.OffsetOutOfRange? || f.Utf8SpanInvalid? || f.SourceTextMismatch? || f.IriMismatch?
  }

  method CheckOffsets(g: set<Triple>, s: Node, values: map<Single, Node>) returns (ok: bool)
    requires Holds(values, g, s)
    ensures ok <==> !OffsetFault(g, s)
  {
    hide Val, IntegerOf;
    var offsets := [SourceStart, SourceEnd];
    ok := true;
    for i := 0 to 2
      invariant ok <==> !((i > 0 && Has(Val(g, s, SourceStart), NotInteger)) || (i > 1 && Has(Val(g, s, SourceEnd), NotInteger)))
    {
      if offsets[i] in values && IntegerOf(values[offsets[i]]).None? {
        ok := false;
      }
    }
  }

  lemma SpanKnown(g: set<Triple>, s: Node, values: map<Single, Node>)
    requires Holds(values, g, s)
    ensures SpanOf(g, s).Some? <==> SourceStart in values && SourceEnd in values && !OffsetFault(g, s)
    ensures SpanOf(g, s).Some? ==>
      && IntegerOf(values[SourceStart]).Some? && IntegerOf(values[SourceEnd]).Some?
      && SpanOf(g, s).value == (IntegerOf(values[SourceStart]).value, IntegerOf(values[SourceEnd]).value)
  {
    hide Val, IntegerOf;
  }

  method CheckSpan(g: set<Triple>, k: Check, s: Node, values: map<Single, Node>) returns (faults: set<Fault>)
    requires s.Iri? && Holds(values, g, s)
    ensures forall f :: f in faults <==> (SpanFault(f) || f.OffsetInvalid?) && Refused(g, k, s, f)
  {
    hide Val, Str, IntegerOf, CandidateLocal, Decode, OffsetFault, InRange, SpanOf;
    var ok := CheckOffsets(g, s, values);
    faults := if ok then {} else {OffsetInvalid};
    SpanKnown(g, s, values);
    if SourceStart in values && SourceEnd in values && ok {
      var a, b := IntegerOf(values[SourceStart]).value, IntegerOf(values[SourceEnd]).value;
      var quoted := CheckQuote(g, k, s, values, a, b);
      faults := faults + quoted;
      if PropositionKind in values && SourceSha256 in values {
        var expected := k.namespace + CandidateLocal(Str(values[SourceSha256]), k.d.hash, a, b, Str(values[PropositionKind]));
        if Str(s) != expected {
          faults := faults + {IriMismatch};
        }
      }
    }
  }

  method CheckQuote(g: set<Triple>, k: Check, s: Node, values: map<Single, Node>, a: int, b: int) returns (faults: set<Fault>)
    requires s.Iri? && Holds(values, g, s) && SpanOf(g, s) == Some((a, b))
    ensures forall f :: f in faults <==> SpanFault(f) && !f.IriMismatch? && Refused(g, k, s, f)
  {
    hide Val, Str, CandidateLocal, Decode, SpanOf;
    faults := {};
    if !InRange(k.source, a, b) {
      faults := faults + {OffsetOutOfRange};
    } else {
      var span := Decode(k.source[a..b]);
      if span.None? {
        faults := faults + {Utf8SpanInvalid};
      } else if SourceText in values && span.value != Str(values[SourceText]) {
        faults := faults + {SourceTextMismatch};
      }
    }
  }

  /** The names `{name}-{key}-{n}` for n from 1 to count. */
  function Expected(name: string, h: HintKey, count: nat): (r: set<string>)
    ensures forall x :: x in r <==> exists n :: 1 <= n <= count && x == ChildName(name, h, n)
  {
    if count == 0 then {} else Expected(name, h, count - 1) + {ChildName(name, h, count)}
  }

  method CheckNodes(g: set<Triple>, s: Node, h: HintKey) returns (faults: set<Fault>)
    requires s.Iri?
    ensures faults <= {HintNodeInvalid, UnknownPredicate}
    ensures HintNodeInvalid in faults <==> AnyBadNode(g, s, h)
    ensures UnknownPredicate in faults <==> ClutteredNode(g, s, h)
  {
    hide Objects, Linked, ChildName, Plainly, NodeClass;
    var linked := Linked(g, s, h);
    var expected := Expected(Str(s), h, |linked|);
    var todo := linked;
    faults := {};
    while todo != {}
      invariant todo <= linked && faults <= {HintNodeInvalid, UnknownPredicate}
      invariant HintNodeInvalid in faults <==> exists child :: child in linked - todo && BadNode(g, s, h, child)
      invariant UnknownPredicate in faults <==> exists child :: child in linked - todo && Cluttered(g, s, h, child)
    {
      var child :| child in todo;
      var done := linked - todo;
      todo := todo - {child};
      assert linked - todo == done + {child};
      var good := NodeIsGood(g, h, child);
      if Str(child) !in expected {
        faults := faults + {HintNodeInvalid};
      } else {
        if !good {
          faults := faults + {HintNodeInvalid};
        }
        if !Plainly(g, child) {
          faults := faults + {UnknownPredicate};
        }
      }
    }
  }

  method NodeIsGood(g: set<Triple>, h: HintKey, child: Node) returns (good: bool)
    ensures good <==> GoodNode(g, h, child)
  {
    var descriptions := Objects(g, child, DESCRIPTION);
    good := Objects(g, child, RDF_TYPE) == {Iri(Sj(NodeClass(h)))} && |descriptions| == 1;
    if good {
      var description :| description in descriptions;
      SoleIs(descriptions, description);
      good := !Blank(Str(description));
    }
  }

  predicate LinkFault(f: Fault) {
    f.RequiredByInvalid? || f.HintNodeInvalid? || f.HintsInvalid? || f.UnknownPredicate? || f.TypeInvalid?
  }

  lemma LinkRules(g: set<Triple>, k: Check, s: Node)
    requires s.Iri?
    ensures Refused(g, k, s, UnknownPredicate)
       <==> StrangePredicate(g, s) || ClutteredNode(g, s, Acceptance) || ClutteredNode(g, s, HintKey.Falsifier)
    ensures Refused(g, k, s, TypeInvalid) <==> Objects(g, s, RDF_TYPE) != {Proposition()}
    ensures Refused(g, k, s, RequiredByInvalid) <==> GateNotIri(g, s)
    ensures Refused(g, k, s, HintNodeInvalid) <==> AnyBadNode(g, s, Acceptance) || AnyBadNode(g, s, HintKey.Falsifier)
    ensures Refused(g, k, s, HintsInvalid) <==> BadHint(g, s)
  {
    hide Objects, ClutteredNode, AnyBadNode, StrangePredicate, GateNotIri, BadHint, Proposition;
  }

  lemma SingleRules(g: set<Triple>, k: Check, s: Node)
    requires s.Iri?
    ensures Refused(g, k, s, MissingProperty) <==> Absent(g, s)
    ensures Refused(g, k, s, DuplicateProperty) <==> Repeated(g, s)
  {
    hide Absent, Repeated;
  }

  method CheckLinks(g: set<Triple>, k: Check, s: Node) returns (faults: set<Fault>)
    requires s.Iri?
    ensures forall f :: f in faults <==> LinkFault(f) && Refused(g, k, s, f)
  {
    hide Objects, ClutteredNode, AnyBadNode, StrangePredicate, GateNotIri, BadHint, Proposition, Refused;
    LinkRules(g, k, s);
    faults := {};
    if StrangePredicate(g, s) {
      faults := faults + {UnknownPredicate};
    }
    if Objects(g, s, RDF_TYPE) != {Proposition()} {
      faults := faults + {TypeInvalid};
    }
    if GateNotIri(g, s) {
      faults := faults + {RequiredByInvalid};
    }
    var acceptance := CheckNodes(g, s, Acceptance);
    var falsifier := CheckNodes(g, s, HintKey.Falsifier);
    faults := faults + acceptance + falsifier;
    if BadHint(g, s) {
      faults := faults + {HintsInvalid};
    }
  }

  method CheckSubject(g: set<Triple>, k: Check, s: Node) returns (faults: set<Fault>)
    ensures forall f :: f in faults <==> Refused(g, k, s, f)
  {
    hide Refused;
    if !s.Iri? {
      IriFault(g, k, s);
      return {IriInvalid};
    }
    var values, singles := ReadSingles(g, k, s);
    var worded := CheckWords(g, k, s, values);
    var sourced := CheckSource(g, k, s, values);
    var spanned := CheckSpan(g, k, s, values);
    var linked := CheckLinks(g, k, s);
    IriFault(g, k, s);
    faults := singles + worded + sourced + spanned + linked;
  }

  lemma IriFault(g: set<Triple>, k: Check, s: Node)
    ensures Refused(g, k, s, IriInvalid) <==> !s.Iri?
    ensures !s.Iri? ==> forall f :: Refused(g, k, s, f) ==> f == IriInvalid
  {}

  /** A verified candidate's kind and gates. */
  ghost function Summary(g: set<Triple>, s: Node): (string, set<string>)
    requires Val(g, s, PropositionKind).Some?
  {
    (Str(Val(g, s, PropositionKind).value), GatesOf(g, s))
  }

  ghost predicate Tallied(g: set<Triple>, k: Check, done: set<Node>, verified: map<Node, (string, set<string>)>) {
    && (forall s :: s in verified <==> s in done && Verified(g, k, s))
    && forall s :: s in verified ==> Val(g, s, PropositionKind).Some? && verified[s] == Summary(g, s)
  }

  lemma VerifiedHasKind(g: set<Triple>, k: Check, s: Node)
    requires Verified(g, k, s)
    ensures s.Iri? && forall p :: Val(g, s, p).Some?
  {
    hide Objects, Sj, SingleName;
    assert !Refused(g, k, s, MissingProperty) && !Refused(g, k, s, DuplicateProperty) && !Refused(g, k, s, IriInvalid);
    AllSingles();
    forall p ensures Val(g, s, p).Some? {
      assert p in SINGLES;
      assert Objects(g, s, Sj(SingleName(p))) != {};
    }
  }

  /** What verification is worth: a verified candidate of any graph names, by its digest, offsets and kind, a span of
      the source whose bytes are the encoding of its text. */
  lemma VerifiedIsBound(g: set<Triple>, k: Check, s: Node)
    requires Verified(g, k, s)
    ensures forall p :: Val(g, s, p).Some?
    ensures Spanned(g, k, s)
    ensures var (a, b) := SpanOf(g, s).value;
      && 0 <= a < b <= |k.source| && k.source[a..b] == Encode(Str(Val(g, s, SourceText).value))
      && s == Iri(k.namespace + CandidateLocal(k.d.source, k.d.hash, a, b, Str(Val(g, s, PropositionKind).value)))
      && Str(Val(g, s, PropositionKind).value) in KINDS
  {
    hide Val, Decode, Encode, CandidateLocal, IntegerOf;
    VerifiedHasKind(g, k, s);
    assert !Refused(g, k, s, OffsetInvalid) && !Refused(g, k, s, OffsetOutOfRange);
    assert !Refused(g, k, s, Utf8SpanInvalid) && !Refused(g, k, s, SourceTextMismatch);
    assert !Refused(g, k, s, IriMismatch) && !Refused(g, k, s, SourceSha256Mismatch) && !Refused(g, k, s, KindInvalid);
    var (a, b) := SpanOf(g, s).value;
    EncodeDecoded(k.source[a..b]);
  }

  /** One candidate: its findings, and what it adds to the tally when it has none. */
  method CheckCandidate(g: set<Triple>, k: Check, s: Node) returns (findings: set<Finding>, summary: Option<(string, set<string>)>)
    requires s in Subjects(g)
    ensures forall x :: x in findings <==> x.About? && x.s == s && Refused(g, k, s, x.fault)
    ensures summary.Some? <==> Verified(g, k, s)
    ensures summary.Some? ==> Val(g, s, PropositionKind).Some? && summary.value == Summary(g, s)
  {
    hide Refused, Subjects, Val, GatesOf, Str;
    var faults := CheckSubject(g, k, s);
    findings := set f | f in faults :: About(s, f);
    if faults == {} {
      VerifiedHasKind(g, k, s);
      var kinds := Objects(g, s, Sj(SingleName(PropositionKind)));
      SoleVal(g, s, PropositionKind);
      var kind :| kind in kinds;
      summary := Some((Str(kind), GatesOf(g, s)));
    } else {
      var f :| f in faults;
      assert Refused(g, k, s, f);
      summary := None;
    }
  }

  lemma SoleVal(g: set<Triple>, s: Node, p: Single)
    requires Val(g, s, p).Some?
    ensures Objects(g, s, Sj(SingleName(p))) == {Val(g, s, p).value}
  {}

  /** Re-verifies any parsed document; the findings are exactly what is refused, and the tally holds the verified candidates. */
  method VerifyTurtle(parsed: Option<set<Triple>>, k: Check)
    returns (findings: set<Finding>, verified: map<Node, (string, set<string>)>, covered: map<string, set<Node>>)
    ensures forall x :: x in findings <==> Found(parsed, k, x)
    ensures parsed.Some? ==> Tallied(parsed.value, k, Subjects(parsed.value), verified)
    ensures Covers(covered, verified)
  {
    hide Refused, Subjects, Linked, Val, Verified, Summary, Under;
    verified, covered := map[], map[];
    NothingCovered();
    if parsed.None? {
      return {Unparseable}, verified, covered;
    }
    var g := parsed.value;
    var subjects := Subjects(g);
    findings := if subjects == {} then {NoCandidates} else {};
    var todo, children := subjects, {};
    while todo != {}
      invariant todo <= subjects
      invariant forall x :: x in findings <==>
        (x.NoCandidates? && subjects == {}) || (x.About? && x.s in subjects - todo && Refused(g, k, x.s, x.fault))
      invariant forall child :: child in children <==> exists s :: s in subjects - todo && child in NodesOf(g, s)
      invariant Tallied(g, k, subjects - todo, verified)
      invariant Covers(covered, verified)
    {
      var s :| s in todo;
      var done := subjects - todo;
      todo := todo - {s};
      assert subjects - todo == done + {s};
      var found, summary := CheckCandidate(g, k, s);
      findings := findings + found;
      children := children + NodesOf(g, s);
      if summary.Some? {
        assert s !in verified;
        var more := Cover(covered, summary.value.1, s);
        CoverStep(covered, more, verified, s, summary.value);
        covered := more;
        verified := verified[s := summary.value];
      }
    }
    var strays := StraySubjects(g, subjects, children);
    findings := findings + set s | s in strays :: Stray(s);
  }

  /** Under each gate, the verified candidates that name it. */
  ghost predicate Covers(covered: map<string, set<Node>>, verified: map<Node, (string, set<string>)>) {
    forall gate, s :: Under(covered, gate, s) <==> s in verified && gate in verified[s].1
  }

  ghost predicate Under(covered: map<string, set<Node>>, gate: string, s: Node) {
    gate in covered && s in covered[gate]
  }

  method Cover(covered: map<string, set<Node>>, gates: set<string>, s: Node) returns (r: map<string, set<Node>>)
    ensures forall gate, x :: Under(r, gate, x) <==> Under(covered, gate, x) || (gate in gates && x == s)
  {
    r := map gate | gate in covered.Keys + gates ::
      (if gate in covered then covered[gate] else {}) + (if gate in gates then {s} else {});
  }

  lemma NothingCovered()
    ensures Covers(map[], map[])
  {}

  lemma CoverStep(
      covered: map<string, set<Node>>, more: map<string, set<Node>>, verified: map<Node, (string, set<string>)>,
      s: Node, summary: (string, set<string>))
    requires s !in verified && Covers(covered, verified)
    requires forall gate, x :: Under(more, gate, x) <==> Under(covered, gate, x) || (gate in summary.1 && x == s)
    ensures Covers(more, verified[s := summary])
  {
    hide Under;
  }

  method StraySubjects(g: set<Triple>, subjects: set<Node>, children: set<Node>) returns (strays: set<Node>)
    requires subjects == Subjects(g) && forall child :: child in children <==> HintNode(g, child)
    ensures forall s :: s in strays <==> IsStray(g, s)
  {
    hide Subjects, HintNode;
    strays := set t | t in g && t.s !in subjects && t.s !in children :: t.s;
  }
}
