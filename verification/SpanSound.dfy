/** What the checker refuses and what passing it means, over the triples of any graph.

    A candidate is sound if all that it says of itself is so; a document passes if it holds sound candidates, the nodes
    of their hints and nothing else. */
module SpanSound {
  import opened Common
  import opened Text
  import opened Utf8
  import opened R = TurtleReader
  import opened Spans
  import opened SpanMeaning
  import opened SpanRender
  import opened SpanCheck

  // ---------------------------------------------------------------- a candidate's triples

  /** The only value of a property. */
  ghost predicate One(g: set<Triple>, s: Node, p: string, v: Node) {
    forall o :: Triple(s, p, o) in g <==> o == v
  }

  ghost predicate Given(g: set<Triple>, s: Node, key: string, v: Node) {
    One(g, s, SJ + key, v)
  }

  predicate DigitsOnly(s: string) {
    s != "" && forall i :: 0 <= i < |s| ==> IsDigit(s[i])
  }

  /** The text is digits after at most one sign, and this is its number. */
  ghost predicate Signed(text: string, ds: string, n: int) {
    && DigitsOnly(ds)
    && if n < 0 then text == "-" + ds && n + Value(ds) == 0
       else n == Value(ds) && (text == ds || text == "+" + ds || (n == 0 && text == "-" + ds))
  }

  /** An xsd:integer literal stands for the number. */
  ghost predicate Denotes(v: Node, n: int) {
    v.Literal? && v.datatype_ == XSD_INTEGER && exists ds :: Signed(v.text, ds, n)
  }

  /** The two offsets. */
  ghost predicate Offsets(g: set<Triple>, s: Node, a: int, b: int) {
    (exists v :: Given(g, s, "sourceStart", v) && Denotes(v, a)) && exists v :: Given(g, s, "sourceEnd", v) && Denotes(v, b)
  }

  ghost predicate Within(k: Check, a: int, b: int) {
    0 <= a < b <= |k.source|
  }

  /** A path names a document that is the path or follows one of its slashes. */
  ghost predicate EndsWithDocument(resolved: string, doc: string) {
    resolved == doc || exists dir: string :: resolved == dir + ("/" + doc)
  }

  /** The name digest, offsets and kind stand for. */
  function NameOf(k: Check, sha: string, a: int, b: int, kind: string): string {
    var h := k.d.hash(sha + ":" + Numeral(a) + ":" + Numeral(b) + ":" + kind);
    k.namespace + ("P-" + if |h| < 16 then h else h[..16])
  }

  const SINGLE_KEYS: set<string> := {
    "propositionKind", "statement", "sourceDocument", "sourceSha256", "sourceStart", "sourceEnd", "sourceText",
    "boundaryClass", "candidateStanding", "extractedBy"}
  const TEXT_KEYS: set<string> := {
    "consequenceClass", "evidenceHorizon", "exclusion", "postcondition", "requiresCapability", "successorPolicy"}
  const NODE_CLASSES: map<string, string> := map["acceptance" := "AcceptanceCriterion", "falsifier" := "Falsifier"]

  /** The predicates a candidate may carry. */
  ghost predicate Listed(p: string) {
    p == RDF_TYPE || p == SJ + "requiredBy"
    || exists key :: (key in SINGLE_KEYS || key in TEXT_KEYS || key in NODE_CLASSES) && p == SJ + key
  }

  /** One of the names `{candidate}-{key}-{n}`, n up to the number of nodes linked. */
  ghost predicate InSequence(g: set<Triple>, s: Node, key: string, child: Node) {
    exists n :: 1 <= n <= |Objects(g, s, SJ + key)| && Str(child) == Str(s) + ("-" + (key + ("-" + Decimal(n))))
  }

  ghost predicate Described(g: set<Triple>, child: Node) {
    exists v :: One(g, child, DCTERMS + "description", v) && Visible(Str(v))
  }

  /** The node says nothing but its class and its description. */
  ghost predicate Bare(g: set<Triple>, child: Node) {
    forall p, o :: Triple(child, p, o) in g ==> p == RDF_TYPE || p == DCTERMS + "description"
  }

  ghost predicate Sequenced(g: set<Triple>, s: Node, key: string, child: Node)
    requires key in NODE_CLASSES
  {
    InSequence(g, s, key, child) && One(g, child, RDF_TYPE, Iri(SJ + NODE_CLASSES[key])) && Described(g, child)
  }

  // ---------------------------------------------------------------- refusals

  ghost predicate Breaks(g: set<Triple>, k: Check, s: Node, f: Fault) {
    if !s.Iri? then f.IriInvalid?
    else match f
      case IriInvalid => false
      case UnknownPredicate =>
        || (exists p, o :: Triple(s, p, o) in g && !Listed(p))
        || exists key, child :: key in NODE_CLASSES && Triple(s, SJ + key, child) in g && InSequence(g, s, key, child) && !Bare(g, child)
      case TypeInvalid => !One(g, s, RDF_TYPE, Iri(SJ + "Proposition"))
      case MissingProperty => exists key :: key in SINGLE_KEYS && forall o :: Triple(s, SJ + key, o) !in g
      case DuplicateProperty =>
        exists key, o, other :: key in SINGLE_KEYS && o != other && Triple(s, SJ + key, o) in g && Triple(s, SJ + key, other) in g
      case KindInvalid => exists v :: Given(g, s, "propositionKind", v) && !(v.Literal? && v.text in KINDS)
      case BoundaryClassInvalid =>
        exists v :: Given(g, s, "boundaryClass", v) && forall b :: b in BOUNDARY_CLASSES ==> v != Iri(SJ + b)
      case StandingInvalid => exists v :: Given(g, s, "candidateStanding", v) && Str(v) != "UNKNOWN"
      case StatementInvalid => exists v :: Given(g, s, "statement", v) && !(Visible(Str(v)) && '\n' !in Str(v))
      case SourceDocumentMismatch => exists v :: Given(g, s, "sourceDocument", v) && !EndsWithDocument(k.resolved, Str(v))
      case SourceSha256Mismatch => exists v :: Given(g, s, "sourceSha256", v) && Str(v) != k.d.source
      case OffsetInvalid =>
        exists v :: (Given(g, s, "sourceStart", v) || Given(g, s, "sourceEnd", v)) && forall n :: !Denotes(v, n)
      case OffsetOutOfRange => exists a, b :: Offsets(g, s, a, b) && !Within(k, a, b)
      case Utf8SpanInvalid =>
        exists a, b :: Offsets(g, s, a, b) && Within(k, a, b) && forall t :: k.source[a..b] != Encode(t)
      case SourceTextMismatch =>
        exists a, b, t, v ::
          Offsets(g, s, a, b) && Within(k, a, b) && k.source[a..b] == Encode(t) && Given(g, s, "sourceText", v) && Str(v) != t
      case IriMismatch =>
        exists a, b, v, w ::
          && Offsets(g, s, a, b) && Given(g, s, "propositionKind", v) && Given(g, s, "sourceSha256", w)
          && Str(s) != NameOf(k, Str(w), a, b, Str(v))
      case RequiredByInvalid => exists o :: Triple(s, SJ + "requiredBy", o) in g && !o.Iri?
      case HintNodeInvalid => exists key, child :: key in NODE_CLASSES && Triple(s, SJ + key, child) in g && !Sequenced(g, s, key, child)
      case HintsInvalid =>
        exists key, o :: key in TEXT_KEYS && Triple(s, SJ + key, o) in g && !(o.Literal? && Visible(o.text))
  }

  // ---------------------------------------------------------------- values

  lemma OneIff(g: set<Triple>, s: Node, p: string)
    ensures forall v :: One(g, s, p, v) <==> Objects(g, s, p) == {v}
  {}

  lemma ValIff(g: set<Triple>, s: Node, p: Single)
    ensures forall v :: Given(g, s, SingleName(p), v) <==> Val(g, s, p) == Some(v)
  {
    hide Objects, SingleName, One;
    OneIff(g, s, SJ + SingleName(p));
    var objs := Objects(g, s, Sj(SingleName(p)));
    forall v ensures objs == {v} <==> Sole(objs) == Some(v) {
    }
  }

  lemma SignedIs(v: Node, ds: string, n: int)
    requires v.Literal? && v.datatype_ == XSD_INTEGER && Signed(v.text, ds, n)
    ensures IntegerOf(v) == Some(n)
  {
    hide Value;
    assert IsDigit(ds[0]);
    if v.text != ds {
      assert v.text[0] == '+' || v.text[0] == '-';
      assert v.text[1..] == ds;
      assert !IsDigit(v.text[0]) && v.text[0] in v.text;
    }
  }

  lemma DenotesIff(v: Node)
    ensures forall n :: Denotes(v, n) <==> IntegerOf(v) == Some(n)
  {
    hide Value;
    forall n ensures Denotes(v, n) <==> IntegerOf(v) == Some(n) {
      if Denotes(v, n) {
        var ds :| Signed(v.text, ds, n);
        SignedIs(v, ds, n);
      }
      if IntegerOf(v) == Some(n) {
        var ds := if Digits(v.text) then v.text else v.text[1..];
        assert DigitsOnly(ds);
        assert v.text == ds || v.text == [v.text[0]] + ds;
        assert Signed(v.text, ds, n);
      }
    }
  }

  lemma OffsetsIff(g: set<Triple>, s: Node)
    ensures forall a, b :: Offsets(g, s, a, b) <==> SpanOf(g, s) == Some((a, b))
  {
    hide Val, Given, Denotes, IntegerOf;
    ValIff(g, s, SourceStart);
    ValIff(g, s, SourceEnd);
    assert SingleName(SourceStart) == "sourceStart" && SingleName(SourceEnd) == "sourceEnd";
    forall v ensures forall n :: Denotes(v, n) <==> IntegerOf(v) == Some(n) {
      DenotesIff(v);
    }
  }

  lemma NamesIff(resolved: string, doc: string)
    ensures EndsWithDocument(resolved, doc) <==> Names(resolved, doc)
  {
    if dir: string :| resolved == dir + ("/" + doc) {
      assert resolved[|resolved| - |doc| - 1..] == "/" + doc;
    }
    if |doc| < |resolved| && resolved[|resolved| - |doc| - 1..] == "/" + doc {
      assert resolved == resolved[..|resolved| - |doc| - 1] + ("/" + doc);
    }
  }

  lemma SingleKeys()
    ensures forall p :: SingleName(p) in SINGLE_KEYS
    ensures forall key :: key in SINGLE_KEYS ==> exists p :: p in SINGLES && key == SingleName(p)
  {
    AllSingles();
    assert forall p :: SingleName(p) in SINGLE_KEYS;
    forall key | key in SINGLE_KEYS ensures exists p :: p in SINGLES && key == SingleName(p) {
      assert key == SingleName(PropositionKind) || key == SingleName(Statement) || key == SingleName(SourceDocument)
        || key == SingleName(SourceSha256) || key == SingleName(SourceStart) || key == SingleName(SourceEnd)
        || key == SingleName(SourceText) || key == SingleName(BoundaryClass) || key == SingleName(CandidateStanding)
        || key == SingleName(ExtractedBy);
    }
  }

  lemma TextKeys()
    ensures forall h :: h in LITERAL_HINTS ==> KeyName(h) in TEXT_KEYS
    ensures forall key :: key in TEXT_KEYS ==> exists h :: h in LITERAL_HINTS && key == KeyName(h)
  {
    assert LITERAL_HINTS == [ConsequenceClass, EvidenceHorizon, HintKey.Exclusion, HintKey.Postcondition, RequiresCapability, SuccessorPolicy];
    forall key | key in TEXT_KEYS ensures exists h :: h in LITERAL_HINTS && key == KeyName(h) {
      assert LITERAL_HINTS[0] in LITERAL_HINTS && LITERAL_HINTS[1] in LITERAL_HINTS && LITERAL_HINTS[2] in LITERAL_HINTS;
      assert LITERAL_HINTS[3] in LITERAL_HINTS && LITERAL_HINTS[4] in LITERAL_HINTS && LITERAL_HINTS[5] in LITERAL_HINTS;
      assert key == KeyName(ConsequenceClass) || key == KeyName(EvidenceHorizon) || key == KeyName(HintKey.Exclusion)
        || key == KeyName(HintKey.Postcondition) || key == KeyName(RequiresCapability) || key == KeyName(SuccessorPolicy);
    }
  }

  lemma NodeKeys()
    ensures KeyName(Acceptance) == "acceptance" && KeyName(HintKey.Falsifier) == "falsifier"
    ensures forall key :: key in NODE_CLASSES <==> key == KeyName(Acceptance) || key == KeyName(HintKey.Falsifier)
    ensures NODE_CLASSES[KeyName(Acceptance)] == NodeClass(Acceptance)
    ensures NODE_CLASSES[KeyName(HintKey.Falsifier)] == NodeClass(HintKey.Falsifier)
    ensures forall h :: h in NODE_HINTS <==> h == Acceptance || h == HintKey.Falsifier
  {
    assert NODE_HINTS == [Acceptance, HintKey.Falsifier];
  }

  lemma ListedIff(p: string)
    ensures Listed(p) <==> Allowed(p)
  {
    hide SingleName, KeyName, SINGLES, LITERAL_HINTS, NODE_HINTS, SINGLE_KEYS, TEXT_KEYS, NODE_CLASSES;
    SingleKeys();
    TextKeys();
    NodeKeys();
    AllSingles();
  }

  lemma StrangeIff(g: set<Triple>, s: Node)
    ensures StrangePredicate(g, s) <==> exists p, o :: Triple(s, p, o) in g && !Listed(p)
  {
    hide Listed, Allowed;
    forall p ensures Listed(p) <==> Allowed(p) {
      ListedIff(p);
    }
    if p, o :| Triple(s, p, o) in g && !Listed(p) {
      assert p in Predicates(g, s);
    }
  }

  lemma NumberedIff(g: set<Triple>, s: Node, h: HintKey, child: Node)
    ensures InSequence(g, s, KeyName(h), child) <==> IsNumbered(g, s, h, child)
  {
    hide KeyName, Decimal, Objects, Str;
    forall n: nat ensures ChildName(Str(s), h, n) == Str(s) + ("-" + (KeyName(h) + ("-" + Decimal(n)))) {
      var key, ds := KeyName(h), Decimal(n);
      assert Str(s) + "-" + key + "-" + ds == Str(s) + ("-" + (key + ("-" + ds)));
    }
  }

  lemma DescribedIff(g: set<Triple>, child: Node)
    ensures Described(g, child) <==>
      Sole(Objects(g, child, DESCRIPTION)).Some? && !Blank(Str(Sole(Objects(g, child, DESCRIPTION)).value))
  {
    hide Objects, Visible, Blank, Str, One;
    OneIff(g, child, DESCRIPTION);
    forall v ensures Visible(v) <==> !Blank(v) {
      VisibleIff(v);
    }
  }

  lemma BareIff(g: set<Triple>, child: Node)
    ensures Bare(g, child) <==> Plainly(g, child)
  {
    hide Predicates;
    assert Bare(g, child) ==> forall p :: p in Predicates(g, child) ==> p in {RDF_TYPE, DESCRIPTION};
    assert Plainly(g, child) ==> forall p, o :: Triple(child, p, o) in g ==> p in Predicates(g, child);
  }

  lemma NodeIff(g: set<Triple>, s: Node, h: HintKey, child: Node)
    requires h in NODE_HINTS
    ensures KeyName(h) in NODE_CLASSES && (Sequenced(g, s, KeyName(h), child) <==> !BadNode(g, s, h, child))
  {
    hide KeyName, NodeClass, IsNumbered, InSequence, Objects, Described, One, NODE_HINTS, Sole;
    NodeKeys();
    NumberedIff(g, s, h, child);
    DescribedIff(g, child);
    OneIff(g, child, RDF_TYPE);
  }

  /** What is refused about the nodes of one key. */
  lemma LinkedIff(g: set<Triple>, s: Node, h: HintKey)
    requires h in NODE_HINTS
    ensures KeyName(h) in NODE_CLASSES
    ensures AnyBadNode(g, s, h) <==> exists child :: Triple(s, SJ + KeyName(h), child) in g && !Sequenced(g, s, KeyName(h), child)
    ensures ClutteredNode(g, s, h) <==>
      exists child :: Triple(s, SJ + KeyName(h), child) in g && InSequence(g, s, KeyName(h), child) && !Bare(g, child)
  {
    hide KeyName, IsNumbered, InSequence, Bare, Plainly, Sequenced, BadNode, NODE_HINTS;
    NodeKeys();
    forall child ensures Sequenced(g, s, KeyName(h), child) <==> !BadNode(g, s, h, child) {
      NodeIff(g, s, h, child);
    }
    forall child ensures (InSequence(g, s, KeyName(h), child) && !Bare(g, child)) <==> Cluttered(g, s, h, child) {
      NumberedIff(g, s, h, child);
      BareIff(g, child);
    }
    assert forall child :: child in Linked(g, s, h) <==> Triple(s, SJ + KeyName(h), child) in g;
  }

  // ---------------------------------------------------------------- rule by rule

  lemma NodeRules(g: set<Triple>, k: Check, s: Node)
    requires s.Iri?
    ensures Refused(g, k, s, HintNodeInvalid) <==> Breaks(g, k, s, HintNodeInvalid)
  {
    hide KeyName, Sequenced, AnyBadNode, ClutteredNode, InSequence, Bare, Listed, NODE_HINTS, NODE_CLASSES, Refused;
    LinkRules(g, k, s);
    NodeKeys();
    LinkedIff(g, s, Acceptance);
    LinkedIff(g, s, HintKey.Falsifier);
  }

  lemma PredicateRule(g: set<Triple>, k: Check, s: Node)
    requires s.Iri?
    ensures Refused(g, k, s, UnknownPredicate) <==> Breaks(g, k, s, UnknownPredicate)
  {
    hide KeyName, InSequence, Bare, Sequenced, ClutteredNode, NODE_HINTS, Listed, StrangePredicate, NODE_CLASSES, Refused;
    LinkRules(g, k, s);
    NodeKeys();
    LinkedIff(g, s, Acceptance);
    LinkedIff(g, s, HintKey.Falsifier);
    StrangeIff(g, s);
  }

  lemma LinkRulesBroken(g: set<Triple>, k: Check, s: Node, f: Fault)
    requires s.Iri? && (f.TypeInvalid? || f.RequiredByInvalid? || f.HintsInvalid?)
    ensures Refused(g, k, s, f) <==> Breaks(g, k, s, f)
  {
    hide Objects, KeyName, LITERAL_HINTS, TEXT_KEYS, Visible, Blank, One, Refused;
    LinkRules(g, k, s);
    OneIff(g, s, RDF_TYPE);
    TextKeys();
    forall v ensures Visible(v) <==> !Blank(v) {
      VisibleIff(v);
    }
  }

  lemma CountRules(g: set<Triple>, k: Check, s: Node, f: Fault)
    requires s.Iri? && (f.MissingProperty? || f.DuplicateProperty?)
    ensures Refused(g, k, s, f) <==> Breaks(g, k, s, f)
  {
    hide SingleName, SINGLES, SINGLE_KEYS;
    SingleRules(g, k, s);
    SingleKeys();
    AllSingles();
    forall p ensures |Objects(g, s, Sj(SingleName(p)))| > 1 <==>
      exists o, other :: o != other && Triple(s, SJ + SingleName(p), o) in g && Triple(s, SJ + SingleName(p), other) in g
    {
      Several(Objects(g, s, Sj(SingleName(p))));
    }
  }

  lemma Several(objs: set<Node>)
    ensures |objs| > 1 <==> exists o, other :: o != other && o in objs && other in objs
  {
    if |objs| > 1 {
      var o :| o in objs;
      var rest := objs - {o};
      assert rest != {};
      var other :| other in rest;
    }
    if o, other :| o != other && o in objs && other in objs {
      assert objs == {o, other} + (objs - {o, other});
    }
  }

  lemma WordRules(g: set<Triple>, k: Check, s: Node, f: Fault)
    requires s.Iri? && (WordFault(f) || SourceFault(f))
    ensures Refused(g, k, s, f) <==> Breaks(g, k, s, f)
  {
    hide Val, Given, Str, Names, EndsWithDocument, Visible, Blank, KINDS, BOUNDARY_CLASSES;
    forall p ensures forall v :: Given(g, s, SingleName(p), v) <==> Val(g, s, p) == Some(v) {
      ValIff(g, s, p);
    }
    assert SingleName(PropositionKind) == "propositionKind" && SingleName(BoundaryClass) == "boundaryClass";
    assert SingleName(CandidateStanding) == "candidateStanding" && SingleName(Statement) == "statement";
    assert SingleName(SourceDocument) == "sourceDocument" && SingleName(SourceSha256) == "sourceSha256";
    forall v ensures Visible(v) <==> !Blank(v) {
      VisibleIff(v);
    }
    forall doc ensures EndsWithDocument(k.resolved, doc) <==> Names(k.resolved, doc) {
      NamesIff(k.resolved, doc);
    }
  }

  lemma OffsetRules(g: set<Triple>, k: Check, s: Node)
    requires s.Iri?
    ensures Refused(g, k, s, OffsetInvalid) <==> Breaks(g, k, s, OffsetInvalid)
    ensures Refused(g, k, s, OffsetOutOfRange) <==> Breaks(g, k, s, OffsetOutOfRange)
  {
    hide Val, Given, Denotes, IntegerOf, SpanOf, Offsets;
    ValIff(g, s, SourceStart);
    ValIff(g, s, SourceEnd);
    assert SingleName(SourceStart) == "sourceStart" && SingleName(SourceEnd) == "sourceEnd";
    forall v ensures (forall n :: !Denotes(v, n)) <==> IntegerOf(v).None? {
      DenotesIff(v);
      if IntegerOf(v).Some? {
        assert Denotes(v, IntegerOf(v).value);
      }
    }
    OffsetsIff(g, s);
  }

  lemma DecodesIff(bytes: seq<Byte>)
    ensures forall t :: bytes == Encode(t) <==> Decode(bytes) == Some(t)
  {
    hide Encode, Decode;
    forall t ensures bytes == Encode(t) <==> Decode(bytes) == Some(t) {
      DecodeEncoded(t);
      if Decode(bytes) == Some(t) {
        EncodeDecoded(bytes);
      }
    }
  }

  lemma QuoteRules(g: set<Triple>, k: Check, s: Node)
    requires s.Iri?
    ensures Refused(g, k, s, Utf8SpanInvalid) <==> Breaks(g, k, s, Utf8SpanInvalid)
    ensures Refused(g, k, s, SourceTextMismatch) <==> Breaks(g, k, s, SourceTextMismatch)
  {
    hide Val, Given, SpanOf, Offsets, Encode, Decode, Str;
    OffsetsIff(g, s);
    ValIff(g, s, SourceText);
    assert SingleName(SourceText) == "sourceText";
    if Spanned(g, k, s) {
      var (a, b) := SpanOf(g, s).value;
      assert Offsets(g, s, a, b) && Within(k, a, b);
      DecodesIff(k.source[a..b]);
    }
  }

  lemma NameRule(g: set<Triple>, k: Check, s: Node)
    requires s.Iri?
    ensures Refused(g, k, s, IriMismatch) <==> Breaks(g, k, s, IriMismatch)
  {
    hide Val, Given, SpanOf, Offsets, Str, Numeral;
    OffsetsIff(g, s);
    ValIff(g, s, PropositionKind);
    ValIff(g, s, SourceSha256);
    assert SingleName(PropositionKind) == "propositionKind" && SingleName(SourceSha256) == "sourceSha256";
  }

  /** The checker refuses a candidate exactly what the candidate breaks. */
  lemma RefusedIffBreaks(g: set<Triple>, k: Check, s: Node, f: Fault)
    ensures Refused(g, k, s, f) <==> Breaks(g, k, s, f)
  {
    hide Refused, Breaks;
    if !s.Iri? {
      NoName(g, k, s, f);
    } else {
      match f
      case IriInvalid => NoName(g, k, s, f);
      case HintNodeInvalid => NodeRules(g, k, s);
      case UnknownPredicate => PredicateRule(g, k, s);
      case TypeInvalid => LinkRulesBroken(g, k, s, f);
      case RequiredByInvalid => LinkRulesBroken(g, k, s, f);
      case HintsInvalid => LinkRulesBroken(g, k, s, f);
      case MissingProperty => CountRules(g, k, s, f);
      case DuplicateProperty => CountRules(g, k, s, f);
      case OffsetInvalid => OffsetRules(g, k, s);
      case OffsetOutOfRange => OffsetRules(g, k, s);
      case Utf8SpanInvalid => QuoteRules(g, k, s);
      case SourceTextMismatch => QuoteRules(g, k, s);
      case IriMismatch => NameRule(g, k, s);
      case _ => WordRules(g, k, s, f);
    }
  }

  lemma NoName(g: set<Triple>, k: Check, s: Node, f: Fault)
    requires !s.Iri? || f.IriInvalid?
    ensures Refused(g, k, s, f) <==> Breaks(g, k, s, f)
  {}

  // ---------------------------------------------------------------- passing

  /** What a candidate says of itself, property by property. */
  datatype Record = Record(
    kind: string, statement: Node, document: Node, start: nat, end: nat, text: Node, boundary: string, standing: Node, extractor: Node)

  ghost predicate Recorded(g: set<Triple>, k: Check, s: Node, r: Record) {
    && (exists v :: Given(g, s, "propositionKind", v) && v.Literal? && v.text == r.kind)
    && (exists v :: Given(g, s, "sourceSha256", v) && Str(v) == k.d.source)
    && Offsets(g, s, r.start, r.end)
    && Given(g, s, "statement", r.statement) && Given(g, s, "sourceDocument", r.document) && Given(g, s, "sourceText", r.text)
    && Given(g, s, "boundaryClass", Iri(SJ + r.boundary)) && Given(g, s, "candidateStanding", r.standing)
    && Given(g, s, "extractedBy", r.extractor)
  }

  /** It has a listed kind and class and no standing yet, and its name stands for a span of the source that reads as its text. */
  ghost predicate Fits(k: Check, s: Node, r: Record) {
    && r.kind in KINDS && r.boundary in BOUNDARY_CLASSES && Str(r.standing) == "UNKNOWN"
    && Visible(Str(r.statement)) && '\n' !in Str(r.statement) && EndsWithDocument(k.resolved, Str(r.document))
    && Within(k, r.start, r.end) && k.source[r.start..r.end] == Encode(Str(r.text))
    && Str(s) == NameOf(k, k.d.source, r.start, r.end, r.kind)
  }

  ghost predicate WellLinked(g: set<Triple>, s: Node) {
    && (forall p, o :: Triple(s, p, o) in g ==> Listed(p))
    && (forall o :: Triple(s, SJ + "requiredBy", o) in g ==> o.Iri?)
    && (forall key, o :: key in TEXT_KEYS && Triple(s, SJ + key, o) in g ==> o.Literal? && Visible(o.text))
    && forall key, child :: key in NODE_CLASSES && Triple(s, SJ + key, child) in g ==> Sequenced(g, s, key, child) && Bare(g, child)
  }

  ghost predicate Sound(g: set<Triple>, k: Check, s: Node) {
    && s.Iri? && One(g, s, RDF_TYPE, Iri(SJ + "Proposition")) && WellLinked(g, s)
    && exists r :: Recorded(g, k, s, r) && Fits(k, s, r)
  }

  ghost predicate Unbroken(g: set<Triple>, k: Check, s: Node) {
    forall f :: !Breaks(g, k, s, f)
  }

  lemma OnlyOne(g: set<Triple>, s: Node, key: string)
    requires key in SINGLE_KEYS
    requires exists o :: Triple(s, SJ + key, o) in g
    requires !exists key, o, other :: key in SINGLE_KEYS && o != other && Triple(s, SJ + key, o) in g && Triple(s, SJ + key, other) in g
    ensures exists v :: Given(g, s, key, v)
  {
    var o :| Triple(s, SJ + key, o) in g;
    assert Given(g, s, key, o);
  }

  lemma UnbrokenHas(g: set<Triple>, k: Check, s: Node, key: string)
    requires Unbroken(g, k, s) && s.Iri? && key in SINGLE_KEYS
    ensures exists v :: Given(g, s, key, v)
  {
    hide SINGLE_KEYS;
    assert !Breaks(g, k, s, MissingProperty) && !Breaks(g, k, s, DuplicateProperty);
    OnlyOne(g, s, key);
  }

  lemma UnbrokenLinks(g: set<Triple>, k: Check, s: Node)
    requires s.Iri? && Unbroken(g, k, s)
    ensures One(g, s, RDF_TYPE, Iri(SJ + "Proposition")) && WellLinked(g, s)
  {
    hide Listed, TEXT_KEYS, NODE_CLASSES, Sequenced, InSequence, Bare, One, Visible;
    assert !Breaks(g, k, s, UnknownPredicate) && !Breaks(g, k, s, TypeInvalid) && !Breaks(g, k, s, RequiredByInvalid);
    assert !Breaks(g, k, s, HintNodeInvalid) && !Breaks(g, k, s, HintsInvalid);
    assert forall key, child :: key in NODE_CLASSES && Sequenced(g, s, key, child) ==> InSequence(g, s, key, child) by {
      SequencedIsNumbered(g, s);
    }
  }

  lemma SequencedIsNumbered(g: set<Triple>, s: Node)
    ensures forall key, child :: key in NODE_CLASSES && Sequenced(g, s, key, child) ==> InSequence(g, s, key, child)
  {
    hide InSequence, NODE_CLASSES;
  }

  lemma UnbrokenOffsets(g: set<Triple>, k: Check, s: Node) returns (a: int, b: int)
    requires s.Iri? && Unbroken(g, k, s)
    ensures Offsets(g, s, a, b) && Within(k, a, b)
  {
    hide Given, Denotes, SINGLE_KEYS;
    assert "sourceStart" in SINGLE_KEYS && "sourceEnd" in SINGLE_KEYS by { OffsetKeys(); }
    UnbrokenHas(g, k, s, "sourceStart");
    UnbrokenHas(g, k, s, "sourceEnd");
    assert !Breaks(g, k, s, OffsetInvalid) && !Breaks(g, k, s, OffsetOutOfRange);
    var v :| Given(g, s, "sourceStart", v);
    var w :| Given(g, s, "sourceEnd", w);
    a :| Denotes(v, a);
    b :| Denotes(w, b);
    assert Offsets(g, s, a, b);
  }

  lemma OffsetKeys()
    ensures "sourceStart" in SINGLE_KEYS && "sourceEnd" in SINGLE_KEYS
  {}

  lemma OtherKeys()
    ensures "propositionKind" in SINGLE_KEYS && "sourceSha256" in SINGLE_KEYS && "statement" in SINGLE_KEYS
    ensures "sourceDocument" in SINGLE_KEYS && "sourceText" in SINGLE_KEYS && "boundaryClass" in SINGLE_KEYS
    ensures "candidateStanding" in SINGLE_KEYS && "extractedBy" in SINGLE_KEYS
  {}

  /** What the rules leave of each value. */
  lemma UnbrokenWords(g: set<Triple>, k: Check, s: Node)
    requires s.Iri? && Unbroken(g, k, s)
    ensures forall v :: Given(g, s, "propositionKind", v) ==> v.Literal? && v.text in KINDS
    ensures forall v :: Given(g, s, "boundaryClass", v) ==> exists b :: b in BOUNDARY_CLASSES && v == Iri(SJ + b)
    ensures forall v :: Given(g, s, "candidateStanding", v) ==> Str(v) == "UNKNOWN"
    ensures forall v :: Given(g, s, "statement", v) ==> Visible(Str(v)) && '\n' !in Str(v)
  {
    hide Given, Visible, KINDS, BOUNDARY_CLASSES, Str;
    assert !Breaks(g, k, s, KindInvalid) && !Breaks(g, k, s, BoundaryClassInvalid) && !Breaks(g, k, s, StandingInvalid);
    assert !Breaks(g, k, s, StatementInvalid);
  }

  lemma UnbrokenSource(g: set<Triple>, k: Check, s: Node, a: int, b: int)
    requires s.Iri? && Unbroken(g, k, s) && Offsets(g, s, a, b) && Within(k, a, b)
    ensures forall v :: Given(g, s, "sourceDocument", v) ==> EndsWithDocument(k.resolved, Str(v))
    ensures forall v :: Given(g, s, "sourceSha256", v) ==> Str(v) == k.d.source
    ensures forall v :: Given(g, s, "sourceText", v) ==> k.source[a..b] == Encode(Str(v))
    ensures forall v, w :: Given(g, s, "propositionKind", v) && Given(g, s, "sourceSha256", w) ==> Str(s) == NameOf(k, Str(w), a, b, Str(v))
  {
    hide Given, Offsets, EndsWithDocument, Encode, NameOf, Str;
    assert !Breaks(g, k, s, SourceDocumentMismatch) && !Breaks(g, k, s, SourceSha256Mismatch);
    assert !Breaks(g, k, s, Utf8SpanInvalid) && !Breaks(g, k, s, SourceTextMismatch) && !Breaks(g, k, s, IriMismatch);
    var t :| k.source[a..b] == Encode(t);
  }

  lemma UnbrokenRecord(g: set<Triple>, k: Check, s: Node) returns (r: Record)
    requires s.Iri? && Unbroken(g, k, s)
    ensures Recorded(g, k, s, r) && Fits(k, s, r)
  {
    hide Given, Offsets, SINGLE_KEYS, Visible, KINDS, BOUNDARY_CLASSES, EndsWithDocument, Encode, NameOf, Unbroken;
    OtherKeys();
    forall key | key in SINGLE_KEYS ensures exists v :: Given(g, s, key, v) {
      UnbrokenHas(g, k, s, key);
    }
    var a, b := UnbrokenOffsets(g, k, s);
    var kind :| Given(g, s, "propositionKind", kind);
    var statement :| Given(g, s, "statement", statement);
    var document :| Given(g, s, "sourceDocument", document);
    var sha :| Given(g, s, "sourceSha256", sha);
    var text :| Given(g, s, "sourceText", text);
    var boundary :| Given(g, s, "boundaryClass", boundary);
    var standing :| Given(g, s, "candidateStanding", standing);
    var extractor :| Given(g, s, "extractedBy", extractor);
    UnbrokenWords(g, k, s);
    UnbrokenSource(g, k, s, a, b);
    var cls :| cls in BOUNDARY_CLASSES && boundary == Iri(SJ + cls);
    r := Record(kind.text, statement, document, a, b, text, cls, standing, extractor);
  }

  lemma SoundIsFilled(g: set<Triple>, k: Check, s: Node, key: string)
    requires Sound(g, k, s) && key in SINGLE_KEYS
    ensures exists v :: Given(g, s, key, v)
  {
    hide Fits, WellLinked, Denotes, Given, One;
    var r :| Recorded(g, k, s, r);
    if key == "boundaryClass" {
      assert Given(g, s, key, Iri(SJ + r.boundary));
    }
  }

  lemma SoundHas(g: set<Triple>, k: Check, s: Node, f: Fault)
    requires Sound(g, k, s) && (f.MissingProperty? || f.DuplicateProperty?)
    ensures !Breaks(g, k, s, f)
  {
    hide Sound, SINGLE_KEYS;
    forall key | key in SINGLE_KEYS
      ensures exists o :: Triple(s, SJ + key, o) in g
      ensures forall o, other :: Triple(s, SJ + key, o) in g && Triple(s, SJ + key, other) in g ==> o == other
    {
      SoundIsFilled(g, k, s, key);
      var v :| Given(g, s, key, v);
      assert Triple(s, SJ + key, v) in g;
    }
    assert s.Iri? by { SoundIsNamed(g, k, s); }
  }

  lemma SoundIsNamed(g: set<Triple>, k: Check, s: Node)
    requires Sound(g, k, s)
    ensures s.Iri?
  {}

  lemma SoundSays(g: set<Triple>, k: Check, s: Node, f: Fault)
    requires Sound(g, k, s) && (WordFault(f) || SourceFault(f))
    ensures !Breaks(g, k, s, f)
  {
    hide WellLinked, Offsets, Visible, KINDS, BOUNDARY_CLASSES, EndsWithDocument, Encode, NameOf, Str, One;
    var r :| Recorded(g, k, s, r) && Fits(k, s, r);
    GivenOnce(g, s);
  }

  lemma GivenOnce(g: set<Triple>, s: Node)
    ensures forall key, v, w :: Given(g, s, key, v) && Given(g, s, key, w) ==> v == w
  {
    forall key, v, w | Given(g, s, key, v) && Given(g, s, key, w) ensures v == w {
      assert Triple(s, SJ + key, v) in g;
    }
  }

  lemma DenotesOnce()
    ensures forall v, m, n :: Denotes(v, m) && Denotes(v, n) ==> m == n
  {
    hide Denotes, IntegerOf;
    forall v, m, n | Denotes(v, m) && Denotes(v, n) ensures m == n {
      DenotesIff(v);
    }
  }

  lemma SoundSpans(g: set<Triple>, k: Check, s: Node, f: Fault)
    requires Sound(g, k, s) && (f.OffsetInvalid? || f.OffsetOutOfRange? || f.Utf8SpanInvalid?)
    ensures !Breaks(g, k, s, f)
  {
    hide WellLinked, Visible, KINDS, BOUNDARY_CLASSES, EndsWithDocument, Encode, NameOf, Str, One, Denotes, Given, Offsets;
    var r :| Recorded(g, k, s, r) && Fits(k, s, r);
    OffsetsDenote(g, s, r.start, r.end);
    OffsetsOnce(g, s, r.start, r.end);
  }

  lemma SoundText(g: set<Triple>, k: Check, s: Node)
    requires Sound(g, k, s)
    ensures !Breaks(g, k, s, SourceTextMismatch)
  {
    hide WellLinked, Visible, KINDS, BOUNDARY_CLASSES, EndsWithDocument, Encode, Decode, NameOf, Str, One, Denotes, Given, Offsets;
    var r :| Recorded(g, k, s, r) && Fits(k, s, r);
    GivenOnce(g, s);
    OffsetsOnce(g, s, r.start, r.end);
    DecodesIff(k.source[r.start..r.end]);
  }

  lemma SoundName(g: set<Triple>, k: Check, s: Node)
    requires Sound(g, k, s)
    ensures !Breaks(g, k, s, IriMismatch)
  {
    hide WellLinked, Visible, KINDS, BOUNDARY_CLASSES, EndsWithDocument, Encode, NameOf, Str, One, Denotes, Given, Offsets;
    var r :| Recorded(g, k, s, r) && Fits(k, s, r);
    GivenOnce(g, s);
    OffsetsOnce(g, s, r.start, r.end);
    assert forall v :: Given(g, s, "propositionKind", v) ==> Str(v) == r.kind by { KindIsText(); }
  }

  lemma KindIsText()
    ensures forall v: Node :: v.Literal? ==> Str(v) == v.text
  {}

  lemma OffsetsDenote(g: set<Triple>, s: Node, a: int, b: int)
    requires Offsets(g, s, a, b)
    ensures forall v :: Given(g, s, "sourceStart", v) ==> Denotes(v, a)
    ensures forall v :: Given(g, s, "sourceEnd", v) ==> Denotes(v, b)
  {
    hide Given, Denotes;
    GivenOnce(g, s);
  }

  lemma OffsetsOnce(g: set<Triple>, s: Node, a: int, b: int)
    requires Offsets(g, s, a, b)
    ensures forall x, y :: Offsets(g, s, x, y) ==> x == a && y == b
  {
    hide Given, Denotes;
    GivenOnce(g, s);
    DenotesOnce();
  }

  lemma SoundLinks(g: set<Triple>, k: Check, s: Node, f: Fault)
    requires Sound(g, k, s) && (LinkFault(f) || f.IriInvalid?)
    ensures !Breaks(g, k, s, f)
  {
    hide Recorded, Fits, Listed, TEXT_KEYS, NODE_CLASSES, Sequenced, InSequence, Bare, One, Visible;
  }

  /** A candidate is verified exactly if all it says is so. */
  lemma VerifiedIffSound(g: set<Triple>, k: Check, s: Node)
    ensures Verified(g, k, s) <==> Sound(g, k, s)
  {
    hide Refused, Breaks, WellLinked, Recorded, Fits, One;
    forall f ensures Refused(g, k, s, f) <==> Breaks(g, k, s, f) {
      RefusedIffBreaks(g, k, s, f);
    }
    if Verified(g, k, s) {
      assert s.Iri? by { assert !Breaks(g, k, s, IriInvalid); HasName(g, k, s); }
      UnbrokenLinks(g, k, s);
      var r := UnbrokenRecord(g, k, s);
    }
    if Sound(g, k, s) {
      IsSubject(g, s);
      forall f ensures !Breaks(g, k, s, f) {
        if f.MissingProperty? || f.DuplicateProperty? {
          SoundHas(g, k, s, f);
        } else if WordFault(f) || SourceFault(f) {
          SoundSays(g, k, s, f);
        } else if f.SourceTextMismatch? {
          SoundText(g, k, s);
        } else if f.IriMismatch? {
          SoundName(g, k, s);
        } else if SpanFault(f) || f.OffsetInvalid? {
          SoundSpans(g, k, s, f);
        } else {
          SoundLinks(g, k, s, f);
        }
      }
    }
  }

  lemma HasName(g: set<Triple>, k: Check, s: Node)
    requires !Breaks(g, k, s, IriInvalid)
    ensures s.Iri?
  {}

  lemma IsSubject(g: set<Triple>, s: Node)
    requires One(g, s, RDF_TYPE, Iri(SJ + "Proposition"))
    ensures s in Subjects(g)
  {
    assert Triple(s, RDF_TYPE, Proposition()) in g;
  }

  ghost predicate IsProposition(g: set<Triple>, s: Node) {
    Triple(s, RDF_TYPE, Iri(SJ + "Proposition")) in g
  }

  /** A node one of the propositions links by one of the two keys. */
  ghost predicate IsHintNode(g: set<Triple>, child: Node) {
    exists s, key :: IsProposition(g, s) && s.Iri? && key in NODE_CLASSES && Triple(s, SJ + key, child) in g
  }

  lemma SubjectIff(g: set<Triple>)
    ensures forall s :: s in Subjects(g) <==> IsProposition(g, s)
  {}

  lemma HintNodeIff(g: set<Triple>, child: Node)
    ensures HintNode(g, child) <==> IsHintNode(g, child)
  {
    hide Subjects, IsProposition, NODE_CLASSES, KeyName;
    SubjectIff(g);
    NodeKeys();
    assert forall s, h :: child in Linked(g, s, h) <==> Triple(s, SJ + KeyName(h), child) in g;
  }

  /** A document passes exactly if it is read, has a proposition, says only what is so of each of them, and speaks of
      nothing else but their hint nodes. */
  lemma PassesIff(parsed: Option<set<Triple>>, k: Check)
    ensures Passes(parsed, k) <==>
      && parsed.Some?
      && (exists s :: IsProposition(parsed.value, s))
      && (forall s :: IsProposition(parsed.value, s) ==> Sound(parsed.value, k, s))
      && forall t :: t in parsed.value ==> IsProposition(parsed.value, t.s) || IsHintNode(parsed.value, t.s)
  {
    hide Subjects, IsProposition, IsHintNode, HintNode, Refused, Sound;
    if parsed.None? {
      assert Found(parsed, k, Unparseable);
    } else {
      var g := parsed.value;
      SubjectIff(g);
      forall s ensures Verified(g, k, s) <==> Sound(g, k, s) {
        VerifiedIffSound(g, k, s);
      }
      forall child ensures HintNode(g, child) <==> IsHintNode(g, child) {
        HintNodeIff(g, child);
      }
      if Passes(parsed, k) {
        assert !Found(parsed, k, NoCandidates);
        forall s, f | s in Subjects(g) ensures !Refused(g, k, s, f) {
          assert !Found(parsed, k, About(s, f));
        }
        forall t | t in g ensures IsProposition(g, t.s) || IsHintNode(g, t.s) {
          assert !Found(parsed, k, Stray(t.s));
        }
      }
    }
  }
}
