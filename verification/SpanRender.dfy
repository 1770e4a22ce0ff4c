/** Writing bound candidates as a Turtle document.

    A document is a list of lines, and a line a list of words; the methods at the end build the same text string by
    string, as the script does. */
module SpanRender {
  import opened Common
  import opened Text
  import opened Turtle
  import opened Spans

  const SJ := "https://ggen-igniter.dev" + "/ontology/semantic-jira#"
  const DCTERMS := "http://purl.org/dc/terms/"

  // ---------------------------------------------------------------- words and lines

  /** How names are written, and how a reader of the document resolves IRI references. */
  datatype Style = Style(prefix: string, namespace: string, base: string -> string)

  datatype Word =
    | Mark(c: char) | KeyA | Directive
    | Angle(iri: string) | Named(prefix: string, name: string) | Local(local: string)
    | Quote(text: string) | Number(n: nat)

  predicate SafeLocal(s: string) {
    var t := Chopped(s);
    t != "" && (Letter(t[0]) || t[0] == '_') && forall c :: c in t ==> NameChar(c)
  }

  function Term(st: Style, local: string): string {
    if SafeLocal(local) then st.prefix + ":" + local else "<" + (st.namespace + local) + ">"
  }

  function WordText(w: Word, st: Style): string {
    match w
    case Mark(c) => [c]
    case KeyA => "a"
    case Directive => "@prefix"
    case Angle(iri) => "<" + iri + ">"
    case Named(p, name) => p + ":" + name
    case Local(local) => Term(st, local)
    case Quote(text) => Quoted(text)
    case Number(n) => Decimal(n)
  }

  function Spaced(ws: seq<Word>, st: Style): string {
    if ws == [] then ""
    else if |ws| == 1 then WordText(ws[0], st)
    else WordText(ws[0], st) + (" " + Spaced(ws[1..], st))
  }

  datatype Line = Remark(text: string) | Words(indent: string, words: seq<Word>)

  function LineText(l: Line, st: Style): string {
    match l
    case Remark(text) => "#" + text
    case Words(indent, ws) => indent + Spaced(ws, st)
  }

  function LineTexts(ls: seq<Line>, st: Style): (r: seq<string>)
    ensures |r| == |ls|
  {
    seq(|ls|, i requires 0 <= i < |ls| => LineText(ls[i], st))
  }

  /** `"\n".join(lines)`. */
  function Joined(lines: seq<string>): string {
    if lines == [] then ""
    else if |lines| == 1 then lines[0]
    else lines[0] + ("\n" + Joined(lines[1..]))
  }

  // ---------------------------------------------------------------- properties and blocks

  datatype Single =
    | PropositionKind | Statement | SourceDocument | SourceSha256 | SourceStart | SourceEnd | SourceText
    | BoundaryClass | CandidateStanding | ExtractedBy

  datatype Pred = TheSingle(p: Single) | RequiredBy | Hint(h: HintKey) | Description

  function SingleName(p: Single): string {
    match p
    case PropositionKind => "propositionKind"
    case Statement => "statement"
    case SourceDocument => "sourceDocument"
    case SourceSha256 => "sourceSha256"
    case SourceStart => "sourceStart"
    case SourceEnd => "sourceEnd"
    case SourceText => "sourceText"
    case BoundaryClass => "boundaryClass"
    case CandidateStanding => "candidateStanding"
    case ExtractedBy => "extractedBy"
  }

  function PredName(q: Pred): string {
    match q
    case TheSingle(p) => SingleName(p)
    case RequiredBy => "requiredBy"
    case Hint(h) => KeyName(h)
    case Description => "description"
  }

  function PredWord(q: Pred): Word {
    Named(if q.Description? then "dcterms" else "sj", PredName(q))
  }

  datatype Property = Property(pred: Pred, value: Word)

  function PropertyText(p: Property, st: Style): string {
    WordText(PredWord(p.pred), st) + " " + WordText(p.value, st)
  }

  function PropertyTexts(ps: seq<Property>, st: Style): (r: seq<string>)
    ensures |r| == |ps|
  {
    seq(|ps|, i requires 0 <= i < |ps| => PropertyText(ps[i], st))
  }

  /** A subject with its class and its properties. */
  datatype Block = Block(local: string, cls: string, body: seq<Property>)

  function Subject(b: Block): Line {
    Words("", [Local(b.local), KeyA, Named("sj", b.cls), Mark(';')])
  }

  const INDENT := "    "
  const EMPTY := Words("", [])

  function PropertyLine(p: Property, end: char): Line {
    Words(INDENT, [PredWord(p.pred), p.value, Mark(end)])
  }

  function BodyLines(ps: seq<Property>): (r: seq<Line>)
    ensures |r| == |ps|
  {
    seq(|ps|, i requires 0 <= i < |ps| => PropertyLine(ps[i], if i == |ps| - 1 then '.' else ';'))
  }

  function BlockLines(b: Block): seq<Line> {
    [Subject(b)] + BodyLines(b.body) + [EMPTY]
  }

  function BlocksLines(bs: seq<Block>): seq<Line> {
    if bs == [] then [] else BlocksLines(bs[..|bs| - 1]) + BlockLines(bs[|bs| - 1])
  }

  // ---------------------------------------------------------------- a candidate's blocks

  const SORTED_KEYS: seq<HintKey> := [
    Acceptance, ConsequenceClass, EvidenceHorizon, Exclusion, Falsifier, Postcondition, RequiresCapability, SuccessorPolicy]

  datatype Job = Job(doc: string, extractor: string, source: string, extract: string, style: Style)

  function ChildName(local: string, h: HintKey, n: nat): string {
    local + "-" + KeyName(h) + "-" + Decimal(n)
  }

  function NodeClass(h: HintKey): string {
    if h.Acceptance? then "AcceptanceCriterion" else "Falsifier"
  }

  function Fixed(c: Candidate, job: Job): seq<Property> {
    [ Property(TheSingle(PropositionKind), Quote(c.kind)),
      Property(TheSingle(Statement), Quote(c.statement)),
      Property(TheSingle(SourceDocument), Quote(job.doc)),
      Property(TheSingle(SourceSha256), Quote(job.source)),
      Property(TheSingle(SourceStart), Number(c.start)),
      Property(TheSingle(SourceEnd), Number(c.end)),
      Property(TheSingle(SourceText), Quote(c.text)),
      Property(TheSingle(BoundaryClass), Named("sj", c.boundary)) ]
  }

  function GateProps(gates: seq<string>): (r: seq<Property>)
    ensures |r| == |gates|
  {
    seq(|gates|, i requires 0 <= i < |gates| => Property(RequiredBy, Local(gates[i])))
  }

  function HintProp(local: string, h: HintKey, n: nat, value: string): Property {
    Property(Hint(h), if NodeHint(h) then Local(ChildName(local, h, n)) else Quote(value))
  }

  function KeyProps(local: string, h: HintKey, values: seq<string>): (r: seq<Property>)
    ensures |r| == |values|
  {
    seq(|values|, i requires 0 <= i < |values| => HintProp(local, h, i + 1, values[i]))
  }

  function Child(local: string, h: HintKey, n: nat, value: string): Block {
    Block(ChildName(local, h, n), NodeClass(h), [Property(Description, Quote(value))])
  }

  function KeyChildren(local: string, h: HintKey, values: seq<string>): (r: seq<Block>)
    ensures |r| == if NodeHint(h) then |values| else 0
  {
    if NodeHint(h) then seq(|values|, i requires 0 <= i < |values| => Child(local, h, i + 1, values[i])) else []
  }

  function ValuesOf(c: Candidate, h: HintKey): seq<string> {
    if h in c.hints then c.hints[h] else []
  }

  function HintProps(c: Candidate, keys: seq<HintKey>): seq<Property> {
    if keys == [] then []
    else
      var k := |keys| - 1;
      HintProps(c, keys[..k]) + KeyProps(c.local, keys[k], ValuesOf(c, keys[k]))
  }

  function Children(c: Candidate, keys: seq<HintKey>): seq<Block> {
    if keys == [] then []
    else
      var k := |keys| - 1;
      Children(c, keys[..k]) + KeyChildren(c.local, keys[k], ValuesOf(c, keys[k]))
  }

  function Closing(job: Job): seq<Property> {
    [Property(TheSingle(CandidateStanding), Quote("UNKNOWN")), Property(TheSingle(ExtractedBy), Quote(job.extractor))]
  }

  function Body(c: Candidate, job: Job): seq<Property> {
    Fixed(c, job) + GateProps(c.required) + HintProps(c, SORTED_KEYS) + Closing(job)
  }

  function CandidateBlocks(c: Candidate, job: Job): seq<Block> {
    [Block(c.local, "Proposition", Body(c, job))] + Children(c, SORTED_KEYS)
  }

  function AllBlocks(cs: seq<Candidate>, job: Job): seq<Block> {
    if cs == [] then [] else AllBlocks(cs[..|cs| - 1], job) + CandidateBlocks(cs[|cs| - 1], job)
  }

  function PrefixLine(prefix: string, iri: string): Line {
    Words("", [Directive, Named(prefix, ""), Angle(iri), Mark('.')])
  }

  const GENERATED: seq<string> := [
    " GENERATED by ", "scripts/sjira/", "prose_spans.py emit;", " do not edit.", " Re-emit from the ", "extraction JSON."]
  const STANDING_REMARK: seq<string> := [
    " Candidates only ", "(sj:candidateStanding ", "\"UNKNOWN\");", " admission is a ", "separate step ", "(ARD \U{00A7}5.3-5.4)."]

  function Concat(parts: seq<string>): string {
    if parts == [] then "" else parts[0] + Concat(parts[1..])
  }

  function Remarks(job: Job, count: nat): seq<Line> {
    [ Remark(Concat(GENERATED)),
      Remark(" source: " + job.doc + " " + job.source),
      Remark(" extraction: " + job.extract + " (" + Decimal(count) + " candidates, extractedBy " + job.extractor + ")"),
      Remark(Concat(STANDING_REMARK)),
      EMPTY ]
  }

  function Prefixes(st: Style): seq<Line> {
    [ PrefixLine("dcterms", DCTERMS),
      PrefixLine("sj", SJ),
      PrefixLine(st.prefix, st.namespace),
      EMPTY ]
  }

  function Header(job: Job, count: nat): seq<Line> {
    Remarks(job, count) + Prefixes(job.style)
  }

  function Document(cs: seq<Candidate>, job: Job): seq<Line> {
    Header(job, |cs|) + BlocksLines(AllBlocks(cs, job))
  }

  // ---------------------------------------------------------------- the writer

  lemma SingleSpaced(w: Word, st: Style)
    ensures Spaced([w], st) == WordText(w, st)
  {}

  lemma PairSpaced(w: Word, ws: seq<Word>, st: Style)
    requires ws != []
    ensures Spaced([w] + ws, st) == WordText(w, st) + (" " + Spaced(ws, st))
  {
    hide WordText;
    assert ([w] + ws)[1..] == ws;
  }

  lemma PropertyLineText(p: Property, end: char, st: Style)
    ensures LineText(PropertyLine(p, end), st) == INDENT + PropertyText(p, st) + " " + [end]
  {
    hide WordText, Spaced;
    var q := PredWord(p.pred);
    assert [q, p.value, Mark(end)] == [q] + ([p.value] + [Mark(end)]);
    PairSpaced(q, [p.value] + [Mark(end)], st);
    PairSpaced(p.value, [Mark(end)], st);
    SingleSpaced(Mark(end), st);
    MarkText(end, st);
    var a, b, e := WordText(q, st), WordText(p.value, st), " " + [end];
    assert INDENT + (a + (" " + (b + e))) == INDENT + (a + " " + b) + e;
    assert INDENT + (a + " " + b) + " " + [end] == INDENT + (a + " " + b) + e;
  }

  lemma MarkText(c: char, st: Style)
    ensures WordText(Mark(c), st) == [c]
  {}

  lemma SubjectText(b: Block, st: Style)
    ensures LineText(Subject(b), st) == Term(st, b.local) + " a sj:" + b.cls + " ;"
  {
    hide Spaced, Term;
    var ws := [Local(b.local)] + ([KeyA] + ([Named("sj", b.cls)] + [Mark(';')]));
    assert Subject(b).words == ws;
    PairSpaced(Local(b.local), [KeyA] + ([Named("sj", b.cls)] + [Mark(';')]), st);
    PairSpaced(KeyA, [Named("sj", b.cls)] + [Mark(';')], st);
    PairSpaced(Named("sj", b.cls), [Mark(';')], st);
    SingleSpaced(Mark(';'), st);
    var t := Term(st, b.local);
    assert "" + (t + (" " + ("a" + (" " + (("sj" + ":" + b.cls) + (" " + ";")))))) == t + " a sj:" + b.cls + " ;";
  }

  lemma PrefixText(prefix: string, iri: string, st: Style)
    ensures LineText(PrefixLine(prefix, iri), st) == "@prefix " + prefix + ": <" + iri + "> ."
  {
    hide Spaced;
    var p, i := Named(prefix, ""), Angle(iri);
    assert PrefixLine(prefix, iri).words == [Directive] + ([p] + ([i] + [Mark('.')]));
    PairSpaced(Directive, [p] + ([i] + [Mark('.')]), st);
    PairSpaced(p, [i] + [Mark('.')], st);
    PairSpaced(i, [Mark('.')], st);
    SingleSpaced(Mark('.'), st);
    assert "" + ("@prefix" + (" " + ((prefix + ":" + "") + (" " + (("<" + iri + ">") + (" " + "."))))))
        == "@prefix " + prefix + ": <" + iri + "> .";
  }

  lemma PropertyIs(q: Pred, value: Word, st: Style)
    ensures PropertyText(Property(q, value), st)
         == (if q.Description? then "dcterms:" else "sj:") + PredName(q) + " " + WordText(value, st)
  {
    assert "dcterms" + ":" == "dcterms:" && "sj" + ":" == "sj:";
  }

  method Entry(q: Pred, value: Word, st: Style) returns (r: string)
    ensures r == PropertyText(Property(q, value), st)
  {
    PropertyIs(q, value, st);
    var shown;
    match value {
      case Quote(text) => shown := TurtleString(text);
      case _ => shown := WordText(value, st);
    }
    return (if q.Description? then "dcterms:" else "sj:") + PredName(q) + " " + shown;
  }

  method RenderBody(c: Candidate, job: Job) returns (body: seq<string>)
    ensures body == PropertyTexts(Body(c, job), job.style)
  {
    hide PropertyText, HintProp;
    var st := job.style;
    var kind := Entry(TheSingle(PropositionKind), Quote(c.kind), st);
    var statement := Entry(TheSingle(Statement), Quote(c.statement), st);
    var doc := Entry(TheSingle(SourceDocument), Quote(job.doc), st);
    var sha := Entry(TheSingle(SourceSha256), Quote(job.source), st);
    var start := Entry(TheSingle(SourceStart), Number(c.start), st);
    var end := Entry(TheSingle(SourceEnd), Number(c.end), st);
    var text := Entry(TheSingle(SourceText), Quote(c.text), st);
    var boundary := Entry(TheSingle(BoundaryClass), Named("sj", c.boundary), st);
    body := [kind, statement, doc, sha, start, end, text, boundary];
    ghost var fixed := Fixed(c, job);
    assert body == PropertyTexts(fixed, st);
    for i := 0 to |c.required|
      invariant body == PropertyTexts(fixed + GateProps(c.required[..i]), st)
    {
      var gate := Entry(RequiredBy, Local(c.required[i]), st);
      assert GateProps(c.required[..i + 1]) == GateProps(c.required[..i]) + [Property(RequiredBy, Local(c.required[i]))];
      body := body + [gate];
    }
    assert c.required[..|c.required|] == c.required;
    fixed := fixed + GateProps(c.required);
    for k := 0 to |SORTED_KEYS|
      invariant body == PropertyTexts(fixed + HintProps(c, SORTED_KEYS[..k]), st)
    {
      var entries := RenderHints(c.local, SORTED_KEYS[k], ValuesOf(c, SORTED_KEYS[k]), st);
      assert SORTED_KEYS[..k + 1][..k] == SORTED_KEYS[..k];
      body := body + entries;
    }
    assert SORTED_KEYS[..|SORTED_KEYS|] == SORTED_KEYS;
    var standing := Entry(TheSingle(CandidateStanding), Quote("UNKNOWN"), st);
    var extractor := Entry(TheSingle(ExtractedBy), Quote(job.extractor), st);
    body := body + [standing, extractor];
  }

  method RenderHints(local: string, h: HintKey, values: seq<string>, st: Style) returns (entries: seq<string>)
    ensures entries == PropertyTexts(KeyProps(local, h, values), st)
  {
    hide PropertyText;
    entries := [];
    for i := 0 to |values|
      invariant entries == PropertyTexts(KeyProps(local, h, values[..i]), st)
    {
      var entry := Entry(Hint(h), if NodeHint(h) then Local(ChildName(local, h, i + 1)) else Quote(values[i]), st);
      assert KeyProps(local, h, values[..i + 1]) == KeyProps(local, h, values[..i]) + [HintProp(local, h, i + 1, values[i])];
      entries := entries + [entry];
    }
    assert values[..|values|] == values;
  }

  /** The lines of a subject, given its written properties. */
  method RenderBlock(ghost b: Block, subject: string, cls: string, body: seq<string>, st: Style) returns (lines: seq<string>)
    requires b.body != [] && subject == Term(st, b.local) && cls == b.cls && body == PropertyTexts(b.body, st)
    ensures lines == LineTexts(BlockLines(b), st)
  {
    hide PropertyText, LineText, Term, PropertyLine, Subject;
    var n := |body| - 1;
    lines := [subject + " a sj:" + cls + " ;"];
    SubjectText(b, st);
    for i := 0 to n
      invariant lines == LineTexts([Subject(b)] + BodyLines(b.body)[..i], st)
    {
      PropertyLineText(b.body[i], ';', st);
      assert BodyLines(b.body)[..i + 1] == BodyLines(b.body)[..i] + [PropertyLine(b.body[i], ';')];
      EndedText(body[i], ';');
      lines := lines + ["    " + body[i] + " ;"];
    }
    PropertyLineText(b.body[n], '.', st);
    EndedText(body[n], '.');
    assert BodyLines(b.body) == BodyLines(b.body)[..n] + [PropertyLine(b.body[n], '.')];
    EmptyText(st);
    lines := lines + ["    " + body[n] + " ."];
    lines := lines + [""];
  }

  lemma EndedText(t: string, c: char)
    ensures INDENT + t + " " + [c] == "    " + t + [' ', c]
  {}

  lemma EmptyText(st: Style)
    ensures LineText(EMPTY, st) == ""
  {}

  lemma LineTextsAppend(a: seq<Line>, b: seq<Line>, st: Style)
    ensures LineTexts(a + b, st) == LineTexts(a, st) + LineTexts(b, st)
  {
    hide LineText;
  }

  method RenderChildren(c: Candidate, st: Style) returns (lines: seq<string>)
    ensures lines == LineTexts(BlocksLines(Children(c, SORTED_KEYS)), st)
  {
    hide LineText, BlockLines, KeyChildren, BlocksLines;
    lines := [];
    NoBlocks();
    for k := 0 to |SORTED_KEYS|
      invariant lines == LineTexts(BlocksLines(Children(c, SORTED_KEYS[..k])), st)
    {
      var h := SORTED_KEYS[k];
      var more := RenderNodes(c.local, h, ValuesOf(c, h), st);
      assert SORTED_KEYS[..k + 1][..k] == SORTED_KEYS[..k];
      BlocksLinesAppend(Children(c, SORTED_KEYS[..k]), KeyChildren(c.local, h, ValuesOf(c, h)));
      LineTextsAppend(BlocksLines(Children(c, SORTED_KEYS[..k])), BlocksLines(KeyChildren(c.local, h, ValuesOf(c, h))), st);
      lines := lines + more;
    }
    assert SORTED_KEYS[..|SORTED_KEYS|] == SORTED_KEYS;
  }

  lemma NoTexts(st: Style)
    ensures LineTexts([], st) == []
  {}

  lemma NoBlocks()
    ensures BlocksLines([]) == []
  {}

  lemma OneBlock(bs: seq<Block>, b: Block)
    ensures BlocksLines(bs + [b]) == BlocksLines(bs) + BlockLines(b)
  {
    assert (bs + [b])[..|bs|] == bs;
  }

  lemma {:induction false} BlocksLinesAppend(a: seq<Block>, b: seq<Block>)
    ensures BlocksLines(a + b) == BlocksLines(a) + BlocksLines(b)
  {
    hide BlockLines;
    if b == [] {
      assert a + b == a;
    } else {
      var k := |b| - 1;
      BlocksLinesAppend(a, b[..k]);
      assert (a + b)[..|a + b| - 1] == a + b[..k];
    }
  }

  lemma NodesStep(local: string, h: HintKey, values: seq<string>, i: nat, st: Style)
    requires NodeHint(h) && i < |values|
    ensures LineTexts(BlocksLines(KeyChildren(local, h, values[..i + 1])), st)
         == LineTexts(BlocksLines(KeyChildren(local, h, values[..i])), st)
            + LineTexts(BlockLines(Child(local, h, i + 1, values[i])), st)
  {
    hide LineText, BlockLines, BlocksLines, Child, LineTexts;
    var b := Child(local, h, i + 1, values[i]);
    assert KeyChildren(local, h, values[..i + 1]) == KeyChildren(local, h, values[..i]) + [b];
    OneBlock(KeyChildren(local, h, values[..i]), b);
    LineTextsAppend(BlocksLines(KeyChildren(local, h, values[..i])), BlockLines(b), st);
  }

  method RenderNodes(local: string, h: HintKey, values: seq<string>, st: Style) returns (lines: seq<string>)
    ensures lines == LineTexts(BlocksLines(KeyChildren(local, h, values)), st)
  {
    hide LineText, BlockLines, BlocksLines, PropertyText, LineTexts;
    lines := [];
    NoBlocks();
    NoTexts(st);
    if NodeHint(h) {
      for i := 0 to |values|
        invariant lines == LineTexts(BlocksLines(KeyChildren(local, h, values[..i])), st)
      {
        var b := Child(local, h, i + 1, values[i]);
        var entry := Entry(Description, Quote(values[i]), st);
        var more := RenderBlock(b, Term(st, b.local), b.cls, [entry], st);
        NodesStep(local, h, values, i, st);
        lines := lines + more;
      }
      assert values[..|values|] == values;
    }
  }

  method Render(cs: seq<Candidate>, job: Job) returns (text: string)
    ensures text == Joined(LineTexts(Document(cs, job), job.style))
  {
    hide LineTexts, BlocksLines, AllBlocks, Header, CandidateBlocks, Joined;
    var lines := RenderHeader(job, |cs|);
    NoCandidates(job, |cs|);
    for i := 0 to |cs|
      invariant lines == LineTexts(Header(job, |cs|) + BlocksLines(AllBlocks(cs[..i], job)), job.style)
    {
      var more := RenderCandidate(cs[i], job);
      CandidateStep(cs, i, job);
      lines := lines + more;
    }
    assert cs[..|cs|] == cs;
    text := Joined(lines);
  }

  lemma NoCandidates(job: Job, count: nat)
    ensures Header(job, count) + BlocksLines(AllBlocks([], job)) == Header(job, count)
  {
    hide Header;
  }

  lemma CandidateStep(cs: seq<Candidate>, i: nat, job: Job)
    requires i < |cs|
    ensures LineTexts(Header(job, |cs|) + BlocksLines(AllBlocks(cs[..i + 1], job)), job.style)
         == LineTexts(Header(job, |cs|) + BlocksLines(AllBlocks(cs[..i], job)), job.style)
            + LineTexts(BlocksLines(CandidateBlocks(cs[i], job)), job.style)
  {
    hide LineTexts, BlocksLines, CandidateBlocks, Header;
    var header, before, here := Header(job, |cs|), AllBlocks(cs[..i], job), CandidateBlocks(cs[i], job);
    assert cs[..i + 1][..i] == cs[..i];
    BlocksLinesAppend(before, here);
    LineTextsAppend(header + BlocksLines(before), BlocksLines(here), job.style);
    assert (header + BlocksLines(before)) + BlocksLines(here) == header + (BlocksLines(before) + BlocksLines(here));
  }

  method RenderCandidate(c: Candidate, job: Job) returns (lines: seq<string>)
    ensures lines == LineTexts(BlocksLines(CandidateBlocks(c, job)), job.style)
  {
    hide LineText, BlockLines, BlocksLines, Body, Children, PropertyTexts;
    var st := job.style;
    BodyIsThere(c, job);
    var body := RenderBody(c, job);
    ghost var b := Block(c.local, "Proposition", Body(c, job));
    lines := RenderBlock(b, Term(st, c.local), "Proposition", body, st);
    var more := RenderChildren(c, st);
    NoBlocks();
    OneBlock([], b);
    assert [] + [b] == [b] && [] + BlockLines(b) == BlockLines(b);
    BlocksLinesAppend([b], Children(c, SORTED_KEYS));
    LineTextsAppend(BlockLines(b), BlocksLines(Children(c, SORTED_KEYS)), st);
    lines := lines + more;
  }

  lemma BodyIsThere(c: Candidate, job: Job)
    ensures Body(c, job) != []
  {}

  method RenderHeader(job: Job, count: nat) returns (lines: seq<string>)
    ensures lines == LineTexts(Header(job, count), job.style)
  {
    hide LineText, PrefixLine, Decimal, LineTexts, Remarks, Prefixes, Concat;
    var st := job.style;
    var source := " source: " + job.doc + " " + job.source;
    var extraction := " extraction: " + job.extract + " (" + Decimal(count) + " candidates, extractedBy " + job.extractor + ")";
    RemarksText(job, count);
    PrefixesText(st);
    LineTextsAppend(Remarks(job, count), Prefixes(st), st);
    lines := ["#" + Concat(GENERATED), "#" + source, "#" + extraction, "#" + Concat(STANDING_REMARK), ""];
    lines := lines + [
      "@prefix " + "dcterms" + ": <" + DCTERMS + "> .",
      "@prefix " + "sj" + ": <" + SJ + "> .",
      "@prefix " + st.prefix + ": <" + st.namespace + "> .",
      ""];
  }

  lemma RemarksText(job: Job, count: nat)
    ensures LineTexts(Remarks(job, count), job.style) == [
      "#" + Concat(GENERATED),
      "#" + (" source: " + job.doc + " " + job.source),
      "#" + (" extraction: " + job.extract + " (" + Decimal(count) + " candidates, extractedBy " + job.extractor + ")"),
      "#" + Concat(STANDING_REMARK),
      ""]
  {
    hide LineText, Decimal, Concat;
    RemarkText(job.style);
    EmptyText(job.style);
  }

  lemma PrefixesText(st: Style)
    ensures LineTexts(Prefixes(st), st) == [
      "@prefix " + "dcterms" + ": <" + DCTERMS + "> .",
      "@prefix " + "sj" + ": <" + SJ + "> .",
      "@prefix " + st.prefix + ": <" + st.namespace + "> .",
      ""]
  {
    hide LineText, PrefixLine;
    EmptyText(st);
    PrefixText("dcterms", DCTERMS, st);
    PrefixText("sj", SJ, st);
    PrefixText(st.prefix, st.namespace, st);
  }

  lemma RemarkText(st: Style)
    ensures forall t :: LineText(Remark(t), st) == "#" + t
  {}
}
