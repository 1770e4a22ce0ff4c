/** Reading back the document that the span renderer writes: the tokens of a word, of a line and of all lines,
    then the triples of a block and of the whole document.

    A name that cannot be read back makes the whole document unreadable, so every lemma here keeps track of
    whether there is a token at all, and the last one says exactly when there is a graph and which one it is. */
module SpanReading {
  import opened Common
  import opened Text
  import opened Turtle
  import opened R = TurtleReader
  import opened Spans
  import opened SpanRender

  // ---------------------------------------------------------------- words

  /** The arguments are themselves proper Turtle: a prefix name and an IRI reference without forbidden
      characters. */
  predicate GoodStyle(st: Style) {
    PrefixName(st.prefix) && IriText(st.namespace) && IsReference(st.namespace)
  }

  /** Names whose characters are allowed inside an IRI, bar a final newline. */
  predicate Plain(local: string) {
    Chopped(local) != "" && forall c :: c in Chopped(local) ==> NameChar(c) || c == '.'
  }

  /** Such a name cannot be read back when it is written in angle brackets with its newline. */
  predicate Readable(local: string) {
    SafeLocal(local) || Chopped(local) == local
  }

  predicate GoodWord(w: Word) {
    match w
    case Mark(c) => c == '.' || c == ';'
    case Angle(iri) => IriText(iri)
    case Named(p, name) => PrefixName(p) && LocalText(name)
    case Local(local) => Plain(local)
    case _ => true
  }

  function WordToken(w: Word, st: Style): Option<Token> {
    match w
    case Mark(c) => Some(if c == '.' then Dot else Semicolon)
    case KeyA => Some(KeywordA)
    case Directive => Some(PrefixWord)
    case Angle(iri) => Some(IriRef(iri))
    case Named(p, name) => Some(Name(p, name))
    case Local(local) =>
      if SafeLocal(local) then Some(Name(st.prefix, Chopped(local)))
      else if Readable(local) then Some(IriRef(st.namespace + local))
      else None
    case Quote(text) => Some(QuotedText(text))
    case Number(n) => Some(Integer(Decimal(n)))
  }

  function Led(tok: Option<Token>, r: Option<seq<Token>>): Option<seq<Token>> {
    match tok
    case None => None
    case Some(k) => Cons(k, r)
  }

  lemma WordReads(w: Word, st: Style, rest: string)
    requires GoodStyle(st) && GoodWord(w) && Delimited(rest)
    ensures Tokens(WordText(w, st) + rest) == Led(WordToken(w, st), Tokens(rest))
  {
    hide Tokens, Reads, SafeLocal, Decimal, Quoted, Plain, GoodStyle, PrefixName, LocalText, IriText;
    match w
    case Mark(c) =>
      ReadsMark(c, rest);
      TokensAfter([c], WordToken(w, st), rest);
    case KeyA =>
      ReadsA(rest);
      TokensAfter("a", WordToken(w, st), rest);
    case Directive =>
      ReadsPrefixWord(rest);
      TokensAfter("@prefix", WordToken(w, st), rest);
    case Angle(iri) =>
      ReadsIri(iri, rest);
      TokensAfter("<" + iri + ">", WordToken(w, st), rest);
    case Named(p, name) =>
      ReadsName(p, name, rest);
      TokensAfter(p + ":" + name, WordToken(w, st), rest);
    case Local(local) =>
      TermReads(local, st, rest);
    case Quote(text) =>
      ReadsText(text, rest);
      TokensAfter(Quoted(text), WordToken(w, st), rest);
    case Number(n) =>
      ReadsNumber(Decimal(n), rest);
      TokensAfter(Decimal(n), WordToken(w, st), rest);
  }

  lemma TermReads(local: string, st: Style, rest: string)
    requires GoodStyle(st) && Plain(local) && Delimited(rest)
    ensures Tokens(Term(st, local) + rest) == Led(WordToken(Local(local), st), Tokens(rest))
  {
    hide Tokens, Plain, PrefixName, IriText, SafeLocal, Delimited;
    if SafeLocal(local) {
      SafeTermReads(local, st, rest);
    } else {
      AngleTermReads(local, st, rest);
    }
  }

  lemma SafeTermReads(local: string, st: Style, rest: string)
    requires GoodStyle(st) && SafeLocal(local) && Delimited(rest)
    ensures Tokens(Term(st, local) + rest) == Cons(Name(st.prefix, Chopped(local)), Tokens(rest))
  {
    hide Tokens, Reads, SafeLocal, PrefixName, IriText, LocalText;
    var t, end := Chopped(local), local[|Chopped(local)|..];
    SafeIsLocal(local);
    ReadsName(st.prefix, t, end + rest);
    TokensAfter(st.prefix + ":" + t, Some(Name(st.prefix, t)), end + rest);
    if end != "" {
      TokensAfterWhite('\n', rest);
    }
    assert end + rest == if end == "" then rest else ['\n'] + rest;
    assert Term(st, local) + rest == (st.prefix + ":" + t) + (end + rest);
  }

  lemma AngleTermReads(local: string, st: Style, rest: string)
    requires GoodStyle(st) && !SafeLocal(local) && Plain(local) && Delimited(rest)
    ensures Tokens(Term(st, local) + rest)
         == if Readable(local) then Cons(IriRef(st.namespace + local), Tokens(rest)) else None
  {
    hide Tokens, Reads, SafeLocal, Plain, PrefixName, IriText;
    var t, end := Chopped(local), local[|Chopped(local)|..];
    PlainIsIri(st.namespace, local);
    if Readable(local) {
      ReadsIri(st.namespace + local, rest);
      TokensAfter("<" + (st.namespace + local) + ">", Some(IriRef(st.namespace + local)), rest);
    } else {
      RefusesIri(st.namespace + t, end, rest);
      assert "<" + (st.namespace + local) + ">" == "<" + (st.namespace + t) + end + ">";
      TokensAfter("<" + (st.namespace + local) + ">", None, rest);
    }
  }

  lemma SafeIsLocal(local: string)
    requires SafeLocal(local)
    ensures LocalText(Chopped(local))
  {}

  lemma PlainIsIri(namespace: string, local: string)
    requires Plain(local) && IriText(namespace)
    ensures IriText(namespace + Chopped(local))
  {}

  // ---------------------------------------------------------------- lines

  function Append(a: Option<seq<Token>>, b: Option<seq<Token>>): Option<seq<Token>> {
    if a.Some? && b.Some? then Some(a.value + b.value) else None
  }

  function WordTokens(ws: seq<Word>, st: Style): Option<seq<Token>> {
    if ws == [] then Some([]) else Led(WordToken(ws[0], st), WordTokens(ws[1..], st))
  }

  predicate GoodWords(ws: seq<Word>) {
    forall w :: w in ws ==> GoodWord(w)
  }

  lemma AppendLed(tok: Option<Token>, a: Option<seq<Token>>, b: Option<seq<Token>>)
    ensures Append(Led(tok, a), b) == Led(tok, Append(a, b))
  {
    if tok.Some? && a.Some? && b.Some? {
      assert [tok.value] + a.value + b.value == [tok.value] + (a.value + b.value);
    }
  }

  lemma {:induction false} WordsRead(ws: seq<Word>, st: Style, rest: string)
    requires GoodStyle(st) && GoodWords(ws) && Delimited(rest)
    ensures Tokens(Spaced(ws, st) + rest) == Append(WordTokens(ws, st), Tokens(rest))
  {
    hide Tokens, GoodStyle, GoodWord, WordToken, WordText, Append, Led;
    if ws == [] {
      AppendNothing(Tokens(rest));
      assert Spaced(ws, st) + rest == rest;
    } else {
      var w, more := ws[0], ws[1..];
      WordsRead(more, st, rest);
      AppendLed(WordToken(w, st), WordTokens(more, st), Tokens(rest));
      if |ws| == 1 {
        WordReads(w, st, rest);
        assert Spaced(more, st) + rest == rest;
      } else {
        var tail := Spaced(more, st) + rest;
        WordReads(w, st, " " + tail);
        TokensAfterWhite(' ', tail);
        assert Spaced(ws, st) + rest == WordText(w, st) + (" " + tail);
      }
    }
  }

  lemma AppendNothing(r: Option<seq<Token>>)
    ensures Append(Some([]), r) == r
  {
    if r.Some? {
      assert [] + r.value == r.value;
    }
  }

  predicate GoodLine(l: Line) {
    match l
    case Remark(text) => '\n' !in text && '\r' !in text
    case Words(indent, ws) => (indent == "" || indent == INDENT) && GoodWords(ws)
  }

  function LineTokens(l: Line, st: Style): Option<seq<Token>> {
    match l
    case Remark(_) => Some([])
    case Words(_, ws) => WordTokens(ws, st)
  }

  lemma IndentSkipped(t: string)
    ensures Tokens(INDENT + t) == Tokens(t)
  {
    hide Tokens;
    TokensAfterWhite(' ', t);
    TokensAfterWhite(' ', [' '] + t);
    TokensAfterWhite(' ', [' '] + ([' '] + t));
    TokensAfterWhite(' ', [' '] + ([' '] + ([' '] + t)));
    assert INDENT + t == [' '] + ([' '] + ([' '] + ([' '] + t)));
  }

  lemma LineReads(l: Line, st: Style, rest: string)
    requires GoodStyle(st) && GoodLine(l)
    ensures Tokens(LineText(l, st) + ("\n" + rest)) == Append(LineTokens(l, st), Tokens(rest))
  {
    hide Tokens, GoodStyle, GoodWords, Spaced, WordTokens;
    AppendNothing(Tokens(rest));
    match l
    case Remark(text) =>
      TokensAfterComment(text, rest);
      assert "#" + text + "\n" + rest == LineText(l, st) + ("\n" + rest);
    case Words(indent, ws) =>
      WordsRead(ws, st, "\n" + rest);
      TokensAfterWhite('\n', rest);
      var t := Spaced(ws, st) + ("\n" + rest);
      IndentSkipped(t);
      assert LineText(l, st) + ("\n" + rest) == indent + t;
      assert indent == "" ==> indent + t == t;
  }

  function LinesTokens(ls: seq<Line>, st: Style): Option<seq<Token>> {
    if ls == [] then Some([]) else Append(LineTokens(ls[0], st), LinesTokens(ls[1..], st))
  }

  predicate GoodLines(ls: seq<Line>) {
    forall l :: l in ls ==> GoodLine(l)
  }

  lemma JoinedStep(l: Line, ls: seq<Line>, st: Style)
    requires ls != []
    ensures Joined(LineTexts([l] + ls, st)) == LineText(l, st) + ("\n" + Joined(LineTexts(ls, st)))
  {
    hide LineText;
    assert LineTexts([l] + ls, st)[1..] == LineTexts(ls, st);
  }

  lemma NoTokens()
    ensures Tokens("") == Some([])
  {}

  lemma OneJoined(st: Style)
    ensures Joined(LineTexts([EMPTY], st)) == "" && LinesTokens([EMPTY], st) == Some([])
  {
    assert [EMPTY][1..] == [];
  }

  /** The tokens of a joined text are those of its lines, in order. */
  lemma {:induction false} LinesRead(ls: seq<Line>, st: Style)
    requires GoodStyle(st) && GoodLines(ls) && ls != [] && ls[|ls| - 1] == EMPTY
    ensures Tokens(Joined(LineTexts(ls, st))) == LinesTokens(ls, st)
  {
    hide Tokens, GoodStyle, GoodLine, Joined, LineTexts, LineText;
    if |ls| == 1 {
      OneJoined(st);
      NoTokens();
      assert ls == [EMPTY];
    } else {
      assert ls == [ls[0]] + ls[1..];
      JoinedStep(ls[0], ls[1..], st);
      LinesRead(ls[1..], st);
      LineReads(ls[0], st, Joined(LineTexts(ls[1..], st)));
    }
  }

  lemma AppendAssociates(a: Option<seq<Token>>, b: Option<seq<Token>>, c: Option<seq<Token>>)
    ensures Append(Append(a, b), c) == Append(a, Append(b, c))
  {
    if a.Some? && b.Some? && c.Some? {
      assert a.value + b.value + c.value == a.value + (b.value + c.value);
    }
  }

  lemma {:induction false} LinesTokensAppend(a: seq<Line>, b: seq<Line>, st: Style)
    ensures LinesTokens(a + b, st) == Append(LinesTokens(a, st), LinesTokens(b, st))
  {
    hide LineTokens, Append;
    if a == [] {
      AppendNothing(LinesTokens(b, st));
      assert a + b == b;
    } else {
      LinesTokensAppend(a[1..], b, st);
      AppendAssociates(LineTokens(a[0], st), LinesTokens(a[1..], st), LinesTokens(b, st));
      assert (a + b)[1..] == a[1..] + b;
    }
  }

  // ---------------------------------------------------------------- triples

  function Env(st: Style): Scope {
    Scope(map["dcterms" := st.base(DCTERMS)]["sj" := st.base(SJ)][st.prefix := st.base(st.namespace)], st.base)
  }

  /** Bindings under which the writer's terms have a meaning. */
  ghost predicate GoodEnv(env: Scope, st: Style) {
    "sj" in env.names && "dcterms" in env.names && st.prefix in env.names && env.names[st.prefix] == st.base(st.namespace)
    && env.base == st.base
  }

  function TermIri(local: string, st: Style): Node {
    Iri(if SafeLocal(local) then st.base(st.namespace) + Chopped(local) else st.base(st.namespace + local))
  }

  predicate GoodValue(w: Word) {
    GoodWord(w) && (w.Quote? || w.Number? || w.Local? || (w.Named? && w.prefix == "sj"))
  }

  predicate ReadableValue(w: Word) {
    w.Local? ==> Readable(w.local)
  }

  function ValueNode(w: Word, st: Style, env: Scope): Node
    requires GoodValue(w) && "sj" in env.names
  {
    match w
    case Quote(text) => Literal(text, XSD_STRING)
    case Number(n) => Literal(Decimal(n), XSD_INTEGER)
    case Named(_, name) => Iri(env.names["sj"] + name)
    case Local(local) => TermIri(local, st)
  }

  function PredIri(q: Pred, env: Scope): string
    requires "sj" in env.names && "dcterms" in env.names
  {
    env.names[if q.Description? then "dcterms" else "sj"] + PredName(q)
  }

  function PropertyTriple(s: Node, p: Property, st: Style, env: Scope): Triple
    requires GoodValue(p.value) && "sj" in env.names && "dcterms" in env.names
  {
    Triple(s, PredIri(p.pred, env), ValueNode(p.value, st, env))
  }

  predicate GoodBody(ps: seq<Property>) {
    forall p :: p in ps ==> GoodValue(p.value)
  }

  predicate ReadableBody(ps: seq<Property>) {
    forall p :: p in ps ==> ReadableValue(p.value)
  }

  function BodyTriples(s: Node, ps: seq<Property>, st: Style, env: Scope): (g: set<Triple>)
    requires GoodBody(ps) && "sj" in env.names && "dcterms" in env.names
    ensures forall t :: t in g <==> exists p :: p in ps && t == PropertyTriple(s, p, st, env)
  {
    set p | p in ps :: PropertyTriple(s, p, st, env)
  }

  predicate GoodBlock(b: Block) {
    PlainLocal(b.local) && LocalText(b.cls) && b.body != [] && GoodBody(b.body)
  }

  function TypeTriple(b: Block, st: Style, env: Scope): Triple
    requires "sj" in env.names
  {
    Triple(TermIri(b.local, st), RDF_TYPE, Iri(env.names["sj"] + b.cls))
  }

  function BlockTriples(b: Block, st: Style, env: Scope): set<Triple>
    requires GoodBlock(b) && "sj" in env.names && "dcterms" in env.names
  {
    {TypeTriple(b, st, env)} + BodyTriples(TermIri(b.local, st), b.body, st, env)
  }

  predicate GoodBlocks(bs: seq<Block>) {
    forall b :: b in bs ==> GoodBlock(b)
  }

  predicate ReadableBlocks(bs: seq<Block>) {
    forall b :: b in bs ==> ReadableBody(b.body)
  }

  function Graph(bs: seq<Block>, st: Style, env: Scope): (g: set<Triple>)
    requires GoodBlocks(bs) && "sj" in env.names && "dcterms" in env.names
    ensures forall t :: t in g <==> exists b :: b in bs && t in BlockTriples(b, st, env)
  {
    hide GoodBlock, BlockTriples;
    if bs == [] then {}
    else
      assert forall b :: b in bs <==> b == bs[0] || b in bs[1..];
      BlockTriples(bs[0], st, env) + Graph(bs[1..], st, env)
  }

  function Union(g: set<Triple>, r: Option<set<Triple>>): Option<set<Triple>> {
    match r
    case None => None
    case Some(h) => Some(g + h)
  }

  lemma ValueReads(w: Word, st: Style, env: Scope)
    requires GoodValue(w) && ReadableValue(w) && GoodEnv(env, st)
    ensures WordToken(w, st).Some? && ObjectOf(WordToken(w, st).value, env) == Some(ValueNode(w, st, env))
  {
    hide Decimal, GoodWord, SafeLocal;
  }

  lemma WordTokensStep(ws: seq<Word>, st: Style)
    requires ws != []
    ensures WordTokens(ws, st) == Led(WordToken(ws[0], st), WordTokens(ws[1..], st))
  {}

  lemma TwoWords(a: Word, b: Word, st: Style)
    requires WordToken(a, st).Some? && WordToken(b, st).Some?
    ensures WordTokens([a, b], st) == Some([WordToken(a, st).value, WordToken(b, st).value])
  {
    hide WordToken, WordTokens;
    assert [a, b][1..] == [b] && [b][1..] == [];
    WordTokensStep([a, b], st);
    WordTokensStep([b], st);
    NoWords(st);
    var x, y := WordToken(a, st).value, WordToken(b, st).value;
    assert [y] + [] == [y] && [x] + [y] == [x, y];
  }

  lemma NoWords(st: Style)
    ensures WordTokens([], st) == Some([])
  {}

  lemma FourWords(ws: seq<Word>, st: Style)
    requires |ws| == 4 && forall i :: 0 <= i < 4 ==> WordToken(ws[i], st).Some?
    ensures WordTokens(ws, st)
         == Some([WordToken(ws[0], st).value, WordToken(ws[1], st).value, WordToken(ws[2], st).value, WordToken(ws[3], st).value])
  {
    hide WordToken, WordTokens;
    WordTokensStep(ws, st);
    WordTokensStep(ws[1..], st);
    TwoWords(ws[2], ws[3], st);
    assert ws[1..][1..] == [ws[2], ws[3]];
    var a, b, c, d := WordToken(ws[0], st).value, WordToken(ws[1], st).value, WordToken(ws[2], st).value, WordToken(ws[3], st).value;
    assert [b] + [c, d] == [b, c, d] && [a] + [b, c, d] == [a, b, c, d];
  }

  lemma PropertyLineTokens(p: Property, end: char, st: Style)
    requires WordToken(p.value, st).Some?
    ensures LineTokens(PropertyLine(p, end), st)
         == Some([WordToken(PredWord(p.pred), st).value, WordToken(p.value, st).value, if end == '.' then Dot else Semicolon])
  {
    hide WordToken;
    var ws := PropertyLine(p, end).words;
    MarkToken(end, st);
    PredToken(p.pred, st);
    WordTokensStep(ws, st);
    TwoWords(p.value, Mark(end), st);
    assert ws[1..] == [p.value, Mark(end)];
    var a, b, c := WordToken(ws[0], st).value, WordToken(ws[1], st).value, WordToken(ws[2], st).value;
    assert [a] + [b, c] == [a, b, c];
  }

  lemma MarkToken(c: char, st: Style)
    ensures WordToken(Mark(c), st) == Some(if c == '.' then Dot else Semicolon)
  {}

  lemma PredToken(q: Pred, st: Style)
    ensures WordToken(PredWord(q), st) == Some(Name(if q.Description? then "dcterms" else "sj", PredName(q)))
  {}

  lemma PropertyParses(p: Property, end: char, s: Node, st: Style, env: Scope, more: seq<Token>)
    requires GoodValue(p.value) && ReadableValue(p.value) && GoodEnv(env, st)
    ensures LineTokens(PropertyLine(p, end), st).Some?
    ensures Properties(LineTokens(PropertyLine(p, end), st).value + more, env, s)
         == Added(PropertyTriple(s, p, st, env), if end == '.' then Statements(more, env) else Properties(more, env, s))
  {
    hide WordToken, ObjectOf, ValueNode, GoodValue, ReadableValue, PropertyLine, LineTokens, Added, Statements;
    ValueReads(p.value, st, env);
    PropertyLineTokens(p, end, st);
    PredToken(p.pred, st);
    var toks := LineTokens(PropertyLine(p, end), st).value + more;
    assert toks[3..] == more;
  }

  lemma BodyLinesStep(ps: seq<Property>)
    requires |ps| > 1
    ensures BodyLines(ps) == [PropertyLine(ps[0], ';')] + BodyLines(ps[1..])
  {
    hide PropertyLine;
  }

  lemma OneLine(l: Line, st: Style)
    ensures LinesTokens([l], st) == LineTokens(l, st)
  {
    hide LineTokens;
    assert [l][1..] == [];
    if LineTokens(l, st).Some? {
      assert LineTokens(l, st).value + [] == LineTokens(l, st).value;
    }
  }

  lemma FirstLine(l: Line, ls: seq<Line>, st: Style)
    ensures LinesTokens([l] + ls, st) == Append(LineTokens(l, st), LinesTokens(ls, st))
  {
    hide LineTokens;
    assert ([l] + ls)[1..] == ls;
  }

  lemma {:induction false} BodyParses(ps: seq<Property>, s: Node, st: Style, env: Scope, more: seq<Token>)
    requires ps != [] && GoodBody(ps) && ReadableBody(ps) && GoodEnv(env, st)
    ensures LinesTokens(BodyLines(ps), st).Some?
    ensures Properties(LinesTokens(BodyLines(ps), st).value + more, env, s)
         == Union(BodyTriples(s, ps, st, env), Statements(more, env))
  {
    hide GoodValue, ReadableValue, PropertyLine, LineTokens, LinesTokens, Properties, Statements, PropertyTriple;
    assert ps[0] in ps;
    var p := ps[0];
    if |ps| == 1 {
      PropertyParses(p, '.', s, st, env, more);
      OneLine(PropertyLine(p, '.'), st);
      assert BodyLines(ps) == [PropertyLine(p, '.')];
      assert BodyTriples(s, ps, st, env) == {PropertyTriple(s, p, st, env)};
    } else {
      var rest := ps[1..];
      BodyParses(rest, s, st, env, more);
      var toks := LinesTokens(BodyLines(rest), st).value;
      PropertyParses(p, ';', s, st, env, toks + more);
      BodyLinesStep(ps);
      FirstLine(PropertyLine(p, ';'), BodyLines(rest), st);
      var first := LineTokens(PropertyLine(p, ';'), st).value;
      assert first + toks + more == first + (toks + more);
      BodyTriplesStep(s, ps, st, env);
      AddedUnion(PropertyTriple(s, p, st, env), BodyTriples(s, rest, st, env), Statements(more, env));
    }
  }

  lemma BodyTriplesStep(s: Node, ps: seq<Property>, st: Style, env: Scope)
    requires ps != [] && GoodBody(ps) && "sj" in env.names && "dcterms" in env.names
    ensures BodyTriples(s, ps, st, env) == {PropertyTriple(s, ps[0], st, env)} + BodyTriples(s, ps[1..], st, env)
  {
    hide GoodValue, PropertyTriple;
    assert forall p :: p in ps <==> p == ps[0] || p in ps[1..];
  }

  lemma AddedUnion(t: Triple, g: set<Triple>, r: Option<set<Triple>>)
    ensures Added(t, Union(g, r)) == Union({t} + g, r)
  {
    if r.Some? {
      assert {t} + (g + r.value) == ({t} + g) + r.value;
    }
  }

  lemma SubjectTokens(b: Block, st: Style)
    requires WordToken(Local(b.local), st).Some?
    ensures LineTokens(Subject(b), st) == Some([WordToken(Local(b.local), st).value, KeywordA, Name("sj", b.cls), Semicolon])
  {
    hide SafeLocal, Readable;
    var ws := Subject(b).words;
    FourWords(ws, st);
  }

  lemma TermExpands(local: string, st: Style, env: Scope)
    requires Plain(local) && Readable(local) && GoodEnv(env, st)
    ensures WordToken(Local(local), st).Some? && !WordToken(Local(local), st).value.PrefixWord?
    ensures Expand(WordToken(Local(local), st).value, env) == Some(TermIri(local, st).name)
  {
    hide SafeLocal;
  }

  lemma SubjectParses(b: Block, st: Style, env: Scope, more: seq<Token>)
    requires GoodBlock(b) && GoodEnv(env, st)
    ensures LineTokens(Subject(b), st).Some?
    ensures Statements(LineTokens(Subject(b), st).value + more, env)
         == Added(TypeTriple(b, st, env), Properties(more, env, TermIri(b.local, st)))
  {
    hide Plain, Readable, PlainLocal, GoodBody, LocalText, LineTokens, Subject, WordToken;
    PlainLocalIs(b.local);
    TermExpands(b.local, st, env);
    SubjectTokens(b, st);
    var toks := LineTokens(Subject(b), st).value + more;
    assert toks[1..][3..] == more;
    var after := toks[1..];
    assert after[0] == KeywordA && after[1] == Name("sj", b.cls) && after[2] == Semicolon;
  }

  lemma BlockParses(b: Block, st: Style, env: Scope, more: seq<Token>)
    requires GoodBlock(b) && ReadableBody(b.body) && GoodEnv(env, st)
    ensures LinesTokens(BlockLines(b), st).Some?
    ensures Statements(LinesTokens(BlockLines(b), st).value + more, env)
         == Union(BlockTriples(b, st, env), Statements(more, env))
  {
    hide Plain, Readable, ReadableBody, GoodBody, LineTokens, LinesTokens, Subject, TypeTriple, Statements, Properties, BodyLines, BodyTriples;
    var s := TermIri(b.local, st);
    BodyParses(b.body, s, st, env, more);
    var toks := LinesTokens(BodyLines(b.body), st).value;
    SubjectParses(b, st, env, toks + more);
    var first := LineTokens(Subject(b), st).value;
    FirstLine(Subject(b), BodyLines(b.body) + [EMPTY], st);
    assert [Subject(b)] + (BodyLines(b.body) + [EMPTY]) == BlockLines(b);
    LinesTokensAppend(BodyLines(b.body), [EMPTY], st);
    OneJoined(st);
    assert toks + [] == toks;
    assert first + toks + more == first + (toks + more);
    AddedUnion(TypeTriple(b, st, env), BodyTriples(s, b.body, st, env), Statements(more, env));
  }

  lemma FirstBlock(b: Block, bs: seq<Block>)
    ensures BlocksLines([b] + bs) == BlockLines(b) + BlocksLines(bs)
  {
    hide BlockLines, BlocksLines;
    BlocksLinesAppend([b], bs);
    NoBlocks();
    OneBlock([], b);
    assert [] + [b] == [b] && [] + BlockLines(b) == BlockLines(b);
  }

  lemma {:induction false} BlocksParse(bs: seq<Block>, st: Style, env: Scope)
    requires GoodBlocks(bs) && ReadableBlocks(bs) && GoodEnv(env, st)
    ensures LinesTokens(BlocksLines(bs), st).Some?
    ensures Statements(LinesTokens(BlocksLines(bs), st).value, env) == Some(Graph(bs, st, env))
  {
    hide GoodBlock, ReadableBody, LinesTokens, BlockLines, BlocksLines, BlockTriples;
    if bs == [] {
      NoBlocks();
      NoLines(st);
    } else {
      assert bs[0] in bs;
      var rest := bs[1..];
      BlocksParse(rest, st, env);
      var more := LinesTokens(BlocksLines(rest), st).value;
      BlockParses(bs[0], st, env, more);
      FirstBlock(bs[0], rest);
      assert [bs[0]] + rest == bs;
      LinesTokensAppend(BlockLines(bs[0]), BlocksLines(rest), st);
    }
  }

  lemma NoLines(st: Style)
    ensures LinesTokens([], st) == Some([])
  {}

  lemma PrefixTokens(prefix: string, iri: string, st: Style)
    ensures LineTokens(PrefixLine(prefix, iri), st) == Some([PrefixWord, Name(prefix, ""), IriRef(iri), Dot])
  {
    FourWords(PrefixLine(prefix, iri).words, st);
  }

  lemma PrefixParses(prefix: string, iri: string, env: Scope, more: seq<Token>)
    ensures Statements([PrefixWord, Name(prefix, ""), IriRef(iri), Dot] + more, env) == Statements(more, Declared(env, prefix, iri))
  {
    var toks := [PrefixWord, Name(prefix, ""), IriRef(iri), Dot] + more;
    assert toks[4..] == more;
  }

  lemma PrefixesParse(st: Style, more: seq<Token>)
    ensures LinesTokens(Prefixes(st), st).Some?
    ensures Statements(LinesTokens(Prefixes(st), st).value + more, Scope(map[], st.base)) == Statements(more, Env(st))
  {
    hide LineTokens, LinesTokens, PrefixLine, Statements;
    var a, b, c := PrefixLine("dcterms", DCTERMS), PrefixLine("sj", SJ), PrefixLine(st.prefix, st.namespace);
    PrefixTokens("dcterms", DCTERMS, st);
    PrefixTokens("sj", SJ, st);
    PrefixTokens(st.prefix, st.namespace, st);
    assert Prefixes(st) == [a] + ([b] + ([c] + [EMPTY]));
    FirstLine(a, [b] + ([c] + [EMPTY]), st);
    FirstLine(b, [c] + [EMPTY], st);
    FirstLine(c, [EMPTY], st);
    OneJoined(st);
    var x, y, z := LineTokens(a, st).value, LineTokens(b, st).value, LineTokens(c, st).value;
    assert x + (y + (z + [])) + more == x + (y + (z + more));
    var none := Scope(map[], st.base);
    var one := Declared(none, "dcterms", DCTERMS);
    PrefixParses("dcterms", DCTERMS, none, y + (z + more));
    PrefixParses("sj", SJ, one, z + more);
    PrefixParses(st.prefix, st.namespace, Declared(one, "sj", SJ), more);
    assert map[]["dcterms" := st.base(DCTERMS)] == map["dcterms" := st.base(DCTERMS)];
  }

  lemma RemarksTokens(job: Job, count: nat)
    ensures LinesTokens(Remarks(job, count), job.style) == Some([])
  {
    hide Decimal;
    var r := Remarks(job, count);
    var st := job.style;
    OneJoined(st);
    assert r == [r[0]] + ([r[1]] + ([r[2]] + ([r[3]] + [EMPTY])));
    FirstLine(r[3], [EMPTY], st);
    FirstLine(r[2], [r[3]] + [EMPTY], st);
    FirstLine(r[1], [r[2]] + ([r[3]] + [EMPTY]), st);
    FirstLine(r[0], [r[1]] + ([r[2]] + ([r[3]] + [EMPTY])), st);
  }

  lemma HeaderParses(job: Job, count: nat, more: seq<Token>)
    ensures LinesTokens(Header(job, count), job.style).Some?
    ensures Statements(LinesTokens(Header(job, count), job.style).value + more, Scope(map[], job.style.base)) == Statements(more, Env(job.style))
  {
    hide LinesTokens, Remarks, Prefixes, Statements;
    RemarksTokens(job, count);
    PrefixesParse(job.style, more);
    LinesTokensAppend(Remarks(job, count), Prefixes(job.style), job.style);
    var toks := LinesTokens(Prefixes(job.style), job.style).value;
    assert [] + toks == toks;
  }

  lemma {:induction false} LostLine(ls: seq<Line>, l: Line, st: Style)
    requires l in ls && LineTokens(l, st).None?
    ensures LinesTokens(ls, st).None?
  {
    hide LineTokens;
    if l != ls[0] {
      LostLine(ls[1..], l, st);
    }
  }

  // ---------------------------------------------------------------- the whole document

  /** A name of letters, digits, `_` and `-` that starts with a letter. */
  predicate PlainLocal(s: string) {
    s != "" && Letter(s[0]) && forall c :: c in s ==> NameChar(c)
  }

  lemma PlainLocalIs(s: string)
    requires PlainLocal(s)
    ensures Plain(s) && Readable(s) && SafeLocal(s) && Chopped(s) == s
  {
    assert s[|s| - 1] in s;
  }

  lemma GateIsPlain(g: string)
    requires LocalName(g)
    ensures Plain(g)
  {}

  lemma SingleNameIsPlain(p: Single)
    ensures LocalText(SingleName(p))
  {}

  lemma ShortKeysArePlain()
    ensures LocalText("exclusion") && LocalText("postcondition") && LocalText("acceptance") && LocalText("falsifier")
  {}

  lemma LongKeysArePlain()
    ensures LocalText("consequenceClass") && LocalText("evidenceHorizon")
    ensures LocalText("requiresCapability") && LocalText("successorPolicy")
  {}

  lemma KeyNameIsPlain(h: HintKey)
    ensures LocalText(KeyName(h))
  {
    hide LocalText;
    ShortKeysArePlain();
    LongKeysArePlain();
  }

  lemma OtherNamesArePlain()
    ensures LocalText("requiredBy") && LocalText("description") && PrefixName("dcterms") && PrefixName("sj")
  {}

  lemma PredWordIsGood(q: Pred)
    ensures GoodWord(PredWord(q))
  {
    hide LocalText, PrefixName, SingleName, KeyName;
    OtherNamesArePlain();
    match q
    case TheSingle(p) => SingleNameIsPlain(p);
    case Hint(h) => KeyNameIsPlain(h);
    case _ =>
  }

  predicate OneLineText(s: string) {
    '\n' !in s && '\r' !in s
  }

  predicate GoodJob(job: Job) {
    && GoodStyle(job.style)
    && OneLineText(job.doc) && OneLineText(job.extractor) && OneLineText(job.source) && OneLineText(job.extract)
  }

  predicate Printable(c: Candidate) {
    PlainLocal(c.local) && LocalText(c.boundary) && forall g :: g in c.required ==> LocalName(g)
  }

  predicate AllPrintable(cs: seq<Candidate>) {
    forall c :: c in cs ==> Printable(c)
  }

  predicate ReadableGates(cs: seq<Candidate>) {
    forall c :: c in cs ==> forall g :: g in c.required ==> Readable(g)
  }

  lemma ChildNameIsPlain(local: string, h: HintKey, n: nat)
    requires PlainLocal(local)
    ensures PlainLocal(ChildName(local, h, n))
  {
    hide Decimal;
    KeyNameIsPlain(h);
    var key, digits := KeyName(h), Decimal(n);
    assert ChildName(local, h, n) == local + (("-" + key) + ("-" + digits));
  }

  lemma HintPropsAreGood(c: Candidate, keys: seq<HintKey>)
    requires PlainLocal(c.local)
    ensures GoodBody(HintProps(c, keys)) && ReadableBody(HintProps(c, keys))
  {
    hide GoodValue, ReadableValue, ChildName, PlainLocal;
    if keys != [] {
      var k := |keys| - 1;
      HintPropsAreGood(c, keys[..k]);
      var h, vs := keys[k], ValuesOf(c, keys[k]);
      forall i | 0 <= i < |vs|
        ensures GoodValue(HintProp(c.local, h, i + 1, vs[i]).value) && ReadableValue(HintProp(c.local, h, i + 1, vs[i]).value)
      {
        HintPropIsGood(c.local, h, i + 1, vs[i]);
      }
    }
  }

  lemma HintPropIsGood(local: string, h: HintKey, n: nat, value: string)
    requires PlainLocal(local)
    ensures GoodValue(HintProp(local, h, n, value).value) && ReadableValue(HintProp(local, h, n, value).value)
  {
    hide PlainLocal, Plain, Readable, ChildName;
    ChildNameIsPlain(local, h, n);
    PlainLocalIs(ChildName(local, h, n));
  }

  lemma BodyIsGood(c: Candidate, job: Job)
    requires Printable(c)
    ensures GoodBody(Body(c, job))
    ensures ReadableBody(Body(c, job)) <==> forall g :: g in c.required ==> Readable(g)
  {
    hide HintProps, PlainLocal, Plain, Readable, LocalName, LocalText;
    HintPropsAreGood(c, SORTED_KEYS);
    FixedIsGood(c, job);
    var gates := GateProps(c.required);
    forall i | 0 <= i < |gates| ensures GoodValue(gates[i].value) {
      GateIsPlain(c.required[i]);
    }
    assert forall i :: 0 <= i < |gates| ==> gates[i] in Body(c, job);
    if ReadableBody(Body(c, job)) {
      forall g | g in c.required ensures Readable(g) {
        var i :| 0 <= i < |gates| && c.required[i] == g;
        assert ReadableValue(gates[i].value);
      }
    }
  }

  lemma FixedIsGood(c: Candidate, job: Job)
    requires LocalText(c.boundary)
    ensures GoodBody(Fixed(c, job)) && ReadableBody(Fixed(c, job))
    ensures GoodBody(Closing(job)) && ReadableBody(Closing(job))
  {
    hide LocalText, GoodValue, ReadableValue;
    FixedValuesAreGood(c.boundary);
  }

  lemma FixedValuesAreGood(boundary: string)
    requires LocalText(boundary)
    ensures forall text :: GoodValue(Word.Quote(text)) && ReadableValue(Word.Quote(text))
    ensures forall n :: GoodValue(Number(n)) && ReadableValue(Number(n))
    ensures GoodValue(Named("sj", boundary)) && ReadableValue(Named("sj", boundary))
  {
    hide LocalText, PrefixName;
    OtherNamesArePlain();
  }

  lemma ChildrenAreGood(c: Candidate, keys: seq<HintKey>)
    requires PlainLocal(c.local)
    ensures GoodBlocks(Children(c, keys)) && ReadableBlocks(Children(c, keys))
  {
    hide GoodBlock, ReadableBody, Child, PlainLocal;
    if keys != [] {
      var k := |keys| - 1;
      ChildrenAreGood(c, keys[..k]);
      var h, vs := keys[k], ValuesOf(c, keys[k]);
      forall i | 0 <= i < |vs|
        ensures GoodBlock(Child(c.local, h, i + 1, vs[i])) && ReadableBody(Child(c.local, h, i + 1, vs[i]).body)
      {
        ChildIsGood(c.local, h, i + 1, vs[i]);
      }
    }
  }

  lemma ChildIsGood(local: string, h: HintKey, n: nat, value: string)
    requires PlainLocal(local)
    ensures GoodBlock(Child(local, h, n, value)) && ReadableBody(Child(local, h, n, value).body)
  {
    hide PlainLocal, Plain, Readable, ChildName;
    ChildNameIsPlain(local, h, n);
    PlainLocalIs(ChildName(local, h, n));
  }

  lemma CandidateBlocksAreGood(c: Candidate, job: Job)
    requires Printable(c)
    ensures GoodBlocks(CandidateBlocks(c, job))
    ensures ReadableBlocks(CandidateBlocks(c, job)) <==> forall g :: g in c.required ==> Readable(g)
  {
    hide PlainLocal, Plain, Readable, Body, Children, GoodBody, ReadableBody, LocalName;
    BodyIsGood(c, job);
    ChildrenAreGood(c, SORTED_KEYS);
    PlainLocalIs(c.local);
    BodyIsThere(c, job);
    assert CandidateBlocks(c, job)[0] == Block(c.local, "Proposition", Body(c, job));
    assert CandidateBlocks(c, job)[0] in CandidateBlocks(c, job);
  }

  lemma {:induction false} AllBlocksAreGood(cs: seq<Candidate>, job: Job)
    requires AllPrintable(cs)
    ensures GoodBlocks(AllBlocks(cs, job))
    ensures ReadableBlocks(AllBlocks(cs, job)) <==> ReadableGates(cs)
  {
    hide Printable, Readable, CandidateBlocks, GoodBlock, ReadableBody;
    if cs != [] {
      var k := |cs| - 1;
      AllBlocksAreGood(cs[..k], job);
      CandidateBlocksAreGood(cs[k], job);
      assert forall c :: c in cs <==> c in cs[..k] || c == cs[k];
      var a, b := AllBlocks(cs[..k], job), CandidateBlocks(cs[k], job);
      assert forall x :: x in AllBlocks(cs, job) <==> x in a || x in b;
    }
  }

  lemma BlockLinesAreGood(b: Block)
    requires GoodBlock(b)
    ensures GoodLines(BlockLines(b))
  {
    hide GoodWord, LocalText, Plain, Readable;
    SubjectIsGood(b);
    forall i | 0 <= i < |b.body| ensures GoodLine(BodyLines(b.body)[i]) {
      PropertyLineIsGood(b.body[i], if i == |b.body| - 1 then '.' else ';');
    }
  }

  lemma SubjectIsGood(b: Block)
    requires GoodBlock(b)
    ensures GoodLine(Subject(b))
  {
    hide Plain, LocalText, Readable, PlainLocal;
    PlainLocalIs(b.local);
  }

  lemma PropertyLineIsGood(p: Property, end: char)
    requires GoodValue(p.value) && (end == '.' || end == ';')
    ensures GoodLine(PropertyLine(p, end))
  {
    hide PredWord;
    PredWordIsGood(p.pred);
  }

  lemma {:induction false} BlocksLinesAreGood(bs: seq<Block>)
    requires GoodBlocks(bs)
    ensures GoodLines(BlocksLines(bs))
    ensures bs != [] ==> var ls := BlocksLines(bs); ls != [] && ls[|ls| - 1] == EMPTY
  {
    hide GoodBlock, GoodLine, BodyLines;
    if bs != [] {
      var k := |bs| - 1;
      assert bs[k] in bs;
      BlocksLinesAreGood(bs[..k]);
      BlockLinesAreGood(bs[k]);
    }
  }

  lemma HeaderIsGood(job: Job, count: nat)
    requires GoodJob(job)
    ensures GoodLines(Header(job, count)) && Header(job, count) != [] && Header(job, count)[|Header(job, count)| - 1] == EMPTY
  {
    hide GoodLine, PrefixLine, Remarks, GoodStyle, OneLineText;
    RemarksAreGood(job, count);
    PrefixesAreGood(job.style);
  }

  lemma PrefixesAreGood(st: Style)
    requires GoodStyle(st)
    ensures GoodLines(Prefixes(st))
  {
    hide GoodLine, PrefixLine, PrefixName, IriText;
    OtherNamesArePlain();
    IrisAreGood();
    EmptyIsGood();
    PrefixLineIsGood("dcterms", DCTERMS);
    PrefixLineIsGood("sj", SJ);
    PrefixLineIsGood(st.prefix, st.namespace);
  }

  lemma EmptyIsGood()
    ensures GoodLine(EMPTY)
  {}

  lemma IriJoins(a: string, b: string)
    requires IriText(a) && IriText(b)
    ensures IriText(a + b)
  {}

  lemma IrisAreGood()
    ensures IriText(DCTERMS) && IriText(SJ)
  {
    hide IriText;
    HostIsGood();
    PathIsGood();
    DctermsIsGood();
    IriJoins("https://ggen-igniter.dev", "/ontology/semantic-jira#");
  }

  lemma HostIsGood()
    ensures IriText("https://ggen-igniter.dev")
  {}

  lemma PathIsGood()
    ensures IriText("/ontology/semantic-jira#")
  {}

  lemma DctermsIsGood()
    ensures IriText(DCTERMS)
  {}

  lemma RemarksAreGood(job: Job, count: nat)
    requires GoodJob(job)
    ensures GoodLines(Remarks(job, count))
  {
    hide Decimal, GoodStyle, Concat;
    GeneratedIsGood();
    StandingIsGood();
    assert forall c :: c in Decimal(count) ==> IsDigit(c);
    assert OneLineText(" source: " + job.doc + " " + job.source);
    assert OneLineText(" extraction: " + job.extract + " (" + Decimal(count) + " candidates, extractedBy " + job.extractor + ")");
  }

  lemma {:induction false} ConcatIsGood(parts: seq<string>)
    requires forall i :: 0 <= i < |parts| ==> OneLineText(parts[i])
    ensures OneLineText(Concat(parts))
  {
    if parts != [] {
      ConcatIsGood(parts[1..]);
    }
  }

  lemma GeneratedIsGood()
    ensures OneLineText(Concat(GENERATED))
  {
    hide Concat;
    ConcatIsGood(GENERATED);
  }

  lemma StandingIsGood()
    ensures OneLineText(Concat(STANDING_REMARK))
  {
    hide Concat;
    ConcatIsGood(STANDING_REMARK);
  }

  lemma PrefixLineIsGood(prefix: string, iri: string)
    requires PrefixName(prefix) && IriText(iri)
    ensures GoodLine(PrefixLine(prefix, iri))
  {}

  lemma DocumentLinesAreGood(cs: seq<Candidate>, job: Job)
    requires GoodJob(job) && AllPrintable(cs)
    ensures GoodLines(Document(cs, job)) && Document(cs, job) != [] && Document(cs, job)[|Document(cs, job)| - 1] == EMPTY
  {
    hide GoodJob, AllPrintable, AllBlocks, BlocksLines, Header, GoodLine, GoodBlocks;
    AllBlocksAreGood(cs, job);
    HeaderIsGood(job, |cs|);
    BlocksLinesAreGood(AllBlocks(cs, job));
    NoBlocks();
    assert AllBlocks(cs, job) == [] ==> Document(cs, job) == Header(job, |cs|);
  }

  /** A gate that cannot be read back costs the whole document. */
  lemma LostGate(cs: seq<Candidate>, job: Job)
    requires GoodJob(job) && AllPrintable(cs) && !ReadableGates(cs)
    ensures LinesTokens(Document(cs, job), job.style).None?
  {
    hide GoodJob, AllPrintable, AllBlocks, BlocksLines, Header, GoodBlocks, ReadableGates, ReadableBody, LinesTokens, LineTokens;
    AllBlocksAreGood(cs, job);
    var bs := AllBlocks(cs, job);
    var b :| b in bs && !ReadableBody(b.body);
    var line := LostInBlock(b, job.style);
    BlockLinesIn(bs, b);
    LostLine(Document(cs, job), line, job.style);
  }

  lemma LostInBlock(b: Block, st: Style) returns (line: Line)
    requires !ReadableBody(b.body)
    ensures line in BlockLines(b) && LineTokens(line, st).None?
  {
    hide Readable, PropertyLine, LineTokens;
    var p :| p in b.body && !ReadableValue(p.value);
    var i :| 0 <= i < |b.body| && b.body[i] == p;
    line := BodyLines(b.body)[i];
    assert line in BodyLines(b.body);
    LostProperty(p, if i == |b.body| - 1 then '.' else ';', st);
  }

  lemma LostProperty(p: Property, end: char, st: Style)
    requires !ReadableValue(p.value)
    ensures LineTokens(PropertyLine(p, end), st).None?
  {
    hide SafeLocal;
    var ws := PropertyLine(p, end).words;
    WordTokensStep(ws, st);
    WordTokensStep(ws[1..], st);
    assert ws[1..][0] == p.value;
  }

  lemma {:induction false} BlockLinesIn(bs: seq<Block>, b: Block)
    requires b in bs
    ensures forall l :: l in BlockLines(b) ==> l in BlocksLines(bs)
  {
    hide BlockLines;
    var k := |bs| - 1;
    if b != bs[k] {
      BlockLinesIn(bs[..k], b);
    }
  }

  /** The written document reads back as the candidates' triples, unless a gate cannot be read back. */
  lemma DocumentReads(cs: seq<Candidate>, job: Job)
    requires GoodJob(job) && AllPrintable(cs)
    ensures GoodBlocks(AllBlocks(cs, job))
    ensures ReadTurtle(Joined(LineTexts(Document(cs, job), job.style)), job.style.base)
         == if ReadableGates(cs) then Some(Graph(AllBlocks(cs, job), job.style, Env(job.style))) else None
  {
    hide GoodJob, AllPrintable, AllBlocks, BlocksLines, Header, GoodBlocks, ReadableGates, ReadableBlocks, LinesTokens, GoodLines;
    hide Joined, LineTexts, Tokens, Statements, Graph;
    var st, bs := job.style, AllBlocks(cs, job);
    DocumentLinesAreGood(cs, job);
    AllBlocksAreGood(cs, job);
    StyleOf(job);
    LinesRead(Document(cs, job), st);
    if ReadableGates(cs) {
      BlocksParse(bs, st, Env(st));
      HeaderParses(job, |cs|, LinesTokens(BlocksLines(bs), st).value);
      LinesTokensAppend(Header(job, |cs|), BlocksLines(bs), st);
    } else {
      LostGate(cs, job);
    }
  }

  lemma StyleOf(job: Job)
    requires GoodJob(job)
    ensures GoodStyle(job.style) && GoodEnv(Env(job.style), job.style)
  {}

  /** A gate name that the patterns of the script let through and the grammar of Turtle does not. */
  lemma DottedNewlineIsUnreadable()
    ensures LocalName("A.B\n") && !Readable("A.B\n")
  {
    var g := "A.B\n";
    assert Chopped(g) == "A.B";
    assert '.' in "A.B" && !NameChar('.') by {
      assert "A.B"[1] == '.';
    }
  }

  /** A carriage return in the recorded path is let through by the check of the arguments, which looks for newlines, and
      ends the header's remark in the grammar of Turtle: what follows it is read as tokens. */
  lemma ReturnEndsRemark(before: string, after: string, rest: string)
    requires OneLineText(before)
    ensures !OneLineText(before + "\r" + after)
    ensures '\n' !in after ==> '\n' !in before + "\r" + after
    ensures Tokens("#" + before + "\r" + after + rest) == Tokens(after + rest)
  {
    hide Tokens;
    assert (before + "\r" + after)[|before|] == '\r';
    TokensAfterReturn(before, after + rest);
    assert "#" + before + "\r" + after + rest == "#" + before + "\r" + (after + rest);
  }
}
