/** Reading the part of RDF 1.1 Turtle that uses prefixed names, IRI references, quoted strings, integers and
    predicate lists, with white space between the tokens; any other document is not read.

    The last part shows that each kind of written word is read as the token it stands for. */
module TurtleReader {
  import opened Common
  import opened Text
  import opened Turtle

  const RDF_TYPE := "http://www.w3.org/1999/02/22-rdf-syntax-ns#type"
  const XSD_INTEGER := "http://www.w3.org/2001/XMLSchema#integer"
  const XSD_STRING := "http://www.w3.org/2001/XMLSchema#string"

  datatype Node = Iri(name: string) | BNode(name: string) | Literal(text: string, datatype_: string)

  datatype Triple = Triple(s: Node, p: string, o: Node)

  datatype Token =
    | Dot | Semicolon | KeywordA | PrefixWord
    | IriRef(iri: string) | Name(prefix: string, local: string) | QuotedText(text: string) | Integer(digits: string)

  predicate White(c: char) {
    c == ' ' || c == '\t' || c == '\r' || c == '\n'
  }

  predicate IriChar(c: char) {
    c > ' ' && c != '<' && c != '>' && c != '"' && c != '{' && c != '}' && c != '|' && c != '^' && c != '`' && c != '\\'
  }

  /** The text from the next token on; a comment runs to the end of its line. */
  function Skip(t: string, comment: bool): (r: string)
    ensures |r| <= |t|
  {
    if t == "" then ""
    else if comment then Skip(t[1..], t[0] != '\n' && t[0] != '\r')
    else if White(t[0]) || t[0] == '#' then Skip(t[1..], t[0] == '#')
    else t
  }

  predicate Delimited(t: string) {
    t == "" || White(t[0])
  }

  function Delimit(tok: Token, rest: string): Option<(Token, string)> {
    if Delimited(rest) then Some((tok, rest)) else None
  }

  predicate PrefixName(p: string) {
    p == "" || (Letter(p[0]) && forall c :: c in p ==> NameChar(c))
  }

  function ReadWord(t: string): (r: Option<(Token, string)>)
    ensures r.Some? ==> |r.value.1| < |t|
  {
    var n := Run(t, NameChar);
    if n < |t| && t[n] == ':' && PrefixName(t[..n]) then
      var m := n + 1 + Run(t[n + 1..], NameChar);
      if t[n + 1..m] != "" && t[n + 1] == '-' then None else Delimit(Name(t[..n], t[n + 1..m]), t[m..])
    else if t[..n] == "a" then Delimit(KeywordA, t[1..])
    else None
  }

  function ReadIri(t: string): (r: Option<(Token, string)>)
    requires t != ""
    ensures r.Some? ==> |r.value.1| < |t|
  {
    var n := 1 + Run(t[1..], IriChar);
    if n < |t| && t[n] == '>' then Delimit(IriRef(t[1..n]), t[n + 1..]) else None
  }

  function ReadQuote(t: string): (r: Option<(Token, string)>)
    ensures r.Some? ==> |r.value.1| < |t|
  {
    LiteralShrinks(t);
    match ReadLiteral(t)
    case None => None
    case Some((v, rest)) => Delimit(QuotedText(v), rest)
  }

  lemma LiteralShrinks(t: string)
    ensures ReadLiteral(t).Some? ==> |ReadLiteral(t).value.1| < |t|
  {
    if t != "" {
      BodyShrinks(t[1..]);
    }
  }

  lemma {:induction false} BodyShrinks(t: string)
    ensures ReadBody(t).Some? ==> |ReadBody(t).value.1| <= |t|
    decreases |t|
  {
    hide Escape;
    if t != "" && t[0] == '\\' && Escape(t[1..]).Some? {
      BodyShrinks(t[1 + Escape(t[1..]).value.1..]);
    } else if t != "" && t[0] != '"' {
      BodyShrinks(t[1..]);
    }
  }

  /** The token a text starts with, and the text after it. */
  function ReadToken(t: string): (r: Option<(Token, string)>)
    requires t != ""
    ensures r.Some? ==> |r.value.1| < |t|
  {
    if t[0] == '.' then Delimit(Dot, t[1..])
    else if t[0] == ';' then Delimit(Semicolon, t[1..])
    else if t[0] == '"' then ReadQuote(t)
    else if t[0] == '<' then ReadIri(t)
    else if t[0] == '@' then if "@prefix" <= t then Delimit(PrefixWord, t[7..]) else None
    else if IsDigit(t[0]) then
      var n := Run(t, IsDigit);
      Delimit(Integer(t[..n]), t[n..])
    else ReadWord(t)
  }

  function Cons(tok: Token, r: Option<seq<Token>>): Option<seq<Token>> {
    match r
    case None => None
    case Some(toks) => Some([tok] + toks)
  }

  function Tokens(t: string): Option<seq<Token>>
    decreases |t|
  {
    var u := Skip(t, false);
    if u == "" then Some([])
    else
      match ReadToken(u)
      case None => None
      case Some((tok, rest)) => Cons(tok, Tokens(rest))
  }

  // ---------------------------------------------------------------- statements

  /** What prefixes stand for, and what an IRI reference is resolved to. */
  datatype Scope = Scope(names: map<string, string>, base: string -> string)

  function Declared(env: Scope, prefix: string, iri: string): Scope {
    env.(names := env.names[prefix := env.base(iri)])
  }

  /** A scheme and a colon (section 3.1 of RFC 3986). */
  predicate HasScheme(iri: string) {
    exists k :: 0 < k < |iri| && SchemeEnds(iri, k)
  }

  predicate SchemeEnds(iri: string, k: int)
    requires 0 < k < |iri|
  {
    iri[k] == ':' && Letter(iri[0])
    && forall i :: 0 <= i < k ==> Letter(iri[i]) || IsDigit(iri[i]) || iri[i] == '+' || iri[i] == '-' || iri[i] == '.'
  }

  /** A colon before the first of `/`, `?` and `#` ends a scheme. */
  predicate IsReference(iri: string) {
    HasScheme(iri) || forall k :: 0 <= k < |iri| && iri[k] == ':' ==> exists i :: 0 <= i < k && iri[i] in "/?#"
  }

  /** Resolving references as section 5.2 of RFC 3986 does: an IRI with a scheme stays, any other reference gets one. */
  ghost predicate Resolves(base: string -> string) {
    forall iri :: IsReference(iri) ==> HasScheme(base(iri)) && (HasScheme(iri) ==> base(iri) == iri)
  }

  /** A resolver of that kind: what has no scheme is taken to be a file. */
  function FileBase(iri: string): string {
    if HasScheme(iri) then iri else "file:///" + iri
  }

  lemma FileBaseResolves()
    ensures Resolves(FileBase)
  {
    forall iri | !HasScheme(iri) ensures HasScheme("file:///" + iri) {
      assert SchemeEnds("file:///" + iri, 4);
    }
  }

  /** Namespaces without a scheme, the empty one among them, are references that a resolver changes. */
  lemma SomeAreRelative()
    ensures IsReference("x") && !HasScheme("x") && IsReference("") && !HasScheme("")
  {}

  function Expand(tok: Token, env: Scope): Option<string> {
    match tok
    case IriRef(iri) => Some(env.base(iri))
    case Name(p, l) => if p in env.names then Some(env.names[p] + l) else None
    case _ => None
  }

  function VerbOf(tok: Token, env: Scope): Option<string> {
    if tok.KeywordA? then Some(RDF_TYPE) else Expand(tok, env)
  }

  function ObjectOf(tok: Token, env: Scope): Option<Node> {
    match tok
    case QuotedText(v) => Some(Literal(v, XSD_STRING))
    case Integer(ds) => Some(Literal(ds, XSD_INTEGER))
    case _ =>
      match Expand(tok, env)
      case None => None
      case Some(i) => Some(Iri(i))
  }

  function Added(t: Triple, r: Option<set<Triple>>): Option<set<Triple>> {
    match r
    case None => None
    case Some(g) => Some({t} + g)
  }

  function Statements(toks: seq<Token>, env: Scope): Option<set<Triple>>
    decreases |toks|
  {
    if toks == [] then Some({})
    else if toks[0].PrefixWord? then
      if |toks| >= 4 && toks[1].Name? && toks[1].local == "" && toks[2].IriRef? && toks[3].Dot? then
        Statements(toks[4..], Declared(env, toks[1].prefix, toks[2].iri))
      else None
    else
      match Expand(toks[0], env)
      case None => None
      case Some(s) => Properties(toks[1..], env, Iri(s))
  }

  function Properties(toks: seq<Token>, env: Scope, s: Node): Option<set<Triple>>
    decreases |toks|
  {
    if |toks| < 3 then None
    else
      match (VerbOf(toks[0], env), ObjectOf(toks[1], env))
      case (Some(p), Some(o)) =>
        if toks[2].Semicolon? then Added(Triple(s, p, o), Properties(toks[3..], env, s))
        else if toks[2].Dot? then Added(Triple(s, p, o), Statements(toks[3..], env))
        else None
      case _ => None
  }

  /** The triples of a document; None when it cannot be read. */
  function ReadTurtle(text: string, base: string -> string): Option<set<Triple>> {
    match Tokens(text)
    case None => None
    case Some(toks) => Statements(toks, Scope(map[], base))
  }

  // ---------------------------------------------------------------- reading what is written

  /** Reading a word that is followed by white space. */
  ghost predicate Reads(w: string, tok: Option<Token>, rest: string) {
    w != "" && !White(w[0]) && w[0] != '#' && Delimited(rest)
    && ReadToken(w + rest) == match tok case None => None case Some(k) => Some((k, rest))
  }

  lemma TokensAfter(w: string, tok: Option<Token>, rest: string)
    requires Reads(w, tok, rest)
    ensures Tokens(w + rest) == match tok case None => None case Some(k) => Cons(k, Tokens(rest))
  {
    hide ReadToken;
    assert Skip(w + rest, false) == w + rest;
  }

  lemma TokensAfterWhite(c: char, rest: string)
    requires White(c)
    ensures Tokens([c] + rest) == Tokens(rest)
  {
    hide ReadToken;
    assert ([c] + rest)[1..] == rest;
    assert Skip([c] + rest, false) == Skip(rest, false);
  }

  /** A comment runs to the first newline or carriage return. */
  lemma {:induction false} CommentSkipped(body: string, end: char, rest: string)
    requires '\n' !in body && '\r' !in body && (end == '\n' || end == '\r')
    ensures Skip(body + [end] + rest, true) == Skip(rest, false)
  {
    var t := body + [end] + rest;
    if body == "" {
      assert t[1..] == rest;
    } else {
      assert t[1..] == body[1..] + [end] + rest;
      CommentSkipped(body[1..], end, rest);
    }
  }

  lemma TokensAfterComment(body: string, rest: string)
    requires '\n' !in body && '\r' !in body
    ensures Tokens("#" + body + "\n" + rest) == Tokens(rest)
  {
    hide ReadToken;
    var t := "#" + body + "\n" + rest;
    assert t[1..] == body + "\n" + rest;
    CommentSkipped(body, '\n', rest);
    assert Skip(t, false) == Skip(rest, false);
  }

  lemma TokensAfterReturn(body: string, rest: string)
    requires '\n' !in body && '\r' !in body
    ensures Tokens("#" + body + "\r" + rest) == Tokens(rest)
  {
    hide ReadToken;
    var t := "#" + body + "\r" + rest;
    assert t[1..] == body + "\r" + rest;
    CommentSkipped(body, '\r', rest);
    assert Skip(t, false) == Skip(rest, false);
  }

  lemma RunOver(word: string, rest: string, p: char -> bool)
    requires forall c :: c in word ==> p(c)
    requires rest == "" || !p(rest[0])
    ensures Run(word + rest, p) == |word|
  {
    RunIs(word + rest, p, |word|);
  }

  lemma ReadsMark(c: char, rest: string)
    requires (c == '.' || c == ';') && Delimited(rest)
    ensures Reads([c], Some(if c == '.' then Dot else Semicolon), rest)
  {
    assert ([c] + rest)[1..] == rest;
  }

  lemma ReadsPrefixWord(rest: string)
    requires Delimited(rest)
    ensures Reads("@prefix", Some(PrefixWord), rest)
  {
    assert ("@prefix" + rest)[7..] == rest;
  }

  lemma ReadsA(rest: string)
    requires Delimited(rest)
    ensures Reads("a", Some(KeywordA), rest)
  {
    hide Run;
    RunOver("a", rest, NameChar);
    assert ("a" + rest)[1..] == rest && ("a" + rest)[..1] == "a";
  }

  lemma ReadsText(v: string, rest: string)
    requires Delimited(rest)
    ensures Reads(Quoted(v), Some(QuotedText(v)), rest)
  {
    hide ReadLiteral, EscapedText;
    LiteralRoundTrip(v, rest);
  }

  lemma ReadsNumber(digits: string, rest: string)
    requires Delimited(rest) && digits != "" && forall c :: c in digits ==> IsDigit(c)
    ensures Reads(digits, Some(Integer(digits)), rest)
  {
    hide Run;
    RunOver(digits, rest, IsDigit);
    var t := digits + rest;
    assert digits[0] in digits && t[0] == digits[0];
    assert t[..|digits|] == digits && t[|digits|..] == rest;
  }

  predicate IriText(iri: string) {
    forall c :: c in iri ==> IriChar(c)
  }

  lemma ReadsIri(iri: string, rest: string)
    requires Delimited(rest) && IriText(iri)
    ensures Reads("<" + iri + ">", Some(IriRef(iri)), rest)
  {
    hide Run;
    var t := "<" + iri + ">" + rest;
    assert t[1..] == iri + (">" + rest);
    RunOver(iri, ">" + rest, IriChar);
    var n := 1 + |iri|;
    assert t[1..n] == iri && t[n + 1..] == rest;
  }

  /** An IRI reference that runs into white space is not read. */
  lemma RefusesIri(iri: string, more: string, rest: string)
    requires Delimited(rest) && IriText(iri) && more != "" && White(more[0])
    ensures Reads("<" + iri + more + ">", None, rest)
  {
    hide Run;
    var t := "<" + iri + more + ">" + rest;
    assert t[1..] == iri + (more + ">" + rest);
    RunOver(iri, more + ">" + rest, IriChar);
    assert t[1 + |iri|] == more[0];
  }

  predicate LocalText(local: string) {
    (local != "" ==> local[0] != '-') && forall c :: c in local ==> NameChar(c)
  }

  lemma NameIsWord(prefix: string, more: string)
    requires PrefixName(prefix)
    ensures ReadToken(prefix + ":" + more) == ReadWord(prefix + ":" + more)
  {
    hide ReadWord;
    var t := prefix + ":" + more;
    if prefix == "" {
      assert t[0] == ':';
    } else {
      assert t[0] == prefix[0] && Letter(t[0]);
    }
  }

  /** Where a name's parts stand. */
  lemma NameCuts(prefix: string, local: string, rest: string)
    ensures var t := prefix + ":" + (local + rest);
      var n, m := |prefix|, |prefix| + 1 + |local|;
      && n < m <= |t| && t[n] == ':' && t[..n] == prefix && t[n + 1..] == local + rest
      && t[n + 1..m] == local && t[m..] == rest && t == prefix + (":" + (local + rest))
      && (local != "" ==> t[n + 1] == local[0])
  {}

  lemma NameRuns(prefix: string, local: string, rest: string)
    requires Delimited(rest) && PrefixName(prefix) && LocalText(local)
    ensures Run(prefix + (":" + (local + rest)), NameChar) == |prefix| && Run(local + rest, NameChar) == |local|
  {
    hide Run, NameChar, PrefixName, White;
    PrefixChars(prefix);
    NameStops(rest);
    RunOver(prefix, ":" + (local + rest), NameChar);
    RunOver(local, rest, NameChar);
  }

  lemma WordIsName(prefix: string, local: string, rest: string)
    requires Delimited(rest) && PrefixName(prefix) && LocalText(local)
    ensures ReadWord(prefix + ":" + (local + rest)) == Some((Name(prefix, local), rest))
  {
    hide Run, PrefixName, NameChar, Delimited;
    NameCuts(prefix, local, rest);
    NameRuns(prefix, local, rest);
  }

  lemma NameStops(rest: string)
    requires Delimited(rest)
    ensures !NameChar(':') && (rest == "" || !NameChar(rest[0]))
  {}

  lemma PrefixChars(prefix: string)
    requires PrefixName(prefix)
    ensures forall c :: c in prefix ==> NameChar(c)
  {}

  lemma ReadsName(prefix: string, local: string, rest: string)
    requires Delimited(rest) && PrefixName(prefix) && LocalText(local)
    ensures Reads(prefix + ":" + local, Some(Name(prefix, local)), rest)
  {
    hide ReadWord, ReadToken, LocalText;
    NameIsWord(prefix, local + rest);
    WordIsName(prefix, local, rest);
    var w := prefix + ":" + local;
    assert w + rest == prefix + ":" + (local + rest);
    assert prefix != "" ==> w[0] == prefix[0] && Letter(w[0]);
  }
}
