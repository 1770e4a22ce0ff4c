/** What the scanner makes of a style written from tokens: strings, unquoted urls, parentheses and other characters.

    Tokens are read as themselves and in order, so a style is cut at the semicolons outside of strings, urls and
    parentheses, and nowhere else. */
module CssText {
  import opened Text
  import opened Css

  // ---------------------------------------------------------------- tokens

  /** A character of a string or url, alone or behind a backslash. */
  datatype Bit = Plain(c: char) | Escaped(c: char)

  datatype Token =
    | Glyph(c: char) | Opening | Closing | QuotedText(mark: char, body: seq<Bit>)
    | UrlText(head: string, blanks: string, body: seq<Bit>)

  function BitText(b: Bit): string {
    match b
    case Plain(c) => [c]
    case Escaped(c) => ['\\', c]
  }

  function BitsText(bs: seq<Bit>): string {
    if bs == [] then "" else BitText(bs[0]) + BitsText(bs[1..])
  }

  function TokenText(t: Token): string {
    match t
    case Glyph(c) => [c]
    case Opening => "("
    case Closing => ")"
    case QuotedText(mark, body) => [mark] + (BitsText(body) + [mark])
    case UrlText(head, blanks, body) => head + ("(" + (blanks + (BitsText(body) + ")")))
  }

  function Written(ts: seq<Token>): string {
    if ts == [] then "" else TokenText(ts[0]) + Written(ts[1..])
  }

  /** The mark and the backslash do not stand alone. */
  predicate Free(bs: seq<Bit>, mark: char) {
    bs == [] || ((bs[0].Plain? ==> bs[0].c != mark && bs[0].c != '\\') && Free(bs[1..], mark))
  }

  predicate SpellsUrl(head: string) {
    |head| == 3 && head[0] in "uU" && head[1] in "rR" && head[2] in "lL"
  }

  predicate QuoteAfterBlanks(s: string, k: int) {
    4 <= k < |s| && IsQuote(s[k]) && AllSpace(s[4..k])
  }

  /** The text starts with `url(`, and no string comes next. */
  ghost predicate StartsUrl(s: string) {
    |s| >= 4 && SpellsUrl(s[..3]) && s[3] == '(' && !exists k :: QuoteAfterBlanks(s, k)
  }

  predicate UrlBody(bs: seq<Bit>) {
    Free(bs, ')') && (bs != [] && bs[0].Plain? ==> !IsSpace(bs[0].c) && !IsQuote(bs[0].c))
  }

  /** Before this rest, the token is what it is and no part of another. */
  ghost predicate Fits(t: Token, rest: string, ident: bool) {
    match t
    case Glyph(c) =>
      && !IsQuote(c) && c != '(' && c != ')' && (ident || !StartsUrl([c] + rest))
      && !(c == '/' && rest != "" && rest[0] == '*')
    case QuotedText(mark, body) => IsQuote(mark) && Free(body, mark)
    case UrlText(head, blanks, body) => !ident && SpellsUrl(head) && AllSpace(blanks) && UrlBody(body)
    case _ => true
  }

  function IdentAfter(t: Token): bool {
    t.Glyph? && IdentChar(t.c)
  }

  function DepthAfter(t: Token, depth: nat): nat {
    if t.Opening? then depth + 1 else if t.Closing? && depth > 0 then depth - 1 else depth
  }

  ghost predicate Placed(ts: seq<Token>, rest: string, ident: bool) {
    ts == [] || (Fits(ts[0], Written(ts[1..]) + rest, ident) && Placed(ts[1..], rest, IdentAfter(ts[0])))
  }

  /** Every semicolon stands inside parentheses. */
  predicate Uncut(ts: seq<Token>, depth: nat) {
    ts == [] || ((ts[0] == Glyph(';') ==> depth > 0) && Uncut(ts[1..], DepthAfter(ts[0], depth)))
  }

  function Depth(ts: seq<Token>, depth: nat): nat {
    if ts == [] then depth else Depth(ts[1..], DepthAfter(ts[0], depth))
  }

  function IdentEnd(ts: seq<Token>, ident: bool): bool {
    if ts == [] then ident else IdentEnd(ts[1..], IdentAfter(ts[0]))
  }

  // ---------------------------------------------------------------- urls

  lemma LowerIff(c: char)
    ensures Lower(c) == 'u' <==> c in "uU"
    ensures Lower(c) == 'r' <==> c in "rR"
    ensures Lower(c) == 'l' <==> c in "lL"
    ensures Lower(c) == '(' <==> c == '('
  {}

  lemma UrlHeadIff(s: string)
    ensures UrlHead(s) <==> |s| >= 4 && SpellsUrl(s[..3]) && s[3] == '('
  {
    hide Lower;
    if |s| >= 4 {
      var l := LowerAll(s[..4]);
      LowerIff(s[0]);
      LowerIff(s[1]);
      LowerIff(s[2]);
      LowerIff(s[3]);
      assert l == "url(" <==> l[0] == 'u' && l[1] == 'r' && l[2] == 'l' && l[3] == '(';
    }
  }

  lemma QuoteNext(s: string)
    requires |s| >= 4
    ensures var w := 4 + SpaceLen(s[4..]); (w < |s| && IsQuote(s[w])) <==> exists k :: QuoteAfterBlanks(s, k)
  {
    hide IsSpace;
    var w := 4 + SpaceLen(s[4..]);
    assert forall i :: 4 <= i < w ==> s[i] == s[4..][i - 4];
    assert AllSpace(s[4..w]);
    assert w < |s| ==> s[w] == s[4..][w - 4];
    if w < |s| && IsQuote(s[w]) {
      assert QuoteAfterBlanks(s, w);
    }
    if k :| QuoteAfterBlanks(s, k) {
      QuotesAreVisible(s[k]);
      assert forall i :: 4 <= i < k ==> s[i] == s[4..k][i - 4] && s[4..k][i - 4] in s[4..k];
      assert k == w;
    }
  }

  lemma QuotesAreVisible(c: char)
    requires IsQuote(c)
    ensures !IsSpace(c)
  {}

  lemma StartsUrlIff(s: string, ident: bool)
    ensures UrlLen(s, ident) > 0 <==> !ident && StartsUrl(s)
  {
    hide UrlHead, SpellsUrl, SpaceLen, BodyLen, QuoteAfterBlanks;
    UrlHeadIff(s);
    if UrlHead(s) {
      QuoteNext(s);
    }
  }

  lemma {:induction false} BodyEnds(bs: seq<Bit>, z: string)
    requires Free(bs, ')')
    ensures var s := BitsText(bs) + (")" + z);
      BodyLen(s) == |BitsText(bs)| + 1 && BodyClosed(s)
  {
    var s := BitsText(bs) + (")" + z);
    if bs != [] {
      var more := BitsText(bs[1..]) + (")" + z);
      BodyEnds(bs[1..], z);
      assert s == BitText(bs[0]) + more;
      assert s[|BitText(bs[0])|..] == more;
    }
  }

  lemma {:induction false} BodyRuns(bs: seq<Bit>)
    requires Free(bs, ')')
    ensures !BodyClosed(BitsText(bs))
  {
    if bs != [] {
      BodyRuns(bs[1..]);
      assert BitsText(bs)[|BitText(bs[0])|..] == BitsText(bs[1..]);
    }
  }

  /** Where the parts of a url stand. */
  lemma UrlParts(head: string, blanks: string, rest: string)
    requires SpellsUrl(head) && AllSpace(blanks) && (rest == "" || (!IsSpace(rest[0]) && !IsQuote(rest[0])))
    ensures var s := head + ("(" + (blanks + rest));
      && SpaceLen(s[4..]) == |blanks| && s[4 + |blanks|..] == rest
      && UrlLen(s, false) == 4 + |blanks| + BodyLen(rest) && (UrlClosed(s) <==> BodyClosed(rest))
  {
    hide IsSpace, BodyLen, BodyClosed;
    var s := head + ("(" + (blanks + rest));
    assert s[..3] == head && s[4..] == blanks + rest && s[3] == '(';
    UrlHeadIff(s);
    forall i | 0 <= i < |blanks| ensures IsSpace((blanks + rest)[i]) {
      assert blanks[i] in blanks;
    }
    SpaceLenIs(blanks + rest, |blanks|);
    assert s[4 + |blanks|..] == rest;
    assert rest != "" ==> s[4 + |blanks|] == rest[0];
  }

  lemma BodyStarts(bs: seq<Bit>, z: string)
    requires UrlBody(bs)
    ensures var s := BitsText(bs) + (")" + z); !IsSpace(s[0]) && !IsQuote(s[0])
    ensures var s := BitsText(bs); s == "" || (!IsSpace(s[0]) && !IsQuote(s[0]))
  {}

  // ---------------------------------------------------------------- reading on

  lemma QuotedStep(b: Bit, mark: char, z: string, ident: bool, q: Quote, depth: nat)
    requires !q.NoQuote? && q.Mark() == mark && (b.Plain? ==> b.c != mark && b.c != '\\')
    ensures exists i :: EndOf(BitText(b) + z, ident, q, depth) == EndOf(z, i, q, depth)
  {
    hide EndOf, IdentChar;
    var s := BitText(b) + z;
    EndStep(s, ident, q, depth);
    assert s[|BitText(b)|..] == z;
    assert Next(s, ident, q, depth) == Step(|BitText(b)|, q, depth);
  }

  lemma {:induction false} QuotedReads(bs: seq<Bit>, mark: char, z: string, ident: bool, q: Quote, depth: nat)
    requires !q.NoQuote? && q.Mark() == mark && Free(bs, mark)
    ensures EndOf(BitsText(bs) + ([mark] + z), ident, q, depth) == EndOf(z, false, NoQuote, depth)
    ensures EndOf(BitsText(bs), ident, q, depth) == Open
  {
    hide EndOf;
    if bs == [] {
      var s := [mark] + z;
      assert BitsText(bs) + s == s && s[1..] == z;
      EndStep(s, ident, q, depth);
      QuotedEnd(q, depth);
    } else {
      var more := BitsText(bs[1..]) + ([mark] + z);
      assert BitsText(bs) + ([mark] + z) == BitText(bs[0]) + more;
      QuotedStep(bs[0], mark, more, ident, q, depth);
      var i :| EndOf(BitText(bs[0]) + more, ident, q, depth) == EndOf(more, i, q, depth);
      QuotedReads(bs[1..], mark, z, i, q, depth);
      QuotedStep(bs[0], mark, BitsText(bs[1..]), ident, q, depth);
      var j :| EndOf(BitText(bs[0]) + BitsText(bs[1..]), ident, q, depth) == EndOf(BitsText(bs[1..]), j, q, depth);
      QuotedReads(bs[1..], mark, z, j, q, depth);
    }
  }

  lemma GlyphReads(c: char, z: string, ident: bool, depth: nat)
    requires Fits(Glyph(c), z, ident) && (c == ';' ==> depth > 0)
    ensures EndOf([c] + z, ident, NoQuote, depth) == EndOf(z, IdentChar(c), NoQuote, depth)
  {
    hide EndOf, StartsUrl, UrlLen, UrlClosed, IdentChar;
    var s := [c] + z;
    StartsUrlIff(s, ident);
    assert s[1..] == z && (z != "" ==> s[1] == z[0]);
    EndStep(s, ident, NoQuote, depth);
  }

  lemma ParenReads(t: Token, z: string, ident: bool, depth: nat)
    requires t.Opening? || t.Closing?
    ensures EndOf(TokenText(t) + z, ident, NoQuote, depth) == EndOf(z, false, NoQuote, DepthAfter(t, depth))
  {
    hide EndOf, UrlLen, UrlClosed;
    var s := TokenText(t) + z;
    assert s[1..] == z;
    assert UrlLen(s, ident) == 0;
    EndStep(s, ident, NoQuote, depth);
  }

  lemma UrlReads(t: Token, z: string, depth: nat)
    requires t.UrlText? && Fits(t, z, false)
    ensures EndOf(TokenText(t) + z, false, NoQuote, depth) == EndOf(z, false, NoQuote, depth)
  {
    hide EndOf, UrlLen, UrlClosed, SpaceLen, BodyLen, BodyClosed, IsSpace, BitsText, Free, UrlBody, SpellsUrl;
    var rest := BitsText(t.body) + (")" + z);
    var s := TokenText(t) + z;
    UrlRegroup(t.head, t.blanks, BitsText(t.body), z);
    assert Free(t.body, ')') by { BodyIsFree(t.body); }
    BodyEnds(t.body, z);
    BodyStarts(t.body, z);
    UrlParts(t.head, t.blanks, rest);
    UrlGoesOn(s, z, |TokenText(t)|, depth);
  }

  lemma BodyIsFree(bs: seq<Bit>)
    requires UrlBody(bs)
    ensures Free(bs, ')')
  {}

  lemma UrlRegroup(head: string, blanks: string, body: string, z: string)
    requires SpellsUrl(head)
    ensures var t := head + ("(" + (blanks + (body + ")")));
      var s := t + z;
      && s == head + ("(" + (blanks + (body + (")" + z)))) && |t| == 5 + |blanks| + |body|
      && s[|t|..] == z && s[|t| - 1] == ')'
  {}

  lemma UrlGoesOn(s: string, z: string, n: nat, depth: nat)
    requires 0 < n <= |s| && UrlLen(s, false) == n && UrlClosed(s) && s[n..] == z && s[n - 1] == ')'
    ensures EndOf(s, false, NoQuote, depth) == EndOf(z, false, NoQuote, depth)
  {
    hide EndOf, UrlLen, UrlClosed;
    EndStep(s, false, NoQuote, depth);
  }

  /** The scanner reads a token as itself, and goes on behind it. */
  lemma TokenReads(t: Token, z: string, ident: bool, depth: nat)
    requires Fits(t, z, ident) && (t == Glyph(';') ==> depth > 0)
    ensures EndOf(TokenText(t) + z, ident, NoQuote, depth) == EndOf(z, IdentAfter(t), NoQuote, DepthAfter(t, depth))
  {
    hide EndOf, StartsUrl, UrlLen, UrlClosed, IdentChar, Free, SpellsUrl;
    match t
    case Glyph(c) => GlyphReads(c, z, ident, depth);
    case Opening => ParenReads(t, z, ident, depth);
    case Closing => ParenReads(t, z, ident, depth);
    case UrlText(_, _, _) => UrlReads(t, z, depth);
    case QuotedText(mark, body) =>
      var s := TokenText(t) + z;
      var q := Opened(mark);
      assert s[1..] == BitsText(body) + ([mark] + z);
      assert UrlLen(s, ident) == 0;
      EndStep(s, ident, NoQuote, depth);
      QuotedReads(body, mark, z, IdentChar(mark), q, depth);
  }

  lemma {:induction false} ReadOn(ts: seq<Token>, rest: string, ident: bool, depth: nat)
    requires Placed(ts, rest, ident) && Uncut(ts, depth)
    ensures EndOf(Written(ts) + rest, ident, NoQuote, depth) == EndOf(rest, IdentEnd(ts, ident), NoQuote, Depth(ts, depth))
  {
    hide EndOf, Fits, TokenText, IdentAfter, DepthAfter;
    if ts == [] {
      assert Written(ts) + rest == rest;
    } else {
      var z := Written(ts[1..]) + rest;
      assert Written(ts) + rest == TokenText(ts[0]) + z;
      TokenReads(ts[0], z, ident, depth);
      ReadOn(ts[1..], rest, IdentAfter(ts[0]), DepthAfter(ts[0], depth));
    }
  }

  // ---------------------------------------------------------------- how a text ends

  /** Tokens without a cut: the text is whole if its parentheses are closed. */
  lemma WrittenEnds(ts: seq<Token>)
    requires Placed(ts, "", false) && Uncut(ts, 0)
    ensures Top(Written(ts)) == if Depth(ts, 0) == 0 then Whole else Open
  {
    hide Placed, Uncut, Written, Depth, IdentEnd;
    ReadOn(ts, "", false, 0);
    assert Written(ts) + "" == Written(ts);
  }

  /** A semicolon outside parentheses and a comment break it. */
  lemma WrittenBreaks(ts: seq<Token>, rest: string)
    requires Placed(ts, rest, false) && Uncut(ts, 0)
    requires (Depth(ts, 0) == 0 && rest != "" && rest[0] == ';') || "/*" <= rest
    ensures Top(Written(ts) + rest) == Broken
  {
    hide Placed, Uncut, Written, Depth, IdentEnd;
    ReadOn(ts, rest, false, 0);
  }

  /** A string or url that is not closed leaves it open. */
  lemma WrittenOpens(ts: seq<Token>, t: Token)
    requires Placed(ts, Unclosed(t), false) && Uncut(ts, 0) && Fits(t, "", IdentEnd(ts, false)) && (t.QuotedText? || t.UrlText?)
    ensures Top(Written(ts) + Unclosed(t)) == Open
  {
    hide Placed, Uncut, Written, Depth, IdentEnd;
    ReadOn(ts, Unclosed(t), false, 0);
    UnclosedOpens(t, IdentEnd(ts, false), Depth(ts, 0));
  }

  /** The token without its closing mark. */
  function Unclosed(t: Token): string {
    match t
    case QuotedText(mark, body) => [mark] + BitsText(body)
    case UrlText(head, blanks, body) => head + ("(" + (blanks + BitsText(body)))
    case _ => TokenText(t)
  }

  lemma UnclosedOpens(t: Token, ident: bool, depth: nat)
    requires Fits(t, "", ident) && (t.QuotedText? || t.UrlText?)
    ensures EndOf(Unclosed(t), ident, NoQuote, depth) == Open
  {
    hide EndOf, UrlLen, UrlClosed, SpaceLen, BodyLen, BodyClosed, IsSpace, IdentChar;
    var s := Unclosed(t);
    match t
    case QuotedText(mark, body) =>
      assert s[1..] == BitsText(body) && UrlLen(s, ident) == 0;
      EndStep(s, ident, NoQuote, depth);
      QuotedReads(body, mark, "", IdentChar(mark), Opened(mark), depth);
    case UrlText(head, blanks, body) =>
      BodyRuns(body);
      BodyStarts(body, "");
      UrlParts(head, blanks, BitsText(body));
      assert s[0] == head[0];
      EndStep(s, ident, NoQuote, depth);
  }

  // ---------------------------------------------------------------- declarations

  ghost predicate Declaration(d: string) {
    exists ts :: d == Written(ts) && Placed(ts, "", false) && Uncut(ts, 0) && Depth(ts, 0) == 0
  }

  lemma {:induction false} DeclarationsAreCut(ds: seq<string>)
    requires ds != [] && forall i :: 0 <= i < |ds| ==> Declaration(ds[i])
    ensures WellCut(ds)
  {
    hide Top, Declaration;
    assert Declaration(ds[0]);
    DeclarationIsWhole(ds[0]);
    if |ds| > 1 {
      DeclarationsAreCut(ds[1..]);
    }
  }

  lemma DeclarationIsWhole(d: string)
    requires Declaration(d)
    ensures Top(d) == Whole
  {
    var ts :| d == Written(ts) && Placed(ts, "", false) && Uncut(ts, 0) && Depth(ts, 0) == 0;
    WrittenEnds(ts);
  }

  /** A style of declarations written from tokens is cut into just these, whatever strings, urls and parentheses they
      hold, and each that is visible comes out trimmed and marked. */
  lemma StyleIsRead(ds: seq<string>)
    requires ds != [] && forall i :: 0 <= i < |ds| ==> Declaration(ds[i])
    ensures Strip(Join(ds), false, NoQuote) == Join(ds) && Split(Join(ds), false, NoQuote, 0) == ds
    ensures |Declarations(Join(ds))| == |Visible(ds)|
    ensures forall k :: 0 <= k < |Visible(ds)| ==> Declares(Declarations(Join(ds))[k], Visible(ds)[k])
  {
    hide Strip, Split, Clean, Declarations, Visible, Declares, WellCut, Declaration;
    DeclarationsAreCut(ds);
    JoinThenSplit(ds);
    CleanStripsToItself(Join(ds), false, NoQuote);
    DeclarationsAre(Join(ds));
  }
}
