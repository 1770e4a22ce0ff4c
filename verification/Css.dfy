/** The scanners that turn an inline pseudo-class style into `!important` declarations. */
module Css {
  import opened Text

  // ---------------------------------------------------------------- tokens

  predicate IdentChar(c: char) {
    'a' <= c <= 'z' || 'A' <= c <= 'Z' || IsDigit(c) || c == '_' || c == '-'
  }

  function Lower(c: char): char {
    if 'A' <= c <= 'Z' then c + ' ' else c
  }

  function LowerAll(s: string): (r: string)
    ensures |r| == |s|
  {
    seq(|s|, i requires 0 <= i < |s| => Lower(s[i]))
  }

  /** Length of the body of an unquoted url, up to and including its ')', or to the end of the text. */
  function BodyLen(s: string): (n: nat)
    ensures n <= |s|
    ensures s != "" ==> n > 0
  {
    if s == "" then 0
    else if s[0] == ')' then 1
    else if s[0] == '\\' then (if |s| == 1 then 1 else 2 + BodyLen(s[2..]))
    else 1 + BodyLen(s[1..])
  }

  /** Whether that body has its ')'. */
  predicate BodyClosed(s: string) {
    s != "" &&
    (s[0] == ')' || (if s[0] == '\\' then |s| > 1 && BodyClosed(s[2..]) else BodyClosed(s[1..])))
  }

  predicate UrlHead(s: string) {
    |s| >= 4 && LowerAll(s[..4]) == "url("
  }

  function SpaceLen(s: string): (n: nat)
    ensures n <= |s|
  {
    Run(s, IsSpace)
  }

  /** Length of the unquoted url token s starts with, 0 if there is none; `ident` says whether the
      character before s could be part of the same identifier. */
  function UrlLen(s: string, ident: bool): (n: nat)
    ensures n <= |s|
    ensures n > 0 ==> n >= 4 && (s[0] == 'u' || s[0] == 'U')
  {
    assert UrlHead(s) ==> LowerAll(s[..4])[0] == 'u';
    if ident || !UrlHead(s) then 0
    else
      var w := 4 + SpaceLen(s[4..]);
      if w < |s| && IsQuote(s[w]) then 0 else w + BodyLen(s[w..])
  }

  predicate UrlClosed(s: string) {
    |s| >= 4 && BodyClosed(s[4 + SpaceLen(s[4..])..])
  }

  predicate CommentHead(s: string) {
    |s| >= 2 && s[0] == '/' && s[1] == '*'
  }

  /** Length of the comment s starts with: through the first closing mark after its opening, or to the end. */
  function CommentLen(s: string): (n: nat)
    requires CommentHead(s)
    ensures 2 <= n <= |s|
  {
    2 + ToCommentEnd(s[2..])
  }

  function ToCommentEnd(s: string): (n: nat)
    ensures n <= |s|
  {
    if |s| < 2 then |s| else if s[0] == '*' && s[1] == '/' then 2 else 1 + ToCommentEnd(s[1..])
  }

  /** The string the scanner is in, if any. */
  datatype Quote = NoQuote | Single | Double {
    function Mark(): char {
      if Double? then '"' else '\''
    }
  }

  function Opened(c: char): Quote {
    if c == '"' then Double else Single
  }

  /** One step of the scanner outside comments: how many characters, and the state after them. */
  datatype Step = Step(len: nat, quote: Quote, depth: nat)

  function Next(s: string, ident: bool, q: Quote, depth: nat): (r: Step)
    requires s != ""
    ensures 0 < r.len <= |s|
  {
    var c := s[0];
    if !q.NoQuote? then
      if c == '\\' then Step(if |s| == 1 then 1 else 2, q, depth)
      else Step(1, if c == q.Mark() then NoQuote else q, depth)
    else if IsQuote(c) then Step(1, Opened(c), depth)
    else if c == '(' then Step(1, NoQuote, depth + 1)
    else if c == ')' then Step(1, NoQuote, if depth == 0 then 0 else depth - 1)
    else Step(if UrlLen(s, ident) > 0 then UrlLen(s, ident) else 1, NoQuote, depth)
  }

  predicate Separator(s: string, q: Quote, depth: nat)
    requires s != ""
  {
    q.NoQuote? && depth == 0 && s[0] == ';'
  }

  // ---------------------------------------------------------------- comments

  function Strip(s: string, ident: bool, q: Quote): string
    decreases |s|
  {
    if s == "" then ""
    else if q.NoQuote? && CommentHead(s) then " " + Strip(s[CommentLen(s)..], false, NoQuote)
    else
      var n := Next(s, ident, q, 0);
      s[..n.len] + Strip(s[n.len..], IdentChar(s[n.len - 1]), n.quote)
  }

  /** No comment starts anywhere the scanner looks for one. */
  predicate Clean(s: string, ident: bool, q: Quote)
    decreases |s|
  {
    s == "" ||
    (!(q.NoQuote? && CommentHead(s)) &&
     var n := Next(s, ident, q, 0);
     Clean(s[n.len..], IdentChar(s[n.len - 1]), n.quote))
  }

  // ---------------------------------------------------------------- declarations

  /** The text cut at its top-level semicolons. */
  function Split(s: string, ident: bool, q: Quote, depth: nat): (r: seq<string>)
    ensures r != []
    decreases |s|
  {
    if s == "" then [""]
    else if Separator(s, q, depth) then [""] + Split(s[1..], false, NoQuote, 0)
    else
      var n := Next(s, ident, q, depth);
      var r := Split(s[n.len..], IdentChar(s[n.len - 1]), n.quote, n.depth);
      [s[..n.len] + r[0]] + r[1..]
  }

  /** How scanning s ends: Broken at a comment or a top-level semicolon, Open inside a string, parentheses
      or an unquoted url, Whole outside all of them. */
  datatype End = Broken | Open | Whole

  function EndOf(s: string, ident: bool, q: Quote, depth: nat): End
    decreases |s|
  {
    if s == "" then (if q.NoQuote? && depth == 0 then Whole else Open)
    else if (q.NoQuote? && CommentHead(s)) || Separator(s, q, depth) then Broken
    else if q.NoQuote? && UrlLen(s, ident) > 0 && !UrlClosed(s) then Open
    else
      var n := Next(s, ident, q, depth);
      EndOf(s[n.len..], IdentChar(s[n.len - 1]), n.quote, n.depth)
  }

  function Top(d: string): End {
    EndOf(d, false, NoQuote, 0)
  }

  predicate EndsImportant(d: string) {
    && |d| >= 9 && LowerAll(d[|d| - 9..]) == "important"
    && var r := TrimRight(d[..|d| - 9]); r != "" && r[|r| - 1] == '!'
  }

  function Emphasized(d: string): string {
    if EndsImportant(d) then d else d + " !important"
  }

  /** Trim every piece, drop the empty ones, emphasize the rest. */
  function Finish(ds: seq<string>): seq<string> {
    if ds == [] then []
    else
      var d := Trim(ds[0]);
      (if d == "" then [] else [Emphasized(d)]) + Finish(ds[1..])
  }

  function Join(ds: seq<string>): string {
    if ds == [] then "" else if |ds| == 1 then ds[0] else ds[0] + ";" + Join(ds[1..])
  }

  function Declarations(css: string): seq<string> {
    Finish(Split(Strip(css, false, NoQuote), false, NoQuote, 0))
  }

  function Importantified(css: string): string {
    Join(Declarations(css))
  }

  // ---------------------------------------------------------------- the procedures

  lemma SpaceStep(css: string, j: nat)
    requires j <= |css|
    ensures SpaceLen(css[j..]) == if j < |css| && IsSpace(css[j]) then 1 + SpaceLen(css[j + 1..]) else 0
  {
    if j < |css| {
      assert css[j..][1..] == css[j + 1..];
    }
  }

  lemma BodyStep(css: string, j: nat)
    requires j <= |css|
    ensures BodyLen(css[j..]) ==
      if j == |css| then 0
      else if css[j] == ')' || (css[j] == '\\' && j + 1 == |css|) then 1
      else if css[j] == '\\' then 2 + BodyLen(css[j + 2..])
      else 1 + BodyLen(css[j + 1..])
  {
    if j < |css| {
      assert css[j..][1..] == css[j + 1..];
      assert j + 2 <= |css| ==> css[j..][2..] == css[j + 2..];
    }
  }

  predicate IdentBefore(css: string, i: nat)
    requires i <= |css|
  {
    i > 0 && IdentChar(css[i - 1])
  }

  method ScanUnquotedUrl(css: string, i: nat) returns (end: int)
    requires i < |css|
    ensures var n := UrlLen(css[i..], IdentBefore(css, i));
      end == if n == 0 then -1 else i + n
  {
    hide LowerAll, IdentChar, IsSpace, SpaceLen, BodyLen;
    if !UrlHead(css[i..]) || (i > 0 && IdentChar(css[i - 1])) {
      return -1;
    }
    assert css[i..][4..] == css[i + 4..];
    var j := i + 4;
    while j < |css| && IsSpace(css[j])
      invariant i + 4 <= j <= |css|
      invariant j + SpaceLen(css[j..]) == i + 4 + SpaceLen(css[i + 4..])
    {
      SpaceStep(css, j);
      j := j + 1;
    }
    ghost var w := j;
    SpaceStep(css, j);
    assert css[i..][j - i..] == css[j..];
    if j < |css| && IsQuote(css[j]) {
      return -1;
    }
    while j < |css| && css[j] != ')'
      invariant w <= j
      invariant j <= |css| ==> j + BodyLen(css[j..]) == w + BodyLen(css[w..])
      invariant j > |css| ==> w + BodyLen(css[w..]) == |css|
    {
      BodyStep(css, j);
      if css[j] == '\\' {
        j := j + 1;
      }
      j := j + 1;
    }
    if j <= |css| {
      BodyStep(css, j);
    }
    return if j < |css| then j + 1 else |css|;
  }

  /** What Strip emits for its first token, how long that token is, and the state after it. */
  function StripHead(s: string, ident: bool, q: Quote): (r: (string, nat, Quote))
    requires s != ""
    ensures 0 < r.1 <= |s|
  {
    if q.NoQuote? && CommentHead(s) then (" ", CommentLen(s), NoQuote)
    else
      var n := Next(s, ident, q, 0);
      (s[..n.len], n.len, n.quote)
  }

  lemma StripUnfold(s: string, ident: bool, q: Quote)
    requires s != ""
    ensures var h := StripHead(s, ident, q);
      Strip(s, ident, q) == h.0 + Strip(s[h.1..], IdentChar(s[h.1 - 1]), h.2)
  {
    hide Next, CommentHead, CommentLen, IdentChar;
    if q.NoQuote? && CommentHead(s) {
      CommentTail(s);
    }
  }

  /** The same, by position in the whole text. */
  lemma StripStep(css: string, i: nat, q: Quote)
    requires i < |css|
    ensures var h := StripHead(css[i..], IdentBefore(css, i), q);
      Strip(css[i..], IdentBefore(css, i), q) == h.0 + Strip(css[i + h.1..], IdentBefore(css, i + h.1), h.2)
  {
    hide Next, StripHead, IdentChar, Strip;
    var s := css[i..];
    StripUnfold(s, IdentBefore(css, i), q);
    var h := StripHead(s, IdentBefore(css, i), q);
    assert s[h.1..] == css[i + h.1..] && s[h.1 - 1] == css[i + h.1 - 1];
  }

  lemma Assoc(a: string, b: string, c: string)
    ensures a + (b + c) == (a + b) + c
  {}

  lemma CommentTail(s: string)
    requires CommentHead(s)
    ensures CommentLen(s) == |s| || !IdentChar(s[CommentLen(s) - 1])
  {
    CommentEnd(s[2..]);
  }

  lemma {:induction false} CommentEnd(s: string)
    ensures var n := ToCommentEnd(s); n == |s| || (n >= 2 && s[n - 2] == '*' && s[n - 1] == '/')
  {
    if |s| >= 2 && !(s[0] == '*' && s[1] == '/') {
      CommentEnd(s[1..]);
    }
  }

  method StripComments(css: string) returns (out: string)
    ensures out == Strip(css, false, NoQuote)
  {
    hide UrlLen, IdentBefore, Strip, CommentLen;
    out := "";
    var quote := NoQuote;
    var i := 0;
    StripStart(css);
    while i < |css|
      invariant i <= |css|
      invariant out + Strip(css[i..], IdentBefore(css, i), quote) == Strip(css, false, NoQuote)
    {
      ghost var h := StripHead(css[i..], IdentBefore(css, i), quote);
      StripStep(css, i, quote);
      Assoc(out, h.0, Strip(css[i + h.1..], IdentBefore(css, i + h.1), h.2));
      ghost var wanted := (out + h.0, i + h.1, h.2);
      assert css[i..][..h.1] == css[i..i + h.1];
      assert css[i..i + 1] == [css[i]];
      assert i + 1 < |css| ==> css[i..i + 2] == [css[i]] + [css[i + 1]];
      var c := css[i];
      if !quote.NoQuote? {
        if c == '\\' {
          out := out + ([c] + if i + 1 < |css| then [css[i + 1]] else "");
          i := if i + 1 < |css| then i + 2 else i + 1;
          assert wanted.0 == out;
        } else {
          if c == quote.Mark() {
            quote := NoQuote;
          }
          out := out + [c];
          i := i + 1;
        }
      } else if IsQuote(c) {
        quote := Opened(c);
        out := out + [c];
        i := i + 1;
      } else if c == '/' && i + 1 < |css| && css[i + 1] == '*' {
        i := i + CommentLen(css[i..]);
        out := out + " ";
      } else {
        var end := ScanUnquotedUrl(css, i);
        if end == -1 {
          out := out + [c];
          i := i + 1;
        } else {
          out := out + css[i..end];
          i := end;
        }
      }
      assert wanted == (out, i, quote);
    }
    StripEnd(css, quote);
  }

  lemma StripStart(css: string)
    ensures css[0..] == css && !IdentBefore(css, 0) && "" + Strip(css, false, NoQuote) == Strip(css, false, NoQuote)
  {}

  lemma StripEnd(css: string, q: Quote)
    ensures Strip(css[|css|..], IdentBefore(css, |css|), q) == ""
  {}

  /** One turn of the splitting loop, by position. */
  lemma SplitTurn(css: string, i: nat, q: Quote, depth: nat)
    requires i < |css| && !Separator(css[i..], q, depth)
    ensures var n := Next(css[i..], IdentBefore(css, i), q, depth);
      var r, t := Split(css[i..], IdentBefore(css, i), q, depth),
                  Split(css[i + n.len..], IdentBefore(css, i + n.len), n.quote, n.depth);
      |r| == |t| && r[0] == css[i..i + n.len] + t[0] && r[1..] == t[1..]
  {
    hide Next, IdentChar, Split;
    var s := css[i..];
    SplitStep(s, IdentBefore(css, i), q, depth);
    var n := Next(s, IdentBefore(css, i), q, depth);
    assert s[n.len..] == css[i + n.len..] && s[n.len - 1] == css[i + n.len - 1] && s[..n.len] == css[i..i + n.len];
  }

  /** The cuts made so far, the piece being scanned, and what is still to be cut, are the whole split. */
  ghost predicate Scanned(css: string, decls: seq<string>, start: nat, i: nat, q: Quote, depth: nat)
    requires i <= |css|
  {
    start <= i &&
    var r := Split(css[i..], IdentBefore(css, i), q, depth);
    decls + [css[start..i] + r[0]] + r[1..] == Split(css, false, NoQuote, 0)
  }

  lemma ScanOn(css: string, decls: seq<string>, start: nat, i: nat, q: Quote, depth: nat)
    requires i < |css| && !Separator(css[i..], q, depth) && Scanned(css, decls, start, i, q, depth)
    ensures var n := Next(css[i..], IdentBefore(css, i), q, depth);
      Scanned(css, decls, start, i + n.len, n.quote, n.depth)
  {
    hide Next, IdentBefore, Split, Separator;
    SplitTurn(css, i, q, depth);
    var n := Next(css[i..], IdentBefore(css, i), q, depth);
    Assoc(css[start..i], css[i..i + n.len], Split(css[i + n.len..], IdentBefore(css, i + n.len), n.quote, n.depth)[0]);
    assert css[start..i] + css[i..i + n.len] == css[start..i + n.len];
  }

  lemma ScanCut(css: string, decls: seq<string>, start: nat, i: nat)
    requires i < |css| && css[i] == ';' && Scanned(css, decls, start, i, NoQuote, 0)
    ensures Scanned(css, decls + [css[start..i]], i + 1, i + 1, NoQuote, 0)
  {
    hide Split;
    SplitCut(css[i..], NoQuote, IdentBefore(css, i), 0);
    assert css[i..][1..] == css[i + 1..];
    var t := Split(css[i + 1..], false, NoQuote, 0);
    assert css[start..i] + "" == css[start..i] && css[i + 1..i + 1] + t[0] == t[0];
    assert [t[0]] + t[1..] == t;
    assert decls + [css[start..i]] + t == (decls + [css[start..i]]) + [t[0]] + t[1..];
  }

  lemma ScanEnds(css: string, decls: seq<string>, start: nat, q: Quote, depth: nat)
    requires Scanned(css, decls, start, |css|, q, depth)
    ensures decls + [css[start..]] == Split(css, false, NoQuote, 0)
  {
    SplitEmpty(IdentBefore(css, |css|), q, depth);
    assert css[|css|..] == "" && css[start..|css|] + "" == css[start..];
  }

  lemma ScanBegins(css: string)
    ensures Scanned(css, [], 0, 0, NoQuote, 0)
  {
    hide Split;
    var r := Split(css, false, NoQuote, 0);
    assert css[0..] == css && css[0..0] + r[0] == r[0];
    assert [] + [r[0]] + r[1..] == r;
  }

  method Importantify(source: string) returns (out: string)
    ensures out == Importantified(source)
  {
    hide UrlLen, IdentBefore, Scanned, Split, Strip;
    var css := StripComments(source);
    var decls: seq<string> := [];
    var start, depth, i := 0, 0, 0;
    var quote := NoQuote;
    ScanBegins(css);
    while i < |css|
      invariant start <= i <= |css| && depth >= 0
      invariant Scanned(css, decls, start, i, quote, depth)
    {
      var c := css[i];
      if !Separator(css[i..], quote, depth) {
        ScanOn(css, decls, start, i, quote, depth);
      }
      if !quote.NoQuote? {
        if c == '\\' {
          i := if i + 1 < |css| then i + 2 else i + 1;
        } else {
          if c == quote.Mark() {
            quote := NoQuote;
          }
          i := i + 1;
        }
      } else if IsQuote(c) {
        quote, i := Opened(c), i + 1;
      } else if c == '(' {
        depth, i := depth + 1, i + 1;
      } else if c == ')' {
        depth, i := if depth == 0 then 0 else depth - 1, i + 1;
      } else if c == ';' && depth == 0 {
        ScanCut(css, decls, start, i);
        decls := decls + [css[start..i]];
        start, i := i + 1, i + 1;
      } else {
        var end := ScanUnquotedUrl(css, i);
        i := if end == -1 then i + 1 else end;
      }
    }
    ScanEnds(css, decls, start, quote, depth);
    return Join(Finish(decls + [css[start..]]));
  }

  // ---------------------------------------------------------------- no comment is left

  lemma {:induction false} CleanStripsToItself(s: string, ident: bool, q: Quote)
    requires Clean(s, ident, q)
    ensures Strip(s, ident, q) == s
    decreases |s|
  {
    hide Next, CommentHead, IdentChar;
    if s != "" {
      var n := Next(s, ident, q, 0);
      CleanStripsToItself(s[n.len..], IdentChar(s[n.len - 1]), n.quote);
      assert s == s[..n.len] + s[n.len..];
    }
  }

  /** A text that can be read on as the stripped form of s: the same first token, unless it is a comment. */
  lemma {:induction false} StrippedHead(s: string, ident: bool)
    requires s != "" && !CommentHead(s) && !IsQuote(s[0]) && UrlLen(s, ident) == 0
    ensures Strip(s, ident, NoQuote) == [s[0]] + Strip(s[1..], IdentChar(s[0]), NoQuote)
  {
    hide UrlLen, CommentHead;
    assert s[..1] == [s[0]];
  }

  lemma StrippedFirst(s: string, ident: bool)
    ensures var o := Strip(s, ident, NoQuote);
      if s == "" then o == "" else o != "" && (if CommentHead(s) then o[0] == ' ' else o[0] == s[0])
  {
    hide UrlLen, CommentHead;
    if s != "" && !CommentHead(s) {
      var n := Next(s, ident, NoQuote, 0);
      assert s[..n.len][0] == s[0];
    }
  }

  lemma SpacePeel(s: string)
    ensures s != "" && IsSpace(s[0]) ==> SpaceLen(s) == 1 + SpaceLen(s[1..])
    ensures s != "" && !IsSpace(s[0]) ==> SpaceLen(s) == 0
  {}

  /** Stripping keeps white space followed by a quote. */
  lemma {:induction false} StrippedQuote(s: string, ident: bool)
    requires SpaceLen(s) < |s| && IsQuote(s[SpaceLen(s)])
    ensures var o := Strip(s, ident, NoQuote); SpaceLen(o) < |o| && IsQuote(o[SpaceLen(o)])
    decreases |s|
  {
    hide Strip, UrlLen, IdentChar;
    SpacePeel(s);
    SpacePeel(Strip(s, ident, NoQuote));
    if IsSpace(s[0]) {
      StrippedHead(s, ident);
      StrippedFirst(s, ident);
      StrippedQuote(s[1..], IdentChar(s[0]));
    } else {
      StrippedFirst(s, ident);
    }
  }

  lemma {:induction false} BodyTake(b: string, y: string)
    requires BodyClosed(b)
    ensures BodyLen(b[..BodyLen(b)] + y) == BodyLen(b) && BodyClosed(b[..BodyLen(b)] + y)
    decreases |b|
  {
    var n := BodyLen(b);
    var t := b[..n] + y;
    if b[0] == ')' {
    } else if b[0] == '\\' {
      BodyTake(b[2..], y);
      assert t[2..] == b[2..][..n - 2] + y;
    } else {
      BodyTake(b[1..], y);
      assert t[1..] == b[1..][..n - 1] + y;
    }
  }

  lemma {:induction false} BodyOpen(b: string)
    requires !BodyClosed(b)
    ensures BodyLen(b) == |b|
    decreases |b|
  {
    if |b| > 1 {
      if b[0] == '\\' {
        BodyOpen(b[2..]);
      } else {
        BodyOpen(b[1..]);
      }
    }
  }

  lemma SpaceLenIs(s: string, w: nat)
    requires w <= |s| && (forall i :: 0 <= i < w ==> IsSpace(s[i])) && (w < |s| ==> !IsSpace(s[w]))
    ensures SpaceLen(s) == w
  {
    RunIs(s, IsSpace, w);
  }

  /** A closed url token is the same token whatever comes after it. */
  lemma UrlTake(s: string, ident: bool, y: string)
    requires UrlLen(s, ident) > 0 && UrlClosed(s)
    ensures var n := UrlLen(s, ident);
      UrlLen(s[..n] + y, ident) == n && UrlClosed(s[..n] + y)
  {
    hide IsSpace, LowerAll, SpaceLen;
    var n := UrlLen(s, ident);
    var t := s[..n] + y;
    var w := SpaceLen(s[4..]);
    var b := s[4 + w..];
    BodyTake(b, y);
    assert t[..4] == s[..4];
    assert t[4 + w..] == b[..BodyLen(b)] + y;
    KeepSpace(s, t, w);
    assert t[4 + w] == s[4 + w];
  }

  lemma KeepSpace(s: string, t: string, w: nat)
    requires |s| >= 4 && |t| >= 4 && w == SpaceLen(s[4..]) && 4 + w < |s| && 4 + w < |t|
    requires s[..5 + w] == t[..5 + w]
    ensures SpaceLen(t[4..]) == w
  {
    assert forall i :: 0 <= i <= w ==> t[4..][i] == s[4..][i] by {
      forall i | 0 <= i <= w ensures t[4..][i] == s[4..][i] {
        assert t[4..][i] == t[..5 + w][4 + i];
        assert s[4..][i] == s[..5 + w][4 + i];
      }
    }
    SpaceLenIs(t[4..], w);
  }

  lemma UrlOpen(s: string, ident: bool)
    requires UrlLen(s, ident) > 0 && !UrlClosed(s)
    ensures UrlLen(s, ident) == |s|
  {
    BodyOpen(s[4 + SpaceLen(s[4..])..]);
  }

  /** Reading one visible plain character off the stripped text reads it off the original. */
  lemma PeelOne(s: string, ident: bool)
    requires UrlLen(s, ident) == 0
    requires var o := Strip(s, ident, NoQuote); o != "" && o[0] != ' ' && !IsQuote(o[0])
    ensures s != "" && s[0] == Strip(s, ident, NoQuote)[0]
    ensures Strip(s, ident, NoQuote)[1..] == Strip(s[1..], IdentChar(s[0]), NoQuote)
  {
    hide UrlLen, CommentHead, Strip, IdentChar;
    StrippedFirst(s, ident);
    if s == "" {
      assert false;
    } else {
      StrippedHead(s, ident);
    }
  }

  lemma PeelUrlHead(s: string)
    requires UrlLen(s, false) == 0 && UrlHead(Strip(s, false, NoQuote))
    ensures UrlHead(s) && Strip(s, false, NoQuote)[4..] == Strip(s[4..], false, NoQuote)
  {
    hide Strip, UrlLen;
    var o := Strip(s, false, NoQuote);
    UrlHeadChars(o);
    PeelOne(s, false);
    NoUrlInIdent(s[1..]);
    PeelOne(s[1..], true);
    NoUrlInIdent(s[1..][1..]);
    PeelOne(s[1..][1..], true);
    NoUrlInIdent(s[1..][1..][1..]);
    PeelOne(s[1..][1..][1..], true);
    assert o[..4] == s[..4];
    assert s[1..][1..][1..][1..] == s[4..] && o[1..][1..][1..][1..] == o[4..];
  }

  lemma NoUrlInIdent(s: string)
    ensures UrlLen(s, true) == 0
  {}

  lemma UrlHeadChars(s: string)
    requires UrlHead(s)
    ensures IdentChar(s[0]) && IdentChar(s[1]) && IdentChar(s[2]) && s[3] == '('
    ensures forall i :: 0 <= i < 4 ==> s[i] != ' ' && !IsQuote(s[i])
  {
    var l := LowerAll(s[..4]);
    assert l[0] == 'u' && l[1] == 'r' && l[2] == 'l' && l[3] == '(';
  }

  /** A plain character of the text stays plain in the stripped text. */
  lemma PlainStays(s: string, ident: bool)
    requires s != "" && !CommentHead(s) && !IsQuote(s[0]) && UrlLen(s, ident) == 0
    ensures var o := Strip(s, ident, NoQuote); o != "" && o[0] == s[0] && !CommentHead(o) && UrlLen(o, ident) == 0
  {
    hide Strip, LowerAll, IsSpace, IdentChar;
    var o := Strip(s, ident, NoQuote);
    StrippedHead(s, ident);
    StrippedFirst(s[1..], IdentChar(s[0]));
    if !ident && UrlHead(o) {
      PeelUrlHead(s);
      StrippedQuote(s[4..], false);
    }
  }

  /** The stripped text, read by the same scanner, holds no comment. */
  lemma {:induction false} StripIsClean(s: string, ident: bool, q: Quote)
    ensures Clean(Strip(s, ident, q), ident, q)
    decreases |s|
  {
    if s != "" {
      var h := StripHead(s, ident, q);
      StripUnfold(s, ident, q);
      StripIsClean(s[h.1..], IdentChar(s[h.1 - 1]), h.2);
      StripKeepsStep(s, ident, q);
    }
  }

  /** The first token of the stripped text is the first token of the text, or the space a comment left. */
  lemma StripKeepsStep(s: string, ident: bool, q: Quote)
    requires s != ""
    ensures var o, h := Strip(s, ident, q), StripHead(s, ident, q);
      && o != "" && !(q.NoQuote? && CommentHead(o))
      && Next(o, ident, q, 0).len == |h.0| && Next(o, ident, q, 0).quote == h.2
      && o[|h.0|..] == Strip(s[h.1..], IdentChar(s[h.1 - 1]), h.2)
      && h.0 != "" && o[..|h.0|] == h.0
      && (IdentChar(o[|h.0| - 1]) == IdentChar(s[h.1 - 1]) || o[|h.0|..] == "")
  {
    hide Strip, UrlLen;
    var o, h := Strip(s, ident, q), StripHead(s, ident, q);
    StripUnfold(s, ident, q);
    StripEmpty(IdentChar(s[h.1 - 1]), h.2);
    assert h.1 == |s| ==> s[h.1..] == "";
    if !q.NoQuote? {
    } else if CommentHead(s) {
      CommentTail(s);
    } else if IsQuote(s[0]) {
    } else if UrlLen(s, ident) == 0 {
      PlainStays(s, ident);
    } else {
      KeptUrl(s, ident, Strip(s[h.1..], IdentChar(s[h.1 - 1]), h.2));
    }
  }

  lemma StripEmpty(ident: bool, q: Quote)
    ensures Strip("", ident, q) == ""
  {}

  lemma KeptUrl(s: string, ident: bool, y: string)
    requires UrlLen(s, ident) > 0 && (UrlLen(s, ident) == |s| ==> y == "")
    ensures UrlLen(s[..UrlLen(s, ident)] + y, ident) == UrlLen(s, ident)
  {
    if UrlClosed(s) {
      UrlTake(s, ident, y);
    } else {
      UrlOpen(s, ident);
      assert s[..|s|] + "" == s;
    }
  }

  // ---------------------------------------------------------------- how pieces end

  /** Characters that, added at the end, neither open, close nor cut anything. */
  predicate Neutral(c: char) {
    !IsQuote(c) && c != '(' && c != ')' && c != ';' && c != '*' && c != '\\'
  }

  lemma {:induction false} BodyClosedMore(b: string, c: char)
    requires c != ')'
    ensures BodyClosed(b + [c]) == BodyClosed(b)
    decreases |b|
  {
    if b == "" {
    } else if b[0] == ')' {
    } else if b[0] == '\\' {
      if |b| > 1 {
        assert (b + [c])[2..] == b[2..] + [c];
        BodyClosedMore(b[2..], c);
      }
    } else {
      assert (b + [c])[1..] == b[1..] + [c];
      BodyClosedMore(b[1..], c);
    }
  }

  /** What may follow a text without completing a token it has begun. */
  predicate Follows(y: string) {
    (|y| == 1 && Neutral(y[0])) || (y != "" && (y[0] == ';' || y[0] == '/'))
  }

  lemma HeadMore(s: string, y: string)
    requires s != "" && Follows(y)
    ensures UrlHead(s + y) == UrlHead(s)
    ensures CommentHead(s + y) == CommentHead(s)
  {
    if |s| >= 4 {
      assert (s + y)[..4] == s[..4];
    } else if |s + y| >= 4 {
      var l := LowerAll((s + y)[..4]);
      assert l[|s|] == Lower(y[0]);
    }
  }

  /** A text that is no url token does not become one. */
  lemma NoUrlMore(s: string, ident: bool, y: string)
    requires s != "" && Follows(y) && UrlLen(s, ident) == 0
    ensures UrlLen(s + y, ident) == 0
  {
    hide LowerAll, IsSpace;
    HeadMore(s, y);
    if !ident && UrlHead(s) {
      var w := SpaceLen(s[4..]);
      var t := s + y;
      assert s[..5 + w] == t[..5 + w];
      KeepSpace(s, t, w);
      assert t[4 + w] == s[4 + w];
    }
  }

  /** A closed url token stays as it is. */
  lemma ClosedUrlMore(s: string, ident: bool, y: string)
    requires UrlLen(s, ident) > 0 && UrlClosed(s)
    ensures UrlLen(s + y, ident) == UrlLen(s, ident) && UrlClosed(s + y)
  {
    hide UrlLen, UrlClosed;
    var n := UrlLen(s, ident);
    assert s + y == s[..n] + (s[n..] + y);
    UrlTake(s, ident, s[n..] + y);
  }

  /** An unterminated url token swallows a neutral character. */
  lemma OpenUrlMore(s: string, ident: bool, c: char)
    requires UrlLen(s, ident) > 0 && !UrlClosed(s) && Neutral(c)
    ensures UrlLen(s + [c], ident) > 0 && !UrlClosed(s + [c])
  {
    hide LowerAll, IsSpace;
    var t := s + [c];
    HeadMore(s, [c]);
    var w := SpaceLen(s[4..]);
    if 4 + w < |s| {
      assert s[..5 + w] == t[..5 + w];
      KeepSpace(s, t, w);
      assert t[4 + w] == s[4 + w];
      assert t[4 + w..] == s[4 + w..] + [c];
      BodyClosedMore(s[4 + w..], c);
    } else {
      OpenHeadMore(s, c);
    }
  }

  lemma OpenHeadMore(s: string, c: char)
    requires |s| >= 4 && SpaceLen(s[4..]) == |s| - 4 && Neutral(c)
    ensures var w := 4 + SpaceLen((s + [c])[4..]);
      !(w < |s + [c]| && IsQuote((s + [c])[w])) && !BodyClosed((s + [c])[w..])
  {
    var t := s + [c];
    assert t[4..] == s[4..] + [c];
    forall i | 0 <= i < |s| - 4 ensures IsSpace(t[4..][i]) {
      assert t[4..][i] == s[4..][i];
    }
    var w := SpaceLen(t[4..]);
    SpaceLenIs(t[4..], if IsSpace(c) then |s| - 3 else |s| - 4);
    assert t[4 + w..] == if IsSpace(c) then "" else [c];
  }

  /** Adding a neutral character does not change how a text ends. */
  lemma {:induction false} NeutralEnd(s: string, c: char, ident: bool, q: Quote, depth: nat)
    requires Neutral(c)
    ensures EndOf(s + [c], ident, q, depth) == EndOf(s, ident, q, depth)
    decreases |s|, 1
  {
    hide UrlLen, UrlClosed, CommentHead, IdentChar;
    if s == "" {
      assert s + [c] == [c];
      LoneNeutral(c, ident, q, depth);
    } else {
      var t := s + [c];
      HeadMore(s, [c]);
      if q.NoQuote? && UrlLen(s, ident) > 0 {
        if UrlClosed(s) {
          ClosedUrlMore(s, ident, [c]);
        } else {
          OpenUrlMore(s, ident, c);
        }
      } else if q.NoQuote? {
        NoUrlMore(s, ident, [c]);
      }
      NeutralStep(s, c, ident, q, depth);
    }
  }

  lemma LoneNeutral(c: char, ident: bool, q: Quote, depth: nat)
    requires Neutral(c)
    ensures EndOf([c], ident, q, depth) == EndOf("", ident, q, depth)
  {
    assert [c][1..] == "";
  }

  lemma {:induction false} NeutralStep(s: string, c: char, ident: bool, q: Quote, depth: nat)
    requires s != "" && Neutral(c)
    requires CommentHead(s + [c]) == CommentHead(s)
    requires q.NoQuote? ==> (UrlLen(s + [c], ident) > 0) == (UrlLen(s, ident) > 0)
    requires q.NoQuote? && UrlLen(s, ident) > 0 ==> UrlClosed(s + [c]) == UrlClosed(s)
    requires q.NoQuote? && UrlLen(s, ident) > 0 && UrlClosed(s) ==> UrlLen(s + [c], ident) == UrlLen(s, ident)
    ensures EndOf(s + [c], ident, q, depth) == EndOf(s, ident, q, depth)
    decreases |s|, 0
  {
    hide UrlLen, UrlClosed, CommentHead, IdentChar, EndOf;
    var t := s + [c];
    var n := Next(s, ident, q, depth);
    if (q.NoQuote? && CommentHead(s)) || Separator(s, q, depth) {
      BrokenAt(s, ident, q, depth);
      BrokenAt(t, ident, q, depth);
    } else if !q.NoQuote? && s == "\\" {
      EndStep(s, ident, q, depth);
      EndStep(t, ident, q, depth);
      assert t[2..] == "" && s[1..] == "";
      QuotedEnd(q, depth);
    } else {
      EndStep(s, ident, q, depth);
      EndStep(t, ident, q, depth);
      if !(q.NoQuote? && UrlLen(s, ident) > 0 && !UrlClosed(s)) {
        assert Next(t, ident, q, depth) == n;
        assert t[n.len..] == s[n.len..] + [c] && t[n.len - 1] == s[n.len - 1];
        NeutralEnd(s[n.len..], c, IdentChar(s[n.len - 1]), n.quote, n.depth);
      }
    }
  }

  lemma QuotedEnd(q: Quote, depth: nat)
    requires !q.NoQuote?
    ensures forall s: string, b :: s == "" ==> EndOf(s, b, q, depth) == Open
  {}

  lemma BrokenAt(s: string, ident: bool, q: Quote, depth: nat)
    requires s != "" && ((q.NoQuote? && CommentHead(s)) || Separator(s, q, depth))
    ensures EndOf(s, ident, q, depth) == Broken
  {}

  // ---------------------------------------------------------------- where the text is cut

  lemma SplitCut(s: string, q: Quote, ident: bool, depth: nat)
    requires s != "" && Separator(s, q, depth)
    ensures var r, t := Split(s, ident, q, depth), Split(s[1..], false, NoQuote, 0);
      |r| == 1 + |t| && r[0] == "" && r[1..] == t && q.NoQuote? && s == ";" + s[1..]
  {}

  lemma SplitStep(s: string, ident: bool, q: Quote, depth: nat)
    requires s != "" && !Separator(s, q, depth)
    ensures var n, r := Next(s, ident, q, depth), Split(s, ident, q, depth);
      var t := Split(s[n.len..], IdentChar(s[n.len - 1]), n.quote, n.depth);
      |r| == |t| && r[0] == s[..n.len] + t[0] && r[1..] == t[1..]
  {
    hide Next, IdentChar;
  }

  /** Putting the pieces back together gives the text; only semicolons were cut. */
  lemma {:induction false} SplitJoins(s: string, ident: bool, q: Quote, depth: nat)
    ensures Join(Split(s, ident, q, depth)) == s
    decreases |s|
  {
    hide Next, IdentChar, Split, Join, Separator;
    if s == "" {
      SplitEmpty(ident, q, depth);
    } else if Separator(s, q, depth) {
      SplitCut(s, q, ident, depth);
      SplitJoins(s[1..], false, NoQuote, 0);
      JoinCut(Split(s, ident, q, depth));
    } else {
      SplitStep(s, ident, q, depth);
      var n := Next(s, ident, q, depth);
      var t := Split(s[n.len..], IdentChar(s[n.len - 1]), n.quote, n.depth);
      SplitJoins(s[n.len..], IdentChar(s[n.len - 1]), n.quote, n.depth);
      JoinPrefix(s[..n.len], Split(s, ident, q, depth), t);
      assert s == s[..n.len] + s[n.len..];
    }
  }

  lemma SplitEmpty(ident: bool, q: Quote, depth: nat)
    ensures Split("", ident, q, depth) == [""] && Join([""]) == ""
  {}

  lemma JoinCut(r: seq<string>)
    requires |r| > 1 && r[0] == ""
    ensures Join(r) == ";" + Join(r[1..])
  {}

  lemma JoinPrefix(a: string, r: seq<string>, t: seq<string>)
    requires t != [] && |r| == |t| && r[0] == a + t[0] && r[1..] == t[1..]
    ensures Join(r) == a + Join(t)
  {
    if |t| > 1 {
      var y := Join(t[1..]);
      Assoc(a, t[0], ";");
      Assoc(a, t[0] + ";", y);
    }
  }

  /** The first piece is the text up to the semicolon that ends it; the others are cut from the rest. */
  ghost predicate CutsOff(s: string, r: seq<string>) {
    && r != [] && r[0] <= s
    && if |r| == 1 then r[0] == s
       else |r[0]| < |s| && s[|r[0]|] == ';' && r[1..] == Split(s[|r[0]| + 1..], false, NoQuote, 0)
  }

  lemma {:induction false} SplitFirst(s: string, ident: bool, q: Quote, depth: nat)
    ensures CutsOff(s, Split(s, ident, q, depth))
    decreases |s|
  {
    hide Next, IdentChar, Split, CutsOff, Separator;
    if s == "" {
      CutsOffNothing(ident, q, depth);
    } else if Separator(s, q, depth) {
      CutsOffHere(s, q, ident, depth);
    } else {
      SplitStep(s, ident, q, depth);
      var n := Next(s, ident, q, depth);
      SplitFirst(s[n.len..], IdentChar(s[n.len - 1]), n.quote, n.depth);
      CutsOffShift(s, n.len, Split(s[n.len..], IdentChar(s[n.len - 1]), n.quote, n.depth), Split(s, ident, q, depth));
    }
  }

  lemma CutsOffHere(s: string, q: Quote, ident: bool, depth: nat)
    requires s != "" && Separator(s, q, depth)
    ensures CutsOff(s, Split(s, ident, q, depth))
  {
    hide Split;
    SplitCut(s, q, ident, depth);
  }

  lemma CutsOffNothing(ident: bool, q: Quote, depth: nat)
    ensures CutsOff("", Split("", ident, q, depth))
  {}

  lemma CutsOffShift(s: string, n: nat, t: seq<string>, r: seq<string>)
    requires n <= |s| && CutsOff(s[n..], t)
    requires |r| == |t| && r[0] == s[..n] + t[0] && r[1..] == t[1..]
    ensures CutsOff(s, r)
  {
    hide Split;
    assert s == s[..n] + s[n..];
    if |t| > 1 {
      assert s[n..][|t[0]| + 1..] == s[|r[0]| + 1..];
    }
  }

  /** Cutting at a semicolon or not at all keeps every token of the part before. */
  lemma UrlBefore(s: string, k: nat, ident: bool)
    requires k <= |s| && (k == |s| || s[k] == ';') && k > 0 && UrlLen(s, ident) <= k
    ensures UrlLen(s[..k], ident) == UrlLen(s, ident)
    ensures UrlLen(s, ident) > 0 ==> UrlClosed(s[..k]) == UrlClosed(s)
  {
    hide LowerAll, IsSpace;
    var d := s[..k];
    if k == |s| {
      assert d == s;
    } else if UrlLen(s, ident) == 0 {
      if !ident && UrlHead(d) {
        assert d[..4] == s[..4];
        QuoteBeforeCut(s, k);
      }
    } else if UrlClosed(s) {
      var n := UrlLen(s, ident);
      UrlTake(s, ident, s[n..k]);
      assert s[..n] + s[n..k] == d;
    } else {
      UrlOpen(s, ident);
    }
  }

  lemma QuoteBeforeCut(s: string, k: nat)
    requires 4 <= k < |s| && s[k] == ';'
    requires var w := 4 + SpaceLen(s[4..]); w < |s| && IsQuote(s[w])
    ensures var w := 4 + SpaceLen(s[..k][4..]); w < k && IsQuote(s[..k][w])
  {
    var w := SpaceLen(s[4..]);
    forall i | 4 <= i < 4 + w ensures IsSpace(s[i]) {
      assert s[4..][i - 4] == s[i];
    }
    assert s[..5 + w] == s[..k][..5 + w];
    KeepSpace(s, s[..k], w);
  }

  /** The first piece ends outside strings, parentheses and urls, unless the text ends with it; what is
      left after the cut is free of comments too. */
  ghost predicate FirstOk(s: string, ident: bool, q: Quote, depth: nat) {
    var r := Split(s, ident, q, depth);
    var e := EndOf(r[0], ident, q, depth);
    if |r| == 1 then e != Broken else e == Whole && |r[0]| < |s| && Clean(s[|r[0]| + 1..], false, NoQuote)
  }

  /** Every cut is outside strings, parentheses, urls and comments. */
  lemma {:induction false} FirstPieceEnd(s: string, ident: bool, q: Quote, depth: nat)
    requires Clean(s, ident, q)
    ensures FirstOk(s, ident, q, depth)
    decreases |s|
  {
    hide Clean, UrlLen, UrlClosed, CommentHead, IdentChar, Split, Next, EndOf, FirstOk, Separator;
    if s == "" {
      FirstOkEmpty(ident, q, depth);
    } else {
      CleanStep(s, ident, q, depth);
      if Separator(s, q, depth) {
        CutPiece(s, ident, q, depth);
      } else if q.NoQuote? && UrlLen(s, ident) > 0 && !UrlClosed(s) {
        OpenUrlOk(s, ident, depth);
      } else {
        var n := Next(s, ident, q, depth);
        FirstPieceEnd(s[n.len..], IdentChar(s[n.len - 1]), n.quote, n.depth);
        FirstOkStep(s, ident, q, depth);
      }
    }
  }

  lemma FirstOkEmpty(ident: bool, q: Quote, depth: nat)
    ensures FirstOk("", ident, q, depth)
  {}

  lemma OpenUrlOk(s: string, ident: bool, depth: nat)
    requires UrlLen(s, ident) > 0 && !UrlClosed(s) && !CommentHead(s)
    ensures FirstOk(s, ident, NoQuote, depth)
  {
    hide UrlLen, UrlClosed, CommentHead, Split, EndOf, Clean;
    OpenUrlPiece(s, ident, depth);
  }

  lemma FirstOkStep(s: string, ident: bool, q: Quote, depth: nat)
    requires s != "" && !Separator(s, q, depth) && !(q.NoQuote? && CommentHead(s))
    requires !(q.NoQuote? && UrlLen(s, ident) > 0 && !UrlClosed(s))
    requires var n := Next(s, ident, q, depth); FirstOk(s[n.len..], IdentChar(s[n.len - 1]), n.quote, n.depth)
    ensures FirstOk(s, ident, q, depth)
  {
    hide UrlLen, UrlClosed, CommentHead, IdentChar, Split, Next, EndOf, Clean, Separator;
    ClosedPiece(s, ident, q, depth);
  }

  lemma CutPiece(s: string, ident: bool, q: Quote, depth: nat)
    requires s != "" && Separator(s, q, depth) && Clean(s, ident, q)
    ensures FirstOk(s, ident, q, depth)
  {
    hide Split, Clean;
    SplitCut(s, q, ident, depth);
    CleanStep(s, ident, q, depth);
  }

  lemma OpenUrlPiece(s: string, ident: bool, depth: nat)
    requires UrlLen(s, ident) > 0 && !UrlClosed(s) && !CommentHead(s)
    ensures Split(s, ident, NoQuote, depth) == [s] && EndOf(s, ident, NoQuote, depth) == Open
  {
    hide UrlLen, UrlClosed, CommentHead, IdentChar, Split, Next, EndOf;
    UrlOpen(s, ident);
    NextUrl(s, ident, depth);
    SplitStep(s, ident, NoQuote, depth);
    SplitEmpty(IdentChar(s[|s| - 1]), NoQuote, depth);
    EndStep(s, ident, NoQuote, depth);
    var r := Split(s, ident, NoQuote, depth);
    assert s[|s|..] == "" && s[..|s|] == s;
    assert s + "" == s && r == [r[0]];
  }

  lemma ClosedPiece(s: string, ident: bool, q: Quote, depth: nat)
    requires s != "" && !Separator(s, q, depth) && !(q.NoQuote? && CommentHead(s))
    requires !(q.NoQuote? && UrlLen(s, ident) > 0 && !UrlClosed(s))
    ensures var n := Next(s, ident, q, depth);
      var r, t := Split(s, ident, q, depth), Split(s[n.len..], IdentChar(s[n.len - 1]), n.quote, n.depth);
      |r| == |t| && CutsOff(s, r) && (|r| > 1 ==> s[n.len..][|t[0]| + 1..] == s[|r[0]| + 1..])
      && EndOf(r[0], ident, q, depth) == EndOf(t[0], IdentChar(s[n.len - 1]), n.quote, n.depth)
  {
    hide UrlLen, UrlClosed, CommentHead, IdentChar, Split, Next, EndOf;
    var n := Next(s, ident, q, depth);
    var r, t := Split(s, ident, q, depth), Split(s[n.len..], IdentChar(s[n.len - 1]), n.quote, n.depth);
    SplitFirst(s, ident, q, depth);
    SplitStep(s, ident, q, depth);
    FirstPieceStep(s, |r[0]|, ident, q, depth);
    assert r[0] == s[..|r[0]|] && r[0][n.len..] == t[0];
  }

  lemma NextUrl(s: string, ident: bool, depth: nat)
    requires UrlLen(s, ident) > 0
    ensures !Separator(s, NoQuote, depth)
    ensures Next(s, ident, NoQuote, depth) == Step(UrlLen(s, ident), NoQuote, depth)
  {}

  lemma CleanStep(s: string, ident: bool, q: Quote, depth: nat)
    requires s != "" && Clean(s, ident, q)
    ensures !(q.NoQuote? && CommentHead(s))
    ensures var n := Next(s, ident, q, depth); Clean(s[n.len..], IdentChar(s[n.len - 1]), n.quote)
  {
    hide UrlLen, CommentHead, IdentChar;
  }

  /** A prefix that ends at a semicolon, or nowhere, is scanned by the same first step. */
  lemma FirstPieceStep(s: string, k: nat, ident: bool, q: Quote, depth: nat)
    requires s != "" && k <= |s| && (k == |s| || s[k] == ';') && !Separator(s, q, depth)
    requires !(q.NoQuote? && CommentHead(s))
    requires Next(s, ident, q, depth).len <= k
    ensures var n := Next(s, ident, q, depth);
      EndOf(s[..k], ident, q, depth) ==
        if q.NoQuote? && UrlLen(s, ident) > 0 && !UrlClosed(s) then Open
        else EndOf(s[..k][n.len..], IdentChar(s[n.len - 1]), n.quote, n.depth)
  {
    hide UrlLen, UrlClosed, IdentChar, EndOf;
    var d := s[..k];
    if q.NoQuote? && !IsQuote(s[0]) && s[0] != '(' && s[0] != ')' {
      UrlBefore(s, k, ident);
    }
    var n := Next(s, ident, q, depth);
    assert Next(d, ident, q, depth) == n && d[n.len - 1] == s[n.len - 1];
    EndStep(d, ident, q, depth);
  }

  lemma EndStep(s: string, ident: bool, q: Quote, depth: nat)
    requires s != "" && !(q.NoQuote? && CommentHead(s)) && !Separator(s, q, depth)
    ensures var n := Next(s, ident, q, depth);
      EndOf(s, ident, q, depth) ==
        if q.NoQuote? && UrlLen(s, ident) > 0 && !UrlClosed(s) then Open
        else EndOf(s[n.len..], IdentChar(s[n.len - 1]), n.quote, n.depth)
  {
    hide UrlLen, UrlClosed, IdentChar;
  }

  /** Pieces that all end outside strings, parentheses and urls, save that the last may be cut short by
      the end of the text; none holds a comment or a top-level semicolon. */
  ghost predicate WellCut(ds: seq<string>) {
    ds != [] && if |ds| == 1 then Top(ds[0]) != Broken else Top(ds[0]) == Whole && WellCut(ds[1..])
  }

  lemma {:induction false} SplitIsWellCut(s: string)
    requires Clean(s, false, NoQuote)
    ensures WellCut(Split(s, false, NoQuote, 0))
    decreases |s|
  {
    hide Clean, Split, EndOf;
    FirstPieceEnd(s, false, NoQuote, 0);
    SplitFirst(s, false, NoQuote, 0);
    var r := Split(s, false, NoQuote, 0);
    if |r| > 1 {
      SplitIsWellCut(s[|r[0]| + 1..]);
    }
  }

  lemma {:induction false} WholePiece(d: string, y: string, ident: bool, q: Quote, depth: nat)
    requires EndOf(d, ident, q, depth) == Whole
    ensures Split(d + (";" + y), ident, q, depth) == [d] + Split(y, false, NoQuote, 0)
    ensures Clean(y, false, NoQuote) ==> Clean(d + (";" + y), ident, q)
    decreases |d|
  {
    hide UrlLen, UrlClosed, CommentHead, IdentChar, Split, Next, EndOf, Clean, Separator;
    var t := d + (";" + y);
    if d == "" {
      WholeEnd(y, ident, q, depth);
    } else {
      EndNotBroken(d, ident, q, depth);
      EndStep(d, ident, q, depth);
      SameStep(d, ";" + y, ident, q, depth);
      var n := Next(d, ident, q, depth);
      WholePiece(d[n.len..], y, IdentChar(d[n.len - 1]), n.quote, n.depth);
      SplitStep(t, ident, q, depth);
      CleanFrom(t, ident, q, depth);
      RestOfSum(d, ";" + y, n.len);
      var r := Split(t, ident, q, depth);
      assert r == [r[0]] + r[1..];
    }
  }

  lemma RestOfSum(d: string, z: string, n: nat)
    requires 0 < n <= |d|
    ensures (d + z)[n..] == d[n..] + z && (d + z)[n - 1] == d[n - 1] && (d + z)[..n] == d[..n]
    ensures d[..n] + d[n..] == d
  {}

  lemma WholeEnd(y: string, ident: bool, q: Quote, depth: nat)
    requires EndOf("", ident, q, depth) == Whole
    ensures q.NoQuote? && depth == 0
    ensures Split("" + (";" + y), ident, NoQuote, 0) == [""] + Split(y, false, NoQuote, 0)
    ensures Clean(y, false, NoQuote) ==> Clean("" + (";" + y), ident, NoQuote)
  {
    hide Split, Clean;
    var t := ";" + y;
    assert "" + t == t && t[1..] == y;
    SplitCut(t, NoQuote, ident, 0);
    var r := Split(t, ident, NoQuote, 0);
    assert r == [r[0]] + r[1..];
    CleanFrom(t, ident, NoQuote, 0);
  }

  lemma CleanFrom(s: string, ident: bool, q: Quote, depth: nat)
    requires s != "" && !(q.NoQuote? && CommentHead(s))
    ensures var n := Next(s, ident, q, depth);
      Clean(s[n.len..], IdentChar(s[n.len - 1]), n.quote) ==> Clean(s, ident, q)
  {
    hide UrlLen, CommentHead, IdentChar;
  }

  lemma EndNotBroken(d: string, ident: bool, q: Quote, depth: nat)
    requires d != "" && EndOf(d, ident, q, depth) != Broken
    ensures !(q.NoQuote? && CommentHead(d)) && !Separator(d, q, depth)
  {}

  /** What follows a semicolon does not change the step before it. */
  lemma SameStep(d: string, z: string, ident: bool, q: Quote, depth: nat)
    requires d != "" && z != "" && z[0] == ';'
    requires EndOf(d, ident, q, depth) == Whole
    ensures Next(d + z, ident, q, depth) == Next(d, ident, q, depth)
    ensures !(q.NoQuote? && CommentHead(d + z)) && !Separator(d + z, q, depth)
  {
    hide UrlLen, UrlClosed, CommentHead, IdentChar;
    HeadMore(d, z);
    if q.NoQuote? {
      if UrlLen(d, ident) == 0 {
        NoUrlMore(d, ident, z);
      } else {
        ClosedUrlMore(d, ident, z);
      }
    }
  }

  lemma {:induction false} LastPiece(d: string, ident: bool, q: Quote, depth: nat)
    requires EndOf(d, ident, q, depth) != Broken
    ensures Split(d, ident, q, depth) == [d] && Clean(d, ident, q)
    decreases |d|
  {
    hide UrlLen, UrlClosed, CommentHead, IdentChar, Split, Next, EndOf, Clean, Separator;
    if d == "" {
      LastNothing(ident, q, depth);
    } else {
      EndNotBroken(d, ident, q, depth);
      EndStep(d, ident, q, depth);
      if q.NoQuote? && UrlLen(d, ident) > 0 && !UrlClosed(d) {
        OpenUrlPiece(d, ident, depth);
        OpenUrlClean(d, ident);
      } else {
        var n := Next(d, ident, q, depth);
        LastPiece(d[n.len..], IdentChar(d[n.len - 1]), n.quote, n.depth);
        LastStep(d, ident, q, depth);
      }
    }
  }

  lemma LastNothing(ident: bool, q: Quote, depth: nat)
    ensures Split("", ident, q, depth) == [""] && Clean("", ident, q)
  {}

  lemma LastStep(d: string, ident: bool, q: Quote, depth: nat)
    requires d != "" && !(q.NoQuote? && CommentHead(d)) && !Separator(d, q, depth)
    requires var n := Next(d, ident, q, depth);
      Split(d[n.len..], IdentChar(d[n.len - 1]), n.quote, n.depth) == [d[n.len..]]
      && Clean(d[n.len..], IdentChar(d[n.len - 1]), n.quote)
    ensures Split(d, ident, q, depth) == [d] && Clean(d, ident, q)
  {
    hide UrlLen, CommentHead, IdentChar, Split, Next, Clean, Separator;
    SplitStep(d, ident, q, depth);
    var n := Next(d, ident, q, depth);
    var r := Split(d, ident, q, depth);
    assert d == d[..n.len] + d[n.len..] && r == [r[0]];
    CleanFrom(d, ident, q, depth);
  }

  lemma OpenUrlClean(d: string, ident: bool)
    requires UrlLen(d, ident) > 0 && !UrlClosed(d) && !CommentHead(d)
    ensures Clean(d, ident, NoQuote)
  {
    hide UrlLen, UrlClosed, CommentHead, IdentChar;
    UrlOpen(d, ident);
    NextUrl(d, ident, 0);
    assert d[|d|..] == "";
  }

  /** Joining well-cut pieces and cutting again gives the same pieces, and no comment appears. */
  lemma {:induction false} JoinThenSplit(ds: seq<string>)
    requires WellCut(ds)
    ensures Split(Join(ds), false, NoQuote, 0) == ds && Clean(Join(ds), false, NoQuote)
  {
    hide Split, Clean, EndOf;
    if |ds| == 1 {
      LastPiece(ds[0], false, NoQuote, 0);
    } else {
      var y := Join(ds[1..]);
      JoinThenSplit(ds[1..]);
      WholePiece(ds[0], y, false, NoQuote, 0);
      Assoc(ds[0], ";", y);
      assert ds == [ds[0]] + ds[1..];
    }
  }

  // ---------------------------------------------------------------- the declarations

  lemma {:induction false} TrimLeftEnd(d: string)
    ensures Top(TrimLeft(d)) == Top(d)
    decreases |d|
  {
    if d != "" && IsSpace(d[0]) {
      LeadingSpace(d);
      TrimLeftEnd(d[1..]);
    }
  }

  lemma LeadingSpace(d: string)
    requires d != "" && IsSpace(d[0])
    ensures Top(d) == Top(d[1..])
  {
    hide UrlLen;
    assert UrlLen(d, false) == 0;
  }

  lemma {:induction false} TrimRightEnd(d: string)
    ensures Top(TrimRight(d)) == Top(d)
    decreases |d|
  {
    hide EndOf;
    if d != "" && IsSpace(d[|d| - 1]) {
      var x := d[..|d| - 1];
      TrimRightEnd(x);
      NeutralEnd(x, d[|d| - 1], false, NoQuote, 0);
      assert x + [d[|d| - 1]] == d;
    }
  }

  lemma {:induction false} NeutralText(d: string, y: string)
    requires forall c :: c in y ==> Neutral(c)
    ensures Top(d + y) == Top(d)
  {
    hide EndOf;
    if y == "" {
      assert d + y == d;
    } else {
      var z := y[..|y| - 1];
      NeutralText(d, z);
      assert y[|y| - 1] in y;
      NeutralEnd(d + z, y[|y| - 1], false, NoQuote, 0);
      assert d + y == (d + z) + [y[|y| - 1]];
    }
  }

  const MARK := " !important"

  lemma EmphasizedEnd(d: string)
    ensures Top(Emphasized(d)) == Top(d)
    ensures EndsImportant(Emphasized(d))
    ensures Trim(d) == d && d != "" ==> Emphasized(d) != "" && Trim(Emphasized(d)) == Emphasized(d)
  {
    hide Top, Trim, EndsImportant;
    if !EndsImportant(d) {
      NeutralText(d, MARK);
      MarkEnds(d);
      if Trim(d) == d && d != "" {
        TrimmedFirst(d);
        TrimPadded("", d + MARK, "");
        assert "" + (d + MARK) + "" == d + MARK;
      }
    }
  }

  lemma TrimmedFirst(d: string)
    requires Trim(d) == d && d != ""
    ensures !IsSpace(d[0])
  {
    var l := TrimLeft(d);
    assert TrimRight(l) <= l;
    assert l[0] == d[0];
  }

  lemma MarkEnds(d: string)
    ensures EndsImportant(d + MARK)
  {
    var e := d + MARK;
    var n := |e| - 9;
    assert e[n..] == "important" && e[..n] == d + " !";
    TrimRightPadded(d + " !", "");
    assert d + " !" + "" == d + " !";
  }

  /** A finished declaration: visible at both ends, and marked. */
  predicate Finished(d: string) {
    d != "" && Trim(d) == d && EndsImportant(d)
  }

  lemma TrimTwice(d: string)
    ensures Trim(Trim(d)) == Trim(d)
    ensures Top(Trim(d)) == Top(d)
  {
    hide Top;
    var l := TrimLeft(d);
    var t := TrimRight(l);
    TrimLeftEnd(d);
    TrimRightEnd(l);
    if t != "" {
      assert t[0] == l[0];
      TrimPadded("", t, "");
      assert "" + t + "" == t;
    }
  }

  /** Trimming, dropping and marking keep pieces well cut. */
  lemma {:induction false} FinishKeeps(ds: seq<string>)
    requires WellCut(ds)
    ensures Finish(ds) != [] ==> WellCut(Finish(ds))
    ensures forall d :: d in Finish(ds) ==> Finished(d)
  {
    hide Top, Trim, Emphasized, EndsImportant;
    var d := Trim(ds[0]);
    TrimTwice(ds[0]);
    EmphasizedEnd(d);
    var rest := Finish(ds[1..]);
    if |ds| == 1 {
      assert ds[1..] == [];
    } else {
      FinishKeeps(ds[1..]);
    }
    if d != "" {
      var e := [Emphasized(d)] + rest;
      assert Finish(ds) == e && e[1..] == rest;
    } else {
      assert Finish(ds) == rest;
    }
  }

  lemma {:induction false} FinishedStays(ds: seq<string>)
    requires forall d :: d in ds ==> Finished(d)
    ensures Finish(ds) == ds
  {
    hide Trim, EndsImportant;
    if ds != [] {
      assert ds[0] in ds;
      FinishedStays(ds[1..]);
      assert ds == [ds[0]] + ds[1..];
    }
  }

  /** The declarations of any style text: marked, visible, and cut only outside strings, parentheses, unquoted
      urls and comments. */
  lemma DeclarationsAreFinished(css: string)
    ensures Declarations(css) != [] ==> WellCut(Declarations(css))
    ensures forall d :: d in Declarations(css) ==> Finished(d)
  {
    hide Clean, Split, Strip, Finish, WellCut;
    StripIsClean(css, false, NoQuote);
    SplitIsWellCut(Strip(css, false, NoQuote));
    FinishKeeps(Split(Strip(css, false, NoQuote), false, NoQuote, 0));
  }

  /** What `importantify` wrote holds exactly those declarations, and doing it again changes nothing. */
  lemma ImportantifyIsIdempotent(css: string)
    ensures Declarations(Importantified(css)) == Declarations(css)
    ensures Importantified(Importantified(css)) == Importantified(css)
    ensures Clean(Importantified(css), false, NoQuote)
  {
    hide Clean, Split, Strip, WellCut, Join;
    var ds := Declarations(css);
    DeclarationsAreFinished(css);
    if ds == [] {
      NothingLeft();
    } else {
      JoinThenSplit(ds);
      CleanStripsToItself(Join(ds), false, NoQuote);
      FinishedStays(ds);
    }
  }

  lemma NothingLeft()
    ensures Join([]) == "" && Declarations("") == [] && Clean("", false, NoQuote)
  {
    assert Split("", false, NoQuote, 0) == [""];
  }

  // ---------------------------------------------------------------- what comments and declarations become

  /** Scanning s meets no comment and ends outside strings and urls. */
  predicate Settled(s: string, ident: bool, q: Quote)
    decreases |s|
  {
    if s == "" then q.NoQuote?
    else
      var n := Next(s, ident, q, 0);
      && !(q.NoQuote? && CommentHead(s)) && !(q.NoQuote? && UrlLen(s, ident) > 0 && !UrlClosed(s))
      && Settled(s[n.len..], IdentChar(s[n.len - 1]), n.quote)
  }

  ghost predicate HoldsMark(c: string) {
    exists i :: MarkAt(c, i)
  }

  predicate MarkAt(c: string, i: int) {
    0 <= i < |c| - 1 && c[i] == '*' && c[i + 1] == '/'
  }

  lemma NoMarkBehind(c: string)
    requires c != ""
    ensures HoldsMark(c[1..]) ==> HoldsMark(c)
  {
    if i :| MarkAt(c[1..], i) {
      assert MarkAt(c, i + 1);
    }
  }

  lemma {:induction false} CommentEndsAt(c: string, b: string)
    requires !HoldsMark(c)
    ensures ToCommentEnd(c + ("*/" + b)) == |c| + 2
    decreases |c|
  {
    var t := c + ("*/" + b);
    if c == "" {
      assert t == "*/" + b;
    } else {
      assert t[1..] == c[1..] + ("*/" + b);
      assert |c| > 1 ==> t[0] == c[0] && t[1] == c[1];
      NoMarkBehind(c);
      assert !MarkAt(c, 0);
      CommentEndsAt(c[1..], b);
    }
  }

  lemma {:induction false} OpenCommentEnds(c: string)
    requires !HoldsMark(c)
    ensures ToCommentEnd(c) == |c|
  {
    if |c| >= 2 {
      NoMarkBehind(c);
      assert !MarkAt(c, 0);
      OpenCommentEnds(c[1..]);
    }
  }

  lemma SameBefore(d: string, z: string, ident: bool, q: Quote)
    requires d != "" && z != "" && z[0] == '/' && Settled(d, ident, q)
    ensures Next(d + z, ident, q, 0) == Next(d, ident, q, 0) && !(q.NoQuote? && CommentHead(d + z))
  {
    hide UrlLen, UrlClosed, CommentHead, IdentChar;
    HeadMore(d, z);
    if q.NoQuote? {
      if UrlLen(d, ident) == 0 {
        NoUrlMore(d, ident, z);
      } else {
        ClosedUrlMore(d, ident, z);
      }
    } else if |d| == 1 && d[0] == '\\' {
      StillOpen(ident, q);
    }
  }

  lemma StillOpen(ident: bool, q: Quote)
    requires !q.NoQuote?
    ensures !Settled("\\", ident, q)
  {}

  lemma NoneSettled(ident: bool, q: Quote)
    ensures Settled("", ident, q) <==> q.NoQuote?
  {}

  lemma SettledOn(s: string, ident: bool, q: Quote)
    requires s != "" && Settled(s, ident, q)
    ensures var n := Next(s, ident, q, 0); Settled(s[n.len..], IdentChar(s[n.len - 1]), n.quote)
  {
    hide Next, IdentChar;
  }

  lemma StripOn(s: string, ident: bool, q: Quote)
    requires s != "" && !(q.NoQuote? && CommentHead(s))
    ensures var n := Next(s, ident, q, 0);
      Strip(s, ident, q) == s[..n.len] + Strip(s[n.len..], IdentChar(s[n.len - 1]), n.quote)
  {
    hide Next, IdentChar, CommentHead;
  }

  lemma {:induction false} StrippedBefore(a: string, z: string, ident: bool, q: Quote, stripped: string)
    requires Settled(a, ident, q) && |z| >= 2 && z[0] == '/' && z[1] == '*'
    requires forall b: bool :: Strip(z, b, NoQuote) == stripped
    ensures Strip(a + z, ident, q) == a + stripped
    decreases |a|
  {
    hide Next, UrlLen, UrlClosed, CommentHead, IdentChar, Strip, Settled;
    if a == "" {
      NoneSettled(ident, q);
      assert a + z == z && a + stripped == stripped;
    } else {
      SameBefore(a, z, ident, q);
      SettledOn(a, ident, q);
      StripOn(a + z, ident, q);
      var n := Next(a, ident, q, 0);
      RestOfSum(a, z, n.len);
      StrippedBefore(a[n.len..], z, IdentChar(a[n.len - 1]), n.quote, stripped);
      assert a[..n.len] + (a[n.len..] + stripped) == a + stripped;
    }
  }

  /** A comment becomes one space: what stands before and after it is stripped as if it stood alone. */
  lemma CommentBecomesSpace(a: string, c: string, b: string)
    requires Settled(a, false, NoQuote) && !HoldsMark(c)
    ensures Strip(a + ("/*" + (c + ("*/" + b))), false, NoQuote) == a + (" " + Strip(b, false, NoQuote))
  {
    hide Strip;
    var z := "/*" + (c + ("*/" + b));
    assert z[2..] == c + ("*/" + b);
    CommentEndsAt(c, b);
    assert CommentLen(z) == |c| + 4 && z[|c| + 4..] == b;
    forall i: bool ensures Strip(z, i, NoQuote) == " " + Strip(b, false, NoQuote) {
      StripsComment(z, i);
    }
    StrippedBefore(a, z, false, NoQuote, " " + Strip(b, false, NoQuote));
  }

  /** A comment that is not closed takes all that follows. */
  lemma OpenCommentBecomesSpace(a: string, c: string)
    requires Settled(a, false, NoQuote) && !HoldsMark(c)
    ensures Strip(a + ("/*" + c), false, NoQuote) == a + " "
  {
    hide Strip;
    var z := "/*" + c;
    assert z[2..] == c;
    OpenCommentEnds(c);
    assert z[CommentLen(z)..] == "";
    forall i: bool ensures Strip(z, i, NoQuote) == " " {
      StripsComment(z, i);
      StripEmpty(false, NoQuote);
    }
    StrippedBefore(a, z, false, NoQuote, " ");
  }

  lemma StripsComment(z: string, ident: bool)
    requires CommentHead(z)
    ensures Strip(z, ident, NoQuote) == " " + Strip(z[CommentLen(z)..], false, NoQuote)
  {
    hide CommentLen;
  }

  /** The pieces that are not all white space. */
  function Visible(ds: seq<string>): seq<string> {
    if ds == [] then []
    else if forall i :: 0 <= i < |ds[0]| ==> IsSpace(ds[0][i]) then Visible(ds[1..])
    else [ds[0]] + Visible(ds[1..])
  }

  ghost predicate Trims(d: string, t: string) {
    && t != "" && !IsSpace(t[0]) && !IsSpace(t[|t| - 1])
    && exists pre, post :: AllSpace(pre) && AllSpace(post) && d == pre + t + post
  }

  /** The declaration is the piece, trimmed, with the mark added unless it is there. */
  ghost predicate Declares(declaration: string, piece: string) {
    exists t :: Trims(piece, t) && declaration == if Marked(t) then t else t + " !important"
  }

  /** An exclamation mark, white space and the word, in either case, end the text. */
  predicate Marked(t: string) {
    exists i :: 0 <= i <= |t| - 10 && t[i] == '!' && (forall j :: i < j < |t| - 9 ==> IsSpace(t[j])) && SpellsImportant(t)
  }

  predicate SpellsImportant(t: string) {
    |t| >= 9 && forall i :: 0 <= i < 9 ==> t[|t| - 9 + i] == "important"[i] || t[|t| - 9 + i] == "IMPORTANT"[i]
  }

  lemma SpellsIff(t: string)
    requires |t| >= 9
    ensures SpellsImportant(t) <==> LowerAll(t[|t| - 9..]) == "important"
  {
    var w := t[|t| - 9..];
    assert forall i :: 0 <= i < 9 ==> w[i] == t[|t| - 9 + i];
    forall i | 0 <= i < 9 ensures Lower(w[i]) == "important"[i] <==> w[i] == "important"[i] || w[i] == "IMPORTANT"[i] {
      LetterIff(w[i], i);
    }
    assert forall i :: 0 <= i < 9 ==> LowerAll(w)[i] == Lower(w[i]);
  }

  lemma LetterIff(c: char, i: nat)
    requires i < 9
    ensures Lower(c) == "important"[i] <==> c == "important"[i] || c == "IMPORTANT"[i]
  {
    assert "IMPORTANT"[i] == (if 'a' <= "important"[i] <= 'z' then "important"[i] - ' ' else 'x');
  }

  predicate MarkAtEnd(head: string, i: int) {
    0 <= i < |head| && head[i] == '!' && forall j :: i < j < |head| ==> IsSpace(head[j])
  }

  lemma EndMark(head: string)
    ensures var r := TrimRight(head); (r != "" && r[|r| - 1] == '!') <==> exists i :: MarkAtEnd(head, i)
  {
    hide TrimRight, IsSpace;
    var r := TrimRight(head);
    if r != "" && r[|r| - 1] == '!' {
      assert forall j :: |r| <= j < |head| ==> head[j] == head[|r|..][j - |r|] && head[|r|..][j - |r|] in head[|r|..];
      assert MarkAtEnd(head, |r| - 1);
    }
    if i :| MarkAtEnd(head, i) {
      MarkIsVisible();
      assert head == head[..i + 1] + head[i + 1..];
      TrimRightPadded(head[..i + 1], head[i + 1..]);
    }
  }

  lemma MarkedIff(t: string)
    ensures Marked(t) <==> EndsImportant(t)
  {
    hide SpellsImportant, LowerAll, TrimRight, IsSpace;
    if |t| >= 9 {
      SpellsIff(t);
      var head := t[..|t| - 9];
      EndMark(head);
      MarkInHead(t, head);
    }
  }

  lemma MarkInHead(t: string, head: string)
    requires |t| >= 9 && head == t[..|t| - 9]
    ensures Marked(t) <==> SpellsImportant(t) && exists i :: MarkAtEnd(head, i)
  {
    hide SpellsImportant, IsSpace;
    if Marked(t) {
      var i :| 0 <= i <= |t| - 10 && t[i] == '!' && (forall j :: i < j < |t| - 9 ==> IsSpace(t[j])) && SpellsImportant(t);
      assert MarkAtEnd(head, i);
    }
    if i :| MarkAtEnd(head, i) {
      assert forall j :: i < j < |t| - 9 ==> head[j] == t[j];
      assert t[i] == '!';
    }
  }

  lemma MarkIsVisible()
    ensures !IsSpace('!')
  {}

  lemma TrimsAre(d: string)
    ensures Trim(d) == "" <==> forall i :: 0 <= i < |d| ==> IsSpace(d[i])
    ensures Trim(d) != "" ==> Trims(d, Trim(d))
  {
    hide IsSpace, TrimRight, TrimLeft;
    var l := TrimLeft(d);
    var pre := LeftTrimmed(d);
    var t := TrimRight(l);
    assert l == t + l[|t|..];
    assert d == pre + t + l[|t|..];
    if t == "" {
      assert l[|t|..] == l;
      assert l == "";
      assert forall i :: 0 <= i < |d| ==> d[i] in pre;
    } else {
      assert d[|pre|] == t[0] == l[0];
    }
  }

  lemma {:induction false} LeftTrimmed(d: string) returns (pre: string)
    ensures AllSpace(pre) && d == pre + TrimLeft(d)
  {
    hide TrimLeft, IsSpace, AllSpace;
    TrimLeftStep(d);
    if d != "" && IsSpace(d[0]) {
      var rest := LeftTrimmed(d[1..]);
      pre := [d[0]] + rest;
      SpaceBefore(d[0], rest);
      assert d == [d[0]] + d[1..];
    } else {
      pre := "";
      NoSpaceNeeded();
    }
  }

  lemma TrimLeftStep(d: string)
    ensures TrimLeft(d) == if d != "" && IsSpace(d[0]) then TrimLeft(d[1..]) else d
  {
    hide IsSpace;
  }

  lemma SpaceBefore(c: char, s: string)
    requires IsSpace(c) && AllSpace(s)
    ensures AllSpace([c] + s)
  {
    hide IsSpace;
  }

  lemma NoSpaceNeeded()
    ensures AllSpace("")
  {}

  lemma FirstDeclares(d: string)
    requires Trim(d) != ""
    ensures Declares(Emphasized(Trim(d)), d)
  {
    hide Trim, Trims, Marked, EndsImportant, IsSpace;
    TrimsAre(d);
    MarkedIff(Trim(d));
  }

  lemma {:induction false} FinishIs(ds: seq<string>)
    ensures |Finish(ds)| == |Visible(ds)|
    ensures forall k :: 0 <= k < |Visible(ds)| ==> Declares(Finish(ds)[k], Visible(ds)[k])
  {
    hide Trim, Declares, Emphasized, IsSpace;
    if ds != [] {
      FinishIs(ds[1..]);
      TrimsAre(ds[0]);
      if Trim(ds[0]) != "" {
        FirstDeclares(ds[0]);
        assert Visible(ds) == [ds[0]] + Visible(ds[1..]) && Finish(ds) == [Emphasized(Trim(ds[0]))] + Finish(ds[1..]);
      }
    }
  }

  /** Every piece that is not all white space gives one declaration, in order: the piece trimmed, with the mark added
      unless it is there. */
  lemma DeclarationsAre(css: string)
    ensures var pieces := Visible(Split(Strip(css, false, NoQuote), false, NoQuote, 0));
      && |Declarations(css)| == |pieces|
      && forall k :: 0 <= k < |pieces| ==> Declares(Declarations(css)[k], pieces[k])
  {
    hide Split, Strip, Finish, Visible, Declares;
    FinishIs(Split(Strip(css, false, NoQuote), false, NoQuote, 0));
  }
}
