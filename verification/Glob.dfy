/** The allowed-path globs of the definition-of-done court, compiled to regular expressions. */
module Glob {
  import opened Text

  // ---------------------------------------------------------------- regular expressions

  datatype CharSet = Exactly(c: char) | Dot | NotSlash

  /** `.` leaves out the newline; `[^/]` leaves out only the slash. */
  predicate In(c: char, set_: CharSet) {
    match set_
    case Exactly(d) => c == d
    case Dot => c != '\n'
    case NotSlash => c != '/'
  }

  datatype Re = Nothing | One(set_: CharSet) | Star(set_: CharSet) | Cat(first: Re, rest: Re) | Opt(group: Re)

  ghost predicate Accepts(r: Re, s: string) {
    match r
    case Nothing => s == ""
    case One(x) => |s| == 1 && In(s[0], x)
    case Star(x) => forall c :: c in s ==> In(c, x)
    case Cat(a, b) => exists k :: 0 <= k <= |s| && Accepts(a, s[..k]) && Accepts(b, s[k..])
    case Opt(g) => s == "" || Accepts(g, s)
  }

  function Sequence(pieces: seq<Re>): Re {
    if pieces == [] then Nothing else Cat(pieces[0], Sequence(pieces[1..]))
  }

  /** `re.compile("^...$").match(path)`: the `$` also stands before a final newline. */
  ghost predicate Matches(pieces: seq<Re>, path: string) {
    || Accepts(Sequence(pieces), path)
    || (path != "" && path[|path| - 1] == '\n' && Accepts(Sequence(pieces), path[..|path| - 1]))
  }

  // ---------------------------------------------------------------- the compiler

  // (?:.*/)? -- any directories, or none
  const DIRECTORIES := Opt(Cat(Star(Dot), One(Exactly('/'))))

  /** What the pattern from its start compiles to: the piece, and how much of the pattern it takes. */
  function Piece(p: string): (r: (Re, nat))
    requires p != ""
    ensures 0 < r.1 <= |p|
  {
    if "**/" <= p then (DIRECTORIES, 3)
    else if "**" <= p then (Star(Dot), 2)
    else if p[0] == '*' then (Star(NotSlash), 1)
    else if p[0] == '?' then (One(NotSlash), 1)
    else (One(Exactly(p[0])), 1)
  }

  function Pieces(p: string): seq<Re> {
    if p == "" then [] else [Piece(p).0] + Pieces(p[Piece(p).1..])
  }

  predicate StartsWith(s: string, prefix: string, i: nat)
    requires i <= |s|
    ensures StartsWith(s, prefix, i) == (prefix <= s[i..])
  {
    assert i + |prefix| <= |s| ==> s[i..i + |prefix|] == s[i..][..|prefix|];
    i + |prefix| <= |s| && s[i..i + |prefix|] == prefix
  }

  lemma PiecesUnfold(pattern: string, i: nat, out: seq<Re>)
    requires i <= |pattern|
    ensures i == |pattern| ==> Pieces(pattern[i..]) == []
    ensures i < |pattern| ==> var x := Piece(pattern[i..]);
      out + Pieces(pattern[i..]) == (out + [x.0]) + Pieces(pattern[i + x.1..])
  {
    if i < |pattern| {
      var p := pattern[i..];
      assert p[Piece(p).1..] == pattern[i + Piece(p).1..];
    }
  }

  method GlobToRe(pattern: string) returns (out: seq<Re>)
    ensures out == Pieces(pattern)
  {
    hide Pieces;
    out := [];
    var i := 0;
    PiecesUnfold(pattern, |pattern|, []);
    assert pattern[0..] == pattern;
    while i < |pattern|
      invariant i <= |pattern|
      invariant out + Pieces(pattern[i..]) == Pieces(pattern)
    {
      PiecesUnfold(pattern, i, out);
      if StartsWith(pattern, "**/", i) {
        out, i := out + [DIRECTORIES], i + 3;
      } else if StartsWith(pattern, "**", i) {
        out, i := out + [Star(Dot)], i + 2;
      } else if pattern[i] == '*' {
        out, i := out + [Star(NotSlash)], i + 1;
      } else if pattern[i] == '?' {
        out, i := out + [One(NotSlash)], i + 1;
      } else {
        out, i := out + [One(Exactly(pattern[i]))], i + 1;
      }
    }
  }

  // ---------------------------------------------------------------- component by component

  /** One pattern component against one path component. */
  ghost predicate ComponentMatches(p: string, c: string) {
    if p == "" then c == ""
    else if p[0] == '*' then exists k :: 0 <= k <= |c| && ComponentMatches(p[1..], c[k..])
    else c != "" && (p[0] == '?' || p[0] == c[0]) && ComponentMatches(p[1..], c[1..])
  }

  predicate OneLine(s: string) {
    '\n' !in s
  }

  ghost predicate OneLines(cs: seq<string>) {
    forall c :: c in cs ==> OneLine(c)
  }

  /** A final double star stands for one or more components, any other for zero or more, none of them
      with a newline; the remaining pattern components stand for one component each. */
  ghost predicate PathMatches(ps: seq<string>, cs: seq<string>) {
    if ps == [] then cs == []
    else if ps[0] == "**" then
      if |ps| == 1 then cs != [] && OneLines(cs)
      else exists k :: 0 <= k <= |cs| && OneLines(cs[..k]) && PathMatches(ps[1..], cs[k..])
    else cs != [] && ComponentMatches(ps[0], cs[0]) && PathMatches(ps[1..], cs[1..])
  }

  /** No two stars next to each other. */
  ghost predicate SingleStars(p: string) {
    forall i :: 0 <= i < |p| - 1 && p[i] == '*' ==> p[i + 1] != '*'
  }

  /** A double star appears only as a whole component. */
  ghost predicate WholeStars(ps: seq<string>) {
    forall p :: p in ps ==> p == "**" || SingleStars(p)
  }

  // ---------------------------------------------------------------- cutting paths

  /** Any proper prefix of the components ends at a slash. */
  lemma {:induction false} PrefixEndsAtSlash(s: string, k: nat) returns (m: nat)
    requires 0 < k < |Components(s)|
    ensures m < |s| && s[m] == '/'
    ensures Components(s[..m]) == Components(s)[..k] && Components(s[m + 1..]) == Components(s)[k..]
    decreases |s|
  {
    hide Components;
    var j := FirstSlash(s);
    ComponentsStep(s);
    if k == 1 {
      m := j;
    } else {
      var t := s[j + 1..];
      var n := PrefixEndsAtSlash(t, k - 1);
      m := j + 1 + n;
      assert s[..m] == s[..j] + "/" + t[..n];
      ComponentsCut(s[..j], t[..n]);
      assert s[m + 1..] == t[n + 1..];
    }
  }

  lemma {:induction false} OneLineComponents(s: string)
    ensures OneLines(Components(s)) <==> OneLine(s)
    decreases |s|
  {
    var k := FirstSlash(s);
    if k < |s| {
      OneLineComponents(s[k + 1..]);
      assert s == s[..k] + "/" + s[k + 1..];
      assert OneLine(s) <==> OneLine(s[..k]) && OneLine(s[k + 1..]);
    }
  }

  // ---------------------------------------------------------------- the compiler is correct

  lemma AcceptsHead(r: Re, pieces: seq<Re>, s: string)
    ensures Accepts(Sequence([r] + pieces), s)
        <==> exists k :: 0 <= k <= |s| && Accepts(r, s[..k]) && Accepts(Sequence(pieces), s[k..])
  {
    assert ([r] + pieces)[1..] == pieces;
  }

  lemma AcceptsOne(x: CharSet, pieces: seq<Re>, s: string)
    ensures Accepts(Sequence([One(x)] + pieces), s)
        <==> s != "" && In(s[0], x) && Accepts(Sequence(pieces), s[1..])
  {
    AcceptsHead(One(x), pieces, s);
    if s != "" {
      assert Accepts(One(x), s[..1]) <==> In(s[0], x);
    }
  }

  lemma AcceptsAny(x: CharSet, pieces: seq<Re>, s: string)
    ensures Accepts(Sequence([Star(x)] + pieces), s)
        <==> exists k :: 0 <= k <= |s| && (forall c :: c in s[..k] ==> In(c, x)) && Accepts(Sequence(pieces), s[k..])
  {
    AcceptsHead(Star(x), pieces, s);
  }

  /** No directories, or everything up to some slash. */
  lemma AcceptsDirectories(pieces: seq<Re>, s: string)
    ensures Accepts(Sequence([DIRECTORIES] + pieces), s)
        <==> (Accepts(Sequence(pieces), s)
              || exists m :: 0 <= m < |s| && s[m] == '/' && OneLine(s[..m]) && Accepts(Sequence(pieces), s[m + 1..]))
  {
    hide Sequence, Accepts;
    AcceptsHead(DIRECTORIES, pieces, s);
    if Accepts(Sequence(pieces), s) {
      AcceptsGroup(s, 0);
      assert s[0..] == s;
    }
    forall k | 0 <= k <= |s| ensures Accepts(DIRECTORIES, s[..k]) <==> k == 0 || (s[k - 1] == '/' && OneLine(s[..k - 1])) {
      AcceptsGroup(s, k);
    }
    if m :| 0 <= m < |s| && s[m] == '/' && OneLine(s[..m]) && Accepts(Sequence(pieces), s[m + 1..]) {
      assert Accepts(DIRECTORIES, s[..m + 1]);
    }
    if k :| 0 < k <= |s| && Accepts(DIRECTORIES, s[..k]) && Accepts(Sequence(pieces), s[k..]) {
      var m := k - 1;
      assert s[m] == '/' && OneLine(s[..m]) && Accepts(Sequence(pieces), s[m + 1..]);
    }
  }

  lemma AcceptsGroup(s: string, k: nat)
    requires k <= |s|
    ensures Accepts(DIRECTORIES, s[..k]) <==> k == 0 || (s[k - 1] == '/' && OneLine(s[..k - 1]))
  {
    var t := s[..k];
    if k > 0 {
      var m := k - 1;
      assert t[..m] == s[..m] && t[m..] == [s[m]];
      var any, slash := Star(Dot), One(Exactly('/'));
      assert Accepts(any, t[..m]) <==> OneLine(s[..m]);
      assert Accepts(slash, t[m..]) <==> s[m] == '/';
      if j :| 0 <= j <= |t| && Accepts(any, t[..j]) && Accepts(slash, t[j..]) {
        assert j == m;
      }
      assert Accepts(Cat(any, slash), t) <==> Accepts(any, t[..m]) && Accepts(slash, t[m..]);
      assert Accepts(Opt(Cat(any, slash)), t) <==> Accepts(Cat(any, slash), t);
    }
  }

  /** A component without double stars, compiled, takes a slash-free stretch that matches it. */
  ghost predicate Takes(p: string, rest: seq<Re>, s: string, j: int) {
    0 <= j <= |s| && '/' !in s[..j] && ComponentMatches(p, s[..j]) && Accepts(Sequence(rest), s[j..])
  }

  lemma {:induction false} CompiledComponent(p: string, rest: seq<Re>, s: string)
    requires '/' !in p && SingleStars(p)
    ensures Accepts(Sequence(Pieces(p) + rest), s) <==> exists j :: Takes(p, rest, s, j)
    decreases |p|, 1
  {
    if p == "" {
      assert Pieces(p) + rest == rest;
      assert s[..0] == "" && s[0..] == s;
      assert Accepts(Sequence(rest), s) ==> Takes(p, rest, s, 0);
    } else {
      var q := p[1..];
      var x := Piece(p).0;
      SinglePiece(p);
      assert Pieces(p) + rest == [x] + (Pieces(q) + rest);
      assert SingleStars(q);
      if p[0] == '*' {
        StarComponent(p, rest, s);
      } else {
        OneComponent(p, rest, s);
      }
    }
  }

  lemma SinglePiece(p: string)
    requires p != "" && SingleStars(p)
    ensures Piece(p) == (if p[0] == '*' then Star(NotSlash) else if p[0] == '?' then One(NotSlash) else One(Exactly(p[0])), 1)
  {
    assert |p| >= 2 && p[0] == '*' ==> p[1] != '*';
  }

  lemma StarTakes(p: string, rest: seq<Re>, s: string, k: nat, j: int)
    requires p != "" && p[0] == '*' && k <= |s| && '/' !in s[..k] && Takes(p[1..], rest, s[k..], j)
    ensures Takes(p, rest, s, k + j)
  {
    hide Accepts;
    assert s[..k + j] == s[..k] + s[k..][..j];
    assert s[..k + j][k..] == s[k..][..j];
    assert s[k..][j..] == s[k + j..];
  }

  lemma StarTook(p: string, rest: seq<Re>, s: string, j: int) returns (k: nat)
    requires p != "" && p[0] == '*' && Takes(p, rest, s, j)
    ensures k <= |s| && '/' !in s[..k] && Takes(p[1..], rest, s[k..], j - k)
  {
    hide Accepts;
    k :| 0 <= k <= j && ComponentMatches(p[1..], s[..j][k..]);
    assert s[..j][k..] == s[k..][..j - k] && s[k..][j - k..] == s[j..];
    assert s[..k] == s[..j][..k];
  }

  lemma {:induction false} StarComponent(p: string, rest: seq<Re>, s: string)
    requires '/' !in p && SingleStars(p) && p != "" && p[0] == '*' && SingleStars(p[1..])
    requires Pieces(p) + rest == [Star(NotSlash)] + (Pieces(p[1..]) + rest)
    ensures Accepts(Sequence(Pieces(p) + rest), s) <==> exists j :: Takes(p, rest, s, j)
    decreases |p|, 0
  {
    hide Pieces, Sequence, Accepts, Takes;
    var more := Pieces(p[1..]) + rest;
    AcceptsAny(NotSlash, more, s);
    if Accepts(Sequence(Pieces(p) + rest), s) {
      var k :| 0 <= k <= |s| && (forall c :: c in s[..k] ==> In(c, NotSlash)) && Accepts(Sequence(more), s[k..]);
      CompiledComponent(p[1..], rest, s[k..]);
      var j :| Takes(p[1..], rest, s[k..], j);
      StarTakes(p, rest, s, k, j);
    }
    if j :| Takes(p, rest, s, j) {
      var k := StarTook(p, rest, s, j);
      CompiledComponent(p[1..], rest, s[k..]);
    }
  }

  lemma {:induction false} OneComponent(p: string, rest: seq<Re>, s: string)
    requires '/' !in p && SingleStars(p) && p != "" && p[0] != '*' && SingleStars(p[1..])
    requires Pieces(p) + rest == [Piece(p).0] + (Pieces(p[1..]) + rest)
    ensures Accepts(Sequence(Pieces(p) + rest), s) <==> exists j :: Takes(p, rest, s, j)
    decreases |p|, 0
  {
    hide Pieces, Sequence, Accepts;
    var q := p[1..];
    var more := Pieces(q) + rest;
    AcceptsOne(Piece(p).0.set_, more, s);
    if s != "" {
      CompiledComponent(q, rest, s[1..]);
      forall j | Takes(q, rest, s[1..], j) && In(s[0], Piece(p).0.set_) ensures Takes(p, rest, s, j + 1) {
        assert s[..j + 1] == [s[0]] + s[1..][..j];
        assert s[..j + 1][1..] == s[1..][..j];
        assert s[1..][j..] == s[j + 1..];
      }
      forall j | Takes(p, rest, s, j) ensures Takes(q, rest, s[1..], j - 1) {
        assert s[..j][1..] == s[1..][..j - 1] && s[1..][j - 1..] == s[j..];
      }
    }
  }

  /** A component without double stars compiles by itself. */
  lemma {:induction false} PiecesOfComponent(p: string, more: string)
    requires '/' !in p && SingleStars(p)
    ensures Pieces(p + "/" + more) == Pieces(p) + ([One(Exactly('/'))] + Pieces(more))
    decreases |p|
  {
    var t := p + "/" + more;
    if p == "" {
      assert t == "/" + more && t[1..] == more;
      SinglePiece("/");
      assert Piece(t) == (One(Exactly('/')), 1);
    } else {
      SinglePiece(p);
      assert Piece(t) == Piece(p) by {
        assert t[0] == p[0];
        assert |t| >= 2 && (|p| >= 2 ==> t[1] == p[1]) && (|p| == 1 ==> t[1] == '/');
      }
      assert t[1..] == p[1..] + "/" + more;
      PiecesOfComponent(p[1..], more);
    }
  }

  /** The compiled pattern accepts a path exactly when the components match. */
  lemma {:induction false} CompiledPath(p: string, s: string)
    requires WholeStars(Components(p))
    ensures Accepts(Sequence(Pieces(p)), s) <==> PathMatches(Components(p), Components(s))
    decreases |p|, 1
  {
    hide Accepts, Sequence, Pieces, PathMatches, Components;
    var k := FirstSlash(p);
    ComponentsStep(p);
    assert Components(p)[0] == p[..k];
    if p[..k] == "**" {
      if k == |p| {
        LastStars(s);
        assert p == "**";
      } else {
        assert p == "**/" + p[k + 1..];
        LeadingStars(p[k + 1..], s);
      }
    } else if k == |p| {
      LastComponent(p, s);
    } else {
      assert p == p[..k] + "/" + p[k + 1..];
      LeadingComponent(p[..k], p[k + 1..], s);
    }
  }

  lemma LastStars(s: string)
    ensures Accepts(Sequence(Pieces("**")), s) <==> PathMatches(["**"], Components(s))
  {
    hide Components;
    assert Pieces("**") == [Star(Dot)] + [] by {
      assert "**"[2..] == "";
    }
    AcceptsAny(Dot, [], s);
    OneLineComponents(s);
    assert s[..|s|] == s && s[|s|..] == "";
    assert OneLine(s) <==> forall c :: c in s[..|s|] ==> In(c, Dot);
  }

  lemma LastComponent(p: string, s: string)
    requires '/' !in p && SingleStars(p) && p != "**"
    ensures Accepts(Sequence(Pieces(p)), s) <==> PathMatches([p], Components(s))
  {
    hide Pieces, ComponentMatches;
    CompiledComponent(p, [], s);
    assert Pieces(p) + [] == Pieces(p);
    assert s[..|s|] == s && s[|s|..] == "";
    forall j | Takes(p, [], s, j) ensures j == |s| {}
    if '/' !in s {
      NoSlash(s);
      assert ComponentMatches(p, s) <==> Takes(p, [], s, |s|);
    } else {
      ComponentsStep(s);
    }
  }

  lemma {:induction false} LeadingComponent(p: string, more: string, s: string)
    requires '/' !in p && SingleStars(p) && p != "**" && WholeStars(Components(more))
    ensures Accepts(Sequence(Pieces(p + "/" + more)), s) <==> PathMatches([p] + Components(more), Components(s))
    decreases |p| + 1 + |more|, 0
  {
    hide Accepts, Sequence, Pieces, Components, ComponentMatches;
    var slash := [One(Exactly('/'))] + Pieces(more);
    PiecesOfComponent(p, more);
    CompiledComponent(p, slash, s);
    var j := FirstSlash(s);
    forall i | Takes(p, slash, s, i) ensures i == j && i < |s| {
      AcceptsOne(Exactly('/'), Pieces(more), s[i..]);
      assert s[i] == s[i..][0];
      FirstSlashIs(s, i);
    }
    ComponentsStep(s);
    var ps, cs := [p] + Components(more), Components(s);
    assert ps[1..] == Components(more);
    if j == |s| {
      assert cs[1..] == [];
      NothingLeft(Components(more));
    } else {
      assert cs[1..] == Components(s[j + 1..]);
      AcceptsOne(Exactly('/'), Pieces(more), s[j..]);
      assert s[j..][1..] == s[j + 1..];
      CompiledPath(more, s[j + 1..]);
      assert Takes(p, slash, s, j) <==> ComponentMatches(p, s[..j]) && Accepts(Sequence(Pieces(more)), s[j + 1..]);
    }
  }

  lemma {:induction false} LeadingStars(more: string, s: string)
    requires WholeStars(Components(more))
    ensures Accepts(Sequence(Pieces("**/" + more)), s) <==> PathMatches(["**"] + Components(more), Components(s))
    decreases |more| + 3, 0
  {
    hide Accepts, Sequence, Pieces, Components;
    StarsPieces(more);
    AcceptsDirectories(Pieces(more), s);
    var ps, cs := Components(more), Components(s);
    assert (["**"] + ps)[1..] == ps;
    CompiledPath(more, s);
    assert cs[0..] == cs && OneLines(cs[..0]);
    forall m | 0 <= m < |s| && s[m] == '/' && OneLine(s[..m]) && Accepts(Sequence(Pieces(more)), s[m + 1..])
      ensures PathMatches(["**"] + ps, cs)
    {
      CompiledPath(more, s[m + 1..]);
      CutAt(s, m);
      var k := |Components(s[..m])|;
      assert OneLines(cs[..k]) && PathMatches(ps, cs[k..]);
    }
    forall k | 0 < k <= |cs| && OneLines(cs[..k]) && PathMatches(ps, cs[k..])
      ensures exists m :: 0 <= m < |s| && s[m] == '/' && OneLine(s[..m]) && Accepts(Sequence(Pieces(more)), s[m + 1..])
    {
      if k == |cs| {
        NothingLeft(ps);
        assert false;
      } else {
        var m := PrefixEndsAtSlash(s, k);
        OneLineComponents(s[..m]);
        CompiledPath(more, s[m + 1..]);
      }
    }
  }

  lemma StarsPieces(more: string)
    ensures Pieces("**/" + more) == [DIRECTORIES] + Pieces(more)
  {
    assert ("**/" + more)[3..] == more;
  }

  lemma CutAt(s: string, m: nat)
    requires m < |s| && s[m] == '/' && OneLine(s[..m])
    ensures var k := |Components(s[..m])|;
      k <= |Components(s)| && OneLines(Components(s)[..k]) && Components(s)[k..] == Components(s[m + 1..])
  {
    hide Components;
    assert s == s[..m] + "/" + s[m + 1..];
    ComponentsCut(s[..m], s[m + 1..]);
    OneLineComponents(s[..m]);
  }

  lemma {:induction false} NothingLeft(ps: seq<string>)
    requires ps != []
    ensures !PathMatches(ps, [])
    decreases |ps|
  {
    if |ps| > 1 {
      NothingLeft(ps[1..]);
      var none: seq<string> := [];
      assert none[0..] == none;
    }
  }

  /** The glob means what its components say: for every pattern whose double stars are whole components, and
      every path; a final newline is the one character the regular expression overlooks. */
  lemma GlobMeaning(pattern: string, path: string)
    requires WholeStars(Components(pattern))
    ensures Matches(Pieces(pattern), path) <==>
      (PathMatches(Components(pattern), Components(path))
       || (path != "" && path[|path| - 1] == '\n'
           && PathMatches(Components(pattern), Components(path[..|path| - 1]))))
  {
    hide Accepts, Sequence, Pieces, PathMatches, Components, WholeStars;
    CompiledPath(pattern, path);
    if path != "" {
      CompiledPath(pattern, path[..|path| - 1]);
    }
  }

  /** The condition matters: a double star inside a component crosses slashes, which no component can. */
  lemma InnerStarsCross()
    ensures !WholeStars(Components("a**b"))
    ensures Matches(Pieces("a**b"), "a/b") && !PathMatches(Components("a**b"), Components("a/b"))
  {
    hide Accepts, Sequence, Pieces, Components, PathMatches;
    InnerPieces();
    NoSlash("a**b");
    assert "a**b" in Components("a**b") && "a**b"[1] == '*' && "a**b"[2] == '*';
    ComponentsCut("a", "b");
    NoSlash("a");
    NoSlash("b");
    assert "a/b" == "a" + "/" + "b" && Components("a/b") == ["a", "b"];
    TooManyComponents("a**b", "a", "b");
    var a, any, b := One(Exactly('a')), Star(Dot), One(Exactly('b'));
    AcceptsOne(Exactly('a'), [any] + ([b] + []), "a/b");
    AcceptsAny(Dot, [b] + [], "/b");
    AcceptsOne(Exactly('b'), [], "b");
    assert "a/b"[1..] == "/b" && "/b"[..1] == "/" && "/b"[1..] == "b" && "b"[1..] == "";
    AcceptsNothing();
  }

  lemma AcceptsNothing()
    ensures Accepts(Sequence([]), "")
  {}

  lemma TooManyComponents(p: string, c: string, d: string)
    requires p != "**"
    ensures !PathMatches([p], [c, d])
  {}

  lemma InnerPieces()
    ensures Pieces("a**b") == [One(Exactly('a'))] + ([Star(Dot)] + ([One(Exactly('b'))] + []))
  {
    var p := "a**b";
    assert p[1..] == "**b" && "**b"[2..] == "b" && "b"[1..] == "";
    assert Piece("b") == (One(Exactly('b')), 1);
    assert Piece("**b") == (Star(Dot), 2);
    assert Piece(p) == (One(Exactly('a')), 1);
    assert Pieces("b") == [One(Exactly('b'))] + [];
  }
}
