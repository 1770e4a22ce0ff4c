/** What resolving a pointer means for every text, which mutants apply, and which mutants a schema gets.

    Tokens stand for steps, keys of objects and indices of lists; a pointer resolves to the place its tokens lead to, and
    a mutant exchanges the object there. */
module PointerMeaning {
  import opened Text
  import opened Json
  import opened Common
  import opened Pointer

  // ---------------------------------------------------------------- tokens

  /** Reading a token in one pass: `~1` is a slash, `~0` a tilde, and any other tilde itself. */
  function Unescaped(raw: string): string {
    if "~1" <= raw then "/" + Unescaped(raw[2..])
    else if "~0" <= raw then "~" + Unescaped(raw[2..])
    else if raw == "" then ""
    else [raw[0]] + Unescaped(raw[1..])
  }

  lemma {:induction false} HalfHead(raw: string)
    ensures var half := Replace(raw, "~1", "/"); half != "" && half[0] == '0' ==> raw != "" && raw[0] == '0'
  {}

  lemma NoNewZero(c: char, rest: string, half: string)
    requires !("~0" <= [c] + rest) && (half != "" && half[0] == '0' ==> rest != "" && rest[0] == '0')
    ensures !("~0" <= [c] + half)
  {
    if half != "" && half[0] == '0' {
      assert [c] + rest == [c, '0'] + rest[1..];
    }
    assert half != "" ==> ([c] + half)[1] == half[0];
  }

  /** The two replacements, one after the other, are one pass. */
  lemma {:induction false} UnescapesInOnePass(raw: string)
    ensures UnescapeToken(raw) == Unescaped(raw)
    decreases |raw|
  {
    hide Replace;
    NothingReplaced("~1", "/");
    NothingReplaced("~0", "~");
    if "~1" <= raw {
      var rest := raw[2..];
      assert raw == ['~', '1'] + rest;
      UnescapesInOnePass(rest);
      ReplaceTwo('~', '1', rest, "~1", "/");
      NoPrefix("~0", ['/'] + Replace(rest, "~1", "/"));
      ReplaceOne('/', Replace(rest, "~1", "/"), "~0", "~");
    } else if "~0" <= raw {
      var rest := raw[2..];
      var half := Replace(rest, "~1", "/");
      assert raw == ['~', '0'] + rest;
      UnescapesInOnePass(rest);
      NoPrefix("~1", ['0'] + rest);
      ReplaceTwo('~', '0', rest, "~1", "/");
      ReplaceTwo('~', '0', half, "~0", "~");
    } else if raw != "" {
      var c, rest := raw[0], raw[1..];
      var half := Replace(rest, "~1", "/");
      assert raw == [c] + rest;
      UnescapesInOnePass(rest);
      ReplaceOne(c, rest, "~1", "/");
      HalfHead(rest);
      NoNewZero(c, rest, half);
      ReplaceOne(c, half, "~0", "~");
    }
  }

  // ---------------------------------------------------------------- integers

  predicate Spaces(s: string) {
    forall c :: c in s ==> IsPySpace(c)
  }

  predicate Zeros(s: string) {
    forall c :: c in s ==> c == '0'
  }

  /** Digits, each underscore between two of them. */
  predicate Grouped(ds: string) {
    ds != "" && forall i :: 0 <= i < |ds| ==> IsDigit(ds[i]) || Separates(ds, i)
  }

  predicate Separates(ds: string, i: nat) {
    0 < i < |ds| - 1 && ds[i] == '_' && IsDigit(ds[i - 1]) && IsDigit(ds[i + 1])
  }

  ghost predicate Signed(sign: string, ds: string, n: int) {
    && Grouped(ds) && (if sign == "-" then n <= 0 else (sign == "" || sign == "+") && n >= 0)
    && exists zeros :: Zeros(zeros) && DigitsOnly(ds) == zeros + Decimal(if n < 0 then -n else n)
  }

  /** The text is the number, with any sign, leading zeros, grouping and outer white space. */
  ghost predicate Denotes(text: string, n: int) {
    exists pre, sign, ds, post :: Spaces(pre) && Spaces(post) && Signed(sign, ds, n) && text == pre + (sign + ds) + post
  }

  lemma {:induction false} UnderscoreDrops(a: string, b: string)
    ensures DigitsOnly(a + ("_" + b)) == DigitsOnly(a) + DigitsOnly(b)
  {
    if a == "" {
      assert a + ("_" + b) == "_" + b && ("_" + b)[1..] == b;
    } else {
      assert (a + ("_" + b))[1..] == a[1..] + ("_" + b);
      UnderscoreDrops(a[1..], b);
    }
  }

  lemma {:induction false} ZerosDoNotCount(zeros: string, s: string)
    requires Zeros(zeros) && forall c :: c in s ==> IsDigit(c)
    ensures (forall c :: c in zeros + s ==> IsDigit(c)) && Value(zeros + s) == Value(s)
    decreases |zeros| + |s|
  {
    var t := zeros + s;
    if s != "" {
      assert t[..|t| - 1] == zeros + s[..|s| - 1];
      ZerosDoNotCount(zeros, s[..|s| - 1]);
    } else if zeros != "" {
      var fewer := zeros[..|zeros| - 1];
      assert zeros[|fewer|] in zeros && t == zeros && t[..|t| - 1] == fewer + s;
      assert forall c :: c in fewer ==> c in zeros;
      ZerosDoNotCount(fewer, s);
    }
  }

  lemma {:induction false} NoLeadingZero(s: string)
    requires s != "" && (forall c :: c in s ==> IsDigit(c)) && (s[0] != '0' || |s| == 1)
    ensures Decimal(Value(s)) == s && (s[0] != '0' ==> Value(s) > 0)
  {
    hide Decimal, Value;
    var front, last := s[..|s| - 1], s[|s| - 1];
    assert s[0] in s && last in s && s == front + [last];
    assert forall c :: c in front ==> c in s;
    LastDigit(front, last);
    if front != "" {
      NoLeadingZero(front);
    }
  }

  lemma LastDigit(front: string, last: char)
    requires (forall c :: c in front ==> IsDigit(c)) && IsDigit(last)
    ensures forall c :: c in front + [last] ==> IsDigit(c)
    ensures var d := last as int - '0' as int;
      && Value(front + [last]) == 10 * Value(front) + d && (front == "" ==> Value(front) == 0)
      && (front == "" ==> Decimal(d) == [last])
      && (Value(front) > 0 ==> Decimal(Value(front + [last])) == Decimal(Value(front)) + [last])
  {
    hide Decimal;
    var s := front + [last];
    assert s[..|s| - 1] == front && s[|s| - 1] == last;
    NumeralStep(Value(front), last);
  }

  lemma NumeralStep(v: nat, last: char)
    requires IsDigit(last)
    ensures var d := last as int - '0' as int;
      Decimal(d) == [last] && (v > 0 ==> Decimal(10 * v + d) == Decimal(v) + [last])
  {
    hide Decimal;
    var d := last as int - '0' as int;
    DigitOf(last);
    Tenfold(v, d);
    if v > 0 {
      DecimalStep(10 * v + d);
    }
  }

  lemma DecimalStep(n: nat)
    ensures Decimal(n) == if n < 10 then [DIGITS[n]] else Decimal(n / 10) + [DIGITS[n % 10]]
  {}

  lemma Tenfold(v: nat, d: nat)
    requires d < 10
    ensures (10 * v + d) / 10 == v && (10 * v + d) % 10 == d
  {}

  lemma DigitOf(c: char)
    requires IsDigit(c)
    ensures var d := c as int - '0' as int; DIGITS[d] == c && Decimal(d) == [c]
  {
    assert DIGITS[0] == '0' && DIGITS[1] == '1' && DIGITS[2] == '2' && DIGITS[3] == '3' && DIGITS[4] == '4';
    assert DIGITS[5] == '5' && DIGITS[6] == '6' && DIGITS[7] == '7' && DIGITS[8] == '8' && DIGITS[9] == '9';
  }

  /** Digits are leading zeros and the numeral of their value. */
  lemma {:induction false} DigitsDenote(s: string) returns (zeros: string)
    requires s != "" && forall c :: c in s ==> IsDigit(c)
    ensures Zeros(zeros) && s == zeros + Decimal(Value(s))
  {
    hide Decimal;
    if s[0] == '0' && |s| > 1 {
      zeros := DigitsDenote(s[1..]);
      ZerosDoNotCount("0", s[1..]);
      assert s == "0" + s[1..];
      zeros := "0" + zeros;
    } else {
      NoLeadingZero(s);
      zeros := "";
    }
  }

  lemma {:induction false} Stripped(s: string) returns (pre: string, post: string)
    ensures Spaces(pre) && Spaces(post) && s == pre + PyStrip(s) + post
    ensures PyStrip(s) != "" ==> !IsPySpace(PyStrip(s)[0]) && !IsPySpace(PyStrip(s)[|PyStrip(s)| - 1])
    decreases |s|
  {
    hide IsPySpace;
    pre, post := "", "";
    if s != "" && IsPySpace(s[0]) {
      pre, post := Stripped(s[1..]);
      pre := [s[0]] + pre;
      assert s == [s[0]] + s[1..];
    } else if s != "" && IsPySpace(s[|s| - 1]) {
      pre, post := Stripped(s[..|s| - 1]);
      post := post + [s[|s| - 1]];
      assert s == s[..|s| - 1] + [s[|s| - 1]];
    }
  }

  lemma {:induction false} StripPadded(pre: string, t: string, post: string)
    requires Spaces(pre) && Spaces(post) && t != "" && !IsPySpace(t[0]) && !IsPySpace(t[|t| - 1])
    ensures PyStrip(pre + t + post) == t
    decreases |pre| + |post|
  {
    hide IsPySpace;
    var s := pre + t + post;
    if pre != "" {
      assert s[1..] == pre[1..] + t + post;
      StripPadded(pre[1..], t, post);
    } else if post != "" {
      assert s[..|s| - 1] == pre + t + post[..|post| - 1];
      StripPadded(pre, t, post[..|post| - 1]);
    } else {
      assert s == t;
    }
  }

  lemma GroupedIff(ds: string)
    ensures Grouped(ds) <==> IntegerDigits(ds)
  {
    if IntegerDigits(ds) {
      forall i | 0 <= i < |ds| && ds[i] == '_' ensures Separates(ds, i) {
        var before, after := ds[i - 1], ds[i + 1];
        assert (IsDigit(before) || before == '_') && (IsDigit(after) || after == '_');
      }
    }
    if Grouped(ds) {
      GroupedEnds(ds);
    }
  }

  lemma {:induction false} GroupedHasDigits(ds: string)
    requires ds != "" && IsDigit(ds[0])
    ensures DigitsOnly(ds) != ""
  {}

  lemma GroupedEnds(ds: string)
    requires Grouped(ds)
    ensures IsDigit(ds[0]) && IsDigit(ds[|ds| - 1])
  {
    assert !Separates(ds, 0) && !Separates(ds, |ds| - 1);
  }

  lemma SignedReads(sign: string, ds: string, n: int)
    requires Signed(sign, ds, n)
    ensures PyInt(sign + ds) == Some(n) && sign + ds != ""
    ensures !IsPySpace((sign + ds)[0]) && !IsPySpace((sign + ds)[|sign + ds| - 1])
  {
    hide DigitsOnly, Decimal, Value, PyStrip, IntegerDigits;
    var t := sign + ds;
    GroupedIff(ds);
    GroupedEnds(ds);
    assert t[0] == if sign == "" then ds[0] else sign[0];
    assert t[|t| - 1] == ds[|ds| - 1];
    NoPadding(t);
    var zeros :| Zeros(zeros) && DigitsOnly(ds) == zeros + Decimal(if n < 0 then -n else n);
    ZerosDoNotCount(zeros, Decimal(if n < 0 then -n else n));
    ValueOfDecimal(if n < 0 then -n else n);
    assert sign == "" ==> t == ds;
    assert sign != "" ==> t[1..] == ds;
  }

  lemma NoPadding(t: string)
    requires t != "" && !IsPySpace(t[0]) && !IsPySpace(t[|t| - 1])
    ensures PyStrip(t) == t
  {}

  /** `int` reads a text as a number exactly if the text denotes it. */
  lemma PyIntIff(text: string, n: int)
    ensures PyInt(text) == Some(n) <==> Denotes(text, n)
  {
    hide PyStrip, IsPySpace, Signed, DigitsOnly, Value, IntegerDigits;
    if PyInt(text) == Some(n) {
      var pre, post := Stripped(text);
      var sign, ds := PartsSigned(text, n);
      assert Denotes(text, n);
    }
    if Denotes(text, n) {
      var pre, sign, ds, post :| Spaces(pre) && Spaces(post) && Signed(sign, ds, n) && text == pre + (sign + ds) + post;
      SignedReads(sign, ds, n);
      StripPadded(pre, sign + ds, post);
      NoPadding(sign + ds);
    }
  }

  lemma PartsSigned(text: string, n: int) returns (sign: string, ds: string)
    requires PyInt(text) == Some(n)
    ensures PyStrip(text) == sign + ds && Signed(sign, ds, n)
  {
    hide PyStrip, DigitsOnly, Value, Decimal;
    var t := PyStrip(text);
    sign, ds := "", t;
    if t != "" && (t[0] == '-' || t[0] == '+') {
      sign, ds := [t[0]], t[1..];
      assert t == sign + ds;
    } else {
      assert t == sign + ds;
    }
    GroupedIff(ds);
    GroupedHasDigits(ds);
    var zeros := DigitsDenote(DigitsOnly(ds));
  }

  // ---------------------------------------------------------------- resolving

  /** The step a token stands for at a node: a key of an obj, or an index of a list, counted from either end. */
  ghost predicate Stands(cur: Json, raw: string, s: Step) {
    match s
    case Key(k) => cur.Obj? && Unescaped(raw) == k
    case Index(i) => cur.Arr? && exists n :: Denotes(Unescaped(raw), n) && (n == i || n == i - |cur.items|)
  }

  /** The tokens stand for the steps, and the steps lead somewhere. */
  ghost predicate Leads(cur: Json, raws: seq<string>, steps: seq<Step>)
    decreases |raws|
  {
    if raws == [] then steps == []
    else
      && steps != [] && '/' !in raws[0] && Stands(cur, raws[0], steps[0])
      && Down(cur, steps[0]).Some? && Leads(Down(cur, steps[0]).value, raws[1..], steps[1..])
  }

  lemma ChildFollows(cur: Json, raw: string, s: Step)
    requires Stands(cur, raw, s) && Down(cur, s).Some?
    ensures Child(cur, UnescapeToken(raw)) == Down(cur, s)
    ensures s.Index? ==>
      var n := PyInt(UnescapeToken(raw));
      n.Some? && s.index == if n.value >= 0 then n.value else |cur.items| + n.value
  {
    hide Denotes, PyInt, Unescaped, UnescapeToken;
    UnescapesInOnePass(raw);
    if s.Index? {
      var n :| Denotes(Unescaped(raw), n) && (n == s.index || n == s.index - |cur.items|);
      PyIntIff(Unescaped(raw), n);
    }
  }

  lemma ChildStands(cur: Json, raw: string) returns (s: Step)
    requires Child(cur, UnescapeToken(raw)).Some?
    ensures Stands(cur, raw, s) && Down(cur, s).Some?
  {
    hide Denotes, PyInt, Unescaped, UnescapeToken;
    UnescapesInOnePass(raw);
    if cur.Obj? {
      s := Key(Unescaped(raw));
    } else {
      var n := PyInt(Unescaped(raw)).value;
      PyIntIff(Unescaped(raw), n);
      s := Index(if n >= 0 then n else |cur.items| + n);
    }
  }

  lemma {:induction false} WalkFollows(cur: Json, raws: seq<string>, steps: seq<Step>)
    requires Leads(cur, raws, steps)
    ensures Walk(cur, raws) == At(cur, steps) && At(cur, steps).Some?
    decreases |raws|
  {
    hide Stands, Down, Child, UnescapeToken;
    if raws != [] {
      ChildFollows(cur, raws[0], steps[0]);
      WalkFollows(Down(cur, steps[0]).value, raws[1..], steps[1..]);
    }
  }

  lemma {:induction false} WalkLeads(cur: Json, raws: seq<string>) returns (steps: seq<Step>)
    requires Walk(cur, raws).Some? && forall i :: 0 <= i < |raws| ==> '/' !in raws[i]
    ensures Leads(cur, raws, steps)
    decreases |raws|
  {
    hide Stands, Down, Child, UnescapeToken;
    steps := [];
    if raws != [] {
      var s := ChildStands(cur, raws[0]);
      ChildFollows(cur, raws[0], s);
      var more := WalkLeads(Down(cur, s).value, raws[1..]);
      steps := [s] + more;
    }
  }

  ghost predicate SlashFree(raws: seq<string>) {
    forall i :: 0 <= i < |raws| ==> '/' !in raws[i]
  }

  lemma {:induction false} LeadsIsSlashFree(cur: Json, raws: seq<string>, steps: seq<Step>)
    requires Leads(cur, raws, steps)
    ensures SlashFree(raws)
    decreases |raws|
  {
    hide Stands, Down;
    if raws != [] {
      LeadsIsSlashFree(Down(cur, steps[0]).value, raws[1..], steps[1..]);
      assert raws == [raws[0]] + raws[1..];
    }
  }

  lemma {:induction false} ComponentsAreSlashFree(s: string)
    ensures SlashFree(Components(s)) && PathText(Components(s)) == "/" + s
    decreases |s|
  {
    var k := FirstSlash(s);
    if k == |s| {
      assert PathText([s]) == "/" + s + PathText([s][1..]);
    } else {
      var rest := s[k + 1..];
      ComponentsAreSlashFree(rest);
      var cs := Components(s);
      assert cs == [s[..k]] + Components(rest) && cs[1..] == Components(rest);
      assert s == s[..k] + ("/" + rest);
    }
  }

  lemma PathIsEmpty(raws: seq<string>)
    ensures PathText(raws) == "" <==> raws == []
    ensures raws != [] ==> PathText(raws)[0] == '/'
  {}

  /** A pointer resolves exactly to what is at the place its tokens stand for. */
  lemma LookupIff(doc: Json, pointer: string, v: Json)
    ensures Lookup(doc, pointer) == Some(v) <==>
      exists raws, steps :: pointer == PathText(raws) && Leads(doc, raws, steps) && At(doc, steps) == Some(v)
  {
    hide Leads, Walk, At, Components, PathText;
    if Lookup(doc, pointer) == Some(v) {
      var raws, steps := LookupLeads(doc, pointer);
      LookupAt(doc, raws, steps);
    }
    forall raws, steps | pointer == PathText(raws) && Leads(doc, raws, steps) && At(doc, steps) == Some(v)
      ensures Lookup(doc, pointer) == Some(v)
    {
      LookupAt(doc, raws, steps);
    }
  }

  lemma LookupLeads(doc: Json, pointer: string) returns (raws: seq<string>, steps: seq<Step>)
    requires Lookup(doc, pointer).Some?
    ensures pointer == PathText(raws) && Leads(doc, raws, steps)
  {
    hide Walk, Components;
    if pointer == "" {
      raws, steps := [], [];
    } else {
      raws := Components(pointer[1..]);
      ComponentsAreSlashFree(pointer[1..]);
      assert pointer == "/" + pointer[1..];
      steps := WalkLeads(doc, raws);
    }
  }

  lemma LookupAt(doc: Json, raws: seq<string>, steps: seq<Step>)
    requires Leads(doc, raws, steps)
    ensures Lookup(doc, PathText(raws)) == At(doc, steps) && At(doc, steps).Some? && Walk(doc, raws).Some?
    ensures raws != [] ==> Components(PathText(raws)[1..]) == raws
  {
    hide Leads, Walk, Components, PathText;
    LeadsIsSlashFree(doc, raws, steps);
    WalkFollows(doc, raws, steps);
    PathIsEmpty(raws);
    if raws != [] {
      PathSplits(raws);
    } else {
      assert Walk(doc, []) == Some(doc) by { NoTokens(doc); }
    }
  }

  lemma NoTokens(doc: Json)
    ensures Walk(doc, []) == Some(doc)
  {}

  // ---------------------------------------------------------------- pointers written from steps

  /** Keys are asked of objects and indices of lists, as far as the steps lead. */
  ghost predicate Fits(doc: Json, steps: seq<Step>)
    decreases |steps|
  {
    steps != [] ==>
      && (if steps[0].Key? then !doc.Arr? else !doc.Obj?)
      && (Down(doc, steps[0]).Some? ==> Fits(Down(doc, steps[0]).value, steps[1..]))
  }

  lemma IndexDenotes(i: nat, n: int)
    ensures Denotes(Decimal(i), n) <==> n == i
  {
    hide Denotes, PyInt, Decimal;
    PyIntIff(Decimal(i), n);
    IndexRoundTrip(i);
  }

  lemma StepIsOwn(cur: Json, s: Step, t: Step)
    requires if s.Key? then !cur.Arr? else !cur.Obj?
    requires Stands(cur, Token(s), t) && Down(cur, t).Some?
    ensures s == t
  {
    hide Denotes, Decimal, EscapeToken, UnescapeToken, Unescaped;
    UnescapesInOnePass(Token(s));
    match s
    case Key(k) => TokenRoundTrip(k);
    case Index(i) =>
      DecimalUnescaped(i);
      forall n ensures Denotes(Decimal(i), n) <==> n == i {
        IndexDenotes(i, n);
      }
  }

  lemma {:induction false} LeadsOwnWay(doc: Json, steps: seq<Step>, other: seq<Step>)
    requires Fits(doc, steps) && Leads(doc, Tokens(steps), other)
    ensures other == steps
    decreases |steps|
  {
    hide Stands, Down, Token;
    if steps != [] {
      var raws := Tokens(steps);
      assert raws[0] == Token(steps[0]) && raws[1..] == Tokens(steps[1..]);
      StepIsOwn(doc, steps[0], other[0]);
      LeadsOwnWay(Down(doc, steps[0]).value, steps[1..], other[1..]);
      assert other == [other[0]] + other[1..];
    }
  }

  /** A pointer written from keys and indices resolves to what is at its place, and to nothing if nothing is there. */
  lemma LookupIsAt(doc: Json, steps: seq<Step>)
    requires Fits(doc, steps)
    ensures Lookup(doc, PointerTo(steps)) == At(doc, steps)
  {
    hide At, Fits, Leads, PathText, PointerTo, Components;
    if At(doc, steps).Some? {
      LookupFollowsSteps(doc, steps);
    } else if Lookup(doc, PointerTo(steps)).Some? {
      var raws, other := LookupLeads(doc, PointerTo(steps));
      PointerIsPath(steps);
      SamePath(doc, raws, other, steps);
      LeadsOwnWay(doc, steps, other);
      LookupAt(doc, raws, other);
    }
  }

  lemma SamePath(doc: Json, raws: seq<string>, other: seq<Step>, steps: seq<Step>)
    requires Leads(doc, raws, other) && PathText(raws) == PathText(Tokens(steps))
    ensures raws == Tokens(steps)
  {
    hide Leads, Components, PathText, Tokens;
    PathIsEmpty(raws);
    PathIsEmpty(Tokens(steps));
    LeadsIsSlashFree(doc, raws, other);
    TokensAreSlashFree(steps);
    if raws != [] {
      PathSplits(raws);
      PathSplits(Tokens(steps));
    }
  }

  /** A key asked of a list, or an index of an obj, is taken for the other kind of step. */
  lemma MixedStepResolves()
    ensures var list, obj := Arr([Null]), Obj([Field("0", Null)]);
      && Lookup(list, PointerTo([Key("0")])) == Some(Null) && At(list, [Key("0")]).None?
      && Lookup(obj, PointerTo([Index(0)])) == Some(Null) && At(obj, [Index(0)]).None?
  {
    var list, obj := Arr([Null]), Obj([Field("0", Null)]);
    EscapesCharwise("0");
    assert Token(Key("0")) == "0" && Token(Index(0)) == "0";
    assert At(list, [Index(0)]) == Some(Null) && At(obj, [Key("0")]) == Some(Null);
    assert PointerTo([Key("0")]) == PointerTo([Index(0)]);
    LookupFollowsSteps(list, [Index(0)]);
    LookupFollowsSteps(obj, [Key("0")]);
  }

  lemma {:induction false} WalkOn(cur: Json, steps: seq<Step>, raws: seq<string>)
    requires At(cur, steps).Some?
    ensures Walk(cur, Tokens(steps) + raws) == Walk(At(cur, steps).value, raws)
    decreases |steps|
  {
    hide Down, Child, Token, UnescapeToken;
    if steps == [] {
      assert [] + raws == raws;
    } else {
      TokenLeadsDown(cur, steps[0]);
      WalkOn(Down(cur, steps[0]).value, steps[1..], raws);
      assert (Tokens(steps) + raws)[1..] == Tokens(steps[1..]) + raws;
    }
  }

  /** A list refuses a token that denotes no index of it, whatever follows. */
  lemma ListRefuses(doc: Json, steps: seq<Step>, raw: string, more: seq<string>)
    requires At(doc, steps).Some? && At(doc, steps).value.Arr? && '/' !in raw && SlashFree(more)
    requires var n := |At(doc, steps).value.items|; forall i :: -n <= i < n ==> !Denotes(Unescaped(raw), i)
    ensures Lookup(doc, PathText(Tokens(steps) + ([raw] + more))).None?
  {
    hide At, Denotes, PyInt, UnescapeToken, Unescaped, Components, PathText, Tokens;
    var list, raws := At(doc, steps).value, Tokens(steps) + ([raw] + more);
    TokensAreSlashFree(steps);
    PathIsEmpty(raws);
    PathSplits(raws);
    WalkOn(doc, steps, [raw] + more);
    UnescapesInOnePass(raw);
    if PyInt(Unescaped(raw)).Some? {
      PyIntIff(Unescaped(raw), PyInt(Unescaped(raw)).value);
    }
    assert Child(list, UnescapeToken(raw)).None?;
  }

  // ---------------------------------------------------------------- equal values

  /** One node against one node: equal texts, numbers or constants, or containers of one size. */
  predicate SameNode(a: Json, b: Json) {
    match a
    case Null => b.Null?
    case Special(c) => b == a
    case Str(s) => b == a
    case Arr(xs) => b.Arr? && |b.items| == |xs|
    case Obj(fs) => b.Obj? && |b.fields| == |fs|
    case _ => Numeric(b).Some? && Numeric(a) == Numeric(b)
  }

  /** Every place of the one is a place of the other, with the same node. */
  ghost predicate Same(a: Json, b: Json) {
    forall steps :: At(a, steps).Some? ==> At(b, steps).Some? && SameNode(At(a, steps).value, At(b, steps).value)
  }

  lemma {:induction false} EqualEverywhere(a: Json, b: Json, steps: seq<Step>)
    requires PyEq(a, b) && At(a, steps).Some?
    ensures At(b, steps).Some? && SameNode(At(a, steps).value, At(b, steps).value)
    decreases |steps|
  {
    if steps != [] {
      var next := Down(a, steps[0]).value;
      if steps[0].Key? {
        var i := FieldIndex(a.fields, steps[0].key);
      }
      EqualEverywhere(next, Down(b, steps[0]).value, steps[1..]);
    }
  }

  lemma SameBelow(a: Json, b: Json, s: Step)
    requires Same(a, b) && Down(a, s).Some?
    ensures Down(b, s).Some? && Same(Down(a, s).value, Down(b, s).value)
  {
    hide Down;
    AtPrepend(a, s, []);
    AtPrepend(b, s, []);
    RootIsAll(Down(a, s).value);
    assert At(a, [s] + []).Some?;
    forall steps | At(Down(a, s).value, steps).Some?
      ensures At(Down(b, s).value, steps).Some?
        && SameNode(At(Down(a, s).value, steps).value, At(Down(b, s).value, steps).value)
    {
      AtPrepend(a, s, steps);
      AtPrepend(b, s, steps);
      assert At(a, [s] + steps).Some?;
    }
  }

  lemma RootIsAll(a: Json)
    ensures At(a, []) == Some(a)
  {}

  lemma {:induction false} SameIsEqual(a: Json, b: Json)
    requires Parsed(a) && Same(a, b)
    ensures PyEq(a, b)
    decreases a
  {
    hide Same, At;
    SameRoot(a, b);
    match a
    case Arr(xs) =>
      forall i | 0 <= i < |xs| ensures PyEq(xs[i], b.items[i]) {
        SameBelow(a, b, Index(i));
        SameIsEqual(xs[i], b.items[i]);
      }
    case Obj(fs) =>
      forall i | 0 <= i < |fs| ensures Get(b.fields, fs[i].key).Some? && PyEq(fs[i].value, Get(b.fields, fs[i].key).value) {
        GetAt(fs, i);
        SameBelow(a, b, Key(fs[i].key));
        SameIsEqual(fs[i].value, Get(b.fields, fs[i].key).value);
      }
    case _ =>
  }

  lemma SameRoot(a: Json, b: Json)
    requires Same(a, b)
    ensures SameNode(a, b)
  {
    RootIsAll(a);
    RootIsAll(b);
    assert At(a, []).Some?;
  }

  /** Values are equal exactly if they hold the same nodes at the same places. */
  lemma PyEqIff(a: Json, b: Json)
    requires Parsed(a)
    ensures PyEq(a, b) <==> Same(a, b)
  {
    hide At, SameNode, PyEq;
    if PyEq(a, b) {
      forall steps | At(a, steps).Some? ensures At(b, steps).Some? && SameNode(At(a, steps).value, At(b, steps).value) {
        EqualEverywhere(a, b, steps);
      }
    } else if Same(a, b) {
      SameIsEqual(a, b);
    }
  }

  // ---------------------------------------------------------------- mutants that apply

  ghost predicate ListHas(obj: Json, key: string, v: Json) {
    obj.Obj? && exists xs, i :: Get(obj.fields, key) == Some(Arr(xs)) && 0 <= i < |xs| && Same(xs[i], v)
  }

  /** What a mutant asks of the object it is applied to. */
  ghost predicate Accepts(obj: Json, m: Mutant) {
    match m
    case DropRequired(_, v) => ListHas(obj, "required", v)
    case DropEnumValue(_, v) => ListHas(obj, "enum", v)
    case WidenAdditional(_) => obj.Obj? && Get(obj.fields, "additionalProperties") == Some(Bool(false))
    case DropProperty(_, name) =>
      obj.Obj? && exists ps: seq<Field>, i :: Get(obj.fields, "properties") == Some(Obj(ps)) && 0 <= i < |ps| && ps[i].key == name
  }

  lemma RemoveIff(fs: seq<Field>, key: string, v: Json)
    requires Parsed(Obj(fs))
    ensures RemoveListed(fs, key, v).Some? <==> ListHas(Obj(fs), key, v)
  {
    hide Same, PyEq, Get, Parsed;
    match Get(fs, key)
    case Some(Arr(xs)) =>
      GetIsParsed(fs, key);
      ItemsAreParsed(xs);
      forall i | 0 <= i < |xs| ensures PyEq(xs[i], v) <==> Same(xs[i], v) {
        PyEqIff(xs[i], v);
      }
    case _ =>
  }

  lemma ItemsAreParsed(xs: seq<Json>)
    requires Parsed(Arr(xs))
    ensures forall i :: 0 <= i < |xs| ==> Parsed(xs[i])
  {}

  lemma EditIff(obj: Json, m: Mutant)
    requires Parsed(obj)
    ensures Edit(obj, m).Some? <==> Accepts(obj, m)
  {
    hide ListHas, RemoveListed, Parsed;
    if obj.Obj? {
      match m
      case DropRequired(_, v) => RemoveIff(obj.fields, "required", v);
      case DropEnumValue(_, v) => RemoveIff(obj.fields, "enum", v);
      case _ =>
    } else {
      NothingListed(obj);
    }
  }

  lemma NothingListed(obj: Json)
    requires !obj.Obj?
    ensures forall key, v :: !ListHas(obj, key, v)
  {}

  lemma {:induction false} ExchangeFollows(cur: Json, raws: seq<string>, steps: seq<Step>, v: Json)
    requires Leads(cur, raws, steps) && Walk(cur, raws).Some? && At(cur, steps).Some?
    ensures Exchange(cur, raws, v) == Put(cur, steps, v)
    decreases |raws|
  {
    hide Stands, PyInt, UnescapeToken, Unescaped;
    if raws != [] {
      ChildFollows(cur, raws[0], steps[0]);
      var next := Down(cur, steps[0]).value;
      ExchangeFollows(next, raws[1..], steps[1..], v);
      if steps[0].Key? {
        KeyStands(cur, raws[0], steps[0]);
      }
    }
  }

  lemma KeyStands(cur: Json, raw: string, s: Step)
    requires Stands(cur, raw, s) && s.Key?
    ensures UnescapeToken(raw) == s.key
  {
    UnescapesInOnePass(raw);
  }

  /** A mutant applies exactly if its pointer has a place and the object there is one it accepts, and then it exchanges
      that object. */
  lemma MutatedIff(doc: Json, m: Mutant)
    requires Parsed(doc)
    ensures Mutated(doc, m).Some? <==>
      exists raws, steps :: m.pointer == PathText(raws) && Leads(doc, raws, steps) && Reached(doc, steps, m)
    ensures forall raws, steps :: m.pointer == PathText(raws) && Leads(doc, raws, steps) && Reached(doc, steps, m) ==>
      Exchanged(doc, steps, m)
  {
    hide Leads, At, PathText, Exchange, Edit, Components, Exchanged, Accepts, Parsed;
    if Mutated(doc, m).Some? {
      var raws, steps := LookupLeads(doc, m.pointer);
      LookupAt(doc, raws, steps);
      PartsAreParsed(doc, steps);
      EditIff(At(doc, steps).value, m);
      assert Reached(doc, steps, m);
    }
    forall raws, steps | m.pointer == PathText(raws) && Leads(doc, raws, steps) && Reached(doc, steps, m)
      ensures Mutated(doc, m).Some? && Exchanged(doc, steps, m)
    {
      MutatedAt(doc, raws, steps, m);
    }
  }

  ghost predicate Reached(doc: Json, steps: seq<Step>, m: Mutant) {
    At(doc, steps).Some? && Accepts(At(doc, steps).value, m)
  }

  ghost predicate Exchanged(doc: Json, steps: seq<Step>, m: Mutant) {
    && At(doc, steps).Some? && Edit(At(doc, steps).value, m).Some?
    && Mutated(doc, m) == Some(Put(doc, steps, Edit(At(doc, steps).value, m).value))
  }

  lemma MutatedAt(doc: Json, raws: seq<string>, steps: seq<Step>, m: Mutant)
    requires Parsed(doc) && m.pointer == PathText(raws) && Leads(doc, raws, steps) && Reached(doc, steps, m)
    ensures Mutated(doc, m).Some? && Exchanged(doc, steps, m)
  {
    hide Leads, At, PathText, Exchange, Edit, Components, Accepts, Parsed, Put;
    LookupAt(doc, raws, steps);
    PartsAreParsed(doc, steps);
    EditIff(At(doc, steps).value, m);
    var v := Edit(At(doc, steps).value, m).value;
    ExchangeFollows(doc, raws, steps, v);
    PathIsEmpty(raws);
    if raws == [] {
      NothingExchanged(doc, steps, v);
    }
  }

  lemma NothingExchanged(doc: Json, steps: seq<Step>, v: Json)
    requires Leads(doc, [], steps) && At(doc, steps).Some?
    ensures steps == [] && Put(doc, steps, v) == v && At(doc, steps) == Some(doc)
  {}

  /** No place, no mutant. */
  lemma NoPlaceNoMutant(doc: Json, steps: seq<Step>, m: Mutant)
    requires Fits(doc, steps) && At(doc, steps).None? && m.pointer == PointerTo(steps)
    ensures Mutated(doc, m).None?
  {
    hide At, Fits, PointerTo, Lookup;
    LookupIsAt(doc, steps);
  }

  // ---------------------------------------------------------------- document order

  ghost predicate Earlier(cur: Json, s: Step, t: Step) {
    match (s, t)
    case (Index(i), Index(j)) => i < j
    case (Key(k), Key(l)) =>
      cur.Obj? && exists i, j :: 0 <= i < j < |cur.fields| && cur.fields[i].key == k && cur.fields[j].key == l
    case _ => false
  }

  /** Document order: a place comes before what is below it, and before what is below later fields and items. */
  ghost predicate Before(doc: Json, p: seq<Step>, q: seq<Step>)
    decreases |p|
  {
    && q != []
    && (p == [] || if p[0] == q[0] then Down(doc, p[0]).Some? && Before(Down(doc, p[0]).value, p[1..], q[1..])
                   else Earlier(doc, p[0], q[0]))
  }

  ghost predicate InOrder(doc: Json, places: seq<seq<Step>>) {
    forall i, j :: 0 <= i < j < |places| ==> Before(doc, places[i], places[j])
  }

  ghost predicate EntryAt(doc: Json, pointer: string, e: Entry, place: seq<Step>) {
    e.pointer == pointer + PointerTo(place) && HoldsEnum(At(doc, place), e.values)
  }

  ghost predicate Listing(doc: Json, pointer: string, es: seq<Entry>, places: seq<seq<Step>>) {
    && |places| == |es| && InOrder(doc, places)
    && forall i :: 0 <= i < |es| ==> EntryAt(doc, pointer, es[i], places[i])
  }

  function Below(s: Step, places: seq<seq<Step>>): (r: seq<seq<Step>>)
    ensures |r| == |places|
  {
    seq(|places|, i requires 0 <= i < |places| => [s] + places[i])
  }

  lemma BelowStep(doc: Json, s: Step, p: seq<Step>, q: seq<Step>)
    requires Down(doc, s).Some? && Before(Down(doc, s).value, p, q)
    ensures Before(doc, [s] + p, [s] + q)
  {
    assert ([s] + p)[1..] == p && ([s] + q)[1..] == q;
  }

  lemma ListingBelow(doc: Json, pointer: string, s: Step, es: seq<Entry>, places: seq<seq<Step>>)
    requires Down(doc, s).Some? && Listing(Down(doc, s).value, pointer + ("/" + Token(s)), es, places)
    ensures Listing(doc, pointer, es, Below(s, places))
  {
    hide Down, Before, Token, PointerTo, HoldsEnum, At;
    var next, r := Down(doc, s).value, Below(s, places);
    forall i, j | 0 <= i < j < |r| ensures Before(doc, r[i], r[j]) {
      BelowStep(doc, s, places[i], places[j]);
    }
    forall i | 0 <= i < |es| ensures EntryAt(doc, pointer, es[i], r[i]) {
      assert EntryAt(next, pointer + ("/" + Token(s)), es[i], places[i]);
      PointerAppend(pointer, s, places[i]);
      AtPrepend(doc, s, places[i]);
    }
  }

  lemma ListingJoin(doc: Json, pointer: string, es: seq<Entry>, ps: seq<seq<Step>>, fs: seq<Entry>, qs: seq<seq<Step>>)
    requires Listing(doc, pointer, es, ps) && Listing(doc, pointer, fs, qs)
    requires forall i, j :: 0 <= i < |ps| && 0 <= j < |qs| ==> Before(doc, ps[i], qs[j])
    ensures Listing(doc, pointer, es + fs, ps + qs)
  {
    hide Before, EntryAt;
  }

  /** The walk lists the places of the enums in document order. */
  lemma {:induction false} WalkIsOrdered(node: Json, pointer: string) returns (places: seq<seq<Step>>)
    requires Parsed(node)
    ensures Listing(node, pointer, WalkEnums(node, pointer), places)
    decreases node
  {
    hide Before, Listing, WalkFields, WalkItems, PointerTo;
    match node
    case Obj(fs) =>
      var below := FieldsAreOrdered(fs, 0, pointer);
      var here: seq<Entry> := match Get(fs, "enum") case Some(Arr(values)) => [Entry(pointer, values)] case _ => [];
      HereListed(node, pointer, here);
      var own: seq<seq<Step>> := if here == [] then [] else [[]];
      forall i, j | 0 <= i < |own| && 0 <= j < |below| ensures Before(node, own[i], below[j]) {
        RootFirst(node, below[j]);
      }
      ListingJoin(node, pointer, here, own, WalkFields(fs, 0, pointer), below);
      places := own + below;
    case Arr(xs) => places := ItemsAreOrdered(xs, 0, pointer);
    case _ =>
      places := [];
      NothingListing(node, pointer);
  }

  lemma HereListed(node: Json, pointer: string, here: seq<Entry>)
    requires node.Obj?
    requires here == match Get(node.fields, "enum") case Some(Arr(values)) => [Entry(pointer, values)] case _ => []
    ensures Listing(node, pointer, here, if here == [] then [] else [[]])
  {
    if here != [] {
      assert pointer + PointerTo([]) == pointer;
      assert EntryAt(node, pointer, here[0], []);
    }
  }

  lemma RootFirst(node: Json, q: seq<Step>)
    requires q != []
    ensures Before(node, [], q)
  {}

  lemma NothingListing(node: Json, pointer: string)
    ensures Listing(node, pointer, [], [])
  {}

  lemma {:induction false} FieldsAreOrdered(fs: seq<Field>, k: nat, pointer: string) returns (places: seq<seq<Step>>)
    requires k <= |fs| && Parsed(Obj(fs))
    ensures Listing(Obj(fs), pointer, WalkFields(fs, k, pointer), places)
    ensures forall i :: 0 <= i < |places| ==> places[i] != [] && exists j :: k <= j < |fs| && places[i][0] == Key(fs[j].key)
    decreases fs, |fs| - k
  {
    hide Listing, WalkEnums, Down, Token, Before;
    places := [];
    if k == |fs| {
      NothingListing(Obj(fs), pointer);
    } else {
      var here := Key(fs[k].key);
      var child := pointer + ("/" + EscapeToken(fs[k].key));
      TokenOfKey(fs[k].key);
      FieldDown(fs, k);
      var inner := WalkIsOrdered(fs[k].value, child);
      var rest := FieldsAreOrdered(fs, k + 1, pointer);
      ListingBelow(Obj(fs), pointer, here, WalkEnums(fs[k].value, child), inner);
      places := Below(here, inner);
      forall i, j | 0 <= i < |places| && 0 <= j < |rest| ensures Before(Obj(fs), places[i], rest[j]) {
        var l :| k + 1 <= l < |fs| && rest[j][0] == Key(fs[l].key);
        KeysApart(fs, k, l, places[i], rest[j]);
      }
      ListingJoin(Obj(fs), pointer, WalkEnums(fs[k].value, child), places, WalkFields(fs, k + 1, pointer), rest);
      places := places + rest;
    }
  }

  lemma FieldDown(fs: seq<Field>, k: nat)
    requires k < |fs| && Parsed(Obj(fs))
    ensures Down(Obj(fs), Key(fs[k].key)) == Some(fs[k].value) && Parsed(fs[k].value)
  {
    GetAt(fs, k);
  }

  lemma KeysApart(fs: seq<Field>, k: nat, l: nat, p: seq<Step>, q: seq<Step>)
    requires k < l < |fs| && DistinctKeys(fs) && p != [] && q != [] && p[0] == Key(fs[k].key) && q[0] == Key(fs[l].key)
    ensures Before(Obj(fs), p, q)
  {
    assert Earlier(Obj(fs), p[0], q[0]);
  }

  lemma {:induction false} ItemsAreOrdered(xs: seq<Json>, k: nat, pointer: string) returns (places: seq<seq<Step>>)
    requires k <= |xs| && Parsed(Arr(xs))
    ensures Listing(Arr(xs), pointer, WalkItems(xs, k, pointer), places)
    ensures forall i :: 0 <= i < |places| ==> places[i] != [] && places[i][0].Index? && k <= places[i][0].index
    decreases xs, |xs| - k
  {
    hide Listing, WalkEnums, Token, Before, Decimal;
    places := [];
    if k == |xs| {
      NothingListing(Arr(xs), pointer);
    } else {
      var child := pointer + ("/" + Decimal(k));
      TokenOfIndex(k);
      var inner := WalkIsOrdered(xs[k], child);
      var rest := ItemsAreOrdered(xs, k + 1, pointer);
      ListingBelow(Arr(xs), pointer, Index(k), WalkEnums(xs[k], child), inner);
      places := Below(Index(k), inner);
      forall i, j | 0 <= i < |places| && 0 <= j < |rest| ensures Before(Arr(xs), places[i], rest[j]) {
        ItemsApart(Arr(xs), places[i], rest[j]);
      }
      ListingJoin(Arr(xs), pointer, WalkEnums(xs[k], child), places, WalkItems(xs, k + 1, pointer), rest);
      places := places + rest;
    }
  }

  lemma ItemsApart(list: Json, p: seq<Step>, q: seq<Step>)
    requires p != [] && q != [] && p[0].Index? && q[0].Index? && p[0].index < q[0].index
    ensures Before(list, p, q)
  {}

  // ---------------------------------------------------------------- what a schema gets

  /** All the places that hold an enum, in document order. */
  ghost predicate EnumPlaces(schema: Json, places: seq<seq<Step>>) {
    && InOrder(schema, places)
    && forall place :: place in places <==> exists values :: HoldsEnum(At(schema, place), values)
  }

  /** The names a schema requires: the items of a list, the characters of a text, the keys of an object. */
  ghost predicate Requires(schema: Json, names: seq<Json>) {
    && schema.Obj?
    && match Get(schema.fields, "required")
       case None => names == []
       case Some(Arr(xs)) => names == xs
       case Some(Str(t)) => |names| == |t| && forall i :: 0 <= i < |t| ==> names[i] == Str([t[i]])
       case Some(Obj(ks)) => |names| == |ks| && forall i :: 0 <= i < |ks| ==> names[i] == Str(ks[i].key)
       case _ => false
  }

  /** One mutant for each of the first four names. */
  function NameDrops(names: seq<Json>): seq<Mutant> {
    seq(if |names| < 4 then |names| else 4, i requires 0 <= i < |names| => DropRequired("", names[i]))
  }

  /** For the k-th place, a mutant that drops the first item of its enum, if it has one. */
  ghost function EnumDrop(schema: Json, places: seq<seq<Step>>, k: nat): seq<Mutant> {
    if k >= |places| then []
    else
      match At(schema, places[k])
      case Some(Obj(fs)) =>
        (match Get(fs, "enum")
         case Some(Arr(values)) => if values == [] then [] else [DropEnumValue(PointerTo(places[k]), values[0])]
         case _ => [])
      case _ => []
  }

  lemma {:induction false} PlaceLeads(doc: Json, steps: seq<Step>)
    requires At(doc, steps).Some?
    ensures Leads(doc, Tokens(steps), steps) && Fits(doc, steps)
    decreases |steps|
  {
    hide Stands, Token;
    if steps != [] {
      OwnToken(doc, steps[0]);
      TokenHasNoSlash(steps[0]);
      PlaceLeads(Down(doc, steps[0]).value, steps[1..]);
      assert Tokens(steps)[1..] == Tokens(steps[1..]);
    }
  }

  lemma OwnToken(cur: Json, s: Step)
    requires Down(cur, s).Some?
    ensures Stands(cur, Token(s), s)
  {
    hide Denotes, Decimal, EscapeToken, UnescapeToken, Unescaped;
    UnescapesInOnePass(Token(s));
    match s
    case Key(k) => TokenRoundTrip(k);
    case Index(i) =>
      DecimalUnescaped(i);
      IndexDenotes(i, i);
  }

  /** No two places share a pointer. */
  lemma SamePlace(doc: Json, p: seq<Step>, q: seq<Step>)
    requires At(doc, p).Some? && At(doc, q).Some? && PointerTo(p) == PointerTo(q)
    ensures p == q
  {
    hide At, PointerTo, Tokens, PathText, Leads, Fits;
    PlaceLeads(doc, p);
    PlaceLeads(doc, q);
    PointerIsPath(p);
    PointerIsPath(q);
    SamePath(doc, Tokens(q), q, p);
    LeadsOwnWay(doc, p, q);
  }

  /** Each entry with its place. */
  lemma ListedEntries(schema: Json, es: seq<Entry>, places: seq<seq<Step>>)
    requires Listing(schema, "", es, places)
    ensures |es| == |places|
    ensures forall i :: 0 <= i < |es| ==> es[i].pointer == PointerTo(places[i]) && HoldsEnum(At(schema, places[i]), es[i].values)
  {
    hide At, PointerTo, InOrder, HoldsEnum;
    forall i | 0 <= i < |es| ensures es[i].pointer == PointerTo(places[i]) && HoldsEnum(At(schema, places[i]), es[i].values) {
      assert EntryAt(schema, "", es[i], places[i]);
      assert "" + PointerTo(places[i]) == PointerTo(places[i]);
    }
  }

  lemma EnumPlacesListed(schema: Json) returns (places: seq<seq<Step>>)
    requires Parsed(schema)
    ensures EnumPlaces(schema, places) && Listing(schema, "", WalkEnums(schema, ""), places)
  {
    hide Before, WalkEnums, At, PointerTo, HoldsEnum, Parsed;
    places := WalkIsOrdered(schema, "");
    var es := WalkEnums(schema, "");
    ListedEntries(schema, es, places);
    forall place ensures place in places <==> exists values :: HoldsEnum(At(schema, place), values) {
      if values :| HoldsEnum(At(schema, place), values) {
        HeldPlace(schema, es, places, place, values);
      }
      if place in places {
        var i :| 0 <= i < |places| && places[i] == place;
        assert HoldsEnum(At(schema, place), es[i].values);
      }
    }
  }

  lemma HeldPlace(schema: Json, es: seq<Entry>, places: seq<seq<Step>>, place: seq<Step>, values: seq<Json>)
    requires es == WalkEnums(schema, "") && Listing(schema, "", es, places) && HoldsEnum(At(schema, place), values)
    ensures place in places
  {
    hide Before, WalkEnums, At, PointerTo, Listing;
    ListedEntries(schema, es, places);
    PlaceIsListed(schema, "", place, values);
    assert "" + PointerTo(place) == PointerTo(place);
    var i :| 0 <= i < |es| && es[i] == Entry(PointerTo(place), values);
    SamePlace(schema, places[i], place);
  }

  lemma ListedNames(schema: Json, names: seq<Json>)
    requires Requires(schema, names)
    ensures RequiredListed(schema.fields) == Some(names)
  {
    var listed := RequiredListed(schema.fields);
    assert listed.Some?;
    assert listed.value == names;
  }

  lemma EnumDropsAre(schema: Json, es: seq<Entry>, places: seq<seq<Step>>)
    requires |es| == |places|
    requires forall i :: 0 <= i < |es| ==> es[i].pointer == PointerTo(places[i]) && HoldsEnum(At(schema, places[i]), es[i].values)
    ensures EnumDrops(First(es, MAX_ENUM_MUTANTS)) == EnumDrop(schema, places, 0) + EnumDrop(schema, places, 1)
  {
    hide At, PointerTo, EnumDrops, Get;
    var two := First(es, MAX_ENUM_MUTANTS);
    assert two[0..] == two;
    EnumDropsStep(two, 0);
    if |two| > 0 {
      EnumDropsStep(two, 1);
    }
    if |two| > 1 {
      EnumDropsStep(two, 2);
    }
  }

  lemma DropsAre(names: seq<Json>)
    ensures DropsOf(First(names, MAX_REQUIRED_MUTANTS)) == NameDrops(names)
  {}

  /** The mutants of a schema: for its first four names, for a closed root, and for the first two enums. */
  lemma DerivedAre(schema: Json, names: seq<Json>) returns (places: seq<seq<Step>>)
    requires Parsed(schema) && Requires(schema, names)
    ensures EnumPlaces(schema, places)
    ensures Derived(schema) == Some(
      NameDrops(names)
      + (if Get(schema.fields, "additionalProperties") == Some(Bool(false)) then [WidenAdditional("")] else [])
      + (EnumDrop(schema, places, 0) + EnumDrop(schema, places, 1)))
  {
    hide WalkEnums, EnumPlaces, Listing, EnumDrops, Parsed, RequiredListed, Requires, At, HoldsEnum, DropsOf, EnumDrop, Get;
    places := EnumPlacesListed(schema);
    ListedNames(schema, names);
    NamesOfObject(schema, names);
    DropsAre(names);
    ListedEntries(schema, WalkEnums(schema, ""), places);
    EnumDropsAre(schema, WalkEnums(schema, ""), places);
  }

  lemma NamesOfObject(schema: Json, names: seq<Json>)
    requires Requires(schema, names)
    ensures schema.Obj?
  {}

  /** A schema gets mutants exactly if it is an object whose required entry can be listed. */
  lemma DerivedIff(schema: Json)
    ensures Derived(schema).Some? <==> exists names :: Requires(schema, names)
  {
    if Derived(schema).Some? {
      assert Requires(schema, RequiredListed(schema.fields).value);
    }
    forall names | Requires(schema, names) ensures Derived(schema).Some? {
      ListedNames(schema, names);
    }
  }
}
