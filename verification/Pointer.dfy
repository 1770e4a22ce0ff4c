/** JSON pointers (sections 3 and 4 of RFC 6901), written by one script and resolved by another, and the mutants they address. */
module Pointer {
  import opened Text
  import opened Json
  import opened Common

  // ---------------------------------------------------------------- tokens

  function EscapeToken(key: string): string {
    Replace(Replace(key, "~", "~0"), "/", "~1")
  }

  function UnescapeToken(raw: string): string {
    Replace(Replace(raw, "~1", "/"), "~0", "~")
  }

  function EscapedChar(c: char): string {
    if c == '~' then "~0" else if c == '/' then "~1" else [c]
  }

  /** Escaping, one character at a time. */
  function Escaped(key: string): string {
    if key == "" then "" else EscapedChar(key[0]) + Escaped(key[1..])
  }

  /** After `~1` has been read back and `~0` has not. */
  function HalfEscaped(key: string): string {
    if key == "" then "" else (if key[0] == '~' then "~0" else [key[0]]) + HalfEscaped(key[1..])
  }

  lemma {:induction false} EscapesCharwise(key: string)
    ensures EscapeToken(key) == Escaped(key)
  {
    hide Replace;
    NothingReplaced("~", "~0");
    NothingReplaced("/", "~1");
    if key != "" {
      var c, rest := key[0], key[1..];
      var half := Replace(rest, "~", "~0");
      assert key == [c] + rest;
      EscapesCharwise(rest);
      ReplaceOne(c, rest, "~", "~0");
      if c == '~' {
        NoPrefix("/", ['~', '0'] + half);
        NoPrefix("/", ['0'] + half);
        ReplaceTwo('~', '0', half, "/", "~1");
      } else {
        NoPrefix("~", [c] + rest);
        ReplaceOne(c, half, "/", "~1");
        if c != '/' {
          NoPrefix("/", [c] + half);
        }
      }
    }
  }

  lemma NothingReplaced(from: string, to: string)
    requires from != ""
    ensures Replace("", from, to) == ""
  {}

  lemma NoPrefix(from: string, s: string)
    requires from != "" && s != "" && from[0] != s[0]
    ensures !(from <= s)
  {}

  lemma NoPrefixOfTwo(from: string, s: string)
    requires |from| >= 2 && |s| >= 2 && from[1] != s[1]
    ensures !(from <= s)
  {}

  lemma ReplaceOne(c: char, s: string, from: string, to: string)
    requires from != ""
    ensures !(from <= [c] + s) ==> Replace([c] + s, from, to) == [c] + Replace(s, from, to)
    ensures from == [c] ==> Replace([c] + s, from, to) == to + Replace(s, from, to)
  {
    assert ([c] + s)[1..] == s;
  }

  lemma ReplaceTwo(c: char, d: char, s: string, from: string, to: string)
    requires from != ""
    ensures !(from <= [c, d] + s) && !(from <= [d] + s) ==> Replace([c, d] + s, from, to) == [c, d] + Replace(s, from, to)
    ensures from == [c, d] ==> Replace([c, d] + s, from, to) == to + Replace(s, from, to)
  {
    var t := [c, d] + s;
    assert t[1..] == [d] + s && t[2..] == s && ([d] + s)[1..] == s;
    assert from == [c, d] ==> from <= t;
  }

  /** Reading a token back gives the key that was written, whatever tildes and slashes it holds. */
  lemma {:induction false} TokenRoundTrip(key: string)
    ensures UnescapeToken(EscapeToken(key)) == key
  {
    EscapesCharwise(key);
    FirstPass(key);
    SecondPass(key);
  }

  lemma {:induction false} FirstPass(key: string)
    ensures Replace(Escaped(key), "~1", "/") == HalfEscaped(key)
  {
    hide Replace;
    NothingReplaced("~1", "/");
    if key != "" {
      FirstPass(key[1..]);
      var rest := Escaped(key[1..]);
      if key[0] == '~' {
        assert Escaped(key) == ['~', '0'] + rest;
        NoPrefixOfTwo("~1", ['~', '0'] + rest);
        NoPrefix("~1", ['0'] + rest);
        ReplaceTwo('~', '0', rest, "~1", "/");
      } else if key[0] == '/' {
        assert Escaped(key) == ['~', '1'] + rest;
        ReplaceTwo('~', '1', rest, "~1", "/");
      } else {
        assert Escaped(key) == [key[0]] + rest;
        NoPrefix("~1", [key[0]] + rest);
        ReplaceOne(key[0], rest, "~1", "/");
      }
    }
  }

  lemma {:induction false} SecondPass(key: string)
    ensures Replace(HalfEscaped(key), "~0", "~") == key
  {
    hide Replace;
    NothingReplaced("~0", "~");
    if key != "" {
      var rest := HalfEscaped(key[1..]);
      SecondPass(key[1..]);
      assert key == [key[0]] + key[1..];
      if key[0] == '~' {
        assert HalfEscaped(key) == ['~', '0'] + rest;
        ReplaceTwo('~', '0', rest, "~0", "~");
      } else {
        assert HalfEscaped(key) == [key[0]] + rest;
        NoPrefix("~0", [key[0]] + rest);
        ReplaceOne(key[0], rest, "~0", "~");
      }
    }
  }

  lemma {:induction false} EscapedHasNoSlash(key: string)
    ensures '/' !in Escaped(key)
  {
    if key != "" {
      EscapedHasNoSlash(key[1..]);
    }
  }

  // ---------------------------------------------------------------- list indices

  /** Digits, with single underscores between them. */
  predicate IntegerDigits(s: string) {
    && s != "" && s[0] != '_' && s[|s| - 1] != '_'
    && forall i :: 0 <= i < |s| ==> IsDigit(s[i]) || Underscore(s, i)
  }

  predicate Underscore(s: string, i: nat) {
    i + 1 < |s| && s[i] == '_' && s[i + 1] != '_'
  }

  function DigitsOnly(s: string): (r: string)
    ensures forall c :: c in r ==> IsDigit(c)
  {
    if s == "" then "" else (if IsDigit(s[0]) then [s[0]] else "") + DigitsOnly(s[1..])
  }

  /** `int(key)`, over the ASCII digits. */
  function PyInt(key: string): Option<int> {
    var t := PyStrip(key);
    var signed := t != "" && (t[0] == '-' || t[0] == '+');
    var digits := if signed then t[1..] else t;
    if !IntegerDigits(digits) then None
    else
      var n: int := Value(DigitsOnly(digits));
      Some(if signed && t[0] == '-' then -n else n)
  }

  lemma {:induction false} DigitsStay(s: string)
    requires forall c :: c in s ==> IsDigit(c)
    ensures DigitsOnly(s) == s
  {
    if s != "" {
      assert s[0] in s;
      DigitsStay(s[1..]);
    }
  }

  lemma DigitsAsTheyAre(s: string)
    requires s != "" && forall c :: c in s ==> IsDigit(c)
    ensures PyStrip(s) == s && IntegerDigits(s) && IsDigit(s[0])
  {
    assert s[0] in s && s[|s| - 1] in s;
    forall i | 0 <= i < |s| ensures IsDigit(s[i]) {
      assert s[i] in s;
    }
  }

  lemma IndexRoundTrip(i: nat)
    ensures PyInt(Decimal(i)) == Some(i)
  {
    hide PyStrip, IntegerDigits, DigitsOnly, Decimal, Value;
    var s := Decimal(i);
    DigitsAsTheyAre(s);
    DigitsStay(s);
    ValueOfDecimal(i);
  }

  // ---------------------------------------------------------------- reading a pointer

  /** One step of the walk: a list takes an index (counted from the end when negative), an object a key. */
  function Child(cur: Json, key: string): Option<Json> {
    match cur
    case Arr(xs) =>
      (match PyInt(key)
       case None => None
       case Some(i) =>
         if 0 <= i < |xs| then Some(xs[i]) else if -|xs| <= i < 0 then Some(xs[|xs| + i]) else None)
    case Obj(fs) => Get(fs, key)
    case _ => None
  }

  function Walk(cur: Json, raws: seq<string>): Option<Json>
    decreases |raws|
  {
    if raws == [] then Some(cur)
    else
      match Child(cur, UnescapeToken(raws[0]))
      case None => None
      case Some(next) => Walk(next, raws[1..])
  }

  function Lookup(doc: Json, pointer: string): Option<Json> {
    if pointer == "" then Some(doc)
    else if pointer[0] != '/' then None
    else Walk(doc, Components(pointer[1..]))
  }

  /** None stands for any of the exceptions a bad pointer raises. */
  method PointerGet(doc: Json, pointer: string) returns (r: Option<Json>)
    ensures r == Lookup(doc, pointer)
  {
    if pointer == "" {
      return Some(doc);
    }
    if pointer[0] != '/' {
      return None;
    }
    var cur := doc;
    var raws := Components(pointer[1..]);
    var i := 0;
    while i < |raws|
      invariant i <= |raws|
      invariant Walk(cur, raws[i..]) == Walk(doc, raws)
    {
      assert raws[i..][1..] == raws[i + 1..];
      var next := Child(cur, UnescapeToken(raws[i]));
      if next.None? {
        return None;
      }
      cur, i := next.value, i + 1;
    }
    return Some(cur);
  }

  // ---------------------------------------------------------------- places in a document

  datatype Step = Key(key: string) | Index(index: nat)

  function Down(cur: Json, s: Step): Option<Json> {
    match s
    case Key(k) => if cur.Obj? then Get(cur.fields, k) else None
    case Index(i) => if cur.Arr? && i < |cur.items| then Some(cur.items[i]) else None
  }

  /** The node at the end of a path of keys and indices. */
  function At(doc: Json, steps: seq<Step>): Option<Json>
    decreases |steps|
  {
    if steps == [] then Some(doc)
    else
      match Down(doc, steps[0])
      case None => None
      case Some(next) => At(next, steps[1..])
  }

  function Token(s: Step): string {
    match s
    case Key(k) => EscapeToken(k)
    case Index(i) => Decimal(i)
  }

  function PointerTo(steps: seq<Step>): string {
    if steps == [] then "" else "/" + Token(steps[0]) + PointerTo(steps[1..])
  }

  function Tokens(steps: seq<Step>): seq<string> {
    if steps == [] then [] else [Token(steps[0])] + Tokens(steps[1..])
  }

  lemma TokenHasNoSlash(s: Step)
    ensures '/' !in Token(s)
  {
    match s
    case Key(k) =>
      EscapesCharwise(k);
      EscapedHasNoSlash(k);
    case Index(i) =>
  }

  /** The text of tokens, each behind a slash. */
  function PathText(raws: seq<string>): string {
    if raws == [] then "" else "/" + raws[0] + PathText(raws[1..])
  }

  lemma {:induction false} PathSplits(raws: seq<string>)
    requires raws != [] && forall i :: 0 <= i < |raws| ==> '/' !in raws[i]
    ensures PathText(raws) != "" && PathText(raws)[0] == '/'
    ensures Components(PathText(raws)[1..]) == raws
  {
    hide Components;
    var t, rest := raws[0], PathText(raws[1..]);
    NoSlash(t);
    AfterSlash(t, rest);
    if |raws| == 1 {
      assert t + rest == t;
    } else {
      PathSplits(raws[1..]);
      AfterSlash("", rest);
      assert t + rest == t + "/" + rest[1..];
      ComponentsCut(t, rest[1..]);
    }
  }

  lemma {:induction false} PointerIsPath(steps: seq<Step>)
    ensures PointerTo(steps) == PathText(Tokens(steps))
  {
    hide Token;
    if steps != [] {
      PointerIsPath(steps[1..]);
      assert Tokens(steps)[1..] == Tokens(steps[1..]);
    }
  }

  lemma {:induction false} TokensAreSlashFree(steps: seq<Step>)
    ensures forall i :: 0 <= i < |Tokens(steps)| ==> '/' !in Tokens(steps)[i]
  {
    hide Token;
    if steps != [] {
      TokenHasNoSlash(steps[0]);
      TokensAreSlashFree(steps[1..]);
    }
  }

  lemma PointerSplits(steps: seq<Step>)
    requires steps != []
    ensures PointerTo(steps) != "" && PointerTo(steps)[0] == '/'
    ensures Components(PointerTo(steps)[1..]) == Tokens(steps)
  {
    hide Components, Token, PathText, PointerTo;
    PointerIsPath(steps);
    TokensAreSlashFree(steps);
    PathSplits(Tokens(steps));
  }

  lemma AfterSlash(t: string, rest: string)
    ensures ("/" + t + rest)[1..] == t + rest
    ensures rest != "" && rest[0] == '/' ==> rest == "/" + rest[1..]
  {}

  /** A written token leads where its step leads. */
  lemma TokenLeadsDown(cur: Json, s: Step)
    requires Down(cur, s).Some?
    ensures Child(cur, UnescapeToken(Token(s))) == Down(cur, s)
  {
    hide EscapeToken, UnescapeToken, PyInt, Decimal;
    match s
    case Key(k) => TokenRoundTrip(k);
    case Index(i) =>
      IndexRoundTrip(i);
      DecimalUnescaped(i);
  }

  lemma {:induction false} WalkFollowsSteps(doc: Json, steps: seq<Step>)
    requires At(doc, steps).Some?
    ensures Walk(doc, Tokens(steps)) == At(doc, steps)
    decreases |steps|
  {
    hide Down, Child, UnescapeToken, Token;
    if steps != [] {
      TokenLeadsDown(doc, steps[0]);
      WalkFollowsSteps(Down(doc, steps[0]).value, steps[1..]);
      assert Tokens(steps)[1..] == Tokens(steps[1..]);
    }
  }

  lemma DecimalUnescaped(i: nat)
    ensures UnescapeToken(Decimal(i)) == Decimal(i)
  {
    NothingToReplace(Decimal(i), "~1", "/");
    NothingToReplace(Decimal(i), "~0", "~");
  }

  lemma {:induction false} NothingToReplace(s: string, from: string, to: string)
    requires from != "" && from[0] !in s
    ensures Replace(s, from, to) == s
  {
    if s != "" {
      assert s[0] in s;
      NothingToReplace(s[1..], from, to);
    }
  }

  /** The pointer of a place leads to that place. */
  lemma LookupFollowsSteps(doc: Json, steps: seq<Step>)
    requires At(doc, steps).Some?
    ensures Lookup(doc, PointerTo(steps)) == At(doc, steps)
  {
    if steps != [] {
      PointerSplits(steps);
      WalkFollowsSteps(doc, steps);
    }
  }

  // ---------------------------------------------------------------- finding the enums

  datatype Entry = Entry(pointer: string, values: seq<Json>)

  /** Every object with an enum list, in document order, under the pointer of its place. */
  function WalkEnums(node: Json, pointer: string): seq<Entry>
    decreases node
  {
    match node
    case Obj(fs) =>
      (match Get(fs, "enum")
       case Some(Arr(values)) => [Entry(pointer, values)]
       case _ => [])
      + WalkFields(fs, 0, pointer)
    case Arr(xs) => WalkItems(xs, 0, pointer)
    case _ => []
  }

  function WalkFields(fs: seq<Field>, k: nat, pointer: string): seq<Entry>
    requires k <= |fs|
    decreases fs, |fs| - k
  {
    if k == |fs| then []
    else WalkEnums(fs[k].value, pointer + ("/" + EscapeToken(fs[k].key))) + WalkFields(fs, k + 1, pointer)
  }

  function WalkItems(xs: seq<Json>, k: nat, pointer: string): seq<Entry>
    requires k <= |xs|
    decreases xs, |xs| - k
  {
    if k == |xs| then []
    else WalkEnums(xs[k], pointer + ("/" + Decimal(k))) + WalkItems(xs, k + 1, pointer)
  }

  predicate HoldsEnum(node: Option<Json>, values: seq<Json>) {
    node.Some? && node.value.Obj? && Get(node.value.fields, "enum") == Some(Arr(values))
  }

  lemma PointerAppend(pointer: string, s: Step, steps: seq<Step>)
    ensures pointer + ("/" + Token(s)) + PointerTo(steps) == pointer + PointerTo([s] + steps)
  {
    assert ([s] + steps)[1..] == steps;
  }

  lemma AtPrepend(doc: Json, s: Step, steps: seq<Step>)
    ensures At(doc, [s] + steps) == if Down(doc, s).Some? then At(Down(doc, s).value, steps) else None
  {
    assert ([s] + steps)[1..] == steps;
  }

  /** Each entry names a place, and the object there holds that enum. */
  lemma {:induction false} EntryHasPlace(node: Json, pointer: string, e: Entry) returns (steps: seq<Step>)
    requires Parsed(node) && e in WalkEnums(node, pointer)
    ensures e.pointer == pointer + PointerTo(steps) && HoldsEnum(At(node, steps), e.values)
    decreases node
  {
    hide Token;
    steps := [];
    match node
    case Obj(fs) =>
      if Get(fs, "enum").Some? && Get(fs, "enum").value.Arr? && e == Entry(pointer, Get(fs, "enum").value.items) {
        assert pointer + "" == pointer;
      } else {
        steps := FieldEntryHasPlace(fs, 0, pointer, e);
      }
    case Arr(xs) => steps := ItemEntryHasPlace(xs, 0, pointer, e);
  }

  lemma {:induction false} FieldEntryHasPlace(fs: seq<Field>, k: nat, pointer: string, e: Entry) returns (steps: seq<Step>)
    requires k <= |fs| && Parsed(Obj(fs)) && e in WalkFields(fs, k, pointer)
    ensures e.pointer == pointer + PointerTo(steps) && HoldsEnum(At(Obj(fs), steps), e.values)
    decreases fs, |fs| - k
  {
    hide HoldsEnum, Token, At, PointerTo;
    var here := Key(fs[k].key);
    TokenOfKey(fs[k].key);
    if e in WalkEnums(fs[k].value, pointer + ("/" + EscapeToken(fs[k].key))) {
      var more := EntryHasPlace(fs[k].value, pointer + ("/" + EscapeToken(fs[k].key)), e);
      steps := [here] + more;
      GetAt(fs, k);
      PointerAppend(pointer, here, more);
      AtPrepend(Obj(fs), here, more);
    } else {
      steps := FieldEntryHasPlace(fs, k + 1, pointer, e);
    }
  }

  lemma TokenOfKey(k: string)
    ensures Token(Key(k)) == EscapeToken(k)
  {}

  lemma TokenOfIndex(i: nat)
    ensures Token(Index(i)) == Decimal(i)
  {}

  lemma {:induction false} ItemEntryHasPlace(xs: seq<Json>, k: nat, pointer: string, e: Entry) returns (steps: seq<Step>)
    requires k <= |xs| && Parsed(Arr(xs)) && e in WalkItems(xs, k, pointer)
    ensures e.pointer == pointer + PointerTo(steps) && HoldsEnum(At(Arr(xs), steps), e.values)
    decreases xs, |xs| - k
  {
    hide HoldsEnum, Token, At, PointerTo, Decimal;
    TokenOfIndex(k);
    if e in WalkEnums(xs[k], pointer + ("/" + Decimal(k))) {
      var more := EntryHasPlace(xs[k], pointer + ("/" + Decimal(k)), e);
      steps := [Index(k)] + more;
      PointerAppend(pointer, Index(k), more);
      AtPrepend(Arr(xs), Index(k), more);
    } else {
      steps := ItemEntryHasPlace(xs, k + 1, pointer, e);
    }
  }

  /** Every place that holds an enum is listed. */
  lemma {:induction false} PlaceIsListed(node: Json, pointer: string, steps: seq<Step>, values: seq<Json>)
    requires HoldsEnum(At(node, steps), values)
    ensures Entry(pointer + PointerTo(steps), values) in WalkEnums(node, pointer)
    decreases |steps|
  {
    if steps == [] {
      assert pointer + "" == pointer;
    } else {
      var next := Down(node, steps[0]).value;
      var here := pointer + ("/" + Token(steps[0]));
      PlaceIsListed(next, here, steps[1..], values);
      PointerAppend(pointer, steps[0], steps[1..]);
      assert steps == [steps[0]] + steps[1..];
      match steps[0]
      case Key(k) =>
        var i := FieldIndex(node.fields, k);
        FieldIsListed(node.fields, 0, i, pointer, Entry(pointer + PointerTo(steps), values));
      case Index(i) => ItemIsListed(node.items, 0, i, pointer, Entry(pointer + PointerTo(steps), values));
    }
  }

  lemma {:induction false} FieldIndex(fs: seq<Field>, k: string) returns (i: nat)
    requires Get(fs, k).Some?
    ensures i < |fs| && fs[i].key == k && fs[i].value == Get(fs, k).value
  {
    if fs[0].key == k {
      i := 0;
    } else {
      i := FieldIndex(fs[1..], k);
      i := i + 1;
    }
  }

  lemma {:induction false} FieldIsListed(fs: seq<Field>, k: nat, i: nat, pointer: string, e: Entry)
    requires k <= i < |fs| && e in WalkEnums(fs[i].value, pointer + ("/" + EscapeToken(fs[i].key)))
    ensures e in WalkFields(fs, k, pointer)
    decreases i - k
  {
    hide WalkEnums, EscapeToken;
    if k < i {
      FieldIsListed(fs, k + 1, i, pointer, e);
    }
  }

  lemma {:induction false} ItemIsListed(xs: seq<Json>, k: nat, i: nat, pointer: string, e: Entry)
    requires k <= i < |xs| && e in WalkEnums(xs[i], pointer + ("/" + Decimal(i)))
    ensures e in WalkItems(xs, k, pointer)
    decreases i - k
  {
    hide WalkEnums, Decimal;
    if k < i {
      ItemIsListed(xs, k + 1, i, pointer, e);
    }
  }

  /** The walk lists exactly the places that hold an enum, and reading a listed pointer arrives at one. */
  lemma WalkEnumsIsExact(doc: Json, e: Entry)
    requires Parsed(doc)
    ensures e in WalkEnums(doc, "") <==> exists steps :: PointerTo(steps) == e.pointer && HoldsEnum(At(doc, steps), e.values)
    ensures e in WalkEnums(doc, "") ==> HoldsEnum(Lookup(doc, e.pointer), e.values)
  {
    hide WalkEnums, Lookup, At, PointerTo;
    if e in WalkEnums(doc, "") {
      var steps := EntryHasPlace(doc, "", e);
      assert "" + PointerTo(steps) == PointerTo(steps);
      LookupFollowsSteps(doc, steps);
    }
    forall steps | PointerTo(steps) == e.pointer && HoldsEnum(At(doc, steps), e.values) ensures e in WalkEnums(doc, "") {
      PlaceIsListed(doc, "", steps, e.values);
      assert "" + PointerTo(steps) == PointerTo(steps);
    }
  }

  // ---------------------------------------------------------------- editing one place

  function PutChild(cur: Json, s: Step, v: Json): Json
    requires Down(cur, s).Some?
  {
    match s
    case Key(k) => Obj(Set(cur.fields, k, v))
    case Index(i) => Arr(cur.items[i := v])
  }

  /** The document with the node at a place exchanged. */
  function Put(doc: Json, steps: seq<Step>, v: Json): Json
    requires At(doc, steps).Some?
    decreases |steps|
  {
    if steps == [] then v else PutChild(doc, steps[0], Put(Down(doc, steps[0]).value, steps[1..], v))
  }

  lemma DownPut(cur: Json, s: Step, v: Json, t: Step)
    requires Down(cur, s).Some?
    ensures Down(PutChild(cur, s, v), t) == if s == t then Some(v) else Down(cur, t)
  {
    if s.Key? && t.Key? {
      GetSet(cur.fields, s.key, v, t.key);
    }
  }

  lemma PrefixStep(p: seq<Step>, q: seq<Step>)
    requires p != [] && q != [] && p[0] == q[0]
    ensures p <= q <==> p[1..] <= q[1..]
    ensures q <= p <==> q[1..] <= p[1..]
    ensures p <= q ==> q[1..][|p| - 1..] == q[|p|..]
  {
    assert p == [p[0]] + p[1..] && q == [q[0]] + q[1..];
  }

  /** Below the exchanged place one sees the new node, off its path the old document. */
  lemma {:induction false} PutSeen(doc: Json, p: seq<Step>, v: Json, q: seq<Step>)
    requires At(doc, p).Some?
    ensures p <= q ==> At(Put(doc, p, v), q) == At(v, q[|p|..])
    ensures !(p <= q) && !(q <= p) ==> At(Put(doc, p, v), q) == At(doc, q)
    decreases |p|
  {
    hide Down, PutChild;
    if p == [] {
      assert q[0..] == q;
    } else if q != [] {
      var w := Put(Down(doc, p[0]).value, p[1..], v);
      DownPut(doc, p[0], w, q[0]);
      if p[0] == q[0] {
        PutSeen(Down(doc, p[0]).value, p[1..], v, q[1..]);
        PrefixStep(p, q);
      }
    }
  }

  // ---------------------------------------------------------------- schema mutants

  datatype Mutant =
    | DropRequired(pointer: string, property: Json)
    | WidenAdditional(pointer: string)
    | DropEnumValue(pointer: string, value: Json)
    | DropProperty(pointer: string, name: string)

  /** The first item equal to v. */
  function FirstEqual(xs: seq<Json>, v: Json): (r: Option<nat>)
    ensures r.Some? ==> r.value < |xs| && PyEq(xs[r.value], v) && forall i :: 0 <= i < r.value ==> !PyEq(xs[i], v)
    ensures r.None? ==> forall i :: 0 <= i < |xs| ==> !PyEq(xs[i], v)
  {
    if xs == [] then None
    else if PyEq(xs[0], v) then Some(0)
    else
      var r := FirstEqual(xs[1..], v);
      assert forall i :: 0 < i < |xs| ==> xs[i] == xs[1..][i - 1];
      if r.Some? then Some(r.value + 1) else None
  }

  /** `if v not in obj.get(key, []): raise`, then `obj[key].remove(v)`; only a list can be removed from. */
  function RemoveListed(fs: seq<Field>, key: string, v: Json): Option<seq<Field>> {
    match Get(fs, key)
    case Some(Arr(xs)) =>
      (match FirstEqual(xs, v)
       case None => None
       case Some(i) => Some(Set(fs, key, Arr(xs[..i] + xs[i + 1..]))))
    case _ => None
  }

  /** The mutated object, None for any refusal or exception. */
  function Edit(obj: Json, m: Mutant): Option<Json> {
    if !obj.Obj? then None
    else
      var fs := obj.fields;
      match m
      case DropRequired(_, v) =>
        (match RemoveListed(fs, "required", v) case None => None case Some(r) => Some(Obj(r)))
      case DropEnumValue(_, v) =>
        (match RemoveListed(fs, "enum", v) case None => None case Some(r) => Some(Obj(r)))
      case WidenAdditional(_) =>
        if Get(fs, "additionalProperties") == Some(Bool(false)) then Some(Obj(Set(fs, "additionalProperties", Bool(true))))
        else None
      case DropProperty(_, name) =>
        (match Get(fs, "properties")
         case Some(Obj(ps)) => if Get(ps, name).Some? then Some(Obj(Set(fs, "properties", Obj(Del(ps, name))))) else None
         case _ => None)
  }

  /** The document with the node a walk reaches exchanged, as mutation through the reference leaves it. */
  function Exchange(cur: Json, raws: seq<string>, v: Json): Json
    requires Walk(cur, raws).Some?
    decreases |raws|
  {
    if raws == [] then v
    else
      var key := UnescapeToken(raws[0]);
      var w := Exchange(Child(cur, key).value, raws[1..], v);
      match cur
      case Arr(xs) => Arr(xs[(if PyInt(key).value >= 0 then PyInt(key).value else |xs| + PyInt(key).value) := w])
      case Obj(fs) => Obj(Set(fs, key, w))
      case _ => cur
  }

  function Mutated(doc: Json, m: Mutant): Option<Json> {
    var at := Lookup(doc, m.pointer);
    if at.None? then None
    else
      var edited := Edit(at.value, m);
      if edited.None? then None
      else if m.pointer == "" then edited
      else Some(Exchange(doc, Components(m.pointer[1..]), edited.value))
  }

  method ApplyMutant(doc: Json, m: Mutant) returns (r: Option<Json>)
    ensures r == Mutated(doc, m)
  {
    var at := PointerGet(doc, m.pointer);
    if at.None? {
      return None;
    }
    var edited := Edit(at.value, m);
    if edited.None? {
      return None;
    }
    return if m.pointer == "" then edited else Some(Exchange(doc, Components(m.pointer[1..]), edited.value));
  }

  lemma {:induction false} ExchangeIsPut(doc: Json, steps: seq<Step>, v: Json)
    requires At(doc, steps).Some? && Walk(doc, Tokens(steps)).Some?
    ensures Exchange(doc, Tokens(steps), v) == Put(doc, steps, v)
    decreases |steps|
  {
    if steps != [] {
      match steps[0] {
        case Key(k) => TokenRoundTrip(k);
        case Index(i) =>
          IndexRoundTrip(i);
          DecimalUnescaped(i);
      }
      var next := Down(doc, steps[0]).value;
      WalkFollowsSteps(next, steps[1..]);
      ExchangeIsPut(next, steps[1..], v);
      assert Tokens(steps)[1..] == Tokens(steps[1..]);
    }
  }

  /** Mutating at a pointer exchanges exactly the node at its place. */
  lemma MutatedIsPut(doc: Json, steps: seq<Step>, m: Mutant)
    requires At(doc, steps).Some? && m.pointer == PointerTo(steps)
    ensures var edited := Edit(At(doc, steps).value, m);
      Mutated(doc, m) == if edited.None? then None else Some(Put(doc, steps, edited.value))
  {
    hide Edit, Exchange, Walk, Components, Token;
    LookupFollowsSteps(doc, steps);
    if steps != [] {
      PointerSplits(steps);
      WalkFollowsSteps(doc, steps);
      var edited := Edit(At(doc, steps).value, m);
      if edited.Some? {
        ExchangeIsPut(doc, steps, edited.value);
      }
    }
  }

  /** Inside the mutated object only the mutant's own field changes. */
  lemma EditTouchesOneField(obj: Json, m: Mutant, k: string)
    requires Edit(obj, m).Some?
    requires k != (match m case DropRequired(_, _) => "required" case DropEnumValue(_, _) => "enum"
                   case WidenAdditional(_) => "additionalProperties" case DropProperty(_, _) => "properties")
    ensures Edit(obj, m).value.Obj? && Get(Edit(obj, m).value.fields, k) == Get(obj.fields, k)
  {
    var fs := obj.fields;
    match m
    case DropRequired(_, v) =>
      var xs := Get(fs, "required").value.items;
      var i := FirstEqual(xs, v).value;
      GetSet(fs, "required", Arr(xs[..i] + xs[i + 1..]), k);
    case DropEnumValue(_, v) =>
      var xs := Get(fs, "enum").value.items;
      var i := FirstEqual(xs, v).value;
      GetSet(fs, "enum", Arr(xs[..i] + xs[i + 1..]), k);
    case WidenAdditional(_) => GetSet(fs, "additionalProperties", Bool(true), k);
    case DropProperty(_, name) => GetSet(fs, "properties", Obj(Del(Get(fs, "properties").value.fields, name)), k);
  }

  // ---------------------------------------------------------------- deriving mutants

  const MAX_REQUIRED_MUTANTS := 4
  const MAX_ENUM_MUTANTS := 2

  /** Deleting a property takes exactly that one out of the object's properties. */
  lemma DroppedPropertyGoes(obj: Json, pointer: string, name: string, k: string)
    requires Parsed(obj) && Edit(obj, DropProperty(pointer, name)).Some?
    ensures var was, now := Get(obj.fields, "properties"), Get(Edit(obj, DropProperty(pointer, name)).value.fields, "properties");
      && was.Some? && was.value.Obj? && now.Some? && now.value.Obj?
      && Get(now.value.fields, k) == if k == name then None else Get(was.value.fields, k)
  {
    var fs := obj.fields;
    var ps := Get(fs, "properties").value.fields;
    GetIsParsed(fs, "properties");
    GetSet(fs, "properties", Obj(Del(ps, name)), "properties");
    GetDel(ps, name, k);
  }

  lemma GetIsParsed(fs: seq<Field>, k: string)
    requires Parsed(Obj(fs)) && Get(fs, k).Some?
    ensures Parsed(Get(fs, k).value)
  {
    var i := FieldIndex(fs, k);
  }

  /** The list a mutant drops an item from, and the item. */
  function Shortened(m: Mutant): Option<(string, Json)> {
    match m
    case DropRequired(_, v) => Some(("required", v))
    case DropEnumValue(_, v) => Some(("enum", v))
    case _ => None
  }

  /** Dropping a listed value takes out its first occurrence and leaves the others in place. */
  lemma DroppedItemGoes(obj: Json, m: Mutant) returns (i: nat)
    requires Shortened(m).Some? && Edit(obj, m).Some?
    ensures var (key, v) := Shortened(m).value;
      var was, now := Get(obj.fields, key), Get(Edit(obj, m).value.fields, key);
      && was.Some? && was.value.Arr? && i < |was.value.items| && PyEq(was.value.items[i], v)
      && (forall j :: 0 <= j < i ==> !PyEq(was.value.items[j], v))
      && now == Some(Arr(was.value.items[..i] + was.value.items[i + 1..]))
  {
    var (key, v) := Shortened(m).value;
    var xs := Get(obj.fields, key).value.items;
    i := FirstEqual(xs, v).value;
    GetSet(obj.fields, key, Arr(xs[..i] + xs[i + 1..]), key);
  }

  /** Widening turns a closed object into an open one. */
  lemma WidenedIsOpen(obj: Json, pointer: string)
    requires Edit(obj, WidenAdditional(pointer)).Some?
    ensures Get(obj.fields, "additionalProperties") == Some(Bool(false))
    ensures Get(Edit(obj, WidenAdditional(pointer)).value.fields, "additionalProperties") == Some(Bool(true))
  {
    GetSet(obj.fields, "additionalProperties", Bool(true), "additionalProperties");
  }

  function Keys(fs: seq<Field>): (r: seq<Json>)
    ensures |r| == |fs|
  {
    seq(|fs|, i requires 0 <= i < |fs| => Str(fs[i].key))
  }

  /** `list(schema.get("required", []))`: a string or an object can be listed too; None for a TypeError. */
  function RequiredListed(fs: seq<Field>): Option<seq<Json>> {
    match Get(fs, "required")
    case None => Some([])
    case Some(Arr(xs)) => Some(xs)
    case Some(Str(t)) => Some(seq(|t|, i requires 0 <= i < |t| => Str([t[i]])))
    case Some(Obj(ks)) => Some(Keys(ks))
    case _ => None
  }

  function First<T>(xs: seq<T>, n: nat): seq<T> {
    if |xs| <= n then xs else xs[..n]
  }

  function DropsOf(props: seq<Json>): (r: seq<Mutant>)
    ensures |r| == |props|
  {
    seq(|props|, i requires 0 <= i < |props| => DropRequired("", props[i]))
  }

  function EnumDrops(es: seq<Entry>): seq<Mutant> {
    if es == [] then []
    else (if es[0].values == [] then [] else [DropEnumValue(es[0].pointer, es[0].values[0])]) + EnumDrops(es[1..])
  }

  function Derived(schema: Json): Option<seq<Mutant>> {
    if !schema.Obj? then None
    else
      var props := RequiredListed(schema.fields);
      if props.None? then None
      else
        Some(DropsOf(First(props.value, MAX_REQUIRED_MUTANTS))
             + (if Get(schema.fields, "additionalProperties") == Some(Bool(false)) then [WidenAdditional("")] else [])
             + EnumDrops(First(WalkEnums(schema, ""), MAX_ENUM_MUTANTS)))
  }

  method DeriveMutants(schema: Json) returns (r: Option<seq<Mutant>>)
    ensures r == Derived(schema)
  {
    hide WalkEnums, RequiredListed, EnumDrops;
    if !schema.Obj? {
      return None;
    }
    var listed := RequiredListed(schema.fields);
    if listed.None? {
      return None;
    }
    var mutants: seq<Mutant> := [];
    var props := First(listed.value, MAX_REQUIRED_MUTANTS);
    for i := 0 to |props|
      invariant mutants == DropsOf(props)[..i]
    {
      mutants := mutants + [DropRequired("", props[i])];
    }
    assert mutants == DropsOf(props);
    if Get(schema.fields, "additionalProperties") == Some(Bool(false)) {
      mutants := mutants + [WidenAdditional("")];
    }
    ghost var before := mutants;
    var es := First(WalkEnums(schema, ""), MAX_ENUM_MUTANTS);
    assert es[0..] == es;
    for i := 0 to |es|
      invariant mutants + EnumDrops(es[i..]) == before + EnumDrops(es)
    {
      EnumDropsStep(es, i);
      if es[i].values != [] {
        mutants := mutants + [DropEnumValue(es[i].pointer, es[i].values[0])];
      }
    }
    EnumDropsStep(es, |es|);
    assert mutants + [] == mutants;
    assert [] + DropsOf(props) == DropsOf(props) && DropsOf(props) + [] == DropsOf(props);
    return Some(mutants);
  }

  lemma EnumDropsStep(es: seq<Entry>, i: nat)
    requires i <= |es|
    ensures i == |es| ==> EnumDrops(es[i..]) == []
    ensures i < |es| ==>
      EnumDrops(es[i..])
      == (if es[i].values == [] then [] else [DropEnumValue(es[i].pointer, es[i].values[0])]) + EnumDrops(es[i + 1..])
  {
    assert i < |es| ==> es[i..][1..] == es[i + 1..];
  }

  lemma {:induction false} EnumDropSource(es: seq<Entry>, m: Mutant) returns (e: Entry)
    requires m in EnumDrops(es)
    ensures e in es && e.values != [] && m == DropEnumValue(e.pointer, e.values[0])
  {
    if es[0].values != [] && m == DropEnumValue(es[0].pointer, es[0].values[0]) {
      e := es[0];
    } else {
      e := EnumDropSource(es[1..], m);
    }
  }

  /** The two documents differ at most at the place and below it. */
  ghost predicate SameOutside(a: Json, b: Json, place: seq<Step>) {
    forall q: seq<Step> :: !(place <= q) && !(q <= place) ==> At(a, q) == At(b, q)
  }

  /** The court applied the mutant at its place, and there only. */
  ghost predicate AppliedAt(doc: Json, m: Mutant, place: seq<Step>) {
    && m.pointer == PointerTo(place) && At(doc, place).Some? && Edit(At(doc, place).value, m).Some?
    && Mutated(doc, m).Some? && SameOutside(doc, Mutated(doc, m).value, place)
    && At(Mutated(doc, m).value, place) == Edit(At(doc, place).value, m)
  }

  lemma AppliesAt(doc: Json, m: Mutant, place: seq<Step>)
    requires m.pointer == PointerTo(place) && At(doc, place).Some? && Edit(At(doc, place).value, m).Some?
    ensures AppliedAt(doc, m, place)
  {
    hide Edit, Put, PointerTo, Mutated;
    MutatedIsPut(doc, place, m);
    var v := Edit(At(doc, place).value, m).value;
    PutSeen(doc, place, v, place);
    assert place[|place|..] == [];
    forall q: seq<Step> | !(place <= q) && !(q <= place) ensures At(doc, q) == At(Put(doc, place, v), q) {
      PutSeen(doc, place, v, q);
    }
  }

  /** Mutants about the required list are accepted only where it is a list. */
  predicate RequiredIsList(schema: Json) {
    schema.Obj? && (Get(schema.fields, "required").None? || Get(schema.fields, "required").value.Arr?)
  }

  lemma DerivedKind(schema: Json, m: Mutant)
    requires Derived(schema).Some? && m in Derived(schema).value
    ensures m.DropRequired? ==> m.pointer == "" && m.property in RequiredListed(schema.fields).value
    ensures m.WidenAdditional? ==> m.pointer == "" && Get(schema.fields, "additionalProperties") == Some(Bool(false))
    ensures m.DropEnumValue? ==> m in EnumDrops(First(WalkEnums(schema, ""), MAX_ENUM_MUTANTS))
    ensures !m.DropProperty?
  {
    hide WalkEnums, RequiredListed;
    if m in EnumDrops(First(WalkEnums(schema, ""), MAX_ENUM_MUTANTS)) {
      var e := EnumDropSource(First(WalkEnums(schema, ""), MAX_ENUM_MUTANTS), m);
    }
  }

  lemma ListedItemIsRemoved(fs: seq<Field>, key: string, xs: seq<Json>, v: Json)
    requires Get(fs, key) == Some(Arr(xs)) && v in xs && Parsed(Obj(fs))
    ensures RemoveListed(fs, key, v).Some?
  {
    var f := FieldIndex(fs, key);
    var i :| 0 <= i < |xs| && xs[i] == v;
    assert Parsed(fs[f].value);
    PyEqReflexive(xs[i]);
  }

  /** Every mutant the backlog derives from a schema is accepted by the court and changes one place. */
  lemma DerivedMutantApplies(schema: Json, m: Mutant)
    requires Parsed(schema) && Derived(schema).Some? && m in Derived(schema).value
    requires m.DropRequired? ==> RequiredIsList(schema)
    ensures exists place :: AppliedAt(schema, m, place)
  {
    hide WalkEnums, AppliedAt, PointerTo, Parsed;
    DerivedKind(schema, m);
    if m.DropEnumValue? {
      var e := EnumDropSource(First(WalkEnums(schema, ""), MAX_ENUM_MUTANTS), m);
      EnumDropApplies(schema, e, m);
    } else {
      RootPlace(schema);
      if m.DropRequired? {
        ListedItemIsRemoved(schema.fields, "required", Get(schema.fields, "required").value.items, m.property);
      }
      AppliesAt(schema, m, []);
    }
  }

  lemma RootPlace(schema: Json)
    ensures PointerTo([]) == "" && At(schema, []) == Some(schema)
  {}

  lemma EnumDropApplies(schema: Json, e: Entry, m: Mutant)
    requires Parsed(schema) && e in WalkEnums(schema, "") && e.values != []
    requires m == DropEnumValue(e.pointer, e.values[0])
    ensures exists place :: AppliedAt(schema, m, place)
  {
    hide WalkEnums, AppliedAt, PointerTo, At, Parsed;
    var place := EntryHasPlace(schema, "", e);
    assert "" + PointerTo(place) == PointerTo(place);
    PartsAreParsed(schema, place);
    ListedItemIsRemoved(At(schema, place).value.fields, "enum", e.values, e.values[0]);
    AppliesAt(schema, m, place);
  }

  lemma {:induction false} PartsAreParsed(doc: Json, steps: seq<Step>)
    requires Parsed(doc) && At(doc, steps).Some?
    ensures Parsed(At(doc, steps).value)
    decreases |steps|
  {
    if steps != [] {
      if steps[0].Key? {
        var i := FieldIndex(doc.fields, steps[0].key);
      }
      PartsAreParsed(Down(doc, steps[0]).value, steps[1..]);
    }
  }

  /** All derived mutants are accepted exactly when the schema's required entry is absent, a list, or empty;
      a non-empty string or object is listed by one script and cannot be removed from by the other. */
  lemma DerivedAcceptance(schema: Json)
    requires Parsed(schema) && Derived(schema).Some?
    ensures (forall m :: m in Derived(schema).value ==> Mutated(schema, m).Some?)
        <==> RequiredIsList(schema) || RequiredListed(schema.fields).value == []
  {
    hide WalkEnums, Mutated, Parsed;
    if RequiredIsList(schema) || RequiredListed(schema.fields).value == [] {
      forall m | m in Derived(schema).value ensures Mutated(schema, m).Some? {
        DerivedKind(schema, m);
        DerivedMutantApplies(schema, m);
      }
    } else {
      UnlistedRefused(schema);
    }
  }

  lemma UnlistedRefused(schema: Json)
    requires Derived(schema).Some? && !RequiredIsList(schema) && RequiredListed(schema.fields).value != []
    ensures exists m :: m in Derived(schema).value && Mutated(schema, m).None?
  {
    hide WalkEnums, RequiredListed;
    var props := RequiredListed(schema.fields).value;
    var m := DropRequired("", props[0]);
    assert DropsOf(First(props, MAX_REQUIRED_MUTANTS))[0] == m;
    assert Derived(schema).value[0] == m;
    assert m in Derived(schema).value;
  }
}
