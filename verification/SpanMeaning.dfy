/** What binding an extraction means, over the fields of its items.

    For each refusal, which items draw it; for an item that draws none, what its candidate carries; and for the list, when
    it is accepted and what is returned. */
module SpanMeaning {
  import opened Common
  import opened Json
  import opened Text
  import opened Utf8
  import opened Spans

  // ---------------------------------------------------------------- an item's fields

  ghost predicate TextAt(fs: seq<Field>, key: string, s: string) {
    Get(fs, key) == Some(Str(s))
  }

  /** One text, or a list of texts. */
  predicate IsTexts(v: Json) {
    v.Str? || (v.Arr? && forall i :: 0 <= i < |v.items| ==> v.items[i].Str?)
  }

  predicate Lists(v: Json, s: string) {
    v == Str(s) || (v.Arr? && Str(s) in v.items)
  }

  predicate Visible(s: string) {
    exists i :: 0 <= i < |s| && !IsPySpace(s[i])
  }

  ghost predicate GoodGateField(v: Json) {
    && IsTexts(v) && (forall s :: Lists(v, s) ==> LocalName(s))
    && (v.Arr? ==> forall i, j :: 0 <= i < j < |v.items| ==> v.items[i] != v.items[j])
  }

  ghost predicate GoodHintField(f: Field) {
    && (exists h :: f.key == KeyName(h))
    && IsTexts(f.value) && (exists s :: Lists(f.value, s)) && forall s :: Lists(f.value, s) ==> Visible(s)
  }

  /** How often a quote occurs, overlapping occurrences included. */
  ghost function Occurrences(source: seq<Byte>, quote: string): nat {
    |set k: nat | k < |source| && Hit(source, Encode(quote), k)|
  }

  ghost predicate LeftOpen(fs: seq<Field>) {
    Get(fs, "occurrence").None? || Get(fs, "occurrence") == Some(Null)
  }

  ghost predicate KeysFit(fs: seq<Field>) {
    (forall i :: 0 <= i < |fs| ==> fs[i].key in ITEM_KEYS) && forall k :: k in REQUIRED_ITEM_KEYS ==> Get(fs, k).Some?
  }

  ghost predicate QuoteFits(fs: seq<Field>, quote: string) {
    TextAt(fs, "quote", quote) && quote != ""
  }

  /** What each refusal of an item means. Keys are looked at first, the texts next, and the rest only for a quote. */
  ghost predicate Broken(source: seq<Byte>, item: Json, code: Code) {
    if !item.Obj? then code.NoObject?
    else
      var fs := item.fields;
      match code
      case UnknownKey => exists i :: 0 <= i < |fs| && fs[i].key !in ITEM_KEYS
      case MissingKey => exists k :: k in REQUIRED_ITEM_KEYS && Get(fs, k).None?
      case WrongKind => KeysFit(fs) && !exists s :: s in KINDS && TextAt(fs, "kind", s)
      case WrongBoundary => KeysFit(fs) && !exists s :: s in BOUNDARY_CLASSES && TextAt(fs, "boundary_class", s)
      case WrongStatement =>
        KeysFit(fs) && !exists s :: TextAt(fs, "statement", s) && Visible(s) && '\n' !in s && '\r' !in s
      case WrongQuote => KeysFit(fs) && !exists q :: QuoteFits(fs, q)
      case WrongOccurrence =>
        KeysFit(fs) && (exists q :: QuoteFits(fs, q))
        && !LeftOpen(fs) && !exists n :: n >= 1 && Get(fs, "occurrence") == Some(Num(n))
      case WrongGates =>
        KeysFit(fs) && (exists q :: QuoteFits(fs, q))
        && Get(fs, "required_by").Some? && !GoodGateField(Get(fs, "required_by").value)
      case WrongHints =>
        KeysFit(fs) && (exists q :: QuoteFits(fs, q)) && Get(fs, "hints").Some?
        && !(Get(fs, "hints").value.Obj? && forall f :: f in Get(fs, "hints").value.fields ==> GoodHintField(f))
      case QuoteNotFound => KeysFit(fs) && exists q :: QuoteFits(fs, q) && Occurrences(source, q) == 0
      case QuoteAmbiguous => KeysFit(fs) && LeftOpen(fs) && exists q :: QuoteFits(fs, q) && Occurrences(source, q) > 1
      case OccurrenceOutOfRange =>
        KeysFit(fs)
        && exists q, n :: QuoteFits(fs, q) && Get(fs, "occurrence") == Some(Num(n)) && 0 < Occurrences(source, q) < n
      case _ => false
  }

  lemma TextAtIs(fs: seq<Field>, key: string)
    ensures forall s :: TextAt(fs, key, s) ==> Get(fs, key).Some? && Get(fs, key).value.Str? && Get(fs, key).value.s == s
    ensures Get(fs, key).Some? && Get(fs, key).value.Str? ==> TextAt(fs, key, Get(fs, key).value.s)
  {}

  lemma VisibleIff(s: string)
    ensures Visible(s) <==> !Blank(s)
  {
    assert forall i :: 0 <= i < |s| ==> s[i] in s;
  }

  lemma KeysFitIff(fs: seq<Field>)
    ensures UnknownKeys(fs) <==> exists i :: 0 <= i < |fs| && fs[i].key !in ITEM_KEYS
    ensures KeysFit(fs) <==> !UnknownKeys(fs) && !MissingKeys(fs)
  {
    hide ITEM_KEYS, REQUIRED_ITEM_KEYS, Get;
    assert forall i :: 0 <= i < |fs| ==> fs[i] in fs;
  }

  /** The local-name pattern: a letter, then name characters and dots, the last no dot; a final newline is overlooked. */
  lemma LocalNameIff(s: string)
    ensures LocalName(s) <==>
      exists name: string :: (s == name || s == name + "\n") && name != "" && Letter(name[0]) && NameChar(name[|name| - 1])
                             && forall i :: 0 <= i < |name| ==> NameChar(name[i]) || name[i] == '.'
  {
    var t := Chopped(s);
    assert s == t || s == t + "\n";
    assert forall i :: 0 <= i < |t| ==> t[i] in t;
    forall name: string | (s == name || s == name + "\n") && name != "" && NameChar(name[|name| - 1]) ensures t == name {
      if s == name + "\n" {
        assert (name + "\n")[..|name|] == name;
      }
    }
  }

  // ---------------------------------------------------------------- refusals

  lemma WhenIn(b: bool, code: Code, x: Code)
    ensures x in When(b, code) <==> b && x == code
  {}

  lemma TextFaultsAre(fs: seq<Field>, code: Code)
    requires !MissingKeys(fs)
    ensures code in TextFaults(fs) <==>
      || (code.WrongKind? && !exists s :: s in KINDS && TextAt(fs, "kind", s))
      || (code.WrongBoundary? && !exists s :: s in BOUNDARY_CLASSES && TextAt(fs, "boundary_class", s))
      || (code.WrongStatement? && !exists s :: TextAt(fs, "statement", s) && Visible(s) && '\n' !in s && '\r' !in s)
  {
    hide KINDS, BOUNDARY_CLASSES, Visible, Blank, TextAt;
    assert "kind" in REQUIRED_ITEM_KEYS && "boundary_class" in REQUIRED_ITEM_KEYS && "statement" in REQUIRED_ITEM_KEYS;
    TextAtIs(fs, "kind");
    TextAtIs(fs, "boundary_class");
    TextAtIs(fs, "statement");
    forall s ensures Visible(s) <==> !Blank(s) {
      VisibleIff(s);
    }
  }

  lemma StringsAre(v: Json)
    ensures Strings(v).Some? <==> IsTexts(v)
    ensures Strings(v).Some? ==> v.Str? || v.Arr?
    ensures Strings(v).Some? ==> forall s :: s in Strings(v).value <==> Lists(v, s)
  {
    if v.Arr? {
      assert forall i :: 0 <= i < |v.items| ==> v.items[i] in v.items;
      if Strings(v).Some? {
        var t := Strings(v).value;
        assert forall i :: 0 <= i < |v.items| ==> v.items[i] == Str(t[i]);
      }
    }
  }

  lemma StringsDistinct(v: Json)
    requires Strings(v).Some? && v.Arr?
    ensures Distinct(Strings(v).value) <==> forall i, j :: 0 <= i < j < |v.items| ==> v.items[i] != v.items[j]
  {
    var t := Strings(v).value;
    assert forall i :: 0 <= i < |v.items| ==> v.items[i] in v.items;
    assert forall i :: 0 <= i < |v.items| ==> v.items[i] == Str(t[i]);
  }

  lemma GateFieldIff(v: Json)
    ensures GoodGateField(v) <==>
      Strings(v).Some? && Distinct(Strings(v).value) && forall s :: s in Strings(v).value ==> LocalName(s)
  {
    hide LocalName, Strings, IsTexts, Lists;
    StringsAre(v);
    if v.Arr? && Strings(v).Some? {
      StringsDistinct(v);
    } else if v.Str? {
      OneString(v);
    }
  }

  lemma OneString(v: Json)
    requires v.Str?
    ensures Strings(v) == Some([v.s])
  {}

  lemma RequiredFaultsAre(fs: seq<Field>, code: Code)
    ensures code in RequiredFaults(fs) <==>
      code.WrongGates? && Get(fs, "required_by").Some? && !GoodGateField(Get(fs, "required_by").value)
  {
    hide LocalName, Strings, GoodGateField, Get;
    if Get(fs, "required_by").Some? {
      GateFieldIff(Get(fs, "required_by").value);
    }
  }

  lemma HintFieldIff(f: Field)
    ensures GoodHintField(f) <==> GoodHint(f)
  {
    hide Strings, IsTexts, Lists, Visible, Blank, KeyName, KeyNamed;
    StringsAre(f.value);
    KeyNamedIff(f.key);
    forall s ensures Visible(s) <==> !Blank(s) {
      VisibleIff(s);
    }
    if Strings(f.value).Some? && Strings(f.value).value != [] {
      assert Strings(f.value).value[0] in Strings(f.value).value;
    }
  }

  lemma KeyNamedIff(key: string)
    ensures KeyNamed(key).Some? <==> exists h :: key == KeyName(h)
    ensures KeyNamed(key).Some? ==> key == KeyName(KeyNamed(key).value)
  {
    if KeyNamed(key).Some? {
      assert key == KeyName(KeyNamed(key).value);
    }
    if h :| key == KeyName(h) {
      NamedIsKey(h);
    }
  }

  lemma NamedIsKey(h: HintKey)
    ensures KeyNamed(KeyName(h)) == Some(h)
  {
    assert "exclusion"[0] == 'e' && "falsifier"[0] == 'f';
    assert "evidenceHorizon"[0] == 'e' && "successorPolicy"[0] == 's';
  }

  lemma {:induction false} HintFaultsAre(fs: seq<Field>, code: Code)
    ensures code in HintFaults(fs) <==> code.WrongHints? && exists f :: f in fs && !GoodHintField(f)
  {
    hide GoodHintField, GoodHint;
    if fs != [] {
      HintFaultsAre(fs[1..], code);
      HintFieldIff(fs[0]);
      assert forall f :: f in fs <==> f == fs[0] || f in fs[1..];
    }
  }

  lemma OptionalFaultsAre(fs: seq<Field>, code: Code)
    ensures code in OptionalFaults(fs) <==>
      || (code.WrongOccurrence? && !LeftOpen(fs) && !exists n :: n >= 1 && Get(fs, "occurrence") == Some(Num(n)))
      || (code.WrongGates? && Get(fs, "required_by").Some? && !GoodGateField(Get(fs, "required_by").value))
      || (code.WrongHints? && Get(fs, "hints").Some?
          && !(Get(fs, "hints").value.Obj? && forall f :: f in Get(fs, "hints").value.fields ==> GoodHintField(f)))
  {
    hide GoodHintField, GoodGateField, RequiredFaults, HintFaults;
    RequiredFaultsAre(fs, code);
    if HintsOf(fs).Obj? {
      HintFaultsAre(HintsOf(fs).fields, code);
    }
    OccurrenceIff(fs);
    WhenIn(BadOccurrence(fs), WrongOccurrence, code);
  }

  lemma OccurrenceIff(fs: seq<Field>)
    ensures BadOccurrence(fs) <==> !LeftOpen(fs) && !exists n :: n >= 1 && Get(fs, "occurrence") == Some(Num(n))
  {
    hide Get;
  }

  lemma HitsCounted(source: seq<Byte>, quote: string)
    requires quote != ""
    ensures Encode(quote) != [] && |Hits(source, Encode(quote), 0)| == Occurrences(source, quote)
  {
    hide Hit, Hits;
    var needle := Encode(quote);
    var hits := Hits(source, needle, 0);
    HitsAreAll(source, needle);
    AscendingCounted(hits);
    forall k: nat ensures k in hits <==> k < |source| && Hit(source, needle, k) {
      HitFits(source, needle, k);
    }
    assert (set k: nat | k < |source| && Hit(source, needle, k)) == set k | k in hits;
  }

  lemma HitFits(source: seq<Byte>, needle: seq<Byte>, k: nat)
    requires needle != []
    ensures Hit(source, needle, k) ==> k < |source|
  {}

  lemma AscendingCounted(hits: seq<nat>)
    requires forall i, j :: 0 <= i < j < |hits| ==> hits[i] < hits[j]
    ensures |set k | k in hits| == |hits|
  {
    if hits == [] {
      assert (set k | k in hits) == {};
    } else {
      var m := |hits| - 1;
      CountBelow(hits, m);
      var below := set x: nat | x < hits[m] && x in hits;
      assert (set k | k in hits) == below + {hits[m]};
    }
  }

  lemma SpanFaultsAre(source: seq<Byte>, fs: seq<Field>, quote: string, code: Code)
    requires quote != ""
    ensures Encode(quote) != []
    ensures code in SpanFaults(fs, Hits(source, Encode(quote), 0)) <==>
      || (code.QuoteNotFound? && Occurrences(source, quote) == 0)
      || (code.QuoteAmbiguous? && LeftOpen(fs) && Occurrences(source, quote) > 1)
      || (code.OccurrenceOutOfRange?
          && exists n :: Get(fs, "occurrence") == Some(Num(n)) && 0 < Occurrences(source, quote) < n)
  {
    hide Hits, Occurrences, Get, Encode;
    HitsCounted(source, quote);
  }

  lemma QuoteIs(fs: seq<Field>)
    requires !MissingKeys(fs)
    ensures Required(fs, "quote") == Get(fs, "quote").value && "quote" in REQUIRED_ITEM_KEYS
    ensures forall q :: QuoteFits(fs, q) <==> Required(fs, "quote") == Str(q) && q != ""
  {
    assert "quote" in REQUIRED_ITEM_KEYS && Get(fs, "quote").Some?;
  }

  /** The codes an item is refused with are exactly the rules it breaks. */
  lemma RefusedIffBroken(source: seq<Byte>, item: Json, code: Code)
    ensures code in ItemFaults(source, item) <==> Broken(source, item, code)
  {
    hide TextFaults, OptionalFaults, SpanFaults, Hits, UnknownKeys, MissingKeys, KeysFit, Broken;
    hide Occurrences, Encode, QuoteFits, Get, ITEM_KEYS, REQUIRED_ITEM_KEYS;
    if item.Obj? {
      var fs := item.fields;
      KeysFitIff(fs);
      MissingIff(fs);
      if KeysFit(fs) {
        RulesBroken(source, fs, code);
      } else {
        KeysBroken(source, fs, code);
      }
    } else {
      NoObjectBroken(source, item, code);
    }
  }

  lemma NoObjectBroken(source: seq<Byte>, item: Json, code: Code)
    requires !item.Obj?
    ensures Broken(source, item, code) <==> code.NoObject?
  {}

  lemma KeysBroken(source: seq<Byte>, fs: seq<Field>, code: Code)
    requires !KeysFit(fs)
    ensures Broken(source, Obj(fs), code) <==> (code.UnknownKey? && UnknownKeys(fs)) || (code.MissingKey? && MissingKeys(fs))
  {
    hide KeysFit, GoodGateField, GoodHintField, Occurrences, LeftOpen, TextAt, Visible, QuoteFits, Get, KINDS, BOUNDARY_CLASSES, ITEM_KEYS, REQUIRED_ITEM_KEYS;
    KeysFitIff(fs);
    MissingIff(fs);
  }

  lemma RulesBroken(source: seq<Byte>, fs: seq<Field>, code: Code)
    requires KeysFit(fs)
    ensures code in ItemFaults(source, Obj(fs)) <==> Broken(source, Obj(fs), code)
  {
    hide TextFaults, OptionalFaults, SpanFaults, Hits, UnknownKeys, MissingKeys, KeysFit, GoodGateField, GoodHintField;
    hide Occurrences, LeftOpen, Encode, TextAt, Visible, QuoteFits, Get, KINDS, BOUNDARY_CLASSES, ITEM_KEYS, REQUIRED_ITEM_KEYS;
    KeysFitIff(fs);
    MissingIff(fs);
    QuoteIs(fs);
    TextFaultsAre(fs, code);
    OptionalFaultsAre(fs, code);
    var quote := Required(fs, "quote");
    if quote.Str? && quote.s != "" {
      SpanFaultsAre(source, fs, quote.s, code);
      assert QuoteFits(fs, quote.s);
    }
  }

  lemma MissingIff(fs: seq<Field>)
    ensures MissingKeys(fs) <==> exists k :: k in REQUIRED_ITEM_KEYS && Get(fs, k).None?
  {
    hide Get;
  }

  // ---------------------------------------------------------------- candidates

  /** What the field lists, sorted and without repeats. */
  ghost predicate SortedTexts(r: seq<string>, field: Option<Json>) {
    && (forall i, j :: 0 <= i < j < |r| ==> LexLess(r[i], r[j]))
    && forall s :: s in r <==> field.Some? && Lists(field.value, s)
  }

  ghost function HintField(fs: seq<Field>, h: HintKey): Option<Json> {
    match Get(fs, "hints")
    case Some(Obj(hs)) => Get(hs, KeyName(h))
    case _ => None
  }

  /** The candidate carries the item's four texts, its gates and its hints. */
  ghost predicate Says(fs: seq<Field>, c: Candidate) {
    && TextAt(fs, "kind", c.kind) && TextAt(fs, "statement", c.statement)
    && TextAt(fs, "boundary_class", c.boundary) && TextAt(fs, "quote", c.text)
    && SortedTexts(c.required, Get(fs, "required_by"))
    && (forall h :: h in c.hints <==> HintField(fs, h).Some?)
    && forall h :: h in c.hints ==> SortedTexts(c.hints[h], HintField(fs, h))
  }

  /** Its span quotes the source at the place the occurrence counts to, or at the only place. */
  ghost predicate Located(source: seq<Byte>, fs: seq<Field>, c: Candidate) {
    && c.start < c.end <= |source| && source[c.start..c.end] == Encode(c.text)
    && match Get(fs, "occurrence")
       case Some(Num(n)) => |set k: nat | k < c.start && Hit(source, Encode(c.text), k)| == n - 1
       case _ => forall k: nat :: Hit(source, Encode(c.text), k) ==> k == c.start
  }

  function NameText(sha: string, start: nat, end: nat, kind: string): string {
    sha + (":" + (Decimal(start) + (":" + (Decimal(end) + (":" + kind)))))
  }

  ghost predicate Named(d: Digest, c: Candidate) {
    var h := d.hash(NameText(d.source, c.start, c.end, c.kind));
    c.local == "P-" + if |h| < 16 then h else h[..16]
  }

  ghost predicate Describes(source: seq<Byte>, d: Digest, item: Json, c: Candidate) {
    item.Obj? && Says(item.fields, c) && Located(source, item.fields, c) && Named(d, c)
  }

  /** The digested text of a name tells digest-mates with different spans or kinds apart. */
  lemma NameTextIsUnique(sha: string, a: nat, b: nat, kind: string, x: nat, y: nat, other: string)
    requires NameText(sha, a, b, kind) == NameText(sha, x, y, other)
    ensures a == x && b == y && kind == other
  {
    hide Decimal;
    var p, q := ":" + (Decimal(a) + (":" + (Decimal(b) + (":" + kind)))), ":" + (Decimal(x) + (":" + (Decimal(y) + (":" + other))));
    assert (sha + p)[|sha|..] == p && (sha + q)[|sha|..] == q;
    assert p[1..] == Decimal(a) + (":" + (Decimal(b) + (":" + kind))) && q[1..] == Decimal(x) + (":" + (Decimal(y) + (":" + other)));
    NumeralCut(a, Decimal(b) + (":" + kind), x, Decimal(y) + (":" + other));
    NumeralCut(b, kind, y, other);
  }

  lemma NumeralRun(a: nat, s: string)
    ensures Run(Decimal(a) + (":" + s), IsDigit) == |Decimal(a)|
  {
    hide Decimal;
    var l := Decimal(a) + (":" + s);
    assert forall c :: c in Decimal(a) ==> IsDigit(c);
    assert l[|Decimal(a)|] == ':';
    RunIs(l, IsDigit, |Decimal(a)|);
  }

  lemma NumeralCut(a: nat, s: string, x: nat, t: string)
    requires Decimal(a) + (":" + s) == Decimal(x) + (":" + t)
    ensures a == x && s == t
  {
    hide Decimal, Run;
    var l, r, m := Decimal(a) + (":" + s), Decimal(x) + (":" + t), |Decimal(a)|;
    NumeralRun(a, s);
    NumeralRun(x, t);
    assert l[..m] == Decimal(a) && r[..m] == Decimal(x) && l[m + 1..] == s && r[m + 1..] == t;
    DecimalInjective(a, x);
  }

  lemma NameIs(d: Digest, start: nat, end: nat, kind: string)
    ensures d.source + ":" + Numeral(start) + ":" + Numeral(end) + ":" + kind == NameText(d.source, start, end, kind)
  {
    hide Decimal;
    var a, b := Decimal(start), Decimal(end);
    assert d.source + ":" + a + ":" + b + ":" + kind == d.source + (":" + (a + (":" + (b + (":" + kind)))));
  }

  lemma {:induction false} HintMapIs(fs: seq<Field>, h: HintKey)
    requires DistinctKeys(fs) && forall f :: f in fs ==> GoodHint(f)
    ensures h in HintMap(fs) <==> Get(fs, KeyName(h)).Some?
    ensures h in HintMap(fs) ==>
      Strings(Get(fs, KeyName(h)).value).Some? && HintMap(fs)[h] == SortedSet(Strings(Get(fs, KeyName(h)).value).value)
  {
    hide KeyName, KeyNamed, Strings, SortedSet, Blank;
    if fs != [] {
      assert fs[0] in fs;
      assert DistinctKeys(fs[1..]);
      HintMapIs(fs[1..], h);
      KeyNamedIff(fs[0].key);
      NamedIsKey(h);
      FirstOnly(fs);
    }
  }

  lemma FirstOnly(fs: seq<Field>)
    requires DistinctKeys(fs) && fs != []
    ensures Get(fs[1..], fs[0].key).None?
    ensures Get(fs, fs[0].key) == Some(fs[0].value)
    ensures forall k :: k != fs[0].key ==> Get(fs, k) == Get(fs[1..], k)
  {}

  lemma SetIsSorted(v: Json)
    requires Strings(v).Some?
    ensures SortedTexts(SortedSet(Strings(v).value), Some(v))
  {
    hide LexLess, SortedSet, Strings, Lists;
    SortedSetAscends(Strings(v).value);
    StringsAre(v);
  }

  lemma ItemParts(fs: seq<Field>, key: string)
    requires Parsed(Obj(fs)) && Get(fs, key).Some?
    ensures Parsed(Get(fs, key).value)
  {
    var i :| 0 <= i < |fs| && fs[i].key == key;
    GetAt(fs, i);
  }

  lemma GatesSay(fs: seq<Field>)
    requires OptionalFaults(fs) == []
    ensures SortedTexts(SortedSet(Gates(fs)), Get(fs, "required_by"))
  {
    hide LexLess, SortedSet, Strings, Get, HintFaults, BadOccurrence, LocalName, Distinct;
    assert RequiredFaults(fs) == [];
    if Get(fs, "required_by").Some? {
      SetIsSorted(Get(fs, "required_by").value);
    } else {
      NoneSorted();
    }
  }

  lemma NoneSorted()
    ensures SortedSet([]) == []
  {}

  lemma {:induction false} NoHintFaults(fs: seq<Field>)
    requires HintFaults(fs) == []
    ensures forall f :: f in fs ==> GoodHint(f)
  {
    hide GoodHint;
    if fs != [] {
      NoHintFaults(fs[1..]);
    }
  }

  lemma HintsSay(fs: seq<Field>, h: HintKey)
    requires Parsed(Obj(fs)) && OptionalFaults(fs) == []
    ensures h in HintMap(HintFields(fs)) <==> HintField(fs, h).Some?
    ensures h in HintMap(HintFields(fs)) ==> SortedTexts(HintMap(HintFields(fs))[h], HintField(fs, h))
  {
    hide SortedTexts, SortedSet, Strings, GoodHint, HintMap, RequiredFaults, BadOccurrence, KeyName, Get;
    var hints := Get(fs, "hints");
    if hints.Some? && hints.value.Obj? {
      ItemParts(fs, "hints");
      NoHintFaults(hints.value.fields);
      HintMapIs(hints.value.fields, h);
      if h in HintMap(hints.value.fields) {
        SetIsSorted(Get(hints.value.fields, KeyName(h)).value);
      }
    } else {
      assert hints.None?;
      NoHints();
    }
  }

  lemma NoHints()
    ensures HintMap([]) == map[]
  {}

  lemma TextsSay(fs: seq<Field>)
    requires !MissingKeys(fs) && TextFaults(fs) == [] && Required(fs, "quote").Str?
    ensures TextAt(fs, "kind", Required(fs, "kind").s) && TextAt(fs, "statement", Required(fs, "statement").s)
    ensures TextAt(fs, "boundary_class", Required(fs, "boundary_class").s) && TextAt(fs, "quote", Required(fs, "quote").s)
  {
    hide KINDS, BOUNDARY_CLASSES, Blank, Get;
    Texted(fs);
    assert forall k :: k in REQUIRED_ITEM_KEYS ==> Get(fs, k).Some?;
    assert "kind" in REQUIRED_ITEM_KEYS && "statement" in REQUIRED_ITEM_KEYS;
    assert "boundary_class" in REQUIRED_ITEM_KEYS && "quote" in REQUIRED_ITEM_KEYS;
  }

  lemma BoundIsLocated(source: seq<Byte>, d: Digest, item: Json)
    requires FaultFree(source, item)
    ensures Located(source, item.fields, Bound(source, d, item))
  {
    hide OptionalFaults, TextFaults, SpanFaults, Hits, Encode, Bound, Get, HintFaults, RequiredFaults;
    QuoteIsCut(source, d, item);
    BoundPicks(source, d, item);
    NoBooleanOccurrence(item.fields);
  }

  lemma NoBooleanOccurrence(fs: seq<Field>)
    requires OptionalFaults(fs) == []
    ensures Get(fs, "occurrence") == match Occurrence(fs)
      case Some(n) => Some(Num(n))
      case None => if Get(fs, "occurrence").Some? then Some(Null) else None
  {
    hide HintFaults, RequiredFaults, Get;
    assert !BadOccurrence(fs);
  }

  /** Binding an item gives a candidate that carries the item's own texts, gates and hints, at the place its quote stands
      for. */
  lemma BoundDescribes(source: seq<Byte>, d: Digest, item: Json)
    requires Parsed(item) && FaultFree(source, item)
    ensures Describes(source, d, item, Bound(source, d, item))
  {
    hide OptionalFaults, TextFaults, SpanFaults, Hits, Encode, Chosen, SortedSet, HintMap, Gates, HintFields, HintField, SortedTexts, TextAt;
    hide Located, Get, Numeral, Decimal, Required, NameText;
    var fs := item.fields;
    var c := Bound(source, d, item);
    TextsSay(fs);
    GatesSay(fs);
    forall h ensures h in c.hints <==> HintField(fs, h).Some?
      ensures h in c.hints ==> SortedTexts(c.hints[h], HintField(fs, h))
    {
      HintsSay(fs, h);
    }
    BoundIsLocated(source, d, item);
    NameIs(d, c.start, c.end, c.kind);
  }

  lemma {:induction false} SortedIsUnique(a: seq<string>, b: seq<string>)
    requires (forall i, j :: 0 <= i < j < |a| ==> LexLess(a[i], a[j])) && (forall i, j :: 0 <= i < j < |b| ==> LexLess(b[i], b[j]))
    requires forall s :: s in a <==> s in b
    ensures a == b
  {
    hide LexLess;
    assert forall i :: 0 <= i < |a| ==> a[i] in a;
    assert forall i :: 0 <= i < |b| ==> b[i] in b;
    if a != [] && b != [] {
      assert a[0] in b && b[0] in a;
      LexAsymmetric(a[0], b[0]);
      LexTotal(a[0], a[0]);
      assert a[0] == b[0];
      forall s ensures s in a[1..] <==> s in b[1..] {
        assert s in a <==> s == a[0] || s in a[1..];
        assert s in b <==> s == b[0] || s in b[1..];
        assert s in a[1..] ==> LexLess(a[0], s);
        assert s in b[1..] ==> LexLess(b[0], s);
      }
      SortedIsUnique(a[1..], b[1..]);
      assert a == [a[0]] + a[1..] && b == [b[0]] + b[1..];
    }
  }

  lemma SortedTextsAreUnique(a: seq<string>, b: seq<string>, field: Option<Json>)
    requires SortedTexts(a, field) && SortedTexts(b, field)
    ensures a == b
  {
    hide LexLess, Lists;
    SortedIsUnique(a, b);
  }

  lemma PlaceIsUnique(source: seq<Byte>, fs: seq<Field>, c: Candidate, e: Candidate)
    requires Located(source, fs, c) && Located(source, fs, e) && c.text == e.text
    ensures c.start >= e.start
  {
    hide Encode;
    var needle := Encode(c.text);
    assert c.end == c.start + |needle| && e.end == e.start + |needle|;
    assert Hit(source, needle, c.start) && Hit(source, needle, e.start);
    var before := set k: nat | k < c.start && Hit(source, needle, k);
    var later := set k: nat | k < e.start && Hit(source, needle, k);
    if c.start < e.start {
      assert before + {c.start} <= later && c.start !in before;
      Fewer(before + {c.start}, later);
    }
  }

  lemma Fewer(a: set<nat>, b: set<nat>)
    requires a <= b
    ensures |a| <= |b|
  {
    assert b == a + (b - a);
  }

  /** The description leaves no choice: an item has at most one candidate. */
  lemma DescribedOnce(source: seq<Byte>, d: Digest, item: Json, c: Candidate, e: Candidate)
    requires Describes(source, d, item, c) && Describes(source, d, item, e)
    ensures c == e
  {
    hide HintField, SortedTexts, Get, NameText, Encode;
    var fs := item.fields;
    SameTexts(fs, c, e);
    SortedTextsAreUnique(c.required, e.required, Get(fs, "required_by"));
    forall h | h in c.hints ensures c.hints[h] == e.hints[h] {
      SortedTextsAreUnique(c.hints[h], e.hints[h], HintField(fs, h));
    }
    assert c.hints == e.hints;
    PlaceIsUnique(source, fs, c, e);
    PlaceIsUnique(source, fs, e, c);
    LengthOf(source, fs, c);
    LengthOf(source, fs, e);
  }

  lemma SameTexts(fs: seq<Field>, c: Candidate, e: Candidate)
    requires Says(fs, c) && Says(fs, e)
    ensures c.kind == e.kind && c.statement == e.statement && c.boundary == e.boundary && c.text == e.text
  {
    hide Get, SortedTexts, HintField;
  }

  lemma LengthOf(source: seq<Byte>, fs: seq<Field>, c: Candidate)
    requires Located(source, fs, c)
    ensures c.end == c.start + |Encode(c.text)|
  {
    hide Encode, Get;
  }

  // ---------------------------------------------------------------- the whole list

  /** Every item breaks no rule, has its candidate, and no two candidates share a name. */
  ghost predicate Binding(source: seq<Byte>, d: Digest, items: seq<Json>, cs: seq<Candidate>) {
    && |cs| == |items|
    && (forall i :: 0 <= i < |items| ==> (forall code :: !Broken(source, items[i], code)) && Describes(source, d, items[i], cs[i]))
    && DistinctNames(cs)
  }

  lemma FaultFreeMeans(source: seq<Byte>, item: Json)
    ensures FaultFree(source, item) <==> forall code :: !Broken(source, item, code)
  {
    hide ItemFaults, FaultFree, Broken;
    FaultFreeIff(source, item);
    forall code ensures code in ItemFaults(source, item) <==> Broken(source, item, code) {
      RefusedIffBroken(source, item, code);
    }
    if ItemFaults(source, item) != [] {
      assert ItemFaults(source, item)[0] in ItemFaults(source, item);
    }
  }

  lemma AcceptableBinds(source: seq<Byte>, d: Digest, items: seq<Json>)
    requires Parsed(Arr(items)) && Acceptable(source, d, items)
    ensures Binding(source, d, items, AllBound(source, d, items))
  {
    hide FaultFree, Bound, Broken, Describes;
    var cs := AllBound(source, d, items);
    forall i | 0 <= i < |items|
      ensures (forall code :: !Broken(source, items[i], code)) && Describes(source, d, items[i], cs[i])
    {
      assert items[i] in items;
      FaultFreeMeans(source, items[i]);
      BoundDescribes(source, d, items[i]);
    }
  }

  lemma BindingIsAcceptable(source: seq<Byte>, d: Digest, items: seq<Json>, cs: seq<Candidate>)
    requires Parsed(Arr(items)) && Binding(source, d, items, cs)
    ensures Acceptable(source, d, items) && cs == AllBound(source, d, items)
  {
    hide FaultFree, Bound, Broken, Describes;
    forall i | 0 <= i < |items| ensures FaultFree(source, items[i]) && cs[i] == Bound(source, d, items[i]) {
      FaultFreeMeans(source, items[i]);
      BoundDescribes(source, d, items[i]);
      DescribedOnce(source, d, items[i], cs[i], Bound(source, d, items[i]));
    }
  }

  /** The one text is a proper beginning of the other, or has the smaller character where they first differ. */
  ghost predicate Smaller(a: string, b: string) {
    a < b || exists k :: DiffersAt(a, b, k)
  }

  predicate DiffersAt(a: string, b: string, k: int) {
    0 <= k < |a| && k < |b| && a[..k] == b[..k] && a[k] < b[k]
  }

  lemma {:induction false} LexLessIff(a: string, b: string)
    ensures LexLess(a, b) <==> Smaller(a, b)
  {
    if a != "" && b != "" && a[0] == b[0] {
      LexLessIff(a[1..], b[1..]);
      SmallerTails(a[0], a[1..], b[1..]);
      assert a == [a[0]] + a[1..] && b == [a[0]] + b[1..];
    } else if a != "" && b != "" {
      HeadsDiffer(a, b);
    }
  }

  lemma HeadsDiffer(a: string, b: string)
    requires a != "" && b != "" && a[0] != b[0]
    ensures Smaller(a, b) <==> a[0] < b[0]
  {
    if a[0] < b[0] {
      assert DiffersAt(a, b, 0);
    }
    if k :| DiffersAt(a, b, k) {
      assert k > 0 ==> a[..k][0] == b[..k][0];
    }
  }

  lemma SmallerTails(c: char, x: string, y: string)
    ensures Smaller([c] + x, [c] + y) <==> Smaller(x, y)
  {
    var a, b := [c] + x, [c] + y;
    assert a[1..] == x && b[1..] == y;
    assert x <= y ==> b == a + y[|x|..];
    assert a <= b ==> y == x + b[|a|..];
    if k :| DiffersAt(x, y, k) {
      assert a[..k + 1] == [c] + x[..k] && b[..k + 1] == [c] + y[..k];
      assert DiffersAt(a, b, k + 1);
    }
    if k :| DiffersAt(a, b, k) {
      assert x[..k - 1] == a[..k][1..] && y[..k - 1] == b[..k][1..];
      assert DiffersAt(x, y, k - 1);
    }
  }

  /** By start, then kind, then end, then name. */
  ghost predicate Earlier(a: Candidate, b: Candidate) {
    if a.start != b.start then a.start < b.start
    else if a.kind != b.kind then Smaller(a.kind, b.kind)
    else if a.end != b.end then a.end < b.end
    else Smaller(a.local, b.local)
  }

  lemma EarlierIff(a: Candidate, b: Candidate)
    ensures Before(a, b) <==> Earlier(a, b)
  {
    hide LexLess, Smaller;
    LexLessIff(a.kind, b.kind);
    LexLessIff(a.local, b.local);
    LexTotal(a.kind, b.kind);
    LexIrreflexive(a.kind);
  }

  lemma LexIrreflexive(a: string)
    ensures !LexLess(a, a)
  {
    LexAsymmetric(a, a);
  }

  /** The candidates of an accepted list, in the order they are returned. */
  ghost predicate Sorted(r: seq<Candidate>, cs: seq<Candidate>) {
    multiset(r) == multiset(cs) && forall i, j :: 0 <= i < j < |r| ==> Earlier(r[i], r[j])
  }

  /** A parsed list is refused nothing exactly if it has a binding, and what is returned is that binding, sorted. */
  lemma ResolvedMeans(source: seq<Byte>, d: Digest, items: seq<Json>)
    requires Parsed(Arr(items))
    ensures Resolved(source, d, items).0 == [] <==> exists cs :: Binding(source, d, items, cs)
    ensures forall cs :: Binding(source, d, items, cs) ==> Sorted(InOrder(Resolved(source, d, items).1), cs)
  {
    hide Binding, Acceptable, Resolved, InOrder, Before, Earlier, DistinctNames;
    AcceptedIff(source, d, items);
    if Acceptable(source, d, items) {
      AcceptableBinds(source, d, items);
    }
    forall cs | Binding(source, d, items, cs)
      ensures Resolved(source, d, items).0 == [] && Sorted(InOrder(Resolved(source, d, items).1), cs)
    {
      BindingIsAcceptable(source, d, items, cs);
      NamesDiffer(source, d, items, cs);
      InOrderIs(cs);
      forall a: Candidate, b: Candidate ensures Before(a, b) <==> Earlier(a, b) {
        EarlierIff(a, b);
      }
    }
  }

  lemma NamesDiffer(source: seq<Byte>, d: Digest, items: seq<Json>, cs: seq<Candidate>)
    requires Binding(source, d, items, cs)
    ensures DistinctNames(cs)
  {
    hide Describes, Broken, DistinctNames;
  }
}
