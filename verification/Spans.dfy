/** Binding extracted propositions to the byte spans they quote. */
module Spans {
  import opened Json
  import opened Common
  import opened Text
  import opened Utf8

  // ---------------------------------------------------------------- quotes in bytes

  predicate Hit(haystack: seq<Byte>, needle: seq<Byte>, at: int) {
    0 <= at && at + |needle| <= |haystack| && haystack[at..at + |needle|] == needle
  }

  /** `haystack.find(needle, at)`: the first hit from at on. */
  function Find(haystack: seq<Byte>, needle: seq<Byte>, at: nat): (r: Option<nat>)
    ensures r.Some? ==> r.value >= at && Hit(haystack, needle, r.value) && forall k :: at <= k < r.value ==> !Hit(haystack, needle, k)
    ensures r.None? ==> forall k :: k >= at ==> !Hit(haystack, needle, k)
    decreases |haystack| - at
  {
    if at + |needle| > |haystack| then None
    else if Hit(haystack, needle, at) then Some(at)
    else if at + |needle| == |haystack| then None
    else Find(haystack, needle, at + 1)
  }

  /** All positions where the needle occurs, overlapping ones included, in ascending order. */
  ghost predicate AllHits(haystack: seq<Byte>, needle: seq<Byte>, hits: seq<nat>) {
    && (forall i, j :: 0 <= i < j < |hits| ==> hits[i] < hits[j])
    && forall k: nat :: k in hits <==> Hit(haystack, needle, k)
  }

  function Hits(haystack: seq<Byte>, needle: seq<Byte>, at: nat): (hits: seq<nat>)
    requires needle != []
    decreases |haystack| - at
  {
    match Find(haystack, needle, at)
    case None => []
    case Some(k) => [k] + Hits(haystack, needle, k + 1)
  }

  method FindAll(haystack: seq<Byte>, needle: seq<Byte>) returns (hits: seq<nat>)
    requires needle != []
    ensures hits == Hits(haystack, needle, 0)
  {
    hide Hit, Find, Hits;
    hits := [];
    var at := Find(haystack, needle, 0);
    FindBound(haystack, needle, 0);
    HitsStep(haystack, needle, 0);
    while at.Some?
      invariant at.Some? ==> at.value < |haystack|
      invariant hits + (match at case None => [] case Some(k) => [k] + Hits(haystack, needle, k + 1)) == Hits(haystack, needle, 0)
      decreases if at.Some? then |haystack| - at.value else -1
    {
      var k := at.value;
      FindBound(haystack, needle, k + 1);
      HitsStep(haystack, needle, k + 1);
      assert hits + ([k] + Hits(haystack, needle, k + 1)) == (hits + [k]) + Hits(haystack, needle, k + 1);
      hits := hits + [k];
      at := Find(haystack, needle, k + 1);
    }
  }

  lemma HitsStep(haystack: seq<Byte>, needle: seq<Byte>, at: nat)
    requires needle != []
    ensures Hits(haystack, needle, at) == match Find(haystack, needle, at) case None => [] case Some(k) => [k] + Hits(haystack, needle, k + 1)
  {
    hide Find, Hit;
  }

  lemma {:induction false} HitsFrom(haystack: seq<Byte>, needle: seq<Byte>, at: nat)
    requires needle != []
    ensures var hits := Hits(haystack, needle, at);
      && (forall i, j :: 0 <= i < j < |hits| ==> hits[i] < hits[j])
      && forall k: nat :: k in hits <==> k >= at && Hit(haystack, needle, k)
    decreases |haystack| - at
  {
    hide Hit, Find;
    var f := Find(haystack, needle, at);
    FindBound(haystack, needle, at);
    if f.Some? {
      HitsFrom(haystack, needle, f.value + 1);
      var rest := Hits(haystack, needle, f.value + 1);
      assert forall i :: 0 <= i < |rest| ==> rest[i] in rest;
    }
  }

  lemma FindBound(haystack: seq<Byte>, needle: seq<Byte>, at: nat)
    requires needle != []
    ensures Find(haystack, needle, at).Some? ==> at <= Find(haystack, needle, at).value < |haystack|
  {}

  lemma HitsAreAll(haystack: seq<Byte>, needle: seq<Byte>)
    requires needle != []
    ensures AllHits(haystack, needle, Hits(haystack, needle, 0))
  {
    HitsFrom(haystack, needle, 0);
  }

  // ---------------------------------------------------------------- vocabulary

  const KINDS := {
    "Actor", "Object", "Role", "State", "Transition", "Capability", "Trigger", "Dependency", "Invariant",
    "Exclusion", "Evidence", "Authority", "Postcondition", "Falsifier", "Metric", "Successor"}
  const BOUNDARY_CLASSES := {"Bootstrap", "FirstMile", "Core", "LastMile", "Successor"}
  const ITEM_KEYS := {"kind", "statement", "quote", "occurrence", "required_by", "boundary_class", "hints"}
  const REQUIRED_ITEM_KEYS := ["kind", "statement", "quote", "boundary_class"]

  /** Hints carried as text, and the two carried as nodes of their own. */
  datatype HintKey =
    | ConsequenceClass | EvidenceHorizon | Exclusion | Postcondition | RequiresCapability | SuccessorPolicy
    | Acceptance | Falsifier

  predicate NodeHint(h: HintKey) {
    h.Acceptance? || h.Falsifier?
  }

  function KeyNamed(s: string): Option<HintKey> {
    if s == "consequenceClass" then Some(ConsequenceClass)
    else if s == "evidenceHorizon" then Some(EvidenceHorizon)
    else if s == "exclusion" then Some(Exclusion)
    else if s == "postcondition" then Some(Postcondition)
    else if s == "requiresCapability" then Some(RequiresCapability)
    else if s == "successorPolicy" then Some(SuccessorPolicy)
    else if s == "acceptance" then Some(Acceptance)
    else if s == "falsifier" then Some(Falsifier)
    else None
  }

  function KeyName(h: HintKey): string {
    match h
    case ConsequenceClass => "consequenceClass"
    case EvidenceHorizon => "evidenceHorizon"
    case Exclusion => "exclusion"
    case Postcondition => "postcondition"
    case RequiresCapability => "requiresCapability"
    case SuccessorPolicy => "successorPolicy"
    case Acceptance => "acceptance"
    case Falsifier => "falsifier"
  }

  predicate Blank(s: string) {
    forall c :: c in s ==> IsPySpace(c)
  }

  predicate LocalName(s: string) {
    var t := Chopped(s);
    && t != "" && Letter(t[0]) && NameChar(t[|t| - 1])
    && forall c :: c in t ==> NameChar(c) || c == '.'
  }

  // ---------------------------------------------------------------- one item

  datatype Candidate = Candidate(
    local: string, kind: string, statement: string, start: nat, end: nat, text: string, boundary: string,
    required: seq<string>, hints: map<HintKey, seq<string>>)

  /** The source's digest, and SHA-256 as lower-case hexadecimal. */
  datatype Digest = Digest(source: string, hash: string -> string)

  function CandidateLocal(sha: string, hash: string -> string, start: int, end: int, kind: string): string {
    var h := hash(sha + ":" + Numeral(start) + ":" + Numeral(end) + ":" + kind);
    "P-" + if |h| < 16 then h else h[..16]
  }

  function Strings(v: Json): Option<seq<string>> {
    match v
    case Str(s) => Some([s])
    case Arr(xs) => if forall x :: x in xs ==> x.Str? then Some(Texts(xs)) else None
    case _ => None
  }

  function Texts(xs: seq<Json>): seq<string>
    requires forall x :: x in xs ==> x.Str?
  {
    seq(|xs|, i requires 0 <= i < |xs| => assert xs[i] in xs; xs[i].s)
  }

  function LexLess(a: string, b: string): bool {
    b != "" && (a == "" || a[0] < b[0] || (a[0] == b[0] && LexLess(a[1..], b[1..])))
  }

  /** `sorted(set(values))`. */
  function SortedSet(values: seq<string>): (r: seq<string>)
    ensures forall v :: v in r <==> v in values
    ensures |r| <= |values| && (values != [] ==> r != [])
  {
    if values == [] then [] else InsertOnce(values[0], SortedSet(values[1..]))
  }

  function InsertOnce(v: string, r: seq<string>): (t: seq<string>)
    ensures forall x :: x in t <==> x == v || x in r
    ensures |t| <= |r| + 1 && t != []
  {
    if r == [] then [v]
    else if r[0] == v then r
    else if LexLess(v, r[0]) then [v] + r
    else [r[0]] + InsertOnce(v, r[1..])
  }

  /** What an item, or the whole list, is refused for. */
  datatype Code =
    | NoList | NoObject | UnknownKey | MissingKey | WrongKind | WrongBoundary | WrongStatement | WrongQuote
    | WrongOccurrence | WrongGates | WrongHints | QuoteNotFound | QuoteAmbiguous | OccurrenceOutOfRange | DuplicateName

  function When(b: bool, code: Code): seq<Code> {
    if b then [code] else []
  }

  function UnknownKeys(fs: seq<Field>): bool {
    exists f :: f in fs && f.key !in ITEM_KEYS
  }

  function MissingKeys(fs: seq<Field>): bool {
    exists k :: k in REQUIRED_ITEM_KEYS && Get(fs, k).None?
  }

  predicate BadText(v: Json) {
    !v.Str? || Blank(v.s) || '\n' in v.s || '\r' in v.s
  }

  predicate OneOf(v: Json, words: set<string>) {
    v.Str? && v.s in words
  }

  function RequiredBy(fs: seq<Field>): Option<seq<string>> {
    if Get(fs, "required_by").None? then Some([]) else Strings(Get(fs, "required_by").value)
  }

  function RequiredFaults(fs: seq<Field>): seq<Code> {
    var r := RequiredBy(fs);
    if r.None? || exists x :: x in r.value && !LocalName(x) then [WrongGates]
    else When(!Distinct(r.value), WrongGates)
  }

  predicate GoodHint(f: Field) {
    && KeyNamed(f.key).Some? && Strings(f.value).Some? && Strings(f.value).value != []
    && forall v :: v in Strings(f.value).value ==> !Blank(v)
  }

  function HintFaults(fs: seq<Field>): seq<Code> {
    if fs == [] then [] else When(!GoodHint(fs[0]), WrongHints) + HintFaults(fs[1..])
  }

  function HintMap(fs: seq<Field>): map<HintKey, seq<string>> {
    if fs == [] then map[]
    else if !GoodHint(fs[0]) then HintMap(fs[1..])
    else HintMap(fs[1..])[KeyNamed(fs[0].key).value := SortedSet(Strings(fs[0].value).value)]
  }

  function HintsOf(fs: seq<Field>): Json {
    if Get(fs, "hints").None? then Obj([]) else Get(fs, "hints").value
  }

  predicate BadOccurrence(fs: seq<Field>) {
    var o := Get(fs, "occurrence");
    o.Some? && !o.value.Null? && (!o.value.Num? || o.value.n < 1)
  }

  /** The occurrence asked for, None when the item leaves it open. */
  function Occurrence(fs: seq<Field>): Option<int> {
    match Get(fs, "occurrence")
    case Some(Num(n)) => Some(n)
    case Some(Bool(b)) => Some(if b then 1 else 0)
    case _ => None
  }

  /** Whether an occurrence is given at all; anything but null counts. */
  predicate GivesOccurrence(fs: seq<Field>) {
    Get(fs, "occurrence").Some? && !Get(fs, "occurrence").value.Null?
  }

  function SpanFaults(fs: seq<Field>, hits: seq<nat>): seq<Code> {
    if hits == [] then [QuoteNotFound]
    else if !GivesOccurrence(fs) then When(|hits| > 1, QuoteAmbiguous)
    else When(Occurrence(fs).Some? && Occurrence(fs).value > |hits|, OccurrenceOutOfRange)
  }

  function TextFaults(fs: seq<Field>): seq<Code>
    requires !MissingKeys(fs)
  {
    When(!OneOf(Required(fs, "kind"), KINDS), WrongKind)
    + When(!OneOf(Required(fs, "boundary_class"), BOUNDARY_CLASSES), WrongBoundary)
    + When(BadText(Required(fs, "statement")), WrongStatement)
  }

  function Required(fs: seq<Field>, key: string): Json
    requires !MissingKeys(fs) && key in REQUIRED_ITEM_KEYS
  {
    Get(fs, key).value
  }

  function OptionalFaults(fs: seq<Field>): seq<Code> {
    When(BadOccurrence(fs), WrongOccurrence) + RequiredFaults(fs)
    + (if HintsOf(fs).Obj? then HintFaults(HintsOf(fs).fields) else [WrongHints])
  }

  /** An item's refusal codes, in the order they are found. */
  function ItemFaults(source: seq<Byte>, item: Json): seq<Code> {
    if !item.Obj? then [NoObject]
    else
      var fs := item.fields;
      if UnknownKeys(fs) || MissingKeys(fs) then
        When(UnknownKeys(fs), UnknownKey) + When(MissingKeys(fs), MissingKey)
      else
        var quote := Required(fs, "quote");
        if !quote.Str? || quote.s == "" then TextFaults(fs) + [WrongQuote]
        else TextFaults(fs) + OptionalFaults(fs) + SpanFaults(fs, Hits(source, Encode(quote.s), 0))
  }

  /** What a fault-free item is known to hold. */
  ghost predicate FaultFree(source: seq<Byte>, item: Json) {
    && item.Obj? && !UnknownKeys(item.fields) && !MissingKeys(item.fields)
    && TextFaults(item.fields) == [] && OptionalFaults(item.fields) == []
    && Required(item.fields, "quote").Str? && Required(item.fields, "quote").s != ""
    && SpanFaults(item.fields, Hits(source, Encode(Required(item.fields, "quote").s), 0)) == []
  }

  lemma FaultFreeIff(source: seq<Byte>, item: Json)
    ensures ItemFaults(source, item) == [] <==> FaultFree(source, item)
  {
    hide TextFaults, OptionalFaults, SpanFaults, Hits, UnknownKeys, MissingKeys, Encode;
  }

  /** The hit an item's quote stands for. */
  function Chosen(fs: seq<Field>, hits: seq<nat>): nat
    requires SpanFaults(fs, hits) == [] && OptionalFaults(fs) == []
  {
    hits[if Occurrence(fs).Some? then Occurrence(fs).value - 1 else 0]
  }

  function Bound(source: seq<Byte>, d: Digest, item: Json): Candidate
    requires FaultFree(source, item)
  {
    hide OptionalFaults, TextFaults, Hits, Encode;
    var fs := item.fields;
    Texted(fs);
    var kind, quote := Required(fs, "kind").s, Required(fs, "quote").s;
    var start := Chosen(fs, Hits(source, Encode(quote), 0));
    var end := start + |Encode(quote)|;
    Candidate(CandidateLocal(d.source, d.hash, start, end, kind), kind, Required(fs, "statement").s, start, end, quote,
              Required(fs, "boundary_class").s, SortedSet(Gates(fs)), HintMap(HintFields(fs)))
  }

  lemma Texted(fs: seq<Field>)
    requires !MissingKeys(fs) && TextFaults(fs) == []
    ensures OneOf(Required(fs, "kind"), KINDS) && OneOf(Required(fs, "boundary_class"), BOUNDARY_CLASSES)
    ensures !BadText(Required(fs, "statement"))
  {
    hide OneOf, BadText, Required, MissingKeys;
  }

  function Gates(fs: seq<Field>): seq<string> {
    if RequiredBy(fs).None? then [] else RequiredBy(fs).value
  }

  function HintFields(fs: seq<Field>): seq<Field> {
    if HintsOf(fs).Obj? then HintsOf(fs).fields else []
  }

  // ---------------------------------------------------------------- what an accepted item is bound to

  ghost predicate GoodValues(vs: seq<string>) {
    vs != [] && Distinct(vs) && forall v :: v in vs ==> !Blank(v)
  }

  ghost predicate GoodHints(hints: map<HintKey, seq<string>>) {
    forall h :: h in hints ==> GoodValues(hints[h])
  }

  ghost predicate GoodGates(gates: seq<string>) {
    Distinct(gates) && forall g :: g in gates ==> LocalName(g)
  }

  /** The candidate quotes the source at its span. */
  ghost predicate Quotes(source: seq<Byte>, c: Candidate) {
    c.start < c.end && c.end == c.start + |Encode(c.text)| && Hit(source, Encode(c.text), c.start)
  }

  ghost predicate WellBound(source: seq<Byte>, d: Digest, c: Candidate) {
    && c.kind in KINDS && c.boundary in BOUNDARY_CLASSES
    && !Blank(c.statement) && '\n' !in c.statement
    && Quotes(source, c)
    && c.local == CandidateLocal(d.source, d.hash, c.start, c.end, c.kind)
    && GoodGates(c.required) && GoodHints(c.hints)
  }

  /** Which of the places its quote occurs the item stands for: the one its occurrence counts to, or the only one. */
  ghost predicate Picks(source: seq<Byte>, fs: seq<Field>, c: Candidate) {
    match Occurrence(fs)
    case Some(n) => |set k: nat | k < c.start && Hit(source, Encode(c.text), k)| == n - 1
    case None => forall k: nat :: Hit(source, Encode(c.text), k) ==> k == c.start
  }

  lemma {:induction false} SortedSetAscends(values: seq<string>)
    ensures Ascends(SortedSet(values))
  {
    hide LexLess;
    if values != [] {
      SortedSetAscends(values[1..]);
      InsertOnceAscends(values[0], SortedSet(values[1..]));
    }
  }

  predicate Ascends(r: seq<string>) {
    forall i, j :: 0 <= i < j < |r| ==> LexLess(r[i], r[j])
  }

  lemma {:induction false} InsertOnceAscends(v: string, r: seq<string>)
    requires Ascends(r)
    ensures Ascends(InsertOnce(v, r))
  {
    hide LexLess;
    if r != [] && r[0] != v {
      var t := InsertOnce(v, r[1..]);
      if LexLess(v, r[0]) {
        forall j | 0 < j < |r| ensures LexLess(v, r[j]) {
          LexTransitive(v, r[0], r[j]);
        }
      } else {
        LexTotal(v, r[0]);
        InsertOnceAscends(v, r[1..]);
        assert forall x :: x in r[1..] ==> LexLess(r[0], x);
        forall j | 0 <= j < |t| ensures LexLess(r[0], t[j]) {
          assert t[j] in t;
        }
      }
    }
  }

  lemma {:induction false} LexTransitive(a: string, b: string, c: string)
    requires LexLess(a, b) && LexLess(b, c)
    ensures LexLess(a, c)
  {
    if a != "" && a[0] == b[0] == c[0] {
      LexTransitive(a[1..], b[1..], c[1..]);
    }
  }

  lemma {:induction false} LexTotal(a: string, b: string)
    ensures !LexLess(a, a)
    ensures LexLess(a, b) || LexLess(b, a) || a == b
  {
    if a != "" {
      LexTotal(a[1..], if b == "" then "" else b[1..]);
      if b != "" && a[0] == b[0] && a[1..] == b[1..] {
        assert a == [a[0]] + a[1..] == b;
      }
    }
  }

  /** A sorted set has no repeats and the values it was made of. */
  lemma AscendingHasNoRepeats(values: seq<string>)
    ensures Distinct(SortedSet(values))
  {
    hide LexLess, SortedSet;
    SortedSetAscends(values);
    var r := SortedSet(values);
    forall i, j | 0 <= i < j < |r| ensures r[i] != r[j] {
      LexTotal(r[i], r[j]);
    }
  }

  lemma {:induction false} HintMapIsGood(fs: seq<Field>)
    ensures GoodHints(HintMap(fs))
  {
    hide Blank, Strings, SortedSet, Distinct, KeyNamed;
    if fs != [] {
      HintMapIsGood(fs[1..]);
      if GoodHint(fs[0]) {
        AscendingHasNoRepeats(Strings(fs[0].value).value);
      }
    }
  }

  lemma GatesAreGood(fs: seq<Field>)
    requires OptionalFaults(fs) == []
    ensures GoodGates(SortedSet(Gates(fs)))
  {
    hide Blank, Distinct, LocalName, SortedSet, HintFaults, BadOccurrence, RequiredBy;
    AscendingHasNoRepeats(Gates(fs));
    assert RequiredFaults(fs) == [];
  }

  lemma ChosenIsHit(source: seq<Byte>, fs: seq<Field>, needle: seq<Byte>)
    requires needle != [] && OptionalFaults(fs) == [] && SpanFaults(fs, Hits(source, needle, 0)) == []
    ensures Hit(source, needle, Chosen(fs, Hits(source, needle, 0)))
  {
    hide Hit, Hits;
    HitsAreAll(source, needle);
    var hits := Hits(source, needle, 0);
    assert Chosen(fs, hits) in hits;
  }

  lemma QuoteIsCut(source: seq<Byte>, d: Digest, item: Json)
    requires FaultFree(source, item)
    ensures Quotes(source, Bound(source, d, item))
  {
    hide Hit, Hits, OptionalFaults, TextFaults, SpanFaults, Chosen, Encode, CandidateLocal, SortedSet, HintMap, Gates;
    ChosenIsHit(source, item.fields, Encode(Required(item.fields, "quote").s));
  }

  lemma BoundIsWellBound(source: seq<Byte>, d: Digest, item: Json)
    requires FaultFree(source, item)
    ensures WellBound(source, d, Bound(source, d, item))
  {
    hide Hit, Hits, OptionalFaults, TextFaults, SpanFaults, Chosen, Encode, CandidateLocal, SortedSet, HintMap, Gates, GoodGates, GoodHints, Quotes;
    var fs := item.fields;
    Texted(fs);
    QuoteIsCut(source, d, item);
    GatesAreGood(fs);
    HintMapIsGood(HintFields(fs));
  }

  lemma {:induction false} CountBelow(hits: seq<nat>, k: nat)
    requires k < |hits| && forall i, j :: 0 <= i < j < |hits| ==> hits[i] < hits[j]
    ensures var below := set x: nat | x < hits[k] && x in hits; |below| == k
  {
    var below := set x: nat | x < hits[k] && x in hits;
    if k == 0 {
      assert below == {};
    } else {
      CountBelow(hits, k - 1);
      var fewer := set x: nat | x < hits[k - 1] && x in hits;
      assert below == fewer + {hits[k - 1]};
    }
  }

  lemma PicksFromHits(hits: seq<nat>, fs: seq<Field>)
    requires OptionalFaults(fs) == [] && SpanFaults(fs, hits) == []
    requires forall i, j :: 0 <= i < j < |hits| ==> hits[i] < hits[j]
    ensures Chosen(fs, hits) in hits
    ensures match Occurrence(fs)
      case Some(n) => |set x: nat | x < Chosen(fs, hits) && x in hits| == n - 1
      case None => forall x :: x in hits ==> x == Chosen(fs, hits)
  {
    hide RequiredFaults, HintFaults, HintsOf;
    assert !BadOccurrence(fs);
    if Occurrence(fs).Some? {
      CountBelow(hits, Occurrence(fs).value - 1);
    }
  }

  /** An item's occurrence is the number of its quote among all the places it occurs, overlapping ones included. */
  lemma BoundPicks(source: seq<Byte>, d: Digest, item: Json)
    requires FaultFree(source, item)
    ensures Picks(source, item.fields, Bound(source, d, item))
  {
    hide Hit, Hits, OptionalFaults, TextFaults, SpanFaults, Chosen, Encode, CandidateLocal, SortedSet, HintMap, Gates, Occurrence;
    var fs := item.fields;
    var needle := Encode(Required(fs, "quote").s);
    var hits := Hits(source, needle, 0);
    HitsAreAll(source, needle);
    PicksFromHits(hits, fs);
    var start := Chosen(fs, hits);
    assert (set k: nat | k < start && Hit(source, needle, k)) == set x: nat | x < start && x in hits;
  }

  // ---------------------------------------------------------------- the whole list

  /** A refusal: the item it is about, None for the list itself, and its code. */
  datatype Refusal = Refusal(index: Option<nat>, code: Code)

  function Tagged(index: nat, codes: seq<Code>): (r: seq<Refusal>)
    ensures |r| == |codes|
  {
    seq(|codes|, i requires 0 <= i < |codes| => Refusal(Some(index), codes[i]))
  }

  predicate Taken(cs: seq<Candidate>, local: string) {
    exists c :: c in cs && c.local == local
  }

  /** What the list's items are refused for and bound to, in list order. */
  ghost function Resolved(source: seq<Byte>, d: Digest, items: seq<Json>): (r: (seq<Refusal>, seq<Candidate>)) {
    if items == [] then ([], [])
    else
      var k := |items| - 1;
      var (refused, cs) := Resolved(source, d, items[..k]);
      var faults := ItemFaults(source, items[k]);
      FaultFreeIff(source, items[k]);
      if faults != [] then (refused + Tagged(k, faults), cs)
      else
        var c := Bound(source, d, items[k]);
        if Taken(cs, c.local) then (refused + [Refusal(Some(k), DuplicateName)], cs) else (refused, cs + [c])
  }

  function Before(a: Candidate, b: Candidate): bool {
    a.start < b.start
    || (a.start == b.start
        && (LexLess(a.kind, b.kind)
            || (a.kind == b.kind && (a.end < b.end || (a.end == b.end && LexLess(a.local, b.local))))))
  }

  function Placed(c: Candidate, cs: seq<Candidate>): seq<Candidate> {
    if cs == [] then [c] else if Before(c, cs[0]) then [c] + cs else [cs[0]] + Placed(c, cs[1..])
  }

  /** A stable sort by start, kind, end and name. */
  function InOrder(cs: seq<Candidate>): seq<Candidate> {
    if cs == [] then [] else Placed(cs[|cs| - 1], InOrder(cs[..|cs| - 1]))
  }

  method ResolveItems(source: seq<Byte>, d: Digest, extract: Json) returns (refusals: seq<Refusal>, candidates: seq<Candidate>)
    ensures !extract.Arr? || extract.items == [] ==> refusals == [Refusal(None, NoList)] && candidates == []
    ensures extract.Arr? && extract.items != [] ==>
      refusals == Resolved(source, d, extract.items).0 && candidates == InOrder(Resolved(source, d, extract.items).1)
  {
    hide ItemFaults, FaultFree, Bound, InOrder, Taken;
    if !extract.Arr? || extract.items == [] {
      return [Refusal(None, NoList)], [];
    }
    var items := extract.items;
    refusals, candidates := [], [];
    var seen: map<string, nat> := map[];
    NoneTaken();
    for index := 0 to |items|
      invariant (refusals, candidates) == Resolved(source, d, items[..index])
      invariant forall local :: local in seen <==> Taken(candidates, local)
    {
      assert items[..index + 1][..index] == items[..index];
      FaultFreeIff(source, items[index]);
      var faults := ItemFaults(source, items[index]);
      if faults != [] {
        refusals := refusals + Tagged(index, faults);
      } else {
        var c := Bound(source, d, items[index]);
        if c.local in seen {
          refusals := refusals + [Refusal(Some(index), DuplicateName)];
        } else {
          TakenStep(candidates, c);
          seen := seen[c.local := index];
          candidates := candidates + [c];
        }
      }
    }
    assert items[..|items|] == items;
    candidates := InOrder(candidates);
  }

  lemma NoneTaken()
    ensures forall local :: !Taken([], local)
  {}

  lemma TakenStep(cs: seq<Candidate>, c: Candidate)
    ensures forall local :: Taken(cs + [c], local) <==> Taken(cs, local) || local == c.local
  {
    assert c in cs + [c];
    assert forall x :: x in cs ==> x in cs + [c];
  }

  // ---------------------------------------------------------------- acceptance and order

  ghost predicate Free(source: seq<Byte>, items: seq<Json>) {
    forall x :: x in items ==> FaultFree(source, x)
  }

  /** Every item binds, and no two to the same name. */
  ghost predicate Acceptable(source: seq<Byte>, d: Digest, items: seq<Json>) {
    Free(source, items)
    && forall i, j :: 0 <= i < j < |items| ==> Bound(source, d, items[i]).local != Bound(source, d, items[j]).local
  }

  ghost function AllBound(source: seq<Byte>, d: Digest, items: seq<Json>): (cs: seq<Candidate>)
    requires Free(source, items)
    ensures |cs| == |items| && forall i :: 0 <= i < |items| ==> cs[i] == Bound(source, d, items[i])
  {
    seq(|items|, i requires 0 <= i < |items| => assert items[i] in items; Bound(source, d, items[i]))
  }

  /** The list is refused nothing exactly when it is acceptable, and then every item is bound. */
  lemma {:induction false} AcceptedIff(source: seq<Byte>, d: Digest, items: seq<Json>)
    ensures Resolved(source, d, items).0 == [] <==> Acceptable(source, d, items)
    ensures Acceptable(source, d, items) ==> Resolved(source, d, items).1 == AllBound(source, d, items)
  {
    hide ItemFaults, FaultFree, Bound;
    if items != [] {
      var k := |items| - 1;
      var rest, x := items[..k], items[k];
      AcceptedIff(source, d, rest);
      FaultFreeIff(source, x);
      AcceptableStep(source, d, rest, x);
      assert rest + [x] == items;
      if Acceptable(source, d, rest) && FaultFree(source, x) {
        TakenIff(source, d, rest, Bound(source, d, x).local);
        assert Acceptable(source, d, items) ==> AllBound(source, d, items) == AllBound(source, d, rest) + [Bound(source, d, x)];
      }
    }
  }

  lemma TakenIff(source: seq<Byte>, d: Digest, items: seq<Json>, local: string)
    requires Free(source, items)
    ensures Taken(AllBound(source, d, items), local) <==> exists i :: 0 <= i < |items| && Bound(source, d, items[i]).local == local
  {
    hide FaultFree, Bound;
    var cs := AllBound(source, d, items);
    forall i | 0 <= i < |items| ensures cs[i] in cs {
    }
  }

  lemma AcceptableStep(source: seq<Byte>, d: Digest, items: seq<Json>, x: Json)
    ensures Acceptable(source, d, items + [x]) <==>
      && Acceptable(source, d, items) && FaultFree(source, x)
      && !exists i :: 0 <= i < |items| && Bound(source, d, items[i]).local == Bound(source, d, x).local
  {
    hide FaultFree, Bound;
    var all := items + [x];
    assert x in all && forall y :: y in items ==> y in all;
    assert forall i :: 0 <= i < |items| ==> all[i] == items[i];
    assert all[|items|] == x;
  }

  ghost predicate Ordered(cs: seq<Candidate>) {
    forall i, j :: 0 <= i < j < |cs| ==> Before(cs[i], cs[j])
  }

  ghost predicate DistinctNames(cs: seq<Candidate>) {
    forall i, j :: 0 <= i < j < |cs| ==> cs[i].local != cs[j].local
  }

  lemma BeforeIsTotal(a: Candidate, b: Candidate)
    ensures !Before(a, a)
    ensures Before(a, b) ==> !Before(b, a)
    ensures Before(a, b) || Before(b, a) || a.local == b.local
  {
    hide LexLess;
    LexTotal(a.kind, b.kind);
    LexTotal(a.local, b.local);
    LexAsymmetric(a.kind, b.kind);
    LexAsymmetric(a.local, b.local);
  }

  lemma LexAsymmetric(a: string, b: string)
    ensures LexLess(a, b) ==> !LexLess(b, a)
  {
    hide LexLess;
    LexTotal(a, b);
    if LexLess(a, b) && LexLess(b, a) {
      LexTransitive(a, b, a);
    }
  }

  lemma BeforeTransitive(a: Candidate, b: Candidate, c: Candidate)
    requires Before(a, b) && Before(b, c)
    ensures Before(a, c)
  {
    hide LexLess;
    if LexLess(a.kind, b.kind) && LexLess(b.kind, c.kind) {
      LexTransitive(a.kind, b.kind, c.kind);
    }
    if LexLess(a.local, b.local) && LexLess(b.local, c.local) {
      LexTransitive(a.local, b.local, c.local);
    }
  }

  lemma OrderedFrom(c: Candidate, cs: seq<Candidate>)
    requires Ordered(cs) && forall x :: x in cs ==> Before(c, x)
    ensures Ordered([c] + cs)
  {
    hide Before;
    assert forall j :: 0 <= j < |cs| ==> cs[j] in cs;
  }

  lemma FirstIsBefore(cs: seq<Candidate>, c: Candidate)
    requires Ordered(cs) && cs != [] && Before(c, cs[0])
    ensures forall x :: x in cs ==> Before(c, x)
  {
    hide Before;
    forall j | 0 < j < |cs| ensures Before(c, cs[j]) {
      BeforeTransitive(c, cs[0], cs[j]);
    }
  }

  lemma PlacedMembers(c: Candidate, cs: seq<Candidate>)
    ensures multiset(Placed(c, cs)) == multiset(cs) + multiset{c}
  {
    hide Before;
    if cs != [] {
      PlacedMembers(c, cs[1..]);
      assert cs == [cs[0]] + cs[1..];
    }
  }

  lemma {:induction false} PlacedIs(c: Candidate, cs: seq<Candidate>)
    requires Ordered(cs) && !Taken(cs, c.local)
    ensures Ordered(Placed(c, cs))
  {
    hide Before;
    if cs != [] {
      assert cs[0] in cs;
      BeforeIsTotal(c, cs[0]);
      if Before(c, cs[0]) {
        FirstIsBefore(cs, c);
        OrderedFrom(c, cs);
      } else {
        var rest := cs[1..];
        var t := Placed(c, rest);
        PlacedIs(c, rest);
        PlacedMembers(c, rest);
        forall x | x in t ensures Before(cs[0], x) {
          assert x in multiset(t);
          if x != c {
            assert x in rest;
          }
        }
        OrderedFrom(cs[0], t);
      }
    }
  }

  /** Under distinct names the sorted candidates are the same ones, in strict order. */
  lemma {:induction false} InOrderIs(cs: seq<Candidate>)
    requires DistinctNames(cs)
    ensures Ordered(InOrder(cs)) && multiset(InOrder(cs)) == multiset(cs)
  {
    hide Before, Placed;
    if cs != [] {
      var k := |cs| - 1;
      InOrderIs(cs[..k]);
      var sorted := InOrder(cs[..k]);
      assert cs == cs[..k] + [cs[k]];
      forall c | c in sorted ensures c.local != cs[k].local {
        assert c in multiset(sorted);
        assert c in cs[..k];
      }
      PlacedIs(cs[k], sorted);
      PlacedMembers(cs[k], sorted);
    }
  }

  /** There is only one strict order of the same candidates. */
  lemma {:induction false} OrderIsUnique(a: seq<Candidate>, b: seq<Candidate>)
    requires Ordered(a) && Ordered(b) && forall c :: c in a <==> c in b
    ensures a == b
  {
    hide Before;
    assert forall i :: 0 <= i < |a| ==> a[i] in a;
    assert forall i :: 0 <= i < |b| ==> b[i] in b;
    if a != [] && b != [] {
      assert a[0] in a && a[0] in b;
      assert b[0] in b && b[0] in a;
      BeforeIsTotal(a[0], b[0]);
      assert a[0] == b[0];
      forall c ensures c in a[1..] <==> c in b[1..] {
        BeforeIsTotal(a[0], a[0]);
        assert c in a[1..] ==> Before(a[0], c);
        assert c in b[1..] ==> Before(b[0], c);
        assert c in a <==> c == a[0] || c in a[1..];
        assert c in b <==> c == b[0] || c in b[1..];
      }
      OrderIsUnique(a[1..], b[1..]);
      assert a == [a[0]] + a[1..] && b == [b[0]] + b[1..];
    }
  }

  lemma {:induction false} TwicePlaced<T>(xs: seq<T>, x: T)
    requires multiset(xs)[x] >= 2
    ensures exists i, j :: 0 <= i < j < |xs| && xs[i] == x && xs[j] == x
  {
    var k := |xs| - 1;
    assert xs == xs[..k] + [xs[k]];
    if xs[k] == x {
      assert x in multiset(xs[..k]);
      assert x in xs[..k];
      var i :| 0 <= i < k && xs[..k][i] == x;
      assert xs[i] == x;
    } else {
      TwicePlaced(xs[..k], x);
      var i, j :| 0 <= i < j < k && xs[..k][i] == x && xs[..k][j] == x;
      assert xs[i] == x && xs[j] == x;
    }
  }

  lemma CountedTwice<T>(xs: seq<T>, i: nat, j: nat)
    requires i < j < |xs| && xs[i] == xs[j]
    ensures multiset(xs)[xs[i]] >= 2
  {
    assert xs == xs[..j] + xs[j..];
    assert xs[..j][i] in multiset(xs[..j]) && xs[j..][0] in multiset(xs[j..]);
  }

  /** Reordering the items does not change whether the list is acceptable. */
  lemma AcceptancePermutes(source: seq<Byte>, d: Digest, items: seq<Json>, others: seq<Json>)
    requires multiset(items) == multiset(others) && Acceptable(source, d, items)
    ensures Acceptable(source, d, others)
  {
    hide FaultFree, Bound;
    forall x | x in others ensures FaultFree(source, x) {
      assert x in multiset(others);
      assert x in items;
    }
    forall i, j | 0 <= i < j < |others| ensures Bound(source, d, others[i]).local != Bound(source, d, others[j]).local {
      var x, y := others[i], others[j];
      assert x in others && y in others;
      assert x in multiset(others) && y in multiset(others);
      if x == y {
        CountedTwice(others, i, j);
        TwicePlaced(items, x);
      } else {
        var m :| 0 <= m < |items| && items[m] == x;
        var n :| 0 <= n < |items| && items[n] == y;
        assert Bound(source, d, items[m]).local != Bound(source, d, items[n]).local;
      }
    }
  }

  lemma BoundMembers(source: seq<Byte>, d: Digest, items: seq<Json>, c: Candidate)
    requires Acceptable(source, d, items)
    ensures c in InOrder(AllBound(source, d, items)) <==> exists x :: x in items && Bound(source, d, x) == c
  {
    hide FaultFree, Bound, Before, InOrder;
    var cs := AllBound(source, d, items);
    InOrderIs(cs);
    assert c in InOrder(cs) <==> c in multiset(InOrder(cs));
    assert c in cs <==> c in multiset(cs);
    forall i | 0 <= i < |items| ensures items[i] in items && cs[i] in cs {
    }
  }

  /** Reordering the items changes neither whether the list is accepted nor the candidates it yields. */
  lemma OrderDoesNotMatter(source: seq<Byte>, d: Digest, items: seq<Json>, others: seq<Json>)
    requires multiset(items) == multiset(others)
    ensures Resolved(source, d, items).0 == [] <==> Resolved(source, d, others).0 == []
    ensures Resolved(source, d, items).0 == [] ==>
      InOrder(Resolved(source, d, items).1) == InOrder(Resolved(source, d, others).1)
  {
    hide FaultFree, Bound, Before, InOrder, Resolved;
    AcceptedIff(source, d, items);
    AcceptedIff(source, d, others);
    if Acceptable(source, d, items) {
      AcceptancePermutes(source, d, items, others);
      forall c ensures c in InOrder(AllBound(source, d, items)) <==> c in InOrder(AllBound(source, d, others)) {
        BoundMembers(source, d, items, c);
        BoundMembers(source, d, others, c);
        assert forall x :: x in items <==> x in multiset(items);
        assert forall x :: x in others <==> x in multiset(others);
      }
      InOrderIs(AllBound(source, d, items));
      InOrderIs(AllBound(source, d, others));
      OrderIsUnique(InOrder(AllBound(source, d, items)), InOrder(AllBound(source, d, others)));
    } else if Acceptable(source, d, others) {
      AcceptancePermutes(source, d, others, items);
    }
  }
}
