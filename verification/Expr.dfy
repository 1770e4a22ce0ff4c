/** The template expression evaluator, which slices its source text, read against a tree of its grammar. */
module ExprEval {
  import opened Text

  // ---------------------------------------------------------------- bracket depth

  datatype Brackets = Round | Square | Any

  function Delta(k: Brackets, c: char): int {
    if (k != Square && c == '(') || (k != Round && c == '[') then 1
    else if (k != Square && c == ')') || (k != Round && c == ']') then -1
    else 0
  }

  /** Openers minus closers in s. */
  function Depth(k: Brackets, s: string): int {
    if s == "" then 0 else Depth(k, s[..|s| - 1]) + Delta(k, s[|s| - 1])
  }

  lemma {:induction false} DepthConcat(k: Brackets, a: string, b: string)
    ensures Depth(k, a + b) == Depth(k, a) + Depth(k, b)
  {
    if b == "" {
      assert a + b == a;
    } else {
      var n := |b| - 1;
      assert (a + b)[..|a + b| - 1] == a + b[..n];
      DepthConcat(k, a, b[..n]);
    }
  }

  lemma DepthStep(k: Brackets, s: string, i: nat)
    requires i < |s|
    ensures Depth(k, s[..i + 1]) == Depth(k, s[..i]) + Delta(k, s[i])
  {
    assert s[..i + 1][..i] == s[..i];
  }

  // ---------------------------------------------------------------- what the scanners look for

  /** No closing parenthesis before the last character brings the depth back to zero. */
  ghost predicate WrapsWhole(expr: string) {
    forall k :: 0 <= k < |expr| - 1 && expr[k] == ')' ==> Depth(Round, expr[..k + 1]) != 0
  }

  predicate EqChar(c: char) {
    c == '=' || c == '!'
  }

  /** An equality operator starts at i, outside all brackets, with something to its left. */
  ghost predicate EqualityAt(expr: string, i: int) {
    && 0 <= i && i + 1 < |expr|
    && EqChar(expr[i]) && expr[i + 1] == '='
    && Depth(Any, expr[..i]) == 0
    && !(i > 0 && EqChar(expr[i - 1]))
    && Trim(expr[..i]) != ""
  }

  datatype Found = NotFound | At(index: nat)

  /** The leftmost equality operator at or after i. */
  ghost function FirstEquality(expr: string, i: nat): (r: Found)
    requires i <= |expr|
    ensures r.NotFound? ==> forall k :: i <= k < |expr| ==> !EqualityAt(expr, k)
    ensures r.At? ==> i <= r.index && EqualityAt(expr, r.index) && forall k :: i <= k < r.index ==> !EqualityAt(expr, k)
    decreases |expr| - i
  {
    hide EqualityAt;
    if i == |expr| then NotFound else if EqualityAt(expr, i) then At(i) else FirstEquality(expr, i + 1)
  }

  function OpAt(expr: string, i: nat): string
    requires i < |expr|
  {
    if i + 2 < |expr| && expr[i + 2] == '=' then [expr[i]] + "==" else [expr[i]] + "="
  }

  /** The bracket opened at i is balanced by the character at k. */
  ghost predicate Closes(expr: string, i: nat, k: int) {
    i <= k < |expr| && Depth(Square, expr[i..k + 1]) == 0
  }

  /** The first position from j on that closes the bracket opened at i. */
  ghost function ClosingBracket(expr: string, i: nat, j: nat): (r: Found)
    requires i < j <= |expr|
    ensures r.At? ==> j <= r.index && Closes(expr, i, r.index) && forall k :: j <= k < r.index ==> !Closes(expr, i, k)
    ensures r.NotFound? ==> forall k :: j <= k < |expr| ==> !Closes(expr, i, k)
    decreases |expr| - j
  {
    hide Closes;
    if j == |expr| then NotFound
    else if Closes(expr, i, j) then At(j)
    else ClosingBracket(expr, i, j + 1)
  }

  // ---------------------------------------------------------------- tokens

  predicate IdentStart(c: char) {
    'A' <= c <= 'Z' || 'a' <= c <= 'z' || c == '_' || c == '$'
  }

  predicate IdentPart(c: char) {
    IdentStart(c) || IsDigit(c)
  }

  /** Length of the longest identifier s starts with, 0 when there is none. */
  function IdentLen(s: string): (n: nat)
    ensures n <= |s|
  {
    if s != "" && IdentStart(s[0]) then 1 + Run(s[1..], IdentPart) else 0
  }

  /** Length of the member name a '.' may be followed by: an identifier, else digits. */
  function MemberLen(s: string): (n: nat)
    ensures n <= |s|
  {
    if IdentLen(s) > 0 then IdentLen(s) else Run(s, IsDigit)
  }

  predicate IsIdent(s: string) {
    s != "" && IdentLen(s) == |s|
  }

  predicate IsNumber(s: string) {
    var t := if s != "" && s[0] == '-' then s[1..] else s;
    var n := Run(t, IsDigit);
    n > 0 && (n == |t| || (t[n] == '.' && n + 1 < |t| && Run(t[n + 1..], IsDigit) == |t| - n - 1))
  }

  // ---------------------------------------------------------------- evaluation by slicing

  /** The JavaScript operations the evaluator leans on, over an arbitrary type of values. */
  datatype Js<!V> = Js(
    undef: V, nul: V, boolean: bool -> V, number: string -> V, text: string -> V,
    truthy: V -> bool, nullish: V -> bool, strictEq: (V, V) -> bool, looseEq: (V, V) -> bool,
    named: (V, string) -> V, keyed: (V, V) -> V)
  {
    function Named(v: V, name: string): V {
      if nullish(v) then undef else named(v, name)
    }

    function Keyed(v: V, key: V): V {
      if nullish(v) then undef else keyed(v, key)
    }

    function Compare(op: string, l: V, r: V): V {
      if op == "===" then boolean(strictEq(l, r))
      else if op == "!==" then boolean(!strictEq(l, r))
      else if op == "==" then boolean(looseEq(l, r))
      else boolean(!looseEq(l, r))
    }
  }

  function Keywords(): set<string> {
    {"true", "false", "null", "undefined"}
  }

  ghost function ResolveText<V>(js: Js<V>, vals: V, src: string): V
    decreases |src|, 1, 0
  {
    var expr := Trim(src);
    if expr == "" then js.undef
    else if expr[0] == '(' && expr[|expr| - 1] == ')' && WrapsWhole(expr) then
      ResolveText(js, vals, expr[1..|expr| - 1])
    else
      var eq := FirstEquality(expr, 0);
      if eq.At? then
        var op := OpAt(expr, eq.index);
        js.Compare(op, ResolveText(js, vals, expr[..eq.index]), ResolveText(js, vals, expr[eq.index + |op|..]))
      else if expr[0] == '!' then js.boolean(!js.truthy(ResolveText(js, vals, expr[1..])))
      else ResolveAtom(js, vals, expr)
  }

  ghost function ResolveAtom<V>(js: Js<V>, vals: V, expr: string): V
    requires expr != ""
    decreases |expr|, 0, |expr| + 1
  {
    if expr == "true" then js.boolean(true)
    else if expr == "false" then js.boolean(false)
    else if expr == "null" then js.nul
    else if expr == "undefined" then js.undef
    else if IsNumber(expr) then js.number(expr)
    else if |expr| >= 2 && IsQuote(expr[0]) && expr[|expr| - 1] == expr[0] then js.text(expr[1..|expr| - 1])
    else if IdentLen(expr) == 0 then js.undef
    else PathFrom(js, vals, expr, js.Named(vals, expr[..IdentLen(expr)]), IdentLen(expr))
  }

  /** The rest of a path, from position i, applied to the value reached so far. */
  ghost function PathFrom<V>(js: Js<V>, vals: V, expr: string, cur: V, i: nat): V
    requires i <= |expr|
    decreases |expr|, 0, |expr| - i
  {
    if i == |expr| then cur
    else if expr[i] == '.' then
      var m := MemberLen(expr[i + 1..]);
      if m == 0 then js.undef
      else PathFrom(js, vals, expr, js.Named(cur, expr[i + 1..i + 1 + m]), i + 1 + m)
    else if expr[i] == '[' then
      var close := ClosingBracket(expr, i, i + 1);
      if close.NotFound? then js.undef
      else PathFrom(js, vals, expr, js.Keyed(cur, ResolveText(js, vals, expr[i + 1..close.index])), close.index + 1)
    else js.undef
  }

  // ---------------------------------------------------------------- the procedures

  method ParensWrapWhole(expr: string) returns (r: bool)
    ensures r <==> WrapsWhole(expr)
  {
    var depth := 0;
    var i := 0;
    while i < |expr| - 1
      invariant 0 <= i && (i < |expr| || i == 0)
      invariant depth == Depth(Round, expr[..i])
      invariant forall k :: 0 <= k < i && expr[k] == ')' ==> Depth(Round, expr[..k + 1]) != 0
    {
      DepthStep(Round, expr, i);
      if expr[i] == '(' {
        depth := depth + 1;
      } else if expr[i] == ')' {
        depth := depth - 1;
        if depth == 0 {
          return false;
        }
      }
      i := i + 1;
    }
    return true;
  }

  method FindTopLevelEquality(expr: string) returns (r: Found)
    ensures r == FirstEquality(expr, 0)
  {
    var depth := 0;
    var i := 0;
    while i < |expr|
      invariant i <= |expr|
      invariant depth == Depth(Any, expr[..i])
      invariant FirstEquality(expr, i) == FirstEquality(expr, 0)
    {
      DepthStep(Any, expr, i);
      var c := expr[i];
      if c == '[' || c == '(' {
        depth := depth + 1;
      } else if c == ']' || c == ')' {
        depth := depth - 1;
      } else if depth == 0 && EqChar(c) && i + 1 < |expr| && expr[i + 1] == '=' {
        if !(i > 0 && EqChar(expr[i - 1])) && Trim(expr[..i]) != "" {
          return At(i);
        }
      }
      i := i + 1;
    }
    return NotFound;
  }

  method Resolve<V>(js: Js<V>, vals: V, src: string) returns (v: V)
    ensures v == ResolveText(js, vals, src)
    decreases |src|, 1
  {
    hide Trim, FirstEquality, WrapsWhole, PathFrom, IsNumber, IdentLen;
    var expr := Trim(src);
    if expr == "" {
      return js.undef;
    }
    if expr[0] == '(' && expr[|expr| - 1] == ')' {
      var wraps := ParensWrapWhole(expr);
      if wraps {
        v := Resolve(js, vals, expr[1..|expr| - 1]);
        return;
      }
    }
    var eq := FindTopLevelEquality(expr);
    if eq.At? {
      var op := OpAt(expr, eq.index);
      var l := Resolve(js, vals, expr[..eq.index]);
      var r := Resolve(js, vals, expr[eq.index + |op|..]);
      return js.Compare(op, l, r);
    }
    if expr[0] == '!' {
      v := Resolve(js, vals, expr[1..]);
      return js.boolean(!js.truthy(v));
    }
    if expr == "true" {
      return js.boolean(true);
    }
    if expr == "false" {
      return js.boolean(false);
    }
    if expr == "null" {
      return js.nul;
    }
    if expr == "undefined" {
      return js.undef;
    }
    if IsNumber(expr) {
      return js.number(expr);
    }
    if |expr| >= 2 && IsQuote(expr[0]) && expr[|expr| - 1] == expr[0] {
      return js.text(expr[1..|expr| - 1]);
    }
    v := ResolvePath(js, vals, expr);
  }

  method ResolvePath<V>(js: Js<V>, vals: V, expr: string) returns (v: V)
    ensures v == if IdentLen(expr) == 0 then js.undef
                 else PathFrom(js, vals, expr, js.Named(vals, expr[..IdentLen(expr)]), IdentLen(expr))
    decreases |expr|, 0
  {
    hide ResolveText, MemberLen, IdentLen, Depth;
    var i := IdentLen(expr);
    if i == 0 {
      return js.undef;
    }
    v := js.Named(vals, expr[..i]);
    while i < |expr|
      invariant i <= |expr|
      invariant PathFrom(js, vals, expr, v, i)
             == PathFrom(js, vals, expr, js.Named(vals, expr[..IdentLen(expr)]), IdentLen(expr))
    {
      if expr[i] == '.' {
        var m := MemberLen(expr[i + 1..]);
        if m == 0 {
          return js.undef;
        }
        v, i := js.Named(v, expr[i + 1..i + 1 + m]), i + 1 + m;
      } else if expr[i] == '[' {
        var j := FindClosing(expr, i);
        if j.NotFound? {
          return js.undef;
        }
        var key := Resolve(js, vals, expr[i + 1..j.index]);
        v, i := js.Keyed(v, key), j.index + 1;
      } else {
        return js.undef;
      }
    }
  }

  /** The bracket-matching inner loop of the path walk. */
  method FindClosing(expr: string, i: nat) returns (r: Found)
    requires i < |expr| && expr[i] == '['
    ensures r == ClosingBracket(expr, i, i + 1)
  {
    var depth := 1;
    var j := i + 1;
    assert expr[i..i + 1] == "[";
    while j < |expr| && depth > 0
      invariant i < j <= |expr|
      invariant depth == Depth(Square, expr[i..j]) && depth > 0
      invariant ClosingBracket(expr, i, j) == ClosingBracket(expr, i, i + 1)
    {
      assert expr[i..j + 1][..j - i] == expr[i..j];
      if expr[j] == '[' {
        depth := depth + 1;
      } else if expr[j] == ']' {
        depth := depth - 1;
        if depth == 0 {
          return At(j);
        }
      }
      j := j + 1;
    }
    return NotFound;
  }

  // ---------------------------------------------------------------- the grammar, as trees

  datatype Operator = StrictEq | StrictNe | LooseEq | LooseNe

  /** Expressions with the white space and redundant parentheses their text may carry. */
  datatype Expr =
    | Keyword(word: string)
    | Number(digits: string)
    | Quoted(quote: char, content: string)
    | Name(name: string)
    | Member(path: Expr, member: string)
    | Index(base: Expr, ipre: string, index: Expr, ipost: string)
    | Paren(pre: string, inner: Expr, post: string)
    | Not(gap: string, operand: Expr)
    | Equality(left: Expr, lgap: string, op: Operator, rgap: string, right: Expr)

  predicate IsPath(e: Expr) {
    e.Name? || e.Member? || e.Index?
  }

  predicate Unbracketed(c: char) {
    c != '(' && c != ')' && c != '[' && c != ']'
  }

  /** The grammar's side conditions: what stands where; a literal's brackets are balanced, and an equality sign in it
      stands inside some. */
  ghost predicate Wf(e: Expr) {
    match e
    case Keyword(w) => w in Keywords()
    case Number(d) => IsNumber(d)
    case Quoted(q, c) => IsQuote(q) && Tidy(c) && Shielded(c)
    case Name(n) => IsIdent(n)
    case Member(p, m) => Wf(p) && IsPath(p) && m != "" && MemberLen(m) == |m|
    case Index(p, pre, i, post) => Wf(p) && IsPath(p) && Wf(i) && AllSpace(pre) && AllSpace(post)
    case Paren(pre, i, post) => Wf(i) && AllSpace(pre) && AllSpace(post)
    case Not(gap, x) => Wf(x) && !x.Equality? && AllSpace(gap)
    case Equality(l, g, _, h, r) => Wf(l) && !l.Equality? && Wf(r) && AllSpace(g) && AllSpace(h)
  }

  /** A bare name that spells a keyword is read as that keyword. */
  ghost predicate NoBareKeyword(e: Expr) {
    match e
    case Name(n) => n !in Keywords()
    case Member(p, m) => p.Name? || NoBareKeyword(p)
    case Index(p, _, i, _) => (p.Name? || NoBareKeyword(p)) && NoBareKeyword(i)
    case Paren(_, i, _) => NoBareKeyword(i)
    case Not(_, x) => NoBareKeyword(x)
    case Equality(l, _, _, _, r) => NoBareKeyword(l) && NoBareKeyword(r)
    case _ => true
  }

  function Spell(op: Operator): string {
    match op
    case StrictEq => "==="
    case StrictNe => "!=="
    case LooseEq => "=="
    case LooseNe => "!="
  }

  function Print(e: Expr): string {
    match e
    case Keyword(w) => w
    case Number(d) => d
    case Quoted(q, c) => [q] + c + [q]
    case Name(n) => n
    case Member(p, m) => Print(p) + "." + m
    case Index(p, pre, i, post) => Print(p) + "[" + (pre + Print(i) + post) + "]"
    case Paren(pre, i, post) => "(" + (pre + Print(i) + post) + ")"
    case Not(gap, x) => "!" + gap + Print(x)
    case Equality(l, g, op, h, r) => (Print(l) + g) + Spell(op) + (h + Print(r))
  }

  function KeywordValue<V>(js: Js<V>, word: string): V {
    if word == "true" then js.boolean(true)
    else if word == "false" then js.boolean(false)
    else if word == "null" then js.nul
    else js.undef
  }

  /** Direct evaluation of the tree. */
  function Eval<V>(js: Js<V>, vals: V, e: Expr): V {
    match e
    case Keyword(w) => KeywordValue(js, w)
    case Number(d) => js.number(d)
    case Quoted(_, c) => js.text(c)
    case Name(n) => js.Named(vals, n)
    case Member(p, m) => js.Named(Eval(js, vals, p), m)
    case Index(p, _, i, _) => js.Keyed(Eval(js, vals, p), Eval(js, vals, i))
    case Paren(_, i, _) => Eval(js, vals, i)
    case Not(_, x) => js.boolean(!js.truthy(Eval(js, vals, x)))
    case Equality(l, _, op, _, r) =>
      Compared(js, op, Eval(js, vals, l), Eval(js, vals, r))
  }

  function Compared<V>(js: Js<V>, op: Operator, a: V, b: V): V {
    match op
    case StrictEq => js.boolean(js.strictEq(a, b))
    case StrictNe => js.boolean(!js.strictEq(a, b))
    case LooseEq => js.boolean(js.looseEq(a, b))
    case LooseNe => js.boolean(!js.looseEq(a, b))
  }

  lemma CompareSpelled<V>(js: Js<V>, op: Operator, a: V, b: V)
    ensures js.Compare(Spell(op), a, b) == Compared(js, op, a, b)
  {}

  // ---------------------------------------------------------------- shape of printed text

  /** Depth never falls below zero and ends at zero. */
  ghost predicate Balanced(k: Brackets, s: string) {
    Depth(k, s) == 0 && forall i :: 0 <= i <= |s| ==> Depth(k, s[..i]) >= 0
  }

  /** Balanced for every kind of bracket. */
  ghost predicate Tidy(s: string) {
    forall k :: Balanced(k, s)
  }

  /** Every '=' stands inside some bracket. */
  ghost predicate Shielded(s: string) {
    forall i :: 0 <= i < |s| && s[i] == '=' ==> Depth(Any, s[..i]) > 0
  }

  lemma BalancedConcat(k: Brackets, a: string, b: string)
    requires Balanced(k, a) && Balanced(k, b)
    ensures Balanced(k, a + b)
  {
    DepthConcat(k, a, b);
    forall i | 0 <= i <= |a + b| ensures Depth(k, (a + b)[..i]) >= 0 {
      if i <= |a| {
        assert (a + b)[..i] == a[..i];
      } else {
        assert (a + b)[..i] == a + b[..i - |a|];
        DepthConcat(k, a, b[..i - |a|]);
      }
    }
  }

  lemma TidyConcat(a: string, b: string)
    requires Tidy(a) && Tidy(b)
    ensures Tidy(a + b)
    ensures Shielded(a) && Shielded(b) ==> Shielded(a + b)
  {
    forall k ensures Balanced(k, a + b) {
      BalancedConcat(k, a, b);
    }
    if Shielded(a) && Shielded(b) {
      ShieldedConcat(a, b);
    }
  }

  lemma ShieldedConcat(a: string, b: string)
    requires Shielded(a) && Balanced(Any, a) && Shielded(b)
    ensures Shielded(a + b)
  {
    forall i | 0 <= i < |a + b| && (a + b)[i] == '=' ensures Depth(Any, (a + b)[..i]) > 0 {
      if i < |a| {
        assert (a + b)[..i] == a[..i];
      } else {
        assert (a + b)[..i] == a + b[..i - |a|];
        DepthConcat(Any, a, b[..i - |a|]);
      }
    }
  }

  lemma {:induction false} FlatDepth(k: Brackets, s: string)
    requires forall c :: c in s ==> Delta(k, c) == 0
    ensures Depth(k, s) == 0
  {
    if s != "" {
      assert s[|s| - 1] in s;
      FlatDepth(k, s[..|s| - 1]);
    }
  }

  lemma PlainText(s: string)
    requires forall c :: c in s ==> Unbracketed(c)
    ensures Tidy(s)
    ensures '=' !in s ==> Shielded(s)
  {
    forall k ensures Balanced(k, s) {
      forall i | 0 <= i <= |s| ensures Depth(k, s[..i]) == 0 {
        forall c | c in s[..i] ensures Delta(k, c) == 0 {
          assert c in s && Unbracketed(c);
        }
        FlatDepth(k, s[..i]);
      }
      assert s[..|s|] == s;
    }
  }

  lemma DepthOne(k: Brackets, c: char)
    ensures Depth(k, [c]) == Delta(k, c)
  {
    assert [c][..0] == "";
    assert Depth(k, [c]) == Depth(k, "") + Delta(k, c);
  }

  /** Inside a pair of brackets the depth stays positive. */
  lemma DepthInside(k: Brackets, open: char, s: string, close: char, i: nat)
    requires Balanced(k, s) && 1 <= i <= |s| + 1
    ensures Depth(k, ([open] + s + [close])[..i]) == Delta(k, open) + Depth(k, s[..i - 1]) >= Delta(k, open)
  {
    assert ([open] + s + [close])[..i] == [open] + s[..i - 1];
    DepthConcat(k, [open], s[..i - 1]);
    DepthOne(k, open);
  }

  lemma BracketedText(open: char, s: string, close: char)
    requires Tidy(s)
    requires (open == '(' && close == ')') || (open == '[' && close == ']')
    ensures Tidy([open] + s + [close]) && Shielded([open] + s + [close])
  {
    var t := [open] + s + [close];
    forall k ensures Balanced(k, t) {
      DepthInside(k, open, s, close, |s| + 1);
      assert t[..|s| + 1] == t[..|t| - 1];
      assert s[..|s|] == s;
      forall i | 0 <= i <= |t| ensures Depth(k, t[..i]) >= 0 {
        if 1 <= i <= |s| + 1 {
          DepthInside(k, open, s, close, i);
        } else if i == |t| {
          assert t[..i] == t;
        }
      }
    }
    assert Balanced(Any, s);
    forall i | 0 <= i < |t| && t[i] == '=' ensures Depth(Any, t[..i]) > 0 {
      DepthInside(Any, open, s, close, i);
    }
  }

  lemma IdentChars(s: string)
    requires s != "" && MemberLen(s) == |s|
    ensures forall c :: c in s ==> IdentPart(c)
  {
    if IdentLen(s) > 0 {
      AllOf(s[1..], IdentPart);
      assert forall i :: 1 <= i < |s| ==> s[i] == s[1..][i - 1];
    } else {
      AllOf(s, IsDigit);
    }
  }

  lemma AllOf(s: string, p: char -> bool)
    requires Run(s, p) == |s|
    ensures forall c :: c in s ==> p(c)
  {}

  predicate NumberPart(c: char) {
    IsDigit(c) || c == '-' || c == '.'
  }

  lemma NumberChars(s: string)
    requires IsNumber(s)
    ensures s != "" && (forall c :: c in s ==> NumberPart(c)) && LastOk(s)
  {
    hide Run, NumberPart, LastOk, IsDigit;
    var t := if s[0] == '-' then s[1..] else s;
    UnsignedChars(t);
    DigitLast(t);
    if s[0] == '-' {
      SignIsPart();
      assert s == ['-'] + t;
      LastOf(['-'], t);
    }
  }

  lemma DigitLast(t: string)
    requires t != "" && IsDigit(t[|t| - 1])
    ensures LastOk(t)
  {}

  lemma SignIsPart()
    ensures NumberPart('-')
  {}

  lemma UnsignedChars(t: string)
    requires var n := Run(t, IsDigit);
      n > 0 && (n == |t| || (t[n] == '.' && n + 1 < |t| && Run(t[n + 1..], IsDigit) == |t| - n - 1))
    ensures t != "" && (forall c :: c in t ==> NumberPart(c)) && IsDigit(t[|t| - 1])
  {
    hide Run;
    var n := Run(t, IsDigit);
    if n < |t| {
      var u := t[n + 1..];
      assert forall i :: n < i < |t| ==> t[i] == u[i - n - 1];
    }
  }

  /** A printed expression starts with a visible character that tells what kind it is. */
  lemma {:induction false} Head(e: Expr)
    requires Wf(e)
    ensures Print(e) != "" && !IsSpace(Print(e)[0]) && Print(e)[0] != '='
    ensures IsPath(e) ==> IdentStart(Print(e)[0])
    ensures !e.Equality? && Print(e)[0] == '(' ==> e.Paren?
    ensures !e.Equality? && Print(e)[0] == '!' ==> e.Not?
    ensures e.Equality? ==> Print(e.left) != "" && Print(e)[0] == Print(e.left)[0]
  {
    match e
    case Member(p, _) => Head(p);
    case Index(p, _, _, _) => Head(p);
    case Equality(l, _, _, _, _) => Head(l);
    case _ => AtomHead(e);
  }

  lemma AtomHead(e: Expr)
    requires Wf(e) && !(e.Member? || e.Index? || e.Equality?)
    ensures Print(e) != "" && !IsSpace(Print(e)[0]) && Print(e)[0] != '='
    ensures IsPath(e) ==> IdentStart(Print(e)[0])
    ensures Print(e)[0] == '(' ==> e.Paren?
    ensures Print(e)[0] == '!' ==> e.Not?
  {
    match e
    case Number(d) =>
      NumberChars(d);
      assert NumberPart(d[0]);
    case Keyword(w) => KeywordIsIdent(w);
    case _ =>
  }

  /** It ends with a visible character that is no part of an operator. */
  predicate LastOk(s: string) {
    s != "" && !IsSpace(s[|s| - 1]) && !EqChar(s[|s| - 1])
  }

  lemma LastOf(a: string, b: string)
    requires LastOk(b)
    ensures LastOk(a + b)
  {
    assert (a + b)[|a + b| - 1] == b[|b| - 1];
  }

  lemma AtomLast(e: Expr)
    requires Wf(e) && !(e.Member? || e.Not? || e.Equality?)
    ensures LastOk(Print(e))
  {
    match e
    case Number(d) => NumberChars(d);
    case Name(n) => MemberLast(n);
    case Keyword(w) =>
      KeywordIsIdent(w);
      MemberLast(w);
    case _ =>
  }

  lemma {:induction false} Last(e: Expr)
    requires Wf(e)
    ensures LastOk(Print(e))
  {
    hide LastOk;
    match e
    case Member(p, m) =>
      MemberLast(m);
      LastOf(Print(p) + ".", m);
    case Not(gap, x) =>
      Last(x);
      LastOf("!" + gap, Print(x));
    case Equality(l, g, op, h, r) =>
      Last(r);
      LastOf(h, Print(r));
      LastOf((Print(l) + g) + Spell(op), h + Print(r));
    case _ =>
      AtomLast(e);
  }

  lemma MemberLast(m: string)
    requires m != "" && MemberLen(m) == |m|
    ensures LastOk(m)
  {
    IdentChars(m);
    assert IdentPart(m[|m| - 1]);
  }

  lemma PaddedTidy(pre: string, t: string, post: string)
    requires AllSpace(pre) && AllSpace(post) && Tidy(t)
    ensures Tidy(pre + t + post)
    ensures Shielded(t) ==> Shielded(pre + t + post)
  {
    PlainText(pre);
    PlainText(post);
    TidyConcat(pre, t);
    TidyConcat(pre + t, post);
  }

  lemma KeywordIsIdent(w: string)
    requires w in Keywords()
    ensures IsIdent(w)
  {
    assert forall i :: 0 <= i < |w| ==> IdentStart(w[i]);
    RunIs(w[1..], IdentPart, |w| - 1);
  }

  lemma QuotedShape(q: char, c: string)
    requires IsQuote(q) && Tidy(c) && Shielded(c)
    ensures Tidy([q] + c + [q]) && Shielded([q] + c + [q])
  {
    hide Tidy, Shielded;
    PlainText([q]);
    TidyConcat([q], c);
    TidyConcat([q] + c, [q]);
  }

  lemma AtomShape(e: Expr)
    requires Wf(e) && !(e.Member? || e.Index? || e.Paren? || e.Not? || e.Equality?)
    ensures Tidy(Print(e)) && Shielded(Print(e))
  {
    hide Tidy, Shielded;
    if e.Quoted? {
      QuotedShape(e.quote, e.content);
    } else {
      UnquotedChars(e);
      PlainText(Print(e));
    }
  }

  lemma UnquotedChars(e: Expr)
    requires Wf(e) && (e.Number? || e.Name? || e.Keyword?)
    ensures forall c :: c in Print(e) ==> Unbracketed(c) && c != '='
  {
    match e
    case Number(d) => NumberChars(d);
    case Name(n) => IdentChars(n);
    case Keyword(w) =>
      KeywordIsIdent(w);
      IdentChars(w);
  }

  lemma MemberShape(p: string, m: string)
    requires Tidy(p) && Shielded(p) && m != "" && MemberLen(m) == |m|
    ensures Tidy(p + "." + m) && Shielded(p + "." + m)
  {
    hide Shielded, Tidy, MemberLen;
    IdentChars(m);
    PlainText("." + m);
    TidyConcat(p, "." + m);
    assert p + "." + m == p + ("." + m);
  }

  lemma IndexShape(p: string, x: string)
    requires Tidy(p) && Shielded(p) && Tidy(x)
    ensures Tidy(p + "[" + x + "]") && Shielded(p + "[" + x + "]")
  {
    hide Shielded, Tidy;
    BracketedText('[', x, ']');
    TidyConcat(p, ['['] + x + [']']);
    assert p + "[" + x + "]" == p + (['['] + x + [']']);
  }

  lemma EqualityShape(l: string, g: string, op: Operator, h: string, r: string)
    requires Tidy(l) && Tidy(r) && AllSpace(g) && AllSpace(h)
    ensures Tidy((l + g) + Spell(op) + (h + r))
  {
    hide Shielded, Tidy, Balanced;
    PlainText(g);
    PlainText(h);
    PlainText(Spell(op));
    TidyConcat(l, g);
    TidyConcat(l + g, Spell(op));
    TidyConcat(h, r);
    TidyConcat(l + g + Spell(op), h + r);
  }

  /** Printed text is balanced for every kind of bracket, and only an equality exposes an equality sign. */
  lemma {:induction false} PrintedShape(e: Expr)
    requires Wf(e)
    ensures Tidy(Print(e))
    ensures !e.Equality? ==> Shielded(Print(e))
  {
    hide Shielded, Tidy, Balanced;
    match e
    case Member(p, m) =>
      PrintedShape(p);
      MemberShape(Print(p), m);
    case Index(p, pre, i, post) =>
      PrintedShape(p);
      PrintedShape(i);
      PaddedTidy(pre, Print(i), post);
      IndexShape(Print(p), pre + Print(i) + post);
    case Paren(pre, i, post) =>
      PrintedShape(i);
      PaddedTidy(pre, Print(i), post);
      BracketedText('(', pre + Print(i) + post, ')');
    case Not(gap, x) =>
      PrintedShape(x);
      PlainText("!" + gap);
      TidyConcat("!" + gap, Print(x));
    case Equality(l, g, op, h, r) =>
      PrintedShape(l);
      PrintedShape(r);
      EqualityShape(Print(l), g, op, h, Print(r));
    case _ =>
      AtomShape(e);
  }

  // ---------------------------------------------------------------- what the scanners find in printed text

  lemma WrapsParen(x: string)
    requires Tidy(x)
    ensures WrapsWhole("(" + x + ")")
  {
    var t := "(" + x + ")";
    assert Balanced(Round, x);
    forall k | 0 <= k < |t| - 1 && t[k] == ')' ensures Depth(Round, t[..k + 1]) != 0 {
      DepthInside(Round, '(', x, ')', k + 1);
    }
  }

  lemma NotWrapped(x: string, rest: string)
    requires Tidy("(" + x + ")") && rest != ""
    ensures !WrapsWhole("(" + x + ")" + rest)
  {
    var l := "(" + x + ")";
    var t := l + rest;
    var k := |l| - 1;
    assert t[k] == ')' && k < |t| - 1;
    assert t[..k + 1] == l;
    assert Balanced(Round, l);
  }

  /** Text whose equality signs are all inside brackets shows no equality. */
  lemma NoEquality(s: string, i: int)
    requires Shielded(s)
    ensures !EqualityAt(s, i)
  {
    if EqualityAt(s, i) {
      DepthStep(Any, s, i);
      assert false;
    }
  }

  lemma NoFirstEquality(s: string)
    requires Shielded(s)
    ensures FirstEquality(s, 0) == NotFound
  {
    var f := FirstEquality(s, 0);
    if f.At? {
      NoEquality(s, f.index);
    }
  }

  /** The leftmost equality of `l op r` is that operator, when l shows none. */
  lemma FindsOperator(l: string, op: Operator, r: string)
    requires Shielded(l) && Tidy(l) && Trim(l) != "" && l != "" && !EqChar(l[|l| - 1])
    requires r != "" && r[0] != '='
    ensures FirstEquality(l + Spell(op) + r, 0) == At(|l|)
    ensures OpAt(l + Spell(op) + r, |l|) == Spell(op)
  {
    hide Trim, OpAt, EqualityAt, Tidy, Shielded;
    var t := l + Spell(op) + r;
    OperatorHere(l, op, r);
    var f := FirstEquality(t, 0);
    if f.At? && f.index < |l| {
      assert t == l + (Spell(op) + r);
      BeforeOperator(l, Spell(op) + r, f.index);
    }
  }

  lemma OperatorHere(l: string, op: Operator, r: string)
    requires Tidy(l) && Trim(l) != "" && l != "" && !EqChar(l[|l| - 1])
    requires r != "" && r[0] != '='
    ensures EqualityAt(l + Spell(op) + r, |l|)
    ensures OpAt(l + Spell(op) + r, |l|) == Spell(op)
  {
    hide Trim;
    var t := l + Spell(op) + r;
    assert t[..|l|] == l;
    assert Balanced(Any, l);
    assert t[|l|] == Spell(op)[0] && t[|l| + 1] == Spell(op)[1];
    assert t[|l| + 2] == if |Spell(op)| == 3 then Spell(op)[2] else r[0];
  }

  lemma BeforeOperator(l: string, rest: string, i: nat)
    requires Shielded(l) && i < |l| && !EqChar(l[|l| - 1])
    ensures !EqualityAt(l + rest, i)
  {
    var t := l + rest;
    assert t[i] == l[i];
    if i + 1 < |l| {
      assert t[i + 1] == l[i + 1];
      assert t[..i] == l[..i];
      DepthStep(Any, l, i);
    }
  }

  /** The bracket opened before x is closed right after it. */
  lemma FindsClose(before: string, x: string, after: string)
    requires Tidy(x)
    ensures ClosingBracket(before + ("[" + x + "]") + after, |before|, |before| + 1) == At(|before| + 1 + |x|)
  {
    var b := "[" + x + "]";
    var t := before + b + after;
    var i := |before|;
    BracketedText('[', x, ']');
    assert Balanced(Square, b) && Balanced(Square, x);
    forall k | i + 1 <= k <= i + 1 + |x| ensures Closes(t, i, k) <==> k == i + 1 + |x| {
      assert t[i..k + 1] == b[..k + 1 - i];
      if k == i + 1 + |x| {
        assert b[..k + 1 - i] == b;
      } else {
        DepthInside(Square, '[', x, ']', k + 1 - i);
      }
    }
    assert i + 1 + |x| < |t| && Closes(t, i, i + 1 + |x|);
    var c := ClosingBracket(t, i, i + 1);
    if c.At? {
      assert Closes(t, i, c.index);
    }
  }

  // ---------------------------------------------------------------- tokens in context

  lemma IdentIn(n: string, rest: string)
    requires IsIdent(n) && (rest == "" || !IdentPart(rest[0]))
    ensures IdentLen(n + rest) == |n|
  {
    IdentChars(n);
    assert (n + rest)[1..] == n[1..] + rest;
    forall i | 0 <= i < |n| - 1 ensures IdentPart((n + rest)[1..][i]) {
      assert IdentPart(n[i + 1]);
    }
    RunIs((n + rest)[1..], IdentPart, |n| - 1);
  }

  lemma MemberIn(m: string, rest: string)
    requires m != "" && MemberLen(m) == |m| && (rest == "" || !IdentPart(rest[0]))
    ensures MemberLen(m + rest) == |m|
  {
    if IdentLen(m) > 0 {
      IdentIn(m, rest);
    } else {
      forall i | 0 <= i < |m| ensures IsDigit((m + rest)[i]) {
        assert IsDigit(m[i]);
      }
      RunIs(m + rest, IsDigit, |m|);
    }
  }

  // ---------------------------------------------------------------- one step of the evaluator

  lemma StepParen<V>(js: Js<V>, vals: V, src: string, x: string)
    requires Trim(src) == "(" + x + ")" && WrapsWhole("(" + x + ")")
    ensures |x| < |src| && ResolveText(js, vals, src) == ResolveText(js, vals, x)
  {
    hide WrapsWhole, FirstEquality, Trim;
    var t := "(" + x + ")";
    assert t[1..|t| - 1] == x;
  }

  lemma StepEquality<V>(js: Js<V>, vals: V, src: string, l: string, op: string, r: string)
    requires Trim(src) == l + op + r && l + op + r != ""
    requires var t := l + op + r; !(t[0] == '(' && t[|t| - 1] == ')' && WrapsWhole(t))
    requires FirstEquality(l + op + r, 0) == At(|l|) && OpAt(l + op + r, |l|) == op
    ensures ResolveText(js, vals, src) == js.Compare(op, ResolveText(js, vals, l), ResolveText(js, vals, r))
  {
    hide WrapsWhole, FirstEquality, Trim, OpAt;
    var t := l + op + r;
    assert t[..|l|] == l;
    assert t[|l| + |op|..] == r;
  }

  lemma StepNot<V>(js: Js<V>, vals: V, src: string, x: string)
    requires Trim(src) == "!" + x && FirstEquality("!" + x, 0).NotFound?
    ensures |x| < |src| && ResolveText(js, vals, src) == js.boolean(!js.truthy(ResolveText(js, vals, x)))
  {
    hide WrapsWhole, FirstEquality, Trim;
    assert ("!" + x)[1..] == x;
  }

  lemma StepAtom<V>(js: Js<V>, vals: V, src: string)
    requires var t := Trim(src); t != "" && t[0] != '(' && t[0] != '!' && FirstEquality(t, 0).NotFound?
    ensures ResolveText(js, vals, src) == ResolveAtom(js, vals, Trim(src))
  {
    hide WrapsWhole, FirstEquality, Trim, ResolveAtom;
  }

  lemma StepMember<V>(js: Js<V>, vals: V, before: string, m: string, suffix: string, cur: V)
    requires m != "" && MemberLen(m + suffix) == |m|
    ensures PathFrom(js, vals, before + ("." + m) + suffix, cur, |before|)
         == PathFrom(js, vals, before + ("." + m) + suffix, js.Named(cur, m), |before| + 1 + |m|)
  {
    hide ResolveText, MemberLen;
    var t := before + ("." + m) + suffix;
    assert t[|before| + 1..] == m + suffix;
    assert t[|before| + 1..|before| + 1 + |m|] == m;
  }

  lemma StepIndex<V>(js: Js<V>, vals: V, before: string, x: string, suffix: string, cur: V)
    requires Tidy(x)
    ensures PathFrom(js, vals, before + ("[" + x + "]") + suffix, cur, |before|)
         == PathFrom(js, vals, before + ("[" + x + "]") + suffix, js.Keyed(cur, ResolveText(js, vals, x)),
                     |before| + |x| + 2)
  {
    hide ResolveText, ClosingBracket, Tidy, Depth, Closes, PathFrom;
    FindsClose(before, x, suffix);
    InsideSlice(before, x, suffix);
    StepIndexAt(js, vals, before + ("[" + x + "]") + suffix, |before|, |before| + 1 + |x|, cur);
  }

  lemma InsideSlice(before: string, x: string, suffix: string)
    ensures var t := before + ("[" + x + "]") + suffix;
      |before| + 1 + |x| < |t| && t[|before|] == '[' && t[|before| + 1..|before| + 1 + |x|] == x
  {}

  lemma StepIndexAt<V>(js: Js<V>, vals: V, t: string, i: nat, j: nat, cur: V)
    requires i < j < |t| && t[i] == '[' && ClosingBracket(t, i, i + 1) == At(j)
    ensures PathFrom(js, vals, t, cur, i)
         == PathFrom(js, vals, t, js.Keyed(cur, ResolveText(js, vals, t[i + 1..j])), j + 1)
  {
    hide ResolveText, ClosingBracket, Depth, Closes;
  }

  lemma StepPath<V>(js: Js<V>, vals: V, t: string)
    requires t != "" && IdentStart(t[0]) && t !in Keywords()
    ensures ResolveAtom(js, vals, t) == PathFrom(js, vals, t, js.Named(vals, t[..IdentLen(t)]), IdentLen(t))
  {
    hide PathFrom;
  }

  // ---------------------------------------------------------------- the evaluator is correct

  /** Slicing the padded text of any well-formed expression computes the value of its tree. */
  lemma {:induction false} ResolveIsEval<V>(js: Js<V>, vals: V, e: Expr, pre: string, post: string)
    requires Wf(e) && NoBareKeyword(e) && AllSpace(pre) && AllSpace(post)
    ensures ResolveText(js, vals, pre + Print(e) + post) == Eval(js, vals, e)
    decreases e, 2
  {
    hide ResolveText, FirstEquality, Trim, Tidy, Shielded;
    var src := pre + Print(e) + post;
    Head(e);
    Last(e);
    TrimPadded(pre, Print(e), post);
    if e.Equality? {
      EqualityCorrect(js, vals, e, src);
    } else {
      PrintedShape(e);
      NoFirstEquality(Print(e));
      if e.Paren? {
        ParenCorrect(js, vals, e, src);
      } else if e.Not? {
        NotCorrect(js, vals, e, src);
      } else {
        StepAtom(js, vals, src);
        AtomCorrect(js, vals, e);
      }
    }
  }

  lemma {:induction false} ParenCorrect<V>(js: Js<V>, vals: V, e: Expr, src: string)
    requires Wf(e) && NoBareKeyword(e) && e.Paren? && Trim(src) == Print(e)
    ensures ResolveText(js, vals, src) == Eval(js, vals, e)
    decreases e, 1
  {
    hide ResolveText, Trim, WrapsWhole, Tidy, Shielded;
    var x := e.pre + Print(e.inner) + e.post;
    PrintedShape(e.inner);
    PaddedTidy(e.pre, Print(e.inner), e.post);
    WrapsParen(x);
    StepParen(js, vals, src, x);
    ResolveIsEval(js, vals, e.inner, e.pre, e.post);
  }

  lemma {:induction false} NotCorrect<V>(js: Js<V>, vals: V, e: Expr, src: string)
    requires Wf(e) && NoBareKeyword(e) && e.Not? && Trim(src) == Print(e)
    requires FirstEquality(Print(e), 0).NotFound?
    ensures ResolveText(js, vals, src) == Eval(js, vals, e)
    decreases e, 1
  {
    hide ResolveText, FirstEquality, Trim;
    var x := e.gap + Print(e.operand);
    assert Print(e) == "!" + x;
    StepNot(js, vals, src, x);
    ResolveIsEval(js, vals, e.operand, e.gap, "");
    assert x == x + "";
  }

  lemma {:induction false} EqualityCorrect<V>(js: Js<V>, vals: V, e: Expr, src: string)
    requires Wf(e) && NoBareKeyword(e) && e.Equality? && Trim(src) == Print(e)
    ensures ResolveText(js, vals, src) == Eval(js, vals, e)
    decreases e, 1
  {
    hide ResolveText, FirstEquality, Trim, WrapsWhole, OpAt, Compared;
    var l, r := Print(e.left) + e.lgap, e.rgap + Print(e.right);
    EqualitySplits(e);
    CompareSpelled(js, e.op, Eval(js, vals, e.left), Eval(js, vals, e.right));
    StepEquality(js, vals, src, l, Spell(e.op), r);
    ResolveIsEval(js, vals, e.left, "", e.lgap);
    ResolveIsEval(js, vals, e.right, e.rgap, "");
    EmptySides(Print(e.left), e.lgap);
    EmptySides(e.rgap, Print(e.right));
  }

  lemma EmptySides(a: string, b: string)
    ensures "" + a + b == a + b && a + b + "" == a + b
  {}

  /** The evaluator neither strips parentheses from an equality nor splits it anywhere else. */
  lemma EqualitySplits(e: Expr)
    requires Wf(e) && e.Equality?
    ensures var t := Print(e);
      && t != "" && !(t[0] == '(' && t[|t| - 1] == ')' && WrapsWhole(t))
      && FirstEquality(t, 0) == At(|Print(e.left) + e.lgap|)
      && OpAt(t, |Print(e.left) + e.lgap|) == Spell(e.op)
  {
    hide FirstEquality, Trim, WrapsWhole, OpAt, Tidy, Shielded;
    var l, r := Print(e.left) + e.lgap, e.rgap + Print(e.right);
    Head(e);
    Head(e.left);
    Head(e.right);
    PrintedShape(e.left);
    LeftOperand(e);
    assert r[0] != '=' by {
      if e.rgap != "" {
        assert e.rgap[0] in e.rgap;
      }
    }
    FindsOperator(l, e.op, r);
    if Print(e)[0] == '(' {
      WrappedLeft(e);
    }
  }

  lemma WrappedLeft(e: Expr)
    requires Wf(e) && e.Equality? && e.left.Paren?
    ensures !WrapsWhole(Print(e))
  {
    hide WrapsWhole, Tidy;
    var x := e.left.pre + Print(e.left.inner) + e.left.post;
    var rest := e.lgap + Spell(e.op) + (e.rgap + Print(e.right));
    PrintedShape(e.left);
    NotWrapped(x, rest);
    Reassociate(Print(e.left), e.lgap, Spell(e.op), e.rgap + Print(e.right));
  }

  lemma Reassociate(a: string, b: string, c: string, d: string)
    ensures (a + b) + c + d == a + (b + c + d)
  {}

  lemma LeftOperand(e: Expr)
    requires Wf(e) && e.Equality?
    ensures var l := Print(e.left) + e.lgap;
      Tidy(l) && Shielded(l) && l != "" && Trim(l) != "" && !EqChar(l[|l| - 1])
  {
    hide Trim, Tidy, Shielded;
    Head(e.left);
    Last(e.left);
    PrintedShape(e.left);
    PlainText(e.lgap);
    TidyConcat(Print(e.left), e.lgap);
    GapAfter(Print(e.left), e.lgap);
  }

  lemma GapAfter(p: string, gap: string)
    requires AllSpace(gap) && LastOk(p) && !IsSpace(p[0])
    ensures Trim(p + gap) == p && !EqChar((p + gap)[|p + gap| - 1])
  {
    hide Trim;
    TrimPadded("", p, gap);
    assert "" + p + gap == p + gap;
    if gap != "" {
      assert (p + gap)[|p + gap| - 1] in gap;
    }
  }

  lemma {:induction false} AtomCorrect<V>(js: Js<V>, vals: V, e: Expr)
    requires Wf(e) && NoBareKeyword(e) && !(e.Equality? || e.Paren? || e.Not?)
    ensures Print(e) != "" && ResolveAtom(js, vals, Print(e)) == Eval(js, vals, e)
    decreases e, 1
  {
    Head(e);
    if IsPath(e) {
      var t := Print(e);
      PathIsNoKeyword(e);
      StepPath(js, vals, t);
      PathCorrect(js, vals, e, "");
      assert t + "" == t;
      EndOfPath(js, vals, t, Eval(js, vals, e));
    } else {
      LiteralCorrect(js, vals, e);
    }
  }

  lemma EndOfPath<V>(js: Js<V>, vals: V, t: string, cur: V)
    ensures PathFrom(js, vals, t, cur, |t|) == cur
  {}

  lemma LiteralCorrect<V>(js: Js<V>, vals: V, e: Expr)
    requires Wf(e) && !IsPath(e) && !(e.Equality? || e.Paren? || e.Not?)
    ensures Print(e) != "" && ResolveAtom(js, vals, Print(e)) == Eval(js, vals, e)
  {
    hide PathFrom;
    match e
    case Number(d) => NumberCorrect(js, vals, d);
    case Quoted(q, c) => QuotedCorrect(js, vals, q, c);
    case _ =>
  }

  lemma NumberCorrect<V>(js: Js<V>, vals: V, d: string)
    requires IsNumber(d)
    ensures d != "" && ResolveAtom(js, vals, d) == js.number(d)
  {
    hide PathFrom, IsNumber;
    NumberChars(d);
    assert NumberPart(d[0]);
  }

  lemma QuotedCorrect<V>(js: Js<V>, vals: V, q: char, c: string)
    requires IsQuote(q)
    ensures ResolveAtom(js, vals, [q] + c + [q]) == js.text(c)
  {
    hide PathFrom;
    var t := [q] + c + [q];
    assert t[0] == q && t[|t| - 1] == q && !IsNumber(t);
    assert t[1..|t| - 1] == c;
  }

  /** A path with a member or an index is longer than its head and holds a '.' or a '['. */
  lemma PathIsNoKeyword(e: Expr)
    requires Wf(e) && IsPath(e) && NoBareKeyword(e)
    ensures Print(e) !in Keywords()
  {
    hide NoBareKeyword, Wf, Keywords, IdentStart;
    if !e.Name? {
      var n := |Print(if e.Member? then e.path else e.base)|;
      assert n < |Print(e)| && (Print(e)[n] == '.' || Print(e)[n] == '[');
      KeywordLetters();
    } else {
      NameIsNoKeyword(e);
    }
  }

  lemma KeywordLetters()
    ensures forall w, i :: w in Keywords() && 0 <= i < |w| ==> IdentStart(w[i])
    ensures !IdentStart('.') && !IdentStart('[')
  {}

  lemma NameIsNoKeyword(e: Expr)
    requires e.Name? && NoBareKeyword(e)
    ensures Print(e) !in Keywords()
  {}

  /** Walking the text of a path, whatever follows it, reaches the path's value and its end. */
  lemma {:induction false} PathCorrect<V>(js: Js<V>, vals: V, p: Expr, suffix: string)
    requires Wf(p) && IsPath(p) && (p.Name? || NoBareKeyword(p))
    requires suffix == "" || suffix[0] == '.' || suffix[0] == '['
    ensures var t := Print(p) + suffix;
      var n := IdentLen(t);
      n > 0 && PathFrom(js, vals, t, js.Named(vals, t[..n]), n)
            == PathFrom(js, vals, t, Eval(js, vals, p), |Print(p)|)
    decreases p, 0, 1
  {
    hide PathFrom, ResolveText;
    var t := Print(p) + suffix;
    match p
    case Name(x) =>
      IdentIn(x, suffix);
      assert t[..|x|] == x;
    case Member(q, m) =>
      MemberCorrect(js, vals, p, suffix);
    case Index(q, pre, e, post) =>
      IndexCorrect(js, vals, p, suffix);
  }

  lemma {:induction false} MemberCorrect<V>(js: Js<V>, vals: V, p: Expr, suffix: string)
    requires Wf(p) && p.Member? && NoBareKeyword(p)
    requires suffix == "" || suffix[0] == '.' || suffix[0] == '['
    ensures var t := Print(p) + suffix;
      var n := IdentLen(t);
      n > 0 && PathFrom(js, vals, t, js.Named(vals, t[..n]), n)
            == PathFrom(js, vals, t, Eval(js, vals, p), |Print(p)|)
    decreases p, 0, 0
  {
    hide PathFrom, ResolveText, IdentLen, MemberLen;
    var q, m := p.path, p.member;
    var rest := "." + m + suffix;
    assert Print(p) + suffix == Print(q) + rest && Print(q) + rest == Print(q) + ("." + m) + suffix;
    PathCorrect(js, vals, q, rest);
    MemberIn(m, suffix);
    StepMember(js, vals, Print(q), m, suffix, Eval(js, vals, q));
  }

  lemma {:induction false} IndexCorrect<V>(js: Js<V>, vals: V, p: Expr, suffix: string)
    requires Wf(p) && p.Index? && NoBareKeyword(p)
    ensures var t := Print(p) + suffix;
      var n := IdentLen(t);
      n > 0 && PathFrom(js, vals, t, js.Named(vals, t[..n]), n)
            == PathFrom(js, vals, t, Eval(js, vals, p), |Print(p)|)
    decreases p, 0, 0
  {
    hide PathFrom, ResolveText, IdentLen, Tidy;
    var q := p.base;
    var x := p.ipre + Print(p.index) + p.ipost;
    var rest := "[" + x + "]" + suffix;
    IndexText(Print(q), x, suffix);
    PathCorrect(js, vals, q, rest);
    PaddedIndex(p);
    StepIndex(js, vals, Print(q), x, suffix, Eval(js, vals, q));
    ResolveIsEval(js, vals, p.index, p.ipre, p.ipost);
  }

  lemma IndexText(q: string, x: string, suffix: string)
    ensures q + "[" + x + "]" + suffix == q + ("[" + x + "]" + suffix) == q + ("[" + x + "]") + suffix
  {}

  lemma PaddedIndex(p: Expr)
    requires Wf(p) && p.Index?
    ensures Tidy(p.ipre + Print(p.index) + p.ipost)
  {
    PrintedShape(p.index);
    PaddedTidy(p.ipre, Print(p.index), p.ipost);
  }

  // ---------------------------------------------------------------- quoted text by itself

  /** A comparison never yields a text. */
  ghost predicate TextsAreNoBooleans<V>(js: Js<V>) {
    forall t, b :: js.text(t) != js.boolean(b)
  }

  ghost predicate IsBoolean<V>(js: Js<V>, v: V) {
    v == js.boolean(true) || v == js.boolean(false)
  }

  lemma ComparesToBoolean<V>(js: Js<V>, op: string, a: V, b: V)
    ensures IsBoolean(js, js.Compare(op, a, b))
  {
    IsBooleanOf(js, js.strictEq(a, b));
    IsBooleanOf(js, !js.strictEq(a, b));
    IsBooleanOf(js, js.looseEq(a, b));
    IsBooleanOf(js, !js.looseEq(a, b));
  }

  lemma IsBooleanOf<V>(js: Js<V>, b: bool)
    ensures IsBoolean(js, js.boolean(b))
  {
    if b {
      assert js.boolean(b) == js.boolean(true);
    } else {
      assert js.boolean(b) == js.boolean(false);
    }
  }

  lemma QuotedSplits<V>(js: Js<V>, vals: V, q: char, c: string, i: nat)
    requires IsQuote(q) && FirstEquality([q] + c + [q], 0) == At(i)
    ensures IsBoolean(js, ResolveText(js, vals, [q] + c + [q]))
  {
    hide ResolveText, FirstEquality, WrapsWhole, Trim, OpAt, IsBoolean;
    var t := [q] + c + [q];
    assert t[0] == q && q != '(';
    TrimPadded("", t, "");
    assert "" + t + "" == t;
    OperatorFits(t, i);
    var op := OpAt(t, i);
    var l, r := t[..i], t[i + |op|..];
    StepEquality(js, vals, t, l, op, r);
    ComparesToBoolean(js, op, ResolveText(js, vals, l), ResolveText(js, vals, r));
  }

  lemma QuotedReads<V>(js: Js<V>, vals: V, q: char, c: string)
    requires IsQuote(q) && FirstEquality([q] + c + [q], 0).NotFound?
    ensures ResolveText(js, vals, [q] + c + [q]) == js.text(c)
  {
    hide ResolveText, ResolveAtom, FirstEquality, Trim;
    var t := [q] + c + [q];
    TrimPadded("", t, "");
    assert "" + t + "" == t;
    StepAtom(js, vals, t);
    QuotedCorrect(js, vals, q, c);
  }

  /** Quoted text is read as that text exactly if the scanner sees no equality operator in it. */
  lemma QuotedReadsIff<V>(js: Js<V>, vals: V, q: char, c: string)
    requires IsQuote(q) && TextsAreNoBooleans(js)
    ensures ResolveText(js, vals, [q] + c + [q]) == js.text(c) <==> FirstEquality([q] + c + [q], 0).NotFound?
  {
    hide ResolveText, FirstEquality;
    var f := FirstEquality([q] + c + [q], 0);
    if f.NotFound? {
      QuotedReads(js, vals, q, c);
    } else {
      QuotedSplits(js, vals, q, c, f.index);
    }
  }

  lemma CutInThree(t: string, i: nat, j: nat)
    requires i <= j <= |t|
    ensures t[..i] + t[i..j] + t[j..] == t
  {}

  lemma OperatorIsThere(t: string, i: nat)
    requires i + 1 < |t| && t[i + 1] == '='
    ensures i + |OpAt(t, i)| <= |t| && t[i..i + |OpAt(t, i)|] == OpAt(t, i)
  {}

  lemma OperatorFits(t: string, i: nat)
    requires FirstEquality(t, 0) == At(i)
    ensures i < |t| && i + |OpAt(t, i)| <= |t| && i == |t[..i]|
    ensures t[..i] + OpAt(t, i) + t[i + |OpAt(t, i)|..] == t
  {
    hide FirstEquality, OpAt, Depth, Trim;
    assert EqualityAt(t, i);
    OperatorIsThere(t, i);
    CutInThree(t, i, i + |OpAt(t, i)|);
  }

  /** For one such text: a quoted equality sign is taken for an operator between two malformed operands. */
  lemma QuotedEqualityIsSplit<V>(js: Js<V>, vals: V)
    ensures ResolveText(js, vals, "\"a==b\"") == js.boolean(js.looseEq(js.undef, js.undef))
  {
    hide FirstEquality, WrapsWhole, ResolveText, ResolveAtom, OpAt, Shielded, Tidy, Trim;
    var l, r := "\"a", "b\"";
    var t := l + "==" + r;
    assert t == "\"a==b\"";
    PlainText(l);
    TrimPadded("", l, "");
    TrimPadded("", r, "");
    TrimPadded("", t, "");
    assert "" + l + "" == l && "" + r + "" == r && "" + t + "" == t;
    FindsOperator(l, LooseEq, r);
    StepEquality(js, vals, t, l, "==", r);
    PlainText(r);
    NoFirstEquality(l);
    NoFirstEquality(r);
    StepAtom(js, vals, l);
    StepAtom(js, vals, r);
    OpenQuoteIsNothing(js, vals);
  }

  lemma OpenQuoteIsNothing<V>(js: Js<V>, vals: V)
    ensures ResolveAtom(js, vals, "\"a") == js.undef && ResolveAtom(js, vals, "b\"") == js.undef
  {
  }

  // ---------------------------------------------------------------- what the two patterns accept

  predicate AllDigits(s: string) {
    s != "" && forall i :: 0 <= i < |s| ==> IsDigit(s[i])
  }

  lemma DigitRun(s: string, rest: string)
    requires AllDigits(s) && (rest == "" || !IsDigit(rest[0]))
    ensures Run(s + rest, IsDigit) == |s|
  {
    RunIs(s + rest, IsDigit, |s|);
  }

  ghost predicate NumberOf(s: string, sign: string, whole: string, point: string, fraction: string) {
    && s == sign + (whole + (point + fraction)) && (sign == "" || sign == "-") && AllDigits(whole)
    && ((point == "" && fraction == "") || (point == "." && AllDigits(fraction)))
  }

  /** A number is an optional minus, digits, and optionally a point and digits; nothing else is one. */
  lemma NumberIff(s: string)
    ensures IsNumber(s) <==> exists sign, whole, point, fraction :: NumberOf(s, sign, whole, point, fraction)
  {
    hide IsNumber, NumberOf;
    if IsNumber(s) {
      var sign, whole, point, fraction := NumberParts(s);
    }
    forall sign, whole, point, fraction | NumberOf(s, sign, whole, point, fraction) ensures IsNumber(s) {
      PartsAreNumber(s, sign, whole, point, fraction);
    }
  }

  lemma NumberParts(s: string) returns (sign: string, whole: string, point: string, fraction: string)
    requires IsNumber(s)
    ensures NumberOf(s, sign, whole, point, fraction)
  {
    hide Run, IsDigit, AllDigits, NumberOf;
    sign := if s[0] == '-' then "-" else "";
    var t := if s[0] == '-' then s[1..] else s;
    SignCut(s, sign, t);
    whole, point, fraction := UnsignedParts(t);
    PartsJoin(s, sign, t, whole, point, fraction);
  }

  lemma SignCut(s: string, sign: string, t: string)
    requires s != "" && sign == (if s[0] == '-' then "-" else "") && t == (if s[0] == '-' then s[1..] else s)
    ensures s == sign + t
  {}

  lemma PartsJoin(s: string, sign: string, t: string, whole: string, point: string, fraction: string)
    requires s == sign + t && (sign == "" || sign == "-") && t == whole + (point + fraction) && AllDigits(whole)
    requires (point == "" && fraction == "") || (point == "." && AllDigits(fraction))
    ensures NumberOf(s, sign, whole, point, fraction)
  {
    hide AllDigits;
  }

  lemma UnsignedParts(t: string) returns (whole: string, point: string, fraction: string)
    requires var n := Run(t, IsDigit);
      n > 0 && (n == |t| || (t[n] == '.' && n + 1 < |t| && Run(t[n + 1..], IsDigit) == |t| - n - 1))
    ensures t == whole + (point + fraction) && AllDigits(whole)
    ensures (point == "" && fraction == "") || (point == "." && AllDigits(fraction))
  {
    hide Run, IsDigit;
    var n := Run(t, IsDigit);
    whole, point, fraction := t[..n], "", "";
    if n < |t| {
      point, fraction := ".", t[n + 1..];
      FractionDigits(fraction);
    }
  }

  lemma FractionDigits(f: string)
    requires f != "" && Run(f, IsDigit) == |f|
    ensures AllDigits(f)
  {
    hide Run;
  }

  lemma PartsAreNumber(s: string, sign: string, whole: string, point: string, fraction: string)
    requires NumberOf(s, sign, whole, point, fraction)
    ensures IsNumber(s)
  {
    hide Run;
    var t := whole + (point + fraction);
    assert whole[0] == t[0] && IsDigit(whole[0]);
    assert sign == "-" ==> s[0] == '-' && s[1..] == t;
    assert sign == "" ==> s == t;
    DigitRun(whole, point + fraction);
    if point == "." {
      assert t[|whole| + 1..] == fraction && fraction + "" == fraction;
      DigitRun(fraction, "");
    }
  }

  /** The identifier pattern takes a letter, `_` or `$`, and then all such characters and digits that follow. */
  lemma IdentLenIs(s: string)
    ensures IdentLen(s) == 0 <==> s == "" || !IdentStart(s[0])
    ensures forall i :: 0 <= i < IdentLen(s) ==> IdentPart(s[i])
    ensures 0 < IdentLen(s) < |s| ==> !IdentPart(s[IdentLen(s)])
  {
    assert s != "" ==> forall i :: 0 < i < |s| ==> s[i] == s[1..][i - 1];
  }

  /** A member name is an identifier or else all the digits that follow. */
  lemma MemberLenIs(s: string)
    ensures IdentLen(s) > 0 ==> MemberLen(s) == IdentLen(s)
    ensures IdentLen(s) == 0 ==> (forall i :: 0 <= i < MemberLen(s) ==> IsDigit(s[i]))
                                 && (MemberLen(s) < |s| ==> !IsDigit(s[MemberLen(s)]))
  {}

  /** Along a path nothing is looked up on a nullish value: from the first one on, the path is undefined or what an
      index into it gives, which is undefined as well. */
  lemma NullishPathIsUndefined<V>(js: Js<V>, vals: V, e: Expr)
    requires Wf(e) && NoBareKeyword(e) && (e.Member? || e.Index?)
    requires js.nullish(Eval(js, vals, if e.Member? then e.path else e.base))
    ensures ResolveText(js, vals, Print(e)) == js.undef
  {
    hide ResolveText;
    assert "" + Print(e) + "" == Print(e);
    ResolveIsEval(js, vals, e, "", "");
  }
}
