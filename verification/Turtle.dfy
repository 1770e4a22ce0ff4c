/** String literals of RDF 1.1 Turtle: how the emitter quotes them and how section 6.4 reads them.

    The emitter escapes more than the grammar asks for, so that a literal stays on its line. */
module Turtle {
  import opened Common

  const HEX: string := "0123456789ABCDEF"

  function Hex4(n: nat): (r: string)
    requires n < 0x1_0000
    ensures |r| == 4
  {
    [HEX[n / 0x1000], HEX[n / 0x100 % 0x10], HEX[n / 0x10 % 0x10], HEX[n % 0x10]]
  }

  function EscapedChar(c: char): string {
    if c == '\\' then "\\\\"
    else if c == '"' then "\\\""
    else if c == '\n' then "\\n"
    else if c == '\r' then "\\r"
    else if c == '\t' then "\\t"
    else if c < ' ' || c == '\U{007F}' then "\\u" + Hex4(c as int)
    else [c]
  }

  function EscapedText(v: string): string {
    if v == "" then "" else EscapedChar(v[0]) + EscapedText(v[1..])
  }

  method TurtleString(value: string) returns (r: string)
    ensures r == Quoted(value)
  {
    var out := "";
    assert value[0..] == value;
    for i := 0 to |value|
      invariant out + EscapedText(value[i..]) == EscapedText(value)
    {
      assert value[i..][1..] == value[i + 1..];
      assert (out + EscapedChar(value[i])) + EscapedText(value[i + 1..]) == out + (EscapedChar(value[i]) + EscapedText(value[i + 1..]));
      out := out + EscapedChar(value[i]);
    }
    return "\"" + out + "\"";
  }

  function Quoted(value: string): string {
    "\"" + EscapedText(value) + "\""
  }

  /** A written literal holds no control character, so that it stays on its line. */
  lemma {:induction false} QuotedIsPlain(value: string)
    ensures forall c :: c in Quoted(value) ==> c >= ' ' && c != '\U{007F}'
  {
    if value != "" {
      QuotedIsPlain(value[1..]);
      EscapedIsPlain(value[0]);
      assert EscapedText(value) == EscapedChar(value[0]) + EscapedText(value[1..]);
      assert forall c :: c in EscapedText(value[1..]) ==> c in Quoted(value[1..]);
    }
  }

  lemma EscapedIsPlain(c: char)
    ensures forall x :: x in EscapedChar(c) ==> x >= ' ' && x != '\U{007F}'
  {
    hide Hex4;
    if c < ' ' || c == '\U{007F}' {
      Hex4IsPlain(c as int);
      var digits, r := Hex4(c as int), EscapedChar(c);
      forall x | x in r ensures x >= ' ' && x != '\U{007F}' {
        assert r == "\\u" + digits ==> x in "\\u" || x in digits;
      }
    }
  }

  lemma Hex4IsPlain(n: nat)
    requires n < 0x1_0000
    ensures forall x :: x in Hex4(n) ==> '0' <= x <= 'F'
  {
    HexDigitIsPlain(n / 0x1000);
    HexDigitIsPlain(n / 0x100 % 0x10);
    HexDigitIsPlain(n / 0x10 % 0x10);
    HexDigitIsPlain(n % 0x10);
  }

  lemma HexDigitIsPlain(d: nat)
    requires d < 16
    ensures d < |HEX| && '0' <= HEX[d] <= 'F'
  {}

  // ---------------------------------------------------------------- reading

  function HexValue(c: char): Option<nat> {
    if '0' <= c <= '9' then Some(c as int - '0' as int)
    else if 'A' <= c <= 'F' then Some(c as int - 'A' as int + 10)
    else if 'a' <= c <= 'f' then Some(c as int - 'a' as int + 10)
    else None
  }

  function HexNumber(s: string): Option<nat> {
    if s == "" then Some(0)
    else
      match (HexNumber(s[..|s| - 1]), HexValue(s[|s| - 1]))
      case (Some(n), Some(d)) => Some(0x10 * n + d)
      case _ => None
  }

  /** The character a backslash escape stands for, and how many characters it takes after the backslash. */
  function Escape(t: string): (r: Option<(char, nat)>)
    ensures r.Some? ==> 0 < r.value.1 <= |t|
  {
    if t == "" then None
    else
      var c := t[0];
      if c == 't' then Some(('\t', 1))
      else if c == 'b' then Some(('\U{0008}', 1))
      else if c == 'n' then Some(('\n', 1))
      else if c == 'r' then Some(('\r', 1))
      else if c == 'f' then Some(('\U{000C}', 1))
      else if c == '"' || c == '\'' || c == '\\' then Some((c, 1))
      else if c == 'u' && |t| >= 5 then CodePoint(t[1..5], 5)
      else if c == 'U' && |t| >= 9 then CodePoint(t[1..9], 9)
      else None
  }

  function CodePoint(digits: string, n: nat): (r: Option<(char, nat)>)
    ensures r.Some? ==> r.value.1 == n
  {
    match HexNumber(digits)
    case None => None
    case Some(v) => if v < 0xD800 || 0xE000 <= v < 0x11_0000 then Some((v as char, n)) else None
  }

  /** The rest of a quoted literal: its value and what follows the closing quote. */
  function ReadBody(t: string): Option<(string, string)>
    decreases |t|
  {
    if t == "" || t[0] == '\n' || t[0] == '\r' then None
    else if t[0] == '"' then Some(("", t[1..]))
    else if t[0] == '\\' then
      match Escape(t[1..])
      case None => None
      case Some((c, n)) => Prepend(c, ReadBody(t[1 + n..]))
    else Prepend(t[0], ReadBody(t[1..]))
  }

  function Prepend(c: char, r: Option<(string, string)>): Option<(string, string)> {
    match r
    case None => None
    case Some((v, rest)) => Some(([c] + v, rest))
  }

  function ReadLiteral(t: string): Option<(string, string)> {
    if t != "" && t[0] == '"' then ReadBody(t[1..]) else None
  }

  lemma HexDigitReads(n: nat)
    requires n < 0x10
    ensures HexValue(HEX[n]) == Some(n)
  {}

  lemma HexDigitAdds(s: string, d: nat)
    requires d < 0x10
    ensures HexNumber(s + [HEX[d]]) == match HexNumber(s) case None => None case Some(n) => Some(0x10 * n + d)
  {
    hide HexValue;
    HexDigitReads(d);
    assert (s + [HEX[d]])[..|s|] == s;
  }

  lemma Hex4Reads(n: nat)
    requires n < 0x1_0000
    ensures HexNumber(Hex4(n)) == Some(n)
  {
    hide HexNumber;
    HexSplits(n);
    var a, b, c, d := n / 0x1000, n / 0x100 % 0x10, n / 0x10 % 0x10, n % 0x10;
    var one := [HEX[a]];
    var two := one + [HEX[b]];
    var three := two + [HEX[c]];
    NoHex();
    HexDigitAdds("", a);
    assert "" + [HEX[a]] == one;
    HexDigitAdds(one, b);
    HexDigitAdds(two, c);
    HexDigitAdds(three, d);
    assert Hex4(n) == three + [HEX[d]];
  }

  lemma HexSplits(n: nat)
    requires n < 0x1_0000
    ensures n / 0x1000 < 0x10
    ensures 0x10 * (0x10 * (0x10 * (n / 0x1000) + n / 0x100 % 0x10) + n / 0x10 % 0x10) + n % 0x10 == n
  {
    assert n / 0x10 / 0x10 == n / 0x100 && n / 0x100 / 0x10 == n / 0x1000;
  }

  lemma NoHex()
    ensures HexNumber("") == Some(0)
  {}

  lemma CodeReads(c: char, rest: string)
    requires c as int < 0xD800 && HexNumber(Hex4(c as int)) == Some(c as int)
    ensures Escape("u" + Hex4(c as int) + rest) == Some((c, 5))
  {
    hide Hex4, HexNumber;
    var t := "u" + Hex4(c as int) + rest;
    assert t[1..5] == Hex4(c as int);
  }

  /** One written character is read as that character. */
  lemma CharReads(c: char, rest: string)
    ensures ReadBody(EscapedChar(c) + rest) == Prepend(c, ReadBody(rest))
  {
    hide Hex4, HexNumber, ReadBody;
    var e := EscapedChar(c);
    var t := e + rest;
    if |e| == 1 {
      assert t[1..] == rest;
      ReadsPlain(t);
    } else if |e| == 2 {
      assert t[1..] == [e[1]] + rest && t[1 + 1..] == rest;
      ReadsEscape(t, c, 1);
    } else {
      Hex4Reads(c as int);
      CodeReads(c, rest);
      var code := "u" + Hex4(c as int);
      assert e == "\\" + code && t == "\\" + (code + rest);
      assert t[1..] == code + rest && t[1 + 5..] == rest;
      ReadsEscape(t, c, 5);
    }
  }

  lemma ReadsPlain(t: string)
    requires t != "" && t[0] != '\\' && t[0] != '"' && t[0] != '\n' && t[0] != '\r'
    ensures ReadBody(t) == Prepend(t[0], ReadBody(t[1..]))
  {}

  lemma ReadsEscape(t: string, c: char, n: nat)
    requires t != "" && t[0] == '\\' && Escape(t[1..]) == Some((c, n))
    ensures 1 + n <= |t| && ReadBody(t) == Prepend(c, ReadBody(t[1 + n..]))
  {
    hide Escape;
  }

  /** The quoted text of any string is one literal, which reads back as the string. */
  lemma {:induction false} LiteralRoundTrip(v: string, rest: string)
    ensures ReadLiteral(Quoted(v) + rest) == Some((v, rest))
  {
    hide ReadBody, EscapedText;
    BodyReads(v, rest);
    var t := Quoted(v) + rest;
    assert t[1..] == EscapedText(v) + ("\"" + rest);
  }

  lemma {:induction false} BodyReads(v: string, rest: string)
    ensures ReadBody(EscapedText(v) + ("\"" + rest)) == Some((v, rest))
  {
    hide ReadBody, EscapedChar;
    if v == "" {
      CloseReads(rest);
      assert EscapedText(v) + ("\"" + rest) == "\"" + rest;
    } else {
      var e, t := EscapedChar(v[0]), EscapedText(v[1..]);
      BodyReads(v[1..], rest);
      CharReads(v[0], t + ("\"" + rest));
      assert (e + t) + ("\"" + rest) == e + (t + ("\"" + rest));
      assert [v[0]] + v[1..] == v;
    }
  }

  lemma CloseReads(rest: string)
    ensures ReadBody("\"" + rest) == Some(("", rest))
  {
    assert ("\"" + rest)[1..] == rest;
  }
}
