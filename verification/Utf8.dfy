/** UTF-8 as `str.encode` writes it and a strict `bytes.decode` reads it.

    A sequence that is cut short, overlong or stands for no scalar value is refused. */
module Utf8 {
  import opened Common

  type Byte = b: int | 0 <= b < 256

  predicate Scalar(n: int) {
    0 <= n < 0xD800 || 0xE000 <= n < 0x11_0000
  }

  function EncodeChar(c: char): (r: seq<Byte>)
    ensures 1 <= |r| <= 4
  {
    var n := c as int;
    if n < 0x80 then [n]
    else if n < 0x800 then [0xC0 + n / 0x40, 0x80 + n % 0x40]
    else if n < 0x1_0000 then [0xE0 + n / 0x1000, 0x80 + n / 0x40 % 0x40, 0x80 + n % 0x40]
    else [0xF0 + n / 0x4_0000, 0x80 + n / 0x1000 % 0x40, 0x80 + n / 0x40 % 0x40, 0x80 + n % 0x40]
  }

  function Encode(s: string): (r: seq<Byte>)
    ensures |r| >= |s|
  {
    if s == "" then [] else EncodeChar(s[0]) + Encode(s[1..])
  }

  predicate Continuation(b: Byte) {
    0x80 <= b < 0xC0
  }

  /** The payload of a byte above its marker. */
  function Bits(b: Byte, marker: int): int {
    (b as int) - marker
  }

  /** The number a lead byte and its continuation bytes stand for, and how many bytes that is; None for a
      sequence that is cut short, overlong or out of range. */
  function DecodeOne(bs: seq<Byte>): (r: Option<(int, nat)>)
    requires bs != []
    ensures r.Some? ==> 0 < r.value.1 <= |bs| && Scalar(r.value.0)
  {
    var b := bs[0];
    if b < 0x80 then Some((b, 1))
    else if 0xC0 <= b < 0xE0 && |bs| >= 2 && Continuation(bs[1]) then
      var n := Bits(b, 0xC0) * 0x40 + Bits(bs[1], 0x80);
      if n < 0x80 then None else Some((n, 2))
    else if 0xE0 <= b < 0xF0 && |bs| >= 3 && Continuation(bs[1]) && Continuation(bs[2]) then
      var n := Bits(b, 0xE0) * 0x1000 + Bits(bs[1], 0x80) * 0x40 + Bits(bs[2], 0x80);
      if n < 0x800 || !Scalar(n) then None else Some((n, 3))
    else if 0xF0 <= b < 0xF8 && |bs| >= 4 && Continuation(bs[1]) && Continuation(bs[2]) && Continuation(bs[3]) then
      var n := Bits(b, 0xF0) * 0x4_0000 + Bits(bs[1], 0x80) * 0x1000 + Bits(bs[2], 0x80) * 0x40 + Bits(bs[3], 0x80);
      if n < 0x1_0000 || !Scalar(n) then None else Some((n, 4))
    else None
  }

  function Decode(bs: seq<Byte>): Option<string>
    decreases |bs|
  {
    if bs == [] then Some("")
    else
      match DecodeOne(bs)
      case None => None
      case Some((n, k)) =>
        match Decode(bs[k..])
        case None => None
        case Some(rest) => Some([n as char] + rest)
  }

  lemma TwoBytes(n: int, rest: seq<Byte>)
    requires 0x80 <= n < 0x800
    ensures DecodeOne([0xC0 + n / 0x40, 0x80 + n % 0x40] + rest) == Some((n, 2))
  {}

  lemma ThreeBytes(n: int, rest: seq<Byte>)
    requires 0x800 <= n < 0x1_0000 && Scalar(n)
    ensures DecodeOne([0xE0 + n / 0x1000, 0x80 + n / 0x40 % 0x40, 0x80 + n % 0x40] + rest) == Some((n, 3))
  {
    assert n / 0x40 / 0x40 == n / 0x1000;
  }

  lemma FourBytes(n: int, rest: seq<Byte>)
    requires 0x1_0000 <= n < 0x11_0000
    ensures DecodeOne([0xF0 + n / 0x4_0000, 0x80 + n / 0x1000 % 0x40, 0x80 + n / 0x40 % 0x40, 0x80 + n % 0x40] + rest)
         == Some((n, 4))
  {
    assert n / 0x40 / 0x40 == n / 0x1000 && n / 0x1000 / 0x40 == n / 0x4_0000;
  }

  lemma DecodeOneEncoded(c: char, rest: seq<Byte>)
    ensures DecodeOne(EncodeChar(c) + rest) == Some((c as int, |EncodeChar(c)|))
  {
    hide DecodeOne;
    var n := c as int;
    if n < 0x80 {
      OneByte(n, rest);
    } else if n < 0x800 {
      TwoBytes(n, rest);
    } else if n < 0x1_0000 {
      ThreeBytes(n, rest);
    } else {
      FourBytes(n, rest);
    }
  }

  lemma OneByte(n: int, rest: seq<Byte>)
    requires 0 <= n < 0x80
    ensures DecodeOne([n] + rest) == Some((n, 1))
  {}

  /** Decoding what was encoded gives the text back. */
  lemma {:induction false} DecodeEncoded(s: string)
    ensures Decode(Encode(s)) == Some(s)
  {
    hide DecodeOne, EncodeChar;
    if s != "" {
      var k, rest := |EncodeChar(s[0])|, Encode(s[1..]);
      DecodeOneEncoded(s[0], rest);
      DecodeEncoded(s[1..]);
      assert Encode(s) == EncodeChar(s[0]) + rest;
      assert Encode(s)[k..] == rest;
      assert [s[0]] + s[1..] == s;
    }
  }

  lemma TwoParts(x: int, y: int)
    requires 0 <= y < 0x40
    ensures (x * 0x40 + y) / 0x40 == x && (x * 0x40 + y) % 0x40 == y
  {}

  lemma EncodeTwo(b: Byte, c: Byte)
    requires 0xC0 <= b < 0xE0 && Continuation(c) && Bits(b, 0xC0) * 0x40 + Bits(c, 0x80) >= 0x80
    ensures EncodeChar((Bits(b, 0xC0) * 0x40 + Bits(c, 0x80)) as char) == [b, c]
  {
    TwoParts(Bits(b, 0xC0), Bits(c, 0x80));
  }

  lemma EncodeThree(b: Byte, c: Byte, e: Byte, n: int)
    requires 0xE0 <= b < 0xF0 && Continuation(c) && Continuation(e)
    requires n == Bits(b, 0xE0) * 0x1000 + Bits(c, 0x80) * 0x40 + Bits(e, 0x80) && n >= 0x800 && Scalar(n)
    ensures EncodeChar(n as char) == [b, c, e]
  {
    var high := Bits(b, 0xE0) * 0x40 + Bits(c, 0x80);
    TwoParts(Bits(b, 0xE0), Bits(c, 0x80));
    TwoParts(high, Bits(e, 0x80));
    assert n == high * 0x40 + Bits(e, 0x80);
    assert n / 0x1000 == n / 0x40 / 0x40;
  }

  lemma EncodeFour(b: Byte, c: Byte, e: Byte, f: Byte, n: int)
    requires 0xF0 <= b < 0xF8 && Continuation(c) && Continuation(e) && Continuation(f)
    requires n == Bits(b, 0xF0) * 0x4_0000 + Bits(c, 0x80) * 0x1000 + Bits(e, 0x80) * 0x40 + Bits(f, 0x80)
    requires n >= 0x1_0000 && Scalar(n)
    ensures EncodeChar(n as char) == [b, c, e, f]
  {
    var high := Bits(b, 0xF0) * 0x40 + Bits(c, 0x80);
    var middle := high * 0x40 + Bits(e, 0x80);
    TwoParts(Bits(b, 0xF0), Bits(c, 0x80));
    TwoParts(high, Bits(e, 0x80));
    TwoParts(middle, Bits(f, 0x80));
    assert n == middle * 0x40 + Bits(f, 0x80);
    assert n / 0x1000 == n / 0x40 / 0x40 && n / 0x4_0000 == n / 0x40 / 0x40 / 0x40;
  }

  lemma EncodeOneDecoded(bs: seq<Byte>)
    requires bs != [] && DecodeOne(bs).Some?
    ensures EncodeChar(DecodeOne(bs).value.0 as char) == bs[..DecodeOne(bs).value.1]
  {
    hide EncodeChar, Bits;
    var (n, k) := DecodeOne(bs).value;
    if k == 1 {
      EncodeOneByte(n);
    } else if k == 2 {
      EncodeTwo(bs[0], bs[1]);
      assert bs[..2] == [bs[0], bs[1]];
    } else if k == 3 {
      EncodeThree(bs[0], bs[1], bs[2], n);
      assert bs[..3] == [bs[0], bs[1], bs[2]];
    } else {
      EncodeFour(bs[0], bs[1], bs[2], bs[3], n);
      assert bs[..4] == [bs[0], bs[1], bs[2], bs[3]];
    }
  }

  lemma EncodeOneByte(n: int)
    requires 0 <= n < 0x80
    ensures EncodeChar(n as char) == [n]
  {}

  /** Only one byte sequence decodes to a text: its encoding. */
  lemma {:induction false} EncodeDecoded(bs: seq<Byte>)
    requires Decode(bs).Some?
    ensures Encode(Decode(bs).value) == bs
    decreases |bs|
  {
    hide DecodeOne, EncodeChar;
    if bs != [] {
      var (n, k) := DecodeOne(bs).value;
      EncodeOneDecoded(bs);
      EncodeDecoded(bs[k..]);
      var rest := Decode(bs[k..]).value;
      assert Decode(bs).value == [n as char] + rest && ([n as char] + rest)[1..] == rest;
      assert bs[..k] + bs[k..] == bs;
    }
  }
}
