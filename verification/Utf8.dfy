/** Strict UTF-8 (RFC 3629), the text encoding of evidence and of signed payloads. */
module Utf8 {
  type Byte = b: int | 0 <= b < 256
  type Bytes = seq<Byte>

  datatype Decoded = Text(s: string) | Malformed

  function EncodeChar(c: char): (r: Bytes)
    ensures 1 <= |r| <= 4
  {
    var n := c as int;
    if n < 0x80 then [n]
    else if n < 0x800 then [0xC0 + n / 64, 0x80 + n % 64]
    else if n < 0x10000 then [0xE0 + n / 4096, 0x80 + n / 64 % 64, 0x80 + n % 64]
    else [0xF0 + n / 262144, 0x80 + n / 4096 % 64, 0x80 + n / 64 % 64, 0x80 + n % 64]
  }

  function Encode(s: string): Bytes {
    if |s| == 0 then [] else EncodeChar(s[0]) + Encode(s[1..])
  }

  predicate Cont(b: Byte) { 0x80 <= b < 0xC0 }

  function Two(a: int, b: int): int { (a - 0xC0) * 64 + (b - 0x80) }
  function Three(a: int, b: int, c: int): int { (a - 0xE0) * 4096 + (b - 0x80) * 64 + (c - 0x80) }
  function Four(a: int, b: int, c: int, d: int): int {
    (a - 0xF0) * 262144 + (b - 0x80) * 4096 + (c - 0x80) * 64 + (d - 0x80)
  }

  /** The code point and byte count of the first character, or (0, 0) if there is none. */
  function Head(b: Bytes): (r: (nat, nat))
    ensures r.1 <= |b|
    ensures r.1 > 0 ==> r.0 <= 0x10FFFF && !(0xD800 <= r.0 < 0xE000)
  {
    if |b| == 0 then (0, 0)
    else if b[0] < 0x80 then (b[0], 1)
    else if 0xC2 <= b[0] < 0xE0 && |b| >= 2 && Cont(b[1]) then
      (Two(b[0], b[1]), 2)
    else if 0xE0 <= b[0] < 0xF0 && |b| >= 3 && Cont(b[1]) && Cont(b[2]) then
      var n := Three(b[0], b[1], b[2]);
      if n < 0x800 || 0xD800 <= n < 0xE000 then (0, 0) else (n, 3)
    else if 0xF0 <= b[0] < 0xF5 && |b| >= 4 && Cont(b[1]) && Cont(b[2]) && Cont(b[3]) then
      var n := Four(b[0], b[1], b[2], b[3]);
      if n < 0x10000 || n > 0x10FFFF then (0, 0) else (n, 4)
    else (0, 0)
  }

  function Decode(b: Bytes): Decoded {
    if |b| == 0 then Text("")
    else
      var (n, len) := Head(b);
      if len == 0 then Malformed
      else match Decode(b[len..])
        case Malformed => Malformed
        case Text(s) => Text([n as char] + s)
  }

  lemma SplitTwo(n: nat)
    requires 0x80 <= n < 0x800
    ensures 0xC2 <= 0xC0 + n / 64 < 0xE0 && 0 <= n % 64 < 64
    ensures Two(0xC0 + n / 64, 0x80 + n % 64) == n
  {}

  lemma SplitThree(n: nat)
    requires 0x800 <= n < 0x10000
    ensures 0xE0 <= 0xE0 + n / 4096 < 0xF0 && 0 <= n / 64 % 64 < 64 && 0 <= n % 64 < 64
    ensures Three(0xE0 + n / 4096, 0x80 + n / 64 % 64, 0x80 + n % 64) == n
  {}

  lemma SplitFour(n: nat)
    requires 0x10000 <= n <= 0x10FFFF
    ensures 0xF0 <= 0xF0 + n / 262144 < 0xF5
    ensures 0 <= n / 4096 % 64 < 64 && 0 <= n / 64 % 64 < 64 && 0 <= n % 64 < 64
    ensures Four(0xF0 + n / 262144, 0x80 + n / 4096 % 64, 0x80 + n / 64 % 64, 0x80 + n % 64) == n
  {
    assert n / 4096 == n / 262144 * 64 + n / 4096 % 64;
    assert n / 64 == n / 4096 * 64 + n / 64 % 64;
  }

  lemma HeadOfEncoded(c: char, rest: Bytes)
    ensures Head(EncodeChar(c) + rest) == (c as int, |EncodeChar(c)|)
  {
    var n := c as int;
    var e := EncodeChar(c);
    if n < 0x80 {
      assert e == [n];
    } else if n < 0x800 {
      SplitTwo(n);
    } else if n < 0x10000 {
      SplitThree(n);
    } else {
      SplitFour(n);
    }
    HeadPrefix(e, rest);
  }

  /** The head of a text that starts with a whole character ignores what follows. */
  lemma HeadPrefix(e: Bytes, rest: Bytes)
    requires |e| > 0 && Head(e).1 == |e|
    ensures Head(e + rest) == Head(e)
  {}

  /** RFC 3629: the bytes of a code point by its size, read as digits in base 64 below the marks of lead and tail. */
  ghost predicate Spells(n: int, e: Bytes) {
    if n < 0x80 then |e| == 1 && e[0] == n
    else if n < 0x800 then
      |e| == 2 && 0xC2 <= e[0] < 0xE0 && Cont(e[1]) && n == (e[0] as int - 0xC0) * 64 + Low(e[1])
    else if n < 0x10000 then
      && |e| == 3 && 0xE0 <= e[0] < 0xF0 && Cont(e[1]) && Cont(e[2])
      && n == ((e[0] as int - 0xE0) * 64 + Low(e[1])) * 64 + Low(e[2])
    else
      && |e| == 4 && 0xF0 <= e[0] < 0xF5 && Cont(e[1]) && Cont(e[2]) && Cont(e[3])
      && n == (((e[0] as int - 0xF0) * 64 + Low(e[1])) * 64 + Low(e[2])) * 64 + Low(e[3])
  }

  function Low(b: int): int { b - 0x80 }

  /** Every character is written in the form that RFC 3629 gives its code point. */
  lemma EncodeShape(c: char)
    ensures Spells(c as int, EncodeChar(c))
  {
    var n := c as int;
    if 0x80 <= n < 0x800 {
      SplitTwo(n);
    } else if 0x800 <= n < 0x10000 {
      SplitThree(n);
    } else if 0x10000 <= n {
      SplitFour(n);
    }
  }

  lemma {:induction false} EncodeBound(s: string)
    ensures |Encode(s)| <= 4 * |s|
  {
    if |s| > 0 {
      EncodeBound(s[1..]);
    }
  }

  /** Decoding inverts encoding, so distinct texts have distinct encodings. */
  lemma {:induction false} DecodeEncode(s: string)
    ensures Decode(Encode(s)) == Text(s)
  {
    if |s| > 0 {
      var rest := Encode(s[1..]);
      HeadOfEncoded(s[0], rest);
      DecodeEncode(s[1..]);
      assert (EncodeChar(s[0]) + rest)[|EncodeChar(s[0])|..] == rest;
      assert s == [s[0]] + s[1..];
    }
  }

  lemma JoinTwo(a: int, b: int)
    requires 0xC2 <= a < 0xE0 && 0x80 <= b < 0xC0
    ensures var n := Two(a, b); 0x80 <= n < 0x800 && 0xC0 + n / 64 == a && 0x80 + n % 64 == b
  {}

  lemma JoinThree(a: int, b: int, c: int)
    requires 0xE0 <= a < 0xF0 && 0x80 <= b < 0xC0 && 0x80 <= c < 0xC0
    ensures var n := Three(a, b, c);
            n < 0x10000 && 0xE0 + n / 4096 == a && 0x80 + n / 64 % 64 == b && 0x80 + n % 64 == c
  {
    var n := Three(a, b, c);
    assert n / 64 == (a - 0xE0) * 64 + (b - 0x80);
  }

  lemma JoinFour(a: int, b: int, c: int, d: int)
    requires 0xF0 <= a < 0xF5 && 0x80 <= b < 0xC0 && 0x80 <= c < 0xC0 && 0x80 <= d < 0xC0
    ensures var n := Four(a, b, c, d);
            && 0xF0 + n / 262144 == a && 0x80 + n / 4096 % 64 == b
            && 0x80 + n / 64 % 64 == c && 0x80 + n % 64 == d
  {
    var n := Four(a, b, c, d);
    assert n / 64 == (a - 0xF0) * 4096 + (b - 0x80) * 64 + (c - 0x80);
    assert n / 4096 == (a - 0xF0) * 64 + (b - 0x80);
  }

  lemma EncodedHead(b: Bytes)
    requires Head(b).1 > 0
    ensures EncodeChar(Head(b).0 as char) == b[..Head(b).1]
  {
    if b[0] >= 0x80 {
      if b[0] < 0xE0 {
        JoinTwo(b[0], b[1]);
      } else if b[0] < 0xF0 {
        JoinThree(b[0], b[1], b[2]);
      } else {
        JoinFour(b[0], b[1], b[2], b[3]);
      }
    }
  }

  lemma DecodeStep(b: Bytes)
    requires |b| > 0 && Decode(b).Text?
    ensures var (n, len) := Head(b);
            len > 0 && Decode(b[len..]).Text? && Decode(b).s == [n as char] + Decode(b[len..]).s
  {}

  /** Only the canonical encoding of a text decodes to it: no overlong forms. */
  lemma {:induction false} EncodeDecode(b: Bytes)
    requires Decode(b).Text?
    ensures Encode(Decode(b).s) == b
  {
    hide EncodeChar, Head;
    if |b| > 0 {
      var len := Head(b).1;
      DecodeStep(b);
      EncodedHead(b);
      EncodeDecode(b[len..]);
      EncodeCons(Head(b).0 as char, Decode(b[len..]).s);
      assert b == b[..len] + b[len..];
    }
  }

  lemma EncodeCons(c: char, s: string)
    ensures Encode([c] + s) == EncodeChar(c) + Encode(s)
  {
    assert ([c] + s)[1..] == s;
  }
}
