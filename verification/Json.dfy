/**
 The evidence domain: JSON values without floats, nested at most 16 deep, their
 canonical text, and the duplicate-rejecting decoder (grammar of RFC 8259,
 sections 2 to 7).
 */
module Json {
  import opened Orders
  import opened Wrappers
  import Utf8

  datatype Json =
    | Null
    | Bool(b: bool)
    | Int(i: int)
    | Float
    | Str(s: string)
    | Arr(elems: seq<Json>)
    | Obj(fields: map<string, Json>)

  const MAX_BYTES := 65536
  const MAX_DEPTH := 16

  /** The source's recursive check: no float, and at most MAX_DEPTH levels below the top. */
  predicate JsonValue(v: Json, depth: nat)
    decreases v
  {
    && depth <= MAX_DEPTH
    && match v
       case Float => false
       case Arr(es) => forall e | e in es :: JsonValue(e, depth + 1)
       case Obj(m) => forall k | k in m :: JsonValue(m[k], depth + 1)
       case _ => true
  }

  // ---------------------------------------------------------------- printing

  function Digit(d: nat): char
    requires d < 16
  {
    "0123456789abcdef"[d]
  }

  function PrintNat(n: nat): (r: string)
    ensures |r| > 0
    ensures n > 0 ==> r[0] != '0'
    ensures forall c | c in r :: IsDigit(c)
    ensures n == 0 ==> r == "0"
  {
    if n < 10 then [Digit(n)] else PrintNat(n / 10) + [Digit(n % 10)]
  }

  function PrintInt(i: int): (r: string)
    ensures |r| > 0 && (r[0] == '-' || IsDigit(r[0]))
  {
    if i < 0 then "-" + PrintNat(-i) else PrintNat(i)
  }

  function Hex4(n: nat): string
    requires n < 0x10000
  {
    [Digit(n / 4096), Digit(n / 256 % 16), Digit(n / 16 % 16), Digit(n % 16)]
  }

  function EscapeChar(c: char): string {
    if c == '"' then "\\\""
    else if c == '\\' then "\\\\"
    else if c as int == 0x08 then "\\b"
    else if c as int == 0x0C then "\\f"
    else if c == '\n' then "\\n"
    else if c == '\r' then "\\r"
    else if c == '\t' then "\\t"
    else if c as int < 0x20 then "\\u" + Hex4(c as int)
    else [c]
  }

  function Escape(s: string): string {
    if |s| == 0 then "" else EscapeChar(s[0]) + Escape(s[1..])
  }

  function Quote(s: string): string { "\"" + Escape(s) + "\"" }

  /**
   `json.dumps` with sorted keys, no spaces and non-ASCII characters kept. A
   float never gets here in the source; its text below only makes the function
   total, and no theorem speaks of it.
   */
  function Print(v: Json): (r: string)
    ensures |r| > 0 && !IsSpace(r[0]) && r[0] != ']'
    decreases v, 0
  {
    match v
    case Null => "null"
    case Bool(b) => if b then "true" else "false"
    case Int(i) => PrintInt(i)
    case Float => "0.0"
    case Str(s) => Quote(s)
    case Arr(es) => "[" + PrintElems(es) + "]"
    case Obj(m) => "{" + PrintFields(v, SortedTexts(m.Keys)) + "}"
  }

  function PrintElems(es: seq<Json>): string
    decreases es, 1
  {
    if |es| == 0 then ""
    else if |es| == 1 then Print(es[0])
    else Print(es[0]) + "," + PrintElems(es[1..])
  }

  function PrintFields(v: Json, ks: seq<string>): string
    requires v.Obj? && forall k | k in ks :: k in v.fields
    decreases v, 0, |ks|
  {
    if |ks| == 0 then ""
    else if |ks| == 1 then PrintField(v, ks[0])
    else PrintField(v, ks[0]) + "," + PrintFields(v, ks[1..])
  }

  function PrintField(v: Json, k: string): string
    requires v.Obj? && k in v.fields
    decreases v, 0, 0
  {
    Quote(k) + ":" + Print(v.fields[k])
  }

  function Canonical(v: Json): Option<Utf8.Bytes> {
    if JsonValue(v, 0) then Some(Utf8.Encode(Print(v))) else None
  }

  // ----------------------------------------------------------------- parsing

  datatype Parsed<+T> = Ok(value: T, rest: string) | Fail

  predicate IsSpace(c: char) { c == ' ' || c == '\t' || c == '\n' || c == '\r' }
  predicate IsDigit(c: char) { '0' <= c <= '9' }

  function SkipSpace(s: string): (r: string)
    ensures |r| <= |s|
  {
    if |s| > 0 && IsSpace(s[0]) then SkipSpace(s[1..]) else s
  }

  function LeadingDigits(s: string): (n: nat)
    ensures n <= |s| && forall i | 0 <= i < n :: IsDigit(s[i])
  {
    if |s| > 0 && IsDigit(s[0]) then 1 + LeadingDigits(s[1..]) else 0
  }

  function DigitValue(c: char): (d: nat)
    requires IsDigit(c)
    ensures d < 10
  {
    c as int - '0' as int
  }

  function DigitsValue(s: string): nat
    requires forall c | c in s :: IsDigit(c)
  {
    if |s| == 0 then 0
    else
      assert s[|s| - 1] in s;
      DigitsValue(s[..|s| - 1]) * 10 + DigitValue(s[|s| - 1])
  }

  function HexValue(c: char): Option<nat> {
    if '0' <= c <= '9' then Some(c as int - '0' as int)
    else if 'a' <= c <= 'f' then Some(c as int - 'a' as int + 10)
    else if 'A' <= c <= 'F' then Some(c as int - 'A' as int + 10)
    else None
  }

  /** The four hexadecimal digits after a `\u`. */
  function ParseHex4(s: string): (r: Option<nat>)
    ensures r.Some? ==> |s| >= 4 && r.value < 0x10000
  {
    if |s| < 4 then None
    else match (HexValue(s[0]), HexValue(s[1]), HexValue(s[2]), HexValue(s[3]))
      case (Some(a), Some(b), Some(c), Some(d)) =>
        if a < 16 && b < 16 && c < 16 && d < 16 then Some(a * 4096 + b * 256 + c * 16 + d) else None
      case _ => None
  }

  function SimpleEscape(c: char): Option<char> {
    if c == '"' || c == '\\' || c == '/' then Some(c)
    else if c == 'b' then Some(8 as char)
    else if c == 'f' then Some(12 as char)
    else if c == 'n' then Some('\n')
    else if c == 'r' then Some('\r')
    else if c == 't' then Some('\t')
    else None
  }

  /**
   One escape sequence, after its backslash. A lone surrogate has no place in a
   Dafny string; the source decodes it but then cannot encode it as UTF-8, so
   both reject the text.
   */
  function ParseEscape(s: string): (r: Parsed<char>)
    ensures r.Ok? ==> |r.rest| < |s|
  {
    if |s| == 0 then Fail
    else if s[0] != 'u' then
      match SimpleEscape(s[0])
      case Some(c) => Ok(c, s[1..])
      case None => Fail
    else match ParseHex4(s[1..])
      case None => Fail
      case Some(n) =>
        if 0xD800 <= n < 0xDC00 then
          var t := s[5..];
          if "\\u" <= t then
            match ParseHex4(t[2..])
            case Some(m) =>
              if 0xDC00 <= m < 0xE000
              then Ok((0x10000 + (n - 0xD800) * 1024 + (m - 0xDC00)) as char, t[6..])
              else Fail
            case None => Fail
          else Fail
        else if 0xDC00 <= n < 0xE000 then Fail
        else Ok(n as char, s[5..])
  }

  /** The body of a string and its closing quote. */
  function ParseString(s: string): (r: Parsed<string>)
    ensures r.Ok? ==> |r.rest| < |s|
    decreases |s|
  {
    if |s| == 0 then Fail
    else if s[0] == '"' then Ok("", s[1..])
    else if s[0] == '\\' then
      match ParseEscape(s[1..])
      case Fail => Fail
      case Ok(c, rest) => Prepend(c, ParseString(rest))
    else if s[0] as int < 0x20 then Fail
    else Prepend(s[0], ParseString(s[1..]))
  }

  function Prepend(c: char, p: Parsed<string>): Parsed<string> {
    match p
    case Fail => Fail
    case Ok(s, rest) => Ok([c] + s, rest)
  }

  /** Length of a fraction part: a point and at least one digit. */
  function PointTail(s: string): (n: nat)
    ensures n <= |s|
  {
    if |s| > 0 && s[0] == '.' && LeadingDigits(s[1..]) > 0 then 1 + LeadingDigits(s[1..]) else 0
  }

  /** Length of an exponent part: its letter, perhaps a sign, and at least one digit. */
  function ExponentTail(s: string): (n: nat)
    ensures n <= |s|
  {
    var sign := if |s| > 1 && (s[1] == '+' || s[1] == '-') then 2 else 1;
    if |s| > sign && (s[0] == 'e' || s[0] == 'E') && LeadingDigits(s[sign..]) > 0
    then sign + LeadingDigits(s[sign..]) else 0
  }

  /** Length of what makes a number a float; 0 for an integer. */
  function FloatTail(s: string): (n: nat)
    ensures n <= |s|
  {
    PointTail(s) + ExponentTail(s[PointTail(s)..])
  }

  function Signed(neg: bool, n: int): int { if neg then -n else n }

  /** Length of an integer part: a single zero, or the digits up to the first other character. */
  function IntegerLength(s: string): (n: nat)
    ensures n <= |s| && forall i | 0 <= i < n :: IsDigit(s[i])
  {
    if |s| > 0 && s[0] == '0' then 1 else LeadingDigits(s)
  }

  function AfterInteger(neg: bool, d: string, more: string): (r: Parsed<Json>)
    requires forall c | c in d :: IsDigit(c)
    ensures r.Ok? && |r.rest| <= |more|
  {
    var tail := FloatTail(more);
    Ok(if tail > 0 then Float else Int(Signed(neg, DigitsValue(d))), more[tail..])
  }

  function ParseUnsigned(neg: bool, s: string): (r: Parsed<Json>)
    ensures r.Ok? ==> |r.rest| < |s|
  {
    var len := IntegerLength(s);
    if len == 0 then Fail else AfterInteger(neg, s[..len], s[len..])
  }

  function ParseNumber(s: string): (r: Parsed<Json>)
    ensures r.Ok? ==> |r.rest| < |s|
  {
    if |s| > 0 && s[0] == '-' then ParseUnsigned(true, s[1..]) else ParseUnsigned(false, s)
  }

  function ParseWord(s: string, word: string, v: Json): Parsed<Json> {
    if word <= s then Ok(v, s[|word|..]) else Fail
  }

  /**
   Numbers and literals, by first character. Python's decoder also knows three
   literals that the grammar lacks; all three are floats.
   */
  function ParseScalar(s: string): (r: Parsed<Json>)
    requires |s| > 0
    ensures r.Ok? ==> |r.rest| < |s|
  {
    if s[0] == 'n' then ParseWord(s, "null", Null)
    else if s[0] == 't' then ParseWord(s, "true", Bool(true))
    else if s[0] == 'f' then ParseWord(s, "false", Bool(false))
    else if s[0] == 'N' then ParseWord(s, "NaN", Float)
    else if s[0] == 'I' then ParseWord(s, "Infinity", Float)
    else if s[0] == '-' && |s| > 1 && s[1] == 'I' then ParseWord(s, "-Infinity", Float)
    else ParseNumber(s)
  }

  function ParseValue(s: string): (r: Parsed<Json>)
    ensures r.Ok? ==> |r.rest| < |s|
    decreases |s|, 0
  {
    if |s| == 0 then Fail
    else if s[0] == '"' then
      match ParseString(s[1..])
      case Fail => Fail
      case Ok(t, rest) => Ok(Str(t), rest)
    else if s[0] == '[' then ParseArray(SkipSpace(s[1..]))
    else if s[0] == '{' then ParseMembers(SkipSpace(s[1..]))
    else ParseScalar(s)
  }

  /** What follows an opening bracket, spaces skipped. */
  function ParseArray(s: string): (r: Parsed<Json>)
    ensures r.Ok? ==> |r.rest| < |s|
    decreases |s|, 3
  {
    if |s| > 0 && s[0] == ']' then Ok(Arr([]), s[1..])
    else match ParseElems(s)
      case Fail => Fail
      case Ok(es, rest) => Ok(Arr(es), rest)
  }

  /** What follows an opening brace, spaces skipped. */
  function ParseMembers(s: string): (r: Parsed<Json>)
    ensures r.Ok? ==> |r.rest| < |s|
    decreases |s|, 3
  {
    if |s| > 0 && s[0] == '}' then Ok(Obj(map[]), s[1..])
    else match ParsePairs(s)
      case Fail => Fail
      case Ok(ps, rest) =>
        match UniqueObject(ps)
        case None => Fail
        case Some(m) => Ok(Obj(m), rest)
  }

  /** One or more elements up to and including the closing bracket. */
  function ParseElems(s: string): (r: Parsed<seq<Json>>)
    ensures r.Ok? ==> |r.rest| < |s|
    decreases |s|, 1
  {
    match ParseValue(s)
    case Fail => Fail
    case Ok(v, rest) =>
      var t := SkipSpace(rest);
      if |t| == 0 then Fail
      else if t[0] == ']' then Ok([v], t[1..])
      else if t[0] == ',' then
        match ParseElems(SkipSpace(t[1..]))
        case Fail => Fail
        case Ok(vs, rest') => Ok([v] + vs, rest')
      else Fail
  }

  function ParsePair(s: string): (r: Parsed<(string, Json)>)
    ensures r.Ok? ==> |r.rest| < |s|
    decreases |s|, 1
  {
    if |s| == 0 || s[0] != '"' then Fail
    else match ParseString(s[1..])
      case Fail => Fail
      case Ok(k, rest) =>
        var t := SkipSpace(rest);
        if |t| == 0 || t[0] != ':' then Fail
        else match ParseValue(SkipSpace(t[1..]))
          case Fail => Fail
          case Ok(v, rest') => Ok((k, v), rest')
  }

  function ParsePairs(s: string): (r: Parsed<seq<(string, Json)>>)
    ensures r.Ok? ==> |r.rest| < |s|
    decreases |s|, 2
  {
    match ParsePair(s)
    case Fail => Fail
    case Ok(p, rest) =>
      var t := SkipSpace(rest);
      if |t| == 0 then Fail
      else if t[0] == '}' then Ok([p], t[1..])
      else if t[0] == ',' then
        match ParsePairs(SkipSpace(t[1..]))
        case Fail => Fail
        case Ok(ps, rest') => Ok([p] + ps, rest')
      else Fail
  }

  function UniqueObject(pairs: seq<(string, Json)>): Option<map<string, Json>> {
    if |pairs| == 0 then Some(map[])
    else
      var (k, v) := pairs[|pairs| - 1];
      match UniqueObject(pairs[..|pairs| - 1])
      case None => None
      case Some(m) => if k in m then None else Some(m[k := v])
  }

  function ParseText(s: string): Option<Json> {
    match ParseValue(SkipSpace(s))
    case Fail => None
    case Ok(v, rest) => if SkipSpace(rest) == "" then Some(v) else None
  }

  function Decode(raw: Utf8.Bytes): (r: Option<Json>)
    ensures r.Some? ==> JsonValue(r.value, 0)
  {
    if |raw| > MAX_BYTES then None
    else match Utf8.Decode(raw)
      case Malformed => None
      case Text(s) =>
        match ParseText(s)
        case None => None
        case Some(v) => if Canonical(v).Some? then Some(v) else None
  }
}
