/** The parser reads every text of the grammar as what it means, and reads nothing else. */
module JsonReading {
  import opened Json
  import opened JsonGrammar
  import opened JsonObjects
  import opened Wrappers

  /** What the parser owes for a meaning. */
  function Reads<T>(m: Option<T>, rest: string): Parsed<T> {
    match m
    case None => Fail
    case Some(v) => Ok(v, rest)
  }

  // -------------------------------------------------------------- concatenation

  lemma Assoc(a: string, b: string, c: string)
    ensures a + b + c == a + (b + c)
  {}

  lemma Cons(c: char, t: string)
    ensures ([c] + t)[0] == c && ([c] + t)[1..] == t
  {}

  lemma Cut(a: string, b: string)
    ensures |a + b| == |a| + |b| && (a + b)[|a|..] == b && (a + b)[..|a|] == a
    ensures |a| > 0 ==> (a + b)[0] == a[0] && (a + b)[1..] == a[1..] + b
  {}

  // --------------------------------------------------------------- white space

  lemma {:induction false} SkipWhite(w: string, s: string)
    requires White(w) && (|s| > 0 ==> !WhiteChar(s[0]))
    ensures SkipSpace(w + s) == s
  {
    if |w| == 0 {
      assert w + s == s;
    } else {
      assert WhiteChar(w[0]);
      Cut(w, s);
      SkipWhite(w[1..], s);
    }
  }

  lemma {:induction false} Skipped(s: string) returns (w: string)
    ensures White(w) && s == w + SkipSpace(s)
    ensures |SkipSpace(s)| > 0 ==> !WhiteChar(SkipSpace(s)[0])
  {
    if |s| > 0 && IsSpace(s[0]) {
      var v := Skipped(s[1..]);
      w := [s[0]] + v;
      Assoc([s[0]], v, SkipSpace(s));
      assert s == [s[0]] + s[1..];
    } else {
      w := "";
      assert "" + s == s;
    }
  }

  // -------------------------------------------------------------------- numbers

  /** What may follow a number without being read as part of it. */
  predicate EndsNumber(rest: string) {
    |rest| == 0 || !(IsDigit(rest[0]) || rest[0] == '.' || rest[0] == 'e' || rest[0] == 'E')
  }

  lemma {:induction false} LeadingDigitsOf(d: string, rest: string)
    requires Numeric(d) && (|rest| > 0 ==> !IsDigit(rest[0]))
    ensures LeadingDigits(d + rest) == |d|
  {
    if |d| == 0 {
      assert d + rest == rest;
    } else {
      Cut(d, rest);
      LeadingDigitsOf(d[1..], rest);
    }
  }

  lemma {:induction false} LeadingDigitsStop(s: string)
    ensures Numeric(s[..LeadingDigits(s)])
    ensures LeadingDigits(s) < |s| ==> !IsDigit(s[LeadingDigits(s)])
  {
    if |s| > 0 && IsDigit(s[0]) {
      LeadingDigitsStop(s[1..]);
      assert s[..LeadingDigits(s)] == [s[0]] + s[1..][..LeadingDigits(s[1..])];
    }
  }

  lemma {:induction false} NumeralIs(d: string)
    requires Numeric(d)
    ensures (forall c | c in d :: IsDigit(c)) && DigitsValue(d) == Numeral(d)
  {
    if |d| > 0 {
      NumeralIs(d[..|d| - 1]);
    }
  }

  lemma ReadPoint(p: string, rest: string)
    requires LegalPoint(p) && (|rest| > 0 ==> !IsDigit(rest[0]) && (p == "" ==> rest[0] != '.'))
    ensures PointTail(p + rest) == |p|
  {
    if p == "" {
      assert p + rest == rest;
    } else {
      Cut(p, rest);
      LeadingDigitsOf(p[1..], rest);
    }
  }

  lemma ReadExponent(e: string, rest: string)
    requires LegalExponent(e) && EndsNumber(rest)
    ensures ExponentTail(e + rest) == |e|
  {
    if e == "" {
      assert e + rest == rest;
    } else {
      var s := e + rest;
      Cut(e, rest);
      if e[1] == '+' || e[1] == '-' {
        assert s[2..] == e[2..] + rest;
        LeadingDigitsOf(e[2..], rest);
      } else {
        assert s[1] == e[1];
        LeadingDigitsOf(e[1..], rest);
      }
    }
  }

  lemma ReadTail(p: string, e: string, rest: string)
    requires LegalPoint(p) && LegalExponent(e) && EndsNumber(rest)
    ensures FloatTail(p + e + rest) == |p| + |e|
  {
    Assoc(p, e, rest);
    assert e == "" ==> e + rest == rest;
    assert e != "" ==> (e + rest)[0] == e[0];
    ReadPoint(p, e + rest);
    Cut(p, e + rest);
    ReadExponent(e, rest);
  }

  lemma AfterDigits(p: string, e: string, rest: string)
    requires LegalPoint(p) && LegalExponent(e) && EndsNumber(rest)
    ensures var more := p + e + rest; |more| > 0 ==> !IsDigit(more[0])
  {
    if p != "" {
      assert (p + e + rest)[0] == p[0];
    } else if e != "" {
      assert (p + e + rest)[0] == e[0];
    } else {
      assert p + e + rest == rest;
    }
  }

  lemma ReadInteger(d: string, more: string)
    requires LegalDigits(d) && (|more| > 0 ==> !IsDigit(more[0]))
    ensures IntegerLength(d + more) == |d|
  {
    Cut(d, more);
    LeadingDigitsOf(d, more);
  }

  function NumberMeaning(negative: bool, d: string, tail: string): Json
    requires Numeric(d)
  {
    if |tail| > 0 then Float else Int(if negative then 0 - Numeral(d) else Numeral(d))
  }

  lemma ReadAfter(negative: bool, d: string, p: string, e: string, rest: string)
    requires Numeric(d) && LegalPoint(p) && LegalExponent(e) && EndsNumber(rest)
    ensures forall c | c in d :: IsDigit(c)
    ensures AfterInteger(negative, d, p + e + rest) == Ok(NumberMeaning(negative, d, p + e), rest)
  {
    NumeralIs(d);
    ReadTail(p, e, rest);
    hide LegalPoint, LegalExponent, FloatTail, Numeral, DigitsValue, Numeric;
    Cut(p + e, rest);
  }

  lemma ReadUnsigned(negative: bool, d: string, p: string, e: string, rest: string)
    requires LegalDigits(d) && LegalPoint(p) && LegalExponent(e) && EndsNumber(rest)
    ensures ParseUnsigned(negative, d + (p + e + rest)) == Ok(NumberMeaning(negative, d, p + e), rest)
  {
    AfterDigits(p, e, rest);
    ReadInteger(d, p + e + rest);
    ReadAfter(negative, d, p, e, rest);
    hide LegalPoint, LegalExponent, IntegerLength, NumberMeaning, AfterInteger, EndsNumber;
    Cut(d, p + e + rest);
  }

  function Minus(negative: bool): string { if negative then "-" else "" }

  /** Both kinds of number at once: p and e are empty for an integer. */
  lemma ReadNumber(negative: bool, d: string, p: string, e: string, rest: string)
    requires LegalDigits(d) && LegalPoint(p) && LegalExponent(e) && EndsNumber(rest)
    ensures ParseNumber(Minus(negative) + (d + (p + e + rest))) == Ok(NumberMeaning(negative, d, p + e), rest)
  {
    var t := d + (p + e + rest);
    ReadUnsigned(negative, d, p, e, rest);
    FirstDigit(d, p + e + rest);
    hide LegalDigits, LegalPoint, LegalExponent, ParseUnsigned, ParseNumber, NumberMeaning, EndsNumber, Numeric;
    Signs(negative, t);
  }

  lemma FirstDigit(d: string, more: string)
    requires LegalDigits(d)
    ensures |d + more| > 0 && IsDigit((d + more)[0])
  {
    Cut(d, more);
  }

  lemma Signs(negative: bool, t: string)
    requires |t| > 0 && IsDigit(t[0])
    ensures ParseNumber(Minus(negative) + t) == ParseUnsigned(negative, t)
  {
    hide ParseUnsigned;
    if negative {
      Cut("-", t);
    } else {
      assert "" + t == t;
    }
  }

  lemma TailParts(more: string) returns (p: string, e: string, rest: string)
    ensures LegalPoint(p) && LegalExponent(e) && more == p + e + rest
    ensures FloatTail(more) == |p + e| && more[FloatTail(more)..] == rest
  {
    PointRead(more);
    var a := PointTail(more);
    var after := more[a..];
    ExponentRead(after);
    var b := ExponentTail(after);
    assert FloatTail(more) == a + b;
    hide PointTail, ExponentTail, LegalPoint, LegalExponent, FloatTail;
    p, e, rest := more[..a], after[..b], after[b..];
    ThreeParts(more, a, b);
  }

  lemma ThreeParts(s: string, a: nat, b: nat)
    requires a + b <= |s|
    ensures s == s[..a] + s[a..][..b] + s[a..][b..] && s[a + b..] == s[a..][b..]
  {}

  lemma NumberTree(negative: bool, d: string, p: string, e: string) returns (t: Tree)
    requires LegalDigits(d) && LegalPoint(p) && LegalExponent(e)
    ensures Legal(t) && Text(t) == Minus(negative) + (d + (p + e))
    ensures Meaning(t) == Some(NumberMeaning(negative, d, p + e))
  {
    hide LegalDigits, LegalPoint, LegalExponent, Numeral;
    assert p + e == "" <==> |p + e| == 0;
    Regroup(Minus(negative), d, p, e);
    if p + e == "" {
      t := Whole(negative, d);
      assert d + (p + e) == d;
    } else {
      t := Fraction(negative, d, p, e);
    }
  }

  lemma Regroup(a: string, b: string, c: string, d: string)
    ensures a + b + c + d == a + (b + (c + d)) && a + b + (c + d) == a + (b + (c + d))
  {}

  lemma IntegerRead(s: string)
    requires IntegerLength(s) > 0
    ensures LegalDigits(s[..IntegerLength(s)])
  {
    LeadingDigitsStop(s);
  }

  lemma UnsignedRead(negative: bool, s: string) returns (d: string, p: string, e: string)
    requires ParseUnsigned(negative, s).Ok?
    ensures LegalDigits(d) && LegalPoint(p) && LegalExponent(e)
    ensures s == d + (p + e + ParseUnsigned(negative, s).rest)
    ensures ParseUnsigned(negative, s).value == NumberMeaning(negative, d, p + e)
  {
    hide AfterInteger, ParseUnsigned, NumberMeaning, LegalPoint, LegalExponent;
    UnsignedSteps(negative, s);
    IntegerRead(s);
    var len := IntegerLength(s);
    hide IntegerLength;
    d := s[..len];
    p, e := AfterRead(negative, d, s[len..]);
    hide LegalDigits;
    Halves(s, len);
  }

  lemma Halves(s: string, n: nat)
    requires n <= |s|
    ensures s[..n] + s[n..] == s
  {}

  lemma UnsignedSteps(negative: bool, s: string)
    requires ParseUnsigned(negative, s).Ok?
    ensures IntegerLength(s) > 0
    ensures ParseUnsigned(negative, s) == AfterInteger(negative, s[..IntegerLength(s)], s[IntegerLength(s)..])
  {
    hide AfterInteger;
  }

  lemma AfterRead(negative: bool, d: string, more: string) returns (p: string, e: string)
    requires Numeric(d)
    ensures (forall c | c in d :: IsDigit(c)) && LegalPoint(p) && LegalExponent(e)
    ensures var r := AfterInteger(negative, d, more);
            more == p + e + r.rest && r.value == NumberMeaning(negative, d, p + e)
  {
    NumeralIs(d);
    var rest;
    p, e, rest := TailParts(more);
    hide LegalPoint, LegalExponent, FloatTail, DigitsValue, Numeral, Numeric;
  }

  /** A number that is read is written by the grammar. */
  lemma NumberRead(s: string) returns (t: Tree)
    requires ParseNumber(s).Ok?
    ensures Legal(t) && Meaning(t) == Some(ParseNumber(s).value) && s == Text(t) + ParseNumber(s).rest
  {
    hide ParseUnsigned, FloatTail, LegalDigits, LegalPoint, LegalExponent, Numeral, Text, Meaning, Legal, NumberMeaning;
    var negative := |s| > 0 && s[0] == '-';
    var u := if negative then s[1..] else s;
    var d, p, e := UnsignedRead(negative, u);
    var rest := ParseNumber(s).rest;
    t := NumberTree(negative, d, p, e);
    assert s == Minus(negative) + u;
    hide Minus, ParseNumber;
    Assoc(d, p + e, rest);
    Assoc(Minus(negative), d + (p + e), rest);
  }

  lemma PointRead(s: string)
    ensures LegalPoint(s[..PointTail(s)])
  {
    if PointTail(s) > 0 {
      LeadingDigitsStop(s[1..]);
      assert s[..PointTail(s)][1..] == s[1..][..LeadingDigits(s[1..])];
    }
  }

  lemma ExponentRead(s: string)
    ensures LegalExponent(s[..ExponentTail(s)])
  {
    if ExponentTail(s) > 0 {
      var e := s[..ExponentTail(s)];
      var sign := if |s| > 1 && (s[1] == '+' || s[1] == '-') then 2 else 1;
      LeadingDigitsStop(s[sign..]);
      assert e[sign..] == s[sign..][..LeadingDigits(s[sign..])];
    }
  }

  // -------------------------------------------------------------------- strings

  lemma HexValues(c: char)
    ensures HexValue(c).Some? <==> IsHex(c)
    ensures IsHex(c) ==> HexValue(c) == Some(HexDigit(c))
  {}

  /** Four characters are read as a number exactly when all are hexadecimal digits. */
  lemma ReadHex(s: string)
    ensures |s| >= 4 && FourHex(s[..4]) <==> ParseHex4(s).Some?
    ensures ParseHex4(s).Some? ==> ParseHex4(s) == Some(HexNumber(s[..4]))
  {
    if |s| >= 4 {
      HexValues(s[0]);
      HexValues(s[1]);
      HexValues(s[2]);
      HexValues(s[3]);
      hide HexValue, IsHex;
      HexSum(s);
    }
  }

  lemma HexSum(s: string)
    requires |s| >= 4
    requires forall i | 0 <= i < 4 ::
               && (HexValue(s[i]).Some? <==> IsHex(s[i]))
               && (IsHex(s[i]) ==> HexValue(s[i]) == Some(HexDigit(s[i])))
    ensures FourHex(s[..4]) <==> ParseHex4(s).Some?
    ensures ParseHex4(s).Some? ==> ParseHex4(s) == Some(HexNumber(s[..4]))
  {
    hide HexValue, IsHex, HexDigit;
    var h := s[..4];
    assert h[0] == s[0] && h[1] == s[1] && h[2] == s[2] && h[3] == s[3];
  }

  lemma ReadUnit(h: string, more: string)
    requires LegalPiece(Unit(h))
    ensures ParseEscape("u" + h + more) == Ok(PieceChar(Unit(h)), more)
  {
    hide ParseHex4, HexNumber, FourHex;
    var s := "u" + h + more;
    UnitCut(h, more);
    ReadHex(s[1..]);
  }

  lemma UnitCut(h: string, more: string)
    requires FourHex(h)
    ensures var s := "u" + h + more;
            |s| >= 5 && s[0] == 'u' && s[1..] == h + more && s[1..][..4] == h && s[5..] == more
  {}

  lemma ReadPair(h: string, l: string, more: string)
    requires LegalPiece(Pair(h, l))
    ensures ParseEscape("u" + h + ("\\u" + l + more)) == Ok(PieceChar(Pair(h, l)), more)
  {
    hide ParseHex4, HexNumber, FourHex;
    var t := "\\u" + l + more;
    UnitCut(h, t);
    ReadHex(h + t);
    LowCut(l, more);
    ReadHex(t[2..]);
  }

  lemma LowCut(l: string, more: string)
    requires FourHex(l)
    ensures var t := "\\u" + l + more;
            "\\u" <= t && |t| >= 6 && t[2..] == l + more && t[2..][..4] == l && t[6..] == more
  {}

  lemma ReadShort(l: char, more: string)
    requires LegalPiece(Short(l))
    ensures ParseEscape([l] + more) == Ok(PieceChar(Short(l)), more)
  {
    Cons(l, more);
  }

  lemma PlainStep(c: char, more: string, s: string, rest: string)
    requires LegalPiece(Plain(c)) && ParseString(more) == Ok(s, rest)
    ensures ParseString([c] + more) == Ok([c] + s, rest)
  {
    Cons(c, more);
  }

  lemma EscapeStep(e: string, c: char, more: string, s: string, rest: string)
    requires ParseEscape(e) == Ok(c, more) && ParseString(more) == Ok(s, rest)
    ensures ParseString(['\\'] + e) == Ok([c] + s, rest)
  {
    hide ParseEscape;
    Cons('\\', e);
  }

  lemma PieceCut(p: Piece, more: string)
    requires LegalPiece(p)
    ensures PieceText(p) + more == match p
                                   case Plain(c) => [c] + more
                                   case Short(l) => ['\\'] + ([l] + more)
                                   case Unit(h) => ['\\'] + ("u" + h + more)
                                   case Pair(h, l) => ['\\'] + ("u" + h + ("\\u" + l + more))
  {
    hide LegalPiece;
  }

  lemma ReadPiece(p: Piece, more: string, s: string, rest: string)
    requires LegalPiece(p) && ParseString(more) == Ok(s, rest)
    ensures ParseString(PieceText(p) + more) == Ok([PieceChar(p)] + s, rest)
  {
    PieceCut(p, more);
    hide ParseString, ParseEscape, FourHex, HexNumber, PieceText;
    match p
    case Plain(c) => PlainStep(c, more, s, rest);
    case Short(l) =>
      ReadShort(l, more);
      EscapeStep([l] + more, PieceChar(p), more, s, rest);
    case Unit(h) =>
      ReadUnit(h, more);
      EscapeStep("u" + h + more, PieceChar(p), more, s, rest);
    case Pair(h, l) =>
      ReadPair(h, l, more);
      EscapeStep("u" + h + ("\\u" + l + more), PieceChar(p), more, s, rest);
  }

  /** The body of a string and its closing quote, however its characters are written. */
  lemma {:induction false} ReadPieces(ps: seq<Piece>, rest: string)
    requires LegalPieces(ps)
    ensures ParseString(PiecesText(ps) + ("\"" + rest)) == Ok(Spelled(ps), rest)
  {
    if |ps| == 0 {
      assert "" + ("\"" + rest) == ['"'] + rest;
      Cons('"', rest);
    } else {
      ReadPieces(ps[1..], rest);
      Assoc(PieceText(ps[0]), PiecesText(ps[1..]), "\"" + rest);
      assert LegalPiece(ps[0]);
      hide ParseString, PieceText, LegalPiece, PieceChar;
      ReadPiece(ps[0], PiecesText(ps[1..]) + ("\"" + rest), Spelled(ps[1..]), rest);
    }
  }

  lemma EscapeRead(s: string) returns (p: Piece)
    requires ParseEscape(s).Ok?
    ensures LegalPiece(p) && PieceChar(p) == ParseEscape(s).value
    ensures ['\\'] + s == PieceText(p) + ParseEscape(s).rest
  {
    if s[0] != 'u' {
      p := Short(s[0]);
      assert ['\\'] + s == ['\\', s[0]] + s[1..];
    } else {
      ReadHex(s[1..]);
      var h := s[1..][..4];
      var n := HexNumber(h);
      if 0xD800 <= n < 0xDC00 {
        var t := s[5..];
        ReadHex(t[2..]);
        var l := t[2..][..4];
        p := Pair(h, l);
        hide ParseHex4, HexNumber, FourHex;
        PairJoin(s, t, h, l);
      } else {
        p := Unit(h);
        hide ParseHex4, HexNumber, FourHex;
        UnitJoin(s, h);
      }
    }
  }

  lemma UnitJoin(s: string, h: string)
    requires |s| >= 5 && s[0] == 'u' && h == s[1..][..4]
    ensures ['\\'] + s == "\\u" + h + s[5..]
  {}

  lemma PairJoin(s: string, t: string, h: string, l: string)
    requires |s| >= 5 && s[0] == 'u' && h == s[1..][..4] && t == s[5..]
    requires |t| >= 6 && "\\u" <= t && l == t[2..][..4]
    ensures ['\\'] + s == "\\u" + h + "\\u" + l + t[6..]
  {
    UnitJoin(s, h);
    assert t == "\\u" + l + t[6..];
  }

  /** A string that is read is written by the grammar. */
  lemma {:induction false} PiecesRead(s: string) returns (ps: seq<Piece>)
    requires ParseString(s).Ok?
    ensures LegalPieces(ps) && Spelled(ps) == ParseString(s).value
    ensures s == PiecesText(ps) + ("\"" + ParseString(s).rest)
    decreases |s|
  {
    hide ParseEscape, PieceText, PieceChar, LegalPiece;
    if s[0] == '"' {
      ps := [];
      assert s == "" + ("\"" + s[1..]);
    } else {
      var p, more := PieceRead(s);
      var tail := PiecesRead(more);
      ps := [p] + tail;
      hide ParseString;
      PiecesCons(p, tail);
      Assoc(PieceText(p), PiecesText(tail), "\"" + ParseString(s).rest);
    }
  }

  lemma PiecesCons(p: Piece, tail: seq<Piece>)
    requires LegalPiece(p) && LegalPieces(tail)
    ensures LegalPieces([p] + tail) && Spelled([p] + tail) == [PieceChar(p)] + Spelled(tail)
    ensures PiecesText([p] + tail) == PieceText(p) + PiecesText(tail)
  {
    hide LegalPiece, PieceChar, PieceText;
    assert ([p] + tail)[1..] == tail;
  }

  lemma PieceRead(s: string) returns (p: Piece, more: string)
    requires ParseString(s).Ok? && s[0] != '"'
    ensures LegalPiece(p) && s == PieceText(p) + more && |more| < |s| && ParseString(more).Ok?
    ensures ParseString(s) == Ok([PieceChar(p)] + ParseString(more).value, ParseString(more).rest)
  {
    if s[0] == '\\' {
      p := EscapeRead(s[1..]);
      hide ParseEscape;
      more := ParseEscape(s[1..]).rest;
      assert s == ['\\'] + s[1..];
    } else {
      p, more := Plain(s[0]), s[1..];
      assert s == [s[0]] + s[1..];
    }
  }

  // -------------------------------------------------------- reading every tree

  lemma ScalarDispatch(s: string)
    requires |s| > 0 && s[0] != '"' && s[0] != '[' && s[0] != '{'
    ensures ParseValue(s) == ParseScalar(s)
  {}

  lemma ReadWord(w: string, rest: string)
    requires w in ["null", "true", "false", "NaN", "Infinity", "-Infinity"]
    ensures ParseValue(w + rest) == Ok(if w == "null" then Null else if w == "true" then Bool(true)
                                       else if w == "false" then Bool(false) else Float, rest)
  {
    var s := w + rest;
    Cut(w, rest);
    assert w <= s;
    ScalarDispatch(s);
    if w == "-Infinity" {
      assert s[1] == w[1];
    }
  }

  lemma NumberDispatch(s: string)
    requires |s| > 0 && (IsDigit(s[0]) || (s[0] == '-' && |s| > 1 && IsDigit(s[1])))
    ensures ParseValue(s) == ParseNumber(s)
  {
    hide ParseValue, ParseScalar, ParseNumber;
    ScalarDispatch(s);
    ScalarNumber(s);
  }

  lemma ScalarNumber(s: string)
    requires |s| > 0 && (IsDigit(s[0]) || (s[0] == '-' && |s| > 1 && IsDigit(s[1])))
    ensures ParseScalar(s) == ParseNumber(s)
  {
    hide ParseWord, ParseNumber;
  }

  lemma NumberTreeText(t: Tree, rest: string) returns (p: string, e: string)
    requires Legal(t) && (t.Whole? || t.Fraction?)
    ensures LegalDigits(t.digits) && LegalPoint(p) && LegalExponent(e)
    ensures Meaning(t) == Some(NumberMeaning(t.negative, t.digits, p + e))
    ensures Text(t) + rest == Minus(t.negative) + (t.digits + (p + e + rest))
  {
    assert LegalPoint("") && LegalExponent("");
    hide LegalDigits, LegalPoint, LegalExponent, Numeral;
    if t.Whole? {
      p, e := "", "";
      assert p + e == "" && p + e + rest == rest;
      Assoc(Minus(t.negative), t.digits, rest);
    } else {
      p, e := t.point, t.exponent;
      assert |p + e| > 0;
      Regroup(Minus(t.negative), t.digits, p, e);
      Regroup(Minus(t.negative), t.digits, p + e, rest);
    }
  }

  lemma SignedHead(negative: bool, u: string)
    requires |u| > 0 && IsDigit(u[0])
    ensures ParseValue(Minus(negative) + u) == ParseNumber(Minus(negative) + u)
  {
    if negative {
      Cut("-", u);
    } else {
      assert "" + u == u;
    }
    hide ParseValue, ParseNumber;
    NumberDispatch(Minus(negative) + u);
  }

  lemma ReadNumberTree(t: Tree, rest: string)
    requires Legal(t) && (t.Whole? || t.Fraction?) && EndsNumber(rest)
    ensures ParseValue(Text(t) + rest) == Reads(Meaning(t), rest)
  {
    var p, e := NumberTreeText(t, rest);
    FirstDigit(t.digits, p + e + rest);
    hide Legal, Text, Meaning, ParseNumber, NumberMeaning, ParseValue, Minus, LegalDigits, LegalPoint, LegalExponent;
    ReadNumber(t.negative, t.digits, p, e, rest);
    SignedHead(t.negative, t.digits + (p + e + rest));
  }

  predicate Opener(c: char) { !WhiteChar(c) && c != ']' && c != '}' && c != ',' }

  /** No value starts with white space or a closing sign. */
  lemma HeadOf(t: Tree, rest: string)
    requires Legal(t)
    ensures |Text(t) + rest| > 0 && Opener((Text(t) + rest)[0])
  {
    assert |Text(t)| > 0 && Opener(Text(t)[0]);
    hide Text;
    Cut(Text(t), rest);
  }

  lemma WhiteEnds(w: string, more: string)
    requires White(w) && |more| > 0 && (more[0] == ',' || more[0] == ']' || more[0] == '}')
    ensures EndsNumber(w + more) && SkipSpace(w + more) == more
  {
    SkipWhite(w, more);
    if |w| > 0 {
      Cut(w, more);
      assert WhiteChar(w[0]);
    } else {
      assert w + more == more;
    }
  }

  /** Any value of the grammar, followed by anything that cannot continue a number. */
  lemma {:induction false} ReadTree(t: Tree, rest: string)
    requires Legal(t) && EndsNumber(rest)
    ensures ParseValue(Text(t) + rest) == Reads(Meaning(t), rest)
    decreases t, 4
  {
    match t
    case Literal(v) => ReadWord(Text(t), rest);
    case Beyond(w) => ReadWord(w, rest);
    case Whole(_, _) => ReadNumberTree(t, rest);
    case Fraction(_, _, _, _) => ReadNumberTree(t, rest);
    case Quoted(ps) => ReadQuoted(ps, rest);
    case List(gap, items) => ReadList(t, rest);
    case Dict(gap, members) => ReadDict(t, rest);
  }

  lemma OpenQuote(body: string, s: string, rest: string)
    requires ParseString(body) == Ok(s, rest)
    ensures ParseValue(['"'] + body) == Ok(Str(s), rest)
  {
    hide ParseString;
    Cons('"', body);
  }

  lemma QuotedText(ps: seq<Piece>, rest: string)
    ensures Text(Quoted(ps)) + rest == ['"'] + (PiecesText(ps) + ("\"" + rest))
  {
    hide PiecesText;
  }

  lemma ReadQuoted(ps: seq<Piece>, rest: string)
    requires LegalPieces(ps)
    ensures ParseValue(Text(Quoted(ps)) + rest) == Ok(Str(Spelled(ps)), rest)
  {
    ReadPieces(ps, rest);
    QuotedText(ps, rest);
    hide ParseValue, ParseString, PiecesText, Spelled, Text;
    OpenQuote(PiecesText(ps) + ("\"" + rest), Spelled(ps), rest);
  }

  // ---------------------------------------------------------------------- lists

  lemma OpenList(body: string)
    ensures ParseValue(['['] + body) == ParseArray(SkipSpace(body))
  {
    hide ParseArray, SkipSpace;
    Cons('[', body);
  }

  lemma {:induction false} ReadList(t: Tree, rest: string)
    requires Legal(t) && t.List?
    ensures ParseValue(Text(t) + rest) == Reads(Meaning(t), rest)
    decreases t, 3
  {
    var inner := if |t.items| == 0 then t.gap else ItemsText(t.items);
    var body := inner + ("]" + rest);
    ListText(t, rest);
    OpenList(body);
    if |t.items| == 0 {
      WhiteEnds(t.gap, "]" + rest);
      Cons(']', rest);
      EmptyList(rest);
    } else {
      ReadItems(t.items, rest);
      hide ParseElems, ItemsText, SkipSpace, Text;
      FullList(SkipSpace(body), Reads(Meanings(t.items), rest));
    }
  }

  lemma ListText(t: Tree, rest: string)
    requires t.List?
    ensures Text(t) + rest == ['['] + ((if |t.items| == 0 then t.gap else ItemsText(t.items)) + ("]" + rest))
  {
    hide ItemsText;
  }

  lemma EmptyList(rest: string)
    ensures ParseArray("]" + rest) == Ok(Arr([]), rest)
  {
    Cons(']', rest);
    assert "]" + rest == [']'] + rest;
  }

  lemma FullList(body: string, r: Parsed<seq<Json>>)
    requires |body| > 0 && body[0] != ']' && ParseElems(body) == r
    ensures ParseArray(body) == match r case Fail => Fail case Ok(es, rest) => Ok(Arr(es), rest)
  {
    hide ParseElems;
  }

  function AfterItem(items: seq<Item>, rest: string): string
    requires |items| > 0
  {
    if |items| == 1 then "]" + rest else "," + (ItemsText(items[1..]) + ("]" + rest))
  }

  lemma ItemsCut(items: seq<Item>, rest: string)
    requires |items| > 0
    ensures ItemsText(items) + ("]" + rest)
            == items[0].before + (Text(items[0].tree) + (items[0].after + AfterItem(items, rest)))
  {
    var a, b, c := items[0].before, Text(items[0].tree), items[0].after;
    hide Text;
    if |items| == 1 {
      assert ItemsText(items) == a + b + c;
      Four(a, b, c, "]" + rest);
    } else {
      var tail := ItemsText(items[1..]);
      assert ItemsText(items) == a + b + c + ("," + tail);
      hide ItemsText;
      Assoc(a + b + c, "," + tail, "]" + rest);
      Assoc(",", tail, "]" + rest);
      Four(a, b, c, "," + (tail + ("]" + rest)));
    }
  }

  lemma Four(a: string, b: string, c: string, d: string)
    ensures a + b + c + d == a + (b + (c + d))
  {}

  lemma {:induction false} ReadItems(items: seq<Item>, rest: string)
    requires |items| > 0 && forall item | item in items :: LegalItem(item)
    ensures var body := SkipSpace(ItemsText(items) + ("]" + rest));
            |body| > 0 && body[0] != ']' && ParseElems(body) == Reads(Meanings(items), rest)
    decreases items, 2
  {
    var item, more := items[0], AfterItem(items, rest);
    assert LegalItem(item);
    ItemsCut(items, rest);
    AfterHead(items, rest);
    WhiteEnds(item.after, more);
    ReadTree(item.tree, item.after + more);
    HeadOf(item.tree, item.after + more);
    var value := Text(item.tree) + (item.after + more);
    SkipWhite(item.before, value);
    if |items| > 1 {
      ReadItems(items[1..], rest);
    }
    hide ParseValue, ParseElems, SkipSpace, Text, ItemsText, Meaning, LegalItem, Legal, White;
    ElemsStep(items, value, item.after + more, rest);
  }

  lemma AfterHead(items: seq<Item>, rest: string)
    requires |items| > 0
    ensures var more := AfterItem(items, rest);
            if |items| == 1 then |more| > 0 && more[0] == ']' && more[1..] == rest
            else |more| > 0 && more[0] == ',' && more[1..] == ItemsText(items[1..]) + ("]" + rest)
  {
    hide ItemsText;
    Cons(']', rest);
    if |items| > 1 {
      Cons(',', ItemsText(items[1..]) + ("]" + rest));
    }
  }

  lemma ElemsStep(items: seq<Item>, value: string, u: string, rest: string)
    requires |items| > 0 && forall item | item in items :: LegalItem(item)
    requires Legal(items[0].tree) && ParseValue(value) == Reads(Meaning(items[0].tree), u)
    requires SkipSpace(u) == AfterItem(items, rest)
    requires |items| > 1 ==>
               ParseElems(SkipSpace(ItemsText(items[1..]) + ("]" + rest))) == Reads(Meanings(items[1..]), rest)
    ensures ParseElems(value) == Reads(Meanings(items), rest)
  {
    AfterHead(items, rest);
    hide ParseValue, SkipSpace, Text, ItemsText, Meaning, LegalItem, Legal, AfterItem;
    if |items| == 1 {
      assert items[1..] == [];
      assert Meanings(items[1..]) == Some([]);
      if Meaning(items[0].tree).Some? {
        assert [Meaning(items[0].tree).value] + [] == [Meaning(items[0].tree).value];
      }
    }
  }

  // ----------------------------------------------------------------- dictionaries

  lemma OpenDict(body: string)
    ensures ParseValue(['{'] + body) == ParseMembers(SkipSpace(body))
  {
    hide ParseMembers, SkipSpace;
    Cons('{', body);
  }

  lemma {:induction false} ReadDict(t: Tree, rest: string)
    requires Legal(t) && t.Dict?
    ensures ParseValue(Text(t) + rest) == Reads(Meaning(t), rest)
    decreases t, 3
  {
    var inner := if |t.members| == 0 then t.gap else MembersText(t.members);
    var body := inner + ("}" + rest);
    DictText(t, rest);
    OpenDict(body);
    if |t.members| == 0 {
      WhiteEnds(t.gap, "}" + rest);
      EmptyDict(rest);
      assert Collect([]) == map[];
    } else {
      ReadMembers(t.members, rest);
      DictMeaning(t);
      hide ParsePairs, MembersText, SkipSpace, Text, Meaning;
      FullDict(SkipSpace(body), Reads(MemberMeanings(t.members), rest));
    }
  }

  lemma DictText(t: Tree, rest: string)
    requires t.Dict?
    ensures Text(t) + rest == ['{'] + ((if |t.members| == 0 then t.gap else MembersText(t.members)) + ("}" + rest))
  {
    hide MembersText;
  }

  lemma EmptyDict(rest: string)
    ensures ParseMembers("}" + rest) == Ok(Obj(map[]), rest)
  {
    Cons('}', rest);
    assert "}" + rest == ['}'] + rest;
  }

  lemma FullDict(body: string, r: Parsed<Pairs>)
    requires |body| > 0 && body[0] != '}' && ParsePairs(body) == r
    ensures ParseMembers(body) == match r
                                  case Fail => Fail
                                  case Ok(ps, rest) =>
                                    match UniqueObject(ps) case None => Fail case Some(m) => Ok(Obj(m), rest)
  {
    hide ParsePairs, UniqueObject;
  }

  lemma DictMeaning(t: Tree)
    requires Legal(t) && t.Dict?
    ensures Meaning(t) == match MemberMeanings(t.members)
                          case None => None
                          case Some(ps) => match UniqueObject(ps) case None => None case Some(m) => Some(Obj(m))
  {
    hide UniqueObject, MemberMeanings, DistinctKeys, Collect;
    if MemberMeanings(t.members).Some? {
      UniqueIsCollect(MemberMeanings(t.members).value);
    }
  }

  function AfterMember(ms: seq<Member>, rest: string): string
    requires |ms| > 0
  {
    if |ms| == 1 then "}" + rest else "," + (MembersText(ms[1..]) + ("}" + rest))
  }

  /** A member from its opening quote, followed by u after its value. */
  function MemberBody(m: Member, u: string): string {
    ['"'] + (PiecesText(m.key) + ("\"" + (m.gap + ([':'] + (m.item.before + (Text(m.item.tree) + u))))))
  }

  lemma MemberCut(m: Member, u: string)
    ensures MemberText(m) + u == m.before + MemberBody(m, m.item.after + u)
  {
    hide PiecesText, Text;
    var v := m.item.before + (Text(m.item.tree) + (m.item.after + u));
    Four(m.item.before, Text(m.item.tree), m.item.after, u);
    assert ItemText(m.item) + u == v;
    hide ItemText;
    assert MemberText(m) + u
           == m.before + (['"'] + (PiecesText(m.key) + ("\"" + (m.gap + ([':'] + (ItemText(m.item) + u))))));
  }

  lemma MembersCut(ms: seq<Member>, rest: string)
    requires |ms| > 0
    ensures MembersText(ms) + ("}" + rest)
            == ms[0].before + MemberBody(ms[0], ms[0].item.after + AfterMember(ms, rest))
  {
    MemberCut(ms[0], AfterMember(ms, rest));
    var first := MemberText(ms[0]);
    hide MemberText, MemberBody;
    if |ms| == 1 {
      assert MembersText(ms) == first;
    } else {
      var tail := MembersText(ms[1..]);
      assert MembersText(ms) == first + ("," + tail);
      hide MembersText;
      Assoc(first, "," + tail, "}" + rest);
      Assoc(",", tail, "}" + rest);
    }
  }

  lemma KeyStep(body: string, k: string, w: string, value: string)
    requires ParseString(body) == Ok(k, w + ([':'] + value)) && White(w)
    ensures ParsePair(['"'] + body)
            == match ParseValue(SkipSpace(value)) case Fail => Fail case Ok(v, rest) => Ok((k, v), rest)
  {
    SkipWhite(w, [':'] + value);
    Cons(':', value);
    Cons('"', body);
    hide ParseString, ParseValue, SkipSpace, White;
  }

  /** One member: its value has been read already, in front of u. */
  lemma ReadMember(m: Member, u: string)
    requires LegalMember(m) && Legal(m.item.tree) && LegalPieces(m.key)
    requires ParseValue(Text(m.item.tree) + u) == Reads(Meaning(m.item.tree), u)
    ensures ParsePair(MemberBody(m, u))
            == match Meaning(m.item.tree) case None => Fail case Some(v) => Ok((Spelled(m.key), v), u)
  {
    var value := Text(m.item.tree) + u;
    assert LegalItem(m.item);
    HeadOf(m.item.tree, u);
    SkipWhite(m.item.before, value);
    var after := m.gap + ([':'] + (m.item.before + value));
    ReadPieces(m.key, after);
    hide ParseString, ParseValue, PiecesText, Text, Spelled, Meaning, SkipSpace, ParsePair, White, LegalPieces;
    KeyStep(PiecesText(m.key) + ("\"" + after), Spelled(m.key), m.gap, m.item.before + value);
  }

  lemma AfterMemberHead(ms: seq<Member>, rest: string)
    requires |ms| > 0
    ensures var more := AfterMember(ms, rest);
            if |ms| == 1 then |more| > 0 && more[0] == '}' && more[1..] == rest
            else |more| > 0 && more[0] == ',' && more[1..] == MembersText(ms[1..]) + ("}" + rest)
  {
    hide MembersText;
    Cons('}', rest);
    if |ms| > 1 {
      Cons(',', MembersText(ms[1..]) + ("}" + rest));
    }
  }

  lemma {:induction false} ReadMembers(ms: seq<Member>, rest: string)
    requires |ms| > 0 && forall m | m in ms :: LegalMember(m)
    ensures var body := SkipSpace(MembersText(ms) + ("}" + rest));
            |body| > 0 && body[0] != '}' && ParsePairs(body) == Reads(MemberMeanings(ms), rest)
    decreases ms, 2
  {
    var m, more := ms[0], AfterMember(ms, rest);
    assert LegalMember(m) && LegalItem(m.item);
    var u := m.item.after + more;
    MembersCut(ms, rest);
    AfterMemberHead(ms, rest);
    WhiteEnds(m.item.after, more);
    ReadTree(m.item.tree, u);
    ReadMember(m, u);
    SkipWhite(m.before, MemberBody(m, u));
    if |ms| > 1 {
      ReadMembers(ms[1..], rest);
    }
    hide ParseValue, ParsePair, ParsePairs, SkipSpace, Text, MembersText, Meaning, LegalMember, Legal, White;
    PairsStep(ms, MemberBody(m, u), u, rest);
  }

  lemma PairsStep(ms: seq<Member>, body: string, u: string, rest: string)
    requires |ms| > 0 && forall m | m in ms :: LegalMember(m)
    requires Legal(ms[0].item.tree) && LegalPieces(ms[0].key)
    requires ParsePair(body)
             == match Meaning(ms[0].item.tree) case None => Fail case Some(v) => Ok((Spelled(ms[0].key), v), u)
    requires SkipSpace(u) == AfterMember(ms, rest)
    requires |ms| > 1 ==>
               ParsePairs(SkipSpace(MembersText(ms[1..]) + ("}" + rest))) == Reads(MemberMeanings(ms[1..]), rest)
    ensures ParsePairs(body) == Reads(MemberMeanings(ms), rest)
  {
    AfterMemberHead(ms, rest);
    hide ParsePair, SkipSpace, MembersText, Meaning, LegalMember, Legal, AfterMember, Spelled, LegalPieces;
    if |ms| == 1 {
      assert ms[1..] == [];
      assert MemberMeanings(ms[1..]) == Some([]);
      if Meaning(ms[0].item.tree).Some? {
        var p := (Spelled(ms[0].key), Meaning(ms[0].item.tree).value);
        assert [p] + [] == [p];
      }
    }
  }

  // ------------------------------------------------------ what is read is a tree

  /** A tree that explains how s was read. */
  ghost predicate Explains(t: Tree, s: string, r: Parsed<Json>) {
    r.Ok? && Legal(t) && Meaning(t) == Some(r.value) && s == Text(t) + r.rest
  }

  lemma WordRead(s: string, w: string, t: Tree)
    requires Legal(t) && Text(t) == w && w <= s
    ensures s == Text(t) + s[|w|..]
  {
    Halves(s, |w|);
  }

  lemma ScalarRead(s: string) returns (t: Tree)
    requires |s| > 0 && s[0] != '"' && s[0] != '[' && s[0] != '{' && ParseValue(s).Ok?
    ensures Explains(t, s, ParseValue(s))
  {
    ScalarDispatch(s);
    hide ParseNumber;
    if s[0] == 'n' {
      t := Literal(Null);
      WordRead(s, "null", t);
    } else if s[0] == 't' {
      t := Literal(Bool(true));
      WordRead(s, "true", t);
    } else if s[0] == 'f' {
      t := Literal(Bool(false));
      WordRead(s, "false", t);
    } else if s[0] == 'N' {
      t := Beyond("NaN");
      WordRead(s, "NaN", t);
    } else if s[0] == 'I' {
      t := Beyond("Infinity");
      WordRead(s, "Infinity", t);
    } else if s[0] == '-' && |s| > 1 && s[1] == 'I' {
      t := Beyond("-Infinity");
      WordRead(s, "-Infinity", t);
    } else {
      t := NumberRead(s);
    }
  }

  lemma QuotedRead(s: string) returns (t: Tree)
    requires |s| > 0 && s[0] == '"' && ParseValue(s).Ok?
    ensures Explains(t, s, ParseValue(s))
  {
    var ps := PiecesRead(s[1..]);
    QuoteOk(s);
    var rest := ParseString(s[1..]).rest;
    QuotedText(ps, rest);
    QuotedShape(ps);
    t := Quoted(ps);
    hide ParseValue, ParseString, PiecesText, Spelled, LegalPieces, Text, Legal, Meaning;
    assert s == ['"'] + s[1..];
  }

  lemma QuoteOk(s: string)
    requires |s| > 0 && s[0] == '"' && ParseValue(s).Ok?
    ensures ParseString(s[1..]).Ok? && |s[1..]| < |s|
    ensures ParseValue(s) == Ok(Str(ParseString(s[1..]).value), ParseString(s[1..]).rest)
  {
    hide ParseString;
  }

  lemma QuotedShape(ps: seq<Piece>)
    requires LegalPieces(ps)
    ensures Legal(Quoted(ps)) && Meaning(Quoted(ps)) == Some(Str(Spelled(ps)))
  {
    hide LegalPieces, Spelled;
  }

  /** Whatever the parser accepts is a text of the grammar, followed by what it leaves over. */
  lemma {:induction false} TreeRead(s: string) returns (t: Tree)
    requires ParseValue(s).Ok?
    ensures Explains(t, s, ParseValue(s))
    decreases |s|, 1
  {
    if s[0] == '"' {
      t := QuotedRead(s);
    } else if s[0] == '[' {
      t := ListRead(s);
    } else if s[0] == '{' {
      t := DictRead(s);
    } else {
      t := ScalarRead(s);
    }
  }

  ghost predicate LegalItems(items: seq<Item>) { forall item | item in items :: LegalItem(item) }

  /** White space in front of the first item. */
  function Front(w: string, items: seq<Item>): seq<Item>
    requires |items| > 0
  {
    [items[0].(before := w + items[0].before)] + items[1..]
  }

  lemma TextOfItems(head: Item, tail: seq<Item>)
    ensures ItemsText([head] + tail) == ItemText(head) + if |tail| == 0 then "" else "," + ItemsText(tail)
  {
    hide ItemText;
    assert ([head] + tail)[1..] == tail;
  }

  lemma MeaningOfItems(head: Item, tail: seq<Item>)
    requires LegalItem(head) && LegalItems(tail)
    ensures LegalItems([head] + tail) && Legal(head.tree)
    ensures Meanings([head] + tail) == match (Meaning(head.tree), Meanings(tail))
                                       case (Some(v), Some(vs)) => Some([v] + vs)
                                       case _ => None
  {
    hide Meaning, Legal;
    assert ([head] + tail)[1..] == tail;
  }

  lemma ItemParts(before: string, t: Tree, after: string)
    ensures ItemText(Item(before, t, after)) == before + Text(t) + after
    ensures LegalItem(Item(before, t, after)) <==> White(before) && White(after) && Legal(t)
  {
    hide Text, Legal, White;
  }

  lemma ItemFront(w: string, item: Item)
    requires LegalItem(item) && White(w)
    ensures var f := item.(before := w + item.before); LegalItem(f) && ItemText(f) == w + ItemText(item)
  {
    hide Text, Legal, White, ItemText, LegalItem;
    ItemParts(item.before, item.tree, item.after);
    ItemParts(w + item.before, item.tree, item.after);
    WhiteAppend(w, item.before);
    FrontOf(w, item.before, Text(item.tree), item.after);
  }

  lemma FrontOf(w: string, a: string, b: string, c: string)
    ensures (w + a) + b + c == w + (a + b + c)
  {}

  lemma FrontItemsText(w: string, head: Item, first: Item, tail: seq<Item>)
    requires ItemText(first) == w + ItemText(head)
    ensures ItemsText([first] + tail) == w + ItemsText([head] + tail)
  {
    hide ItemText, ItemsText;
    TextOfItems(head, tail);
    TextOfItems(first, tail);
    Assoc(w, ItemText(head), if |tail| == 0 then "" else "," + ItemsText(tail));
  }

  lemma FrontItemsMeaning(head: Item, first: Item, tail: seq<Item>)
    requires LegalItem(head) && LegalItem(first) && LegalItems(tail) && first.tree == head.tree
    ensures LegalItems([head] + tail) && LegalItems([first] + tail)
    ensures Meanings([first] + tail) == Meanings([head] + tail)
  {
    hide LegalItem, LegalItems, Meaning, Meanings;
    MeaningOfItems(head, tail);
    MeaningOfItems(first, tail);
  }

  lemma FrontItems(w: string, items: seq<Item>)
    requires |items| > 0 && LegalItems(items) && White(w)
    ensures var f := Front(w, items);
            LegalItems(f) && Meanings(f) == Meanings(items) && ItemsText(f) == w + ItemsText(items)
  {
    var head, tail := items[0], items[1..];
    assert items == [head] + tail;
    assert LegalItem(head) && LegalItems(tail);
    hide ItemText, LegalItem, LegalItems, Meanings, ItemsText, White;
    ItemFront(w, head);
    FrontItemsText(w, head, head.(before := w + head.before), tail);
    FrontItemsMeaning(head, head.(before := w + head.before), tail);
  }

  lemma WhiteAppend(a: string, b: string)
    requires White(a) && White(b)
    ensures White(a + b)
  {}

  lemma ListRead(s: string) returns (t: Tree)
    requires |s| > 0 && s[0] == '[' && ParseValue(s).Ok?
    ensures Explains(t, s, ParseValue(s))
    decreases |s|, 0
  {
    var w := Skipped(s[1..]);
    var body := SkipSpace(s[1..]);
    if |body| > 0 && body[0] == ']' {
      t := List(w, []);
      EmptyListRead(s, w, body);
    } else {
      ListOk(s);
      var items := ItemsRead(body);
      FrontItems(w, items);
      var f := Front(w, items);
      hide SkipSpace, ParseElems, White, ItemsText, Meanings, LegalItems, Front;
      t := List("", f);
      ListLegal(f);
      CloseText(s, "[", w, ItemsText(items), "]", body, ParseElems(body).rest);
    }
  }

  lemma EmptyListRead(s: string, w: string, body: string)
    requires "[" <= s && White(w) && s[1..] == w + body && body == SkipSpace(s[1..]) && "]" <= body
    ensures Explains(List(w, []), s, ParseValue(s))
  {
    hide SkipSpace, White;
    var t := List(w, []);
    assert Legal(t) && Text(t) == "[" + w + "]";
    assert Meaning(t) == Some(Arr([]));
    assert ParseValue(s) == Ok(Arr([]), body[1..]);
    hide Legal, Text, Meaning, ParseValue;
    assert body == "]" + body[1..];
    Halves(s, 1);
    assert s == "[" + w + "]" + body[1..];
  }

  lemma ListLegal(items: seq<Item>)
    requires |items| > 0 && LegalItems(items)
    ensures Legal(List("", items)) && Text(List("", items)) == "[" + ItemsText(items) + "]"
    ensures Meaning(List("", items)) == match Meanings(items) case None => None case Some(vs) => Some(Arr(vs))
  {
    hide ItemsText, Meanings, LegalItem;
  }

  lemma ListOk(s: string)
    requires |s| > 0 && s[0] == '[' && ParseValue(s).Ok?
    requires var body := SkipSpace(s[1..]); !(|body| > 0 && body[0] == ']')
    ensures var body := SkipSpace(s[1..]);
            && ParseElems(body).Ok? && |body| < |s|
            && ParseValue(s) == Ok(Arr(ParseElems(body).value), ParseElems(body).rest)
  {
    hide ParseElems, SkipSpace;
  }

  /** Text between an opening and a closing sign. */
  lemma CloseText(s: string, open: string, w: string, inner: string, close: string, body: string, rest: string)
    requires |open| == 1 && open <= s && s[1..] == w + body && body == inner + (close + rest)
    ensures s == open + (w + inner) + close + rest
  {
    Halves(s, 1);
  }

  lemma {:induction false} ItemsRead(s: string) returns (items: seq<Item>)
    requires ParseElems(s).Ok?
    ensures |items| > 0 && LegalItems(items) && Meanings(items) == Some(ParseElems(s).value)
    ensures s == ItemsText(items) + ("]" + ParseElems(s).rest)
    decreases |s|, 2
  {
    var tree := TreeRead(s);
    var u := ParseValue(s).rest;
    var w := Skipped(u);
    var t := SkipSpace(u);
    var item := Item("", tree, w);
    assert LegalItem(item);
    if t[0] == ']' {
      items := [item];
      OneItem(item);
      hide ParseValue, SkipSpace, ItemsText, Meaning, Meanings, Text, LegalItem, LegalItems, Legal, White;
      LastText(Text(tree), u, w, t, "]");
    } else {
      var w2 := Skipped(t[1..]);
      var tail := ItemsRead(SkipSpace(t[1..]));
      var f := Front(w2, tail);
      FrontItems(w2, tail);
      items := [item] + f;
      ConsItem(item, f);
      var rest := ParseElems(s).rest;
      hide ParseValue, SkipSpace, ItemsText, Meaning, Meanings, Text, LegalItem, LegalItems, Legal, White, Front;
      MoreText(Text(tree), u, w, t, w2, SkipSpace(t[1..]), ItemsText(tail), "]" + rest);
    }
  }

  lemma LastText(a: string, u: string, w: string, t: string, close: string)
    requires |close| == 1 && close <= t && u == w + t
    ensures a + u == a + w + (close + t[1..])
  {
    Halves(t, 1);
  }

  lemma MoreText(a: string, u: string, w: string, t: string, w2: string, body: string, tail: string, end: string)
    requires "," <= t && u == w + t && t[1..] == w2 + body && body == tail + end
    ensures a + u == a + w + ("," + (w2 + tail)) + end
  {
    Halves(t, 1);
    assert t == "," + (w2 + (tail + end));
  }

  lemma BareText(item: Item)
    requires item.before == ""
    ensures ItemText(item) == Text(item.tree) + item.after
  {
    hide Text;
    assert "" + Text(item.tree) == Text(item.tree);
  }

  lemma OneItem(item: Item)
    requires LegalItem(item) && item.before == ""
    ensures LegalItems([item]) && ItemsText([item]) == Text(item.tree) + item.after
    ensures Legal(item.tree)
    ensures Meanings([item]) == match Meaning(item.tree) case None => None case Some(v) => Some([v])
  {
    BareText(item);
    TextOfItems(item, []);
    MeaningOfItems(item, []);
    assert [item] + [] == [item] && Meanings([]) == Some([]);
    hide ItemText, Text, ItemsText, Meaning, Meanings, LegalItems;
    assert ItemText(item) + "" == ItemText(item);
    if Meaning(item.tree).Some? {
      assert [Meaning(item.tree).value] + [] == [Meaning(item.tree).value];
    }
  }

  lemma ConsItem(item: Item, f: seq<Item>)
    requires LegalItem(item) && item.before == "" && |f| > 0 && LegalItems(f)
    ensures LegalItems([item] + f) && ItemsText([item] + f) == Text(item.tree) + item.after + ("," + ItemsText(f))
    ensures Legal(item.tree)
    ensures Meanings([item] + f) == match (Meaning(item.tree), Meanings(f))
                                    case (Some(v), Some(vs)) => Some([v] + vs)
                                    case _ => None
  {
    hide ItemText, Text, ItemsText, Meaning, Meanings, LegalItems, LegalItem;
    BareText(item);
    TextOfItems(item, f);
    MeaningOfItems(item, f);
  }

  // ---------------------------------------------------------------- dictionaries read

  ghost predicate LegalMembers(ms: seq<Member>) { forall m | m in ms :: LegalMember(m) }

  function FrontMember(w: string, ms: seq<Member>): seq<Member>
    requires |ms| > 0
  {
    [ms[0].(before := w + ms[0].before)] + ms[1..]
  }

  lemma TextOfMembers(head: Member, tail: seq<Member>)
    ensures MembersText([head] + tail) == MemberText(head) + if |tail| == 0 then "" else "," + MembersText(tail)
  {
    hide MemberText;
    assert ([head] + tail)[1..] == tail;
  }

  lemma MeaningOfMembers(head: Member, tail: seq<Member>)
    requires LegalMember(head) && LegalMembers(tail)
    ensures LegalMembers([head] + tail) && Legal(head.item.tree) && LegalPieces(head.key)
    ensures MemberMeanings([head] + tail) == match (Meaning(head.item.tree), MemberMeanings(tail))
                                             case (Some(v), Some(ps)) => Some([(Spelled(head.key), v)] + ps)
                                             case _ => None
  {
    assert LegalItem(head.item);
    hide Meaning, Legal, Spelled;
    assert ([head] + tail)[1..] == tail;
  }

  /** A member's text from its opening quote on. */
  function FromKey(key: seq<Piece>, gap: string, item: Item): string {
    "\"" + PiecesText(key) + "\"" + gap + ":" + ItemText(item)
  }

  lemma MemberParts(before: string, key: seq<Piece>, gap: string, item: Item)
    ensures MemberText(Member(before, key, gap, item)) == before + FromKey(key, gap, item)
    ensures LegalMember(Member(before, key, gap, item))
            <==> White(before) && White(gap) && LegalPieces(key) && LegalItem(item)
  {
    hide ItemText, PiecesText, White, LegalItem, LegalPieces;
  }

  lemma MemberFront(w: string, m: Member)
    requires LegalMember(m) && White(w)
    ensures var f := m.(before := w + m.before); LegalMember(f) && MemberText(f) == w + MemberText(m)
  {
    hide MemberText, FromKey, White, LegalItem, LegalPieces, LegalMember;
    MemberParts(m.before, m.key, m.gap, m.item);
    MemberParts(w + m.before, m.key, m.gap, m.item);
    WhiteAppend(w, m.before);
    Assoc(w, m.before, FromKey(m.key, m.gap, m.item));
  }

  lemma FrontText(w: string, head: Member, first: Member, tail: seq<Member>)
    requires MemberText(first) == w + MemberText(head)
    ensures MembersText([first] + tail) == w + MembersText([head] + tail)
  {
    hide MemberText, MembersText;
    TextOfMembers(head, tail);
    TextOfMembers(first, tail);
    Assoc(w, MemberText(head), if |tail| == 0 then "" else "," + MembersText(tail));
  }

  lemma FrontMeaning(head: Member, first: Member, tail: seq<Member>)
    requires LegalMember(head) && LegalMember(first) && LegalMembers(tail)
    requires first.key == head.key && first.item == head.item
    ensures LegalMembers([head] + tail) && LegalMembers([first] + tail)
    ensures MemberMeanings([first] + tail) == MemberMeanings([head] + tail)
  {
    hide LegalMember, LegalMembers, Meaning, MemberMeanings, Spelled;
    MeaningOfMembers(head, tail);
    MeaningOfMembers(first, tail);
  }

  lemma FrontMembers(w: string, ms: seq<Member>)
    requires |ms| > 0 && LegalMembers(ms) && White(w)
    ensures var f := FrontMember(w, ms);
            LegalMembers(f) && MemberMeanings(f) == MemberMeanings(ms) && MembersText(f) == w + MembersText(ms)
  {
    var head, tail := ms[0], ms[1..];
    assert ms == [head] + tail;
    assert LegalMember(head) && LegalMembers(tail);
    hide MemberText, LegalMember, LegalMembers, MemberMeanings, MembersText, White;
    MemberFront(w, head);
    FrontText(w, head, head.(before := w + head.before), tail);
    FrontMeaning(head, head.(before := w + head.before), tail);
  }

  lemma DictRead(s: string) returns (t: Tree)
    requires |s| > 0 && s[0] == '{' && ParseValue(s).Ok?
    ensures Explains(t, s, ParseValue(s))
    decreases |s|, 0
  {
    var w := Skipped(s[1..]);
    var body := SkipSpace(s[1..]);
    if |body| > 0 && body[0] == '}' {
      t := Dict(w, []);
      EmptyDictRead(s, w, body);
    } else {
      DictOk(s);
      var ms := MembersRead(body);
      FrontMembers(w, ms);
      var f := FrontMember(w, ms);
      hide SkipSpace, ParsePairs, White, MembersText, MemberMeanings, LegalMembers, FrontMember, UniqueObject;
      t := Dict("", f);
      DictLegal(f);
      CloseText(s, "{", w, MembersText(ms), "}", body, ParsePairs(body).rest);
    }
  }

  lemma EmptyDictRead(s: string, w: string, body: string)
    requires "{" <= s && White(w) && s[1..] == w + body && body == SkipSpace(s[1..]) && "}" <= body
    ensures Explains(Dict(w, []), s, ParseValue(s))
  {
    hide SkipSpace, White;
    var t := Dict(w, []);
    assert Legal(t) && Text(t) == "{" + w + "}";
    assert Collect([]) == map[];
    assert Meaning(t) == Some(Obj(map[]));
    assert ParseValue(s) == Ok(Obj(map[]), body[1..]);
    hide Legal, Text, Meaning, ParseValue;
    assert body == "}" + body[1..];
    Halves(s, 1);
    assert s == "{" + w + "}" + body[1..];
  }

  lemma DictLegal(ms: seq<Member>)
    requires |ms| > 0 && LegalMembers(ms)
    ensures Legal(Dict("", ms)) && Text(Dict("", ms)) == "{" + MembersText(ms) + "}"
    ensures Meaning(Dict("", ms))
            == match MemberMeanings(ms)
               case None => None
               case Some(ps) => match UniqueObject(ps) case None => None case Some(m) => Some(Obj(m))
  {
    hide MembersText, MemberMeanings, LegalMember, UniqueObject, Meaning;
    var t := Dict("", ms);
    DictShape(ms);
    hide Legal, Text;
    DictMeaning(t);
  }

  lemma MembersInBraces(ms: seq<Member>)
    requires |ms| > 0
    ensures Text(Dict("", ms)) == "{" + MembersText(ms) + "}"
  {
    hide MembersText, ItemsText, PiecesText, Legal;
  }

  lemma DictShape(ms: seq<Member>)
    requires |ms| > 0 && LegalMembers(ms)
    ensures Legal(Dict("", ms)) && Text(Dict("", ms)) == "{" + MembersText(ms) + "}"
  {
    hide MembersText, LegalMember, Legal, Text, LegalMembers;
    MembersLegal(ms);
    MembersInBraces(ms);
  }

  lemma MembersLegal(ms: seq<Member>)
    requires LegalMembers(ms)
    ensures Legal(Dict("", ms))
  {
    hide LegalMember;
  }

  lemma DictOk(s: string)
    requires |s| > 0 && s[0] == '{' && ParseValue(s).Ok?
    requires var body := SkipSpace(s[1..]); !(|body| > 0 && body[0] == '}')
    ensures var body := SkipSpace(s[1..]);
            && ParsePairs(body).Ok? && |body| < |s| && UniqueObject(ParsePairs(body).value).Some?
            && ParseValue(s) == Ok(Obj(UniqueObject(ParsePairs(body).value).value), ParsePairs(body).rest)
  {
    hide ParsePairs, SkipSpace, UniqueObject;
  }

  /** One member that is read, up to what follows its value. */
  lemma {:induction false} MemberRead(s: string) returns (m: Member)
    requires ParsePair(s).Ok?
    ensures LegalMember(m) && m.before == "" && m.item.after == "" && Legal(m.item.tree) && LegalPieces(m.key)
    ensures Meaning(m.item.tree) == Some(ParsePair(s).value.1) && Spelled(m.key) == ParsePair(s).value.0
    ensures s == MemberText(m) + ParsePair(s).rest
    decreases |s|, 1
  {
    var ps := PiecesRead(s[1..]);
    var after := ParseString(s[1..]).rest;
    var w := Skipped(after);
    var t := SkipSpace(after);
    var w2 := Skipped(t[1..]);
    var value := SkipSpace(t[1..]);
    var tree := TreeRead(value);
    m := Member("", ps, w, Item(w2, tree, ""));
    var v := ParseValue(value);
    assert ParsePair(s) == Ok((ParseString(s[1..]).value, v.value), v.rest);
    hide ParsePair, ParseString, ParseValue, SkipSpace, PiecesText, Text, Meaning, Spelled, LegalPieces;
    assert LegalItem(m.item);
    hide Legal, White;
    assert s == "\"" + s[1..] && t == ":" + t[1..];
    BareMember(m);
    hide MemberText;
    MemberJoin(s, PiecesText(ps), w, w2, Text(tree), v.rest, MemberText(m));
  }

  lemma BareMember(m: Member)
    requires m.before == "" && m.item.after == ""
    ensures MemberText(m)
            == "" + "\"" + PiecesText(m.key) + "\"" + m.gap + ":" + (m.item.before + Text(m.item.tree) + "")
  {
    hide PiecesText, Text;
    assert ItemText(m.item) == m.item.before + Text(m.item.tree) + "";
  }

  lemma MemberJoin(s: string, key: string, w: string, w2: string, value: string, rest: string, text: string)
    requires s == "\"" + (key + ("\"" + (w + (":" + (w2 + (value + rest))))))
    requires text == "" + "\"" + key + "\"" + w + ":" + (w2 + value + "")
    ensures s == text + rest
  {}

  lemma {:induction false} MembersRead(s: string) returns (ms: seq<Member>)
    requires ParsePairs(s).Ok?
    ensures |ms| > 0 && LegalMembers(ms) && MemberMeanings(ms) == Some(ParsePairs(s).value)
    ensures s == MembersText(ms) + ("}" + ParsePairs(s).rest)
    decreases |s|, 2
  {
    var first := MemberRead(s);
    var u := ParsePair(s).rest;
    var w := Skipped(u);
    var t := SkipSpace(u);
    var m := first.(item := first.item.(after := w));
    AfterText(first, w);
    if t[0] == '}' {
      ms := [m];
      OneMember(m);
      hide ParsePair, SkipSpace, MembersText, MemberText, Meaning, MemberMeanings, LegalMember, LegalMembers, White;
      LastText(MemberText(first), u, w, t, "}");
    } else {
      var w2 := Skipped(t[1..]);
      var tail := MembersRead(SkipSpace(t[1..]));
      var f := FrontMember(w2, tail);
      FrontMembers(w2, tail);
      ms := [m] + f;
      TextOfMembers(m, f);
      MeaningOfMembers(m, f);
      var rest := ParsePairs(s).rest;
      hide ParsePair, SkipSpace, MembersText, MemberText, Meaning, MemberMeanings, LegalMember, LegalMembers;
      hide White, FrontMember;
      MoreText(MemberText(first), u, w, t, w2, SkipSpace(t[1..]), MembersText(tail), "}" + rest);
    }
  }

  /** The white space after the value. */
  lemma AfterText(first: Member, w: string)
    requires LegalMember(first) && first.item.after == "" && White(w)
    ensures var m := first.(item := first.item.(after := w)); LegalMember(m) && MemberText(m) == MemberText(first) + w
  {
    hide Text, PiecesText;
    var m := first.(item := first.item.(after := w));
    assert LegalItem(first.item);
    assert LegalItem(m.item);
    assert ItemText(m.item) == ItemText(first.item) + w;
    hide ItemText;
    assert MemberText(m) == MemberText(first) + w;
  }

  lemma OneMember(m: Member)
    requires LegalMember(m)
    ensures LegalMembers([m]) && MembersText([m]) == MemberText(m)
    ensures Legal(m.item.tree) && LegalPieces(m.key)
    ensures MemberMeanings([m])
            == match Meaning(m.item.tree) case None => None case Some(v) => Some([(Spelled(m.key), v)])
  {
    TextOfMembers(m, []);
    MeaningOfMembers(m, []);
    assert [m] + [] == [m] && MemberMeanings([]) == Some([]);
    hide MemberText, MembersText, Meaning, MemberMeanings, LegalMembers, Spelled;
    assert MemberText(m) + "" == MemberText(m);
    if Meaning(m.item.tree).Some? {
      var p := (Spelled(m.key), Meaning(m.item.tree).value);
      assert [p] + [] == [p];
    }
  }
}
