/**
 JSON texts, independently of any parser (RFC 8259, sections 2 to 7, and the three
 words that Python's decoder adds): a tree says how each value is written, down to
 every space and every escape, and has one text and at most one meaning.
 */
module JsonGrammar {
  import opened Json
  import opened Wrappers

  /** How one character is written inside a string. */
  datatype Piece =
    | Plain(c: char)
    | Short(letter: char)
    | Unit(hex: string)
    | Pair(high: string, low: string)

  datatype Tree =
    | Literal(v: Json)
    | Whole(negative: bool, digits: string)
    | Fraction(negative: bool, digits: string, point: string, exponent: string)
    | Beyond(word: string)
    | Quoted(pieces: seq<Piece>)
    | List(gap: string, items: seq<Item>)
    | Dict(gap: string, members: seq<Member>)

  /** A value with the white space around it. */
  datatype Item = Item(before: string, tree: Tree, after: string)

  datatype Member = Member(before: string, key: seq<Piece>, gap: string, item: Item)

  // ------------------------------------------------------------------ symbols

  predicate WhiteChar(c: char) { c == ' ' || c == '\t' || c == '\n' || c == '\r' }

  predicate White(s: string) { forall i | 0 <= i < |s| :: WhiteChar(s[i]) }

  predicate Numeric(s: string) { forall i | 0 <= i < |s| :: '0' <= s[i] <= '9' }

  /** No leading zero. */
  predicate LegalDigits(d: string) { |d| > 0 && Numeric(d) && (|d| == 1 || d[0] != '0') }

  predicate LegalPoint(s: string) { s == "" || (|s| > 1 && s[0] == '.' && Numeric(s[1..])) }

  predicate LegalExponent(s: string) {
    s == "" || (|s| > 1 && (s[0] == 'e' || s[0] == 'E')
                && ((Numeric(s[1..])) || (|s| > 2 && (s[1] == '+' || s[1] == '-') && Numeric(s[2..]))))
  }

  function Numeral(d: string): nat
    requires Numeric(d)
  {
    if |d| == 0 then 0 else Numeral(d[..|d| - 1]) * 10 + (d[|d| - 1] as int - '0' as int)
  }

  predicate IsHex(c: char) { '0' <= c <= '9' || 'a' <= c <= 'f' || 'A' <= c <= 'F' }

  function HexDigit(c: char): (d: nat)
    requires IsHex(c)
    ensures d < 16
  {
    if '0' <= c <= '9' then c as int - '0' as int
    else if 'a' <= c <= 'f' then c as int - 'a' as int + 10
    else c as int - 'A' as int + 10
  }

  predicate FourHex(h: string) { |h| == 4 && IsHex(h[0]) && IsHex(h[1]) && IsHex(h[2]) && IsHex(h[3]) }

  function HexNumber(h: string): (n: nat)
    requires FourHex(h)
    ensures n < 0x10000
  {
    ((HexDigit(h[0]) * 16 + HexDigit(h[1])) * 16 + HexDigit(h[2])) * 16 + HexDigit(h[3])
  }

  // ------------------------------------------------------------------ strings

  predicate LegalPiece(p: Piece) {
    match p
    case Plain(c) => c != '"' && c != '\\' && c as int >= 0x20
    case Short(l) => l in ['"', '\\', '/', 'b', 'f', 'n', 'r', 't']
    case Unit(h) => FourHex(h) && !(0xD800 <= HexNumber(h) < 0xE000)
    case Pair(h, l) => FourHex(h) && FourHex(l) && 0xD800 <= HexNumber(h) < 0xDC00 <= HexNumber(l) < 0xE000
  }

  function PieceText(p: Piece): string {
    match p
    case Plain(c) => [c]
    case Short(l) => ['\\', l]
    case Unit(h) => "\\u" + h
    case Pair(h, l) => "\\u" + h + "\\u" + l
  }

  function PieceChar(p: Piece): char
    requires LegalPiece(p)
  {
    match p
    case Plain(c) => c
    case Short(l) =>
      if l == 'b' then 8 as char
      else if l == 't' then 9 as char
      else if l == 'n' then 10 as char
      else if l == 'f' then 12 as char
      else if l == 'r' then 13 as char
      else l
    case Unit(h) => HexNumber(h) as char
    case Pair(h, l) => (0x10000 + (HexNumber(h) - 0xD800) * 0x400 + (HexNumber(l) - 0xDC00)) as char
  }

  predicate LegalPieces(ps: seq<Piece>) { forall p | p in ps :: LegalPiece(p) }

  function PiecesText(ps: seq<Piece>): string {
    if |ps| == 0 then "" else PieceText(ps[0]) + PiecesText(ps[1..])
  }

  function Spelled(ps: seq<Piece>): string
    requires LegalPieces(ps)
  {
    if |ps| == 0 then "" else [PieceChar(ps[0])] + Spelled(ps[1..])
  }

  // -------------------------------------------------------------------- trees

  predicate Legal(t: Tree)
    decreases t
  {
    match t
    case Literal(v) => v.Null? || v.Bool?
    case Whole(_, d) => LegalDigits(d)
    case Fraction(_, d, p, e) => LegalDigits(d) && LegalPoint(p) && LegalExponent(e) && p + e != ""
    case Beyond(w) => w in ["NaN", "Infinity", "-Infinity"]
    case Quoted(ps) => LegalPieces(ps)
    case List(gap, items) => White(gap) && forall item | item in items :: LegalItem(item)
    case Dict(gap, members) => White(gap) && forall m | m in members :: LegalMember(m)
  }

  predicate LegalItem(item: Item)
    decreases item
  {
    White(item.before) && White(item.after) && Legal(item.tree)
  }

  predicate LegalMember(m: Member)
    decreases m
  {
    White(m.before) && White(m.gap) && LegalPieces(m.key) && LegalItem(m.item)
  }

  function Text(t: Tree): string
    decreases t, 0
  {
    match t
    case Literal(v) => if v.Null? then "null" else if v == Bool(true) then "true" else "false"
    case Whole(negative, d) => (if negative then "-" else "") + d
    case Fraction(negative, d, p, e) => (if negative then "-" else "") + d + p + e
    case Beyond(w) => w
    case Quoted(ps) => "\"" + PiecesText(ps) + "\""
    case List(gap, items) => "[" + (if |items| == 0 then gap else ItemsText(items)) + "]"
    case Dict(gap, members) => "{" + (if |members| == 0 then gap else MembersText(members)) + "}"
  }

  function ItemText(item: Item): string
    decreases item, 0
  {
    item.before + Text(item.tree) + item.after
  }

  function ItemsText(items: seq<Item>): string
    requires |items| > 0
    decreases items, 1
  {
    ItemText(items[0]) + if |items| == 1 then "" else "," + ItemsText(items[1..])
  }

  function MemberText(m: Member): string
    decreases m, 0
  {
    m.before + "\"" + PiecesText(m.key) + "\"" + m.gap + ":" + ItemText(m.item)
  }

  function MembersText(ms: seq<Member>): string
    requires |ms| > 0
    decreases ms, 1
  {
    MemberText(ms[0]) + if |ms| == 1 then "" else "," + MembersText(ms[1..])
  }

  // ------------------------------------------------------------------ meaning

  type Pairs = seq<(string, Json)>

  ghost predicate DistinctKeys(pairs: Pairs) {
    forall i, j | 0 <= i < j < |pairs| :: pairs[i].0 != pairs[j].0
  }

  ghost predicate HasKey(pairs: Pairs, k: string) {
    exists i :: 0 <= i < |pairs| && pairs[i].0 == k
  }

  ghost function ValueAt(pairs: Pairs, k: string): Json
    requires HasKey(pairs, k)
  {
    var i :| 0 <= i < |pairs| && pairs[i].0 == k;
    pairs[i].1
  }

  /** The object with these members, which are told apart by their keys. */
  ghost function Collect(pairs: Pairs): map<string, Json> {
    map k | k in (set i | 0 <= i < |pairs| :: pairs[i].0) :: ValueAt(pairs, k)
  }

  /** The value a tree stands for: none when an object in it repeats a key. */
  ghost function Meaning(t: Tree): Option<Json>
    requires Legal(t)
    decreases t, 0
  {
    match t
    case Literal(v) => Some(v)
    case Whole(negative, d) => Some(Int(if negative then 0 - Numeral(d) else Numeral(d)))
    case Fraction(_, _, _, _) => Some(Float)
    case Beyond(_) => Some(Float)
    case Quoted(ps) => Some(Str(Spelled(ps)))
    case List(_, items) =>
      (match Meanings(items) case None => None case Some(vs) => Some(Arr(vs)))
    case Dict(_, members) =>
      (match MemberMeanings(members)
       case None => None
       case Some(ps) => if DistinctKeys(ps) then Some(Obj(Collect(ps))) else None)
  }

  ghost function Meanings(items: seq<Item>): Option<seq<Json>>
    requires forall item | item in items :: LegalItem(item)
    decreases items, 1
  {
    if |items| == 0 then Some([])
    else
      assert LegalItem(items[0]);
      match (Meaning(items[0].tree), Meanings(items[1..]))
      case (Some(v), Some(vs)) => Some([v] + vs)
      case _ => None
  }

  ghost function MemberMeanings(ms: seq<Member>): Option<Pairs>
    requires forall m | m in ms :: LegalMember(m)
    decreases ms, 1
  {
    if |ms| == 0 then Some([])
    else
      assert LegalMember(ms[0]) && LegalItem(ms[0].item);
      match (Meaning(ms[0].item.tree), MemberMeanings(ms[1..]))
      case (Some(v), Some(ps)) => Some([(Spelled(ms[0].key), v)] + ps)
      case _ => None
  }

  /** The text is a JSON text for v: white space, a value, white space. */
  ghost predicate Spells(text: string, v: Json) {
    exists item: Item :: LegalItem(item) && ItemText(item) == text && Meaning(item.tree) == Some(v)
  }
}
