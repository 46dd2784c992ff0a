/** Which bytes the decoder accepts, what canonical text looks like, and that the two fit together. */
module JsonRoundTrip {
  import opened Json
  import opened JsonGrammar
  import opened JsonReading
  import opened JsonText
  import opened Orders
  import opened Wrappers
  import Utf8

  // -------------------------------------------------------------- the decoder

  lemma WhiteOnly(w: string)
    requires White(w)
    ensures EndsNumber(w) && SkipSpace(w) == ""
  {
    SkipWhite(w, "");
    assert w + "" == w;
    assert |w| > 0 ==> WhiteChar(w[0]);
  }

  /** A text of the grammar is read as its meaning, and rejected when it has none. */
  lemma ReadText(item: Item)
    requires LegalItem(item)
    ensures Legal(item.tree) && ParseText(ItemText(item)) == Meaning(item.tree)
  {
    var t, w := item.tree, item.after;
    WhiteOnly(w);
    ReadTree(t, w);
    HeadOf(t, w);
    SkipWhite(item.before, Text(t) + w);
    hide ParseValue, Text, Meaning, SkipSpace, EndsNumber, White, Legal;
    Assoc(item.before, Text(t), w);
  }

  lemma TextRead(s: string) returns (item: Item)
    requires ParseText(s).Some?
    ensures LegalItem(item) && Legal(item.tree) && ItemText(item) == s && Meaning(item.tree) == ParseText(s)
  {
    var w := Skipped(s);
    var t := TreeRead(SkipSpace(s));
    var rest := ParseValue(SkipSpace(s)).rest;
    var w2 := Skipped(rest);
    item := Item(w, t, rest);
    hide ParseValue, SkipSpace, Text, Meaning, White, Legal;
    assert w2 + "" == w2;
    Assoc(w, Text(t), rest);
  }

  /** The parser finds v in a text exactly when the grammar spells v that way. */
  lemma ParseTextExact(s: string, v: Json)
    ensures ParseText(s) == Some(v) <==> Spells(s, v)
  {
    hide ParseText, ItemText, Meaning, Legal;
    if ParseText(s) == Some(v) {
      var item := TextRead(s);
    }
    if Spells(s, v) {
      var item: Item :| LegalItem(item) && ItemText(item) == s && Meaning(item.tree) == Some(v);
      ReadText(item);
    }
  }

  /**
   The decoder accepts exactly the bytes that fit the size limit and are the UTF-8
   form of a JSON text for a value of the restricted domain.
   */
  lemma DecodeExact(raw: Utf8.Bytes, v: Json)
    ensures Decode(raw) == Some(v) <==>
              && |raw| <= 65536 && JsonValue(v, 0)
              && exists text :: raw == Utf8.Encode(text) && Spells(text, v)
  {
    hide Utf8.Decode, Utf8.Encode, ParseText, Print, Spells, JsonValue;
    if Decode(raw) == Some(v) {
      var text := Utf8.Decode(raw).s;
      Utf8.EncodeDecode(raw);
      ParseTextExact(text, v);
      assert raw == Utf8.Encode(text) && Spells(text, v);
    }
    if |raw| <= MAX_BYTES && JsonValue(v, 0) && exists text :: raw == Utf8.Encode(text) && Spells(text, v) {
      var text :| raw == Utf8.Encode(text) && Spells(text, v);
      Utf8.DecodeEncode(text);
      ParseTextExact(text, v);
    }
  }

  lemma DecodeTextExact(text: string, v: Json)
    ensures Decode(Utf8.Encode(text)) == Some(v)
            <==> |Utf8.Encode(text)| <= 65536 && JsonValue(v, 0) && Spells(text, v)
  {
    hide Utf8.Decode, Utf8.Encode, ParseText, Print, Spells, JsonValue;
    Utf8.DecodeEncode(text);
    ParseTextExact(text, v);
  }

  /** A text in which an object repeats a key is rejected. */
  lemma RepeatedKeysRejected(item: Item)
    requires LegalItem(item) && Legal(item.tree) && Meaning(item.tree) == None
    ensures Decode(Utf8.Encode(ItemText(item))) == None
  {
    hide Utf8.Decode, Utf8.Encode, ParseText, ItemText, Meaning, LegalItem, Legal, Print, JsonValue;
    Utf8.DecodeEncode(ItemText(item));
    ReadText(item);
  }

  // ------------------------------------------------------------------- floats

  ghost predicate NoFloats(v: Json)
    decreases v
  {
    match v
    case Float => false
    case Arr(es) => forall e | e in es :: NoFloats(e)
    case Obj(m) => forall k | k in m :: NoFloats(m[k])
    case _ => true
  }

  /** At most n levels of lists and objects below the value. */
  ghost predicate Within(v: Json, n: nat)
    decreases v
  {
    match v
    case Arr(es) => forall e | e in es :: n > 0 && Within(e, n - 1)
    case Obj(m) => forall k | k in m :: n > 0 && Within(m[k], n - 1)
    case _ => true
  }

  /** The restricted domain: no floats, and not nested more than sixteen deep. */
  lemma {:induction false} DomainExact(v: Json, depth: nat)
    requires depth <= 16
    ensures JsonValue(v, depth) <==> NoFloats(v) && Within(v, 16 - depth)
    decreases v
  {
    match v
    case Arr(es) =>
      forall e | e in es && depth < 16 ensures JsonValue(e, depth + 1) <==> NoFloats(e) && Within(e, 15 - depth) {
        DomainExact(e, depth + 1);
      }
      if depth == 16 {
        forall e | e in es ensures !JsonValue(e, 17) {}
      }
    case Obj(m) =>
      forall k | k in m && depth < 16
        ensures JsonValue(m[k], depth + 1) <==> NoFloats(m[k]) && Within(m[k], 15 - depth)
      {
        DomainExact(m[k], depth + 1);
      }
      if depth == 16 {
        forall k | k in m ensures !JsonValue(m[k], 17) {}
      }
    case _ =>
  }

  lemma JsonValueNoFloats(v: Json, depth: nat)
    requires JsonValue(v, depth)
    ensures NoFloats(v)
  {
    DomainExact(v, depth);
  }

  /** Somewhere in the text there is a number with a fraction or an exponent, or one of the three float words. */
  ghost predicate HasFloat(t: Tree)
    decreases t
  {
    match t
    case Fraction(_, _, _, _) => true
    case Beyond(_) => true
    case List(_, items) => exists i :: 0 <= i < |items| && HasFloat(items[i].tree)
    case Dict(_, ms) => exists i :: 0 <= i < |ms| && HasFloat(ms[i].item.tree)
    case _ => false
  }

  lemma {:induction false} MeaningAt(items: seq<Item>, i: nat)
    requires i < |items| && LegalItems(items) && Meanings(items).Some?
    ensures Legal(items[i].tree)
    ensures var vs := Meanings(items).value; |vs| == |items| && Meaning(items[i].tree) == Some(vs[i])
  {
    hide Meaning, Legal;
    assert LegalItem(items[0]) && LegalItem(items[i]);
    if |items| > 1 {
      MeaningAt(items[1..], if i == 0 then 0 else i - 1);
    } else {
      assert items[1..] == [];
    }
  }

  lemma {:induction false} MemberMeaningAt(ms: seq<Member>, i: nat)
    requires i < |ms| && LegalMembers(ms) && MemberMeanings(ms).Some?
    ensures Legal(ms[i].item.tree)
    ensures var ps := MemberMeanings(ms).value; |ps| == |ms| && Meaning(ms[i].item.tree) == Some(ps[i].1)
  {
    hide Meaning, Legal;
    assert LegalMember(ms[0]) && LegalItem(ms[0].item) && LegalMember(ms[i]) && LegalItem(ms[i].item);
    if |ms| > 1 {
      MemberMeaningAt(ms[1..], if i == 0 then 0 else i - 1);
    } else {
      assert ms[1..] == [];
    }
  }

  lemma {:induction false} FloatMeaning(t: Tree)
    requires Legal(t) && HasFloat(t) && Meaning(t).Some?
    ensures !NoFloats(Meaning(t).value)
    decreases t
  {
    match t
    case List(_, items) =>
      var i :| 0 <= i < |items| && HasFloat(items[i].tree);
      var item := items[i];
      MeaningAt(items, i);
      FloatMeaning(item.tree);
      assert Meanings(items).value[i] in Meanings(items).value;
    case Dict(_, ms) =>
      var i :| 0 <= i < |ms| && HasFloat(ms[i].item.tree);
      var m := ms[i];
      MemberMeaningAt(ms, i);
      FloatMeaning(m.item.tree);
      var ps := MemberMeanings(ms).value;
      CollectAt(ps, i);
    case _ =>
  }

  lemma CollectAt(ps: Pairs, i: nat)
    requires DistinctKeys(ps) && i < |ps|
    ensures ps[i].0 in Collect(ps) && Collect(ps)[ps[i].0] == ps[i].1
  {
    assert HasKey(ps, ps[i].0);
  }

  /** Every text that holds a float is rejected, wherever the float is. */
  lemma FloatsRejected(item: Item)
    requires LegalItem(item) && Legal(item.tree) && HasFloat(item.tree)
    ensures Decode(Utf8.Encode(ItemText(item))) == None
  {
    var raw := Utf8.Encode(ItemText(item));
    ReadText(item);
    Utf8.DecodeEncode(ItemText(item));
    if Meaning(item.tree).Some? {
      FloatMeaning(item.tree);
      DomainExact(Meaning(item.tree).value, 0);
    }
    hide Utf8.Decode, Utf8.Encode, ParseText, ItemText, Meaning, LegalItem, Legal, Print, HasFloat, NoFloats, JsonValue;
  }

  // ----------------------------------------------------------- canonical trees

  function CanonPiece(c: char): Piece {
    if c == '"' || c == '\\' then Short(c)
    else if c as int == 8 then Short('b')
    else if c as int == 9 then Short('t')
    else if c as int == 10 then Short('n')
    else if c as int == 12 then Short('f')
    else if c as int == 13 then Short('r')
    else if c as int < 0x20 then Unit("00" + [Digit(c as int / 16), Digit(c as int % 16)])
    else Plain(c)
  }

  lemma CanonPieceExact(c: char)
    ensures LegalPiece(CanonPiece(c)) && PieceChar(CanonPiece(c)) == c && PieceText(CanonPiece(c)) == EscapeChar(c)
  {
    if c as int < 0x20 && c as int !in {8, 9, 10, 12, 13} {
      ControlPiece(c);
    } else {
      hide FourHex, HexNumber, Digit, Hex4;
    }
  }

  lemma ControlPiece(c: char)
    requires c as int < 0x20 && c as int !in {8, 9, 10, 12, 13}
    ensures LegalPiece(CanonPiece(c)) && PieceChar(CanonPiece(c)) == c && PieceText(CanonPiece(c)) == EscapeChar(c)
  {
    ControlHex(c as int);
    hide FourHex, HexNumber, Digit, Hex4;
  }

  lemma ControlHex(n: nat)
    requires n < 0x20
    ensures var h := "00" + [Digit(n / 16), Digit(n % 16)]; h == Hex4(n) && FourHex(h) && HexNumber(h) == n
  {
    HexOfDigit(0);
    HexOfDigit(n / 16);
    HexOfDigit(n % 16);
    var h := "00" + [Digit(n / 16), Digit(n % 16)];
    assert Digit(0) == '0';
    assert h[0] == '0' && h[1] == '0' && h[2] == Digit(n / 16) && h[3] == Digit(n % 16);
    hide IsHex, HexDigit, Digit;
    assert n / 4096 == 0 && n / 256 % 16 == 0 && n / 16 % 16 == n / 16;
  }

  lemma HexOfDigit(d: nat)
    requires d < 16
    ensures IsHex(Digit(d)) && HexDigit(Digit(d)) == d
  {}

  function CanonPieces(s: string): seq<Piece> {
    if |s| == 0 then [] else [CanonPiece(s[0])] + CanonPieces(s[1..])
  }

  lemma {:induction false} CanonPiecesExact(s: string)
    ensures LegalPieces(CanonPieces(s)) && Spelled(CanonPieces(s)) == s && PiecesText(CanonPieces(s)) == Escape(s)
  {
    hide LegalPiece, PieceChar, PieceText, EscapeChar, CanonPiece;
    if |s| > 0 {
      CanonPiecesExact(s[1..]);
      CanonPieceExact(s[0]);
      PiecesCons(CanonPiece(s[0]), CanonPieces(s[1..]));
      assert s == [s[0]] + s[1..];
    }
  }

  lemma {:induction false} PrintNatExact(n: nat)
    ensures LegalDigits(PrintNat(n)) && Numeral(PrintNat(n)) == n
  {
    var d := PrintNat(n);
    if n < 10 {
      assert d == [Digit(n)] && d[..0] == "";
    } else {
      PrintNatExact(n / 10);
      var front := PrintNat(n / 10);
      assert d == front + [Digit(n % 10)] && d[..|d| - 1] == front;
      assert front[0] != '0' && d[0] == front[0];
    }
  }

  /** The tree of canonical text: no white space, shortest escapes, keys in order. */
  ghost function Canon(v: Json): Tree
    requires NoFloats(v)
    decreases v, 1
  {
    match v
    case Int(i) => Whole(i < 0, PrintNat(Distance(i)))
    case Str(s) => Quoted(CanonPieces(s))
    case Arr(es) => List("", CanonItems(es))
    case Obj(m) => Dict("", CanonMembers(v, SortedTexts(m.Keys)))
    case _ => Literal(v)
  }

  ghost function CanonItems(es: seq<Json>): (items: seq<Item>)
    requires forall e | e in es :: NoFloats(e)
    ensures |items| == |es|
    decreases es, 2
  {
    if |es| == 0 then [] else [Item("", Canon(es[0]), "")] + CanonItems(es[1..])
  }

  ghost function CanonMembers(v: Json, ks: seq<string>): (ms: seq<Member>)
    requires v.Obj? && NoFloats(v) && forall k | k in ks :: k in v.fields
    ensures |ms| == |ks|
    decreases v, 0, |ks|
  {
    if |ks| == 0 then []
    else [Member("", CanonPieces(ks[0]), "", Item("", Canon(v.fields[ks[0]]), ""))] + CanonMembers(v, ks[1..])
  }

  /** Canonical text is the text of the canonical tree, which means the value. */
  lemma {:induction false} CanonExact(v: Json)
    requires NoFloats(v)
    ensures Legal(Canon(v)) && Meaning(Canon(v)) == Some(v) && Text(Canon(v)) == Print(v)
    decreases v, 2
  {
    match v
    case Int(i) => CanonInt(i);
    case Str(t) => CanonStr(t);
    case Arr(es) =>
      CanonItemsExact(es);
      CanonList(es, CanonItems(es));
    case Obj(m) => CanonObject(v);
    case _ =>
  }

  function Distance(i: int): nat { if i < 0 then -i else i }

  lemma CanonInt(i: int)
    ensures var t := Whole(i < 0, PrintNat(Distance(i)));
            Legal(t) && Meaning(t) == Some(Int(i)) && Text(t) == Print(Int(i))
  {
    var d := PrintNat(Distance(i));
    PrintNatExact(Distance(i));
    WholeText(i, d);
    hide PrintNat, LegalDigits, Numeral, Text, Print;
    WholeMeaning(i, d);
  }

  lemma WholeMeaning(i: int, d: string)
    requires LegalDigits(d) && Numeral(d) == Distance(i)
    ensures Legal(Whole(i < 0, d)) && Meaning(Whole(i < 0, d)) == Some(Int(i))
  {
    hide LegalDigits, Numeral;
  }

  lemma WholeText(i: int, d: string)
    requires d == PrintNat(Distance(i))
    ensures Text(Whole(i < 0, d)) == Print(Int(i))
  {
    hide PrintNat;
    assert "" + d == d;
  }

  lemma CanonStr(s: string)
    ensures var t := Canon(Str(s)); Legal(t) && Meaning(t) == Some(Str(s)) && Text(t) == Print(Str(s))
  {
    CanonPiecesExact(s);
    hide CanonPieces, LegalPieces, Spelled, PiecesText, Escape;
  }

  lemma CanonList(es: seq<Json>, items: seq<Item>)
    requires LegalItems(items) && Meanings(items) == Some(es) && |items| == |es|
    requires |es| > 0 ==> ItemsText(items) == PrintElems(es)
    ensures var t := List("", items); Legal(t) && Meaning(t) == Some(Arr(es)) && Text(t) == Print(Arr(es))
  {
    hide Meanings, ItemsText, LegalItem;
    if |es| == 0 {
      assert PrintElems(es) == "";
    }
    hide PrintElems;
  }

  lemma BareItem(t: Tree)
    requires Legal(t)
    ensures LegalItem(Item("", t, "")) && ItemText(Item("", t, "")) == Text(t)
  {
    hide Legal, Text;
    ItemParts("", t, "");
    assert "" + Text(t) + "" == Text(t);
  }

  lemma ElemsOf(v: Json, rest: seq<Json>)
    ensures PrintElems([v] + rest) == Print(v) + if |rest| == 0 then "" else "," + PrintElems(rest)
  {
    hide Print;
    assert ([v] + rest)[1..] == rest;
    if |rest| == 0 {
      assert Print(v) + "" == Print(v);
    } else {
      Assoc(Print(v), ",", PrintElems(rest));
    }
  }

  lemma ItemsStep(v: Json, rest: seq<Json>, head: Item, tail: seq<Item>)
    requires LegalItem(head) && LegalItems(tail) && Legal(head.tree) && |tail| == |rest|
    requires Meaning(head.tree) == Some(v) && Meanings(tail) == Some(rest)
    requires ItemText(head) == Print(v) && (|rest| > 0 ==> ItemsText(tail) == PrintElems(rest))
    ensures LegalItems([head] + tail) && Meanings([head] + tail) == Some([v] + rest)
    ensures ItemsText([head] + tail) == PrintElems([v] + rest)
  {
    hide LegalItem, LegalItems, Legal, Meaning, Meanings, ItemText, ItemsText, Print, PrintElems;
    TextOfItems(head, tail);
    MeaningOfItems(head, tail);
    ElemsOf(v, rest);
  }

  lemma {:induction false} CanonItemsExact(es: seq<Json>)
    requires forall e | e in es :: NoFloats(e)
    ensures LegalItems(CanonItems(es)) && Meanings(CanonItems(es)) == Some(es)
    ensures |es| > 0 ==> ItemsText(CanonItems(es)) == PrintElems(es)
    decreases es, 3
  {
    if |es| > 0 {
      CanonExact(es[0]);
      CanonItemsExact(es[1..]);
      var t, tail := Canon(es[0]), CanonItems(es[1..]);
      assert CanonItems(es) == [Item("", t, "")] + tail && es == [es[0]] + es[1..];
      hide Canon, CanonItems, Text, Meaning, Print, PrintElems, Legal, NoFloats,
           Meanings, ItemText, ItemsText, LegalItem, LegalItems;
      BareItem(t);
      ItemsStep(es[0], es[1..], Item("", t, ""), tail);
    }
  }

  lemma {:induction false} CanonObject(v: Json)
    requires v.Obj? && NoFloats(v)
    ensures Legal(Canon(v)) && Meaning(Canon(v)) == Some(v) && Text(Canon(v)) == Print(v)
    decreases v, 1
  {
    hide SortedTexts, StringLe, DistinctKeys, Collect, MemberMeanings, MembersText, LegalMembers, PrintFields;
    var ks := SortedTexts(v.fields.Keys);
    CanonMembersExact(v, ks);
    MembersMeaning(v.fields, ks);
    var ms := CanonMembers(v, ks);
    assert Canon(v) == Dict("", ms);
    hide Members, Canon, CanonMembers, Meaning, Text, Legal, Print, NoFloats;
    LegalDict(ms);
    MeaningDict(ms, Members(v.fields, ks));
    CanonDictText(v, ks, ms);
  }

  lemma LegalDict(ms: seq<Member>)
    requires LegalMembers(ms)
    ensures Legal(Dict("", ms))
  {
    hide LegalMember;
  }

  lemma MeaningDict(ms: seq<Member>, ps: Pairs)
    requires LegalMembers(ms) && Legal(Dict("", ms)) && MemberMeanings(ms) == Some(ps) && DistinctKeys(ps)
    ensures Meaning(Dict("", ms)) == Some(Obj(Collect(ps)))
  {
    hide Legal, LegalMember, MemberMeanings, DistinctKeys, Collect;
  }

  lemma CanonDictText(v: Json, ks: seq<string>, ms: seq<Member>)
    requires v.Obj? && ks == SortedTexts(v.fields.Keys) && |ms| == |ks|
    requires |ks| > 0 ==> MembersText(ms) == PrintFields(v, ks)
    ensures Text(Dict("", ms)) == Print(v)
  {
    hide MembersText, SortedTexts;
    if |ks| == 0 {
      assert PrintFields(v, ks) == "";
    }
    hide PrintFields;
  }

  /** The members in key order, as the decoder's hook receives them. */
  ghost function Members(m: map<string, Json>, ks: seq<string>): Pairs
    requires forall k | k in ks :: k in m
  {
    seq(|ks|, i requires 0 <= i < |ks| => (ks[i], m[ks[i]]))
  }

  lemma MembersMeaning(m: map<string, Json>, ks: seq<string>)
    requires forall i, j | 0 <= i < j < |ks| :: ks[i] != ks[j]
    requires forall k :: k in ks <==> k in m
    ensures DistinctKeys(Members(m, ks)) && Collect(Members(m, ks)) == m
  {
    var ps := Members(m, ks);
    assert DistinctKeys(ps);
    forall k ensures HasKey(ps, k) <==> k in m {
      if k in m {
        var i :| 0 <= i < |ks| && ks[i] == k;
        assert ps[i].0 == k;
      }
    }
    forall k | k in m ensures ValueAt(ps, k) == m[k] {
      var i :| 0 <= i < |ps| && ps[i].0 == k && ValueAt(ps, k) == ps[i].1;
    }
    forall k ensures k in Collect(ps) <==> HasKey(ps, k) {}
    hide ValueAt, HasKey, Members;
    assert Collect(ps).Keys == m.Keys;
  }

  lemma {:induction false} CanonMembersExact(v: Json, ks: seq<string>)
    requires v.Obj? && NoFloats(v) && forall k | k in ks :: k in v.fields
    ensures LegalMembers(CanonMembers(v, ks)) && MemberMeanings(CanonMembers(v, ks)) == Some(Members(v.fields, ks))
    ensures |ks| > 0 ==> MembersText(CanonMembers(v, ks)) == PrintFields(v, ks)
    decreases v, 0, |ks|
  {
    if |ks| > 0 {
      var k := ks[0];
      CanonExact(v.fields[k]);
      CanonPiecesExact(k);
      CanonMembersExact(v, ks[1..]);
      MembersHead(v.fields, ks);
      var head := Member("", CanonPieces(k), "", Item("", Canon(v.fields[k]), ""));
      var tail := CanonMembers(v, ks[1..]);
      assert CanonMembers(v, ks) == [head] + tail;
      CanonMember(v, k);
      hide Canon, CanonMembers, CanonPieces, Text, Meaning, Legal, LegalPieces, Spelled, NoFloats;
      assert LegalItem(head.item) && LegalMember(head);
      TextOfMembers(head, tail);
      MeaningOfMembers(head, tail);
      hide MemberMeanings, MemberText, MembersText, Members, LegalMember, LegalMembers, LegalItem, PrintField;
      if |ks| == 1 {
        assert ks[1..] == [] && PrintField(v, k) + "" == PrintField(v, k);
      } else {
        Assoc(PrintField(v, k), ",", PrintFields(v, ks[1..]));
      }
    }
  }

  lemma MembersHead(m: map<string, Json>, ks: seq<string>)
    requires |ks| > 0 && forall k | k in ks :: k in m
    ensures Members(m, ks) == [(ks[0], m[ks[0]])] + Members(m, ks[1..])
  {}

  lemma CanonMember(v: Json, k: string)
    requires v.Obj? && NoFloats(v) && k in v.fields
    requires Text(Canon(v.fields[k])) == Print(v.fields[k]) && PiecesText(CanonPieces(k)) == Escape(k)
    ensures MemberText(Member("", CanonPieces(k), "", Item("", Canon(v.fields[k]), ""))) == PrintField(v, k)
  {
    var p, e := Print(v.fields[k]), Escape(k);
    hide Print, Escape, Text, Canon, CanonPieces, PiecesText, NoFloats;
    var m := Member("", CanonPieces(k), "", Item("", Canon(v.fields[k]), ""));
    assert ItemText(m.item) == p by {
      assert "" + p + "" == p;
    }
    hide ItemText;
    BareKey(e, p);
  }

  lemma BareKey(e: string, p: string)
    ensures "" + "\"" + e + "\"" + "" + ":" + p == "\"" + e + "\"" + ":" + p
  {}

  // ------------------------------------------------------------- the round trip

  /** Printed text is read back, up to where it ends. */
  lemma ParsePrint(v: Json, rest: string)
    requires NoFloats(v) && EndsNumber(rest)
    ensures ParseValue(Print(v) + rest) == Ok(v, rest)
  {
    CanonExact(v);
    hide Canon, Text, Meaning, Legal, Print, ParseValue;
    ReadTree(Canon(v), rest);
  }

  /** Canonical text spells its value. */
  lemma PrintSpells(v: Json)
    requires NoFloats(v)
    ensures Spells(Print(v), v)
  {
    CanonExact(v);
    BareItem(Canon(v));
    hide Canon, Text, Meaning, Legal, Print, NoFloats, LegalItem, ItemText;
    var item := Item("", Canon(v), "");
    assert ItemText(item) == Print(v);
  }

  /** Decoding canonical bytes gives the value back, exactly when they fit the size limit. */
  lemma DecodeCanonical(v: Json)
    requires JsonValue(v, 0)
    ensures Decode(Canonical(v).value) == if |Canonical(v).value| <= MAX_BYTES then Some(v) else None
  {
    JsonValueNoFloats(v, 0);
    PrintSpells(v);
    hide Print, JsonValue, Spells, Utf8.Encode;
    DecodeExact(Canonical(v).value, v);
  }

  /** Comparing canonical bytes is comparing values: maps as maps, bool apart from int. */
  lemma CanonicalInjective(v: Json, w: Json)
    requires JsonValue(v, 0) && JsonValue(w, 0)
    ensures Canonical(v) == Canonical(w) <==> v == w
  {
    if Canonical(v) == Canonical(w) {
      JsonValueNoFloats(v, 0);
      JsonValueNoFloats(w, 0);
      PrintSpells(v);
      PrintSpells(w);
      Utf8.DecodeEncode(Print(v));
      Utf8.DecodeEncode(Print(w));
      hide Print, JsonValue, Spells, Utf8.Encode, Utf8.Decode, ParseText;
      ParseTextExact(Print(v), v);
      ParseTextExact(Print(w), w);
    }
  }
}
