/** Canonical text, character by character: key order, separators, and which characters are escaped. */
module JsonText {
  import opened Json
  import opened Orders

  /** Parts with a comma between neighbours. */
  function Joined(parts: seq<string>): string {
    if |parts| == 0 then ""
    else if |parts| == 1 then parts[0]
    else Joined(parts[..|parts| - 1]) + "," + parts[|parts| - 1]
  }

  lemma {:induction false} JoinedFront(head: string, tail: seq<string>)
    requires |tail| > 0
    ensures Joined([head] + tail) == head + "," + Joined(tail)
  {
    var parts, n := [head] + tail, |tail|;
    assert parts[..n] == [head] + tail[..n - 1] && parts[n] == tail[n - 1];
    if n > 1 {
      JoinedFront(head, tail[..n - 1]);
    } else {
      assert tail[..0] == [] && [head] + [] == [head];
    }
  }

  function Printed(es: seq<Json>): seq<string> { seq(|es|, i requires 0 <= i < |es| => Print(es[i])) }

  function PrintedFields(m: map<string, Json>, ks: seq<string>): seq<string>
    requires forall k | k in ks :: k in m
  {
    seq(|ks|, i requires 0 <= i < |ks| => Quote(ks[i]) + ":" + Print(m[ks[i]]))
  }

  /** A list: its elements in order, commas between them, and nothing else. */
  lemma {:induction false} PrintedList(es: seq<Json>)
    ensures Print(Arr(es)) == "[" + Joined(Printed(es)) + "]"
  {
    ElemsJoined(es);
  }

  lemma {:induction false} ElemsJoined(es: seq<Json>)
    ensures PrintElems(es) == Joined(Printed(es))
  {
    hide Print;
    if |es| > 1 {
      ElemsJoined(es[1..]);
      assert Printed(es) == [Print(es[0])] + Printed(es[1..]);
      JoinedFront(Print(es[0]), Printed(es[1..]));
    }
  }

  lemma {:induction false} FieldsJoined(v: Json, ks: seq<string>)
    requires v.Obj? && forall k | k in ks :: k in v.fields
    ensures PrintFields(v, ks) == Joined(PrintedFields(v.fields, ks))
  {
    hide Print, Quote;
    if |ks| > 1 {
      FieldsJoined(v, ks[1..]);
      assert PrintedFields(v.fields, ks) == [PrintField(v, ks[0])] + PrintedFields(v.fields, ks[1..]);
      JoinedFront(PrintField(v, ks[0]), PrintedFields(v.fields, ks[1..]));
    }
  }

  /** Code-point order: a proper prefix comes first, and otherwise the first difference decides. */
  ghost predicate Before(a: string, b: string) {
    || (|a| < |b| && b[..|a|] == a)
    || exists k :: FirstDifference(a, b, k) && (a[k] as int) < b[k] as int
  }

  ghost predicate FirstDifference(a: string, b: string, k: int) {
    0 <= k < |a| && k < |b| && (forall i | 0 <= i < k :: a[i] == b[i]) && a[k] != b[k]
  }

  lemma {:induction false} StringLeExact(a: string, b: string)
    ensures StringLe(a, b) <==> a == b || Before(a, b)
  {
    if |a| > 0 && |b| > 0 {
      if a[0] == b[0] {
        StringLeExact(a[1..], b[1..]);
        BeforeTail(a, b);
        assert a == [a[0]] + a[1..] && b == [b[0]] + b[1..];
      } else {
        assert FirstDifference(a, b, 0);
        forall k | FirstDifference(a, b, k) ensures k == 0 {}
        assert |a| < |b| ==> b[..|a|][0] == b[0];
      }
    } else if |a| == 0 && |b| > 0 {
      assert b[..0] == a;
    }
  }

  lemma BeforeTail(a: string, b: string)
    requires |a| > 0 && |b| > 0 && a[0] == b[0]
    ensures Before(a, b) <==> Before(a[1..], b[1..])
  {
    var s, t := a[1..], b[1..];
    assert a == [a[0]] + s && b == [b[0]] + t;
    if |a| < |b| {
      assert b[..|a|] == [b[0]] + t[..|s|];
      if b[..|a|] == a {
        assert t[..|s|] == b[..|a|][1..] == s;
      }
    }
    forall k | FirstDifference(a, b, k) ensures k > 0 && FirstDifference(s, t, k - 1) {
      assert forall i | 0 <= i < k - 1 :: s[i] == a[i + 1] && t[i] == b[i + 1];
    }
    forall k | FirstDifference(s, t, k) ensures FirstDifference(a, b, k + 1) {
      assert forall i | 0 < i < k + 1 :: s[i - 1] == a[i] && t[i - 1] == b[i];
    }
    if Before(a, b) && !(|a| < |b| && b[..|a|] == a) {
      var k :| FirstDifference(a, b, k) && (a[k] as int) < b[k] as int;
      assert FirstDifference(s, t, k - 1);
    }
    if Before(s, t) && !(|s| < |t| && t[..|s|] == s) {
      var k :| FirstDifference(s, t, k) && (s[k] as int) < t[k] as int;
      assert FirstDifference(a, b, k + 1);
    }
  }

  /** Every key of the object once, in code-point order. */
  ghost predicate KeysInOrder(ks: seq<string>, m: map<string, Json>) {
    && (forall k :: k in ks <==> k in m)
    && (forall i, j | 0 <= i < j < |ks| :: Before(ks[i], ks[j]))
  }

  /** An object: its members in code-point order of their keys, no space anywhere between them. */
  lemma PrintedObject(m: map<string, Json>)
    ensures exists ks :: KeysInOrder(ks, m) && Print(Obj(m)) == "{" + Joined(PrintedFields(m, ks)) + "}"
  {
    hide StringLe, Before, PrintFields, PrintedFields, Joined;
    var ks := SortedTexts(m.Keys);
    forall i, j | 0 <= i < j < |ks| ensures Before(ks[i], ks[j]) {
      StringLeExact(ks[i], ks[j]);
    }
    FieldsJoined(Obj(m), ks);
    assert KeysInOrder(ks, m);
    assert Print(Obj(m)) == "{" + PrintFields(Obj(m), ks) + "}";
  }

  /** The characters that need it are escaped, by the short form if they have one; any other stands for itself. */
  lemma EscapeExact(c: char)
    ensures EscapeChar(c) == [c] <==> c != '"' && c != '\\' && c as int >= 0x20
    ensures c == '"' || c == '\\' ==> EscapeChar(c) == ['\\', c]
    ensures c == '\t' ==> EscapeChar(c) == ['\\', 't']
    ensures c == '\n' ==> EscapeChar(c) == ['\\', 'n']
    ensures c == '\r' ==> EscapeChar(c) == ['\\', 'r']
    ensures c as int == 8 ==> EscapeChar(c) == ['\\', 'b']
    ensures c as int == 12 ==> EscapeChar(c) == ['\\', 'f']
  {
    if c as int < 0x20 && c as int !in {8, 9, 10, 12, 13} {
      ControlEscape(c);
    }
    hide Hex4, Digit;
  }

  /** The other control characters: four lower-case hexadecimal digits. */
  lemma ControlEscape(c: char)
    requires c as int < 0x20 && c as int !in {8, 9, 10, 12, 13}
    ensures EscapeChar(c)
            == ['\\', 'u', '0', '0', if c as int < 16 then '0' else '1', "0123456789abcdef"[c as int % 16]]
  {
    var n := c as int;
    assert Digit(0) == '0' && Digit(1) == '1';
    assert Hex4(n) == [Digit(0), Digit(0), Digit(n / 16), Digit(n % 16)];
  }

  /** A string is written character by character, between quotes. */
  lemma {:induction false} EscapeAppend(s: string, t: string)
    ensures Escape(s + t) == Escape(s) + Escape(t)
  {
    hide EscapeChar;
    if |s| == 0 {
      assert s + t == t;
    } else {
      EscapeAppend(s[1..], t);
      assert (s + t)[1..] == s[1..] + t && (s + t)[0] == s[0];
      assert Escape(s + t) == EscapeChar(s[0]) + Escape(s[1..] + t);
      assert Escape(s) == EscapeChar(s[0]) + Escape(s[1..]);
      hide Escape;
    }
  }

  lemma QuoteExact(c: char, s: string)
    ensures Print(Str(s)) == ['"'] + Escape(s) + ['"']
    ensures Escape([c]) == EscapeChar(c)
  {
    hide EscapeChar;
    assert [c][1..] == "" && Escape("") == "";
  }

  /** An integer: a minus sign exactly for negative numbers, and decimal digits without a leading zero. */
  lemma PrintedInt(i: int)
    ensures PrintInt(i)[0] == '-' <==> i < 0
    ensures i < 0 ==> PrintInt(i) == "-" + PrintInt(-i)
    ensures i >= 0 ==> forall c | c in PrintInt(i) :: '0' <= c <= '9'
    ensures i > 0 ==> PrintInt(i)[0] != '0'
    ensures PrintInt(0) == "0"
  {
    if i >= 0 {
      assert PrintInt(i)[0] in PrintInt(i);
    }
  }
}
