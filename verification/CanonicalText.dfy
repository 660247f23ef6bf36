/** What canonical JSON looks like, said without its printer: the text decodes and loads as a tree with keys in
    code-point order at every depth that means the same, and it has no blank outside its strings. */
module CanonicalText {
  import opened PyText
  import opened Utf8
  import opened JsonText
  import opened JsonScan
  import opened CanonicalJson
  import JsonRoundTrip

  // ----- keys in order -----

  /** Every object in the tree lists its members in the code-point order of their keys. */
  ghost predicate KeysAscend(v: Json) {
    match v
    case Arr(items) => forall i :: 0 <= i < |items| ==> KeysAscend(items[i])
    case Obj(ms) =>
      && (forall i, j :: 0 <= i < j < |ms| ==> Precedes(ms[i].key, ms[j].key))
      && forall i :: 0 <= i < |ms| ==> KeysAscend(ms[i].value)
    case _ => true
  }

  lemma {:induction false} CanonKeysAscend(v: Json)
    requires IsDict(v)
    ensures KeysAscend(Canon(v))
    decreases v
  {
    hide Precedes, Less;
    match v
    case Arr(items) =>
      forall i | 0 <= i < |items| ensures KeysAscend(CanonItems(items)[i]) {
        ItemAt(items, i);
        CanonKeysAscend(items[i]);
      }
    case Obj(ms) =>
      forall x | x in CanonMembers(ms) ensures KeysAscend(x.value) {
        var i :| 0 <= i < |ms| && CanonMembers(ms)[i] == x;
        CanonMemberAt(ms, i);
        CanonKeysAscend(ms[i].value);
      }
      assert UniqueKeys(CanonMembers(ms));
      SortedAscends(CanonMembers(ms));
    case _ =>
  }

  lemma SortedAscends(ms: seq<Member>)
    requires UniqueKeys(ms) && forall x :: x in ms ==> KeysAscend(x.value)
    ensures KeysAscend(Obj(SortByKey(ms)))
  {
    hide Precedes, Less;
    var sorted := SortByKey(ms);
    forall i, j | 0 <= i < j < |sorted| ensures Precedes(sorted[i].key, sorted[j].key) {
      LessIsPrecedes(sorted[i].key, sorted[j].key);
    }
    assert forall i :: 0 <= i < |sorted| ==> sorted[i] in sorted;
  }

  // ----- no blank outside strings -----

  /** Scanning the text from this mode, no white space is met outside a string. */
  predicate Tight(m: Mode, s: string)
    decreases |s|
  {
    s == "" || ((m.Out? ==> !IsWs(s[0])) && Tight(Step(m, s[0], 0), s[1..]))
  }

  lemma {:induction false} TightConcat(m: Mode, a: string, b: string)
    ensures Tight(m, a + b) <==> Tight(m, a) && Tight(Scan(m, a, 0), b)
    decreases |a|
  {
    if a == "" {
      assert a + b == b;
    } else {
      assert (a + b)[1..] == a[1..] + b;
      TightConcat(Step(m, a[0], 0), a[1..], b);
    }
  }

  lemma EscapeCharInside(c: char, d: int)
    ensures Tight(In(d), EscapeChar(c)) && Scan(In(d), EscapeChar(c), 0) == In(d)
  {
    var e := EscapeChar(c);
    if |e| == 1 {
      assert e[1..] == "";
    } else if |e| == 2 {
      assert e[1..][1..] == "" && Step(In(d), e[0], 0) == Esc(d);
      assert Scan(Esc(d), e[1..], 0) == Scan(In(d), e[1..][1..], 0);
    } else {
      assert e == ['\\', 'u', '0', '0', e[4], e[5]];
      assert e[1..] == ['u', '0', '0', e[4], e[5]];
      PlainInside(e[2..], d);
      assert e[1..][1..] == e[2..];
    }
  }

  lemma {:induction false} PlainInside(s: string, d: int)
    requires forall i :: 0 <= i < |s| ==> s[i] != '\"' && s[i] != '\\'
    ensures Tight(In(d), s) && Scan(In(d), s, 0) == In(d)
  {
    if s != "" { PlainInside(s[1..], d); }
  }

  lemma {:induction false} EscapeInside(s: string, d: int)
    ensures Tight(In(d), Escape(s)) && Scan(In(d), Escape(s), 0) == In(d)
  {
    hide EscapeChar;
    if s != "" {
      EscapeCharInside(s[0], d);
      EscapeInside(s[1..], d);
      TightConcat(In(d), EscapeChar(s[0]), Escape(s[1..]));
      ScanConcat(In(d), EscapeChar(s[0]), Escape(s[1..]), 0);
    }
  }

  lemma QuoteTight(s: string, d: nat)
    ensures Tight(Out(d), Quote(s)) && Scan(Out(d), Quote(s), 0) == Out(d)
  {
    hide Escape;
    var q := Quote(s);
    EscapeInside(s, d);
    TightConcat(In(d), Escape(s), "\"");
    ScanConcat(In(d), Escape(s), "\"", 0);
    assert q[1..] == Escape(s) + "\"" && "\""[1..] == "";
    assert Tight(In(d), "\"") && Scan(In(d), "\"", 0) == Out(d);
  }

  lemma {:induction false} WordTight(s: string, d: nat)
    requires forall i :: 0 <= i < |s| ==> !IsWs(s[i]) && Step(Out(d), s[i], 0) == Out(d)
    ensures Tight(Out(d), s) && Scan(Out(d), s, 0) == Out(d)
  {
    if s != "" { WordTight(s[1..], d); }
  }

  /** One character that is no blank, and the mode it leads to. */
  lemma CharTight(c: char, d: nat)
    requires !IsWs(c)
    ensures Tight(Out(d), [c]) && Scan(Out(d), [c], 0) == Step(Out(d), c, 0)
  {
    assert [c][1..] == "";
  }

  /** Texts one after the other: from this depth through the first to a depth, and on through the second. */
  lemma Through(a: string, b: string, d: nat, e: nat, f: nat)
    requires Tight(Out(d), a) && Scan(Out(d), a, 0) == Out(e)
    requires Tight(Out(e), b) && Scan(Out(e), b, 0) == Out(f)
    ensures Tight(Out(d), a + b) && Scan(Out(d), a + b, 0) == Out(f)
  {
    TightConcat(Out(d), a, b);
    ScanConcat(Out(d), a, b, 0);
  }

  lemma LiteralTight(v: Json, d: nat)
    requires v.Null? || v.Bool? || v.Int?
    ensures Tight(Out(d), Print(v, Compact)) && Scan(Out(d), Print(v, Compact), 0) == Out(d)
  {
    hide Tight, Scan;
    if v.Int? && v.n < 0 { assert Decimal(v.n) == "-" + Digits(-v.n); }
    WordTight(Print(v, Compact), d);
  }

  lemma {:induction false} PrintTight(v: Json, d: nat)
    ensures Tight(Out(d), Print(v, Compact)) && Scan(Out(d), Print(v, Compact), 0) == Out(d)
    decreases v, 0
  {
    hide Tight, Scan, PrintItems, PrintMembers, Quote, Decimal;
    match v
    case Str(s) => QuoteTight(s, d);
    case Arr(items) =>
      ItemsTight(items, d + 1);
      CharTight('[', d);
      CharTight(']', d + 1);
      Through(PrintItems(items, Compact), "]", d + 1, d + 1, d);
      Through("[", PrintItems(items, Compact) + "]", d, d + 1, d);
    case Obj(ms) =>
      MembersTight(ms, d + 1);
      CharTight('{', d);
      CharTight('}', d + 1);
      Through(PrintMembers(ms, Compact), "}", d + 1, d + 1, d);
      Through("{", PrintMembers(ms, Compact) + "}", d, d + 1, d);
    case _ => LiteralTight(v, d);
  }

  lemma {:induction false} ItemsTight(items: seq<Json>, d: nat)
    ensures Tight(Out(d), PrintItems(items, Compact)) && Scan(Out(d), PrintItems(items, Compact), 0) == Out(d)
    decreases items, 1
  {
    hide Tight, Scan, Print;
    if items == [] {
      WordTight("", d);
    } else {
      PrintTight(items[0], d);
      if |items| > 1 {
        ItemsTight(items[1..], d);
        CharTight(',', d);
        Through(",", PrintItems(items[1..], Compact), d, d, d);
        Through(Print(items[0], Compact), "," + PrintItems(items[1..], Compact), d, d, d);
      }
    }
  }

  lemma {:induction false} MembersTight(ms: seq<Member>, d: nat)
    ensures Tight(Out(d), PrintMembers(ms, Compact)) && Scan(Out(d), PrintMembers(ms, Compact), 0) == Out(d)
    decreases ms, 1
  {
    hide Tight, Scan, Print, Quote;
    if ms == [] {
      WordTight("", d);
    } else {
      var m := ms[0];
      QuoteTight(m.key, d);
      PrintTight(m.value, d);
      CharTight(':', d);
      Through(":", Print(m.value, Compact), d, d, d);
      Through(Quote(m.key), ":" + Print(m.value, Compact), d, d, d);
      if |ms| > 1 {
        MembersTight(ms[1..], d);
        CharTight(',', d);
        Through(",", PrintMembers(ms[1..], Compact), d, d, d);
        Through(PrintMember(m, Compact), "," + PrintMembers(ms[1..], Compact), d, d, d);
      }
    }
  }

  // ----- canonical bytes -----

  /** Canonical bytes decode to a text without blanks outside strings, which loads as a tree with its keys in
      code-point order at every depth that means the same as the value. */
  lemma CanonicalForm(v: Json)
    requires IsDict(v)
    ensures var text := Decode(CanonicalBytes(v));
            && text.Some? && Tight(Out(0), text.value) && Loads(text.value).Some?
            && KeysAscend(Loads(text.value).value) && Meaning(Loads(text.value).value) == Meaning(v)
  {
    hide Canon, Meaning, Print, IsDict, Loads, Tight, KeysAscend;
    RoundTrip(Print(Canon(v), Compact));
    CanonKeepsMeaning(v);
    JsonRoundTrip.RoundTrip(Canon(v), Compact);
    CanonKeysAscend(v);
    PrintTight(Canon(v), 0);
  }

  // ----- escapes and separators -----

  /** Printable text without quotes and backslashes prints as itself between quotes. */
  lemma {:induction false} PlainTextPrintsAsItself(s: string)
    requires forall i :: 0 <= i < |s| ==> s[i] as int >= 32 && s[i] != '\"' && s[i] != '\\'
    ensures Escape(s) == s && Quote(s) == "\"" + (s + "\"")
  {
    if s != "" {
      PlainTextPrintsAsItself(s[1..]);
      assert [s[0]] + s[1..] == s;
    }
  }

  /** The other characters: the short escapes of section 7 of RFC 8259 where json.dumps uses them, and four
      lower-case hex digits for the remaining control characters. */
  lemma EscapedCharacters(c: char)
    ensures EscapeChar('\"') == "\\\"" && EscapeChar('\\') == "\\\\"
    ensures EscapeChar('\n') == "\\n" && EscapeChar('\r') == "\\r" && EscapeChar('\t') == "\\t"
    ensures EscapeChar(8 as char) == "\\b" && EscapeChar(12 as char) == "\\f"
    ensures c as int < 32 && c as int !in {8, 9, 10, 12, 13} ==>
              var e := EscapeChar(c);
              && |e| == 6 && e[..4] == "\\u00"
              && HexValue(e[4]).Some? && HexValue(e[5]).Some? && !('A' <= e[5] <= 'F')
              && c as int == HexValue(e[4]).value * 16 + HexValue(e[5]).value
  {
  }

  lemma SmallNumbers(st: Style)
    ensures Print(Int(1), st) == "1" && Print(Int(2), st) == "2" && Print(Int(3), st) == "3"
  {
  }

  lemma ListPrinted(st: Style)
    ensures PrintItems([Int(2), Int(3)], st) == "2" + (ItemSep(st) + "3")
  {
    hide ItemSep, Print;
    SmallNumbers(st);
    var list := [Int(2), Int(3)];
    assert list[1..] == [Int(3)] && PrintItems([Int(3)], st) == Print(Int(3), st);
  }

  lemma MembersPrinted(a: Member, b: Member, st: Style)
    ensures PrintMembers([a, b], st) == PrintMember(a, st) + (ItemSep(st) + PrintMember(b, st))
  {
    hide ItemSep, PrintMember;
    assert [a, b][1..] == [b] && PrintMembers([b], st) == PrintMember(b, st);
  }

  /** Members whose keys are "a" and "b", in either style. */
  lemma MemberPrinted(v: Json, st: Style)
    ensures PrintMember(Member("a", v), st) == "\"a\"" + (KeySep(st) + Print(v, st))
    ensures PrintMember(Member("b", v), st) == "\"b\"" + (KeySep(st) + Print(v, st))
  {
    hide KeySep, Print, Quote;
    PlainTextPrintsAsItself("a");
    PlainTextPrintsAsItself("b");
    assert "\"" + ("a" + "\"") == "\"a\"" && "\"" + ("b" + "\"") == "\"b\"";
  }

  /** An object and a list in either style, by its two separators. */
  lemma ObjectPrinted(st: Style)
    ensures var list := "[" + (("2" + (ItemSep(st) + "3")) + "]");
            Print(Obj([Member("a", Int(1)), Member("b", Arr([Int(2), Int(3)]))]), st) ==
            "{" + ((("\"a\"" + (KeySep(st) + "1")) + (ItemSep(st) + ("\"b\"" + (KeySep(st) + list)))) + "}")
  {
    hide PrintMembers, PrintItems, PrintMember, ItemSep, KeySep, Quote, Decimal;
    var list := Arr([Int(2), Int(3)]);
    SmallNumbers(st);
    ListPrinted(st);
    MemberPrinted(Int(1), st);
    MemberPrinted(list, st);
    MembersPrinted(Member("a", Int(1)), Member("b", list), st);
  }

  /** The two separator styles on one object. */
  lemma SeparatorExamples()
    ensures var v := Obj([Member("a", Int(1)), Member("b", Arr([Int(2), Int(3)]))]);
            && Print(v, Compact) == "{\"a\":1,\"b\":[2,3]}"
            && Print(v, Spaced) == "{\"a\": 1, \"b\": [2, 3]}"
  {
    hide Print;
    ObjectPrinted(Compact);
    ObjectPrinted(Spaced);
  }
}
