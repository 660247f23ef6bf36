/** json.loads undoes json.dumps, for both separator styles and in front of any further text. */
module JsonRoundTrip {
  import opened PyText
  import opened JsonText

  // ----- strings -----

  lemma EscapeStep(c: char, rest: string)
    ensures ParseString(EscapeChar(c) + rest) ==
            match ParseString(rest) case None => None case Some((t, end)) => Some(([c] + t, end))
  {
    var e := EscapeChar(c);
    var s := e + rest;
    assert forall i :: 0 <= i < |e| ==> s[i] == e[i];
    assert s[|e|..] == rest;
    if e[0] == '\\' {
      assert ParseEscape(s) == Some((c, |e|)) by {
        if |e| == 6 { assert c as int < 32; }
      }
    }
  }

  lemma {:induction false} StringRoundTrip(t: string, rest: string)
    ensures ParseString(Escape(t) + ("\"" + rest)) == Some((t, rest))
  {
    hide EscapeChar, ParseEscape;
    if t == "" {
      assert Escape(t) + ("\"" + rest) == "\"" + rest;
      assert ("\"" + rest)[1..] == rest;
    } else {
      StringRoundTrip(t[1..], rest);
      EscapeStep(t[0], Escape(t[1..]) + ("\"" + rest));
      assert Escape(t) + ("\"" + rest) == EscapeChar(t[0]) + (Escape(t[1..]) + ("\"" + rest));
      assert [t[0]] + t[1..] == t;
    }
  }

  lemma QuoteRoundTrip(t: string, rest: string)
    ensures Quote(t) + rest != "" && (Quote(t) + rest)[0] == '\"'
    ensures ParseString((Quote(t) + rest)[1..]) == Some((t, rest))
  {
    hide ParseString, Escape;
    StringRoundTrip(t, rest);
    assert (Quote(t) + rest)[1..] == Escape(t) + ("\"" + rest);
  }

  // ----- numbers -----

  predicate StartsWithDigit(s: string) { s != "" && IsDigit(s[0]) }

  lemma {:induction false} DigitSpanExact(d: string, rest: string)
    requires AllDigits(d) && !StartsWithDigit(rest)
    ensures DigitSpan(d + rest) == |d|
  {
    if d == "" {
      assert d + rest == rest;
    } else {
      DigitSpanExact(d[1..], rest);
      assert (d + rest)[1..] == d[1..] + rest;
    }
  }

  lemma DigitsParse(m: nat, rest: string)
    requires !StartsWithDigit(rest)
    ensures var body := Digits(m) + rest;
            && body != "" && IsDigit(body[0])
            && var k := if body[0] == '0' then 1 else DigitSpan(body);
               && k == |Digits(m)| && body[..k] == Digits(m) && body[k..] == rest
               && DigitsValue(body[..k]) == m
  {
    hide Digits, DigitsValue;
    DigitsRoundTrip(m);
    DigitSpanExact(Digits(m), rest);
    var body := Digits(m) + rest;
    assert body[0] == Digits(m)[0];
    assert body[..|Digits(m)|] == Digits(m) && body[|Digits(m)|..] == rest;
  }

  lemma NumberRoundTrip(n: int, rest: string)
    requires !StartsWithDigit(rest)
    ensures ParseNumber(Decimal(n) + rest) == Some((Int(n), rest))
  {
    hide Digits, DigitsValue, DigitSpan;
    var s := Decimal(n) + rest;
    if n < 0 {
      assert s[1..] == Digits(-n) + rest;
      DigitsParse(-n, rest);
    } else {
      assert s[0..] == Digits(n) + rest;
      assert s[0] == Digits(n)[0] && IsDigit(s[0]);
      DigitsParse(n, rest);
    }
  }

  // ----- values -----

  /** A printed value never starts with white space, a bracket that closes, or a separator. */
  lemma PrintStart(v: Json, st: Style)
    ensures Print(v, st) != ""
    ensures var c := Print(v, st)[0]; !IsWs(c) && c != ']' && c != '}' && c != ',' && c != ':'
  {
    if v.Int? && v.n >= 0 {
      assert IsDigit(Print(v, st)[0]);
    }
  }

  lemma {:induction false} ValueRoundTrip(v: Json, st: Style, rest: string)
    requires IsDict(v) && (v.Int? ==> !StartsWithDigit(rest))
    ensures ParseValue(Print(v, st) + rest) == Some((v, rest))
    decreases v, 0
  {
    hide ParseString, ParseNumber, ParseItems, ParseMembers, Escape, Decimal, DictOf;
    var s := Print(v, st) + rest;
    match v {
      case Null => assert s[4..] == rest;
      case Bool(b) => assert s[if b then 4 else 5..] == rest;
      case Int(n) =>
        IntStart(n, rest);
        NumberRoundTrip(n, rest);
      case Str(t) => QuoteRoundTrip(t, rest);
      case Arr(items) =>
        if items != [] { ItemsRoundTrip(items, st, rest); }
        BracketRoundTrip(items, st, rest);
      case Obj(ms) =>
        if ms != [] { MembersRoundTrip(ms, st, rest); }
        BraceRoundTrip(ms, st, rest);
    }
  }

  /** How the parser reads behind an opening bracket. */
  lemma Opened(s: string)
    requires s != "" && (s[0] == '[' || s[0] == '{')
    ensures var t := SkipWs(s[1..]);
            ParseValue(s) ==
            if s[0] == '{' then
              if t != "" && t[0] == '}' then Some((Obj([]), t[1..]))
              else match ParseMembers(t) case None => None case Some((ms, rest)) => Some((Obj(DictOf(ms)), rest))
            else
              if t != "" && t[0] == ']' then Some((Arr([]), t[1..]))
              else match ParseItems(t) case None => None case Some((vs, rest)) => Some((Arr(vs), rest))
  {
    hide ParseString, ParseNumber, ParseItems, ParseMembers, DictOf, SkipWs;
  }

  lemma BracketRoundTrip(items: seq<Json>, st: Style, rest: string)
    requires items != [] ==> ParseItems(PrintItems(items, st) + ("]" + rest)) == Some((items, rest))
    ensures ParseValue(Print(Arr(items), st) + rest) == Some((Arr(items), rest))
  {
    hide ParseValue, ParseItems, PrintItems, SkipWs;
    var s := Print(Arr(items), st) + rest;
    var body := PrintItems(items, st) + ("]" + rest);
    assert s[1..] == body && s[0] == '[';
    Opened(s);
    if items == [] {
      EmptyPrints(items, [], st);
      assert body == "]" + rest && body[0] == ']' && body[1..] == rest;
      assert SkipWs(body) == body;
    } else {
      ItemsStart(items, st);
      assert body[0] == PrintItems(items, st)[0];
    }
  }

  lemma EmptyPrints(items: seq<Json>, ms: seq<Member>, st: Style)
    ensures items == [] ==> PrintItems(items, st) == "" && Arr(items) == Arr([])
    ensures ms == [] ==> PrintMembers(ms, st) == "" && Obj(ms) == Obj([])
  {
  }

  lemma BraceRoundTrip(ms: seq<Member>, st: Style, rest: string)
    requires UniqueKeys(ms)
    requires ms != [] ==> ParseMembers(PrintMembers(ms, st) + ("}" + rest)) == Some((ms, rest))
    ensures ParseValue(Print(Obj(ms), st) + rest) == Some((Obj(ms), rest))
  {
    hide ParseValue, ParseMembers, PrintMembers, SkipWs, DictOf, UniqueKeys;
    var s := Print(Obj(ms), st) + rest;
    var body := PrintMembers(ms, st) + ("}" + rest);
    assert s[1..] == body && s[0] == '{';
    Opened(s);
    if ms == [] {
      EmptyPrints([], ms, st);
      assert body == "}" + rest && body[0] == '}' && body[1..] == rest;
      assert SkipWs(body) == body;
      assert ParseValue(s) == Some((Obj([]), rest));
    } else {
      MembersStart(ms, st);
      assert body[0] == '\"';
      DictOfUnique(ms);
    }
  }

  lemma IntStart(n: int, rest: string)
    ensures var s := Decimal(n) + rest;
            s != "" && (IsDigit(s[0]) || s[0] == '-')
    ensures ParseValue(Decimal(n) + rest) == ParseNumber(Decimal(n) + rest)
  {
    hide ParseNumber, ParseItems, ParseMembers;
    var s := Decimal(n) + rest;
    assert s[0] == Decimal(n)[0];
    assert !("null" <= s) by { assert "null"[0] == 'n'; }
    assert !("true" <= s) by { assert "true"[0] == 't'; }
    assert !("false" <= s) by { assert "false"[0] == 'f'; }
  }

  lemma ItemsStart(items: seq<Json>, st: Style)
    requires items != []
    ensures PrintItems(items, st) != ""
    ensures var c := PrintItems(items, st)[0]; !IsWs(c) && c != ']'
  {
    PrintStart(items[0], st);
  }

  lemma MembersStart(ms: seq<Member>, st: Style)
    requires ms != []
    ensures PrintMembers(ms, st) != "" && PrintMembers(ms, st)[0] == '\"'
  {
    assert PrintMember(ms[0], st)[0] == '\"';
  }

  lemma SkipItemSep(st: Style, s: string)
    requires s != "" && !IsWs(s[0])
    ensures SkipWs(ItemSep(st) + s) == ItemSep(st) + s
    ensures (ItemSep(st) + s)[0] == ','
    ensures SkipWs((ItemSep(st) + s)[1..]) == s
    ensures (KeySep(st) + s)[0] == ':'
    ensures SkipWs(KeySep(st) + s) == KeySep(st) + s
    ensures SkipWs((KeySep(st) + s)[1..]) == s
  {
    if st == Compact {
      assert (ItemSep(st) + s)[1..] == s && (KeySep(st) + s)[1..] == s;
    } else {
      assert (ItemSep(st) + s)[1..] == " " + s && (KeySep(st) + s)[1..] == " " + s;
      assert (" " + s)[1..] == s;
    }
  }

  lemma PrintItemsCons(items: seq<Json>, st: Style, tail: string)
    requires |items| > 1
    ensures PrintItems(items, st) + tail == Print(items[0], st) + (ItemSep(st) + (PrintItems(items[1..], st) + tail))
  {
    hide Print, ItemSep;
    var rest := PrintItems(items[1..], st);
    assert PrintItems(items, st) == Print(items[0], st) + (ItemSep(st) + rest);
    hide PrintItems;
    ConcatAssociates(Print(items[0], st), ItemSep(st) + rest, tail);
    ConcatAssociates(ItemSep(st), rest, tail);
  }

  lemma PrintMembersCons(ms: seq<Member>, st: Style, tail: string)
    requires |ms| > 1
    ensures PrintMembers(ms, st) + tail == PrintMember(ms[0], st) + (ItemSep(st) + (PrintMembers(ms[1..], st) + tail))
  {
    hide PrintMember, ItemSep;
    var rest := PrintMembers(ms[1..], st);
    assert PrintMembers(ms, st) == PrintMember(ms[0], st) + (ItemSep(st) + rest);
    hide PrintMembers;
    ConcatAssociates(PrintMember(ms[0], st), ItemSep(st) + rest, tail);
    ConcatAssociates(ItemSep(st), rest, tail);
  }

  lemma LastItemParsed(s: string)
    requires ParseValue(s).Some? && SkipWs(ParseValue(s).value.1) != "" && SkipWs(ParseValue(s).value.1)[0] == ']'
    ensures ParseItems(s) == Some(([ParseValue(s).value.0], SkipWs(ParseValue(s).value.1)[1..]))
  {
    hide ParseValue, SkipWs;
  }

  lemma NextItemParsed(s: string)
    requires ParseValue(s).Some? && SkipWs(ParseValue(s).value.1) != "" && SkipWs(ParseValue(s).value.1)[0] == ','
    requires ParseItems(SkipWs(SkipWs(ParseValue(s).value.1)[1..])).Some?
    ensures var (vs, end) := ParseItems(SkipWs(SkipWs(ParseValue(s).value.1)[1..])).value;
            ParseItems(s) == Some(([ParseValue(s).value.0] + vs, end))
  {
    hide ParseValue, SkipWs;
  }

  lemma LastMemberParsed(s: string)
    requires ParseMember(s).Some? && SkipWs(ParseMember(s).value.1) != "" && SkipWs(ParseMember(s).value.1)[0] == '}'
    ensures ParseMembers(s) == Some(([ParseMember(s).value.0], SkipWs(ParseMember(s).value.1)[1..]))
  {
    hide ParseMember, SkipWs;
  }

  lemma NextMemberParsed(s: string)
    requires ParseMember(s).Some? && SkipWs(ParseMember(s).value.1) != "" && SkipWs(ParseMember(s).value.1)[0] == ','
    requires ParseMembers(SkipWs(SkipWs(ParseMember(s).value.1)[1..])).Some?
    ensures var (ms, end) := ParseMembers(SkipWs(SkipWs(ParseMember(s).value.1)[1..])).value;
            ParseMembers(s) == Some(([ParseMember(s).value.0] + ms, end))
  {
    hide ParseMember, SkipWs;
  }

  /** A printed item and a separator in front of a readable list. */
  lemma {:induction false} ItemInFront(item: Json, st: Style, more: string)
    requires IsDict(item) && more != "" && !IsWs(more[0]) && ParseItems(more).Some?
    ensures var (vs, end) := ParseItems(more).value;
            ParseItems(Print(item, st) + (ItemSep(st) + more)) == Some(([item] + vs, end))
    decreases item, 1
  {
    hide ParseValue, Print, IsDict, SkipWs, ItemSep, KeySep, ParseItems;
    SkipItemSep(st, more);
    ValueRoundTrip(item, st, ItemSep(st) + more);
    NextItemParsed(Print(item, st) + (ItemSep(st) + more));
  }

  lemma {:induction false} OneItemRoundTrip(item: Json, st: Style, rest: string)
    requires IsDict(item)
    ensures ParseItems(PrintItems([item], st) + ("]" + rest)) == Some(([item], rest))
    decreases item, 1
  {
    hide ParseValue, Print, IsDict, SkipWs, ParseItems;
    ValueRoundTrip(item, st, "]" + rest);
    assert ("]" + rest)[1..] == rest;
    LastItemParsed(PrintItems([item], st) + ("]" + rest));
  }

  lemma {:induction false} ItemsRoundTrip(items: seq<Json>, st: Style, rest: string)
    requires items != [] && forall i :: 0 <= i < |items| ==> IsDict(items[i])
    ensures ParseItems(PrintItems(items, st) + ("]" + rest)) == Some((items, rest))
    decreases items, 1
  {
    hide ParseValue, Print, IsDict, SkipWs, ItemSep, KeySep, ParseItems, PrintItems;
    HeadAndTail(items);
    if |items| == 1 {
      OneItemRoundTrip(items[0], st, rest);
    } else {
      ItemsStart(items[1..], st);
      ItemsRoundTrip(items[1..], st, rest);
      StartKept(PrintItems(items[1..], st), "]" + rest);
      ItemInFront(items[0], st, PrintItems(items[1..], st) + ("]" + rest));
      PrintItemsCons(items, st, "]" + rest);
    }
  }

  lemma HeadAndTail<T>(xs: seq<T>)
    requires xs != []
    ensures xs == [xs[0]] + xs[1..]
    ensures |xs| == 1 ==> xs == [xs[0]]
  {
  }

  lemma StartKept(s: string, t: string)
    requires s != ""
    ensures s + t != "" && (s + t)[0] == s[0]
  {
  }

  lemma {:induction false} MemberRoundTrip(m: Member, st: Style, rest: string)
    requires IsDict(m.value) && !StartsWithDigit(rest)
    ensures ParseMember(PrintMember(m, st) + rest) == Some((m, rest))
    decreases m, 1
  {
    hide ParseValue, Print, IsDict, ParseString, Quote;
    var text := Print(m.value, st) + rest;
    assert PrintMember(m, st) + rest == Quote(m.key) + (KeySep(st) + text);
    QuoteRoundTrip(m.key, KeySep(st) + text);
    PrintStart(m.value, st);
    assert text[0] == Print(m.value, st)[0];
    SkipItemSep(st, text);
    ValueRoundTrip(m.value, st, rest);
  }

  lemma {:induction false} MemberInFront(m: Member, st: Style, more: string)
    requires IsDict(m.value) && more != "" && !IsWs(more[0]) && ParseMembers(more).Some?
    ensures var (ms, end) := ParseMembers(more).value;
            ParseMembers(PrintMember(m, st) + (ItemSep(st) + more)) == Some(([m] + ms, end))
    decreases m, 2
  {
    hide ParseMember, PrintMember, IsDict, SkipWs, ItemSep, KeySep, ParseMembers;
    SkipItemSep(st, more);
    MemberRoundTrip(m, st, ItemSep(st) + more);
    NextMemberParsed(PrintMember(m, st) + (ItemSep(st) + more));
  }

  lemma {:induction false} OneMemberRoundTrip(m: Member, st: Style, rest: string)
    requires IsDict(m.value)
    ensures ParseMembers(PrintMembers([m], st) + ("}" + rest)) == Some(([m], rest))
    decreases m, 2
  {
    hide ParseMember, PrintMember, IsDict, SkipWs, ParseMembers;
    MemberRoundTrip(m, st, "}" + rest);
    assert ("}" + rest)[1..] == rest;
    LastMemberParsed(PrintMembers([m], st) + ("}" + rest));
  }

  lemma {:induction false} MembersRoundTrip(ms: seq<Member>, st: Style, rest: string)
    requires ms != [] && forall i :: 0 <= i < |ms| ==> IsDict(ms[i].value)
    ensures ParseMembers(PrintMembers(ms, st) + ("}" + rest)) == Some((ms, rest))
    decreases ms, 2
  {
    hide ParseMember, PrintMember, IsDict, SkipWs, ItemSep, KeySep, ParseMembers, PrintMembers;
    HeadAndTail(ms);
    if |ms| == 1 {
      OneMemberRoundTrip(ms[0], st, rest);
    } else {
      MembersStart(ms[1..], st);
      MembersRoundTrip(ms[1..], st, rest);
      StartKept(PrintMembers(ms[1..], st), "}" + rest);
      MemberInFront(ms[0], st, PrintMembers(ms[1..], st) + ("}" + rest));
      PrintMembersCons(ms, st, "}" + rest);
    }
  }

  /** json.loads(json.dumps(v)) == v, key order included, in both separator styles. */
  lemma RoundTrip(v: Json, st: Style)
    requires IsDict(v)
    ensures Loads(Print(v, st)) == Some(v)
  {
    hide ParseValue, Print, IsDict;
    ValueRoundTrip(v, st, "");
    PrintStart(v, st);
    assert Print(v, st) + "" == Print(v, st);
  }

  // ----- every parsed value is a dict -----

  lemma {:induction false} ParsedIsDict(s: string)
    requires ParseValue(s).Some?
    ensures IsDict(ParseValue(s).value.0)
    decreases |s|, 0
  {
    hide ParseString, ParseNumber, ParseMember;
    if s[0] == '{' {
      var t := SkipWs(s[1..]);
      if !(t != "" && t[0] == '}') {
        ParsedMembersAreDicts(t);
        DictOfDicts(ParseMembers(t).value.0);
      }
    } else if s[0] == '[' {
      var t := SkipWs(s[1..]);
      if !(t != "" && t[0] == ']') { ParsedItemsAreDicts(t); }
    } else if s[0] != '\"' && !("null" <= s) && !("true" <= s) && !("false" <= s) {
      ParsedNumber(s);
    }
  }

  lemma DictOfDicts(pairs: seq<Member>)
    requires forall i :: 0 <= i < |pairs| ==> IsDict(pairs[i].value)
    ensures IsDict(Obj(DictOf(pairs)))
  {
    hide DictOf;
    forall i | 0 <= i < |DictOf(pairs)| ensures IsDict(DictOf(pairs)[i].value) {
      assert DictOf(pairs)[i] in pairs;
    }
  }

  lemma ParsedNumber(s: string)
    requires ParseNumber(s).Some?
    ensures ParseNumber(s).value.0.Int?
  {
  }

  lemma {:induction false} ParsedItemsAreDicts(s: string)
    requires ParseItems(s).Some?
    ensures forall i :: 0 <= i < |ParseItems(s).value.0| ==> IsDict(ParseItems(s).value.0[i])
    decreases |s|, 1
  {
    hide ParseValue, IsDict;
    ParsedIsDict(s);
    var t := SkipWs(ParseValue(s).value.1);
    if t[0] == ',' { ParsedItemsAreDicts(SkipWs(t[1..])); }
  }

  lemma {:induction false} ParsedMembersAreDicts(s: string)
    requires ParseMembers(s).Some?
    ensures forall i :: 0 <= i < |ParseMembers(s).value.0| ==> IsDict(ParseMembers(s).value.0[i].value)
    decreases |s|, 2
  {
    hide ParseValue, IsDict;
    var (m, rest) := ParseMember(s).value;
    var (_, rest') := ParseString(s[1..]).value;
    var u := SkipWs(rest');
    ParsedIsDict(SkipWs(u[1..]));
    var t := SkipWs(rest);
    if t[0] == ',' { ParsedMembersAreDicts(SkipWs(t[1..])); }
  }

  lemma LoadedIsDict(text: string)
    requires Loads(text).Some?
    ensures IsDict(Loads(text).value)
  {
    ParsedIsDict(SkipWs(text));
  }
}
