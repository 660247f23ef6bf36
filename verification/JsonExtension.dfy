/** A complete JSON value is read the same way whatever text follows it. */
module JsonExtension {
  import opened PyText
  import opened JsonText

  lemma EscapeExtends(s: string, x: string)
    requires s != "" && s[0] == '\\' && ParseEscape(s).Some?
    ensures ParseEscape(s + x) == ParseEscape(s)
  {
  }

  lemma {:induction false} StringExtends(s: string, x: string)
    requires ParseString(s).Some?
    ensures ParseString(s + x) == Some((ParseString(s).value.0, ParseString(s).value.1 + x))
    decreases |s|
  {
    hide ParseEscape;
    if s[0] == '\"' {
      assert (s + x)[1..] == s[1..] + x;
    } else if s[0] == '\\' {
      EscapeExtends(s, x);
      var (_, k) := ParseEscape(s).value;
      StringExtends(s[k..], x);
      assert (s + x)[k..] == s[k..] + x;
    } else {
      StringExtends(s[1..], x);
      assert (s + x)[1..] == s[1..] + x;
    }
  }

  lemma {:induction false} SkipWsExtends(s: string, x: string)
    requires SkipWs(s) != ""
    ensures SkipWs(s + x) == SkipWs(s) + x
  {
    if IsWs(s[0]) {
      SkipWsExtends(s[1..], x);
      assert (s + x)[1..] == s[1..] + x;
    }
  }

  lemma {:induction false} DigitSpanExtends(s: string, x: string)
    requires DigitSpan(s) < |s|
    ensures DigitSpan(s + x) == DigitSpan(s)
  {
    if IsDigit(s[0]) {
      DigitSpanExtends(s[1..], x);
      assert (s + x)[1..] == s[1..] + x;
    }
  }

  lemma NumberExtends(s: string, x: string)
    requires ParseNumber(s).Some? && ParseNumber(s).value.1 != ""
    ensures ParseNumber(s + x) == Some((ParseNumber(s).value.0, ParseNumber(s).value.1 + x))
  {
    hide DigitSpan, DigitsValue;
    var sign := if s[0] == '-' then 1 else 0;
    var body := s[sign..];
    assert (s + x)[sign..] == body + x;
    var k := if body[0] == '0' then 1 else DigitSpan(body);
    if body[0] != '0' { DigitSpanExtends(body, x); }
    assert (body + x)[..k] == body[..k] && (body + x)[k..] == body[k..] + x;
  }

  lemma {:induction false} ValueExtends(s: string, x: string)
    requires ParseValue(s).Some?
    requires ParseValue(s).value.0.Int? ==> ParseValue(s).value.1 != ""
    ensures ParseValue(s + x) == Some((ParseValue(s).value.0, ParseValue(s).value.1 + x))
    decreases |s|, 0
  {
    hide ParseString, ParseNumber, ParseItems, ParseMembers, DictOf;
    assert (s + x)[1..] == s[1..] + x && (s + x)[0] == s[0];
    if s[0] == '\"' {
      StringExtends(s[1..], x);
    } else if s[0] == '{' {
      var t := SkipWs(s[1..]);
      EmptyMembers();
      SkipWsExtends(s[1..], x);
      assert (t + x)[0] == t[0] && (t + x)[1..] == t[1..] + x;
      if t[0] != '}' { MembersExtend(t, x); }
    } else if s[0] == '[' {
      var t := SkipWs(s[1..]);
      EmptyMembers();
      SkipWsExtends(s[1..], x);
      assert (t + x)[0] == t[0] && (t + x)[1..] == t[1..] + x;
      if t[0] != ']' { ItemsExtend(t, x); }
    } else {
      LiteralExtends(s, x);
    }
  }

  lemma EmptyMembers()
    ensures ParseMembers("").None? && ParseItems("").None?
  {
  }

  lemma NumberIsInt(s: string)
    requires ParseNumber(s).Some?
    ensures ParseNumber(s).value.0.Int? && s != "" && (s[0] == '-' || IsDigit(s[0]))
  {
  }

  lemma LiteralExtends(s: string, x: string)
    requires s != "" && s[0] != '\"' && s[0] != '{' && s[0] != '['
    requires ParseValue(s).Some?
    requires ParseValue(s).value.0.Int? ==> ParseValue(s).value.1 != ""
    ensures ParseValue(s + x) == Some((ParseValue(s).value.0, ParseValue(s).value.1 + x))
  {
    hide ParseString, ParseNumber, ParseItems, ParseMembers, DictOf;
    assert (s + x)[0] == s[0];
    if "null" <= s {
      assert "null" <= s + x && (s + x)[4..] == s[4..] + x;
    } else if "true" <= s {
      assert "true" <= s + x && (s + x)[4..] == s[4..] + x;
    } else if "false" <= s {
      assert "false" <= s + x && (s + x)[5..] == s[5..] + x;
    } else {
      NumberIsInt(s);
      NumberExtends(s, x);
      assert s[0] != "null"[0] && s[0] != "true"[0] && s[0] != "false"[0];
    }
  }

  lemma {:induction false} ItemsExtend(s: string, x: string)
    requires ParseItems(s).Some?
    ensures ParseItems(s + x) == Some((ParseItems(s).value.0, ParseItems(s).value.1 + x))
    decreases |s|, 1
  {
    hide ParseValue;
    var (_, rest) := ParseValue(s).value;
    var t := SkipWs(rest);
    ValueExtends(s, x);
    SkipWsExtends(rest, x);
    assert (t + x)[0] == t[0] && (t + x)[1..] == t[1..] + x;
    if t[0] == ',' {
      EmptyMembers();
      SkipWsExtends(t[1..], x);
      ItemsExtend(SkipWs(t[1..]), x);
    }
  }

  lemma {:induction false} MemberExtends(s: string, x: string)
    requires ParseMember(s).Some?
    requires ParseMember(s).value.0.value.Int? ==> ParseMember(s).value.1 != ""
    ensures ParseMember(s + x) == Some((ParseMember(s).value.0, ParseMember(s).value.1 + x))
    decreases |s|, 1
  {
    hide ParseValue, ParseString;
    var (_, rest) := ParseString(s[1..]).value;
    StringExtends(s[1..], x);
    assert (s + x)[0] == s[0] && (s + x)[1..] == s[1..] + x;
    var t := SkipWs(rest);
    SkipWsExtends(rest, x);
    assert (t + x)[0] == t[0] && (t + x)[1..] == t[1..] + x;
    assert ParseValue("").None? by { NoEmptyValue(); }
    SkipWsExtends(t[1..], x);
    ValueExtends(SkipWs(t[1..]), x);
  }

  lemma NoEmptyValue()
    ensures ParseValue("").None?
  {
  }

  lemma {:induction false} MembersExtend(s: string, x: string)
    requires ParseMembers(s).Some?
    ensures ParseMembers(s + x) == Some((ParseMembers(s).value.0, ParseMembers(s).value.1 + x))
    decreases |s|, 2
  {
    hide ParseMember;
    var (_, rest) := ParseMember(s).value;
    var t := SkipWs(rest);
    MemberExtends(s, x);
    SkipWsExtends(rest, x);
    assert (t + x)[0] == t[0] && (t + x)[1..] == t[1..] + x;
    if t[0] == ',' {
      EmptyMembers();
      SkipWsExtends(t[1..], x);
      MembersExtend(SkipWs(t[1..]), x);
    }
  }
}
