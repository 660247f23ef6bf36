/** A scanner that follows a JSON text character by character, keeping only the bracket depth and whether it
    is inside a string. It agrees with the parser on every text the parser can read. */
module JsonScan {
  import opened PyText
  import opened JsonText
  import JsonRoundTrip

  /** Outside any string, inside one, behind a backslash inside one, or past something no JSON text holds. */
  datatype Mode = Out(depth: int) | In(depth: int) | Esc(depth: int) | Bad

  /** One character; reading on outside a string below the floor is bad. */
  function Step(m: Mode, c: char, floor: int): Mode {
    match m
    case Out(d) =>
      if d < floor || c == '\\' then Bad
      else if c == '\"' then In(d)
      else if c == '{' || c == '[' then Out(d + 1)
      else if c == '}' || c == ']' then Out(d - 1)
      else m
    case In(d) => if c == '\"' then Out(d) else if c == '\\' then Esc(d) else m
    case Esc(d) => In(d)
    case Bad => Bad
  }

  function Scan(m: Mode, s: string, floor: int): Mode
    decreases |s|
  {
    if s == "" then m else Scan(Step(m, s[0], floor), s[1..], floor)
  }

  lemma {:induction false} ScanConcat(m: Mode, a: string, b: string, floor: int)
    ensures Scan(m, a + b, floor) == Scan(Scan(m, a, floor), b, floor)
    decreases |a|
  {
    if a == "" {
      assert a + b == b;
    } else {
      assert (a + b)[1..] == a[1..] + b;
      ScanConcat(Step(m, a[0], floor), a[1..], b, floor);
    }
  }

  lemma {:induction false} BadStays(s: string, floor: int)
    ensures Scan(Bad, s, floor) == Bad
  {
    if s != "" { BadStays(s[1..], floor); }
  }

  // ----- the scanner follows the parser -----

  lemma {:induction false} SkipWsScans(s: string, d: int, floor: int)
    requires floor <= d
    ensures Scan(Out(d), s, floor) == Scan(Out(d), SkipWs(s), floor)
  {
    if s != "" && IsWs(s[0]) { SkipWsScans(s[1..], d, floor); }
  }

  /** Characters that mean nothing to the scanner in this mode. */
  lemma {:induction false} IdleScans(m: Mode, s: string, k: nat, floor: int)
    requires k <= |s| && forall i :: 0 <= i < k ==> Step(m, s[i], floor) == m
    ensures Scan(m, s, floor) == Scan(m, s[k..], floor)
  {
    if k > 0 {
      IdleScans(m, s[1..], k - 1, floor);
      assert s[1..][k - 1..] == s[k..];
    }
  }

  lemma EscapeScans(s: string, d: int, floor: int)
    requires s != "" && s[0] == '\\' && ParseEscape(s).Some?
    ensures Scan(In(d), s, floor) == Scan(In(d), s[ParseEscape(s).value.1..], floor)
  {
    var k := ParseEscape(s).value.1;
    assert Scan(In(d), s, floor) == Scan(Esc(d), s[1..], floor);
    assert s[1..][1..] == s[2..];
    assert Scan(Esc(d), s[1..], floor) == Scan(In(d), s[2..], floor);
    if k == 6 {
      forall i | 0 <= i < 4 ensures Step(In(d), s[2..][i], floor) == In(d) { assert HexValue(s[2 + i]).Some?; }
      IdleScans(In(d), s[2..], 4, floor);
      assert s[2..][4..] == s[6..];
    }
  }

  lemma {:induction false} StringScans(s: string, d: int, floor: int)
    requires ParseString(s).Some?
    ensures Scan(In(d), s, floor) == Scan(Out(d), ParseString(s).value.1, floor)
    decreases |s|
  {
    hide ParseEscape;
    if s[0] == '\"' {
    } else if s[0] == '\\' {
      EscapeScans(s, d, floor);
      StringScans(s[ParseEscape(s).value.1..], d, floor);
    } else {
      StringScans(s[1..], d, floor);
    }
  }

  lemma NumberScans(s: string, d: int, floor: int)
    requires ParseNumber(s).Some? && floor <= d
    ensures Scan(Out(d), s, floor) == Scan(Out(d), ParseNumber(s).value.1, floor)
  {
    hide DigitSpan, DigitsValue;
    var sign := if s[0] == '-' then 1 else 0;
    var body := s[sign..];
    var k := if body[0] == '0' then 1 else DigitSpan(body);
    IdleScans(Out(d), s, sign, floor);
    forall i | 0 <= i < k ensures Step(Out(d), body[i], floor) == Out(d) {
      assert IsDigit(body[..k][i]);
    }
    IdleScans(Out(d), body, k, floor);
  }

  lemma {:induction false} ValueScans(s: string, d: int, floor: int)
    requires ParseValue(s).Some? && floor <= d
    ensures Scan(Out(d), s, floor) == Scan(Out(d), ParseValue(s).value.1, floor)
    decreases |s|, 0
  {
    hide ParseString, ParseNumber, ParseItems, ParseMembers, DictOf, SkipWs;
    if s[0] == '\"' {
      StringScans(s[1..], d, floor);
    } else if s[0] == '{' {
      SkipWsScans(s[1..], d + 1, floor);
      var t := SkipWs(s[1..]);
      if !(t != "" && t[0] == '}') { MembersScan(t, d + 1, floor); }
    } else if s[0] == '[' {
      SkipWsScans(s[1..], d + 1, floor);
      var t := SkipWs(s[1..]);
      if !(t != "" && t[0] == ']') { ItemsScan(t, d + 1, floor); }
    } else {
      LiteralScans(s, d, floor);
    }
  }

  lemma LiteralScans(s: string, d: int, floor: int)
    requires s != "" && s[0] != '\"' && s[0] != '{' && s[0] != '[' && ParseValue(s).Some? && floor <= d
    ensures Scan(Out(d), s, floor) == Scan(Out(d), ParseValue(s).value.1, floor)
  {
    hide ParseString, ParseNumber, ParseItems, ParseMembers, DictOf, SkipWs, Scan;
    if "null" <= s {
      assert forall i :: 0 <= i < 4 ==> s[i] == "null"[i];
      IdleScans(Out(d), s, 4, floor);
    } else if "true" <= s {
      assert forall i :: 0 <= i < 4 ==> s[i] == "true"[i];
      IdleScans(Out(d), s, 4, floor);
    } else if "false" <= s {
      assert forall i :: 0 <= i < 5 ==> s[i] == "false"[i];
      IdleScans(Out(d), s, 5, floor);
    } else {
      NumberScans(s, d, floor);
    }
  }

  lemma {:induction false} ItemsScan(s: string, d: int, floor: int)
    requires ParseItems(s).Some? && floor <= d
    ensures Scan(Out(d), s, floor) == Scan(Out(d - 1), ParseItems(s).value.1, floor)
    decreases |s|, 1
  {
    hide ParseValue, SkipWs;
    var (_, rest) := ParseValue(s).value;
    ValueScans(s, d, floor);
    SkipWsScans(rest, d, floor);
    var t := SkipWs(rest);
    if t[0] == ',' {
      SkipWsScans(t[1..], d, floor);
      ItemsScan(SkipWs(t[1..]), d, floor);
    }
  }

  lemma {:induction false} MemberScans(s: string, d: int, floor: int)
    requires ParseMember(s).Some? && floor <= d
    ensures Scan(Out(d), s, floor) == Scan(Out(d), ParseMember(s).value.1, floor)
    decreases |s|, 1
  {
    hide ParseValue, ParseString, SkipWs;
    var (_, rest) := ParseString(s[1..]).value;
    StringScans(s[1..], d, floor);
    SkipWsScans(rest, d, floor);
    var t := SkipWs(rest);
    SkipWsScans(t[1..], d, floor);
    ValueScans(SkipWs(t[1..]), d, floor);
  }

  lemma {:induction false} MembersScan(s: string, d: int, floor: int)
    requires ParseMembers(s).Some? && floor <= d
    ensures Scan(Out(d), s, floor) == Scan(Out(d - 1), ParseMembers(s).value.1, floor)
    decreases |s|, 2
  {
    hide ParseMember, SkipWs;
    var (_, rest) := ParseMember(s).value;
    MemberScans(s, d, floor);
    SkipWsScans(rest, d, floor);
    var t := SkipWs(rest);
    if t[0] == ',' {
      SkipWsScans(t[1..], d, floor);
      MembersScan(SkipWs(t[1..]), d, floor);
    }
  }

  /** A text that loads as one value comes back to the depth it started from. */
  lemma LoadedIsBalanced(s: string)
    requires Loads(s).Some?
    ensures Scan(Out(0), s, 0) == Out(0)
  {
    hide ParseValue, SkipWs;
    SkipWsScans(s, 0, 0);
    ValueScans(SkipWs(s), 0, 0);
    SkipWsScans(ParseValue(SkipWs(s)).value.1, 0, 0);
  }

  // ----- cut and glued objects -----

  /** What is left of a printed object behind its opening brace stays inside it up to the last character. */
  lemma ObjectStaysOpen(v: Json, st: Style)
    requires v.Obj? && IsDict(v)
    ensures var p := Print(v, st);
            p != "" && p[0] == '{' && Scan(Out(1), p[1..], 1) == Out(0)
  {
    hide ParseMembers, PrintMembers, IsDict, SkipWs, DictOf;
    var p := Print(v, st);
    JsonRoundTrip.RoundTrip(v, st);
    Whole(v, st);
    SkipWsScans(p[1..], 1, 1);
    var t := SkipWs(p[1..]);
    if t != "" && t[0] == '}' {
      assert t[1..] == "";
    } else {
      MembersScan(t, 1, 1);
    }
  }

  /** A printed value is read to its end. */
  lemma Whole(v: Json, st: Style)
    requires IsDict(v)
    ensures ParseValue(Print(v, st)) == Some((v, ""))
  {
    hide ParseValue, Print, IsDict;
    JsonRoundTrip.ValueRoundTrip(v, st, "");
    assert Print(v, st) + "" == Print(v, st);
  }

  lemma {:induction false} LowerFloor(m: Mode, s: string)
    requires Scan(m, s, 1) != Bad
    ensures Scan(m, s, 0) == Scan(m, s, 1)
    decreases |s|
  {
    if s != "" {
      if Step(m, s[0], 1) == Bad { BadStays(s[1..], 1); }
      LowerFloor(Step(m, s[0], 1), s[1..]);
    }
  }

  /** An object cut off inside leaves the scanner inside it, or inside a string. */
  lemma CutStaysOpen(v: Json, st: Style, k: nat)
    requires v.Obj? && IsDict(v) && 0 < k < |Print(v, st)|
    ensures var m := Scan(Out(0), Print(v, st)[..k], 0);
            m.In? || m.Esc? || (m.Out? && m.depth >= 1)
  {
    hide Print, IsDict;
    var p := Print(v, st);
    ObjectStaysOpen(v, st);
    var t, j := p[1..], k - 1;
    assert p[..k][1..] == t[..j] && t == t[..j] + t[j..];
    ScanConcat(Out(1), t[..j], t[j..], 1);
    if Scan(Out(1), t[..j], 1) == Bad { BadStays(t[j..], 1); }
    LowerFloor(Out(1), t[..j]);
    var m := Scan(Out(1), t[..j], 1);
    assert Scan(m, t[j..], 1) == Scan(Step(m, t[j], 1), t[j..][1..], 1);
    if Step(m, t[j], 1) == Bad { BadStays(t[j..][1..], 1); }
  }

  /** Read from inside a string, a text that is balanced outside one never ends outside a string: every quote
      toggles both readings, and a backslash that is inside a string in one is outside in the other. */
  lemma {:induction false} Flipped(a: Mode, b: Mode, s: string)
    requires Scan(a, s, 0).Out?
    requires b == Bad || (a.Out? && b.In?) || (a.In? && b.Out?)
    ensures !Scan(b, s, 0).Out?
    decreases |s|
  {
    if b == Bad {
      BadStays(s, 0);
    } else if s != "" {
      var a', b' := Step(a, s[0], 0), Step(b, s[0], 0);
      if a' == Bad { BadStays(s[1..], 0); }
      Flipped(a', b', s[1..]);
    }
  }

  /** A cut object, and a cut object with a whole one behind it, cannot be read. */
  lemma CutIsUnreadable(v: Json, st: Style, k: nat)
    requires v.Obj? && IsDict(v) && 0 < k < |Print(v, st)|
    ensures Loads(Print(v, st)[..k]).None?
  {
    hide Print, IsDict, Loads;
    CutStaysOpen(v, st, k);
    if Loads(Print(v, st)[..k]).Some? { LoadedIsBalanced(Print(v, st)[..k]); }
  }

  lemma GluedCutIsUnreadable(v: Json, k: nat, w: Json, st: Style)
    requires v.Obj? && IsDict(v) && 0 < k < |Print(v, st)| && w.Obj? && IsDict(w)
    ensures Loads(Print(v, st)[..k] + Print(w, st)).None?
  {
    hide Print, IsDict, Loads, ParseValue;
    var q, p := Print(v, st)[..k], Print(w, st);
    CutStaysOpen(v, st, k);
    if Loads(q + p).Some? {
      LoadedIsBalanced(q + p);
      ScanConcat(Out(0), q, p, 0);
      var m := Scan(Out(0), q, 0);
      Whole(w, st);
      ObjectStaysOpen(w, st);
      if m.Out? {
        ValueScans(p, m.depth, 0);
        assert false;
      } else {
        ValueScans(p, 0, 0);
        Flipped(Out(1), In(m.depth), p[1..]);
        assert false;
      }
    }
  }
}
