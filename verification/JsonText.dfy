/** JSON values as the scripts hold them, json.dumps with ensure_ascii=False, and json.loads
    (sections 2 to 7 of RFC 8259). Numbers are integers. */
module JsonText {
  import opened PyText

  /** An object keeps its members in insertion order, as a Python dict does. */
  datatype Json =
    | Null
    | Bool(b: bool)
    | Int(n: int)
    | Str(s: string)
    | Arr(items: seq<Json>)
    | Obj(members: seq<Member>)

  datatype Member = Member(key: string, value: Json)

  predicate UniqueKeys(ms: seq<Member>) {
    forall i, j :: 0 <= i < j < |ms| ==> ms[i].key != ms[j].key
  }

  /** Every object in the tree is a dict: no key twice. */
  predicate IsDict(v: Json) {
    match v
    case Arr(items) => forall i :: 0 <= i < |items| ==> IsDict(items[i])
    case Obj(ms) => UniqueKeys(ms) && forall i :: 0 <= i < |ms| ==> IsDict(ms[i].value)
    case _ => true
  }

  predicate HasKey(ms: seq<Member>, k: string) {
    exists i :: 0 <= i < |ms| && ms[i].key == k
  }

  // ----- dict updates -----

  /** dict[key] = value: an existing key keeps its place. */
  function Put(ms: seq<Member>, m: Member): (r: seq<Member>)
    ensures UniqueKeys(ms) ==> UniqueKeys(r)
    ensures forall k :: HasKey(r, k) <==> HasKey(ms, k) || k == m.key
    ensures !HasKey(ms, m.key) ==> r == ms + [m]
    ensures forall x :: x in r ==> x == m || x in ms
  {
    if ms == [] then
      assert forall k :: HasKey([m], k) <==> k == m.key by { HeadKeys([m]); }
      [m]
    else if ms[0].key == m.key then
      assert forall k :: HasKey(ms, k) ==> k == m.key || HasKey([m] + ms[1..], k) by {
        forall k | HasKey(ms, k) ensures k == m.key || HasKey([m] + ms[1..], k) {
          var i :| 0 <= i < |ms| && ms[i].key == k;
          if i > 0 { assert ([m] + ms[1..])[i] == ms[i]; }
        }
      }
      assert HasKey(ms, m.key) && ([m] + ms[1..])[0] == m;
      [m] + ms[1..]
    else
      var r := [ms[0]] + Put(ms[1..], m);
      assert forall k :: HasKey(ms, k) <==> k == ms[0].key || HasKey(ms[1..], k) by {
        HeadKeys(ms);
      }
      assert forall k :: HasKey(r, k) <==> k == ms[0].key || HasKey(Put(ms[1..], m), k) by {
        HeadKeys(r);
        assert r[1..] == Put(ms[1..], m);
      }
      assert UniqueKeys(ms) ==> !HasKey(ms[1..], ms[0].key);
      r
  }

  lemma HeadKeys(ms: seq<Member>)
    requires ms != []
    ensures forall k :: HasKey(ms, k) <==> k == ms[0].key || HasKey(ms[1..], k)
  {
    forall k ensures HasKey(ms, k) <==> k == ms[0].key || HasKey(ms[1..], k) {
      if HasKey(ms, k) {
        var i :| 0 <= i < |ms| && ms[i].key == k;
        if i > 0 { assert ms[1..][i - 1] == ms[i]; }
      }
      if HasKey(ms[1..], k) {
        var i :| 0 <= i < |ms| - 1 && ms[1..][i].key == k;
        assert ms[i + 1].key == k;
      }
    }
  }

  /** dict(pairs): the last value of a repeated key wins. */
  function DictOf(pairs: seq<Member>): (r: seq<Member>)
    ensures UniqueKeys(r)
    ensures forall x :: x in r ==> x in pairs
    ensures forall k :: HasKey(r, k) <==> HasKey(pairs, k)
  {
    if pairs == [] then []
    else
      var front := pairs[..|pairs| - 1];
      assert forall k :: HasKey(pairs, k) <==> HasKey(front, k) || k == pairs[|pairs| - 1].key by {
        forall k | HasKey(pairs, k) ensures HasKey(front, k) || k == pairs[|pairs| - 1].key {
          var i :| 0 <= i < |pairs| && pairs[i].key == k;
          if i < |pairs| - 1 { assert front[i] == pairs[i]; }
        }
        forall k | HasKey(front, k) ensures HasKey(pairs, k) {
          var i :| 0 <= i < |front| && front[i].key == k;
          assert pairs[i].key == k;
        }
      }
      Put(DictOf(front), pairs[|pairs| - 1])
  }

  lemma LastKeyIsNew(ms: seq<Member>)
    requires ms != [] && UniqueKeys(ms)
    ensures UniqueKeys(ms[..|ms| - 1]) && !HasKey(ms[..|ms| - 1], ms[|ms| - 1].key)
  {
  }

  lemma {:induction false} DictOfUnique(ms: seq<Member>)
    requires UniqueKeys(ms)
    ensures DictOf(ms) == ms
  {
    if ms != [] {
      hide Put, HasKey, UniqueKeys;
      var front := ms[..|ms| - 1];
      LastKeyIsNew(ms);
      DictOfUnique(front);
      assert front + [ms[|ms| - 1]] == ms;
    }
  }

  /** dict.get(key), with None for a missing key. */
  function Get(ms: seq<Member>, k: string): (r: Json)
    ensures !HasKey(ms, k) ==> r == Null
    ensures UniqueKeys(ms) ==> forall i :: 0 <= i < |ms| && ms[i].key == k ==> r == ms[i].value
  {
    if ms == [] then Null
    else if ms[0].key == k then ms[0].value
    else
      assert HasKey(ms, k) <==> HasKey(ms[1..], k) by { HeadKeys(ms); }
      Get(ms[1..], k)
  }

  /** An assigned key reads as its new value, every other key as before. */
  lemma {:induction false} PutLooksUp(ms: seq<Member>, m: Member, k: string)
    ensures Get(Put(ms, m), k) == if k == m.key then m.value else Get(ms, k)
  {
    hide HasKey, UniqueKeys;
    if ms == [] {
      assert [m][1..] == [];
    } else if ms[0].key != m.key {
      PutLooksUp(ms[1..], m, k);
      assert Put(ms, m) == [ms[0]] + Put(ms[1..], m);
      assert Put(ms, m)[1..] == Put(ms[1..], m);
    } else {
      assert Put(ms, m) == [m] + ms[1..] && Put(ms, m)[1..] == ms[1..];
    }
  }

  // ----- printing -----

  /** The separators json.dumps is called with: (",", ":") or the default (", ", ": "). */
  datatype Style = Compact | Spaced

  function ItemSep(st: Style): string { if st == Compact then "," else ", " }
  function KeySep(st: Style): string { if st == Compact then ":" else ": " }

  function HexChar(d: nat): char
    requires d < 16
  {
    if d < 10 then '0' + d as char else 'a' + (d - 10) as char
  }

  function EscapeChar(c: char): (e: string)
    ensures 1 <= |e| <= 6
  {
    var n := c as int;
    if c == '\"' then "\\\""
    else if c == '\\' then "\\\\"
    else if c == '\n' then "\\n"
    else if c == '\r' then "\\r"
    else if c == '\t' then "\\t"
    else if n == 8 then "\\b"
    else if n == 12 then "\\f"
    else if n < 32 then "\\u00" + [HexChar(n / 16), HexChar(n % 16)]
    else [c]
  }

  function Escape(s: string): string {
    if s == "" then "" else EscapeChar(s[0]) + Escape(s[1..])
  }

  function Quote(s: string): string { "\"" + (Escape(s) + "\"") }

  function Print(v: Json, st: Style): string
    decreases v, 0
  {
    match v
    case Null => "null"
    case Bool(b) => if b then "true" else "false"
    case Int(n) => Decimal(n)
    case Str(s) => Quote(s)
    case Arr(items) => "[" + (PrintItems(items, st) + "]")
    case Obj(ms) => "{" + (PrintMembers(ms, st) + "}")
  }

  function PrintItems(items: seq<Json>, st: Style): string
    decreases items, 1
  {
    if items == [] then ""
    else if |items| == 1 then Print(items[0], st)
    else Print(items[0], st) + (ItemSep(st) + PrintItems(items[1..], st))
  }

  function PrintMembers(ms: seq<Member>, st: Style): string
    decreases ms, 1
  {
    if ms == [] then ""
    else if |ms| == 1 then PrintMember(ms[0], st)
    else PrintMember(ms[0], st) + (ItemSep(st) + PrintMembers(ms[1..], st))
  }

  function PrintMember(m: Member, st: Style): string
    decreases m, 1
  {
    Quote(m.key) + (KeySep(st) + Print(m.value, st))
  }

  // ----- parsing -----

  predicate IsWs(c: char) { c == ' ' || c == '\t' || c == '\n' || c == '\r' }

  function SkipWs(s: string): (r: string)
    ensures |r| <= |s|
    ensures r == "" || !IsWs(r[0])
    ensures s != "" && !IsWs(s[0]) ==> r == s
  {
    if s != "" && IsWs(s[0]) then SkipWs(s[1..]) else s
  }

  function HexValue(c: char): Option<nat> {
    if '0' <= c <= '9' then Some(c as int - '0' as int)
    else if 'a' <= c <= 'f' then Some(10 + (c as int - 'a' as int))
    else if 'A' <= c <= 'F' then Some(10 + (c as int - 'A' as int))
    else None
  }

  /** One backslash escape: the character it denotes and its length. */
  function ParseEscape(s: string): (r: Option<(char, nat)>)
    requires s != "" && s[0] == '\\'
    ensures r.Some? ==> 2 <= r.value.1 <= |s|
  {
    if |s| < 2 then None
    else if s[1] == '\"' || s[1] == '\\' || s[1] == '/' then Some((s[1], 2))
    else if s[1] == 'n' then Some(('\n', 2))
    else if s[1] == 'r' then Some(('\r', 2))
    else if s[1] == 't' then Some(('\t', 2))
    else if s[1] == 'b' then Some((8 as char, 2))
    else if s[1] == 'f' then Some((12 as char, 2))
    else if s[1] == 'u' && |s| >= 6 then
      match (HexValue(s[2]), HexValue(s[3]), HexValue(s[4]), HexValue(s[5]))
      case (Some(a), Some(b), Some(c), Some(d)) =>
        var n := ((a * 16 + b) * 16 + c) * 16 + d;
        if n < 0xD800 || 0xE000 <= n < 0x10000 then Some((n as char, 6)) else None
      case _ => None
    else None
  }

  /** The text of a string literal after its opening quote, and what follows the closing one. */
  function ParseString(s: string): (r: Option<(string, string)>)
    ensures r.Some? ==> |r.value.1| < |s|
    decreases |s|
  {
    if s == "" then None
    else if s[0] == '\"' then Some(("", s[1..]))
    else if s[0] == '\\' then
      match ParseEscape(s)
      case None => None
      case Some((c, k)) =>
        (match ParseString(s[k..])
         case None => None
         case Some((t, rest)) => Some(([c] + t, rest)))
    else if s[0] < ' ' then None
    else
      match ParseString(s[1..])
      case None => None
      case Some((t, rest)) => Some(([s[0]] + t, rest))
  }

  function DigitSpan(s: string): (k: nat)
    ensures k <= |s| && AllDigits(s[..k])
    ensures k < |s| ==> !IsDigit(s[k])
  {
    if s != "" && IsDigit(s[0]) then
      assert s[..1 + DigitSpan(s[1..])] == [s[0]] + s[1..][..DigitSpan(s[1..])];
      1 + DigitSpan(s[1..])
    else 0
  }

  /** An integer literal: an optional minus, then 0 or digits that do not start with 0. */
  function ParseNumber(s: string): (r: Option<(Json, string)>)
    ensures r.Some? ==> |r.value.1| < |s|
  {
    var sign := if s != "" && s[0] == '-' then 1 else 0;
    var body := s[sign..];
    if body == "" || !IsDigit(body[0]) then None
    else
      var k := if body[0] == '0' then 1 else DigitSpan(body);
      var n: int := DigitsValue(body[..k]);
      Some((Int(if sign == 1 then -n else n), body[k..]))
  }

  function ParseValue(s: string): (r: Option<(Json, string)>)
    ensures r.Some? ==> |r.value.1| < |s|
    decreases |s|, 0
  {
    if s == "" then None
    else if s[0] == '\"' then
      (match ParseString(s[1..]) case None => None case Some((t, rest)) => Some((Str(t), rest)))
    else if s[0] == '{' then
      var t := SkipWs(s[1..]);
      if t != "" && t[0] == '}' then Some((Obj([]), t[1..]))
      else (match ParseMembers(t) case None => None case Some((ms, rest)) => Some((Obj(DictOf(ms)), rest)))
    else if s[0] == '[' then
      var t := SkipWs(s[1..]);
      if t != "" && t[0] == ']' then Some((Arr([]), t[1..]))
      else (match ParseItems(t) case None => None case Some((vs, rest)) => Some((Arr(vs), rest)))
    else if "null" <= s then Some((Null, s[4..]))
    else if "true" <= s then Some((Bool(true), s[4..]))
    else if "false" <= s then Some((Bool(false), s[5..]))
    else ParseNumber(s)
  }

  /** A non-empty list of array items up to and including the closing bracket. */
  function ParseItems(s: string): (r: Option<(seq<Json>, string)>)
    ensures r.Some? ==> |r.value.1| < |s|
    decreases |s|, 1
  {
    match ParseValue(s)
    case None => None
    case Some((v, rest)) =>
      var t := SkipWs(rest);
      if t == "" then None
      else if t[0] == ']' then Some(([v], t[1..]))
      else if t[0] == ',' then
        (match ParseItems(SkipWs(t[1..])) case None => None case Some((vs, end)) => Some(([v] + vs, end)))
      else None
  }

  /** One "key": value pair. */
  function ParseMember(s: string): (r: Option<(Member, string)>)
    ensures r.Some? ==> |r.value.1| < |s|
    decreases |s|, 1
  {
    if s == "" || s[0] != '\"' then None
    else match ParseString(s[1..])
      case None => None
      case Some((k, rest)) =>
        var t := SkipWs(rest);
        if t == "" || t[0] != ':' then None
        else match ParseValue(SkipWs(t[1..]))
          case None => None
          case Some((v, end)) => Some((Member(k, v), end))
  }

  /** A non-empty list of members up to and including the closing brace. */
  function ParseMembers(s: string): (r: Option<(seq<Member>, string)>)
    ensures r.Some? ==> |r.value.1| < |s|
    decreases |s|, 2
  {
    match ParseMember(s)
    case None => None
    case Some((m, rest)) =>
      var t := SkipWs(rest);
      if t == "" then None
      else if t[0] == '}' then Some(([m], t[1..]))
      else if t[0] == ',' then
        (match ParseMembers(SkipWs(t[1..])) case None => None case Some((ms, end)) => Some(([m] + ms, end)))
      else None
  }

  /** json.loads(text) */
  function Loads(text: string): Option<Json> {
    match ParseValue(SkipWs(text))
    case None => None
    case Some((v, rest)) => if SkipWs(rest) == "" then Some(v) else None
  }
}
