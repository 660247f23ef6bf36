/** The strict UTF-8 codec that encode("utf-8") and text-mode files use (RFC 3629, sections 3 and 4). */
module Utf8 {
  import opened PyText

  type byte = b: int | 0 <= b < 256
  type Bytes = seq<byte>

  /** One six-bit group as a continuation byte. */
  function Tail(n: nat): byte { 0x80 + n % 64 }

  function EncodeChar(c: char): (bs: Bytes)
    ensures 1 <= |bs| <= 4
  {
    var n := c as int;
    if n < 0x80 then [n]
    else if n < 0x800 then [0xC0 + n / 64, Tail(n)]
    else if n < 0x10000 then [0xE0 + n / 64 / 64, Tail(n / 64), Tail(n)]
    else [0xF0 + n / 64 / 64 / 64, Tail(n / 64 / 64), Tail(n / 64), Tail(n)]
  }

  function Encode(s: string): Bytes {
    if s == "" then [] else EncodeChar(s[0]) + Encode(s[1..])
  }

  predicate Continuation(b: byte) { 0x80 <= b < 0xC0 }

  /** A code point that is a character, i.e. in range and not a surrogate. */
  predicate IsScalar(n: int) { 0 <= n < 0xD800 || 0xE000 <= n < 0x110000 }

  /** Appends a continuation byte's six bits to the bits read so far. */
  function Join(high: int, b: byte): int { high * 64 + (b as int - 0x80) }

  /** The first character of a byte string and its length in bytes; None for overlong, surrogate,
      out-of-range or truncated sequences. */
  function DecodeChar(bs: Bytes): (r: Option<(char, nat)>)
    requires bs != []
    ensures r.Some? ==> 1 <= r.value.1 <= |bs|
  {
    var b: int := bs[0];
    if b < 0x80 then Some((b as char, 1))
    else if 0xC2 <= b < 0xE0 then
      if |bs| >= 2 && Continuation(bs[1]) then Some((Join(b - 0xC0, bs[1]) as char, 2)) else None
    else if 0xE0 <= b < 0xF0 then
      if |bs| >= 3 && Continuation(bs[1]) && Continuation(bs[2]) then
        var n := Join(Join(b - 0xE0, bs[1]), bs[2]);
        if n >= 0x800 && IsScalar(n) then Some((n as char, 3)) else None
      else None
    else if 0xF0 <= b < 0xF5 then
      if |bs| >= 4 && Continuation(bs[1]) && Continuation(bs[2]) && Continuation(bs[3]) then
        var n := Join(Join(Join(b - 0xF0, bs[1]), bs[2]), bs[3]);
        if n >= 0x10000 && IsScalar(n) then Some((n as char, 4)) else None
      else None
    else None
  }

  function Decode(bs: Bytes): Option<string>
    decreases |bs|
  {
    if bs == [] then Some("")
    else match DecodeChar(bs)
      case None => None
      case Some((c, k)) =>
        match Decode(bs[k..])
        case None => None
        case Some(t) => Some([c] + t)
  }

  /** The examples of RFC 3629, section 7: one, two, three and four bytes. */
  lemma PublishedExamples()
    ensures EncodeChar('A') == [0x41] && EncodeChar(0x391 as char) == [0xCE, 0x91]
    ensures EncodeChar(0x2262 as char) == [0xE2, 0x89, 0xA2] && EncodeChar(0xD55C as char) == [0xED, 0x95, 0x9C]
    ensures EncodeChar(0xFEFF as char) == [0xEF, 0xBB, 0xBF] && EncodeChar(0x233B4 as char) == [0xF0, 0xA3, 0x8E, 0xB4]
  {
  }

  lemma JoinTail(n: nat)
    ensures Join(n / 64, Tail(n)) == n
  {
  }

  lemma DecodeCharOfEncoded(c: char, rest: Bytes)
    ensures DecodeChar(EncodeChar(c) + rest) == Some((c, |EncodeChar(c)|))
  {
    var n := c as int;
    var bs := EncodeChar(c) + rest;
    assert bs[0] == EncodeChar(c)[0];
    if n >= 0x80 {
      assert bs[1] == EncodeChar(c)[1];
      JoinTail(n);
      JoinTail(n / 64);
      JoinTail(n / 64 / 64);
      if n >= 0x800 {
        assert bs[2] == EncodeChar(c)[2];
        if n >= 0x10000 {
          assert bs[3] == EncodeChar(c)[3];
        }
      }
    }
  }

  /** What follows a complete character does not change how it is read. */
  lemma DecodeCharExtends(bs: Bytes, rest: Bytes)
    requires bs != [] && DecodeChar(bs).Some?
    ensures DecodeChar(bs + rest) == DecodeChar(bs)
  {
  }

  /** Decoding undoes encoding, also in front of further bytes. */
  lemma {:induction false} DecodeAfterEncoded(s: string, rest: Bytes)
    ensures Decode(Encode(s) + rest) ==
            match Decode(rest) case None => None case Some(t) => Some(s + t)
  {
    hide DecodeChar, EncodeChar;
    if s == "" {
      assert Encode(s) + rest == rest;
      assert forall t: string :: "" + t == t;
    } else {
      var bs := Encode(s) + rest;
      DecodeCharOfEncoded(s[0], Encode(s[1..]) + rest);
      assert bs == EncodeChar(s[0]) + (Encode(s[1..]) + rest);
      assert bs[|EncodeChar(s[0])|..] == Encode(s[1..]) + rest;
      DecodeAfterEncoded(s[1..], rest);
      if Decode(rest).Some? {
        assert [s[0]] + (s[1..] + Decode(rest).value) == s + Decode(rest).value;
      }
    }
  }

  lemma RoundTrip(s: string)
    ensures Decode(Encode(s)) == Some(s)
  {
    DecodeAfterEncoded(s, []);
    assert Encode(s) + [] == Encode(s);
    assert s + "" == s;
  }

  /** Equal bytes mean equal texts. */
  lemma EncodeInjective(s: string, t: string)
    requires Encode(s) == Encode(t)
    ensures s == t
  {
    RoundTrip(s);
    RoundTrip(t);
  }

  /** Appending text to a readable file appends exactly that text to what is read. */
  lemma {:induction false} DecodeAppend(bs: Bytes, t: string)
    requires Decode(bs).Some?
    ensures Decode(bs + Encode(t)) == Some(Decode(bs).value + t)
    decreases |bs|
  {
    hide DecodeChar, EncodeChar;
    if bs == [] {
      RoundTrip(t);
      assert bs + Encode(t) == Encode(t);
      assert "" + t == t;
    } else {
      var (c, k) := DecodeChar(bs).value;
      var all := bs + Encode(t);
      DecodeCharExtends(bs, Encode(t));
      assert all[k..] == bs[k..] + Encode(t);
      DecodeAppend(bs[k..], t);
      assert [c] + (Decode(bs[k..]).value + t) == Decode(bs).value + t;
    }
  }

  // ----- cut byte strings -----

  lemma {:induction false} EncodeConcat(s: string, t: string)
    ensures Encode(s + t) == Encode(s) + Encode(t)
  {
    hide EncodeChar;
    if s == "" {
      assert s + t == t;
    } else {
      assert (s + t)[1..] == s[1..] + t;
      EncodeConcat(s[1..], t);
    }
  }

  /** Cutting encoded text after k bytes cuts the text after some character, or inside the next one. */
  lemma {:induction false} CutEncoding(s: string, k: nat) returns (j: nat, m: nat)
    requires k <= |Encode(s)|
    ensures j <= |s| && (j == |s| ==> m == 0) && (j < |s| ==> m < |EncodeChar(s[j])|)
    ensures Encode(s)[..k] == Encode(s[..j]) + (if j < |s| then EncodeChar(s[j])[..m] else [])
    ensures k == |Encode(s[..j])| + m
  {
    hide EncodeChar;
    if s == "" {
      j, m := 0, 0;
      assert s[..0] == s;
    } else if k < |EncodeChar(s[0])| {
      j, m := 0, k;
      assert s[..0] == "";
      assert Encode(s)[..k] == EncodeChar(s[0])[..k];
    } else {
      var n := |EncodeChar(s[0])|;
      j, m := CutEncoding(s[1..], k - n);
      assert Encode(s)[..k] == EncodeChar(s[0]) + Encode(s[1..])[..k - n];
      assert s[..j + 1][1..] == s[1..][..j] && s[..j + 1][0] == s[0];
      assert Encode(s[..j + 1]) == EncodeChar(s[0]) + Encode(s[1..][..j]);
      j := j + 1;
    }
  }

  /** A longer prefix has more bytes. */
  lemma {:induction false} PrefixBytes(s: string, i: nat, j: nat)
    requires i < j <= |s|
    ensures |Encode(s[..i])| < |Encode(s[..j])|
  {
    hide EncodeChar;
    assert s[..j] == s[..i] + s[i..j];
    EncodeConcat(s[..i], s[i..j]);
  }

  /** A character cut inside cannot be decoded, at the end or in front of an ASCII character. */
  lemma CutCharFails(c: char, m: nat, rest: Bytes)
    requires 0 < m < |EncodeChar(c)| && (rest == [] || rest[0] < 0x80)
    ensures Decode(EncodeChar(c)[..m] + rest).None?
  {
    var e, bs := EncodeChar(c), EncodeChar(c)[..m] + rest;
    assert bs[0] == e[0] && (|bs| > m ==> bs[m] == rest[0]);
    assert |bs| == m || !Continuation(bs[m]);
    LeadByte(c);
    assert DecodeChar(bs).None?;
  }

  /** The first byte of a longer character says how many follow. */
  lemma LeadByte(c: char)
    ensures |EncodeChar(c)| == 2 ==> 0xC2 <= EncodeChar(c)[0] < 0xE0
    ensures |EncodeChar(c)| == 3 ==> 0xE0 <= EncodeChar(c)[0] < 0xF0
    ensures |EncodeChar(c)| == 4 ==> 0xF0 <= EncodeChar(c)[0] < 0xF5
  {
  }
}
