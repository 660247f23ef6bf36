/** The hash-linked anchor log: how an entry is hashed, how verify_anchor_record checks a log, and what
    a verified log proves about its whole history. The digest is any function to 64 hex digits. */
module AnchorChain {
  import opened PyText
  import opened Utf8
  import opened JsonText
  import opened CanonicalJson
  import JsonRoundTrip
  import JsonLines

  predicate IsHex(c: char) { '0' <= c <= '9' || 'a' <= c <= 'f' }

  predicate IsDigest(s: string) { |s| == 64 && forall i :: 0 <= i < 64 ==> IsHex(s[i]) }

  function ZeroDigest(): (s: string)
    ensures IsDigest(s)
  {
    seq(64, i => '0')
  }

  /** hashlib.sha256(data).hexdigest(): nothing is known of it but the shape of its result. */
  type Sha = h: Bytes -> string | forall b :: IsDigest(h(b)) witness (b: Bytes) => ZeroDigest()

  /** hmac_sha256_hex(secret, message) */
  type Hmac = f: (string, string) -> string | forall k, m :: IsDigest(f(k, m))
    witness (k: string, m: string) => ZeroDigest()

  /** --anchor-key-env: not given, naming an unset variable, or naming a secret. */
  datatype AnchorKey = NoKey | MissingKey | Key(secret: string)

  // ----- record fields -----

  function Fields(v: Json): seq<Member> { if v.Obj? then v.members else [] }

  /** record.get(k) */
  function Field(v: Json, k: string): Json { Get(Fields(v), k) }

  function Without(ms: seq<Member>, keys: set<string>): (r: seq<Member>)
    ensures forall i :: 0 <= i < |r| ==> r[i] in ms && r[i].key !in keys
    ensures UniqueKeys(ms) ==> UniqueKeys(r)
  {
    if ms == [] then []
    else
      assert ms == [ms[0]] + ms[1..];
      if ms[0].key in keys then Without(ms[1..], keys) else [ms[0]] + Without(ms[1..], keys)
  }

  /** What stringify() and str(... or "") make of a field that is to be compared with a digest; None for
      values whose text is never a digest. */
  function FieldText(v: Json): Option<string> {
    match v
    case Str(s) => Some(s)
    case Int(n) => Some(if n == 0 then "" else Decimal(n))
    case Null => Some("")
    case _ => None
  }

  const NOT_IN_PAYLOAD := {"payload_sha256", "entry_sha256", "signature"}

  /** anchor_payload_fields */
  function Payload(record: Json): Json { Obj(Without(Fields(record), NOT_IN_PAYLOAD)) }

  /** compute_anchor_payload_sha256 */
  function PayloadSha(sha: Sha, record: Json): string { sha(CanonicalBytes(Payload(record))) }

  function EntryMessage(previous: Option<string>, payloadSha: string): string {
    (if previous.Some? then previous.value else "") + ("\n" + payloadSha)
  }

  /** compute_anchor_entry_sha256 */
  function EntrySha(sha: Sha, previous: Option<string>, payloadSha: string): string {
    sha(Encode(EntryMessage(previous, payloadSha)))
  }

  // ----- verified logs -----

  function LinkJson(previous: Option<string>): Json {
    if previous.Some? then Str(previous.value) else Null
  }

  /** One entry's schema, payload hash, entry hash and link, given the entry hash before it. */
  predicate EntryOk(sha: Sha, record: Json, previous: Option<string>) {
    && Field(record, "schema") == Str("audit_archive_anchor/v1")
    && FieldText(Field(record, "payload_sha256")) == Some(PayloadSha(sha, record))
    && FieldText(Field(record, "entry_sha256")) == Some(EntrySha(sha, previous, PayloadSha(sha, record)))
    && Field(record, "previous_anchor_entry_sha256") == LinkJson(previous)
  }

  /** The signature checks of one entry. */
  predicate SignatureOk(hmac: Hmac, key: AnchorKey, record: Json) {
    match Field(record, "signature_algorithm")
    case Null => Field(record, "signature") == Null
    case Str(a) =>
      && a == "hmac-sha256" && Field(record, "signature").Str? && Field(record, "signature").s != ""
      && (match key
          case NoKey => true
          case MissingKey => false
          case Key(secret) =>
            FieldText(Field(record, "entry_sha256")).Some? &&
            Field(record, "signature").s == hmac(secret, FieldText(Field(record, "entry_sha256")).value))
    case _ => false
  }

  /** What a signing run leaves in an entry: nothing without a key, else the signature of its entry hash. */
  predicate Signed(hmac: Hmac, key: AnchorKey, record: Json) {
    match key
    case NoKey => Field(record, "signature_algorithm") == Null && Field(record, "signature") == Null
    case MissingKey => false
    case Key(secret) =>
      && Field(record, "signature_algorithm") == Str("hmac-sha256") && Field(record, "entry_sha256").Str?
      && Field(record, "signature") == Str(hmac(secret, Field(record, "entry_sha256").s))
  }

  /** The flag verify_anchor_record returns beside an entry: True when it compared the entry's signature. */
  function SignatureVerified(key: AnchorKey, record: Json): Option<bool> {
    if Field(record, "signature_algorithm") == Null || key == NoKey then None else Some(true)
  }

  /** The entry hash a log ends in; None for an empty log. */
  function Tip(log: seq<Json>): Option<string> {
    if log == [] then None else FieldText(Field(log[|log| - 1], "entry_sha256"))
  }

  /** Every entry's hashes are right and every entry names the one before it. */
  predicate Linked(sha: Sha, log: seq<Json>) {
    forall i :: 0 <= i < |log| ==> EntryOk(sha, log[i], Tip(log[..i]))
  }

  /** All that verify_anchor_record requires of one entry. */
  predicate RecordOk(sha: Sha, hmac: Hmac, key: AnchorKey, dir: string, record: Json, previous: Option<string>) {
    && EntryOk(sha, record, previous) && SignatureOk(hmac, key, record)
    && Field(record, "archive_dir") == Str(dir)
  }

  predicate LogOk(sha: Sha, hmac: Hmac, key: AnchorKey, dir: string, log: seq<Json>) {
    forall i :: 0 <= i < |log| ==> RecordOk(sha, hmac, key, dir, log[i], Tip(log[..i]))
  }

  predicate Names(record: Json, indexSha: string) { Field(record, "index_record_sha256") == Str(indexSha) }

  /** The last of the first n entries that names the index record; -1 when none does. */
  function LastNaming(log: seq<Json>, n: nat, indexSha: string): (i: int)
    requires n <= |log|
    ensures -1 <= i < n
  {
    if n == 0 then -1 else if Names(log[n - 1], indexSha) then n - 1 else LastNaming(log, n - 1, indexSha)
  }

  lemma {:induction false} LastNamingIsLast(log: seq<Json>, n: nat, indexSha: string)
    requires n <= |log|
    ensures var i := LastNaming(log, n, indexSha);
            (i >= 0 ==> Names(log[i], indexSha)) && forall j :: i < j < n ==> !Names(log[j], indexSha)
  {
    hide Names;
    if n > 0 { LastNamingIsLast(log, n - 1, indexSha); }
  }

  lemma TipOfPrefix(log: seq<Json>, i: nat)
    requires i < |log|
    ensures Tip(log[..i + 1]) == FieldText(Field(log[i], "entry_sha256"))
  {
  }

  /** The hash that an entry's text has to equal, from the entry hash before it and its own payload hash. */
  function ExpectedEntrySha(sha: Sha, payloadSha: string, previous: Option<string>): string {
    sha(Encode((if previous.Some? then previous.value else "") + ("\n" + payloadSha)))
  }

  predicate SignaturePasses(hmac: Hmac, key: AnchorKey, record: Json, entrySha: string) {
    var algorithm, signature := Field(record, "signature_algorithm"), Field(record, "signature");
    || (algorithm == Null && signature == Null)
    || (&& algorithm == Str("hmac-sha256") && signature.Str? && signature.s != "" && !key.MissingKey?
        && (key.Key? ==> signature.s == hmac(key.secret, entrySha)))
  }

  /** What one entry has to satisfy, field by field. */
  predicate EntryPasses(sha: Sha, hmac: Hmac, key: AnchorKey, dir: string, record: Json, previous: Option<string>) {
    var payloadSha :=
      sha(CanonicalBytes(Obj(Without(Fields(record), {"payload_sha256", "entry_sha256", "signature"}))));
    var entrySha := ExpectedEntrySha(sha, payloadSha, previous);
    && Field(record, "schema") == Str("audit_archive_anchor/v1")
    && FieldText(Field(record, "payload_sha256")) == Some(payloadSha)
    && FieldText(Field(record, "entry_sha256")) == Some(entrySha)
    && Field(record, "previous_anchor_entry_sha256") == (if previous.Some? then Str(previous.value) else Null)
    && Field(record, "archive_dir") == Str(dir)
    && SignaturePasses(hmac, key, record, entrySha)
  }

  lemma SignatureMeans(hmac: Hmac, key: AnchorKey, record: Json, entrySha: string)
    requires FieldText(Field(record, "entry_sha256")) == Some(entrySha)
    ensures SignatureOk(hmac, key, record) <==> SignaturePasses(hmac, key, record, entrySha)
  {
    hide FieldText, Get;
  }

  lemma HashedMeans(sha: Sha, record: Json)
    ensures PayloadSha(sha, record) ==
            sha(CanonicalBytes(Obj(Without(Fields(record), {"payload_sha256", "entry_sha256", "signature"}))))
  {
    hide CanonicalBytes, Without;
    assert NOT_IN_PAYLOAD == {"payload_sha256", "entry_sha256", "signature"};
  }

  /** The checks of verify_anchor_record on one entry are those. */
  lemma RecordOkMeans(sha: Sha, hmac: Hmac, key: AnchorKey, dir: string, record: Json, previous: Option<string>)
    ensures RecordOk(sha, hmac, key, dir, record, previous) <==> EntryPasses(sha, hmac, key, dir, record, previous)
  {
    hide Field, FieldText, CanonicalBytes, Encode, Without, Payload, PayloadSha, SignatureOk, SignaturePasses;
    HashedMeans(sha, record);
    var entrySha := ExpectedEntrySha(sha, PayloadSha(sha, record), previous);
    if FieldText(Field(record, "entry_sha256")) == Some(entrySha) {
      SignatureMeans(hmac, key, record, entrySha);
    }
  }

  lemma TipBefore(log: seq<Json>, i: nat)
    requires i < |log|
    ensures Tip(log[..i]) == if i == 0 then None else FieldText(Field(log[i - 1], "entry_sha256"))
  {
  }

  /** verify_anchor_record: the whole log is checked; the last entry for the index record is returned. */
  method VerifyAnchorRecord(sha: Sha, hmac: Hmac, key: AnchorKey, records: seq<Json>, indexSha: string, dir: string)
    returns (r: Result<(Json, Option<bool>)>)
    ensures r.Ok? <==> LogOk(sha, hmac, key, dir, records) && LastNaming(records, |records|, indexSha) >= 0
    ensures r.Ok? ==> var record := records[LastNaming(records, |records|, indexSha)];
                      r.value == (record, SignatureVerified(key, record))
    ensures r.Ok? <==>
              && (exists i :: 0 <= i < |records| && Field(records[i], "index_record_sha256") == Str(indexSha))
              && forall i :: 0 <= i < |records| ==>
                   EntryPasses(sha, hmac, key, dir, records[i],
                               if i == 0 then None else FieldText(Field(records[i - 1], "entry_sha256")))
    ensures r.Ok? ==>
              exists i :: 0 <= i < |records|
                && r.value.0 == records[i] && Field(records[i], "index_record_sha256") == Str(indexSha)
                && (forall j :: i < j < |records| ==> Field(records[j], "index_record_sha256") != Str(indexSha))
                && r.value.1 ==
                     (if Field(records[i], "signature_algorithm") == Null || key.NoKey? then None else Some(true))
  {
    hide EntryOk, SignatureOk, Field, FieldText, Tip, EntryPasses;
    if records == [] {
      return Err("anchor log has no records");
    }
    var previous: Option<string> := None;
    var matched: Option<(Json, Option<bool>)> := None;
    assert Tip(records[..0]) == None by { EmptyTip(records); }
    forall i | 0 <= i < |records|
      ensures RecordOk(sha, hmac, key, dir, records[i], Tip(records[..i])) <==>
              EntryPasses(sha, hmac, key, dir, records[i],
                          if i == 0 then None else FieldText(Field(records[i - 1], "entry_sha256")))
    {
      RecordOkMeans(sha, hmac, key, dir, records[i], Tip(records[..i]));
      TipBefore(records, i);
    }
    for i := 0 to |records|
      invariant previous == Tip(records[..i])
      invariant forall j :: 0 <= j < i ==> RecordOk(sha, hmac, key, dir, records[j], Tip(records[..j]))
      invariant var m := LastNaming(records, i, indexSha);
                matched == if m < 0 then None else Some((records[m], SignatureVerified(key, records[m])))
    {
      if !EntryOk(sha, records[i], previous) {
        return Err("anchor hashes or link do not match");
      }
      if !SignatureOk(hmac, key, records[i]) {
        return Err("anchor signature does not match");
      }
      if Field(records[i], "archive_dir") != Str(dir) {
        return Err("archive_dir does not match selected archive");
      }
      if Names(records[i], indexSha) {
        var verified := if Field(records[i], "signature_algorithm") == Null || key == NoKey then None else Some(true);
        matched := Some((records[i], verified));
      }
      TipOfPrefix(records, i);
      previous := FieldText(Field(records[i], "entry_sha256"));
    }
    LastNamingIsLast(records, |records|, indexSha);
    if matched.None? {
      return Err("anchor log has no record for selected archive index entry");
    }
    r := Ok(matched.value);
  }

  /** What a key asks of one entry: with a secret, a signed entry carries that secret's signature; with a
      variable that is not set, the entry is not signed. An unsigned entry passes either way. */
  predicate KeyFits(hmac: Hmac, key: AnchorKey, record: Json) {
    Field(record, "signature_algorithm") == Null ||
    match key
    case NoKey => true
    case MissingKey => false
    case Key(secret) =>
      && FieldText(Field(record, "entry_sha256")).Some?
      && Field(record, "signature") == Str(hmac(secret, FieldText(Field(record, "entry_sha256")).value))
  }

  lemma KeyedRecord(sha: Sha, hmac: Hmac, key: AnchorKey, dir: string, record: Json, previous: Option<string>)
    ensures RecordOk(sha, hmac, key, dir, record, previous) <==>
            RecordOk(sha, hmac, NoKey, dir, record, previous) && KeyFits(hmac, key, record)
  {
    hide EntryOk, Field, FieldText;
  }

  /** The check with a key is the check without one, plus what the key asks of every entry. */
  lemma KeyedCheck(sha: Sha, hmac: Hmac, key: AnchorKey, dir: string, log: seq<Json>)
    ensures LogOk(sha, hmac, key, dir, log) <==>
            LogOk(sha, hmac, NoKey, dir, log) && forall i :: 0 <= i < |log| ==> KeyFits(hmac, key, log[i])
  {
    hide RecordOk, KeyFits, Tip;
    forall i | 0 <= i < |log|
      ensures RecordOk(sha, hmac, key, dir, log[i], Tip(log[..i])) <==>
              RecordOk(sha, hmac, NoKey, dir, log[i], Tip(log[..i])) && KeyFits(hmac, key, log[i])
    {
      KeyedRecord(sha, hmac, key, dir, log[i], Tip(log[..i]));
    }
  }

  lemma EmptyTip(log: seq<Json>)
    ensures Tip(log[..0]) == None
  {
  }

  // ----- tamper evidence -----

  lemma LinkedPrefix(sha: Sha, log: seq<Json>, n: nat)
    requires Linked(sha, log) && n <= |log|
    ensures Linked(sha, log[..n])
  {
    hide EntryOk;
    forall i | 0 <= i < n ensures EntryOk(sha, log[..n][i], Tip(log[..n][..i])) {
      assert log[..n][..i] == log[..i];
    }
  }

  /** The tip of a verified log is None or a digest, so it can be told apart inside an entry message. */
  lemma TipShape(sha: Sha, log: seq<Json>)
    requires Linked(sha, log)
    ensures log == [] <==> Tip(log).None?
    ensures log != [] ==> IsDigest(Tip(log).value)
  {
    if log != [] {
      assert EntryOk(sha, log[|log| - 1], Tip(log[..|log| - 1]));
    }
  }

  /** The message prev\npayload can be taken apart again. */
  lemma EntryMessageInjective(p: Option<string>, x: string, q: Option<string>, y: string)
    requires p.Some? ==> IsDigest(p.value)
    requires q.Some? ==> IsDigest(q.value)
    requires IsDigest(x) && IsDigest(y)
    requires EntryMessage(p, x) == EntryMessage(q, y)
    ensures p == q && x == y
  {
    var m, n := EntryMessage(p, x), EntryMessage(q, y);
    assert |m| == |n|;
    assert p.Some? <==> q.Some?;
    var k := if p.Some? then 64 else 0;
    assert m[k + 1..] == x && n[k + 1..] == y;
    if p.Some? {
      assert m[..64] == p.value && n[..64] == q.value;
    }
  }

  /** Two different byte strings that were both hashed, with the same digest. */
  datatype Evidence = NoCollision | Collision(x: Bytes, y: Bytes)

  function LastMessage(sha: Sha, log: seq<Json>): Bytes
    requires log != []
  {
    Encode(EntryMessage(Tip(log[..|log| - 1]), PayloadSha(sha, log[|log| - 1])))
  }

  function LastPayload(log: seq<Json>): Bytes
    requires log != []
  {
    CanonicalBytes(Payload(log[|log| - 1]))
  }

  /** Everything that is hashed while the log is verified. */
  function HashedBytes(sha: Sha, log: seq<Json>): set<Bytes> {
    if log == [] then {} else HashedBytes(sha, log[..|log| - 1]) + {LastMessage(sha, log), LastPayload(log)}
  }

  /** Walks two logs backwards from a common tip and stops at the first pair of bytes that differ although
      their digests agree. */
  function Compare(sha: Sha, a: seq<Json>, b: seq<Json>): Evidence
    decreases |a|
  {
    if a == [] || b == [] then NoCollision
    else if LastMessage(sha, a) != LastMessage(sha, b) then Collision(LastMessage(sha, a), LastMessage(sha, b))
    else if LastPayload(a) != LastPayload(b) then Collision(LastPayload(a), LastPayload(b))
    else Compare(sha, a[..|a| - 1], b[..|b| - 1])
  }

  predicate IsCollision(sha: Sha, a: seq<Json>, b: seq<Json>, e: Evidence) {
    && e.Collision? && e.x != e.y && sha(e.x) == sha(e.y)
    && e.x in HashedBytes(sha, a) && e.y in HashedBytes(sha, b)
  }

  predicate AllDicts(log: seq<Json>) {
    forall i :: 0 <= i < |log| ==> log[i].Obj? && IsDict(log[i])
  }

  /** The two logs have the same entries, up to the key order of the payloads and the signatures. */
  ghost predicate SameHistory(a: seq<Json>, b: seq<Json>) {
    && |a| == |b|
    && forall i :: 0 <= i < |a| ==>
         Meaning(Payload(a[i])) == Meaning(Payload(b[i])) && Tip(a[..i + 1]) == Tip(b[..i + 1])
  }

  lemma PayloadIsDict(record: Json)
    requires IsDict(record)
    ensures IsDict(Payload(record))
  {
    var ms := Fields(record);
    var w := Without(ms, NOT_IN_PAYLOAD);
    forall i | 0 <= i < |w| ensures IsDict(w[i].value) {
      assert w[i] in ms;
    }
  }

  /** Equal tips come from equal hashes; equal last messages leave equal tips one entry earlier. */
  lemma LastEntries(sha: Sha, a: seq<Json>, b: seq<Json>)
    requires Linked(sha, a) && Linked(sha, b) && a != [] && b != [] && Tip(a) == Tip(b)
    ensures sha(LastMessage(sha, a)) == sha(LastMessage(sha, b))
    ensures LastMessage(sha, a) == LastMessage(sha, b) ==>
              && Tip(a[..|a| - 1]) == Tip(b[..|b| - 1])
              && sha(LastPayload(a)) == sha(LastPayload(b))
  {
    hide Field, FieldText, CanonicalBytes, Payload, Encode, EntryMessage;
    var m, n := |a| - 1, |b| - 1;
    assert EntryOk(sha, a[m], Tip(a[..m])) && EntryOk(sha, b[n], Tip(b[..n]));
    if LastMessage(sha, a) == LastMessage(sha, b) {
      LinkedPrefix(sha, a, m);
      LinkedPrefix(sha, b, n);
      TipShape(sha, a[..m]);
      TipShape(sha, b[..n]);
      EncodeInjective(EntryMessage(Tip(a[..m]), PayloadSha(sha, a[m])),
                      EntryMessage(Tip(b[..n]), PayloadSha(sha, b[n])));
      EntryMessageInjective(Tip(a[..m]), PayloadSha(sha, a[m]), Tip(b[..n]), PayloadSha(sha, b[n]));
    }
  }

  /** Tamper evidence: two verified logs that end in the same entry hash have the same history, or the
      walk back from the tip exhibits two different byte strings with the same digest. */
  lemma {:induction false} TamperEvidence(sha: Sha, a: seq<Json>, b: seq<Json>)
    requires Linked(sha, a) && Linked(sha, b) && AllDicts(a) && AllDicts(b)
    requires Tip(a) == Tip(b)
    ensures SameHistory(a, b) || IsCollision(sha, a, b, Compare(sha, a, b))
    decreases |a|
  {
    hide IsDict, Tip, Linked, LastMessage, LastPayload, SameHistory;
    TipShape(sha, a);
    TipShape(sha, b);
    if a == [] {
      EmptyHistory();
    } else {
      var m, n := |a| - 1, |b| - 1;
      LastEntries(sha, a, b);
      if LastMessage(sha, a) == LastMessage(sha, b) && LastPayload(a) == LastPayload(b) {
        SamePayloads(a, b);
        LinkedPrefix(sha, a, m);
        LinkedPrefix(sha, b, n);
        TamperEvidence(sha, a[..m], b[..n]);
        if SameHistory(a[..m], b[..n]) { HistoryStep(a, b); }
      }
    }
  }

  lemma EmptyHistory()
    ensures SameHistory([], [])
  {
  }

  lemma SamePayloads(a: seq<Json>, b: seq<Json>)
    requires a != [] && b != [] && AllDicts(a) && AllDicts(b) && LastPayload(a) == LastPayload(b)
    ensures Meaning(Payload(a[|a| - 1])) == Meaning(Payload(b[|b| - 1]))
  {
    hide IsDict, Payload, Meaning, CanonicalBytes;
    PayloadIsDict(a[|a| - 1]);
    PayloadIsDict(b[|b| - 1]);
    CanonicalBytesDecideEquality(Payload(a[|a| - 1]), Payload(b[|b| - 1]));
  }

  lemma HistoryStep(a: seq<Json>, b: seq<Json>)
    requires a != [] && b != [] && SameHistory(a[..|a| - 1], b[..|b| - 1])
    requires Meaning(Payload(a[|a| - 1])) == Meaning(Payload(b[|b| - 1])) && Tip(a) == Tip(b)
    ensures SameHistory(a, b)
  {
    hide Meaning, Payload, Tip;
    var m := |a| - 1;
    forall i | 0 <= i < |a|
      ensures Meaning(Payload(a[i])) == Meaning(Payload(b[i])) && Tip(a[..i + 1]) == Tip(b[..i + 1])
    {
      if i < m {
        assert a[..m][i] == a[i] && b[..m][i] == b[i];
        assert a[..m][..i + 1] == a[..i + 1] && b[..m][..i + 1] == b[..i + 1];
      } else {
        assert a[..i + 1] == a && b[..i + 1] == b;
      }
    }
  }

  /** Logs read from files meet the dict assumption. */
  lemma {:induction false} LoadedLogIsDicts(lines: seq<string>)
    requires JsonLines.LoadLines(lines).Ok?
    ensures AllDicts(JsonLines.LoadLines(lines).value)
  {
    hide IsDict, Loads;
    if lines != [] {
      LoadedLogIsDicts(lines[1..]);
      if Strip(lines[0]) != "" { JsonRoundTrip.LoadedIsDict(Strip(lines[0])); }
    }
  }

  /** Tamper evidence for the bytes of two anchor files. */
  lemma TamperEvidenceForFiles(sha: Sha, a: Bytes, b: Bytes)
    requires JsonLines.LoadBytes(a).Ok? && JsonLines.LoadBytes(b).Ok?
    ensures var x, y := JsonLines.LoadBytes(a).value, JsonLines.LoadBytes(b).value;
            Linked(sha, x) && Linked(sha, y) && Tip(x) == Tip(y) ==>
              SameHistory(x, y) || IsCollision(sha, x, y, Compare(sha, x, y))
  {
    hide Linked, Tip, SameHistory, IsCollision, JsonLines.LoadLines, JsonLines.Lines;
    hide Decode;
    var x, y := JsonLines.LoadBytes(a).value, JsonLines.LoadBytes(b).value;
    LoadedLogIsDicts(JsonLines.Lines(Decode(a).value));
    LoadedLogIsDicts(JsonLines.Lines(Decode(b).value));
    if Linked(sha, x) && Linked(sha, y) && Tip(x) == Tip(y) {
      TamperEvidence(sha, x, y);
    }
  }

  // ----- altered entries -----

  lemma {:induction false} WithoutPut(ms: seq<Member>, m: Member, keys: set<string>)
    ensures Without(Put(ms, m), keys) == if m.key in keys then Without(ms, keys) else Put(Without(ms, keys), m)
  {
    hide HasKey, UniqueKeys;
    if ms == [] {
      assert [m][1..] == [];
    } else if ms[0].key == m.key {
      assert Put(ms, m) == [m] + ms[1..] && Put(ms, m)[1..] == ms[1..];
    } else {
      WithoutPut(ms[1..], m, keys);
      var r := [ms[0]] + Put(ms[1..], m);
      assert Put(ms, m) == r && r[1..] == Put(ms[1..], m);
      var kept := [ms[0]] + Without(ms[1..], keys);
      assert kept[1..] == Without(ms[1..], keys);
    }
  }

  lemma {:induction false} MeaningOfPut(ms: seq<Member>, m: Member)
    ensures MeaningOfMembers(Put(ms, m)) == MeaningOfMembers(ms)[m.key := Meaning(m.value)]
  {
    hide HasKey, UniqueKeys, Meaning;
    if ms == [] {
      assert [m][1..] == [];
    } else if ms[0].key == m.key {
      assert Put(ms, m) == [m] + ms[1..] && Put(ms, m)[1..] == ms[1..];
    } else {
      MeaningOfPut(ms[1..], m);
      var r := [ms[0]] + Put(ms[1..], m);
      assert Put(ms, m) == r && r[1..] == Put(ms[1..], m);
    }
  }

  /** An entry with one field assigned. */
  function Altered(record: Json, f: string, v: Json): Json { Obj(Put(Fields(record), Member(f, v))) }

  /** The log with one field of one entry assigned. */
  function AlteredLog(log: seq<Json>, i: nat, f: string, v: Json): seq<Json>
    requires i < |log|
  {
    log[i := Altered(log[i], f, v)]
  }

  lemma AlteredField(record: Json, f: string, v: Json, k: string)
    ensures Field(Altered(record, f, v), k) == if k == f then v else Field(record, k)
  {
    PutLooksUp(Fields(record), Member(f, v), k);
  }

  /** Assigning a hash field or the signature leaves what is hashed as it was. */
  lemma AlteredPayload(record: Json, f: string, v: Json)
    ensures f in NOT_IN_PAYLOAD ==> Payload(Altered(record, f, v)) == Payload(record)
    ensures f !in NOT_IN_PAYLOAD ==>
              Meaning(Payload(Altered(record, f, v))) ==
              VObj(MeaningOfMembers(Payload(record).members)[f := Meaning(v)])
  {
    hide Put, Without, Meaning;
    WithoutPut(Fields(record), Member(f, v), NOT_IN_PAYLOAD);
    MeaningOfPut(Without(Fields(record), NOT_IN_PAYLOAD), Member(f, v));
    MeaningOfObject(Payload(Altered(record, f, v)).members);
  }

  lemma MeaningOfObject(ms: seq<Member>)
    ensures Meaning(Obj(ms)) == VObj(MeaningOfMembers(ms))
  {
  }

  lemma AcceptedAlteration(sha: Sha, hmac: Hmac, key: AnchorKey, dir: string, log: seq<Json>, i: nat, f: string,
                           v: Json)
    requires i < |log| && LogOk(sha, hmac, key, dir, log) && LogOk(sha, hmac, key, dir, AlteredLog(log, i, f, v))
    ensures RecordOk(sha, hmac, key, dir, log[i], Tip(log[..i]))
    ensures RecordOk(sha, hmac, key, dir, Altered(log[i], f, v), Tip(log[..i]))
  {
    hide RecordOk, Tip, Altered;
    var other := AlteredLog(log, i, f, v);
    assert other[..i] == log[..i];
    assert RecordOk(sha, hmac, key, dir, other[i], Tip(other[..i]));
  }

  /** Two entries that pass behind the same entry: what is fixed, and what the hashed part decides. */
  lemma BothPass(sha: Sha, hmac: Hmac, key: AnchorKey, dir: string, a: Json, b: Json, previous: Option<string>)
    requires RecordOk(sha, hmac, key, dir, a, previous) && RecordOk(sha, hmac, key, dir, b, previous)
    ensures Field(a, "schema") == Field(b, "schema") && Field(a, "archive_dir") == Field(b, "archive_dir")
    ensures Field(a, "previous_anchor_entry_sha256") == Field(b, "previous_anchor_entry_sha256")
    ensures Payload(a) == Payload(b) ==>
              && FieldText(Field(a, "payload_sha256")) == FieldText(Field(b, "payload_sha256"))
              && FieldText(Field(a, "entry_sha256")) == FieldText(Field(b, "entry_sha256"))
    ensures FieldText(Field(a, "payload_sha256")) == FieldText(Field(b, "payload_sha256")) ==>
              sha(CanonicalBytes(Payload(a))) == sha(CanonicalBytes(Payload(b)))
    ensures Field(a, "signature_algorithm") == Field(b, "signature_algorithm")
            && FieldText(Field(a, "entry_sha256")) == FieldText(Field(b, "entry_sha256"))
            && (key.Key? || Field(a, "signature_algorithm").Null?) ==>
              Field(a, "signature") == Field(b, "signature")
  {
    hide Field, FieldText, CanonicalBytes, Encode, Payload;
  }

  /** An accepted log with one field of one entry changed is refused: for a hash field, the schema, the link and
      the archive always, for the signature when it is checked or must be missing, and for every field that is
      hashed unless the two hashed texts are a digest collision. */
  lemma AlteredEntryIsRefused(sha: Sha, hmac: Hmac, key: AnchorKey, dir: string, log: seq<Json>, i: nat, f: string,
                              v: Json)
    requires LogOk(sha, hmac, key, dir, log) && i < |log| && IsDict(log[i]) && IsDict(v)
    ensures var accepted := LogOk(sha, hmac, key, dir, AlteredLog(log, i, f, v));
            var was := Field(log[i], f);
            var x, y := CanonicalBytes(Payload(log[i])), CanonicalBytes(Payload(Altered(log[i], f, v)));
            && ((f in {"payload_sha256", "entry_sha256"} && FieldText(v) != FieldText(was)) ==> !accepted)
            && ((f in {"schema", "previous_anchor_entry_sha256", "archive_dir"} && v != was) ==> !accepted)
            && ((f == "signature" && v != was && (key.Key? || Field(log[i], "signature_algorithm").Null?)) ==>
                  !accepted)
            && ((f !in {"payload_sha256", "entry_sha256", "signature"}
                 && Meaning(Obj(Fields(log[i]))) != Meaning(Altered(log[i], f, v))) ==>
                  !accepted || (x != y && sha(x) == sha(y)))
  {
    hide Field, FieldText, CanonicalBytes, Altered, LogOk, RecordOk, IsDict, Meaning, Payload;
    if LogOk(sha, hmac, key, dir, AlteredLog(log, i, f, v)) {
      AcceptedAlteration(sha, hmac, key, dir, log, i, f, v);
      var r := Altered(log[i], f, v);
      BothPass(sha, hmac, key, dir, log[i], r, Tip(log[..i]));
      forall k: string ensures Field(r, k) == if k == f then v else Field(log[i], k) {
        AlteredField(log[i], f, v, k);
      }
      AlteredPayload(log[i], f, v);
      if f !in NOT_IN_PAYLOAD && Meaning(Obj(Fields(log[i]))) != Meaning(r) {
        PayloadDiffers(log[i], f, v);
      }
    }
  }

  lemma PayloadDiffers(record: Json, f: string, v: Json)
    requires IsDict(record) && IsDict(v) && f !in NOT_IN_PAYLOAD
    requires Meaning(Obj(Fields(record))) != Meaning(Altered(record, f, v))
    ensures CanonicalBytes(Payload(record)) != CanonicalBytes(Payload(Altered(record, f, v)))
  {
    hide CanonicalBytes, Altered, IsDict, Meaning, Payload;
    PayloadChanges(record, f, v);
    PayloadIsDict(record);
    AlteredIsDict(record, f, v);
    PayloadIsDict(Altered(record, f, v));
    CanonicalBytesDecideEquality(Payload(record), Payload(Altered(record, f, v)));
  }

  lemma AlteredIsDict(record: Json, f: string, v: Json)
    requires IsDict(record) && IsDict(v)
    ensures IsDict(Altered(record, f, v))
  {
    var ms, r := Fields(record), Put(Fields(record), Member(f, v));
    forall i | 0 <= i < |r| ensures IsDict(r[i].value) {
      assert r[i] in r;
    }
  }

  /** A changed field that is hashed changes what the hashed part means. */
  lemma PayloadChanges(record: Json, f: string, v: Json)
    requires IsDict(record) && f !in NOT_IN_PAYLOAD
    requires Meaning(Obj(Fields(record))) != Meaning(Altered(record, f, v))
    ensures Meaning(Payload(record)) != Meaning(Payload(Altered(record, f, v)))
  {
    hide Put, IsDict, Meaning;
    var ms, w := Fields(record), Without(Fields(record), NOT_IN_PAYLOAD);
    AlteredPayload(record, f, v);
    MeaningOfObject(ms);
    MeaningOfObject(w);
    MeaningOfObject(Put(ms, Member(f, v)));
    MeaningOfPut(ms, Member(f, v));
    MeaningWithout(ms, NOT_IN_PAYLOAD, f);
  }

  lemma {:induction false} MeaningWithout(ms: seq<Member>, keys: set<string>, k: string)
    requires k !in keys
    ensures k in MeaningOfMembers(Without(ms, keys)) <==> k in MeaningOfMembers(ms)
    ensures k in MeaningOfMembers(ms) ==> MeaningOfMembers(Without(ms, keys))[k] == MeaningOfMembers(ms)[k]
  {
    hide Meaning;
    if ms != [] {
      MeaningWithout(ms[1..], keys, k);
      if ms[0].key !in keys {
        var kept := [ms[0]] + Without(ms[1..], keys);
        assert kept[1..] == Without(ms[1..], keys);
      }
    }
  }
}
