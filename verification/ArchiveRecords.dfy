/** The index record and the anchor record that one archive run builds from its inputs and the tip. */
module ArchiveRecords {
  import opened PyText
  import opened Utf8
  import opened JsonText
  import opened CanonicalJson
  import opened AnchorChain

  /** What a run knows once its bundle is verified and its paths are built. */
  datatype Bundle = Bundle(
    jobId: string,
    tenantId: Option<string>,
    archiveDir: string,
    indexFile: string,
    anchorFile: string,
    sourceChainFile: string,
    sourceSealFile: string,
    chainFile: string,
    sealFile: string,
    chainSha: string,
    sealSha: string,
    signatureAlgorithm: Json,
    signatureVerified: Json,
    secretSource: Json,
    sourceOutBase: Json,
    contractSummary: Json,
    anchorKeyEnv: string,
    anchorKey: AnchorKey)

  /** The JSON parts of a bundle come from parsed files. */
  predicate WellFormed(b: Bundle) {
    && IsDict(b.signatureAlgorithm) && IsDict(b.signatureVerified) && IsDict(b.secretSource)
    && IsDict(b.sourceOutBase) && IsDict(b.contractSummary)
  }

  function OptionJson(o: Option<string>): Json { if o.Some? then Str(o.value) else Null }

  function IndexBase(b: Bundle, ts: string): seq<Member> {
    [ Member("schema", Str("audit_archive_index/v1")),
      Member("ts_utc", Str(ts)),
      Member("event", Str("archive_audit_bundle")),
      Member("job_id", Str(b.jobId)),
      Member("correlation_id", Str(b.jobId)),
      Member("tenant_id", OptionJson(b.tenantId)),
      Member("archive_dir", Str(b.archiveDir)),
      Member("index_file", Str(b.indexFile)),
      Member("source_audit_chain_file", Str(b.sourceChainFile)),
      Member("source_audit_seal_file", Str(b.sourceSealFile)),
      Member("archived_audit_chain_file", Str(b.chainFile)),
      Member("archived_audit_seal_file", Str(b.sealFile)),
      Member("audit_chain_sha256", Str(b.chainSha)),
      Member("audit_seal_sha256", Str(b.sealSha)),
      Member("artifact_sha256_verified", Bool(true)),
      Member("signature_algorithm", b.signatureAlgorithm),
      Member("signature_verified", b.signatureVerified),
      Member("secret_source", b.secretSource),
      Member("source_out_base", b.sourceOutBase),
      Member("mainline_contract_summary", b.contractSummary) ]
  }

  const NOT_IN_INDEX_HASH := {"anchor_file", "anchor_entry_sha256"}

  /** archive_index_record_sha256 */
  function IndexSha(sha: Sha, record: Json): string {
    sha(CanonicalBytes(Obj(Without(Fields(record), NOT_IN_INDEX_HASH))))
  }

  /** The index record as it is appended, with the two anchor fields added last. */
  function IndexRecord(b: Bundle, ts: string, anchorEntry: string): Json {
    Obj(IndexBase(b, ts) +
        [Member("anchor_file", Str(b.anchorFile)), Member("anchor_entry_sha256", Str(anchorEntry))])
  }

  /** What main reads from the last anchor entry: its hash and its position. */
  datatype TipInfo = TipInfo(previous: Option<string>, position: int)

  function AnchorBase(b: Bundle, ts: string, indexSha: string, tip: TipInfo): seq<Member> {
    [ Member("schema", Str("audit_archive_anchor/v1")),
      Member("ts_utc", Str(ts)),
      Member("event", Str("anchor_audit_bundle")),
      Member("job_id", Str(b.jobId)),
      Member("correlation_id", Str(b.jobId)),
      Member("tenant_id", OptionJson(b.tenantId)),
      Member("archive_dir", Str(b.archiveDir)),
      Member("anchor_file", Str(b.anchorFile)),
      Member("index_file", Str(b.indexFile)),
      Member("archived_audit_chain_file", Str(b.chainFile)),
      Member("archived_audit_seal_file", Str(b.sealFile)),
      Member("index_record_sha256", Str(indexSha)),
      Member("previous_anchor_entry_sha256", LinkJson(tip.previous)),
      Member("chain_position", Int(tip.position + 1)),
      Member("signature_algorithm", if b.anchorKey.NoKey? then Null else Str("hmac-sha256")),
      Member("secret_source", if b.anchorKey.NoKey? then Null else
                                Obj([Member("kind", Str("env")), Member("env", Str(b.anchorKeyEnv))])) ]
  }

  function AnchorEntrySha(sha: Sha, base: seq<Member>, tip: TipInfo): string {
    EntrySha(sha, tip.previous, sha(CanonicalBytes(Obj(base))))
  }

  /** The anchor record; None when the signing key's variable is not set. */
  function AnchorRecord(sha: Sha, hmac: Hmac, b: Bundle, ts: string, indexSha: string, tip: TipInfo): Option<Json> {
    var base := AnchorBase(b, ts, indexSha, tip);
    var entry := AnchorEntrySha(sha, base, tip);
    if b.anchorKey.MissingKey? then None
    else Some(Obj(base +
        [ Member("payload_sha256", Str(sha(CanonicalBytes(Obj(base))))),
          Member("entry_sha256", Str(entry)),
          Member("signature", if b.anchorKey.NoKey? then Null else Str(hmac(b.anchorKey.secret, entry))) ]))
  }

  /** Both records of one run. */
  function Records(sha: Sha, hmac: Hmac, b: Bundle, indexTs: string, anchorTs: string, tip: TipInfo)
    : Option<(Json, Json)>
  {
    var indexSha := sha(CanonicalBytes(Obj(IndexBase(b, indexTs))));
    match AnchorRecord(sha, hmac, b, anchorTs, indexSha, tip)
    case None => None
    case Some(anchor) =>
      Some((IndexRecord(b, indexTs, AnchorEntrySha(sha, AnchorBase(b, anchorTs, indexSha, tip), tip)), anchor))
  }

  // ----- what the built records say -----

  lemma {:induction false} WithoutAll(tail: seq<Member>, keys: set<string>)
    requires forall i :: 0 <= i < |tail| ==> tail[i].key in keys
    ensures Without(tail, keys) == []
  {
    if tail != [] { WithoutAll(tail[1..], keys); }
  }

  lemma {:induction false} WithoutDropsTail(ms: seq<Member>, tail: seq<Member>, keys: set<string>)
    requires forall i :: 0 <= i < |ms| ==> ms[i].key !in keys
    requires forall i :: 0 <= i < |tail| ==> tail[i].key in keys
    ensures Without(ms + tail, keys) == ms
  {
    if ms == [] {
      assert ms + tail == tail;
      WithoutAll(tail, keys);
    } else {
      assert (ms + tail)[1..] == ms[1..] + tail && (ms + tail)[0] == ms[0];
      WithoutDropsTail(ms[1..], tail, keys);
    }
  }

  const INDEX_KEYS: seq<string> := [
    "schema", "ts_utc", "event", "job_id", "correlation_id", "tenant_id", "archive_dir", "index_file",
    "source_audit_chain_file", "source_audit_seal_file", "archived_audit_chain_file",
    "archived_audit_seal_file", "audit_chain_sha256", "audit_seal_sha256", "artifact_sha256_verified",
    "signature_algorithm", "signature_verified", "secret_source", "source_out_base",
    "mainline_contract_summary", "anchor_file", "anchor_entry_sha256"]

  const ANCHOR_KEYS: seq<string> := [
    "schema", "ts_utc", "event", "job_id", "correlation_id", "tenant_id", "archive_dir", "anchor_file",
    "index_file", "archived_audit_chain_file", "archived_audit_seal_file", "index_record_sha256",
    "previous_anchor_entry_sha256", "chain_position", "signature_algorithm", "secret_source", "payload_sha256",
    "entry_sha256", "signature"]

  /** Tells the field names apart by their length and two characters. */
  function Fingerprint(k: string): int
    requires |k| >= 3
  {
    1000 * |k| + k[1] as int + k[2] as int
  }

  /** The place in INDEX_KEYS of the key with this fingerprint. */
  function IndexKeyPlace(f: int): nat {
    if f == 6203 then 0 else if f == 6210 then 1 else if f == 5219 then 2 else if f == 6209 then 3
    else if f == 14225 then 4 else if f == 9211 then 5 else if f == 11213 then 6 else if f == 10210 then 7
    else if f == 23228 then 8 else if f == 22228 then 9 else if f == 25213 then 10 else if f == 24213 then 11
    else if f == 18217 then 12 else if f == 17217 then 13 else if f == 24230 then 14 else if f == 19208 then 15
    else if f == 18208 then 16 else if f == 13200 then 17 else if f == 15228 then 18 else if f == 25202 then 19
    else if f == 11209 then 20 else if f == 19209 then 21 else 22
  }

  /** The place in ANCHOR_KEYS of the key with this fingerprint. */
  function AnchorKeyPlace(f: int): nat {
    if f == 6203 then 0 else if f == 6210 then 1 else if f == 5219 then 2 else if f == 6209 then 3
    else if f == 14225 then 4 else if f == 9211 then 5 else if f == 11213 then 6 else if f == 11209 then 7
    else if f == 10210 then 8 else if f == 25213 then 9 else if f == 24213 then 10 else if f == 19210 then 11
    else if f == 28215 then 12 else if f == 14201 then 13 else if f == 19208 then 14 else if f == 13200 then 15
    else if f == 14218 then 16 else if f == 12226 then 17 else if f == 9208 then 18 else 19
  }

  lemma IndexKeysDistinct()
    ensures forall i, j :: 0 <= i < j < |INDEX_KEYS| ==> INDEX_KEYS[i] != INDEX_KEYS[j]
  {
    forall i | 0 <= i < |INDEX_KEYS|
      ensures |INDEX_KEYS[i]| >= 3 && IndexKeyPlace(Fingerprint(INDEX_KEYS[i])) == i
    {
    }
    hide IndexKeyPlace, Fingerprint, INDEX_KEYS;
  }

  lemma AnchorKeysDistinct()
    ensures forall i, j :: 0 <= i < j < |ANCHOR_KEYS| ==> ANCHOR_KEYS[i] != ANCHOR_KEYS[j]
  {
    forall i | 0 <= i < |ANCHOR_KEYS|
      ensures |ANCHOR_KEYS[i]| >= 3 && AnchorKeyPlace(Fingerprint(ANCHOR_KEYS[i])) == i
    {
    }
    hide AnchorKeyPlace, Fingerprint, ANCHOR_KEYS;
  }

  lemma IndexRecordKeys(b: Bundle, ts: string, entry: string)
    ensures var ms := IndexRecord(b, ts, entry).members;
            |ms| == |INDEX_KEYS| && forall i :: 0 <= i < |ms| ==> ms[i].key == INDEX_KEYS[i]
  {
  }

  lemma AnchorRecordKeys(sha: Sha, hmac: Hmac, b: Bundle, ts: string, indexSha: string, tip: TipInfo)
    requires AnchorRecord(sha, hmac, b, ts, indexSha, tip).Some?
    ensures var ms := AnchorRecord(sha, hmac, b, ts, indexSha, tip).value.members;
            |ms| == |ANCHOR_KEYS| && forall i :: 0 <= i < |ms| ==> ms[i].key == ANCHOR_KEYS[i]
  {
    hide CanonicalBytes, AnchorEntrySha;
  }

  lemma IndexRecordFields(sha: Sha, b: Bundle, ts: string, entry: string)
    ensures var r := IndexRecord(b, ts, entry);
            && UniqueKeys(r.members)
            && Field(r, "anchor_entry_sha256") == Str(entry)
            && Field(r, "archived_audit_chain_file") == Str(b.chainFile)
            && Field(r, "archived_audit_seal_file") == Str(b.sealFile)
            && Field(r, "audit_chain_sha256") == Str(b.chainSha)
            && Field(r, "audit_seal_sha256") == Str(b.sealSha)
  {
    hide CanonicalBytes, Without, Field, UniqueKeys, INDEX_KEYS;
    var r := IndexRecord(b, ts, entry);
    IndexRecordUnique(b, ts, entry);
    FieldAt(r, 21, "anchor_entry_sha256");
    FieldAt(r, 10, "archived_audit_chain_file");
    FieldAt(r, 11, "archived_audit_seal_file");
    FieldAt(r, 12, "audit_chain_sha256");
    FieldAt(r, 13, "audit_seal_sha256");
  }

  lemma IndexRecordUnique(b: Bundle, ts: string, entry: string)
    ensures UniqueKeys(IndexRecord(b, ts, entry).members)
  {
    hide INDEX_KEYS, IndexRecord;
    IndexRecordKeys(b, ts, entry);
    IndexKeysDistinct();
  }

  lemma IndexRecordIsDict(b: Bundle, ts: string, entry: string)
    requires WellFormed(b)
    ensures IsDict(IndexRecord(b, ts, entry))
  {
    hide UniqueKeys;
    IndexRecordUnique(b, ts, entry);
    var ms := IndexRecord(b, ts, entry).members;
    forall i | 0 <= i < |ms| ensures IsDict(ms[i].value) { }
  }

  /** The hash stored in the anchor is the hash of the index record without its anchor fields. */
  lemma IndexRecordSha(sha: Sha, b: Bundle, ts: string, entry: string)
    ensures IndexSha(sha, IndexRecord(b, ts, entry)) == sha(CanonicalBytes(Obj(IndexBase(b, ts))))
  {
    hide CanonicalBytes, Without;
    var base := IndexBase(b, ts);
    var ms := IndexRecord(b, ts, entry).members;
    IndexRecordKeys(b, ts, entry);
    IndexKeysDistinct();
    assert INDEX_KEYS[20] == "anchor_file" && INDEX_KEYS[21] == "anchor_entry_sha256";
    forall i | 0 <= i < |base| ensures base[i].key !in NOT_IN_INDEX_HASH {
      assert base[i] == ms[i];
    }
    WithoutDropsTail(base, ms[20..], NOT_IN_INDEX_HASH);
    assert base + ms[20..] == ms;
  }

  lemma AnchorPayload(sha: Sha, hmac: Hmac, b: Bundle, ts: string, indexSha: string, tip: TipInfo)
    requires AnchorRecord(sha, hmac, b, ts, indexSha, tip).Some?
    ensures Payload(AnchorRecord(sha, hmac, b, ts, indexSha, tip).value) == Obj(AnchorBase(b, ts, indexSha, tip))
  {
    hide CanonicalBytes, Without, AnchorEntrySha;
    var base := AnchorBase(b, ts, indexSha, tip);
    var ms := AnchorRecord(sha, hmac, b, ts, indexSha, tip).value.members;
    AnchorRecordKeys(sha, hmac, b, ts, indexSha, tip);
    AnchorKeysDistinct();
    assert ANCHOR_KEYS[16] == "payload_sha256" && ANCHOR_KEYS[17] == "entry_sha256" && ANCHOR_KEYS[18] == "signature";
    forall i | 0 <= i < |base| ensures base[i].key !in NOT_IN_PAYLOAD {
      assert base[i] == ms[i];
    }
    WithoutDropsTail(base, ms[16..], NOT_IN_PAYLOAD);
    assert base + ms[16..] == ms;
  }

  /** A dict's get at a known position. */
  lemma FieldAt(record: Json, i: nat, k: string)
    requires record.Obj? && UniqueKeys(record.members) && i < |record.members| && record.members[i].key == k
    ensures Field(record, k) == record.members[i].value
  {
  }

  lemma AnchorRecordUnique(sha: Sha, hmac: Hmac, b: Bundle, ts: string, indexSha: string, tip: TipInfo)
    requires AnchorRecord(sha, hmac, b, ts, indexSha, tip).Some?
    ensures UniqueKeys(AnchorRecord(sha, hmac, b, ts, indexSha, tip).value.members)
  {
    hide AnchorRecord;
    AnchorRecordKeys(sha, hmac, b, ts, indexSha, tip);
    AnchorKeysDistinct();
  }

  lemma AnchorRecordFields(sha: Sha, hmac: Hmac, b: Bundle, ts: string, indexSha: string, tip: TipInfo)
    requires AnchorRecord(sha, hmac, b, ts, indexSha, tip).Some?
    ensures var r := AnchorRecord(sha, hmac, b, ts, indexSha, tip).value;
            var base := AnchorBase(b, ts, indexSha, tip);
            && r.Obj?
            && Field(r, "schema") == Str("audit_archive_anchor/v1")
            && Field(r, "archive_dir") == Str(b.archiveDir)
            && Field(r, "index_record_sha256") == Str(indexSha)
            && Field(r, "previous_anchor_entry_sha256") == LinkJson(tip.previous)
            && Field(r, "chain_position") == Int(tip.position + 1)
            && Field(r, "signature_algorithm") == (if b.anchorKey.NoKey? then Null else Str("hmac-sha256"))
            && Field(r, "payload_sha256") == Str(sha(CanonicalBytes(Obj(base))))
            && Field(r, "entry_sha256") == Str(AnchorEntrySha(sha, base, tip))
            && Field(r, "signature") ==
               (if b.anchorKey.NoKey? then Null else Str(hmac(b.anchorKey.secret, AnchorEntrySha(sha, base, tip))))
  {
    hide CanonicalBytes, Field, AnchorEntrySha, UniqueKeys;
    var r := AnchorRecord(sha, hmac, b, ts, indexSha, tip).value;
    AnchorRecordUnique(sha, hmac, b, ts, indexSha, tip);
    FieldAt(r, 0, "schema");
    FieldAt(r, 6, "archive_dir");
    FieldAt(r, 11, "index_record_sha256");
    FieldAt(r, 12, "previous_anchor_entry_sha256");
    FieldAt(r, 13, "chain_position");
    FieldAt(r, 14, "signature_algorithm");
    FieldAt(r, 16, "payload_sha256");
    FieldAt(r, 17, "entry_sha256");
    FieldAt(r, 18, "signature");
  }

  lemma AnchorRecordIsDict(sha: Sha, hmac: Hmac, b: Bundle, ts: string, indexSha: string, tip: TipInfo)
    requires AnchorRecord(sha, hmac, b, ts, indexSha, tip).Some?
    ensures IsDict(AnchorRecord(sha, hmac, b, ts, indexSha, tip).value)
  {
    hide CanonicalBytes, AnchorEntrySha;
    AnchorRecordUnique(sha, hmac, b, ts, indexSha, tip);
    var ms := AnchorRecord(sha, hmac, b, ts, indexSha, tip).value.members;
    assert b.anchorKey.NoKey? || IsDict(ms[15].value) by {
      assert "kind"[0] == 'k' && "env"[0] == 'e';
    }
    forall i | 0 <= i < |ms| ensures IsDict(ms[i].value) { }
  }

  /** The verifier's checks accept what the writer builds, in front of the tip it was built on. */
  lemma AnchorRecordVerifies(sha: Sha, hmac: Hmac, b: Bundle, ts: string, indexSha: string, tip: TipInfo)
    requires AnchorRecord(sha, hmac, b, ts, indexSha, tip).Some?
    ensures var r := AnchorRecord(sha, hmac, b, ts, indexSha, tip).value;
            && RecordOk(sha, hmac, NoKey, b.archiveDir, r, tip.previous)
            && RecordOk(sha, hmac, b.anchorKey, b.archiveDir, r, tip.previous)
  {
    hide CanonicalBytes, Without, Get, AnchorRecord, EntrySha;
    AnchorRecordFields(sha, hmac, b, ts, indexSha, tip);
    AnchorPayload(sha, hmac, b, ts, indexSha, tip);
    assert b.anchorKey.MissingKey? ==> AnchorRecord(sha, hmac, b, ts, indexSha, tip).None? by {
      MissingKeyFails(sha, hmac, b, ts, indexSha, tip);
    }
  }

  lemma MissingKeyFails(sha: Sha, hmac: Hmac, b: Bundle, ts: string, indexSha: string, tip: TipInfo)
    ensures AnchorRecord(sha, hmac, b, ts, indexSha, tip).None? <==> b.anchorKey.MissingKey?
  {
  }

  // ----- the two records of one run agree -----

  /** What a record says under the keys that both records hold with the same meaning. */
  function Shared(record: Json): seq<Json> {
    [ Field(record, "job_id"), Field(record, "correlation_id"), Field(record, "tenant_id"),
      Field(record, "archive_dir"), Field(record, "index_file"), Field(record, "anchor_file"),
      Field(record, "archived_audit_chain_file"), Field(record, "archived_audit_seal_file") ]
  }

  function SharedOf(b: Bundle): seq<Json> {
    [ Str(b.jobId), Str(b.jobId), OptionJson(b.tenantId), Str(b.archiveDir), Str(b.indexFile), Str(b.anchorFile),
      Str(b.chainFile), Str(b.sealFile) ]
  }

  lemma IndexNames(b: Bundle, ts: string, entry: string)
    ensures var r := IndexRecord(b, ts, entry);
            && Field(r, "job_id") == Str(b.jobId) && Field(r, "correlation_id") == Str(b.jobId)
            && Field(r, "tenant_id") == OptionJson(b.tenantId) && Field(r, "archive_dir") == Str(b.archiveDir)
  {
    hide Field, UniqueKeys, INDEX_KEYS, OptionJson;
    var r := IndexRecord(b, ts, entry);
    IndexRecordUnique(b, ts, entry);
    FieldAt(r, 3, "job_id");
    FieldAt(r, 4, "correlation_id");
    FieldAt(r, 5, "tenant_id");
    FieldAt(r, 6, "archive_dir");
  }

  lemma IndexFiles(b: Bundle, ts: string, entry: string)
    ensures var r := IndexRecord(b, ts, entry);
            && Field(r, "index_file") == Str(b.indexFile) && Field(r, "anchor_file") == Str(b.anchorFile)
            && Field(r, "source_audit_chain_file") == Str(b.sourceChainFile)
            && Field(r, "source_audit_seal_file") == Str(b.sourceSealFile)
  {
    hide Field, UniqueKeys, INDEX_KEYS, OptionJson;
    var r := IndexRecord(b, ts, entry);
    IndexRecordUnique(b, ts, entry);
    FieldAt(r, 7, "index_file");
    FieldAt(r, 8, "source_audit_chain_file");
    FieldAt(r, 9, "source_audit_seal_file");
    FieldAt(r, 20, "anchor_file");
  }

  /** What the index record says of its own kind and time. */
  lemma IndexKind(b: Bundle, ts: string, entry: string)
    ensures var r := IndexRecord(b, ts, entry);
            && Field(r, "schema") == Str("audit_archive_index/v1") && Field(r, "ts_utc") == Str(ts)
            && Field(r, "event") == Str("archive_audit_bundle") && Field(r, "artifact_sha256_verified") == Bool(true)
  {
    hide Field, UniqueKeys, INDEX_KEYS, OptionJson;
    var r := IndexRecord(b, ts, entry);
    IndexRecordUnique(b, ts, entry);
    FieldAt(r, 0, "schema");
    FieldAt(r, 1, "ts_utc");
    FieldAt(r, 2, "event");
    FieldAt(r, 14, "artifact_sha256_verified");
  }

  /** What the index record repeats of the verified bundle. */
  lemma IndexBundle(b: Bundle, ts: string, entry: string)
    ensures var r := IndexRecord(b, ts, entry);
            && Field(r, "signature_algorithm") == b.signatureAlgorithm
            && Field(r, "signature_verified") == b.signatureVerified && Field(r, "secret_source") == b.secretSource
            && Field(r, "source_out_base") == b.sourceOutBase
            && Field(r, "mainline_contract_summary") == b.contractSummary
  {
    hide Field, UniqueKeys, INDEX_KEYS, OptionJson;
    var r := IndexRecord(b, ts, entry);
    IndexRecordUnique(b, ts, entry);
    FieldAt(r, 15, "signature_algorithm");
    FieldAt(r, 16, "signature_verified");
    FieldAt(r, 17, "secret_source");
    FieldAt(r, 18, "source_out_base");
    FieldAt(r, 19, "mainline_contract_summary");
  }

  /** A field of the hashed part of the anchor record, found by its key. */
  lemma AnchorBaseField(sha: Sha, hmac: Hmac, b: Bundle, ts: string, indexSha: string, tip: TipInfo, i: nat)
    requires AnchorRecord(sha, hmac, b, ts, indexSha, tip).Some? && i < |AnchorBase(b, ts, indexSha, tip)|
    ensures var base := AnchorBase(b, ts, indexSha, tip);
            Field(AnchorRecord(sha, hmac, b, ts, indexSha, tip).value, base[i].key) == base[i].value
  {
    hide CanonicalBytes, Field, AnchorEntrySha, UniqueKeys, AnchorBase;
    var r := AnchorRecord(sha, hmac, b, ts, indexSha, tip).value;
    AnchorRecordUnique(sha, hmac, b, ts, indexSha, tip);
    FieldAt(r, i, AnchorBase(b, ts, indexSha, tip)[i].key);
  }

  lemma AnchorNames(sha: Sha, hmac: Hmac, b: Bundle, ts: string, indexSha: string, tip: TipInfo)
    requires AnchorRecord(sha, hmac, b, ts, indexSha, tip).Some?
    ensures var r := AnchorRecord(sha, hmac, b, ts, indexSha, tip).value;
            && Field(r, "job_id") == Str(b.jobId) && Field(r, "correlation_id") == Str(b.jobId)
            && Field(r, "tenant_id") == OptionJson(b.tenantId)
  {
    hide Field, AnchorRecord, OptionJson, LinkJson;
    AnchorBaseField(sha, hmac, b, ts, indexSha, tip, 3);
    AnchorBaseField(sha, hmac, b, ts, indexSha, tip, 4);
    AnchorBaseField(sha, hmac, b, ts, indexSha, tip, 5);
  }

  lemma AnchorFiles(sha: Sha, hmac: Hmac, b: Bundle, ts: string, indexSha: string, tip: TipInfo)
    requires AnchorRecord(sha, hmac, b, ts, indexSha, tip).Some?
    ensures var r := AnchorRecord(sha, hmac, b, ts, indexSha, tip).value;
            && Field(r, "anchor_file") == Str(b.anchorFile) && Field(r, "index_file") == Str(b.indexFile)
            && Field(r, "archived_audit_chain_file") == Str(b.chainFile)
            && Field(r, "archived_audit_seal_file") == Str(b.sealFile)
  {
    hide Field, AnchorRecord, OptionJson, LinkJson;
    AnchorBaseField(sha, hmac, b, ts, indexSha, tip, 7);
    AnchorBaseField(sha, hmac, b, ts, indexSha, tip, 8);
    AnchorBaseField(sha, hmac, b, ts, indexSha, tip, 9);
    AnchorBaseField(sha, hmac, b, ts, indexSha, tip, 10);
  }

  lemma AnchorKind(sha: Sha, hmac: Hmac, b: Bundle, ts: string, indexSha: string, tip: TipInfo)
    requires AnchorRecord(sha, hmac, b, ts, indexSha, tip).Some?
    ensures var r := AnchorRecord(sha, hmac, b, ts, indexSha, tip).value;
            && Field(r, "ts_utc") == Str(ts) && Field(r, "event") == Str("anchor_audit_bundle")
            && Field(r, "secret_source") ==
               (if b.anchorKey.NoKey? then Null
                else Obj([Member("kind", Str("env")), Member("env", Str(b.anchorKeyEnv))]))
  {
    hide Field, AnchorRecord, OptionJson, LinkJson;
    AnchorBaseField(sha, hmac, b, ts, indexSha, tip, 1);
    AnchorBaseField(sha, hmac, b, ts, indexSha, tip, 2);
    AnchorBaseField(sha, hmac, b, ts, indexSha, tip, 15);
  }

  /** The anchor record repeats the run's job, tenant, archive and file names exactly as the index record
      gives them, and the index record names the sources that were copied. */
  lemma RecordsAgree(sha: Sha, hmac: Hmac, b: Bundle, indexTs: string, anchorTs: string, tip: TipInfo)
    requires Records(sha, hmac, b, indexTs, anchorTs, tip).Some?
    ensures var (record, anchor) := Records(sha, hmac, b, indexTs, anchorTs, tip).value;
            && Shared(record) == Shared(anchor) == SharedOf(b)
            && Field(record, "source_audit_chain_file") == Str(b.sourceChainFile)
            && Field(record, "source_audit_seal_file") == Str(b.sourceSealFile)
  {
    hide Field, OptionJson, CanonicalBytes, AnchorEntrySha, AnchorRecord, IndexRecord, IndexBase, AnchorBase;
    var indexSha := sha(CanonicalBytes(Obj(IndexBase(b, indexTs))));
    var entry := AnchorEntrySha(sha, AnchorBase(b, anchorTs, indexSha, tip), tip);
    IndexNames(b, indexTs, entry);
    IndexFiles(b, indexTs, entry);
    IndexRecordFields(sha, b, indexTs, entry);
    AnchorRecordFields(sha, hmac, b, anchorTs, indexSha, tip);
    AnchorNames(sha, hmac, b, anchorTs, indexSha, tip);
    AnchorFiles(sha, hmac, b, anchorTs, indexSha, tip);
  }
}
