/** One archive root as a step machine. A run verifies its bundle, copies two files, reads the anchor
    log's tip, appends an index record and then an anchor record; there is no lock, so runs may
    interleave at every step, and a run may crash after any step. */
module ArchiveMachine {
  import opened PyText
  import opened Utf8
  import opened JsonText
  import opened AnchorChain
  import opened ArchiveRecords
  import CanonicalJson

  /** The hash functions and the archive: its root and its anchor log, both absolute paths. */
  datatype System = System(sha: Sha, hmac: Hmac, dir: string, anchorFile: string)

  datatype Phase =
    | Verified
    | ChainCopied
    | SealCopied
    | Ready(record: Json, anchor: Json, seen: nat)    // both records built on a tip of this length
    | Indexed(anchor: Json, seen: nat, at: nat)       // index record appended at this place
    | Done(at: nat, pos: nat)                         // anchor appended too
    | Failed
    | Crashed(indexedAt: Option<nat>)

  datatype Run = Run(bundle: Bundle, phase: Phase)

  /** The files and logs under the root, the runs, and four histories: the run behind each index record,
      the length of the anchor log each anchor's run had read, the index record of each anchor, and the
      signing key of each anchor's run. */
  datatype State = State(
    files: map<string, Bytes>,
    index: seq<Json>,
    anchors: seq<Json>,
    runs: map<nat, Run>,
    indexedBy: seq<nat>,
    seen: seq<nat>,
    matched: seq<nat>,
    keys: seq<AnchorKey>)

  datatype Action =
    | Start(bundle: Bundle, accepted: bool)
    | CopyChain(source: Bytes)
    | CopySeal(source: Bytes)
    | Build(indexTs: string, anchorTs: string)
    | AppendIndex
    | AppendAnchor
    | Crash

  /** stringify() of an entry hash; None for values whose text the model does not give. */
  function Stringify(v: Json): Option<Option<string>> {
    match v
    case Null => Some(None)
    case Str(s) => Some(if s == "" then None else Some(s))
    case Int(n) => Some(Some(Decimal(n)))
    case Bool(b) => Some(Some(if b then "True" else "False"))
    case _ => None
  }

  /** int(entry.get("chain_position", 0)); None when int() refuses the value. */
  function PositionOf(entry: Json): Option<int> {
    if !HasKey(Fields(entry), "chain_position") then Some(0)
    else match Field(entry, "chain_position")
      case Int(n) => Some(n)
      case Bool(b) => Some(if b then 1 else 0)
      case _ => None
  }

  /** The previous link and position taken from last_anchor_entry. */
  function ReadTip(log: seq<Json>): Option<TipInfo> {
    if log == [] then Some(TipInfo(None, 0))
    else
      match (Stringify(Field(log[|log| - 1], "entry_sha256")), PositionOf(log[|log| - 1]))
      case (Some(previous), Some(position)) => Some(TipInfo(previous, position))
      case _ => None
  }

  /** copy_if_missing: the files afterwards, and whether the digest check passed. */
  function CopyIfMissing(sha: Sha, files: map<string, Bytes>, source: Bytes, dst: string, expected: string)
    : (map<string, Bytes>, bool)
  {
    if dst in files then (files, sha(files[dst]) == expected)
    else (files[dst := source], sha(source) == expected)
  }

  function SetPhase(s: State, id: nat, phase: Phase): State
    requires id in s.runs
  {
    s.(runs := s.runs[id := s.runs[id].(phase := phase)])
  }

  /** One step of one run; None when the run is not at that step. */
  function Apply(sys: System, s: State, id: nat, action: Action): Option<State> {
    match action
    case Start(b, accepted) =>
      if id in s.runs || b.archiveDir != sys.dir || b.anchorFile != sys.anchorFile || !WellFormed(b) then None
      else Some(s.(runs := s.runs[id := Run(b, if accepted then Verified else Failed)]))
    case CopyChain(source) =>
      if id !in s.runs || !s.runs[id].phase.Verified? then None
      else
        var b := s.runs[id].bundle;
        var (files, ok) := CopyIfMissing(sys.sha, s.files, source, b.chainFile, b.chainSha);
        Some(SetPhase(s.(files := files), id, if ok then ChainCopied else Failed))
    case CopySeal(source) =>
      if id !in s.runs || !s.runs[id].phase.ChainCopied? then None
      else
        var b := s.runs[id].bundle;
        var (files, ok) := CopyIfMissing(sys.sha, s.files, source, b.sealFile, b.sealSha);
        Some(SetPhase(s.(files := files), id, if ok then SealCopied else Failed))
    case Build(indexTs, anchorTs) =>
      if id !in s.runs || !s.runs[id].phase.SealCopied? then None
      else Some(SetPhase(s, id, BuildPhase(sys, s.runs[id].bundle, indexTs, anchorTs, s.anchors)))
    case AppendIndex =>
      if id !in s.runs || !s.runs[id].phase.Ready? then None
      else
        var Ready(record, anchor, seen) := s.runs[id].phase;
        Some(SetPhase(s.(index := s.index + [record], indexedBy := s.indexedBy + [id]),
                      id, Indexed(anchor, seen, |s.index|)))
    case AppendAnchor =>
      if id !in s.runs || !s.runs[id].phase.Indexed? then None
      else
        var Indexed(anchor, seen, at) := s.runs[id].phase;
        Some(SetPhase(s.(anchors := s.anchors + [anchor], seen := s.seen + [seen], matched := s.matched + [at],
                         keys := s.keys + [s.runs[id].bundle.anchorKey]),
                      id, Done(at, |s.anchors|)))
    case Crash =>
      if id !in s.runs || s.runs[id].phase.Done? || s.runs[id].phase.Failed? || s.runs[id].phase.Crashed? then None
      else Some(SetPhase(s, id, Crashed(IndexPlace(s.runs[id].phase))))
  }

  /** Reading the tip and building both records; a missing signing secret or an unusable tip fails the run. */
  function BuildPhase(sys: System, b: Bundle, indexTs: string, anchorTs: string, anchors: seq<Json>): Phase {
    match ReadTip(anchors)
    case None => Failed
    case Some(tip) =>
      match Records(sys.sha, sys.hmac, b, indexTs, anchorTs, tip)
      case None => Failed
      case Some((record, anchor)) => Ready(record, anchor, |anchors|)
  }

  /** Where a run's index record is, once it has one. */
  function IndexPlace(p: Phase): Option<nat> {
    match p
    case Indexed(_, _, at) => Some(at)
    case Done(at, _) => Some(at)
    case Crashed(o) => o
    case _ => None
  }

  /** A new archive: no logs and no runs; files may already lie under the root. */
  predicate Init(s: State) {
    && s.index == [] && s.anchors == [] && s.runs == map[]
    && s.indexedBy == [] && s.seen == [] && s.matched == [] && s.keys == []
  }

  type Trace = seq<(nat, Action)>

  /** The state after any interleaving of steps; None when some step was not possible. */
  function Exec(sys: System, s: State, trace: Trace): Option<State> {
    if trace == [] then Some(s)
    else match Exec(sys, s, trace[..|trace| - 1])
      case None => None
      case Some(t) => Apply(sys, t, trace[|trace| - 1].0, trace[|trace| - 1].1)
  }

  // ----- the invariant -----

  /** The record names an archived file whose digest it states. */
  predicate Stored(sha: Sha, files: map<string, Bytes>, path: Json, digest: Json) {
    path.Str? && path.s in files && digest == Str(sha(files[path.s]))
  }

  predicate RecordStored(sha: Sha, files: map<string, Bytes>, record: Json) {
    && record.Obj? && IsDict(record)
    && Stored(sha, files, Field(record, "archived_audit_chain_file"), Field(record, "audit_chain_sha256"))
    && Stored(sha, files, Field(record, "archived_audit_seal_file"), Field(record, "audit_seal_sha256"))
  }

  /** chain_position of the entry that the first n anchors lead to. */
  function Position(log: seq<Json>, n: nat): Json
    requires n <= |log|
  {
    if n == 0 then Int(0) else Field(log[n - 1], "chain_position")
  }

  /** The anchor was built on the first n anchors: link, position, hashes and archive all fit. */
  predicate BuiltOn(sys: System, anchor: Json, log: seq<Json>, n: nat) {
    && n <= |log|
    && anchor.Obj? && IsDict(anchor) && Field(anchor, "entry_sha256").Str?
    && RecordOk(sys.sha, sys.hmac, NoKey, sys.dir, anchor, Tip(log[..n]))
    && HasKey(Fields(anchor), "chain_position") && Field(anchor, "anchor_file") == Str(sys.anchorFile)
    && Position(log, n).Int? && Field(anchor, "chain_position") == Int(Position(log, n).n + 1)
  }

  /** The anchor commits to the index record and carries the signature of this key, and the index record
      names the anchor and the archive. */
  predicate Paired(sys: System, key: AnchorKey, record: Json, anchor: Json) {
    && Names(anchor, IndexSha(sys.sha, record)) && Signed(sys.hmac, key, anchor)
    && Field(record, "anchor_entry_sha256") == Field(anchor, "entry_sha256")
    && Field(record, "archive_dir") == Str(sys.dir) && Field(record, "anchor_file") == Str(sys.anchorFile)
  }

  predicate RunOk(sys: System, s: State, id: nat, run: Run) {
    var b := run.bundle;
    && b.archiveDir == sys.dir && b.anchorFile == sys.anchorFile && WellFormed(b)
    && ((run.phase.ChainCopied? || run.phase.SealCopied?) ==>
          b.chainFile in s.files && sys.sha(s.files[b.chainFile]) == b.chainSha)
    && (run.phase.SealCopied? ==> b.sealFile in s.files && sys.sha(s.files[b.sealFile]) == b.sealSha)
    && (match run.phase
        case Ready(record, anchor, n) =>
          && RecordStored(sys.sha, s.files, record) && BuiltOn(sys, anchor, s.anchors, n)
          && Paired(sys, b.anchorKey, record, anchor)
        case Indexed(anchor, n, at) =>
          BuiltOn(sys, anchor, s.anchors, n) && at < |s.index| && Paired(sys, b.anchorKey, s.index[at], anchor)
        case Done(at, pos) => at < |s.index| && pos < |s.matched| && s.matched[pos] == at
        case _ => true)
    && (IndexPlace(run.phase).Some? ==>
          var at := IndexPlace(run.phase).value; at < |s.indexedBy| && s.indexedBy[at] == id)
  }

  predicate AnchorOk(sys: System, s: State, i: nat)
    requires i < |s.anchors| == |s.seen| == |s.matched| == |s.keys|
  {
    && s.seen[i] <= i && BuiltOn(sys, s.anchors[i], s.anchors, s.seen[i])
    && s.matched[i] < |s.index| && Paired(sys, s.keys[i], s.index[s.matched[i]], s.anchors[i])
  }

  predicate OwnersOk(s: State)
    requires |s.seen| == |s.matched| == |s.anchors| && |s.indexedBy| == |s.index|
  {
    && (forall k :: 0 <= k < |s.index| ==>
          s.indexedBy[k] in s.runs && IndexPlace(s.runs[s.indexedBy[k]].phase) == Some(k))
    && (forall i :: 0 <= i < |s.anchors| ==>
          s.matched[i] < |s.index| && s.runs[s.indexedBy[s.matched[i]]].phase == Done(s.matched[i], i))
  }

  predicate Inv(sys: System, s: State) {
    && |s.seen| == |s.matched| == |s.keys| == |s.anchors| && |s.indexedBy| == |s.index|
    && (forall id :: id in s.runs ==> RunOk(sys, s, id, s.runs[id]))
    && (forall i :: 0 <= i < |s.anchors| ==> AnchorOk(sys, s, i))
    && (forall k :: 0 <= k < |s.index| ==> RecordStored(sys.sha, s.files, s.index[k]))
    && OwnersOk(s)
  }

  /** Nothing that was written is ever changed: files keep their bytes and the logs only grow. */
  predicate Extends(s: State, t: State) {
    && (forall p :: p in s.files ==> p in t.files && t.files[p] == s.files[p])
    && s.index <= t.index && s.anchors <= t.anchors
    && s.indexedBy <= t.indexedBy && s.seen <= t.seen && s.matched <= t.matched && s.keys <= t.keys
  }

  lemma StepExtends(sys: System, s: State, id: nat, action: Action)
    requires Apply(sys, s, id, action).Some?
    ensures Extends(s, Apply(sys, s, id, action).value)
  {
    hide BuildPhase, WellFormed;
  }

  lemma BuiltOnExtends(sys: System, anchor: Json, log: seq<Json>, log': seq<Json>, n: nat)
    requires BuiltOn(sys, anchor, log, n) && log <= log'
    ensures BuiltOn(sys, anchor, log', n)
  {
    hide RecordOk, Tip, IsDict, HasKey, Field;
    assert log[..n] == log'[..n];
    assert n > 0 ==> log[n - 1] == log'[n - 1];
  }

  lemma StoredExtends(sha: Sha, s: State, t: State, record: Json)
    requires Extends(s, t) && RecordStored(sha, s.files, record)
    ensures RecordStored(sha, t.files, record)
  {
    hide Field, IsDict;
  }

  lemma RunOkExtends(sys: System, s: State, t: State, id: nat, run: Run)
    requires Extends(s, t) && RunOk(sys, s, id, run)
    ensures RunOk(sys, t, id, run)
  {
    hide BuiltOn, RecordStored, Paired, WellFormed;
    match run.phase
    case Ready(record, anchor, n) =>
      BuiltOnExtends(sys, anchor, s.anchors, t.anchors, n);
      StoredExtends(sys.sha, s, t, record);
    case Indexed(anchor, n, at) =>
      BuiltOnExtends(sys, anchor, s.anchors, t.anchors, n);
    case _ =>
  }

  // ----- every step keeps the invariant -----

  /** The entry hash of a built anchor is a digest held as a string. */
  lemma BuiltEntry(sys: System, anchor: Json, log: seq<Json>, n: nat)
    requires BuiltOn(sys, anchor, log, n)
    ensures Field(anchor, "entry_sha256").Str? && IsDigest(Field(anchor, "entry_sha256").s)
    ensures Stringify(Field(anchor, "entry_sha256")) == Some(FieldText(Field(anchor, "entry_sha256")))
    ensures Field(anchor, "chain_position").Int? && PositionOf(anchor) == Some(Field(anchor, "chain_position").n)
  {
    hide Tip, IsDict, SignatureOk, Get;
  }

  /** Reading the tip of a log of built anchors gives its last entry hash and position. */
  lemma ReadTipOfBuilt(sys: System, s: State)
    requires Inv(sys, s)
    ensures Position(s.anchors, |s.anchors|).Int?
    ensures ReadTip(s.anchors) == Some(TipInfo(Tip(s.anchors), Position(s.anchors, |s.anchors|).n))
  {
    hide RunOk, OwnersOk, RecordStored, Paired, BuiltOn, Stringify, FieldText, PositionOf, Field;
    if s.anchors != [] {
      var i := |s.anchors| - 1;
      assert AnchorOk(sys, s, i);
      BuiltEntry(sys, s.anchors[i], s.anchors, s.seen[i]);
    }
  }

  lemma BuiltRecordIsStored(sys: System, files: map<string, Bytes>, b: Bundle, indexTs: string, entry: string)
    requires WellFormed(b)
    requires b.chainFile in files && sys.sha(files[b.chainFile]) == b.chainSha
    requires b.sealFile in files && sys.sha(files[b.sealFile]) == b.sealSha
    ensures RecordStored(sys.sha, files, IndexRecord(b, indexTs, entry))
  {
    hide IndexRecord, IsDict, Field, WellFormed;
    IndexRecordFields(sys.sha, b, indexTs, entry);
    IndexRecordIsDict(b, indexTs, entry);
    IndexRecordIsObj(b, indexTs, entry);
  }

  lemma BuiltAnchorFollows(sys: System, log: seq<Json>, b: Bundle, anchorTs: string, indexSha: string, tip: TipInfo)
    requires b.archiveDir == sys.dir && b.anchorFile == sys.anchorFile
    requires AnchorRecord(sys.sha, sys.hmac, b, anchorTs, indexSha, tip).Some?
    requires tip.previous == Tip(log) && Position(log, |log|) == Int(tip.position)
    ensures BuiltOn(sys, AnchorRecord(sys.sha, sys.hmac, b, anchorTs, indexSha, tip).value, log, |log|)
  {
    hide IsDict, EntryOk, SignatureOk, Get, Tip, AnchorRecord, AnchorBase, AnchorEntrySha, CanonicalJson.CanonicalBytes;
    AnchorRecordFields(sys.sha, sys.hmac, b, anchorTs, indexSha, tip);
    AnchorFiles(sys.sha, sys.hmac, b, anchorTs, indexSha, tip);
    AnchorRecordIsDict(sys.sha, sys.hmac, b, anchorTs, indexSha, tip);
    AnchorRecordVerifies(sys.sha, sys.hmac, b, anchorTs, indexSha, tip);
    PositionPresent(AnchorRecord(sys.sha, sys.hmac, b, anchorTs, indexSha, tip).value);
    assert log[..|log|] == log;
  }

  lemma BuiltPair(sys: System, b: Bundle, indexTs: string, anchorTs: string, tip: TipInfo)
    requires var indexSha := sys.sha(CanonicalJson.CanonicalBytes(Obj(IndexBase(b, indexTs))));
             AnchorRecord(sys.sha, sys.hmac, b, anchorTs, indexSha, tip).Some?
    requires b.archiveDir == sys.dir && b.anchorFile == sys.anchorFile
    ensures var indexSha := sys.sha(CanonicalJson.CanonicalBytes(Obj(IndexBase(b, indexTs))));
            var entry := AnchorEntrySha(sys.sha, AnchorBase(b, anchorTs, indexSha, tip), tip);
            Paired(sys, b.anchorKey, IndexRecord(b, indexTs, entry),
                   AnchorRecord(sys.sha, sys.hmac, b, anchorTs, indexSha, tip).value)
  {
    hide CanonicalJson.CanonicalBytes, AnchorRecord, IndexRecord, IndexBase, AnchorBase, AnchorEntrySha;
    hide Field, IndexSha;
    var indexSha := sys.sha(CanonicalJson.CanonicalBytes(Obj(IndexBase(b, indexTs))));
    var entry := AnchorEntrySha(sys.sha, AnchorBase(b, anchorTs, indexSha, tip), tip);
    IndexRecordFields(sys.sha, b, indexTs, entry);
    IndexRecordSha(sys.sha, b, indexTs, entry);
    IndexNames(b, indexTs, entry);
    IndexFiles(b, indexTs, entry);
    MissingKeyFails(sys.sha, sys.hmac, b, anchorTs, indexSha, tip);
    AnchorRecordFields(sys.sha, sys.hmac, b, anchorTs, indexSha, tip);
  }

  /** Records built on the tip of the whole log are ready to be appended. */
  lemma BuildIsReady(sys: System, s: State, b: Bundle, indexTs: string, anchorTs: string)
    requires Inv(sys, s) && b.archiveDir == sys.dir && b.anchorFile == sys.anchorFile && WellFormed(b)
    requires b.chainFile in s.files && sys.sha(s.files[b.chainFile]) == b.chainSha
    requires b.sealFile in s.files && sys.sha(s.files[b.sealFile]) == b.sealSha
    ensures match BuildPhase(sys, b, indexTs, anchorTs, s.anchors)
            case Ready(record, anchor, n) =>
              n == |s.anchors| && RecordStored(sys.sha, s.files, record) && BuiltOn(sys, anchor, s.anchors, n)
              && Paired(sys, b.anchorKey, record, anchor)
            case Failed => b.anchorKey.MissingKey?
            case _ => false
  {
    hide Inv, WellFormed, CanonicalJson.CanonicalBytes, RecordStored, BuiltOn, Paired, Position;
    hide AnchorRecord, IndexRecord, IndexBase, AnchorBase, AnchorEntrySha, ReadTip, Tip;
    ReadTipOfBuilt(sys, s);
    var tip := ReadTip(s.anchors).value;
    var indexSha := sys.sha(CanonicalJson.CanonicalBytes(Obj(IndexBase(b, indexTs))));
    MissingKeyFails(sys.sha, sys.hmac, b, anchorTs, indexSha, tip);
    if AnchorRecord(sys.sha, sys.hmac, b, anchorTs, indexSha, tip).Some? {
      var entry := AnchorEntrySha(sys.sha, AnchorBase(b, anchorTs, indexSha, tip), tip);
      BuiltRecordIsStored(sys, s.files, b, indexTs, entry);
      BuiltAnchorFollows(sys, s.anchors, b, anchorTs, indexSha, tip);
      BuiltPair(sys, b, indexTs, anchorTs, tip);
    }
  }

  lemma IndexRecordIsObj(b: Bundle, ts: string, entry: string)
    ensures IndexRecord(b, ts, entry).Obj?
  {
  }

  lemma PositionPresent(anchor: Json)
    requires Field(anchor, "chain_position").Int?
    ensures HasKey(Fields(anchor), "chain_position")
  {
  }

  /** What one step leaves as it was: older anchors, older index records and the other runs. */
  lemma OldParts(sys: System, s: State, t: State, id: nat)
    requires Inv(sys, s) && Extends(s, t)
    requires |t.seen| == |t.matched| == |t.keys| == |t.anchors| && |t.indexedBy| == |t.index|
    requires forall i :: i in t.runs && i != id ==> i in s.runs && t.runs[i] == s.runs[i]
    ensures forall i :: 0 <= i < |s.anchors| ==> AnchorOk(sys, t, i)
    ensures forall k :: 0 <= k < |s.index| ==> RecordStored(sys.sha, t.files, t.index[k])
    ensures forall i :: i in t.runs && i != id ==> RunOk(sys, t, i, t.runs[i])
  {
    hide BuiltOn, RecordStored, Paired, RunOk, OwnersOk;
    forall i | 0 <= i < |s.anchors| ensures AnchorOk(sys, t, i) {
      assert AnchorOk(sys, s, i);
      BuiltOnExtends(sys, s.anchors[i], s.anchors, t.anchors, s.seen[i]);
    }
    forall k | 0 <= k < |s.index| ensures RecordStored(sys.sha, t.files, t.index[k]) {
      StoredExtends(sys.sha, s, t, s.index[k]);
    }
    forall i | i in t.runs && i != id ensures RunOk(sys, t, i, t.runs[i]) {
      RunOkExtends(sys, s, t, i, s.runs[i]);
    }
  }

  /** Ownership of log entries after a step that appends nothing and keeps the run's place in the index. */
  lemma OwnersKept(s: State, t: State, id: nat)
    requires |s.seen| == |s.matched| == |s.anchors| && |s.indexedBy| == |s.index| && OwnersOk(s)
    requires t == s.(files := t.files, runs := t.runs)
    requires id in t.runs && t.runs == s.runs[id := t.runs[id]]
    requires id in s.runs ==> !s.runs[id].phase.Done? && IndexPlace(t.runs[id].phase) == IndexPlace(s.runs[id].phase)
    requires id !in s.runs ==> IndexPlace(t.runs[id].phase) == None
    ensures OwnersOk(t)
  {
  }

  lemma QuietStep(sys: System, s: State, t: State, id: nat)
    requires Inv(sys, s) && t == s.(files := t.files, runs := t.runs)
    requires id in t.runs && t.runs == s.runs[id := t.runs[id]]
    requires id in s.runs ==> !s.runs[id].phase.Done? && IndexPlace(t.runs[id].phase) == IndexPlace(s.runs[id].phase)
    requires id !in s.runs ==> IndexPlace(t.runs[id].phase) == None
    requires Extends(s, t) && RunOk(sys, t, id, t.runs[id])
    ensures Inv(sys, t)
  {
    hide RunOk, AnchorOk, RecordStored, OwnersOk;
    OldParts(sys, s, t, id);
    OwnersKept(s, t, id);
  }

  lemma AppendIndexKeepsInv(sys: System, s: State, id: nat)
    requires Inv(sys, s) && Apply(sys, s, id, AppendIndex).Some?
    ensures Inv(sys, Apply(sys, s, id, AppendIndex).value)
  {
    hide BuiltOn, RecordStored, Paired, WellFormed;
    var t := Apply(sys, s, id, AppendIndex).value;
    var Ready(record, anchor, n) := s.runs[id].phase;
    StepExtends(sys, s, id, AppendIndex);
    assert RunOk(sys, s, id, s.runs[id]);
    OldParts(sys, s, t, id);
    forall k | 0 <= k < |t.index| ensures RecordStored(sys.sha, t.files, t.index[k]) { }
    forall i | i in t.runs ensures RunOk(sys, t, i, t.runs[i]) { }
    hide RunOk, AnchorOk;
    IndexOwners(sys, s, id);
  }

  lemma IndexOwners(sys: System, s: State, id: nat)
    requires Inv(sys, s) && Apply(sys, s, id, AppendIndex).Some?
    ensures OwnersOk(Apply(sys, s, id, AppendIndex).value)
  {
    hide BuiltOn, RecordStored, Paired, WellFormed, AnchorOk;
  }

  lemma AppendAnchorKeepsInv(sys: System, s: State, id: nat)
    requires Inv(sys, s) && Apply(sys, s, id, AppendAnchor).Some?
    ensures Inv(sys, Apply(sys, s, id, AppendAnchor).value)
  {
    hide BuiltOn, RecordStored, Paired, WellFormed, AnchorOk, OwnersOk, RunOk;
    var t := Apply(sys, s, id, AppendAnchor).value;
    StepExtends(sys, s, id, AppendAnchor);
    AnchoredRunOk(sys, s, id);
    OldParts(sys, s, t, id);
    NewAnchorOk(sys, s, id);
    AnchorOwners(sys, s, id);
  }

  lemma AnchoredRunOk(sys: System, s: State, id: nat)
    requires Inv(sys, s) && Apply(sys, s, id, AppendAnchor).Some?
    ensures var t := Apply(sys, s, id, AppendAnchor).value; RunOk(sys, t, id, t.runs[id])
  {
    hide BuiltOn, RecordStored, Paired, WellFormed, AnchorOk, OwnersOk;
    assert RunOk(sys, s, id, s.runs[id]);
  }

  lemma NewAnchorOk(sys: System, s: State, id: nat)
    requires Inv(sys, s) && Apply(sys, s, id, AppendAnchor).Some?
    ensures var t := Apply(sys, s, id, AppendAnchor).value;
            |t.anchors| == |t.seen| == |t.matched| == |t.keys| && AnchorOk(sys, t, |s.anchors|)
  {
    hide BuiltOn, RecordStored, Paired, WellFormed, AnchorOk, OwnersOk;
    var t := Apply(sys, s, id, AppendAnchor).value;
    var Indexed(anchor, n, at) := s.runs[id].phase;
    assert RunOk(sys, s, id, s.runs[id]);
    hide RunOk;
    BuiltOnExtends(sys, anchor, s.anchors, t.anchors, n);
    BuiltOnBound(sys, anchor, s.anchors, n);
    assert AnchorOk(sys, t, |s.anchors|) by { AnchorOkFrom(sys, t, |s.anchors|); }
  }

  lemma AnchorOkFrom(sys: System, t: State, i: nat)
    requires i < |t.anchors| == |t.seen| == |t.matched| == |t.keys|
    requires t.seen[i] <= i && BuiltOn(sys, t.anchors[i], t.anchors, t.seen[i])
    requires t.matched[i] < |t.index| && Paired(sys, t.keys[i], t.index[t.matched[i]], t.anchors[i])
    ensures AnchorOk(sys, t, i)
  {
  }

  lemma AnchorOwners(sys: System, s: State, id: nat)
    requires Inv(sys, s) && Apply(sys, s, id, AppendAnchor).Some?
    ensures OwnersOk(Apply(sys, s, id, AppendAnchor).value)
  {
    hide BuiltOn, RecordStored, Paired, WellFormed, AnchorOk;
  }

  lemma BuiltOnBound(sys: System, anchor: Json, log: seq<Json>, n: nat)
    requires BuiltOn(sys, anchor, log, n)
    ensures n <= |log|
  {
  }

  lemma StartKeepsInv(sys: System, s: State, id: nat, b: Bundle, accepted: bool)
    requires Inv(sys, s) && Apply(sys, s, id, Start(b, accepted)).Some?
    ensures Inv(sys, Apply(sys, s, id, Start(b, accepted)).value)
  {
    hide Inv, WellFormed;
    StepExtends(sys, s, id, Start(b, accepted));
    QuietStep(sys, s, Apply(sys, s, id, Start(b, accepted)).value, id);
  }

  lemma BuildKeepsInv(sys: System, s: State, id: nat, indexTs: string, anchorTs: string)
    requires Inv(sys, s) && Apply(sys, s, id, Build(indexTs, anchorTs)).Some?
    ensures Inv(sys, Apply(sys, s, id, Build(indexTs, anchorTs)).value)
  {
    hide Inv, WellFormed, BuiltOn, RecordStored, Paired, BuildPhase;
    StepExtends(sys, s, id, Build(indexTs, anchorTs));
    RunOfInv(sys, s, id);
    BuildIsReady(sys, s, s.runs[id].bundle, indexTs, anchorTs);
    QuietStep(sys, s, Apply(sys, s, id, Build(indexTs, anchorTs)).value, id);
  }

  lemma OtherStepKeepsInv(sys: System, s: State, id: nat, action: Action)
    requires action.CopyChain? || action.CopySeal? || action.Crash?
    requires Inv(sys, s) && Apply(sys, s, id, action).Some?
    ensures Inv(sys, Apply(sys, s, id, action).value)
  {
    hide Inv, WellFormed, BuiltOn, RecordStored, Paired, BuildPhase;
    StepExtends(sys, s, id, action);
    var t := Apply(sys, s, id, action).value;
    RunOfInv(sys, s, id);
    RunOkExtends(sys, s, t, id, s.runs[id]);
    hide Extends;
    QuietStep(sys, s, t, id);
  }

  /** Every step of every run keeps the invariant. */
  lemma StepKeepsInv(sys: System, s: State, id: nat, action: Action)
    requires Inv(sys, s) && Apply(sys, s, id, action).Some?
    ensures Inv(sys, Apply(sys, s, id, action).value)
  {
    hide Inv, Apply;
    match action
    case Start(b, accepted) => StartKeepsInv(sys, s, id, b, accepted);
    case Build(indexTs, anchorTs) => BuildKeepsInv(sys, s, id, indexTs, anchorTs);
    case AppendIndex => AppendIndexKeepsInv(sys, s, id);
    case AppendAnchor => AppendAnchorKeepsInv(sys, s, id);
    case _ => OtherStepKeepsInv(sys, s, id, action);
  }

  lemma RunOfInv(sys: System, s: State, id: nat)
    requires Inv(sys, s) && id in s.runs
    ensures RunOk(sys, s, id, s.runs[id])
  {
  }

  /** The invariant holds after every interleaving. */
  lemma {:induction false} ReachableInv(sys: System, s: State, trace: Trace)
    requires Init(s) && Exec(sys, s, trace).Some?
    ensures Inv(sys, Exec(sys, s, trace).value)
    ensures Extends(s, Exec(sys, s, trace).value)
  {
    hide Apply, RunOk, AnchorOk, RecordStored;
    if trace != [] {
      var front, last := trace[..|trace| - 1], trace[|trace| - 1];
      ReachableInv(sys, s, front);
      var t := Exec(sys, s, front).value;
      StepKeepsInv(sys, t, last.0, last.1);
      StepExtends(sys, t, last.0, last.1);
    }
  }
}
