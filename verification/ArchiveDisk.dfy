/** The archive run as the script performs it on files: bytes are copied, log lines are appended, and the
    tip is read back from the anchor file. Each run is shown to be a run of the step machine. */
module ArchiveDisk {
  import opened PyText
  import opened Utf8
  import opened JsonText
  import JsonLines
  import opened AnchorChain
  import opened ArchiveRecords
  import opened ArchiveMachine
  import ArchivePaths
  import ArchiveTheorems

  // ----- log files -----

  /** load_jsonl_objects(path): a missing file has no records; bytes that are not UTF-8 are an error. */
  function LoadFile(files: map<string, Bytes>, path: string): Result<seq<Json>> {
    if path !in files then Ok([]) else JsonLines.LoadBytes(files[path])
  }

  function Content(files: map<string, Bytes>, path: string): Bytes {
    if path in files then files[path] else []
  }

  function Appended(files: map<string, Bytes>, path: string, record: Json): map<string, Bytes> {
    files[path := Content(files, path) + Encode(JsonLines.RecordLine(record))]
  }

  /** A log file that can be read and whose next append will be read back too. */
  predicate CleanLog(files: map<string, Bytes>, path: string, records: seq<Json>) {
    && LoadFile(files, path) == Ok(records)
    && (path in files ==> Blank(JsonLines.LastLine(Decode(files[path]).value)))
  }

  lemma AppendToCleanLog(files: map<string, Bytes>, path: string, records: seq<Json>, record: Json)
    requires CleanLog(files, path, records) && record.Obj? && IsDict(record)
    ensures CleanLog(Appended(files, path, record), path, records + [record])
  {
    hide DecodeChar, EncodeChar, Encode, Decode, IsDict, JsonLines.RecordLine, JsonLines.LoadText, JsonLines.LastLine;
    var text := if path in files then Decode(files[path]).value else "";
    JsonLines.EmptyLog();
    if path !in files { EmptyFile(); }
    DecodeAppend(Content(files, path), JsonLines.RecordLine(record));
    JsonLines.AppendThenLoad(text, record);
  }

  lemma EmptyFile()
    ensures Decode([]) == Some("")
  {
  }

  // ----- the disk and the machine -----

  /** The two archived files and the two logs of a run are four different files. */
  predicate Separate(b: Bundle) {
    && b.indexFile != b.anchorFile
    && b.chainFile != b.indexFile && b.chainFile != b.anchorFile
    && b.sealFile != b.indexFile && b.sealFile != b.anchorFile
  }

  predicate IsLog(b: Bundle, path: string) { path == b.indexFile || path == b.anchorFile }

  /** The files are the state's files, and the two log files read as the state's logs. */
  ghost predicate Represents(files: map<string, Bytes>, b: Bundle, s: State) {
    && (forall p :: !IsLog(b, p) ==> (p in files <==> p in s.files))
    && (forall p :: !IsLog(b, p) && p in files ==> files[p] == s.files[p])
    && CleanLog(files, b.indexFile, s.index) && CleanLog(files, b.anchorFile, s.anchors)
  }

  /** The machine can run this trace, and the disk then represents the state it reaches. */
  ghost predicate Tracks(sys: System, s: State, trace: Trace, files: map<string, Bytes>, b: Bundle, id: nat) {
    && Exec(sys, s, trace).Some? && Represents(files, b, Exec(sys, s, trace).value)
    && id in Exec(sys, s, trace).value.runs && Exec(sys, s, trace).value.runs[id].bundle == b
  }

  lemma ExecSnoc(sys: System, s: State, trace: Trace, id: nat, action: Action)
    requires Exec(sys, s, trace).Some?
    ensures Exec(sys, s, trace + [(id, action)]) == Apply(sys, Exec(sys, s, trace).value, id, action)
  {
    hide Apply;
    assert (trace + [(id, action)])[..|trace|] == trace;
  }

  lemma CopyRepresents(files: map<string, Bytes>, files': map<string, Bytes>, b: Bundle, s: State, t: State,
                       dst: string, source: Bytes)
    requires Represents(files, b, s) && !IsLog(b, dst)
    requires files' == if dst in files then files else files[dst := source]
    requires t.files == if dst in s.files then s.files else s.files[dst := source]
    requires t.index == s.index && t.anchors == s.anchors
    ensures Represents(files', b, t)
  {
    SameLogFile(files, files', b.indexFile, s.index);
    SameLogFile(files, files', b.anchorFile, s.anchors);
    hide CleanLog;
  }

  lemma SameLogFile(files: map<string, Bytes>, files': map<string, Bytes>, path: string, records: seq<Json>)
    requires path in files <==> path in files'
    requires path in files ==> files[path] == files'[path]
    ensures CleanLog(files, path, records) <==> CleanLog(files', path, records)
  {
  }

  lemma AppendIndexRepresents(files: map<string, Bytes>, b: Bundle, s: State, t: State, record: Json)
    requires Represents(files, b, s) && b.indexFile != b.anchorFile && record.Obj? && IsDict(record)
    requires t.files == s.files && t.anchors == s.anchors && t.index == s.index + [record]
    ensures Represents(Appended(files, b.indexFile, record), b, t)
  {
    hide IsDict, Content, CleanLog;
    AppendToCleanLog(files, b.indexFile, s.index, record);
    SameLogFile(files, Appended(files, b.indexFile, record), b.anchorFile, s.anchors);
  }

  lemma AppendAnchorRepresents(files: map<string, Bytes>, b: Bundle, s: State, t: State, record: Json)
    requires Represents(files, b, s) && b.indexFile != b.anchorFile && record.Obj? && IsDict(record)
    requires t.files == s.files && t.index == s.index && t.anchors == s.anchors + [record]
    ensures Represents(Appended(files, b.anchorFile, record), b, t)
  {
    hide IsDict, Content, CleanLog;
    AppendToCleanLog(files, b.anchorFile, s.anchors, record);
    SameLogFile(files, Appended(files, b.anchorFile, record), b.indexFile, s.index);
  }

  /** copy_if_missing succeeds: there is something to keep or to copy, and it has the expected digest. */
  predicate Archivable(sha: Sha, files: map<string, Bytes>, src: string, dst: string, expected: string) {
    (dst in files || src in files) && sha(if dst in files then files[dst] else Content(files, src)) == expected
  }

  function AfterCopy(files: map<string, Bytes>, src: string, dst: string): map<string, Bytes> {
    if dst !in files && src in files then files[dst := files[src]] else files
  }

  datatype CopyResult = Kept | Mismatch | NoSource

  class Disk {
    var files: map<string, Bytes>

    /** copy_if_missing: an existing destination is only checked; a new copy is checked after it is made. */
    method CopyIfMissing(sha: Sha, src: string, dst: string, expected: string) returns (r: CopyResult)
      modifies this
      ensures r.NoSource? <==> dst !in old(files) && src !in old(files)
      ensures r.NoSource? ==> files == old(files)
      ensures !r.NoSource? ==>
                && files == (if dst in old(files) then old(files) else old(files)[dst := old(files)[src]])
                && (r.Kept? <==> sha(files[dst]) == expected)
    {
      if dst in files {
        var existing := sha(files[dst]);
        if existing != expected {
          return Mismatch;
        }
        return Kept;
      }
      if src !in files {
        return NoSource;
      }
      files := files[dst := files[src]];
      var copied := sha(files[dst]);
      r := if copied != expected then Mismatch else Kept;
    }

    /** append_index_record and append_anchor_record */
    method AppendRecord(path: string, record: Json)
      modifies this
      ensures files == Appended(old(files), path, record)
    {
      var line := Encode(JsonLines.RecordLine(record));
      files := files[path := Content(files, path) + line];
    }

    method LoadJsonlObjects(path: string) returns (r: Result<seq<Json>>)
      ensures r.Ok? <==> LoadFile(files, path).Ok?
      ensures r.Ok? ==> r == LoadFile(files, path)
    {
      if path !in files {
        return Ok([]);
      }
      var text := Decode(files[path]);
      if text.None? {
        return Err("not UTF-8");
      }
      r := JsonLines.LoadJsonlObjects(text.value);
    }

    /** One of the two copies of a run. */
    method CopyArtifact(sys: System, b: Bundle, seal: bool, ghost s: State, ghost before: Trace, ghost id: nat)
      returns (ok: bool, ghost trace: Trace)
      requires Separate(b) && Tracks(sys, s, before, files, b, id)
      requires Exec(sys, s, before).value.runs[id].phase == if seal then ChainCopied else Verified
      modifies this
      ensures Tracks(sys, s, trace, files, b, id)
      ensures var t, u := Exec(sys, s, before).value, Exec(sys, s, trace).value;
              && u.index == t.index && u.anchors == t.anchors && u.seen == t.seen
              && (ok <==> u.runs[id].phase == if seal then SealCopied else ChainCopied)
              && (!ok ==> u.runs[id].phase.Failed? || u.runs[id].phase.Crashed?)
      ensures var src := if seal then b.sourceSealFile else b.sourceChainFile;
              var dst := if seal then b.sealFile else b.chainFile;
              && (ok <==> Archivable(sys.sha, old(files), src, dst, if seal then b.sealSha else b.chainSha))
              && files == AfterCopy(old(files), src, dst)
    {
      hide Represents, Exec;
      ghost var t := Exec(sys, s, before).value;
      var src := if seal then b.sourceSealFile else b.sourceChainFile;
      var dst := if seal then b.sealFile else b.chainFile;
      ghost var source := SourceOf(files, src, dst);
      DiskFilesAreStateFiles(files, b, t, dst);
      var copied := CopyIfMissing(sys.sha, src, dst, if seal then b.sealSha else b.chainSha);
      ghost var act := if copied.NoSource? then Crash else if seal then CopySeal(source) else CopyChain(source);
      ExecSnoc(sys, s, before, id, act);
      trace := before + [(id, act)];
      if copied.NoSource? {
        SameLogs(files, b, t, Exec(sys, s, trace).value);
      } else {
        CopyRepresents(old(files), files, b, t, Exec(sys, s, trace).value, dst, source);
      }
      ok := copied.Kept?;
    }

    /** Reading the tip and building both records. */
    method BuildRecords(sys: System, b: Bundle, indexTs: string, anchorTs: string,
                        ghost s: State, ghost before: Trace, ghost id: nat)
      returns (records: Option<(Json, Json)>, ghost trace: Trace)
      requires Inv(sys, s) && Tracks(sys, s, before, files, b, id)
      requires Exec(sys, s, before).value.runs[id].phase.SealCopied?
      ensures Tracks(sys, s, trace, files, b, id)
      ensures records.Some? <==> !b.anchorKey.MissingKey?
      ensures LoadFile(files, b.anchorFile).Ok?
      ensures var tip := ReadTip(LoadFile(files, b.anchorFile).value);
              tip.Some? && records == Records(sys.sha, sys.hmac, b, indexTs, anchorTs, tip.value)
      ensures var t, u := Exec(sys, s, before).value, Exec(sys, s, trace).value;
              && u.index == t.index && u.anchors == t.anchors && u.seen == t.seen
              && (records.None? ==> u.runs[id].phase.Failed?)
              && (records.Some? ==>
                    u.runs[id].phase == Ready(records.value.0, records.value.1, |t.anchors|))
    {
      hide Represents, Exec, ReadTip, Records, Inv;
      ghost var t := Exec(sys, s, before).value;
      LogsOfState(files, b, t);
      ExecKeepsInv(sys, s, before);
      ReadTipOfBuilt(sys, t);
      var log := LoadJsonlObjects(b.anchorFile);
      var tip := ReadTip(log.value);
      records := if tip.None? then None else Records(sys.sha, sys.hmac, b, indexTs, anchorTs, tip.value);
      ExecSnoc(sys, s, before, id, Build(indexTs, anchorTs));
      trace := before + [(id, Build(indexTs, anchorTs))];
      SameLogs(files, b, t, Exec(sys, s, trace).value);
      ArchiveTheorems.FailingStepLeavesLogs(sys, t, id, Build(indexTs, anchorTs));
    }

    /** The two appends. */
    method AppendRecords(sys: System, b: Bundle, record: Json, anchor: Json,
                         ghost s: State, ghost before: Trace, ghost id: nat)
      returns (ghost trace: Trace)
      requires Separate(b) && Inv(sys, s) && Tracks(sys, s, before, files, b, id)
      requires var p := Exec(sys, s, before).value.runs[id].phase; p.Ready? && p.record == record && p.anchor == anchor
      modifies this
      ensures Tracks(sys, s, trace, files, b, id)
      ensures var t, u := Exec(sys, s, before).value, Exec(sys, s, trace).value;
              && u.runs[id].phase.Done? && u.index == t.index + [record] && u.anchors == t.anchors + [anchor]
              && u.seen == t.seen + [t.runs[id].phase.seen]
      ensures files == Appended(Appended(old(files), b.indexFile, record), b.anchorFile, anchor)
    {
      hide Represents, Exec, Inv, Appended, IsDict;
      ghost var t := Exec(sys, s, before).value;
      ReachedReady(sys, s, before, t, id, record, anchor);
      ExecSnoc(sys, s, before, id, AppendIndex);
      trace := before + [(id, AppendIndex)];
      ghost var u := Exec(sys, s, trace).value;
      AppendIndexRepresents(files, b, t, u, record);
      AppendRecord(b.indexFile, record);
      ExecSnoc(sys, s, trace, id, AppendAnchor);
      trace := trace + [(id, AppendAnchor)];
      AppendAnchorRepresents(files, b, u, Exec(sys, s, trace).value, anchor);
      AppendRecord(b.anchorFile, anchor);
    }

    /** main after the paths are built; accepted is the verdict of verify_audit_bundle. On any disk that
        represents a state of the machine the call is a run of the machine: it ends Done, with one record
        appended to each log, exactly when it succeeds, and leaves both logs alone otherwise. It succeeds
        exactly when the bundle is accepted, both files can be archived and the signing secret is there;
        the two records are then built on the tip that was on disk. A log that is one chain stays one. */
    method ArchiveBundle(sys: System, b: Bundle, accepted: bool, indexTs: string, anchorTs: string,
                         ghost s: State, ghost id: nat)
      returns (r: Result<(Json, Json)>, ghost trace: Trace)
      requires b.archiveDir == sys.dir && b.anchorFile == sys.anchorFile && WellFormed(b) && Separate(b)
      requires Inv(sys, s) && id !in s.runs && Represents(files, b, s)
      modifies this
      ensures Tracks(sys, s, trace, files, b, id)
      ensures var t := Exec(sys, s, trace).value;
              && (r.Ok? <==> t.runs[id].phase.Done?)
              && (r.Ok? ==> t.index == s.index + [r.value.0] && t.anchors == s.anchors + [r.value.1])
              && (r.Err? ==> t.index == s.index && t.anchors == s.anchors)
              && (ArchiveTheorems.Linear(s) ==> ArchiveTheorems.Linear(t))
      ensures var copied := AfterCopy(old(files), b.sourceChainFile, b.chainFile);
              var both := AfterCopy(copied, b.sourceSealFile, b.sealFile);
              var chainOk := Archivable(sys.sha, old(files), b.sourceChainFile, b.chainFile, b.chainSha);
              var sealOk := Archivable(sys.sha, copied, b.sourceSealFile, b.sealFile, b.sealSha);
              && (r.Ok? <==> accepted && chainOk && sealOk && !b.anchorKey.MissingKey?)
              && (r.Ok? ==> files == Appended(Appended(both, b.indexFile, r.value.0), b.anchorFile, r.value.1))
              && (r.Err? ==> files == if !accepted then old(files) else if !chainOk then copied else both)
      ensures r.Ok? ==> ReadTip(s.anchors).Some? && LoadFile(old(files), b.anchorFile) == Ok(s.anchors)
                        && Records(sys.sha, sys.hmac, b, indexTs, anchorTs, ReadTip(s.anchors).value) == Some(r.value)
    {
      hide Represents, Exec, Inv, WellFormed, ReadTip, Records, Appended, Archivable, AfterCopy, LoadFile;
      LogsOfState(files, b, s);
      ArchiveTheorems.SeenIsEarlier(sys, s);
      ArchiveTheorems.ExecEmpty(sys, s);
      ExecSnoc(sys, s, [], id, Start(b, accepted));
      trace := [(id, Start(b, accepted))];
      assert [] + [(id, Start(b, accepted))] == trace;
      SameLogs(files, b, s, Exec(sys, s, trace).value);
      if !accepted {
        return Err("audit bundle verification failed"), trace;
      }
      var ok;
      ok, trace := CopyArtifact(sys, b, false, s, trace, id);
      if !ok {
        return Err("audit chain was not archived"), trace;
      }
      ok, trace := CopyArtifact(sys, b, true, s, trace, id);
      if !ok {
        return Err("audit seal was not archived"), trace;
      }
      LogsOfState(files, b, Exec(sys, s, trace).value);
      var records;
      records, trace := BuildRecords(sys, b, indexTs, anchorTs, s, trace, id);
      if records.None? {
        return Err("audit archive anchor key env is not set"), trace;
      }
      trace := AppendRecords(sys, b, records.value.0, records.value.1, s, trace, id);
      r := Ok(records.value);
    }
  }

  /** The bytes a copy would take; the destination's own when there is nothing to copy. */
  function SourceOf(files: map<string, Bytes>, src: string, dst: string): Bytes {
    if dst in files then files[dst] else Content(files, src)
  }

  // ----- any number of calls, one after the other -----

  /** A new archive on a disk without its two logs: the first call may start here. */
  lemma EmptyArchive(sys: System, files: map<string, Bytes>, b: Bundle, s: State)
    requires Init(s) && s.files == files && b.indexFile !in files && b.anchorFile !in files
    ensures Represents(files, b, s) && Inv(sys, s) && ArchiveTheorems.Linear(s)
  {
  }

  /** Where one call of ArchiveBundle ends, a call for any other bundle of the archive may start. */
  lemma NextCall(sys: System, s: State, trace: Trace, files: map<string, Bytes>, b: Bundle, c: Bundle, id: nat)
    requires Inv(sys, s) && Tracks(sys, s, trace, files, b, id)
    requires c.indexFile == b.indexFile && c.anchorFile == b.anchorFile
    ensures var t := Exec(sys, s, trace).value;
            Inv(sys, t) && Represents(files, c, t)
  {
    hide Inv, Exec, CleanLog;
    ExecKeepsInv(sys, s, trace);
  }

  /** Between calls, the bytes of the anchor file load as a log that verify_anchor_record accepts, with a key
      or without, exactly when the key fits the keys the calls signed with. */
  lemma DiskLogVerifies(sys: System, s: State, files: map<string, Bytes>, b: Bundle, key: AnchorKey)
    requires Inv(sys, s) && ArchiveTheorems.Linear(s) && Represents(files, b, s)
    ensures |s.keys| == |s.anchors|
    ensures var log := LoadFile(files, b.anchorFile);
            && log == Ok(s.anchors)
            && (LogOk(sys.sha, sys.hmac, key, sys.dir, log.value) <==> ArchiveTheorems.KeysFit(sys, s, key))
            && forall i :: 0 <= i < |log.value| ==> Field(log.value[i], "chain_position") == Int(i + 1)
  {
    hide Inv, LogOk, ArchiveTheorems.KeysFit, LoadFile;
    LogsOfState(files, b, s);
    ArchiveTheorems.LinearLogVerifies(sys, s, key);
  }

  // ----- any interleaving of runs -----

  /** The files after one step of one run. */
  function FilesStep(files: map<string, Bytes>, s: State, id: nat, action: Action): map<string, Bytes> {
    if id !in s.runs then files
    else
      var b, phase := s.runs[id].bundle, s.runs[id].phase;
      match action
      case CopyChain(source) => if b.chainFile in files then files else files[b.chainFile := source]
      case CopySeal(source) => if b.sealFile in files then files else files[b.sealFile := source]
      case AppendIndex => if phase.Ready? then Appended(files, b.indexFile, phase.record) else files
      case AppendAnchor => if phase.Indexed? then Appended(files, b.anchorFile, phase.anchor) else files
      case _ => files
  }

  /** The files after any interleaving of steps. */
  function FilesAfter(sys: System, files: map<string, Bytes>, s: State, trace: Trace): map<string, Bytes>
    requires Exec(sys, s, trace).Some?
    decreases |trace|
  {
    if trace == [] then files
    else
      var front, last := trace[..|trace| - 1], trace[|trace| - 1];
      FilesStep(FilesAfter(sys, files, s, front), Exec(sys, s, front).value, last.0, last.1)
  }

  /** The bundle is for the archive with these two logs, and its archived files are neither of them. */
  predicate ForArchive(c: Bundle, b: Bundle) {
    Separate(c) && c.indexFile == b.indexFile && c.anchorFile == b.anchorFile
  }

  predicate RunsForArchive(s: State, b: Bundle) { forall id :: id in s.runs ==> ForArchive(s.runs[id].bundle, b) }

  predicate StartsForArchive(trace: Trace, b: Bundle) {
    forall i :: 0 <= i < |trace| && trace[i].1.Start? ==> ForArchive(trace[i].1.bundle, b)
  }

  lemma StepKeepsArchive(sys: System, s: State, id: nat, action: Action, b: Bundle)
    requires RunsForArchive(s, b) && Apply(sys, s, id, action).Some?
    requires action.Start? ==> ForArchive(action.bundle, b)
    ensures RunsForArchive(Apply(sys, s, id, action).value, b)
  {
    hide ForArchive, WellFormed, BuildPhase;
  }

  lemma CopyStepRepresents(sys: System, files: map<string, Bytes>, b: Bundle, s: State, id: nat, action: Action)
    requires action.CopyChain? || action.CopySeal?
    requires Represents(files, b, s) && RunsForArchive(s, b) && Apply(sys, s, id, action).Some?
    ensures Represents(FilesStep(files, s, id, action), b, Apply(sys, s, id, action).value)
  {
    hide Represents;
    var t, c := Apply(sys, s, id, action).value, s.runs[id].bundle;
    var dst := if action.CopySeal? then c.sealFile else c.chainFile;
    DiskFilesAreStateFiles(files, b, s, dst);
    CopyRepresents(files, FilesStep(files, s, id, action), b, s, t, dst, action.source);
  }

  lemma AppendStepRepresents(sys: System, files: map<string, Bytes>, b: Bundle, s: State, id: nat, action: Action)
    requires action.AppendIndex? || action.AppendAnchor?
    requires Inv(sys, s) && Represents(files, b, s) && RunsForArchive(s, b) && Apply(sys, s, id, action).Some?
    ensures Represents(FilesStep(files, s, id, action), b, Apply(sys, s, id, action).value)
  {
    hide Represents, Inv, Appended, IsDict, Stored, RecordOk, Paired, WellFormed, Position;
    var t := Apply(sys, s, id, action).value;
    RunOfInv(sys, s, id);
    if action.AppendIndex? {
      AppendIndexRepresents(files, b, s, t, s.runs[id].phase.record);
    } else {
      AppendAnchorRepresents(files, b, s, t, s.runs[id].phase.anchor);
    }
  }

  /** One step of the machine and the same step on the files lead to a state and to files that represent it. */
  lemma StepRepresents(sys: System, files: map<string, Bytes>, b: Bundle, s: State, id: nat, action: Action)
    requires Inv(sys, s) && Represents(files, b, s) && RunsForArchive(s, b) && Apply(sys, s, id, action).Some?
    ensures Represents(FilesStep(files, s, id, action), b, Apply(sys, s, id, action).value)
  {
    hide Represents, Inv, RunsForArchive, Appended;
    match action
    case CopyChain(_) => CopyStepRepresents(sys, files, b, s, id, action);
    case CopySeal(_) => CopyStepRepresents(sys, files, b, s, id, action);
    case AppendIndex => AppendStepRepresents(sys, files, b, s, id, action);
    case AppendAnchor => AppendStepRepresents(sys, files, b, s, id, action);
    case _ => SameLogs(files, b, s, Apply(sys, s, id, action).value);
  }

  lemma {:induction false} TraceRepresents(sys: System, files: map<string, Bytes>, b: Bundle, s: State, trace: Trace)
    requires Inv(sys, s) && Represents(files, b, s) && RunsForArchive(s, b) && StartsForArchive(trace, b)
    requires Exec(sys, s, trace).Some?
    ensures Represents(FilesAfter(sys, files, s, trace), b, Exec(sys, s, trace).value)
    ensures RunsForArchive(Exec(sys, s, trace).value, b)
    decreases |trace|
  {
    hide Represents, Inv, RunsForArchive, ForArchive, FilesStep, Apply;
    if trace != [] {
      var front, last := trace[..|trace| - 1], trace[|trace| - 1];
      assert forall i :: 0 <= i < |front| ==> front[i] == trace[i];
      TraceRepresents(sys, files, b, s, front);
      ExecKeepsInv(sys, s, front);
      var t := Exec(sys, s, front).value;
      StepRepresents(sys, FilesAfter(sys, files, s, front), b, t, last.0, last.1);
      StepKeepsArchive(sys, t, last.0, last.1, b);
    }
  }

  /** On a disk without the two logs, after any interleaving of the steps of any runs: the bytes of the two log
      files load as the machine's logs, so the loaded anchor log is the forest of EveryInterleavingIsAForest,
      and the check accepts it, with any key, as VerifierAcceptsExactlyOneChain says. */
  lemma InterleavingsOnDisk(sys: System, b: Bundle, s: State, trace: Trace, key: AnchorKey)
    requires Init(s) && b.indexFile !in s.files && b.anchorFile !in s.files
    requires StartsForArchive(trace, b) && Exec(sys, s, trace).Some?
    ensures var t, files := Exec(sys, s, trace).value, FilesAfter(sys, s.files, s, trace);
            var index, log := LoadFile(files, b.indexFile), LoadFile(files, b.anchorFile);
            && index == Ok(t.index) && log == Ok(t.anchors) && |t.keys| == |t.anchors|
            && (forall i :: 0 <= i < |log.value| ==> ArchiveTheorems.InForest(log.value, i))
            && (ArchiveTheorems.Linear(t) && ArchiveTheorems.KeysFit(sys, t, key) ==>
                  LogOk(sys.sha, sys.hmac, key, sys.dir, log.value))
            && (LogOk(sys.sha, sys.hmac, key, sys.dir, log.value) ==>
                  && ArchiveTheorems.KeysFit(sys, t, key)
                  && (ArchiveTheorems.Linear(t) || ForkCollides(sys, t)))
  {
    hide Inv, Exec, LogOk, Represents, FilesAfter, ArchiveTheorems.InForest, ArchiveTheorems.KeysFit;
    hide ArchiveTheorems.IsParent, ArchiveTheorems.Depth, IsCollision, LoadFile, Compare;
    EmptyArchive(sys, s.files, b, s);
    TraceRepresents(sys, s.files, b, s, trace);
    LogsOfState(FilesAfter(sys, s.files, s, trace), b, Exec(sys, s, trace).value);
    ArchiveTheorems.EveryInterleavingIsAForest(sys, s, trace);
    ArchiveTheorems.VerifierAcceptsExactlyOneChain(sys, s, trace, key);
  }

  /** Walking back from the first stale link exhibits a digest collision. */
  predicate ForkCollides(sys: System, t: State) {
    && !ArchiveTheorems.Linear(t)
    && var i := ArchiveTheorems.FirstFork(t.seen, 0);
       && t.seen[i] < i < |t.anchors|
       && ArchiveTheorems.Collide(sys.sha, t.anchors[..t.seen[i]], t.anchors[..i])
  }

  lemma SameLogs(files: map<string, Bytes>, b: Bundle, s: State, t: State)
    requires Represents(files, b, s) && t.files == s.files && t.index == s.index && t.anchors == s.anchors
    ensures Represents(files, b, t)
  {
  }

  lemma DiskFilesAreStateFiles(files: map<string, Bytes>, b: Bundle, s: State, path: string)
    requires Represents(files, b, s) && !IsLog(b, path)
    ensures path in files <==> path in s.files
    ensures path in files ==> files[path] == s.files[path]
  {
  }

  lemma LogsOfState(files: map<string, Bytes>, b: Bundle, s: State)
    requires Represents(files, b, s)
    ensures LoadFile(files, b.indexFile) == Ok(s.index) && LoadFile(files, b.anchorFile) == Ok(s.anchors)
  {
  }

  /** The records a run is ready to append are dicts. */
  lemma ReachedReady(sys: System, s: State, trace: Trace, t: State, id: nat, record: Json, anchor: Json)
    requires Inv(sys, s) && Exec(sys, s, trace) == Some(t)
    requires id in t.runs && t.runs[id].phase.Ready?
    requires t.runs[id].phase.record == record && t.runs[id].phase.anchor == anchor
    ensures record.Obj? && IsDict(record) && anchor.Obj? && IsDict(anchor)
  {
    hide Inv, Exec, IsDict, Stored, RecordOk, Paired, WellFormed;
    ExecKeepsInv(sys, s, trace);
    RunOfInv(sys, t, id);
  }

  lemma {:induction false} ExecKeepsInv(sys: System, s: State, trace: Trace)
    requires Inv(sys, s) && Exec(sys, s, trace).Some?
    ensures Inv(sys, Exec(sys, s, trace).value)
  {
    hide Inv, Apply;
    if trace != [] {
      var front, last := trace[..|trace| - 1], trace[|trace| - 1];
      ExecKeepsInv(sys, s, front);
      StepKeepsInv(sys, Exec(sys, s, front).value, last.0, last.1);
    }
  }

  /** The absolute paths of what build_archive_paths returns are separate, whatever the job id. */
  lemma BuiltPathsAreSeparate(cwd: ArchivePaths.Place, archiveDir: string, tenant: string, b: Bundle)
    requires ArchivePaths.Segments(cwd) && (tenant == "" || ArchivePaths.Segment(tenant))
    requires IsDigest(b.chainSha) && IsDigest(b.sealSha)
    requires var p := ArchivePaths.BuildArchivePaths(cwd, archiveDir, b.jobId, b.chainSha, b.sealSha, tenant);
             && p.Ok? && b.chainFile == ArchivePaths.AbsPath(cwd, p.value.auditChain)
             && b.sealFile == ArchivePaths.AbsPath(cwd, p.value.auditSeal)
             && b.indexFile == ArchivePaths.AbsPath(cwd, p.value.index)
             && b.anchorFile == ArchivePaths.AbsPath(cwd, ArchivePaths.AnchorFile(cwd, p.value.archiveRoot))
    ensures Separate(b)
  {
    hide ArchivePaths.BuildArchivePaths, ArchivePaths.PlaceOf, ArchivePaths.AnchorFile, ArchivePaths.AbsPath;
    DigestHasNoSlash(b.chainSha);
    DigestHasNoSlash(b.sealSha);
    ArchivePaths.ArchivedFilesAreNotLogs(cwd, archiveDir, b.jobId, b.chainSha, b.sealSha, tenant);
    LogsDiffer(cwd, archiveDir, b.jobId, b.chainSha, b.sealSha, tenant);
    var p := ArchivePaths.BuildArchivePaths(cwd, archiveDir, b.jobId, b.chainSha, b.sealSha, tenant).value;
    var anchor := ArchivePaths.AnchorFile(cwd, p.archiveRoot);
    ArchivePaths.PlaceOfAbsPath(cwd, p.auditChain);
    ArchivePaths.PlaceOfAbsPath(cwd, p.auditSeal);
    ArchivePaths.PlaceOfAbsPath(cwd, p.index);
    ArchivePaths.PlaceOfAbsPath(cwd, anchor);
    assert p.auditChain in [p.auditChain, p.auditSeal] && p.auditSeal in [p.auditChain, p.auditSeal];
    assert p.index in [p.index, anchor] && anchor in [p.index, anchor];
    assert ArchivePaths.PlaceOf(cwd, b.chainFile) != ArchivePaths.PlaceOf(cwd, b.indexFile);
    assert ArchivePaths.PlaceOf(cwd, b.chainFile) != ArchivePaths.PlaceOf(cwd, b.anchorFile);
    assert ArchivePaths.PlaceOf(cwd, b.sealFile) != ArchivePaths.PlaceOf(cwd, b.indexFile);
    assert ArchivePaths.PlaceOf(cwd, b.sealFile) != ArchivePaths.PlaceOf(cwd, b.anchorFile);
  }

  lemma DigestHasNoSlash(s: string)
    requires IsDigest(s)
    ensures ArchivePaths.NoSlash(s)
  {
    assert forall i :: 0 <= i < |s| ==> IsHex(s[i]);
  }

  lemma LogsDiffer(cwd: ArchivePaths.Place, archiveDir: string, jobId: string, chainSha: string, sealSha: string,
                   tenant: string)
    requires ArchivePaths.Segments(cwd) && (tenant == "" || ArchivePaths.Segment(tenant))
    requires ArchivePaths.BuildArchivePaths(cwd, archiveDir, jobId, chainSha, sealSha, tenant).Ok?
    ensures var p := ArchivePaths.BuildArchivePaths(cwd, archiveDir, jobId, chainSha, sealSha, tenant).value;
            ArchivePaths.PlaceOf(cwd, p.index) != ArchivePaths.PlaceOf(cwd, ArchivePaths.AnchorFile(cwd, p.archiveRoot))
  {
    hide ArchivePaths.PlaceOf, ArchivePaths.AnchorFile, ArchivePaths.AbsPath, ArchivePaths.Join;
    hide ArchivePaths.Split, ArchivePaths.Resolve, Strip;
    var p := ArchivePaths.BuildArchivePaths(cwd, archiveDir, jobId, chainSha, sealSha, tenant).value;
    var root := ArchivePaths.PlaceOf(cwd, p.archiveRoot);
    if tenant == "" {
      ArchivePaths.FlatPlaces(cwd, archiveDir, jobId, chainSha, sealSha);
    } else {
      ArchivePaths.ValidateDecides(jobId);
      ArchivePaths.TenantPlaces(cwd, archiveDir, jobId, chainSha, sealSha, tenant);
    }
    assert (root + ["audit_chain_index.jsonl"])[|root|] == "audit_chain_index.jsonl";
    assert (root + ["audit_chain_anchor.jsonl"])[|root|] == "audit_chain_anchor.jsonl";
  }
}
