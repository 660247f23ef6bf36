/** What the archive keeps over whole histories: under every interleaving, and when runs do not overlap. */
module ArchiveTheorems {
  import opened PyText
  import opened Utf8
  import opened JsonText
  import opened AnchorChain
  import opened ArchiveRecords
  import opened ArchiveMachine
  import opened CanonicalJson

  // ----- every interleaving: a forest -----

  /** The number of entries on the way from anchor i to its root, following the tips that were read. */
  function Depth(seen: seq<nat>, i: nat): nat
    requires i < |seen| && forall j :: 0 <= j < |seen| ==> seen[j] <= j
  {
    if seen[i] == 0 then 1 else 1 + Depth(seen, seen[i] - 1)
  }

  /** Anchor i is a root at position 1, or its link names an earlier anchor and its position is one more. */
  ghost predicate InForest(log: seq<Json>, i: nat)
    requires i < |log|
  {
    var link := Field(log[i], "previous_anchor_entry_sha256");
    || (link == Null && Field(log[i], "chain_position") == Int(1))
    || exists j :: 0 <= j < i && IsParent(log, j, i)
  }

  predicate IsParent(log: seq<Json>, j: nat, i: nat)
    requires j < |log| && i < |log|
  {
    && Field(log[i], "previous_anchor_entry_sha256").Str?
    && Field(log[i], "previous_anchor_entry_sha256") == Field(log[j], "entry_sha256")
    && Field(log[j], "chain_position").Int?
    && Field(log[i], "chain_position") == Int(Field(log[j], "chain_position").n + 1)
  }

  /** What one built anchor says about its parent. */
  lemma BuiltOnParent(sys: System, log: seq<Json>, i: nat, n: nat)
    requires n <= i < |log| && BuiltOn(sys, log[i], log, n)
    requires n > 0 ==> Field(log[n - 1], "entry_sha256").Str?
    ensures n == 0 ==>
              Field(log[i], "previous_anchor_entry_sha256") == Null && Field(log[i], "chain_position") == Int(1)
    ensures n > 0 ==> IsParent(log, n - 1, i)
  {
    hide IsDict, SignatureOk, Get, HasKey;
    if n > 0 { assert log[..n][n - 1] == log[n - 1]; }
  }

  lemma AnchorParent(sys: System, s: State, i: nat)
    requires Inv(sys, s) && i < |s.anchors|
    ensures s.seen[i] <= i && BuiltOn(sys, s.anchors[i], s.anchors, s.seen[i])
    ensures s.seen[i] == 0 ==>
              && Field(s.anchors[i], "previous_anchor_entry_sha256") == Null
              && Field(s.anchors[i], "chain_position") == Int(1)
    ensures s.seen[i] > 0 ==> IsParent(s.anchors, s.seen[i] - 1, i)
  {
    hide RunOk, OwnersOk, RecordStored, Paired, BuiltOn, Field;
    assert AnchorOk(sys, s, i);
    var n := s.seen[i];
    if n > 0 {
      assert AnchorOk(sys, s, n - 1);
      BuiltEntry(sys, s.anchors[n - 1], s.anchors, s.seen[n - 1]);
    }
    BuiltOnParent(sys, s.anchors, i, n);
  }

  lemma {:induction false} PositionIsDepth(sys: System, s: State, i: nat)
    requires Inv(sys, s) && i < |s.anchors| == |s.seen|
    requires forall j :: 0 <= j < |s.seen| ==> s.seen[j] <= j
    ensures Field(s.anchors[i], "chain_position") == Int(Depth(s.seen, i))
  {
    hide Inv, BuiltOn, Field;
    AnchorParent(sys, s, i);
    if s.seen[i] > 0 { PositionIsDepth(sys, s, s.seen[i] - 1); }
  }

  lemma SeenIsEarlier(sys: System, s: State)
    requires Inv(sys, s)
    ensures |s.seen| == |s.anchors| && forall j :: 0 <= j < |s.seen| ==> s.seen[j] <= j
  {
    hide BuiltOn, Paired, RunOk, OwnersOk;
    forall j | 0 <= j < |s.seen| ensures s.seen[j] <= j { assert AnchorOk(sys, s, j); }
  }

  /** Under every interleaving the anchor log is a forest whose links point strictly backwards: each anchor
      is a root or its link names the tip its run had read. chain_position is the depth along those links. */
  lemma EveryInterleavingIsAForest(sys: System, s: State, trace: Trace)
    requires Init(s) && Exec(sys, s, trace).Some?
    ensures var t := Exec(sys, s, trace).value;
            && |t.seen| == |t.anchors| && (forall j :: 0 <= j < |t.seen| ==> t.seen[j] <= j)
            && forall i :: 0 <= i < |t.anchors| ==>
                 && InForest(t.anchors, i)
                 && (t.seen[i] == 0 ==> Field(t.anchors[i], "previous_anchor_entry_sha256") == Null)
                 && (t.seen[i] > 0 ==> IsParent(t.anchors, t.seen[i] - 1, i))
                 && Field(t.anchors[i], "chain_position") == Int(Depth(t.seen, i))
  {
    hide Inv, Exec, Field, BuiltOn, IsParent;
    ReachableInv(sys, s, trace);
    var t := Exec(sys, s, trace).value;
    SeenIsEarlier(sys, t);
    forall i | 0 <= i < |t.anchors|
      ensures InForest(t.anchors, i) && Field(t.anchors[i], "chain_position") == Int(Depth(t.seen, i))
      ensures t.seen[i] == 0 ==> Field(t.anchors[i], "previous_anchor_entry_sha256") == Null
      ensures t.seen[i] > 0 ==> IsParent(t.anchors, t.seen[i] - 1, i)
    {
      AnchorParent(sys, t, i);
      PositionIsDepth(sys, t, i);
    }
  }

  // ----- when the verifier accepts the log -----

  /** Every run read the tip that was still the tip when its anchor was appended. */
  predicate Linear(s: State) { forall i :: 0 <= i < |s.seen| ==> s.seen[i] == i }

  /** The first anchor whose run had read an older tip. */
  function FirstFork(seen: seq<nat>, i: nat): (k: nat)
    requires i <= |seen| && exists j :: i <= j < |seen| && seen[j] != j
    ensures i <= k < |seen| && seen[k] != k
    decreases |seen| - i
  {
    if seen[i] != i then i else FirstFork(seen, i + 1)
  }

  function EntryText(anchor: Json): string {
    match Field(anchor, "entry_sha256") case Str(s) => s case _ => ""
  }

  /** What a check with this key makes of an entry signed with the signer's key: an unsigned entry passes,
      a signed one when both keys give its entry hash the same signature. */
  predicate KeyAllows(hmac: Hmac, key: AnchorKey, signer: AnchorKey, anchor: Json) {
    signer.NoKey? ||
    match key
    case NoKey => true
    case MissingKey => false
    case Key(secret) => signer.Key? && hmac(signer.secret, EntryText(anchor)) == hmac(secret, EntryText(anchor))
  }

  predicate KeysFit(sys: System, s: State, key: AnchorKey)
    requires |s.keys| == |s.anchors|
  {
    forall i :: 0 <= i < |s.anchors| ==> KeyAllows(sys.hmac, key, s.keys[i], s.anchors[i])
  }

  lemma SignedDecides(hmac: Hmac, key: AnchorKey, signer: AnchorKey, anchor: Json)
    requires Signed(hmac, signer, anchor)
    ensures KeyFits(hmac, key, anchor) <==> KeyAllows(hmac, key, signer, anchor)
  {
    hide Field;
  }

  /** The check with a key accepts a log exactly when the check without one does and the key fits the keys
      that the runs signed with. */
  lemma KeysDecide(sys: System, s: State, key: AnchorKey)
    requires Inv(sys, s)
    ensures |s.keys| == |s.anchors|
    ensures LogOk(sys.sha, sys.hmac, key, sys.dir, s.anchors) <==>
            LogOk(sys.sha, sys.hmac, NoKey, sys.dir, s.anchors) && KeysFit(sys, s, key)
  {
    hide RunOk, OwnersOk, RecordStored, BuiltOn, KeyFits, KeyAllows, Signed, LogOk, Names, Field, IndexSha;
    KeyedCheck(sys.sha, sys.hmac, key, sys.dir, s.anchors);
    forall i | 0 <= i < |s.anchors|
      ensures KeyFits(sys.hmac, key, s.anchors[i]) <==> KeyAllows(sys.hmac, key, s.keys[i], s.anchors[i])
    {
      assert AnchorOk(sys, s, i);
      SignedDecides(sys.hmac, key, s.keys[i], s.anchors[i]);
    }
  }

  /** A log whose runs all read the tip they were appended behind is accepted exactly when the key fits. */
  lemma LinearLogVerifies(sys: System, s: State, key: AnchorKey)
    requires Inv(sys, s) && Linear(s)
    ensures |s.keys| == |s.anchors|
    ensures LogOk(sys.sha, sys.hmac, key, sys.dir, s.anchors) <==> KeysFit(sys, s, key)
    ensures forall i :: 0 <= i < |s.anchors| ==> Field(s.anchors[i], "chain_position") == Int(i + 1)
  {
    hide Inv, RecordOk, Field, IsParent, Tip, IsDict, HasKey, KeysFit;
    SeenIsEarlier(sys, s);
    KeysDecide(sys, s, key);
    forall i | 0 <= i < |s.anchors|
      ensures RecordOk(sys.sha, sys.hmac, NoKey, sys.dir, s.anchors[i], Tip(s.anchors[..i]))
    {
      AnchorParent(sys, s, i);
    }
    forall i | 0 <= i < |s.anchors| ensures Field(s.anchors[i], "chain_position") == Int(i + 1) {
      PositionIsDepth(sys, s, i);
      LinearDepth(s.seen, i);
    }
  }

  lemma {:induction false} LinearDepth(seen: seq<nat>, i: nat)
    requires i < |seen| && forall j :: 0 <= j < |seen| ==> seen[j] == j
    ensures Depth(seen, i) == i + 1
  {
    if i > 0 { LinearDepth(seen, i - 1); }
  }

  lemma LogOkIsLinked(sha: Sha, hmac: Hmac, key: AnchorKey, dir: string, log: seq<Json>)
    requires LogOk(sha, hmac, key, dir, log)
    ensures Linked(sha, log)
  {
    hide EntryOk, SignatureOk, Field, Tip;
    forall i | 0 <= i < |log| ensures EntryOk(sha, log[i], Tip(log[..i])) {
      assert RecordOk(sha, hmac, key, dir, log[i], Tip(log[..i]));
    }
  }

  /** Two entries of one verified log that the same link could name are the same entry, or collide. */
  lemma LinkNamesOneEntry(sha: Sha, log: seq<Json>, m: nat, n: nat)
    requires Linked(sha, log) && AllDicts(log) && m < n <= |log| && Tip(log[..m]) == Tip(log[..n])
    ensures IsCollision(sha, log[..m], log[..n], Compare(sha, log[..m], log[..n]))
  {
    hide Tip, Linked, IsCollision, IsDict;
    LinkedPrefix(sha, log, m);
    LinkedPrefix(sha, log, n);
    TamperEvidence(sha, log[..m], log[..n]);
  }

  lemma AnchorsAreDicts(sys: System, s: State)
    requires Inv(sys, s)
    ensures AllDicts(s.anchors)
  {
    hide RunOk, OwnersOk, RecordStored, Paired, IsDict, RecordOk, HasKey, Field;
    forall i | 0 <= i < |s.anchors| ensures s.anchors[i].Obj? && IsDict(s.anchors[i]) {
      assert AnchorOk(sys, s, i);
    }
  }

  lemma LinkDecides(sys: System, log: seq<Json>, i: nat, n: nat)
    requires i < |log| && BuiltOn(sys, log[i], log, n)
    requires EntryOk(sys.sha, log[i], Tip(log[..i]))
    ensures Tip(log[..n]) == Tip(log[..i])
  {
    hide IsDict, SignatureOk, Field, Tip, HasKey;
  }

  /** The verifier's verdict, with any key or none, on a log that any interleaving produced: it accepts the
      log when every run read the tip it was appended behind and the key fits; a key that does not fit is
      always refused; if any other log is accepted, walking back from the first stale link exhibits a
      digest collision. */
  lemma VerifierAcceptsExactlyOneChain(sys: System, s: State, trace: Trace, key: AnchorKey)
    requires Init(s) && Exec(sys, s, trace).Some?
    ensures var t := Exec(sys, s, trace).value;
            && |t.keys| == |t.anchors|
            && (Linear(t) && KeysFit(sys, t, key) ==> LogOk(sys.sha, sys.hmac, key, sys.dir, t.anchors))
            && (!KeysFit(sys, t, key) ==> !LogOk(sys.sha, sys.hmac, key, sys.dir, t.anchors))
            && (!Linear(t) && LogOk(sys.sha, sys.hmac, key, sys.dir, t.anchors) ==>
                  var i := FirstFork(t.seen, 0);
                  && t.seen[i] < i < |t.anchors|
                  && var a, b := t.anchors[..t.seen[i]], t.anchors[..i];
                     IsCollision(sys.sha, a, b, Compare(sys.sha, a, b)))
  {
    hide Inv, Exec, LogOk, BuiltOn, IsCollision, EntryOk, Compare, IsParent, Field, KeysFit;
    ReachableInv(sys, s, trace);
    var t := Exec(sys, s, trace).value;
    SeenIsEarlier(sys, t);
    KeysDecide(sys, t, key);
    if Linear(t) {
      LinearLogVerifies(sys, t, key);
    } else if LogOk(sys.sha, sys.hmac, NoKey, sys.dir, t.anchors) {
      var i := FirstFork(t.seen, 0);
      LogOkIsLinked(sys.sha, sys.hmac, NoKey, sys.dir, t.anchors);
      AnchorParent(sys, t, i);
      AnchorsAreDicts(sys, t);
      LinkedPrefix(sys.sha, t.anchors, t.seen[i]);
      TipShape(sys.sha, t.anchors[..t.seen[i]]);
      LinkDecides(sys, t.anchors, i, t.seen[i]);
      LinkNamesOneEntry(sys.sha, t.anchors, t.seen[i], i);
    }
  }

  // ----- overlapping runs do break the chain -----

  /** Two runs of one bundle, both building their records before either appends. */
  function OverlappingTrace(b: Bundle, chain: Bytes, seal: Bytes, ts: string): Trace {
    [ (0, Start(b, true)), (0, CopyChain(chain)), (0, CopySeal(seal)), (0, Build(ts, ts)),
      (1, Start(b, true)), (1, CopyChain(chain)), (1, CopySeal(seal)), (1, Build(ts, ts)),
      (0, AppendIndex), (0, AppendAnchor), (1, AppendIndex), (1, AppendAnchor) ]
  }

  lemma ExecPrefix(sys: System, s: State, trace: Trace, k: nat)
    requires k < |trace| && Exec(sys, s, trace[..k]).Some?
    ensures Exec(sys, s, trace[..k + 1]) == Apply(sys, Exec(sys, s, trace[..k]).value, trace[k].0, trace[k].1)
  {
    hide Apply;
    assert trace[..k + 1][..k] == trace[..k];
  }

  /** The state after a run has copied its two files and built its records on an empty log. */
  function Built(sys: System, t: State, id: nat, b: Bundle, chain: Bytes, seal: Bytes, ts: string): State {
    t.(files := t.files[b.chainFile := chain][b.sealFile := seal],
       runs := t.runs[id := Run(b, BuildPhase(sys, b, ts, ts, []))])
  }

  predicate FreshFor(sys: System, t: State, id: nat, b: Bundle, chain: Bytes, seal: Bytes) {
    && b.archiveDir == sys.dir && b.anchorFile == sys.anchorFile && WellFormed(b) && b.chainFile != b.sealFile
    && b.chainSha == sys.sha(chain) && b.sealSha == sys.sha(seal)
    && id !in t.runs && t.anchors == []
    && (b.chainFile in t.files ==> t.files[b.chainFile] == chain)
    && (b.sealFile in t.files ==> t.files[b.sealFile] == seal)
  }

  lemma CopyStep(sys: System, t: State, id: nat, b: Bundle, source: Bytes, seal: bool)
    requires id in t.runs && t.runs[id] == Run(b, if seal then ChainCopied else Verified)
    requires var dst, digest := if seal then b.sealFile else b.chainFile, if seal then b.sealSha else b.chainSha;
             sys.sha(source) == digest && (dst in t.files ==> t.files[dst] == source)
    ensures Apply(sys, t, id, if seal then CopySeal(source) else CopyChain(source)) ==
            Some(t.(files := t.files[if seal then b.sealFile else b.chainFile := source],
                    runs := t.runs[id := Run(b, if seal then SealCopied else ChainCopied)]))
  {
    var dst := if seal then b.sealFile else b.chainFile;
    if dst in t.files { assert t.files[dst := source] == t.files; }
  }

  lemma StartAndBuildStep(sys: System, t: State, id: nat, b: Bundle, ts: string)
    ensures id !in t.runs && b.archiveDir == sys.dir && b.anchorFile == sys.anchorFile && WellFormed(b) ==>
              Apply(sys, t, id, Start(b, true)) == Some(t.(runs := t.runs[id := Run(b, Verified)]))
    ensures id in t.runs && t.runs[id] == Run(b, SealCopied) ==>
              Apply(sys, t, id, Build(ts, ts)) ==
              Some(t.(runs := t.runs[id := Run(b, BuildPhase(sys, b, ts, ts, t.anchors))]))
  {
    hide WellFormed, BuildPhase;
  }

  lemma BuiltFrom(sys: System, t: State, t3: State, id: nat, b: Bundle, chain: Bytes, seal: Bytes, ts: string)
    requires t3 == t.(files := t.files[b.chainFile := chain][b.sealFile := seal],
                      runs := t.runs[id := Run(b, SealCopied)])
    ensures t3.(runs := t3.runs[id := Run(b, BuildPhase(sys, b, ts, ts, []))]) == Built(sys, t, id, b, chain, seal, ts)
  {
    hide BuildPhase;
    var run := Run(b, BuildPhase(sys, b, ts, ts, []));
    assert t3.runs[id := run] == t.runs[id := run];
  }

  lemma StepsUpToBuild(sys: System, t: State, id: nat, b: Bundle, chain: Bytes, seal: Bytes, ts: string)
    requires FreshFor(sys, t, id, b, chain, seal)
    ensures var t1 := t.(runs := t.runs[id := Run(b, Verified)]);
            var t2 := t.(files := t.files[b.chainFile := chain], runs := t.runs[id := Run(b, ChainCopied)]);
            var t3 := t2.(files := t2.files[b.sealFile := seal], runs := t.runs[id := Run(b, SealCopied)]);
            && Apply(sys, t, id, Start(b, true)) == Some(t1)
            && Apply(sys, t1, id, CopyChain(chain)) == Some(t2)
            && Apply(sys, t2, id, CopySeal(seal)) == Some(t3)
            && Apply(sys, t3, id, Build(ts, ts)) == Some(Built(sys, t, id, b, chain, seal, ts))
  {
    hide WellFormed, BuildPhase, Apply, Built;
    var t1 := t.(runs := t.runs[id := Run(b, Verified)]);
    var t2 := t.(files := t.files[b.chainFile := chain], runs := t.runs[id := Run(b, ChainCopied)]);
    var t3 := t2.(files := t2.files[b.sealFile := seal], runs := t.runs[id := Run(b, SealCopied)]);
    StartAndBuildStep(sys, t, id, b, ts);
    assert t1.runs[id := Run(b, ChainCopied)] == t2.runs;
    CopyStep(sys, t1, id, b, chain, false);
    assert t2.runs[id := Run(b, SealCopied)] == t3.runs;
    CopyStep(sys, t2, id, b, seal, true);
    StartAndBuildStep(sys, t3, id, b, ts);
    BuiltFrom(sys, t, t3, id, b, chain, seal, ts);
  }

  lemma RunUpToBuild(sys: System, s: State, trace: Trace, k: nat, id: nat, b: Bundle, chain: Bytes, seal: Bytes,
                     ts: string)
    requires k + 4 <= |trace| && Exec(sys, s, trace[..k]).Some?
    requires trace[k] == (id, Start(b, true)) && trace[k + 1] == (id, CopyChain(chain))
    requires trace[k + 2] == (id, CopySeal(seal)) && trace[k + 3] == (id, Build(ts, ts))
    requires FreshFor(sys, Exec(sys, s, trace[..k]).value, id, b, chain, seal)
    ensures Exec(sys, s, trace[..k + 4]) == Some(Built(sys, Exec(sys, s, trace[..k]).value, id, b, chain, seal, ts))
  {
    hide Apply, Exec, Built, FreshFor;
    StepsUpToBuild(sys, Exec(sys, s, trace[..k]).value, id, b, chain, seal, ts);
    ExecPrefix(sys, s, trace, k);
    ExecPrefix(sys, s, trace, k + 1);
    ExecPrefix(sys, s, trace, k + 2);
    ExecPrefix(sys, s, trace, k + 3);
  }

  lemma StepsOfAppends(sys: System, t: State, record: Json, anchor: Json, b: Bundle)
    requires t.runs == map[0 := Run(b, Ready(record, anchor, 0)), 1 := Run(b, Ready(record, anchor, 0))]
    requires t.index == [] && t.anchors == [] && t.indexedBy == [] && t.seen == [] && t.matched == []
    ensures var t1 := Apply(sys, t, 0, AppendIndex);
            && t1.Some?
            && var t2 := Apply(sys, t1.value, 0, AppendAnchor);
            && t2.Some?
            && var t3 := Apply(sys, t2.value, 1, AppendIndex);
            && t3.Some?
            && var t4 := Apply(sys, t3.value, 1, AppendAnchor);
            && t4.Some? && t4.value.anchors == [anchor, anchor] && t4.value.seen == [0, 0]
  {
    hide WellFormed, BuildPhase;
    var t1 := Apply(sys, t, 0, AppendIndex).value;
    assert t1.runs[0].phase == Indexed(anchor, 0, 0) && t1.runs[1].phase == Ready(record, anchor, 0);
    var t2 := Apply(sys, t1, 0, AppendAnchor).value;
    assert t2.runs[1].phase == Ready(record, anchor, 0) && t2.anchors == [anchor] && t2.seen == [0];
    var t3 := Apply(sys, t2, 1, AppendIndex).value;
    assert t3.runs[1].phase.Indexed? && t3.anchors == [anchor] && t3.seen == [0];
  }

  lemma FirstBuild(sys: System, b: Bundle, ts: string)
    requires b.anchorKey.NoKey? && b.archiveDir == sys.dir
    ensures var p := BuildPhase(sys, b, ts, ts, []);
            && p.Ready? && p.seen == 0
            && Field(p.anchor, "previous_anchor_entry_sha256") == Null
            && Field(p.anchor, "entry_sha256").Str?
  {
    hide CanonicalBytes, AnchorRecord, AnchorBase, IndexBase, IndexRecord, Field;
    var tip := TipInfo(None, 0);
    var indexSha := sys.sha(CanonicalBytes(Obj(IndexBase(b, ts))));
    MissingKeyFails(sys.sha, sys.hmac, b, ts, indexSha, tip);
    AnchorRecordFields(sys.sha, sys.hmac, b, ts, indexSha, tip);
  }

  lemma TwoRootsAreRejected(sys: System, key: AnchorKey, anchor: Json, log: seq<Json>)
    requires log == [anchor, anchor] && Field(anchor, "previous_anchor_entry_sha256") == Null
    requires Field(anchor, "entry_sha256").Str?
    ensures !LogOk(sys.sha, sys.hmac, key, sys.dir, log)
  {
    hide Field, SignatureOk;
    assert log[..1] == [anchor];
    assert RecordOk(sys.sha, sys.hmac, key, sys.dir, log[1], Tip(log[..1])) ==>
           Field(anchor, "previous_anchor_entry_sha256") == LinkJson(Tip(log[..1]));
  }

  /** Without a lock, two overlapping runs leave a log with two roots, which the verifier rejects. */
  lemma OverlappingRunsBreakTheChain(sys: System, s: State, b: Bundle, chain: Bytes, seal: Bytes, ts: string,
                                     key: AnchorKey)
    requires Init(s) && s.files == map[]
    requires b.archiveDir == sys.dir && b.anchorFile == sys.anchorFile && WellFormed(b)
    requires b.chainFile != b.sealFile && b.anchorKey.NoKey?
    requires b.chainSha == sys.sha(chain) && b.sealSha == sys.sha(seal)
    ensures var t := Exec(sys, s, OverlappingTrace(b, chain, seal, ts));
            t.Some? && t.value.seen == [0, 0] && !LogOk(sys.sha, sys.hmac, key, sys.dir, t.value.anchors)
  {
    hide Apply, Exec, WellFormed, BuildPhase, LogOk, Field;
    var trace := OverlappingTrace(b, chain, seal, ts);
    var p := BuildPhase(sys, b, ts, ts, []);
    assert trace[..0] == [];
    ExecEmpty(sys, s);
    FirstBuild(sys, b, ts);
    RunUpToBuild(sys, s, trace, 0, 0, b, chain, seal, ts);
    RunUpToBuild(sys, s, trace, 4, 1, b, chain, seal, ts);
    var t := Exec(sys, s, trace[..8]).value;
    assert t.runs == map[0 := Run(b, p), 1 := Run(b, p)];
    StepsOfAppends(sys, t, p.record, p.anchor, b);
    ExecPrefix(sys, s, trace, 8);
    ExecPrefix(sys, s, trace, 9);
    ExecPrefix(sys, s, trace, 10);
    ExecPrefix(sys, s, trace, 11);
    assert trace[..12] == trace;
    TwoRootsAreRejected(sys, key, p.anchor, [p.anchor, p.anchor]);
  }

  lemma ExecEmpty(sys: System, s: State)
    ensures Exec(sys, s, []) == Some(s)
  {
  }

  // ----- runs that do not overlap -----

  predicate InWindow(p: Phase) { p.Ready? || p.Indexed? }

  /** At most one run is between its tip read and its anchor append. */
  predicate Exclusive(s: State) {
    forall a, b :: a in s.runs && b in s.runs && InWindow(s.runs[a].phase) && InWindow(s.runs[b].phase) ==> a == b
  }

  predicate ExclusiveTrace(sys: System, s: State, trace: Trace) {
    && Exec(sys, s, trace).Some? && Exclusive(Exec(sys, s, trace).value)
    && (trace != [] ==> ExclusiveTrace(sys, s, trace[..|trace| - 1]))
  }

  /** What holds when no two windows overlap: no stale tip, and both logs in the same order. */
  predicate InStep(s: State) {
    && Linear(s) && |s.seen| == |s.anchors| == |s.matched|
    && (forall i, j :: 0 <= i < j < |s.matched| ==> s.matched[i] < s.matched[j])
    && (forall i :: 0 <= i < |s.matched| ==> s.matched[i] < |s.index|)
    && forall id :: id in s.runs ==>
         match s.runs[id].phase
         case Ready(_, _, n) => n == |s.anchors|
         case Indexed(_, n, at) =>
           n == |s.anchors| && at < |s.index| && forall i :: 0 <= i < |s.matched| ==> s.matched[i] < at
         case _ => true
  }

  lemma StepStaysInStep(sys: System, s: State, id: nat, action: Action)
    requires InStep(s) && Exclusive(s) && Apply(sys, s, id, action).Some?
    requires Exclusive(Apply(sys, s, id, action).value)
    ensures InStep(Apply(sys, s, id, action).value)
  {
    hide WellFormed, Records, ReadTip;
    var t := Apply(sys, s, id, action).value;
    if action.AppendAnchor? {
      forall other | other in t.runs && other != id ensures !InWindow(t.runs[other].phase) {
        assert InWindow(s.runs[id].phase);
      }
    }
  }

  lemma {:induction false} ExclusiveStaysInStep(sys: System, s: State, trace: Trace)
    requires Init(s) && ExclusiveTrace(sys, s, trace)
    ensures InStep(Exec(sys, s, trace).value)
  {
    hide Apply, InStep, Exclusive;
    if trace == [] {
      assert InStep(s) by { InitInStep(s); }
    } else {
      ExclusiveStaysInStep(sys, s, trace[..|trace| - 1]);
      var last := trace[|trace| - 1];
      StepStaysInStep(sys, Exec(sys, s, trace[..|trace| - 1]).value, last.0, last.1);
    }
  }

  lemma InitInStep(s: State)
    requires Init(s)
    ensures InStep(s)
  {
  }

  /** When runs do not overlap, crashes included: the log is one chain numbered 1..n that the verifier
      accepts with any key that fits the signing keys, and the anchors commit to index records in the order
      of both logs. */
  lemma NonOverlappingRunsFormOneChain(sys: System, s: State, trace: Trace, key: AnchorKey)
    requires Init(s) && ExclusiveTrace(sys, s, trace)
    ensures var t := Exec(sys, s, trace).value;
            && |t.keys| == |t.anchors|
            && (LogOk(sys.sha, sys.hmac, key, sys.dir, t.anchors) <==> KeysFit(sys, t, key))
            && (forall i :: 0 <= i < |t.anchors| ==> Field(t.anchors[i], "chain_position") == Int(i + 1))
            && |t.matched| == |t.anchors|
            && (forall i, j :: 0 <= i < j < |t.matched| ==> t.matched[i] < t.matched[j])
  {
    hide Inv, Exec, LogOk, Field;
    ReachableInv(sys, s, trace);
    ExclusiveStaysInStep(sys, s, trace);
    LinearLogVerifies(sys, Exec(sys, s, trace).value, key);
  }

  // ----- which index records are anchored -----

  /** Under every interleaving each anchor commits to an index record that names it, no two anchors to the
      same one, and the index records without an anchor are exactly those of runs that crashed, or still
      are, between their two appends. */
  lemma AnchorsMatchIndexRecords(sys: System, s: State, trace: Trace)
    requires Init(s) && Exec(sys, s, trace).Some?
    ensures var t := Exec(sys, s, trace).value;
            && |t.matched| == |t.keys| == |t.anchors| && |t.indexedBy| == |t.index|
            && (forall i :: 0 <= i < |t.anchors| ==>
                  t.matched[i] < |t.index| && Paired(sys, t.keys[i], t.index[t.matched[i]], t.anchors[i]))
            && (forall i, j :: 0 <= i < j < |t.matched| ==> t.matched[i] != t.matched[j])
            && (forall k, l :: 0 <= k < l < |t.index| ==> t.indexedBy[k] != t.indexedBy[l])
            && (forall k :: 0 <= k < |t.index| ==>
                  t.indexedBy[k] in t.runs
                  && (k !in t.matched <==>
                        t.runs[t.indexedBy[k]].phase.Crashed? || t.runs[t.indexedBy[k]].phase.Indexed?))
  {
    hide Exec, BuiltOn, Paired, RecordStored;
    ReachableInv(sys, s, trace);
    var t := Exec(sys, s, trace).value;
    forall i | 0 <= i < |t.anchors|
      ensures t.matched[i] < |t.index| && Paired(sys, t.keys[i], t.index[t.matched[i]], t.anchors[i])
    {
      assert AnchorOk(sys, t, i);
    }
    forall k | 0 <= k < |t.index|
      ensures t.indexedBy[k] in t.runs
      ensures k !in t.matched <==>
              t.runs[t.indexedBy[k]].phase.Crashed? || t.runs[t.indexedBy[k]].phase.Indexed?
    {
      var id := t.indexedBy[k];
      assert RunOk(sys, t, id, t.runs[id]);
      assert IndexPlace(t.runs[id].phase) == Some(k);
      if t.runs[id].phase.Done? {
        assert t.matched[t.runs[id].phase.pos] == k;
      }
    }
  }

  /** A stored hash names one index record: an anchor that names the hash of a record commits to a record
      with the same hashed fields, or the two canonical forms collide. */
  lemma HashNamesOneRecord(sys: System, s: State, k: nat, i: nat)
    requires Inv(sys, s) && k < |s.index| && i < |s.anchors| && Names(s.anchors[i], IndexSha(sys.sha, s.index[k]))
    ensures s.matched[i] < |s.index|
    ensures var a, b := Hashed(s.index[k]), Hashed(s.index[s.matched[i]]);
            Meaning(a) == Meaning(b)
            || (CanonicalBytes(a) != CanonicalBytes(b) && sys.sha(CanonicalBytes(a)) == sys.sha(CanonicalBytes(b)))
  {
    hide BuiltOn, RunOk, OwnersOk, CanonicalBytes, IsDict, Meaning, Field;
    assert AnchorOk(sys, s, i);
    var a, b := Hashed(s.index[k]), Hashed(s.index[s.matched[i]]);
    assert RecordStored(sys.sha, s.files, s.index[k]) && RecordStored(sys.sha, s.files, s.index[s.matched[i]]);
    HashedIsDict(s.index[k]);
    HashedIsDict(s.index[s.matched[i]]);
    CanonicalBytesDecideEquality(a, b);
  }

  /** archive_index_hash_payload */
  function Hashed(record: Json): Json { Obj(Without(Fields(record), NOT_IN_INDEX_HASH)) }

  lemma HashedIsDict(record: Json)
    requires record.Obj? && IsDict(record)
    ensures IsDict(Hashed(record))
  {
    var w := Without(record.members, NOT_IN_INDEX_HASH);
    forall i | 0 <= i < |w| ensures IsDict(w[i].value) {
      assert w[i] in record.members;
    }
  }

  // ----- verifying one archived record -----

  /** verify_archive_anchor on an index record whose anchor file is this archive's: the record names that
      file, or names none and the archive root leads to it. */
  predicate Accepts(sys: System, key: AnchorKey, log: seq<Json>, record: Json) {
    var dir, file := Field(record, "archive_dir"), Field(record, "anchor_file");
    var i := LastNaming(log, |log|, IndexSha(sys.sha, record));
    && dir.Str? && dir.s != ""
    && (file == Str(sys.anchorFile) || (file in [Null, Str("")] && dir == Str(sys.dir)))
    && LogOk(sys.sha, sys.hmac, key, dir.s, log) && i >= 0
    && Field(log[i], "anchor_file") == Str(sys.anchorFile)
    && Field(record, "anchor_entry_sha256") in [Null, Str(""), Field(log[i], "entry_sha256")]
  }

  /** The last anchor that names the hash of an index record. */
  function LastAnchorOf(sys: System, s: State, record: Json): int {
    LastNaming(s.anchors, |s.anchors|, IndexSha(sys.sha, record))
  }

  /** An anchored record is accepted exactly when the log is and its own anchor is the last to name its
      hash; or else the two histories that end in those two anchors collide. */
  predicate AnchoredVerdict(sys: System, s: State, key: AnchorKey, i: nat)
    requires i < |s.anchors| == |s.matched| && s.matched[i] < |s.index|
  {
    var record := s.index[s.matched[i]];
    var last := LastAnchorOf(sys, s, record);
    var logOk := LogOk(sys.sha, sys.hmac, key, sys.dir, s.anchors);
    && i <= last
    && (logOk && last == i ==> Accepts(sys, key, s.anchors, record))
    && (Accepts(sys, key, s.anchors, record) ==>
          logOk && (last == i || Collide(sys.sha, s.anchors[..i + 1], s.anchors[..last + 1])))
  }

  predicate Collide(sha: Sha, a: seq<Json>, b: seq<Json>) { IsCollision(sha, a, b, Compare(sha, a, b)) }

  /** A record without an anchor is accepted only in place of an anchored one with the same hashed fields,
      or the two canonical forms collide. */
  ghost predicate LostVerdict(sys: System, s: State, key: AnchorKey, k: nat)
    requires k < |s.index| && |s.anchors| == |s.matched|
  {
    Accepts(sys, key, s.anchors, s.index[k]) ==>
      var i := LastAnchorOf(sys, s, s.index[k]);
      && 0 <= i < |s.matched| && s.matched[i] < |s.index| && s.matched[i] != k
      && var a, b := Hashed(s.index[k]), Hashed(s.index[s.matched[i]]);
         || Meaning(a) == Meaning(b)
         || (CanonicalBytes(a) != CanonicalBytes(b) && sys.sha(CanonicalBytes(a)) == sys.sha(CanonicalBytes(b)))
  }

  lemma AnchorPlace(sys: System, s: State, i: nat)
    requires Inv(sys, s) && i < |s.anchors|
    ensures Field(s.anchors[i], "anchor_file") == Str(sys.anchorFile)
    ensures Field(s.anchors[i], "entry_sha256").Str? && Field(s.anchors[i], "entry_sha256").s != ""
  {
    hide RunOk, OwnersOk, RecordStored, Paired, Field, RecordOk, IsDict, HasKey;
    assert AnchorOk(sys, s, i);
    BuiltEntry(sys, s.anchors[i], s.anchors, s.seen[i]);
  }

  lemma AnchorPair(sys: System, s: State, i: nat)
    requires Inv(sys, s) && i < |s.anchors|
    ensures s.matched[i] < |s.index|
    ensures var record := s.index[s.matched[i]];
            && Names(s.anchors[i], IndexSha(sys.sha, record))
            && Field(record, "anchor_entry_sha256") == Field(s.anchors[i], "entry_sha256")
            && Field(record, "archive_dir") == Str(sys.dir) && Field(record, "anchor_file") == Str(sys.anchorFile)
  {
    hide RunOk, OwnersOk, RecordStored, BuiltOn, Field, IndexSha, Names;
    assert AnchorOk(sys, s, i);
  }

  lemma SameEntryCollides(sys: System, s: State, key: AnchorKey, i: nat, j: nat)
    requires Inv(sys, s) && i < j < |s.anchors| && LogOk(sys.sha, sys.hmac, key, sys.dir, s.anchors)
    requires Field(s.anchors[i], "entry_sha256") == Field(s.anchors[j], "entry_sha256")
    ensures Collide(sys.sha, s.anchors[..i + 1], s.anchors[..j + 1])
  {
    hide Inv, Field, FieldText, LogOk, Linked, AllDicts, IsCollision, Compare, Tip;
    LogOkIsLinked(sys.sha, sys.hmac, key, sys.dir, s.anchors);
    AnchorsAreDicts(sys, s);
    TipOfPrefix(s.anchors, i);
    TipOfPrefix(s.anchors, j);
    LinkNamesOneEntry(sys.sha, s.anchors, i + 1, j + 1);
  }

  lemma AnchoredRecord(sys: System, s: State, key: AnchorKey, i: nat)
    requires Inv(sys, s) && i < |s.anchors| && sys.dir != "" && sys.anchorFile != ""
    ensures |s.anchors| == |s.matched| && s.matched[i] < |s.index| && AnchoredVerdict(sys, s, key, i)
  {
    hide Inv, Field, IndexSha, LogOk, Collide, LastNaming, Names;
    AnchorsCounted(sys, s);
    AnchorPair(sys, s, i);
    var record := s.index[s.matched[i]];
    var last := LastAnchorOf(sys, s, record);
    LastNamingIsLast(s.anchors, |s.anchors|, IndexSha(sys.sha, record));
    AnchorPlace(sys, s, i);
    if Accepts(sys, key, s.anchors, record) && last != i {
      SameEntryCollides(sys, s, key, i, last);
    }
  }

  lemma AnchorsCounted(sys: System, s: State)
    requires Inv(sys, s)
    ensures |s.anchors| == |s.matched| == |s.keys|
  {
    hide RunOk, AnchorOk, OwnersOk, RecordStored;
  }

  /** Which index records verify_archive_anchor accepts after any interleaving, with any key. An anchored
      record: exactly when the log is accepted and no later anchor names the same hash, up to an exhibited
      collision. A record that lost its run between the appends: only in place of an anchored one with the
      same hashed fields, up to a collision. */
  lemma AcceptedRecords(sys: System, s: State, trace: Trace, key: AnchorKey)
    requires Init(s) && Exec(sys, s, trace).Some? && sys.dir != "" && sys.anchorFile != ""
    ensures var t := Exec(sys, s, trace).value;
            && |t.matched| == |t.anchors|
            && (forall i :: 0 <= i < |t.anchors| ==> t.matched[i] < |t.index| && AnchoredVerdict(sys, t, key, i))
            && (forall k :: 0 <= k < |t.index| && k !in t.matched ==> LostVerdict(sys, t, key, k))
  {
    hide Exec, Inv, AnchoredVerdict, LostVerdict, Paired;
    ReachableInv(sys, s, trace);
    AnchorsMatchIndexRecords(sys, s, trace);
    var t := Exec(sys, s, trace).value;
    forall i | 0 <= i < |t.anchors| ensures t.matched[i] < |t.index| && AnchoredVerdict(sys, t, key, i) {
      AnchoredRecord(sys, t, key, i);
    }
    forall k | 0 <= k < |t.index| && k !in t.matched ensures LostVerdict(sys, t, key, k) {
      LostRecord(sys, t, key, k);
    }
  }

  lemma LostRecord(sys: System, s: State, key: AnchorKey, k: nat)
    requires Inv(sys, s) && k < |s.index| && |s.anchors| == |s.matched| && k !in s.matched
    ensures LostVerdict(sys, s, key, k)
  {
    hide Inv, Field, LogOk, IndexSha, CanonicalBytes, Meaning, Hashed, LastNaming, Names;
    LastNamingIsLast(s.anchors, |s.anchors|, IndexSha(sys.sha, s.index[k]));
    if Accepts(sys, key, s.anchors, s.index[k]) {
      HashNamesOneRecord(sys, s, k, LastAnchorOf(sys, s, s.index[k]));
    }
  }

  // ----- write-once storage -----

  lemma {:induction false} ExecExtends(sys: System, s: State, trace: Trace)
    requires Exec(sys, s, trace).Some?
    ensures Extends(s, Exec(sys, s, trace).value)
  {
    hide Apply;
    if trace != [] {
      ExecExtends(sys, s, trace[..|trace| - 1]);
      var last := trace[|trace| - 1];
      StepExtends(sys, Exec(sys, s, trace[..|trace| - 1]).value, last.0, last.1);
    }
  }

  /** Write-once storage: whatever runs follow, archived bytes and log records stay as they are, and every
      index record's two digests are the digests of the files it names in all later states. */
  lemma ArchiveIsWriteOnce(sys: System, s: State, trace: Trace, later: Trace)
    requires Init(s) && Exec(sys, s, trace).Some? && Exec(sys, Exec(sys, s, trace).value, later).Some?
    ensures var t := Exec(sys, s, trace).value;
            var u := Exec(sys, t, later).value;
            && (forall p :: p in t.files ==> p in u.files && u.files[p] == t.files[p])
            && t.index <= u.index && t.anchors <= u.anchors
            && forall k :: 0 <= k < |t.index| ==>
                 u.index[k] == t.index[k] && RecordStored(sys.sha, u.files, t.index[k])
  {
    hide Exec, RecordStored, RunOk, AnchorOk;
    ReachableInv(sys, s, trace);
    var t := Exec(sys, s, trace).value;
    ExecExtends(sys, t, later);
    var u := Exec(sys, t, later).value;
    forall k | 0 <= k < |t.index| ensures RecordStored(sys.sha, u.files, t.index[k]) {
      StoredExtends(sys.sha, t, u, t.index[k]);
    }
  }

  /** A run fails exactly when verification rejects it, an archived file does not have the expected digest,
      or the signing secret is missing; the step that fails leaves both logs as they were. */
  lemma FailingStepLeavesLogs(sys: System, s: State, id: nat, action: Action)
    requires Inv(sys, s) && Apply(sys, s, id, action).Some?
    ensures var t := Apply(sys, s, id, action).value;
            t.runs[id].phase.Failed? <==>
              match action
              case Start(_, accepted) => !accepted
              case CopyChain(source) =>
                var b := s.runs[id].bundle;
                sys.sha(if b.chainFile in s.files then s.files[b.chainFile] else source) != b.chainSha
              case CopySeal(source) =>
                var b := s.runs[id].bundle;
                sys.sha(if b.sealFile in s.files then s.files[b.sealFile] else source) != b.sealSha
              case Build(_, _) => s.runs[id].bundle.anchorKey.MissingKey?
              case _ => false
    ensures var t := Apply(sys, s, id, action).value;
            t.runs[id].phase.Failed? ==> t.index == s.index && t.anchors == s.anchors
  {
    hide Inv, WellFormed, BuiltOn, RecordStored, Paired, ReadTip, AnchorRecord, Records, BuildPhase;
    if action.Build? {
      RunOfInv(sys, s, id);
      BuildIsReady(sys, s, s.runs[id].bundle, action.indexTs, action.anchorTs);
      MissingKeyBuilds(sys, s.runs[id].bundle, action.indexTs, action.anchorTs, s.anchors);
    }
  }

  lemma MissingKeyBuilds(sys: System, b: Bundle, indexTs: string, anchorTs: string, anchors: seq<Json>)
    ensures b.anchorKey.MissingKey? ==> BuildPhase(sys, b, indexTs, anchorTs, anchors) == Failed
  {
  }

  /** A run that failed, or crashed before its index append, owns no record of either log. */
  lemma FailedRunsOwnNothing(sys: System, s: State, trace: Trace, id: nat)
    requires Init(s) && Exec(sys, s, trace).Some? && id in Exec(sys, s, trace).value.runs
    requires IndexPlace(Exec(sys, s, trace).value.runs[id].phase).None?
    ensures id !in Exec(sys, s, trace).value.indexedBy
  {
    hide Exec, RunOk, AnchorOk, RecordStored;
    ReachableInv(sys, s, trace);
  }
}
