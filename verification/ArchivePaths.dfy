/** Where a run writes: validate_path_segment, os.path.join, os.path.abspath and build_archive_paths.
    A place is the list of segments an absolute path resolves to. */
module ArchivePaths {
  import opened PyText

  type Place = seq<string>

  // ----- splitting and resolving -----

  predicate NoSlash(s: string) { forall i :: 0 <= i < |s| ==> s[i] != '/' }

  /** A segment that names a directory entry of its own. */
  predicate Segment(s: string) { s != "" && s != "." && s != ".." && NoSlash(s) }

  predicate Segments(place: Place) { forall i :: 0 <= i < |place| ==> Segment(place[i]) }

  function Split(s: string): (r: seq<string>)
    ensures |r| > 0 && forall i :: 0 <= i < |r| ==> NoSlash(r[i])
  {
    if s == "" then [""]
    else
      var rest := Split(s[1..]);
      if s[0] == '/' then [""] + rest else [[s[0]] + rest[0]] + rest[1..]
  }

  function ResolveOne(place: Place, part: string): Place {
    if part == "" || part == "." then place
    else if part == ".." then (if place == [] then [] else place[..|place| - 1])
    else place + [part]
  }

  function Resolve(place: Place, parts: seq<string>): Place
    decreases |parts|
  {
    if parts == [] then place else Resolve(ResolveOne(place, parts[0]), parts[1..])
  }

  /** The place os.path.abspath(p) denotes, seen from a working directory. */
  function PlaceOf(cwd: Place, p: string): Place {
    Resolve(if p != "" && p[0] == '/' then [] else cwd, Split(p))
  }

  function Render(place: Place): string {
    if place == [] then "" else Render(place[..|place| - 1]) + ("/" + place[|place| - 1])
  }

  /** os.path.abspath(p) */
  function AbsPath(cwd: Place, p: string): string {
    if PlaceOf(cwd, p) == [] then "/" else Render(PlaceOf(cwd, p))
  }

  /** os.path.join(a, b) */
  function Join(a: string, b: string): string {
    if b != "" && b[0] == '/' then b
    else if a == "" || a[|a| - 1] == '/' then a + b
    else a + ("/" + b)
  }

  // ----- the code under study -----

  /** validate_path_segment */
  function ValidatePathSegment(value: string): Result<string> {
    var normalized := Strip(value);
    if normalized == "" then Err("must not be empty")
    else if normalized == "." || normalized == ".." || '/' in normalized then Err("must be a single path segment")
    else Ok(normalized)
  }

  datatype Paths = Paths(archiveRoot: string, auditChain: string, auditSeal: string, index: string)

  function FlatName(stem: string, jobId: string, sha: string): string {
    stem + (jobId + ("_" + (sha + ".json")))
  }

  /** build_archive_paths; an empty tenant id means none. */
  function BuildArchivePaths(cwd: Place, archiveDir: string, jobId: string, chainSha: string, sealSha: string,
                             tenantId: string): Result<Paths>
  {
    if tenantId != "" then
      match ValidatePathSegment(jobId)
      case Err(e) => Err(e)
      case Ok(job) =>
        var root := AbsPath(cwd, Join(archiveDir, tenantId));
        var dir := Join(Join(root, "audit_chains"), job);
        Ok(Paths(root, Join(dir, "audit_chain.json"), Join(dir, "audit_chain.seal.json"),
                 Join(root, "audit_chain_index.jsonl")))
    else
      var root := AbsPath(cwd, archiveDir);
      Ok(Paths(root,
               Join(Join(root, "audit_chains"), FlatName("audit_chain_", jobId, chainSha)),
               Join(Join(root, "audit_seals"), FlatName("audit_seal_", jobId, sealSha)),
               Join(root, "audit_chain_index.jsonl")))
  }

  /** build_anchor_paths */
  function AnchorFile(cwd: Place, archiveRoot: string): string {
    Join(AbsPath(cwd, archiveRoot), "audit_chain_anchor.jsonl")
  }

  // ----- validated segments -----

  /** Exactly the strings that strip to one proper segment are accepted, as that segment. */
  lemma ValidateDecides(value: string)
    ensures ValidatePathSegment(value).Ok? <==> Segment(Strip(value))
    ensures ValidatePathSegment(value).Ok? ==> ValidatePathSegment(value).value == Strip(value)
  {
    var s := Strip(value);
    assert NoSlash(s) <==> '/' !in s;
  }

  // ----- resolving joined paths -----

  lemma SplitStep(c: char, t: string)
    ensures var rest := Split(t);
            Split([c] + t) == if c == '/' then [""] + rest else [[c] + rest[0]] + rest[1..]
  {
    assert ([c] + t)[1..] == t;
  }

  lemma FrontConcat(front: seq<string>, back: seq<string>)
    requires front != []
    ensures (front + back)[0] == front[0] && (front + back)[1..] == front[1..] + back
  {
  }

  lemma {:induction false} SplitAtSlash(a: string, b: string)
    ensures Split(a + ("/" + b)) == Split(a) + Split(b)
  {
    hide NoSlash, Split;
    var s := a + ("/" + b);
    if a == "" {
      EmptySplit();
      assert s == ['/'] + b;
      SplitStep('/', b);
    } else {
      SplitAtSlash(a[1..], b);
      assert s == [a[0]] + (a[1..] + ("/" + b)) && a == [a[0]] + a[1..];
      SplitStep(a[0], a[1..] + ("/" + b));
      SplitStep(a[0], a[1..]);
      var front, back := Split(a[1..]), Split(b);
      var head := if a[0] == '/' then [""] else [[a[0]] + front[0]];
      var tail := if a[0] == '/' then front else front[1..];
      FrontConcat(front, back);
      ConcatAssociates(head, tail, back);
    }
  }

  lemma {:induction false} SplitPlain(s: string)
    requires NoSlash(s)
    ensures Split(s) == [s]
  {
    if s != "" {
      SplitPlain(s[1..]);
      assert [s[0]] + s[1..] == s;
    }
  }

  lemma {:induction false} ResolveConcat(place: Place, xs: seq<string>, ys: seq<string>)
    ensures Resolve(place, xs + ys) == Resolve(Resolve(place, xs), ys)
    decreases |xs|
  {
    hide ResolveOne;
    if xs == [] {
      assert xs + ys == ys;
    } else {
      assert (xs + ys)[1..] == xs[1..] + ys && (xs + ys)[0] == xs[0];
      ResolveConcat(ResolveOne(place, xs[0]), xs[1..], ys);
    }
  }

  lemma ResolveEmpty(place: Place)
    ensures Resolve(place, [""]) == place
  {
    assert Resolve(place, [""][1..]) == place;
  }

  /** A joined path leads on from the place of its left part. */
  lemma PlaceOfJoin(cwd: Place, a: string, b: string)
    requires b == "" || b[0] != '/'
    ensures PlaceOf(cwd, Join(a, b)) == Resolve(PlaceOf(cwd, a), Split(b))
  {
    hide Split, Resolve;
    var base := if a != "" && a[0] == '/' then [] else cwd;
    if a == "" {
      assert a + b == b;
      EmptySplit();
      ResolveEmpty(base);
    } else if a[|a| - 1] == '/' {
      var front := a[..|a| - 1];
      assert a == front + ("/" + "") && a + b == front + ("/" + b);
      SplitAtSlash(front, "");
      SplitAtSlash(front, b);
      EmptySplit();
      ResolveConcat(base, Split(front), [""]);
      ResolveConcat(base, Split(front), Split(b));
      ResolveEmpty(Resolve(base, Split(front)));
      assert (a + b)[0] == a[0];
    } else {
      SplitAtSlash(a, b);
      ResolveConcat(base, Split(a), Split(b));
      assert (a + ("/" + b))[0] == a[0];
    }
  }

  lemma EmptySplit()
    ensures Split("") == [""]
  {
  }

  lemma ResolveSegment(place: Place, s: string)
    requires Segment(s)
    ensures Resolve(place, Split(s)) == place + [s]
  {
    SplitPlain(s);
    assert Resolve(place + [s], [s][1..]) == place + [s];
  }

  lemma {:induction false} ResolveKeepsSegments(place: Place, parts: seq<string>)
    requires Segments(place) && forall i :: 0 <= i < |parts| ==> NoSlash(parts[i])
    ensures Segments(Resolve(place, parts))
    decreases |parts|
  {
    if parts != [] { ResolveKeepsSegments(ResolveOne(place, parts[0]), parts[1..]); }
  }

  lemma {:induction false} SplitRendered(place: Place)
    requires Segments(place)
    ensures Split(Render(place)) == [""] + place
    ensures place != [] ==> Render(place) != "" && Render(place)[0] == '/'
  {
    hide Split, NoSlash;
    if place == [] {
      EmptySplit();
    } else {
      assert Segment(place[|place| - 1]) && Segments(place[..|place| - 1]);
      var front, last := place[..|place| - 1], place[|place| - 1];
      SplitRendered(front);
      SplitAtSlash(Render(front), last);
      SplitPlain(last);
      assert [""] + front + [last] == [""] + place;
    }
  }

  lemma {:induction false} ResolveSegments(place: Place, parts: seq<string>)
    requires Segments(parts)
    ensures Resolve(place, parts) == place + parts
    decreases |parts|
  {
    if parts == [] {
      assert place + parts == place;
    } else {
      ResolveSegments(place + [parts[0]], parts[1..]);
      assert (place + [parts[0]]) + parts[1..] == place + parts;
    }
  }

  /** An absolute path printed by abspath denotes the same place again. */
  lemma PlaceOfAbsPath(cwd: Place, p: string)
    requires Segments(cwd)
    ensures PlaceOf(cwd, AbsPath(cwd, p)) == PlaceOf(cwd, p)
  {
    hide Split, Resolve, Render;
    var place := PlaceOf(cwd, p);
    ResolveKeepsSegments(if p != "" && p[0] == '/' then [] else cwd, Split(p));
    if place == [] {
      assert "/" == "" + ("/" + "");
      SplitAtSlash("", "");
      EmptySplit();
      ResolveConcat([], [""], [""]);
      ResolveEmpty([]);
    } else {
      SplitRendered(place);
      ResolveConcat([], [""], place);
      ResolveEmpty([]);
      ResolveSegments([], place);
      assert [] + place == place;
    }
  }

  lemma JoinSegment(cwd: Place, a: string, s: string)
    requires Segment(s)
    ensures PlaceOf(cwd, Join(a, s)) == PlaceOf(cwd, a) + [s]
  {
    hide Split, Resolve;
    PlaceOfJoin(cwd, a, s);
    ResolveSegment(PlaceOf(cwd, a), s);
  }

  // ----- tenant layout -----

  /** Under <archive-dir>/<tenant>: the places of the two archived files and of the two logs. */
  lemma TenantPlaces(cwd: Place, archiveDir: string, jobId: string, chainSha: string, sealSha: string, tenant: string)
    requires Segments(cwd) && Segment(tenant) && Segment(Strip(jobId))
    ensures var r := BuildArchivePaths(cwd, archiveDir, jobId, chainSha, sealSha, tenant);
            var root := PlaceOf(cwd, archiveDir) + [tenant];
            && r.Ok?
            && PlaceOf(cwd, r.value.archiveRoot) == root
            && PlaceOf(cwd, r.value.auditChain) == root + ["audit_chains", Strip(jobId), "audit_chain.json"]
            && PlaceOf(cwd, r.value.auditSeal) == root + ["audit_chains", Strip(jobId), "audit_chain.seal.json"]
            && PlaceOf(cwd, r.value.index) == root + ["audit_chain_index.jsonl"]
            && PlaceOf(cwd, AnchorFile(cwd, r.value.archiveRoot)) == root + ["audit_chain_anchor.jsonl"]
  {
    hide PlaceOf, AbsPath, Join, Strip;
    ValidateDecides(jobId);
    var job := Strip(jobId);
    var at := AbsPath(cwd, Join(archiveDir, tenant));
    var root := PlaceOf(cwd, archiveDir) + [tenant];
    JoinSegment(cwd, archiveDir, tenant);
    PlaceOfAbsPath(cwd, Join(archiveDir, tenant));
    JoinSegment(cwd, at, "audit_chains");
    JoinSegment(cwd, Join(at, "audit_chains"), job);
    JoinSegment(cwd, Join(Join(at, "audit_chains"), job), "audit_chain.json");
    JoinSegment(cwd, Join(Join(at, "audit_chains"), job), "audit_chain.seal.json");
    JoinSegment(cwd, at, "audit_chain_index.jsonl");
    PlaceOfAbsPath(cwd, at);
    JoinSegment(cwd, AbsPath(cwd, at), "audit_chain_anchor.jsonl");
    assert root + ["audit_chains"] + [job] + ["audit_chain.json"] == root + ["audit_chains", job, "audit_chain.json"];
    assert root + ["audit_chains"] + [job] + ["audit_chain.seal.json"] ==
           root + ["audit_chains", job, "audit_chain.seal.json"];
  }

  /** Distinct (tenant, job) pairs get distinct places; each lies under its own tenant's root and under no
      other tenant's root. */
  lemma TenantLayoutSeparates(cwd: Place, archiveDir: string,
                              jobA: string, chainA: string, sealA: string, tenantA: string,
                              jobB: string, chainB: string, sealB: string, tenantB: string)
    requires Segments(cwd) && Segment(tenantA) && Segment(tenantB) && Segment(Strip(jobA)) && Segment(Strip(jobB))
    ensures var a := BuildArchivePaths(cwd, archiveDir, jobA, chainA, sealA, tenantA);
            var b := BuildArchivePaths(cwd, archiveDir, jobB, chainB, sealB, tenantB);
            && a.Ok? && b.Ok?
            && (PlaceOf(cwd, a.value.auditChain) == PlaceOf(cwd, b.value.auditChain) <==>
                  tenantA == tenantB && Strip(jobA) == Strip(jobB))
            && (PlaceOf(cwd, a.value.auditSeal) == PlaceOf(cwd, b.value.auditSeal) <==>
                  tenantA == tenantB && Strip(jobA) == Strip(jobB))
            && (PlaceOf(cwd, b.value.archiveRoot) <= PlaceOf(cwd, a.value.auditChain) <==> tenantA == tenantB)
            && (PlaceOf(cwd, b.value.archiveRoot) <= PlaceOf(cwd, a.value.auditSeal) <==> tenantA == tenantB)
            && (PlaceOf(cwd, b.value.archiveRoot) <= PlaceOf(cwd, a.value.index) <==> tenantA == tenantB)
            && (PlaceOf(cwd, b.value.archiveRoot) <= PlaceOf(cwd, AnchorFile(cwd, a.value.archiveRoot)) <==>
                  tenantA == tenantB)
  {
    hide PlaceOf, BuildArchivePaths, AnchorFile, Strip, Segment;
    TenantPlaces(cwd, archiveDir, jobA, chainA, sealA, tenantA);
    TenantPlaces(cwd, archiveDir, jobB, chainB, sealB, tenantB);
    var base := PlaceOf(cwd, archiveDir);
    Siblings(base, tenantA, tenantB, ["audit_chains", Strip(jobA), "audit_chain.json"],
             ["audit_chains", Strip(jobB), "audit_chain.json"]);
    Siblings(base, tenantA, tenantB, ["audit_chains", Strip(jobA), "audit_chain.seal.json"],
             ["audit_chains", Strip(jobB), "audit_chain.seal.json"]);
    Siblings(base, tenantA, tenantB, ["audit_chain_index.jsonl"], ["audit_chain_index.jsonl"]);
    Siblings(base, tenantA, tenantB, ["audit_chain_anchor.jsonl"], ["audit_chain_anchor.jsonl"]);
  }

  lemma Siblings(base: Place, s: string, t: string, x: Place, y: Place)
    requires |x| == |y|
    ensures base + [s] + x == base + [t] + y <==> s == t && x == y
    ensures base + [t] <= base + [s] + x <==> s == t
  {
    var p, q := base + [s] + x, base + [t] + y;
    assert p[|base|] == s && q[|base|] == t && (base + [t])[|base|] == t;
    assert p[|base| + 1..] == x && q[|base| + 1..] == y;
  }

  // ----- flat layout -----

  /** Job id and digest read back from a flat file name: the digest and the extension have fixed lengths. */
  function ReadFlatName(stem: string, name: string): (string, string)
    requires |name| >= |stem| + 70
  {
    (name[|stem|..|name| - 70], name[|name| - 69..|name| - 5])
  }

  lemma FlatNameReadsBack(stem: string, jobId: string, sha: string)
    requires |sha| == 64
    ensures |FlatName(stem, jobId, sha)| >= |stem| + 70
    ensures ReadFlatName(stem, FlatName(stem, jobId, sha)) == (jobId, sha)
  {
    var name := FlatName(stem, jobId, sha);
    assert |name| == |stem| + |jobId| + 70;
    assert name[|stem|..|name| - 70] == jobId;
    assert name[|name| - 69..|name| - 5] == sha;
  }

  lemma NoSlashConcat(a: string, b: string)
    requires NoSlash(a) && NoSlash(b)
    ensures NoSlash(a + b)
  {
  }

  lemma FlatNameIsSegment(stem: string, jobId: string, sha: string)
    requires |sha| == 64 && NoSlash(sha) && NoSlash(stem) && NoSlash(jobId)
    ensures Segment(FlatName(stem, jobId, sha))
  {
    NoSlashConcat(sha, ".json");
    NoSlashConcat("_", sha + ".json");
    NoSlashConcat(jobId, "_" + (sha + ".json"));
    NoSlashConcat(stem, jobId + ("_" + (sha + ".json")));
  }

  /** The place of a flat archived file, for any job id. */
  lemma FlatPlaces(cwd: Place, archiveDir: string, jobId: string, chainSha: string, sealSha: string)
    requires Segments(cwd)
    ensures var r := BuildArchivePaths(cwd, archiveDir, jobId, chainSha, sealSha, "");
            var root := PlaceOf(cwd, archiveDir);
            && r.Ok? && PlaceOf(cwd, r.value.archiveRoot) == root
            && PlaceOf(cwd, r.value.auditChain) ==
               Resolve(root + ["audit_chains"], Split(FlatName("audit_chain_", jobId, chainSha)))
            && PlaceOf(cwd, r.value.auditSeal) ==
               Resolve(root + ["audit_seals"], Split(FlatName("audit_seal_", jobId, sealSha)))
            && PlaceOf(cwd, r.value.index) == root + ["audit_chain_index.jsonl"]
            && PlaceOf(cwd, AnchorFile(cwd, r.value.archiveRoot)) == root + ["audit_chain_anchor.jsonl"]
  {
    hide PlaceOf, AbsPath, Join, Resolve, Split;
    var at := AbsPath(cwd, archiveDir);
    PlaceOfAbsPath(cwd, archiveDir);
    JoinSegment(cwd, at, "audit_chains");
    JoinSegment(cwd, at, "audit_seals");
    PlaceOfJoin(cwd, Join(at, "audit_chains"), FlatName("audit_chain_", jobId, chainSha));
    PlaceOfJoin(cwd, Join(at, "audit_seals"), FlatName("audit_seal_", jobId, sealSha));
    JoinSegment(cwd, at, "audit_chain_index.jsonl");
    PlaceOfAbsPath(cwd, at);
    JoinSegment(cwd, AbsPath(cwd, at), "audit_chain_anchor.jsonl");
  }

  /** In flat mode, job ids without a separator share a place exactly when job id and digest agree. */
  lemma FlatLayoutSeparates(cwd: Place, archiveDir: string, jobA: string, chainA: string, sealA: string,
                            jobB: string, chainB: string, sealB: string)
    requires Segments(cwd) && NoSlash(jobA) && NoSlash(jobB)
    requires |chainA| == 64 && |sealA| == 64 && NoSlash(chainA) && NoSlash(sealA)
    requires |chainB| == 64 && |sealB| == 64 && NoSlash(chainB) && NoSlash(sealB)
    ensures var a := BuildArchivePaths(cwd, archiveDir, jobA, chainA, sealA, "");
            var b := BuildArchivePaths(cwd, archiveDir, jobB, chainB, sealB, "");
            && a.Ok? && b.Ok?
            && (PlaceOf(cwd, a.value.auditChain) == PlaceOf(cwd, b.value.auditChain) <==>
                  jobA == jobB && chainA == chainB)
            && (PlaceOf(cwd, a.value.auditSeal) == PlaceOf(cwd, b.value.auditSeal) <==> jobA == jobB && sealA == sealB)
            && PlaceOf(cwd, a.value.archiveRoot) <= PlaceOf(cwd, a.value.auditChain)
            && PlaceOf(cwd, a.value.archiveRoot) <= PlaceOf(cwd, a.value.auditSeal)
  {
    hide PlaceOf, BuildArchivePaths, Resolve, Split, FlatName, ReadFlatName;
    FlatPlaces(cwd, archiveDir, jobA, chainA, sealA);
    FlatPlaces(cwd, archiveDir, jobB, chainB, sealB);
    var root := PlaceOf(cwd, archiveDir);
    FlatPair(root + ["audit_chains"], "audit_chain_", jobA, chainA, jobB, chainB);
    FlatPair(root + ["audit_seals"], "audit_seal_", jobA, sealA, jobB, sealB);
    FlatNameIsSegment("audit_chain_", jobA, chainA);
    FlatNameIsSegment("audit_seal_", jobA, sealA);
    ResolveSegment(root + ["audit_chains"], FlatName("audit_chain_", jobA, chainA));
    ResolveSegment(root + ["audit_seals"], FlatName("audit_seal_", jobA, sealA));
  }

  lemma FlatPair(dir: Place, stem: string, jobA: string, shaA: string, jobB: string, shaB: string)
    requires NoSlash(stem) && NoSlash(jobA) && NoSlash(jobB)
    requires |shaA| == 64 && |shaB| == 64 && NoSlash(shaA) && NoSlash(shaB)
    ensures Resolve(dir, Split(FlatName(stem, jobA, shaA))) == Resolve(dir, Split(FlatName(stem, jobB, shaB)))
            <==> jobA == jobB && shaA == shaB
  {
    hide FlatName, ReadFlatName, Resolve, Split;
    FlatNameIsSegment(stem, jobA, shaA);
    FlatNameIsSegment(stem, jobB, shaB);
    ResolveSegment(dir, FlatName(stem, jobA, shaA));
    ResolveSegment(dir, FlatName(stem, jobB, shaB));
    FlatNameReadsBack(stem, jobA, shaA);
    FlatNameReadsBack(stem, jobB, shaB);
    var p, q := dir + [FlatName(stem, jobA, shaA)], dir + [FlatName(stem, jobB, shaB)];
    assert p[|dir|] == FlatName(stem, jobA, shaA) && q[|dir|] == FlatName(stem, jobB, shaB);
  }

  lemma AliasName(jobId: string, sha: string)
    ensures FlatName("audit_chain_", "a/../audit_chain_" + jobId, sha) ==
            "audit_chain_a" + ("/" + (".." + ("/" + FlatName("audit_chain_", jobId, sha))))
  {
  }

  /** An id with a separator may share a place: every job id shares its own with one that holds a separator.
      The place is what abspath makes of the file name; to open that name, the directory audit_chain_a has to
      exist, as an earlier run for a job id such as a/b leaves it. */
  lemma FlatAlias(cwd: Place, archiveDir: string, jobId: string, chainSha: string, sealSha: string)
    requires Segments(cwd)
    ensures var alias := "a/../audit_chain_" + jobId;
            var a := BuildArchivePaths(cwd, archiveDir, jobId, chainSha, sealSha, "");
            var b := BuildArchivePaths(cwd, archiveDir, alias, chainSha, sealSha, "");
            && a.Ok? && b.Ok? && alias != jobId && !NoSlash(alias)
            && PlaceOf(cwd, a.value.auditChain) == PlaceOf(cwd, b.value.auditChain)
  {
    hide PlaceOf, BuildArchivePaths, Resolve, Split, ValidatePathSegment, Strip;
    var alias := "a/../audit_chain_" + jobId;
    assert alias[1] == '/';
    FlatPlaces(cwd, archiveDir, jobId, chainSha, sealSha);
    FlatPlaces(cwd, archiveDir, alias, chainSha, sealSha);
    var dir := PlaceOf(cwd, archiveDir) + ["audit_chains"];
    var name := FlatName("audit_chain_", jobId, chainSha);
    AliasName(jobId, chainSha);
    hide FlatName;
    SplitAtSlash("audit_chain_a", ".." + ("/" + name));
    SplitAtSlash("..", name);
    SplitPlain("audit_chain_a");
    SplitPlain("..");
    ResolveConcat(dir, ["audit_chain_a"], [".."] + Split(name));
    ResolveConcat(dir + ["audit_chain_a"], [".."], Split(name));
    ResolveUpAgain(dir, "audit_chain_a");
  }

  lemma ResolveUpAgain(dir: Place, s: string)
    requires Segment(s)
    ensures Resolve(dir, [s]) == dir + [s] && Resolve(dir + [s], [".."]) == dir
  {
    assert Resolve(dir + [s], [s][1..]) == dir + [s];
    assert Resolve(dir, [".."][1..]) == dir;
  }

  // ----- archived files never are logs -----

  predicate EndsWith(s: string, t: string) { |s| >= |t| && s[|s| - |t|..] == t }

  lemma EndsWithCons(c: char, s: string, t: string)
    requires EndsWith(s, t)
    ensures EndsWith([c] + s, t)
  {
    assert ([c] + s)[|s| + 1 - |t|..] == s[|s| - |t|..];
  }

  lemma {:induction false} SplitTail(s: string, t: string)
    requires NoSlash(t)
    ensures var r := Split(s + t); EndsWith(r[|r| - 1], t)
    decreases |s|
  {
    hide Split, EndsWith;
    if s == "" {
      assert s + t == t;
      SplitPlain(t);
      assert EndsWith(t, t) by { WholeEnd(t); }
    } else {
      hide NoSlash;
      SplitTail(s[1..], t);
      assert s + t == [s[0]] + (s[1..] + t);
      SplitStep(s[0], s[1..] + t);
      var r := Split(s[1..] + t);
      if s[0] != '/' && |r| == 1 { EndsWithCons(s[0], r[0], t); }
    }
  }

  lemma WholeEnd(t: string)
    ensures EndsWith(t, t)
  {
  }

  lemma ResolveLast(dir: Place, parts: seq<string>)
    requires parts != [] && Segment(parts[|parts| - 1])
    ensures var p := Resolve(dir, parts); p != [] && p[|p| - 1] == parts[|parts| - 1]
  {
    hide Resolve;
    var front, last := parts[..|parts| - 1], parts[|parts| - 1];
    assert parts == front + [last];
    ResolveConcat(dir, front, [last]);
    ResolveSegments(Resolve(dir, front), [last]);
  }

  /** No job id, whatever it contains, makes an archived file land on the index or the anchor log. */
  lemma ArchivedFilesAreNotLogs(cwd: Place, archiveDir: string, jobId: string, chainSha: string, sealSha: string,
                                tenant: string)
    requires Segments(cwd) && (tenant == "" || Segment(tenant))
    requires |chainSha| == 64 && |sealSha| == 64 && NoSlash(chainSha) && NoSlash(sealSha)
    requires BuildArchivePaths(cwd, archiveDir, jobId, chainSha, sealSha, tenant).Ok?
    ensures var p := BuildArchivePaths(cwd, archiveDir, jobId, chainSha, sealSha, tenant).value;
            forall file, log ::
              file in [p.auditChain, p.auditSeal] && log in [p.index, AnchorFile(cwd, p.archiveRoot)] ==>
                PlaceOf(cwd, file) != PlaceOf(cwd, log)
  {
    hide PlaceOf, AnchorFile, AbsPath, Join, Resolve, Split, FlatName, Strip;
    var p := BuildArchivePaths(cwd, archiveDir, jobId, chainSha, sealSha, tenant).value;
    if tenant != "" {
      ValidateDecides(jobId);
      TenantPlaces(cwd, archiveDir, jobId, chainSha, sealSha, tenant);
      var root := PlaceOf(cwd, archiveDir) + [tenant];
      assert |root + ["audit_chains", Strip(jobId), "audit_chain.json"]| == |root| + 3;
      assert |root + ["audit_chains", Strip(jobId), "audit_chain.seal.json"]| == |root| + 3;
    } else {
      FlatPlaces(cwd, archiveDir, jobId, chainSha, sealSha);
      var root := PlaceOf(cwd, archiveDir);
      FlatEndsInJson(root + ["audit_chains"], "audit_chain_", jobId, chainSha);
      FlatEndsInJson(root + ["audit_seals"], "audit_seal_", jobId, sealSha);
      NotALog(root, PlaceOf(cwd, p.auditChain));
      NotALog(root, PlaceOf(cwd, p.auditSeal));
    }
  }

  predicate EndsInJson(place: Place) {
    place != [] && |place[|place| - 1]| > 5 && place[|place| - 1][|place[|place| - 1]| - 5..] == ".json"
  }

  lemma NotALog(root: Place, place: Place)
    requires EndsInJson(place)
    ensures place != root + ["audit_chain_index.jsonl"] && place != root + ["audit_chain_anchor.jsonl"]
  {
    assert "audit_chain_index.jsonl"[|"audit_chain_index.jsonl"| - 5..] == "jsonl";
    assert "audit_chain_anchor.jsonl"[|"audit_chain_anchor.jsonl"| - 5..] == "jsonl";
    assert "jsonl"[0] != ".json"[0];
  }

  lemma FlatEndsInJson(dir: Place, stem: string, jobId: string, sha: string)
    requires |sha| == 64 && NoSlash(sha)
    ensures EndsInJson(Resolve(dir, Split(FlatName(stem, jobId, sha))))
  {
    hide Split, Resolve;
    var t := "_" + (sha + ".json");
    NoSlashConcat(sha, ".json");
    NoSlashConcat("_", sha + ".json");
    assert FlatName(stem, jobId, sha) == (stem + jobId) + t;
    SplitTail(stem + jobId, t);
    var parts := Split((stem + jobId) + t);
    var l := parts[|parts| - 1];
    assert |l| >= 70;
    assert l[|l| - 5..] == t[65..] == ".json" by {
      assert l[|l| - 70..][65..] == l[|l| - 5..];
    }
    ResolveLast(dir, parts);
  }

  // ----- which flat places can be read back -----

  /** The last part of a flat name: a segment without separators that ends in the digest and the extension. */
  lemma FlatLast(dir: Place, stem: string, jobId: string, sha: string)
    requires |sha| == 64 && NoSlash(sha)
    ensures var p := Resolve(dir, Split(FlatName(stem, jobId, sha)));
            && p != [] && NoSlash(p[|p| - 1]) && |p[|p| - 1]| >= 70
  {
    hide Split, Resolve, NoSlash;
    var t := "_" + (sha + ".json");
    TailIsPlain(sha);
    assert FlatName(stem, jobId, sha) == (stem + jobId) + t;
    SplitTail(stem + jobId, t);
    var parts := Split((stem + jobId) + t);
    var l := parts[|parts| - 1];
    assert |l| >= 70;
    ResolveLast(dir, parts);
  }

  lemma TailIsPlain(sha: string)
    requires NoSlash(sha)
    ensures NoSlash("_" + (sha + ".json"))
  {
    NoSlashConcat(sha, ".json");
    NoSlashConcat("_", sha + ".json");
  }

  lemma FlatNameHoldsJob(stem: string, jobId: string, sha: string)
    requires NoSlash(FlatName(stem, jobId, sha))
    ensures NoSlash(jobId)
  {
    var name := FlatName(stem, jobId, sha);
    forall i | 0 <= i < |jobId| ensures jobId[i] != '/' { assert name[|stem| + i] == jobId[i]; }
  }

  /** Resolving a flat name leads to the file of that name exactly when the job id has no separator. */
  lemma FlatNameResolves(dir: Place, stem: string, jobId: string, sha: string)
    requires |sha| == 64 && NoSlash(sha) && NoSlash(stem)
    ensures Resolve(dir, Split(FlatName(stem, jobId, sha))) == dir + [FlatName(stem, jobId, sha)] <==> NoSlash(jobId)
  {
    hide Split, Resolve, FlatName, NoSlash;
    var name := FlatName(stem, jobId, sha);
    if NoSlash(jobId) {
      FlatNameIsSegment(stem, jobId, sha);
      ResolveSegment(dir, name);
    } else if Resolve(dir, Split(name)) == dir + [name] {
      FlatLast(dir, stem, jobId, sha);
      assert (dir + [name])[|dir|] == name;
      FlatNameHoldsJob(stem, jobId, sha);
    }
  }

  /** In flat mode an archived file lies under its own name, so that job id and digest can be read off its
      place, exactly when the job id has no separator. */
  lemma FlatPlaceReadsBack(cwd: Place, archiveDir: string, jobId: string, chainSha: string, sealSha: string)
    requires Segments(cwd)
    requires |chainSha| == 64 && |sealSha| == 64 && NoSlash(chainSha) && NoSlash(sealSha)
    ensures var r := BuildArchivePaths(cwd, archiveDir, jobId, chainSha, sealSha, "");
            var root := PlaceOf(cwd, archiveDir);
            && r.Ok?
            && (PlaceOf(cwd, r.value.auditChain) == root + ["audit_chains", FlatName("audit_chain_", jobId, chainSha)]
                <==> NoSlash(jobId))
            && (PlaceOf(cwd, r.value.auditSeal) == root + ["audit_seals", FlatName("audit_seal_", jobId, sealSha)]
                <==> NoSlash(jobId))
            && (ReadsAs("audit_chain_", PlaceOf(cwd, r.value.auditChain), jobId, chainSha) <==> NoSlash(jobId))
            && (ReadsAs("audit_seal_", PlaceOf(cwd, r.value.auditSeal), jobId, sealSha) <==> NoSlash(jobId))
  {
    hide PlaceOf, BuildArchivePaths, Resolve, Split, FlatName, ReadsAs, NoSlash;
    FlatPlaces(cwd, archiveDir, jobId, chainSha, sealSha);
    var root := PlaceOf(cwd, archiveDir);
    var chain, seal := FlatName("audit_chain_", jobId, chainSha), FlatName("audit_seal_", jobId, sealSha);
    assert root + ["audit_chains"] + [chain] == root + ["audit_chains", chain];
    assert root + ["audit_seals"] + [seal] == root + ["audit_seals", seal];
    StemsArePlain();
    FlatNameResolves(root + ["audit_chains"], "audit_chain_", jobId, chainSha);
    FlatNameResolves(root + ["audit_seals"], "audit_seal_", jobId, sealSha);
    FlatReads(root + ["audit_chains"], "audit_chain_", jobId, chainSha);
    FlatReads(root + ["audit_seals"], "audit_seal_", jobId, sealSha);
  }

  lemma StemsArePlain()
    ensures NoSlash("audit_chain_") && NoSlash("audit_seal_")
  {
  }

  /** The last segment of the place gives this job id and digest when it is read as a flat name. */
  predicate ReadsAs(stem: string, place: Place, jobId: string, sha: string) {
    place != [] && |place[|place| - 1]| >= |stem| + 70 && ReadFlatName(stem, place[|place| - 1]) == (jobId, sha)
  }

  lemma FlatReads(dir: Place, stem: string, jobId: string, sha: string)
    requires |sha| == 64 && NoSlash(sha) && NoSlash(stem)
    ensures ReadsAs(stem, Resolve(dir, Split(FlatName(stem, jobId, sha))), jobId, sha) <==> NoSlash(jobId)
  {
    hide Split, Resolve, FlatName, NoSlash;
    var p := Resolve(dir, Split(FlatName(stem, jobId, sha)));
    FlatLast(dir, stem, jobId, sha);
    if NoSlash(jobId) {
      FlatNameResolves(dir, stem, jobId, sha);
      FlatNameReadsBack(stem, jobId, sha);
    } else if ReadsAs(stem, p, jobId, sha) {
      PartIsPlain(p[|p| - 1], |stem|, |p[|p| - 1]| - 70);
    }
  }

  lemma PartIsPlain(s: string, i: nat, j: nat)
    requires NoSlash(s) && i <= j <= |s|
    ensures NoSlash(s[i..j])
  {
  }

  // ----- when a flat place stays under the archive root -----

  /** Walking the parts from this many segments below the root never climbs above the root. */
  predicate Stays(parts: seq<string>, height: nat)
    decreases |parts|
  {
    if parts == [] then true
    else if parts[0] == "" || parts[0] == "." then Stays(parts[1..], height)
    else if parts[0] == ".." then height > 0 && Stays(parts[1..], height - 1)
    else Stays(parts[1..], height + 1)
  }

  /** A walk in normal form: so many levels up, then down by these names. */
  datatype Walk = Walk(up: nat, names: Place)

  function Take(w: Walk, parts: seq<string>): Walk
    decreases |parts|
  {
    if parts == [] then w
    else if parts[0] == "" || parts[0] == "." then Take(w, parts[1..])
    else if parts[0] == ".." then
      Take(if w.names == [] then Walk(w.up + 1, []) else Walk(w.up, w.names[..|w.names| - 1]), parts[1..])
    else Take(Walk(w.up, w.names + [parts[0]]), parts[1..])
  }

  /** Where a walk leads from a place; the top has no level above it. */
  function At(place: Place, w: Walk): Place {
    (if w.up >= |place| then [] else place[..|place| - w.up]) + w.names
  }

  /** Resolving parts one by one leads where their walk leads. */
  lemma {:induction false} ResolveIsWalk(place: Place, w: Walk, parts: seq<string>)
    ensures Resolve(At(place, w), parts) == At(place, Take(w, parts))
    decreases |parts|
  {
    if parts != [] {
      var next := if parts[0] == "" || parts[0] == "." then w
                  else if parts[0] == ".." then
                    (if w.names == [] then Walk(w.up + 1, []) else Walk(w.up, w.names[..|w.names| - 1]))
                  else Walk(w.up, w.names + [parts[0]]);
      assert ResolveOne(At(place, w), parts[0]) == At(place, next);
      ResolveIsWalk(place, next, parts[1..]);
    }
  }

  /** From the directory just below the root, a walk ends under the root exactly when it never climbs above it,
      or when the names it goes down by start with the part of the root that it climbed out of. */
  predicate EndsUnder(root: Place, w: Walk) {
    w.up <= 1 ||
    (var d := if w.up - 1 <= |root| then w.up - 1 else |root|; root[|root| - d..] <= w.names)
  }

  lemma UnderRoot(root: Place, sub: string, w: Walk)
    ensures root <= At(root + [sub], w) <==> EndsUnder(root, w)
  {
    var base, n := root + [sub], |root|;
    var p := At(base, w);
    if w.up <= 1 {
      assert base[..n] == root && base[..n + 1] == base;
    } else if w.up > n {
      assert p == w.names && root[n - n..] == root;
    } else {
      var d := w.up - 1;
      assert base[..n + 1 - w.up] == root[..n - d];
      assert p[..n - d] == root[..n - d] && p[n - d..] == w.names;
      assert root == root[..n - d] + root[n - d..];
      if root <= p {
        assert p[..n] == root;
        assert w.names[..d] == p[..n][n - d..];
      }
    }
  }

  lemma {:induction false} TakeClimbs(w: Walk, parts: seq<string>)
    ensures Take(w, parts).up >= w.up
    decreases |parts|
  {
    if parts != [] {
      if parts[0] == "" || parts[0] == "." {
        TakeClimbs(w, parts[1..]);
      } else if parts[0] == ".." {
        TakeClimbs(if w.names == [] then Walk(w.up + 1, []) else Walk(w.up, w.names[..|w.names| - 1]), parts[1..]);
      } else {
        TakeClimbs(Walk(w.up, w.names + [parts[0]]), parts[1..]);
      }
    }
  }

  /** Never climbing above the root means never more levels up than there were to begin with. */
  lemma {:induction false} StaysIsLow(w: Walk, parts: seq<string>, h: nat)
    requires w.up <= h
    ensures Stays(parts, h - w.up + |w.names|) <==> Take(w, parts).up <= h
    decreases |parts|
  {
    if parts != [] {
      if parts[0] == "" || parts[0] == "." {
        StaysIsLow(w, parts[1..], h);
      } else if parts[0] == ".." {
        if w.names != [] {
          StaysIsLow(Walk(w.up, w.names[..|w.names| - 1]), parts[1..], h);
        } else if w.up < h {
          StaysIsLow(Walk(w.up + 1, []), parts[1..], h);
        } else {
          TakeClimbs(Walk(w.up + 1, []), parts[1..]);
        }
      } else {
        StaysIsLow(Walk(w.up, w.names + [parts[0]]), parts[1..], h);
      }
    }
  }

  /** The parts r with a in front of the first and b behind the last. */
  function Around(a: string, r: seq<string>, b: string): seq<string>
    requires r != []
  {
    if |r| == 1 then [a + (r[0] + b)] else [a + r[0]] + (r[1..|r| - 1] + [r[|r| - 1] + b])
  }

  lemma AroundStep(a: string, head: string, q: seq<string>, b: string)
    requires q != []
    ensures Around(a, [head] + q, b) == [a + head] + Around("", q, b)
  {
    var r := [head] + q;
    assert r[|r| - 1] == q[|q| - 1] && r[1..|r| - 1] == q[..|q| - 1];
    if |q| == 1 {
      assert "" + (q[0] + b) == q[0] + b;
    } else {
      assert "" + q[0] == q[0];
      assert q[..|q| - 1] == [q[0]] + q[1..|q| - 1];
    }
  }

  /** The parts of a text with separator-free texts put before and behind it. */
  lemma {:induction false} SplitAround(a: string, s: string, b: string)
    requires NoSlash(a) && NoSlash(b)
    ensures Split(a + (s + b)) == Around(a, Split(s), b)
    decreases |s|
  {
    hide Split, NoSlash;
    if NoSlash(s) {
      NoSlashConcat(s, b);
      NoSlashConcat(a, s + b);
      SplitPlain(s);
      SplitPlain(a + (s + b));
    } else {
      hide Around;
      var head, tail := CutAtSlash(s);
      AroundText(a, head, tail, b);
      NoSlashConcat(a, head);
      SplitPlain(head);
      SplitPlain(a + head);
      SplitAtSlash(head, tail);
      SplitAtSlash(a + head, tail + b);
      EmptyIsPlain();
      SplitAround("", tail, b);
      AroundStep(a, head, Split(tail), b);
    }
  }

  lemma AroundText(a: string, head: string, tail: string, b: string)
    ensures a + ((head + ("/" + tail)) + b) == (a + head) + ("/" + (tail + b))
    ensures "" + (tail + b) == tail + b
  {
  }

  lemma CutAtSlash(s: string) returns (head: string, tail: string)
    requires !NoSlash(s)
    ensures s == head + ("/" + tail) && NoSlash(head) && |tail| < |s|
  {
    var k := FirstSlash(s);
    head, tail := s[..k], s[k + 1..];
  }

  lemma EmptyIsPlain()
    ensures NoSlash("")
  {
  }

  function FirstSlash(s: string): (k: nat)
    requires !NoSlash(s)
    ensures k < |s| && s[k] == '/' && NoSlash(s[..k])
  {
    if s[0] == '/' then 0
    else
      assert forall i :: 0 < i < |s| ==> s[i] == s[1..][i - 1];
      var k := FirstSlash(s[1..]) + 1;
      assert forall i :: 0 < i < k ==> s[i] == s[1..][..k - 1][i - 1];
      k
  }

  /** A job id that never climbs: its inner parts, walked from two segments below the root. */
  predicate JobStays(jobId: string) {
    var parts := Split(jobId);
    |parts| >= 2 ==> Stays(parts[1..|parts| - 1], 2)
  }

  lemma {:induction false} StaysConcat(xs: seq<string>, last: string, height: nat)
    requires Segment(last)
    ensures Stays(xs + [last], height) <==> Stays(xs, height)
    decreases |xs|
  {
    if xs == [] {
      assert [last][1..] == [];
    } else {
      assert (xs + [last])[1..] == xs[1..] + [last] && (xs + [last])[0] == xs[0];
      if xs[0] == ".." {
        if height > 0 { StaysConcat(xs[1..], last, height - 1); }
      } else if xs[0] == "" || xs[0] == "." {
        StaysConcat(xs[1..], last, height);
      } else {
        StaysConcat(xs[1..], last, height + 1);
      }
    }
  }

  /** The walk of a flat name from its directory stays under the root exactly when its job id's does. */
  lemma FlatStays(stem: string, jobId: string, sha: string)
    requires NoSlash(stem) && |stem| > 2 && |sha| == 64 && NoSlash(sha)
    ensures Stays(Split(FlatName(stem, jobId, sha)), 1) <==> JobStays(jobId)
  {
    hide Split, NoSlash;
    var t := "_" + (sha + ".json");
    TailIsPlain(sha);
    assert FlatName(stem, jobId, sha) == stem + (jobId + t);
    SplitAround(stem, jobId, t);
    var r, parts := Split(jobId), Split(stem + (jobId + t));
    if |r| == 1 {
      assert parts[1..] == [];
    } else {
      var mid, last := r[1..|r| - 1], r[|r| - 1] + t;
      NoSlashConcat(r[|r| - 1], t);
      assert Segment(last);
      assert parts[1..] == mid + [last] && parts[0] == stem + r[0];
      StaysConcat(mid, last, 2);
    }
  }

  /** The walk of a flat file name, from the directory it is joined to. */
  function FlatWalk(stem: string, jobId: string, sha: string): Walk {
    Take(Walk(0, []), Split(FlatName(stem, jobId, sha)))
  }

  /** In flat mode an archived file lies under the archive root exactly when the walk of its name ends there,
      for every root and every job id; it does when the job id's parts never climb above the root. */
  lemma FlatContainment(cwd: Place, archiveDir: string, jobId: string, chainSha: string, sealSha: string)
    requires Segments(cwd)
    requires |chainSha| == 64 && |sealSha| == 64 && NoSlash(chainSha) && NoSlash(sealSha)
    ensures var r := BuildArchivePaths(cwd, archiveDir, jobId, chainSha, sealSha, "");
            var root := PlaceOf(cwd, archiveDir);
            && r.Ok?
            && (root <= PlaceOf(cwd, r.value.auditChain) <==>
                  EndsUnder(root, FlatWalk("audit_chain_", jobId, chainSha)))
            && (root <= PlaceOf(cwd, r.value.auditSeal) <==> EndsUnder(root, FlatWalk("audit_seal_", jobId, sealSha)))
            && (JobStays(jobId) <==> FlatWalk("audit_chain_", jobId, chainSha).up <= 1)
            && (JobStays(jobId) <==> FlatWalk("audit_seal_", jobId, sealSha).up <= 1)
  {
    hide PlaceOf, BuildArchivePaths, Resolve, Split, FlatName, FlatWalk, NoSlash, Stays, JobStays, EndsUnder;
    FlatPlaces(cwd, archiveDir, jobId, chainSha, sealSha);
    var root := PlaceOf(cwd, archiveDir);
    StemsArePlain();
    FlatUnder(root, "audit_chains", "audit_chain_", jobId, chainSha);
    FlatUnder(root, "audit_seals", "audit_seal_", jobId, sealSha);
  }

  lemma FlatUnder(root: Place, sub: string, stem: string, jobId: string, sha: string)
    requires NoSlash(stem) && |stem| > 2 && |sha| == 64 && NoSlash(sha)
    ensures root <= Resolve(root + [sub], Split(FlatName(stem, jobId, sha))) <==>
            EndsUnder(root, FlatWalk(stem, jobId, sha))
    ensures JobStays(jobId) <==> FlatWalk(stem, jobId, sha).up <= 1
  {
    hide Split, Resolve, FlatName, NoSlash, Stays, JobStays, EndsUnder, Take;
    var parts := Split(FlatName(stem, jobId, sha));
    assert At(root + [sub], Walk(0, [])) == root + [sub];
    ResolveIsWalk(root + [sub], Walk(0, []), parts);
    UnderRoot(root, sub, FlatWalk(stem, jobId, sha));
    FlatStays(stem, jobId, sha);
    StaysIsLow(Walk(0, []), parts, 1);
  }

  /** An escaping id: three levels up from inside leaves every root but one that bears the file's own name. */
  lemma FlatEscapes(cwd: Place, archiveDir: string, chainSha: string, sealSha: string)
    requires Segments(cwd)
    requires |chainSha| == 64 && |sealSha| == 64 && NoSlash(chainSha) && NoSlash(sealSha)
    requires var root := PlaceOf(cwd, archiveDir); root != [] && root[|root| - 1] != "y_" + (chainSha + ".json")
    ensures var r := BuildArchivePaths(cwd, archiveDir, "x/../../../y", chainSha, sealSha, "");
            var root := PlaceOf(cwd, archiveDir);
            && r.Ok? && !(root <= PlaceOf(cwd, r.value.auditChain))
            && PlaceOf(cwd, r.value.auditChain) == root[..|root| - 1] + ["y_" + (chainSha + ".json")]
  {
    hide PlaceOf, BuildArchivePaths, Resolve, Split, NoSlash, Stays, JobStays;
    var root := PlaceOf(cwd, archiveDir);
    var dir := root + ["audit_chains"];
    FlatPlaces(cwd, archiveDir, "x/../../../y", chainSha, sealSha);
    EscapeParts(chainSha);
    hide FlatName;
    var file := "y_" + (chainSha + ".json");
    var parts := ["audit_chain_x", "..", "..", "..", file];
    assert At(dir, Walk(0, [])) == dir;
    ResolveIsWalk(dir, Walk(0, []), parts);
    EscapeWalk(file);
    assert dir[..|dir| - 2] == root[..|root| - 1];
    var p := root[..|root| - 1] + [file];
    assert p[|root| - 1] == file;
  }

  lemma EscapeParts(sha: string)
    requires NoSlash(sha)
    ensures Split(FlatName("audit_chain_", "x/../../../y", sha)) ==
            ["audit_chain_x", "..", "..", "..", "y_" + (sha + ".json")]
  {
    hide Split;
    var file := "y_" + (sha + ".json");
    NoSlashConcat(sha, ".json");
    NoSlashConcat("y_", sha + ".json");
    EscapeName(sha);
    SplitPlain("audit_chain_x");
    SplitPlain("..");
    SplitPlain(file);
    SplitAtSlash("..", file);
    SplitAtSlash("..", ".." + ("/" + file));
    SplitAtSlash("..", ".." + ("/" + (".." + ("/" + file))));
    SplitAtSlash("audit_chain_x", ".." + ("/" + (".." + ("/" + (".." + ("/" + file))))));
  }

  lemma EscapeName(sha: string)
    ensures FlatName("audit_chain_", "x/../../../y", sha) ==
            "audit_chain_x" + ("/" + (".." + ("/" + (".." + ("/" + (".." + ("/" + ("y_" + (sha + ".json")))))))))
  {
  }

  lemma EscapeWalk(file: string)
    requires |file| > 2
    ensures Take(Walk(0, []), ["audit_chain_x", "..", "..", "..", file]) == Walk(2, [file])
  {
    var parts := ["audit_chain_x", "..", "..", "..", file];
    assert parts[1..] == ["..", "..", "..", file] && parts[1..][1..] == ["..", "..", file];
    assert parts[1..][1..][1..] == ["..", file] && parts[1..][1..][1..][1..] == [file];
    assert Take(Walk(2, []), [file]) == Walk(2, [file]);
    assert Take(Walk(1, []), ["..", file]) == Take(Walk(2, []), ["..", file][1..]);
    assert Take(Walk(0, []), ["..", "..", file]) == Take(Walk(1, []), ["..", "..", file][1..]);
    assert Take(Walk(0, ["audit_chain_x"]), parts[1..]) == Take(Walk(0, []), parts[1..][1..]);
  }

  /** abspath never gives an empty text. */
  lemma AbsPathIsRooted(cwd: Place, p: string)
    ensures AbsPath(cwd, p) != "" && AbsPath(cwd, p)[0] == '/'
  {
    hide PlaceOf;
    RenderIsRooted(PlaceOf(cwd, p));
  }

  lemma {:induction false} RenderIsRooted(place: Place)
    ensures place != [] ==> Render(place) != "" && Render(place)[0] == '/'
  {
    if place != [] { RenderIsRooted(place[..|place| - 1]); }
  }
}
