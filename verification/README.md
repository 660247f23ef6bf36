# Verified model of the audit archive and its companions

This Dafny project models the part of the repository that has to be right over whole histories, the audit archive,
and six smaller algorithms of the same scripts. `dafny verify dfyconfig.toml` checks all of it.

**The audit archive** (`scripts/archive_audit_bundle.py`, `scripts/verify_audit_bundle.py`). An archive root holds an
append-only index, a hash-linked anchor log and write-once archived files. One run verifies a bundle, copies two files,
reads the tip of the anchor log, builds an index record and an anchor record, and appends them one after the other,
without a lock. The model has three layers:

- text: UTF-8 (`Utf8`), JSON printing and parsing (`JsonText`, `JsonRoundTrip`, `JsonExtension`), canonical JSON and its
  form (`CanonicalJson`, `CanonicalText`) and JSON-lines logs (`JsonLines`), down to escapes and line breaks, and logs
  whose last append was cut off (`JsonScan`, `TornLog`);
- records and hashes: the two records field by field (`ArchiveRecords`), the log check, its refusal of altered entries
  and tamper evidence (`AnchorChain`), and the path layout with `join` and `abspath` (`ArchivePaths`);
- runs: a step machine over files and two logs in which any number of runs interleave and crash anywhere
  (`ArchiveMachine`, `ArchiveTheorems`), and a mutable disk of bytes on which one whole run is shown to be a run of that
  machine (`ArchiveDisk`).

SHA-256 and HMAC are arbitrary functions to 64 lower-case hex digits. No injectivity is assumed: a result that depends on
it says "equal, or here are two different byte strings with the same digest", and the pair is computed from the inputs.

**The companions.** Dashboard panels (`DashboardCounts`, `StableSort`, `Percentile`, `Dashboard`) and what their rows say
of the events (`DashboardRows`), the benchmark fixture (`PipelineFixture`), query binding (`IdentityBinding`),
field-level business access (`BusinessAccess`), the leak scan (`LeakScan`) and the evidence manifest
(`EvidenceManifest`).

**Where the code falls short of what one might expect.** Each is stated as a lemma with the exact condition:

- overlapping runs leave an anchor log with two roots that the log check rejects (`OverlappingRunsBreakTheChain`); a
  reachable log passes exactly when no run had read a stale tip and the key fits, up to an exhibited collision
  (`VerifierAcceptsExactlyOneChain`);
- an append that was cut off inside its record makes the log unreadable for good, and one that lost only its line break
  does so with the next append (`CutAppendBytes`, for a cut after any number of bytes and any later appends); on any readable log an append is safe
  exactly when the last line is blank (`AppendIsSafeExactlyOnABlankLastLine`);
- without a tenant the job id is not validated: job id and digest can be read off a flat file's place exactly when the
  id has no separator (`FlatPlaceReadsBack`, with `FlatAlias` for shared places), and the file lies under the archive
  root exactly when the walk of its name ends there (`FlatContainment`, with `FlatEscapes` for an id that leaves it).
  These speak of what `abspath` makes of the name: to open a name that passes through a directory, that directory has
  to exist, as a run for a job id such as `a/b` leaves `audit_chains/audit_chain_a`;
- binding a bound query request again can be refused, after a value was filled in from a one-element allow-list
  (`BindingTwice` for the condition, `RebindingCanBeRefused` for an input);
- listing more classes as masked can lower a decision from deny to mask (`MaskingMoreCanLower` for
  a field, `MaskingMoreCanLowerTheReport` for a request, `MaskingCanLower` for an input).

## Model

| member | source | states |
|---|---|---|
| AnchorChain.TamperEvidence | scripts/archive_audit_bundle.py:173-187 | two verified anchor logs that end in the same entry hash have the same length and the same payload at every position, or the walk back from the tip returns two different byte strings with one digest |
| AnchorChain.TamperEvidenceForFiles | scripts/verify_audit_bundle.py:54-110 | the same for the bytes of two anchor files, through UTF-8 decoding, line splitting and parsing |
| AnchorChain.EntryMessageInjective | scripts/archive_audit_bundle.py:185-187 | the message `prev\npayload` that an entry hash covers determines both parts, for every previous link a verified log can have |
| AnchorChain.VerifyAnchorRecord | scripts/verify_audit_bundle.py:54-110 | the one-pass check accepts a log exactly when some entry names the index record and every entry has the right schema, payload hash, entry hash over the entry hash before it, link, archive and signature, each said of its own field; it returns the last entry that names the record and whether its signature was compared |
| AnchorChain.RecordOkMeans | scripts/verify_audit_bundle.py:54-110 | the check of one entry is the conjunction of those field conditions, with the hashed text written out as bytes |
| AnchorChain.AlteredEntryIsRefused | scripts/verify_audit_bundle.py:54-110 | change one field of one entry of an accepted log and the log is refused: always for the payload hash, the entry hash, the schema, the link and the archive, for the signature when a key checks it or none may be there, and for every hashed field unless the old and the new canonical bytes are a digest collision |
| AnchorChain.KeyedCheck | scripts/verify_audit_bundle.py:82-99 | with a secret the check accepts a log exactly when the check without a key does and every signed entry carries that secret's signature; with an unset variable no entry may be signed; unsigned entries pass either way |
| AnchorChain.LastNamingIsLast | scripts/verify_audit_bundle.py:54-110 | the entry the check returns commits to the index record, and no later entry does |
| ArchiveTheorems.EveryInterleavingIsAForest | scripts/archive_audit_bundle.py:460-493 | under every interleaving each anchor has a null link or its link names the entry its run had read as the tip, which lies strictly before it; chain_position is the depth along those links (1 at a root) |
| ArchiveTheorems.VerifierAcceptsExactlyOneChain | scripts/verify_audit_bundle.py:54-110 | of the logs that interleavings produce, the check with any key, or none, accepts those in which every run read the tip it was appended behind and the key fits the signing keys; a key that does not fit is refused; acceptance of any other log exhibits a digest collision |
| ArchiveTheorems.OverlappingRunsBreakTheChain | scripts/archive_audit_bundle.py:460-493 | a concrete interleaving of two runs that both read an empty log leaves two roots, and the log check rejects the result under every hash and with every key |
| ArchiveTheorems.NonOverlappingRunsFormOneChain | scripts/archive_audit_bundle.py:460-493 | runs that do not overlap, crashes included, leave one chain numbered 1..n that the check accepts exactly with the keys that fit the signing keys; anchors commit to index records in the order of both logs |
| ArchiveTheorems.AnchorsMatchIndexRecords | scripts/archive_audit_bundle.py:33-42 | under every interleaving each anchor commits to the hash of an index record that names it, no two anchors to the same record, and the unanchored records are exactly those of runs stopped between their two appends |
| ArchiveTheorems.HashNamesOneRecord | scripts/archive_audit_bundle.py:33-42 | a stored index hash fixes the hashed fields of the record, as maps at every depth, or the canonical forms are a collision pair |
| ArchiveTheorems.AcceptedRecords | scripts/verify_audit_bundle.py:144-169 | after any interleaving and with any key, an anchored record is accepted exactly when the log is and no later anchor names the same hash, or two histories collide; a record that lost its run between the appends is accepted only in place of an anchored one with the same hashed fields, or two canonical forms collide |
| ArchiveTheorems.ArchiveIsWriteOnce | scripts/archive_audit_bundle.py:350-360 | whatever steps follow, archived bytes and log records stay as they are, and both digests of every index record are the digests of the files it names |
| ArchiveTheorems.FailingStepLeavesLogs | scripts/archive_audit_bundle.py:419-452 | a step fails its run exactly when the bundle is refused, an archived file has the wrong digest or the signing secret is missing, and it leaves both logs as they were |
| ArchiveTheorems.FailedRunsOwnNothing | scripts/archive_audit_bundle.py:419-493 | a run that failed, or stopped before its index append, owns no record of either log |
| ArchiveTheorems.LinearLogVerifies | scripts/verify_audit_bundle.py:54-110 | a reachable log in which every run read the tip it was appended behind is accepted with a key exactly when the key fits the signing keys |
| ArchiveTheorems.KeysDecide | scripts/verify_audit_bundle.py:82-99 | a reachable log is accepted with a key exactly when it is accepted without one and, for every signed entry, the key gives the entry hash the signature that the run's own key gave it |
| ArchiveTheorems.LinkNamesOneEntry | scripts/verify_audit_bundle.py:54-110 | two entries of a log that the same link could name are the same entry, or a collision is exhibited |
| ArchiveMachine.ReachableInv | scripts/archive_audit_bundle.py:400-495 | the invariant of the step machine holds after every trace from an empty archive, and nothing written is ever changed |
| ArchiveMachine.StepKeepsInv | scripts/archive_audit_bundle.py:400-495 | every step of every run (start, two copies, building on the tip, two appends, crash) keeps the invariant |
| ArchiveMachine.StepExtends | scripts/archive_audit_bundle.py:350-397 | no step changes a stored file or an earlier log record |
| ArchiveMachine.BuildIsReady | scripts/archive_audit_bundle.py:438-491 | records built on the tip of the log store the right digests, follow that tip and name each other; building fails only for a missing signing secret |
| ArchiveMachine.ReadTipOfBuilt | scripts/archive_audit_bundle.py:461-477 | the previous link and position read from the last entry are the ones a verifier computes for the whole log |
| ArchiveRecords.AnchorRecordVerifies | scripts/archive_audit_bundle.py:463-489 | every anchor record the archiver builds passes the verifier's payload, entry, link and signature checks in front of the tip it was built on |
| ArchiveRecords.RecordsAgree | scripts/archive_audit_bundle.py:438-491 | both records of one run give the same job, correlation id, tenant, archive, log files and archived files, and the index record names the copied sources |
| ArchiveRecords.IndexKind | scripts/archive_audit_bundle.py:438-459 | schema, time, event and the digest flag that a reader finds by key in a finished index record |
| ArchiveRecords.IndexBundle | scripts/archive_audit_bundle.py:438-459 | signature algorithm, signature result, secret source, source directory and contract summary found by key in a finished index record are those of the verified bundle |
| ArchiveRecords.AnchorKind | scripts/archive_audit_bundle.py:463-480 | time, event and secret source found by key in a finished anchor record; without a signing key the source is null |
| ArchiveRecords.AnchorPayload | scripts/archive_audit_bundle.py:173-178 | dropping the three hash fields from a finished anchor record gives back exactly the fields that were hashed |
| ArchiveRecords.AnchorRecordFields | scripts/archive_audit_bundle.py:463-489 | the value of every field a verifier reads from an anchor record, found by key among nineteen distinct keys |
| ArchiveRecords.IndexRecordSha | scripts/archive_audit_bundle.py:33-42 | the hash recomputed from a finished index record is the one computed before its two anchor fields were added |
| ArchiveRecords.IndexRecordFields | scripts/archive_audit_bundle.py:438-491 | the file names, digests and anchor hash found by key in a finished index record, whose twenty-two keys are distinct |
| ArchiveDisk.Disk.ArchiveBundle | scripts/archive_audit_bundle.py:427-495 | a whole sequential run on files of bytes is a run of the step machine: it succeeds exactly when the bundle is accepted, both files can be archived and the signing secret is set; then both records, built on the tip that was on disk, are appended and the run ends Done; otherwise both logs stay as they were, and in each case every file's new bytes are given; a log that is one chain stays one chain |
| ArchiveDisk.EmptyArchive | scripts/archive_audit_bundle.py:136-149 | a disk without the two logs is where a first call may start |
| ArchiveDisk.NextCall | scripts/archive_audit_bundle.py:400-495 | where one call ends, a call for any other bundle of the archive may start |
| ArchiveDisk.DiskLogVerifies | scripts/verify_audit_bundle.py:54-110 | between sequential calls the bytes of the anchor file load as one chain numbered 1..n that the check accepts exactly with the keys that fit |
| ArchiveDisk.InterleavingsOnDisk | scripts/archive_audit_bundle.py:136-149 | after any interleaving of the steps of any runs, the bytes of the two log files load as the machine's logs; the loaded anchor log is the forest, and the check accepts it with any key exactly when no run had read a stale tip and the key fits, up to an exhibited collision |
| ArchiveDisk.StepRepresents | scripts/archive_audit_bundle.py:350-397 | one step of the machine and the same step on the files lead to a state and to files that represent it |
| ArchiveDisk.Disk.CopyIfMissing | scripts/archive_audit_bundle.py:350-360 | an existing destination keeps its bytes, a missing one gets the source's; success means the stored bytes have the expected digest; no other file changes |
| ArchiveDisk.Disk.AppendRecord | scripts/archive_audit_bundle.py:388-397 | a log file is the old file followed by one printed record and a line break; no other file changes |
| ArchiveDisk.Disk.LoadJsonlObjects | scripts/archive_audit_bundle.py:136-149 | an absent file reads as no records, a present one as the records of its decoded text |
| ArchiveDisk.Disk.CopyArtifact | scripts/archive_audit_bundle.py:435-436 | copying on disk and copying in the step machine lead to the same files and phase |
| ArchiveDisk.Disk.BuildRecords | scripts/archive_audit_bundle.py:438-491 | the records are built on the tip read from the log file's bytes, they are those of the step machine, and they are missing exactly when the signing secret is |
| ArchiveDisk.Disk.AppendRecords | scripts/archive_audit_bundle.py:492-493 | the two appends leave log files that load as the machine's two extended logs |
| ArchiveDisk.AppendToCleanLog | scripts/archive_audit_bundle.py:388-397 | one appended record takes a readable log that ends in a line break to another such log with that record last |
| ArchiveDisk.BuiltPathsAreSeparate | scripts/archive_audit_bundle.py:363-385 | for any job id, the absolute paths of the two archived files and of the two logs are separate |
| ArchiveDisk.ExecKeepsInv | scripts/archive_audit_bundle.py:400-495 | the invariant survives every further trace from a state that has it |
| ArchivePaths.ValidateDecides | scripts/archive_audit_bundle.py:59-65 | a segment is accepted exactly when its stripped form is non-empty, not `.` or `..`, and holds no separator; the result is the stripped form |
| ArchivePaths.TenantLayoutSeparates | scripts/archive_audit_bundle.py:363-385 | distinct (tenant, job) pairs get distinct normalised places, each under its own tenant's root and under no other tenant's |
| ArchivePaths.TenantPlaces | scripts/archive_audit_bundle.py:363-385 | where the two archived files and the two logs of a tenant lie |
| ArchivePaths.FlatNameReadsBack | scripts/archive_audit_bundle.py:363-385 | job id and 64-character digest can be read back from a flat file name |
| ArchivePaths.FlatLayoutSeparates | scripts/archive_audit_bundle.py:363-385 | in flat mode, for job ids without a separator, two chain files share a place exactly when job id and chain digest agree, two seal files when job id and seal digest do, and all lie under the archive root |
| ArchivePaths.FlatPlaceReadsBack | scripts/archive_audit_bundle.py:363-385 | an archived file lies under its own flat name, and job id and digest can be read off its place, exactly when the job id has no separator |
| ArchivePaths.FlatContainment | scripts/archive_audit_bundle.py:363-385 | for every root and every job id, what abspath makes of a flat archived file lies under the archive root exactly when the normalised walk of its name ends there: at most one level up, or going down again by the names of the root it climbed out of; the first holds exactly when the inner parts of the job id never climb above the root |
| ArchivePaths.FlatEscapes | scripts/archive_audit_bundle.py:363-385 | a job id whose file leaves every archive root, unless the root bears the file's own name, and the place it leads to |
| ArchivePaths.ResolveIsWalk | scripts/archive_audit_bundle.py:165-170 | resolving parts one by one from any place leads where their normalised walk leads |
| ArchivePaths.FlatAlias | scripts/archive_audit_bundle.py:363-385 | every job id shares the place that abspath gives its chain file with another id, which holds a separator; the other name can be opened once an earlier run, for a job id such as `a/b`, has made the directory it passes through |
| ArchivePaths.FlatPlaces | scripts/archive_audit_bundle.py:363-385 | the place of a flat archived file for any job id, separators included |
| ArchivePaths.ArchivedFilesAreNotLogs | scripts/archive_audit_bundle.py:363-385 | no job id makes an archived file land on the index or the anchor log |
| ArchivePaths.PlaceOfAbsPath | scripts/archive_audit_bundle.py:165-170 | an absolute path denotes the place of the path it was made from |
| ArchivePaths.AbsPathIsRooted | scripts/archive_audit_bundle.py:165-170 | an absolute path is never empty |
| CanonicalJson.CanonicalBytesDecideEquality | scripts/archive_audit_bundle.py:25-30 | two dicts have equal canonical bytes exactly when they are equal as maps at every depth, whatever the insertion order |
| CanonicalJson.CanonKeepsMeaning | scripts/archive_audit_bundle.py:25-30 | sorting keys at every depth keeps a dict a dict and keeps what it means |
| CanonicalJson.SameMeaningSameCanon | scripts/archive_audit_bundle.py:25-30 | dicts that mean the same have the same key-sorted tree |
| CanonicalJson.SortedListsAgree | scripts/archive_audit_bundle.py:25-30 | key-sorted member lists with the same elements are the same list |
| CanonicalText.CanonicalForm | scripts/archive_audit_bundle.py:25-30 | canonical bytes decode to a text with no white space outside its strings, which loads as a tree whose keys ascend by code points at every depth and which means the same as the value |
| CanonicalText.CanonKeysAscend | scripts/archive_audit_bundle.py:25-30 | key sorting puts the members of every object of the tree in the code-point order of their keys |
| CanonicalText.PlainTextPrintsAsItself | scripts/archive_audit_bundle.py:25-30 | text without control characters, quotes and backslashes is printed as it stands, also beyond ASCII |
| CanonicalText.EscapedCharacters | scripts/archive_audit_bundle.py:25-30 | the other characters: two-character escapes for the seven that have one, four lower-case hex digits for the remaining control characters (section 7 of RFC 8259) |
| CanonicalText.SeparatorExamples | scripts/archive_audit_bundle.py:388-397 | the compact style of hashed bytes and the spaced style of log lines, on an object that holds a list |
| JsonRoundTrip.RoundTrip | scripts/archive_audit_bundle.py:25-30 | the parser undoes the printer in both separator styles, key order and escapes included (sections 4 and 7 of RFC 8259) |
| JsonRoundTrip.StringRoundTrip | scripts/archive_audit_bundle.py:25-30 | a quoted string reads back as itself in front of any further text, for every character |
| JsonRoundTrip.NumberRoundTrip | scripts/archive_audit_bundle.py:25-30 | an integer reads back as itself in front of any text that does not start with a digit |
| JsonRoundTrip.ParsedIsDict | scripts/archive_audit_bundle.py:136-149 | every parsed value is made of dicts without repeated keys, even when the text repeats them |
| JsonExtension.ValueExtends | scripts/archive_audit_bundle.py:136-149 | a complete value at the front of a text is read the same whatever follows its closing character |
| JsonText.Put | scripts/archive_audit_bundle.py:490-491 | assigning a key of a dict keeps keys unique, adds no key but its own and appends it when it is new |
| JsonText.PutLooksUp | scripts/archive_audit_bundle.py:490-491 | an assigned key reads as its new value, whether it was there or not, and every other key reads as before |
| JsonText.DictOf | scripts/archive_audit_bundle.py:136-149 | an object text with repeated keys becomes a dict with the same keys |
| JsonText.Get | scripts/archive_audit_bundle.py:173-178 | a missing key reads as None and a present one as its value |
| JsonText.DictOfUnique | scripts/archive_audit_bundle.py:136-149 | members with distinct keys are read as they stand, in order |
| JsonLines.LoadJsonlObjects | scripts/archive_audit_bundle.py:136-149 | the loop reads a text as the records of its lines and fails exactly when some line is neither blank nor a JSON object |
| JsonLines.LogRoundTrip | scripts/archive_audit_bundle.py:388-397 | appending any dicts one by one and loading returns exactly those dicts in order |
| JsonLines.AppendThenLoad | scripts/archive_audit_bundle.py:199-203 | after an append to a readable log whose last line is blank, the appended record is the last entry |
| JsonLines.AppendIsSafeExactlyOnABlankLastLine | scripts/archive_audit_bundle.py:388-397 | an append to a readable log is read back as one more record if and only if the last line is blank; otherwise the log no longer loads |
| JsonLines.GluedLineIsInvalid | scripts/archive_audit_bundle.py:136-149 | a line that already holds an object cannot be read once another object follows on it |
| TornLog.CutAppend | scripts/archive_audit_bundle.py:388-397 | a log whose last append was cut after any number of characters, then any whole appends: with nothing or everything written all whole records are read; with only the line break missing they are read until the next append; cut anywhere inside the record the log cannot be read, now or after any append |
| TornLog.CutAppendBytes | scripts/archive_audit_bundle.py:388-397 | the same for the bytes of the log file and a cut after any number of bytes, also inside a UTF-8 sequence |
| TornLog.AppendsDoNotRepair | scripts/archive_audit_bundle.py:136-149 | once a record lands on a line it makes unreadable, no further text makes the log readable |
| TornLog.CutExamples | scripts/archive_audit_bundle.py:388-397 | two concrete logs that fail: one cut inside its record, one that only lost its line break |
| JsonScan.LoadedIsBalanced | scripts/archive_audit_bundle.py:136-149 | a text that loads closes every bracket and string it opens, as a character scanner sees it |
| JsonScan.GluedCutIsUnreadable | scripts/archive_audit_bundle.py:136-149 | a printed object cut inside, with another printed object behind it, is not JSON |
| JsonLines.PrintHasNoBreak | scripts/archive_audit_bundle.py:388-397 | no printed value holds a raw line break, so a record is one line |
| Utf8.RoundTrip | scripts/archive_audit_bundle.py:25-30 | strict decoding undoes encoding |
| Utf8.EncodeInjective | scripts/archive_audit_bundle.py:25-30 | equal bytes mean equal texts |
| Utf8.PublishedExamples | scripts/archive_audit_bundle.py:25-30 | the code points of the examples in section 7 of RFC 3629 have the published bytes, at all four lengths |
| Utf8.CutCharFails | scripts/archive_audit_bundle.py:136-149 | a character cut inside does not decode, at the end of a file or in front of an ASCII character |
| Utf8.DecodeAppend | scripts/archive_audit_bundle.py:388-397 | appending text to a readable file appends exactly that text to what is read |
| PyText.StripSplits | scripts/archive_audit_bundle.py:59-65 | stripping cuts blanks off both ends and leaves nothing more to cut |
| PyText.StripTight | scripts/archive_audit_bundle.py:136-149 | blanks around a text with none at its ends are exactly what stripping removes |
| PyText.ZeroPadValue | scripts/benchmark_pipeline_slo.py:61-68 | zero-padded decimal printing keeps the number readable for every natural number, also beyond the width |
| PyText.DecimalRoundTrip | scripts/archive_audit_bundle.py:25-30 | a printed integer reads back as itself |
| PyText.DigitsSpelled | scripts/archive_audit_bundle.py:25-30 | the last character of a printed number is its last decimal digit and those before it print the rest, with no leading zero |
| PyText.ZeroPadSpelled | scripts/benchmark_pipeline_slo.py:61-68 | padding puts zeros in front of the plain digits up to the width and never cuts |
| PyText.LessIsPrecedes | scripts/archive_audit_bundle.py:25-30 | one string sorts before another exactly when, behind their longest common start, the first has ended or has the smaller code point |
| Dashboard.BuildReleaseOutcomes | scripts/build_observability_dashboard.py:140-175 | one row per tenant in tenant order, with the tenant's counts; last_ts_utc is the maximum timestamp and last_status that of the earliest event attaining it, or of the first event when none is timed |
| Dashboard.LastStep | scripts/build_observability_dashboard.py:140-175 | one more event of a tenant keeps that description of the tenant's latest event |
| Dashboard.OutcomeStep | scripts/build_observability_dashboard.py:140-175 | one more event keeps every tenant's row right: the event's own tenant and all others |
| Dashboard.BuildStageSummary | scripts/build_observability_dashboard.py:79-107 | one row per stage in stage order, each with the stage's own ok, error and unknown counts and their total |
| Dashboard.BuildStageDuration | scripts/build_observability_dashboard.py:110-137 | one row per stage with a timed event, in stage order, over exactly that stage's samples, rounded to three decimals |
| Dashboard.DurationRowsAreOrdered | scripts/build_observability_dashboard.py:110-137 | in every row min <= p50 <= p95 <= max and min <= mean <= max after rounding, over at most as many samples as the stage has events |
| Dashboard.BuildStageTimeline | scripts/build_observability_dashboard.py:54-76 | the rows are a permutation of the event rows: timed rows first, ascending, ties in event order, then untimed rows in event order |
| Dashboard.BuildFailureSummary | scripts/build_observability_dashboard.py:178-200 | the rows are a permutation of the error rows: timed rows first, descending, ties still in event order, then untimed rows in event order |
| Dashboard.TimelineOrder | scripts/build_observability_dashboard.py:54-76 | stably sorting the timed rows and putting the untimed ones behind them gives that order |
| Dashboard.FailureOrder | scripts/build_observability_dashboard.py:178-200 | stably reverse-sorting the timed rows and putting the untimed ones behind them gives that order |
| Dashboard.TimelineIsDetermined | scripts/build_observability_dashboard.py:54-76 | that order allows only one timeline |
| Dashboard.FailuresAreDetermined | scripts/build_observability_dashboard.py:178-200 | that order allows only one failure panel |
| Dashboard.RoundMonotone | scripts/build_observability_dashboard.py:110-137 | rounding to three decimals, half to even, keeps the order of values |
| Dashboard.PanelsAgree | scripts/build_observability_dashboard.py:79-200 | stage totals add up to the events, failure rows to the error column, and tenant counts column by column to the policy_release row |
| DashboardRows.StageRowsMean | scripts/build_observability_dashboard.py:79-107 | a stage row has the number of the stage's events with status ok, error and any other; rows ascend by stage in code-point order; every event's stage has a row |
| DashboardRows.OutcomeRowsMean | scripts/build_observability_dashboard.py:140-175 | a tenant row has the number of the tenant's policy_release events by status; its last timestamp is one that no other of the tenant's comes after, its last status that of the earliest event with it; rows ascend by tenant and every tenant has one |
| DashboardRows.DurationRowsMean | scripts/build_observability_dashboard.py:110-137 | a duration row has the number, least, greatest, mean (total over number), median and 95th percentile of the durations of its stage's timed events, each rounded; rows ascend by stage |
| DashboardRows.RoundIsNear | scripts/build_observability_dashboard.py:110-137 | a rounded value is a whole number of thousandths, at most half a thousandth away, and an even number at exactly half |
| DashboardRows.TimelineColumns | scripts/build_observability_dashboard.py:54-76 | before ordering there is one timeline row per object event, each column its own field of the event |
| DashboardRows.TimelineAscends | scripts/build_observability_dashboard.py:54-76 | in the timeline no later timestamp precedes an earlier one by code points, and untimed rows follow the timed ones |
| DashboardRows.FailureColumns | scripts/build_observability_dashboard.py:178-200 | before ordering there is one failure row per event with status error, each column its own field of the event |
| DashboardRows.FailuresDescend | scripts/build_observability_dashboard.py:178-200 | in the failure panel no earlier timestamp precedes a later one by code points, and untimed rows follow the timed ones |
| DashboardCounts.SumIsCountAll | scripts/build_observability_dashboard.py:79-107 | over any distinct keys that cover the groups the per-key counts add up to the count over all of them |
| DashboardCounts.TenantsCountReleases | scripts/build_observability_dashboard.py:140-175 | the tenant groups together hold exactly the policy_release events |
| DashboardCounts.StageClassesPartition | scripts/build_observability_dashboard.py:79-107 | ok, error and unknown split the events of all stages |
| Percentile.PercentileBounds | scripts/build_observability_dashboard.py:43-51 | a percentile lies between the smallest and the largest value |
| Percentile.PercentileMonotone | scripts/build_observability_dashboard.py:43-51 | a percentile grows with pct over [0,1], across cell boundaries |
| Percentile.PercentilePointwise | scripts/build_observability_dashboard.py:43-51 | raising any values where they stand, sorted or not, never lowers a percentile |
| Percentile.PercentileByRank | scripts/build_observability_dashboard.py:43-51 | data that are larger rank by rank have no lower percentile |
| Percentile.SortedBelow | scripts/build_observability_dashboard.py:43-51 | raising values where they stand raises the sorted values rank by rank |
| Percentile.PercentileIgnoresOrder | scripts/build_observability_dashboard.py:43-51 | a percentile is the same for every permutation of the values |
| Percentile.PercentileInterpolates | scripts/build_observability_dashboard.py:43-51 | between ranks i and i+1 the percentile exceeds the sorted value i by the fraction of the step that (n-1)*pct lies beyond i |
| Percentile.PercentileAtRank | scripts/build_observability_dashboard.py:43-51 | where (n-1)*pct is a rank, the percentile is the sorted value of that rank; one value is every percentile |
| Percentile.InterpolateMonotone | scripts/build_observability_dashboard.py:43-51 | linear interpolation in an ascending list grows with the position |
| StableSort.SortIsStable | scripts/build_observability_dashboard.py:54-76 | sorting gives an ascending permutation in which equal keys keep their order |
| StableSort.SortDescendingIsStable | scripts/build_observability_dashboard.py:178-200 | a reverse sort gives a descending permutation in which equal keys still keep their order |
| StableSort.StableSortIsUnique | scripts/build_observability_dashboard.py:54-76 | an ascending list with given ties is unique, so any stable sort gives this result |
| StableSort.StableDescendingIsUnique | scripts/build_observability_dashboard.py:178-200 | a descending list with given ties is unique too |
| PipelineFixture.BuildFixtureRows | scripts/benchmark_pipeline_slo.py:45-74 | refuses exactly the row counts the source refuses; otherwise both tables have the requested lengths and the rows that RowsSpelled reads column by column, and the sum is that of the shared amounts |
| PipelineFixture.RowsSpelled | scripts/benchmark_pipeline_slo.py:61-72 | shared rows have one address on both sides and client amounts 100, 101, ...; the remaining rows have addresses of their own side and client amounts 1000000, 1000001, ...; every row has the campaign and every server row the event exposure |
| PipelineFixture.EmailsMatchExactlyOnTheOverlap | scripts/benchmark_pipeline_slo.py:45-74 | a row of one side matches a row of the other exactly when both are the same shared row, and no email occurs twice on a side |
| PipelineFixture.JoinHasThePromisedSizeAndSum | scripts/benchmark_pipeline_slo.py:45-74 | the join has exactly overlap_count rows and its client amounts add up to the promised sum, to the separately computed one, and to 100n + n(n-1)/2 |
| PipelineFixture.SumClosedForm | scripts/benchmark_pipeline_slo.py:318 | the separately computed sum is 100n + n(n-1)/2 |
| PipelineFixture.TaggedInjective | scripts/benchmark_pipeline_slo.py:61-71 | an address made from a tag and a padded number gives the number back |
| IdentityBinding.BindQueryRequest | scripts/api_identity.py:574-627 | the overwriting pass grants and refuses as one reading of the submitted request decides, with the same first refusal and the same final payload |
| IdentityBinding.GrantedExactlyWhen | scripts/api_identity.py:574-627 | a request is granted if and only if the identity has a submitter role and, to execute, an executor role, claims no other caller or tenant, and is privileged or is enabled, has both permissions, an admissible dataset, the recovery permission if it uses recovery, and an admissible service; the first of these to fail gives the refusal |
| IdentityBinding.RecoveryMeans | scripts/api_identity.py:561-571 | a request uses record recovery exactly when one of the five recovery fields is not blank or the mode is manual or subprocess |
| IdentityBinding.RequestedMeans | scripts/api_identity.py:541-558 | a requested value is the stripped text of its field; a missing, null or empty one asks for nothing |
| IdentityBinding.BoundToIdentity | scripts/api_identity.py:574-627 | a granted request has the identity's caller and tenant, a dataset and service id from its allow-lists, the recovery permission if it asked for recovery, and every other key as submitted |
| IdentityBinding.BindingTwice | scripts/api_identity.py:574-627 | binding a bound request again changes nothing if and only if each value filled in from a one-element allow-list is all blanks or already stripped, and a filled-in service id may be used; otherwise it is refused |
| IdentityBinding.RebindingCanBeRefused | scripts/api_identity.py:574-627 | a concrete identity whose empty request is granted once and refused when bound again |
| IdentityBinding.BindAllowed | scripts/api_identity.py:541-558 | a value comes back that is on the allow-list, or as asked for when there is no list; refusals are exactly a value off the list and a needed but ambiguous one |
| IdentityBinding.RecoveryOfBound | scripts/api_identity.py:561-571 | a bound request uses record recovery exactly when the submitted one did or a service id was filled in |
| IdentityBinding.ScopeIsOwn | scripts/api_identity.py:489-513 | a scope granted to an unprivileged identity is its own caller and tenant, and asking for it again grants it again |
| IdentityBinding.ScopeGrantedExactlyWhen | scripts/api_identity.py:489-513 | a scope is granted exactly to a privileged identity or for a caller or tenant that is not another's; the granted pair fills in what was left out; the first failing condition gives the refusal |
| IdentityBinding.BoundRequestIsInScope | scripts/api_identity.py:489-513 | the caller and tenant of a bound request pass the identity's own scope check exactly when one of them is set or the identity is privileged |
| BusinessAccess.BuildReport | scripts/check_business_access_policy.py:71-222 | fails exactly on a foreign schema or roles that are no object; otherwise gives the layered decision on every requested field in order, and its counts |
| BusinessAccess.FlattenFieldClasses | scripts/check_business_access_policy.py:32-44 | a field is flattened to a class that lists it and behind which no class lists it; a field that no class lists, or an empty one, is absent |
| BusinessAccess.ClassIsLastListing | scripts/check_business_access_policy.py:32-44 | the class that the decisions use is the last one that lists the field |
| BusinessAccess.ReportDecides | scripts/check_business_access_policy.py:71-222 | a request passes if and only if its role exists, the entity is allowed, a required scope is given, a required relationship matches and a required purpose is listed; the reason is the first of these to fail, and past them the decision is the worst one on a field; the counts are numbers of fields |
| BusinessAccess.FieldAnswer | scripts/check_business_access_policy.py:150-207 | the answer for one field of a request that passes: its class, its decision, the masking text with its default, and the reason |
| BusinessAccess.CountsAreSizes | scripts/check_business_access_policy.py:262-319 | a count is the number of fields with that decision, and the unknown count that of fields without a class |
| BusinessAccess.JoinOfParts | scripts/check_business_access_policy.py:262-319 | the decision for fields A and B together is the stricter of the two, and the counts add and total the number of fields |
| BusinessAccess.StrictestListingWins | scripts/check_business_access_policy.py:150-207 | past the request-level conditions the strictest listing of the field's class wins, and a class in no list is denied |
| BusinessAccess.GateDeniesEverything | scripts/check_business_access_policy.py:225-259 | a request stopped by a request-level condition is denied on every field with that reason; one that passes meets every condition of its role, a required purpose included |
| BusinessAccess.TighteningNeverLowers | scripts/check_business_access_policy.py:71-222 | growing denied classes or shrinking allowed classes or entities never lowers a field's decision or the whole one |
| BusinessAccess.MaskingMoreCanLower | scripts/check_business_access_policy.py:71-222 | growing masked classes lowers a field's decision exactly when its class becomes masked and was denied only for being in no list |
| BusinessAccess.MaskingMoreCanLowerTheReport | scripts/check_business_access_policy.py:262-319 | growing masked classes lowers the decision on a whole request exactly when some field was denied and every denied field's class becomes masked and was in no list |
| BusinessAccess.MaskingCanLower | scripts/check_business_access_policy.py:150-207 | a concrete policy and request whose field goes from deny to mask when its class is listed as masked |
| BusinessAccess.CountsPartition | scripts/check_business_access_policy.py:262-319 | allowed, masked and denied counts total the decisions |
| BusinessAccess.DecisionIsWorst | scripts/check_business_access_policy.py:262-319 | the denied and masked counts are positive exactly when some field has that decision |
| LeakScan.CollectLeaks | scripts/check_audit_api_public_redaction.py:68-79 | the recursive scan reports the path texts of exactly the specified positions, in their order |
| LeakScan.PathTextGrows | scripts/check_audit_api_public_redaction.py:68-79 | the text of a position is its parent's text followed by a dot and the key in an object, and by the index in brackets in a list |
| LeakScan.ReportedExactlyTheLeaks | scripts/check_audit_api_public_redaction.py:68-79 | a position is reported exactly when it is in the tree, at any depth, and its key is forbidden, also below another forbidden key |
| LeakScan.ReportedInPreorder | scripts/check_audit_api_public_redaction.py:68-79 | positions are reported in strict preorder of the tree |
| LeakScan.ReportedOnce | scripts/check_audit_api_public_redaction.py:68-79 | no position is reported twice |
| LeakScan.ValidatePublicView | scripts/check_audit_api_public_redaction.py:91-109 | a view with a foreign schema is refused; otherwise status is ok exactly when no forbidden position exists at any depth |
| LeakScan.PayloadChosen | scripts/check_audit_api_public_redaction.py:82-88 | an object whose schema names the query envelope is checked through its result, which must be an object; every other object is checked itself |
| EvidenceManifest.ManifestRoundTrip | scripts/archive_ecommerce_live_evidence.py:143-147 | a manifest over a list of any length reads back as that list when paths hold no NUL and digests are hex |
| EvidenceManifest.ManifestGrows | scripts/archive_ecommerce_live_evidence.py:143-147 | each further artifact adds its path, a NUL, its digest and a line break |
| EvidenceManifest.AggregateIdentifiesArtifacts | scripts/archive_ecommerce_live_evidence.py:143-147 | equal aggregate digests mean equal artifact lists, or the two manifests are a digest collision |

## Left out

- Real SHA-256, HMAC and hash strength: both are arbitrary functions; a collision is exhibited, never excluded.
- Non-atomic copies and appends in the step machine: each is one step. An append cut off after any number of bytes is treated in TornLog.
- The check-then-copy race of copy_if_missing between processes: checking and copying are one step.
- Symbolic links, existing directories, permissions and makedirs: a file system is a map from normalised paths to bytes, and a name with a `..` hop is opened as its abspath even where a directory it passes through is missing.
- A path that starts with exactly two slashes keeps both in abspath; the model has one root.
- verify_audit_bundle, the tenant ids collected from an audit chain and the contract summary: their results are inputs of a run.
- Clocks: both timestamps of a run are inputs.
- Floats, NaN and infinities in JSON: numbers are integers. A surrogate pair written as two \u escapes, and a byte order mark, are refused where the source reads them.
- A tip entry whose entry_sha256 is a list or dict, or whose chain_position is a string, list or dict: the run fails in the model, while int() may accept a digit string.
- Error message texts, and line numbers in them: the kind of failure is modelled.
- A carriage return and line feed pair ends two lines in the model, the second empty; the loader skips it.
- ArchiveDisk.Disk.ArchiveBundle: one run at a time on the mutable disk; interleavings are proved on the step machine and on maps of file bytes (InterleavingsOnDisk).
- Percentile.PercentileBounds: exact reals; floating-point error and NaN durations are not modelled.
- Dashboard.BuildStageDuration: durations are exact reals, and rounding is half to even on them; a boolean duration, which Python counts as a number, is not modelled.
- Dashboard.BuildStageTimeline: timestamps and stage names are strings or absent; values of other types, which the sort may refuse, are not.
- Report headers, file reading and build_health_summary of the dashboard.
- IdentityBinding.BindQueryRequest: the text of a non-empty list or dict given for a string field is an arbitrary function of the value.
- metadata_scope_filters in api_identity.py: for most entities it accepts another caller than the identity's, so no such claim holds.
- Identity resolution (tokens, sessions, OIDC claims, SQL): the resolved identity is an input.
- BusinessAccess.BuildReport: parsing of the policy file and of --scope arguments is left out; policy and request are values.
- LeakScan.CollectLeaks: positions are child indices; two positions can have the same path text, so uniqueness is stated on positions.
- Copying live artifacts and listing the directory for the manifest: the sorted artifact list is an input.
- The other benchmark stages, smoke scripts, HTTP servers, subprocesses and the Rust, PJC and SSE components.
