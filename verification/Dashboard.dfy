/** The dashboard panels of build_observability_dashboard.py: one pass over the events each, and the facts
    that must agree between them. */
module Dashboard {
  import opened PyText
  import opened StableSort
  import opened DashboardCounts
  import P = Percentile

  function Same(k: string): string { k }

  /** sorted(dict): the dict's keys in order. */
  function SortedKeys(g: Grouping, events: seq<Event>): seq<string> { Sort(Keys(g, events), Same) }

  // ----- stage_summary -----

  datatype SummaryRow = SummaryRow(stage: string, ok: nat, error: nat, unknown: nat, total: nat)
  datatype Tally = Tally(ok: nat, error: nat, unknown: nat)

  function Bump(t: Tally, c: Class): Tally {
    match c
    case IsOk => t.(ok := t.ok + 1)
    case IsError => t.(error := t.error + 1)
    case IsUnknown => t.(unknown := t.unknown + 1)
  }

  predicate TallyOk(t: Tally, g: Grouping, events: seq<Event>, key: string) {
    && t.ok == Count(g, events, key, IsOk) && t.error == Count(g, events, key, IsError)
    && t.unknown == Count(g, events, key, IsUnknown)
  }

  /** One row per stage in stage order, each with the stage's own counts. */
  predicate SummaryOk(rows: seq<SummaryRow>, events: seq<Event>) {
    && |rows| == |SortedKeys(ByStage, events)|
    && forall i :: 0 <= i < |rows| ==>
         && rows[i].stage == SortedKeys(ByStage, events)[i]
         && TallyOk(Tally(rows[i].ok, rows[i].error, rows[i].unknown), ByStage, events, rows[i].stage)
         && rows[i].total == rows[i].ok + rows[i].error + rows[i].unknown
  }

  lemma CountStep(g: Grouping, events: seq<Event>, i: nat, key: string, c: Class)
    requires i < |events|
    ensures Count(g, events[..i + 1], key, c) ==
            Count(g, events[..i], key, c) + (if Counted(g, events[i], key, c) then 1 else 0)
  {
    assert events[..i + 1][..i] == events[..i];
  }

  lemma KeysStep(g: Grouping, events: seq<Event>, i: nat)
    requires i < |events|
    ensures var before := Keys(g, events[..i]);
            Keys(g, events[..i + 1]) ==
            match GroupOf(g, events[i])
            case None => before
            case Some(k) => if k in before then before else before + [k]
  {
    assert events[..i + 1][..i] == events[..i];
  }

  lemma TallyStep(t: Tally, g: Grouping, events: seq<Event>, i: nat, key: string)
    requires i < |events| && TallyOk(t, g, events[..i], key)
    ensures GroupOf(g, events[i]) == Some(key) ==> TallyOk(Bump(t, ClassOf(events[i])), g, events[..i + 1], key)
    ensures GroupOf(g, events[i]) != Some(key) ==> TallyOk(t, g, events[..i + 1], key)
  {
    hide Count, GroupOf, ClassOf;
    CountStep(g, events, i, key, IsOk);
    CountStep(g, events, i, key, IsError);
    CountStep(g, events, i, key, IsUnknown);
  }

  lemma {:induction false} NewKeyCountsNothing(g: Grouping, events: seq<Event>, key: string, c: Class)
    requires key !in Keys(g, events)
    ensures Count(g, events, key, c) == 0
  {
    hide GroupOf, ClassOf;
    if events != [] {
      assert events[|events| - 1] == events[..][|events| - 1];
      NewKeyCountsNothing(g, events[..|events| - 1], key, c);
    }
  }

  /** by_stage (or by_tenant) after some events: its keys in first-seen order, and each key's own tallies. */
  ghost predicate TalliesOk(tallies: map<string, Tally>, keys: seq<string>, g: Grouping, events: seq<Event>) {
    && keys == Keys(g, events) && (forall k :: k in tallies <==> k in keys)
    && forall k :: k in tallies ==> TallyOk(tallies[k], g, events, k)
  }

  lemma TalliesStep(tallies: map<string, Tally>, keys: seq<string>, g: Grouping, events: seq<Event>, i: nat)
    requires i < |events| && TalliesOk(tallies, keys, g, events[..i])
    ensures match GroupOf(g, events[i])
            case None => TalliesOk(tallies, keys, g, events[..i + 1])
            case Some(k) =>
              var t := if k in tallies then tallies[k] else Tally(0, 0, 0);
              && events[i].Event?
              && TalliesOk(tallies[k := Bump(t, ClassOf(events[i]))], if k in tallies then keys else keys + [k],
                           g, events[..i + 1])
  {
    hide Count, Keys, GroupOf, ClassOf, TallyOk, Bump;
    KeysStep(g, events, i);
    if GroupOf(g, events[i]).Some? { GroupedIsEvent(g, events[i]); }
    forall k | k in tallies
      ensures GroupOf(g, events[i]) == Some(k) ==> TallyOk(Bump(tallies[k], ClassOf(events[i])), g, events[..i + 1], k)
      ensures GroupOf(g, events[i]) != Some(k) ==> TallyOk(tallies[k], g, events[..i + 1], k)
    {
      TallyStep(tallies[k], g, events, i, k);
    }
    if GroupOf(g, events[i]).Some? && GroupOf(g, events[i]).value !in tallies {
      NewTally(g, events[..i], GroupOf(g, events[i]).value);
      TallyStep(Tally(0, 0, 0), g, events, i, GroupOf(g, events[i]).value);
    }
  }

  method BuildStageSummary(events: seq<Event>) returns (rows: seq<SummaryRow>)
    ensures SummaryOk(rows, events)
  {
    hide Count, Keys, Sort, GroupOf, ClassOf, TallyOk, TalliesOk, Bump;
    var stages: seq<string> := [];
    var byStage: map<string, Tally> := map[];
    assert TalliesOk(byStage, stages, ByStage, events[..0]) by { NoTallies(ByStage, events); }
    for i := 0 to |events|
      invariant TalliesOk(byStage, stages, ByStage, events[..i])
    {
      var group := GroupOf(ByStage, events[i]);
      TalliesStep(byStage, stages, ByStage, events, i);
      if group.Some? {
        ghost var t := if group.value in byStage then byStage[group.value] else Tally(0, 0, 0);
        ghost var bumped := byStage[group.value := Bump(t, ClassOf(events[i]))];
        if group.value !in byStage {
          stages := stages + [group.value];
          byStage := byStage[group.value := Tally(0, 0, 0)];
        }
        byStage := byStage[group.value := Bump(byStage[group.value], ClassOf(events[i]))];
        assert byStage == bumped;
      }
    }
    assert events[..|events|] == events;
    rows := RowsOfTallies(byStage, stages, events);
  }

  /** [... for stage, counts in sorted(by_stage.items())] */
  method RowsOfTallies(byStage: map<string, Tally>, stages: seq<string>, events: seq<Event>)
    returns (rows: seq<SummaryRow>)
    requires TalliesOk(byStage, stages, ByStage, events)
    ensures SummaryOk(rows, events)
  {
    hide Count, Keys, Sort;
    SortKeepsKeys(stages);
    var ordered := Sort(stages, Same);
    rows := [];
    for i := 0 to |ordered|
      invariant |rows| == i
      invariant forall j :: 0 <= j < i ==>
        && rows[j].stage == ordered[j]
        && TallyOk(Tally(rows[j].ok, rows[j].error, rows[j].unknown), ByStage, events, rows[j].stage)
        && rows[j].total == rows[j].ok + rows[j].error + rows[j].unknown
    {
      assert ordered[i] in ordered;
      var t := byStage[ordered[i]];
      rows := rows + [SummaryRow(ordered[i], t.ok, t.error, t.unknown, t.ok + t.error + t.unknown)];
    }
  }

  lemma NoTallies(g: Grouping, events: seq<Event>)
    ensures TalliesOk(map[], [], g, events[..0])
  {
    NoKeys(g, events);
  }

  lemma NoKeys(g: Grouping, events: seq<Event>)
    ensures Keys(g, events[..0]) == []
  {
  }

  lemma GroupedIsEvent(g: Grouping, e: Event)
    requires GroupOf(g, e).Some?
    ensures e.Event?
  {
  }

  lemma NewTally(g: Grouping, events: seq<Event>, key: string)
    requires key !in Keys(g, events)
    ensures TallyOk(Tally(0, 0, 0), g, events, key)
  {
    hide Keys, Count;
    NewKeyCountsNothing(g, events, key, IsOk);
    NewKeyCountsNothing(g, events, key, IsError);
    NewKeyCountsNothing(g, events, key, IsUnknown);
  }

  lemma {:induction false} SortKeepsKeys(keys: seq<string>)
    ensures forall k :: k in Sort(keys, Same) <==> k in keys
    ensures NoDuplicates(keys) ==> NoDuplicates(Sort(keys, Same))
    ensures |Sort(keys, Same)| == |keys|
  {
    if keys != [] {
      SortKeepsKeys(keys[1..]);
      assert keys == [keys[0]] + keys[1..];
      InsertKeepsDistinct(keys[0], Sort(keys[1..], Same));
    }
  }

  lemma {:induction false} InsertKeepsDistinct(k: string, keys: seq<string>)
    ensures |Insert(k, keys, Same)| == |keys| + 1
    ensures NoDuplicates(keys) && k !in keys ==> NoDuplicates(Insert(k, keys, Same))
  {
    if keys != [] && Less(keys[0], k) {
      InsertKeepsDistinct(k, keys[1..]);
      assert keys == [keys[0]] + keys[1..];
      var rest := Insert(k, keys[1..], Same);
      assert forall j :: 0 <= j < |rest| ==> rest[j] in rest;
    }
  }

  // ----- release_outcomes -----

  datatype Outcome = Outcome(tenantId: string, tally: Tally, lastStatus: Option<string>, lastTs: Option<string>)

  predicate OfTenant(e: Event, tenant: string) { e.Event? && GroupOf(ByTenant, e) == Some(tenant) }

  /** The earliest of the tenant's events that carry the tenant's greatest timestamp. */
  predicate IsLatest(events: seq<Event>, tenant: string, j: nat) {
    && j < |events| && OfTenant(events[j], tenant) && events[j].tsUtc.Some?
    && forall i :: 0 <= i < |events| && OfTenant(events[i], tenant) && events[i].tsUtc.Some? ==>
         && !Less(events[j].tsUtc.value, events[i].tsUtc.value)
         && (i < j ==> Less(events[i].tsUtc.value, events[j].tsUtc.value))
  }

  predicate IsFirst(events: seq<Event>, tenant: string, j: nat) {
    && j < |events| && OfTenant(events[j], tenant)
    && forall i :: 0 <= i < j ==> !OfTenant(events[i], tenant)
  }

  predicate HasTimed(events: seq<Event>, tenant: string) {
    exists i :: 0 <= i < |events| && OfTenant(events[i], tenant) && events[i].tsUtc.Some?
  }

  /** last_ts_utc is the greatest timestamp and last_status the status of the earliest event that has it;
      with no timestamp at all, last_status is that of the tenant's first event. */
  ghost predicate LastOk(o: Outcome, events: seq<Event>, tenant: string) {
    if HasTimed(events, tenant) then
      exists j: nat ::
        IsLatest(events, tenant, j) && o.lastTs == events[j].tsUtc && o.lastStatus == Some(StatusOf(events[j]))
    else
      exists j: nat :: IsFirst(events, tenant, j) && o.lastTs == None && o.lastStatus == Some(StatusOf(events[j]))
  }

  /** One event of the tenant, as the loop body applies it. */
  function Record(o: Outcome, e: Event): Outcome
    requires e.Event?
  {
    var counted := o.(tally := Bump(o.tally, ClassOf(e)));
    if e.tsUtc.Some? then
      if o.lastTs.None? || Less(o.lastTs.value, e.tsUtc.value)
      then counted.(lastTs := e.tsUtc, lastStatus := Some(StatusOf(e)))
      else counted
    else if o.lastStatus.None? then counted.(lastStatus := Some(StatusOf(e)))
    else counted
  }

  function NewOutcome(tenant: string): Outcome { Outcome(tenant, Tally(0, 0, 0), None, None) }

  ghost predicate OutcomeOk(o: Outcome, events: seq<Event>, tenant: string) {
    && o.tenantId == tenant && TallyOk(o.tally, ByTenant, events, tenant)
    && (if tenant in Keys(ByTenant, events) then LastOk(o, events, tenant)
        else o.lastTs == None && o.lastStatus == None)
  }

  /** A later event that is not the tenant's leaves what is said of the tenant. */
  lemma LastKept(o: Outcome, events: seq<Event>, i: nat, tenant: string)
    requires i < |events| && LastOk(o, events[..i], tenant) && !OfTenant(events[i], tenant)
    ensures LastOk(o, events[..i + 1], tenant)
  {
    hide GroupOf, StatusOf;
    var a, b := events[..i], events[..i + 1];
    assert forall k :: 0 <= k < i ==> b[k] == a[k];
    assert b[i] == events[i];
    if HasTimed(a, tenant) {
      var j: nat :| IsLatest(a, tenant, j) && o.lastTs == a[j].tsUtc && o.lastStatus == Some(StatusOf(a[j]));
      assert IsLatest(b, tenant, j);
    } else {
      var j: nat :| IsFirst(a, tenant, j) && o.lastTs == None && o.lastStatus == Some(StatusOf(a[j]));
      assert IsFirst(b, tenant, j);
      assert !HasTimed(b, tenant);
    }
  }

  /** An event of a tenant already seen. */
  lemma LastStep(o: Outcome, events: seq<Event>, i: nat, tenant: string)
    requires i < |events| && LastOk(o, events[..i], tenant) && OfTenant(events[i], tenant) && events[i].Event?
    ensures LastOk(Record(o, events[i]), events[..i + 1], tenant)
  {
    hide GroupOf, StatusOf, ClassOf, Bump;
    var a, b := events[..i], events[..i + 1];
    var r := Record(o, events[i]);
    assert forall k :: 0 <= k < i ==> b[k] == a[k];
    assert b[i] == events[i];
    if HasTimed(a, tenant) {
      var j: nat :| IsLatest(a, tenant, j) && o.lastTs == a[j].tsUtc && o.lastStatus == Some(StatusOf(a[j]));
      assert OfTenant(b[j], tenant) && b[j].tsUtc.Some?;
      if events[i].tsUtc.Some? && Less(a[j].tsUtc.value, events[i].tsUtc.value) {
        LatestMoves(events, i, tenant, j);
      } else {
        LatestStays(events, i, tenant, j);
      }
    } else {
      var j: nat :| IsFirst(a, tenant, j) && o.lastTs == None && o.lastStatus == Some(StatusOf(a[j]));
      if events[i].tsUtc.Some? {
        assert IsLatest(b, tenant, i) by { LessTotal(events[i].tsUtc.value, events[i].tsUtc.value); }
        assert HasTimed(b, tenant);
      } else {
        assert IsFirst(b, tenant, j);
        assert !HasTimed(b, tenant);
      }
    }
  }

  lemma LatestMoves(events: seq<Event>, i: nat, tenant: string, j: nat)
    requires i < |events| && IsLatest(events[..i], tenant, j) && OfTenant(events[i], tenant) && events[i].tsUtc.Some?
    requires Less(events[j].tsUtc.value, events[i].tsUtc.value)
    ensures IsLatest(events[..i + 1], tenant, i) && HasTimed(events[..i + 1], tenant)
  {
    hide GroupOf;
    var a, b := events[..i], events[..i + 1];
    var t := events[i].tsUtc.value;
    LessTotal(t, t);
    forall k | 0 <= k < i && OfTenant(b[k], tenant) && b[k].tsUtc.Some?
      ensures !Less(t, b[k].tsUtc.value) && Less(b[k].tsUtc.value, t)
    {
      assert b[k] == a[k];
      LessTotal(a[j].tsUtc.value, a[k].tsUtc.value);
      if a[k].tsUtc.value != a[j].tsUtc.value { LessTransitive(a[k].tsUtc.value, a[j].tsUtc.value, t); }
      LessTotal(t, a[k].tsUtc.value);
    }
    assert b[i] == events[i];
  }

  lemma LatestStays(events: seq<Event>, i: nat, tenant: string, j: nat)
    requires i < |events| && IsLatest(events[..i], tenant, j)
    requires events[i].Event? && events[i].tsUtc.Some? ==> !Less(events[j].tsUtc.value, events[i].tsUtc.value)
    requires OfTenant(events[i], tenant) ==> events[i].Event?
    ensures IsLatest(events[..i + 1], tenant, j) && HasTimed(events[..i + 1], tenant)
  {
    hide GroupOf;
    var a, b := events[..i], events[..i + 1];
    assert forall k :: 0 <= k < i ==> b[k] == a[k];
    assert b[i] == events[i];
  }

  /** A tenant's first event. */
  lemma LastBegins(o: Outcome, events: seq<Event>, i: nat, tenant: string)
    requires i < |events| && events[i].Event? && OfTenant(events[i], tenant) && o.lastTs == None && o.lastStatus == None
    requires forall k :: 0 <= k < i ==> !OfTenant(events[k], tenant)
    ensures LastOk(Record(o, events[i]), events[..i + 1], tenant)
  {
    hide GroupOf, StatusOf, ClassOf, Bump;
    var b := events[..i + 1];
    assert b[i] == events[i];
    if events[i].tsUtc.Some? {
      LessTotal(events[i].tsUtc.value, events[i].tsUtc.value);
      assert IsLatest(b, tenant, i);
      assert HasTimed(b, tenant);
    } else {
      assert IsFirst(b, tenant, i);
      assert !HasTimed(b, tenant);
    }
  }

  lemma OutcomeStep(o: Outcome, events: seq<Event>, i: nat, tenant: string)
    requires i < |events| && OutcomeOk(o, events[..i], tenant)
    ensures OfTenant(events[i], tenant) ==> events[i].Event? && OutcomeOk(Record(o, events[i]), events[..i + 1], tenant)
    ensures !OfTenant(events[i], tenant) ==> OutcomeOk(o, events[..i + 1], tenant)
  {
    hide Count, Keys, GroupOf, LastOk, ClassOf, Bump, TallyOk, StatusOf;
    TallyStep(o.tally, ByTenant, events, i, tenant);
    KeysStep(ByTenant, events, i);
    if GroupOf(ByTenant, events[i]).Some? { GroupedIsEvent(ByTenant, events[i]); }
    if OfTenant(events[i], tenant) {
      GroupedIsEvent(ByTenant, events[i]);
      if tenant in Keys(ByTenant, events[..i]) {
        LastStep(o, events, i, tenant);
      } else {
        forall k | 0 <= k < i ensures !OfTenant(events[k], tenant) {
          assert events[..i][k] == events[k];
        }
        LastBegins(o, events, i, tenant);
      }
    } else if tenant in Keys(ByTenant, events[..i]) {
      LastKept(o, events, i, tenant);
    }
  }

  /** One row per tenant in tenant order, each satisfying the declarative description. */
  ghost predicate OutcomesOk(rows: seq<Outcome>, events: seq<Event>) {
    && |rows| == |SortedKeys(ByTenant, events)|
    && forall i :: 0 <= i < |rows| ==>
         && rows[i].tenantId == SortedKeys(ByTenant, events)[i]
         && TallyOk(rows[i].tally, ByTenant, events, rows[i].tenantId)
         && LastOk(rows[i], events, rows[i].tenantId)
  }

  /** by_tenant after some events: its keys in first-seen order, and each tenant's own row. */
  ghost predicate TenantsOk(byTenant: map<string, Outcome>, tenants: seq<string>, events: seq<Event>) {
    && tenants == Keys(ByTenant, events) && (forall k :: k in byTenant <==> k in tenants)
    && forall k :: k in byTenant ==> OutcomeOk(byTenant[k], events, k)
  }

  lemma TenantsStep(byTenant: map<string, Outcome>, tenants: seq<string>, events: seq<Event>, i: nat)
    requires i < |events| && TenantsOk(byTenant, tenants, events[..i])
    ensures match GroupOf(ByTenant, events[i])
            case None => TenantsOk(byTenant, tenants, events[..i + 1])
            case Some(k) =>
              var o := if k in byTenant then byTenant[k] else NewOutcome(k);
              && events[i].Event?
              && TenantsOk(byTenant[k := Record(o, events[i])], if k in byTenant then tenants else tenants + [k],
                           events[..i + 1])
  {
    hide Keys, GroupOf, OutcomeOk, Record;
    KeysStep(ByTenant, events, i);
    var group := GroupOf(ByTenant, events[i]);
    if group.Some? { GroupedIsEvent(ByTenant, events[i]); }
    forall k | k in byTenant
      ensures group == Some(k) ==> OutcomeOk(Record(byTenant[k], events[i]), events[..i + 1], k)
      ensures group != Some(k) ==> OutcomeOk(byTenant[k], events[..i + 1], k)
    {
      OutcomeStep(byTenant[k], events, i, k);
    }
    if group.Some? && group.value !in byTenant {
      NewOutcomeOk(events[..i], group.value);
      OutcomeStep(NewOutcome(group.value), events, i, group.value);
    }
  }

  lemma NoTenants(events: seq<Event>)
    ensures TenantsOk(map[], [], events[..0])
  {
    NoKeys(ByTenant, events);
  }

  method BuildReleaseOutcomes(events: seq<Event>) returns (rows: seq<Outcome>)
    ensures OutcomesOk(rows, events)
  {
    hide Keys, Sort, GroupOf, Record, TenantsOk, NewOutcome;
    var tenants: seq<string> := [];
    var byTenant: map<string, Outcome> := map[];
    assert TenantsOk(byTenant, tenants, events[..0]) by { NoTenants(events); }
    for i := 0 to |events|
      invariant TenantsOk(byTenant, tenants, events[..i])
    {
      var group := GroupOf(ByTenant, events[i]);
      TenantsStep(byTenant, tenants, events, i);
      if group.Some? {
        ghost var o := if group.value in byTenant then byTenant[group.value] else NewOutcome(group.value);
        ghost var recorded := byTenant[group.value := Record(o, events[i])];
        if group.value !in byTenant {
          tenants := tenants + [group.value];
          byTenant := byTenant[group.value := NewOutcome(group.value)];
        }
        byTenant := byTenant[group.value := Record(byTenant[group.value], events[i])];
        assert byTenant == recorded;
      }
    }
    assert events[..|events|] == events;
    rows := RowsOfTenants(byTenant, tenants, events);
  }

  /** [... for tenant in sorted(by_tenant)] */
  method RowsOfTenants(byTenant: map<string, Outcome>, tenants: seq<string>, events: seq<Event>)
    returns (rows: seq<Outcome>)
    requires TenantsOk(byTenant, tenants, events)
    ensures OutcomesOk(rows, events)
  {
    hide Keys, Sort, TallyOk, LastOk, OutcomeOk;
    SortKeepsKeys(tenants);
    var ordered := Sort(tenants, Same);
    rows := [];
    for i := 0 to |ordered|
      invariant |rows| == i
      invariant forall j :: 0 <= j < i ==>
        && rows[j].tenantId == ordered[j]
        && TallyOk(rows[j].tally, ByTenant, events, rows[j].tenantId) && LastOk(rows[j], events, rows[j].tenantId)
    {
      assert ordered[i] in ordered;
      SeenOutcome(byTenant[ordered[i]], events, ordered[i]);
      rows := rows + [byTenant[ordered[i]]];
    }
  }

  lemma NewOutcomeOk(events: seq<Event>, tenant: string)
    requires tenant !in Keys(ByTenant, events)
    ensures OutcomeOk(NewOutcome(tenant), events, tenant)
  {
    hide Keys, TallyOk;
    NewTally(ByTenant, events, tenant);
  }

  lemma SeenOutcome(o: Outcome, events: seq<Event>, tenant: string)
    requires OutcomeOk(o, events, tenant) && tenant in Keys(ByTenant, events)
    ensures o.tenantId == tenant && TallyOk(o.tally, ByTenant, events, tenant) && LastOk(o, events, tenant)
  {
    hide Keys, TallyOk, LastOk;
  }

  // ----- stage_duration -----

  /** The duration samples of one stage, in event order. */
  function Samples(events: seq<Event>, stage: string): seq<real> {
    if events == [] then []
    else
      var last := events[|events| - 1];
      Samples(events[..|events| - 1], stage)
      + (if GroupOf(ByTimedStage, last) == Some(stage) then [last.durationMs.value] else [])
  }

  function Minimum(xs: seq<real>): (m: real)
    requires xs != []
    ensures m in xs && forall x :: x in xs ==> m <= x
  {
    if |xs| == 1 then xs[0]
    else
      assert xs == [xs[0]] + xs[1..];
      var rest := Minimum(xs[1..]);
      if xs[0] <= rest then xs[0] else rest
  }

  function Maximum(xs: seq<real>): (m: real)
    requires xs != []
    ensures m in xs && forall x :: x in xs ==> x <= m
  {
    if |xs| == 1 then xs[0]
    else
      assert xs == [xs[0]] + xs[1..];
      var rest := Maximum(xs[1..]);
      if xs[0] >= rest then xs[0] else rest
  }

  function Sum(xs: seq<real>): real { if xs == [] then 0.0 else xs[0] + Sum(xs[1..]) }

  datatype DurationRow = DurationRow(stage: string, sampleCount: nat, minMs: real, meanMs: real,
                                     p50Ms: real, p95Ms: real, maxMs: real)

  /** The whole number nearest to a value; of two equally near the even one. */
  function Nearest(y: real): int {
    var n := y.Floor;
    var f := y - n as real;
    if f < 0.5 || (f == 0.5 && n % 2 == 0) then n else n + 1
  }

  /** round(x, 3) */
  function Round3(x: real): real { Nearest(x * 1000.0) as real / 1000.0 }

  lemma RoundMonotone(x: real, y: real)
    requires x <= y
    ensures Round3(x) <= Round3(y)
  {
    var a, b := x * 1000.0, y * 1000.0;
    assert a.Floor <= b.Floor;
    assert Nearest(a) <= Nearest(b);
  }

  /** The statistics of one stage. */
  function DurationOf(stage: string, samples: seq<real>): DurationRow
    requires samples != []
  {
    DurationRow(stage, |samples|, Round3(Minimum(samples)), Round3(Sum(samples) / |samples| as real),
                Round3(P.Percentile(samples, 0.5)), Round3(P.Percentile(samples, 0.95)), Round3(Maximum(samples)))
  }

  predicate DurationsOk(rows: seq<DurationRow>, events: seq<Event>) {
    && |rows| == |SortedKeys(ByTimedStage, events)|
    && forall i :: 0 <= i < |rows| ==>
         var stage := SortedKeys(ByTimedStage, events)[i];
         Samples(events, stage) != [] && rows[i] == DurationOf(stage, Samples(events, stage))
  }

  lemma SamplesStep(events: seq<Event>, i: nat, stage: string)
    requires i < |events|
    ensures Samples(events[..i + 1], stage) ==
            Samples(events[..i], stage)
            + (if GroupOf(ByTimedStage, events[i]) == Some(stage) then [events[i].durationMs.value] else [])
  {
    assert events[..i + 1][..i] == events[..i];
  }

  /** A stage has as many samples as timed events, so none exactly when it has no timed event. */
  lemma {:induction false} SamplesCount(events: seq<Event>, stage: string)
    ensures |Samples(events, stage)| == Total(ByTimedStage, events, stage)
    ensures Samples(events, stage) != [] <==> stage in Keys(ByTimedStage, events)
  {
    if events != [] {
      SamplesCount(events[..|events| - 1], stage);
      var last := events[|events| - 1];
      if GroupOf(ByTimedStage, last) == Some(stage) {
        assert ClassOf(last) in [IsOk, IsError, IsUnknown];
      }
    }
  }

  /** by_stage after some events: its keys in first-seen order, and each stage's own samples. */
  ghost predicate SamplesOk(byStage: map<string, seq<real>>, stages: seq<string>, events: seq<Event>) {
    && stages == Keys(ByTimedStage, events) && (forall k :: k in byStage <==> k in stages)
    && forall k :: k in byStage ==> byStage[k] == Samples(events, k)
  }

  lemma SamplesOkStep(byStage: map<string, seq<real>>, stages: seq<string>, events: seq<Event>, i: nat)
    requires i < |events| && SamplesOk(byStage, stages, events[..i])
    ensures match GroupOf(ByTimedStage, events[i])
            case None => SamplesOk(byStage, stages, events[..i + 1])
            case Some(k) =>
              var xs := if k in byStage then byStage[k] else [];
              && events[i].Event? && events[i].durationMs.Some?
              && SamplesOk(byStage[k := xs + [events[i].durationMs.value]],
                           if k in byStage then stages else stages + [k], events[..i + 1])
  {
    hide Keys, GroupOf, Samples;
    KeysStep(ByTimedStage, events, i);
    var group := GroupOf(ByTimedStage, events[i]);
    if group.Some? { TimedIsEvent(events[i]); }
    forall k | k in byStage
      ensures Samples(events[..i + 1], k) ==
              byStage[k] + (if group == Some(k) then [events[i].durationMs.value] else [])
    {
      SamplesStep(events, i, k);
    }
    forall k | k in byStage && group != Some(k) ensures Samples(events[..i + 1], k) == byStage[k] {
      assert byStage[k] + [] == byStage[k];
    }
    if group.Some? && group.value !in byStage {
      SamplesCount(events[..i], group.value);
      SamplesStep(events, i, group.value);
    }
  }

  lemma NoSamples(events: seq<Event>)
    ensures SamplesOk(map[], [], events[..0])
  {
    NoKeys(ByTimedStage, events);
  }

  method BuildStageDuration(events: seq<Event>) returns (rows: seq<DurationRow>)
    ensures DurationsOk(rows, events)
  {
    hide Keys, Sort, GroupOf, Samples, DurationOf, SamplesOk;
    var stages: seq<string> := [];
    var byStage: map<string, seq<real>> := map[];
    assert SamplesOk(byStage, stages, events[..0]) by { NoSamples(events); }
    for i := 0 to |events|
      invariant SamplesOk(byStage, stages, events[..i])
    {
      var group := GroupOf(ByTimedStage, events[i]);
      SamplesOkStep(byStage, stages, events, i);
      if group.Some? {
        ghost var xs := if group.value in byStage then byStage[group.value] else [];
        ghost var extended := byStage[group.value := xs + [events[i].durationMs.value]];
        if group.value !in byStage {
          stages := stages + [group.value];
          byStage := byStage[group.value := []];
        }
        byStage := byStage[group.value := byStage[group.value] + [events[i].durationMs.value]];
        assert byStage == extended;
      }
    }
    assert events[..|events|] == events;
    rows := RowsOfSamples(byStage, stages, events);
  }

  /** [... for stage, durations in sorted(by_stage.items())] */
  method RowsOfSamples(byStage: map<string, seq<real>>, stages: seq<string>, events: seq<Event>)
    returns (rows: seq<DurationRow>)
    requires SamplesOk(byStage, stages, events)
    ensures DurationsOk(rows, events)
  {
    hide Keys, Sort, GroupOf, Samples, DurationOf;
    SortKeepsKeys(stages);
    var ordered := Sort(stages, Same);
    rows := [];
    for i := 0 to |ordered|
      invariant |rows| == i
      invariant forall j :: 0 <= j < i ==>
        Samples(events, ordered[j]) != [] && rows[j] == DurationOf(ordered[j], Samples(events, ordered[j]))
    {
      assert ordered[i] in ordered;
      SamplesCount(events, ordered[i]);
      rows := rows + [DurationOf(ordered[i], byStage[ordered[i]])];
    }
  }

  lemma TimedIsEvent(e: Event)
    requires GroupOf(ByTimedStage, e).Some?
    ensures e.Event? && e.durationMs.Some?
  {
  }

  lemma {:induction false} SumBounds(xs: seq<real>, lo: real, hi: real)
    requires forall x :: x in xs ==> lo <= x <= hi
    ensures |xs| as real * lo <= Sum(xs) <= |xs| as real * hi
  {
    if xs != [] {
      assert xs[0] in xs && forall x :: x in xs[1..] ==> x in xs;
      SumBounds(xs[1..], lo, hi);
      assert |xs| as real * lo == |xs[1..]| as real * lo + lo;
      assert |xs| as real * hi == |xs[1..]| as real * hi + hi;
    }
  }

  lemma MeanBounds(xs: seq<real>)
    requires xs != []
    ensures Minimum(xs) <= Sum(xs) / |xs| as real <= Maximum(xs)
  {
    hide Sum, Minimum, Maximum;
    SumBounds(xs, Minimum(xs), Maximum(xs));
    QuotientBounds(Sum(xs), |xs| as real, Minimum(xs), Maximum(xs));
  }

  lemma QuotientBounds(s: real, n: real, lo: real, hi: real)
    requires n > 0.0 && n * lo <= s <= n * hi
    ensures lo <= s / n <= hi
  {
    var q := s / n;
    assert n * q == s;
    AtMostByProduct(lo, q, n);
    AtMostByProduct(q, hi, n);
  }

  lemma AtMostByProduct(a: real, b: real, n: real)
    requires n > 0.0 && n * a <= n * b
    ensures a <= b
  {
    assert n * (b - a) == n * b - n * a;
  }

  /** In every duration row: min <= p50 <= p95 <= max and min <= mean <= max, over at most as many samples as
      the stage has events. */
  lemma DurationRowsAreOrdered(rows: seq<DurationRow>, events: seq<Event>, i: nat)
    requires DurationsOk(rows, events) && i < |rows|
    ensures rows[i].minMs <= rows[i].p50Ms <= rows[i].p95Ms <= rows[i].maxMs
    ensures rows[i].minMs <= rows[i].meanMs <= rows[i].maxMs
    ensures 0 < rows[i].sampleCount <= Total(ByStage, events, rows[i].stage)
  {
    hide P.Percentile, SortedKeys, Samples, Count, Round3, Sum, Minimum, Maximum;
    var stage := SortedKeys(ByTimedStage, events)[i];
    var samples := Samples(events, stage);
    P.PercentileBounds(samples, 0.5);
    P.PercentileMonotone(samples, 0.5, 0.95);
    P.PercentileBounds(samples, 0.95);
    MeanBounds(samples);
    RoundMonotone(Minimum(samples), P.Percentile(samples, 0.5));
    RoundMonotone(P.Percentile(samples, 0.5), P.Percentile(samples, 0.95));
    RoundMonotone(P.Percentile(samples, 0.95), Maximum(samples));
    RoundMonotone(Minimum(samples), Sum(samples) / |samples| as real);
    RoundMonotone(Sum(samples) / |samples| as real, Maximum(samples));
    SamplesCount(events, stage);
    TimedAreSome(events, stage, IsOk);
    TimedAreSome(events, stage, IsError);
    TimedAreSome(events, stage, IsUnknown);
  }

  // ----- stage_timeline and failure_summary -----

  datatype TimelineRow = TimelineRow(stage: Option<string>, role: Option<string>, status: Option<string>,
                                     tsUtc: Option<string>, durationMs: Option<real>, rowCount: Option<int>,
                                     decision: Option<string>, reasonCode: Option<string>)

  datatype FailureRow = FailureRow(caller: Option<string>, stage: Option<string>, role: Option<string>,
                                   status: Option<string>, reasonCode: Option<string>, tsUtc: Option<string>,
                                   durationMs: Option<real>)

  function TimelineRowOf(e: Event): TimelineRow
    requires e.Event?
  {
    TimelineRow(e.stage, e.role, e.status, e.tsUtc, e.durationMs, e.rowCount, e.decision, e.reasonCode)
  }

  function FailureRowOf(e: Event): FailureRow
    requires e.Event?
  {
    FailureRow(e.caller, e.stage, e.role, e.status, e.reasonCode, e.tsUtc, e.durationMs)
  }

  function TimelineRows(events: seq<Event>): seq<TimelineRow> {
    if events == [] then []
    else
      var last := events[|events| - 1];
      TimelineRows(events[..|events| - 1]) + (if last.Event? then [TimelineRowOf(last)] else [])
  }

  predicate Failed(e: Event) { e.Event? && e.status == Some("error") }

  function FailureRows(events: seq<Event>): seq<FailureRow> {
    if events == [] then []
    else
      var last := events[|events| - 1];
      FailureRows(events[..|events| - 1]) + (if Failed(last) then [FailureRowOf(last)] else [])
  }

  /** The rows for which a test holds, in their order. */
  function Select<R(!new)>(rows: seq<R>, test: R -> bool): (r: seq<R>)
    ensures forall x :: x in r <==> x in rows && test(x)
  {
    if rows == [] then []
    else
      assert rows == [rows[0]] + rows[1..];
      (if test(rows[0]) then [rows[0]] else []) + Select(rows[1..], test)
  }

  function TimelineKey(r: TimelineRow): string { if r.tsUtc.Some? then r.tsUtc.value else "" }
  function FailureKey(r: FailureRow): string { if r.tsUtc.Some? then r.tsUtc.value else "" }
  predicate TimelineTimed(r: TimelineRow) { r.tsUtc.Some? }
  predicate TimelineUntimed(r: TimelineRow) { r.tsUtc.None? }
  predicate FailureTimed(r: FailureRow) { r.tsUtc.Some? }
  predicate FailureUntimed(r: FailureRow) { r.tsUtc.None? }

  /** A permutation of the event rows: timed rows first, ascending and with ties in event order, then the
      untimed rows in event order. */
  ghost predicate TimelineOk(rows: seq<TimelineRow>, events: seq<Event>) {
    var all := TimelineRows(events);
    var n := |Select(all, TimelineTimed)|;
    && multiset(rows) == multiset(all)
    && n <= |rows| && Ascending(rows[..n], TimelineKey)
    && (forall i :: 0 <= i < |rows| ==> (TimelineTimed(rows[i]) <==> i < n))
    && SameTies(Select(all, TimelineTimed), rows[..n], TimelineKey)
    && rows[n..] == Select(all, TimelineUntimed)
  }

  /** A permutation of the error rows: timed rows first, descending and with ties still in event order, then
      the untimed rows in event order. */
  ghost predicate FailuresOk(rows: seq<FailureRow>, events: seq<Event>) {
    var all := FailureRows(events);
    var n := |Select(all, FailureTimed)|;
    && multiset(rows) == multiset(all)
    && n <= |rows| && Descending(rows[..n], FailureKey)
    && (forall i :: 0 <= i < |rows| ==> (FailureTimed(rows[i]) <==> i < n))
    && SameTies(Select(all, FailureTimed), rows[..n], FailureKey)
    && rows[n..] == Select(all, FailureUntimed)
  }

  method BuildStageTimeline(events: seq<Event>) returns (rows: seq<TimelineRow>)
    ensures TimelineOk(rows, events)
  {
    rows := [];
    for i := 0 to |events|
      invariant rows == TimelineRows(events[..i])
    {
      assert events[..i + 1][..i] == events[..i];
      if events[i].Event? {
        rows := rows + [TimelineRowOf(events[i])];
      }
    }
    assert events[..|events|] == events;
    var hasTs := Sort(Select(rows, TimelineTimed), TimelineKey);
    rows := hasTs + Select(rows, TimelineUntimed);
    TimelineOrder(events, rows);
  }

  method BuildFailureSummary(events: seq<Event>) returns (rows: seq<FailureRow>)
    ensures FailuresOk(rows, events)
  {
    rows := [];
    for i := 0 to |events|
      invariant rows == FailureRows(events[..i])
    {
      assert events[..i + 1][..i] == events[..i];
      if Failed(events[i]) {
        rows := rows + [FailureRowOf(events[i])];
      }
    }
    assert events[..|events|] == events;
    var hasTs := SortDescending(Select(rows, FailureTimed), FailureKey);
    rows := hasTs + Select(rows, FailureUntimed);
    FailureOrder(events, rows);
  }

  lemma {:induction false} SelectSplits<R(!new)>(rows: seq<R>, test: R -> bool, other: R -> bool)
    requires forall x :: other(x) <==> !test(x)
    ensures multiset(Select(rows, test)) + multiset(Select(rows, other)) == multiset(rows)
  {
    if rows != [] {
      SelectSplits(rows[1..], test, other);
      assert rows == [rows[0]] + rows[1..];
    }
  }

  lemma SameElements<R(!new)>(xs: seq<R>, ys: seq<R>)
    requires multiset(xs) == multiset(ys)
    ensures |xs| == |ys| && forall x :: x in xs <==> x in ys
  {
    assert |multiset(xs)| == |multiset(ys)|;
    forall x ensures x in xs <==> x in ys {
      assert x in xs <==> x in multiset(xs);
      assert x in ys <==> x in multiset(ys);
    }
  }

  /** Sorting the timed rows and putting the untimed ones behind them gives the order of the timeline. */
  lemma TimelineOrder(events: seq<Event>, rows: seq<TimelineRow>)
    requires rows == Sort(Select(TimelineRows(events), TimelineTimed), TimelineKey)
                     + Select(TimelineRows(events), TimelineUntimed)
    ensures TimelineOk(rows, events)
  {
    hide Sort, Select, TimelineRows;
    var all := TimelineRows(events);
    var timed, untimed := Select(all, TimelineTimed), Select(all, TimelineUntimed);
    var sorted := Sort(timed, TimelineKey);
    SortIsStable(timed, TimelineKey);
    SelectSplits(all, TimelineTimed, TimelineUntimed);
    SameElements(timed, sorted);
    assert rows[..|timed|] == sorted && rows[|timed|..] == untimed;
    assert forall i :: 0 <= i < |sorted| ==> sorted[i] in sorted;
    assert forall i :: 0 <= i < |untimed| ==> untimed[i] in untimed;
  }

  lemma TimelineIsDetermined(a: seq<TimelineRow>, b: seq<TimelineRow>, events: seq<Event>)
    requires TimelineOk(a, events) && TimelineOk(b, events)
    ensures a == b
  {
    hide Select, TimelineRows, OfKey, Ascending;
    var n := |Select(TimelineRows(events), TimelineTimed)|;
    StableSortIsUnique(a[..n], b[..n], TimelineKey);
    assert a == a[..n] + a[n..] && b == b[..n] + b[n..];
  }

  lemma FailuresAreDetermined(a: seq<FailureRow>, b: seq<FailureRow>, events: seq<Event>)
    requires FailuresOk(a, events) && FailuresOk(b, events)
    ensures a == b
  {
    hide Select, FailureRows, OfKey, Descending;
    var n := |Select(FailureRows(events), FailureTimed)|;
    StableDescendingIsUnique(a[..n], b[..n], FailureKey);
    assert a == a[..n] + a[n..] && b == b[..n] + b[n..];
  }

  /** Reverse-sorting the timed error rows and putting the untimed ones behind them gives the panel's order. */
  lemma FailureOrder(events: seq<Event>, rows: seq<FailureRow>)
    requires rows == SortDescending(Select(FailureRows(events), FailureTimed), FailureKey)
                     + Select(FailureRows(events), FailureUntimed)
    ensures FailuresOk(rows, events)
  {
    hide SortDescending, Select, FailureRows;
    var all := FailureRows(events);
    var timed, untimed := Select(all, FailureTimed), Select(all, FailureUntimed);
    var sorted := SortDescending(timed, FailureKey);
    SortDescendingIsStable(timed, FailureKey);
    SelectSplits(all, FailureTimed, FailureUntimed);
    SameElements(timed, sorted);
    assert rows[..|timed|] == sorted && rows[|timed|..] == untimed;
    assert forall i :: 0 <= i < |sorted| ==> sorted[i] in sorted;
    assert forall i :: 0 <= i < |untimed| ==> untimed[i] in untimed;
  }

  // ----- agreement between the panels -----

  function SumColumn(rows: seq<SummaryRow>, c: Class): nat {
    if rows == [] then 0
    else (match c case IsOk => rows[0].ok case IsError => rows[0].error case IsUnknown => rows[0].unknown)
         + SumColumn(rows[1..], c)
  }

  function SumTotals(rows: seq<SummaryRow>): nat {
    if rows == [] then 0 else rows[0].total + SumTotals(rows[1..])
  }

  function SumOutcomes(rows: seq<Outcome>, c: Class): nat {
    if rows == [] then 0
    else
      var t := rows[0].tally;
      (match c case IsOk => t.ok case IsError => t.error case IsUnknown => t.unknown) + SumOutcomes(rows[1..], c)
  }

  lemma {:induction false} ColumnIsSum(rows: seq<SummaryRow>, keys: seq<string>, events: seq<Event>, c: Class)
    requires |rows| == |keys|
    requires forall i :: 0 <= i < |rows| ==>
               TallyOk(Tally(rows[i].ok, rows[i].error, rows[i].unknown), ByStage, events, keys[i])
    ensures SumColumn(rows, c) == SumCounts(ByStage, keys, events, c)
  {
    hide Count;
    if rows != [] { ColumnIsSum(rows[1..], keys[1..], events, c); }
  }

  lemma {:induction false} OutcomesAreSum(rows: seq<Outcome>, keys: seq<string>, events: seq<Event>, c: Class)
    requires |rows| == |keys| && forall i :: 0 <= i < |rows| ==> TallyOk(rows[i].tally, ByTenant, events, keys[i])
    ensures SumOutcomes(rows, c) == SumCounts(ByTenant, keys, events, c)
  {
    hide Count;
    if rows != [] { OutcomesAreSum(rows[1..], keys[1..], events, c); }
  }

  lemma {:induction false} TotalsAreColumns(rows: seq<SummaryRow>)
    requires forall i :: 0 <= i < |rows| ==> rows[i].total == rows[i].ok + rows[i].error + rows[i].unknown
    ensures SumTotals(rows) == SumColumn(rows, IsOk) + SumColumn(rows, IsError) + SumColumn(rows, IsUnknown)
  {
    if rows != [] { TotalsAreColumns(rows[1..]); }
  }

  lemma SortedKeysSum(g: Grouping, events: seq<Event>, c: Class)
    ensures SumCounts(g, SortedKeys(g, events), events, c) == CountAll(g, events, c)
  {
    hide Keys, GroupOf, Sort, Count, CountAll, SumCounts;
    SortKeepsKeys(Keys(g, events));
    forall i | 0 <= i < |events| && GroupOf(g, events[i]).Some?
      ensures GroupOf(g, events[i]).value in SortedKeys(g, events)
    {
      assert GroupOf(g, events[i]) == Some(GroupOf(g, events[i]).value);
    }
    SumIsCountAll(g, SortedKeys(g, events), events, c);
  }

  lemma {:induction false} FailuresAreErrors(events: seq<Event>)
    ensures |FailureRows(events)| == CountAll(ByStage, events, IsError)
  {
    if events != [] { FailuresAreErrors(events[..|events| - 1]); }
  }

  /** What the panels share: stage totals add up to the events, the failure panel has as many rows as the
      error column adds up to, and the tenants' counts add up, column by column, to the policy_release
      counts of the stage summary. */
  lemma PanelsAgree(events: seq<Event>, stages: seq<SummaryRow>, outcomes: seq<Outcome>, failures: seq<FailureRow>)
    requires SummaryOk(stages, events) && OutcomesOk(outcomes, events)
    requires FailuresOk(failures, events)
    ensures SumTotals(stages) == Objects(events)
    ensures |failures| == SumColumn(stages, IsError)
    ensures forall c :: SumOutcomes(outcomes, c) == Count(ByStage, events, "policy_release", c)
    ensures forall i :: 0 <= i < |stages| && stages[i].stage == "policy_release" ==>
              && stages[i].ok == SumOutcomes(outcomes, IsOk) && stages[i].error == SumOutcomes(outcomes, IsError)
              && stages[i].unknown == SumOutcomes(outcomes, IsUnknown)
  {
    hide Count, CountAll, SortedKeys, SumCounts, LastOk, Select, FailureRows, Objects, SameTies, Descending;
    forall c: Class
      ensures SumColumn(stages, c) == CountAll(ByStage, events, c)
      ensures SumOutcomes(outcomes, c) == Count(ByStage, events, "policy_release", c)
    {
      ColumnIsSum(stages, SortedKeys(ByStage, events), events, c);
      OutcomesAreSum(outcomes, SortedKeys(ByTenant, events), events, c);
      SortedKeysSum(ByStage, events, c);
      SortedKeysSum(ByTenant, events, c);
      TenantsCountReleases(events, c);
    }
    TotalsAreColumns(stages);
    StageClassesPartition(events);
    SameElements(failures, FailureRows(events));
    FailuresAreErrors(events);
  }
}
