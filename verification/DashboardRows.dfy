/** What the rows of the dashboard panels say, in terms of the events alone: counts as numbers of events, order
    by code points, statistics of exactly the stage's durations, and columns taken from their event fields. */
module DashboardRows {
  import opened PyText
  import opened StableSort
  import opened DashboardCounts
  import opened Dashboard
  import P = Percentile

  /** str(value or "unknown") is this text. */
  predicate Says(o: Option<string>, text: string) {
    if o.Some? && o.value != "" then o.value == text else text == "unknown"
  }

  predicate InStage(e: Event, stage: string) { e.Event? && Says(e.stage, stage) }

  predicate ReleasedFor(e: Event, tenant: string) {
    e.Event? && e.stage == Some("policy_release") && Says(e.tenantId, tenant)
  }

  predicate TimedIn(e: Event, stage: string) { InStage(e, stage) && e.durationMs.Some? }

  predicate IsOther(e: Event) { e.Event? && !Says(e.status, "ok") && !Says(e.status, "error") }

  /** The positions of the events for which a test holds. */
  function Positions(events: seq<Event>, test: Event -> bool): set<nat> {
    set k: nat | k < |events| && test(events[k])
  }

  lemma PositionsStep(events: seq<Event>, test: Event -> bool)
    requires events != []
    ensures var n := |events| - 1;
            |Positions(events, test)| == |Positions(events[..n], test)| + (if test(events[n]) then 1 else 0)
  {
    var n := |events| - 1;
    assert n !in Positions(events[..n], test);
    assert Positions(events, test) == Positions(events[..n], test) + (if test(events[n]) then {n} else {});
  }

  lemma {:induction false} CountIsNumber(g: Grouping, events: seq<Event>, key: string, c: Class, test: Event -> bool)
    requires forall e :: test(e) <==> Counted(g, e, key, c)
    ensures Count(g, events, key, c) == |Positions(events, test)|
  {
    hide Counted;
    if events == [] {
      assert Positions(events, test) == {};
    } else {
      CountIsNumber(g, events[..|events| - 1], key, c, test);
      PositionsStep(events, test);
    }
  }

  // ----- rows in order -----

  lemma SortedKeysAscend(g: Grouping, events: seq<Event>)
    ensures var keys := SortedKeys(g, events);
            && (forall i, j :: 0 <= i < j < |keys| ==> Precedes(keys[i], keys[j]))
            && forall k :: 0 <= k < |events| && GroupOf(g, events[k]).Some? ==> GroupOf(g, events[k]).value in keys
  {
    hide Keys, GroupOf, Sort, Less, Precedes;
    var keys := SortedKeys(g, events);
    SortIsStable(Keys(g, events), Same);
    SortKeepsKeys(Keys(g, events));
    forall i, j | 0 <= i < j < |keys| ensures Precedes(keys[i], keys[j]) {
      assert !Less(Same(keys[j]), Same(keys[i]));
      LessTotal(keys[i], keys[j]);
      LessIsPrecedes(keys[i], keys[j]);
    }
    forall k | 0 <= k < |events| && GroupOf(g, events[k]).Some? ensures GroupOf(g, events[k]).value in keys {
      assert GroupOf(g, events[k]) == Some(GroupOf(g, events[k]).value);
    }
  }

  // ----- stage_summary -----

  /** A row counts the events of its stage by status; rows ascend by stage, and every event's stage has one. */
  lemma StageRowsMean(rows: seq<SummaryRow>, events: seq<Event>)
    requires SummaryOk(rows, events)
    ensures forall i :: 0 <= i < |rows| ==>
              var r := rows[i];
              && r.ok == |Positions(events, e => InStage(e, r.stage) && Says(e.status, "ok"))|
              && r.error == |Positions(events, e => InStage(e, r.stage) && Says(e.status, "error"))|
              && r.unknown == |Positions(events, e => InStage(e, r.stage) && IsOther(e))|
    ensures forall i, j :: 0 <= i < j < |rows| ==> Precedes(rows[i].stage, rows[j].stage)
    ensures forall k :: 0 <= k < |events| && events[k].Event? ==>
              exists i :: 0 <= i < |rows| && InStage(events[k], rows[i].stage)
  {
    hide Count, Keys, Sort, Positions, Precedes;
    SortedKeysAscend(ByStage, events);
    forall i | 0 <= i < |rows|
      ensures rows[i].ok == |Positions(events, e => InStage(e, rows[i].stage) && Says(e.status, "ok"))|
      ensures rows[i].error == |Positions(events, e => InStage(e, rows[i].stage) && Says(e.status, "error"))|
      ensures rows[i].unknown == |Positions(events, e => InStage(e, rows[i].stage) && IsOther(e))|
    {
      var s := rows[i].stage;
      CountIsNumber(ByStage, events, s, IsOk, e => InStage(e, s) && Says(e.status, "ok"));
      CountIsNumber(ByStage, events, s, IsError, e => InStage(e, s) && Says(e.status, "error"));
      CountIsNumber(ByStage, events, s, IsUnknown, e => InStage(e, s) && IsOther(e));
    }
    forall k | 0 <= k < |events| && events[k].Event?
      ensures exists i :: 0 <= i < |rows| && InStage(events[k], rows[i].stage)
    {
      var i :| 0 <= i < |rows| && SortedKeys(ByStage, events)[i] == StageOf(events[k]);
      assert InStage(events[k], rows[i].stage);
    }
  }

  // ----- release_outcomes -----

  /** The event is the tenant's earliest with a timestamp that no other of its timestamps comes after. */
  ghost predicate Latest(events: seq<Event>, tenant: string, j: nat) {
    && j < |events| && ReleasedFor(events[j], tenant) && events[j].tsUtc.Some?
    && forall i :: 0 <= i < |events| && ReleasedFor(events[i], tenant) && events[i].tsUtc.Some? ==>
         && !Precedes(events[j].tsUtc.value, events[i].tsUtc.value)
         && (i < j ==> events[i].tsUtc != events[j].tsUtc)
  }

  lemma ReleasedMeans(e: Event, tenant: string)
    ensures OfTenant(e, tenant) <==> ReleasedFor(e, tenant)
    ensures ReleasedFor(e, tenant) ==> e.Event?
  {
  }

  lemma LatestMeans(events: seq<Event>, tenant: string, j: nat)
    ensures IsLatest(events, tenant, j) ==> Latest(events, tenant, j)
  {
    hide OfTenant, ReleasedFor, Less, Precedes;
    forall i | 0 <= i < |events|
      ensures OfTenant(events[i], tenant) <==> ReleasedFor(events[i], tenant)
      ensures ReleasedFor(events[i], tenant) ==> events[i].Event?
    {
      ReleasedMeans(events[i], tenant);
    }
    if IsLatest(events, tenant, j) {
      forall i | 0 <= i < |events| && ReleasedFor(events[i], tenant) && events[i].tsUtc.Some?
        ensures !Precedes(events[j].tsUtc.value, events[i].tsUtc.value)
        ensures i < j ==> events[i].tsUtc != events[j].tsUtc
      {
        assert OfTenant(events[i], tenant);
        LessIsPrecedes(events[j].tsUtc.value, events[i].tsUtc.value);
        LessTotal(events[j].tsUtc.value, events[i].tsUtc.value);
      }
    }
  }

  /** A row's last status and timestamp, said of the events: from the latest timed event of the tenant, or
      without any timed one from the tenant's first event. */
  ghost predicate LastMeans(o: Outcome, events: seq<Event>) {
    || (exists j: nat ::
          && Latest(events, o.tenantId, j) && o.lastTs == events[j].tsUtc
          && o.lastStatus.Some? && Says(events[j].status, o.lastStatus.value))
    || (&& (forall k :: 0 <= k < |events| && ReleasedFor(events[k], o.tenantId) ==> events[k].tsUtc.None?)
        && o.lastTs.None?
        && exists j: nat ::
             && j < |events| && ReleasedFor(events[j], o.tenantId)
             && (forall i :: 0 <= i < j ==> !ReleasedFor(events[i], o.tenantId))
             && o.lastStatus.Some? && Says(events[j].status, o.lastStatus.value))
  }

  lemma LastOkMeans(o: Outcome, events: seq<Event>)
    requires LastOk(o, events, o.tenantId)
    ensures LastMeans(o, events)
  {
    hide OfTenant, ReleasedFor, Less, Precedes;
    forall i | 0 <= i < |events|
      ensures OfTenant(events[i], o.tenantId) <==> ReleasedFor(events[i], o.tenantId)
      ensures ReleasedFor(events[i], o.tenantId) ==> events[i].Event?
    {
      ReleasedMeans(events[i], o.tenantId);
    }
    if HasTimed(events, o.tenantId) {
      var j: nat :|
        IsLatest(events, o.tenantId, j) && o.lastTs == events[j].tsUtc && o.lastStatus == Some(StatusOf(events[j]));
      LatestMeans(events, o.tenantId, j);
    } else {
      var j: nat :|
        IsFirst(events, o.tenantId, j) && o.lastTs == None && o.lastStatus == Some(StatusOf(events[j]));
      assert ReleasedFor(events[j], o.tenantId);
    }
  }

  /** A row counts the tenant's policy_release events by status and gives its latest event; rows ascend by
      tenant, and every policy_release event's tenant has one. */
  lemma OutcomeRowsMean(rows: seq<Outcome>, events: seq<Event>)
    requires OutcomesOk(rows, events)
    ensures forall i :: 0 <= i < |rows| ==>
              var r := rows[i];
              && r.tally.ok == |Positions(events, e => ReleasedFor(e, r.tenantId) && Says(e.status, "ok"))|
              && r.tally.error == |Positions(events, e => ReleasedFor(e, r.tenantId) && Says(e.status, "error"))|
              && r.tally.unknown == |Positions(events, e => ReleasedFor(e, r.tenantId) && IsOther(e))|
              && LastMeans(r, events)
    ensures forall i, j :: 0 <= i < j < |rows| ==> Precedes(rows[i].tenantId, rows[j].tenantId)
    ensures forall k :: 0 <= k < |events| && events[k].Event? && events[k].stage == Some("policy_release") ==>
              exists i :: 0 <= i < |rows| && ReleasedFor(events[k], rows[i].tenantId)
  {
    hide Count, Keys, Sort, Positions, Precedes, LastOk, LastMeans;
    SortedKeysAscend(ByTenant, events);
    forall i | 0 <= i < |rows|
      ensures rows[i].tally.ok == |Positions(events, e => ReleasedFor(e, rows[i].tenantId) && Says(e.status, "ok"))|
      ensures rows[i].tally.error ==
              |Positions(events, e => ReleasedFor(e, rows[i].tenantId) && Says(e.status, "error"))|
      ensures rows[i].tally.unknown == |Positions(events, e => ReleasedFor(e, rows[i].tenantId) && IsOther(e))|
      ensures LastMeans(rows[i], events)
    {
      var t := rows[i].tenantId;
      CountIsNumber(ByTenant, events, t, IsOk, e => ReleasedFor(e, t) && Says(e.status, "ok"));
      CountIsNumber(ByTenant, events, t, IsError, e => ReleasedFor(e, t) && Says(e.status, "error"));
      CountIsNumber(ByTenant, events, t, IsUnknown, e => ReleasedFor(e, t) && IsOther(e));
      LastOkMeans(rows[i], events);
    }
    forall k | 0 <= k < |events| && events[k].Event? && events[k].stage == Some("policy_release")
      ensures exists i :: 0 <= i < |rows| && ReleasedFor(events[k], rows[i].tenantId)
    {
      var i :| 0 <= i < |rows| && SortedKeys(ByTenant, events)[i] == TenantOf(events[k]);
      assert ReleasedFor(events[k], rows[i].tenantId);
    }
  }

  // ----- stage_duration -----

  /** round(x, 3) is a whole number of thousandths, at most half a thousandth away, and an even one at half. */
  lemma RoundIsNear(x: real) returns (n: int)
    ensures Round3(x) * 1000.0 == n as real
    ensures -0.0005 <= Round3(x) - x <= 0.0005
    ensures Round3(x) - x in [-0.0005, 0.0005] ==> n % 2 == 0
  {
    n := Nearest(x * 1000.0);
  }

  /** The durations of a stage's timed events, added up. */
  function DurationTotal(events: seq<Event>, stage: string): real {
    if events == [] then 0.0
    else
      var last := events[|events| - 1];
      DurationTotal(events[..|events| - 1], stage)
      + (if last.Event? && Says(last.stage, stage) && last.durationMs.Some? then last.durationMs.value else 0.0)
  }

  lemma {:induction false} SumOfLast(xs: seq<real>, x: real)
    ensures Sum(xs + [x]) == Sum(xs) + x
  {
    if xs == [] {
      assert [x][1..] == [];
    } else {
      assert (xs + [x])[1..] == xs[1..] + [x];
      SumOfLast(xs[1..], x);
    }
  }

  lemma TimedMeans(e: Event, stage: string)
    ensures GroupOf(ByTimedStage, e) == Some(stage) <==> TimedIn(e, stage)
  {
  }

  lemma {:induction false} SamplesMean(events: seq<Event>, stage: string)
    ensures |Samples(events, stage)| == |Positions(events, e => TimedIn(e, stage))|
    ensures Sum(Samples(events, stage)) == DurationTotal(events, stage)
    ensures forall x :: x in Samples(events, stage) <==>
              exists k :: 0 <= k < |events| && TimedIn(events[k], stage) && events[k].durationMs.value == x
  {
    var test := (e: Event) => TimedIn(e, stage);
    if events == [] {
      assert Positions(events, test) == {};
    } else {
      var front, last := events[..|events| - 1], events[|events| - 1];
      hide GroupOf, Positions, Says;
      SamplesMean(front, stage);
      PositionsStep(events, test);
      TimedMeans(last, stage);
      if TimedIn(last, stage) {
        SumOfLast(Samples(front, stage), last.durationMs.value);
      } else {
        assert Samples(events, stage) == Samples(front, stage);
      }
      forall x
        ensures x in Samples(events, stage) <==>
                exists k :: 0 <= k < |events| && TimedIn(events[k], stage) && events[k].durationMs.value == x
      {
        if TimedIn(last, stage) && last.durationMs.value == x { assert TimedIn(events[|events| - 1], stage); }
        if x in Samples(front, stage) {
          var k :| 0 <= k < |front| && TimedIn(front[k], stage) && front[k].durationMs.value == x;
          assert TimedIn(events[k], stage);
        }
        if k :| 0 <= k < |events| && TimedIn(events[k], stage) && events[k].durationMs.value == x {
          if k < |front| { assert TimedIn(front[k], stage); }
        }
      }
    }
  }

  /** A row's statistics are those of the durations of its stage's timed events: their number, the least, the
      mean, the median, the 95th percentile and the greatest; rows ascend by stage. */
  lemma DurationRowsMean(rows: seq<DurationRow>, events: seq<Event>, i: nat)
    requires DurationsOk(rows, events) && i < |rows|
    ensures var r := rows[i];
            var samples := Samples(events, r.stage);
            && r.sampleCount == |samples| == |Positions(events, e => TimedIn(e, r.stage))| > 0
            && (forall x :: x in samples <==>
                  exists k :: 0 <= k < |events| && TimedIn(events[k], r.stage) && events[k].durationMs.value == x)
            && (exists lo :: lo in samples && r.minMs == Round3(lo) && forall x :: x in samples ==> lo <= x)
            && (exists hi :: hi in samples && r.maxMs == Round3(hi) && forall x :: x in samples ==> x <= hi)
            && r.meanMs == Round3(DurationTotal(events, r.stage) / r.sampleCount as real)
            && r.p50Ms == Round3(P.Percentile(samples, 0.5)) && r.p95Ms == Round3(P.Percentile(samples, 0.95))
    ensures forall j :: i < j < |rows| ==> Precedes(rows[i].stage, rows[j].stage)
  {
    hide SortedKeys, Samples, Round3, P.Percentile, Positions, Precedes, Minimum, Maximum, Sum;
    SortedKeysAscend(ByTimedStage, events);
    SamplesMean(events, rows[i].stage);
    var samples := Samples(events, rows[i].stage);
    assert Minimum(samples) in samples && Maximum(samples) in samples;
  }

  // ----- stage_timeline and failure_summary -----

  /** The events for which a test holds, in their order. */
  function Kept(events: seq<Event>, test: Event -> bool): (r: seq<Event>)
    ensures forall i :: 0 <= i < |r| ==> test(r[i])
  {
    if events == [] then []
    else
      var last := events[|events| - 1];
      Kept(events[..|events| - 1], test) + (if test(last) then [last] else [])
  }

  predicate IsObject(e: Event) { e.Event? }
  predicate IsFailure(e: Event) { e.Event? && e.status == Some("error") }

  /** Before they are ordered, timeline rows are the objects among the events, each column its own field. */
  lemma {:induction false} TimelineColumns(events: seq<Event>)
    ensures var es, rows := Kept(events, IsObject), TimelineRows(events);
            |rows| == |es| && forall i :: 0 <= i < |es| ==>
              var e, r := es[i], rows[i];
              && r.stage == e.stage && r.role == e.role && r.status == e.status && r.tsUtc == e.tsUtc
              && r.durationMs == e.durationMs && r.rowCount == e.rowCount && r.decision == e.decision
              && r.reasonCode == e.reasonCode
  {
    if events != [] { TimelineColumns(events[..|events| - 1]); }
  }

  /** Before they are ordered, failure rows are the events with status error, each column its own field. */
  lemma {:induction false} FailureColumns(events: seq<Event>)
    ensures var es, rows := Kept(events, IsFailure), FailureRows(events);
            |rows| == |es| && forall i :: 0 <= i < |es| ==>
              var e, r := es[i], rows[i];
              && r.caller == e.caller && r.stage == e.stage && r.role == e.role && r.status == e.status
              && r.reasonCode == e.reasonCode && r.tsUtc == e.tsUtc && r.durationMs == e.durationMs
  {
    if events != [] { FailureColumns(events[..|events| - 1]); }
  }

  /** Timestamps never step back in the timeline; untimed rows follow. */
  lemma TimelineAscends(rows: seq<TimelineRow>, events: seq<Event>)
    requires TimelineOk(rows, events)
    ensures forall i, j :: 0 <= i < j < |rows| && rows[j].tsUtc.Some? ==>
              rows[i].tsUtc.Some? && !Precedes(rows[j].tsUtc.value, rows[i].tsUtc.value)
  {
    hide Select, TimelineRows, Less, Precedes, SameTies;
    var n := |Select(TimelineRows(events), TimelineTimed)|;
    forall i, j | 0 <= i < j < |rows| && rows[j].tsUtc.Some?
      ensures rows[i].tsUtc.Some? && !Precedes(rows[j].tsUtc.value, rows[i].tsUtc.value)
    {
      assert TimelineTimed(rows[j]) && TimelineTimed(rows[i]);
      assert rows[..n][i] == rows[i] && rows[..n][j] == rows[j];
      LessIsPrecedes(rows[j].tsUtc.value, rows[i].tsUtc.value);
    }
  }

  /** Timestamps never step forward in the failure panel; untimed rows follow. */
  lemma FailuresDescend(rows: seq<FailureRow>, events: seq<Event>)
    requires FailuresOk(rows, events)
    ensures forall i, j :: 0 <= i < j < |rows| && rows[j].tsUtc.Some? ==>
              rows[i].tsUtc.Some? && !Precedes(rows[i].tsUtc.value, rows[j].tsUtc.value)
  {
    hide Select, FailureRows, Less, Precedes, SameTies;
    var n := |Select(FailureRows(events), FailureTimed)|;
    forall i, j | 0 <= i < j < |rows| && rows[j].tsUtc.Some?
      ensures rows[i].tsUtc.Some? && !Precedes(rows[i].tsUtc.value, rows[j].tsUtc.value)
    {
      assert FailureTimed(rows[j]) && FailureTimed(rows[i]);
      assert rows[..n][i] == rows[i] && rows[..n][j] == rows[j];
      LessIsPrecedes(rows[i].tsUtc.value, rows[j].tsUtc.value);
    }
  }
}
