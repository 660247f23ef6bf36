/** Counting events by stage, by tenant and by timed stage, as the dashboard panels do, and the sums that
    must agree between panels. */
module DashboardCounts {
  import opened PyText

  /** An entry of the events list; fields are None when missing or null. */
  datatype Event =
    | NotAnObject
    | Event(stage: Option<string>, role: Option<string>, status: Option<string>, tsUtc: Option<string>,
            durationMs: Option<real>, rowCount: Option<int>, decision: Option<string>,
            reasonCode: Option<string>, tenantId: Option<string>, caller: Option<string>)

  datatype Class = IsOk | IsError | IsUnknown

  /** str(value or "unknown") */
  function OrUnknown(o: Option<string>): string {
    if o.Some? && o.value != "" then o.value else "unknown"
  }

  function StageOf(e: Event): string requires e.Event? { OrUnknown(e.stage) }
  function StatusOf(e: Event): string requires e.Event? { OrUnknown(e.status) }
  function TenantOf(e: Event): string requires e.Event? { OrUnknown(e.tenantId) }

  function ClassOf(e: Event): Class
    requires e.Event?
  {
    if StatusOf(e) == "ok" then IsOk else if StatusOf(e) == "error" then IsError else IsUnknown
  }

  /** The three groupings of the panels. */
  datatype Grouping = ByStage | ByTenant | ByTimedStage

  /** The group an event is counted in, if any. */
  function GroupOf(g: Grouping, e: Event): Option<string> {
    if !e.Event? then None
    else match g
      case ByStage => Some(StageOf(e))
      case ByTenant => if e.stage == Some("policy_release") then Some(TenantOf(e)) else None
      case ByTimedStage => if e.durationMs.Some? then Some(StageOf(e)) else None
  }

  predicate Counted(g: Grouping, e: Event, key: string, c: Class) {
    GroupOf(g, e) == Some(key) && ClassOf(e) == c
  }

  /** Events of one group and one class. */
  function Count(g: Grouping, events: seq<Event>, key: string, c: Class): nat {
    if events == [] then 0
    else
      var last := events[|events| - 1];
      Count(g, events[..|events| - 1], key, c) + (if Counted(g, last, key, c) then 1 else 0)
  }

  /** Events of one class in any group. */
  function CountAll(g: Grouping, events: seq<Event>, c: Class): nat {
    if events == [] then 0
    else
      var last := events[|events| - 1];
      CountAll(g, events[..|events| - 1], c) + (if GroupOf(g, last).Some? && ClassOf(last) == c then 1 else 0)
  }

  function Total(g: Grouping, events: seq<Event>, key: string): nat {
    Count(g, events, key, IsOk) + Count(g, events, key, IsError) + Count(g, events, key, IsUnknown)
  }

  /** Entries that are objects. */
  function Objects(events: seq<Event>): nat {
    if events == [] then 0
    else Objects(events[..|events| - 1]) + (if events[|events| - 1].Event? then 1 else 0)
  }

  predicate NoDuplicates(keys: seq<string>) {
    forall i, j :: 0 <= i < j < |keys| ==> keys[i] != keys[j]
  }

  /** The groups in the order in which they first occur: a dict filled by setdefault. */
  function Keys(g: Grouping, events: seq<Event>): (r: seq<string>)
    ensures NoDuplicates(r)
    ensures forall k :: k in r <==> exists i :: 0 <= i < |events| && GroupOf(g, events[i]) == Some(k)
  {
    if events == [] then []
    else
      var front, last := events[..|events| - 1], events[|events| - 1];
      var before := Keys(g, front);
      var r := match GroupOf(g, last)
               case None => before
               case Some(k) => if k in before then before else before + [k];
      assert forall k :: k in r <==> k in before || GroupOf(g, last) == Some(k);
      assert forall k :: (exists i :: 0 <= i < |events| && GroupOf(g, events[i]) == Some(k)) <==>
                         || (exists i :: 0 <= i < |front| && GroupOf(g, front[i]) == Some(k))
                         || GroupOf(g, last) == Some(k) by {
        assert events == front + [last];
        assert forall i :: 0 <= i < |front| ==> front[i] == events[i];
      }
      r
  }

  function SumCounts(g: Grouping, keys: seq<string>, events: seq<Event>, c: Class): nat {
    if keys == [] then 0 else Count(g, events, keys[0], c) + SumCounts(g, keys[1..], events, c)
  }

  lemma {:induction false} SumOfNoEvents(g: Grouping, keys: seq<string>, c: Class)
    ensures SumCounts(g, keys, [], c) == 0
  {
    if keys != [] { SumOfNoEvents(g, keys[1..], c); }
  }

  lemma {:induction false} SumStep(g: Grouping, keys: seq<string>, events: seq<Event>, c: Class)
    requires events != [] && NoDuplicates(keys)
    ensures var last := events[|events| - 1];
            SumCounts(g, keys, events, c) ==
            SumCounts(g, keys, events[..|events| - 1], c)
            + (if GroupOf(g, last).Some? && GroupOf(g, last).value in keys && ClassOf(last) == c then 1 else 0)
  {
    hide GroupOf, ClassOf;
    if keys != [] {
      SumStep(g, keys[1..], events, c);
      assert keys == [keys[0]] + keys[1..];
    }
  }

  /** Summed over any list of distinct keys that covers the groups, the counts give the panel's total. */
  lemma {:induction false} SumIsCountAll(g: Grouping, keys: seq<string>, events: seq<Event>, c: Class)
    requires NoDuplicates(keys)
    requires forall i :: 0 <= i < |events| && GroupOf(g, events[i]).Some? ==> GroupOf(g, events[i]).value in keys
    ensures SumCounts(g, keys, events, c) == CountAll(g, events, c)
  {
    hide GroupOf, ClassOf;
    if events == [] {
      SumOfNoEvents(g, keys, c);
    } else {
      SumStep(g, keys, events, c);
      SumIsCountAll(g, keys, events[..|events| - 1], c);
    }
  }

  lemma {:induction false} StageClassesPartition(events: seq<Event>)
    ensures CountAll(ByStage, events, IsOk) + CountAll(ByStage, events, IsError) + CountAll(ByStage, events, IsUnknown)
            == Objects(events)
  {
    if events != [] { StageClassesPartition(events[..|events| - 1]); }
  }

  /** The tenant groups count exactly the events of the policy_release stage. */
  lemma {:induction false} TenantsCountReleases(events: seq<Event>, c: Class)
    ensures CountAll(ByTenant, events, c) == Count(ByStage, events, "policy_release", c)
  {
    if events != [] { TenantsCountReleases(events[..|events| - 1], c); }
  }

  /** Samples are a part of a stage's events. */
  lemma {:induction false} TimedAreSome(events: seq<Event>, stage: string, c: Class)
    ensures Count(ByTimedStage, events, stage, c) <= Count(ByStage, events, stage, c)
  {
    if events != [] { TimedAreSome(events[..|events| - 1], stage, c); }
  }
}
