/** check_audit_api_public_redaction.py: the scan for operator-only keys in caller-safe responses. */
module LeakScan {
  import opened PyText
  import opened JsonText

  const FORBIDDEN_KEYS: set<string> := {
    "paths", "path", "display_path", "out_base", "output_file", "input_file", "source_file",
    "record_store_file", "socket_path", "endpoint_url", "policy_config", "authz_policy_config",
    "pjc_result_file", "release_file", "ledger_path", "audit_chain_path", "public_report_path", "bridge",
    "details", "input_sizes", "rate_limit_used", "rate_limit_max", "duration_ms", "row_count", "output_rows",
    "input_rows", "candidate_count", "artifact_sha256", "sha256", "output_sha256", "input_sha256",
    "record_store_sha256", "release_sha256", "pjc_result_sha256", "server_input_sha256",
    "client_input_sha256", "query_fingerprint", "query_payload_sha256", "canonical_query_signature",
    "key_access_audit", "sse_export_audit", "record_recovery_service_audit", "bridge_audit",
    "bridge_job_meta", "pjc_audit", "pjc_result", "policy_audit", "release_policy_gate",
    "mainline_contract_check"
  }

  const PUBLIC_SCHEMAS: set<string> := {
    "public_report/v2", "audit_chain_public_summary/v1", "pipeline_observability_public_summary/v1",
    "catalog_lineage_public_summary/v1"
  }

  // ----- positions in a tree -----

  /** Child numbers from the root: members in insertion order, list items in order. */
  type Position = seq<nat>

  function Child(v: Json, i: nat): Option<Json> {
    match v
    case Arr(items) => if i < |items| then Some(items[i]) else None
    case Obj(ms) => if i < |ms| then Some(ms[i].value) else None
    case _ => None
  }

  /** The position is in the tree and its own key is forbidden, whatever lies above it. */
  predicate IsLeak(v: Json, pos: Position)
    decreases |pos|
  {
    && pos != [] && Child(v, pos[0]).Some?
    && if |pos| == 1 then v.Obj? && v.members[pos[0]].key in FORBIDDEN_KEYS
       else IsLeak(Child(v, pos[0]).value, pos[1..])
  }

  /** Preorder: a parent comes before its children, and children in their order. */
  predicate Before(p: Position, q: Position)
    decreases |p|
  {
    if q == [] then false
    else if p == [] then true
    else if p[0] != q[0] then p[0] < q[0]
    else Before(p[1..], q[1..])
  }

  function Under(i: nat, ps: seq<Position>): (r: seq<Position>)
    ensures |r| == |ps| && forall k :: 0 <= k < |ps| ==> r[k] == [i] + ps[k]
  {
    seq(|ps|, k requires 0 <= k < |ps| => [i] + ps[k])
  }

  /** The positions the scan reports, in its order. */
  function LeakPositions(v: Json): seq<Position>
    decreases v, 0, 0
  {
    match v
    case Arr(items) => ItemPositions(items, |items|)
    case Obj(ms) => MemberPositions(ms, |ms|)
    case _ => []
  }

  function ItemPositions(items: seq<Json>, n: nat): seq<Position>
    requires n <= |items|
    decreases items, 1, n
  {
    if n == 0 then [] else ItemPositions(items, n - 1) + Under(n - 1, LeakPositions(items[n - 1]))
  }

  function MemberPositions(ms: seq<Member>, n: nat): seq<Position>
    requires n <= |ms|
    decreases ms, 1, n
  {
    if n == 0 then []
    else
      MemberPositions(ms, n - 1)
      + ((if ms[n - 1].key in FORBIDDEN_KEYS then [[n - 1]] else []) + Under(n - 1, LeakPositions(ms[n - 1].value)))
  }

  // ----- the scan and the texts it reports -----

  function StepText(v: Json, i: nat): string
    requires Child(v, i).Some?
  {
    if v.Obj? then "." + v.members[i].key else "[" + (Digits(i) + "]")
  }

  predicate InTree(v: Json, pos: Position)
    decreases |pos|
  {
    pos == [] || (Child(v, pos[0]).Some? && InTree(Child(v, pos[0]).value, pos[1..]))
  }

  /** The "$.key[0]" text of a position below a node whose own text is given. */
  function PathText(v: Json, path: string, pos: Position): string
    requires InTree(v, pos)
    decreases |pos|
  {
    if pos == [] then path else PathText(Child(v, pos[0]).value, path + StepText(v, pos[0]), pos[1..])
  }

  /** The node at a position. */
  function NodeAt(v: Json, pos: Position): Json
    requires InTree(v, pos)
    decreases |pos|
  {
    if pos == [] then v else NodeAt(Child(v, pos[0]).value, pos[1..])
  }

  /** A position's text is its parent's text followed by .key in an object and by [index] in a list. */
  lemma {:induction false} PathTextGrows(v: Json, path: string, pos: Position, i: nat)
    requires InTree(v, pos)
    ensures PathText(v, path, []) == path
    ensures var node := NodeAt(v, pos);
            && (node.Obj? && i < |node.members| ==>
                  && InTree(v, pos + [i]) && NodeAt(v, pos + [i]) == node.members[i].value
                  && PathText(v, path, pos + [i]) == PathText(v, path, pos) + "." + node.members[i].key)
            && (node.Arr? && i < |node.items| ==>
                  && InTree(v, pos + [i]) && NodeAt(v, pos + [i]) == node.items[i]
                  && PathText(v, path, pos + [i]) == PathText(v, path, pos) + "[" + Decimal(i) + "]")
    decreases |pos|
  {
    if pos == [] {
      assert [] + [i] == [i] && [i][1..] == [];
    } else {
      PathTextGrows(Child(v, pos[0]).value, path + StepText(v, pos[0]), pos[1..], i);
      assert (pos + [i])[1..] == pos[1..] + [i] && (pos + [i])[0] == pos[0];
    }
  }

  /** Each reported text is the text of the position at its place in the list. */
  ghost predicate Reports(leaks: seq<string>, v: Json, path: string, ps: seq<Position>) {
    && |leaks| == |ps|
    && forall k :: 0 <= k < |ps| ==> InTree(v, ps[k]) && leaks[k] == PathText(v, path, ps[k])
  }

  lemma ReportsConcat(a: seq<string>, b: seq<string>, v: Json, path: string, ps: seq<Position>, qs: seq<Position>)
    requires Reports(a, v, path, ps) && Reports(b, v, path, qs)
    ensures Reports(a + b, v, path, ps + qs)
  {
    hide InTree, PathText;
  }

  lemma ReportsUnder(leaks: seq<string>, v: Json, path: string, i: nat, ps: seq<Position>)
    requires Child(v, i).Some? && Reports(leaks, Child(v, i).value, path + StepText(v, i), ps)
    ensures Reports(leaks, v, path, Under(i, ps))
  {
    hide Child, StepText;
    forall k | 0 <= k < |ps|
      ensures InTree(v, [i] + ps[k]) && leaks[k] == PathText(v, path, [i] + ps[k])
    {
      assert ([i] + ps[k])[1..] == ps[k] && ([i] + ps[k])[0] == i;
    }
  }

  lemma ReportsOwn(v: Json, path: string, i: nat)
    requires Child(v, i).Some?
    ensures Reports([path + StepText(v, i)], v, path, [[i]])
  {
    hide StepText;
    var c := Child(v, i).value;
    assert [i][1..] == [] && InTree(c, []) && PathText(c, path + StepText(v, i), []) == path + StepText(v, i);
    assert [[i]][0] == [i] && [i][0] == i;
    assert InTree(v, [i]) && PathText(v, path, [i]) == path + StepText(v, i);
  }

  method CollectLeaks(value: Json, path: string) returns (leaks: seq<string>)
    ensures Reports(leaks, value, path, LeakPositions(value))
    decreases value
  {
    hide InTree, PathText, Reports;
    leaks := [];
    assert Reports([], value, path, []) by { NothingReported(value, path); }
    if value.Obj? {
      var ms := value.members;
      for i := 0 to |ms|
        invariant Reports(leaks, value, path, MemberPositions(ms, i))
      {
        var childPath := path + StepText(value, i);
        ghost var own: seq<Position> := [];
        var mine: seq<string> := [];
        if ms[i].key in FORBIDDEN_KEYS {
          ReportsOwn(value, path, i);
          own := [[i]];
          mine := [childPath];
        } else {
          NothingReported(value, path);
        }
        var below := CollectLeaks(ms[i].value, childPath);
        ReportsUnder(below, value, path, i, LeakPositions(ms[i].value));
        ReportsConcat(mine, below, value, path, own, Under(i, LeakPositions(ms[i].value)));
        ReportsConcat(leaks, mine + below, value, path, MemberPositions(ms, i),
                      own + Under(i, LeakPositions(ms[i].value)));
        leaks := leaks + (mine + below);
      }
    } else if value.Arr? {
      var items := value.items;
      for i := 0 to |items|
        invariant Reports(leaks, value, path, ItemPositions(items, i))
      {
        var below := CollectLeaks(items[i], path + StepText(value, i));
        ReportsUnder(below, value, path, i, LeakPositions(items[i]));
        ReportsConcat(leaks, below, value, path, ItemPositions(items, i), Under(i, LeakPositions(items[i])));
        leaks := leaks + below;
      }
    }
  }

  lemma NothingReported(v: Json, path: string)
    ensures Reports([], v, path, [])
  {
  }

  // ----- exactly the forbidden positions, once each, in preorder -----

  predicate Ordered(ps: seq<Position>) {
    forall i, j :: 0 <= i < j < |ps| ==> Before(ps[i], ps[j])
  }

  lemma BeforeCons(i: nat, p: Position, j: nat, q: Position)
    ensures i < j ==> Before([i] + p, [j] + q)
    ensures i == j && Before(p, q) ==> Before([i] + p, [j] + q)
    ensures i == j && p == [] && q != [] ==> Before([i] + p, [j] + q)
  {
    assert ([i] + p)[1..] == p && ([j] + q)[1..] == q;
  }

  lemma {:induction false} BeforeIrreflexive(p: Position)
    ensures !Before(p, p)
  {
    if p != [] { BeforeIrreflexive(p[1..]); }
  }

  /** The reports of the children 0..n-1: ordered, and below one of those children. */
  lemma AppendChild(before: seq<Position>, n: nat, own: seq<Position>, below: seq<Position>)
    requires Ordered(before) && Ordered(below)
    requires forall k :: 0 <= k < |before| ==> before[k] != [] && before[k][0] < n
    requires own == [] || own == [[n]]
    requires forall k :: 0 <= k < |below| ==> below[k] != []
    ensures var all := before + (own + Under(n, below));
            Ordered(all) && forall k :: 0 <= k < |all| ==> all[k] != [] && all[k][0] < n + 1
  {
    hide Before;
    var all := before + (own + Under(n, below));
    var m := |before| + |own|;
    assert forall k :: m <= k < |all| ==> all[k] == [n] + below[k - m];
    assert own != [] ==> all[|before|] == [n] + [];
    forall i, j | 0 <= i < j < |all| ensures Before(all[i], all[j]) {
      if i < |before| {
        if j >= |before| {
          assert all[j] == [n] + all[j][1..] && before[i] == [before[i][0]] + before[i][1..];
          BeforeCons(before[i][0], before[i][1..], n, all[j][1..]);
        }
      } else if i < m {
        BeforeCons(n, [], n, below[j - m]);
      } else {
        assert Before(below[i - m], below[j - m]);
        BeforeCons(n, below[i - m], n, below[j - m]);
      }
    }
  }

  /** The scan's order is the preorder of the tree, so no position is reported twice. */
  lemma {:induction false} ReportedInPreorder(v: Json)
    ensures Ordered(LeakPositions(v)) && forall k :: 0 <= k < |LeakPositions(v)| ==> LeakPositions(v)[k] != []
    decreases v, 0, 0
  {
    hide Before;
    match v
    case Arr(items) => ItemsInPreorder(items, |items|);
    case Obj(ms) => MembersInPreorder(ms, |ms|);
    case _ =>
  }

  lemma ItemPositionsStep(items: seq<Json>, n: nat)
    requires 0 < n <= |items|
    ensures ItemPositions(items, n) == ItemPositions(items, n - 1) + ([] + Under(n - 1, LeakPositions(items[n - 1])))
  {
    hide LeakPositions, Under;
    var below := Under(n - 1, LeakPositions(items[n - 1]));
    assert [] + below == below;
  }

  lemma {:induction false} ItemsInPreorder(items: seq<Json>, n: nat)
    requires n <= |items|
    ensures var ps := ItemPositions(items, n);
            Ordered(ps) && forall k :: 0 <= k < |ps| ==> ps[k] != [] && ps[k][0] < n
    decreases items, 1, n
  {
    hide Before, LeakPositions, Under;
    if n > 0 {
      ItemPositionsStep(items, n);
      hide Ordered, ItemPositions;
      ItemsInPreorder(items, n - 1);
      ReportedInPreorder(items[n - 1]);
      AppendChild(ItemPositions(items, n - 1), n - 1, [], LeakPositions(items[n - 1]));
    }
  }

  lemma {:induction false} MembersInPreorder(ms: seq<Member>, n: nat)
    requires n <= |ms|
    ensures var ps := MemberPositions(ms, n);
            Ordered(ps) && forall k :: 0 <= k < |ps| ==> ps[k] != [] && ps[k][0] < n
    decreases ms, 1, n
  {
    hide Before, LeakPositions, Under;
    if n > 0 {
      hide Ordered;
      MembersInPreorder(ms, n - 1);
      ReportedInPreorder(ms[n - 1].value);
      AppendChild(MemberPositions(ms, n - 1), n - 1, if ms[n - 1].key in FORBIDDEN_KEYS then [[n - 1]] else [],
                  LeakPositions(ms[n - 1].value));
    }
  }

  lemma LeakCons(v: Json, i: nat, pos: Position)
    ensures IsLeak(v, [i] + pos) <==>
            && Child(v, i).Some?
            && if pos == [] then v.Obj? && v.members[i].key in FORBIDDEN_KEYS else IsLeak(Child(v, i).value, pos)
  {
    assert ([i] + pos)[1..] == pos && ([i] + pos)[0] == i;
  }

  lemma UnderMembers(i: nat, ps: seq<Position>, pos: Position)
    ensures pos in Under(i, ps) <==> pos != [] && pos[0] == i && pos[1..] in ps
  {
    if pos in Under(i, ps) {
      var k :| 0 <= k < |ps| && [i] + ps[k] == pos;
      assert pos[1..] == ps[k];
    }
    if pos != [] && pos[0] == i && pos[1..] in ps {
      var k :| 0 <= k < |ps| && ps[k] == pos[1..];
      assert Under(i, ps)[k] == pos;
    }
  }

  /** The scan reports a position exactly when it is in the tree at any depth and its key is forbidden. */
  lemma {:induction false} ReportedExactlyTheLeaks(v: Json, pos: Position)
    ensures pos in LeakPositions(v) <==> IsLeak(v, pos)
    decreases v, 0, 0
  {
    hide IsLeak;
    if pos != [] {
      assert pos == [pos[0]] + pos[1..];
      LeakCons(v, pos[0], pos[1..]);
    } else {
      RootIsNoLeak(v);
      ReportedInPreorder(v);
    }
    match v
    case Arr(items) => ItemsReported(items, |items|, pos);
    case Obj(ms) => MembersReported(ms, |ms|, pos);
    case _ =>
  }

  lemma RootIsNoLeak(v: Json)
    ensures !IsLeak(v, [])
  {
  }

  lemma {:induction false} ItemsReported(items: seq<Json>, n: nat, pos: Position)
    requires n <= |items|
    ensures pos in ItemPositions(items, n) <==>
            pos != [] && pos[0] < n && pos[1..] != [] && IsLeak(items[pos[0]], pos[1..])
    decreases items, 1, n
  {
    hide IsLeak, LeakPositions;
    if n > 0 {
      ItemsReported(items, n - 1, pos);
      UnderMembers(n - 1, LeakPositions(items[n - 1]), pos);
      if pos != [] {
        ReportedExactlyTheLeaks(items[n - 1], pos[1..]);
        RootIsNoLeak(items[n - 1]);
      }
    }
  }

  lemma {:induction false} MembersReported(ms: seq<Member>, n: nat, pos: Position)
    requires n <= |ms|
    ensures pos in MemberPositions(ms, n) <==>
            pos != [] && pos[0] < n &&
            if pos[1..] == [] then ms[pos[0]].key in FORBIDDEN_KEYS else IsLeak(ms[pos[0]].value, pos[1..])
    decreases ms, 1, n
  {
    hide IsLeak, LeakPositions;
    if n > 0 {
      MembersReported(ms, n - 1, pos);
      UnderMembers(n - 1, LeakPositions(ms[n - 1].value), pos);
      var own := if ms[n - 1].key in FORBIDDEN_KEYS then [[n - 1]] else [];
      if pos != [] {
        assert pos == [pos[0]] + pos[1..];
        ReportedExactlyTheLeaks(ms[n - 1].value, pos[1..]);
        RootIsNoLeak(ms[n - 1].value);
        assert pos in own <==> pos == [n - 1] && ms[n - 1].key in FORBIDDEN_KEYS;
      }
      assert MemberPositions(ms, n) ==
             MemberPositions(ms, n - 1) + (own + Under(n - 1, LeakPositions(ms[n - 1].value)));
    }
  }

  /** No position is reported twice. */
  lemma ReportedOnce(v: Json, i: nat, j: nat)
    requires i < j < |LeakPositions(v)|
    ensures LeakPositions(v)[i] != LeakPositions(v)[j]
  {
    ReportedInPreorder(v);
    assert Before(LeakPositions(v)[i], LeakPositions(v)[j]);
    BeforeIrreflexive(LeakPositions(v)[i]);
  }

  // ----- validate_public_view -----

  datatype View = View(schema: string, ok: bool, leaks: seq<string>)

  /** result_payload: the object to check inside an API envelope. */
  function ResultPayload(envelope: Json): Option<Json>
    requires envelope.Obj?
  {
    if Get(envelope.members, "schema") == Str("audit_query_api_response/v1") then
      if Get(envelope.members, "result").Obj? then Some(Get(envelope.members, "result")) else None
    else Some(envelope)
  }

  /** An object whose schema names the query envelope is checked through its result, which must be an object;
      every other object is checked itself. */
  lemma PayloadChosen(ms: seq<Member>)
    requires UniqueKeys(ms)
    ensures Member("schema", Str("audit_query_api_response/v1")) !in ms ==> ResultPayload(Obj(ms)) == Some(Obj(ms))
    ensures Member("schema", Str("audit_query_api_response/v1")) in ms ==>
              forall p: Json :: ResultPayload(Obj(ms)) == Some(p) <==> p.Obj? && Member("result", p) in ms
  {
    GetIsMember(ms, "schema");
    GetIsMember(ms, "result");
  }

  lemma GetIsMember(ms: seq<Member>, k: string)
    requires UniqueKeys(ms)
    ensures forall v: Json :: v != Null ==> (Get(ms, k) == v <==> Member(k, v) in ms)
  {
    forall v: Json | v != Null ensures Get(ms, k) == v <==> Member(k, v) in ms {
      if Get(ms, k) == v {
        var i :| 0 <= i < |ms| && ms[i].key == k;
        assert ms[i] == Member(k, v);
      }
    }
  }

  /** The view is refused when it is no public schema; otherwise its status is ok exactly when no position
      at any depth has a forbidden key, and the leaks are the texts of those positions in preorder. */
  method ValidatePublicView(envelope: Json) returns (r: Result<View>)
    requires envelope.Obj?
    ensures r.Ok? <==>
            && ResultPayload(envelope).Some?
            && var schema := Get(ResultPayload(envelope).value.members, "schema");
               schema.Str? && schema.s in PUBLIC_SCHEMAS
    ensures r.Ok? ==>
            var payload := ResultPayload(envelope).value;
            && (r.value.ok <==> forall pos: Position :: !IsLeak(payload, pos))
            && Reports(r.value.leaks, payload, "$", LeakPositions(payload))
  {
    hide IsLeak, LeakPositions, Get;
    var payload := ResultPayload(envelope);
    if payload.None? {
      return Err("audit query response result must be an object");
    }
    var schema := Get(payload.value.members, "schema");
    if !(schema.Str? && schema.s in PUBLIC_SCHEMAS) {
      return Err("not a caller-safe audit API schema");
    }
    var leaks := CollectLeaks(payload.value, "$");
    ghost var ps := LeakPositions(payload.value);
    forall pos: Position ensures pos in ps <==> IsLeak(payload.value, pos) {
      ReportedExactlyTheLeaks(payload.value, pos);
    }
    assert |leaks| == |ps|;
    if leaks == [] {
      assert ps == [];
      assert forall pos: Position :: !IsLeak(payload.value, pos);
    } else {
      assert ps[0] in ps && IsLeak(payload.value, ps[0]);
    }
    r := Ok(View(schema.s, leaks == [], leaks));
  }
}
