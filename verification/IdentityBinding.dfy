/** api_identity.py: rewriting a query payload under the identity that submits it, and the scope check
    made on what the query leaves behind. */
module IdentityBinding {
  import opened PyText
  import opened JsonText

  type Payload = map<string, Json>

  /** tenantId is "" for an identity without a tenant; granted holds the permissions that are true. */
  datatype Identity = Identity(caller: string, tenantId: string, roles: set<string>, enabled: bool,
                               granted: set<string>, datasets: seq<string>, services: seq<string>)

  datatype Refusal =
    | NotSubmitter
    | NotExecutor
    | CallerMismatch
    | TenantMismatch
    | Disabled
    | MissingPermission(key: string)
    | ValueNotAllowed(field: string, value: string)
    | ValueMissing(field: string)
    | ScopeMissing

  datatype Outcome<+T> = Granted(value: T) | Refused(why: Refusal)

  const PRIVILEGED: set<string> := {"platform_admin", "platform_auditor"}
  const SUBMITTERS: set<string> := {"platform_admin", "query_submitter"}
  const EXECUTORS: set<string> := {"platform_admin", "privacy_operator"}
  const RECOVERY: string := "can_use_record_recovery_service"
  const SERVICE: string := "record_recovery_service_id"

  predicate HasAnyRole(id: Identity, roles: set<string>) { id.roles * roles != {} }

  predicate Privileged(id: Identity) { HasAnyRole(id, PRIVILEGED) }

  // ----- payload values -----

  /** payload.get(field) */
  function Field(p: Payload, field: string): Json { if field in p then p[field] else Null }

  /** str(value or ""); repr is how a non-empty list or dict is written. */
  function TextOf(v: Json, repr: Json -> string): string {
    match v
    case Null => ""
    case Bool(b) => if b then "True" else ""
    case Int(n) => if n == 0 then "" else Decimal(n)
    case Str(s) => s
    case Arr(items) => if items == [] then "" else repr(v)
    case Obj(members) => if members == [] then "" else repr(v)
  }

  function Requested(p: Payload, field: string, repr: Json -> string): string {
    Strip(TextOf(Field(p, field), repr))
  }

  /** value in (None, "", own) */
  predicate Unclaimed(v: Json, own: string) { v == Null || v == Str("") || v == Str(own) }

  /** query_uses_record_recovery */
  predicate UsesRecordRecovery(p: Payload, repr: Json -> string) {
    || Requested(p, "record_recovery_socket", repr) != ""
    || Requested(p, "record_recovery_endpoint_url", repr) != ""
    || Requested(p, "record_recovery_service_config", repr) != ""
    || Requested(p, "record_recovery_authz_config", repr) != ""
    || Requested(p, SERVICE, repr) != ""
    || Requested(p, "record_recovery_service_mode", repr) in {"manual", "subprocess"}
  }

  /** _bind_allowed_scope_value: what comes back is on the allow-list, unless there is none or nothing was
      asked for and nothing is needed. */
  function BindAllowed(requested: string, allowed: seq<string>, field: string, required: bool): (r: Outcome<string>)
    ensures r.Refused? <==> || (requested != "" && allowed != [] && requested !in allowed)
                            || (requested == "" && |allowed| > 1 && required)
    ensures r.Granted? ==> || r.value in allowed
                           || (allowed == [] && r.value == requested)
                           || (r.value == requested == "" && |allowed| > 1 && !required)
    ensures r.Granted? && requested != "" ==> r.value == requested
  {
    if requested != "" then
      if allowed != [] && requested !in allowed then Refused(ValueNotAllowed(field, requested)) else Granted(requested)
    else if |allowed| == 1 then Granted(allowed[0])
    else if required && |allowed| > 1 then Refused(ValueMissing(field))
    else Granted(requested)
  }

  // ----- binding a request -----

  function DatasetOf(id: Identity, p: Payload, repr: Json -> string): Outcome<string> {
    BindAllowed(Requested(p, "dataset_id", repr), id.datasets, "dataset_id", true)
  }

  function ServiceOf(id: Identity, p: Payload, repr: Json -> string): Outcome<string> {
    BindAllowed(Requested(p, SERVICE, repr), id.services, SERVICE, UsesRecordRecovery(p, repr))
  }

  /** The checks a caller without a privileged role must pass besides the common ones, in order. */
  function RestrictedRefusal(id: Identity, p: Payload, repr: Json -> string): Option<Refusal> {
    if !id.enabled then Some(Disabled)
    else if "can_run_bridge" !in id.granted then Some(MissingPermission("can_run_bridge"))
    else if "can_run_pjc" !in id.granted then Some(MissingPermission("can_run_pjc"))
    else if DatasetOf(id, p, repr).Refused? then Some(DatasetOf(id, p, repr).why)
    else if UsesRecordRecovery(p, repr) && RECOVERY !in id.granted then Some(MissingPermission(RECOVERY))
    else if ServiceOf(id, p, repr).Refused? then Some(ServiceOf(id, p, repr).why)
    else None
  }

  /** The first check the request fails, read off the request as submitted. */
  function FirstRefusal(id: Identity, p: Payload, execute: bool, repr: Json -> string): Option<Refusal> {
    if !HasAnyRole(id, SUBMITTERS) then Some(NotSubmitter)
    else if execute && !HasAnyRole(id, EXECUTORS) then Some(NotExecutor)
    else if !Unclaimed(Field(p, "caller"), id.caller) then Some(CallerMismatch)
    else if id.tenantId != "" && !Unclaimed(Field(p, "tenant_id"), id.tenantId) then Some(TenantMismatch)
    else if Privileged(id) then None
    else RestrictedRefusal(id, p, repr)
  }

  /** The request with the identity written over it. */
  function Overwritten(id: Identity, p: Payload, repr: Json -> string): Payload {
    var named := p["caller" := Str(id.caller)];
    var owned := if id.tenantId != "" then named["tenant_id" := Str(id.tenantId)] else named;
    if Privileged(id) || DatasetOf(id, p, repr).Refused? || ServiceOf(id, p, repr).Refused? then owned
    else
      var placed := owned["dataset_id" := Str(DatasetOf(id, p, repr).value)];
      if ServiceOf(id, p, repr).value != "" then placed[SERVICE := Str(ServiceOf(id, p, repr).value)] else placed
  }

  function Binding(id: Identity, p: Payload, execute: bool, repr: Json -> string): Outcome<Payload> {
    match FirstRefusal(id, p, execute, repr)
    case Some(why) => Refused(why)
    case None => Granted(Overwritten(id, p, repr))
  }

  lemma SameField(p: Payload, q: Payload, field: string, repr: Json -> string)
    requires Field(p, field) == Field(q, field)
    ensures Requested(p, field, repr) == Requested(q, field, repr)
  {
  }

  /** A granted request is the overwritten one, and passed every check. */
  lemma GrantedParts(id: Identity, p: Payload, execute: bool, repr: Json -> string)
    requires Binding(id, p, execute, repr).Granted?
    ensures Binding(id, p, execute, repr).value == Overwritten(id, p, repr)
    ensures !Privileged(id) ==>
              && DatasetOf(id, p, repr).Granted? && ServiceOf(id, p, repr).Granted?
              && (UsesRecordRecovery(p, repr) ==> RECOVERY in id.granted)
  {
    hide TextOf, Strip, Field, Requested, UsesRecordRecovery, HasAnyRole, BindAllowed, Overwritten;
  }

  /** What the overwritten request holds under each key. */
  lemma OverwrittenFields(id: Identity, p: Payload, repr: Json -> string)
    requires !Privileged(id) ==> DatasetOf(id, p, repr).Granted? && ServiceOf(id, p, repr).Granted?
    ensures var b := Overwritten(id, p, repr);
            && Field(b, "caller") == Str(id.caller)
            && Field(b, "tenant_id") == (if id.tenantId != "" then Str(id.tenantId) else Field(p, "tenant_id"))
            && Field(b, "dataset_id") ==
                 (if Privileged(id) then Field(p, "dataset_id") else Str(DatasetOf(id, p, repr).value))
            && Field(b, SERVICE) ==
                 (if Privileged(id) || ServiceOf(id, p, repr).value == "" then Field(p, SERVICE)
                  else Str(ServiceOf(id, p, repr).value))
            && (forall k :: k !in {"caller", "tenant_id", "dataset_id", SERVICE} ==>
                  (k in b <==> k in p) && Field(b, k) == Field(p, k))
  {
    hide TextOf, Strip, Requested, UsesRecordRecovery, HasAnyRole, Privileged, BindAllowed, DatasetOf, ServiceOf;
  }

  /** Two payloads that agree on the record recovery fields ask for the same service. */
  lemma SameRecoveryFields(p: Payload, q: Payload, repr: Json -> string)
    requires forall k :: k !in {"caller", "tenant_id", "dataset_id"} ==> Field(p, k) == Field(q, k)
    ensures UsesRecordRecovery(p, repr) == UsesRecordRecovery(q, repr)
    ensures forall id :: ServiceOf(id, p, repr) == ServiceOf(id, q, repr)
  {
    hide TextOf, Strip, Field, BindAllowed;
    assert Field(p, "record_recovery_socket") == Field(q, "record_recovery_socket");
    assert Field(p, "record_recovery_endpoint_url") == Field(q, "record_recovery_endpoint_url");
    assert Field(p, "record_recovery_service_config") == Field(q, "record_recovery_service_config");
    assert Field(p, "record_recovery_authz_config") == Field(q, "record_recovery_authz_config");
    assert Field(p, "record_recovery_service_mode") == Field(q, "record_recovery_service_mode");
    assert Field(p, SERVICE) == Field(q, SERVICE);
  }

  /** bind_query_request_to_identity: one pass that overwrites a copy of the payload as it checks it. Every
      check can be read off the request as submitted, although later ones look at the overwritten copy. */
  method BindQueryRequest(id: Identity, payload: Payload, execute: bool, repr: Json -> string)
    returns (r: Outcome<Payload>)
    ensures r == Binding(id, payload, execute, repr)
  {
    hide TextOf, Strip, BindAllowed, UsesRecordRecovery, HasAnyRole, Privileged, Requested;
    if !HasAnyRole(id, SUBMITTERS) { return Refused(NotSubmitter); }
    if execute && !HasAnyRole(id, EXECUTORS) { return Refused(NotExecutor); }
    var bound := payload;
    if !Unclaimed(Field(bound, "caller"), id.caller) { return Refused(CallerMismatch); }
    bound := bound["caller" := Str(id.caller)];
    if id.tenantId != "" {
      if !Unclaimed(Field(bound, "tenant_id"), id.tenantId) { return Refused(TenantMismatch); }
      bound := bound["tenant_id" := Str(id.tenantId)];
    }
    if !Privileged(id) {
      if !id.enabled { return Refused(Disabled); }
      if "can_run_bridge" !in id.granted { return Refused(MissingPermission("can_run_bridge")); }
      if "can_run_pjc" !in id.granted { return Refused(MissingPermission("can_run_pjc")); }
      SameField(payload, bound, "dataset_id", repr);
      var dataset := BindAllowed(Requested(bound, "dataset_id", repr), id.datasets, "dataset_id", true);
      if dataset.Refused? { return Refused(dataset.why); }
      bound := bound["dataset_id" := Str(dataset.value)];
      SameRecoveryFields(payload, bound, repr);
      var uses := UsesRecordRecovery(bound, repr);
      if uses && RECOVERY !in id.granted { return Refused(MissingPermission(RECOVERY)); }
      assert ServiceOf(id, payload, repr) == ServiceOf(id, bound, repr);
      var service := BindAllowed(Requested(bound, SERVICE, repr), id.services, SERVICE, uses);
      if service.Refused? { return Refused(service.why); }
      if service.value != "" {
        bound := bound[SERVICE := Str(service.value)];
      }
    }
    r := Granted(bound);
  }

  /** What a granted request is bound to: the identity's caller and tenant, a dataset and service id from its
      allow-lists (or, with no list, what was asked for), and every other key as submitted. */
  lemma BoundToIdentity(id: Identity, p: Payload, execute: bool, repr: Json -> string)
    requires Binding(id, p, execute, repr).Granted?
    ensures var b := Binding(id, p, execute, repr).value;
            && Field(b, "caller") == Str(id.caller)
            && (id.tenantId != "" ==> Field(b, "tenant_id") == Str(id.tenantId))
            && (id.tenantId == "" ==> Field(b, "tenant_id") == Field(p, "tenant_id"))
            && (forall k :: k !in {"caller", "tenant_id", "dataset_id", SERVICE} ==>
                  (k in b <==> k in p) && Field(b, k) == Field(p, k))
            && (Privileged(id) ==>
                  Field(b, "dataset_id") == Field(p, "dataset_id") && Field(b, SERVICE) == Field(p, SERVICE))
            && (!Privileged(id) ==>
                  && (exists d ::
                        && Field(b, "dataset_id") == Str(d)
                        && (if id.datasets == [] then d == Requested(p, "dataset_id", repr) else d in id.datasets)
                        && (Requested(p, "dataset_id", repr) != "" ==> d == Requested(p, "dataset_id", repr)))
                  && (Requested(b, SERVICE, repr) != "" && id.services != [] ==>
                        exists s :: Field(b, SERVICE) == Str(s) && s in id.services)
                  && (UsesRecordRecovery(p, repr) ==> RECOVERY in id.granted)
                  && (UsesRecordRecovery(p, repr) && id.services != [] && "" !in id.services ==>
                        exists s :: Field(b, SERVICE) == Str(s) && s in id.services))
  {
    hide TextOf, Strip, UsesRecordRecovery, Binding, Overwritten, Field, HasAnyRole;
    GrantedParts(id, p, execute, repr);
    OverwrittenFields(id, p, repr);
  }

  // ----- who is granted, and why others are refused -----

  /** The request asks for record recovery: one of five fields has a text, or the mode is one of two. */
  lemma RecoveryMeans(p: Payload, repr: Json -> string)
    ensures UsesRecordRecovery(p, repr) <==>
            || (exists k ::
                  && k in {"record_recovery_socket", "record_recovery_endpoint_url", "record_recovery_service_config",
                           "record_recovery_authz_config", "record_recovery_service_id"}
                  && Requested(p, k, repr) != "")
            || Requested(p, "record_recovery_service_mode", repr) == "manual"
            || Requested(p, "record_recovery_service_mode", repr) == "subprocess"
  {
    hide Requested;
  }

  /** The text of a request field: falsy values have none, strings are themselves, up to blanks at the ends. */
  lemma RequestedMeans(p: Payload, k: string, repr: Json -> string)
    ensures k !in p ==> Requested(p, k, repr) == ""
    ensures k in p && (p[k] == Null || p[k] == Bool(false) || p[k] == Int(0) || p[k] == Arr([]) || p[k] == Obj([])) ==>
              Requested(p, k, repr) == ""
    ensures k in p && p[k].Str? ==> Requested(p, k, repr) == Strip(p[k].s)
  {
    hide Strip;
    StripEmpty();
  }

  /** The requested text can be bound under the allow-list; nothing requested is fine unless a choice is needed. */
  predicate Admissible(requested: string, allowed: seq<string>, choiceNeeded: bool) {
    if requested != "" then allowed == [] || requested in allowed else |allowed| <= 1 || !choiceNeeded
  }

  function InadmissibleRefusal(requested: string, field: string): Refusal {
    if requested != "" then ValueNotAllowed(field, requested) else ValueMissing(field)
  }

  /** A request is granted exactly when every condition holds; otherwise the refusal names the first that fails. */
  lemma GrantedExactlyWhen(id: Identity, p: Payload, execute: bool, repr: Json -> string)
    ensures var r := Binding(id, p, execute, repr);
            var submitter := "platform_admin" in id.roles || "query_submitter" in id.roles;
            var executor := !execute || "platform_admin" in id.roles || "privacy_operator" in id.roles;
            var caller := "caller" !in p || p["caller"] in [Null, Str(""), Str(id.caller)];
            var tenant := id.tenantId == "" || "tenant_id" !in p || p["tenant_id"] in [Null, Str(""), Str(id.tenantId)];
            var privileged := "platform_admin" in id.roles || "platform_auditor" in id.roles;
            var dataset, service := Requested(p, "dataset_id", repr), Requested(p, "record_recovery_service_id", repr);
            var uses := UsesRecordRecovery(p, repr);
            var mayRecover := !uses || "can_use_record_recovery_service" in id.granted;
            && (r.Granted? <==>
                  && submitter && executor && caller && tenant
                  && (privileged ||
                      (id.enabled && "can_run_bridge" in id.granted && "can_run_pjc" in id.granted
                       && Admissible(dataset, id.datasets, true) && mayRecover
                       && Admissible(service, id.services, uses))))
            && (r.Refused? ==>
                  r.why ==
                  if !submitter then NotSubmitter
                  else if !executor then NotExecutor
                  else if !caller then CallerMismatch
                  else if !tenant then TenantMismatch
                  else if !id.enabled then Disabled
                  else if "can_run_bridge" !in id.granted then MissingPermission("can_run_bridge")
                  else if "can_run_pjc" !in id.granted then MissingPermission("can_run_pjc")
                  else if !Admissible(dataset, id.datasets, true) then InadmissibleRefusal(dataset, "dataset_id")
                  else if !mayRecover then MissingPermission("can_use_record_recovery_service")
                  else InadmissibleRefusal(service, "record_recovery_service_id"))
  {
    hide TextOf, Strip, Requested, UsesRecordRecovery, Overwritten;
    RolesMean(id);
    assert Field(p, "caller") == if "caller" in p then p["caller"] else Null;
    assert Field(p, "tenant_id") == if "tenant_id" in p then p["tenant_id"] else Null;
  }

  lemma RolesMean(id: Identity)
    ensures HasAnyRole(id, SUBMITTERS) <==> "platform_admin" in id.roles || "query_submitter" in id.roles
    ensures HasAnyRole(id, EXECUTORS) <==> "platform_admin" in id.roles || "privacy_operator" in id.roles
    ensures Privileged(id) <==> "platform_admin" in id.roles || "platform_auditor" in id.roles
  {
    AnyOfTwo(id, SUBMITTERS, "platform_admin", "query_submitter");
    AnyOfTwo(id, EXECUTORS, "platform_admin", "privacy_operator");
    AnyOfTwo(id, PRIVILEGED, "platform_admin", "platform_auditor");
  }

  lemma AnyOfTwo(id: Identity, roles: set<string>, a: string, b: string)
    requires roles == {a, b}
    ensures HasAnyRole(id, roles) <==> a in id.roles || b in id.roles
  {
    if a in id.roles { assert a in id.roles * roles; }
    if b in id.roles { assert b in id.roles * roles; }
  }

  // ----- binding a bound request again -----

  /** The one value of an allow-list that is filled in because nothing was asked for. */
  predicate FilledIn(requested: string, allowed: seq<string>) { requested == "" && |allowed| == 1 && allowed[0] != "" }

  /** When a bound request can be bound again: a dataset or service id that was filled in from the allow-list is
      all blanks or has no blanks at its ends, and a filled-in service id may be used. */
  predicate Settled(id: Identity, p: Payload, repr: Json -> string) {
    Privileged(id) ||
    ((FilledIn(Requested(p, "dataset_id", repr), id.datasets) ==>
        Strip(id.datasets[0]) == "" || Strip(id.datasets[0]) == id.datasets[0]) &&
     (FilledIn(Requested(p, SERVICE, repr), id.services) ==>
        || Strip(id.services[0]) == ""
        || (Strip(id.services[0]) == id.services[0] && RECOVERY in id.granted)))
  }

  /** The recovery fields of a bound request ask for what the request asked for, plus a filled-in service. */
  lemma RecoveryOfBound(id: Identity, p: Payload, execute: bool, repr: Json -> string)
    requires Binding(id, p, execute, repr).Granted? && !Privileged(id)
    ensures var b := Binding(id, p, execute, repr).value;
            && UsesRecordRecovery(b, repr) == (UsesRecordRecovery(p, repr) || Requested(b, SERVICE, repr) != "")
            && (if ServiceOf(id, p, repr).value != "" then Field(b, SERVICE) == Str(ServiceOf(id, p, repr).value)
                else Field(b, SERVICE) == Field(p, SERVICE))
            && Field(b, "dataset_id") == Str(DatasetOf(id, p, repr).value)
  {
    hide TextOf, Strip, BindAllowed, HasAnyRole, Privileged, Binding, Overwritten;
    GrantedParts(id, p, execute, repr);
    OverwrittenFields(id, p, repr);
    var b := Binding(id, p, execute, repr).value;
    assert Field(b, "record_recovery_socket") == Field(p, "record_recovery_socket");
    assert Field(b, "record_recovery_endpoint_url") == Field(p, "record_recovery_endpoint_url");
    assert Field(b, "record_recovery_service_config") == Field(p, "record_recovery_service_config");
    assert Field(b, "record_recovery_authz_config") == Field(p, "record_recovery_authz_config");
    assert Field(b, "record_recovery_service_mode") == Field(p, "record_recovery_service_mode");
    if Requested(p, SERVICE, repr) != "" {
      ServiceKept(id, p, repr);
      StripIdempotent(TextOf(Field(p, SERVICE), repr));
      assert Requested(b, SERVICE, repr) == Requested(p, SERVICE, repr) by {
        TextOfStr(Requested(p, SERVICE, repr), repr);
      }
    }
  }

  lemma ServiceKept(id: Identity, p: Payload, repr: Json -> string)
    requires ServiceOf(id, p, repr).Granted? && Requested(p, SERVICE, repr) != ""
    ensures ServiceOf(id, p, repr).value == Requested(p, SERVICE, repr)
  {
    hide TextOf, Strip, UsesRecordRecovery;
  }

  lemma TextOfStr(s: string, repr: Json -> string)
    ensures TextOf(Str(s), repr) == s
  {
  }

  predicate SameChoices(id: Identity, p: Payload, q: Payload, repr: Json -> string) {
    DatasetOf(id, q, repr) == DatasetOf(id, p, repr) && ServiceOf(id, q, repr) == ServiceOf(id, p, repr)
  }

  /** Binding a bound request again passes the common checks; the rest is up to the fields it filled in. */
  lemma GrantedAgain(id: Identity, p: Payload, execute: bool, repr: Json -> string)
    requires Binding(id, p, execute, repr).Granted?
    ensures var b := Binding(id, p, execute, repr).value;
            && (Privileged(id) ==> Binding(id, b, execute, repr) == Granted(b))
            && (!Privileged(id) && RestrictedRefusal(id, b, repr).Some? ==> Binding(id, b, execute, repr).Refused?)
            && (!Privileged(id) && RestrictedRefusal(id, b, repr).None? ==>
                  && Binding(id, b, execute, repr).Granted?
                  && (SameChoices(id, p, b, repr) ==>
                        Binding(id, b, execute, repr) == Granted(b)))
  {
    hide TextOf, Strip, UsesRecordRecovery, Field, HasAnyRole, RestrictedRefusal, Privileged, DatasetOf, ServiceOf;
    hide Overwritten;
    var b := Binding(id, p, execute, repr).value;
    assert !Privileged(id) ==> DatasetOf(id, p, repr).Granted? && ServiceOf(id, p, repr).Granted? by {
      GrantedParts(id, p, execute, repr);
    }
    OverwrittenFields(id, p, repr);
    if Privileged(id) || SameChoices(id, p, b, repr) {
      OverwrittenTwice(id, p, repr);
    }
  }

  /** Writing the same values over a request a second time changes nothing. */
  lemma OverwrittenTwice(id: Identity, p: Payload, repr: Json -> string)
    requires !Privileged(id) ==> DatasetOf(id, p, repr).Granted? && ServiceOf(id, p, repr).Granted?
    requires var b := Overwritten(id, p, repr);
             || Privileged(id)
             || (DatasetOf(id, b, repr) == DatasetOf(id, p, repr) && ServiceOf(id, b, repr) == ServiceOf(id, p, repr))
    ensures Overwritten(id, Overwritten(id, p, repr), repr) == Overwritten(id, p, repr)
  {
    hide TextOf, Strip, Requested, UsesRecordRecovery, HasAnyRole, Privileged, BindAllowed, DatasetOf, ServiceOf;
  }

  /** Binding a filled-in value again: the dataset is refused, or comes out the same, as its text decides. */
  lemma SettledDataset(id: Identity, p: Payload, b: Payload, repr: Json -> string)
    requires DatasetOf(id, p, repr).Granted? && Field(b, "dataset_id") == Str(DatasetOf(id, p, repr).value)
    ensures var fine := FilledIn(Requested(p, "dataset_id", repr), id.datasets) ==>
                          Strip(id.datasets[0]) == "" || Strip(id.datasets[0]) == id.datasets[0];
            if fine then DatasetOf(id, b, repr) == DatasetOf(id, p, repr) else DatasetOf(id, b, repr).Refused?
  {
    hide TextOf, Strip, Field;
    TextOfStr(DatasetOf(id, p, repr).value, repr);
    StripIdempotent(TextOf(Field(p, "dataset_id"), repr));
    StripEmpty();
  }

  lemma ServiceMeansRecovery(p: Payload, repr: Json -> string)
    ensures Requested(p, SERVICE, repr) != "" ==> UsesRecordRecovery(p, repr)
  {
    hide Requested;
  }

  lemma PassedBasics(id: Identity, p: Payload, execute: bool, repr: Json -> string)
    requires Binding(id, p, execute, repr).Granted? && !Privileged(id)
    ensures id.enabled && "can_run_bridge" in id.granted && "can_run_pjc" in id.granted
  {
    hide TextOf, Strip, Field, Requested, UsesRecordRecovery, HasAnyRole, BindAllowed, Overwritten;
  }

  lemma StripEmpty()
    ensures Strip("") == ""
  {
    var _, _ := StripSplits("");
  }

  /** Binding a filled-in service id again is fine exactly as Settled says. */
  lemma SettledService(id: Identity, p: Payload, b: Payload, repr: Json -> string)
    requires ServiceOf(id, p, repr).Granted? && (UsesRecordRecovery(p, repr) ==> RECOVERY in id.granted)
    requires UsesRecordRecovery(b, repr) == (UsesRecordRecovery(p, repr) || Requested(b, SERVICE, repr) != "")
    requires Requested(p, SERVICE, repr) != "" ==> UsesRecordRecovery(p, repr)
    requires if ServiceOf(id, p, repr).value != "" then Field(b, SERVICE) == Str(ServiceOf(id, p, repr).value)
             else Field(b, SERVICE) == Field(p, SERVICE)
    ensures var fine := FilledIn(Requested(p, SERVICE, repr), id.services) ==>
                          || Strip(id.services[0]) == ""
                          || (Strip(id.services[0]) == id.services[0] && RECOVERY in id.granted);
            if fine then
              && ServiceOf(id, b, repr) == ServiceOf(id, p, repr)
              && (UsesRecordRecovery(b, repr) ==> RECOVERY in id.granted)
            else ServiceOf(id, b, repr).Refused? || (UsesRecordRecovery(b, repr) && RECOVERY !in id.granted)
  {
    hide TextOf, Strip, Field, UsesRecordRecovery;
    TextOfStr(ServiceOf(id, p, repr).value, repr);
    StripIdempotent(TextOf(Field(p, SERVICE), repr));
    StripEmpty();
  }

  /** Binding a bound request again changes nothing exactly when it is settled; otherwise it is refused. */
  lemma BindingTwice(id: Identity, p: Payload, execute: bool, repr: Json -> string)
    requires Binding(id, p, execute, repr).Granted?
    ensures var b := Binding(id, p, execute, repr).value;
            && (Binding(id, b, execute, repr) == Granted(b) <==> Settled(id, p, repr))
            && (Binding(id, b, execute, repr).Refused? <==> !Settled(id, p, repr))
  {
    hide TextOf, Strip, UsesRecordRecovery, Overwritten, Field, HasAnyRole, Binding, FirstRefusal, Privileged;
    hide DatasetOf, ServiceOf, Requested;
    var b := Binding(id, p, execute, repr).value;
    GrantedParts(id, p, execute, repr);
    OverwrittenFields(id, p, repr);
    GrantedAgain(id, p, execute, repr);
    if !Privileged(id) {
      RecoveryOfBound(id, p, execute, repr);
      assert Requested(p, SERVICE, repr) != "" ==> UsesRecordRecovery(p, repr) by { ServiceMeansRecovery(p, repr); }
      SettledDataset(id, p, b, repr);
      SettledService(id, p, b, repr);
      PassedBasics(id, p, execute, repr);
    }
  }

  /** A request that can be bound once and not twice: the service id is filled in from a one-element list for a
      caller who may not use the service. */
  lemma RebindingCanBeRefused(repr: Json -> string)
    ensures var id := Identity("ann", "", {"query_submitter"}, true, {"can_run_bridge", "can_run_pjc"}, ["d"], ["svc"]);
            && Binding(id, map[], false, repr).Granted?
            && Binding(id, Binding(id, map[], false, repr).value, false, repr) == Refused(MissingPermission(RECOVERY))
  {
    var id := Identity("ann", "", {"query_submitter"}, true, {"can_run_bridge", "can_run_pjc"}, ["d"], ["svc"]);
    assert "query_submitter" in id.roles * SUBMITTERS;
    assert !Privileged(id) by { assert id.roles * PRIVILEGED == {}; }
    StripEmpty();
    var b := Binding(id, map[], false, repr).value;
    assert Field(b, "dataset_id") == Str("d") && Field(b, SERVICE) == Str("svc");
    StripPlain("d");
    StripPlain("svc");
    assert Requested(b, "dataset_id", repr) == "d" && Requested(b, SERVICE, repr) == "svc";
  }

  lemma StripPlain(s: string)
    requires s != "" && !IsSpace(s[0]) && !IsSpace(s[|s| - 1])
    ensures Strip(s) == s
  {
    StripTight("", s, "");
    assert "" + s + "" == s;
  }

  // ----- the scope check on artifacts -----

  /** enforce_identity_scope */
  function EnforceScope(id: Identity, caller: string, tenantId: string): Outcome<(string, string)> {
    if Privileged(id) then Granted((caller, tenantId))
    else if caller == "" && tenantId == "" then Refused(ScopeMissing)
    else if caller != "" && caller != id.caller then Refused(CallerMismatch)
    else if tenantId != "" && id.tenantId != "" && tenantId != id.tenantId then Refused(TenantMismatch)
    else Granted((if caller != "" then caller else id.caller, if tenantId != "" then tenantId else id.tenantId))
  }

  /** Whom the scope check lets through, and the first reason against the others. */
  lemma ScopeGrantedExactlyWhen(id: Identity, caller: string, tenantId: string)
    ensures var r := EnforceScope(id, caller, tenantId);
            var privileged := "platform_admin" in id.roles || "platform_auditor" in id.roles;
            && (r.Granted? <==>
                  privileged ||
                  ((caller != "" || tenantId != "") && caller in ["", id.caller]
                   && (id.tenantId == "" || tenantId in ["", id.tenantId])))
            && (r.Refused? ==>
                  r.why ==
                  if caller == "" && tenantId == "" then ScopeMissing
                  else if caller !in ["", id.caller] then CallerMismatch else TenantMismatch)
            && (r.Granted? ==>
                  r.value ==
                  if privileged then (caller, tenantId)
                  else (if caller == "" then id.caller else caller, if tenantId == "" then id.tenantId else tenantId))
  {
    RolesMean(id);
  }

  /** A scope granted to an unprivileged identity is its own caller and, if it has one, its own tenant; asking
      for the granted scope grants it again. */
  lemma ScopeIsOwn(id: Identity, caller: string, tenantId: string)
    requires EnforceScope(id, caller, tenantId).Granted? && !Privileged(id)
    ensures var (c, t) := EnforceScope(id, caller, tenantId).value;
            && c == id.caller && t == (if id.tenantId != "" then id.tenantId else tenantId)
            && EnforceScope(id, c, t) == Granted((c, t))
  {
  }

  /** A request bound to an identity passes that identity's scope check on the caller and tenant it was bound
      to, exactly when one of the two is set. */
  lemma BoundRequestIsInScope(id: Identity, p: Payload, execute: bool, repr: Json -> string)
    requires Binding(id, p, execute, repr).Granted?
    ensures var b := Binding(id, p, execute, repr).value;
            var c, t := TextOf(Field(b, "caller"), repr), TextOf(Field(b, "tenant_id"), repr);
            && c == id.caller
            && (EnforceScope(id, c, t) == Granted((c, t)) <==> Privileged(id) || c != "" || t != "")
  {
    hide BindAllowed, UsesRecordRecovery, Strip, Requested, Overwritten, Binding, HasAnyRole;
    GrantedParts(id, p, execute, repr);
    OverwrittenFields(id, p, repr);
  }
}
