/** check_business_access_policy.py: the layered evaluation of a field-level access request. */
module BusinessAccess {
  import opened PyText

  /** allow < mask < deny */
  datatype Decision = Allow | Mask | Deny

  function Rank(d: Decision): nat { match d case Allow => 0 case Mask => 1 case Deny => 2 }

  /** The stricter of two decisions. */
  function Stricter(a: Decision, b: Decision): Decision { if Rank(a) < Rank(b) then b else a }

  /** One entry of field_classes; fields is None when the entry is not an object. */
  datatype FieldClass = FieldClass(name: string, fields: Option<seq<string>>)

  /** as_string_set: empty entries are dropped. */
  type StringSet = s: set<string> | "" !in s witness {}

  /** A relationship that is required; "" requires none. */
  type NonEmpty = s: string | s != "" witness "x"

  datatype RoleSpec = RoleSpec(allowedEntities: StringSet, scopeRequired: bool,
                               relationshipRequired: Option<NonEmpty>, purposesRequired: StringSet,
                               allowedClasses: StringSet, maskedClasses: StringSet, deniedClasses: StringSet)

  /** roles holds the role specs that are objects; rolesIsObject says whether policy.roles is one at all. */
  datatype Policy = Policy(schema: string, rolesIsObject: bool, fieldClasses: seq<FieldClass>,
                           roles: map<string, RoleSpec>, masking: map<string, string>)

  datatype Request = Request(role: string, entity: string, fields: seq<string>, purpose: Option<string>,
                             scope: map<string, string>, relationship: Option<string>)

  datatype FieldDecision = FieldDecision(field: string, fieldClass: Option<string>, decision: Decision,
                                         masking: Option<string>, reasonCode: string)

  datatype Report = Report(decision: Decision, reasonCode: string, fieldDecisions: seq<FieldDecision>,
                           allowed: nat, masked: nat, denied: nat, unknown: nat)

  // ----- field classes -----

  /** The class of a field among the first n classes: the last class that lists it. */
  function ClassAmong(classes: seq<FieldClass>, n: nat, field: string): Option<string>
    requires n <= |classes|
  {
    if n == 0 || field == "" then None
    else if classes[n - 1].fields.Some? && field in classes[n - 1].fields.value then Some(classes[n - 1].name)
    else ClassAmong(classes, n - 1, field)
  }

  function ClassOf(policy: Policy, field: string): Option<string> {
    ClassAmong(policy.fieldClasses, |policy.fieldClasses|, field)
  }

  predicate Lists(c: FieldClass, field: string) { c.fields.Some? && field in c.fields.value }

  /** A field is in no class when it is empty or no class lists it; otherwise it is in the last one that does. */
  lemma {:induction false} ClassIsLastListing(classes: seq<FieldClass>, n: nat, field: string)
    requires n <= |classes|
    ensures ClassAmong(classes, n, field).None? <==> field == "" || forall i :: 0 <= i < n ==> !Lists(classes[i], field)
    ensures ClassAmong(classes, n, field).Some? ==>
              exists i :: 0 <= i < n && Lists(classes[i], field)
                && ClassAmong(classes, n, field).value == classes[i].name
                && forall j :: i < j < n ==> !Lists(classes[j], field)
  {
    if n > 0 && field != "" {
      ClassIsLastListing(classes, n - 1, field);
      assert Lists(classes[n - 1], field) ==> ClassAmong(classes, n, field) == Some(classes[n - 1].name);
    }
  }

  predicate Flattens(m: map<string, string>, classes: seq<FieldClass>, n: nat)
    requires n <= |classes|
  {
    && (forall f :: f in m ==> ClassAmong(classes, n, f) == Some(m[f]))
    && (forall i, j :: (0 <= i < n && classes[i].fields.Some? && 0 <= j < |classes[i].fields.value|
                        && classes[i].fields.value[j] != "") ==> classes[i].fields.value[j] in m)
  }

  /** A field outside the flattened map is in no class. */
  lemma {:induction false} FlattensMissing(m: map<string, string>, classes: seq<FieldClass>, n: nat, k: nat,
                                           field: string)
    requires k <= n <= |classes| && Flattens(m, classes, n) && field !in m
    ensures ClassAmong(classes, k, field) == None
  {
    if k > 0 && field != "" {
      FlattensMissing(m, classes, n, k - 1, field);
      var listed := if classes[k - 1].fields.Some? then classes[k - 1].fields.value else [];
      assert forall j :: 0 <= j < |listed| ==> listed[j] in m || listed[j] == "";
      assert field !in listed;
    }
  }

  method FlattenFieldClasses(classes: seq<FieldClass>) returns (result: map<string, string>)
    ensures Flattens(result, classes, |classes|)
    ensures forall f :: (if f in result then Some(result[f]) else None) == ClassAmong(classes, |classes|, f)
    ensures forall f :: f !in result <==> f == "" || forall i :: 0 <= i < |classes| ==> !Lists(classes[i], f)
    ensures forall f :: f in result ==>
              exists i :: 0 <= i < |classes| && Lists(classes[i], f) && result[f] == classes[i].name
                && forall j :: i < j < |classes| ==> !Lists(classes[j], f)
  {
    result := map[];
    for i := 0 to |classes|
      invariant Flattens(result, classes, i)
    {
      if classes[i].fields.Some? {
        var fields := classes[i].fields.value;
        ghost var before := result;
        for j := 0 to |fields|
          invariant forall f :: f in before ==> f in result
          invariant forall f :: f in result && f in fields[..j] ==> result[f] == classes[i].name
          invariant forall f :: f in result && f !in fields[..j] ==> f in before && result[f] == before[f]
          invariant forall k :: 0 <= k < j && fields[k] != "" ==> fields[k] in result
          invariant "" !in result
        {
          assert fields[..j + 1] == fields[..j] + [fields[j]];
          if fields[j] != "" {
            result := result[fields[j] := classes[i].name];
          }
        }
        assert fields[..|fields|] == fields;
      }
    }
    hide Lists;
    forall f
      ensures (if f in result then Some(result[f]) else None) == ClassAmong(classes, |classes|, f)
      ensures f !in result <==> f == "" || forall i :: 0 <= i < |classes| ==> !Lists(classes[i], f)
      ensures f in result ==>
                exists i :: 0 <= i < |classes| && Lists(classes[i], f) && result[f] == classes[i].name
                  && forall j :: i < j < |classes| ==> !Lists(classes[j], f)
    {
      if f !in result { FlattensMissing(result, classes, |classes|, |classes|, f); }
      ClassIsLastListing(classes, |classes|, f);
    }
  }

  // ----- evaluation -----

  /** The first request-level condition that fails; such a request is denied for every field. */
  function Gate(policy: Policy, req: Request): Option<string> {
    if req.role !in policy.roles then Some("unknown_role")
    else
      var spec := policy.roles[req.role];
      if req.entity !in spec.allowedEntities then Some("entity_not_allowed")
      else if spec.scopeRequired && req.scope == map[] then Some("scope_required")
      else if spec.relationshipRequired.Some? && req.relationship != spec.relationshipRequired then
        Some("relationship_required")
      else if spec.purposesRequired != {}
              && (if req.purpose.Some? then req.purpose.value else "") !in spec.purposesRequired
      then Some("purpose_not_allowed")
      else None
  }

  /** masking_for_field(policy, field) or "mask" */
  function MaskingFor(policy: Policy, field: string): string {
    if field in policy.masking && policy.masking[field] != "" then policy.masking[field] else "mask"
  }

  function DecideField(policy: Policy, spec: RoleSpec, field: string): FieldDecision {
    match ClassOf(policy, field)
    case None => FieldDecision(field, None, Deny, None, "unknown_field")
    case Some(c) =>
      if c in spec.deniedClasses then FieldDecision(field, Some(c), Deny, None, "field_class_denied")
      else if c in spec.maskedClasses then
        FieldDecision(field, Some(c), Mask, Some(MaskingFor(policy, field)), "field_class_masked")
      else if c in spec.allowedClasses then FieldDecision(field, Some(c), Allow, None, "field_class_allowed")
      else FieldDecision(field, Some(c), Deny, None, "field_class_not_allowed")
  }

  /** The decision on one requested field. */
  function Decide(policy: Policy, req: Request, field: string): FieldDecision {
    match Gate(policy, req)
    case Some(reason) => FieldDecision(field, ClassOf(policy, field), Deny, None, reason)
    case None =>
      if req.role in policy.roles then DecideField(policy, policy.roles[req.role], field)
      else FieldDecision(field, None, Deny, None, "unknown_role")
  }

  function DecideAll(policy: Policy, req: Request, fields: seq<string>): seq<FieldDecision> {
    if fields == [] then []
    else DecideAll(policy, req, fields[..|fields| - 1]) + [Decide(policy, req, fields[|fields| - 1])]
  }

  function CountOf(ds: seq<FieldDecision>, d: Decision): nat {
    if ds == [] then 0 else CountOf(ds[..|ds| - 1], d) + (if ds[|ds| - 1].decision == d then 1 else 0)
  }

  function CountUnknown(ds: seq<FieldDecision>): nat {
    if ds == [] then 0 else CountUnknown(ds[..|ds| - 1]) + (if ds[|ds| - 1].fieldClass.None? then 1 else 0)
  }

  /** finish_report */
  function FinishReport(ds: seq<FieldDecision>, gate: Option<string>): Report {
    var allowed, masked, denied := CountOf(ds, Allow), CountOf(ds, Mask), CountOf(ds, Deny);
    Report(if gate.Some? || denied > 0 then Deny else if masked > 0 then Mask else Allow,
           if gate.Some? then gate.value
           else if denied > 0 then "field_denied" else if masked > 0 then "requires_masking" else "ok",
           ds, allowed, masked, denied, CountUnknown(ds))
  }

  function Evaluate(policy: Policy, req: Request): Report {
    FinishReport(DecideAll(policy, req, req.fields), Gate(policy, req))
  }

  method BuildReport(policy: Policy, req: Request) returns (r: Result<Report>)
    ensures r.Ok? <==> policy.schema == "business_access_policy/v1" && policy.rolesIsObject
    ensures r.Ok? ==> r.value == Evaluate(policy, req)
  {
    hide CountOf, CountUnknown, MaskingFor;
    if policy.schema != "business_access_policy/v1" {
      return Err("policy must use business_access_policy/v1");
    }
    if !policy.rolesIsObject {
      return Err("policy.roles must be an object");
    }
    var fieldToClass := FlattenFieldClasses(policy.fieldClasses);
    var gate := Gate(policy, req);
    var decisions: seq<FieldDecision> := [];
    for i := 0 to |req.fields|
      invariant decisions == DecideAll(policy, req, req.fields[..i])
    {
      assert req.fields[..i + 1][..i] == req.fields[..i];
      var field := req.fields[i];
      var fieldClass := if field in fieldToClass then Some(fieldToClass[field]) else None;
      assert fieldClass == ClassOf(policy, field);
      if gate.Some? {
        decisions := decisions + [FieldDecision(field, fieldClass, Deny, None, gate.value)];
      } else if fieldClass.None? {
        decisions := decisions + [FieldDecision(field, None, Deny, None, "unknown_field")];
      } else if fieldClass.value in policy.roles[req.role].deniedClasses {
        decisions := decisions + [FieldDecision(field, fieldClass, Deny, None, "field_class_denied")];
      } else if fieldClass.value in policy.roles[req.role].maskedClasses {
        var masking := Some(MaskingFor(policy, field));
        decisions := decisions + [FieldDecision(field, fieldClass, Mask, masking, "field_class_masked")];
      } else if fieldClass.value in policy.roles[req.role].allowedClasses {
        decisions := decisions + [FieldDecision(field, fieldClass, Allow, None, "field_class_allowed")];
      } else {
        decisions := decisions + [FieldDecision(field, fieldClass, Deny, None, "field_class_not_allowed")];
      }
    }
    assert req.fields[..|req.fields|] == req.fields;
    r := Ok(FinishReport(decisions, gate));
  }

  // ----- what a report says -----

  /** The indices of the decisions for which a test holds. */
  function Where(ds: seq<FieldDecision>, test: FieldDecision -> bool): set<nat> {
    set i: nat | i < |ds| && test(ds[i])
  }

  lemma WhereStep(ds: seq<FieldDecision>, test: FieldDecision -> bool)
    requires ds != []
    ensures var n := |ds| - 1;
            |Where(ds, test)| == |Where(ds[..n], test)| + (if test(ds[n]) then 1 else 0)
  {
    var n := |ds| - 1;
    assert n !in Where(ds[..n], test);
    assert Where(ds, test) == Where(ds[..n], test) + (if test(ds[n]) then {n} else {});
  }

  /** The counts of a report are numbers of field decisions. */
  lemma {:induction false} CountsAreSizes(ds: seq<FieldDecision>, d: Decision)
    ensures CountOf(ds, d) == |Where(ds, (x: FieldDecision) => x.decision == d)|
    ensures CountUnknown(ds) == |Where(ds, (x: FieldDecision) => x.fieldClass.None?)|
  {
    var isD, isUnknown := (x: FieldDecision) => x.decision == d, (x: FieldDecision) => x.fieldClass.None?;
    if ds == [] {
      assert Where(ds, isD) == {} && Where(ds, isUnknown) == {};
    } else {
      CountsAreSizes(ds[..|ds| - 1], d);
      WhereStep(ds, isD);
      WhereStep(ds, isUnknown);
    }
  }

  /** The reason and the decision of a report: the first request-level condition that fails, in the order role,
      entity, scope, relationship, purpose; when all hold, the worst decision on a field. */
  lemma ReportDecides(policy: Policy, req: Request)
    ensures var r := Evaluate(policy, req);
            var known := req.role in policy.roles;
            var entity := known && req.entity in policy.roles[req.role].allowedEntities;
            var scope := known && (!policy.roles[req.role].scopeRequired || req.scope != map[]);
            var needed := if known then policy.roles[req.role].relationshipRequired else None;
            var relationship := known && (needed.None? || req.relationship == needed);
            var purposes := if known then policy.roles[req.role].purposesRequired else {};
            var purpose := known && (purposes == {} || (req.purpose.Some? && req.purpose.value in purposes));
            && (Gate(policy, req).None? <==> known && entity && scope && relationship && purpose)
            && r.reasonCode == (if !known then "unknown_role"
                                else if !entity then "entity_not_allowed"
                                else if !scope then "scope_required"
                                else if !relationship then "relationship_required"
                                else if !purpose then "purpose_not_allowed"
                                else if r.denied > 0 then "field_denied"
                                else if r.masked > 0 then "requires_masking" else "ok")
            && r.decision == (if !(known && entity && scope && relationship && purpose) || r.denied > 0 then Deny
                              else if r.masked > 0 then Mask else Allow)
            && r.allowed == |Where(r.fieldDecisions, (x: FieldDecision) => x.decision == Allow)|
            && r.masked == |Where(r.fieldDecisions, (x: FieldDecision) => x.decision == Mask)|
            && r.denied == |Where(r.fieldDecisions, (x: FieldDecision) => x.decision == Deny)|
            && r.unknown == |Where(r.fieldDecisions, (x: FieldDecision) => x.fieldClass.None?)|
  {
    hide DecideAll, CountOf, CountUnknown, Where;
    var ds := DecideAll(policy, req, req.fields);
    CountsAreSizes(ds, Allow);
    CountsAreSizes(ds, Mask);
    CountsAreSizes(ds, Deny);
  }

  /** The answer for one field of a request that passes: its class, the masking and the reason. */
  lemma FieldAnswer(policy: Policy, req: Request, i: nat)
    requires i < |req.fields| && Gate(policy, req).None?
    ensures req.role in policy.roles && |Evaluate(policy, req).fieldDecisions| == |req.fields|
    ensures var spec, f, d := policy.roles[req.role], req.fields[i], Evaluate(policy, req).fieldDecisions[i];
            var c := ClassAmong(policy.fieldClasses, |policy.fieldClasses|, f);
            && d.field == f && d.fieldClass == c
            && d.masking == (if d.decision != Mask then None
                             else if f in policy.masking && policy.masking[f] != "" then Some(policy.masking[f])
                             else Some("mask"))
            && d.reasonCode == (if c.None? then "unknown_field"
                                else if c.value in spec.deniedClasses then "field_class_denied"
                                else if c.value in spec.maskedClasses then "field_class_masked"
                                else if c.value in spec.allowedClasses then "field_class_allowed"
                                else "field_class_not_allowed")
  {
    hide CountOf, CountUnknown, ClassAmong;
    DecideAllLength(policy, req, req.fields);
  }

  // ----- the report is the join of its fields -----

  lemma {:induction false} DecideAllConcat(policy: Policy, req: Request, a: seq<string>, b: seq<string>)
    ensures DecideAll(policy, req, a + b) == DecideAll(policy, req, a) + DecideAll(policy, req, b)
  {
    hide Decide;
    if b == [] {
      assert a + b == a;
    } else {
      assert (a + b)[..|a + b| - 1] == a + b[..|b| - 1];
      DecideAllConcat(policy, req, a, b[..|b| - 1]);
    }
  }

  lemma {:induction false} CountConcat(a: seq<FieldDecision>, b: seq<FieldDecision>, d: Decision)
    ensures CountOf(a + b, d) == CountOf(a, d) + CountOf(b, d)
    ensures CountUnknown(a + b) == CountUnknown(a) + CountUnknown(b)
  {
    if b == [] {
      assert a + b == a;
    } else {
      assert (a + b)[..|a + b| - 1] == a + b[..|b| - 1];
      CountConcat(a, b[..|b| - 1], d);
    }
  }

  lemma {:induction false} CountsPartition(ds: seq<FieldDecision>)
    ensures CountOf(ds, Allow) + CountOf(ds, Mask) + CountOf(ds, Deny) == |ds|
  {
    if ds != [] { CountsPartition(ds[..|ds| - 1]); }
  }

  lemma {:induction false} DecideAllLength(policy: Policy, req: Request, fields: seq<string>)
    ensures |DecideAll(policy, req, fields)| == |fields|
    ensures forall i :: 0 <= i < |fields| ==> DecideAll(policy, req, fields)[i] == Decide(policy, req, fields[i])
  {
    hide Decide;
    if fields != [] { DecideAllLength(policy, req, fields[..|fields| - 1]); }
  }

  /** A request for the fields A and B together gets the stricter of the two decisions; the counts add up
      and total the number of fields. */
  lemma JoinOfParts(policy: Policy, req: Request, a: seq<string>, b: seq<string>)
    ensures var ra := Evaluate(policy, req.(fields := a));
            var rb := Evaluate(policy, req.(fields := b));
            var r := Evaluate(policy, req.(fields := a + b));
            && r.decision == Stricter(ra.decision, rb.decision)
            && r.fieldDecisions == ra.fieldDecisions + rb.fieldDecisions
            && r.allowed == ra.allowed + rb.allowed && r.masked == ra.masked + rb.masked
            && r.denied == ra.denied + rb.denied && r.unknown == ra.unknown + rb.unknown
            && r.allowed + r.masked + r.denied == |a| + |b|
  {
    hide Decide, CountOf, CountUnknown;
    SameDecisions(policy, req, a, a);
    SameDecisions(policy, req, b, b);
    SameDecisions(policy, req, a + b, a + b);
    DecideAllConcat(policy, req, a, b);
    var da, db := DecideAll(policy, req, a), DecideAll(policy, req, b);
    CountConcat(da, db, Allow);
    CountConcat(da, db, Mask);
    CountConcat(da, db, Deny);
    CountsPartition(da + db);
    DecideAllLength(policy, req, a + b);
  }

  /** The field list of a request plays no part in deciding a single field. */
  lemma {:induction false} SameDecisions(policy: Policy, req: Request, other: seq<string>, fields: seq<string>)
    ensures Gate(policy, req.(fields := other)) == Gate(policy, req)
    ensures DecideAll(policy, req.(fields := other), fields) == DecideAll(policy, req, fields)
  {
    if fields != [] {
      SameDecisions(policy, req, other, fields[..|fields| - 1]);
    }
  }

  // ----- what a decision means -----

  /** The role lists the class for this outcome. */
  predicate Listed(spec: RoleSpec, c: string, d: Decision) {
    match d
    case Allow => c in spec.allowedClasses
    case Mask => c in spec.maskedClasses
    case Deny => c in spec.deniedClasses
  }

  /** Past the gate, the strictest listing of the field's class wins; a class in no list, or no class, is denied. */
  lemma StrictestListingWins(policy: Policy, req: Request, field: string, d: Decision)
    requires Gate(policy, req).None?
    ensures req.role in policy.roles
    ensures var spec, c, r := policy.roles[req.role], ClassOf(policy, field), Decide(policy, req, field).decision;
            && (c.Some? && Listed(spec, c.value, d) ==> Listed(spec, c.value, r) && Rank(d) <= Rank(r))
            && (c.None?
                || !(Listed(spec, c.value, Allow) || Listed(spec, c.value, Mask) || Listed(spec, c.value, Deny)) ==>
                  r == Deny)
  {
    hide ClassAmong;
  }

  /** A request stopped at the gate is denied on every field, for the gate's reason; one that passes has a
      role that allows the entity and every condition of that role met. */
  lemma GateDeniesEverything(policy: Policy, req: Request)
    ensures var r := Evaluate(policy, req);
            && |r.fieldDecisions| == |req.fields|
            && (match Gate(policy, req)
                case Some(reason) =>
                  && r.decision == Deny && r.reasonCode == reason
                  && r.denied == |req.fields| && r.allowed == 0 && r.masked == 0
                  && forall i :: 0 <= i < |req.fields| ==>
                       var f := req.fields[i];
                       r.fieldDecisions[i] == FieldDecision(f, ClassOf(policy, f), Deny, None, reason)
                case None =>
                  && req.role in policy.roles && req.entity in policy.roles[req.role].allowedEntities
                  && (policy.roles[req.role].scopeRequired ==> req.scope != map[])
                  && (policy.roles[req.role].relationshipRequired.Some? ==>
                        req.relationship == policy.roles[req.role].relationshipRequired)
                  && (policy.roles[req.role].purposesRequired != {} ==>
                        req.purpose.Some? && req.purpose.value in policy.roles[req.role].purposesRequired))
  {
    hide ClassAmong, CountOf, CountUnknown;
    DecideAllLength(policy, req, req.fields);
    var ds := DecideAll(policy, req, req.fields);
    CountsPartition(ds);
    DecisionIsWorst(ds);
    if Gate(policy, req).Some? { NoneAllowed(ds); }
  }

  lemma {:induction false} NoneAllowed(ds: seq<FieldDecision>)
    requires forall i :: 0 <= i < |ds| ==> ds[i].decision == Deny
    ensures CountOf(ds, Allow) == 0 && CountOf(ds, Mask) == 0
  {
    if ds != [] { NoneAllowed(ds[..|ds| - 1]); }
  }

  // ----- stricter policies -----

  /** q is p with denied classes grown, allowed classes shrunk and allowed entities shrunk, for any roles. */
  predicate Tightened(p: Policy, q: Policy) {
    && q.fieldClasses == p.fieldClasses && q.roles.Keys == p.roles.Keys
    && forall r :: r in p.roles ==>
         && p.roles[r].deniedClasses <= q.roles[r].deniedClasses
         && q.roles[r].allowedClasses <= p.roles[r].allowedClasses
         && q.roles[r].allowedEntities <= p.roles[r].allowedEntities
         && q.roles[r] == p.roles[r].(deniedClasses := q.roles[r].deniedClasses,
                                      allowedClasses := q.roles[r].allowedClasses,
                                      allowedEntities := q.roles[r].allowedEntities)
  }

  lemma TightenedField(p: Policy, q: Policy, req: Request, field: string)
    requires Tightened(p, q)
    ensures Rank(Decide(p, req, field).decision) <= Rank(Decide(q, req, field).decision)
    ensures Gate(p, req).Some? ==> Gate(q, req).Some?
  {
    hide ClassAmong;
  }

  lemma {:induction false} DecisionIsWorst(ds: seq<FieldDecision>)
    ensures CountOf(ds, Deny) > 0 <==> exists i :: 0 <= i < |ds| && ds[i].decision == Deny
    ensures CountOf(ds, Mask) > 0 <==> exists i :: 0 <= i < |ds| && ds[i].decision == Mask
  {
    if ds != [] {
      DecisionIsWorst(ds[..|ds| - 1]);
      var last := ds[|ds| - 1];
      assert forall i :: 0 <= i < |ds| - 1 ==> ds[..|ds| - 1][i] == ds[i];
    }
  }

  /** Tightening a policy never lowers a decision: not on any field, and not on the whole request. */
  lemma TighteningNeverLowers(p: Policy, q: Policy, req: Request)
    requires Tightened(p, q)
    ensures Rank(Evaluate(p, req).decision) <= Rank(Evaluate(q, req).decision)
    ensures forall i :: 0 <= i < |req.fields| ==>
              |Evaluate(p, req).fieldDecisions| == |Evaluate(q, req).fieldDecisions| == |req.fields|
              && Rank(Evaluate(p, req).fieldDecisions[i].decision) <= Rank(Evaluate(q, req).fieldDecisions[i].decision)
  {
    hide Decide, CountOf, CountUnknown, Gate, Tightened;
    DecideAllLength(p, req, req.fields);
    DecideAllLength(q, req, req.fields);
    DecisionIsWorst(DecideAll(p, req, req.fields));
    DecisionIsWorst(DecideAll(q, req, req.fields));
    TightenedField(p, q, req, "");
    forall i | 0 <= i < |req.fields|
      ensures Rank(Decide(p, req, req.fields[i]).decision) <= Rank(Decide(q, req, req.fields[i]).decision)
    {
      TightenedField(p, q, req, req.fields[i]);
    }
  }

  /** The policy with more classes masked for one role. */
  function MoreMasked(p: Policy, role: string, more: StringSet): Policy
    requires role in p.roles
  {
    var spec := p.roles[role];
    p.(roles := p.roles[role := spec.(maskedClasses := spec.maskedClasses + more)])
  }

  /** The class is listed in more but in none of the role's lists. */
  predicate Released(spec: RoleSpec, c: Option<string>, more: StringSet) {
    && c.Some? && c.value in more
    && c.value !in spec.deniedClasses && c.value !in spec.maskedClasses && c.value !in spec.allowedClasses
  }

  /** What masking more classes does to one decision. */
  predicate MaskedAs(before: Decision, after: Decision, released: bool) {
    && (released ==> before == Deny)
    && (before == Deny ==> after == if released then Mask else Deny)
    && (before == Mask ==> after == Mask) && (before == Allow ==> after != Deny)
  }

  lemma MaskedField(p: Policy, req: Request, more: StringSet, field: string)
    requires Gate(p, req).None?
    ensures req.role in p.roles && Gate(MoreMasked(p, req.role, more), req).None?
    ensures MaskedAs(Decide(p, req, field).decision, Decide(MoreMasked(p, req.role, more), req, field).decision,
                     Released(p.roles[req.role], ClassOf(p, field), more))
  {
    hide ClassAmong;
  }

  /** Growing the masked classes is different: it lowers the decision on a field exactly when the field's
      class becomes masked and was denied only for want of being listed. */
  lemma MaskingMoreCanLower(p: Policy, req: Request, more: StringSet, field: string)
    requires Gate(p, req).None?
    ensures req.role in p.roles
    ensures Rank(Decide(MoreMasked(p, req.role, more), req, field).decision) < Rank(Decide(p, req, field).decision) <==>
            Released(p.roles[req.role], ClassOf(p, field), more)
  {
    hide Decide, Gate, ClassOf, Released;
    MaskedField(p, req, more, field);
  }

  /** The same for the worst of several decisions. */
  lemma WorstFalls(before: seq<FieldDecision>, after: seq<FieldDecision>, released: seq<bool>)
    requires |before| == |after| == |released|
    requires forall i :: 0 <= i < |before| ==> MaskedAs(before[i].decision, after[i].decision, released[i])
    ensures Rank(FinishReport(after, None).decision) < Rank(FinishReport(before, None).decision) <==>
              && (exists i :: 0 <= i < |before| && before[i].decision == Deny)
              && forall i :: 0 <= i < |before| && before[i].decision == Deny ==> released[i]
  {
    hide CountOf, CountUnknown;
    DecisionIsWorst(before);
    DecisionIsWorst(after);
    if CountOf(before, Deny) > 0 {
      if forall i :: 0 <= i < |before| && before[i].decision == Deny ==> released[i] {
        assert forall i :: 0 <= i < |before| ==> after[i].decision != Deny;
      } else {
        var i :| 0 <= i < |before| && before[i].decision == Deny && !released[i];
        assert after[i].decision == Deny;
      }
    } else if CountOf(before, Mask) > 0 {
      var i :| 0 <= i < |before| && before[i].decision == Mask;
      assert after[i].decision == Mask;
    }
  }

  /** Growing the masked classes lowers the decision on a whole request exactly when some requested field was
      denied and every field that was denied is released. */
  lemma MaskingMoreCanLowerTheReport(p: Policy, req: Request, more: StringSet)
    requires Gate(p, req).None?
    ensures req.role in p.roles
    ensures Rank(Evaluate(MoreMasked(p, req.role, more), req).decision) < Rank(Evaluate(p, req).decision) <==>
              && (exists i :: 0 <= i < |req.fields| && Decide(p, req, req.fields[i]).decision == Deny)
              && (forall i :: 0 <= i < |req.fields| && Decide(p, req, req.fields[i]).decision == Deny ==>
                    Released(p.roles[req.role], ClassOf(p, req.fields[i]), more))
  {
    hide Decide, DecideAll, FinishReport, Gate, Released, ClassOf, MoreMasked, MaskedAs;
    MaskedField(p, req, more, "");
    var spec, q, n := p.roles[req.role], MoreMasked(p, req.role, more), |req.fields|;
    var before, after := DecideAll(p, req, req.fields), DecideAll(q, req, req.fields);
    var released := seq(n, i requires 0 <= i < n => Released(spec, ClassOf(p, req.fields[i]), more));
    DecideAllLength(p, req, req.fields);
    DecideAllLength(q, req, req.fields);
    forall i | 0 <= i < n ensures MaskedAs(before[i].decision, after[i].decision, released[i]) {
      MaskedField(p, req, more, req.fields[i]);
    }
    WorstFalls(before, after, released);
    assert forall i :: 0 <= i < n ==> before[i] == Decide(p, req, req.fields[i]);
    assert forall i :: 0 <= i < n ==> released[i] == Released(spec, ClassOf(p, req.fields[i]), more);
  }

  /** A policy and a request where it does: a class in no list is denied, and masked once it is listed. */
  lemma MaskingCanLower()
    ensures var spec := RoleSpec({"orders"}, false, None, {}, {}, {}, {});
            var masked := spec.(maskedClasses := {"pii"});
            var p := Policy("business_access_policy/v1", true, [FieldClass("pii", Some(["email"]))],
                            map["analyst" := spec], map[]);
            var q := p.(roles := map["analyst" := masked]);
            var req := Request("analyst", "orders", ["email"], None, map[], None);
            && Decide(p, req, "email").decision == Deny && Decide(q, req, "email").decision == Mask
  {
    var classes := [FieldClass("pii", Some(["email"]))];
    assert "email" in classes[0].fields.value;
    assert ClassAmong(classes, 1, "email") == Some("pii");
  }
}
