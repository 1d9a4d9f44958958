/**
 Which manager actions and records a caller with given roles gets to see.
 */
module Visibility {
  import opened Json

  /** One of the first roles, if any is named, and all of the second. */
  datatype Roles = Roles(anyOf: seq<string>, allOf: seq<string>)

  datatype Access = Access(read: Option<Roles>, create: Option<Roles>, update: Option<Roles>, delete: Option<Roles>)

  datatype Operation = Get | Query | Create | Update | Delete | Command

  datatype Endpoint = Endpoint(id: string, entity: Option<string>, operation: Operation, authorization: Option<Roles>)

  /** Endpoints by id, as the router holds them. */
  type Router = map<string, Endpoint>

  predicate RolesMatch(required: Roles, held: seq<string>) {
    && (required.anyOf == [] || exists i :: 0 <= i < |required.anyOf| && required.anyOf[i] in held)
    && (forall i :: 0 <= i < |required.allOf| ==> required.allOf[i] in held)
  }

  predicate Grants(required: Option<Roles>, held: seq<string>) {
    required.Some? && RolesMatch(required.value, held)
  }

  predicate AllowedBy(required: Option<Roles>, held: seq<string>) {
    required.None? || RolesMatch(required.value, held)
  }

  /** The endpoint's own rule, then the rule of its record for the operation; a command needs any one grant. */
  predicate Visible(e: Endpoint, access: map<string, Access>, held: seq<string>) {
    && AllowedBy(e.authorization, held)
    && (e.entity.Some? && e.entity.value in access ==>
          var a := access[e.entity.value];
          match e.operation
          case Get => AllowedBy(a.read, held)
          case Query => AllowedBy(a.read, held)
          case Create => AllowedBy(a.create, held)
          case Update => AllowedBy(a.update, held)
          case Delete => AllowedBy(a.delete, held)
          case Command => Grants(a.read, held) || Grants(a.create, held) || Grants(a.update, held) || Grants(a.delete, held))
  }

  predicate ForRecord(router: Router, id: string, record: string) {
    id in router && router[id].entity == Some(record)
  }

  ghost predicate ActionHidden(router: Router, access: map<string, Access>, held: seq<string>, id: string) {
    id in router && router[id].entity.Some? && !Visible(router[id], access, held)
  }

  /** The record has an endpoint, and none that the caller can see. */
  ghost predicate RecordHidden(router: Router, access: map<string, Access>, held: seq<string>, record: string) {
    && (exists id :: ForRecord(router, id, record))
    && (forall id :: ForRecord(router, id, record) ==> !Visible(router[id], access, held))
  }

  /** The first pass: hidden actions, the record of every action, and how many visible actions a record has. */
  method CountActions(router: Router, access: map<string, Access>, held: seq<string>)
    returns (hidden: set<string>, recordOf: map<string, string>, visible: map<string, nat>)
    requires forall id :: id in router ==> router[id].id == id
    ensures forall id :: id in hidden <==> ActionHidden(router, access, held, id)
    ensures forall id :: id in recordOf <==> id in router && router[id].entity.Some?
    ensures forall id :: id in recordOf ==> router[id].entity == Some(recordOf[id])
    ensures forall record :: record in visible <==>
              exists id :: ForRecord(router, id, record) && Visible(router[id], access, held)
  {
    hide Visible;
    hidden, recordOf, visible := {}, map[], map[];
    var remaining := router.Keys;
    while remaining != {}
      invariant remaining <= router.Keys
      invariant forall id :: id in hidden <==> id !in remaining && ActionHidden(router, access, held, id)
      invariant forall id :: id in recordOf <==> id in router && id !in remaining && router[id].entity.Some?
      invariant forall id :: id in recordOf ==> router[id].entity == Some(recordOf[id])
      invariant forall record :: record in visible <==>
                  exists id :: ForRecord(router, id, record) && id !in remaining && Visible(router[id], access, held)
      decreases remaining
    {
      var key :| key in remaining;
      var endpoint := router[key];
      ghost var before, was := remaining, visible;
      remaining := remaining - {key};
      if endpoint.entity.Some? {
        var record := endpoint.entity.value;
        recordOf := recordOf[endpoint.id := record];
        if Visible(endpoint, access, held) {
          visible := visible[record := (if record in visible then visible[record] else 0) + 1];
          assert ForRecord(router, key, record);
        } else {
          hidden := hidden + {endpoint.id};
        }
      }
      forall record | record in was
        ensures exists id :: ForRecord(router, id, record) && id !in remaining && Visible(router[id], access, held)
      {
        var id :| ForRecord(router, id, record) && id !in before && Visible(router[id], access, held);
      }
      forall id, record | ForRecord(router, id, record) && id !in remaining && Visible(router[id], access, held)
        ensures record in visible
      {
        assert id != key ==> id !in before;
      }
    }
  }

  /** Hides exactly the actions the caller cannot see, and the records left without any action. */
  method PolicySet(router: Router, access: map<string, Access>, held: seq<string>)
    returns (actions: set<string>, records: set<string>)
    requires forall id :: id in router ==> router[id].id == id
    ensures forall id :: id in actions <==> id in router && router[id].entity.Some? && !Visible(router[id], access, held)
    ensures forall id :: id in actions <==> ActionHidden(router, access, held, id)
    ensures forall record :: record in records <==> RecordHidden(router, access, held, record)
  {
    hide Visible;
    var recordOf, visible;
    actions, recordOf, visible := CountActions(router, access, held);
    records := {};
    var remaining := recordOf.Keys;
    while remaining != {}
      invariant remaining <= recordOf.Keys
      invariant forall record :: record in records <==>
                  record !in visible && exists id :: id in recordOf && id !in remaining && recordOf[id] == record
      decreases remaining
    {
      var id :| id in remaining;
      if recordOf[id] !in visible {
        records := records + {recordOf[id]};
      }
      remaining := remaining - {id};
    }
    forall record
      ensures record in records <==> RecordHidden(router, access, held, record)
    {
      assert (exists id :: id in recordOf && recordOf[id] == record) <==> (exists id :: ForRecord(router, id, record)) by {
        if id :| ForRecord(router, id, record) {
          assert id in recordOf && recordOf[id] == record;
        }
        if id :| id in recordOf && recordOf[id] == record {
          assert ForRecord(router, id, record);
        }
      }
    }
  }

  lemma MoreRolesMatch(required: Roles, held: seq<string>, more: seq<string>)
    requires RolesMatch(required, held) && forall role :: role in held ==> role in more
    ensures RolesMatch(required, more)
  {
    if required.anyOf != [] {
      var i :| 0 <= i < |required.anyOf| && required.anyOf[i] in held;
      assert required.anyOf[i] in more;
    }
  }

  lemma MoreRolesSeeMore(e: Endpoint, access: map<string, Access>, held: seq<string>, more: seq<string>)
    requires Visible(e, access, held) && forall role :: role in held ==> role in more
    ensures Visible(e, access, more)
  {
    hide RolesMatch;
    forall required | RolesMatch(required, held)
      ensures RolesMatch(required, more)
    {
      MoreRolesMatch(required, held, more);
    }
  }

  /** With more roles, nothing that was shown becomes hidden: no action and no record. */
  lemma MoreRolesHideNothing(router: Router, access: map<string, Access>, held: seq<string>, more: seq<string>)
    requires forall role :: role in held ==> role in more
    ensures forall id :: ActionHidden(router, access, more, id) ==> ActionHidden(router, access, held, id)
    ensures forall record :: RecordHidden(router, access, more, record) ==> RecordHidden(router, access, held, record)
  {
    hide Visible;
    forall e | Visible(e, access, held)
      ensures Visible(e, access, more)
    {
      MoreRolesSeeMore(e, access, held, more);
    }
  }

  predicate Names(required: Option<Roles>, role: string) {
    required.Some? && (role in required.value.anyOf || role in required.value.allOf)
  }

  /** The caller holds every role that a rule about the endpoint or its record names. */
  ghost predicate HoldsAllNamed(e: Endpoint, access: map<string, Access>, held: seq<string>) {
    forall role ::
      || Names(e.authorization, role)
      || (e.entity.Some? && e.entity.value in access &&
          var a := access[e.entity.value];
          Names(a.read, role) || Names(a.create, role) || Names(a.update, role) || Names(a.delete, role))
      ==> role in held
  }

  predicate Ruleless(a: Access) {
    a.read.None? && a.create.None? && a.update.None? && a.delete.None?
  }

  lemma NamedRolesMatch(required: Option<Roles>, held: seq<string>)
    requires forall role :: Names(required, role) ==> role in held
    ensures AllowedBy(required, held)
  {
    if required.Some? {
      var r := required.value;
      forall i | 0 <= i < |r.allOf|
        ensures r.allOf[i] in held
      {
        assert Names(required, r.allOf[i]);
      }
      if r.anyOf != [] {
        assert Names(required, r.anyOf[0]);
      }
    }
  }

  /** A caller with all named roles sees everything but the commands of a record whose access states no rule. */
  lemma AllNamedRolesSee(e: Endpoint, access: map<string, Access>, held: seq<string>)
    requires HoldsAllNamed(e, access, held)
    ensures Visible(e, access, held) <==>
            !(e.operation == Command && e.entity.Some? && e.entity.value in access && Ruleless(access[e.entity.value]))
  {
    hide RolesMatch;
    NamedRolesMatch(e.authorization, held);
    if e.entity.Some? && e.entity.value in access {
      var a := access[e.entity.value];
      NamedRolesMatch(a.read, held);
      NamedRolesMatch(a.create, held);
      NamedRolesMatch(a.update, held);
      NamedRolesMatch(a.delete, held);
    }
  }

  function NamedRoles(required: Option<Roles>): (roles: seq<string>)
    ensures forall role :: Names(required, role) <==> role in roles
  {
    if required.Some? then required.value.anyOf + required.value.allOf else []
  }

  /** Every role that a rule about the endpoint or its record names. */
  function AllNamed(e: Endpoint, access: map<string, Access>): (held: seq<string>)
    ensures HoldsAllNamed(e, access, held)
  {
    NamedRoles(e.authorization) +
    if e.entity.Some? && e.entity.value in access then
      var a := access[e.entity.value];
      NamedRoles(a.read) + NamedRoles(a.create) + NamedRoles(a.update) + NamedRoles(a.delete)
    else []
  }

  /** An endpoint is hidden from every caller exactly when it is a command of a record whose access states no rule. */
  lemma HiddenFromAllExactly(e: Endpoint, access: map<string, Access>)
    ensures (forall held :: !Visible(e, access, held)) <==>
            e.operation == Command && e.entity.Some? && e.entity.value in access && Ruleless(access[e.entity.value])
  {
    AllNamedRolesSee(e, access, AllNamed(e, access));
  }

  // ----- which rule decides -----

  predicate Meets(required: Option<Roles>, held: seq<string>) {
    required.Some? ==>
      && (required.value.anyOf == [] || exists role :: role in required.value.anyOf && role in held)
      && (forall role :: role in required.value.allOf ==> role in held)
  }

  lemma AllowedIsMet(required: Option<Roles>, held: seq<string>)
    ensures AllowedBy(required, held) <==> Meets(required, held)
    ensures Grants(required, held) <==> required.Some? && Meets(required, held)
  {
    if required.Some? {
      var r := required.value;
      if AllowedBy(required, held) {
        if r.anyOf != [] {
          var i :| 0 <= i < |r.anyOf| && r.anyOf[i] in held;
          assert r.anyOf[i] in r.anyOf && r.anyOf[i] in held;
        }
      }
      if Meets(required, held) {
        if r.anyOf != [] {
          var role :| role in r.anyOf && role in held;
          var i :| 0 <= i < |r.anyOf| && r.anyOf[i] == role;
        }
        forall i | 0 <= i < |r.allOf|
          ensures r.allOf[i] in held
        {
          assert r.allOf[i] in r.allOf;
        }
      }
    }
  }

  /**
   Beside the endpoint's own rule, reading goes by the record's read rule, creating,
   updating and deleting each by their own, and a command by any rule that is stated
   and met; a record without an access entry asks nothing.
   */
  lemma RuleDecides(e: Endpoint, access: map<string, Access>, held: seq<string>)
    ensures !Meets(e.authorization, held) ==> !Visible(e, access, held)
    ensures e.entity.None? || e.entity.value !in access ==> (Visible(e, access, held) <==> Meets(e.authorization, held))
    ensures e.entity.Some? && e.entity.value in access && Meets(e.authorization, held) ==>
              var a := access[e.entity.value];
              && (e.operation == Get || e.operation == Query ==> (Visible(e, access, held) <==> Meets(a.read, held)))
              && (e.operation == Create ==> (Visible(e, access, held) <==> Meets(a.create, held)))
              && (e.operation == Update ==> (Visible(e, access, held) <==> Meets(a.update, held)))
              && (e.operation == Delete ==> (Visible(e, access, held) <==> Meets(a.delete, held)))
              && (e.operation == Command ==>
                    (Visible(e, access, held) <==>
                     exists rule :: rule in [a.read, a.create, a.update, a.delete] && rule.Some? && Meets(rule, held)))
  {
    hide Meets, AllowedBy, Grants;
    AllowedIsMet(e.authorization, held);
    if e.entity.Some? && e.entity.value in access {
      var a := access[e.entity.value];
      AllowedIsMet(a.read, held);
      AllowedIsMet(a.create, held);
      AllowedIsMet(a.update, held);
      AllowedIsMet(a.delete, held);
      var rules := [a.read, a.create, a.update, a.delete];
      assert a.read in rules && a.create in rules && a.update in rules && a.delete in rules;
    }
  }

  /** A record is hidden exactly when endpoints for it exist and the caller sees none of them. */
  lemma RecordHiddenIs(router: Router, access: map<string, Access>, held: seq<string>, record: string)
    ensures RecordHidden(router, access, held, record) <==>
            && (exists id :: id in router && router[id].entity == Some(record))
            && (forall id :: id in router && router[id].entity == Some(record) ==> !Visible(router[id], access, held))
  {
    hide Visible;
    if id :| id in router && router[id].entity == Some(record) {
      assert ForRecord(router, id, record);
    }
    if RecordHidden(router, access, held, record) {
      forall id | id in router && router[id].entity == Some(record)
        ensures !Visible(router[id], access, held)
      {
        assert ForRecord(router, id, record);
      }
    }
  }
}
