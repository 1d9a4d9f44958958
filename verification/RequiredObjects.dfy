/**
 Completing start answers: every object that the schema requires is created,
 at every depth, and everything else is left as the user gave it.
 */
module RequiredObjects {
  import opened Json
  import opened LegacySchema

  predicate IsObjectSchema(s: Value) {
    s.HasText("type", "object")
  }

  /** The schema requires an object under this key. */
  predicate Needs(schema: Value, key: string) {
    Str(key) in Required(schema) && Child(schema, key).Some? && IsObjectSchema(Child(schema, key).value)
  }

  function NeededKeys(schema: Value): set<string> {
    set v | v in Required(schema) && v.Str? && Needs(schema, v.text) :: v.text
  }

  function FieldsOf(v: Value): map<string, Value> {
    if v.Obj? then v.fields else map[]
  }

  /** The fields with an empty object under every needed key that was missing. */
  function WithNeeded(schema: Value, fields: map<string, Value>): (r: map<string, Value>)
    ensures r.Keys == fields.Keys + NeededKeys(schema)
    ensures forall key :: key in r ==> r[key] == if key in fields then fields[key] else EMPTY_OBJECT
  {
    map key | key in fields.Keys + NeededKeys(schema) :: if key in fields then fields[key] else EMPTY_OBJECT
  }

  function Materialized(schema: Value, v: Value): (r: Value)
    decreases schema, 2
  {
    if IsObjectSchema(schema) then Obj(MaterializedFields(schema, WithNeeded(schema, FieldsOf(v)))) else v
  }

  function MaterializedFields(schema: Value, fields: map<string, Value>): (r: map<string, Value>)
    ensures r.Keys == fields.Keys
    ensures forall key :: key in r ==> r[key] == MaterializedField(schema, key, fields[key])
    decreases schema, 1
  {
    map key | key in fields :: MaterializedField(schema, key, fields[key])
  }

  function MaterializedField(schema: Value, key: string, v: Value): Value
    decreases schema, 0
  {
    if Child(schema, key).Some? then Materialized(Child(schema, key).value, v) else v
  }

  /** The first pass: the missing required objects. */
  method AddNeeded(schema: Value, given: map<string, Value>) returns (fields: map<string, Value>)
    ensures fields == WithNeeded(schema, given)
  {
    fields := given;
    var required := Required(schema);
    for i := 0 to |required|
      invariant forall key :: key in fields <==> key in given || (Needs(schema, key) && Str(key) in required[..i])
      invariant forall key :: key in fields ==> fields[key] == if key in given then given[key] else EMPTY_OBJECT
    {
      var item := required[i];
      assert required[..i + 1] == required[..i] + [item];
      if item.Str? && Needs(schema, item.text) && item.text !in fields {
        fields := fields[item.text := EMPTY_OBJECT];
      }
    }
    assert required[..|required|] == required;
    assert fields.Keys == WithNeeded(schema, given).Keys;
  }

  function PropertyNames(schema: Value): (names: set<string>)
    ensures forall key :: key in names <==> Child(schema, key).Some?
  {
    if schema.Get("properties").Some? then FieldsOf(schema.Get("properties").value).Keys else {}
  }

  method Materialize(schema: Value, v: Value) returns (out: Value)
    ensures out == Materialized(schema, v)
    decreases schema
  {
    if !IsObjectSchema(schema) {
      return v;
    }
    var fields := AddNeeded(schema, FieldsOf(v));
    out := MaterializeProperties(schema, fields);
  }

  /** The second pass: every property that is present. */
  method MaterializeProperties(schema: Value, given: map<string, Value>) returns (out: Value)
    ensures out == Obj(MaterializedFields(schema, given))
    decreases schema, 0
  {
    hide Materialized, MaterializedFields;
    var fields := given;
    var remaining := PropertyNames(schema);
    while remaining != {}
      invariant remaining <= PropertyNames(schema) && fields.Keys == given.Keys
      invariant forall key :: key in fields ==>
                  fields[key] == if key in remaining then given[key] else MaterializedField(schema, key, given[key])
      decreases remaining
    {
      var key :| key in remaining;
      if key in fields {
        var child := Materialize(Child(schema, key).value, fields[key]);
        fields := fields[key := child];
      }
      remaining := remaining - {key};
    }
    assert fields == MaterializedFields(schema, given);
    out := Obj(fields);
  }

  /** Every position under an object schema holds an object with all the objects required of it, at every depth. */
  predicate Settled(schema: Value, v: Value)
    decreases schema
  {
    IsObjectSchema(schema) ==>
      && v.Obj?
      && (forall key :: key in NeededKeys(schema) ==> key in v.fields)
      && (forall key :: key in v.fields && Child(schema, key).Some? ==> Settled(Child(schema, key).value, v.fields[key]))
  }

  lemma {:induction false} MaterializedIsSettled(schema: Value, v: Value)
    ensures Settled(schema, Materialized(schema, v))
    decreases schema
  {
    if IsObjectSchema(schema) {
      var fields, r := WithNeeded(schema, FieldsOf(v)), Materialized(schema, v);
      forall key | key in r.fields && Child(schema, key).Some?
        ensures Settled(Child(schema, key).value, r.fields[key])
      {
        MaterializedIsSettled(Child(schema, key).value, fields[key]);
      }
    }
  }

  lemma {:induction false} SettledIsUnchanged(schema: Value, v: Value)
    requires Settled(schema, v)
    ensures Materialized(schema, v) == v
    decreases schema
  {
    if IsObjectSchema(schema) {
      var r := Materialized(schema, v);
      forall key | key in v.fields
        ensures key in r.fields && r.fields[key] == v.fields[key]
      {
        if Child(schema, key).Some? {
          SettledIsUnchanged(Child(schema, key).value, v.fields[key]);
        }
      }
      assert r.fields.Keys == v.fields.Keys;
      assert r.fields == v.fields;
    }
  }

  /** Answers are left alone exactly when nothing is missing; in particular a second pass does nothing. */
  lemma UnchangedExactlyWhenSettled(schema: Value, v: Value)
    ensures Materialized(schema, v) == v <==> Settled(schema, v)
    ensures Materialized(schema, Materialized(schema, v)) == Materialized(schema, v)
  {
    MaterializedIsSettled(schema, v);
    SettledIsUnchanged(schema, Materialized(schema, v));
    if Settled(schema, v) {
      SettledIsUnchanged(schema, v);
    }
  }

  /** Object schemas all the way down to the position. */
  predicate Governed(schema: Value, keys: seq<string>)
    decreases |keys|
  {
    && IsObjectSchema(schema)
    && (keys == [] || (Child(schema, keys[0]).Some? && Governed(Child(schema, keys[0]).value, keys[1..])))
  }

  /** Outside the reach of object schemas nothing changes: no value, and no absence of one. */
  lemma {:induction false} UngovernedIsUntouched(schema: Value, v: Value, keys: seq<string>)
    requires !Governed(schema, keys)
    ensures Walk(Materialized(schema, v), keys) == Walk(v, keys)
    decreases |keys|
  {
    if IsObjectSchema(schema) {
      var key, rest := keys[0], keys[1..];
      var r, fields := Materialized(schema, v), WithNeeded(schema, FieldsOf(v));
      if key in r.fields {
        if key in FieldsOf(v) {
          if Child(schema, key).Some? {
            UngovernedIsUntouched(Child(schema, key).value, fields[key], rest);
          }
        } else {
          UngovernedIsUntouched(Child(schema, key).value, EMPTY_OBJECT, rest);
          assert rest != [];
        }
      }
    }
  }

  /** Completing in one picture: whatever is given for an object schema, each required key of object type is there as an object. */
  lemma RequiredObjectsAreThere(schema: Value, v: Value, key: string)
    requires schema.Get("type") == Some(Str("object"))
    requires schema.Get("required").Some? && schema.Get("required").value.Arr? && Str(key) in schema.Get("required").value.items
    requires schema.Get("properties").Some? && schema.Get("properties").value.Get(key).Some?
    requires schema.Get("properties").value.Get(key).value.Get("type") == Some(Str("object"))
    ensures var r := Materialized(schema, v); r.Get(key).Some? && r.Get(key).value.Obj?
  {
    MaterializedIsSettled(schema, v);
    assert key in NeededKeys(schema);
  }

  /** A key that the answers lack is added only for a required property of object type. */
  lemma NothingElseIsAdded(schema: Value, v: Value, key: string)
    requires Materialized(schema, v).Get(key).Some? && v.Get(key).None?
    ensures schema.Get("type") == Some(Str("object"))
    ensures schema.Get("required").Some? && schema.Get("required").value.Arr? && Str(key) in schema.Get("required").value.items
    ensures schema.Get("properties").Some? && schema.Get("properties").value.Get(key).Some?
    ensures schema.Get("properties").value.Get(key).value.Get("type") == Some(Str("object"))
  {
  }
}
