/**
 Rewriting a create card for a child record that is opened from a parent: its
 submits carry the parent along, and the input for the parent field disappears.
 */
module Cards {
  import opened Json
  import opened QueryText
  import opened Records
  import opened Hierarchy
  import opened ParentContext

  // ----- removing an input -----

  predicate StartsWith(s: string, prefix: string) {
    prefix <= s
  }

  predicate IsInput(v: Value, id: string) {
    && v.Get("type").Some? && v.Get("type").value.Str? && StartsWith(v.Get("type").value.text, "Input.")
    && v.HasText("id", id)
  }

  /** The input is this element or lies somewhere inside it. */
  predicate ContainsInput(v: Value, id: string) {
    || IsInput(v, id)
    || (v.Obj? && exists key :: key in v.fields && ContainsInput(v.fields[key], id))
    || (v.Arr? && exists i :: 0 <= i < |v.items| && ContainsInput(v.items[i], id))
  }

  /** Drops array elements that contain the input, then goes on inside what is left. */
  function RemoveInput(v: Value, id: string): (r: Value)
    ensures v.Obj? <==> r.Obj?
    ensures v.Obj? ==> r.fields.Keys == v.fields.Keys
    ensures v.Str? || r.Str? ==> r == v
    decreases v, 1
  {
    match v
    case Obj(fields) => Obj(map key | key in fields :: RemoveInput(fields[key], id))
    case Arr(items) => Arr(RemoveFrom(items, id))
    case _ => v
  }

  function RemoveFrom(items: seq<Value>, id: string): (r: seq<Value>)
    decreases items, 0
  {
    if items == [] then []
    else if ContainsInput(items[0], id) then RemoveFrom(items[1..], id)
    else [RemoveInput(items[0], id)] + RemoveFrom(items[1..], id)
  }

  /** No element of any array, at any depth, contains the input. */
  predicate NoElementContains(v: Value, id: string) {
    && (v.Obj? ==> forall key :: key in v.fields ==> NoElementContains(v.fields[key], id))
    && (v.Arr? ==> forall i :: 0 <= i < |v.items| ==>
                     !ContainsInput(v.items[i], id) && NoElementContains(v.items[i], id))
  }

  lemma {:induction false} NothingInside(v: Value, id: string)
    requires !ContainsInput(v, id)
    ensures NoElementContains(v, id)
  {
    match v {
      case Obj(fields) => forall key | key in fields { NothingInside(fields[key], id); }
      case Arr(items) => forall i | 0 <= i < |items| { NothingInside(items[i], id); }
      case _ =>
    }
  }

  lemma {:induction false} RemoveNothing(v: Value, id: string)
    requires NoElementContains(v, id)
    ensures RemoveInput(v, id) == v
    decreases v, 1
  {
    match v {
      case Obj(fields) =>
        forall key | key in fields { RemoveNothing(fields[key], id); }
        assert RemoveInput(v, id).fields == fields;
      case Arr(items) => RemoveNothingFrom(items, id);
      case _ =>
    }
  }

  lemma {:induction false} RemoveNothingFrom(items: seq<Value>, id: string)
    requires forall i :: 0 <= i < |items| ==> !ContainsInput(items[i], id) && NoElementContains(items[i], id)
    ensures RemoveFrom(items, id) == items
    decreases items, 0
  {
    if items != [] {
      RemoveNothing(items[0], id);
      RemoveNothingFrom(items[1..], id);
      assert items == [items[0]] + items[1..];
    }
  }

  /** What stays in an array is exactly its elements without the input, unchanged. */
  lemma {:induction false} RemoveFromKeeps(items: seq<Value>, id: string, x: Value)
    ensures x in RemoveFrom(items, id) <==> x in items && !ContainsInput(x, id)
    decreases |items|
  {
    if items != [] {
      RemoveFromKeeps(items[1..], id, x);
      assert items == [items[0]] + items[1..];
      if !ContainsInput(items[0], id) {
        NothingInside(items[0], id);
        RemoveNothing(items[0], id);
      }
    }
  }

  /** After the removal no array element contains the input. */
  lemma {:induction false} RemovedEverywhere(v: Value, id: string)
    ensures NoElementContains(RemoveInput(v, id), id)
  {
    match v {
      case Obj(fields) => forall key | key in fields { RemovedEverywhere(fields[key], id); }
      case Arr(items) =>
        var kept := RemoveFrom(items, id);
        forall i | 0 <= i < |kept|
          ensures !ContainsInput(kept[i], id) && NoElementContains(kept[i], id)
        {
          RemoveFromKeeps(items, id, kept[i]);
          NothingInside(kept[i], id);
        }
      case _ =>
    }
  }

  // ----- setting the parent context -----

  /** What a submit for the child record has to carry. */
  datatype Context = Context(child: string, target: string, field: string, value: string)

  predicate IsAlphanumeric(c: char) {
    'A' <= c <= 'Z' || 'a' <= c <= 'z' || '0' <= c <= '9'
  }

  function RouteCardId(target: string): string {
    if target == "dashboard" then "sorx_dashboard"
    else seq(|target|, i requires 0 <= i < |target| =>
               if IsAlphanumeric(target[i]) || target[i] == '_' || target[i] == '-' then target[i] else '_')
  }

  function ListTarget(child: string): string {
    "records/" + child
  }

  function ContextTarget(child: string, parent: string, parentId: string): (target: string)
    ensures target != ListTarget(child)
  {
    var target := ListTarget(child) + ("?parent_record=" + PercentEncoded(parent) + "&parent_id=" + PercentEncoded(parentId));
    assert |target| > |ListTarget(child)|;
    target
  }

  predicate ForChild(data: map<string, Value>, ctx: Context) {
    "record" in data && data["record"] == Str(ctx.child)
  }

  predicate OpensList(data: map<string, Value>, ctx: Context) {
    "manager_target" in data && data["manager_target"] == Str(ListTarget(ctx.child))
  }

  /** The field is set in an input object; an absent input is created, any other input is left alone. */
  function WithInput(data: map<string, Value>, ctx: Context): map<string, Value> {
    var input := if "input" in data then data["input"] else EMPTY_OBJECT;
    data["input" := if input.Obj? then Obj(input.fields[ctx.field := Str(ctx.value)]) else input]
  }

  const WRITTEN_KEYS := {"manager_target", "routeToCardId", "cardId", "input"}

  /** Redirects the data of a submit for the child, or of a link to its list; all other keys stay as they are. */
  function UpdateData(data: map<string, Value>, ctx: Context): (r: map<string, Value>)
    ensures data.Keys <= r.Keys <= data.Keys + WRITTEN_KEYS
    ensures forall key :: key in data && key !in WRITTEN_KEYS ==> r[key] == data[key]
  {
    if ForChild(data, ctx) || OpensList(data, ctx) then
      var routed := data["manager_target" := Str(ctx.target)]
                        ["routeToCardId" := Str(RouteCardId(ctx.target))]
                        ["cardId" := Str(RouteCardId(ctx.target))];
      if ForChild(data, ctx) then WithInput(routed, ctx) else routed
    else data
  }

  predicate IsSubmit(fields: map<string, Value>) {
    "type" in fields && fields["type"] == Str("Action.Submit") && "data" in fields && fields["data"].Obj?
  }

  function UpdateSubmit(fields: map<string, Value>, ctx: Context): map<string, Value> {
    if IsSubmit(fields) then fields["data" := Obj(UpdateData(fields["data"].fields, ctx))] else fields
  }

  // The rewriting goes on inside the data it has just written. What it writes is
  // text, and at most one new object with a text in it; counting the data of an
  // action as at least two levels high makes room for that object.

  function Max(a: nat, b: nat): nat {
    if a >= b then a else b
  }

  ghost function Height(v: Value): nat
    decreases v, 1, 0
  {
    match v
    case Obj(fields) => 1 + FieldsHeight(v, fields.Keys)
    case Arr(items) => 1 + ItemsHeight(items)
    case _ => 0
  }

  ghost function ItemsHeight(items: seq<Value>): nat
    decreases items, 0, 0
  {
    if items == [] then 0 else Max(Height(items[0]), ItemsHeight(items[1..]))
  }

  ghost function FieldHeight(key: string, v: Value): nat
    decreases v, 2, 0
  {
    if key == "data" && v.Obj? then Max(2, Height(v)) else Height(v)
  }

  ghost function Pick(keys: set<string>): (key: string)
    requires keys != {}
    ensures key in keys
  {
    var key :| key in keys;
    key
  }

  ghost function FieldsHeight(v: Value, keys: set<string>): nat
    requires v.Obj? && keys <= v.fields.Keys
    decreases v, 0, |keys|
  {
    if keys == {} then 0
    else
      var key := Pick(keys);
      Max(FieldHeight(key, v.fields[key]), FieldsHeight(v, keys - {key}))
  }

  lemma {:induction false} FieldBelow(v: Value, keys: set<string>, key: string)
    requires v.Obj? && keys <= v.fields.Keys && key in keys
    ensures FieldHeight(key, v.fields[key]) <= FieldsHeight(v, keys)
    decreases |keys|
  {
    var k := Pick(keys);
    if k != key {
      FieldBelow(v, keys - {k}, key);
    }
  }

  lemma {:induction false} FieldsBelow(v: Value, keys: set<string>, n: nat)
    requires v.Obj? && keys <= v.fields.Keys && forall key :: key in keys ==> FieldHeight(key, v.fields[key]) <= n
    ensures FieldsHeight(v, keys) <= n
    decreases |keys|
  {
    if keys != {} {
      var k := Pick(keys);
      FieldsBelow(v, keys - {k}, n);
    }
  }

  lemma {:induction false} ItemBelow(items: seq<Value>, i: nat)
    requires i < |items|
    ensures Height(items[i]) <= ItemsHeight(items)
    decreases |items|
  {
    if i > 0 {
      ItemBelow(items[1..], i - 1);
    }
  }

  lemma TextFieldHeight(fields: map<string, Value>, key: string, text: string, n: nat)
    requires n >= 1 && Height(Obj(fields)) <= n
    ensures Height(Obj(fields[key := Str(text)])) <= n
  {
    var v, r := Obj(fields), Obj(fields[key := Str(text)]);
    forall k | k in r.fields.Keys
      ensures FieldHeight(k, r.fields[k]) <= n - 1
    {
      if k != key {
        FieldBelow(v, v.fields.Keys, k);
      }
    }
    FieldsBelow(r, r.fields.Keys, n - 1);
  }

  lemma InputHeight(data: map<string, Value>, ctx: Context, n: nat)
    requires n >= 2 && Height(Obj(data)) <= n
    ensures Height(Obj(WithInput(data, ctx))) <= n
  {
    var v, r := Obj(data), Obj(WithInput(data, ctx));
    var input := if "input" in data then data["input"] else EMPTY_OBJECT;
    if "input" in data {
      FieldBelow(v, v.fields.Keys, "input");
    } else {
      FieldsBelow(EMPTY_OBJECT, {}, 0);
    }
    if input.Obj? {
      TextFieldHeight(input.fields, ctx.field, ctx.value, n - 1);
    }
    forall k | k in r.fields.Keys
      ensures FieldHeight(k, r.fields[k]) <= n - 1
    {
      if k != "input" {
        FieldBelow(v, v.fields.Keys, k);
      }
    }
    FieldsBelow(r, r.fields.Keys, n - 1);
  }

  lemma DataHeight(data: map<string, Value>, ctx: Context)
    ensures Height(Obj(UpdateData(data, ctx))) <= Max(2, Height(Obj(data)))
  {
    var n := Max(2, Height(Obj(data)));
    if ForChild(data, ctx) || OpensList(data, ctx) {
      var a := data["manager_target" := Str(ctx.target)];
      TextFieldHeight(data, "manager_target", ctx.target, n);
      var b := a["routeToCardId" := Str(RouteCardId(ctx.target))];
      TextFieldHeight(a, "routeToCardId", RouteCardId(ctx.target), n);
      TextFieldHeight(b, "cardId", RouteCardId(ctx.target), n);
      InputHeight(b["cardId" := Str(RouteCardId(ctx.target))], ctx, n);
    }
  }

  lemma ChildrenLower(fields: map<string, Value>, ctx: Context)
    ensures var updated := UpdateSubmit(fields, ctx);
            forall key :: key in updated ==> Height(updated[key]) < Height(Obj(fields))
  {
    var v, updated := Obj(fields), UpdateSubmit(fields, ctx);
    forall key | key in updated
      ensures Height(updated[key]) < Height(v)
    {
      FieldBelow(v, v.fields.Keys, key);
      if IsSubmit(fields) && key == "data" {
        DataHeight(fields["data"].fields, ctx);
      }
    }
  }

  /** Updates every submit, from the outside in. */
  function SetContext(v: Value, ctx: Context): (r: Value)
    ensures v.Obj? <==> r.Obj?
    ensures v.Str? || r.Str? ==> r == v
    decreases Height(v)
  {
    match v
    case Obj(fields) =>
      ChildrenLower(fields, ctx);
      var updated := UpdateSubmit(fields, ctx);
      Obj(map key | key in updated :: SetContext(updated[key], ctx))
    case Arr(items) =>
      Arr(seq(|items|, i requires 0 <= i < |items| => ItemBelow(items, i); SetContext(items[i], ctx)))
    case _ => v
  }

  // ----- what every submit carries -----

  /**
   The data of a submit is in order: for the child record it names the context
   target and route, has an input, and an input object holds the parent value;
   and it does not open the plain list of the child record.
   */
  predicate DataCarries(data: map<string, Value>, ctx: Context) {
    && !OpensList(data, ctx)
    && (ForChild(data, ctx) ==>
          && "manager_target" in data && data["manager_target"] == Str(ctx.target)
          && "routeToCardId" in data && data["routeToCardId"] == Str(RouteCardId(ctx.target))
          && "cardId" in data && data["cardId"] == Str(RouteCardId(ctx.target))
          && "input" in data
          && (data["input"].Obj? ==> data["input"].HasText(ctx.field, ctx.value)))
  }

  predicate NodeCarries(fields: map<string, Value>, ctx: Context) {
    IsSubmit(fields) ==> DataCarries(fields["data"].fields, ctx)
  }

  /** Every submit anywhere in the card is in order. */
  predicate AllCarry(v: Value, ctx: Context) {
    && (v.Obj? ==> NodeCarries(v.fields, ctx) && forall key :: key in v.fields ==> AllCarry(v.fields[key], ctx))
    && (v.Arr? ==> forall i :: 0 <= i < |v.items| ==> AllCarry(v.items[i], ctx))
  }

  lemma UpdateDataCarries(data: map<string, Value>, ctx: Context)
    requires ctx.target != ListTarget(ctx.child)
    ensures DataCarries(UpdateData(data, ctx), ctx)
  {
  }

  lemma CarryingDataIsKept(data: map<string, Value>, ctx: Context)
    requires DataCarries(data, ctx)
    ensures UpdateData(data, ctx) == data
  {
    if ForChild(data, ctx) && data["input"].Obj? {
      var input := data["input"].fields;
      assert input[ctx.field := Str(ctx.value)] == input;
    }
  }

  /** Two field maps that agree on texts and on which fields are objects. */
  ghost predicate SameTexts(a: map<string, Value>, b: map<string, Value>) {
    && (forall key :: key in a <==> key in b)
    && (forall key :: key in a ==> (a[key].Obj? <==> b[key].Obj?) && (a[key].Str? || b[key].Str? ==> a[key] == b[key]))
  }

  /** The order of a submit's data depends only on its texts and on those of its input. */
  lemma CarriesByTexts(a: map<string, Value>, b: map<string, Value>, ctx: Context)
    requires DataCarries(a, ctx) && SameTexts(a, b)
    requires "input" in a && a["input"].Obj? ==>
               forall key :: key in a["input"].fields && a["input"].fields[key].Str? ==>
                 key in b["input"].fields && b["input"].fields[key] == a["input"].fields[key]
    ensures DataCarries(b, ctx)
  {
  }

  /** Going on inside keeps texts: only the data of a submit, an object, is replaced by another object. */
  lemma SetContextFields(fields: map<string, Value>, ctx: Context)
    ensures var r := SetContext(Obj(fields), ctx).fields;
            && SameTexts(fields, r)
            && forall key :: key in fields ==> r[key] == SetContext(UpdateSubmit(fields, ctx)[key], ctx)
  {
  }

  lemma SetContextNodeCarries(fields: map<string, Value>, ctx: Context)
    requires ctx.target != ListTarget(ctx.child)
    ensures NodeCarries(SetContext(Obj(fields), ctx).fields, ctx)
  {
    hide UpdateData, DataCarries, SetContext;
    SetContextFields(fields, ctx);
    if IsSubmit(fields) {
      var data := UpdateData(fields["data"].fields, ctx);
      UpdateDataCarries(fields["data"].fields, ctx);
      SetContextFields(data, ctx);
      if "input" in data && data["input"].Obj? {
        SetContextFields(data["input"].fields, ctx);
      }
      CarriesByTexts(data, SetContext(Obj(data), ctx).fields, ctx);
    }
  }

  /** After the rewriting every submit is in order. */
  lemma {:induction false} SetContextCarries(v: Value, ctx: Context)
    requires ctx.target != ListTarget(ctx.child)
    ensures AllCarry(SetContext(v, ctx), ctx)
    decreases Height(v)
  {
    match v {
      case Obj(fields) =>
        SetContextNodeCarries(fields, ctx);
        ChildrenLower(fields, ctx);
        var updated := UpdateSubmit(fields, ctx);
        forall key | key in updated { SetContextCarries(updated[key], ctx); }
      case Arr(items) =>
        forall i | 0 <= i < |items|
          ensures AllCarry(SetContext(items[i], ctx), ctx)
        {
          ItemBelow(items, i);
          SetContextCarries(items[i], ctx);
        }
      case _ =>
    }
  }

  /** A card whose submits are in order is not changed. */
  lemma {:induction false} CarryingCardIsKept(v: Value, ctx: Context)
    requires AllCarry(v, ctx)
    ensures SetContext(v, ctx) == v
  {
    match v {
      case Obj(fields) =>
        if IsSubmit(fields) {
          CarryingDataIsKept(fields["data"].fields, ctx);
        }
        assert UpdateSubmit(fields, ctx) == fields;
        forall key | key in fields { CarryingCardIsKept(fields[key], ctx); }
        assert SetContext(v, ctx).fields == fields;
      case Arr(items) =>
        forall i | 0 <= i < |items| { CarryingCardIsKept(items[i], ctx); }
        assert SetContext(v, ctx).items == items;
      case _ =>
    }
  }

  lemma RemoveInputFields(fields: map<string, Value>, id: string)
    ensures var r := RemoveInput(Obj(fields), id).fields;
            SameTexts(fields, r) && forall key :: key in fields ==> r[key] == RemoveInput(fields[key], id)
  {
  }

  lemma RemoveInputNodeCarries(fields: map<string, Value>, id: string, ctx: Context)
    requires NodeCarries(fields, ctx)
    ensures NodeCarries(RemoveInput(Obj(fields), id).fields, ctx)
  {
    hide DataCarries, RemoveInput;
    RemoveInputFields(fields, id);
    if IsSubmit(fields) {
      var data := fields["data"].fields;
      RemoveInputFields(data, id);
      if "input" in data && data["input"].Obj? {
        RemoveInputFields(data["input"].fields, id);
      }
      CarriesByTexts(data, RemoveInput(Obj(data), id).fields, ctx);
    }
  }

  /** Removing an input leaves the surviving submits in order. */
  lemma {:induction false} RemoveInputCarries(v: Value, id: string, ctx: Context)
    requires AllCarry(v, ctx)
    ensures AllCarry(RemoveInput(v, id), ctx)
    decreases v
  {
    match v {
      case Obj(fields) =>
        RemoveInputNodeCarries(fields, id, ctx);
        forall key | key in fields { RemoveInputCarries(fields[key], id, ctx); }
      case Arr(items) =>
        var kept := RemoveFrom(items, id);
        forall i | 0 <= i < |kept|
          ensures AllCarry(kept[i], ctx)
        {
          RemoveFromKeeps(items, id, kept[i]);
        }
      case _ =>
    }
  }

  /** The whole rewrite of a create card. */
  function Rewrite(card: Value, ctx: Context): Value {
    RemoveInput(SetContext(card, ctx), ctx.field)
  }

  /**
   After the rewrite no array element contains the parent field's input, every
   surviving submit is in order, and a second rewrite changes nothing.
   */
  lemma RewriteIsComplete(card: Value, ctx: Context)
    requires ctx.target != ListTarget(ctx.child)
    ensures NoElementContains(Rewrite(card, ctx), ctx.field)
    ensures AllCarry(Rewrite(card, ctx), ctx)
    ensures Rewrite(Rewrite(card, ctx), ctx) == Rewrite(card, ctx)
  {
    var once := Rewrite(card, ctx);
    RemovedEverywhere(SetContext(card, ctx), ctx.field);
    SetContextCarries(card, ctx);
    RemoveInputCarries(SetContext(card, ctx), ctx.field, ctx);
    CarryingCardIsKept(once, ctx);
    RemoveNothing(once, ctx.field);
  }

  /** The rewrite leaves alone exactly the cards that are already in order. */
  lemma RewriteFixpoints(card: Value, ctx: Context)
    requires ctx.target != ListTarget(ctx.child)
    ensures Rewrite(card, ctx) == card <==> AllCarry(card, ctx) && NoElementContains(card, ctx.field)
  {
    RewriteIsComplete(card, ctx);
    if AllCarry(card, ctx) && NoElementContains(card, ctx.field) {
      CarryingCardIsKept(card, ctx);
      RemoveNothing(card, ctx.field);
    }
  }

  // ----- what a rewritten submit holds -----

  /** The way ends at an object whose type starts with `Input.` and whose id is this one. */
  ghost predicate InputAt(v: Value, way: seq<Turn>, id: string) {
    Inside(v, way).Some? &&
    var end := Inside(v, way).value;
    && end.Get("id") == Some(Str(id)) && end.Get("type").Some? && end.Get("type").value.Str?
    && |end.Get("type").value.text| >= 6 && end.Get("type").value.text[..6] == "Input."
  }

  lemma ContainsInputInside(v: Value, id: string)
    requires !InputAt(v, [], id)
    ensures ContainsInput(v, id) <==> exists turn :: Enter(v, turn).Some? && ContainsInput(Enter(v, turn).value, id)
  {
    assert !IsInput(v, id);
    if v.Arr? && ContainsInput(v, id) {
      var i :| 0 <= i < |v.items| && ContainsInput(v.items[i], id);
      assert Enter(v, Item(i)) == Some(v.items[i]);
    } else if v.Obj? && ContainsInput(v, id) {
      var key :| key in v.fields && ContainsInput(v.fields[key], id);
      assert Enter(v, Key(key)) == Some(v.fields[key]);
    }
  }

  lemma InputContainsItself(v: Value, id: string)
    requires InputAt(v, [], id)
    ensures ContainsInput(v, id)
  {
    assert IsInput(v, id);
  }

  /** An element contains an input exactly when some way inside it ends there. */
  lemma {:induction false} ContainsInputExactly(v: Value, id: string)
    ensures ContainsInput(v, id) <==> exists way :: InputAt(v, way, id)
    decreases v
  {
    hide Enter, ContainsInput;
    if InputAt(v, [], id) {
      InputContainsItself(v, id);
    } else {
      ContainsInputInside(v, id);
      if ContainsInput(v, id) {
        var turn :| Enter(v, turn).Some? && ContainsInput(Enter(v, turn).value, id);
        var inner := Enter(v, turn).value;
        ContainsInputExactly(inner, id);
        var way: seq<Turn> :| InputAt(inner, way, id);
        InsideFirst(v, turn, way);
        assert InputAt(v, [turn] + way, id);
      }
      if way: seq<Turn> :| InputAt(v, way, id) {
        assert way != [];
        var inner := Enter(v, way[0]).value;
        assert InputAt(inner, way[1..], id);
        ContainsInputExactly(inner, id);
      }
    }
  }

  /** The route of a target: its letters, digits, underscores and hyphens, and an underscore for anything else. */
  lemma RouteIs(target: string, i: nat)
    requires i < |target| && target != "dashboard"
    ensures RouteCardId("dashboard") == "sorx_dashboard"
    ensures |RouteCardId(target)| == |target|
    ensures var c := target[i];
            RouteCardId(target)[i] ==
            if 'a' <= c <= 'z' || 'A' <= c <= 'Z' || '0' <= c <= '9' || c == '_' || c == '-' then c else '_'
  {
  }

  lemma RewriteField(fields: map<string, Value>, ctx: Context, key: string)
    requires key in fields
    ensures Rewrite(Obj(fields), ctx).Obj? && key in Rewrite(Obj(fields), ctx).fields
    ensures Rewrite(Obj(fields), ctx).fields[key] == Rewrite(UpdateSubmit(fields, ctx)[key], ctx)
  {
    hide SetContext, RemoveInput, UpdateSubmit;
    SetContextFields(fields, ctx);
    RemoveInputFields(SetContext(Obj(fields), ctx).fields, ctx.field);
  }

  lemma RewriteText(text: string, ctx: Context)
    ensures Rewrite(Str(text), ctx) == Str(text)
  {
  }

  /** A submit names the child record. */
  predicate NamesChild(data: map<string, Value>, child: string) {
    "record" in data && data["record"] == Str(child)
  }

  /** A submit opens the plain list of the child record. */
  predicate OpensPlainList(data: map<string, Value>, child: string) {
    "manager_target" in data && data["manager_target"] == Str("records/" + child)
  }

  /** The input that a submit naming the child is given. */
  function GivenInput(data: map<string, Value>, field: string, value: string): Value {
    if "input" !in data then Obj(map[field := Str(value)])
    else if data["input"].Obj? then Obj(data["input"].fields[field := Str(value)])
    else data["input"]
  }

  /**
   What becomes of the data of a submit: one that names the child or opens its plain list
   leads to the context target; one that names it has the parent's text added to its
   input and nothing else changed there; one that does neither is left as it is.
   What lies inside is rewritten in turn.
   */
  ghost predicate DataBecomes(data: map<string, Value>, after: map<string, Value>, ctx: Context) {
    var names, opens := NamesChild(data, ctx.child), OpensPlainList(data, ctx.child);
    && (names || opens ==>
          && "manager_target" in after && after["manager_target"] == Str(ctx.target)
          && "routeToCardId" in after && after["routeToCardId"] == Str(RouteCardId(ctx.target))
          && "cardId" in after && after["cardId"] == Str(RouteCardId(ctx.target)))
    && (names ==> "input" in after && after["input"] == Rewrite(GivenInput(data, ctx.field, ctx.value), ctx))
    && (opens && !names ==>
          && ("input" in after <==> "input" in data)
          && ("input" in data ==> after["input"] == Rewrite(data["input"], ctx)))
    && (!names && !opens ==> Obj(after) == Rewrite(Obj(data), ctx))
    && (forall key :: key in data && key !in {"manager_target", "routeToCardId", "cardId", "input", "data"} ==>
          key in after && after[key] == Rewrite(data[key], ctx))
  }

  lemma UpdatedData(data: map<string, Value>, ctx: Context)
    ensures var names, opens, r := NamesChild(data, ctx.child), OpensPlainList(data, ctx.child), UpdateData(data, ctx);
            && (names || opens ==>
                  && "manager_target" in r && r["manager_target"] == Str(ctx.target)
                  && "routeToCardId" in r && r["routeToCardId"] == Str(RouteCardId(ctx.target))
                  && "cardId" in r && r["cardId"] == Str(RouteCardId(ctx.target)))
            && (names ==> "input" in r && r["input"] == GivenInput(data, ctx.field, ctx.value))
            && (!names ==> ("input" in r <==> "input" in data) && ("input" in data ==> r["input"] == data["input"]))
            && (!names && !opens ==> r == data)
            && (forall key :: key in data && key !in {"manager_target", "routeToCardId", "cardId", "input"} ==>
                  key in r && r[key] == data[key])
  {
    hide RouteCardId;
  }

  lemma RewriteKeys(fields: map<string, Value>, ctx: Context)
    ensures Rewrite(Obj(fields), ctx).Obj? && Rewrite(Obj(fields), ctx).fields.Keys == fields.Keys
  {
    hide SetContext, RemoveInput;
    SetContextFields(fields, ctx);
    RemoveInputFields(SetContext(Obj(fields), ctx).fields, ctx.field);
  }

  lemma RewriteDataField(data: map<string, Value>, ctx: Context, key: string)
    requires key in UpdateData(data, ctx) && key != "data"
    ensures var r := Rewrite(Obj(UpdateData(data, ctx)), ctx);
            r.Obj? && key in r.fields && r.fields[key] == Rewrite(UpdateData(data, ctx)[key], ctx)
  {
    hide UpdateData, Rewrite;
    RewriteField(UpdateData(data, ctx), ctx, key);
  }

  lemma SubmitBecomes(fields: map<string, Value>, ctx: Context)
    requires "type" in fields && fields["type"] == Str("Action.Submit") && "data" in fields && fields["data"].Obj?
    ensures var r := Rewrite(Obj(fields), ctx);
            && r.Obj? && "data" in r.fields && r.fields["data"].Obj?
            && DataBecomes(fields["data"].fields, r.fields["data"].fields, ctx)
  {
    hide UpdateData, Rewrite, RouteCardId;
    var data := fields["data"].fields;
    var updated := UpdateData(data, ctx);
    RewriteField(fields, ctx, "data");
    UpdatedData(data, ctx);
    RewriteKeys(updated, ctx);
    forall text {
      RewriteText(text, ctx);
    }
    forall key | key in updated && key != "data"
      ensures Rewrite(Obj(updated), ctx).fields[key] == Rewrite(updated[key], ctx)
    {
      RewriteDataField(data, ctx, key);
    }
  }

  // ----- where it stands afterwards -----

  function Before(turn: Turn, way: Option<seq<Turn>>): Option<seq<Turn>> {
    if way.Some? then Some([turn] + way.value) else None
  }

  function Rewritten(items: seq<Value>, ctx: Context): seq<Value> {
    seq(|items|, i requires 0 <= i < |items| => SetContext(items[i], ctx))
  }

  /**
   Where a position of a card is found after the rewrite: behind as many items as
   survive before it; nowhere, when an item around it is removed, or when it lies in
   the data of a submit that is redirected.
   */
  function PlaceAfter(v: Value, way: seq<Turn>, ctx: Context): Option<seq<Turn>>
    decreases |way|
  {
    if way == [] then Some([])
    else if Enter(v, way[0]).None? then None
    else if way[0].Item? then
      var i := way[0].index;
      if ContainsInput(SetContext(v.items[i], ctx), ctx.field) then None
      else Before(Item(|RemoveFrom(Rewritten(v.items[..i], ctx), ctx.field)|), PlaceAfter(v.items[i], way[1..], ctx))
    else if UpdateSubmit(v.fields, ctx)[way[0].key] == v.fields[way[0].key] then
      Before(way[0], PlaceAfter(v.fields[way[0].key], way[1..], ctx))
    else None
  }

  lemma {:induction false} SurvivorAt(items: seq<Value>, id: string, i: nat)
    requires i < |items| && !ContainsInput(items[i], id)
    ensures var k := |RemoveFrom(items[..i], id)|;
            k < |RemoveFrom(items, id)| && RemoveFrom(items, id)[k] == RemoveInput(items[i], id)
    decreases |items|
  {
    hide ContainsInput, RemoveInput;
    if i > 0 {
      assert items[..i][0] == items[0] && items[..i][1..] == items[1..][..i - 1];
      SurvivorAt(items[1..], id, i - 1);
    } else {
      assert items[..0] == [];
    }
  }

  lemma RewriteItem(items: seq<Value>, ctx: Context, i: nat)
    requires i < |items| && !ContainsInput(SetContext(items[i], ctx), ctx.field)
    ensures var k := |RemoveFrom(Rewritten(items[..i], ctx), ctx.field)|;
            Enter(Rewrite(Arr(items), ctx), Item(k)) == Some(Rewrite(items[i], ctx))
  {
    hide ContainsInput;
    var all := Rewritten(items, ctx);
    assert SetContext(Arr(items), ctx).items == all;
    assert all[..i] == Rewritten(items[..i], ctx);
    SurvivorAt(all, ctx.field, i);
  }

  /** Every surviving position holds what stood there, rewritten. */
  lemma {:induction false} RewriteInPlace(card: Value, way: seq<Turn>, ctx: Context)
    requires PlaceAfter(card, way, ctx).Some?
    ensures Inside(card, way).Some?
    ensures Inside(Rewrite(card, ctx), PlaceAfter(card, way, ctx).value) == Some(Rewrite(Inside(card, way).value, ctx))
    decreases |way|
  {
    hide Rewrite, ContainsInput, SetContext, RemoveFrom, UpdateSubmit;
    if way != [] {
      var inner, rest := Enter(card, way[0]).value, way[1..];
      RewriteInPlace(inner, rest, ctx);
      var place := PlaceAfter(inner, rest, ctx).value;
      if way[0].Item? {
        RewriteItem(card.items, ctx, way[0].index);
        InsideFirst(Rewrite(card, ctx), Item(|RemoveFrom(Rewritten(card.items[..way[0].index], ctx), ctx.field)|), place);
      } else {
        RewriteField(card.fields, ctx, way[0].key);
        InsideFirst(Rewrite(card, ctx), way[0], place);
      }
    }
  }

  /** Wherever a submit stood and survives, its data is what the rewrite promises. */
  lemma SubmitsBecome(card: Value, way: seq<Turn>, ctx: Context)
    requires PlaceAfter(card, way, ctx).Some? && Inside(card, way).Some?
    requires var submit := Inside(card, way).value;
             submit.Get("type") == Some(Str("Action.Submit")) && submit.Get("data").Some? && submit.Get("data").value.Obj?
    ensures var after := Inside(Rewrite(card, ctx), PlaceAfter(card, way, ctx).value);
            && after.Some? && after.value.Get("data").Some? && after.value.Get("data").value.Obj?
            && DataBecomes(Inside(card, way).value.Get("data").value.fields, after.value.Get("data").value.fields, ctx)
  {
    hide Rewrite, DataBecomes, PlaceAfter;
    RewriteInPlace(card, way, ctx);
    SubmitBecomes(Inside(card, way).value.fields, ctx);
  }

  /**
   Applied when the child hangs off the parent: the field is that of the first link
   on the first path, the value the text by which the parent is known.
   */
  method ApplyParentContext(g: Graph, store: Rows, card: Value, child: string, parent: string, parentId: string)
    returns (out: Value)
    ensures child == parent || (forall path :: !WalkTo(g, parent, path, child)) ==> out == card
    ensures child != parent && (exists path :: WalkTo(g, parent, path, child)) ==>
              exists path: seq<Step> :: FirstPath(g, parent, path, child) && path != [] &&
                var value := ParentValue(store(parent), parentId, parent);
                var ctx := Context(child, ContextTarget(child, parent, parentId), path[0].field, value);
                && NoElementContains(out, ctx.field) && AllCarry(out, ctx) && out == Rewrite(card, ctx)
  {
    assert WalkTo(g, parent, [], parent);
    hide FirstPath, Walks, ParentValue, AllCarry, NoElementContains, Rewrite;
    var found := HierarchyPath(g, parent, child);
    if found.None? {
      return card;
    }
    FirstPathIsShortest(g, parent, found.value, child);
    if found.value == [] {
      return card;
    }
    var path := found.value;
    var value := ParentContextValue(store(parent), parentId, parent);
    var ctx := Context(child, ContextTarget(child, parent, parentId), path[0].field, value);
    RewriteIsComplete(card, ctx);
    out := Rewrite(card, ctx);
  }
}
