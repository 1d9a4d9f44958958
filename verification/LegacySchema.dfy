/**
 Turning a legacy start schema, which lists its required answers as dotted paths,
 into a nested schema in which every node lists its own required keys.
 */
module LegacySchema {
  import opened Json
  import opened Sequences

  /** The one legacy path that is not carried over. */
  const SKIPPED_PATH := "providers.store.config_ref"

  // ----- schema nodes -----

  /** The sub-schema of a property. */
  function Child(s: Value, key: string): (c: Option<Value>)
    ensures c.Some? ==> s.Obj? && "properties" in s.fields && s.fields["properties"].Obj? &&
                        key in s.fields["properties"].fields && c.value == s.fields["properties"].fields[key]
  {
    if s.Get("properties").Some? then s.Get("properties").value.Get(key) else None
  }

  /** The node reached through the properties named by the keys. */
  function NodeAt(s: Value, keys: seq<string>): Option<Value>
    decreases |keys|
  {
    if keys == [] then Some(s)
    else if Child(s, keys[0]).None? then None
    else NodeAt(Child(s, keys[0]).value, keys[1..])
  }

  function SetChild(s: Value, key: string, child: Value): (r: Value)
    requires Child(s, key).Some?
    ensures r.Obj? && r.Get("required") == s.Get("required")
    ensures forall k :: Child(r, k) == if k == key then Some(child) else Child(s, k)
  {
    Obj(s.fields["properties" := Obj(s.fields["properties"].fields[key := child])])
  }

  /** The keys a node lists as required. */
  function Required(s: Value): (items: seq<Value>) {
    if s.Get("required").Some? && s.Get("required").value.Arr? then s.Get("required").value.items else []
  }

  // ----- clearing -----

  /** The schema without any list of required keys, at any depth that schemas nest. */
  function ClearRequired(s: Value): (r: Value)
    ensures r.Obj? <==> s.Obj?
    decreases s, 0
  {
    if s.Obj? then Obj(map key | key in s.fields && key != "required" :: ClearField(key, s.fields[key])) else s
  }

  function ClearField(key: string, v: Value): Value
    decreases v, 1
  {
    if key == "properties" && v.Obj? then Obj(map p | p in v.fields :: ClearRequired(v.fields[p]))
    else if key == "additionalProperties" && v.Obj? then ClearRequired(v)
    else if key == "items" then ClearRequired(v)
    else v
  }

  /** After clearing, no node lists anything. */
  lemma {:induction false} ClearedNode(s: Value, keys: seq<string>)
    ensures NodeAt(ClearRequired(s), keys) ==
            if NodeAt(s, keys).Some? then Some(ClearRequired(NodeAt(s, keys).value)) else None
    ensures NodeAt(s, keys).Some? ==> ClearRequired(NodeAt(s, keys).value).Get("required") == None
    decreases |keys|
  {
    if keys != [] {
      if Child(s, keys[0]).Some? {
        ClearedNode(Child(s, keys[0]).value, keys[1..]);
      }
    }
  }

  // ----- requiring -----

  function AddKey(items: seq<Value>, key: string): (r: seq<Value>)
    ensures forall v :: v in r <==> v in items || v == Str(key)
  {
    if Str(key) in items then items else items + [Str(key)]
  }

  /** Lists the key at an object node; a list that is no array is left alone. */
  function RequireKey(s: Value, key: string): (r: Value)
    ensures r.Obj? <==> s.Obj?
    ensures r.Get("properties") == s.Get("properties")
  {
    if !s.Obj? || (s.Get("required").Some? && !s.Get("required").value.Arr?) then s
    else Obj(s.fields["required" := Arr(AddKey(Required(s), key))])
  }

  /** Lists every part of the path at the node reached by the parts before it, as far as the properties go. */
  function RequirePath(s: Value, parts: seq<string>): (r: Value)
    requires parts != []
    decreases |parts|
  {
    var listed := RequireKey(s, parts[0]);
    if |parts| == 1 || Child(listed, parts[0]).None? then listed
    else SetChild(listed, parts[0], RequirePath(Child(listed, parts[0]).value, parts[1..]))
  }

  /** The path runs through the node and names the key there. */
  predicate PassesThrough(parts: seq<string>, keys: seq<string>, key: string) {
    |parts| > |keys| && parts[..|keys|] == keys && parts[|keys|] == key
  }

  predicate Extendable(s: Value) {
    s.Get("required").None? || s.Get("required").value.Arr?
  }

  /** What one path does to the node at the given keys: it gains the key that the path names there, if any. */
  ghost predicate NodeStep(before: Option<Value>, after: Option<Value>, parts: seq<string>, keys: seq<string>) {
    && (before.None? <==> after.None?)
    && (before.Some? ==>
          && (before.value.Obj? <==> after.value.Obj?)
          && (before.value.Obj? && Extendable(before.value) ==>
                && Extendable(after.value)
                && Required(after.value) ==
                   if |parts| > |keys| && parts[..|keys|] == keys
                   then AddKey(Required(before.value), parts[|keys|]) else Required(before.value)))
  }

  lemma RequirePathHere(s: Value, parts: seq<string>)
    requires parts != []
    ensures NodeStep(Some(s), Some(RequirePath(s, parts)), parts, [])
  {
    assert parts[..0] == [];
  }

  lemma RequirePathChild(s: Value, parts: seq<string>, key: string)
    requires parts != []
    ensures Child(RequirePath(s, parts), key) ==
            if Child(s, key).Some? && |parts| > 1 && parts[0] == key
            then Some(RequirePath(Child(s, key).value, parts[1..])) else Child(s, key)
  {
    assert Child(RequireKey(s, parts[0]), parts[0]) == Child(s, parts[0]);
    assert Child(RequireKey(s, parts[0]), key) == Child(s, key);
  }

  lemma {:induction false} RequirePathAt(s: Value, parts: seq<string>, keys: seq<string>)
    requires parts != []
    ensures NodeStep(NodeAt(s, keys), NodeAt(RequirePath(s, parts), keys), parts, keys)
    decreases |keys|
  {
    if keys == [] {
      RequirePathHere(s, parts);
    } else {
      var key := keys[0];
      RequirePathChild(s, parts, key);
      assert keys == [key] + keys[1..];
      assert parts == [parts[0]] + parts[1..];
      if Child(s, key).Some? && |parts| > 1 && parts[0] == key {
        RequirePathAt(Child(s, key).value, parts[1..], keys[1..]);
        assert |parts| > |keys| ==> (parts[..|keys|] == keys <==> parts[1..][..|keys| - 1] == keys[1..]);
      } else if |parts| > |keys| && parts[..|keys|] == keys {
        assert parts[0] == parts[..|keys|][0] == key;
      }
    }
  }

  function RequireAll(s: Value, paths: seq<string>): Value {
    if paths == [] then s
    else
      var before, last := RequireAll(s, paths[..|paths| - 1]), paths[|paths| - 1];
      if last == SKIPPED_PATH then before else RequirePath(before, SplitDots(last))
  }

  /** Some listed path other than the skipped one passes through the node and the key. */
  ghost predicate Asked(paths: seq<string>, keys: seq<string>, key: string) {
    exists i :: 0 <= i < |paths| && paths[i] != SKIPPED_PATH && PassesThrough(SplitDots(paths[i]), keys, key)
  }

  ghost predicate ListsExactly(s: Value, paths: seq<string>, keys: seq<string>) {
    && Extendable(s)
    && (forall v :: v in Required(s) ==> v.Str?)
    && (forall key :: Str(key) in Required(s) <==> Asked(paths, keys, key))
    && (forall i, j :: 0 <= i < j < |Required(s)| ==> Required(s)[i] != Required(s)[j])
  }

  lemma AskedStep(paths: seq<string>, keys: seq<string>, key: string)
    requires paths != []
    ensures var last := paths[|paths| - 1];
            Asked(paths, keys, key) <==>
              || Asked(paths[..|paths| - 1], keys, key)
              || (last != SKIPPED_PATH && PassesThrough(SplitDots(last), keys, key))
  {
    hide PassesThrough, SplitDots;
    var before := paths[..|paths| - 1];
    if i :| 0 <= i < |before| && before[i] != SKIPPED_PATH && PassesThrough(SplitDots(before[i]), keys, key) {
      assert paths[i] == before[i];
    }
    if i :| 0 <= i < |paths| && paths[i] != SKIPPED_PATH && PassesThrough(SplitDots(paths[i]), keys, key) {
      if i < |before| {
        assert before[i] == paths[i];
      }
    }
  }

  lemma ListsStep(before: Value, after: Value, paths: seq<string>, keys: seq<string>)
    requires paths != [] && before.Obj? && ListsExactly(before, paths[..|paths| - 1], keys)
    requires var last := paths[|paths| - 1];
             if last == SKIPPED_PATH then after == before
             else NodeStep(Some(before), Some(after), SplitDots(last), keys)
    ensures ListsExactly(after, paths, keys)
  {
    forall key {
      AskedStep(paths, keys, key);
    }
  }

  /**
   Applied to a schema that lists nothing, the paths make an object node list a key
   exactly when one of them passes through that node and key, and list it once.
   */
  lemma {:induction false} RequiredExactly(s: Value, paths: seq<string>, keys: seq<string>)
    requires forall ks :: NodeAt(s, ks).Some? ==> NodeAt(s, ks).value.Get("required") == None
    ensures NodeAt(RequireAll(s, paths), keys).Some? <==> NodeAt(s, keys).Some?
    ensures NodeAt(s, keys).Some? ==>
              && (NodeAt(RequireAll(s, paths), keys).value.Obj? <==> NodeAt(s, keys).value.Obj?)
              && (NodeAt(s, keys).value.Obj? ==> ListsExactly(NodeAt(RequireAll(s, paths), keys).value, paths, keys))
  {
    if paths != [] {
      var n := |paths| - 1;
      RequiredExactly(s, paths[..n], keys);
      var before := RequireAll(s, paths[..n]);
      if paths[n] != SKIPPED_PATH {
        RequirePathAt(before, SplitDots(paths[n]), keys);
      }
      if NodeAt(s, keys).Some? && NodeAt(s, keys).value.Obj? {
        ListsStep(NodeAt(before, keys).value, NodeAt(RequireAll(s, paths), keys).value, paths, keys);
      }
    }
  }

  // ----- nothing else changes -----

  lemma ClearAfterSetChild(s: Value, key: string, child: Value)
    requires Child(s, key).Some? && ClearRequired(child) == ClearRequired(Child(s, key).value)
    ensures ClearRequired(SetChild(s, key, child)) == ClearRequired(s)
  {
    var r := SetChild(s, key, child);
    var was, now := s.fields["properties"], r.fields["properties"];
    assert ClearField("properties", now) == ClearField("properties", was);
    assert ClearRequired(r).fields == ClearRequired(s).fields;
  }

  lemma {:induction false} ClearAfterRequirePath(s: Value, parts: seq<string>)
    requires parts != []
    ensures ClearRequired(RequirePath(s, parts)) == ClearRequired(s)
    decreases |parts|
  {
    var listed := RequireKey(s, parts[0]);
    if |parts| > 1 && Child(listed, parts[0]).Some? {
      var child := Child(listed, parts[0]).value;
      ClearAfterRequirePath(child, parts[1..]);
      ClearAfterSetChild(listed, parts[0], RequirePath(child, parts[1..]));
    }
  }

  /** The paths change nothing but lists of required keys. */
  lemma {:induction false} OnlyRequiredChanges(s: Value, paths: seq<string>)
    ensures ClearRequired(RequireAll(s, paths)) == ClearRequired(s)
  {
    if paths != [] {
      OnlyRequiredChanges(s, paths[..|paths| - 1]);
      ClearAfterRequirePath(RequireAll(s, paths[..|paths| - 1]), SplitDots(paths[|paths| - 1]));
    }
  }

  // ----- the conversion -----

  /** Gives a default to the node at the keys, if there is one. */
  function SetDefault(s: Value, keys: seq<string>, v: Value): (r: Value)
    decreases |keys|
  {
    if keys == [] then (if s.Obj? then Obj(s.fields["default" := v]) else s)
    else if Child(s, keys[0]).None? then s
    else SetChild(s, keys[0], SetDefault(Child(s, keys[0]).value, keys[1..], v))
  }

  /** The node gets the default, when there is an object there, and keeps everything else. */
  lemma {:induction false} DefaultIsSet(s: Value, keys: seq<string>, v: Value)
    requires NodeAt(s, keys).Some? && NodeAt(s, keys).value.Obj?
    ensures NodeAt(SetDefault(s, keys, v), keys) == Some(Obj(NodeAt(s, keys).value.fields["default" := v]))
    decreases |keys|
  {
    if keys != [] {
      DefaultIsSet(Child(s, keys[0]).value, keys[1..], v);
    }
  }

  function SetTitle(s: Value, title: Option<Value>): (r: Value) {
    if title.Some? && s.Obj? then Obj(s.fields["title" := title.value]) else s
  }

  predicate SameLists(a: Option<Value>, b: Option<Value>) {
    && (a.Some? <==> b.Some?)
    && (a.Some? ==> (a.value.Obj? <==> b.value.Obj?) && a.value.Get("required") == b.value.Get("required"))
  }

  lemma {:induction false} SetDefaultKeepsLists(s: Value, keys: seq<string>, v: Value, at: seq<string>)
    ensures SameLists(NodeAt(SetDefault(s, keys, v), at), NodeAt(s, at))
    decreases |at|
  {
    if at != [] {
      var r := SetDefault(s, keys, v);
      if keys == [] {
        assert Child(r, at[0]) == Child(s, at[0]);
      } else if Child(s, keys[0]).Some? && at[0] == keys[0] {
        SetDefaultKeepsLists(Child(s, keys[0]).value, keys[1..], v, at[1..]);
      }
    }
  }

  lemma SetTitleKeepsLists(s: Value, title: Option<Value>, at: seq<string>)
    ensures SameLists(NodeAt(SetTitle(s, title), at), NodeAt(s, at))
  {
    if at != [] {
      assert Child(SetTitle(s, title), at[0]) == Child(s, at[0]);
    }
  }

  /** The default schema without its lists, with the legacy title and the two local defaults. */
  function Prepared(base: Value, legacy: Value): Value {
    var titled := SetTitle(ClearRequired(base), legacy.Get("title"));
    var tenant := SetDefault(titled, ["tenant", "tenant_id"], Str("local"));
    SetDefault(tenant, ["server", "public_base_url"], Str("http://127.0.0.1:8787"))
  }

  /** The title and the two defaults, where the default schema has the nodes for them. */
  lemma PreparedHolds(base: Value, legacy: Value)
    ensures base.Obj? && legacy.Get("title").Some? ==> Prepared(base, legacy).Get("title") == legacy.Get("title")
    ensures var at := NodeAt(base, ["tenant", "tenant_id"]);
            at.Some? && at.value.Obj? ==>
              var node := NodeAt(Prepared(base, legacy), ["tenant", "tenant_id"]);
              node.Some? && node.value.Get("default") == Some(Str("local"))
    ensures var at := NodeAt(base, ["server", "public_base_url"]);
            at.Some? && at.value.Obj? ==>
              var node := NodeAt(Prepared(base, legacy), ["server", "public_base_url"]);
              node.Some? && node.value.Get("default") == Some(Str("http://127.0.0.1:8787"))
  {
    hide NodeAt, ClearRequired;
    var tenantKeys, serverKeys := ["tenant", "tenant_id"], ["server", "public_base_url"];
    var titled := SetTitle(ClearRequired(base), legacy.Get("title"));
    var tenant := SetDefault(titled, tenantKeys, Str("local"));
    ClearedNode(base, tenantKeys);
    ClearedNode(base, serverKeys);
    SetTitleKeepsLists(ClearRequired(base), legacy.Get("title"), tenantKeys);
    SetTitleKeepsLists(ClearRequired(base), legacy.Get("title"), serverKeys);
    SetDefaultKeepsLists(titled, tenantKeys, Str("local"), serverKeys);
    assert serverKeys[0] != tenantKeys[0];
    if NodeAt(base, tenantKeys).Some? && NodeAt(base, tenantKeys).value.Obj? {
      DefaultIsSet(titled, tenantKeys, Str("local"));
      DefaultElsewhere(tenant, serverKeys, Str("http://127.0.0.1:8787"), tenantKeys);
    }
    if NodeAt(base, serverKeys).Some? && NodeAt(base, serverKeys).value.Obj? {
      DefaultIsSet(tenant, serverKeys, Str("http://127.0.0.1:8787"));
    }
    TitleStays(titled, tenantKeys, Str("local"));
    TitleStays(tenant, serverKeys, Str("http://127.0.0.1:8787"));
  }

  lemma DefaultElsewhere(s: Value, keys: seq<string>, v: Value, at: seq<string>)
    requires keys != [] && at != [] && keys[0] != at[0]
    ensures NodeAt(SetDefault(s, keys, v), at) == NodeAt(s, at)
  {
  }

  lemma TitleStays(s: Value, keys: seq<string>, v: Value)
    requires keys != []
    ensures SetDefault(s, keys, v).Get("title") == s.Get("title") && (SetDefault(s, keys, v).Obj? <==> s.Obj?)
  {
  }

  lemma PreparedListsNothing(base: Value, legacy: Value, keys: seq<string>)
    ensures NodeAt(Prepared(base, legacy), keys).Some? <==> NodeAt(base, keys).Some?
    ensures NodeAt(base, keys).Some? ==>
              var node := NodeAt(Prepared(base, legacy), keys).value;
              node.Get("required") == None && (node.Obj? <==> NodeAt(base, keys).value.Obj?)
  {
    var titled := SetTitle(ClearRequired(base), legacy.Get("title"));
    var tenant := SetDefault(titled, ["tenant", "tenant_id"], Str("local"));
    ClearedNode(base, keys);
    SetTitleKeepsLists(ClearRequired(base), legacy.Get("title"), keys);
    SetDefaultKeepsLists(titled, ["tenant", "tenant_id"], Str("local"), keys);
    SetDefaultKeepsLists(tenant, ["server", "public_base_url"], Str("http://127.0.0.1:8787"), keys);
  }

  function TextOf(v: Value): Option<string> {
    if v.Str? then Some(v.text) else None
  }

  function LegacyPaths(legacy: Value): seq<string> {
    Collect(Required(legacy), TextOf)
  }

  /** Every node of the default schema ends up listing exactly what the legacy paths ask of it. */
  method ConvertLegacy(base: Value, legacy: Value) returns (out: Value)
    ensures ClearRequired(out) == ClearRequired(Prepared(base, legacy))
    ensures forall keys :: NodeAt(out, keys).Some? <==> NodeAt(base, keys).Some?
    ensures forall keys :: NodeAt(base, keys).Some? && NodeAt(base, keys).value.Obj? ==>
              ListsExactly(NodeAt(out, keys).value, LegacyPaths(legacy), keys)
  {
    hide Prepared, NodeAt, ClearRequired, RequirePath, LegacyPaths, SplitDots, ListsExactly;
    out := Prepared(base, legacy);
    ghost var start := out;
    var paths := LegacyPaths(legacy);
    for i := 0 to |paths|
      invariant out == RequireAll(start, paths[..i])
    {
      assert paths[..i + 1][..i] == paths[..i];
      if paths[i] != SKIPPED_PATH {
        out := RequirePath(out, SplitDots(paths[i]));
      }
    }
    TakeAll(paths);
    OnlyRequiredChanges(start, paths);
    AllRequiredExactly(base, legacy, paths);
  }

  lemma AllRequiredExactly(base: Value, legacy: Value, paths: seq<string>)
    ensures var out := RequireAll(Prepared(base, legacy), paths);
            && (forall keys :: NodeAt(out, keys).Some? <==> NodeAt(base, keys).Some?)
            && (forall keys :: NodeAt(base, keys).Some? && NodeAt(base, keys).value.Obj? ==>
                  ListsExactly(NodeAt(out, keys).value, paths, keys))
  {
    hide Prepared, RequireAll, NodeAt, ListsExactly;
    var start := Prepared(base, legacy);
    forall keys {
      PreparedListsNothing(base, legacy, keys);
    }
    forall keys {
      RequiredExactly(start, paths, keys);
    }
  }

  /** Two legacy lists with the same paths, in whatever order and however often, ask the same of every node. */
  lemma OrderDoesNotMatter(base: Value, paths: seq<string>, others: seq<string>, keys: seq<string>, key: string)
    requires forall ks :: NodeAt(base, ks).Some? ==> NodeAt(base, ks).value.Get("required") == None
    requires forall p :: p in paths <==> p in others
    requires NodeAt(base, keys).Some? && NodeAt(base, keys).value.Obj?
    ensures NodeAt(RequireAll(base, paths), keys).Some? && NodeAt(RequireAll(base, others), keys).Some?
    ensures Str(key) in Required(NodeAt(RequireAll(base, paths), keys).value) <==>
            Str(key) in Required(NodeAt(RequireAll(base, others), keys).value)
  {
    RequiredExactly(base, paths, keys);
    RequiredExactly(base, others, keys);
    AskedBySet(paths, others, keys, key);
    AskedBySet(others, paths, keys, key);
  }

  lemma AskedBySet(paths: seq<string>, others: seq<string>, keys: seq<string>, key: string)
    requires forall p :: p in paths ==> p in others
    ensures Asked(paths, keys, key) ==> Asked(others, keys, key)
  {
    hide PassesThrough, SplitDots;
    if i :| 0 <= i < |paths| && paths[i] != SKIPPED_PATH && PassesThrough(SplitDots(paths[i]), keys, key) {
      assert paths[i] in others;
      var j :| 0 <= j < |others| && others[j] == paths[i];
    }
  }

  /** The path that is skipped, and no other, asks nothing. */
  lemma SkippedPathIs(paths: seq<string>, keys: seq<string>, key: string)
    ensures Asked(paths, keys, key) <==>
            exists i :: 0 <= i < |paths| && paths[i] != "providers.store.config_ref" &&
                        |SplitDots(paths[i])| > |keys| && SplitDots(paths[i])[..|keys|] == keys && SplitDots(paths[i])[|keys|] == key
  {
  }

  // ----- clearing reaches every schema -----

  /** No list of required keys is left on the way through properties, additional properties and items. */
  predicate NoLists(s: Value)
    decreases s
  {
    s.Obj? ==>
      && "required" !in s.fields
      && ("properties" in s.fields && s.fields["properties"].Obj? ==>
            forall key :: key in s.fields["properties"].fields ==> NoLists(s.fields["properties"].fields[key]))
      && ("additionalProperties" in s.fields && s.fields["additionalProperties"].Obj? ==> NoLists(s.fields["additionalProperties"]))
      && ("items" in s.fields ==> NoLists(s.fields["items"]))
  }

  lemma {:induction false} ClearingReachesAll(s: Value)
    ensures NoLists(ClearRequired(s))
    ensures s.Obj? ==> forall key :: key in s.fields && key !in {"required", "properties", "additionalProperties", "items"} ==>
              ClearRequired(s).Get(key) == Some(s.fields[key])
    decreases s
  {
    if s.Obj? {
      if "properties" in s.fields && s.fields["properties"].Obj? {
        var children := s.fields["properties"].fields;
        forall key | key in children
          ensures NoLists(ClearRequired(children[key]))
        {
          ClearingReachesAll(children[key]);
        }
      }
      if "additionalProperties" in s.fields {
        ClearingReachesAll(s.fields["additionalProperties"]);
      }
      if "items" in s.fields {
        ClearingReachesAll(s.fields["items"]);
      }
    }
  }

  lemma RequiredIs(s: Value, items: seq<Value>)
    ensures s.Get("required") == Some(Arr(items)) ==> Required(s) == items
    ensures s.Get("required").None? || !s.Get("required").value.Arr? ==> Required(s) == []
  {
  }

  /** The legacy paths are the texts in the legacy schema's own list. */
  lemma LegacyPathsAre(legacy: Value, path: string)
    ensures path in LegacyPaths(legacy) <==>
            legacy.Get("required").Some? && legacy.Get("required").value.Arr? && Str(path) in legacy.Get("required").value.items
  {
    CollectMember(Required(legacy), TextOf, path);
    if i :| 0 <= i < |Required(legacy)| && Required(legacy)[i] == Str(path) {
      assert TextOf(Required(legacy)[i]) == Some(path);
    }
  }
}
