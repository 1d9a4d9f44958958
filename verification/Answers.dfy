/**
 Start answers as a tree and as a flat map from dotted paths to leaves: the
 flattening given to the question driver and the unflattening of what it returns.
 */
module Answers {
  import opened Json
  import opened TextOrder

  // ----- leaves -----

  predicate IsLeafValue(v: Value) {
    !v.Null? && !v.Obj?
  }

  /** The keys lead through objects to a value that is neither null nor an object. */
  predicate IsLeaf(t: Value, keys: seq<string>) {
    Walk(t, keys).Some? && IsLeafValue(Walk(t, keys).value)
  }

  lemma {:induction false} WalkConcat(t: Value, a: seq<string>, b: seq<string>)
    ensures Walk(t, a + b) == if Walk(t, a).Some? then Walk(Walk(t, a).value, b) else None
  {
    if a == [] {
      assert a + b == b;
    } else {
      assert (a + b)[1..] == a[1..] + b;
      if t.Get(a[0]).Some? {
        WalkConcat(t.Get(a[0]).value, a[1..], b);
      }
    }
  }

  // ----- flattening -----

  function ExtendPath(path: string, key: string): string {
    if path == "" then key else path + "." + key
  }

  function PathText(path: string, keys: seq<string>): string
    decreases |keys|
  {
    if keys == [] then path else PathText(ExtendPath(path, keys[0]), keys[1..])
  }

  ghost predicate FromLeaf(t: Value, path: string, text: string, v: Value) {
    exists keys :: IsLeaf(t, keys) && PathText(path, keys) == text && Walk(t, keys) == Some(v)
  }

  /** The map holds exactly the leaves of the tree, each under its path; a leaf without a path is left out. */
  ghost predicate IsFlat(flat: map<string, Value>, t: Value, path: string) {
    && (forall text :: text in flat ==> text != "" && FromLeaf(t, path, text, flat[text]))
    && (forall keys :: IsLeaf(t, keys) && PathText(path, keys) != "" ==> PathText(path, keys) in flat)
  }

  /** What has been added to a map: leaves of the tree, all of them, and nothing taken away. */
  ghost predicate AddsLeaves(before: map<string, Value>, after: map<string, Value>, t: Value, path: string) {
    && (forall text :: text in before ==> text in after)
    && (forall text :: text in after ==>
          (text in before && after[text] == before[text]) || (text != "" && FromLeaf(t, path, text, after[text])))
    && (forall keys :: IsLeaf(t, keys) && PathText(path, keys) != "" ==> PathText(path, keys) in after)
  }

  lemma LeafOfChild(t: Value, key: string, keys: seq<string>)
    requires t.Obj? && key in t.fields
    ensures IsLeaf(t, [key] + keys) <==> IsLeaf(t.fields[key], keys)
    ensures Walk(t, [key] + keys) == Walk(t.fields[key], keys)
    ensures forall path :: PathText(path, [key] + keys) == PathText(ExtendPath(path, key), keys)
  {
    assert ([key] + keys)[1..] == keys;
  }

  /** The map after adding the leaves below a value: keys are visited in their order, and later leaves replace earlier ones. */
  ghost function FlatInto(value: Value, path: string, out: map<string, Value>): map<string, Value>
    decreases value, 1, 0
  {
    if value.Obj? then FlatKeys(value, path, InTextOrder(value.fields.Keys), out)
    else if value.Null? || path == "" then out
    else out[path := value]
  }

  ghost function FlatKeys(value: Value, path: string, order: seq<string>, out: map<string, Value>): map<string, Value>
    requires value.Obj? && forall i :: 0 <= i < |order| ==> order[i] in value.fields
    decreases value, 0, |order|
  {
    if order == [] then out
    else
      FlatKeys(value, path, order[1..], FlatInto(value.fields[order[0]], ExtendPath(path, order[0]), out))
  }

  method FlattenInto(value: Value, path: string, out: map<string, Value>) returns (out': map<string, Value>)
    ensures out' == FlatInto(value, path, out) && AddsLeaves(out, out', value, path)
    decreases value
  {
    FlatIntoAddsLeaves(value, path, out);
    hide AddsLeaves;
    out' := out;
    if value.Obj? {
      var remaining := value.fields.Keys;
      while remaining != {}
        invariant remaining <= value.fields.Keys
        invariant FlatKeys(value, path, InTextOrder(remaining), out') == FlatInto(value, path, out)
        decreases remaining
      {
        var key := FindLeast(remaining);
        assert InTextOrder(remaining)[1..] == InTextOrder(remaining - {key});
        out' := FlattenInto(value.fields[key], ExtendPath(path, key), out');
        remaining := remaining - {key};
      }
    } else if !value.Null? && path != "" {
      out' := out[path := value];
    }
  }

  lemma LeafIsOwnPath(value: Value)
    requires !value.Obj?
    ensures forall keys :: IsLeaf(value, keys) ==> keys == []
  {
  }

  // ----- which leaf is kept -----

  /** Keys in the order in which leaves are visited. */
  predicate KeysLess(a: seq<string>, b: seq<string>) {
    b != [] && (a == [] || Less(a[0], b[0]) || (a[0] == b[0] && KeysLess(a[1..], b[1..])))
  }

  lemma {:induction false} KeysLessOneWay(a: seq<string>, b: seq<string>)
    requires KeysLess(a, b)
    ensures a != b && !KeysLess(b, a)
  {
    hide Less;
    if a != [] {
      LessTotal(a[0], b[0]);
      if a[0] == b[0] && KeysLess(a[1..], b[1..]) {
        KeysLessOneWay(a[1..], b[1..]);
      }
    }
  }

  ghost predicate LeafAt(value: Value, path: string, keys: seq<string>, text: string) {
    IsLeaf(value, keys) && PathText(path, keys) == text
  }

  /** The leaf under this text that is visited last. */
  ghost predicate LastLeafAt(value: Value, path: string, keys: seq<string>, text: string) {
    LeafAt(value, path, keys, text) && forall other :: LeafAt(value, path, other, text) ==> other == keys || KeysLess(other, keys)
  }

  /** What flattening does to one entry: the last leaf under that text, or else what was there. */
  ghost predicate EntryAfter(value: Value, path: string, before: map<string, Value>, after: map<string, Value>, text: string) {
    if text != "" && exists keys :: LeafAt(value, path, keys, text) then
      text in after && exists keys :: LastLeafAt(value, path, keys, text) && Walk(value, keys) == Some(after[text])
    else
      (text in after <==> text in before) && (text in before ==> after[text] == before[text])
  }

  /** The same for the leaves that lie below some of the keys. */
  ghost predicate LeafVia(value: Value, path: string, order: seq<string>, keys: seq<string>, text: string) {
    LeafAt(value, path, keys, text) && keys != [] && keys[0] in order
  }

  ghost predicate LastLeafVia(value: Value, path: string, order: seq<string>, keys: seq<string>, text: string) {
    && LeafVia(value, path, order, keys, text)
    && forall other :: LeafVia(value, path, order, other, text) ==> other == keys || KeysLess(other, keys)
  }

  ghost predicate EntryAfterKeys(value: Value, path: string, order: seq<string>, before: map<string, Value>,
                                 after: map<string, Value>, text: string) {
    if text != "" && exists keys :: LeafVia(value, path, order, keys, text) then
      text in after && exists keys :: LastLeafVia(value, path, order, keys, text) && Walk(value, keys) == Some(after[text])
    else
      (text in after <==> text in before) && (text in before ==> after[text] == before[text])
  }

  lemma ChildLeaf(value: Value, path: string, keys: seq<string>, text: string)
    requires value.Obj? && keys != [] && keys[0] in value.fields
    ensures LeafAt(value, path, keys, text) <==> LeafAt(value.fields[keys[0]], ExtendPath(path, keys[0]), keys[1..], text)
    ensures Walk(value, keys) == Walk(value.fields[keys[0]], keys[1..])
  {
    assert keys == [keys[0]] + keys[1..];
    LeafOfChild(value, keys[0], keys[1..]);
  }

  lemma {:induction false} FlatIntoAt(value: Value, path: string, out: map<string, Value>, text: string)
    ensures EntryAfter(value, path, out, FlatInto(value, path, out), text)
    decreases value, 1, 0
  {
    if value.Obj? {
      var order := InTextOrder(value.fields.Keys);
      InTextOrderAscends(value.fields.Keys);
      FlatKeysAt(value, path, order, out, text);
      AllKeysVia(value, path, order, text);
    } else {
      LeafIsOwnPath(value);
      if IsLeafValue(value) {
        assert LeafAt(value, path, [], path);
        assert LastLeafAt(value, path, [], path);
      }
    }
  }

  lemma AllKeysVia(value: Value, path: string, order: seq<string>, text: string)
    requires value.Obj? && forall key :: key in order <==> key in value.fields
    ensures forall keys :: LeafAt(value, path, keys, text) <==> LeafVia(value, path, order, keys, text)
    ensures forall keys :: LastLeafAt(value, path, keys, text) <==> LastLeafVia(value, path, order, keys, text)
  {
    hide PathText, KeysLess;
    forall keys
      ensures LeafAt(value, path, keys, text) <==> LeafVia(value, path, order, keys, text)
    {
      if LeafAt(value, path, keys, text) {
        assert keys != [] && value.Get(keys[0]).Some?;
        assert keys[0] in value.fields;
        assert keys[0] in order;
      }
    }
    hide LeafAt, LeafVia;
  }

  lemma {:induction false} FlatKeysAt(value: Value, path: string, order: seq<string>, out: map<string, Value>, text: string)
    requires value.Obj? && TextsAscend(order) && forall i :: 0 <= i < |order| ==> order[i] in value.fields
    ensures EntryAfterKeys(value, path, order, out, FlatKeys(value, path, order, out), text)
    decreases value, 0, |order|
  {
    if order != [] {
      var key, rest := order[0], order[1..];
      var mid := FlatInto(value.fields[key], ExtendPath(path, key), out);
      FlatIntoAt(value.fields[key], ExtendPath(path, key), out, text);
      FlatKeysAt(value, path, rest, mid, text);
      OneMoreKey(value, path, order, out, mid, FlatKeys(value, path, order, out), text);
    }
  }

  /** A first key before all others: its leaves are replaced by theirs. */
  lemma OneMoreKey(value: Value, path: string, order: seq<string>, out: map<string, Value>, mid: map<string, Value>,
                   after: map<string, Value>, text: string)
    requires value.Obj? && order != [] && TextsAscend(order) && order[0] in value.fields
    requires EntryAfter(value.fields[order[0]], ExtendPath(path, order[0]), out, mid, text)
    requires EntryAfterKeys(value, path, order[1..], mid, after, text)
    ensures EntryAfterKeys(value, path, order, out, after, text)
  {
    hide LeafAt, KeysLess, Less, PathText;
    var key, rest := order[0], order[1..];
    var child, below := value.fields[key], ExtendPath(path, key);
    forall keys
      ensures LeafVia(value, path, order, keys, text) <==>
              || LeafVia(value, path, rest, keys, text)
              || (keys != [] && keys[0] == key && LeafAt(child, below, keys[1..], text))
    {
      if keys != [] && keys[0] == key {
        ChildLeaf(value, path, keys, text);
      }
    }
    if text != "" && exists keys :: LeafVia(value, path, rest, keys, text) {
      var last :| LastLeafVia(value, path, rest, last, text) && Walk(value, last) == Some(after[text]);
      forall other | LeafVia(value, path, order, other, text)
        ensures other == last || KeysLess(other, last)
      {
        if !LeafVia(value, path, rest, other, text) {
          FirstKeyLess(order, other, last);
        }
      }
      assert LastLeafVia(value, path, order, last, text);
    } else if text != "" && exists keys :: LeafAt(child, below, keys, text) {
      var keys :| LastLeafAt(child, below, keys, text) && Walk(child, keys) == Some(mid[text]);
      var last := [key] + keys;
      assert last[1..] == keys;
      ChildLeaf(value, path, last, text);
      forall other | LeafVia(value, path, order, other, text)
        ensures other == last || KeysLess(other, last)
      {
        assert other == [key] + other[1..];
        SameFirstKey(key, other[1..], keys);
      }
      assert LastLeafVia(value, path, order, last, text);
    }
  }

  lemma FirstKeyLess(order: seq<string>, a: seq<string>, b: seq<string>)
    requires TextsAscend(order) && order != [] && a != [] && b != [] && a[0] == order[0] && b[0] in order[1..]
    ensures KeysLess(a, b)
  {
    var i :| 0 <= i < |order| - 1 && order[1..][i] == b[0];
    assert Less(order[0], order[i + 1]);
  }

  lemma SameFirstKey(key: string, a: seq<string>, b: seq<string>)
    requires a == b || KeysLess(a, b)
    ensures [key] + a == [key] + b || KeysLess([key] + a, [key] + b)
  {
    assert ([key] + a)[1..] == a && ([key] + b)[1..] == b;
  }

  lemma FlatIntoAddsLeaves(value: Value, path: string, out: map<string, Value>)
    ensures AddsLeaves(out, FlatInto(value, path, out), value, path)
  {
    hide FlatInto, PathText, IsLeaf;
    var after := FlatInto(value, path, out);
    forall text
      ensures text in out ==> text in after
      ensures text in after ==>
                (text in out && after[text] == out[text]) || (text != "" && FromLeaf(value, path, text, after[text]))
    {
      FlatIntoAt(value, path, out, text);
    }
    forall keys | IsLeaf(value, keys) && PathText(path, keys) != ""
      ensures PathText(path, keys) in after
    {
      FlatIntoAt(value, path, out, PathText(path, keys));
      assert LeafAt(value, path, keys, PathText(path, keys));
    }
  }

  /** The one flat map of a tree. */
  ghost function Flattened(value: Value): map<string, Value> {
    FlatInto(value, "", map[])
  }

  /** It holds, under every text that is the path of a leaf, the leaf visited last. */
  lemma FlattenedAt(value: Value, text: string)
    ensures EntryAfter(value, "", map[], Flattened(value), text)
  {
    FlatIntoAt(value, "", map[], text);
  }

  method Flatten(value: Value) returns (flat: map<string, Value>)
    ensures flat == Flattened(value) && IsFlat(flat, value, "")
  {
    flat := FlattenInto(value, "", map[]);
  }

  // ----- unflattening -----

  /** Puts a value under the keys, making objects of whatever is in the way. */
  function SetNested(root: Value, keys: seq<string>, v: Value): (r: Value)
    requires keys != []
    ensures r.Obj?
    decreases |keys|
  {
    var fields := if root.Obj? then root.fields else map[];
    if |keys| == 1 then Obj(fields[keys[0] := v])
    else
      var child := if keys[0] in fields then fields[keys[0]] else EMPTY_OBJECT;
      Obj(fields[keys[0] := SetNested(child, keys[1..], v)])
  }

  /** The entries of a flat map applied one after the other, in the given order of their paths. */
  function ApplyInOrder(root: Value, flat: map<string, Value>, order: seq<string>): (r: Value)
    requires forall i :: 0 <= i < |order| ==> order[i] in flat
  {
    if order == [] then root
    else
      var n := |order| - 1;
      SetNested(ApplyInOrder(root, flat, order[..n]), SplitDots(order[n]), flat[order[n]])
  }

  lemma ApplyOneMore(root: Value, flat: map<string, Value>, order: seq<string>, path: string)
    requires (forall i :: 0 <= i < |order| ==> order[i] in flat) && path in flat
    ensures ApplyInOrder(root, flat, order + [path]) ==
            SetNested(ApplyInOrder(root, flat, order), SplitDots(path), flat[path])
  {
    assert (order + [path])[..|order|] == order;
  }

  ghost predicate OrderOf(order: seq<string>, flat: map<string, Value>) {
    && (forall i :: 0 <= i < |order| ==> order[i] in flat)
    && (forall text :: text in flat ==> text in order)
  }

  lemma ApplyNothing(root: Value, flat: map<string, Value>)
    ensures ApplyInOrder(root, flat, []) == root
  {
  }

  /** The entries applied in the order of their paths. */
  ghost function Applied(root: Value, flat: map<string, Value>): Value {
    ApplyInOrder(root, flat, InTextOrder(flat.Keys))
  }

  lemma Regroup<X>(a: seq<X>, x: X, b: seq<X>)
    ensures a + ([x] + b) == (a + [x]) + b && a + [] == a
  {
  }

  /** Applies all entries of an answer object in order; answers that are not an object change nothing. */
  method Unflatten(initial: Value, answers: Value) returns (out: Value)
    ensures !answers.Obj? ==> out == initial
    ensures answers.Obj? ==> out == Applied(initial, answers.fields)
  {
    out := initial;
    if !answers.Obj? {
      return;
    }
    hide ApplyInOrder, SetNested, SplitDots, InTextOrder, Least;
    var flat := answers.fields;
    var remaining := flat.Keys;
    ghost var order := [];
    ApplyNothing(initial, flat);
    assert [] + InTextOrder(flat.Keys) == InTextOrder(flat.Keys);
    while remaining != {}
      invariant remaining <= flat.Keys
      invariant forall i :: 0 <= i < |order| ==> order[i] in flat
      invariant order + InTextOrder(remaining) == InTextOrder(flat.Keys)
      invariant out == ApplyInOrder(initial, flat, order)
      decreases remaining
    {
      var path := FindLeast(remaining);
      out := SetNested(out, SplitDots(path), flat[path]);
      ApplyOneMore(initial, flat, order, path);
      LeastFirst(remaining);
      Regroup(order, path, InTextOrder(remaining - {path}));
      order, remaining := order + [path], remaining - {path};
    }
    assert InTextOrder({}) == [] by {
      assert forall text :: text !in InTextOrder({});
    }
    Regroup(order, "", []);
  }

  // ----- keys for which paths are faithful -----

  predicate DotFreeKeys(t: Value) {
    t.Obj? ==> forall key :: key in t.fields ==> DotFree(key) && DotFreeKeys(t.fields[key])
  }

  /** No key holds a dot, and none at the top is empty. */
  predicate CleanKeys(t: Value) {
    DotFreeKeys(t) && (t.Obj? ==> "" !in t.fields)
  }

  lemma {:induction false} WalkedKeysDotFree(t: Value, keys: seq<string>)
    requires DotFreeKeys(t) && Walk(t, keys).Some?
    ensures AllDotFree(keys)
    decreases |keys|
  {
    if keys != [] {
      WalkedKeysDotFree(t.fields[keys[0]], keys[1..]);
    }
  }

  lemma {:induction false} PathTextIsJoin(path: string, keys: seq<string>)
    requires path != "" && keys != []
    ensures PathText(path, keys) == path + "." + JoinDots(keys)
    decreases |keys|
  {
    if |keys| == 1 {
      assert keys[1..] == [];
    } else {
      var next := ExtendPath(path, keys[0]);
      PathTextIsJoin(next, keys[1..]);
      assert path + "." + keys[0] + "." + JoinDots(keys[1..]) == path + "." + (keys[0] + "." + JoinDots(keys[1..]));
    }
  }

  /** With clean keys the path of a leaf splits back into the keys that lead to it. */
  lemma PathSplitsBack(t: Value, keys: seq<string>)
    requires CleanKeys(t) && IsLeaf(t, keys) && keys != []
    ensures PathText("", keys) != "" && SplitDots(PathText("", keys)) == keys
  {
    WalkedKeysDotFree(t, keys);
    assert keys[0] in t.fields;
    if |keys| == 1 {
      assert keys[1..] == [];
    } else {
      PathTextIsJoin(keys[0], keys[1..]);
    }
    assert PathText("", keys) == JoinDots(keys);
    SplitJoin(keys);
  }

  /** Every entry of a flattened clean tree names, by its split path, the leaf it came from. */
  lemma FlatEntryIsLeaf(t: Value, flat: map<string, Value>, text: string)
    requires CleanKeys(t) && IsFlat(flat, t, "") && text in flat
    ensures IsLeaf(t, SplitDots(text)) && Walk(t, SplitDots(text)) == Some(flat[text])
  {
    var keys :| IsLeaf(t, keys) && PathText("", keys) == text && Walk(t, keys) == Some(flat[text]);
    if keys != [] {
      PathSplitsBack(t, keys);
    }
  }

  // ----- over itself -----

  lemma {:induction false} SetPresentLeaf(t: Value, keys: seq<string>)
    requires keys != [] && Walk(t, keys).Some?
    ensures SetNested(t, keys, Walk(t, keys).value) == t
    decreases |keys|
  {
    if |keys| == 1 {
      WalkOne(t, keys[0]);
      assert keys == [keys[0]];
      assert t.fields[keys[0] := t.fields[keys[0]]] == t.fields;
    } else {
      SetPresentLeaf(t.fields[keys[0]], keys[1..]);
      assert t.fields[keys[0] := t.fields[keys[0]]] == t.fields;
    }
  }

  /** Every entry is already in the tree, at the position its path splits into. */
  ghost predicate EntriesInPlace(t: Value, flat: map<string, Value>) {
    forall text :: text in flat ==> Walk(t, SplitDots(text)) == Some(flat[text])
  }

  /** Applied to the tree, the entries change nothing, in whatever order. */
  ghost predicate GivesBack(t: Value, flat: map<string, Value>) {
    forall order :: OrderOf(order, flat) ==> ApplyInOrder(t, flat, order) == t
  }

  lemma {:induction false} EntriesInPlaceChangeNothing(t: Value, flat: map<string, Value>, order: seq<string>)
    requires EntriesInPlace(t, flat) && forall i :: 0 <= i < |order| ==> order[i] in flat
    ensures ApplyInOrder(t, flat, order) == t
  {
    if order != [] {
      var n := |order| - 1;
      EntriesInPlaceChangeNothing(t, flat, order[..n]);
      SetPresentLeaf(t, SplitDots(order[n]));
    }
  }

  lemma {:induction false} WalkAfterSet(root: Value, keys: seq<string>, v: Value)
    requires keys != []
    ensures Walk(SetNested(root, keys, v), keys) == Some(v)
    decreases |keys|
  {
    SetNestedGet(root, keys, v, keys[0]);
    if keys[1..] != [] {
      WalkAfterSet(ChildOrEmpty(root, keys[0]), keys[1..], v);
    }
  }

  lemma {:induction false} ListOfSet(s: set<string>) returns (order: seq<string>)
    ensures forall x :: x in order <==> x in s
  {
    if s == {} {
      order := [];
    } else {
      var x :| x in s;
      var rest := ListOfSet(s - {x});
      order := rest + [x];
    }
  }

  /** Over itself, a flat map gives a tree back exactly when every entry is in place. */
  lemma GivesBackExactlyWhenInPlace(t: Value, flat: map<string, Value>)
    ensures GivesBack(t, flat) <==> EntriesInPlace(t, flat)
  {
    if EntriesInPlace(t, flat) {
      forall order | OrderOf(order, flat)
        ensures ApplyInOrder(t, flat, order) == t
      {
        EntriesInPlaceChangeNothing(t, flat, order);
      }
    }
    if GivesBack(t, flat) {
      forall text | text in flat
        ensures Walk(t, SplitDots(text)) == Some(flat[text])
      {
        var order := ListOfSet(flat.Keys);
        assert OrderOf(order + [text], flat);
        ApplyOneMore(t, flat, order, text);
        WalkAfterSet(ApplyInOrder(t, flat, order), SplitDots(text), flat[text]);
      }
    }
  }

  /** At the position that a leaf's path splits into, the tree holds that leaf. */
  ghost predicate LeavesInPlace(t: Value) {
    forall keys :: IsLeaf(t, keys) && PathText("", keys) != "" ==>
      Walk(t, SplitDots(PathText("", keys))) == Walk(t, keys)
  }

  /** Another leaf with the same path may have been the one that was kept. */
  lemma OtherFlat(t: Value, flat: map<string, Value>, keys: seq<string>)
    requires IsFlat(flat, t, "") && IsLeaf(t, keys) && PathText("", keys) != ""
    ensures IsFlat(flat[PathText("", keys) := Walk(t, keys).value], t, "")
  {
  }

  /**
   The round trip over itself, whichever of several leaves with one path was kept
   and in whatever order: it holds exactly for the trees whose leaves are in place.
   */
  lemma AnyOrderRoundTripExactly(t: Value, flat: map<string, Value>)
    requires IsFlat(flat, t, "")
    ensures (forall f :: IsFlat(f, t, "") ==> GivesBack(t, f)) <==> LeavesInPlace(t)
  {
    hide IsFlat, GivesBack, IsLeaf, Walk, PathText, SplitDots;
    if LeavesInPlace(t) {
      forall f | IsFlat(f, t, "")
        ensures GivesBack(t, f)
      {
        InPlaceGivesBack(t, f);
      }
    }
    if forall f :: IsFlat(f, t, "") ==> GivesBack(t, f) {
      forall keys | IsLeaf(t, keys) && PathText("", keys) != ""
        ensures Walk(t, SplitDots(PathText("", keys))) == Walk(t, keys)
      {
        LeafIsThere(t, keys);
        var f := flat[PathText("", keys) := Walk(t, keys).value];
        OtherFlat(t, flat, keys);
        GivenBackLeaf(t, f, keys);
      }
    }
  }

  lemma LeafIsThere(t: Value, keys: seq<string>)
    requires IsLeaf(t, keys)
    ensures Walk(t, keys).Some?
  {
  }

  lemma InPlaceGivesBack(t: Value, flat: map<string, Value>)
    requires LeavesInPlace(t) && IsFlat(flat, t, "")
    ensures GivesBack(t, flat)
  {
    hide PathText, SplitDots, OrderOf, GivesBack;
    forall text | text in flat
      ensures Walk(t, SplitDots(text)) == Some(flat[text])
    {
      var keys :| IsLeaf(t, keys) && PathText("", keys) == text && Walk(t, keys) == Some(flat[text]);
    }
    GivesBackExactlyWhenInPlace(t, flat);
  }

  lemma GivenBackLeaf(t: Value, flat: map<string, Value>, keys: seq<string>)
    requires IsFlat(flat, t, "") && GivesBack(t, flat)
    requires PathText("", keys) in flat && Walk(t, keys) == Some(flat[PathText("", keys)])
    ensures Walk(t, SplitDots(PathText("", keys))) == Walk(t, keys)
  {
    hide IsFlat, GivesBack, PathText, SplitDots;
    GivesBackExactlyWhenInPlace(t, flat);
  }

  // ----- over an empty object -----

  /** Something other than nulls and empty objects is inside. */
  predicate HasLeaf(v: Value) {
    if v.Obj? then exists key :: key in v.fields && HasLeaf(v.fields[key]) else !v.Null?
  }

  /** The value without nulls and without objects that hold nothing else. */
  function Prune(v: Value): (r: Value)
    ensures r.Obj? <==> v.Obj?
  {
    if v.Obj? then Obj(map key | key in v.fields && HasLeaf(v.fields[key]) :: Prune(v.fields[key])) else v
  }

  /** What is seen at a position: nothing, a branch, or a value. */
  datatype Seen = Nothing | Branch | At(value: Value)

  function Look(t: Value, keys: seq<string>): Seen {
    var found := Walk(t, keys);
    if found.None? then Nothing else if found.value.Obj? then Branch else At(found.value)
  }

  /** Trees that look the same everywhere are the same. */
  lemma {:induction false} SameLook(a: Value, b: Value)
    requires forall keys :: Look(a, keys) == Look(b, keys)
    ensures a == b
  {
    assert Look(a, []) == Look(b, []);
    if a.Obj? {
      forall key
        ensures key in a.fields <==> key in b.fields
      {
        assert Look(a, [key]) == Look(b, [key]);
        WalkOne(a, key);
        WalkOne(b, key);
      }
      forall key | key in a.fields
        ensures a.fields[key] == b.fields[key]
      {
        forall keys
          ensures Look(a.fields[key], keys) == Look(b.fields[key], keys)
        {
          assert Look(a, [key] + keys) == Look(b, [key] + keys);
          assert ([key] + keys)[1..] == keys;
        }
        SameLook(a.fields[key], b.fields[key]);
      }
      assert a.fields == b.fields;
    }
  }

  /** A proper prefix. */
  predicate Before(a: seq<string>, b: seq<string>) {
    a < b
  }

  /** Setting a leaf changes the look of its own path, of what leads to it and of what was below, and of nothing else. */
  lemma {:induction false} LookAfterSet(root: Value, keys: seq<string>, v: Value, at: seq<string>)
    requires keys != [] && !v.Obj?
    ensures Look(SetNested(root, keys, v), at) ==
            if at == keys then At(v)
            else if Before(at, keys) then Branch
            else if Before(keys, at) then Nothing
            else Look(root, at)
    decreases |keys|
  {
    hide Before, SetNested;
    Prefixes(at, keys);
    Prefixes(keys, at);
    if at != [] {
      SetNestedGet(root, keys, v, at[0]);
      if at[0] == keys[0] {
        if keys[1..] == [] {
          assert Walk(SetNested(root, keys, v), at) == Walk(v, at[1..]);
        } else {
          LookAfterSet(ChildOrEmpty(root, keys[0]), keys[1..], v, at[1..]);
        }
      }
    }
  }

  function ChildOrEmpty(v: Value, key: string): Value {
    if v.Get(key).Some? then v.Get(key).value else EMPTY_OBJECT
  }

  lemma SetNestedGet(root: Value, keys: seq<string>, v: Value, key: string)
    requires keys != []
    ensures SetNested(root, keys, v).Get(key) ==
            if key != keys[0] then root.Get(key)
            else if keys[1..] == [] then Some(v)
            else Some(SetNested(ChildOrEmpty(root, key), keys[1..], v))
  {
  }

  lemma Prefixes(a: seq<string>, b: seq<string>)
    ensures a == [] && b != [] ==> Before(a, b)
    ensures b == [] ==> !Before(a, b)
    ensures a != [] && b != [] && a[0] != b[0] ==> a != b && !Before(a, b)
    ensures a != [] && b != [] && a[0] == b[0] ==>
              && (a == b <==> a[1..] == b[1..])
              && (Before(a, b) <==> Before(a[1..], b[1..]))
              && (a[1..] == [] && b[1..] != [] ==> Before(a, b))
              && (b[1..] == [] ==> !Before(a, b))
  {
    if a != [] && b != [] && a[0] == b[0] {
      assert a == [a[0]] + a[1..] && b == [b[0]] + b[1..];
    }
  }

  // the paths of an order, split

  ghost predicate Ends(order: seq<string>, at: seq<string>) {
    exists i :: 0 <= i < |order| && SplitDots(order[i]) == at
  }

  ghost predicate Passes(order: seq<string>, at: seq<string>) {
    exists i :: 0 <= i < |order| && Before(at, SplitDots(order[i]))
  }

  /** What an order of leaf paths builds from nothing. */
  ghost function Built(t: Value, order: seq<string>, at: seq<string>): Seen {
    if at == [] then Branch
    else if Ends(order, at) then Look(t, at)
    else if Passes(order, at) then Branch
    else Nothing
  }

  lemma EndsStep(order: seq<string>, text: string, at: seq<string>)
    ensures Ends(order + [text], at) <==> Ends(order, at) || SplitDots(text) == at
    ensures Passes(order + [text], at) <==> Passes(order, at) || Before(at, SplitDots(text))
  {
    var longer := order + [text];
    assert longer[|order|] == text;
    if i :| 0 <= i < |order| && SplitDots(order[i]) == at {
      assert SplitDots(longer[i]) == at;
    }
    if i :| 0 <= i < |order| && Before(at, SplitDots(order[i])) {
      assert Before(at, SplitDots(longer[i]));
    }
  }

  /** A leaf ends its path: no leaf lies below another. */
  lemma LeavesApart(t: Value, a: seq<string>, b: seq<string>)
    requires IsLeaf(t, a) && Walk(t, b).Some?
    ensures !Before(a, b)
  {
    if Before(a, b) {
      assert b == a + b[|a|..];
      WalkConcat(t, a, b[|a|..]);
    }
  }

  ghost predicate LeafPaths(t: Value, order: seq<string>) {
    forall i :: 0 <= i < |order| ==> IsLeaf(t, SplitDots(order[i]))
  }

  lemma BuiltStep(t: Value, order: seq<string>, text: string, at: seq<string>, root: Value)
    requires LeafPaths(t, order) && IsLeaf(t, SplitDots(text))
    requires Look(root, at) == Built(t, order, at)
    ensures Look(SetNested(root, SplitDots(text), Walk(t, SplitDots(text)).value), at) == Built(t, order + [text], at)
  {
    var keys := SplitDots(text);
    LookAfterSet(root, keys, Walk(t, keys).value, at);
    EndsStep(order, text, at);
    if Before(at, keys) && Ends(order, at) {
      LeavesApart(t, at, keys);
    }
    if Before(keys, at) {
      if i :| 0 <= i < |order| && SplitDots(order[i]) == at {
        LeavesApart(t, keys, at);
      }
      if i :| 0 <= i < |order| && Before(at, SplitDots(order[i])) {
        LeavesApart(t, keys, SplitDots(order[i]));
      }
    }
  }

  lemma {:induction false} ApplyBuilds(t: Value, flat: map<string, Value>, order: seq<string>, at: seq<string>)
    requires forall i :: 0 <= i < |order| ==> order[i] in flat
    requires forall text :: text in flat ==> IsLeaf(t, SplitDots(text)) && Walk(t, SplitDots(text)) == Some(flat[text])
    ensures Look(ApplyInOrder(EMPTY_OBJECT, flat, order), at) == Built(t, order, at)
  {
    if order != [] {
      var n := |order| - 1;
      ApplyBuilds(t, flat, order[..n], at);
      BuiltStep(t, order[..n], order[n], at, ApplyInOrder(EMPTY_OBJECT, flat, order[..n]));
      assert order == order[..n] + [order[n]];
    }
  }

  lemma {:induction false} HasLeafHasPath(v: Value)
    ensures HasLeaf(v) <==> exists keys :: IsLeaf(v, keys)
  {
    if v.Obj? {
      if HasLeaf(v) {
        var key :| key in v.fields && HasLeaf(v.fields[key]);
        HasLeafHasPath(v.fields[key]);
        var keys :| IsLeaf(v.fields[key], keys);
        LeafOfChild(v, key, keys);
      }
      if keys :| IsLeaf(v, keys) {
        assert keys != [] && keys == [keys[0]] + keys[1..];
        LeafOfChild(v, keys[0], keys[1..]);
        HasLeafHasPath(v.fields[keys[0]]);
      }
    } else {
      assert HasLeaf(v) ==> IsLeaf(v, []);
      LeafIsOwnPath(v);
    }
  }

  ghost predicate LeafBelow(t: Value, at: seq<string>) {
    exists keys :: IsLeaf(t, keys) && Before(at, keys)
  }

  /** What is left of a tree after pruning: its leaves and what leads to them. */
  lemma {:induction false} LookPruned(t: Value, at: seq<string>)
    requires t.Obj? && at != []
    ensures Look(Prune(t), at) == if IsLeaf(t, at) then Look(t, at) else if LeafBelow(t, at) then Branch else Nothing
    decreases |at|
  {
    var key, rest := at[0], at[1..];
    assert at == [key] + rest;
    if key in t.fields {
      var child := t.fields[key];
      LeafOfChild(t, key, rest);
      HasLeafHasPath(child);
      LeafBelowChild(t, key, rest);
      if HasLeaf(child) {
        assert Prune(t).fields[key] == Prune(child);
        assert Walk(Prune(t), at) == Walk(Prune(child), rest);
        if child.Obj? && rest != [] {
          LookPruned(child, rest);
        } else if child.Obj? {
          BranchHasLeafBelow(child);
        } else {
          LeafIsOwnPath(child);
        }
      } else {
        assert key !in Prune(t).fields;
      }
    } else {
      assert Walk(Prune(t), at) == None;
      if keys :| IsLeaf(t, keys) && Before(at, keys) {
        assert keys[0] == key;
      }
    }
  }

  lemma BranchHasLeafBelow(v: Value)
    requires v.Obj? && HasLeaf(v)
    ensures LeafBelow(v, [])
  {
    HasLeafHasPath(v);
    var keys :| IsLeaf(v, keys);
    assert Before([], keys);
  }

  lemma LeafBelowChild(t: Value, key: string, rest: seq<string>)
    requires t.Obj? && key in t.fields
    ensures LeafBelow(t, [key] + rest) <==> LeafBelow(t.fields[key], rest)
  {
    var at := [key] + rest;
    if keys :| IsLeaf(t, keys) && Before(at, keys) {
      assert keys == [keys[0]] + keys[1..] && keys[0] == at[0];
      LeafOfChild(t, key, keys[1..]);
      assert Before(rest, keys[1..]);
    }
    if keys :| IsLeaf(t.fields[key], keys) && Before(rest, keys) {
      LeafOfChild(t, key, keys);
      assert Before(at, [key] + keys);
    }
  }

  lemma FlatCovers(t: Value, flat: map<string, Value>, order: seq<string>, keys: seq<string>)
    requires t.Obj? && CleanKeys(t) && IsFlat(flat, t, "") && OrderOf(order, flat) && IsLeaf(t, keys)
    ensures Ends(order, keys)
  {
    assert keys != [];
    PathSplitsBack(t, keys);
    var text := PathText("", keys);
    assert text in order;
  }

  /** Unflattening the flattened tree over nothing gives the tree without nulls and empty objects, in whatever order. */
  lemma RoundTripOverNothing(t: Value, flat: map<string, Value>, order: seq<string>)
    requires t.Obj? && CleanKeys(t) && IsFlat(flat, t, "") && OrderOf(order, flat)
    ensures ApplyInOrder(EMPTY_OBJECT, flat, order) == Prune(t)
  {
    forall text | text in flat
      ensures IsLeaf(t, SplitDots(text)) && Walk(t, SplitDots(text)) == Some(flat[text])
    {
      FlatEntryIsLeaf(t, flat, text);
    }
    forall at
      ensures Look(ApplyInOrder(EMPTY_OBJECT, flat, order), at) == Look(Prune(t), at)
    {
      ApplyBuilds(t, flat, order, at);
      if at != [] {
        LookPruned(t, at);
        if IsLeaf(t, at) {
          FlatCovers(t, flat, order, at);
        }
        if keys :| IsLeaf(t, keys) && Before(at, keys) {
          FlatCovers(t, flat, order, keys);
        }
      }
    }
    SameLook(ApplyInOrder(EMPTY_OBJECT, flat, order), Prune(t));
  }

  // ----- exactly when nothing is lost -----

  lemma PrunedLeaves(t: Value, keys: seq<string>)
    requires t.Obj?
    ensures IsLeaf(Prune(t), keys) <==> IsLeaf(t, keys)
    ensures IsLeaf(t, keys) ==> Walk(Prune(t), keys) == Walk(t, keys)
  {
    if keys != [] {
      LookPruned(t, keys);
    }
  }

  lemma PruneTwice(t: Value)
    requires t.Obj?
    ensures Prune(Prune(t)) == Prune(t)
  {
    var p := Prune(t);
    forall at
      ensures Look(Prune(p), at) == Look(p, at)
    {
      if at != [] {
        LookPruned(p, at);
        LookPruned(t, at);
        PrunedLeaves(t, at);
        forall keys {
          PrunedLeaves(t, keys);
        }
      }
    }
    SameLook(Prune(p), p);
  }

  /** A tree and its pruned form flatten alike. */
  lemma PrunedFlattensAlike(t: Value, flat: map<string, Value>)
    requires t.Obj? && IsFlat(flat, t, "")
    ensures IsFlat(flat, Prune(t), "")
  {
    forall keys {
      PrunedLeaves(t, keys);
    }
    forall text | text in flat
      ensures FromLeaf(Prune(t), "", text, flat[text])
    {
      var keys :| IsLeaf(t, keys) && PathText("", keys) == text && Walk(t, keys) == Some(flat[text]);
      PrunedLeaves(t, keys);
    }
  }

  lemma {:induction false} SetNestedDotFree(root: Value, keys: seq<string>, v: Value)
    requires keys != [] && AllDotFree(keys) && DotFreeKeys(root) && !v.Obj?
    ensures DotFreeKeys(SetNested(root, keys, v))
    decreases |keys|
  {
    if |keys| > 1 {
      SetNestedDotFree(ChildOrEmpty(root, keys[0]), keys[1..], v);
    }
  }

  /** Whatever is rebuilt from paths has no dots in its keys, and at the top only first parts of paths. */
  lemma {:induction false} RebuiltKeys(flat: map<string, Value>, order: seq<string>)
    requires forall i :: 0 <= i < |order| ==> order[i] in flat && !flat[order[i]].Obj?
    ensures var r := ApplyInOrder(EMPTY_OBJECT, flat, order);
            && r.Obj? && DotFreeKeys(r)
            && forall key :: key in r.fields ==> exists i :: 0 <= i < |order| && SplitDots(order[i])[0] == key
  {
    if order != [] {
      var n := |order| - 1;
      RebuiltKeys(flat, order[..n]);
      var before := ApplyInOrder(EMPTY_OBJECT, flat, order[..n]);
      var keys := SplitDots(order[n]);
      SetNestedDotFree(before, keys, flat[order[n]]);
      var r := SetNested(before, keys, flat[order[n]]);
      forall key | key in r.fields
        ensures exists i :: 0 <= i < |order| && SplitDots(order[i])[0] == key
      {
        SetNestedGet(before, keys, flat[order[n]], key);
        if key != keys[0] {
          var i :| 0 <= i < n && SplitDots(order[..n][i])[0] == key;
          assert SplitDots(order[i])[0] == key;
        }
      }
    }
  }

  /** Without dots in the keys, the path of a leaf starts with a part that is not empty. */
  lemma {:induction false} FirstPartNotEmpty(t: Value, keys: seq<string>)
    requires DotFreeKeys(t) && IsLeaf(t, keys) && PathText("", keys) != ""
    ensures SplitDots(PathText("", keys))[0] != ""
    decreases |keys|
  {
    if keys[0] == "" {
      FirstPartNotEmpty(t.fields[""], keys[1..]);
    } else {
      WalkedKeysDotFree(t, keys);
      if |keys| == 1 {
        assert keys[1..] == [];
      } else {
        PathTextIsJoin(keys[0], keys[1..]);
      }
      assert PathText("", keys) == JoinDots(keys);
      SplitJoin(keys);
    }
  }

  /**
   The round trip over nothing gives the pruned tree back exactly when the pruned
   tree has clean keys: a key that holds a dot, or an empty one at the top, is
   harmless only if nothing but nulls and empty objects lies below it.
   */
  lemma RoundTripOverNothingExactly(t: Value, flat: map<string, Value>, order: seq<string>)
    requires t.Obj? && IsFlat(flat, t, "") && OrderOf(order, flat)
    ensures ApplyInOrder(EMPTY_OBJECT, flat, order) == Prune(t) <==> CleanKeys(Prune(t))
  {
    var p, r := Prune(t), ApplyInOrder(EMPTY_OBJECT, flat, order);
    PrunedFlattensAlike(t, flat);
    if CleanKeys(p) {
      PruneTwice(t);
      RoundTripOverNothing(p, flat, order);
    }
    if r == p {
      RebuiltKeys(flat, order);
      if "" in p.fields {
        var i :| 0 <= i < |order| && SplitDots(order[i])[0] == "";
        assert FromLeaf(p, "", order[i], flat[order[i]]);
        var keys :| IsLeaf(p, keys) && PathText("", keys) == order[i];
        FirstPartNotEmpty(p, keys);
      }
    }
  }

  /** A tree that is no object has no flat entries: nothing is rebuilt from it. */
  lemma ScalarFlattensToNothing(t: Value, flat: map<string, Value>)
    requires !t.Obj? && IsFlat(flat, t, "")
    ensures flat == map[]
  {
    LeafIsOwnPath(t);
    forall text
      ensures text !in flat
    {
      assert !(text != "" && exists v :: FromLeaf(t, "", text, v));
    }
  }

  /** A key that holds a dot is not given back: its leaf is written beside it as well. */
  lemma DottedKeySplits()
    ensures var t := Obj(map["a.b" := Str("x")]);
            var flat := map["a.b" := Str("x")];
            IsFlat(flat, t, "") && ApplyInOrder(t, flat, ["a.b"]) != t
  {
    var t := Obj(map["a.b" := Str("x")]);
    var flat := map["a.b" := Str("x")];
    assert IsLeaf(t, ["a.b"]) by {
      WalkOne(t, "a.b");
    }
    assert PathText("", ["a.b"]) == "a.b" by {
      assert ["a.b"][1..] == [];
    }
    WalkOne(t, "a.b");
    assert FromLeaf(t, "", "a.b", Str("x"));
    forall keys | IsLeaf(t, keys)
      ensures PathText("", keys) == "a.b"
    {
      assert keys[0] == "a.b";
      assert keys == [keys[0]] + keys[1..];
      LeafOfChild(t, "a.b", keys[1..]);
      LeafIsOwnPath(t.fields["a.b"]);
    }
    SplitDotFree("a");
    SplitDotFree("b");
    SplitAtDot("a", "b");
    assert "a" + "." + "b" == "a.b";
    var r := ApplyInOrder(t, flat, ["a.b"]);
    assert ["a.b"][..0] == [];
    assert r == SetNested(t, ["a", "b"], Str("x"));
    assert "a" in r.fields;
  }
}
