/**
 Flattening and unflattening in the order in which JSON objects are visited: which
 leaf is kept under a path, what the entries make of a tree, and exactly which
 trees are given back by a round trip over themselves.
 */
module AnswerOrder {
  import opened Json
  import opened TextOrder
  import opened Answers

  // ----- what entries applied in order leave behind -----

  /** A path that splits into the start of another comes before it. */
  lemma PrefixComesFirst(a: string, b: string)
    requires Before(SplitDots(a), SplitDots(b))
    ensures Less(a, b)
  {
    hide SplitDots, JoinDots, Less;
    var x, y := SplitDots(a), SplitDots(b);
    var rest := y[|x|..];
    assert y == x + rest && |rest| >= 1;
    JoinSplit(a);
    JoinSplit(b);
    JoinConcat(x, rest);
    LessExtended(a, "." + JoinDots(rest));
    assert a + ("." + JoinDots(rest)) == b;
  }

  lemma NotBackwards(a: string, b: string)
    requires Less(a, b)
    ensures !Before(SplitDots(b), SplitDots(a)) && SplitDots(a) != SplitDots(b)
  {
    hide SplitDots, Less;
    LessTotal(a, b);
    if Before(SplitDots(b), SplitDots(a)) {
      PrefixComesFirst(b, a);
    }
    JoinSplit(a);
    JoinSplit(b);
  }

  /** Some path of the order ends on the way to a position. */
  ghost predicate EndsAbove(order: seq<string>, at: seq<string>) {
    exists i :: 0 <= i < |order| && Before(SplitDots(order[i]), at)
  }

  lemma EndsAboveStep(order: seq<string>, text: string, at: seq<string>)
    ensures EndsAbove(order + [text], at) <==> EndsAbove(order, at) || Before(SplitDots(text), at)
  {
    var longer := order + [text];
    assert longer[|order|] == text;
    if i :| 0 <= i < |order| && Before(SplitDots(order[i]), at) {
      assert Before(SplitDots(longer[i]), at);
    }
  }

  /** What is seen at a position once the paths of an ascending order have been applied to a tree. */
  ghost function Settled(t: Value, flat: map<string, Value>, order: seq<string>, at: seq<string>): Seen {
    if Passes(order, at) then Branch
    else if at != [] && Ends(order, at) then if JoinDots(at) in flat then At(flat[JoinDots(at)]) else Nothing
    else if EndsAbove(order, at) then Nothing
    else Look(t, at)
  }

  /** The last path of an ascending order neither leads to an earlier one nor is one. */
  lemma LastPath(order: seq<string>, text: string, at: seq<string>)
    requires TextsAscend(order + [text])
    ensures SplitDots(text) == at || Before(SplitDots(text), at) ==> !Passes(order, at) && !Ends(order, at)
  {
    hide SplitDots, Less;
    var longer, keys := order + [text], SplitDots(text);
    if keys == at || Before(keys, at) {
      forall i | 0 <= i < |order|
        ensures !Before(at, SplitDots(order[i])) && SplitDots(order[i]) != at
      {
        assert longer[i] == order[i] && longer[|order|] == text;
        NotBackwards(order[i], text);
      }
    }
  }

  lemma SettledStep(t: Value, flat: map<string, Value>, order: seq<string>, text: string, at: seq<string>, root: Value)
    requires TextsAscend(order + [text]) && text in flat && !flat[text].Obj?
    requires Look(root, at) == Settled(t, flat, order, at)
    ensures Look(SetNested(root, SplitDots(text), flat[text]), at) == Settled(t, flat, order + [text], at)
  {
    hide SplitDots, JoinDots, Look, SetNested, Passes, Ends, EndsAbove, TextsAscend;
    var keys := SplitDots(text);
    LookAfterSet(root, keys, flat[text], at);
    EndsStep(order, text, at);
    EndsAboveStep(order, text, at);
    LastPath(order, text, at);
    JoinSplit(text);
  }

  lemma AscendFront(order: seq<string>)
    requires TextsAscend(order) && order != []
    ensures TextsAscend(order[..|order| - 1]) && order == order[..|order| - 1] + [order[|order| - 1]]
  {
    hide Less;
  }

  /** Later paths never undo an earlier one but where they lead through it. */
  lemma {:induction false} ApplySettles(t: Value, flat: map<string, Value>, order: seq<string>, at: seq<string>)
    requires TextsAscend(order) && forall i :: 0 <= i < |order| ==> order[i] in flat && !flat[order[i]].Obj?
    ensures Look(ApplyInOrder(t, flat, order), at) == Settled(t, flat, order, at)
  {
    hide TextsAscend, Look, SetNested, SplitDots;
    if order != [] {
      var n := |order| - 1;
      AscendFront(order);
      ApplySettles(t, flat, order[..n], at);
      SettledStep(t, flat, order[..n], order[n], at, ApplyInOrder(t, flat, order[..n]));
    }
  }

  // ----- the entries of a tree -----

  /** The keys lead to a leaf whose path text, split again, is this position. */
  ghost predicate LandsAt(t: Value, keys: seq<string>, at: seq<string>) {
    IsLeaf(t, keys) && PathText("", keys) != "" && SplitDots(PathText("", keys)) == at
  }

  ghost predicate EntryAt(t: Value, at: seq<string>) {
    exists keys :: LandsAt(t, keys, at)
  }

  ghost predicate EntryBelow(t: Value, at: seq<string>) {
    exists keys :: IsLeaf(t, keys) && PathText("", keys) != "" && Before(at, SplitDots(PathText("", keys)))
  }

  ghost predicate EntryAbove(t: Value, at: seq<string>) {
    exists keys :: IsLeaf(t, keys) && PathText("", keys) != "" && Before(SplitDots(PathText("", keys)), at)
  }

  /** Of the leaves with one path text, this one is visited last. */
  ghost predicate LastOfItsText(t: Value, keys: seq<string>) {
    PathText("", keys) != "" && LastLeafAt(t, "", keys, PathText("", keys))
  }

  /**
   The trees that a round trip gives back: the last leaf of every path text is at
   the position the text splits into, unless another text leads through that
   position; and where one does, nothing lies below but what texts lead to.
   */
  ghost predicate KeptInPlace(t: Value) {
    && (forall keys :: LastOfItsText(t, keys) && !EntryBelow(t, SplitDots(PathText("", keys))) ==>
          Walk(t, SplitDots(PathText("", keys))) == Walk(t, keys))
    && (forall at :: EntryAbove(t, at) && !EntryAt(t, at) && !EntryBelow(t, at) ==> Walk(t, at).None?)
  }

  lemma FlatEntry(t: Value, text: string)
    ensures text in Flattened(t) <==> text != "" && exists keys :: LeafAt(t, "", keys, text)
    ensures text in Flattened(t) ==>
              && IsLeafValue(Flattened(t)[text])
              && exists keys :: LastLeafAt(t, "", keys, text) && Walk(t, keys) == Some(Flattened(t)[text])
  {
    hide Flattened, PathText, KeysLess;
    FlattenedAt(t, text);
  }

  lemma LastLeafIsFlat(t: Value, keys: seq<string>)
    requires LastOfItsText(t, keys)
    ensures PathText("", keys) in Flattened(t) && Walk(t, keys) == Some(Flattened(t)[PathText("", keys)])
  {
    hide Flattened, PathText, KeysLess;
    var text := PathText("", keys);
    FlatEntry(t, text);
    var last :| LastLeafAt(t, "", last, text) && Walk(t, last) == Some(Flattened(t)[text]);
    if last != keys {
      assert KeysLess(last, keys);
      KeysLessOneWay(last, keys);
    }
  }

  /** The order in which the entries of a flattened tree are applied. */
  ghost function EntryOrder(t: Value): (order: seq<string>)
    ensures forall text :: text in order <==> text in Flattened(t)
  {
    InTextOrder(Flattened(t).Keys)
  }

  lemma LeafOfText(t: Value, i: nat) returns (keys: seq<string>)
    requires i < |EntryOrder(t)|
    ensures IsLeaf(t, keys) && PathText("", keys) != "" && PathText("", keys) == EntryOrder(t)[i]
  {
    var text := EntryOrder(t)[i];
    assert text in EntryOrder(t);
    FlatEntry(t, text);
    keys :| LeafAt(t, "", keys, text);
  }

  lemma TextOfLeaf(t: Value, keys: seq<string>) returns (i: nat)
    requires IsLeaf(t, keys) && PathText("", keys) != ""
    ensures i < |EntryOrder(t)| && EntryOrder(t)[i] == PathText("", keys)
  {
    var text := PathText("", keys);
    FlatEntry(t, text);
    assert LeafAt(t, "", keys, text);
    assert text in EntryOrder(t);
    i :| 0 <= i < |EntryOrder(t)| && EntryOrder(t)[i] == text;
  }

  lemma OrderEnds(t: Value, at: seq<string>)
    ensures Ends(EntryOrder(t), at) <==> EntryAt(t, at)
  {
    hide SplitDots, PathText, IsLeaf, EntryOrder;
    if i :| 0 <= i < |EntryOrder(t)| && SplitDots(EntryOrder(t)[i]) == at {
      var keys := LeafOfText(t, i);
      assert LandsAt(t, keys, at);
    }
    if keys :| LandsAt(t, keys, at) {
      var i := TextOfLeaf(t, keys);
      assert SplitDots(EntryOrder(t)[i]) == at;
    }
  }

  lemma OrderPasses(t: Value, at: seq<string>)
    ensures Passes(EntryOrder(t), at) <==> EntryBelow(t, at)
  {
    hide SplitDots, PathText, IsLeaf, EntryOrder, Before;
    if i :| 0 <= i < |EntryOrder(t)| && Before(at, SplitDots(EntryOrder(t)[i])) {
      var keys := LeafOfText(t, i);
      assert Before(at, SplitDots(PathText("", keys)));
    }
    if keys :| IsLeaf(t, keys) && PathText("", keys) != "" && Before(at, SplitDots(PathText("", keys))) {
      var i := TextOfLeaf(t, keys);
      assert Before(at, SplitDots(EntryOrder(t)[i]));
    }
  }

  lemma OrderEndsAbove(t: Value, at: seq<string>)
    ensures EndsAbove(EntryOrder(t), at) <==> EntryAbove(t, at)
  {
    hide SplitDots, PathText, IsLeaf, EntryOrder, Before;
    if i :| 0 <= i < |EntryOrder(t)| && Before(SplitDots(EntryOrder(t)[i]), at) {
      var keys := LeafOfText(t, i);
      assert Before(SplitDots(PathText("", keys)), at);
    }
    if keys :| IsLeaf(t, keys) && PathText("", keys) != "" && Before(SplitDots(PathText("", keys)), at) {
      var i := TextOfLeaf(t, keys);
      assert Before(SplitDots(EntryOrder(t)[i]), at);
    }
  }

  lemma OrderHasEntries(t: Value, at: seq<string>)
    ensures Ends(EntryOrder(t), at) <==> EntryAt(t, at)
    ensures Passes(EntryOrder(t), at) <==> EntryBelow(t, at)
    ensures EndsAbove(EntryOrder(t), at) <==> EntryAbove(t, at)
  {
    OrderEnds(t, at);
    OrderPasses(t, at);
    OrderEndsAbove(t, at);
  }

  // ----- the round trip -----

  /** What a tree becomes when its own flattened form is unflattened over it. */
  ghost function RoundTrip(t: Value): Value {
    Applied(t, Flattened(t))
  }

  lemma RoundTripLooks(t: Value, at: seq<string>)
    ensures Look(RoundTrip(t), at) == Settled(t, Flattened(t), EntryOrder(t), at)
  {
    hide Flattened, Look, Settled, TextsAscend, ApplyInOrder;
    var order := EntryOrder(t);
    InTextOrderAscends(Flattened(t).Keys);
    forall i | 0 <= i < |order|
      ensures order[i] in Flattened(t) && !Flattened(t)[order[i]].Obj?
    {
      assert order[i] in order;
      FlatEntry(t, order[i]);
    }
    ApplySettles(t, Flattened(t), order, at);
  }

  /** Among the texts that lead through a position, one has no text below it. */
  lemma {:induction false} DeepestText(order: seq<string>, at: seq<string>) returns (text: string)
    requires Passes(order, at)
    ensures text in order && Before(at, SplitDots(text))
    ensures forall other :: other in order && Before(at, SplitDots(other)) ==> |SplitDots(other)| <= |SplitDots(text)|
  {
    hide SplitDots, Before;
    var front, last := order[..|order| - 1], order[|order| - 1];
    assert order == front + [last];
    EndsStep(front, last, at);
    text := last;
    if Passes(front, at) {
      text := DeepestText(front, at);
      if Before(at, SplitDots(last)) && |SplitDots(last)| > |SplitDots(text)| {
        text := last;
      }
    }
    assert forall other :: other in order <==> other in front || other == last;
    if !Passes(front, at) {
      forall other | other in front
        ensures !Before(at, SplitDots(other))
      {
        var i :| 0 <= i < |front| && front[i] == other;
      }
    }
  }

  lemma NothingBelowDeepest(order: seq<string>, at: seq<string>, text: string)
    requires Before(at, SplitDots(text))
    requires forall other :: other in order && Before(at, SplitDots(other)) ==> |SplitDots(other)| <= |SplitDots(text)|
    ensures !Passes(order, SplitDots(text))
  {
    hide SplitDots;
    forall i | 0 <= i < |order|
      ensures !Before(SplitDots(text), SplitDots(order[i]))
    {
      assert order[i] in order;
    }
  }

  lemma WayIsBranch(t: Value, at: seq<string>, keys: seq<string>)
    requires Walk(t, keys).Some? && Before(at, keys)
    ensures Look(t, at) == Branch
  {
    assert keys == at + keys[|at|..];
    WalkConcat(t, at, keys[|at|..]);
  }

  lemma KeptLeaf(t: Value, text: string)
    requires KeptInPlace(t) && text in Flattened(t) && !EntryBelow(t, SplitDots(text))
    ensures Walk(t, SplitDots(text)) == Some(Flattened(t)[text]) && IsLeafValue(Flattened(t)[text])
  {
    hide SplitDots, Flattened, PathText, KeysLess, EntryBelow, EntryAbove, EntryAt;
    FlatEntry(t, text);
    var keys :| LastLeafAt(t, "", keys, text) && Walk(t, keys) == Some(Flattened(t)[text]);
    assert PathText("", keys) == text;
    assert LastOfItsText(t, keys);
  }

  lemma WayToEntryIsBranch(t: Value, at: seq<string>)
    requires KeptInPlace(t) && EntryBelow(t, at)
    ensures Look(t, at) == Branch
  {
    hide SplitDots, Flattened, KeptInPlace, Look;
    OrderHasEntries(t, at);
    var text := DeepestText(EntryOrder(t), at);
    var keys := SplitDots(text);
    OrderHasEntries(t, keys);
    NothingBelowDeepest(EntryOrder(t), at, text);
    KeptLeaf(t, text);
    WayIsBranch(t, at, keys);
  }

  lemma EndIsText(order: seq<string>, at: seq<string>)
    requires Ends(order, at)
    ensures at != [] && JoinDots(at) in order && SplitDots(JoinDots(at)) == at
  {
    var i :| 0 <= i < |order| && SplitDots(order[i]) == at;
    JoinSplit(order[i]);
  }

  lemma KeptLooksTheSame(t: Value, at: seq<string>)
    requires KeptInPlace(t)
    ensures Look(RoundTrip(t), at) == Look(t, at)
  {
    hide SplitDots, JoinDots, Flattened, EntryBelow, EntryAbove, EntryAt, Passes, Ends, EndsAbove, RoundTrip, EntryOrder;
    RoundTripLooks(t, at);
    OrderHasEntries(t, at);
    if EntryBelow(t, at) {
      WayToEntryIsBranch(t, at);
    } else if EntryAt(t, at) {
      EndIsText(EntryOrder(t), at);
      KeptLeaf(t, JoinDots(at));
    }
  }

  lemma GivenBackIsKept(t: Value)
    requires RoundTrip(t) == t
    ensures KeptInPlace(t)
  {
    hide SplitDots, JoinDots, Flattened, EntryBelow, EntryAbove, EntryAt, Passes, Ends, EndsAbove, RoundTrip, EntryOrder, PathText;
    forall keys | LastOfItsText(t, keys) && !EntryBelow(t, SplitDots(PathText("", keys)))
      ensures Walk(t, SplitDots(PathText("", keys))) == Walk(t, keys)
    {
      var text := PathText("", keys);
      LastLeafIsFlat(t, keys);
      assert LandsAt(t, keys, SplitDots(text));
      assert EntryAt(t, SplitDots(text)) by { LandedIsEntry(t, keys, SplitDots(text)); }
      RoundTripLooks(t, SplitDots(text));
      OrderHasEntries(t, SplitDots(text));
      JoinSplit(text);
    }
    forall at | EntryAbove(t, at) && !EntryAt(t, at) && !EntryBelow(t, at)
      ensures Walk(t, at).None?
    {
      RoundTripLooks(t, at);
      OrderHasEntries(t, at);
    }
  }

  lemma LandedIsEntry(t: Value, keys: seq<string>, at: seq<string>)
    requires LandsAt(t, keys, at)
    ensures EntryAt(t, at)
  {
  }

  /** Unflattening its flattened form over a tree gives the tree back exactly when its leaves are kept in place. */
  lemma RoundTripOverItselfExactly(t: Value)
    ensures RoundTrip(t) == t <==> KeptInPlace(t)
  {
    hide KeptInPlace, RoundTrip, Look;
    if RoundTrip(t) == t {
      GivenBackIsKept(t);
    }
    if KeptInPlace(t) {
      forall at
        ensures Look(RoundTrip(t), at) == Look(t, at)
      {
        KeptLooksTheSame(t, at);
      }
      SameLook(RoundTrip(t), t);
    }
  }

  /** In particular, every tree is given back that has no key with a dot and no empty key at the top. */
  lemma CleanTreesAreGivenBack(t: Value)
    requires CleanKeys(t)
    ensures RoundTrip(t) == t
  {
    hide CleanKeys, Flattened, SplitDots;
    FlattenedIsFlat(t);
    forall text | text in Flattened(t)
      ensures Walk(t, SplitDots(text)) == Some(Flattened(t)[text])
    {
      FlatEntryIsLeaf(t, Flattened(t), text);
    }
    EntriesInPlaceChangeNothing(t, Flattened(t), EntryOrder(t));
  }

  lemma FlattenedIsFlat(t: Value)
    ensures IsFlat(Flattened(t), t, "")
  {
    FlatIntoAddsLeaves(t, "", map[]);
  }

  /**
   Over an empty object, its flattened form gives a tree without its nulls and empty
   objects, exactly when the keys that are left are clean.
   */
  lemma RoundTripOverNothingInOrder(t: Value)
    requires t.Obj?
    ensures Applied(EMPTY_OBJECT, Flattened(t)) == Prune(t) <==> CleanKeys(Prune(t))
  {
    FlattenedIsFlat(t);
    RoundTripOverNothingExactly(t, Flattened(t), EntryOrder(t));
  }

  // ----- a tree that only the visiting order gives back -----

  const TWO_LEAVES: Value := Obj(map["" := Obj(map["a" := Str("x")]), "a" := Str("y")])

  lemma LeavesOfTwo(keys: seq<string>)
    requires IsLeaf(TWO_LEAVES, keys)
    ensures keys == ["", "a"] || keys == ["a"]
    ensures PathText("", keys) == "a"
  {
    var t := TWO_LEAVES;
    assert keys != [] && keys == [keys[0]] + keys[1..];
    LeafOfChild(t, keys[0], keys[1..]);
    assert [keys[0]][1..] == [];
    if keys[0] == "a" {
      LeafIsOwnPath(Str("y"));
    } else {
      var inner, rest := t.fields[""], keys[1..];
      assert rest != [] && rest == [rest[0]] + rest[1..];
      LeafOfChild(inner, rest[0], rest[1..]);
      LeafIsOwnPath(Str("x"));
      assert keys == ["", "a"];
      assert rest[1..] == [];
    }
  }

  lemma TwoLeaves()
    ensures IsLeaf(TWO_LEAVES, ["a"]) && Walk(TWO_LEAVES, ["a"]) == Some(Str("y"))
    ensures IsLeaf(TWO_LEAVES, ["", "a"]) && Walk(TWO_LEAVES, ["", "a"]) == Some(Str("x"))
  {
    WalkOne(TWO_LEAVES, "a");
    assert ["", "a"][1..] == ["a"];
    WalkOne(TWO_LEAVES.fields[""], "a");
  }

  /**
   Two leaves with one path text: the one kept is in place, so the tree is given
   back, although the other leaf is not in place.
   */
  lemma OnlyTheKeptLeafCounts()
    ensures RoundTrip(TWO_LEAVES) == TWO_LEAVES && !LeavesInPlace(TWO_LEAVES)
  {
    hide RoundTrip, IsLeaf, PathText, SplitDots;
    var t := TWO_LEAVES;
    TwoLeaves();
    forall keys | IsLeaf(t, keys) {
      LeavesOfTwo(keys);
    }
    SplitDotFree("a");
    forall keys | LastOfItsText(t, keys)
      ensures Walk(t, SplitDots(PathText("", keys))) == Walk(t, keys)
    {
      assert LeafAt(t, "", ["a"], "a");
      assert !KeysLess(["a"], ["", "a"]);
    }
    forall at | EntryAbove(t, at)
      ensures Walk(t, at).None?
    {
      assert Before(["a"], at);
      assert at == ["a"] + at[1..];
      WalkConcat(t, ["a"], at[1..]);
    }
    RoundTripOverItselfExactly(t);
  }

  // ----- one answer -----

  /** A single answer is flattened to itself, a list too; null and an empty object leave nothing. */
  lemma OneAnswer(key: string, v: Value)
    requires key != "" && !(v.Obj? && v != EMPTY_OBJECT)
    ensures Flattened(Obj(map[key := v])) == if v == Null || v == EMPTY_OBJECT then map[] else map[key := v]
  {
    var t := Obj(map[key := v]);
    var r := Flattened(t);
    forall keys
      ensures IsLeaf(t, keys) <==> keys == [key] && v != Null && v != EMPTY_OBJECT
    {
      if keys != [] && keys[0] == key {
        assert keys == [key] + keys[1..];
        LeafOfChild(t, key, keys[1..]);
        if keys[1..] == [] {
          assert keys == [key];
        }
      }
    }
    assert PathText("", [key]) == key by {
      assert [key][1..] == [];
    }
    WalkOne(t, key);
    forall text
      ensures text in r <==> text == key && v != Null && v != EMPTY_OBJECT
      ensures text in r ==> r[text] == v
    {
      FlatEntry(t, text);
      if text in r {
        var keys :| LastLeafAt(t, "", keys, text) && Walk(t, keys) == Some(r[text]);
      } else if text == key && v != Null && v != EMPTY_OBJECT {
        assert LeafAt(t, "", [key], key);
      }
    }
  }
}
