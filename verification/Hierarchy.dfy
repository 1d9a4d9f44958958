/**
 The record hierarchy of the manager: the search for the chain of links that
 leads from a parent record type to one of its descendants.
 */
module Hierarchy {
  import opened Json
  import opened Sequences
  import opened FieldNames

  /** A record type names its parents and, for each, perhaps the field that holds the link. */
  datatype ParentLink = ParentLink(record: string, field: Option<string>)

  datatype Node = Node(record: string, parents: seq<ParentLink>)

  /** All record types in the order in which the search visits them. */
  type Graph = seq<Node>

  datatype Step = Step(child: string, field: string)

  function FieldOf(parent: ParentLink): string {
    if parent.field.Some? then parent.field.value else DefaultField(parent.record)
  }

  // ----- walks -----

  /** One link of the hierarchy: some node lists `from` as a parent. */
  ghost predicate Edge(g: Graph, from: string, step: Step) {
    exists m :: LinkFrom(g, m, from) && StepOf(g, m) == step
  }

  function EndOf(from: string, path: seq<Step>): string {
    if path == [] then from else path[|path| - 1].child
  }

  /** A chained walk: every step links the record reached so far to one of its children. */
  ghost predicate Walks(g: Graph, from: string, path: seq<Step>) {
    path == [] ||
    (Walks(g, from, path[..|path| - 1]) && Edge(g, EndOf(from, path[..|path| - 1]), path[|path| - 1]))
  }

  ghost predicate WalkTo(g: Graph, from: string, path: seq<Step>, to: string) {
    Walks(g, from, path) && EndOf(from, path) == to
  }

  ghost predicate Shortest(g: Graph, from: string, path: seq<Step>, to: string) {
    WalkTo(g, from, path, to) && forall other :: WalkTo(g, from, other, to) ==> |path| <= |other|
  }

  // ----- walks by their places in the hierarchy -----

  /** The place of a link: which node lists it, and where among the node's parents. */
  datatype Mark = Mark(node: nat, parent: nat)

  type Trail = seq<Mark>

  predicate LinkFrom(g: Graph, m: Mark, from: string) {
    m.node < |g| && m.parent < |g[m.node].parents| && g[m.node].parents[m.parent].record == from
  }

  function StepOf(g: Graph, m: Mark): Step
    requires m.node < |g| && m.parent < |g[m.node].parents|
  {
    Step(g[m.node].record, FieldOf(g[m.node].parents[m.parent]))
  }

  /** A link is followed by the field it names, or else by the parent record's name in snake case and `_id`. */
  lemma StepIs(g: Graph, m: Mark)
    requires m.node < |g| && m.parent < |g[m.node].parents|
    ensures var parent := g[m.node].parents[m.parent];
            StepOf(g, m) == Step(g[m.node].record, if parent.field.Some? then parent.field.value else Snake(parent.record) + "_id")
  {
  }

  function TrailEnd(g: Graph, from: string, t: Trail): string {
    if t == [] || t[|t| - 1].node >= |g| then from else g[t[|t| - 1].node].record
  }

  ghost predicate Follows(g: Graph, from: string, t: Trail) {
    t == [] || (Follows(g, from, t[..|t| - 1]) && LinkFrom(g, t[|t| - 1], TrailEnd(g, from, t[..|t| - 1])))
  }

  ghost function PathOf(g: Graph, from: string, t: Trail): (path: seq<Step>)
    requires Follows(g, from, t)
    ensures |path| == |t|
  {
    if t == [] then [] else PathOf(g, from, t[..|t| - 1]) + [StepOf(g, t[|t| - 1])]
  }

  lemma {:induction false} TrailIsWalk(g: Graph, from: string, t: Trail)
    requires Follows(g, from, t)
    ensures WalkTo(g, from, PathOf(g, from, t), TrailEnd(g, from, t))
  {
    if t != [] {
      var before := t[..|t| - 1];
      TrailIsWalk(g, from, before);
      var path := PathOf(g, from, t);
      assert path[..|path| - 1] == PathOf(g, from, before);
    }
  }

  lemma {:induction false} WalkHasTrail(g: Graph, from: string, path: seq<Step>) returns (t: Trail)
    requires Walks(g, from, path)
    ensures Follows(g, from, t) && PathOf(g, from, t) == path && TrailEnd(g, from, t) == EndOf(from, path)
  {
    if path == [] {
      t := [];
    } else {
      hide Follows, PathOf, TrailEnd, FieldOf;
      var before := WalkHasTrail(g, from, path[..|path| - 1]);
      var m :| LinkFrom(g, m, EndOf(from, path[..|path| - 1])) && StepOf(g, m) == path[|path| - 1];
      t := before + [m];
      ExtendTrail(g, from, before, m);
      FrontAndLast(path);
    }
  }

  lemma LastLink(g: Graph, from: string, t: Trail) returns (before: Trail, m: Mark)
    requires Follows(g, from, t) && t != []
    ensures t == before + [m] && Follows(g, from, before) && LinkFrom(g, m, TrailEnd(g, from, before))
    ensures TrailEnd(g, from, t) == g[m.node].record
  {
    before, m := t[..|t| - 1], t[|t| - 1];
  }

  lemma ExtendTrail(g: Graph, from: string, t: Trail, m: Mark)
    requires Follows(g, from, t) && LinkFrom(g, m, TrailEnd(g, from, t))
    ensures Follows(g, from, t + [m]) && TrailEnd(g, from, t + [m]) == g[m.node].record
    ensures PathOf(g, from, t + [m]) == PathOf(g, from, t) + [StepOf(g, m)]
  {
    assert (t + [m])[..|t|] == t;
  }

  // ----- the order of trails -----

  predicate MarkLess(a: Mark, b: Mark) {
    a.node < b.node || (a.node == b.node && a.parent < b.parent)
  }

  /** Trails of one length in the order of the first place where they differ. */
  predicate Lex(a: Trail, b: Trail)
    requires |a| == |b|
  {
    a != [] &&
    var n := |a| - 1;
    Lex(a[..n], b[..n]) || (a[..n] == b[..n] && MarkLess(a[n], b[n]))
  }

  /** Shorter trails come first. */
  predicate Earlier(a: Trail, b: Trail) {
    |a| < |b| || (|a| == |b| && Lex(a, b))
  }

  predicate AtMost(a: Trail, b: Trail) {
    a == b || Earlier(a, b)
  }

  lemma {:induction false} LexTransitive(a: Trail, b: Trail, c: Trail)
    requires |a| == |b| == |c| && Lex(a, b) && Lex(b, c)
    ensures Lex(a, c)
  {
    var n := |a| - 1;
    if Lex(a[..n], b[..n]) && Lex(b[..n], c[..n]) {
      LexTransitive(a[..n], b[..n], c[..n]);
    }
  }

  lemma {:induction false} LexOneWay(a: Trail, b: Trail)
    requires |a| == |b| && Lex(a, b)
    ensures a != b && !Lex(b, a)
  {
    var n := |a| - 1;
    if Lex(a[..n], b[..n]) {
      LexOneWay(a[..n], b[..n]);
    } else {
      LexNotItself(a[..n]);
    }
  }

  lemma {:induction false} LexNotItself(a: Trail)
    ensures !Lex(a, a)
  {
    if a != [] {
      LexNotItself(a[..|a| - 1]);
    }
  }

  lemma LexAppend(a: Trail, b: Trail, m: Mark, k: Mark)
    requires |a| == |b| && (Lex(a, b) || (a == b && MarkLess(m, k)))
    ensures Lex(a + [m], b + [k])
  {
    assert (a + [m])[..|a|] == a && (b + [k])[..|b|] == b;
  }

  lemma AtMostTransitive(a: Trail, b: Trail, c: Trail)
    requires AtMost(a, b) && AtMost(b, c)
    ensures AtMost(a, c)
  {
    hide Lex;
    if |a| == |b| == |c| && Lex(a, b) && Lex(b, c) {
      LexTransitive(a, b, c);
    }
  }

  lemma AtMostAppend(a: Trail, b: Trail, m: Mark)
    requires AtMost(a, b)
    ensures AtMost(a + [m], b + [m])
  {
    hide Lex;
    if |a| == |b| && Lex(a, b) {
      LexAppend(a, b, m, m);
    }
  }

  /** The first of all trails to a record: a shortest one and, among those, the first in the order of the hierarchy. */
  ghost predicate FirstTrail(g: Graph, from: string, t: Trail, to: string) {
    && Follows(g, from, t) && TrailEnd(g, from, t) == to
    && forall other :: Follows(g, from, other) && TrailEnd(g, from, other) == to ==> AtMost(t, other)
  }

  ghost predicate FirstPath(g: Graph, from: string, path: seq<Step>, to: string) {
    exists t :: FirstTrail(g, from, t, to) && path == PathOf(g, from, t)
  }

  lemma FirstPathIsShortest(g: Graph, from: string, path: seq<Step>, to: string)
    requires FirstPath(g, from, path, to)
    ensures Shortest(g, from, path, to)
  {
    hide Lex, Follows, Walks, PathOf;
    var t :| FirstTrail(g, from, t, to) && path == PathOf(g, from, t);
    TrailIsWalk(g, from, t);
    forall other | WalkTo(g, from, other, to)
      ensures |path| <= |other|
    {
      var u := WalkHasTrail(g, from, other);
      assert AtMost(t, u);
    }
  }

  /** There is only one first path. */
  lemma FirstPathIsUnique(g: Graph, from: string, path: seq<Step>, other: seq<Step>, to: string)
    requires FirstPath(g, from, path, to) && FirstPath(g, from, other, to)
    ensures path == other
  {
    hide Lex, Follows, PathOf;
    var t :| FirstTrail(g, from, t, to) && path == PathOf(g, from, t);
    var u :| FirstTrail(g, from, u, to) && other == PathOf(g, from, u);
    assert AtMost(t, u) && AtMost(u, t);
    if t != u {
      LexOneWay(t, u);
    }
  }

  function Names(g: Graph): set<string> {
    set i | 0 <= i < |g| :: g[i].record
  }

  // ----- breadth-first search -----

  datatype Entry = Entry(record: string, path: seq<Step>)

  /** The trail by which each record was first met. */
  type Trails = map<string, Trail>

  ghost predicate Genuine(g: Graph, from: string, trail: Trails) {
    forall r :: r in trail ==> Follows(g, from, trail[r]) && TrailEnd(g, from, trail[r]) == r
  }

  ghost predicate EntryAt(g: Graph, from: string, e: Entry, trail: Trails, length: nat) {
    && e.record in trail && |trail[e.record]| == length
    && Follows(g, from, trail[e.record]) && e.path == PathOf(g, from, trail[e.record])
  }

  /** All entries hold the paths, of `length` steps, by which their records were first met. */
  ghost predicate AllAt(g: Graph, from: string, entries: seq<Entry>, trail: Trails, length: nat) {
    entries == [] ||
    (&& AllAt(g, from, entries[..|entries| - 1], trail, length)
     && EntryAt(g, from, entries[|entries| - 1], trail, length))
  }

  ghost predicate Has(entries: seq<Entry>, r: string) {
    entries != [] && (entries[|entries| - 1].record == r || Has(entries[..|entries| - 1], r))
  }

  lemma {:induction false} AllAtFirst(g: Graph, from: string, entries: seq<Entry>, trail: Trails, length: nat)
    requires AllAt(g, from, entries, trail, length) && entries != []
    ensures EntryAt(g, from, entries[0], trail, length)
    ensures AllAt(g, from, entries[1..], trail, length)
  {
    hide EntryAt;
    var k := |entries| - 1;
    if k > 0 {
      AllAtFirst(g, from, entries[..k], trail, length);
      assert entries[1..][..k - 1] == entries[..k][1..];
    }
  }

  lemma AllAtLast(g: Graph, from: string, entries: seq<Entry>, trail: Trails, length: nat, e: Entry)
    requires AllAt(g, from, entries, trail, length) && EntryAt(g, from, e, trail, length)
    ensures AllAt(g, from, entries + [e], trail, length)
  {
    assert (entries + [e])[..|entries|] == entries;
  }

  lemma {:induction false} HasFirst(entries: seq<Entry>, r: string)
    requires entries != []
    ensures Has(entries, r) <==> r == entries[0].record || Has(entries[1..], r)
  {
    var k := |entries| - 1;
    if k > 0 {
      HasFirst(entries[..k], r);
      assert entries[1..][..k - 1] == entries[..k][1..];
    }
  }

  lemma {:induction false} AllAtGrow(g: Graph, from: string, entries: seq<Entry>, trail: Trails, length: nat, r: string, t: Trail)
    requires AllAt(g, from, entries, trail, length) && r !in trail
    ensures AllAt(g, from, entries, trail[r := t], length)
  {
    if entries != [] {
      AllAtGrow(g, from, entries[..|entries| - 1], trail, length, r, t);
    }
  }

  lemma {:induction false} AllAtHas(g: Graph, from: string, entries: seq<Entry>, trail: Trails, length: nat, r: string)
    requires AllAt(g, from, entries, trail, length) && Has(entries, r)
    ensures r in trail && |trail[r]| == length
  {
    if r != entries[|entries| - 1].record {
      AllAtHas(g, from, entries[..|entries| - 1], trail, length, r);
    }
  }

  // ----- the order of the queue -----

  ghost predicate Before(trail: Trails, a: string, b: string) {
    a in trail && b in trail && |trail[a]| == |trail[b]| && Lex(trail[a], trail[b])
  }

  /** The queue is in the order of the trails. */
  ghost predicate Ascending(entries: seq<Entry>, trail: Trails) {
    entries == [] ||
    (&& Ascending(entries[..|entries| - 1], trail)
     && AllBefore(entries[..|entries| - 1], trail, entries[|entries| - 1].record))
  }

  ghost predicate AllBefore(entries: seq<Entry>, trail: Trails, q: string) {
    forall r :: Has(entries, r) ==> Before(trail, r, q)
  }

  lemma {:induction false} AscendingFirst(entries: seq<Entry>, trail: Trails)
    requires Ascending(entries, trail) && entries != []
    ensures Ascending(entries[1..], trail)
    ensures forall r :: Has(entries[1..], r) ==> Before(trail, entries[0].record, r)
  {
    hide Before;
    var k := |entries| - 1;
    if k > 0 {
      AscendingFirst(entries[..k], trail);
      assert entries[1..][..k - 1] == entries[..k][1..];
      forall r {
        HasFirst(entries[..k], r);
      }
    }
  }

  lemma {:induction false} AscendingGrow(entries: seq<Entry>, trail: Trails, r: string, t: Trail)
    requires Ascending(entries, trail) && r !in trail
    ensures Ascending(entries, trail[r := t])
  {
    hide Lex;
    if entries != [] {
      AscendingGrow(entries[..|entries| - 1], trail, r, t);
    }
  }

  // ----- the search -----

  /** A record that has been followed: no child was first met by a later trail than the one through the record. */
  ghost predicate Followed(g: Graph, r: string, trail: Trails)
    requires r in trail
  {
    forall m :: LinkFrom(g, m, r) ==> MetBy(g, trail, m, trail[r] + [m])
  }

  ghost predicate MetBy(g: Graph, trail: Trails, m: Mark, t: Trail)
    requires m.node < |g|
  {
    g[m.node].record in trail && AtMost(trail[g[m.node].record], t)
  }

  /**
   The search so far: the queue holds walks of `n` steps (near) and then walks of
   `n + 1` steps (far), one record may be at hand, and `trail` says how each seen
   record was first met.
   */
  datatype Search = Search(near: seq<Entry>, far: seq<Entry>, atHand: Option<string>, trail: Trails, n: nat)

  ghost predicate Waits(s: Search, r: string) {
    Has(s.near, r) || Has(s.far, r) || s.atHand == Some(r)
  }

  /** Every record met so far is either waiting, after `n` steps or more, or has been followed. */
  ghost predicate Explored(g: Graph, from: string, s: Search) {
    && from in s.trail && s.trail[from] == []
    && (forall r :: r in s.trail ==> |s.trail[r]| <= s.n + 1)
    && (forall r :: r in s.trail && |s.trail[r]| < s.n ==> !Waits(s, r))
    && (forall r :: r in s.trail ==> Waits(s, r) || Followed(g, r, s.trail))
  }

  /** A trail one step longer, that leaves before another one. */
  predicate LeavesBefore(a: Trail, b: Trail) {
    |a| == |b| + 1 && Lex(a[..|b|], b)
  }

  /** Records met in `n + 1` steps were met through records ahead of those still waiting. */
  ghost predicate Ranked(s: Search) {
    && Ascending(s.near, s.trail) && Ascending(s.far, s.trail)
    && (s.atHand.Some? ==> forall q :: Has(s.near, q) ==> Before(s.trail, s.atHand.value, q))
    && (forall r, q :: r in s.trail && |s.trail[r]| == s.n + 1 && Has(s.near, q) ==>
          q in s.trail && LeavesBefore(s.trail[r], s.trail[q]))
  }

  ghost predicate SearchInv(g: Graph, from: string, s: Search) {
    && AllAt(g, from, s.near, s.trail, s.n) && AllAt(g, from, s.far, s.trail, s.n + 1)
    && Genuine(g, from, s.trail) && Explored(g, from, s) && Ranked(s)
  }

  /** Every walk of at most `n` steps ends in a record already met, and met no later than by that walk. */
  lemma {:induction false} WalksAreCovered(g: Graph, from: string, s: Search, t: Trail)
    requires Explored(g, from, s) && Follows(g, from, t) && |t| <= s.n
    ensures TrailEnd(g, from, t) in s.trail && AtMost(s.trail[TrailEnd(g, from, t)], t)
  {
    hide Lex;
    if t != [] {
      var before, m := t[..|t| - 1], t[|t| - 1];
      WalksAreCovered(g, from, s, before);
      var r := TrailEnd(g, from, before);
      assert Followed(g, r, s.trail);
      assert MetBy(g, s.trail, m, s.trail[r] + [m]);
      AtMostAppend(s.trail[r], before, m);
      assert t == before + [m];
      AtMostTransitive(s.trail[TrailEnd(g, from, t)], s.trail[r] + [m], t);
    }
  }

  lemma {:induction false} ClosedUnderWalks(g: Graph, from: string, trail: Trails, t: Trail)
    requires from in trail && (forall r :: r in trail ==> Followed(g, r, trail)) && Follows(g, from, t)
    ensures TrailEnd(g, from, t) in trail
  {
    if t != [] {
      var before, m := t[..|t| - 1], t[|t| - 1];
      ClosedUnderWalks(g, from, trail, before);
      var r := TrailEnd(g, from, before);
      assert Followed(g, r, trail);
      assert MetBy(g, trail, m, trail[r] + [m]);
    }
  }

  /** When nothing waits any more, whatever was not met cannot be reached. */
  lemma NothingWaits(g: Graph, from: string, to: string, seen: set<string>, s: Search)
    requires Holds(g, from, to, [], seen, s) && s.atHand == None
    ensures forall path :: !WalkTo(g, from, path, to)
  {
    hide Walks, Ranked, AllAt, Followed, Follows, PathOf;
    forall path | Walks(g, from, path)
      ensures EndOf(from, path) != to
    {
      var t := WalkHasTrail(g, from, path);
      ClosedUnderWalks(g, from, s.trail, t);
    }
  }

  // ----- one link of the record at hand -----

  /** All links of the record at hand before a place have been dealt with. */
  ghost predicate Scanned(g: Graph, h: string, trail: Trails, upTo: Mark)
    requires h in trail
  {
    forall m :: LinkFrom(g, m, h) && MarkLess(m, upTo) ==> MetBy(g, trail, m, trail[h] + [m])
  }

  /** Whatever was met in one step more than the record at hand was met earlier than by the link at this place. */
  ghost predicate Ahead(h: string, trail: Trails, m: Mark)
    requires h in trail
  {
    forall r :: r in trail && |trail[r]| == |trail[h]| + 1 ==> Lex(trail[r], trail[h] + [m])
  }

  /** The place up to which the links of the record at hand have been dealt with. */
  ghost predicate AtPlace(g: Graph, s: Search, h: string, m: Mark) {
    && s.atHand == Some(h) && h in s.trail && |s.trail[h]| == s.n
    && Scanned(g, h, s.trail, m) && Ahead(h, s.trail, m)
  }

  lemma FollowedChild(g: Graph, r: string, trail: Trails, m: Mark)
    requires r in trail && Followed(g, r, trail) && LinkFrom(g, m, r)
    ensures g[m.node].record in trail
  {
    assert MetBy(g, trail, m, trail[r] + [m]);
  }

  lemma ComesFirst(g: Graph, from: string, s: Search, h: string, m: Mark, w: Trail, k: Mark)
    requires SearchInv(g, from, s) && AtPlace(g, s, h, m) && |w| == s.n
    requires Follows(g, from, w) && LinkFrom(g, k, TrailEnd(g, from, w)) && g[k.node].record !in s.trail
    ensures AtMost(s.trail[h] + [m], w + [k])
  {
    hide Lex, AllAt, Ascending, Genuine, Follows, Followed;
    WalksAreCovered(g, from, s, w);
    var p := TrailEnd(g, from, w);
    if !Waits(s, p) {
      FollowedChild(g, p, s.trail, k);
    } else {
      assert |s.trail[p]| == s.n;
      if Has(s.far, p) {
        AllAtHas(g, from, s.far, s.trail, s.n + 1, p);
      } else {
        assert p == h || Before(s.trail, h, p);
        AheadOfWalk(s.trail, h, p, w);
        if s.trail[h] == w && p == h {
          assert MarkLess(k, m) ==> MetBy(g, s.trail, k, s.trail[h] + [k]);
          if m != k {
            assert MarkLess(m, k);
            LexAppend(s.trail[h], w, m, k);
          }
        } else {
          LexAppend(s.trail[h], w, m, k);
        }
      }
    }
  }

  lemma AheadOfWalk(trail: Trails, h: string, p: string, w: Trail)
    requires h in trail && p in trail && |trail[h]| == |trail[p]| == |w|
    requires (p == h || Before(trail, h, p)) && AtMost(trail[p], w)
    ensures (p == h && trail[h] == w) || Lex(trail[h], w)
  {
    hide Lex;
    if p != h && trail[p] != w {
      LexTransitive(trail[h], trail[p], w);
    }
  }

  /** The first walk that meets a record is the first of all walks to it. */
  lemma FirstMeetingIsFirst(g: Graph, from: string, s: Search, h: string, m: Mark)
    requires SearchInv(g, from, s) && AtPlace(g, s, h, m)
    requires LinkFrom(g, m, h) && g[m.node].record !in s.trail
    ensures Follows(g, from, s.trail[h]) && TrailEnd(g, from, s.trail[h]) == h
    ensures FirstTrail(g, from, s.trail[h] + [m], g[m.node].record)
  {
    hide Lex, AllAt, Ranked, Explored, Follows, PathOf, Scanned, Ahead;
    var to, t := g[m.node].record, s.trail[h] + [m];
    ExtendTrail(g, from, s.trail[h], m);
    forall other | Follows(g, from, other) && TrailEnd(g, from, other) == to
      ensures AtMost(t, other)
    {
      if |other| <= s.n {
        WalksAreCovered(g, from, s, other);
      } else if |other| == s.n + 1 {
        var w, k := LastLink(g, from, other);
        ComesFirst(g, from, s, h, m, w, k);
      }
    }
  }

  function Meet(s: Search, e: Entry, t: Trail): Search {
    s.(far := s.far + [e], trail := s.trail[e.record := t])
  }

  lemma {:induction false} FollowedGrow(g: Graph, r: string, trail: Trails, c: string, t: Trail)
    requires r in trail && c !in trail && Followed(g, r, trail)
    ensures Followed(g, r, trail[c := t])
  {
    hide AtMost;
    forall m | LinkFrom(g, m, r)
      ensures MetBy(g, trail[c := t], m, trail[c := t][r] + [m])
    {
      assert MetBy(g, trail, m, trail[r] + [m]);
    }
  }

  lemma MeetKeepsExplored(g: Graph, from: string, s: Search, e: Entry, t: Trail)
    requires Explored(g, from, s) && e.record !in s.trail && |t| == s.n + 1
    ensures Explored(g, from, Meet(s, e, t))
  {
    hide Followed;
    var s' := Meet(s, e, t);
    assert s'.far[..|s.far|] == s.far;
    forall r | r in s'.trail
      ensures |s'.trail[r]| < s.n ==> !Waits(s', r)
      ensures Waits(s', r) || Followed(g, r, s'.trail)
    {
      assert Waits(s', r) <==> Waits(s, r) || r == e.record;
      if r != e.record && !Waits(s, r) {
        FollowedGrow(g, r, s.trail, e.record, t);
      }
    }
  }

  lemma MeetKeepsRanked(g: Graph, from: string, s: Search, e: Entry, h: string, m: Mark)
    requires AllAt(g, from, s.near, s.trail, s.n) && AllAt(g, from, s.far, s.trail, s.n + 1) && Ranked(s)
    requires AtPlace(g, s, h, m) && e.record !in s.trail
    ensures Ranked(Meet(s, e, s.trail[h] + [m]))
  {
    hide Lex, Scanned, AllAt;
    var t := s.trail[h] + [m];
    var s' := Meet(s, e, t);
    AscendingGrow(s.near, s.trail, e.record, t);
    AscendingGrow(s.far, s.trail, e.record, t);
    assert s'.far[..|s.far|] == s.far;
    forall r | Has(s.far, r)
      ensures Before(s'.trail, r, e.record)
    {
      AllAtHas(g, from, s.far, s.trail, s.n + 1, r);
    }
    forall q | Has(s.near, q)
      ensures Before(s'.trail, h, q) && LeavesBefore(t, s'.trail[q])
    {
      assert Before(s.trail, h, q);
      assert t[..s.n] == s.trail[h];
    }
  }

  lemma MeetKeepsInv(g: Graph, from: string, s: Search, e: Entry, h: string, m: Mark)
    requires SearchInv(g, from, s) && AtPlace(g, s, h, m) && LinkFrom(g, m, h)
    requires e.record == g[m.node].record && e.record !in s.trail
    requires Follows(g, from, s.trail[h]) && e.path == PathOf(g, from, s.trail[h]) + [StepOf(g, m)]
    ensures SearchInv(g, from, Meet(s, e, s.trail[h] + [m]))
  {
    hide Lex, Explored, Ranked, Scanned, Ahead, Follows, PathOf, TrailEnd, FieldOf, AllAt;
    var t := s.trail[h] + [m];
    var s' := Meet(s, e, t);
    ExtendTrail(g, from, s.trail[h], m);
    MeetKeepsExplored(g, from, s, e, t);
    MeetKeepsRanked(g, from, s, e, h, m);
    AllAtGrow(g, from, s.near, s.trail, s.n, e.record, t);
    AllAtGrow(g, from, s.far, s.trail, s.n + 1, e.record, t);
    AllAtLast(g, from, s.far, s'.trail, s.n + 1, e);
  }

  // ----- from place to place -----

  /** The link at this place has been dealt with, too. */
  ghost predicate PastPlace(g: Graph, s: Search, h: string, m: Mark) {
    && s.atHand == Some(h) && h in s.trail && |s.trail[h]| == s.n
    && Scanned(g, h, s.trail, m)
    && (LinkFrom(g, m, h) ==> MetBy(g, s.trail, m, s.trail[h] + [m]))
    && (forall r :: r in s.trail && |s.trail[r]| == s.n + 1 ==> AtMost(s.trail[r], s.trail[h] + [m]))
  }

  predicate NextPlace(g: Graph, m: Mark, k: Mark) {
    || k == Mark(m.node, m.parent + 1)
    || (m.node < |g| && m.parent >= |g[m.node].parents| && k == Mark(m.node + 1, 0))
  }

  lemma NextPlaceAhead(trail: Trails, r: string, t: Trail, m: Mark, k: Mark)
    requires r in trail && |trail[r]| == |t| + 1 && AtMost(trail[r], t + [m]) && MarkLess(m, k)
    ensures Lex(trail[r], t + [k])
  {
    hide Lex;
    LexAppend(t, t, m, k);
    if trail[r] != t + [m] {
      LexTransitive(trail[r], t + [m], t + [k]);
    }
  }

  lemma MoveOn(g: Graph, s: Search, h: string, m: Mark, k: Mark)
    requires PastPlace(g, s, h, m) && NextPlace(g, m, k)
    ensures AtPlace(g, s, h, k)
  {
    hide MetBy, AtMost, Lex;
    forall x | LinkFrom(g, x, h) && MarkLess(x, k)
      ensures MetBy(g, s.trail, x, s.trail[h] + [x])
    {
      assert MarkLess(x, m) || x == m;
    }
    forall r | r in s.trail && |s.trail[r]| == s.n + 1
      ensures Lex(s.trail[r], s.trail[h] + [k])
    {
      NextPlaceAhead(s.trail, r, s.trail[h], m, k);
    }
  }

  lemma PastOther(g: Graph, s: Search, h: string, m: Mark)
    requires AtPlace(g, s, h, m) && !LinkFrom(g, m, h)
    ensures PastPlace(g, s, h, m)
  {
    hide Lex;
  }

  lemma PastSeen(g: Graph, from: string, s: Search, h: string, m: Mark)
    requires SearchInv(g, from, s) && AtPlace(g, s, h, m) && LinkFrom(g, m, h) && g[m.node].record in s.trail
    ensures PastPlace(g, s, h, m)
  {
    hide Lex, Scanned, Followed, AllAt, Genuine, Ranked;
  }

  lemma PastMet(g: Graph, s: Search, e: Entry, h: string, m: Mark)
    requires AtPlace(g, s, h, m) && LinkFrom(g, m, h) && e.record == g[m.node].record && e.record !in s.trail
    ensures PastPlace(g, Meet(s, e, s.trail[h] + [m]), h, m)
  {
    hide Lex;
    var s' := Meet(s, e, s.trail[h] + [m]);
    forall x | LinkFrom(g, x, h) && MarkLess(x, m)
      ensures MetBy(g, s'.trail, x, s'.trail[h] + [x])
    {
      assert MetBy(g, s.trail, x, s.trail[h] + [x]);
    }
  }

  // ----- from record to record -----

  function NextLevel(s: Search): Search {
    s.(near := s.far, far := [], n := s.n + 1)
  }

  /** When all walks of `n` steps are used up, the search has moved on to the next length. */
  lemma NextLevelKeepsInv(g: Graph, from: string, s: Search)
    requires SearchInv(g, from, s) && s.near == [] && s.atHand == None
    ensures SearchInv(g, from, NextLevel(s))
  {
    hide Lex, Followed, Follows, Genuine;
    var s' := NextLevel(s);
    forall r | r in s.trail
      ensures |s.trail[r]| < s'.n ==> !Waits(s', r)
      ensures Waits(s', r) || Followed(g, r, s.trail)
    {
      assert Waits(s', r) ==> Waits(s, r);
      if Has(s.far, r) {
        AllAtHas(g, from, s.far, s.trail, s.n + 1, r);
      }
    }
  }

  function TakeFirst(s: Search): Search
    requires s.near != []
  {
    s.(near := s.near[1..], atHand := Some(s.near[0].record))
  }

  lemma TakeFirstKeepsExplored(g: Graph, from: string, s: Search)
    requires AllAt(g, from, s.near, s.trail, s.n) && Explored(g, from, s) && s.near != [] && s.atHand == None
    ensures Explored(g, from, TakeFirst(s))
  {
    hide Followed, AllAt;
    var s' := TakeFirst(s);
    forall r | r in s.trail
      ensures |s.trail[r]| < s.n ==> !Waits(s', r)
      ensures Waits(s', r) || Followed(g, r, s.trail)
    {
      HasFirst(s.near, r);
    }
  }

  lemma TakeFirstKeepsRanked(s: Search)
    requires Ranked(s) && s.near != [] && s.atHand == None
    ensures Ranked(TakeFirst(s))
  {
    hide Lex;
    AscendingFirst(s.near, s.trail);
    forall q {
      HasFirst(s.near, q);
    }
  }

  /** At the first place, whatever was met in `n + 1` steps was met through an earlier record. */
  lemma FirstPlace(g: Graph, s: Search)
    requires Ranked(s) && s.near != [] && s.near[0].record in s.trail && |s.trail[s.near[0].record]| == s.n
    ensures AtPlace(g, TakeFirst(s), s.near[0].record, Mark(0, 0))
  {
    hide Lex, Ascending;
    var h := s.near[0].record;
    HasFirst(s.near, h);
    forall r | r in s.trail && |s.trail[r]| == s.n + 1
      ensures Lex(s.trail[r], s.trail[h] + [Mark(0, 0)])
    {
      assert LeavesBefore(s.trail[r], s.trail[h]);
      var a := s.trail[r];
      assert a == a[..s.n] + [a[s.n]];
      LexAppend(a[..s.n], s.trail[h], a[s.n], Mark(0, 0));
    }
  }

  lemma TakeFirstKeepsInv(g: Graph, from: string, s: Search)
    requires SearchInv(g, from, s) && s.near != [] && s.atHand == None
    ensures EntryAt(g, from, s.near[0], s.trail, s.n)
    ensures SearchInv(g, from, TakeFirst(s)) && AtPlace(g, TakeFirst(s), s.near[0].record, Mark(0, 0))
  {
    hide Ranked, Explored, AtPlace, AllAt;
    AllAtFirst(g, from, s.near, s.trail, s.n);
    TakeFirstKeepsExplored(g, from, s);
    TakeFirstKeepsRanked(s);
    FirstPlace(g, s);
  }

  function PutAside(s: Search): Search {
    s.(atHand := None)
  }

  /** Past the last node all links of the record at hand have been dealt with. */
  lemma PutAsideKeepsInv(g: Graph, from: string, s: Search, h: string)
    requires SearchInv(g, from, s) && AtPlace(g, s, h, Mark(|g|, 0))
    ensures SearchInv(g, from, PutAside(s))
  {
    hide Lex, MetBy, AllAt, Ascending, Genuine, Ahead;
    var s' := PutAside(s);
    assert Followed(g, h, s.trail);
    forall r | r in s.trail
      ensures |s.trail[r]| < s.n ==> !Waits(s', r)
      ensures Waits(s', r) || Followed(g, r, s.trail)
    {
      assert Waits(s', r) ==> Waits(s, r);
      assert Waits(s, r) && r != h ==> Waits(s', r);
    }
  }

  // ----- the program -----

  /** Progress: records may have been met, and if none was, the queue is as it was. */
  ghost predicate Grows(before: Search, after: Search) {
    && before.trail.Keys <= after.trail.Keys
    && (forall r :: r in before.trail ==> after.trail[r] == before.trail[r])
    && after == before.(far := after.far, trail := after.trail)
    && (after.trail.Keys == before.trail.Keys ==> after.far == before.far)
  }

  /** The real queue and seen set are the search's own; the target has not been met. */
  ghost predicate Holds(g: Graph, from: string, to: string, queue: seq<Entry>, seen: set<string>, s: Search) {
    && SearchInv(g, from, s)
    && queue == s.near + s.far && seen == s.trail.Keys
    && to !in seen && seen <= Names(g) + {from}
  }

  lemma StartHolds(g: Graph, from: string, to: string)
    requires from != to
    ensures var queue := [Entry(from, [])];
            Holds(g, from, to, queue, {from}, Search(queue, [], None, map[from := []], 0))
  {
    var queue := [Entry(from, [])];
    var s := Search(queue, [], None, map[from := []], 0);
    assert queue[..0] == [] && queue + [] == queue && [] + queue == queue;
    assert EntryAt(g, from, queue[0], s.trail, 0);
    assert AllAt(g, from, queue, s.trail, 0);
    assert Waits(s, from);
    assert Explored(g, from, s);
    assert Ranked(s);
  }

  /** Extends the walk at hand through one node, once for every parent entry that matches. */
  method ExpandNode(g: Graph, from: string, to: string, atHand: Entry, node: nat, queue: seq<Entry>, seen: set<string>,
                    ghost s: Search)
    returns (hit: Option<seq<Step>>, queue': seq<Entry>, seen': set<string>, ghost s': Search)
    requires node < |g| && Holds(g, from, to, queue, seen, s) && EntryAt(g, from, atHand, s.trail, s.n)
    requires AtPlace(g, s, atHand.record, Mark(node, 0))
    ensures hit.Some? ==> FirstPath(g, from, hit.value, to)
    ensures hit.None? ==> Holds(g, from, to, queue', seen', s') && AtPlace(g, s', atHand.record, Mark(node + 1, 0))
    ensures Grows(s, s')
  {
    hide Follows, SearchInv, AtPlace, PastPlace, FirstTrail, PathOf, FieldOf;
    queue', seen', s', hit := queue, seen, s, None;
    var child := g[node].record;
    assert child in Names(g);
    for j := 0 to |g[node].parents|
      invariant Holds(g, from, to, queue', seen', s') && Grows(s, s')
      invariant AtPlace(g, s', atHand.record, Mark(node, j))
    {
      var parent := g[node].parents[j];
      ghost var m := Mark(node, j);
      if parent.record == atHand.record {
        var step := Step(child, FieldOf(parent));
        var path := atHand.path + [step];
        if child == to {
          FirstMeetingIsFirst(g, from, s', atHand.record, m);
          ExtendTrail(g, from, s'.trail[atHand.record], m);
          hit := Some(path);
          return;
        }
        if child !in seen' {
          var e := Entry(child, path);
          MeetKeepsInv(g, from, s', e, atHand.record, m);
          PastMet(g, s', e, atHand.record, m);
          queue', seen', s' := queue' + [e], seen' + {child}, Meet(s', e, s'.trail[atHand.record] + [m]);
        } else {
          PastSeen(g, from, s', atHand.record, m);
        }
      } else {
        PastOther(g, s', atHand.record, m);
      }
      MoveOn(g, s', atHand.record, m, Mark(node, j + 1));
    }
    PastOther(g, s', atHand.record, Mark(node, |g[node].parents|));
    MoveOn(g, s', atHand.record, Mark(node, |g[node].parents|), Mark(node + 1, 0));
  }

  /** Extends the walk at hand to all children of its record. */
  method Expand(g: Graph, from: string, to: string, atHand: Entry, queue: seq<Entry>, seen: set<string>, ghost s: Search)
    returns (hit: Option<seq<Step>>, queue': seq<Entry>, seen': set<string>, ghost s': Search)
    requires Holds(g, from, to, queue, seen, s) && EntryAt(g, from, atHand, s.trail, s.n)
    requires AtPlace(g, s, atHand.record, Mark(0, 0))
    ensures hit.Some? ==> FirstPath(g, from, hit.value, to)
    ensures hit.None? ==> Holds(g, from, to, queue', seen', PutAside(s'))
    ensures hit.None? ==> seen < seen' || (seen' == seen && queue' == queue)
  {
    hide Follows, SearchInv, AtPlace, PathOf;
    queue', seen', s', hit := queue, seen, s, None;
    for i := 0 to |g|
      invariant Holds(g, from, to, queue', seen', s') && Grows(s, s')
      invariant AtPlace(g, s', atHand.record, Mark(i, 0))
    {
      hit, queue', seen', s' := ExpandNode(g, from, to, atHand, i, queue', seen', s');
      if hit.Some? {
        return;
      }
    }
    PutAsideKeepsInv(g, from, s', atHand.record);
    hit := None;
  }

  /** Takes the first entry off the queue, moving on to the next length when it is time. */
  lemma TakeNext(g: Graph, from: string, to: string, queue: seq<Entry>, seen: set<string>, s: Search) returns (s': Search)
    requires Holds(g, from, to, queue, seen, s) && s.atHand == None && queue != []
    ensures Holds(g, from, to, queue[1..], seen, s')
    ensures EntryAt(g, from, queue[0], s'.trail, s'.n) && AtPlace(g, s', queue[0].record, Mark(0, 0))
  {
    hide SearchInv, EntryAt, AtPlace;
    s' := s;
    if s.near == [] {
      NextLevelKeepsInv(g, from, s);
      s' := NextLevel(s);
    }
    TakeFirstKeepsInv(g, from, s');
    s' := TakeFirst(s');
  }

  /**
   The chain of links from one record type to another: the first of the shortest
   ones when there is any, and none exactly when there is none, on cyclic hierarchies too.
   */
  method HierarchyPath(g: Graph, from: string, to: string) returns (found: Option<seq<Step>>)
    ensures found.Some? ==> FirstPath(g, from, found.value, to)
    ensures found.None? ==> forall path :: !WalkTo(g, from, path, to)
  {
    if from == to {
      NoStepIsFirst(g, from);
      return Some([]);
    }
    hide SearchInv, AtPlace, EntryAt, FirstPath, WalkTo;
    var queue, seen := [Entry(from, [])], {from};
    ghost var s := Search(queue, [], None, map[from := []], 0);
    StartHolds(g, from, to);
    while queue != []
      invariant Holds(g, from, to, queue, seen, s) && s.atHand == None
      decreases Names(g) + {from} - seen, |queue|
    {
      var entry := queue[0];
      s := TakeNext(g, from, to, queue, seen, s);
      var hit;
      hit, queue, seen, s := Expand(g, from, to, entry, queue[1..], seen, s);
      if hit.Some? {
        return hit;
      }
      s := PutAside(s);
    }
    NothingWaits(g, from, to, seen, s);
    found := None;
  }

  lemma NoStepIsFirst(g: Graph, from: string)
    ensures FirstPath(g, from, [], from)
  {
    assert FirstTrail(g, from, [], from);
  }
}
