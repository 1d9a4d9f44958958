/**
 The bounded queue between the publishers of business events and the one worker
 that hands them to NATS.
 */
module EventQueue {
  import opened Json
  import opened Sequences

  const QUEUE_CAPACITY: nat := 1024

  datatype Sent = Accepted | Full | Disconnected

  /** What a send does to a channel with this many waiting envelopes. */
  function TrySend(waiting: nat, open: bool): Sent {
    if !open then Disconnected else if waiting >= QUEUE_CAPACITY then Full else Accepted
  }

  /** A queue after a send: longer by the envelope, or as it was. */
  function AfterSend<Envelope>(queue: seq<Envelope>, open: bool, envelope: Envelope): seq<Envelope> {
    if TrySend(|queue|, open) == Accepted then queue + [envelope] else queue
  }

  // ----- the sink and the worker loop -----

  class NatsEventSink<Envelope> {
    var queue: seq<Envelope>
    var open: bool

    constructor ()
      ensures queue == [] && open
    {
      queue, open := [], true;
    }

    /** Publishing never fails; an envelope that finds no room, or no worker, is the one that is dropped. */
    method Publish(envelope: Envelope) returns (ok: bool)
      requires |queue| <= QUEUE_CAPACITY
      modifies this`queue
      ensures ok && |queue| <= QUEUE_CAPACITY && queue == AfterSend(old(queue), old(open), envelope)
      ensures old(open) && |old(queue)| < QUEUE_CAPACITY ==> queue == old(queue) + [envelope]
      ensures !old(open) || |old(queue)| == QUEUE_CAPACITY ==> queue == old(queue)
    {
      match TrySend(|queue|, open) {
        case Accepted => queue := queue + [envelope];
        case Full =>
        case Disconnected =>
      }
      ok := true;
    }

    /** The worker's loop once no publisher is left: first in, first handed over, and then the channel is closed. */
    method Drain(accepts: Envelope -> bool) returns (handed: seq<Envelope>)
      modifies this
      ensures handed == Collect(old(queue), Accepts(accepts))
      ensures queue == [] && !open
    {
      handed := [];
      ghost var taken := 0;
      while queue != []
        invariant taken <= |old(queue)| && queue == old(queue)[taken..]
        invariant handed == Collect(old(queue)[..taken], Accepts(accepts))
        decreases |queue|
      {
        var envelope := queue[0];
        queue := queue[1..];
        if accepts(envelope) {
          handed := handed + [envelope];
        }
        TakeOneMore(old(queue), taken);
        assert old(queue)[..taken + 1][..taken] == old(queue)[..taken];
        taken := taken + 1;
      }
      TakeAll(old(queue));
      open := false;
    }
  }

  function Accepts<Envelope>(accepts: Envelope -> bool): Envelope -> Option<Envelope> {
    e => if accepts(e) then Some(e) else None
  }

  // ----- publishers and worker, interleaved -----

  /** Holding an envelope means having received it and not yet handed it over. */
  datatype Worker = Connecting | Receiving | Holding(envelope: nat) | Closed

  /** Envelopes are named by the order in which they were published. */
  datatype State = State(
    published: nat,
    queue: seq<nat>,
    worker: Worker,
    dropped: set<nat>,
    lost: set<nat>,
    handed: seq<nat>,
    sendersGone: bool)

  const START := State(0, [], Connecting, {}, {}, [], false)

  datatype Action =
    | Publish            // some publisher sends the next envelope
    | Connected          // the worker reaches NATS
    | ConnectFailed      // the worker gives up; what is queued is lost with the receiver
    | Receive            // the worker takes the oldest envelope
    | HandOver           // encoding and publishing succeed
    | Lose               // encoding or publishing fails
    | DropSenders        // the runtime shuts down
    | Stop               // the worker finds the queue empty and no sender left

  predicate Enabled(s: State, a: Action) {
    match a
    case Publish => !s.sendersGone
    case Connected => s.worker == Connecting
    case ConnectFailed => s.worker == Connecting
    case Receive => s.worker == Receiving && s.queue != []
    case HandOver => s.worker.Holding?
    case Lose => s.worker.Holding?
    case DropSenders => true
    case Stop => s.worker == Receiving && s.queue == [] && s.sendersGone
  }

  function Step(s: State, a: Action): State
    requires Enabled(s, a)
  {
    match a
    case Publish =>
      var next := s.(published := s.published + 1);
      if TrySend(|s.queue|, s.worker != Closed) == Accepted then next.(queue := s.queue + [s.published])
      else next.(dropped := s.dropped + {s.published})
    case Connected => s.(worker := Receiving)
    case ConnectFailed => s.(worker := Closed, queue := [], lost := s.lost + set e | e in s.queue)
    case Receive => s.(worker := Holding(s.queue[0]), queue := s.queue[1..])
    case HandOver => s.(worker := Receiving, handed := s.handed + [s.worker.envelope])
    case Lose => s.(worker := Receiving, lost := s.lost + {s.worker.envelope})
    case DropSenders => s.(sendersGone := true)
    case Stop => s.(worker := Closed)
  }

  ghost predicate Legal(run: seq<Action>)
    decreases |run|, 0
  {
    run == [] || (Legal(run[..|run| - 1]) && Enabled(After(run[..|run| - 1]), run[|run| - 1]))
  }

  ghost function After(run: seq<Action>): State
    requires Legal(run)
    decreases |run|, 1
  {
    if run == [] then START else Step(After(run[..|run| - 1]), run[|run| - 1])
  }

  // ----- what every reachable state satisfies -----

  function Held(w: Worker): seq<nat> {
    if w.Holding? then [w.envelope] else []
  }

  /** Everything accepted and not lost, from the first handed over to the last queued. */
  function Pipeline(s: State): seq<nat> {
    s.handed + (Held(s.worker) + s.queue)
  }

  ghost predicate Increasing(s: seq<nat>) {
    forall i, j :: 0 <= i < j < |s| ==> s[i] < s[j]
  }

  function One(b: bool): nat { if b then 1 else 0 }

  /** In how many of the five places an envelope is: dropped, lost, handed over, held, queued. */
  function Places(s: State, e: nat): nat {
    One(e in s.dropped) + One(e in s.lost) + multiset(s.handed)[e] + multiset(Held(s.worker))[e] + multiset(s.queue)[e]
  }

  /** Every published envelope is in exactly one place, and no other is anywhere. */
  ghost predicate Accounted(s: State) {
    forall e: nat :: Places(s, e) == One(e < s.published)
  }

  ghost predicate Ordered(s: State) {
    && |s.queue| <= QUEUE_CAPACITY
    && Below(Pipeline(s), s.published)
    && (s.worker == Connecting ==> s.handed == [])
    && (s.worker == Closed ==> s.queue == [])
  }

  lemma {:induction false} IncreasingCounts(s: seq<nat>, e: nat)
    requires Increasing(s)
    ensures multiset(s)[e] == One(e in s)
    decreases |s|
  {
    if s != [] {
      IncreasingCounts(s[..|s| - 1], e);
      assert s == s[..|s| - 1] + [s[|s| - 1]];
    }
  }

  /** Increasing numbers below a bound. */
  ghost predicate Below(s: seq<nat>, n: nat) {
    Increasing(s) && forall i :: 0 <= i < |s| ==> s[i] < n
  }

  lemma BelowAppend(s: seq<nat>, n: nat)
    requires Below(s, n)
    ensures Below(s + [n], n + 1) && Below(s, n + 1)
  {
  }

  lemma BelowRemove(a: seq<nat>, x: nat, b: seq<nat>, n: nat)
    requires Below(a + ([x] + b), n)
    ensures Below(a + b, n)
  {
    var whole := a + ([x] + b);
    assert forall i :: 0 <= i < |a| ==> (a + b)[i] == whole[i];
    assert forall i :: |a| <= i < |a + b| ==> (a + b)[i] == whole[i + 1];
  }

  lemma PublishPipeline(s: State)
    requires Enabled(s, Publish)
    ensures var next := Pipeline(Step(s, Publish)); next == Pipeline(s) || next == Pipeline(s) + [s.published]
  {
  }

  lemma MovePipeline(s: State, a: Action)
    requires Enabled(s, a) && (a.Receive? || a.HandOver?)
    ensures Pipeline(Step(s, a)) == Pipeline(s)
  {
  }

  lemma StepKeepsOrder(s: State, a: Action)
    requires Ordered(s) && Enabled(s, a)
    ensures Ordered(Step(s, a))
  {
    hide Below, Increasing, Pipeline;
    var s' := Step(s, a);
    assert Below(Pipeline(s'), s'.published) by {
      StepKeepsBelow(s, a);
    }
  }

  lemma StepKeepsBelow(s: State, a: Action)
    requires Ordered(s) && Enabled(s, a)
    ensures Below(Pipeline(Step(s, a)), Step(s, a).published)
  {
    hide Below, Increasing;
    match a {
      case Publish =>
        hide Pipeline;
        BelowAppend(Pipeline(s), s.published);
        PublishPipeline(s);
      case Lose =>
        BelowRemove(s.handed, s.worker.envelope, s.queue, s.published);
        assert Pipeline(Step(s, a)) == s.handed + s.queue;
      case ConnectFailed =>
        BelowNothing(s.published);
        assert Pipeline(Step(s, a)) == [];
      case Receive =>
        MovePipeline(s, a);
      case HandOver =>
        MovePipeline(s, a);
      case _ =>
    }
  }

  lemma BelowNothing(n: nat)
    ensures Below([], n)
  {
  }

  lemma ReceiveMovesEnvelope(s: State, e: nat)
    requires Enabled(s, Receive)
    ensures Places(Step(s, Receive), e) == Places(s, e)
  {
    assert s.queue == [s.queue[0]] + s.queue[1..];
  }

  lemma LoseMovesEnvelope(s: State, e: nat)
    requires Enabled(s, Lose) && Places(s, e) <= 1
    ensures Places(Step(s, Lose), e) == Places(s, e)
  {
    assert multiset(Held(s.worker))[e] == One(e == s.worker.envelope);
  }

  lemma ConnectFailedMovesEnvelope(s: State, e: nat)
    requires Ordered(s) && Enabled(s, ConnectFailed) && Places(s, e) <= 1
    ensures Places(Step(s, ConnectFailed), e) == Places(s, e)
  {
    assert Pipeline(s) == s.queue;
    QueueCounts(s, e);
  }

  /** No step but a publish changes in how many places an envelope is. */
  lemma StepMovesEnvelope(s: State, a: Action, e: nat)
    requires Ordered(s) && Enabled(s, a) && a != Publish && Places(s, e) <= 1
    ensures Places(Step(s, a), e) == Places(s, e)
  {
    hide Ordered;
    match a {
      case Receive => ReceiveMovesEnvelope(s, e);
      case ConnectFailed => ConnectFailedMovesEnvelope(s, e);
      case Lose => LoseMovesEnvelope(s, e);
      case _ =>
    }
  }

  lemma QueueCounts(s: State, e: nat)
    requires Ordered(s) && Pipeline(s) == s.queue
    ensures multiset(s.queue)[e] == One(e in s.queue)
  {
    IncreasingCounts(s.queue, e);
  }

  lemma PublishPlacesEnvelope(s: State, e: nat)
    requires Enabled(s, Publish)
    requires Places(s, s.published) == 0
    ensures Places(Step(s, Publish), e) == if e == s.published then 1 else Places(s, e)
  {
    if TrySend(|s.queue|, s.worker != Closed) == Accepted {
      assert multiset(s.queue + [s.published])[e] == multiset(s.queue)[e] + One(e == s.published);
    } else {
      assert e in s.dropped + {s.published} <==> e in s.dropped || e == s.published;
    }
  }

  lemma StepKeepsAccounts(s: State, a: Action)
    requires Ordered(s) && Accounted(s) && Enabled(s, a)
    ensures Accounted(Step(s, a))
  {
    hide Ordered, Places;
    forall e: nat
      ensures Places(Step(s, a), e) == One(e < Step(s, a).published)
    {
      assert Places(s, e) == One(e < s.published);
      if a == Publish {
        assert Places(s, s.published) == 0;
        PublishPlacesEnvelope(s, e);
      } else {
        StepMovesEnvelope(s, a, e);
      }
    }
  }

  /**
   In every run: the queue stays within its capacity, every published envelope is
   in exactly one place, and the envelopes handed over are in publish order
   without duplicates, ahead of the one held and those still queued.
   */
  lemma {:induction false} EveryRun(run: seq<Action>)
    requires Legal(run)
    ensures Ordered(After(run)) && Accounted(After(run))
    ensures |After(run).queue| <= 1024
  {
    if run != [] {
      var s, last := After(run[..|run| - 1]), run[|run| - 1];
      EveryRun(run[..|run| - 1]);
      StepKeepsOrder(s, last);
      StepKeepsAccounts(s, last);
    }
  }

  /** Once the worker has closed, it stays closed, nothing waits and nothing more is handed over. */
  lemma {:induction false} ClosedIsFinal(run: seq<Action>, k: nat)
    requires Legal(run) && k <= |run| && Legal(run[..k]) && After(run[..k]).worker == Closed
    ensures After(run).worker == Closed && After(run).queue == []
    ensures After(run).handed == After(run[..k]).handed
    decreases |run|
  {
    if k == |run| {
      assert run[..k] == run;
      EveryRun(run);
    } else {
      var n := |run| - 1;
      assert run[..n][..k] == run[..k];
      ClosedIsFinal(run[..n], k);
    }
  }

  lemma LastIsGreatest(s: seq<nat>, n: nat)
    requires Increasing(s) && n > 0 && (forall e: nat :: e in s <==> e < n)
    ensures s != [] && s[|s| - 1] == n - 1
  {
    assert n - 1 in s;
    var i :| 0 <= i < |s| && s[i] == n - 1;
    assert s[|s| - 1] in s;
  }

  lemma WithoutLast(s: seq<nat>, before: seq<nat>, n: nat)
    requires n > 0 && s == before + [n - 1] && Increasing(s) && (forall e: nat :: e in s <==> e < n)
    ensures Increasing(before) && forall e: nat :: e in before <==> e < n - 1
  {
    assert forall i :: 0 <= i < |before| ==> s[i] == before[i] && s[i] < s[|before|];
    assert forall e: nat :: e in s <==> e in before || e == n - 1;
  }

  lemma {:induction false} IncreasingFull(s: seq<nat>, n: nat)
    requires Increasing(s) && (forall e: nat :: e in s <==> e < n)
    ensures s == seq(n, i => i)
    decreases |s|
  {
    if s == [] {
      assert 0 in s <==> 0 < n;
    } else {
      assert s[|s| - 1] in s;
      LastIsGreatest(s, n);
      var before := s[..|s| - 1];
      assert s == before + [n - 1];
      WithoutLast(s, before, n);
      IncreasingFull(before, n - 1);
    }
  }

  /** A run that drops and loses nothing delivers, holds or queues exactly what was published, in that order. */
  lemma NothingDroppedNothingMissing(run: seq<Action>)
    requires Legal(run) && After(run).dropped == {} && After(run).lost == {}
    ensures Pipeline(After(run)) == seq(After(run).published, i => i)
  {
    EveryRun(run);
    var s := After(run);
    forall e: nat
      ensures e in Pipeline(s) <==> e < s.published
    {
      assert Places(s, e) == One(e < s.published);
      assert e in Pipeline(s) <==> e in s.handed || e in Held(s.worker) || e in s.queue;
    }
    IncreasingFull(Pipeline(s), s.published);
  }

  // ----- which envelopes are dropped -----

  /** The hypotheses about prefixes of a run always hold. */
  lemma {:induction false} PrefixLegal(run: seq<Action>, k: nat)
    requires Legal(run) && k <= |run|
    ensures Legal(run[..k])
  {
    if k < |run| {
      assert run[..|run| - 1][..k] == run[..k];
      PrefixLegal(run[..|run| - 1], k);
    } else {
      assert run[..k] == run;
    }
  }

  /** The k-th step publishes this envelope and finds the queue full or the worker gone. */
  ghost predicate RefusedAt(run: seq<Action>, k: nat, e: nat) {
    && k < |run| && Legal(run[..k]) && run[k] == Publish
    && var s := After(run[..k]); s.published == e && (|s.queue| == QUEUE_CAPACITY || s.worker == Closed)
  }

  ghost predicate Refused(run: seq<Action>, e: nat) {
    exists k: nat :: RefusedAt(run, k, e)
  }

  lemma RefusedInPrefix(run: seq<Action>, e: nat)
    requires run != []
    ensures Refused(run, e) <==> Refused(run[..|run| - 1], e) || RefusedAt(run, |run| - 1, e)
  {
    var before := run[..|run| - 1];
    forall k: nat | k < |before|
      ensures RefusedAt(run, k, e) <==> RefusedAt(before, k, e)
    {
      assert before[..k] == run[..k];
    }
  }

  /** In every run, the dropped envelopes are exactly those that arrived at a full queue or after the worker had closed. */
  lemma {:induction false} DroppedExactlyOnArrival(run: seq<Action>, e: nat)
    requires Legal(run)
    ensures e in After(run).dropped <==> Refused(run, e)
    decreases |run|
  {
    if run != [] {
      var n := |run| - 1;
      DroppedExactlyOnArrival(run[..n], e);
      EveryRun(run[..n]);
      RefusedInPrefix(run, e);
    }
  }

  lemma StepDropsLater(s: State, a: Action, e: nat)
    requires Enabled(s, a)
    ensures s.published <= Step(s, a).published
    ensures e in Step(s, a).dropped ==> e in s.dropped || s.published <= e
  {
  }

  /** Later drops are of later envelopes. */
  lemma {:induction false} LaterDrops(run: seq<Action>, k: nat, e: nat)
    requires Legal(run) && k <= |run| && Legal(run[..k])
    ensures After(run[..k]).published <= After(run).published
    ensures e in After(run).dropped ==> e in After(run[..k]).dropped || After(run[..k]).published <= e
    decreases |run|
  {
    if k == |run| {
      assert run[..k] == run;
    } else {
      var n := |run| - 1;
      assert run[..n][..k] == run[..k];
      LaterDrops(run[..n], k, e);
      StepDropsLater(After(run[..n]), run[n], e);
    }
  }

  lemma PipelinePlaces(s: State, e: nat)
    requires Accounted(s)
    ensures e in Pipeline(s) <==> e < s.published && e !in s.dropped && e !in s.lost
  {
    assert Places(s, e) == One(e < s.published);
    assert e in Pipeline(s) <==> e in s.handed || e in Held(s.worker) || e in s.queue;
  }

  /**
   In every run, an envelope that was once accepted is never dropped to make room
   for a later one: from then on it is handed over, held, queued or lost by the worker.
   */
  lemma AcceptedIsNeverDropped(run: seq<Action>, k: nat, e: nat)
    requires Legal(run) && k <= |run| && Legal(run[..k]) && e in Pipeline(After(run[..k]))
    ensures e !in After(run).dropped
    ensures e in Pipeline(After(run)) || e in After(run).lost
  {
    hide Accounted, Pipeline;
    EveryRun(run[..k]);
    EveryRun(run);
    PipelinePlaces(After(run[..k]), e);
    PipelinePlaces(After(run), e);
    LaterDrops(run, k, e);
  }

  // ----- the sink's methods are steps of a run -----

  /** Publishing to the sink does to its queue what the step does. */
  lemma PublishIsAStep(s: State)
    requires Enabled(s, Publish)
    ensures Step(s, Publish).queue == AfterSend(s.queue, s.worker != Closed, s.published)
  {
  }

  lemma Continue(run: seq<Action>, a: Action)
    requires Legal(run) && Enabled(After(run), a)
    ensures Legal(run + [a]) && After(run + [a]) == Step(After(run), a)
  {
    assert (run + [a])[..|run|] == run;
  }

  /** What the worker's loop does with the envelopes waiting, one after the other. */
  function DrainSteps(queue: seq<nat>, accepts: nat -> bool): seq<Action> {
    if queue == [] then []
    else [Receive, if accepts(queue[0]) then HandOver else Lose] + DrainSteps(queue[1..], accepts)
  }

  lemma DrainOne(run: seq<Action>, accepts: nat -> bool) returns (next: seq<Action>)
    requires Legal(run) && After(run).worker == Receiving && After(run).queue != []
    ensures var s := After(run);
            && next == run + [Receive, if accepts(s.queue[0]) then HandOver else Lose]
            && Legal(next) && After(next).worker == Receiving && After(next).queue == s.queue[1..]
            && After(next).handed == s.handed + Collect([s.queue[0]], Accepts(accepts))
            && After(next).sendersGone == s.sendersGone
  {
    hide Legal, After;
    var s := After(run);
    Continue(run, Receive);
    var last := if accepts(s.queue[0]) then HandOver else Lose;
    Continue(run + [Receive], last);
    next := run + [Receive, last];
    assert run + [Receive] + [last] == next;
    assert [s.queue[0]][..0] == [];
    assert Collect([s.queue[0]], Accepts(accepts)) == if accepts(s.queue[0]) then [s.queue[0]] else [];
  }

  /** From any state in which the worker receives, these steps hand over exactly what `Drain` does. */
  lemma {:induction false} DrainIsARun(run: seq<Action>, accepts: nat -> bool)
    requires Legal(run) && After(run).worker == Receiving
    ensures var s := After(run);
            var drained := run + DrainSteps(s.queue, accepts);
            && Legal(drained) && After(drained).worker == Receiving && After(drained).queue == []
            && After(drained).handed == s.handed + Collect(s.queue, Accepts(accepts))
            && After(drained).sendersGone == s.sendersGone
            && (s.sendersGone ==> Legal(drained + [Stop]) && After(drained + [Stop]).worker == Closed)
    decreases |After(run).queue|
  {
    hide Legal, After, Collect;
    var s := After(run);
    if s.queue == [] {
      assert run + [] == run;
      assert s.handed + Collect(s.queue, Accepts(accepts)) == s.handed by { CollectNothing(Accepts(accepts)); }
    } else {
      var next := DrainOne(run, accepts);
      DrainIsARun(next, accepts);
      var first, rest := [s.queue[0]], s.queue[1..];
      assert s.queue == first + rest;
      CollectConcat(first, rest, Accepts(accepts));
      assert run + DrainSteps(s.queue, accepts) == next + DrainSteps(rest, accepts);
    }
    var drained := run + DrainSteps(s.queue, accepts);
    if s.sendersGone {
      Continue(drained, Stop);
    }
  }

  lemma CollectNothing<X, Y>(pick: X -> Option<Y>)
    ensures Collect([], pick) == []
  {
  }

  /** An open channel takes an envelope exactly while fewer than 1024 wait. */
  lemma CapacityIs(waiting: nat)
    ensures TrySend(waiting, true) == if waiting < 1024 then Accepted else Full
    ensures TrySend(waiting, false) == Disconnected
  {
  }

  // ----- runs can go on -----

  lemma {:induction false} SendersGoneExactly(run: seq<Action>)
    requires Legal(run)
    ensures After(run).sendersGone <==> DropSenders in run
  {
    if run != [] {
      var n := |run| - 1;
      SendersGoneExactly(run[..n]);
      assert run == run[..n] + [run[n]];
    }
  }

  lemma GoesOnExactly(run: seq<Action>, a: Action)
    requires Legal(run)
    ensures Legal(run + [a]) <==> Enabled(After(run), a)
  {
    assert (run + [a])[..|run|] == run;
  }

  /**
   Publishers can publish exactly until they are dropped, which can happen at any time;
   the worker can take its next step, and waits only for an envelope or the end.
   */
  lemma RunsGoOn(run: seq<Action>)
    requires Legal(run)
    ensures Legal(run + [Publish]) <==> DropSenders !in run
    ensures Legal(run + [DropSenders])
    ensures After(run).worker == Connecting <==> Legal(run + [Connected])
    ensures After(run).worker == Connecting <==> Legal(run + [ConnectFailed])
    ensures After(run).worker == Receiving && After(run).queue != [] <==> Legal(run + [Receive])
    ensures After(run).worker.Holding? <==> Legal(run + [HandOver])
    ensures After(run).worker.Holding? <==> Legal(run + [Lose])
    ensures After(run).worker == Receiving && After(run).queue == [] && DropSenders in run <==> Legal(run + [Stop])
  {
    hide Legal, After;
    SendersGoneExactly(run);
    GoesOnExactly(run, Publish);
    GoesOnExactly(run, DropSenders);
    GoesOnExactly(run, Connected);
    GoesOnExactly(run, ConnectFailed);
    GoesOnExactly(run, Receive);
    GoesOnExactly(run, HandOver);
    GoesOnExactly(run, Lose);
    GoesOnExactly(run, Stop);
  }
}
