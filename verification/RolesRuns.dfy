/**
 Concurrent lookups of the roles cache. Every lookup is a sequence of separate
 steps; any number of lookups interleave in any way, and the clock advances
 between steps as it pleases.
 */
module RolesRuns {
  import opened Json
  import opened RolesCache

  /** Where the map of a finished lookup came from; a hit remembers when the cache was consulted. */
  datatype Answer =
    | Hit(entry: Cached, checkedAt: nat)
    | Fetched(roles: RolesMap)
    | Stale(entry: Cached)
    | Missing

  datatype Phase =
    | Started                          // the clock is read
    | Fetching                         // the cache had nothing fresh, the resolver is being asked
    | Returned(outcome: Outcome)       // the resolver has answered
    | Done(answer: Answer)

  datatype Thread = Thread(tenant: Tenant, now: nat, phase: Phase)

  /** The shared cache, the lookups so far, and the log of successful fetches and of failed ones. */
  datatype State = State(clock: nat, cache: Cache, threads: map<nat, Thread>, fetches: set<Fetch>, failed: set<nat>)

  datatype Action =
    | Tick(elapsed: nat)
    | Begin(id: nat, tenant: Tenant)
    | Check(id: nat)
    | Return(id: nat, outcome: Outcome)
    | Finish(id: nat)

  const START := State(0, map[], map[], {}, {})

  predicate InPhase(s: State, id: nat, phase: Phase) {
    id in s.threads && s.threads[id].phase == phase
  }

  predicate Enabled(s: State, a: Action) {
    match a
    case Tick(_) => true
    case Begin(id, _) => id !in s.threads
    case Check(id) => InPhase(s, id, Started)
    case Return(id, _) => InPhase(s, id, Fetching)
    case Finish(id) => id in s.threads && s.threads[id].phase.Returned?
  }

  function Move(s: State, id: nat, phase: Phase): State
    requires id in s.threads
  {
    s.(threads := s.threads[id := s.threads[id].(phase := phase)])
  }

  /** One step of one lookup, or of the clock. */
  function Step(ttl: nat, s: State, a: Action): State
    requires Enabled(s, a)
  {
    match a
    case Tick(elapsed) => s.(clock := s.clock + elapsed)
    case Begin(id, tenant) => s.(threads := s.threads[id := Thread(tenant, s.clock, Started)])
    case Check(id) =>
      var t := s.threads[id];
      if FreshIn(s.cache, t.tenant, t.now, ttl) then Move(s, id, Done(Hit(s.cache[t.tenant], s.clock)))
      else Move(s, id, Fetching)
    case Return(id, outcome) =>
      var t := s.threads[id];
      var moved := Move(s, id, Returned(outcome));
      if outcome.Some? then moved.(fetches := s.fetches + {Fetch(t.tenant, t.now, outcome.value)})
      else moved.(failed := s.failed + {id})
    case Finish(id) =>
      var t := s.threads[id];
      match t.phase.outcome
      case Some(roles) => Move(s, id, Done(Fetched(roles))).(cache := s.cache[t.tenant := Cached(t.now, roles)])
      case None => Move(s, id, Done(if t.tenant in s.cache then Stale(s.cache[t.tenant]) else Missing))
  }

  /** A run is any sequence of steps each of which is enabled when it is taken. */
  ghost predicate Legal(ttl: nat, run: seq<Action>)
    decreases |run|, 0
  {
    run == [] ||
    (Legal(ttl, run[..|run| - 1]) && Enabled(After(ttl, run[..|run| - 1]), run[|run| - 1]))
  }

  ghost function After(ttl: nat, run: seq<Action>): State
    requires Legal(ttl, run)
    decreases |run|, 1
  {
    if run == [] then START else Step(ttl, After(ttl, run[..|run| - 1]), run[|run| - 1])
  }

  lemma Continue(ttl: nat, run: seq<Action>, a: Action)
    requires Legal(ttl, run) && Enabled(After(ttl, run), a)
    ensures Legal(ttl, run + [a]) && After(ttl, run + [a]) == Step(ttl, After(ttl, run), a)
  {
    assert (run + [a])[..|run|] == run;
  }

  // ----- what every reachable state satisfies -----

  ghost predicate Logged(s: State, tenant: Tenant, entry: Cached) {
    Fetch(tenant, entry.fetchedAt, entry.roles) in s.fetches
  }

  /** The origin of a lookup's map, given its tenant and clock reading. */
  ghost predicate AnswerJustified(ttl: nat, s: State, id: nat, t: Thread, answer: Answer) {
    match answer
    case Hit(entry, checkedAt) =>
      && Logged(s, t.tenant, entry) && id !in s.failed
      && t.now < entry.fetchedAt + ttl && entry.fetchedAt <= checkedAt && t.now <= checkedAt
    case Fetched(roles) => Fetch(t.tenant, t.now, roles) in s.fetches && id !in s.failed
    case Stale(entry) => Logged(s, t.tenant, entry) && id in s.failed
    case Missing => id in s.failed
  }

  ghost predicate ThreadJustified(ttl: nat, s: State, id: nat, t: Thread) {
    && t.now <= s.clock
    && match t.phase
       case Started => id !in s.failed
       case Fetching => id !in s.failed
       case Returned(Some(roles)) => Fetch(t.tenant, t.now, roles) in s.fetches && id !in s.failed
       case Returned(None) => id in s.failed
       case Done(answer) => AnswerJustified(ttl, s, id, t, answer)
  }

  ghost predicate Inv(ttl: nat, s: State) {
    && (forall f :: f in s.fetches ==> f.start <= s.clock)
    && (forall tenant :: tenant in s.cache ==> Logged(s, tenant, s.cache[tenant]))
    && (forall id :: id in s.threads ==> ThreadJustified(ttl, s, id, s.threads[id]))
    && (forall id :: id in s.failed ==> id in s.threads)
  }

  predicate Moves(a: Action, id: nat) {
    !a.Tick? && a.id == id
  }

  /** A lookup that does not move stays justified: the logs only grow, and only by the one that moves. */
  lemma OtherStaysJustified(ttl: nat, s: State, a: Action, id: nat)
    requires Enabled(s, a) && !Moves(a, id) && id in s.threads && ThreadJustified(ttl, s, id, s.threads[id])
    ensures var s' := Step(ttl, s, a); id in s'.threads && ThreadJustified(ttl, s', id, s'.threads[id])
  {
  }

  lemma MoverIsJustified(ttl: nat, s: State, a: Action, id: nat)
    requires Inv(ttl, s) && Enabled(s, a) && Moves(a, id)
    ensures var s' := Step(ttl, s, a); id in s'.threads && ThreadJustified(ttl, s', id, s'.threads[id])
  {
    assert id in s.threads ==> ThreadJustified(ttl, s, id, s.threads[id]);
  }

  lemma LogsStayJustified(ttl: nat, s: State, a: Action)
    requires Inv(ttl, s) && Enabled(s, a)
    ensures var s' := Step(ttl, s, a);
            && (forall f :: f in s'.fetches ==> f.start <= s'.clock)
            && (forall tenant :: tenant in s'.cache ==> Logged(s', tenant, s'.cache[tenant]))
            && (forall id :: id in s'.failed ==> id in s'.threads)
  {
    if !a.Tick? && a.id in s.threads {
      assert ThreadJustified(ttl, s, a.id, s.threads[a.id]);
    }
  }

  lemma StepKeepsInv(ttl: nat, s: State, a: Action)
    requires Inv(ttl, s) && Enabled(s, a)
    ensures Inv(ttl, Step(ttl, s, a))
  {
    hide ThreadJustified, Logged;
    var s' := Step(ttl, s, a);
    LogsStayJustified(ttl, s, a);
    forall id | id in s'.threads
      ensures ThreadJustified(ttl, s', id, s'.threads[id])
    {
      if Moves(a, id) {
        MoverIsJustified(ttl, s, a, id);
      } else {
        OtherStaysJustified(ttl, s, a, id);
      }
    }
  }

  lemma {:induction false} RunKeepsInv(ttl: nat, run: seq<Action>)
    requires Legal(ttl, run)
    ensures Inv(ttl, After(ttl, run))
  {
    if run != [] {
      RunKeepsInv(ttl, run[..|run| - 1]);
      StepKeepsInv(ttl, After(ttl, run[..|run| - 1]), run[|run| - 1]);
    }
  }

  /**
   In every interleaving, a map served from the cache was fetched for the same
   tenant by a lookup that read its clock less than one time-to-live before this
   one did; a stale map, or none, is served only after the lookup's own fetch failed.
   */
  lemma ServedMapsAreJustified(ttl: nat, run: seq<Action>, id: nat)
    requires Legal(ttl, run) && id in After(ttl, run).threads && After(ttl, run).threads[id].phase.Done?
    ensures var s := After(ttl, run);
            var t := s.threads[id];
            match t.phase.answer
            case Hit(entry, checkedAt) => Fetch(t.tenant, entry.fetchedAt, entry.roles) in s.fetches && t.now < entry.fetchedAt + ttl
            case Fetched(roles) => Fetch(t.tenant, t.now, roles) in s.fetches
            case Stale(entry) => Fetch(t.tenant, entry.fetchedAt, entry.roles) in s.fetches && id in s.failed
            case Missing => id in s.failed
  {
    RunKeepsInv(ttl, run);
    assert ThreadJustified(ttl, After(ttl, run), id, After(ttl, run).threads[id]);
  }

  // ----- a tenant once served is always served -----

  lemma {:induction false} CacheNeverForgets(ttl: nat, run: seq<Action>, k: nat, tenant: Tenant)
    requires Legal(ttl, run) && k <= |run| && Legal(ttl, run[..k]) && tenant in After(ttl, run[..k]).cache
    ensures tenant in After(ttl, run).cache
    decreases |run|
  {
    if k < |run| {
      var n := |run| - 1;
      assert run[..n][..k] == run[..k];
      CacheNeverForgets(ttl, run[..n], k, tenant);
    } else {
      assert run[..k] == run;
    }
  }

  /** The hypotheses about prefixes of a run always hold. */
  lemma {:induction false} PrefixLegal(ttl: nat, run: seq<Action>, k: nat)
    requires Legal(ttl, run) && k <= |run|
    ensures Legal(ttl, run[..k])
  {
    if k < |run| {
      assert run[..|run| - 1][..k] == run[..k];
      PrefixLegal(ttl, run[..|run| - 1], k);
    } else {
      assert run[..k] == run;
    }
  }

  /** A lookup still unfinished when some map was stored for its tenant never ends without a map. */
  lemma {:induction false} StoredTenantIsServed(ttl: nat, run: seq<Action>, k: nat, id: nat)
    requires Legal(ttl, run) && k <= |run| && Legal(ttl, run[..k])
    requires id in After(ttl, run).threads && After(ttl, run).threads[id].tenant in After(ttl, run[..k]).cache
    requires !(id in After(ttl, run[..k]).threads && After(ttl, run[..k]).threads[id].phase.Done?)
    ensures After(ttl, run).threads[id].phase != Done(Missing)
    decreases |run|
  {
    hide Step, Enabled;
    if k == |run| {
      assert run[..k] == run;
    } else {
      var n := |run| - 1;
      assert run[..n][..k] == run[..k];
      var s := After(ttl, run[..n]);
      if id in s.threads {
        TenantStays(ttl, s, run[n], id);
        StoredTenantIsServed(ttl, run[..n], k, id);
        CacheNeverForgets(ttl, run[..n], k, s.threads[id].tenant);
        StepServesStored(ttl, s, run[n], id);
      } else {
        NewIsNotDone(ttl, s, run[n], id);
      }
    }
  }

  lemma TenantStays(ttl: nat, s: State, a: Action, id: nat)
    requires Enabled(s, a) && id in s.threads
    ensures id in Step(ttl, s, a).threads && Step(ttl, s, a).threads[id].tenant == s.threads[id].tenant
  {
  }

  lemma StepServesStored(ttl: nat, s: State, a: Action, id: nat)
    requires Enabled(s, a) && id in s.threads && s.threads[id].phase != Done(Missing) && s.threads[id].tenant in s.cache
    ensures id in Step(ttl, s, a).threads && Step(ttl, s, a).threads[id].phase != Done(Missing)
  {
  }

  lemma NewIsNotDone(ttl: nat, s: State, a: Action, id: nat)
    requires Enabled(s, a) && id !in s.threads && id in Step(ttl, s, a).threads
    ensures Step(ttl, s, a).threads[id].phase == Started
  {
  }

  // ----- how far from the clock reading a fresh map can be -----

  /** Consulting the cache within one time-to-live of reading the clock bounds the distance on both sides. */
  lemma PromptLookupIsClose(ttl: nat, run: seq<Action>, id: nat)
    requires Legal(ttl, run) && id in After(ttl, run).threads
    requires After(ttl, run).threads[id].phase.Done? && After(ttl, run).threads[id].phase.answer.Hit?
    requires var t := After(ttl, run).threads[id]; t.phase.answer.checkedAt < t.now + ttl
    ensures var t := After(ttl, run).threads[id];
            var start := t.phase.answer.entry.fetchedAt;
            t.now < start + ttl && start < t.now + ttl
  {
    RunKeepsInv(ttl, run);
    assert ThreadJustified(ttl, After(ttl, run), id, After(ttl, run).threads[id]);
  }

  /** One lookup stalls after reading the clock; another starts `delay` later and fills the cache. */
  function Overtaken(tenant: Tenant, roles: RolesMap, delay: nat): seq<Action> {
    [Begin(0, tenant)] + [Tick(delay)] + [Begin(1, tenant)] + [Check(1)] + [Return(1, Some(roles))] + [Finish(1)] + [Check(0)]
  }

  /** The state just before the stalled lookup consults the cache. */
  lemma OvertakenPrefix(ttl: nat, tenant: Tenant, roles: RolesMap, delay: nat)
    ensures var run := [Begin(0, tenant)] + [Tick(delay)] + [Begin(1, tenant)] + [Check(1)] + [Return(1, Some(roles))] + [Finish(1)];
            && Legal(ttl, run)
            && After(ttl, run).cache == map[tenant := Cached(delay, roles)]
            && After(ttl, run).clock == delay
            && 0 in After(ttl, run).threads && After(ttl, run).threads[0] == Thread(tenant, 0, Started)
  {
    hide Legal, After;
    assert Legal(ttl, []) && After(ttl, []) == START by {
      StartIsLegal(ttl);
    }
    var r1 := [Begin(0, tenant)];
    assert [] + r1 == r1;
    Continue(ttl, [], Begin(0, tenant));
    var r2 := r1 + [Tick(delay)];
    Continue(ttl, r1, Tick(delay));
    var r3 := r2 + [Begin(1, tenant)];
    Continue(ttl, r2, Begin(1, tenant));
    var r4 := r3 + [Check(1)];
    Continue(ttl, r3, Check(1));
    var r5 := r4 + [Return(1, Some(roles))];
    Continue(ttl, r4, Return(1, Some(roles)));
    Continue(ttl, r5, Finish(1));
  }

  lemma StartIsLegal(ttl: nat)
    ensures Legal(ttl, []) && After(ttl, []) == START
  {
  }

  /**
   The bound is one-sided: for every delay a run exists in which the map served as
   fresh was fetched that much after the lookup's own clock reading.
   */
  lemma OvertakenLookupSeesTheFuture(ttl: nat, tenant: Tenant, roles: RolesMap, delay: nat)
    requires ttl > 0
    ensures var run := Overtaken(tenant, roles, delay);
            && Legal(ttl, run)
            && 0 in After(ttl, run).threads
            && After(ttl, run).threads[0] == Thread(tenant, 0, Done(Hit(Cached(delay, roles), delay)))
  {
    hide Legal, After;
    OvertakenPrefix(ttl, tenant, roles, delay);
    var run := [Begin(0, tenant)] + [Tick(delay)] + [Begin(1, tenant)] + [Check(1)] + [Return(1, Some(roles))] + [Finish(1)];
    Continue(ttl, run, Check(0));
  }

  /** A lookup that consulted the cache `delay` after reading the clock, and found a fresh map there. */
  ghost predicate HitAfter(t: Thread, delay: nat) {
    t.phase.Done? && t.phase.answer.Hit? && t.phase.answer.checkedAt == t.now + delay
  }

  ghost predicate WithinTtl(ttl: nat, t: Thread)
    requires t.phase.Done? && t.phase.answer.Hit?
  {
    var start := t.phase.answer.entry.fetchedAt;
    t.now < start + ttl && start < t.now + ttl
  }

  /**
   In every run every hit consulted `delay` after its clock reading lies within one
   time-to-live of it on both sides, if and only if the delay is below the time-to-live.
   */
  lemma HitsAreCloseExactlyWhenPrompt(ttl: nat, delay: nat)
    requires ttl > 0
    ensures delay < ttl <==>
            forall run, id :: Legal(ttl, run) && id in After(ttl, run).threads && HitAfter(After(ttl, run).threads[id], delay) ==>
              WithinTtl(ttl, After(ttl, run).threads[id])
  {
    hide Legal, After;
    if delay < ttl {
      forall run, id | Legal(ttl, run) && id in After(ttl, run).threads && HitAfter(After(ttl, run).threads[id], delay)
        ensures WithinTtl(ttl, After(ttl, run).threads[id])
      {
        PromptLookupIsClose(ttl, run, id);
      }
    } else {
      OvertakenLookupSeesTheFuture(ttl, "", map[], delay);
      var late := After(ttl, Overtaken("", map[], delay)).threads[0];
      assert HitAfter(late, delay) && !WithinTtl(ttl, late);
    }
  }

  // ----- when the cache keeps the latest fetch -----

  /** A slow fetch and, started `delay` later, a quick one that is stored before it. */
  function SlowAndQuick(tenant: Tenant, slow: RolesMap, quick: RolesMap, delay: nat): seq<Action> {
    [Begin(0, tenant)] + [Check(0)] + [Tick(delay)] + [Begin(1, tenant)] + [Check(1)] + [Return(1, Some(quick))]
    + [Finish(1)] + [Return(0, Some(slow))] + [Finish(0)]
  }

  /**
   Interleaved lookups need not leave the latest fetch in the cache: the map of an
   earlier lookup whose resolver was slow replaces a newer one.
   */
  lemma SlowFetchOverwritesNewer(ttl: nat, tenant: Tenant, slow: RolesMap, quick: RolesMap, delay: nat)
    ensures var run := SlowAndQuick(tenant, slow, quick, delay);
            && Legal(ttl, run)
            && Fetch(tenant, delay, quick) in After(ttl, run).fetches
            && tenant in After(ttl, run).cache && After(ttl, run).cache[tenant] == Cached(0, slow)
  {
    hide Legal, After;
    StartIsLegal(ttl);
    var r1 := [Begin(0, tenant)];
    assert [] + r1 == r1;
    Continue(ttl, [], Begin(0, tenant));
    var r2 := r1 + [Check(0)];
    Continue(ttl, r1, Check(0));
    var r3 := r2 + [Tick(delay)];
    Continue(ttl, r2, Tick(delay));
    var r4 := r3 + [Begin(1, tenant)];
    Continue(ttl, r3, Begin(1, tenant));
    var r5 := r4 + [Check(1)];
    Continue(ttl, r4, Check(1));
    var r6 := r5 + [Return(1, Some(quick))];
    Continue(ttl, r5, Return(1, Some(quick)));
    var r7 := r6 + [Finish(1)];
    Continue(ttl, r6, Finish(1));
    var r8 := r7 + [Return(0, Some(slow))];
    Continue(ttl, r7, Return(0, Some(slow)));
    Continue(ttl, r8, Finish(0));
  }

  /** The lookup has stored the map it fetched. */
  predicate HasStored(t: Thread) {
    t.phase.Done? && t.phase.answer.Fetched?
  }

  /** What the cache holds for a tenant is at least as new as every map stored for it so far. */
  ghost predicate LatestKept(s: State) {
    forall id :: id in s.threads && HasStored(s.threads[id]) ==>
      && s.threads[id].tenant in s.cache
      && s.threads[id].now <= s.cache[s.threads[id].tenant].fetchedAt
  }

  /** The step replaces an entry by a map of an earlier clock reading. */
  predicate Regresses(s: State, a: Action)
    requires Enabled(s, a)
  {
    && a.Finish? && s.threads[a.id].phase.outcome.Some?
    && var t := s.threads[a.id]; t.tenant in s.cache && t.now < s.cache[t.tenant].fetchedAt
  }

  /** Every entry was stored by a lookup that is done. */
  ghost predicate EntriesAreStored(s: State) {
    forall tenant :: tenant in s.cache ==>
      exists id :: id in s.threads && HasStored(s.threads[id])
        && s.threads[id].tenant == tenant && s.threads[id].now == s.cache[tenant].fetchedAt
  }

  lemma StepKeepsEntriesStored(ttl: nat, s: State, a: Action)
    requires EntriesAreStored(s) && Enabled(s, a)
    ensures EntriesAreStored(Step(ttl, s, a))
  {
    var s' := Step(ttl, s, a);
    forall tenant | tenant in s'.cache
      ensures exists id :: id in s'.threads && HasStored(s'.threads[id])
                && s'.threads[id].tenant == tenant && s'.threads[id].now == s'.cache[tenant].fetchedAt
    {
      if a.Finish? && HasStored(s'.threads[a.id]) && s.threads[a.id].tenant == tenant {
        assert s'.threads[a.id].now == s'.cache[tenant].fetchedAt;
      } else {
        var id :| id in s.threads && HasStored(s.threads[id])
                  && s.threads[id].tenant == tenant && s.threads[id].now == s.cache[tenant].fetchedAt;
        assert s'.threads[id] == s.threads[id];
      }
    }
  }

  lemma {:induction false} RunKeepsEntriesStored(ttl: nat, run: seq<Action>)
    requires Legal(ttl, run)
    ensures EntriesAreStored(After(ttl, run))
  {
    if run != [] {
      RunKeepsEntriesStored(ttl, run[..|run| - 1]);
      StepKeepsEntriesStored(ttl, After(ttl, run[..|run| - 1]), run[|run| - 1]);
    }
  }

  lemma StepKeepsLatest(ttl: nat, s: State, a: Action)
    requires LatestKept(s) && Enabled(s, a) && !Regresses(s, a)
    ensures LatestKept(Step(ttl, s, a))
  {
    var s' := Step(ttl, s, a);
    forall id | id in s'.threads && HasStored(s'.threads[id])
      ensures s'.threads[id].tenant in s'.cache && s'.threads[id].now <= s'.cache[s'.threads[id].tenant].fetchedAt
    {
      assert (id in s.threads && HasStored(s.threads[id])) || a == Finish(id);
    }
  }

  lemma RegressionLosesLatest(ttl: nat, s: State, a: Action)
    requires EntriesAreStored(s) && Enabled(s, a) && Regresses(s, a)
    ensures !LatestKept(Step(ttl, s, a))
  {
    var s', tenant := Step(ttl, s, a), s.threads[a.id].tenant;
    var id :| id in s.threads && HasStored(s.threads[id])
              && s.threads[id].tenant == tenant && s.threads[id].now == s.cache[tenant].fetchedAt;
    assert s'.threads[id] == s.threads[id];
  }

  ghost predicate AlwaysLatest(ttl: nat, run: seq<Action>) {
    forall k: nat :: k <= |run| && Legal(ttl, run[..k]) ==> LatestKept(After(ttl, run[..k]))
  }

  ghost predicate NeverRegresses(ttl: nat, run: seq<Action>) {
    forall k: nat :: k < |run| && Legal(ttl, run[..k]) && Enabled(After(ttl, run[..k]), run[k]) ==>
      !Regresses(After(ttl, run[..k]), run[k])
  }

  lemma StepInRun(ttl: nat, run: seq<Action>, k: nat)
    requires Legal(ttl, run) && k < |run|
    ensures Legal(ttl, run[..k]) && Enabled(After(ttl, run[..k]), run[k])
    ensures Legal(ttl, run[..k + 1]) && After(ttl, run[..k + 1]) == Step(ttl, After(ttl, run[..k]), run[k])
  {
    PrefixLegal(ttl, run, k + 1);
    assert run[..k + 1][..k] == run[..k];
  }

  lemma StartKeepsLatest()
    ensures LatestKept(START)
  {
  }

  lemma {:induction false} WithoutRegressionLatest(ttl: nat, run: seq<Action>, k: nat)
    requires Legal(ttl, run) && NeverRegresses(ttl, run) && k <= |run|
    ensures Legal(ttl, run[..k]) && LatestKept(After(ttl, run[..k]))
  {
    hide Legal, After, LatestKept, Regresses;
    if k == 0 {
      assert run[..0] == [];
      StartIsLegal(ttl);
      StartKeepsLatest();
    } else {
      WithoutRegressionLatest(ttl, run, k - 1);
      StepInRun(ttl, run, k - 1);
      StepKeepsLatest(ttl, After(ttl, run[..k - 1]), run[k - 1]);
    }
  }

  /**
   In every interleaving, the cache holds the latest stored fetch of every tenant all
   along if and only if no lookup stores its map over one of a later clock reading.
   */
  lemma LatestKeptExactly(ttl: nat, run: seq<Action>)
    requires Legal(ttl, run)
    ensures AlwaysLatest(ttl, run) <==> NeverRegresses(ttl, run)
  {
    hide Legal, After, LatestKept, Regresses;
    if NeverRegresses(ttl, run) {
      forall k: nat | k <= |run| && Legal(ttl, run[..k])
        ensures LatestKept(After(ttl, run[..k]))
      {
        WithoutRegressionLatest(ttl, run, k);
      }
    } else {
      var k: nat :| k < |run| && Legal(ttl, run[..k]) && Enabled(After(ttl, run[..k]), run[k])
                    && Regresses(After(ttl, run[..k]), run[k]);
      StepInRun(ttl, run, k);
      RunKeepsEntriesStored(ttl, run[..k]);
      RegressionLosesLatest(ttl, After(ttl, run[..k]), run[k]);
    }
  }

  // ----- the sequential model is a special case -----

  function AnswerRoles(answer: Answer): Option<RolesMap> {
    match answer
    case Hit(entry, _) => Some(entry.roles)
    case Fetched(roles) => Some(roles)
    case Stale(entry) => Some(entry.roles)
    case Missing => None
  }

  /** Steps that carry one lookup from its clock reading to its answer. */
  ghost predicate FinishesAs(ttl: nat, run: seq<Action>, id: nat, cache: Cache, served: Option<RolesMap>) {
    && Legal(ttl, run) && After(ttl, run).cache == cache && id in After(ttl, run).threads
    && After(ttl, run).threads[id].phase.Done?
    && AnswerRoles(After(ttl, run).threads[id].phase.answer) == served
  }

  /** Run without interruption, the steps of a lookup are exactly the one-at-a-time lookup. */
  lemma UninterruptedIsSequential(ttl: nat, run: seq<Action>, id: nat, tenant: Tenant, outcome: Outcome)
    requires Legal(ttl, run) && id !in After(ttl, run).threads
    ensures var s := After(ttl, run);
            var lookup := Lookup(tenant, s.clock, outcome);
            var asked := run + [Begin(id, tenant)] + [Check(id)];
            var steps := if Misses(ttl, s.cache, lookup) then asked + [Return(id, outcome)] + [Finish(id)] else asked;
            FinishesAs(ttl, steps, id, CacheAfter(ttl, s.cache, lookup), Served(ttl, s.cache, lookup))
  {
    hide Legal, After;
    var s := After(ttl, run);
    var begun := run + [Begin(id, tenant)];
    Continue(ttl, run, Begin(id, tenant));
    var asked := begun + [Check(id)];
    Continue(ttl, begun, Check(id));
    if Misses(ttl, s.cache, Lookup(tenant, s.clock, outcome)) {
      var answered := asked + [Return(id, outcome)];
      Continue(ttl, asked, Return(id, outcome));
      Continue(ttl, answered, Finish(id));
    }
  }

  // ----- runs can go on -----

  lemma GoesOnExactly(ttl: nat, run: seq<Action>, a: Action)
    requires Legal(ttl, run)
    ensures Legal(ttl, run + [a]) <==> Enabled(After(ttl, run), a)
  {
    assert (run + [a])[..|run|] == run;
  }

  /** New lookups can begin and the clock can advance at any time; a lookup can take its next step, and no other, whatever the resolver says. */
  lemma RunsGoOn(ttl: nat, run: seq<Action>, id: nat, tenant: Tenant, outcome: Outcome, elapsed: nat)
    requires Legal(ttl, run)
    ensures Legal(ttl, run + [Tick(elapsed)]) && After(ttl, run + [Tick(elapsed)]).clock == After(ttl, run).clock + elapsed
    ensures var threads := After(ttl, run).threads;
            && (Legal(ttl, run + [Begin(id, tenant)]) <==> id !in threads)
            && (Legal(ttl, run + [Check(id)]) <==> id in threads && threads[id].phase == Started)
            && (Legal(ttl, run + [Return(id, outcome)]) <==> id in threads && threads[id].phase == Fetching)
            && (Legal(ttl, run + [Finish(id)]) <==> id in threads && threads[id].phase.Returned?)
  {
    hide Legal, After;
    Continue(ttl, run, Tick(elapsed));
    GoesOnExactly(ttl, run, Begin(id, tenant));
    GoesOnExactly(ttl, run, Check(id));
    GoesOnExactly(ttl, run, Return(id, outcome));
    GoesOnExactly(ttl, run, Finish(id));
  }
}
