/**
 The per-tenant cache of role maps: each lookup reads the clock, consults the
 cache under the lock, asks the resolver without it, and takes the lock again to
 store the new map or to fall back on the old one.
 */
module RolesCache {
  import opened Json
  import opened Texts

  type Tenant = string

  /** Lower-cased email to granted roles. */
  type RolesMap = map<string, seq<string>>

  /** A map and the clock reading of the lookup that fetched it. */
  datatype Cached = Cached(fetchedAt: nat, roles: RolesMap)

  type Cache = map<Tenant, Cached>

  // ----- the steps taken under the lock -----

  /** The clock never runs backwards, but a reading may be older than the entry: its age is then zero. */
  function Age(now: nat, fetchedAt: nat): nat {
    if now > fetchedAt then now - fetchedAt else 0
  }

  predicate FreshIn(cache: Cache, tenant: Tenant, now: nat, ttl: nat) {
    tenant in cache && Age(now, cache[tenant].fetchedAt) < ttl
  }

  // ----- one lookup at a time -----

  /** The resolver's answer, should it be asked: a map, or nothing when it fails. */
  type Outcome = Option<RolesMap>

  datatype Lookup = Lookup(tenant: Tenant, now: nat, outcome: Outcome)

  /** The lookup has to ask the resolver. */
  predicate Misses(ttl: nat, cache: Cache, lookup: Lookup) {
    !FreshIn(cache, lookup.tenant, lookup.now, ttl)
  }

  function CacheAfter(ttl: nat, cache: Cache, lookup: Lookup): Cache {
    if Misses(ttl, cache, lookup) && lookup.outcome.Some?
    then cache[lookup.tenant := Cached(lookup.now, lookup.outcome.value)] else cache
  }

  /** The map served: the cached one while fresh, else the fetched one, else whatever is left in the cache. */
  function Served(ttl: nat, cache: Cache, lookup: Lookup): Option<RolesMap> {
    if Misses(ttl, cache, lookup) && lookup.outcome.Some? then lookup.outcome
    else if lookup.tenant in cache then Some(cache[lookup.tenant].roles)
    else None
  }

  /** What a lookup serves when the lock is poisoned, before it starts or while it asks the resolver. */
  function ServedPoisoned(ttl: nat, cache: Cache, lookup: Lookup, before: bool): Option<RolesMap> {
    if before then None
    else if Misses(ttl, cache, lookup) then lookup.outcome
    else Some(cache[lookup.tenant].roles)
  }

  class AdminRolesOverlay {
    const ttl: nat
    var cache: Cache
    /** Some holder of the lock has panicked. */
    var poisoned: bool

    constructor (ttl: nat)
      ensures this.ttl == ttl && cache == map[] && !poisoned
    {
      this.ttl := ttl;
      cache, poisoned := map[], false;
    }

    /** One lookup; `panic` says whether another holder of the lock panics while the resolver is asked. */
    method TenantMap(tenant: Tenant, now: nat, outcome: Outcome, panic: bool) returns (served: Option<RolesMap>)
      modifies this
      ensures old(poisoned) ==> poisoned && served == None && cache == old(cache)
      ensures !old(poisoned) && FreshIn(old(cache), tenant, now, ttl) ==>
                served == Some(old(cache)[tenant].roles) && cache == old(cache) && !poisoned
      ensures !old(poisoned) && !FreshIn(old(cache), tenant, now, ttl) && outcome.Some? ==>
                && served == outcome && poisoned == panic
                && cache == if panic then old(cache) else old(cache)[tenant := Cached(now, outcome.value)]
      ensures !old(poisoned) && !FreshIn(old(cache), tenant, now, ttl) && outcome.None? ==>
                && cache == old(cache) && poisoned == panic
                && served == if !panic && tenant in old(cache) then Some(old(cache)[tenant].roles) else None
      ensures !poisoned ==>
                && cache == CacheAfter(ttl, old(cache), Lookup(tenant, now, outcome))
                && served == Served(ttl, old(cache), Lookup(tenant, now, outcome))
      ensures poisoned ==>
                && cache == old(cache)
                && served == ServedPoisoned(ttl, old(cache), Lookup(tenant, now, outcome), old(poisoned))
    {
      if poisoned {
        return None;
      }
      if FreshIn(cache, tenant, now, ttl) {
        return Some(cache[tenant].roles);
      }
      poisoned := panic;
      match outcome {
        case Some(roles) =>
          if !poisoned {
            cache := cache[tenant := Cached(now, roles)];
          }
          served := Some(roles);
        case None =>
          served := if !poisoned && tenant in cache then Some(cache[tenant].roles) else None;
      }
    }

    /** A caller without an email gets nothing; a known tenant always gets an answer, if only an empty one. */
    method RolesFor(tenant: Tenant, email: Option<string>, now: nat, outcome: Outcome, panic: bool)
      returns (roles: Option<seq<string>>)
      modifies this
      ensures email.None? || Trim(email.value) == "" ==> roles == None && cache == old(cache) && poisoned == old(poisoned)
      ensures email.Some? && Trim(email.value) != "" ==>
                var lookup := Lookup(tenant, now, outcome);
                var key := Lower(Trim(email.value));
                var map' := if poisoned then ServedPoisoned(ttl, old(cache), lookup, old(poisoned))
                            else Served(ttl, old(cache), lookup);
                && cache == (if poisoned then old(cache) else CacheAfter(ttl, old(cache), lookup))
                && (roles.None? <==> map'.None?)
                && (map'.Some? ==> roles.value == if key in map'.value then map'.value[key] else [])
                && (tenant in old(cache) && !poisoned ==> roles.Some?)
    {
      if email.None? {
        return None;
      }
      var key := Lower(Trim(email.value));
      if key == "" {
        return None;
      }
      var served := TenantMap(tenant, now, outcome, panic);
      if served.None? {
        return None;
      }
      roles := Some(if key in served.value then served.value[key] else []);
    }
  }

  /** A successful fetch: whose clock reading it carries and what it brought. */
  datatype Fetch = Fetch(tenant: Tenant, start: nat, roles: RolesMap)

  /** The cache and the successful fetches after a run of lookups, one after the other. */
  function RunCache(ttl: nat, lookups: seq<Lookup>): Cache {
    if lookups == [] then map[]
    else CacheAfter(ttl, RunCache(ttl, lookups[..|lookups| - 1]), lookups[|lookups| - 1])
  }

  function RunFetches(ttl: nat, lookups: seq<Lookup>): seq<Fetch> {
    if lookups == [] then []
    else
      var before, last := lookups[..|lookups| - 1], lookups[|lookups| - 1];
      RunFetches(ttl, before) +
      if Misses(ttl, RunCache(ttl, before), last) && last.outcome.Some?
      then [Fetch(last.tenant, last.now, last.outcome.value)] else []
  }

  /** The last fetch of a tenant in a log. */
  function Latest(fetches: seq<Fetch>, tenant: Tenant): Option<Cached> {
    if fetches == [] then None
    else
      var last := fetches[|fetches| - 1];
      if last.tenant == tenant then Some(Cached(last.start, last.roles))
      else Latest(fetches[..|fetches| - 1], tenant)
  }

  ghost predicate ClockRuns(lookups: seq<Lookup>) {
    forall i, j :: 0 <= i <= j < |lookups| ==> lookups[i].now <= lookups[j].now
  }

  /** The cache is the latest successful fetch of every tenant, nothing more and nothing less. */
  lemma {:induction false} CacheIsLatestFetch(ttl: nat, lookups: seq<Lookup>, tenant: Tenant)
    ensures var cache := RunCache(ttl, lookups);
            (if tenant in cache then Some(cache[tenant]) else None) == Latest(RunFetches(ttl, lookups), tenant)
  {
    if lookups != [] {
      var before, last := lookups[..|lookups| - 1], lookups[|lookups| - 1];
      CacheIsLatestFetch(ttl, before, tenant);
      var log := RunFetches(ttl, before);
      if Misses(ttl, RunCache(ttl, before), last) && last.outcome.Some? {
        var fetch := Fetch(last.tenant, last.now, last.outcome.value);
        assert (log + [fetch])[..|log|] == log;
      } else {
        assert log + [] == log;
      }
    }
  }

  ghost predicate Spaced(fetches: seq<Fetch>, ttl: nat) {
    forall i, j :: 0 <= i < j < |fetches| && fetches[i].tenant == fetches[j].tenant ==>
      fetches[i].start + ttl <= fetches[j].start
  }

  lemma {:induction false} LatestIsLast(fetches: seq<Fetch>, ttl: nat, i: nat)
    requires i < |fetches| && Spaced(fetches, ttl)
    ensures var latest := Latest(fetches, fetches[i].tenant);
            latest.Some? && fetches[i].start <= latest.value.fetchedAt
  {
    var n := |fetches| - 1;
    if fetches[n].tenant != fetches[i].tenant {
      assert fetches[..n][i] == fetches[i];
      LatestIsLast(fetches[..n], ttl, i);
    }
  }

  lemma {:induction false} FetchesInClock(ttl: nat, lookups: seq<Lookup>, now: nat)
    requires forall i :: 0 <= i < |lookups| ==> lookups[i].now <= now
    ensures forall f :: f in RunFetches(ttl, lookups) ==> f.start <= now
  {
    if lookups != [] {
      FetchesInClock(ttl, lookups[..|lookups| - 1], now);
    }
  }

  /** Two successful fetches for one tenant are at least one time-to-live apart. */
  lemma {:induction false} FetchesAreSpaced(ttl: nat, lookups: seq<Lookup>)
    requires ClockRuns(lookups)
    ensures Spaced(RunFetches(ttl, lookups), ttl)
  {
    if lookups != [] {
      var before, last := lookups[..|lookups| - 1], lookups[|lookups| - 1];
      FetchesAreSpaced(ttl, before);
      FetchesInClock(ttl, before, last.now);
      var log := RunFetches(ttl, before);
      if Misses(ttl, RunCache(ttl, before), last) && last.outcome.Some? {
        forall i | 0 <= i < |log| && log[i].tenant == last.tenant
          ensures log[i].start + ttl <= last.now
        {
          CacheIsLatestFetch(ttl, before, last.tenant);
          LatestIsLast(log, ttl, i);
          LatestLogged(log, last.tenant);
        }
      }
    }
  }

  lemma {:induction false} LatestLogged(fetches: seq<Fetch>, tenant: Tenant)
    requires Latest(fetches, tenant).Some?
    ensures var c := Latest(fetches, tenant).value; Fetch(tenant, c.fetchedAt, c.roles) in fetches
  {
    var n := |fetches| - 1;
    if fetches[n].tenant != tenant {
      LatestLogged(fetches[..n], tenant);
    }
  }

  /** An entry is fresh for one time-to-live from the clock reading of its fetch, and to any earlier reading. */
  lemma FreshExactly(cache: Cache, tenant: Tenant, now: nat, ttl: nat)
    ensures FreshIn(cache, tenant, now, ttl) <==> tenant in cache && ttl > 0 && now < cache[tenant].fetchedAt + ttl
  {
  }
}
