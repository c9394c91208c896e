/**
 * What each event does to a request and to the shared cache, by what the cache holds and what the
 * fetch brings; and when a request is told that no keys could be had.
 */
module FetchMeaning {
  import opened Bytes
  import opened DirectoryFetch
  import opened FetchInvariants
  import opened KeyCurrency
  import opened KeyZone

  // ----- Events -----

  /** The request before a step and after it. */
  ghost predicate Steps(parse: Parser, s: Sys, e: Event, c: Ctx, t: Sys, d: Ctx) {
    e.id in s.ctxs && s.ctxs[e.id] == c && t == Step(parse, s, e) && e.id in t.ctxs && t.ctxs[e.id] == d
  }

  /** A first lookup, by what the cache holds for the host. */
  lemma LookupMeans(z: Zone, h: bytes, now: int, m: Memory, c: Ctx, covered: bool)
    requires c.stage == Idle && !c.done && c.jwks == []
    ensures var d := Looked(c, h, Lookup(z, h, now, m).1, covered, now);
      var shown := HasKeys(z, h) && m.copy;
      var current, busy := Current(z, h, now), !Current(z, h, now) && UnderFetch(z, h, now);
      && d.host == h
      && ((current || busy) && shown ==> d.jwks == z.nodes[h].jwks && d.generation == z.nodes[h].generation)
      && ((current || busy) && shown ==> d.unavailable == c.unavailable && d.claimed == c.claimed)
      && (current && shown ==> d.stage == if covered then Over else Uncovered)
      && (busy && shown ==> d.stage == Over)
      && (!current && !busy && (h in z.nodes || HasRoom(m)) ==>
            d.stage == Holding && d.claimed && d.since == now && d.claims == c.claims + 1 && d.jwks == [])
      && (((current || busy) && !shown) || (h !in z.nodes && !HasRoom(m)) ==>
            d.stage == Over && d.jwks == [] && d.unavailable && d.claimed == c.claimed)
  {
    hide Lookup;
    LookupExactly(z, h, now, m);
    LookupYields(z, h, now, m);
  }

  /** That is what the step makes of the request and of the zone. */
  lemma LookupSteps(parse: Parser, s: Sys, e: Event, c: Ctx, t: Sys, d: Ctx)
    requires Steps(parse, s, e, c, t, d) && e.action.DoLookup? && c.stage == Idle && !c.done
    ensures var (z, f) := Lookup(s.zone, e.action.host, e.now, e.action.memory);
      t.zone == z && d == Looked(c, e.action.host, f, e.action.covered, e.now)
  {
    hide Lookup, Resolve, Looked;
  }

  /** A rotation: with the right it goes on to fetch, without it the request ends with the keys it has. */
  lemma RotateMeans(parse: Parser, s: Sys, e: Event, c: Ctx, t: Sys, d: Ctx)
    requires Steps(parse, s, e, c, t, d) && e.action.DoRotate? && c.stage == Uncovered
    ensures var ok := ClaimRotation(s.zone, c.host, e.now, e.action.retryTtl).1;
      && d.jwks == c.jwks && d.generation == c.generation && d.unavailable == c.unavailable
      && (ok ==> d.stage == Holding && d.claimed && d.since == e.now && d.claims == c.claims + 1)
      && (!ok ==> d.stage == Over && d.directoryDone && d.claimed == c.claimed && t.zone == s.zone)
  {
    RotationExactly(s.zone, c.host, e.now, e.action.retryTtl);
  }

  /** Setting up: the backstop and then the subrequest; without both the right is given back, to retry later. */
  lemma SetupMeans(parse: Parser, s: Sys, e: Event, c: Ctx, t: Sys, d: Ctx)
    requires Steps(parse, s, e, c, t, d) && e.action.DoSetup? && c.stage == Holding
    ensures var ready := e.action.cleanupOk && e.action.postOk;
      && (ready ==> d == c.(stage := Waiting, cleanup := true) && t.zone == s.zone)
      && (!ready ==> d.stage == Over && !d.claimed && d.given == c.given + 1 && d.jwks == c.jwks
                     && d.unavailable == (c.unavailable || c.jwks == []) && d.cleanup == e.action.cleanupOk
                     && t.zone == Release(s.zone, c.host, e.now + e.action.retryTtl))
  {
  }

  /** The body is one the fetch may keep: accepted, not empty, and a key set. */
  predicate Keepable(parse: Parser, body: Option<bytes>) { body.Some? && |body.value| > 0 && parse(body.value).Some? }

  predicate Kept(n: Node, body: bytes, expiresAt: int, generation: nat) {
    n.jwks == body && n.expiresAt == expiresAt && n.generation == generation && !n.fetching
  }

  /**
   * A fetch that brings a key set: the request holds it, and the zone keeps it for its time to live
   * when it has room.
   */
  lemma FetchedMeans(parse: Parser, s: Sys, e: Event, c: Ctx, t: Sys, d: Ctx)
    requires Steps(parse, s, e, c, t, d) && e.action.DoFetched? && c.stage == Waiting && Keepable(parse, e.action.body)
    ensures var (body, m) := (e.action.body.value, e.action.memory);
      && d.stage == Over && d.directoryDone && d.jwks == body && d.unavailable == c.unavailable
      && !d.claimed && d.given == c.given + 1
      && (d.generation != 0 <==> (c.host in s.zone.nodes || HasRoom(m)) && m.keys)
      && (d.generation != 0 ==>
            c.host in t.zone.nodes && Kept(t.zone.nodes[c.host], body, e.now + e.action.ttl, d.generation))
      && (d.generation == 0 && c.host in t.zone.nodes ==>
            t.zone.nodes[c.host].expiresAt == e.now + e.action.minTtl && !t.zone.nodes[c.host].fetching)
  {
    hide Store, Logged;
    StoreSets(s.zone, c.host, e.action.body.value, e.now + e.action.ttl, e.now, e.action.minTtl, e.action.memory);
  }

  /**
   * A fetch that brings nothing: the request ends with the keys it has, and the host is retried no
   * sooner than allowed.
   */
  lemma FetchFailedMeans(parse: Parser, s: Sys, e: Event, c: Ctx, t: Sys, d: Ctx)
    requires Steps(parse, s, e, c, t, d) && e.action.DoFetched? && c.stage == Waiting && !Keepable(parse, e.action.body)
    ensures d.stage == Over && d.directoryDone && d.jwks == c.jwks && d.generation == c.generation
    ensures d.unavailable == (c.unavailable || c.jwks == []) && !d.claimed && d.given == c.given + 1
    ensures t.zone == Release(s.zone, c.host, e.now + e.action.minTtl)
  {
    hide Store, Logged, Release;
  }

  /** A pool that is destroyed gives back a right still held, and only then touches the zone. */
  lemma DestroyMeans(parse: Parser, s: Sys, e: Event, c: Ctx, t: Sys, d: Ctx)
    requires Steps(parse, s, e, c, t, d) && e.action.DoDestroy? && c.stage != Holding
    ensures var held := c.cleanup && c.claimed;
      && d.stage == Over && d.given == c.given + (if held then 1 else 0) && d.claimed == (c.claimed && !held)
      && t.zone == (if held then Release(s.zone, c.host, e.now + e.action.retryTtl) else s.zone)
      && d.jwks == c.jwks && d.unavailable == c.unavailable
  {
    hide Release;
  }

  /** A request that is not eligible never reaches the zone; one that is not allowed is flagged as without keys. */
  lemma IneligibleMeans(parse: Parser, s: Sys, e: Event, c: Ctx, t: Sys, d: Ctx)
    requires Steps(parse, s, e, c, t, d) && e.action.Ineligible? && c.stage == Idle
    ensures t.zone == s.zone && d.stage == Over && d.directoryDone && d.jwks == c.jwks
    ensures d.unavailable == (c.unavailable || (!e.action.allowed && c.jwks == []))
  {
  }

  // ----- The worker's cache -----

  /**
   * Resolving parses once: what it parsed under a generation is in the worker's cache when that
   * works, and answers from then on.
   */
  lemma ResolveKeeps(parse: Parser, slots: Slots, c: Ctx, works: bool, pushedOut: Option<bytes>)
    requires c.jwks != [] && c.generation != 0
    ensures var (slots', keys) := Resolve(parse, slots, c, works, pushedOut);
      var cached := c.host in slots && slots[c.host].0 == c.generation;
      && (cached ==> slots' == slots && keys == Some(slots[c.host].1))
      && (!cached ==> keys == parse(c.jwks))
      && (!cached && works && keys.Some? ==> c.host in slots' && slots'[c.host] == (c.generation, keys.value))
      && (!cached && !(works && keys.Some?) ==> slots' == slots)
  {
  }

  /** Without a key set there is nothing to resolve; without a generation nothing is cached. */
  lemma ResolveBare(parse: Parser, slots: Slots, c: Ctx, works: bool, pushedOut: Option<bytes>)
    ensures c.jwks == [] ==> Resolve(parse, slots, c, works, pushedOut) == (slots, None)
    ensures c.jwks != [] && c.generation == 0 ==> Resolve(parse, slots, c, works, pushedOut) == (slots, parse(c.jwks))
  {
  }

  /** The cache of the worker that handles the request, empty at first. */
  function WorkerSlots(s: Sys, id: nat): Slots
    requires id in s.workers
  {
    if s.workers[id] in s.slots then s.slots[s.workers[id]] else map[]
  }

  /** Only the cache of that worker may change, and it is then `slots`. */
  predicate OnlyWorker(s: Sys, t: Sys, id: nat, slots: Slots)
    requires id in s.workers
  {
    && t.workers == s.workers && s.workers[id] in t.slots && t.slots[s.workers[id]] == slots
    && forall w :: w in s.slots && w != s.workers[id] ==> w in t.slots && t.slots[w] == s.slots[w]
  }

  /** An evaluation resolves the keys with the worker's cache, once; a second one changes nothing. */
  lemma EvaluateMeans(parse: Parser, s: Sys, e: Event, c: Ctx, t: Sys, d: Ctx)
    requires Steps(parse, s, e, c, t, d) && e.action.DoEvaluate? && e.id in s.workers
    ensures c.done ==> t == s
    ensures !c.done ==>
      var slots := Resolve(parse, WorkerSlots(s, e.id), c, e.action.cacheWorks, e.action.pushedOut).0;
      d == c.(done := true) && t.zone == s.zone && OnlyWorker(s, t, e.id, slots)
  {
    hide Resolve;
  }

  /** A lookup that hits parses into the worker's cache what it found; any other leaves the caches alone. */
  lemma LookupCaches(parse: Parser, s: Sys, e: Event, c: Ctx, t: Sys, d: Ctx)
    requires Steps(parse, s, e, c, t, d) && e.action.DoLookup? && c.stage == Idle && !c.done && e.id in s.workers
    ensures if Lookup(s.zone, e.action.host, e.now, e.action.memory).1.status == Hit then
              OnlyWorker(s, t, e.id, Resolve(parse, WorkerSlots(s, e.id), d, e.action.cacheWorks, e.action.pushedOut).0)
            else t.slots == s.slots
  {
    hide Lookup, Resolve, Looked;
  }

  /** A request that was evaluated before its directory was looked up never looks it up. */
  lemma LookupWhenDone(parse: Parser, s: Sys, e: Event, c: Ctx, t: Sys, d: Ctx)
    requires Steps(parse, s, e, c, t, d) && e.action.DoLookup? && c.stage == Idle && c.done
    ensures t.zone == s.zone && t.slots == s.slots && d == c.(stage := Over, directoryDone := true)
  {
    hide Lookup, Resolve;
  }

  // ----- When a request is flagged -----

  /** Flagged only when finished without keys, in every reachable state. */
  predicate Flagged(c: Ctx) { c.unavailable ==> c.stage == Over && c.jwks == [] }

  ghost predicate AllFlagged(ctxs: map<nat, Ctx>) { forall i :: i in ctxs ==> Flagged(ctxs[i]) }

  lemma LookedFlagged(c: Ctx, host: bytes, z: Zone, now: int, m: Memory, covered: bool)
    requires Flagged(c) && c.stage == Idle
    ensures Flagged(Looked(c, host, Lookup(z, host, now, m).1, covered, now))
  {
    hide Lookup;
    LookupYields(z, host, now, m);
  }

  lemma RotatedFlagged(z: Zone, c: Ctx, now: int, retryTtl: int)
    requires Flagged(c) && c.stage == Uncovered
    ensures Flagged(Rotated(z, c, now, retryTtl).1)
  {
    hide ClaimRotation;
  }

  lemma SetUpFlagged(z: Zone, c: Ctx, now: int, cleanupOk: bool, postOk: bool, retryTtl: int)
    requires Flagged(c) && c.stage == Holding
    ensures Flagged(SetUp(z, c, now, cleanupOk, postOk, retryTtl).1)
  {
    hide Release;
  }

  lemma FetchedFlagged(parse: Parser, z: Zone, c: Ctx, now: int, body: Option<bytes>, ttl: int, minTtl: int, m: Memory)
    requires Flagged(c) && c.stage == Waiting
    ensures Flagged(Fetched(parse, z, c, now, body, ttl, minTtl, m).1)
  {
    hide Release, Store;
  }

  lemma DestroyedFlagged(z: Zone, c: Ctx, now: int, retryTtl: int)
    requires Flagged(c)
    ensures Flagged(Destroyed(z, c, now, retryTtl).1)
  {
    hide Release;
  }

  /** The step leaves the others alone, and the request flagged only without keys. */
  ghost predicate StaysFlagged(s: Sys, t: Sys, id: nat) {
    || t.ctxs == s.ctxs
    || t.ctxs == s.ctxs - {id}
    || (id in t.ctxs && t.ctxs == s.ctxs[id := t.ctxs[id]] && Flagged(t.ctxs[id]))
  }

  lemma CtxFlagged(parse: Parser, s: Sys, e: Event, c: Ctx)
    requires e.id in s.ctxs && s.ctxs[e.id] == c && Flagged(c)
    ensures StaysFlagged(s, Step(parse, s, e), e.id)
  {
    hide Lookup, Looked, Resolve, Rotated, SetUp, Fetched, Destroyed, Store, Logged;
    match e.action
    case Begin(_) =>
    case Ineligible(_) =>
    case DoLookup(host, covered, _, _, m) =>
      if c.stage == Idle { LookedFlagged(c, host, s.zone, e.now, m, covered); }
    case DoRotate(retryTtl) =>
      if c.stage == Uncovered { RotatedFlagged(s.zone, c, e.now, retryTtl); }
    case DoSetup(cleanupOk, postOk, retryTtl) =>
      if c.stage == Holding { SetUpFlagged(s.zone, c, e.now, cleanupOk, postOk, retryTtl); }
    case DoFetched(body, ttl, minTtl, m) =>
      if c.stage == Waiting { FetchedFlagged(parse, s.zone, c, e.now, body, ttl, minTtl, m); }
    case DoEvaluate(_, _) =>
    case DoDestroy(retryTtl) => DestroyedFlagged(s.zone, c, e.now, retryTtl);
    case Crash =>
  }

  /** No request that has keys, and none still on its way, is told that keys are unavailable. */
  lemma {:induction false} FlaggedWithoutKeys(parse: Parser, run: seq<Event>, n: nat)
    requires n <= |run|
    ensures AllFlagged(Reach(parse, INITIAL, run, n).ctxs)
  {
    hide Step, Flagged;
    if n > 0 {
      FlaggedWithoutKeys(parse, run, n - 1);
      var s := Reach(parse, INITIAL, run, n - 1);
      if run[n - 1].id in s.ctxs {
        CtxFlagged(parse, s, run[n - 1], s.ctxs[run[n - 1].id]);
      } else {
        BeginFlagged(parse, s, run[n - 1]);
      }
    }
  }

  lemma BeginFlagged(parse: Parser, s: Sys, e: Event)
    requires e.id !in s.ctxs && AllFlagged(s.ctxs)
    ensures AllFlagged(Step(parse, s, e).ctxs)
  {
    hide StepCtx;
  }
}
