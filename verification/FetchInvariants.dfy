/** What every interleaving keeps: coherence of key sets, accounting of rights, and exclusion. */
module FetchInvariants {
  import opened Bytes
  import opened DirectoryFetch
  import opened KeyZone

  // ----- Coherence -----

  /** A non-zero generation means the request holds exactly the bytes stored for its host under it. */
  predicate CtxCoherent(c: Ctx, log: History) { c.generation != 0 ==> Stands(log, c.generation, c.host, c.jwks) }

  /** Every local slot holds the parse of the bytes its host had at its generation. */
  ghost predicate SlotsCoherent(parse: Parser, slots: Slots, log: History) {
    forall h :: h in slots ==>
      slots[h].0 != 0 && slots[h].0 in log && log[slots[h].0].0 == h && parse(log[slots[h].0].1) == Some(slots[h].1)
  }

  ghost predicate SysCoherent(parse: Parser, s: Sys) {
    && Coherent(s.zone, s.log)
    && (forall i :: i in s.ctxs ==> CtxCoherent(s.ctxs[i], s.log))
    && (forall w :: w in s.slots ==> SlotsCoherent(parse, s.slots[w], s.log))
  }

  /** What is in one history is in the other. */
  ghost predicate Extends(log: History, log': History) { forall g :: g in log ==> g in log' && log'[g] == log[g] }

  lemma CoherentExtends(parse: Parser, s: Sys, log': History)
    requires SysCoherent(parse, s) && Extends(s.log, log')
    ensures forall i :: i in s.ctxs ==> CtxCoherent(s.ctxs[i], log')
    ensures forall w :: w in s.slots ==> SlotsCoherent(parse, s.slots[w], log')
  {
  }

  /** The key set a request verifies with is always the parse of the bytes it holds, cached or not. */
  lemma ResolvesToParse(parse: Parser, slots: Slots, log: History, c: Ctx, cacheWorks: bool, pushedOut: Option<bytes>)
    requires CtxCoherent(c, log) && SlotsCoherent(parse, slots, log)
    ensures var (slots', keys) := Resolve(parse, slots, c, cacheWorks, pushedOut);
      && keys == (if c.jwks == [] then None else parse(c.jwks))
      && SlotsCoherent(parse, slots', log)
  {
  }

  lemma LookedCoherent(c: Ctx, log: History, host: bytes, f: Found, covered: bool, now: int)
    requires f.generation != 0 ==> Stands(log, f.generation, host, f.jwks)
    requires f.jwks != [] <==> f.generation != 0
    requires f.jwks != [] ==> f.status == Hit || f.status == Busy
    ensures CtxCoherent(Looked(c, host, f, covered, now), log)
  {
  }

  lemma SetCtx(parse: Parser, s: Sys, z: Zone, log: History, id: nat, c: Ctx)
    requires SysCoherent(parse, s) && Extends(s.log, log) && Coherent(z, log) && CtxCoherent(c, log)
    ensures SysCoherent(parse, WithCtx(s.(zone := z, log := log), id, c))
  {
    hide Coherent;
    CoherentExtends(parse, s, log);
  }

  lemma SetSlots(parse: Parser, s: Sys, id: nat, slots: Slots)
    requires SysCoherent(parse, s) && SlotsCoherent(parse, slots, s.log)
    ensures SysCoherent(parse, WithSlots(s, id, slots))
  {
    hide Coherent;
  }

  lemma SlotsOfCoherent(parse: Parser, s: Sys, id: nat)
    requires SysCoherent(parse, s)
    ensures SlotsCoherent(parse, SlotsOf(s, id), s.log)
  {
  }

  lemma LookupStep(parse: Parser, s: Sys, id: nat, c: Ctx, now: int, host: bytes, covered: bool, cacheWorks: bool,
                   pushedOut: Option<bytes>, m: KeyZone.Memory)
    requires SysCoherent(parse, s)
    ensures SysCoherent(parse, StepLookup(parse, s, id, c, now, host, covered, cacheWorks, pushedOut, m))
  {
    hide Lookup, Coherent, Resolve, SlotsCoherent, CtxCoherent, Looked, SysCoherent;
    CoherentZone(parse, s);
    LookupCoherent(s.zone, s.log, host, now, m);
    var (z, f) := Lookup(s.zone, host, now, m);
    var d := Looked(c, host, f, covered, now);
    LookedCoherent(c, s.log, host, f, covered, now);
    SlotsOfCoherent(parse, s, id);
    ResolvesToParse(parse, SlotsOf(s, id), s.log, d, cacheWorks, pushedOut);
    SetCtx(parse, s, z, s.log, id, d);
    var t := WithCtx(s.(zone := z, log := s.log), id, d);
    SetSlots(parse, t, id, Resolve(parse, SlotsOf(s, id), d, cacheWorks, pushedOut).0);
  }

  lemma CoherentZone(parse: Parser, s: Sys)
    requires SysCoherent(parse, s)
    ensures Coherent(s.zone, s.log) && forall i :: i in s.ctxs ==> CtxCoherent(s.ctxs[i], s.log)
  {
  }

  lemma FetchedStep(parse: Parser, s: Sys, id: nat, c: Ctx, now: int, body: Option<bytes>, ttl: int, minTtl: int,
                    m: KeyZone.Memory)
    requires SysCoherent(parse, s) && CtxCoherent(c, s.log)
    ensures SysCoherent(parse, StepFetched(parse, s, id, c, now, body, ttl, minTtl, m))
  {
    hide Store, Release, Coherent, SlotsCoherent, SysCoherent, Logged;
    CoherentZone(parse, s);
    ReleaseCoherent(s.zone, s.log, c.host, now + minTtl);
    SetCtx(parse, s, Release(s.zone, c.host, now + minTtl), s.log, id, FailOpen(GiveBack(c)));
    if body.Some? && body.value != [] && parse(body.value).Some? {
      StoreCoherent(s.zone, s.log, c.host, body.value, now + ttl, now, minTtl, m);
      var (z, g) := Store(s.zone, c.host, body.value, now + ttl, now, minTtl, m);
      var log' := Logged(s.log, s.zone, c.host, body.value, now + ttl, now, minTtl, m);
      SetCtx(parse, s, z, log', id, Finish(GiveBack(c.(jwks := body.value, generation := g))));
    }
  }

  /** Every step keeps coherence, whatever other steps ran before. */
  lemma StepCoherent(parse: Parser, s: Sys, e: Event)
    requires SysCoherent(parse, s)
    ensures SysCoherent(parse, Step(parse, s, e))
  {
    hide SysCoherent, StepCtx, Coherent;
    if e.action.Begin? {
      if e.id !in s.ctxs {
        CoherentZone(parse, s);
        SameExtends(s.log);
        SetCtx(parse, s, s.zone, s.log, e.id, NEW);
        Placed(parse, WithCtx(s, e.id, NEW), e.id, e.action.worker);
      }
    } else if e.id in s.ctxs {
      CtxStepCoherent(parse, s, e, s.ctxs[e.id]);
    }
  }

  lemma Placed(parse: Parser, s: Sys, id: nat, worker: nat)
    requires SysCoherent(parse, s)
    ensures SysCoherent(parse, s.(workers := s.workers[id := worker]))
  {
    hide Coherent, SlotsCoherent, CtxCoherent;
  }

  lemma Removed(parse: Parser, s: Sys, id: nat)
    requires SysCoherent(parse, s)
    ensures SysCoherent(parse, s.(ctxs := s.ctxs - {id}))
  {
    hide Coherent, SlotsCoherent, CtxCoherent;
  }

  lemma CtxStepCoherent(parse: Parser, s: Sys, e: Event, c: Ctx)
    requires SysCoherent(parse, s) && e.id in s.ctxs && c == s.ctxs[e.id]
    ensures SysCoherent(parse, StepCtx(parse, s, e, c))
  {
    hide SysCoherent, StepLookup, StepFetched, ClaimRotation, Release, Coherent, Resolve, Extends;
    CoherentZone(parse, s);
    SameExtends(s.log);
    match e.action
    case Begin(_) =>
    case Ineligible(allowed) => SetCtx(parse, s, s.zone, s.log, e.id, if allowed then Finish(c) else FailOpen(c));
    case DoLookup(host, covered, cacheWorks, pushedOut, m) =>
      if c.done {
        SetCtx(parse, s, s.zone, s.log, e.id, Finish(c));
      } else {
        LookupStep(parse, s, e.id, c, e.now, host, covered, cacheWorks, pushedOut, m);
      }
    case DoRotate(retryTtl) =>
      ClaimRotationCoherent(s.zone, s.log, c.host, e.now, retryTtl);
      var (z, ok) := ClaimRotation(s.zone, c.host, e.now, retryTtl);
      SetCtx(parse, s, z, s.log, e.id, if ok then TakeRight(c, e.now) else Finish(c));
    case DoSetup(cleanupOk, postOk, retryTtl) => SetupCoherent(parse, s, e, c, cleanupOk, postOk, retryTtl);
    case DoFetched(body, ttl, minTtl, m) => FetchedStep(parse, s, e.id, c, e.now, body, ttl, minTtl, m);
    case DoEvaluate(cacheWorks, pushedOut) => EvaluateStep(parse, s, e.id, c, cacheWorks, pushedOut);
    case DoDestroy(retryTtl) => DestroyCoherent(parse, s, e, c, retryTtl);
    case Crash => Removed(parse, s, e.id);
  }

  lemma SetupCoherent(parse: Parser, s: Sys, e: Event, c: Ctx, cleanupOk: bool, postOk: bool, retryTtl: int)
    requires SysCoherent(parse, s) && CtxCoherent(c, s.log) && e.action == DoSetup(cleanupOk, postOk, retryTtl)
    ensures SysCoherent(parse, StepCtx(parse, s, e, c))
  {
    hide SysCoherent, StepLookup, StepFetched, ClaimRotation, Release, Coherent, Resolve, Extends;
    CoherentZone(parse, s);
    SameExtends(s.log);
    ReleaseCoherent(s.zone, s.log, c.host, e.now + retryTtl);
    SetCtx(parse, s, s.zone, s.log, e.id, c.(stage := Waiting, cleanup := true));
    SetCtx(parse, s, Release(s.zone, c.host, e.now + retryTtl), s.log, e.id,
      FailOpen(GiveBack(c.(cleanup := cleanupOk))));
  }

  lemma DestroyCoherent(parse: Parser, s: Sys, e: Event, c: Ctx, retryTtl: int)
    requires SysCoherent(parse, s) && CtxCoherent(c, s.log) && e.action == DoDestroy(retryTtl)
    ensures SysCoherent(parse, StepCtx(parse, s, e, c))
  {
    hide SysCoherent, StepLookup, StepFetched, ClaimRotation, Release, Coherent, Resolve, Extends;
    CoherentZone(parse, s);
    SameExtends(s.log);
    ReleaseCoherent(s.zone, s.log, c.host, e.now + retryTtl);
    SetCtx(parse, s, Release(s.zone, c.host, e.now + retryTtl), s.log, e.id, Finish(GiveBack(c)));
    SetCtx(parse, s, s.zone, s.log, e.id, Finish(c));
  }

  lemma SameExtends(log: History)
    ensures Extends(log, log)
  {
  }

  lemma EvaluateStep(parse: Parser, s: Sys, id: nat, c: Ctx, cacheWorks: bool, pushedOut: Option<bytes>)
    requires SysCoherent(parse, s) && CtxCoherent(c, s.log)
    ensures var slots := Resolve(parse, SlotsOf(s, id), c, cacheWorks, pushedOut).0;
      SysCoherent(parse, WithCtx(WithSlots(s, id, slots), id, c.(done := true)))
  {
    hide Coherent, SlotsCoherent, Resolve, SysCoherent;
    SlotsOfCoherent(parse, s, id);
    ResolvesToParse(parse, SlotsOf(s, id), s.log, c, cacheWorks, pushedOut);
    var slots := Resolve(parse, SlotsOf(s, id), c, cacheWorks, pushedOut).0;
    SetSlots(parse, s, id, slots);
    var t := WithSlots(s, id, slots);
    CoherentZone(parse, t);
    SetCtx(parse, t, t.zone, t.log, id, c.(done := true));
  }

  lemma {:induction false} AlwaysCoherent(parse: Parser, run: seq<Event>, n: nat)
    requires n <= |run|
    ensures SysCoherent(parse, Reach(parse, INITIAL, run, n))
  {
    hide Step;
    if n > 0 {
      AlwaysCoherent(parse, run, n - 1);
      StepCoherent(parse, Reach(parse, INITIAL, run, n - 1), run[n - 1]);
    }
  }

  /**
   * In every reachable state, every request resolves its keys to the parse of the bytes it
   * holds, through hits, stale answers, rotation, failed stores, eviction and reuse.
   */
  lemma KeysAlwaysMatchBytes(parse: Parser, run: seq<Event>, n: nat, id: nat, cacheWorks: bool,
                             pushedOut: Option<bytes>)
    requires n <= |run| && id in Reach(parse, INITIAL, run, n).ctxs
    ensures var s := Reach(parse, INITIAL, run, n);
      var c := s.ctxs[id];
      && Resolve(parse, SlotsOf(s, id), c, cacheWorks, pushedOut).1 == (if c.jwks == [] then None else parse(c.jwks))
      && (c.generation != 0 ==> Stands(s.log, c.generation, c.host, c.jwks))
  {
    hide Resolve, SlotsCoherent, Coherent, Reach, SlotsOf;
    var s := Reach(parse, INITIAL, run, n);
    AlwaysCoherent(parse, run, n);
    SlotsOfCoherent(parse, s, id);
    ResolvesToParse(parse, SlotsOf(s, id), s.log, s.ctxs[id], cacheWorks, pushedOut);
  }

  // ----- Accounting -----

  /** A right is held exactly while the fetch is set up or under way, and each one claimed was given back but that. */
  predicate Accounted(c: Ctx) {
    && (c.claimed <==> c.stage == Holding || c.stage == Waiting)
    && c.claims == c.given + (if c.claimed then 1 else 0) && c.claims <= 1
    && (c.stage == Over <==> c.directoryDone)
    && (c.stage == Waiting ==> c.cleanup)
    && (c.stage == Idle || c.stage == Uncovered ==> c.claims == 0)
  }

  ghost predicate AllAccounted(ctxs: map<nat, Ctx>) { forall i :: i in ctxs ==> Accounted(ctxs[i]) }

  lemma LookedAccounted(c: Ctx, host: bytes, f: Found, covered: bool, now: int)
    requires Accounted(c) && c.stage == Idle
    ensures Accounted(Looked(c, host, f, covered, now))
  {
  }

  /** The step changed no request but `id`, which is gone or accounted for. */
  ghost predicate OnlyChanges(s: Sys, t: Sys, id: nat) {
    || t.ctxs == s.ctxs - {id}
    || t.ctxs == s.ctxs
    || (id in t.ctxs && t.ctxs == s.ctxs[id := t.ctxs[id]] && Accounted(t.ctxs[id]))
  }

  lemma Sets(s: Sys, t: Sys, id: nat, c: Ctx)
    requires t.ctxs == s.ctxs[id := c] && Accounted(c)
    ensures OnlyChanges(s, t, id)
  {
    hide Accounted;
  }

  lemma CtxStepAccounted(parse: Parser, s: Sys, e: Event, c: Ctx)
    requires e.id in s.ctxs && c == s.ctxs[e.id] && Accounted(c)
    ensures OnlyChanges(s, StepCtx(parse, s, e, c), e.id)
  {
    hide ClaimRotation, Release, Resolve, StepLookup, StepFetched, OnlyChanges, Accounted;
    var t := StepCtx(parse, s, e, c);
    OnlySame(s, t, e.id);
    match e.action
    case Begin(_) =>
    case Ineligible(allowed) =>
      EndsAccounted(c);
      if c.stage == Idle { Sets(s, t, e.id, if allowed then Finish(c) else FailOpen(c)); }
    case DoLookup(host, covered, cacheWorks, pushedOut, m) =>
      EndsAccounted(c);
      if c.stage == Idle {
        if c.done { Sets(s, t, e.id, Finish(c)); }
        else { LookupAccounted(parse, s, e.id, c, e.now, host, covered, cacheWorks, pushedOut, m); }
      }
    case DoRotate(retryTtl) =>
      EndsAccounted(c);
      if c.stage == Uncovered {
        TakesAccounted(c, e.now);
        Sets(s, t, e.id, if ClaimRotation(s.zone, c.host, e.now, retryTtl).1 then TakeRight(c, e.now) else Finish(c));
      }
    case DoSetup(cleanupOk, postOk, retryTtl) => SetupAccounted(parse, s, e, c, cleanupOk, postOk, retryTtl);
    case DoFetched(body, ttl, minTtl, m) =>
      if c.stage == Waiting { FetchedAccounted(parse, s, e.id, c, e.now, body, ttl, minTtl, m); }
    case DoEvaluate(cacheWorks, pushedOut) => EvaluateAccounted(parse, s, e, c, cacheWorks, pushedOut);
    case DoDestroy(retryTtl) => DestroyAccounted(parse, s, e, c, retryTtl);
    case Crash =>
  }

  lemma OnlySame(s: Sys, t: Sys, id: nat)
    ensures t.ctxs == s.ctxs || t.ctxs == s.ctxs - {id} ==> OnlyChanges(s, t, id)
  {
  }

  lemma EndsAccounted(c: Ctx)
    requires Accounted(c)
    ensures !c.claimed ==> Accounted(Finish(c)) && Accounted(FailOpen(c))
    ensures c.claimed ==> Accounted(Finish(GiveBack(c))) && Accounted(FailOpen(GiveBack(c)))
    ensures c.stage == Idle || c.stage == Uncovered || c.stage == Over ==> !c.claimed
    ensures c.stage == Holding || c.stage == Waiting ==> c.claimed
  {
  }

  lemma TakesAccounted(c: Ctx, now: int)
    requires Accounted(c) && (c.stage == Idle || c.stage == Uncovered)
    ensures Accounted(TakeRight(c, now))
  {
  }

  lemma SetupAccounted(parse: Parser, s: Sys, e: Event, c: Ctx, cleanupOk: bool, postOk: bool, retryTtl: int)
    requires e.id in s.ctxs && Accounted(c) && e.action == DoSetup(cleanupOk, postOk, retryTtl)
    ensures OnlyChanges(s, StepCtx(parse, s, e, c), e.id)
  {
    hide Release;
  }

  lemma FetchedAccounted(parse: Parser, s: Sys, id: nat, c: Ctx, now: int, body: Option<bytes>, ttl: int, minTtl: int,
                         m: KeyZone.Memory)
    requires id in s.ctxs && Accounted(c) && c.stage == Waiting
    ensures OnlyChanges(s, StepFetched(parse, s, id, c, now, body, ttl, minTtl, m), id)
  {
    hide Release, Store, Logged;
  }

  lemma EvaluateAccounted(parse: Parser, s: Sys, e: Event, c: Ctx, cacheWorks: bool, pushedOut: Option<bytes>)
    requires e.id in s.ctxs && Accounted(c) && e.action == DoEvaluate(cacheWorks, pushedOut)
    ensures OnlyChanges(s, StepCtx(parse, s, e, c), e.id)
  {
    hide Resolve;
  }

  lemma DestroyAccounted(parse: Parser, s: Sys, e: Event, c: Ctx, retryTtl: int)
    requires e.id in s.ctxs && c == s.ctxs[e.id] && Accounted(c) && e.action == DoDestroy(retryTtl)
    ensures OnlyChanges(s, StepCtx(parse, s, e, c), e.id)
  {
    hide Release;
  }

  lemma LookupAccounted(parse: Parser, s: Sys, id: nat, c: Ctx, now: int, host: bytes, covered: bool, cacheWorks: bool,
                        pushedOut: Option<bytes>, m: KeyZone.Memory)
    requires id in s.ctxs && c == s.ctxs[id] && Accounted(c) && c.stage == Idle
    ensures var t := StepLookup(parse, s, id, c, now, host, covered, cacheWorks, pushedOut, m);
      OnlyChanges(s, t, id)
  {
    hide Lookup, Resolve, Looked, Accounted;
    LookedAccounted(c, host, Lookup(s.zone, host, now, m).1, covered, now);
  }

  lemma StepAccounted(parse: Parser, s: Sys, e: Event)
    requires AllAccounted(s.ctxs)
    ensures AllAccounted(Step(parse, s, e).ctxs)
  {
    hide StepCtx;
    if e.id in s.ctxs {
      CtxStepAccounted(parse, s, e, s.ctxs[e.id]);
    }
  }

  lemma {:induction false} AlwaysAccounted(parse: Parser, run: seq<Event>, n: nat)
    requires n <= |run|
    ensures AllAccounted(Reach(parse, INITIAL, run, n).ctxs)
  {
    hide Step;
    if n > 0 {
      AlwaysAccounted(parse, run, n - 1);
      StepAccounted(parse, Reach(parse, INITIAL, run, n - 1), run[n - 1]);
    }
  }

  /**
   * Exactly once: in every reachable state an evaluation of a request has claimed at most one
   * right, and once it is finished, or its pool is destroyed with no set-up half done, it has
   * given back exactly the rights it claimed.
   */
  lemma GivenBackOnce(parse: Parser, run: seq<Event>, n: nat, id: nat, now: int, retryTtl: int)
    requires n <= |run| && id in Reach(parse, INITIAL, run, n).ctxs
    ensures var s := Reach(parse, INITIAL, run, n);
      var c := s.ctxs[id];
      && c.claims <= 1
      && (c.stage == Over ==> c.given == c.claims)
      && (c.stage != Holding ==>
            var d := Step(parse, s, Event(id, now, DoDestroy(retryTtl))).ctxs[id];
            d.given == d.claims == c.claims && !d.claimed)
  {
    hide Reach, Release;
    AlwaysAccounted(parse, run, n);
  }

  /** The rights claimed and given back by several evaluations together. */
  function Rights(ctxs: map<nat, Ctx>, ids: seq<nat>): (nat, nat)
    requires forall i :: 0 <= i < |ids| ==> ids[i] in ctxs
  {
    if ids == [] then (0, 0)
    else
      var (claims, given) := Rights(ctxs, ids[1..]);
      (ctxs[ids[0]].claims + claims, ctxs[ids[0]].given + given)
  }

  /**
   * A request that internal redirects evaluate again, each time with a fresh context: when all
   * its evaluations are finished it has given back as many rights as it claimed, at most one each.
   */
  lemma {:induction false} RequestGivesBack(parse: Parser, run: seq<Event>, n: nat, ids: seq<nat>)
    requires n <= |run|
    requires forall i :: 0 <= i < |ids| ==>
      ids[i] in Reach(parse, INITIAL, run, n).ctxs && Reach(parse, INITIAL, run, n).ctxs[ids[i]].stage == Over
    ensures var (claims, given) := Rights(Reach(parse, INITIAL, run, n).ctxs, ids); claims == given <= |ids|
  {
    hide Reach;
    if ids != [] {
      AlwaysAccounted(parse, run, n);
      assert forall i :: 0 <= i < |ids| - 1 ==> ids[1..][i] == ids[i + 1];
      RequestGivesBack(parse, run, n, ids[1..]);
    }
  }

  /** A failed refetch changes neither the key set the request holds nor any key set in the zone. */
  lemma FailedRefetchKeeps(parse: Parser, s: Sys, id: nat, now: int, body: Option<bytes>, ttl: int, minTtl: int,
                           m: KeyZone.Memory, h: bytes)
    requires id in s.ctxs && s.ctxs[id].stage == Waiting && h in s.zone.nodes
    requires body.None? || body.value == [] || parse(body.value).None?
    ensures var t := Step(parse, s, Event(id, now, DoFetched(body, ttl, minTtl, m)));
      var c, d := s.ctxs[id], t.ctxs[id];
      && d.jwks == c.jwks && d.generation == c.generation && (c.jwks != [] ==> d.unavailable == c.unavailable)
      && SameKeys(s.zone, t.zone, h)
  {
    hide Store, Release;
    var c := s.ctxs[id];
    FailureKeepsKeys(s.zone, c.host, [], 0, now + minTtl, 0, m, h);
    assert Step(parse, s, Event(id, now, DoFetched(body, ttl, minTtl, m)))
        == WithCtx(s.(zone := Release(s.zone, c.host, now + minTtl)), id, FailOpen(GiveBack(c)));
  }
}
