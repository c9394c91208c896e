/**
 * Exclusion of fetches: as long as every holder of a right acts within the timeout or dies,
 * no two live requests hold the right for one host; and rotation claims keep their distance.
 */
module FetchExclusion {
  import opened Bytes
  import opened DirectoryFetch
  import opened FetchInvariants
  import opened KeyZone

  /** The zone records the right claimed at `since`. */
  predicate HoldsAt(z: Zone, h: bytes, since: int) {
    h in z.nodes && z.nodes[h].fetching && z.nodes[h].fetchingSince == since
  }

  // ----- Operations on one host leave other holders alone -----

  lemma LookupOthers(z: Zone, host: bytes, now: int, m: KeyZone.Memory, h: bytes, since: int)
    requires HoldsAt(z, h, since) && FindsVictim(z, now, m) && now - since < FETCH_TIMEOUT
    ensures HoldsAt(Lookup(z, host, now, m).0, h, since)
    ensures h == host ==> Lookup(z, host, now, m).1.status != Claimed
  {
    if h != host { AllocKeepsHeld(z, host, now, m, h); }
  }

  lemma LookupTakes(z: Zone, host: bytes, now: int, m: KeyZone.Memory)
    ensures Lookup(z, host, now, m).1.status == Claimed ==> HoldsAt(Lookup(z, host, now, m).0, host, now)
  {
  }

  lemma RotationOthers(z: Zone, host: bytes, now: int, retryTtl: int, h: bytes, since: int)
    requires HoldsAt(z, h, since)
    ensures HoldsAt(ClaimRotation(z, host, now, retryTtl).0, h, since)
    ensures h == host ==> !ClaimRotation(z, host, now, retryTtl).1
  {
  }

  lemma RotationTakes(z: Zone, host: bytes, now: int, retryTtl: int)
    ensures ClaimRotation(z, host, now, retryTtl).1 ==> HoldsAt(ClaimRotation(z, host, now, retryTtl).0, host, now)
  {
  }

  lemma ReleaseOthers(z: Zone, host: bytes, retryAt: int, h: bytes, since: int)
    requires HoldsAt(z, h, since) && h != host
    ensures HoldsAt(Release(z, host, retryAt), h, since)
  {
  }

  lemma StoreOthers(z: Zone, host: bytes, jwks: bytes, expiresAt: int, now: int, retryTtl: int, m: KeyZone.Memory,
                    h: bytes, since: int)
    requires HoldsAt(z, h, since) && h != host && host in z.nodes
    ensures HoldsAt(Store(z, host, jwks, expiresAt, now, retryTtl, m).0, h, since)
  {
  }

  // ----- The invariant -----

  /** Every request that holds a right is the one the zone records, and hosts are held once. */
  ghost predicate Exclusive(z: Zone, ctxs: map<nat, Ctx>) {
    && (forall i :: i in ctxs && ctxs[i].claimed ==> HoldsAt(z, ctxs[i].host, ctxs[i].since))
    && (forall i, j :: i in ctxs && j in ctxs && i != j && ctxs[i].claimed && ctxs[j].claimed ==>
      ctxs[i].host != ctxs[j].host)
  }

  /** No live holder has run past its time. */
  ghost predicate Timely(s: Sys, now: int) {
    forall i :: i in s.ctxs && s.ctxs[i].claimed ==> now - s.ctxs[i].since < FETCH_TIMEOUT
  }

  /** The walk for a victim is truthful in this step. */
  ghost predicate Truthful(s: Sys, e: Event) {
    match e.action
    case DoLookup(_, _, _, _, m) => FindsVictim(s.zone, e.now, m)
    case DoFetched(_, _, _, m) => FindsVictim(s.zone, e.now, m)
    case _ => true
  }

  /** One request gives its right back, or never had one: the others are unaffected. */
  lemma Leaves(z: Zone, ctxs: map<nat, Ctx>, z': Zone, id: nat, c: Ctx)
    requires Exclusive(z, ctxs) && !c.claimed
    requires forall i :: i in ctxs && i != id && ctxs[i].claimed ==> HoldsAt(z', ctxs[i].host, ctxs[i].since)
    ensures Exclusive(z', ctxs[id := c])
  {
    hide HoldsAt;
  }

  /** One request takes a right no other holds. */
  lemma Takes(z: Zone, ctxs: map<nat, Ctx>, z': Zone, id: nat, c: Ctx)
    requires Exclusive(z, ctxs) && c.claimed && HoldsAt(z', c.host, c.since)
    requires forall i :: i in ctxs && i != id && ctxs[i].claimed ==>
      ctxs[i].host != c.host && HoldsAt(z', ctxs[i].host, ctxs[i].since)
    ensures Exclusive(z', ctxs[id := c])
  {
    hide HoldsAt;
  }

  lemma ExclusiveLookup(parse: Parser, s: Sys, id: nat, c: Ctx, now: int, host: bytes, covered: bool, cacheWorks: bool,
                        pushedOut: Option<bytes>, m: KeyZone.Memory)
    requires Exclusive(s.zone, s.ctxs) && Timely(s, now) && FindsVictim(s.zone, now, m)
    requires id in s.ctxs && c == s.ctxs[id] && !c.claimed
    ensures var t := StepLookup(parse, s, id, c, now, host, covered, cacheWorks, pushedOut, m);
      Exclusive(t.zone, t.ctxs)
  {
    hide Lookup, Resolve, FindsVictim, HoldsAt;
    var (z, f) := Lookup(s.zone, host, now, m);
    var d := Looked(c, host, f, covered, now);
    LookupTakes(s.zone, host, now, m);
    forall i | i in s.ctxs && i != id && s.ctxs[i].claimed
      ensures HoldsAt(z, s.ctxs[i].host, s.ctxs[i].since) && (f.status == Claimed ==> s.ctxs[i].host != host)
    {
      LookupOthers(s.zone, host, now, m, s.ctxs[i].host, s.ctxs[i].since);
    }
    if f.status == Claimed {
      Takes(s.zone, s.ctxs, z, id, d);
    } else {
      Leaves(s.zone, s.ctxs, z, id, d);
    }
  }

  lemma ExclusiveRelease(s: Sys, id: nat, c: Ctx, retryAt: int, d: Ctx)
    requires Exclusive(s.zone, s.ctxs) && id in s.ctxs && c == s.ctxs[id] && c.claimed && !d.claimed
    ensures Exclusive(Release(s.zone, c.host, retryAt), s.ctxs[id := d])
  {
    hide Release, HoldsAt;
    forall i | i in s.ctxs && i != id && s.ctxs[i].claimed
      ensures HoldsAt(Release(s.zone, c.host, retryAt), s.ctxs[i].host, s.ctxs[i].since)
    {
      ReleaseOthers(s.zone, c.host, retryAt, s.ctxs[i].host, s.ctxs[i].since);
    }
    Leaves(s.zone, s.ctxs, Release(s.zone, c.host, retryAt), id, d);
  }

  lemma ExclusiveFetched(parse: Parser, s: Sys, id: nat, c: Ctx, now: int, body: Option<bytes>, ttl: int, minTtl: int,
                         m: KeyZone.Memory)
    requires Exclusive(s.zone, s.ctxs) && id in s.ctxs && c == s.ctxs[id] && c.claimed
    ensures var t := StepFetched(parse, s, id, c, now, body, ttl, minTtl, m); Exclusive(t.zone, t.ctxs)
  {
    hide Release, Store, Logged;
    ExclusiveRelease(s, id, c, now + minTtl, FailOpen(GiveBack(c)));
    if body.Some? && body.value != [] && parse(body.value).Some? {
      var (z, g) := Store(s.zone, c.host, body.value, now + ttl, now, minTtl, m);
      forall i | i in s.ctxs && i != id && s.ctxs[i].claimed
        ensures HoldsAt(z, s.ctxs[i].host, s.ctxs[i].since)
      {
        StoreOthers(s.zone, c.host, body.value, now + ttl, now, minTtl, m, s.ctxs[i].host, s.ctxs[i].since);
      }
      Leaves(s.zone, s.ctxs, z, id, Finish(GiveBack(c.(jwks := body.value, generation := g))));
    }
  }

  lemma ExclusiveRotate(s: Sys, id: nat, c: Ctx, now: int, retryTtl: int)
    requires Exclusive(s.zone, s.ctxs) && id in s.ctxs && c == s.ctxs[id] && !c.claimed
    ensures var (z, ok) := ClaimRotation(s.zone, c.host, now, retryTtl);
      Exclusive(z, s.ctxs[id := if ok then TakeRight(c, now) else Finish(c)])
  {
    hide ClaimRotation, HoldsAt;
    var (z, ok) := ClaimRotation(s.zone, c.host, now, retryTtl);
    RotationTakes(s.zone, c.host, now, retryTtl);
    forall i | i in s.ctxs && i != id && s.ctxs[i].claimed
      ensures HoldsAt(z, s.ctxs[i].host, s.ctxs[i].since) && (ok ==> s.ctxs[i].host != c.host)
    {
      RotationOthers(s.zone, c.host, now, retryTtl, s.ctxs[i].host, s.ctxs[i].since);
    }
    if ok {
      Takes(s.zone, s.ctxs, z, id, TakeRight(c, now));
    } else {
      Leaves(s.zone, s.ctxs, z, id, Finish(c));
    }
  }

  /** A step that only changes what a request remembers keeps who holds what. */
  lemma ExclusiveSame(s: Sys, id: nat, d: Ctx)
    requires Exclusive(s.zone, s.ctxs) && id in s.ctxs
    requires d.claimed ==> s.ctxs[id].claimed && d.host == s.ctxs[id].host && d.since == s.ctxs[id].since
    ensures Exclusive(s.zone, s.ctxs[id := d])
  {
    hide HoldsAt;
  }

  lemma ExclusiveSetup(s: Sys, id: nat, c: Ctx, now: int, cleanupOk: bool, postOk: bool, retryTtl: int)
    requires Exclusive(s.zone, s.ctxs) && id in s.ctxs && c == s.ctxs[id] && c.claimed
    ensures var (z, d) := SetUp(s.zone, c, now, cleanupOk, postOk, retryTtl); Exclusive(z, s.ctxs[id := d])
  {
    hide Release, Exclusive;
    ExclusiveSame(s, id, c.(stage := Waiting, cleanup := true));
    ExclusiveRelease(s, id, c, now + retryTtl, FailOpen(GiveBack(c.(cleanup := cleanupOk))));
  }

  lemma ExclusiveDestroyed(s: Sys, id: nat, c: Ctx, now: int, retryTtl: int)
    requires Exclusive(s.zone, s.ctxs) && id in s.ctxs && c == s.ctxs[id]
    ensures var (z, d) := Destroyed(s.zone, c, now, retryTtl); Exclusive(z, s.ctxs[id := d])
  {
    hide Release, Exclusive;
    if c.claimed {
      ExclusiveRelease(s, id, c, now + retryTtl, Finish(GiveBack(c)));
    }
    ExclusiveSame(s, id, Finish(c));
  }

  lemma CtxStepExclusive(parse: Parser, s: Sys, e: Event, c: Ctx)
    requires Exclusive(s.zone, s.ctxs) && Timely(s, e.now) && Truthful(s, e)
    requires e.id in s.ctxs && c == s.ctxs[e.id] && Accounted(c)
    ensures var t := StepCtx(parse, s, e, c); Exclusive(t.zone, t.ctxs)
  {
    hide ClaimRotation, SetUp, Destroyed, Resolve, StepLookup, StepFetched, Exclusive, Timely, FindsVictim;
    match e.action
    case Begin(_) =>
    case Ineligible(allowed) =>
      if c.stage == Idle { ExclusiveSame(s, e.id, if allowed then Finish(c) else FailOpen(c)); }
    case DoLookup(host, covered, cacheWorks, pushedOut, m) =>
      if c.stage == Idle {
        if c.done { ExclusiveSame(s, e.id, Finish(c)); }
        else { ExclusiveLookup(parse, s, e.id, c, e.now, host, covered, cacheWorks, pushedOut, m); }
      }
    case DoRotate(retryTtl) =>
      if c.stage == Uncovered { ExclusiveRotate(s, e.id, c, e.now, retryTtl); }
    case DoSetup(cleanupOk, postOk, retryTtl) =>
      if c.stage == Holding { ExclusiveSetup(s, e.id, c, e.now, cleanupOk, postOk, retryTtl); }
    case DoFetched(body, ttl, minTtl, m) =>
      if c.stage == Waiting { ExclusiveFetched(parse, s, e.id, c, e.now, body, ttl, minTtl, m); }
    case DoEvaluate(cacheWorks, pushedOut) => ExclusiveSame(s, e.id, c.(done := true));
    case DoDestroy(retryTtl) => ExclusiveDestroyed(s, e.id, c, e.now, retryTtl);
    case Crash => ExclusiveGone(s, e.id);
  }

  lemma ExclusiveGone(s: Sys, id: nat)
    requires Exclusive(s.zone, s.ctxs)
    ensures Exclusive(s.zone, s.ctxs - {id})
  {
    hide HoldsAt;
  }

  lemma StepExclusive(parse: Parser, s: Sys, e: Event)
    requires Exclusive(s.zone, s.ctxs) && AllAccounted(s.ctxs) && Timely(s, e.now) && Truthful(s, e)
    ensures var t := Step(parse, s, e); Exclusive(t.zone, t.ctxs)
  {
    hide StepCtx, Timely, Truthful, HoldsAt;
    if e.id in s.ctxs {
      if !e.action.Begin? { CtxStepExclusive(parse, s, e, s.ctxs[e.id]); }
    } else if e.action.Begin? {
      Leaves(s.zone, s.ctxs, s.zone, e.id, NEW);
    }
  }

  /** Every holder acts within the timeout or dies, all along the run. */
  ghost predicate TimelyRun(parse: Parser, run: seq<Event>) {
    forall k: nat :: k < |run| ==>
      Timely(Reach(parse, INITIAL, run, k), run[k].now) && Truthful(Reach(parse, INITIAL, run, k), run[k])
  }

  /**
   * In every interleaving of such a run, at most one live request holds the right for a host, and
   * its node is there.
   */
  lemma {:induction false} OneHolder(parse: Parser, run: seq<Event>, n: nat)
    requires n <= |run| && TimelyRun(parse, run)
    ensures var s := Reach(parse, INITIAL, run, n); Exclusive(s.zone, s.ctxs)
  {
    hide Step, Timely, Truthful;
    if n > 0 {
      OneHolder(parse, run, n - 1);
      AlwaysAccounted(parse, run, n - 1);
      StepExclusive(parse, Reach(parse, INITIAL, run, n - 1), run[n - 1]);
    }
  }

  /**
   * Without that the promise fails: past the timeout a second request is given the right while the
   * first still holds it.
   */
  lemma SecondHolder(s: Sys, i: nat, now: int, m: KeyZone.Memory)
    requires i in s.ctxs && s.ctxs[i].claimed && HoldsAt(s.zone, s.ctxs[i].host, s.ctxs[i].since)
    requires s.zone.nodes[s.ctxs[i].host].expiresAt <= now
    ensures Lookup(s.zone, s.ctxs[i].host, now, m).1.status == Claimed <==> now - s.ctxs[i].since >= FETCH_TIMEOUT
  {
    StrandedRightExpires(s.zone, s.ctxs[i].host, now, m);
  }

  /** And this happens: a slow fetch and a second request for the host thirty seconds later. */
  lemma TwoHolders(parse: Parser, host: bytes)
    ensures var m := KeyZone.Memory(true, false, true, true, None);
      var run := [Event(0, 0, Begin(0)), Event(0, 0, DoLookup(host, false, false, None, m)),
                  Event(0, 0, DoSetup(true, true, 0)), Event(1, 30, Begin(0)),
                  Event(1, 30, DoLookup(host, false, false, None, m))];
      var s := Reach(parse, INITIAL, run, 5);
      && 0 in s.ctxs && s.ctxs[0].claimed && s.ctxs[0].host == host && s.ctxs[0].stage == Waiting
      && 1 in s.ctxs && s.ctxs[1].claimed && s.ctxs[1].host == host
  {
    hide Reach;
    var m := KeyZone.Memory(true, false, true, true, None);
    var run := [Event(0, 0, Begin(0)), Event(0, 0, DoLookup(host, false, false, None, m)),
                Event(0, 0, DoSetup(true, true, 0)), Event(1, 30, Begin(0)),
                Event(1, 30, DoLookup(host, false, false, None, m))];
    var z := Zone(map[host := FRESH.(fetching := true)], 0);
    var c := NEW.(stage := Waiting, host := host, claimed := true, claims := 1, cleanup := true);
    FirstThree(parse, run);
    var s3 := Reach(parse, INITIAL, run, 3);
    assert s3.zone == z && s3.ctxs == map[0 := c];
    var s4 := Step(parse, s3, run[3]);
    Unfold(parse, run, 3);
    assert s4.zone == z && s4.ctxs == map[0 := c, 1 := NEW];
    Unfold(parse, run, 4);
  }

  lemma Unfold(parse: Parser, run: seq<Event>, n: nat)
    requires n < |run|
    ensures Reach(parse, INITIAL, run, n + 1) == Step(parse, Reach(parse, INITIAL, run, n), run[n])
  {
    hide Step;
  }

  lemma FirstThree(parse: Parser, run: seq<Event>)
    requires |run| >= 3 && run[0] == Event(0, 0, Begin(0)) && run[1].id == run[2].id == 0
      && run[1].now == run[2].now == 0
    requires run[1].action.DoLookup? && run[1].action.memory.node && run[2].action == DoSetup(true, true, 0)
    ensures var host := run[1].action.host;
      var s := Reach(parse, INITIAL, run, 3);
      && s.zone == Zone(map[host := FRESH.(fetching := true)], 0)
      && s.ctxs == map[0 := NEW.(stage := Waiting, host := host, claimed := true, claims := 1, cleanup := true)]
  {
    hide Reach;
    Unfold(parse, run, 0);
    Unfold(parse, run, 1);
    Unfold(parse, run, 2);
    ReachNothing(parse, run);
    var host := run[1].action.host;
    var s1 := Reach(parse, INITIAL, run, 1);
    assert s1.zone == Zone(map[], 0) && s1.ctxs == map[0 := NEW];
    var s2 := Reach(parse, INITIAL, run, 2);
    assert s2.zone == Zone(map[host := FRESH.(fetching := true)], 0);
    assert s2.ctxs == map[0 := NEW.(stage := Holding, host := host, claimed := true, claims := 1)];
  }

  lemma ReachNothing(parse: Parser, run: seq<Event>)
    ensures Reach(parse, INITIAL, run, 0) == INITIAL
  {
  }

  // ----- The distance between rotation claims -----

  predicate RotationAt(s: Sys, e: Event, h: bytes) {
    && e.id in s.ctxs && e.action.DoRotate? && s.ctxs[e.id].stage == Uncovered && s.ctxs[e.id].host == h
    && ClaimRotation(s.zone, h, e.now, e.action.retryTtl).1
  }

  predicate SameForcedAt(z: Zone, z': Zone, h: bytes) {
    h in z.nodes && h in z'.nodes ==> z'.nodes[h].forcedAt == z.nodes[h].forcedAt
  }

  lemma OperationsKeepForcedAt(z: Zone, host: bytes, jwks: bytes, now: int, t: int, retryTtl: int, m: KeyZone.Memory,
                               h: bytes)
    ensures SameForcedAt(z, Lookup(z, host, now, m).0, h)
    ensures SameForcedAt(z, Store(z, host, jwks, t, now, retryTtl, m).0, h)
    ensures SameForcedAt(z, Release(z, host, t), h)
  {
  }

  lemma RotationForcedAt(z: Zone, host: bytes, now: int, retryTtl: int, h: bytes)
    requires h in z.nodes
    ensures var (z', ok) := ClaimRotation(z, host, now, retryTtl);
      h in z'.nodes && z'.nodes[h].forcedAt == if ok && host == h then now else z.nodes[h].forcedAt
  {
  }

  lemma FetchedForcedAt(parse: Parser, s: Sys, id: nat, c: Ctx, now: int, body: Option<bytes>, ttl: int, minTtl: int,
                        m: KeyZone.Memory, h: bytes)
    ensures SameForcedAt(s.zone, StepFetched(parse, s, id, c, now, body, ttl, minTtl, m).zone, h)
  {
    hide Store, Release, Logged, SameForcedAt;
    OperationsKeepForcedAt(s.zone, c.host, if body.Some? then body.value else [], now, now + ttl, minTtl, m, h);
    OperationsKeepForcedAt(s.zone, c.host, [], now, now + minTtl, minTtl, m, h);
  }

  lemma LookupForcedAt(parse: Parser, s: Sys, id: nat, c: Ctx, now: int, host: bytes, covered: bool, cacheWorks: bool,
                       pushedOut: Option<bytes>, m: KeyZone.Memory, h: bytes)
    ensures SameForcedAt(s.zone, StepLookup(parse, s, id, c, now, host, covered, cacheWorks, pushedOut, m).zone, h)
  {
    hide Lookup, Resolve, Looked, SlotsOf, SameForcedAt;
    OperationsKeepForcedAt(s.zone, host, [], now, 0, 0, m, h);
  }

  lemma EndForcedAt(parse: Parser, s: Sys, e: Event, c: Ctx, h: bytes)
    requires e.action.DoSetup? || e.action.DoDestroy?
    ensures SameForcedAt(s.zone, StepCtx(parse, s, e, c).zone, h)
  {
    hide Release, Finish, FailOpen, GiveBack;
    var retryTtl := e.action.retryTtl;
    OperationsKeepForcedAt(s.zone, c.host, [], 0, e.now + retryTtl, 0, KeyZone.Memory(true, true, true, true, None), h);
  }

  /** Only a rotation claim moves the time of the last one, as long as the node lives. */
  lemma ForcedAtKept(parse: Parser, s: Sys, e: Event, h: bytes)
    requires h in s.zone.nodes && h in Step(parse, s, e).zone.nodes
    ensures Step(parse, s, e).zone.nodes[h].forcedAt == if RotationAt(s, e, h) then e.now else s.zone.nodes[h].forcedAt
  {
    hide Resolve, Finish, FailOpen, GiveBack, TakeRight, SlotsOf, StepLookup, StepFetched, ClaimRotation, Release;
    if e.id in s.ctxs {
      var c := s.ctxs[e.id];
      match e.action
      case DoLookup(host, covered, cacheWorks, pushedOut, m) =>
        LookupForcedAt(parse, s, e.id, c, e.now, host, covered, cacheWorks, pushedOut, m, h);
      case DoFetched(body, ttl, minTtl, m) => FetchedForcedAt(parse, s, e.id, c, e.now, body, ttl, minTtl, m, h);
      case DoRotate(retryTtl) => RotationForcedAt(s.zone, c.host, e.now, retryTtl, h);
      case DoSetup(_, _, _) => EndForcedAt(parse, s, e, c, h);
      case DoDestroy(_) => EndForcedAt(parse, s, e, c, h);
      case _ =>
    }
  }

  /** The node of `h` lives in every state from `i` on up to `n`. */
  ghost predicate LivesBetween(parse: Parser, run: seq<Event>, h: bytes, i: nat, n: nat)
    requires n <= |run|
  {
    forall k: nat :: i <= k <= n ==> h in Reach(parse, INITIAL, run, k).zone.nodes
  }

  predicate Forward(run: seq<Event>) { forall i, j :: 0 <= i < j < |run| ==> run[i].now <= run[j].now }

  lemma {:induction false} LastForced(parse: Parser, run: seq<Event>, h: bytes, i: nat, n: nat)
    requires i < n <= |run| && Forward(run) && LivesBetween(parse, run, h, i, n)
    requires RotationAt(Reach(parse, INITIAL, run, i), run[i], h) && run[i].now > 0
    ensures h in Reach(parse, INITIAL, run, n).zone.nodes
      && Reach(parse, INITIAL, run, n).zone.nodes[h].forcedAt >= run[i].now
  {
    hide Step, RotationAt;
    var before := Reach(parse, INITIAL, run, n - 1);
    assert h in before.zone.nodes && h in Reach(parse, INITIAL, run, n).zone.nodes;
    assert Reach(parse, INITIAL, run, n) == Step(parse, before, run[n - 1]);
    ForcedAtKept(parse, Reach(parse, INITIAL, run, n - 1), run[n - 1], h);
    if n > i + 1 {
      LastForced(parse, run, h, i, n - 1);
    }
  }

  /** While a node lives, two rotation claims for its host are at least the retry time apart. */
  lemma RotationsApart(parse: Parser, run: seq<Event>, h: bytes, i: nat, j: nat)
    requires i < j < |run| && Forward(run) && LivesBetween(parse, run, h, i, j) && run[i].now > 0
    requires RotationAt(Reach(parse, INITIAL, run, i), run[i], h)
    requires RotationAt(Reach(parse, INITIAL, run, j), run[j], h)
    ensures run[j].now - run[i].now >= run[j].action.retryTtl
  {
    hide Step, Reach;
    LastForced(parse, run, h, i, j);
  }
}
