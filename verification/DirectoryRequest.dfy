/**
 * One request's directory state as it runs, over the shared cache and the worker's parse cache:
 * each method is one atomic step of the system, and the handler strings them together.
 */
module DirectoryRequest {
  import opened Bytes
  import opened DirectoryFetch
  import opened FetchInvariants
  import KeyCache
  import KeyZone
  import LruList
  import ParseCache

  // ----- The parse cache's list as slots -----

  function View(l: seq<LruList.Entry>): Slots {
    map h | h in LruList.Hosts(l) && LruList.IndexOfHost(l, h) < |l| ::
      (l[LruList.IndexOfHost(l, h)].generation, l[LruList.IndexOfHost(l, h)].keys)
  }

  lemma ViewAt(l: seq<LruList.Entry>, h: bytes)
    ensures h in View(l) <==> LruList.IndexOfHost(l, h) < |l|
    ensures h in View(l) ==> View(l)[h] == (l[LruList.IndexOfHost(l, h)].generation, l[LruList.IndexOfHost(l, h)].keys)
  {
    hide LruList.Hosts;
    LruList.HostsIn(l, h);
  }

  /** Looking up in the list is looking up in the slots. */
  lemma ViewGet(l: seq<LruList.Entry>, host: bytes, generation: nat)
    ensures CacheGet(View(l), host, generation) == LruList.Get(l, host, generation).1
  {
    hide View, LruList.Touch;
    ViewAt(l, host);
  }

  function PushedOut(l: seq<LruList.Entry>, host: bytes): Option<bytes> {
    if LruList.IndexOfHost(l, host) == |l| && |l| >= LruList.CAPACITY then Some(l[LruList.CAPACITY - 1].host) else None
  }

  lemma ViewTouchAt(l: seq<LruList.Entry>, e: LruList.Entry, h: bytes)
    requires LruList.Distinct(l) && |l| <= LruList.CAPACITY && h != e.host
    ensures var l' := LruList.Touch(l, e);
      var n, n' := LruList.IndexOfHost(l, h), LruList.IndexOfHost(l', h);
      && (n' < |l'| <==> n < |l| && PushedOut(l, e.host) != Some(h))
      && (n' < |l'| ==> l'[n'] == l[n])
  {
    hide LruList.Hosts, LruList.Drop;
    var m := LruList.IndexOfHost(l, e.host);
    if m < |l| {
      LruList.TouchPresent(l, e, h);
    } else if |l| < LruList.CAPACITY {
      LruList.TouchFresh(l, e, h);
    } else {
      LruList.TouchFull(l, e, h);
      PushedLast(l, e, h);
    }
  }

  lemma PushedLast(l: seq<LruList.Entry>, e: LruList.Entry, h: bytes)
    requires LruList.Distinct(l) && |l| == LruList.CAPACITY && h != e.host
    ensures var l' := [e] + l[..LruList.CAPACITY - 1];
      LruList.IndexOfHost(l', h) < |l'| <==> LruList.IndexOfHost(l, h) < |l| && l[LruList.CAPACITY - 1].host != h
  {
    var k := LruList.CAPACITY - 1;
    var n := LruList.IndexOfHost(l, h);
    var l' := [e] + l[..k];
    if n < k {
      assert l'[n + 1] == l[n];
      assert l[k].host != h;
    } else {
      LruList.NotThere(l', h);
    }
  }

  /** Putting into the list is putting into the slots. */
  lemma ViewTouch(l: seq<LruList.Entry>, e: LruList.Entry)
    requires LruList.Distinct(l) && |l| <= LruList.CAPACITY
    ensures View(LruList.Touch(l, e)) == CachePut(View(l), e.host, e.generation, e.keys, PushedOut(l, e.host))
  {
    hide View, LruList.Touch, LruList.Distinct, PushedOut;
    var l' := LruList.Touch(l, e);
    var want := CachePut(View(l), e.host, e.generation, e.keys, PushedOut(l, e.host));
    LruList.TouchSize(l, e);
    LruList.IndexIs(l', e.host, 0);
    forall h
      ensures h in View(l') <==> h in want
      ensures h in View(l') ==> View(l')[h] == want[h]
    {
      ViewAt(l, h);
      ViewAt(l', h);
      if h != e.host {
        ViewTouchAt(l, e, h);
      }
    }
  }

  /** Touching an entry again changes no slot. */
  lemma ViewAgain(l: seq<LruList.Entry>, n: nat)
    requires LruList.Distinct(l) && |l| <= LruList.CAPACITY && n < |l|
    ensures View(LruList.Touch(l, l[n])) == View(l)
  {
    hide View, LruList.Touch, LruList.Distinct;
    ViewTouch(l, l[n]);
    LruList.IndexIs(l, l[n].host, n);
    ViewAt(l, l[n].host);
  }

  // ----- The request -----

  /** Where a fetch for this request would go. */
  datatype Target = NoSignature | NotAllowed | Allowed(host: bytes)

  class Request {
    var host: bytes
    var jwks: bytes
    var generation: nat
    var claimed: bool
    var directoryDone: bool
    var done: bool
    var unavailable: bool
    var cleanup: bool
    ghost var stage: Stage
    ghost var since: int
    ghost var claims: nat
    ghost var given: nat

    ghost function State(): Ctx
      reads this
    {
      Ctx(stage, host, jwks, generation, claimed, directoryDone, done, unavailable, cleanup, since, claims, given)
    }

    constructor ()
      ensures State() == NEW
    {
      host, jwks, generation := [], [], 0;
      claimed, directoryDone, done, unavailable, cleanup := false, false, false, false, false;
      stage, since, claims, given := Idle, 0, 0, 0;
    }

    method Fail()
      modifies this
      ensures State() == FailOpen(old(State()))
    {
      if jwks == [] {
        unavailable := true;
      }
      directoryDone := true;
      stage := Over;
    }

    method End()
      modifies this
      ensures State() == Finish(old(State()))
    {
      directoryDone := true;
      stage := Over;
    }

    /** Gives the right back with a backoff; the flag goes first, so that the pool's cleanup cannot do it again. */
    method FailRelease(cache: KeyCache.Cache, retryAt: int)
      requires cache.Valid()
      modifies this, cache`cells
      ensures cache.Valid() && cache.State() == KeyZone.Release(old(cache.State()), host, retryAt)
      ensures State() == FailOpen(GiveBack(old(State())))
    {
      claimed := false;
      given := given + 1;
      cache.Release(host, retryAt);
      Fail();
    }

    /** The parsed key set for what the request holds: from the worker's cache, else parsed. */
    method ResolveKeys(local: ParseCache.Cache, parse: Parser, works: bool)
        returns (r: Option<Keys>, ghost pushedOut: Option<bytes>)
      requires local.Valid()
      modifies local, local.slots
      ensures local.Valid()
      ensures (View(local.List()), r) == Resolve(parse, View(old(local.List())), State(), works, pushedOut)
    {
      hide View, LruList.Touch, ParseCache.Arranged;
      pushedOut := None;
      if jwks == [] {
        return None, None;
      }
      if generation == 0 {
        return parse(jwks), None;
      }
      ghost var l := local.List();
      ListGood(local);
      ViewGet(l, host, generation);
      r := local.Get(host, generation);
      if r.Some? {
        ViewAgain(l, LruList.IndexOfHost(l, host));
        return;
      }
      if works {
        pushedOut := PushedOut(l, host);
        r := local.Put(host, jwks, generation, parse);
        if r.Some? {
          ViewTouch(l, LruList.Entry(host, generation, r.value));
          return;
        }
      }
      r := parse(jwks);
    }

    /** Asks the shared cache for the host; on a hit, tells whether the key id is covered. */
    method LookUp(cache: KeyCache.Cache, local: ParseCache.Cache, parse: Parser, h: bytes, covers: Keys -> bool,
                  now: int,
                  room: bool, roomAfter: bool, copy: bool, works: bool)
        returns (rotate: bool, ghost f: KeyZone.Found, ghost m: KeyZone.Memory, ghost covered: bool,
          ghost pushedOut: Option<bytes>)
      requires cache.Valid() && local.Valid() && stage == Idle && !claimed && !directoryDone
      modifies this, cache, cache.byHost, local, local.slots
      ensures cache.Valid() && local.Valid() && KeyZone.FindsVictim(old(cache.State()), now, m)
      ensures (cache.State(), f) == KeyZone.Lookup(old(cache.State()), h, now, m)
      ensures State() == Looked(old(State()), h, f, covered, now) && (rotate <==> stage == Uncovered)
      ensures View(local.List()) ==
        if f.status == KeyZone.Hit then Resolve(parse, View(old(local.List())), State(), works, pushedOut).0
                                    else View(old(local.List()))
    {
      hide View, KeyCache.Cache.Valid, KeyCache.Cache.State, ParseCache.Cache.Valid, ParseCache.Cache.List,
        KeyZone.Lookup,
           KeyZone.FindsVictim, Resolve;
      rotate, covered, pushedOut := false, true, None;
      var answer;
      answer, m := cache.Lookup(h, now, room, roomAfter, copy);
      f := answer;
      if answer.status == KeyZone.Hit {
        host, generation, jwks := h, answer.generation, answer.jwks;
        assert State() == old(State()).(host := h, generation := f.generation, jwks := f.jwks);
        rotate, pushedOut := TakeHit(local, parse, covers, works);
        covered := !rotate;
      } else {
        Settle(h, answer, now);
      }
    }

    /** A hit: the key set is parsed, and a key id it does not cover calls for a rotation. */
    method TakeHit(local: ParseCache.Cache, parse: Parser, covers: Keys -> bool, works: bool)
        returns (rotate: bool, ghost pushedOut: Option<bytes>)
      requires local.Valid()
      modifies this, local, local.slots
      ensures local.Valid() && State() == (if rotate then old(State()).(stage := Uncovered) else Finish(old(State())))
      ensures View(local.List()) == Resolve(parse, View(old(local.List())), State(), works, pushedOut).0
    {
      hide View, ParseCache.Cache.Valid, ParseCache.Cache.List, Resolve;
      ghost var c := State();
      var keys;
      keys, pushedOut := ResolveKeys(local, parse, works);
      rotate := keys.Some? && !covers(keys.value);
      if rotate {
        stage := Uncovered;
      } else {
        End();
      }
      ResolveDepends(parse, View(old(local.List())), c, State(), works, pushedOut);
    }

    /** Any other answer of the shared cache. */
    method Settle(h: bytes, answer: KeyZone.Found, now: int)
      requires answer.status != KeyZone.Hit
      modifies this
      ensures State() == Looked(old(State()), h, answer, true, now)
    {
      host, generation := h, answer.generation;
      if answer.status == KeyZone.Claimed {
        Take(now);
      } else if answer.status == KeyZone.Busy && answer.jwks != [] {
        jwks := answer.jwks;
        End();
      } else {
        Fail();
      }
    }

    method Take(now: int)
      modifies this
      ensures State() == TakeRight(old(State()), now)
    {
      claimed := true;
      stage, since, claims := Holding, now, claims + 1;
    }

    method TryRotation(cache: KeyCache.Cache, now: int, retryTtl: int)
      requires cache.Valid() && stage == Uncovered
      modifies this, cache`cells
      ensures cache.Valid() && (cache.State(), State()) == Rotated(old(cache.State()), old(State()), now, retryTtl)
    {
      hide KeyCache.Cache.Valid, KeyCache.Cache.State, KeyZone.ClaimRotation;
      var ok := cache.ClaimRotation(host, now, retryTtl);
      if ok {
        Take(now);
      } else {
        End();
      }
    }

    /** Registers the cleanup, then posts the subrequest. */
    method StartFetch(cache: KeyCache.Cache, now: int, cleanupOk: bool, postOk: bool, retryTtl: int)
      requires cache.Valid() && stage == Holding
      modifies this, cache`cells
      ensures cache.Valid()
      ensures (cache.State(), State()) == SetUp(old(cache.State()), old(State()), now, cleanupOk, postOk, retryTtl)
    {
      hide KeyCache.Cache.Valid, KeyCache.Cache.State, KeyZone.Release;
      cleanup := cleanupOk;
      if !cleanupOk {
        FailRelease(cache, now + retryTtl);
        return;
      }
      if !postOk {
        FailRelease(cache, now + retryTtl);
        return;
      }
      stage := Waiting;
    }

    /** The subrequest's completion: a document that parses is stored, and the right is given back in every case. */
    method FetchDone(cache: KeyCache.Cache, parse: Parser, body: Option<bytes>, now: int, ttl: int, minTtl: int,
                     room: bool, roomAfter: bool, keys: bool) returns (ghost m: KeyZone.Memory)
      requires cache.Valid() && stage == Waiting
      modifies this, cache, cache.byHost
      ensures cache.Valid() && KeyZone.FindsVictim(old(cache.State()), now, m)
      ensures (cache.State(), State()) == Fetched(parse, old(cache.State()), old(State()), now, body, ttl, minTtl, m)
    {
      hide KeyCache.Cache.Valid, KeyCache.Cache.State, KeyZone.Store, KeyZone.Release, KeyZone.FindsVictim;
      m := KeyZone.Memory(room, roomAfter, keys, true, KeyCache.AnyVictim(cache.State(), now));
      KeyCache.TruthfulVictim(cache.State(), now, m);
      var accepted := body.Some? && body.value != [] && parse(body.value).Some?;
      if accepted {
        jwks := body.value;
        generation, m := cache.Store(host, jwks, now + ttl, now, minTtl, room, roomAfter, keys);
        End();
      } else {
        cache.Release(host, now + minTtl);
        Fail();
      }
      LetGo();
    }

    method LetGo()
      modifies `claimed, `given
      ensures State() == GiveBack(old(State()))
    {
      claimed := false;
      given := given + 1;
    }

    /** The pool's cleanup, whether or not the fetch completed first. */
    method PoolDestroyed(cache: KeyCache.Cache, now: int, retryTtl: int)
      requires cache.Valid() && stage != Holding
      modifies this, cache`cells
      ensures cache.Valid() && (cache.State(), State()) == Destroyed(old(cache.State()), old(State()), now, retryTtl)
    {
      hide KeyCache.Cache.Valid, KeyCache.Cache.State, KeyZone.Release;
      if cleanup && claimed {
        claimed := false;
        given := given + 1;
        cache.Release(host, now + retryTtl);
      }
      directoryDone := true;
      stage := Over;
    }

    /** The phase handler: returns whether a fetch is under way. */
    method Handle(cache: KeyCache.Cache, local: ParseCache.Cache, parse: Parser, target: Target, covers: Keys -> bool,
                  now: int,
                  later: int, room: bool, roomAfter: bool, copy: bool, works: bool, cleanupOk: bool, postOk: bool,
                  rotationTtl: int, retryTtl: int) returns (again: bool)
      requires cache.Valid() && local.Valid() && Accounted(State()) && stage != Holding && stage != Uncovered
      modifies this, cache, cache.byHost, local, local.slots
      ensures cache.Valid() && local.Valid() && Accounted(State()) && (stage == Waiting || stage == Over)
      ensures again <==> claimed
      ensures !again ==> directoryDone && given == claims
      ensures old(stage) != Idle ==> State() == old(State()) && cache.State() == old(cache.State())
      ensures old(stage) == Idle && (old(done) || !target.Allowed?) ==> cache.State() == old(cache.State()) && !again
    {
      hide View, KeyCache.Cache.Valid, KeyCache.Cache.State, ParseCache.Cache.Valid, ParseCache.Cache.List,
        KeyZone.Lookup, KeyZone.FindsVictim, Resolve, KeyZone.Release, KeyZone.ClaimRotation;
      if directoryDone {
        return false;
      }
      if claimed {
        return true;
      }
      if done {
        End();
        return false;
      }
      match target
      case NoSignature =>
        End();
        return false;
      case NotAllowed =>
        Fail();
        return false;
      case Allowed(h) =>
        again := HandleAllowed(cache, local, parse, h, covers, now, later, room, roomAfter, copy, works, cleanupOk,
          postOk,
                               rotationTtl, retryTtl);
    }

    method HandleAllowed(cache: KeyCache.Cache, local: ParseCache.Cache, parse: Parser, h: bytes,
                         covers: Keys -> bool, now: int,
                         later: int, room: bool, roomAfter: bool, copy: bool, works: bool, cleanupOk: bool,
                           postOk: bool,
                         rotationTtl: int, retryTtl: int) returns (again: bool)
      requires cache.Valid() && local.Valid() && Accounted(State()) && stage == Idle
      modifies this, cache, cache.byHost, local, local.slots
      ensures cache.Valid() && local.Valid() && Accounted(State()) && (stage == Waiting || stage == Over)
      ensures again <==> claimed
    {
      hide View, KeyCache.Cache.Valid, KeyCache.Cache.State, ParseCache.Cache.Valid, ParseCache.Cache.List,
        KeyZone.Lookup,
           KeyZone.FindsVictim, Resolve, KeyZone.Release, KeyZone.ClaimRotation, Looked, Rotated, SetUp, Accounted;
      ghost var c := State();
      EndsAccounted(c);
      var rotate;
      ghost var f, m, covered, pushedOut;
      IdleFree(c);
      rotate, f, m, covered, pushedOut := LookUp(cache, local, parse, h, covers, now, room, roomAfter, copy, works);
      LookedAccounted(c, h, f, covered, now);
      LookedStages(c, h, f, covered, now);
      if rotate {
        ghost var z, d := cache.State(), State();
        RotatedAccounted(z, d, later, rotationTtl);
        TryRotation(cache, later, rotationTtl);
      }
      ClaimedStages(State());
      if claimed {
        ghost var z, d := cache.State(), State();
        SetUpAccounted(z, d, later, cleanupOk, postOk, retryTtl);
        StartFetch(cache, later, cleanupOk, postOk, retryTtl);
      }
      again := claimed;
    }
  }

  lemma IdleFree(c: Ctx)
    requires Accounted(c) && c.stage == Idle
    ensures !c.claimed && !c.directoryDone
  {
  }

  lemma LookedStages(c: Ctx, h: bytes, f: KeyZone.Found, covered: bool, now: int)
    ensures var s := Looked(c, h, f, covered, now).stage; s == Over || s == Uncovered || s == Holding
  {
  }

  lemma ClaimedStages(c: Ctx)
    requires Accounted(c) && (c.stage == Over || c.stage == Holding)
    ensures c.claimed <==> c.stage == Holding
  {
  }

  lemma RotatedAccounted(z: KeyZone.Zone, c: Ctx, now: int, retryTtl: int)
    requires Accounted(c) && c.stage == Uncovered
    ensures var d := Rotated(z, c, now, retryTtl).1; Accounted(d) && (d.stage == Holding || d.stage == Over)
  {
    hide KeyZone.ClaimRotation;
  }

  lemma SetUpAccounted(z: KeyZone.Zone, c: Ctx, now: int, cleanupOk: bool, postOk: bool, retryTtl: int)
    requires Accounted(c) && c.stage == Holding
    ensures var d := SetUp(z, c, now, cleanupOk, postOk, retryTtl).1;
      Accounted(d) && (d.stage == Waiting || d.stage == Over)
  {
    hide KeyZone.Release;
  }

  /** Which keys a request resolves to depends on what it holds and for whom, not on its stage. */
  lemma ResolveDepends(parse: Parser, slots: Slots, c: Ctx, d: Ctx, works: bool, pushedOut: Option<bytes>)
    requires c.jwks == d.jwks && c.generation == d.generation && c.host == d.host
    ensures Resolve(parse, slots, c, works, pushedOut) == Resolve(parse, slots, d, works, pushedOut)
  {
  }

  lemma ListGood(local: ParseCache.Cache)
    requires local.Valid()
    ensures LruList.Distinct(local.List()) && |local.List()| <= LruList.CAPACITY
  {
    ParseCache.Arrangement(local.slots[..], local.order, local.clock);
  }
}
