/**
 * Fetching key directories, across workers: the steps every request context goes through, each
 * one atomic on the shared zone, in any interleaving. Keys handed to verification are always
 * the parse of the bytes the request holds, a fetch right has at most one live holder, and
 * every right claimed is given back once.
 */
module DirectoryFetch {
  import opened Bytes
  import opened KeyZone

  /** A parsed key set. */
  type Keys = nat

  type Parser = bytes -> Option<Keys>

  // ----- The worker-local parse cache, as its users see it -----

  /** At most one parsed key set a host, with the generation it was parsed at. */
  type Slots = map<bytes, (nat, Keys)>

  function CacheGet(slots: Slots, host: bytes, generation: nat): Option<Keys> {
    if generation == 0 || host !in slots || slots[host].0 != generation then None else Some(slots[host].1)
  }

  /** A put replaces the host's slot and may push out another host's. */
  function CachePut(slots: Slots, host: bytes, generation: nat, keys: Keys, pushedOut: Option<bytes>): Slots {
    (if pushedOut.Some? then slots - {pushedOut.value} else slots)[host := (generation, keys)]
  }

  // ----- One request's directory state -----

  /**
   * Before the lookup; after a hit that does not cover the key id; holding the right; with the
   * fetch under way; finished.
   */
  datatype Stage = Idle | Uncovered | Holding | Waiting | Over

  datatype Ctx = Ctx(
    stage: Stage,
    host: bytes,
    jwks: bytes,
    generation: nat,
    claimed: bool,
    directoryDone: bool,
    done: bool,
    unavailable: bool,
    cleanup: bool,
    since: int,
    claims: nat,
    given: nat)

  const NEW := Ctx(Idle, [], [], 0, false, false, false, false, false, 0, 0, 0)

  /** Every path that cannot complete the fetch: whatever key set the request holds stays usable. */
  function FailOpen(c: Ctx): Ctx {
    c.(stage := Over, directoryDone := true, unavailable := c.unavailable || c.jwks == [])
  }

  function Finish(c: Ctx): Ctx { c.(stage := Over, directoryDone := true) }

  function TakeRight(c: Ctx, now: int): Ctx {
    c.(stage := Holding, claimed := true, since := now, claims := c.claims + 1)
  }

  function GiveBack(c: Ctx): Ctx { c.(claimed := false, given := c.given + 1) }

  /** What the lookup's answer does to the request. */
  function Looked(c: Ctx, host: bytes, f: Found, covered: bool, now: int): Ctx {
    var d := c.(host := host, generation := f.generation);
    match f.status
    case Hit => if covered then Finish(d.(jwks := f.jwks)) else d.(jwks := f.jwks, stage := Uncovered)
    case Busy => if f.jwks != [] then Finish(d.(jwks := f.jwks)) else FailOpen(d)
    case Claimed => TakeRight(d, now)
    case Negative => FailOpen(d)
    case Unavailable => FailOpen(d)
    case CopyFailed => FailOpen(d)
  }

  /** The document the parse cache or a direct parse yields for what the request holds. */
  function Resolve(parse: Parser, slots: Slots, c: Ctx, cacheWorks: bool, pushedOut: Option<bytes>)
    : (Slots, Option<Keys>)
  {
    if c.jwks == [] then (slots, None)
    else if c.generation == 0 then (slots, parse(c.jwks))
    else if CacheGet(slots, c.host, c.generation).Some? then (slots, CacheGet(slots, c.host, c.generation))
    else if !cacheWorks || parse(c.jwks).None? then (slots, parse(c.jwks))
    else (CachePut(slots, c.host, c.generation, parse(c.jwks).value, pushedOut), parse(c.jwks))
  }

  /** A try at a rotation claim. */
  function Rotated(z: Zone, c: Ctx, now: int, retryTtl: int): (Zone, Ctx) {
    var (z', ok) := ClaimRotation(z, c.host, now, retryTtl);
    (z', if ok then TakeRight(c, now) else Finish(c))
  }

  /**
   * Setting the fetch up: first the cleanup that backs the release, then the subrequest; a failure
   * gives the right back.
   */
  function SetUp(z: Zone, c: Ctx, now: int, cleanupOk: bool, postOk: bool, retryTtl: int): (Zone, Ctx) {
    if cleanupOk && postOk then (z, c.(stage := Waiting, cleanup := true))
    else (Release(z, c.host, now + retryTtl), FailOpen(GiveBack(c.(cleanup := cleanupOk))))
  }

  /** A body the fetch may store: accepted, not empty, and parsable. */
  predicate Usable(parse: Parser, body: Option<bytes>) { body.Some? && body.value != [] && parse(body.value).Some? }

  /** The fetch is over: a usable document is stored, anything else gives the right back. */
  function Fetched(parse: Parser, z: Zone, c: Ctx, now: int, body: Option<bytes>, ttl: int, minTtl: int,
                   m: Memory): (Zone, Ctx) {
    if Usable(parse, body) then
      var (z', g) := Store(z, c.host, body.value, now + ttl, now, minTtl, m);
      (z', Finish(GiveBack(c.(jwks := body.value, generation := g))))
    else (Release(z, c.host, now + minTtl), FailOpen(GiveBack(c)))
  }

  /** The request's pool is destroyed: the backstop gives back a right still held. */
  function Destroyed(z: Zone, c: Ctx, now: int, retryTtl: int): (Zone, Ctx) {
    if c.cleanup && c.claimed then (Release(z, c.host, now + retryTtl), Finish(GiveBack(c))) else (z, Finish(c))
  }

  // ----- The system -----

  datatype Sys = Sys(zone: Zone, ctxs: map<nat, Ctx>, workers: map<nat, nat>, slots: map<nat, Slots>, log: History)

  datatype Action =
    | Begin(worker: nat)
    | Ineligible(allowed: bool)
    | DoLookup(host: bytes, covered: bool, cacheWorks: bool, pushedOut: Option<bytes>, memory: Memory)
    | DoRotate(retryTtl: int)
    | DoSetup(cleanupOk: bool, postOk: bool, retryTtl: int)
    | DoFetched(body: Option<bytes>, ttl: int, minTtl: int, memory: Memory)
    | DoEvaluate(cacheWorks: bool, pushedOut: Option<bytes>)
    | DoDestroy(retryTtl: int)
    | Crash

  datatype Event = Event(id: nat, now: int, action: Action)

  function SlotsOf(s: Sys, id: nat): Slots {
    if id in s.workers && s.workers[id] in s.slots then s.slots[s.workers[id]] else map[]
  }

  function WithSlots(s: Sys, id: nat, slots: Slots): Sys {
    if id in s.workers then s.(slots := s.slots[s.workers[id] := slots]) else s
  }

  function WithCtx(s: Sys, id: nat, c: Ctx): Sys { s.(ctxs := s.ctxs[id := c]) }

  function Step(parse: Parser, s: Sys, e: Event): Sys {
    if e.action.Begin? then
      if e.id in s.ctxs then s else WithCtx(s, e.id, NEW).(workers := s.workers[e.id := e.action.worker])
    else if e.id !in s.ctxs then s
    else StepCtx(parse, s, e, s.ctxs[e.id])
  }

  function StepCtx(parse: Parser, s: Sys, e: Event, c: Ctx): Sys {
    match e.action
    case Begin(_) => s
    case Ineligible(allowed) =>
      if c.stage != Idle then s else WithCtx(s, e.id, if allowed then Finish(c) else FailOpen(c))
    case DoLookup(host, covered, cacheWorks, pushedOut, m) =>
      if c.stage != Idle then s
      else if c.done then WithCtx(s, e.id, Finish(c))
      else StepLookup(parse, s, e.id, c, e.now, host, covered, cacheWorks, pushedOut, m)
    case DoRotate(retryTtl) =>
      if c.stage != Uncovered then s
      else
        var (z, d) := Rotated(s.zone, c, e.now, retryTtl);
        WithCtx(s.(zone := z), e.id, d)
    case DoSetup(cleanupOk, postOk, retryTtl) =>
      if c.stage != Holding then s
      else
        var (z, d) := SetUp(s.zone, c, e.now, cleanupOk, postOk, retryTtl);
        WithCtx(s.(zone := z), e.id, d)
    case DoFetched(body, ttl, minTtl, m) =>
      if c.stage != Waiting then s else StepFetched(parse, s, e.id, c, e.now, body, ttl, minTtl, m)
    case DoEvaluate(cacheWorks, pushedOut) =>
      if c.done then s
      else
        var slots := Resolve(parse, SlotsOf(s, e.id), c, cacheWorks, pushedOut).0;
        WithCtx(WithSlots(s, e.id, slots), e.id, c.(done := true))
    case DoDestroy(retryTtl) =>
      if c.stage == Holding then s
      else
        var (z, d) := Destroyed(s.zone, c, e.now, retryTtl);
        WithCtx(s.(zone := z), e.id, d)
    case Crash => s.(ctxs := s.ctxs - {e.id})
  }

  function StepLookup(parse: Parser, s: Sys, id: nat, c: Ctx, now: int, host: bytes, covered: bool, cacheWorks: bool,
                      pushedOut: Option<bytes>, m: Memory): Sys {
    var (z, f) := Lookup(s.zone, host, now, m);
    var d := Looked(c, host, f, covered, now);
    var t := WithCtx(s.(zone := z), id, d);
    if f.status == Hit then WithSlots(t, id, Resolve(parse, SlotsOf(s, id), d, cacheWorks, pushedOut).0) else t
  }

  function StepFetched(parse: Parser, s: Sys, id: nat, c: Ctx, now: int, body: Option<bytes>, ttl: int, minTtl: int,
                       m: Memory): Sys {
    var (z, d) := Fetched(parse, s.zone, c, now, body, ttl, minTtl, m);
    var log :=
      if Usable(parse, body) then Logged(s.log, s.zone, c.host, body.value, now + ttl, now, minTtl, m) else s.log;
    WithCtx(s.(zone := z, log := log), id, d)
  }

  function Reach(parse: Parser, s: Sys, run: seq<Event>, n: nat): Sys
    requires n <= |run|
  {
    if n == 0 then s else Step(parse, Reach(parse, s, run, n - 1), run[n - 1])
  }

  const INITIAL := Sys(Zone(map[], 0), map[], map[], map[], map[])
}
