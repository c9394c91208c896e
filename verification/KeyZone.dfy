/**
 * What the shared key-directory cache does: per host a fetched key set, a right to fetch, and
 * a zone-wide generation counter. Each operation is one critical section. Whether shared
 * memory has room is the environment's choice.
 */
module KeyZone {
  import opened Bytes

  const FETCH_TIMEOUT := 30

  /** One host's entry; an empty key set stands for none. */
  datatype Node = Node(jwks: bytes, expiresAt: int, fetching: bool, fetchingSince: int, forcedAt: int, generation: nat)

  const FRESH := Node([], 0, false, 0, 0, 0)

  datatype Zone = Zone(nodes: map<bytes, Node>, generation: nat)

  /**
   * What memory allows during one operation: whether a node fits at once, whether it fits after
   * the victim is evicted, whether a key set fits, and which node the walk for a victim finds.
   */
  datatype Memory = Memory(node: bool, nodeAfter: bool, keys: bool, copy: bool, victim: Option<bytes>)

  datatype Status = Hit | Claimed | Busy | Negative | Unavailable | CopyFailed

  /** Expired and not being fetched. */
  predicate Evictable(n: Node, now: int) { !n.fetching && n.expiresAt <= now }

  /** The walk finds an evictable node whenever there is one. */
  ghost predicate FindsVictim(z: Zone, now: int, m: Memory) {
    if m.victim.Some? then m.victim.value in z.nodes && Evictable(z.nodes[m.victim.value], now)
    else forall h :: h in z.nodes ==> !Evictable(z.nodes[h], now)
  }

  /** A node for a new host; one expired node is given up for it when memory is short. */
  function AllocNode(z: Zone, host: bytes, m: Memory): (Zone, bool) {
    if m.node then (z.(nodes := z.nodes[host := FRESH]), true)
    else if m.victim.None? then (z, false)
    else
      var z' := z.(nodes := z.nodes - {m.victim.value});
      if m.nodeAfter then (z'.(nodes := z'.nodes[host := FRESH]), true) else (z', false)
  }

  datatype Found = Found(status: Status, jwks: bytes, generation: nat)

  predicate HeldAt(n: Node, now: int) { n.fetching && now - n.fetchingSince < FETCH_TIMEOUT }

  function Claim(z: Zone, host: bytes, now: int): Zone
    requires host in z.nodes
  {
    z.(nodes := z.nodes[host := z.nodes[host].(fetching := true, fetchingSince := now)])
  }

  function Copy(n: Node, status: Status, m: Memory): Found {
    if n.jwks == [] then Found(if status == Hit then Negative else status, [], 0)
    else if m.copy then Found(status, n.jwks, n.generation)
    else Found(CopyFailed, [], 0)
  }

  /** The cached key set, or the right to fetch one. */
  function Lookup(z: Zone, host: bytes, now: int, m: Memory): (Zone, Found) {
    if host in z.nodes && z.nodes[host].expiresAt > now then (z, Copy(z.nodes[host], Hit, m))
    else if host in z.nodes && HeldAt(z.nodes[host], now) then (z, Copy(z.nodes[host], Busy, m))
    else
      var (z', ok) := if host in z.nodes then (z, true) else AllocNode(z, host, m);
      if ok then (Claim(z', host, now), Found(Claimed, [], 0)) else (z', Found(Unavailable, [], 0))
  }

  /** A rate-limited right to refetch although the cached key set has not expired. */
  function ClaimRotation(z: Zone, host: bytes, now: int, retryTtl: int): (Zone, bool) {
    if host !in z.nodes || z.nodes[host].fetching then (z, false)
    else if z.nodes[host].forcedAt != 0 && now - z.nodes[host].forcedAt < retryTtl then (z, false)
    else
      var z' := Claim(z, host, now);
      (z'.(nodes := z'.nodes[host := z'.nodes[host].(forcedAt := now)]), true)
  }

  /** Takes in a fetched key set under the next generation; without room, backs off and keeps the old one. */
  function Store(z: Zone, host: bytes, jwks: bytes, expiresAt: int, now: int, retryTtl: int, m: Memory): (Zone, nat) {
    var (z', ok) := if host in z.nodes then (z, true) else AllocNode(z, host, m);
    if !ok then (z', 0)
    else
      var n := z'.nodes[host];
      if !m.keys then (z'.(nodes := z'.nodes[host := n.(fetching := false, expiresAt := now + retryTtl)]), 0)
      else
        var g := z'.generation + 1;
        (Zone(z'.nodes[host := n.(jwks := jwks, expiresAt := expiresAt, fetching := false, generation := g)], g), g)
  }

  /** Gives the right back after a failed fetch; the key set stays. */
  function Release(z: Zone, host: bytes, retryAt: int): Zone {
    if host !in z.nodes then z
    else z.(nodes := z.nodes[host := z.nodes[host].(fetching := false, expiresAt := retryAt)])
  }

  // ----- Generations stand for bytes -----

  /** Every key set ever stored, by its generation. */
  type History = map<nat, (bytes, bytes)>

  predicate Stands(log: History, generation: nat, host: bytes, jwks: bytes) {
    generation in log && log[generation] == (host, jwks)
  }

  /** The counter is ahead of every generation, and each node carries what its generation stored for its host. */
  ghost predicate Coherent(z: Zone, log: History) {
    && (forall g :: g in log ==> 0 < g <= z.generation)
    && (forall h :: h in z.nodes ==> NodeCoherent(z.nodes[h], h, log))
  }

  predicate NodeCoherent(n: Node, h: bytes, log: History) {
    if n.generation == 0 then n.jwks == [] else Stands(log, n.generation, h, n.jwks)
  }

  /** What a store adds to the history. */
  function Logged(log: History, z: Zone, host: bytes, jwks: bytes, expiresAt: int, now: int, retryTtl: int,
                  m: Memory): History {
    var g := Store(z, host, jwks, expiresAt, now, retryTtl, m).1;
    if g == 0 then log else log[g := (host, jwks)]
  }

  lemma AllocCoherent(z: Zone, log: History, host: bytes, m: Memory)
    requires Coherent(z, log)
    ensures var (z', ok) := AllocNode(z, host, m);
      Coherent(z', log) && z'.generation == z.generation && (ok ==> host in z'.nodes)
  {
  }

  /**
   * A lookup hands out a generation only with the bytes it stands for, and otherwise no key set but
   * an older one's absence.
   */
  lemma LookupCoherent(z: Zone, log: History, host: bytes, now: int, m: Memory)
    requires Coherent(z, log)
    ensures var (z', f) := Lookup(z, host, now, m);
      && Coherent(z', log)
      && (f.generation != 0 ==> Stands(log, f.generation, host, f.jwks))
      && (f.jwks != [] <==> f.generation != 0)
      && (f.jwks != [] ==> f.status == Hit || f.status == Busy)
  {
    AllocCoherent(z, log, host, m);
  }

  lemma ClaimRotationCoherent(z: Zone, log: History, host: bytes, now: int, retryTtl: int)
    requires Coherent(z, log)
    ensures Coherent(ClaimRotation(z, host, now, retryTtl).0, log)
  {
  }

  lemma ReleaseCoherent(z: Zone, log: History, host: bytes, retryAt: int)
    requires Coherent(z, log)
    ensures Coherent(Release(z, host, retryAt), log)
  {
  }

  /** A store takes a generation never used before, so what older generations stand for does not change. */
  lemma StoreCoherent(z: Zone, log: History, host: bytes, jwks: bytes, expiresAt: int, now: int, retryTtl: int,
                      m: Memory)
    requires Coherent(z, log)
    ensures var (z', g) := Store(z, host, jwks, expiresAt, now, retryTtl, m);
      var log' := Logged(log, z, host, jwks, expiresAt, now, retryTtl, m);
      && Coherent(z', log')
      && (g != 0 ==> g !in log && Stands(log', g, host, jwks))
      && (forall k :: k in log ==> k in log' && log'[k] == log[k])
  {
    hide AllocNode;
    AllocCoherent(z, log, host, m);
  }

  // ----- A failed refetch costs nothing already held -----

  /** The host's node goes to make room for a new host's. */
  predicate GivenUpFor(z: Zone, host: bytes, m: Memory, h: bytes) { host !in z.nodes && !m.node && m.victim == Some(h) }

  predicate SameKeys(z: Zone, z': Zone, h: bytes)
    requires h in z.nodes
  {
    h in z'.nodes && z'.nodes[h].jwks == z.nodes[h].jwks && z'.nodes[h].generation == z.nodes[h].generation
  }

  /**
   * A release changes no host's key set; a store that could not take the keys in changes none
   * either, but takes away the one node given up for a new host.
   */
  lemma FailureKeepsKeys(z: Zone, host: bytes, jwks: bytes, expiresAt: int, now: int, retryTtl: int, m: Memory,
                         h: bytes)
    requires h in z.nodes
    ensures SameKeys(z, Release(z, host, now), h)
    ensures Store(z, host, jwks, expiresAt, now, retryTtl, m).1 == 0 ==>
      var z' := Store(z, host, jwks, expiresAt, now, retryTtl, m).0;
      if GivenUpFor(z, host, m, h) then h !in z'.nodes else SameKeys(z, z', h)
  {
  }

  // ----- The fetch right -----

  /** A stranded right stops blocking lookups after the timeout, to the second. */
  lemma StrandedRightExpires(z: Zone, host: bytes, now: int, m: Memory)
    requires host in z.nodes && z.nodes[host].fetching && z.nodes[host].expiresAt <= now
    ensures var (z', f) := Lookup(z, host, now, m);
      if now < z.nodes[host].fetchingSince + FETCH_TIMEOUT then f.status != Claimed && z' == z
      else f.status == Claimed && z'.nodes[host].fetchingSince == now
  {
  }

  /** Making room never takes a node that is being fetched. */
  lemma AllocKeepsHeld(z: Zone, host: bytes, now: int, m: Memory, h: bytes)
    requires FindsVictim(z, now, m) && h in z.nodes && h != host && z.nodes[h].fetching
    ensures var z' := AllocNode(z, host, m).0; h in z'.nodes && z'.nodes[h] == z.nodes[h]
  {
  }
}
