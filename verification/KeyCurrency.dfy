/**
 * When a cached key directory is current: what a lookup answers in every case, and over runs of
 * operations, that a stored key set is served until it expires and from then on no more.
 */
module KeyCurrency {
  import opened Bytes
  import opened KeyZone

  // ----- One lookup -----

  /** A node for an absent host can be had, at once or after the victim's is given up. */
  predicate HasRoom(m: Memory) { m.node || (m.victim.Some? && m.nodeAfter) }

  /** The host's key set, or its known absence, has not expired. */
  predicate Current(z: Zone, host: bytes, now: int) { host in z.nodes && now < z.nodes[host].expiresAt }

  /** A fetch for the host began less than thirty seconds ago. */
  predicate UnderFetch(z: Zone, host: bytes, now: int) {
    host in z.nodes && z.nodes[host].fetching && now < z.nodes[host].fetchingSince + 30
  }

  predicate HasKeys(z: Zone, host: bytes) { host in z.nodes && z.nodes[host].jwks != [] }

  /** Each answer of a lookup, exactly when it is given. */
  lemma LookupExactly(z: Zone, host: bytes, now: int, m: Memory)
    ensures var (z', f) := Lookup(z, host, now, m);
      var current, busy := Current(z, host, now), !Current(z, host, now) && UnderFetch(z, host, now);
      var free := !Current(z, host, now) && !UnderFetch(z, host, now);
      && (f.status == Hit <==> current && HasKeys(z, host) && m.copy)
      && (f.status == Negative <==> current && !HasKeys(z, host))
      && (f.status == Busy <==> busy && (HasKeys(z, host) ==> m.copy))
      && (f.status == CopyFailed <==> (current || busy) && HasKeys(z, host) && !m.copy)
      && (f.status == Claimed <==> free && (host in z.nodes || HasRoom(m)))
      && (f.status == Unavailable <==> host !in z.nodes && !HasRoom(m))
  {
  }

  /** What comes with the answer: the host's own key set, or none; and the right with the claim only. */
  lemma LookupYields(z: Zone, host: bytes, now: int, m: Memory)
    ensures var (z', f) := Lookup(z, host, now, m);
      && (f.jwks != [] ==> HasKeys(z, host) && f.jwks == z.nodes[host].jwks && f.generation == z.nodes[host].generation)
      && (f.status == Hit ==> f.jwks != [])
      && (f.status == Busy && HasKeys(z, host) ==> f.jwks != [])
      && (f.status == Claimed ==> host in z'.nodes && z'.nodes[host].fetching && z'.nodes[host].fetchingSince == now)
      && (f.status != Claimed && f.status != Unavailable ==> z' == z)
      && z'.generation == z.generation
  {
  }

  /** Of the other hosts only the one given up for a new node is affected: by a lookup as by a store. */
  predicate OthersKept(z: Zone, z': Zone, host: bytes, m: Memory) {
    forall h :: h in z.nodes && h != host ==>
      if GivenUpFor(z, host, m, h) then h !in z'.nodes else h in z'.nodes && z'.nodes[h] == z.nodes[h]
  }

  lemma KeepsOthers(z: Zone, host: bytes, jwks: bytes, expiresAt: int, now: int, retryTtl: int, m: Memory)
    ensures OthersKept(z, Lookup(z, host, now, m).0, host, m)
    ensures OthersKept(z, Store(z, host, jwks, expiresAt, now, retryTtl, m).0, host, m)
  {
  }

  /**
   * A rotation claim is granted exactly to a host that is there, not under fetch, and not refetched
   * within the retry time.
   */
  lemma RotationExactly(z: Zone, host: bytes, now: int, retryTtl: int)
    ensures var (z', ok) := ClaimRotation(z, host, now, retryTtl);
      && (ok <==> host in z.nodes && !z.nodes[host].fetching
                  && (z.nodes[host].forcedAt == 0 || z.nodes[host].forcedAt + retryTtl <= now))
      && (ok ==>
            var n := z.nodes[host].(fetching := true, fetchingSince := now, forcedAt := now);
            z' == z.(nodes := z.nodes[host := n]))
      && (!ok ==> z' == z)
  {
  }

  // ----- Runs -----

  datatype Op =
    | LookupOp(host: bytes, now: int, memory: Memory)
    | RotateOp(host: bytes, now: int, retryTtl: int)
    | StoreOp(host: bytes, jwks: bytes, expiresAt: int, now: int, retryTtl: int, memory: Memory)
    | ReleaseOp(host: bytes, retryAt: int)

  function Apply(z: Zone, op: Op): Zone {
    match op
    case LookupOp(h, now, m) => Lookup(z, h, now, m).0
    case RotateOp(h, now, retryTtl) => ClaimRotation(z, h, now, retryTtl).0
    case StoreOp(h, jwks, expiresAt, now, retryTtl, m) => Store(z, h, jwks, expiresAt, now, retryTtl, m).0
    case ReleaseOp(h, retryAt) => Release(z, h, retryAt)
  }

  function After(z: Zone, ops: seq<Op>, n: nat): Zone
    requires n <= |ops|
  {
    if n == 0 then z else Apply(After(z, ops, n - 1), ops[n - 1])
  }

  /** The operation sets when the host expires. */
  predicate Sets(op: Op, h: bytes) { (op.StoreOp? || op.ReleaseOp?) && op.host == h }

  /** While the host's node lives, only a store or a release for the host changes its keys or expiry. */
  lemma Untouched(z: Zone, op: Op, h: bytes)
    requires h in z.nodes && h in Apply(z, op).nodes && !Sets(op, h)
    ensures var n, n' := z.nodes[h], Apply(z, op).nodes[h];
      n'.jwks == n.jwks && n'.expiresAt == n.expiresAt && n'.generation == n.generation
  {
  }

  /** From `i` to `n` the host's node lives, and no store or release is for the host. */
  ghost predicate Undisturbed(z: Zone, ops: seq<Op>, h: bytes, i: nat, n: nat)
    requires n <= |ops|
  {
    && (forall k :: i <= k <= n ==> h in After(z, ops, k).nodes)
    && (forall k :: i <= k < n ==> !Sets(ops[k], h))
  }

  lemma {:induction false} Stays(z: Zone, ops: seq<Op>, h: bytes, i: nat, n: nat)
    requires i <= n <= |ops| && Undisturbed(z, ops, h, i, n)
    ensures var a, b := After(z, ops, i).nodes[h], After(z, ops, n).nodes[h];
      a.jwks == b.jwks && a.expiresAt == b.expiresAt && a.generation == b.generation
  {
    hide Apply;
    if i < n {
      Stays(z, ops, h, i, n - 1);
      assert h in After(z, ops, n - 1).nodes && h in After(z, ops, n).nodes;
      Untouched(After(z, ops, n - 1), ops[n - 1], h);
    }
  }

  /** Operation `i` took in `jwks` for the host, to expire at `e`. */
  predicate Stored(z: Zone, ops: seq<Op>, i: nat, h: bytes, jwks: bytes, e: int)
    requires i < |ops|
  {
    && ops[i].StoreOp? && ops[i].host == h && ops[i].jwks == jwks && ops[i].expiresAt == e
    && Store(After(z, ops, i), h, jwks, e, ops[i].now, ops[i].retryTtl, ops[i].memory).1 != 0
  }

  /**
   * A stored key set is current exactly until it expires: every lookup before then yields those
   * bytes, and none does from then on but as a stand-in while a fetch is under way.
   */
  lemma ServedUntilExpiry(z: Zone, ops: seq<Op>, i: nat, n: nat, h: bytes, jwks: bytes, e: int, now: int, m: Memory)
    requires i < n <= |ops| && Stored(z, ops, i, h, jwks, e) && jwks != []
    requires Undisturbed(z, ops, h, i + 1, n)
    ensures var f := Lookup(After(z, ops, n), h, now, m).1;
      && (m.copy ==> (f.status == Hit <==> now < e))
      && (f.status == Hit ==> f.jwks == jwks && now < e)
      && (now >= e ==> f.status == Claimed || f.status == Busy || f.status == CopyFailed)
      && (f.status == Claimed <==> now >= e && !UnderFetch(After(z, ops, n), h, now))
      && f.status != Negative && f.status != Unavailable
  {
    hide Lookup, Apply, Store;
    StoreSets(After(z, ops, i), h, jwks, e, ops[i].now, ops[i].retryTtl, ops[i].memory);
    Unfold(z, ops, i);
    Stays(z, ops, h, i + 1, n);
    LookupExactly(After(z, ops, n), h, now, m);
    LookupYields(After(z, ops, n), h, now, m);
  }

  lemma Unfold(z: Zone, ops: seq<Op>, i: nat)
    requires i < |ops|
    ensures After(z, ops, i + 1) == Apply(After(z, ops, i), ops[i])
    ensures ops[i].StoreOp? ==>
      Apply(After(z, ops, i), ops[i]) == Store(After(z, ops, i), ops[i].host, ops[i].jwks, ops[i].expiresAt, ops[i].now,
                                               ops[i].retryTtl, ops[i].memory).0
    ensures ops[i].ReleaseOp? ==>
      Apply(After(z, ops, i), ops[i]) == Release(After(z, ops, i), ops[i].host, ops[i].retryAt)
  {
    hide Lookup, Store, Release, ClaimRotation;
  }

  /** A store that has room leaves the host with the keys, the expiry and a fresh generation, and ends the fetch. */
  lemma StoreSets(z: Zone, h: bytes, jwks: bytes, e: int, now: int, retryTtl: int, m: Memory)
    ensures var (z', g) := Store(z, h, jwks, e, now, retryTtl, m);
      && (g != 0 <==> (h in z.nodes || HasRoom(m)) && m.keys)
      && (g != 0 ==> h in z'.nodes && z'.nodes[h].jwks == jwks && z'.nodes[h].expiresAt == e
                     && z'.nodes[h].generation == g == z'.generation == z.generation + 1 && !z'.nodes[h].fetching)
      && (g == 0 && h in z'.nodes ==> z'.nodes[h].expiresAt == now + retryTtl && !z'.nodes[h].fetching)
      && (g == 0 ==> z'.generation == z.generation)
  {
  }

  /** After a release nothing is fetched before the retry time, and the key set, if any, is served until then. */
  lemma ReleasedUntilRetry(z: Zone, ops: seq<Op>, i: nat, n: nat, h: bytes, now: int, m: Memory)
    requires i < n <= |ops| && ops[i].ReleaseOp? && ops[i].host == h
    requires Undisturbed(z, ops, h, i + 1, n)
    ensures var f, before := Lookup(After(z, ops, n), h, now, m).1, After(z, ops, i);
      && h in before.nodes
      && (now < ops[i].retryAt ==>
            f.status == if before.nodes[h].jwks == [] then Negative else if m.copy then Hit else CopyFailed)
      && (now < ops[i].retryAt && m.copy ==> f.jwks == before.nodes[h].jwks)
      && (now >= ops[i].retryAt ==> f.status == Claimed || f.status == Busy || f.status == CopyFailed)
  {
    hide Lookup, Apply, Release;
    ReleaseSets(After(z, ops, i), h, ops[i].retryAt);
    Unfold(z, ops, i);
    Stays(z, ops, h, i + 1, n);
    LookupExactly(After(z, ops, n), h, now, m);
    LookupYields(After(z, ops, n), h, now, m);
  }

  lemma ReleaseSets(z: Zone, h: bytes, retryAt: int)
    ensures var z' := Release(z, h, retryAt);
      && (h in z'.nodes <==> h in z.nodes)
      && (h in z.nodes ==> z'.nodes[h] == z.nodes[h].(fetching := false, expiresAt := retryAt))
      && (forall k :: k in z.nodes && k != h ==> k in z'.nodes && z'.nodes[k] == z.nodes[k])
      && z'.generation == z.generation
  {
  }

  // ----- Nothing current is given up -----

  /** When an operation happens; a release has no clock of its own. */
  predicate Clocked(z: Zone, op: Op, e: int) {
    match op
    case LookupOp(_, now, m) => now < e && Truthful(z, now, m)
    case RotateOp(_, now, _) => now < e
    case StoreOp(_, _, _, now, _, m) => now < e && Truthful(z, now, m)
    case ReleaseOp(_, _) => true
  }

  /**
   * The node the walk offers for room is there, expired and not under fetch; it offers none only
   * when there is none.
   */
  predicate Truthful(z: Zone, now: int, m: Memory) {
    if m.victim.Some? then
      var h := m.victim.value;
      h in z.nodes && !z.nodes[h].fetching && z.nodes[h].expiresAt <= now
    else
      forall h :: h in z.nodes ==> z.nodes[h].fetching || now < z.nodes[h].expiresAt
  }

  lemma TruthfulExactly(z: Zone, now: int, m: Memory)
    ensures FindsVictim(z, now, m) <==> Truthful(z, now, m)
  {
  }

  lemma CurrentKept(z: Zone, op: Op, h: bytes)
    requires h in z.nodes && Clocked(z, op, z.nodes[h].expiresAt) && !Sets(op, h)
    ensures h in Apply(z, op).nodes
  {
  }

  /** From `i` to `n` no store or release is for the host, and every operation comes before `e`. */
  ghost predicate QuietBefore(z: Zone, ops: seq<Op>, h: bytes, i: nat, n: nat, e: int)
    requires n <= |ops|
  {
    forall k :: i <= k < n ==> !Sets(ops[k], h) && Clocked(After(z, ops, k), ops[k], e)
  }

  lemma {:induction false} NotGivenUp(z: Zone, ops: seq<Op>, h: bytes, i: nat, n: nat)
    requires i <= n <= |ops| && h in After(z, ops, i).nodes
    requires QuietBefore(z, ops, h, i, n, After(z, ops, i).nodes[h].expiresAt)
    ensures Undisturbed(z, ops, h, i, n)
  {
    hide Apply, Clocked;
    if i < n {
      NotGivenUp(z, ops, h, i, n - 1);
      Stays(z, ops, h, i, n - 1);
      LastKept(z, ops, h, i, n);
    }
  }

  lemma LastKept(z: Zone, ops: seq<Op>, h: bytes, i: nat, n: nat)
    requires i < n <= |ops| && Undisturbed(z, ops, h, i, n - 1)
    requires !Sets(ops[n - 1], h) && Clocked(After(z, ops, n - 1), ops[n - 1], After(z, ops, n - 1).nodes[h].expiresAt)
    ensures Undisturbed(z, ops, h, i, n)
  {
    hide Apply, Clocked;
    assert h in After(z, ops, n - 1).nodes;
    CurrentKept(After(z, ops, n - 1), ops[n - 1], h);
  }

  /**
   * A stored key set is neither given up for another host nor fetched again before it expires:
   * whatever runs until then, every lookup before then yields its bytes.
   */
  lemma ServedWhateverRuns(z: Zone, ops: seq<Op>, i: nat, n: nat, h: bytes, jwks: bytes, e: int, now: int, m: Memory)
    requires i < n <= |ops| && Stored(z, ops, i, h, jwks, e) && jwks != []
    requires QuietBefore(z, ops, h, i + 1, n, e) && now < e && m.copy
    ensures var f := Lookup(After(z, ops, n), h, now, m).1; f.status == Hit && f.jwks == jwks
  {
    hide Lookup, Apply, Store, Clocked;
    StoreSets(After(z, ops, i), h, jwks, e, ops[i].now, ops[i].retryTtl, ops[i].memory);
    Unfold(z, ops, i);
    NotGivenUp(z, ops, h, i + 1, n);
    ServedUntilExpiry(z, ops, i, n, h, jwks, e, now, m);
  }
}
