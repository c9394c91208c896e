/**
 * The shared-memory nonce store as it runs: one set of nodes under two trees, by hash and by
 * expiry, in a zone with a byte budget. Each operation is one critical section.
 */
module NonceStore {
  import opened Bytes
  import opened KeyOrder
  import opened NonceIndex
  import opened NonceSpec
  import opened NonceTheory
  import opened RbOrder
  import opened RbTree
  import RbShape

  class Store {
    const lim: Limits
    const hash: bytes -> nat
    const byKey: Tree<(nat, bytes)>
    const byExpiry: Tree<int>
    var slab: Slab
    var used: nat
    var next: nat
    var lastNomemLog: int

    ghost predicate Valid()
      reads this, byKey, byExpiry
    {
      && byKey.Valid() && byExpiry.Valid() && (byKey as object) != byExpiry
      && byKey.less == ByHash && byExpiry.less == ByTime
      && Indexed(slab, byKey.Nodes(), byExpiry.Nodes(), byKey.key, byExpiry.key, hash)
      && (forall i :: i in slab ==> 0 < i < next) && 0 < next
      && used == Total(Image(byExpiry.Nodes(), slab), lim) <= lim.budget
    }

    /** The records in expiry order. */
    ghost function Records(): seq<Record>
      reads this, byKey, byExpiry
      requires Valid()
    {
      Image(byExpiry.Nodes(), slab)
    }

    ghost function State(): Zone
      reads this, byKey, byExpiry
      requires Valid()
    {
      Zone(Records(), lastNomemLog)
    }

    constructor (lim: Limits, hash: bytes -> nat)
      ensures Valid() && fresh(byKey) && fresh(byExpiry) && State() == Zone([], 0)
      ensures this.lim == lim && this.hash == hash
    {
      ByHashOrder();
      ByTimeOrder();
      this.lim := lim;
      this.hash := hash;
      slab := map[];
      used := 0;
      next := 1;
      lastNomemLog := 0;
      byKey := new Tree(ByHash);
      byExpiry := new Tree(ByTime);
    }

    /** Every state is in expiry order, has one record a key and fits its budget. */
    lemma StateGood()
      requires Valid()
      ensures Good(State(), lim) && Covers(byExpiry.Nodes(), slab) && Timed(byExpiry.Nodes(), slab, byExpiry.key)
    {
      hide Tree.Valid, Tree.Nodes, Ordered, Distinct, Covers, Timed, Indexed, Sorted, Total;
      var ids := byExpiry.Nodes();
      byExpiry.NodesOnce();
      IndexedCovers(slab, byKey.Nodes(), ids, byKey.key, byExpiry.key, hash);
      ImageDistinct(ids, slab);
      ImageOrdered(ids, slab, byExpiry.key);
    }

    /** The node that carries a key, or the sentinel. */
    method Find(key: bytes) returns (node: nat)
      requires Valid()
      ensures node != RbShape.NIL ==>
        node in slab && slab[node].key == key && Lookup(Records(), key) == Some(slab[node])
      ensures node == RbShape.NIL ==> Lookup(Records(), key) == None && forall i :: i in slab ==> slab[i].key != key
    {
      ByHashOrder();
      node := byKey.Find((hash(key), key));
      StateGood();
      if node == RbShape.NIL {
        ImageAbsent(byExpiry.Nodes(), slab, key);
      } else {
        ImageLookup(byExpiry.Nodes(), slab, node);
      }
    }

    /** Takes a node out of both trees and gives its memory back. */
    method Free(node: nat)
      requires Valid() && node in slab
      modifies this, byKey, byExpiry
      ensures Valid() && Records() == Without(old(Records()), old(slab[node].key)) && lastNomemLog == old(lastNomemLog)
      ensures slab == old(slab) - {node}
    {
      hide Tree.Valid, Tree.Nodes, Covers, Timed, Sorted, Total, Good, Cut, Indexed, Without, Ordered, Distinct;
      ghost var names, times, nameKey, timeKey := byKey.Nodes(), byExpiry.Nodes(), byKey.key, byExpiry.key;
      StateGood();
      Listed(slab, names, times, nameKey, timeKey, hash, node);
      byExpiry.Delete(node);
      byKey.Delete(node);
      IndexedWithout(slab, names, times, nameKey, timeKey, hash, node, byKey.Nodes(), byExpiry.Nodes());
      ImageWithout(times, node, byExpiry.Nodes(), slab);
      ImageLookup(times, slab, node);
      GoodParts(State0(times, slab, lastNomemLog), lim);
      WithoutGood(Image(times, slab), slab[node].key, lim);
      used := used - lim.nodeSize - |slab[node].key|;
      slab := slab - {node};
    }

    /** Frees up to a batch of expired nodes, earliest expiry first. */
    method Reclaim(now: int) returns (n: nat)
      requires Valid()
      modifies this, byKey, byExpiry
      ensures Valid() && Records() == Reclaimed(old(Records()), now, RECLAIM_BATCH)
      ensures n == |old(Records())| - |Records()| && lastNomemLog == old(lastNomemLog)
      ensures forall i :: i in slab ==> i in old(slab) && slab[i] == old(slab)[i]
    {
      hide Tree.Valid, Tree.Nodes, Covers, Timed, Sorted, Total, Good, Indexed, Ordered, Distinct;
      n := 0;
      while n < RECLAIM_BATCH
        invariant Valid() && n <= RECLAIM_BATCH && lastNomemLog == old(lastNomemLog)
        invariant Reclaimed(Records(), now, RECLAIM_BATCH - n) == Reclaimed(old(Records()), now, RECLAIM_BATCH)
        invariant n == |old(Records())| - |Records()|
        invariant forall i :: i in slab ==> i in old(slab) && slab[i] == old(slab)[i]
      {
        byExpiry.EmptyExactly();
        if byExpiry.root == RbShape.NIL {
          break;
        }
        var min := byExpiry.First();
        assert min in byExpiry.Nodes();
        Listed(slab, byKey.Nodes(), byExpiry.Nodes(), byKey.key, byExpiry.key, hash, min);
        if slab[min].expiresAt >= now {
          break;
        }
        WithoutFirst(Records());
        Free(min);
        n := n + 1;
      }
    }

    /** Moves a node to a new expiry, in place. */
    method Renew(node: nat, expiresAt: int)
      requires Valid() && node in slab
      modifies this, byExpiry
      ensures Valid() && lastNomemLog == old(lastNomemLog)
      ensures Records() == Insert(Without(old(Records()), old(slab[node].key)), Record(old(slab[node].key), expiresAt))
    {
      hide Tree.Valid, Tree.Nodes, Covers, Timed, Sorted, Total, Good, Cut, Indexed, Without, Insert, Ordered,
        Distinct, InsertAt, Plus;
      ghost var names, times, nameKey, timeKey, was := byKey.Nodes(), byExpiry.Nodes(), byKey.key, byExpiry.key, slab;
      StateGood();
      GoodParts(State(), lim);
      Listed(slab, names, times, nameKey, timeKey, hash, node);
      byExpiry.Delete(node);
      ghost var mid := byExpiry.Nodes();
      ImageWithout(times, node, mid, slab);
      ImageLookup(times, slab, node);
      WithoutGood(Image(times, slab), slab[node].key, lim);
      slab := slab[node := slab[node].(expiresAt := expiresAt)];
      TimedWithout(times, was, timeKey, node, mid);
      ghost var rest := byExpiry.key;
      byExpiry.Insert(node, expiresAt);
      PlusInsert(mid, Place(mid, rest, expiresAt, ByTime), node);
      IndexedMoved(was, names, times, nameKey, timeKey, hash, node, expiresAt, mid, byExpiry.Nodes());
      assert (was - {node})[node := slab[node]] == slab;
      ImageInsert(mid, was - {node}, rest, node, slab[node], slab);
      TotalInsert(Image(mid, was - {node}), slab[node], lim);
    }

    /** Takes memory for a record of a new key, if the zone has it. */
    method Alloc(key: bytes) returns (ok: bool)
      requires Valid()
      ensures ok <==> Fits(Records(), key, lim)
    {
      ok := used + lim.nodeSize + |key| <= lim.budget;
    }

    /** Files a record of a new key under both trees. */
    method Add(key: bytes, expiresAt: int)
      requires Valid() && Fits(Records(), key, lim) && forall i :: i in slab ==> slab[i].key != key
      modifies this, byKey, byExpiry
      ensures Valid() && lastNomemLog == old(lastNomemLog)
      ensures Records() == Insert(old(Records()), Record(key, expiresAt))
    {
      hide Tree.Valid, Tree.Nodes, Covers, Timed, Sorted, Total, Good, Indexed, Insert, Ordered, Distinct, InsertAt,
        Plus;
      ghost var names, times, nameKey, timeKey, was := byKey.Nodes(), byExpiry.Nodes(), byKey.key, byExpiry.key, slab;
      var node, r := next, Record(key, expiresAt);
      StateGood();
      Listed(slab, names, times, nameKey, timeKey, hash, node);
      byKey.NodesOnce();
      byExpiry.NodesOnce();
      KeyedOf(names, nameKey, ByHash);
      KeyedOf(times, timeKey, ByTime);
      next := next + 1;
      used := used + lim.nodeSize + |key|;
      slab := slab[node := r];
      byKey.Insert(node, (hash(key), key));
      byExpiry.Insert(node, expiresAt);
      PlusInsert(names, Place(names, nameKey, (hash(key), key), ByHash), node);
      PlusInsert(times, Place(times, timeKey, expiresAt, ByTime), node);
      IndexedWith(was, names, times, nameKey, timeKey, hash, node, r, byKey.Nodes(), byExpiry.Nodes());
      ImageInsert(times, was, timeKey, node, r, slab);
      TotalInsert(Image(times, was), r, lim);
    }

    /**
     * Checks and records a key: the zone does what its specification says, in one critical
     * section.
     */
    method ShmCheck(key: bytes, ttl: int, now: int) returns (v: Verdict)
      requires Valid()
      modifies this, byKey, byExpiry
      ensures Valid() && (State(), v) == Check(old(State()), key, ttl, now, lim)
    {
      hide Tree.Valid, Tree.Nodes, Covers, Timed, Sorted, Total, Good, Indexed, Insert, Ordered, Distinct, Lookup,
        Without,
           Reclaimed, Fits;
      if ttl < 1 {
        return BadTtl;
      }
      var cn := Find(key);
      if cn != RbShape.NIL && slab[cn].expiresAt >= now {
        return Replayed;
      }
      if cn != RbShape.NIL {
        Renew(cn, now + ttl);
        return Stored;
      }
      var n := Reclaim(now);
      var ok := Alloc(key);
      if !ok {
        ReclaimedNone(Records(), now, RECLAIM_BATCH);
        var more := Reclaim(now);
        if more > 0 {
          ok := Alloc(key);
        }
      }
      if !ok {
        if now - lastNomemLog >= NOMEM_LOG_INTERVAL {
          lastNomemLog := now;
        }
        return NoRoom;
      }
      Add(key, now + ttl);
      return Stored;
    }
  }

  ghost function State0(times: seq<nat>, slab: Slab, log: int): Zone
    requires forall i :: i in times ==> i in slab
  {
    Zone(Image(times, slab), log)
  }

  lemma TimedWithout(times: seq<nat>, slab: Slab, timeKey: map<nat, int>, x: nat, w: seq<nat>)
    requires Timed(times, slab, timeKey) && Minus(times, x, w)
    ensures Timed(w, slab - {x}, timeKey - {x}) && forall i :: i in w ==> i in slab - {x}
  {
  }

  lemma KeyedOf<K>(s: seq<nat>, key: map<nat, K>, less: (K, K) -> bool)
    requires Sorted(s, key, less)
    ensures forall i :: i in s ==> i in key
  {
  }

  lemma WithoutFirst(s: seq<Record>)
    ensures s != [] ==> Without(s, s[0].key) == s[1..]
  {
  }

  lemma GoodParts(z: Zone, lim: Limits)
    requires Good(z, lim)
    ensures Ordered(z.records) && Distinct(z.records) && Total(z.records, lim) <= lim.budget
  {
  }

  lemma Listed(slab: Slab, names: seq<nat>, times: seq<nat>, nameKey: map<nat, (nat, bytes)>,
               timeKey: map<nat, int>, hash: bytes -> nat, x: nat)
    requires Indexed(slab, names, times, nameKey, timeKey, hash)
    ensures x in slab <==> x in names
    ensures x in slab <==> x in times
    ensures forall i :: i in times ==> i in slab
  {
  }
}
