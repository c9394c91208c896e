/**
 * What the nonce zone guarantees: it refines set-if-absent with expiry, keeps its invariant, and
 * never forgets early.
 */
module NonceTheory {
  import opened Bytes
  import opened NonceSpec

  // ----- Refinement -----

  lemma RoomForKeeps(s: seq<Record>, key: bytes, now: int, lim: Limits, k: bytes)
    requires Distinct(s)
    ensures var left := RoomFor(s, key, now, lim);
      && Distinct(left)
      && (Lookup(left, k).Some? ==> Lookup(left, k) == Lookup(s, k))
      && (Lookup(s, k).Some? && Lookup(s, k).value.expiresAt >= now ==> Lookup(left, k) == Lookup(s, k))
  {
    var once := Reclaimed(s, now, RECLAIM_BATCH);
    LookupReclaimed(s, now, RECLAIM_BATCH, k);
    LookupReclaimed(once, now, RECLAIM_BATCH, k);
  }

  /** One key before and after a check. */
  lemma CheckOneKey(z: Zone, key: bytes, ttl: int, now: int, lim: Limits, k: bytes)
    requires Distinct(z.records)
    ensures var (z', v) := Check(z, key, ttl, now, lim);
      k in Live(z'.records, now) <==> (k in Live(z.records, now) || (v == Stored && k == key))
    ensures var (z', v) := Check(z, key, ttl, now, lim);
      k in Live(z'.records, now) ==>
        Live(z'.records, now)[k] == if v == Stored && k == key then now + ttl else Live(z.records, now)[k]
    ensures var (z', v) := Check(z, key, ttl, now, lim);
      v == Stored && k == key ==> k !in Live(z.records, now)
  {
    hide Insert, RoomFor, Fits, Lookup, Contents, Without, Distinct;
    var (z', v) := Check(z, key, ttl, now, lim);
    LookupContents(z.records, k);
    LookupContents(z'.records, k);
    RoomForKeeps(z.records, key, now, lim, k);
    RoomForKeeps(z.records, key, now, lim, key);
    LookupWithout(z.records, key, k);
    LookupWithout(z.records, key, key);
    if v == Stored {
      var base := if Lookup(z.records, key).Some? then Without(z.records, key) else RoomFor(z.records, key, now, lim);
      LookupInsert(base, Record(key, now + ttl), k);
    }
  }

  /**
   * The zone refines set-if-absent with expiry: on what is live now, a check that stores adds
   * exactly its key, and every other check changes nothing; it reports a replay exactly for live
   * keys, and may give up for lack of room.
   */
  lemma RefinesSetIfAbsent(z: Zone, key: bytes, ttl: int, now: int, lim: Limits)
    requires Distinct(z.records)
    ensures var (z', v) := Check(z, key, ttl, now, lim);
      && (v == BadTtl <==> ttl < 1)
      && (v == Replayed <==> ttl >= 1 && key in Live(z.records, now))
      && (v == Stored ==> Live(z'.records, now) == Live(z.records, now)[key := now + ttl])
      && (v != Stored ==> Live(z'.records, now) == Live(z.records, now))
  {
    hide Insert, RoomFor, Fits, Lookup, Contents, Without, Distinct, Live;
    var (z', v) := Check(z, key, ttl, now, lim);
    ReplayedWhenLive(z, key, ttl, now, lim);
    forall k
      ensures k in Live(z'.records, now) <==> (k in Live(z.records, now) || (v == Stored && k == key))
      ensures k in Live(z'.records, now) ==>
        Live(z'.records, now)[k] == if v == Stored && k == key then now + ttl else Live(z.records, now)[k]
    {
      CheckOneKey(z, key, ttl, now, lim, k);
    }
    if v == Stored {
      assert Live(z'.records, now) == Live(z.records, now)[key := now + ttl];
    } else {
      assert Live(z'.records, now) == Live(z.records, now);
    }
  }

  lemma ReplayedWhenLive(z: Zone, key: bytes, ttl: int, now: int, lim: Limits)
    ensures Check(z, key, ttl, now, lim).1 == BadTtl <==> ttl < 1
    ensures Check(z, key, ttl, now, lim).1 == Replayed <==> ttl >= 1 && key in Live(z.records, now)
  {
    hide Insert, RoomFor, Fits, Lookup, Contents, Without;
    LookupContents(z.records, key);
  }

  // ----- The invariant -----

  lemma {:induction false} ReclaimedGood(s: seq<Record>, now: int, n: nat, lim: Limits)
    requires Ordered(s)
    ensures Ordered(Reclaimed(s, now, n)) && Total(Reclaimed(s, now, n), lim) <= Total(s, lim)
    decreases n
  {
    if !(n == 0 || s == [] || s[0].expiresAt >= now) {
      ReclaimedGood(s[1..], now, n - 1, lim);
    }
  }

  lemma {:induction false} RankSplits(s: seq<Record>, e: int)
    requires Ordered(s)
    ensures forall i :: 0 <= i < Rank(s, e) ==> s[i].expiresAt <= e
    ensures forall i :: Rank(s, e) <= i < |s| ==> e < s[i].expiresAt
  {
    if !(s == [] || e < s[0].expiresAt) {
      RankSplits(s[1..], e);
      assert forall i :: 0 < i < |s| ==> s[i] == s[1..][i - 1];
    }
  }

  lemma InsertOrdered(s: seq<Record>, r: Record)
    requires Ordered(s)
    ensures Ordered(Insert(s, r))
  {
    RankSplits(s, r.expiresAt);
  }

  lemma InsertDistinct(s: seq<Record>, r: Record)
    requires Distinct(s) && forall x :: x in s ==> x.key != r.key
    ensures Distinct(Insert(s, r))
  {
    var n := Rank(s, r.expiresAt);
    var t := Insert(s, r);
    assert forall i :: 0 <= i < |s| ==> s[i].key != r.key;
    assert forall i :: 0 <= i < n ==> t[i] == s[i];
    assert forall i :: n < i < |t| ==> t[i] == s[i - 1];
  }

  lemma {:induction false} TotalConcat(u: seq<Record>, v: seq<Record>, lim: Limits)
    ensures Total(u + v, lim) == Total(u, lim) + Total(v, lim)
  {
    if u == [] {
      assert u + v == v;
    } else {
      assert (u + v)[1..] == u[1..] + v;
      TotalConcat(u[1..], v, lim);
    }
  }

  lemma TotalInsert(s: seq<Record>, r: Record, lim: Limits)
    ensures Total(Insert(s, r), lim) == Total(s, lim) + Size(r, lim)
  {
    var n := Rank(s, r.expiresAt);
    TotalConcat(s[..n] + [r], s[n..], lim);
    TotalConcat(s[..n], [r], lim);
    TotalConcat(s[..n], s[n..], lim);
    assert s == s[..n] + s[n..];
    TotalOne(r, lim);
  }

  lemma TotalOne(r: Record, lim: Limits)
    ensures Total([r], lim) == Size(r, lim)
  {
    assert [r][1..] == [];
  }

  lemma {:induction false} WithoutGood(s: seq<Record>, key: bytes, lim: Limits)
    requires Ordered(s) && Distinct(s)
    ensures var t := Without(s, key);
      && Ordered(t) && Distinct(t) && (forall r :: r in t ==> r in s && r.key != key)
      && (Lookup(s, key).Some? ==> Total(t, lim) == Total(s, lim) - lim.nodeSize - |key|)
  {
    hide Ordered, Distinct, Total;
    if s != [] {
      assert s == [s[0]] + s[1..];
      TailGood(s, lim);
      if s[0].key != key {
        WithoutGood(s[1..], key, lim);
        ConsGood(s[0], Without(s[1..], key), s[1..], lim);
      }
    }
  }

  lemma TailGood(s: seq<Record>, lim: Limits)
    requires s != [] && Ordered(s) && Distinct(s)
    ensures Ordered(s[1..]) && Distinct(s[1..]) && (forall r :: r in s[1..] ==> r.key != s[0].key)
    ensures Total(s, lim) == Size(s[0], lim) + Total(s[1..], lim)
  {
  }

  lemma ConsGood(r: Record, t: seq<Record>, s: seq<Record>, lim: Limits)
    requires Ordered([r] + s) && Distinct([r] + s) && Ordered(t) && Distinct(t) && forall x :: x in t ==> x in s
    ensures Ordered([r] + t) && Distinct([r] + t) && Total([r] + t, lim) == Size(r, lim) + Total(t, lim)
  {
    assert ([r] + t)[1..] == t;
    forall i | 0 <= i < |t|
      ensures r.expiresAt <= t[i].expiresAt && r.key != t[i].key
    {
      assert t[i] in s;
      var j :| 0 <= j < |s| && s[j] == t[i];
      assert ([r] + s)[j + 1] == t[i] && ([r] + s)[0] == r;
    }
  }

  /** Every check keeps the zone in order, with one record a key, within its budget. */
  lemma CheckKeepsGood(z: Zone, key: bytes, ttl: int, now: int, lim: Limits)
    requires Good(z, lim)
    ensures Good(Check(z, key, ttl, now, lim).0, lim)
  {
    hide Ordered, Distinct, Insert, Without, Lookup, Total;
    var s := z.records;
    LookupIn(s, key);
    RoomForGood(s, key, now, lim);
    WithoutGood(s, key, lim);
    if ttl >= 1 {
      var r := Record(key, now + ttl);
      if Lookup(s, key).Some? {
        AddGood(Without(s, key), r, lim);
      } else if Fits(RoomFor(s, key, now, lim), key, lim) {
        AddGood(RoomFor(s, key, now, lim), r, lim);
      }
    }
  }

  lemma AddGood(s: seq<Record>, r: Record, lim: Limits)
    requires Ordered(s) && Distinct(s) && forall x :: x in s ==> x.key != r.key
    ensures Ordered(Insert(s, r)) && Distinct(Insert(s, r)) && Total(Insert(s, r), lim) == Total(s, lim) + Size(r, lim)
  {
    InsertOrdered(s, r);
    InsertDistinct(s, r);
    TotalInsert(s, r, lim);
  }

  lemma RoomForGood(s: seq<Record>, key: bytes, now: int, lim: Limits)
    requires Ordered(s) && Distinct(s)
    ensures var left := RoomFor(s, key, now, lim);
      Ordered(left) && Distinct(left) && Total(left, lim) <= Total(s, lim) && forall r :: r in left ==> r in s
  {
    hide Ordered, Distinct, Reclaimed, Total;
    ReclaimedKeeps(s, now, RECLAIM_BATCH, lim);
    ReclaimedKeeps(Reclaimed(s, now, RECLAIM_BATCH), now, RECLAIM_BATCH, lim);
  }

  lemma ReclaimedKeeps(s: seq<Record>, now: int, n: nat, lim: Limits)
    requires Ordered(s) && Distinct(s)
    ensures var t := Reclaimed(s, now, n);
      Ordered(t) && Distinct(t) && Total(t, lim) <= Total(s, lim) && forall r :: r in t ==> r in s
  {
    hide Ordered, Distinct, Reclaimed, Total;
    ReclaimedGood(s, now, n, lim);
    ReclaimedDrops(s, now, n);
    LookupReclaimed(s, now, n, []);
  }

  // ----- Reclaim -----

  /** How many records are expired. */
  function Backlog(s: seq<Record>, now: int): (n: nat)
    ensures n <= |s|
  {
    if s == [] then 0 else (if s[0].expiresAt < now then 1 else 0) + Backlog(s[1..], now)
  }

  lemma {:induction false} NoBacklog(s: seq<Record>, now: int)
    requires forall i :: 0 <= i < |s| ==> s[i].expiresAt >= now
    ensures Backlog(s, now) == 0
  {
    if s != [] {
      NoBacklog(s[1..], now);
    }
  }

  /** Reclaim drops a prefix: the earliest to expire, all of them expired, as many as there are up to the batch. */
  lemma {:induction false} ReclaimedDrops(s: seq<Record>, now: int, n: nat)
    requires Ordered(s)
    ensures var d := Min(n, Backlog(s, now));
      && d <= |s| && Reclaimed(s, now, n) == s[d..]
      && Backlog(s[d..], now) == Backlog(s, now) - d
      && forall i :: 0 <= i < d ==> s[i].expiresAt < now
    decreases n
  {
    if s == [] {
    } else if s[0].expiresAt >= now {
      NoBacklog(s, now);
    } else if n > 0 {
      var t := s[1..];
      ReclaimedDrops(t, now, n - 1);
      var d := Min(n - 1, Backlog(t, now));
      DropOne(s, d, now);
    }
  }

  lemma DropOne(s: seq<Record>, d: nat, now: int)
    requires s != [] && d < |s| && s[0].expiresAt < now && forall i :: 0 <= i < d ==> s[1..][i].expiresAt < now
    ensures s[1..][d..] == s[d + 1..] && forall i :: 0 <= i < d + 1 ==> s[i].expiresAt < now
  {
    assert forall i :: 0 < i < |s| ==> s[i] == s[1..][i - 1];
  }

  lemma {:induction false} BacklogConcat(u: seq<Record>, v: seq<Record>, now: int)
    ensures Backlog(u + v, now) == Backlog(u, now) + Backlog(v, now)
  {
    if u == [] {
      assert u + v == v;
    } else {
      assert (u + v)[1..] == u[1..] + v;
      BacklogConcat(u[1..], v, now);
    }
  }

  lemma BacklogInsert(s: seq<Record>, r: Record, now: int)
    requires r.expiresAt >= now
    ensures Backlog(Insert(s, r), now) == Backlog(s, now)
  {
    var n := Rank(s, r.expiresAt);
    BacklogConcat(s[..n] + [r], s[n..], now);
    BacklogConcat(s[..n], [r], now);
    BacklogConcat(s[..n], s[n..], now);
    assert s == s[..n] + s[n..];
    assert Backlog([r], now) == 0 by { assert [r][1..] == []; }
  }

  /**
   * Storing a new key shrinks the backlog of expired records by two, or clears it; when that
   * left no room, by up to two more.
   */
  lemma InsertShrinksBacklog(z: Zone, key: bytes, ttl: int, now: int, lim: Limits)
    requires Good(z, lim) && Lookup(z.records, key).None?
    requires Check(z, key, ttl, now, lim).1 == Stored
    ensures var before, after := Backlog(z.records, now), Backlog(Check(z, key, ttl, now, lim).0.records, now);
      && after + Min(2, before) <= before
      && (Fits(Reclaimed(z.records, now, 2), key, lim) ==> after == before - Min(2, before))
      && (!Fits(Reclaimed(z.records, now, 2), key, lim) ==> after == before - Min(4, before))
  {
    hide Distinct, Insert, Lookup, Backlog, Reclaimed, Fits;
    var s := z.records;
    var once := Reclaimed(s, now, 2);
    ReclaimedDrops(s, now, 2);
    ReclaimedGood(s, now, 2, lim);
    ReclaimedDrops(once, now, 2);
    BacklogInsert(RoomFor(s, key, now, lim), Record(key, now + ttl), now);
  }

  /** The zone gives up exactly when the key is new and four reclaimed records would not make room. */
  lemma GivesUpExactly(z: Zone, key: bytes, ttl: int, now: int, lim: Limits)
    requires Good(z, lim) && ttl >= 1
    ensures Check(z, key, ttl, now, lim).1 == NoRoom <==>
      Lookup(z.records, key).None? && !Fits(z.records[Min(4, Backlog(z.records, now))..], key, lim)
  {
    hide Ordered, Distinct, Insert, Lookup, Backlog, Reclaimed, Without, Total;
    var s := z.records;
    var d := Min(2, Backlog(s, now));
    ReclaimedDrops(s, now, 2);
    ReclaimedGood(s, now, 2, lim);
    ReclaimedDrops(Reclaimed(s, now, 2), now, 2);
    assert s[d..][Min(2, Backlog(s, now) - d)..] == s[Min(4, Backlog(s, now))..];
    SuffixTotal(Reclaimed(s, now, 2), now, 2, lim);
  }

  lemma SuffixTotal(s: seq<Record>, now: int, n: nat, lim: Limits)
    requires Ordered(s)
    ensures Total(Reclaimed(s, now, n), lim) <= Total(s, lim)
  {
    ReclaimedGood(s, now, n, lim);
  }

  /** Giving up leaves the expired records beyond the first four: none are left exactly when there were at most four. */
  lemma GivesUpLeaves(z: Zone, key: bytes, ttl: int, now: int, lim: Limits)
    requires Good(z, lim) && Check(z, key, ttl, now, lim).1 == NoRoom
    ensures var before, after := Backlog(z.records, now), Backlog(Check(z, key, ttl, now, lim).0.records, now);
      after == before - Min(4, before) && (after == 0 <==> before <= 4)
  {
    hide Ordered, Distinct, Insert, Lookup, Backlog, Reclaimed, Without, Total;
    var s := z.records;
    ReclaimedDrops(s, now, 2);
    ReclaimedGood(s, now, 2, lim);
    ReclaimedDrops(Reclaimed(s, now, 2), now, 2);
  }

  /** Giving up is noted once in sixty seconds, and nothing else is. */
  lemma GivingUpNoted(z: Zone, key: bytes, ttl: int, now: int, lim: Limits)
    ensures var (z', v) := Check(z, key, ttl, now, lim);
      z'.lastNomemLog == if v == NoRoom && now >= z.lastNomemLog + 60 then now else z.lastNomemLog
  {
    hide RoomFor, Lookup, Without, Insert;
  }

  /** A zone of five expired records gives up on a key that would fit without the one it keeps. */
  lemma GivesUpWithBacklog()
    ensures var lim := Limits(1, 10);
      var z := Zone([Record([1], 1), Record([2], 2), Record([3], 3), Record([4], 4), Record([5], 5)], 0);
      var key: bytes := [9, 9, 9, 9, 9, 9, 9, 9];
      var (z', v) := Check(z, key, 1, 10, lim);
      Good(z, lim) && Fits([], key, lim) && v == NoRoom && z'.records == [Record([5], 5)]
  {
    var rs := [Record([1], 1), Record([2], 2), Record([3], 3), Record([4], 4), Record([5], 5)];
    var s3 := [Record([3], 3), Record([4], 4), Record([5], 5)];
    TwoReclaims(Record([1], 1), Record([2], 2), s3);
    TwoReclaims(Record([3], 3), Record([4], 4), [Record([5], 5)]);
    assert rs == [Record([1], 1), Record([2], 2)] + s3;
    assert s3 == [Record([3], 3), Record([4], 4)] + [Record([5], 5)];
    var key: bytes := [9, 9, 9, 9, 9, 9, 9, 9];
    LookupAbsent(rs, key);
    FiveGood(rs);
    assert Total([Record([5], 5)], Limits(1, 10)) == 2;
  }

  lemma TotalFront(s: seq<Record>, k: nat, lim: Limits)
    requires k < |s|
    ensures Total(s[k..], lim) == Size(s[k], lim) + Total(s[k + 1..], lim)
  {
    assert s[k..][1..] == s[k + 1..];
  }

  lemma FiveTotal(rs: seq<Record>, lim: Limits)
    requires |rs| == 5 && forall i :: 0 <= i < 5 ==> Size(rs[i], lim) == 2
    ensures Total(rs, lim) == 10
  {
    TotalFront(rs, 4, lim);
    TotalFront(rs, 3, lim);
    TotalFront(rs, 2, lim);
    TotalFront(rs, 1, lim);
    TotalFront(rs, 0, lim);
    assert rs[5..] == [] && rs[0..] == rs;
  }

  lemma FiveGood(rs: seq<Record>)
    requires rs == [Record([1], 1), Record([2], 2), Record([3], 3), Record([4], 4), Record([5], 5)]
    ensures Ordered(rs) && Distinct(rs) && Total(rs, Limits(1, 10)) == 10
  {
    hide Total;
    FiveTotal(rs, Limits(1, 10));
  }

  lemma TwoReclaims(a: Record, b: Record, s: seq<Record>)
    requires a.expiresAt < 10 && b.expiresAt < 10
    ensures Reclaimed([a, b] + s, 10, 2) == s
  {
    assert ([a, b] + s)[1..] == [b] + s;
    assert ([b] + s)[1..] == s;
    assert Reclaimed([b] + s, 10, 1) == Reclaimed(s, 10, 0);
  }
}
