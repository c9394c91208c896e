/**
 * What the shared-memory nonce zone does, as a function on its records in expiry order:
 * a bounded set-if-absent with expiry that frees expired records as it goes.
 */
module NonceSpec {
  import opened Bytes

  const RECLAIM_BATCH: nat := 2
  const NOMEM_LOG_INTERVAL := 60

  datatype Record = Record(key: bytes, expiresAt: int)

  datatype Verdict = Stored | Replayed | NoRoom | BadTtl

  /** The records, earliest expiry first, and when lack of room was last logged. */
  datatype Zone = Zone(records: seq<Record>, lastNomemLog: int)

  /** Memory limits: bytes a record takes besides its key, and the zone's budget. */
  datatype Limits = Limits(nodeSize: nat, budget: nat)

  function Size(r: Record, lim: Limits): nat { lim.nodeSize + |r.key| }

  function Total(s: seq<Record>, lim: Limits): nat {
    if s == [] then 0 else Size(s[0], lim) + Total(s[1..], lim)
  }

  function Lookup(s: seq<Record>, key: bytes): Option<Record> {
    if s == [] then None else if s[0].key == key then Some(s[0]) else Lookup(s[1..], key)
  }

  function Without(s: seq<Record>, key: bytes): seq<Record> {
    if s == [] then [] else if s[0].key == key then s[1..] else [s[0]] + Without(s[1..], key)
  }

  /** How many records an expiry goes after: those that do not expire later. */
  function Rank(s: seq<Record>, e: int): (n: nat)
    ensures n <= |s|
  {
    if s == [] || e < s[0].expiresAt then 0 else 1 + Rank(s[1..], e)
  }

  function Insert(s: seq<Record>, r: Record): seq<Record> {
    s[..Rank(s, r.expiresAt)] + [r] + s[Rank(s, r.expiresAt)..]
  }

  /** Frees up to `n` expired records, earliest first. A record expiring now is not expired yet. */
  function Reclaimed(s: seq<Record>, now: int, n: nat): seq<Record> {
    if n == 0 || s == [] || s[0].expiresAt >= now then s else Reclaimed(s[1..], now, n - 1)
  }

  predicate Fits(s: seq<Record>, key: bytes, lim: Limits) {
    Total(s, lim) + lim.nodeSize + |key| <= lim.budget
  }

  /** What is left after making room for a new key. */
  function RoomFor(s: seq<Record>, key: bytes, now: int, lim: Limits): seq<Record> {
    var once := Reclaimed(s, now, RECLAIM_BATCH);
    if Fits(once, key, lim) then once else Reclaimed(once, now, RECLAIM_BATCH)
  }

  function Check(z: Zone, key: bytes, ttl: int, now: int, lim: Limits): (Zone, Verdict) {
    if ttl < 1 then (z, BadTtl)
    else
      match Lookup(z.records, key)
      case Some(r) =>
        if r.expiresAt >= now then (z, Replayed)
        else (z.(records := Insert(Without(z.records, key), Record(key, now + ttl))), Stored)
      case None =>
        var left := RoomFor(z.records, key, now, lim);
        if Fits(left, key, lim) then (z.(records := Insert(left, Record(key, now + ttl))), Stored)
        else (Zone(left, if now - z.lastNomemLog >= NOMEM_LOG_INTERVAL then now else z.lastNomemLog), NoRoom)
  }

  // ----- The invariant -----

  predicate Ordered(s: seq<Record>) {
    forall i, j :: 0 <= i < j < |s| ==> s[i].expiresAt <= s[j].expiresAt
  }

  predicate Distinct(s: seq<Record>) {
    forall i, j :: 0 <= i < j < |s| ==> s[i].key != s[j].key
  }

  predicate Good(z: Zone, lim: Limits) {
    Ordered(z.records) && Distinct(z.records) && Total(z.records, lim) <= lim.budget
  }

  /** The abstract store: each key with its expiry. */
  function Contents(s: seq<Record>): map<bytes, int> {
    if s == [] then map[] else Contents(s[1..])[s[0].key := s[0].expiresAt]
  }

  /** What of it still counts at a time: an expiry is the last instant of a record's life. */
  function Live(s: seq<Record>, now: int): map<bytes, int> {
    map k | k in Contents(s) && Contents(s)[k] >= now :: Contents(s)[k]
  }

  lemma {:induction false} LookupContents(s: seq<Record>, k: bytes)
    ensures k in Contents(s) <==> Lookup(s, k).Some?
    ensures k in Contents(s) ==> Lookup(s, k).value.key == k && Lookup(s, k).value.expiresAt == Contents(s)[k]
  {
    if s != [] {
      LookupContents(s[1..], k);
    }
  }

  lemma {:induction false} LookupIn(s: seq<Record>, k: bytes)
    ensures Lookup(s, k).Some? ==> Lookup(s, k).value in s && Lookup(s, k).value.key == k
    ensures Lookup(s, k).None? ==> forall r :: r in s ==> r.key != k
  {
    if s != [] {
      LookupIn(s[1..], k);
    }
  }

  lemma {:induction false} LookupConcat(u: seq<Record>, v: seq<Record>, k: bytes)
    ensures Lookup(u + v, k) == if Lookup(u, k).Some? then Lookup(u, k) else Lookup(v, k)
  {
    if u == [] {
      assert u + v == v;
    } else {
      assert (u + v)[1..] == u[1..] + v;
      LookupConcat(u[1..], v, k);
    }
  }

  lemma LookupInsert(s: seq<Record>, r: Record, k: bytes)
    requires Lookup(s, r.key).None?
    ensures Lookup(Insert(s, r), k) == if k == r.key then Some(r) else Lookup(s, k)
  {
    var n := Rank(s, r.expiresAt);
    LookupConcat(s[..n], s[n..], k);
    LookupConcat(s[..n], s[n..], r.key);
    assert s == s[..n] + s[n..];
    LookupConcat(s[..n] + [r], s[n..], k);
    LookupConcat(s[..n], [r], k);
    assert Lookup([r], k) == if k == r.key then Some(r) else None;
  }

  lemma {:induction false} LookupWithout(s: seq<Record>, key: bytes, k: bytes)
    requires Distinct(s)
    ensures Lookup(Without(s, key), k) == if k == key then None else Lookup(s, k)
  {
    if s != [] {
      TailDistinct(s);
      if s[0].key == key {
        LookupAbsent(s[1..], key);
      } else {
        LookupWithout(s[1..], key, k);
        assert ([s[0]] + Without(s[1..], key))[1..] == Without(s[1..], key);
      }
    }
  }

  lemma TailDistinct(s: seq<Record>)
    requires s != [] && Distinct(s)
    ensures Distinct(s[1..]) && forall r :: r in s[1..] ==> r.key != s[0].key
  {
  }

  lemma {:induction false} LookupAbsent(s: seq<Record>, k: bytes)
    requires forall r :: r in s ==> r.key != k
    ensures Lookup(s, k).None?
  {
    LookupIn(s, k);
  }

  /** Reclaiming keeps every record that is not expired. */
  lemma {:induction false} LookupReclaimed(s: seq<Record>, now: int, n: nat, k: bytes)
    requires Distinct(s)
    ensures Lookup(Reclaimed(s, now, n), k).Some? ==> Lookup(Reclaimed(s, now, n), k) == Lookup(s, k)
    ensures Lookup(s, k).Some? && Lookup(s, k).value.expiresAt >= now ==>
      Lookup(Reclaimed(s, now, n), k) == Lookup(s, k)
    ensures Distinct(Reclaimed(s, now, n))
    decreases n
  {
    if !(n == 0 || s == [] || s[0].expiresAt >= now) {
      TailDistinct(s);
      LookupReclaimed(s[1..], now, n - 1, k);
      LookupAbsent1(s[1..], s[0].key);
      LookupIn(s[1..], k);
    }
  }

  lemma LookupAbsent1(s: seq<Record>, k: bytes)
    ensures (forall r :: r in s ==> r.key != k) ==> Lookup(s, k).None?
  {
    LookupIn(s, k);
  }
}
