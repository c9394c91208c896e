/** Whole runs of the nonce zone, the key a signature is stored under, and how long it is kept. */
module NonceRuns {
  import opened Bytes
  import opened NonceSpec
  import opened NonceTheory

  /** One check, as its caller makes it. */
  datatype Call = Call(key: bytes, ttl: int, now: int)

  /** The zone before the `n`-th call of a run. */
  function After(z: Zone, calls: seq<Call>, n: nat, lim: Limits): Zone
    requires n <= |calls|
  {
    if n == 0 then z else Next(After(z, calls, n - 1, lim), calls[n - 1], lim)
  }

  function Next(z: Zone, c: Call, lim: Limits): Zone { Check(z, c.key, c.ttl, c.now, lim).0 }

  function Answer(z: Zone, calls: seq<Call>, n: nat, lim: Limits): Verdict
    requires n < |calls|
  {
    Check(After(z, calls, n, lim), calls[n].key, calls[n].ttl, calls[n].now, lim).1
  }

  /** The invariant holds all along every run, whatever the clock does. */
  lemma {:induction false} RunKeepsGood(z: Zone, calls: seq<Call>, n: nat, lim: Limits)
    requires Good(z, lim) && n <= |calls|
    ensures Good(After(z, calls, n, lim), lim)
  {
    if n > 0 {
      var c := calls[n - 1];
      RunKeepsGood(z, calls, n - 1, lim);
      CheckKeepsGood(After(z, calls, n - 1, lim), c.key, c.ttl, c.now, lim);
    }
  }

  /** A call made no later than a record's expiry leaves the record as it is. */
  lemma KeptByOne(z: Zone, c: Call, lim: Limits, key: bytes, e: int)
    requires Good(z, lim) && c.now <= e
    requires key in Contents(z.records) && Contents(z.records)[key] == e
    ensures key in Contents(Next(z, c, lim).records) && Contents(Next(z, c, lim).records)[key] == e
  {
    hide Check, Contents, Ordered, Distinct;
    RefinesSetIfAbsent(z, c.key, c.ttl, c.now, lim);
    LiveContents(z.records, c.now, key);
    LiveContents(Next(z, c, lim).records, c.now, key);
    CheckOneKey(z, c.key, c.ttl, c.now, lim, key);
  }

  lemma LiveContents(s: seq<Record>, now: int, k: bytes)
    ensures k in Live(s, now) <==> k in Contents(s) && Contents(s)[k] >= now
    ensures k in Live(s, now) ==> Live(s, now)[k] == Contents(s)[k]
  {
    hide Contents;
  }

  /** What a call stored is there with its expiry, as long as no later call comes after that expiry. */
  lemma {:induction false} Remembered(z: Zone, calls: seq<Call>, i: nat, n: nat, lim: Limits)
    requires Good(z, lim) && i < n <= |calls| && Answer(z, calls, i, lim) == Stored
    requires forall k :: i < k < n ==> calls[k].now <= calls[i].now + calls[i].ttl
    ensures var c := Contents(After(z, calls, n, lim).records);
      calls[i].key in c && c[calls[i].key] == calls[i].now + calls[i].ttl
  {
    hide Check, Contents, Good;
    var before := After(z, calls, n - 1, lim);
    RunKeepsGood(z, calls, n - 1, lim);
    if n == i + 1 {
      StoredThere(before, calls[i], lim);
    } else {
      Remembered(z, calls, i, n - 1, lim);
      KeptByOne(before, calls[n - 1], lim, calls[i].key, calls[i].now + calls[i].ttl);
    }
  }

  lemma StoredThere(z: Zone, c: Call, lim: Limits)
    requires Good(z, lim) && Check(z, c.key, c.ttl, c.now, lim).1 == Stored
    ensures var m := Contents(Next(z, c, lim).records); c.key in m && m[c.key] == c.now + c.ttl
  {
    hide Check, Contents, Ordered, Distinct;
    RefinesSetIfAbsent(z, c.key, c.ttl, c.now, lim);
    LiveContents(Next(z, c, lim).records, c.now, c.key);
  }

  /**
   * No replay over whole runs: once a call has stored a key, every later call on it made up to
   * and at its expiry is refused, whatever ran in between.
   */
  lemma NoReplay(z: Zone, calls: seq<Call>, i: nat, j: nat, lim: Limits)
    requires Good(z, lim) && i < j < |calls| && Answer(z, calls, i, lim) == Stored
    requires calls[j].key == calls[i].key && calls[j].ttl >= 1
    requires forall k :: i < k <= j ==> calls[k].now <= calls[i].now + calls[i].ttl
    ensures Answer(z, calls, j, lim) == Replayed
  {
    hide Check, Contents, Good;
    Remembered(z, calls, i, j, lim);
    var at := After(z, calls, j, lim);
    LiveContents(at.records, calls[j].now, calls[j].key);
    ReplayedWhenLive(at, calls[j].key, calls[j].ttl, calls[j].now, lim);
  }

  // ----- The key of a signature -----

  const NUL: byte := 0
  const PREFIX := Ascii("auth_httpsig:nonce:")

  /** Agent host, key id and nonce, set apart by NUL bytes behind a fixed prefix. */
  function StoreKey(host: bytes, keyid: bytes, nonce: bytes): bytes {
    PREFIX + host + [NUL] + keyid + [NUL] + nonce
  }

  /** A part without a NUL ends where the first NUL is. */
  lemma FirstPart(a: bytes, b: bytes, x: bytes, y: bytes)
    requires NUL !in a && NUL !in b && a + [NUL] + x == b + [NUL] + y
    ensures a == b && x == y
  {
    var s := a + [NUL] + x;
    assert s[|a|] == NUL;
    assert s[|b|] == NUL;
    assert |a| == |b| by {
      assert forall i :: 0 <= i < |a| ==> s[i] == a[i] && a[i] in a;
      assert forall i :: 0 <= i < |b| ==> s[i] == b[i] && b[i] in b;
    }
    assert a == s[..|a|] == b;
    assert x == s[|a| + 1..] == y;
  }

  /** Different signatures are stored under different keys, given host and key id without a NUL. */
  lemma KeysDiffer(h1: bytes, k1: bytes, n1: bytes, h2: bytes, k2: bytes, n2: bytes)
    requires NUL !in h1 && NUL !in k1 && NUL !in h2 && NUL !in k2
    ensures StoreKey(h1, k1, n1) == StoreKey(h2, k2, n2) <==> h1 == h2 && k1 == k2 && n1 == n2
  {
    if StoreKey(h1, k1, n1) == StoreKey(h2, k2, n2) {
      var t1, t2 := h1 + [NUL] + (k1 + [NUL] + n1), h2 + [NUL] + (k2 + [NUL] + n2);
      assert StoreKey(h1, k1, n1) == PREFIX + t1;
      assert StoreKey(h2, k2, n2) == PREFIX + t2;
      assert t1 == StoreKey(h1, k1, n1)[|PREFIX|..] == t2;
      FirstPart(h1, h2, k1 + [NUL] + n1, k2 + [NUL] + n2);
      FirstPart(k1, k2, n1, n2);
    }
  }

  /** The promise about NUL is needed: with one in a key id, two signatures share a key. */
  lemma KeysCollide()
    ensures StoreKey([65], [66, NUL, 67], [68]) == StoreKey([65], [66], [67, NUL, 68])
  {
    assert PREFIX + [65] + [NUL] + [66, NUL, 67] + [NUL] + [68] == PREFIX + [65] + [NUL] + [66] + [NUL] + [67, NUL, 68];
  }

  // ----- How long it is kept -----

  /** Seconds until a signature can no longer be accepted, and at least one. */
  function StoreTtl(expires: int, skew: int, now: int): int {
    if expires + skew - now < 1 then 1 else expires + skew - now
  }

  /** A record outlives the last instant its signature is accepted, by one second at most. */
  lemma TtlCoversWindow(expires: int, skew: int, now: int)
    requires now <= expires + skew
    ensures StoreTtl(expires, skew, now) >= 1
    ensures expires + skew <= now + StoreTtl(expires, skew, now) <= expires + skew + 1
    ensures now + StoreTtl(expires, skew, now) == expires + skew + 1 <==> now == expires + skew
  {
  }
}
