/**
 * The nonce check over a Redis server: an atomic set-if-absent whose command or reply may be
 * lost, one retry, and a growing pause between failed attempts.
 */
module RedisNonce {
  import opened Bytes
  import NonceRuns

  /** The server's keys, each with its expiry and, for the record, the request that set it. */
  type Keys = map<bytes, (int, nat)>

  predicate LiveKey(keys: Keys, key: bytes, t: int) { key in keys && t < keys[key].0 }

  /** Set if absent, with a time to live: atomic on the server. */
  function SetNx(keys: Keys, key: bytes, ex: int, t: int, who: nat): (Keys, bool) {
    if LiveKey(keys, key, t) then (keys, false) else (keys[key := (t + ex, who)], true)
  }

  /** What becomes of one command: it never arrives, its reply is lost, or a reply comes back. */
  datatype Wire =
    | Undelivered(retryable: bool)
    | ReplyLost(retryable: bool)
    | Replied
    | ErrorReply
    | OddReply(landed: bool)

  datatype Reply = Nothing(retryable: bool) | Nil | OkStatus | Error | Odd

  function Command(keys: Keys, key: bytes, ex: int, t: int, who: nat, w: Wire): (Keys, Reply) {
    match w
    case Undelivered(r) => (keys, Nothing(r))
    case ReplyLost(r) => (SetNx(keys, key, ex, t, who).0, Nothing(r))
    case Replied => (SetNx(keys, key, ex, t, who).0, if SetNx(keys, key, ex, t, who).1 then OkStatus else Nil)
    case ErrorReply => (keys, Error)
    case OddReply(landed) => (if landed then SetNx(keys, key, ex, t, who).0 else keys, Odd)
  }

  datatype Verdict = Stored | Replayed | Unavailable | BadTtl

  /** The worker's connection and its pause after failures. */
  datatype Worker = Worker(connected: bool, retryAfter: int, backoff: int)

  function NextBackoff(current: int, max: int): int {
    var m := if max < 1 then 1 else max;
    if current < 1 then 1 else if current * 2 > m then m else current * 2
  }

  /** Closes the connection and pauses. */
  function Arm(w: Worker, later: int, max: int): Worker {
    var b := NextBackoff(w.backoff, max);
    Worker(false, later + b, b)
  }

  /** The world during one check: whether connecting works, what becomes of each command, and the clocks. */
  datatype World = World(
    now: int,
    later: int,
    connect: bool,
    wire: Wire,
    t: int,
    reconnect: bool,
    wireAgain: Wire,
    tAgain: int)

  /** Nothing came back from the first command, and a second one is sent over a new connection. */
  predicate Retried(env: World) {
    (env.wire.Undelivered? || env.wire.ReplyLost?) && env.wire.retryable && env.reconnect
  }

  predicate Pausing(w: Worker, now: int) { w.retryAfter != 0 && now < w.retryAfter }

  function Check(keys: Keys, w: Worker, key: bytes, ttl: int, who: nat, env: World, max: int): (Keys, Worker, Verdict) {
    if ttl < 1 then (keys, w, BadTtl)
    else if Pausing(w, env.now) then (keys, w, Unavailable)
    else if !w.connected && !env.connect then (keys, Arm(w, env.later, max), Unavailable)
    else
      var (k1, r1) := Command(keys, key, ttl + 1, env.t, who, env.wire);
      if r1.Nothing? && r1.retryable && env.reconnect then
        var (k2, r2) := Command(k1, key, ttl + 1, env.tAgain, who, env.wireAgain);
        (k2, AfterReply(w, r2, true, env.later, max), VerdictOf(r2, true))
      else (k1, AfterReply(w, r1, false, env.later, max), VerdictOf(r1, false))
  }

  /** A definite answer ends the pause; one that is not definite leaves it, a failure lengthens it. */
  function AfterReply(w: Worker, r: Reply, retried: bool, later: int, max: int): Worker {
    if r.Nothing? || r.Error? then Arm(w, later, max)
    else if r.Odd? then w.(connected := false)
    else if VerdictOf(r, retried) == Unavailable then w.(connected := true)
    else Worker(true, 0, 0)
  }

  /** After a retry the first command may have landed, so an absent reply need not be a replay. */
  function VerdictOf(r: Reply, retried: bool): Verdict {
    match r
    case OkStatus => Stored
    case Nil => if retried then Unavailable else Replayed
    case _ => Unavailable
  }

  // ----- Runs of requests over many workers -----

  datatype Attempt = Attempt(worker: nat, key: bytes, ttl: int, env: World)

  datatype State = State(keys: Keys, workers: map<nat, Worker>)

  const IDLE := Worker(false, 0, 0)

  function WorkerOf(s: State, w: nat): Worker { if w in s.workers then s.workers[w] else IDLE }

  function Next(s: State, a: Attempt, who: nat, max: int): State {
    var (keys, w, _) := Check(s.keys, WorkerOf(s, a.worker), a.key, a.ttl, who, a.env, max);
    State(keys, s.workers[a.worker := w])
  }

  /** The state before the `n`-th request's check; a request is checked once. */
  function After(run: seq<Attempt>, n: nat, max: int): State
    requires n <= |run|
  {
    if n == 0 then State(map[], map[]) else Next(After(run, n - 1, max), run[n - 1], n - 1, max)
  }

  function Answer(run: seq<Attempt>, n: nat, max: int): Verdict
    requires n < |run|
  {
    var s := After(run, n, max);
    Check(s.keys, WorkerOf(s, run[n].worker), run[n].key, run[n].ttl, n, run[n].env, max).2
  }

  // ----- What one check answers -----

  /** The server's keys once it has run a command that reaches it: a live key stays, any other is set anew. */
  function Ran(keys: Keys, key: bytes, ex: int, t: int, who: nat, w: Wire): Keys {
    if Lands(w) && !(key in keys && t < keys[key].0) then keys[key := (t + ex, who)] else keys
  }

  /** The command whose reply decides, when it is run, and the keys it finds. */
  function Deciding(keys: Keys, a: Attempt, who: nat): (Wire, int, Keys) {
    if Retried(a.env) then (a.env.wireAgain, a.env.tAgain, Ran(keys, a.key, a.ttl + 1, a.env.t, who, a.env.wire))
    else (a.env.wire, a.env.t, keys)
  }

  /**
   * Stored: the deciding command was answered and found the key absent or out, after a retry too.
   * Replayed: it was answered, found the key live, and no earlier command of the check can have
   * set it. The server has run exactly the commands that reached it.
   */
  lemma AnswerExactly(keys: Keys, w: Worker, a: Attempt, who: nat, max: int)
    ensures var (keys', w', v) := Check(keys, w, a.key, a.ttl, who, a.env, max);
      var (last, at, before) := Deciding(keys, a, who);
      var live := a.key in before && at < before[a.key].0;
      var paused := w.retryAfter != 0 && a.env.now < w.retryAfter;
      var sends := a.ttl >= 1 && !paused && (w.connected || a.env.connect);
      && (v == BadTtl <==> a.ttl < 1)
      && (v == Stored <==> sends && last.Replied? && !live)
      && (v == Replayed <==> sends && last.Replied? && live && !Retried(a.env))
      && keys' == (if sends then Ran(before, a.key, a.ttl + 1, at, who, last) else keys)
      && (sends ==> (w'.connected <==> last.Replied?))
      && (a.ttl < 1 || paused ==> w' == w)
      && (a.ttl >= 1 && !paused && !sends ==> !w'.connected)
  {
  }

  // ----- At most one request wins a key -----

  predicate Has(keys: Keys, key: bytes, e: int) { key in keys && keys[key].0 == e }

  /** The check gets as far as sending a command. */
  predicate Sends(w: Worker, a: Attempt) { a.ttl >= 1 && !Pausing(w, a.env.now) && (w.connected || a.env.connect) }

  /** The server runs the command, whatever comes back. */
  predicate Lands(w: Wire) { w.ReplyLost? || w.Replied? || (w.OddReply? && w.landed) }

  /** Every command the server runs for the attempt is run before `e`. */
  predicate Before(w: Worker, a: Attempt, e: int) {
    Sends(w, a) ==>
      (Lands(a.env.wire) ==> a.env.t < e) && (Retried(a.env) && Lands(a.env.wireAgain) ==> a.env.tAgain < e)
  }

  /** While a key lives, nothing changes it, and nobody is told it was stored. */
  lemma LiveStays(keys: Keys, w: Worker, a: Attempt, who: nat, max: int, key: bytes, e: int)
    requires Has(keys, key, e) && Before(w, a, e)
    ensures var (keys', _, v) := Check(keys, w, a.key, a.ttl, who, a.env, max);
      Has(keys', key, e) && (a.key == key ==> v != Stored)
  {
  }

  /** A stored key lives at least its time to live and one second, from some instant the check reached the server. */
  lemma StoredLives(keys: Keys, w: Worker, a: Attempt, who: nat, max: int)
    requires Check(keys, w, a.key, a.ttl, who, a.env, max).2 == Stored
    ensures var k := Check(keys, w, a.key, a.ttl, who, a.env, max).0;
      Has(k, a.key, a.env.t + a.ttl + 1) || Has(k, a.key, a.env.tAgain + a.ttl + 1)
  {
  }

  /** Every command the server runs for request `k` is run before `e`. */
  predicate BeforeAt(run: seq<Attempt>, k: nat, max: int, e: int)
    requires k < |run|
  {
    Before(WorkerOf(After(run, k, max), run[k].worker), run[k], e)
  }

  lemma {:induction false} Kept(run: seq<Attempt>, i: nat, n: nat, max: int, e: int)
    requires i < n <= |run| && Has(After(run, i + 1, max).keys, run[i].key, e)
    requires forall k :: i < k < n ==> BeforeAt(run, k, max, e)
    ensures Has(After(run, n, max).keys, run[i].key, e)
  {
    hide Check, Has, Before;
    if n > i + 1 {
      Kept(run, i, n - 1, max, e);
      var s := After(run, n - 1, max);
      assert BeforeAt(run, n - 1, max, e);
      LiveStays(s.keys, WorkerOf(s, run[n - 1].worker), run[n - 1], n - 1, max, run[i].key, e);
    }
  }

  /** When the record of attempt `i` ends, on the server's clock. */
  function EndsAt(run: seq<Attempt>, i: nat, max: int): int
    requires i < |run|
  {
    var k := After(run, i + 1, max).keys;
    if run[i].key in k then k[run[i].key].0 else 0
  }

  /** At most one request a key is told it was stored during the record's life, with replies lost and retries made. */
  lemma OneWinner(run: seq<Attempt>, i: nat, j: nat, max: int)
    requires i < j < |run| && run[i].key == run[j].key && Answer(run, i, max) == Stored
    requires forall k :: i < k <= j ==> BeforeAt(run, k, max, EndsAt(run, i, max))
    ensures Answer(run, j, max) != Stored
    ensures EndsAt(run, i, max) >= run[i].ttl + 1 + Min(run[i].env.t, run[i].env.tAgain)
  {
    hide Check, Before;
    var s := After(run, i, max);
    StoredLives(s.keys, WorkerOf(s, run[i].worker), run[i], i, max);
    var e := EndsAt(run, i, max);
    Kept(run, i, j, max, e);
    var t := After(run, j, max);
    assert BeforeAt(run, j, max, e);
    LiveStays(t.keys, WorkerOf(t, run[j].worker), run[j], j, max, run[i].key, e);
  }

  // ----- Nobody is told a message was stored while it still verifies -----

  /** Commands reach the server no earlier than the clock the request was verified by, and at most `lag` later. */
  predicate Prompt(a: Attempt, lag: int) {
    a.env.now <= a.env.t <= a.env.now + lag && a.env.now <= a.env.tAgain <= a.env.now + lag
  }

  /**
   * A message that was stored is not told stored again while it verifies, less the time its
   * command may take to the server: up to and at the last accepted instant when that is nothing.
   */
  lemma NotStoredAgain(run: seq<Attempt>, i: nat, j: nat, max: int, expires: int, skew: int, lag: int)
    requires i < j < |run| && run[i].key == run[j].key && Answer(run, i, max) == Stored
    requires run[i].ttl == NonceRuns.StoreTtl(expires, skew, run[i].env.now)
    requires forall k :: i <= k <= j ==> Prompt(run[k], lag) && run[k].env.now <= run[j].env.now
    requires run[j].env.now + lag <= expires + skew
    ensures Answer(run, j, max) != Stored
  {
    hide Check;
    var s := After(run, i, max);
    StoredLives(s.keys, WorkerOf(s, run[i].worker), run[i], i, max);
    NonceRuns.TtlCoversWindow(expires, skew, run[i].env.now);
    OneWinner(run, i, j, max);
  }

  /** With a second's delay at the last instant it can be: the record is gone when the command arrives. */
  lemma StoredAgainWhenLate(key: bytes, max: int)
    ensures var on := World(0, 0, true, Replied, 0, false, Replied, 0);
      var late := World(5, 6, true, Replied, 6, false, Replied, 6);
      var run := [Attempt(0, key, NonceRuns.StoreTtl(5, 0, 0), on), Attempt(1, key, NonceRuns.StoreTtl(5, 0, 5), late)];
      Prompt(run[1], 1) && Answer(run, 0, max) == Stored && Answer(run, 1, max) == Stored
  {
    var on := World(0, 0, true, Replied, 0, false, Replied, 0);
    var late := World(5, 6, true, Replied, 6, false, Replied, 6);
    var run := [Attempt(0, key, NonceRuns.StoreTtl(5, 0, 0), on), Attempt(1, key, NonceRuns.StoreTtl(5, 0, 5), late)];
    assert After(run, 1, max) == Next(After(run, 0, max), run[0], 0, max);
  }

  // ----- A replay is someone else's -----

  /** Every key was set by an earlier request that presented it. */
  ghost predicate Owned(keys: Keys, run: seq<Attempt>, n: nat)
    requires n <= |run|
  {
    forall k :: k in keys ==> keys[k].1 < n && run[keys[k].1].key == k
  }

  lemma CommandOwned(keys: Keys, run: seq<Attempt>, n: nat, ex: int, t: int, w: Wire)
    requires n < |run| && Owned(keys, run, n + 1)
    ensures var (keys', r) := Command(keys, run[n].key, ex, t, n, w);
      Owned(keys', run, n + 1) && (r == Nil ==> run[n].key in keys)
  {
  }

  lemma OwnedLater(keys: Keys, run: seq<Attempt>, n: nat)
    requires n < |run| && Owned(keys, run, n)
    ensures Owned(keys, run, n + 1)
  {
  }

  lemma CheckOwned(keys: Keys, w: Worker, run: seq<Attempt>, n: nat, max: int)
    requires n < |run| && Owned(keys, run, n)
    ensures var (keys', _, v) := Check(keys, w, run[n].key, run[n].ttl, n, run[n].env, max);
      Owned(keys', run, n + 1) && (v == Replayed ==> run[n].key in keys)
  {
    hide Owned, Command, AfterReply, Arm;
    var a := run[n];
    OwnedLater(keys, run, n);
    CommandOwned(keys, run, n, a.ttl + 1, a.env.t, a.env.wire);
    var k1 := Command(keys, a.key, a.ttl + 1, a.env.t, n, a.env.wire).0;
    CommandOwned(k1, run, n, a.ttl + 1, a.env.tAgain, a.env.wireAgain);
  }

  lemma {:induction false} AlwaysOwned(run: seq<Attempt>, n: nat, max: int)
    requires n <= |run|
    ensures Owned(After(run, n, max).keys, run, n)
  {
    hide Check, Owned;
    NoneOwned(run);
    if n > 0 {
      AlwaysOwned(run, n - 1, max);
      var s := After(run, n - 1, max);
      CheckOwned(s.keys, WorkerOf(s, run[n - 1].worker), run, n - 1, max);
    }
  }

  lemma NoneOwned(run: seq<Attempt>)
    ensures Owned(map[], run, 0)
  {
  }

  /** A request refused as a replay repeats the key of an earlier, different request. */
  lemma ReplayIsAnothers(run: seq<Attempt>, j: nat, max: int)
    requires j < |run| && Answer(run, j, max) == Replayed
    ensures exists i :: 0 <= i < j && run[i].key == run[j].key
  {
    hide Check;
    AlwaysOwned(run, j, max);
    var s := After(run, j, max);
    assert Owned(s.keys, run, j);
    CheckOwned(s.keys, WorkerOf(s, run[j].worker), run, j, max);
    assert s.keys[run[j].key].1 < j;
  }

  // ----- The pause between failures -----

  /** The pause after `k` failed attempts in a row. */
  function Backoffs(k: nat, max: int): int { if k == 0 then 0 else NextBackoff(Backoffs(k - 1, max), max) }

  /** It doubles from one second up to the limit, which is at least one second. */
  lemma {:induction false} BackoffDoubles(k: nat, max: int)
    requires k > 0
    ensures Backoffs(k, max) == (var m := if max < 1 then 1 else max; if Power(k - 1) < m then Power(k - 1) else m)
  {
    if k > 1 {
      BackoffDoubles(k - 1, max);
    }
  }

  /** The attempt was made and failed: no connection, or no reply or an error at the end of it. */
  predicate Failed(w: Worker, a: Attempt) {
    && a.ttl >= 1 && !Pausing(w, a.env.now)
    && (!Sends(w, a) || var last := if Retried(a.env) then a.env.wireAgain else a.env.wire;
                        last.Undelivered? || last.ReplyLost? || last.ErrorReply?)
  }

  /**
   * A failed attempt lengthens the pause from its end, a definite answer ends it, and while it
   * lasts no command is sent.
   */
  lemma PauseSteps(keys: Keys, w: Worker, a: Attempt, who: nat, max: int)
    ensures var (keys', w', v) := Check(keys, w, a.key, a.ttl, who, a.env, max);
      && (Failed(w, a) ==> w' == Arm(w, a.env.later, max) && v == Unavailable)
      && (v == Stored || v == Replayed ==> w'.backoff == 0 && w'.retryAfter == 0)
      && (a.ttl >= 1 && Pausing(w, a.env.now) ==> keys' == keys && w' == w && v == Unavailable)
      && (!Failed(w, a) && v != Stored && v != Replayed ==> w'.backoff == w.backoff && w'.retryAfter == w.retryAfter)
  {
  }

  /** A failed attempt doubles the pause, from one second up to the limit, and starts it when the attempt ends. */
  lemma FailureDoubles(keys: Keys, w: Worker, a: Attempt, who: nat, max: int)
    requires Failed(w, a)
    ensures var w' := Check(keys, w, a.key, a.ttl, who, a.env, max).1;
      && (w.backoff < 1 ==> w'.backoff == 1)
      && (w.backoff >= 1 ==> w'.backoff == Min(w.backoff * 2, if max < 1 then 1 else max))
      && w'.retryAfter == a.env.later + w'.backoff && !w'.connected
  {
    hide Check;
    PauseSteps(keys, w, a, who, max);
  }

  /** Request `i` is of the worker, and its attempt failed. */
  predicate FailedAt(run: seq<Attempt>, i: nat, worker: nat, max: int)
    requires i < |run|
  {
    run[i].worker == worker && Failed(WorkerOf(After(run, i, max), worker), run[i])
  }

  /** How many attempts of the worker failed among the requests from `p` to before `n`. */
  function Failures(run: seq<Attempt>, p: nat, n: nat, worker: nat, max: int): nat
    requires p <= n <= |run|
  {
    if p == n then 0 else Failures(run, p, n - 1, worker, max) + if FailedAt(run, n - 1, worker, max) then 1 else 0
  }

  predicate IsLastFailure(run: seq<Attempt>, p: nat, n: nat, last: nat, worker: nat, max: int)
    requires p <= n <= |run|
  {
    p <= last < n && FailedAt(run, last, worker, max) && forall i :: last < i < n ==> !FailedAt(run, i, worker, max)
  }

  /** No request of the worker was answered definitely. */
  predicate NoAnswer(run: seq<Attempt>, p: nat, n: nat, worker: nat, max: int)
    requires p <= n <= |run|
  {
    forall i :: p <= i < n && run[i].worker == worker ==>
      Answer(run, i, max) != Stored && Answer(run, i, max) != Replayed
  }

  lemma {:induction false} BackoffCounts(run: seq<Attempt>, p: nat, n: nat, worker: nat, max: int)
    requires p <= n <= |run| && WorkerOf(After(run, p, max), worker).backoff == 0 && NoAnswer(run, p, n, worker, max)
    ensures WorkerOf(After(run, n, max), worker).backoff == Backoffs(Failures(run, p, n, worker, max), max)
  {
    hide Check, Failed, NextBackoff;
    if p < n {
      BackoffCounts(run, p, n - 1, worker, max);
      var s := After(run, n - 1, max);
      PauseSteps(s.keys, WorkerOf(s, run[n - 1].worker), run[n - 1], n - 1, max);
    }
  }

  lemma {:induction false} RetryAfterLast(run: seq<Attempt>, p: nat, n: nat, last: nat, worker: nat, max: int)
    requires p <= n <= |run| && NoAnswer(run, p, n, worker, max) && IsLastFailure(run, p, n, last, worker, max)
    ensures var w := WorkerOf(After(run, n, max), worker); w.retryAfter == run[last].env.later + w.backoff
  {
    hide Check, Failed, NextBackoff;
    var s := After(run, n - 1, max);
    PauseSteps(s.keys, WorkerOf(s, run[n - 1].worker), run[n - 1], n - 1, max);
    if last < n - 1 {
      RetryAfterLast(run, p, n - 1, last, worker, max);
      assert !FailedAt(run, n - 1, worker, max);
      assert run[n - 1].worker == worker ==> Answer(run, n - 1, max) != Stored && Answer(run, n - 1, max) != Replayed;
    }
  }

  /**
   * Over every run of checks: when `k` attempts of a worker failed since it had no pause and none
   * was answered definitely, with any number of checks of other workers, checks found pausing and
   * odd replies between them, its pause is `min(2^(k-1), max(1, limit))` from the end of the last.
   */
  lemma PauseAfter(run: seq<Attempt>, p: nat, n: nat, last: nat, worker: nat, max: int)
    requires p <= n <= |run| && WorkerOf(After(run, p, max), worker).backoff == 0
    requires NoAnswer(run, p, n, worker, max) && IsLastFailure(run, p, n, last, worker, max)
    ensures var k := Failures(run, p, n, worker, max);
      var m := if max < 1 then 1 else max;
      var w := WorkerOf(After(run, n, max), worker);
      k > 0 && w.backoff == (if Power(k - 1) < m then Power(k - 1) else m)
        && w.retryAfter == run[last].env.later + w.backoff
  {
    hide Check, Failed, WorkerOf, After;
    BackoffCounts(run, p, n, worker, max);
    SomeFailure(run, p, n, last, worker, max);
    BackoffDoubles(Failures(run, p, n, worker, max), max);
    RetryAfterLast(run, p, n, last, worker, max);
  }

  lemma {:induction false} SomeFailure(run: seq<Attempt>, p: nat, n: nat, last: nat, worker: nat, max: int)
    requires p <= last < n <= |run| && FailedAt(run, last, worker, max)
    ensures Failures(run, p, n, worker, max) > 0
  {
    hide FailedAt;
    if last < n - 1 {
      SomeFailure(run, p, n - 1, last, worker, max);
    }
  }
}
