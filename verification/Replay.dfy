/**
 * Requests over time: each is verified and, when it carries a nonce, checked once against the
 * nonce zone. No signed message is accepted twice, and none is refused as a replay unless
 * another request presented it before.
 */
module Replay {
  import opened AgentUrl
  import opened Bytes
  import opened NonceRuns
  import opened NonceSpec
  import opened NonceTheory
  import opened Profile
  import opened Sfv
  import opened SignatureBase

  const NONCE_MAX := 256

  /** One evaluation of a request: an internal redirect evaluates the same request again. */
  datatype Pass = Pass(id: nat, req: Request, now: int, check: KeyCheck)

  /** The policy of a location; `verify` stands for the profile verification under it. */
  datatype Config = Config(verify: Pass -> Result, skew: int, nonceRequired: bool, failClosed: bool, lim: Limits)

  datatype Outcome = Accepted | AlreadySeen | NonceMissing | NonceTooLong | StoreUnavailable | Failed(result: Result)

  /** The zone, and the nonce verdict of every request that has one. */
  datatype State = State(zone: Zone, memo: map<nat, Outcome>)

  /** What identifies a signed message to the nonce store. */
  datatype Identity = Identity(host: bytes, keyid: bytes, nonce: bytes)

  function OrEmpty(o: Option<bytes>): bytes { if o.Some? then o.value else [] }

  ghost function IdentityOf(p: Pass, sig: Signature): Identity {
    Identity(AgentHost(FieldLines(p.req.headers, SIGNATURE_AGENT), sig.member), OrEmpty(sig.fields.keyid),
      OrEmpty(sig.fields.nonce))
  }

  function ExpiresOf(sig: Signature): int { if sig.fields.expires.Some? then sig.fields.expires.value else 0 }

  /** Verification under the rules of a profile. */
  ghost predicate ByProfile(cfg: Config, rules: Rules, expiresMax: int) {
    forall p :: cfg.verify(p) == Verify(rules, Window(p.now, cfg.skew, expiresMax), p.req, p.check)
  }

  /** All that is needed of a verified signature: it is inside its window, and its host and key id hold no NUL. */
  ghost predicate Sound(cfg: Config) {
    forall p :: cfg.verify(p).Verified? ==>
      var sig := cfg.verify(p).sig;
      p.now <= ExpiresOf(sig) + cfg.skew && NUL !in IdentityOf(p, sig).host && NUL !in IdentityOf(p, sig).keyid
  }

  ghost function CallOf(cfg: Config, p: Pass, sig: Signature): Call {
    var who := IdentityOf(p, sig);
    Call(StoreKey(who.host, who.keyid, who.nonce), StoreTtl(ExpiresOf(sig), cfg.skew, p.now), p.now)
  }

  function OutcomeOf(v: NonceSpec.Verdict, cfg: Config): Outcome {
    match v
    case Stored => Accepted
    case Replayed => AlreadySeen
    case NoRoom => if cfg.failClosed then StoreUnavailable else Accepted
    case BadTtl => Accepted
  }

  /** The pass reaches the zone: it verifies, has a nonce of an allowed length, and its request has no verdict yet. */
  predicate Reaches(cfg: Config, st: State, p: Pass) {
    var r := cfg.verify(p);
    r.Verified? && 0 < |OrEmpty(r.sig.fields.nonce)| <= NONCE_MAX && p.id !in st.memo
  }

  ghost function Evaluate(cfg: Config, st: State, p: Pass): (State, Outcome) {
    var r := cfg.verify(p);
    if !r.Verified? then (st, Failed(r))
    else if OrEmpty(r.sig.fields.nonce) == [] then (st, if cfg.nonceRequired then NonceMissing else Accepted)
    else if p.id in st.memo then (st, st.memo[p.id])
    else if |OrEmpty(r.sig.fields.nonce)| > NONCE_MAX then (State(st.zone, st.memo[p.id := NonceTooLong]), NonceTooLong)
    else
      var c := CallOf(cfg, p, r.sig);
      var (zone, v) := Check(st.zone, c.key, c.ttl, c.now, cfg.lim);
      (State(zone, st.memo[p.id := OutcomeOf(v, cfg)]), OutcomeOf(v, cfg))
  }

  ghost function Reach(cfg: Config, st: State, run: seq<Pass>, n: nat): State
    requires n <= |run|
  {
    if n == 0 then st else Evaluate(cfg, Reach(cfg, st, run, n - 1), run[n - 1]).0
  }

  ghost function At(cfg: Config, st: State, run: seq<Pass>, n: nat): Outcome
    requires n < |run|
  {
    Evaluate(cfg, Reach(cfg, st, run, n), run[n]).1
  }

  /** The clock never goes back. */
  predicate Forward(run: seq<Pass>) { forall i, j :: 0 <= i < j < |run| ==> run[i].now <= run[j].now }

  /** The nonce zone took in the message of pass `i`. */
  ghost predicate StoredAt(cfg: Config, st: State, run: seq<Pass>, i: nat)
    requires i < |run|
  {
    var s := Reach(cfg, st, run, i);
    Reaches(cfg, s, run[i]) &&
    var c := CallOf(cfg, run[i], cfg.verify(run[i]).sig);
    Check(s.zone, c.key, c.ttl, c.now, cfg.lim).1 == Stored
  }

  lemma CallTtl(cfg: Config, p: Pass, sig: Signature)
    ensures CallOf(cfg, p, sig).ttl >= 1 && CallOf(cfg, p, sig).now == p.now
  {
  }

  lemma StepKeeps(cfg: Config, st: State, p: Pass, key: bytes, e: int)
    requires Good(st.zone, cfg.lim)
    ensures Good(Evaluate(cfg, st, p).0.zone, cfg.lim)
    ensures p.now <= e && key in Contents(st.zone.records) && Contents(st.zone.records)[key] == e ==>
      key in Contents(Evaluate(cfg, st, p).0.zone.records) && Contents(Evaluate(cfg, st, p).0.zone.records)[key] == e
  {
    hide Check, Contents, Good, CallOf;
    if Reaches(cfg, st, p) {
      var c := CallOf(cfg, p, cfg.verify(p).sig);
      CallTtl(cfg, p, cfg.verify(p).sig);
      CheckKeepsGood(st.zone, c.key, c.ttl, c.now, cfg.lim);
      if p.now <= e && key in Contents(st.zone.records) && Contents(st.zone.records)[key] == e {
        KeptByOne(st.zone, c, cfg.lim, key, e);
      }
    }
  }

  lemma {:induction false} ReachGood(cfg: Config, st: State, run: seq<Pass>, n: nat)
    requires Good(st.zone, cfg.lim) && n <= |run|
    ensures Good(Reach(cfg, st, run, n).zone, cfg.lim)
  {
    hide Evaluate, Good;
    if n > 0 {
      ReachGood(cfg, st, run, n - 1);
      StepKeeps(cfg, Reach(cfg, st, run, n - 1), run[n - 1], [], 0);
    }
  }

  ghost predicate Holds(st: State, key: bytes, e: int) {
    key in Contents(st.zone.records) && Contents(st.zone.records)[key] == e
  }

  lemma StoringStep(cfg: Config, st: State, p: Pass)
    requires Good(st.zone, cfg.lim) && Reaches(cfg, st, p)
    requires var c := CallOf(cfg, p, cfg.verify(p).sig); Check(st.zone, c.key, c.ttl, c.now, cfg.lim).1 == Stored
    ensures var c := CallOf(cfg, p, cfg.verify(p).sig); Holds(Evaluate(cfg, st, p).0, c.key, c.now + c.ttl)
  {
    hide Check, Contents, Good, CallOf;
    StoredThere(st.zone, CallOf(cfg, p, cfg.verify(p).sig), cfg.lim);
  }

  /** A stored message stays in the zone through every pass made no later than its expiry. */
  lemma {:induction false} StaysStored(cfg: Config, st: State, run: seq<Pass>, i: nat, n: nat)
    requires Good(st.zone, cfg.lim) && i < n <= |run| && StoredAt(cfg, st, run, i)
    requires var c := CallOf(cfg, run[i], cfg.verify(run[i]).sig); forall k :: i < k < n ==> run[k].now <= c.now + c.ttl
    ensures var c := CallOf(cfg, run[i], cfg.verify(run[i]).sig); Holds(Reach(cfg, st, run, n), c.key, c.now + c.ttl)
  {
    hide Check, Contents, Good, CallOf, Evaluate;
    var c := CallOf(cfg, run[i], cfg.verify(run[i]).sig);
    var before := Reach(cfg, st, run, n - 1);
    ReachGood(cfg, st, run, n - 1);
    if n == i + 1 {
      StoringStep(cfg, before, run[i]);
    } else {
      StaysStored(cfg, st, run, i, n - 1);
      StepKeeps(cfg, before, run[n - 1], c.key, c.now + c.ttl);
    }
  }

  /** Verification by a profile that requires an expiry is sound in this sense. */
  lemma ProfileIsSound(cfg: Config, rules: Rules, expiresMax: int)
    requires ByProfile(cfg, rules, expiresMax) && Expires in rules.required
    ensures Sound(cfg)
  {
    hide Verify, IsVerified, AgentHost, AcceptedEntry, ExtractFields, InWindow, Matches, Covered, ValidInnerList;
    forall p | cfg.verify(p).Verified?
      ensures var sig := cfg.verify(p).sig;
        p.now <= ExpiresOf(sig) + cfg.skew && NUL !in IdentityOf(p, sig).host && NUL !in IdentityOf(p, sig).keyid
    {
      var sig, w := cfg.verify(p).sig, Window(p.now, cfg.skew, expiresMax);
      VerifiedExactly(rules, w, p.req, p.check, sig);
      Unpack(rules, w, p.req, p.check, sig);
      SelectedValid(rules, p.req, sig.member, sig.list);
      VerifiedInWindow(rules, w, sig.fields, Covered(sig.list.items));
      AgentHostIsServerName(FieldLines(p.req.headers, SIGNATURE_AGENT), sig.member);
      PrintableNoNul(OrEmpty(sig.fields.keyid));
    }
  }

  /** The profile the module is built with is one of these. */
  lemma WebBotAuthIsSound(cfg: Config, expiresMax: int)
    requires ByProfile(cfg, WEB_BOT_AUTH, expiresMax)
    ensures Sound(cfg)
  {
    hide Verify, Sound;
    ProfileIsSound(cfg, WEB_BOT_AUTH, expiresMax);
  }

  lemma PrintableNoNul(s: bytes)
    ensures AllPrintable(s) ==> NUL !in s
  {
  }

  lemma Unpack(rules: Rules, w: Window, req: Request, check: KeyCheck, sig: Signature)
    requires IsVerified(rules, w, req, check, sig)
    ensures AcceptedEntry(rules, req, sig.member, sig.list) && ExtractFields(sig.list.params) == Some(sig.fields)
    ensures InWindow(sig.fields, w) && Matches(rules, sig.fields, Covered(sig.list.items))
  {
    hide AcceptedEntry, ExtractFields, Matches, InWindow, HasSignature, Build, Covered;
  }

  /** What matches a profile that requires an expiry, and is inside its window, has not run out. */
  lemma VerifiedInWindow(rules: Rules, w: Window, f: Fields, covered: set<Comp>)
    requires Expires in rules.required && Matches(rules, f, covered) && InWindow(f, w)
    ensures f.expires.Some? && w.now <= f.expires.value + w.skew
  {
    hide Lower;
  }

  /**
   * The same identity is not accepted again while the first signature could still be: every
   * later pass of another request that reaches the zone with it is refused as a replay.
   */
  lemma RefusedWhileValid(cfg: Config, st: State, run: seq<Pass>, i: nat, j: nat)
    requires Good(st.zone, cfg.lim) && Forward(run) && Sound(cfg)
    requires i < j < |run| && StoredAt(cfg, st, run, i) && Reaches(cfg, Reach(cfg, st, run, j), run[j])
    requires IdentityOf(run[i], cfg.verify(run[i]).sig) == IdentityOf(run[j], cfg.verify(run[j]).sig)
    requires run[j].now <= ExpiresOf(cfg.verify(run[i]).sig) + cfg.skew
    ensures At(cfg, st, run, j) == AlreadySeen
  {
    hide Check, Contents, Good, IdentityOf, StoreKey;
    var sig := cfg.verify(run[i]).sig;
    var c, d := CallOf(cfg, run[i], sig), CallOf(cfg, run[j], cfg.verify(run[j]).sig);
    TtlCoversWindow(ExpiresOf(sig), cfg.skew, run[i].now);
    StaysStored(cfg, st, run, i, j);
    var at := Reach(cfg, st, run, j);
    CallTtl(cfg, run[j], cfg.verify(run[j]).sig);
    LiveContents(at.zone.records, d.now, d.key);
    ReplayedWhenLive(at.zone, d.key, d.ttl, d.now, cfg.lim);
  }

  // ----- Verdicts are taken once and remembered -----

  /** The pass takes the verdict of its request: it verifies, has a nonce, and nothing is remembered yet. */
  predicate Decides(cfg: Config, st: State, p: Pass) {
    cfg.verify(p).Verified? && OrEmpty(cfg.verify(p).sig.fields.nonce) != [] && p.id !in st.memo
  }

  /** A remembered verdict is the outcome of an earlier pass of the same request, the one that took it. */
  lemma {:induction false} MemoFrom(cfg: Config, st: State, run: seq<Pass>, n: nat, id: nat) returns (k: nat)
    requires n <= |run| && id !in st.memo && id in Reach(cfg, st, run, n).memo
    ensures k < n && run[k].id == id && Decides(cfg, Reach(cfg, st, run, k), run[k])
    ensures Reach(cfg, st, run, n).memo[id] == At(cfg, st, run, k)
  {
    hide Check, CallOf, OutcomeOf;
    k := n - 1;
    if id in Reach(cfg, st, run, k).memo {
      k := MemoFrom(cfg, st, run, n - 1, id);
    }
  }

  /**
   * A pass that verifies with a nonce, on the first evaluation or on a later one, has the outcome
   * of a deciding pass.
   */
  lemma DecidedBy(cfg: Config, st: State, run: seq<Pass>, j: nat) returns (k: nat)
    requires j < |run| && run[j].id !in st.memo
    requires cfg.verify(run[j]).Verified? && OrEmpty(cfg.verify(run[j]).sig.fields.nonce) != []
    ensures k <= j && run[k].id == run[j].id && Decides(cfg, Reach(cfg, st, run, k), run[k])
    ensures At(cfg, st, run, k) == At(cfg, st, run, j)
  {
    hide Check, CallOf, OutcomeOf;
    k := j;
    if run[j].id in Reach(cfg, st, run, j).memo {
      k := MemoFrom(cfg, st, run, j, run[j].id);
    }
  }

  /** The same identity with the same expiry. */
  ghost predicate SameMessage(p: Pass, s: Signature, q: Pass, t: Signature) {
    IdentityOf(p, s) == IdentityOf(q, t) && ExpiresOf(s) == ExpiresOf(t)
  }

  /** Whenever a pass of the request verifies, it carries the message of pass `i`. */
  ghost predicate Carries(cfg: Config, run: seq<Pass>, id: nat, i: nat)
    requires i < |run| && cfg.verify(run[i]).Verified?
  {
    forall k :: 0 <= k < |run| && run[k].id == id && cfg.verify(run[k]).Verified? ==>
      SameMessage(run[i], cfg.verify(run[i]).sig, run[k], cfg.verify(run[k]).sig)
  }

  /** A request that was not evaluated up to and at pass `i`. */
  predicate NewAfter(st: State, run: seq<Pass>, i: nat, id: nat)
    requires i < |run|
  {
    id !in st.memo && forall k :: 0 <= k <= i ==> run[k].id != id
  }

  /**
   * No replay over whole runs: a message whose nonce was stored is never accepted again from
   * another request that comes later, at any time and on any of its evaluations: until its window
   * closes the zone refuses it or the refusal is remembered, and after that it no longer verifies.
   */
  lemma NeverAcceptedTwice(cfg: Config, st: State, run: seq<Pass>, i: nat, j: nat)
    requires Good(st.zone, cfg.lim) && Forward(run) && Sound(cfg)
    requires i < j < |run| && StoredAt(cfg, st, run, i)
    requires NewAfter(st, run, i, run[j].id) && Carries(cfg, run, run[j].id, i)
    ensures At(cfg, st, run, j) != Accepted
    ensures cfg.verify(run[j]).Verified? <==> At(cfg, st, run, j) == AlreadySeen
  {
    hide Check, Contents, Good, IdentityOf, StoreKey, CallOf, Reach;
    if cfg.verify(run[j]).Verified? {
      SameNonce(run[i], cfg.verify(run[i]).sig, run[j], cfg.verify(run[j]).sig);
      var k := DecidedBy(cfg, st, run, j);
      SameNonce(run[i], cfg.verify(run[i]).sig, run[k], cfg.verify(run[k]).sig);
      RefusedWhileValid(cfg, st, run, i, k);
    }
  }

  lemma SameNonce(p: Pass, s: Signature, q: Pass, t: Signature)
    requires IdentityOf(p, s) == IdentityOf(q, t)
    ensures OrEmpty(s.fields.nonce) == OrEmpty(t.fields.nonce)
  {
  }

  /** The zone had no room for the message of pass `k`, and the policy lets such a message in. */
  ghost predicate LetInUnstored(cfg: Config, st: State, run: seq<Pass>, k: nat)
    requires k < |run|
  {
    var s := Reach(cfg, st, run, k);
    !cfg.failClosed && Reaches(cfg, s, run[k]) &&
    var c := CallOf(cfg, run[k], cfg.verify(run[k]).sig);
    Check(s.zone, c.key, c.ttl, c.now, cfg.lim).1 == NoRoom
  }

  /**
   * One message is accepted for two requests, in whatever order their evaluations come, only when
   * one of them was let in unstored: never when the policy fails closed.
   */
  lemma TwiceOnlyUnstored(cfg: Config, st: State, run: seq<Pass>, i: nat, j: nat)
    requires Good(st.zone, cfg.lim) && Forward(run) && Sound(cfg)
    requires i < |run| && j < |run| && run[i].id != run[j].id && run[i].id !in st.memo && run[j].id !in st.memo
    requires cfg.verify(run[i]).Verified? && cfg.verify(run[j]).Verified?
    requires OrEmpty(cfg.verify(run[i]).sig.fields.nonce) != []
    requires Carries(cfg, run, run[i].id, i) && Carries(cfg, run, run[j].id, i)
    requires At(cfg, st, run, i) == Accepted && At(cfg, st, run, j) == Accepted
    ensures exists k :: 0 <= k < |run| && run[k].id in {run[i].id, run[j].id} && LetInUnstored(cfg, st, run, k)
  {
    hide Check, Contents, Good, IdentityOf, StoreKey, CallOf, Reach, ExpiresOf, LetInUnstored;
    SameNonce(run[i], cfg.verify(run[i]).sig, run[j], cfg.verify(run[j]).sig);
    var a := DecidedBy(cfg, st, run, i);
    var b := DecidedBy(cfg, st, run, j);
    AcceptedIsStored(cfg, st, run, a);
    AcceptedIsStored(cfg, st, run, b);
    if a < b {
      if StoredAt(cfg, st, run, a) { RefusedWhileValid(cfg, st, run, a, b); }
    } else {
      if StoredAt(cfg, st, run, b) { RefusedWhileValid(cfg, st, run, b, a); }
    }
  }

  /** A deciding pass is accepted only when its message was stored, or let in unstored. */
  lemma AcceptedIsStored(cfg: Config, st: State, run: seq<Pass>, k: nat)
    requires k < |run| && Decides(cfg, Reach(cfg, st, run, k), run[k]) && At(cfg, st, run, k) == Accepted
    ensures StoredAt(cfg, st, run, k) || LetInUnstored(cfg, st, run, k)
  {
    hide CallOf, Reach, RoomFor, Lookup, Without, Insert;
    CallTtl(cfg, run[k], cfg.verify(run[k]).sig);
  }

  // ----- What each outcome means -----

  /** The nonce of a pass, as far as there is any. */
  predicate HasNonce(sig: Signature) { sig.fields.nonce.Some? && |sig.fields.nonce.value| > 0 }

  /** What is asked of the zone: host, key id and nonce between NULs, for as long as the signature can be accepted. */
  lemma CallExactly(cfg: Config, p: Pass, sig: Signature)
    ensures CallOf(cfg, p, sig).key ==
      PREFIX + AgentHost(FieldLines(p.req.headers, SIGNATURE_AGENT), sig.member)
        + [0] + (if sig.fields.keyid.Some? then sig.fields.keyid.value else [])
        + [0] + (if sig.fields.nonce.Some? then sig.fields.nonce.value else [])
    ensures var left := (if sig.fields.expires.Some? then sig.fields.expires.value else 0) + cfg.skew - p.now;
      CallOf(cfg, p, sig).ttl == (if left < 1 then 1 else left) && CallOf(cfg, p, sig).now == p.now
  {
    hide AgentHost, FieldLines;
  }

  /** Without a nonce nothing is looked up: the policy alone decides. */
  lemma WithoutNonce(cfg: Config, st: State, run: seq<Pass>, j: nat)
    requires j < |run| && cfg.verify(run[j]).Verified? && !HasNonce(cfg.verify(run[j]).sig)
    ensures At(cfg, st, run, j) == if cfg.nonceRequired then NonceMissing else Accepted
    ensures Evaluate(cfg, Reach(cfg, st, run, j), run[j]).0 == Reach(cfg, st, run, j)
  {
    hide Check, CallOf, Reach;
  }

  /** A message that does not verify is refused as such, and nothing is remembered of it. */
  lemma FailedExactly(cfg: Config, st: State, run: seq<Pass>, j: nat)
    requires j < |run| && run[j].id !in st.memo
    ensures At(cfg, st, run, j).Failed? <==> !cfg.verify(run[j]).Verified?
    ensures At(cfg, st, run, j).Failed? ==> At(cfg, st, run, j).result == cfg.verify(run[j])
    ensures At(cfg, st, run, j).Failed? ==> Evaluate(cfg, Reach(cfg, st, run, j), run[j]).0 == Reach(cfg, st, run, j)
  {
    hide Check, CallOf, Reach, OutcomeOf;
    if cfg.verify(run[j]).Verified? && OrEmpty(cfg.verify(run[j]).sig.fields.nonce) != [] {
      var k := DecidedBy(cfg, st, run, j);
      DecisionExactly(cfg, Reach(cfg, st, run, k), run[k]);
    }
  }

  /** What a deciding pass answers, by the length of its nonce, what the zone makes of its key, and the policy. */
  lemma DecisionExactly(cfg: Config, st: State, p: Pass)
    requires cfg.verify(p).Verified? && HasNonce(cfg.verify(p).sig) && p.id !in st.memo
    ensures var sig := cfg.verify(p).sig;
      var (c, o) := (CallOf(cfg, p, sig), Evaluate(cfg, st, p).1);
      var long := |sig.fields.nonce.value| > 256;
      var v := Check(st.zone, c.key, c.ttl, c.now, cfg.lim).1;
      && !o.Failed? && o != NonceMissing && (o == NonceTooLong <==> long)
      && (o == AlreadySeen <==> !long && v == Replayed)
      && (o == StoreUnavailable <==> !long && v == NoRoom && cfg.failClosed)
      && (o == Accepted <==> !long && (v == Stored || (v == NoRoom && !cfg.failClosed)))
  {
    hide Reach, RoomFor, Lookup, Without, Insert, StoreKey, IdentityOf;
    CallTtl(cfg, p, cfg.verify(p).sig);
  }

  /** A nonce is missed exactly when a verified message has none and the policy requires one. */
  lemma MissingExactly(cfg: Config, st: State, run: seq<Pass>, j: nat)
    requires j < |run| && run[j].id !in st.memo
    ensures At(cfg, st, run, j) == NonceMissing <==>
      cfg.verify(run[j]).Verified? && !HasNonce(cfg.verify(run[j]).sig) && cfg.nonceRequired
  {
    hide Check, CallOf, Reach, OutcomeOf;
    if cfg.verify(run[j]).Verified? {
      if OrEmpty(cfg.verify(run[j]).sig.fields.nonce) == [] {
        WithoutNonce(cfg, st, run, j);
      } else {
        var k := DecidedBy(cfg, st, run, j);
        DecisionExactly(cfg, Reach(cfg, st, run, k), run[k]);
      }
    } else {
      FailedExactly(cfg, st, run, j);
    }
  }

  /** What is accepted has verified, and has a nonce when the policy requires one. */
  lemma AcceptedHasNonce(cfg: Config, st: State, run: seq<Pass>, j: nat)
    requires j < |run| && run[j].id !in st.memo && At(cfg, st, run, j) == Accepted
    ensures cfg.verify(run[j]).Verified?
    ensures cfg.nonceRequired ==> HasNonce(cfg.verify(run[j]).sig)
  {
    hide Check, CallOf, Reach, OutcomeOf, Evaluate;
    FailedExactly(cfg, st, run, j);
    MissingExactly(cfg, st, run, j);
    if cfg.verify(run[j]).Verified? && OrEmpty(cfg.verify(run[j]).sig.fields.nonce) == [] {
      WithoutNonce(cfg, st, run, j);
    }
  }

  /**
   * The closing law: where nonces are required and the policy fails closed, every accepted pass
   * has the outcome of a pass of its own request whose message the zone stored.
   */
  lemma AcceptedIsOnRecord(cfg: Config, st: State, run: seq<Pass>, j: nat) returns (k: nat)
    requires cfg.nonceRequired && cfg.failClosed
    requires j < |run| && run[j].id !in st.memo && At(cfg, st, run, j) == Accepted
    ensures k <= j && run[k].id == run[j].id && StoredAt(cfg, st, run, k)
  {
    hide Check, CallOf, Reach, Evaluate, StoredAt;
    AcceptedHasNonce(cfg, st, run, j);
    k := DecidedBy(cfg, st, run, j);
    AcceptedIsStored(cfg, st, run, k);
    assert !LetInUnstored(cfg, st, run, k);
  }

  /** So under such a policy one message is accepted for one request at most. */
  lemma OneRequestPerMessage(cfg: Config, st: State, run: seq<Pass>, i: nat, j: nat)
    requires Good(st.zone, cfg.lim) && Forward(run) && Sound(cfg) && cfg.nonceRequired && cfg.failClosed
    requires i < |run| && j < |run| && run[i].id !in st.memo && run[j].id !in st.memo
    requires At(cfg, st, run, i) == Accepted && At(cfg, st, run, j) == Accepted
    requires cfg.verify(run[i]).Verified? && Carries(cfg, run, run[i].id, i) && Carries(cfg, run, run[j].id, i)
    ensures run[i].id == run[j].id
  {
    hide Check, CallOf, Reach, Evaluate, StoredAt, Good, IdentityOf, Carries;
    AcceptedHasNonce(cfg, st, run, i);
    AcceptedHasNonce(cfg, st, run, j);
    if run[i].id != run[j].id {
      TwiceOnlyUnstored(cfg, st, run, i, j);
    }
  }

  // ----- One request, one message -----

  /** The passes of one request carry the header fields it came with, whatever else a redirect changes. */
  predicate SameHead(run: seq<Pass>) {
    forall i, j :: 0 <= i < |run| && 0 <= j < |run| && run[i].id == run[j].id ==>
      run[i].req.headers == run[j].req.headers
  }

  /** Under a profile, what a request carries is fixed by its header fields. */
  lemma HeadersFixMessage(cfg: Config, rules: Rules, expiresMax: int, p: Pass, q: Pass)
    requires ByProfile(cfg, rules, expiresMax) && p.req.headers == q.req.headers
    requires cfg.verify(p).Verified? && cfg.verify(q).Verified?
    ensures SameMessage(p, cfg.verify(p).sig, q, cfg.verify(q).sig)
  {
    hide Verify, IsVerified, AgentHost, FieldLines, FieldValue, ParseDictionary, SelectEntry, ExtractFields;
    var s, t := cfg.verify(p).sig, cfg.verify(q).sig;
    VerifiedExactly(rules, Window(p.now, cfg.skew, expiresMax), p.req, p.check, s);
    VerifiedExactly(rules, Window(q.now, cfg.skew, expiresMax), q.req, q.check, t);
    Unpack(rules, Window(p.now, cfg.skew, expiresMax), p.req, p.check, s);
    Unpack(rules, Window(q.now, cfg.skew, expiresMax), q.req, q.check, t);
  }

  // ----- And only replays are refused as such -----

  /** Every record was put there by an earlier pass, under its key. */
  ghost predicate Explained(cfg: Config, st: State, run: seq<Pass>, n: nat)
    requires n <= |run|
  {
    forall k :: k in Contents(Reach(cfg, st, run, n).zone.records) ==> ExplainedBy(cfg, st, run, n, k)
  }

  ghost predicate ExplainedBy(cfg: Config, st: State, run: seq<Pass>, n: nat, k: bytes)
    requires n <= |run|
  {
    exists i :: 0 <= i < n && StoredAt(cfg, st, run, i) && CallOf(cfg, run[i], cfg.verify(run[i]).sig).key == k
  }

  /** A step adds no key but one it stores. */
  lemma StepAdds(cfg: Config, st: State, p: Pass, k: bytes)
    requires Good(st.zone, cfg.lim)
    requires k in Contents(Evaluate(cfg, st, p).0.zone.records) && k !in Contents(st.zone.records)
    ensures Reaches(cfg, st, p)
    ensures var c := CallOf(cfg, p, cfg.verify(p).sig);
      c.key == k && Check(st.zone, c.key, c.ttl, c.now, cfg.lim).1 == Stored
  {
    hide Check, Contents, Good, CallOf;
    if Reaches(cfg, st, p) {
      CheckAdds(st.zone, CallOf(cfg, p, cfg.verify(p).sig), cfg.lim, k);
    }
  }

  lemma CheckAdds(z: Zone, c: Call, lim: Limits, k: bytes)
    requires Good(z, lim) && k in Contents(Next(z, c, lim).records) && k !in Contents(z.records)
    ensures c.key == k && Check(z, c.key, c.ttl, c.now, lim).1 == Stored
  {
    hide Ordered, Insert, RoomFor, Fits, Lookup, Contents, Without, Distinct;
    LookupContents(z.records, k);
    LookupContents(Next(z, c, lim).records, k);
    RoomForKeeps(z.records, c.key, c.now, lim, k);
    RoomForKeeps(z.records, c.key, c.now, lim, c.key);
    LookupWithout(z.records, c.key, k);
    LookupWithout(z.records, c.key, c.key);
    if Check(z, c.key, c.ttl, c.now, lim).1 == Stored {
      var base :=
        if Lookup(z.records, c.key).Some? then Without(z.records, c.key) else RoomFor(z.records, c.key, c.now, lim);
      LookupInsert(base, Record(c.key, c.now + c.ttl), k);
    }
  }

  lemma {:induction false} AlwaysExplained(cfg: Config, st: State, run: seq<Pass>, n: nat)
    requires st.zone.records == [] && n <= |run| && Good(st.zone, cfg.lim)
    ensures Explained(cfg, st, run, n)
  {
    hide Evaluate, Contents, Good, StoredAt, CallOf;
    EmptyContents();
    if n > 0 {
      AlwaysExplained(cfg, st, run, n - 1);
      ReachGood(cfg, st, run, n - 1);
      forall k | k in Contents(Reach(cfg, st, run, n).zone.records)
        ensures ExplainedBy(cfg, st, run, n, k)
      {
        ExplainStep(cfg, st, run, n, k);
      }
    }
  }

  lemma EmptyContents()
    ensures Contents([]) == map[]
  {
  }

  lemma ExplainStep(cfg: Config, st: State, run: seq<Pass>, n: nat, k: bytes)
    requires 0 < n <= |run| && Explained(cfg, st, run, n - 1) && Good(Reach(cfg, st, run, n - 1).zone, cfg.lim)
    requires k in Contents(Reach(cfg, st, run, n).zone.records)
    ensures ExplainedBy(cfg, st, run, n, k)
  {
    hide Evaluate, Contents, Good, CallOf, Check;
    var before := Reach(cfg, st, run, n - 1);
    if k in Contents(before.zone.records) {
      assert ExplainedBy(cfg, st, run, n - 1, k);
      var i :| 0 <= i < n - 1 && StoredAt(cfg, st, run, i) && CallOf(cfg, run[i], cfg.verify(run[i]).sig).key == k;
    } else {
      StepAdds(cfg, before, run[n - 1], k);
      assert StoredAt(cfg, st, run, n - 1);
    }
  }

  /** A pass that reaches the zone has its request's verdict remembered from then on. */
  lemma {:induction false} Remembers(cfg: Config, st: State, run: seq<Pass>, i: nat, n: nat)
    requires i < n <= |run| && Reaches(cfg, Reach(cfg, st, run, i), run[i])
    ensures run[i].id in Reach(cfg, st, run, n).memo
  {
    hide Check, CallOf;
    if n > i + 1 {
      Remembers(cfg, st, run, i, n - 1);
    }
  }

  /**
   * From an empty zone, a pass that is refused as a replay when it reaches the zone repeats a
   * message another request had stored: same host, key id and nonce.
   */
  lemma ReplayedRepeats(cfg: Config, st: State, run: seq<Pass>, j: nat) returns (i: nat)
    requires st.zone.records == [] && Good(st.zone, cfg.lim) && j < |run| && Sound(cfg)
    requires Reaches(cfg, Reach(cfg, st, run, j), run[j]) && At(cfg, st, run, j) == AlreadySeen
    ensures i < j && StoredAt(cfg, st, run, i) && run[i].id != run[j].id
    ensures IdentityOf(run[i], cfg.verify(run[i]).sig) == IdentityOf(run[j], cfg.verify(run[j]).sig)
  {
    hide Check, Contents, Good, IdentityOf, StoreKey;
    AlwaysExplained(cfg, st, run, j);
    var at := Reach(cfg, st, run, j);
    var d := CallOf(cfg, run[j], cfg.verify(run[j]).sig);
    ReplayedWhenLive(at.zone, d.key, d.ttl, d.now, cfg.lim);
    LiveContents(at.zone.records, d.now, d.key);
    assert ExplainedBy(cfg, st, run, j, d.key);
    i :| 0 <= i < j && StoredAt(cfg, st, run, i) && CallOf(cfg, run[i], cfg.verify(run[i]).sig).key == d.key;
    Remembers(cfg, st, run, i, j);
    SameKeySameIdentity(cfg, run[i], run[j]);
  }

  /** The message was stored by pass `i` of another request, and pass `k` of this one repeated it. */
  ghost predicate RepeatedBy(cfg: Config, st: State, run: seq<Pass>, i: nat, k: nat)
    requires i < |run| && k < |run|
  {
    && StoredAt(cfg, st, run, i) && run[i].id != run[k].id && cfg.verify(run[k]).Verified?
    && IdentityOf(run[i], cfg.verify(run[i]).sig) == IdentityOf(run[k], cfg.verify(run[k]).sig)
  }

  /**
   * From an empty zone, every refusal as a replay, on the first evaluation of a request or on a
   * later one, is of a message another request had stored.
   */
  lemma OnlyReplaysRefused(cfg: Config, st: State, run: seq<Pass>, j: nat)
    requires st.zone.records == [] && st.memo == map[] && Good(st.zone, cfg.lim) && j < |run| && Sound(cfg)
    requires At(cfg, st, run, j) == AlreadySeen
    ensures exists i, k :: 0 <= i < k <= j && run[k].id == run[j].id && RepeatedBy(cfg, st, run, i, k)
  {
    hide Check, Good, IdentityOf, StoreKey, CallOf, Reach;
    var k := DecidedBy(cfg, st, run, j);
    var i := ReplayedRepeats(cfg, st, run, k);
    assert RepeatedBy(cfg, st, run, i, k);
  }

  /** Under a profile, when a redirect keeps the header fields, it is the very message the refused pass carries. */
  lemma RefusedMessageIsReplay(cfg: Config, rules: Rules, expiresMax: int, st: State, run: seq<Pass>, j: nat)
    requires st.zone.records == [] && st.memo == map[] && Good(st.zone, cfg.lim) && j < |run|
    requires ByProfile(cfg, rules, expiresMax) && Expires in rules.required && SameHead(run)
    requires At(cfg, st, run, j) == AlreadySeen
    ensures exists i :: 0 <= i < j && RepeatedBy(cfg, st, run, i, j)
  {
    hide Check, Good, IdentityOf, StoreKey, CallOf, Reach, Verify, StoredAt, ExpiresOf;
    ProfileIsSound(cfg, rules, expiresMax);
    OnlyReplaysRefused(cfg, st, run, j);
    var i, k :| 0 <= i < k <= j && run[k].id == run[j].id && RepeatedBy(cfg, st, run, i, k);
    HeadersFixMessage(cfg, rules, expiresMax, run[k], run[j]);
    assert RepeatedBy(cfg, st, run, i, j);
  }

  /** Host and key id hold no NUL, so one store key stands for one identity. */
  lemma SameKeySameIdentity(cfg: Config, p: Pass, q: Pass)
    requires Sound(cfg) && cfg.verify(p).Verified? && cfg.verify(q).Verified?
    requires CallOf(cfg, p, cfg.verify(p).sig).key == CallOf(cfg, q, cfg.verify(q).sig).key
    ensures IdentityOf(p, cfg.verify(p).sig) == IdentityOf(q, cfg.verify(q).sig)
  {
    hide StoreKey, AgentHost;
    var a, b := IdentityOf(p, cfg.verify(p).sig), IdentityOf(q, cfg.verify(q).sig);
    KeysDiffer(a.host, a.keyid, a.nonce, b.host, b.keyid, b.nonce);
  }
}
