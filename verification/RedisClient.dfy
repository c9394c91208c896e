/** The Redis nonce check as it runs: one worker's connection and pause, and a server it may lose sight of. */
module RedisClient {
  import opened Bytes
  import opened RedisNonce

  class Server {
    var keys: Keys

    constructor ()
      ensures keys == map[]
    {
      keys := map[];
    }

    /** Runs one command as far as the wire lets it. */
    method Run(key: bytes, ex: int, t: int, id: nat, w: Wire) returns (r: Reply)
      modifies this
      ensures (keys, r) == Command(old(keys), key, ex, t, id, w)
    {
      var lands := w.ReplyLost? || w.Replied? || (w.OddReply? && w.landed);
      var absent := !(key in keys && t < keys[key].0);
      if lands && absent {
        keys := keys[key := (t + ex, id)];
      }
      match w
      case Undelivered(retryable) => return Nothing(retryable);
      case ReplyLost(retryable) => return Nothing(retryable);
      case Replied => return if absent then OkStatus else Nil;
      case ErrorReply => return Error;
      case OddReply(_) => return Odd;
    }
  }

  class Client {
    var connected: bool
    var retryAfter: int
    var backoff: int
    const backoffMax: int

    ghost function State(): Worker
      reads this
    {
      Worker(connected, retryAfter, backoff)
    }

    constructor (backoffMax: int)
      ensures State() == IDLE && this.backoffMax == backoffMax
    {
      connected, retryAfter, backoff := false, 0, 0;
      this.backoffMax := backoffMax;
    }

    method Close()
      modifies `connected
      ensures !connected
    {
      connected := false;
    }

    method Connect(reachable: bool) returns (ok: bool)
      modifies `connected
      ensures connected == ok == (old(connected) || reachable)
    {
      if connected {
        return true;
      }
      connected := reachable;
      return reachable;
    }

    method ArmBackoff(later: int)
      modifies `retryAfter, `backoff
      ensures backoff == NextBackoff(old(backoff), backoffMax) && retryAfter == later + backoff
    {
      var max := if backoffMax < 1 then 1 else backoffMax;
      if backoff < 1 {
        backoff := 1;
      } else if backoff * 2 > max {
        backoff := max;
      } else {
        backoff := backoff * 2;
      }
      retryAfter := later + backoff;
    }

    method CheckNonce(server: Server, key: bytes, ttl: int, id: nat, env: World) returns (v: Verdict)
      modifies this, server
      ensures (server.keys, State(), v) == Check(old(server.keys), old(State()), key, ttl, id, env, backoffMax)
    {
      hide Command, NextBackoff;
      if ttl < 1 {
        return BadTtl;
      }
      if retryAfter != 0 && env.now < retryAfter {
        return Unavailable;
      }
      var up := Connect(env.connect);
      if !up {
        ArmBackoff(env.later);
        return Unavailable;
      }
      var retried := false;
      var resp := server.Run(key, ttl + 1, env.t, id, env.wire);
      if resp.Nothing? && resp.retryable {
        Close();
        var again := Connect(env.reconnect);
        if again {
          retried := true;
          resp := server.Run(key, ttl + 1, env.tAgain, id, env.wireAgain);
        }
      }
      v := Judge(resp, retried, env.later);
    }

    /** Acts on the last reply. */
    method Judge(resp: Reply, retried: bool, later: int) returns (v: Verdict)
      modifies this
      ensures v == VerdictOf(resp, retried)
      ensures old(connected) || resp.Nothing? ==>
        State() == AfterReply(old(State()).(connected := true), resp, retried, later, backoffMax)
    {
      if resp.Nothing? || resp.Error? {
        Close();
        ArmBackoff(later);
        return Unavailable;
      }
      if resp.Nil? {
        v := if retried then Unavailable else Replayed;
      } else if resp.OkStatus? {
        v := Stored;
      } else {
        Close();
        v := Unavailable;
      }
      if v != Unavailable {
        retryAfter := 0;
        backoff := 0;
      }
    }
  }
}
