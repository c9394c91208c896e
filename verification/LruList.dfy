/** The parse cache as a list, most recently touched first, and when it still holds a host. */
module LruList {
  import opened Bytes

  const CAPACITY: nat := 16

  type Keys = nat

  datatype Entry = Entry(host: bytes, generation: nat, keys: Keys)

  function IndexOfHost(l: seq<Entry>, h: bytes): (n: nat)
    ensures n <= |l| && (n < |l| ==> l[n].host == h) && forall i :: 0 <= i < n ==> l[i].host != h
  {
    if l == [] || l[0].host == h then 0 else 1 + IndexOfHost(l[1..], h)
  }

  function Drop(l: seq<Entry>, n: nat): seq<Entry>
    requires n < |l|
  {
    l[..n] + l[n + 1..]
  }

  /** The host's entry comes to the front; a full list loses its last entry to a new host. */
  function Touch(l: seq<Entry>, e: Entry): seq<Entry> {
    var n := IndexOfHost(l, e.host);
    if n < |l| then [e] + Drop(l, n)
    else if |l| >= CAPACITY then [e] + l[..CAPACITY - 1]
    else [e] + l
  }

  predicate Hits(l: seq<Entry>, host: bytes, generation: nat) {
    var n := IndexOfHost(l, host);
    generation != 0 && n < |l| && l[n].generation == generation
  }

  function Get(l: seq<Entry>, host: bytes, generation: nat): (seq<Entry>, Option<Keys>) {
    if !Hits(l, host, generation) then (l, None)
    else
      var e := l[IndexOfHost(l, host)];
      (Touch(l, e), Some(e.keys))
  }

  // ----- Runs -----

  datatype Op = GetOp(host: bytes, generation: nat) | PutOp(entry: Entry)

  function Next(l: seq<Entry>, op: Op): seq<Entry> {
    match op
    case GetOp(h, g) => Get(l, h, g).0
    case PutOp(e) => Touch(l, e)
  }

  function After(ops: seq<Op>): seq<Entry> {
    if ops == [] then [] else Next(After(ops[..|ops| - 1]), ops[|ops| - 1])
  }

  /** The host touched by the last operation, when it touches one. */
  function TouchedBy(l: seq<Entry>, op: Op): Option<bytes> {
    match op
    case GetOp(h, g) => if Hits(l, h, g) then Some(h) else None
    case PutOp(e) => Some(e.host)
  }

  /** The last put for a host. */
  function LastPut(ops: seq<Op>, h: bytes): Option<Entry> {
    if ops == [] then None
    else
      var op := ops[|ops| - 1];
      if op.PutOp? && op.entry.host == h then Some(op.entry) else LastPut(ops[..|ops| - 1], h)
  }

  /** The other hosts touched since a host was last touched. */
  function OthersSince(ops: seq<Op>, h: bytes): set<bytes> {
    if ops == [] then {}
    else
      var rest := ops[..|ops| - 1];
      var t := TouchedBy(After(rest), ops[|ops| - 1]);
      if t.None? then OthersSince(rest, h)
      else if t.value == h then {}
      else OthersSince(rest, h) + {t.value}
  }

  function Hosts(l: seq<Entry>): set<bytes> { set i | 0 <= i < |l| :: l[i].host }

  predicate Distinct(l: seq<Entry>) { forall i, j :: 0 <= i < j < |l| ==> l[i].host != l[j].host }

  /**
   * A host in the list is preceded by exactly the hosts touched since; one that is gone was pushed
   * out by a full list of them.
   */
  ghost predicate Explains(ops: seq<Op>, h: bytes) {
    var l := After(ops);
    var n := IndexOfHost(l, h);
    if n < |l| then Hosts(l[..n]) == OthersSince(ops, h) && LastPut(ops, h) == Some(l[n])
    else LastPut(ops, h).Some? ==> |l| == CAPACITY && Hosts(l) <= OthersSince(ops, h)
  }

  lemma HostsIn(l: seq<Entry>, h: bytes)
    ensures h in Hosts(l) <==> IndexOfHost(l, h) < |l|
  {
  }

  lemma HostsConcat(u: seq<Entry>, v: seq<Entry>)
    ensures Hosts(u + v) == Hosts(u) + Hosts(v)
  {
    forall h | h in Hosts(u) + Hosts(v)
      ensures h in Hosts(u + v)
    {
      if h in Hosts(u) {
        var i :| 0 <= i < |u| && u[i].host == h;
        assert (u + v)[i].host == h;
      } else {
        var i :| 0 <= i < |v| && v[i].host == h;
        assert (u + v)[|u| + i].host == h;
      }
    }
  }

  lemma TouchSize(l: seq<Entry>, e: Entry)
    requires Distinct(l) && |l| <= CAPACITY
    ensures Distinct(Touch(l, e)) && |Touch(l, e)| <= CAPACITY
    ensures IndexOfHost(l, e.host) == |l| && |l| == CAPACITY ==> |Touch(l, e)| == CAPACITY
    ensures |l| == CAPACITY ==> |Touch(l, e)| == CAPACITY
    ensures |Touch(l, e)| > 0 && Touch(l, e)[0] == e
  {
  }

  /** Where another host's entry is after a touch, and what is before it. */
  lemma TouchMoves(l: seq<Entry>, e: Entry, h: bytes)
    requires Distinct(l) && |l| <= CAPACITY && h != e.host
    ensures var l' := Touch(l, e);
      var n, n' := IndexOfHost(l, h), IndexOfHost(l', h);
      && (n' < |l'| ==> n < |l| && l'[n'] == l[n] && Hosts(l'[..n']) == Hosts(l[..n]) + {e.host})
      && (n' == |l'| && n < |l| ==> |l'| == CAPACITY && Hosts(l') == Hosts(l[..n]) + {e.host})
      && (n == |l| ==> Hosts(l') <= Hosts(l) + {e.host})
  {
    var l' := Touch(l, e);
    var n, m := IndexOfHost(l, h), IndexOfHost(l, e.host);
    if m < |l| {
      TouchPresent(l, e, h);
    } else if |l| < CAPACITY {
      TouchFresh(l, e, h);
    } else {
      TouchFull(l, e, h);
    }
  }

  lemma IndexIs(l: seq<Entry>, h: bytes, n: nat)
    requires n < |l| && l[n].host == h && Distinct(l)
    ensures IndexOfHost(l, h) == n
  {
  }

  lemma NotThere(l: seq<Entry>, h: bytes)
    requires forall i :: 0 <= i < |l| ==> l[i].host != h
    ensures IndexOfHost(l, h) == |l|
  {
  }

  lemma HostsCons(e: Entry, u: seq<Entry>)
    ensures Hosts([e] + u) == Hosts(u) + {e.host}
  {
    HostsConcat([e], u);
    assert Hosts([e]) == {e.host} by { assert [e][0] == e; }
  }

  lemma TouchFresh(l: seq<Entry>, e: Entry, h: bytes)
    requires Distinct(l) && |l| < CAPACITY && h != e.host && IndexOfHost(l, e.host) == |l|
    ensures var l' := [e] + l;
      var n, n' := IndexOfHost(l, h), IndexOfHost(l', h);
      && n' == n + 1 && (n < |l| ==> l'[n'] == l[n] && Hosts(l'[..n']) == Hosts(l[..n]) + {e.host})
      && Hosts(l') == Hosts(l) + {e.host}
  {
    var l' := [e] + l;
    var n := IndexOfHost(l, h);
    assert l'[1..] == l;
    HostsCons(e, l);
    if n < |l| {
      assert l'[..n + 1] == [e] + l[..n];
      HostsCons(e, l[..n]);
    }
  }

  lemma TouchFull(l: seq<Entry>, e: Entry, h: bytes)
    requires Distinct(l) && |l| == CAPACITY && h != e.host && IndexOfHost(l, e.host) == |l|
    ensures var l' := [e] + l[..CAPACITY - 1];
      var n, n' := IndexOfHost(l, h), IndexOfHost(l', h);
      && (n' < |l'| ==> n < |l| && l'[n'] == l[n] && Hosts(l'[..n']) == Hosts(l[..n]) + {e.host})
      && (n' == |l'| && n < |l| ==> |l'| == CAPACITY && Hosts(l') == Hosts(l[..n]) + {e.host})
      && (n == |l| ==> Hosts(l') <= Hosts(l) + {e.host})
  {
    var k := l[..CAPACITY - 1];
    var n := IndexOfHost(l, h);
    var l' := [e] + k;
    TouchFresh(k, e, h);
    HostsCons(e, k);
    if n < CAPACITY - 1 {
      IndexIs(k, h, n);
      assert k[..n] == l[..n];
    } else {
      NotThere(k, h);
    }
    assert Hosts(k) <= Hosts(l) by { HostsConcat(k, l[CAPACITY - 1..]); assert l == k + l[CAPACITY - 1..]; }
  }

  lemma TouchPresent(l: seq<Entry>, e: Entry, h: bytes)
    requires Distinct(l) && |l| <= CAPACITY && h != e.host && IndexOfHost(l, e.host) < |l|
    ensures var l' := [e] + Drop(l, IndexOfHost(l, e.host));
      var n, n' := IndexOfHost(l, h), IndexOfHost(l', h);
      && (n' < |l'| <==> n < |l|)
      && (n < |l| ==> l'[n'] == l[n] && Hosts(l'[..n']) == Hosts(l[..n]) + {e.host})
      && (n == |l| ==> Hosts(l') <= Hosts(l) + {e.host})
  {
    hide Hosts;
    var m, n := IndexOfHost(l, e.host), IndexOfHost(l, h);
    DropDistinct(l, m, e);
    if n == |l| {
      PresentAbsent(l, m, e, h);
    } else if n < m {
      PresentBefore(l, m, e, n);
    } else {
      PresentAfter(l, m, e, n);
    }
  }

  lemma DropDistinct(l: seq<Entry>, m: nat, e: Entry)
    requires Distinct(l) && m < |l| && l[m].host == e.host
    ensures Distinct([e] + Drop(l, m))
  {
  }

  lemma PresentAbsent(l: seq<Entry>, m: nat, e: Entry, h: bytes)
    requires m < |l| && l[m].host == e.host && h != e.host && IndexOfHost(l, h) == |l|
    ensures var l' := [e] + Drop(l, m); IndexOfHost(l', h) == |l'| && Hosts(l') <= Hosts(l) + {e.host}
  {
    hide Hosts;
    var d := Drop(l, m);
    NotThere([e] + d, h);
    HostsCons(e, d);
    HostsConcat(l[..m], l[m + 1..]);
    HostsConcat(l[..m], [l[m]] + l[m + 1..]);
    HostsCons(l[m], l[m + 1..]);
    assert l == l[..m] + ([l[m]] + l[m + 1..]);
  }

  lemma PresentBefore(l: seq<Entry>, m: nat, e: Entry, n: nat)
    requires n < m < |l| && Distinct([e] + Drop(l, m))
    ensures var l' := [e] + Drop(l, m);
      IndexOfHost(l', l[n].host) == n + 1 && l'[n + 1] == l[n] && Hosts(l'[..n + 1]) == Hosts(l[..n]) + {e.host}
  {
    hide Hosts;
    var l' := [e] + Drop(l, m);
    IndexIs(l', l[n].host, n + 1);
    assert l'[..n + 1] == [e] + l[..n];
    HostsCons(e, l[..n]);
  }

  lemma PresentAfter(l: seq<Entry>, m: nat, e: Entry, n: nat)
    requires m < n < |l| && Distinct([e] + Drop(l, m)) && l[m].host == e.host
    ensures var l' := [e] + Drop(l, m);
      IndexOfHost(l', l[n].host) == n && l'[n] == l[n] && Hosts(l'[..n]) == Hosts(l[..n]) + {e.host}
  {
    hide Hosts;
    var l' := [e] + Drop(l, m);
    IndexIs(l', l[n].host, n);
    assert l'[..n] == [e] + (l[..m] + l[m + 1..n]);
    HostsCons(e, l[..m] + l[m + 1..n]);
    HostsConcat(l[..m], l[m + 1..n]);
    HostsConcat(l[..m], [l[m]] + l[m + 1..n]);
    HostsCons(l[m], l[m + 1..n]);
    assert l[..n] == l[..m] + ([l[m]] + l[m + 1..n]);
  }

  // ----- The theorem -----

  lemma {:induction false} AfterGood(ops: seq<Op>)
    ensures Distinct(After(ops)) && |After(ops)| <= CAPACITY
  {
    hide Touch, Distinct;
    if ops == [] {
      NoneDistinct();
    } else {
      var rest, op := ops[..|ops| - 1], ops[|ops| - 1];
      AfterGood(rest);
      var l := After(rest);
      match op
      case GetOp(h, g) => if Hits(l, h, g) { TouchSize(l, l[IndexOfHost(l, h)]); }
      case PutOp(e) => TouchSize(l, e);
    }
  }

  lemma NoneDistinct()
    ensures Distinct([])
  {
  }

  /** The entry a touching operation brings to the front. */
  function Front(l: seq<Entry>, op: Op): Entry
    requires TouchedBy(l, op).Some?
  {
    if op.PutOp? then op.entry else l[IndexOfHost(l, op.host)]
  }

  lemma NextTouches(l: seq<Entry>, op: Op)
    ensures Next(l, op) == if TouchedBy(l, op).None? then l else Touch(l, Front(l, op))
    ensures TouchedBy(l, op).Some? ==> Front(l, op).host == TouchedBy(l, op).value
  {
  }

  lemma {:induction false} AlwaysExplains(ops: seq<Op>, h: bytes)
    ensures Explains(ops, h)
  {
    hide Touch, Distinct, Hosts, Next;
    if ops != [] {
      var n := |ops| - 1;
      var rest, op := ops[..n], ops[n];
      AlwaysExplains(rest, h);
      AfterGood(rest);
      AfterGood(ops);
      NextTouches(After(rest), op);
      if TouchedBy(After(rest), op).Some? {
        if TouchedBy(After(rest), op).value == h {
          ExplainsTouched(ops, h);
        } else {
          ExplainsOther(ops, h);
        }
      }
    }
  }

  lemma ExplainsTouched(ops: seq<Op>, h: bytes)
    requires ops != [] && Explains(ops[..|ops| - 1], h) && Distinct(After(ops[..|ops| - 1]))
      && |After(ops[..|ops| - 1])| <= CAPACITY
    requires TouchedBy(After(ops[..|ops| - 1]), ops[|ops| - 1]) == Some(h) && Distinct(After(ops))
    ensures Explains(ops, h)
  {
    hide Touch, Distinct, Hosts;
    var l, op := After(ops[..|ops| - 1]), ops[|ops| - 1];
    NextTouches(l, op);
    TouchSize(l, Front(l, op));
    IndexIs(After(ops), h, 0);
    NoHosts();
  }

  lemma NoHosts()
    ensures Hosts([]) == {}
  {
  }

  lemma ExplainsOther(ops: seq<Op>, h: bytes)
    requires ops != [] && Explains(ops[..|ops| - 1], h) && Distinct(After(ops[..|ops| - 1]))
      && |After(ops[..|ops| - 1])| <= CAPACITY
    requires TouchedBy(After(ops[..|ops| - 1]), ops[|ops| - 1]).Some?
      && TouchedBy(After(ops[..|ops| - 1]), ops[|ops| - 1]).value != h
    ensures Explains(ops, h)
  {
    hide Touch, Distinct, Hosts, Hits;
    var l, op := After(ops[..|ops| - 1]), ops[|ops| - 1];
    NextTouches(l, op);
    TouchMoves(l, Front(l, op), h);
    TouchSize(l, Front(l, op));
  }

  lemma {:induction false} HostsSize(l: seq<Entry>)
    requires Distinct(l)
    ensures |Hosts(l)| == |l|
  {
    hide Hosts;
    if l == [] {
      NoHosts();
    } else {
      var n := |l| - 1;
      HostsSize(l[..n]);
      HostsConcat(l[..n], [l[n]]);
      assert l == l[..n] + [l[n]];
      OneHost(l[n]);
      HostsIn(l[..n], l[n].host);
    }
  }

  lemma OneHost(e: Entry)
    ensures Hosts([e]) == {e.host}
  {
    assert [e][0] == e;
  }

  lemma SubsetSize<T>(a: set<T>, b: set<T>)
    requires a <= b
    ensures |a| <= |b|
  {
    if a != {} {
      var x :| x in a;
      SubsetSize(a - {x}, b - {x});
    }
  }

  /**
   * A get hits exactly when the last key set put for the host was of that generation, and fewer
   * than sixteen distinct other hosts were touched since the host last was; it then returns that
   * key set.
   */
  lemma HitsExactly(ops: seq<Op>, h: bytes, g: nat)
    requires g != 0
    ensures Get(After(ops), h, g).1.Some? <==>
      LastPut(ops, h).Some? && LastPut(ops, h).value.generation == g && |OthersSince(ops, h)| < CAPACITY
    ensures Get(After(ops), h, g).1.Some? ==> Get(After(ops), h, g).1.value == LastPut(ops, h).value.keys
  {
    hide Touch, Hosts, OthersSince, LastPut, After;
    var l := After(ops);
    var n := IndexOfHost(l, h);
    AlwaysExplains(ops, h);
    AfterGood(ops);
    if n < |l| {
      HostsSize(l[..n]);
    } else if LastPut(ops, h).Some? {
      HostsSize(l);
      SubsetSize(Hosts(l), OthersSince(ops, h));
    }
  }
}
