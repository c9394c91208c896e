/** The worker-local cache of parsed key sets as it runs: sixteen slots and a clock, refining the list. */
module ParseCache {
  import opened Bytes
  import opened LruList

  datatype Slot = Free | Used(entry: Entry, touched: nat)

  /** `order` lists the used slots, most recently touched first; no two carry one host. */
  ghost predicate Arranged(s: seq<Slot>, order: seq<nat>, clock: nat) {
    && |s| == CAPACITY
    && (forall k :: 0 <= k < |order| ==> order[k] < CAPACITY && s[order[k]].Used? && s[order[k]].touched <= clock)
    && (forall i: nat :: i < CAPACITY && s[i].Used? ==> i in order)
    && (forall a, b :: 0 <= a < b < |order| ==> s[order[a]].touched > s[order[b]].touched)
    && (forall a, b :: 0 <= a < b < |order| ==> s[order[a]].entry.host != s[order[b]].entry.host)
  }

  ghost function ListOf(s: seq<Slot>, order: seq<nat>): (l: seq<Entry>)
    requires forall k :: 0 <= k < |order| ==> order[k] < |s| && s[order[k]].Used?
    ensures |l| == |order| && forall k :: 0 <= k < |order| ==> l[k] == s[order[k]].entry
  {
    seq(|order|, k requires 0 <= k < |order| => s[order[k]].entry)
  }

  // ----- Counting slots -----

  ghost predicate NoRepeat(order: seq<nat>) { forall a, b :: 0 <= a < b < |order| ==> order[a] != order[b] }

  function Members(order: seq<nat>): set<nat> { set i | i in order }

  lemma {:induction false} CountMembers(order: seq<nat>)
    requires NoRepeat(order)
    ensures |Members(order)| == |order|
  {
    if order == [] {
      assert Members(order) == {};
    } else {
      var n := |order| - 1;
      CountMembers(order[..n]);
      assert order == order[..n] + [order[n]];
      assert Members(order) == Members(order[..n]) + {order[n]};
    }
  }

  function UpTo(n: nat): set<nat> { if n == 0 then {} else UpTo(n - 1) + {n - 1} }

  lemma {:induction false} UpToSize(n: nat)
    ensures |UpTo(n)| == n && forall i: nat :: i in UpTo(n) <==> i < n
  {
    if n > 0 {
      UpToSize(n - 1);
    }
  }

  /** Among sixteen slots, distinct ones number sixteen exactly when they are all there. */
  lemma Pigeonholes(order: seq<nat>)
    requires NoRepeat(order) && forall i :: i in order ==> i < CAPACITY
    ensures |order| <= CAPACITY
    ensures |order| == CAPACITY <==> forall i: nat :: i < CAPACITY ==> i in order
  {
    hide UpTo;
    var used, all := Members(order), UpTo(CAPACITY);
    CountMembers(order);
    UpToSize(CAPACITY);
    SubsetSize(used, all);
    if forall i: nat :: i < CAPACITY ==> i in order {
      assert used == all;
    } else {
      var i: nat :| i < CAPACITY && i !in order;
      SubsetSize(used, all - {i});
    }
  }

  lemma Arrangement(s: seq<Slot>, order: seq<nat>, clock: nat)
    requires Arranged(s, order, clock)
    ensures NoRepeat(order)
    ensures |order| == CAPACITY <==> forall i: nat :: i < CAPACITY ==> s[i].Used?
    ensures |order| <= CAPACITY
  {
    assert forall i :: i in order ==> i < CAPACITY && s[i].Used?;
    Pigeonholes(order);
  }

  // ----- One touch -----

  /** A slot that holds no entry yet takes one. */
  lemma FillFree(s: seq<Slot>, order: seq<nat>, clock: nat, i: nat, e: Entry)
    requires Arranged(s, order, clock) && i < CAPACITY && s[i].Free?
    requires forall k :: 0 <= k < |order| ==> s[order[k]].entry.host != e.host
    ensures Arranged(s[i := Used(e, clock + 1)], [i] + order, clock + 1)
    ensures ListOf(s[i := Used(e, clock + 1)], [i] + order) == [e] + ListOf(s, order)
  {
    hide Arranged;
    Inside(s, order, clock);
    var s1, front := s[i := Used(e, clock + 1)], [i] + order;
    assert forall k :: 0 < k < |front| ==> front[k] == order[k - 1] && front[k] != i && s1[front[k]] == s[order[k - 1]];
    FrontArranged(s, order, clock, i, e, s1, front);
    assert ListOf(s1, front) == [e] + ListOf(s, order);
  }

  /** A slot stamped with the newest time comes first, and the others keep their arrangement. */
  lemma FrontArranged(s: seq<Slot>, order: seq<nat>, clock: nat, i: nat, e: Entry, s1: seq<Slot>, front: seq<nat>)
    requires Arranged(s, order, clock) && i < CAPACITY && s1 == s[i := Used(e, clock + 1)]
    requires |front| == |order| + 1 && front[0] == i
    requires forall k :: 0 < k < |front| ==> front[k] == order[k - 1] && front[k] != i
    requires forall k :: 0 <= k < |order| ==> s[order[k]].entry.host != e.host
    ensures Arranged(s1, front, clock + 1)
  {
    forall j: nat | j < CAPACITY && s1[j].Used?
      ensures j in front
    {
      if j != i {
        var k :| 0 <= k < |order| && order[k] == j;
        assert front[k + 1] == j;
      }
    }
  }

  /** A slot already in the order moves to its front with a new entry. */
  lemma Refill(s: seq<Slot>, order: seq<nat>, clock: nat, m: nat, e: Entry)
    requires Arranged(s, order, clock) && m < |order|
    requires forall k :: 0 <= k < |order| && k != m ==> s[order[k]].entry.host != e.host
    ensures var i := order[m];
      var s', order' := s[i := Used(e, clock + 1)], [i] + (order[..m] + order[m + 1..]);
      Arranged(s', order', clock + 1) && ListOf(s', order') == [e] + Drop(ListOf(s, order), m)
  {
    hide Arranged, Drop;
    Inside(s, order, clock);
    var i, rest := order[m], order[..m] + order[m + 1..];
    var s1 := s[i := Free];
    Arrangement(s, order, clock);
    Without(s, order, clock, m);
    RestList(s, order, m);
    FillFree(s1, rest, clock, i, e);
    assert s1[i := Used(e, clock + 1)] == s[i := Used(e, clock + 1)];
  }

  /** The order without one slot lists the same entries without its own. */
  lemma RestList(s: seq<Slot>, order: seq<nat>, m: nat)
    requires NoRepeat(order) && m < |order|
    requires forall k :: 0 <= k < |order| ==> order[k] < |s| && s[order[k]].Used?
    ensures var rest, s1 := order[..m] + order[m + 1..], s[order[m] := Free];
      && (forall k :: 0 <= k < |rest| ==>
            && rest[k] == order[if k < m then k else k + 1]
            && rest[k] < |s1| && s1[rest[k]] == s[rest[k]] && s1[rest[k]].Used?)
      && ListOf(s1, rest) == Drop(ListOf(s, order), m)
  {
  }

  /** Either way of taking a slot: a free one when `m` is past the order, one in the order otherwise. */
  lemma FillWith(s: seq<Slot>, order: seq<nat>, clock: nat, i: nat, m: nat, e: Entry)
    requires Arranged(s, order, clock) && i < CAPACITY == |s| && m <= |order|
    requires if m < |order| then order[m] == i else s[i].Free?
    requires forall k :: 0 <= k < |order| ==> order[k] < |s| && s[order[k]].Used?
    requires forall k :: 0 <= k < |order| && k != m ==> s[order[k]].entry.host != e.host
    ensures var s' := s[i := Used(e, clock + 1)];
      var order' := [i] + (if m < |order| then order[..m] + order[m + 1..] else order);
      && Arranged(s', order', clock + 1)
      && (forall k :: 0 <= k < |order'| ==> order'[k] < |s'| && s'[order'[k]].Used?)
      && ListOf(s', order') == [e] + (if m < |ListOf(s, order)| then Drop(ListOf(s, order), m) else ListOf(s, order))
  {
    hide Arranged, Drop;
    if m < |order| {
      Refill(s, order, clock, m, e);
      Inside(s[i := Used(e, clock + 1)], [i] + (order[..m] + order[m + 1..]), clock + 1);
    } else {
      FillFree(s, order, clock, i, e);
      Inside(s[i := Used(e, clock + 1)], [i] + order, clock + 1);
    }
  }

  lemma Without(s: seq<Slot>, order: seq<nat>, clock: nat, m: nat)
    requires Arranged(s, order, clock) && m < |order| && NoRepeat(order)
    ensures Arranged(s[order[m] := Free], order[..m] + order[m + 1..], clock)
  {
    hide Arranged, NoRepeat;
    Inside(s, order, clock);
    var rest, s1 := order[..m] + order[m + 1..], s[order[m] := Free];
    RestList(s, order, m);
    forall i: nat | i < CAPACITY && s1[i].Used?
      ensures i in rest
    {
      UsedListed(s, order, clock, i);
      StillListed(order, m, i);
    }
    RestArranged(s, order, clock, m, s1, rest);
  }

  lemma UsedListed(s: seq<Slot>, order: seq<nat>, clock: nat, i: nat)
    requires Arranged(s, order, clock) && i < CAPACITY && s[i].Used?
    ensures i in order
  {
  }

  /** What is left of the order keeps its slots, so it keeps their arrangement. */
  lemma RestArranged(s: seq<Slot>, order: seq<nat>, clock: nat, m: nat, s1: seq<Slot>, rest: seq<nat>)
    requires Arranged(s, order, clock) && m < |order| && |s1| == CAPACITY && |rest| == |order| - 1
    requires forall k :: 0 <= k < |rest| ==>
      rest[k] == order[if k < m then k else k + 1] && rest[k] < |s1| && s1[rest[k]] == s[rest[k]] && s1[rest[k]].Used?
    requires forall i: nat :: i < CAPACITY && s1[i].Used? ==> i in rest
    ensures Arranged(s1, rest, clock)
  {
  }

  lemma StillListed(order: seq<nat>, m: nat, i: nat)
    requires m < |order| && i in order && i != order[m]
    ensures i in order[..m] + order[m + 1..]
  {
    var rest := order[..m] + order[m + 1..];
    var k :| 0 <= k < |order| && order[k] == i;
    assert i == rest[if k < m then k else k - 1];
  }

  class Cache {
    const slots: array<Slot>
    var clock: nat
    ghost var order: seq<nat>

    ghost predicate Valid()
      reads this, slots
    {
      slots.Length == CAPACITY && Arranged(slots[..], order, clock)
    }

    /** The entries, most recently touched first. */
    ghost function List(): seq<Entry>
      reads this, slots
      requires Valid()
    {
      ListOf(slots[..], order)
    }

    constructor ()
      ensures Valid() && fresh(slots) && List() == []
    {
      slots := new Slot[CAPACITY](_ => Free);
      clock := 0;
      order := [];
    }

    /** The slot that carries a host; sixteen when there is none. */
    method Find(host: bytes) returns (i: nat)
      requires Valid()
      ensures i <= CAPACITY && (i < CAPACITY ==> slots[i].Used? && slots[i].entry.host == host)
      ensures i == CAPACITY ==> forall j: nat :: j < CAPACITY && slots[j].Used? ==> slots[j].entry.host != host
    {
      i := 0;
      while i < CAPACITY
        invariant i <= CAPACITY
        invariant forall j: nat :: j < i && slots[j].Used? ==> slots[j].entry.host != host
      {
        if slots[i].Used? && slots[i].entry.host == host {
          return;
        }
        i := i + 1;
      }
    }

    /** Puts an entry into a slot the list may give it, and stamps it. */
    method Fill(i: nat, e: Entry, ghost m: nat)
      requires Valid() && i < CAPACITY && m <= |order|
      requires if m < |order| then order[m] == i else slots[i].Free?
      requires forall k :: 0 <= k < |order| && k != m ==> slots[order[k]].entry.host != e.host
      modifies this, slots
      ensures Valid()
      ensures List() == [e] + (if m < |old(List())| then Drop(old(List()), m) else old(List()))
    {
      hide Arranged, Drop;
      ghost var s := slots[..];
      Inside(s, order, clock);
      FillWith(s, order, clock, i, m, e);
      clock := clock + 1;
      slots[i] := Used(e, clock);
      order := [i] + (if m < |order| then order[..m] + order[m + 1..] else order);
      assert slots[..] == s[i := Used(e, clock)];
    }

    /** The key set parsed for a host at a generation, which becomes the most recent. */
    method Get(host: bytes, generation: nat) returns (r: Option<LruList.Keys>)
      requires Valid()
      modifies this, slots
      ensures Valid() && (List(), r) == LruList.Get(old(List()), host, generation)
    {
      hide Arranged, Touch, Drop;
      if generation == 0 {
        return None;
      }
      var i := Find(host);
      ghost var m := Position(slots[..], order, clock, host, i);
      if i == CAPACITY || slots[i].entry.generation != generation {
        return None;
      }
      var e := slots[i].entry;
      OthersDiffer(slots[..], order, clock, m);
      TouchThere(List(), e, m);
      Fill(i, e, m);
      return Some(e.keys);
    }

    /**
     * Parses a key set and keeps it for its host: in the host's own slot, else in a free one,
     * else in the one least recently touched. A document that does not parse changes nothing.
     */
    method Put(host: bytes, jwks: bytes, generation: nat, parse: bytes -> Option<LruList.Keys>)
        returns (r: Option<LruList.Keys>)
      requires Valid() && generation != 0
      modifies this, slots
      ensures Valid() && r == parse(jwks)
      ensures List() == if r.None? then old(List()) else Touch(old(List()), Entry(host, generation, r.value))
    {
      hide Arranged, Touch, Drop;
      var parsed := parse(jwks);
      if parsed.None? {
        return None;
      }
      var e := Entry(host, generation, parsed.value);
      var i := Find(host);
      ghost var m := Position(slots[..], order, clock, host, i);
      if i < CAPACITY {
        OthersDiffer(slots[..], order, clock, m);
        TouchThere(List(), e, m);
        Fill(i, e, m);
      } else {
        var j := SlotFor();
        ghost var k := LeastRecent(slots[..], order, clock, j);
        TouchElsewhere(List(), e);
        HostsDiffer(slots[..], order, clock, host);
        Fill(j, e, k);
      }
      return parsed;
    }

    /** A free slot, or the one with the smallest stamp. */
    method SlotFor() returns (victim: nat)
      requires Valid()
      ensures victim < CAPACITY
      ensures slots[victim].Used? ==>
        forall j: nat :: j < CAPACITY ==> slots[j].Used? && slots[victim].touched <= slots[j].touched
    {
      victim := CAPACITY;
      var i := 0;
      while i < CAPACITY
        invariant i <= CAPACITY && (victim < i || (i == 0 && victim == CAPACITY))
        invariant victim < i ==> slots[victim].Used?
        invariant victim < i ==> forall j: nat :: j < i ==> slots[j].Used? && slots[victim].touched <= slots[j].touched
      {
        if slots[i].Free? {
          return i;
        }
        if victim == CAPACITY || slots[i].touched < slots[victim].touched {
          victim := i;
        }
        i := i + 1;
      }
    }
  }

  lemma Inside(s: seq<Slot>, order: seq<nat>, clock: nat)
    requires Arranged(s, order, clock)
    ensures |s| == CAPACITY && forall k :: 0 <= k < |order| ==> order[k] < CAPACITY && s[order[k]].Used?
  {
  }

  /** Where a host's slot is in the order. */
  lemma Position(s: seq<Slot>, order: seq<nat>, clock: nat, host: bytes, i: nat) returns (m: nat)
    requires Arranged(s, order, clock) && i <= CAPACITY
    requires i < CAPACITY ==> s[i].Used? && s[i].entry.host == host
    requires i == CAPACITY ==> forall j: nat :: j < CAPACITY && s[j].Used? ==> s[j].entry.host != host
    ensures |s| == CAPACITY && m <= |order|
    ensures forall k :: 0 <= k < |order| ==> order[k] < CAPACITY && s[order[k]].Used?
    ensures i < CAPACITY ==> m < |order| && order[m] == i
    ensures i == CAPACITY ==> m == |order|
    ensures m == IndexOfHost(ListOf(s, order), host)
  {
    m := |order|;
    if i < CAPACITY {
      var k :| 0 <= k < |order| && order[k] == i;
      m := k;
      assert Distinct(ListOf(s, order));
      IndexIs(ListOf(s, order), host, m);
    } else {
      NotThere(ListOf(s, order), host);
    }
  }

  lemma OthersDiffer(s: seq<Slot>, order: seq<nat>, clock: nat, m: nat)
    requires Arranged(s, order, clock) && m < |order|
    ensures order[m] < CAPACITY == |s| && (forall k :: 0 <= k < |order| ==> order[k] < CAPACITY && s[order[k]].Used?)
    ensures s[order[m]].Used?
    ensures forall k :: 0 <= k < |order| && k != m ==> s[order[k]].entry.host != s[order[m]].entry.host
  {
  }

  lemma HostsDiffer(s: seq<Slot>, order: seq<nat>, clock: nat, host: bytes)
    requires Arranged(s, order, clock) && forall j: nat :: j < CAPACITY && s[j].Used? ==> s[j].entry.host != host
    ensures |s| == CAPACITY && forall k :: 0 <= k < |order| ==>
      order[k] < CAPACITY && s[order[k]].Used? && s[order[k]].entry.host != host
  {
  }

  /** The slot chosen for a new host: a free one, or the last in the order of a full cache. */
  lemma LeastRecent(s: seq<Slot>, order: seq<nat>, clock: nat, j: nat) returns (k: nat)
    requires Arranged(s, order, clock) && j < CAPACITY
    requires s[j].Used? ==> forall i: nat :: i < CAPACITY ==> s[i].Used? && s[j].touched <= s[i].touched
    ensures k <= |order|
    ensures s[j].Free? ==> k == |order| < CAPACITY
    ensures s[j].Used? ==> |order| == CAPACITY && k == CAPACITY - 1 && order[k] == j
  {
    Arrangement(s, order, clock);
    k := |order|;
    if s[j].Used? {
      var m :| 0 <= m < |order| && order[m] == j;
      k := CAPACITY - 1;
    }
  }

  lemma TouchThere(l: seq<Entry>, e: Entry, m: nat)
    requires m < |l| && IndexOfHost(l, e.host) == m
    ensures Touch(l, e) == [e] + Drop(l, m)
  {
  }

  lemma TouchElsewhere(l: seq<Entry>, e: Entry)
    requires IndexOfHost(l, e.host) == |l|
    ensures Touch(l, e) == [e] + (if |l| >= CAPACITY then l[..CAPACITY - 1] else l)
    ensures |l| == CAPACITY ==> Drop(l, CAPACITY - 1) == l[..CAPACITY - 1]
  {
  }
}
