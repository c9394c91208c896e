/** Ordered sequences of keyed nodes: what the tree's in-order sequence must stay, and where an insertion goes. */
module RbOrder {
  /** A strict weak order. */
  ghost predicate IsOrder<K(!new)>(less: (K, K) -> bool) {
    && (forall a :: !less(a, a))
    && (forall a, b, c :: less(a, b) && less(b, c) ==> less(a, c))
    && (forall a, b, c :: !less(a, b) && !less(b, c) ==> !less(a, c))
  }

  ghost predicate Keyed<K>(s: seq<nat>, key: map<nat, K>) { forall i :: i in s ==> i in key }

  /** No node comes before one with a lesser key. */
  ghost predicate Sorted<K>(s: seq<nat>, key: map<nat, K>, less: (K, K) -> bool) {
    && Keyed(s, key)
    && forall i, j :: 0 <= i < j < |s| ==> !less(key[s[j]], key[s[i]])
  }

  /** How many elements an insertion of `k` goes after: equal keys keep their arrival order. */
  function Place<K>(s: seq<nat>, key: map<nat, K>, k: K, less: (K, K) -> bool): (n: nat)
    requires forall i :: i in s ==> i in key
    ensures n <= |s|
  {
    if s == [] || less(k, key[s[0]]) then 0 else 1 + Place(s[1..], key, k, less)
  }

  function InsertAt(s: seq<nat>, n: nat, id: nat): seq<nat>
    requires n <= |s|
  {
    s[..n] + [id] + s[n..]
  }

  /** The nodes of `u` do not come after `k`. */
  ghost predicate NoneAbove<K>(u: seq<nat>, key: map<nat, K>, k: K, less: (K, K) -> bool) {
    forall i :: i in u ==> i in key && !less(k, key[i])
  }

  ghost predicate AllAbove<K>(v: seq<nat>, key: map<nat, K>, k: K, less: (K, K) -> bool) {
    forall i :: i in v ==> i in key && less(k, key[i])
  }

  lemma NoneAboveUpTo<K(!new)>(u: seq<nat>, x: nat, v: seq<nat>, key: map<nat, K>, k: K, less: (K, K) -> bool)
    requires IsOrder(less) && Sorted(u + [x] + v, key, less) && !less(k, key[x])
    ensures NoneAbove(u + [x], key, k, less)
  {
    var s := u + [x] + v;
    assert s[|u|] == x;
    forall i | i in u + [x]
      ensures i in key && !less(k, key[i])
    {
      var j :| 0 <= j < |u + [x]| && (u + [x])[j] == i;
      assert s[j] == i;
    }
  }

  lemma AllAboveFrom<K(!new)>(u: seq<nat>, x: nat, v: seq<nat>, key: map<nat, K>, k: K, less: (K, K) -> bool)
    requires IsOrder(less) && Sorted(u + [x] + v, key, less) && less(k, key[x])
    ensures AllAbove([x] + v, key, k, less)
  {
    var s := u + [x] + v;
    assert s[|u|] == x;
    forall i | i in [x] + v
      ensures i in key && less(k, key[i])
    {
      var j :| 0 <= j < |[x] + v| && ([x] + v)[j] == i;
      assert s[|u| + j] == i;
    }
  }

  lemma {:induction false} PlaceIs<K>(u: seq<nat>, v: seq<nat>, key: map<nat, K>, k: K, less: (K, K) -> bool)
    requires NoneAbove(u, key, k, less) && AllAbove(v, key, k, less)
    ensures Place(u + v, key, k, less) == |u|
  {
    if u == [] {
      assert u + v == v;
      assert v != [] ==> v[0] in v;
    } else {
      assert u[0] in u;
      assert (u + v)[1..] == u[1..] + v;
      PlaceIs(u[1..], v, key, k, less);
    }
  }

  /** Inserting at the place keeps the sequence sorted. */
  lemma InsertSorted<K(!new)>(u: seq<nat>, v: seq<nat>, id: nat, key: map<nat, K>, k: K, less: (K, K) -> bool)
    requires IsOrder(less) && Sorted(u + v, key, less) && id !in u + v
    requires NoneAbove(u, key, k, less) && AllAbove(v, key, k, less)
    ensures Sorted(u + [id] + v, key[id := k], less)
    ensures u + [id] + v == InsertAt(u + v, Place(u + v, key, k, less), id)
  {
    PlaceIs(u, v, key, k, less);
    var s, t := u + v, u + [id] + v;
    var key' := key[id := k];
    forall i, j | 0 <= i < j < |t|
      ensures t[i] in key' && t[j] in key' && !less(key'[t[j]], key'[t[i]])
    {
      assert forall n :: 0 <= n < |u| ==> t[n] == s[n] && t[n] in u;
      assert forall n :: |u| < n < |t| ==> t[n] == s[n - 1] && t[n] in v;
      assert i != |u| ==> t[i] in s;
      assert j != |u| ==> t[j] in s;
    }
    assert forall i :: i in t ==> i == id || i in s;
  }

  /** `w` is `s` without one element `x`. */
  ghost predicate Cut(s: seq<nat>, x: nat, w: seq<nat>) {
    exists n: nat :: n < |s| && s[n] == x && w == s[..n] + s[n + 1..]
  }

  lemma InsertAtHas(s: seq<nat>, n: nat, id: nat)
    requires n <= |s|
    ensures forall i :: i in InsertAt(s, n, id) <==> i in s || i == id
  {
    assert s == s[..n] + s[n..];
  }

  /** The parts before and after the element that is cut. */
  lemma CutParts(s: seq<nat>, x: nat, w: seq<nat>) returns (u: seq<nat>, v: seq<nat>)
    requires Cut(s, x, w)
    ensures s == u + [x] + v && w == u + v
  {
    var n: nat :| n < |s| && s[n] == x && w == s[..n] + s[n + 1..];
    u, v := s[..n], s[n + 1..];
  }

  lemma CutOnce(u: seq<nat>, x: nat, v: seq<nat>)
    requires multiset(u + [x] + v)[x] <= 1
    ensures x !in u && x !in v && multiset(u + v) == multiset(u + [x] + v) - multiset{x}
  {
    assert multiset(u + [x] + v) == multiset(u) + multiset{x} + multiset(v);
    assert multiset(u)[x] == 0 && multiset(v)[x] == 0;
  }

  lemma CutHas(s: seq<nat>, x: nat, w: seq<nat>)
    requires Cut(s, x, w) && multiset(s)[x] <= 1
    ensures forall i :: i in w <==> i in s && i != x
  {
    var u, v := CutParts(s, x, w);
    CutOnce(u, x, v);
  }

  /** A node that occurs once and is cut is gone, and the rest stay. */
  lemma CutSorted<K>(s: seq<nat>, x: nat, w: seq<nat>, key: map<nat, K>, less: (K, K) -> bool)
    requires Cut(s, x, w) && Sorted(s, key, less) && multiset(s)[x] <= 1
    ensures Sorted(w, key - {x}, less) && x !in w && multiset(w) == multiset(s) - multiset{x}
  {
    hide Sorted, Cut;
    var u, v := CutParts(s, x, w);
    CutOnce(u, x, v);
    RemoveSorted(u, x, v, key, less);
  }

  /** Dropping a node keeps the rest sorted. */
  lemma RemoveSorted<K>(u: seq<nat>, id: nat, v: seq<nat>, key: map<nat, K>, less: (K, K) -> bool)
    requires Sorted(u + [id] + v, key, less) && id !in u + v
    ensures Sorted(u + v, key - {id}, less)
  {
    var s, t := u + [id] + v, u + v;
    assert forall n :: 0 <= n < |u| ==> t[n] == s[n];
    assert forall n :: |u| <= n < |t| ==> t[n] == s[n + 1];
  }
}
