/** How the node lists of the two trees and the slab of records present one sequence of records. */
module NonceIndex {
  import opened Bytes
  import opened KeyOrder
  import opened NonceSpec
  import opened RbOrder

  type Slab = map<nat, Record>

  /** The records of a list of nodes. */
  function Image(ids: seq<nat>, slab: Slab): (s: seq<Record>)
    requires forall i :: i in ids ==> i in slab
    ensures |s| == |ids| && forall k :: 0 <= k < |ids| ==> s[k] == slab[ids[k]]
  {
    seq(|ids|, k requires 0 <= k < |ids| => slab[ids[k]])
  }

  /** Both trees hold exactly the nodes of the slab under the right keys, and no key is stored twice. */
  ghost predicate Indexed(slab: Slab, names: seq<nat>, times: seq<nat>, nameKey: map<nat, (nat, bytes)>,
                          timeKey: map<nat, int>, hash: bytes -> nat) {
    && (forall i :: i in names <==> i in slab)
    && (forall i :: i in times <==> i in slab)
    && (forall i :: i in slab ==> i in nameKey && nameKey[i] == (hash(slab[i].key), slab[i].key))
    && (forall i :: i in slab ==> i in timeKey && timeKey[i] == slab[i].expiresAt)
    && (forall i, j :: i in slab && j in slab && slab[i].key == slab[j].key ==> i == j)
  }

  ghost predicate Covers(ids: seq<nat>, slab: Slab) {
    && (forall i :: i in ids ==> i in slab)
    && (forall i :: multiset(ids)[i] <= 1)
    && (forall i, j :: i in ids && j in ids && slab[i].key == slab[j].key ==> i == j)
  }

  ghost predicate Timed(ids: seq<nat>, slab: Slab, timeKey: map<nat, int>) {
    forall i :: i in ids ==> i in slab && i in timeKey && timeKey[i] == slab[i].expiresAt
  }

  lemma TailCovers(ids: seq<nat>, slab: Slab)
    requires ids != [] && Covers(ids, slab)
    ensures Covers(ids[1..], slab) && ids[0] !in ids[1..] && Image(ids, slab)[1..] == Image(ids[1..], slab)
  {
    assert ids == [ids[0]] + ids[1..];
    assert multiset(ids) == multiset{ids[0]} + multiset(ids[1..]);
    assert multiset(ids)[ids[0]] <= 1;
    assert forall i :: multiset(ids[1..])[i] <= multiset(ids)[i];
    assert forall i :: i in ids[1..] <==> i in multiset(ids[1..]);
  }

  /** Distinct nodes carry distinct keys. */
  lemma {:induction false} ImageDistinct(ids: seq<nat>, slab: Slab)
    requires Covers(ids, slab)
    ensures Distinct(Image(ids, slab))
  {
    if ids != [] {
      TailCovers(ids, slab);
      ImageDistinct(ids[1..], slab);
      var s := Image(ids, slab);
      forall j | 0 < j < |s|
        ensures s[0].key != s[j].key
      {
        HeadDiffers(ids, slab, j);
      }
      assert forall i :: 0 < i < |s| ==> s[i] == s[1..][i - 1];
    }
  }

  lemma HeadDiffers(ids: seq<nat>, slab: Slab, j: int)
    requires 0 < j < |ids| && Covers(ids, slab) && ids[0] !in ids[1..]
    ensures slab[ids[0]].key != slab[ids[j]].key
  {
    assert ids[j] == ids[1..][j - 1];
    assert ids[0] in ids && ids[j] in ids;
  }

  /** Looking a key up in the image is looking for the node that carries it. */
  lemma {:induction false} ImageLookup(ids: seq<nat>, slab: Slab, x: nat)
    requires Covers(ids, slab) && x in ids
    ensures Lookup(Image(ids, slab), slab[x].key) == Some(slab[x])
  {
    TailCovers(ids, slab);
    if x != ids[0] {
      assert x in ids[1..];
      ImageLookup(ids[1..], slab, x);
      assert ids[0] in ids;
    }
  }

  lemma {:induction false} ImageAbsent(ids: seq<nat>, slab: Slab, key: bytes)
    requires forall i :: i in ids ==> i in slab && slab[i].key != key
    ensures Lookup(Image(ids, slab), key) == None
  {
    if ids != [] {
      assert ids[0] in ids;
      assert Image(ids, slab)[1..] == Image(ids[1..], slab);
      ImageAbsent(ids[1..], slab, key);
    }
  }

  lemma ImageConcat(u: seq<nat>, v: seq<nat>, slab: Slab)
    requires forall i :: i in u + v ==> i in slab
    ensures (forall i :: i in u ==> i in slab) && (forall i :: i in v ==> i in slab)
    ensures Image(u + v, slab) == Image(u, slab) + Image(v, slab)
  {
    assert forall i :: i in u ==> i in u + v;
    assert forall i :: i in v ==> i in u + v;
  }

  lemma {:induction false} WithoutAt(u: seq<Record>, r: Record, v: seq<Record>)
    requires forall x :: x in u ==> x.key != r.key
    ensures Without(u + [r] + v, r.key) == u + v
  {
    if u == [] {
      assert u + [r] + v == [r] + v && u + v == v;
    } else {
      assert (u + [r] + v)[1..] == u[1..] + [r] + v;
      WithoutAt(u[1..], r, v);
      assert [u[0]] + (u[1..] + v) == u + v;
    }
  }

  /** Cutting a node takes its record out. */
  lemma ImageCut(u: seq<nat>, x: nat, v: seq<nat>, slab: Slab)
    requires Covers(u + [x] + v, slab)
    ensures (forall i :: i in u + v ==> i in slab) && x in slab
    ensures Image(u + v, slab) == Without(Image(u + [x] + v, slab), slab[x].key)
  {
    ApartFromCut(u, x, v, slab);
    ImageConcat(u + [x], v, slab);
    ImageConcat(u, [x], slab);
    ImageConcat(u, v, slab);
    assert Image([x], slab) == [slab[x]];
    WithoutAt(Image(u, slab), slab[x], Image(v, slab));
  }

  lemma ApartFromCut(u: seq<nat>, x: nat, v: seq<nat>, slab: Slab)
    requires Covers(u + [x] + v, slab)
    ensures forall i :: i in u + [x] + v <==> i in u || i == x || i in v
    ensures x in slab && (forall i :: i in u + v ==> i in slab)
    ensures forall i :: i in u ==> i in slab && slab[i].key != slab[x].key
    ensures forall r :: r in Image(u, slab) ==> r.key != slab[x].key
  {
    CutOnce(u, x, v);
  }

  /** The place of a new time among nodes is its rank among records. */
  lemma {:induction false} PlaceIsRank(ids: seq<nat>, slab: Slab, timeKey: map<nat, int>, e: int)
    requires Timed(ids, slab, timeKey)
    ensures Place(ids, timeKey, e, ByTime) == Rank(Image(ids, slab), e)
  {
    if ids != [] {
      assert ids[0] in ids;
      assert Image(ids, slab)[1..] == Image(ids[1..], slab);
      PlaceIsRank(ids[1..], slab, timeKey, e);
    }
  }

  /** Filing a node by its time files its record. */
  lemma ImageInsert(ids: seq<nat>, slab: Slab, timeKey: map<nat, int>, x: nat, r: Record, slab': Slab)
    requires Timed(ids, slab, timeKey) && x !in ids && slab' == slab[x := r]
    ensures var t := InsertAt(ids, Place(ids, timeKey, r.expiresAt, ByTime), x);
      (forall i :: i in t ==> i in slab') && Image(t, slab') == Insert(Image(ids, slab), r)
  {
    PlaceIsRank(ids, slab, timeKey, r.expiresAt);
    var n := Place(ids, timeKey, r.expiresAt, ByTime);
    var t := InsertAt(ids, n, x);
    InsertAtHas(ids, n, x);
    var s, s' := Image(ids, slab), Insert(Image(ids, slab), r);
    forall k | 0 <= k < |t|
      ensures Image(t, slab')[k] == s'[k]
    {
      if k < n {
        assert t[k] == ids[k] && ids[k] in ids;
      } else if k > n {
        assert t[k] == ids[k - 1] && ids[k - 1] in ids;
      }
    }
  }

  lemma ImageSame(ids: seq<nat>, slab: Slab, slab': Slab)
    requires forall i :: i in ids ==> i in slab && i in slab' && slab'[i] == slab[i]
    ensures Image(ids, slab') == Image(ids, slab)
  {
  }

  lemma ImageOrdered(ids: seq<nat>, slab: Slab, timeKey: map<nat, int>)
    requires Timed(ids, slab, timeKey) && Sorted(ids, timeKey, ByTime)
    ensures Ordered(Image(ids, slab))
  {
    assert forall k :: 0 <= k < |ids| ==> ids[k] in ids;
  }

  /** What the index says about the nodes in expiry order. */
  lemma IndexedCovers(slab: Slab, names: seq<nat>, times: seq<nat>, nameKey: map<nat, (nat, bytes)>,
                      timeKey: map<nat, int>, hash: bytes -> nat)
    requires Indexed(slab, names, times, nameKey, timeKey, hash) && forall i :: multiset(times)[i] <= 1
    ensures Covers(times, slab) && Timed(times, slab, timeKey)
  {
  }

  ghost predicate Minus(s: seq<nat>, x: nat, w: seq<nat>) { forall i :: i in w <==> i in s && i != x }

  ghost predicate Plus(s: seq<nat>, x: nat, w: seq<nat>) { forall i :: i in w <==> i in s || i == x }

  lemma IndexedWithout(slab: Slab, names: seq<nat>, times: seq<nat>, nameKey: map<nat, (nat, bytes)>,
                       timeKey: map<nat, int>, hash: bytes -> nat, x: nat, names': seq<nat>, times': seq<nat>)
    requires Indexed(slab, names, times, nameKey, timeKey, hash)
    requires Minus(names, x, names') && Minus(times, x, times')
    ensures Indexed(slab - {x}, names', times', nameKey - {x}, timeKey - {x}, hash)
  {
  }

  lemma IndexedWith(slab: Slab, names: seq<nat>, times: seq<nat>, nameKey: map<nat, (nat, bytes)>,
                    timeKey: map<nat, int>, hash: bytes -> nat, x: nat, r: Record, names': seq<nat>, times': seq<nat>)
    requires Indexed(slab, names, times, nameKey, timeKey, hash)
    requires x !in slab && forall i :: i in slab ==> slab[i].key != r.key
    requires Plus(names, x, names') && Plus(times, x, times')
    ensures Indexed(slab[x := r], names', times', nameKey[x := (hash(r.key), r.key)], timeKey[x := r.expiresAt], hash)
  {
  }

  /** A node moved to another expiry. */
  lemma IndexedMoved(slab: Slab, names: seq<nat>, times: seq<nat>, nameKey: map<nat, (nat, bytes)>,
                     timeKey: map<nat, int>, hash: bytes -> nat, x: nat, e: int, times': seq<nat>, times'': seq<nat>)
    requires Indexed(slab, names, times, nameKey, timeKey, hash) && x in slab
    requires Minus(times, x, times') && Plus(times', x, times'')
    ensures Indexed(slab[x := slab[x].(expiresAt := e)], names, times'', nameKey, (timeKey - {x})[x := e], hash)
  {
  }

  /** The records once a node is cut. */
  lemma ImageWithout(ids: seq<nat>, x: nat, w: seq<nat>, slab: Slab)
    requires Covers(ids, slab) && Cut(ids, x, w)
    ensures x in slab && (forall i :: i in w ==> i in slab && i != x)
      && Image(w, slab - {x}) == Without(Image(ids, slab), slab[x].key)
  {
    hide Covers, Cut;
    var u, v := CutParts(ids, x, w);
    ApartFromCut(u, x, v, slab);
    ImageCut(u, x, v, slab);
    CutOnce1(u, x, v, slab);
    ImageSame(w, slab, slab - {x});
  }

  lemma CutOnce1(u: seq<nat>, x: nat, v: seq<nat>, slab: Slab)
    requires Covers(u + [x] + v, slab)
    ensures x !in u + v
  {
    CutOnce(u, x, v);
  }

  lemma PlusInsert(s: seq<nat>, n: nat, x: nat)
    requires n <= |s|
    ensures Plus(s, x, InsertAt(s, n, x))
  {
    InsertAtHas(s, n, x);
  }

  lemma {:induction false} ReclaimedNone(s: seq<Record>, now: int, n: nat)
    ensures |Reclaimed(s, now, n)| <= |s|
    ensures |Reclaimed(s, now, n)| == |s| ==> Reclaimed(s, now, n) == s
    decreases n
  {
    if !(n == 0 || s == [] || s[0].expiresAt >= now) {
      ReclaimedNone(s[1..], now, n - 1);
    }
  }
}
