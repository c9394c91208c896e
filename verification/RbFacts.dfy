/** What the links of a realized tree say at a focus: the facts the pointer algorithms are proved with. */
module RbFacts {
  import opened Bytes
  import opened RbOrder
  import opened RbRemove
  import opened RbShape
  import opened RbStep

  /** Balance does not depend on which node stands at the parent. */
  lemma RenameRoom(p: Path, l: Shape, x: nat, z: nat, c: bool, r: Shape, k: nat)
    requires Roomy(p, Node(l, x, c, r), k)
    ensures (c || k > 0) && Roomy(Step(p, z, c, R, l), r, if c then k else k - 1)
  {
  }

  /** The same cells but for one parent link. */
  ghost predicate ButOneParent(m: Memory, m': Memory, i: nat) {
    && (forall j :: j in m && j != i ==> j in m' && m'[j] == m[j])
    && i in m && i in m' && m'[i] == m[i].(parent := m'[i].parent)
  }

  /** The cells around a node with two children, and a node outside the tree. */
  ghost predicate Around(p: Path, l: Shape, x: nat, r: Shape, m: Memory, root: nat, z: nat) {
    && x in m && x != NIL && m[x].left == RootId(l) && m[x].right == RootId(r)
    && (l.Node? ==> l.id != NIL && l.id in m && l.id != x && l.id != z && l.id != RootId(r))
    && (r.Node? ==> r.id != NIL && r.id in m && r.id != x && r.id != z)
    && (p.Top? <==> root == x)
    && (p.Step? ==>
          && p.id != NIL && p.id in m && p.id != x && p.id != z && p.id != RootId(r) && (l.Node? ==> p.id != l.id)
          && m[x].parent == p.id && (Kid(m[p.id], L) == x <==> p.side == L))
  }

  lemma AroundAt(p: Path, l: Shape, x: nat, red: bool, r: Shape, m: Memory, root: nat, z: nat)
    requires At(p, Node(l, x, red, r), m, root)
    requires z != NIL && z !in PathBag(p) && z !in Bag(l) && z !in Bag(r)
    ensures Around(p, l, x, r, m, root, z)
  {
    hide At, Bag, PathBag;
    FocusMk(p, L, l, x, red, r, m, root);
    if p.Step? { SideLinks(p, m[p.id], x); }
    KidsInMemory(p, l, x, red, r, m, root);
    KidsApart(p, l, x, red, r, m, root);
    RootInBag(l);
    RootInBag(r);
    HeadInBag(p);
  }

  lemma KidsInMemory(p: Path, l: Shape, x: nat, red: bool, r: Shape, m: Memory, root: nat)
    requires At(p, Node(l, x, red, r), m, root)
    ensures l.Node? ==> l.id != NIL && l.id in m
    ensures r.Node? ==> r.id != NIL && r.id in m
  {
    hide At, Whole;
    MoveDown(p, L, l, x, red, r, m, root);
    MoveFar(p, L, l, x, red, r, m, root);
    FocusCells(Step(p, x, red, L, r), l, m, root);
    FocusCells(Step(p, x, red, R, l), r, m, root);
  }

  lemma KidsApart(p: Path, l: Shape, x: nat, red: bool, r: Shape, m: Memory, root: nat)
    requires At(p, Node(l, x, red, r), m, root)
    ensures l.Node? ==> l.id != x && (r.Node? ==> l.id != r.id)
    ensures r.Node? ==> r.id != x
    ensures p.Step? ==> (l.Node? ==> p.id != l.id) && (r.Node? ==> p.id != r.id)
  {
    hide Bag, PathBag, Linked, LinkedPath, Once;
    MkBag(L, l, x, red, r);
    if l.Node? { RootInBag(l); InOnePart(PathBag(p), Bag(l), x, Bag(r), l.id); }
    if r.Node? { RootInBag(r); InOnePart(PathBag(p), Bag(l), x, Bag(r), r.id); }
    HeadInBag(p);
  }

  lemma InOnePart(a: multiset<nat>, l: multiset<nat>, x: nat, r: multiset<nat>, i: nat)
    requires Once(a + (l + multiset{x} + r))
    ensures i in l ==> i != x && i !in r && i !in a
    ensures i in r ==> i != x && i !in l && i !in a
  {
    assert (a + (l + multiset{x} + r))[i] <= 1;
  }

  lemma AgreeAround(p: Path, l: Shape, x: nat, r: Shape, m: Memory, m': Memory, root: nat, z: nat)
    requires Around(p, l, x, r, m, root, z) && ButOneParent(m, m', RootId(r))
    ensures x in m' && m'[x] == m[x]
    ensures l.Node? ==> l.id in m'
    ensures r.Node? ==> r.id in m'
    ensures p.Step? ==> p.id in m' && m'[p.id] == m[p.id]
  {
  }

  /** The tree once the successor is spliced out, before it takes the node's place. */
  lemma Unspliced(p: Path, l: Shape, x: nat, c: bool, r: Shape, m: Memory, root: nat) returns (m1: Memory)
    requires At(p, Node(l, x, c, r), m, root) && r.Node? && NIL in m
    ensures var q, t := MinPath(Step(p, x, c, R, l), r), MinShape(r).right;
      q.Step? && q.id in m && RootId(t) in m && RootId(t) != q.id
      && m1 == m[q.id := SetKid(m[q.id], q.side, RootId(t))][RootId(t) := m[RootId(t)].(parent := q.id)]
    ensures At(p, Node(l, x, c, DropMin(r)), m1, root)
    ensures var z := MinShape(r).id;
      z != NIL && z != x && z in m && z !in PathBag(p) && z !in Bag(l) && z !in Bag(DropMin(r))
  {
    hide At, Whole, Bag, PathBag, SetKid, Spliced;
    var q, s := MinPath(Step(p, x, c, R, l), r), MinShape(r);
    MoveDown(p, R, r, x, c, l, m, root);
    ToMin(Step(p, x, c, R, l), r, m, root);
    MinHead(Step(p, x, c, R, l), r, Step(p, x, c, R, l));
    AsMk(s, L);
    FocusMk(q, L, Leaf, s.id, s.red, s.right, m, root);
    TempThere(q, L, s.id, s.red, s.right, m, root);
    m1 := m[q.id := SetKid(m[q.id], q.side, RootId(s.right))][RootId(s.right) := m[RootId(s.right)].(parent := q.id)];
    SpliceCells1(q, s.id, s.right, m, m1);
    SpliceAt(q, L, s.right, s.id, s.red, m, m1, root);
    FromDropped(Step(p, x, c, R, l), r, m1, root);
    MoveUp(Step(p, x, c, R, l), DropMin(r), m1, root);
    BagIn(q, s.right, s.id);
    BagIn(p, Node(l, x, c, DropMin(r)), s.id);
    MkBag(L, l, x, c, DropMin(r));
  }

  lemma SpliceCells1(p: Path, x: nat, t: Shape, m: Memory, m': Memory)
    requires p.Step? && p.id in m && RootId(t) in m && RootId(t) != p.id
    requires m' == m[p.id := SetKid(m[p.id], p.side, RootId(t))][RootId(t) := m[RootId(t)].(parent := p.id)]
    ensures Spliced(p, t, m, m', x)
  {
    hide SetKid;
  }

  /** What the program wrote is that memory, but for the parent link of a child of the node. */
  lemma SplicedAlike(q: Path, t: nat, x: nat, z: nat, kid: nat, m: Memory, m1: Memory, m': Memory)
    requires q.Step? && q.id in m && t in m && t != q.id
    requires m1 == m[q.id := SetKid(m[q.id], q.side, t)][t := m[t].(parent := q.id)]
    requires m' == m[q.id := SetKid(m[q.id], q.side, t)][t := m[t].(parent := if q.id == x then z else q.id)]
    requires kid in m1 && (q.id == x ==> kid == t)
    ensures ButOneParent(m1, m', kid)
  {
    hide SetKid;
  }

  /** The links of a right child, and where the path to the successor starts. */
  lemma RightChild(p: Path, l: Shape, x: nat, c: bool, r: Shape, m: Memory, root: nat)
    requires At(p, Node(l, x, c, r), m, root) && r.Node?
    ensures var q := MinPath(Step(p, x, c, R, l), r);
      q.Step? && (q.id == x <==> r.left.Leaf?)
    ensures r.left.Leaf? ==> DropMin(r) == MinShape(r).right
  {
    hide Bag, PathBag, Linked, LinkedPath, Once;
    MinHead(Step(p, x, c, R, l), r, Step(p, x, c, R, l));
    MkBag(L, l, x, c, r);
    InOnePart(PathBag(p), Bag(l), x, Bag(r), MinPath(Step(p, x, c, R, l), r).id);
  }

  ghost predicate AllBelow<K>(u: seq<nat>, key: map<nat, K>, k: K, less: (K, K) -> bool) {
    forall i :: i in u ==> i in key && less(key[i], k)
  }

  lemma NothingBeside<K>(key: map<nat, K>, k: K, less: (K, K) -> bool)
    ensures AllBelow([], key, k, less) && AllAbove([], key, k, less)
    ensures AllBelow(Before(Top), key, k, less) && AllAbove(After(Top), key, k, less)
  {
  }

  /** What a search may leave behind on each side, and that the node it stops at is stored. */
  lemma SearchStep<K(!new)>(p: Path, s: Shape, key: map<nat, K>, k: K, less: (K, K) -> bool)
    requires s.Node? && IsOrder(less) && Sorted(Whole(p, s), key, less)
    ensures s.id in key && s.id in Whole(p, s)
    ensures less(k, key[s.id]) ==> AllAbove(After(Step(p, s.id, s.red, L, s.right)), key, k, less)
    ensures less(key[s.id], k) ==> AllBelow(Before(Step(p, s.id, s.red, R, s.left)), key, k, less)
  {
    hide IsOrder, Sorted, AllBelow, AllAbove, InOrder, Whole;
    var u, v := Before(p) + InOrder(s.left), InOrder(s.right) + After(p);
    SplitWhole(p, s);
    SortedHas(u, s.id, v, key, less);
    if less(k, key[s.id]) {
      AllAboveFrom(u, s.id, v, key, k, less);
    }
    if less(key[s.id], k) {
      AllBelowUpTo(u, s.id, v, key, k, less);
    }
  }

  /** The sequence around the focused node. */
  lemma SplitWhole(p: Path, s: Shape)
    requires s.Node?
    ensures Whole(p, s) == Before(p) + InOrder(s.left) + [s.id] + (InOrder(s.right) + After(p))
    ensures s.id in Whole(p, s)
    ensures After(Step(p, s.id, s.red, L, s.right)) == [s.id] + (InOrder(s.right) + After(p))
    ensures Before(Step(p, s.id, s.red, R, s.left)) == Before(p) + InOrder(s.left) + [s.id]
  {
    hide InOrder;
    AsMk(s, L);
    MkBag(L, s.left, s.id, s.red, s.right);
    Reassociate2(Before(p), InOrder(s.left), s.id, InOrder(s.right), After(p));
  }

  lemma Reassociate2(b: seq<nat>, l: seq<nat>, x: nat, r: seq<nat>, a: seq<nat>)
    ensures b + (l + [x] + r) + a == b + l + [x] + (r + a)
    ensures [x] + r + a == [x] + (r + a) && x in b + (l + [x] + r) + a
  {
    assert (l + [x] + r)[|l|] == x;
  }

  lemma AllBelowUpTo<K(!new)>(u: seq<nat>, x: nat, v: seq<nat>, key: map<nat, K>, k: K, less: (K, K) -> bool)
    requires IsOrder(less) && Sorted(u + [x] + v, key, less) && less(key[x], k)
    ensures AllBelow(u + [x], key, k, less)
  {
    var s := u + [x] + v;
    assert s[|u|] == x;
    forall i | i in u + [x]
      ensures i in key && less(key[i], k)
    {
      var j :| 0 <= j < |u + [x]| && (u + [x])[j] == i;
      assert s[j] == i;
    }
  }

  lemma SearchedAll<K>(p: Path, s: Shape, key: map<nat, K>, k: K, less: (K, K) -> bool)
    requires s.Leaf? && AllBelow(Before(p), key, k, less) && AllAbove(After(p), key, k, less)
    ensures forall i :: i in Whole(p, s) ==> i in key && (less(k, key[i]) || less(key[i], k))
  {
  }

  /** The first element with a property, or the sentinel when there is none. */
  ghost predicate IsFirst(q: seq<nat>, ok: nat -> bool, r: nat) {
    if r == NIL then forall i :: i in q ==> !ok(i)
    else exists n: nat :: n < |q| && q[n] == r && ok(r) && forall j :: 0 <= j < n ==> !ok(q[j])
  }

  lemma LeafOf(s: Shape)
    requires RootId(s) == NIL && NIL !in Bag(s)
    ensures s.Leaf? && forall ok :: IsFirst(InOrder(s), ok, NIL)
  {
    RootInBag(s);
  }

  lemma WalkDown(p: Path, s: Shape, m: Memory, root: nat)
    requires At(p, s, m, root) && s.Node? && NIL !in Bag(s)
    ensures At(Step(p, s.id, s.red, L, s.right), s.left, m, root) && NIL !in Bag(s.left)
    ensures At(Step(p, s.id, s.red, R, s.left), s.right, m, root) && NIL !in Bag(s.right)
  {
    hide At, Whole;
    AsMk(s, L);
    AsMk(s, R);
    MoveDown(p, L, s.left, s.id, s.red, s.right, m, root);
    MoveDown(p, R, s.right, s.id, s.red, s.left, m, root);
  }

  lemma WholeNil(t: Shape, m: Memory, root: nat)
    requires At(Top, t, m, root)
    ensures NIL !in Bag(t)
  {
    hide Bag;
    NilApart(t, m, None);
  }

  lemma FirstLeft(s: Shape, ok: nat -> bool, r: nat)
    requires s.Node? && r != NIL && IsFirst(InOrder(s.left), ok, r)
    ensures IsFirst(InOrder(s), ok, r)
  {
    var q, u := InOrder(s), InOrder(s.left);
    var n: nat :| n < |u| && u[n] == r && ok(r) && forall j :: 0 <= j < n ==> !ok(u[j]);
    assert forall j :: 0 <= j < |u| ==> q[j] == u[j];
  }

  lemma FirstHere(s: Shape, ok: nat -> bool)
    requires s.Node? && s.id != NIL && ok(s.id) && IsFirst(InOrder(s.left), ok, NIL)
    ensures IsFirst(InOrder(s), ok, s.id)
  {
    var q, u := InOrder(s), InOrder(s.left);
    assert q[|u|] == s.id && forall j :: 0 <= j < |u| ==> q[j] == u[j] && u[j] in u;
  }

  lemma FirstRight(s: Shape, ok: nat -> bool, r: nat)
    requires s.Node? && !ok(s.id) && IsFirst(InOrder(s.left), ok, NIL) && IsFirst(InOrder(s.right), ok, r)
    ensures IsFirst(InOrder(s), ok, r)
  {
    var q, u, v := InOrder(s), InOrder(s.left), InOrder(s.right);
    if r != NIL {
      var n: nat :| n < |v| && v[n] == r && ok(r) && forall j :: 0 <= j < n ==> !ok(v[j]);
      var k := |u| + 1 + n;
      assert q[k] == r;
      forall j | 0 <= j < k
        ensures !ok(q[j])
      {
        if j < |u| {
          assert q[j] == u[j] && u[j] in u;
        } else if j > |u| {
          assert q[j] == v[j - |u| - 1];
        }
      }
    }
  }

  /** A node to delete, in focus. */
  lemma StartAt(t: Shape, m: Memory, root: nat, x: nat) returns (p: Path, s: Shape, k: nat)
    requires At(Top, t, m, root) && RedBlack(t) && x in Bag(t)
    ensures At(p, s, m, root) && s.Node? && s.id == x && Roomy(p, s, k) && Whole(p, s) == InOrder(t)
  {
    hide At, Whole, Bag;
    WholeTop(t);
    RoomTop(t);
    p, s, k := Locate(Top, t, m, root, BlackHeight(t), x);
  }

  lemma RoomTop(t: Shape)
    requires RedBlack(t)
    ensures Roomy(Top, t, BlackHeight(t))
  {
  }

  lemma CountOnce(t: Shape, m: Memory, root: nat, x: nat)
    requires At(Top, t, m, root)
    ensures multiset(InOrder(t))[x] <= 1
  {
    hide Bag;
    InOrderBag(t);
    TopBag(Top);
    assert multiset{} + Bag(t) == Bag(t);
  }

  /** A child link to the sentinel is a missing child. */
  lemma NoKid(p: Path, s: Shape, d: Side, m: Memory, root: nat)
    requires At(p, s, m, root) && s.Node? && s.id in m && Kid(m[s.id], d) == NIL
    ensures s == Mk(d, Leaf, s.id, s.red, KidShape(s, Opp(d)))
    ensures Kid(m[s.id], Opp(d)) == RootId(KidShape(s, Opp(d)))
  {
    hide At, Mk;
    AsMk(s, d);
    FocusMk(p, d, KidShape(s, d), s.id, s.red, KidShape(s, Opp(d)), m, root);
    MoveDown(p, d, KidShape(s, d), s.id, s.red, KidShape(s, Opp(d)), m, root);
    FocusCells(Step(p, s.id, s.red, d, KidShape(s, Opp(d))), KidShape(s, d), m, root);
  }

  /** The successor in the node's place: only the node is missing from the sequence. */
  lemma CutTwo(p: Path, l: Shape, x: nat, c: bool, r: Shape)
    requires r.Node?
    ensures Cut(Whole(p, Node(l, x, c, r)), x,
                Before(p) + InOrder(l) + [MinShape(r).id] + InOrder(DropMin(r)) + After(p))
  {
    hide Cut, InOrder, Before, After;
    MkBag(L, l, x, c, r);
    DropMinOrder(r);
    CutMiddle(Before(p), InOrder(l), x, MinShape(r).id, InOrder(DropMin(r)), After(p));
  }

  lemma CutMiddle(b: seq<nat>, l: seq<nat>, x: nat, z: nat, t: seq<nat>, a: seq<nat>)
    ensures Cut(b + (l + [x] + ([z] + t)) + a, x, b + l + [z] + t + a)
  {
    hide Cut;
    CutSeq(b + l, x, [z] + t + a);
    assert b + (l + [x] + ([z] + t)) + a == b + l + [x] + ([z] + t + a);
    assert b + l + [z] + t + a == b + l + ([z] + t + a);
  }

  /** The writes of a transplant. */
  lemma TransplantMakes(p: Path, l: Shape, x: nat, red: bool, r: Shape, z: nat,
                        m1: Memory, m: Memory, m2: Memory, m3: Memory, m': Memory, root: nat)
    requires Around(p, l, x, r, m1, root, z) && ButOneParent(m1, m, RootId(r)) && NIL in m && z != x && z != NIL
    requires x in m && m2 == m[z := m[x]]
    requires m3 == if p.Top? then m2 else if p.id in m2 then m2[p.id := SetKid(m2[p.id], p.side, z)] else m2
    requires var m4 := if l.Node? && l.id in m3 then m3[l.id := m3[l.id].(parent := z)] else m3;
      m' == (if r.Node? && r.id in m4 then m4[r.id := m4[r.id].(parent := z)] else m4) - {x}
    ensures Transplanted(p, l, r, m1, m', x, z) && NIL in m' && m'[NIL] == m[NIL]
  {
    hide SetKid;
  }

  lemma SideLinks(p: Path, c: Cell, i: nat)
    requires p.Step? && Kid(c, p.side) == i && Kid(c, Opp(p.side)) != i
    ensures Kid(c, L) == i <==> p.side == L
  {
  }

  lemma MinWhenNoLeft(q: Path, t: Shape, m: Memory, root: nat)
    requires At(q, t, m, root) && t.Node? && RootId(t.left) == NIL
    ensures MinShape(t) == t
  {
    hide At;
    AsMk(t, L);
    MoveDown(q, L, t.left, t.id, t.red, t.right, m, root);
    FocusCells(Step(q, t.id, t.red, L, t.right), t.left, m, root);
  }

  lemma CloseRoomy(p: Path, s: Shape, m: Memory, root: nat, k: nat)
    requires At(p, s, m, root) && Roomy(p, s, k)
    ensures At(Top, Plug(p, s), m, root) && InOrder(Plug(p, s)) == Whole(p, s) && RedBlack(Plug(p, s))
  {
    hide At, Whole, RedBlack, Room, Balanced;
    Close(p, s, m, root);
    PlugRedBlack(p, s, k);
  }

  /** The one child of a node, or the sentinel, and how it differs from the other cells named. */
  lemma TempThere(p: Path, d: Side, x: nat, r: bool, t: Shape, m: Memory, root: nat)
    requires At(p, Mk(d, Leaf, x, r, t), m, root) && NIL in m
    ensures RootId(t) in m && RootId(t) != x && (p.Step? ==> RootId(t) != p.id)
    ensures x != NIL && x in m && Kid(m[x], Opp(d)) == RootId(t)
  {
    hide At, Mk;
    FocusMk(p, d, Leaf, x, r, t, m, root);
    MoveFar(p, d, Leaf, x, r, t, m, root);
    var q := Step(p, x, r, Opp(d), Leaf);
    FocusCells(q, t, m, root);
    if t.Node? {
      FocusApart(q, t, m, root);
      PathBagStep(q);
      HeadInBag(p);
    }
  }

  /** The writes of a splice. */
  lemma SpliceCells(p: Path, d: Side, x: nat, r: bool, t: Shape, m: Memory, m': Memory, root: nat)
    requires At(p, Mk(d, Leaf, x, r, t), m, root) && NIL in m && p.Step?
    requires p.id in m && RootId(t) in m && p.id != x && RootId(t) != x && RootId(t) != p.id
    requires m' == m[p.id := SetKid(m[p.id], p.side, RootId(t))][RootId(t) := m[RootId(t)].(parent := p.id)] - {x}
    ensures Spliced(p, t, m, m', x)
  {
    hide At, SetKid;
  }

  /** The cell at the root of the focus, which may be the sentinel. */
  lemma TempCells(p: Path, s: Shape, m: Memory, root: nat)
    requires At(p, s, m, root) && NIL in m && !m[NIL].red && (p.Top? ==> s.Node?)
    ensures RootId(s) in m && m[RootId(s)].red == IsRed(s) && (p.Step? <==> root != RootId(s))
    ensures s.Node? && p.Step? ==> m[s.id].parent == p.id
  {
    hide LinkedPath, Linked, Bag, PathBag, Once;
    FocusCells(p, s, m, root);
    if p.Step? {
      if s.Node? {
        FocusApart(p, s, m, root);
      } else {
        RootOnPath(p, m, NIL, root);
        NilApartPath(p, m, NIL, root);
      }
    }
  }

  /** Which side of its parent the focus is on, told from the links. */
  lemma SideOf(p: Path, s: Shape, m: Memory, root: nat)
    requires At(p, s, m, root) && p.Step? && p.sibling.Node?
    ensures p.id in m && (RootId(s) == Kid(m[p.id], L) <==> p.side == L)
    ensures Kid(m[p.id], Opp(p.side)) == p.sibling.id
  {
    hide At;
    FocusCells(p, s, m, root);
    SiblingCells(p, s, m, root);
    if s.Node? {
      FocusApart(p, s, m, root);
    }
  }

  /** The cells of a sibling and of its children. */
  lemma SiblingKids(p: Path, s: Shape, d: Side, m: Memory, root: nat)
    requires At(p, s, m, root) && p.Step? && p.sibling.Node? && p.side == d && NIL in m && !m[NIL].red
    ensures p.sibling.id in m && m[p.sibling.id].red == p.sibling.red
    ensures forall c :: Kid(m[p.sibling.id], c) == RootId(KidShape(p.sibling, c))
    ensures forall c :: Kid(m[p.sibling.id], c) in m && m[Kid(m[p.sibling.id], c)].red == IsRed(KidShape(p.sibling, c))
  {
    hide Bag, PathBag, Once;
    forall c: Side
      ensures Kid(m[p.sibling.id], c) == RootId(KidShape(p.sibling, c))
      ensures Kid(m[p.sibling.id], c) in m && m[Kid(m[p.sibling.id], c)].red == IsRed(KidShape(p.sibling, c))
    {
      KidCells(p.sibling, c, m, Some(p.id));
    }
  }

  lemma KidCells(s: Shape, d: Side, m: Memory, up: Option<nat>)
    requires Linked(s, m, up) && s.Node? && NIL in m && !m[NIL].red
    ensures s.id in m && m[s.id].red == s.red
    ensures Kid(m[s.id], d) == RootId(KidShape(s, d))
    ensures Kid(m[s.id], d) in m && m[Kid(m[s.id], d)].red == IsRed(KidShape(s, d))
  {
  }

  lemma NodeOrder(t: Shape)
    ensures t.Node? ==> InOrder(t) != []
  {
  }

  /** The child of a focus points back at it. */
  lemma ParentIs(p: Path, d: Side, near: Shape, id: nat, red: bool, far: Shape, m: Memory, root: nat)
    requires At(p, Mk(d, near, id, red, far), m, root)
    ensures near.Node? ==> near.id in m && m[near.id].parent == id
    ensures At(Step(p, id, red, d, far), near, m, root)
  {
    hide At, Whole, Mk;
    MoveDown(p, d, near, id, red, far, m, root);
    FocusCells(Step(p, id, red, d, far), near, m, root);
  }

  /** The black height of a red-black tree. */
  ghost function BlackHeight(t: Shape): (k: nat)
    requires RedBlack(t)
    ensures Balanced(t, k)
  {
    var k: nat :| Balanced(t, k);
    k
  }

  /** A descent starts at the root, with nothing on either side. */
  lemma StartDown<K(!new)>(t: Shape, m: Memory, root: nat, key: map<nat, K>, k: K, less: (K, K) -> bool)
    requires At(Top, t, m, root) && RedBlack(t) && root != NIL
    ensures t.Node? && t.id == root && Room(Top, BlackHeight(t)) && !IsRed(t) && Whole(Top, t) == InOrder(t)
    ensures NoneAbove(Before(Top), key, k, less) && AllAbove(After(Top), key, k, less)
  {
    FocusCells(Top, t, m, root);
  }

  /** Each step of a descent leaves behind only nodes on the right side of the new key. */
  lemma TurnSide<K(!new)>(p: Path, s: Shape, key: map<nat, K>, k: K, less: (K, K) -> bool)
    requires s.Node? && IsOrder(less) && Sorted(Whole(p, s), key, less)
    ensures s.id in key
    ensures less(k, key[s.id]) ==> AllAbove(After(Step(p, s.id, s.red, L, s.right)), key, k, less)
    ensures !less(k, key[s.id]) ==> NoneAbove(Before(Step(p, s.id, s.red, R, s.left)), key, k, less)
  {
    hide IsOrder, Sorted, NoneAbove, AllAbove, Whole, InOrder;
    var u, v := Before(p) + InOrder(s.left), InOrder(s.right) + After(p);
    SplitWhole(p, s);
    SortedHas(u, s.id, v, key, less);
    if less(k, key[s.id]) {
      AllAboveFrom(u, s.id, v, key, k, less);
    } else {
      NoneAboveUpTo(u, s.id, v, key, k, less);
    }
  }

  lemma SortedHas<K>(u: seq<nat>, x: nat, v: seq<nat>, key: map<nat, K>, less: (K, K) -> bool)
    requires Sorted(u + [x] + v, key, less)
    ensures x in key
  {
    assert (u + [x] + v)[|u|] == x;
  }

  lemma LeafWhole(p: Path, s: Shape, k: nat, m: Memory, root: nat)
    requires At(p, s, m, root) && RootId(s) == NIL && Balanced(s, k)
    ensures s == Leaf && k == 0 && Whole(p, s) == Before(p) + After(p)
  {
    FocusCells(p, s, m, root);
  }

  lemma NodeAt(p: Path, s: Shape, m: Memory, root: nat)
    requires At(p, s, m, root) && RootId(s) != NIL
    ensures s.Node? && s.id == RootId(s)
  {
  }

  lemma EmptyTree(t: Shape, m: Memory)
    requires At(Top, t, m, NIL)
    ensures t == Leaf && InOrder(t) == []
  {
    FocusCells(Top, t, m, NIL);
  }

  lemma SingleTree(id: nat, m: Memory)
    requires id != NIL && id in m && m[id].left == NIL && m[id].right == NIL && !m[id].red
    ensures var t := Node(Leaf, id, false, Leaf);
      At(Top, t, m, id) && RedBlack(t) && InOrder(t) == [id]
  {
    var t := Node(Leaf, id, false, Leaf);
    assert Balanced(t, 1);
    assert Bag(t) == multiset{id};
  }

  lemma NothingThere<K>(key: map<nat, K>, k: K, less: (K, K) -> bool)
    ensures NoneAbove([], key, k, less) && AllAbove([], key, k, less)
  {
  }

  lemma PathOnly(p: Path, id: nat)
    requires id !in Before(p) + After(p)
    ensures id !in PathBag(p)
  {
    hide PathBag;
    BagIn(p, Leaf, id);
    assert Whole(p, Leaf) == Before(p) + After(p);
  }

  lemma FreshBalanced(id: nat)
    ensures Fresh(id).Node? && Fresh(id).id == id && Fresh(id).red && Balanced(Fresh(id), 0)
  {
  }

  /** What the links of the focused node say about where it is. */
  lemma FocusNode(p: Path, s: Shape, m: Memory, root: nat)
    requires At(p, s, m, root) && s.Node?
    ensures s.id in m && (p.Step? <==> root != s.id)
    ensures p.Step? ==> m[s.id].parent == p.id && p.id in m && m[p.id].red == p.red
  {
    hide At;
    FocusCells(p, s, m, root);
    if p.Step? {
      FocusApart(p, s, m, root);
    }
  }

  lemma {:induction false} RootShape(p: Path, s: Shape)
    requires s.Node?
    ensures Plug(p, s).Node?
    ensures p.Top? ==> Plug(p, s) == s
    decreases p
  {
    if p.Step? {
      RootShape(p.up, Above(p, s));
    }
  }

  lemma SiblingCells(p: Path, s: Shape, m: Memory, root: nat)
    requires At(p, s, m, root) && p.Step?
    ensures p.sibling.Node? ==> p.sibling.id != NIL && p.sibling.id in m && m[p.sibling.id].red == p.sibling.red
  {
  }

  /** The writes of a rotation, put together. */
  lemma RotationMakes(p: Path, d: Side, m: Memory, m1: Memory, m2: Memory, m': Memory, x: nat, y: nat, mid: Shape)
    requires x in m && y in m && x != y && (mid.Node? ==> mid.id in m && mid.id != x && mid.id != y)
    requires p.Step? ==> p.id in m && p.id != x && p.id != y && (mid.Node? ==> p.id != mid.id)
    requires RootId(mid) != NIL ==> mid.Node?
    requires var m0 := m[x := SetKid(m[x], Opp(d), RootId(mid))];
      m1 == (if mid.Node? then m0[mid.id := m[mid.id].(parent := x)] else m0)[y := m[y].(parent := m[x].parent)]
    requires m2 == if p.Top? then m1 else m1[p.id := SetKid(m[p.id], p.side, y)]
    requires m' == m2[y := SetKid(m1[y], d, x)][x := m1[x].(parent := y)]
    ensures Written(p, d, m, m', x, y, mid)
    ensures NIL in m && x != NIL && y != NIL && (mid.Node? ==> mid.id != NIL) && !IsHead(p, NIL) ==>
      NIL in m' && m'[NIL] == m[NIL]
  {
    hide SetKid, Kid, Opp;
    KeepsParent(m[y], d, x, m[x].parent);
  }

  lemma KeepsRest(c: Cell, d: Side, k: nat)
    ensures SetKid(c, d, k).parent == c.parent && SetKid(c, d, k).red == c.red
    ensures Kid(SetKid(c, d, k), d) == k && Kid(SetKid(c, d, k), Opp(d)) == Kid(c, Opp(d))
  {
  }

  lemma KeepsParent(c: Cell, d: Side, k: nat, up: nat)
    ensures SetKid(c.(parent := up), d, k) == SetKid(c, d, k).(parent := up)
  {
  }

  /** The cells a rotation touches, before it runs. */
  lemma RotationCells(p: Path, d: Side, near: Shape, x: nat, rx: bool, mid: Shape, y: nat, ry: bool, far: Shape,
                      m: Memory, root: nat)
    requires At(p, RotateBefore(d, near, x, rx, mid, y, ry, far), m, root)
    ensures x != NIL && y != NIL && x != y && x in m && y in m
    ensures Kid(m[x], Opp(d)) == y && Kid(m[y], d) == RootId(mid)
    ensures mid.Node? ==> mid.id != NIL && mid.id in m && mid.id != x && mid.id != y
    ensures p.Top? <==> root == x
    ensures p.Step? ==>
      && p.id != NIL && p.id in m && p.id != x && p.id != y && (mid.Node? ==> p.id != mid.id)
      && m[x].parent == p.id && (Kid(m[p.id], d) == x <==> p.side == d) && Kid(m[p.id], p.side) == x
  {
    hide At, Mk, Whole, Bag, PathBag;
    var inner := Mk(d, mid, y, ry, far);
    MkRoot(d, mid, y, ry, far);
    FocusMk(p, d, near, x, rx, inner, m, root);
    MoveFar(p, d, near, x, rx, inner, m, root);
    var q := Step(p, x, rx, Opp(d), near);
    FocusMk(q, d, mid, y, ry, far, m, root);
    PathBagStep(q);
    HeadInBag(p);
    if mid.Node? {
      MoveDown(q, d, mid, y, ry, far, m, root);
      FocusCells(Step(q, y, ry, d, far), mid, m, root);
      FocusApart(Step(q, y, ry, d, far), mid, m, root);
      PathBagStep(Step(q, y, ry, d, far));
    }
  }
}
