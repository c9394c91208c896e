/** Removal, on values: splicing out a node with one child, the successor, transplanting, and the balance owed. */
module RbRemove {
  import opened Bytes
  import opened RbOrder
  import opened RbShape
  import opened RbStep

  // ----- The leftmost node of a subtree -----

  function MinShape(s: Shape): (t: Shape)
    requires s.Node?
    ensures t.Node? && t.left.Leaf?
  {
    if s.left.Leaf? then s else MinShape(s.left)
  }

  function MinPath(p: Path, s: Shape): (q: Path)
    requires s.Node?
    decreases s
  {
    if s.left.Leaf? then p else MinPath(Step(p, s.id, s.red, L, s.right), s.left)
  }

  /** The subtree without its leftmost node. */
  function DropMin(s: Shape): Shape
    requires s.Node?
  {
    if s.left.Leaf? then s.right else Node(DropMin(s.left), s.id, s.red, s.right)
  }

  lemma {:induction false} DropMinOrder(s: Shape)
    requires s.Node?
    ensures InOrder(s) == [MinShape(s).id] + InOrder(DropMin(s))
  {
    if s.left.Leaf? {
      assert InOrder(s) == [] + [s.id] + InOrder(s.right);
    } else {
      DropMinOrder(s.left);
      assert [MinShape(s).id] + InOrder(DropMin(s.left)) + [s.id] + InOrder(s.right)
          == [MinShape(s).id] + (InOrder(DropMin(s.left)) + [s.id] + InOrder(s.right));
    }
  }

  /** The focus on the leftmost node. */
  lemma {:induction false} ToMin(p: Path, s: Shape, m: Memory, root: nat)
    requires s.Node? && At(p, s, m, root)
    ensures At(MinPath(p, s), MinShape(s), m, root) && Whole(MinPath(p, s), MinShape(s)) == Whole(p, s)
    decreases s
  {
    hide At, Whole;
    if s.left.Node? {
      AsMk(s, L);
      MoveDown(p, L, s.left, s.id, s.red, s.right, m, root);
      ToMin(Step(p, s.id, s.red, L, s.right), s.left, m, root);
    }
  }

  /** From the place of the dropped node up to the subtree. */
  lemma {:induction false} FromDropped(p: Path, s: Shape, m: Memory, root: nat)
    requires s.Node? && At(MinPath(p, s), MinShape(s).right, m, root)
    ensures At(p, DropMin(s), m, root) && Whole(p, DropMin(s)) == Whole(MinPath(p, s), MinShape(s).right)
    decreases s
  {
    hide At, Whole;
    if s.left.Node? {
      var q := Step(p, s.id, s.red, L, s.right);
      FromDropped(q, s.left, m, root);
      MoveUp(q, DropMin(s.left), m, root);
    }
  }

  /** And back down. */
  lemma {:induction false} ToDropped(p: Path, s: Shape, m: Memory, root: nat)
    requires s.Node? && At(p, DropMin(s), m, root)
    ensures At(MinPath(p, s), MinShape(s).right, m, root)
    ensures Whole(p, DropMin(s)) == Whole(MinPath(p, s), MinShape(s).right)
    decreases s
  {
    hide At, Whole;
    if s.left.Node? {
      MoveDown(p, L, DropMin(s.left), s.id, s.red, s.right, m, root);
      ToDropped(Step(p, s.id, s.red, L, s.right), s.left, m, root);
    }
  }

  predicate Roomy(p: Path, s: Shape, k: nat) {
    Room(p, k) && Balanced(s, k) && (p.Top? || RedHead(p) ==> !IsRed(s))
  }

  lemma {:induction false} RoomyMin(p: Path, s: Shape, k: nat) returns (j: nat)
    requires s.Node? && Roomy(p, s, k)
    ensures Roomy(MinPath(p, s), MinShape(s), j)
    decreases s
  {
    j := k;
    if s.left.Node? {
      RoomDown(p, L, s.left, s.id, s.red, s.right, k);
      j := RoomyMin(Step(p, s.id, s.red, L, s.right), s.left, if s.red then k else k - 1);
    }
  }

  /** The head of the path to the leftmost node: the base's own head, or a node of the subtree. */
  lemma {:induction false} MinHead(p: Path, s: Shape, p': Path)
    requires s.Node? && p.Step? && p'.Step?
    ensures MinPath(p, s).Step? && MinPath(p', s).Step?
    ensures s.left.Leaf? ==> MinPath(p, s) == p
    ensures s.left.Node? ==> MinPath(p, s).id == MinPath(p', s).id && MinPath(p, s).id in Bag(s)
    ensures MinShape(s).id in Bag(s)
    decreases s
  {
    if s.left.Node? {
      MinHead(Step(p, s.id, s.red, L, s.right), s.left, Step(p', s.id, s.red, L, s.right));
    }
  }

  /** Every node of a subtree can be focused. */
  lemma {:induction false} Locate(p: Path, s: Shape, m: Memory, root: nat, k: nat, x: nat)
      returns (q: Path, t: Shape, j: nat)
    requires At(p, s, m, root) && Roomy(p, s, k) && x in Bag(s)
    ensures At(q, t, m, root) && t.Node? && t.id == x && Roomy(q, t, j) && Whole(q, t) == Whole(p, s)
    decreases s
  {
    hide At, Whole;
    if s.id == x {
      q, t, j := p, s, k;
    } else {
      var d := if x in Bag(s.left) then L else R;
      AsMk(s, d);
      RoomDown(p, d, KidShape(s, d), s.id, s.red, KidShape(s, Opp(d)), k);
      MoveDown(p, d, KidShape(s, d), s.id, s.red, KidShape(s, Opp(d)), m, root);
      var below := if s.red then k else k - 1;
      q, t, j := Locate(Step(p, s.id, s.red, d, KidShape(s, Opp(d))), KidShape(s, d), m, root, below, x);
    }
  }

  /** The root with at most one child, replaced by that child. */
  lemma RootSpliced(d: Side, t: Shape, x: nat, r: bool, m: Memory, m': Memory, root: nat, k: nat) returns (t': Shape)
    requires At(Top, Mk(d, Leaf, x, r, t), m, root) && Roomy(Top, Mk(d, Leaf, x, r, t), k) && RootId(t) in m
      && NIL in m && !m[NIL].red
    requires m' == m[RootId(t) := m[RootId(t)].(red := false)] - {x}
    ensures At(Top, t', m', RootId(t)) && RedBlack(t') && InOrder(t') == InOrder(t)
    ensures NIL in m' && !m'[NIL].red
  {
    hide Mk, Bag, PathBag, Linked, LinkedPath, Balanced, Once;
    t' := if t.Node? then Paint(t, false) else t;
    MkBag(d, Leaf, x, r, t);
    EmptyBag();
    TopBag(Top);
    LinkedMk(d, Leaf, x, r, t, m, None);
    SpliceParts(PathBag(Top), x, Bag(t));
    LinkedPathTop(m', RootId(t));
    ChildOfBlack(d, t, x, r, k);
    LoneChild(t, x, m, m');
    if t.Node? { PaintKeeps(t, false); }
    assert multiset{} + Bag(t') == Bag(t);
  }

  lemma LinkedPathTop(m: Memory, hole: nat)
    ensures LinkedPath(Top, m, hole, hole)
  {
  }

  lemma ChildOfBlack(d: Side, t: Shape, x: nat, r: bool, k: nat)
    requires Roomy(Top, Mk(d, Leaf, x, r, t), k)
    ensures RedBlack(if t.Node? then Paint(t, false) else t)
  {
    BlackLeaves(Top, d, t, x, k);
    if t.Node? {
      var j := if t.red then k else k - 1;
      assert Balanced(Paint(t, false), j);
    } else {
      assert Balanced(t, 0);
    }
  }

  lemma LoneChild(t: Shape, x: nat, m: Memory, m': Memory)
    requires Linked(t, m, Some(x)) && x !in Bag(t) && Once(Bag(t)) && RootId(t) in m
    requires m' == m[RootId(t) := m[RootId(t)].(red := false)] - {x}
    ensures Linked(if t.Node? then Paint(t, false) else t, m', None)
  {
    hide Bag, Linked;
    LinkedLeaf(m');
    if t.Node? {
      var m1, t' := m[t.id := m[t.id].(red := false)], Paint(t, false);
      RecolorLinked(t, false, m, m1, Some(x));
      LinkedMk(L, t.left, t.id, false, t.right, m1, Some(x));
      LinkedMk(L, t.left, t.id, false, t.right, m1, None);
      PaintKeeps(t, false);
      LinkedFrame(t', m1, m', None);
    }
  }

  lemma LinkedLeaf(m: Memory)
    ensures Linked(Leaf, m, None)
  {
  }

  // ----- Splicing out a node with at most one child -----

  ghost predicate Spliced(q: Path, t: Shape, m: Memory, m': Memory, x: nat) {
    && (q.Step? ==> q.id in m && q.id in m' && m'[q.id] == SetKid(m[q.id], q.side, RootId(t)))
    && (t.Node? && q.Step? ==> t.id in m && t.id in m' && m'[t.id] == m[t.id].(parent := q.id))
    && forall i :: i in m && i != x && i != NIL && !IsHead(q, i) && !(t.Node? && t.id == i) ==> i in m' && m'[i] == m[i]
  }

  lemma SpliceAt(q: Path, d: Side, t: Shape, x: nat, r: bool, m: Memory, m': Memory, root: nat)
    requires At(q, Mk(d, Leaf, x, r, t), m, root) && q.Step? && Spliced(q, t, m, m', x)
    ensures At(q, t, m', root) && x !in PathBag(q) && x !in Bag(t)
  {
    hide Mk, Bag, PathBag, Linked, LinkedPath, Once;
    MkBag(d, Leaf, x, r, t);
    assert Bag(Leaf) == multiset{} by { EmptyBag(); }
    LinkedMk(d, Leaf, x, r, t, m, Up(q));
    MkRoot(d, Leaf, x, r, t);
    SpliceParts(PathBag(q), x, Bag(t));
    NilApart(t, m, Some(x));
    NilApartPath(q, m, x, root);
    RootInBag(t);
    HeadInBag(q);
    Reparent(t, m, m', x, q.id);
    PathRehole(q, m, m', x, RootId(t), root, root);
  }

  lemma EmptyBag()
    ensures Bag(Leaf) == multiset{} && InOrder(Leaf) == []
  {
  }

  lemma SpliceParts(a: multiset<nat>, x: nat, b: multiset<nat>)
    requires Once(a + (multiset{} + multiset{x} + b))
    ensures x !in a && x !in b && Once(a + b) && Once(a) && Once(b)
    ensures forall i :: i in a ==> i !in b
  {
    var all := a + (multiset{} + multiset{x} + b);
    assert all[x] <= 1;
    assert forall i :: (a + b)[i] <= all[i];
    Disjoint2(a, b);
  }

  lemma SpliceWhole(q: Path, d: Side, t: Shape, x: nat, r: bool)
    ensures Cut(Whole(q, Mk(d, Leaf, x, r, t)), x, Whole(q, t))
  {
    hide Mk, InOrder, Before, After, Cut;
    MkBag(d, Leaf, x, r, t);
    EmptyBag();
    CutLeft(Before(q), x, InOrder(t), After(q));
    CutRight(Before(q), InOrder(t), x, After(q));
  }

  lemma CutLeft(b: seq<nat>, x: nat, t: seq<nat>, a: seq<nat>)
    ensures Cut(b + ([] + [x] + t) + a, x, b + t + a)
  {
    hide Cut;
    CutSeq(b, x, t + a);
    assert b + ([] + [x] + t) + a == b + [x] + (t + a);
    assert b + t + a == b + (t + a);
  }

  lemma CutRight(b: seq<nat>, t: seq<nat>, x: nat, a: seq<nat>)
    ensures Cut(b + (t + [x] + []) + a, x, b + t + a)
  {
    hide Cut;
    CutSeq(b + t, x, a);
    assert b + (t + [x] + []) + a == b + t + [x] + a;
  }

  lemma CutSeq(u: seq<nat>, x: nat, v: seq<nat>)
    ensures Cut(u + [x] + v, x, u + v)
  {
    var s := u + [x] + v;
    assert s[|u|] == x && s[..|u|] == u && s[|u| + 1..] == v;
  }

  // ----- Putting one node in the place of another -----

  ghost predicate Transplanted(p: Path, l: Shape, r: Shape, m: Memory, m': Memory, x: nat, z: nat) {
    && x in m && z in m' && m'[z] == m[x]
    && (p.Step? ==> p.id in m && p.id in m' && m'[p.id] == SetKid(m[p.id], p.side, z))
    && (l.Node? ==> l.id in m && l.id in m' && m'[l.id] == m[l.id].(parent := z))
    && (r.Node? ==> r.id in m && r.id in m' && m'[r.id] == m[r.id].(parent := z))
    && forall i ::
         i in m && i != x && i != z && i != NIL && !IsHead(p, i)
         && !(l.Node? && l.id == i) && !(r.Node? && r.id == i) ==>
           i in m' && m'[i] == m[i]
  }

  lemma TransplantAt(p: Path, l: Shape, x: nat, red: bool, r: Shape, z: nat, m: Memory, m': Memory, root: nat,
                     root': nat)
    requires At(p, Node(l, x, red, r), m, root) && Transplanted(p, l, r, m, m', x, z)
    requires z != NIL && z !in PathBag(p) && z !in Bag(l) && z !in Bag(r)
    requires root' == if p.Top? then z else root
    ensures At(p, Node(l, z, red, r), m', root')
    ensures Whole(p, Node(l, z, red, r)) == Before(p) + InOrder(l) + [z] + InOrder(r) + After(p)
  {
    hide Bag, PathBag, Linked, LinkedPath, Once, Transplanted, InOrder;
    MkBag(L, l, x, red, r);
    MkBag(L, l, z, red, r);
    LinkedMk(L, l, x, red, r, m, Up(p));
    LinkedMk(L, l, z, red, r, m', Up(p));
    FourParts(PathBag(p), Bag(l), x, Bag(r), z);
    TransplantPieces(p, l, x, r, z, m, m', root, root');
    assert Before(p) + (InOrder(l) + [z] + InOrder(r)) + After(p)
        == Before(p) + InOrder(l) + [z] + InOrder(r) + After(p);
  }

  lemma TransplantPieces(p: Path, l: Shape, x: nat, r: Shape, z: nat, m: Memory, m': Memory, root: nat, root': nat)
    requires Transplanted(p, l, r, m, m', x, z) && Once(PathBag(p) + (Bag(l) + multiset{x} + Bag(r)))
    requires z !in PathBag(p) && z !in Bag(l) && z !in Bag(r) && (root' == if p.Top? then z else root)
    requires Linked(l, m, Some(x)) && Linked(r, m, Some(x)) && LinkedPath(p, m, x, root)
    ensures Linked(l, m', Some(z)) && Linked(r, m', Some(z)) && LinkedPath(p, m', z, root')
    ensures z in m' && x in m && m'[z] == m[x]
  {
    hide Bag, PathBag, Linked, LinkedPath, Once;
    NilApart(l, m, Some(x));
    NilApart(r, m, Some(x));
    NilApartPath(p, m, x, root);
    FourParts(PathBag(p), Bag(l), x, Bag(r), z);
    RootInBag(l);
    RootInBag(r);
    HeadInBag(p);
    Reparent(l, m, m', x, z);
    Reparent(r, m, m', x, z);
    PathRehole(p, m, m', x, z, root, root');
  }

  lemma FourParts(a: multiset<nat>, l: multiset<nat>, x: nat, r: multiset<nat>, z: nat)
    requires Once(a + (l + multiset{x} + r)) && z !in a && z !in l && z !in r
    ensures Once(a + (l + multiset{z} + r)) && Once(a) && Once(l) && Once(r) && x !in a && x !in l && x !in r
    ensures forall i :: i in a ==> i !in l && i !in r
    ensures forall i :: i in l ==> i !in r
  {
    var all := a + (l + multiset{x} + r);
    assert all[x] <= 1;
    assert forall i :: a[i] + l[i] + r[i] <= all[i];
  }

  // ----- Balance owed -----

  /** One black short of `k + 1`; painting a red root black makes it up. */
  predicate Short(s: Shape, k: nat) {
    if IsRed(s) then Balanced(Paint(s, false), k + 1) else Balanced(s, k)
  }

  /** Removing a red node owes nothing. */
  lemma RedLeaves(q: Path, d: Side, t: Shape, x: nat, k: nat)
    requires Roomy(q, Mk(d, Leaf, x, true, t), k)
    ensures Roomy(q, t, k)
  {
  }

  /** Removing a black one owes a black. */
  lemma BlackLeaves(q: Path, d: Side, t: Shape, x: nat, k: nat)
    requires Roomy(q, Mk(d, Leaf, x, false, t), k)
    ensures k > 0 && Room(q, k) && Short(t, k - 1)
  {
    if IsRed(t) {
      PaintBlack(t, k - 1);
    }
  }

  /** The sibling of a short subtree is a node. */
  lemma SiblingThere(p: Path, k: nat)
    requires p.Step? && Room(p, k + 1)
    ensures p.sibling.Node?
  {
  }

  /** A red sibling, after it is rotated above the parent. */
  lemma RedSibling(up: Path, id: nat, red: bool, d: Side, wn: Shape, w: nat, wf: Shape, k: nat)
    requires Room(Step(up, id, red, d, Mk(d, wn, w, true, wf)), k + 1)
    ensures !red && Room(Step(Step(up, w, false, d, wf), id, true, d, wn), k + 1) && !IsRed(wn)
  {
    hide Balanced, Room, Mk;
    MkKid(d, wn, w, true, wf);
    RoomStep(Step(up, id, red, d, Mk(d, wn, w, true, wf)), k + 1);
    BalancedMk(d, wn, w, true, wf, k + 1);
    RoomStep(Step(Step(up, w, false, d, wf), id, true, d, wn), k + 1);
    RoomStep(Step(up, w, false, d, wf), k + 1);
  }

  /** A black sibling with black children turns red: the debt moves up. */
  lemma DebtMovesUp(up: Path, s: Shape, id: nat, red: bool, d: Side, wn: Shape, w: nat, wf: Shape, k: nat)
      returns (j: nat)
    requires Room(Step(up, id, red, d, Mk(d, wn, w, false, wf)), k + 1) && Balanced(s, k) && !IsRed(s)
    requires !IsRed(wn) && !IsRed(wf)
    ensures up.Step? ==> Room(up, j + 1)
    ensures Short(Mk(d, s, id, red, Mk(d, wn, w, true, wf)), j)
  {
    hide Balanced, Room, Mk, Paint;
    j := if red then k else k + 1;
    var x := Mk(d, wn, w, true, wf);
    MkKid(d, wn, w, false, wf);
    RoomStep(Step(up, id, red, d, Mk(d, wn, w, false, wf)), k + 1);
    BalancedMk(d, wn, w, false, wf, k + 1);
    BalancedMk(d, wn, w, true, wf, k);
    MkKid(d, s, id, red, x);
    PaintMk(d, s, id, red, x, false);
    BalancedMk(d, s, id, false, x, k + 1);
  }

  /** A black sibling whose near child alone is red: after the rotation its far child is red. */
  lemma NearTurns(d: Side, nn: Shape, n: nat, nf: Shape, w: nat, wf: Shape, k: nat)
    requires Balanced(Mk(d, Mk(d, nn, n, true, nf), w, false, wf), k + 1) && !IsRed(wf)
    ensures Balanced(Mk(d, nn, n, false, Mk(d, nf, w, true, wf)), k + 1)
  {
    hide Balanced, Mk;
    BalancedMk(d, Mk(d, nn, n, true, nf), w, false, wf, k + 1);
    BalancedMk(d, nn, n, true, nf, k);
    BalancedMk(d, nf, w, true, wf, k);
    BalancedMk(d, nn, n, false, Mk(d, nf, w, true, wf), k + 1);
  }

  /** A black sibling whose far child is red: after the rotation the debt is paid. */
  lemma DebtPaid(up: Path, s: Shape, id: nat, red: bool, d: Side, wn: Shape, w: nat, wf: Shape, k: nat) returns (j: nat)
    requires Room(Step(up, id, red, d, Mk(d, wn, w, false, wf)), k + 1) && Balanced(s, k) && !IsRed(s)
    requires IsRed(wf)
    ensures Roomy(up, Mk(d, Mk(d, s, id, false, wn), w, red, Paint(wf, false)), j)
  {
    hide Balanced, Room, Mk, Paint;
    j := if red then k + 1 else k + 2;
    var t := Mk(d, s, id, false, wn);
    MkKid(d, wn, w, false, wf);
    RoomStep(Step(up, id, red, d, Mk(d, wn, w, false, wf)), k + 1);
    BalancedMk(d, wn, w, false, wf, k + 1);
    BalancedMk(d, s, id, false, wn, k + 1);
    MkKid(d, s, id, false, wn);
    PaintBlack(wf, k);
    PaintColor(wf, false);
    BalancedMk(d, t, w, red, Paint(wf, false), j);
    MkKid(d, t, w, red, Paint(wf, false));
  }
}
