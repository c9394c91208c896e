/** Single steps of the tree algorithms, on values: linking a leaf, repainting, and the balance they restore. */
module RbStep {
  import opened Bytes
  import opened RbShape

  // ----- Identities -----

  lemma {:induction false} InOrderBag(s: Shape)
    ensures multiset(InOrder(s)) == Bag(s)
  {
    if s.Node? {
      InOrderBag(s.left);
      InOrderBag(s.right);
    }
  }

  lemma {:induction false} WholeBag(p: Path, s: Shape)
    ensures multiset(Whole(p, s)) == PathBag(p) + Bag(s)
    decreases p
  {
    hide Whole, Bag;
    InOrderBag(s);
    if p.Top? {
      WholeTop(s);
    } else {
      StepWhole(p, s);
      StepBag(p, s);
      WholeBag(p.up, Above(p, s));
    }
  }

  lemma WholeTop(s: Shape)
    ensures Whole(Top, s) == InOrder(s)
  {
  }

  lemma BagIn(p: Path, s: Shape, i: nat)
    ensures i in Whole(p, s) <==> i in PathBag(p) || i in Bag(s)
  {
    hide Whole, PathBag, Bag;
    WholeBag(p, s);
    assert i in Whole(p, s) <==> i in multiset(Whole(p, s));
  }

  // ----- Linking a new leaf -----

  function Fresh(id: nat): Shape { Node(Leaf, id, true, Leaf) }

  lemma LinkAt(p: Path, m: Memory, m': Memory, root: nat, id: nat)
    requires p.Step? && At(p, Leaf, m, root)
    requires id != NIL && id !in PathBag(p) && p.id in m
    requires m' == m[id := Cell(NIL, NIL, p.id, true)][p.id := SetKid(m[p.id], p.side, id)]
    ensures At(p, Fresh(id), m', root) && Whole(p, Fresh(id)) == Before(p) + [id] + After(p)
  {
    hide PathBag, LinkedPath;
    HeadInBag(p);
    assert Bag(Leaf) == multiset{};
    Disjoint2(PathBag(p), multiset{});
    PathRehole(p, m, m', NIL, id, root, root);
    OnceMore(PathBag(p), id);
    assert Bag(Fresh(id)) == multiset{id};
    assert InOrder(Fresh(id)) == [id];
    FreshLinked(id, m', Up(p));
  }

  lemma FreshLinked(id: nat, m: Memory, up: Option<nat>)
    requires id != NIL && id in m && m[id].left == NIL && m[id].right == NIL && m[id].red
    requires up.Some? ==> m[id].parent == up.value
    ensures Linked(Fresh(id), m, up)
  {
  }

  lemma OnceMore(b: multiset<nat>, i: nat)
    requires Once(b) && i !in b
    ensures Once(b + multiset{i})
  {
  }

  // ----- Kids by side -----

  function KidShape(s: Shape, d: Side): (k: Shape)
    requires s.Node?
    ensures k < s
  {
    if d == L then s.left else s.right
  }

  lemma AsMk(s: Shape, d: Side)
    requires s.Node?
    ensures s == Mk(d, KidShape(s, d), s.id, s.red, KidShape(s, Opp(d)))
  {
  }

  lemma MkKid(d: Side, near: Shape, id: nat, red: bool, far: Shape)
    ensures var s := Mk(d, near, id, red, far);
      s.Node? && s.id == id && s.red == red && KidShape(s, d) == near && KidShape(s, Opp(d)) == far
  {
  }

  // ----- Balance -----

  lemma BalancedMk(d: Side, near: Shape, id: nat, red: bool, far: Shape, k: nat)
    ensures Balanced(Mk(d, near, id, red, far), k) <==>
      if red then !IsRed(near) && !IsRed(far) && Balanced(near, k) && Balanced(far, k)
      else k > 0 && Balanced(near, k - 1) && Balanced(far, k - 1)
  {
  }

  lemma RoomStep(p: Path, k: nat)
    requires p.Step?
    ensures Room(p, k) <==>
      && Balanced(p.sibling, k)
      && if p.red then !IsRed(p.sibling) && p.up.Step? && !p.up.red && Room(p.up, k) else Room(p.up, k + 1)
  {
  }

  lemma PaintBlack(s: Shape, k: nat)
    requires s.Node? && s.red && Balanced(s, k)
    ensures Balanced(Paint(s, false), k + 1)
  {
  }

  /**
   * Insertion, red uncle: parent and uncle turn black, the grandparent red, and the excess
   * moves up two levels.
   */
  lemma RecolorRestores(p: Path, s: Shape, k: nat)
    requires p.Step? && p.red && Room(p, k) && s.Node? && s.red && Balanced(s, k) && IsRed(p.up.sibling)
    ensures p.up.Step? && !p.up.red
    ensures var g := Mk(p.up.side, Paint(Above(p, s), false), p.up.id, true, Paint(p.up.sibling, false));
      Balanced(g, k + 1) && Room(p.up.up, k + 1)
  {
    hide Balanced, Room, Mk, Paint;
    RoomStep(p, k);
    RoomStep(p.up, k);
    MkKid(p.side, s, p.id, p.red, p.sibling);
    assert Paint(Above(p, s), false) == Mk(p.side, s, p.id, false, p.sibling)
      by { PaintMk(p.side, s, p.id, p.red, p.sibling, false); }
    BalancedMk(p.side, s, p.id, false, p.sibling, k + 1);
    PaintBlack(p.up.sibling, k);
    PaintColor(p.up.sibling, false);
    PaintColor(Above(p, s), false);
    BalancedMk(p.up.side, Paint(Above(p, s), false), p.up.id, true, Paint(p.up.sibling, false), k + 1);
  }

  lemma PaintColor(s: Shape, c: bool)
    requires s.Node?
    ensures IsRed(Paint(s, c)) == c && Paint(s, c).Node? && Paint(s, c).id == s.id
  {
  }

  lemma PaintMk(d: Side, near: Shape, id: nat, red: bool, far: Shape, c: bool)
    ensures Mk(d, near, id, red, far).Node?
    ensures Paint(Mk(d, near, id, red, far), c) == Mk(d, near, id, c, far)
  {
  }

  /** Insertion, black uncle, after the rotation at the grandparent: the balance is restored. */
  lemma TurnRestores(p: Path, d: Side, n: Shape, b: nat, o: Shape, g: nat, u: Shape, k: nat)
    requires Balanced(n, k) && Balanced(o, k) && Balanced(u, k) && !IsRed(o) && !IsRed(u) && Room(p, k + 1)
    ensures Room(Step(p, b, false, d, Mk(d, o, g, true, u)), k)
  {
    hide Balanced, Room, Mk;
    BalancedMk(d, o, g, true, u, k);
    RoomStep(Step(p, b, false, d, Mk(d, o, g, true, u)), k);
  }
}
