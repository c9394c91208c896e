/**
 * Red-black trees as values: the shape of a tree, a path into it, and what it means for
 * linked cells to realize them. The pointer algorithms are proved against these.
 */
module RbShape {
  import opened Bytes

  /** Identity of the sentinel; every other node has a positive identity. */
  const NIL: nat := 0

  datatype Side = L | R

  function Opp(d: Side): Side { if d == L then R else L }

  /** The fields of one node in memory. */
  datatype Cell = Cell(left: nat, right: nat, parent: nat, red: bool)

  function Kid(c: Cell, d: Side): nat { if d == L then c.left else c.right }

  function SetKid(c: Cell, d: Side, k: nat): Cell { if d == L then c.(left := k) else c.(right := k) }

  type Memory = map<nat, Cell>

  datatype Shape = Leaf | Node(left: Shape, id: nat, red: bool, right: Shape)

  /** A node whose subtree on side `d` is `near`. */
  function Mk(d: Side, near: Shape, id: nat, red: bool, far: Shape): Shape {
    if d == L then Node(near, id, red, far) else Node(far, id, red, near)
  }

  /** A path from a hole up to the root: at each step the side taken and the subtree not taken. */
  datatype Path = Top | Step(up: Path, id: nat, red: bool, side: Side, sibling: Shape)

  function RootId(s: Shape): nat { if s.Leaf? then NIL else s.id }

  predicate IsRed(s: Shape) { s.Node? && s.red }

  function InOrder(s: Shape): seq<nat> {
    if s.Leaf? then [] else InOrder(s.left) + [s.id] + InOrder(s.right)
  }

  function Before(p: Path): seq<nat> {
    match p
    case Top => []
    case Step(up, id, _, side, sib) => if side == L then Before(up) else Before(up) + InOrder(sib) + [id]
  }

  function After(p: Path): seq<nat> {
    match p
    case Top => []
    case Step(up, id, _, side, sib) => if side == L then [id] + InOrder(sib) + After(up) else After(up)
  }

  function Plug(p: Path, s: Shape): Shape
    decreases p
  {
    match p
    case Top => s
    case Step(up, id, red, side, sib) => Plug(up, Mk(side, s, id, red, sib))
  }

  function Whole(p: Path, s: Shape): seq<nat> { Before(p) + InOrder(s) + After(p) }

  lemma {:induction false} PlugInOrder(p: Path, s: Shape)
    ensures InOrder(Plug(p, s)) == Whole(p, s)
    decreases p
  {
    match p
    case Top =>
    case Step(up, id, red, side, sib) =>
      StepWhole(p, s);
      PlugInOrder(up, Mk(side, s, id, red, sib));
  }

  /** Moving the focus up one step does not change the sequence. */
  lemma StepWhole(p: Path, s: Shape)
    requires p.Step?
    ensures Whole(p, s) == Whole(p.up, Mk(p.side, s, p.id, p.red, p.sibling))
  {
  }

  /** The identities in a shape, with multiplicity. */
  function Bag(s: Shape): multiset<nat> {
    if s.Leaf? then multiset{} else Bag(s.left) + multiset{s.id} + Bag(s.right)
  }

  function PathBag(p: Path): multiset<nat> {
    if p.Top? then multiset{} else PathBag(p.up) + multiset{p.id} + Bag(p.sibling)
  }

  /** No identity occurs twice. */
  ghost predicate Once(b: multiset<nat>) { forall i :: b[i] <= 1 }

  function Up(p: Path): Option<nat> { if p.Top? then None else Some(p.id) }

  // ----- Realization in memory -----

  /** Parent links are consistent everywhere but at the root, whose parent field is never read. */
  predicate Linked(s: Shape, m: Memory, up: Option<nat>) {
    match s
    case Leaf => true
    case Node(l, id, red, r) =>
      && id != NIL && id in m
      && m[id].left == RootId(l) && m[id].right == RootId(r) && m[id].red == red
      && (up.Some? ==> m[id].parent == up.value)
      && Linked(l, m, Some(id)) && Linked(r, m, Some(id))
  }

  /** The path is realized, with `hole` below it and `root` above it. */
  predicate LinkedPath(p: Path, m: Memory, hole: nat, root: nat) {
    match p
    case Top => root == hole
    case Step(up, id, red, side, sib) =>
      && id != NIL && id in m
      && Kid(m[id], side) == hole && Kid(m[id], Opp(side)) == RootId(sib) && m[id].red == red
      && (up.Step? ==> m[id].parent == up.id)
      && Linked(sib, m, Some(id))
      && LinkedPath(up, m, id, root)
  }

  /** Two memories hold the same cells for all of `ids`. */
  ghost predicate Same(m: Memory, m': Memory, ids: multiset<nat>) {
    forall i :: i in ids && i in m ==> i in m' && m'[i] == m[i]
  }

  lemma {:induction false} LinkedFrame(s: Shape, m: Memory, m': Memory, up: Option<nat>)
    requires Linked(s, m, up) && Same(m, m', Bag(s))
    ensures Linked(s, m', up)
  {
    if s.Node? {
      assert s.id in Bag(s);
      LinkedFrame(s.left, m, m', Some(s.id));
      LinkedFrame(s.right, m, m', Some(s.id));
    }
  }

  lemma {:induction false} PathFrame(p: Path, m: Memory, m': Memory, hole: nat, root: nat)
    requires LinkedPath(p, m, hole, root) && Same(m, m', PathBag(p))
    ensures LinkedPath(p, m', hole, root)
  {
    if p.Step? {
      assert p.id in PathBag(p);
      LinkedFrame(p.sibling, m, m', Some(p.id));
      PathFrame(p.up, m, m', p.id, root);
    }
  }

  /** The node whose child link points at the hole, when there is one. */
  predicate IsHead(p: Path, i: nat) { p.Step? && p.id == i }

  /** The same path over a different hole: only the head's child link changed. */
  lemma PathRehole(p: Path, m: Memory, m': Memory, hole: nat, hole': nat, root: nat, root': nat)
    requires LinkedPath(p, m, hole, root) && Once(PathBag(p))
    requires p.Top? ==> root' == hole'
    requires p.Step? ==> root' == root && p.id in m' && m'[p.id] == SetKid(m[p.id], p.side, hole')
    requires forall i :: i in PathBag(p) && i in m && !IsHead(p, i) ==> i in m' && m'[i] == m[i]
    ensures LinkedPath(p, m', hole', root')
  {
    hide Linked, Bag, PathBag;
    if p.Step? {
      PathBagStep(p);
      HeadApart(PathBag(p.up), p.id, Bag(p.sibling));
      LinkedFrame(p.sibling, m, m', Some(p.id));
      PathFrame(p.up, m, m', p.id, root);
    }
  }

  lemma PathBagStep(p: Path)
    requires p.Step?
    ensures PathBag(p) == PathBag(p.up) + multiset{p.id} + Bag(p.sibling)
  {
  }

  lemma HeadApart(a: multiset<nat>, x: nat, b: multiset<nat>)
    requires Once(a + multiset{x} + b)
    ensures x !in a && x !in b
    ensures forall i :: i in a + multiset{x} + b <==> i in a || i == x || i in b
  {
    assert (a + multiset{x} + b)[x] <= 1;
  }

  lemma MkRoot(d: Side, near: Shape, id: nat, red: bool, far: Shape)
    ensures RootId(Mk(d, near, id, red, far)) == id
  {
  }

  /** A node is realized when its cell is right and both its subtrees are realized. */
  lemma LinkedMk(d: Side, near: Shape, id: nat, red: bool, far: Shape, m: Memory, up: Option<nat>)
    ensures Linked(Mk(d, near, id, red, far), m, up) <==>
      && id != NIL && id in m
      && Kid(m[id], d) == RootId(near) && Kid(m[id], Opp(d)) == RootId(far) && m[id].red == red
      && (up.Some? ==> m[id].parent == up.value)
      && Linked(near, m, Some(id)) && Linked(far, m, Some(id))
  {
  }

  // ----- Rotation -----

  /**
   * A rotation about `x` towards side `d`: the cells it writes, stated on the memory before
   * and after.
   */
  ghost predicate Written(p: Path, d: Side, m: Memory, m': Memory, x: nat, y: nat, mid: Shape) {
    && x in m && x in m' && y in m && y in m'
    && m'[x] == SetKid(m[x], Opp(d), RootId(mid)).(parent := y)
    && m'[y] == SetKid(m[y], d, x).(parent := m[x].parent)
    && (mid.Node? ==> mid.id in m && mid.id in m' && m'[mid.id] == m[mid.id].(parent := x))
    && (p.Step? ==> p.id in m && p.id in m' && m'[p.id] == SetKid(m[p.id], p.side, y))
    && forall i :: i in m && i != x && i != y && !(mid.Node? && mid.id == i) && !IsHead(p, i) ==>
      i in m' && m'[i] == m[i]
  }

  ghost predicate Rotated(p: Path, d: Side, m: Memory, m': Memory, x: nat, y: nat, mid: Shape, root: nat, root': nat) {
    && Written(p, d, m, m', x, y, mid)
    && root' == if p.Top? then y else root
  }

  /** What a rotation about `x` turns into what. */
  function RotateBefore(d: Side, near: Shape, x: nat, rx: bool, mid: Shape, y: nat, ry: bool, far: Shape): Shape {
    Mk(d, near, x, rx, Mk(d, mid, y, ry, far))
  }

  function RotateAfter(d: Side, near: Shape, x: nat, rx: bool, mid: Shape, y: nat, ry: bool, far: Shape): Shape {
    Mk(d, Mk(d, near, x, rx, mid), y, ry, far)
  }

  lemma MkBag(d: Side, near: Shape, id: nat, red: bool, far: Shape)
    ensures Bag(Mk(d, near, id, red, far)) == Bag(near) + multiset{id} + Bag(far)
    ensures InOrder(Mk(d, near, id, red, far)) ==
            if d == L then InOrder(near) + [id] + InOrder(far) else InOrder(far) + [id] + InOrder(near)
  {
  }

  lemma RotateKeepsOrder(d: Side, near: Shape, x: nat, rx: bool, mid: Shape, y: nat, ry: bool, far: Shape)
    ensures InOrder(RotateAfter(d, near, x, rx, mid, y, ry, far))
      == InOrder(RotateBefore(d, near, x, rx, mid, y, ry, far))
  {
    hide InOrder, Mk, Bag;
    MkBag(d, mid, y, ry, far);
    MkBag(d, near, x, rx, Mk(d, mid, y, ry, far));
    MkBag(d, near, x, rx, mid);
    MkBag(d, Mk(d, near, x, rx, mid), y, ry, far);
    Reassociate(InOrder(near), x, InOrder(mid), y, InOrder(far));
    Reassociate(InOrder(far), y, InOrder(mid), x, InOrder(near));
  }

  lemma Reassociate(n: seq<nat>, x: nat, q: seq<nat>, y: nat, f: seq<nat>)
    ensures n + [x] + (q + [y] + f) == n + [x] + q + [y] + f
  {
  }

  lemma RotateKeepsBag(d: Side, near: Shape, x: nat, rx: bool, mid: Shape, y: nat, ry: bool, far: Shape)
    ensures Bag(RotateBefore(d, near, x, rx, mid, y, ry, far))
         == Bag(near) + multiset{x} + Bag(mid) + multiset{y} + Bag(far)
    ensures Bag(RotateAfter(d, near, x, rx, mid, y, ry, far))
         == Bag(near) + multiset{x} + Bag(mid) + multiset{y} + Bag(far)
  {
    hide InOrder, Mk, Bag;
    MkBag(d, mid, y, ry, far);
    MkBag(d, near, x, rx, Mk(d, mid, y, ry, far));
    MkBag(d, near, x, rx, mid);
    MkBag(d, Mk(d, near, x, rx, mid), y, ry, far);
  }

  /** Six parts without a common member. */
  lemma Apart(p: multiset<nat>, n: multiset<nat>, x: nat, q: multiset<nat>, y: nat, f: multiset<nat>)
    requires Once(p + (n + multiset{x} + q + multiset{y} + f))
    ensures x != y && Once(p) && Once(q)
    ensures forall i :: i in n ==> i != x && i != y && i !in q && i !in p
    ensures forall i :: i in q ==> i != x && i != y && i !in p && i !in f
    ensures forall i :: i in f ==> i != x && i != y && i !in q && i !in p
    ensures forall i :: i in p ==> i != x && i != y
  {
    var all := p + (n + multiset{x} + q + multiset{y} + f);
    assert all[x] <= 1 && all[y] <= 1;
    assert forall i :: i in n || i in q || i in f || i in p ==> all[i] <= 1;
    assert forall i :: p[i] <= all[i];
    assert forall i :: q[i] <= all[i];
  }

  lemma RotateLinked(p: Path, d: Side, m: Memory, m': Memory, root: nat, root': nat,
                     near: Shape, x: nat, rx: bool, mid: Shape, y: nat, ry: bool, far: Shape)
    requires Linked(RotateBefore(d, near, x, rx, mid, y, ry, far), m, Up(p)) && LinkedPath(p, m, x, root)
    requires Once(PathBag(p) + Bag(RotateBefore(d, near, x, rx, mid, y, ry, far)))
    requires Rotated(p, d, m, m', x, y, mid, root, root')
    ensures Linked(RotateAfter(d, near, x, rx, mid, y, ry, far), m', Up(p)) && LinkedPath(p, m', y, root')
  {
    hide Bag, PathBag, InOrder, LinkedPath, Once, Linked, Mk;
    RotateKeepsBag(d, near, x, rx, mid, y, ry, far);
    LinkedMk(d, near, x, rx, Mk(d, mid, y, ry, far), m, Up(p));
    LinkedMk(d, mid, y, ry, far, m, Some(x));
    LinkedMk(d, near, x, rx, mid, m', Some(y));
    LinkedMk(d, Mk(d, near, x, rx, mid), y, ry, far, m', Up(p));
    MkRoot(d, mid, y, ry, far);
    MkRoot(d, near, x, rx, mid);
    RotatePieces(p, d, m, m', root, root', near, x, mid, y, far);
  }

  lemma RotatePieces(p: Path, d: Side, m: Memory, m': Memory, root: nat, root': nat,
                     near: Shape, x: nat, mid: Shape, y: nat, far: Shape)
    requires Once(PathBag(p) + (Bag(near) + multiset{x} + Bag(mid) + multiset{y} + Bag(far)))
    requires Rotated(p, d, m, m', x, y, mid, root, root') && LinkedPath(p, m, x, root)
    requires Linked(near, m, Some(x)) && Linked(mid, m, Some(y)) && Linked(far, m, Some(y))
    ensures Linked(near, m', Some(x)) && Linked(mid, m', Some(x)) && Linked(far, m', Some(y))
    ensures LinkedPath(p, m', y, root')
  {
    hide Bag, PathBag, Linked, LinkedPath, InOrder;
    NilApart(near, m, Some(x));
    NilApart(far, m, Some(y));
    NilApartPath(p, m, x, root);
    NilApart(mid, m, Some(y));
    Apart(PathBag(p), Bag(near), x, Bag(mid), y, Bag(far));
    RotateTouches(p, d, m, m', root, root', near, x, mid, y, far);
    LinkedFrame(near, m, m', Some(x));
    LinkedFrame(far, m, m', Some(y));
    Reparent(mid, m, m', y, x);
    PathRehole(p, m, m', x, y, root, root');
  }

  /** Which cells a rotation leaves alone. */
  lemma RotateTouches(p: Path, d: Side, m: Memory, m': Memory, root: nat, root': nat,
                      near: Shape, x: nat, mid: Shape, y: nat, far: Shape)
    requires Once(PathBag(p) + (Bag(near) + multiset{x} + Bag(mid) + multiset{y} + Bag(far)))
    requires Rotated(p, d, m, m', x, y, mid, root, root')
    requires NIL !in Bag(near) && NIL !in Bag(mid) && NIL !in Bag(far) && NIL !in PathBag(p)
    ensures Same(m, m', Bag(near)) && Same(m, m', Bag(far))
    ensures forall i :: i in Bag(mid) && i in m && i != RootId(mid) ==> i in m' && m'[i] == m[i]
    ensures forall i :: i in PathBag(p) && i in m && !IsHead(p, i) ==> i in m' && m'[i] == m[i]
  {
    hide Bag, PathBag, Once, SetKid;
    Apart(PathBag(p), Bag(near), x, Bag(mid), y, Bag(far));
    RootInBag(mid);
    HeadInBag(p);
  }

  lemma {:induction false} NilApart(s: Shape, m: Memory, up: Option<nat>)
    requires Linked(s, m, up)
    ensures NIL !in Bag(s)
  {
    if s.Node? {
      NilApart(s.left, m, Some(s.id));
      NilApart(s.right, m, Some(s.id));
    }
  }

  lemma {:induction false} NilApartPath(p: Path, m: Memory, hole: nat, root: nat)
    requires LinkedPath(p, m, hole, root)
    ensures NIL !in PathBag(p)
  {
    if p.Step? {
      NilApart(p.sibling, m, Some(p.id));
      NilApartPath(p.up, m, p.id, root);
    }
  }

  lemma RootInBag(s: Shape)
    ensures s.Node? ==> s.id in Bag(s)
  {
  }

  lemma HeadInBag(p: Path)
    ensures p.Step? ==> p.id in PathBag(p)
  {
  }

  /** A subtree under a new parent: only its root's parent link changed. */
  lemma Reparent(s: Shape, m: Memory, m': Memory, up: nat, up': nat)
    requires Linked(s, m, Some(up)) && Once(Bag(s))
    requires s.Node? ==> s.id in m' && m'[s.id] == m[s.id].(parent := up')
    requires forall i :: i in Bag(s) && i in m && i != RootId(s) ==> i in m' && m'[i] == m[i]
    ensures Linked(s, m', Some(up'))
  {
    if s.Node? {
      HeadApart(Bag(s.left), s.id, Bag(s.right));
      assert Same(m, m', Bag(s.left)) && Same(m, m', Bag(s.right));
      LinkedFrame(s.left, m, m', Some(s.id));
      LinkedFrame(s.right, m, m', Some(s.id));
    }
  }

  // ----- A focus in a realized tree -----

  /** Memory realizes the tree obtained by plugging `s` into `p`; no node occurs twice. */
  ghost predicate At(p: Path, s: Shape, m: Memory, root: nat) {
    && Linked(s, m, Up(p)) && LinkedPath(p, m, RootId(s), root)
    && Once(PathBag(p) + Bag(s))
  }

  /** One step towards the root. */
  function Above(p: Path, s: Shape): Shape
    requires p.Step?
  {
    Mk(p.side, s, p.id, p.red, p.sibling)
  }

  lemma MoveUp(p: Path, s: Shape, m: Memory, root: nat)
    requires p.Step? && At(p, s, m, root)
    ensures At(p.up, Above(p, s), m, root) && Whole(p.up, Above(p, s)) == Whole(p, s)
  {
    hide Bag, PathBag, InOrder, Linked, Once, Before, After;
    LinkedMk(p.side, s, p.id, p.red, p.sibling, m, Up(p.up));
    MkRoot(p.side, s, p.id, p.red, p.sibling);
    StepBag(p, s);
    StepWhole(p, s);
  }

  lemma StepBag(p: Path, s: Shape)
    requires p.Step?
    ensures PathBag(p) + Bag(s) == PathBag(p.up) + Bag(Above(p, s))
  {
    hide Bag, Mk;
    MkBag(p.side, s, p.id, p.red, p.sibling);
  }

  lemma MoveDown(p: Path, d: Side, near: Shape, id: nat, red: bool, far: Shape, m: Memory, root: nat)
    requires At(p, Mk(d, near, id, red, far), m, root)
    ensures At(Step(p, id, red, d, far), near, m, root)
    ensures Whole(Step(p, id, red, d, far), near) == Whole(p, Mk(d, near, id, red, far))
  {
    hide Bag, PathBag, InOrder, Linked, Once, Before, After;
    var q := Step(p, id, red, d, far);
    LinkedMk(d, near, id, red, far, m, Up(p));
    MkRoot(d, near, id, red, far);
    StepBag(q, near);
    StepWhole(q, near);
  }

  lemma MkFlip(d: Side, near: Shape, id: nat, red: bool, far: Shape)
    ensures Mk(d, near, id, red, far) == Mk(Opp(d), far, id, red, near)
  {
  }

  lemma MoveFar(p: Path, d: Side, near: Shape, id: nat, red: bool, far: Shape, m: Memory, root: nat)
    requires At(p, Mk(d, near, id, red, far), m, root)
    ensures At(Step(p, id, red, Opp(d), near), far, m, root)
    ensures Whole(Step(p, id, red, Opp(d), near), far) == Whole(p, Mk(d, near, id, red, far))
  {
    hide At, Whole, Mk;
    MkFlip(d, near, id, red, far);
    MoveDown(p, Opp(d), far, id, red, near, m, root);
  }

  /** A realized focus closes to a realized whole tree. */
  lemma {:induction false} Close(p: Path, s: Shape, m: Memory, root: nat)
    requires At(p, s, m, root)
    ensures At(Top, Plug(p, s), m, root) && InOrder(Plug(p, s)) == Whole(p, s)
    decreases p
  {
    hide At, Whole;
    PlugInOrder(p, s);
    if p.Step? {
      MoveUp(p, s, m, root);
      Close(p.up, Above(p, s), m, root);
    }
  }

  /** What the focus says about the cells it names. */
  lemma FocusCells(p: Path, s: Shape, m: Memory, root: nat)
    requires At(p, s, m, root)
    ensures s.Node? ==>
      && s.id != NIL && s.id in m && m[s.id].left == RootId(s.left) && m[s.id].right == RootId(s.right)
      && m[s.id].red == s.red
    ensures p.Top? ==> root == RootId(s)
    ensures p.Step? ==>
      && p.id != NIL && p.id in m && m[p.id].red == p.red
      && Kid(m[p.id], p.side) == RootId(s) && Kid(m[p.id], Opp(p.side)) == RootId(p.sibling)
      && (s.Node? ==> m[s.id].parent == p.id)
      && (p.up.Step? ==> m[p.id].parent == p.up.id)
  {
  }

  /** A focus below the root is not the root, and is a child of its parent on one side only. */
  lemma FocusApart(p: Path, s: Shape, m: Memory, root: nat)
    requires At(p, s, m, root) && p.Step? && s.Node?
    ensures root != s.id && p.id != s.id && RootId(p.sibling) != s.id
    ensures s.id !in PathBag(p)
  {
    hide Linked, LinkedPath, Bag, PathBag;
    Disjoint2(PathBag(p), Bag(s));
    RootInBag(s);
    HeadInBag(p);
    RootOnPath(p, m, RootId(s), root);
    RootInBag(p.sibling);
    PathBagStep(p);
    assert p.sibling.Node? ==> p.sibling.id in PathBag(p);
    FocusCells(p, s, m, root);
  }

  /** The cells named by a focus on a node given by side. */
  lemma FocusMk(p: Path, d: Side, near: Shape, id: nat, red: bool, far: Shape, m: Memory, root: nat)
    requires At(p, Mk(d, near, id, red, far), m, root)
    ensures id != NIL && id in m && m[id].red == red
    ensures Kid(m[id], d) == RootId(near) && Kid(m[id], Opp(d)) == RootId(far)
    ensures id !in PathBag(p)
    ensures p.Top? <==> root == id
    ensures p.Step? ==>
      && p.id != NIL && p.id in m && p.id != id && m[p.id].red == p.red && m[id].parent == p.id
      && Kid(m[p.id], p.side) == id && Kid(m[p.id], Opp(p.side)) != id
  {
    hide At, PathBag, Bag;
    var s := Mk(d, near, id, red, far);
    FocusCells(p, s, m, root);
    if p.Step? {
      FocusApart(p, s, m, root);
    } else {
      TopBag(p);
    }
  }

  lemma TopBag(p: Path)
    requires p.Top?
    ensures PathBag(p) == multiset{}
  {
  }

  lemma {:induction false} RootOnPath(p: Path, m: Memory, hole: nat, root: nat)
    requires LinkedPath(p, m, hole, root) && p.Step?
    ensures root in PathBag(p)
  {
    if p.up.Step? {
      RootOnPath(p.up, m, p.id, root);
    }
  }

  function PathLength(p: Path): nat { if p.Top? then 0 else 1 + PathLength(p.up) }

  function Paint(s: Shape, c: bool): Shape
    requires s.Node?
  {
    s.(red := c)
  }

  lemma PaintKeeps(s: Shape, c: bool)
    requires s.Node?
    ensures Bag(Paint(s, c)) == Bag(s) && InOrder(Paint(s, c)) == InOrder(s) && RootId(Paint(s, c)) == RootId(s)
    ensures s.id in Bag(s)
  {
  }

  lemma RecolorLinked(s: Shape, c: bool, m: Memory, m': Memory, up: Option<nat>)
    requires s.Node? && Linked(s, m, up) && Once(Bag(s))
    requires s.id in m && m' == m[s.id := m[s.id].(red := c)]
    ensures Linked(Paint(s, c), m', up)
  {
    hide Linked, Bag;
    MkBag(L, s.left, s.id, s.red, s.right);
    LinkedMk(L, s.left, s.id, s.red, s.right, m, up);
    LinkedMk(L, s.left, s.id, c, s.right, m', up);
    HeadApart(Bag(s.left), s.id, Bag(s.right));
    LinkedFrame(s.left, m, m', Some(s.id));
    LinkedFrame(s.right, m, m', Some(s.id));
  }

  /** Repainting the focus. */
  lemma RecolorAt(p: Path, s: Shape, c: bool, m: Memory, m': Memory, root: nat)
    requires s.Node? && At(p, s, m, root)
    requires s.id in m && m' == m[s.id := m[s.id].(red := c)]
    ensures At(p, Paint(s, c), m', root) && Whole(p, Paint(s, c)) == Whole(p, s)
  {
    hide PathBag, LinkedPath, Linked, Bag, InOrder, Once;
    PaintKeeps(s, c);
    Disjoint2(PathBag(p), Bag(s));
    PathFrame(p, m, m', s.id, root);
    RecolorLinked(s, c, m, m', Up(p));
  }

  lemma Disjoint2(a: multiset<nat>, b: multiset<nat>)
    requires Once(a + b)
    ensures Once(a) && Once(b) && forall i :: i in a ==> i !in b
  {
    var all := a + b;
    assert forall i :: a[i] + b[i] == all[i] <= 1;
  }

  /** Rotating the focus. */
  lemma RotateAt(p: Path, d: Side, m: Memory, m': Memory, root: nat, root': nat,
                 near: Shape, x: nat, rx: bool, mid: Shape, y: nat, ry: bool, far: Shape)
    requires At(p, RotateBefore(d, near, x, rx, mid, y, ry, far), m, root)
    requires Rotated(p, d, m, m', x, y, mid, root, root')
    ensures At(p, RotateAfter(d, near, x, rx, mid, y, ry, far), m', root')
    ensures Whole(p, RotateAfter(d, near, x, rx, mid, y, ry, far))
      == Whole(p, RotateBefore(d, near, x, rx, mid, y, ry, far))
  {
    hide Bag, PathBag, InOrder, Linked, LinkedPath, Once, Rotated;
    MkRoot(d, near, x, rx, Mk(d, mid, y, ry, far));
    MkRoot(d, Mk(d, near, x, rx, mid), y, ry, far);
    RotateLinked(p, d, m, m', root, root', near, x, rx, mid, y, ry, far);
    RotateKeepsOrder(d, near, x, rx, mid, y, ry, far);
    RotateKeepsBag(d, near, x, rx, mid, y, ry, far);
  }

  // ----- Balance -----

  /** Equal black height `k` on every path, and no red node with a red child. */
  predicate Balanced(s: Shape, k: nat) {
    match s
    case Leaf => k == 0
    case Node(l, _, red, r) =>
      if red then !IsRed(l) && !IsRed(r) && Balanced(l, k) && Balanced(r, k)
      else k > 0 && Balanced(l, k - 1) && Balanced(r, k - 1)
  }

  /** The path accepts a subtree of black height `k` with a black root; the tree's root is black. */
  predicate Room(p: Path, k: nat) {
    match p
    case Top => true
    case Step(up, _, red, _, sib) =>
      && Balanced(sib, k)
      && if red then !IsRed(sib) && up.Step? && !up.red && Room(up, k) else Room(up, k + 1)
  }

  predicate RedHead(p: Path) { p.Step? && p.red }

  /** A red-black tree: a black root, no red-red edge, one black height. */
  ghost predicate RedBlack(t: Shape) { !IsRed(t) && exists k :: Balanced(t, k) }

  lemma {:induction false} PlugRedBlack(p: Path, s: Shape, k: nat)
    requires Room(p, k) && Balanced(s, k) && (p.Top? || RedHead(p) ==> !IsRed(s))
    ensures RedBlack(Plug(p, s))
    decreases p
  {
    if p.Step? {
      PlugRedBlack(p.up, Above(p, s), if p.red then k else k + 1);
    }
  }

  /** Going down keeps the accounting. */
  lemma RoomDown(p: Path, d: Side, near: Shape, id: nat, red: bool, far: Shape, k: nat)
    requires Room(p, k) && Balanced(Mk(d, near, id, red, far), k)
    requires p.Top? || RedHead(p) ==> !red
    ensures var j := if red then k else k - 1;
      j >= 0 && Room(Step(p, id, red, d, far), j) && Balanced(near, j) && (red ==> !IsRed(near))
  {
  }

  /** The height of a red-black tree is at most twice the logarithm of its size. */
  lemma {:induction false} HeightBound(s: Shape, k: nat)
    requires Balanced(s, k)
    ensures Height(s) <= 2 * k + (if IsRed(s) then 1 else 0)
    ensures |InOrder(s)| + 1 >= Power(k)
  {
    if s.Node? {
      var j := if s.red then k else k - 1;
      HeightBound(s.left, j);
      HeightBound(s.right, j);
    }
  }

  /** So a red-black tree of `n` nodes is at most twice as high as the logarithm of `n + 1`. */
  lemma Shallow(t: Shape)
    requires RedBlack(t)
    ensures Power((Height(t) + 1) / 2) <= |InOrder(t)| + 1
  {
    var k: nat :| Balanced(t, k);
    HeightBound(t, k);
    PowerGrows((Height(t) + 1) / 2, k);
  }

  lemma {:induction false} PowerGrows(j: nat, k: nat)
    requires j <= k
    ensures Power(j) <= Power(k)
  {
    if j < k {
      PowerGrows(j, k - 1);
    }
  }

  function Height(s: Shape): nat {
    if s.Leaf? then 0 else 1 + if Height(s.left) < Height(s.right) then Height(s.right) else Height(s.left)
  }
}
