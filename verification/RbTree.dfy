/**
 * The red-black tree under both shared-memory stores, as it runs: cells linked by left,
 * right and parent fields, rebalanced by recolouring and rotation. Mirrored branches of
 * the source are one branch here, parameterized by the side.
 */
module RbTree {
  import opened Bytes
  import opened RbFacts
  import opened RbOrder
  import opened RbRemove
  import opened RbShape
  import opened RbStep

  class Tree<K(!new)> {
    const less: (K, K) -> bool
    var mem: Memory
    var root: nat
    var key: map<nat, K>
    ghost var shape: Shape

    ghost predicate Linkage()
      reads this
    {
      NIL in mem && !mem[NIL].red && At(Top, shape, mem, root)
    }

    ghost predicate Valid()
      reads this
    {
      Linkage() && RedBlack(shape) && IsOrder(less) && Sorted(Nodes(), key, less)
    }

    /** The nodes from least to greatest. */
    ghost function Nodes(): seq<nat>
      reads this
    {
      InOrder(shape)
    }

    constructor (less: (K, K) -> bool)
      requires IsOrder(less)
      ensures Valid() && this.less == less && Nodes() == []
    {
      this.less := less;
      mem := map[NIL := Cell(NIL, NIL, NIL, false)];
      root := NIL;
      key := map[];
      shape := Leaf;
      new;
      assert Balanced(Leaf, 0);
    }

    /** No node is listed twice, none is the sentinel, and they are in order. */
    lemma NodesOnce()
      requires Valid()
      ensures Sorted(Nodes(), key, less)
      ensures forall i :: multiset(Nodes())[i] <= 1
      ensures NIL !in Nodes()
    {
      hide InOrder, Linked, Bag, Sorted, IsOrder, RedBlack;
      forall i
        ensures multiset(Nodes())[i] <= 1
      {
        CountOnce(shape, mem, root, i);
      }
      InOrderBag(shape);
      NilApart(shape, mem, None);
      assert NIL in Nodes() <==> NIL in multiset(Nodes());
    }

    lemma EmptyExactly()
      requires Valid()
      ensures root == NIL <==> Nodes() == []
    {
      hide At, Sorted, IsOrder, RedBlack;
      FocusCells(Top, shape, mem, root);
      NodeOrder(shape);
    }

    // ----- Field updates -----

    /** Memory realizes the focus, and the sentinel is black. */
    ghost predicate Focused(p: Path, s: Shape)
      reads this
    {
      NIL in mem && !mem[NIL].red && At(p, s, mem, root)
    }

    method SetColor(i: nat, c: bool, ghost p: Path, ghost s: Shape)
      requires Focused(p, s) && s.Node? && s.id == i
      modifies `mem
      ensures Focused(p, Paint(s, c)) && Whole(p, Paint(s, c)) == Whole(p, s)
      ensures mem[NIL] == old(mem[NIL])
    {
      hide At, Whole;
      FocusCells(p, s, mem, root);
      ghost var was := mem;
      mem := mem[i := mem[i].(red := c)];
      RecolorAt(p, s, c, was, mem, root);
    }

    /** Puts `temp` where `x` hangs: at the root, or at its parent's link that points to `x`. */
    method Relink(x: nat, temp: nat, d: Side, ghost p: Path)
      requires x in mem && (p.Top? <==> root == x)
      requires p.Step? ==> mem[x].parent == p.id && p.id in mem && (Kid(mem[p.id], d) == x <==> p.side == d)
      modifies `mem, `root
      ensures root == if p.Top? then temp else old(root)
      ensures mem == if p.Top? then old(mem) else old(mem)[p.id := SetKid(old(mem)[p.id], p.side, temp)]
    {
      if x == root {
        root := temp;
      } else {
        var up := mem[x].parent;
        var side := if x == Kid(mem[up], d) then d else Opp(d);
        mem := mem[up := SetKid(mem[up], side, temp)];
      }
    }

    /** Left rotation for side L, right rotation for side R. */
    method Rotate(x: nat, d: Side, ghost p: Path, ghost near: Shape, ghost rx: bool, ghost mid: Shape,
                  ghost y: nat, ghost ry: bool, ghost far: Shape)
      requires Focused(p, RotateBefore(d, near, x, rx, mid, y, ry, far))
      modifies `mem, `root
      ensures Focused(p, RotateAfter(d, near, x, rx, mid, y, ry, far))
      ensures Whole(p, RotateAfter(d, near, x, rx, mid, y, ry, far))
        == Whole(p, RotateBefore(d, near, x, rx, mid, y, ry, far))
      ensures mem[NIL] == old(mem[NIL])
    {
      hide At, Whole, Mk, Kid, SetKid, Opp;
      ghost var was, top := mem, root;
      RotationCells(p, d, near, x, rx, mid, y, ry, far, mem, root);
      var temp := Kid(mem[x], Opp(d));
      var inner := Kid(mem[temp], d);
      mem := mem[x := SetKid(mem[x], Opp(d), inner)];
      if inner != NIL {
        mem := mem[inner := mem[inner].(parent := x)];
      }
      KeepsRest(was[x], Opp(d), inner);
      mem := mem[temp := mem[temp].(parent := mem[x].parent)];
      ghost var detached := mem;
      Relink(x, temp, d, p);
      ghost var relinked := mem;
      mem := mem[temp := SetKid(mem[temp], d, x)];
      mem := mem[x := mem[x].(parent := temp)];
      RotationMakes(p, d, was, detached, relinked, mem, x, y, mid);
      RotateAt(p, d, was, mem, top, root, near, x, rx, mid, y, ry, far);
    }

    /** Repaints the child on side `d` of the focus. */
    method PaintKid(i: nat, c: bool, ghost p: Path, ghost d: Side, ghost near: Shape, ghost id: nat, ghost red: bool,
                    ghost far: Shape)
      requires Focused(p, Mk(d, near, id, red, far)) && near.Node? && near.id == i
      modifies `mem
      ensures Focused(p, Mk(d, Paint(near, c), id, red, far))
      ensures Whole(p, Mk(d, Paint(near, c), id, red, far)) == Whole(p, Mk(d, near, id, red, far))
      ensures mem[NIL] == old(mem[NIL])
    {
      hide At, Whole, Mk, Paint;
      ghost var q := Step(p, id, red, d, far);
      MoveDown(p, d, near, id, red, far, mem, root);
      SetColor(i, c, q, near);
      MoveUp(q, Paint(near, c), mem, root);
    }

    // ----- Insertion -----

    /** The node `node` is red at the focus, in a tree balanced but for a red parent. */
    ghost predicate Excess(p: Path, s: Shape, k: nat, node: nat)
      reads this
    {
      Focused(p, s) && s.Node? && s.id == node && s.red && Balanced(s, k) && Room(p, k)
    }

    /** Parent, grandparent, the side the parent is on, and the uncle. */
    method Family(node: nat, ghost p: Path, ghost s: Shape) returns (parent: nat, gp: nat, gs: Side, uncle: nat)
      requires Focused(p, s) && s.Node? && s.id == node && p.Step? && p.up.Step?
      ensures parent == p.id && gp == p.up.id && gs == p.up.side && uncle == RootId(p.up.sibling)
      ensures uncle in mem && mem[uncle].red == IsRed(p.up.sibling)
    {
      hide At, Whole, Mk;
      FocusCells(p, s, mem, root);
      parent := mem[node].parent;
      MoveUp(p, s, mem, root);
      MkKid(p.side, s, p.id, p.red, p.sibling);
      FocusCells(p.up, Above(p, s), mem, root);
      FocusApart(p.up, Above(p, s), mem, root);
      gp := mem[parent].parent;
      gs := if parent == mem[gp].left then L else R;
      uncle := Kid(mem[gp], Opp(gs));
      SiblingCells(p.up, Above(p, s), mem, root);
    }

    /** Red uncle: the colours of the family, repainted. */
    method Recolor(parent: nat, uncle: nat, gp: nat, ghost p: Path, ghost s: Shape)
      requires Focused(p, s) && p.Step? && p.up.Step? && p.up.sibling.Node?
      requires parent == p.id && gp == p.up.id && uncle == p.up.sibling.id
      modifies `mem
      ensures var g := Mk(p.up.side, Paint(Above(p, s), false), gp, true, Paint(p.up.sibling, false));
        Focused(p.up.up, g) && Whole(p.up.up, g) == Whole(p, s)
    {
      hide At, Whole, Mk, Paint;
      ghost var q, t, u := p.up, Above(p, s), p.up.sibling;
      MoveUp(p, s, mem, root);
      MkKid(p.side, s, p.id, p.red, p.sibling);
      SetColor(parent, false, q, t);
      MoveUp(q, Paint(t, false), mem, root);
      MkFlip(q.side, Paint(t, false), gp, q.red, u);
      PaintKid(uncle, false, q.up, Opp(q.side), u, gp, q.red, Paint(t, false));
      ghost var g := Mk(Opp(q.side), Paint(u, false), gp, q.red, Paint(t, false));
      MkKid(Opp(q.side), Paint(u, false), gp, q.red, Paint(t, false));
      PaintMk(Opp(q.side), Paint(u, false), gp, q.red, Paint(t, false), true);
      SetColor(gp, true, q.up, g);
      MkFlip(Opp(q.side), Paint(u, false), gp, true, Paint(t, false));
    }

    /** Black uncle: after this, `node` is the outer one of two red nodes in a row. */
    method Straighten(node: nat, parent: nat, gs: Side, ghost p: Path, ghost s: Shape, ghost k: nat)
        returns (outer: nat, ghost n: Shape, ghost b: nat, ghost o: Shape)
      requires Excess(p, s, k, node) && p.Step? && p.red && parent == p.id
      modifies `mem, `root
      ensures Focused(p.up, Mk(gs, n, b, true, o)) && Whole(p.up, Mk(gs, n, b, true, o)) == Whole(p, s)
      ensures n.Node? && n.id == outer && n.red && Balanced(n, k) && Balanced(o, k) && !IsRed(o)
    {
      hide At, Whole, Mk, Balanced, Room;
      outer, n, b, o := node, s, p.id, p.sibling;
      RoomStep(p, k);
      FocusCells(p, s, mem, root);
      FocusApart(p, s, mem, root);
      MoveUp(p, s, mem, root);
      if node == Kid(mem[parent], Opp(gs)) {
        ghost var mid, far := KidShape(s, gs), KidShape(s, Opp(gs));
        outer := parent;
        AsMk(s, gs);
        BalancedMk(gs, mid, node, true, far, k);
        MkFlip(p.side, s, p.id, true, p.sibling);
        Rotate(outer, gs, p.up, p.sibling, true, mid, node, true, far);
        n, b, o := Mk(gs, p.sibling, parent, true, mid), node, far;
        BalancedMk(gs, p.sibling, parent, true, mid, k);
        MkKid(gs, p.sibling, parent, true, mid);
      }
    }

    /** Two red nodes in a row on one side: the grandparent rotates down to the other side. */
    method Turn(outer: nat, gs: Side, ghost p: Path, ghost n: Shape, ghost b: nat, ghost o: Shape, ghost g: nat,
                ghost u: Shape)
      requires Focused(p, Mk(gs, Mk(gs, n, b, true, o), g, false, u)) && n.Node? && n.id == outer
      modifies `mem, `root
      ensures Focused(Step(p, b, false, gs, Mk(gs, o, g, true, u)), n)
      ensures Whole(Step(p, b, false, gs, Mk(gs, o, g, true, u)), n)
        == Whole(p, Mk(gs, Mk(gs, n, b, true, o), g, false, u))
    {
      hide At, Whole, Mk, Paint;
      ghost var t, t' := Mk(gs, n, b, true, o), Mk(gs, n, b, false, o);
      MkKid(gs, n, b, true, o);
      PaintMk(gs, n, b, true, o, false);
      ParentIs(p, gs, t, g, false, u, mem, root);
      ParentIs(Step(p, g, false, gs, u), gs, n, b, true, o, mem, root);
      var parent := mem[outer].parent;
      PaintKid(parent, false, p, gs, t, g, false, u);
      ParentIs(p, gs, t', g, false, u, mem, root);
      ParentIs(Step(p, g, false, gs, u), gs, n, b, false, o, mem, root);
      MkKid(gs, n, b, false, o);
      var gp := mem[mem[outer].parent].parent;
      MkKid(gs, t', g, false, u);
      PaintMk(gs, t', g, false, u, true);
      SetColor(gp, true, p, Mk(gs, t', g, false, u));
      MkFlip(gs, n, b, false, o);
      MkFlip(gs, t', g, true, u);
      Rotate(gp, Opp(gs), p, u, true, o, b, false, n);
      MkFlip(Opp(gs), u, g, true, o);
      MkFlip(Opp(gs), Mk(Opp(gs), u, g, true, o), b, false, n);
      MoveDown(p, gs, n, b, false, Mk(gs, o, g, true, u), mem, root);
    }

    /** Restores balance after a red leaf was linked at the focus. */
    method InsertFixup(start: nat, ghost p0: Path, ghost s0: Shape)
      requires Excess(p0, s0, 0, start)
      modifies `mem, `root, `shape
      ensures Linkage() && RedBlack(shape) && Nodes() == Whole(p0, s0)
    {
      hide At, Whole, Mk, Balanced, Room, Paint, RedBlack;
      var node := start;
      ghost var p, s, k := p0, s0, 0;
      FocusNode(p, s, mem, root);
      while node != root && mem[mem[node].parent].red
        invariant Excess(p, s, k, node) && Whole(p, s) == Whole(p0, s0)
        invariant node in mem && (node != root <==> p.Step?)
        invariant p.Step? ==> mem[node].parent == p.id && p.id in mem && mem[p.id].red == p.red
        decreases PathLength(p)
      {
        RoomStep(p, k);
        RoomStep(p.up, k);
        MkKid(p.side, s, p.id, p.red, p.sibling);
        assert PathLength(p) == 1 + PathLength(p.up) == 2 + PathLength(p.up.up);
        var parent, gp, gs, temp := Family(node, p, s);
        if mem[temp].red {
          RecolorRestores(p, s, k);
          Recolor(parent, temp, gp, p, s);
          node := gp;
          MkKid(gs, Paint(Above(p, s), false), gp, true, Paint(p.up.sibling, false));
          s := Mk(gs, Paint(Above(p, s), false), gp, true, Paint(p.up.sibling, false));
          p, k := p.up.up, k + 1;
        } else {
          var outer, n, b, o := Straighten(node, parent, gs, p, s, k);
          ghost var u, up := p.up.sibling, p.up.up;
          MoveUp(p.up, Mk(gs, n, b, true, o), mem, root);
          Turn(outer, gs, up, n, b, o, gp, u);
          TurnRestores(up, gs, n, b, o, gp, u, k);
          node, s, p := outer, n, Step(up, b, false, gs, Mk(gs, o, gp, true, u));
        }
        FocusNode(p, s, mem, root);
      }
      FinishInsert(p, s, k, node);
    }

    /** The root is painted black. */
    method FinishInsert(ghost p: Path, ghost s: Shape, ghost k: nat, ghost node: nat)
      requires Excess(p, s, k, node) && (p.Top? || !p.red)
      modifies `mem, `shape
      ensures Linkage() && RedBlack(shape) && Nodes() == Whole(p, s)
    {
      hide At, Whole, Mk, Balanced, Room;
      Close(p, s, mem, root);
      shape := Plug(p, s);
      if p.Top? {
        PaintBlack(s, k);
      } else {
        PlugRedBlack(p, s, k);
      }
      FocusCells(Top, shape, mem, root);
      RootShape(p, s);
      SetColor(root, false, Top, shape);
      PaintKeeps(shape, false);
      shape := Paint(shape, false);
    }

    /** The empty place a new key belongs in: below `temp` on side `d`. */
    method Descend(k: K) returns (temp: nat, d: Side, ghost p: Path)
      requires Valid() && root != NIL
      ensures Focused(p, Leaf) && p.Step? && p.id == temp && p.side == d && Room(p, 0)
      ensures Before(p) + After(p) == Nodes()
      ensures NoneAbove(Before(p), key, k, less) && AllAbove(After(p), key, k, less)
    {
      hide At, Whole, Balanced, Room, Mk, RedBlack, Sorted, IsOrder, NoneAbove, AllAbove;
      temp, p := root, Top;
      ghost var s, h := shape, BlackHeight(shape);
      StartDown(shape, mem, root, key, k, less);
      while true
        invariant Focused(p, s) && s.Node? && s.id == temp && Roomy(p, s, h) && Whole(p, s) == Nodes()
        invariant NoneAbove(Before(p), key, k, less) && AllAbove(After(p), key, k, less)
        decreases s
      {
        TurnSide(p, s, key, k, less);
        FocusCells(p, s, mem, root);
        d := if less(k, key[temp]) then L else R;
        var next := Kid(mem[temp], d);
        ghost var near, far := KidShape(s, d), KidShape(s, Opp(d));
        AsMk(s, d);
        RoomDown(p, d, near, temp, s.red, far, h);
        MoveDown(p, d, near, temp, s.red, far, mem, root);
        p, h := Step(p, temp, s.red, d, far), if s.red then h else h - 1;
        s := near;
        if next == NIL {
          LeafWhole(p, s, h, mem, root);
          return;
        }
        temp := next;
        NodeAt(p, s, mem, root);
      }
    }

    /** Inserts a node under a key: it goes after every node whose key is not greater. */
    method Insert(id: nat, k: K)
      requires Valid() && id != NIL && id !in Nodes()
      modifies this
      ensures Valid() && key == old(key)[id := k]
      ensures Nodes() == InsertAt(old(Nodes()), Place(old(Nodes()), old(key), k, less), id)
    {
      hide At, Whole, Balanced, Room, RedBlack, Sorted, IsOrder, NoneAbove, AllAbove, Fresh;
      ghost var was, nodes := key, Nodes();
      if root == NIL {
        EmptyTree(shape, mem);
        mem := mem[id := Cell(NIL, NIL, NIL, false)];
        root := id;
        shape := Node(Leaf, id, false, Leaf);
        SingleTree(id, mem);
        NothingThere(was, k, less);
        InsertSorted([], [], id, was, k, less);
        assert nodes == [] && [] + [id] + [] == [id];
        key := key[id := k];
      } else {
        var temp, d, p := Descend(k);
        InsertSorted(Before(p), After(p), id, was, k, less);
        PathOnly(p, id);
        FocusCells(p, Leaf, mem, root);
        ghost var m := mem;
        mem := mem[id := Cell(NIL, NIL, temp, true)];
        mem := mem[temp := SetKid(mem[temp], d, id)];
        key := key[id := k];
        LinkAt(p, m, mem, root, id);
        FreshBalanced(id);
        InsertFixup(id, p, Fresh(id));
      }
    }

    // ----- Search -----

    /** The node stored under `k`, or the sentinel when there is none. */
    method Find(k: K) returns (node: nat)
      requires Valid()
      ensures node != NIL ==> node in Nodes() && node in key && !less(k, key[node]) && !less(key[node], k)
      ensures node == NIL ==> forall i :: i in Nodes() ==> i in key && (less(k, key[i]) || less(key[i], k))
    {
      hide At, Whole, Sorted, IsOrder, NoneAbove, AllAbove, InOrder;
      node := root;
      ghost var p, s := Top, shape;
      WholeTop(shape);
      FocusCells(p, s, mem, root);
      NothingBeside(key, k, less);
      while node != NIL
        invariant At(p, s, mem, root) && RootId(s) == node && Whole(p, s) == Nodes()
        invariant node != NIL ==> s.Node?
        invariant node == NIL ==> s.Leaf?
        invariant AllBelow(Before(p), key, k, less) && AllAbove(After(p), key, k, less)
        decreases s
      {
        SearchStep(p, s, key, k, less);
        FocusCells(p, s, mem, root);
        if less(k, key[node]) {
          AsMk(s, L);
          MoveDown(p, L, s.left, node, s.red, s.right, mem, root);
          node := mem[node].left;
          p, s := Step(p, s.id, s.red, L, s.right), s.left;
        } else if less(key[node], k) {
          AsMk(s, R);
          MoveDown(p, R, s.right, node, s.red, s.left, mem, root);
          node := mem[node].right;
          p, s := Step(p, s.id, s.red, R, s.left), s.right;
        } else {
          return;
        }
        FocusCells(p, s, mem, root);
      }
      SearchedAll(p, s, key, k, less);
    }

    /** The node with the least key. */
    method First() returns (node: nat)
      requires Valid() && root != NIL
      ensures Nodes() != [] && node == Nodes()[0]
    {
      hide At, InOrder, Sorted, IsOrder, RedBlack;
      FocusCells(Top, shape, mem, root);
      WholeTop(shape);
      node := Min(root, Top, shape);
      DropMinOrder(shape);
    }

    /** The first node in order with a property, or the sentinel: a plain recursive walk. */
    method FirstWhere(node: nat, ok: nat -> bool, ghost p: Path, ghost s: Shape) returns (r: nat)
      requires At(p, s, mem, root) && RootId(s) == node && NIL !in Bag(s)
      ensures IsFirst(InOrder(s), ok, r)
      decreases s
    {
      hide At, InOrder, IsFirst, Bag;
      if node == NIL {
        LeafOf(s);
        return NIL;
      }
      FocusCells(p, s, mem, root);
      WalkDown(p, s, mem, root);
      r := FirstWhere(mem[node].left, ok, Step(p, s.id, s.red, L, s.right), s.left);
      if r != NIL {
        FirstLeft(s, ok, r);
        return;
      }
      if ok(node) {
        FirstHere(s, ok);
        return node;
      }
      r := FirstWhere(mem[node].right, ok, Step(p, s.id, s.red, R, s.left), s.right);
      FirstRight(s, ok, r);
    }

    /** The walk over the whole tree. */
    method FirstOf(ok: nat -> bool) returns (r: nat)
      requires Valid()
      ensures IsFirst(Nodes(), ok, r)
    {
      hide At, InOrder, IsFirst, Bag, Sorted, IsOrder, RedBlack;
      FocusCells(Top, shape, mem, root);
      WholeNil(shape, mem, root);
      r := FirstWhere(root, ok, Top, shape);
    }

    // ----- Deletion -----

    /** The subtree at the focus is one black short, and `temp` stands at its root. */
    ghost predicate Deficit(p: Path, s: Shape, k: nat, temp: nat)
      reads this
    {
      && Focused(p, s) && RootId(s) == temp && Short(s, k)
      && (p.Step? ==> Room(p, k + 1) && mem[temp].parent == p.id)
      && (p.Top? ==> s.Node?)
    }

    /** A red sibling is rotated above the parent; the new sibling is black. */
    method LowerSibling(parent: nat, w: nat, d: Side, ghost up: Path, ghost s: Shape, ghost pred: bool,
                        ghost sib: Shape,
                        ghost k: nat) returns (ghost wn: Shape)
      requires Focused(up, Mk(d, s, parent, pred, sib)) && sib.Node? && sib.id == w && sib.red
      requires Room(Step(up, parent, pred, d, sib), k + 1)
      modifies `mem, `root
      ensures var q := Step(Step(up, w, false, d, KidShape(sib, Opp(d))), parent, true, d, wn);
        Focused(q, s) && Whole(q, s) == Whole(Step(up, parent, pred, d, sib), s) && Room(q, k + 1) && !IsRed(wn)
      ensures mem[NIL] == old(mem[NIL])
    {
      hide At, Whole, Mk, Balanced, Room, Paint;
      wn := KidShape(sib, d);
      ghost var wf, sib' := KidShape(sib, Opp(d)), Paint(sib, false);
      AsMk(sib, d);
      RedSibling(up, parent, pred, d, wn, w, wf, k);
      MkFlip(d, s, parent, pred, sib);
      StepWhole(Step(up, parent, pred, d, sib), s);
      PaintKid(w, false, up, Opp(d), sib, parent, pred, s);
      PaintMk(d, wn, w, true, wf, false);
      MkFlip(d, s, parent, pred, sib');
      MkKid(d, s, parent, pred, sib');
      PaintMk(d, s, parent, pred, sib', true);
      SetColor(parent, true, up, Mk(d, s, parent, pred, sib'));
      Rotate(parent, d, up, s, true, wn, w, false, wf);
      MoveDown(up, d, Mk(d, s, parent, true, wn), w, false, wf, mem, root);
      MoveDown(Step(up, w, false, d, wf), d, s, parent, true, wn, mem, root);
    }

    /** A black sibling whose far child is black: it turns until its far child is red. */
    method TurnSibling(parent: nat, w0: nat, d: Side, ghost p: Path, ghost s: Shape, ghost k: nat)
        returns (w: nat, ghost sib: Shape)
      requires Focused(p, s) && p.Step? && p.id == parent && p.side == d
      requires p.sibling.Node? && p.sibling.id == w0 && !p.sibling.red && Balanced(p.sibling, k + 1)
      requires IsRed(KidShape(p.sibling, d)) || IsRed(KidShape(p.sibling, Opp(d)))
      modifies `mem, `root
      ensures Focused(Step(p.up, parent, p.red, d, sib), s)
      ensures Whole(Step(p.up, parent, p.red, d, sib), s) == Whole(p, s)
      ensures sib.Node? && sib.id == w && !sib.red && IsRed(KidShape(sib, Opp(d))) && Balanced(sib, k + 1)
      ensures mem[NIL] == old(mem[NIL])
    {
      hide At, Whole, Mk, Balanced, Paint;
      w, sib := w0, p.sibling;
      SiblingKids(p, s, d, mem, root);
      if !mem[Kid(mem[w], Opp(d))].red {
        ghost var n, wf := KidShape(sib, d), KidShape(sib, Opp(d));
        ghost var nn, nf, t := KidShape(n, d), KidShape(n, Opp(d)), Above(p, s);
        ghost var q := Step(p.up, parent, p.red, Opp(d), s);
        AsMk(sib, d);
        AsMk(n, d);
        MoveUp(p, s, mem, root);
        MoveFar(p.up, d, s, parent, p.red, sib, mem, root);
        NearTurns(d, nn, n.id, nf, w, wf, k);
        PaintKid(Kid(mem[w], d), false, q, d, n, w, false, wf);
        PaintMk(d, nn, n.id, true, nf, false);
        ghost var n' := Mk(d, nn, n.id, false, nf);
        MkKid(d, n', w, false, wf);
        PaintMk(d, n', w, false, wf, true);
        SetColor(w, true, q, Mk(d, n', w, false, wf));
        MkFlip(d, nn, n.id, false, nf);
        MkFlip(d, n', w, true, wf);
        Rotate(w, Opp(d), q, wf, true, nf, n.id, false, nn);
        MkFlip(d, nf, w, true, wf);
        sib := Mk(d, nn, n.id, false, Mk(d, nf, w, true, wf));
        MkFlip(d, nn, n.id, false, Mk(d, nf, w, true, wf));
        MkKid(d, nn, n.id, false, Mk(d, nf, w, true, wf));
        MkKid(d, nf, w, true, wf);
        MoveUp(q, sib, mem, root);
        MkFlip(d, s, parent, p.red, sib);
        MoveDown(p.up, d, s, parent, p.red, sib, mem, root);
        FocusMk(p.up, d, s, parent, p.red, sib, mem, root);
        w := Kid(mem[parent], Opp(d));
      }
    }

    /** A black sibling with a red far child takes the parent's place and colour: the debt is paid. */
    method RaiseSibling(parent: nat, w: nat, d: Side, ghost up: Path, ghost s: Shape, ghost pred: bool,
                        ghost sib: Shape,
                        ghost k: nat)
      requires Focused(up, Mk(d, s, parent, pred, sib)) && sib.Node? && sib.id == w && !sib.red
      requires Room(Step(up, parent, pred, d, sib), k + 1) && Balanced(s, k) && !IsRed(s)
        && IsRed(KidShape(sib, Opp(d)))
      modifies `mem, `root, `shape
      ensures Linkage() && RedBlack(shape) && Nodes() == Whole(up, Mk(d, s, parent, pred, sib))
    {
      hide At, Whole, Mk, Balanced, Room, Paint, RedBlack;
      ghost var wn, wf := KidShape(sib, d), KidShape(sib, Opp(d));
      ghost var sib' := Mk(d, wn, w, pred, wf);
      AsMk(sib, d);
      PaintMk(d, wn, w, false, wf, pred);
      MkKid(d, wn, w, pred, wf);
      MkKid(d, s, parent, pred, sib);
      FocusCells(up, Mk(d, s, parent, pred, sib), mem, root);
      MkFlip(d, s, parent, pred, sib);
      PaintKid(w, mem[parent].red, up, Opp(d), sib, parent, pred, s);
      MkFlip(d, s, parent, pred, sib');
      MkKid(d, s, parent, pred, sib');
      PaintMk(d, s, parent, pred, sib', false);
      SetColor(parent, false, up, Mk(d, s, parent, pred, sib'));
      ghost var q := Step(up, parent, false, Opp(d), s);
      MoveFar(up, d, s, parent, false, sib', mem, root);
      FocusMk(q, d, wn, w, pred, wf, mem, root);
      MkFlip(d, wn, w, pred, wf);
      PaintKid(Kid(mem[w], Opp(d)), false, q, Opp(d), wf, w, pred, wn);
      MkFlip(d, wn, w, pred, Paint(wf, false));
      ghost var sib'' := Mk(d, wn, w, pred, Paint(wf, false));
      MoveUp(q, sib'', mem, root);
      MkFlip(d, s, parent, false, sib'');
      Rotate(parent, d, up, s, false, wn, w, pred, Paint(wf, false));
      ghost var t := Mk(d, Mk(d, s, parent, false, wn), w, pred, Paint(wf, false));
      ghost var j := DebtPaid(up, s, parent, pred, d, wn, w, wf, k);
      Close(up, t, mem, root);
      PlugRedBlack(up, t, j);
      shape := Plug(up, t);
    }

    /** Finds the sibling, and makes it black if it is red. */
    method BlackSibling(temp: nat, parent: nat, d: Side, ghost p: Path, ghost s: Shape, ghost k: nat)
        returns (w: nat, ghost q: Path)
      requires Deficit(p, s, k, temp) && p.Step? && p.id == parent && p.side == d
      modifies `mem, `root
      ensures Deficit(q, s, k, temp) && Whole(q, s) == Whole(p, s)
      ensures q.Step? && q.id == parent && q.side == d && q.sibling.Node? && !q.sibling.red && q.sibling.id == w
      ensures q.red || PathLength(q) == PathLength(p)
    {
      hide At, Whole, Mk, Balanced, Room, Short;
      q := p;
      SiblingThere(p, k);
      SideOf(p, s, mem, root);
      w := Kid(mem[parent], Opp(d));
      SiblingCells(p, s, mem, root);
      if mem[w].red {
        ghost var sib := p.sibling;
        MoveUp(p, s, mem, root);
        ghost var wn := LowerSibling(parent, w, d, p.up, s, p.red, sib, k);
        q := Step(Step(p.up, w, false, d, KidShape(sib, Opp(d))), parent, true, d, wn);
        SiblingThere(q, k);
        SideOf(q, s, mem, root);
        w := Kid(mem[parent], Opp(d));
        FocusCells(q, s, mem, root);
      }
    }

    /** The sibling turns red, and the focus moves to the parent. */
    method PassDebt(w: nat, d: Side, ghost p: Path, ghost s: Shape)
      requires Focused(p, s) && p.Step? && p.side == d && p.sibling.Node? && p.sibling.id == w
      requires s.Leaf? ==> mem[NIL].parent == p.id
      modifies `mem
      ensures var t := Mk(d, s, p.id, p.red, Paint(p.sibling, true));
        Focused(p.up, t) && Whole(p.up, t) == Whole(p, s) && (p.up.Step? ==> p.id in mem && mem[p.id].parent == p.up.id)
      ensures RootId(s) in mem && mem[RootId(s)].parent == p.id
    {
      hide At, Whole, Mk, Paint;
      ghost var sib := p.sibling;
      MoveUp(p, s, mem, root);
      MkFlip(d, s, p.id, p.red, sib);
      PaintKid(w, true, p.up, Opp(d), sib, p.id, p.red, s);
      MkFlip(d, s, p.id, p.red, Paint(sib, true));
      FocusMk(p.up, d, s, p.id, p.red, Paint(sib, true), mem, root);
      ParentIs(p.up, d, s, p.id, p.red, Paint(sib, true), mem, root);
    }

    /** The last step: a red root of the short subtree, or the tree's own root, turns black. */
    method FinishDelete(temp: nat, ghost p: Path, ghost s: Shape, ghost k: nat)
      requires Deficit(p, s, k, temp) && (p.Top? || IsRed(s)) && temp in mem
      modifies `mem, `root, `shape
      ensures Linkage() && RedBlack(shape) && Nodes() == Whole(p, s)
    {
      hide At, Whole, Mk, Balanced, Room;
      SetColor(temp, false, p, s);
      Close(p, Paint(s, false), mem, root);
      PlugRedBlack(p, Paint(s, false), if IsRed(s) then k + 1 else k);
      shape := Plug(p, Paint(s, false));
    }

    /** Moves the missing black up until it can be made up. */
    method DeleteFixup(start: nat, ghost p0: Path, ghost s0: Shape, ghost k0: nat)
      requires Deficit(p0, s0, k0, start)
      modifies `mem, `root, `shape
      ensures Linkage() && RedBlack(shape) && Nodes() == Whole(p0, s0)
    {
      hide At, Whole, Mk, Balanced, Room, Paint, RedBlack;
      var temp := start;
      ghost var p, s, k := p0, s0, k0;
      TempCells(p, s, mem, root);
      while temp != root && !mem[temp].red
        invariant Deficit(p, s, k, temp) && Whole(p, s) == Whole(p0, s0)
        invariant temp in mem && mem[temp].red == IsRed(s) && (p.Step? <==> temp != root)
        decreases if IsRed(s) then 0 else 1 + PathLength(p)
      {
        var parent := mem[temp].parent;
        SiblingThere(p, k);
        SideOf(p, s, mem, root);
        var d := if temp == Kid(mem[parent], L) then L else R;
        var w;
        w, p := BlackSibling(temp, parent, d, p, s, k);
        SiblingKids(p, s, d, mem, root);
        RoomStep(p, k + 1);
        AsMk(p.sibling, d);
        if !mem[Kid(mem[w], d)].red && !mem[Kid(mem[w], Opp(d))].red {
          k := DebtMovesUp(p.up, s, parent, p.red, d, KidShape(p.sibling, d), w, KidShape(p.sibling, Opp(d)), k);
          PaintMk(d, KidShape(p.sibling, d), w, false, KidShape(p.sibling, Opp(d)), true);
          MkKid(d, s, parent, p.red, Paint(p.sibling, true));
          PassDebt(w, d, p, s);
          temp := mem[temp].parent;
          s, p := Mk(d, s, parent, p.red, Paint(p.sibling, true)), p.up;
        } else {
          ghost var sib;
          w, sib := TurnSibling(parent, w, d, p, s, k);
          p := Step(p.up, parent, p.red, d, sib);
          MoveUp(p, s, mem, root);
          RoomStep(p, k + 1);
          RaiseSibling(parent, w, d, p.up, s, p.red, sib, k);
          return;
        }
        TempCells(p, s, mem, root);
      }
      FinishDelete(temp, p, s, k);
    }
    /** The leftmost node of a subtree. */
    method Min(start: nat, ghost p: Path, ghost s: Shape) returns (node: nat)
      requires Focused(p, s) && s.Node? && s.id == start
      ensures node == MinShape(s).id && At(MinPath(p, s), MinShape(s), mem, root)
      ensures Whole(MinPath(p, s), MinShape(s)) == Whole(p, s)
    {
      hide At, Whole;
      node := start;
      ghost var q, t := p, s;
      FocusCells(q, t, mem, root);
      ToMin(p, s, mem, root);
      while mem[node].left != NIL
        invariant At(q, t, mem, root) && t.Node? && t.id == node && node in mem && mem[node].left == RootId(t.left)
        invariant MinShape(t) == MinShape(s)
        decreases t
      {
        node := mem[node].left;
        AsMk(t, L);
        MoveDown(q, L, t.left, t.id, t.red, t.right, mem, root);
        q, t := Step(q, t.id, t.red, L, t.right), t.left;
        NodeAt(q, t, mem, root);
        FocusCells(q, t, mem, root);
      }
      MinWhenNoLeft(q, t, mem, root);
    }

    /** What remains after the splice: nothing to do under a red node, a black to make up otherwise. */
    method Settle(red: bool, temp: nat, ghost q: Path, ghost t: Shape, ghost d: Side, ghost x: nat, ghost j: nat)
      requires Focused(q, t) && q.Step? && RootId(t) == temp && temp in mem && mem[temp].parent == q.id
      requires Roomy(q, Mk(d, Leaf, x, red, t), j)
      modifies `mem, `root, `shape
      ensures Linkage() && RedBlack(shape) && Nodes() == Whole(q, t)
    {
      hide At, Whole, Mk, Balanced, Room, Short, Roomy;
      if red {
        RedLeaves(q, d, t, x, j);
        CloseRoomy(q, t, mem, root, j);
        shape := Plug(q, t);
      } else {
        BlackLeaves(q, d, t, x, j);
        DeleteFixup(temp, q, t, j - 1);
      }
    }

    /** Removes a root with no child on side `d`. */
    method DeleteRoot(node: nat, temp: nat, ghost d: Side, ghost r: bool, ghost t: Shape, ghost k: nat)
      requires Focused(Top, Mk(d, Leaf, node, r, t)) && RootId(t) == temp && Roomy(Top, Mk(d, Leaf, node, r, t), k)
      requires temp in mem
      modifies `mem, `root, `shape
      ensures Linkage() && RedBlack(shape) && Nodes() == Whole(Top, t)
    {
      hide At, Whole, Mk, Balanced, Room, Roomy, RedBlack;
      ghost var m, top := mem, root;
      root := temp;
      mem := mem[temp := mem[temp].(red := false)];
      mem := mem - {node};
      shape := RootSpliced(d, t, node, r, m, mem, top, k);
      WholeTop(t);
    }

    /** Removes another node with no child on side `d`. */
    method DeleteOne(node: nat, temp: nat, ghost p: Path, ghost d: Side, ghost r: bool, ghost t: Shape, ghost k: nat)
      requires Focused(p, Mk(d, Leaf, node, r, t)) && RootId(t) == temp && Roomy(p, Mk(d, Leaf, node, r, t), k)
      requires node != root
      modifies `mem, `root, `shape
      ensures Linkage() && RedBlack(shape) && Nodes() == Whole(p, t)
    {
      hide At, Whole, Mk, Balanced, Room, Roomy, Spliced, RedBlack, SetKid;
      ghost var m := mem;
      FocusMk(p, d, Leaf, node, r, t, mem, root);
      TempThere(p, d, node, r, t, mem, root);
      var red, up := mem[node].red, mem[node].parent;
      SideLinks(p, mem[p.id], node);
      Relink(node, temp, L, p);
      mem := mem[temp := mem[temp].(parent := up)];
      mem := mem - {node};
      SpliceCells(p, d, node, r, t, m, mem, root);
      SpliceAt(p, d, t, node, r, m, mem, root);
      Settle(red, temp, p, t, d, node, k);
    }

    /** `subst` takes the place, the links and the colour of `node`, which is released. */
    method Transplant(node: nat, subst: nat, ghost m1: Memory, ghost p: Path, ghost l: Shape, ghost red: bool,
                      ghost r: Shape)
      requires NIL in mem && !mem[NIL].red && NIL in m1 && At(p, Node(l, node, red, r), m1, root)
      requires subst != NIL && subst != node && subst in mem && subst !in PathBag(p) && subst !in Bag(l)
        && subst !in Bag(r)
      requires ButOneParent(m1, mem, RootId(r))
      modifies `mem, `root
      ensures Focused(p, Node(l, subst, red, r)) && mem[NIL] == old(mem[NIL])
      ensures Whole(p, Node(l, subst, red, r)) == Before(p) + InOrder(l) + [subst] + InOrder(r) + After(p)
    {
      hide At, Whole, SetKid, Bag, PathBag, Transplanted, Before, After, InOrder, ButOneParent;
      ghost var m, top := mem, root;
      AroundAt(p, l, node, red, r, m1, root, subst);
      AgreeAround(p, l, node, r, m1, mem, root, subst);
      mem := mem[subst := Cell(mem[node].left, mem[node].right, mem[node].parent, mem[node].red)];
      ghost var m2 := mem;
      Relink(node, subst, L, p);
      ghost var m3 := mem;
      if mem[subst].left != NIL {
        mem := mem[mem[subst].left := mem[mem[subst].left].(parent := subst)];
      }
      if mem[subst].right != NIL {
        mem := mem[mem[subst].right := mem[mem[subst].right].(parent := subst)];
      }
      mem := mem - {node};
      TransplantMakes(p, l, node, red, r, subst, m1, m, m2, m3, mem, top);
      TransplantAt(p, l, node, red, r, subst, m1, mem, top, root);
    }

    /** Removes a node with two children: its successor is spliced out and takes its place. */
    method DeleteTwo(node: nat, ghost p: Path, ghost l: Shape, ghost c: bool, ghost r: Shape, ghost k: nat)
      requires Focused(p, Node(l, node, c, r)) && r.Node? && Roomy(p, Node(l, node, c, r), k)
      modifies `mem, `root, `shape
      ensures Linkage() && RedBlack(shape)
      ensures Nodes() == Before(p) + InOrder(l) + [MinShape(r).id] + InOrder(DropMin(r)) + After(p)
    {
      hide At, Whole, Balanced, Room, Roomy, Spliced, RedBlack, SetKid, Bag, PathBag, ButOneParent, InOrder, Before,
        After;
      ghost var q, q', t := Step(p, node, c, R, l), MinPath(Step(p, node, c, R, l), r), MinShape(r).right;
      FocusCells(p, Node(l, node, c, r), mem, root);
      MoveDown(p, R, r, node, c, l, mem, root);
      var subst := Min(mem[node].right, q, r);
      ghost var m := mem;
      AsMk(MinShape(r), L);
      MinHead(q, r, Step(p, MinShape(r).id, c, R, l));
      FocusMk(q', L, Leaf, subst, MinShape(r).red, t, mem, root);
      TempThere(q', L, subst, MinShape(r).red, t, mem, root);
      SideLinks(q', mem[q'.id], subst);
      var temp, red, up := mem[subst].right, mem[subst].red, mem[subst].parent;
      Relink(subst, temp, L, q');
      mem := mem[temp := mem[temp].(parent := if up == node then subst else up)];
      ghost var m1 := Unspliced(p, l, node, c, r, m, root);
      RightChild(p, l, node, c, r, m, root);
      KidsInMemory(p, l, node, c, DropMin(r), m1, root);
      SplicedAlike(q', temp, node, subst, RootId(DropMin(r)), m, m1, mem);
      Transplant(node, subst, m1, p, l, c, DropMin(r));
      SettleTwo(red, temp, p, l, c, r, subst, node, k);
    }

    /** After the successor took the place: settles the balance below. */
    method SettleTwo(red: bool, temp: nat, ghost p: Path, ghost l: Shape, ghost c: bool, ghost r: Shape,
                     ghost subst: nat, ghost node: nat, ghost k: nat)
      requires r.Node? && Focused(p, Node(l, subst, c, DropMin(r))) && Roomy(p, Node(l, node, c, r), k)
      requires MinShape(r).id == subst && MinShape(r).red == red && RootId(MinShape(r).right) == temp
      requires var q := MinPath(Step(p, subst, c, R, l), r);
        q.Step? && (temp == NIL ==> mem[NIL].parent == q.id)
      modifies `mem, `root, `shape
      ensures Linkage() && RedBlack(shape) && Nodes() == Whole(p, Node(l, subst, c, DropMin(r)))
    {
      hide At, Whole, Balanced, Room, Roomy, RedBlack, Bag, PathBag;
      ghost var q := Step(p, subst, c, R, l);
      ghost var q' := MinPath(q, r);
      MoveDown(p, R, DropMin(r), subst, c, l, mem, root);
      ToDropped(q, r, mem, root);
      RenameRoom(p, l, node, subst, c, r, k);
      ghost var j := RoomyMin(q, r, if c then k else k - 1);
      AsMk(MinShape(r), L);
      FocusCells(q', MinShape(r).right, mem, root);
      Settle(red, temp, q', MinShape(r).right, L, subst, j);
    }

    /** Removes a node: the others keep their order. */
    method Delete(node: nat)
      requires Valid() && node in Nodes()
      modifies this
      ensures Valid() && key == old(key) - {node}
      ensures Cut(old(Nodes()), node, Nodes())
      ensures forall i :: i in Nodes() <==> i in old(Nodes()) && i != node
    {
      hide At, Whole, Roomy, RedBlack, Sorted, IsOrder, Cut, InOrder, Bag, Balanced, Room;
      ghost var was := Nodes();
      InOrderBag(shape);
      ghost var p, s, k := StartAt(shape, mem, root, node);
      CountOnce(shape, mem, root, node);
      Unlink(node, p, s, k);
      CutSorted(was, node, Nodes(), key, less);
      CutHas(was, node, Nodes());
      key := key - {node};
    }

    /** Takes the focused node out of the tree. */
    method Unlink(node: nat, ghost p: Path, ghost s: Shape, ghost k: nat)
      requires Focused(p, s) && s.Node? && s.id == node && Roomy(p, s, k)
      modifies `mem, `root, `shape
      ensures Linkage() && RedBlack(shape) && Cut(Whole(p, s), node, Nodes())
    {
      hide At, Whole, Balanced, Room, Roomy, RedBlack, Cut, InOrder, Mk, Before, After;
      FocusCells(p, s, mem, root);
      AsMk(s, L);
      if mem[node].left == NIL {
        NoKid(p, s, L, mem, root);
        SpliceWhole(p, L, s.right, node, s.red);
        DeleteEither(node, mem[node].right, p, L, s.red, s.right, k);
      } else if mem[node].right == NIL {
        NoKid(p, s, R, mem, root);
        SpliceWhole(p, R, s.left, node, s.red);
        DeleteEither(node, mem[node].left, p, R, s.red, s.left, k);
      } else {
        CutTwo(p, s.left, node, s.red, s.right);
        DeleteTwo(node, p, s.left, s.red, s.right, k);
      }
    }

    /** Removes a node with no child on side `d`, whether it is the root or not. */
    method DeleteEither(node: nat, temp: nat, ghost p: Path, ghost d: Side, ghost r: bool, ghost t: Shape, ghost k: nat)
      requires Focused(p, Mk(d, Leaf, node, r, t)) && RootId(t) == temp && Roomy(p, Mk(d, Leaf, node, r, t), k)
      modifies `mem, `root, `shape
      ensures Linkage() && RedBlack(shape) && Nodes() == Whole(p, t)
    {
      hide At, Whole, Mk, Balanced, Room, Roomy, RedBlack;
      FocusMk(p, d, Leaf, node, r, t, mem, root);
      TempThere(p, d, node, r, t, mem, root);
      if node == root {
        DeleteRoot(node, temp, d, r, t, k);
      } else {
        DeleteOne(node, temp, p, d, r, t, k);
      }
    }
  }
}
