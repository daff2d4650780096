// The red-black tree engine: insertion, erasure and stepping over linked
// nodes. An anchor node holds the root in its parent link and the first and
// last nodes in its left and right links.
module RbEngine {
  import opened RbClimb
  import opened RbShape
  import opened Sequences

  class RbTree {
    const anchor: Node
    ghost var cells: Store
    ghost var tree: Tree

    // cells mirrors the fields of the tree's nodes and of the anchor.
    ghost predicate Agree()
      reads this, cells.Keys
    {
      forall n :: n in cells ==> cells[n] == Cell(n.left, n.right, n.parent, n.color)
    }

    // The linked nodes form the tree t.
    ghost predicate Linked(t: Tree)
      reads this, cells.Keys
    {
      Agree() && Holds(cells, t, anchor)
    }

    constructor ()
      ensures Valid() && Order() == [] && cells.Keys == {anchor}
    {
      var a := new Node();
      a.left, a.right := a, a;
      anchor, tree := a, Leaf;
      cells := map[a := Cell(a, a, null, Red)];
    }

    method SetLeft(n: Node, v: Node?)
      requires Agree() && n in cells
      modifies n`left, this`cells
      ensures Agree() && cells == old(cells)[n := old(cells)[n].(left := v)]
    {
      n.left := v;
      cells := cells[n := cells[n].(left := v)];
    }

    method SetRight(n: Node, v: Node?)
      requires Agree() && n in cells
      modifies n`right, this`cells
      ensures Agree() && cells == old(cells)[n := old(cells)[n].(right := v)]
    {
      n.right := v;
      cells := cells[n := cells[n].(right := v)];
    }

    method SetParent(n: Node, v: Node?)
      requires Agree() && n in cells
      modifies n`parent, this`cells
      ensures Agree() && cells == old(cells)[n := old(cells)[n].(parent := v)]
    {
      n.parent := v;
      cells := cells[n := cells[n].(parent := v)];
    }

    method SetColor(n: Node, v: Color)
      requires Agree() && n in cells
      modifies n`color, this`cells
      ensures Agree() && cells == old(cells)[n := old(cells)[n].(color := v)]
    {
      n.color := v;
      cells := cells[n := cells[n].(color := v)];
    }

    method RotateLeft(x: Node, root: Node?) returns (newRoot: Node?)
      requires Agree() && CanRotate(Left, cells, x, root)
      modifies cells.Keys, this`cells
      ensures Agree() && cells == RotatedStore(Left, old(cells), x, root)
      ensures newRoot == if x == root then old(cells)[x].right else root
    {
      var y, p := x.right, x.parent;
      var b := y.left;
      SetRight(x, b);
      if b != null {
        SetParent(b, x);
      }
      SetParent(y, p);
      newRoot := root;
      if x == root {
        newRoot := y;
      } else if x == p.left {
        SetLeft(p, y);
      } else {
        SetRight(p, y);
      }
      SetLeft(y, x);
      SetParent(x, y);
    }

    method RotateRight(x: Node, root: Node?) returns (newRoot: Node?)
      requires Agree() && CanRotate(Right, cells, x, root)
      modifies cells.Keys, this`cells
      ensures Agree() && cells == RotatedStore(Right, old(cells), x, root)
      ensures newRoot == if x == root then old(cells)[x].left else root
    {
      var y, p := x.left, x.parent;
      var b := y.right;
      SetLeft(x, b);
      if b != null {
        SetParent(b, x);
      }
      SetParent(y, p);
      newRoot := root;
      if x == root {
        newRoot := y;
      } else if x == p.right {
        SetRight(p, y);
      } else {
        SetLeft(p, y);
      }
      SetRight(y, x);
      SetParent(x, y);
    }

    // Rotations and recolourings of a tree whose root link is up to date.

    method RotateLeftAt(x: Node, ghost k: Path, ghost t: Tree)
      requires Linked(Plug(k, t)) && t.Fork? && t.right.Fork? && x == t.node
      modifies cells.Keys, this`cells
      ensures Linked(Plug(k, Rotated(Left, t)))
      ensures InOrder(Plug(k, Rotated(Left, t))) == InOrder(Plug(k, t))
      ensures cells.Keys == old(cells.Keys)
      ensures cells[anchor] == old(cells)[anchor].(parent := cells[anchor].parent)
    {
      RotatePlug(Left, k, t);
      RotateHolds(Left, cells, k, t, anchor);
      var r := RotateLeft(x, anchor.parent);
      SetParent(anchor, r);
    }

    method RotateRightAt(x: Node, ghost k: Path, ghost t: Tree)
      requires Linked(Plug(k, t)) && t.Fork? && t.left.Fork? && x == t.node
      modifies cells.Keys, this`cells
      ensures Linked(Plug(k, Rotated(Right, t)))
      ensures InOrder(Plug(k, Rotated(Right, t))) == InOrder(Plug(k, t))
      ensures cells.Keys == old(cells.Keys)
      ensures cells[anchor] == old(cells)[anchor].(parent := cells[anchor].parent)
    {
      RotatePlug(Right, k, t);
      RotateHolds(Right, cells, k, t, anchor);
      var r := RotateRight(x, anchor.parent);
      SetParent(anchor, r);
    }

    method RecolorAt(x: Node, c: Color, ghost k: Path, ghost t: Tree)
      requires Linked(Plug(k, t)) && t.Fork? && x == t.node
      modifies x`color, this`cells
      ensures Linked(Plug(k, t.(color := c)))
      ensures cells.Keys == old(cells.Keys)
      ensures cells[anchor] == old(cells)[anchor]
      ensures InOrder(Plug(k, t.(color := c))) == InOrder(Plug(k, t))
    {
      RecolorHolds(cells, k, t, c, anchor);
      SetColor(x, c);
    }

    // The loop state: x heads a subtree that is fine but for a red parent.
    ghost predicate InsertAt(x: Node, k: Path, t: Tree)
      reads this, cells.Keys, anchor
    {
      && Linked(Plug(k, t)) && InsertFix(k, t) && x == Root(t)
      && x in cells && x.parent == Above(k, anchor) && (x == anchor.parent <==> k.Top?)
      && (k.Step? ==> k.node in cells && k.node.color == k.color)
    }

    // Parent and uncle turn black and the grandparent red.
    method RecolorFamily(parent: Node, uncle: Node, grand: Node, ghost k: Path, ghost t: Tree) returns (ghost t': Tree)
      requires Linked(Plug(k, t)) && k.Step? && k.up.Step? && k.up.sibling.Fork?
      requires parent == k.node && grand == k.up.node && uncle == k.up.sibling.node
      requires {parent, uncle, grand} <= cells.Keys
      modifies cells.Keys, this`cells
      ensures t'
        == Join(k.up.side, Join(k.side, t, parent, Black, k.sibling), grand, Red, k.up.sibling.(color := Black))
      ensures Linked(Plug(k.up.up, t')) && InOrder(Plug(k.up.up, t')) == InOrder(Plug(k, t))
      ensures cells.Keys == old(cells.Keys)
      ensures cells[anchor] == old(cells)[anchor]
    {
      ghost var kk, side := k.up.up, k.up.side;
      ghost var p, u := Join(k.side, t, parent, Black, k.sibling), k.up.sibling.(color := Black);
      RecolorAt(parent, Black, k.up, Join(k.side, t, parent, k.color, k.sibling));
      RecolorAt(uncle, Black, Step(Other(side), kk, grand, k.up.color, p), k.up.sibling);
      RecolorAt(grand, Red, kk, Join(side, p, grand, k.up.color, u));
      t' := Join(side, p, grand, Red, u);
    }

    // The uncle is red: recolour and continue from the grandparent.
    method InsertRecolor(node: Node, uncle: Node, ghost k: Path, ghost t: Tree)
      returns (next: Node, ghost k': Path, ghost t': Tree)
      requires Linked(Plug(k, t)) && node == Root(t) && InsertFix(k, t)
      requires k.Step? && k.color.Red? && k.up.Step? && !IsBlack(k.up.sibling) && uncle == k.up.sibling.node
      modifies cells.Keys, this`cells
      ensures InsertAt(next, k', t')
      ensures cells.Keys == old(cells.Keys)
      ensures cells[anchor] == old(cells)[anchor].(parent := cells[anchor].parent)
      ensures InOrder(Plug(k', t')) == InOrder(Plug(k, t))
      ensures InsertRank(k') < InsertRank(k)
    {
      LookUp(cells, k, t, anchor);
      InsertRecolored(k, t);
      var parent := node.parent;
      next := parent.parent;
      k' := k.up.up;
      t' := RecolorFamily(parent, uncle, next, k, t);
      LookUp(cells, k', t', anchor);
    }

    // The parent turns black, the grandparent red, and the parent moves up.
    method RaiseLeft(parent: Node, grand: Node, ghost k: Path, ghost t: Tree) returns (ghost k': Path)
      requires Linked(Plug(k, t)) && k.Step? && k.up.Step? && k.side == k.up.side == Left
      requires parent == k.node && grand == k.up.node && {parent, grand} <= cells.Keys
      modifies cells.Keys, this`cells
      ensures k' == Step(Left, k.up.up, parent, Black, Join(Left, k.sibling, grand, Red, k.up.sibling))
      ensures Linked(Plug(k', t)) && InOrder(Plug(k', t)) == InOrder(Plug(k, t))
      ensures cells.Keys == old(cells.Keys)
      ensures cells[anchor] == old(cells)[anchor].(parent := cells[anchor].parent)
    {
      ghost var kk := k.up.up;
      RecolorAt(parent, Black, k.up, Join(Left, t, parent, k.color, k.sibling));
      ghost var p := Join(Left, t, parent, Black, k.sibling);
      RecolorAt(grand, Red, kk, Join(Left, p, grand, k.up.color, k.up.sibling));
      RotateRightAt(grand, kk, Join(Left, p, grand, Red, k.up.sibling));
      k' := Step(Left, kk, parent, Black, Join(Left, k.sibling, grand, Red, k.up.sibling));
    }

    // The parent is the left child and the node the left grandchild: one rotation ends the repair.
    method InsertOuterLeft(node: Node, grand: Node, ghost k: Path, ghost t: Tree) returns (ghost k': Path)
      requires Linked(Plug(k, t)) && node == Root(t) && InsertFix(k, t)
      requires k.Step? && k.color.Red? && k.up.Step? && k.side == k.up.side == Left
      requires IsBlack(k.up.sibling) && grand == k.up.node
      modifies cells.Keys, this`cells
      ensures InsertAt(node, k', t)
      ensures cells.Keys == old(cells.Keys)
      ensures cells[anchor] == old(cells)[anchor].(parent := cells[anchor].parent)
      ensures InOrder(Plug(k', t)) == InOrder(Plug(k, t))
      ensures InsertRank(k') == 0
    {
      LookUp(cells, k, t, anchor);
      InsertRotated(k, t);
      k' := RaiseLeft(node.parent, grand, k, t);
      LookUp(cells, k', t, anchor);
    }

    // The parent is the left child and the node its right child: rotate it outwards.
    method InsertInnerLeft(node: Node, ghost k: Path, ghost t: Tree)
      returns (next: Node, ghost k': Path, ghost t': Tree)
      requires Linked(Plug(k, t)) && node == Root(t) && InsertFix(k, t)
      requires k.Step? && k.color.Red? && k.up.Step? && k.up.side == Left && k.side == Right && IsBlack(k.up.sibling)
      modifies cells.Keys, this`cells
      ensures Linked(Plug(k', t')) && InsertFix(k', t') && next == t'.node
      ensures k'.Step? && k'.color.Red? && k'.up == k.up && k'.side == Left
      ensures cells.Keys == old(cells.Keys)
      ensures cells[anchor] == old(cells)[anchor].(parent := cells[anchor].parent)
      ensures InOrder(Plug(k', t')) == InOrder(Plug(k, t))
    {
      Around(cells, k, t, anchor);
      InsertTurned(k, t);
      next := node.parent;
      RotateLeftAt(next, k.up, Join(Right, t, next, Red, k.sibling));
      k' := Step(Left, k.up, node, Red, t.right);
      t' := Join(Left, k.sibling, next, Red, t.left);
    }

    // The parent turns black, the grandparent red, and the parent moves up.
    method RaiseRight(parent: Node, grand: Node, ghost k: Path, ghost t: Tree) returns (ghost k': Path)
      requires Linked(Plug(k, t)) && k.Step? && k.up.Step? && k.side == k.up.side == Right
      requires parent == k.node && grand == k.up.node && {parent, grand} <= cells.Keys
      modifies cells.Keys, this`cells
      ensures k' == Step(Right, k.up.up, parent, Black, Join(Right, k.sibling, grand, Red, k.up.sibling))
      ensures Linked(Plug(k', t)) && InOrder(Plug(k', t)) == InOrder(Plug(k, t))
      ensures cells.Keys == old(cells.Keys)
      ensures cells[anchor] == old(cells)[anchor].(parent := cells[anchor].parent)
    {
      ghost var kk := k.up.up;
      RecolorAt(parent, Black, k.up, Join(Right, t, parent, k.color, k.sibling));
      ghost var p := Join(Right, t, parent, Black, k.sibling);
      RecolorAt(grand, Red, kk, Join(Right, p, grand, k.up.color, k.up.sibling));
      RotateLeftAt(grand, kk, Join(Right, p, grand, Red, k.up.sibling));
      k' := Step(Right, kk, parent, Black, Join(Right, k.sibling, grand, Red, k.up.sibling));
    }

    // The parent is the right child and the node the right grandchild: one rotation ends the repair.
    method InsertOuterRight(node: Node, grand: Node, ghost k: Path, ghost t: Tree) returns (ghost k': Path)
      requires Linked(Plug(k, t)) && node == Root(t) && InsertFix(k, t)
      requires k.Step? && k.color.Red? && k.up.Step? && k.side == k.up.side == Right
      requires IsBlack(k.up.sibling) && grand == k.up.node
      modifies cells.Keys, this`cells
      ensures InsertAt(node, k', t)
      ensures cells.Keys == old(cells.Keys)
      ensures cells[anchor] == old(cells)[anchor].(parent := cells[anchor].parent)
      ensures InOrder(Plug(k', t)) == InOrder(Plug(k, t))
      ensures InsertRank(k') == 0
    {
      LookUp(cells, k, t, anchor);
      InsertRotated(k, t);
      k' := RaiseRight(node.parent, grand, k, t);
      LookUp(cells, k', t, anchor);
    }

    // The parent is the right child and the node its left child: rotate it outwards.
    method InsertInnerRight(node: Node, ghost k: Path, ghost t: Tree)
      returns (next: Node, ghost k': Path, ghost t': Tree)
      requires Linked(Plug(k, t)) && node == Root(t) && InsertFix(k, t)
      requires k.Step? && k.color.Red? && k.up.Step? && k.up.side == Right && k.side == Left && IsBlack(k.up.sibling)
      modifies cells.Keys, this`cells
      ensures Linked(Plug(k', t')) && InsertFix(k', t') && next == t'.node
      ensures k'.Step? && k'.color.Red? && k'.up == k.up && k'.side == Right
      ensures cells.Keys == old(cells.Keys)
      ensures cells[anchor] == old(cells)[anchor].(parent := cells[anchor].parent)
      ensures InOrder(Plug(k', t')) == InOrder(Plug(k, t))
    {
      Around(cells, k, t, anchor);
      InsertTurned(k, t);
      next := node.parent;
      RotateRightAt(next, k.up, Join(Left, t, next, Red, k.sibling));
      k' := Step(Right, k.up, node, Red, t.left);
      t' := Join(Right, k.sibling, next, Red, t.right);
    }

    // One round: the parent of the node is red, so there is a grandparent.
    method InsertStep(node: Node, ghost k0: Path, ghost t0: Tree)
      returns (x: Node, ghost k: Path, ghost t: Tree)
      requires Linked(Plug(k0, t0)) && node == Root(t0) && InsertFix(k0, t0) && k0.Step? && k0.color.Red?
      modifies cells.Keys, this`cells
      ensures InsertAt(x, k, t)
      ensures cells.Keys == old(cells.Keys)
      ensures cells[anchor] == old(cells)[anchor].(parent := cells[anchor].parent)
      ensures InOrder(Plug(k, t)) == InOrder(Plug(k0, t0))
      ensures InsertRank(k) < InsertRank(k0)
    {
      x, k, t := node, k0, t0;
      LookUp(cells, k, t, anchor);
      var grand := x.parent.parent;
      if x.parent == grand.left {
        var temp := grand.right;
        if temp != null && temp.color == Red {
          x, k, t := InsertRecolor(x, temp, k, t);
        } else {
          if x == x.parent.right {
            x, k, t := InsertInnerLeft(x, k, t);
          }
          k := InsertOuterLeft(x, grand, k, t);
        }
      } else {
        var temp := grand.left;
        if temp != null && temp.color == Red {
          x, k, t := InsertRecolor(x, temp, k, t);
        } else {
          if x == x.parent.left {
            x, k, t := InsertInnerRight(x, k, t);
          }
          k := InsertOuterRight(x, grand, k, t);
        }
      }
    }

    method BlackenRoot(ghost t: Tree)
      requires Linked(t) && t.Fork? && RedBlack(t.(color := Black))
      modifies cells.Keys, this`cells, this`tree
      ensures Linked(tree) && RedBlack(tree)
      ensures cells.Keys == old(cells.Keys)
      ensures cells[anchor] == old(cells)[anchor].(parent := cells[anchor].parent)
      ensures InOrder(tree) == InOrder(t)
    {
      Around(cells, Top, t, anchor);
      RecolorAt(anchor.parent, Black, Top, t);
      tree := t.(color := Black);
    }

    // The rebalancing loop: climbs until the parent of x is black or x is the root.
    method InsertRebalance(node: Node, ghost k0: Path, ghost t0: Tree)
      requires Linked(Plug(k0, t0)) && node == Root(t0) && InsertFix(k0, t0)
      modifies cells.Keys, this`cells, this`tree
      ensures Linked(tree) && RedBlack(tree)
      ensures cells.Keys == old(cells.Keys)
      ensures cells[anchor] == old(cells)[anchor].(parent := cells[anchor].parent)
      ensures InOrder(tree) == InOrder(Plug(k0, t0))
    {
      var x := node;
      ghost var k, t := k0, t0;
      LookUp(cells, k, t, anchor);
      while x != anchor.parent && x.parent.color == Red
        invariant InsertAt(x, k, t)
        invariant cells.Keys == old(cells.Keys)
        invariant cells[anchor] == old(cells)[anchor].(parent := cells[anchor].parent)
        invariant InOrder(Plug(k, t)) == InOrder(Plug(k0, t0))
        decreases InsertRank(k)
      {
        x, k, t := InsertStep(x, k, t);
      }
      InsertDone(k, t);
      BlackenRoot(Plug(k, t));
    }

    method InitNode(node: Node, parent: Node)
      requires Agree() && node !in cells
      modifies node, this`cells
      ensures Agree() && cells == old(cells)[node := Cell(null, null, parent, Red)]
    {
      node.parent, node.right, node.left, node.color := parent, null, null, Red;
      cells := cells[node := Cell(null, null, parent, Red)];
    }

    // RBTreeInsert up to the loop: a red node fills the empty slot of its parent.
    method InsertLink(node: Node, parent: Node, side: Side, ghost k: Path, ghost p: Tree)
      requires Linked(Plug(k, p)) && node !in cells
      requires EmptySlot(k, p, parent, side, anchor)
      requires cells[anchor] == AnchorCell(Plug(k, p), anchor)
      modifies node, cells.Keys, this`cells
      ensures Linked(Filled(k, p, side, node)) && cells.Keys == old(cells.Keys) + {node}
      ensures cells[anchor] == AnchorCell(Filled(k, p, side, node), anchor)
    {
      InsertedHolds(cells, k, p, side, node, parent, anchor);
      InitNode(node, parent);
      if side == Left {
        SetLeft(parent, node);
        if parent == anchor {
          SetParent(anchor, node);
          SetRight(anchor, node);
        } else if parent == anchor.left {
          SetLeft(anchor, node);
        }
      } else {
        SetRight(parent, node);
        if parent == anchor.right {
          SetRight(anchor, node);
        }
      }
    }

    ghost predicate Valid()
      reads this, cells.Keys
    {
      Linked(tree) && RedBlack(tree) && cells[anchor] == AnchorCell(tree, anchor)
    }

    ghost function Order(): seq<Node>
      reads this
    {
      InOrder(tree)
    }

    // RBTreeInsert: the slot of parent on this side is empty; under the anchor the tree is empty.
    method Insert(node: Node, parent: Node, side: Side)
      requires Valid() && node !in cells
      requires if parent == anchor then tree.Leaf? && side.Left?
        else parent in cells && (if side.Left? then parent.left else parent.right) == null
      modifies node, cells.Keys, this`cells, this`tree
      ensures Valid() && cells.Keys == old(cells.Keys) + {node}
      ensures parent != anchor ==> parent in old(Order()) && Order() == InsertedBeside(old(Order()), node, parent, side)
      ensures parent == anchor ==> Order() == [node]
    {
      ghost var k, p := Top, tree;
      if parent != anchor {
        k, p := Focus(tree, parent, Top);
      }
      Around(cells, k, p, anchor);
      assert EmptySlot(k, p, parent, side, anchor);
      InsertStart(k, p, side, node, parent, anchor);
      InsertLink(node, parent, side, k, p);
      InsertRebalance(node, NewPath(k, p, side), Fork(Leaf, node, Red, Leaf));
      FilledOrder(k, p, side, node, parent, anchor);
    }

    // Both children of the sibling are black: redden it and pass the deficit up.
    method EraseRecolor(p: Node, w: Node, ghost k: Path, ghost t: Tree) returns (ghost t': Tree)
      requires Linked(Plug(k, t)) && EraseFix(k, t) && k.Step? && IsBlack(t)
      requires k.sibling.Fork? && p == k.node && w == k.sibling.node && IsBlack(k.sibling)
      requires IsBlack(k.sibling.left) && IsBlack(k.sibling.right)
      modifies cells.Keys, this`cells
      ensures Linked(Plug(k.up, t')) && EraseFix(k.up, t') && t'.Fork? && t'.node == p && t'.color == k.color
      ensures cells.Keys == old(cells.Keys)
      ensures cells[anchor] == old(cells)[anchor].(parent := cells[anchor].parent)
      ensures InOrder(Plug(k.up, t')) == InOrder(Plug(k, t))
    {
      EraseLookUp(cells, k, t, anchor);
      EraseRecolored(k, t);
      RecolorAt(w, Red, Step(Other(k.side), k.up, p, k.color, t), k.sibling);
      t' := Join(k.side, t, p, k.color, k.sibling.(color := Red));
    }

    // The sibling is red: make it black by a rotation towards the left.
    method EraseRedSiblingLeft(p: Node, w: Node, ghost k: Path, ghost t: Tree) returns (ghost k': Path)
      requires Linked(Plug(k, t)) && EraseFix(k, t) && k.Step? && IsBlack(t)
      requires k.side == Left && p == k.node && w == Root(k.sibling) && !IsBlack(k.sibling)
      modifies cells.Keys, this`cells
      ensures Linked(Plug(k', t)) && EraseFix(k', t) && k'.Step? && k'.color.Red?
      ensures k'.side == Left && k'.node == p && IsBlack(k'.sibling) && Depth(k') == Depth(k) + 1
      ensures cells.Keys == old(cells.Keys)
      ensures cells[anchor] == old(cells)[anchor].(parent := cells[anchor].parent)
      ensures InOrder(Plug(k', t)) == InOrder(Plug(k, t))
    {
      EraseLookUp(cells, k, t, anchor);
      EraseRotated(k, t);
      RecolorAt(w, Black, Step(Right, k.up, p, Black, t), k.sibling);
      ghost var w' := k.sibling.(color := Black);
      RecolorAt(p, Red, k.up, Join(Left, t, p, Black, w'));
      RotateLeftAt(p, k.up, Join(Left, t, p, Red, w'));
      k' := Step(Left, Step(Left, k.up, w, Black, w'.right), p, Red, w'.left);
    }

    // The sibling's inner child is red and its outer one black: turn the red outwards.
    method EraseTurnLeft(w: Node, inner: Node, ghost k: Path, ghost t: Tree) returns (ghost k': Path)
      requires Linked(Plug(k, t)) && EraseFix(k, t) && k.Step? && IsBlack(t)
      requires k.side == Left && k.sibling.Fork? && w == k.sibling.node && IsBlack(k.sibling)
      requires !IsBlack(k.sibling.left) && IsBlack(k.sibling.right) && inner == k.sibling.left.node
      modifies cells.Keys, this`cells
      ensures Linked(Plug(k', t)) && EraseFix(k', t) && k'.Step?
      ensures k'.side == Left && k'.node == k.node && k'.color == k.color && k'.up == k.up
      ensures IsBlack(k'.sibling) && k'.sibling.Fork? && !IsBlack(k'.sibling.right)
      ensures cells.Keys == old(cells.Keys)
      ensures cells[anchor] == old(cells)[anchor].(parent := cells[anchor].parent)
      ensures InOrder(Plug(k', t)) == InOrder(Plug(k, t))
    {
      EraseLookUp(cells, k, t, anchor);
      EraseTurned(k, t);
      ghost var kw := Step(Right, k.up, k.node, k.color, t);
      RecolorAt(inner, Black, Step(Left, kw, w, Black, k.sibling.right), k.sibling.left);
      ghost var n := k.sibling.left.(color := Black);
      RecolorAt(w, Red, kw, Join(Left, n, w, Black, k.sibling.right));
      RotateRightAt(w, kw, Join(Left, n, w, Red, k.sibling.right));
      ghost var low := Join(Left, n.right, w, Red, k.sibling.right);
      k' := Step(Left, k.up, k.node, k.color, Join(Left, n.left, inner, Black, low));
    }

    // The sibling's outer child is red: one rotation towards the left ends the repair.
    method EraseFinishLeft(p: Node, w: Node, outer: Node, ghost k: Path, ghost t: Tree) returns (ghost k': Path)
      requires Linked(Plug(k, t)) && EraseFix(k, t) && k.Step? && IsBlack(t)
      requires k.side == Left && k.sibling.Fork? && p == k.node && w == k.sibling.node && IsBlack(k.sibling)
      requires !IsBlack(k.sibling.right) && outer == k.sibling.right.node
      modifies cells.Keys, this`cells
      ensures Linked(Plug(k', t)) && RedBlack(Plug(k', t))
      ensures cells.Keys == old(cells.Keys)
      ensures cells[anchor] == old(cells)[anchor].(parent := cells[anchor].parent)
      ensures InOrder(Plug(k', t)) == InOrder(Plug(k, t))
    {
      EraseLookUp(cells, k, t, anchor);
      EraseFinished(k, t);
      ghost var kw := Step(Right, k.up, p, k.color, t);
      RecolorAt(w, p.color, kw, k.sibling);
      RecolorAt(p, Black, k.up, Join(Left, t, p, k.color, k.sibling.(color := k.color)));
      RecolorAt(outer, Black, Step(Right, Step(Right, k.up, p, Black, t), w, k.color, k.sibling.left), k.sibling.right);
      ghost var w' := Join(Left, k.sibling.left, w, k.color, k.sibling.right.(color := Black));
      RotateLeftAt(p, k.up, Join(Left, t, p, Black, w'));
      k' := Step(Left, Step(Left, k.up, w, k.color, w'.right), p, Black, w'.left);
    }

    // The sibling is red: make it black by a rotation towards the right.
    method EraseRedSiblingRight(p: Node, w: Node, ghost k: Path, ghost t: Tree) returns (ghost k': Path)
      requires Linked(Plug(k, t)) && EraseFix(k, t) && k.Step? && IsBlack(t)
      requires k.side == Right && p == k.node && w == Root(k.sibling) && !IsBlack(k.sibling)
      modifies cells.Keys, this`cells
      ensures Linked(Plug(k', t)) && EraseFix(k', t) && k'.Step? && k'.color.Red?
      ensures k'.side == Right && k'.node == p && IsBlack(k'.sibling) && Depth(k') == Depth(k) + 1
      ensures cells.Keys == old(cells.Keys)
      ensures cells[anchor] == old(cells)[anchor].(parent := cells[anchor].parent)
      ensures InOrder(Plug(k', t)) == InOrder(Plug(k, t))
    {
      EraseLookUp(cells, k, t, anchor);
      EraseRotated(k, t);
      RecolorAt(w, Black, Step(Left, k.up, p, Black, t), k.sibling);
      ghost var w' := k.sibling.(color := Black);
      RecolorAt(p, Red, k.up, Join(Right, t, p, Black, w'));
      RotateRightAt(p, k.up, Join(Right, t, p, Red, w'));
      k' := Step(Right, Step(Right, k.up, w, Black, w'.left), p, Red, w'.right);
    }

    // The sibling's inner child is red and its outer one black: turn the red outwards.
    method EraseTurnRight(w: Node, inner: Node, ghost k: Path, ghost t: Tree) returns (ghost k': Path)
      requires Linked(Plug(k, t)) && EraseFix(k, t) && k.Step? && IsBlack(t)
      requires k.side == Right && k.sibling.Fork? && w == k.sibling.node && IsBlack(k.sibling)
      requires !IsBlack(k.sibling.right) && IsBlack(k.sibling.left) && inner == k.sibling.right.node
      modifies cells.Keys, this`cells
      ensures Linked(Plug(k', t)) && EraseFix(k', t) && k'.Step?
      ensures k'.side == Right && k'.node == k.node && k'.color == k.color && k'.up == k.up
      ensures IsBlack(k'.sibling) && k'.sibling.Fork? && !IsBlack(k'.sibling.left)
      ensures cells.Keys == old(cells.Keys)
      ensures cells[anchor] == old(cells)[anchor].(parent := cells[anchor].parent)
      ensures InOrder(Plug(k', t)) == InOrder(Plug(k, t))
    {
      EraseLookUp(cells, k, t, anchor);
      EraseTurned(k, t);
      ghost var kw := Step(Left, k.up, k.node, k.color, t);
      RecolorAt(inner, Black, Step(Right, kw, w, Black, k.sibling.left), k.sibling.right);
      ghost var n := k.sibling.right.(color := Black);
      RecolorAt(w, Red, kw, Join(Right, n, w, Black, k.sibling.left));
      RotateLeftAt(w, kw, Join(Right, n, w, Red, k.sibling.left));
      ghost var low := Join(Right, n.left, w, Red, k.sibling.left);
      k' := Step(Right, k.up, k.node, k.color, Join(Right, n.right, inner, Black, low));
    }

    // The sibling's outer child is red: one rotation towards the right ends the repair.
    method EraseFinishRight(p: Node, w: Node, outer: Node, ghost k: Path, ghost t: Tree) returns (ghost k': Path)
      requires Linked(Plug(k, t)) && EraseFix(k, t) && k.Step? && IsBlack(t)
      requires k.side == Right && k.sibling.Fork? && p == k.node && w == k.sibling.node && IsBlack(k.sibling)
      requires !IsBlack(k.sibling.left) && outer == k.sibling.left.node
      modifies cells.Keys, this`cells
      ensures Linked(Plug(k', t)) && RedBlack(Plug(k', t))
      ensures cells.Keys == old(cells.Keys)
      ensures cells[anchor] == old(cells)[anchor].(parent := cells[anchor].parent)
      ensures InOrder(Plug(k', t)) == InOrder(Plug(k, t))
    {
      EraseLookUp(cells, k, t, anchor);
      EraseFinished(k, t);
      ghost var kw := Step(Left, k.up, p, k.color, t);
      RecolorAt(w, p.color, kw, k.sibling);
      RecolorAt(p, Black, k.up, Join(Right, t, p, k.color, k.sibling.(color := k.color)));
      RecolorAt(outer, Black, Step(Left, Step(Left, k.up, p, Black, t), w, k.color, k.sibling.right), k.sibling.left);
      ghost var w' := Join(Right, k.sibling.right, w, k.color, k.sibling.left.(color := Black));
      RotateRightAt(p, k.up, Join(Right, t, p, Black, w'));
      k' := Step(Right, Step(Right, k.up, w, k.color, w'.left), p, Black, w'.right);
    }

    // One round with the deficit on the left of p.
    method EraseStepLeft(c: Node?, p: Node, ghost k0: Path, ghost t: Tree)
      returns (done: bool, child: Node?, childParent: Node, ghost k: Path, ghost t': Tree)
      requires Linked(Plug(k0, t)) && EraseFix(k0, t) && k0.Step? && IsBlack(t)
      requires k0.side == Left && p == k0.node && c == Root(t)
      modifies cells.Keys, this`cells
      ensures Linked(Plug(k, t'))
      ensures child == Root(t') && if done then RedBlack(Plug(k, t')) && IsBlack(t')
        else EraseAt(child, childParent, k, t') && EraseRank(k, t') < EraseRank(k0, t)
      ensures cells.Keys == old(cells.Keys)
      ensures cells[anchor] == old(cells)[anchor].(parent := cells[anchor].parent)
      ensures InOrder(Plug(k, t')) == InOrder(Plug(k0, t))
    {
      k, t', done, child, childParent := k0, t, false, c, p;
      EraseLookUp(cells, k, t, anchor);
      var temp := p.right;
      if temp.color == Red {
        k := EraseRedSiblingLeft(p, temp, k, t);
        EraseLookUp(cells, k, t, anchor);
        temp := p.right;
      }
      if (temp.left == null || temp.left.color == Black) && (temp.right == null || temp.right.color == Black) {
        t' := EraseRecolor(p, temp, k, t);
        k := k.up;
        EraseSides(cells, k, t', anchor);
        child := p;
        childParent := p.parent;
      } else {
        if temp.right == null || temp.right.color == Black {
          k := EraseTurnLeft(temp, temp.left, k, t);
          EraseLookUp(cells, k, t, anchor);
          temp := p.right;
        }
        k := EraseFinishLeft(p, temp, temp.right, k, t);
        done := true;
      }
    }

    // One round with the deficit on the right of p.
    method EraseStepRight(c: Node?, p: Node, ghost k0: Path, ghost t: Tree)
      returns (done: bool, child: Node?, childParent: Node, ghost k: Path, ghost t': Tree)
      requires Linked(Plug(k0, t)) && EraseFix(k0, t) && k0.Step? && IsBlack(t)
      requires k0.side == Right && p == k0.node && c == Root(t)
      modifies cells.Keys, this`cells
      ensures Linked(Plug(k, t'))
      ensures child == Root(t') && if done then RedBlack(Plug(k, t')) && IsBlack(t')
        else EraseAt(child, childParent, k, t') && EraseRank(k, t') < EraseRank(k0, t)
      ensures cells.Keys == old(cells.Keys)
      ensures cells[anchor] == old(cells)[anchor].(parent := cells[anchor].parent)
      ensures InOrder(Plug(k, t')) == InOrder(Plug(k0, t))
    {
      k, t', done, child, childParent := k0, t, false, c, p;
      EraseLookUp(cells, k, t, anchor);
      var temp := p.left;
      if temp.color == Red {
        k := EraseRedSiblingRight(p, temp, k, t);
        EraseLookUp(cells, k, t, anchor);
        temp := p.left;
      }
      if (temp.right == null || temp.right.color == Black) && (temp.left == null || temp.left.color == Black) {
        t' := EraseRecolor(p, temp, k, t);
        k := k.up;
        EraseSides(cells, k, t', anchor);
        child := p;
        childParent := p.parent;
      } else {
        if temp.left == null || temp.left.color == Black {
          k := EraseTurnRight(temp, temp.right, k, t);
          EraseLookUp(cells, k, t, anchor);
          temp := p.left;
        }
        k := EraseFinishRight(p, temp, temp.left, k, t);
        done := true;
      }
    }

    // The loop state: child, below childParent, heads the subtree that is short.
    ghost predicate EraseAt(child: Node?, childParent: Node, k: Path, t: Tree)
      reads this, cells.Keys, anchor
    {
      && Linked(Plug(k, t)) && EraseFix(k, t) && child == Root(t) && childParent == Above(k, anchor)
      && (child != null ==> child in cells && child.color == t.color)
      && (child == anchor.parent <==> k.Top?)
      && (k.Step? ==> childParent in cells && (child == childParent.left <==> k.side.Left?))
    }

    method EraseEnd(child: Node?, ghost k: Path, ghost t: Tree)
      requires Linked(Plug(k, t)) && child == Root(t)
      requires (RedBlack(Plug(k, t)) && IsBlack(t)) || (EraseFix(k, t) && (k.Top? || !IsBlack(t)))
      modifies cells.Keys, this`cells, this`tree
      ensures Linked(tree) && RedBlack(tree)
      ensures cells.Keys == old(cells.Keys)
      ensures cells[anchor] == old(cells)[anchor].(parent := cells[anchor].parent)
      ensures InOrder(tree) == InOrder(Plug(k, t))
    {
      tree := Plug(k, t);
      Around(cells, k, t, anchor);
      EraseDone(k, t);
      if child != null {
        RecolorAt(child, Black, k, t);
        tree := Plug(k, t.(color := Black));
      }
    }

    // The rebalancing loop of RBTreeErase: child is one black node short.
    method EraseRebalance(child0: Node?, parent0: Node, ghost k0: Path, ghost t0: Tree)
      requires Linked(Plug(k0, t0)) && EraseFix(k0, t0) && child0 == Root(t0) && parent0 == Above(k0, anchor)
      modifies cells.Keys, this`cells, this`tree
      ensures Linked(tree) && RedBlack(tree)
      ensures cells.Keys == old(cells.Keys)
      ensures cells[anchor] == old(cells)[anchor].(parent := cells[anchor].parent)
      ensures InOrder(tree) == InOrder(Plug(k0, t0))
    {
      var child, childParent := child0, parent0;
      ghost var k, t := k0, t0;
      var done := false;
      EraseSides(cells, k, t, anchor);
      while child != anchor.parent && (child == null || child.color == Black)
        invariant EraseAt(child, childParent, k, t)
        invariant cells.Keys == old(cells.Keys)
        invariant cells[anchor] == old(cells)[anchor].(parent := cells[anchor].parent)
        invariant InOrder(Plug(k, t)) == InOrder(Plug(k0, t0))
        decreases EraseRank(k, t)
      {
        if child == childParent.left {
          done, child, childParent, k, t := EraseStepLeft(child, childParent, k, t);
        } else {
          done, child, childParent, k, t := EraseStepRight(child, childParent, k, t);
        }
        if done {
          break;
        }
      }
      EraseEnd(child, k, t);
    }

    // The link that leads to z, in its parent or in the anchor, leads to n instead.
    method Hook(z: Node, n: Node?)
      requires Agree() && z in cells && anchor in cells && z != anchor
      requires cells[z].parent != null && cells[z].parent in cells && cells[z].parent != z
      modifies cells.Keys - {z}, this`cells
      ensures Agree() && cells == Hooked(old(cells), z, n, anchor)
    {
      if z == anchor.parent {
        SetParent(anchor, n);
      } else if z == z.parent.left {
        SetLeft(z.parent, n);
      } else {
        SetRight(z.parent, n);
      }
    }

    // A node with at most one child: the child takes its place.
    method Unlink(z: Node, child: Node?)
      requires Agree() && CanUnlink(cells, z, child, anchor)
      modifies cells.Keys - {z}, this`cells
      ensures Agree() && cells == UnlinkedStore(old(cells), z, child, anchor)
    {
      var p := z.parent;
      if child != null {
        SetParent(child, p);
      }
      Hook(z, child);
    }

    // The node z is no longer part of the tree.
    ghost method Forget(z: Node, t: Tree)
      requires Agree() && z in cells && z != anchor && Holds(cells - {z}, t, anchor)
      modifies this`cells
      ensures Linked(t) && cells == old(cells) - {z}
    {
      cells := cells - {z};
    }

    method UnlinkAt(z: Node, child: Node?, ghost k: Path, ghost t: Tree)
      requires Linked(Plug(k, t)) && z == Root(t) && (t.left.Leaf? || t.right.Leaf?) && child == Root(Only(t))
      modifies cells.Keys - {z}, this`cells
      ensures Linked(Plug(k, Only(t))) && cells.Keys == old(cells.Keys) - {z}
      ensures cells[anchor] == old(cells)[anchor].(parent := cells[anchor].parent)
    {
      UnlinkCan(cells, k, t, anchor);
      UnlinkHangs(cells, k, t, anchor);
      UnlinkHolds(cells, UnlinkedStore(cells, z, child, anchor), k, t, anchor);
      Unlink(z, child);
      Forget(z, Plug(k, Only(t)));
    }

    // A node with two children: its successor y adopts the children of z ...
    method RelinkBelow(z: Node, y: Node, child: Node?) returns (childParent: Node?)
      requires Agree() && CanRelink(cells, z, y, child, anchor)
      modifies cells.Keys`left, cells.Keys`right, cells.Keys`parent, this`cells
      ensures Agree() && cells == RelinkedBelow(old(cells), z, y, child, anchor)
      ensures childParent == if y == old(cells)[z].right then y else old(cells)[y].parent
    {
      var zl, zr := z.left, z.right;
      SetParent(zl, y);
      SetLeft(y, zl);
      if y == zr {
        childParent := y;
      } else {
        childParent := y.parent;
        if child != null {
          SetParent(child, childParent);
        }
        SetLeft(childParent, child);
        SetRight(y, zr);
        SetParent(zr, y);
      }
    }

    // ... and then its place and its colour.
    method RelinkAbove(z: Node, y: Node)
      requires Agree() && z in cells && y in cells && anchor in cells && z != anchor && y != z
      requires cells[z].parent != null && cells[z].parent in cells && cells[z].parent != z
      modifies cells.Keys, this`cells
      ensures Agree() && cells == RelinkedAbove(old(cells), z, y, anchor)
      ensures z.color == old(y.color)
    {
      Hook(z, y);
      SetParent(y, z.parent);
      var c := y.color;
      SetColor(y, z.color);
      SetColor(z, c);
    }

    method Relink(z: Node, y: Node, child: Node?) returns (childParent: Node?)
      requires Agree() && CanRelink(cells, z, y, child, anchor)
      modifies cells.Keys, this`cells
      ensures Agree() && cells == RelinkedStore(old(cells), z, y, child, anchor)
      ensures childParent == (if y == old(cells)[z].right then y else old(cells)[y].parent) && z.color == old(y.color)
    {
      RelinkedBelowCells(cells, z, y, child, anchor);
      childParent := RelinkBelow(z, y, child);
      RelinkAbove(z, y);
    }

    // RBTreeGetMinChild and RBTreeGetMaxChild: the ends of a subtree.

    method MinChild(n: Node, ghost k0: Path, ghost t0: Tree) returns (r: Node)
      requires Linked(Plug(k0, t0)) && n == Root(t0)
      ensures t0.Fork? && r == MinTree(t0).node
    {
      r := n;
      ghost var k, t := k0, t0;
      Around(cells, k, t, anchor);
      while r.left != null
        invariant Linked(Plug(k, t)) && r == Root(t) && MinTree(t) == MinTree(t0)
        invariant r in cells && r.left == Root(t.left)
        decreases t
      {
        r := r.left;
        k, t := Step(Left, k, t.node, t.color, t.right), t.left;
        Around(cells, k, t, anchor);
      }
    }

    method MaxChild(n: Node, ghost k0: Path, ghost t0: Tree) returns (r: Node)
      requires Linked(Plug(k0, t0)) && n == Root(t0)
      ensures t0.Fork? && r == MaxTree(t0).node
    {
      r := n;
      ghost var k, t := k0, t0;
      Around(cells, k, t, anchor);
      while r.right != null
        invariant Linked(Plug(k, t)) && r == Root(t) && MaxTree(t) == MaxTree(t0)
        invariant r in cells && r.right == Root(t.right)
        decreases t
      {
        r := r.right;
        k, t := Step(Right, k, t.node, t.color, t.left), t.right;
        Around(cells, k, t, anchor);
      }
    }

    // At most one child: take the node out and keep the anchor's ends exact.
    method EraseSimple(z: Node, child: Node?, ghost k: Path, ghost t: Tree)
      requires Linked(Plug(k, t)) && z == Root(t) && (t.left.Leaf? || t.right.Leaf?) && child == Root(Only(t))
      requires cells[anchor] == AnchorCell(Plug(k, t), anchor)
      modifies cells.Keys - {z}, this`cells
      ensures Linked(Plug(k, Only(t))) && cells.Keys == old(cells.Keys) - {z}
      ensures cells[anchor] == AnchorCell(Plug(k, Only(t)), anchor)
    {
      Around(cells, k, t, anchor);
      OnlyEnds(k, t, anchor);
      UnlinkAt(z, child, k, t);
      if z == anchor.left {
        var first: Node? := z.parent;
        if z.right != null && child != null {
          first := MinChild(child, k, Only(t));
        }
        SetEnd(Left, first, Plug(k, Only(t)));
      }
      if z == anchor.right {
        var last: Node? := z.parent;
        if z.left != null && child != null {
          last := MaxChild(child, k, Only(t));
        }
        SetEnd(Right, last, Plug(k, Only(t)));
      }
    }

    method SetEnd(side: Side, n: Node?, ghost t: Tree)
      requires Linked(t)
      modifies anchor, this`cells
      ensures Linked(t) && cells.Keys == old(cells.Keys)
      ensures cells[anchor] == WithChild(side, old(cells)[anchor], n)
    {
      ghost var s := cells;
      if side == Left {
        SetLeft(anchor, n);
      } else {
        SetRight(anchor, n);
      }
      RepFrame(s, cells, t, anchor);
    }

    // Two children: the successor takes the place of the node.
    method EraseInner(z: Node, ghost k: Path, ghost t: Tree)
      returns (child: Node?, childParent: Node, ghost k': Path, ghost f: Tree)
      requires Linked(Plug(k, t)) && z == Root(t) && t.left.Fork? && t.right.Fork?
      requires cells[anchor] == AnchorCell(Plug(k, t), anchor)
      modifies cells.Keys, this`cells
      ensures f == MinTree(t.right) && f.left.Leaf?
      ensures k' == Append(MinPath(t.right), Step(Right, k, f.node, t.color, t.left))
      ensures Linked(Plug(k', f.right)) && cells.Keys == old(cells.Keys) - {z}
      ensures cells[anchor] == AnchorCell(Plug(k', f.right), anchor)
      ensures child == Root(f.right) && childParent == Above(k', anchor) && z.color == f.color
    {
      ghost var i;
      i, f := MinPath(t.right), MinTree(t.right);
      Around(cells, k, t, anchor);
      MinSplit(t.right);
      SuccessorCan(cells, k, t, i, f, anchor);
      var y := MinChild(z.right, Step(Right, k, z, t.color, t.left), t.right);
      child := y.right;
      childParent := RelinkAt(z, y, child, k, t, i, f);
      k' := Append(i, Step(Right, k, y, t.color, t.left));
      AppendPlug(i, Step(Right, k, y, t.color, t.left), f.right);
      AppendAbove(i, Step(Right, k, y, t.color, t.left), anchor);
    }

    method RelinkAt(z: Node, y: Node, child: Node?, ghost k: Path, ghost t: Tree, ghost i: Path, ghost f: Tree)
      returns (childParent: Node)
      requires Linked(Plug(k, t)) && Successor(t, i, f) && z == t.node && y == f.node && child == Root(f.right)
      requires cells[anchor] == AnchorCell(Plug(k, t), anchor)
      modifies cells.Keys, this`cells
      ensures Linked(Plug(k, Succeeded(t, i, f))) && cells.Keys == old(cells.Keys) - {z}
      ensures cells[anchor] == AnchorCell(Plug(k, Succeeded(t, i, f)), anchor)
      ensures childParent == Above(i, y) && z.color == f.color
    {
      SuccessorCan(cells, k, t, i, f, anchor);
      RelinkHolds(cells, k, t, i, f, anchor);
      SucceededEnds(k, t, i, f, anchor);
      childParent := Relink(z, y, child);
      Forget(z, Plug(k, Succeeded(t, i, f)));
    }

    // RBTreeErase.
    method Erase(z: Node)
      requires Valid() && z in cells && z != anchor
      modifies cells.Keys, this`cells, this`tree
      ensures Valid() && cells.Keys == old(cells.Keys) - {z}
      ensures z in old(Order()) && Order() == Without(old(Order()), z)
    {
      ghost var k, t := Focus(tree, z, Top);
      EraseFocused(z, k, t);
    }

    method EraseFocused(z: Node, ghost k: Path, ghost t: Tree)
      requires Linked(Plug(k, t)) && z == Root(t) && RedBlack(Plug(k, t))
      requires cells[anchor] == AnchorCell(Plug(k, t), anchor)
      modifies cells.Keys, this`cells, this`tree
      ensures Valid() && cells.Keys == old(cells.Keys) - {z}
      ensures z in InOrder(Plug(k, t)) && Order() == Without(InOrder(Plug(k, t)), z)
    {
      Around(cells, k, t, anchor);
      if z.left == null || z.right == null {
        EraseOuter(z, k, t);
      } else {
        EraseBetween(z, k, t);
      }
    }

    // At most one child.
    method EraseOuter(z: Node, ghost k: Path, ghost t: Tree)
      requires Linked(Plug(k, t)) && z == Root(t) && RedBlack(Plug(k, t))
      requires cells[anchor] == AnchorCell(Plug(k, t), anchor) && (t.left.Leaf? || t.right.Leaf?)
      modifies cells.Keys, this`cells, this`tree
      ensures Valid() && cells.Keys == old(cells.Keys) - {z}
      ensures z in InOrder(Plug(k, t)) && Order() == Without(InOrder(Plug(k, t)), z)
    {
      Around(cells, k, t, anchor);
      EraseOrder(k, t);
      EraseStart(k, t);
      var child := if z.left == null then z.right else z.left;
      EraseSimple(z, child, k, t);
      Finish(z, child, z.parent, k, Only(t));
    }

    // Two children.
    method EraseBetween(z: Node, ghost k: Path, ghost t: Tree)
      requires Linked(Plug(k, t)) && z == Root(t) && RedBlack(Plug(k, t))
      requires cells[anchor] == AnchorCell(Plug(k, t), anchor) && t.left.Fork? && t.right.Fork?
      modifies cells.Keys, this`cells, this`tree
      ensures Valid() && cells.Keys == old(cells.Keys) - {z}
      ensures z in InOrder(Plug(k, t)) && Order() == Without(InOrder(Plug(k, t)), z)
    {
      EraseOrder(k, t);
      EraseStart(k, t);
      var child, childParent;
      ghost var k', f;
      child, childParent, k', f := EraseInner(z, k, t);
      Finish(z, child, childParent, k', f.right);
    }

    // Only the loss of a black node needs repair.
    method Finish(z: Node, child: Node?, childParent: Node, ghost k: Path, ghost t: Tree)
      requires Linked(Plug(k, t)) && cells[anchor] == AnchorCell(Plug(k, t), anchor) && z !in cells
      requires child == Root(t) && childParent == Above(k, anchor)
      requires if z.color.Black? then EraseFix(k, t) else RedBlack(Plug(k, t))
      modifies cells.Keys, this`cells, this`tree
      ensures Valid() && cells.Keys == old(cells.Keys)
      ensures Order() == InOrder(Plug(k, t))
    {
      if z.color == Black {
        EraseRebalance(child, childParent, k, t);
      } else {
        tree := Plug(k, t);
      }
    }

    // RBTreeIncrement: the next node in order; the anchor after the last one.
    method Increment(n: Node) returns (r: Node)
      requires Valid() && n in cells && n != anchor
      ensures n in Order() && r == Next(Order(), n, anchor)
    {
      ghost var k, t := Focus(tree, n, Top);
      Around(cells, k, t, anchor);
      NeighboursAt(k, t, anchor);
      r := n;
      if r.right != null {
        r := MinChild(r.right, Step(Right, k, t.node, t.color, t.left), t.right);
      } else {
        r := ClimbRight(n, k, t);
      }
    }

    // Increment from the first node until the anchor: every node once, in order.
    method Traverse() returns (visited: seq<Node>)
      requires Valid()
      ensures visited == Order()
    {
      visited := [];
      ghost var order := Order();
      OrderNodes(cells, tree, anchor);
      var n := anchor.left;
      assert cells[anchor].left == First(order, anchor);
      while n != anchor
        invariant |visited| <= |order| && visited == order[..|visited|]
        invariant n == if |visited| < |order| then order[|visited|] else anchor
        decreases |order| - |visited|
      {
        IndexUnique(order, |visited|, n);
        visited := visited + [n];
        n := Increment(n);
      }
    }

    // Climbs while coming from the right. Above a root that is also the last
    // node the climb passes through the anchor back to the root.
    method ClimbRight(n: Node, ghost k0: Path, ghost t0: Tree) returns (r: Node)
      requires Valid() && tree == Plug(k0, t0) && n == Root(t0)
      ensures r == First(After(k0), anchor)
    {
      ghost var k, t, wrapped := k0, t0, false;
      ClimbLookUp(cells, k, t, anchor);
      r := n;
      var temp := r.parent;
      while r == temp.right
        invariant temp != null && temp in cells && r in cells
        invariant if wrapped then r == anchor && temp == Root(tree) && anchor.right == temp && After(k0) == []
          else tree == Plug(k, t) && r == Root(t) && temp == Above(k, anchor) && After(k) == After(k0)
        decreases !wrapped, Depth(k)
      {
        ClimbLookUp(cells, k, t, anchor);
        ClimbLookUp(cells, Top, tree, anchor);
        if k.Top? {
          wrapped := true;
        } else {
          k, t := k.up, Join(k.side, t, k.node, k.color, k.sibling);
          ClimbLookUp(cells, k, t, anchor);
        }
        r := temp;
        temp := temp.parent;
      }
      ClimbLookUp(cells, Top, tree, anchor);
      if !wrapped {
        ClimbLookUp(cells, k, t, anchor);
      }
      if r.right != temp {
        r := temp;
      }
    }

    // RBTreeGetBlackCount: how many black nodes the climb from bottom to top
    // passes, both included. It ends just where Reachable says.
    method BlackCount(top: Node?, bottom: Node?) returns (count: nat)
      requires Valid() && (bottom != null ==> bottom in cells) && Reachable(tree, top, bottom, anchor)
      ensures Below(tree, top, bottom) ==> count == BlacksOn(Subtree(tree, top), bottom) <= Height(Subtree(tree, top))
      ensures Below(tree, top, bottom) && (bottom.left == null || bottom.right == null) ==>
        count == Height(Subtree(tree, top))
      ensures top == anchor && bottom in Nodes(tree) ==> count == BlacksOn(tree, bottom)
      ensures bottom == null || (bottom == anchor && (tree.Leaf? || top == anchor)) ==> count == 0
      ensures bottom == anchor && tree.Fork? && top == tree.node ==> count == 1
    {
      MeetsExact(cells, tree, top, bottom, anchor);
      ghost var i: nat :| Meets(cells, top, bottom, i);
      ghost var j;
      count, j := CountClimb(top, bottom, i);
      CountEnds(cells, tree, top, bottom, anchor, j);
    }

    method CountClimb(top: Node?, bottom: Node?, ghost i: nat) returns (count: nat, ghost j: nat)
      requires Valid() && (bottom != null ==> bottom in cells) && Meets(cells, top, bottom, i)
      ensures FirstMeets(cells, top, bottom, j) && count == BlacksPassed(cells, bottom, j + 1)
    {
      count, j := 0, 0;
      var n := bottom;
      while n != null
        invariant n != null ==> n in cells
        invariant n == Climb(cells, bottom, j) && count == BlacksPassed(cells, bottom, j)
        invariant forall k: nat :: k < j ==> !Meets(cells, top, bottom, k)
        decreases i - j
      {
        LinkInside(cells, tree, n, anchor);
        if n.color == Black {
          count := count + 1;
        }
        if n == top {
          break;
        }
        n := n.parent;
        j := j + 1;
      }
    }

    // RBTreeDecrement: the previous node; from the anchor, the last one.
    method Decrement(n: Node) returns (r: Node)
      requires Valid() && n in cells && tree.Fork?
      ensures n == anchor ==> r == Last(Order(), anchor)
      ensures n != anchor ==> n in Order() && r == Previous(Order(), n, anchor, Root(tree))
    {
      ghost var k, t := Top, tree;
      if n != anchor {
        k, t := Focus(tree, n, Top);
      }
      Around(cells, k, t, anchor);
      GrandparentLookUp(cells, k, t, anchor);
      if n.parent.parent == n && n.color == Red {
        r := n.right;
      } else {
        NeighboursAt(k, t, anchor);
        if n.left != null {
          r := MaxChild(n.left, Step(Left, k, t.node, t.color, t.right), t.left);
        } else {
          r := ClimbLeft(n, k, t);
        }
      }
    }

    method ClimbLeft(n: Node, ghost k0: Path, ghost t0: Tree) returns (temp: Node)
      requires Valid() && tree == Plug(k0, t0) && n == Root(t0)
      ensures temp == if Before(k0) != [] then Last(Before(k0), anchor)
        else if anchor.left == Root(tree) then Root(tree) else anchor
    {
      ghost var k, t, wrapped := k0, t0, false;
      ClimbLookUp(cells, k, t, anchor);
      var r := n;
      temp := r.parent;
      while r == temp.left
        invariant temp in cells && r in cells
        invariant if wrapped then r == anchor && temp == Root(tree) && anchor.left == temp && Before(k0) == []
          else tree == Plug(k, t) && r == Root(t) && temp == Above(k, anchor) && Before(k) == Before(k0)
        decreases !wrapped, Depth(k)
      {
        ClimbLookUp(cells, k, t, anchor);
        ClimbLookUp(cells, Top, tree, anchor);
        if k.Top? {
          wrapped := true;
        } else {
          k, t := k.up, Join(k.side, t, k.node, k.color, k.sibling);
          ClimbLookUp(cells, k, t, anchor);
        }
        r := temp;
        temp := temp.parent;
      }
      ClimbLookUp(cells, Top, tree, anchor);
      if !wrapped {
        ClimbLookUp(cells, k, t, anchor);
      }
    }

    // Stepping back undoes stepping forward, from the last node over the anchor too.
    method ForthAndBack(n: Node) returns (r: Node)
      requires Valid() && n in cells && n != anchor
      ensures r == n
    {
      OrderNodes(cells, tree, anchor);
      var m := Increment(n);
      StepsInverse(Order(), n, anchor, Root(tree));
      r := Decrement(m);
    }

    // Stepping forward undoes stepping back, except from the first node.
    method BackAndForth(n: Node) returns (r: Node)
      requires Valid() && n in cells && tree.Fork? && n != First(Order(), anchor)
      ensures r == n
    {
      OrderNodes(cells, tree, anchor);
      var m := Decrement(n);
      StepsBack(Order(), n, anchor, Root(tree));
      r := Increment(m);
    }

    // Erasing the node just inserted restores the order.
    method InsertAndErase(node: Node, parent: Node, side: Side)
      requires Valid() && node !in cells
      requires if parent == anchor then tree.Leaf? && side.Left?
        else parent in cells && (if side.Left? then parent.left else parent.right) == null
      modifies node, cells.Keys, this`cells, this`tree
      ensures Valid() && cells.Keys == old(cells.Keys) && Order() == old(Order())
    {
      ghost var order := Order();
      OrderNodes(cells, tree, anchor);
      Insert(node, parent, side);
      if parent != anchor {
        InsertThenErase(order, node, parent, side);
      } else {
        IndexUnique([node], 0, node);
      }
      Erase(node);
    }
  }

  ghost predicate InsertFix(k: Path, t: Tree) {
    && t.Fork? && t.color.Red?
    && Balanced(t) && PathBalanced(k, Height(t))
    && NoRedRed(t) && PathNoRedRed(k) && PathRootBlack(k)
  }

  ghost function Depth(k: Path): nat {
    if k.Top? then 0 else 1 + Depth(k.up)
  }

  ghost function InsertRank(k: Path): nat {
    if k.Step? && k.color.Red? then 1 + Depth(k) else 0
  }

  // The links after a node has been put into an empty slot, before rebalancing.
  ghost function InsertedStore(s: Store, node: Node, parent: Node, side: Side, anchor: Node): Store
    requires node !in s && parent in s && anchor in s
  {
    var s1 := s[node := Cell(null, null, parent, Red)];
    if side.Left? then
      var s2 := s1[parent := s1[parent].(left := node)];
      if parent == anchor then
        var s3 := s2[anchor := s2[anchor].(parent := node)];
        s3[anchor := s3[anchor].(right := node)]
      else if parent == s2[anchor].left then s2[anchor := s2[anchor].(left := node)]
      else s2
    else
      var s2 := s1[parent := s1[parent].(right := node)];
      if parent == s2[anchor].right then s2[anchor := s2[anchor].(right := node)]
      else s2
  }

  // The slot of parent on this side is empty; under the anchor, the tree is empty.
  ghost predicate EmptySlot(k: Path, p: Tree, parent: Node, side: Side, anchor: Node) {
    if p.Leaf? then k.Top? && parent == anchor && side.Left?
    else p.node == parent && Sub(side, p).Leaf?
  }

  ghost function NewPath(k: Path, p: Tree, side: Side): Path {
    if p.Leaf? then k else Step(side, k, p.node, p.color, Sub(Other(side), p))
  }

  ghost function Filled(k: Path, p: Tree, side: Side, node: Node): Tree {
    Plug(NewPath(k, p, side), Fork(Leaf, node, Red, Leaf))
  }

  lemma {:induction false} FilledNodes(k: Path, p: Tree, side: Side, node: Node, parent: Node, anchor: Node)
    requires EmptySlot(k, p, parent, side, anchor) && Distinct(Plug(k, p))
    ensures Nodes(Filled(k, p, side, node)) == Nodes(Plug(k, p)) + {node}
    ensures node !in Nodes(Plug(k, p)) ==> Distinct(Filled(k, p, side, node))
    ensures Root(Filled(k, p, side, node)) == if p.Leaf? then node else Root(Plug(k, p))
  {
    var t := Fork(Leaf, node, Red, Leaf);
    var k' := NewPath(k, p, side);
    assert Plug(k, p) == Plug(k', Leaf);
    PlugDistinct(k', t);
    PlugDistinct(k', Leaf);
    RootPlug(k', t);
    RootPlug(k', Leaf);
  }

  // The new node stands directly beside its parent in the order.
  lemma {:induction false} FilledOrder(k: Path, p: Tree, side: Side, node: Node, parent: Node, anchor: Node)
    requires EmptySlot(k, p, parent, side, anchor) && Distinct(Plug(k, p))
    ensures var before, order := InOrder(Plug(k, p)), InOrder(Filled(k, p, side, node));
      if p.Leaf? then order == [node] && before == []
      else parent in before && order == InsertedBeside(before, node, parent, side)
  {
    PlugInOrder(NewPath(k, p, side), Fork(Leaf, node, Red, Leaf));
    PlugInOrder(k, p);
    if p.Fork? {
      NoDupInOrder(Plug(k, p));
      FilledSplit(k, p, side, node);
      InsertedBesideSplit(Before(k) + InOrder(p.left), p.node, InOrder(p.right) + After(k), node, side);
    }
  }

  lemma {:induction false} FilledSplit(k: Path, p: Tree, side: Side, node: Node)
    requires p.Fork? && Sub(side, p).Leaf?
    ensures var u, v := Before(k) + InOrder(p.left), InOrder(p.right) + After(k);
      && Before(k) + InOrder(p) + After(k) == u + [p.node] + v
      && Before(NewPath(k, p, side)) + InOrder(Fork(Leaf, node, Red, Leaf)) + After(NewPath(k, p, side))
        == if side.Left? then u + [node] + ([p.node] + v) else (u + [p.node]) + [node] + v
  {
    SplitAround(Before(k), InOrder(p.left), p.node, InOrder(p.right), After(k));
    assert InOrder(Fork(Leaf, node, Red, Leaf)) == [node];
    if side.Left? {
      assert Before(k) + InOrder(p.left) == Before(k);
      assert [p.node] + (InOrder(p.right) + After(k)) == [p.node] + InOrder(p.right) + After(k);
    } else {
      assert InOrder(p.right) + After(k) == After(k);
      assert Before(k) + InOrder(p.left) + [p.node] == Before(NewPath(k, p, side));
    }
  }

  lemma {:induction false} SplitAround(a: seq<Node>, b: seq<Node>, n: Node, c: seq<Node>, d: seq<Node>)
    ensures a + (b + [n] + c) + d == (a + b) + [n] + (c + d)
  {
  }

  lemma {:induction false} InsertedHolds(s: Store, k: Path, p: Tree, side: Side, node: Node, parent: Node, anchor: Node)
    requires Holds(s, Plug(k, p), anchor) && node !in s
    requires EmptySlot(k, p, parent, side, anchor)
    requires s[anchor] == AnchorCell(Plug(k, p), anchor)
    ensures parent in s
    ensures var s' := InsertedStore(s, node, parent, side, anchor);
      && Holds(s', Filled(k, p, side, node), anchor) && s'.Keys == s.Keys + {node}
      && s'[anchor] == AnchorCell(Filled(k, p, side, node), anchor)
  {
    Around(s, k, p, anchor);
    FilledNodes(k, p, side, node, parent, anchor);
    InsertedRep(s, k, p, side, node, parent, anchor);
    InsertedEnds(s, k, p, side, node, parent, anchor);
  }

  lemma {:induction false} InsertedRep(s: Store, k: Path, p: Tree, side: Side, node: Node, parent: Node, anchor: Node)
    requires Holds(s, Plug(k, p), anchor) && node !in s && parent in s
    requires EmptySlot(k, p, parent, side, anchor)
    ensures Rep(InsertedStore(s, node, parent, side, anchor), Filled(k, p, side, node), anchor)
    ensures InsertedStore(s, node, parent, side, anchor).Keys == s.Keys + {node}
  {
    var s' := InsertedStore(s, node, parent, side, anchor);
    var t := Fork(Leaf, node, Red, Leaf);
    var k' := NewPath(k, p, side);
    if p.Fork? {
      assert Plug(k, p) == Plug(k', Leaf);
      PlugDistinct(k', Leaf);
      Around(s, k', Leaf, anchor);
      RepSwap(s, s', k', Leaf, t, anchor);
    }
  }

  // Only a node put before the first or after the last one becomes an end.
  lemma {:induction false} InsertedEnds(s: Store, k: Path, p: Tree, side: Side, node: Node, parent: Node, anchor: Node)
    requires Holds(s, Plug(k, p), anchor) && node !in s && parent in s
    requires EmptySlot(k, p, parent, side, anchor)
    requires s[anchor] == AnchorCell(Plug(k, p), anchor)
    ensures InsertedStore(s, node, parent, side, anchor)[anchor] == AnchorCell(Filled(k, p, side, node), anchor)
  {
    FilledOrder(k, p, side, node, parent, anchor);
    FilledNodes(k, p, side, node, parent, anchor);
    NoDupInOrder(Plug(k, p));
    if p.Fork? {
      MemberInOrder(Plug(k, p), parent);
      InsertedBesideEnds(InOrder(Plug(k, p)), node, parent, side);
    }
  }

  // The subtree t is one black node short of what the path around it expects.
  ghost predicate EraseFix(k: Path, t: Tree) {
    && Balanced(t) && PathBalanced(k, Height(t) + 1)
    && (t.Fork? ==> NoRedRed(t.left) && NoRedRed(t.right)) && (IsBlack(t) ==> NoRedRed(t))
    && PathNoRedRed(k) && PathRootBlack(k)
  }

  ghost function EraseRank(k: Path, t: Tree): nat {
    if IsBlack(t) then Depth(k) else 0
  }

  lemma {:induction false} EraseDone(k: Path, t: Tree)
    requires (RedBlack(Plug(k, t)) && IsBlack(t)) || (EraseFix(k, t) && (k.Top? || !IsBlack(t)))
    ensures RedBlack(Plug(k, if t.Fork? then t.(color := Black) else t))
  {
    if EraseFix(k, t) && t.Fork? {
      var b := t.(color := Black);
      PlugBalanced(k, b);
      PlugNoRedRed(k, b);
      PlugRootBlack(k, b);
    }
  }

  lemma {:induction false} EraseSides(s: Store, k: Path, t: Tree, anchor: Node)
    requires Holds(s, Plug(k, t), anchor) && EraseFix(k, t)
    ensures t.Fork? ==> t.node in s && s[t.node] == Cell(Root(t.left), Root(t.right), Above(k, anchor), t.color)
    ensures Root(t) == s[anchor].parent <==> k.Top?
    ensures k.Step? ==> k.node in s && (Root(t) == s[k.node].left <==> k.side.Left?)
  {
    Around(s, k, t, anchor);
    RootPlug(k, t);
    PlugDistinct(k, t);
  }

  lemma {:induction false} EraseLookUp(s: Store, k: Path, t: Tree, anchor: Node)
    requires Holds(s, Plug(k, t), anchor) && EraseFix(k, t) && k.Step?
    ensures k.node in s && s[k.node] == PathCell(k, Root(t), anchor)
    ensures var w := k.sibling;
      && w.Fork? && w.node in s && s[w.node] == Cell(Root(w.left), Root(w.right), k.node, w.color)
      && w.node != Root(t)
      && (w.left.Fork? ==> w.left.node in s && s[w.left.node].color == w.left.color)
      && (w.right.Fork? ==> w.right.node in s && s[w.right.node].color == w.right.color)
  {
    RepFocus(s, k, t, anchor);
    PlugDistinct(k, t);
    assert Rep(s, k.sibling.left, k.sibling.node) && Rep(s, k.sibling.right, k.sibling.node);
  }

  lemma {:induction false} EraseRotated(k: Path, t: Tree)
    requires EraseFix(k, t) && k.Step? && IsBlack(t) && !IsBlack(k.sibling)
    ensures k.color.Black?
    ensures var up := Step(k.side, k.up, k.sibling.node, Black, Sub(Other(k.side), k.sibling));
      var k' := Step(k.side, up, k.node, Red, Sub(k.side, k.sibling));
      && EraseFix(k', t) && IsBlack(k'.sibling) && Depth(k') == Depth(k) + 1
  {
  }

  lemma {:induction false} EraseRecolored(k: Path, t: Tree)
    requires EraseFix(k, t) && k.Step? && IsBlack(t) && k.sibling.Fork? && IsBlack(k.sibling)
    requires IsBlack(k.sibling.left) && IsBlack(k.sibling.right)
    ensures EraseFix(k.up, Join(k.side, t, k.node, k.color, k.sibling.(color := Red)))
  {
    var w := k.sibling.(color := Red);
    assert Balanced(w) && NoRedRed(w) && Height(w) == Height(t);
  }

  lemma {:induction false} EraseTurned(k: Path, t: Tree)
    requires EraseFix(k, t) && k.Step? && IsBlack(t) && k.sibling.Fork? && IsBlack(k.sibling)
    requires !IsBlack(Sub(k.side, k.sibling)) && IsBlack(Sub(Other(k.side), k.sibling))
    ensures var w := k.sibling;
      var n := Sub(k.side, w);
      var low := Join(k.side, Sub(Other(k.side), n), w.node, Red, Sub(Other(k.side), w));
      EraseFix(k.(sibling := Join(k.side, Sub(k.side, n), n.node, Black, low)), t)
  {
    var w := k.sibling;
    var n := Sub(k.side, w);
    assert Balanced(n) && NoRedRed(n);
    var low := Join(k.side, Sub(Other(k.side), n), w.node, Red, Sub(Other(k.side), w));
    assert Balanced(low) && NoRedRed(low);
    var w' := Join(k.side, Sub(k.side, n), n.node, Black, low);
    assert Balanced(w') && NoRedRed(w') && Height(w') == Height(w);
  }

  lemma {:induction false} EraseFinished(k: Path, t: Tree)
    requires EraseFix(k, t) && k.Step? && IsBlack(t) && k.sibling.Fork? && IsBlack(k.sibling)
    requires !IsBlack(Sub(Other(k.side), k.sibling))
    ensures var w := k.sibling;
      var up := Step(k.side, k.up, w.node, k.color, Sub(Other(k.side), w).(color := Black));
      RedBlack(Plug(Step(k.side, up, k.node, Black, Sub(k.side, w)), t))
  {
    var w := k.sibling;
    assert Balanced(Sub(Other(k.side), w)) && NoRedRed(Sub(Other(k.side), w));
    var outer := Sub(Other(k.side), w).(color := Black);
    assert Balanced(outer) && NoRedRed(outer) && Height(outer) == Height(t) + 1;
    var low := Join(k.side, t, k.node, Black, Sub(k.side, w));
    assert Balanced(low) && NoRedRed(low) && Height(low) == Height(t) + 1;
    var top := Join(k.side, low, w.node, k.color, outer);
    PlugBalanced(k.up, top);
    PlugNoRedRed(k.up, top);
    PlugRootBlack(k.up, top);
  }

  lemma {:induction false} InsertStart(k: Path, p: Tree, side: Side, node: Node, parent: Node, anchor: Node)
    requires RedBlack(Plug(k, p)) && EmptySlot(k, p, parent, side, anchor)
    ensures InsertFix(NewPath(k, p, side), Fork(Leaf, node, Red, Leaf))
  {
    var k' := NewPath(k, p, side);
    assert Plug(k, p) == Plug(k', Leaf);
    PlugBalanced(k', Leaf);
    PlugNoRedRed(k', Leaf);
    PlugRootBlack(k', Leaf);
  }

  // What is left of a fork with at most one subtree.
  ghost function Only(t: Tree): Tree
    requires t.Fork?
  {
    if t.left.Leaf? then t.right else t.left
  }

  ghost predicate CanUnlink(s: Store, z: Node, child: Node?, anchor: Node) {
    && z in s && anchor in s && z != anchor && child != z && child != anchor
    && (child != null ==> child in s)
    && var p := s[z].parent;
    p != null && p in s && p != z && p != child && (z != s[anchor].parent ==> p != anchor)
  }

  ghost function Hooked(s: Store, z: Node, n: Node?, anchor: Node): Store
    requires z in s && anchor in s && s[z].parent != null && s[z].parent in s
  {
    var p := s[z].parent;
    if z == s[anchor].parent then s[anchor := s[anchor].(parent := n)]
    else if s[p].left == z then s[p := s[p].(left := n)]
    else s[p := s[p].(right := n)]
  }

  ghost function UnlinkedStore(s: Store, z: Node, child: Node?, anchor: Node): Store
    requires CanUnlink(s, z, child, anchor)
  {
    var p := s[z].parent;
    var s1 := if child == null then s else s[child := s[child].(parent := p)];
    Hooked(s1, z, child, anchor)
  }

  lemma {:induction false} UnlinkedCells(s: Store, z: Node, child: Node?, anchor: Node)
    requires CanUnlink(s, z, child, anchor)
    ensures var s', p, root := UnlinkedStore(s, z, child, anchor), s[z].parent, s[anchor].parent;
      && s'.Keys == s.Keys
      && (child != null ==> s'[child] == s[child].(parent := p))
      && s'[anchor] == s[anchor].(parent := if z == root then child else root)
      && (z != root ==> s'[p] == if s[p].left == z then s[p].(left := child) else s[p].(right := child))
      && forall n :: n in s && n != child && n != anchor && (z == root || n != p) ==> s'[n] == s[n]
  {
  }

  // The links of s2 are those of s with c hung into the hole of k.
  ghost predicate Hung(s: Store, s2: Store, k: Path, c: Tree, anchor: Node)
    requires anchor in s
  {
    && s2.Keys == s.Keys
    && (c.Fork? ==> c.node in s2 && s2[c.node] == Cell(Root(c.left), Root(c.right), Above(k, anchor), c.color))
    && (k.Step? ==> k.node in s2 && s2[k.node] == PathCell(k, Root(c), anchor))
    && s2[anchor] == s[anchor].(parent := if k.Top? then Root(c) else s[anchor].parent)
    && SameOn(s, s2, Nodes(c) - RootSet(c)) && SameOn(s, s2, PathNodes(k) - TopSet(k))
  }

  ghost function TopSet(k: Path): set<Node> {
    if k.Top? then {} else {k.node}
  }

  lemma {:induction false} UnlinkCan(s: Store, k: Path, t: Tree, anchor: Node)
    requires Holds(s, Plug(k, t), anchor) && t.Fork? && (t.left.Leaf? || t.right.Leaf?)
    ensures CanUnlink(s, t.node, Root(Only(t)), anchor)
  {
    Around(s, k, t, anchor);
    PlugDistinct(k, t);
    RootPlug(k, t);
    assert Only(t).Fork? ==> Only(t).node in Nodes(t);
  }

  lemma {:induction false} UnlinkHangs(s: Store, k: Path, t: Tree, anchor: Node)
    requires Holds(s, Plug(k, t), anchor) && t.Fork? && (t.left.Leaf? || t.right.Leaf?)
    requires CanUnlink(s, t.node, Root(Only(t)), anchor)
    ensures Hung(s, UnlinkedStore(s, t.node, Root(Only(t)), anchor), k, Only(t), anchor)
  {
    var c := Only(t);
    Around(s, k, t, anchor);
    PlugDistinct(k, t);
    RootPlug(k, t);
    RepFocus(s, k, t, anchor);
    assert Rep(s, c, t.node) && Distinct(c) && (c.Fork? ==> c.node in Nodes(t));
    UnlinkedCells(s, t.node, Root(c), anchor);
  }

  lemma {:induction false} HungRep(s: Store, s2: Store, k: Path, t: Tree, c: Tree, parent: Node, anchor: Node)
    requires anchor in s && Rep(s, Plug(k, t), anchor) && PathDistinct(k)
    requires Rep(s, c, parent) && Distinct(c) && Hung(s, s2, k, c, anchor)
    ensures Rep(s2, Plug(k, c), anchor)
  {
    RepReparent(s, s2, c, parent, Above(k, anchor));
    RepSwap(s, s2, k, t, c, anchor);
  }

  lemma {:induction false} OnlyNodes(k: Path, t: Tree)
    requires t.Fork? && (t.left.Leaf? || t.right.Leaf?) && Distinct(Plug(k, t))
    ensures PathDistinct(k) && Distinct(Only(t)) && Distinct(Plug(k, Only(t)))
    ensures Nodes(Plug(k, Only(t))) == Nodes(Plug(k, t)) - {t.node}
    ensures Root(Plug(k, Only(t))) == if k.Top? then Root(Only(t)) else Root(Plug(k, t))
  {
    PlugDistinct(k, t);
    PlugDistinct(k, Only(t));
    RootPlug(k, t);
    RootPlug(k, Only(t));
  }

  // A node outside the tree can be forgotten.
  lemma {:induction false} WithoutHolds(s: Store, z: Node, t: Tree, anchor: Node)
    requires Rep(s, t, anchor) && Distinct(t) && anchor !in Nodes(t)
    requires z !in Nodes(t) && z != anchor && s.Keys == Nodes(t) + {z, anchor}
    requires s[anchor].parent == Root(t)
    ensures Holds(s - {z}, t, anchor)
  {
    RepFrame(s, s - {z}, t, anchor);
  }

  lemma {:induction false} UnlinkHolds(s: Store, s2: Store, k: Path, t: Tree, anchor: Node)
    requires Holds(s, Plug(k, t), anchor) && t.Fork? && (t.left.Leaf? || t.right.Leaf?)
    requires Hung(s, s2, k, Only(t), anchor)
    ensures Holds(s2 - {t.node}, Plug(k, Only(t)), anchor)
  {
    OnlyNodes(k, t);
    RepFocus(s, k, t, anchor);
    HungRep(s, s2, k, t, Only(t), t.node, anchor);
    PlugDistinct(k, t);
    WithoutHolds(s2, t.node, Plug(k, Only(t)), anchor);
  }

  ghost predicate CanRelink(s: Store, z: Node, y: Node, child: Node?, anchor: Node) {
    && z in s && y in s && anchor in s && z != y && z != anchor && y != anchor
    && var zl, zr, p, cp := s[z].left, s[z].right, s[z].parent, s[y].parent;
    && zl != null && zl in s && zl != z && zl != y && zl != anchor
    && zr != null && zr in s && zr != z && zr != zl && zr != anchor
    && p != null && p in s && p != z && p != y && p != zl && p != zr && (z != s[anchor].parent ==> p != anchor)
    && (y != zr ==> cp != null && cp in s && cp != z && cp != y && cp != zl && cp != p && cp != anchor && child != zr)
    && (child != null ==>
      child in s && child != z && child != y && child != zl && child != p && child != anchor && child != cp)
  }

  ghost function RelinkedBelow(s: Store, z: Node, y: Node, child: Node?, anchor: Node): Store
    requires CanRelink(s, z, y, child, anchor)
  {
    var zl, zr, cp := s[z].left, s[z].right, s[y].parent;
    var s1 := s[zl := s[zl].(parent := y)];
    var s2 := s1[y := s1[y].(left := zl)];
    if y == zr then s2
    else
      var s3 := if child == null then s2 else s2[child := s2[child].(parent := cp)];
      var s4 := s3[cp := s3[cp].(left := child)];
      var s5 := s4[y := s4[y].(right := zr)];
      s5[zr := s5[zr].(parent := y)]
  }

  ghost function RelinkedAbove(s: Store, z: Node, y: Node, anchor: Node): Store
    requires z in s && y in s && anchor in s && s[z].parent != null && s[z].parent in s
  {
    var s1 := Hooked(s, z, y, anchor);
    var s2 := s1[y := s1[y].(parent := s1[z].parent)];
    var s3 := s2[y := s2[y].(color := s2[z].color)];
    s3[z := s3[z].(color := s2[y].color)]
  }

  lemma {:induction false} RelinkedBelowCells(s: Store, z: Node, y: Node, child: Node?, anchor: Node)
    requires CanRelink(s, z, y, child, anchor)
    ensures var s', zl, zr, cp := RelinkedBelow(s, z, y, child, anchor), s[z].left, s[z].right, s[y].parent;
      && s'.Keys == s.Keys
      && s'[zl] == s[zl].(parent := y)
      && s'[y] == (if y == zr then s[y].(left := zl) else s[y].(left := zl, right := zr))
      && (y != zr ==>
        && (child != null ==> s'[child] == s[child].(parent := cp))
        && s'[cp] == (if cp == zr then s[cp].(left := child, parent := y) else s[cp].(left := child))
        && s'[zr] == (if cp == zr then s[zr].(left := child, parent := y) else s[zr].(parent := y)))
      && forall n :: n in s && n != zl && n != y && (y == zr || (n != child && n != cp && n != zr)) ==> s'[n] == s[n]
  {
  }

  lemma {:induction false} RelinkedAboveCells(s: Store, z: Node, y: Node, anchor: Node)
    requires z in s && y in s && anchor in s && s[z].parent != null && s[z].parent in s
    requires z != y && y != anchor && z != anchor && s[z].parent != z && s[z].parent != y
    requires z != s[anchor].parent ==> s[z].parent != anchor
    ensures var s', p, root := RelinkedAbove(s, z, y, anchor), s[z].parent, s[anchor].parent;
      && s'.Keys == s.Keys
      && s'[y] == s[y].(parent := p, color := s[z].color)
      && s'[anchor] == s[anchor].(parent := if z == root then y else root)
      && (z != root ==> s'[p] == if s[p].left == z then s[p].(left := y) else s[p].(right := y))
      && forall n :: n in s && n != z && n != y && n != anchor && (z == root || n != p) ==> s'[n] == s[n]
  {
  }

  ghost function RelinkedStore(s: Store, z: Node, y: Node, child: Node?, anchor: Node): Store
    requires CanRelink(s, z, y, child, anchor)
  {
    RelinkedBelowCells(s, z, y, child, anchor);
    RelinkedAbove(RelinkedBelow(s, z, y, child, anchor), z, y, anchor)
  }

  // ---- the successor ----

  ghost function Append(inner: Path, outer: Path): Path {
    match inner
    case Top => outer
    case Step(side, up, n, c, sibling) => Step(side, Append(up, outer), n, c, sibling)
  }

  lemma {:induction false} AppendPlug(inner: Path, outer: Path, t: Tree)
    ensures Plug(Append(inner, outer), t) == Plug(outer, Plug(inner, t))
  {
    match inner
    case Top =>
    case Step(side, up, n, c, sibling) =>
      AppendPlug(up, outer, Join(side, t, n, c, sibling));
  }

  // The tree when the node z = t.node has been replaced by its successor y, the
  // node at the end of the path i in its right subtree.
  ghost function Succeeded(t: Tree, i: Path, f: Tree): Tree
    requires t.Fork? && f.Fork?
  {
    Fork(t.left, f.node, t.color, Plug(i, f.right))
  }

  ghost predicate Successor(t: Tree, i: Path, f: Tree) {
    && t.Fork? && t.left.Fork? && t.right.Fork? && f.Fork? && f.left.Leaf?
    && t.right == Plug(i, f) && Before(i) == [] && (i.Step? ==> i.side.Left?)
  }

  lemma {:induction false} SuccessorCan(s: Store, k: Path, t: Tree, i: Path, f: Tree, anchor: Node)
    requires Holds(s, Plug(k, t), anchor) && Successor(t, i, f)
    ensures CanRelink(s, t.node, f.node, Root(f.right), anchor)
    ensures f.node in s && s[f.node] == Cell(null, Root(f.right), Above(i, t.node), f.color)
    ensures f.node == s[t.node].right <==> i.Top?
    ensures i.Step? ==> i.node in s && s[i.node] == PathCell(i, f.node, t.node)
  {
    Around(s, k, t, anchor);
    PlugDistinct(k, t);
    PlugDistinct(i, f);
    RootPlug(k, t);
    RootPlug(i, f);
    SuccessorCells(s, k, t, i, f, anchor);
    assert f.right.Fork? ==> f.right.node in Nodes(f);
    assert t.left.node in Nodes(t) && Root(t.right) in Nodes(t.right);
  }

  lemma {:induction false} SuccessorCells(s: Store, k: Path, t: Tree, i: Path, f: Tree, anchor: Node)
    requires Holds(s, Plug(k, t), anchor) && Successor(t, i, f)
    ensures Rep(s, t, Above(k, anchor)) && Rep(s, f, Above(i, t.node))
    ensures Rep(s, t.left, t.node) && Rep(s, t.right, t.node)
    ensures f.right.Fork? ==> f.right.node in s
    ensures t.left.node in s && t.right.node in s
    ensures i.Step? ==> i.node in s && s[i.node] == PathCell(i, f.node, t.node)
  {
    RepFocus(s, k, t, anchor);
    RepFocus(s, i, f, t.node);
  }

  lemma {:induction false} SucceededLocal(t: Tree, i: Path, f: Tree)
    requires Distinct(t) && Successor(t, i, f)
    ensures Distinct(Plug(i, f.right)) && Nodes(Plug(i, f.right)) == Nodes(t.right) - {f.node}
    ensures i.Step? ==> Root(Plug(i, f.right)) == Root(t.right)
    ensures Distinct(Succeeded(t, i, f)) && Nodes(Succeeded(t, i, f)) == Nodes(t) - {t.node}
  {
    PlugDistinct(i, f);
    PlugDistinct(i, f.right);
    RootPlug(i, f);
    RootPlug(i, f.right);
  }

  lemma {:induction false} SucceededNodes(k: Path, t: Tree, i: Path, f: Tree)
    requires Distinct(Plug(k, t)) && Successor(t, i, f)
    ensures Distinct(Plug(k, Succeeded(t, i, f)))
    ensures Nodes(Plug(k, Succeeded(t, i, f))) == Nodes(Plug(k, t)) - {t.node}
    ensures Root(Plug(k, Succeeded(t, i, f))) == if k.Top? then f.node else Root(Plug(k, t))
  {
    PlugDistinct(k, t);
    SucceededLocal(t, i, f);
    PlugDistinct(k, Succeeded(t, i, f));
    RootPlug(k, t);
    RootPlug(k, Succeeded(t, i, f));
  }

  // The left subtree and what remains of the right one have moved under the successor.
  lemma {:induction false} BelowRep(s: Store, k: Path, t: Tree, i: Path, f: Tree, anchor: Node)
    requires Holds(s, Plug(k, t), anchor) && Successor(t, i, f)
    requires CanRelink(s, t.node, f.node, Root(f.right), anchor)
    ensures var s' := RelinkedBelow(s, t.node, f.node, Root(f.right), anchor);
      Rep(s', t.left, f.node) && Rep(s', Plug(i, f.right), f.node)
  {
    SuccessorCan(s, k, t, i, f, anchor);
    SuccessorCells(s, k, t, i, f, anchor);
    RelinkedBelowCells(s, t.node, f.node, Root(f.right), anchor);
    var s' := RelinkedBelow(s, t.node, f.node, Root(f.right), anchor);
    PlugDistinct(k, t);
    PlugDistinct(i, f);
    BelowLeft(s, s', t, i, f);
    if i.Top? {
      RepFrame(s, s', f.right, f.node);
    } else {
      BelowRight(s, s', t, i, f);
    }
  }

  lemma {:induction false} BelowLeft(s: Store, s': Store, t: Tree, i: Path, f: Tree)
    requires Distinct(t) && Successor(t, i, f) && Rep(s, t.left, t.node)
    requires t.left.node in s' && t.left.node in s && s'[t.left.node] == s[t.left.node].(parent := f.node)
    requires SameOn(s, s', Nodes(t.left) - {t.left.node})
    ensures Rep(s', t.left, f.node)
  {
    RepReparent(s, s', t.left, t.node, f.node);
  }

  lemma {:induction false} BelowRight(s: Store, s': Store, t: Tree, i: Path, f: Tree)
    requires Distinct(t) && Successor(t, i, f) && i.Step? && Rep(s, t.right, t.node)
    requires s.Keys == s'.Keys
    requires var zr, cp := t.right.node, i.node;
      && zr in s && cp in s
      && s'[cp] == (if cp == zr then s[cp].(left := Root(f.right), parent := f.node) else s[cp].(left := Root(f.right)))
      && s'[zr] == (if cp == zr then s[zr].(left := Root(f.right), parent := f.node) else s[zr].(parent := f.node))
      && (f.right.Fork? ==> f.right.node in s && s'[f.right.node] == s[f.right.node].(parent := cp))
      && forall n :: n in s && n in Nodes(t.right) && n != f.node && n != cp && n != zr && n != Root(f.right) ==>
        s'[n] == s[n]
    ensures Rep(s', Plug(i, f.right), f.node)
  {
    var zr := t.right.node;
    PlugDistinct(i, f);
    PlugDistinct(i, f.right);
    RootPlug(i, f);
    RootPlug(i, f.right);
    RepFocus(s, i, f, t.node);
    // the same links, with the top of the right subtree still under t.node
    var sA := s'[zr := s'[zr].(parent := t.node)];
    RepReparent(s, sA, f.right, f.node, i.node);
    RepSwap(s, sA, i, f, f.right, t.node);
    RepReparent(sA, s', Plug(i, f.right), t.node, f.node);
  }

  lemma {:induction false} AboveRep(s: Store, s1: Store, k: Path, t: Tree, i: Path, f: Tree, anchor: Node)
    requires Holds(s, Plug(k, t), anchor) && Successor(t, i, f) && s.Keys == s1.Keys
    requires t.node in s1 && f.node in s1 && s1[t.node] == s[t.node]
    requires s1[f.node] == Cell(Root(t.left), Root(Plug(i, f.right)), s1[f.node].parent, f.color)
    requires Rep(s1, t.left, f.node) && Rep(s1, Plug(i, f.right), f.node)
    requires SameOn(s, s1, PathNodes(k) + {anchor})
    ensures s1[t.node].parent != null && s1[t.node].parent in s1
    ensures var s2 := RelinkedAbove(s1, t.node, f.node, anchor);
      && s2.Keys == s.Keys && Rep(s2, Plug(k, Succeeded(t, i, f)), anchor)
      && s2[anchor] == s[anchor].(parent := if k.Top? then f.node else s[anchor].parent)
  {
    var z, y := t.node, f.node;
    Around(s, k, t, anchor);
    PlugDistinct(k, t);
    PlugDistinct(i, f);
    RootPlug(k, t);
    RelinkedAboveCells(s1, z, y, anchor);
    var s2 := RelinkedAbove(s1, z, y, anchor);
    SucceededLocal(t, i, f);
    RepFrame(s1, s2, t.left, y);
    RepFrame(s1, s2, Plug(i, f.right), y);
    RepSwap(s, s2, k, t, Succeeded(t, i, f), anchor);
  }

  // The nodes that are relinked lie below t.node.
  lemma {:induction false} SuccessorBelow(t: Tree, i: Path, f: Tree)
    requires Distinct(t) && Successor(t, i, f)
    ensures f.node in Nodes(t) - {t.node} && t.left.node in Nodes(t) - {t.node} && t.right.node in Nodes(t) - {t.node}
    ensures f.right.Fork? ==> f.right.node in Nodes(t) - {t.node}
    ensures i.Step? ==> i.node in Nodes(t) - {t.node}
  {
    PlugDistinct(i, f);
  }

  lemma {:induction false} BelowSame(s: Store, k: Path, t: Tree, i: Path, f: Tree, anchor: Node)
    requires Holds(s, Plug(k, t), anchor) && Successor(t, i, f)
    requires CanRelink(s, t.node, f.node, Root(f.right), anchor)
    ensures var s1 := RelinkedBelow(s, t.node, f.node, Root(f.right), anchor);
      s1.Keys == s.Keys && s1[t.node] == s[t.node] && SameOn(s, s1, PathNodes(k) + {anchor})
  {
    SuccessorCan(s, k, t, i, f, anchor);
    Around(s, k, t, anchor);
    RelinkedBelowCells(s, t.node, f.node, Root(f.right), anchor);
    PlugDistinct(k, t);
    SuccessorBelow(t, i, f);
  }

  lemma {:induction false} BelowSuccessor(s: Store, k: Path, t: Tree, i: Path, f: Tree, anchor: Node)
    requires Holds(s, Plug(k, t), anchor) && Successor(t, i, f)
    requires CanRelink(s, t.node, f.node, Root(f.right), anchor)
    ensures var s1 := RelinkedBelow(s, t.node, f.node, Root(f.right), anchor);
      f.node in s1 && s1[f.node] == Cell(Root(t.left), Root(Plug(i, f.right)), s1[f.node].parent, f.color)
  {
    SuccessorCan(s, k, t, i, f, anchor);
    Around(s, k, t, anchor);
    RelinkedBelowCells(s, t.node, f.node, Root(f.right), anchor);
    PlugDistinct(k, t);
    SucceededLocal(t, i, f);
  }

  // Putting the successor in the place of a node removes just that node.
  lemma {:induction false} RelinkHolds(s: Store, k: Path, t: Tree, i: Path, f: Tree, anchor: Node)
    requires Holds(s, Plug(k, t), anchor) && Successor(t, i, f)
    requires CanRelink(s, t.node, f.node, Root(f.right), anchor)
    ensures var s2 := RelinkedStore(s, t.node, f.node, Root(f.right), anchor);
      && s2.Keys == s.Keys && Holds(s2 - {t.node}, Plug(k, Succeeded(t, i, f)), anchor)
      && s2[anchor] == s[anchor].(parent := s2[anchor].parent)
  {
    SuccessorCan(s, k, t, i, f, anchor);
    BelowRep(s, k, t, i, f, anchor);
    BelowSame(s, k, t, i, f, anchor);
    BelowSuccessor(s, k, t, i, f, anchor);
    AboveRep(s, RelinkedBelow(s, t.node, f.node, Root(f.right), anchor), k, t, i, f, anchor);
    PlugDistinct(k, t);
    SucceededHolds(RelinkedStore(s, t.node, f.node, Root(f.right), anchor), k, t, i, f, anchor);
  }

  lemma {:induction false} SucceededHolds(s2: Store, k: Path, t: Tree, i: Path, f: Tree, anchor: Node)
    requires Distinct(Plug(k, t)) && anchor !in Nodes(Plug(k, t)) && Successor(t, i, f)
    requires Rep(s2, Plug(k, Succeeded(t, i, f)), anchor) && s2.Keys == Nodes(Plug(k, t)) + {anchor}
    requires s2[anchor].parent == if k.Top? then f.node else Root(Plug(k, t))
    ensures Holds(s2 - {t.node}, Plug(k, Succeeded(t, i, f)), anchor)
  {
    SucceededNodes(k, t, i, f);
    PlugDistinct(k, t);
    WithoutHolds(s2, t.node, Plug(k, Succeeded(t, i, f)), anchor);
  }

  // ---- what erasing leaves ----

  ghost function MinTree(t: Tree): Tree
    requires t.Fork?
    ensures MinTree(t).Fork?
  {
    if t.left.Leaf? then t else MinTree(t.left)
  }

  ghost function MinPath(t: Tree): Path
    requires t.Fork?
  {
    if t.left.Leaf? then Top else Append(MinPath(t.left), Step(Left, Top, t.node, t.color, t.right))
  }

  ghost function MaxTree(t: Tree): Tree
    requires t.Fork?
    ensures MaxTree(t).Fork?
  {
    if t.right.Leaf? then t else MaxTree(t.right)
  }

  lemma {:induction false} MinSplit(t: Tree)
    requires t.Fork?
    ensures t == Plug(MinPath(t), MinTree(t)) && MinTree(t).left.Leaf?
    ensures Before(MinPath(t)) == [] && (MinPath(t).Step? ==> MinPath(t).side.Left?)
  {
    if t.left.Fork? {
      MinSplit(t.left);
      AppendPlug(MinPath(t.left), Step(Left, Top, t.node, t.color, t.right), MinTree(t.left));
      AppendBefore(MinPath(t.left), Step(Left, Top, t.node, t.color, t.right));
    }
  }

  lemma {:induction false} AppendBefore(inner: Path, outer: Path)
    ensures Before(Append(inner, outer)) == Before(outer) + Before(inner)
  {
    if inner.Step? {
      AppendBefore(inner.up, outer);
    }
  }

  lemma {:induction false} EndsOfTree(t: Tree)
    requires t.Fork?
    ensures InOrder(t) != []
    ensures InOrder(t)[0] == MinTree(t).node
    ensures InOrder(t)[|InOrder(t)| - 1] == MaxTree(t).node
  {
    if t.left.Fork? {
      EndsOfTree(t.left);
    }
    if t.right.Fork? {
      EndsOfTree(t.right);
    }
  }

  lemma {:induction false} OnlyOrder(k: Path, t: Tree)
    requires t.Fork? && (t.left.Leaf? || t.right.Leaf?)
    ensures InOrder(Plug(k, t)) == (Before(k) + InOrder(t.left)) + [t.node] + (InOrder(t.right) + After(k))
    ensures InOrder(Plug(k, Only(t))) == (Before(k) + InOrder(t.left)) + (InOrder(t.right) + After(k))
  {
    PlugInOrder(k, t);
    PlugInOrder(k, Only(t));
    SplitAround(Before(k), InOrder(t.left), t.node, InOrder(t.right), After(k));
    if t.left.Leaf? {
      assert InOrder(t.left) == [];
    } else {
      assert InOrder(t.right) == [];
    }
  }

  // The ends after removing a node with at most one child, as the code finds them.
  lemma {:induction false} OnlyEnds(k: Path, t: Tree, anchor: Node)
    requires t.Fork? && (t.left.Leaf? || t.right.Leaf?) && Distinct(Plug(k, t))
    ensures var a, a', z := AnchorCell(Plug(k, t), anchor), AnchorCell(Plug(k, Only(t)), anchor), t.node;
      && a'.left == (if a.left != z then a.left else if t.right.Fork? then MinTree(t.right).node else Above(k, anchor))
      && a'.right == (if a.right != z then a.right else if t.left.Fork? then MaxTree(t.left).node else Above(k, anchor))
  {
    OnlyOrder(k, t);
    NoDupInOrder(Plug(k, t));
    var u, v := Before(k) + InOrder(t.left), InOrder(t.right) + After(k);
    EndsSplit(u, t.node, v, anchor);
    if t.right.Fork? {
      EndsOfTree(t.right);
    }
    if t.left.Fork? {
      EndsOfTree(t.left);
    }
    assert Before(k) == [] ==> k.Top? || After(k)[0] == k.node;
    assert After(k) == [] ==> k.Top? || Before(k)[|Before(k)| - 1] == k.node;
  }

  lemma {:induction false} EndsSplit(u: seq<Node>, z: Node, v: seq<Node>, anchor: Node)
    requires NoDup(u + [z] + v)
    ensures First(u + [z] + v, anchor) == z <==> u == []
    ensures Last(u + [z] + v, anchor) == z <==> v == []
    ensures First(u + v, anchor) == if u != [] then First(u + [z] + v, anchor) else First(v, anchor)
    ensures Last(u + v, anchor) == if v != [] then Last(u + [z] + v, anchor) else Last(u, anchor)
  {
    var s := u + [z] + v;
    assert s[|u|] == z;
  }

  lemma {:induction false} SucceededOrder(k: Path, t: Tree, i: Path, f: Tree)
    requires Successor(t, i, f)
    ensures var u, v := Before(k) + InOrder(t.left), InOrder(t.right) + After(k);
      && InOrder(Plug(k, t)) == u + [t.node] + v
      && InOrder(Plug(k, Succeeded(t, i, f))) == u + v
  {
    var rest := InOrder(Plug(i, f.right));
    PlugInOrder(k, t);
    PlugInOrder(k, Succeeded(t, i, f));
    SplitAround(Before(k), InOrder(t.left), t.node, InOrder(t.right), After(k));
    SplitAround(Before(k), InOrder(t.left), f.node, rest, After(k));
    MinFirst(i, f);
    ConcatAssociative([f.node], rest, After(k));
    ConcatAssociative(Before(k) + InOrder(t.left), [f.node], rest + After(k));
  }

  lemma {:induction false} MinFirst(i: Path, f: Tree)
    requires f.Fork? && f.left.Leaf? && Before(i) == []
    ensures InOrder(Plug(i, f)) == [f.node] + InOrder(Plug(i, f.right))
  {
    PlugInOrder(i, f);
    PlugInOrder(i, f.right);
    assert InOrder(f) == [f.node] + InOrder(f.right);
  }

  lemma {:induction false} AppendAbove(inner: Path, outer: Path, base: Node)
    ensures Above(Append(inner, outer), base) == Above(inner, Above(outer, base))
  {
  }

  lemma {:induction false} SucceededEnds(k: Path, t: Tree, i: Path, f: Tree, anchor: Node)
    requires Successor(t, i, f) && Distinct(Plug(k, t))
    ensures AnchorCell(Plug(k, Succeeded(t, i, f)), anchor)
      == AnchorCell(Plug(k, t), anchor).(parent := Root(Plug(k, Succeeded(t, i, f))))
  {
    SucceededOrder(k, t, i, f);
    NoDupInOrder(Plug(k, t));
    EndsOfTree(t.left);
    EndsOfTree(t.right);
    EndsSplit(Before(k) + InOrder(t.left), t.node, InOrder(t.right) + After(k), anchor);
  }

  // Either way, exactly the erased node leaves the order.
  lemma {:induction false} EraseOrder(k: Path, t: Tree)
    requires t.Fork? && Distinct(Plug(k, t))
    ensures t.node in InOrder(Plug(k, t))
    ensures t.left.Leaf? || t.right.Leaf? ==>
      InOrder(Plug(k, Only(t))) == Without(InOrder(Plug(k, t)), t.node)
    ensures t.left.Fork? && t.right.Fork? ==>
      var f := MinTree(t.right);
      InOrder(Plug(Append(MinPath(t.right), Step(Right, k, f.node, t.color, t.left)), f.right))
        == Without(InOrder(Plug(k, t)), t.node)
  {
    NoDupInOrder(Plug(k, t));
    var u, v := Before(k) + InOrder(t.left), InOrder(t.right) + After(k);
    if t.left.Leaf? || t.right.Leaf? {
      OnlyOrder(k, t);
      WithoutSplit(u, t.node, v);
    } else {
      var i, f := MinPath(t.right), MinTree(t.right);
      MinSplit(t.right);
      SucceededOrder(k, t, i, f);
      WithoutSplit(u, t.node, v);
      AppendPlug(i, Step(Right, k, f.node, t.color, t.left), f.right);
    }
  }

  lemma {:induction false} WithoutSplit(u: seq<Node>, z: Node, v: seq<Node>)
    requires NoDup(u + [z] + v)
    ensures z in u + [z] + v && Without(u + [z] + v, z) == u + v
  {
    assert (u + [z] + v)[|u|] == z;
    IndexUnique(u + [z] + v, |u|, z);
  }

  // Taking out a red node keeps the red-black conditions; taking out a black
  // one leaves its place one black node short.
  lemma {:induction false} EraseStart(k: Path, t: Tree)
    requires t.Fork? && RedBlack(Plug(k, t))
    ensures t.left.Leaf? || t.right.Leaf? ==> Shortened(k, t)
    ensures t.left.Fork? && t.right.Fork? ==>
      var f := MinTree(t.right);
      Shortened(Append(MinPath(t.right), Step(Right, k, f.node, t.color, t.left)), f)
  {
    if t.left.Leaf? || t.right.Leaf? {
      EraseStartOnly(k, t);
    } else {
      var i, f := MinPath(t.right), MinTree(t.right);
      MinSplit(t.right);
      var outer := Step(Right, k, f.node, t.color, t.left);
      var t' := t.(node := f.node);
      PlugBalanced(k, t);
      PlugBalanced(k, t');
      PlugNoRedRed(k, t);
      PlugNoRedRed(k, t');
      PlugRootBlack(k, t);
      PlugRootBlack(k, t');
      AppendPlug(i, outer, f);
      EraseStartOnly(Append(i, outer), f);
    }
  }

  ghost predicate Shortened(k: Path, t: Tree) {
    && t.Fork? && (t.left.Leaf? || t.right.Leaf?)
    && if t.color.Black? then EraseFix(k, Only(t)) else RedBlack(Plug(k, Only(t)))
  }

  lemma {:induction false} EraseStartOnly(k: Path, t: Tree)
    requires t.Fork? && RedBlack(Plug(k, t)) && (t.left.Leaf? || t.right.Leaf?)
    ensures Shortened(k, t)
  {
    PlugBalanced(k, t);
    PlugNoRedRed(k, t);
    PlugRootBlack(k, t);
    PlugBalanced(k, Only(t));
    PlugNoRedRed(k, Only(t));
    PlugRootBlack(k, Only(t));
  }

  // ---- black counts ----

  lemma {:induction false} LinkInside(s: Store, t: Tree, n: Node, anchor: Node)
    requires Holds(s, t, anchor) && n in s
    ensures s[n].parent != null ==> s[n].parent in s
  {
    if n != anchor {
      var k, f := Focus(t, n, Top);
      Around(s, k, f, anchor);
    }
  }

  lemma {:induction false} SidesOf(s: Store, t: Tree, n: Node, anchor: Node)
    requires Holds(s, t, anchor) && n in Nodes(t)
    ensures n in s && s[n].left == Root(Subtree(t, n).left) && s[n].right == Root(Subtree(t, n).right)
  {
    var p := SubtreeRep(s, t, anchor, n);
  }

  lemma {:induction false} CountEnds(s: Store, t: Tree, top: Node?, bottom: Node?, anchor: Node, i: nat)
    requires Holds(s, t, anchor) && RedBlack(t) && s[anchor].color.Red? && FirstMeets(s, top, bottom, i)
    requires bottom != null ==> bottom in s
    ensures var count := BlacksPassed(s, bottom, i + 1);
      && (Below(t, top, bottom) ==>
        && count == BlacksOn(Subtree(t, top), bottom) <= Height(Subtree(t, top))
        && (s[bottom].left == null || s[bottom].right == null ==> count == Height(Subtree(t, top))))
      && (top == anchor && bottom in Nodes(t) ==> count == BlacksOn(t, bottom))
      && (bottom == null || (bottom == anchor && (t.Leaf? || top == anchor)) ==> count == 0)
      && (bottom == anchor && t.Fork? && top == t.node ==> count == 1)
  {
    if Below(t, top, bottom) {
      CountBelow(s, t, top, bottom, anchor, i);
      SubtreeNodes(t, top);
      WayBelow(t, bottom, top);
      WayWithin(t, bottom, top);
      SubtreeBalanced(t, top);
      BlacksUniform(Subtree(t, top), bottom);
      SidesOf(s, t, bottom, anchor);
    } else if bottom in Nodes(t) {
      if top == anchor {
        CountAnchor(s, t, bottom, anchor, i);
      }
    } else {
      CountOutside(s, t, top, bottom, anchor, i);
    }
  }

  // ---- stepping ----

  ghost function Next(order: seq<Node>, n: Node, anchor: Node): Node
    requires n in order
  {
    var i := IndexOf(order, n);
    if i + 1 < |order| then order[i + 1] else anchor
  }

  // The first node has no previous one: the code then arrives at the anchor, or
  // stays at the root if the root is the first node.
  ghost function Previous(order: seq<Node>, n: Node, anchor: Node, root: Node?): Node?
    requires n in order
  {
    var i := IndexOf(order, n);
    if i > 0 then order[i - 1] else if n == root then n else anchor
  }

  // The nodes in order are distinct, have cells and are not the anchor.
  lemma {:induction false} OrderNodes(s: Store, t: Tree, anchor: Node)
    requires Holds(s, t, anchor)
    ensures NoDup(InOrder(t)) && forall n :: n in InOrder(t) ==> n in s && n != anchor
  {
    NoDupInOrder(t);
    forall n | n in InOrder(t) ensures n in s && n != anchor {
      MemberInOrder(t, n);
    }
  }

  lemma {:induction false} StepsInverse(order: seq<Node>, n: Node, anchor: Node, root: Node?)
    requires NoDup(order) && n in order && anchor !in order
    ensures var m := Next(order, n, anchor);
      if m == anchor then n == Last(order, anchor) else m in order && Previous(order, m, anchor, root) == n
  {
    var i := IndexOf(order, n);
    if i + 1 < |order| {
      IndexUnique(order, i + 1, order[i + 1]);
    }
  }

  lemma {:induction false} StepsBack(order: seq<Node>, n: Node, anchor: Node, root: Node?)
    requires NoDup(order) && anchor !in order && order != []
    requires (n in order || n == anchor) && n != First(order, anchor)
    ensures var m := if n in order then Previous(order, n, anchor, root) else Last(order, anchor);
      m != null && m in order && Next(order, m, anchor) == n
  {
    if n in order {
      var i := IndexOf(order, n);
      IndexUnique(order, i - 1, order[i - 1]);
    } else {
      IndexUnique(order, |order| - 1, order[|order| - 1]);
    }
  }

  // Erasing a node right after its insertion restores the order.
  lemma {:induction false} InsertThenErase(order: seq<Node>, node: Node, parent: Node, side: Side)
    requires NoDup(order) && parent in order && node !in order
    ensures var grown := InsertedBeside(order, node, parent, side);
      NoDup(grown) && node in grown && Without(grown, node) == order
  {
    PutAndRemove(order, node, IndexOf(order, parent) + if side.Left? then 0 else 1);
  }

  lemma {:induction false} PutAndRemove(order: seq<Node>, node: Node, i: nat)
    requires NoDup(order) && node !in order && i <= |order|
    ensures var grown := order[..i] + [node] + order[i..];
      NoDup(grown) && node in grown && Without(grown, node) == order
  {
    var u, v := order[..i], order[i..];
    forall n | n in u ensures n !in v {
      assert forall j, k :: 0 <= j < i <= k < |order| ==> order[j] != order[k];
    }
    NoDupJoin(u, node, v);
    var grown := u + [node] + v;
    assert grown[i] == node;
    IndexUnique(grown, i, node);
    assert grown[..i] == u && grown[i + 1..] == v && u + v == order;
  }

  lemma {:induction false} NeighboursAt(k: Path, t: Tree, anchor: Node)
    requires t.Fork? && Distinct(Plug(k, t))
    ensures var order := InOrder(Plug(k, t));
      && t.node in order
      && Next(order, t.node, anchor) == (if t.right.Fork? then MinTree(t.right).node else First(After(k), anchor))
      && Previous(order, t.node, anchor, Root(Plug(k, t))) == (if t.left.Fork? then MaxTree(t.left).node
        else if Before(k) != [] then Last(Before(k), anchor)
        else if First(order, anchor) == Root(Plug(k, t)) then Root(Plug(k, t)) else anchor)
  {
    RootPlug(k, t);
    PlugDistinct(k, t);
    var u, v := Before(k) + InOrder(t.left), InOrder(t.right) + After(k);
    PlugInOrder(k, t);
    SplitAround(Before(k), InOrder(t.left), t.node, InOrder(t.right), After(k));
    NoDupInOrder(Plug(k, t));
    BesideNode(u, t.node, v, anchor, Root(Plug(k, t)));
    if t.right.Fork? {
      EndsOfTree(t.right);
    }
    if t.left.Fork? {
      EndsOfTree(t.left);
    }
  }

  lemma {:induction false} BesideNode(u: seq<Node>, n: Node, v: seq<Node>, anchor: Node, root: Node?)
    requires NoDup(u + [n] + v)
    ensures n in u + [n] + v && Next(u + [n] + v, n, anchor) == First(v, anchor)
    ensures Previous(u + [n] + v, n, anchor, root)
      == if u != [] then Last(u, anchor) else if n == root then n else anchor
  {
    assert (u + [n] + v)[|u|] == n;
    IndexUnique(u + [n] + v, |u|, n);
  }

  // Only the anchor is its own grandparent and red.
  lemma {:induction false} GrandparentLookUp(s: Store, k: Path, t: Tree, anchor: Node)
    requires Holds(s, Plug(k, t), anchor) && t.Fork? && IsBlack(Plug(k, t))
    ensures t.node in s && s[t.node].parent != null && s[t.node].parent in s
    ensures s[s[t.node].parent].parent == t.node ==> s[t.node].color == Black
    ensures s[anchor].parent != null && s[anchor].parent in s && s[s[anchor].parent].parent == anchor
  {
    Around(s, k, t, anchor);
    Around(s, Top, Plug(k, t), anchor);
    RootPlug(k, t);
    PlugDistinct(k, t);
    if k.Step? {
      ClimbLookUp(s, k, t, anchor);
    }
  }

  lemma {:induction false} ClimbLookUp(s: Store, k: Path, t: Tree, anchor: Node)
    requires Holds(s, Plug(k, t), anchor) && t.Fork?
    ensures t.node in s && s[t.node].parent == Above(k, anchor) && t.node != anchor
    ensures s[t.node].left != anchor && s[t.node].right != anchor && (k.Step? ==> s[t.node].right != k.node)
    ensures k.Top? <==> t.node == s[anchor].parent
    ensures k.Step? ==> k.node in s && s[k.node].parent == Above(k.up, anchor)
    ensures k.Step? ==> (s[k.node].right == t.node <==> k.side.Right?) && (s[k.node].left == t.node <==> k.side.Left?)
  {
    Around(s, k, t, anchor);
    RootPlug(k, t);
    PlugDistinct(k, t);
  }

  lemma {:induction false} Around(s: Store, k: Path, t: Tree, anchor: Node)
    requires Holds(s, Plug(k, t), anchor)
    ensures t.Fork? ==> t.node in s && s[t.node] == Cell(Root(t.left), Root(t.right), Above(k, anchor), t.color)
    ensures k.Step? ==> k.node in s && s[k.node] == PathCell(k, Root(t), anchor)
    ensures k.Step? && k.sibling.Fork? ==> k.sibling.node in s && s[k.sibling.node].color == k.sibling.color
    ensures k.Step? ==> Root(t) != Root(k.sibling) || Root(t) == null
  {
    RepFocus(s, k, t, anchor);
    PlugDistinct(k, t);
  }

  // What the loop reads: the node, its parent, its grandparent and its uncle.
  lemma {:induction false} LookUp(s: Store, k: Path, t: Tree, anchor: Node)
    requires Holds(s, Plug(k, t), anchor) && InsertFix(k, t)
    ensures t.node in s && s[t.node].parent == Above(k, anchor)
    ensures t.node == s[anchor].parent <==> k.Top?
    ensures k.Step? ==> k.node in s && s[k.node] == PathCell(k, t.node, anchor) && Root(k.sibling) != t.node
    ensures k.Step? && k.color.Red? ==> k.up.Step?
    ensures k.Step? && k.up.Step? ==>
      k.up.node in s && s[k.up.node] == PathCell(k.up, k.node, anchor) && Root(k.up.sibling) != k.node
    ensures k.Step? && k.up.Step? && k.up.sibling.Fork? ==>
      k.up.sibling.node in s && s[k.up.sibling.node].color == k.up.sibling.color
  {
    Around(s, k, t, anchor);
    RootPlug(k, t);
    PlugDistinct(k, t);
    if k.Step? {
      Around(s, k.up, Join(k.side, t, k.node, k.color, k.sibling), anchor);
    }
  }

  lemma {:induction false} InsertDone(k: Path, t: Tree)
    requires InsertFix(k, t) && (k.Top? || k.color.Black?)
    ensures Plug(k, t).Fork? && RedBlack(Plug(k, t).(color := Black))
  {
    PlugBalanced(k, t);
    PlugNoRedRed(k, t);
    PlugRootBlack(k, t);
    RootPlug(k, t);
  }

  // Where the repair goes next when the uncle is red.
  lemma {:induction false} InsertRecolored(k: Path, t: Tree)
    requires InsertFix(k, t) && k.Step? && k.color.Red? && !IsBlack(k.up.sibling)
    ensures var p := Join(k.side, t, k.node, Black, k.sibling);
      InsertFix(k.up.up, Join(k.up.side, p, k.up.node, Red, k.up.sibling.(color := Black)))
    ensures k.up.color.Black? && InsertRank(k.up.up) < InsertRank(k)
  {
    assert Depth(k.up) == 1 + Depth(k.up.up);
    assert PathNoRedRed(k.up) && PathBalanced(k.up, Height(t)) && PathRootBlack(k.up);
    var p := Join(k.side, t, k.node, Black, k.sibling);
    assert Balanced(p) && NoRedRed(p);
  }

  lemma {:induction false} InsertRotated(k: Path, t: Tree)
    requires InsertFix(k, t) && k.Step? && k.color.Red? && k.up.Step? && IsBlack(k.up.sibling) && k.side == k.up.side
    ensures InsertFix(Step(k.side, k.up.up, k.node, Black, Join(k.side, k.sibling, k.up.node, Red, k.up.sibling)), t)
    ensures k.up.color.Black?
  {
    assert PathNoRedRed(k.up) && PathBalanced(k.up, Height(t)) && PathRootBlack(k.up);
  }

  lemma {:induction false} InsertTurned(k: Path, t: Tree)
    requires InsertFix(k, t) && k.Step? && k.color.Red? && k.up.Step? && IsBlack(k.up.sibling) && k.side != k.up.side
    ensures InsertFix(Step(k.up.side, k.up, t.node, Red, Sub(k.side, t)),
                     Join(k.up.side, k.sibling, k.node, Red, Sub(k.up.side, t)))
  {
    assert PathNoRedRed(k.up) && PathBalanced(k.up, Height(t)) && PathRootBlack(k.up);
    TurnedTree(k.side, t, k.sibling, k.node);
  }

  lemma {:induction false} TurnedTree(side: Side, t: Tree, sibling: Tree, node: Node)
    requires t.Fork? && t.color.Red? && Balanced(t) && NoRedRed(t)
    requires Balanced(sibling) && NoRedRed(sibling) && IsBlack(sibling) && Height(sibling) == Height(t)
    ensures var r := Join(Other(side), sibling, node, Red, Sub(Other(side), t));
      Balanced(r) && NoRedRed(r) && Height(r) == Height(t)
    ensures var o := Sub(side, t); Balanced(o) && NoRedRed(o) && IsBlack(o) && Height(o) == Height(t)
  {
  }
}
