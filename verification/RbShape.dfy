// The mathematical side of the red-black tree engine: what a set of linked
// nodes represents, where a node sits in it, and when it is a red-black tree.
module RbShape {
  import Modular
  import opened Sequences

  datatype Color = Red | Black

  datatype Side = Left | Right

  // The links a node carries: rbtree_node_base.
  class Node {
    var left: Node?
    var right: Node?
    var parent: Node?
    var color: Color

    constructor ()
      ensures left == right == parent == null && color == Red
    {
      left, right, parent, color := null, null, null, Red;
    }
  }

  datatype Cell = Cell(left: Node?, right: Node?, parent: Node?, color: Color)

  // The field values of a set of nodes at one moment.
  type Store = map<Node, Cell>

  datatype Tree = Leaf | Fork(left: Tree, node: Node, color: Color, right: Tree)

  // A tree with a hole: the way from the hole up to the root.
  datatype Path = Top | Step(side: Side, up: Path, node: Node, color: Color, sibling: Tree)

  ghost function Root(t: Tree): Node? {
    if t.Leaf? then null else t.node
  }

  ghost function Join(side: Side, t: Tree, n: Node, c: Color, sibling: Tree): Tree {
    if side.Left? then Fork(t, n, c, sibling) else Fork(sibling, n, c, t)
  }

  ghost function Plug(k: Path, t: Tree): Tree {
    match k
    case Top => t
    case Step(side, up, n, c, sibling) => Plug(up, Join(side, t, n, c, sibling))
  }

  lemma {:induction false} RootPlug(k: Path, t: Tree)
    ensures k.Top? ==> Root(Plug(k, t)) == Root(t)
    ensures k.Step? ==> Root(Plug(k, t)) == TopNode(k) && TopNode(k) in PathNodes(k)
  {
    match k
    case Top =>
    case Step(side, up, n, c, sibling) =>
      RootPlug(up, Join(side, t, n, c, sibling));
  }

  ghost function TopNode(k: Path): Node
    requires k.Step?
  {
    if k.up.Top? then k.node else TopNode(k.up)
  }

  // ---- the nodes of a tree, in order ----

  ghost function InOrder(t: Tree): seq<Node> {
    match t
    case Leaf => []
    case Fork(l, n, _, r) => InOrder(l) + [n] + InOrder(r)
  }

  ghost function Before(k: Path): seq<Node> {
    match k
    case Top => []
    case Step(side, up, n, _, sibling) => if side.Left? then Before(up) else Before(up) + InOrder(sibling) + [n]
  }

  ghost function After(k: Path): seq<Node> {
    match k
    case Top => []
    case Step(side, up, n, _, sibling) => if side.Left? then [n] + InOrder(sibling) + After(up) else After(up)
  }

  lemma {:induction false} PlugInOrder(k: Path, t: Tree)
    ensures InOrder(Plug(k, t)) == Before(k) + InOrder(t) + After(k)
  {
    match k
    case Top =>
    case Step(side, up, n, c, sibling) =>
      PlugInOrder(up, Join(side, t, n, c, sibling));
  }

  ghost function Nodes(t: Tree): set<Node> {
    match t
    case Leaf => {}
    case Fork(l, n, _, r) => Nodes(l) + {n} + Nodes(r)
  }

  ghost function PathNodes(k: Path): set<Node> {
    match k
    case Top => {}
    case Step(_, up, n, _, sibling) => PathNodes(up) + {n} + Nodes(sibling)
  }

  ghost function RootSet(t: Tree): set<Node> {
    if t.Leaf? then {} else {t.node}
  }

  ghost predicate Distinct(t: Tree) {
    match t
    case Leaf => true
    case Fork(l, n, _, r) =>
      && n !in Nodes(l) && n !in Nodes(r) && Nodes(l) !! Nodes(r)
      && Distinct(l) && Distinct(r)
  }

  ghost predicate PathDistinct(k: Path) {
    match k
    case Top => true
    case Step(_, up, n, _, sibling) =>
      && n !in Nodes(sibling) && n !in PathNodes(up) && Nodes(sibling) !! PathNodes(up)
      && PathDistinct(up) && Distinct(sibling)
  }

  lemma {:induction false} PlugDistinct(k: Path, t: Tree)
    ensures Nodes(Plug(k, t)) == PathNodes(k) + Nodes(t)
    ensures Distinct(Plug(k, t)) <==> PathDistinct(k) && Distinct(t) && PathNodes(k) !! Nodes(t)
  {
    match k
    case Top =>
    case Step(side, up, n, c, sibling) =>
      PlugDistinct(up, Join(side, t, n, c, sibling));
  }

  // ---- positions in the order ----

  ghost function IndexOf(order: seq<Node>, n: Node): (i: nat)
    requires n in order
    ensures i < |order| && order[i] == n
  {
    var i :| 0 <= i < |order| && order[i] == n;
    i
  }

  lemma {:induction false} IndexUnique(order: seq<Node>, i: nat, n: Node)
    requires NoDup(order) && i < |order| && order[i] == n
    ensures IndexOf(order, n) == i
  {
  }

  // The order with node placed directly before (Left) or after (Right) parent.
  ghost function InsertedBeside(order: seq<Node>, node: Node, parent: Node, side: Side): seq<Node>
    requires parent in order
  {
    var i := IndexOf(order, parent) + if side.Left? then 0 else 1;
    order[..i] + [node] + order[i..]
  }

  ghost function Without(order: seq<Node>, node: Node): seq<Node>
    requires node in order
  {
    order[..IndexOf(order, node)] + order[IndexOf(order, node) + 1..]
  }

  lemma {:induction false} InsertedBesideSplit(u: seq<Node>, parent: Node, v: seq<Node>, node: Node, side: Side)
    requires NoDup(u + [parent] + v)
    ensures parent in u + [parent] + v
    ensures InsertedBeside(u + [parent] + v, node, parent, side)
      == if side.Left? then u + [node] + ([parent] + v) else (u + [parent]) + [node] + v
  {
    assert (u + [parent] + v)[|u|] == parent;
    IndexUnique(u + [parent] + v, |u|, parent);
  }

  lemma {:induction false} InsertedBesideEnds(order: seq<Node>, node: Node, parent: Node, side: Side)
    requires parent in order && NoDup(order)
    ensures var order' := InsertedBeside(order, node, parent, side);
      && order'[0] == (if side.Left? && parent == order[0] then node else order[0])
      && order'[|order'| - 1] == (if side.Right? && parent == order[|order| - 1] then node else order[|order| - 1])
  {
  }

  lemma {:induction false} MemberInOrder(t: Tree, n: Node)
    ensures n in InOrder(t) <==> n in Nodes(t)
  {
    if t.Fork? {
      MemberInOrder(t.left, n);
      MemberInOrder(t.right, n);
    }
  }

  lemma {:induction false} NoDupInOrder(t: Tree)
    requires Distinct(t)
    ensures NoDup(InOrder(t))
  {
    if t.Fork? {
      NoDupInOrder(t.left);
      NoDupInOrder(t.right);
      MemberInOrder(t.left, t.node);
      MemberInOrder(t.right, t.node);
      forall m | m in InOrder(t.left) ensures m !in InOrder(t.right) {
        MemberInOrder(t.left, m);
        MemberInOrder(t.right, m);
      }
      NoDupJoin(InOrder(t.left), t.node, InOrder(t.right));
    }
  }

  lemma {:induction false} NoDupJoin(a: seq<Node>, n: Node, b: seq<Node>)
    requires NoDup(a) && NoDup(b) && n !in a && n !in b
    requires forall m :: m in a ==> m !in b
    ensures NoDup(a + [n] + b)
  {
    var s := a + [n] + b;
    forall i, j | 0 <= i < j < |s| ensures s[i] != s[j] {
      if i < |a| {
        assert s[i] in a;
        assert |a| < j ==> s[j] == b[j - |a| - 1];
      } else {
        assert s[j] == b[j - |a| - 1];
        assert |a| < i ==> s[i] == b[i - |a| - 1];
      }
    }
  }

  // ---- representation by linked nodes ----

  ghost predicate Rep(s: Store, t: Tree, parent: Node) {
    match t
    case Leaf => true
    case Fork(l, n, c, r) =>
      && n in s && s[n] == Cell(Root(l), Root(r), parent, c)
      && Rep(s, l, n) && Rep(s, r, n)
  }

  ghost predicate SameOn(s: Store, s': Store, ns: set<Node>) {
    forall n :: n in ns && n in s ==> n in s' && s'[n] == s[n]
  }

  lemma {:induction false} RepFrame(s: Store, s': Store, t: Tree, parent: Node)
    requires Rep(s, t, parent) && SameOn(s, s', Nodes(t))
    ensures Rep(s', t, parent)
  {
    match t
    case Leaf =>
    case Fork(l, n, c, r) =>
      RepFrame(s, s', l, n);
      RepFrame(s, s', r, n);
  }

  lemma {:induction false} RepReparent(s: Store, s': Store, t: Tree, parent: Node, parent': Node)
    requires Rep(s, t, parent) && Distinct(t)
    requires t.Fork? ==> t.node in s' && s'[t.node] == Cell(Root(t.left), Root(t.right), parent', t.color)
    requires SameOn(s, s', Nodes(t) - RootSet(t))
    ensures Rep(s', t, parent')
  {
    if t.Fork? {
      RepFrame(s, s', t.left, t.node);
      RepFrame(s, s', t.right, t.node);
    }
  }

  ghost function Above(k: Path, base: Node): Node {
    if k.Top? then base else k.node
  }

  lemma {:induction false} RepFocus(s: Store, k: Path, t: Tree, base: Node)
    requires Rep(s, Plug(k, t), base)
    ensures Rep(s, t, Above(k, base))
    ensures k.Step? ==> k.node in s && Rep(s, k.sibling, k.node) && s[k.node] == PathCell(k, Root(t), base)
  {
    match k
    case Top =>
    case Step(side, up, n, c, sibling) =>
      RepFocus(s, up, Join(side, t, n, c, sibling), base);
  }

  ghost function PathCell(k: Path, hole: Node?, base: Node): Cell
    requires k.Step?
  {
    if k.side.Left? then Cell(hole, Root(k.sibling), Above(k.up, base), k.color)
    else Cell(Root(k.sibling), hole, Above(k.up, base), k.color)
  }

  // Changing what fills the hole: only the link that leads to the hole changes above it.
  lemma {:induction false} RepSwap(s: Store, s': Store, k: Path, t: Tree, t': Tree, base: Node)
    requires Rep(s, Plug(k, t), base) && PathDistinct(k)
    requires Rep(s', t', Above(k, base))
    requires k.Step? ==> k.node in s' && s'[k.node] == PathCell(k, Root(t'), base)
    requires k.Step? ==> SameOn(s, s', PathNodes(k) - {k.node})
    ensures Rep(s', Plug(k, t'), base)
  {
    match k
    case Top =>
    case Step(side, up, n, c, sibling) =>
      RepFocus(s, k, t, base);
      RepFrame(s, s', sibling, n);
      RepFocus(s, up, Join(side, t, n, c, sibling), base);
      RepSwap(s, s', up, Join(side, t, n, c, sibling), Join(side, t', n, c, sibling), base);
  }

  lemma {:induction false} RecolorRep(s: Store, k: Path, t: Tree, c: Color, base: Node)
    requires Rep(s, Plug(k, t), base) && Distinct(Plug(k, t)) && t.Fork?
    ensures t.node in s && Rep(s[t.node := s[t.node].(color := c)], Plug(k, t.(color := c)), base)
    ensures Nodes(Plug(k, t.(color := c))) == Nodes(Plug(k, t)) && Distinct(Plug(k, t.(color := c)))
    ensures InOrder(Plug(k, t.(color := c))) == InOrder(Plug(k, t))
  {
    var t' := t.(color := c);
    RepFocus(s, k, t, base);
    PlugDistinct(k, t);
    PlugDistinct(k, t');
    PlugInOrder(k, t);
    PlugInOrder(k, t');
    var s' := s[t.node := s[t.node].(color := c)];
    RepFrame(s, s', t.left, t.node);
    RepFrame(s, s', t.right, t.node);
    RepSwap(s, s', k, t, t', base);
  }

  // ---- rotations ----

  ghost function Other(side: Side): Side {
    if side.Left? then Right else Left
  }

  ghost function Sub(side: Side, t: Tree): Tree
    requires t.Fork?
  {
    if side.Left? then t.left else t.right
  }

  ghost function Child(side: Side, c: Cell): Node? {
    if side.Left? then c.left else c.right
  }

  ghost function WithChild(side: Side, c: Cell, n: Node?): Cell {
    if side.Left? then c.(left := n) else c.(right := n)
  }

  // A rotation towards side: the child on the other side takes the place of the root.
  ghost function Rotated(side: Side, t: Tree): Tree
    requires t.Fork? && Sub(Other(side), t).Fork?
  {
    var y := Sub(Other(side), t);
    Join(side, Join(side, Sub(side, t), t.node, t.color, Sub(side, y)), y.node, y.color, Sub(Other(side), y))
  }

  // The node x has a child to rotate with, and the nodes the rotation relinks are distinct.
  ghost predicate CanRotate(side: Side, s: Store, x: Node, root: Node?)
  {
    && x in s
    && var y, p := Child(Other(side), s[x]), s[x].parent;
    && y != null && y in s && y != x
    && var b := Child(side, s[y]);
    && (b != null ==> b in s && b != x && b != y && b != p)
    && (x != root ==> p != null && p in s && p != x && p != y)
  }

  // The links after a rotation about x.
  ghost function RotatedStore(side: Side, s: Store, x: Node, root: Node?): Store
    requires CanRotate(side, s, x, root)
  {
    var y, p := Child(Other(side), s[x]), s[x].parent;
    var b := Child(side, s[y]);
    var s1 := s[x := WithChild(Other(side), s[x], b)];
    var s2 := if b == null then s1 else s1[b := s1[b].(parent := x)];
    var s3 := s2[y := s2[y].(parent := p)];
    var s4 :=
      if x == root then s3
      else if Child(side, s3[p]) == x then s3[p := WithChild(side, s3[p], y)]
      else s3[p := WithChild(Other(side), s3[p], y)];
    var s5 := s4[y := WithChild(side, s4[y], x)];
    s5[x := s5[x].(parent := y)]
  }

  lemma {:induction false} RotatedCells(side: Side, s: Store, x: Node, root: Node?)
    requires CanRotate(side, s, x, root)
    ensures var s', y, p := RotatedStore(side, s, x, root), Child(Other(side), s[x]), s[x].parent;
      var b := Child(side, s[y]);
      && s'.Keys == s.Keys
      && s'[x] == WithChild(Other(side), s[x], b).(parent := y)
      && s'[y] == WithChild(side, s[y], x).(parent := p)
      && (b != null ==> s'[b] == s[b].(parent := x))
      && (x != root ==>
        s'[p] == if Child(side, s[p]) == x then WithChild(side, s[p], y) else WithChild(Other(side), s[p], y))
      && forall n :: n in s && n != x && n != y && n != b && (x == root || n != p) ==> s'[n] == s[n]
  {
  }

  lemma {:induction false} RotateNodes(side: Side, t: Tree)
    requires t.Fork? && Sub(Other(side), t).Fork?
    ensures Nodes(Rotated(side, t)) == Nodes(t)
    ensures Distinct(t) ==> Distinct(Rotated(side, t))
    ensures InOrder(Rotated(side, t)) == InOrder(t)
  {
    var y := Sub(Other(side), t);
    if Distinct(t) {
      assert Distinct(y);
      assert Distinct(Sub(side, Rotated(side, t)));
    }
    if side.Left? {
      FlattenTwo(InOrder(t.left), t.node, InOrder(y.left), y.node, InOrder(y.right));
    } else {
      FlattenTwo(InOrder(y.left), y.node, InOrder(y.right), t.node, InOrder(t.right));
    }
  }

  lemma {:induction false} FlattenTwo(a: seq<Node>, x: Node, b: seq<Node>, y: Node, c: seq<Node>)
    ensures a + [x] + (b + [y] + c) == (a + [x] + b) + [y] + c
  {
    ConcatAssociative(a + [x], b + [y], c);
    ConcatAssociative(a + [x], b, [y]);
  }

  lemma {:induction false} CanRotatePlug(side: Side, s: Store, k: Path, t: Tree, base: Node)
    requires Rep(s, Plug(k, t), base) && Distinct(Plug(k, t)) && base !in Nodes(Plug(k, t))
    requires t.Fork? && Sub(Other(side), t).Fork?
    ensures CanRotate(side, s, t.node, Root(Plug(k, t)))
    ensures t.node == Root(Plug(k, t)) <==> k.Top?
  {
    RepFocus(s, k, t, base);
    PlugDistinct(k, t);
    RootPlug(k, t);
    var y := Sub(Other(side), t);
    var b := Sub(side, y);
    assert Rep(s, y, t.node) && Rep(s, b, y.node) && Distinct(y);
    assert b.Fork? ==> b.node in Nodes(t);
  }

  // Rotating the linked nodes rotates the tree they represent.
  lemma {:induction false} RotateRep(side: Side, s: Store, k: Path, t: Tree, base: Node)
    requires Rep(s, Plug(k, t), base) && Distinct(Plug(k, t)) && base !in Nodes(Plug(k, t))
    requires t.Fork? && Sub(Other(side), t).Fork?
    ensures CanRotate(side, s, t.node, Root(Plug(k, t)))
    ensures Rep(RotatedStore(side, s, t.node, Root(Plug(k, t))), Plug(k, Rotated(side, t)), base)
  {
    CanRotatePlug(side, s, k, t, base);
    RepFocus(s, k, t, base);
    PlugDistinct(k, t);
    RootPlug(k, t);
    RotatedCells(side, s, t.node, Root(Plug(k, t)));
    var s' := RotatedStore(side, s, t.node, Root(Plug(k, t)));
    assert Rep(s, Sub(Other(side), t), t.node);
    RotateLocal(side, s, s', t, Above(k, base));
    RepSwap(s, s', k, t, Rotated(side, t), base);
  }

  lemma {:induction false} RotateLocal(side: Side, s: Store, s': Store, t: Tree, parent: Node)
    requires t.Fork? && Sub(Other(side), t).Fork?
    requires Rep(s, t, parent) && Distinct(t)
    requires Sub(Other(side), t).node in s
    requires var x, y := t.node, Sub(Other(side), t).node;
      var b := Sub(side, Sub(Other(side), t));
      && x in s' && s'[x] == WithChild(Other(side), s[x], Root(b)).(parent := y)
      && y in s' && s'[y] == WithChild(side, s[y], x).(parent := parent)
      && (b.Fork? ==> b.node in s' && b.node in s && s'[b.node] == s[b.node].(parent := x))
      && SameOn(s, s', Nodes(t) - {x, y} - RootSet(b))
    ensures Rep(s', Rotated(side, t), parent)
  {
    var x, y := t.node, Sub(Other(side), t);
    assert Rep(s, y, x) && Distinct(y);
    RepFrame(s, s', Sub(side, t), x);
    RepFrame(s, s', Sub(Other(side), y), y.node);
    RepReparent(s, s', Sub(side, y), y.node, x);
    assert Rep(s', Sub(side, Rotated(side, t)), y.node);
  }

  // ---- a whole tree hanging from its anchor ----

  // The store s consists of the nodes of t and the anchor; they are linked as
  // t, and the anchor's parent link leads to the root.
  ghost predicate Holds(s: Store, t: Tree, anchor: Node) {
    && Rep(s, t, anchor) && Distinct(t)
    && anchor !in Nodes(t) && s.Keys == Nodes(t) + {anchor}
    && s[anchor].parent == Root(t)
  }

  ghost function First(order: seq<Node>, anchor: Node): Node {
    if order == [] then anchor else order[0]
  }

  ghost function Last(order: seq<Node>, anchor: Node): Node {
    if order == [] then anchor else order[|order| - 1]
  }

  // The anchor of a tree: its first node, its last node and its root. It is
  // always red, which tells it from the root.
  ghost function AnchorCell(t: Tree, anchor: Node): Cell {
    Cell(First(InOrder(t), anchor), Last(InOrder(t), anchor), Root(t), Red)
  }

  lemma {:induction false} RotateHolds(side: Side, s: Store, k: Path, t: Tree, anchor: Node)
    requires Holds(s, Plug(k, t), anchor) && t.Fork? && Sub(Other(side), t).Fork?
    ensures CanRotate(side, s, t.node, s[anchor].parent)
    ensures var r := if t.node == s[anchor].parent then Child(Other(side), s[t.node]) else s[anchor].parent;
      var s1 := RotatedStore(side, s, t.node, s[anchor].parent);
      && s1.Keys == s.Keys && s1[anchor] == s[anchor]
      && Holds(s1[anchor := s[anchor].(parent := r)], Plug(k, Rotated(side, t)), anchor)
  {
    RotateRep(side, s, k, t, anchor);
    CanRotatePlug(side, s, k, t, anchor);
    RotateAnchor(side, s, k, t, anchor);
    RotatePlug(side, k, t);
    RepFocus(s, k, t, anchor);
    var s1 := RotatedStore(side, s, t.node, s[anchor].parent);
    var r := if t.node == s[anchor].parent then Child(Other(side), s[t.node]) else s[anchor].parent;
    RepFrame(s1, s1[anchor := s[anchor].(parent := r)], Plug(k, Rotated(side, t)), anchor);
  }

  lemma {:induction false} RotateAnchor(side: Side, s: Store, k: Path, t: Tree, anchor: Node)
    requires Holds(s, Plug(k, t), anchor) && t.Fork? && Sub(Other(side), t).Fork?
    requires CanRotate(side, s, t.node, s[anchor].parent)
    ensures RotatedStore(side, s, t.node, s[anchor].parent).Keys == s.Keys
    ensures RotatedStore(side, s, t.node, s[anchor].parent)[anchor] == s[anchor]
  {
    RepFocus(s, k, t, anchor);
    PlugDistinct(k, t);
    RootPlug(k, t);
    RotatedCells(side, s, t.node, s[anchor].parent);
    var y := Sub(Other(side), t);
    assert Rep(s, y, t.node);
  }

  lemma {:induction false} RotatePlug(side: Side, k: Path, t: Tree)
    requires t.Fork? && Sub(Other(side), t).Fork? && Distinct(Plug(k, t))
    ensures Nodes(Plug(k, Rotated(side, t))) == Nodes(Plug(k, t))
    ensures Distinct(Plug(k, Rotated(side, t)))
    ensures InOrder(Plug(k, Rotated(side, t))) == InOrder(Plug(k, t))
    ensures Root(Plug(k, Rotated(side, t))) == if k.Top? then Sub(Other(side), t).node else Root(Plug(k, t))
  {
    RotateNodes(side, t);
    PlugDistinct(k, t);
    PlugDistinct(k, Rotated(side, t));
    PlugInOrder(k, t);
    PlugInOrder(k, Rotated(side, t));
    RootPlug(k, t);
    RootPlug(k, Rotated(side, t));
  }

  lemma {:induction false} RecolorHolds(s: Store, k: Path, t: Tree, c: Color, anchor: Node)
    requires Holds(s, Plug(k, t), anchor) && t.Fork?
    ensures t.node in s && t.node != anchor
    ensures Holds(s[t.node := s[t.node].(color := c)], Plug(k, t.(color := c)), anchor)
    ensures InOrder(Plug(k, t.(color := c))) == InOrder(Plug(k, t))
  {
    RecolorRep(s, k, t, c, anchor);
    PlugDistinct(k, t);
    RootPlug(k, t);
    RootPlug(k, t.(color := c));
  }

  // ---- the red-black conditions ----

  ghost function Weight(c: Color): nat {
    if c.Black? then 1 else 0
  }

  ghost function Height(t: Tree): nat {
    if t.Leaf? then 0 else Height(t.left) + Weight(t.color)
  }

  ghost predicate IsBlack(t: Tree) {
    t.Leaf? || t.color.Black?
  }

  ghost predicate Balanced(t: Tree) {
    t.Leaf? || (Height(t.left) == Height(t.right) && Balanced(t.left) && Balanced(t.right))
  }

  ghost predicate NoRedRed(t: Tree) {
    || t.Leaf?
    || ((t.color.Red? ==> IsBlack(t.left) && IsBlack(t.right)) && NoRedRed(t.left) && NoRedRed(t.right))
  }

  ghost predicate RedBlack(t: Tree) {
    IsBlack(t) && Balanced(t) && NoRedRed(t)
  }

  // How many nodes lie on the longest way down.
  ghost function Levels(t: Tree): nat {
    if t.Leaf? then 0
    else 1 + if Levels(t.left) < Levels(t.right) then Levels(t.right) else Levels(t.left)
  }

  lemma {:induction false} LevelsBound(t: Tree)
    requires Balanced(t) && NoRedRed(t)
    ensures Levels(t) <= 2 * Height(t) + if IsBlack(t) then 0 else 1
    ensures Modular.Pow2(Height(t)) <= |InOrder(t)| + 1
  {
    if t.Fork? {
      LevelsBound(t.left);
      LevelsBound(t.right);
    }
  }

  // Why the conditions are kept: no way down is longer than twice the logarithm
  // of the number of nodes.
  lemma {:induction false} Logarithmic(t: Tree)
    requires RedBlack(t)
    ensures Modular.Pow2(Levels(t) / 2) <= |InOrder(t)| + 1
  {
    LevelsBound(t);
    Modular.Pow2Monotone(Levels(t) / 2, Height(t));
  }

  // The same conditions for a path whose hole expects black height h.
  ghost predicate PathBalanced(k: Path, h: nat) {
    k.Top? || (Height(k.sibling) == h && Balanced(k.sibling) && PathBalanced(k.up, h + Weight(k.color)))
  }

  ghost predicate PathNoRedRed(k: Path) {
    || k.Top?
    || (&& NoRedRed(k.sibling) && PathNoRedRed(k.up)
        && (k.color.Red? ==> IsBlack(k.sibling) && (k.up.Step? ==> k.up.color.Black?)))
  }

  ghost predicate PathRootBlack(k: Path) {
    k.Top? || (if k.up.Top? then k.color.Black? else PathRootBlack(k.up))
  }

  lemma {:induction false} PlugBalanced(k: Path, t: Tree)
    ensures Balanced(Plug(k, t)) <==> Balanced(t) && PathBalanced(k, Height(t))
  {
    match k
    case Top =>
    case Step(side, up, n, c, sibling) =>
      PlugBalanced(up, Join(side, t, n, c, sibling));
  }

  lemma {:induction false} PlugNoRedRed(k: Path, t: Tree)
    ensures NoRedRed(Plug(k, t)) <==>
      NoRedRed(t) && PathNoRedRed(k) && (k.Step? && k.color.Red? ==> IsBlack(t))
  {
    match k
    case Top =>
    case Step(side, up, n, c, sibling) =>
      PlugNoRedRed(up, Join(side, t, n, c, sibling));
  }

  lemma {:induction false} PlugRootBlack(k: Path, t: Tree)
    ensures IsBlack(Plug(k, t)) <==> if k.Top? then IsBlack(t) else PathRootBlack(k)
  {
    match k
    case Top =>
    case Step(side, up, n, c, sibling) =>
      PlugRootBlack(up, Join(side, t, n, c, sibling));
  }

  // Every node of a tree is at the hole of some path.
  lemma {:induction false} Focus(t: Tree, n: Node, k: Path) returns (k': Path, f: Tree)
    requires n in Nodes(t)
    ensures Plug(k', f) == Plug(k, t) && f.Fork? && f.node == n
  {
    if n == t.node {
      return k, t;
    } else if n in Nodes(t.left) {
      k', f := Focus(t.left, n, Step(Left, k, t.node, t.color, t.right));
    } else {
      k', f := Focus(t.right, n, Step(Right, k, t.node, t.color, t.left));
    }
  }
}
