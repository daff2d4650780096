// Climbing from a node along parent links: where the climb leads, when it
// meets a given node, and how many black nodes it passes.
module RbClimb {
  import opened RbShape

  // The nodes from n up to the root of t.
  ghost function Way(t: Tree, n: Node): (w: seq<Node>)
    requires n in Nodes(t)
    ensures w != []
  {
    if n == t.node then [n]
    else if n in Nodes(t.left) then Way(t.left, n) + [t.node]
    else Way(t.right, n) + [t.node]
  }

  // How many of them are black.
  ghost function BlacksOn(t: Tree, n: Node): nat
    requires n in Nodes(t)
  {
    Weight(t.color) +
    if n == t.node then 0 else if n in Nodes(t.left) then BlacksOn(t.left, n) else BlacksOn(t.right, n)
  }

  ghost function Subtree(t: Tree, n: Node): (u: Tree)
    requires n in Nodes(t)
    ensures u.Fork? && u.node == n
  {
    if n == t.node then t else if n in Nodes(t.left) then Subtree(t.left, n) else Subtree(t.right, n)
  }

  // In a balanced tree every way from a node with an empty side has the black
  // height, and no way has more.
  lemma {:induction false} BlacksUniform(t: Tree, n: Node)
    requires n in Nodes(t) && Balanced(t)
    ensures BlacksOn(t, n) <= Height(t)
    ensures Subtree(t, n).left.Leaf? || Subtree(t, n).right.Leaf? ==> BlacksOn(t, n) == Height(t)
  {
    if n != t.node {
      BlacksUniform(if n in Nodes(t.left) then t.left else t.right, n);
    }
  }

  lemma {:induction false} SubtreeBalanced(t: Tree, n: Node)
    requires n in Nodes(t) && Balanced(t)
    ensures Balanced(Subtree(t, n))
  {
    if n != t.node {
      SubtreeBalanced(if n in Nodes(t.left) then t.left else t.right, n);
    }
  }

  lemma {:induction false} WayNodes(t: Tree, n: Node, m: Node)
    requires n in Nodes(t) && m in Way(t, n)
    ensures m in Nodes(t)
  {
    if n != t.node && m != t.node {
      WayNodes(if n in Nodes(t.left) then t.left else t.right, n, m);
    }
  }

  lemma {:induction false} WayEnds(t: Tree, n: Node)
    requires n in Nodes(t)
    ensures Way(t, n)[0] == n && Way(t, n)[|Way(t, n)| - 1] == t.node
  {
    if n != t.node {
      WayEnds(if n in Nodes(t.left) then t.left else t.right, n);
    }
  }

  // The way to a node above n is the way to the root of the subtree there.
  lemma {:induction false} WayWithin(t: Tree, n: Node, top: Node)
    requires n in Nodes(t) && Distinct(t) && top in Way(t, n)
    ensures top in Nodes(t) && n in Nodes(Subtree(t, top))
    ensures Way(Subtree(t, top), n) <= Way(t, n)
    ensures Subtree(Subtree(t, top), n) == Subtree(t, n)
  {
    WayNodes(t, n, top);
    if n != t.node && top != t.node {
      var u := if n in Nodes(t.left) then t.left else t.right;
      WayWithin(u, n, top);
      WayNodes(u, n, top);
    }
  }

  lemma {:induction false} SubtreeNodes(t: Tree, top: Node)
    requires top in Nodes(t)
    ensures Nodes(Subtree(t, top)) <= Nodes(t)
  {
    if top != t.node {
      SubtreeNodes(if top in Nodes(t.left) then t.left else t.right, top);
    }
  }

  // The node n lies at top or below it.
  ghost predicate Below(t: Tree, top: Node?, n: Node?) {
    top in Nodes(t) && n in Nodes(Subtree(t, top))
  }

  lemma {:induction false} WayBelow(t: Tree, n: Node, top: Node)
    requires n in Nodes(t) && Distinct(t)
    ensures top in Way(t, n) <==> Below(t, top, n)
  {
    if top in Way(t, n) {
      WayWithin(t, n, top);
    } else if Below(t, top, n) {
      BelowWay(t, n, top);
    }
  }

  lemma {:induction false} BelowWay(t: Tree, n: Node, top: Node)
    requires n in Nodes(t) && Distinct(t) && Below(t, top, n)
    ensures top in Way(t, n)
  {
    WayEnds(t, n);
    if top != t.node {
      var u := if top in Nodes(t.left) then t.left else t.right;
      SubtreeNodes(u, top);
      BelowWay(u, n, top);
    }
  }

  lemma {:induction false} SubtreeRep(s: Store, t: Tree, parent: Node, n: Node) returns (p: Node)
    requires Rep(s, t, parent) && n in Nodes(t)
    ensures Rep(s, Subtree(t, n), p)
  {
    p := parent;
    if n != t.node {
      p := SubtreeRep(s, if n in Nodes(t.left) then t.left else t.right, t.node, n);
    }
  }

  lemma {:induction false} WayDistinct(t: Tree, n: Node, i: nat, j: nat)
    requires n in Nodes(t) && Distinct(t) && i < j < |Way(t, n)|
    ensures Way(t, n)[i] != Way(t, n)[j]
  {
    var u := if n in Nodes(t.left) then t.left else t.right;
    if j < |Way(u, n)| {
      WayDistinct(u, n, i, j);
    } else {
      WayNodes(u, n, Way(u, n)[i]);
    }
  }

  // ---- the links ----

  ghost function Climb(s: Store, n: Node?, i: nat): Node? {
    if i == 0 then n
    else
      var m := Climb(s, n, i - 1);
      if m != null && m in s then s[m].parent else null
  }

  // The black nodes among the first i of the climb.
  ghost function BlacksPassed(s: Store, n: Node?, i: nat): nat {
    if i == 0 then 0
    else
      var m := Climb(s, n, i - 1);
      BlacksPassed(s, n, i - 1) + if m != null && m in s then Weight(s[m].color) else 0
  }

  // The climb follows the way and then leaves the tree.
  lemma {:induction false} ClimbWay(s: Store, t: Tree, n: Node, parent: Node)
    requires Rep(s, t, parent) && n in Nodes(t)
    ensures forall i :: 0 <= i < |Way(t, n)| ==> Climb(s, n, i) == Way(t, n)[i]
    ensures Climb(s, n, |Way(t, n)|) == parent
    ensures BlacksPassed(s, n, |Way(t, n)|) == BlacksOn(t, n)
  {
    if n == t.node {
      assert Climb(s, n, 0) == n;
      assert BlacksPassed(s, n, 1) == BlacksPassed(s, n, 0) + Weight(t.color);
    } else {
      var u := if n in Nodes(t.left) then t.left else t.right;
      ClimbWay(s, u, n, t.node);
      assert Way(t, n) == Way(u, n) + [t.node];
    }
  }

  // From a node the climb meets the nodes above it and the anchor, over and over.
  lemma {:induction false} ClimbStays(s: Store, t: Tree, n: Node, anchor: Node, i: nat)
    requires Holds(s, t, anchor) && n in Nodes(t)
    ensures Climb(s, n, i) == anchor || Climb(s, n, i) in Way(t, n)
  {
    WayEnds(t, n);
    ClimbWay(s, t, n, anchor);
    if i > 0 {
      ClimbStays(s, t, n, anchor, i - 1);
      var w := Way(t, n);
      if Climb(s, n, i - 1) != anchor {
        var j :| 0 <= j < |w| && w[j] == Climb(s, n, i - 1);
        assert Climb(s, n, i) == Climb(s, n, j + 1);
      } else {
        assert Climb(s, n, i) == t.node == w[|w| - 1];
      }
    }
  }

  // From the anchor it goes to the root and back.
  lemma {:induction false} ClimbAnchor(s: Store, t: Tree, anchor: Node, i: nat)
    requires Holds(s, t, anchor) && t.Fork?
    ensures Climb(s, anchor, i) == if i % 2 == 0 then anchor else t.node
  {
    if i > 0 {
      ClimbAnchor(s, t, anchor, i - 1);
    }
  }

  // The climb from bottom meets top or the end of the links at step i.
  ghost predicate Meets(s: Store, top: Node?, bottom: Node?, i: nat) {
    Climb(s, bottom, i) == null || Climb(s, bottom, i) == top
  }

  // When it does, told from the shape of the tree.
  ghost predicate Reachable(t: Tree, top: Node?, bottom: Node?, anchor: Node) {
    bottom == null || t.Leaf? || top == anchor || top == t.node || Below(t, top, bottom)
  }

  lemma {:induction false} MeetsExact(s: Store, t: Tree, top: Node?, bottom: Node?, anchor: Node)
    requires Holds(s, t, anchor) && (bottom != null ==> bottom in s)
    ensures (exists i: nat :: Meets(s, top, bottom, i)) <==> Reachable(t, top, bottom, anchor)
  {
    if bottom == null {
      assert Meets(s, top, bottom, 0);
    } else if t.Leaf? {
      assert Meets(s, top, bottom, 1);
    } else if bottom == anchor {
      ClimbAnchor(s, t, anchor, 0);
      ClimbAnchor(s, t, anchor, 1);
      assert top == anchor ==> Meets(s, top, bottom, 0);
      assert top == t.node ==> Meets(s, top, bottom, 1);
      if top != null && Below(t, top, bottom) {
        SubtreeNodes(t, top);
      }
      forall i: nat | Meets(s, top, bottom, i) ensures top == t.node || top == anchor {
        ClimbAnchor(s, t, anchor, i);
      }
    } else {
      MeetsInside(s, t, top, bottom, anchor);
    }
  }

  lemma {:induction false} MeetsInside(s: Store, t: Tree, top: Node?, bottom: Node, anchor: Node)
    requires Holds(s, t, anchor) && bottom in Nodes(t)
    ensures (exists i: nat :: Meets(s, top, bottom, i)) <==> Reachable(t, top, bottom, anchor)
  {
    var w := Way(t, bottom);
    ClimbWay(s, t, bottom, anchor);
    WayEnds(t, bottom);
    if top != null {
      WayBelow(t, bottom, top);
    }
    if top == anchor {
      assert Meets(s, top, bottom, |w|);
    } else if top in w {
      var j :| 0 <= j < |w| && w[j] == top;
      assert Meets(s, top, bottom, j);
    }
    forall i: nat | Meets(s, top, bottom, i) ensures top == anchor || top in w {
      ClimbStays(s, t, bottom, anchor, i);
    }
  }

  // A red child asked for above its black root is never met.
  lemma ClimbMisses(root: Node, child: Node, anchor: Node)
    requires root != child && root != anchor && child != anchor
    ensures var t := Fork(Fork(Leaf, child, Red, Leaf), root, Black, Leaf);
      var s := map[anchor := AnchorCell(t, anchor), root := Cell(child, null, anchor, Black),
                   child := Cell(null, null, root, Red)];
      && Holds(s, t, anchor) && RedBlack(t)
      && forall i: nat :: !Meets(s, child, root, i)
  {
    var low := Fork(Leaf, child, Red, Leaf);
    var t := Fork(low, root, Black, Leaf);
    var s := map[anchor := AnchorCell(t, anchor), root := Cell(child, null, anchor, Black),
                 child := Cell(null, null, root, Red)];
    var none: Tree := Leaf;
    assert Nodes(none) == {} && Distinct(none) && Rep(s, none, child) && Rep(s, none, root);
    assert Nodes(low) == Nodes(none) + {child} + Nodes(none) == {child};
    assert Nodes(t) == Nodes(low) + {root} + Nodes(none) == {child, root};
    assert Rep(s, low, root) && Distinct(low);
    MeetsExact(s, t, child, root, anchor);
    assert Subtree(t, child) == low;
  }

  // The first meeting.
  ghost predicate FirstMeets(s: Store, top: Node?, bottom: Node?, i: nat) {
    Meets(s, top, bottom, i) && forall j: nat :: j < i ==> !Meets(s, top, bottom, j)
  }

  // What has been counted when the climb meets a node of the tree.
  lemma {:induction false} CountBelow(s: Store, t: Tree, top: Node, bottom: Node, anchor: Node, i: nat)
    requires Holds(s, t, anchor) && Below(t, top, bottom) && FirstMeets(s, top, bottom, i)
    ensures BlacksPassed(s, bottom, i + 1) == BlacksOn(Subtree(t, top), bottom)
  {
    SubtreeNodes(t, top);
    WayBelow(t, bottom, top);
    WayWithin(t, bottom, top);
    ClimbWay(s, t, bottom, anchor);
    var u := Subtree(t, top);
    var p := SubtreeRep(s, t, anchor, top);
    ClimbWay(s, u, bottom, p);
    WayEnds(u, bottom);
    var m := |Way(u, bottom)| - 1;
    assert Meets(s, top, bottom, m);
    if i < m {
      WayDistinct(t, bottom, i, m);
    }
  }

  // What has been counted when it meets the anchor.
  lemma {:induction false} CountAnchor(s: Store, t: Tree, bottom: Node, anchor: Node, i: nat)
    requires Holds(s, t, anchor) && bottom in Nodes(t) && FirstMeets(s, anchor, bottom, i)
    ensures BlacksPassed(s, bottom, i + 1) == BlacksOn(t, bottom) + Weight(s[anchor].color)
  {
    ClimbWay(s, t, bottom, anchor);
    var m := |Way(t, bottom)|;
    assert Meets(s, anchor, bottom, m);
    if i < m {
      WayNodes(t, bottom, Way(t, bottom)[i]);
    }
  }

  // What has been counted when it starts at the anchor or nowhere.
  lemma {:induction false} CountOutside(s: Store, t: Tree, top: Node?, bottom: Node?, anchor: Node, i: nat)
    requires Holds(s, t, anchor) && s[anchor].color.Red? && FirstMeets(s, top, bottom, i)
    ensures bottom == null || (bottom == anchor && (t.Leaf? || top == anchor)) ==> BlacksPassed(s, bottom, i + 1) == 0
    ensures bottom == anchor && t.Fork? && top == t.node ==> BlacksPassed(s, bottom, i + 1) == Weight(t.color)
  {
    assert Climb(s, bottom, 0) == bottom;
    assert BlacksPassed(s, bottom, 1) == if bottom != null && bottom in s then Weight(s[bottom].color) else 0;
    if bottom == anchor {
      assert Climb(s, anchor, 1) == Root(t);
      assert BlacksPassed(s, anchor, 2) == if t.Fork? then Weight(t.color) else 0;
      assert top == anchor ==> Meets(s, top, bottom, 0);
      assert t.Leaf? || top == Root(t) ==> Meets(s, top, bottom, 1);
      assert i <= 1 || !(t.Leaf? || top == anchor || top == Root(t));
    } else if bottom == null {
      assert Meets(s, top, bottom, 0);
    }
  }
}
