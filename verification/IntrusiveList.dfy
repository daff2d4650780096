// The circular list of nodes that carry their own links.
module IntrusiveList {
  import opened Sequences

  class Node {
    var next: Node
    var prev: Node

    // An anchor on its own is the empty list.
    constructor ()
      ensures next == this && prev == this
    {
      next, prev := this, this;
    }
  }

  // Following next from these nodes never leaves them.
  ghost predicate Closed(nodes: set<Node>)
    reads nodes
  {
    forall n :: n in nodes ==> n.next in nodes
  }

  // Where i steps along next lead.
  ghost function Walk(nodes: set<Node>, n: Node, i: nat): (r: Node)
    requires Closed(nodes) && n in nodes
    reads nodes
    ensures r in nodes
  {
    if i == 0 then n else Walk(nodes, n, i - 1).next
  }

  // The link from the node i steps on is symmetric.
  ghost predicate Symmetric(nodes: set<Node>, anchor: Node, i: nat)
    requires Closed(nodes) && anchor in nodes
    reads nodes
  {
    Walk(nodes, anchor, i).next.prev == Walk(nodes, anchor, i)
  }

  // k steps lead back to the anchor, all over symmetric links.
  ghost predicate Ring(nodes: set<Node>, anchor: Node, k: nat)
    requires Closed(nodes) && anchor in nodes
    reads nodes
  {
    k > 0 && Walk(nodes, anchor, k) == anchor && forall i: nat :: i < k ==> Symmetric(nodes, anchor, i)
  }

  // i steps over symmetric links that have not come back to the anchor.
  ghost predicate Open(nodes: set<Node>, anchor: Node, i: nat)
    requires Closed(nodes) && anchor in nodes
    reads nodes
  {
    && (forall j: nat :: j < i ==> Symmetric(nodes, anchor, j))
    && forall j: nat :: 0 < j <= i ==> Walk(nodes, anchor, j) != anchor
  }

  // Nodes met on an open walk are distinct.
  lemma {:induction false} WalkDistinct(nodes: set<Node>, anchor: Node, i: nat, j: nat, k: nat)
    requires Closed(nodes) && anchor in nodes && Open(nodes, anchor, i) && j < k <= i
    ensures Walk(nodes, anchor, j) != Walk(nodes, anchor, k)
  {
    if j > 0 {
      WalkDistinct(nodes, anchor, i, j - 1, k - 1);
      assert Symmetric(nodes, anchor, j - 1) && Symmetric(nodes, anchor, k - 1);
    }
  }

  // The nodes met so far.
  ghost function Met(nodes: set<Node>, anchor: Node, i: nat): set<Node>
    requires Closed(nodes) && anchor in nodes
    reads nodes
  {
    set j: nat | j <= i :: Walk(nodes, anchor, j)
  }

  lemma {:induction false} MetAll(nodes: set<Node>, anchor: Node, n: nat, i: nat)
    requires Closed(nodes) && anchor in nodes && Open(nodes, anchor, n) && i <= n
    ensures |Met(nodes, anchor, i)| == i + 1 && Met(nodes, anchor, i) <= nodes
  {
    var next := Walk(nodes, anchor, i);
    if i > 0 {
      var met := Met(nodes, anchor, i - 1);
      MetAll(nodes, anchor, n, i - 1);
      if next in met {
        var j: nat :| j <= i - 1 && next == Walk(nodes, anchor, j);
        WalkDistinct(nodes, anchor, n, j, i);
      }
      assert Met(nodes, anchor, i) == met + {next};
    } else {
      assert Met(nodes, anchor, i) == {next};
    }
  }

  // An open walk is shorter than there are nodes.
  lemma OpenBound(nodes: set<Node>, anchor: Node, i: nat)
    requires Closed(nodes) && anchor in nodes && Open(nodes, anchor, i)
    ensures i < |nodes|
  {
    MetAll(nodes, anchor, i, i);
    SubsetSize(Met(nodes, anchor, i), nodes);
  }

  lemma {:induction false} SubsetSize<T>(s: set<T>, t: set<T>)
    requires s <= t
    ensures |s| <= |t|
  {
    if s != {} {
      var x :| x in s;
      SubsetSize(s - {x}, t - {x});
    }
  }

  lemma NoRing(nodes: set<Node>, anchor: Node, i: nat)
    requires Closed(nodes) && anchor in nodes && Open(nodes, anchor, i) && !Symmetric(nodes, anchor, i)
    ensures forall k: nat :: !Ring(nodes, anchor, k)
  {
    forall k: nat | Ring(nodes, anchor, k) ensures false {
    }
  }

  lemma OpenStep(nodes: set<Node>, anchor: Node, i: nat)
    requires Closed(nodes) && anchor in nodes && Open(nodes, anchor, i) && Symmetric(nodes, anchor, i)
    ensures Walk(nodes, anchor, i + 1) == Walk(nodes, anchor, i).next
    ensures if Walk(nodes, anchor, i + 1) == anchor then Ring(nodes, anchor, i + 1) else Open(nodes, anchor, i + 1)
  {
    assert Walk(nodes, anchor, i + 1) == Walk(nodes, anchor, i).next;
  }

  // validate: halts on every graph of nodes, with true exactly if the walk
  // from the anchor comes back to it over symmetric links.
  method Validate(anchor: Node, ghost nodes: set<Node>) returns (valid: bool)
    requires anchor in nodes && Closed(nodes)
    ensures valid <==> exists k: nat :: Ring(nodes, anchor, k)
  {
    var p, q := anchor, anchor;
    ghost var i: nat := 0;
    var searching := true;
    while searching
      invariant Open(nodes, anchor, 2 * i) || !searching
      invariant searching ==> p == Walk(nodes, anchor, 2 * i) && q == Walk(nodes, anchor, i)
      invariant !searching ==> exists k: nat :: Ring(nodes, anchor, k)
      decreases searching, |nodes| - 2 * i
    {
      OpenBound(nodes, anchor, 2 * i);
      if p.next.prev != p {
        NoRing(nodes, anchor, 2 * i);
        return false;
      }
      OpenStep(nodes, anchor, 2 * i);
      p := p.next;
      if p == anchor {
        break;
      }
      // where the source reports a loop it never gets
      if p == q {
        WalkDistinct(nodes, anchor, 2 * i + 1, i, 2 * i + 1);
        assert false;
      }
      if p.next.prev != p {
        NoRing(nodes, anchor, 2 * i + 1);
        return false;
      }
      OpenStep(nodes, anchor, 2 * i + 1);
      p := p.next;
      q := q.next;
      assert q == Walk(nodes, anchor, i + 1);
      if p == q {
        if p != anchor {
          WalkDistinct(nodes, anchor, 2 * i + 2, i + 1, 2 * i + 2);
        }
        assert false;
      }
      i := i + 1;
      searching := p != anchor;
    }
    return true;
  }

  // ---- the list as a sequence ----

  function After(i: nat, n: nat): nat
    requires i < n
  {
    if i + 1 < n then i + 1 else 0
  }

  function Before(i: nat, n: nat): nat
    requires i < n
  {
    if i > 0 then i - 1 else n - 1
  }

  // The anchor and its list, linked in a ring both ways.
  ghost predicate Linked(ring: seq<Node>)
    reads ring
  {
    && ring != [] && NoDup(ring)
    && forall i :: 0 <= i < |ring| ==> ring[i].next == ring[After(i, |ring|)] && ring[i].prev == ring[Before(i, |ring|)]
  }

  // The anchor first, then its nodes in the opposite order.
  ghost function Reversed(ring: seq<Node>): (r: seq<Node>)
    requires ring != []
    ensures |r| == |ring|
  {
    seq(|ring|, i requires 0 <= i < |ring| => ring[if i == 0 then 0 else |ring| - i])
  }

  lemma ReversedTwice(ring: seq<Node>)
    requires ring != []
    ensures Reversed(Reversed(ring)) == ring
  {
  }

  lemma ReversedDistinct(ring: seq<Node>)
    requires ring != [] && NoDup(ring)
    ensures NoDup(Reversed(ring))
  {
  }

  // Nodes up to i have their links exchanged, the others not.
  ghost predicate HalfReversed(ring: seq<Node>, i: nat)
    reads ring
  {
    forall j :: 0 <= j < |ring| ==>
      if j < i then ring[j].next == ring[Before(j, |ring|)] && ring[j].prev == ring[After(j, |ring|)]
      else ring[j].next == ring[After(j, |ring|)] && ring[j].prev == ring[Before(j, |ring|)]
  }

  lemma ReversedLinks(ring: seq<Node>)
    requires ring != [] && NoDup(ring) && HalfReversed(ring, |ring|)
    ensures Linked(Reversed(ring))
  {
    var n, r := |ring|, Reversed(ring);
    ReversedDistinct(ring);
    forall i | 0 <= i < n ensures r[i].next == r[After(i, n)] && r[i].prev == r[Before(i, n)] {
      var j := if i == 0 then 0 else n - i;
      assert r[i] == ring[j];
      assert ring[Before(j, n)] == r[After(i, n)] && ring[After(j, n)] == r[Before(i, n)];
    }
  }

  // reverse: any valid list becomes the valid list of the opposite order.
  method Reverse(anchor: Node, ghost ring: seq<Node>)
    requires Linked(ring) && ring[0] == anchor
    modifies ring
    ensures Linked(Reversed(ring)) && Reversed(ring)[0] == anchor
  {
    var node := anchor;
    ghost var i := 0;
    var going := true;
    while going
      invariant 0 <= i <= |ring| && HalfReversed(ring, i)
      invariant if going then i < |ring| && node == ring[i] else i == |ring|
      decreases |ring| - i
    {
      var temp := node.next;
      node.next := node.prev;
      node.prev := temp;
      node := node.prev;
      i := i + 1;
      going := node != anchor;
    }
    ReversedLinks(ring);
  }

  // ---- valid graphs are lists ----

  lemma {:induction false} RingWalk(nodes: set<Node>, ring: seq<Node>, i: nat)
    requires Closed(nodes) && Linked(ring) && i < |ring| && forall n :: n in ring ==> n in nodes
    ensures Walk(nodes, ring[0], i) == ring[i]
  {
    if i > 0 {
      RingWalk(nodes, ring, i - 1);
    }
  }

  // A list validates.
  lemma LinkedIsRing(nodes: set<Node>, ring: seq<Node>)
    requires Closed(nodes) && Linked(ring) && forall n :: n in ring ==> n in nodes
    ensures Ring(nodes, ring[0], |ring|)
  {
    var n := |ring|;
    forall i: nat | i < n ensures Symmetric(nodes, ring[0], i) {
      RingWalk(nodes, ring, i);
      assert ring[i].next == ring[After(i, n)];
      assert ring[After(i, n)].prev == ring[i];
    }
    RingWalk(nodes, ring, n - 1);
    assert Walk(nodes, ring[0], n) == Walk(nodes, ring[0], n - 1).next == ring[After(n - 1, n)];
  }

  ghost function WalkSeq(nodes: set<Node>, n: Node, k: nat): (s: seq<Node>)
    requires Closed(nodes) && n in nodes
    reads nodes
    ensures |s| == k && forall i :: 0 <= i < k ==> s[i] == Walk(nodes, n, i) && s[i] in nodes
  {
    if k == 0 then [] else WalkSeq(nodes, n, k - 1) + [Walk(nodes, n, k - 1)]
  }

  // The shortest way back is an open walk and a step.
  lemma {:induction false} FirstReturn(nodes: set<Node>, anchor: Node, k: nat) returns (first: nat)
    requires Closed(nodes) && anchor in nodes && Ring(nodes, anchor, k)
    ensures Ring(nodes, anchor, first) && Open(nodes, anchor, first - 1)
  {
    if j: nat :| 0 < j < k && Walk(nodes, anchor, j) == anchor {
      first := FirstReturn(nodes, anchor, j);
    } else {
      first := k;
    }
  }

  // What validates is a list: the nodes of the walk, linked in a ring.
  lemma RingIsLinked(nodes: set<Node>, anchor: Node, k: nat) returns (ring: seq<Node>)
    requires Closed(nodes) && anchor in nodes && Ring(nodes, anchor, k)
    ensures Linked(ring) && ring[0] == anchor && forall n :: n in ring ==> n in nodes
  {
    var n := FirstReturn(nodes, anchor, k);
    ring := WalkSeq(nodes, anchor, n);
    forall i, j | 0 <= i < j < n ensures ring[i] != ring[j] {
      WalkDistinct(nodes, anchor, n - 1, i, j);
    }
    forall i | 0 <= i < n ensures ring[i].next == ring[After(i, n)] && ring[i].prev == ring[Before(i, n)] {
      assert Walk(nodes, anchor, i + 1) == ring[i].next;
      var b := Before(i, n);
      assert Symmetric(nodes, anchor, b);
      assert Walk(nodes, anchor, b + 1) == ring[b].next;
    }
  }
}
