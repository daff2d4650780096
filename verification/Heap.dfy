// Binary heaps over the first elements of an array, and heapsort.
module Heap {
  import opened Sequences
  import opened StableMerge

  function Parent(i: nat): nat
    requires i > 0
  {
    (i - 1) / 2
  }

  // i is root or one of its descendants.
  ghost predicate Under(root: nat, i: nat) {
    i == root || (i > root && Under(root, Parent(i)))
  }

  lemma {:induction false} UnderRoot(i: nat)
    ensures Under(0, i)
  {
    if i > 0 {
      UnderRoot(Parent(i));
    }
  }

  // The element at i is not above its parent.
  ghost predicate Ordered<T, K>(o: Order<T, K>, s: seq<T>, i: nat)
    requires 0 < i < |s|
  {
    !o.Less(s[Parent(i)], s[i])
  }

  ghost predicate IsHeap<T, K>(o: Order<T, K>, s: seq<T>) {
    forall i :: 0 < i < |s| ==> Ordered(o, s, i)
  }

  // The subtree at root is a heap.
  ghost predicate HeapUnder<T, K>(o: Order<T, K>, s: seq<T>, root: nat) {
    forall i :: 0 < i < |s| && Under(root, Parent(i)) ==> Ordered(o, s, i)
  }

  // The subtrees below root are heaps.
  ghost predicate HeapsBelow<T, K>(o: Order<T, K>, s: seq<T>, root: nat) {
    forall i :: 0 < i < |s| && Under(root, Parent(i)) && Parent(i) != root ==> Ordered(o, s, i)
  }

  // No element of a heap is above its root.
  lemma {:induction false} RootIsTop<T(!new), K>(o: Order<T, K>, s: seq<T>, i: nat)
    requires StrictWeak(o) && IsHeap(o, s) && i < |s|
    ensures !o.Less(s[0], s[i])
  {
    if i > 0 {
      RootIsTop(o, s, Parent(i));
      assert Ordered(o, s, i);
      NotLessTransitive(o, s[0], s[Parent(i)], s[i]);
    } else {
      NotLessItself(o, s[0]);
    }
  }

  lemma NotLessItself<T(!new), K>(o: Order<T, K>, x: T)
    requires StrictWeak(o)
    ensures !o.Less(x, x)
  {
    if o.Less(x, x) {
      LessNotLess(o, x, x);
    }
  }

  lemma LessNotLess<T(!new), K>(o: Order<T, K>, x: T, y: T)
    requires StrictWeak(o) && o.Less(x, y)
    ensures !o.Less(y, x)
  {
  }

  // ---- sifting down ----

  // The element at hole is on its way down: everything else in the subtree at
  // root is in order, and the hole's children are in order with its parent.
  ghost predicate SinkingAt<T, K>(o: Order<T, K>, s: seq<T>, root: nat, hole: nat) {
    && Under(root, hole) && hole < |s|
    && (forall i :: 0 < i < |s| && Under(root, Parent(i)) && Parent(i) != hole ==> Ordered(o, s, i))
    && (forall i :: 0 < i < |s| && Parent(i) == hole && hole != root ==> !o.Less(s[Parent(hole)], s[i]))
  }

  ghost predicate LargestChild<T, K>(o: Order<T, K>, s: seq<T>, p: nat, child: nat) {
    && 0 < child < |s| && Parent(child) == p
    && forall i :: 0 < i < |s| && Parent(i) == p ==> !o.Less(s[child], s[i])
  }

  lemma SinkStep<T(!new), K>(o: Order<T, K>, s: seq<T>, root: nat, hole: nat, child: nat)
    requires StrictWeak(o) && SinkingAt(o, s, root, hole) && LargestChild(o, s, hole, child)
    requires !o.Less(s[child], s[hole])
    ensures SinkingAt(o, Swapped(s, hole, child), root, child)
  {
    var t := Swapped(s, hole, child);
    forall i | 0 < i < |t| && Under(root, Parent(i)) && Parent(i) != child ensures Ordered(o, t, i) {
      if Parent(i) == hole {
        assert !o.Less(s[child], s[i]);
      } else {
        assert Ordered(o, s, i);
        if i == hole {
          assert !o.Less(s[Parent(hole)], s[child]);
        }
      }
    }
    forall i | 0 < i < |t| && Parent(i) == child ensures !o.Less(t[Parent(child)], t[i]) {
      assert Ordered(o, s, i);
    }
  }

  lemma SinkStop<T(!new), K>(o: Order<T, K>, s: seq<T>, root: nat, hole: nat)
    requires SinkingAt(o, s, root, hole)
    requires forall i :: 0 < i < |s| && Parent(i) == hole ==> !o.Less(s[hole], s[i])
    ensures HeapUnder(o, s, root)
  {
    forall i | 0 < i < |s| && Under(root, Parent(i)) ensures Ordered(o, s, i) {
    }
  }

  lemma SinkStart<T, K>(o: Order<T, K>, s: seq<T>, root: nat)
    requires root < |s| && HeapsBelow(o, s, root)
    ensures SinkingAt(o, s, root, root)
  {
  }

  // An element above the larger child is above both.
  lemma SinkBelow<T(!new), K>(o: Order<T, K>, s: seq<T>, hole: nat, child: nat)
    requires StrictWeak(o) && LargestChild(o, s, hole, child) && hole < |s| && o.Less(s[child], s[hole])
    ensures forall i :: 0 < i < |s| && Parent(i) == hole ==> !o.Less(s[hole], s[i])
  {
    LessNotLess(o, s[child], s[hole]);
    forall i | 0 < i < |s| && Parent(i) == hole ensures !o.Less(s[hole], s[i]) {
      NotLessTransitive(o, s[hole], s[child], s[i]);
    }
  }

  // The child of p that the source goes on with.
  method LargerChild<T(!new), K>(a: array<T>, len: nat, p: nat, o: Order<T, K>) returns (child: nat)
    requires StrictWeak(o) && 2 * p + 1 < len <= a.Length
    ensures LargestChild(o, a[..len], p, child)
  {
    child := 2 * p + 1;
    if child + 1 < len && o.Less(a[child], a[child + 1]) {
      child := child + 1;
    }
    OnlyTwoChildren(o, a[..len], p, child);
  }

  lemma OnlyTwoChildren<T(!new), K>(o: Order<T, K>, s: seq<T>, p: nat, child: nat)
    requires StrictWeak(o) && 2 * p + 1 <= child <= 2 * p + 2 && child < |s|
    requires child == 2 * p + 1 && child + 1 < |s| ==> !o.Less(s[child], s[child + 1])
    requires child == 2 * p + 2 ==> o.Less(s[child - 1], s[child])
    ensures LargestChild(o, s, p, child)
  {
    NotLessItself(o, s[child]);
    if child == 2 * p + 2 {
      LessNotLess(o, s[child - 1], s[child]);
    }
    forall i | 0 < i < |s| && Parent(i) == p ensures !o.Less(s[child], s[i]) {
      assert i == 2 * p + 1 || i == 2 * p + 2;
    }
  }

  // What an array holds when x is put back into the hole.
  ghost predicate Holds<T>(a: seq<T>, v: seq<T>, hole: nat, x: T) {
    |a| == |v| && hole < |v| && v[hole] == x && forall i :: 0 <= i < |v| && i != hole ==> a[i] == v[i]
  }

  lemma HoldsMove<T>(a: seq<T>, v: seq<T>, hole: nat, x: T, child: nat)
    requires Holds(a, v, hole, x) && child < |v| && child != hole
    ensures Holds(a[hole := a[child]], Swapped(v, hole, child), child, x)
  {
  }

  // sift_down_n: the element at start0 goes down until the subtree at start0 is a heap.
  method SiftDown<T(!new), K>(a: array<T>, len: nat, start0: nat, o: Order<T, K>)
    requires StrictWeak(o) && len <= a.Length && HeapsBelow(o, a[..len], start0)
    modifies a
    ensures HeapUnder(o, a[..len], start0)
    ensures multiset(a[..len]) == multiset(old(a[..len])) && a[len..] == old(a[len..])
    ensures forall i :: 0 <= i < len && !Under(start0, i) ==> a[i] == old(a[i])
  {
    var start, child := start0, start0;
    if len < 2 || (len - 2) / 2 < child {
      return;
    }
    SinkStart(o, a[..len], start0);
    child := LargerChild(a, len, start, o);
    if o.Less(a[child], a[start]) {
      SinkBelow(o, a[..len], start, child);
      SinkStop(o, a[..len], start0, start);
      return;
    }
    SiftDownFrom(a, len, start, child, o);
  }

  // The loop of sift_down_n. The elements before it are s; v is what the array
  // would hold with the sinking element put back.
  method SiftDownFrom<T(!new), K>(a: array<T>, len: nat, start0: nat, child0: nat, o: Order<T, K>)
    requires StrictWeak(o) && len <= a.Length && SinkingAt(o, a[..len], start0, start0)
    requires LargestChild(o, a[..len], start0, child0) && !o.Less(a[child0], a[start0])
    modifies a
    ensures HeapUnder(o, a[..len], start0)
    ensures multiset(a[..len]) == multiset(old(a[..len])) && a[len..] == old(a[len..])
    ensures forall i :: 0 <= i < len && !Under(start0, i) ==> a[i] == old(a[i])
  {
    var start, child, top, sinking := start0, child0, a[start0], true;
    ghost var s, v := a[..len], a[..len];
    while sinking
      invariant Sifting(o, s, v, start0, start) && Holds(a[..len], v, start, top) && a[len..] == old(a[len..])
      invariant if sinking then Goes(o, v, start, child) else Settled(o, v, start)
      decreases len - start, sinking
    {
      start, child, sinking, v := SinkOnce(a, len, start, child, top, o, s, v, start0);
    }
    a[start] := top;
    Filled(a[..len], v, start, top);
    SinkStop(o, v, start0, start);
  }

  lemma Filled<T>(a: seq<T>, v: seq<T>, hole: nat, x: T)
    requires |a| == |v| && hole < |v| && v[hole] == x && a[hole] == x
    requires forall i :: 0 <= i < |v| && i != hole ==> a[i] == v[i]
    ensures a == v
  {
  }

  // No child of hole is above it.
  ghost predicate Settled<T, K>(o: Order<T, K>, v: seq<T>, hole: nat)
    requires hole < |v|
  {
    forall i :: 0 < i < |v| && Parent(i) == hole ==> !o.Less(v[hole], v[i])
  }

  // The element at hole goes on to child.
  ghost predicate Goes<T, K>(o: Order<T, K>, v: seq<T>, hole: nat, child: nat)
    requires hole < |v|
  {
    LargestChild(o, v, hole, child) && !o.Less(v[child], v[hole])
  }

  // One turn of that loop.
  method SinkOnce<T(!new), K>(a: array<T>, len: nat, start0: nat, child0: nat, top: T, o: Order<T, K>,
      ghost s: seq<T>, ghost v0: seq<T>, ghost root: nat)
    returns (start: nat, child: nat, sinking: bool, ghost v: seq<T>)
    requires StrictWeak(o) && len <= a.Length && |s| == len
    requires Sifting(o, s, v0, root, start0) && Holds(a[..len], v0, start0, top) && Goes(o, v0, start0, child0)
    modifies a
    ensures Sifting(o, s, v, root, start) && Holds(a[..len], v, start, top) && a[len..] == old(a[len..])
    ensures start > start0 && if sinking then Goes(o, v, start, child) else Settled(o, v, start)
  {
    v := Swapped(v0, start0, child0);
    SiftingStep(o, s, v0, root, start0, child0);
    HoldsMove(a[..len], v0, start0, top, child0);
    a[start0] := a[child0];
    start := child0;
    assert a[..len] == old(a[..len])[start0 := old(a[child0])];
    child, sinking := NextChild(a, len, start, top, o, v);
  }

  method NextChild<T(!new), K>(a: array<T>, len: nat, start: nat, top: T, o: Order<T, K>, ghost v: seq<T>)
    returns (child: nat, sinking: bool)
    requires StrictWeak(o) && len <= a.Length && |v| == len && start < len && Holds(a[..len], v, start, top) && len > 1
    ensures if sinking then Goes(o, v, start, child) else Settled(o, v, start)
  {
    child := start;
    if (len - 2) / 2 < child {
      sinking := false;
    } else {
      child := LargerChild(a, len, start, o);
      LargestUnmoved(o, a[..len], v, start, child, top);
      sinking := !o.Less(a[child], top);
      if !sinking {
        SinkBelow(o, v, start, child);
      }
    }
  }

  // s has become v with the sinking element at hole.
  ghost predicate Sifting<T, K>(o: Order<T, K>, s: seq<T>, v: seq<T>, root: nat, hole: nat) {
    && |v| == |s| && SinkingAt(o, v, root, hole) && multiset(v) == multiset(s)
    && forall i :: 0 <= i < |s| && !Under(root, i) ==> v[i] == s[i]
  }

  lemma SiftingStep<T(!new), K>(o: Order<T, K>, s: seq<T>, v: seq<T>, root: nat, hole: nat, child: nat)
    requires StrictWeak(o) && Sifting(o, s, v, root, hole) && LargestChild(o, v, hole, child)
    requires !o.Less(v[child], v[hole])
    ensures Sifting(o, s, Swapped(v, hole, child), root, child)
  {
    SinkStep(o, v, root, hole, child);
    SwapPermutes(v, hole, child);
  }

  // The hole is not among its own children.
  lemma LargestUnmoved<T, K>(o: Order<T, K>, a: seq<T>, v: seq<T>, hole: nat, child: nat, x: T)
    requires Holds(a, v, hole, x) && LargestChild(o, a, hole, child)
    ensures LargestChild(o, v, hole, child) && v[child] == a[child]
  {
  }

  // ---- sifting up ----

  // The element at hole is on its way up.
  ghost predicate RisingAt<T, K>(o: Order<T, K>, v: seq<T>, hole: nat) {
    && hole < |v| && (forall i :: 0 < i < |v| && i != hole ==> Ordered(o, v, i))
    && (hole > 0 ==> forall i :: 0 < i < |v| && Parent(i) == hole ==> !o.Less(v[Parent(hole)], v[i]))
  }

  lemma RiseStep<T(!new), K>(o: Order<T, K>, v: seq<T>, hole: nat)
    requires StrictWeak(o) && RisingAt(o, v, hole) && hole > 0 && o.Less(v[Parent(hole)], v[hole])
    ensures RisingAt(o, Swapped(v, hole, Parent(hole)), Parent(hole))
  {
    var p := Parent(hole);
    var t := Swapped(v, hole, p);
    LessNotLess(o, v[p], v[hole]);
    forall i | 0 < i < |v| && i != p ensures Ordered(o, t, i) {
      if i != hole {
        assert Ordered(o, v, i);
        if Parent(i) == p {
          NotLessTransitive(o, v[hole], v[p], v[i]);
        }
      }
    }
    if p > 0 {
      assert Ordered(o, v, p);
      forall i | 0 < i < |v| && Parent(i) == p ensures !o.Less(t[Parent(p)], t[i]) {
        if i != hole {
          assert Ordered(o, v, i);
          NotLessTransitive(o, v[Parent(p)], v[p], v[i]);
        }
      }
    }
  }

  lemma RiseStop<T, K>(o: Order<T, K>, v: seq<T>, hole: nat)
    requires RisingAt(o, v, hole) && (hole > 0 ==> !o.Less(v[Parent(hole)], v[hole]))
    ensures IsHeap(o, v)
  {
    forall i | 0 < i < |v| ensures Ordered(o, v, i) {
    }
  }

  // s has become v with the rising element at hole.
  ghost predicate Rising<T, K>(o: Order<T, K>, s: seq<T>, v: seq<T>, hole: nat) {
    |v| == |s| && RisingAt(o, v, hole) && multiset(v) == multiset(s)
  }

  // sift_up_n and push_heap: the last element joins the heap before it.
  method SiftUp<T(!new), K>(a: array<T>, len0: nat, o: Order<T, K>)
    requires StrictWeak(o) && len0 <= a.Length && (len0 > 0 ==> IsHeap(o, a[..len0 - 1]))
    modifies a
    ensures IsHeap(o, a[..len0])
    ensures multiset(a[..len0]) == multiset(old(a[..len0])) && a[len0..] == old(a[len0..])
  {
    if len0 > 1 {
      var last := len0 - 1;
      var i := (len0 - 2) / 2;
      ghost var s := a[..len0];
      PrefixOfPrefix(a[..], len0, len0 - 1);
      RiseStart(o, s);
      if o.Less(a[i], a[last]) {
        SiftUpFrom(a, len0, last, o, s);
      } else {
        RiseStop(o, s, last);
      }
    }
  }

  lemma RiseStart<T, K>(o: Order<T, K>, s: seq<T>)
    requires |s| > 1 && IsHeap(o, s[..|s| - 1])
    ensures RisingAt(o, s, |s| - 1)
  {
    forall i | 0 < i < |s| - 1 ensures Ordered(o, s, i) {
      assert Ordered(o, s[..|s| - 1], i);
    }
  }

  // The loop of sift_up_n.
  method SiftUpFrom<T(!new), K>(a: array<T>, len0: nat, last0: nat, o: Order<T, K>, ghost s: seq<T>)
    requires StrictWeak(o) && last0 < len0 <= a.Length && s == a[..len0] && last0 > 0
    requires Rising(o, s, s, last0) && o.Less(a[Parent(last0)], a[last0])
    modifies a
    ensures IsHeap(o, a[..len0]) && multiset(a[..len0]) == multiset(s) && a[len0..] == old(a[len0..])
  {
    var x, last, rising := a[last0], last0, true;
    ghost var v := s;
    while rising
      invariant Rising(o, s, v, last) && Holds(a[..len0], v, last, x) && a[len0..] == old(a[len0..])
      invariant if rising then last > 0 && o.Less(v[Parent(last)], x) else last > 0 ==> !o.Less(v[Parent(last)], x)
      decreases last, rising
    {
      last, rising, v := RiseOnce(a, len0, last, x, o, s, v);
    }
    a[last] := x;
    Filled(a[..len0], v, last, x);
    RiseStop(o, v, last);
  }

  method RiseOnce<T(!new), K>(a: array<T>, len0: nat, last0: nat, x: T, o: Order<T, K>,
                              ghost s: seq<T>, ghost v0: seq<T>)
    returns (last: nat, rising: bool, ghost v: seq<T>)
    requires StrictWeak(o) && len0 <= a.Length && |s| == len0
    requires Rising(o, s, v0, last0) && Holds(a[..len0], v0, last0, x) && last0 > 0 && o.Less(v0[Parent(last0)], x)
    modifies a
    ensures last < last0 && Rising(o, s, v, last) && Holds(a[..len0], v, last, x) && a[len0..] == old(a[len0..])
    ensures if rising then last > 0 && o.Less(v[Parent(last)], x) else last > 0 ==> !o.Less(v[Parent(last)], x)
  {
    var i := (last0 - 1) / 2;
    v := Swapped(v0, last0, i);
    RisingStep(o, s, v0, last0);
    HoldsMove(a[..len0], v0, last0, x, i);
    a[last0] := a[i];
    assert a[..len0] == old(a[..len0])[last0 := old(a[i])];
    last := i;
    rising := BelowElement(a, len0, last, x, o, v);
  }

  lemma RisingStep<T(!new), K>(o: Order<T, K>, s: seq<T>, v: seq<T>, hole: nat)
    requires StrictWeak(o) && Rising(o, s, v, hole) && hole > 0 && o.Less(v[Parent(hole)], v[hole])
    ensures Rising(o, s, Swapped(v, hole, Parent(hole)), Parent(hole))
  {
    RiseStep(o, v, hole);
    SwapPermutes(v, hole, Parent(hole));
  }

  // The loop's condition: the hole has a parent and it is below x.
  method BelowElement<T, K>(a: array<T>, len0: nat, last: nat, x: T, o: Order<T, K>, ghost v: seq<T>)
    returns (below: bool)
    requires len0 <= a.Length && Holds(a[..len0], v, last, x)
    ensures below <==> last > 0 && o.Less(v[Parent(last)], x)
  {
    below := last != 0 && o.Less(a[(last - 1) / 2], x);
  }

  // ---- heapsort ----

  // pop_heap_n: a top element goes to the end, the others stay a heap.
  method PopHeap<T(!new), K>(a: array<T>, len: nat, o: Order<T, K>)
    requires StrictWeak(o) && len <= a.Length && IsHeap(o, a[..len])
    modifies a
    ensures len > 0 ==> IsHeap(o, a[..len - 1]) && a[len - 1] == old(a[0])
    ensures forall i :: 0 <= i < len ==> !o.Less(a[len - 1], a[i])
    ensures multiset(a[..len]) == multiset(old(a[..len])) && a[len..] == old(a[len..])
  {
    if len > 1 {
      ghost var s := a[..len];
      SwapEnds(a, len);
      ghost var t := a[..len];
      PrefixOfPrefix(a[..], len, len - 1);
      PopStart(o, s);
      SiftDownFirst(a, len - 1, o);
      PrefixOfPrefix(a[..], len, len - 1);
      PopEnd(o, s, t, a[..len]);
    } else if len == 1 {
      NotLessItself(o, a[0]);
    }
  }

  lemma PrefixOfPrefix<T>(s: seq<T>, n: nat, i: nat)
    requires i <= n <= |s|
    ensures s[..n][..i] == s[..i]
  {
  }

  // iter_swap of the first element and the last of len.
  method SwapEnds<T>(a: array<T>, len: nat)
    requires 0 < len <= a.Length
    modifies a
    ensures a[..len] == Swapped(old(a[..len]), 0, len - 1) && a[len..] == old(a[len..])
  {
    a[0], a[len - 1] := a[len - 1], a[0];
  }

  // sift_down_n from the root, all of whose array is its subtree.
  method SiftDownFirst<T(!new), K>(a: array<T>, len: nat, o: Order<T, K>)
    requires StrictWeak(o) && len < a.Length && HeapsBelow(o, a[..len], 0)
    modifies a
    ensures HeapUnder(o, a[..len], 0) && multiset(a[..len]) == multiset(old(a[..len]))
    ensures a[len] == old(a[len]) && a[len + 1..] == old(a[len + 1..])
  {
    ghost var rest := a[len..];
    SiftDown(a, len, 0, o);
    assert a[len..] == rest;
    assert a[len + 1..] == a[len..][1..];
    assert a[len] == a[len..][0];
  }

  // With its root replaced a heap has heaps below.
  lemma PopStart<T, K>(o: Order<T, K>, s: seq<T>)
    requires |s| > 1 && IsHeap(o, s)
    ensures HeapsBelow(o, Swapped(s, 0, |s| - 1)[..|s| - 1], 0)
  {
    var t := Swapped(s, 0, |s| - 1)[..|s| - 1];
    forall i | 0 < i < |t| && Parent(i) != 0 ensures Ordered(o, t, i) {
      assert Ordered(o, s, i);
    }
  }

  lemma PopEnd<T(!new), K>(o: Order<T, K>, s: seq<T>, t: seq<T>, r: seq<T>)
    requires StrictWeak(o) && IsHeap(o, s) && |s| > 1 && t == Swapped(s, 0, |s| - 1) && |r| == |s|
    requires HeapUnder(o, r[..|s| - 1], 0) && r[|s| - 1] == t[|s| - 1]
    requires multiset(r[..|s| - 1]) == multiset(t[..|s| - 1])
    ensures IsHeap(o, r[..|s| - 1]) && r[|s| - 1] == s[0] && multiset(r) == multiset(s)
    ensures forall i :: 0 <= i < |s| ==> !o.Less(r[|s| - 1], r[i])
  {
    var n := |s| - 1;
    forall i | 0 < i < n ensures Ordered(o, r[..n], i) {
      UnderRoot(Parent(i));
    }
    SwapPermutes(s, 0, n);
    AppendLast(r);
    AppendLast(t);
    forall i | 0 <= i < |s| ensures !o.Less(s[0], r[i]) {
      FoundIn(r, s, i);
      var j :| 0 <= j < |s| && s[j] == r[i];
      RootIsTop(o, s, j);
    }
  }

  lemma AppendLast<T>(r: seq<T>)
    requires r != []
    ensures multiset(r) == multiset(r[..|r| - 1]) + multiset{r[|r| - 1]}
  {
    assert r == r[..|r| - 1] + [r[|r| - 1]];
  }

  lemma FoundIn<T>(r: seq<T>, s: seq<T>, i: nat)
    requires multiset(r) == multiset(s) && i < |r|
    ensures exists j :: 0 <= j < |s| && s[j] == r[i]
  {
    assert r[i] in multiset(r);
    assert r[i] in multiset(s);
    assert r[i] in s;
  }

  // The parents from lo on are in order with their children.
  ghost predicate HeapFrom<T, K>(o: Order<T, K>, s: seq<T>, lo: int) {
    forall i :: 0 < i < |s| && Parent(i) >= lo ==> Ordered(o, s, i)
  }

  lemma HeapFromStart<T, K>(o: Order<T, K>, s: seq<T>, start: nat)
    requires HeapFrom(o, s, start + 1)
    ensures HeapsBelow(o, s, start)
  {
  }

  lemma HeapFromStep<T, K>(o: Order<T, K>, s: seq<T>, t: seq<T>, start: nat)
    requires |t| == |s| && HeapFrom(o, s, start + 1) && HeapUnder(o, t, start)
    requires forall i :: 0 <= i < |s| && !Under(start, i) ==> t[i] == s[i]
    ensures HeapFrom(o, t, start)
  {
    forall i | 0 < i < |t| && Parent(i) >= start ensures Ordered(o, t, i) {
      if !Under(start, Parent(i)) {
        assert Ordered(o, s, i);
        assert !Under(start, i);
      }
    }
  }

  // make_heap
  method MakeHeap<T(!new), K>(a: array<T>, n: nat, o: Order<T, K>)
    requires StrictWeak(o) && n <= a.Length
    modifies a
    ensures IsHeap(o, a[..n])
    ensures multiset(a[..n]) == multiset(old(a[..n])) && a[n..] == old(a[n..])
  {
    if n > 1 {
      var start := (n - 2) / 2;
      while start >= 0
        invariant -1 <= start && HeapFrom(o, a[..n], start + 1)
        invariant multiset(a[..n]) == multiset(old(a[..n])) && a[n..] == old(a[n..])
        decreases start
      {
        ghost var s := a[..n];
        HeapFromStart(o, s, start);
        SiftDown(a, n, start, o);
        HeapFromStep(o, s, a[..n], start);
        start := start - 1;
      }
    }
  }

  // The first i elements are a heap, the others sorted and not below any of them.
  ghost predicate HeapThenSorted<T, K>(o: Order<T, K>, s: seq<T>, i: nat) {
    && i <= |s| && IsHeap(o, s[..i]) && Sorted(o, s[i..])
    && forall j, k :: 0 <= j < i <= k < |s| ==> !o.Less(s[k], s[j])
  }

  lemma PopSorted<T(!new), K>(o: Order<T, K>, s: seq<T>, t: seq<T>, i: nat)
    requires StrictWeak(o) && HeapThenSorted(o, s, i) && i > 0 && |t| == |s|
    requires IsHeap(o, t[..i - 1]) && multiset(t[..i]) == multiset(s[..i]) && t[i..] == s[i..]
    requires forall j :: 0 <= j < i ==> !o.Less(t[i - 1], t[j])
    ensures HeapThenSorted(o, t, i - 1)
  {
    forall j, k | 0 <= j < i <= k < |t| ensures !o.Less(t[k], t[j]) {
      FoundIn(t[..i], s[..i], j);
      var m :| 0 <= m < i && s[..i][m] == t[..i][j];
      assert t[k] == t[i..][k - i] == s[k];
    }
    forall j, k | i - 1 <= j < k < |t| ensures !o.Less(t[k], t[j]) {
      if j >= i {
        assert t[k] == s[i..][k - i] && t[j] == s[i..][j - i];
      }
    }
    TailSorted(o, t, i - 1);
    PrefixOfPrefix(t, i, i - 1);
  }

  lemma TailSorted<T, K>(o: Order<T, K>, t: seq<T>, i: nat)
    requires i <= |t| && forall j, k :: i <= j < k < |t| ==> !o.Less(t[k], t[j])
    ensures Sorted(o, t[i..])
  {
  }

  lemma FewSorted<T(!new), K>(o: Order<T, K>, s: seq<T>, i: nat)
    requires HeapThenSorted(o, s, i) && i <= 1
    ensures Sorted(o, s)
  {
    forall j, k | 0 <= j < k < |s| ensures !o.Less(s[k], s[j]) {
      if j >= i {
        assert s[j] == s[i..][j - i] && s[k] == s[i..][k - i];
      }
    }
  }

  // sort_heap
  method SortHeap<T(!new), K>(a: array<T>, n: nat, o: Order<T, K>)
    requires StrictWeak(o) && n <= a.Length && IsHeap(o, a[..n])
    modifies a
    ensures Sorted(o, a[..n])
    ensures multiset(a[..n]) == multiset(old(a[..n])) && a[n..] == old(a[n..])
  {
    var i := n;
    assert a[..n][..n] == a[..n];
    while i > 1
      invariant 0 <= i <= n && HeapThenSorted(o, a[..n], i)
      invariant multiset(a[..n]) == multiset(old(a[..n])) && a[n..] == old(a[n..])
      decreases i
    {
      PopInto(a, n, i, o);
      i := i - 1;
    }
    FewSorted(o, a[..n], i);
  }

  // One turn of that loop.
  method PopInto<T(!new), K>(a: array<T>, n: nat, i: nat, o: Order<T, K>)
    requires StrictWeak(o) && 1 < i <= n <= a.Length && HeapThenSorted(o, a[..n], i)
    modifies a
    ensures HeapThenSorted(o, a[..n], i - 1)
    ensures multiset(a[..n]) == multiset(old(a[..n])) && a[n..] == old(a[n..])
  {
    ghost var s, all := a[..n], a[..];
    PrefixOfPrefix(a[..], n, i);
    PopHeap(a, i, o);
    PrefixOfPrefix(a[..], n, i);
    PrefixOfPrefix(a[..], n, i - 1);
    PrefixPermuted(all, a[..], n, i);
    PopSorted(o, s, a[..n], i);
  }

  lemma PrefixPermuted<T>(s: seq<T>, t: seq<T>, n: nat, i: nat)
    requires |t| == |s| && i <= n <= |s| && multiset(t[..i]) == multiset(s[..i]) && t[i..] == s[i..]
    ensures multiset(t[..n]) == multiset(s[..n]) && t[..n][i..] == s[..n][i..] && t[n..] == s[n..]
  {
    assert t[..n][i..] == t[i..][..n - i] && s[..n][i..] == s[i..][..n - i];
    assert t[n..] == t[i..][n - i..] && s[n..] == s[i..][n - i..];
    assert t[..n] == t[..i] + t[..n][i..] && s[..n] == s[..i] + s[..n][i..];
  }

  // make_heap and sort_heap together sort.
  method HeapSort<T(!new), K>(a: array<T>, n: nat, o: Order<T, K>)
    requires StrictWeak(o) && n <= a.Length
    modifies a
    ensures Sorted(o, a[..n])
    ensures multiset(a[..n]) == multiset(old(a[..n])) && a[n..] == old(a[n..])
  {
    MakeHeap(a, n, o);
    SortHeap(a, n, o);
  }

  // ---- is_heap_until_n ----

  // The first c elements are a heap that the next one, if any, is not part of.
  ghost predicate HeapUpTo<T, K>(o: Order<T, K>, s: seq<T>, c: nat) {
    c <= |s| && IsHeap(o, s[..c]) && forall k :: c < k <= |s| ==> !IsHeap(o, s[..k])
  }

  // is_heap_until_n: the longest prefix that is a heap.
  method IsHeapUntil<T(!new), K>(a: array<T>, n: nat, o: Order<T, K>) returns (r: nat)
    requires n <= a.Length
    ensures HeapUpTo(o, a[..n], r)
  {
    var p, c := 0, 1;
    ghost var s := a[..n];
    while c < n
      invariant c == 2 * p + 1 && OrderedBefore(o, s, c)
    {
      if o.Less(a[p], a[c]) {
        HeapStops(o, s, c);
        return c;
      }
      c := c + 1;
      if c == n || o.Less(a[p], a[c]) {
        HeapStops(o, s, c);
        return c;
      }
      p := p + 1;
      c := 2 * p + 1;
    }
    HeapStops(o, s, n);
    return n;
  }

  ghost predicate OrderedBefore<T, K>(o: Order<T, K>, s: seq<T>, c: nat) {
    forall i :: 0 < i < c && i < |s| ==> Ordered(o, s, i)
  }

  lemma HeapStops<T, K>(o: Order<T, K>, s: seq<T>, c: nat)
    requires c <= |s| && OrderedBefore(o, s, c)
    requires c < |s| ==> c > 0 && !Ordered(o, s, c)
    ensures HeapUpTo(o, s, c)
  {
    forall i | 0 < i < c ensures Ordered(o, s[..c], i) {
      assert Ordered(o, s, i);
    }
    forall k | c < k <= |s| ensures !IsHeap(o, s[..k]) {
      assert Ordered(o, s[..k], c) == Ordered(o, s, c);
    }
  }

  // is_heap_n: the scan reaches the end exactly on heaps.
  method IsHeapN<T(!new), K>(a: array<T>, n: nat, o: Order<T, K>) returns (r: bool)
    requires n <= a.Length
    ensures r <==> IsHeap(o, a[..n])
  {
    var until := IsHeapUntil(a, n, o);
    r := until == n;
    PrefixOfPrefix(a[..], n, n);
  }
}
