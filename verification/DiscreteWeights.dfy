// The complete binary tree of sums behind a discrete distribution.
module DiscreteWeights {
  import opened Modular

  function Sum(w: seq<real>): real {
    if w == [] then 0.0 else w[0] + Sum(w[1..])
  }

  lemma {:induction false} SumConcat(v: seq<real>, w: seq<real>)
    ensures Sum(v + w) == Sum(v) + Sum(w)
  {
    if v == [] {
      assert v + w == w;
    } else {
      SumConcat(v[1..], w);
      assert (v + w)[1..] == v[1..] + w;
    }
  }

  // A stretch of a sequence in two parts.
  lemma SumSplit(w: seq<real>, i: nat, j: nat, k: nat)
    requires i <= j <= k <= |w|
    ensures Sum(w[i..k]) == Sum(w[i..j]) + Sum(w[j..k])
  {
    assert w[i..k] == w[i..j] + w[j..k];
    SumConcat(w[i..j], w[j..k]);
  }

  lemma SumOne(w: seq<real>, i: nat)
    requires i < |w|
    ensures Sum(w[i..i + 1]) == w[i]
  {
    assert w[i..i + 1][1..] == [];
  }

  ghost predicate NonNegative(w: seq<real>) {
    forall i :: 0 <= i < |w| ==> w[i] >= 0.0
  }

  lemma {:induction false} SumNonNegative(w: seq<real>)
    requires NonNegative(w)
    ensures Sum(w) >= 0.0
  {
    if w != [] {
      SumNonNegative(w[1..]);
    }
  }

  // s[i] <= probe < s[i + 1] for the cumulative sums s.
  ghost predicate Covers(w: seq<real>, probe: real, i: int) {
    0 <= i < |w| && Sum(w[..i]) <= probe < Sum(w[..i + 1])
  }

  // The first event whose cumulative interval reaches beyond the probe.
  function Scan(w: seq<real>, probe: real): (i: nat)
    ensures i <= |w|
  {
    if w == [] || probe < w[0] then 0 else 1 + Scan(w[1..], probe - w[0])
  }

  // No other event covers the probe, and a linear scan finds this one.
  lemma {:induction false} CoversScan(w: seq<real>, probe: real, i: int)
    requires NonNegative(w) && probe >= 0.0
    ensures Covers(w, probe, i) <==> i == Scan(w, probe) && i < |w|
  {
    if w != [] {
      assert w[..0] == [] && w[..1] == [w[0]] && Sum(w[..1]) == w[0] + Sum([]) == w[0];
      if 0 < i < |w| {
        assert w[..i][1..] == w[1..][..i - 1] && w[..i + 1][1..] == w[1..][..i];
        if probe < w[0] {
          SumNonNegative(w[1..][..i - 1]);
        } else {
          CoversScan(w[1..], probe - w[0], i - 1);
        }
      } else if i == 0 {
        assert Covers(w, probe, 0) == (probe < w[0]);
      }
    }
  }

  // ---- the tree ----

  ghost predicate SumNode(t: seq<real>, n: nat)
    requires 2 * n + 2 < |t|
  {
    t[n] == t[2 * n + 1] + t[2 * n + 2]
  }

  // A tree over the given leaves whose inner nodes from lo on are sums.
  ghost predicate SumsFrom(t: seq<real>, leaves: nat, lo: nat) {
    |t| == 2 * leaves - 1 && forall n :: lo <= n < leaves - 1 ==> SumNode(t, n)
  }

  ghost function Leaves(t: seq<real>, leaves: nat): (w: seq<real>)
    requires |t| == 2 * leaves - 1
    ensures |w| == leaves && forall i :: 0 <= i < leaves ==> w[i] == t[leaves - 1 + i]
  {
    t[leaves - 1..]
  }

  // The subtree of height h at node has its leaves from lo on.
  ghost predicate Over(leaves: nat, node: nat, h: nat, lo: nat)
    decreases h
  {
    lo + Pow2(h) <= leaves &&
    if h == 0 then node == leaves - 1 + lo
    else
      && node < leaves - 1 && Over(leaves, 2 * node + 1, h - 1, lo)
      && Over(leaves, 2 * node + 2, h - 1, lo + Pow2(h - 1))
  }

  lemma {:induction false} OverFrom(leaves: nat, node: nat, h: nat, lo: nat)
    requires (node + 1) * Pow2(h) == leaves + lo && lo + Pow2(h) <= leaves
    ensures Over(leaves, node, h, lo)
    decreases h
  {
    if h > 0 {
      var u := Pow2(h - 1);
      LayerBelow(node, u);
      OverFrom(leaves, 2 * node + 1, h - 1, lo);
      OverFrom(leaves, 2 * node + 2, h - 1, lo + u);
    }
  }

  lemma LayerBelow(node: nat, u: nat)
    requires u > 0
    ensures (2 * node + 2) * u == (node + 1) * (2 * u) >= 2 * node + 2
    ensures (2 * node + 3) * u == (node + 1) * (2 * u) + u
  {
    assert (2 * node + 2) * u == (node + 1) * (2 * u);
    assert (2 * node + 3) * u == (2 * node + 2) * u + u;
  }

  // A node holds the sum of the leaves below it.
  lemma {:induction false} NodeSum(t: seq<real>, leaves: nat, node: nat, h: nat, lo: nat)
    requires SumsFrom(t, leaves, 0) && Over(leaves, node, h, lo)
    ensures node < |t| && t[node] == Sum(Leaves(t, leaves)[lo..lo + Pow2(h)])
  {
    NodeSumOf(t, Leaves(t, leaves), node, h, lo);
  }

  lemma {:induction false} NodeSumOf(t: seq<real>, w: seq<real>, node: nat, h: nat, lo: nat)
    requires SumsFrom(t, |w|, 0) && forall i :: 0 <= i < |w| ==> w[i] == t[|w| - 1 + i]
    requires Over(|w|, node, h, lo)
    ensures node < |t| && t[node] == Sum(w[lo..lo + Pow2(h)])
    decreases h
  {
    if h == 0 {
      SumOne(w, lo);
    } else {
      var u := Pow2(h - 1);
      NodeSumOf(t, w, 2 * node + 1, h - 1, lo);
      NodeSumOf(t, w, 2 * node + 2, h - 1, lo + u);
      assert SumNode(t, node);
      SumSplit(w, lo, lo + u, lo + 2 * u);
    }
  }

  // The smallest power of two that is not below the number of events.
  method CountLeaves(events: nat) returns (leaves: nat, ghost depth: nat)
    ensures leaves == Pow2(depth) && events <= leaves && (leaves > 1 ==> leaves < 2 * events)
  {
    leaves, depth := 1, 0;
    while leaves < events
      invariant leaves == Pow2(depth) && (leaves > 1 ==> leaves < 2 * events)
      decreases events - leaves
    {
      leaves, depth := leaves * 2, depth + 1;
    }
  }

  // The weights in the leaves, nothing elsewhere.
  method FillLeaves(weights: seq<real>, leaves: nat) returns (t: seq<real>)
    requires |weights| <= leaves && leaves > 0
    ensures |t| == 2 * leaves - 1
    ensures forall i :: 0 <= i < leaves ==> Leaves(t, leaves)[i] == if i < |weights| then weights[i] else 0.0
  {
    t := seq(2 * leaves - 1, _ => 0.0);
    for i := 0 to |weights|
      invariant |t| == 2 * leaves - 1
      invariant forall k :: leaves - 1 <= k < |t| ==>
        t[k] == if k - (leaves - 1) < i then weights[k - (leaves - 1)] else 0.0
    {
      t := t[leaves + i - 1 := weights[i]];
    }
  }

  // The sums of one layer of inner nodes.
  method FillLayer(t0: seq<real>, leaves: nat, start: nat, end: nat) returns (t: seq<real>)
    requires SumsFrom(t0, leaves, end) && start < end < leaves && end == 2 * start + 1
    ensures SumsFrom(t, leaves, start) && Leaves(t, leaves) == Leaves(t0, leaves)
  {
    t := t0;
    for node := start to end
      invariant |t| == 2 * leaves - 1 && t[end..] == t0[end..]
      invariant forall n :: start <= n < node || end <= n < leaves - 1 ==> SumNode(t, n)
    {
      ghost var before := t;
      t := t[node := t[2 * node + 1] + t[2 * node + 2]];
      forall n | start <= n < node || end <= n < leaves - 1 ensures SumNode(t, n) {
        assert SumNode(before, n);
      }
      assert SumNode(t, node);
    }
    LeavesKept(t0, t, leaves, end);
  }

  lemma LeavesKept(t0: seq<real>, t: seq<real>, leaves: nat, end: nat)
    requires |t| == |t0| == 2 * leaves - 1 && end < leaves && t[end..] == t0[end..]
    ensures Leaves(t, leaves) == Leaves(t0, leaves)
  {
    assert t[leaves - 1..] == t[end..][leaves - 1 - end..];
    assert t0[leaves - 1..] == t0[end..][leaves - 1 - end..];
  }

  // The inner nodes, from the lowest layer up to the root.
  method FillInner(t0: seq<real>, leaves: nat, ghost depth: nat) returns (t: seq<real>)
    requires leaves == Pow2(depth) && |t0| == 2 * leaves - 1
    ensures SumsFrom(t, leaves, 0) && Leaves(t, leaves) == Leaves(t0, leaves)
  {
    t := t0;
    var layerSize := leaves / 2;
    ghost var d: nat := depth;
    while layerSize != 0
      invariant if d == 0 then layerSize == 0 else layerSize == Pow2(d - 1)
      invariant d <= depth && SumsFrom(t, leaves, Pow2(d) - 1) && Leaves(t, leaves) == Leaves(t0, leaves)
      decreases d
    {
      Pow2Monotone(d, depth);
      var start := layerSize - 1;
      var end := start + layerSize;
      t := FillLayer(t, leaves, start, end);
      layerSize := layerSize / 2;
      d := d - 1;
    }
  }

  lemma PaddedSum(w: seq<real>, n: nat)
    requires n <= |w| && forall i :: n <= i < |w| ==> w[i] == 0.0
    ensures Sum(w) == Sum(w[..n])
  {
    SumConcat(w[..n], w[n..]);
    assert w == w[..n] + w[n..];
    SumZeros(w[n..]);
  }

  lemma {:induction false} SumZeros(w: seq<real>)
    requires forall i :: 0 <= i < |w| ==> w[i] == 0.0
    ensures Sum(w) == 0.0
  {
    if w != [] {
      SumZeros(w[1..]);
    }
  }

  // The event the probe has come to: where its path ends and what it has passed.
  ghost predicate Descending(t: seq<real>, leaves: nat, node: nat, h: nat, lo: nat, probe0: real, probe: real) {
    && SumsFrom(t, leaves, 0) && NonNegative(Leaves(t, leaves)) && Over(leaves, node, h, lo) && node < |t|
    && probe0 == Sum(Leaves(t, leaves)[..lo]) + probe
    && (0.0 <= probe0 < t[0] ==> 0.0 <= probe < t[node])
    && (probe0 < 0.0 ==> lo == 0)
    && (probe0 >= t[0] ==> lo + Pow2(h) == leaves && probe >= t[node])
  }

  lemma DescendStart(t: seq<real>, leaves: nat, depth: nat, probe: real)
    requires SumsFrom(t, leaves, 0) && NonNegative(Leaves(t, leaves)) && leaves == Pow2(depth)
    ensures Descending(t, leaves, 0, depth, 0, probe, probe) && Over(leaves, 0, depth, 0)
  {
    OverFrom(leaves, 0, depth, 0);
    assert Leaves(t, leaves)[..0] == [];
  }

  lemma DescendSums(t: seq<real>, leaves: nat, node: nat, h: nat, lo: nat)
    requires SumsFrom(t, leaves, 0) && NonNegative(Leaves(t, leaves)) && Over(leaves, node, h, lo) && h > 0
    ensures 2 * node + 2 < |t| && SumNode(t, node) && t[2 * node + 1] >= 0.0 && t[2 * node + 2] >= 0.0
    ensures lo + Pow2(h - 1) <= leaves
    ensures Sum(Leaves(t, leaves)[..lo + Pow2(h - 1)]) == Sum(Leaves(t, leaves)[..lo]) + t[2 * node + 1]
  {
    var w, u := Leaves(t, leaves), Pow2(h - 1);
    NodeSum(t, leaves, 2 * node + 1, h - 1, lo);
    NodeSum(t, leaves, 2 * node + 2, h - 1, lo + u);
    SumNonNegative(w[lo..lo + u]);
    SumNonNegative(w[lo + u..lo + u + u]);
    Prefix(w, lo, lo + u);
  }

  // Below a node that has children.
  lemma DescendStep(t: seq<real>, leaves: nat, node: nat, h: nat, lo: nat, probe0: real, probe: real)
    requires Descending(t, leaves, node, h, lo, probe0, probe) && h > 0
    ensures 2 * node + 2 < |t|
    ensures if probe < t[2 * node + 1] then Descending(t, leaves, 2 * node + 1, h - 1, lo, probe0, probe)
      else Descending(t, leaves, 2 * node + 2, h - 1, lo + Pow2(h - 1), probe0, probe - t[2 * node + 1])
  {
    DescendSums(t, leaves, node, h, lo);
    assert Leaves(t, leaves)[..0] == [];
  }

  lemma Prefix(w: seq<real>, i: nat, j: nat)
    requires i <= j <= |w|
    ensures Sum(w[..j]) == Sum(w[..i]) + Sum(w[i..j])
  {
    assert w[..j] == w[..i] + w[i..j];
    SumConcat(w[..i], w[i..j]);
  }

  // What the path of a probe ends at: the event that covers it, or one of the ends.
  ghost predicate Found(t: seq<real>, leaves: nat, events: nat, probe: real, index: int)
    requires |t| == 2 * leaves - 1 && events <= leaves
  {
    && 0 <= index < leaves
    && (0.0 <= probe < t[0] ==> Covers(Leaves(t, leaves)[..events], probe, index))
    && (probe >= t[0] ==> index == leaves - 1)
    && (probe < 0.0 ==> index == 0)
  }

  lemma DescendEnd(t: seq<real>, leaves: nat, node: nat, h: nat, lo: nat, probe0: real, probe: real, events: nat)
    requires Descending(t, leaves, node, h, lo, probe0, probe) && h == 0 && events <= leaves
    requires forall i :: events <= i < leaves ==> Leaves(t, leaves)[i] == 0.0
    ensures Found(t, leaves, events, probe0, node - (leaves - 1))
  {
    var w := Leaves(t, leaves);
    assert t[node] == w[lo];
    if 0.0 <= probe0 < t[0] {
      Prefix(w, lo, lo + 1);
      SumOne(w, lo);
      assert lo < events;
      assert w[..events][..lo] == w[..lo] && w[..events][..lo + 1] == w[..lo + 1];
    }
  }

  // One turn of the loop of find.
  method DescendOnce(t: seq<real>, leaves: nat, node0: nat, ghost h0: nat, ghost lo0: nat,
                     ghost start: real, probe0: real)
    returns (node: nat, probe: real, ghost h: nat, ghost lo: nat)
    requires Descending(t, leaves, node0, h0, lo0, start, probe0) && h0 > 0
    ensures Descending(t, leaves, node, h, lo, start, probe) && h == h0 - 1
    ensures 2 * node + 1 < |t| <==> h > 0
  {
    DescendStep(t, leaves, node0, h0, lo0, start, probe0);
    var lchild, rchild := 2 * node0 + 1, 2 * node0 + 2;
    h := h0 - 1;
    if probe0 < t[lchild] {
      node, probe, lo := lchild, probe0, lo0;
    } else {
      node, probe, lo := rchild, probe0 - t[lchild], lo0 + Pow2(h);
    }
  }

  // The loop of find: from the root to a leaf.
  method Descend(t: seq<real>, leaves: nat, ghost depth: nat, probe0: real, ghost events: nat) returns (index: int)
    requires SumsFrom(t, leaves, 0) && NonNegative(Leaves(t, leaves)) && leaves == Pow2(depth)
    requires events <= leaves && forall i :: events <= i < leaves ==> Leaves(t, leaves)[i] == 0.0
    ensures Found(t, leaves, events, probe0, index)
  {
    var node: nat, probe := 0, probe0;
    ghost var h: nat, lo: nat := depth, 0;
    DescendStart(t, leaves, depth, probe0);
    while 2 * node + 1 < |t|
      invariant Descending(t, leaves, node, h, lo, probe0, probe)
      invariant 2 * node + 1 < |t| <==> h > 0
      decreases h
    {
      node, probe, h, lo := DescendOnce(t, leaves, node, h, lo, probe0, probe);
    }
    DescendEnd(t, leaves, node, h, lo, probe0, probe, events);
    index := node - (leaves - 1);
  }

  // Replacing a leaf leaves every sum right but its parent's.
  ghost predicate SumsExceptAbove(t: seq<real>, leaves: nat, node: nat) {
    && |t| == 2 * leaves - 1
    && forall n :: 0 <= n < leaves - 1 && 2 * n + 1 != node && 2 * n + 2 != node ==> SumNode(t, n)
  }

  lemma ReplaceLeaf(t: seq<real>, leaves: nat, i: nat, x: real)
    requires SumsFrom(t, leaves, 0) && i < leaves
    ensures SumsExceptAbove(t[leaves + i - 1 := x], leaves, leaves + i - 1)
    ensures Leaves(t[leaves + i - 1 := x], leaves) == Leaves(t, leaves)[i := x]
  {
    var r := t[leaves + i - 1 := x];
    forall n | 0 <= n < leaves - 1 && 2 * n + 1 != leaves + i - 1 && 2 * n + 2 != leaves + i - 1 ensures SumNode(r, n) {
      assert SumNode(t, n);
    }
  }

  // Recomputing a node moves the one wrong sum to its parent.
  lemma RepairNode(t: seq<real>, leaves: nat, child: nat, x: real)
    requires SumsExceptAbove(t, leaves, child) && 0 < child < |t|
    requires var node := (child - 1) / 2; 2 * node + 2 < |t| && x == t[2 * node + 1] + t[2 * node + 2]
    ensures var node := (child - 1) / 2;
      SumsExceptAbove(t[node := x], leaves, node) && Leaves(t[node := x], leaves) == Leaves(t, leaves)
  {
    var node := (child - 1) / 2;
    var r := t[node := x];
    forall n | 0 <= n < leaves - 1 && 2 * n + 1 != node && 2 * n + 2 != node ensures SumNode(r, n) {
      if n != node {
        assert SumNode(t, n);
      }
    }
  }

  lemma {:induction false} RootSum(t: seq<real>, leaves: nat, depth: nat, events: nat)
    requires leaves == Pow2(depth) && events <= leaves && SumsFrom(t, leaves, 0)
    requires forall i :: events <= i < leaves ==> Leaves(t, leaves)[i] == 0.0
    ensures t[0] == Sum(Leaves(t, leaves)[..events])
  {
    var w := Leaves(t, leaves);
    OverFrom(leaves, 0, depth, 0);
    NodeSum(t, leaves, 0, depth, 0);
    assert w[0..leaves] == w;
    PaddedSum(w, events);
  }

  lemma WrapBelow(x: int, m: nat)
    requires -1 <= x < m && m > 0
    ensures x % m == if x < 0 then m - 1 else x
  {
    if x < 0 {
      QuotientUnique(m, -1, m - 1);
    } else {
      QuotientUnique(m, 0, x);
    }
  }

  // What find promises for the weights w in words of the given width.
  ghost predicate Answers(w: seq<real>, probe: real, width: nat, index: nat) {
    && (if w != [] then index < |w| else index == Pow2(width) - 1)
    && (NonNegative(w) && 0.0 <= probe < Sum(w) ==> Covers(w, probe, index) && index == Scan(w, probe))
    && (w != [] && probe >= Sum(w) ==> index == |w| - 1)
    && (w != [] && probe < 0.0 ==> index == 0)
  }

  lemma FoundAnswers(t: seq<real>, leaves: nat, events: nat, probe: real, found: nat, width: nat, index: nat)
    requires |t| == 2 * leaves - 1 && events <= leaves && Found(t, leaves, events, probe, found)
    requires var w := Leaves(t, leaves)[..events]; NonNegative(w) && t[0] == Sum(w)
    requires index == if found < events then found else if events > 0 then events - 1 else Pow2(width) - 1
    ensures Answers(Leaves(t, leaves)[..events], probe, width, index)
  {
    var w := Leaves(t, leaves)[..events];
    if 0.0 <= probe < Sum(w) {
      CoversScan(w, probe, found);
    }
  }

  // The end of find: the search may overshoot.
  method WithinEvents(found: nat, events: nat, width: nat) returns (index: nat)
    requires events <= Pow2(width)
    ensures index == if found < events then found else if events > 0 then events - 1 else Pow2(width) - 1
  {
    index := found;
    if index >= events {
      WrapBelow(events - 1, Pow2(width));
      index := (events - 1) % Pow2(width);
    }
  }

  method Search(t: seq<real>, leaves: nat, ghost depth: nat, events: nat, probe: real, width: nat) returns (index: nat)
    requires SumsFrom(t, leaves, 0) && NonNegative(Leaves(t, leaves)) && leaves == Pow2(depth) && events <= Pow2(width)
    requires events <= leaves && forall i :: events <= i < leaves ==> Leaves(t, leaves)[i] == 0.0
    ensures Answers(Leaves(t, leaves)[..events], probe, width, index)
  {
    var found := Descend(t, leaves, depth, probe, events);
    RootSum(t, leaves, depth, events);
    index := WithinEvents(found, events, width);
    FoundAnswers(t, leaves, events, probe, found, width, index);
  }

  // discrete_weights
  class Weights {
    var sumtree: seq<real>
    var leaves: nat
    var events: nat
    ghost var depth: nat

    // Every inner node is the sum of its children, and the leaves past the events are empty.
    ghost predicate Valid()
      reads this
    {
      && leaves == Pow2(depth) && events <= leaves && (leaves == 1 || leaves < 2 * events)
      && SumsFrom(sumtree, leaves, 0) && NonNegative(Leaves(sumtree, leaves))
      && forall i :: events <= i < leaves ==> Leaves(sumtree, leaves)[i] == 0.0
    }

    // The weights, as data() shows them.
    ghost function Contents(): (w: seq<real>)
      reads this
      requires Valid()
      ensures |w| == events && NonNegative(w)
    {
      Leaves(sumtree, leaves)[..events]
    }

    constructor (weights: seq<real>)
      requires NonNegative(weights)
      ensures Valid() && Contents() == weights
    {
      ghost var d: nat;
      var n, t;
      n, d := CountLeaves(|weights|);
      t := FillLeaves(weights, n);
      t := FillInner(t, n, d);
      sumtree, leaves, events, depth := t, n, |weights|, d;
      new;
      assert Leaves(sumtree, leaves)[..events] == weights;
    }

    // operator[]
    method At(i: nat) returns (r: real)
      requires Valid() && i < events
      ensures r == Contents()[i]
    {
      r := sumtree[leaves - 1 + i];
    }

    // sum: in constant time.
    method Total() returns (r: real)
      requires Valid()
      ensures r == sumtree[0] == Sum(Contents())
    {
      RootSum(sumtree, leaves, depth, events);
      r := sumtree[0];
    }

    // find: the event whose cumulative interval holds the probe. Probes past the
    // sum give the last event, negative ones the first. Without events the index
    // wraps around in words of the given width.
    method Find(probe: real, width: nat) returns (index: nat)
      requires Valid() && events <= Pow2(width)
      ensures if events > 0 then index < events else index == Pow2(width) - 1
      ensures 0.0 <= probe < Sum(Contents()) ==> Covers(Contents(), probe, index) && index == Scan(Contents(), probe)
      ensures events > 0 && probe >= Sum(Contents()) ==> index == events - 1
      ensures events > 0 && probe < 0.0 ==> index == 0
    {
      index := Search(sumtree, leaves, depth, events, probe, width);
    }

    // update: a new weight for one event, the sums above it following. With a
    // single event the leaf is the root, and the source steps to a parent it has not.
    method Update(i: nat, weight: real)
      requires Valid() && i < events && weight >= 0.0 && events > 1
      modifies this
      ensures Valid() && events == old(events) && Contents() == old(Contents())[i := weight]
    {
      var node := leaves + i - 1;
      ReplaceLeaf(sumtree, leaves, i, weight);
      ghost var w := Leaves(sumtree, leaves)[i := weight];
      sumtree := sumtree[node := weight];
      var climbing := true;
      while climbing
        invariant events == old(events) && leaves == old(leaves) && depth == old(depth)
        invariant 0 <= node < 2 * leaves - 1 && SumsExceptAbove(sumtree, leaves, node) && Leaves(sumtree, leaves) == w
        invariant climbing <==> node > 0
        decreases node
      {
        var parent := (node - 1) / 2;
        var sum := sumtree[2 * parent + 1] + sumtree[2 * parent + 2];
        RepairNode(sumtree, leaves, node, sum);
        sumtree := sumtree[parent := sum];
        node := parent;
        climbing := node > 0;
      }
    }
  }

  // The parent of a node, as unsigned words of the given width compute it.
  function ParentWord(node: nat, width: nat): nat {
    ((node - 1) % Pow2(width)) / 2
  }

  // The first parent that update visits is a node of the tree exactly if there
  // is more than one event: with a single one it lies far outside.
  lemma UpdateNeedsTwo(weights: Weights, i: nat, width: nat)
    requires weights.Valid() && i < weights.events && |weights.sumtree| < Pow2(width) && width > 1
    ensures ParentWord(weights.leaves + i - 1, width) < |weights.sumtree| <==> weights.events > 1
  {
    FirstParent(weights.leaves, i, width);
  }

  lemma FirstParent(leaves: nat, i: nat, width: nat)
    requires i < leaves && 2 * leaves - 1 < Pow2(width) && width > 1
    ensures ParentWord(leaves + i - 1, width) < 2 * leaves - 1 <==> leaves > 1
  {
    WrapBelow(leaves + i - 2, Pow2(width));
    if leaves == 1 {
      assert Pow2(width) == 2 * Pow2(width - 1) && Pow2(width - 1) == 2 * Pow2(width - 2);
    }
  }
}
