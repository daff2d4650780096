// Merging two adjacent sorted runs of an array in place, with a buffer of any size.
module InplaceMerge {
  import opened Modular
  import opened Sequences
  import opened StableMerge

  // ---- merge, as the in-place merge instantiates it ----

  // What is left to write when i and j elements of the runs have been consumed.
  ghost predicate Remains<T, K>(order: Order<T, K>, xs: seq<T>, ys: seq<T>, i: nat, j: nat) {
    i <= |xs| && j <= |ys| && Merged(order, xs, ys)[i + j..] == Merged(order, xs[i..], ys[j..])
  }

  lemma {:induction false} RemainsStep<T, K>(order: Order<T, K>, xs: seq<T>, ys: seq<T>, i: nat, j: nat)
    requires i < |xs| && j < |ys| && Remains(order, xs, ys, i, j)
    ensures if order.Less(ys[j], xs[i]) then Remains(order, xs, ys, i, j + 1) && Merged(order, xs, ys)[i + j] == ys[j]
      else Remains(order, xs, ys, i + 1, j) && Merged(order, xs, ys)[i + j] == xs[i]
  {
    var m := Merged(order, xs, ys);
    assert m[i + j..][0] == m[i + j];
    assert m[i + j..][1..] == m[i + j + 1..];
    assert xs[i..][1..] == xs[i + 1..] && ys[j..][1..] == ys[j + 1..];
  }

  lemma {:induction false} RemainsRest<T, K>(order: Order<T, K>, xs: seq<T>, ys: seq<T>, i: nat, j: nat)
    requires Remains(order, xs, ys, i, j)
    ensures j == |ys| ==> forall q :: i <= q < |xs| ==> Merged(order, xs, ys)[j + q] == xs[q]
    ensures i == |xs| ==> forall q :: j <= q < |ys| ==> Merged(order, xs, ys)[i + q] == ys[q]
  {
    var rest := Merged(order, xs, ys)[i + j..];
    assert j == |ys| ==> forall q :: i <= q < |xs| ==> rest[q - i] == xs[q];
    assert i == |xs| ==> forall q :: j <= q < |ys| ==> rest[q - j] == ys[q];
  }

  // Elements from..to of s stand in a at the positions b + from .. b + to.
  ghost predicate Stands<T>(a: array<T>, b: int, s: seq<T>, from: nat, to: nat)
    requires from <= to <= |s|
    reads a
  {
    0 <= b + from && b + to <= a.Length && forall p :: b + from <= p < b + to ==> a[p] == s[p - b]
  }

  // The same through reverse iterators: the first element stands just below b.
  ghost predicate StandsBack<T>(a: array<T>, b: int, s: seq<T>, from: nat, to: nat)
    requires from <= to <= |s|
    reads a
  {
    0 <= b - to && b - from <= a.Length && forall p :: b - to <= p < b - from ==> a[p] == s[b - 1 - p]
  }

  ghost predicate SameOutside<T>(was: seq<T>, a: array<T>, lo: int, hi: int)
    reads a
  {
    |was| == a.Length && forall p :: 0 <= p < |was| && !(lo <= p < hi) ==> a[p] == was[p]
  }

  // The instance over forward iterators: the second input may be a later part of out.

  method Copy<T>(input: array<T>, b: int, from: nat, to: nat, out: array<T>, o: int, ghost s: seq<T>)
    requires from <= to <= |s| && Stands(input, b, s, from, to)
    requires 0 <= o + from && o + to <= out.Length && (input == out ==> o <= b)
    modifies out
    ensures Stands(out, o, s, from, to)
    ensures SameOutside(old(out[..]), out, o + from, o + to)
  {
    var i := from;
    while i < to
      invariant from <= i <= to && Stands(out, o, s, from, i) && Stands(input, b, s, i, to)
      invariant SameOutside(old(out[..]), out, o + from, o + to)
    {
      out[o + i] := input[b + i];
      i := i + 1;
    }
  }

  method MergeHeads<T, K>(order: Order<T, K>, in0: array<T>, b0: int, n0: nat, in1: array<T>, b1: int, n1: nat,
                          out: array<T>, o: int, ghost xs: seq<T>, ghost ys: seq<T>)
    returns (i: nat, j: nat)
    requires n0 == |xs| && n1 == |ys| && Stands(in0, b0, xs, 0, n0) && Stands(in1, b1, ys, 0, n1)
    requires 0 <= o && o + n0 + n1 <= out.Length && in0 != out && (in1 == out ==> o + n0 <= b1)
    modifies out
    ensures Remains(order, xs, ys, i, j) && (i == n0 || j == n1)
    ensures Stands(out, o, Merged(order, xs, ys), 0, i + j)
    ensures Stands(in0, b0, xs, i, n0) && Stands(in1, b1, ys, j, n1)
    ensures SameOutside(old(out[..]), out, o, o + n0 + n1)
  {
    i, j := 0, 0;
    while i < n0 && j < n1
      invariant Remains(order, xs, ys, i, j) && Stands(out, o, Merged(order, xs, ys), 0, i + j)
      invariant Stands(in0, b0, xs, i, n0) && Stands(in1, b1, ys, j, n1)
      invariant SameOutside(old(out[..]), out, o, o + n0 + n1)
    {
      i, j := MergeHead(order, in0, b0, n0, in1, b1, n1, out, o, i, j, xs, ys);
    }
  }

  // One turn of that loop.
  method MergeHead<T, K>(order: Order<T, K>, in0: array<T>, b0: int, n0: nat, in1: array<T>, b1: int, n1: nat,
                         out: array<T>, o: int, i: nat, j: nat, ghost xs: seq<T>, ghost ys: seq<T>)
    returns (i': nat, j': nat)
    requires n0 == |xs| && n1 == |ys| && i < n0 && j < n1
    requires Stands(in0, b0, xs, i, n0) && Stands(in1, b1, ys, j, n1)
    requires 0 <= o && o + n0 + n1 <= out.Length && in0 != out && (in1 == out ==> o + n0 <= b1)
    requires Remains(order, xs, ys, i, j) && Stands(out, o, Merged(order, xs, ys), 0, i + j)
    modifies out
    ensures i' + j' == i + j + 1 && i <= i' && j <= j'
    ensures Remains(order, xs, ys, i', j') && Stands(out, o, Merged(order, xs, ys), 0, i' + j')
    ensures Stands(in0, b0, xs, i', n0) && Stands(in1, b1, ys, j', n1)
    ensures SameOutside(old(out[..]), out, o, o + n0 + n1)
  {
    RemainsStep(order, xs, ys, i, j);
    if order.Less(in1[b1 + j], in0[b0 + i]) {
      out[o + i + j] := in1[b1 + j];
      i', j' := i, j + 1;
    } else {
      out[o + i + j] := in0[b0 + i];
      i', j' := i + 1, j;
    }
  }

  // One of the two copies behind the loop: the rest of s ends m.
  method CopyRest<T>(input: array<T>, b: int, from: nat, to: nat, out: array<T>, o: int, d: nat,
                     ghost s: seq<T>, ghost m: seq<T>)
    requires from <= to <= |s| && Stands(input, b, s, from, to) && d + to <= |m| && 0 <= o && o + d + to <= out.Length
    requires input == out ==> o + d <= b
    requires Stands(out, o, m, 0, d + from) && forall q {:trigger s[q]} :: from <= q < to ==> m[d + q] == s[q]
    modifies out
    ensures Stands(out, o, m, 0, d + to)
    ensures SameOutside(old(out[..]), out, o + d + from, o + d + to)
  {
    Copy(input, b, from, to, out, o + d, s);
    forall p | o <= p < o + d + to ensures out[p] == m[p - o] {
      if o + d + from <= p {
        assert out[p] == s[p - o - d] == m[d + (p - o - d)];
      }
    }
  }

  method Merge<T, K>(order: Order<T, K>, in0: array<T>, b0: int, n0: nat, in1: array<T>, b1: int, n1: nat,
                     out: array<T>, o: int, ghost xs: seq<T>, ghost ys: seq<T>)
    requires n0 == |xs| && n1 == |ys| && Stands(in0, b0, xs, 0, n0) && Stands(in1, b1, ys, 0, n1)
    requires 0 <= o && o + n0 + n1 <= out.Length && in0 != out && (in1 == out ==> o + n0 <= b1)
    modifies out
    ensures Stands(out, o, Merged(order, xs, ys), 0, n0 + n1)
    ensures SameOutside(old(out[..]), out, o, o + n0 + n1)
  {
    var i, j := MergeHeads(order, in0, b0, n0, in1, b1, n1, out, o, xs, ys);
    RemainsRest(order, xs, ys, i, j);
    CopyRest(in0, b0, i, n0, out, o, j, xs, Merged(order, xs, ys));
    CopyRest(in1, b1, j, n1, out, o, n0, ys, Merged(order, xs, ys));
  }

  // The instance over reverse iterators: it writes downwards from o, and the first
  // input may be the part of out just below.

  method CopyBack<T>(input: array<T>, b: int, from: nat, to: nat, out: array<T>, o: int, ghost s: seq<T>)
    requires from <= to <= |s| && StandsBack(input, b, s, from, to)
    requires to <= o && o - from <= out.Length && (input == out ==> b <= o)
    modifies out
    ensures StandsBack(out, o, s, from, to)
    ensures SameOutside(old(out[..]), out, o - to, o - from)
  {
    var i := from;
    while i < to
      invariant from <= i <= to && StandsBack(out, o, s, from, i) && StandsBack(input, b, s, i, to)
      invariant SameOutside(old(out[..]), out, o - to, o - from)
    {
      out[o - 1 - i] := input[b - 1 - i];
      i := i + 1;
    }
  }

  method MergeHeadsBack<T, K>(order: Order<T, K>, in0: array<T>, b0: int, n0: nat, in1: array<T>, b1: int, n1: nat,
                          out: array<T>, o: int, ghost xs: seq<T>, ghost ys: seq<T>)
    returns (i: nat, j: nat)
    requires n0 == |xs| && n1 == |ys| && StandsBack(in0, b0, xs, 0, n0) && StandsBack(in1, b1, ys, 0, n1)
    requires n0 + n1 <= o <= out.Length && in1 != out && (in0 == out ==> b0 + n1 <= o)
    modifies out
    ensures Remains(order, xs, ys, i, j) && (i == n0 || j == n1)
    ensures StandsBack(out, o, Merged(order, xs, ys), 0, i + j)
    ensures StandsBack(in0, b0, xs, i, n0) && StandsBack(in1, b1, ys, j, n1)
    ensures SameOutside(old(out[..]), out, o - n0 - n1, o)
  {
    i, j := 0, 0;
    while i < n0 && j < n1
      invariant Remains(order, xs, ys, i, j) && StandsBack(out, o, Merged(order, xs, ys), 0, i + j)
      invariant StandsBack(in0, b0, xs, i, n0) && StandsBack(in1, b1, ys, j, n1)
      invariant SameOutside(old(out[..]), out, o - n0 - n1, o)
    {
      i, j := MergeHeadBack(order, in0, b0, n0, in1, b1, n1, out, o, i, j, xs, ys);
    }
  }

  // One turn of that loop.
  method MergeHeadBack<T, K>(order: Order<T, K>, in0: array<T>, b0: int, n0: nat, in1: array<T>, b1: int, n1: nat,
                         out: array<T>, o: int, i: nat, j: nat, ghost xs: seq<T>, ghost ys: seq<T>)
    returns (i': nat, j': nat)
    requires n0 == |xs| && n1 == |ys| && i < n0 && j < n1
    requires StandsBack(in0, b0, xs, i, n0) && StandsBack(in1, b1, ys, j, n1)
    requires n0 + n1 <= o <= out.Length && in1 != out && (in0 == out ==> b0 + n1 <= o)
    requires Remains(order, xs, ys, i, j) && StandsBack(out, o, Merged(order, xs, ys), 0, i + j)
    modifies out
    ensures i' + j' == i + j + 1 && i <= i' && j <= j'
    ensures Remains(order, xs, ys, i', j') && StandsBack(out, o, Merged(order, xs, ys), 0, i' + j')
    ensures StandsBack(in0, b0, xs, i', n0) && StandsBack(in1, b1, ys, j', n1)
    ensures SameOutside(old(out[..]), out, o - n0 - n1, o)
  {
    RemainsStep(order, xs, ys, i, j);
    if order.Less(in1[b1 - 1 - j], in0[b0 - 1 - i]) {
      out[o - 1 - i - j] := in1[b1 - 1 - j];
      i', j' := i, j + 1;
    } else {
      out[o - 1 - i - j] := in0[b0 - 1 - i];
      i', j' := i + 1, j;
    }
  }

  method CopyRestBack<T>(input: array<T>, b: int, from: nat, to: nat, out: array<T>, o: int, d: nat,
                         ghost s: seq<T>, ghost m: seq<T>)
    requires from <= to <= |s| && StandsBack(input, b, s, from, to) && d + to <= |m| && d + to <= o <= out.Length
    requires input == out ==> b <= o - d
    requires StandsBack(out, o, m, 0, d + from) && forall q {:trigger s[q]} :: from <= q < to ==> m[d + q] == s[q]
    modifies out
    ensures StandsBack(out, o, m, 0, d + to)
    ensures SameOutside(old(out[..]), out, o - d - to, o - d - from)
  {
    CopyBack(input, b, from, to, out, o - d, s);
    forall p | o - d - to <= p < o ensures out[p] == m[o - 1 - p] {
      if p < o - d - from {
        assert out[p] == s[o - d - 1 - p] == m[d + (o - d - 1 - p)];
      }
    }
  }

  method MergeBack<T, K>(order: Order<T, K>, in0: array<T>, b0: int, n0: nat, in1: array<T>, b1: int, n1: nat,
                     out: array<T>, o: int, ghost xs: seq<T>, ghost ys: seq<T>)
    requires n0 == |xs| && n1 == |ys| && StandsBack(in0, b0, xs, 0, n0) && StandsBack(in1, b1, ys, 0, n1)
    requires n0 + n1 <= o <= out.Length && in1 != out && (in0 == out ==> b0 + n1 <= o)
    modifies out
    ensures StandsBack(out, o, Merged(order, xs, ys), 0, n0 + n1)
    ensures SameOutside(old(out[..]), out, o - n0 - n1, o)
  {
    var i, j := MergeHeadsBack(order, in0, b0, n0, in1, b1, n1, out, o, xs, ys);
    RemainsRest(order, xs, ys, i, j);
    CopyRestBack(in0, b0, i, n0, out, o, j, xs, Merged(order, xs, ys));
    CopyRestBack(in1, b1, j, n1, out, o, n0, ys, Merged(order, xs, ys));
  }

  // merge_adaptive_fn::impl: the shorter run moves to the buffer and is merged back.

  method BufferFirst<T, K>(order: Order<T, K>, a: array<T>, first: nat, middle: nat, last: nat, buf: array<T>)
    requires first <= middle <= last <= a.Length && a != buf && middle - first <= buf.Length
    modifies a, buf
    ensures a[first..last] == Merged(order, old(a[first..middle]), old(a[middle..last]))
    ensures SameOutside(old(a[..]), a, first, last)
    ensures SameOutside(old(buf[..]), buf, 0, middle - first) && buf[..middle - first] == old(a[first..middle])
  {
    ghost var xs, ys := a[first..middle], a[middle..last];
    Copy(a, first, 0, middle - first, buf, 0, xs);
    Merge(order, buf, 0, middle - first, a, middle, last - middle, a, first, xs, ys);
  }

  method BufferSecond<T(!new), K>(order: Order<T, K>, a: array<T>, first: nat, middle: nat, last: nat, buf: array<T>)
    requires StrictWeak(order) && first <= middle <= last <= a.Length && a != buf && last - middle <= buf.Length
    requires Sorted(order, a[first..middle]) && Sorted(order, a[middle..last])
    modifies a, buf
    ensures a[first..last] == Merged(order, old(a[first..middle]), old(a[middle..last]))
    ensures SameOutside(old(a[..]), a, first, last)
    ensures SameOutside(old(buf[..]), buf, 0, last - middle) && buf[..last - middle] == old(a[middle..last])
  {
    ghost var xs, ys := a[first..middle], a[middle..last];
    Copy(a, middle, 0, last - middle, buf, 0, ys);
    MergeFromBack(order, a, first, middle, last, buf, xs, ys);
  }

  // merge over reverse iterators and the negated comparison, the second run in the buffer.
  method MergeFromBack<T(!new), K>(order: Order<T, K>, a: array<T>, first: nat, middle: nat, last: nat, buf: array<T>,
                                   ghost xs: seq<T>, ghost ys: seq<T>)
    requires StrictWeak(order) && first <= middle <= last <= a.Length && a != buf
    requires Sorted(order, xs) && Sorted(order, ys) && |xs| == middle - first && |ys| == last - middle
    requires Stands(a, first, xs, 0, |xs|) && Stands(buf, 0, ys, 0, |ys|)
    modifies a
    ensures a[first..last] == Merged(order, xs, ys)
    ensures SameOutside(old(a[..]), a, first, last)
  {
    MergeReversed(order.Negated(), a, first, middle, last, buf, xs, ys);
    MergedStood(order, a, first, last, xs, ys);
  }

  lemma {:induction false} MergedStood<T(!new), K>(order: Order<T, K>, a: array<T>, first: nat, last: nat,
                                                   xs: seq<T>, ys: seq<T>)
    requires StrictWeak(order) && Sorted(order, xs) && Sorted(order, ys) && first + |xs| + |ys| == last
    requires StandsBack(a, last, Merged(order.Negated(), Reverse(xs), Reverse(ys)), 0, last - first)
    ensures first <= last <= a.Length && a[first..last] == Merged(order, xs, ys)
  {
    var m := Merged(order, xs, ys);
    MergedReversed(order, xs, ys);
    assert first + |m| == last;
    ReverseStood(a, first, m);
  }

  // That merge as it stands in the array, read through reverse iterators.
  method MergeReversed<T, K>(order: Order<T, K>, a: array<T>, first: nat, middle: nat, last: nat, buf: array<T>,
                             ghost xs: seq<T>, ghost ys: seq<T>)
    requires first <= middle <= last <= a.Length && a != buf && |xs| == middle - first && |ys| == last - middle
    requires Stands(a, first, xs, 0, |xs|) && Stands(buf, 0, ys, 0, |ys|)
    modifies a
    ensures StandsBack(a, last, Merged(order, Reverse(xs), Reverse(ys)), 0, last - first)
    ensures SameOutside(old(a[..]), a, first, last)
  {
    var n := last - middle;
    ReverseStands(a, first, xs);
    ReverseStands(buf, 0, ys);
    MergeBack(order, a, middle, middle - first, buf, n, n, a, last, Reverse(xs), Reverse(ys));
  }

  function Shorter(len1: nat, len2: nat): nat {
    if len1 <= len2 then len1 else len2
  }

  // The shorter one of two runs of s stands in the buffer.
  ghost predicate Holds<T>(s: seq<T>, buf: array<T>, first: nat, middle: nat, last: nat)
    reads buf
  {
    && first <= middle <= last <= |s| && Shorter(middle - first, last - middle) <= buf.Length
    && buf[..Shorter(middle - first, last - middle)]
      == if middle - first <= last - middle then s[first..middle] else s[middle..last]
  }

  method MergeBuffered<T(!new), K>(order: Order<T, K>, a: array<T>, first: nat, middle: nat, last: nat, buf: array<T>)
    requires StrictWeak(order) && first <= middle <= last <= a.Length && a != buf
    requires Sorted(order, a[first..middle]) && Sorted(order, a[middle..last])
    requires middle - first <= buf.Length || last - middle <= buf.Length
    modifies a, buf
    ensures a[first..last] == Merged(order, old(a[first..middle]), old(a[middle..last]))
    ensures SameOutside(old(a[..]), a, first, last)
    ensures SameOutside(old(buf[..]), buf, 0, Shorter(middle - first, last - middle))
    ensures Holds(old(a[..]), buf, first, middle, last)
  {
    if middle - first <= last - middle {
      BufferFirst(order, a, first, middle, last, buf);
    } else {
      BufferSecond(order, a, first, middle, last, buf);
    }
  }

  lemma {:induction false} ReverseStands<T>(a: array<T>, b: nat, s: seq<T>)
    requires Stands(a, b, s, 0, |s|)
    ensures StandsBack(a, b + |s|, Reverse(s), 0, |s|)
  {
  }

  lemma {:induction false} ReverseStood<T>(a: array<T>, b: nat, s: seq<T>)
    requires StandsBack(a, b + |s|, Reverse(s), 0, |s|)
    ensures a[b..b + |s|] == s
  {
    forall p | b <= p < b + |s| ensures a[p] == s[p - b] {
      assert a[p] == Reverse(s)[b + |s| - 1 - p];
    }
  }

  // ---- the searches ----

  // The first position whose element is not less than (or, for upper, is greater than) val.
  predicate Goes<T, K>(order: Order<T, K>, x: T, val: T, upper: bool) {
    if upper then !order.Less(val, x) else order.Less(x, val)
  }

  // partition_point_n with the predicate of lower_bound or of upper_bound.
  method Bound<T(!new), K>(order: Order<T, K>, a: array<T>, first: nat, last: nat, val: T, upper: bool) returns (m: nat)
    requires StrictWeak(order) && first <= last <= a.Length && Sorted(order, a[first..last])
    ensures first <= m <= last
    ensures forall p :: first <= p < m ==> Goes(order, a[p], val, upper)
    ensures forall p :: m <= p < last ==> !Goes(order, a[p], val, upper)
  {
    m := first;
    var d := last - first;
    while d != 0
      invariant first <= m && 0 <= d && m + d <= last
      invariant forall p :: first <= p < m ==> Goes(order, a[p], val, upper)
      invariant forall p :: m + d <= p < last ==> !Goes(order, a[p], val, upper)
      decreases d
    {
      var half := d / 2;
      GoesDown(order, a[first..last], m + half - first, val, upper);
      if Goes(order, a[m + half], val, upper) {
        assert forall p :: first <= p <= m + half ==> a[p] == a[first..last][p - first];
        m := m + half + 1;
        d := d - (half + 1);
      } else {
        assert forall p :: m + half <= p < last ==> a[p] == a[first..last][p - first];
        d := half;
      }
    }
  }

  lemma GoesDown<T(!new), K>(order: Order<T, K>, s: seq<T>, i: nat, val: T, upper: bool)
    requires StrictWeak(order) && Sorted(order, s) && i < |s|
    ensures Goes(order, s[i], val, upper) ==> forall k :: 0 <= k <= i ==> Goes(order, s[k], val, upper)
    ensures !Goes(order, s[i], val, upper) ==> forall k :: i <= k < |s| ==> !Goes(order, s[k], val, upper)
  {
  }

  // ---- rotate ----

  // The state of rotate_forward on s: what stands before f and from last on is
  // final; of the rest, the part from i comes first, then that from m to i, then
  // that from f to m.
  ghost predicate Rotating<T>(s: seq<T>, target: seq<T>, f: int, m: int, i: int, last: int) {
    && 0 <= f <= m <= i <= last <= |s| == |target|
    && s[..f] == target[..f] && s[last..] == target[last..]
    && target[f..last] == s[i..last] + s[m..i] + s[f..m]
  }

  lemma RotatingStep<T>(s: seq<T>, target: seq<T>, f: nat, m: nat, i: nat, last: nat)
    requires Rotating(s, target, f, m, i, last) && f < m && i < last
    ensures Rotating(Swapped(s, f, i), target, f + 1, m, i + 1, last)
  {
    var s' := Swapped(s, f, i);
    assert target[f..last][0] == s[i];
    assert target[f + 1..last] == target[f..last][1..];
    assert s'[i + 1..last] == s[i..last][1..];
    assert s'[m..i + 1] == s[m..i] + [s[f]];
    assert s[f..m] == [s[f]] + s'[f + 1..m];
    assert s'[last..] == s[last..];
  }

  // A part that is used up is renewed from the one behind it.
  lemma RotatingTurn<T>(s: seq<T>, target: seq<T>, f: nat, m: nat, i: nat, last: nat)
    requires Rotating(s, target, f, m, i, last)
    ensures f == m ==> Rotating(s, target, f, i, i, last)
    ensures i == last ==> Rotating(s, target, f, m, m, last)
    ensures i == last && f == m ==> s == target
  {
    if i == last && f == m {
      assert s == s[..f] + s[f..last] + s[last..] && target == target[..f] + target[f..last] + target[last..];
    }
  }

  method RotateSwap<T>(a: array<T>, f: nat, m: nat, i: nat, last: nat, ghost target: seq<T>)
    requires Rotating(a[..], target, f, m, i, last) && f < m && i < last
    modifies a
    ensures Rotating(a[..], target, f + 1, m, i + 1, last)
  {
    RotatingStep(a[..], target, f, m, i, last);
    ghost var s := a[..];
    a[f], a[i] := a[i], a[f];
    assert a[..] == Swapped(s, f, i);
  }

  // The first loop of rotate_forward, until the last part has been used up once.
  method RotateOnce<T>(a: array<T>, first: nat, middle: nat, last: nat, ghost target: seq<T>) returns (f: nat, m: nat)
    requires first < middle < last && Rotating(a[..], target, first, middle, middle, last)
    modifies a
    ensures first <= f <= m < last && f == first + (last - middle)
    ensures Rotating(a[..], target, f, m, m, last)
    ensures f == m ==> a[..] == target
  {
    f, m := first, middle;
    var i, more := middle, true;
    while more
      invariant first <= f <= m <= i <= last && m < last && f - first == i - middle
      invariant more <==> i < last
      invariant Rotating(a[..], target, f, m, if more then i else m, last)
      invariant if more then f < m else f == m ==> a[..] == target
      decreases last - i
    {
      f, m, i, more := RotateFirst(a, f, m, i, last, target);
    }
  }

  // One turn of that loop.
  method RotateFirst<T>(a: array<T>, f0: nat, m0: nat, i0: nat, last: nat, ghost target: seq<T>)
    returns (f: nat, m: nat, i: nat, more: bool)
    requires Rotating(a[..], target, f0, m0, i0, last) && f0 < m0 && i0 < last
    modifies a
    ensures f == f0 + 1 && i == i0 + 1 && f <= m <= i && m < last && (more <==> i < last)
    ensures if more then f < m && Rotating(a[..], target, f, m, i, last)
      else Rotating(a[..], target, f, m, m, last) && (f == m ==> a[..] == target)
  {
    RotateSwap(a, f0, m0, i0, last, target);
    f, m, i := f0 + 1, m0, i0 + 1;
    RotatingTurn(a[..], target, f, m, i, last);
    more := i != last;
    if more && f == m {
      m := i;
    }
  }

  // rotate_forward: swaps the parts [first, middle) and [middle, last).
  method Rotate<T>(a: array<T>, first: nat, middle: nat, last: nat) returns (r: nat)
    requires first <= middle <= last <= a.Length
    modifies a
    ensures r == first + (last - middle)
    ensures a[first..last] == old(a[middle..last]) + old(a[first..middle])
    ensures SameOutside(old(a[..]), a, first, last)
  {
    ghost var target := a[..first] + (a[middle..last] + a[first..middle]) + a[last..];
    if first == middle || middle == last {
      return if first == middle then last else first;
    }
    assert target[first..last] == a[middle..last] + a[first..middle];
    var m;
    r, m := RotateOnce(a, first, middle, last, target);
    if r != m {
      RotateRest(a, r, m, last, target);
    }
    assert a[first..last] == target[first..last];
  }

  // The second loop of rotate_forward: the parts left are of unequal length.
  method RotateRest<T>(a: array<T>, f0: nat, m0: nat, last: nat, ghost target: seq<T>)
    requires f0 < m0 < last && Rotating(a[..], target, f0, m0, m0, last)
    modifies a
    ensures a[..] == target
  {
    var f, m, j, more := f0, m0, m0, true;
    while more
      invariant if more then f < m <= j < last && Rotating(a[..], target, f, m, j, last) else a[..] == target
      decreases more, last - f
    {
      f, m, j, more := RotateSecond(a, f, m, j, last, target);
    }
  }

  // One turn of that loop.
  method RotateSecond<T>(a: array<T>, f0: nat, m0: nat, j0: nat, last: nat, ghost target: seq<T>)
    returns (f: nat, m: nat, j: nat, more: bool)
    requires Rotating(a[..], target, f0, m0, j0, last) && f0 < m0 && j0 < last
    modifies a
    ensures f == f0 + 1
    ensures if more then f < m <= j < last && Rotating(a[..], target, f, m, j, last) else a[..] == target
  {
    RotateSwap(a, f0, m0, j0, last, target);
    f, m, j, more := f0 + 1, m0, j0 + 1, true;
    RotatingTurn(a[..], target, f, m, j, last);
    if j == last {
      more := f != m;
      j := m;
    } else if f == m {
      m := j;
    }
  }

  // ---- merge_adaptive ----

  // What remains to be done to turn a[first0..last0] into target: merge the
  // sorted runs [first, middle) and [middle, last).
  ghost predicate Pending<T, K>(order: Order<T, K>, a: array<T>, first0: nat, last0: nat,
                                first: nat, middle: nat, last: nat, target: seq<T>)
    reads a
  {
    && first0 <= first <= middle <= last <= last0 <= a.Length
    && Sorted(order, a[first..middle]) && Sorted(order, a[middle..last])
    && target == a[first0..first] + Merged(order, a[first..middle], a[middle..last]) + a[last..last0]
  }

  lemma {:induction false} PendingDone<T, K>(order: Order<T, K>, a: array<T>, first0: nat, last0: nat,
                          first: nat, middle: nat, last: nat, target: seq<T>)
    requires Pending(order, a, first0, last0, first, middle, last, target) && (first == middle || middle == last)
    ensures a[first0..last0] == target
  {
    SplitSlice(a, first0, first, last);
    SplitSlice(a, first0, last, last0);
  }

  // An element of the first run that is not above the second one stays where it is.
  lemma {:induction false} PendingSkip<T, K>(order: Order<T, K>, a: array<T>, first0: nat, last0: nat,
                          first: nat, middle: nat, last: nat, target: seq<T>)
    requires Pending(order, a, first0, last0, first, middle, last, target)
    requires first < middle < last && !order.Less(a[middle], a[first])
    ensures Pending(order, a, first0, last0, first + 1, middle, last, target)
  {
    var xs, ys := a[first..middle], a[middle..last];
    assert xs[1..] == a[first + 1..middle];
    assert a[first0..first + 1] == a[first0..first] + [a[first]];
    assert Merged(order, xs, ys) == [a[first]] + Merged(order, xs[1..], ys);
  }

  // The parts of the two runs: swapping the middle two leaves two smaller merges.
  ghost predicate Cut<T, K>(order: Order<T, K>, x1: seq<T>, x2: seq<T>, y1: seq<T>, y2: seq<T>) {
    NoneLess(order, x1, y2) && forall x, y :: x in x2 && y in y1 ==> order.Less(y, x)
  }

  // Where the source cuts: the longer run, or the first of two equal ones, in its
  // middle, and the other one at the bound of the element there.
  ghost predicate CutsAt<T, K>(order: Order<T, K>, a: array<T>, first: nat, m1: nat, middle: nat, m2: nat, last: nat)
    reads a
  {
    && first <= m1 <= middle <= m2 <= last <= a.Length
    && if middle - first < last - middle then
         && m2 == middle + (last - middle) / 2 < last
         && (forall p :: first <= p < m1 ==> !order.Less(a[m2], a[p]))
         && (forall p :: m1 <= p < middle ==> order.Less(a[m2], a[p]))
       else
         && m1 == first + (middle - first) / 2 < middle
         && (forall p :: middle <= p < m2 ==> order.Less(a[p], a[m1]))
         && (forall p :: m2 <= p < last ==> !order.Less(a[p], a[m1]))
  }

  method FindCut<T(!new), K>(order: Order<T, K>, a: array<T>, first: nat, middle: nat, last: nat)
    returns (m1: nat, m2: nat)
    requires StrictWeak(order) && first < middle < last <= a.Length && last - first > 2
    requires Sorted(order, a[first..middle]) && Sorted(order, a[middle..last])
    ensures first <= m1 <= middle <= m2 <= last
    ensures 0 < (m1 - first) + (m2 - middle) < last - first
    ensures CutsAt(order, a, first, m1, middle, m2, last)
    ensures Cut(order, a[first..m1], a[m1..middle], a[middle..m2], a[m2..last])
  {
    if middle - first < last - middle {
      m2 := middle + (last - middle) / 2;
      m1 := Bound(order, a, first, middle, a[m2], true);
      CutAtSecond(order, a, first, m1, middle, m2, last);
    } else {
      m1 := first + (middle - first) / 2;
      m2 := Bound(order, a, middle, last, a[m1], false);
      CutAtFirst(order, a, first, m1, middle, m2, last);
    }
  }

  lemma {:induction false} CutAtSecond<T(!new), K>(order: Order<T, K>, a: array<T>,
                                                   first: nat, m1: nat, middle: nat, m2: nat, last: nat)
    requires StrictWeak(order) && first <= m1 <= middle <= m2 < last <= a.Length
    requires Sorted(order, a[middle..last])
    requires forall p :: first <= p < m1 ==> !order.Less(a[m2], a[p])
    requires forall p :: m1 <= p < middle ==> order.Less(a[m2], a[p])
    ensures Cut(order, a[first..m1], a[m1..middle], a[middle..m2], a[m2..last])
  {
    var ys := a[middle..last];
    forall x, y | x in a[first..m1] && y in a[m2..last] ensures !order.Less(y, x) {
      var q :| m2 <= q < last && a[q] == y;
      assert m2 < q ==> !order.Less(ys[q - middle], ys[m2 - middle]);
    }
    forall x, y | x in a[m1..middle] && y in a[middle..m2] ensures order.Less(y, x) {
      var q :| middle <= q < m2 && a[q] == y;
      assert !order.Less(ys[m2 - middle], ys[q - middle]);
    }
  }

  lemma {:induction false} CutAtFirst<T(!new), K>(order: Order<T, K>, a: array<T>,
                                                  first: nat, m1: nat, middle: nat, m2: nat, last: nat)
    requires StrictWeak(order) && first <= m1 < middle <= m2 <= last <= a.Length
    requires Sorted(order, a[first..middle])
    requires forall p :: middle <= p < m2 ==> order.Less(a[p], a[m1])
    requires forall p :: m2 <= p < last ==> !order.Less(a[p], a[m1])
    ensures Cut(order, a[first..m1], a[m1..middle], a[middle..m2], a[m2..last])
  {
    var xs := a[first..middle];
    forall x, y | x in a[first..m1] && y in a[m2..last] ensures !order.Less(y, x) {
      var q :| first <= q < m1 && a[q] == x;
      assert !order.Less(xs[m1 - first], xs[q - first]);
    }
    forall x, y | x in a[m1..middle] && y in a[middle..m2] ensures order.Less(y, x) {
      var q :| m1 <= q < middle && a[q] == x;
      assert m1 < q ==> !order.Less(xs[q - first], xs[m1 - first]);
    }
  }

  lemma NotLessHigher<T(!new), K>(order: Order<T, K>, x: T, y: T, z: T)
    requires StrictWeak(order) && order.Less(x, y) && !order.Less(z, y)
    ensures order.Less(x, z)
  {
  }

  lemma {:induction false} FrontsMeet<T(!new), K>(order: Order<T, K>, a: array<T>,
                                                  first: nat, m1: nat, middle: nat, m2: nat, last: nat)
    requires first < middle < last <= a.Length && order.Less(a[middle], a[first])
    requires first <= m1 <= middle <= m2 <= last
    ensures NoneLess(order, a[first..m1], a[middle..m2]) <==> m1 == first || m2 == middle
  {
    if first < m1 && middle < m2 {
      assert a[first] == a[first..m1][0] && a[middle] == a[middle..m2][0];
    }
  }

  lemma {:induction false} BacksMeet<T(!new), K>(order: Order<T, K>, a: array<T>,
                                                 first: nat, m1: nat, middle: nat, m2: nat, last: nat)
    requires StrictWeak(order) && first <= m1 <= middle <= m2 <= last <= a.Length
    requires Sorted(order, a[first..middle]) && Sorted(order, a[middle..last])
    ensures NoneLess(order, a[m1..middle], a[m2..last])
      <==> m1 == middle || m2 == last || !order.Less(a[m2], a[middle - 1])
  {
    if m1 < middle && m2 < last {
      var xs, ys := a[first..middle], a[middle..last];
      assert a[middle - 1] == a[m1..middle][middle - 1 - m1] && a[m2] == a[m2..last][0];
      if !order.Less(a[m2], a[middle - 1]) {
        forall x, y | x in a[m1..middle] && y in a[m2..last] ensures !order.Less(y, x) {
          var p, q :| m1 <= p < middle && a[p] == x && m2 <= q < last && a[q] == y;
          assert q == m2 || !order.Less(ys[q - middle], ys[m2 - middle]);
          assert p == middle - 1 || !order.Less(xs[middle - 1 - first], xs[p - first]);
          NotLessTransitive(order, y, a[m2], a[middle - 1]);
          NotLessTransitive(order, y, a[middle - 1], x);
        }
      }
    }
  }

  // No element of the second run is below the end of the first run and not below
  // the element at h.
  ghost predicate NoneBetween<T, K>(order: Order<T, K>, a: array<T>, h: nat, middle: nat, last: nat)
    requires h < middle <= last <= a.Length
    reads a
  {
    forall p :: middle <= p < last && order.Less(a[p], a[middle - 1]) ==> order.Less(a[p], a[h])
  }

  // The source claims two more relations of the parts, front against front and
  // back against back. The first holds, given that the second run starts below the
  // first, only if that is the longer one and its middle is below all of the first.
  lemma {:induction false} FrontsOrdered<T(!new), K>(order: Order<T, K>, a: array<T>,
                                                     first: nat, m1: nat, middle: nat, m2: nat, last: nat)
    requires StrictWeak(order) && first < middle < last <= a.Length && last - first > 2
    requires Sorted(order, a[first..middle]) && order.Less(a[middle], a[first])
    requires CutsAt(order, a, first, m1, middle, m2, last)
    ensures NoneLess(order, a[first..m1], a[middle..m2])
      <==> middle - first < last - middle && order.Less(a[middle + (last - middle) / 2], a[first])
  {
    FrontsMeet(order, a, first, m1, middle, m2, last);
    if middle - first >= last - middle {
      var xs := a[first..middle];
      assert !order.Less(xs[m1 - first], xs[0]);
      NotLessHigher(order, a[middle], a[first], a[m1]);
    }
  }

  // The second holds, if the second run is the longer one, only if its middle is
  // not below the end of the first; otherwise, only if none of the second run
  // falls between the middle and the end of the first.
  lemma {:induction false} BacksOrdered<T(!new), K>(order: Order<T, K>, a: array<T>,
                                                    first: nat, m1: nat, middle: nat, m2: nat, last: nat)
    requires StrictWeak(order) && first < middle < last <= a.Length
    requires Sorted(order, a[first..middle]) && Sorted(order, a[middle..last])
    requires CutsAt(order, a, first, m1, middle, m2, last)
    ensures NoneLess(order, a[m1..middle], a[m2..last])
      <==> if middle - first < last - middle then !order.Less(a[middle + (last - middle) / 2], a[middle - 1])
        else NoneBetween(order, a, first + (middle - first) / 2, middle, last)
  {
    BacksMeet(order, a, first, m1, middle, m2, last);
    if middle - first >= last - middle && m2 < last {
      var ys := a[middle..last];
      forall p | m2 <= p < last ensures order.Less(a[p], a[middle - 1]) ==> order.Less(a[m2], a[middle - 1]) {
        assert p == m2 || !order.Less(ys[p - middle], ys[m2 - middle]);
        if order.Less(a[p], a[middle - 1]) {
          CoTransitive(order, a[p], a[m2], a[middle - 1]);
        }
      }
    }
  }

  function Natural(): Order<int, int> {
    Order((x: int, y: int) => x < y, (x: int) => x)
  }

  lemma MemberOf<T>(a: array<T>, p: nat, q: nat, r: nat)
    requires p <= q < r <= a.Length
    ensures a[q] in a[p..r]
  {
    assert a[q] == a[p..r][q - p];
  }

  // Both fail at the cuts of short runs of numbers.
  method CutsUnordered(a: array<int>) returns (m1: nat, m2: nat)
    requires a.Length == 4 && (a[..] == [3, 9, 1, 2] || a[..] == [9, 1, 7, 8])
    ensures a[..] == [3, 9, 1, 2] ==> m1 == 1 && m2 == 4 && !NoneLess(Natural(), a[0..m1], a[2..m2])
    ensures a[..] == [9, 1, 7, 8] ==> m1 == 0 && m2 == 2 && !NoneLess(Natural(), a[m1..1], a[m2..4])
  {
    var middle := if a[..][0] == 3 then 2 else 1;
    m1, m2 := FindCut(Natural(), a, 0, middle, 4);
    if middle == 2 {
      FrontsUnordered(a, m2);
    } else {
      BacksUnordered(a, m1);
    }
  }

  lemma {:induction false} FrontsUnordered(a: array<int>, m2: nat)
    requires a.Length == 4 && a[..] == [3, 9, 1, 2] && 2 <= m2 <= 4
    requires NoneLess(Natural(), a[0..1], a[m2..4])
    ensures m2 == 4 && !NoneLess(Natural(), a[0..1], a[2..m2])
  {
    assert a[0] == a[..][0] && a[2] == a[..][2] && a[3] == a[..][3];
    assert a[0..1][0] == 3 && Natural().Less(1, 3) && Natural().Less(2, 3);
    if m2 < 4 {
      MemberOf(a, m2, 3, 4);
    } else {
      MemberOf(a, 2, 2, m2);
    }
  }

  lemma {:induction false} BacksUnordered(a: array<int>, m1: nat)
    requires a.Length == 4 && a[..] == [9, 1, 7, 8] && m1 <= 1
    requires NoneLess(Natural(), a[0..m1], a[2..4])
    ensures m1 == 0 && !NoneLess(Natural(), a[m1..1], a[2..4])
  {
    assert a[0] == a[..][0] && a[2] == a[..][2];
    assert a[2..4][0] == 7 && a[0..1][0] == 9 && Natural().Less(7, 9);
  }

  // Two merges remain, one behind the other.
  ghost predicate Halved<T, K>(order: Order<T, K>, a: array<T>, first0: nat, last0: nat,
                               first: nat, m1: nat, mid: nat, m2: nat, last: nat, target: seq<T>)
    reads a
  {
    && first0 <= first <= m1 <= mid <= m2 <= last <= last0 <= a.Length
    && Sorted(order, a[first..m1]) && Sorted(order, a[m1..mid])
    && Sorted(order, a[mid..m2]) && Sorted(order, a[m2..last])
    && target == a[first0..first] + Merged(order, a[first..m1], a[m1..mid])
         + Merged(order, a[mid..m2], a[m2..last]) + a[last..last0]
  }

  lemma {:induction false} CutTarget<T, K>(order: Order<T, K>, a: array<T>, first0: nat, last0: nat,
                           first: nat, middle: nat, last: nat, m1: nat, m2: nat, target: seq<T>)
    requires Pending(order, a, first0, last0, first, middle, last, target)
    requires first <= m1 <= middle <= m2 <= last && Cut(order, a[first..m1], a[m1..middle], a[middle..m2], a[m2..last])
    ensures Sorted(order, a[first..m1]) && Sorted(order, a[m1..middle])
    ensures Sorted(order, a[middle..m2]) && Sorted(order, a[m2..last])
    ensures target == a[first0..first] + Merged(order, a[first..m1], a[middle..m2])
      + Merged(order, a[m1..middle], a[m2..last]) + a[last..last0]
  {
    var x1, x2, y1, y2 := a[first..m1], a[m1..middle], a[middle..m2], a[m2..last];
    SplitSlice(a, first, m1, middle);
    SplitSlice(a, middle, m2, last);
    SortedParts(order, x1, x2);
    SortedParts(order, y1, y2);
    MergedHalves(order, x1, x2, y1, y2);
    ConcatAssociative(a[first0..first], Merged(order, x1, y1), Merged(order, x2, y2));
  }

  lemma SplitSlice<T>(a: array<T>, p: nat, q: nat, r: nat)
    requires p <= q <= r <= a.Length
    ensures a[p..r] == a[p..q] + a[q..r]
  {
  }

  // Rotating the middle parts of a cut splits the merge in two.
  method Halve<T(!new), K>(order: Order<T, K>, a: array<T>, first0: nat, last0: nat,
                           first: nat, middle: nat, last: nat, m1: nat, m2: nat, ghost target: seq<T>)
    returns (mid: nat)
    requires Pending(order, a, first0, last0, first, middle, last, target)
    requires first <= m1 <= middle <= m2 <= last && Cut(order, a[first..m1], a[m1..middle], a[middle..m2], a[m2..last])
    modifies a
    ensures mid == m1 + (m2 - middle) && Halved(order, a, first0, last0, first, m1, mid, m2, last, target)
    ensures SameOutside(old(a[..]), a, first0, last0)
  {
    CutTarget(order, a, first0, last0, first, middle, last, m1, m2, target);
    ghost var s := a[..];
    assert s[first0..first] == a[first0..first] && s[last..last0] == a[last..last0];
    assert s[first..m1] == a[first..m1] && s[m2..last] == a[m2..last];
    mid := Rotate(a, m1, middle, m2);
    RotatedParts(s, a, m1, mid, m2, old(a[middle..m2]), old(a[m1..middle]));
    SameSlice(s, a, m1, m2, first0, first);
    SameSlice(s, a, m1, m2, last, last0);
    SameSlice(s, a, m1, m2, first, m1);
    SameSlice(s, a, m1, m2, m2, last);
  }

  lemma SameSlice<T>(s: seq<T>, a: array<T>, lo: nat, hi: nat, p: nat, q: nat)
    requires SameOutside(s, a, lo, hi) && p <= q <= |s| && (q <= lo || hi <= p)
    ensures a[p..q] == s[p..q]
  {
  }

  lemma RotatedParts<T>(s: seq<T>, a: array<T>, lo: nat, mid: nat, hi: nat, y: seq<T>, x: seq<T>)
    requires lo <= mid <= hi <= a.Length && a[lo..hi] == y + x && |y| == mid - lo
    ensures a[lo..mid] == y && a[mid..hi] == x
  {
    assert a[lo..mid] == a[lo..hi][..mid - lo] && a[mid..hi] == a[lo..hi][mid - lo..];
  }

  lemma {:induction false} SortedParts<T, K>(order: Order<T, K>, s: seq<T>, t: seq<T>)
    requires Sorted(order, s + t)
    ensures Sorted(order, s) && Sorted(order, t)
  {
    var u := s + t;
    assert forall k :: 0 <= k < |s| ==> u[k] == s[k];
    assert forall k :: 0 <= k < |t| ==> u[|s| + k] == t[k];
  }

  // Two runs of one element each, out of order.
  method SwapPair<T, K>(order: Order<T, K>, a: array<T>, first0: nat, last0: nat, first: nat, ghost target: seq<T>)
    requires Pending(order, a, first0, last0, first, first + 1, first + 2, target) && order.Less(a[first + 1], a[first])
    modifies a
    ensures a[first0..last0] == target
    ensures SameOutside(old(a[..]), a, first0, last0)
  {
    ghost var s := a[..];
    assert Merged(order, a[first..first + 1], a[first + 1..first + 2]) == [a[first + 1], a[first]];
    assert s[first0..first] == a[first0..first] && s[first + 2..last0] == a[first + 2..last0];
    a[first], a[first + 1] := a[first + 1], a[first];
    SameSlice(s, a, first, first + 2, first0, first);
    SameSlice(s, a, first, first + 2, first + 2, last0);
    SplitSlice(a, first0, first, first + 2);
    SplitSlice(a, first0, first + 2, last0);
    assert a[first..first + 2] == [a[first], a[first + 1]];
  }

  // After the left or the right half has been merged, the other one is pending.

  lemma {:induction false} LeftDone<T, K>(order: Order<T, K>, s: seq<T>, a: array<T>,
                       first0: nat, last0: nat, first: nat, m1: nat, mid: nat, m2: nat, last: nat, target: seq<T>)
    requires first0 <= first <= m1 <= mid <= m2 <= last <= last0 <= |s| && SameOutside(s, a, first, mid)
    requires Sorted(order, s[mid..m2]) && Sorted(order, s[m2..last])
    requires target == s[first0..first] + Merged(order, s[first..m1], s[m1..mid])
      + Merged(order, s[mid..m2], s[m2..last]) + s[last..last0]
    requires a[first..mid] == Merged(order, s[first..m1], s[m1..mid])
    ensures Pending(order, a, first0, last0, mid, m2, last, target)
  {
    SameSlice(s, a, first, mid, first0, first);
    SameSlice(s, a, first, mid, mid, m2);
    SameSlice(s, a, first, mid, m2, last);
    SameSlice(s, a, first, mid, last, last0);
    SplitSlice(a, first0, first, mid);
  }

  lemma {:induction false} RightDone<T, K>(order: Order<T, K>, s: seq<T>, a: array<T>,
                        first0: nat, last0: nat, first: nat, m1: nat, mid: nat, m2: nat, last: nat, target: seq<T>)
    requires first0 <= first <= m1 <= mid <= m2 <= last <= last0 <= |s| && SameOutside(s, a, mid, last)
    requires Sorted(order, s[first..m1]) && Sorted(order, s[m1..mid])
    requires target == s[first0..first] + Merged(order, s[first..m1], s[m1..mid])
      + Merged(order, s[mid..m2], s[m2..last]) + s[last..last0]
    requires a[mid..last] == Merged(order, s[mid..m2], s[m2..last])
    ensures Pending(order, a, first0, last0, first, m1, mid, target)
  {
    SameSlice(s, a, mid, last, first0, first);
    SameSlice(s, a, mid, last, first, m1);
    SameSlice(s, a, mid, last, m1, mid);
    SameSlice(s, a, mid, last, last, last0);
    SplitSlice(a, mid, last, last0);
    ConcatAssociative(a[first0..first] + Merged(order, a[first..m1], a[m1..mid]), a[mid..last], a[last..last0]);
  }

  method BufferPending<T(!new), K>(order: Order<T, K>, a: array<T>, first0: nat, last0: nat,
                                   first: nat, middle: nat, last: nat, buf: array<T>, ghost target: seq<T>)
    requires StrictWeak(order) && Pending(order, a, first0, last0, first, middle, last, target) && a != buf
    requires middle - first <= buf.Length || last - middle <= buf.Length
    modifies a, buf
    ensures a[first0..last0] == target
    ensures SameOutside(old(a[..]), a, first0, last0)
    ensures SameOutside(old(buf[..]), buf, 0, Shorter(middle - first, last - middle))
    ensures Holds(old(a[..]), buf, first, middle, last)
  {
    ghost var s := a[..];
    MergeBuffered(order, a, first, middle, last, buf);
    SameSlice(s, a, first, last, first0, first);
    SameSlice(s, a, first, last, last, last0);
    SplitSlice(a, first0, first, last);
    SplitSlice(a, first0, last, last0);
  }

  // The elements of the first run that are not above the second one end at f.
  ghost predicate Skips<T, K>(order: Order<T, K>, s: seq<T>, first: nat, middle: nat, f: nat) {
    && first <= f < middle < |s| && order.Less(s[middle], s[f])
    && forall p :: first <= p < f ==> !order.Less(s[middle], s[p])
  }

  // One of the runs left to be merged then fits the buffer.
  ghost predicate Fits<T, K>(order: Order<T, K>, s: seq<T>, first: nat, middle: nat, last: nat, bufSize: nat, f: nat) {
    Skips(order, s, first, middle, f) && middle < last && Shorter(middle - f, last - middle) <= bufSize
  }

  // Where one fits, the merge goes through the buffer.
  ghost predicate Through<T, K>(order: Order<T, K>, s: seq<T>, buf: array<T>,
                                first: nat, middle: nat, last: nat, bufSize: nat)
    reads buf
  {
    forall f: nat :: Fits(order, s, first, middle, last, bufSize, f) ==> Holds(s, buf, f, middle, last)
  }

  lemma FitsAt<T, K>(order: Order<T, K>, s: seq<T>, first: nat, middle: nat, last: nat, bufSize: nat, f: nat)
    requires first <= f <= middle < |s| && (f < middle ==> order.Less(s[middle], s[f]))
    requires forall p :: first <= p < f ==> !order.Less(s[middle], s[p])
    ensures forall g: nat :: Fits(order, s, first, middle, last, bufSize, g) ==>
      g == f < middle && Shorter(middle - f, last - middle) <= bufSize
  {
  }

  method SkipOrdered<T, K>(order: Order<T, K>, a: array<T>, first0: nat, last0: nat, first: nat, middle: nat, last: nat,
                           ghost target: seq<T>) returns (f: nat)
    requires Pending(order, a, first0, last0, first, middle, last, target) && middle < last
    ensures first <= f && Pending(order, a, first0, last0, f, middle, last, target)
    ensures f < middle ==> order.Less(a[middle], a[f])
    ensures forall p :: first <= p < f ==> !order.Less(a[middle], a[p])
  {
    f := first;
    while f < middle && !order.Less(a[middle], a[f])
      invariant first <= f && Pending(order, a, first0, last0, f, middle, last, target)
      invariant forall p :: first <= p < f ==> !order.Less(a[middle], a[p])
    {
      PendingSkip(order, a, first0, last0, f, middle, last, target);
      f := f + 1;
    }
  }

  // The ghost depth bounds the recursion: every recursive call gets at most
  // half of what is left, so the depth is logarithmic in the length.
  method MergeAdaptive<T(!new), K>(order: Order<T, K>, a: array<T>, first0: nat, middle0: nat, last0: nat,
                                   buf: array<T>, bufSize: nat, ghost depth: nat)
    requires StrictWeak(order) && first0 <= middle0 <= last0 <= a.Length && a != buf && bufSize <= buf.Length
    requires Sorted(order, a[first0..middle0]) && Sorted(order, a[middle0..last0])
    requires last0 - first0 < Pow2(depth)
    modifies a, buf
    ensures a[first0..last0] == Merged(order, old(a[first0..middle0]), old(a[middle0..last0]))
    ensures SameOutside(old(a[..]), a, first0, last0)
    ensures SameOutside(old(buf[..]), buf, 0, bufSize)
    ensures Through(order, old(a[..]), buf, first0, middle0, last0, bufSize)
    decreases depth, 3
  {
    ghost var was := a[..];
    ghost var target := Merged(order, a[first0..middle0], a[middle0..last0]);
    var first: nat, middle: nat, last: nat, done := first0, middle0, last0, false;
    while !done
      invariant if done then a[first0..last0] == target
        else Pending(order, a, first0, last0, first, middle, last, target)
      invariant last - first <= last0 - first0
      invariant SameOutside(was, a, first0, last0) && SameOutside(old(buf[..]), buf, 0, bufSize)
      invariant || (!done && first == first0 && middle == middle0 && last == last0 && a[..] == was)
        || (done && Through(order, was, buf, first0, middle0, last0, bufSize))
        || forall f: nat :: !Fits(order, was, first0, middle0, last0, bufSize, f)
      decreases !done, last - first
    {
      first, middle, last, done :=
        MergeRound(order, a, first0, last0, first, middle, last, buf, bufSize, target, depth);
    }
  }

  // One round of the loop.
  method MergeRound<T(!new), K>(order: Order<T, K>, a: array<T>, first0: nat, last0: nat,
                                first: nat, middle: nat, last: nat, buf: array<T>, bufSize: nat,
                                ghost target: seq<T>, ghost depth: nat)
    returns (first': nat, middle': nat, last': nat, done: bool)
    requires StrictWeak(order) && Pending(order, a, first0, last0, first, middle, last, target)
    requires a != buf && bufSize <= buf.Length && last - first < Pow2(depth)
    modifies a, buf
    ensures if done then a[first0..last0] == target
      else Pending(order, a, first0, last0, first', middle', last', target) && last' - first' < last - first
    ensures last' - first' <= last - first
    ensures SameOutside(old(a[..]), a, first0, last0)
    ensures SameOutside(old(buf[..]), buf, 0, bufSize)
    ensures if done then Through(order, old(a[..]), buf, first, middle, last, bufSize)
      else forall f: nat :: !Fits(order, old(a[..]), first, middle, last, bufSize, f)
    decreases depth, 2
  {
    first', middle', last', done := first, middle, last, true;
    if middle == last {
      PendingDone(order, a, first0, last0, first, middle, last, target);
      return;
    }
    first' := SkipOrdered(order, a, first0, last0, first, middle, last, target);
    FitsAt(order, a[..], first, middle, last, bufSize, first');
    if first' == middle {
      PendingDone(order, a, first0, last0, first', middle, last, target);
    } else if middle - first' <= bufSize || last - middle <= bufSize {
      BufferPending(order, a, first0, last0, first', middle, last, buf, target);
    } else if middle - first' == 1 && last - middle == 1 {
      SwapPair(order, a, first0, last0, first', target);
    } else {
      first', middle', last' :=
        SplitAndRecurse(order, a, first0, last0, first', middle, last, buf, bufSize, target, depth);
      done := false;
    }
  }

  // One round that is neither finished nor buffered: cut both runs, rotate,
  // merge the smaller half by a recursive call and leave the larger one.
  method SplitAndRecurse<T(!new), K>(order: Order<T, K>, a: array<T>, first0: nat, last0: nat,
                                     first: nat, middle: nat, last: nat, buf: array<T>, bufSize: nat,
                                     ghost target: seq<T>, ghost depth: nat)
    returns (first': nat, middle': nat, last': nat)
    requires StrictWeak(order) && Pending(order, a, first0, last0, first, middle, last, target)
    requires a != buf && bufSize <= buf.Length
    requires first < middle < last && last - first > 2 && last - first < Pow2(depth)
    modifies a, buf
    ensures Pending(order, a, first0, last0, first', middle', last', target)
    ensures last' - first' < last - first
    ensures SameOutside(old(a[..]), a, first0, last0)
    ensures SameOutside(old(buf[..]), buf, 0, bufSize)
    decreases depth, 1
  {
    var m1, m2 := FindCut(order, a, first, middle, last);
    var mid := Halve(order, a, first0, last0, first, middle, last, m1, m2, target);
    if mid - first < last - mid {
      MergeLeft(order, a, first0, last0, first, m1, mid, m2, last, buf, bufSize, target, depth);
      first', middle', last' := mid, m2, last;
    } else {
      MergeRight(order, a, first0, last0, first, m1, mid, m2, last, buf, bufSize, target, depth);
      first', middle', last' := first, m1, mid;
    }
  }

  method MergeLeft<T(!new), K>(order: Order<T, K>, a: array<T>, first0: nat, last0: nat,
                               first: nat, m1: nat, mid: nat, m2: nat, last: nat, buf: array<T>, bufSize: nat,
                               ghost target: seq<T>, ghost depth: nat)
    requires StrictWeak(order) && Halved(order, a, first0, last0, first, m1, mid, m2, last, target)
    requires a != buf && bufSize <= buf.Length && depth > 0 && mid - first < Pow2(depth - 1)
    modifies a, buf
    ensures Pending(order, a, first0, last0, mid, m2, last, target)
    ensures SameOutside(old(a[..]), a, first0, last0)
    ensures SameOutside(old(buf[..]), buf, 0, bufSize)
    decreases depth, 0
  {
    ghost var s := a[..];
    SlicesOf(s, a);
    MergeAdaptive(order, a, first, m1, mid, buf, bufSize, depth - 1);
    LeftDone(order, s, a, first0, last0, first, m1, mid, m2, last, target);
  }

  method MergeRight<T(!new), K>(order: Order<T, K>, a: array<T>, first0: nat, last0: nat,
                                first: nat, m1: nat, mid: nat, m2: nat, last: nat, buf: array<T>, bufSize: nat,
                                ghost target: seq<T>, ghost depth: nat)
    requires StrictWeak(order) && Halved(order, a, first0, last0, first, m1, mid, m2, last, target)
    requires a != buf && bufSize <= buf.Length && depth > 0 && last - mid < Pow2(depth - 1)
    modifies a, buf
    ensures Pending(order, a, first0, last0, first, m1, mid, target)
    ensures SameOutside(old(a[..]), a, first0, last0)
    ensures SameOutside(old(buf[..]), buf, 0, bufSize)
    decreases depth, 0
  {
    ghost var s := a[..];
    SlicesOf(s, a);
    MergeAdaptive(order, a, mid, m2, last, buf, bufSize, depth - 1);
    RightDone(order, s, a, first0, last0, first, m1, mid, m2, last, target);
  }

  lemma SlicesOf<T>(s: seq<T>, a: array<T>)
    requires s == a[..]
    ensures forall p, q :: 0 <= p <= q <= |s| ==> s[p..q] == a[p..q]
  {
  }

  // The merged runs are what a stable sort of the whole range would leave.
  ghost predicate StablySorted<T(!new), K>(order: Order<T, K>, before: seq<T>, after: seq<T>) {
    && Sorted(order, after)
    && multiset(after) == multiset(before)
    && forall z :: Peers(order, z, after) == Peers(order, z, before)
  }

  lemma {:induction false} MergedIsStableSort<T(!new), K>(order: Order<T, K>, xs: seq<T>, ys: seq<T>)
    requires StrictWeak(order) && Sorted(order, xs) && Sorted(order, ys)
    ensures StablySorted(order, xs + ys, Merged(order, xs, ys))
  {
    MergedSorted(order, xs, ys);
    MergedMultiset(order, xs, ys);
    forall z ensures Peers(order, z, Merged(order, xs, ys)) == Peers(order, z, xs + ys) {
      MergedStable(order, z, xs, ys);
      PeersConcat(order, z, xs, ys);
    }
  }

  lemma {:induction false} PeersConcat<T(!new), K>(order: Order<T, K>, z: T, s: seq<T>, t: seq<T>)
    ensures Peers(order, z, s + t) == Peers(order, z, s) + Peers(order, z, t)
  {
    if s == [] {
      assert s + t == t;
    } else {
      assert (s + t)[1..] == s[1..] + t;
      PeersConcat(order, z, s[1..], t);
    }
  }

  // inplace_merge: bufSize is what the allocator granted, none at worst.
  method InplaceMerge<T(!new), K>(order: Order<T, K>, a: array<T>, first: nat, middle: nat, last: nat,
                                  buf: array<T>, bufSize: nat) returns (end: nat)
    requires StrictWeak(order) && first <= middle <= last <= a.Length && a != buf && bufSize <= buf.Length
    requires Sorted(order, a[first..middle]) && Sorted(order, a[middle..last])
    modifies a, buf
    ensures end == last
    ensures StablySorted(order, old(a[first..last]), a[first..last])
    ensures SameOutside(old(a[..]), a, first, last)
    ensures SameOutside(old(buf[..]), buf, 0, bufSize)
    ensures Through(order, old(a[..]), buf, first, middle, last, bufSize)
  {
    ghost var xs, ys := a[first..middle], a[middle..last];
    assert xs + ys == a[first..last];
    MergeAdaptive(order, a, first, middle, last, buf, bufSize, if first < last then Log2(last - first) + 1 else 0);
    MergedIsStableSort(order, xs, ys);
    return last;
  }
}
