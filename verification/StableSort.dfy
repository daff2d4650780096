// Sorting a range stably: insertion sort on short stretches, merges between
// the range and a buffer, and in-place merges where the buffer does not reach.
module StableSort {
  import opened Modular
  import opened Sequences
  import opened StableMerge
  import opened InplaceMerge

  // The stable sort of a sequence.
  ghost function Sort<T(!new), K>(o: Order<T, K>, s: seq<T>): (r: seq<T>)
    ensures |r| == |s|
  {
    if s == [] then [] else Merged(o, [s[0]], Sort(o, s[1..]))
  }

  lemma {:induction false} SortIsStable<T(!new), K>(o: Order<T, K>, s: seq<T>)
    requires StrictWeak(o)
    ensures StablySorted(o, s, Sort(o, s))
  {
    if s == [] {
    } else {
      SortIsStable(o, s[1..]);
      assert s == [s[0]] + s[1..];
      StableHead(o, s[0], s[1..], Sort(o, s[1..]));
    }
  }

  lemma StableHead<T(!new), K>(o: Order<T, K>, x: T, s: seq<T>, t: seq<T>)
    requires StrictWeak(o) && StablySorted(o, s, t)
    ensures StablySorted(o, [x] + s, Merged(o, [x], t))
  {
    MergedIsStableSort(o, [x], t);
    forall z ensures Peers(o, z, [x] + t) == Peers(o, z, [x] + s) {
      PeersConcat(o, z, [x], t);
      PeersConcat(o, z, [x], s);
    }
  }

  // It is the only one.
  lemma SortUnique<T(!new), K>(o: Order<T, K>, s: seq<T>, t: seq<T>)
    requires StrictWeak(o)
    ensures StablySorted(o, s, t) <==> t == Sort(o, s)
  {
    SortIsStable(o, s);
    if StablySorted(o, s, t) {
      StableSortUnique(o, t, Sort(o, s));
    }
  }

  // Merging the sorted halves sorts the whole.
  lemma SortMerged<T(!new), K>(o: Order<T, K>, xs: seq<T>, ys: seq<T>)
    requires StrictWeak(o)
    ensures Merged(o, Sort(o, xs), Sort(o, ys)) == Sort(o, xs + ys)
  {
    var a, b := Sort(o, xs), Sort(o, ys);
    SortIsStable(o, xs);
    SortIsStable(o, ys);
    MergedIsStableSort(o, a, b);
    forall z ensures Peers(o, z, Merged(o, a, b)) == Peers(o, z, xs + ys) {
      PeersConcat(o, z, a, b);
      PeersConcat(o, z, xs, ys);
    }
    SortUnique(o, xs + ys, Merged(o, a, b));
  }

  lemma SortOne<T(!new), K>(o: Order<T, K>, x: T)
    ensures Sort(o, [x]) == [x]
  {
    assert [x][1..] == [];
  }

  lemma SortSorted<T(!new), K>(o: Order<T, K>, s: seq<T>)
    requires StrictWeak(o)
    ensures Sorted(o, Sort(o, s))
  {
    SortIsStable(o, s);
  }

  // ---- insertion sort ----

  // Where the last element of all belongs: behind the first k of a sorted run.
  lemma {:induction false} MergedLast<T(!new), K>(o: Order<T, K>, s: seq<T>, x: T, k: nat)
    requires StrictWeak(o) && Sorted(o, s) && k <= |s|
    requires k > 0 ==> !o.Less(x, s[k - 1])
    requires k < |s| ==> o.Less(x, s[k])
    ensures Merged(o, s, [x]) == s[..k] + [x] + s[k..]
  {
    if s == [] {
    } else if k == 0 {
      MergedSingleBefore(o, s, x);
    } else {
      if k > 1 {
        NotLessTransitive(o, x, s[k - 1], s[0]);
      }
      MergedLast(o, s[1..], x, k - 1);
      assert s[..k] == [s[0]] + s[1..][..k - 1] && s[k..] == s[1..][k - 1..];
    }
  }

  // The array holds s around a hole: the elements from k on have moved up by one.
  ghost predicate Opened<T>(a: array<T>, first: nat, last: nat, s: seq<T>, hole: nat)
    reads a
  {
    && first <= hole <= last < a.Length && |s| == last - first
    && (forall p :: first <= p < hole ==> a[p] == s[p - first])
    && forall p :: hole < p <= last ==> a[p] == s[p - 1 - first]
  }

  // unguarded_linear_insert: some element at or after first is not above val.
  method UnguardedLinearInsert<T(!new), K>(order: Order<T, K>, a: array<T>, last0: nat, val: T, ghost first: nat)
    requires StrictWeak(order) && first < last0 < a.Length && Sorted(order, a[first..last0])
    requires !order.Less(val, a[first])
    modifies a
    ensures a[first..last0 + 1] == Merged(order, old(a[first..last0]), [val])
    ensures SameOutside(old(a[..]), a, first, last0 + 1)
  {
    ghost var s := a[first..last0];
    var last := last0;
    while order.Less(val, a[last - 1])
      invariant first < last && Opened(a, first, last0, s, last)
      invariant last < last0 ==> order.Less(val, s[last - first])
      invariant SameOutside(old(a[..]), a, first, last0 + 1)
      decreases last
    {
      a[last] := a[last - 1];
      last := last - 1;
    }
    a[last] := val;
    FilledHole(order, a, first, last0, s, last, val);
  }

  lemma FilledHole<T(!new), K>(order: Order<T, K>, a: array<T>, first: nat, last: nat, s: seq<T>, hole: nat, val: T)
    requires StrictWeak(order) && Sorted(order, s) && Opened(a, first, last, s, hole) && a[hole] == val
    requires hole > first ==> !order.Less(val, s[hole - 1 - first])
    requires hole < last ==> order.Less(val, s[hole - first])
    ensures a[first..last + 1] == Merged(order, s, [val])
  {
    var k := hole - first;
    MergedLast(order, s, val, k);
    assert a[first..last + 1] == s[..k] + [val] + s[k..];
  }

  // linear_insert: the element at last joins the sorted run before it.
  method LinearInsert<T(!new), K>(order: Order<T, K>, a: array<T>, first: nat, last: nat)
    requires StrictWeak(order) && first < last < a.Length && Sorted(order, a[first..last])
    modifies a
    ensures a[first..last + 1] == Merged(order, old(a[first..last]), [old(a[last])])
    ensures SameOutside(old(a[..]), a, first, last + 1)
  {
    var val := a[last];
    if order.Less(val, a[first]) {
      ghost var s := a[first..last];
      MoveBackward(a, first, last);
      a[first] := val;
      FilledHole(order, a, first, last, s, first, val);
    } else {
      UnguardedLinearInsert(order, a, last, val, first);
    }
  }

  // move_backward by one place.
  method MoveBackward<T>(a: array<T>, first: nat, last: nat)
    requires first <= last < a.Length
    modifies a
    ensures Opened(a, first, last, old(a[first..last]), first)
    ensures SameOutside(old(a[..]), a, first, last + 1)
  {
    forall p | first < p <= last {
      a[p] := a[p - 1];
    }
  }

  // insertion_sort
  method InsertionSort<T(!new), K>(order: Order<T, K>, a: array<T>, first: nat, last: nat)
    requires StrictWeak(order) && first <= last <= a.Length
    modifies a
    ensures a[first..last] == Sort(order, old(a[first..last]))
    ensures SameOutside(old(a[..]), a, first, last)
  {
    if first == last {
      return;
    }
    ghost var s := a[first..last];
    SortOne(order, a[first]);
    assert s[..1] == [a[first]] == a[first..first + 1];
    var i := first + 1;
    while i != last
      invariant first < i <= last && SortedUpTo(order, a, first, i, s)
      invariant SameOutside(old(a[..]), a, first, last)
      decreases last - i
    {
      InsertNext(order, a, first, i, s);
      i := i + 1;
    }
    assert s[..last - first] == s;
  }

  // The elements of s before i are sorted, the others are where they were.
  ghost predicate SortedUpTo<T(!new), K>(o: Order<T, K>, a: array<T>, first: nat, i: nat, s: seq<T>)
    reads a
  {
    && first <= i <= first + |s| <= a.Length && a[first..i] == Sort(o, s[..i - first])
    && forall p :: i <= p < first + |s| ==> a[p] == s[p - first]
  }

  method InsertNext<T(!new), K>(order: Order<T, K>, a: array<T>, first: nat, i: nat, ghost s: seq<T>)
    requires StrictWeak(order) && first < i < first + |s| && SortedUpTo(order, a, first, i, s)
    modifies a
    ensures SortedUpTo(order, a, first, i + 1, s)
    ensures SameOutside(old(a[..]), a, first, first + |s|)
  {
    InsertionStep(order, s, i - first);
    LinearInsert(order, a, first, i);
  }

  lemma InsertionStep<T(!new), K>(o: Order<T, K>, s: seq<T>, k: nat)
    requires StrictWeak(o) && k < |s|
    ensures Sorted(o, Sort(o, s[..k])) && Merged(o, Sort(o, s[..k]), [s[k]]) == Sort(o, s[..k + 1])
  {
    SortSorted(o, s[..k]);
    SortOne(o, s[k]);
    SortMerged(o, s[..k], [s[k]]);
    assert s[..k + 1] == s[..k] + [s[k]];
  }

  // ---- merges between the range and the buffer ----

  // s with every stretch of n elements sorted by itself.
  ghost function Chunked<T(!new), K>(o: Order<T, K>, s: seq<T>, n: nat): (r: seq<T>)
    requires n > 0
    ensures |r| == |s|
  {
    if |s| < n then Sort(o, s) else Sort(o, s[..n]) + Chunked(o, s[n..], n)
  }

  lemma ChunkedHead<T(!new), K>(o: Order<T, K>, x: seq<T>, rest: seq<T>, n: nat)
    requires n > 0 && |x| == n
    ensures Chunked(o, x + rest, n) == Sort(o, x) + Chunked(o, rest, n)
  {
    assert (x + rest)[..n] == x && (x + rest)[n..] == rest;
  }

  // Pairs of sorted stretches merged are stretches of twice the length.
  lemma ChunkedPair<T(!new), K>(o: Order<T, K>, x: seq<T>, y: seq<T>, rest: seq<T>, n: nat)
    requires StrictWeak(o) && n > 0 && |x| == n && |y| == n
    ensures Chunked(o, x + (y + rest), n) == Sort(o, x) + (Sort(o, y) + Chunked(o, rest, n))
    ensures Chunked(o, x + (y + rest), 2 * n) == Merged(o, Sort(o, x), Sort(o, y)) + Chunked(o, rest, 2 * n)
  {
    ChunkedHead(o, x, y + rest, n);
    ChunkedHead(o, y, rest, n);
    assert x + (y + rest) == (x + y) + rest;
    ChunkedHead(o, x + y, rest, 2 * n);
    SortMerged(o, x, y);
  }

  // What is left at the end is merged in one go.
  lemma ChunkedEnd<T(!new), K>(o: Order<T, K>, x: seq<T>, y: seq<T>, n: nat)
    requires StrictWeak(o) && n > 0 && |y| < n && if |x| < n then y == [] else |x| == n
    ensures Chunked(o, x + y, n) == Sort(o, x) + Sort(o, y)
    ensures Chunked(o, x + y, 2 * n) == Merged(o, Sort(o, x), Sort(o, y))
  {
    SortMerged(o, x, y);
    if |x| < n {
      assert x + y == x && Sort(o, y) == [];
      assert Sort(o, x) + Sort(o, y) == Sort(o, x);
    } else {
      ChunkedHead(o, x, y, n);
    }
  }

  lemma ChunkedWhole<T(!new), K>(o: Order<T, K>, s: seq<T>, n: nat)
    requires n > 0 && |s| <= n
    ensures Chunked(o, s, n) == Sort(o, s)
  {
    if |s| == n {
      ChunkedHead(o, s, [], n);
      assert s + [] == s;
      assert Sort(o, s) + Sort(o, []) == Sort(o, s);
    }
  }

  // chunk_insertion_sort
  method ChunkInsertionSort<T(!new), K>(order: Order<T, K>, a: array<T>, first0: nat, last: nat, n: nat)
    requires StrictWeak(order) && first0 <= last <= a.Length && n > 0
    modifies a
    ensures a[first0..last] == Chunked(order, old(a[first0..last]), n)
    ensures SameOutside(old(a[..]), a, first0, last)
  {
    var first := first0;
    ghost var target := Chunked(order, a[first0..last], n);
    assert a[first0..first0] + target == target;
    while last - first >= n
      invariant first0 <= first <= last && SameOutside(old(a[..]), a, first0, last)
      invariant a[first0..first] + Chunked(order, a[first..last], n) == target
      decreases last - first
    {
      first := SortChunk(order, a, first0, first, last, n);
    }
    ghost var was := a[..];
    InsertionSort(order, a, first, last);
    SameSlice(was, a, first, last, first0, first);
    SplitSlice(a, first0, first, last);
  }

  // One turn of that loop.
  method SortChunk<T(!new), K>(order: Order<T, K>, a: array<T>, ghost first0: nat, first: nat, last: nat, n: nat)
    returns (next: nat)
    requires StrictWeak(order) && first0 <= first && first + n <= last <= a.Length && n > 0
    modifies a
    ensures next == first + n && SameOutside(old(a[..]), a, first0, last)
    ensures a[first0..next] + Chunked(order, a[next..last], n)
      == old(a[first0..first]) + Chunked(order, old(a[first..last]), n)
  {
    next := first + n;
    ghost var was, x, rest := a[..], a[first..next], a[next..last];
    SplitSlice(a, first, next, last);
    ChunkedHead(order, x, rest, n);
    InsertionSort(order, a, first, next);
    SameSlice(was, a, first, next, first0, first);
    SameSlice(was, a, first, next, next, last);
    SplitSlice(a, first0, first, next);
    ConcatAssociative(was[first0..first], Sort(order, x), Chunked(order, rest, n));
  }

  // merge of the first n0 and the next n1 elements of c, which stands in src from
  // p on, behind what has been written to dst from start on.
  method MergeBehind<T, K>(order: Order<T, K>, src: array<T>, p: nat, n0: nat, n1: nat,
                           dst: array<T>, ghost start: nat, q: nat, ghost c: seq<T>)
    requires src != dst && p + |c| <= src.Length && src[p..p + |c|] == c && n0 + n1 <= |c|
    requires start <= q && q + n0 + n1 <= dst.Length
    modifies dst
    ensures dst[start..q + n0 + n1] == old(dst[start..q]) + Merged(order, c[..n0], c[n0..n0 + n1])
    ensures SameOutside(old(dst[..]), dst, q, q + n0 + n1)
  {
    ghost var xs, ys, was := c[..n0], c[n0..n0 + n1], dst[..];
    ghost var before := dst[start..q];
    SlicesStand(src, p, n0, n1, c);
    Merge(order, src, p, n0, src, p + n0, n1, dst, q, xs, ys);
    Written(was, dst, start, q, q + n0 + n1, before, Merged(order, xs, ys));
  }

  lemma SlicesStand<T>(src: array<T>, p: nat, n0: nat, n1: nat, c: seq<T>)
    requires p + |c| <= src.Length && src[p..p + |c|] == c && n0 + n1 <= |c|
    ensures Stands(src, p, c[..n0], 0, n0) && Stands(src, p + n0, c[n0..n0 + n1], 0, n1)
  {
    forall i | 0 <= i < |c| ensures src[p + i] == c[i] {
    }
  }

  lemma Written<T>(was: seq<T>, dst: array<T>, start: nat, q: nat, end: nat, before: seq<T>, merged: seq<T>)
    requires start <= q <= end <= dst.Length && SameOutside(was, dst, q, end) && before == was[start..q]
    requires |merged| == end - q && Stands(dst, q, merged, 0, end - q)
    ensures dst[start..end] == before + merged
  {
    SameSlice(was, dst, q, end, start, q);
    assert dst[q..end] == merged;
    SplitSlice(dst, start, q, end);
  }

  // The elements from p on are s in sorted stretches of n.
  ghost predicate InChunks<T(!new), K>(o: Order<T, K>, a: array<T>, p: nat, len: nat, s: seq<T>, n: nat)
    reads a
  {
    p + len <= a.Length && n > 0 && a[p..p + len] == Chunked(o, s, n)
  }

  // merge_sort_loop: sorted stretches of src become sorted stretches of twice the
  // length in dst.
  method MergeSortLoop<T(!new), K>(order: Order<T, K>, src: array<T>, first0: nat, dst: array<T>, result0: nat,
                                   len: nat, n: nat, ghost s: seq<T>)
    requires StrictWeak(order) && src != dst && first0 + len <= src.Length && result0 + len <= dst.Length
    requires n > 0 && |s| == len && InChunks(order, src, first0, len, s, n)
    modifies dst
    ensures InChunks(order, dst, result0, len, s, 2 * n)
    ensures SameOutside(old(dst[..]), dst, result0, result0 + len)
  {
    var first, result, last := first0, result0, first0 + len;
    ghost var rest := s;
    assert dst[result0..result0] + Chunked(order, s, 2 * n) == Chunked(order, s, 2 * n);
    while last - first >= 2 * n
      invariant first0 <= first <= last && result - result0 == first - first0 && |rest| == last - first
      invariant src[first..last] == Chunked(order, rest, n)
      invariant dst[result0..result] + Chunked(order, rest, 2 * n) == Chunked(order, s, 2 * n)
      invariant SameOutside(old(dst[..]), dst, result0, result0 + len)
      decreases last - first
    {
      first, result, rest := MergePair(order, src, first, last, dst, result0, result, n, rest);
    }
    MergeRemainder(order, src, first, last, dst, result0, result, result0 + len, n, rest);
  }

  // One turn of that loop: two stretches merged.
  method MergePair<T(!new), K>(order: Order<T, K>, src: array<T>, first0: nat, last: nat, dst: array<T>,
                               ghost start: nat, result0: nat, n: nat, ghost rest0: seq<T>)
    returns (first: nat, result: nat, ghost rest: seq<T>)
    requires StrictWeak(order) && src != dst && n > 0 && first0 + 2 * n <= last <= src.Length
    requires start <= result0 && result0 + (last - first0) <= dst.Length && |rest0| == last - first0
    requires src[first0..last] == Chunked(order, rest0, n)
    modifies dst
    ensures first == first0 + 2 * n && result == result0 + 2 * n && |rest| == last - first
    ensures src[first..last] == Chunked(order, rest, n)
    ensures dst[start..result] + Chunked(order, rest, 2 * n)
      == old(dst[start..result0]) + Chunked(order, rest0, 2 * n)
    ensures SameOutside(old(dst[..]), dst, result0, result)
  {
    ghost var c, before := src[first0..last], dst[start..result0];
    rest := PairParts(order, c, n, rest0);
    first, result := first0 + 2 * n, result0 + 2 * n;
    CutSlice(src, first0, first, last);
    MergeBehind(order, src, first0, n, n, dst, start, result0, c);
    Joined(dst[start..result], before, Merged(order, c[..n], c[n..n + n]),
      Chunked(order, rest, 2 * n), Chunked(order, rest0, 2 * n));
  }

  lemma Joined<T>(done: seq<T>, before: seq<T>, merged: seq<T>, remaining: seq<T>, total: seq<T>)
    requires done == before + merged && total == merged + remaining
    ensures done + remaining == before + total
  {
  }

  // The merge of the first two stretches, and what remains.
  lemma PairParts<T(!new), K>(o: Order<T, K>, c: seq<T>, n: nat, s: seq<T>) returns (rest: seq<T>)
    requires StrictWeak(o) && n > 0 && |s| >= 2 * n && c == Chunked(o, s, n)
    ensures |rest| == |s| - 2 * n && c[2 * n..] == Chunked(o, rest, n)
    ensures Chunked(o, s, 2 * n) == Merged(o, c[..n], c[n..n + n]) + Chunked(o, rest, 2 * n)
  {
    var x, y := s[..n], s[n..2 * n];
    rest := s[2 * n..];
    assert s == x + (y + rest);
    ChunkedPair(o, x, y, rest, n);
    CutConcat(Sort(o, x), Sort(o, y) + Chunked(o, rest, n), c);
    CutConcat(Sort(o, y), Chunked(o, rest, n), c[n..]);
    assert c[n..n + n] == c[n..][..n] && c[2 * n..] == c[n..][n..];
  }

  lemma CutConcat<T>(x: seq<T>, y: seq<T>, s: seq<T>)
    requires s == x + y
    ensures s[..|x|] == x && s[|x|..] == y
  {
  }

  lemma CutSlice<T>(a: array<T>, i: nat, j: nat, k: nat)
    requires i <= j <= k <= a.Length
    ensures a[i..k][..j - i] == a[i..j] && a[i..k][j - i..] == a[j..k]
  {
  }

  // The end of merge_sort_loop.
  method MergeRemainder<T(!new), K>(order: Order<T, K>, src: array<T>, first: nat, last: nat, dst: array<T>,
                                    ghost start: nat, result: nat, ghost end: nat, n: nat, ghost rest: seq<T>)
    requires StrictWeak(order) && src != dst && n > 0 && first <= last <= src.Length && last - first < 2 * n
    requires start <= result && end == result + (last - first) <= dst.Length && |rest| == last - first
    requires src[first..last] == Chunked(order, rest, n)
    modifies dst
    ensures dst[start..end] == old(dst[start..result]) + Chunked(order, rest, 2 * n)
    ensures SameOutside(old(dst[..]), dst, result, end)
  {
    var step := if last - first < n then last - first else n;
    var others := last - first - step;
    ghost var c := src[first..last];
    EndParts(order, c, n, step, others, rest);
    MergeBehind(order, src, first, step, others, dst, start, result, c);
  }

  lemma EndParts<T(!new), K>(o: Order<T, K>, c: seq<T>, n: nat, step: nat, others: nat, s: seq<T>)
    requires StrictWeak(o) && n > 0 && |s| < 2 * n && c == Chunked(o, s, n)
    requires step == (if |s| < n then |s| else n) && step + others == |s|
    ensures Chunked(o, s, 2 * n) == Merged(o, c[..step], c[step..step + others])
  {
    EndHalves(o, c, n, step, s);
    Tail(c, step, others);
  }

  lemma Tail<T>(c: seq<T>, step: nat, others: nat)
    requires step + others == |c|
    ensures c[step..step + others] == c[step..]
  {
  }

  lemma EndHalves<T(!new), K>(o: Order<T, K>, c: seq<T>, n: nat, step: nat, s: seq<T>)
    requires StrictWeak(o) && n > 0 && |s| < 2 * n && c == Chunked(o, s, n) && step == if |s| < n then |s| else n
    ensures Chunked(o, s, 2 * n) == Merged(o, c[..step], c[step..])
  {
    var x, y := s[..step], s[step..];
    assert s == x + y;
    ChunkedEnd(o, x, y, n);
    CutConcat(Sort(o, x), Sort(o, y), c);
  }

  const CHUNK_SIZE := 7

  // merge_sort_with_buffer: from the range to the buffer and back until the
  // stretches cover the range.
  method MergeSortWithBuffer<T(!new), K>(order: Order<T, K>, a: array<T>, first: nat, last: nat, buf: array<T>)
    requires StrictWeak(order) && a != buf && first <= last <= a.Length && last - first <= buf.Length
    modifies a, buf
    ensures a[first..last] == Sort(order, old(a[first..last]))
    ensures SameOutside(old(a[..]), a, first, last)
    ensures SameOutside(old(buf[..]), buf, 0, last - first)
  {
    ghost var s := a[first..last];
    var len, step := last - first, CHUNK_SIZE;
    ChunkInsertionSort(order, a, first, last, step);
    if step >= len {
      ChunkedWhole(order, s, step);
      return;
    }
    MergeSortLoop(order, a, first, buf, 0, len, step, s);
    step := step * 2;
    MergeBackAndForth(order, a, first, len, buf, step, s);
  }

  // The rest of merge_sort_with_buffer, once the stretches are in the buffer.
  method MergeBackAndForth<T(!new), K>(order: Order<T, K>, a: array<T>, first: nat, len: nat, buf: array<T>, step0: nat,
                                       ghost s: seq<T>)
    requires StrictWeak(order) && a != buf && first + len <= a.Length && len <= buf.Length
    requires |s| == len && InChunks(order, buf, 0, len, s, step0)
    modifies a, buf
    ensures a[first..first + len] == Sort(order, s)
    ensures SameOutside(old(a[..]), a, first, first + len)
    ensures SameOutside(old(buf[..]), buf, 0, len)
  {
    var step := step0;
    while true
      invariant step > 0 && SameOutside(old(a[..]), a, first, first + len) && SameOutside(old(buf[..]), buf, 0, len)
      invariant InChunks(order, buf, 0, len, s, step)
      decreases len - step
    {
      var done;
      step, done := MergeTurn(order, a, first, len, buf, step, s);
      if done {
        return;
      }
    }
  }

  // One turn of that loop: to the range, and unless it is sorted back to the buffer.
  method MergeTurn<T(!new), K>(order: Order<T, K>, a: array<T>, first: nat, len: nat, buf: array<T>, step0: nat,
                               ghost s: seq<T>)
    returns (step: nat, done: bool)
    requires StrictWeak(order) && a != buf && first + len <= a.Length && len <= buf.Length
    requires |s| == len && InChunks(order, buf, 0, len, s, step0)
    modifies a, buf
    ensures if done then a[first..first + len] == Sort(order, s)
      else step0 < step && 2 * step0 < len && InChunks(order, buf, 0, len, s, step)
    ensures SameOutside(old(a[..]), a, first, first + len)
    ensures SameOutside(old(buf[..]), buf, 0, len)
  {
    MergeSortLoop(order, buf, 0, a, first, len, step0, s);
    step := step0 * 2;
    done := step >= len;
    if done {
      ChunkedWhole(order, s, step);
    } else {
      MergeSortLoop(order, a, first, buf, 0, len, step, s);
      step := step * 2;
    }
  }

  // ---- halves ----

  // Merging the sorted halves of a range in place.
  method MergeHalves<T(!new), K>(order: Order<T, K>, a: array<T>, first: nat, middle: nat, last: nat,
                                 buf: array<T>, bufSize: nat, ghost xs: seq<T>, ghost ys: seq<T>)
    requires StrictWeak(order) && first <= middle <= last <= a.Length && a != buf && bufSize <= buf.Length
    requires a[first..middle] == Sort(order, xs) && a[middle..last] == Sort(order, ys)
    modifies a, buf
    ensures a[first..last] == Sort(order, xs + ys)
    ensures SameOutside(old(a[..]), a, first, last)
    ensures SameOutside(old(buf[..]), buf, 0, bufSize)
  {
    SortSorted(order, xs);
    SortSorted(order, ys);
    SortMerged(order, xs, ys);
    MergeAdaptive(order, a, first, middle, last, buf, bufSize, if first < last then Log2(last - first) + 1 else 0);
  }

  // Within depth calls of itself stable_sort_adaptive on n elements, with room for b
  // in the buffer, has ended: it calls itself on both halves while the larger one
  // does not fit.
  ghost predicate EndsWithin(n: nat, b: nat, depth: nat) {
    depth > 0 && ((n + 1) / 2 > b ==> EndsWithin((n + 1) / 2, b, depth - 1) && EndsWithin(n / 2, b, depth - 1))
  }

  ghost predicate Ends(n: nat, b: nat) {
    exists depth: nat :: EndsWithin(n, b, depth)
  }

  lemma {:induction false} EndsAtOne(n: nat, depth: nat)
    requires n > 0
    ensures !EndsWithin(n, 0, depth)
  {
    if depth > 0 {
      EndsAtOne((n + 1) / 2, depth - 1);
    }
  }

  lemma {:induction false} EndsWithRoom(n: nat, b: nat, depth: nat)
    requires b > 0 && n < depth
    ensures EndsWithin(n, b, depth)
  {
    if (n + 1) / 2 > b {
      EndsWithRoom((n + 1) / 2, b, depth - 1);
      EndsWithRoom(n / 2, b, depth - 1);
    }
  }

  // The recursion ends exactly if the range is empty or the buffer is not.
  lemma AdaptiveEnds(n: nat, b: nat)
    ensures Ends(n, b) <==> n == 0 || b > 0
  {
    if n > 0 && b == 0 {
      forall depth: nat ensures !EndsWithin(n, b, depth) {
        EndsAtOne(n, depth);
      }
    } else if b > 0 {
      EndsWithRoom(n, b, n + 1);
    } else {
      assert EndsWithin(0, 0, 1);
    }
  }

  // stable_sort_adaptive, wherever it ends.
  method StableSortAdaptive<T(!new), K>(order: Order<T, K>, a: array<T>, first: nat, last: nat,
                                        buf: array<T>, bufSize: nat)
    requires StrictWeak(order) && first <= last <= a.Length && a != buf && bufSize <= buf.Length
    requires Ends(last - first, bufSize)
    modifies a, buf
    ensures a[first..last] == Sort(order, old(a[first..last]))
    ensures SameOutside(old(a[..]), a, first, last)
    ensures SameOutside(old(buf[..]), buf, 0, bufSize)
    decreases last - first
  {
    AdaptiveEnds(last - first, bufSize);
    var len := (last - first + 1) / 2;
    var middle := first + len;
    ghost var xs, ys := a[first..middle], a[middle..last];
    assert xs + ys == a[first..last];
    SortHalves(order, a, first, middle, last, buf, bufSize);
    MergeHalves(order, a, first, middle, last, buf, bufSize, xs, ys);
  }

  method SortHalves<T(!new), K>(order: Order<T, K>, a: array<T>, first: nat, middle: nat, last: nat,
                                buf: array<T>, bufSize: nat)
    requires StrictWeak(order) && middle == first + (last - first + 1) / 2 && first <= last <= a.Length
    requires a != buf && bufSize <= buf.Length && (first == last || 0 < bufSize)
    modifies a, buf
    ensures a[first..middle] == Sort(order, old(a[first..middle]))
    ensures a[middle..last] == Sort(order, old(a[middle..last]))
    ensures SameOutside(old(a[..]), a, first, last)
    ensures SameOutside(old(buf[..]), buf, 0, bufSize)
    decreases last - first, 0
  {
    ghost var was := a[..];
    AdaptiveEnds(middle - first, bufSize);
    AdaptiveEnds(last - middle, bufSize);
    if middle - first > bufSize {
      StableSortAdaptive(order, a, first, middle, buf, bufSize);
    } else {
      MergeSortWithBuffer(order, a, first, middle, buf);
    }
    ghost var half := a[..];
    SameSlice(was, a, first, middle, middle, last);
    if middle - first > bufSize {
      StableSortAdaptive(order, a, middle, last, buf, bufSize);
    } else {
      MergeSortWithBuffer(order, a, middle, last, buf);
    }
    SameSlice(half, a, middle, last, first, middle);
  }

  const INSERTION_LIMIT := 15

  // inplace_stable_sort: without a buffer.
  method InplaceStableSort<T(!new), K>(order: Order<T, K>, a: array<T>, first: nat, last: nat, none: array<T>)
    requires StrictWeak(order) && first <= last <= a.Length && a != none
    modifies a, none
    ensures a[first..last] == Sort(order, old(a[first..last]))
    ensures SameOutside(old(a[..]), a, first, last)
    ensures none[..] == old(none[..])
    decreases last - first
  {
    if last - first < INSERTION_LIMIT {
      InsertionSort(order, a, first, last);
    } else {
      var middle := first + (last - first) / 2;
      ghost var xs, ys := a[first..middle], a[middle..last];
      assert xs + ys == a[first..last];
      InplaceStableSort(order, a, first, middle, none);
      assert a[middle..last] == ys;
      ghost var sorted := a[first..middle];
      InplaceStableSort(order, a, middle, last, none);
      assert a[first..middle] == sorted;
      MergeHalves(order, a, first, middle, last, none, 0, xs, ys);
    }
  }

  // ---- the temporary buffer ----

  // A buffer as the caller sees it: whether there is one, and for how many elements.
  datatype Buffer = Buffer(isNull: bool, size: nat)

  // What get_temporary_buffer_impl returns for n elements when the allocator grants
  // the requests that grants says: the size is halved after the request that
  // succeeds, too.
  ghost function Requested(n: nat, grants: nat -> bool): Buffer {
    if n == 0 then Buffer(true, 0)
    else if grants(n) then Buffer(false, n / 2)
    else Requested(n / 2, grants)
  }

  // get_temporary_buffer: limit is the largest number of elements that has a size.
  method GetTemporaryBuffer(count: nat, limit: nat, grants: nat -> bool) returns (buffer: Buffer)
    ensures buffer == Requested(if count > limit then limit else count, grants)
  {
    var n: nat := if count > limit then limit else count;
    ghost var request: nat := n;
    var isNull := true;
    while isNull && n > 0
      invariant if isNull then Requested(request, grants) == Requested(n, grants)
        else Requested(request, grants) == Buffer(false, n)
      decreases isNull, n
    {
      isNull := !grants(n);
      n := n / 2;
    }
    buffer := Buffer(isNull, n);
  }

  // n halved k times.
  function Halved(n: nat, k: nat): nat {
    if k == 0 then n else Halved(n / 2, k - 1)
  }

  // There is a buffer exactly if some request is granted, and its size is half
  // of the first one granted.
  lemma {:induction false} RequestedHalf(n: nat, grants: nat -> bool) returns (k: nat)
    ensures forall j: nat :: j < k ==> !grants(Halved(n, j))
    ensures Requested(n, grants).isNull <==> Halved(n, k) == 0
    ensures Halved(n, k) > 0 ==> grants(Halved(n, k))
    ensures Requested(n, grants).size == Halved(n, k) / 2
  {
    if n == 0 || grants(n) {
      k := 0;
    } else {
      k := RequestedHalf(n / 2, grants);
      k := k + 1;
      forall j: nat | j < k ensures !grants(Halved(n, j)) {
        if j > 0 {
          assert Halved(n, j) == Halved(n / 2, j - 1);
        }
      }
    }
  }

  // When only the request for a single element is granted there is a buffer of
  // size zero, whatever was asked for.
  lemma {:induction false} OnlyOneGranted(n: nat, grants: nat -> bool)
    requires n > 0 && grants(1) && forall m :: m > 1 ==> !grants(m)
    ensures Requested(n, grants) == Buffer(false, 0)
  {
    if n > 1 {
      OnlyOneGranted(n / 2, grants);
    }
  }

  // Nothing larger than one element is granted on the way down from n.
  ghost predicate NothingLarger(n: nat, grants: nat -> bool) {
    forall k: nat :: Halved(n, k) > 1 ==> !grants(Halved(n, k))
  }

  // That is the only way to such a buffer: it came of the request for one element.
  lemma {:induction false} EmptyBuffer(n: nat, grants: nat -> bool)
    ensures Requested(n, grants) == Buffer(false, 0) <==> n > 0 && grants(1) && NothingLarger(n, grants)
  {
    if n > 1 {
      EmptyBuffer(n / 2, grants);
      NothingLargerStep(n, grants);
    } else {
      forall k: nat ensures Halved(n, k) <= 1 {
        HalvedSmall(n, k);
      }
    }
  }

  lemma NothingLargerStep(n: nat, grants: nat -> bool)
    requires n > 1
    ensures NothingLarger(n, grants) <==> !grants(n) && NothingLarger(n / 2, grants)
  {
    assert Halved(n, 0) == n;
    if NothingLarger(n, grants) {
      forall k: nat | Halved(n / 2, k) > 1 ensures !grants(Halved(n / 2, k)) {
        assert Halved(n, k + 1) == Halved(n / 2, k);
      }
    } else {
      var k: nat :| Halved(n, k) > 1 && grants(Halved(n, k));
      if k > 0 {
        assert Halved(n, k) == Halved(n / 2, k - 1);
      }
    }
  }

  lemma {:induction false} HalvedSmall(n: nat, k: nat)
    ensures Halved(n, k) <= n
  {
    if k > 0 {
      HalvedSmall(n / 2, k - 1);
    }
  }

  // ---- stable_sort ----

  const BUFFER_FROM := 256

  // stable_sort, given what the allocator returned. With a buffer of size zero the
  // source does not end, and that is the only case left out.
  method StableSort<T(!new), K>(order: Order<T, K>, a: array<T>, first: nat, last: nat, buf: array<T>, granted: Buffer)
    returns (end: nat)
    requires StrictWeak(order) && first <= last <= a.Length && a != buf && granted.size <= buf.Length
    requires last - first > BUFFER_FROM && !granted.isNull ==> granted.size > 0
    modifies a, buf
    ensures end == last && StablySorted(order, old(a[first..last]), a[first..last])
    ensures SameOutside(old(a[..]), a, first, last)
    ensures SameOutside(old(buf[..]), buf, 0, if last - first > 256 && !granted.isNull then granted.size else 0)
  {
    ghost var s := a[first..last];
    var len := last - first;
    var isNull := if len > BUFFER_FROM then granted.isNull else true;
    if isNull {
      InplaceStableSort(order, a, first, last, buf);
    } else {
      AdaptiveEnds(len, granted.size);
      StableSortAdaptive(order, a, first, last, buf, granted.size);
    }
    SortIsStable(order, s);
    return last;
  }

  // The call of stable_sort_adaptive that stable_sort makes ends exactly if the
  // buffer is not one of size zero.
  lemma StableSortEnds(len: nat, granted: Buffer)
    ensures (len > BUFFER_FROM && !granted.isNull ==> Ends(len, granted.size))
      <==> (len > BUFFER_FROM && !granted.isNull ==> granted.size > 0)
  {
    AdaptiveEnds(len, granted.size);
  }

  // So it ends exactly if the allocator grants nothing or something larger first.
  lemma StableSortExact(len: nat, limit: nat, grants: nat -> bool)
    requires len > BUFFER_FROM && limit > 0
    ensures var n := if len > limit then limit else len;
      var granted := Requested(n, grants);
      (granted.isNull || Ends(len, granted.size))
      <==> !grants(1) || !NothingLarger(n, grants)
  {
    var n := if len > limit then limit else len;
    var granted := Requested(n, grants);
    assert granted == Buffer(granted.isNull, granted.size);
    AdaptiveEnds(len, granted.size);
    EmptyBuffer(n, grants);
    if granted.isNull {
      RequestedNull(n, grants);
    }
  }

  lemma {:induction false} RequestedNull(n: nat, grants: nat -> bool)
    requires Requested(n, grants).isNull
    ensures Requested(n, grants).size == 0 && (n > 0 ==> !grants(1))
  {
    if n > 1 {
      RequestedNull(n / 2, grants);
    }
  }
}
