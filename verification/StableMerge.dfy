// What a stable merge is, independently of how it is computed in place.
module StableMerge {
  // A comparison of projected elements.
  datatype Order<!T, !K> = Order(pred: (K, K) -> bool, proj: T -> K) {
    predicate Less(x: T, y: T) {
      pred(proj(x), proj(y))
    }

    // not_fn applied to the comparison
    function Negated(): Order<T, K> {
      Order((x, y) => !pred(x, y), proj)
    }
  }

  ghost predicate StrictWeak<T(!new), K>(o: Order<T, K>) {
    && (forall x, y :: o.Less(x, y) ==> !o.Less(y, x))
    && (forall x, y, z {:trigger o.Less(x, z), o.Less(y, z)} {:trigger o.Less(x, z), o.Less(x, y)} ::
          o.Less(x, z) ==> o.Less(x, y) || o.Less(y, z))
  }

  lemma CoTransitive<T(!new), K>(o: Order<T, K>, x: T, y: T, z: T)
    requires StrictWeak(o) && o.Less(x, z)
    ensures o.Less(x, y) || o.Less(y, z)
  {
  }

  lemma NotLessTransitive<T(!new), K>(o: Order<T, K>, x: T, y: T, z: T)
    requires StrictWeak(o) && !o.Less(x, y) && !o.Less(y, z)
    ensures !o.Less(x, z)
  {
    if o.Less(x, z) {
      CoTransitive(o, x, y, z);
    }
  }

  ghost predicate Sorted<T, K>(o: Order<T, K>, s: seq<T>) {
    forall i, j :: 0 <= i < j < |s| ==> !o.Less(s[j], s[i])
  }

  // Takes from the second run only what is strictly less than the head of the first.
  ghost function Merged<T, K>(o: Order<T, K>, xs: seq<T>, ys: seq<T>): (r: seq<T>)
    ensures |r| == |xs| + |ys|
  {
    if xs == [] then ys
    else if ys == [] then xs
    else if o.Less(ys[0], xs[0]) then [ys[0]] + Merged(o, xs, ys[1..])
    else [xs[0]] + Merged(o, xs[1..], ys)
  }

  lemma {:induction false} MergedMultiset<T, K>(o: Order<T, K>, xs: seq<T>, ys: seq<T>)
    ensures multiset(Merged(o, xs, ys)) == multiset(xs) + multiset(ys)
  {
    if xs != [] && ys != [] {
      if o.Less(ys[0], xs[0]) {
        MergedMultiset(o, xs, ys[1..]);
        MultisetHead(ys);
        MultisetHead([ys[0]] + Merged(o, xs, ys[1..]));
      } else {
        MergedMultiset(o, xs[1..], ys);
        MultisetHead(xs);
        MultisetHead([xs[0]] + Merged(o, xs[1..], ys));
      }
    }
  }

  lemma MultisetHead<T>(s: seq<T>)
    requires s != []
    ensures multiset(s) == multiset{s[0]} + multiset(s[1..])
  {
    assert s == [s[0]] + s[1..];
  }

  // No element of the second sequence is less than one of the first.
  ghost predicate NoneLess<T, K>(o: Order<T, K>, xs: seq<T>, ys: seq<T>) {
    forall x, y :: x in xs && y in ys ==> !o.Less(y, x)
  }

  lemma {:induction false} SortedCons<T, K>(o: Order<T, K>, x: T, s: seq<T>)
    requires Sorted(o, s) && NoneLess(o, [x], s)
    ensures Sorted(o, [x] + s)
  {
    assert forall k :: 0 <= k < |s| ==> s[k] in s;
    assert x in [x];
  }

  lemma {:induction false} SortedHead<T, K>(o: Order<T, K>, s: seq<T>)
    requires Sorted(o, s) && s != []
    ensures Sorted(o, s[1..]) && NoneLess(o, [s[0]], s[1..])
  {
  }

  lemma {:induction false} MergedSorted<T(!new), K>(o: Order<T, K>, xs: seq<T>, ys: seq<T>)
    requires StrictWeak(o) && Sorted(o, xs) && Sorted(o, ys)
    ensures Sorted(o, Merged(o, xs, ys))
  {
    if xs != [] && ys != [] {
      SortedHead(o, xs);
      SortedHead(o, ys);
      if o.Less(ys[0], xs[0]) {
        MergedSorted(o, xs, ys[1..]);
        MergedMember(o, xs, ys[1..]);
        HeadBelow(o, ys[0], xs);
        SortedCons(o, ys[0], Merged(o, xs, ys[1..]));
      } else {
        MergedSorted(o, xs[1..], ys);
        MergedMember(o, xs[1..], ys);
        HeadBelow(o, xs[0], ys);
        SortedCons(o, xs[0], Merged(o, xs[1..], ys));
      }
    }
  }

  // What is not above the head of a sorted run is not above any of its elements.
  lemma HeadBelow<T(!new), K>(o: Order<T, K>, x: T, s: seq<T>)
    requires StrictWeak(o) && Sorted(o, s) && s != [] && !o.Less(s[0], x)
    ensures NoneLess(o, [x], s)
  {
    forall y | y in s ensures !o.Less(y, x) {
      var i :| 0 <= i < |s| && s[i] == y;
      assert i > 0 ==> !o.Less(s[i], s[0]);
    }
  }

  lemma {:induction false} MergedMember<T, K>(o: Order<T, K>, xs: seq<T>, ys: seq<T>)
    ensures forall z :: z in Merged(o, xs, ys) <==> z in xs || z in ys
  {
    MergedMultiset(o, xs, ys);
    forall z ensures z in Merged(o, xs, ys) <==> z in xs || z in ys {
      assert z in Merged(o, xs, ys) <==> z in multiset(Merged(o, xs, ys));
    }
  }

  // ---- stability ----

  predicate Peer<T, K>(o: Order<T, K>, z: T, x: T) {
    !o.Less(x, z) && !o.Less(z, x)
  }

  // The elements equivalent to z, in their order.
  ghost function Peers<T, K>(o: Order<T, K>, z: T, s: seq<T>): seq<T> {
    if s == [] then []
    else (if Peer(o, z, s[0]) then [s[0]] else []) + Peers(o, z, s[1..])
  }

  // Equivalent elements keep their order, those of the first run in front.
  lemma {:induction false} MergedStable<T(!new), K>(o: Order<T, K>, z: T, xs: seq<T>, ys: seq<T>)
    requires StrictWeak(o) && Sorted(o, xs) && Sorted(o, ys)
    ensures Peers(o, z, Merged(o, xs, ys)) == Peers(o, z, xs) + Peers(o, z, ys)
  {
    if xs != [] && ys != [] {
      SortedHead(o, xs);
      SortedHead(o, ys);
      var m := Merged(o, xs, ys);
      if o.Less(ys[0], xs[0]) {
        assert m[1..] == Merged(o, xs, ys[1..]);
        MergedStable(o, z, xs, ys[1..]);
        if Peer(o, z, ys[0]) {
          NoPeersAbove(o, z, ys[0], xs);
        }
      } else {
        assert m[1..] == Merged(o, xs[1..], ys);
        MergedStable(o, z, xs[1..], ys);
      }
    }
  }

  lemma {:induction false} NoPeersAbove<T(!new), K>(o: Order<T, K>, z: T, y: T, s: seq<T>)
    requires StrictWeak(o) && Sorted(o, s) && Peer(o, z, y) && (s != [] ==> o.Less(y, s[0]))
    ensures Peers(o, z, s) == []
  {
    if s != [] {
      SortedHead(o, s);
      CoTransitive(o, y, z, s[0]);
      if |s| > 1 {
        CoTransitive(o, y, s[1], s[0]);
      }
      NoPeersAbove(o, z, y, s[1..]);
    }
  }

  lemma {:induction false} PeersMember<T, K>(o: Order<T, K>, z: T, s: seq<T>)
    ensures forall p :: p in Peers(o, z, s) ==> p in s && Peer(o, z, p)
    ensures (exists x :: x in s && Peer(o, z, x)) ==> Peers(o, z, s) != []
  {
    if s != [] {
      PeersMember(o, z, s[1..]);
    }
  }

  lemma HeadPeer<T(!new), K>(o: Order<T, K>, s: seq<T>)
    requires StrictWeak(o) && s != []
    ensures Peers(o, s[0], s) != [] && Peers(o, s[0], s)[0] == s[0]
  {
  }

  // Sorted sequences with the same equivalent elements in the same order are
  // equal: there is only one stable sorted arrangement.
  lemma {:induction false} StableSortUnique<T(!new), K>(o: Order<T, K>, s: seq<T>, t: seq<T>)
    requires StrictWeak(o) && Sorted(o, s) && Sorted(o, t)
    requires forall z :: Peers(o, z, s) == Peers(o, z, t)
    ensures s == t
  {
    if s == [] || t == [] {
      if s != [] {
        HeadPeer(o, s);
      } else if t != [] {
        HeadPeer(o, t);
      }
    } else {
      HeadNotAbove(o, s, t);
      HeadNotAbove(o, t, s);
      HeadPeer(o, s);
      assert Peers(o, s[0], t)[0] == t[0];
      SortedHead(o, s);
      SortedHead(o, t);
      forall z ensures Peers(o, z, s[1..]) == Peers(o, z, t[1..]) {
        var head := if Peer(o, z, s[0]) then [s[0]] else [];
        assert Peers(o, z, s) == head + Peers(o, z, s[1..]);
        assert Peers(o, z, t) == head + Peers(o, z, t[1..]);
        assert Peers(o, z, s)[|head|..] == Peers(o, z, s[1..]);
        assert Peers(o, z, t)[|head|..] == Peers(o, z, t[1..]);
      }
      StableSortUnique(o, s[1..], t[1..]);
    }
  }

  lemma HeadNotAbove<T(!new), K>(o: Order<T, K>, s: seq<T>, t: seq<T>)
    requires StrictWeak(o) && Sorted(o, s) && s != [] && t != []
    requires forall z :: Peers(o, z, s) == Peers(o, z, t)
    ensures !o.Less(t[0], s[0])
  {
    HeadPeer(o, t);
    var p := Peers(o, t[0], s)[0];
    PeersMember(o, t[0], s);
    assert p in Peers(o, t[0], s);
    var i :| 0 <= i < |s| && s[i] == p;
    assert !o.Less(s[i], s[0]);
  }

  // ---- merging in two halves ----

  // Runs cut so that nothing behind the cut belongs before it merge half by half.
  lemma {:induction false} MergedHalves<T, K>(o: Order<T, K>, x1: seq<T>, x2: seq<T>, y1: seq<T>, y2: seq<T>)
    requires NoneLess(o, x1, y2)
    requires forall x, y :: x in x2 && y in y1 ==> o.Less(y, x)
    ensures Merged(o, x1 + x2, y1 + y2) == Merged(o, x1, y1) + Merged(o, x2, y2)
  {
    var xs, ys := x1 + x2, y1 + y2;
    if x1 == [] && y1 == [] {
      assert xs == x2 && ys == y2;
    } else if y1 != [] && (x1 == [] || o.Less(y1[0], x1[0])) {
      assert ys[1..] == y1[1..] + y2;
      MergedHalves(o, x1, x2, y1[1..], y2);
      if x1 == [] {
        assert xs == x2;
      }
      assert x1 == [] ==> Merged(o, x1, y1) == [y1[0]] + Merged(o, x1, y1[1..]);
    } else {
      assert xs[1..] == x1[1..] + x2;
      MergedHalves(o, x1[1..], x2, y1, y2);
      if y1 == [] {
        assert ys == y2;
      }
      assert y1 == [] ==> Merged(o, x1, y1) == [x1[0]] + Merged(o, x1[1..], y1);
    }
  }

  // ---- merging from the back ----

  ghost function Reverse<T>(s: seq<T>): (r: seq<T>)
    ensures |r| == |s|
    ensures forall i :: 0 <= i < |s| ==> r[i] == s[|s| - 1 - i]
  {
    if s == [] then [] else Reverse(s[1..]) + [s[0]]
  }

  ghost function Front<T>(s: seq<T>): seq<T>
    requires s != []
  {
    s[..|s| - 1]
  }

  ghost function Back<T>(s: seq<T>): T
    requires s != []
  {
    s[|s| - 1]
  }

  // The greatest element, taken from the second run unless the first has a greater one, comes last.
  ghost predicate SplitsAtBack<T, K>(o: Order<T, K>, xs: seq<T>, ys: seq<T>)
    requires xs != [] && ys != []
  {
    Merged(o, xs, ys) ==
      if o.Less(Back(ys), Back(xs)) then Merged(o, Front(xs), ys) + [Back(xs)]
      else Merged(o, xs, Front(ys)) + [Back(ys)]
  }

  lemma {:induction false} MergedBack<T(!new), K>(o: Order<T, K>, xs: seq<T>, ys: seq<T>)
    requires StrictWeak(o) && Sorted(o, xs) && Sorted(o, ys) && xs != [] && ys != []
    ensures SplitsAtBack(o, xs, ys)
  {
    if o.Less(ys[0], xs[0]) {
      if |ys| > 1 {
        MergedBack(o, xs, ys[1..]);
        BackAfterSecond(o, xs, ys);
      } else {
        if |xs| > 1 {
          CoTransitive(o, ys[0], Back(xs), xs[0]);
        }
        MergedSingleBefore(o, xs, ys[0]);
      }
    } else {
      if |xs| > 1 {
        MergedBack(o, xs[1..], ys);
        BackAfterFirst(o, xs, ys);
      } else {
        if |ys| > 1 && o.Less(Back(ys), xs[0]) {
          CoTransitive(o, Back(ys), ys[0], xs[0]);
        }
        MergedSingleAfter(o, xs[0], ys);
      }
    }
  }

  lemma {:induction false} BackAfterSecond<T, K>(o: Order<T, K>, xs: seq<T>, ys: seq<T>)
    requires xs != [] && |ys| > 1 && o.Less(ys[0], xs[0]) && SplitsAtBack(o, xs, ys[1..])
    ensures SplitsAtBack(o, xs, ys)
  {
    if o.Less(Back(ys), Back(xs)) {
      assert Merged(o, Front(xs), ys) == [ys[0]] + Merged(o, Front(xs), ys[1..]);
    } else {
      assert Front(ys)[1..] == Front(ys[1..]);
      assert Merged(o, xs, Front(ys)) == [ys[0]] + Merged(o, xs, Front(ys[1..]));
    }
  }

  lemma {:induction false} BackAfterFirst<T, K>(o: Order<T, K>, xs: seq<T>, ys: seq<T>)
    requires |xs| > 1 && ys != [] && !o.Less(ys[0], xs[0]) && SplitsAtBack(o, xs[1..], ys)
    ensures SplitsAtBack(o, xs, ys)
  {
    if o.Less(Back(ys), Back(xs)) {
      assert Front(xs)[1..] == Front(xs[1..]);
      assert Merged(o, Front(xs), ys) == [xs[0]] + Merged(o, Front(xs[1..]), ys);
    } else {
      assert Merged(o, xs, Front(ys)) == [xs[0]] + Merged(o, xs[1..], Front(ys));
    }
  }

  lemma MergedSingleBefore<T, K>(o: Order<T, K>, xs: seq<T>, y: T)
    requires xs != [] && o.Less(y, xs[0])
    ensures Merged(o, xs, [y]) == [y] + xs
    ensures Merged(o, Front(xs), [y]) + [Back(xs)] == [y] + xs
  {
    assert xs == Front(xs) + [Back(xs)];
    if |xs| > 1 {
      assert Front(xs)[0] == xs[0];
    }
  }

  lemma MergedSingleAfter<T, K>(o: Order<T, K>, x: T, ys: seq<T>)
    requires ys != [] && !o.Less(ys[0], x)
    ensures Merged(o, [x], ys) == [x] + ys
    ensures Merged(o, [x], Front(ys)) + [Back(ys)] == [x] + ys
  {
    assert ys == Front(ys) + [Back(ys)];
    if |ys| > 1 {
      assert Front(ys)[0] == ys[0];
    }
  }

  // Merging the reversed runs under the negated comparison gives the reversed merge.
  lemma {:induction false} MergedReversed<T(!new), K>(o: Order<T, K>, xs: seq<T>, ys: seq<T>)
    requires StrictWeak(o) && Sorted(o, xs) && Sorted(o, ys)
    ensures Merged(o.Negated(), Reverse(xs), Reverse(ys)) == Reverse(Merged(o, xs, ys))
  {
    if xs != [] && ys != [] {
      MergedBack(o, xs, ys);
      ReverseBack(xs);
      ReverseBack(ys);
      if o.Less(Back(ys), Back(xs)) {
        MergedReversed(o, Front(xs), ys);
        ReverseBack(Merged(o, Front(xs), ys) + [Back(xs)]);
        assert Front(Merged(o, Front(xs), ys) + [Back(xs)]) == Merged(o, Front(xs), ys);
      } else {
        MergedReversed(o, xs, Front(ys));
        ReverseBack(Merged(o, xs, Front(ys)) + [Back(ys)]);
        assert Front(Merged(o, xs, Front(ys)) + [Back(ys)]) == Merged(o, xs, Front(ys));
      }
    }
  }

  lemma ReverseBack<T>(s: seq<T>)
    requires s != []
    ensures Reverse(s) == [Back(s)] + Reverse(Front(s))
  {
  }
}
