// Drawing a number below a bound and shuffling, from a source of random words.
module Draws {
  import opened Modular
  import opened Sequences

  // ---- bounded_rand ----

  // Words narrower than this are computed with as signed integers.
  const INT_BITS := 32

  // Division of signed integers truncates toward zero.
  function Remainder(x: int, d: nat): int
    requires d > 0
  {
    if x >= 0 then x % d else -((-x) % d)
  }

  // The threshold as the source computes it for words of the given width; range
  // is how many values the generator has. Wide words wrap around, a whole range
  // to zero; narrow ones are promoted, and only the result becomes a word again.
  function Threshold(width: nat, range: nat, upper: nat): nat
    requires upper > 0
  {
    if width < INT_BITS then Remainder(range - upper, upper) % Pow2(width)
    else ((range % Pow2(width) - upper) % Pow2(width)) % upper
  }

  // Either way it is what the range leaves when divided by a bound within it.
  lemma ThresholdRemainder(width: nat, range: nat, upper: nat)
    requires 0 < upper <= range <= Pow2(width)
    ensures Threshold(width, range, upper) == range % upper
  {
    OneLess(range, upper);
    if width < INT_BITS {
      QuotientUnique(Pow2(width), 0, range % upper);
    } else {
      WrappedDifference(Pow2(width), range, upper);
    }
  }

  // With a bound beyond the range wide words wrap around below zero, and narrow ones
  // end above every draw.
  lemma ThresholdBeyond(width: nat, range: nat, upper: nat)
    requires 0 < range < upper < Pow2(width)
    ensures width >= 32 ==> Threshold(width, range, upper) == (Pow2(width) - (upper - range)) % upper
    ensures width < 32 ==> range < Threshold(width, range, upper) == Pow2(width) - (upper - range)
  {
    QuotientUnique(Pow2(width), -1, Pow2(width) - (upper - range));
    QuotientUnique(Pow2(width), 0, range);
    QuotientUnique(upper, 0, upper - range);
  }

  lemma WrappedDifference(m: nat, range: nat, upper: nat)
    requires 0 < upper <= range <= m
    ensures (range % m - upper) % m == range - upper
  {
    if range == m {
      QuotientUnique(m, 1, 0);
      QuotientUnique(m, -1, m - upper);
    } else {
      QuotientUnique(m, 0, range);
      QuotientUnique(m, 0, range - upper);
    }
  }

  lemma OneLess(x: nat, d: nat)
    requires 0 < d <= x
    ensures (x - d) % d == x % d
  {
    QuotientUnique(d, x / d - 1, x % d);
    assert d * (x / d - 1) == d * (x / d) - d;
  }

  // The draws that give k.
  ghost function Giving(low: nat, high: nat, upper: nat, k: nat): set<nat>
    requires upper > 0
  {
    set r: nat | low <= r < high && r % upper == k
  }

  lemma {:induction false} GivingBlock(low: nat, upper: nat, k: nat)
    requires k < upper
    ensures |Giving(low, low + upper, upper, k)| == 1
  {
    var x := Residue(low, upper, k);
    forall r: nat | low <= r < low + upper && r % upper == k ensures r == x {
      SameResidue(upper, r, x);
    }
    assert Giving(low, low + upper, upper, k) == {x};
  }

  // Among consecutive numbers as many as the divisor each residue occurs.
  lemma Residue(low: nat, d: nat, k: nat) returns (x: nat)
    requires k < d
    ensures low <= x < low + d && x % d == k
  {
    var q, s := low / d, low % d;
    Spread(d, q, 1);
    if k >= s {
      x := d * q + k;
      QuotientUnique(d, q, k);
    } else {
      x := d * (q + 1) + k;
      QuotientUnique(d, q + 1, k);
    }
  }

  lemma SameResidue(d: nat, x: nat, y: nat)
    requires d > 0 && x % d == y % d && x < y + d && y < x + d
    ensures x == y
  {
    if x / d > y / d {
      MultipleGap(d, x / d, y / d);
    } else if x / d < y / d {
      MultipleGap(d, y / d, x / d);
    }
  }

  lemma {:induction false} GivingBlocks(low: nat, upper: nat, k: nat, blocks: nat)
    requires k < upper
    ensures |Giving(low, low + upper * blocks, upper, k)| == blocks
  {
    if blocks == 0 {
      assert upper * 0 == 0;
      assert Giving(low, low, upper, k) == {};
    } else {
      var middle := low + upper * (blocks - 1);
      assert upper * blocks == upper * (blocks - 1) + upper;
      GivingBlocks(low, upper, k, blocks - 1);
      GivingBlock(middle, upper, k);
      assert Giving(low, middle + upper, upper, k)
        == Giving(low, middle, upper, k) + Giving(middle, middle + upper, upper, k);
    }
  }

  // The draws that bounded_rand accepts and makes k of.
  ghost function Accepting(width: nat, range: nat, upper: nat, k: nat): set<nat>
    requires upper > 0
  {
    Giving(Threshold(width, range, upper), range, upper, k)
  }

  lemma UniformAbove(low: nat, high: nat, upper: nat, k: nat, blocks: nat)
    requires k < upper && high == upper * blocks + low
    ensures |Giving(low, high, upper, k)| == blocks
  {
    GivingBlocks(low, upper, k, blocks);
  }

  lemma UniformRemainder(range: nat, upper: nat, k: nat)
    requires k < upper
    ensures |Giving(range % upper, range, upper, k)| == range / upper && range % upper < upper
  {
    var q, r := range / upper, range % upper;
    assert range == upper * q + r;
    UniformAbove(r, range, upper, k, q);
  }

  // Every result below the bound is given by the same number of accepted draws,
  // and fewer draws than the bound are refused.
  lemma Uniform(width: nat, range: nat, upper: nat, k: nat)
    requires 0 < upper <= range <= Pow2(width) && k < upper
    ensures |Accepting(width, range, upper, k)| == range / upper
    ensures Threshold(width, range, upper) < upper
  {
    ThresholdRemainder(width, range, upper);
    UniformRemainder(range, upper, k);
  }

  // Of the draws from low on no result below the bound is given by more than another.
  ghost predicate Unbiased(low: nat, high: nat, upper: nat)
    requires upper > 0
  {
    forall k: nat, k': nat :: k < upper && k' < upper ==>
      |Giving(low, high, upper, k)| == |Giving(low, high, upper, k')|
  }

  // That is so exactly if the bound is within the range, or if every draw is refused.
  lemma UniformExact(width: nat, range: nat, upper: nat)
    requires 0 < upper && 0 < range <= Pow2(width)
    ensures Unbiased(Threshold(width, range, upper), range, upper)
      <==> upper <= range || range <= Threshold(width, range, upper)
  {
    if upper <= range {
      forall k: nat | k < upper ensures |Giving(Threshold(width, range, upper), range, upper, k)| == range / upper {
        Uniform(width, range, upper, k);
      }
    } else {
      UnbiasedBeyond(Threshold(width, range, upper), range, upper);
    }
  }

  lemma UnbiasedBeyond(low: nat, high: nat, upper: nat)
    requires high < upper
    ensures Unbiased(low, high, upper) <==> high <= low
  {
    if high <= low {
      forall k: nat | k < upper ensures Giving(low, high, upper, k) == {} {
        NoneGive(low, high, upper, k);
      }
    } else {
      BeyondRange(low, high, upper);
    }
  }

  lemma NoneGive(low: nat, high: nat, upper: nat, k: nat)
    requires high <= low && upper > 0
    ensures Giving(low, high, upper, k) == {}
  {
  }

  // Draws below the bound are their own results.
  lemma BeyondRange(low: nat, high: nat, upper: nat)
    requires low < high < upper
    ensures |Giving(low, high, upper, low)| > 0 && Giving(low, high, upper, upper - 1) == {}
  {
    forall r: nat | low <= r < high ensures r % upper == r {
      QuotientUnique(upper, 0, r);
    }
    assert low in Giving(low, high, upper, low);
  }

  // bounded_rand over the draws from position at on: the first accepted one
  // modulo the bound. Without one it would go on drawing.
  method BoundedRand(draws: seq<nat>, at: nat, width: nat, range: nat, upper: nat)
    returns (found: bool, r: nat, next: nat)
    requires 0 < upper < Pow2(width) && range <= Pow2(width)
    requires at <= |draws| && forall i :: at <= i < |draws| ==> draws[i] < range
    ensures at <= next <= |draws|
    ensures forall i :: at <= i < (if found then next - 1 else next) ==> draws[i] < Threshold(width, range, upper)
    ensures if found then at < next && Threshold(width, range, upper) <= draws[next - 1] else next == |draws|
    ensures found ==> r == draws[next - 1] % upper < upper && draws[next - 1] in Accepting(width, range, upper, r)
  {
    var threshold := Threshold(width, range, upper);
    found, r, next := false, 0, at;
    while next < |draws|
      invariant at <= next <= |draws| && forall i :: at <= i < next ==> draws[i] < threshold
    {
      var draw := draws[next];
      next := next + 1;
      if draw >= threshold {
        return true, draw % upper, next;
      }
    }
  }

  // ---- shuffle ----

  // One choice for every count from the number of elements down to two.
  ghost predicate Choices(choices: seq<nat>, count: nat) {
    && |choices| == (if count > 1 then count - 1 else 0)
    && forall i :: 0 <= i < |choices| ==> choices[i] < count - i
  }

  // What the choices make of the first count elements.
  ghost function Shuffled<T>(s: seq<T>, choices: seq<nat>, count: nat): (r: seq<T>)
    requires count <= |s| && Choices(choices, count)
    ensures |r| == |s|
    decreases count
  {
    if count <= 1 then s else Shuffled(Swapped(s, choices[0], count - 1), choices[1..], count - 1)
  }

  lemma {:induction false} ShuffledRest<T>(s: seq<T>, choices: seq<nat>, count: nat, i: nat)
    requires count <= i < |s| && Choices(choices, count)
    ensures Shuffled(s, choices, count)[i] == s[i]
    decreases count
  {
    if count > 1 {
      ShuffledRest(Swapped(s, choices[0], count - 1), choices[1..], count - 1, i);
    }
  }

  // The first choice is the element that ends last.
  lemma ShuffledLast<T>(s: seq<T>, choices: seq<nat>, count: nat)
    requires 1 < count <= |s| && Choices(choices, count)
    ensures Shuffled(s, choices, count)[count - 1] == s[choices[0]]
  {
    ShuffledRest(Swapped(s, choices[0], count - 1), choices[1..], count - 1, count - 1);
  }

  // The result is a permutation.
  lemma {:induction false} ShuffledPermutes<T>(s: seq<T>, choices: seq<nat>, count: nat)
    requires count <= |s| && Choices(choices, count)
    ensures multiset(Shuffled(s, choices, count)) == multiset(s)
    decreases count
  {
    if count > 1 {
      ShuffledPermutes(Swapped(s, choices[0], count - 1), choices[1..], count - 1);
    }
  }

  // Different choices give different arrangements of distinct elements.
  lemma {:induction false} ShuffledInjective<T(!new)>(s: seq<T>, c: seq<nat>, d: seq<nat>, count: nat)
    requires count <= |s| && Choices(c, count) && Choices(d, count) && NoDup(s)
    requires Shuffled(s, c, count) == Shuffled(s, d, count)
    ensures c == d
    decreases count
  {
    if count > 1 {
      var last := count - 1;
      ShuffledRest(Swapped(s, c[0], last), c[1..], last, last);
      ShuffledRest(Swapped(s, d[0], last), d[1..], last, last);
      assert s[c[0]] == s[d[0]];
      SwappedDistinct(s, c[0], last);
      ShuffledInjective(Swapped(s, c[0], last), c[1..], d[1..], last);
      assert c == [c[0]] + c[1..] && d == [d[0]] + d[1..];
    }
  }

  lemma SwappedDistinct<T(!new)>(s: seq<T>, i: nat, j: nat)
    requires i < |s| && j < |s| && NoDup(s)
    ensures NoDup(Swapped(s, i, j))
  {
  }

  // Every arrangement comes from some choices.
  lemma {:induction false} ShuffledOnto<T(!new)>(s: seq<T>, t: seq<T>, count: nat) returns (choices: seq<nat>)
    requires count <= |s| && |t| == |s| && multiset(t[..count]) == multiset(s[..count]) && t[count..] == s[count..]
    ensures Choices(choices, count) && Shuffled(s, choices, count) == t
    decreases count
  {
    if count <= 1 {
      choices := [];
      if count == 1 {
        assert t[..1] == [t[0]] && s[..1] == [s[0]];
        assert t[0] in multiset(s[..1]);
      }
      assert s == s[..count] + s[count..] && t == t[..count] + t[count..];
    } else {
      var last := count - 1;
      var c := FindElement(s[..count], t[..count], last);
      var u := Swapped(s, c, last);
      SwappedPrefix(s, t, c, count);
      var rest := ShuffledOnto(u, t, last);
      choices := [c] + rest;
      assert choices[1..] == rest;
    }
  }

  lemma FindElement<T>(s: seq<T>, t: seq<T>, i: nat) returns (c: nat)
    requires multiset(t) == multiset(s) && i < |t|
    ensures c < |s| && s[c] == t[i]
  {
    assert t[i] in multiset(s);
    c :| 0 <= c < |s| && s[c] == t[i];
  }

  lemma SwappedPrefix<T>(s: seq<T>, t: seq<T>, c: nat, count: nat)
    requires 0 < count <= |s| && |t| == |s| && c < count && s[c] == t[count - 1]
    requires multiset(t[..count]) == multiset(s[..count]) && t[count..] == s[count..]
    ensures var u := Swapped(s, c, count - 1);
      multiset(t[..count - 1]) == multiset(u[..count - 1]) && t[count - 1..] == u[count - 1..]
  {
    var last := count - 1;
    SwappedFront(s, c, count);
    DropLast(t, Swapped(s, c, last), last);
    SwappedBack(s, t, c, count);
  }

  lemma SwappedFront<T>(s: seq<T>, c: nat, count: nat)
    requires c < count <= |s|
    ensures multiset(Swapped(s, c, count - 1)[..count]) == multiset(s[..count])
  {
    assert Swapped(s, c, count - 1)[..count] == Swapped(s[..count], c, count - 1);
    SwapPermutes(s[..count], c, count - 1);
  }

  lemma SwappedBack<T>(s: seq<T>, t: seq<T>, c: nat, count: nat)
    requires c < count <= |s| && |t| == |s| && s[c] == t[count - 1] && t[count..] == s[count..]
    ensures t[count - 1..] == Swapped(s, c, count - 1)[count - 1..]
  {
    forall i | count <= i < |s| ensures t[i] == s[i] {
      assert t[i] == t[count..][i - count] == s[count..][i - count] == s[i];
    }
  }

  lemma DropLast<T>(t: seq<T>, u: seq<T>, last: nat)
    requires last < |t| == |u| && t[last] == u[last] && multiset(t[..last + 1]) == multiset(u[..last + 1])
    ensures multiset(t[..last]) == multiset(u[..last])
  {
    assert t[..last + 1] == t[..last] + [t[last]];
    assert u[..last + 1] == u[..last] + [u[last]];
    assert multiset(t[..last]) == multiset(t[..last + 1]) - multiset{t[last]};
    assert multiset(u[..last]) == multiset(u[..last + 1]) - multiset{u[last]};
  }

  // ---- shuffle over draws ----

  // Where the first draw from position at on stands that is not refused.
  ghost function FirstAccepted(draws: seq<nat>, at: nat, low: nat): (i: nat)
    requires at <= |draws|
    ensures at <= i <= |draws|
    decreases |draws| - at
  {
    if at == |draws| || low <= draws[at] then at else FirstAccepted(draws, at + 1, low)
  }

  lemma {:induction false} FirstAcceptedIs(draws: seq<nat>, at: nat, low: nat, i: nat)
    requires at <= i <= |draws| && forall j :: at <= j < i ==> draws[j] < low
    requires i < |draws| ==> low <= draws[i]
    ensures FirstAccepted(draws, at, low) == i
    decreases i - at
  {
    if at < i {
      FirstAcceptedIs(draws, at + 1, low, i);
    }
  }

  // The draws that a shuffle of count elements accepts, as far as they suffice.
  ghost function Taken(draws: seq<nat>, at: nat, width: nat, range: nat, count: nat): seq<nat>
    requires at <= |draws|
    decreases count
  {
    if count <= 1 then []
    else
      var i := FirstAccepted(draws, at, Threshold(width, range, count));
      if i == |draws| then [] else [draws[i]] + Taken(draws, i + 1, width, range, count - 1)
  }

  ghost function Rounds(count: nat): nat {
    if count > 1 then count - 1 else 0
  }

  // One draw for every count down to two, none of them refused.
  ghost predicate Accepted(taken: seq<nat>, width: nat, range: nat, count: nat) {
    && |taken| == Rounds(count)
    && forall i :: 0 <= i < |taken| ==> Threshold(width, range, count - i) <= taken[i] < range
  }

  ghost function ChoicesOf(taken: seq<nat>, count: nat): (choices: seq<nat>)
    requires |taken| == Rounds(count)
    ensures Choices(choices, count)
  {
    seq(|taken|, i requires 0 <= i < |taken| => taken[i] % (count - i))
  }

  lemma ChoicesOfRest(taken: seq<nat>, count: nat)
    requires |taken| == Rounds(count) && count > 1
    ensures ChoicesOf(taken, count) == [taken[0] % count] + ChoicesOf(taken[1..], count - 1)
  {
  }

  // The draws suffice for a shuffle of count elements.
  ghost predicate Suffice(draws: seq<nat>, at: nat, width: nat, range: nat, count: nat)
    requires at <= |draws|
  {
    |Taken(draws, at, width, range, count)| == Rounds(count)
  }

  // Where the generator stands after them.
  ghost function Stop(draws: seq<nat>, at: nat, width: nat, range: nat, count: nat): (i: nat)
    requires at <= |draws|
    ensures at <= i <= |draws|
    decreases count
  {
    if count <= 1 then at
    else
      var i := FirstAccepted(draws, at, Threshold(width, range, count));
      if i == |draws| then i else Stop(draws, i + 1, width, range, count - 1)
  }

  lemma {:induction false} FirstAcceptedWithin(draws: seq<nat>, at: nat, low: nat, k: nat)
    requires at <= k <= |draws|
    ensures FirstAccepted(draws[..k], at, low)
      == if FirstAccepted(draws, at, low) < k then FirstAccepted(draws, at, low) else k
    decreases k - at
  {
    if at < k && draws[at] < low {
      FirstAcceptedWithin(draws, at + 1, low, k);
    }
  }

  // The draws up to k suffice exactly if all do and the generator has stopped by then.
  lemma {:induction false} SufficeWithin(draws: seq<nat>, at: nat, width: nat, range: nat, count: nat, k: nat)
    requires at <= k <= |draws|
    ensures Suffice(draws[..k], at, width, range, count)
      <==> Suffice(draws, at, width, range, count) && Stop(draws, at, width, range, count) <= k
    decreases count
  {
    if count > 1 {
      var low := Threshold(width, range, count);
      var i := FirstAccepted(draws, at, low);
      FirstAcceptedWithin(draws, at, low, k);
      if i < k {
        SufficeWithin(draws, i + 1, width, range, count - 1, k);
        assert draws[..k][i] == draws[i];
      }
    }
  }

  // What the draws make of the first count elements.
  ghost function DrawnShuffle<T>(s: seq<T>, draws: seq<nat>, at: nat, width: nat, range: nat, count: nat): seq<T>
    requires at <= |draws| && count <= |s| && Suffice(draws, at, width, range, count)
  {
    Shuffled(s, ChoicesOf(Taken(draws, at, width, range, count), count), count)
  }

  // One turn: the draw that is accepted chooses what is swapped to the end.
  lemma {:induction false} DrawnTurn<T>(s: seq<T>, draws: seq<nat>, at: nat, width: nat, range: nat,
                                        count: nat, next: nat)
    requires at < next <= |draws| && 1 < count <= |s|
    requires FirstAccepted(draws, at, Threshold(width, range, count)) == next - 1
    ensures Suffice(draws, at, width, range, count) <==> Suffice(draws, next, width, range, count - 1)
    ensures Stop(draws, at, width, range, count) == Stop(draws, next, width, range, count - 1)
    ensures Suffice(draws, at, width, range, count) ==>
      DrawnShuffle(s, draws, at, width, range, count)
        == DrawnShuffle(Swapped(s, draws[next - 1] % count, count - 1), draws, next, width, range, count - 1)
  {
    var taken := Taken(draws, at, width, range, count);
    assert taken[1..] == Taken(draws, next, width, range, count - 1);
    if Suffice(draws, at, width, range, count) {
      ChoicesOfRest(taken, count);
      var choices := ChoicesOf(taken, count);
      assert choices[1..] == ChoicesOf(taken[1..], count - 1);
    }
  }

  // The loop of shuffle on its way from s: what remains to be drawn for the
  // first count elements of r makes of r what all draws make of s.
  ghost predicate Shuffling<T>(s: seq<T>, r: seq<T>, draws: seq<nat>, at: nat, next: nat,
                               width: nat, range: nat, count: nat) {
    && at <= next <= |draws| && count <= |r| == |s| && multiset(r) == multiset(s)
    && Stop(draws, at, width, range, |s|) == Stop(draws, next, width, range, count)
    && (Suffice(draws, at, width, range, |s|) <==> Suffice(draws, next, width, range, count))
    && (Suffice(draws, next, width, range, count) ==>
          DrawnShuffle(r, draws, next, width, range, count) == DrawnShuffle(s, draws, at, width, range, |s|))
  }

  lemma {:induction false} ShufflingTurn<T>(s: seq<T>, r: seq<T>, draws: seq<nat>, at: nat, from: nat,
                                            width: nat, range: nat, count: nat, next: nat)
    requires Shuffling(s, r, draws, at, from, width, range, count) && 1 < count && from < next <= |draws|
    requires FirstAccepted(draws, from, Threshold(width, range, count)) == next - 1
    ensures Shuffling(s, Swapped(r, draws[next - 1] % count, count - 1), draws, at, next, width, range, count - 1)
  {
    DrawnTurn(r, draws, from, width, range, count, next);
    SwapPermutes(r, draws[next - 1] % count, count - 1);
  }

  // The draws up to next suffice, and no fewer do.
  ghost predicate StopsAt(draws: seq<nat>, at: nat, width: nat, range: nat, count: nat, next: nat)
    requires at <= next <= |draws|
  {
    && Suffice(draws[..next], at, width, range, count)
    && forall k :: at <= k < next ==> !Suffice(draws[..k], at, width, range, count)
  }

  lemma StopIs(draws: seq<nat>, at: nat, width: nat, range: nat, count: nat)
    requires at <= |draws| && Suffice(draws, at, width, range, count)
    ensures StopsAt(draws, at, width, range, count, Stop(draws, at, width, range, count))
  {
    forall k | at <= k <= |draws| ensures Suffice(draws[..k], at, width, range, count)
        <==> Stop(draws, at, width, range, count) <= k
    {
      SufficeWithin(draws, at, width, range, count, k);
    }
  }

  // shuffle over the draws from position at on: if they suffice, each of the
  // accepted ones modulo the number of elements left is a choice. For arrays that
  // do not fit a word of the generator see DividesByZero.
  method Shuffle<T>(a: array<T>, draws: seq<nat>, at: nat, width: nat, range: nat) returns (done: bool, next: nat)
    requires a.Length < Pow2(width) && range <= Pow2(width)
    requires at <= |draws| && forall i :: 0 <= i < |draws| ==> draws[i] < range
    modifies a
    ensures at <= next <= |draws| && (done <==> Suffice(draws, at, width, range, a.Length))
    ensures done ==> a[..] == DrawnShuffle(old(a[..]), draws, at, width, range, a.Length)
    ensures if done then StopsAt(draws, at, width, range, a.Length, next) else next == |draws|
    ensures multiset(a[..]) == multiset(old(a[..]))
  {
    ghost var s := a[..];
    var count: nat := a.Length;
    next, done := at, true;
    while count > 1
      invariant done && Shuffling(s, a[..], draws, at, next, width, range, count)
    {
      done, next := ShuffleTurn(a, draws, next, width, range, count, s, at);
      if !done {
        return;
      }
      count := count - 1;
    }
    StopIs(draws, at, width, range, a.Length);
  }

  // One turn of that loop. The count becomes a word of the generator.
  method ShuffleTurn<T>(a: array<T>, draws: seq<nat>, from: nat, width: nat, range: nat, count: nat,
                        ghost s: seq<T>, ghost at: nat)
    returns (found: bool, next: nat)
    requires 1 < count < Pow2(width) && range <= Pow2(width) && forall i :: 0 <= i < |draws| ==> draws[i] < range
    requires Shuffling(s, a[..], draws, at, from, width, range, count)
    modifies a
    ensures from <= next <= |draws|
    ensures if found then Shuffling(s, a[..], draws, at, next, width, range, count - 1)
      else next == |draws| && !Suffice(draws, at, width, range, |s|) && a[..] == old(a[..])
  {
    var chosen;
    QuotientUnique(Pow2(width), 0, count);
    found, chosen, next := BoundedRand(draws, from, width, range, count % Pow2(width));
    FirstAcceptedIs(draws, from, Threshold(width, range, count), if found then next - 1 else next);
    if found {
      ghost var r := a[..];
      ShufflingTurn(s, r, draws, at, from, width, range, count, next);
      a[chosen], a[count - 1] := a[count - 1], a[chosen];
      assert a[..] == Swapped(r, chosen, count - 1);
    }
  }

  // The count is zero as a word of the generator, and bounded_rand divides by it.
  ghost predicate ZeroBound(width: nat, count: nat) {
    count % Pow2(width) == 0
  }

  // The loop comes to such a count exactly if the number of elements is no word.
  lemma DividesByZero(width: nat, elements: nat)
    requires width > 0
    ensures (exists count: nat :: 2 <= count <= elements && ZeroBound(width, count)) <==> elements >= Pow2(width)
  {
    var m := Pow2(width);
    assert m == 2 * Pow2(width - 1);
    if elements >= m {
      QuotientUnique(m, 1, 0);
      assert ZeroBound(width, m);
    } else {
      forall count: nat | 2 <= count <= elements ensures !ZeroBound(width, count) {
        QuotientUnique(m, 0, count);
      }
    }
  }

  // With the 8-bit generators 256 elements are too many.
  lemma DividesByZeroAt()
    ensures ZeroBound(8, 256)
  {
    assert Pow2(8) == 16 * Pow2(4) && Pow2(4) == 16;
  }

  // ---- every arrangement is equally likely ----

  // The accepted draws that give these choices.
  ghost function Drawings(width: nat, range: nat, choices: seq<nat>, count: nat): (d: set<seq<nat>>)
    requires Choices(choices, count)
    decreases count
  {
    if count <= 1 then {[]}
    else Prefixed(Accepting(width, range, count, choices[0]), Drawings(width, range, choices[1..], count - 1))
  }

  ghost function Prefixed(heads: set<nat>, tails: set<seq<nat>>): set<seq<nat>> {
    set h, t | h in heads && t in tails :: [h] + t
  }

  lemma {:induction false} DrawingsExact(width: nat, range: nat, choices: seq<nat>, count: nat, taken: seq<nat>)
    requires Choices(choices, count)
    ensures taken in Drawings(width, range, choices, count)
      <==> Accepted(taken, width, range, count) && ChoicesOf(taken, count) == choices
    decreases count
  {
    if count <= 1 {
      assert Accepted(taken, width, range, count) <==> taken == [];
    } else if taken != [] {
      var heads := Accepting(width, range, count, choices[0]);
      var tails := Drawings(width, range, choices[1..], count - 1);
      assert taken == [taken[0]] + taken[1..];
      PrefixedIn(heads, tails, taken[0], taken[1..]);
      DrawingsExact(width, range, choices[1..], count - 1, taken[1..]);
      AcceptedRest(taken, width, range, count);
      if Accepted(taken, width, range, count) {
        ChoicesOfRest(taken, count);
        assert choices == [choices[0]] + choices[1..];
      }
    }
  }

  lemma AcceptedRest(taken: seq<nat>, width: nat, range: nat, count: nat)
    requires count > 1 && taken != []
    ensures Accepted(taken, width, range, count)
      <==> Threshold(width, range, count) <= taken[0] < range && Accepted(taken[1..], width, range, count - 1)
  {
    if Accepted(taken[1..], width, range, count - 1) && Threshold(width, range, count) <= taken[0] < range {
      forall i | 0 <= i < |taken| ensures Threshold(width, range, count - i) <= taken[i] < range {
        assert i > 0 ==> taken[i] == taken[1..][i - 1];
      }
    }
  }

  lemma PrefixedIn(heads: set<nat>, tails: set<seq<nat>>, h: nat, t: seq<nat>)
    ensures [h] + t in Prefixed(heads, tails) <==> h in heads && t in tails
  {
    if [h] + t in Prefixed(heads, tails) {
      var h', t' :| h' in heads && t' in tails && [h'] + t' == [h] + t;
      assert h' == ([h'] + t')[0] == h && t' == ([h'] + t')[1..] == ([h] + t)[1..] == t;
    }
  }

  lemma {:induction false} PrefixedOne(h: nat, tails: set<seq<nat>>)
    ensures |Prefixed({h}, tails)| == |tails|
    decreases tails
  {
    if tails == {} {
      assert Prefixed({h}, tails) == {};
    } else {
      var t :| t in tails;
      PrefixedOne(h, tails - {t});
      PrefixedIn({h}, tails - {t}, h, t);
      PrefixedMore(h, tails, t);
    }
  }

  lemma PrefixedMore(h: nat, tails: set<seq<nat>>, t: seq<nat>)
    requires t in tails
    ensures Prefixed({h}, tails) == Prefixed({h}, tails - {t}) + {[h] + t}
  {
    PrefixedIn({h}, tails, h, t);
    forall s | s in Prefixed({h}, tails) ensures s in Prefixed({h}, tails - {t}) + {[h] + t} {
      var u :| u in tails && s == [h] + u;
      PrefixedIn({h}, tails - {t}, h, u);
    }
  }

  lemma {:induction false} PrefixedSize(heads: set<nat>, tails: set<seq<nat>>)
    ensures |Prefixed(heads, tails)| == |heads| * |tails|
    decreases heads
  {
    if heads == {} {
      assert Prefixed(heads, tails) == {};
    } else {
      var h :| h in heads;
      PrefixedSize(heads - {h}, tails);
      PrefixedOne(h, tails);
      PrefixedApart(heads, tails, h);
      assert |heads - {h}| == |heads| - 1;
      OneFewer(|heads|, |tails|);
    }
  }

  lemma OneFewer(x: int, y: int)
    ensures x * y == (x - 1) * y + y
  {
  }

  lemma PrefixedApart(heads: set<nat>, tails: set<seq<nat>>, h: nat)
    requires h in heads
    ensures Prefixed(heads, tails) == Prefixed(heads - {h}, tails) + Prefixed({h}, tails)
    ensures Prefixed(heads - {h}, tails) !! Prefixed({h}, tails)
  {
    forall s | s in Prefixed({h}, tails) ensures s !in Prefixed(heads - {h}, tails) {
      var t :| t in tails && s == [h] + t;
      PrefixedIn(heads - {h}, tails, h, t);
    }
  }

  // In how many ways draws can give the same choices: a product over the counts.
  ghost function Ways(range: nat, count: nat): nat {
    if count <= 1 then 1 else (range / count) * Ways(range, count - 1)
  }

  lemma {:induction false} DrawingsSize(width: nat, range: nat, choices: seq<nat>, count: nat)
    requires Choices(choices, count) && count <= range <= Pow2(width)
    ensures |Drawings(width, range, choices, count)| == Ways(range, count)
    decreases count
  {
    if count > 1 {
      Uniform(width, range, count, choices[0]);
      DrawingsSize(width, range, choices[1..], count - 1);
      PrefixedSize(Accepting(width, range, count, choices[0]), Drawings(width, range, choices[1..], count - 1));
    }
  }

  // The draws taken are accepted and arrange s as t.
  ghost predicate Arranges<T>(taken: seq<nat>, width: nat, range: nat, s: seq<T>, t: seq<T>) {
    Accepted(taken, width, range, |s|) && Shuffled(s, ChoicesOf(taken, |s|), |s|) == t
  }

  // Every arrangement of distinct elements comes from equally many sequences of
  // accepted draws.
  lemma {:induction false} ShuffleFair<T(!new)>(s: seq<T>, t: seq<T>, width: nat, range: nat)
    returns (drawings: set<seq<nat>>)
    requires NoDup(s) && multiset(t) == multiset(s) && |s| <= range <= Pow2(width) && |s| < Pow2(width)
    ensures forall taken :: taken in drawings <==> Arranges(taken, width, range, s, t)
    ensures |drawings| == Ways(range, |s|) > 0
  {
    var n := |s|;
    assert |t| == |multiset(t)| == |multiset(s)| == n;
    assert t[..n] == t && s[..n] == s;
    var choices := ShuffledOnto(s, t, n);
    drawings := Drawings(width, range, choices, n);
    DrawingsSize(width, range, choices, n);
    WaysPositive(range, n);
    forall taken ensures taken in drawings <==> Arranges(taken, width, range, s, t) {
      DrawingsExact(width, range, choices, n, taken);
      if Arranges(taken, width, range, s, t) {
        ShuffledInjective(s, ChoicesOf(taken, n), choices, n);
      }
    }
  }

  lemma {:induction false} WaysPositive(range: nat, count: nat)
    requires count <= range
    ensures Ways(range, count) > 0
  {
    if count > 1 {
      WaysPositive(range, count - 1);
      QuotientPositive(range, count);
      ProductPositive(range / count, Ways(range, count - 1));
    }
  }

  lemma QuotientPositive(x: nat, d: nat)
    requires 0 < d <= x
    ensures x / d > 0
  {
  }

  lemma ProductPositive(x: nat, y: nat)
    requires x > 0 && y > 0
    ensures x * y > 0
  {
  }

  ghost predicate Permutes<T>(s: seq<T>, t: seq<T>) {
    multiset(t) == multiset(s)
  }

  ghost predicate Drawable<T>(width: nat, range: nat, s: seq<T>, t: seq<T>) {
    exists taken :: Arranges(taken, width, range, s, t)
  }

  // Every arrangement can be drawn exactly if there are no more elements than the
  // generator has values.
  lemma {:induction false} ShuffleReaches<T(!new)>(s: seq<T>, width: nat, range: nat)
    requires NoDup(s) && 0 < range <= Pow2(width) && |s| < Pow2(width)
    ensures (forall t :: Permutes(s, t) ==> Drawable(width, range, s, t)) <==> |s| <= range
  {
    if |s| <= range {
      forall t | Permutes(s, t) ensures Drawable(width, range, s, t) {
        var drawings := ShuffleFair(s, t, width, range);
        var taken :| taken in drawings;
        assert Arranges(taken, width, range, s, t);
      }
    } else {
      var n := |s|;
      var choices := LastFirst(n);
      var t := Shuffled(s, choices, n);
      ShuffledPermutes(s, choices, n);
      forall taken ensures !Arranges(taken, width, range, s, t) {
        if Arranges(taken, width, range, s, t) {
          ShuffledInjective(s, ChoicesOf(taken, n), choices, n);
          QuotientUnique(n, 0, taken[0]);
        }
      }
      assert Permutes(s, t);
    }
  }

  // The last element stays; which of the others come before it does not matter.
  ghost function LastFirst(count: nat): (choices: seq<nat>)
    requires count > 1
    ensures Choices(choices, count) && choices[0] == count - 1
  {
    seq(count - 1, i requires 0 <= i < count - 1 => if i == 0 then count - 1 else 0)
  }
}
