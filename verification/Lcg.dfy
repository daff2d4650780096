// The linear congruential core of the generators: stepping, jumping ahead and
// back, and measuring the distance between two states.
module Lcg {
  import opened Modular

  // n steps x -> a * x + c over the integers.
  ghost function Walk(n: nat, a: int, c: int, x: int): int {
    if n == 0 then x else Walk(n - 1, a, c, a * x + c)
  }

  // The same steps on words of modulus m, reducing after each: repeated bump.
  ghost function Steps(m: nat, n: nat, a: int, c: int, x: int): int
    requires m > 0
  {
    if n == 0 then x else Steps(m, n - 1, a, c, (a * x + c) % m)
  }

  lemma SameStep(m: nat, a: int, a': int, c: int, c': int, x: int, x': int)
    requires m > 0 && Same(m, a, a') && Same(m, c, c') && Same(m, x, x')
    ensures Same(m, a * x + c, a' * x' + c')
  {
    SameProduct(m, a, a', x, x');
    SameSum(m, a * x, a' * x', c, c');
  }

  lemma {:induction false} SameWalk(m: nat, n: nat, a: int, a': int, c: int, c': int, x: int, x': int)
    requires m > 0 && Same(m, a, a') && Same(m, c, c') && Same(m, x, x')
    ensures Same(m, Walk(n, a, c, x), Walk(n, a', c', x'))
  {
    if n > 0 {
      SameStep(m, a, a', c, c', x, x');
      SameWalk(m, n - 1, a, a', c, c', a * x + c, a' * x' + c');
    }
  }

  lemma {:induction false} StepsWalk(m: nat, n: nat, a: int, c: int, x: int)
    requires m > 0 && 0 <= x < m
    ensures Steps(m, n, a, c, x) == Walk(n, a, c, x) % m
  {
    if n == 0 {
      QuotientUnique(m, 0, x);
    } else {
      var y := a * x + c;
      StepsWalk(m, n - 1, a, c, y % m);
      SameWord(m, y);
      SameMod(m, a, a);
      SameMod(m, c, c);
      SameWalk(m, n - 1, a, a, c, c, y % m, y);
      SameMod(m, Walk(n - 1, a, c, y % m), Walk(n - 1, a, c, y));
    }
  }

  // Two steps at once.
  lemma {:induction false} WalkDouble(n: nat, a: int, c: int, x: int)
    ensures Walk(2 * n, a, c, x) == Walk(n, a * a, (a + 1) * c, x)
  {
    if n > 0 {
      var y := a * x + c;
      assert Walk(2 * n, a, c, x) == Walk(2 * n - 1, a, c, y) == Walk(2 * n - 2, a, c, a * y + c);
      TwoSteps(a, c, x);
      WalkDouble(n - 1, a, c, a * y + c);
    }
  }

  lemma TwoSteps(a: int, c: int, x: int)
    ensures a * (a * x + c) + c == (a * a) * x + (a + 1) * c
  {
  }

  lemma Compose(a: int, c: int, am: int, ap: int, x: int)
    ensures a * (am * x + ap) + c == (am * a) * x + (ap * a + c)
  {
  }

  // ---- jumping ahead ----

  // engine::advance: delta steps in time logarithmic in delta, on words of modulus m.
  method Advance(m: nat, state: nat, delta0: nat, mult: nat, plus: nat) returns (r: nat)
    requires m > 1 && state < m && delta0 < m && mult < m && plus < m
    ensures r < m && r == Steps(m, delta0, mult, plus, state)
  {
    var accMult: nat, accPlus: nat, delta, curMult: nat, curPlus: nat := 1, 0, delta0, mult, plus;
    ghost var goal := Walk(delta0, mult, plus, state);
    SameMod(m, goal, goal);
    while delta > 0
      invariant accMult < m && accPlus < m && curMult < m && curPlus < m
      invariant Same(m, Walk(delta, curMult, curPlus, accMult * state + accPlus), goal)
    {
      ghost var x := accMult * state + accPlus;
      if delta % 2 == 1 {
        AdvanceOdd(m, delta, curMult, curPlus, accMult, accPlus, state);
        accMult := (accMult * curMult) % m;
        accPlus := (accPlus * curMult + curPlus) % m;
        SameTransitive(m, Walk(delta - 1, curMult, curPlus, accMult * state + accPlus),
          Walk(delta, curMult, curPlus, x), goal);
      }
      x := accMult * state + accPlus;
      AdvanceEven(m, delta / 2, curMult, curPlus, x);
      ghost var before := Walk(2 * (delta / 2), curMult, curPlus, x);
      curPlus := ((curMult + 1) * curPlus) % m;
      curMult := (curMult * curMult) % m;
      delta := delta / 2;
      SameTransitive(m, Walk(delta, curMult, curPlus, x), before, goal);
    }
    r := (accMult * state + accPlus) % m;
    SameMod(m, accMult * state + accPlus, goal);
    StepsWalk(m, delta0, mult, plus, state);
  }

  lemma AdvanceOdd(m: nat, n: nat, a: nat, c: nat, am: nat, ap: nat, x: nat)
    requires m > 0 && n > 0
    ensures Same(m, Walk(n - 1, a, c, ((am * a) % m) * x + (ap * a + c) % m), Walk(n, a, c, am * x + ap))
  {
    Compose(a, c, am, ap, x);
    SameWord(m, am * a);
    SameWord(m, ap * a + c);
    SameMod(m, x, x);
    SameStep(m, (am * a) % m, am * a, (ap * a + c) % m, ap * a + c, x, x);
    SameMod(m, a, a);
    SameMod(m, c, c);
    SameWalk(m, n - 1, a, a, c, c, ((am * a) % m) * x + (ap * a + c) % m, (am * a) * x + (ap * a + c));
  }

  lemma AdvanceEven(m: nat, n: nat, a: nat, c: nat, x: int)
    requires m > 0
    ensures Same(m, Walk(n, (a * a) % m, ((a + 1) * c) % m, x), Walk(2 * n, a, c, x))
  {
    WalkDouble(n, a, c, x);
    SameWord(m, a * a);
    SameWord(m, (a + 1) * c);
    SameMod(m, x, x);
    SameWalk(m, n, (a * a) % m, a * a, ((a + 1) * c) % m, (a + 1) * c, x, x);
  }

  // ---- the powers of the step ----

  // 2^k steps are the single step x -> Mult(k, a) * x + Plus(k, a, c).
  ghost function Mult(k: nat, a: int): int {
    if k == 0 then a else Mult(k - 1, a) * Mult(k - 1, a)
  }

  ghost function Plus(k: nat, a: int, c: int): int {
    if k == 0 then c else (Mult(k - 1, a) + 1) * Plus(k - 1, a, c)
  }

  lemma {:induction false} WalkPower(k: nat, n: nat, a: int, c: int, x: int)
    ensures Walk(Pow2(k) * n, a, c, x) == Walk(n, Mult(k, a), Plus(k, a, c), x)
  {
    if k > 0 {
      assert Pow2(k) * n == Pow2(k - 1) * (2 * n);
      WalkPower(k - 1, 2 * n, a, c, x);
      WalkDouble(n, Mult(k - 1, a), Plus(k - 1, a, c), x);
    }
  }

  lemma {:induction false} MultOdd(k: nat, a: int)
    requires Divides(2, a - 1)
    ensures Divides(2, Mult(k, a) - 1) && Divides(2, Mult(k, a) + 1)
  {
    if k > 0 {
      MultOdd(k - 1, a);
      OddSquare(Mult(k - 1, a));
    }
  }

  lemma OddSquare(x: int)
    requires Divides(2, x - 1)
    ensures x * x - 1 == (x - 1) * (x + 1) && Divides(2, x * x - 1)
  {
    DividesProduct(2, x - 1, x + 1);
  }

  // After 2^k steps with an odd multiplier the low k bits are back where they were.
  lemma {:induction false} PowerIdentity(k: nat, a: int, c: int)
    requires Divides(2, a - 1)
    ensures Divides(Pow2(k), Mult(k, a) - 1) && Divides(Pow2(k), Plus(k, a, c))
  {
    if k == 0 {
    } else {
      PowerIdentity(k - 1, a, c);
      MultOdd(k - 1, a);
      var p, q := Mult(k - 1, a), Plus(k - 1, a, c);
      OddSquare(p);
      DividesProducts(Pow2(k - 1), 2, p - 1, p + 1);
      DividesProducts(2, Pow2(k - 1), p + 1, q);
    }
  }

  lemma {:induction false} WalkSum(n: nat, k: nat, a: int, c: int, x: int)
    ensures Walk(n + k, a, c, x) == Walk(k, a, c, Walk(n, a, c, x))
  {
    if n > 0 {
      WalkSum(n - 1, k, a, c, a * x + c);
    }
  }

  lemma FullCycle(w: nat, a: int, c: int, x: int)
    requires Divides(2, a - 1)
    ensures Same(Pow2(w), Walk(Pow2(w), a, c, x), x)
  {
    WalkPower(w, 1, a, c, x);
    PowerIdentity(w, a, c);
    var p, q, m := Mult(w, a), Plus(w, a, c), Pow2(w);
    assert Walk(1, p, q, x) == Walk(0, p, q, p * x + q) == p * x + q;
    AddsEffectFull(m, 0, p, q, x);
  }

  // Negating a distance as a word.
  function Negated(m: nat, d: nat): nat
    requires d < m
  {
    (m - d) % m
  }

  // A jump of d followed by a backstep of d leads back to x.
  ghost predicate Restores(w: nat, d: nat, a: nat, c: nat, x: nat)
    requires x < Pow2(w) && d < Pow2(w)
  {
    Steps(Pow2(w), Negated(Pow2(w), d), a, c, Steps(Pow2(w), d, a, c, x)) == x
  }

  lemma BackstepRestores(w: nat, d: nat, a: nat, c: nat, x: nat)
    requires Divides(2, a - 1) && x < Pow2(w) && d < Pow2(w)
    ensures Restores(w, d, a, c, x)
  {
    var m := Pow2(w);
    StepsWalk(m, d, a, c, x);
    var y := Steps(m, d, a, c, x);
    if d == 0 {
      QuotientUnique(m, 1, 0);
    } else {
      QuotientUnique(m, 0, m - d);
      StepsWalk(m, m - d, a, c, y);
      SameWord(m, Walk(d, a, c, x));
      SameMod(m, a, a);
      SameMod(m, c, c);
      SameWalk(m, m - d, a, a, c, c, y, Walk(d, a, c, x));
      WalkSum(d, m - d, a, c, x);
      FullCycle(w, a, c, x);
      SameTransitive(m, Walk(m - d, a, c, y), Walk(m, a, c, x), x);
      SameMod(m, Walk(m - d, a, c, y), x);
      QuotientUnique(m, 0, x);
    }
  }

  // backstep undoes advance for every state, every distance and every
  // increment exactly when the multiplier is odd.
  lemma BackstepExact(w: nat, a: nat, c: nat)
    requires w > 0
    ensures Divides(2, a - 1) <==> forall d: nat, x: nat :: d < Pow2(w) && x < Pow2(w) ==> Restores(w, d, a, c, x)
  {
    var m := Pow2(w);
    if Divides(2, a - 1) {
      forall d: nat, x: nat | d < m && x < m ensures Restores(w, d, a, c, x) {
        BackstepRestores(w, d, a, c, x);
      }
    } else {
      // one step takes 0 and the middle word to the same word
      var h := Pow2(w - 1);
      EvenCollides(w, a, c);
      assert Steps(m, 1, a, c, 0) == Steps(m, 1, a, c, h);
      assert Restores(w, 1, a, c, 0) && Restores(w, 1, a, c, h) ==> 0 == h;
    }
  }

  lemma EvenCollides(w: nat, a: nat, c: nat)
    requires w > 0 && !Divides(2, a - 1)
    ensures Steps(Pow2(w), 1, a, c, 0) == Steps(Pow2(w), 1, a, c, Pow2(w - 1))
  {
    var m, h := Pow2(w), Pow2(w - 1);
    assert Divides(2, a);
    DividesProducts(2, h, a, h) by { DividesMultiple(h, 1); }
    SameMod(m, a * h + c, a * 0 + c);
    assert Steps(m, 1, a, c, 0) == Steps(m, 0, a, c, (a * 0 + c) % m);
    assert Steps(m, 1, a, c, h) == Steps(m, 0, a, c, (a * h + c) % m);
  }

  // ---- distance ----

  // The generators for which distances are defined: full period (offset 0), or
  // multiplicative with the two low bits of the state fixed (offset 2).
  ghost predicate Measurable(e: nat, a: int, c: int) {
    || (e == 0 && Divides(4, a - 1) && Divides(2, c - 1))
    || (e == 2 && Divides(8, a - 5) && c == 0)
  }

  // In the multiplicative case states are odd.
  ghost predicate StateOk(e: nat, x: int) {
    e == 2 ==> Divides(2, x - 1)
  }

  // 2^j steps add 2^(j + e), as far as the low j + e + 1 bits go.
  ghost predicate Adds(j: nat, e: nat, p: int, q: int) {
    && Divides(4, p - 1)
    && if e == 0 then Divides(Pow2(j + 1), p - 1) && Divides(Pow2(j + 1), q - Pow2(j))
       else Divides(Pow2(j + 3), p - 1 - Pow2(j + 2)) && q == 0
  }

  lemma AddsNext(j: nat, e: nat, p: int, q: int)
    requires Adds(j, e, p, q)
    ensures Adds(j + 1, e, p * p, (p + 1) * q)
  {
    assert p * p - 1 == (p - 1) * (p + 1);
    DividesProduct(4, p - 1, p + 1);
    assert Divides(2, p + 1);
    if e == 0 {
      DividesProducts(Pow2(j + 1), 2, p - 1, p + 1);
      var u, v := Pow2(j), Pow2(j + 1);
      DividesProducts(2, v, p + 1, q - u);
      DividesMultiple(u, 1);
      DividesProducts(4, u, p - 1, u);
      DividesSum(Pow2(j + 2), (p + 1) * (q - u), (p - 1) * u);
      SplitPlus(p, q, u);
    } else {
      var u := Pow2(j + 2);
      DividesProducts(Pow2(j + 3), 2, p - 1 - u, p + 1);
      DividesMultiple(u, 1);
      DividesProducts(u, 4, u, p - 1);
      assert Pow2(j + 4) == u * 4;
      DividesSum(Pow2(j + 4), (p - 1 - u) * (p + 1), u * (p - 1));
      SplitMult(p, u);
    }
  }

  lemma SplitPlus(p: int, q: int, u: int)
    ensures (p + 1) * q - 2 * u == (p + 1) * (q - u) + (p - 1) * u
  {
  }

  lemma SplitMult(p: int, u: int)
    ensures p * p - 1 - 2 * u == (p - 1 - u) * (p + 1) + u * (p - 1)
  {
  }

  lemma {:induction false} AddsPower(j: nat, e: nat, a: int, c: int)
    requires Measurable(e, a, c)
    ensures Adds(j, e, Mult(j, a), Plus(j, a, c))
  {
    if j > 0 {
      AddsPower(j - 1, e, a, c);
      AddsNext(j - 1, e, Mult(j - 1, a), Plus(j - 1, a, c));
    } else {
      AddsBase(e, a, c, Pow2(1), Pow2(2), Pow2(3));
    }
  }

  lemma AddsBase(e: nat, a: int, c: int, two: nat, four: nat, eight: nat)
    requires Measurable(e, a, c) && two == 2 && four == 4 && eight == 8
    ensures Divides(4, a - 1)
    ensures e == 0 ==> Divides(two, a - 1) && Divides(two, c - 1)
    ensures e == 2 ==> Divides(eight, a - 1 - four) && c == 0
  {
    if e == 2 {
      var k := (a - 5) / 8;
      assert a - 1 == 4 * (2 * k + 1);
      DividesMultiple(4, 2 * k + 1);
    } else {
      var k := (a - 1) / 4;
      assert a - 1 == 2 * (2 * k);
      DividesMultiple(2, 2 * k);
    }
  }

  lemma AddsEffect(j: nat, e: nat, p: int, q: int, x: int)
    requires Adds(j, e, p, q) && StateOk(e, x) && (e == 0 || e == 2)
    ensures Same(Pow2(j + e + 1), p * x + q, x + Pow2(j + e))
    ensures StateOk(e, p * x + q)
  {
    if e == 0 {
      AddsEffectFull(Pow2(j + 1), Pow2(j), p, q, x);
    } else {
      AddsEffectOdd(Pow2(j + 2), p, x);
    }
  }

  lemma AddsEffectFull(m: nat, u: nat, p: int, q: int, x: int)
    requires m > 0 && Divides(m, p - 1) && Divides(m, q - u)
    ensures Same(m, p * x + q, x + u)
  {
    DividesProduct(m, p - 1, x);
    DividesSum(m, (p - 1) * x, q - u);
    assert p * x + q - (x + u) == (p - 1) * x + (q - u);
  }

  lemma AddsEffectOdd(u: nat, p: int, x: int)
    requires u > 0 && Divides(4, p - 1) && Divides(2 * u, p - 1 - u) && Divides(2, x - 1)
    ensures Same(2 * u, p * x, x + u) && Divides(2, p * x - 1)
  {
    var m := 2 * u;
    DividesProduct(m, p - 1 - u, x);
    DividesMultiple(u, 1);
    DividesProducts(u, 2, u, x - 1);
    DividesSum(m, (p - 1 - u) * x, u * (x - 1));
    SplitEffect(p, x, u);
    OddProduct(p, x);
  }

  lemma OddProduct(p: int, x: int)
    requires Divides(4, p - 1) && Divides(2, x - 1)
    ensures Divides(2, p * x - 1)
  {
    HalfOfFour(p - 1);
    DividesProduct(2, p - 1, x);
    DividesSum(2, (p - 1) * x, x - 1);
    SplitOdd(p, x);
  }

  lemma HalfOfFour(x: int)
    requires Divides(4, x)
    ensures Divides(2, x)
  {
    var k := x / 4;
    assert x == 2 * (2 * k);
    DividesMultiple(2, 2 * k);
  }

  lemma SplitOdd(p: int, x: int)
    ensures p * x - 1 == (p - 1) * x + (x - 1)
  {
  }

  lemma SplitEffect(p: int, x: int, u: int)
    ensures p * x - (x + u) == (p - 1 - u) * x + u * (x - 1)
  {
  }

  // ---- bits ----

  // The bit of x whose weight is bit, a power of two.
  function TestBit(x: nat, bit: nat): nat
    requires bit > 0
  {
    (x / bit) % 2
  }

  // Words that agree below a bit agree in it too or differ there by its weight.
  lemma BitStep(u: nat, x: nat, y: nat)
    requires u > 0 && Same(u, x, y)
    ensures TestBit(x, u) == TestBit(y, u) <==> Same(2 * u, x, y)
    ensures TestBit(x, u) != TestBit(y, u) ==> Same(2 * u, x + u, y)
  {
    SameMod(u, x, y);
    QuotientParity(u, x / u, y / u, x - y);
    assert x + u - y == (x - y) + u;
  }

  lemma QuotientParity(u: nat, i: int, j: int, z: int)
    requires u > 0 && z == u * i - u * j
    ensures i % 2 == j % 2 <==> Divides(2 * u, z)
    ensures i % 2 != j % 2 ==> Divides(2 * u, z + u)
  {
    MultipleDifference(u, i, j);
    Parity(i, j);
    if (i - j) % 2 == 0 {
      EvenMultiple(u, i - j);
    } else {
      OddMultiple(u, i - j);
    }
  }

  lemma EvenMultiple(u: nat, d: int)
    requires u > 0 && d % 2 == 0
    ensures Divides(2 * u, u * d)
  {
    DoubleHalf(u, d / 2);
    DividesMultiple(2 * u, d / 2);
  }

  lemma OddMultiple(u: nat, d: int)
    requires u > 0 && d % 2 == 1
    ensures !Divides(2 * u, u * d) && Divides(2 * u, u * d + u)
  {
    var h := d / 2;
    DoubleHalf(u, h);
    assert u * d == u * (2 * h + 1) == u * (2 * h) + u;
    QuotientUnique(2 * u, h, u);
    DoubleHalf(u, h + 1);
    assert u * (2 * (h + 1)) == u * (2 * h) + 2 * u;
    DividesMultiple(2 * u, h + 1);
  }

  lemma Parity(i: int, j: int)
    ensures i % 2 == j % 2 <==> (i - j) % 2 == 0
  {
  }

  lemma DoubleHalf(u: int, h: int)
    ensures u * (2 * h) == (2 * u) * h
  {
  }

  lemma {:induction false} SameCoarser(k: nat, n: nat, x: int, y: int)
    requires k <= n && Same(Pow2(n), x, y)
    ensures Same(Pow2(k), x, y)
  {
    Pow2Sum(k, n - k);
    MultipleTwice(x - y, Pow2(k), Pow2(n - k));
  }

  lemma MultipleTwice(z: int, u: nat, v: nat)
    requires u > 0 && v > 0 && u * v > 0 && Divides(u * v, z)
    ensures Divides(u, z)
  {
    var q := z / (u * v);
    assert z == (u * v) * q;
    assert (u * v) * q == u * (v * q);
    DividesMultiple(u, v * q);
  }

  // Setting a bit.
  function OrBit(x: nat, bit: nat): nat
    requires bit > 0
  {
    if TestBit(x, bit) == 1 then x else x + bit
  }

  // What the loop of distance knows after j rounds: d steps lead from start to
  // a state that agrees with the target in the low j + e bits.
  ghost predicate Measuring(w: nat, e: nat, a: nat, c: nat, start: nat, target: nat,
      j: nat, d: nat, cur: nat, p: nat, q: nat) {
    && Measurable(e, a, c) && StateOk(e, cur) && (e == 2 ==> w > 0)
    && Same(Pow2(w), p, Mult(j, a)) && Same(Pow2(w), q, Plus(j, a, c))
    && Same(Pow2(w), cur, Walk(d, a, c, start))
    && Same(Pow2(j + e), cur, target) && d < Pow2(j)
  }

  // A round that finds the bit right.
  lemma MeasuringKeep(w: nat, e: nat, a: nat, c: nat, start: nat, target: nat, j: nat, d: nat, cur: nat, p: nat, q: nat)
    requires Measuring(w, e, a, c, start, target, j, d, cur, p, q) && j + e < w
    requires TestBit(cur, Pow2(j + e)) == TestBit(target, Pow2(j + e))
    ensures Measuring(w, e, a, c, start, target, j + 1, d, cur, (p * p) % Pow2(w), ((p + 1) * q) % Pow2(w))
  {
    BitStep(Pow2(j + e), cur, target);
    PowerWords(Pow2(w), j, a, c, p, q);
  }

  lemma PowerWords(m: nat, j: nat, a: nat, c: nat, p: nat, q: nat)
    requires m > 0 && Same(m, p, Mult(j, a)) && Same(m, q, Plus(j, a, c))
    ensures Same(m, (p * p) % m, Mult(j + 1, a)) && Same(m, ((p + 1) * q) % m, Plus(j + 1, a, c))
  {
    SameProduct(m, p, Mult(j, a), p, Mult(j, a));
    SameWord(m, p * p);
    SameTransitive(m, (p * p) % m, p * p, Mult(j + 1, a));
    SameMod(m, 1, 1);
    SameSum(m, p, Mult(j, a), 1, 1);
    SameProduct(m, p + 1, Mult(j, a) + 1, q, Plus(j, a, c));
    SameWord(m, (p + 1) * q);
    SameTransitive(m, ((p + 1) * q) % m, (p + 1) * q, Plus(j + 1, a, c));
  }

  // A round that finds the bit wrong flips it by 2^j more steps.
  lemma MeasuringFlip(w: nat, e: nat, a: nat, c: nat, start: nat, target: nat, j: nat, d: nat, cur: nat, p: nat, q: nat)
    requires Measuring(w, e, a, c, start, target, j, d, cur, p, q) && j + e < w
    requires TestBit(cur, Pow2(j + e)) != TestBit(target, Pow2(j + e))
    ensures var cur' := (cur * p + q) % Pow2(w);
      && TestBit(cur', Pow2(j + e)) == TestBit(target, Pow2(j + e))
      && Measuring(w, e, a, c, start, target, j + 1, d + Pow2(j), cur', (p * p) % Pow2(w), ((p + 1) * q) % Pow2(w))
  {
    var m, x := Pow2(w), Mult(j, a) * cur + Plus(j, a, c);
    var cur' := (cur * p + q) % m;
    FlipWord(m, Mult(j, a), Plus(j, a, c), cur, p, q);
    FlipBits(w, e, j, a, c, cur, cur', target);
    FlipWalk(m, j, a, c, start, d, cur);
    SameTransitive(m, cur', x, Walk(d + Pow2(j), a, c, start));
    PowerWords(m, j, a, c, p, q);
  }

  lemma FlipBits(w: nat, e: nat, j: nat, a: nat, c: nat, cur: nat, cur': nat, target: nat)
    requires Measurable(e, a, c) && StateOk(e, cur) && j + e < w
    requires Same(Pow2(w), cur', Mult(j, a) * cur + Plus(j, a, c))
    requires Same(Pow2(j + e), cur, target) && TestBit(cur, Pow2(j + e)) != TestBit(target, Pow2(j + e))
    ensures Same(Pow2(j + 1 + e), cur', target) && TestBit(cur', Pow2(j + e)) == TestBit(target, Pow2(j + e))
    ensures StateOk(e, cur')
  {
    var u, x := Pow2(j + e), Mult(j, a) * cur + Plus(j, a, c);
    AddsPower(j, e, a, c);
    AddsEffect(j, e, Mult(j, a), Plus(j, a, c), cur);
    SameCoarser(j + e + 1, w, cur', x);
    BitStep(u, cur, target);
    SameTransitive(2 * u, x, cur + u, target);
    SameTransitive(2 * u, cur', x, target);
    assert Pow2(j + 1 + e) == 2 * u;
    SameCoarser(j + e, j + e + 1, cur', target);
    BitStep(u, cur', target);
    KeepsParity(w, e, cur', x);
  }

  lemma KeepsParity(w: nat, e: nat, y: int, x: int)
    requires w > 0 && Same(Pow2(w), y, x) && StateOk(e, x)
    ensures StateOk(e, y)
  {
    SameCoarser(1, w, y, x);
    var two := Pow2(1);
    assert two == 2;
    if e == 2 {
      DividesSum(2, y - x, x - 1);
      assert y - 1 == (y - x) + (x - 1);
    }
  }

  lemma FlipWord(m: nat, p: int, q: int, cur: nat, p': nat, q': nat)
    requires m > 0 && Same(m, p', p) && Same(m, q', q)
    ensures Same(m, (cur * p' + q') % m, p * cur + q)
  {
    SameMod(m, cur, cur);
    SameStep(m, p', p, q', q, cur, cur);
    Commute(cur, p');
    SameWord(m, cur * p' + q');
    SameTransitive(m, (cur * p' + q') % m, p' * cur + q', p * cur + q);
  }

  lemma FlipWalk(m: nat, j: nat, a: nat, c: nat, start: nat, d: nat, cur: nat)
    requires m > 0 && Same(m, cur, Walk(d, a, c, start))
    ensures Same(m, Mult(j, a) * cur + Plus(j, a, c), Walk(d + Pow2(j), a, c, start))
  {
    var p, q, y := Mult(j, a), Plus(j, a, c), Walk(d, a, c, start);
    WalkSum(d, Pow2(j), a, c, start);
    WalkPower(j, 1, a, c, y);
    assert Walk(1, p, q, y) == Walk(0, p, q, p * y + q) == p * y + q;
    SameMod(m, p, p);
    SameMod(m, q, q);
    SameStep(m, p, p, q, q, cur, y);
  }

  // Multiplicative generators work above their two fixed low bits.
  function Offset(plus: nat): nat {
    if plus == 0 then 2 else 0
  }

  lemma MeasuringStart(w: nat, e: nat, a: nat, c: nat, start: nat, target: nat)
    requires a < Pow2(w) && c < Pow2(w) && Measurable(e, a, c)
    requires e == 2 ==> Divides(2, start - 1) && Divides(4, start - target)
    ensures Measuring(w, e, a, c, start, target, 0, 0, start, a, c) && w > e
  {
    SameMod(Pow2(w), a, a);
    SameMod(Pow2(w), c, c);
    SameMod(Pow2(w), start, start);
    SmallWidth(w, e, a, c);
    if e == 2 {
      FourIs();
    }
  }

  lemma FourIs()
    ensures Pow2(2) == 4 && Pow2(1) == 2
  {
    assert Pow2(1) == 2 * Pow2(0);
  }

  lemma SmallWidth(w: nat, e: nat, a: nat, c: nat)
    requires a < Pow2(w) && c < Pow2(w) && Measurable(e, a, c)
    ensures w > e
  {
    FourIs();
  }

  // The bits that two words have in common.
  function And(x: int, y: nat): nat
    decreases y
  {
    if y == 0 then 0 else (if x % 2 == 1 && y % 2 == 1 then 1 else 0) + 2 * And(x / 2, y / 2)
  }

  // A mask of n bits sees no more than the low n bits of a word.
  lemma {:induction false} AndLow(n: nat, x: nat, y: nat, mask: nat)
    requires mask < Pow2(n) && Same(Pow2(n), x, y)
    ensures And(x, mask) == And(y, mask)
  {
    if mask > 0 {
      HalvesSame(Pow2(n - 1), x, y);
      AndLow(n - 1, x / 2, y / 2, mask / 2);
    }
  }

  lemma HalvesSame(u: nat, x: nat, y: nat)
    requires u > 0 && Same(2 * u, x, y)
    ensures x % 2 == y % 2 && Same(u, x / 2, y / 2)
  {
    var q := (x - y) / (2 * u);
    assert x - y == (2 * u) * q;
    assert (2 * u) * q == 2 * (u * q);
    DividesMultiple(u, q);
    assert x / 2 - y / 2 == u * q;
  }

  lemma {:induction false} AndFull(n: nat, x: nat)
    requires x < Pow2(n)
    ensures And(x, Pow2(n) - 1) == x
  {
    if n > 0 {
      assert (Pow2(n) - 1) / 2 == Pow2(n - 1) - 1;
      AndFull(n - 1, x / 2);
    }
  }

  lemma BitWord(k: nat, w: nat, bit: nat)
    requires k < w && bit == Pow2(k) % Pow2(w)
    ensures bit == Pow2(k) && (2 * bit) % Pow2(w) == Pow2(k + 1) % Pow2(w)
  {
    Pow2Monotone(k, w);
    QuotientUnique(Pow2(w), 0, Pow2(k));
  }

  // The steps counted so far lie below the bit under test.
  lemma DistanceBits(j: nat, e: nat, d: nat, distance: nat)
    requires d < Pow2(j) && distance == d * Pow2(e)
    ensures OrBit(distance, Pow2(j + e)) == (d + Pow2(j)) * Pow2(e)
    ensures d + Pow2(j) < Pow2(j + 1)
  {
    Pow2Sum(j, e);
    var u := Pow2(j + e);
    LessMultiple(d, Pow2(j), Pow2(e));
    QuotientUnique(u, 0, distance);
  }

  lemma LessMultiple(x: nat, y: nat, z: nat)
    requires x < y && z > 0
    ensures x * z < y * z && (x + y) * z == x * z + y * z
  {
  }

  lemma MeasuringEnd(w: nat, a: nat, c: nat, start: nat, d: nat, cur: nat)
    requires start < Pow2(w) && cur < Pow2(w) && Same(Pow2(w), cur, Walk(d, a, c, start))
    ensures cur == Steps(Pow2(w), d, a, c, start)
  {
    StepsWalk(Pow2(w), d, a, c, start);
    SameMod(Pow2(w), cur, Walk(d, a, c, start));
    QuotientUnique(Pow2(w), 0, cur);
  }

  // The loop's whole state: the bit under test and the steps counted so far,
  // which a multiplicative generator keeps two bits to the left.
  ghost predicate Counting(w: nat, e: nat, a: nat, c: nat, start: nat, target: nat,
      j: nat, d: nat, cur: nat, p: nat, q: nat, bit: nat, distance: nat) {
    && Measuring(w, e, a, c, start, target, j, d, cur, p, q)
    && bit == Pow2(j + e) % Pow2(w) && distance == d * Pow2(e)
  }

  lemma CountingKeep(w: nat, e: nat, a: nat, c: nat, start: nat, target: nat,
      j: nat, d: nat, cur: nat, p: nat, q: nat, bit: nat, distance: nat)
    requires Counting(w, e, a, c, start, target, j, d, cur, p, q, bit, distance) && j + e < w && bit > 0
    requires TestBit(cur, bit) == TestBit(target, bit)
    ensures Counting(w, e, a, c, start, target, j + 1, d, cur, (p * p) % Pow2(w), ((p + 1) * q) % Pow2(w),
      (2 * bit) % Pow2(w), distance)
  {
    BitWord(j + e, w, bit);
    MeasuringKeep(w, e, a, c, start, target, j, d, cur, p, q);
  }

  lemma CountingFlip(w: nat, e: nat, a: nat, c: nat, start: nat, target: nat,
      j: nat, d: nat, cur: nat, p: nat, q: nat, bit: nat, distance: nat)
    requires Counting(w, e, a, c, start, target, j, d, cur, p, q, bit, distance) && j + e < w && bit > 0
    requires TestBit(cur, bit) != TestBit(target, bit)
    ensures TestBit((cur * p + q) % Pow2(w), bit) == TestBit(target, bit)
    ensures Counting(w, e, a, c, start, target, j + 1, d + Pow2(j), (cur * p + q) % Pow2(w),
      (p * p) % Pow2(w), ((p + 1) * q) % Pow2(w), (2 * bit) % Pow2(w), OrBit(distance, bit))
  {
    BitWord(j + e, w, bit);
    MeasuringFlip(w, e, a, c, start, target, j, d, cur, p, q);
    DistanceBits(j, e, d, distance);
  }

  lemma CountingBit(w: nat, e: nat, j: nat, low: nat, cur: nat, target: nat, mask: nat, bit: nat)
    requires Same(Pow2(j + e), cur, target) && And(cur, mask) != And(target, mask)
    requires mask < Pow2(low) && low <= w && bit == Pow2(j + e) % Pow2(w)
    ensures j + e < low && bit > 0
  {
    if low <= j + e {
      SameCoarser(low, j + e, cur, target);
      AndLow(low, cur, target, mask);
    }
    BitWord(j + e, w, bit);
  }

  lemma CountingEnd(w: nat, e: nat, a: nat, c: nat, start: nat, target: nat,
      j: nat, d: nat, cur: nat, p: nat, q: nat, bit: nat, distance: nat, low: nat)
    requires Counting(w, e, a, c, start, target, j, d, cur, p, q, bit, distance)
    requires start < Pow2(w) && cur < Pow2(w) && (j + e <= low || j == 0)
    ensures d < Pow2(if low < e then 0 else low - e)
    ensures cur == Steps(Pow2(w), d, a, c, start)
    ensures (if e == 2 then distance / 4 else distance) == d
  {
    FourIs();
    MeasuringEnd(w, a, c, start, d, cur);
    if j + e <= low {
      Pow2Monotone(j, low - e);
    }
  }

  // engine::distance: how many steps lead from start to target, as far as the
  // mask goes, which has its bits among the low ones. The source's assertion in
  // the loop holds, and there are no more rounds than low bits.
  method Distance(w: nat, start: nat, target: nat, mult: nat, plus: nat, mask: nat, ghost low: nat)
    returns (r: nat, ghost rounds: nat)
    requires start < Pow2(w) && target < Pow2(w) && mult < Pow2(w) && plus < Pow2(w)
    requires mask < Pow2(low) && low <= w
    requires Measurable(Offset(plus), mult, plus)
    requires plus == 0 ==> Divides(2, start - 1) && Divides(4, start - target)
    ensures And(Steps(Pow2(w), r, mult, plus, start), mask) == And(target, mask)
    ensures r < Pow2(if low < Offset(plus) then 0 else low - Offset(plus))
    ensures rounds <= low
  {
    var m := Pow2(w);
    var isMcg := plus == 0;
    var bit: nat := if isMcg then 4 else 1;
    var cur: nat, curMult: nat, curPlus: nat, distance: nat := start, mult, plus, 0;
    ghost var e: nat, j: nat, d: nat := Offset(plus), 0, 0;
    CountingStart(w, e, mult, plus, start, target, bit);
    while And(cur, mask) != And(target, mask)
      invariant Counting(w, e, mult, plus, start, target, j, d, cur, curMult, curPlus, bit, distance)
      invariant cur < m && (j + e <= low || j == 0)
      decreases w - j
    {
      CountingBit(w, e, j, low, cur, target, mask, bit);
      if TestBit(cur, bit) != TestBit(target, bit) {
        CountingFlip(w, e, mult, plus, start, target, j, d, cur, curMult, curPlus, bit, distance);
        cur := (cur * curMult + curPlus) % m;
        distance := OrBit(distance, bit);
        d := d + Pow2(j);
      } else {
        CountingKeep(w, e, mult, plus, start, target, j, d, cur, curMult, curPlus, bit, distance);
      }
      assert TestBit(cur, bit) == TestBit(target, bit);
      bit := (2 * bit) % m;
      curPlus := ((curMult + 1) * curPlus) % m;
      curMult := (curMult * curMult) % m;
      j := j + 1;
    }
    r := if isMcg then distance / 4 else distance;
    rounds := j;
    CountingEnd(w, e, mult, plus, start, target, j, d, cur, curMult, curPlus, bit, distance, low);
  }

  // The multipliers and increments that the source chooses by default.

  predicate DefaultMultiplier(bits: nat, a: nat) {
    || (bits == 8 && a == 141) || (bits == 16 && a == 12829) || (bits == 32 && a == 747796405)
    || (bits == 64 && a == 6364136223846793005)
    || (bits == 128 && a == 2549297995355413924 * 0x1_0000_0000_0000_0000 + 4865540595714422341)
  }

  predicate DefaultIncrement(bits: nat, c: nat) {
    || (bits == 8 && c == 77) || (bits == 16 && c == 47989) || (bits == 32 && c == 2891336453)
    || (bits == 64 && c == 1442695040888963407)
    || (bits == 128 && c == 6364136223846793005 * 0x1_0000_0000_0000_0000 + 1442695040888963407)
  }

  // The cheaper choice for 128 bits.
  predicate CheapMultiplier(bits: nat, a: nat) {
    if bits == 128 then a == 0xda94_2042_e4dd_58b5 else DefaultMultiplier(bits, a)
  }

  // With them, and with any other odd increment or none, distances are defined.
  lemma DefaultsMeasurable(bits: nat, a: nat, c: nat)
    requires DefaultMultiplier(bits, a) || CheapMultiplier(bits, a)
    requires DefaultIncrement(bits, c) || c % 2 == 1 || c == 0
    ensures Measurable(Offset(c), a, c)
  {
    OddPredecessor(c);
  }

  lemma OddPredecessor(c: int)
    ensures c % 2 == 1 <==> Divides(2, c - 1)
  {
  }

  lemma CountingStart(w: nat, e: nat, a: nat, c: nat, start: nat, target: nat, bit: nat)
    requires a < Pow2(w) && c < Pow2(w) && Measurable(e, a, c)
    requires e == 2 ==> Divides(2, start - 1) && Divides(4, start - target)
    requires bit == if e == 2 then 4 else 1
    ensures Counting(w, e, a, c, start, target, 0, 0, start, a, c, bit, 0)
  {
    MeasuringStart(w, e, a, c, start, target);
    FourIs();
    Pow2Monotone(e, w);
    QuotientUnique(Pow2(w), 0, bit);
  }

  // ---- the period ----

  // Steps that add u below 2 * u do so every time.
  lemma {:induction false} WalkAdds(j: nat, e: nat, p: int, q: int, n: nat, x: int)
    requires Adds(j, e, p, q) && StateOk(e, x) && (e == 0 || e == 2)
    ensures Same(Pow2(j + e + 1), Walk(n, p, q, x), x + n * Pow2(j + e))
  {
    var u := Pow2(j + e);
    if n == 0 {
      SameMod(2 * u, x, x);
    } else {
      var y := p * x + q;
      AddsEffect(j, e, p, q, x);
      WalkAdds(j, e, p, q, n - 1, y);
      SameMod(2 * u, (n - 1) * u, (n - 1) * u);
      SameSum(2 * u, y, x + u, (n - 1) * u, (n - 1) * u);
      OneMore(n, u);
      SameTransitive(2 * u, Walk(n, p, q, x), y + (n - 1) * u, x + n * u);
    }
  }

  lemma OneMore(n: int, u: int)
    ensures u + (n - 1) * u == n * u
  {
  }

  // Every positive count is a power of two times an odd number.
  lemma {:induction false} OddPart(n: nat) returns (j: nat, q: nat)
    requires n > 0
    ensures n == Pow2(j) * q && q % 2 == 1
  {
    if n % 2 == 1 {
      j, q := 0, n;
    } else {
      j, q := OddPart(n / 2);
      j := j + 1;
      assert n == 2 * (Pow2(j - 1) * q) == (2 * Pow2(j - 1)) * q;
    }
  }

  lemma {:induction false} StateOkWalk(n: nat, e: nat, a: int, c: int, x: int)
    requires Measurable(e, a, c) && StateOk(e, x)
    ensures StateOk(e, Walk(n, a, c, x))
  {
    if n > 0 {
      if e == 2 {
        OddProduct(a, x) by { assert Divides(4, a - 1); }
      }
      StateOkWalk(n - 1, e, a, c, a * x + c);
    }
  }

  lemma OddStepMoves(j: nat, e: nat, a: nat, c: nat, q: nat, x: int)
    requires Measurable(e, a, c) && StateOk(e, x) && q % 2 == 1
    ensures !Same(Pow2(j + e + 1), Walk(Pow2(j) * q, a, c, x), x)
  {
    var p, b, u := Mult(j, a), Plus(j, a, c), Pow2(j + e);
    WalkPower(j, q, a, c, x);
    AddsPower(j, e, a, c);
    WalkAdds(j, e, p, b, q, x);
    OddMultiple(u, q);
    Commute(u, q);
    var y := Walk(q, p, b, x);
    SameMod(2 * u, y, x);
    SameMod(2 * u, y, x + q * u);
    SameMod(2 * u, x + q * u, x);
    assert x + q * u - x == u * q;
  }

  // The generator comes back to a state after exactly the multiples of its period.
  lemma Period(w: nat, e: nat, a: nat, c: nat, x: int, n: nat)
    requires Measurable(e, a, c) && StateOk(e, x) && e <= w
    ensures Same(Pow2(w), Walk(n, a, c, x), x) <==> Divides(Pow2(w - e), n)
  {
    if n == 0 {
      SameMod(Pow2(w), x, x);
      DividesMultiple(Pow2(w - e), 0);
    } else {
      var j, q := OddPart(n);
      if j + e >= w {
        PeriodReturns(w, e, a, c, x, j, q);
        PeriodMultiple(w - e, j, q);
      } else {
        PeriodMoves(w, e, a, c, x, j, q);
        PeriodNotMultiple(w - e, j, q);
      }
    }
  }

  lemma PeriodMultiple(k: nat, j: nat, q: nat)
    requires k <= j
    ensures Divides(Pow2(k), Pow2(j) * q)
  {
    var z := Pow2(j) * q;
    DividesMultiple(Pow2(j), q);
    SameCoarser(k, j, z, 0);
  }

  lemma PeriodNotMultiple(k: nat, j: nat, q: nat)
    requires j < k && q % 2 == 1
    ensures !Divides(Pow2(k), Pow2(j) * q)
  {
    OddMultiple(Pow2(j), q);
    var z := Pow2(j) * q;
    if Divides(Pow2(k), z) {
      SameCoarser(j + 1, k, z, 0);
    }
  }

  lemma PeriodReturns(w: nat, e: nat, a: nat, c: nat, x: int, j: nat, q: nat)
    requires Measurable(e, a, c) && StateOk(e, x) && j + e >= w
    ensures Same(Pow2(w), Walk(Pow2(j) * q, a, c, x), x)
  {
    var u, y := Pow2(j + e), Walk(Pow2(j) * q, a, c, x);
    WalkPower(j, q, a, c, x);
    AddsPower(j, e, a, c);
    WalkAdds(j, e, Mult(j, a), Plus(j, a, c), q, x);
    SameCoarser(j + e, j + e + 1, y, x + q * u);
    Commute(q, u);
    DividesMultiple(u, q);
    SameTransitive(u, y, x + q * u, x);
    SameCoarser(w, j + e, y, x);
  }

  lemma PeriodMoves(w: nat, e: nat, a: nat, c: nat, x: int, j: nat, q: nat)
    requires Measurable(e, a, c) && StateOk(e, x) && j + e < w && q % 2 == 1
    ensures !Same(Pow2(w), Walk(Pow2(j) * q, a, c, x), x)
  {
    OddStepMoves(j, e, a, c, q, x);
    var y := Walk(Pow2(j) * q, a, c, x);
    if Same(Pow2(w), y, x) {
      SameCoarser(j + e + 1, w, y, x);
    }
  }

  // A distance below the period is the only one.
  lemma DistanceUnique(w: nat, e: nat, a: nat, c: nat, x: nat, n: nat, k: nat)
    requires Measurable(e, a, c) && StateOk(e, x) && e <= w && x < Pow2(w)
    requires n <= k < Pow2(w - e) && Steps(Pow2(w), n, a, c, x) == Steps(Pow2(w), k, a, c, x)
    ensures n == k
  {
    var m, y := Pow2(w), Walk(n, a, c, x);
    StepsWalk(m, n, a, c, x);
    StepsWalk(m, k, a, c, x);
    SameMod(m, Walk(k, a, c, x), y);
    WalkSum(n, k - n, a, c, x);
    StateOkWalk(n, e, a, c, x);
    Period(w, e, a, c, y, k - n);
    QuotientUnique(Pow2(w - e), 0, k - n);
  }

  // ---- the engine ----

  // A generator of states: width, multiplier and increment are fixed by its type.
  class Engine {
    const width: nat
    const multiplier: nat
    const increment: nat
    var state: nat

    ghost predicate Valid()
      reads this
    {
      width > 0 && state < Pow2(width) && multiplier < Pow2(width) && increment < Pow2(width)
    }

    ghost function After(n: nat): int
      reads this
      requires Valid()
    {
      Steps(Pow2(width), n, multiplier, increment, state)
    }

    constructor (width: nat, multiplier: nat, increment: nat, state: nat)
      requires width > 0 && state < Pow2(width) && multiplier < Pow2(width) && increment < Pow2(width)
      ensures Valid() && this.width == width && this.multiplier == multiplier
      ensures this.increment == increment && this.state == state
    {
      this.width, this.multiplier, this.increment, this.state := width, multiplier, increment, state;
    }

    // bump
    method Bump(s: nat) returns (r: nat)
      requires Valid() && s < Pow2(width)
      ensures r < Pow2(width) && r == Steps(Pow2(width), 1, multiplier, increment, s)
    {
      r := (s * multiplier + increment) % Pow2(width);
      Commute(s, multiplier);
      assert Steps(Pow2(width), 0, multiplier, increment, r) == r;
    }

    // base_generate: the new state.
    method BaseGenerate() returns (r: nat)
      requires Valid()
      modifies this
      ensures Valid() && state == old(After(1)) && r == state
    {
      state := Bump(state);
      r := state;
    }

    // base_generate0: the state before the step.
    method BaseGenerate0() returns (r: nat)
      requires Valid()
      modifies this
      ensures Valid() && state == old(After(1)) && r == old(state)
    {
      r := state;
      state := Bump(state);
    }

    // advance and discard
    method AdvanceBy(delta: nat)
      requires Valid() && delta < Pow2(width)
      modifies this
      ensures Valid() && state == old(After(delta))
    {
      state := Advance(Pow2(width), state, delta, multiplier, increment);
    }

    // Stepping forward delta times from the new state gives the old one.
    method Backstep(delta: nat)
      requires Valid() && delta < Pow2(width)
      modifies this
      ensures Valid() && state == old(After(Negated(Pow2(width), delta)))
      ensures Divides(2, multiplier - 1) ==> After(delta) == old(state)
    {
      ghost var was := state;
      AdvanceBy(Negated(Pow2(width), delta));
      if Divides(2, multiplier - 1) {
        NegatedTwice(Pow2(width), delta);
        BackstepRestores(width, Negated(Pow2(width), delta), multiplier, increment, was);
      }
    }

    // The only number of steps below the period that leads to target.
    method DistanceTo(target: nat) returns (r: nat)
      requires Valid() && target < Pow2(width) && Measurable(Offset(increment), multiplier, increment)
      requires increment == 0 ==> Divides(2, state - 1) && Divides(4, state - target)
      ensures Offset(increment) <= width && r < Pow2(width - Offset(increment)) && After(r) == target
      ensures forall n: nat :: n < Pow2(width - Offset(increment)) && After(n) == target ==> n == r
    {
      ghost var rounds;
      r, rounds := Distance(width, state, target, multiplier, increment, Pow2(width) - 1, width);
      OnlyDistance(width, Offset(increment), multiplier, increment, state, target, r);
    }
  }

  lemma OnlyDistance(w: nat, e: nat, a: nat, c: nat, x: nat, target: nat, r: nat)
    requires Measurable(e, a, c) && StateOk(e, x) && x < Pow2(w) && target < Pow2(w) && a < Pow2(w) && c < Pow2(w)
    requires r < Pow2(if w < e then 0 else w - e)
    requires And(Steps(Pow2(w), r, a, c, x), Pow2(w) - 1) == And(target, Pow2(w) - 1)
    ensures e <= w && Steps(Pow2(w), r, a, c, x) == target
    ensures forall n: nat :: n < Pow2(w - e) && Steps(Pow2(w), n, a, c, x) == target ==> n == r
  {
    SmallWidth(w, e, a, c);
    StepsWalk(Pow2(w), r, a, c, x);
    AndFull(w, target);
    AndFull(w, Steps(Pow2(w), r, a, c, x));
    forall n: nat | n < Pow2(w - e) && Steps(Pow2(w), n, a, c, x) == target ensures n == r {
      DistanceUnique(w, e, a, c, x, if n < r then n else r, if n < r then r else n);
    }
  }

  lemma NegatedTwice(m: nat, d: nat)
    requires d < m
    ensures Negated(m, d) < m && Negated(m, Negated(m, d)) == d
  {
    QuotientUnique(m, 1, 0);
    if d > 0 {
      QuotientUnique(m, 0, m - d);
      QuotientUnique(m, 0, d);
    }
  }
}
