// Arithmetic of machine words: residues modulo a power of two.
module Modular {
  function Pow2(n: nat): (r: nat)
    ensures r > 0
  {
    if n == 0 then 1 else 2 * Pow2(n - 1)
  }

  lemma Commute(x: int, y: int)
    ensures x * y == y * x
  {
  }

  lemma TwiceProduct(x: int, y: int)
    ensures 2 * (x * y) == (2 * x) * y
  {
  }

  lemma {:induction false} Pow2Sum(m: nat, n: nat)
    ensures Pow2(m + n) == Pow2(m) * Pow2(n)
  {
    if m == 0 {
      assert Pow2(0) == 1;
    } else {
      calc {
        Pow2(m + n);
      ==  // definition of Pow2
        2 * Pow2(m - 1 + n);
      ==  { Pow2Sum(m - 1, n); }
        2 * (Pow2(m - 1) * Pow2(n));
      ==  { TwiceProduct(Pow2(m - 1), Pow2(n)); }
        (2 * Pow2(m - 1)) * Pow2(n);
      ==  // definition of Pow2
        Pow2(m) * Pow2(n);
      }
    }
  }

  lemma {:induction false} Pow2Monotone(k: nat, n: nat)
    requires k <= n
    ensures Pow2(k) <= Pow2(n) && (k < n ==> Pow2(k) < Pow2(n))
  {
    if k < n {
      Pow2Monotone(k, n - 1);
    }
  }

  // The position of the highest bit of n.
  function Log2(n: nat): (r: nat)
    requires n > 0
    ensures Pow2(r) <= n < 2 * Pow2(r)
  {
    if n == 1 then 0 else 1 + Log2(n / 2)
  }

  lemma Spread(d: int, x: int, y: int)
    ensures d * (x + y) == d * x + d * y
  {
  }

  lemma ProductNonNegative(x: nat, y: nat)
    ensures x * y >= 0
  {
  }

  // d divides x.
  ghost predicate Divides(d: nat, x: int)
    requires d > 0
  {
    x % d == 0
  }

  lemma DivisionUnique(d: nat, q: int, r: nat, q': int, r': nat)
    requires d * q + r == d * q' + r' && r < d && r' < d
    ensures q == q' && r == r'
  {
    if q > q' {
      MultipleGap(d, q, q');
    } else if q < q' {
      MultipleGap(d, q', q);
    }
  }

  lemma MultipleAtLeast(d: nat, k: nat)
    requires k >= 1
    ensures d * k >= d
  {
  }

  lemma MultipleGap(d: nat, k: int, n: int)
    requires k > n
    ensures d * k >= d * n + d
  {
    ProductNonNegative(d, k - n - 1);
    Spread(d, n + 1, k - n - 1);
    Spread(d, n, 1);
  }

  lemma QuotientUnique(d: nat, q: int, r: nat)
    requires r < d
    ensures (d * q + r) / d == q && (d * q + r) % d == r
  {
    var x := d * q + r;
    assert x == d * (x / d) + x % d;
    DivisionUnique(d, q, r, x / d, x % d);
  }

  lemma DividesMultiple(d: nat, k: int)
    requires d > 0
    ensures Divides(d, d * k)
  {
    QuotientUnique(d, k, 0);
  }

  lemma DividesSum(d: nat, x: int, y: int)
    requires d > 0 && Divides(d, x)
    ensures Divides(d, y) ==> Divides(d, x + y) && Divides(d, x - y)
    ensures (x + y) % d == y % d
  {
    var i := x / d;
    var j := y / d;
    assert x == d * i;
    assert y == d * j + y % d;
    QuotientUnique(d, i + j, y % d);
    assert x + y == d * (i + j) + y % d;
    if Divides(d, y) {
      QuotientUnique(d, i - j, 0);
      assert x - y == d * (i - j);
    }
  }

  lemma DividesProduct(d: nat, x: int, y: int)
    requires d > 0 && Divides(d, x)
    ensures Divides(d, x * y)
  {
    var i := x / d;
    assert x * y == d * (i * y);
    DividesMultiple(d, i * y);
  }

  lemma DividesProducts(d: nat, e: nat, x: int, y: int)
    requires d > 0 && e > 0 && d * e > 0 && Divides(d, x) && Divides(e, y)
    ensures Divides(d * e, x * y)
  {
    var i, j := x / d, y / e;
    assert x * y == (d * e) * (i * j);
    DividesMultiple(d * e, i * j);
  }

  // x and y are the same word of modulus m.
  ghost predicate Same(m: nat, x: int, y: int)
    requires m > 0
  {
    Divides(m, x - y)
  }

  lemma SameMod(m: nat, x: int, y: int)
    requires m > 0
    ensures Same(m, x, y) <==> x % m == y % m
  {
    if Same(m, x, y) {
      DividesSum(m, x - y, y);
    }
    if x % m == y % m {
      MultipleDifference(m, x / m, y / m);
      DividesMultiple(m, x / m - y / m);
    }
  }

  lemma MultipleDifference(m: int, i: int, j: int)
    ensures m * i - m * j == m * (i - j)
  {
  }

  // A word stands for every integer it is the residue of.
  lemma SameWord(m: nat, x: int)
    requires m > 0
    ensures Same(m, x % m, x)
  {
    QuotientUnique(m, 0, x % m);
    SameMod(m, x % m, x);
  }

  lemma SameTransitive(m: nat, x: int, y: int, z: int)
    requires m > 0 && Same(m, x, y) && Same(m, y, z)
    ensures Same(m, x, z) && Same(m, y, x)
  {
    SameMod(m, x, y);
    SameMod(m, y, z);
    SameMod(m, x, z);
    SameMod(m, y, x);
  }

  lemma SameSum(m: nat, x: int, x': int, y: int, y': int)
    requires m > 0 && Same(m, x, x') && Same(m, y, y')
    ensures Same(m, x + y, x' + y') && Same(m, x - y, x' - y')
  {
    DividesSum(m, x - x', y - y');
    assert (x + y) - (x' + y') == (x - x') + (y - y');
    assert (x - y) - (x' - y') == (x - x') - (y - y');
  }

  lemma SameProduct(m: nat, x: int, x': int, y: int, y': int)
    requires m > 0 && Same(m, x, x') && Same(m, y, y')
    ensures Same(m, x * y, x' * y')
  {
    DividesProduct(m, x - x', y);
    DividesProduct(m, y - y', x');
    DividesSum(m, (x - x') * y, (y - y') * x');
    ProductDifference(x, x', y, y');
  }

  lemma ProductDifference(x: int, x': int, y: int, y': int)
    ensures x * y - x' * y' == (x - x') * y + (y - y') * x'
  {
  }
}
