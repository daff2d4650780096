// Four-limb unsigned integers (uint_x4) in little-endian limb order. A limb has
// `bits` bits; everything holds for every limb width.
module Uint128 {
  import opened Modular

  predicate Limbs(B: nat, v: seq<int>) {
    B > 1 && |v| == 4 && 0 <= v[0] < B && 0 <= v[1] < B && 0 <= v[2] < B && 0 <= v[3] < B
  }

  // The number four limbs in base B stand for.
  function Horner(B: int, x0: int, x1: int, x2: int, x3: int): int {
    x0 + B * (x1 + B * (x2 + B * x3))
  }

  function Value(B: nat, v: seq<int>): int
    requires |v| == 4
  {
    Horner(B, v[0], v[1], v[2], v[3])
  }

  // B^4, one more than the largest number.
  function Range(B: nat): (r: nat)
    ensures B > 0 ==> r > 0
  {
    B * (B * (B * B))
  }

  lemma ValueBound(B: nat, v: seq<int>)
    requires Limbs(B, v)
    ensures 0 <= Value(B, v) < Range(B)
  {
    LimbBound(B, v[2], v[3], B);
    LimbBound(B, v[1], v[2] + B * v[3], B * B);
    LimbBound(B, v[0], v[1] + B * (v[2] + B * v[3]), B * (B * B));
  }

  lemma LimbBound(B: nat, x: nat, rest: int, bound: nat)
    requires x < B && 0 <= rest < bound
    ensures 0 <= x + B * rest < B * bound
  {
    assert B * rest <= B * (bound - 1) == B * bound - B;
  }

  // ---- carry chains ----

  // One limb of a chain: what it passes on is what the limbs above take in.
  lemma ChainStep(B: int, r: int, c': int, x: int, c: int, t: int, s: int)
    requires r + B * c' == x + c && t == s + c'
    ensures r + B * t == x + B * s + c
  {
    assert B * t == B * s + B * c';
  }

  // Four limbs with carries, or with borrows as negative carries.
  lemma Chain(B: int, r0: int, r1: int, r2: int, r3: int, x0: int, x1: int, x2: int, x3: int,
      c1: int, c2: int, c3: int, c4: int)
    requires r0 + B * c1 == x0
    requires r1 + B * c2 == x1 + c1
    requires r2 + B * c3 == x2 + c2
    requires r3 + B * c4 == x3 + c3
    ensures Horner(B, r0, r1, r2, r3) + B * (B * (B * (B * c4))) == Horner(B, x0, x1, x2, x3)
  {
    var t3 := r3 + B * c4;
    ChainStep(B, r2, c3, x2, c2, t3, x3);
    var t2 := r2 + B * t3;
    ChainStep(B, r1, c2, x1, c1, t2, x2 + B * x3);
    var t1 := r1 + B * t2;
    ChainStep(B, r0, c1, x0, 0, t1, x1 + B * (x2 + B * x3));
    assert B * t3 == B * r3 + B * (B * c4);
    assert t2 == (r2 + B * r3) + B * (B * c4);
    Spread(B, r2 + B * r3, B * (B * c4));
    assert t1 == (r1 + B * (r2 + B * r3)) + B * (B * (B * c4));
    Spread(B, r1 + B * (r2 + B * r3), B * (B * (B * c4)));
  }

  lemma RangeMultiple(B: nat, c: int)
    ensures B * (B * (B * (B * c))) == Range(B) * c
  {
    assert B * (B * c) == (B * B) * c;
    assert B * ((B * B) * c) == (B * (B * B)) * c;
    assert B * ((B * (B * B)) * c) == (B * (B * (B * B))) * c;
  }

  lemma HornerSum(B: int, x0: int, x1: int, x2: int, x3: int, y0: int, y1: int, y2: int, y3: int)
    ensures Horner(B, x0 + y0, x1 + y1, x2 + y2, x3 + y3) == Horner(B, x0, x1, x2, x3) + Horner(B, y0, y1, y2, y3)
  {
    Spread(B, x3, y3);
    Spread(B, x2 + B * x3, y2 + B * y3);
    Spread(B, x1 + B * (x2 + B * x3), y1 + B * (y2 + B * y3));
  }

  lemma HornerDifference(B: int, x0: int, x1: int, x2: int, x3: int, y0: int, y1: int, y2: int, y3: int)
    ensures Horner(B, x0 - y0, x1 - y1, x2 - y2, x3 - y3) == Horner(B, x0, x1, x2, x3) - Horner(B, y0, y1, y2, y3)
  {
    HornerSum(B, x0 - y0, x1 - y1, x2 - y2, x3 - y3, y0, y1, y2, y3);
  }

  function Bit(b: bool): nat {
    if b then 1 else 0
  }

  // A borrow is a carry of minus one.
  function Borrow(b: bool): int {
    if b then -1 else 0
  }

  // addwithcarry: the carry tests see every overflow of either addition.
  method AddWithCarry(B: nat, x: nat, y: nat, carryIn: bool) returns (result: nat, carryOut: bool)
    requires B > 1 && x < B && y < B
    ensures result < B && result + B * Bit(carryOut) == x + y + Bit(carryIn)
  {
    var half := (y + Bit(carryIn)) % B;
    Wrap(B, y + Bit(carryIn));
    result := (x + half) % B;
    Wrap(B, x + half);
    carryOut := half < y || result < x;
    assert B * Bit(carryOut) == if carryOut then B else 0;
  }

  lemma Wrap(B: nat, z: nat)
    requires z < 2 * B
    ensures z % B == if z < B then z else z - B
  {
    if z < B {
      QuotientUnique(B, 0, z);
    } else {
      QuotientUnique(B, 1, z - B);
    }
  }

  // subwithcarry
  method SubWithCarry(B: nat, x: nat, y: nat, carryIn: bool) returns (result: nat, carryOut: bool)
    requires B > 1 && x < B && y < B
    ensures result < B && result + B * Borrow(carryOut) == x - y + Borrow(carryIn)
  {
    var half := (y + Bit(carryIn)) % B;
    Wrap(B, y + Bit(carryIn));
    result := (x - half) % B;
    if x >= half {
      QuotientUnique(B, 0, x - half);
    } else {
      QuotientUnique(B, -1, x - half + B);
    }
    carryOut := half < y || result > x;
    assert B * Borrow(carryOut) == if carryOut then 0 - B else 0;
  }

  // operator+
  method Plus(B: nat, a: seq<int>, b: seq<int>) returns (r: seq<int>)
    requires Limbs(B, a) && Limbs(B, b)
    ensures Limbs(B, r) && Value(B, r) == (Value(B, a) + Value(B, b)) % Range(B)
  {
    var r0, c1 := AddWithCarry(B, a[0], b[0], false);
    var r1, c2 := AddWithCarry(B, a[1], b[1], c1);
    var r2, c3 := AddWithCarry(B, a[2], b[2], c2);
    var r3, c4 := AddWithCarry(B, a[3], b[3], c3);
    r := [r0, r1, r2, r3];
    Chain(B, r0, r1, r2, r3, a[0] + b[0], a[1] + b[1], a[2] + b[2], a[3] + b[3], Bit(c1), Bit(c2), Bit(c3), Bit(c4));
    HornerSum(B, a[0], a[1], a[2], a[3], b[0], b[1], b[2], b[3]);
    ChainResult(B, r, Value(B, a) + Value(B, b), Bit(c4));
  }

  // What leaves the top limb is lost.
  lemma ChainResult(B: nat, r: seq<int>, x: int, c: int)
    requires Limbs(B, r) && Value(B, r) + B * (B * (B * (B * c))) == x
    ensures Value(B, r) == x % Range(B)
  {
    ValueBound(B, r);
    RangeMultiple(B, c);
    QuotientUnique(Range(B), c, Value(B, r));
  }

  // operator-
  method Minus(B: nat, a: seq<int>, b: seq<int>) returns (r: seq<int>)
    requires Limbs(B, a) && Limbs(B, b)
    ensures Limbs(B, r) && Value(B, r) == (Value(B, a) - Value(B, b)) % Range(B)
  {
    var r0, c1 := SubWithCarry(B, a[0], b[0], false);
    var r1, c2 := SubWithCarry(B, a[1], b[1], c1);
    var r2, c3 := SubWithCarry(B, a[2], b[2], c2);
    var r3, c4 := SubWithCarry(B, a[3], b[3], c3);
    r := [r0, r1, r2, r3];
    Chain(B, r0, r1, r2, r3, a[0] - b[0], a[1] - b[1], a[2] - b[2], a[3] - b[3],
      Borrow(c1), Borrow(c2), Borrow(c3), Borrow(c4));
    HornerDifference(B, a[0], a[1], a[2], a[3], b[0], b[1], b[2], b[3]);
    ChainResult(B, r, Value(B, a) - Value(B, b), Borrow(c4));
  }

  // ---- comparison ----

  // d.v01 and d.v23
  function Low(B: nat, v: seq<int>): int
    requires |v| == 4
  {
    v[0] + B * v[1]
  }

  function High(B: nat, v: seq<int>): int
    requires |v| == 4
  {
    v[2] + B * v[3]
  }

  lemma Halves(B: nat, v: seq<int>)
    requires Limbs(B, v)
    ensures Value(B, v) == Low(B, v) + (B * B) * High(B, v)
    ensures 0 <= Low(B, v) < B * B && 0 <= High(B, v) < B * B
  {
    Spread(B, v[1], B * High(B, v));
    assert B * (B * High(B, v)) == (B * B) * High(B, v);
    LimbBound(B, v[0], v[1], B);
    LimbBound(B, v[2], v[3], B);
  }

  // operator<
  predicate Less(B: nat, a: seq<int>, b: seq<int>)
    requires |a| == 4 && |b| == 4
  {
    High(B, a) < High(B, b) || (High(B, a) == High(B, b) && Low(B, a) < Low(B, b))
  }

  lemma LessValue(B: nat, a: seq<int>, b: seq<int>)
    requires Limbs(B, a) && Limbs(B, b)
    ensures Less(B, a, b) <==> Value(B, a) < Value(B, b)
  {
    Halves(B, a);
    Halves(B, b);
    var D := B * B;
    if High(B, a) < High(B, b) {
      MultipleGap(D, High(B, b), High(B, a));
    } else if High(B, b) < High(B, a) {
      MultipleGap(D, High(B, a), High(B, b));
    }
  }

  // ---- multiplication ----

  // Limbs one to three of a number, divided by B.
  function Three(B: int, x1: int, x2: int, x3: int): int {
    x1 + B * (x2 + B * x3)
  }

  function Cube(B: int): int {
    B * (B * B)
  }

  // y added at the second limb, its carry running to the top.
  method AddAtSecond(B: nat, x1: nat, x2: nat, x3: nat, y: nat) returns (r1: nat, r2: nat, r3: nat, lost: bool)
    requires B > 1 && x1 < B && x2 < B && x3 < B && y < B
    ensures r1 < B && r2 < B && r3 < B
    ensures Three(B, r1, r2, r3) + Cube(B) * Bit(lost) == Three(B, x1, x2, x3) + y
  {
    var carry;
    r1, carry := AddWithCarry(B, x1, y, false);
    ghost var c1 := carry;
    r2, carry := AddWithCarry(B, x2, 0, carry);
    ghost var c2 := carry;
    r3, lost := AddWithCarry(B, x3, 0, carry);
    Chain(B, r1, r2, r3, Bit(lost), x1 + y, x2, x3, 0, Bit(c1), Bit(c2), Bit(lost), 0);
    HornerThree(B, r1, r2, r3, Bit(lost));
    HornerThree(B, x1 + y, x2, x3, 0);
  }

  lemma HornerThree(B: int, x1: int, x2: int, x3: int, c: int)
    ensures Horner(B, x1, x2, x3, c) == Three(B, x1, x2, x3) + Cube(B) * c
  {
    Spread(B, x3, B * c);
    Spread(B, x2 + B * x3, B * (B * c));
    assert B * (B * c) == (B * B) * c;
    assert B * ((B * B) * c) == Cube(B) * c;
  }

  // y2 and y3 added at the two top limbs.
  method AddAtThird(B: nat, x2: nat, x3: nat, y2: nat, y3: nat) returns (r2: nat, r3: nat, lost: bool)
    requires B > 1 && x2 < B && x3 < B && y2 < B && y3 < B
    ensures r2 < B && r3 < B
    ensures r2 + B * r3 + (B * B) * Bit(lost) == x2 + B * x3 + (y2 + B * y3)
  {
    var carry;
    r2, carry := AddWithCarry(B, x2, y2, false);
    r3, lost := AddWithCarry(B, x3, y3, carry);
    Spread(B, x3, y3);
    Spread(B, r3, B * Bit(lost));
    Spread(B, x3 + y3, Bit(carry));
    assert B * (B * Bit(lost)) == (B * B) * Bit(lost);
  }

  lemma LiftSecond(B: int, x1: int, x2: int, x3: int, y: int, r2: int, r3: int, lost: int)
    requires r2 + B * r3 + (B * B) * lost == x2 + B * x3 + y
    ensures Three(B, x1, r2, r3) + Cube(B) * lost == Three(B, x1, x2, x3) + B * y
  {
    Spread(B, r2 + B * r3, (B * B) * lost);
    Spread(B, x2 + B * x3, y);
    assert B * ((B * B) * lost) == Cube(B) * lost;
  }

  lemma ProductBound(x: nat, y: nat, D: nat)
    requires x < D && y < D
    ensures x * y < D * D
  {
    assert x * y <= x * D <= D * D;
    if x * y == D * D {
      MultipleGap(D, D, x);
    }
  }

  lemma HighLimbs(B: nat, x: nat)
    requires B > 1 && x < B * B
    ensures x / B < B && x == B * (x / B) + x % B
  {
    if x / B >= B {
      MultipleMonotone(B, B, x / B);
    }
  }

  lemma MultipleMonotone(d: nat, k: int, n: int)
    requires k <= n
    ensures d * k <= d * n
  {
  }

  // A product of two limbs fits two limbs.
  method LimbProduct(B: nat, x: nat, y: nat) returns (low: nat, high: nat)
    requires B > 1 && x < B && y < B
    ensures low < B && high < B && low + B * high == x * y
  {
    var product := x * y;
    ProductBound(x, y, B);
    HighLimbs(B, product);
    low, high := product % B, product / B;
  }

  lemma Expand(B: int, a0: int, a1: int, b0: int, b1: int)
    ensures (a0 + B * a1) * (b0 + B * b1) == a0 * b0 + B * (a1 * b0 + a0 * b1 + B * (a1 * b1))
  {
    assert (a0 + B * a1) * (b0 + B * b1) == a0 * (b0 + B * b1) + (B * a1) * (b0 + B * b1);
    assert a0 * (b0 + B * b1) == a0 * b0 + B * (a0 * b1);
    assert (B * a1) * (b0 + B * b1) == B * (a1 * b0 + B * (a1 * b1));
    Spread(B, a0 * b1, a1 * b0 + B * (a1 * b1));
  }

  // The carries dropped at the top of the low product are all zero.
  lemma NoCarryLost(B: nat, r: seq<int>, product: int, carries: nat, x: nat, y: nat)
    requires Limbs(B, r) && x < B * B && y < B * B && product == x * y
    requires Value(B, r) + B * (Cube(B) * carries) == product
    ensures Value(B, r) == product
  {
    ProductBound(x, y, B * B);
    ValueBound(B, r);
    RangeSquare(B);
    assert B * (Cube(B) * carries) == Range(B) * carries;
    if carries > 0 {
      MultipleAtLeast(Range(B), carries);
    }
  }

  lemma RangeSquare(B: nat)
    ensures Range(B) == (B * B) * (B * B)
  {
    assert B * (B * (B * B)) == (B * B) * (B * B);
  }

  // The sum of the partial products above the first limb, in the source's order:
  // h00, then the products for limb one in two ways, then the one for limb two.
  method AddProducts(B: nat, h00: nat, l10: nat, h10: nat, l01: nat, h01: nat, l11: nat, h11: nat)
    returns (r1: nat, r2: nat, r3: nat, ghost lost: nat)
    requires B > 1 && h00 < B && l10 < B && h10 < B && l01 < B && h01 < B && l11 < B && h11 < B
    ensures r1 < B && r2 < B && r3 < B
    ensures Three(B, r1, r2, r3) + Cube(B) * lost
      == h00 + (l10 + B * h10) + (l01 + B * h01) + B * (l11 + B * h11)
  {
    var lost1, lost2, lost3, lost4;
    r1, r2, r3, lost1 := AddAtSecond(B, h00, h10, 0, l10);
    ghost var s2: nat, s3: nat := r2, r3;
    r2, r3, lost2 := AddAtThird(B, r2, r3, h01, 0);
    LiftSecond(B, r1, s2, s3, h01, r2, r3, Bit(lost2));
    r1, r2, r3, lost3 := AddAtSecond(B, r1, r2, r3, l01);
    s2, s3 := r2, r3;
    r2, r3, lost4 := AddAtThird(B, r2, r3, l11, h11);
    LiftSecond(B, r1, s2, s3, l11 + B * h11, r2, r3, Bit(lost4));
    lost := Bit(lost1) + Bit(lost2) + Bit(lost3) + Bit(lost4);
    FourMultiples(Cube(B), Bit(lost1), Bit(lost2), Bit(lost3), Bit(lost4));
  }

  // The product of the two low halves, limb by limb.
  method LowProduct(B: nat, a0: nat, a1: nat, b0: nat, b1: nat) returns (r: seq<int>)
    requires B > 1 && a0 < B && a1 < B && b0 < B && b1 < B
    ensures Limbs(B, r) && Value(B, r) == (a0 + B * a1) * (b0 + B * b1)
  {
    var r0, h00 := LimbProduct(B, a0, b0);
    var l10, h10 := LimbProduct(B, a1, b0);
    var l01, h01 := LimbProduct(B, a0, b1);
    var l11, h11 := LimbProduct(B, a1, b1);
    var r1, r2, r3;
    ghost var lost: nat;
    r1, r2, r3, lost := AddProducts(B, h00, l10, h10, l01, h01, l11, h11);
    r := [r0, r1, r2, r3];
    LowProductSum(B, a0, a1, b0, b1, r, h00, lost, a0 * b0, a1 * b0 + a0 * b1 + B * (a1 * b1));
  }

  lemma LowProductSum(B: nat, a0: nat, a1: nat, b0: nat, b1: nat, r: seq<int>, h00: nat, lost: nat, p: int, q: int)
    requires Limbs(B, r) && a0 < B && a1 < B && b0 < B && b1 < B
    requires p == a0 * b0 && q == a1 * b0 + a0 * b1 + B * (a1 * b1)
    requires r[0] + B * h00 == p && Three(B, r[1], r[2], r[3]) + Cube(B) * lost == h00 + q
    ensures Value(B, r) == (a0 + B * a1) * (b0 + B * b1)
  {
    Spread(B, Three(B, r[1], r[2], r[3]), Cube(B) * lost);
    Spread(B, h00, q);
    Expand(B, a0, a1, b0, b1);
    LimbBound(B, a0, a1, B);
    LimbBound(B, b0, b1, B);
    NoCarryLost(B, r, (a0 + B * a1) * (b0 + B * b1), lost, a0 + B * a1, b0 + B * b1);
  }

  lemma FourMultiples(c: int, l1: int, l2: int, l3: int, l4: int)
    ensures c * l1 + c * l2 + c * l3 + c * l4 == c * (l1 + l2 + l3 + l4)
  {
  }

  // The two limbs of a double limb.
  method Split(B: nat, x: nat) returns (low: nat, high: nat)
    requires B > 1 && x < B * B
    ensures low < B && high < B && low + B * high == x
  {
    HighLimbs(B, x);
    low, high := x % B, x / B;
  }

  method AddDouble(D: nat, x: nat, y: nat) returns (z: nat)
    requires D > 0
    ensures z < D && z == (x + y) % D
  {
    z := (x + y) % D;
  }

  method CrossSum(la: nat, ha: nat, lb: nat, hb: nat) returns (cross: nat)
    ensures cross == la * hb + ha * lb
  {
    cross := la * hb + ha * lb;
  }

  // r.d.v23 += cross, in a double limb.
  method AddToHigh(B: nat, v: seq<int>, cross: nat) returns (r: seq<int>)
    requires Limbs(B, v)
    ensures Limbs(B, r) && Low(B, r) == Low(B, v) && High(B, r) == (High(B, v) + cross) % (B * B)
  {
    Halves(B, v);
    var r23 := AddDouble(B * B, High(B, v), cross);
    var r2, r3 := Split(B, r23);
    r := [v[0], v[1], r2, r3];
  }

  // operator*
  method Times(B: nat, a: seq<int>, b: seq<int>) returns (r: seq<int>)
    requires Limbs(B, a) && Limbs(B, b)
    ensures Limbs(B, r) && Value(B, r) == (Value(B, a) * Value(B, b)) % Range(B)
  {
    var low := LowProduct(B, a[0], a[1], b[0], b[1]);
    Halves(B, a);
    Halves(B, b);
    var cross := CrossSum(Low(B, a), High(B, a), Low(B, b), High(B, b));
    r := AddToHigh(B, low, cross);
    TimesSum(B, a, b, low, r, cross);
  }

  lemma TimesSum(B: nat, a: seq<int>, b: seq<int>, low: seq<int>, r: seq<int>, cross: int)
    requires Limbs(B, a) && Limbs(B, b) && Limbs(B, low) && Limbs(B, r)
    requires Value(B, low) == Low(B, a) * Low(B, b) && Low(B, r) == Low(B, low)
    requires cross == Low(B, a) * High(B, b) + High(B, a) * Low(B, b)
    requires High(B, r) == (High(B, low) + cross) % (B * B)
    ensures Value(B, r) == (Value(B, a) * Value(B, b)) % Range(B)
  {
    var D := B * B;
    Halves(B, a);
    Halves(B, b);
    Halves(B, low);
    Halves(B, r);
    RangeSquare(B);
    HalvesSum(D, Low(B, a), High(B, a), Low(B, b), High(B, b), Low(B, low), High(B, low), High(B, r));
  }

  // Multiplying by halves: the product of the high halves does not reach the result.
  lemma HalvesSum(D: nat, la: nat, ha: nat, lb: nat, hb: nat, low: nat, high: nat, h: nat)
    requires D > 0 && low < D && la * lb == low + D * high
    requires h == (high + (la * hb + ha * lb)) % D
    ensures low + D * h == ((la + D * ha) * (lb + D * hb)) % (D * D)
  {
    var q := (high + (la * hb + ha * lb)) / D;
    HalvesValue(D, la, ha, lb, hb, low, high, q, h);
    LimbBound(D, low, h, D);
    QuotientUnique(D * D, q + ha * hb, low + D * h);
  }

  lemma HalvesValue(D: int, la: int, ha: int, lb: int, hb: int, low: int, high: int, q: int, h: int)
    requires la * lb == low + D * high && high + (la * hb + ha * lb) == D * q + h
    ensures (la + D * ha) * (lb + D * hb) == (D * D) * (q + ha * hb) + (low + D * h)
  {
    Expand(D, la, ha, lb, hb);
    HalfProduct(D, low, high, la * hb + ha * lb, ha * hb, q, h);
  }

  lemma HalfProduct(D: int, low: int, high: int, m: int, top: int, q: int, h: int)
    requires high + m == D * q + h
    ensures low + D * high + D * (m + D * top) == low + D * h + (D * D) * (q + top)
  {
    Spread(D, high, m + D * top);
    assert high + (m + D * top) == h + D * (q + top);
    Spread(D, h, D * (q + top));
    assert D * (D * (q + top)) == (D * D) * (q + top);
  }

  // ---- limbs of any number ----

  ghost function Val(B: nat, v: seq<int>): int {
    if v == [] then 0 else v[0] + B * Val(B, v[1..])
  }

  function Power(B: nat, n: nat): (r: nat)
    ensures B > 0 ==> r > 0
  {
    if n == 0 then 1 else B * Power(B, n - 1)
  }

  lemma ValFour(B: nat, v: seq<int>)
    requires |v| == 4
    ensures Val(B, v) == Value(B, v)
  {
    var w := v[1..];
    var x := w[1..];
    var y := x[1..];
    assert Val(B, y) == y[0] + B * Val(B, y[1..]) && Val(B, y[1..]) == 0;
    assert Val(B, x) == x[0] + B * Val(B, y);
    assert Val(B, w) == w[0] + B * Val(B, x);
    assert w[0] == v[1] && x[0] == v[2] && y[0] == v[3];
  }

  lemma RangePower(B: nat)
    ensures Power(B, 4) == Range(B)
  {
    assert Power(B, 1) == B * Power(B, 0) == B;
    assert Power(B, 2) == B * Power(B, 1);
    assert Power(B, 3) == B * Power(B, 2);
    assert Power(B, 4) == B * Power(B, 3);
  }

  lemma {:induction false} PowerPow2(bits: nat, n: nat)
    ensures Power(Pow2(bits), n) == Pow2(bits * n)
  {
    if n > 0 {
      PowerPow2(bits, n - 1);
      Pow2Sum(bits, bits * (n - 1));
      assert bits * n == bits + bits * (n - 1);
    } else {
      assert bits * n == 0;
    }
  }

  ghost predicate AllLimbs(B: nat, v: seq<int>) {
    forall i :: 0 <= i < |v| ==> 0 <= v[i] < B
  }

  // Limbs above a split weigh a power of the base more.
  lemma {:induction false} ValSplit(B: nat, v: seq<int>, k: nat)
    requires k <= |v|
    ensures Val(B, v) == Val(B, v[..k]) + Power(B, k) * Val(B, v[k..])
  {
    if k == 0 {
      assert v[0..] == v;
    } else {
      var rest := v[1..];
      ValSplit(B, rest, k - 1);
      assert rest[k - 1..] == v[k..];
      assert v[..k][1..] == rest[..k - 1];
      Spread(B, Val(B, rest[..k - 1]), Power(B, k - 1) * Val(B, v[k..]));
      Regroup(B, Power(B, k - 1), Val(B, v[k..]));
    }
  }

  lemma Regroup(x: int, y: int, z: int)
    ensures x * (y * z) == (x * y) * z
  {
  }

  lemma {:induction false} ValBound(B: nat, v: seq<int>)
    requires B > 0 && AllLimbs(B, v)
    ensures 0 <= Val(B, v) < Power(B, |v|)
  {
    if v != [] {
      ValBound(B, v[1..]);
      LimbBound(B, v[0], Val(B, v[1..]), Power(B, |v| - 1));
    }
  }

  lemma {:induction false} ValZeros(B: nat, v: seq<int>)
    requires forall i :: 0 <= i < |v| ==> v[i] == 0
    ensures Val(B, v) == 0
  {
    if v != [] {
      ValZeros(B, v[1..]);
      assert B * 0 == 0;
    }
  }

  // ---- shifts ----

  // The bitwise or of two words.
  function Or(x: nat, y: nat): nat
    decreases x + y
  {
    if x == 0 && y == 0 then 0 else Bit(x % 2 == 1 || y % 2 == 1) + 2 * Or(x / 2, y / 2)
  }

  lemma {:induction false} OrZero(x: nat)
    ensures Or(x, 0) == x
  {
    if x > 0 {
      OrZero(x / 2);
    }
  }

  // Words without a bit in common are or-ed by adding them.
  lemma {:induction false} OrDisjoint(k: nat, m: nat, y: nat)
    requires y < Pow2(k)
    ensures Or(m * Pow2(k), y) == m * Pow2(k) + y
  {
    if k == 0 {
      OrZero(m);
    } else {
      OrDisjoint(k - 1, m, y / 2);
      DoubledProduct(m, Pow2(k - 1));
    }
  }

  lemma DoubledProduct(m: int, u: int)
    ensures m * (2 * u) == 2 * (m * u)
  {
  }

  // A limb shifted left by s: what stays and what is carried over.
  lemma LeftLimb(B: nat, P: nat, Q: nat, s: nat, x: nat, carry: nat)
    requires Shifting(B, P, Q, s) && x < B && carry < P
    ensures LeftOut(B, P, x, carry) + B * LeftCarry(Q, x) == x * P + carry
    ensures LeftOut(B, P, x, carry) < B && LeftCarry(Q, x) < P
  {
    LimbParts(P, Q, x, carry);
    OrDisjoint(s, x % Q, carry);
  }

  lemma LimbParts(P: nat, Q: nat, x: nat, c: nat)
    requires 0 < Q && x < P * Q && c < P
    ensures (x * P) % (P * Q) == (x % Q) * P && x / Q < P
    ensures (x % Q) * P + c < P * Q && (x % Q) * P + (P * Q) * (x / Q) == x * P
  {
    var k, m := x / Q, x % Q;
    SplitTimes(P, Q, k, m, x);
    BelowProduct(m, Q, P, c);
    QuotientUnique(P * Q, k, m * P);
    QuotientBelow(x, Q, P);
  }

  lemma SplitTimes(P: int, Q: int, k: int, m: int, x: int)
    requires x == Q * k + m
    ensures x * P == (P * Q) * k + m * P
  {
    assert (Q * k) * P == (P * Q) * k;
  }

  lemma BelowProduct(m: nat, Q: nat, P: nat, c: nat)
    requires m < Q && c < P
    ensures m * P + c < P * Q
  {
    assert m * P <= (Q - 1) * P == P * Q - P;
  }

  lemma QuotientBelow(x: nat, Q: nat, P: nat)
    requires Q > 0 && x < P * Q
    ensures x / Q < P
  {
    if x / Q >= P {
      MultipleMonotone(Q, P, x / Q);
    }
  }

  // What a limb becomes and what it carries over, P being 2^s and Q the rest of the base.
  function LeftOut(B: nat, P: nat, x: nat, carry: nat): nat
    requires B > 0
  {
    Or((x * P) % B, carry)
  }

  function LeftCarry(Q: nat, x: nat): nat
    requires Q > 0
  {
    x / Q
  }

  // The limbs of v shifted left, low limb first.
  ghost function LeftLimbs(B: nat, P: nat, Q: nat, v: seq<int>, carry: nat): (w: seq<nat>)
    requires B > 0 && Q > 0 && AllLimbs(B, v)
    ensures |w| == |v|
  {
    if v == [] then []
    else [LeftOut(B, P, v[0], carry)] + LeftLimbs(B, P, Q, v[1..], LeftCarry(Q, v[0]))
  }

  ghost function LeftAt(B: nat, P: nat, Q: nat, v: seq<int>, carry: nat, i: nat): nat
    requires B > 0 && Q > 0 && AllLimbs(B, v) && i < |v|
  {
    LeftOut(B, P, v[i], if i == 0 then carry else LeftCarry(Q, v[i - 1]))
  }

  lemma {:induction false} LeftLimbsAt(B: nat, P: nat, Q: nat, v: seq<int>, carry: nat, i: nat)
    requires B > 0 && Q > 0 && AllLimbs(B, v) && i < |v|
    ensures LeftLimbs(B, P, Q, v, carry)[i] == LeftAt(B, P, Q, v, carry, i)
  {
    if i > 0 {
      LeftLimbsAt(B, P, Q, v[1..], LeftCarry(Q, v[0]), i - 1);
    }
  }

  // A base as 2^s times the rest of it.
  ghost predicate Shifting(B: nat, P: nat, Q: nat, s: nat) {
    B == P * Q && P == Pow2(s) && B > 0 && Q > 0
  }

  lemma {:induction false} LeftLimbsValue(B: nat, P: nat, Q: nat, s: nat, v: seq<int>, carry: nat) returns (lost: nat)
    requires Shifting(B, P, Q, s) && AllLimbs(B, v) && carry < P
    ensures var w := LeftLimbs(B, P, Q, v, carry);
      AllLimbs(B, w) && Val(B, w) + Power(B, |v|) * lost == Val(B, v) * P + carry
  {
    if v == [] {
      lost := carry;
    } else {
      var c' := LeftCarry(Q, v[0]);
      LeftLimb(B, P, Q, s, v[0], carry);
      lost := LeftLimbsValue(B, P, Q, s, v[1..], c');
      var w := LeftLimbs(B, P, Q, v, carry);
      var w' := LeftLimbs(B, P, Q, v[1..], c');
      assert w[1..] == w';
      assert forall i :: 0 < i < |w| ==> w[i] == w'[i - 1];
      LeftSum(B, P, w[0], Val(B, w'), v[0], Val(B, v[1..]), c', carry, Power(B, |v| - 1), lost);
    }
  }

  lemma LeftSum(B: int, P: int, w0: int, w: int, v0: int, v: int, c': int, carry: int, power: int, lost: int)
    requires w0 + B * c' == v0 * P + carry && w + power * lost == v * P + c'
    ensures (w0 + B * w) + (B * power) * lost == (v0 + B * v) * P + carry
  {
    Spread(B, w, power * lost);
    Spread(B, v * P, c');
    assert (B * power) * lost == B * (power * lost);
    assert (v0 + B * v) * P == v0 * P + B * (v * P);
  }

  // r is v moved up by d limbs and shifted left by less than one.
  ghost predicate LeftShifted(B: nat, P: nat, Q: nat, v: seq<int>, d: nat, out: int, r: seq<int>)
    requires B > 0 && Q > 0 && AllLimbs(B, v) && |v| == 4
  {
    |r| == 4 && forall j :: 0 <= j < 4 ==> r[j] == if d <= j < out then LeftAt(B, P, Q, v, 0, j - d) else 0
  }

  // The loop of operator<< for a shift by whole limbs and some bits.
  method ShiftLeftBits(B: nat, P: nat, Q: nat, v: seq<int>, shiftdiv: nat) returns (r: seq<int>)
    requires B > 0 && Q > 0 && AllLimbs(B, v) && |v| == 4
    ensures LeftShifted(B, P, Q, v, shiftdiv, 4, r)
  {
    r := [0, 0, 0, 0];
    var carryover: nat, out, i := 0, shiftdiv, 0;
    while out < 4
      invariant out == shiftdiv + i && LeftShifted(B, P, Q, v, shiftdiv, out, r)
      invariant out <= 4 ==> carryover == if i == 0 then 0 else LeftCarry(Q, v[i - 1])
    {
      r := r[out := LeftOut(B, P, v[i], carryover)];
      carryover := LeftCarry(Q, v[i]);
      out, i := out + 1, i + 1;
    }
  }

  // The loop of operator<< for a shift by whole limbs.
  method ShiftLeftLimbs(v: seq<int>, shiftdiv: nat) returns (r: seq<int>)
    requires |v| == 4
    ensures |r| == 4 && forall j :: 0 <= j < 4 ==> r[j] == if shiftdiv <= j then v[j - shiftdiv] else 0
  {
    r := [0, 0, 0, 0];
    var out, i := shiftdiv, 0;
    while out < 4
      invariant out == shiftdiv + i && |r| == 4
      invariant forall j :: 0 <= j < 4 ==> r[j] == if shiftdiv <= j < out then v[j - shiftdiv] else 0
    {
      r := r[out := v[i]];
      out, i := out + 1, i + 1;
    }
  }

  // operator<<, for a little-endian machine.
  method ShiftLeft(bits: nat, v: seq<int>, shift: nat) returns (r: seq<int>)
    requires bits > 0 && Limbs(Pow2(bits), v)
    ensures Limbs(Pow2(bits), r) && Value(Pow2(bits), r) == (Value(Pow2(bits), v) * Pow2(shift)) % Range(Pow2(bits))
  {
    var shiftdiv, shiftmod := shift / bits, shift % bits;
    var B, P, Q := Pow2(bits), Pow2(shiftmod), Pow2(bits - shiftmod);
    Pow2Sum(shiftmod, bits - shiftmod);
    if shiftmod > 0 {
      r := ShiftLeftBits(B, P, Q, v, shiftdiv);
    } else {
      r := ShiftLeftLimbs(v, shiftdiv);
      CopyIsShift(B, Q, v, shiftdiv, r);
    }
    LeftShiftedValue(B, P, Q, shiftmod, v, shiftdiv, r);
    ShiftPower(bits, shift);
  }

  lemma CopyIsShift(B: nat, Q: nat, v: seq<int>, d: nat, r: seq<int>)
    requires B > 0 && Q == B && AllLimbs(B, v) && |v| == 4
    requires |r| == 4 && forall j :: 0 <= j < 4 ==> r[j] == if d <= j then v[j - d] else 0
    ensures LeftShifted(B, 1, Q, v, d, 4, r)
  {
    forall i | 0 <= i < 4 ensures LeftAt(B, 1, Q, v, 0, i) == v[i] {
      CopyLimb(B, v[i]);
      if i > 0 {
        CopyLimb(B, v[i - 1]);
      }
    }
  }

  lemma CopyLimb(B: nat, x: nat)
    requires x < B
    ensures LeftOut(B, 1, x, 0) == x && LeftCarry(B, x) == 0
  {
    QuotientUnique(B, 0, x);
    OrZero(x);
  }

  lemma LeftShiftedValue(B: nat, P: nat, Q: nat, s: nat, v: seq<int>, d: nat, r: seq<int>)
    requires Shifting(B, P, Q, s) && Limbs(B, v) && LeftShifted(B, P, Q, v, d, 4, r)
    ensures Limbs(B, r) && Value(B, r) == (Value(B, v) * (Power(B, d) * P)) % Range(B)
  {
    RangePower(B);
    ValFour(B, r);
    if d < 4 {
      LeftNear(B, P, Q, s, v, d, r);
    } else {
      ValZeros(B, r);
      PowerSum(B, 4, d - 4);
      Regroup(Range(B), Power(B, d - 4), P);
      FarShift(Range(B), Power(B, d - 4) * P, Value(B, v));
    }
  }

  lemma LeftNear(B: nat, P: nat, Q: nat, s: nat, v: seq<int>, d: nat, r: seq<int>)
    requires Shifting(B, P, Q, s) && Limbs(B, v) && LeftShifted(B, P, Q, v, d, 4, r) && d < 4
    ensures Limbs(B, r) && Value(B, r) == (Value(B, v) * (Power(B, d) * P)) % Range(B)
  {
    var k := 4 - d;
    var low := v[..k];
    var w := LeftLimbs(B, P, Q, low, 0);
    var lost := LeftLimbsValue(B, P, Q, s, low, 0);
    LeftMoved(B, P, Q, v, d, r);
    LeftWhole(B, P, v, d, r, w, lost);
  }

  lemma LeftMoved(B: nat, P: nat, Q: nat, v: seq<int>, d: nat, r: seq<int>)
    requires B > 0 && Q > 0 && AllLimbs(B, v) && |v| == 4 && LeftShifted(B, P, Q, v, d, 4, r) && d < 4
    ensures r[d..] == LeftLimbs(B, P, Q, v[..4 - d], 0)
    ensures forall j :: 0 <= j < d ==> r[j] == 0
  {
    forall i | 0 <= i < 4 - d ensures r[d..][i] == LeftLimbs(B, P, Q, v[..4 - d], 0)[i] {
      LeftLimbsAt(B, P, Q, v[..4 - d], 0, i);
      assert r[d + i] == LeftAt(B, P, Q, v, 0, i);
    }
  }

  lemma LeftWhole(B: nat, P: nat, v: seq<int>, d: nat, r: seq<int>, w: seq<int>, lost: nat)
    requires Limbs(B, v) && |r| == 4 && d < 4 && r[d..] == w && AllLimbs(B, w)
    requires forall j :: 0 <= j < d ==> r[j] == 0
    requires Val(B, w) + Power(B, 4 - d) * lost == Val(B, v[..4 - d]) * P
    ensures Limbs(B, r) && Value(B, r) == (Value(B, v) * (Power(B, d) * P)) % Range(B)
  {
    var k := 4 - d;
    assert forall j :: d <= j < 4 ==> r[j] == w[j - d];
    ValFour(B, v);
    ValFour(B, r);
    ValSplit(B, v, k);
    ValSplit(B, r, d);
    ValZeros(B, r[..d]);
    RangePower(B);
    PowerSum(B, d, k);
    LeftTotal(B, Power(B, d), Power(B, k), P, Val(B, w), Val(B, v[..k]), Val(B, v[k..]), lost);
    ValueBound(B, r);
    QuotientUnique(Range(B), lost + P * Val(B, v[k..]), Value(B, r));
  }

  lemma FarShift(range: nat, q: int, x: int)
    requires range > 0
    ensures (x * (range * q)) % range == 0
  {
    assert x * (range * q) == range * (x * q);
    QuotientUnique(range, x * q, 0);
  }

  lemma LeftTotal(B: int, low: int, high: int, P: int, w: int, v0: int, v1: int, lost: int)
    requires w + high * lost == v0 * P
    ensures low * w + (low * high) * (lost + P * v1) == (v0 + high * v1) * (low * P)
  {
    Spread(low, w, high * lost);
    assert low * (v0 * P) == v0 * (low * P);
    assert (high * v1) * (low * P) == (low * high) * (P * v1);
    Spread(low * high, lost, P * v1);
    assert low * (high * lost) == (low * high) * lost;
  }

  lemma {:induction false} PowerSum(B: nat, m: nat, n: nat)
    ensures Power(B, m + n) == Power(B, m) * Power(B, n)
  {
    if m > 0 {
      PowerSum(B, m - 1, n);
      Regroup(B, Power(B, m - 1), Power(B, n));
    }
  }

  lemma ShiftPower(bits: nat, shift: nat)
    requires bits > 0
    ensures Pow2(shift) == Power(Pow2(bits), shift / bits) * Pow2(shift % bits)
  {
    PowerPow2(bits, shift / bits);
    Pow2Sum(bits * (shift / bits), shift % bits);
  }

  lemma {:induction false} OrCommutes(x: nat, y: nat)
    ensures Or(x, y) == Or(y, x)
    decreases x + y
  {
    if x > 0 || y > 0 {
      OrCommutes(x / 2, y / 2);
    }
  }

  // What a limb becomes and what it carries down, P being 2^s and Q the rest of the base.
  function RightOut(P: nat, x: nat, carry: nat): nat
    requires P > 0
  {
    Or(x / P, carry)
  }

  function RightCarry(B: nat, Q: nat, x: nat): nat
    requires B > 0
  {
    (x * Q) % B
  }

  ghost function RightAt(B: nat, P: nat, Q: nat, v: seq<int>, i: nat): nat
    requires B > 0 && P > 0 && AllLimbs(B, v) && i < |v|
  {
    RightOut(P, v[i], if i + 1 < |v| then RightCarry(B, Q, v[i + 1]) else 0)
  }

  // The limbs of v shifted right, low limb first.
  ghost function RightLimbs(B: nat, P: nat, Q: nat, v: seq<int>): (w: seq<nat>)
    requires B > 0 && P > 0 && AllLimbs(B, v)
    ensures |w| == |v|
  {
    if v == [] then [] else [RightAt(B, P, Q, v, 0)] + RightLimbs(B, P, Q, v[1..])
  }

  lemma {:induction false} RightLimbsAt(B: nat, P: nat, Q: nat, v: seq<int>, i: nat)
    requires B > 0 && P > 0 && AllLimbs(B, v) && i < |v|
    ensures RightLimbs(B, P, Q, v)[i] == RightAt(B, P, Q, v, i)
  {
    if i > 0 {
      RightLimbsAt(B, P, Q, v[1..], i - 1);
    }
  }

  ghost predicate ShiftingRight(bits: nat, B: nat, P: nat, Q: nat, s: nat) {
    s <= bits && B == P * Q && P == Pow2(s) && Q == Pow2(bits - s)
  }

  lemma RightParts(B: nat, P: nat, Q: nat, x: nat, n: nat)
    requires 0 < P && 0 < Q && B == P * Q && B > 0 && x < B && n < B
    ensures RightCarry(B, Q, n) == (n % P) * Q
    ensures x / P < Q && x / P + (n % P) * Q < B
  {
    assert Q * P == P * Q;
    LimbParts(Q, P, n, 0);
    QuotientBelow(x, P, Q);
    BelowProduct(n % P, P, Q, x / P);
  }

  lemma OrAbove(k: nat, u: nat, high: nat, low: nat)
    requires u == Pow2(k) && low < u
    ensures Or(low, high * u) == low + high * u
  {
    OrDisjoint(k, high, low);
    OrCommutes(low, high * u);
  }

  // A limb x below a limb n: n's low bits arrive above x's high bits.
  lemma RightLimb(bits: nat, B: nat, P: nat, Q: nat, s: nat, x: nat, n: nat)
    requires ShiftingRight(bits, B, P, Q, s) && B > 0 && x < B && n < B
    ensures RightOut(P, x, RightCarry(B, Q, n)) == x / P + (n % P) * Q
    ensures x / P + (n % P) * Q < B
  {
    RightParts(B, P, Q, x, n);
    RightOr(bits - s, P, Q, x, n % P, RightCarry(B, Q, n));
  }

  lemma RightOr(k: nat, P: nat, Q: nat, x: nat, high: nat, carry: nat)
    requires P > 0 && Q == Pow2(k) && x / P < Q && carry == high * Q
    ensures RightOut(P, x, carry) == x / P + high * Q
  {
    OrAbove(k, Q, high, x / P);
  }

  // The limb above limb i, none being zero.
  function Above(v: seq<int>, i: nat): int {
    if i + 1 < |v| then v[i + 1] else 0
  }

  lemma RightAtValue(bits: nat, B: nat, P: nat, Q: nat, s: nat, v: seq<int>, i: nat)
    requires ShiftingRight(bits, B, P, Q, s) && B > 0 && AllLimbs(B, v) && i < |v| && 0 <= Above(v, i) < B
    ensures RightAt(B, P, Q, v, i) == v[i] / P + (Above(v, i) % P) * Q
    ensures RightAt(B, P, Q, v, i) < B
  {
    RightLimb(bits, B, P, Q, s, v[i], Above(v, i));
    ZeroCarry(B, Q);
  }

  lemma {:induction false} RightLimbsValue(bits: nat, B: nat, P: nat, Q: nat, s: nat, v: seq<int>)
    requires ShiftingRight(bits, B, P, Q, s) && B > 0 && AllLimbs(B, v)
    ensures AllLimbs(B, RightLimbs(B, P, Q, v))
    ensures Val(B, v) == P * Val(B, RightLimbs(B, P, Q, v)) + (if v == [] then 0 else v[0] % P)
  {
    if v != [] {
      var w, w' := RightLimbs(B, P, Q, v), RightLimbs(B, P, Q, v[1..]);
      RightLimbsValue(bits, B, P, Q, s, v[1..]);
      RightAtValue(bits, B, P, Q, s, v, 0);
      assert w[1..] == w';
      assert forall i :: 0 < i < |w| ==> w[i] == w'[i - 1];
      RightLow(P, v);
      RightSum(B, P, Q, v[0], Above(v, 0), w[0], Val(B, w'), Val(B, v[1..]));
    }
  }

  lemma RightLow(P: nat, v: seq<int>)
    requires v != [] && P > 0
    ensures (if v[1..] == [] then 0 else v[1..][0] % P) == Above(v, 0) % P
  {
    QuotientUnique(P, 0, 0);
  }

  lemma ZeroCarry(B: nat, Q: nat)
    requires B > 0
    ensures RightCarry(B, Q, 0) == 0
  {
    QuotientUnique(B, 0, 0);
  }

  lemma RightSum(B: int, P: nat, Q: int, x: nat, n: nat, w0: int, w: int, v: int)
    requires P > 0 && B == P * Q && w0 == x / P + (n % P) * Q && v == P * w + n % P
    ensures x + B * v == P * (w0 + B * w) + x % P
  {
    Spread(B, P * w, n % P);
    Spread(P, x / P, (n % P) * Q);
    Spread(P, w0, B * w);
    Swap(P, n % P, Q);
    Swap(P, B, w);
    assert B * (P * w) == P * (B * w);
  }

  lemma Swap(x: int, y: int, z: int)
    ensures x * (y * z) == (x * z) * y && x * (y * z) == y * (x * z)
  {
  }

  // r is v moved down by d limbs and shifted right by less than one.
  ghost predicate RightShifted(B: nat, P: nat, Q: nat, v: seq<int>, d: nat, out: int, r: seq<int>)
    requires B > 0 && P > 0 && AllLimbs(B, v) && |v| == 4
  {
    |r| == 4 && forall j :: 0 <= j < 4 ==> r[j] == if out <= j < 4 - d then RightAt(B, P, Q, v, j + d) else 0
  }

  // The loop of operator>> for a shift by whole limbs and some bits.
  method ShiftRightBits(B: nat, P: nat, Q: nat, v: seq<int>, shiftdiv: nat) returns (r: seq<int>)
    requires B > 0 && P > 0 && AllLimbs(B, v) && |v| == 4 && shiftdiv <= 4
    ensures RightShifted(B, P, Q, v, shiftdiv, 0, r)
  {
    r := [0, 0, 0, 0];
    var carryover: nat, out, i := 0, 4 - shiftdiv, 4;
    while out != 0
      invariant 0 <= out == i - shiftdiv && i <= 4 && RightShifted(B, P, Q, v, shiftdiv, out, r)
      invariant carryover == if i == 4 then 0 else RightCarry(B, Q, v[i])
      decreases out
    {
      out, i := out - 1, i - 1;
      r := r[out := RightOut(P, v[i], carryover)];
      carryover := RightCarry(B, Q, v[i]);
    }
  }

  // The loop of operator>> for a shift by whole limbs.
  method ShiftRightLimbs(v: seq<int>, shiftdiv: nat) returns (r: seq<int>)
    requires |v| == 4 && shiftdiv <= 4
    ensures |r| == 4 && forall j :: 0 <= j < 4 ==> r[j] == if j < 4 - shiftdiv then v[j + shiftdiv] else 0
  {
    r := [0, 0, 0, 0];
    var out, i := 4 - shiftdiv, 4;
    while out != 0
      invariant 0 <= out == i - shiftdiv && i <= 4 && |r| == 4
      invariant forall j :: 0 <= j < 4 ==> r[j] == if out <= j < 4 - shiftdiv then v[j + shiftdiv] else 0
      decreases out
    {
      out, i := out - 1, i - 1;
      r := r[out := v[i]];
    }
  }

  // The counters of the loops of operator>> are bytes. From these values on,
  // both index the four limbs until the first one is zero.
  ghost predicate CountsInside(out: nat, inner: nat) {
    out == 0 || (out - 1 < 4 && (inner - 1) % 0x100 < 4 && CountsInside(out - 1, (inner - 1) % 0x100))
  }

  // Shifts are bytes too. The loops stay inside the limbs exactly for shifts of
  // at most four limbs and a fraction: beyond, the first counter wraps around.
  lemma {:induction false} ShiftRightInside(bits: nat, shift: nat)
    requires bits > 0 && shift < 0x100
    ensures CountsInside((4 - shift / bits) % 0x100, 4) <==> shift / bits <= 4
    ensures bits == 32 && shift == 160 ==> (4 - shift / bits) % 0x100 == 255
  {
    var d := shift / bits;
    QuotientAtMost(bits, shift);
    if d <= 4 {
      CountDown(4 - d, 4);
    } else {
      assert (4 - d) % 0x100 == 0x104 - d;
    }
  }

  lemma {:induction false} CountDown(out: nat, inner: nat)
    requires out <= inner <= 4
    ensures CountsInside(out, inner)
  {
    if out > 0 {
      CountDown(out - 1, inner - 1);
    }
  }

  lemma QuotientAtMost(d: nat, x: nat)
    requires d > 0
    ensures 0 <= x / d <= x
  {
    var q := x / d;
    assert x == d * q + x % d;
    if q < 0 {
      MultipleGap(d, 0, q);
    } else {
      MultipleAtLeast(q, d);
    }
  }

  // operator>>, for a little-endian machine; for larger shifts see ShiftRightInside.
  method ShiftRight(bits: nat, v: seq<int>, shift: nat) returns (r: seq<int>)
    requires bits > 0 && Limbs(Pow2(bits), v) && shift / bits <= 4
    ensures Limbs(Pow2(bits), r) && Value(Pow2(bits), r) == Value(Pow2(bits), v) / Pow2(shift)
  {
    var shiftdiv, shiftmod := shift / bits, shift % bits;
    var B, P, Q := Pow2(bits), Pow2(shiftmod), Pow2(bits - shiftmod);
    Pow2Sum(shiftmod, bits - shiftmod);
    if shiftmod > 0 {
      r := ShiftRightBits(B, P, Q, v, shiftdiv);
    } else {
      r := ShiftRightLimbs(v, shiftdiv);
      CopyIsShiftRight(B, v, shiftdiv, r);
    }
    RightShiftedValue(bits, B, P, Q, shiftmod, v, shiftdiv, r);
    ShiftPower(bits, shift);
  }

  lemma CopyIsShiftRight(B: nat, v: seq<int>, d: nat, r: seq<int>)
    requires B > 0 && AllLimbs(B, v) && |v| == 4 && d <= 4
    requires |r| == 4 && forall j :: 0 <= j < 4 ==> r[j] == if j < 4 - d then v[j + d] else 0
    ensures RightShifted(B, 1, B, v, d, 0, r)
  {
    forall i | 0 <= i < 4 ensures RightAt(B, 1, B, v, i) == v[i] {
      OrZero(v[i]);
      QuotientUnique(1, v[i], 0);
      if i < 3 {
        NoCarryDown(B, v[i + 1]);
      }
    }
  }

  lemma NoCarryDown(B: nat, x: nat)
    requires B > 0
    ensures RightCarry(B, B, x) == 0
  {
    QuotientUnique(B, x, 0);
    assert x * B == B * x + 0;
  }

  lemma RightShiftedValue(bits: nat, B: nat, P: nat, Q: nat, s: nat, v: seq<int>, d: nat, r: seq<int>)
    requires ShiftingRight(bits, B, P, Q, s) && Limbs(B, v) && d <= 4 && RightShifted(B, P, Q, v, d, 0, r)
    requires Power(B, d) * P > 0
    ensures Limbs(B, r) && Value(B, r) == Value(B, v) / (Power(B, d) * P)
  {
    var high := v[d..];
    var w := RightLimbs(B, P, Q, high);
    RightLimbsValue(bits, B, P, Q, s, high);
    forall j | 0 <= j < 4 - d ensures r[j] == w[j] {
      RightLimbsAt(B, P, Q, high, j);
      assert r[j] == RightAt(B, P, Q, v, j + d);
    }
    RightWhole(B, P, v, d, r, w, if high == [] then 0 else high[0] % P);
  }

  lemma RightWhole(B: nat, P: nat, v: seq<int>, d: nat, r: seq<int>, w: seq<int>, c: nat)
    requires Limbs(B, v) && |r| == 4 && d <= 4 && |w| == 4 - d && AllLimbs(B, w) && c < P
    requires forall j :: 0 <= j < 4 ==> r[j] == if j < 4 - d then w[j] else 0
    requires Val(B, v[d..]) == P * Val(B, w) + c && Power(B, d) * P > 0
    ensures Limbs(B, r) && Value(B, r) == Value(B, v) / (Power(B, d) * P)
  {
    RightResult(B, d, r, w);
    ValFour(B, v);
    ValSplit(B, v, d);
    ValBound(B, v[..d]);
    RightTotal(Power(B, d), P, Val(B, v[..d]), Val(B, w), c);
  }

  lemma RightResult(B: nat, d: nat, r: seq<int>, w: seq<int>)
    requires B > 1 && |r| == 4 && d <= 4 && |w| == 4 - d && AllLimbs(B, w)
    requires forall j :: 0 <= j < 4 ==> r[j] == if j < 4 - d then w[j] else 0
    ensures Limbs(B, r) && Value(B, r) == Val(B, w)
  {
    ValFour(B, r);
    ValSplit(B, r, 4 - d);
    ValZeros(B, r[4 - d..]);
    assert r[..4 - d] == w;
  }

  lemma RightTotal(low: nat, P: nat, v0: nat, w: int, c: nat)
    requires v0 < low && c < P && low * P > 0
    ensures (v0 + low * (P * w + c)) / (low * P) == w
  {
    Spread(low, P * w, c);
    Regroup(low, P, w);
    LimbBound(low, v0, c, P);
    QuotientUnique(low * P, w, v0 + low * c);
  }

  // ---- division ----

  // n lies between 2^r and 2^(r + 1).
  ghost predicate IsLog2(r: nat, n: int) {
    Pow2(r) <= n < 2 * Pow2(r)
  }

  // The highest limb that is not zero bounds the number.
  lemma {:induction false} TopLimb(B: nat, v: seq<int>, i: nat)
    requires B > 1 && AllLimbs(B, v) && i < |v| && forall j :: i < j < |v| ==> v[j] == 0
    ensures Power(B, i) * v[i] <= Val(B, v) < Power(B, i) * (v[i] + 1)
  {
    if i == 0 {
      ValZeros(B, v[1..]);
      assert B * 0 == 0;
      assert Power(B, 0) == 1;
    } else {
      TopLimb(B, v[1..], i - 1);
      TopStep(B, Power(B, i - 1), v[i], Val(B, v[1..]), v[0]);
    }
  }

  lemma TopStep(B: nat, p: nat, x: int, y: int, v0: nat)
    requires v0 < B && p * x <= y < p * (x + 1)
    ensures (B * p) * x <= v0 + B * y < (B * p) * (x + 1)
  {
    MultipleMonotone(B, p * x, y);
    MultipleMonotone(B, y + 1, p * (x + 1));
    Spread(B, y, 1);
    Regroup(B, p, x);
    Regroup(B, p, x + 1);
  }

  lemma Log2Product(p: nat, u: nat, x: nat, n: int)
    requires u <= x < 2 * u && p * x <= n < p * (x + 1)
    ensures u * p <= n < 2 * (u * p)
  {
    MultipleMonotone(p, u, x);
    MultipleMonotone(p, x + 1, 2 * u);
    assert p * u == u * p;
    assert p * (2 * u) == 2 * (u * p);
  }

  lemma Log2Above(bits: nat, i: nat, x: nat, n: int)
    requires x > 0 && Power(Pow2(bits), i) * x <= n < Power(Pow2(bits), i) * (x + 1)
    ensures IsLog2(Log2(x) + bits * i, n)
  {
    PowerPow2(bits, i);
    var k := bits * i;
    Pow2Sum(Log2(x), k);
    Log2Product(Pow2(k), Pow2(Log2(x)), x, n);
  }

  lemma TopLog(bits: nat, v: seq<int>, i: nat)
    requires Limbs(Pow2(bits), v) && i < 4 && v[i] != 0 && forall j :: i < j < 4 ==> v[j] == 0
    ensures IsLog2(Log2(v[i]) + bits * i, Value(Pow2(bits), v))
  {
    ValFour(Pow2(bits), v);
    TopLimb(Pow2(bits), v, i);
    Log2Above(bits, i, v[i], Value(Pow2(bits), v));
  }

  // flog2, with the intrinsic on one limb for its highest limb that is not zero
  method FloorLog2(bits: nat, v: seq<int>) returns (r: nat)
    requires Limbs(Pow2(bits), v) && Value(Pow2(bits), v) > 0
    ensures IsLog2(r, Value(Pow2(bits), v))
  {
    var i := 4;
    while i != 0
      invariant 0 <= i <= 4 && forall j :: i <= j < 4 ==> v[j] == 0
      decreases i
    {
      i := i - 1;
      if v[i] != 0 {
        TopLog(bits, v, i);
        return Log2(v[i]) + bits * i;
      }
    }
    AllZero(Pow2(bits), v);
    assert false;
  }

  lemma AllZero(B: nat, v: seq<int>)
    requires |v| == 4 && forall j :: 0 <= j < 4 ==> v[j] == 0
    ensures Value(B, v) == 0
  {
    ValFour(B, v);
    ValZeros(B, v);
  }

  // What the loops of divmod keep: the factor is the divisor times a power of
  // two, or, once the dividend is below the divisor, has been shifted below it.
  ghost predicate Factor(n: int, d: int, qfactor: int, factor: int, k: nat) {
    || (qfactor == Pow2(k) && factor == d * qfactor)
    || (qfactor == 0 && n < d && 0 <= factor < d)
  }

  lemma FactorHalf(n: nat, d: nat, qfactor: nat, factor: nat, k: nat)
    requires Factor(n, d, qfactor, factor, k) && n < factor
    ensures Factor(n, d, qfactor / 2, factor / 2, if k > 0 then k - 1 else 0)
  {
    if qfactor == Pow2(k) && factor == d * qfactor {
      if k > 0 {
        var u := Pow2(k - 1);
        assert d * (2 * u) == 2 * (d * u);
      }
    }
  }

  // >>= 1
  method Halve(bits: nat, v: seq<int>) returns (r: seq<int>)
    requires bits > 0 && Limbs(Pow2(bits), v)
    ensures Limbs(Pow2(bits), r) && Value(Pow2(bits), r) == Value(Pow2(bits), v) / 2
  {
    OneLimbAtMost(bits);
    r := ShiftRight(bits, v, 1);
    assert Pow2(1) == 2 * Pow2(0) == 2;
  }

  lemma OneLimbAtMost(bits: nat)
    requires bits > 0
    ensures 1 / bits <= 4
  {
    if bits > 1 {
      QuotientUnique(bits, 0, 1);
    }
  }

  lemma InRange(B: nat, x: int)
    requires 0 <= x < Range(B)
    ensures x % Range(B) == x
  {
    QuotientUnique(Range(B), 0, x);
  }

  // A difference that does not wrap.
  method Subtract(B: nat, a: seq<int>, b: seq<int>) returns (r: seq<int>)
    requires Limbs(B, a) && Limbs(B, b) && Value(B, b) <= Value(B, a)
    ensures Limbs(B, r) && Value(B, r) == Value(B, a) - Value(B, b)
  {
    ValueBound(B, a);
    ValueBound(B, b);
    InRange(B, Value(B, a) - Value(B, b));
    r := Minus(B, a, b);
  }

  // A sum that does not wrap.
  method Add(B: nat, a: seq<int>, b: seq<int>) returns (r: seq<int>)
    requires Limbs(B, a) && Limbs(B, b) && Value(B, a) + Value(B, b) < Range(B)
    ensures Limbs(B, r) && Value(B, r) == Value(B, a) + Value(B, b)
  {
    ValueBound(B, a);
    ValueBound(B, b);
    InRange(B, Value(B, a) + Value(B, b));
    r := Plus(B, a, b);
  }

  // A left shift that does not wrap.
  method Scale(bits: nat, v: seq<int>, shift: nat) returns (r: seq<int>)
    requires bits > 0 && Limbs(Pow2(bits), v) && Value(Pow2(bits), v) * Pow2(shift) < Range(Pow2(bits))
    ensures Limbs(Pow2(bits), r) && Value(Pow2(bits), r) == Value(Pow2(bits), v) * Pow2(shift)
  {
    ValueBound(Pow2(bits), v);
    assert 0 <= Value(Pow2(bits), v) * Pow2(shift);
    InRange(Pow2(bits), Value(Pow2(bits), v) * Pow2(shift));
    r := ShiftLeft(bits, v, shift);
  }

  // The inner loop of divmod. It may take the factor below the divisor, but
  // only when the dividend is below it too.
  method ShrinkFactors(bits: nat, dividend: seq<int>, factor0: seq<int>, qfactor0: seq<int>,
                       ghost d: nat, ghost k0: nat)
    returns (factor: seq<int>, qfactor: seq<int>, ghost k: nat)
    requires bits > 0 && Limbs(Pow2(bits), dividend) && Limbs(Pow2(bits), factor0) && Limbs(Pow2(bits), qfactor0)
    requires Factor(Value(Pow2(bits), dividend), d, Value(Pow2(bits), qfactor0), Value(Pow2(bits), factor0), k0)
    ensures Limbs(Pow2(bits), factor) && Limbs(Pow2(bits), qfactor)
    ensures Factor(Value(Pow2(bits), dividend), d, Value(Pow2(bits), qfactor), Value(Pow2(bits), factor), k)
    ensures Value(Pow2(bits), factor) <= Value(Pow2(bits), dividend)
  {
    var B := Pow2(bits);
    factor, qfactor, k := factor0, qfactor0, k0;
    while Less(B, dividend, factor)
      invariant Limbs(B, factor) && Limbs(B, qfactor)
      invariant Factor(Value(B, dividend), d, Value(B, qfactor), Value(B, factor), k)
      decreases Value(B, factor)
    {
      LessValue(B, dividend, factor);
      ValueBound(B, dividend);
      ValueBound(B, factor);
      ValueBound(B, qfactor);
      FactorHalf(Value(B, dividend), d, Value(B, qfactor), Value(B, factor), k);
      factor := Halve(bits, factor);
      qfactor := Halve(bits, qfactor);
      k := if k > 0 then k - 1 else 0;
    }
    LessValue(B, dividend, factor);
  }

  lemma QuotientStep(q: nat, d: nat, n: nat, u: nat, range: nat)
    requires d > 0 && d * u <= n && q * d + n < range
    ensures q + u < range && (q + u) * d + (n - d * u) == q * d + n
  {
    assert (q + u) * d == q * d + d * u;
    assert q + u <= (q + u) * d;
  }

  // The loop of divmod.
  method DivmodLoop(bits: nat, n: seq<int>, divisor: seq<int>, factor0: seq<int>, qfactor0: seq<int>, ghost k0: nat)
    returns (quotient: seq<int>, dividend: seq<int>)
    requires bits > 0 && Limbs(Pow2(bits), n) && Limbs(Pow2(bits), divisor)
    requires Limbs(Pow2(bits), factor0) && Limbs(Pow2(bits), qfactor0) && Value(Pow2(bits), divisor) > 0
    requires Value(Pow2(bits), qfactor0) == Pow2(k0)
    requires Value(Pow2(bits), factor0) == Value(Pow2(bits), divisor) * Pow2(k0) <= Value(Pow2(bits), n)
    ensures Limbs(Pow2(bits), quotient) && Limbs(Pow2(bits), dividend)
    ensures Value(Pow2(bits), n)
      == Value(Pow2(bits), quotient) * Value(Pow2(bits), divisor) + Value(Pow2(bits), dividend)
    ensures Value(Pow2(bits), dividend) < Value(Pow2(bits), divisor)
  {
    var B := Pow2(bits);
    ghost var D: nat, N := Value(B, divisor), Value(B, n);
    var factor, qfactor := factor0, qfactor0;
    ghost var k := k0;
    quotient, dividend := [0, 0, 0, 0], n;
    ValueBound(B, n);
    AllZero(B, quotient);
    var again := true;
    while again
      invariant Limbs(B, quotient) && Limbs(B, dividend) && Limbs(B, factor) && Limbs(B, qfactor)
      invariant N == Value(B, quotient) * D + Value(B, dividend)
      invariant again ==> Value(B, qfactor) == Pow2(k) && Value(B, factor) == D * Pow2(k) <= Value(B, dividend)
      invariant !again ==> Value(B, dividend) < D
      decreases Value(B, dividend), again
    {
      quotient, dividend, factor, qfactor, k := DivmodRound(bits, D, N, quotient, dividend, factor, qfactor, k);
      again := !Less(B, dividend, divisor);
      LessValue(B, dividend, divisor);
    }
  }

  // One turn of that loop.
  method DivmodRound(bits: nat, ghost D: nat, ghost N: nat, quotient0: seq<int>, dividend0: seq<int>,
      factor0: seq<int>, qfactor0: seq<int>, ghost k0: nat)
    returns (quotient: seq<int>, dividend: seq<int>, factor: seq<int>, qfactor: seq<int>, ghost k: nat)
    requires bits > 0 && Limbs(Pow2(bits), quotient0) && Limbs(Pow2(bits), dividend0) && D > 0
    requires Limbs(Pow2(bits), factor0) && Limbs(Pow2(bits), qfactor0)
    requires N == Value(Pow2(bits), quotient0) * D + Value(Pow2(bits), dividend0) < Range(Pow2(bits))
    requires Value(Pow2(bits), qfactor0) == Pow2(k0)
    requires Value(Pow2(bits), factor0) == D * Pow2(k0) <= Value(Pow2(bits), dividend0)
    ensures Limbs(Pow2(bits), quotient) && Limbs(Pow2(bits), dividend)
    ensures Limbs(Pow2(bits), factor) && Limbs(Pow2(bits), qfactor)
    ensures N == Value(Pow2(bits), quotient) * D + Value(Pow2(bits), dividend)
    ensures Value(Pow2(bits), dividend) < Value(Pow2(bits), dividend0)
    ensures D <= Value(Pow2(bits), dividend) ==>
      Value(Pow2(bits), qfactor) == Pow2(k) && Value(Pow2(bits), factor) == D * Pow2(k) <= Value(Pow2(bits), dividend)
  {
    var B := Pow2(bits);
    ValueBound(B, quotient0);
    ValueBound(B, dividend0);
    QuotientStep(Value(B, quotient0), D, Value(B, dividend0), Pow2(k0), Range(B));
    dividend := Subtract(B, dividend0, factor0);
    quotient := Add(B, quotient0, qfactor0);
    assert D * Pow2(k0) > 0;
    factor, qfactor, k := ShrinkFactors(bits, dividend, factor0, qfactor0, D, k0);
  }

  lemma OneLimb(B: nat, x: nat)
    requires B > 1 && x < B
    ensures Limbs(B, [x, 0, 0, 0]) && Value(B, [x, 0, 0, 0]) == x
  {
    ValFour(B, [x, 0, 0, 0]);
    assert B * 0 == 0;
  }

  // Logarithms of ordered numbers are ordered; equal ones are less than a factor of two apart.
  lemma LogOrder(d: nat, n: nat, i: nat, j: nat)
    requires 0 < d <= n && IsLog2(i, d) && IsLog2(j, n)
    ensures i <= j && (i == j ==> n - d < d)
    ensures i < j ==> d * Pow2(j - i - 1) <= n
  {
    if j < i {
      Pow2Monotone(j + 1, i);
    } else if i < j {
      Pow2Sum(i + 1, j - i - 1);
      BelowDouble(d, Pow2(i + 1), Pow2(j - i - 1));
    }
  }

  lemma BelowDouble(d: nat, u: nat, v: nat)
    requires d <= u
    ensures d * v <= u * v
  {
  }

  // divmod from the point where logdiff underestimates the quotient.
  method DivmodFrom(bits: nat, n: seq<int>, divisor: seq<int>, logdiff: nat)
    returns (quotient: seq<int>, remainder: seq<int>)
    requires bits > 0 && Limbs(Pow2(bits), n) && Limbs(Pow2(bits), divisor) && Value(Pow2(bits), divisor) > 0
    requires Value(Pow2(bits), divisor) * Pow2(logdiff) <= Value(Pow2(bits), n)
    ensures Limbs(Pow2(bits), quotient) && Limbs(Pow2(bits), remainder)
    ensures Value(Pow2(bits), n)
      == Value(Pow2(bits), quotient) * Value(Pow2(bits), divisor) + Value(Pow2(bits), remainder)
    ensures Value(Pow2(bits), remainder) < Value(Pow2(bits), divisor)
  {
    ValueBound(Pow2(bits), n);
    OneLimb(Pow2(bits), 1);
    BelowDouble(1, Value(Pow2(bits), divisor), Pow2(logdiff));
    var qfactor := Scale(bits, [1, 0, 0, 0], logdiff);
    var factor := Scale(bits, divisor, logdiff);
    quotient, remainder := DivmodLoop(bits, n, divisor, factor, qfactor, logdiff);
  }

  // divmod of a number that is not below the divisor.
  method DivmodLogs(bits: nat, n: seq<int>, divisor: seq<int>) returns (quotient: seq<int>, remainder: seq<int>)
    requires bits > 0 && Limbs(Pow2(bits), n) && Limbs(Pow2(bits), divisor)
    requires 0 < Value(Pow2(bits), divisor) <= Value(Pow2(bits), n)
    ensures Limbs(Pow2(bits), quotient) && Limbs(Pow2(bits), remainder)
    ensures Value(Pow2(bits), n)
      == Value(Pow2(bits), quotient) * Value(Pow2(bits), divisor) + Value(Pow2(bits), remainder)
    ensures Value(Pow2(bits), remainder) < Value(Pow2(bits), divisor)
  {
    var B := Pow2(bits);
    var log2Divisor := FloorLog2(bits, divisor);
    var log2Dividend := FloorLog2(bits, n);
    LogOrder(Value(B, divisor), Value(B, n), log2Divisor, log2Dividend);
    var logdiff := log2Dividend - log2Divisor;
    if logdiff == 0 {
      OneLimb(B, 1);
      ValueBound(B, n);
      quotient := [1, 0, 0, 0];
      remainder := Subtract(B, n, divisor);
    } else {
      logdiff := logdiff - 1;
      quotient, remainder := DivmodFrom(bits, n, divisor, logdiff);
    }
  }

  // divmod: the quotient and the remainder, for every divisor but zero.
  method Divmod(bits: nat, n: seq<int>, divisor: seq<int>) returns (quotient: seq<int>, remainder: seq<int>)
    requires bits > 0 && Limbs(Pow2(bits), n) && Limbs(Pow2(bits), divisor) && Value(Pow2(bits), divisor) > 0
    ensures Limbs(Pow2(bits), quotient) && Limbs(Pow2(bits), remainder)
    ensures Value(Pow2(bits), n)
      == Value(Pow2(bits), quotient) * Value(Pow2(bits), divisor) + Value(Pow2(bits), remainder)
    ensures Value(Pow2(bits), remainder) < Value(Pow2(bits), divisor)
  {
    var B := Pow2(bits);
    LessValue(B, n, divisor);
    ValueBound(B, n);
    if Less(B, n, divisor) {
      OneLimb(B, 0);
      return [0, 0, 0, 0], n;
    }
    quotient, remainder := DivmodLogs(bits, n, divisor);
  }
}
