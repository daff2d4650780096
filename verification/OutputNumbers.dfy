// The output function of the rxs_m_xs generators on numbers: what is put out for
// every width of state and result, with the constants of the source written out.
module OutputNumbers {
  import opened Modular
  import opened OutputPermutation

  // Exclusive or of the bits of two numbers.
  ghost function Xor(x: nat, y: nat): nat {
    if x == 0 && y == 0 then 0 else (if x % 2 != y % 2 then 1 else 0) + 2 * Xor(x / 2, y / 2)
  }

  // n >> shift
  ghost function Above(n: nat, shift: nat): nat {
    if shift == 0 then n else Above(n / 2, shift - 1)
  }

  // The low bits of n.
  ghost function Below(n: nat, bits: nat): nat {
    if bits == 0 then 0 else n % 2 + 2 * Below(n / 2, bits - 1)
  }

  // They are the quotient and the remainder by the power of two.
  lemma {:induction false} AboveBelow(n: nat, k: nat)
    ensures Above(n, k) == n / Pow2(k) && Below(n, k) == n % Pow2(k) < Pow2(k)
  {
    AboveTimes(n, k);
    QuotientUnique(Pow2(k), Above(n, k), Below(n, k));
  }

  lemma {:induction false} AboveTimes(n: nat, k: nat)
    ensures n == Pow2(k) * Above(n, k) + Below(n, k) && Below(n, k) < Pow2(k)
  {
    if k > 0 {
      AboveTimes(n / 2, k - 1);
      TwiceProduct(Pow2(k - 1), Above(n / 2, k - 1));
    }
  }

  lemma HalvesOf(x: Word)
    requires x != []
    ensures ToNat(x) / 2 == ToNat(x[1..]) && (ToNat(x) % 2 == 1 <==> x[0])
  {
  }

  lemma {:induction false} SliceAbove(x: Word, k: nat)
    requires k <= |x|
    ensures ToNat(x[k..]) == Above(ToNat(x), k)
  {
    if k == 0 {
      assert x[0..] == x;
    } else {
      HalvesOf(x);
      SliceAbove(x[1..], k - 1);
      assert x[1..][k - 1..] == x[k..];
    }
  }

  // z is x ^ (x >> shift), bit by bit from the lowest.
  lemma {:induction false} XorNumber(x: Word, y: Word, z: Word)
    requires |z| == |x| && |y| <= |x|
    requires forall i :: 0 <= i < |z| ==> z[i] == (x[i] != (i < |y| && y[i]))
    ensures ToNat(z) == Xor(ToNat(x), ToNat(y))
  {
    if z == [] {
      assert Xor(0, 0) == 0;
    } else {
      var y' := if y == [] then [] else y[1..];
      XorNumber(x[1..], y', z[1..]);
      HalvesOf(x);
      if y != [] {
        HalvesOf(y);
      }
      assert ToNat(y) / 2 == ToNat(y');
      assert ToNat(y) % 2 == 1 <==> y != [] && y[0];
      assert z[0] == (x[0] != (y != [] && y[0]));
    }
  }

  ghost function XorAbove(n: nat, shift: nat): nat {
    Xor(n, Above(n, shift))
  }

  // x ^ (x >> shift) on numbers
  lemma XorshiftNumber(x: Word, shift: nat)
    ensures ToNat(Xorshift(x, shift)) == XorAbove(ToNat(x), shift)
  {
    var k := if shift < |x| then shift else |x|;
    var z := Xorshift(x, shift);
    forall i | 0 <= i < |z| ensures z[i] == (x[i] != (i < |x[k..]| && x[k..][i])) {
      assert z[i] == XorBit(x, i, shift);
    }
    XorNumber(x, x[k..], z);
    SliceAbove(x, k);
    if shift > |x| {
      AboveAll(ToNat(x), |x|, shift);
    }
  }

  // Nothing is left above all bits.
  lemma {:induction false} AboveAll(n: nat, k: nat, shift: nat)
    requires n < Pow2(k) && k <= shift
    ensures Above(n, k) == Above(n, shift) == 0
  {
    if shift > 0 {
      AboveAll(n / 2, if k > 0 then k - 1 else 0, shift - 1);
    }
  }

  lemma MixNumber(s: Word, op: nat) returns (shift: nat, mixed: nat)
    requires op <= |s|
    ensures shift == op + Above(ToNat(s), |s| - op)
    ensures mixed == ToNat(Mix(s, op)) == XorAbove(ToNat(s), shift)
  {
    shift := op + RandomShift(s, op);
    mixed := ToNat(Mix(s, op));
    SliceAbove(s, |s| - op);
    XorshiftNumber(s, shift);
  }

  lemma TimesNumber(x: Word, k: nat) returns (product: nat)
    ensures product == ToNat(Times(x, k)) == Below(Product(ToNat(x), k), |x|)
  {
    var p := Product(ToNat(x), k);
    AboveBelow(p, |x|);
    ToFromNat(|x|, Below(p, |x|));
    product := Below(p, |x|);
  }

  ghost function Product(x: nat, y: nat): nat {
    ProductNonNegative(x, y);
    x * y
  }

  lemma LastNumber(product: Word, resultBits: nat, fixed: nat) returns (result: nat)
    requires resultBits <= |product|
    ensures result == Above(ToNat(product), |product| - resultBits)
    ensures ToNat(Xorshift(product[|product| - resultBits..], fixed)) == XorAbove(result, fixed)
  {
    result := Above(ToNat(product), |product| - resultBits);
    SliceAbove(product, |product| - resultBits);
    XorshiftNumber(product[|product| - resultBits..], fixed);
  }

  ghost function OutputOf(s: Word, op: nat, multiplier: nat, resultBits: nat, fixed: nat): Word
    requires op <= |s| && resultBits <= |s|
  {
    Xorshift(Times(Mix(s, op), multiplier)[|s| - resultBits..], fixed)
  }

  // rxs_m_xs on numbers: the top op bits of the state n choose the first shift, the
  // product is a word again, and its top resultBits are shifted once more.
  ghost predicate RxsMXs(n: nat, bits: nat, op: nat, multiplier: nat, resultBits: nat, fixed: nat,
                         shift: nat, mixed: nat, product: nat, result: nat, output: nat)
  {
    && op <= bits && resultBits <= bits
    && shift == op + Above(n, bits - op)
    && mixed == Xor(n, Above(n, shift))
    && product == Below(Product(mixed, multiplier), bits)
    && result == Above(product, bits - resultBits)
    && output == Xor(result, Above(result, fixed))
  }

  lemma OutputOfNumber(s: Word, op: nat, multiplier: nat, resultBits: nat, fixed: nat)
    returns (shift: nat, mixed: nat, product: nat, result: nat)
    requires op <= |s| && resultBits <= |s|
    ensures RxsMXs(ToNat(s), |s|, op, multiplier, resultBits, fixed, shift, mixed, product, result,
      ToNat(OutputOf(s, op, multiplier, resultBits, fixed)))
  {
    shift, mixed := MixNumber(s, op);
    product := TimesNumber(Mix(s, op), multiplier);
    result := LastNumber(Times(Mix(s, op), multiplier), resultBits, fixed);
  }

  // The constants the source has for a state of bits bits and a result of
  // resultBits: how many bits choose the first shift, the factor, the last shift.
  ghost predicate Constants(bits: nat, resultBits: nat, op: nat, multiplier: nat, fixed: nat) {
    && resultBits <= bits
    && (|| (resultBits == 8 && op == 2 && fixed == 6)
        || (resultBits == 16 && op == 3 && fixed == 11)
        || (resultBits == 32 && op == 4 && fixed == 22)
        || (resultBits == 64 && op == 5 && fixed == 43)
        || (resultBits == 128 && op == 6 && fixed == 86))
    && (|| (bits == 8 && multiplier == 217)
        || (bits == 16 && multiplier == 62169)
        || (bits == 32 && multiplier == 277803737)
        || (bits == 64 && multiplier == 12605985483714917081)
        || (bits == 128
            && multiplier == 17766728186571221404 * 0x1_0000_0000_0000_0000 + 12605985483714917081))
  }

  lemma ConstantsUsed(bits: nat, resultBits: nat, op: nat, multiplier: nat, fixed: nat)
    requires Constants(bits, resultBits, op, multiplier, fixed)
    ensures SourceWidth(bits) && SourceWidth(resultBits) && op <= bits
    ensures op == OpBits(resultBits) && multiplier == Multiplier(bits) && fixed == FixedShift(resultBits)
  {
  }

  // What is put out, for every state width and every result as wide or narrower.
  lemma OutputNumber(s: Word, resultBits: nat, op: nat, multiplier: nat, fixed: nat)
    returns (shift: nat, mixed: nat, product: nat, result: nat)
    requires Constants(|s|, resultBits, op, multiplier, fixed)
    ensures SourceWidth(|s|) && SourceWidth(resultBits)
    ensures RxsMXs(ToNat(s), |s|, op, multiplier, resultBits, fixed, shift, mixed, product, result,
      ToNat(Output(s, resultBits)))
  {
    ConstantsUsed(|s|, resultBits, op, multiplier, fixed);
    assert Output(s, resultBits) == OutputOf(s, op, multiplier, resultBits, fixed);
    shift, mixed, product, result := OutputOfNumber(s, op, multiplier, resultBits, fixed);
  }

  // Words of 16 bits are promoted to signed integers of 32 bits before they are
  // multiplied. The product fits exactly up to this one.
  lemma ProductFits(mixed: nat)
    ensures Product(mixed, 62169) <= 0x7FFF_FFFF <==> mixed <= 34542
  {
  }

  // The 8-bit state 1 gives 218.
  lemma OutputAtOne(s: Word)
    requires |s| == 8 && ToNat(s) == 1
    ensures ToNat(Output(s, 8)) == 218
  {
    var shift, mixed, product, result := OutputNumber(s, 8, 2, 217, 6);
    Evaluated(shift, mixed, product, result, ToNat(Output(s, 8)));
  }

  lemma Evaluated(shift: nat, mixed: nat, product: nat, result: nat, output: nat)
    requires RxsMXs(1, 8, 2, 217, 8, 6, shift, mixed, product, result, output)
    ensures output == 218
  {
    ShiftsEvaluated();
    XorEvaluated();
  }

  lemma ShiftsEvaluated()
    ensures Above(1, 6) == 0 && Above(1, 2) == 0 && Above(217, 0) == 217 && Above(217, 6) == 3
    ensures Below(217, 8) == 217
  {
  }

  lemma XorEvaluated()
    ensures Xor(1, 0) == 1 && Xor(217, 3) == 218
  {
  }
}
