// The output function of the rxs_m_xs generators and its inverse. A word is the
// sequence of its bits, the lowest first.
module OutputPermutation {
  import opened Modular

  type Word = seq<bool>

  function ToNat(x: Word): (n: nat)
    ensures n < Pow2(|x|)
  {
    if x == [] then 0 else (if x[0] then 1 else 0) + 2 * ToNat(x[1..])
  }

  function FromNat(bits: nat, n: nat): (x: Word)
    ensures |x| == bits
  {
    if bits == 0 then [] else [n % 2 == 1] + FromNat(bits - 1, n / 2)
  }

  lemma {:induction false} FromToNat(x: Word)
    ensures FromNat(|x|, ToNat(x)) == x
  {
    if x != [] {
      FromToNat(x[1..]);
      assert x == [x[0]] + x[1..];
    }
  }

  lemma {:induction false} ToFromNat(bits: nat, n: nat)
    requires n < Pow2(bits)
    ensures ToNat(FromNat(bits, n)) == n
  {
    if bits > 0 {
      ToFromNat(bits - 1, n / 2);
      assert FromNat(bits, n)[1..] == FromNat(bits - 1, n / 2);
    }
  }

  // Slices are what shifting right by k and masking the k low bits leave.
  lemma {:induction false} SlicesAreShiftAndMask(x: Word, k: nat)
    requires k <= |x|
    ensures ToNat(x[k..]) == ToNat(x) / Pow2(k) && ToNat(x[..k]) == ToNat(x) % Pow2(k)
  {
    JoinedWords(x, k);
    QuotientUnique(Pow2(k), ToNat(x[k..]), ToNat(x[..k]));
  }

  lemma {:induction false} JoinedWords(x: Word, k: nat)
    requires k <= |x|
    ensures ToNat(x) == Pow2(k) * ToNat(x[k..]) + ToNat(x[..k])
  {
    if k == 0 {
      assert x[0..] == x;
    } else {
      var rest := x[1..];
      JoinedWords(rest, k - 1);
      assert rest[k - 1..] == x[k..];
      TailOf(x, k);
      TwiceProduct(Pow2(k - 1), ToNat(x[k..]));
    }
  }

  lemma TailOf(x: Word, k: nat)
    requires 0 < k <= |x|
    ensures ToNat(x[..k]) == (if x[0] then 1 else 0) + 2 * ToNat(x[1..][..k - 1])
  {
    assert x[..k][1..] == x[1..][..k - 1];
  }

  // ---- xorshift ----

  // x ^ (x >> shift)
  function Xorshift(x: Word, shift: nat): (y: Word)
    ensures |y| == |x|
    ensures forall i :: 0 <= i < |x| ==> y[i] == XorBit(x, i, shift)
  {
    seq(|x|, i requires 0 <= i < |x| => XorBit(x, i, shift))
  }

  function XorBit(x: Word, i: nat, shift: nat): bool
    requires i < |x|
  {
    x[i] != (i + shift < |x| && x[i + shift])
  }

  // unxorshift: the masks take the low bits of x, the bars put two parts together.
  function Unxorshift(x: Word, shift: nat): (y: Word)
    requires shift > 0
    ensures |y| == |x|
    decreases |x|
  {
    if 2 * shift >= |x| then Xorshift(x, shift)
    else
      var low1 := |x| - 2 * shift;
      var bottom1 := x[..low1];
      var top1 := Xorshift(x, shift)[low1..];
      var joined := bottom1 + top1;
      var low2 := |x| - shift;
      var bottom2 := Unxorshift(joined[..low2], shift);
      bottom2[..low1] + top1
  }

  // One round of unxorshift on a shifted word is the word below the shift, shifted.
  lemma ShiftedBelow(x: Word, shift: nat)
    requires 0 < 2 * shift < |x|
    ensures var y := Xorshift(x, shift); var low1 := |x| - 2 * shift; var low2 := |x| - shift;
      && Xorshift(y, shift)[low1..] == x[low1..]
      && (y[..low1] + x[low1..])[..low2] == Xorshift(x[..low2], shift)
  {
    var y, low1, low2 := Xorshift(x, shift), |x| - 2 * shift, |x| - shift;
    forall i | low1 <= i < |x| ensures Xorshift(y, shift)[i] == x[i] {
      assert Xorshift(y, shift)[i] == XorBit(y, i, shift);
      assert y[i] == XorBit(x, i, shift);
      if i + shift < |x| {
        assert y[i + shift] == XorBit(x, i + shift, shift);
      }
    }
    var z, low := (y[..low1] + x[low1..])[..low2], x[..low2];
    forall i | 0 <= i < low2 ensures z[i] == Xorshift(low, shift)[i] {
      assert Xorshift(low, shift)[i] == XorBit(low, i, shift);
      if i < low1 {
        assert y[i] == XorBit(x, i, shift);
      }
    }
  }

  // unxorshift undoes every xorshift, for every width and every positive shift.
  lemma {:induction false} UnxorshiftXorshift(x: Word, shift: nat)
    requires shift > 0
    ensures Unxorshift(Xorshift(x, shift), shift) == x
    decreases |x|
  {
    var y := Xorshift(x, shift);
    if 2 * shift >= |x| {
      forall i | 0 <= i < |x| ensures Xorshift(y, shift)[i] == x[i] {
        assert Xorshift(y, shift)[i] == XorBit(y, i, shift);
        assert y[i] == XorBit(x, i, shift);
        if i + shift < |x| {
          assert y[i + shift] == XorBit(x, i + shift, shift);
        }
      }
    } else {
      var low1, low2 := |x| - 2 * shift, |x| - shift;
      ShiftedBelow(x, shift);
      UnxorshiftXorshift(x[..low2], shift);
      assert x[..low2][..low1] + x[low1..] == x;
    }
  }

  // A xorshift loses nothing: words that agree after it agree before.
  lemma XorshiftInjective(x: Word, y: Word, shift: nat)
    requires shift > 0 && Xorshift(x, shift) == Xorshift(y, shift)
    ensures x == y
  {
    UnxorshiftXorshift(x, shift);
    UnxorshiftXorshift(y, shift);
  }

  // The other way round: the result of unxorshift shifts to the given word.
  lemma {:induction false} XorshiftUnxorshift(x: Word, shift: nat)
    requires shift > 0
    ensures Xorshift(Unxorshift(x, shift), shift) == x
    decreases |x|
  {
    if 2 * shift >= |x| {
      UnxorshiftXorshift(x, shift);
    } else {
      var low1, low2 := |x| - 2 * shift, |x| - shift;
      var top1 := Xorshift(x, shift)[low1..];
      var joined := (x[..low1] + top1)[..low2];
      var bottom := Unxorshift(joined, shift);
      XorshiftUnxorshift(joined, shift);
      JoinShifted(x, bottom, shift);
    }
  }

  lemma JoinShifted(x: Word, bottom: Word, shift: nat)
    requires 0 < 2 * shift < |x| && |bottom| == |x| - shift
    requires Xorshift(bottom, shift) == (x[..|x| - 2 * shift] + Xorshift(x, shift)[|x| - 2 * shift..])[..|x| - shift]
    ensures Xorshift(bottom[..|x| - 2 * shift] + Xorshift(x, shift)[|x| - 2 * shift..], shift) == x
  {
    var low1, s := |x| - 2 * shift, Xorshift(x, shift);
    var r := bottom[..low1] + s[low1..];
    // where the recursion and the top overlap they agree
    forall i | low1 <= i < |bottom| ensures bottom[i] == s[i] {
      assert Xorshift(bottom, shift)[i] == XorBit(bottom, i, shift);
    }
    forall i | 0 <= i < |x| ensures Xorshift(r, shift)[i] == x[i] {
      assert Xorshift(r, shift)[i] == XorBit(r, i, shift);
      if i < low1 {
        assert Xorshift(bottom, shift)[i] == XorBit(bottom, i, shift);
      } else {
        assert s[i] == XorBit(x, i, shift);
        if i + shift < |x| {
          assert s[i + shift] == XorBit(x, i + shift, shift);
        }
      }
    }
  }

  // ---- multiplication ----

  // internal *= k
  function Times(x: Word, k: nat): (y: Word)
    ensures |y| == |x|
  {
    FromNat(|x|, (ToNat(x) * k) % Pow2(|x|))
  }

  // Multiplying by k and then by its inverse modulo m changes nothing.
  lemma InverseWord(m: nat, n: nat, k: nat, k': nat)
    requires n < m && (k * k') % m == 1
    ensures ((n * k) % m * k') % m == n
  {
    var y := (n * k) % m;
    SameWord(m, n * k);
    SameMod(m, k', k');
    SameProduct(m, y, n * k, k', k');
    InverseProduct(m, n, k, k');
    SameTransitive(m, y * k', (n * k) * k', n);
    SameMod(m, y * k', n);
    QuotientUnique(m, 0, n);
  }

  lemma InverseProduct(m: nat, n: nat, k: nat, k': nat)
    requires m > 0 && (k * k') % m == 1
    ensures Same(m, (n * k) * k', n)
  {
    var z := k * k';
    SameWord(m, z);
    SameTransitive(m, z, z, 1) by { SameMod(m, z, z); SameMod(m, z, 1); OneWord(m, z); }
    SameMod(m, n, n);
    SameProduct(m, n, n, z, 1);
    assert (n * k) * k' == n * z;
  }

  lemma OneWord(m: nat, z: nat)
    requires m > 0 && z % m == 1
    ensures 1 % m == 1
  {
    QuotientUnique(m, 0, 1);
  }

  lemma TimesInverse(x: Word, k: nat, k': nat)
    requires (k * k') % Pow2(|x|) == 1
    ensures Times(Times(x, k), k') == x
  {
    var m, n := Pow2(|x|), ToNat(x);
    ToFromNat(|x|, (n * k) % m);
    InverseWord(m, n, k, k');
    FromToNat(x);
  }

  // Multiplying by k' undoes multiplying by k.
  ghost predicate Undone(bits: nat, k: nat, k': nat) {
    forall x: Word :: |x| == bits ==> Times(Times(x, k), k') == x
  }

  // ---- rxs_m_xs ----

  predicate SourceWidth(bits: nat) {
    bits in {8, 16, 32, 64, 128}
  }

  // mcg_multiplier
  function Multiplier(bits: nat): nat
    requires SourceWidth(bits)
  {
    if bits == 8 then 217
    else if bits == 16 then 62169
    else if bits == 32 then 277803737
    else if bits == 64 then 12605985483714917081
    else 17766728186571221404 * 0x1_0000_0000_0000_0000 + 12605985483714917081
  }

  // mcg_unmultiplier
  function Unmultiplier(bits: nat): nat
    requires SourceWidth(bits)
  {
    if bits == 8 then 105
    else if bits == 16 then 28009
    else if bits == 32 then 2897767785
    else if bits == 64 then 15009553638781119849
    else 14422606686972528997 * 0x1_0000_0000_0000_0000 + 15009553638781119849
  }

  // opbits: how many top bits choose the first shift.
  function OpBits(bits: nat): (n: nat)
    ensures 2 <= n <= 6
  {
    if bits >= 128 then 6 else if bits >= 64 then 5 else if bits >= 32 then 4 else if bits >= 16 then 3 else 2
  }

  // internal >> (bits - opbits)
  function RandomShift(x: Word, opbits: nat): nat
    requires opbits <= |x|
  {
    ToNat(x[|x| - opbits..])
  }

  function FixedShift(bits: nat): nat {
    (2 * bits + 2) / 3
  }

  // The xorshift by an amount that the top bits of the word itself choose.
  function Mix(internal: Word, opbits: nat): (r: Word)
    requires opbits <= |internal|
    ensures |r| == |internal|
  {
    Xorshift(internal, opbits + RandomShift(internal, opbits))
  }

  function Unmix(internal: Word, opbits: nat): (r: Word)
    requires 0 < opbits <= |internal|
    ensures |r| == |internal|
  {
    Unxorshift(internal, opbits + RandomShift(internal, opbits))
  }

  // output: from a state to a result of the given width.
  function Output(internal: Word, resultBits: nat): (r: Word)
    requires SourceWidth(|internal|) && SourceWidth(resultBits) && resultBits <= |internal|
    ensures |r| == resultBits
  {
    var product := Times(Mix(internal, OpBits(resultBits)), Multiplier(|internal|));
    var result := product[|internal| - resultBits..];
    Xorshift(result, FixedShift(resultBits))
  }

  function Unoutput(internal: Word): (s: Word)
    requires SourceWidth(|internal|)
    ensures |s| == |internal|
  {
    var bits := |internal|;
    var product := Unxorshift(internal, FixedShift(bits));
    Unmix(Times(product, Unmultiplier(bits)), OpBits(bits))
  }

  // The top bits choose the shift and, being above it, survive it.
  lemma RandomShiftSurvives(x: Word, opbits: nat, shift: nat)
    requires opbits <= |x| && opbits <= shift
    ensures RandomShift(Xorshift(x, shift), opbits) == RandomShift(x, opbits)
  {
    var y, top := Xorshift(x, shift), |x| - opbits;
    forall i | top <= i < |x| ensures y[i] == x[i] {
      assert y[i] == XorBit(x, i, shift);
    }
    assert y[top..] == x[top..];
  }

  lemma InverseMultipliers(bits: nat)
    requires SourceWidth(bits)
    ensures (Multiplier(bits) * Unmultiplier(bits)) % Pow2(bits) == 1
  {
    Pow2Literals();
    if bits == 64 {
      InverseMultiplier64();
    } else if bits == 128 {
      InverseMultiplier128();
    }
  }

  lemma InverseMultiplier64()
    ensures (Multiplier(64) * Unmultiplier(64)) % 0x1_0000_0000_0000_0000 == 1
  {
  }

  lemma InverseMultiplier128()
    ensures (Multiplier(128) * Unmultiplier(128)) % 0x1_0000_0000_0000_0000_0000_0000_0000_0000 == 1
  {
  }

  lemma Pow2Squared(n: nat, p: nat)
    requires Pow2(n) == p
    ensures Pow2(2 * n) == p * p
  {
    Pow2Sum(n, n);
  }

  lemma {:induction false} Pow2Literals()
    ensures Pow2(8) == 0x100 && Pow2(16) == 0x1_0000 && Pow2(32) == 0x1_0000_0000
    ensures Pow2(64) == 0x1_0000_0000_0000_0000
    ensures Pow2(128) == 0x1_0000_0000_0000_0000_0000_0000_0000_0000
  {
    Pow2Squared(2, 4);
    Pow2Squared(4, 0x10);
    Pow2Squared(8, 0x100);
    Pow2Squared(16, 0x1_0000);
    Pow2Squared(32, 0x1_0000_0000);
    Pow2Squared(64, 0x1_0000_0000_0000_0000);
  }

  lemma MultipliersUndone(bits: nat)
    requires SourceWidth(bits)
    ensures Undone(bits, Multiplier(bits), Unmultiplier(bits))
    ensures Undone(bits, Unmultiplier(bits), Multiplier(bits))
  {
    var k, k' := Multiplier(bits), Unmultiplier(bits);
    InverseMultipliers(bits);
    Commute(k, k');
    forall x: Word | |x| == bits
      ensures Times(Times(x, k), k') == x && Times(Times(x, k'), k) == x
    {
      TimesInverse(x, k, k');
      TimesInverse(x, k', k);
    }
  }

  lemma UnmixMix(s: Word, opbits: nat)
    requires 0 < opbits <= |s|
    ensures Unmix(Mix(s, opbits), opbits) == s
  {
    var shift := opbits + RandomShift(s, opbits);
    RandomShiftSurvives(s, opbits, shift);
    UnxorshiftXorshift(s, shift);
  }

  lemma MixUnmix(r: Word, opbits: nat)
    requires 0 < opbits <= |r|
    ensures Mix(Unmix(r, opbits), opbits) == r
  {
    var shift := opbits + RandomShift(r, opbits);
    var s := Unxorshift(r, shift);
    XorshiftUnxorshift(r, shift);
    RandomShiftSurvives(s, opbits, shift);
    assert Unmix(r, opbits) == s;
    assert Mix(s, opbits) == Xorshift(s, shift);
  }

  lemma WholeSlice(x: Word)
    ensures x[|x| - |x|..] == x
  {
  }

  lemma UnshiftOutput(s: Word)
    requires SourceWidth(|s|)
    ensures Unxorshift(Output(s, |s|), FixedShift(|s|)) == Times(Mix(s, OpBits(|s|)), Multiplier(|s|))
  {
    var product := Times(Mix(s, OpBits(|s|)), Multiplier(|s|));
    WholeSlice(product);
    UnxorshiftXorshift(product, FixedShift(|s|));
  }

  // The state can be recovered from the result.
  lemma UnoutputOutput(s: Word)
    requires SourceWidth(|s|)
    ensures Unoutput(Output(s, |s|)) == s
  {
    var bits := |s|;
    UnshiftOutput(s);
    UndoneAt(Mix(s, OpBits(bits)), bits);
    UnmixMix(s, OpBits(bits));
  }

  lemma UndoneAt(x: Word, bits: nat)
    requires SourceWidth(bits) && |x| == bits
    ensures Times(Times(x, Multiplier(bits)), Unmultiplier(bits)) == x
    ensures Times(Times(x, Unmultiplier(bits)), Multiplier(bits)) == x
  {
    MultipliersUndone(bits);
  }

  // Every result comes from a state, so output is a permutation of the words.
  lemma OutputUnoutput(r: Word)
    requires SourceWidth(|r|)
    ensures Output(Unoutput(r), |r|) == r
  {
    var bits := |r|;
    var product := Unxorshift(r, FixedShift(bits));
    var mixed := Times(product, Unmultiplier(bits));
    MixUnmix(mixed, OpBits(bits));
    UndoneAt(product, bits);
    WholeSlice(product);
    XorshiftUnxorshift(r, FixedShift(bits));
  }

  // Distinct states have distinct results.
  lemma OutputInjective(s: Word, t: Word)
    requires SourceWidth(|s|) && |t| == |s|
    ensures Output(s, |s|) == Output(t, |t|) <==> s == t
  {
    UnoutputOutput(s);
    UnoutputOutput(t);
  }
}
