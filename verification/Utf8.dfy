// Conversion between UTF-32 units and UTF-8 bytes, part by part through a
// fixed buffer. Masks are remainders and ors of disjoint bits are sums.
module Utf8 {
  import opened Sequences

  ghost predicate Bytes(s: seq<int>) {
    forall i :: 0 <= i < |s| ==> 0 <= s[i] < 0x100
  }

  // Units of 32 bits.
  ghost predicate Units(s: seq<int>) {
    forall i :: 0 <= i < |s| ==> 0 <= s[i] < 0x1_0000_0000
  }

  // The byte that carries six bits of c, those above 2^weight.
  function Tail(c: nat): int {
    0x80 + c % 0x40
  }

  // The bytes UCS4ToUTF8 writes for a unit.
  function Encode(c: nat): (s: seq<int>)
    ensures 1 <= |s| <= 6
  {
    if c < 0x80 then [c]
    else if c < 0x800 then [0xC0 + c / 0x40, Tail(c)]
    else if c <= 0xFFFF then [0xE0 + c / 0x1000, Tail(c / 0x40), Tail(c)]
    else if c <= 0x1F_FFFF then [0xF0 + c / 0x4_0000, Tail(c / 0x1000), Tail(c / 0x40), Tail(c)]
    else if c <= 0x3FF_FFFF then
      [0xF8 + c / 0x100_0000, 0x80 + (c / 0x4_0000) % 0x80, Tail(c / 0x1000), Tail(c / 0x40), Tail(c)]
    else if c <= 0x7FFF_FFFF then
      [0xFC + c / 0x4000_0000, Tail(c / 0x100_0000), Tail(c / 0x4_0000), Tail(c / 0x1000), Tail(c / 0x40), Tail(c)]
    else [1]
  }

  ghost function EncodeAll(s: seq<int>): (r: seq<int>)
    requires Units(s)
  {
    if s == [] then [] else Encode(s[0]) + EncodeAll(s[1..])
  }

  // What reading one unit gives: the unit and how many bytes it took.
  datatype Reading = Reading(ok: bool, unit: int, used: nat)

  const BAD_UNIT := 0xFFFF

  predicate IsTail(b: int) {
    0x80 <= b < 0xC0
  }

  // How many bytes the lead byte announces, none being malformed.
  function Announced(lead: int): nat {
    if lead < 0x80 then 1
    else if lead < 0xC0 then 0
    else if lead < 0xE0 then 2
    else if lead < 0xF0 then 3
    else if lead < 0xF8 then 4
    else if lead < 0xFC then 4
    else if lead < 0xFE then 5
    else 0
  }

  // The unit in n bytes: what is left of the lead byte, then six bits from each other.
  function Assembled(s: seq<int>, n: nat): int
    requires 1 <= n <= 4 && n <= |s|
  {
    if n == 1 then s[0]
    else if n == 2 then (s[0] % 0x20) * 0x40 + s[1] % 0x40
    else if n == 3 then (s[0] % 0x10) * 0x1000 + (s[1] % 0x40) * 0x40 + s[2] % 0x40
    else (s[0] % 0x8) * 0x4_0000 + (s[1] % 0x40) * 0x1000 + (s[2] % 0x40) * 0x40 + s[3] % 0x40
  }

  // Whether UTF8ToUCS4 takes n bytes for unit c. It does not look at the top
  // bits of the fourth byte.
  predicate Accepts(s: seq<int>, n: nat, c: int)
    requires 1 <= n <= 4 && n <= |s|
  {
    && (n >= 2 ==> IsTail(s[1])) && (n >= 3 ==> IsTail(s[2]))
    && (n == 2 ==> 0x80 <= c < 0x800) && (n == 3 ==> 0x800 <= c < 0x1_0000) && (n == 4 ==> 0x1_0000 <= c <= 0x10_FFFF)
  }

  // What UTF8ToUCS4 reads from the front of s.
  function Decode(s: seq<int>): (r: Reading)
    requires s != []
    ensures 1 <= r.used <= |s|
  {
    var n := Announced(s[0]);
    if n == 0 || n > |s| then Reading(false, BAD_UNIT, 1)
    else if s[0] >= 0xF8 then Reading(true, BAD_UNIT, n)
    else if Accepts(s, n, Assembled(s, n)) then Reading(true, Assembled(s, n), n)
    else Reading(false, BAD_UNIT, 1)
  }

  ghost function DecodeAll(s: seq<int>): (r: seq<int>) {
    if s == [] then [] else [Decode(s).unit] + DecodeAll(s[Decode(s).used..])
  }

  // ---- one unit ----

  // A unit is its four groups of bits put together.
  lemma Grouped(c: nat)
    ensures c == (c / 0x4_0000) * 0x4_0000 + ((c / 0x1000) % 0x40) * 0x1000 + ((c / 0x40) % 0x40) * 0x40 + c % 0x40
  {
    var q1 := c / 0x40;
    var q2 := q1 / 0x40;
    var q3 := q2 / 0x40;
    ShiftTwice(c);
    ShiftTwice(q1);
  }

  lemma ShiftTwice(c: nat)
    ensures c / 0x1000 == (c / 0x40) / 0x40 && c / 0x4_0000 == (c / 0x1000) / 0x40
  {
  }

  lemma Digit(q: nat, d: nat)
    requires d < 0x40
    ensures (q * 0x40 + d) / 0x40 == q && (q * 0x40 + d) % 0x40 == d
  {
  }

  // Groups of bits put together are those of the unit.
  lemma Groups(d3: nat, d2: nat, d1: nat, d0: nat, c: nat)
    requires d2 < 0x40 && d1 < 0x40 && d0 < 0x40
    requires c == d3 * 0x4_0000 + d2 * 0x1000 + d1 * 0x40 + d0
    ensures c % 0x40 == d0 && (c / 0x40) % 0x40 == d1 && (c / 0x1000) % 0x40 == d2 && c / 0x4_0000 == d3
    ensures c / 0x40 == d3 * 0x1000 + d2 * 0x40 + d1 && c / 0x1000 == d3 * 0x40 + d2
  {
    var q2 := d3 * 0x40 + d2;
    var q1 := q2 * 0x40 + d1;
    Digit(d3, d2);
    Digit(q2, d1);
    Digit(q1, d0);
    ShiftTwice(c);
  }

  lemma TailBits(x: nat)
    ensures IsTail(Tail(x)) && Tail(x) % 0x40 == x % 0x40
  {
  }

  lemma ReadTwo(s: seq<int>, c: nat)
    requires |s| >= 2 && 0x80 <= c < 0x800 && s[0] == 0xC0 + c / 0x40 && s[1] == Tail(c)
    ensures Decode(s) == Reading(true, c, 2)
  {
    TailBits(c);
    assert s[0] % 0x20 == c / 0x40;
  }

  lemma ReadThree(s: seq<int>, c: nat)
    requires |s| >= 3 && 0x800 <= c < 0x1_0000
    requires s[0] == 0xE0 + c / 0x1000 && s[1] == Tail(c / 0x40) && s[2] == Tail(c)
    ensures Decode(s) == Reading(true, c, 3)
  {
    TailBits(c);
    TailBits(c / 0x40);
    Grouped(c);
    ShiftTwice(c);
    assert c / 0x4_0000 == 0;
    assert s[0] % 0x10 == c / 0x1000;
    assert (c / 0x1000) % 0x40 == c / 0x1000;
  }

  lemma ReadFour(s: seq<int>, c: nat)
    requires |s| >= 4 && 0x1_0000 <= c <= 0x10_FFFF
    requires s[0] == 0xF0 + c / 0x4_0000 && s[1] == Tail(c / 0x1000) && s[2] == Tail(c / 0x40) && s[3] == Tail(c)
    ensures Decode(s) == Reading(true, c, 4)
  {
    TailBits(c);
    TailBits(c / 0x40);
    TailBits(c / 0x1000);
    Grouped(c);
    assert s[0] % 0x8 == c / 0x4_0000;
  }

  // A Unicode unit is read back from what is written for it, whatever follows.
  lemma DecodeEncode(c: nat, rest: seq<int>)
    requires c <= 0x10_FFFF
    ensures Decode(Encode(c) + rest) == Reading(true, c, |Encode(c)|)
  {
    var s, e := Encode(c) + rest, Encode(c);
    assert s[0] == e[0];
    if c < 0x80 {
    } else if c < 0x800 {
      assert s[1] == e[1];
      ReadTwo(s, c);
    } else if c <= 0xFFFF {
      assert s[1] == e[1] && s[2] == e[2];
      ReadThree(s, c);
    } else {
      assert s[1] == e[1] && s[2] == e[2] && s[3] == e[3];
      ReadFour(s, c);
    }
  }

  // A unit beyond Unicode is not read back.
  lemma DecodeBeyond(c: nat, rest: seq<int>)
    requires 0x10_FFFF < c < 0x1_0000_0000
    ensures Decode(Encode(c) + rest).unit != c
  {
    var s, e := Encode(c) + rest, Encode(c);
    assert s[0] == e[0];
  }

  // Exactly what is accepted of the forms up to four bytes: the encoding of
  // the unit, save that the fourth byte may have any top bits.
  lemma DecodeExact(s: seq<int>)
    requires s != [] && Bytes(s) && s[0] < 0xF8 && Decode(s).ok
    ensures 0 <= Decode(s).unit <= 0x10_FFFF && Decode(s).used == |Encode(Decode(s).unit)|
    ensures s[..Decode(s).used] == Encode(Decode(s).unit) <==> s[0] < 0xF0 || IsTail(s[3])
  {
    var n, c := Decode(s).used, Decode(s).unit;
    if n == 1 {
      assert s[..1] == [s[0]];
    } else if n == 2 {
      WriteTwo(s[0], s[1], c);
      assert s[..2] == [s[0], s[1]];
    } else if n == 3 {
      WriteThree(s[0], s[1], s[2], c);
      assert s[..3] == [s[0], s[1], s[2]];
    } else {
      WriteFour(s[0], s[1], s[2], s[3], c);
      assert s[..4] == [s[0], s[1], s[2], s[3]];
    }
  }

  lemma WriteTwo(b0: int, b1: int, c: int)
    requires 0xC0 <= b0 < 0xE0 && IsTail(b1) && 0x80 <= c < 0x800
    requires c == (b0 % 0x20) * 0x40 + b1 % 0x40
    ensures Encode(c) == [b0, b1]
  {
    Digit(b0 % 0x20, b1 % 0x40);
  }

  lemma WriteThree(b0: int, b1: int, b2: int, c: int)
    requires 0xE0 <= b0 < 0xF0 && IsTail(b1) && IsTail(b2) && 0x800 <= c < 0x1_0000
    requires c == (b0 % 0x10) * 0x1000 + (b1 % 0x40) * 0x40 + b2 % 0x40
    ensures Encode(c) == [b0, b1, b2]
  {
    Groups(0, b0 % 0x10, b1 % 0x40, b2 % 0x40, c);
    assert c / 0x1000 == b0 - 0xE0;
    TailOf(c / 0x40, b1);
    TailOf(c, b2);
  }

  lemma TailOf(x: nat, b: int)
    requires 0 <= b < 0x100 && x % 0x40 == b % 0x40
    ensures Tail(x) == b <==> IsTail(b)
  {
  }

  lemma WriteFour(b0: int, b1: int, b2: int, b3: int, c: int)
    requires 0xF0 <= b0 < 0xF8 && IsTail(b1) && IsTail(b2) && 0 <= b3 < 0x100 && 0x1_0000 <= c <= 0x10_FFFF
    requires c == (b0 % 0x8) * 0x4_0000 + (b1 % 0x40) * 0x1000 + (b2 % 0x40) * 0x40 + b3 % 0x40
    ensures |Encode(c)| == 4 && (Encode(c) == [b0, b1, b2, b3] <==> IsTail(b3))
  {
    Groups(b0 % 0x8, b1 % 0x40, b2 % 0x40, b3 % 0x40, c);
    assert c / 0x4_0000 == b0 - 0xF0;
    TailOf(c / 0x1000, b1);
    TailOf(c / 0x40, b2);
    TailOf(c, b3);
  }

  // A fourth byte that continues nothing is taken all the same.
  lemma FourthByteUnchecked()
    ensures Decode([0xF0, 0x90, 0x80, 0x41]) == Reading(true, 0x1_0001, 4)
    ensures Encode(0x1_0001) != [0xF0, 0x90, 0x80, 0x41]
  {
  }

  // ---- texts ----

  lemma EncodeAllStep(s: seq<int>, i: nat, j: nat)
    requires Units(s) && i <= j < |s|
    ensures EncodeAll(s[i..j + 1]) == EncodeAll(s[i..j]) + Encode(s[j])
  {
    EncodeAllConcat(s[i..j], [s[j]]);
    assert s[i..j + 1] == s[i..j] + [s[j]];
    EncodeAllOne(s[j]);
  }

  lemma EncodeAllOne(c: nat)
    requires Units([c])
    ensures EncodeAll([c]) == Encode(c)
  {
    var rest: seq<int> := [c][1..];
    assert rest == [] && EncodeAll(rest) == [];
    assert EncodeAll([c]) == Encode(c) + EncodeAll(rest);
  }

  lemma {:induction false} EncodeAllConcat(s: seq<int>, t: seq<int>)
    requires Units(s) && Units(t)
    ensures Units(s + t) && EncodeAll(s + t) == EncodeAll(s) + EncodeAll(t)
  {
    if s == [] {
      assert s + t == t;
    } else {
      EncodeAllConcat(s[1..], t);
      assert (s + t)[1..] == s[1..] + t;
      ConcatAssociative(Encode(s[0]), EncodeAll(s[1..]), EncodeAll(t));
    }
  }

  ghost predicate Unicode(s: seq<int>) {
    forall i :: 0 <= i < |s| ==> s[i] <= 0x10_FFFF
  }

  // A text comes back from UTF-8 unchanged exactly if it stays within Unicode.
  lemma {:induction false} RoundTrip(s: seq<int>)
    requires Units(s)
    ensures DecodeAll(EncodeAll(s)) == s <==> Unicode(s)
  {
    if s != [] {
      var e, rest := Encode(s[0]), EncodeAll(s[1..]);
      var t := e + rest;
      RoundTrip(s[1..]);
      assert DecodeAll(t) == [Decode(t).unit] + DecodeAll(t[Decode(t).used..]);
      if s[0] <= 0x10_FFFF {
        DecodeEncode(s[0], rest);
        assert t[|e|..] == rest;
        assert DecodeAll(t)[1..] == DecodeAll(rest);
        assert s == [s[0]] + s[1..];
      } else {
        DecodeBeyond(s[0], rest);
        assert DecodeAll(t)[0] != s[0];
      }
    }
  }

  // Texts within Unicode that give the same bytes are the same.
  lemma EncodeAllInjective(s: seq<int>, t: seq<int>)
    requires Units(s) && Units(t) && Unicode(s) && Unicode(t) && EncodeAll(s) == EncodeAll(t)
    ensures s == t
  {
    RoundTrip(s);
    RoundTrip(t);
  }

  // ---- the buffer ----

  // UCS4ToUTF8: writes a unit at dest[pos], for which there must be room for six bytes.
  method Ucs4ToUtf8(c: nat, dest: array<int>, pos: nat) returns (end: nat, ok: bool)
    requires c < 0x1_0000_0000 && pos + 6 <= dest.Length
    modifies dest
    ensures end == pos + |Encode(c)| && dest[pos..end] == Encode(c) && dest[..pos] == old(dest[..pos])
    ensures ok <==> c <= 0x7FFF_FFFF
  {
    ok := true;
    if c < 0x80 {
      dest[pos] := c;
      end := pos + 1;
    } else if c < 0x800 {
      dest[pos], dest[pos + 1] := 0xC0 + c / 0x40, Tail(c);
      end := pos + 2;
    } else if c <= 0xFFFF {
      dest[pos], dest[pos + 1], dest[pos + 2] := 0xE0 + c / 0x1000, Tail(c / 0x40), Tail(c);
      end := pos + 3;
    } else if c <= 0x1F_FFFF {
      dest[pos], dest[pos + 1], dest[pos + 2], dest[pos + 3] :=
        0xF0 + c / 0x4_0000, Tail(c / 0x1000), Tail(c / 0x40), Tail(c);
      end := pos + 4;
    } else {
      end, ok := LongForm(c, dest, pos);
    }
  }

  // Its branches for units beyond 21 bits.
  method LongForm(c: nat, dest: array<int>, pos: nat) returns (end: nat, ok: bool)
    requires 0x1F_FFFF < c < 0x1_0000_0000 && pos + 6 <= dest.Length
    modifies dest
    ensures end == pos + |Encode(c)| && dest[pos..end] == Encode(c) && dest[..pos] == old(dest[..pos])
    ensures ok <==> c <= 0x7FFF_FFFF
  {
    ok := true;
    if c <= 0x3FF_FFFF {
      dest[pos], dest[pos + 1], dest[pos + 2], dest[pos + 3], dest[pos + 4] :=
        0xF8 + c / 0x100_0000, 0x80 + (c / 0x4_0000) % 0x80, Tail(c / 0x1000), Tail(c / 0x40), Tail(c);
      end := pos + 5;
    } else if c <= 0x7FFF_FFFF {
      dest[pos], dest[pos + 1], dest[pos + 2], dest[pos + 3], dest[pos + 4], dest[pos + 5] :=
        0xFC + c / 0x4000_0000, Tail(c / 0x100_0000), Tail(c / 0x4_0000), Tail(c / 0x1000), Tail(c / 0x40), Tail(c);
      end := pos + 6;
    } else {
      dest[pos] := 1;
      end := pos + 1;
      ok := false;
    }
  }

  // Units have been written from pos on while there was room below limit; all but
  // the last have an encoding, and ok says whether that has one, too.
  ghost predicate Took(src: seq<int>, from: nat, next: nat, pos: nat, limit: int, ok: bool)
    requires Units(src) && from <= next <= |src|
  {
    if from == next then ok
    else
      && (ok <==> src[next - 1] <= 0x7FFF_FFFF)
      && (forall i :: from <= i < next - 1 ==> src[i] <= 0x7FFF_FFFF)
      && pos + |EncodeAll(src[from..next - 1])| < limit
  }

  // DecodePart from UTF-32 to bytes. It stops six bytes before the end of the
  // buffer, at a unit without an encoding, or at the end of the source.
  method DecodePartToBytes(src: seq<int>, from: nat, dest: array<int>, pos: nat) returns (next: nat, end: nat, ok: bool)
    requires Units(src) && from <= |src| && pos + 6 < dest.Length
    modifies dest
    ensures from <= next <= |src| && pos <= end <= dest.Length && (from < |src| ==> from < next)
    ensures dest[..end] == old(dest[..pos]) + EncodeAll(src[from..next])
    ensures next == |src| || end >= dest.Length - 6 || !ok
    ensures Took(src, from, next, pos, dest.Length - 6, ok)
  {
    next, end, ok := from, pos, true;
    ghost var before := dest[..pos];
    assert before + EncodeAll(src[from..from]) == before;
    while ok && next < |src| && end < dest.Length - 6
      invariant from <= next <= |src| && pos <= end <= dest.Length
      invariant from == next ==> ok && end == pos
      invariant Took(src, from, next, pos, dest.Length - 6, ok)
      invariant dest[..end] == before + EncodeAll(src[from..next])
      decreases |src| - next
    {
      next, end, ok := OneUnit(src, from, next, dest, end, before, pos);
    }
  }

  // One turn of that loop.
  method OneUnit(src: seq<int>, ghost from: nat, next0: nat, dest: array<int>, end0: nat, ghost before: seq<int>,
                 ghost pos: nat)
    returns (next: nat, end: nat, ok: bool)
    requires Units(src) && from <= next0 < |src| && end0 + 6 < dest.Length && |before| == pos
    requires dest[..end0] == before + EncodeAll(src[from..next0])
    requires Took(src, from, next0, pos, dest.Length - 6, true)
    modifies dest
    ensures next == next0 + 1 && end0 < end <= dest.Length && Took(src, from, next, pos, dest.Length - 6, ok)
    ensures dest[..end] == before + EncodeAll(src[from..next])
  {
    end, ok := Ucs4ToUtf8(src[next0], dest, end0);
    next := next0 + 1;
    EncodeAllStep(src, from, next0);
    Extended(dest[..end], end0, before, EncodeAll(src[from..next0]), Encode(src[next0]));
  }

  lemma Extended(whole: seq<int>, k: nat, before: seq<int>, done: seq<int>, piece: seq<int>)
    requires k <= |whole| && whole[..k] == before + done && whole[k..] == piece
    ensures whole == before + (done + piece)
  {
    assert whole == whole[..k] + whole[k..];
  }

  // UTF8ToUCS4: reads a unit at src[p]. At the end of the source it fails and steps past it.
  method Utf8ToUcs4(src: seq<int>, p: nat) returns (ok: bool, result: int, next: nat)
    requires Bytes(src) && p <= |src|
    ensures p < |src| ==> var r := Decode(src[p..]); ok == r.ok && result == r.unit && next == p + r.used
    ensures p == |src| ==> !ok && next == p + 1
  {
    ok, result, next := false, BAD_UNIT, p + 1;
    if p < |src| {
      var lead := src[p];
      if lead < 0x80 {
        ok, result := true, lead;
      } else if lead >= 0xC0 {
        if lead < 0xE0 {
          if p + 2 <= |src| {
            var c := (lead % 0x20) * 0x40 + src[p + 1] % 0x40;
            if IsTail(src[p + 1]) && 0x80 <= c < 0x800 {
              ok, result, next := true, c, p + 2;
            }
          }
        } else if lead < 0xF0 {
          if p + 3 <= |src| {
            var c := (lead % 0x10) * 0x1000 + (src[p + 1] % 0x40) * 0x40 + src[p + 2] % 0x40;
            if IsTail(src[p + 1]) && IsTail(src[p + 2]) && 0x800 <= c < 0x1_0000 {
              ok, result, next := true, c, p + 3;
            }
          }
        } else if lead < 0xF8 {
          if p + 4 <= |src| {
            var c := (lead % 0x8) * 0x4_0000 + (src[p + 1] % 0x40) * 0x1000
              + (src[p + 2] % 0x40) * 0x40 + src[p + 3] % 0x40;
            if IsTail(src[p + 1]) && IsTail(src[p + 2]) && 0x1_0000 <= c <= 0x10_FFFF {
              ok, result, next := true, c, p + 4;
            }
          }
        } else if lead < 0xFC {
          if p + 4 <= |src| {
            ok, next := true, p + 4;
          }
        } else if lead < 0xFE {
          if p + 5 <= |src| {
            ok, next := true, p + 5;
          }
        }
      }
    }
  }

  lemma {:induction false} DecodeAllRest(s: seq<int>, p: nat, q: nat)
    requires p < q <= |s| && q == p + Decode(s[p..]).used
    ensures DecodeAll(s[p..]) == [Decode(s[p..]).unit] + DecodeAll(s[q..])
  {
    assert s[p..][q - p..] == s[q..];
  }

  // Reading from here on count units, all but the last of them good, leads to next;
  // ok says whether the last one is, too.
  ghost predicate Leads(src: seq<int>, from: nat, count: nat, next: nat, ok: bool)
    requires from <= |src|
    decreases count
  {
    if count == 0 then next == from && ok
    else
      && from < |src|
      && var r := Decode(src[from..]);
      if count == 1 then next == from + r.used && ok == r.ok
      else r.ok && Leads(src, from + r.used, count - 1, next, ok)
  }

  lemma {:induction false} LeadsOn(src: seq<int>, from: nat, count: nat, mid: nat, next: nat, ok: bool)
    requires from <= |src| && mid < |src| && Leads(src, from, count, mid, true)
    requires var r := Decode(src[mid..]); next == mid + r.used && ok == r.ok
    ensures Leads(src, from, count + 1, next, ok)
    decreases count
  {
    if count > 0 {
      var r := Decode(src[from..]);
      LeadsOn(src, from + r.used, count - 1, mid, next, ok);
    }
  }

  // What has been read from here on: count units, so that with those still to be
  // read they are what all bytes give.
  ghost predicate PartRead(src: seq<int>, from: nat, before: seq<int>, read: seq<int>,
                           next: nat, count: nat, ok: bool)
  {
    && from <= next <= |src| && (count == 0 <==> from == next) && |read| == |before| + count
    && Leads(src, from, count, next, ok)
    && read + DecodeAll(src[next..]) == before + DecodeAll(src[from..])
  }

  lemma PartReadNone(src: seq<int>, from: nat, before: seq<int>)
    requires from <= |src|
    ensures PartRead(src, from, before, before, from, 0, true)
  {
  }

  lemma PartReadText(src: seq<int>, read: seq<int>, mid: nat, next: nat, all: seq<int>)
    requires mid < next <= |src| && next == mid + Decode(src[mid..]).used && read + DecodeAll(src[mid..]) == all
    ensures read + [Decode(src[mid..]).unit] + DecodeAll(src[next..]) == all
  {
    DecodeAllRest(src, mid, next);
    ConcatAssociative(read, [Decode(src[mid..]).unit], DecodeAll(src[next..]));
  }

  lemma PartReadMore(src: seq<int>, from: nat, before: seq<int>, read: seq<int>,
                     mid: nat, count: nat, r: Reading)
    requires PartRead(src, from, before, read, mid, count, true) && mid < |src| && r == Decode(src[mid..])
    ensures PartRead(src, from, before, read + [r.unit], mid + r.used, count + 1, r.ok)
  {
    var next := mid + r.used;
    assert Leads(src, from, count + 1, next, r.ok) by {
      LeadsOn(src, from, count, mid, next, r.ok);
    }
    assert read + [r.unit] + DecodeAll(src[next..]) == before + DecodeAll(src[from..]) by {
      PartReadText(src, read, mid, next, before + DecodeAll(src[from..]));
    }
  }

  // DecodePart from bytes to UTF-32. It stops at the end of the buffer, after
  // a malformed unit, or at the end of the source.
  method DecodePartToUnits(src: seq<int>, from: nat, dest: array<int>, pos: nat) returns (next: nat, end: nat, ok: bool)
    requires Bytes(src) && from <= |src| && pos < dest.Length
    modifies dest
    ensures from <= next <= |src| && pos <= end <= dest.Length && (from < |src| ==> from < next)
    ensures dest[..end] + DecodeAll(src[next..]) == old(dest[..pos]) + DecodeAll(src[from..])
    ensures Leads(src, from, end - pos, next, ok) && (next == |src| || end == dest.Length || !ok)
  {
    ghost var count;
    next, end, ok, count := ReadLoop(src, from, dest, pos);
  }

  // Its loop.
  method ReadLoop(src: seq<int>, from: nat, dest: array<int>, pos: nat)
    returns (next: nat, end: nat, ok: bool, ghost count: nat)
    requires Bytes(src) && from <= |src| && pos < dest.Length
    modifies dest
    ensures end == pos + count <= dest.Length && (from < |src| ==> count > 0)
    ensures PartRead(src, from, old(dest[..pos]), dest[..end], next, count, ok)
    ensures next == |src| || end == dest.Length || !ok
  {
    next, end, ok := from, pos, true;
    count := 0;
    PartReadNone(src, from, dest[..pos]);
    while ok && next < |src| && end < dest.Length
      invariant next <= |src| && end == pos + count <= dest.Length && (count == 0 ==> ok && next == from && end == pos)
      invariant PartRead(src, from, old(dest[..pos]), dest[..end], next, count, ok)
      decreases |src| - next
    {
      next, end, ok := OneReading(src, next, dest, end, from, old(dest[..pos]), count);
      count := count + 1;
    }
  }

  // One turn of that loop.
  method OneReading(src: seq<int>, next0: nat, dest: array<int>, end0: nat,
                    ghost from: nat, ghost before: seq<int>, ghost count: nat)
    returns (next: nat, end: nat, ok: bool)
    requires Bytes(src) && next0 < |src| && end0 < dest.Length
    requires PartRead(src, from, before, dest[..end0], next0, count, true)
    modifies dest
    ensures next0 < next <= |src| && end == end0 + 1
    ensures PartRead(src, from, before, dest[..end], next, count + 1, ok)
  {
    ghost var written := dest[..end0];
    var c;
    ok, c, next := Utf8ToUcs4(src, next0);
    dest[end0] := c;
    end := end0 + 1;
    PartReadMore(src, from, before, written, next0, count, Decode(src[next0..]));
    assert dest[..end] == written + [c];
  }

  // ---- append_convert ----

  const BUFFER_SIZE := 512

  // A string being appended to.
  class Text {
    var contents: seq<int>

    constructor ()
      ensures contents == []
    {
      contents := [];
    }

    // append_convert of UTF-32 to a string of bytes. The chunks leave no trace,
    // and each takes something from the source.
    method AppendUnits(other: seq<int>)
      requires Units(other)
      modifies this
      ensures contents == old(contents) + EncodeAll(other)
    {
      var buffer := new int[BUFFER_SIZE];
      var next: nat := 0;
      assert EncodeAll(other[..0]) == [];
      while next != |other|
        invariant next <= |other| && contents == old(contents) + EncodeAll(other[..next])
        decreases |other| - next
      {
        ghost var from := next;
        var end, ok;
        next, end, ok := DecodePartToBytes(other, next, buffer, 0);
        contents := contents + buffer[..end];
        Joined(other, from, next);
      }
      assert other[..next] == other;
    }

    // append_convert of bytes to a string of UTF-32, malformed bytes included.
    method AppendBytes(other: seq<int>)
      requires Bytes(other)
      modifies this
      ensures contents == old(contents) + DecodeAll(other)
    {
      var buffer := new int[BUFFER_SIZE];
      var next: nat := 0;
      assert other[0..] == other;
      while next != |other|
        invariant next <= |other| && contents + DecodeAll(other[next..]) == old(contents) + DecodeAll(other)
        decreases |other| - next
      {
        ghost var before := contents;
        var part;
        next, part := NextUnits(other, next, buffer);
        ConcatAssociative(before, part, DecodeAll(other[next..]));
        contents := contents + part;
      }
      assert other[next..] == [];
    }
  }

  // One chunk read through the buffer.
  method NextUnits(other: seq<int>, from: nat, buffer: array<int>) returns (next: nat, part: seq<int>)
    requires Bytes(other) && from < |other| && buffer.Length > 0
    modifies buffer
    ensures from < next <= |other| && part + DecodeAll(other[next..]) == DecodeAll(other[from..])
  {
    var end, ok;
    next, end, ok := DecodePartToUnits(other, from, buffer, 0);
    part := buffer[..end];
  }

  lemma Joined(s: seq<int>, from: nat, next: nat)
    requires Units(s) && from <= next <= |s|
    ensures EncodeAll(s[..next]) == EncodeAll(s[..from]) + EncodeAll(s[from..next])
  {
    EncodeAllConcat(s[..from], s[from..next]);
    assert s[..next] == s[..from] + s[from..next];
  }

  lemma {:induction false} EncodeAllBytes(s: seq<int>)
    requires Units(s)
    ensures Bytes(EncodeAll(s))
  {
    if s != [] {
      EncodeAllBytes(s[1..]);
      EncodeBytes(s[0]);
    }
  }

  lemma EncodeBytes(c: nat)
    requires c < 0x1_0000_0000
    ensures Bytes(Encode(c))
  {
  }

  // The round trip through both conversions, on texts of any length.
  method ThereAndBack(units: seq<int>) returns (back: seq<int>)
    requires Units(units)
    ensures back == units <==> Unicode(units)
  {
    var bytes := new Text();
    bytes.AppendUnits(units);
    var text := new Text();
    EncodeAllBytes(units);
    assert bytes.contents == EncodeAll(units);
    text.AppendBytes(bytes.contents);
    back := text.contents;
    RoundTrip(units);
  }
}
