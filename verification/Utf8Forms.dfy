// The forms of UTF-8 byte by byte (section 3 of RFC 3629), which bytes the reader
// takes for a unit, and how it goes on after bytes it does not take.
module Utf8Forms {
  import opened Sequences
  import opened Utf8

  // ---- what is written ----

  // A byte that continues a form carries six bits.
  ghost predicate Carries(b: int, bits: int) {
    0x80 <= b <= 0xBF && b == 0x80 + bits
  }

  ghost predicate TwoBytes(c: nat, e: seq<int>) {
    && |e| == 2 && 0xC2 <= e[0] <= 0xDF && 0x80 <= e[1] <= 0xBF
    && c == (e[0] - 0xC0) * 0x40 + (e[1] - 0x80)
  }

  ghost predicate ThreeBytes(c: nat, e: seq<int>) {
    && |e| == 3 && 0xE0 <= e[0] <= 0xEF && 0x80 <= e[1] <= 0xBF && 0x80 <= e[2] <= 0xBF
    && c == (e[0] - 0xE0) * 0x1000 + (e[1] - 0x80) * 0x40 + (e[2] - 0x80)
  }

  ghost predicate FourBytes(c: nat, e: seq<int>) {
    && |e| == 4 && 0xF0 <= e[0] <= 0xF7
    && 0x80 <= e[1] <= 0xBF && 0x80 <= e[2] <= 0xBF && 0x80 <= e[3] <= 0xBF
    && c == (e[0] - 0xF0) * 0x4_0000 + (e[1] - 0x80) * 0x1000 + (e[2] - 0x80) * 0x40 + (e[3] - 0x80)
  }

  // The bytes of a unit: the ranges and the sums determine each of them.
  lemma EncodeForms(c: nat)
    requires c <= 0x1F_FFFF
    ensures c <= 0x7F ==> Encode(c) == [c]
    ensures 0x80 <= c <= 0x7FF ==> TwoBytes(c, Encode(c))
    ensures 0x800 <= c <= 0xFFFF ==> ThreeBytes(c, Encode(c))
    ensures 0x1_0000 <= c ==> FourBytes(c, Encode(c))
  {
    Grouped(c);
    ShiftTwice(c);
  }

  // The examples of section 7 of RFC 3629.
  lemma Examples()
    ensures Encode(0x41) == [0x41] && Encode(0x2262) == [0xE2, 0x89, 0xA2] && Encode(0x391) == [0xCE, 0x91]
    ensures Encode(0xD55C) == [0xED, 0x95, 0x9C] && Encode(0x65E5) == [0xE6, 0x97, 0xA5]
    ensures Encode(0x2_33B4) == [0xF0, 0xA3, 0x8E, 0xB4]
  {
  }

  // Beyond Unicode: the second byte of the five-byte form is masked with seven
  // bits, not six, so that it is right exactly if bit 24 of the unit is not set.
  lemma FiveBytesExact(c: nat)
    requires 0x20_0000 <= c <= 0x3FF_FFFF
    ensures var e := Encode(c);
      && |e| == 5 && e[0] == 0xF8 + c / 0x100_0000 && Carries(e[2], (c / 0x1000) % 0x40)
      && Carries(e[3], (c / 0x40) % 0x40) && Carries(e[4], c % 0x40)
      && (Carries(e[1], (c / 0x4_0000) % 0x40) <==> (c / 0x100_0000) % 2 == 0)
  {
    SevenBits(c / 0x4_0000);
    assert (c / 0x4_0000) / 0x40 == c / 0x100_0000;
  }

  lemma SevenBits(x: nat)
    ensures x % 0x80 == x % 0x40 + 0x40 * ((x / 0x40) % 2)
  {
  }

  lemma SixBytes(c: nat)
    requires 0x400_0000 <= c <= 0x7FFF_FFFF
    ensures var e := Encode(c);
      && |e| == 6 && e[0] == 0xFC + c / 0x4000_0000
      && Carries(e[1], (c / 0x100_0000) % 0x40) && Carries(e[2], (c / 0x4_0000) % 0x40)
      && Carries(e[3], (c / 0x1000) % 0x40) && Carries(e[4], (c / 0x40) % 0x40) && Carries(e[5], c % 0x40)
  {
  }

  // From 0x80000000 on a single byte 1 stands for the unit.
  lemma NoForm(c: nat)
    requires c >= 0x8000_0000
    ensures Encode(c) == [1]
  {
  }

  // ---- what is read ----

  // The front of s is the form of a unit of Unicode.
  ghost predicate StartsWithUnit(s: seq<int>, c: nat) {
    c <= 0x10_FFFF && Encode(c) <= s
  }

  // Below 0xF0 exactly the forms are taken; anything else is one bad byte.
  lemma ReadExact(s: seq<int>)
    requires s != [] && Bytes(s) && s[0] < 0xF0
    ensures forall c: nat :: StartsWithUnit(s, c) ==> Decode(s) == Reading(true, c, |Encode(c)|)
    ensures (forall c: nat :: !StartsWithUnit(s, c)) ==> Decode(s) == Reading(false, 0xFFFF, 1)
  {
    forall c: nat | StartsWithUnit(s, c) ensures Decode(s) == Reading(true, c, |Encode(c)|) {
      DecodeEncode(c, s[|Encode(c)|..]);
      assert s == Encode(c) + s[|Encode(c)|..];
    }
    if Decode(s).ok {
      DecodeExact(s);
      assert StartsWithUnit(s, Decode(s).unit);
    }
  }

  // The front of s is the form of a unit from 0x10000 on, but for the top bits of
  // its fourth byte.
  ghost predicate StartsWithFour(s: seq<int>, c: nat) {
    && 0x1_0000 <= c <= 0x10_FFFF && |s| >= 4 && |Encode(c)| == 4
    && s[..3] == Encode(c)[..3] && s[3] % 0x40 == c % 0x40
  }

  // So are the forms of four bytes.
  lemma ReadFourExact(s: seq<int>)
    requires s != [] && Bytes(s) && 0xF0 <= s[0] < 0xF8
    ensures forall c: nat :: StartsWithFour(s, c) ==> Decode(s) == Reading(true, c, 4)
    ensures (forall c: nat :: !StartsWithFour(s, c)) ==> Decode(s) == Reading(false, 0xFFFF, 1)
  {
    forall c: nat | StartsWithFour(s, c) ensures Decode(s) == Reading(true, c, 4) {
      assert s[0] == s[..3][0] && s[1] == s[..3][1] && s[2] == s[..3][2];
      FourRead(s, c);
    }
    if Decode(s).ok {
      var c := Decode(s).unit;
      DecodeExact(s);
      FourWritten(s, c);
      assert StartsWithFour(s, c);
    }
  }

  lemma FourRead(s: seq<int>, c: nat)
    requires |s| >= 4 && Bytes(s) && 0x1_0000 <= c <= 0x10_FFFF && s[3] % 0x40 == c % 0x40
    requires s[0] == 0xF0 + c / 0x4_0000 && s[1] == Tail(c / 0x1000) && s[2] == Tail(c / 0x40)
    ensures Decode(s) == Reading(true, c, 4)
  {
    TailBits(c / 0x40);
    TailBits(c / 0x1000);
    Grouped(c);
    assert s[0] % 0x8 == c / 0x4_0000;
  }

  lemma FourWritten(s: seq<int>, c: nat)
    requires |s| >= 4 && Bytes(s) && 0xF0 <= s[0] < 0xF8 && Decode(s) == Reading(true, c, 4)
    ensures |Encode(c)| == 4 && s[..3] == Encode(c)[..3] && s[3] % 0x40 == c % 0x40
  {
    Groups(s[0] % 0x8, s[1] % 0x40, s[2] % 0x40, s[3] % 0x40, c);
    TailOf(c / 0x1000, s[1]);
    TailOf(c / 0x40, s[2]);
    assert c / 0x4_0000 == s[0] - 0xF0;
  }

  // The two longer forms are stepped over, with 0xFFFF for the unit, where the
  // source goes on far enough; two lead bytes are never good.
  lemma ReadLong(s: seq<int>)
    requires s != [] && Bytes(s) && s[0] >= 0xF8
    ensures s[0] <= 0xFB ==>
      Decode(s) == if |s| >= 4 then Reading(true, 0xFFFF, 4) else Reading(false, 0xFFFF, 1)
    ensures 0xFC <= s[0] <= 0xFD ==>
      Decode(s) == if |s| >= 5 then Reading(true, 0xFFFF, 5) else Reading(false, 0xFFFF, 1)
    ensures s[0] >= 0xFE ==> Decode(s) == Reading(false, 0xFFFF, 1)
  {
  }

  // ---- after a bad byte ----

  // Reading goes on after a text as if it stood alone.
  lemma {:induction false} ReadsOn(u: seq<int>, rest: seq<int>)
    requires Units(u) && Unicode(u)
    ensures DecodeAll(EncodeAll(u) + rest) == u + DecodeAll(rest)
  {
    if u == [] {
      assert EncodeAll(u) + rest == rest;
    } else {
      var e, more := Encode(u[0]), EncodeAll(u[1..]) + rest;
      ConcatAssociative(e, EncodeAll(u[1..]), rest);
      DecodeEncode(u[0], more);
      assert (e + more)[|e|..] == more;
      ReadsOn(u[1..], rest);
      ConcatAssociative([u[0]], u[1..], DecodeAll(rest));
      assert u == [u[0]] + u[1..];
    }
  }

  // No form starts with a continuing byte.
  lemma FirstByte(t: seq<int>)
    requires Units(t) && Unicode(t) && t != []
    ensures EncodeAll(t) != [] && !IsTail(EncodeAll(t)[0])
  {
    EncodeForms(t[0]);
    assert EncodeAll(t)[0] == Encode(t[0])[0];
  }

  lemma BadRead(b: int, t: seq<int>)
    requires Units(t) && Unicode(t) && 0x80 <= b <= 0xFF && !(0xF8 <= b <= 0xFD)
    ensures Decode([b] + EncodeAll(t)) == Reading(false, 0xFFFF, 1)
  {
    if t != [] {
      FirstByte(t);
      assert ([b] + EncodeAll(t))[1] == EncodeAll(t)[0];
    }
  }

  // A byte that belongs to no form reads as one 0xFFFF wherever it stands, and the
  // text around it is not lost.
  lemma BadByte(u: seq<int>, b: int, t: seq<int>)
    requires Units(u) && Unicode(u) && Units(t) && Unicode(t) && 0x80 <= b <= 0xFF && !(0xF8 <= b <= 0xFD)
    ensures DecodeAll(EncodeAll(u) + ([b] + EncodeAll(t))) == u + ([0xFFFF] + t)
  {
    var s := [b] + EncodeAll(t);
    ReadsOn(u, s);
    BadRead(b, t);
    assert s[1..] == EncodeAll(t);
    RoundTrip(t);
  }

  // The lead bytes of the two longer forms take the text behind them along.
  lemma LongFormSwallows(b: int, t: seq<int>)
    requires Units(t) && Unicode(t) && 0xF8 <= b <= 0xFD
    ensures var n := if b <= 0xFB then 4 else 5;
      var bytes := EncodeAll(t);
      DecodeAll([b] + bytes) == [0xFFFF] + if |bytes| + 1 < n then t else DecodeAll(bytes[n - 1..])
  {
    var bytes := EncodeAll(t);
    var n := if b <= 0xFB then 4 else 5;
    var s := [b] + bytes;
    RoundTrip(t);
    assert s[1..] == bytes;
    assert |bytes| + 1 >= n ==> s[n..] == bytes[n - 1..];
  }

  // The bytes of a Latin-1 text whose third letter is e with an acute accent.
  lemma BadByteAt()
    ensures DecodeAll([0x63, 0xE9, 0x61, 0x62]) == [0x63, 0xFFFF, 0x61, 0x62]
  {
    var u, t := [0x63], [0x61, 0x62];
    Ascii(u);
    Ascii(t);
    BadByte(u, 0xE9, t);
    assert u + ([0xE9] + t) == [0x63, 0xE9, 0x61, 0x62];
    assert u + ([0xFFFF] + t) == [0x63, 0xFFFF, 0x61, 0x62];
  }

  lemma {:induction false} Ascii(t: seq<int>)
    requires forall i :: 0 <= i < |t| ==> 0 <= t[i] < 0x80
    ensures Units(t) && EncodeAll(t) == t
  {
    if t != [] {
      Ascii(t[1..]);
      assert t == [t[0]] + t[1..];
    }
  }
}
