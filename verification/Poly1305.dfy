/** The Poly1305 authenticator in five 26-bit limbs, against arithmetic modulo 2^130 - 5
    as in section 2.5 of RFC 7539. Every shift, mask and truncation of the C code is written out. */
module Poly1305 {
  import opened Words

  const P: nat := 0x3_ffff_ffff_ffff_ffff_ffff_ffff_ffff_fffb
  const CLAMP: nat := 0x0fff_fffc_0fff_fffc_0fff_fffc_0fff_ffff
  const B1: nat := 0x400_0000
  const B2: nat := 0x10_0000_0000_0000
  const B3: nat := 0x4000_0000_0000_0000_0000
  const B4: nat := 0x100_0000_0000_0000_0000_0000_0000
  const TWO128: nat := 0x1_0000_0000_0000_0000_0000_0000_0000_0000

  // ----- The authenticator on integers -----

  function Min(a: nat, b: nat): nat {
    if a < b then a else b
  }

  /** A block as a number, with one extra bit above its last byte. */
  function BlockNumber(block: seq<Byte>): nat {
    LE(block) + Pow256(|block|)
  }

  /** The accumulator after all blocks of data. */
  function Absorb(acc: nat, r: nat, data: seq<Byte>): nat
    decreases |data|
  {
    if data == [] then acc
    else
      var n := Min(16, |data|);
      Absorb(((acc + BlockNumber(data[..n])) * r) % P, r, data[n..])
  }

  function ClampedR(key: seq<Byte>): nat
    requires |key| == 32
  {
    And(LE(key[..16]), CLAMP)
  }

  function Tag(acc: nat, key: seq<Byte>): nat
    requires |key| == 32
  {
    (acc % P + LE(key[16..])) % TWO128
  }

  /** Feeding data in pieces is the same as feeding it whole, when every piece but the last
      is a multiple of 16 bytes. */
  lemma {:induction false} AbsorbInPieces(acc: nat, r: nat, front: seq<Byte>, back: seq<Byte>)
    requires |front| % 16 == 0
    ensures Absorb(acc, r, front + back) == Absorb(Absorb(acc, r, front), r, back)
    decreases |front|
  {
    hide Absorb;
    if front == [] {
      assert front + back == back;
      AbsorbNothing(acc, r, front);
    } else {
      assert (front + back)[..16] == front[..16];
      assert (front + back)[16..] == front[16..] + back;
      AbsorbFull(acc, r, front);
      AbsorbFull(acc, r, front + back);
      AbsorbInPieces(Absorb(acc, r, front[..16]), r, front[16..], back);
    }
  }

  lemma AbsorbFull(acc: nat, r: nat, data: seq<Byte>)
    requires |data| >= 16
    ensures Absorb(acc, r, data) == Absorb(Absorb(acc, r, data[..16]), r, data[16..])
  {
    var block := data[..16];
    assert block[..16] == block && block[16..] == [];
  }

  // ----- Limbs -----

  function Value(h0: nat, h1: nat, h2: nat, h3: nat, h4: nat): nat {
    h0 + B1 * h1 + B2 * h2 + B3 * h3 + B4 * h4
  }

  function LimbValue(h: seq<Word>): nat
    requires |h| == 5
  {
    Value(h[0], h[1], h[2], h[3], h[4])
  }

  /** What holds of the limbs between two calls: all below 2^26, except h[1] below 2^26 + 64. */
  predicate Carried(h: seq<Word>) {
    |h| == 5 && h[0] < B1 && h[1] < B1 + 64 && h[2] < B1 && h[3] < B1 && h[4] < B1
  }

  lemma Shl(x: Word, shift: nat, rest: nat)
    requires shift > 0 && rest > 0 && shift * rest == 0x1_0000_0000
    ensures U32(x * shift) == shift * (x % rest)
  {
    var q, r := x / rest, x % rest;
    calc {
      x * shift;
      (rest * q + r) * shift;
      0x1_0000_0000 * q + shift * r;
    }
    ScaledBelow(shift, r, rest);
    DivModUnique(x * shift, 0x1_0000_0000, q, shift * r);
  }

  lemma ScaledBelow(k: nat, x: nat, y: nat)
    requires k > 0 && x < y
    ensures k * x < k * y
  {
  }

  lemma Or26(lo: Word, hi: Word)
    ensures Or(lo / 0x400_0000, U32(hi * 0x40)) == lo / 0x400_0000 + 0x40 * (hi % 0x400_0000)
  {
    Shl(hi, 0x40, 0x400_0000);
    Pow2Values();
    OrDisjoint(lo / 0x400_0000, hi % 0x400_0000, 6);
  }

  lemma Or20(lo: Word, hi: Word)
    ensures Or(lo / 0x10_0000, U32(hi * 0x1000)) == lo / 0x10_0000 + 0x1000 * (hi % 0x10_0000)
  {
    Shl(hi, 0x1000, 0x10_0000);
    Pow2Values();
    OrDisjoint(lo / 0x10_0000, hi % 0x10_0000, 12);
  }

  lemma Or14(lo: Word, hi: Word)
    ensures Or(lo / 0x4000, U32(hi * 0x4_0000)) == lo / 0x4000 + 0x4_0000 * (hi % 0x4000)
  {
    Shl(hi, 0x4_0000, 0x4000);
    Pow2Values();
    OrDisjoint(lo / 0x4000, hi % 0x4000, 18);
  }

  lemma Mask26(x: nat)
    ensures And(x, 0x3ff_ffff) == x % 0x400_0000
  {
    Pow2Values();
    AndOnes(x % 0x400_0000, x / 0x400_0000, 26);
  }

  lemma MaskLow26(x: nat, mask: nat)
    requires mask < 0x400_0000
    ensures And(x, mask) == And(x % 0x400_0000, mask)
  {
    Pow2Values();
    AndJoin(x % 0x400_0000, x / 0x400_0000, mask, 0, 26);
  }

  lemma {:induction false} AndAtMost(a: nat, b: nat)
    ensures And(a, b) <= b
  {
    if a > 0 && b > 0 {
      AndAtMost(a / 2, b / 2);
    }
  }

  lemma Join26(lo: Word, hi: Word)
    ensures (lo / 0x400_0000 + 0x40 * (hi % 0x400_0000)) % 0x400_0000 == lo / 0x400_0000 + 0x40 * (hi % 0x10_0000)
  {
  }

  lemma Join20(lo: Word, hi: Word)
    ensures (lo / 0x10_0000 + 0x1000 * (hi % 0x10_0000)) % 0x400_0000 == lo / 0x10_0000 + 0x1000 * (hi % 0x4000)
  {
  }

  lemma Join14(lo: Word, hi: Word)
    ensures (lo / 0x4000 + 0x4_0000 * (hi % 0x4000)) % 0x400_0000 == lo / 0x4000 + 0x4_0000 * (hi % 0x100)
  {
  }

  /** The five 26-bit digits of the 128-bit number held in four words. */
  lemma DigitsOfWords(t0: Word, t1: Word, t2: Word, t3: Word)
    ensures t0 + 0x1_0000_0000 * t1 + 0x1_0000_0000_0000_0000 * t2 + 0x1_0000_0000_0000_0000_0000_0000 * t3
         == Value(t0 % 0x400_0000, t0 / 0x400_0000 + 0x40 * (t1 % 0x10_0000), t1 / 0x10_0000 + 0x1000 * (t2 % 0x4000),
                  t2 / 0x4000 + 0x4_0000 * (t3 % 0x100), t3 / 0x100)
  {
  }

  lemma MaskDigit(x: nat, rest: nat, mask: nat, maskRest: nat)
    requires x < B1 && mask < B1
    ensures And(x + B1 * rest, mask + B1 * maskRest) == And(x, mask) + B1 * And(rest, maskRest)
  {
    Pow2Values();
    AndJoin(x, rest, mask, maskRest, 26);
  }

  /** Masking five digits one by one is masking the number they stand for. */
  lemma MaskDigits(x0: nat, x1: nat, x2: nat, x3: nat, x4: nat, m0: nat, m1: nat, m2: nat, m3: nat, m4: nat)
    requires x0 < B1 && x1 < B1 && x2 < B1 && x3 < B1
    requires m0 < B1 && m1 < B1 && m2 < B1 && m3 < B1
    ensures And(Value(x0, x1, x2, x3, x4), Value(m0, m1, m2, m3, m4))
         == Value(And(x0, m0), And(x1, m1), And(x2, m2), And(x3, m3), And(x4, m4))
  {
    hide And;
    var y3, n3 := x3 + B1 * x4, m3 + B1 * m4;
    var y2, n2 := x2 + B1 * y3, m2 + B1 * n3;
    var y1, n1 := x1 + B1 * y2, m1 + B1 * n2;
    assert And(y3, n3) == And(x3, m3) + B1 * And(x4, m4) by { MaskDigit(x3, x4, m3, m4); }
    assert And(y2, n2) == And(x2, m2) + B1 * And(y3, n3) by { MaskDigit(x2, y3, m2, n3); }
    assert And(y1, n1) == And(x1, m1) + B1 * And(y2, n2) by { MaskDigit(x1, y2, m1, n2); }
    MaskDigit(x0, y1, m0, n1);
    assert Value(x0, x1, x2, x3, x4) == x0 + B1 * y1;
    assert Value(m0, m1, m2, m3, m4) == m0 + B1 * n1;
  }

  // ----- One multiplication and partial reduction -----

  lemma ProductAtMost(x: nat, y: nat, bx: nat, by_: nat)
    requires x <= bx && y <= by_
    ensures 0 <= x * y <= bx * by_
  {
  }

  /** One limb of h times the five limbs of r. */
  datatype Row = Row(c0: nat, c1: nat, c2: nat, c3: nat, c4: nat)

  /** A product as an opaque term: what it is only matters where it is distributed or bounded. */
  function Times(x: nat, y: nat): nat {
    x * y
  }

  function Scale(x: nat, r0: nat, r1: nat, r2: nat, r3: nat, r4: nat): Row {
    Row(Times(x, r0), Times(x, r1), Times(x, r2), Times(x, r3), Times(x, r4))
  }

  function RowValue(p: Row): nat {
    Value(p.c0, p.c1, p.c2, p.c3, p.c4)
  }

  lemma ScaleValue(x: nat, r0: nat, r1: nat, r2: nat, r3: nat, r4: nat)
    ensures RowValue(Scale(x, r0, r1, r2, r3, r4)) == x * Value(r0, r1, r2, r3, r4)
  {
  }

  lemma SumTimes(h0: nat, h1: nat, h2: nat, h3: nat, h4: nat, r: nat)
    ensures Value(h0 * r, h1 * r, h2 * r, h3 * r, h4 * r) == Value(h0, h1, h2, h3, h4) * r
  {
  }

  function Column0(p0: Row, p1: Row, p2: Row, p3: Row, p4: Row): nat {
    p0.c0 + p1.c4 * 5 + p2.c3 * 5 + p3.c2 * 5 + p4.c1 * 5
  }

  function Column1(p0: Row, p1: Row, p2: Row, p3: Row, p4: Row): nat {
    p0.c1 + p1.c0 + p2.c4 * 5 + p3.c3 * 5 + p4.c2 * 5
  }

  function Column2(p0: Row, p1: Row, p2: Row, p3: Row, p4: Row): nat {
    p0.c2 + p1.c1 + p2.c0 + p3.c4 * 5 + p4.c3 * 5
  }

  function Column3(p0: Row, p1: Row, p2: Row, p3: Row, p4: Row): nat {
    p0.c3 + p1.c2 + p2.c1 + p3.c0 + p4.c4 * 5
  }

  function Column4(p0: Row, p1: Row, p2: Row, p3: Row, p4: Row): nat {
    p0.c4 + p1.c3 + p2.c2 + p3.c1 + p4.c0
  }

  /** Columns at and above 2^130 folded in times 5 keep the value modulo P. */
  lemma FoldColumns(p0: Row, p1: Row, p2: Row, p3: Row, p4: Row) returns (k: nat)
    ensures Value(Column0(p0, p1, p2, p3, p4), Column1(p0, p1, p2, p3, p4), Column2(p0, p1, p2, p3, p4),
                  Column3(p0, p1, p2, p3, p4), Column4(p0, p1, p2, p3, p4)) + k * P
         == Value(RowValue(p0), RowValue(p1), RowValue(p2), RowValue(p3), RowValue(p4))
  {
    k := (p1.c4 + p2.c3 + p3.c2 + p4.c1) + B1 * (p2.c4 + p3.c3 + p4.c2) + B2 * (p3.c4 + p4.c3) + B3 * p4.c4;
  }

  /** h times r, column by column, modulo P. */
  lemma LimbProduct(h0: nat, h1: nat, h2: nat, h3: nat, h4: nat, r0: nat, r1: nat, r2: nat, r3: nat, r4: nat,
                    p0: Row, p1: Row, p2: Row, p3: Row, p4: Row)
    returns (k: nat)
    requires p0 == Scale(h0, r0, r1, r2, r3, r4) && p1 == Scale(h1, r0, r1, r2, r3, r4)
    requires p2 == Scale(h2, r0, r1, r2, r3, r4) && p3 == Scale(h3, r0, r1, r2, r3, r4)
    requires p4 == Scale(h4, r0, r1, r2, r3, r4)
    ensures Value(Column0(p0, p1, p2, p3, p4), Column1(p0, p1, p2, p3, p4), Column2(p0, p1, p2, p3, p4),
                  Column3(p0, p1, p2, p3, p4), Column4(p0, p1, p2, p3, p4)) + k * P
         == Value(h0, h1, h2, h3, h4) * Value(r0, r1, r2, r3, r4)
  {
    hide *;
    var r := Value(r0, r1, r2, r3, r4);
    k := FoldColumns(p0, p1, p2, p3, p4);
    ScaleValue(h0, r0, r1, r2, r3, r4);
    ScaleValue(h1, r0, r1, r2, r3, r4);
    ScaleValue(h2, r0, r1, r2, r3, r4);
    ScaleValue(h3, r0, r1, r2, r3, r4);
    ScaleValue(h4, r0, r1, r2, r3, r4);
    SumTimes(h0, h1, h2, h3, h4, r);
  }

  /** No column of a product of limbs in range comes near 64 bits. */
  lemma ColumnsFit(h0: nat, h1: nat, h2: nat, h3: nat, h4: nat, r0: nat, r1: nat, r2: nat, r3: nat, r4: nat,
                   p0: Row, p1: Row, p2: Row, p3: Row, p4: Row)
    requires h0 <= 0x800_0040 && h1 <= 0x800_0040 && h2 <= 0x800_0040 && h3 <= 0x800_0040 && h4 <= 0x800_0040
    requires r0 < B1 && r1 < B1 && r2 < B1 && r3 < B1 && r4 < B1
    requires p0 == Scale(h0, r0, r1, r2, r3, r4) && p1 == Scale(h1, r0, r1, r2, r3, r4)
    requires p2 == Scale(h2, r0, r1, r2, r3, r4) && p3 == Scale(h3, r0, r1, r2, r3, r4)
    requires p4 == Scale(h4, r0, r1, r2, r3, r4)
    ensures Column0(p0, p1, p2, p3, p4) < 0x300_0000_0000_0000 && Column1(p0, p1, p2, p3, p4) < 0x300_0000_0000_0000
    ensures Column2(p0, p1, p2, p3, p4) < 0x300_0000_0000_0000 && Column3(p0, p1, p2, p3, p4) < 0x300_0000_0000_0000
    ensures Column4(p0, p1, p2, p3, p4) < 0xb0_0000_0000_0000
  {
    hide Value;
    RowFits(h0, r0, r1, r2, r3, r4);
    RowFits(h1, r0, r1, r2, r3, r4);
    RowFits(h2, r0, r1, r2, r3, r4);
    RowFits(h3, r0, r1, r2, r3, r4);
    RowFits(h4, r0, r1, r2, r3, r4);
  }

  predicate RowBelow(p: Row, bound: nat) {
    p.c0 <= bound && p.c1 <= bound && p.c2 <= bound && p.c3 <= bound && p.c4 <= bound
  }

  lemma RowFits(x: nat, r0: nat, r1: nat, r2: nat, r3: nat, r4: nat)
    requires x <= 0x800_0040 && r0 < B1 && r1 < B1 && r2 < B1 && r3 < B1 && r4 < B1
    ensures RowBelow(Scale(x, r0, r1, r2, r3, r4), 0x20_0001_0000_0000)
  {
    ProductAtMost(x, r0, 0x800_0040, 0x3ff_ffff);
    ProductAtMost(x, r1, 0x800_0040, 0x3ff_ffff);
    ProductAtMost(x, r2, 0x800_0040, 0x3ff_ffff);
    ProductAtMost(x, r3, 0x800_0040, 0x3ff_ffff);
    ProductAtMost(x, r4, 0x800_0040, 0x3ff_ffff);
  }

  /** Carrying the columns down to limbs loses only a multiple of P. */
  lemma CarryValue(d0: nat, d1: nat, d2: nat, d3: nat, d4: nat, e1: nat, e2: nat, e3: nat, e4: nat, g: nat)
    requires e1 == d1 + d0 / B1 && e2 == d2 + e1 / B1 && e3 == d3 + e2 / B1 && e4 == d4 + e3 / B1
    requires g == d0 % B1 + (e4 / B1) * 5
    ensures Value(g % B1, e1 % B1 + g / B1, e2 % B1, e3 % B1, e4 % B1) + (e4 / B1) * P == Value(d0, d1, d2, d3, d4)
  {
  }

  /** The masked limbs of a 16-byte block are the digits of its little-endian value. */
  lemma BlockLimbs(x: seq<Byte>, t0: Word, t1: Word, t2: Word, t3: Word, x0: nat, x1: nat, x2: nat, x3: nat)
    requires |x| == 16
    requires t0 == Le32(x, 0) && t1 == Le32(x, 4) && t2 == Le32(x, 8) && t3 == Le32(x, 12)
    requires x0 == And(t0, 0x3ff_ffff)
    requires x1 == And(Or(t0 / 0x400_0000, U32(t1 as int * 0x40)), 0x3ff_ffff)
    requires x2 == And(Or(t1 / 0x10_0000, U32(t2 as int * 0x1000)), 0x3ff_ffff)
    requires x3 == And(Or(t2 / 0x4000, U32(t3 as int * 0x4_0000)), 0x3ff_ffff)
    ensures x0 < B1 && x1 < B1 && x2 < B1 && x3 < B1
    ensures Value(x0, x1, x2, x3, t3 / 0x100) == LE(x)
  {
    hide And, Or, LE, Le32, Value;
    LE16(x);
    Mask26(t0);
    Or26(t0, t1);
    Mask26(t0 / 0x400_0000 + 0x40 * (t1 % 0x400_0000));
    Join26(t0, t1);
    Or20(t1, t2);
    Mask26(t1 / 0x10_0000 + 0x1000 * (t2 % 0x10_0000));
    Join20(t1, t2);
    Or14(t2, t3);
    Mask26(t2 / 0x4000 + 0x4_0000 * (t3 % 0x4000));
    Join14(t2, t3);
    DigitsOfWords(t0, t1, t2, t3);
  }

  lemma OrHibit(top: nat, hibit: nat)
    requires top < 0x100_0000 && (hibit == 0 || hibit == 0x100_0000)
    ensures Or(top, hibit) == top + hibit
  {
    Pow2Values();
    OrDisjoint(top, hibit / 0x100_0000, 24);
  }

  /** Adding a multiple of P does not show modulo P. */
  lemma SameModP(a: nat, b: nat, k: nat)
    requires a + k * P == b
    ensures a % P == b % P
  {
    var q, r := a / P, a % P;
    assert b == P * (q + k) + r;
    DivModUnique(b, P, q + k, r);
  }

  lemma NoCut64(x: nat)
    requires x < 0x1_0000_0000_0000_0000
    ensures U64(x) == x
  {
  }

  lemma NoCut32(x: nat)
    requires x < 0x1_0000_0000
    ensures U32(x) == x
  {
  }

  lemma QuotientBelow(x: nat, bound: nat)
    requires x < 0x400_0000 * bound
    ensures x / 0x400_0000 < bound
  {
  }

  /** The carry chain, with every 64- and 32-bit truncation: none of them cuts anything off. */
  lemma CarryFits(d0: nat, d1: nat, d2: nat, d3: nat, d4: nat, e1: nat, e2: nat, e3: nat, e4: nat, g: nat)
    requires d0 < 0x300_0000_0000_0000 && d1 < 0x300_0000_0000_0000 && d2 < 0x300_0000_0000_0000
    requires d3 < 0x300_0000_0000_0000 && d4 < 0xb0_0000_0000_0000
    requires e1 == U64(d1 + U32(d0 / 0x400_0000)) && e2 == U64(d2 + U32(e1 / 0x400_0000))
    requires e3 == U64(d3 + U32(e2 / 0x400_0000)) && e4 == U64(d4 + U32(e3 / 0x400_0000))
    requires g == U32(d0 % 0x400_0000 + U32(U32(e4 / 0x400_0000) as int * 5))
    ensures e1 == d1 + d0 / B1 && e2 == d2 + e1 / B1 && e3 == d3 + e2 / B1 && e4 == d4 + e3 / B1
    ensures g == d0 % B1 + (e4 / B1) * 5 && g / B1 < 64
  {
    hide U32, U64;
    CarryStep(d0, d1);
    CarryStep(e1, d2);
    CarryStep(e2, d3);
    CarryStep(e3, d4);
    QuotientBelow(e4, 0x3000_0000);
    NoCut32(e4 / 0x400_0000);
    NoCut32(e4 / 0x400_0000 * 5);
    NoCut32(d0 % 0x400_0000 + e4 / 0x400_0000 * 5);
    QuotientBelow(g, 64);
  }

  lemma CarryStep(d: nat, next: nat)
    requires d < 0x400_0000_0000_0000 && next < 0x300_0000_0000_0000
    ensures U64(next + U32(d / 0x400_0000)) == next + d / B1 < next + 0x1_0000_0000
  {
    hide U32, U64;
    QuotientBelow(d, 0x1_0000_0000);
    NoCut32(d / 0x400_0000);
    NoCut64(next + d / 0x400_0000);
  }

  lemma TopBit(x0: nat, x1: nat, x2: nat, x3: nat, x4: nat, hibit: nat)
    ensures Value(x0, x1, x2, x3, x4 + hibit) == Value(x0, x1, x2, x3, x4) + B4 * hibit
  {
  }

  /** Adding the digits of a block, and the bit above them, to the limbs. */
  lemma AddLimbs(s0: nat, s1: nat, s2: nat, s3: nat, s4: nat, x0: nat, x1: nat, x2: nat, x3: nat, x4: nat)
    requires s0 < B1 && s1 < B1 + 64 && s2 < B1 && s3 < B1 && s4 < B1
    requires x0 < B1 && x1 < B1 && x2 < B1 && x3 < B1 && x4 < B1
    ensures U32(s0 + x0) == s0 + x0 && U32(s1 + x1) == s1 + x1 && U32(s2 + x2) == s2 + x2
    ensures U32(s3 + x3) == s3 + x3 && U32(s4 + x4) == s4 + x4
    ensures Value(s0 + x0, s1 + x1, s2 + x2, s3 + x3, s4 + x4)
         == Value(s0, s1, s2, s3, s4) + Value(x0, x1, x2, x3, x4)
  {
  }

  /** The five 64-bit sums are the product modulo P, and none of them is truncated. */
  lemma ColumnsAreProducts(h0: nat, h1: nat, h2: nat, h3: nat, h4: nat, r0: nat, r1: nat, r2: nat, r3: nat, r4: nat,
                           d0: nat, d1: nat, d2: nat, d3: nat, d4: nat)
    returns (k: nat)
    requires h0 <= 0x800_0040 && h1 <= 0x800_0040 && h2 <= 0x800_0040 && h3 <= 0x800_0040 && h4 <= 0x800_0040
    requires r0 < B1 && r1 < B1 && r2 < B1 && r3 < B1 && r4 < B1
    requires d0 == U64(Times(h0, r0) + Times(h1, r4) * 5 + Times(h2, r3) * 5 + Times(h3, r2) * 5 + Times(h4, r1) * 5)
    requires d1 == U64(Times(h0, r1) + Times(h1, r0) + Times(h2, r4) * 5 + Times(h3, r3) * 5 + Times(h4, r2) * 5)
    requires d2 == U64(Times(h0, r2) + Times(h1, r1) + Times(h2, r0) + Times(h3, r4) * 5 + Times(h4, r3) * 5)
    requires d3 == U64(Times(h0, r3) + Times(h1, r2) + Times(h2, r1) + Times(h3, r0) + Times(h4, r4) * 5)
    requires d4 == U64(Times(h0, r4) + Times(h1, r3) + Times(h2, r2) + Times(h3, r1) + Times(h4, r0))
    ensures Value(d0, d1, d2, d3, d4) + k * P == Value(h0, h1, h2, h3, h4) * Value(r0, r1, r2, r3, r4)
    ensures d0 < 0x300_0000_0000_0000 && d1 < 0x300_0000_0000_0000 && d2 < 0x300_0000_0000_0000
    ensures d3 < 0x300_0000_0000_0000 && d4 < 0xb0_0000_0000_0000
  {
    hide Value, U64, Times;
    var p0, p1 := Scale(h0, r0, r1, r2, r3, r4), Scale(h1, r0, r1, r2, r3, r4);
    var p2, p3 := Scale(h2, r0, r1, r2, r3, r4), Scale(h3, r0, r1, r2, r3, r4);
    var p4 := Scale(h4, r0, r1, r2, r3, r4);
    ColumnsFit(h0, h1, h2, h3, h4, r0, r1, r2, r3, r4, p0, p1, p2, p3, p4);
    NoCut64(Column0(p0, p1, p2, p3, p4));
    NoCut64(Column1(p0, p1, p2, p3, p4));
    NoCut64(Column2(p0, p1, p2, p3, p4));
    NoCut64(Column3(p0, p1, p2, p3, p4));
    NoCut64(Column4(p0, p1, p2, p3, p4));
    k := LimbProduct(h0, h1, h2, h3, h4, r0, r1, r2, r3, r4, p0, p1, p2, p3, p4);
  }

  /** One 16-byte block: h := (h + x) * r, partially reduced. */
  method AbsorbBlock(h: array<Word>, r0: Word, r1: Word, r2: Word, r3: Word, r4: Word, x: seq<Byte>, hibit: Word)
    requires Carried(h[..])
    requires r0 < B1 && r1 < B1 && r2 < B1 && r3 < B1 && r4 < B1
    requires |x| == 16 && (hibit == 0 || hibit == 0x100_0000)
    modifies h
    ensures Carried(h[..])
    ensures LimbValue(h[..]) % P
         == ((LimbValue(old(h[..])) + LE(x) + B4 * hibit) * Value(r0, r1, r2, r3, r4)) % P
  {
    hide And, Or, LE, Le32, Value, U32, U64, Times;
    // h += x
    var t0: nat, t1: nat, t2: nat, t3: nat := Le32(x, 0), Le32(x, 4), Le32(x, 8), Le32(x, 12);
    var x0, x1 := And(t0, 0x3ff_ffff), And(Or(t0 / 0x400_0000, U32(t1 * 0x40)), 0x3ff_ffff);
    var x2 := And(Or(t1 / 0x10_0000, U32(t2 * 0x1000)), 0x3ff_ffff);
    var x3, x4 := And(Or(t2 / 0x4000, U32(t3 * 0x4_0000)), 0x3ff_ffff), Or(t3 / 0x100, hibit);
    BlockLimbs(x, t0, t1, t2, t3, x0, x1, x2, x3);
    OrHibit(t3 / 0x100, hibit);
    var s0: nat, s1: nat, s2: nat, s3: nat, s4: nat := h[0], h[1], h[2], h[3], h[4];
    AddLimbs(s0, s1, s2, s3, s4, x0, x1, x2, x3, x4);
    var a0: nat, a1: nat, a2: nat := U32(s0 + x0), U32(s1 + x1), U32(s2 + x2);
    var a3: nat, a4: nat := U32(s3 + x3), U32(s4 + x4);
    assert Value(a0, a1, a2, a3, a4) == Value(s0, s1, s2, s3, s4) + LE(x) + B4 * hibit by {
      TopBit(x0, x1, x2, x3, t3 / 0x100, hibit);
    }

    // h *= r
    var d0 := U64(Times(a0, r0) + Times(a1, r4) * 5 + Times(a2, r3) * 5 + Times(a3, r2) * 5 + Times(a4, r1) * 5);
    var d1 := U64(Times(a0, r1) + Times(a1, r0) + Times(a2, r4) * 5 + Times(a3, r3) * 5 + Times(a4, r2) * 5);
    var d2 := U64(Times(a0, r2) + Times(a1, r1) + Times(a2, r0) + Times(a3, r4) * 5 + Times(a4, r3) * 5);
    var d3 := U64(Times(a0, r3) + Times(a1, r2) + Times(a2, r1) + Times(a3, r0) + Times(a4, r4) * 5);
    var d4 := U64(Times(a0, r4) + Times(a1, r3) + Times(a2, r2) + Times(a3, r1) + Times(a4, r0));
    ghost var k := ColumnsAreProducts(a0, a1, a2, a3, a4, r0, r1, r2, r3, r4, d0, d1, d2, d3, d4);

    // (partial) h %= p
    var e1 := U64(d1 + U32(d0 / 0x400_0000));
    var e2 := U64(d2 + U32(e1 / 0x400_0000));
    var e3 := U64(d3 + U32(e2 / 0x400_0000));
    var e4 := U64(d4 + U32(e3 / 0x400_0000));
    var c: nat := U32(e4 / 0x400_0000);
    var g: nat := U32(And(d0, 0x3ff_ffff) + U32(c * 5));
    Mask26(d0);
    Mask26(e1);
    Mask26(e2);
    Mask26(e3);
    Mask26(e4);
    Mask26(g);
    CarryFits(d0, d1, d2, d3, d4, e1, e2, e3, e4, g);
    CarryValue(d0, d1, d2, d3, d4, e1, e2, e3, e4, g);
    h[1] := And(e1, 0x3ff_ffff) + g / 0x400_0000;
    h[2], h[3], h[4] := And(e2, 0x3ff_ffff), And(e3, 0x3ff_ffff), And(e4, 0x3ff_ffff);
    h[0] := And(g, 0x3ff_ffff);
    SameModP(LimbValue(h[..]), Value(d0, d1, d2, d3, d4), e4 / B1);
    SameModP(Value(d0, d1, d2, d3, d4), Value(a0, a1, a2, a3, a4) * Value(r0, r1, r2, r3, r4), k);
  }

  // ----- The final reduction -----

  function FourWords(w0: nat, w1: nat, w2: nat, w3: nat): nat {
    w0 + 0x1_0000_0000 * w1 + 0x1_0000_0000_0000_0000 * w2 + 0x1_0000_0000_0000_0000_0000_0000 * w3
  }

  /** Fully carrying the limbs leaves digits below 2^26 and changes the value by a multiple of P. */
  lemma FullCarry(s0: nat, s1: nat, s2: nat, s3: nat, s4: nat, u2: nat, u3: nat, u4: nat, g: nat)
    requires s0 < B1 && s1 < B1 + 64 && s2 < B1 && s3 < B1 && s4 < B1
    requires u2 == s2 + s1 / B1 && u3 == s3 + u2 / B1 && u4 == s4 + u3 / B1 && g == s0 + (u4 / B1) * 5
    ensures g / B1 <= 1 && s1 % B1 + g / B1 < B1
    ensures Value(g % B1, s1 % B1 + g / B1, u2 % B1, u3 % B1, u4 % B1) + (u4 / B1) * P == Value(s0, s1, s2, s3, s4)
  {
    assert u4 / B1 <= 1;
    if u4 / B1 == 1 {
      assert u3 == B1 && u2 == B1;
      assert s1 % B1 < 64;
    } else {
      assert g == s0;
    }
  }

  /** Adding 5 and looking for the carry out of bit 130 decides whether the value is at least P. */
  lemma PlusFive(c0: nat, c1: nat, c2: nat, c3: nat, c4: nat, t0: nat, t1: nat, t2: nat, t3: nat, t4: nat)
    requires c0 < B1 && c1 < B1 && c2 < B1 && c3 < B1 && c4 < B1
    requires t0 == c0 + 5 && t1 == c1 + t0 / B1 && t2 == c2 + t1 / B1 && t3 == c3 + t2 / B1 && t4 == c4 + t3 / B1
    ensures t4 <= B1
    ensures t4 < B1 ==> Value(c0, c1, c2, c3, c4) < P
    ensures t4 == B1 ==> P <= Value(c0, c1, c2, c3, c4) < P + 5
    ensures t4 == B1 ==> Value(t0 % B1, t1 % B1, t2 % B1, t3 % B1, 0) == Value(c0, c1, c2, c3, c4) - P
  {
    assert Value(t0 % B1, t1 % B1, t2 % B1, t3 % B1, t4) == Value(c0, c1, c2, c3, c4) + 5;
  }

  /** Selecting by an all-ones or all-zero mask. */
  lemma Select(x: nat, y: nat, b: nat)
    requires x < 0x1_0000_0000 && y < 0x1_0000_0000 && (b == 0 || b == 0xffff_ffff)
    ensures Or(And(x, 0xffff_ffff - b), And(y, b)) == if b == 0 then x else y
  {
    Pow2Values();
    AndOnes(x, 0, 32);
    AndOnes(y, 0, 32);
  }

  /** Packing five 26-bit digits into four words keeps the low 128 bits. */
  lemma PackedValue(c0: nat, c1: nat, c2: nat, c3: nat, c4: nat)
    requires c0 < B1 && c1 < B1 && c2 < B1 && c3 < B1 && c4 < B1
    ensures FourWords(c0 + 0x400_0000 * (c1 % 0x40), c1 / 0x40 + 0x10_0000 * (c2 % 0x1000),
                      c2 / 0x1000 + 0x4000 * (c3 % 0x4_0000), c3 / 0x4_0000 + 0x100 * (c4 % 0x100_0000))
         + (c4 / 0x100_0000) * TWO128 == Value(c0, c1, c2, c3, c4)
  {
  }

  lemma PackWord(lo: nat, hi: Word, k: nat, shift: nat, rest: nat)
    requires lo < shift && shift == Pow2(k) && rest > 0 && shift * rest == 0x1_0000_0000
    ensures And(Or(lo, U32(hi * shift)), 0xffff_ffff) == lo + shift * (hi % rest) < 0x1_0000_0000
  {
    hide And, Or, U32, Pow2;
    Shl(hi, shift, rest);
    var r := hi % rest;
    assert Or(lo, shift * r) == lo + shift * r by { OrDisjoint(lo, r, k); }
    assert lo + shift * r < 0x1_0000_0000 by { JoinBelow(lo, shift, r, rest); }
    Pow2Values();
    AndOnes(lo + shift * r, 0, 32);
  }

  lemma JoinBelow(lo: nat, shift: nat, hi: nat, rest: nat)
    requires lo < shift && hi < rest
    ensures lo + shift * hi < shift * rest
  {
    assert shift * (hi + 1) <= shift * rest;
  }

  lemma CutIs(d: nat)
    ensures U32(d) + 0x1_0000_0000 * (d / 0x1_0000_0000) == d && U32(d) < 0x1_0000_0000
  {
  }

  /** Adding two 128-bit numbers word by word, the carry running upwards. */
  lemma AddWords(w0: nat, w1: nat, w2: nat, w3: nat, x0: nat, x1: nat, x2: nat, x3: nat)
    requires w0 < 0x1_0000_0000 && w1 < 0x1_0000_0000 && w2 < 0x1_0000_0000 && w3 < 0x1_0000_0000
    requires x0 < 0x1_0000_0000 && x1 < 0x1_0000_0000 && x2 < 0x1_0000_0000 && x3 < 0x1_0000_0000
    ensures var d0 := U64(w0 + x0);
            var d1 := U64(w1 + x1 + d0 / 0x1_0000_0000);
            var d2 := U64(w2 + x2 + d1 / 0x1_0000_0000);
            var d3 := U64(w3 + x3 + d2 / 0x1_0000_0000);
            FourWords(U32(d0), U32(d1), U32(d2), U32(d3))
            == (FourWords(w0, w1, w2, w3) + FourWords(x0, x1, x2, x3)) % TWO128
  {
    hide U32, U64, FourWords;
    var d0 := w0 + x0;
    var d1 := w1 + x1 + d0 / 0x1_0000_0000;
    var d2 := w2 + x2 + d1 / 0x1_0000_0000;
    var d3 := w3 + x3 + d2 / 0x1_0000_0000;
    NoCut64(d0);
    NoCut64(d1);
    NoCut64(d2);
    NoCut64(d3);
    CutIs(d0);
    CutIs(d1);
    CutIs(d2);
    CutIs(d3);
    CarriedSum(w0, w1, w2, w3, x0, x1, x2, x3, U32(d0), U32(d1), U32(d2), U32(d3),
               d0 / 0x1_0000_0000, d1 / 0x1_0000_0000, d2 / 0x1_0000_0000, d3 / 0x1_0000_0000);
    DivModUnique(FourWords(w0, w1, w2, w3) + FourWords(x0, x1, x2, x3), TWO128, d3 / 0x1_0000_0000,
                 FourWords(U32(d0), U32(d1), U32(d2), U32(d3)));
  }

  lemma CarriedSum(w0: nat, w1: nat, w2: nat, w3: nat, x0: nat, x1: nat, x2: nat, x3: nat,
                   r0: nat, r1: nat, r2: nat, r3: nat, q0: nat, q1: nat, q2: nat, q3: nat)
    requires w0 + x0 == r0 + 0x1_0000_0000 * q0 && w1 + x1 + q0 == r1 + 0x1_0000_0000 * q1
    requires w2 + x2 + q1 == r2 + 0x1_0000_0000 * q2 && w3 + x3 + q2 == r3 + 0x1_0000_0000 * q3
    requires r0 < 0x1_0000_0000 && r1 < 0x1_0000_0000 && r2 < 0x1_0000_0000 && r3 < 0x1_0000_0000
    ensures FourWords(w0, w1, w2, w3) + FourWords(x0, x1, x2, x3) == TWO128 * q3 + FourWords(r0, r1, r2, r3)
    ensures FourWords(r0, r1, r2, r3) < TWO128
  {
  }

  /** The number in four consecutive array cells. */
  function TagWords(h: seq<Word>): nat
    requires |h| == 5
  {
    FourWords(h[0], h[1], h[2], h[3])
  }

  lemma LimbsAre(h: seq<Word>)
    requires |h| == 5
    ensures LimbValue(h) == Value(h[0], h[1], h[2], h[3], h[4])
  {
  }

  /** Fully carries h. */
  method CarryFully(h: array<Word>)
    requires Carried(h[..])
    modifies h
    ensures forall i :: 0 <= i < 5 ==> h[i] < B1
    ensures LimbValue(h[..]) % P == LimbValue(old(h[..])) % P
  {
    hide And, U32, Value, LimbValue;
    ghost var was := h[..];
    var s0: nat, s1: nat, s2: nat, s3: nat, s4: nat := h[0], h[1], h[2], h[3], h[4];
    var u2: nat := U32(s2 + s1 / 0x400_0000);
    NoCut32(s2 + s1 / 0x400_0000);
    var u3: nat := U32(s3 + u2 / 0x400_0000);
    NoCut32(s3 + u2 / 0x400_0000);
    var u4: nat := U32(s4 + u3 / 0x400_0000);
    NoCut32(s4 + u3 / 0x400_0000);
    var g: nat := U32(s0 + (u4 / 0x400_0000) * 5);
    NoCut32(s0 + (u4 / 0x400_0000) * 5);
    var c1 := And(s1, 0x3ff_ffff);
    Mask26(s1);
    FullCarry(s0, s1, s2, s3, s4, u2, u3, u4, g);
    h[1] := U32(c1 + g / 0x400_0000);
    NoCut32(c1 + g / 0x400_0000);
    Mask26(u2);
    Mask26(u3);
    Mask26(u4);
    Mask26(g);
    h[2], h[3], h[4], h[0] := And(u2, 0x3ff_ffff), And(u3, 0x3ff_ffff), And(u4, 0x3ff_ffff), And(g, 0x3ff_ffff);
    LimbsAre(h[..]);
    LimbsAre(was);
    SameModP(LimbValue(h[..]), LimbValue(was), u4 / B1);
  }

  /** The five words of h + -p before the selection. */
  method MinusP(h: array<Word>) returns (t0: Word, t1: Word, t2: Word, t3: Word, t4: Word)
    requires h.Length == 5 && forall i :: 0 <= i < 5 ==> h[i] < B1
    ensures t4 >= 0x8000_0000 <==> LimbValue(h[..]) < P
    ensures LimbValue(h[..]) >= P ==> t0 < B1 && t1 < B1 && t2 < B1 && t3 < B1 && t4 == 0
    ensures LimbValue(h[..]) >= P ==> LimbValue(h[..]) < P + 5 && Value(t0, t1, t2, t3, t4) == LimbValue(h[..]) - P
  {
    hide And, U32, Value;
    var c0: nat, c1: nat, c2: nat, c3: nat, c4: nat := h[0], h[1], h[2], h[3], h[4];
    t0 := U32(c0 + 5);
    NoCut32(c0 + 5);
    t1 := U32(c1 + t0 / 0x400_0000);
    NoCut32(c1 + t0 / 0x400_0000);
    t2 := U32(c2 + t1 / 0x400_0000);
    NoCut32(c2 + t1 / 0x400_0000);
    t3 := U32(c3 + t2 / 0x400_0000);
    NoCut32(c3 + t2 / 0x400_0000);
    t4 := U32(c4 + t3 / 0x400_0000 + 0x1_0000_0000 - 0x400_0000);
    PlusFive(c0, c1, c2, c3, c4, t0, t1, t2, t3, c4 + t3 / B1);
    Borrow(c4 + t3 / B1);
    Mask26(t0);
    Mask26(t1);
    Mask26(t2);
    Mask26(t3);
    t0, t1, t2, t3 := And(t0, 0x3ff_ffff), And(t1, 0x3ff_ffff), And(t2, 0x3ff_ffff), And(t3, 0x3ff_ffff);
  }

  /** Fully carries h and subtracts P when h is at least P. */
  method Reduce(h: array<Word>)
    requires Carried(h[..])
    modifies h
    ensures forall i :: 0 <= i < 5 ==> h[i] < B1
    ensures LimbValue(h[..]) == LimbValue(old(h[..])) % P
  {
    hide And, Or, U32, Value;
    CarryFully(h);
    var t0: nat, t1: nat, t2: nat, t3: nat, t4: nat := MinusP(h);
    ghost var c := LimbValue(h[..]);
    // select h if h < p, or h + -p if h >= p
    var b: nat := U32(t4 / 0x8000_0000 + 0xffff_ffff);
    SelectionMask(t4);
    var notB := 0xffff_ffff - b;
    Select(h[0], t0, b);
    Select(h[1], t1, b);
    Select(h[2], t2, b);
    Select(h[3], t3, b);
    Select(h[4], t4, b);
    h[0], h[1] := Or(And(h[0], notB), And(t0, b)), Or(And(h[1], notB), And(t1, b));
    h[2], h[3] := Or(And(h[2], notB), And(t2, b)), Or(And(h[3], notB), And(t3, b));
    h[4] := Or(And(h[4], notB), And(t4, b));
    CanonicalModP(c, LimbValue(h[..]));
  }

  lemma SelectionMask(t4: Word)
    ensures U32(t4 / 0x8000_0000 + 0xffff_ffff) == if t4 >= 0x8000_0000 then 0 else 0xffff_ffff
  {
  }

  /** The sign bit of h + -p. */
  lemma Borrow(top: nat)
    requires top <= B1
    ensures var t4 := U32(top + 0x1_0000_0000 - 0x400_0000);
            if top < B1 then t4 >= 0x8000_0000 else t4 == 0
  {
  }

  lemma CanonicalModP(c: nat, h: nat)
    requires if c < P then h == c else c < P + 5 && h == c - P
    ensures h == c % P
  {
    if c < P {
      DivModUnique(c, P, 0, c);
    } else {
      DivModUnique(c, P, 1, c - P);
    }
  }

  /** h modulo 2^128 as four words. */
  method Pack(h: array<Word>)
    requires h.Length == 5 && forall i :: 0 <= i < 5 ==> h[i] < B1
    modifies h
    ensures exists k: nat :: TagWords(h[..]) + k * TWO128 == LimbValue(old(h[..]))
  {
    hide And, Or, U32, FourWords, Value;
    var c0: nat, c1: nat, c2: nat, c3: nat, c4: nat := h[0], h[1], h[2], h[3], h[4];
    Pow2Values();
    PackWord(c0, c1, 26, 0x400_0000, 0x40);
    h[0] := And(Or(c0, U32(c1 * 0x400_0000)), 0xffff_ffff);
    PackWord(c1 / 0x40, c2, 20, 0x10_0000, 0x1000);
    h[1] := And(Or(c1 / 0x40, U32(c2 * 0x10_0000)), 0xffff_ffff);
    PackWord(c2 / 0x1000, c3, 14, 0x4000, 0x4_0000);
    h[2] := And(Or(c2 / 0x1000, U32(c3 * 0x4000)), 0xffff_ffff);
    PackWord(c3 / 0x4_0000, c4, 8, 0x100, 0x100_0000);
    h[3] := And(Or(c3 / 0x4_0000, U32(c4 * 0x100)), 0xffff_ffff);
    PackedValue(c0, c1, c2, c3, c4);
    assert TagWords(h[..]) + (c4 / 0x100_0000) * TWO128 == LimbValue(old(h[..]));
  }

  /** mac = (h + pad) % (2^128), the pad being the second half of the key. */
  method AddPad(h: array<Word>, key: seq<Byte>)
    requires h.Length == 5 && |key| == 32
    modifies h
    ensures TagWords(h[..]) == (TagWords(old(h[..])) + LE(key[16..])) % TWO128
  {
    hide U32, U64, FourWords, LE;
    var w0: nat, w1: nat, w2: nat, w3: nat := h[0], h[1], h[2], h[3];
    var x0: nat, x1: nat, x2: nat, x3: nat := Le32(key, 16), Le32(key, 20), Le32(key, 24), Le32(key, 28);
    var d0 := U64(w0 + x0);
    var d1 := U64(w1 + x1 + d0 / 0x1_0000_0000);
    var d2 := U64(w2 + x2 + d1 / 0x1_0000_0000);
    var d3 := U64(w3 + x3 + d2 / 0x1_0000_0000);
    h[0], h[1], h[2], h[3] := U32(d0), U32(d1), U32(d2), U32(d3);
    AddWords(w0, w1, w2, w3, x0, x1, x2, x3);
    PadValue(key);
  }

  lemma PadValue(key: seq<Byte>)
    requires |key| == 32
    ensures LE(key[16..]) == FourWords(Le32(key, 16), Le32(key, 20), Le32(key, 24), Le32(key, 28))
  {
    LE16(key[16..]);
  }

  lemma ModPlus(a: nat, a': nat, k: nat, x: nat)
    requires a + k * TWO128 == a'
    ensures (a + x) % TWO128 == (a' + x) % TWO128
  {
    var q, r := (a + x) / TWO128, (a + x) % TWO128;
    assert a' + x == TWO128 * (q + k) + r;
    DivModUnique(a' + x, TWO128, q + k, r);
  }

  /** The whole final step. */
  method Finish(h: array<Word>, key: seq<Byte>)
    requires Carried(h[..]) && |key| == 32
    modifies h
    ensures TagWords(h[..]) == Tag(LimbValue(old(h[..])), key)
  {
    Reduce(h);
    ghost var v := LimbValue(h[..]);
    Pack(h);
    ghost var k: nat :| TagWords(h[..]) + k * TWO128 == v;
    ModPlus(TagWords(h[..]), v, k, LE(key[16..]));
    AddPad(h, key);
  }

  // ----- The whole function -----

  /** The masked key limbs stand for the clamped r. */
  lemma KeyLimbs(key: seq<Byte>, t0: Word, t1: Word, t2: Word, t3: Word)
    returns (y1: nat, y2: nat, y3: nat)
    requires |key| == 32
    requires t0 == Le32(key, 0) && t1 == Le32(key, 4) && t2 == Le32(key, 8) && t3 == Le32(key, 12)
    ensures y1 == Or(t0 / 0x400_0000, U32(t1 as int * 0x40)) && y2 == Or(t1 / 0x10_0000, U32(t2 as int * 0x1000))
    ensures y3 == Or(t2 / 0x4000, U32(t3 as int * 0x4_0000))
    ensures Value(And(t0, 0x3ff_ffff), And(y1, 0x3ff_ff03), And(y2, 0x3ff_c0ff), And(y3, 0x3f0_3fff),
                  And(t3 / 0x100, 0xf_ffff)) == ClampedR(key)
  {
    hide And, Or, LE, Value, Le32, U32;
    y1, y2 := Or(t0 / 0x400_0000, U32(t1 as int * 0x40)), Or(t1 / 0x10_0000, U32(t2 as int * 0x1000));
    y3 := Or(t2 / 0x4000, U32(t3 as int * 0x4_0000));
    var k := key[..16];
    assert LE(k) == t0 + 0x1_0000_0000 * t1 + 0x1_0000_0000_0000_0000 * t2
                    + 0x1_0000_0000_0000_0000_0000_0000 * t3 by { KeyWords(key); }
    Or26(t0, t1);
    Or20(t1, t2);
    Or14(t2, t3);
    Join26(t0, t1);
    Join20(t1, t2);
    Join14(t2, t3);
    MaskLow26(t0, 0x3ff_ffff);
    MaskLow26(y1, 0x3ff_ff03);
    MaskLow26(y2, 0x3ff_c0ff);
    MaskLow26(y3, 0x3f0_3fff);
    assert LE(k) == Value(t0 % 0x400_0000, y1 % 0x400_0000, y2 % 0x400_0000, y3 % 0x400_0000, t3 / 0x100) by {
      DigitsOfWords(t0, t1, t2, t3);
    }
    ClampDigits();
    MaskDigits(t0 % 0x400_0000, y1 % 0x400_0000, y2 % 0x400_0000, y3 % 0x400_0000, t3 / 0x100,
               0x3ff_ffff, 0x3ff_ff03, 0x3ff_c0ff, 0x3f0_3fff, 0xf_ffff);
  }

  lemma KeyWords(key: seq<Byte>)
    requires |key| == 32
    ensures LE(key[..16]) == Le32(key, 0) + 0x1_0000_0000 * Le32(key, 4) + 0x1_0000_0000_0000_0000 * Le32(key, 8)
                             + 0x1_0000_0000_0000_0000_0000_0000 * Le32(key, 12)
  {
    LE16(key[..16]);
  }

  lemma ClampDigits()
    ensures CLAMP == Value(0x3ff_ffff, 0x3ff_ff03, 0x3ff_c0ff, 0x3f0_3fff, 0xf_ffff)
  {
  }

  /** A block as the code hands it on: 16 bytes, a short last block closed by a 1 byte and zeros. */
  function Padded(data: seq<Byte>, i: nat): (x: seq<Byte>)
    requires i < |data|
    ensures |x| == 16
  {
    if i + 16 > |data| then data[i..] + [1] + seq(15 - (|data| - i), _ => 0) else data[i..i + 16]
  }

  /** Padding plus the extra bit gives the number of the block. */
  lemma PaddedNumber(data: seq<Byte>, i: nat)
    requires i < |data|
    ensures LE(Padded(data, i)) + B4 * (if i + 16 <= |data| then 0x100_0000 else 0)
         == BlockNumber(data[i..][..Min(16, |data| - i)])
  {
    var n := Min(16, |data| - i);
    assert data[i..][..n] == data[i..i + n];
    if i + 16 <= |data| {
      assert Pow256(8) == 0x1_0000_0000_0000_0000;
      assert Pow256(16) == B4 * 0x100_0000;
    } else {
      var zeros: seq<Byte> := seq(15 - n, _ => 0);
      assert Padded(data, i) == data[i..] + ([1] + zeros);
      LEZeros(15 - n);
      assert ([1] + zeros)[1..] == zeros;
      var tail: seq<Byte> := [1] + zeros;
      assert LE(tail) == 1;
      LEAppend(data[i..], tail);
      assert data[i..][..n] == data[i..];
    }
  }

  lemma AbsorbStep(acc: nat, r: nat, data: seq<Byte>, acc': nat)
    requires data != []
    requires acc' == ((acc + BlockNumber(data[..Min(16, |data|)])) * r) % P
    ensures Absorb(acc, r, data) == Absorb(acc', r, data[Min(16, |data|)..])
  {
  }

  lemma SumTimesModP(a: nat, a': nat, x: nat, r: nat)
    requires a % P == a' % P
    ensures ((a + x) * r) % P == ((a' + x) * r) % P
  {
    if a <= a' {
      MultipleOfDifference(a, a', x, r);
    } else {
      MultipleOfDifference(a', a, x, r);
    }
  }

  lemma MultipleOfDifference(a: nat, a': nat, x: nat, r: nat)
    requires a <= a' && a % P == a' % P
    ensures ((a + x) * r) % P == ((a' + x) * r) % P
  {
    var k := a' / P - a / P;
    assert a' == a + k * P;
    assert (a' + x) * r == (a + x) * r + (k * r) * P;
    SameModP((a + x) * r, (a' + x) * r, k * r);
  }

  /** The limbs of the clamped key half. */
  method ClampKey(key: seq<Byte>) returns (r0: Word, r1: Word, r2: Word, r3: Word, r4: Word)
    requires |key| == 32
    ensures r0 < B1 && r1 < B1 && r2 < B1 && r3 < B1 && r4 < B1
    ensures Value(r0, r1, r2, r3, r4) == ClampedR(key)
  {
    hide And, Or, LE, Le32, U32, Value, ClampedR;
    // r &= 0xffffffc0ffffffc0ffffffc0fffffff
    var t0: nat, t1: nat, t2: nat, t3: nat := Le32(key, 0), Le32(key, 4), Le32(key, 8), Le32(key, 12);
    ghost var y1, y2, y3 := KeyLimbs(key, t0, t1, t2, t3);
    AndAtMost(t0, 0x3ff_ffff);
    AndAtMost(y1, 0x3ff_ff03);
    AndAtMost(y2, 0x3ff_c0ff);
    AndAtMost(y3, 0x3f0_3fff);
    AndAtMost(t3 / 0x100, 0xf_ffff);
    r0 := And(t0, 0x3ff_ffff);
    r1 := And(Or(t0 / 0x400_0000, U32(t1 * 0x40)), 0x3ff_ff03);
    r2 := And(Or(t1 / 0x10_0000, U32(t2 * 0x1000)), 0x3ff_c0ff);
    r3 := And(Or(t2 / 0x4000, U32(t3 * 0x4_0000)), 0x3f0_3fff);
    r4 := And(t3 / 0x100, 0xf_ffff);
  }

  /** Absorbs data into h; with final set, finishes the tag in the first four words of h. */
  method Compress(h: array<Word>, key: seq<Byte>, data: seq<Byte>, final: bool)
    requires Carried(h[..]) && |key| == 32
    modifies h
    ensures !final ==> Carried(h[..])
    ensures !final ==> LimbValue(h[..]) % P == Absorb(LimbValue(old(h[..])) % P, ClampedR(key), data)
    ensures final ==> TagWords(h[..]) == Tag(Absorb(LimbValue(old(h[..])) % P, ClampedR(key), data), key)
  {
    hide And, Or, LE, Le32, U32, Value, LimbValue, Absorb, Tag, ClampedR, TagWords, BlockNumber, Padded;
    var r0, r1, r2, r3, r4 := ClampKey(key);
    ghost var r := ClampedR(key);
    ghost var acc := LimbValue(h[..]) % P;

    var i := 0;
    assert data[0..] == data;
    while i < |data| // process data in 16 byte blocks
      invariant Carried(h[..])
      invariant Absorb(LimbValue(h[..]) % P, r, data[Min(i, |data|)..]) == Absorb(acc, r, data)
    {
      ghost var a, rest := LimbValue(h[..]), data[i..];
      AbsorbBlock(h, r0, r1, r2, r3, r4, Padded(data, i), if i + 16 <= |data| then 0x100_0000 else 0);
      PaddedNumber(data, i);
      SumTimesModP(a % P, a, BlockNumber(rest[..Min(16, |rest|)]), r);
      AbsorbStep(a % P, r, rest, LimbValue(h[..]) % P);
      assert rest[Min(16, |rest|)..] == data[Min(i + 16, |data|)..];
      i := i + 16;
    }
    AbsorbNothing(LimbValue(h[..]) % P, r, data[Min(i, |data|)..]);
    if final {
      TagModP(LimbValue(h[..]), key);
      Finish(h, key);
    }
  }

  lemma AbsorbNothing(acc: nat, r: nat, data: seq<Byte>)
    requires data == []
    ensures Absorb(acc, r, data) == acc
  {
  }

  lemma TagModP(v: nat, key: seq<Byte>)
    requires |key| == 32
    ensures Tag(v % P, key) == Tag(v, key)
  {
  }

  /** The whole authenticator: the tag of section 2.5 of RFC 7539 for every key and message. */
  method Authenticate(key: seq<Byte>, data: seq<Byte>) returns (mac: array<Word>)
    requires |key| == 32
    ensures fresh(mac) && mac.Length == 5
    ensures TagWords(mac[..]) == Tag(Absorb(0, ClampedR(key), data), key)
  {
    hide Absorb, Tag, ClampedR, TagWords;
    mac := new Word[5](_ => 0);
    assert LimbValue(mac[..]) % P == 0;
    Compress(mac, key, data, true);
  }

  // ----- Known answers -----

  /** As section 2.5.1 of RFC 7539 has it: bytes 3, 7, 11 and 15 of r lose their top four bits, bytes 4, 8 and 12 their
      bottom two. */
  lemma ClampIsByBytes(key: seq<Byte>)
    requires |key| == 32
    ensures ClampedR(key) ==
      LE([key[0], key[1], key[2], key[3] % 16, key[4] / 4 * 4, key[5], key[6], key[7] % 16,
          key[8] / 4 * 4, key[9], key[10], key[11] % 16, key[12] / 4 * 4, key[13], key[14], key[15] % 16])
  {
    hide And, LE;
    var mask := [0xff, 0xff, 0xff, 0x0f, 0xfc, 0xff, 0xff, 0x0f, 0xfc, 0xff, 0xff, 0x0f, 0xfc, 0xff, 0xff, 0x0f];
    assert LE(mask) == CLAMP by { LE16(mask); }
    AndBytes(key[..16], mask);
    var clamped := [key[0], key[1], key[2], key[3] % 16, key[4] / 4 * 4, key[5], key[6], key[7] % 16,
                    key[8] / 4 * 4, key[9], key[10], key[11] % 16, key[12] / 4 * 4, key[13], key[14], key[15] % 16];
    forall i | 0 <= i < 16
      ensures And(key[..16][i], mask[i]) == clamped[i]
    {
      MaskByte(key[i]);
    }
    SameBytes(key[..16], mask, clamped);
  }

  lemma MaskByte(b: Byte)
    ensures And(b, 0xff) == b && And(b, 0x0f) == b % 16 && And(b, 0xfc) == b / 4 * 4
  {
    hide And;
    assert Pow2(8) == 0x100 && Pow2(4) == 16 && Pow2(2) == 4 && Pow2(6) == 64;
    AndOnes(b, 0, 8);
    AndOnes(b % 16, b / 16, 4);
    AndJoin(b % 4, b / 4, 0, 0x3f, 2);
    AndOnes(b / 4, 0, 6);
    assert And(b % 4, 0) == 0 by { AndZero(b % 4); }
  }

  lemma AndZero(a: nat)
    ensures And(a, 0) == 0
  {
  }

  function MaskedBytes(a: seq<Byte>, m: seq<Byte>): (r: seq<nat>)
    requires |a| == |m|
    ensures |r| == |a|
  {
    if a == [] then [] else [And(a[0], m[0])] + MaskedBytes(a[1..], m[1..])
  }

  /** The value of digits in base 256 that need not be bytes. */
  function Digits256(s: seq<nat>): nat {
    if s == [] then 0 else s[0] + 0x100 * Digits256(s[1..])
  }

  lemma {:induction false} AndBytes(a: seq<Byte>, m: seq<Byte>)
    requires |a| == |m|
    ensures And(LE(a), LE(m)) == Digits256(MaskedBytes(a, m))
  {
    hide And;
    if a == [] {
      AndZero(0);
    } else {
      assert Pow2(8) == 0x100;
      AndJoin(a[0], LE(a[1..]), m[0], LE(m[1..]), 8);
      AndBytes(a[1..], m[1..]);
      assert MaskedBytes(a, m)[1..] == MaskedBytes(a[1..], m[1..]);
    }
  }

  lemma {:induction false} SameBytes(a: seq<Byte>, m: seq<Byte>, r: seq<Byte>)
    requires |a| == |m| == |r| && forall i :: 0 <= i < |a| ==> And(a[i], m[i]) == r[i]
    ensures Digits256(MaskedBytes(a, m)) == LE(r)
  {
    hide And;
    if a != [] {
      assert MaskedBytes(a, m)[1..] == MaskedBytes(a[1..], m[1..]);
      SameBytes(a[1..], m[1..], r[1..]);
    }
  }

  /** A block takes the accumulator on by one power of r. */
  lemma AbsorbBlockIs(acc: nat, r: nat, block: seq<Byte>, number: nat, next: nat)
    requires |block| == 16 && LE(block) == number
    requires next == (acc + number + 0x1_0000_0000_0000_0000_0000_0000_0000_0000) * r
                     % 0x3_ffff_ffff_ffff_ffff_ffff_ffff_ffff_fffb
    ensures Absorb(acc, r, block) == next
  {
    assert block[..16] == block && block[16..] == [];
    assert Pow256(8) == 0x1_0000_0000_0000_0000;
    assert Pow256(16) == TWO128;
  }

  /** Vector 8 of appendix A.3 of RFC 7539, its 16-byte pieces given as little-endian numbers. */
  lemma KnownSum(key: seq<Byte>, block: seq<Byte>)
    requires |key| == 32 && |block| == 16 && ClampedR(key) == 2 && LE(block) == 2
    requires LE(key[16..]) == 0xffff_ffff_ffff_ffff_ffff_ffff_ffff_ffff
    ensures Tag(Absorb(0, ClampedR(key), block), key) == 3
  {
    hide Absorb, LE, ClampedR;
    AbsorbBlockIs(0, 2, block, 2, 0x2_0000_0000_0000_0000_0000_0000_0000_0004);
  }

  /** Vector 9. */
  lemma KnownRemainder(key: seq<Byte>, block: seq<Byte>)
    requires |key| == 32 && |block| == 16 && ClampedR(key) == 2 && LE(key[16..]) == 0
    requires LE(block) == 0xffff_ffff_ffff_ffff_ffff_ffff_ffff_fffd
    ensures Tag(Absorb(0, ClampedR(key), block), key) == 0xffff_ffff_ffff_ffff_ffff_ffff_ffff_fffa
  {
    hide Absorb, LE, ClampedR;
    AbsorbBlockIs(0, 2, block, 0xffff_ffff_ffff_ffff_ffff_ffff_ffff_fffd, 0x3_ffff_ffff_ffff_ffff_ffff_ffff_ffff_fffa);
  }

  /** Vector 10. */
  lemma KnownTag(key: seq<Byte>, b0: seq<Byte>, b1: seq<Byte>, b2: seq<Byte>, b3: seq<Byte>)
    requires |key| == 32 && |b0| == |b1| == |b2| == |b3| == 16
    requires ClampedR(key) == 0x4_0000_0000_0000_0001 && LE(key[16..]) == 0
    requires LE(b0) == 0xb943_5e50_d794_35e3 && LE(b1) == 0x1_cd79_435e_50d7_9433 && LE(b2) == 0 && LE(b3) == 1
    ensures Tag(Absorb(0, ClampedR(key), b0 + b1 + b2 + b3), key) == 0x55_0000_0000_0000_0014
  {
    hide Absorb, LE, ClampedR;
    FirstBlock(b0);
    SecondBlock(b1);
    ThirdBlock(b2);
    LastBlock(b3);
    AbsorbFour(ClampedR(key), b0, b1, b2, b3);
    hide P;
    assert 0x1_0000_0000_0000_0055_0000_0000_0000_0014 < P by { BelowP(); }
  }

  lemma BelowP()
    ensures 0x1_0000_0000_0000_0055_0000_0000_0000_0014 < P
  {
  }

  lemma FirstBlock(b: seq<Byte>)
    requires |b| == 16 && LE(b) == 0xb943_5e50_d794_35e3
    ensures Absorb(0, 0x4_0000_0000_0000_0001, b) == 0x3_e50d_7943_5e50_d791_b943_5e50_d794_35e3
  {
    hide LE, Absorb;
    AbsorbBlockIs(0, 0x4_0000_0000_0000_0001, b, 0xb943_5e50_d794_35e3, 0x3_e50d_7943_5e50_d791_b943_5e50_d794_35e3);
  }

  lemma SecondBlock(b: seq<Byte>)
    requires |b| == 16 && LE(b) == 0x1_cd79_435e_50d7_9433
    ensures Absorb(0x3_e50d_7943_5e50_d791_b943_5e50_d794_35e3, 0x4_0000_0000_0000_0001, b)
         == 0x3_0000_0000_0000_0003_ffff_ffff_ffff_fffa
  {
    hide LE, Absorb;
    AbsorbBlockIs(0x3_e50d_7943_5e50_d791_b943_5e50_d794_35e3, 0x4_0000_0000_0000_0001, b, 0x1_cd79_435e_50d7_9433,
                  0x3_0000_0000_0000_0003_ffff_ffff_ffff_fffa);
  }

  lemma ThirdBlock(b: seq<Byte>)
    requires |b| == 16 && LE(b) == 0
    ensures Absorb(0x3_0000_0000_0000_0003_ffff_ffff_ffff_fffa, 0x4_0000_0000_0000_0001, b) == 0x13
  {
    hide LE, Absorb;
    AbsorbBlockIs(0x3_0000_0000_0000_0003_ffff_ffff_ffff_fffa, 0x4_0000_0000_0000_0001, b, 0, 0x13);
  }

  lemma LastBlock(b: seq<Byte>)
    requires |b| == 16 && LE(b) == 1
    ensures Absorb(0x13, 0x4_0000_0000_0000_0001, b) == 0x1_0000_0000_0000_0055_0000_0000_0000_0014
  {
    hide LE, Absorb;
    AbsorbBlockIs(0x13, 0x4_0000_0000_0000_0001, b, 1, 0x1_0000_0000_0000_0055_0000_0000_0000_0014);
  }

  lemma AbsorbFour(r: nat, b0: seq<Byte>, b1: seq<Byte>, b2: seq<Byte>, b3: seq<Byte>)
    requires |b0| == |b1| == |b2| == |b3| == 16
    ensures Absorb(0, r, b0 + b1 + b2 + b3) == Absorb(Absorb(Absorb(Absorb(0, r, b0), r, b1), r, b2), r, b3)
  {
    hide Absorb;
    AbsorbInPieces(0, r, b0 + b1 + b2, b3);
    AbsorbInPieces(0, r, b0 + b1, b2);
    AbsorbInPieces(0, r, b0, b1);
  }
}
