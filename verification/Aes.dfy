/** AES-256 on one block with the key schedule expanded, and un-expanded, in place. */
module Aes {
  // ----- S-boxes and field arithmetic -----

  function Pick(i: bv8, v0: bv8, v1: bv8, v2: bv8, v3: bv8, v4: bv8, v5: bv8, v6: bv8, v7: bv8,
                v8: bv8, v9: bv8, v10: bv8, v11: bv8, v12: bv8, v13: bv8, v14: bv8, v15: bv8): bv8 {
    if i < 8 then
      if i < 4 then if i < 2 then (if i < 1 then v0 else v1) else (if i < 3 then v2 else v3)
      else if i < 6 then (if i < 5 then v4 else v5) else (if i < 7 then v6 else v7)
    else
      if i < 12 then if i < 10 then (if i < 9 then v8 else v9) else (if i < 11 then v10 else v11)
      else if i < 14 then (if i < 13 then v12 else v13) else (if i < 15 then v14 else v15)
  }

  function Sbox(x: bv8): bv8 {
    Pick(x >> 4,
         Pick(x & 0xf, 0x63, 0x7c, 0x77, 0x7b, 0xf2, 0x6b, 0x6f, 0xc5, 0x30, 0x01, 0x67, 0x2b, 0xfe, 0xd7, 0xab, 0x76),
         Pick(x & 0xf, 0xca, 0x82, 0xc9, 0x7d, 0xfa, 0x59, 0x47, 0xf0, 0xad, 0xd4, 0xa2, 0xaf, 0x9c, 0xa4, 0x72, 0xc0),
         Pick(x & 0xf, 0xb7, 0xfd, 0x93, 0x26, 0x36, 0x3f, 0xf7, 0xcc, 0x34, 0xa5, 0xe5, 0xf1, 0x71, 0xd8, 0x31, 0x15),
         Pick(x & 0xf, 0x04, 0xc7, 0x23, 0xc3, 0x18, 0x96, 0x05, 0x9a, 0x07, 0x12, 0x80, 0xe2, 0xeb, 0x27, 0xb2, 0x75),
         Pick(x & 0xf, 0x09, 0x83, 0x2c, 0x1a, 0x1b, 0x6e, 0x5a, 0xa0, 0x52, 0x3b, 0xd6, 0xb3, 0x29, 0xe3, 0x2f, 0x84),
         Pick(x & 0xf, 0x53, 0xd1, 0x00, 0xed, 0x20, 0xfc, 0xb1, 0x5b, 0x6a, 0xcb, 0xbe, 0x39, 0x4a, 0x4c, 0x58, 0xcf),
         Pick(x & 0xf, 0xd0, 0xef, 0xaa, 0xfb, 0x43, 0x4d, 0x33, 0x85, 0x45, 0xf9, 0x02, 0x7f, 0x50, 0x3c, 0x9f, 0xa8),
         Pick(x & 0xf, 0x51, 0xa3, 0x40, 0x8f, 0x92, 0x9d, 0x38, 0xf5, 0xbc, 0xb6, 0xda, 0x21, 0x10, 0xff, 0xf3, 0xd2),
         Pick(x & 0xf, 0xcd, 0x0c, 0x13, 0xec, 0x5f, 0x97, 0x44, 0x17, 0xc4, 0xa7, 0x7e, 0x3d, 0x64, 0x5d, 0x19, 0x73),
         Pick(x & 0xf, 0x60, 0x81, 0x4f, 0xdc, 0x22, 0x2a, 0x90, 0x88, 0x46, 0xee, 0xb8, 0x14, 0xde, 0x5e, 0x0b, 0xdb),
         Pick(x & 0xf, 0xe0, 0x32, 0x3a, 0x0a, 0x49, 0x06, 0x24, 0x5c, 0xc2, 0xd3, 0xac, 0x62, 0x91, 0x95, 0xe4, 0x79),
         Pick(x & 0xf, 0xe7, 0xc8, 0x37, 0x6d, 0x8d, 0xd5, 0x4e, 0xa9, 0x6c, 0x56, 0xf4, 0xea, 0x65, 0x7a, 0xae, 0x08),
         Pick(x & 0xf, 0xba, 0x78, 0x25, 0x2e, 0x1c, 0xa6, 0xb4, 0xc6, 0xe8, 0xdd, 0x74, 0x1f, 0x4b, 0xbd, 0x8b, 0x8a),
         Pick(x & 0xf, 0x70, 0x3e, 0xb5, 0x66, 0x48, 0x03, 0xf6, 0x0e, 0x61, 0x35, 0x57, 0xb9, 0x86, 0xc1, 0x1d, 0x9e),
         Pick(x & 0xf, 0xe1, 0xf8, 0x98, 0x11, 0x69, 0xd9, 0x8e, 0x94, 0x9b, 0x1e, 0x87, 0xe9, 0xce, 0x55, 0x28, 0xdf),
         Pick(x & 0xf, 0x8c, 0xa1, 0x89, 0x0d, 0xbf, 0xe6, 0x42, 0x68, 0x41, 0x99, 0x2d, 0x0f, 0xb0, 0x54, 0xbb, 0x16))
  }

  function SboxInv(x: bv8): bv8 {
    Pick(x >> 4,
         Pick(x & 0xf, 0x52, 0x09, 0x6a, 0xd5, 0x30, 0x36, 0xa5, 0x38, 0xbf, 0x40, 0xa3, 0x9e, 0x81, 0xf3, 0xd7, 0xfb),
         Pick(x & 0xf, 0x7c, 0xe3, 0x39, 0x82, 0x9b, 0x2f, 0xff, 0x87, 0x34, 0x8e, 0x43, 0x44, 0xc4, 0xde, 0xe9, 0xcb),
         Pick(x & 0xf, 0x54, 0x7b, 0x94, 0x32, 0xa6, 0xc2, 0x23, 0x3d, 0xee, 0x4c, 0x95, 0x0b, 0x42, 0xfa, 0xc3, 0x4e),
         Pick(x & 0xf, 0x08, 0x2e, 0xa1, 0x66, 0x28, 0xd9, 0x24, 0xb2, 0x76, 0x5b, 0xa2, 0x49, 0x6d, 0x8b, 0xd1, 0x25),
         Pick(x & 0xf, 0x72, 0xf8, 0xf6, 0x64, 0x86, 0x68, 0x98, 0x16, 0xd4, 0xa4, 0x5c, 0xcc, 0x5d, 0x65, 0xb6, 0x92),
         Pick(x & 0xf, 0x6c, 0x70, 0x48, 0x50, 0xfd, 0xed, 0xb9, 0xda, 0x5e, 0x15, 0x46, 0x57, 0xa7, 0x8d, 0x9d, 0x84),
         Pick(x & 0xf, 0x90, 0xd8, 0xab, 0x00, 0x8c, 0xbc, 0xd3, 0x0a, 0xf7, 0xe4, 0x58, 0x05, 0xb8, 0xb3, 0x45, 0x06),
         Pick(x & 0xf, 0xd0, 0x2c, 0x1e, 0x8f, 0xca, 0x3f, 0x0f, 0x02, 0xc1, 0xaf, 0xbd, 0x03, 0x01, 0x13, 0x8a, 0x6b),
         Pick(x & 0xf, 0x3a, 0x91, 0x11, 0x41, 0x4f, 0x67, 0xdc, 0xea, 0x97, 0xf2, 0xcf, 0xce, 0xf0, 0xb4, 0xe6, 0x73),
         Pick(x & 0xf, 0x96, 0xac, 0x74, 0x22, 0xe7, 0xad, 0x35, 0x85, 0xe2, 0xf9, 0x37, 0xe8, 0x1c, 0x75, 0xdf, 0x6e),
         Pick(x & 0xf, 0x47, 0xf1, 0x1a, 0x71, 0x1d, 0x29, 0xc5, 0x89, 0x6f, 0xb7, 0x62, 0x0e, 0xaa, 0x18, 0xbe, 0x1b),
         Pick(x & 0xf, 0xfc, 0x56, 0x3e, 0x4b, 0xc6, 0xd2, 0x79, 0x20, 0x9a, 0xdb, 0xc0, 0xfe, 0x78, 0xcd, 0x5a, 0xf4),
         Pick(x & 0xf, 0x1f, 0xdd, 0xa8, 0x33, 0x88, 0x07, 0xc7, 0x31, 0xb1, 0x12, 0x10, 0x59, 0x27, 0x80, 0xec, 0x5f),
         Pick(x & 0xf, 0x60, 0x51, 0x7f, 0xa9, 0x19, 0xb5, 0x4a, 0x0d, 0x2d, 0xe5, 0x7a, 0x9f, 0x93, 0xc9, 0x9c, 0xef),
         Pick(x & 0xf, 0xa0, 0xe0, 0x3b, 0x4d, 0xae, 0x2a, 0xf5, 0xb0, 0xc8, 0xeb, 0xbb, 0x3c, 0x83, 0x53, 0x99, 0x61),
         Pick(x & 0xf, 0x17, 0x2b, 0x04, 0x7e, 0xba, 0x77, 0xd6, 0x26, 0xe1, 0x69, 0x14, 0x63, 0x55, 0x21, 0x0c, 0x7d))
  }

  lemma SboxInvAfterSbox(x: bv8)
    ensures SboxInv(Sbox(x)) == x
  {
    SboxInvLow(x);
    SboxInvHigh(x);
  }

  lemma SboxInvLow(x: bv8)
    ensures x < 0x80 ==> SboxInv(Sbox(x)) == x
  {
  }

  lemma SboxInvHigh(x: bv8)
    ensures x >= 0x80 ==> SboxInv(Sbox(x)) == x
  {
  }

  /** Multiplication by x in GF(2^8). */
  function Xt(x: bv8): bv8 {
    (x << 1) ^ (((x >> 7) & 1) * 0x1b)
  }

  /** Division by x in GF(2^8), as the decryption rewinds the round constant. */
  function XtInv(x: bv8): bv8 {
    (x >> 1) ^ ((x & 1) * 0x8d)
  }

  lemma XtInverse(x: bv8)
    ensures XtInv(Xt(x)) == x && Xt(XtInv(x)) == x
  {
  }

  /** Addition in GF(2^8), named so that proofs can use it without its bits. */
  function Add(x: bv8, y: bv8): bv8 {
    x ^ y
  }

  lemma AddCancel(x: bv8, y: bv8)
    ensures Add(Add(x, y), y) == x
  {
  }

  function Sum4(a: bv8, b: bv8, c: bv8, d: bv8): bv8 {
    a ^ b ^ c ^ d
  }

  lemma XtAdd(x: bv8, y: bv8)
    ensures Xt(Add(x, y)) == Add(Xt(x), Xt(y))
  {
  }

  // ----- One column -----

  function Mix(a: bv8, b: bv8, c: bv8, d: bv8): (bv8, bv8, bv8, bv8) {
    var e := Sum4(a, b, c, d);
    (Add(a, Add(e, Xt(Add(a, b)))), Add(b, Add(e, Xt(Add(b, c)))), Add(c, Add(e, Xt(Add(c, d)))),
     Add(d, Add(e, Xt(Add(d, a)))))
  }

  function Unmix(a: bv8, b: bv8, c: bv8, d: bv8): (bv8, bv8, bv8, bv8) {
    var e := Sum4(a, b, c, d);
    var h := Xt(e);
    var f := Add(e, Xt(Xt(Add(Add(h, a), c))));
    var g := Add(e, Xt(Xt(Add(Add(h, b), d))));
    (Add(a, Add(f, Xt(Add(a, b)))), Add(b, Add(g, Xt(Add(b, c)))), Add(c, Add(f, Xt(Add(c, d)))),
     Add(d, Add(g, Xt(Add(d, a)))))
  }

  /** The column matrix of section 5.1.3 of FIPS 197, with 3x = 2x + x. */
  lemma MixIsMatrix(a: bv8, b: bv8, c: bv8, d: bv8)
    ensures Mix(a, b, c, d) == (Sum4(Xt(a), Add(Xt(b), b), c, d), Sum4(a, Xt(b), Add(Xt(c), c), d),
                                Sum4(a, b, Xt(c), Add(Xt(d), d)), Sum4(Add(Xt(a), a), b, c, Xt(d)))
  {
    hide Xt, Add, Sum4;
    XtAdd(a, b);
    XtAdd(b, c);
    XtAdd(c, d);
    XtAdd(d, a);
    MatrixRow0(a, b, c, d, Xt(a), Xt(b));
    MatrixRow1(a, b, c, d, Xt(b), Xt(c));
    MatrixRow2(a, b, c, d, Xt(c), Xt(d));
    MatrixRow3(a, b, c, d, Xt(d), Xt(a));
  }

  lemma MatrixRow0(a: bv8, b: bv8, c: bv8, d: bv8, a2: bv8, b2: bv8)
    ensures Add(a, Add(Sum4(a, b, c, d), Add(a2, b2))) == Sum4(a2, Add(b2, b), c, d)
  {
    hide Add, Sum4;
    FirstOfFour(a, b, c, d);
    CancelFirst(a, Add(b, Add(c, d)), Add(a2, b2));
    Rearrange(b, Add(c, d), a2, b2);
    Pairs(a2, Add(b2, b), c, d);
  }

  lemma MatrixRow1(a: bv8, b: bv8, c: bv8, d: bv8, b2: bv8, c2: bv8)
    ensures Add(b, Add(Sum4(a, b, c, d), Add(b2, c2))) == Sum4(a, b2, Add(c2, c), d)
  {
    hide Add, Sum4;
    Rotated(a, b, c, d);
    MatrixRow0(b, c, d, a, b2, c2);
    Rotated(a, b2, Add(c2, c), d);
  }

  lemma MatrixRow2(a: bv8, b: bv8, c: bv8, d: bv8, c2: bv8, d2: bv8)
    ensures Add(c, Add(Sum4(a, b, c, d), Add(c2, d2))) == Sum4(a, b, c2, Add(d2, d))
  {
    hide Add, Sum4;
    Rotated(a, b, c, d);
    MatrixRow1(b, c, d, a, c2, d2);
    Rotated(a, b, c2, Add(d2, d));
  }

  lemma MatrixRow3(a: bv8, b: bv8, c: bv8, d: bv8, d2: bv8, a2: bv8)
    ensures Add(d, Add(Sum4(a, b, c, d), Add(d2, a2))) == Sum4(Add(a2, a), b, c, d2)
  {
    hide Add, Sum4;
    Rotated(a, b, c, d);
    MatrixRow2(b, c, d, a, d2, a2);
    Rotated(Add(a2, a), b, c, d2);
  }

  lemma Rotated(a: bv8, b: bv8, c: bv8, d: bv8)
    ensures Sum4(a, b, c, d) == Sum4(b, c, d, a)
  {
  }

  lemma FirstOfFour(a: bv8, b: bv8, c: bv8, d: bv8)
    ensures Sum4(a, b, c, d) == Add(a, Add(b, Add(c, d)))
  {
  }

  lemma CancelFirst(x: bv8, rest: bv8, t: bv8)
    ensures Add(x, Add(Add(x, rest), t)) == Add(rest, t)
  {
  }

  lemma Rearrange(b: bv8, u: bv8, p: bv8, q: bv8)
    ensures Add(Add(b, u), Add(p, q)) == Add(Add(p, Add(q, b)), u)
  {
    hide Add;
    Swap(Add(b, u), Add(p, q));
    Associate(p, q, Add(b, u));
    Associate(q, b, u);
    Associate(p, Add(q, b), u);
  }

  lemma Associate(x: bv8, y: bv8, z: bv8)
    ensures Add(Add(x, y), z) == Add(x, Add(y, z))
  {
  }

  // Sums of mixed bytes: p, q, r stand for Xt of the neighbouring sums of the column a, b, c, d.

  lemma SumOfFour(a: bv8, b: bv8, c: bv8, d: bv8, p: bv8, q: bv8, r: bv8)
    ensures var e := Sum4(a, b, c, d);
            Sum4(Add(a, Add(e, p)), Add(b, Add(e, q)), Add(c, Add(e, r)), Add(d, Add(e, Add(Add(p, q), r)))) == e
  {
    hide Add, Sum4;
    var e, s := Sum4(a, b, c, d), Add(Add(p, q), r);
    var w, x, y, z := Add(a, Add(e, p)), Add(b, Add(e, q)), Add(c, Add(e, r)), Add(d, Add(e, s));
    Pairs(w, x, y, z);
    SumOfTwo(a, e, b, p, q);
    SumOfTwo(c, e, d, r, s);
    ThreeOfFour(p, q, r);
    DropTwice(Add(a, b), Add(c, d), Add(p, q));
    Pairs(a, b, c, d);
  }

  lemma Pairs(a: bv8, b: bv8, c: bv8, d: bv8)
    ensures Sum4(a, b, c, d) == Add(Add(a, b), Add(c, d))
  {
  }

  lemma DropTwice(x: bv8, y: bv8, p: bv8)
    ensures Add(Add(x, p), Add(y, p)) == Add(x, y)
  {
  }

  lemma SumOfTwo(a: bv8, e: bv8, b: bv8, p: bv8, q: bv8)
    ensures Add(Add(a, Add(e, p)), Add(b, Add(e, q))) == Add(Add(a, b), Add(p, q))
  {
  }

  lemma SumOfThree(a: bv8, e: bv8, c: bv8, p: bv8, r: bv8)
    ensures Add(Add(Add(p, r), Add(a, Add(e, p))), Add(c, Add(e, r))) == Add(a, c)
  {
  }

  lemma Link(a: bv8, b: bv8, c: bv8)
    ensures Add(Add(a, b), Add(b, c)) == Add(a, c)
  {
  }

  lemma Swap(a: bv8, b: bv8)
    ensures Add(a, b) == Add(b, a)
  {
  }

  lemma NeighbourSums(a: bv8, b: bv8, c: bv8, d: bv8)
    ensures Xt(Add(a, c)) == Add(Xt(Add(a, b)), Xt(Add(b, c)))
    ensures Xt(Add(b, d)) == Add(Xt(Add(b, c)), Xt(Add(c, d)))
    ensures Xt(Sum4(a, b, c, d)) == Add(Xt(Add(a, b)), Xt(Add(c, d)))
    ensures Xt(Add(d, a)) == Add(Add(Xt(Add(a, b)), Xt(Add(b, c))), Xt(Add(c, d)))
  {
    hide Xt, Add, Sum4;
    Link(a, b, c);
    Link(b, c, d);
    Link(a, c, d);
    Swap(a, d);
    Pairs(a, b, c, d);
    XtAdd(Add(a, b), Add(b, c));
    XtAdd(Add(b, c), Add(c, d));
    XtAdd(Add(a, b), Add(c, d));
    XtAdd(Add(Add(a, b), Add(b, c)), Add(c, d));
  }

  lemma Cancel(a: bv8, e: bv8, p: bv8, u: bv8)
    ensures Add(Add(a, Add(e, p)), Add(Add(e, u), Add(p, u))) == a
  {
  }

  lemma ThreeOfFour(p: bv8, q: bv8, r: bv8)
    ensures var s := Add(Add(p, q), r); Add(q, s) == Add(p, r) && Add(r, s) == Add(p, q) && Add(s, p) == Add(q, r)
  {
    hide Add;
    Remove2(p, q, r);
    Remove3(p, q, r);
    Remove1(p, q, r);
  }

  lemma Remove1(p: bv8, q: bv8, r: bv8)
    ensures Add(Add(Add(p, q), r), p) == Add(q, r)
  {
  }

  lemma Remove2(p: bv8, q: bv8, r: bv8)
    ensures Add(q, Add(Add(p, q), r)) == Add(p, r)
  {
  }

  lemma Remove3(p: bv8, q: bv8, r: bv8)
    ensures Add(r, Add(Add(p, q), r)) == Add(p, q)
  {
  }

  /** Unmixing undoes mixing; the key fact is that Xt is additive. */
  lemma UnmixMix(a: bv8, b: bv8, c: bv8, d: bv8)
    ensures var m := Mix(a, b, c, d); Unmix(m.0, m.1, m.2, m.3) == (a, b, c, d)
  {
    hide Xt, Add, Sum4;
    var m := Mix(a, b, c, d);
    var p, q, r, e := Xt(Add(a, b)), Xt(Add(b, c)), Xt(Add(c, d)), Sum4(a, b, c, d);
    var s := Add(Add(p, q), r);
    var u, v := Xt(Xt(Add(a, c))), Xt(Xt(Add(b, d)));
    NeighbourSums(a, b, c, d);
    ThreeOfFour(p, q, r);
    SumOfFour(a, b, c, d, p, q, r);
    SumOfThree(a, e, c, p, r);
    SumOfThree(b, e, d, q, s);
    assert Xt(Add(m.0, m.1)) == Add(p, u) by { SumOfTwo(a, e, b, p, q); XtAdd(Add(a, b), Add(p, q)); }
    assert Xt(Add(m.1, m.2)) == Add(q, v) by { SumOfTwo(b, e, c, q, r); XtAdd(Add(b, c), Add(q, r)); }
    assert Xt(Add(m.2, m.3)) == Add(r, u) by { SumOfTwo(c, e, d, r, s); XtAdd(Add(c, d), Add(p, q)); }
    assert Xt(Add(m.3, m.0)) == Add(s, v) by { SumOfTwo(d, e, a, s, p); XtAdd(Add(d, a), Add(q, r)); }
    Cancel(a, e, p, u);
    Cancel(b, e, q, v);
    Cancel(c, e, r, u);
    Cancel(d, e, s, v);
  }

  // ----- The steps of a round on a 16-byte state -----

  type State = s: seq<bv8> | |s| == 16 witness seq(16, _ => 0)
  type Key = k: seq<bv8> | |k| == 32 witness seq(32, _ => 0)

  /** Adds the first or second half of the key. */
  function AddKey(s: State, k: Key, half: nat): State
    requires half < 2
  {
    seq(16, j requires 0 <= j < 16 => Add(s[j], k[j + half * 16]))
  }

  function SubBytes(s: State): State {
    seq(16, j requires 0 <= j < 16 => Sbox(s[j]))
  }

  function UnsubBytes(s: State): State {
    seq(16, j requires 0 <= j < 16 => SboxInv(s[j]))
  }

  /** Row i of the state, bytes i, i + 4, i + 8 and i + 12, rotates by i. */
  function ShiftRows(s: State): State {
    [s[0], s[5], s[10], s[15], s[4], s[9], s[14], s[3], s[8], s[13], s[2], s[7], s[12], s[1], s[6], s[11]]
  }

  function UnshiftRows(s: State): State {
    [s[0], s[13], s[10], s[7], s[4], s[1], s[14], s[11], s[8], s[5], s[2], s[15], s[12], s[9], s[6], s[3]]
  }

  /** One of the four results. */
  function Nth4(m: (bv8, bv8, bv8, bv8), i: nat): bv8
    requires i < 4
  {
    if i == 0 then m.0 else if i == 1 then m.1 else if i == 2 then m.2 else m.3
  }

  function MixColumns(s: State): State {
    seq(16, j requires 0 <= j < 16 => var c := j / 4 * 4; Nth4(Mix(s[c], s[c + 1], s[c + 2], s[c + 3]), j % 4))
  }

  function UnmixColumns(s: State): State {
    seq(16, j requires 0 <= j < 16 => var c := j / 4 * 4; Nth4(Unmix(s[c], s[c + 1], s[c + 2], s[c + 3]), j % 4))
  }

  lemma UnaddKey(s: State, k: Key, half: nat)
    requires half < 2
    ensures AddKey(AddKey(s, k, half), k, half) == s
  {
    hide Add;
    forall j | 0 <= j < 16
      ensures AddKey(AddKey(s, k, half), k, half)[j] == s[j]
    {
      AddCancel(s[j], k[j + half * 16]);
    }
  }

  lemma UnsubSub(s: State)
    ensures UnsubBytes(SubBytes(s)) == s
  {
    hide Sbox, SboxInv;
    forall j | 0 <= j < 16
      ensures UnsubBytes(SubBytes(s))[j] == s[j]
    {
      SboxInvAfterSbox(s[j]);
    }
  }

  lemma UnshiftShift(s: State)
    ensures UnshiftRows(ShiftRows(s)) == s
  {
  }

  lemma MixedColumn(s: State, q: nat)
    requires q < 4
    ensures var m, x := MixColumns(s), Mix(s[4 * q], s[4 * q + 1], s[4 * q + 2], s[4 * q + 3]);
            m[4 * q] == x.0 && m[4 * q + 1] == x.1 && m[4 * q + 2] == x.2 && m[4 * q + 3] == x.3
  {
    hide Mix;
    if q == 0 {
    } else if q == 1 {
    } else if q == 2 {
    }
  }

  lemma UnmixedColumn(s: State, q: nat)
    requires q < 4
    ensures var m, x := UnmixColumns(s), Unmix(s[4 * q], s[4 * q + 1], s[4 * q + 2], s[4 * q + 3]);
            m[4 * q] == x.0 && m[4 * q + 1] == x.1 && m[4 * q + 2] == x.2 && m[4 * q + 3] == x.3
  {
    hide Unmix;
    if q == 0 {
    } else if q == 1 {
    } else if q == 2 {
    }
  }

  lemma UnmixMixColumn(s: State, q: nat)
    requires q < 4
    ensures var u := UnmixColumns(MixColumns(s));
            && u[4 * q] == s[4 * q] && u[4 * q + 1] == s[4 * q + 1]
            && u[4 * q + 2] == s[4 * q + 2] && u[4 * q + 3] == s[4 * q + 3]
  {
    hide Mix, Unmix, MixColumns, UnmixColumns;
    MixedColumn(s, q);
    UnmixedColumn(MixColumns(s), q);
    UnmixMix(s[4 * q], s[4 * q + 1], s[4 * q + 2], s[4 * q + 3]);
  }

  lemma UnmixMixColumns(s: State)
    ensures UnmixColumns(MixColumns(s)) == s
  {
    hide MixColumns, UnmixColumns;
    UnmixMixColumn(s, 0);
    UnmixMixColumn(s, 1);
    UnmixMixColumn(s, 2);
    UnmixMixColumn(s, 3);
  }

  // ----- The key schedule -----

  /** Byte j of the next eight round key words (section 5.2 of FIPS 197), r being the round constant. */
  function NextByte(k: Key, r: bv8, j: nat): bv8
    requires j < 32
  {
    if j < 4 then Add(k[j], Add(Sbox(k[28 + (j + 1) % 4]), if j == 0 then r else 0))
    else if 16 <= j < 20 then Add(k[j], Sbox(NextByte(k, r, j - 4)))
    else Add(k[j], NextByte(k, r, j - 4))
  }

  function Expand(k: Key, r: bv8): Key {
    seq(32, j requires 0 <= j < 32 => NextByte(k, r, j))
  }

  /** The state of the schedule after n expansions. */
  function KeyAt(key: Key, n: nat): Key {
    if n == 0 then key else Expand(KeyAt(key, n - 1), RconAt(n - 1))
  }

  function RconAt(n: nat): bv8 {
    if n == 0 then 1 else Xt(RconAt(n - 1))
  }

  // ----- Whole blocks -----

  /** The state before round i of the encryption. */
  function EncState(key: Key, block: State, i: nat): State
    requires i <= 14
  {
    if i == 0 then block
    else
      var s := ShiftRows(SubBytes(AddKey(EncState(key, block, i - 1), KeyAt(key, (i - 1) / 2), (i - 1) % 2)));
      if i - 1 < 13 then MixColumns(s) else s
  }

  function EncryptBlock(key: Key, block: State): State {
    AddKey(EncState(key, block, 14), KeyAt(key, 7), 0)
  }

  /** The state before round i of the decryption. The round keys come in the order of the rewound schedule. */
  function DecState(key: Key, block: State, i: nat): State
    requires i <= 14
  {
    if i == 0 then block
    else
      var s := AddKey(DecState(key, block, i - 1), KeyAt(key, 7 - i / 2), (i - 1) % 2);
      UnsubBytes(UnshiftRows(if i - 1 > 0 then UnmixColumns(s) else s))
  }

  function DecryptBlock(key: Key, block: State): State {
    AddKey(DecState(key, block, 14), key, 0)
  }

  /** After i + 1 decryption rounds the state is the one inside encryption round 13 - i, right after its key was
      added. */
  lemma {:induction false} RoundsMirror(key: Key, block: State, i: nat)
    requires i < 14
    ensures DecState(key, EncryptBlock(key, block), i + 1)
         == AddKey(EncState(key, block, 13 - i), KeyAt(key, (13 - i) / 2), (13 - i) % 2)
  {
    hide AddKey, SubBytes, UnsubBytes, ShiftRows, UnshiftRows, MixColumns, UnmixColumns, KeyAt, EncState, DecState;
    var c, n := EncryptBlock(key, block), 13 - i;
    var a := AddKey(EncState(key, block, n), KeyAt(key, n / 2), n % 2);
    var before := DecState(key, c, i);
    assert before == AddKey(EncState(key, block, n + 1), KeyAt(key, 7 - (i + 1) / 2), i % 2) by {
      if i == 0 {
        DecStart(key, c);
      } else {
        RoundsMirror(key, block, i - 1);
      }
    }
    UnaddKey(EncState(key, block, n + 1), KeyAt(key, 7 - (i + 1) / 2), i % 2);
    EncStep(key, block, n);
    DecStep(key, c, i);
    UnmixMixColumns(ShiftRows(SubBytes(a)));
    UnshiftShift(SubBytes(a));
    UnsubSub(a);
  }

  lemma DecStart(key: Key, c: State)
    ensures DecState(key, c, 0) == c
  {
  }

  lemma EncStep(key: Key, block: State, i: nat)
    requires i < 14
    ensures EncState(key, block, i + 1)
         == var s := ShiftRows(SubBytes(AddKey(EncState(key, block, i), KeyAt(key, i / 2), i % 2)));
            if i < 13 then MixColumns(s) else s
  {
  }

  lemma DecStep(key: Key, c: State, i: nat)
    requires i < 14
    ensures DecState(key, c, i + 1)
         == var s := AddKey(DecState(key, c, i), KeyAt(key, 7 - (i + 1) / 2), i % 2);
            UnsubBytes(UnshiftRows(if i > 0 then UnmixColumns(s) else s))
  {
  }

  /** Decryption undoes encryption, for every key and block. */
  lemma DecryptUndoesEncrypt(key: Key, block: State)
    ensures DecryptBlock(key, EncryptBlock(key, block)) == block
  {
    hide AddKey;
    RoundsMirror(key, block, 13);
    assert EncState(key, block, 0) == block && KeyAt(key, 0) == key;
    UnaddKey(block, key, 0);
  }

  // ----- The code: state and schedule rewritten in place -----

  method AddRoundKey(x: array<bv8>, k: array<bv8>, half: nat)
    requires x.Length == 16 && k.Length == 32 && x != k && half < 2
    modifies x
    ensures x[..] == AddKey(old(x[..]), k[..], half)
  {
    hide Add;
    for j := 0 to 16
      invariant forall t :: 0 <= t < 16 ==> x[t] == if t < j then AddKey(old(x[..]), k[..], half)[t] else old(x[t])
    {
      x[j] := Add(x[j], k[j + half * 16]);
    }
  }

  method Substitute(x: array<bv8>, box: bv8 -> bv8)
    requires x.Length == 16
    modifies x
    ensures forall t :: 0 <= t < 16 ==> x[t] == box(old(x[t]))
  {
    for j := 0 to 16
      invariant forall t :: 0 <= t < 16 ==> x[t] == if t < j then box(old(x[t])) else old(x[t])
    {
      x[j] := box(x[j]);
    }
  }

  /** Moves the bytes at four places, each to the one before it in the list. */
  method Rotate(x: array<bv8>, a: nat, b: nat, c: nat, d: nat)
    requires x.Length == 16 && a < 16 && b < 16 && c < 16 && d < 16
    requires a != b && a != c && a != d && b != c && b != d && c != d
    modifies x
    ensures x[a] == old(x[b]) && x[b] == old(x[c]) && x[c] == old(x[d]) && x[d] == old(x[a])
    ensures forall t :: 0 <= t < 16 && t != a && t != b && t != c && t != d ==> x[t] == old(x[t])
  {
    var t := x[a];
    x[a] := x[b];
    x[b] := x[c];
    x[c] := x[d];
    x[d] := t;
  }

  method Exchange(x: array<bv8>, a: nat, b: nat)
    requires x.Length == 16 && a < 16 && b < 16
    modifies x
    ensures x[a] == old(x[b]) && x[b] == old(x[a])
    ensures forall t :: 0 <= t < 16 && t != a && t != b ==> x[t] == old(x[t])
  {
    x[a], x[b] := x[b], x[a];
  }

  lemma IsShifted(s: seq<bv8>, x: seq<bv8>)
    requires |s| == |x| == 16
    requires x[0] == s[0] && x[1] == s[5] && x[2] == s[10] && x[3] == s[15]
    requires x[4] == s[4] && x[5] == s[9] && x[6] == s[14] && x[7] == s[3]
    requires x[8] == s[8] && x[9] == s[13] && x[10] == s[2] && x[11] == s[7]
    requires x[12] == s[12] && x[13] == s[1] && x[14] == s[6] && x[15] == s[11]
    ensures x == ShiftRows(s)
  {
  }

  lemma IsUnshifted(s: seq<bv8>, x: seq<bv8>)
    requires |s| == |x| == 16
    requires x[0] == s[0] && x[1] == s[13] && x[2] == s[10] && x[3] == s[7]
    requires x[4] == s[4] && x[5] == s[1] && x[6] == s[14] && x[7] == s[11]
    requires x[8] == s[8] && x[9] == s[5] && x[10] == s[2] && x[11] == s[15]
    requires x[12] == s[12] && x[13] == s[9] && x[14] == s[6] && x[15] == s[3]
    ensures x == UnshiftRows(s)
  {
  }

  method ShiftInPlace(x: array<bv8>)
    requires x.Length == 16
    modifies x
    ensures x[..] == ShiftRows(old(x[..]))
  {
    hide ShiftRows;
    ghost var s := x[..];
    Rotate(x, 1, 5, 9, 13);
    Exchange(x, 10, 2);
    Rotate(x, 3, 15, 11, 7);
    Exchange(x, 14, 6);
    assert x[0] == s[0] && x[1] == s[5] && x[2] == s[10] && x[3] == s[15];
    assert x[4] == s[4] && x[5] == s[9] && x[6] == s[14] && x[7] == s[3];
    assert x[8] == s[8] && x[9] == s[13] && x[10] == s[2] && x[11] == s[7];
    assert x[12] == s[12] && x[13] == s[1] && x[14] == s[6] && x[15] == s[11];
    IsShifted(s, x[..]);
  }

  method UnshiftInPlace(x: array<bv8>)
    requires x.Length == 16
    modifies x
    ensures x[..] == UnshiftRows(old(x[..]))
  {
    hide UnshiftRows;
    ghost var s := x[..];
    Rotate(x, 1, 13, 9, 5);
    Exchange(x, 2, 10);
    Rotate(x, 3, 7, 11, 15);
    Exchange(x, 6, 14);
    assert x[0] == s[0] && x[1] == s[13] && x[2] == s[10] && x[3] == s[7];
    assert x[4] == s[4] && x[5] == s[1] && x[6] == s[14] && x[7] == s[11];
    assert x[8] == s[8] && x[9] == s[5] && x[10] == s[2] && x[11] == s[15];
    assert x[12] == s[12] && x[13] == s[9] && x[14] == s[6] && x[15] == s[3];
    IsUnshifted(s, x[..]);
  }

  method MixInPlace(x: array<bv8>)
    requires x.Length == 16
    modifies x
    ensures x[..] == MixColumns(old(x[..]))
  {
    hide Add, Xt, Sum4, MixColumns, Mix;
    ghost var s := x[..];
    for q := 0 to 4
      invariant forall t :: 0 <= t < 16 ==> x[t] == if t < 4 * q then MixColumns(s)[t] else s[t]
    {
      var j := 4 * q;
      var a, b, c, d := x[j], x[j + 1], x[j + 2], x[j + 3];
      var e := Sum4(a, b, c, d);
      x[j], x[j + 1] := Add(x[j], Add(e, Xt(Add(a, b)))), Add(x[j + 1], Add(e, Xt(Add(b, c))));
      x[j + 2], x[j + 3] := Add(x[j + 2], Add(e, Xt(Add(c, d)))), Add(x[j + 3], Add(e, Xt(Add(d, a))));
      MixDefinition(a, b, c, d);
      MixedColumn(s, q);
    }
  }

  lemma MixDefinition(a: bv8, b: bv8, c: bv8, d: bv8)
    ensures var e := Sum4(a, b, c, d);
            Mix(a, b, c, d) == (Add(a, Add(e, Xt(Add(a, b)))), Add(b, Add(e, Xt(Add(b, c)))),
                                Add(c, Add(e, Xt(Add(c, d)))), Add(d, Add(e, Xt(Add(d, a)))))
  {
  }

  method UnmixInPlace(x: array<bv8>)
    requires x.Length == 16
    modifies x
    ensures x[..] == UnmixColumns(old(x[..]))
  {
    hide Add, Xt, Sum4, UnmixColumns, Unmix;
    ghost var s := x[..];
    for q := 0 to 4
      invariant forall t :: 0 <= t < 16 ==> x[t] == if t < 4 * q then UnmixColumns(s)[t] else s[t]
    {
      var j := 4 * q;
      var a, b, c, d := x[j], x[j + 1], x[j + 2], x[j + 3];
      var e := Sum4(a, b, c, d);
      var h := Xt(e);
      var f, g := Add(e, Xt(Xt(Add(Add(h, a), c)))), Add(e, Xt(Xt(Add(Add(h, b), d))));
      x[j], x[j + 1] := Add(x[j], Add(f, Xt(Add(a, b)))), Add(x[j + 1], Add(g, Xt(Add(b, c))));
      x[j + 2], x[j + 3] := Add(x[j + 2], Add(f, Xt(Add(c, d)))), Add(x[j + 3], Add(g, Xt(Add(d, a))));
      UnmixDefinition(a, b, c, d);
      UnmixedColumn(s, q);
    }
  }

  lemma UnmixDefinition(a: bv8, b: bv8, c: bv8, d: bv8)
    ensures var e := Sum4(a, b, c, d);
            var f, g := Add(e, Xt(Xt(Add(Add(Xt(e), a), c)))), Add(e, Xt(Xt(Add(Add(Xt(e), b), d))));
            Unmix(a, b, c, d) == (Add(a, Add(f, Xt(Add(a, b)))), Add(b, Add(g, Xt(Add(b, c)))),
                                  Add(c, Add(f, Xt(Add(c, d)))), Add(d, Add(g, Xt(Add(d, a)))))
  {
  }

  /** The schedule after its first j bytes were replaced. */
  ghost predicate PartlyExpanded(k: seq<bv8>, key: Key, r: bv8, j: nat)
    requires |k| == 32
  {
    forall t | 0 <= t < 32 :: k[t] == if t < j then NextByte(key, r, t) else key[t]
  }

  /** Replacing byte j by its successor carries the expansion one byte further. */
  lemma ExpandByte(k: seq<bv8>, key: Key, r: bv8, j: nat)
    requires |k| == 32 && 4 <= j < 32 && PartlyExpanded(k, key, r, j)
    ensures PartlyExpanded(k[j := Add(k[j], if 16 <= j < 20 then Sbox(k[j - 4]) else k[j - 4])], key, r, j + 1)
  {
    hide Add, Sbox, NextByte;
    LaterByte(key, r, j);
  }

  lemma ExpandWord(key: Key, r: bv8)
    ensures PartlyExpanded(key[0 := Add(key[0], Add(Sbox(key[29]), r))][1 := Add(key[1], Add(Sbox(key[30]), 0))]
                           [2 := Add(key[2], Add(Sbox(key[31]), 0))]
                           [3 := Add(key[3], Add(Sbox(key[28]), 0))], key, r, 4)
  {
    hide Add, Sbox, NextByte;
    FirstWord(key, r);
  }

  method ExpandInPlace(k: array<bv8>, r: bv8) returns (r': bv8)
    requires k.Length == 32
    modifies k
    ensures k[..] == Expand(old(k[..]), r) && r' == Xt(r)
  {
    hide Add, Sbox, Xt, NextByte, Expand, PartlyExpanded;
    ghost var key := k[..];
    k[0], k[1] := Add(k[0], Add(Sbox(k[29]), r)), Add(k[1], Add(Sbox(k[30]), 0));
    k[2], k[3] := Add(k[2], Add(Sbox(k[31]), 0)), Add(k[3], Add(Sbox(k[28]), 0));
    r' := Xt(r);
    ExpandWord(key, r);
    for j := 4 to 16
      invariant PartlyExpanded(k[..], key, r, j)
    {
      ExpandByte(k[..], key, r, j);
      k[j] := Add(k[j], k[j - 4]);
    }
    for j := 16 to 20
      invariant PartlyExpanded(k[..], key, r, j)
    {
      ExpandByte(k[..], key, r, j);
      k[j] := Add(k[j], Sbox(k[j - 4]));
    }
    for j := 20 to 32
      invariant PartlyExpanded(k[..], key, r, j)
    {
      ExpandByte(k[..], key, r, j);
      k[j] := Add(k[j], k[j - 4]);
    }
    ExpandedFully(k[..], key, r);
  }

  lemma ExpandedFully(k: Key, key: Key, r: bv8)
    requires PartlyExpanded(k, key, r, 32)
    ensures k == Expand(key, r)
  {
    hide NextByte;
  }

  lemma FirstWord(k: Key, r: bv8)
    ensures NextByte(k, r, 0) == Add(k[0], Add(Sbox(k[29]), r)) && NextByte(k, r, 1) == Add(k[1], Add(Sbox(k[30]), 0))
    ensures NextByte(k, r, 2) == Add(k[2], Add(Sbox(k[31]), 0)) && NextByte(k, r, 3) == Add(k[3], Add(Sbox(k[28]), 0))
  {
    hide Add, Sbox;
  }

  lemma LaterByte(k: Key, r: bv8, j: nat)
    requires 4 <= j < 32
    ensures NextByte(k, r, j) == Add(k[j], if 16 <= j < 20 then Sbox(NextByte(k, r, j - 4)) else NextByte(k, r, j - 4))
  {
  }

  /** Takes one expansion back. */
  method UnexpandInPlace(k: array<bv8>, r: bv8, ghost key: Key, ghost rcon: bv8) returns (r': bv8)
    requires k.Length == 32 && k[..] == Expand(key, rcon) && r == Xt(rcon)
    modifies k
    ensures k[..] == key && r' == rcon
  {
    hide Add, Sbox, Xt, XtInv, NextByte, Expand, PartlyExpanded;
    ExpandedBytes(key, rcon);
    var j := 28;
    while j > 16
      invariant 16 <= j <= 28 && PartlyExpanded(k[..], key, rcon, j + 4)
    {
      RewoundByte(k[..], key, rcon, j + 3);
      k[j + 3] := Add(k[j + 3], k[j - 1]);
      j := j - 1;
    }
    j := 19;
    while j >= 16
      invariant 15 <= j <= 19 && PartlyExpanded(k[..], key, rcon, j + 1)
    {
      RewoundByte(k[..], key, rcon, j);
      k[j] := Add(k[j], Sbox(k[j - 4]));
      j := j - 1;
    }
    j := 12;
    while j > 0
      invariant 0 <= j <= 12 && PartlyExpanded(k[..], key, rcon, j + 4)
    {
      RewoundByte(k[..], key, rcon, j + 3);
      k[j + 3] := Add(k[j + 3], k[j - 1]);
      j := j - 1;
    }
    XtInverse(rcon);
    r' := XtInv(r);
    RewoundWord(k[..], key, rcon);
    k[0], k[1] := Add(k[0], Add(Sbox(k[29]), r')), Add(k[1], Add(Sbox(k[30]), 0));
    k[2], k[3] := Add(k[2], Add(Sbox(k[31]), 0)), Add(k[3], Add(Sbox(k[28]), 0));
  }

  lemma ExpandedBytes(key: Key, r: bv8)
    ensures PartlyExpanded(Expand(key, r), key, r, 32)
  {
    hide NextByte;
  }

  /** Taking the successor step of byte j back. */
  lemma RewoundByte(k: seq<bv8>, key: Key, r: bv8, j: nat)
    requires |k| == 32 && 4 <= j < 32 && PartlyExpanded(k, key, r, j + 1)
    ensures PartlyExpanded(k[j := Add(k[j], if 16 <= j < 20 then Sbox(k[j - 4]) else k[j - 4])], key, r, j)
  {
    hide Add, Sbox, NextByte;
    RewindByte(key, r, j);
  }

  lemma RewoundWord(k: seq<bv8>, key: Key, r: bv8)
    requires |k| == 32 && PartlyExpanded(k, key, r, 4)
    ensures k[0 := Add(k[0], Add(Sbox(k[29]), r))][1 := Add(k[1], Add(Sbox(k[30]), 0))]
             [2 := Add(k[2], Add(Sbox(k[31]), 0))][3 := Add(k[3], Add(Sbox(k[28]), 0))] == key
  {
    hide Add, Sbox, NextByte;
    RewindWord(key, r);
  }

  lemma RewindByte(k: Key, r: bv8, j: nat)
    requires 4 <= j < 32
    ensures 16 <= j < 20 ==> Add(NextByte(k, r, j), Sbox(NextByte(k, r, j - 4))) == k[j]
    ensures !(16 <= j < 20) ==> Add(NextByte(k, r, j), NextByte(k, r, j - 4)) == k[j]
  {
    hide Add, Sbox, NextByte;
    LaterByte(k, r, j);
    AddCancel(k[j], if 16 <= j < 20 then Sbox(NextByte(k, r, j - 4)) else NextByte(k, r, j - 4));
  }

  lemma RewindWord(k: Key, r: bv8)
    ensures Add(NextByte(k, r, 0), Add(Sbox(k[29]), r)) == k[0] && Add(NextByte(k, r, 1), Add(Sbox(k[30]), 0)) == k[1]
    ensures Add(NextByte(k, r, 2), Add(Sbox(k[31]), 0)) == k[2] && Add(NextByte(k, r, 3), Add(Sbox(k[28]), 0)) == k[3]
  {
    hide Add, Sbox, NextByte;
    FirstWord(k, r);
    AddCancel(k[0], Add(Sbox(k[29]), r));
    AddCancel(k[1], Add(Sbox(k[30]), 0));
    AddCancel(k[2], Add(Sbox(k[31]), 0));
    AddCancel(k[3], Add(Sbox(k[28]), 0));
  }

  method EncryptInPlace(key32: Key, buf16: array<bv8>)
    requires buf16.Length == 16
    modifies buf16
    ensures buf16[..] == EncryptBlock(key32, old(buf16[..]))
  {
    hide AddKey, SubBytes, ShiftRows, MixColumns, Expand, Xt, Sbox;
    ghost var block := buf16[..];
    var k := new bv8[32](i requires 0 <= i < 32 => key32[i]);
    var r := 1;
    assert k[..] == key32;
    for i := 0 to 14
      invariant buf16[..] == EncState(key32, block, i) && k[..] == KeyAt(key32, i / 2) && r == RconAt(i / 2)
    {
      AddRoundKey(buf16, k, i % 2);
      Substitute(buf16, Sbox);
      assert buf16[..] == SubBytes(AddKey(EncState(key32, block, i), k[..], i % 2)) by {
        SubBytesMeaning(AddKey(EncState(key32, block, i), k[..], i % 2));
      }
      ShiftInPlace(buf16);
      if i < 13 { MixInPlace(buf16); }
      if i % 2 != 0 { r := ExpandInPlace(k, r); }
    }
    AddRoundKey(buf16, k, 0);
  }

  lemma SubBytesMeaning(s: State)
    ensures forall j :: 0 <= j < 16 ==> SubBytes(s)[j] == Sbox(s[j])
  {
    hide Sbox;
  }

  lemma UnsubBytesMeaning(s: State)
    ensures forall j :: 0 <= j < 16 ==> UnsubBytes(s)[j] == SboxInv(s[j])
  {
    hide SboxInv;
  }

  lemma KeyStart(key: Key)
    ensures KeyAt(key, 0) == key && RconAt(0) == 1
  {
  }

  lemma KeyStep(key: Key, n: nat)
    ensures KeyAt(key, n + 1) == Expand(KeyAt(key, n), RconAt(n)) && RconAt(n + 1) == Xt(RconAt(n))
  {
    hide Expand, Xt;
  }

  method DecryptInPlace(key32: Key, buf16: array<bv8>)
    requires buf16.Length == 16
    modifies buf16
    ensures buf16[..] == DecryptBlock(key32, old(buf16[..]))
  {
    hide AddKey, UnsubBytes, UnshiftRows, UnmixColumns, Expand, Xt, SboxInv, Sbox, KeyAt, RconAt, DecState;
    ghost var block := buf16[..];
    var k := new bv8[32](i requires 0 <= i < 32 => key32[i]);
    var r := 1;
    assert k[..] == key32;
    KeyStart(key32);
    DecStart(key32, block);
    for i := 0 to 7
      invariant k[..] == KeyAt(key32, i) && r == RconAt(i) && buf16[..] == block
    {
      KeyStep(key32, i);
      r := ExpandInPlace(k, r);
    }
    for i := 0 to 14
      invariant buf16[..] == DecState(key32, block, i)
      invariant k[..] == KeyAt(key32, 7 - (i + 1) / 2) && r == RconAt(7 - (i + 1) / 2)
    {
      DecStep(key32, block, i);
      AddRoundKey(buf16, k, i % 2);
      if i > 0 { UnmixInPlace(buf16); }
      UnshiftInPlace(buf16);
      ghost var s: State := buf16[..];
      UnsubBytesMeaning(s);
      Substitute(buf16, SboxInv);
      assert buf16[..] == UnsubBytes(s);
      if i % 2 == 0 {
        ghost var n := 6 - i / 2;
        KeyStep(key32, n);
        r := UnexpandInPlace(k, r, KeyAt(key32, n), RconAt(n));
      }
    }
    AddRoundKey(buf16, k, 0);
  }
}
