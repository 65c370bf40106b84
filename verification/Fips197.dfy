/** AES-256 as FIPS 197 defines it: the field, the affine map of the S-box, and the cipher. */
module Fips197 {
  // ----- The field of section 4.2 -----

  function Plus(a: bv8, b: bv8): bv8 {
    a ^ b
  }

  /** The product of two polynomials over GF(2), bit i standing for x^i. */
  function Product(a: bv8, b: bv8): bv16 {
    (if b & 0x01 != 0 then a as bv16 else 0) ^ (if b & 0x02 != 0 then (a as bv16) << 1 else 0) ^
    (if b & 0x04 != 0 then (a as bv16) << 2 else 0) ^ (if b & 0x08 != 0 then (a as bv16) << 3 else 0) ^
    (if b & 0x10 != 0 then (a as bv16) << 4 else 0) ^ (if b & 0x20 != 0 then (a as bv16) << 5 else 0) ^
    (if b & 0x40 != 0 then (a as bv16) << 6 else 0) ^ (if b & 0x80 != 0 then (a as bv16) << 7 else 0)
  }

  /** Takes a multiple of x^8 + x^4 + x^3 + x + 1 off a polynomial that has the multiple's leading power. */
  function Reduce(p: bv16, top: bv16, multiple: bv16): bv16 {
    if p & top != 0 then p ^ multiple else p
  }

  /** The remainder of the product by that polynomial. */
  function Times(a: bv8, b: bv8): bv8 {
    var p6 := Reduce(Product(a, b), 0x4000, 0x46c0);
    var p5 := Reduce(p6, 0x2000, 0x2360);
    var p4 := Reduce(p5, 0x1000, 0x11b0);
    var p3 := Reduce(p4, 0x0800, 0x08d8);
    var p2 := Reduce(p3, 0x0400, 0x046c);
    var p1 := Reduce(p2, 0x0200, 0x0236);
    (Reduce(p1, 0x0100, 0x011b) & 0xff) as bv8
  }

  /** The affine map of section 5.1.1: bit i is the sum of bits i, i + 4, .., i + 7 modulo 8 and bit i of 0x63. */
  function Affine(b: bv8): bv8 {
    b ^ b.RotateLeft(1) ^ b.RotateLeft(2) ^ b.RotateLeft(3) ^ b.RotateLeft(4) ^ 0x63
  }

  // ----- The cipher of section 5.1, for any S-box -----

  type State = s: seq<bv8> | |s| == 16 witness seq(16, _ => 0)
  type Key = k: seq<bv8> | |k| == 32 witness seq(32, _ => 0)
  type Word = w: seq<bv8> | |w| == 4 witness seq(4, _ => 0)
  type Substitution = bv8 -> bv8

  /** Row r and column c. */
  function At(s: State, r: nat, c: nat): bv8
    requires r < 4 && c < 4
  {
    s[r + 4 * c]
  }

  function SubBytes(sub: Substitution, s: State): State {
    seq(16, j requires 0 <= j < 16 => sub(s[j]))
  }

  function ShiftRows(s: State): State {
    seq(16, j requires 0 <= j < 16 => At(s, j % 4, (j / 4 + j % 4) % 4))
  }

  function MixColumns(s: State): State {
    seq(16, j requires 0 <= j < 16 => MixedByte(s, j % 4, j / 4))
  }

  function MixedByte(s: State, r: nat, c: nat): bv8
    requires r < 4 && c < 4
  {
    Plus(Plus(Times(At(s, r, c), 2), Times(At(s, (r + 1) % 4, c), 3)),
         Plus(At(s, (r + 2) % 4, c), At(s, (r + 3) % 4, c)))
  }

  function AddRoundKey(sub: Substitution, key: Key, s: State, round: nat): State {
    seq(16, j requires 0 <= j < 16 => Plus(s[j], KeyWord(sub, key, 4 * round + j / 4)[j % 4]))
  }

  /** x to the power of j - 1. */
  function Rcon(j: nat): bv8 {
    if j <= 1 then 1 else Times(Rcon(j - 1), 2)
  }

  /** The key expansion of section 5.2, for keys of eight words. */
  function KeyWord(sub: Substitution, key: Key, i: nat): Word {
    if i < 8 then key[4 * i..4 * i + 4]
    else
      var w, t := KeyWord(sub, key, i - 8), KeyWord(sub, key, i - 1);
      seq(4, b requires 0 <= b < 4 => Plus(w[b], Turned(sub, t, i, b)))
  }

  /** Byte b of what is added to word i: the word before, its bytes rotated and substituted at the start of eight words,
      or only substituted in their middle. */
  function Turned(sub: Substitution, t: Word, i: nat, b: nat): bv8
    requires b < 4
  {
    if i % 8 == 0 then Plus(sub(t[(b + 1) % 4]), if b == 0 then Rcon(i / 8) else 0)
    else if i % 8 == 4 then sub(t[b])
    else t[b]
  }

  /** The state after n rounds. */
  function Rounds(sub: Substitution, key: Key, block: State, n: nat): State {
    if n == 0 then AddRoundKey(sub, key, block, 0)
    else
      var s := ShiftRows(SubBytes(sub, Rounds(sub, key, block, n - 1)));
      AddRoundKey(sub, key, if n < 14 then MixColumns(s) else s, n)
  }

  function Cipher(sub: Substitution, key: Key, block: State): State {
    Rounds(sub, key, block, 14)
  }
}
