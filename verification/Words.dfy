/** Machine words as natural numbers: truncation to 32 and 64 bits, bitwise and/or defined bit by bit,
    and the facts that turn masks and disjoint ors into division, remainder and addition. */
module Words {
  type Byte = x: nat | x < 0x100
  type Word = x: nat | x < 0x1_0000_0000

  /** Hashes are 32 bytes long; nothing else is known of them. */
  ghost predicate Digest(hash: seq<Byte> -> seq<Byte>) {
    forall x :: |hash(x)| == 32
  }

  function U32(x: nat): Word {
    x % 0x1_0000_0000
  }

  function U64(x: nat): nat {
    x % 0x1_0000_0000_0000_0000
  }

  function BothOdd(a: nat, b: nat): nat {
    if a % 2 == 1 && b % 2 == 1 then 1 else 0
  }

  function And(a: nat, b: nat): nat {
    if a == 0 || b == 0 then 0 else BothOdd(a, b) + 2 * And(a / 2, b / 2)
  }

  function Or(a: nat, b: nat): nat {
    if a == 0 then b
    else if b == 0 then a
    else (if a % 2 == 1 || b % 2 == 1 then 1 else 0) + 2 * Or(a / 2, b / 2)
  }

  function Pow2(n: nat): (p: nat)
    ensures p > 0
  {
    if n == 0 then 1 else 2 * Pow2(n - 1)
  }

  lemma Pow2Values()
    ensures Pow2(6) == 0x40 && Pow2(12) == 0x1000 && Pow2(18) == 0x4_0000 && Pow2(26) == 0x400_0000
    ensures Pow2(8) == 0x100 && Pow2(14) == 0x4000 && Pow2(20) == 0x10_0000 && Pow2(24) == 0x100_0000
    ensures Pow2(32) == 0x1_0000_0000
  {
    assert Pow2(6) == 0x40;
    assert Pow2(12) == 0x1000;
    assert Pow2(18) == 0x4_0000;
    assert Pow2(24) == 0x100_0000;
    assert Pow2(30) == 0x4000_0000;
  }

  /** Quotient and remainder are the only pair with these two properties. */
  lemma DivModUnique(a: nat, d: nat, q: nat, r: nat)
    requires r < d && a == d * q + r
    ensures a / d == q && a % d == r
  {
    var q', r' := a / d, a % d;
    DivModIdentity(a, d);
    Distribute(d, q, q');
    if q > q' {
      AtLeastFactor(d, q - q');
    } else if q < q' {
      Distribute(d, q', q);
      AtLeastFactor(d, q' - q);
    }
  }

  lemma DivModIdentity(a: nat, d: nat)
    requires d > 0
    ensures a == d * (a / d) + a % d && 0 <= a % d < d
  {
  }

  lemma Distribute(d: int, x: int, y: int)
    ensures d * (x - y) == d * x - d * y
  {
  }

  lemma AtLeastFactor(d: nat, k: int)
    requires k >= 1
    ensures d * k >= d
  {
  }

  lemma DoubleProduct(p: nat, x: nat)
    ensures (2 * p) * x == 2 * (p * x)
  {
  }

  /** Halving a number given by its low k bits and the rest. */
  lemma HalfOfJoin(lo: nat, hi: nat, k: nat)
    requires k > 0
    ensures (lo + Pow2(k) * hi) % 2 == lo % 2
    ensures (lo + Pow2(k) * hi) / 2 == lo / 2 + Pow2(k - 1) * hi
  {
    DoubleProduct(Pow2(k - 1), hi);
  }

  /** `&` works independently below and above any bit position. */
  lemma {:induction false} AndJoin(lo1: nat, hi1: nat, lo2: nat, hi2: nat, k: nat)
    requires lo1 < Pow2(k) && lo2 < Pow2(k)
    ensures And(lo1 + Pow2(k) * hi1, lo2 + Pow2(k) * hi2) == And(lo1, lo2) + Pow2(k) * And(hi1, hi2)
  {
    if k > 0 {
      AndHalf(lo1 + Pow2(k) * hi1, lo2 + Pow2(k) * hi2);
      HalfOfJoin(lo1, hi1, k);
      HalfOfJoin(lo2, hi2, k);
      AndJoin(lo1 / 2, hi1, lo2 / 2, hi2, k - 1);
      AndHalf(lo1, lo2);
      DoubleProduct(Pow2(k - 1), And(hi1, hi2));
    }
  }

  lemma AndHalf(a: nat, b: nat)
    ensures And(a, b) == BothOdd(a, b) + 2 * And(a / 2, b / 2)
  {
    if a == 0 || b == 0 {
    }
  }

  /** Masking with k one bits keeps the low k bits. */
  lemma {:induction false} AndOnes(lo: nat, hi: nat, k: nat)
    requires lo < Pow2(k)
    ensures And(lo + Pow2(k) * hi, Pow2(k) - 1) == lo
  {
    if k > 0 {
      hide And, Pow2;
      AndHalf(lo + Pow2(k) * hi, Pow2(k) - 1);
      HalfOfJoin(lo, hi, k);
      OnesHalved(k);
      AndOnes(lo / 2, hi, k - 1);
    }
  }

  lemma OnesHalved(k: nat)
    requires k > 0
    ensures Pow2(k) == 2 * Pow2(k - 1) && (Pow2(k) - 1) / 2 == Pow2(k - 1) - 1 && (Pow2(k) - 1) % 2 == 1
  {
  }

  /** The `or` of numbers without common bit positions is their sum. */
  lemma {:induction false} OrDisjoint(lo: nat, hi: nat, k: nat)
    requires lo < Pow2(k)
    ensures Or(lo, Pow2(k) * hi) == lo + Pow2(k) * hi
  {
    if k > 0 && lo > 0 && hi > 0 {
      HalfOfJoin(0, hi, k);
      OrDisjoint(lo / 2, hi, k - 1);
    }
  }

  lemma HalfThenShift(x: nat, i: nat)
    requires i > 0
    ensures x / Pow2(i) == (x / 2) / Pow2(i - 1)
  {
    var p := Pow2(i - 1);
    var q, r := (x / 2) / p, (x / 2) % p;
    DivModIdentity(x / 2, p);
    DoubleProduct(p, q);
    DivModUnique(x, 2 * p, q, 2 * r + x % 2);
  }

  /** Little-endian value of a byte string. */
  function LE(bytes: seq<Byte>): nat {
    if bytes == [] then 0 else bytes[0] + 0x100 * LE(bytes[1..])
  }

  function FourBytes(b0: nat, b1: nat, b2: nat, b3: nat): nat {
    b0 + 0x100 * b1 + 0x1_0000 * b2 + 0x100_0000 * b3
  }

  /** le32 of the four bytes at off. */
  function Le32(b: seq<Byte>, off: nat): Word
    requires off + 4 <= |b|
  {
    FourBytes(b[off], b[off + 1], b[off + 2], b[off + 3])
  }

  lemma LE16(b: seq<Byte>)
    requires |b| == 16
    ensures LE(b) == Le32(b, 0) + 0x1_0000_0000 * Le32(b, 4) + 0x1_0000_0000_0000_0000 * Le32(b, 8)
                     + 0x1_0000_0000_0000_0000_0000_0000 * Le32(b, 12)
  {
    LEFour(b, 0);
    LEFour(b, 4);
    LEFour(b, 8);
    LEFour(b, 12);
    assert b[0..] == b;
    assert LE(b[16..]) == 0;
  }

  lemma LEFour(b: seq<Byte>, off: nat)
    requires off + 4 <= |b|
    ensures LE(b[off..]) == Le32(b, off) + 0x1_0000_0000 * LE(b[off + 4..])
  {
    assert b[off..][1..] == b[off + 1..];
    assert b[off + 1..][1..] == b[off + 2..];
    assert b[off + 2..][1..] == b[off + 3..];
    assert b[off + 3..][1..] == b[off + 4..];
    assert LE(b[off..]) == b[off] + 0x100 * LE(b[off + 1..]);
    assert LE(b[off + 1..]) == b[off + 1] + 0x100 * LE(b[off + 2..]);
    assert LE(b[off + 2..]) == b[off + 2] + 0x100 * LE(b[off + 3..]);
    assert LE(b[off + 3..]) == b[off + 3] + 0x100 * LE(b[off + 4..]);
  }

  function Pow256(n: nat): (p: nat)
    ensures p > 0
  {
    if n == 0 then 1 else 0x100 * Pow256(n - 1)
  }

  lemma {:induction false} LEAppend(a: seq<Byte>, b: seq<Byte>)
    ensures LE(a + b) == LE(a) + Pow256(|a|) * LE(b)
  {
    if a == [] {
      assert a + b == b;
    } else {
      assert (a + b)[1..] == a[1..] + b;
      LEAppend(a[1..], b);
      PullFactor(Pow256(|a| - 1), LE(b));
    }
  }

  lemma PullFactor(p: nat, x: nat)
    ensures (0x100 * p) * x == 0x100 * (p * x)
  {
  }

  lemma {:induction false} LEZeros(n: nat)
    ensures LE(seq(n, _ => 0)) == 0
  {
    if n > 0 {
      assert seq(n, _ => 0)[1..] == seq(n - 1, _ => 0);
      LEZeros(n - 1);
    }
  }

  function ToLE(v: nat, n: nat): (b: seq<Byte>)
    ensures |b| == n
  {
    if n == 0 then [] else [v % 0x100] + ToLE(v / 0x100, n - 1)
  }

  lemma {:induction false} ToLEOfLE(b: seq<Byte>)
    ensures ToLE(LE(b), |b|) == b
  {
    if b != [] {
      hide LE;
      LowestByte(b);
      ToLEOfLE(b[1..]);
      assert b == [b[0]] + b[1..];
    }
  }

  lemma LowestByte(b: seq<Byte>)
    requires b != []
    ensures LE(b) % 0x100 == b[0] && LE(b) / 0x100 == LE(b[1..])
  {
    hide LE;
    assert LE(b) == b[0] + 0x100 * LE(b[1..]) by { LEHead(b); }
    DivModUnique(LE(b), 0x100, LE(b[1..]), b[0]);
  }

  lemma LEHead(b: seq<Byte>)
    requires b != []
    ensures LE(b) == b[0] + 0x100 * LE(b[1..])
  {
  }

  lemma LEInjective(a: seq<Byte>, b: seq<Byte>)
    requires |a| == |b| && LE(a) == LE(b)
    ensures a == b
  {
    ToLEOfLE(a);
    ToLEOfLE(b);
  }

  lemma {:induction false} LEBelow(b: seq<Byte>)
    ensures LE(b) < Pow256(|b|)
  {
    if b != [] {
      LEBelow(b[1..]);
    }
  }

  lemma {:induction false} LEOfToLE(v: nat, n: nat)
    requires v < Pow256(n)
    ensures LE(ToLE(v, n)) == v
  {
    if n > 0 {
      LEOfToLE(v / 0x100, n - 1);
    }
  }

  lemma {:induction false} Pow2Monotone(i: nat, j: nat)
    requires i <= j
    ensures Pow2(i) <= Pow2(j)
    decreases j
  {
    if i < j {
      Pow2Monotone(i, j - 1);
    }
  }
}
