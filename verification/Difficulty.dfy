/** Proof of work: block validity against the compact target, and the difficulty retarget on 3-byte mantissas
    against the exact rule on 256-bit integers. */
module Difficulty {
  import opened Words
  import opened MerkleBlocks
  import opened Options

  datatype Header = Header(prevBlock: Hash, blockHash: Hash, height: Word, timestamp: Word, target: Word)

  const INTERVAL: nat := 2016
  const TIMESPAN: int := 14 * 24 * 60 * 60
  const MAX_SIZE: int := 0x1d
  const MAX_TARGET: nat := 0xffff

  // ----- The rule on exact integers -----

  function Mantissa(target: Word): nat {
    target % 0x100_0000
  }

  function Exponent(target: Word): nat {
    target / 0x100_0000
  }

  function Compact(mantissa: nat, size: nat): nat {
    mantissa + 0x100_0000 * size
  }

  /** The number a compact target stands for, for sizes of at least 3 bytes. */
  function Expand(target: Word): nat
    requires Exponent(target) >= 3
  {
    Product(Mantissa(target), Pow256(Exponent(target) - 3))
  }

  function Product(a: nat, b: nat): nat {
    a * b
  }

  function Quotient(a: nat, b: nat): nat
    requires b > 0
  {
    a / b
  }

  function ByteLength(n: nat): nat {
    if n == 0 then 0 else 1 + ByteLength(n / 0x100)
  }

  /** The compact form: its three top bytes and its length, one byte less when the sign bit would be set. */
  function ToCompact(n: nat): nat {
    var size := ByteLength(n);
    var m: nat := if size <= 3 then Product(n, Pow256(3 - size)) else Quotient(n, Pow256(size - 3));
    if m >= 0x80_0000 then Compact(m / 0x100, size + 1) else Compact(m, size)
  }

  function Limit(): nat {
    MAX_TARGET * Pow256(26)
  }

  function Clamp(timespan: int): (t: nat)
    ensures TIMESPAN / 4 <= t <= TIMESPAN * 4
  {
    if timespan < TIMESPAN / 4 then TIMESPAN / 4
    else if timespan > TIMESPAN * 4 then TIMESPAN * 4
    else timespan
  }

  /** The next target: the previous one scaled by the time taken, at most the limit. */
  function NextTarget(previous: nat, timespan: int): nat {
    var exact := Product(previous, Clamp(timespan)) / TIMESPAN;
    if exact > Limit() then Limit() else exact
  }

  predicate Normal(target: Word) {
    0x8000 <= Mantissa(target) <= 0x7f_ffff && 4 <= Exponent(target) <= 0x1d
  }

  // ----- What the code computes -----

  /** The cast of a 64-bit difference to int. */
  function ToInt32(x: int): (r: int)
    ensures -0x8000_0000 <= r < 0x8000_0000
  {
    (x + 0x8000_0000) % 0x1_0000_0000 - 0x8000_0000
  }

  /** The normalising loop. */
  function Normalize(target: nat, size: int): (nat, nat)
    decreases (if size < 1 then 1 - size else 0), target
  {
    if size < 1 || target > 0x7f_ffff then Normalize(target / 0x100, size + 1) else (target, size)
  }

  /** The compact target the code demands at a transition. */
  function Retarget(previous: Word, timespan: int): nat {
    var scaled := Product(Mantissa(previous), Clamp(timespan)) / (TIMESPAN / 0x100);
    var (target, size) := Normalize(scaled, Exponent(previous) - 1);
    if size > MAX_SIZE || (size == MAX_SIZE && target > MAX_TARGET) then Compact(MAX_TARGET, MAX_SIZE)
    else Compact(target, size)
  }

  // ----- Powers of 256 -----

  lemma {:induction false} Pow256Add(a: nat, b: nat)
    ensures Pow256(a + b) == Pow256(a) * Pow256(b)
  {
    if a > 0 {
      Pow256Add(a - 1, b);
      PullFactor(Pow256(a - 1), Pow256(b));
    }
  }

  lemma {:induction false} Pow256Monotone(a: nat, b: nat)
    requires a <= b
    ensures Pow256(a) <= Pow256(b)
    decreases b
  {
    if a < b {
      Pow256Monotone(a, b - 1);
    }
  }

  lemma {:induction false} ByteLengthBounds(n: nat, len: nat)
    requires len > 0 && Pow256(len - 1) <= n < Pow256(len)
    ensures ByteLength(n) == len
  {
    if len > 1 {
      ByteLengthBounds(n / 0x100, len - 1);
    } else {
      assert n / 0x100 == 0;
    }
  }

  /** m * p is the part of n down to p. */
  predicate Truncates(m: nat, p: nat, n: nat) {
    m * p <= n < (m + 1) * p
  }

  lemma TruncatesDiv(m: nat, p: nat, n: nat)
    requires p > 0 && Truncates(m, p, n)
    ensures n / p == m
  {
    assert n == p * m + (n - m * p);
    assert (m + 1) * p == m * p + p;
    DivModUnique(n, p, m, n - m * p);
  }

  lemma DivTruncates(n: nat, p: nat)
    requires p > 0
    ensures Truncates(n / p, p, n)
  {
    DivModIdentity(n, p);
    assert (n / p + 1) * p == n / p * p + p;
  }

  lemma TruncatesTwice(m: nat, p: nat, x: nat, q: nat, n: nat)
    requires Truncates(m, p, x) && Truncates(x, q, n)
    ensures Truncates(m, p * q, n)
  {
    assert m * (p * q) == (m * p) * q <= x * q by { ScaleUp(m * p, x, q); }
    assert (m + 1) * (p * q) == ((m + 1) * p) * q >= (x + 1) * q by { ScaleUp(x + 1, (m + 1) * p, q); }
  }

  lemma ScaleUp(a: nat, b: nat, q: nat)
    requires a <= b
    ensures a * q <= b * q
  {
  }

  lemma CompactWide(n: nat, m: nat, size: nat)
    requires 0x1_0000 <= m <= 0x7f_ffff && size >= 4 && Truncates(m, Pow256(size - 3), n)
    ensures ToCompact(n) == Compact(m, size)
  {
    hide ByteLength, Pow256;
    var p := Pow256(size - 3);
    TopDigits();
    Pow256Add(2, size - 3);
    Pow256Add(3, size - 3);
    ScaleUp(0x1_0000, m, p);
    ScaleUp(m + 1, 0x100_0000, p);
    ByteLengthBounds(n, size);
    TruncatesDiv(m, p, n);
  }

  lemma CompactNarrow(n: nat, m: nat, size: nat)
    requires 0x8000 <= m < 0x1_0000 && size >= 4 && Truncates(m, Pow256(size - 3), n)
    ensures ToCompact(n) == Compact(m, size)
  {
    hide ByteLength, Pow256;
    var p, q := Pow256(size - 3), Pow256(size - 4);
    Pow256Next(size - 4);
    NarrowLength(n, m, size);
    TopDigits();
    DivTruncates(n, q);
    DivTruncates(n / q, 0x100);
    TruncatesTwice(n / q / 0x100, 0x100, n / q, q, n);
    TruncatesDiv(n / q / 0x100, p, n);
    TruncatesDiv(m, p, n);
    assert n / q / 0x100 == m;
  }

  lemma NarrowLength(n: nat, m: nat, size: nat)
    requires 0x8000 <= m < 0x1_0000 && size >= 4 && Truncates(m, Pow256(size - 3), n)
    ensures ByteLength(n) == size - 1
  {
    hide ByteLength, Pow256;
    var p, q := Pow256(size - 3), Pow256(size - 4);
    TopDigits();
    Pow256Next(size - 4);
    ScaleUp(m + 1, 0x1_0000, p);
    ScaleUp(0x8000, m, p);
    Pow256Add(2, size - 3);
    Pow256Add(2, size - 4);
    ByteLengthBounds(n, size - 1);
  }

  /** A normal mantissa and size that bracket n are its compact form. */
  lemma CompactUnique(n: nat, m: nat, size: nat)
    requires 0x8000 <= m <= 0x7f_ffff && size >= 3 && Truncates(m, Pow256(size - 3), n)
    ensures ToCompact(n) == Compact(m, size)
  {
    hide ToCompact;
    if size == 3 {
      ShortCompact(n);
    } else if m >= 0x1_0000 {
      CompactWide(n, m, size);
    } else {
      CompactNarrow(n, m, size);
    }
  }

  /** Numbers of two or three bytes are their own mantissa. */
  lemma ShortCompact(n: nat)
    requires 0x8000 <= n <= 0x7f_ffff
    ensures ToCompact(n) == Compact(n, 3)
  {
    TopDigits();
    ByteLengthBounds(n, if n >= 0x1_0000 then 3 else 2);
  }

  lemma TopDigits()
    ensures Pow256(0) == 1 && Pow256(1) == 0x100 && Pow256(2) == 0x1_0000 && Pow256(3) == 0x100_0000
  {
  }

  /** The loop drops whole low bytes until the mantissa is normal. */
  lemma {:induction false} NormalizeTruncates(x: nat, size: nat) returns (k: nat)
    requires size >= 1 && x >= 0x8000
    ensures var r := Normalize(x, size);
            0x8000 <= r.0 <= 0x7f_ffff && r.1 == size + k && Truncates(r.0, Pow256(k), x)
  {
    if x > 0x7f_ffff {
      k := NormalizeTruncates(x / 0x100, size + 1);
      DivTruncates(x, 0x100);
      TruncatesTwice(Normalize(x, size).0, Pow256(k), x / 0x100, 0x100, x);
      k := k + 1;
    } else {
      k := 0;
    }
  }

  /** Scaling the 3-byte mantissa by timespan / (TIMESPAN / 256) keeps the top digits of the exact product. */
  lemma ScaledMantissa(m: nat, t: nat, size: nat)
    requires size >= 4
    ensures Truncates(Product(m, t) / (TIMESPAN / 0x100), Pow256(size - 4),
                      Product(Product(m, Pow256(size - 3)), t) / TIMESPAN)
  {
    hide Truncates;
    var q := Pow256(size - 4);
    var a, d := m * t, 4725;
    var x := a / d;
    assert Product(Product(m, Pow256(size - 3)), t) == 0x100 * (a * q) by {
      assert Pow256(size - 3) == 0x100 * q;
      Regroup(m, q, t);
    }
    DivTruncates(a, d);
    DivTruncates(0x100 * (a * q), TIMESPAN);
    FloorOfScaled(x, a, d, q, 0x100 * (a * q) / TIMESPAN);
  }

  lemma Regroup(m: nat, q: nat, t: nat)
    ensures m * (0x100 * q) * t == 0x100 * ((m * t) * q)
  {
  }

  lemma FloorOfScaled(x: nat, a: nat, d: nat, q: nat, y: nat)
    requires d > 0 && q > 0 && Truncates(x, d, a) && Truncates(y, 0x100 * d, 0x100 * (a * q))
    ensures Truncates(x, q, y)
  {
    assert y * d <= a * q < (y + 1) * d by { Divide256(y, d, a * q); }
    FloorAbove(x, a, d, q, y);
    FloorBelow(x, a, d, q, y);
  }

  lemma Divide256(y: nat, d: nat, n: nat)
    requires y * (0x100 * d) <= 0x100 * n < (y + 1) * (0x100 * d)
    ensures y * d <= n < (y + 1) * d
  {
    assert y * (0x100 * d) == 0x100 * (y * d);
    assert (y + 1) * (0x100 * d) == 0x100 * ((y + 1) * d);
  }

  lemma Exchange(x: nat, q: nat, d: nat)
    ensures (x * q) * d == (x * d) * q
  {
  }

  lemma FloorAbove(x: nat, a: nat, d: nat, q: nat, y: nat)
    requires x * d <= a && a * q < (y + 1) * d
    ensures x * q <= y
  {
    Exchange(x, q, d);
    ScaleUp(x * d, a, q);
    if y + 1 <= x * q {
      ScaleUp(y + 1, x * q, d);
      assert false;
    }
  }

  lemma FloorBelow(x: nat, a: nat, d: nat, q: nat, y: nat)
    requires q > 0 && a < (x + 1) * d && y * d <= a * q
    ensures y < (x + 1) * q
  {
    Exchange(x + 1, q, d);
    ScaleUp(a + 1, (x + 1) * d, q);
    assert (a + 1) * q == a * q + q;
    if (x + 1) * q <= y {
      ScaleUp((x + 1) * q, y, d);
      assert false;
    }
  }

  /** No precision is lost: for every normal previous target and every timespan the code demands the compact form
      of the exactly scaled target, limited to the maximum. */
  lemma RetargetIsExact(previous: Word, timespan: int)
    requires Normal(previous)
    ensures Retarget(previous, timespan) == ToCompact(NextTarget(Expand(previous), timespan))
  {
    hide ToCompact, Normalize, ByteLength, Pow256, Product, Compact, Limit;
    ScaledCompact(Mantissa(previous), Exponent(previous), Clamp(timespan));
  }

  lemma ScaledCompact(m: nat, s: nat, t: nat)
    requires 0x8000 <= m && s >= 4 && t >= TIMESPAN / 4
    ensures var r := Normalize(Product(m, t) / (TIMESPAN / 0x100), s - 1);
            var exact := Product(Product(m, Pow256(s - 3)), t) / TIMESPAN;
            ToCompact(if exact > Limit() then Limit() else exact)
            == if r.1 > MAX_SIZE || (r.1 == MAX_SIZE && r.0 > MAX_TARGET) then Compact(MAX_TARGET, MAX_SIZE)
               else Compact(r.0, r.1)
  {
    hide ToCompact, Normalize, ByteLength, Pow256, Truncates, Product, Compact, Limit;
    var x: nat := Product(m, t) / (TIMESPAN / 0x100);
    var exact: nat := Product(Product(m, Pow256(s - 3)), t) / TIMESPAN;
    ScaledIsLarge(m, t);
    ScaledMantissa(m, t, s);
    var k := NormalizeTruncates(x, s - 1);
    var r := Normalize(x, s - 1);
    TruncatesPower(r.0, k, x, s - 4, exact);
    assert k + (s - 4) == r.1 - 3;
    LimitedCompact(exact, r.0, r.1);
  }

  lemma TruncatesPower(m: nat, k: nat, x: nat, j: nat, n: nat)
    requires Truncates(m, Pow256(k), x) && Truncates(x, Pow256(j), n)
    ensures Truncates(m, Pow256(k + j), n)
  {
    hide Truncates, Pow256;
    TruncatesTwice(m, Pow256(k), x, Pow256(j), n);
    Pow256Add(k, j);
  }

  lemma ScaledIsLarge(m: nat, t: nat)
    requires m >= 0x8000 && t >= TIMESPAN / 4
    ensures Product(m, t) / (TIMESPAN / 0x100) >= 0x8000
  {
    ScaleUp(0x8000, m, t);
    assert m * t >= 0x8000 * (TIMESPAN / 4);
  }

  /** Limiting the compact form limits the number. */
  lemma LimitedCompact(n: nat, m: nat, size: nat)
    requires 0x8000 <= m <= 0x7f_ffff && size >= 3 && Truncates(m, Pow256(size - 3), n)
    ensures ToCompact(if n > Limit() then Limit() else n)
         == if size > MAX_SIZE || (size == MAX_SIZE && m > MAX_TARGET) then Compact(MAX_TARGET, MAX_SIZE)
            else Compact(m, size)
  {
    hide ToCompact, Pow256;
    var p, q := Pow256(size - 3), Pow256(26);
    assert Truncates(MAX_TARGET, q, Limit()) by { assert (MAX_TARGET + 1) * q == MAX_TARGET * q + q; }
    CompactUnique(Limit(), MAX_TARGET, MAX_SIZE);
    CompactUnique(n, m, size);
    if size > MAX_SIZE {
      Pow256Monotone(27, size - 3);
      Pow256Next(26);
      ScaleUp(0x8000, m, p);
      ScaleUpBoth(0x8000, 0x100 * q, p);
    } else if size < MAX_SIZE {
      Pow256Monotone(size - 3, 25);
      Pow256Next(25);
      ScaleUp(m + 1, 0x80_0000, p);
      ScaleUpBoth(0x80_0000, p, Pow256(25));
    } else if m > MAX_TARGET {
      ScaleUp(MAX_TARGET + 1, m, q);
    } else if m < MAX_TARGET {
      ScaleUp(m + 1, MAX_TARGET, q);
    }
  }

  lemma Pow256Next(k: nat)
    ensures Pow256(k + 1) == 0x100 * Pow256(k)
  {
  }

  lemma ScaleUpBoth(m: nat, a: nat, b: nat)
    requires a <= b
    ensures m * a <= m * b
  {
  }

  /** The cast to int spoils the limited timespan exactly when the clocks are more than 2^31 seconds apart,
      unless the wrapped value still falls below the lower limit. */
  lemma ClampOfCast(d: int)
    requires -0x1_0000_0000 < d < 0x1_0000_0000
    ensures Clamp(ToInt32(d)) == Clamp(d) <==> CastHarmless(d)
  {
    if d >= 0x8000_0000 {
      assert ToInt32(d) == d - 0x1_0000_0000;
    } else if d < -0x8000_0000 {
      assert ToInt32(d) == d + 0x1_0000_0000;
    } else {
      assert ToInt32(d) == d;
    }
  }

  // ----- The code -----

  predicate Linked(block: Header, previous: Header) {
    block.prevBlock == previous.blockHash && block.height == U32(previous.height as int + 1)
  }

  /** The target rule for a block that follows previous. */
  predicate RightTarget(block: Header, previous: Header, transitionTime: Word) {
    if block.height % INTERVAL != 0 then block.target == previous.target
    else transitionTime != 0 && block.target == Retarget(previous.target, ToInt32(previous.timestamp - transitionTime))
  }

  method VerifyDifficulty(block: Header, previous: Option<Header>, transitionTime: Word) returns (r: bool)
    ensures r <==>
      && previous.Some? && block.prevBlock == previous.value.blockHash
      && block.height == (previous.value.height + 1) % 0x1_0000_0000
      && (if block.height % 2016 != 0 then block.target == previous.value.target
          else
            transitionTime != 0 &&
            block.target == Retarget(previous.value.target, ToInt32(previous.value.timestamp - transitionTime)))
  {
    r := true;
    if previous.None? || !Linked(block, previous.value) { r := false; }
    if r && block.height % INTERVAL == 0 && transitionTime == 0 { r := false; }
    if r && block.height % INTERVAL == 0 {
      var target := TransitionTarget(previous.value.target, ToInt32(previous.value.timestamp - transitionTime));
      if block.target != target { r := false; }
    } else if r && block.target != previous.value.target {
      r := false;
    }
  }

  /** Whether the cast of a difference to int leaves the limited timespan as it is. */
  predicate CastHarmless(d: int) {
    d < 0x8000_0000 && (d >= -0x8000_0000 || d <= TIMESPAN / 4 - 0x1_0000_0000)
  }

  /** On normal targets, for every pair of clocks whose difference the cast does not spoil, a transition block is
      accepted exactly when it has the exactly scaled target. */
  lemma TransitionExact(block: Header, previous: Header, transitionTime: Word)
    requires block.height % INTERVAL == 0 && Normal(previous.target)
    requires CastHarmless(previous.timestamp - transitionTime)
    ensures RightTarget(block, previous, transitionTime) <==>
              transitionTime != 0
              && block.target == ToCompact(NextTarget(Expand(previous.target), previous.timestamp - transitionTime))
  {
    hide ToCompact, Expand, Normal, Normalize, Product, Limit, ToInt32;
    var d := previous.timestamp - transitionTime;
    ClampOfCast(d);
    RetargetIsExact(previous.target, d);
  }

  /** With clocks 2^31 seconds apart the target is divided by 4 where it should be multiplied by 4. */
  lemma WrappedClock()
    ensures Normal(0x1b04_04cb) && !CastHarmless(0x8000_0001 - 1)
    ensures Retarget(0x1b04_04cb, ToInt32(0x8000_0001 - 1)) == 0x1b01_0132
    ensures ToCompact(NextTarget(Expand(0x1b04_04cb), 0x8000_0001 - 1)) == 0x1b10_132c
  {
    hide ToCompact, NextTarget, Expand;
    RetargetIsExact(0x1b04_04cb, 0x8000_0000);
    assert Clamp(-0x8000_0000) == 302400 && Clamp(0x8000_0000) == 4838400;
    assert Product(0x4_04cb, 302400) / 4725 == 0x101_32c0 && Product(0x4_04cb, 4838400) / 4725 == 0x1013_2c00;
    assert Normalize(0x101_32c0, 0x1a) == Normalize(0x1_0132, 0x1b) == (0x1_0132, 0x1b);
    assert Normalize(0x1013_2c00, 0x1a) == Normalize(0x10_132c, 0x1b) == (0x10_132c, 0x1b);
  }

  /** Four transitions of the Bitcoin block chain: the first that made mining harder, one at the easiest target, one
      limited to a quarter and one limited to four times the target. */
  lemma PastTransitions()
    ensures Retarget(0x1d00_ffff, 1262152739 - 1261130161) == 0x1d00_d86a
    ensures Retarget(0x1d00_ffff, 1233061996 - 1231006505) == 0x1d00_ffff
    ensures Retarget(0x1c05_a3f4, 1279297671 - 1279008237) == 0x1c01_68fd
    ensures Retarget(0x1c38_7f6f, 1269211443 - 1263163443) == 0x1d00_e1fd
  {
    assert Product(0xffff, 1022578) / 4725 == 0xd8_6a52 && Product(0xffff, 2055491) / 4725 == 0x1b3_0495;
    assert Product(0x5_a3f4, 302400) / 4725 == 0x168_fd00 && Product(0x38_7f6f, 4838400) / 4725 == 0xe1fd_bc00;
    assert Normalize(0xd8_6a52, 0x1c) == Normalize(0xd86a, 0x1d) == (0xd86a, 0x1d);
    assert Normalize(0x1b3_0495, 0x1c) == Normalize(0x1_b304, 0x1d) == (0x1_b304, 0x1d);
    assert Normalize(0x168_fd00, 0x1b) == Normalize(0x1_68fd, 0x1c) == (0x1_68fd, 0x1c);
    assert Normalize(0xe1fd_bc00, 0x1b) == Normalize(0xe1_fdbc, 0x1c) == Normalize(0xe1fd, 0x1d) == (0xe1fd, 0x1d);
  }

  /** The transition arithmetic, in 64 bits with a signed size. */
  method TransitionTarget(previous: Word, difference: int) returns (compact: Word)
    requires -0x8000_0000 <= difference < 0x8000_0000
    ensures compact == Retarget(previous, difference)
  {
    hide Product, Or, U64, Normalize, Pow2;
    var timespan, size := difference, previous / 0x100_0000;
    var target: nat := previous % 0x100_0000;
    // limit difficulty transition to -75% or +400%
    if timespan < TIMESPAN / 4 { timespan := TIMESPAN / 4; }
    if timespan > TIMESPAN * 4 { timespan := TIMESPAN * 4; }
    NoOverflow64(target, timespan);
    target := U64(Product(target, timespan));
    target := target / (TIMESPAN / 0x100);
    size := size - 1; // decrement size since we only divided by TARGET_TIMESPAN/256
    target, size := NormalizeLoop(target, size);
    // limit to MAX_PROOF_OF_WORK
    if size > MAX_SIZE || (size == MAX_SIZE && target > MAX_TARGET) { target, size := MAX_TARGET, MAX_SIZE; }
    Pow2Values();
    OrDisjoint(target, size, 24);
    compact := Or(target, 0x100_0000 * size);
  }

  method NormalizeLoop(target0: nat, size0: int) returns (target: nat, size: int)
    requires size0 >= -1
    ensures (target, size) == Normalize(target0, size0) && size >= 1 && target <= 0x7f_ffff
  {
    target, size := target0, size0;
    while size < 1 || target > 0x7f_ffff // normalize target for "compact" format
      invariant size >= -1 && Normalize(target0, size0) == Normalize(target, size)
      decreases (if size < 1 then 1 - size else 0), target
    {
      target, size := target / 0x100, size + 1;
    }
  }

  lemma NoOverflow64(target: nat, timespan: nat)
    requires target < 0x100_0000 && timespan <= TIMESPAN * 4
    ensures U64(Product(target, timespan)) == Product(target, timespan)
  {
    ScaleUp(target, 0xff_ffff, timespan);
  }

  // ----- Proof of work of a single block -----

  const BLOCK_MAX_TIME_DRIFT: nat := 2 * 60 * 60

  /** The number a compact target stands for, sizes below 3 dropping its low bytes. */
  function TargetValue(target: Word): nat {
    if Exponent(target) > 3 then Product(Mantissa(target), Pow256(Exponent(target) - 3))
    else Quotient(Mantissa(target), Pow256(3 - Exponent(target)))
  }

  predicate TargetInRange(target: Word) {
    var m, s := Mantissa(target), Exponent(target);
    m != 0 && m < 0x80_0000 && !(s > MAX_SIZE || (s == MAX_SIZE && m > MAX_TARGET))
  }

  /** The easiest target, and one whose size drops two of its three bytes. */
  lemma SomeTargetValues()
    ensures TargetValue(0x1d00_ffff) == 0xffff_0000_0000_0000_0000_0000_0000_0000_0000_0000_0000_0000_0000_0000
    ensures TargetValue(0x0112_3456) == 0x12 && TargetValue(0x0312_3456) == 0x12_3456
    ensures TargetValue(0x0412_3456) == 0x1234_5600
  {
    assert Pow256(2) == 0x1_0000 && Pow256(0) == 1 && Pow256(1) == 0x100;
    PowerOf26();
  }

  lemma PowerOf26()
    ensures Pow256(26) == 0x1_0000_0000_0000_0000_0000_0000_0000_0000_0000_0000_0000_0000_0000
  {
    assert Pow256(2) == 0x1_0000;
    assert Pow256(8) == 0x1_0000_0000_0000_0000;
    assert Pow256(14) == 0x1_0000_0000_0000_0000_0000_0000_0000;
    assert Pow256(20) == 0x1_0000_0000_0000_0000_0000_0000_0000_0000_0000_0000;
  }

  /** The most significant byte in which two numbers differ decides. */
  lemma {:induction false} TopByteDecides(a: seq<Byte>, b: seq<Byte>, i: nat)
    requires |a| == |b| && i < |a| && a[i + 1..] == b[i + 1..] && a[i] < b[i]
    ensures LE(a) < LE(b)
  {
    assert a == a[..i] + a[i..] && b == b[..i] + b[i..];
    LEAppend(a[..i], a[i..]);
    LEAppend(b[..i], b[i..]);
    LEBelow(a[..i]);
    assert a[i..][1..] == a[i + 1..] && b[i..][1..] == b[i + 1..];
    var p := Pow256(i);
    assert LE(b[i..]) >= LE(a[i..]) + 1;
    ScaleUpBoth(p, LE(a[i..]) + 1, LE(b[i..]));
    assert p * (LE(a[i..]) + 1) == p * LE(a[i..]) + p;
  }

  /** Little-endian bytes of target at offset off in a zeroed 32-byte buffer. */
  lemma PlacedTarget(t: seq<Byte>, off: nat, v: nat)
    requires |t| == 32 && off <= 28 && v < 0x1_0000_0000
    requires t == ToLE(0, off) + ToLE(v, 4) + ToLE(0, 28 - off)
    ensures LE(t) == v * Pow256(off)
  {
    hide LE, ToLE;
    LEAppend(ToLE(0, off) + ToLE(v, 4), ToLE(0, 28 - off));
    LEAppend(ToLE(0, off), ToLE(v, 4));
    LEOfToLE(0, off);
    LEOfToLE(0, 28 - off);
    assert Pow256(4) == 0x1_0000_0000 by { TopDigits(); }
    LEOfToLE(v, 4);
  }

  /** Where the four target bytes end in the 32-byte buffer. */
  function TargetEnd(size: nat): nat {
    (if size > 3 then size - 3 else 0) + 4
  }

  /** They stay inside exactly for sizes up to 31. Larger ones are out of range anyway, but they are written before
      that answer is used. */
  lemma TargetFitsIff(target: Word)
    ensures TargetEnd(Exponent(target)) <= 32 <==> Exponent(target) <= 31
    ensures Exponent(target) > 31 ==> !TargetInRange(target)
  {
  }

  /** BRMerkleBlockIsValid, for targets whose size fits the 32-byte buffer. */
  method IsValid(b: MerkleBlock, h: Combine, merkleRoot: Hash, timestamp: Word, target: Word, blockHash: seq<Byte>,
                 currentTime: Word) returns (r: bool)
    requires |b.hashes| <= SIZE_MAX && b.totalTx < 0x8000_0000 && |blockHash| == 32 && Exponent(target) <= 31
    ensures r <==>
      && (b.totalTx > 0 ==> RootWalk(b, h, 0, 0, 0).md == merkleRoot)
      && timestamp <= (currentTime + 7200) % 0x1_0000_0000
      && 0 < target % 0x100_0000 < 0x80_0000
      && (target / 0x100_0000 < 0x1d || (target / 0x100_0000 == 0x1d && target % 0x100_0000 <= 0xffff))
      && LE(blockHash) <= TargetValue(target)
  {
    hide LE, ToLE, RootWalk, Pow256;
    var size, mantissa := target / 0x100_0000, target % 0x100_0000;
    var walker := new Walker(b, h, null);
    var root := walker.RootR(0);
    r := true;
    if b.totalTx > 0 && root != merkleRoot { r := false; }
    if timestamp > U32(currentTime as int + BLOCK_MAX_TIME_DRIFT) { r := false; }
    if mantissa == 0 || mantissa >= 0x80_0000 || size > MAX_SIZE || (size == MAX_SIZE && mantissa > MAX_TARGET) {
      r := false;
    }
    var off: nat := if size > 3 then size - 3 else 0;
    var v: nat := if size > 3 then mantissa else Quotient(mantissa, Pow256(3 - size));
    var t := ToLE(0, off) + ToLE(v, 4) + ToLE(0, 28 - off);
    PlacedTarget(t, off, v);
    TopDigits();
    ghost var ok := r;
    var i := 31;
    while r && i >= 0
      invariant -1 <= i <= 31 && r == ok
      invariant blockHash[i + 1..] == t[i + 1..]
      decreases i + 1 + (if r then 1 else 0)
    {
      if blockHash[i] < t[i] {
        TopByteDecides(blockHash, t, i);
        break;
      }
      if blockHash[i] > t[i] {
        TopByteDecides(t, blockHash, i);
        return false;
      }
      i := i - 1;
    }
    assert i == -1 ==> blockHash[0..] == blockHash && t[0..] == t;
  }
}
