/** The checksum of Bech32: one step of the polynomial remainder is linear over xor and loses nothing of
    a 30-bit state, so six symbols can force any state and cannot hide a change among themselves. */
module Bech32Checksum {
  // ----- One step -----

  function Polymod(x: bv32): bv32 {
    Add(Add(Add(Add(Add(
      Lifted(x), Term(x >> 25, 0x3b6a57b2)), Term(x >> 26, 0x26508e6d)),
      Term(x >> 27, 0x1ea119fa)), Term(x >> 28, 0x3d4233dd)), Term(x >> 29, 0x2a1462b3))
  }

  function Lifted(x: bv32): bv32 {
    (x & 0x1ffffff) << 5
  }

  /** The generator g when the lowest bit is set. */
  function Term(x: bv32, g: bv32): bv32 {
    (0 - (x & 1)) & g
  }

  function Add(x: bv32, y: bv32): bv32 {
    x ^ y
  }

  predicate State(x: bv32) {
    x < 0x4000_0000
  }

  lemma AddAssociates(x: bv32, y: bv32, z: bv32)
    ensures Add(Add(x, y), z) == Add(x, Add(y, z))
  {
  }

  lemma AddCommutes(x: bv32, y: bv32)
    ensures Add(x, y) == Add(y, x)
  {
  }

  lemma AddSelf(x: bv32)
    ensures Add(x, x) == 0 && Add(x, 0) == x && Add(0, x) == x
  {
  }

  lemma AddCancels(x: bv32, y: bv32, z: bv32)
    requires Add(x, z) == Add(y, z)
    ensures x == y
  {
    hide Add;
    AddAssociates(x, z, z);
    AddAssociates(y, z, z);
    AddSelf(z);
    AddSelf(x);
    AddSelf(y);
  }

  lemma AddState(x: bv32, y: bv32)
    requires State(x) && State(y)
    ensures State(Add(x, y))
  {
  }

  lemma LiftedXor(x: bv32, y: bv32)
    ensures Lifted(x ^ y) == Lifted(x) ^ Lifted(y)
  {
  }

  lemma LiftedLinear(x: bv32, y: bv32)
    ensures Lifted(Add(x, y)) == Add(Lifted(x), Lifted(y))
  {
    hide Lifted;
    LiftedXor(x, y);
  }

  lemma TermXor(x: bv32, y: bv32, g: bv32)
    ensures Term(x ^ y, g) == Term(x, g) ^ Term(y, g)
  {
  }

  lemma TermLinear(x: bv32, y: bv32, g: bv32)
    ensures Term(Add(x, y), g) == Add(Term(x, g), Term(y, g))
  {
    hide Term;
    TermXor(x, y, g);
  }

  lemma RightShiftXor(x: bv32, y: bv32)
    ensures (x ^ y) >> 25 == (x >> 25) ^ (y >> 25) && (x ^ y) >> 26 == (x >> 26) ^ (y >> 26)
    ensures (x ^ y) >> 27 == (x >> 27) ^ (y >> 27) && (x ^ y) >> 28 == (x >> 28) ^ (y >> 28)
    ensures (x ^ y) >> 29 == (x >> 29) ^ (y >> 29)
  {
  }

  lemma RightShiftLinear(x: bv32, y: bv32)
    ensures Add(x, y) >> 25 == Add(x >> 25, y >> 25) && Add(x, y) >> 26 == Add(x >> 26, y >> 26)
    ensures Add(x, y) >> 27 == Add(x >> 27, y >> 27) && Add(x, y) >> 28 == Add(x >> 28, y >> 28)
    ensures Add(x, y) >> 29 == Add(x >> 29, y >> 29)
  {
    RightShiftXor(x, y);
  }

  lemma Interchange(a: bv32, b: bv32, c: bv32, d: bv32)
    ensures Add(Add(a, b), Add(c, d)) == Add(Add(a, c), Add(b, d))
  {
    hide Add;
    AddAssociates(a, b, Add(c, d));
    AddAssociates(b, c, d);
    AddCommutes(b, c);
    AddAssociates(c, b, d);
    AddAssociates(a, c, Add(b, d));
  }

  /** One more term keeps a sum linear. */
  lemma TermJoins(s: bv32, s': bv32, x: bv32, y: bv32, g: bv32)
    ensures Add(Add(s, s'), Term(Add(x, y), g)) == Add(Add(s, Term(x, g)), Add(s', Term(y, g)))
  {
    hide Add, Term;
    TermLinear(x, y, g);
    Interchange(s, s', Term(x, g), Term(y, g));
  }

  lemma PolymodLinear(x: bv32, y: bv32)
    ensures Polymod(Add(x, y)) == Add(Polymod(x), Polymod(y))
  {
    hide Add, Lifted, Term;
    RightShiftLinear(x, y);
    LiftedLinear(x, y);
    var s, s' := Lifted(x), Lifted(y);
    TermJoins(s, s', x >> 25, y >> 25, 0x3b6a57b2);
    s, s' := Add(s, Term(x >> 25, 0x3b6a57b2)), Add(s', Term(y >> 25, 0x3b6a57b2));
    TermJoins(s, s', x >> 26, y >> 26, 0x26508e6d);
    s, s' := Add(s, Term(x >> 26, 0x26508e6d)), Add(s', Term(y >> 26, 0x26508e6d));
    TermJoins(s, s', x >> 27, y >> 27, 0x1ea119fa);
    s, s' := Add(s, Term(x >> 27, 0x1ea119fa)), Add(s', Term(y >> 27, 0x1ea119fa));
    TermJoins(s, s', x >> 28, y >> 28, 0x3d4233dd);
    s, s' := Add(s, Term(x >> 28, 0x3d4233dd)), Add(s', Term(y >> 28, 0x3d4233dd));
    TermJoins(s, s', x >> 29, y >> 29, 0x2a1462b3);
  }

  lemma PolymodKernel(x: bv32)
    requires State(x) && Polymod(x) == 0
    ensures x == 0
  {
  }

  lemma PolymodState(x: bv32)
    requires State(x)
    ensures State(Polymod(x))
  {
  }

  /** Nothing of a 30-bit state is lost in a step. */
  lemma PolymodInjective(x: bv32, y: bv32)
    requires State(x) && State(y) && Polymod(x) == Polymod(y)
    ensures x == y
  {
    hide Polymod, Add, State;
    PolymodLinear(x, y);
    AddState(x, y);
    AddSelf(Polymod(x));
    PolymodKernel(Add(x, y));
    AddSelf(y);
    AddCancels(x, y, y);
  }

  // ----- The code of BIP 173 -----

  /** The product of two polynomials over GF(2) of degree below 5, bit i standing for a^i. */
  function Product(x: bv32, y: bv32): bv32 {
    (if y & 1 != 0 then x else 0) ^ (if y & 2 != 0 then x << 1 else 0) ^ (if y & 4 != 0 then x << 2 else 0) ^
    (if y & 8 != 0 then x << 3 else 0) ^ (if y & 16 != 0 then x << 4 else 0)
  }

  function Reduce(p: bv32, top: bv32, multiple: bv32): bv32 {
    if p & top != 0 then p ^ multiple else p
  }

  /** The field GF(32): the remainder of the product by a^5 + a^3 + 1. */
  function Times(x: bv32, y: bv32): bv32 {
    Reduce(Reduce(Reduce(Reduce(Product(x, y), 0x100, 0x148), 0x80, 0xa4), 0x40, 0x52), 0x20, 0x29)
  }

  /** The coefficient of the k-th power in a state, which holds a polynomial of degree below 6 over that field. */
  function Coefficient(x: bv32, k: nat): bv32
    requires k < 6
  {
    if k == 0 then x & 31
    else if k == 1 then (x >> 5) & 31
    else if k == 2 then (x >> 10) & 31
    else if k == 3 then (x >> 15) & 31
    else if k == 4 then (x >> 20) & 31
    else x >> 25
  }

  /** One step multiplies the polynomial by x and takes the remainder by
      x^6 + 29x^5 + 22x^4 + 20x^3 + 21x^2 + 29x + 18. */
  lemma PolymodIsRemainder(x: bv32)
    requires State(x)
    ensures var y, top := Polymod(x), Coefficient(x, 5);
      State(y) && Coefficient(y, 5) == Add(Coefficient(x, 4), Times(top, 29)) &&
      Coefficient(y, 4) == Add(Coefficient(x, 3), Times(top, 22)) &&
      Coefficient(y, 3) == Add(Coefficient(x, 2), Times(top, 20)) &&
      Coefficient(y, 2) == Add(Coefficient(x, 1), Times(top, 21)) &&
      Coefficient(y, 1) == Add(Coefficient(x, 0), Times(top, 29)) && Coefficient(y, 0) == Times(top, 18)
  {
    hide Generator, Times, Coefficient, Add, Lifted, Polymod, State;
    var top := Coefficient(x, 5);
    TopBelow(x);
    PolymodSplits(x);
    GeneratorIs(top);
    Coefficients(x, Generator(top));
  }

  /** What the top coefficient adds. */
  function Generator(top: bv32): bv32 {
    Add(Add(Add(Add(Term(top, 0x3b6a57b2), Term(top >> 1, 0x26508e6d)), Term(top >> 2, 0x1ea119fa)),
            Term(top >> 3, 0x3d4233dd)), Term(top >> 4, 0x2a1462b3))
  }

  lemma TopBelow(x: bv32)
    requires State(x)
    ensures Coefficient(x, 5) == x >> 25 < 32
  {
  }

  lemma PolymodSplits(x: bv32)
    ensures Polymod(x) == Add(Lifted(x), Generator(x >> 25))
  {
    hide Lifted, Add, Term;
    ShiftsMore(x);
    var t0, t1, t2 := Term(x >> 25, 0x3b6a57b2), Term(x >> 26, 0x26508e6d), Term(x >> 27, 0x1ea119fa);
    var t3, t4 := Term(x >> 28, 0x3d4233dd), Term(x >> 29, 0x2a1462b3);
    AddAssociates(Lifted(x), t0, t1);
    AddAssociates(Lifted(x), Add(t0, t1), t2);
    AddAssociates(Lifted(x), Add(Add(t0, t1), t2), t3);
    AddAssociates(Lifted(x), Add(Add(Add(t0, t1), t2), t3), t4);
  }

  lemma ShiftsMore(x: bv32)
    ensures (x >> 25) >> 1 == x >> 26 && (x >> 25) >> 2 == x >> 27 && (x >> 25) >> 3 == x >> 28
    ensures (x >> 25) >> 4 == x >> 29
  {
  }

  lemma Coefficients(x: bv32, g: bv32)
    requires State(g)
    ensures var y := Add(Lifted(x), g);
      State(y) && Coefficient(y, 5) == Add(Coefficient(x, 4), Coefficient(g, 5)) &&
      Coefficient(y, 4) == Add(Coefficient(x, 3), Coefficient(g, 4)) &&
      Coefficient(y, 3) == Add(Coefficient(x, 2), Coefficient(g, 3)) &&
      Coefficient(y, 2) == Add(Coefficient(x, 1), Coefficient(g, 2)) &&
      Coefficient(y, 1) == Add(Coefficient(x, 0), Coefficient(g, 1)) && Coefficient(y, 0) == Coefficient(g, 0)
  {
    hide Add, Lifted, Coefficient, State;
    var l := Lifted(x);
    LiftedCoefficients(x);
    AddState(l, g);
    SumCoefficient(l, g, 0);
    SumCoefficient(l, g, 1);
    SumCoefficient(l, g, 2);
    SumCoefficient(l, g, 3);
    SumCoefficient(l, g, 4);
    SumCoefficient(l, g, 5);
    AddSelf(Coefficient(g, 0));
  }

  lemma LiftedCoefficients(x: bv32)
    ensures var l := Lifted(x);
      State(l) && Coefficient(l, 0) == 0 && Coefficient(l, 1) == Coefficient(x, 0) &&
      Coefficient(l, 2) == Coefficient(x, 1) && Coefficient(l, 3) == Coefficient(x, 2) &&
      Coefficient(l, 4) == Coefficient(x, 3) && Coefficient(l, 5) == Coefficient(x, 4)
  {
  }

  lemma SumCoefficient(x: bv32, y: bv32, k: nat)
    requires k < 6
    ensures Coefficient(Add(x, y), k) == Add(Coefficient(x, k), Coefficient(y, k))
  {
    if k == 0 {
    } else if k == 1 {
    } else if k == 2 {
    } else if k == 3 {
    } else if k == 4 {
    }
  }

  lemma GeneratorIs(top: bv32)
    requires top < 32
    ensures var g := Generator(top);
      Coefficient(g, 5) == Times(top, 29) && Coefficient(g, 4) == Times(top, 22) &&
      Coefficient(g, 3) == Times(top, 20) && Coefficient(g, 2) == Times(top, 21) &&
      Coefficient(g, 1) == Times(top, 29) && Coefficient(g, 0) == Times(top, 18) && State(g)
  {
  }

  // ----- Feeding symbols -----

  type Symbol = c: nat | c < 32

  function Bits(c: Symbol): bv32 {
    c as bv32
  }

  lemma BitsBelow(c: Symbol)
    ensures Bits(c) < 32 && State(Bits(c))
  {
  }

  /** The symbol in the lowest five bits. */
  function LowFive(x: bv32): Symbol {
    LowFiveBelow(x);
    (x & 0x1f) as nat
  }

  lemma LowFiveBelow(x: bv32)
    ensures (x & 0x1f) as nat < 32
  {
    assert x & 0x1f < 32;
  }

  lemma LowFiveOfBits(c: Symbol)
    ensures LowFive(Bits(c)) == c
  {
    BitsBelow(c);
    MaskKeeps(c as bv32);
  }

  lemma MaskKeeps(b: bv32)
    requires b < 32
    ensures b & 0x1f == b
  {
  }

  lemma BitsOfLowFive(x: bv32)
    ensures Bits(LowFive(x)) == x & 0x1f
  {
  }

  lemma BitsInjective(c: Symbol, d: Symbol)
    requires Bits(c) == Bits(d)
    ensures c == d
  {
    hide Bits, LowFive;
    LowFiveOfBits(c);
    LowFiveOfBits(d);
  }

  function Step(chk: bv32, c: Symbol): bv32 {
    Add(Polymod(chk), Bits(c))
  }

  function Feed(chk: bv32, s: seq<Symbol>): bv32
    decreases |s|
  {
    if s == [] then chk else Feed(Step(chk, s[0]), s[1..])
  }

  lemma {:induction false} FeedConcat(chk: bv32, s: seq<Symbol>, t: seq<Symbol>)
    ensures Feed(chk, s + t) == Feed(Feed(chk, s), t)
    decreases |s|
  {
    if s == [] {
      assert s + t == t;
    } else {
      assert (s + t)[1..] == s[1..] + t;
      FeedConcat(Step(chk, s[0]), s[1..], t);
    }
  }

  lemma FeedOne(chk: bv32, s: seq<Symbol>, c: Symbol)
    ensures Feed(chk, s + [c]) == Step(Feed(chk, s), c)
  {
    FeedConcat(chk, s, [c]);
    assert Feed(Feed(chk, s), [c]) == Feed(Step(Feed(chk, s), c), []);
  }

  lemma {:induction false} FeedState(chk: bv32, s: seq<Symbol>)
    requires State(chk)
    ensures State(Feed(chk, s))
    decreases |s|
  {
    hide Polymod, Add, Bits;
    if s != [] {
      PolymodState(chk);
      BitsBelow(s[0]);
      AddState(Polymod(chk), Bits(s[0]));
      FeedState(Step(chk, s[0]), s[1..]);
    }
  }

  /** Different states stay different under the same symbols. */
  lemma {:induction false} FeedInjective(a: bv32, b: bv32, s: seq<Symbol>)
    requires State(a) && State(b) && Feed(a, s) == Feed(b, s)
    ensures a == b
    decreases |s|
  {
    hide Polymod, Add, Bits, State;
    if s != [] {
      FeedState(a, s[..1]);
      FeedState(b, s[..1]);
      assert Feed(a, s[..1]) == Step(a, s[0]) && Feed(b, s[..1]) == Step(b, s[0]);
      FeedInjective(Step(a, s[0]), Step(b, s[0]), s[1..]);
      AddCancels(Polymod(a), Polymod(b), Bits(s[0]));
      PolymodInjective(a, b);
    }
  }

  // ----- Six symbols -----

  function Shift5(x: bv32, c: Symbol): bv32 {
    Add(x << 5, Bits(c))
  }

  /** The first n of the symbols side by side, five bits each. */
  function Packed(s: seq<Symbol>, n: nat): bv32
    requires n <= |s|
  {
    if n == 0 then 0 else Shift5(Packed(s, n - 1), s[n - 1])
  }

  /** n steps with zero symbols. */
  function Coast(x: bv32, n: nat): bv32 {
    if n == 0 then x else Polymod(Coast(x, n - 1))
  }

  lemma ShortStep(x: bv32)
    requires x < 0x200_0000
    ensures Polymod(x) == x << 5
  {
    hide Add, Lifted, Term;
    ShortShifts(x);
    NoTerm(0x3b6a57b2);
    NoTerm(0x26508e6d);
    NoTerm(0x1ea119fa);
    NoTerm(0x3d4233dd);
    NoTerm(0x2a1462b3);
    AddSelf(Lifted(x));
    LiftedShort(x);
  }

  lemma ShortShifts(x: bv32)
    requires x < 0x200_0000
    ensures x >> 25 == 0 && x >> 26 == 0 && x >> 27 == 0 && x >> 28 == 0 && x >> 29 == 0
  {
  }

  lemma NoTerm(g: bv32)
    ensures Term(0, g) == 0
  {
  }

  lemma LiftedShort(x: bv32)
    requires x < 0x200_0000
    ensures Lifted(x) == x << 5
  {
  }

  /** n packed symbols fit 5 * n bits. */
  function Limit(n: nat): bv32
    requires n <= 6
  {
    if n == 0 then 1 else if n == 1 then 0x20 else if n == 2 then 0x400 else if n == 3 then 0x8000
    else if n == 4 then 0x10_0000 else if n == 5 then 0x200_0000 else 0x4000_0000
  }

  lemma {:induction false} PackedBelow(s: seq<Symbol>, n: nat)
    requires n <= |s| && n <= 6
    ensures Packed(s, n) < Limit(n)
  {
    hide Limit, Shift5;
    if n == 0 {
      LimitOne();
    } else {
      PackedBelow(s, n - 1);
      Shift5Below(Packed(s, n - 1), s[n - 1], n);
    }
  }

  lemma LimitOne()
    ensures Limit(0) == 1
  {
  }

  lemma Shift5Below(x: bv32, c: Symbol, n: nat)
    requires 0 < n <= 6 && x < Limit(n - 1)
    ensures Shift5(x, c) < Limit(n)
  {
    hide Bits, Limit, Add;
    BitsBelow(c);
    ShiftBelow(x, Bits(c), n);
  }

  lemma ShiftBelow(x: bv32, b: bv32, n: nat)
    requires 0 < n <= 6 && b < 32 && x < Limit(n - 1)
    ensures Add(x << 5, b) < Limit(n)
  {
    hide Limit;
    RawShiftBelow(x, b, n);
  }

  lemma RawShiftBelow(x: bv32, b: bv32, n: nat)
    requires 0 < n <= 6 && b < 32 && x < Limit(n - 1)
    ensures (x << 5) ^ b < Limit(n)
  {
    if n == 1 {
    } else if n == 2 {
    } else if n == 3 {
    } else if n == 4 {
    } else if n == 5 {
    }
  }

  /** Up to six symbols are simply added, side by side, to the state they would have coasted to. */
  lemma {:induction false} FeedIsPacked(chk: bv32, s: seq<Symbol>, n: nat)
    requires n <= |s| && n <= 6
    ensures Feed(chk, s[..n]) == Add(Coast(chk, n), Packed(s, n))
  {
    hide Polymod, Add, Bits, State;
    if n == 0 {
      AddSelf(chk);
    } else {
      var c := s[n - 1];
      FeedIsPacked(chk, s, n - 1);
      assert s[..n] == s[..n - 1] + [c];
      FeedOne(chk, s[..n - 1], c);
      var x, p := Coast(chk, n - 1), Packed(s, n - 1);
      PackedBelow(s, n - 1);
      PolymodLinear(x, p);
      ShortStep(p);
      AddAssociates(Polymod(x), p << 5, Bits(c));
    }
  }

  // ----- Six check symbols -----

  /** x >> 5 * k */
  function Shifted(x: bv32, k: nat): bv32 {
    if k == 0 then x else Shifted(x, k - 1) >> 5
  }

  /** Symbol k of six, read back from 30 bits. */
  function SymbolAt(x: bv32, k: nat): Symbol
    requires k < 6
  {
    LowFive(Shifted(x, 5 - k))
  }

  function SixSymbols(x: bv32): seq<Symbol> {
    [SymbolAt(x, 0), SymbolAt(x, 1), SymbolAt(x, 2), SymbolAt(x, 3), SymbolAt(x, 4), SymbolAt(x, 5)]
  }

  function CheckSymbols(chk: bv32): seq<Symbol> {
    SixSymbols(Add(Coast(chk, 6), 1))
  }

  lemma PackSplit(x: bv32)
    requires State(x)
    ensures Packed(SixSymbols(x), 6) == x
  {
    hide Shift5, LowFive, State, Fits, SymbolAt;
    var s := SixSymbols(x);
    PackedStarts(s);
    LimitSix(x);
    ShiftedBelow(x, 6, 0);
    BelowOne(Shifted(x, 6));
    PackSplitStep(x, s, 0);
    PackSplitStep(x, s, 1);
    PackSplitStep(x, s, 2);
    PackSplitStep(x, s, 3);
    PackSplitStep(x, s, 4);
    PackSplitStep(x, s, 5);
  }

  lemma PackedStarts(s: seq<Symbol>)
    ensures Packed(s, 0) == 0
  {
  }

  predicate Fits(x: bv32, n: nat)
    requires n <= 6
  {
    x < Limit(n)
  }

  lemma {:induction false} ShiftedBelow(x: bv32, k: nat, n: nat)
    requires Fits(x, 6) && k + n == 6
    ensures Fits(Shifted(x, k), n)
  {
    hide Fits, Shifted;
    ShiftedSteps(x, k);
    if k > 0 {
      ShiftedBelow(x, k - 1, n + 1);
      ShiftLimit(Shifted(x, k - 1), n);
    }
  }

  lemma ShiftedSteps(x: bv32, k: nat)
    ensures Shifted(x, 0) == x && (k > 0 ==> Shifted(x, k) == Shifted(x, k - 1) >> 5)
  {
  }

  lemma ShiftLimit(x: bv32, n: nat)
    requires n < 6 && Fits(x, n + 1)
    ensures Fits(x >> 5, n)
  {
    if n == 0 {
    } else if n == 1 {
    } else if n == 2 {
    } else if n == 3 {
    } else if n == 4 {
    }
  }

  lemma BelowOne(x: bv32)
    requires Fits(x, 0)
    ensures x == 0
  {
  }

  lemma LimitSix(x: bv32)
    requires State(x)
    ensures Fits(x, 6)
  {
  }

  lemma PackSplitStep(x: bv32, s: seq<Symbol>, k: nat)
    requires k < 6 && |s| == 6 && s[k] == SymbolAt(x, k) && Packed(s, k) == Shifted(x, 6 - k)
    ensures Packed(s, k + 1) == Shifted(x, 5 - k)
  {
    hide Shift5, LowFive;
    var y := Shifted(x, 5 - k);
    Rejoin(y);
    assert Shifted(x, 6 - k) == y >> 5;
  }

  lemma Rejoin(x: bv32)
    ensures Shift5(x >> 5, LowFive(x)) == x
  {
    hide Bits, LowFive, Add;
    BitsOfLowFive(x);
    AddLowFive(x);
  }

  lemma AddLowFive(x: bv32)
    ensures Add((x >> 5) << 5, x & 0x1f) == x
  {
    assert ((x >> 5) << 5) ^ (x & 0x1f) == x;
  }

  lemma {:induction false} PackedInjective(s: seq<Symbol>, t: seq<Symbol>, n: nat)
    requires n <= 6 && |s| == |t| == n && Packed(s, n) == Packed(t, n)
    ensures s == t
  {
    hide Shift5, Limit;
    if n > 0 {
      var s', t' := s[..n - 1], t[..n - 1];
      PackedBelow(s, n - 1);
      PackedBelow(t, n - 1);
      PackedPrefix(s, n - 1);
      PackedPrefix(t, n - 1);
      LimitLast(n - 1);
      Shift5Injective(Packed(s, n - 1), s[n - 1], Packed(t, n - 1), t[n - 1]);
      PackedInjective(s', t', n - 1);
      assert s == s' + [s[n - 1]] && t == t' + [t[n - 1]];
    }
  }

  lemma LimitLast(n: nat)
    requires n <= 5
    ensures Limit(n) <= 0x200_0000
  {
  }

  lemma {:induction false} PackedPrefix(s: seq<Symbol>, n: nat)
    requires n <= |s|
    ensures Packed(s[..n], n) == Packed(s, n)
  {
    hide Shift5;
    PackedAgree(s[..n], s, n);
  }

  lemma {:induction false} PackedAgree(s: seq<Symbol>, t: seq<Symbol>, n: nat)
    requires n <= |s| && n <= |t| && forall k :: 0 <= k < n ==> s[k] == t[k]
    ensures Packed(s, n) == Packed(t, n)
  {
    hide Shift5;
    if n > 0 {
      PackedAgree(s, t, n - 1);
    }
  }

  lemma Shift5Injective(x: bv32, c: Symbol, y: bv32, d: Symbol)
    requires x < 0x200_0000 && y < 0x200_0000 && Shift5(x, c) == Shift5(y, d)
    ensures x == y && c == d
  {
    hide Bits, Add;
    BitsBelow(c);
    BitsBelow(d);
    ShiftInjective(x, Bits(c), y, Bits(d));
    BitsInjective(c, d);
  }

  lemma ShiftInjective(x: bv32, b: bv32, y: bv32, d: bv32)
    requires x < 0x200_0000 && y < 0x200_0000 && b < 32 && d < 32 && Add(x << 5, b) == Add(y << 5, d)
    ensures x == y && b == d
  {
    hide Add;
    Unshift(x, b);
    Unshift(y, d);
  }

  lemma Unshift(x: bv32, b: bv32)
    requires x < 0x200_0000 && b < 32
    ensures Add(x << 5, b) & 0x1f == b && Add(x << 5, b) >> 5 == x
  {
    RawUnshift(x, b);
  }

  lemma RawUnshift(x: bv32, b: bv32)
    requires x < 0x200_0000 && b < 32
    ensures ((x << 5) ^ b) & 0x1f == b && ((x << 5) ^ b) >> 5 == x
  {
  }

  lemma FeedSix(chk: bv32, s: seq<Symbol>)
    requires |s| == 6
    ensures Feed(chk, s) == Add(Coast(chk, 6), Packed(s, 6))
  {
    FeedIsPacked(chk, s, 6);
    assert s[..6] == s;
  }

  lemma {:induction false} CoastState(x: bv32, n: nat)
    requires State(x)
    ensures State(Coast(x, n))
  {
    hide Polymod, State;
    if n > 0 {
      CoastState(x, n - 1);
      PolymodState(Coast(x, n - 1));
    }
  }

  /** Exactly one choice of six symbols takes a state to 1. */
  lemma SixSymbolsForceOne(chk: bv32, s: seq<Symbol>)
    requires State(chk) && |s| == 6
    ensures Feed(chk, s) == 1 <==> s == CheckSymbols(chk)
  {
    hide Add, Coast, Packed, Feed, SixSymbols, State;
    var x := Coast(chk, 6);
    CoastState(chk, 6);
    OneState();
    AddState(x, 1);
    var c := CheckSymbols(chk);
    PackSplit(Add(x, 1));
    FeedSix(chk, s);
    assert |c| == 6 by { SixLength(Add(x, 1)); }
    AddAssociates(x, x, 1);
    AddSelf(x);
    AddSelf(1);
    if Feed(chk, s) == 1 {
      AddAssociates(x, x, Packed(s, 6));
      AddSelf(Packed(s, 6));
      PackedInjective(s, c, 6);
    }
  }

  lemma OneState()
    ensures State(1)
  {
  }

  lemma SixLength(x: bv32)
    ensures |SixSymbols(x)| == 6
  {
  }

  /** A change within six neighbouring symbols always changes the final state. */
  lemma BurstChangesState(chk: bv32, s: seq<Symbol>, t: seq<Symbol>, rest: seq<Symbol>)
    requires State(chk) && |s| == |t| == 6 && s != t
    ensures Feed(chk, s + rest) != Feed(chk, t + rest)
  {
    hide Add, Coast, Packed, Feed, State;
    FeedConcat(chk, s, rest);
    FeedConcat(chk, t, rest);
    FeedState(chk, s);
    FeedState(chk, t);
    if Feed(chk, s + rest) == Feed(chk, t + rest) {
      FeedInjective(Feed(chk, s), Feed(chk, t), rest);
      FeedSix(chk, s);
      FeedSix(chk, t);
      var x := Coast(chk, 6);
      AddCommutes(x, Packed(s, 6));
      AddCommutes(x, Packed(t, 6));
      AddCancels(Packed(s, 6), Packed(t, 6), x);
      PackedInjective(s, t, 6);
      assert false;
    }
  }
}
