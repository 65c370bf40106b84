/** Positional notation: digit strings of any base, most significant digit first, and their values. */
module Radix {
  import opened Words

  // ----- Powers and positional values, most significant digit first -----

  function Pow(b: nat, n: nat): nat {
    if n == 0 then 1 else b * Pow(b, n - 1)
  }

  function Value(s: seq<nat>, base: nat): nat {
    if s == [] then 0 else s[0] * Pow(base, |s| - 1) + Value(s[1..], base)
  }

  predicate Digits(s: seq<nat>, base: nat) {
    forall i :: 0 <= i < |s| ==> s[i] < base
  }

  /** The digits of v, without leading zeros. */
  function FromNat(v: nat, base: nat): (s: seq<nat>)
    requires base >= 2
    ensures Digits(s, base)
  {
    if v == 0 then [] else
      QuotientBelow(v, base);
      FromNat(v / base, base) + [v % base]
  }

  lemma QuotientBelow(v: nat, base: nat)
    requires v > 0 && base >= 2
    ensures v / base < v
  {
    DivModIdentity(v, base);
    MulMono(2, base, v / base, v / base);
  }

  lemma {:induction false} PowPositive(b: nat, n: nat)
    requires b > 0
    ensures Pow(b, n) > 0
  {
    if n > 0 {
      PowPositive(b, n - 1);
    }
  }

  lemma Associate(a: nat, b: nat, c: nat)
    ensures a * (b * c) == (a * b) * c && a * (b * c) == b * (a * c)
  {
  }

  lemma MulMono(a: nat, a': nat, b: nat, b': nat)
    requires a <= a' && b <= b'
    ensures a * b <= a' * b'
  {
    assert a * b <= a' * b <= a' * b';
  }

  lemma {:induction false} PowAdd(b: nat, m: nat, n: nat)
    ensures Pow(b, m + n) == Pow(b, m) * Pow(b, n)
  {
    if m > 0 {
      PowAdd(b, m - 1, n);
      Associate(b, Pow(b, m - 1), Pow(b, n));
    }
  }

  lemma {:induction false} PowMul(b: nat, m: nat, n: nat)
    ensures Pow(b, m * n) == Pow(Pow(b, m), n)
  {
    if n > 0 {
      PowMul(b, m, n - 1);
      assert m * n == m + m * (n - 1);
      PowAdd(b, m, m * (n - 1));
    }
  }

  lemma {:induction false} PowExpMono(b: nat, m: nat, n: nat)
    requires b > 0 && m <= n
    ensures Pow(b, m) <= Pow(b, n)
    decreases n
  {
    if m < n {
      PowExpMono(b, m, n - 1);
      MulMono(1, b, Pow(b, n - 1), Pow(b, n - 1));
    }
  }

  lemma {:induction false} PowBaseMono(a: nat, b: nat, n: nat)
    requires a <= b
    ensures Pow(a, n) <= Pow(b, n)
  {
    if n > 0 {
      PowBaseMono(a, b, n - 1);
      MulMono(a, b, Pow(a, n - 1), Pow(b, n - 1));
    }
  }

  lemma {:induction false} PowBaseStrict(a: nat, b: nat, n: nat)
    requires a < b && n > 0
    ensures Pow(a, n) < Pow(b, n)
  {
    PowBaseMono(a, b, n - 1);
    PowPositive(b, n - 1);
    MulMono(a, a, Pow(a, n - 1), Pow(b, n - 1));
    LessTimes(a, b, Pow(b, n - 1));
  }

  lemma LessTimes(a: nat, b: nat, c: nat)
    requires a < b && c > 0
    ensures a * c < b * c
  {
  }

  /** When b^q <= a^p and q*k >= p*n then a^k is at least b^n: no q-th root is needed. */
  lemma PowersCompare(a: nat, b: nat, p: nat, q: nat, k: nat, n: nat)
    requires a > 0 && q > 0 && Pow(b, q) <= Pow(a, p) && p * n <= k * q
    ensures Pow(b, n) <= Pow(a, k)
  {
    hide Pow;
    var x, y := Pow(a, k), Pow(b, n);
    assert Pow(y, q) <= Pow(x, q) by {
      assert Pow(y, q) == Pow(Pow(b, q), n) by { PowSwap(b, n, q); }
      PowBaseMono(Pow(b, q), Pow(a, p), n);
      PowMul(a, p, n);
      PowExpMono(a, p * n, k * q);
      PowMul(a, k, q);
    }
    if x < y {
      PowBaseStrict(x, y, q);
    }
  }

  lemma PowSwap(b: nat, n: nat, q: nat)
    ensures Pow(Pow(b, n), q) == Pow(Pow(b, q), n)
  {
    hide Pow;
    PowMul(b, n, q);
    PowMul(b, q, n);
    assert n * q == q * n;
  }

  // ----- Positional values: appending, bounds, uniqueness -----

  lemma {:induction false} ValueAppend(s: seq<nat>, d: nat, base: nat)
    ensures Value(s + [d], base) == base * Value(s, base) + d
  {
    if s == [] {
      assert s + [d] == [d];
      assert Value([d], base) == d * Pow(base, 0) + Value([], base);
    } else {
      assert (s + [d])[1..] == s[1..] + [d];
      ValueAppend(s[1..], d, base);
      ShiftedHead(s[0], base, Pow(base, |s| - 1), Value(s[1..], base));
    }
  }

  lemma ShiftedHead(h: nat, base: nat, p: nat, rest: nat)
    ensures h * (base * p) + base * rest == base * (h * p + rest)
  {
  }

  lemma {:induction false} ValueBelow(s: seq<nat>, base: nat)
    requires Digits(s, base)
    ensures Value(s, base) < Pow(base, |s|)
  {
    if s != [] {
      ValueBelow(s[1..], base);
      HeadRoom(s[0], base, Pow(base, |s| - 1), Value(s[1..], base));
    }
  }

  lemma HeadRoom(h: nat, base: nat, p: nat, rest: nat)
    requires h < base && rest < p
    ensures h * p + rest < base * p
  {
    MulMono(h + 1, base, p, p);
    assert (h + 1) * p == h * p + p;
  }

  /** The value determines the digits, up to leading zeros. */
  lemma {:induction false} FromNatOfValue(s: seq<nat>, base: nat)
    requires base >= 2 && Digits(s, base) && (s == [] || s[0] != 0)
    ensures FromNat(Value(s, base), base) == s
  {
    if s != [] {
      var front, d := s[..|s| - 1], s[|s| - 1];
      assert s == front + [d];
      ValueAppend(front, d, base);
      DivModUnique(Value(s, base), base, Value(front, base), d);
      FromNatOfValue(front, base);
      NonzeroValue(s, base);
    }
  }

  lemma NonzeroValue(s: seq<nat>, base: nat)
    requires base >= 2 && s != [] && s[0] != 0
    ensures Value(s, base) > 0
  {
    PowPositive(base, |s| - 1);
    MulMono(1, s[0], Pow(base, |s| - 1), Pow(base, |s| - 1));
  }

  lemma {:induction false} ValueOfFromNat(v: nat, base: nat)
    requires base >= 2
    ensures Value(FromNat(v, base), base) == v
    ensures v > 0 ==> FromNat(v, base) != [] && FromNat(v, base)[0] != 0
    ensures v == 0 ==> FromNat(v, base) == []
    decreases v
  {
    if v > 0 {
      QuotientBelow(v, base);
      ValueOfFromNat(v / base, base);
      ValueAppend(FromNat(v / base, base), v % base, base);
      DivModIdentity(v, base);
      if v / base == 0 {
        assert FromNat(v, base) == [v % base];
        assert base * 0 == 0;
      }
    }
  }

  function Zeros(n: nat): (z: seq<nat>)
    ensures |z| == n && forall i :: 0 <= i < n ==> z[i] == 0
  {
    if n == 0 then [] else [0] + Zeros(n - 1)
  }

  /** How many copies of x the sequence begins with. */
  function Leading<T(==)>(s: seq<T>, x: T): (n: nat)
    ensures n <= |s| && (forall i :: 0 <= i < n ==> s[i] == x) && (n < |s| ==> s[n] != x)
  {
    if s == [] || s[0] != x then 0 else 1 + Leading(s[1..], x)
  }

  lemma {:induction false} LeadingIs<T>(s: seq<T>, x: T, n: nat)
    requires n <= |s| && (forall i :: 0 <= i < n ==> s[i] == x) && (n < |s| ==> s[n] != x)
    ensures Leading(s, x) == n
    decreases n
  {
    if n > 0 {
      LeadingIs(s[1..], x, n - 1);
    }
  }

  lemma {:induction false} ValueSkipsZeros(s: seq<nat>, n: nat, base: nat)
    requires n <= |s| && forall i :: 0 <= i < n ==> s[i] == 0
    ensures Value(s[n..], base) == Value(s, base)
    decreases n
  {
    if n == 0 {
      assert s[0..] == s;
    } else {
      ValueSkipsZeros(s[1..], n - 1, base);
      assert s[1..][n - 1..] == s[n..];
    }
  }

  /** Stripping the leading zeros of a digit string gives the canonical digits of its value. */
  lemma StripIsFromNat(s: seq<nat>, n: nat, base: nat)
    requires base >= 2 && Digits(s, base) && n <= |s|
    requires (forall i :: 0 <= i < n ==> s[i] == 0) && (n < |s| ==> s[n] != 0)
    ensures s[n..] == FromNat(Value(s, base), base)
  {
    ValueSkipsZeros(s, n, base);
    FromNatOfValue(s[n..], base);
  }

  // ----- Fixed-length digit strings -----

  /** The n lowest digits of v. */
  function ToBase(v: nat, base: nat, n: nat): (s: seq<nat>)
    requires base > 0
    ensures |s| == n && Digits(s, base)
    decreases n
  {
    if n == 0 then [] else
      DivModIdentity(v, base);
      QuotientNat(v, base);
      ToBase(v / base, base, n - 1) + [v % base]
  }

  function AsBytes(s: seq<nat>): (r: seq<Byte>)
    requires Digits(s, 256)
    ensures r == s
  {
    if s == [] then [] else [s[0]] + AsBytes(s[1..])
  }

  lemma QuotientNat(v: nat, base: nat)
    requires base > 0
    ensures v / base >= 0
  {
  }

  lemma {:induction false} ToBaseOfValue(s: seq<nat>, base: nat)
    requires base > 0 && Digits(s, base)
    ensures ToBase(Value(s, base), base, |s|) == s
  {
    if s != [] {
      var front, d := s[..|s| - 1], s[|s| - 1];
      assert s == front + [d];
      ValueAppend(front, d, base);
      DivModUnique(Value(s, base), base, Value(front, base), d);
      ToBaseOfValue(front, base);
    }
  }

  lemma {:induction false} ValueOfToBase(v: nat, base: nat, n: nat)
    requires base > 0 && v < Pow(base, n)
    ensures Value(ToBase(v, base, n), base) == v
    decreases n
  {
    if n > 0 {
      DivModIdentity(v, base);
      QuotientNat(v, base);
      QuotientFits(v, base, Pow(base, n - 1));
      ValueOfToBase(v / base, base, n - 1);
      ValueAppend(ToBase(v / base, base, n - 1), v % base, base);
    }
  }

  lemma QuotientFits(v: nat, base: nat, p: nat)
    requires base > 0 && v < base * p
    ensures v / base < p
  {
    DivModIdentity(v, base);
    if v / base >= p {
      MulMono(base, base, p, v / base);
      assert false;
    }
  }

  lemma ValueInjective(s: seq<nat>, t: seq<nat>, base: nat)
    requires base > 0 && Digits(s, base) && Digits(t, base) && |s| == |t| && Value(s, base) == Value(t, base)
    ensures s == t
  {
    ToBaseOfValue(s, base);
    ToBaseOfValue(t, base);
  }

  lemma {:induction false} ValueConcat(s: seq<nat>, t: seq<nat>, base: nat)
    ensures Value(s + t, base) == Value(s, base) * Pow(base, |t|) + Value(t, base)
  {
    if s == [] {
      assert s + t == t;
    } else {
      assert (s + t)[1..] == s[1..] + t;
      ValueConcat(s[1..], t, base);
      PowAdd(base, |s| - 1, |t|);
      SplitHead(s[0], Pow(base, |s| - 1), Pow(base, |t|), Value(s[1..], base));
    }
  }

  lemma SplitHead(h: nat, p: nat, q: nat, v: nat)
    ensures h * (p * q) + v * q == (h * p + v) * q
  {
  }

  // ----- Windows: reading a few neighbouring digits instead of the whole number -----

  lemma DivDiv(v: nat, a: nat, b: nat)
    requires a > 0 && b > 0
    ensures a * b > 0 && v / a / b == v / (a * b)
  {
    var q, r := v / a, v % a;
    DivModIdentity(v, a);
    QuotientNat(v, a);
    DivModIdentity(q, b);
    QuotientNat(q, b);
    Regroup(a, b, q / b, q % b, r);
    DivModUnique(v, a * b, q / b, a * (q % b) + r);
  }

  lemma Regroup(a: nat, b: nat, q: nat, s: nat, r: nat)
    requires a > 0 && b > 0 && s < b && r < a
    ensures a * (b * q + s) + r == (a * b) * q + (a * s + r)
    ensures a * b > 0 && a * s + r < a * b
  {
    MulMono(a, a, s + 1, b);
    assert a * (b * q + s) == (a * b) * q + a * s;
  }

  /** Digits below a multiple of the divisor do not matter. */
  lemma DropLow(x: nat, p: nat, t: nat, s: nat)
    requires t < p && s > 0
    ensures p * s > 0 && (x * p + t) / (p * s) == x / s
  {
    DivModUnique(x * p + t, p, x, t);
    DivDiv(x * p + t, p, s);
  }

  /** Nor do digits above a modulus. */
  lemma DropHigh(a: nat, m: nat, s: nat, d: nat, c: nat)
    requires s > 0 && d > 0
    ensures (a * (s * (d * c)) + m) / s % d == m / s % d
  {
    DivModIdentity(m, s);
    QuotientNat(m, s);
    var q := m / s;
    assert a * (s * (d * c)) == s * (a * (d * c)) by {
      Associate(a, s, d * c);
      Associate(s, a, d * c);
    }
    Distributes(s, a * (d * c), q);
    DivModUnique(a * (s * (d * c)) + m, s, a * (d * c) + q, m % s);
    DivModIdentity(q, d);
    QuotientNat(q, d);
    assert a * (d * c) == d * (a * c) by { Associate(a, d, c); }
    Distributes(d, a * c, q / d);
    DivModUnique(a * (d * c) + q, d, a * c + q / d, q % d);
  }

  lemma Distributes(s: nat, x: nat, y: nat)
    ensures s * (x + y) == s * x + s * y
  {
  }

  lemma ScaleBoth(x: nat, y: nat, c: nat)
    requires y > 0 && c > 0
    ensures y * c > 0 && (x * c) / (y * c) == x / y
  {
    DivModIdentity(x, y);
    QuotientNat(x, y);
    LessTimes(x % y, y, c);
    ScaledSplit(x / y, x % y, y, c);
    DivModUnique(x * c, y * c, x / y, x % y * c);
  }

  lemma ScaledSplit(q: nat, r: nat, y: nat, c: nat)
    ensures (y * q + r) * c == (y * c) * q + r * c
  {
  }

  lemma {:induction false} ToBaseAt(v: nat, base: nat, n: nat, i: nat)
    requires base > 0 && i < n
    ensures Pow(base, n - 1 - i) > 0 && ToBase(v, base, n)[i] == v / Pow(base, n - 1 - i) % base
    decreases n
  {
    hide ToBase;
    ToBaseStep(v, base, n);
    PowPositive(base, n - 1 - i);
    if i < n - 1 {
      QuotientNat(v, base);
      ToBaseAt(v / base, base, n - 1, i);
      DivDiv(v, base, Pow(base, n - 2 - i));
    }
  }

  lemma ToBaseStep(v: nat, base: nat, n: nat)
    requires base > 0 && n > 0
    ensures v / base >= 0 && ToBase(v, base, n) == ToBase(v / base, base, n - 1) + [v % base]
    ensures v / Pow(base, 0) == v
  {
    QuotientNat(v, base);
  }

  /** A digit of a number, m bits wide, is found inside l neighbouring digits of w bits each that cover it. */
  lemma Window(s: seq<nat>, w: nat, k: nat, l: nat, shift: nat, m: nat)
    requires Digits(s, Pow(2, w)) && k + l <= |s| && shift + m <= w * l
    ensures var below := w * (|s| - k - l) + shift;
      Pow(2, below) > 0 && Pow(2, shift) > 0 && Pow(2, m) > 0 &&
      Value(s, Pow(2, w)) / Pow(2, below) % Pow(2, m)
      == Value(s[k..k + l], Pow(2, w)) / Pow(2, shift) % Pow(2, m)
  {
    hide Value, Pow;
    var base := Pow(2, w);
    var t := |s| - k - l;
    var front, mid, tail := s[..k], s[k..k + l], s[k + l..];
    assert s == front + (mid + tail) && s == (front + mid) + tail;
    ValueConcat(front + mid, tail, base);
    ValueConcat(front, mid, base);
    ValueBelow(tail, base);
    PowMul(2, w, t);
    PowMul(2, w, l);
    PowPositive(2, shift);
    PowPositive(2, m);
    PowAdd(2, w * t, shift);
    DropLow(Value(front + mid, base), Pow(base, t), Value(tail, base), Pow(2, shift));
    var c := w * l - shift - m;
    PowAdd(2, shift, m + c);
    PowAdd(2, m, c);
    DropHigh(Value(front, base), Value(mid, base), Pow(2, shift), Pow(2, m), Pow(2, c));
  }
}
