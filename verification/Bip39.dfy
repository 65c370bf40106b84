/** Mnemonic phrases: entropy and its checksum cut into 11-bit word numbers, and the way back. */
module Bip39 {
  import opened Words
  import opened Radix

  // ----- Regrouping: the bits of the entropy and of the hash after it, cut in elevens -----

  /** The numbers of the words, three for each four bytes. */
  function Indices(data: seq<Byte>, md: seq<Byte>): (idx: seq<nat>)
    requires |data| % 4 == 0 && |data| <= 1024 && |md| == 32
    ensures |idx| == |data| * 3 / 4 && Digits(idx, 2048)
  {
    var n, w := 8 * (|data| + 32), |data| * 3 / 4;
    PowPositive(2, n - 11 * w);
    QuotientNat(Value(data + md, 256), Pow(2, n - 11 * w));
    ToBase(Value(data + md, 256) / Pow(2, n - 11 * w), 2048, w)
  }

  /** The bytes of word numbers, zeros at the end. */
  function Regrouped(idx: seq<nat>): (buf: seq<Byte>)
    ensures |buf| == (|idx| * 11 + 7) / 8
  {
    var n := (|idx| * 11 + 7) / 8;
    AsBytes(ToBase(Value(idx, 2048) * Pow(2, 8 * n - 11 * |idx|), 256, n))
  }

  lemma Bases()
    ensures Pow(2, 8) == 256 && Pow(2, 11) == 2048
  {
  }

  // ----- The windows the two loops read -----

  /** Four bytes, most significant first. */
  function BigEndian32(b: seq<Byte>, off: nat): Word
    requires off + 4 <= |b|
  {
    var b0: nat, b1: nat, b2: nat, b3: nat := b[off], b[off + 1], b[off + 2], b[off + 3];
    b0 * 0x100_0000 + b1 * 0x1_0000 + b2 * 0x100 + b3
  }

  lemma BigEndianIsValue(b: seq<Byte>, off: nat)
    requires off + 4 <= |b|
    ensures BigEndian32(b, off) == Value(b[off..off + 4], 256)
  {
    var s: seq<nat> := b[off..off + 4];
    assert Pow(256, 0) == 1 && Pow(256, 1) == 0x100 && Pow(256, 2) == 0x1_0000 && Pow(256, 3) == 0x100_0000;
    assert Value(s, 256) == s[0] * Pow(256, 3) + Value(s[1..], 256);
    assert Value(s[1..], 256) == s[1] * Pow(256, 2) + Value(s[2..], 256) by { assert s[1..][1..] == s[2..]; }
    assert Value(s[2..], 256) == s[2] * Pow(256, 1) + Value(s[3..], 256) by { assert s[2..][1..] == s[3..]; }
    assert Value(s[3..], 256) == s[3] * Pow(256, 0) + 0 by { assert s[3..][1..] == []; }
  }

  /** Word i: eleven bits of the 32 that start at the byte holding the first of them. */
  function WordNumber(buf: seq<Byte>, i: nat): nat
    requires i * 11 / 8 + 4 <= |buf|
  {
    PowPositive(2, 32 - (11 + i * 11 % 8));
    QuotientNat(BigEndian32(buf, i * 11 / 8), Pow(2, 32 - (11 + i * 11 % 8)));
    BigEndian32(buf, i * 11 / 8) / Pow(2, 32 - (11 + i * 11 % 8)) % 2048
  }

  lemma WordNumberIsIndex(data: seq<Byte>, md: seq<Byte>, i: nat)
    requires |data| % 4 == 0 && |data| <= 968 && |md| == 32 && i < |data| * 3 / 4
    ensures i * 11 / 8 + 4 <= |data + md|
    ensures WordNumber(data + md, i) == Indices(data, md)[i]
  {
    hide Value, Pow, ToBase, BigEndian32;
    var buf := data + md;
    var n, w, k, r := 8 * |buf|, |data| * 3 / 4, i * 11 / 8, i * 11 % 8;
    DivModIdentity(i * 11, 8);
    var shift := 32 - (11 + r);
    BigEndianIsValue(buf, k);
    Bases();
    Window(buf, 8, k, 4, shift, 11);
    assert 8 * (|buf| - k - 4) + shift == (n - 11 * w) + 11 * (w - 1 - i);
    PowPositive(2, n - 11 * w);
    QuotientNat(Value(buf, 256), Pow(2, n - 11 * w));
    ToBaseAt(Value(buf, 256) / Pow(2, n - 11 * w), 2048, w, i);
    PowMul(2, 11, w - 1 - i);
    PowAdd(2, n - 11 * w, 11 * (w - 1 - i));
    DivDiv(Value(buf, 256), Pow(2, n - 11 * w), Pow(2048, w - 1 - i));
  }

  /** Every window of the encoder lies inside its buffer, of the data and 32 bytes, exactly up to 968 bytes of data. */
  lemma WindowsFitIff(len: nat)
    requires len > 0 && len % 4 == 0
    ensures (forall i: nat :: i < len * 3 / 4 ==> WindowEnd(i) <= len + 32) <==> len <= 968
  {
    var last := len * 3 / 4 - 1;
    if len > 968 {
      assert WindowEnd(last) > len + 32;
    }
  }

  function WindowEnd(i: nat): nat {
    i * 11 / 8 + 4
  }

  function At(idx: seq<nat>, k: nat): nat {
    if k < |idx| then idx[k] else 0
  }

  /** Byte i: eight bits of the 22 that start with the word holding the first of them. */
  function ByteNumber(idx: seq<nat>, i: nat): nat {
    var at := i * 8 / 11;
    var xy := At(idx, at) * 2048 + At(idx, at + 1);
    var shift := (at + 2) * 11 - (i + 1) * 8;
    PowPositive(2, shift);
    QuotientNat(xy, Pow(2, shift));
    xy / Pow(2, shift) % 0x100
  }

  lemma TwoWords(z: seq<nat>, k: nat)
    requires k + 2 <= |z|
    ensures Value(z[k..k + 2], 2048) == z[k] * 2048 + z[k + 1]
  {
    var s := z[k..k + 2];
    assert Pow(2048, 0) == 1 && Pow(2048, 1) == 2048;
    assert Value(s[1..], 2048) == s[1] * Pow(2048, 0) + 0 by { assert s[1..][1..] == []; }
  }

  lemma ByteNumberIsByte(idx: seq<nat>, i: nat)
    requires Digits(idx, 2048) && i < (|idx| * 11 + 7) / 8
    ensures ByteNumber(idx, i) == Regrouped(idx)[i]
  {
    hide Value, Pow, ToBase;
    var c, n, k := |idx|, (|idx| * 11 + 7) / 8, i * 8 / 11;
    var pad := 8 * n - 11 * c;
    var shift := (k + 2) * 11 - (i + 1) * 8;
    var z: seq<nat> := idx + [0];
    DivModIdentity(i * 8, 11);
    TwoWords(z, k);
    ValueAppend(idx, 0, 2048);
    Bases();
    Window(z, 11, k, 2, shift, 8);
    var below := 11 * (c - 1 - k) + shift;
    assert below + pad == 11 + 8 * (n - 1 - i);
    var v, p := Value(idx, 2048), Pow(2, pad);
    PowPositive(2, pad);
    PowPositive(2, 8 * (n - 1 - i));
    ScaleBoth(2048 * v, Pow(2, below), p);
    PowAdd(2, below, pad);
    PowAdd(2, 11, 8 * (n - 1 - i));
    Rearranged(v, p, Pow(2, 8 * (n - 1 - i)));
    PowMul(2, 8, n - 1 - i);
    ToBaseAt(v * p, 256, n, i);
  }

  lemma Rearranged(v: nat, p: nat, d: nat)
    requires d > 0
    ensures (2048 * v) * p / (2048 * d) == v * p / d
  {
    ScaleBoth(v * p, d, 2048);
    assert (2048 * v) * p == (v * p) * 2048;
  }

  // ----- The checksum -----

  /** The leading bits of the hash that follow the entropy: one for each four bytes of it. */
  function HighBits(b: Byte, k: nat): nat
    requires k <= 8
  {
    PowPositive(2, 8 - k);
    QuotientNat(b, Pow(2, 8 - k));
    b / Pow(2, 8 - k)
  }

  /** The entropy of up to 24 words, or nothing when their number or their checksum is wrong. */
  function Entropy(idx: seq<nat>, hash: seq<Byte> -> seq<Byte>): seq<Byte>
    requires |idx| <= 24 && Digest(hash)
  {
    if |idx| % 3 != 0 then [] else
      var n := |idx| * 4 / 3;
      var buf := Regrouped(idx);
      var b := if |buf| == 0 then 0 else buf[|buf| - 1];
      if HighBits(b, |idx| / 3) == HighBits(hash(buf[..n])[0], |idx| / 3) then buf[..n] else []
  }

  /** The number the words make: the entropy, then k bits of its hash. */
  lemma IndicesValue(e: seq<Byte>, md: seq<Byte>, k: nat)
    requires 1 <= k <= 8 && |e| == 4 * k && |md| == 32
    ensures Value(Indices(e, md), 2048) == Value(e, 256) * Pow(2, k) + HighBits(md[0], k)
  {
    hide Value, Pow, ToBase, HighBits;
    var v, d := Value(e + md, 256), Pow(2, 256 - k);
    assert |e| * 3 / 4 == 3 * k && 8 * (|e| + 32) - 11 * (3 * k) == 256 - k;
    PowPositive(2, 256 - k);
    QuotientNat(v, d);
    LeadingBits(e, md, k);
    IndicesFit(e, md[0], k);
    ValueOfToBase(v / d, 2048, 3 * k);
  }

  lemma IndicesFit(e: seq<Byte>, b: Byte, k: nat)
    requires 1 <= k <= 8 && |e| == 4 * k
    ensures Value(e, 256) * Pow(2, k) + HighBits(b, k) < Pow(2048, 3 * k)
  {
    hide Value, Pow, HighBits;
    ValueBelow(e, 256);
    Bases();
    PowMul(2, 8, 4 * k);
    PowMul(2, 11, 3 * k);
    PowAdd(2, 32 * k, k);
    HighBitsBelow(b, k);
    HeadRoom(Value(e, 256), Pow(2, 32 * k), Pow(2, k), HighBits(b, k));
  }

  lemma LeadingBits(e: seq<Byte>, md: seq<Byte>, k: nat)
    requires 1 <= k <= 8 && |md| == 32
    ensures Pow(2, 256 - k) > 0
    ensures Value(e + md, 256) / Pow(2, 256 - k) == Value(e, 256) * Pow(2, k) + HighBits(md[0], k)
  {
    hide Value, Pow, HighBits;
    PowPositive(2, 256 - k);
    ValueConcat(e, md, 256);
    Bases();
    PowMul(2, 8, 32);
    PowAdd(2, 256 - k, k);
    FirstByte(md, k);
    ShiftTogether(Value(e, 256), Pow(2, 256 - k), Pow(2, k), Value(md, 256));
  }

  lemma ShiftTogether(v: nat, d: nat, p: nat, m: nat)
    requires d > 0
    ensures (v * (d * p) + m) / d == v * p + m / d
  {
    DivModIdentity(m, d);
    QuotientNat(m, d);
    assert v * (d * p) == d * (v * p) by { Associate(v, d, p); }
    Distributes(d, v * p, m / d);
    DivModUnique(v * (d * p) + m, d, v * p + m / d, m % d);
  }

  lemma HighBitsBelow(b: Byte, k: nat)
    requires k <= 8
    ensures HighBits(b, k) < Pow(2, k)
  {
    hide Pow;
    PowPositive(2, 8 - k);
    PowAdd(2, 8 - k, k);
    Bases();
    QuotientFits(b, Pow(2, 8 - k), Pow(2, k));
  }

  /** The first bits of a hash are those of its first byte. */
  lemma FirstByte(md: seq<Byte>, k: nat)
    requires 1 <= k <= 8 && |md| == 32
    ensures Pow(2, 256 - k) > 0 && Value(md, 256) / Pow(2, 256 - k) == HighBits(md[0], k)
  {
    hide Pow;
    PowPositive(2, 8 - k);
    ValueBelow(md[1..], 256);
    Bases();
    PowMul(2, 8, 31);
    PowAdd(2, 248, 8 - k);
    DropLow(md[0], Pow(256, 31), Value(md[1..], 256), Pow(2, 8 - k));
  }

  /** The bytes of 3k words are 4k bytes and one more that starts with the last k bits. */
  lemma RegroupedSplits(idx: seq<nat>, k: nat)
    requires Digits(idx, 2048) && 1 <= k <= 8 && |idx| == 3 * k
    ensures |Regrouped(idx)| == 4 * k + 1
    ensures Value(idx, 2048) == Value(Regrouped(idx)[..4 * k], 256) * Pow(2, k) + HighBits(Regrouped(idx)[4 * k], k)
  {
    hide Value, Pow, ToBase;
    var n := 4 * k + 1;
    var v, p := Value(idx, 2048), Pow(2, 8 - k);
    PowPositive(2, 8 - k);
    Bases();
    ValueBelow(idx, 2048);
    PowMul(2, 11, 3 * k);
    PowMul(2, 8, n);
    PowAdd(2, 33 * k, 8 - k);
    LessTimes(v, Pow(2, 33 * k), p);
    ValueOfToBase(v * p, 256, n);
    var buf: seq<nat> := Regrouped(idx);
    assert buf == buf[..4 * k] + [buf[4 * k]];
    ValueAppend(buf[..4 * k], buf[4 * k], 256);
    PowAdd(2, 8 - k, k);
    SplitProduct(v, p, Pow(2, k), Value(buf[..4 * k], 256), buf[4 * k]);
  }

  lemma SplitProduct(v: nat, p: nat, q: nat, front: nat, last: nat)
    requires p > 0 && p * q == 256 && v * p == 256 * front + last
    ensures v == front * q + last / p
  {
    DivModUnique(v * p, p, v, 0);
    assert 256 * front == p * (front * q) by { Associate(p, q, front); }
    DivModIdentity(last, p);
    QuotientNat(last, p);
    Distributes(p, front * q, last / p);
    DivModUnique(v * p, p, front * q + last / p, last % p);
  }

  /** Words give an entropy exactly when they are the words of that entropy. */
  lemma EntropyIff(idx: seq<nat>, e: seq<Byte>, hash: seq<Byte> -> seq<Byte>)
    requires |idx| <= 24 && Digits(idx, 2048) && Digest(hash)
    requires 4 <= |e| <= 32 && |e| % 4 == 0
    ensures Entropy(idx, hash) == e <==> idx == Indices(e, hash(e))
  {
    hide Value, Pow, Regrouped, HighBits, Indices;
    var k := |e| / 4;
    var md := hash(e);
    assert |Indices(e, md)| == 3 * k && Digits(Indices(e, md), 2048) by { IndicesLength(e, md); }
    IndicesValue(e, md, k);
    HighBitsBelow(md[0], k);
    if |idx| == 3 * k {
      RegroupedSplits(idx, k);
      var buf := Regrouped(idx);
      var front, b := buf[..4 * k], buf[4 * k];
      HighBitsBelow(b, k);
      if Entropy(idx, hash) == e {
        ValueInjective(idx, Indices(e, md), 2048);
      }
      if idx == Indices(e, md) {
        DivModUnique(Value(idx, 2048), Pow(2, k), Value(e, 256), HighBits(md[0], k));
        DivModUnique(Value(idx, 2048), Pow(2, k), Value(front, 256), HighBits(b, k));
        ValueInjective(front, e, 256);
      }
    } else if |idx| % 3 == 0 {
      EntropyLength(idx, hash);
    }
  }

  lemma IndicesLength(e: seq<Byte>, md: seq<Byte>)
    requires |e| % 4 == 0 && |e| <= 1024 && |md| == 32
    ensures |Indices(e, md)| == |e| * 3 / 4 && Digits(Indices(e, md), 2048)
  {
  }

  lemma EntropyLength(idx: seq<nat>, hash: seq<Byte> -> seq<Byte>)
    requires |idx| <= 24 && Digest(hash)
    ensures Entropy(idx, hash) == [] || (|idx| % 3 == 0 && |Entropy(idx, hash)| == |idx| * 4 / 3)
  {
  }

  // ----- Words and phrases (strings are given without their terminator) -----

  ghost predicate WordList(words: seq<string>) {
    |words| == 2048 &&
    (forall i :: 0 <= i < |words| ==> words[i] != "" && ' ' !in words[i]) &&
    (forall i, j :: 0 <= i < j < |words| ==> words[i] != words[j])
  }

  function Phrase(idx: seq<nat>, words: seq<string>): string
    requires Digits(idx, |words|)
  {
    if idx == [] then ""
    else if |idx| == 1 then words[idx[0]]
    else words[idx[0]] + " " + Phrase(idx[1..], words)
  }

  /** Where the first space is, or the end. */
  function SpaceAt(s: string): (n: nat)
    ensures n <= |s| && (n < |s| ==> s[n] == ' ') && forall k :: 0 <= k < n ==> s[k] != ' '
  {
    if s == [] || s[0] == ' ' then 0 else 1 + SpaceAt(s[1..])
  }

  /** The first position of w among the words from i on, or their number. */
  function IndexFrom(w: string, words: seq<string>, i: nat): (n: nat)
    requires i <= |words|
    ensures i <= n <= |words| && (n < |words| ==> words[n] == w)
    ensures forall k :: i <= k < n ==> words[k] != w
    decreases |words| - i
  {
    if i == |words| || words[i] == w then i else IndexFrom(w, words, i + 1)
  }

  datatype Parsed = Parsed(idx: seq<nat>, complete: bool)

  /** The word numbers up to the first unknown word or the limit, and whether the text ended there. */
  function Parse(s: string, words: seq<string>, room: nat): (p: Parsed)
    ensures |p.idx| <= room && Digits(p.idx, |words|)
    decreases room
  {
    if s == "" then Parsed([], true)
    else if room == 0 then Parsed([], false)
    else
      var n := SpaceAt(s);
      var i := IndexFrom(s[..n], words, 0);
      if i == |words| then Parsed([], false)
      else if n == |s| then Parsed([i], true)
      else
        var rest := Parse(s[n + 1..], words, room - 1);
        Parsed([i] + rest.idx, rest.complete)
  }

  function Encoded(data: seq<Byte>, words: seq<string>, hash: seq<Byte> -> seq<Byte>): string
    requires WordList(words) && Digest(hash) && |data| % 4 == 0 && |data| <= 1024
  {
    Phrase(Indices(data, hash(data)), words)
  }

  function Decoded(phrase: string, words: seq<string>, hash: seq<Byte> -> seq<Byte>): seq<Byte>
    requires WordList(words) && Digest(hash)
  {
    var p := Parse(phrase, words, 24);
    if p.complete then Entropy(p.idx, hash) else []
  }

  lemma SpaceIs(s: string, n: nat)
    requires n <= |s| && (n < |s| ==> s[n] == ' ') && forall k :: 0 <= k < n ==> s[k] != ' '
    ensures SpaceAt(s) == n
  {
    var m := SpaceAt(s);
    assert n < |s| ==> s[n] == ' ';
    assert m < |s| ==> s[m] == ' ';
  }

  lemma IndexIs(words: seq<string>, i: nat)
    requires WordList(words) && i < |words|
    ensures IndexFrom(words[i], words, 0) == i
  {
  }

  /** A text begins with word i, up to its first space, exactly when the parser finds i there. */
  lemma FirstWord(s: string, words: seq<string>, i: nat)
    requires WordList(words) && i < |words|
    ensures IndexFrom(s[..SpaceAt(s)], words, 0) == i
       <==> |words[i]| <= |s| && s[..|words[i]|] == words[i] && (|words[i]| < |s| ==> s[|words[i]|] == ' ')
    ensures IndexFrom(s[..SpaceAt(s)], words, 0) == i ==> SpaceAt(s) == |words[i]|
  {
    var w := words[i];
    IndexIs(words, i);
    if |w| <= |s| && s[..|w|] == w && (|w| < |s| ==> s[|w|] == ' ') {
      forall k | 0 <= k < |w|
        ensures s[k] != ' '
      {
        assert s[k] == w[k] && w[k] in w;
      }
      SpaceIs(s, |w|);
    }
  }

  lemma PhraseHead(idx: seq<nat>, words: seq<string>)
    requires WordList(words) && Digits(idx, |words|) && idx != []
    ensures words[idx[0]] != ""
    ensures Phrase(idx, words) == words[idx[0]] + (if |idx| == 1 then "" else " " + Phrase(idx[1..], words))
    ensures |idx| > 1 ==> Phrase(idx[1..], words) != ""
  {
  }

  predicate Spells(s: string, idx: seq<nat>, words: seq<string>)
    requires Digits(idx, |words|)
  {
    s == Phrase(idx, words) || (idx != [] && s == Phrase(idx, words) + " ")
  }

  /** A text spells words when it is the first of them alone, or that, a space, and a text that spells the rest. */
  lemma SpellsStep(s: string, idx: seq<nat>, words: seq<string>)
    requires WordList(words) && Digits(idx, |words|) && idx != []
    ensures var w := words[idx[0]];
      Spells(s, idx, words) <==>
        |w| <= |s| && s[..|w|] == w && (|w| < |s| ==> s[|w|] == ' ') &&
        if |w| == |s| then |idx| == 1 else Spells(s[|w| + 1..], idx[1..], words)
  {
    hide Phrase;
    PhraseHead(idx, words);
    var w := words[idx[0]];
    if |idx| == 1 {
      assert idx[1..] == [];
      NoWords(words);
    }
    var tail := if |idx| == 1 then "" else " " + Phrase(idx[1..], words);
    Associates(w, tail, " ");
    if |w| <= |s| && s[..|w|] == w {
      if |w| < |s| && s[|w|] == ' ' {
        assert s == w + " " + s[|w| + 1..];
        var rest := s[|w| + 1..];
        if |idx| > 1 {
          assert w + " " + (Phrase(idx[1..], words) + " ") == Phrase(idx, words) + " ";
          if Spells(s, idx, words) {
            assert s[|w| + 1..] == rest;
            assert Phrase(idx, words)[|w| + 1..] == Phrase(idx[1..], words);
            assert (Phrase(idx, words) + " ")[|w| + 1..] == Phrase(idx[1..], words) + " ";
          }
        }
      }
    }
  }

  lemma Associates(s: string, t: string, u: string)
    ensures (s + t) + u == s + (t + u)
  {
  }

  lemma NoWords(words: seq<string>)
    ensures Phrase([], words) == ""
  {
  }

  /** A text parses to these word numbers exactly when it is their phrase, or that and one space. */
  lemma {:induction false} ParseIff(s: string, words: seq<string>, room: nat, idx: seq<nat>)
    requires WordList(words) && Digits(idx, |words|) && |idx| <= room
    ensures Parse(s, words, room) == Parsed(idx, true) <==> Spells(s, idx, words)
    decreases room
  {
    hide SpaceAt, IndexFrom, Spells, WordList;
    if idx == [] {
      SpellsNothing(s, words);
    } else {
      var w := words[idx[0]];
      SpellsStep(s, idx, words);
      FirstWord(s, words, idx[0]);
      assert w != "" by { PhraseHead(idx, words); }
      if |w| < |s| && IndexFrom(s[..SpaceAt(s)], words, 0) == idx[0] {
        ParseIff(s[|w| + 1..], words, room - 1, idx[1..]);
        assert idx == [idx[0]] + idx[1..];
      }
    }
  }

  lemma SpellsNothing(s: string, words: seq<string>)
    ensures Spells(s, [], words) <==> s == ""
  {
  }

  /** A phrase is accepted as an entropy exactly when it is the encoding of that entropy, one trailing
      space being tolerated. */
  lemma DecodedIff(phrase: string, e: seq<Byte>, words: seq<string>, hash: seq<Byte> -> seq<Byte>)
    requires WordList(words) && Digest(hash)
    requires 4 <= |e| <= 32 && |e| % 4 == 0
    ensures Decoded(phrase, words, hash) == e
       <==> phrase == Encoded(e, words, hash) || phrase == Encoded(e, words, hash) + " "
  {
    hide Parse, Phrase, Entropy, Indices, Regrouped;
    var md := hash(e);
    IndicesLength(e, md);
    var idx := Indices(e, md);
    ParseIff(phrase, words, 24, idx);
    var p := Parse(phrase, words, 24);
    ParseLength(phrase, words, 24);
    if p.complete {
      EntropyIff(p.idx, e, hash);
    }
  }

  lemma ParseLength(s: string, words: seq<string>, room: nat)
    ensures |Parse(s, words, room).idx| <= room && Digits(Parse(s, words, room).idx, |words|)
  {
  }

  lemma DecodeEncode(e: seq<Byte>, words: seq<string>, hash: seq<Byte> -> seq<Byte>)
    requires WordList(words) && Digest(hash)
    requires 4 <= |e| <= 32 && |e| % 4 == 0
    ensures Decoded(Encoded(e, words, hash), words, hash) == e
  {
    DecodedIff(Encoded(e, words, hash), e, words, hash);
  }

  // ----- Writing a phrase -----

  /** A text in a buffer filled up with zeros, as far as the buffer goes. */
  predicate Holds(phrase: seq<char>, text: string) {
    forall k :: 0 <= k < |phrase| ==> phrase[k] == if k < |text| then text[k] else '\0'
  }

  /** strncpy: at most the rest of the buffer, and zeros behind a shorter word. */
  method CopyWord(phrase: array<char>, len: nat, word: string)
    requires len <= phrase.Length
    modifies phrase
    ensures phrase[..len] == old(phrase[..len]) && Holds(phrase[len..], word)
  {
    forall k | len <= k < phrase.Length {
      phrase[k] := if k - len < |word| then word[k - len] else '\0';
    }
  }

  lemma HoldsMore(phrase: seq<char>, text: string, word: string, len: nat)
    requires len == |text| <= |phrase| && phrase[..len] == text && Holds(phrase[len..], word)
    ensures Holds(phrase, text + word)
  {
    assert forall k :: 0 <= k < len ==> phrase[k] == phrase[..len][k];
    assert forall k :: len <= k < |phrase| ==> phrase[k] == phrase[len..][k - len];
  }

  lemma {:induction false} PhraseSnoc(idx: seq<nat>, i: nat, words: seq<string>)
    requires WordList(words) && Digits(idx, |words|) && i < |words|
    ensures Phrase(idx + [i], words) == Phrase(idx, words) + (if idx == [] then "" else " ") + words[i]
  {
    hide Phrase, WordList;
    assert Digits(idx + [i], |words|);
    PhraseHead(idx + [i], words);
    if idx == [] {
      NoWords(words);
    } else {
      assert (idx + [i])[1..] == idx[1..] + [i];
      PhraseHead(idx, words);
      PhraseSnoc(idx[1..], i, words);
      if |idx| == 1 {
        NoWords(words);
      }
    }
  }

  /** The phrase, or as much of it as fits; the result is the length with the terminator, or 0 when that
      did not fit. */
  method Encode(phrase: array?<char>, words: seq<string>, data: seq<Byte>, hash: seq<Byte> -> seq<Byte>)
    returns (len: nat)
    requires WordList(words) && Digest(hash) && 0 < |data| <= 968
    modifies phrase
    ensures |data| % 4 != 0 ==> len == 0 && (phrase != null ==> phrase[..] == old(phrase[..]))
    ensures |data| % 4 == 0 ==> var text := Encoded(data, words, hash);
      (phrase != null ==> Holds(phrase[..], text)) &&
      len == if phrase == null || |text| < phrase.Length then |text| + 1 else 0
  {
    hide Phrase, WordList, Indices;
    if |data| % 4 != 0 {
      return 0;
    }
    var md := hash(data);
    var buf := data + md;
    ghost var idx := Indices(data, md);
    IndicesLength(data, md);
    WordCount(words);
    NoWords(words);
    var i: nat := 0;
    len := 0;
    while i < |data| * 3 / 4
      invariant i <= |idx| && len == |Phrase(idx[..i], words)|
      invariant phrase != null && i > 0 ==> Holds(phrase[..], Phrase(idx[..i], words))
    {
      WordNumberIsIndex(data, md, i);
      var word := words[WordNumber(buf, i)];
      ghost var done := Phrase(idx[..i], words);
      PhraseSnoc(idx[..i], idx[i], words);
      assert idx[..i + 1] == idx[..i] + [idx[i]];
      if i > 0 {
        if phrase != null && len < phrase.Length {
          phrase[len] := ' ';
        }
        len := len + 1;
      }
      if phrase != null && len < phrase.Length {
        CopyWord(phrase, len, word);
        HoldsMore(phrase[..], if i == 0 then "" else done + " ", word, len);
      }
      len := len + |word|;
      i := i + 1;
    }
    assert idx[..i] == idx;
    len := if phrase == null || len + 1 <= phrase.Length then len + 1 else 0;
  }

  lemma WordCount(words: seq<string>)
    requires WordList(words)
    ensures |words| == 2048
  {
  }

  // ----- Reading a phrase -----

  /** The first word of the list that the text continues with, followed by a space or the end. */
  method FindWord(words: seq<string>, phrase: string, at: nat) returns (i: nat)
    requires WordList(words) && at <= |phrase|
    ensures var s := phrase[at..]; i == IndexFrom(s[..SpaceAt(s)], words, 0)
  {
    ghost var s := phrase[at..];
    ghost var found := IndexFrom(s[..SpaceAt(s)], words, 0);
    i := 0;
    while i < |words|
      invariant i <= found
    {
      var end := at + |words[i]|;
      FirstWord(s, words, i);
      assert end <= |phrase| ==> s[..|words[i]|] == phrase[at..end];
      assert end < |phrase| ==> s[|words[i]|] == phrase[end];
      if end <= |phrase| && phrase[at..end] == words[i] && (end == |phrase| || phrase[end] == ' ') {
        return;
      }
      i := i + 1;
    }
  }

  function Then(idx: seq<nat>, p: Parsed): Parsed {
    Parsed(idx + p.idx, p.complete)
  }

  lemma ThenMore(idx: seq<nat>, i: nat, p: Parsed)
    ensures Then(idx, Parsed([i] + p.idx, p.complete)) == Then(idx + [i], p)
  {
    assert idx + ([i] + p.idx) == (idx + [i]) + p.idx;
  }

  /** The word numbers of a phrase; complete when it ended after at most 24 of them. */
  method ReadWords(words: seq<string>, phrase: string) returns (idx: seq<nat>, complete: bool)
    requires WordList(words)
    ensures Parse(phrase, words, 24) == Parsed(idx, complete)
  {
    hide SpaceAt, IndexFrom, Parse, WordList, Then, After;
    WordCount(words);
    ThenNothing(Parse(phrase, words, 24));
    assert phrase[0..] == phrase;
    idx := [];
    var word: nat := 0;
    var ended := false;
    ghost var rest := phrase;
    while !ended && word < |phrase| && |idx| < 24
      invariant |idx| <= 24 && word <= |phrase| && rest == if ended then "" else phrase[word..]
      invariant Parse(phrase, words, 24) == Then(idx, Parse(rest, words, 24 - |idx|))
      decreases 24 - |idx|
    {
      var i := FindWord(words, phrase, word);
      if i == |words| {
        ParseUnknown(rest, words, 24 - |idx|, idx);
        complete := false;
        return;
      }
      ParseWord(rest, words, 24 - |idx|, idx);
      idx := idx + [i];
      AfterIs(phrase, word);
      var space := FindSpace(phrase, word);
      if space == |phrase| {
        ended := true;
      } else {
        word := space + 1;
      }
      rest := After(rest);
    }
    ParseStops(rest, words, 24 - |idx|, idx);
    complete := ended || word == |phrase|;
  }

  /** What follows the first word and its space. */
  function After(s: string): string {
    if SpaceAt(s) < |s| then s[SpaceAt(s) + 1..] else ""
  }

  lemma AfterIs(phrase: string, word: nat)
    requires word <= |phrase|
    ensures var end := word + SpaceAt(phrase[word..]);
      end <= |phrase| && After(phrase[word..]) == if end == |phrase| then "" else phrase[end + 1..]
  {
    hide SpaceAt;
    SpaceFacts(phrase[word..]);
  }

  lemma ThenNothing(p: Parsed)
    ensures Then([], p) == p
  {
    assert [] + p.idx == p.idx;
  }

  lemma ParseUnknown(s: string, words: seq<string>, room: nat, idx: seq<nat>)
    requires s != "" && room > 0 && IndexFrom(s[..SpaceAt(s)], words, 0) == |words|
    ensures Then(idx, Parse(s, words, room)) == Parsed(idx, false)
  {
    hide Parse;
    ParseStep(s, words, room);
    assert idx + [] == idx;
  }

  lemma ParseWord(s: string, words: seq<string>, room: nat, idx: seq<nat>)
    requires s != "" && room > 0 && IndexFrom(s[..SpaceAt(s)], words, 0) < |words|
    ensures Then(idx, Parse(s, words, room)) ==
      Then(idx + [IndexFrom(s[..SpaceAt(s)], words, 0)], Parse(After(s), words, room - 1))
  {
    hide Parse, IndexFrom, SpaceAt;
    SpaceFacts(s);
    ParseStep(s, words, room);
    ParseStep("", words, room - 1);
    ThenMore(idx, IndexFrom(s[..SpaceAt(s)], words, 0), Parse(After(s), words, room - 1));
  }

  lemma ParseStops(s: string, words: seq<string>, room: nat, idx: seq<nat>)
    requires s == "" || room == 0
    ensures Then(idx, Parse(s, words, room)) == Parsed(idx, s == "")
  {
    hide Parse;
    ParseStep(s, words, room);
    assert idx + [] == idx;
  }

  lemma ParseStep(s: string, words: seq<string>, room: nat)
    ensures s == "" ==> Parse(s, words, room) == Parsed([], true)
    ensures s != "" && room == 0 ==> Parse(s, words, room) == Parsed([], false)
    ensures s != "" && room > 0 ==>
      var n := SpaceAt(s);
      var i := IndexFrom(s[..n], words, 0);
      Parse(s, words, room) ==
        if i == |words| then Parsed([], false)
        else if n == |s| then Parsed([i], true)
        else var rest := Parse(s[n + 1..], words, room - 1); Parsed([i] + rest.idx, rest.complete)
  {
  }

  lemma SpaceFacts(s: string)
    ensures SpaceAt(s) <= |s|
  {
  }

  method FindSpace(phrase: string, from: nat) returns (at: nat)
    requires from <= |phrase|
    ensures from <= at <= |phrase| && at == from + SpaceAt(phrase[from..])
  {
    at := from;
    while at < |phrase| && phrase[at] != ' '
      invariant from <= at <= |phrase| && forall k :: from <= k < at ==> phrase[k] != ' '
    {
      at := at + 1;
    }
    SpaceIs(phrase[from..], at - from);
  }

  /** The bytes of the words, of which the first len are the entropy when the checksum holds. */
  method CheckWords(idx: seq<nat>, hash: seq<Byte> -> seq<Byte>) returns (buf: array<Byte>, len: nat)
    requires Digits(idx, 2048) && |idx| <= 24 && Digest(hash) && |idx| % 3 == 0
    ensures fresh(buf) && len <= buf.Length && buf[..len] == Entropy(idx, hash)
  {
    hide HighBits, Regrouped;
    var count := |idx|;
    RegroupedLength(idx);
    buf := new Byte[(count * 11 + 7) / 8](_ => 0);
    var b: Byte := 0;
    var i: nat := 0;
    while i < (count * 11 + 7) / 8
      invariant i <= buf.Length && buf[..i] == Regrouped(idx)[..i]
      invariant b == if i == 0 then 0 else Regrouped(idx)[i - 1]
    {
      ByteNumberIsByte(idx, i);
      b := ByteNumber(idx, i);
      buf[i] := b;
      i := i + 1;
    }
    assert buf[..] == Regrouped(idx);
    len := count * 4 / 3;
    assert buf[..len] == Regrouped(idx)[..len];
    var md := hash(buf[..len]);
    if HighBits(b, count / 3) != HighBits(md[0], count / 3) {
      len := 0;
    }
  }

  /** The entropy of a phrase, or 0 bytes when it is not one or does not fit. */
  method Decode(data: array?<Byte>, words: seq<string>, phrase: string, hash: seq<Byte> -> seq<Byte>)
    returns (len: nat)
    requires WordList(words) && Digest(hash)
    modifies data
    ensures var e := Decoded(phrase, words, hash);
      len == (if data == null || |e| <= data.Length then |e| else 0) &&
      (data != null && |e| <= data.Length ==> data[..] == e + old(data[|e|..]))
    ensures data != null && len == 0 ==> data[..] == old(data[..])
  {
    hide Parse, WordList, Entropy;
    ParseLength(phrase, words, 24);
    WordCount(words);
    var idx, complete := ReadWords(words, phrase);
    len := 0;
    EntropyLength(idx, hash);
    if |idx| % 3 == 0 && complete {
      var buf;
      buf, len := CheckWords(idx, hash);
      if data != null && len <= data.Length {
        forall k | 0 <= k < len {
          data[k] := buf[k];
        }
        assert data[..len] == buf[..len];
      }
    }
    if data != null && len > data.Length {
      len := 0;
    }
  }

  lemma RegroupedLength(idx: seq<nat>)
    ensures |Regrouped(idx)| == (|idx| * 11 + 7) / 8
  {
  }
}
