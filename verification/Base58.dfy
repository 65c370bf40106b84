/** Base58: radix conversion in place in a fixed digit buffer, both ways, and the checksummed variants. */
module Base58 {
  import opened Words
  import opened Radix

  /** The encoder's buffer holds every number of n bytes. */
  lemma EncodeBufferFits(n: nat)
    ensures Pow(256, n) <= Pow(58, n * 138 / 100 + 1)
  {
    assert Pow(256, 8) <= Pow(58, 11);
    PowersCompare(58, 256, 11, 8, n * 138 / 100 + 1, n);
  }

  /** The decoder's buffer holds every number of n base-58 digits. */
  lemma DecodeBufferFits(n: nat)
    ensures Pow(58, n) <= Pow(256, n * 733 / 1000 + 1)
  {
    PowersOf58();
    PowersCompare(256, 58, 52, 71, n * 733 / 1000 + 1, n);
  }

  lemma PowersOf58()
    ensures Pow(58, 71) <= Pow(256, 52)
  {
    assert Pow(58, 8) == 0x7479027ea100 && Pow(58, 9) == 0x1a636a90b07a00;
    PowAdd(58, 8, 9);
    PowAdd(58, 9, 9);
    assert Pow(58, 17) == 0xc018588c2b6cc46cf08ba0000 && Pow(58, 18) == 0x2b85840fc1d6a480ae7fa240000;
    PowAdd(58, 17, 18);
    PowAdd(58, 18, 18);
    PowAdd(58, 35, 36);
    assert Pow(256, 13) == 0x100000000000000000000000000;
    PowAdd(256, 13, 13);
    PowAdd(256, 26, 26);
  }

  // ----- The alphabet -----

  const ALPHABET: string :=
    "123456789" + "ABCDEFGH" + "JKLMN" + "PQRSTUVWXYZ" + "abcdefghijk" + "mnopqrstuvwxyz"

  const NO_DIGIT: nat := 0xffff_ffff

  function Offset(c: char): nat {
    c as int
  }

  /** The decoder's switch: a run of letters for each gap in the alphabet. */
  function DigitOf(c: char): nat {
    if '1' <= c <= '9' then Offset(c) - Offset('1')
    else if 'A' <= c <= 'H' then Offset(c) - Offset('A') + 9
    else if 'J' <= c <= 'N' then Offset(c) - Offset('J') + 17
    else if 'P' <= c <= 'Z' then Offset(c) - Offset('P') + 22
    else if 'a' <= c <= 'k' then Offset(c) - Offset('a') + 33
    else if 'm' <= c <= 'z' then Offset(c) - Offset('m') + 44
    else NO_DIGIT
  }

  /** The decoder's switch inverts the encoder's table: both name the same 58 characters. */
  lemma AlphabetInverse()
    ensures |ALPHABET| == 58
    ensures forall d :: 0 <= d < 58 ==> DigitOf(ALPHABET[d]) == d
    ensures forall c: char :: DigitOf(c) < 58 ==> ALPHABET[DigitOf(c)] == c
    ensures forall c: char :: DigitOf(c) < 58 || DigitOf(c) == NO_DIGIT
  {
    forall d: nat | d < 58
      ensures Offset(ALPHABET[d]) == LetterCode(d)
    {
      AlphabetIs(d);
    }
    forall d: nat | d < 58
      ensures DigitOf(ALPHABET[d]) == d
    {
      assert Offset(ALPHABET[d]) == LetterCode(d);
    }
    forall c: char | DigitOf(c) < 58
      ensures ALPHABET[DigitOf(c)] == c
    {
      assert Offset(ALPHABET[DigitOf(c)]) == LetterCode(DigitOf(c));
      assert LetterCode(DigitOf(c)) == Offset(c);
    }
  }

  function LetterCode(d: nat): nat {
    if d < 9 then d + Offset('1')
    else if d < 17 then d - 9 + Offset('A')
    else if d < 22 then d - 17 + Offset('J')
    else if d < 33 then d - 22 + Offset('P')
    else if d < 44 then d - 33 + Offset('a')
    else d - 44 + Offset('m')
  }

  lemma AlphabetIs(d: nat)
    requires d < |ALPHABET|
    ensures |ALPHABET| == 58 && Offset(ALPHABET[d]) == LetterCode(d)
  {
    if d < 9 {
      assert ALPHABET[d] == "123456789"[d];
    } else if d < 17 {
      assert ALPHABET[d] == "ABCDEFGH"[d - 9];
    } else if d < 22 {
      assert ALPHABET[d] == "JKLMN"[d - 17];
    } else if d < 33 {
      assert ALPHABET[d] == "PQRSTUVWXYZ"[d - 22];
    } else if d < 44 {
      assert ALPHABET[d] == "abcdefghijk"[d - 33];
    } else {
      assert ALPHABET[d] == "mnopqrstuvwxyz"[d - 44];
    }
  }

  /** Its letters are the ASCII digits and letters but 0, O, I and l, in ascending order, which leaves one value for
      each of them. */
  lemma AlphabetAscends(c: char, d: nat, e: nat)
    ensures DigitOf(c) < 58 <==>
      ('0' < c <= '9' || 'A' <= c <= 'Z' || 'a' <= c <= 'z') && c != 'O' && c != 'I' && c != 'l'
    ensures d < e < 58 ==> |ALPHABET| == 58 && ALPHABET[d] < ALPHABET[e]
  {
    if d < e < 58 {
      AlphabetIs(d);
      AlphabetIs(e);
    }
  }

  function Letters(digits: seq<nat>): (s: string)
    requires Digits(digits, 58)
    ensures |s| == |digits|
  {
    AlphabetInverse();
    if digits == [] then [] else [ALPHABET[digits[0]]] + Letters(digits[1..])
  }

  /** The digits of the longest prefix of valid characters. */
  function ValidDigits(s: string): (d: seq<nat>)
    ensures |d| <= |s| && Digits(d, 58)
  {
    if s == [] || DigitOf(s[0]) >= 58 then [] else [DigitOf(s[0])] + ValidDigits(s[1..])
  }

  predicate Valid(s: string) {
    forall i :: 0 <= i < |s| ==> DigitOf(s[i]) < 58
  }

  lemma {:induction false} LettersThenDigits(d: seq<nat>)
    requires Digits(d, 58)
    ensures ValidDigits(Letters(d)) == d && Valid(Letters(d))
  {
    AlphabetInverse();
    if d != [] {
      LettersThenDigits(d[1..]);
      assert Letters(d)[1..] == Letters(d[1..]);
    }
  }

  lemma {:induction false} DigitsThenLetters(s: string)
    requires Valid(s)
    ensures Letters(ValidDigits(s)) == s && |ValidDigits(s)| == |s|
  {
    AlphabetInverse();
    if s != [] {
      DigitsThenLetters(s[1..]);
    }
  }

  // ----- What the two operations compute -----

  function Encoded(data: seq<Byte>): string {
    Letters(Zeros(Leading(data, 0))) + Letters(FromNat(Value(data, 256), 58))
  }

  function Decoded(s: string): (data: seq<Byte>) {
    var z := Leading(s, '1');
    Zeros(z) + FromNat(Value(ValidDigits(s[z..]), 58), 256)
  }

  lemma DecodeEncode(data: seq<Byte>)
    ensures Decoded(Encoded(data)) == data
  {
    hide Value, Pow, FromNat, Letters, ValidDigits;
    var z := Leading(data, 0);
    var v := Value(data, 256);
    var digits := FromNat(v, 58);
    var s := Encoded(data);
    StripIsFromNat(data, z, 256);
    ValueOfFromNat(v, 58);
    LettersOfZeros(z);
    assert s[z..] == Letters(digits);
    HeadNotOne(digits);
    assert Leading(s, '1') == z by {
      LeadingIs(s, '1', z);
    }
    LettersThenDigits(digits);
    assert data == data[..z] + data[z..];
    assert data[..z] == Zeros(z);
  }

  lemma {:induction false} LettersOfZeros(n: nat)
    ensures Letters(Zeros(n)) == seq(n, _ => '1')
  {
    AlphabetInverse();
    if n > 0 {
      LettersOfZeros(n - 1);
      assert seq(n, _ => '1') == ['1'] + seq(n - 1, _ => '1');
    }
  }

  lemma EncodeDecode(s: string)
    requires Valid(s)
    ensures Encoded(Decoded(s)) == s
  {
    hide Value, Pow, FromNat;
    hide Letters, ValidDigits;
    var z := Leading(s, '1');
    var digits := ValidDigits(s[z..]);
    var v := Value(digits, 58);
    var tail := FromNat(v, 256);
    var data := Decoded(s);
    DigitsThenLetters(s[z..]);
    HeadNotZero(s[z..]);
    FromNatOfValue(digits, 58);
    ValueOfFromNat(v, 256);
    assert Leading(data, 0) == z by {
      LeadingIs(data, 0, z);
    }
    assert Value(data, 256) == v by {
      ValueSkipsZeros(data, z, 256);
      assert data[z..] == tail;
    }
    LettersOfZeros(z);
    assert s == s[..z] + s[z..];
  }

  lemma HeadNotOne(d: seq<nat>)
    requires Digits(d, 58) && (d == [] || d[0] != 0)
    ensures Letters(d) == [] || Letters(d)[0] != '1'
    ensures |Letters(d)| == |d|
  {
    AlphabetInverse();
  }

  lemma HeadNotZero(s: string)
    requires Valid(s) && (s == [] || s[0] != '1')
    ensures var d := ValidDigits(s); d == [] || d[0] != 0
  {
    AlphabetInverse();
  }

  /** Decoding looks no further than the first character outside the alphabet. */
  /** Three texts: of one byte, of three equal ones, and of leading zeros. */
  lemma KnownTexts()
    ensures Encoded([0x61]) == "2g" && Encoded([0x62, 0x62, 0x62]) == "a3gV" && Encoded([0, 0, 1]) == "112"
  {
    hide Value, FromNat, Letters, Leading, Zeros;
    KnownDigits();
    KnownLetters();
    KnownZeros();
    assert "" + "2g" == "2g" && "" + "a3gV" == "a3gV";
  }

  lemma KnownZeros()
    ensures Leading([0x61], 0) == 0 && Leading([0x62, 0x62, 0x62], 0) == 0 && Leading([0, 0, 1], 0) == 2
    ensures Letters(Zeros(0)) == "" && Letters(Zeros(2)) == "11"
  {
    AlphabetIs(0);
  }

  lemma KnownDigits()
    ensures FromNat(Value([0x61], 256), 58) == [1, 39] && FromNat(Value([0, 0, 1], 256), 58) == [1]
    ensures FromNat(Value([0x62, 0x62, 0x62], 256), 58) == [33, 2, 39, 28]
  {
    hide Value;
    KnownValues();
    assert FromNat(1, 58) == [1] && FromNat(97, 58) == [1, 39];
    assert FromNat(33, 58) == [33] && FromNat(1916, 58) == [33, 2] && FromNat(111167, 58) == [33, 2, 39];
    assert FromNat(6447714, 58) == [33, 2, 39, 28];
  }

  lemma KnownValues()
    ensures Value([0x61], 256) == 97 && Value([0x62, 0x62, 0x62], 256) == 6447714 && Value([0, 0, 1], 256) == 1
  {
  }

  lemma KnownLetters()
    ensures Letters([1, 39]) == "2g" && Letters([33, 2, 39, 28]) == "a3gV" && Letters([1]) == "2"
  {
    AlphabetIs(1);
    AlphabetIs(2);
    AlphabetIs(28);
    AlphabetIs(33);
    AlphabetIs(39);
  }

  function ValidPrefix(s: string): string {
    s[..|ValidDigits(s)|]
  }

  lemma DecodeStopsAtBadDigit(s: string)
    ensures Decoded(s) == Decoded(ValidPrefix(s)) && Valid(ValidPrefix(s))
    ensures Encoded(Decoded(s)) == ValidPrefix(s)
  {
    hide Value, Pow, FromNat, Letters;
    var z, p := Leading(s, '1'), ValidPrefix(s);
    PrefixOf(s);
    OnesAreValid(s, z);
    assert Leading(p, '1') == z by {
      LeadingIs(p, '1', z);
    }
    assert p[z..] == ValidPrefix(s[z..]);
    PrefixOf(s[z..]);
    EncodeDecode(p);
  }

  lemma {:induction false} PrefixOf(s: string)
    ensures Valid(ValidPrefix(s)) && ValidDigits(ValidPrefix(s)) == ValidDigits(s)
  {
    if s != [] && DigitOf(s[0]) < 58 {
      PrefixOf(s[1..]);
      assert ValidPrefix(s) == [s[0]] + ValidPrefix(s[1..]);
      assert ValidPrefix(s)[1..] == ValidPrefix(s[1..]);
    }
  }

  lemma {:induction false} OnesAreValid(s: string, z: nat)
    requires z <= |s| && forall i :: 0 <= i < z ==> s[i] == '1'
    ensures |ValidDigits(s)| == z + |ValidDigits(s[z..])|
    decreases z
  {
    if z == 0 {
      assert s[0..] == s;
    } else {
      OnesAreValid(s[1..], z - 1);
      assert s[1..][z - 1..] == s[z..];
    }
  }

  // ----- The conversions on a fixed digit buffer -----

  predicate Room(buf: seq<nat>, base: nat, mult: nat, c: nat) {
    mult * Value(buf, base) + c < Pow(base, |buf|)
  }

  /** One pass from the last digit to the first: buf becomes mult * buf + c. The running carry stays
      below mult, so it never leaves 32 bits, and when the result fits nothing is carried out. */
  method MultiplyAdd(buf: array<Byte>, base: nat, mult: nat, c: nat)
    requires (base == 58 && mult == 256) || (base == 256 && mult == 58)
    requires c < mult && Digits(buf[..], base) && Room(buf[..], base, mult, c)
    modifies buf
    ensures Digits(buf[..], base) && Value(buf[..], base) == mult * Value(old(buf[..]), base) + c
  {
    hide Value, Pow, Pass;
    ghost var was: seq<nat> := buf[..];
    var n := buf.Length;
    var carry: Word := c;
    var j: nat := n;
    assert buf[n..] == [] && was[n..] == [];
    PassStarts(base, mult, c);
    while j > 0
      invariant j <= n && carry < mult && forall k :: 0 <= k < n ==> buf[k] < base
      invariant forall k :: 0 <= k < j ==> buf[k] == was[k]
      invariant Pass(buf[j..], was[j..], base, mult, c, carry)
    {
      CarryBelow(was[j - 1], base, mult, carry);
      var sum: Word := carry + buf[j - 1] * mult;
      DivModIdentity(sum, base);
      PassStep(buf[j..], was[j..], was[j - 1], base, mult, c, carry, sum / base, sum % base);
      assert was[j - 1..] == [was[j - 1]] + was[j..];
      ghost var after := buf[j..];
      buf[j - 1] := sum % base;
      carry := sum / base;
      j := j - 1;
      assert buf[j..] == [sum % base] + after;
    }
    assert buf[0..] == buf[..] && was[0..] == was;
    PassEnds(buf[..], was, base, mult, c, carry);
  }

  /** The digits done so far and the carry, against the same positions of the old buffer. */
  predicate Pass(done: seq<nat>, rest: seq<nat>, base: nat, mult: nat, c: nat, carry: nat) {
    |done| == |rest| &&
    Value(done, base) + carry * Pow(base, |done|) == mult * Value(rest, base) + c
  }

  lemma PassStarts(base: nat, mult: nat, c: nat)
    ensures Pass([], [], base, mult, c, c)
  {
  }

  lemma PassEnds(done: seq<nat>, rest: seq<nat>, base: nat, mult: nat, c: nat, carry: nat)
    requires Pass(done, rest, base, mult, c, carry) && base > 0 && Room(rest, base, mult, c)
    ensures Value(done, base) == mult * Value(rest, base) + c
  {
    hide Value, Pow;
    NoCarry(Value(done, base), carry, Pow(base, |done|), mult * Value(rest, base) + c);
  }

  lemma NoCarry(v: nat, carry: nat, p: nat, x: nat)
    requires v + carry * p == x < p
    ensures carry == 0 && v == x
  {
    AtLeastFactor(p, if carry > 0 then carry else 1);
  }

  lemma CarryBelow(d: nat, base: nat, mult: nat, carry: nat)
    requires (base == 58 && mult == 256) || (base == 256 && mult == 58)
    requires d < base && carry < mult
    ensures var sum := carry + d * mult;
      sum / base < mult && sum % base < base && sum < 0x1_0000
  {
  }

  lemma PassStep(done: seq<nat>, rest: seq<nat>, d: nat, base: nat, mult: nat, c: nat, carry: nat, q: nat, r: nat)
    requires Pass(done, rest, base, mult, c, carry) && carry + d * mult == base * q + r
    ensures Pass([r] + done, [d] + rest, base, mult, c, q)
  {
    var p := Pow(base, |done|);
    assert ([r] + done)[1..] == done && ([d] + rest)[1..] == rest;
    PassAlgebra(q, r, base, p, carry, d, mult);
    MultDistributes(mult, d, p, Value(rest, base));
  }

  lemma PassAlgebra(q: nat, r: nat, base: nat, p: nat, carry: nat, d: nat, mult: nat)
    requires carry + d * mult == base * q + r
    ensures r * p + q * (base * p) == carry * p + mult * (d * p)
  {
    assert r * p + q * (base * p) == (base * q + r) * p;
    assert (carry + d * mult) * p == carry * p + mult * (d * p);
  }

  lemma MultDistributes(mult: nat, d: nat, p: nat, v: nat)
    ensures mult * (d * p + v) == mult * (d * p) + mult * v
  {
  }

  /** A number of i + 1 digits in one base fits a buffer that holds n digits of that base. */
  lemma PrefixFits(digits: seq<nat>, i: nat, from: nat, to: nat, size: nat, buf: seq<nat>)
    requires from > 1 && i < |digits| && Digits(digits, from) && |buf| == size
    requires Value(buf, to) == Value(digits[..i], from)
    requires Pow(from, |digits|) <= Pow(to, size)
    ensures Room(buf, to, from, digits[i])
    ensures Value(digits[..i + 1], from) == from * Value(digits[..i], from) + digits[i]
  {
    assert digits[..i + 1] == digits[..i] + [digits[i]];
    ValueAppend(digits[..i], digits[i], from);
    ValueBelow(digits[..i + 1], from);
    PowExpMono(from, i + 1, |digits|);
  }

  method SkipZeros(buf: array<Byte>) returns (i: nat)
    ensures i <= buf.Length && (forall k :: 0 <= k < i ==> buf[k] == 0) && (i < buf.Length ==> buf[i] != 0)
  {
    i := 0;
    while i < buf.Length && buf[i] == 0
      invariant i <= buf.Length && forall k :: 0 <= k < i ==> buf[k] == 0
    {
      i := i + 1;
    }
  }

  lemma ZeroBuffer(buf: seq<nat>, base: nat)
    requires forall k :: 0 <= k < |buf| ==> buf[k] == 0
    ensures Value(buf, base) == 0
  {
    ValueSkipsZeros(buf, |buf|, base);
  }

  /** The digits of the leading zeros, the digits left in the buffer and the terminator. */
  method WriteText(str: array<char>, zcount: nat, buf: array<Byte>, skip: nat)
    requires skip <= buf.Length && Digits(buf[skip..], 58) && zcount + buf.Length - skip < str.Length
    modifies str
    ensures str[..] == Letters(Zeros(zcount)) + Letters(buf[skip..]) + ['\0']
                       + old(str[zcount + buf.Length - skip + 1..])
  {
    hide Letters;
    ghost var ones, text := Letters(Zeros(zcount)), Letters(buf[skip..]);
    LettersOfZeros(zcount);
    var at: nat := 0;
    while at < zcount
      invariant at <= zcount && str[..at] == ones[..at]
      invariant forall k :: at <= k < str.Length ==> str[k] == old(str[k])
    {
      LettersAt([0], 0);
      str[at] := ALPHABET[0];
      at := at + 1;
    }
    var i := skip;
    while i < buf.Length
      invariant skip <= i <= buf.Length && at == zcount + i - skip
      invariant str[..at] == ones + text[..i - skip]
      invariant forall k :: at <= k < str.Length ==> str[k] == old(str[k])
    {
      LettersAt(buf[skip..], i - skip);
      str[at] := ALPHABET[buf[i]];
      assert str[..at + 1] == str[..at] + [str[at]];
      i, at := i + 1, at + 1;
    }
    str[at] := '\0';
  }

  /** The bytes after the leading zeros, converted digit by digit; skip is where the digits begin. */
  method ToDigits(data: seq<Byte>) returns (buf: array<Byte>, skip: nat)
    ensures fresh(buf) && skip <= buf.Length && buf[skip..] == FromNat(Value(data, 256), 58)
  {
    hide Value, Pow, FromNat;
    buf := new Byte[|data| * 138 / 100 + 1](_ => 0);
    ZeroBuffer(buf[..], 58);
    EncodeBufferFits(|data|);
    ZeroBuffer([], 256);
    var i: nat := 0;
    while i < |data|
      invariant i <= |data| && Digits(buf[..], 58) && Value(buf[..], 58) == Value(data[..i], 256)
    {
      PrefixFits(data, i, 256, 58, buf.Length, buf[..]);
      MultiplyAdd(buf, 58, 256, data[i]);
      i := i + 1;
    }
    assert data[..i] == data;
    skip := SkipZeros(buf);
    StripIsFromNat(buf[..], skip, 58);
    assert buf[skip..] == buf[..][skip..];
  }

  /** Writes the text and its terminator when they fit; with no buffer, only returns the length needed. */
  method Encode(str: array?<char>, data: seq<Byte>) returns (len: nat)
    modifies str
    ensures var text := Encoded(data) + ['\0'];
      len == (if str == null || |text| <= str.Length then |text| else 0) &&
      (str != null && |text| <= str.Length ==> str[..] == text + old(str[|text|..]))
    ensures str != null && len == 0 ==> str[..] == old(str[..])
  {
    hide Value, Pow, FromNat, Letters;
    var zcount: nat := 0;
    while zcount < |data| && data[zcount] == 0
      invariant zcount <= |data| && forall k :: 0 <= k < zcount ==> data[k] == 0
    {
      zcount := zcount + 1;
    }
    LeadingIs(data, 0, zcount);
    ValueSkipsZeros(data, zcount, 256);
    var buf, i := ToDigits(data[zcount..]);
    len := zcount + buf.Length - i + 1;
    LettersLength(zcount, buf[i..]);
    if str != null && len <= str.Length {
      WriteText(str, zcount, buf, i);
    } else if str != null {
      len := 0;
    }
  }

  lemma LettersLength(zcount: nat, digits: seq<nat>)
    requires Digits(digits, 58)
    ensures |Letters(Zeros(zcount))| == zcount && |Letters(digits)| == |digits|
  {
  }

  lemma {:induction false} LettersAt(digits: seq<nat>, i: nat)
    requires i < |digits| && Digits(digits, 58)
    ensures |ALPHABET| == 58 && Letters(digits)[i] == ALPHABET[digits[i]]
    decreases i
  {
    AlphabetInverse();
    if i > 0 {
      LettersAt(digits[1..], i - 1);
    }
  }

  lemma ValidEmpty()
    ensures forall str :: |ValidDigits(str)| <= |str| && Digits(ValidDigits(str), 58)
  {
  }

  lemma ValidNext(str: string, at: nat, digits: seq<nat>)
    requires at < |str| && DigitOf(str[at]) < 58 && at <= |digits| && ValidDigits(str[at..]) == digits[at..]
    ensures at < |digits| && digits[at] == DigitOf(str[at]) && ValidDigits(str[at + 1..]) == digits[at + 1..]
  {
    hide DigitOf;
    assert str[at..][0] == str[at] && str[at..][1..] == str[at + 1..];
    assert digits[at..] == [DigitOf(str[at])] + ValidDigits(str[at + 1..]);
    assert digits[at..][1..] == digits[at + 1..];
  }

  lemma ValidEnds(str: string, at: nat)
    requires at <= |str| && (at < |str| ==> DigitOf(str[at]) >= 58)
    ensures ValidDigits(str[at..]) == []
  {
    hide DigitOf;
    if at < |str| {
      assert str[at..][0] == str[at];
    }
  }

  /** The valid prefix of str as base-256 digits; skip is where the bytes begin. */
  method ToBytes(str: string) returns (buf: array<Byte>, skip: nat)
    ensures fresh(buf) && skip <= buf.Length && buf[skip..] == FromNat(Value(ValidDigits(str), 58), 256)
  {
    hide Value, Pow, FromNat, ValidDigits;
    ghost var digits := ValidDigits(str);
    ValidEmpty();
    buf := new Byte[|str| * 733 / 1000 + 1](_ => 0);
    ZeroBuffer(buf[..], 256);
    DecodeBufferFits(|str|);
    PowExpMono(58, |digits|, |str|);
    ZeroBuffer([], 58);
    var at: nat := 0;
    while at < |str| && DigitOf(str[at]) < 58
      invariant at <= |digits| && ValidDigits(str[at..]) == digits[at..]
      invariant Value(buf[..], 256) == Value(digits[..at], 58)
    {
      ValidNext(str, at, digits);
      PrefixFits(digits, at, 58, 256, buf.Length, buf[..]);
      MultiplyAdd(buf, 256, 58, DigitOf(str[at]));
      at := at + 1;
    }
    ValidEnds(str, at);
    assert digits[..at] == digits;
    skip := SkipZeros(buf);
    StripIsFromNat(buf[..], skip, 256);
    assert buf[skip..] == buf[..][skip..];
  }

  /** Writes the bytes when they fit; with no buffer, only returns how many there are. */
  method Decode(data: array?<Byte>, str: string) returns (len: nat)
    modifies data
    ensures var bytes := Decoded(str);
      len == (if data == null || |bytes| <= data.Length then |bytes| else 0) &&
      (data != null && |bytes| <= data.Length ==> data[..] == bytes + old(data[|bytes|..]))
    ensures data != null && len == 0 ==> data[..] == old(data[..])
  {
    hide Value, Pow, FromNat, ValidDigits;
    var zcount: nat := 0;
    while zcount < |str| && str[zcount] == '1'
      invariant zcount <= |str| && forall k :: 0 <= k < zcount ==> str[k] == '1'
    {
      zcount := zcount + 1;
    }
    LeadingIs(str, '1', zcount);
    var buf, i := ToBytes(str[zcount..]);
    len := zcount + buf.Length - i;
    if data != null && len <= data.Length {
      WriteBytes(data, zcount, buf, i);
    } else if data != null {
      len := 0;
    }
  }

  /** Writes zero bytes and those of a buffer from i on. */
  method WriteBytes(data: array<Byte>, zcount: nat, buf: array<Byte>, i: nat)
    requires data != buf && i <= buf.Length && zcount + buf.Length - i <= data.Length
    modifies data
    ensures data[..] == Zeros(zcount) + buf[i..] + old(data[zcount + buf.Length - i..])
  {
    ghost var len, was := zcount + buf.Length - i, data[..];
    forall k | 0 <= k < zcount {
      data[k] := 0;
    }
    forall k | i <= k < buf.Length {
      data[zcount + k - i] := buf[k];
    }
    assert forall k :: zcount <= k < len ==> data[k] == buf[i + (k - zcount)];
    IsWritten(data[..], was, Zeros(zcount), buf[i..]);
  }

  lemma IsWritten(now: seq<nat>, was: seq<nat>, a: seq<nat>, b: seq<nat>)
    requires |now| == |was| && |a| + |b| <= |was|
    requires forall k :: 0 <= k < |a| ==> now[k] == a[k]
    requires forall k :: |a| <= k < |a| + |b| ==> now[k] == b[k - |a|]
    requires forall k :: |a| + |b| <= k < |was| ==> now[k] == was[k]
    ensures now == a + b + was[|a| + |b|..]
  {
  }

  // ----- With a checksum: the first four bytes of a 32-byte hash -----

  function CheckEncoded(data: seq<Byte>, hash: seq<Byte> -> seq<Byte>): string
    requires Digest(hash)
  {
    Encoded(data + hash(data)[..4])
  }

  /** Both a bad checksum and an empty payload give no bytes. */
  function CheckDecoded(s: string, hash: seq<Byte> -> seq<Byte>): seq<Byte>
    requires Digest(hash)
  {
    var bytes := Decoded(s);
    if |bytes| < 4 then [] else
      var n := |bytes| - 4;
      if bytes[n..] == hash(bytes[..n])[..4] then bytes[..n] else []
  }

  lemma CheckDecodeEncode(data: seq<Byte>, hash: seq<Byte> -> seq<Byte>)
    requires Digest(hash)
    ensures CheckDecoded(CheckEncoded(data, hash), hash) == data
  {
    var bytes := data + hash(data)[..4];
    DecodeEncode(bytes);
    assert bytes[..|data|] == data && bytes[|data|..] == hash(data)[..4];
  }

  /** The text stands for the payload and the first four bytes of its hash. */
  lemma CheckLayout(data: seq<Byte>, hash: seq<Byte> -> seq<Byte>)
    requires Digest(hash)
    ensures Decoded(CheckEncoded(data, hash)) ==
      data + [hash(data)[0], hash(data)[1], hash(data)[2], hash(data)[3]]
  {
    hide Decoded, Encoded;
    DecodeEncode(data + hash(data)[..4]);
    assert hash(data)[..4] == [hash(data)[0], hash(data)[1], hash(data)[2], hash(data)[3]];
  }

  /** A nonempty payload is accepted exactly when the string, up to its first bad character, is its encoding. */
  lemma CheckAccepts(s: string, data: seq<Byte>, hash: seq<Byte> -> seq<Byte>)
    requires Digest(hash) && data != []
    ensures CheckDecoded(s, hash) == data <==> ValidPrefix(s) == CheckEncoded(data, hash)
  {
    hide Encoded, Decoded, ValidPrefix;
    DecodeStopsAtBadDigit(s);
    CheckDecodeEncode(data, hash);
    var bytes := Decoded(s);
    if CheckDecoded(s, hash) == data {
      assert bytes == bytes[..|bytes| - 4] + bytes[|bytes| - 4..];
    }
  }

  /** A string never decodes to more bytes than it has characters. */
  lemma DecodedLength(s: string)
    ensures |Decoded(s)| <= |s|
  {
    var z := Leading(s, '1');
    var digits := ValidDigits(s[z..]);
    ValueBelow(digits, 58);
    PowBaseMono(58, 256, |digits|);
    FromNatLength(Value(digits, 58), 256, |digits|);
  }

  lemma {:induction false} FromNatLength(v: nat, base: nat, n: nat)
    requires base >= 2 && v < Pow(base, n)
    ensures |FromNat(v, base)| <= n
    decreases n
  {
    if v > 0 {
      QuotientBelow(v, base);
      DivModIdentity(v, base);
      if v / base >= Pow(base, n - 1) {
        MulMono(base, base, Pow(base, n - 1), v / base);
        assert false;
      }
      FromNatLength(v / base, base, n - 1);
    }
  }

  method CheckEncode(str: array?<char>, data: seq<Byte>, hash: seq<Byte> -> seq<Byte>) returns (len: nat)
    requires Digest(hash)
    modifies str
    ensures var text := CheckEncoded(data, hash) + ['\0'];
      len == (if str == null || |text| <= str.Length then |text| else 0) &&
      (str != null && |text| <= str.Length ==> str[..] == text + old(str[|text|..]))
    ensures str != null && len == 0 ==> str[..] == old(str[..])
  {
    var buf := data + hash(data);
    assert buf[..|data| + 4] == data + hash(data)[..4];
    len := Encode(str, buf[..|data| + 4]);
  }

  method CheckDecode(data: array?<Byte>, str: string, hash: seq<Byte> -> seq<Byte>) returns (len: nat)
    requires Digest(hash)
    modifies data
    ensures var payload := CheckDecoded(str, hash);
      len == (if data == null || |payload| <= data.Length then |payload| else 0) &&
      (data != null && |payload| <= data.Length ==> data[..] == payload + old(data[|payload|..]))
    ensures data != null && len == 0 ==> data[..] == old(data[..])
  {
    hide Decoded;
    var buf := new Byte[|str|](_ => 0);
    DecodedLength(str);
    len := Decode(buf, str);
    ghost var bytes := Decoded(str);
    assert bytes == buf[..len];
    if len >= 4 {
      len := len - 4;
      var md := hash(buf[..len]);
      assert bytes[..len] == buf[..len] && bytes[len..] == buf[len..len + 4];
      if buf[len..len + 4] != md[..4] {
        len := 0;
      }
      if data != null && len <= data.Length {
        forall k | 0 <= k < len {
          data[k] := buf[k];
        }
        assert data[..len] == buf[..len];
      }
    } else {
      len := 0;
    }
    if data != null && len > data.Length {
      len := 0;
    }
  }
}
