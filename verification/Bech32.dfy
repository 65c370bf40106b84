/** Bech32 addresses: regrouping bytes into five-bit symbols and back, the text layout, and what the
    checksum detects. */
module Bech32 {
  import opened Words
  import opened Radix
  import opened Bech32Checksum

  // ----- Regrouping: the same bits, cut in fives, zeros at the end -----

  function SymbolCount(len: nat): nat {
    (8 * len + 4) / 5
  }

  function ByteCount(n: nat): nat {
    5 * n / 8
  }

  function Symbols(program: seq<Byte>): (s: seq<Symbol>)
    ensures |s| == SymbolCount(|program|)
  {
    var n := SymbolCount(|program|);
    AsSymbols(ToBase(Value(program, 256) * Pow(2, 5 * n - 8 * |program|), 32, n))
  }

  function Bytes(s: seq<Symbol>): (program: seq<Byte>)
    ensures |program| == ByteCount(|s|)
  {
    var len := ByteCount(|s|);
    var p := Pow(2, 5 * |s| - 8 * len);
    PowPositive(2, 5 * |s| - 8 * len);
    QuotientNat(Value(s, 32), p);
    AsBytes(ToBase(Value(s, 32) / p, 256, len))
  }

  function AsSymbols(s: seq<nat>): (r: seq<Symbol>)
    requires Digits(s, 32)
    ensures r == s
  {
    if s == [] then [] else [s[0]] + AsSymbols(s[1..])
  }

  lemma BitsOfDigits(len: nat, n: nat, pad: nat)
    requires 5 * n == 8 * len + pad
    ensures Pow(32, n) == Pow(256, len) * Pow(2, pad)
  {
    hide Pow;
    PowMul(2, 5, n);
    PowMul(2, 8, len);
    PowAdd(2, 8 * len, pad);
    SmallPowers();
  }

  lemma SmallPowers()
    ensures Pow(2, 0) == 1 && Pow(2, 1) == 2 && Pow(2, 2) == 4 && Pow(2, 3) == 8
    ensures Pow(2, 4) == 16 && Pow(2, 5) == 32 && Pow(2, 6) == 64 && Pow(2, 7) == 128 && Pow(2, 8) == 256
  {
  }

  lemma BytesOfSymbols(program: seq<Byte>)
    ensures Bytes(Symbols(program)) == program
  {
    hide Pow, Value, ToBase;
    var len, n := |program|, SymbolCount(|program|);
    var pad := 5 * n - 8 * len;
    var v, p := Value(program, 256), Pow(2, pad);
    assert ByteCount(n) == len;
    BitsOfDigits(len, n, pad);
    ValueBelow(program, 256);
    PowPositive(2, pad);
    LessTimes(v, Pow(256, len), p);
    ValueOfToBase(v * p, 32, n);
    TimesOver(v, p);
    ToBaseOfValue(program, 256);
  }

  lemma TimesOver(v: nat, p: nat)
    requires p > 0
    ensures v * p / p == v
  {
    DivModUnique(v * p, p, v, 0);
  }

  /** Whether the bits that do not fill a byte are zero and fewer than a symbol. */
  predicate Canonical(s: seq<Symbol>) {
    var pad := 5 * |s| - 8 * ByteCount(|s|);
    PowPositive(2, pad);
    pad < 5 && Value(s, 32) % Pow(2, pad) == 0
  }

  lemma SymbolsOfBytes(s: seq<Symbol>)
    ensures Symbols(Bytes(s)) == s <==> Canonical(s)
  {
    hide Pow, Value, ToBase;
    var len := ByteCount(|s|);
    var pad := 5 * |s| - 8 * len;
    var v, p := Value(s, 32), Pow(2, pad);
    PowPositive(2, pad);
    assert SymbolCount(len) == |s| <==> pad < 5;
    if pad < 5 {
      var q := v / p;
      QuotientNat(v, p);
      DivModIdentity(v, p);
      ValueBelow(s, 32);
      BitsOfDigits(len, |s|, pad);
      assert q < Pow(256, len) by {
        QuotientFits(v, p, Pow(256, len));
      }
      ValueOfToBase(q, 256, len);
      LessTimes(q, Pow(256, len), p);
      ValueOfToBase(q * p, 32, |s|);
      ToBaseOfValue(s, 32);
    }
  }

  // ----- Characters -----

  const CHARSET: string := "qpzry9x8gf2tvdw0s3jn54khce6mua7l"

  const NO_SYMBOL: nat := 32

  function Code(c: char): nat {
    c as int
  }

  predicate IsLower(c: char) {
    'a' <= c <= 'z'
  }

  predicate IsUpper(c: char) {
    'A' <= c <= 'Z'
  }

  function ToLower(c: char): char {
    if IsUpper(c) then c + 32 as char else c
  }

  function LowerAll(s: string): (r: string)
    ensures |r| == |s| && forall i :: 0 <= i < |s| ==> r[i] == ToLower(s[i])
  {
    if s == [] then [] else [ToLower(s[0])] + LowerAll(s[1..])
  }

  /** The decoder's switch on the lower-case character. */
  function SymbolOf(ch: char): (c: nat)
    ensures c <= NO_SYMBOL
  {
    match ToLower(ch)
    case 'q' => 0 case 'p' => 1 case 'z' => 2 case 'r' => 3
    case 'y' => 4 case '9' => 5 case 'x' => 6 case '8' => 7
    case 'g' => 8 case 'f' => 9 case '2' => 10 case 't' => 11
    case 'v' => 12 case 'd' => 13 case 'w' => 14 case '0' => 15
    case 's' => 16 case '3' => 17 case 'j' => 18 case 'n' => 19
    case '5' => 20 case '4' => 21 case 'k' => 22 case 'h' => 23
    case 'c' => 24 case 'e' => 25 case '6' => 26 case 'm' => 27
    case 'u' => 28 case 'a' => 29 case '7' => 30 case 'l' => 31
    case _ => NO_SYMBOL
  }

  lemma CharsetLength()
    ensures |CHARSET| == 32
  {
  }

  /** The encoder's table and the decoder's switch agree, and the table avoids upper case and the separator. */
  lemma CharsetEntry(c: Symbol)
    ensures |CHARSET| == 32 && SymbolOf(CHARSET[c]) == c
    ensures !IsUpper(CHARSET[c]) && CHARSET[c] != '1' && 33 <= Code(CHARSET[c]) <= 126
  {
    if c < 8 {
    } else if c < 16 {
    } else if c < 24 {
    }
  }

  lemma SymbolEntry(ch: char)
    requires SymbolOf(ch) < 32
    ensures |CHARSET| == 32 && CHARSET[SymbolOf(ch)] == ToLower(ch) && ch != '1'
  {
  }

  function Chars(s: seq<Symbol>): (r: string)
    ensures |r| == |s|
  {
    CharsetLength();
    if s == [] then [] else [CHARSET[s[0]]] + Chars(s[1..])
  }

  lemma {:induction false} CharsAt(s: seq<Symbol>, i: nat)
    requires i < |s|
    ensures |CHARSET| == 32 && Chars(s)[i] == CHARSET[s[i]]
    decreases i
  {
    CharsetLength();
    if i > 0 {
      CharsAt(s[1..], i - 1);
    }
  }

  predicate Printable(s: string) {
    forall i :: 0 <= i < |s| ==> 33 <= Code(s[i]) <= 126
  }

  predicate HasLower(s: string) {
    exists i :: 0 <= i < |s| && IsLower(s[i])
  }

  predicate HasUpper(s: string) {
    exists i :: 0 <= i < |s| && IsUpper(s[i])
  }

  // ----- The text of an address -----

  function HighBits(hrp: string): (s: seq<Symbol>)
    requires Printable(hrp)
    ensures |s| == |hrp| && forall i :: 0 <= i < |hrp| ==> s[i] == Code(ToLower(hrp[i])) / 32
  {
    seq(|hrp|, i requires 0 <= i < |hrp| => Code(ToLower(hrp[i])) / 32)
  }

  function LowBits(hrp: string): (s: seq<Symbol>)
    requires Printable(hrp)
    ensures |s| == |hrp| && forall i :: 0 <= i < |hrp| ==> s[i] == Code(hrp[i]) % 32
  {
    seq(|hrp|, i requires 0 <= i < |hrp| => Code(hrp[i]) % 32)
  }

  function Expand(hrp: string): seq<Symbol>
    requires Printable(hrp)
  {
    HighBits(hrp) + [0] + LowBits(hrp)
  }

  /** The human-readable part, the separator, and the symbols followed by the six that make the state 1. */
  function TextOf(hrp: string, d: seq<Symbol>): string
    requires Printable(hrp)
  {
    hrp + "1" + Chars(d + CheckSymbols(Feed(1, Expand(hrp) + d)))
  }

  function Encoded(hrp: string, version: Symbol, program: seq<Byte>): string
    requires Printable(hrp)
  {
    TextOf(hrp, [version] + Symbols(program))
  }

  /** Version opcode, length and program, as in a witness script. */
  function Payload(version: nat, program: seq<Byte>): seq<Byte>
    requires version <= 16 && |program| <= 40
  {
    [if version == 0 then 0 else version + 0x50, |program|] + program
  }

  /** The last '1' at or before position n, or position 0. */
  function LastOne(s: string, n: nat): (sep: nat)
    ensures sep <= n && (sep > 0 ==> sep < |s| && s[sep] == '1')
    ensures forall k :: sep < k <= n && k < |s| ==> s[k] != '1'
  {
    if n == 0 || (n < |s| && s[n] == '1') then n else LastOne(s, n - 1)
  }

  function Separator(s: string): nat {
    LastOne(s, |s|)
  }

  predicate AllSymbols(s: string) {
    forall i :: 0 <= i < |s| ==> SymbolOf(s[i]) < 32
  }

  function SymbolsOf(s: string): (d: seq<Symbol>)
    requires AllSymbols(s)
    ensures |d| == |s| && forall i :: 0 <= i < |s| ==> d[i] == SymbolOf(s[i])
  {
    seq(|s|, i requires 0 <= i < |s| => SymbolOf(s[i]))
  }

  predicate WellFormed(addr: string) {
    var sep := Separator(addr);
    Printable(addr) && 8 <= |addr| <= 90 && sep >= 1 && sep + 8 <= |addr| &&
    !(HasLower(addr) && HasUpper(addr)) && AllSymbols(addr[sep + 1..])
  }

  datatype Decoding = Rejected | Accepted(hrp: string, data: seq<Byte>)

  function Decoded(addr: string): Decoding {
    if !WellFormed(addr) then Rejected else
      var sep := Separator(addr);
      var d := SymbolsOf(addr[sep + 1..]);
      var program := Bytes(d[1..|d| - 6]);
      if Feed(1, Expand(addr[..sep]) + d) == 1 && d[0] <= 16 && 2 <= |program| <= 40
      then Accepted(LowerAll(addr[..sep]), Payload(d[0], program))
      else Rejected
  }

  /** The 32 symbol characters are the lower-case letters and digits but 1, b, i and o, in the order of BIP 173. */
  lemma CharsetIs(c: char)
    ensures CHARSET == "qpzry9x8gf2tvdw0s3jn54khce6mua7l"
    ensures SymbolOf(c) < 32 <==>
      ('0' <= c <= '9' || 'a' <= c <= 'z' || 'A' <= c <= 'Z') && c !in "1bioBIO"
  {
  }

  /** What the checksum covers of the prefix: the high three bits of its lower-case characters, a zero, and their low
      five. */
  lemma ExpandLayout(hrp: string, i: nat)
    requires Printable(hrp)
    ensures var n := |hrp|;
      |Expand(hrp)| == 2 * n + 1 && Expand(hrp)[n] == 0 &&
      (i < n ==> Expand(hrp)[i] == Code(if 'A' <= hrp[i] <= 'Z' then hrp[i] + 32 as char else hrp[i]) / 32 &&
                 Expand(hrp)[n + 1 + i] == Code(hrp[i]) % 32)
  {
  }

  /** With its last separator at sep, exactly these addresses are accepted: 8 to 90 printable characters, not of both
      cases, a prefix before it and only symbols behind it, a right checksum, a version up to 16 and a program of 2 to
      40 bytes. */
  lemma AcceptedIff(addr: string, sep: nat)
    requires sep < |addr| && addr[sep] == '1' && forall k :: sep < k < |addr| ==> addr[k] != '1'
    ensures Decoded(addr).Accepted? <==>
      8 <= |addr| <= 90 && 1 <= sep && sep + 8 <= |addr| &&
      (forall k :: 0 <= k < |addr| ==> 33 <= Code(addr[k]) <= 126) &&
      ((forall k :: 0 <= k < |addr| ==> !('a' <= addr[k] <= 'z')) ||
       (forall k :: 0 <= k < |addr| ==> !('A' <= addr[k] <= 'Z'))) &&
      AllSymbols(addr[sep + 1..]) && Printable(addr[..sep]) &&
      var d := SymbolsOf(addr[sep + 1..]);
      Feed(1, Expand(addr[..sep]) + d) == 1 && d[0] <= 16 && 2 <= 5 * (|d| - 7) / 8 <= 40
    ensures Decoded(addr).Accepted? ==>
      AllSymbols(addr[sep + 1..]) &&
      var d := SymbolsOf(addr[sep + 1..]);
      var program := Bytes(d[1..|d| - 6]);
      Decoded(addr) ==
        Accepted(LowerAll(addr[..sep]), [if d[0] == 0 then 0 else d[0] + 0x50, |program|] + program)
  {
    hide Feed, SymbolOf, Expand, Bytes, LowerAll, SymbolsOf;
    LastOneIs(addr, |addr|, sep);
    if AllSymbols(addr[sep + 1..]) {
      SymbolsLong(addr[sep + 1..]);
    }
    if sep + 8 <= |addr| && AllSymbols(addr[sep + 1..]) {
      var d := SymbolsOf(addr[sep + 1..]);
      assert |Bytes(d[1..|d| - 6])| == 5 * (|d| - 7) / 8 by { BytesLong(d[1..|d| - 6]); }
    }
  }

  lemma SymbolsLong(s: string)
    requires AllSymbols(s)
    ensures |SymbolsOf(s)| == |s|
  {
  }

  lemma BytesLong(s: seq<Symbol>)
    ensures |Bytes(s)| == 5 * |s| / 8
  {
  }

  /** Without a separator nothing is. */
  lemma NeedsSeparator(addr: string)
    requires '1' !in addr
    ensures Decoded(addr) == Rejected
  {
    hide Feed, SymbolOf, Expand, Bytes, LowerAll, SymbolsOf;
    assert Separator(addr) == 0;
  }

  /** Every program that decoding yields, encoding takes. */
  lemma DecodedIsEncodable(addr: string)
    requires Decoded(addr).Accepted?
    ensures var data := Decoded(addr).data;
      |data| >= 2 && |data| == 2 + data[1] && Encodable(Decoded(addr).hrp, data) &&
      Encoded(Decoded(addr).hrp, VersionOf(data[0]), ProgramOf(data)) ==
        var d := SymbolsOf(addr[Separator(addr) + 1..]);
        TextOf(Decoded(addr).hrp, [d[0]] + Symbols(Bytes(d[1..|d| - 6])))
  {
    hide Feed, SymbolOf, Expand, Bytes, SymbolsOf, TextOf, Symbols, Separator;
    var sep := Separator(addr);
    var d := SymbolsOf(addr[sep + 1..]);
    SymbolsLong(addr[sep + 1..]);
    var program := Bytes(d[1..|d| - 6]);
    BytesLong(d[1..|d| - 6]);
    var data := Decoded(addr).data;
    assert data == Payload(d[0], program);
    assert ProgramOf(data) == program;
    LoweredPrintable(addr[..sep]);
  }

  lemma LoweredPrintable(s: string)
    requires Printable(s)
    ensures Printable(LowerAll(s)) && !HasUpper(LowerAll(s)) && |LowerAll(s)| == |s|
  {
  }

  // ----- Decoding undoes encoding -----

  lemma LastOneIs(s: string, n: nat, sep: nat)
    requires sep <= n && sep < |s| && s[sep] == '1' && forall k :: sep < k < |s| ==> s[k] != '1'
    ensures LastOne(s, n) == sep
  {
    var r := LastOne(s, n);
    assert r == 0 || s[r] == '1';
  }

  lemma CharsAreSymbols(d: seq<Symbol>)
    ensures AllSymbols(Chars(d)) && SymbolsOf(Chars(d)) == d
    ensures Printable(Chars(d)) && !HasUpper(Chars(d)) && '1' !in Chars(d)
  {
    forall i | 0 <= i < |d|
      ensures Chars(d)[i] != '1' && SymbolOf(Chars(d)[i]) == d[i]
      ensures !IsUpper(Chars(d)[i]) && 33 <= Code(Chars(d)[i]) <= 126
    {
      CharsAt(d, i);
      CharsetEntry(d[i]);
    }
  }

  /** The text of any symbols is well formed, splits where it was joined, and its checksum holds. */
  lemma TextParses(hrp: string, d: seq<Symbol>)
    requires Printable(hrp) && !HasUpper(hrp) && |hrp| >= 1 && |d| >= 1 && |hrp| + 7 + |d| <= 90
    ensures var s := TextOf(hrp, d);
      WellFormed(s) && Separator(s) == |hrp| && s[..|hrp|] == hrp && LowerAll(s[..|hrp|]) == hrp &&
      var all := SymbolsOf(s[|hrp| + 1..]);
      |all| == |d| + 6 && all[..|d|] == d && Feed(1, Expand(hrp) + all) == 1
  {
    hide Feed, CheckSymbols, Chars, SymbolOf, Expand, WellFormed, Separator, Printable, HasUpper, AllSymbols, LowerAll;
    var check := CheckSymbols(Feed(1, Expand(hrp) + d));
    CheckCloses(hrp, d);
    CharsAreSymbols(d + check);
    JoinedText(hrp, Chars(d + check));
    LowerStays(hrp);
  }

  /** A prefix and symbol characters joined by the separator come apart again there. */
  lemma JoinedText(hrp: string, chars: string)
    requires Printable(hrp) && !HasUpper(hrp) && |hrp| >= 1 && 7 <= |chars| && |hrp| + 1 + |chars| <= 90
    requires AllSymbols(chars) && Printable(chars) && !HasUpper(chars) && '1' !in chars
    ensures var s := hrp + "1" + chars;
      WellFormed(s) && Separator(s) == |hrp| && s[..|hrp|] == hrp && s[|hrp| + 1..] == chars
  {
    hide SymbolOf;
    var s := hrp + "1" + chars;
    assert s[|hrp| + 1..] == chars && s[|hrp|] == '1' && s[..|hrp|] == hrp;
    assert forall i | |hrp| < i < |s| :: s[i] == chars[i - |hrp| - 1] && s[i] in chars;
    LastOneIs(s, |s|, |hrp|);
    assert !HasUpper(s);
  }

  lemma LowerStays(hrp: string)
    requires !HasUpper(hrp)
    ensures LowerAll(hrp) == hrp
  {
  }

  lemma CheckCloses(hrp: string, d: seq<Symbol>)
    requires Printable(hrp)
    ensures var check := CheckSymbols(Feed(1, Expand(hrp) + d));
      |check| == 6 && Feed(1, Expand(hrp) + (d + check)) == 1
  {
    hide Feed, CheckSymbols, Expand;
    var state := Feed(1, Expand(hrp) + d);
    var check := CheckSymbols(state);
    CheckLength(state);
    FeedState(1, Expand(hrp) + d) by { OneState(); }
    SixSymbolsForceOne(state, check);
    FeedConcat(1, Expand(hrp) + d, check);
    assert Expand(hrp) + d + check == Expand(hrp) + (d + check);
  }

  lemma CheckLength(state: bv32)
    ensures |CheckSymbols(state)| == 6
  {
  }

  lemma DecodeEncode(hrp: string, version: nat, program: seq<Byte>)
    requires Printable(hrp) && !HasUpper(hrp) && |hrp| >= 1
    requires version <= 16 && 2 <= |program| <= 40 && |hrp| + 8 + SymbolCount(|program|) <= 90
    ensures Decoded(Encoded(hrp, version, program)) == Accepted(hrp, Payload(version, program))
  {
    hide Feed, Expand, TextOf, Symbols, Bytes, WellFormed;
    var d := [version] + Symbols(program);
    assert |Symbols(program)| == SymbolCount(|program|) by { SymbolsLength(program); }
    TextParses(hrp, d);
    var s := Encoded(hrp, version, program);
    assert SymbolsOf(s[|hrp| + 1..])[1..|d|] == Symbols(program);
    BytesOfSymbols(program);
  }

  lemma SymbolsLength(program: seq<Byte>)
    ensures |Symbols(program)| == SymbolCount(|program|)
  {
  }

  // ----- What does not fit or is not canonical -----

  /** Of the texts the encoder would write, with their terminator, exactly those with at most 90 characters fit its
      buffer of 91; its own length check, which counts bytes where symbols are written, does not see to it. */
  lemma TextFitsIff(hrp: string, data: seq<Byte>)
    requires |data| >= 2 && |data| - 2 >= data[1] && Encodable(hrp, data)
    ensures |Encoded(hrp, VersionOf(data[0]), ProgramOf(data))| + 1 <= 91 <==> |hrp| + 8 + SymbolCount(data[1]) <= 90
  {
    hide Feed, Expand, CheckSymbols, Symbols, Chars;
    var program := ProgramOf(data);
    var d := [VersionOf(data[0])] + Symbols(program);
    SymbolsLength(program);
    CheckLength(Feed(1, Expand(hrp) + d));
    CharsLength(d + CheckSymbols(Feed(1, Expand(hrp) + d)));
  }

  lemma CharsLength(d: seq<Symbol>)
    ensures |Chars(d)| == |d|
  {
  }

  /** A prefix of 19 characters and a program of 40 bytes pass the check and need 91 characters and a terminator. */
  lemma TextCanExceedBuffer(program: seq<Byte>)
    requires |program| == 40
    ensures var hrp, data := seq(19, _ => 'a'), [0, 40] + program;
      Encodable(hrp, data) && ProgramOf(data) == program && |Encoded(hrp, 0, program)| == 91
  {
    hide Feed, Expand, CheckSymbols, Symbols, Chars;
    var hrp, data: seq<Byte> := seq(19, _ => 'a'), [0, 40] + program;
    assert Encodable(hrp, data);
    assert data[2..42] == program;
    var d := [0] + Symbols(program);
    SymbolsLength(program);
    CheckLength(Feed(1, Expand(hrp) + d));
    CharsLength(d + CheckSymbols(Feed(1, Expand(hrp) + d)));
  }

  /** An accepted address whose padding is not canonical: four symbols for two bytes, the last bit set. */
  lemma NotCanonicalAccepted()
    ensures Decoded(TextOf("a", [0] + [0, 0, 0, 1])).Accepted? && !Canonical([0, 0, 0, 1])
    ensures SymbolsOf(TextOf("a", [0] + [0, 0, 0, 1])[2..])[1..5] == [0, 0, 0, 1]
  {
    hide Feed, CheckSymbols, Chars, SymbolOf, Expand, TextOf, WellFormed, Bytes;
    var d: seq<Symbol> := [0] + [0, 0, 0, 1];
    TextParses("a", d);
    var s := TextOf("a", d);
    var all := SymbolsOf(s[2..]);
    assert all[1..5] == all[..5][1..5] == [0, 0, 0, 1];
    assert |Bytes(all[1..5])| == 2 by { BytesLength(all[1..5]); }
    OddLastSymbol();
  }

  lemma BytesLength(s: seq<Symbol>)
    ensures |Bytes(s)| == ByteCount(|s|)
  {
  }

  lemma OddLastSymbol()
    ensures !Canonical([0, 0, 0, 1])
  {
    var s: seq<nat> := [0, 0, 0, 1];
    SmallPowers();
    ValueSkipsZeros(s, 3, 32);
    assert s[3..] == [1];
    assert Value([1], 32) == 1 * Pow(32, 0) + Value([], 32) == 1;
  }

  // ----- What an accepted address says -----

  /** Encoding again what an address decoded to gives the address in lower case exactly when its last bits
      are canonical; the decoder does not insist on that. */
  lemma EncodeDecode(addr: string)
    requires Decoded(addr).Accepted?
    ensures var sep := Separator(addr);
      WellFormed(addr) &&
      var d := SymbolsOf(addr[sep + 1..]);
      var s := d[1..|d| - 6];
      Printable(addr[..sep]) &&
      (Encoded(LowerAll(addr[..sep]), d[0], Bytes(s)) == LowerAll(addr) <==> Canonical(s))
  {
    hide Feed, CheckSymbols, Chars, SymbolOf, Symbols, Bytes, Canonical, Separator, Expand, LowerAll;
    var sep := Separator(addr);
    LowerText(addr);
    var low := LowerAll(addr[..sep]);
    var d := SymbolsOf(addr[sep + 1..]);
    var n := |d| - 6;
    var s := d[1..n];
    SymbolsOfBytes(s);
    var d' := [d[0]] + Symbols(Bytes(s));
    if Canonical(s) {
      assert d[..n] == [d[0]] + s;
      CheckIsTail(low, d);
    }
    if Encoded(low, d[0], Bytes(s)) == LowerAll(addr) {
      TextDetermines(low, d', d);
      assert s == d'[1..];
    }
  }

  /** An accepted address in lower case, part by part. */
  lemma LowerText(addr: string)
    requires WellFormed(addr)
    ensures var sep := Separator(addr);
      var hrp, d := addr[..sep], SymbolsOf(addr[sep + 1..]);
      Printable(hrp) && Printable(LowerAll(hrp)) && Expand(LowerAll(hrp)) == Expand(hrp) && |d| >= 7 &&
      LowerAll(addr) == LowerAll(hrp) + "1" + Chars(d)
  {
    hide Chars, SymbolOf, Separator, Expand, LowerAll;
    var sep := Separator(addr);
    SeparatorFacts(addr);
    var hrp, tail := addr[..sep], addr[sep + 1..];
    assert addr == hrp + "1" + tail;
    LowerConcat(hrp, tail);
    ExpandLower(hrp);
    CharsOfSymbols(tail);
  }

  /** Texts of one prefix are equal only when their symbols are. */
  lemma TextDetermines(hrp: string, d: seq<Symbol>, all: seq<Symbol>)
    requires Printable(hrp) && TextOf(hrp, d) == hrp + "1" + Chars(all)
    ensures |all| >= 6 && d == all[..|all| - 6]
  {
    hide Feed, CheckSymbols, Chars, SymbolOf, Expand;
    var c := CheckSymbols(Feed(1, Expand(hrp) + d));
    CheckLength(Feed(1, Expand(hrp) + d));
    assert Chars(d + c) == TextOf(hrp, d)[|hrp| + 1..];
    assert Chars(all) == (hrp + "1" + Chars(all))[|hrp| + 1..];
    CharsAreSymbols(d + c);
    CharsAreSymbols(all);
    assert all == d + c;
  }

  /** The symbols before an accepted checksum determine it. */
  lemma CheckIsTail(hrp: string, d: seq<Symbol>)
    requires Printable(hrp) && |d| >= 6 && Feed(1, Expand(hrp) + d) == 1
    ensures d == d[..|d| - 6] + CheckSymbols(Feed(1, Expand(hrp) + d[..|d| - 6]))
  {
    hide Feed, CheckSymbols;
    var front, tail := d[..|d| - 6], d[|d| - 6..];
    assert Expand(hrp) + d == Expand(hrp) + front + tail;
    FeedConcat(1, Expand(hrp) + front, tail);
    FeedState(1, Expand(hrp) + front) by { OneState(); }
    SixSymbolsForceOne(Feed(1, Expand(hrp) + front), tail);
    assert d == front + tail;
  }

  lemma SeparatorFacts(addr: string)
    ensures var sep := Separator(addr);
      sep <= |addr| && (sep > 0 ==> sep < |addr| && addr[sep] == '1') &&
      forall k :: sep < k < |addr| ==> addr[k] != '1'
  {
  }

  lemma LowerConcat(hrp: string, tail: string)
    ensures LowerAll(hrp + "1" + tail) == LowerAll(hrp) + "1" + LowerAll(tail)
  {
  }

  lemma ExpandLower(hrp: string)
    requires Printable(hrp)
    ensures Printable(LowerAll(hrp)) && Expand(LowerAll(hrp)) == Expand(hrp)
  {
    var low := LowerAll(hrp);
    forall i | 0 <= i < |hrp|
      ensures 33 <= Code(low[i]) <= 126 && ToLower(low[i]) == low[i] && Code(low[i]) % 32 == Code(hrp[i]) % 32
    {
      assert low[i] == ToLower(hrp[i]);
      LowerFacts(hrp[i]);
    }
    assert HighBits(low) == HighBits(hrp);
    assert LowBits(low) == LowBits(hrp);
  }

  lemma LowerFacts(c: char)
    requires 33 <= Code(c) <= 126
    ensures 33 <= Code(ToLower(c)) <= 126 && ToLower(ToLower(c)) == ToLower(c)
    ensures Code(ToLower(c)) % 32 == Code(c) % 32
  {
  }

  lemma CharsOfSymbols(s: string)
    requires AllSymbols(s)
    ensures Chars(SymbolsOf(s)) == LowerAll(s)
  {
    hide SymbolOf;
    var d := SymbolsOf(s);
    forall i | 0 <= i < |s|
      ensures Chars(d)[i] == ToLower(s[i])
    {
      CharsAt(d, i);
      SymbolEntry(s[i]);
    }
  }

  // ----- What the checksum detects -----

  /** Changing symbols within six neighbouring characters after the separator is always detected. */
  lemma BurstDetected(a: string, b: string, p: nat)
    requires Decoded(a).Accepted? && |a| == |b| && Separator(a) < p && p + 6 <= |a|
    requires forall k :: 0 <= k < |a| && !(p <= k < p + 6) ==> a[k] == b[k]
    requires AllSymbols(b[p..p + 6])
    requires exists k :: p <= k < p + 6 && SymbolOf(a[k]) != SymbolOf(b[k])
    ensures Decoded(b) == Rejected
  {
    hide WellFormed, SymbolOf, AllSymbols, Decoded, Separator, ChecksOut;
    DecodedChecksOut(a);
    DecodedChecksOut(b);
    if WellFormed(b) && ChecksOut(b) {
      BurstUnchecks(a, b, p);
      assert false;
    }
  }

  /** The checksum over prefix and symbols. */
  predicate ChecksOut(s: string)
    requires WellFormed(s)
  {
    var sep := Separator(s);
    Feed(1, Expand(s[..sep]) + SymbolsOf(s[sep + 1..])) == 1
  }

  lemma DecodedChecksOut(s: string)
    ensures Decoded(s).Accepted? ==> WellFormed(s) && ChecksOut(s)
  {
    hide Feed, SymbolOf, Expand, Bytes, Separator, AllSymbols;
  }

  lemma WellFormedParts(s: string)
    requires WellFormed(s)
    ensures Separator(s) + 8 <= |s| && Printable(s[..Separator(s)]) && AllSymbols(s[Separator(s) + 1..])
  {
    hide Separator, AllSymbols;
  }

  lemma BurstUnchecks(a: string, b: string, p: nat)
    requires WellFormed(a) && WellFormed(b) && |a| == |b| && Separator(a) < p && p + 6 <= |a|
    requires forall k :: 0 <= k < |a| && !(p <= k < p + 6) ==> a[k] == b[k]
    requires AllSymbols(b[p..p + 6])
    requires exists k :: p <= k < p + 6 && SymbolOf(a[k]) != SymbolOf(b[k])
    ensures !(ChecksOut(a) && ChecksOut(b))
  {
    hide Feed, SymbolOf, Expand, Separator, AllSymbols, WellFormed, SymbolsOf;
    var sep := Separator(a);
    SameSeparator(a, b, p);
    WellFormedParts(a);
    WellFormedParts(b);
    assert a[..sep] == b[..sep];
    TailsDiffer(a, b, sep + 1, p);
    SymbolsDiffer(a[sep + 1..], b[sep + 1..], p - sep - 1);
    BurstInSymbols(Expand(a[..sep]), SymbolsOf(a[sep + 1..]), SymbolsOf(b[sep + 1..]), p - sep - 1);
  }

  lemma TailsDiffer(a: string, b: string, n: nat, p: nat)
    requires n <= p && p + 6 <= |a| == |b|
    requires forall k :: 0 <= k < |a| && !(p <= k < p + 6) ==> a[k] == b[k]
    requires exists k :: p <= k < p + 6 && SymbolOf(a[k]) != SymbolOf(b[k])
    ensures forall k :: 0 <= k < |a[n..]| && !(p - n <= k < p - n + 6) ==> a[n..][k] == b[n..][k]
    ensures exists k :: p - n <= k < p - n + 6 && SymbolOf(a[n..][k]) != SymbolOf(b[n..][k])
  {
    hide SymbolOf;
    var k :| p <= k < p + 6 && SymbolOf(a[k]) != SymbolOf(b[k]);
    assert a[n..][k - n] == a[k] && b[n..][k - n] == b[k];
  }

  lemma SymbolsDiffer(a: string, b: string, p: nat)
    requires |a| == |b| && p + 6 <= |a| && AllSymbols(a) && AllSymbols(b)
    requires forall k :: 0 <= k < |a| && !(p <= k < p + 6) ==> a[k] == b[k]
    requires exists k :: p <= k < p + 6 && SymbolOf(a[k]) != SymbolOf(b[k])
    ensures |SymbolsOf(a)| == |a| && |SymbolsOf(b)| == |b| && SymbolsOf(a) != SymbolsOf(b)
    ensures forall k :: 0 <= k < |a| && !(p <= k < p + 6) ==> SymbolsOf(a)[k] == SymbolsOf(b)[k]
  {
    hide SymbolOf;
    var k :| p <= k < p + 6 && SymbolOf(a[k]) != SymbolOf(b[k]);
    assert SymbolsOf(a)[k] != SymbolsOf(b)[k];
  }

  lemma BurstInSymbols(front: seq<Symbol>, s: seq<Symbol>, t: seq<Symbol>, i: nat)
    requires |s| == |t| && i + 6 <= |s| && s != t
    requires forall j :: 0 <= j < |s| && !(i <= j < i + 6) ==> s[j] == t[j]
    ensures Feed(1, front + s) != Feed(1, front + t)
  {
    hide Feed;
    var start, rest := front + s[..i], s[i + 6..];
    ThreeParts(front, s, s[..i], rest, i);
    ThreeParts(front, t, s[..i], rest, i);
    FeedState(1, start) by { OneState(); }
    FeedConcat(1, start, s[i..i + 6] + rest);
    FeedConcat(1, start, t[i..i + 6] + rest);
    BurstChangesState(Feed(1, start), s[i..i + 6], t[i..i + 6], rest);
  }

  lemma ThreeParts(front: seq<Symbol>, s: seq<Symbol>, head: seq<Symbol>, rest: seq<Symbol>, i: nat)
    requires i + 6 <= |s| && |head| == i && |rest| == |s| - i - 6
    requires forall j :: 0 <= j < i ==> s[j] == head[j]
    requires forall j :: 0 <= j < |rest| ==> s[i + 6 + j] == rest[j]
    ensures s == head + s[i..i + 6] + rest && front + s == front + head + (s[i..i + 6] + rest)
  {
    assert s[..i] == head && s[i + 6..] == rest;
  }

  lemma SameSeparator(a: string, b: string, p: nat)
    requires WellFormed(a) && WellFormed(b) && |a| == |b| && Separator(a) < p && p + 6 <= |a|
    requires forall k :: 0 <= k < |a| && !(p <= k < p + 6) ==> a[k] == b[k]
    requires AllSymbols(b[p..p + 6])
    ensures Separator(b) == Separator(a)
  {
    hide SymbolOf;
    var sep := Separator(a);
    SeparatorFacts(a);
    forall k | sep < k < |b|
      ensures b[k] != '1'
    {
      if p <= k < p + 6 {
        assert SymbolOf(b[p..p + 6][k - p]) < 32;
        SymbolEntry(b[k]);
      } else {
        assert a[k] != '1';
      }
    }
    LastOneIs(b, |b|, sep);
  }

  // ----- Bytes to symbols, with at most four bits waiting -----

  /** The symbols written and the x lowest bits of the last byte are exactly the bits of the bytes read. */
  predicate Grouped(t: seq<Symbol>, bytes: seq<Byte>, x: nat, last: Byte) {
    x == 8 * |bytes| % 5 && |t| == 8 * |bytes| / 5 &&
    Value(t, 32) * Pow2(x) + last % Pow2(x) == Value(bytes, 256)
  }

  function FirstSymbol(a: Byte, b: Byte, x: nat): nat
    requires x <= 4
  {
    And(Or(a * Pow2(5 - x), b / Pow2(3 + x)), 0x1f)
  }

  function SecondSymbol(b: Byte, x: nat): nat
    requires 2 <= x <= 4
  {
    And(b / Pow2(x - 2), 0x1f)
  }

  lemma SmallPow2()
    ensures Pow2(0) == 1 && Pow2(1) == 2 && Pow2(2) == 4 && Pow2(3) == 8 && Pow2(4) == 16 && Pow2(5) == 32
    ensures Pow2(6) == 64 && Pow2(7) == 128 && Pow2(8) == 256 && Pow2(9) == 512 && Pow2(10) == 1024
  {
  }

  lemma {:induction false} OrCommutes(a: nat, b: nat)
    ensures Or(a, b) == Or(b, a)
    decreases a
  {
    if a != 0 && b != 0 {
      OrCommutes(a / 2, b / 2);
    }
  }

  lemma FirstSymbolIs(a: Byte, b: Byte, x: nat)
    requires x <= 4
    ensures FirstSymbol(a, b, x) == a % Pow2(x) * Pow2(5 - x) + b / Pow2(3 + x) < 32
  {
    hide And, Or, Pow2;
    HighFits(b, x);
    ShiftSplits(a, x);
    MaskedOr(a, 5 - x, b / Pow2(3 + x), a % Pow2(x) * Pow2(5 - x), a / Pow2(x));
  }

  lemma MaskedOr(a: nat, k: nat, high: nat, low: nat, over: nat)
    requires high < Pow2(k) && a * Pow2(k) == low + 32 * over && low + high < 32
    ensures And(Or(a * Pow2(k), high), 0x1f) == low + high
  {
    hide And, Or, Pow2;
    SmallPow2();
    OrDisjoint(high, a, k);
    OrCommutes(high, a * Pow2(k));
    AndOnes(low + high, over, 5);
  }

  lemma HighFits(b: Byte, x: nat)
    requires x <= 4
    ensures b / Pow2(3 + x) < Pow2(5 - x)
  {
    hide Pow2;
    SmallPow2();
    if x == 0 {
    } else if x == 1 {
    } else if x == 2 {
    } else if x == 3 {
    }
  }

  lemma ShiftSplits(a: Byte, x: nat)
    requires x <= 4
    ensures a * Pow2(5 - x) == a % Pow2(x) * Pow2(5 - x) + 32 * (a / Pow2(x))
    ensures a % Pow2(x) * Pow2(5 - x) + Pow2(5 - x) <= 32
  {
    hide Pow2;
    SmallPow2();
    if x == 0 {
    } else if x == 1 {
    } else if x == 2 {
    } else if x == 3 {
    }
  }

  lemma SecondSymbolIs(b: Byte, x: nat)
    requires 2 <= x <= 4
    ensures SecondSymbol(b, x) == b / Pow2(x - 2) % 32
  {
    hide And, Pow2;
    SmallPow2();
    var v := b / Pow2(x - 2);
    DivModIdentity(v, 32);
    AndOnes(v % 32, v / 32, 5);
  }

  /** One more byte completes one symbol, or two. */
  lemma GroupByte(t: seq<Symbol>, bytes: seq<Byte>, x: nat, a: Byte, b: Byte)
    requires x <= 4 && Grouped(t, bytes, x, a)
    ensures FirstSymbol(a, b, x) < 32
    ensures x < 2 ==> Grouped(t + [FirstSymbol(a, b, x)], bytes + [b], x + 3, b)
    ensures x >= 2 ==>
      SecondSymbol(b, x) < 32 &&
      Grouped(t + [FirstSymbol(a, b, x)] + [SecondSymbol(b, x)], bytes + [b], x - 2, b)
  {
    hide Grouped, FirstSymbol, SecondSymbol;
    FirstSymbolIs(a, b, x);
    if x < 2 {
      GroupOne(t, bytes, x, a, b);
    } else {
      SecondSymbolIs(b, x);
      GroupTwo(t, bytes, x, a, b);
    }
  }

  lemma GroupOne(t: seq<Symbol>, bytes: seq<Byte>, x: nat, a: Byte, b: Byte)
    requires x < 2 && Grouped(t, bytes, x, a) && FirstSymbol(a, b, x) < 32
    ensures Grouped(t + [FirstSymbol(a, b, x)], bytes + [b], x + 3, b)
  {
    hide Value, Pow2, FirstSymbol;
    FirstSymbolIs(a, b, x);
    ValueAppend(t, FirstSymbol(a, b, x), 32);
    ValueAppend(bytes, b, 256);
    GroupArithmetic(Value(t, 32), a, b, x);
    Residue(|bytes|);
  }

  lemma GroupTwo(t: seq<Symbol>, bytes: seq<Byte>, x: nat, a: Byte, b: Byte)
    requires 2 <= x <= 4 && Grouped(t, bytes, x, a) && FirstSymbol(a, b, x) < 32 && SecondSymbol(b, x) < 32
    ensures Grouped(t + [FirstSymbol(a, b, x)] + [SecondSymbol(b, x)], bytes + [b], x - 2, b)
  {
    hide Value, Pow2, FirstSymbol, SecondSymbol;
    FirstSymbolIs(a, b, x);
    SecondSymbolIs(b, x);
    ValueAppend(t, FirstSymbol(a, b, x), 32);
    ValueAppend(t + [FirstSymbol(a, b, x)], SecondSymbol(b, x), 32);
    ValueAppend(bytes, b, 256);
    GroupArithmetic(Value(t, 32), a, b, x);
    Residue(|bytes|);
  }

  lemma GroupArithmetic(v: nat, a: Byte, b: Byte, x: nat)
    requires x <= 4
    ensures var c := a % Pow2(x) * Pow2(5 - x) + b / Pow2(3 + x);
      var w := 256 * (v * Pow2(x) + a % Pow2(x)) + b;
      (x < 2 ==> (32 * v + c) * Pow2(x + 3) + b % Pow2(x + 3) == w) &&
      (x >= 2 ==> (32 * (32 * v + c) + b / Pow2(x - 2) % 32) * Pow2(x - 2) + b % Pow2(x - 2) == w)
  {
    hide Pow2;
    SmallPow2();
    var low, high := a % Pow2(x), b / Pow2(3 + x);
    DivModIdentity(b, Pow2(3 + x));
    if x < 2 {
      OneSymbol(v, low, high, b % Pow2(x + 3), Pow2(x), Pow2(5 - x), Pow2(x + 3));
    } else {
      var s := Pow2(x - 2);
      DivModIdentity(b, s);
      DivModIdentity(b / s, 32);
      DivDiv(b, s, 32);
      assert s * 32 == Pow2(3 + x) && Pow2(5 - x) * s == 8 && Pow2(x) == 4 * s;
      TwoSymbols(v, low, high, b / s % 32, b % s, s, Pow2(5 - x));
    }
  }

  lemma OneSymbol(v: nat, low: nat, high: nat, rest: nat, p: nat, q: nat, r: nat)
    requires q * r == 256 && r == 8 * p
    ensures (32 * v + (low * q + high)) * r + rest == 256 * (v * p + low) + (r * high + rest)
  {
    assert low * q * r == low * (q * r);
  }

  lemma TwoSymbols(v: nat, low: nat, high: nat, middle: nat, rest: nat, s: nat, q: nat)
    requires q * s == 8
    ensures (32 * (32 * v + (low * q + high)) + middle) * s + rest
         == 256 * (v * (4 * s) + low) + (s * (32 * high + middle) + rest)
  {
    assert low * q * s == low * (q * s);
  }

  /** The waiting bits, filled up with zeros, make the last symbol. */
  lemma GroupsEnd(t: seq<Symbol>, program: seq<Byte>, x: nat, a: Byte)
    requires x <= 4 && Grouped(t, program, x, a)
    ensures FirstSymbol(a, 0, x) < 32
    ensures Symbols(program) == if x == 0 then t else t + [FirstSymbol(a, 0, x)]
  {
    hide Value, Pow2, FirstSymbol, ToBase, Pow;
    FirstSymbolIs(a, 0, x);
    var c := FirstSymbol(a, 0, x);
    var r := if x == 0 then t else t + [c];
    var n := SymbolCount(|program|);
    ValueAppend(t, c, 32);
    SmallPow2();
    SmallPowers();
    EndArithmetic(Value(t, 32), a % Pow2(x), x);
    assert |r| == n;
    assert Value(r, 32) == Value(program, 256) * Pow(2, 5 * n - 8 * |program|);
    ToBaseOfValue(r, 32);
  }

  lemma EndArithmetic(v: nat, low: nat, x: nat)
    requires x <= 4 && low < Pow2(x)
    ensures 0 / Pow2(3 + x) == 0
    ensures x > 0 ==> 32 * v + low * Pow2(5 - x) == (v * Pow2(x) + low) * Pow2(5 - x)
    ensures x == 0 ==> v == v * Pow2(x) + low
  {
    hide Pow2;
    SmallPow2();
    if x == 0 {
    } else if x == 1 {
    } else if x == 2 {
    } else if x == 3 {
    }
  }

  // ----- Writing an address -----

  /** i characters are written: hrp, separator and the symbols d; the state is what they give. */
  ghost predicate Written(addr: seq<char>, i: nat, chk: bv32, hrp: string, d: seq<Symbol>)
  {
    Printable(hrp) && i == |hrp| + 1 + |d| && i <= |addr| &&
    addr[..i] == hrp + "1" + Chars(d) && chk == Feed(1, Expand(hrp) + d)
  }

  lemma {:induction false} CharsConcat(s: seq<Symbol>, t: seq<Symbol>)
    ensures Chars(s + t) == Chars(s) + Chars(t)
  {
    if s == [] {
      assert s + t == t;
    } else {
      assert (s + t)[1..] == s[1..] + t;
      CharsConcat(s[1..], t);
    }
  }

  /** Appends one symbol to the checksum and the text. */
  method PutSymbol(addr: array<char>, i: nat, chk: bv32, c: Symbol, ghost hrp: string, ghost d: seq<Symbol>)
    returns (chk': bv32)
    requires Written(addr[..], i, chk, hrp, d) && i < addr.Length
    modifies addr
    ensures Written(addr[..], i + 1, chk', hrp, d + [c])
  {
    hide Feed, Chars, Expand;
    CharsetLength();
    CharsConcat(d, [c]);
    CharsAt([c], 0);
    assert Chars([c]) == [CHARSET[c]];
    addr[i] := CHARSET[c];
    chk' := Step(chk, c);
    FeedOne(1, Expand(hrp) + d, c);
    assert Expand(hrp) + d + [c] == Expand(hrp) + (d + [c]);
    assert addr[..i + 1] == addr[..i] + [CHARSET[c]];
  }

  /** Whether the encoder accepts the human-readable part and the witness program. */
  predicate Encodable(hrp: string, data: seq<Byte>)
    requires |data| >= 2
  {
    |hrp| <= 84 && Printable(hrp) && !HasUpper(hrp) && (data[0] == 0 || 0x51 <= data[0] <= 0x60) &&
    2 <= data[1] <= 40 && |hrp| + 2 + data[1] + 6 < 91
  }

  function ProgramOf(data: seq<Byte>): seq<Byte>
    requires |data| >= 2 && |data| - 2 >= data[1]
  {
    var n: nat := data[1];
    data[2..2 + n]
  }

  function VersionOf(opcode: Byte): nat {
    if opcode >= 0x51 then opcode + 1 - 0x51 else 0
  }

  /** The program's bytes as symbols behind the version, one or two for each byte. */
  method PutProgram(addr: array<char>, start: nat, chk0: bv32, program: seq<Byte>, ghost hrp: string,
                    ghost d0: seq<Symbol>)
    returns (i: nat, chk: bv32)
    requires Written(addr[..], start, chk0, hrp, d0) && start + SymbolCount(|program|) <= addr.Length
    modifies addr
    ensures Written(addr[..], i, chk, hrp, d0 + Symbols(program))
  {
    hide Written, Grouped, FirstSymbol, SecondSymbol, Symbols;
    i, chk := start, chk0;
    var b: Byte := 0;
    var j: nat := 0;
    ghost var t: seq<Symbol> := [];
    assert d0 + t == d0;
    GroupsStart();
    assert program[..0] == [];
    while j <= |program|
      invariant j <= |program| + 1 && i == start + |t|
      invariant Written(addr[..], i, chk, hrp, d0 + t)
      invariant j <= |program| ==> |t| == 8 * j / 5 && Grouped(t, program[..j], 8 * j % 5, b)
      invariant j > |program| ==> t == Symbols(program)
    {
      var a := b;
      b := if j < |program| then program[j] else 0;
      var x := (j % 5) * 8 - ((j % 5) * 8 / 5) * 5;
      Residue(j);
      GroupByte(t, program[..j], x, a, b);
      if j == |program| {
        assert program[..j] == program;
        GroupsEnd(t, program, x, a);
        SymbolsLength(program);
      } else {
        assert program[..j + 1] == program[..j] + [b];
      }
      var c: Symbol := FirstSymbol(a, b, x);
      if j < |program| || j % 5 > 0 {
        chk := PutSymbol(addr, i, chk, c, hrp, d0 + t);
        assert d0 + t + [c] == d0 + (t + [c]);
        t := t + [c];
        i := i + 1;
      }
      if x >= 2 && j < |program| {
        c := SecondSymbol(b, x);
        chk := PutSymbol(addr, i, chk, c, hrp, d0 + t);
        assert d0 + t + [c] == d0 + (t + [c]);
        t := t + [c];
        i := i + 1;
      }
      j := j + 1;
    }
  }

  lemma GroupsStart()
    ensures Grouped([], [], 0, 0)
  {
  }

  lemma Residue(j: nat)
    ensures (j % 5) * 8 - ((j % 5) * 8 / 5) * 5 == 8 * j % 5 <= 4
    ensures 8 * j % 5 < 2 ==> 8 * (j + 1) % 5 == 8 * j % 5 + 3 && 8 * (j + 1) / 5 == 8 * j / 5 + 1
    ensures 8 * j % 5 >= 2 ==> 8 * (j + 1) % 5 == 8 * j % 5 - 2 && 8 * (j + 1) / 5 == 8 * j / 5 + 2
    ensures j % 5 == 0 <==> 8 * j % 5 == 0
  {
    var q, r := j / 5, j % 5;
    FiveParts(q, r);
    FiveParts(q, r + 1);
  }

  lemma FiveParts(q: nat, r: nat)
    ensures 8 * (5 * q + r) % 5 == 8 * r % 5 && 8 * (5 * q + r) / 5 == 8 * q + 8 * r / 5
  {
    DivModIdentity(8 * r, 5);
    DivModUnique(8 * (5 * q + r), 5, 8 * q + 8 * r / 5, 8 * r % 5);
  }

  /** The symbols of the human-readable part: high bits, a zero, low bits. */
  method FeedHrp(hrp: string) returns (chk: bv32)
    requires Printable(hrp)
    ensures chk == Feed(1, Expand(hrp))
  {
    hide Feed, SymbolOf;
    chk := 1;
    FeedNothing(1);
    var i: nat := 0;
    while i < |hrp|
      invariant i <= |hrp| && chk == Feed(1, HighBits(hrp)[..i])
    {
      FeedOne(1, HighBits(hrp)[..i], HighBits(hrp)[i]);
      assert HighBits(hrp)[..i + 1] == HighBits(hrp)[..i] + [HighBits(hrp)[i]];
      chk := Step(chk, Code(ToLower(hrp[i])) / 32);
      i := i + 1;
    }
    assert HighBits(hrp)[..i] == HighBits(hrp);
    FeedOne(1, HighBits(hrp), 0);
    chk := Step(chk, 0);
    i := 0;
    ghost var front := HighBits(hrp) + [0];
    assert front + LowBits(hrp)[..0] == front;
    while i < |hrp|
      invariant i <= |hrp| && chk == Feed(1, front + LowBits(hrp)[..i])
    {
      FeedOne(1, front + LowBits(hrp)[..i], LowBits(hrp)[i]);
      assert front + LowBits(hrp)[..i + 1] == front + LowBits(hrp)[..i] + [LowBits(hrp)[i]];
      chk := Step(chk, Code(hrp[i]) % 32);
      i := i + 1;
    }
    assert LowBits(hrp)[..i] == LowBits(hrp);
  }

  lemma FeedNothing(chk: bv32)
    ensures Feed(chk, []) == chk
  {
  }

  /** The six symbols that bring the state to 1, and the terminator. */
  method PutCheck(addr: array<char>, i: nat, chk: bv32, ghost hrp: string, ghost d: seq<Symbol>)
    requires Written(addr[..], i, chk, hrp, d) && i + 6 < addr.Length
    modifies addr
    ensures addr[..i + 7] == TextOf(hrp, d) + ['\0']
  {
    hide Feed, Chars, Expand, SixSymbols, Add, Polymod;
    var state := chk;
    var j: nat := 0;
    assert Coast(chk, 0) == chk;
    while j < 6
      invariant j <= 6 && state == Coast(chk, j)
    {
      state := Polymod(state);
      j := j + 1;
    }
    state := Add(state, 1);
    ghost var check := SixSymbols(state);
    SixAt(state);
    ghost var front := addr[..i];
    CharsConcat(d, check);
    j := 0;
    while j < 6
      invariant j <= 6 && addr[..i] == front && addr[i..i + j] == Chars(check)[..j]
    {
      CharsAt(check, j);
      CharsetLength();
      addr[i + j] := CHARSET[SymbolAt(state, j)];
      assert addr[i..i + j + 1] == addr[i..i + j] + [addr[i + j]];
      j := j + 1;
    }
    assert Chars(check)[..6] == Chars(check);
    addr[i + 6] := '\0';
    assert addr[..i + 7] == addr[..i] + addr[i..i + 6] + ['\0'];
  }

  lemma SixAt(x: bv32)
    ensures |SixSymbols(x)| == 6 && forall k :: 0 <= k < 6 ==> SixSymbols(x)[k] == SymbolAt(x, k)
    ensures |Chars(SixSymbols(x))| == 6
  {
  }

  method CopyHrp(addr: array<char>, hrp: string) returns (ok: bool)
    requires addr.Length == 91
    modifies addr
    ensures ok <==> |hrp| <= 84 && Printable(hrp) && !HasUpper(hrp)
    ensures ok ==> addr[..|hrp|] == hrp
  {
    var i: nat := 0;
    while i < |hrp|
      invariant i <= |hrp| && i <= 84 && addr[..i] == hrp[..i]
      invariant forall k :: 0 <= k < i ==> 33 <= Code(hrp[k]) <= 126 && !IsUpper(hrp[k])
    {
      if i > 83 || Code(hrp[i]) < 33 || Code(hrp[i]) > 126 || IsUpper(hrp[i]) {
        return false;
      }
      addr[i] := hrp[i];
      i := i + 1;
    }
    return true;
  }

  /** The text and its terminator, or nothing. The length check counts bytes where symbols are written, so a
      caller must make sure itself that the text fits 90 characters. */
  method Encode(addr91: array<char>, hrp: string, data: seq<Byte>) returns (len: nat)
    requires addr91.Length >= 91 && |data| >= 2 && |data| - 2 >= data[1]
    requires Encodable(hrp, data) ==> |hrp| + 8 + SymbolCount(data[1]) <= 90
    modifies addr91
    ensures !Encodable(hrp, data) ==> len == 0 && addr91[..] == old(addr91[..])
    ensures Encodable(hrp, data) ==>
      var text := Encoded(hrp, VersionOf(data[0]), ProgramOf(data)) + ['\0'];
      len == |text| && addr91[..] == text + old(addr91[len..])
  {
    hide Feed, Chars, Expand, Coast, CheckSymbols, Symbols, Written, TextOf;
    var addr := new char[91](_ => '\0');
    var ok := CopyHrp(addr, hrp);
    if !ok {
      return 0;
    }
    var i := |hrp|;
    var chk := FeedHrp(hrp);
    addr[i] := '1';
    i := i + 1;
    if data[0] > 0 && data[0] < 0x51 {
      return 0;
    }
    var ver := VersionOf(data[0]);
    var n: nat := data[1];
    if ver > 16 || n < 2 || n > 40 || i + 1 + n + 6 >= 91 {
      return 0;
    }
    assert Encodable(hrp, data);
    var program := ProgramOf(data);
    WrittenStarts(addr[..], i, chk, hrp);
    chk := PutSymbol(addr, i, chk, ver, hrp, []);
    assert [] + [ver] == [ver];
    i, chk := PutProgram(addr, i + 1, chk, program, hrp, [ver]);
    SymbolsLength(program);
    WrittenLength(addr[..], i, chk, hrp, [ver] + Symbols(program));
    PutCheck(addr, i, chk, hrp, [ver] + Symbols(program));
    len := i + 7;
    ghost var text := addr[..len];
    forall k | 0 <= k < len {
      addr91[k] := addr[k];
    }
    assert addr91[..] == addr91[..len] + addr91[len..];
  }

  /** The prefix and the separator are written, and no symbol yet. */
  lemma WrittenStarts(addr: seq<char>, i: nat, chk: bv32, hrp: string)
    requires Printable(hrp) && i == |hrp| + 1 <= |addr| && addr[..i] == hrp + "1" && chk == Feed(1, Expand(hrp))
    ensures Written(addr, i, chk, hrp, [])
  {
    hide Feed, Chars, Expand;
    NoChars();
    assert Expand(hrp) + [] == Expand(hrp) && hrp + "1" + Chars([]) == hrp + "1";
  }

  lemma WrittenLength(addr: seq<char>, i: nat, chk: bv32, hrp: string, d: seq<Symbol>)
    requires Written(addr, i, chk, hrp, d)
    ensures i == |hrp| + 1 + |d|
  {
  }

  lemma NoChars()
    ensures Chars([]) == []
  {
  }

  // ----- Symbols to bytes, or-ed into a cleared buffer -----

  /** The full bytes and the r highest bits of the next one are exactly the bits of the symbols read. */
  predicate Collected(buf: seq<Byte>, s: seq<Symbol>) {
    var q, r := 5 * |s| / 8, 5 * |s| % 8;
    q < |buf| && buf[q] % Pow2(8 - r) == 0 && (forall k :: q < k < |buf| ==> buf[k] == 0) &&
    Value(buf[..q], 256) * Pow2(r) + buf[q] / Pow2(8 - r) == Value(s, 32)
  }

  /** The bits of a symbol that go into the current byte, x bits of which are in use. */
  function HeadBits(current: Byte, c: Symbol, x: nat): nat
    requires x <= 7
  {
    QuotientNat(c * 8, Pow2(x));
    Or(current, c * 8 / Pow2(x))
  }

  /** The bits that are left for the next byte, cut to eight. */
  function TailBits(next: Byte, c: Symbol, x: nat): nat
    requires 3 < x <= 7
  {
    Or(next, c * Pow2(11 - x) % 0x100)
  }

  lemma HeadBitsIs(current: Byte, c: Symbol, x: nat)
    requires x <= 7 && current % Pow2(8 - x) == 0
    ensures HeadBits(current, c, x) == current + c * 8 / Pow2(x) < 0x100
  {
    hide Or, Pow2;
    HeadFits(current, c, x);
    var t := current / Pow2(8 - x);
    DivModIdentity(current, Pow2(8 - x));
    OrDisjoint(c * 8 / Pow2(x), t, 8 - x);
    OrCommutes(c * 8 / Pow2(x), current);
  }

  lemma HeadFits(current: Byte, c: Symbol, x: nat)
    requires x <= 7 && current % Pow2(8 - x) == 0
    ensures c * 8 / Pow2(x) < Pow2(8 - x) && current + Pow2(8 - x) <= 0x100
  {
    hide Pow2;
    SmallPow2();
    if x == 0 {
    } else if x == 1 {
    } else if x == 2 {
    } else if x == 3 {
    } else if x == 4 {
    } else if x == 5 {
    } else if x == 6 {
    }
  }

  lemma TailBitsIs(c: Symbol, x: nat)
    requires 3 < x <= 7
    ensures TailBits(0, c, x) == c * Pow2(11 - x) % 0x100 < 0x100
  {
  }

  lemma CollectLow(v: nat, b: Byte, c: Symbol, x: nat)
    requires x < 3 && b % Pow2(8 - x) == 0
    ensures var b' := b + c * 8 / Pow2(x);
      b' % Pow2(8 - (x + 5)) == 0 &&
      v * Pow2(x + 5) + b' / Pow2(8 - (x + 5)) == 32 * (v * Pow2(x) + b / Pow2(8 - x)) + c
  {
    hide Pow2;
    LowPowers(x);
    LowArithmetic(v, b, c, Pow2(x), Pow2(3 - x));
  }

  lemma LowArithmetic(v: nat, b: nat, c: nat, p: nat, m: nat)
    requires p * m == 8 && b % (32 * m) == 0
    ensures var b' := b + c * 8 / p;
      b' % m == 0 && v * (32 * p) + b' / m == 32 * (v * p + b / (32 * m)) + c
  {
    var t := b / (32 * m);
    DivModIdentity(b, 32 * m);
    DivModUnique(c * 8, p, c * m, 0) by { ThreeFactors(c, p, m); }
    assert b + c * m == m * (32 * t + c) by { TakeOut(m, t, c); }
    DivModUnique(m * (32 * t + c), m, 32 * t + c, 0);
    assert v * (32 * p) == 32 * (v * p);
  }

  lemma LowPowers(x: nat)
    requires x < 3
    ensures Pow2(x) * Pow2(3 - x) == 8 && Pow2(8 - x) == 32 * Pow2(3 - x) && Pow2(x + 5) == 32 * Pow2(x)
    ensures 8 - (x + 5) == 3 - x
  {
    hide Pow2;
    SmallPow2();
    if x == 0 {
    } else if x == 1 {
    }
  }

  lemma ThreeFactors(c: nat, p: nat, m: nat)
    requires p * m == 8
    ensures c * 8 == p * (c * m)
  {
    assert c * (p * m) == p * (c * m);
  }

  lemma TakeOut(m: nat, t: nat, c: nat)
    ensures 32 * m * t + c * m == m * (32 * t + c)
  {
  }

  lemma CollectHigh(v: nat, b: Byte, c: Symbol, x: nat)
    requires 3 <= x <= 7 && b % Pow2(8 - x) == 0
    ensures var b' := b + c * 8 / Pow2(x);
      var next := c * Pow2(11 - x) % 0x100;
      next % Pow2(8 - (x - 3)) == 0 && (x == 3 ==> next == 0) &&
      (256 * v + b') * Pow2(x - 3) + next / Pow2(8 - (x - 3)) == 32 * (v * Pow2(x) + b / Pow2(8 - x)) + c
  {
    hide Pow2;
    SymbolSplits(c, x);
    DivModIdentity(c, Pow2(x - 3));
    DivModIdentity(b, Pow2(8 - x));
    HighArithmetic(v, b / Pow2(8 - x), c / Pow2(x - 3), c % Pow2(x - 3), x);
  }

  lemma SymbolSplits(c: Symbol, x: nat)
    requires 3 <= x <= 7
    ensures c * 8 / Pow2(x) == c / Pow2(x - 3)
    ensures var next := c * Pow2(11 - x) % 0x100;
      next % Pow2(11 - x) == 0 && next / Pow2(11 - x) == c % Pow2(x - 3) && (x == 3 ==> next == 0)
  {
    hide Pow2;
    SmallPow2();
    var m, n := Pow2(x - 3), Pow2(11 - x);
    assert Pow2(x) == 8 * m && m * n == 0x100 by {
      if x == 3 {
      } else if x == 4 {
      } else if x == 5 {
      } else if x == 6 {
      }
    }
    SplitsAt(c, c / m, c % m, m, n) by { DivModIdentity(c, m); }
  }

  lemma SplitsAt(c: nat, high: nat, low: nat, m: nat, n: nat)
    requires c == m * high + low && low < m && m * n == 0x100
    ensures c * 8 / (8 * m) == high
    ensures var next := c * n % 0x100; next == low * n && next % n == 0 && next / n == low
  {
    DivModUnique(c * 8, 8 * m, high, 8 * low);
    LessTimes(low, m, n);
    assert c * n == 0x100 * high + low * n by {
      assert (m * high + low) * n == (m * n) * high + low * n;
    }
    DivModUnique(c * n, 0x100, high, low * n);
    DivModUnique(low * n, n, low, 0);
  }

  lemma HighArithmetic(v: nat, t: nat, high: nat, low: nat, x: nat)
    requires 3 <= x <= 7
    ensures (256 * v + (Pow2(8 - x) * t + high)) * Pow2(x - 3) + low
         == 32 * (v * Pow2(x) + t) + (Pow2(x - 3) * high + low)
  {
    hide Pow2;
    SmallPow2();
    if x == 3 {
    } else if x == 4 {
    } else if x == 5 {
    } else if x == 6 {
    }
  }

  /** One more symbol lands in one byte, or in two. */
  lemma CollectSymbol(buf: seq<Byte>, s: seq<Symbol>, c: Symbol)
    requires Collected(buf, s) && 5 * |s| / 8 + 1 < |buf|
    ensures var q, x := 5 * |s| / 8, 5 * |s| % 8;
      HeadBits(buf[q], c, x) < 0x100 && (x > 3 ==> TailBits(buf[q + 1], c, x) < 0x100) &&
      var head := buf[q := HeadBits(buf[q], c, x)];
      Collected(if x > 3 then head[q + 1 := TailBits(head[q + 1], c, x)] else head, s + [c])
  {
    hide Pow2, HeadBits, TailBits, Value;
    var q, x := 5 * |s| / 8, 5 * |s| % 8;
    HeadBitsIs(buf[q], c, x);
    ValueAppend(s, c, 32);
    EightParts(|s|);
    var b := HeadBits(buf[q], c, x);
    var head: seq<Byte> := buf[q := b];
    assert head[..q] == buf[..q];
    if x < 3 {
      CollectLow(Value(buf[..q], 256), buf[q], c, x);
    } else {
      CollectHigh(Value(buf[..q], 256), buf[q], c, x);
      ValueAppend(buf[..q], b, 256);
      assert head[..q + 1] == buf[..q] + [b];
      if x > 3 {
        TailBitsIs(c, x);
        var both: seq<Byte> := head[q + 1 := TailBits(head[q + 1], c, x)];
        assert both[..q + 1] == head[..q + 1];
      } else {
        NothingLeft();
      }
    }
  }

  lemma NothingLeft()
    ensures 0 / Pow2(8) == 0
  {
  }

  lemma EightParts(n: nat)
    ensures 5 * n % 8 < 3 ==> 5 * (n + 1) / 8 == 5 * n / 8 && 5 * (n + 1) % 8 == 5 * n % 8 + 5
    ensures 5 * n % 8 >= 3 ==> 5 * (n + 1) / 8 == 5 * n / 8 + 1 && 5 * (n + 1) % 8 == 5 * n % 8 - 3
  {
    var q, r := 5 * n / 8, 5 * n % 8;
    DivModIdentity(5 * n, 8);
    if r < 3 {
      DivModUnique(5 * (n + 1), 8, q, r + 5);
    } else {
      DivModUnique(5 * (n + 1), 8, q + 1, r - 3);
    }
  }

  lemma FullBytes(buf: seq<Byte>, s: seq<Symbol>)
    requires Collected(buf, s)
    ensures var q, r := 5 * |s| / 8, 5 * |s| % 8;
      q < |buf| && Pow2(r) > 0 && Value(s, 32) / Pow2(r) == Value(buf[..q], 256)
  {
    hide Value, Pow2;
    var q, r := 5 * |s| / 8, 5 * |s| % 8;
    TopBits(buf[q], r);
    Quotient(Value(s, 32), Pow2(r), Value(buf[..q], 256), buf[q] / Pow2(8 - r));
  }

  lemma Quotient(v: nat, p: nat, head: nat, top: nat)
    requires head * p + top == v && top < p
    ensures v / p == head
  {
    DivModUnique(v, p, head, top);
  }

  lemma CollectedAll(buf: seq<Byte>, s: seq<Symbol>)
    requires Collected(buf, s)
    ensures buf[..ByteCount(|s|)] == Bytes(s)
  {
    hide Value, Pow2, Pow, ToBase;
    var q, r := 5 * |s| / 8, 5 * |s| % 8;
    SmallPow2();
    SmallPowers();
    assert Value(s, 32) / Pow2(r) == Value(buf[..q], 256) by { FullBytes(buf, s); }
    assert Pow2(r) == Pow(2, r);
    ToBaseOfValue(buf[..q], 256);
  }

  lemma TopBits(b: Byte, r: nat)
    requires r <= 7
    ensures b / Pow2(8 - r) < Pow2(r)
  {
    hide Pow2;
    SmallPow2();
    if r == 0 {
    } else if r == 1 {
    } else if r == 2 {
    } else if r == 3 {
    } else if r == 4 {
    } else if r == 5 {
    } else if r == 6 {
    }
  }

  // ----- Reading an address -----

  /** Symbol j of the program goes into the buffer. */
  method Collect(buf: array<Byte>, j: nat, c: Symbol, ghost program: seq<Symbol>)
    requires buf.Length == 52 && |program| == j <= 80 && Collected(buf[..], program)
    modifies buf
    ensures Collected(buf[..], program + [c])
  {
    hide Collected, HeadBits, TailBits;
    var x := (j % 8) * 5 - ((j % 8) * 5 / 8) * 8;
    var at := (j / 8) * 5 + (j % 8) * 5 / 8;
    EightDigits(j);
    CollectSymbol(buf[..], program, c);
    buf[at] := HeadBits(buf[at], c, x);
    if x > 3 {
      buf[at + 1] := TailBits(buf[at + 1], c, x);
    }
  }

  /** The symbols after the separator: the running checksum, the version, and the program's bytes. */
  method ReadSymbols(tail: string, chk0: bv32) returns (ok: bool, chk: bv32, ver: nat, buf: array<Byte>)
    requires 7 <= |tail| <= 88
    ensures fresh(buf) && buf.Length == 52
    ensures ok <==> AllSymbols(tail)
    ensures ok ==> var d := SymbolsOf(tail);
      chk == Feed(chk0, d) && ver == d[0] && buf[..ByteCount(|d| - 7)] == Bytes(d[1..|d| - 6])
  {
    hide Feed, SymbolOf, Collected, Bytes, HeadBits, TailBits;
    chk, ver := chk0, 0xff;
    buf := new Byte[52](_ => 0);
    var i: nat := 0;
    var j: int := -1;
    ghost var d: seq<Symbol> := [];
    ghost var program: seq<Symbol> := [];
    FeedNothing(chk0);
    CollectedNothing(buf[..]);
    while i < |tail|
      invariant i <= |tail| && j == i - 1 && |d| == i && chk == Feed(chk0, d)
      invariant forall k :: 0 <= k < i ==> SymbolOf(tail[k]) == d[k]
      invariant i > 0 ==> ver == d[0]
      invariant Collected(buf[..], program)
      invariant program == if i == 0 then [] else d[1..if i + 6 <= |tail| then i else |tail| - 6]
    {
      var c := SymbolOf(tail[i]);
      if c >= 32 {
        return false, chk, ver, buf;
      }
      FeedOne(chk0, d, c);
      chk := Step(chk, c);
      ghost var last := d;
      d := d + [c];
      if j == -1 {
        ver := c;
      } else if i + 6 < |tail| {
        Collect(buf, j, c, program);
        program := program + [c];
        assert d[1..i + 1] == last[1..i] + [c];
      } else {
        assert d[1..|tail| - 6] == last[1..|tail| - 6];
      }
      i, j := i + 1, j + 1;
    }
    assert d == SymbolsOf(tail);
    CollectedAll(buf[..], program);
    ok := true;
  }

  lemma CollectedNothing(buf: seq<Byte>)
    requires |buf| > 0 && forall k :: 0 <= k < |buf| ==> buf[k] == 0
    ensures Collected(buf, [])
  {
    assert Pow2(8) == 256;
  }

  lemma EightDigits(j: nat)
    ensures (j % 8) * 5 - ((j % 8) * 5 / 8) * 8 == 5 * j % 8 <= 7
    ensures (j / 8) * 5 + (j % 8) * 5 / 8 == 5 * j / 8
  {
    var q, r := j / 8, j % 8;
    DivModIdentity(j, 8);
    DivModIdentity(5 * r, 8);
    DivModUnique(5 * j, 8, 5 * q + 5 * r / 8, 5 * r % 8);
  }

  /** Whether every character may occur in an address, and which cases do occur. */
  method Scan(addr: string) returns (ok: bool, lower: bool, upper: bool)
    ensures ok <==> Printable(addr)
    ensures ok ==> (lower <==> HasLower(addr)) && (upper <==> HasUpper(addr))
  {
    lower, upper := false, false;
    var i: nat := 0;
    while i < |addr|
      invariant i <= |addr| && forall k :: 0 <= k < i ==> 33 <= Code(addr[k]) <= 126
      invariant lower <==> exists k :: 0 <= k < i && IsLower(addr[k])
      invariant upper <==> exists k :: 0 <= k < i && IsUpper(addr[k])
    {
      if Code(addr[i]) < 33 || Code(addr[i]) > 126 {
        return false, lower, upper;
      }
      if IsLower(addr[i]) {
        lower := true;
      }
      if IsUpper(addr[i]) {
        upper := true;
      }
      i := i + 1;
    }
    ok := true;
  }

  method FindSeparator(addr: string) returns (sep: nat)
    ensures sep == Separator(addr)
  {
    sep := |addr|;
    while sep > 0 && !(sep < |addr| && addr[sep] == '1')
      invariant sep <= |addr| && LastOne(addr, sep) == LastOne(addr, |addr|)
    {
      sep := sep - 1;
    }
  }

  /** The human-readable part and the payload of an accepted address; a rejected one changes nothing. */
  method Decode(hrp84: array<char>, data42: array<Byte>, addr: string) returns (len: nat)
    requires hrp84.Length >= 84 && data42.Length >= 42
    modifies hrp84, data42
    ensures Decoded(addr) == Rejected ==>
      len == 0 && hrp84[..] == old(hrp84[..]) && data42[..] == old(data42[..])
    ensures Decoded(addr).Accepted? ==> var hrp, data := Decoded(addr).hrp, Decoded(addr).data;
      len == |data| <= 42 && |hrp| < 84 && data42[..] == data + old(data42[len..]) &&
      hrp84[..] == hrp + ['\0'] + old(hrp84[|hrp| + 1..])
  {
    hide Feed, Bytes, Expand, LastOne, SymbolOf;
    var ok, lower, upper := Scan(addr);
    if !ok {
      return 0;
    }
    var sep := FindSeparator(addr);
    if |addr| < 8 || |addr| > 90 || sep < 1 || sep + 2 + 6 > |addr| || (upper && lower) {
      return 0;
    }
    assert Printable(addr[..sep]);
    var chk := FeedHrp(addr[..sep]);
    var ver: nat, buf;
    ok, chk, ver, buf := ReadSymbols(addr[sep + 1..], chk);
    if !ok {
      return 0;
    }
    ghost var d := SymbolsOf(addr[sep + 1..]);
    FeedConcat(1, Expand(addr[..sep]), d);
    var bufLen := (|addr| - (sep + 2 + 6)) * 5 / 8;
    if chk != 1 || ver > 16 || bufLen < 2 || bufLen > 40 {
      return 0;
    }
    ghost var hrp := LowerAll(addr[..sep]);
    assert Decoded(addr) == Accepted(hrp, Payload(ver, buf[..bufLen]));
    CopyLower(hrp84, addr, sep);
    WritePayload(data42, ver, buf, bufLen);
    len := 2 + bufLen;
  }

  method CopyLower(hrp84: array<char>, addr: string, sep: nat)
    requires sep < |addr| && sep < hrp84.Length
    modifies hrp84
    ensures hrp84[..] == LowerAll(addr[..sep]) + ['\0'] + old(hrp84[sep + 1..])
  {
    var i: nat := 0;
    while i < sep
      invariant i <= sep && forall k :: 0 <= k < i ==> hrp84[k] == ToLower(addr[k])
      invariant forall k :: i <= k < hrp84.Length ==> hrp84[k] == old(hrp84[k])
    {
      hrp84[i] := ToLower(addr[i]);
      i := i + 1;
    }
    hrp84[sep] := '\0';
    assert hrp84[..sep] == LowerAll(addr[..sep]);
  }

  method WritePayload(data42: array<Byte>, ver: nat, buf: array<Byte>, bufLen: nat)
    requires ver <= 16 && bufLen <= 40 && bufLen <= buf.Length && data42.Length >= 42 && buf != data42
    modifies data42
    ensures data42[..] == Payload(ver, buf[..bufLen]) + old(data42[2 + bufLen..])
  {
    data42[0] := if ver == 0 then 0 else ver + 0x51 - 1;
    data42[1] := bufLen;
    forall k | 0 <= k < bufLen {
      data42[2 + k] := buf[k];
    }
    assert forall k :: 2 <= k < 2 + bufLen ==> data42[k] == buf[k - 2];
    assert data42[2..2 + bufLen] == buf[..bufLen];
    assert data42[..2 + bufLen] == data42[..2] + data42[2..2 + bufLen];
  }
}
