/** ChaCha20-Poly1305 authenticated encryption (section 2.8 of RFC 7539) with the tag computed in pieces,
    as the code does it. The ChaCha20 key stream is a parameter. */
module Aead {
  import opened Options
  import opened Words
  import opened Poly1305

  /** Key stream byte at a position: key, 12-byte nonce, 64 * block counter + offset in the block. */
  type Stream = (seq<Byte>, seq<Byte>, nat) -> Byte

  const UINT32_MAX: nat := 0xffff_ffff

  // ----- Exclusive or -----

  function Xor(a: nat, b: nat): nat {
    if a == 0 then b
    else if b == 0 then a
    else (if a % 2 != b % 2 then 1 else 0) + 2 * Xor(a / 2, b / 2)
  }

  lemma XorHalf(a: nat, b: nat)
    ensures Xor(a, b) == (if a % 2 != b % 2 then 1 else 0) + 2 * Xor(a / 2, b / 2)
  {
  }

  lemma {:induction false} XorTwice(a: nat, b: nat)
    ensures Xor(Xor(a, b), b) == a
    decreases a + b
  {
    if a > 0 && b > 0 {
      hide Xor;
      var x := Xor(a, b);
      XorHalf(a, b);
      assert x / 2 == Xor(a / 2, b / 2);
      XorHalf(x, b);
      XorTwice(a / 2, b / 2);
    } else if b > 0 {
      XorSelf(b);
    }
  }

  lemma {:induction false} XorSelf(b: nat)
    ensures Xor(b, b) == 0
  {
    if b > 0 {
      XorSelf(b / 2);
    }
  }

  lemma {:induction false} XorZero(a: nat, b: nat)
    ensures Xor(a, b) == 0 <==> a == b
  {
    if a > 0 && b > 0 {
      XorZero(a / 2, b / 2);
    }
  }

  lemma {:induction false} XorBelow(a: nat, b: nat, k: nat)
    requires a < Pow2(k) && b < Pow2(k)
    ensures Xor(a, b) < Pow2(k)
  {
    if a > 0 && b > 0 {
      XorBelow(a / 2, b / 2, k - 1);
    }
  }

  lemma OrZero(a: nat, b: nat)
    ensures Or(a, b) == 0 <==> a == 0 && b == 0
  {
  }

  function XorByte(a: Byte, b: Byte): Byte {
    Pow2Values();
    XorBelow(a, b, 8);
    Xor(a, b)
  }

  /** data with the key stream, from the given position on, added to it. */
  function Crypt(ks: Stream, key: seq<Byte>, nonce: seq<Byte>, data: seq<Byte>, pos: nat): (out: seq<Byte>)
    ensures |out| == |data|
  {
    seq(|data|, i requires 0 <= i < |data| => XorByte(data[i], ks(key, nonce, pos + i)))
  }

  /** The stream cipher is its own inverse. */
  lemma CryptTwice(ks: Stream, key: seq<Byte>, nonce: seq<Byte>, data: seq<Byte>, pos: nat)
    ensures Crypt(ks, key, nonce, Crypt(ks, key, nonce, data, pos), pos) == data
  {
    forall i | 0 <= i < |data|
      ensures Crypt(ks, key, nonce, Crypt(ks, key, nonce, data, pos), pos)[i] == data[i]
    {
      XorTwice(data[i], ks(key, nonce, pos + i));
    }
  }

  // ----- The construction of RFC 7539 -----

  /** Zero bytes up to a multiple of 16. */
  function Pad16(b: seq<Byte>): (p: seq<Byte>)
    ensures |b + p| % 16 == 0 && |p| < 16
  {
    if |b| % 16 == 0 then [] else seq(16 - |b| % 16, _ => 0)
  }

  function MacData(ad: seq<Byte>, ct: seq<Byte>): seq<Byte> {
    ad + Pad16(ad) + (ct + Pad16(ct)) + (ToLE(|ad|, 8) + ToLE(|ct|, 8))
  }

  function MacKey(ks: Stream, key: seq<Byte>, nonce: seq<Byte>): (mk: seq<Byte>)
    ensures |mk| == 32
  {
    Crypt(ks, key, nonce, seq(32, _ => 0), 0)
  }

  function TagOf(ks: Stream, key: seq<Byte>, nonce: seq<Byte>, ad: seq<Byte>, ct: seq<Byte>): nat {
    var mk := MacKey(ks, key, nonce);
    Tag(Absorb(0, ClampedR(mk), MacData(ad, ct)), mk)
  }

  function Seal(ks: Stream, key: seq<Byte>, nonce: seq<Byte>, data: seq<Byte>, ad: seq<Byte>): seq<Byte> {
    var ct := Crypt(ks, key, nonce, data, 64);
    ct + ToLE(TagOf(ks, key, nonce, ad, ct), 16)
  }

  /** Plaintext of a sealed message, None when it is too short or its tag does not match. */
  function Open(ks: Stream, key: seq<Byte>, nonce: seq<Byte>, sealed: seq<Byte>, ad: seq<Byte>): Option<seq<Byte>> {
    if |sealed| < 16 then None
    else
      var ct := sealed[..|sealed| - 16];
      if sealed[|ct|..] != ToLE(TagOf(ks, key, nonce, ad, ct), 16) then None
      else Some(Crypt(ks, key, nonce, ct, 64))
  }

  /** Opening succeeds exactly on sealed messages, and gives back what was sealed. */
  lemma OpenIffSealed(ks: Stream, key: seq<Byte>, nonce: seq<Byte>, data: seq<Byte>, ad: seq<Byte>, msg: seq<Byte>)
    ensures Open(ks, key, nonce, msg, ad) == Some(data) <==> msg == Seal(ks, key, nonce, data, ad)
  {
    var ct := Crypt(ks, key, nonce, data, 64);
    var sealed := Seal(ks, key, nonce, data, ad);
    assert sealed[..|sealed| - 16] == ct;
    CryptTwice(ks, key, nonce, data, 64);
    if Open(ks, key, nonce, msg, ad) == Some(data) {
      var ct' := msg[..|msg| - 16];
      CryptTwice(ks, key, nonce, ct', 64);
      assert ct' == ct;
      assert msg == ct' + msg[|ct'|..];
    }
  }

  // ----- Where everything stands -----

  /** Bit k of the sum of two bytes is set when it is in just one of them. */
  lemma {:induction false} XorBit(a: nat, b: nat, k: nat)
    ensures Xor(a, b) / Pow2(k) % 2 == (a / Pow2(k) + b / Pow2(k)) % 2
  {
    hide Xor, Pow2;
    XorHalf(a, b);
    var x := Xor(a, b);
    assert x / 2 == Xor(a / 2, b / 2) && x % 2 == (a + b) % 2;
    if k == 0 {
      NoShift(a);
      NoShift(b);
      NoShift(x);
    } else {
      XorBit(a / 2, b / 2, k - 1);
      HalfThenShift(a, k);
      HalfThenShift(b, k);
      HalfThenShift(x, k);
    }
  }

  lemma NoShift(a: nat)
    ensures Pow2(0) == 1 && a / Pow2(0) == a
  {
  }

  /** What is authenticated, as section 2.8 of RFC 7539 has it: the associated data and the ciphertext, each with zeros
      up to a multiple of 16 bytes, and their lengths in 8 bytes each. */
  lemma MacDataLayout(ad: seq<Byte>, ct: seq<Byte>)
    requires |ad| < 0x1_0000_0000_0000_0000 && |ct| < 0x1_0000_0000_0000_0000
    ensures var m, a, c := MacData(ad, ct), (|ad| + 15) / 16 * 16, (|ct| + 15) / 16 * 16;
      |m| == a + c + 16 && m[..|ad|] == ad && m[a..a + |ct|] == ct &&
      (forall i :: |ad| <= i < a || a + |ct| <= i < a + c ==> m[i] == 0) &&
      LE(m[a + c..a + c + 8]) == |ad| && LE(m[a + c + 8..]) == |ct|
  {
    hide LE, ToLE;
    var a, c := (|ad| + 15) / 16 * 16, (|ct| + 15) / 16 * 16;
    PaddedLength(ad);
    PaddedLength(ct);
    var p, q, u, v := ad + Pad16(ad), ct + Pad16(ct), ToLE(|ad|, 8), ToLE(|ct|, 8);
    var m := MacData(ad, ct);
    assert m == p + q + (u + v);
    assert m[..|ad|] == ad && m[a..a + |ct|] == ct;
    assert m[a + c..a + c + 8] == u && m[a + c + 8..] == v;
    assert Pow256(8) == 0x1_0000_0000_0000_0000 by { EightBytes(); }
    LEOfToLE(|ad|, 8);
    LEOfToLE(|ct|, 8);
    forall i | |ad| <= i < a || a + |ct| <= i < a + c
      ensures m[i] == 0
    {
      assert m[i] == if i < a then Pad16(ad)[i - |ad|] else Pad16(ct)[i - a - |ct|];
    }
  }

  lemma EightBytes()
    ensures Pow256(8) == 0x1_0000_0000_0000_0000
  {
    assert Pow256(4) == 0x1_0000_0000;
  }

  lemma PaddedLength(b: seq<Byte>)
    ensures |b + Pad16(b)| == (|b| + 15) / 16 * 16 && forall i :: 0 <= i < |Pad16(b)| ==> Pad16(b)[i] == 0
  {
  }

  /** A sealed message: each byte of data summed with one of the key stream from its second block on, and the tag of
      associated data and ciphertext, lowest byte first, under a key that is the start of the first block. */
  lemma SealLayout(ks: Stream, key: seq<Byte>, nonce: seq<Byte>, data: seq<Byte>, ad: seq<Byte>)
    ensures var m, n := Seal(ks, key, nonce, data, ad), |data|;
      |m| == n + 16 && (forall i :: 0 <= i < n ==> m[i] == XorByte(data[i], ks(key, nonce, 64 + i))) &&
      var mk := seq(32, i requires 0 <= i < 32 => ks(key, nonce, i));
      LE(m[n..]) == Tag(Absorb(0, ClampedR(mk), MacData(ad, m[..n])), mk)
  {
    hide XorByte, Tag, Absorb, ClampedR, MacData, LE, ToLE;
    var m, ct := Seal(ks, key, nonce, data, ad), Crypt(ks, key, nonce, data, 64);
    assert m[..|data|] == ct && m[|data|..] == ToLE(TagOf(ks, key, nonce, ad, ct), 16);
    var mk := seq(32, i requires 0 <= i < 32 => ks(key, nonce, i));
    forall i | 0 <= i < 32
      ensures MacKey(ks, key, nonce)[i] == mk[i]
    {
      XorZeroByte(ks(key, nonce, i));
    }
    assert MacKey(ks, key, nonce) == mk;
    TagFits(Absorb(0, ClampedR(mk), MacData(ad, ct)), mk);
    LEOfToLE(TagOf(ks, key, nonce, ad, ct), 16);
  }

  lemma XorZeroByte(b: Byte)
    ensures XorByte(0, b) == b
  {
  }

  lemma TagFits(acc: nat, mk: seq<Byte>)
    requires |mk| == 32
    ensures Tag(acc, mk) < Pow256(16)
  {
    hide LE;
    EightBytes();
    assert Pow256(12) == 0x1_0000_0000_0000_0000_0000_0000;
  }

  /** What decrypting returns. */
  function Returned(plain: Option<seq<Byte>>): nat {
    if plain.None? then 0 else |plain.value|
  }

  /** The sealed empty message opens and any other message of 16 bytes does not: both return 0. */
  lemma ZeroForBoth(ks: Stream, key: seq<Byte>, nonce: seq<Byte>, ad: seq<Byte>, bad: seq<Byte>)
    requires |bad| == 16 && bad != Seal(ks, key, nonce, [], ad)
    ensures var good := Seal(ks, key, nonce, [], ad);
      |good| == 16 && Open(ks, key, nonce, good, ad) == Some([]) && Open(ks, key, nonce, bad, ad) == None &&
      Returned(Open(ks, key, nonce, good, ad)) == Returned(Open(ks, key, nonce, bad, ad)) == 0
  {
    hide Seal, Open;
    var good := Seal(ks, key, nonce, [], ad);
    OpenIffSealed(ks, key, nonce, [], ad, good);
    SealedLength(ks, key, nonce, [], ad);
    OpenIffSealed(ks, key, nonce, [], ad, bad);
    OpenedLength(ks, key, nonce, bad, ad);
  }

  lemma OpenedLength(ks: Stream, key: seq<Byte>, nonce: seq<Byte>, msg: seq<Byte>, ad: seq<Byte>)
    requires |msg| == 16
    ensures Open(ks, key, nonce, msg, ad) == None || Open(ks, key, nonce, msg, ad) == Some([])
  {
    hide TagOf, ToLE;
  }

  lemma SealedLength(ks: Stream, key: seq<Byte>, nonce: seq<Byte>, data: seq<Byte>, ad: seq<Byte>)
    ensures |Seal(ks, key, nonce, data, ad)| == |data| + 16
  {
  }

  // ----- The code -----

  /** Feeds data zero-padded to a multiple of 16 bytes. */
  method AbsorbPadded(h: array<Word>, mk: seq<Byte>, data: seq<Byte>)
    requires Carried(h[..]) && |mk| == 32
    modifies h
    ensures Carried(h[..])
    ensures LimbValue(h[..]) % P == Absorb(LimbValue(old(h[..])) % P, ClampedR(mk), data + Pad16(data))
  {
    hide Absorb, ClampedR, LimbValue;
    var whole := |data| / 16 * 16;
    ghost var acc, r := LimbValue(h[..]) % P, ClampedR(mk);
    Compress(h, mk, data[..whole], false);
    if |data| % 16 != 0 {
      var pad: seq<Byte> := data[whole..] + seq(16 - |data| % 16, _ => 0);
      ghost var mid := LimbValue(h[..]) % P;
      Compress(h, mk, pad, false);
      assert data + Pad16(data) == data[..whole] + pad;
      AbsorbInPieces(acc, r, data[..whole], pad);
      ModTwice(mid);
    } else {
      assert data + Pad16(data) == data[..whole];
    }
  }

  lemma ModTwice(x: nat)
    ensures (x % P) % P == x % P
  {
  }

  /** The tag over associated data, ciphertext and their lengths. */
  method ComputeTag(mk: seq<Byte>, ad: seq<Byte>, ct: seq<Byte>) returns (h: array<Word>)
    requires |mk| == 32
    ensures fresh(h) && h.Length == 5
    ensures TagWords(h[..]) == Tag(Absorb(0, ClampedR(mk), MacData(ad, ct)), mk)
  {
    hide Absorb, ClampedR, Tag, ToLE, TagWords;
    h := new Word[5](_ => 0);
    assert LimbValue(h[..]) % P == 0;
    ghost var r := ClampedR(mk);
    AbsorbPadded(h, mk, ad);
    AbsorbPadded(h, mk, ct);
    var lens := ToLE(|ad|, 8) + ToLE(|ct|, 8);
    Compress(h, mk, lens, true);
    AbsorbInPieces(0, r, ad + Pad16(ad), ct + Pad16(ct));
    AbsorbInPieces(0, r, ad + Pad16(ad) + (ct + Pad16(ct)), lens);
  }

  function WordByte(w: Word, j: nat): Byte
    requires j < 4
  {
    if j == 0 then w % 0x100
    else if j == 1 then w / 0x100 % 0x100
    else if j == 2 then w / 0x100 / 0x100 % 0x100
    else w / 0x100 / 0x100 / 0x100
  }

  /** The bytes of four words, in memory order. */
  function TagBytes(h: seq<Word>): (b: seq<Byte>)
    requires |h| == 5
    ensures |b| == 16
  {
    seq(16, i requires 0 <= i < 16 => WordByte(h[i / 4], i % 4))
  }

  lemma TagBytesValue(h: seq<Word>)
    requires |h| == 5
    ensures TagBytes(h) == ToLE(TagWords(h), 16)
  {
    hide LE, ToLE, Le32, TagBytes;
    var b := TagBytes(h);
    TagBytesWords(h);
    LE16(b);
    ToLEOfLE(b);
  }

  lemma BytesOfWord(w: Word)
    ensures FourBytes(WordByte(w, 0), WordByte(w, 1), WordByte(w, 2), WordByte(w, 3)) == w
  {
    var w1 := w / 0x100;
    var w2 := w1 / 0x100;
    assert w == 0x100 * w1 + WordByte(w, 0);
    assert w1 == 0x100 * w2 + WordByte(w, 1);
    assert w2 == 0x100 * WordByte(w, 3) + WordByte(w, 2);
  }

  /** Encrypts data and appends the tag; 0 when out is too short or data too long for the block counter.
      A null out asks for the length. */
  method Encrypt(ks: Stream, out: array?<Byte>, key: seq<Byte>, nonce: seq<Byte>, data: seq<Byte>, ad: seq<Byte>)
    returns (n: nat)
    modifies if out == null then {} else {out}
    ensures out == null ==> n == |data| + 16
    ensures out != null && (out.Length < |data| + 16 || |data| / 64 >= UINT32_MAX) ==> n == 0 && out[..] == old(out[..])
    ensures out != null && !(out.Length < |data| + 16 || |data| / 64 >= UINT32_MAX) ==>
              n == |data| + 16 && out[..n] == Seal(ks, key, nonce, data, ad) && out[n..] == old(out[n..])
  {
    if out == null { return |data| + 16; }
    if out.Length < |data| + 16 || |data| / 64 >= UINT32_MAX { return 0; }
    hide Absorb, ClampedR, Tag, XorByte, TagWords, TagBytes, ToLE, MacData, Seal, Crypt;
    var mk := MacKey(ks, key, nonce);
    ApplyStream(ks, out, key, nonce, data);
    ghost var ct := out[..|data|];
    var h := ComputeTag(mk, ad, out[..|data|]);
    ghost var tail := out[|data| + 16..];
    StoreTag(out, |data|, h);
    n := |data| + 16;
    TagBytesValue(h[..]);
    ThreeSlices(out[..], |data|, n);
    SealIs(ks, key, nonce, data, ad);
  }

  lemma ThreeSlices(s: seq<Byte>, i: nat, j: nat)
    requires i <= j <= |s|
    ensures s[..j] == s[..i] + s[i..j]
  {
  }

  lemma SealIs(ks: Stream, key: seq<Byte>, nonce: seq<Byte>, data: seq<Byte>, ad: seq<Byte>)
    ensures var mk, ct := MacKey(ks, key, nonce), Crypt(ks, key, nonce, data, 64);
      Seal(ks, key, nonce, data, ad) == ct + ToLE(Tag(Absorb(0, ClampedR(mk), MacData(ad, ct)), mk), 16)
  {
    hide Absorb, ClampedR, Tag, XorByte, ToLE, MacData;
  }

  /** Copies the first 16 bytes of h to out. */
  method StoreTag(out: array<Byte>, off: nat, h: array<Word>)
    requires off + 16 <= out.Length && h.Length == 5 && h as object != out
    modifies out
    ensures out[..off] == old(out[..off]) && out[off + 16..] == old(out[off + 16..])
    ensures out[off..off + 16] == TagBytes(h[..])
  {
    for j := 0 to 16
      invariant out[..off] == old(out[..off]) && out[off + 16..] == old(out[off + 16..])
      invariant forall k :: off <= k < off + j ==> out[k] == WordByte(h[(k - off) / 4], (k - off) % 4)
    {
      out[off + j] := WordByte(h[j / 4], j % 4);
    }
  }

  /** Xors data with the key stream from block 1 on into the front of out. */
  method ApplyStream(ks: Stream, out: array<Byte>, key: seq<Byte>, nonce: seq<Byte>, data: seq<Byte>)
    requires |data| <= out.Length
    modifies out
    ensures out[..|data|] == Crypt(ks, key, nonce, data, 64)
    ensures out[|data|..] == old(out[|data|..])
  {
    for i := 0 to |data|
      invariant forall k :: 0 <= k < i ==> out[k] == Crypt(ks, key, nonce, data, 64)[k]
      invariant out[|data|..] == old(out[|data|..])
    {
      out[i] := XorByte(data[i], ks(key, nonce, 64 + i));
    }
  }

  /** Decrypts after comparing tags word by word without branching; returns 0 on any mismatch. */
  method Decrypt(ks: Stream, out: array?<Byte>, key: seq<Byte>, nonce: seq<Byte>, data: seq<Byte>, ad: seq<Byte>)
    returns (n: nat)
    modifies if out == null then {} else {out}
    ensures out == null ==> n == if |data| < 16 then 0 else |data| - 16
    ensures out != null && (|data| < 16 || (|data| - 16) / 64 >= UINT32_MAX || out.Length + 16 < |data|) ==>
              n == 0 && out[..] == old(out[..])
    ensures out != null && !(|data| < 16 || (|data| - 16) / 64 >= UINT32_MAX || out.Length + 16 < |data|) ==>
              match Open(ks, key, nonce, data, ad)
              case None => n == 0 && out[..] == old(out[..])
              case Some(plain) => n == |data| - 16 && out[..n] == plain && out[n..] == old(out[n..])
  {
    if out == null { return if |data| < 16 then 0 else |data| - 16; }
    if |data| < 16 || (|data| - 16) / 64 >= UINT32_MAX || out.Length + 16 < |data| { return 0; }
    hide Absorb, ClampedR, Tag, XorByte, Xor, Or, LE, Le32, TagWords;
    var outLen := |data| - 16;
    var mk := MacKey(ks, key, nonce);
    var ct, mac := data[..outLen], data[outLen..];
    var h := ComputeTag(mk, ad, ct);
    var diff := Or(Or(Or(Xor(Le32(mac, 0), h[0]), Xor(Le32(mac, 4), h[1])), Xor(Le32(mac, 8), h[2])),
                   if Xor(Le32(mac, 12), h[3]) != 0 then 1 else 0);
    SameTag(mac, h[..], diff);
    TagBytesValue(h[..]);
    if diff != 0 { outLen := 0; }
    ApplyStream(ks, out, key, nonce, data[..outLen]);
    n := outLen;
    assert diff != 0 ==> out[0..] == out[..];
  }

  /** The branch-free comparison is zero exactly when the 16 bytes are those of the computed tag. */
  lemma SameTag(mac: seq<Byte>, h: seq<Word>, diff: nat)
    requires |mac| == 16 && |h| == 5
    requires diff == Or(Or(Or(Xor(Le32(mac, 0), h[0]), Xor(Le32(mac, 4), h[1])), Xor(Le32(mac, 8), h[2])),
                        if Xor(Le32(mac, 12), h[3]) != 0 then 1 else 0)
    ensures diff == 0 <==> mac == TagBytes(h)
  {
    hide Or, Xor, LE, Le32;
    var x0, x1 := Xor(Le32(mac, 0), h[0]), Xor(Le32(mac, 4), h[1]);
    var x2, x3 := Xor(Le32(mac, 8), h[2]), Xor(Le32(mac, 12), h[3]);
    OrZero(x0, x1);
    OrZero(Or(x0, x1), x2);
    OrZero(Or(Or(x0, x1), x2), if x3 != 0 then 1 else 0);
    XorZero(Le32(mac, 0), h[0]);
    XorZero(Le32(mac, 4), h[1]);
    XorZero(Le32(mac, 8), h[2]);
    XorZero(Le32(mac, 12), h[3]);
    TagBytesWords(h);
    LE16(mac);
    LE16(TagBytes(h));
    if diff == 0 {
      LEInjective(mac, TagBytes(h));
    }
  }

  lemma TagBytesWords(h: seq<Word>)
    requires |h| == 5
    ensures var b := TagBytes(h);
            Le32(b, 0) == h[0] && Le32(b, 4) == h[1] && Le32(b, 8) == h[2] && Le32(b, 12) == h[3]
  {
    BytesOfWord(h[0]);
    BytesOfWord(h[1]);
    BytesOfWord(h[2]);
    BytesOfWord(h[3]);
  }
}
