/** Merkle blocks: the partial-tree walks over flag bits and hashes, against the full tree and the BIP 37 encoding. */
module MerkleBlocks {
  import opened Words

  /** A 256-bit hash; 0 is the all-zero value the code treats as missing. */
  type Hash = nat

  /** Double SHA-256 of two hashes side by side. */
  type Combine = (Hash, Hash) -> Hash

  const SIZE_MAX: nat := 0xffff_ffff_ffff_ffff

  // ----- The depth of the tree -----

  /** The smallest k with n <= 2^k. */
  function CeilLog2(n: nat): (k: nat)
    ensures n <= Pow2(k) && (k > 0 ==> Pow2(k - 1) < n)
  {
    if n <= 1 then 0 else 1 + CeilLog2((n + 1) / 2)
  }

  lemma {:induction false} ClearLowBit(x: nat, k: nat)
    requires Pow2(k) <= x < Pow2(k + 1)
    ensures And(x, x - 1) == 0 <==> x == Pow2(k)
  {
    if k > 0 {
      AndHalf(x, x - 1);
      if x % 2 == 0 {
        ClearLowBit(x / 2, k - 1);
      } else {
        assert (x - 1) / 2 == x / 2;
        AndSelf(x / 2);
      }
    }
  }

  lemma {:induction false} AndSelf(x: nat)
    ensures And(x, x) == x
  {
    if x > 0 {
      AndHalf(x, x);
      AndSelf(x / 2);
    }
  }

  lemma CeilLog2Unique(n: nat, k: nat)
    requires n <= Pow2(k) && (k > 0 ==> Pow2(k - 1) < n)
    ensures CeilLog2(n) == k
  {
    var c := CeilLog2(n);
    if c < k {
      Pow2Monotone(c, k - 1);
    } else if k < c {
      Pow2Monotone(k, c - 1);
    }
  }

  /** y is x without its low r bits. */
  predicate Shifted(x: nat, y: nat, r: nat) {
    Pow2(r) * y <= x < Pow2(r) * (y + 1)
  }

  lemma ShiftStep(x: nat, y: nat, r: nat)
    requires Shifted(x, y, r)
    ensures Shifted(x, y / 2, r + 1) && (y > 0 ==> Pow2(r) <= x)
  {
    var p, h := Pow2(r), y / 2;
    DoubleProduct(p, h);
    DoubleProduct(p, h + 1);
    Products(p, h);
    assert y == 2 * h || y == 2 * h + 1;
    if y > 0 {
      AtLeastFactor(p, y);
    }
  }

  lemma Products(p: nat, h: nat)
    ensures p * (2 * h) == 2 * (p * h) && p * (2 * h + 1) == 2 * (p * h) + p && p * (2 * h + 1 + 1) == 2 * (p * (h + 1))
    ensures p * (h + 1) == p * h + p
  {
  }

  lemma ShiftedOut(x: nat, r: nat)
    requires Shifted(x, 0, r)
    ensures x < Pow2(r)
  {
  }

  /** _ceil_log2: the bit position of the top bit, plus one unless x is a power of two. */
  method CeilLog2ByShifts(x: nat) returns (r: nat)
    requires x < 0x8000_0000
    ensures r == CeilLog2(x)
  {
    hide Pow2, And, Shifted, CeilLog2;
    r := if x > 0 && And(x, x - 1) != 0 then 1 else 0;
    ghost var extra: nat, k: nat := r, 0;
    assert Shifted(x, x, 0) && Pow2(0) == 1 by { ShiftNothing(x); }
    ShiftStep(x, x, 0);
    var y: nat := x / 2;
    while y != 0
      invariant r == extra + k && Shifted(x, y, k + 1) && (if x == 0 then y == k == 0 else Pow2(k) <= x)
      decreases y
    {
      ShiftStep(x, y, k + 1);
      r, k := r + 1, k + 1;
      y := y / 2;
    }
    ShiftedOut(x, k + 1);
    CeilOfTopBit(x, k, r);
  }

  /** n right shifts of a signed integer. */
  function ShiftedRight(x: int, n: nat): int {
    if n == 0 then x else ShiftedRight(x, n - 1) / 2
  }

  /** The loop ends exactly for integers that are not negative: a negative one shifts to -1 and stays there. */
  lemma ShiftsEndIff(x: int)
    ensures (exists n :: ShiftedRight(x, n) == 0) <==> x >= 0
  {
    if x >= 0 {
      ShiftsAway(x, x);
    } else {
      forall n: nat
        ensures ShiftedRight(x, n) < 0
      {
        StaysNegative(x, n);
      }
    }
  }

  lemma {:induction false} ShiftsAway(x: nat, n: nat)
    requires n <= x
    ensures 0 <= ShiftedRight(x, n) <= x - n
  {
    if n > 0 {
      ShiftsAway(x, n - 1);
    }
  }

  lemma {:induction false} StaysNegative(x: int, n: nat)
    requires x < 0
    ensures ShiftedRight(x, n) < 0
  {
    if n > 0 {
      StaysNegative(x, n - 1);
    }
  }

  lemma ShiftNothing(x: nat)
    ensures Shifted(x, x, 0) && Pow2(0) == 1
  {
  }

  lemma CeilOfTopBit(x: nat, k: nat, r: nat)
    requires x < Pow2(k + 1)
    requires if x == 0 then r == 0 else Pow2(k) <= x && r == k + if And(x, x - 1) != 0 then 1 else 0
    ensures r == CeilLog2(x)
  {
    if x > 0 {
      ClearLowBit(x, k);
      if r == k && k > 0 {
        assert Pow2(k - 1) < Pow2(k);
      }
      CeilLog2Unique(x, r);
    }
  }

  // ----- The full tree -----

  /** Root of a tree of height k over its leaves from the left; a missing right branch repeats the left one. */
  function Root(h: Combine, leaves: seq<Hash>, k: nat): Hash
    requires 1 <= |leaves| <= Pow2(k)
    decreases k
  {
    if k == 0 then leaves[0]
    else
      var half := Pow2(k - 1);
      if |leaves| <= half then
        var l := Root(h, leaves, k - 1); h(l, l)
      else h(Root(h, leaves[..half], k - 1), Root(h, leaves[half..], k - 1))
  }

  /** The row above a row of hashes, its last hash repeated when their number is odd. */
  function RowAbove(h: Combine, row: seq<Hash>): (up: seq<Hash>)
    ensures |up| == (|row| + 1) / 2
  {
    if row == [] then []
    else if |row| == 1 then [h(row[0], row[0])]
    else [h(row[0], row[1])] + RowAbove(h, row[2..])
  }

  lemma {:induction false} RowAboveSplit(h: Combine, a: seq<Hash>, b: seq<Hash>)
    requires |a| % 2 == 0
    ensures RowAbove(h, a + b) == RowAbove(h, a) + RowAbove(h, b)
  {
    if a == [] {
      assert a + b == b;
    } else {
      assert (a + b)[2..] == a[2..] + b;
      RowAboveSplit(h, a[2..], b);
    }
  }

  lemma RowOfTwo(h: Combine, leaves: seq<Hash>)
    requires 1 <= |leaves| <= 2
    ensures Root(h, leaves, 1) == Root(h, RowAbove(h, leaves), 0)
  {
    assert Pow2(0) == 1;
    if |leaves| == 2 {
      assert RowAbove(h, leaves[2..]) == [];
      assert leaves[..1] == [leaves[0]] && leaves[1..] == [leaves[1]];
    }
  }

  lemma RootOfFew(h: Combine, leaves: seq<Hash>, k: nat)
    requires 1 <= |leaves| <= Pow2(k)
    ensures |leaves| <= Pow2(k + 1) && Root(h, leaves, k + 1) == h(Root(h, leaves, k), Root(h, leaves, k))
  {
  }

  lemma RootOfMany(h: Combine, leaves: seq<Hash>, k: nat)
    requires Pow2(k) < |leaves| <= Pow2(k + 1)
    ensures Root(h, leaves, k + 1) == h(Root(h, leaves[..Pow2(k)], k), Root(h, leaves[Pow2(k)..], k))
  {
  }

  /** The row above a row longer than half is the rows above its halves. */
  lemma RowOfHalves(h: Combine, leaves: seq<Hash>, p: nat)
    requires 2 * p < |leaves|
    ensures var up := RowAbove(h, leaves);
            && p < |up| && up[..p] == RowAbove(h, leaves[..2 * p]) && up[p..] == RowAbove(h, leaves[2 * p..])
  {
    hide RowAbove;
    RowLength(h, leaves);
    RowLength(h, leaves[..2 * p]);
    assert leaves == leaves[..2 * p] + leaves[2 * p..];
    RowAboveSplit(h, leaves[..2 * p], leaves[2 * p..]);
  }

  /** Pairing up rows until one hash is left gives the root. */
  lemma {:induction false} RootByRows(h: Combine, leaves: seq<Hash>, k: nat)
    requires 1 <= |leaves| <= Pow2(k + 1)
    ensures |RowAbove(h, leaves)| <= Pow2(k) && Root(h, leaves, k + 1) == Root(h, RowAbove(h, leaves), k)
  {
    hide Root, RowAbove;
    RowLength(h, leaves);
    if k == 0 {
      RowOfTwo(h, leaves);
    } else if |leaves| <= Pow2(k) {
      RootByRows(h, leaves, k - 1);
      RootOfFew(h, leaves, k);
      RootOfFew(h, RowAbove(h, leaves), k - 1);
    } else {
      RowOfHalves(h, leaves, Pow2(k - 1));
      RootByRows(h, leaves[..Pow2(k)], k - 1);
      RootByRows(h, leaves[Pow2(k)..], k - 1);
      RootOfMany(h, leaves, k);
      RootOfMany(h, RowAbove(h, leaves), k - 1);
    }
  }

  lemma RowLength(h: Combine, row: seq<Hash>)
    ensures |RowAbove(h, row)| == (|row| + 1) / 2
  {
  }

  // ----- The walks of the code -----

  datatype MerkleBlock = MerkleBlock(totalTx: nat, hashes: seq<Hash>, flags: seq<Byte>)

  /** Bit i % 8 of flag byte i / 8. */
  function FlagAt(flags: seq<Byte>, i: nat): bool
    requires i / 8 < |flags|
  {
    flags[i / 8] / Pow2(i % 8) % 2 == 1
  }

  datatype Walk = Walk(md: Hash, hashIdx: nat, flagIdx: nat, guard: bool)

  /** _BRMerkleBlockRootR; guard says whether the duplicate-branch defence fired inside. */
  function RootWalk(b: MerkleBlock, h: Combine, hashIdx: nat, flagIdx: nat, depth: nat): (w: Walk)
    ensures w.flagIdx >= flagIdx
    decreases 8 * |b.flags| - flagIdx
  {
    if flagIdx / 8 < |b.flags| && hashIdx < |b.hashes| then
      if FlagAt(b.flags, flagIdx) && depth != CeilLog2(b.totalTx) then
        var l := RootWalk(b, h, hashIdx, flagIdx + 1, depth + 1);
        var r := RootWalk(b, h, l.hashIdx, l.flagIdx, depth + 1);
        if l.md != 0 && l.md != r.md then
          Walk(h(l.md, if r.md == 0 then l.md else r.md), r.hashIdx, r.flagIdx, l.guard || r.guard)
        else Walk(0, SIZE_MAX, r.flagIdx, true)
      else Walk(b.hashes[hashIdx], hashIdx + 1, flagIdx + 1, false)
    else Walk(0, hashIdx, flagIdx, false)
  }

  /** One node of the walk. */
  lemma RootStep(b: MerkleBlock, h: Combine, hashIdx: nat, flagIdx: nat, depth: nat)
    ensures RootWalk(b, h, hashIdx, flagIdx, depth) ==
      if flagIdx / 8 < |b.flags| && hashIdx < |b.hashes| then
        if FlagAt(b.flags, flagIdx) && depth != CeilLog2(b.totalTx) then
          var l := RootWalk(b, h, hashIdx, flagIdx + 1, depth + 1);
          var r := RootWalk(b, h, l.hashIdx, l.flagIdx, depth + 1);
          if l.md != 0 && l.md != r.md then
            Walk(h(l.md, if r.md == 0 then l.md else r.md), r.hashIdx, r.flagIdx, l.guard || r.guard)
          else Walk(0, SIZE_MAX, r.flagIdx, true)
        else Walk(b.hashes[hashIdx], hashIdx + 1, flagIdx + 1, false)
      else Walk(0, hashIdx, flagIdx, false)
  {
    hide FlagAt, CeilLog2;
  }

  lemma RootFlag(b: MerkleBlock, h: Combine, hashIdx: nat, flagIdx: nat, depth: nat)
    ensures RootWalk(b, h, hashIdx, flagIdx, depth).flagIdx >= flagIdx
  {
  }

  datatype TxWalk = TxWalk(found: seq<Hash>, hashIdx: nat, flagIdx: nat)

  /** _BRMerkleBlockTxHashesR: the hashes of flagged leaves. */
  function HashesWalk(b: MerkleBlock, hashIdx: nat, flagIdx: nat, depth: nat): (w: TxWalk)
    ensures w.flagIdx >= flagIdx
    decreases 8 * |b.flags| - flagIdx
  {
    if flagIdx / 8 < |b.flags| && hashIdx < |b.hashes| then
      var flag := FlagAt(b.flags, flagIdx);
      if !flag || depth == CeilLog2(b.totalTx) then
        TxWalk(if flag then [b.hashes[hashIdx]] else [], hashIdx + 1, flagIdx + 1)
      else
        var l := HashesWalk(b, hashIdx, flagIdx + 1, depth + 1);
        var r := HashesWalk(b, l.hashIdx, l.flagIdx, depth + 1);
        TxWalk(l.found + r.found, r.hashIdx, r.flagIdx)
    else TxWalk([], hashIdx, flagIdx)
  }

  /** The recursive functions with their index pointers as fields. */
  class Walker {
    const b: MerkleBlock
    const h: Combine
    const txHashes: array?<Hash>
    const hashesCount: nat
    var idx: nat
    var hashIdx: nat
    var flagIdx: nat

    constructor (b: MerkleBlock, h: Combine, txHashes: array?<Hash>)
      ensures this.b == b && this.h == h && this.txHashes == txHashes && idx == hashIdx == flagIdx == 0
      ensures hashesCount == if txHashes == null then SIZE_MAX else txHashes.Length
    {
      this.b, this.h, this.txHashes := b, h, txHashes;
      hashesCount := if txHashes == null then SIZE_MAX else txHashes.Length;
      idx, hashIdx, flagIdx := 0, 0, 0;
    }

    method RootR(depth: nat) returns (md: Hash)
      requires |b.hashes| <= SIZE_MAX && b.totalTx < 0x8000_0000
      modifies this`hashIdx, this`flagIdx
      ensures var w := RootWalk(b, h, old(hashIdx), old(flagIdx), depth);
              md == w.md && hashIdx == w.hashIdx && flagIdx == w.flagIdx
      decreases 8 * |b.flags| - flagIdx
    {
      hide FlagAt, CeilLog2, Pow2, RootWalk;
      RootStep(b, h, hashIdx, flagIdx, depth);
      md := 0;
      if flagIdx / 8 < |b.flags| && hashIdx < |b.hashes| {
        var flag := FlagAt(b.flags, flagIdx);
        flagIdx := flagIdx + 1;
        var height := CeilLog2ByShifts(b.totalTx);
        if flag && depth != height {
          RootFlag(b, h, hashIdx, flagIdx, depth + 1);
          var left := RootR(depth + 1);
          var right := RootR(depth + 1);
          if left != 0 && left != right {
            if right == 0 { right := left; } // if right branch is missing, dup left branch
            md := h(left, right);
          } else {
            hashIdx := SIZE_MAX; // defend against (CVE-2012-2459)
          }
        } else {
          md := b.hashes[hashIdx];
          hashIdx := hashIdx + 1;
        }
      }
    }

    /** What TxHashesR has collected: the found hashes, as far as they fit. */
    ghost predicate Collected(found: seq<Hash>)
      reads this, txHashes
    {
      && idx == (if |found| <= hashesCount then |found| else hashesCount)
      && (txHashes != null ==> hashesCount == txHashes.Length && forall i :: 0 <= i < idx ==> txHashes[i] == found[i])
    }

    method TxHashesR(depth: nat, ghost before: seq<Hash>) returns (n: nat)
      requires b.totalTx < 0x8000_0000 && Collected(before)
      modifies this`idx, this`hashIdx, this`flagIdx, if txHashes == null then {} else {txHashes}
      ensures var w := HashesWalk(b, old(hashIdx), old(flagIdx), depth);
              hashIdx == w.hashIdx && flagIdx == w.flagIdx && Collected(before + w.found) && n == idx
      decreases 8 * |b.flags| - flagIdx, 0
    {
      hide FlagAt, CeilLog2, Pow2;
      assert before + [] == before;
      if flagIdx / 8 < |b.flags| && hashIdx < |b.hashes| {
        var flag := FlagAt(b.flags, flagIdx);
        flagIdx := flagIdx + 1;
        var height := CeilLog2ByShifts(b.totalTx);
        if !flag || depth == height {
          if flag && idx < hashesCount {
            if txHashes != null { txHashes[idx] := b.hashes[hashIdx]; } // leaf
            idx := idx + 1;
          }
          hashIdx := hashIdx + 1;
        } else {
          n := Branches(depth, before);
        }
      }
      n := idx;
    }

    /** The two recursive calls for a flagged inner node. */
    method Branches(depth: nat, ghost before: seq<Hash>) returns (n: nat)
      requires b.totalTx < 0x8000_0000 && Collected(before) && flagIdx <= 8 * |b.flags|
      modifies this`idx, this`hashIdx, this`flagIdx, if txHashes == null then {} else {txHashes}
      ensures var l := HashesWalk(b, old(hashIdx), old(flagIdx), depth + 1);
              var r := HashesWalk(b, l.hashIdx, l.flagIdx, depth + 1);
              hashIdx == r.hashIdx && flagIdx == r.flagIdx && Collected(before + (l.found + r.found)) && n == idx
      decreases 8 * |b.flags| - flagIdx, 1
    {
      hide HashesWalk;
      ghost var l := HashesWalk(b, hashIdx, flagIdx, depth + 1);
      n := TxHashesR(depth + 1, before); // left branch
      ghost var r := HashesWalk(b, hashIdx, flagIdx, depth + 1);
      n := TxHashesR(depth + 1, before + l.found); // right branch
      assert before + l.found + r.found == before + (l.found + r.found);
    }
  }

  /** BRMerkleBlockTxHashes: writes the found hashes, in order, as far as they fit, or only counts them. */
  method TxHashes(b: MerkleBlock, h: Combine, txHashes: array?<Hash>) returns (n: nat)
    requires b.totalTx < 0x8000_0000 && |b.hashes| <= SIZE_MAX
    modifies if txHashes == null then {} else {txHashes}
    ensures var found := HashesWalk(b, 0, 0, 0).found;
      if txHashes == null then n == |found|
      else n == (if |found| <= txHashes.Length then |found| else txHashes.Length) && txHashes[..n] == found[..n]
  {
    hide HashesWalk;
    var walker := new Walker(b, h, txHashes);
    FoundAtMost(b, 0, 0, 0);
    n := walker.TxHashesR(0, []);
    ghost var found := HashesWalk(b, 0, 0, 0).found;
    assert [] + found == found;
  }

  /** No more hashes are found than are left. */
  lemma {:induction false} FoundAtMost(b: MerkleBlock, hashIdx: nat, flagIdx: nat, depth: nat)
    ensures var w := HashesWalk(b, hashIdx, flagIdx, depth);
      w.hashIdx >= hashIdx && |w.found| <= w.hashIdx - hashIdx && (hashIdx <= |b.hashes| ==> w.hashIdx <= |b.hashes|)
    decreases 8 * |b.flags| - flagIdx
  {
    hide FlagAt, CeilLog2;
    if flagIdx / 8 < |b.flags| && hashIdx < |b.hashes| && FlagAt(b.flags, flagIdx) && depth != CeilLog2(b.totalTx) {
      var l := HashesWalk(b, hashIdx, flagIdx + 1, depth + 1);
      FoundAtMost(b, hashIdx, flagIdx + 1, depth + 1);
      FoundAtMost(b, l.hashIdx, l.flagIdx, depth + 1);
    }
  }

  // ----- The BIP 37 encoding -----

  datatype Encoding = Encoding(hashes: seq<Hash>, bits: seq<bool>)

  predicate AnyMatch(matches: seq<bool>) {
    exists i :: 0 <= i < |matches| && matches[i]
  }

  /** Depth-first, a bit for each visited node saying whether it has a matched leaf below it;
      a hash for each node that is a leaf or has none. */
  function Encode(h: Combine, leaves: seq<Hash>, matches: seq<bool>, k: nat): Encoding
    requires |matches| == |leaves| && 1 <= |leaves| <= Pow2(k)
    decreases k
  {
    if k == 0 || !AnyMatch(matches) then Encoding([Root(h, leaves, k)], [AnyMatch(matches)])
    else
      var half := Pow2(k - 1);
      if |leaves| <= half then
        var l := Encode(h, leaves, matches, k - 1);
        Encoding(l.hashes, [true] + l.bits)
      else
        var l := Encode(h, leaves[..half], matches[..half], k - 1);
        var r := Encode(h, leaves[half..], matches[half..], k - 1);
        Encoding(l.hashes + r.hashes, [true] + l.bits + r.bits)
  }

  /** The matched leaves, in order. */
  function Matched(leaves: seq<Hash>, matches: seq<bool>): seq<Hash>
    requires |matches| == |leaves|
  {
    if leaves == [] then [] else (if matches[0] then [leaves[0]] else []) + Matched(leaves[1..], matches[1..])
  }

  lemma {:induction false} MatchedSplit(leaves: seq<Hash>, matches: seq<bool>, i: nat)
    requires |matches| == |leaves| && i <= |leaves|
    ensures Matched(leaves, matches) == Matched(leaves[..i], matches[..i]) + Matched(leaves[i..], matches[i..])
  {
    if i == 0 {
      assert leaves[0..] == leaves && matches[0..] == matches;
    } else {
      assert leaves[..i][1..] == leaves[1..][..i - 1] && matches[..i][1..] == matches[1..][..i - 1];
      assert leaves[i..] == leaves[1..][i - 1..] && matches[i..] == matches[1..][i - 1..];
      MatchedSplit(leaves[1..], matches[1..], i - 1);
      assert leaves[..i][0] == leaves[0] && matches[..i][0] == matches[0];
    }
  }

  lemma {:induction false} NoneMatched(leaves: seq<Hash>, matches: seq<bool>)
    requires |matches| == |leaves| && !AnyMatch(matches)
    ensures Matched(leaves, matches) == []
  {
    if leaves != [] {
      assert !AnyMatch(matches[1..]);
      NoneMatched(leaves[1..], matches[1..]);
    }
  }

  /** Eight bits to a byte, the first bit lowest, zeros at the end. */
  function Pack(bits: seq<bool>): (bytes: seq<Byte>)
    ensures |bytes| == (|bits| + 7) / 8
  {
    if bits == [] then []
    else
      var n := if |bits| < 8 then |bits| else 8;
      PackByteBelow(bits[..n]);
      [PackByte(bits[..n])] + Pack(bits[n..])
  }

  function PackByte(bits: seq<bool>): nat {
    if bits == [] then 0 else (if bits[0] then 1 else 0) + 2 * PackByte(bits[1..])
  }

  lemma {:induction false} PackByteBelow(bits: seq<bool>)
    requires |bits| <= 8
    ensures PackByte(bits) < Pow2(|bits|) <= 0x100
  {
    if bits != [] {
      PackByteBelow(bits[1..]);
    }
    Pow2Monotone(|bits|, 8);
    Pow2Values();
  }

  lemma {:induction false} PackByteBit(bits: seq<bool>, i: nat)
    requires i < |bits|
    ensures PackByte(bits) / Pow2(i) % 2 == (if bits[i] then 1 else 0)
  {
    if i > 0 {
      PackByteBit(bits[1..], i - 1);
      var x := PackByte(bits);
      assert x / 2 == PackByte(bits[1..]);
      HalfThenShift(x, i);
    }
  }

  /** Every packed bit is read back. */
  lemma {:induction false} PackedFlag(bits: seq<bool>, i: nat)
    requires i < |bits|
    ensures i / 8 < |Pack(bits)| && FlagAt(Pack(bits), i) == bits[i]
  {
    hide Pack, PackByte, Pow2;
    var n := if |bits| < 8 then |bits| else 8;
    PackStep(bits, n);
    if i < 8 {
      PackByteBit(bits[..n], i);
      FlagInFirst(Pack(bits), i);
    } else {
      PackedFlag(bits[n..], i - 8);
      FlagInRest(Pack(bits), i);
    }
  }

  lemma PackStep(bits: seq<bool>, n: nat)
    requires bits != [] && n == if |bits| < 8 then |bits| else 8
    ensures |Pack(bits)| >= 1 && Pack(bits)[0] == PackByte(bits[..n]) && Pack(bits)[1..] == Pack(bits[n..])
  {
  }

  lemma FlagInFirst(flags: seq<Byte>, i: nat)
    requires |flags| >= 1 && i < 8
    ensures FlagAt(flags, i) == (flags[0] / Pow2(i) % 2 == 1)
  {
    assert i / 8 == 0 && i % 8 == i;
  }

  lemma FlagInRest(flags: seq<Byte>, i: nat)
    requires i >= 8 && |flags| >= 1 && (i - 8) / 8 < |flags[1..]|
    ensures i / 8 < |flags| && FlagAt(flags, i) == FlagAt(flags[1..], i - 8)
  {
    hide Pow2;
    assert i / 8 == (i - 8) / 8 + 1 && i % 8 == (i - 8) % 8;
  }

  // ----- Walking an encoding -----

  /** No node of the tree is zero, and two real siblings are never equal. */
  ghost predicate Healthy(h: Combine, leaves: seq<Hash>, k: nat)
    requires 1 <= |leaves| <= Pow2(k)
    decreases k
  {
    && Root(h, leaves, k) != 0
    && (k > 0 ==>
          var half := Pow2(k - 1);
          if |leaves| <= half then Healthy(h, leaves, k - 1)
          else
            && Root(h, leaves[..half], k - 1) != Root(h, leaves[half..], k - 1)
            && Healthy(h, leaves[..half], k - 1) && Healthy(h, leaves[half..], k - 1))
  }

  /** b holds e from the given indices on. */
  ghost predicate Holds(b: MerkleBlock, e: Encoding, hashIdx: nat, flagIdx: nat) {
    && hashIdx + |e.hashes| <= |b.hashes| && b.hashes[hashIdx..hashIdx + |e.hashes|] == e.hashes
    && flagIdx + |e.bits| <= 8 * |b.flags|
    && forall t | 0 <= t < |e.bits| :: FlagAt(b.flags, flagIdx + t) == e.bits[t]
  }

  /** A block that holds an encoding holds its parts. */
  lemma HoldsPart(b: MerkleBlock, e: Encoding, part: Encoding, hashIdx: nat, flagIdx: nat, i: nat, j: nat)
    requires Holds(b, e, hashIdx, flagIdx)
    requires i + |part.hashes| <= |e.hashes| && e.hashes[i..i + |part.hashes|] == part.hashes
    requires j + |part.bits| <= |e.bits| && e.bits[j..j + |part.bits|] == part.bits
    ensures Holds(b, part, hashIdx + i, flagIdx + j)
  {
    hide FlagAt;
    assert b.hashes[hashIdx + i..hashIdx + i + |part.hashes|]
        == b.hashes[hashIdx..hashIdx + |e.hashes|][i..i + |part.hashes|];
    forall t | 0 <= t < |part.bits|
      ensures FlagAt(b.flags, flagIdx + j + t) == part.bits[t]
    {
      assert FlagAt(b.flags, flagIdx + (j + t)) == e.bits[j + t];
    }
  }

  lemma {:induction false} EncodingNonempty(h: Combine, leaves: seq<Hash>, matches: seq<bool>, k: nat)
    requires |matches| == |leaves| && 1 <= |leaves| <= Pow2(k)
    ensures |Encode(h, leaves, matches, k).hashes| > 0 && |Encode(h, leaves, matches, k).bits| > 0
    ensures Encode(h, leaves, matches, k).bits[0] == AnyMatch(matches)
    decreases k
  {
    hide AnyMatch, Root;
    if k > 0 && AnyMatch(matches) {
      var half := Pow2(k - 1);
      if |leaves| <= half {
        EncodingNonempty(h, leaves, matches, k - 1);
      } else {
        EncodingNonempty(h, leaves[..half], matches[..half], k - 1);
      }
    }
  }

  /** Both walks over a stored encoding consume exactly the encoding; a segment that is not full must come last. */
  lemma {:induction false} WalkEncoding(b: MerkleBlock, h: Combine, leaves: seq<Hash>, matches: seq<bool>, k: nat,
                                        hashIdx: nat, flagIdx: nat, depth: nat)
    requires depth + k == CeilLog2(b.totalTx)
    requires |matches| == |leaves| && 1 <= |leaves| <= Pow2(k) && Healthy(h, leaves, k)
    requires var e := Encode(h, leaves, matches, k);
             Holds(b, e, hashIdx, flagIdx) && (|leaves| < Pow2(k) ==> hashIdx + |e.hashes| == |b.hashes|)
    ensures var e := Encode(h, leaves, matches, k);
            && RootWalk(b, h, hashIdx, flagIdx, depth)
               == Walk(Root(h, leaves, k), hashIdx + |e.hashes|, flagIdx + |e.bits|, false)
            && HashesWalk(b, hashIdx, flagIdx, depth)
               == TxWalk(Matched(leaves, matches), hashIdx + |e.hashes|, flagIdx + |e.bits|)
    decreases k
  {
    hide FlagAt, CeilLog2;
    var e := Encode(h, leaves, matches, k);
    EncodingNonempty(h, leaves, matches, k);
    assert FlagAt(b.flags, flagIdx + 0) == e.bits[0];
    assert flagIdx / 8 < |b.flags|;
    if k == 0 || !AnyMatch(matches) {
      WalkLeaf(b, h, leaves, matches, k, hashIdx, flagIdx, depth);
    } else if |leaves| <= Pow2(k - 1) {
      WalkOnlyChild(b, h, leaves, matches, k, hashIdx, flagIdx, depth);
    } else {
      WalkTwoChildren(b, h, leaves, matches, k, hashIdx, flagIdx, depth);
    }
  }

  /** A node whose hash is stored. */
  lemma WalkLeaf(b: MerkleBlock, h: Combine, leaves: seq<Hash>, matches: seq<bool>, k: nat,
                 hashIdx: nat, flagIdx: nat, depth: nat)
    requires depth + k == CeilLog2(b.totalTx) && (k == 0 || !AnyMatch(matches))
    requires |matches| == |leaves| && 1 <= |leaves| <= Pow2(k)
    requires flagIdx / 8 < |b.flags| && hashIdx < |b.hashes| && FlagAt(b.flags, flagIdx) == AnyMatch(matches)
    requires b.hashes[hashIdx] == Root(h, leaves, k)
    ensures RootWalk(b, h, hashIdx, flagIdx, depth) == Walk(Root(h, leaves, k), hashIdx + 1, flagIdx + 1, false)
    ensures HashesWalk(b, hashIdx, flagIdx, depth) == TxWalk(Matched(leaves, matches), hashIdx + 1, flagIdx + 1)
  {
    hide FlagAt, CeilLog2;
    if !AnyMatch(matches) {
      NoneMatched(leaves, matches);
    } else {
      assert |leaves| == 1 && matches[0];
      assert Matched(leaves[1..], matches[1..]) == [];
    }
  }

  /** Both walks at a flagged inner node. */
  lemma InnerNode(b: MerkleBlock, h: Combine, hashIdx: nat, flagIdx: nat, depth: nat, l: Walk, r: Walk, tl: TxWalk,
                  tr: TxWalk)
    requires flagIdx / 8 < |b.flags| && hashIdx < |b.hashes| && FlagAt(b.flags, flagIdx) && depth != CeilLog2(b.totalTx)
    requires l == RootWalk(b, h, hashIdx, flagIdx + 1, depth + 1)
    requires r == RootWalk(b, h, l.hashIdx, l.flagIdx, depth + 1)
    requires tl == HashesWalk(b, hashIdx, flagIdx + 1, depth + 1)
    requires tr == HashesWalk(b, tl.hashIdx, tl.flagIdx, depth + 1)
    requires l.md != 0 && l.md != r.md
    ensures RootWalk(b, h, hashIdx, flagIdx, depth)
         == Walk(h(l.md, if r.md == 0 then l.md else r.md), r.hashIdx, r.flagIdx, l.guard || r.guard)
    ensures HashesWalk(b, hashIdx, flagIdx, depth) == TxWalk(tl.found + tr.found, tr.hashIdx, tr.flagIdx)
  {
    hide FlagAt, CeilLog2;
  }

  /** Both walks after the last hash. */
  lemma UsedUp(b: MerkleBlock, h: Combine, hashIdx: nat, flagIdx: nat, depth: nat)
    requires hashIdx >= |b.hashes|
    ensures RootWalk(b, h, hashIdx, flagIdx, depth) == Walk(0, hashIdx, flagIdx, false)
    ensures HashesWalk(b, hashIdx, flagIdx, depth) == TxWalk([], hashIdx, flagIdx)
  {
  }

  lemma EncodeOnlyChild(h: Combine, leaves: seq<Hash>, matches: seq<bool>, k: nat)
    requires |matches| == |leaves| && 1 <= |leaves| <= Pow2(k) && k > 0 && AnyMatch(matches) && |leaves| <= Pow2(k - 1)
    ensures var l := Encode(h, leaves, matches, k - 1);
            Encode(h, leaves, matches, k) == Encoding(l.hashes, [true] + l.bits)
    ensures var l := Root(h, leaves, k - 1); Root(h, leaves, k) == h(l, l)
    ensures Healthy(h, leaves, k) ==> Healthy(h, leaves, k - 1) && Root(h, leaves, k - 1) != 0
  {
  }

  lemma EncodeTwoChildren(h: Combine, leaves: seq<Hash>, matches: seq<bool>, k: nat)
    requires |matches| == |leaves| && 1 <= |leaves| <= Pow2(k) && k > 0 && AnyMatch(matches) && |leaves| > Pow2(k - 1)
    ensures var half := Pow2(k - 1);
            var l := Encode(h, leaves[..half], matches[..half], k - 1);
            var r := Encode(h, leaves[half..], matches[half..], k - 1);
            Encode(h, leaves, matches, k) == Encoding(l.hashes + r.hashes, [true] + l.bits + r.bits)
    ensures var half := Pow2(k - 1);
            var l, r := Root(h, leaves[..half], k - 1), Root(h, leaves[half..], k - 1);
            && Root(h, leaves, k) == h(l, r)
            && (Healthy(h, leaves, k) ==>
                  Healthy(h, leaves[..half], k - 1) && Healthy(h, leaves[half..], k - 1) && l != 0 && r != 0 && l != r)
  {
  }

  /** A node without a right branch: the recursion into it finds the hashes used up. */
  lemma WalkOnlyChild(b: MerkleBlock, h: Combine, leaves: seq<Hash>, matches: seq<bool>, k: nat,
                      hashIdx: nat, flagIdx: nat, depth: nat)
    requires k > 0 && depth + k == CeilLog2(b.totalTx) && AnyMatch(matches)
    requires |matches| == |leaves| && 1 <= |leaves| <= Pow2(k) && |leaves| <= Pow2(k - 1) && Healthy(h, leaves, k)
    requires flagIdx / 8 < |b.flags| && FlagAt(b.flags, flagIdx)
    requires var e := Encode(h, leaves, matches, k);
             Holds(b, e, hashIdx, flagIdx) && hashIdx + |e.hashes| == |b.hashes| && |e.hashes| > 0
    ensures var e := Encode(h, leaves, matches, k);
            && RootWalk(b, h, hashIdx, flagIdx, depth)
               == Walk(Root(h, leaves, k), hashIdx + |e.hashes|, flagIdx + |e.bits|, false)
            && HashesWalk(b, hashIdx, flagIdx, depth)
               == TxWalk(Matched(leaves, matches), hashIdx + |e.hashes|, flagIdx + |e.bits|)
    decreases k, 0
  {
    hide FlagAt, CeilLog2, Holds, AnyMatch, RootWalk, HashesWalk, Encode, Root, Healthy, Matched, Pow2;
    var e, l := Encode(h, leaves, matches, k), Encode(h, leaves, matches, k - 1);
    EncodeOnlyChild(h, leaves, matches, k);
    HoldsPart(b, e, l, hashIdx, flagIdx, 0, 1);
    WalkEncoding(b, h, leaves, matches, k - 1, hashIdx, flagIdx + 1, depth + 1);
    UsedUp(b, h, hashIdx + |e.hashes|, flagIdx + |e.bits|, depth + 1);
    InnerNode(b, h, hashIdx, flagIdx, depth,
              RootWalk(b, h, hashIdx, flagIdx + 1, depth + 1),
              RootWalk(b, h, hashIdx + |e.hashes|, flagIdx + |e.bits|, depth + 1),
              HashesWalk(b, hashIdx, flagIdx + 1, depth + 1),
              HashesWalk(b, hashIdx + |e.hashes|, flagIdx + |e.bits|, depth + 1));
    assert Matched(leaves, matches) + [] == Matched(leaves, matches);
  }

  lemma WalkTwoChildren(b: MerkleBlock, h: Combine, leaves: seq<Hash>, matches: seq<bool>, k: nat,
                        hashIdx: nat, flagIdx: nat, depth: nat)
    requires k > 0 && depth + k == CeilLog2(b.totalTx) && AnyMatch(matches)
    requires |matches| == |leaves| && Pow2(k - 1) < |leaves| <= Pow2(k) && Healthy(h, leaves, k)
    requires flagIdx / 8 < |b.flags| && FlagAt(b.flags, flagIdx)
    requires var e := Encode(h, leaves, matches, k);
             && Holds(b, e, hashIdx, flagIdx) && |e.hashes| > 0 && hashIdx + |e.hashes| <= |b.hashes|
             && (|leaves| < Pow2(k) ==> hashIdx + |e.hashes| == |b.hashes|)
    ensures var e := Encode(h, leaves, matches, k);
            && RootWalk(b, h, hashIdx, flagIdx, depth)
               == Walk(Root(h, leaves, k), hashIdx + |e.hashes|, flagIdx + |e.bits|, false)
            && HashesWalk(b, hashIdx, flagIdx, depth)
               == TxWalk(Matched(leaves, matches), hashIdx + |e.hashes|, flagIdx + |e.bits|)
    decreases k, 0
  {
    hide FlagAt, CeilLog2, Holds, AnyMatch, RootWalk, HashesWalk, Encode, Root, Healthy, Matched;
    var half := Pow2(k - 1);
    var e := Encode(h, leaves, matches, k);
    var l, r := Encode(h, leaves[..half], matches[..half], k - 1), Encode(h, leaves[half..], matches[half..], k - 1);
    EncodeTwoChildren(h, leaves, matches, k);
    HoldsPart(b, e, l, hashIdx, flagIdx, 0, 1);
    HoldsPart(b, e, r, hashIdx, flagIdx, |l.hashes|, 1 + |l.bits|);
    WalkEncoding(b, h, leaves[..half], matches[..half], k - 1, hashIdx, flagIdx + 1, depth + 1);
    var hi, fi := hashIdx + |l.hashes|, flagIdx + 1 + |l.bits|;
    WalkEncoding(b, h, leaves[half..], matches[half..], k - 1, hi, fi, depth + 1);
    InnerNode(b, h, hashIdx, flagIdx, depth,
              RootWalk(b, h, hashIdx, flagIdx + 1, depth + 1), RootWalk(b, h, hi, fi, depth + 1),
              HashesWalk(b, hashIdx, flagIdx + 1, depth + 1), HashesWalk(b, hi, fi, depth + 1));
    MatchedSplit(leaves, matches, half);
  }

  /** The merkle block a full node builds for a set of matched transactions. */
  function BuildBlock(h: Combine, leaves: seq<Hash>, matches: seq<bool>): MerkleBlock
    requires |matches| == |leaves| && |leaves| >= 1
  {
    var e := Encode(h, leaves, matches, CeilLog2(|leaves|));
    MerkleBlock(|leaves|, e.hashes, Pack(e.bits))
  }

  /** Completeness: walking the encoding gives the root of the full tree and exactly the matched hashes in order. */
  lemma BuiltBlockWalks(h: Combine, leaves: seq<Hash>, matches: seq<bool>)
    requires |matches| == |leaves| && |leaves| >= 1 && Healthy(h, leaves, CeilLog2(|leaves|))
    ensures var b := BuildBlock(h, leaves, matches);
            && RootWalk(b, h, 0, 0, 0).md == Root(h, leaves, CeilLog2(|leaves|))
            && RootWalk(b, h, 0, 0, 0).hashIdx == |b.hashes| && !RootWalk(b, h, 0, 0, 0).guard
            && HashesWalk(b, 0, 0, 0).found == Matched(leaves, matches)
  {
    hide RootWalk, HashesWalk, FlagAt;
    var b, k := BuildBlock(h, leaves, matches), CeilLog2(|leaves|);
    var e := Encode(h, leaves, matches, k);
    forall t | 0 <= t < |e.bits|
      ensures t / 8 < |b.flags| && FlagAt(b.flags, 0 + t) == e.bits[t]
    {
      PackedFlag(e.bits, t);
    }
    WalkEncoding(b, h, leaves, matches, k, 0, 0, 0);
  }

  // ----- What a matching root proves -----

  /** No collisions, and zero is never a hash. */
  ghost predicate Ideal(h: Combine) {
    && (forall a, b, c, d :: h(a, b) == h(c, d) ==> a == c && b == d)
    && (forall a, b :: h(a, b) != 0)
  }

  /** While the guard does not fire the two walks visit the same nodes; below a zero result only zeros are found. */
  lemma {:induction false} WalksAgree(b: MerkleBlock, h: Combine, hashIdx: nat, flagIdx: nat, depth: nat)
    requires Ideal(h) && !RootWalk(b, h, hashIdx, flagIdx, depth).guard
    ensures var w, t := RootWalk(b, h, hashIdx, flagIdx, depth), HashesWalk(b, hashIdx, flagIdx, depth);
            && t.hashIdx == w.hashIdx && t.flagIdx == w.flagIdx
            && (w.md == 0 ==> forall x :: x in t.found ==> x == 0)
    decreases 8 * |b.flags| - flagIdx
  {
    hide FlagAt, CeilLog2, RootWalk, HashesWalk, Ideal;
    if flagIdx / 8 < |b.flags| && hashIdx < |b.hashes| && FlagAt(b.flags, flagIdx) && depth != CeilLog2(b.totalTx) {
      var l := RootWalk(b, h, hashIdx, flagIdx + 1, depth + 1);
      var r := RootWalk(b, h, l.hashIdx, l.flagIdx, depth + 1);
      UnguardedNode(b, h, hashIdx, flagIdx, depth, l, r);
      RootFlag(b, h, hashIdx, flagIdx + 1, depth + 1);
      WalksAgree(b, h, hashIdx, flagIdx + 1, depth + 1);
      WalksAgree(b, h, l.hashIdx, l.flagIdx, depth + 1);
      InnerNode(b, h, hashIdx, flagIdx, depth, l, r,
                HashesWalk(b, hashIdx, flagIdx + 1, depth + 1), HashesWalk(b, l.hashIdx, l.flagIdx, depth + 1));
      HashNotZero(h, l.md, if r.md == 0 then l.md else r.md);
    } else {
      LeafNode(b, h, hashIdx, flagIdx, depth);
      OuterNode(b, h, hashIdx, flagIdx, depth);
    }
  }

  /** Both walks leave a node that is not an inner node with the same indices. */
  lemma OuterNode(b: MerkleBlock, h: Combine, hashIdx: nat, flagIdx: nat, depth: nat)
    requires !(flagIdx / 8 < |b.flags| && hashIdx < |b.hashes| && FlagAt(b.flags, flagIdx)
               && depth != CeilLog2(b.totalTx))
    ensures var w, t := RootWalk(b, h, hashIdx, flagIdx, depth), HashesWalk(b, hashIdx, flagIdx, depth);
            t.hashIdx == w.hashIdx && t.flagIdx == w.flagIdx
  {
    hide FlagAt, CeilLog2;
  }

  lemma Injective(h: Combine, a: Hash, b: Hash, c: Hash, d: Hash)
    requires Ideal(h) && h(a, b) == h(c, d)
    ensures a == c && b == d
  {
  }

  /** The two branches of a flagged inner node where the guard does not fire. */
  lemma UnguardedNode(b: MerkleBlock, h: Combine, hashIdx: nat, flagIdx: nat, depth: nat, l: Walk, r: Walk)
    requires flagIdx / 8 < |b.flags| && hashIdx < |b.hashes| && FlagAt(b.flags, flagIdx) && depth != CeilLog2(b.totalTx)
    requires l == RootWalk(b, h, hashIdx, flagIdx + 1, depth + 1)
    requires r == RootWalk(b, h, l.hashIdx, l.flagIdx, depth + 1)
    requires !RootWalk(b, h, hashIdx, flagIdx, depth).guard
    ensures !l.guard && !r.guard && l.md != 0 && l.md != r.md
  {
    hide FlagAt, CeilLog2;
  }

  /** The leaves below the left branch of a tree of height k, and those below the right one,
      which are the same where there is none. */
  function LeftLeaves(leaves: seq<Hash>, k: nat): (left: seq<Hash>)
    requires 1 <= |leaves| <= Pow2(k) && k > 0
    ensures 1 <= |left| <= Pow2(k - 1)
  {
    if |leaves| <= Pow2(k - 1) then leaves else leaves[..Pow2(k - 1)]
  }

  function RightLeaves(leaves: seq<Hash>, k: nat): (right: seq<Hash>)
    requires 1 <= |leaves| <= Pow2(k) && k > 0
    ensures 1 <= |right| <= Pow2(k - 1)
  {
    if |leaves| <= Pow2(k - 1) then leaves else leaves[Pow2(k - 1)..]
  }

  lemma RootCases(h: Combine, leaves: seq<Hash>, k: nat)
    requires 1 <= |leaves| <= Pow2(k) && k > 0
    ensures Root(h, leaves, k) == h(Root(h, LeftLeaves(leaves, k), k - 1), Root(h, RightLeaves(leaves, k), k - 1))
  {
  }

  /** A visited node that is not an inner node yields at most its own hash. */
  lemma LeafNode(b: MerkleBlock, h: Combine, hashIdx: nat, flagIdx: nat, depth: nat)
    requires !(flagIdx / 8 < |b.flags| && hashIdx < |b.hashes| && FlagAt(b.flags, flagIdx)
               && depth != CeilLog2(b.totalTx))
    ensures forall x :: x in HashesWalk(b, hashIdx, flagIdx, depth).found ==>
              x == RootWalk(b, h, hashIdx, flagIdx, depth).md && depth == CeilLog2(b.totalTx)
  {
    hide FlagAt, CeilLog2;
  }

  /** An inner node that has the root of a tree: its branches have the roots of that tree's branches,
      and all that is found lies below them. */
  lemma Descend(b: MerkleBlock, h: Combine, leaves: seq<Hash>, k: nat, hashIdx: nat, flagIdx: nat, depth: nat)
    requires Ideal(h) && 1 <= |leaves| <= Pow2(k) && k > 0
    requires flagIdx / 8 < |b.flags| && hashIdx < |b.hashes| && FlagAt(b.flags, flagIdx) && depth != CeilLog2(b.totalTx)
    requires var w := RootWalk(b, h, hashIdx, flagIdx, depth); !w.guard && w.md == Root(h, leaves, k)
    ensures var l := RootWalk(b, h, hashIdx, flagIdx + 1, depth + 1);
            var r := RootWalk(b, h, l.hashIdx, l.flagIdx, depth + 1);
            var fl := HashesWalk(b, hashIdx, flagIdx + 1, depth + 1).found;
            var fr := HashesWalk(b, l.hashIdx, l.flagIdx, depth + 1).found;
            && !l.guard && l.md == Root(h, LeftLeaves(leaves, k), k - 1)
            && !r.guard && (if r.md == 0 then forall x :: x in fr ==> x == 0
                            else r.md == Root(h, RightLeaves(leaves, k), k - 1))
            && HashesWalk(b, hashIdx, flagIdx, depth).found == fl + fr
  {
    hide FlagAt, CeilLog2, RootWalk, HashesWalk, Root, Ideal, LeftLeaves, RightLeaves;
    var l := RootWalk(b, h, hashIdx, flagIdx + 1, depth + 1);
    var r := RootWalk(b, h, l.hashIdx, l.flagIdx, depth + 1);
    UnguardedNode(b, h, hashIdx, flagIdx, depth, l, r);
    WalksAgree(b, h, hashIdx, flagIdx + 1, depth + 1);
    WalksAgree(b, h, l.hashIdx, l.flagIdx, depth + 1);
    InnerNode(b, h, hashIdx, flagIdx, depth, l, r,
              HashesWalk(b, hashIdx, flagIdx + 1, depth + 1), HashesWalk(b, l.hashIdx, l.flagIdx, depth + 1));
    RootCases(h, leaves, k);
    SideRoots(leaves, k);
    Injective(h, l.md, if r.md == 0 then l.md else r.md,
              Root(h, LeftLeaves(leaves, k), k - 1), Root(h, RightLeaves(leaves, k), k - 1));
  }

  lemma SideRoots(leaves: seq<Hash>, k: nat)
    requires 1 <= |leaves| <= Pow2(k) && k > 0
    ensures 1 <= |LeftLeaves(leaves, k)| <= Pow2(k - 1) && 1 <= |RightLeaves(leaves, k)| <= Pow2(k - 1)
    ensures forall x :: x in LeftLeaves(leaves, k) ==> x in leaves
    ensures forall x :: x in RightLeaves(leaves, k) ==> x in leaves
  {
  }

  /** The hash of an inner node. */
  ghost predicate IsInner(h: Combine, x: Hash) {
    exists u, v :: x == h(u, v)
  }

  /** No transaction of the tree is zero or the hash of an inner node. */
  ghost predicate ProperLeaves(h: Combine, leaves: seq<Hash>) {
    forall x :: x in leaves ==> x != 0 && !IsInner(h, x)
  }

  /** A walk of the right depth that computes the root of a tree finds only leaves of that tree, and zeros. */
  lemma {:induction false} RightDepth(b: MerkleBlock, h: Combine, leaves: seq<Hash>, k: nat,
                                      hashIdx: nat, flagIdx: nat, depth: nat)
    requires Ideal(h) && depth + k == CeilLog2(b.totalTx) && 1 <= |leaves| <= Pow2(k)
    requires var w := RootWalk(b, h, hashIdx, flagIdx, depth); !w.guard && w.md == Root(h, leaves, k)
    ensures forall x :: x in HashesWalk(b, hashIdx, flagIdx, depth).found ==> x in leaves || x == 0
    decreases k
  {
    hide FlagAt, CeilLog2, RootWalk, HashesWalk, Root, Ideal, LeftLeaves, RightLeaves;
    if flagIdx / 8 < |b.flags| && hashIdx < |b.hashes| && FlagAt(b.flags, flagIdx) && k > 0 {
      var l := RootWalk(b, h, hashIdx, flagIdx + 1, depth + 1);
      Descend(b, h, leaves, k, hashIdx, flagIdx, depth);
      SideRoots(leaves, k);
      RightDepth(b, h, LeftLeaves(leaves, k), k - 1, hashIdx, flagIdx + 1, depth + 1);
      if RootWalk(b, h, l.hashIdx, l.flagIdx, depth + 1).md != 0 {
        RightDepth(b, h, RightLeaves(leaves, k), k - 1, l.hashIdx, l.flagIdx, depth + 1);
      }
    } else {
      LeafNode(b, h, hashIdx, flagIdx, depth);
      RootOfOne(h, leaves, k);
    }
  }

  /** A walk that ends above the leaves finds only hashes of inner nodes, and zeros. */
  lemma {:induction false} TooShallow(b: MerkleBlock, h: Combine, leaves: seq<Hash>, k: nat,
                                      hashIdx: nat, flagIdx: nat, depth: nat)
    requires Ideal(h) && depth <= CeilLog2(b.totalTx) < depth + k && 1 <= |leaves| <= Pow2(k)
    requires var w := RootWalk(b, h, hashIdx, flagIdx, depth); !w.guard && w.md == Root(h, leaves, k)
    ensures forall x :: x in HashesWalk(b, hashIdx, flagIdx, depth).found ==> IsInner(h, x) || x == 0
    decreases k
  {
    hide FlagAt, CeilLog2, RootWalk, HashesWalk, Root, Ideal, LeftLeaves, RightLeaves, IsInner;
    if flagIdx / 8 < |b.flags| && hashIdx < |b.hashes| && FlagAt(b.flags, flagIdx) && depth != CeilLog2(b.totalTx) {
      var l := RootWalk(b, h, hashIdx, flagIdx + 1, depth + 1);
      Descend(b, h, leaves, k, hashIdx, flagIdx, depth);
      SideRoots(leaves, k);
      TooShallow(b, h, LeftLeaves(leaves, k), k - 1, hashIdx, flagIdx + 1, depth + 1);
      if RootWalk(b, h, l.hashIdx, l.flagIdx, depth + 1).md != 0 {
        TooShallow(b, h, RightLeaves(leaves, k), k - 1, l.hashIdx, l.flagIdx, depth + 1);
      }
    } else {
      LeafNode(b, h, hashIdx, flagIdx, depth);
      RootIsInner(h, leaves, k);
    }
  }

  lemma RootIsInner(h: Combine, leaves: seq<Hash>, k: nat)
    requires 1 <= |leaves| <= Pow2(k) && k > 0
    ensures IsInner(h, Root(h, leaves, k))
  {
    hide Root, LeftLeaves, RightLeaves;
    RootCases(h, leaves, k);
    SideRoots(leaves, k);
  }

  /** A walk that would go on below the leaves finds nothing but zeros. */
  lemma {:induction false} TooDeep(b: MerkleBlock, h: Combine, leaves: seq<Hash>, k: nat,
                                   hashIdx: nat, flagIdx: nat, depth: nat)
    requires Ideal(h) && depth + k < CeilLog2(b.totalTx) && 1 <= |leaves| <= Pow2(k) && ProperLeaves(h, leaves)
    requires var w := RootWalk(b, h, hashIdx, flagIdx, depth); !w.guard && w.md == Root(h, leaves, k)
    ensures forall x :: x in HashesWalk(b, hashIdx, flagIdx, depth).found ==> x == 0
    decreases k
  {
    hide FlagAt, CeilLog2, RootWalk, HashesWalk, Root, Ideal, LeftLeaves, RightLeaves, IsInner;
    if flagIdx / 8 < |b.flags| && hashIdx < |b.hashes| && FlagAt(b.flags, flagIdx) {
      if k == 0 {
        UnguardedIsInner(b, h, hashIdx, flagIdx, depth);
        ProperRoot(h, leaves);
        assert false;
      } else {
        var l := RootWalk(b, h, hashIdx, flagIdx + 1, depth + 1);
        Descend(b, h, leaves, k, hashIdx, flagIdx, depth);
        SideRoots(leaves, k);
        TooDeep(b, h, LeftLeaves(leaves, k), k - 1, hashIdx, flagIdx + 1, depth + 1);
        if RootWalk(b, h, l.hashIdx, l.flagIdx, depth + 1).md != 0 {
          TooDeep(b, h, RightLeaves(leaves, k), k - 1, l.hashIdx, l.flagIdx, depth + 1);
        }
      }
    } else {
      LeafNode(b, h, hashIdx, flagIdx, depth);
    }
  }

  lemma ProperRoot(h: Combine, leaves: seq<Hash>)
    requires 1 <= |leaves| <= Pow2(0) && ProperLeaves(h, leaves)
    ensures !IsInner(h, Root(h, leaves, 0))
  {
    hide IsInner;
    assert Root(h, leaves, 0) == leaves[0];
  }

  lemma UnguardedIsInner(b: MerkleBlock, h: Combine, hashIdx: nat, flagIdx: nat, depth: nat)
    requires flagIdx / 8 < |b.flags| && hashIdx < |b.hashes| && FlagAt(b.flags, flagIdx) && depth != CeilLog2(b.totalTx)
    requires !RootWalk(b, h, hashIdx, flagIdx, depth).guard
    ensures IsInner(h, RootWalk(b, h, hashIdx, flagIdx, depth).md)
  {
    hide FlagAt, CeilLog2;
  }

  lemma RootOfOne(h: Combine, leaves: seq<Hash>, k: nat)
    requires 1 <= |leaves| <= Pow2(k)
    ensures k == 0 ==> Root(h, leaves, k) == leaves[0]
  {
  }

  /** The code shows a fired guard in one place only: the walk ends with SIZE_MAX as its hash index. */
  lemma {:induction false} GuardIffIndex(b: MerkleBlock, h: Combine, hashIdx: nat, flagIdx: nat, depth: nat)
    requires |b.hashes| < SIZE_MAX && (hashIdx <= |b.hashes| || hashIdx == SIZE_MAX)
    ensures var w := RootWalk(b, h, hashIdx, flagIdx, depth);
            && (w.hashIdx <= |b.hashes| || w.hashIdx == SIZE_MAX)
            && (w.guard || hashIdx == SIZE_MAX <==> w.hashIdx == SIZE_MAX)
    decreases 8 * |b.flags| - flagIdx
  {
    hide FlagAt, CeilLog2;
    if flagIdx / 8 < |b.flags| && hashIdx < |b.hashes| && FlagAt(b.flags, flagIdx) && depth != CeilLog2(b.totalTx) {
      var l := RootWalk(b, h, hashIdx, flagIdx + 1, depth + 1);
      GuardIffIndex(b, h, hashIdx, flagIdx + 1, depth + 1);
      GuardIffIndex(b, h, l.hashIdx, l.flagIdx, depth + 1);
    }
  }

  /** Every returned hash is a transaction of the tree. */
  ghost predicate Sound(b: MerkleBlock, leaves: seq<Hash>) {
    forall x :: x in HashesWalk(b, 0, 0, 0).found ==> x in leaves
  }

  /** Soundness: of a block with the right root whose walk does not end with SIZE_MAX, exactly when all returned hashes
      are transactions of the tree. The number of transactions is what the block itself states. A block that was
      built from a tree never ends with SIZE_MAX (BuiltBlockWalks). */
  lemma BlockSound(b: MerkleBlock, h: Combine, leaves: seq<Hash>)
    requires Ideal(h) && |leaves| >= 1 && |b.hashes| < SIZE_MAX
    requires RootWalk(b, h, 0, 0, 0).md == Root(h, leaves, CeilLog2(|leaves|))
    requires RootWalk(b, h, 0, 0, 0).hashIdx != SIZE_MAX
    ensures var found := HashesWalk(b, 0, 0, 0).found;
            var right := CeilLog2(b.totalTx) == CeilLog2(|leaves|) && 0 !in found;
            && (found == [] || right ==> Sound(b, leaves))
            && (ProperLeaves(h, leaves) ==> (Sound(b, leaves) <==> found == [] || right))
  {
    hide RootWalk, HashesWalk, Root, Ideal, IsInner;
    var k, found := CeilLog2(|leaves|), HashesWalk(b, 0, 0, 0).found;
    GuardIffIndex(b, h, 0, 0, 0);
    if CeilLog2(b.totalTx) == k {
      RightDepth(b, h, leaves, k, 0, 0, 0);
    } else if CeilLog2(b.totalTx) < k {
      TooShallow(b, h, leaves, k, 0, 0, 0);
    } else if ProperLeaves(h, leaves) {
      TooDeep(b, h, leaves, k, 0, 0, 0);
    }
    if found != [] {
      assert found[0] in found;
    }
  }

  /** A right root and a silent check are not enough: a block that claims two transactions instead of four
      passes off an inner node as a transaction. */
  lemma StatedCountIsNotSound(h: Combine, a: Hash, b: Hash, c: Hash, d: Hash)
    requires Ideal(h) && h(a, b) != h(c, d) && h(a, b) !in [a, b, c, d]
    ensures var leaves := [a, b, c, d];
            var block := MerkleBlock(2, [h(a, b), h(c, d)], [0x03]);
            && CeilLog2(4) == 2 && RootWalk(block, h, 0, 0, 0) == Walk(Root(h, leaves, 2), 2, 3, false)
            && HashesWalk(block, 0, 0, 0).found == [h(a, b)] && !Sound(block, leaves)
  {
    hide FlagAt, CeilLog2, Root, Ideal;
    var block := MerkleBlock(2, [h(a, b), h(c, d)], [0x03]);
    RootOfFour(h, a, b, c, d);
    assert FlagAt([0x03], 0) && FlagAt([0x03], 1) && !FlagAt([0x03], 2) by { ThreeFlags(); }
    assert CeilLog2(2) == 1 && CeilLog2(4) == 2 by { SmallCeils(); }
    HashNotZero(h, a, b);
    HashNotZero(h, c, d);
    assert RootWalk(block, h, 0, 1, 1) == Walk(h(a, b), 1, 2, false);
    assert RootWalk(block, h, 1, 2, 1) == Walk(h(c, d), 2, 3, false);
    assert HashesWalk(block, 0, 1, 1) == TxWalk([h(a, b)], 1, 2);
    assert HashesWalk(block, 1, 2, 1) == TxWalk([], 2, 3);
    assert h(a, b) in HashesWalk(block, 0, 0, 0).found;
  }

  /** Nor is the right number of transactions: a zero in the place of a missing right branch is returned as one. */
  lemma ZeroIsNotSound(h: Combine, a: Hash, b: Hash, c: Hash)
    requires Ideal(h) && h(a, b) != h(c, c) && 0 !in [a, b, c]
    ensures var leaves := [a, b, c];
            var block := MerkleBlock(3, [h(a, b), c, 0], [0x1d]);
            && CeilLog2(3) == 2 && RootWalk(block, h, 0, 0, 0) == Walk(Root(h, leaves, 2), 3, 5, false)
            && HashesWalk(block, 0, 0, 0).found == [c, 0] && !Sound(block, leaves)
  {
    hide FlagAt, CeilLog2, Root, Ideal;
    var block := MerkleBlock(3, [h(a, b), c, 0], [0x1d]);
    RootOfThree(h, a, b, c);
    assert FlagAt([0x1d], 0) && !FlagAt([0x1d], 1) && FlagAt([0x1d], 2) && FlagAt([0x1d], 3) && FlagAt([0x1d], 4) by {
      ThreeFlags();
    }
    assert CeilLog2(3) == 2 by { SmallCeils(); }
    HashNotZero(h, a, b);
    HashNotZero(h, c, c);
    assert RootWalk(block, h, 0, 1, 1) == Walk(h(a, b), 1, 2, false);
    assert RootWalk(block, h, 1, 3, 2) == Walk(c, 2, 4, false);
    assert RootWalk(block, h, 2, 4, 2) == Walk(0, 3, 5, false);
    assert RootWalk(block, h, 1, 2, 1) == Walk(h(c, c), 3, 5, false);
    assert HashesWalk(block, 0, 1, 1) == TxWalk([], 1, 2);
    assert HashesWalk(block, 1, 3, 2) == TxWalk([c], 2, 4);
    assert HashesWalk(block, 2, 4, 2) == TxWalk([0], 3, 5);
    assert HashesWalk(block, 1, 2, 1) == TxWalk([c, 0], 3, 5);
    assert 0 in HashesWalk(block, 0, 0, 0).found;
  }

  lemma SmallCeils()
    ensures CeilLog2(2) == 1 && CeilLog2(3) == 2 && CeilLog2(4) == 2
  {
    assert Pow2(0) == 1 && Pow2(1) == 2 && Pow2(2) == 4;
    CeilLog2Unique(2, 1);
    CeilLog2Unique(3, 2);
    CeilLog2Unique(4, 2);
  }

  lemma ThreeFlags()
    ensures FlagAt([0x03], 0) && FlagAt([0x03], 1) && !FlagAt([0x03], 2)
    ensures FlagAt([0x1d], 0) && !FlagAt([0x1d], 1) && FlagAt([0x1d], 2) && FlagAt([0x1d], 3) && FlagAt([0x1d], 4)
  {
    assert Pow2(0) == 1 && Pow2(1) == 2 && Pow2(2) == 4 && Pow2(3) == 8 && Pow2(4) == 16;
  }

  lemma RootOfTwo(h: Combine, a: Hash, b: Hash)
    ensures Pow2(1) == 2 && Root(h, [a, b], 1) == h(a, b)
  {
    assert Pow2(0) == 1 && Pow2(1) == 2;
    assert [a, b][..1] == [a] && [a, b][1..] == [b];
    RootCases(h, [a, b], 1);
  }

  lemma RootOfThree(h: Combine, a: Hash, b: Hash, c: Hash)
    ensures Pow2(2) == 4 && Root(h, [a, b, c], 2) == h(h(a, b), h(c, c))
  {
    hide Root;
    assert Pow2(0) == 1 && Pow2(1) == 2 && Pow2(2) == 4;
    assert [a, b, c][..2] == [a, b] && [a, b, c][2..] == [c];
    RootCases(h, [a, b, c], 2);
    RootCases(h, [c], 1);
    RootOfOne(h, [c], 0);
    RootOfTwo(h, a, b);
  }

  lemma RootOfFour(h: Combine, a: Hash, b: Hash, c: Hash, d: Hash)
    ensures Pow2(2) == 4 && Root(h, [a, b, c, d], 2) == h(h(a, b), h(c, d))
  {
    hide Root;
    assert Pow2(1) == 2 && Pow2(2) == 4;
    assert [a, b, c, d][..2] == [a, b] && [a, b, c, d][2..] == [c, d];
    RootCases(h, [a, b, c, d], 2);
    RootOfTwo(h, a, b);
    RootOfTwo(h, c, d);
  }

  /** The right root alone is not enough, because the zero of a fired guard is taken for a missing right branch
      one level up: here the root is the tree's, the returned hashes need not be its leaves, and only the index
      tells. */
  lemma RootAloneIsNotSound(h: Combine, a: Hash, b: Hash, c: Hash, d: Hash, e: Hash, f: Hash)
    requires Ideal(h) && a != b && f != 0 && f !in [a, b, c, d, e]
    ensures var leaves := [a, b, c, d, e];
            var block := MerkleBlock(5, [h(h(a, b), h(c, d)), h(e, e), f, f], [0x75]);
            && CeilLog2(5) == 3 && 0 !in block.hashes
            && RootWalk(block, h, 0, 0, 0).md == Root(h, leaves, 3)
            && HashesWalk(block, 0, 0, 0).found == [f, f]
            && RootWalk(block, h, 0, 0, 0).hashIdx == SIZE_MAX
  {
    hide FlagAt, CeilLog2, Root, RootWalk, HashesWalk, Ideal;
    var left, y := h(h(a, b), h(c, d)), h(e, e);
    var block := MerkleBlock(5, [left, y, f, f], [0x75]);
    RootOfFive(h, a, b, c, d, e);
    SevenFlags();
    CeilOfFive();
    HashNotZero(h, h(a, b), h(c, d));
    HashNotZero(h, e, e);
    HashNotZero(h, y, y);
    BranchesDiffer(h, a, b, c, d, e);
    GuardBelow(block, h, y, f);
    RootStep(block, h, 0, 1, 1);
    RootStep(block, h, 0, 0, 0);
    FoundTwice(block, f);
  }

  lemma HashNotZero(h: Combine, a: Hash, b: Hash)
    requires Ideal(h)
    ensures h(a, b) != 0
  {
  }

  lemma BranchesDiffer(h: Combine, a: Hash, b: Hash, c: Hash, d: Hash, e: Hash)
    requires Ideal(h) && a != b
    ensures h(h(a, b), h(c, d)) != h(h(e, e), h(e, e))
  {
    hide Ideal;
    if h(h(a, b), h(c, d)) == h(h(e, e), h(e, e)) {
      Injective(h, h(a, b), h(c, d), h(e, e), h(e, e));
      Injective(h, a, b, e, e);
      assert false;
    }
  }

  lemma CeilOfFive()
    ensures CeilLog2(5) == 3
  {
    assert Pow2(2) == 4 && Pow2(3) == 8;
    CeilLog2Unique(5, 3);
  }

  /** The right branch of that block: the guard fires below it, and it still yields a hash. */
  lemma GuardBelow(block: MerkleBlock, h: Combine, y: Hash, f: Hash)
    requires y != 0 && f != 0 && h(y, y) != 0
    requires block.totalTx == 5 && block.flags == [0x75] && |block.hashes| == 4
    requires block.hashes[1] == y && block.hashes[2] == f && block.hashes[3] == f
    ensures RootWalk(block, h, 1, 2, 1) == Walk(h(y, y), SIZE_MAX, 7, true)
  {
    SevenFlags();
    CeilOfFive();
    hide FlagAt, CeilLog2;
    assert RootWalk(block, h, 2, 5, 3) == Walk(f, 3, 6, false);
    assert RootWalk(block, h, 3, 6, 3) == Walk(f, 4, 7, false);
    assert RootWalk(block, h, 2, 4, 2) == Walk(0, SIZE_MAX, 7, true);
    assert RootWalk(block, h, 1, 3, 2) == Walk(y, 2, 4, false);
  }

  lemma FoundTwice(block: MerkleBlock, f: Hash)
    requires block.totalTx == 5 && block.flags == [0x75] && |block.hashes| == 4
    requires block.hashes[2] == f && block.hashes[3] == f
    ensures HashesWalk(block, 0, 0, 0).found == [f, f]
  {
    SevenFlags();
    CeilOfFive();
    hide FlagAt, CeilLog2;
    assert HashesWalk(block, 2, 5, 3) == TxWalk([f], 3, 6);
    assert HashesWalk(block, 3, 6, 3) == TxWalk([f], 4, 7);
    assert HashesWalk(block, 2, 4, 2) == TxWalk([f, f], 4, 7);
    assert HashesWalk(block, 1, 3, 2) == TxWalk([], 2, 4);
    assert HashesWalk(block, 1, 2, 1) == TxWalk([f, f], 4, 7);
    assert HashesWalk(block, 0, 1, 1) == TxWalk([], 1, 2);
  }

  lemma RootOfFive(h: Combine, a: Hash, b: Hash, c: Hash, d: Hash, e: Hash)
    ensures Pow2(3) == 8
    ensures Root(h, [a, b, c, d, e], 3) == h(h(h(a, b), h(c, d)), h(h(e, e), h(e, e)))
  {
    hide Root;
    var leaves := [a, b, c, d, e];
    assert Pow2(0) == 1 && Pow2(1) == 2 && Pow2(2) == 4 && Pow2(3) == 8;
    assert leaves[..4] == [a, b, c, d] && leaves[4..] == [e];
    RootCases(h, leaves, 3);
    RootOfFour(h, a, b, c, d);
    RootCases(h, [e], 2);
    RootCases(h, [e], 1);
    RootOfOne(h, [e], 0);
  }

  lemma SevenFlags()
    ensures !FlagAt([0x75], 1) && !FlagAt([0x75], 3)
    ensures FlagAt([0x75], 0) && FlagAt([0x75], 2) && FlagAt([0x75], 4) && FlagAt([0x75], 5) && FlagAt([0x75], 6)
  {
    assert Pow2(0) == 1 && Pow2(1) == 2 && Pow2(2) == 4 && Pow2(3) == 8;
    assert Pow2(4) == 16 && Pow2(5) == 32 && Pow2(6) == 64;
  }
}
