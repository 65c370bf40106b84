/** Variable-length integers of the transaction format. */
module VarInts {
  import opened Words

  const VAR_INT16_HEADER: nat := 0xfd
  const VAR_INT32_HEADER: nat := 0xfe
  const VAR_INT64_HEADER: nat := 0xff

  function VarIntSize(i: nat): nat {
    if i < VAR_INT16_HEADER then 1 else if i <= 0xffff then 3 else if i <= 0xffff_ffff then 5 else 9
  }

  /** A 64-bit number in as few bytes as its size class takes, little-endian behind the header. */
  function VarInt(i: nat): (b: seq<Byte>)
    requires i < 0x1_0000_0000_0000_0000
    ensures |b| == VarIntSize(i)
  {
    if i < VAR_INT16_HEADER then [i]
    else if i <= 0xffff then [VAR_INT16_HEADER] + ToLE(i, 2)
    else if i <= 0xffff_ffff then [VAR_INT32_HEADER] + ToLE(i, 4)
    else [VAR_INT64_HEADER] + ToLE(i, 8)
  }

  /** One byte below 0xfd; else a header of 0xfd, 0xfe or 0xff and the number in 2, 4 or 8 bytes, lowest first. */
  lemma VarIntIs(i: nat)
    requires i < 0x1_0000_0000_0000_0000
    ensures var b := VarInt(i);
      if i <= 0xfc then b == [i]
      else
        |b| == (if i <= 0xffff then 3 else if i <= 0xffff_ffff then 5 else 9) &&
        b[0] == (if i <= 0xffff then 0xfd else if i <= 0xffff_ffff then 0xfe else 0xff) && LE(b[1..]) == i
  {
    if i > 0xfc {
      var n := if i <= 0xffff then 2 else if i <= 0xffff_ffff then 4 else 8;
      assert Pow256(4) == 0x1_0000_0000 && Pow256(8) == 0x1_0000_0000_0000_0000 && Pow256(2) == 0x1_0000;
      LEOfToLE(i, n);
      assert VarInt(i)[1..] == ToLE(i, n);
    }
  }
}
