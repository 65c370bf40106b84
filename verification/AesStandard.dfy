/** The code's AES-256 is the one of FIPS 197. */
module AesStandard {
  import Aes
  import opened Fips197

  // ----- The field -----

  lemma XtIsTimes(x: bv8)
    ensures Aes.Xt(x) == Times(x, 2)
  {
  }

  lemma XtInvIsQuotient(x: bv8)
    ensures Times(Aes.XtInv(x), 2) == x
  {
  }

  lemma SumIsTimes3(x: bv8)
    ensures Aes.Add(Aes.Xt(x), x) == Times(x, 3)
  {
  }

  // ----- The S-box -----

  /** The S-box maps x to the affine image of its inverse i; 0 has no inverse, and 0 in its place. */
  predicate IsSub(x: bv8, i: bv8) {
    Aes.Sbox(x) == Affine(i) && if x == 0 then i == 0 else Times(x, i) == 1
  }

  lemma Row0()
    ensures IsSub(0x00, 0x00) && IsSub(0x01, 0x01) && IsSub(0x02, 0x8d) && IsSub(0x03, 0xf6)
    ensures IsSub(0x04, 0xcb) && IsSub(0x05, 0x52) && IsSub(0x06, 0x7b) && IsSub(0x07, 0xd1)
    ensures IsSub(0x08, 0xe8) && IsSub(0x09, 0x4f) && IsSub(0x0a, 0x29) && IsSub(0x0b, 0xc0)
    ensures IsSub(0x0c, 0xb0) && IsSub(0x0d, 0xe1) && IsSub(0x0e, 0xe5) && IsSub(0x0f, 0xc7)
  {
  }

  lemma Row1()
    ensures IsSub(0x10, 0x74) && IsSub(0x11, 0xb4) && IsSub(0x12, 0xaa) && IsSub(0x13, 0x4b)
    ensures IsSub(0x14, 0x99) && IsSub(0x15, 0x2b) && IsSub(0x16, 0x60) && IsSub(0x17, 0x5f)
    ensures IsSub(0x18, 0x58) && IsSub(0x19, 0x3f) && IsSub(0x1a, 0xfd) && IsSub(0x1b, 0xcc)
    ensures IsSub(0x1c, 0xff) && IsSub(0x1d, 0x40) && IsSub(0x1e, 0xee) && IsSub(0x1f, 0xb2)
  {
  }

  lemma Row2()
    ensures IsSub(0x20, 0x3a) && IsSub(0x21, 0x6e) && IsSub(0x22, 0x5a) && IsSub(0x23, 0xf1)
    ensures IsSub(0x24, 0x55) && IsSub(0x25, 0x4d) && IsSub(0x26, 0xa8) && IsSub(0x27, 0xc9)
    ensures IsSub(0x28, 0xc1) && IsSub(0x29, 0x0a) && IsSub(0x2a, 0x98) && IsSub(0x2b, 0x15)
    ensures IsSub(0x2c, 0x30) && IsSub(0x2d, 0x44) && IsSub(0x2e, 0xa2) && IsSub(0x2f, 0xc2)
  {
  }

  lemma Row3()
    ensures IsSub(0x30, 0x2c) && IsSub(0x31, 0x45) && IsSub(0x32, 0x92) && IsSub(0x33, 0x6c)
    ensures IsSub(0x34, 0xf3) && IsSub(0x35, 0x39) && IsSub(0x36, 0x66) && IsSub(0x37, 0x42)
    ensures IsSub(0x38, 0xf2) && IsSub(0x39, 0x35) && IsSub(0x3a, 0x20) && IsSub(0x3b, 0x6f)
    ensures IsSub(0x3c, 0x77) && IsSub(0x3d, 0xbb) && IsSub(0x3e, 0x59) && IsSub(0x3f, 0x19)
  {
  }

  lemma Row4()
    ensures IsSub(0x40, 0x1d) && IsSub(0x41, 0xfe) && IsSub(0x42, 0x37) && IsSub(0x43, 0x67)
    ensures IsSub(0x44, 0x2d) && IsSub(0x45, 0x31) && IsSub(0x46, 0xf5) && IsSub(0x47, 0x69)
    ensures IsSub(0x48, 0xa7) && IsSub(0x49, 0x64) && IsSub(0x4a, 0xab) && IsSub(0x4b, 0x13)
    ensures IsSub(0x4c, 0x54) && IsSub(0x4d, 0x25) && IsSub(0x4e, 0xe9) && IsSub(0x4f, 0x09)
  {
  }

  lemma Row5()
    ensures IsSub(0x50, 0xed) && IsSub(0x51, 0x5c) && IsSub(0x52, 0x05) && IsSub(0x53, 0xca)
    ensures IsSub(0x54, 0x4c) && IsSub(0x55, 0x24) && IsSub(0x56, 0x87) && IsSub(0x57, 0xbf)
    ensures IsSub(0x58, 0x18) && IsSub(0x59, 0x3e) && IsSub(0x5a, 0x22) && IsSub(0x5b, 0xf0)
    ensures IsSub(0x5c, 0x51) && IsSub(0x5d, 0xec) && IsSub(0x5e, 0x61) && IsSub(0x5f, 0x17)
  {
  }

  lemma Row6()
    ensures IsSub(0x60, 0x16) && IsSub(0x61, 0x5e) && IsSub(0x62, 0xaf) && IsSub(0x63, 0xd3)
    ensures IsSub(0x64, 0x49) && IsSub(0x65, 0xa6) && IsSub(0x66, 0x36) && IsSub(0x67, 0x43)
    ensures IsSub(0x68, 0xf4) && IsSub(0x69, 0x47) && IsSub(0x6a, 0x91) && IsSub(0x6b, 0xdf)
    ensures IsSub(0x6c, 0x33) && IsSub(0x6d, 0x93) && IsSub(0x6e, 0x21) && IsSub(0x6f, 0x3b)
  {
  }

  lemma Row7()
    ensures IsSub(0x70, 0x79) && IsSub(0x71, 0xb7) && IsSub(0x72, 0x97) && IsSub(0x73, 0x85)
    ensures IsSub(0x74, 0x10) && IsSub(0x75, 0xb5) && IsSub(0x76, 0xba) && IsSub(0x77, 0x3c)
    ensures IsSub(0x78, 0xb6) && IsSub(0x79, 0x70) && IsSub(0x7a, 0xd0) && IsSub(0x7b, 0x06)
    ensures IsSub(0x7c, 0xa1) && IsSub(0x7d, 0xfa) && IsSub(0x7e, 0x81) && IsSub(0x7f, 0x82)
  {
  }

  lemma Row8()
    ensures IsSub(0x80, 0x83) && IsSub(0x81, 0x7e) && IsSub(0x82, 0x7f) && IsSub(0x83, 0x80)
    ensures IsSub(0x84, 0x96) && IsSub(0x85, 0x73) && IsSub(0x86, 0xbe) && IsSub(0x87, 0x56)
    ensures IsSub(0x88, 0x9b) && IsSub(0x89, 0x9e) && IsSub(0x8a, 0x95) && IsSub(0x8b, 0xd9)
    ensures IsSub(0x8c, 0xf7) && IsSub(0x8d, 0x02) && IsSub(0x8e, 0xb9) && IsSub(0x8f, 0xa4)
  {
  }

  lemma Row9()
    ensures IsSub(0x90, 0xde) && IsSub(0x91, 0x6a) && IsSub(0x92, 0x32) && IsSub(0x93, 0x6d)
    ensures IsSub(0x94, 0xd8) && IsSub(0x95, 0x8a) && IsSub(0x96, 0x84) && IsSub(0x97, 0x72)
    ensures IsSub(0x98, 0x2a) && IsSub(0x99, 0x14) && IsSub(0x9a, 0x9f) && IsSub(0x9b, 0x88)
    ensures IsSub(0x9c, 0xf9) && IsSub(0x9d, 0xdc) && IsSub(0x9e, 0x89) && IsSub(0x9f, 0x9a)
  {
  }

  lemma RowA()
    ensures IsSub(0xa0, 0xfb) && IsSub(0xa1, 0x7c) && IsSub(0xa2, 0x2e) && IsSub(0xa3, 0xc3)
    ensures IsSub(0xa4, 0x8f) && IsSub(0xa5, 0xb8) && IsSub(0xa6, 0x65) && IsSub(0xa7, 0x48)
    ensures IsSub(0xa8, 0x26) && IsSub(0xa9, 0xc8) && IsSub(0xaa, 0x12) && IsSub(0xab, 0x4a)
    ensures IsSub(0xac, 0xce) && IsSub(0xad, 0xe7) && IsSub(0xae, 0xd2) && IsSub(0xaf, 0x62)
  {
  }

  lemma RowB()
    ensures IsSub(0xb0, 0x0c) && IsSub(0xb1, 0xe0) && IsSub(0xb2, 0x1f) && IsSub(0xb3, 0xef)
    ensures IsSub(0xb4, 0x11) && IsSub(0xb5, 0x75) && IsSub(0xb6, 0x78) && IsSub(0xb7, 0x71)
    ensures IsSub(0xb8, 0xa5) && IsSub(0xb9, 0x8e) && IsSub(0xba, 0x76) && IsSub(0xbb, 0x3d)
    ensures IsSub(0xbc, 0xbd) && IsSub(0xbd, 0xbc) && IsSub(0xbe, 0x86) && IsSub(0xbf, 0x57)
  {
  }

  lemma RowC()
    ensures IsSub(0xc0, 0x0b) && IsSub(0xc1, 0x28) && IsSub(0xc2, 0x2f) && IsSub(0xc3, 0xa3)
    ensures IsSub(0xc4, 0xda) && IsSub(0xc5, 0xd4) && IsSub(0xc6, 0xe4) && IsSub(0xc7, 0x0f)
    ensures IsSub(0xc8, 0xa9) && IsSub(0xc9, 0x27) && IsSub(0xca, 0x53) && IsSub(0xcb, 0x04)
    ensures IsSub(0xcc, 0x1b) && IsSub(0xcd, 0xfc) && IsSub(0xce, 0xac) && IsSub(0xcf, 0xe6)
  {
  }

  lemma RowD()
    ensures IsSub(0xd0, 0x7a) && IsSub(0xd1, 0x07) && IsSub(0xd2, 0xae) && IsSub(0xd3, 0x63)
    ensures IsSub(0xd4, 0xc5) && IsSub(0xd5, 0xdb) && IsSub(0xd6, 0xe2) && IsSub(0xd7, 0xea)
    ensures IsSub(0xd8, 0x94) && IsSub(0xd9, 0x8b) && IsSub(0xda, 0xc4) && IsSub(0xdb, 0xd5)
    ensures IsSub(0xdc, 0x9d) && IsSub(0xdd, 0xf8) && IsSub(0xde, 0x90) && IsSub(0xdf, 0x6b)
  {
  }

  lemma RowE()
    ensures IsSub(0xe0, 0xb1) && IsSub(0xe1, 0x0d) && IsSub(0xe2, 0xd6) && IsSub(0xe3, 0xeb)
    ensures IsSub(0xe4, 0xc6) && IsSub(0xe5, 0x0e) && IsSub(0xe6, 0xcf) && IsSub(0xe7, 0xad)
    ensures IsSub(0xe8, 0x08) && IsSub(0xe9, 0x4e) && IsSub(0xea, 0xd7) && IsSub(0xeb, 0xe3)
    ensures IsSub(0xec, 0x5d) && IsSub(0xed, 0x50) && IsSub(0xee, 0x1e) && IsSub(0xef, 0xb3)
  {
  }

  lemma RowF()
    ensures IsSub(0xf0, 0x5b) && IsSub(0xf1, 0x23) && IsSub(0xf2, 0x38) && IsSub(0xf3, 0x34)
    ensures IsSub(0xf4, 0x68) && IsSub(0xf5, 0x46) && IsSub(0xf6, 0x03) && IsSub(0xf7, 0x8c)
    ensures IsSub(0xf8, 0xdd) && IsSub(0xf9, 0x9c) && IsSub(0xfa, 0x7d) && IsSub(0xfb, 0xa0)
    ensures IsSub(0xfc, 0xcd) && IsSub(0xfd, 0x1a) && IsSub(0xfe, 0x41) && IsSub(0xff, 0x1c)
  {
  }

  lemma InRow0(x: bv8)
    requires 0x00 <= x <= 0x0f
    ensures exists i :: IsSub(x, i)
  {
    hide IsSub;
    Row0();
  }

  lemma InRow1(x: bv8)
    requires 0x10 <= x <= 0x1f
    ensures exists i :: IsSub(x, i)
  {
    hide IsSub;
    Row1();
  }

  lemma InRow2(x: bv8)
    requires 0x20 <= x <= 0x2f
    ensures exists i :: IsSub(x, i)
  {
    hide IsSub;
    Row2();
  }

  lemma InRow3(x: bv8)
    requires 0x30 <= x <= 0x3f
    ensures exists i :: IsSub(x, i)
  {
    hide IsSub;
    Row3();
  }

  lemma InRow4(x: bv8)
    requires 0x40 <= x <= 0x4f
    ensures exists i :: IsSub(x, i)
  {
    hide IsSub;
    Row4();
  }

  lemma InRow5(x: bv8)
    requires 0x50 <= x <= 0x5f
    ensures exists i :: IsSub(x, i)
  {
    hide IsSub;
    Row5();
  }

  lemma InRow6(x: bv8)
    requires 0x60 <= x <= 0x6f
    ensures exists i :: IsSub(x, i)
  {
    hide IsSub;
    Row6();
  }

  lemma InRow7(x: bv8)
    requires 0x70 <= x <= 0x7f
    ensures exists i :: IsSub(x, i)
  {
    hide IsSub;
    Row7();
  }

  lemma InRow8(x: bv8)
    requires 0x80 <= x <= 0x8f
    ensures exists i :: IsSub(x, i)
  {
    hide IsSub;
    Row8();
  }

  lemma InRow9(x: bv8)
    requires 0x90 <= x <= 0x9f
    ensures exists i :: IsSub(x, i)
  {
    hide IsSub;
    Row9();
  }

  lemma InRowA(x: bv8)
    requires 0xa0 <= x <= 0xaf
    ensures exists i :: IsSub(x, i)
  {
    hide IsSub;
    RowA();
  }

  lemma InRowB(x: bv8)
    requires 0xb0 <= x <= 0xbf
    ensures exists i :: IsSub(x, i)
  {
    hide IsSub;
    RowB();
  }

  lemma InRowC(x: bv8)
    requires 0xc0 <= x <= 0xcf
    ensures exists i :: IsSub(x, i)
  {
    hide IsSub;
    RowC();
  }

  lemma InRowD(x: bv8)
    requires 0xd0 <= x <= 0xdf
    ensures exists i :: IsSub(x, i)
  {
    hide IsSub;
    RowD();
  }

  lemma InRowE(x: bv8)
    requires 0xe0 <= x <= 0xef
    ensures exists i :: IsSub(x, i)
  {
    hide IsSub;
    RowE();
  }

  lemma InRowF(x: bv8)
    requires 0xf0 <= x <= 0xff
    ensures exists i :: IsSub(x, i)
  {
    hide IsSub;
    RowF();
  }

  /** For every byte. */
  lemma SboxIsStandard(x: bv8)
    ensures exists i :: IsSub(x, i)
  {
    hide IsSub;
    if x < 0x80 {
      LowHalf(x);
    } else {
      HighHalf(x);
    }
  }

  lemma LowHalf(x: bv8)
    requires 0x00 <= x <= 0x7f
    ensures exists i :: IsSub(x, i)
  {
    hide IsSub;
    if x <= 0x0f {
      InRow0(x);
    } else if x <= 0x1f {
      InRow1(x);
    } else if x <= 0x2f {
      InRow2(x);
    } else if x <= 0x3f {
      InRow3(x);
    } else if x <= 0x4f {
      InRow4(x);
    } else if x <= 0x5f {
      InRow5(x);
    } else if x <= 0x6f {
      InRow6(x);
    } else {
      InRow7(x);
    }
  }

  lemma HighHalf(x: bv8)
    requires 0x80 <= x <= 0xff
    ensures exists i :: IsSub(x, i)
  {
    hide IsSub;
    if x <= 0x8f {
      InRow8(x);
    } else if x <= 0x9f {
      InRow9(x);
    } else if x <= 0xaf {
      InRowA(x);
    } else if x <= 0xbf {
      InRowB(x);
    } else if x <= 0xcf {
      InRowC(x);
    } else if x <= 0xdf {
      InRowD(x);
    } else if x <= 0xef {
      InRowE(x);
    } else {
      InRowF(x);
    }
  }

  // ----- The steps of a round -----

  lemma ShiftIsStandard(s: State)
    ensures Aes.ShiftRows(s) == ShiftRows(s)
  {
    hide Aes.ShiftRows, ShiftRows, At;
    forall j | 0 <= j < 16
      ensures Aes.ShiftRows(s)[j] == ShiftRows(s)[j]
    {
      ShiftedByte(s, j);
      if j < 8 {
        ShiftedLow(s, j);
      } else {
        ShiftedHigh(s, j);
      }
    }
  }

  lemma ShiftedByte(s: State, j: nat)
    requires j < 16
    ensures ShiftRows(s)[j] == At(s, j % 4, (j / 4 + j % 4) % 4)
  {
    hide At;
  }

  lemma ShiftedLow(s: State, j: nat)
    requires j < 8
    ensures Aes.ShiftRows(s)[j] == At(s, j % 4, (j / 4 + j % 4) % 4)
  {
    if j == 0 {
    } else if j == 1 {
    } else if j == 2 {
    } else if j == 3 {
    } else if j == 4 {
    } else if j == 5 {
    } else if j == 6 {
    }
  }

  lemma ShiftedHigh(s: State, j: nat)
    requires 8 <= j < 16
    ensures Aes.ShiftRows(s)[j] == At(s, j % 4, (j / 4 + j % 4) % 4)
  {
    if j == 8 {
    } else if j == 9 {
    } else if j == 10 {
    } else if j == 11 {
    } else if j == 12 {
    } else if j == 13 {
    } else if j == 14 {
    }
  }

  lemma SubIsStandard(s: State)
    ensures Aes.SubBytes(s) == SubBytes(Aes.Sbox, s)
  {
  }

  lemma MixIsStandard(s: State)
    ensures Aes.MixColumns(s) == MixColumns(s)
  {
    hide Aes.MixColumns, Times, Aes.Xt, Aes.Add, Aes.Mix, Aes.Sum4;
    ColumnIsStandard(s, 0);
    ColumnIsStandard(s, 1);
    ColumnIsStandard(s, 2);
    ColumnIsStandard(s, 3);
  }

  lemma ColumnIsStandard(s: State, c: nat)
    requires c < 4
    ensures var m := Aes.MixColumns(s);
      m[4 * c] == MixedByte(s, 0, c) && m[4 * c + 1] == MixedByte(s, 1, c) &&
      m[4 * c + 2] == MixedByte(s, 2, c) && m[4 * c + 3] == MixedByte(s, 3, c)
  {
    hide Aes.MixColumns, MixedByte, Times, Aes.Xt, Aes.Add, Aes.Mix, Aes.Sum4;
    var s0, s1, s2, s3 := s[4 * c], s[4 * c + 1], s[4 * c + 2], s[4 * c + 3];
    Aes.MixedColumn(s, c);
    Aes.MixIsMatrix(s0, s1, s2, s3);
    XtIsTimes(s0);
    XtIsTimes(s1);
    XtIsTimes(s2);
    XtIsTimes(s3);
    SumIsTimes3(s0);
    SumIsTimes3(s1);
    SumIsTimes3(s2);
    SumIsTimes3(s3);
    MixedBytes(s, c);
    Aes.Rotated(s0, Times(s1, 2), Times(s2, 3), s3);
    Aes.Rotated(s0, s1, Times(s2, 2), Times(s3, 3));
    Aes.Rotated(s1, Times(s2, 2), Times(s3, 3), s0);
    Aes.Rotated(Times(s3, 2), Times(s0, 3), s1, s2);
  }

  lemma MixedBytes(s: State, c: nat)
    requires c < 4
    ensures var s0, s1, s2, s3 := s[4 * c], s[4 * c + 1], s[4 * c + 2], s[4 * c + 3];
      MixedByte(s, 0, c) == Aes.Sum4(Times(s0, 2), Times(s1, 3), s2, s3) &&
      MixedByte(s, 1, c) == Aes.Sum4(Times(s1, 2), Times(s2, 3), s3, s0) &&
      MixedByte(s, 2, c) == Aes.Sum4(Times(s2, 2), Times(s3, 3), s0, s1) &&
      MixedByte(s, 3, c) == Aes.Sum4(Times(s3, 2), Times(s0, 3), s1, s2)
  {
    hide Times, Plus, Aes.Sum4;
    assert At(s, 0, c) == s[4 * c] && At(s, 1, c) == s[4 * c + 1];
    assert At(s, 2, c) == s[4 * c + 2] && At(s, 3, c) == s[4 * c + 3];
    var s0, s1, s2, s3 := s[4 * c], s[4 * c + 1], s[4 * c + 2], s[4 * c + 3];
    FourTerms(Times(s0, 2), Times(s1, 3), s2, s3);
    FourTerms(Times(s1, 2), Times(s2, 3), s3, s0);
    FourTerms(Times(s2, 2), Times(s3, 3), s0, s1);
    FourTerms(Times(s3, 2), Times(s0, 3), s1, s2);
  }

  lemma FourTerms(a: bv8, b: bv8, c: bv8, d: bv8)
    ensures Aes.Sum4(a, b, c, d) == Plus(Plus(a, b), Plus(c, d))
  {
  }

  lemma PlusIsAdd(a: bv8, b: bv8)
    ensures Plus(a, b) == Aes.Add(a, b)
  {
  }

  // ----- The key schedule -----

  lemma {:induction false} RconIsStandard(n: nat)
    ensures Aes.RconAt(n) == Rcon(n + 1)
  {
    hide Aes.Xt, Times;
    if n > 0 {
      RconIsStandard(n - 1);
      XtIsTimes(Aes.RconAt(n - 1));
    }
  }

  /** The eight words in the schedule after n expansions are words 8n to 8n + 7. */
  predicate HoldsWord(key: Key, n: nat, t: nat)
    requires t < 8
  {
    var k, w := Aes.KeyAt(key, n), KeyWord(Aes.Sbox, key, 8 * n + t);
    k[4 * t] == w[0] && k[4 * t + 1] == w[1] && k[4 * t + 2] == w[2] && k[4 * t + 3] == w[3]
  }

  lemma {:induction false} KeyIsStandard(key: Key, n: nat, t: nat)
    requires t < 8
    ensures HoldsWord(key, n, t)
    decreases n, t
  {
    hide HoldsWord;
    if n == 0 {
      FirstWords(key, t);
    } else {
      KeyIsStandard(key, n - 1, t);
      RconIsStandard(n - 1);
      if t == 0 {
        KeyIsStandard(key, n - 1, 7);
        FirstNextWord(key, n);
      } else {
        KeyIsStandard(key, n, t - 1);
        LaterNextWord(key, n, t);
      }
    }
  }

  lemma FirstWords(key: Key, t: nat)
    requires t < 8
    ensures HoldsWord(key, 0, t)
  {
    assert Aes.KeyAt(key, 0) == key;
    assert KeyWord(Aes.Sbox, key, t) == key[4 * t..4 * t + 4];
  }

  lemma FirstNextWord(key: Key, n: nat)
    requires n > 0 && HoldsWord(key, n - 1, 0) && HoldsWord(key, n - 1, 7) && Aes.RconAt(n - 1) == Rcon(n)
    ensures HoldsWord(key, n, 0)
  {
    hide Aes.Sbox, Aes.Add, Plus, Aes.KeyAt, Aes.NextByte, Aes.RconAt, Rcon, KeyWord;
    var k, r := Aes.KeyAt(key, n - 1), Aes.RconAt(n - 1);
    Aes.KeyStep(key, n - 1);
    Aes.FirstWord(k, r);
    ByteStep(key, 8 * n, 0);
    ByteStep(key, 8 * n, 1);
    ByteStep(key, 8 * n, 2);
    ByteStep(key, 8 * n, 3);
  }

  lemma LaterNextWord(key: Key, n: nat, t: nat)
    requires n > 0 && 0 < t < 8 && HoldsWord(key, n - 1, t) && HoldsWord(key, n, t - 1)
    ensures HoldsWord(key, n, t)
  {
    hide Aes.KeyAt, KeyWord;
    LaterStep(key, n, t, 0);
    LaterStep(key, n, t, 1);
    LaterStep(key, n, t, 2);
    LaterStep(key, n, t, 3);
  }

  lemma LaterStep(key: Key, n: nat, t: nat, b: nat)
    requires n > 0 && 0 < t < 8 && b < 4
    requires Aes.KeyAt(key, n - 1)[4 * t + b] == KeyWord(Aes.Sbox, key, 8 * (n - 1) + t)[b]
    requires Aes.KeyAt(key, n)[4 * t + b - 4] == KeyWord(Aes.Sbox, key, 8 * n + t - 1)[b]
    ensures Aes.KeyAt(key, n)[4 * t + b] == KeyWord(Aes.Sbox, key, 8 * n + t)[b]
  {
    hide Aes.Sbox, Aes.Add, Plus, Aes.KeyAt, Aes.NextByte, Aes.RconAt, KeyWord;
    var k, r := Aes.KeyAt(key, n - 1), Aes.RconAt(n - 1);
    Aes.KeyStep(key, n - 1);
    Aes.LaterByte(k, r, 4 * t + b);
    ByteStep(key, 8 * n + t, b);
    assert Aes.KeyAt(key, n)[4 * t + b] == Aes.NextByte(k, r, 4 * t + b);
    assert Aes.KeyAt(key, n)[4 * t + b - 4] == Aes.NextByte(k, r, 4 * t + b - 4);
  }

  lemma ByteStep(key: Key, i: nat, b: nat)
    requires i >= 8 && b < 4
    ensures var w, t, v := KeyWord(Aes.Sbox, key, i - 8), KeyWord(Aes.Sbox, key, i - 1), KeyWord(Aes.Sbox, key, i);
      v[b] == Aes.Add(w[b], if i % 8 == 0 then Aes.Add(Aes.Sbox(t[(b + 1) % 4]), if b == 0 then Rcon(i / 8) else 0)
                            else if i % 8 == 4 then Aes.Sbox(t[b]) else t[b])
  {
    hide Aes.Sbox, Aes.Add, Plus, Rcon;
    var w, t := KeyWord(Aes.Sbox, key, i - 8), KeyWord(Aes.Sbox, key, i - 1);
    PlusIsAdd(w[b], Turned(Aes.Sbox, t, i, b));
    PlusIsAdd(Aes.Sbox(t[(b + 1) % 4]), if b == 0 then Rcon(i / 8) else 0);
  }

  // ----- The cipher -----

  lemma AddKeyIsStandard(key: Key, s: State, i: nat)
    ensures Aes.AddKey(s, Aes.KeyAt(key, i / 2), i % 2) == AddRoundKey(Aes.Sbox, key, s, i)
  {
    hide Aes.Sbox, Aes.KeyAt, KeyWord, HoldsWord, Plus, Aes.Add;
    forall j | 0 <= j < 16
      ensures Aes.AddKey(s, Aes.KeyAt(key, i / 2), i % 2)[j] == AddRoundKey(Aes.Sbox, key, s, i)[j]
    {
      var n, t := i / 2, 4 * (i % 2) + j / 4;
      KeyIsStandard(key, n, t);
      ByteOfWord(key, n, t, j % 4);
      PlusIsAdd(s[j], KeyWord(Aes.Sbox, key, 4 * i + j / 4)[j % 4]);
      assert 8 * n + t == 4 * i + j / 4 && 4 * t + j % 4 == j + i % 2 * 16;
    }
  }

  lemma ByteOfWord(key: Key, n: nat, t: nat, b: nat)
    requires t < 8 && b < 4 && HoldsWord(key, n, t)
    ensures Aes.KeyAt(key, n)[4 * t + b] == KeyWord(Aes.Sbox, key, 8 * n + t)[b]
  {
    hide Aes.KeyAt, KeyWord;
  }

  /** The state the code has after the round key of round i was added. */
  lemma {:induction false} RoundsAreStandard(key: Key, block: State, i: nat)
    requires i <= 14
    ensures Aes.AddKey(Aes.EncState(key, block, i), Aes.KeyAt(key, i / 2), i % 2) == Rounds(Aes.Sbox, key, block, i)
  {
    hide Aes.Sbox, Aes.KeyAt, Aes.AddKey, AddRoundKey, Aes.ShiftRows, ShiftRows, Aes.SubBytes, SubBytes;
    hide Aes.MixColumns, MixColumns;
    AddKeyIsStandard(key, Aes.EncState(key, block, i), i);
    if i > 0 {
      var before := Rounds(Aes.Sbox, key, block, i - 1);
      RoundsAreStandard(key, block, i - 1);
      SubIsStandard(before);
      ShiftIsStandard(SubBytes(Aes.Sbox, before));
      MixIsStandard(ShiftRows(SubBytes(Aes.Sbox, before)));
    }
  }

  /** Encryption of a block is the cipher of FIPS 197 over the S-box, for every key and block. */
  lemma EncryptIsCipher(key: Key, block: State)
    ensures Aes.EncryptBlock(key, block) == Cipher(Aes.Sbox, key, block)
  {
    hide Aes.Sbox, Aes.KeyAt, Aes.AddKey, Aes.EncState, Rounds;
    RoundsAreStandard(key, block, 14);
  }
}
