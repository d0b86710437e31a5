/** The example of appendix C.3 of FIPS 197: encryption with a key of 32 bytes. */
module AesExample {
  import opened AesTables
  import opened Aes
  import opened AesCipher
  import opened AesContext
  import opened AesStandard

  // ---- the S-box by rows ----

  lemma Row0()
    ensures |SBOX| == 16 && SBOX[0] == [
      0x63, 0x7c, 0x77, 0x7b, 0xf2, 0x6b, 0x6f, 0xc5, 0x30, 0x01, 0x67, 0x2b, 0xfe, 0xd7, 0xab, 0x76]
  {
  }

  lemma Bytes0()
    ensures SubByte(0x00) == 0x63 && SubByte(0x01) == 0x7c && SubByte(0x02) == 0x77 && SubByte(0x03) == 0x7b
    ensures SubByte(0x04) == 0xf2 && SubByte(0x05) == 0x6b && SubByte(0x06) == 0x6f && SubByte(0x07) == 0xc5
    ensures SubByte(0x08) == 0x30 && SubByte(0x09) == 0x01 && SubByte(0x0a) == 0x67 && SubByte(0x0b) == 0x2b
    ensures SubByte(0x0c) == 0xfe && SubByte(0x0d) == 0xd7 && SubByte(0x0e) == 0xab && SubByte(0x0f) == 0x76
  {
    hide SBOX;
    Row0();
  }

  lemma Row1()
    ensures |SBOX| == 16 && SBOX[1] == [
      0xca, 0x82, 0xc9, 0x7d, 0xfa, 0x59, 0x47, 0xf0, 0xad, 0xd4, 0xa2, 0xaf, 0x9c, 0xa4, 0x72, 0xc0]
  {
  }

  lemma Bytes1()
    ensures SubByte(0x10) == 0xca && SubByte(0x11) == 0x82 && SubByte(0x12) == 0xc9 && SubByte(0x13) == 0x7d
    ensures SubByte(0x14) == 0xfa && SubByte(0x15) == 0x59 && SubByte(0x16) == 0x47 && SubByte(0x17) == 0xf0
    ensures SubByte(0x18) == 0xad && SubByte(0x19) == 0xd4 && SubByte(0x1a) == 0xa2 && SubByte(0x1b) == 0xaf
    ensures SubByte(0x1c) == 0x9c && SubByte(0x1d) == 0xa4 && SubByte(0x1e) == 0x72 && SubByte(0x1f) == 0xc0
  {
    hide SBOX;
    Row1();
  }

  lemma Row2()
    ensures |SBOX| == 16 && SBOX[2] == [
      0xb7, 0xfd, 0x93, 0x26, 0x36, 0x3f, 0xf7, 0xcc, 0x34, 0xa5, 0xe5, 0xf1, 0x71, 0xd8, 0x31, 0x15]
  {
  }

  lemma Bytes2()
    ensures SubByte(0x20) == 0xb7 && SubByte(0x21) == 0xfd && SubByte(0x22) == 0x93 && SubByte(0x23) == 0x26
    ensures SubByte(0x24) == 0x36 && SubByte(0x25) == 0x3f && SubByte(0x26) == 0xf7 && SubByte(0x27) == 0xcc
    ensures SubByte(0x28) == 0x34 && SubByte(0x29) == 0xa5 && SubByte(0x2a) == 0xe5 && SubByte(0x2b) == 0xf1
    ensures SubByte(0x2c) == 0x71 && SubByte(0x2d) == 0xd8 && SubByte(0x2e) == 0x31 && SubByte(0x2f) == 0x15
  {
    hide SBOX;
    Row2();
  }

  lemma Row3()
    ensures |SBOX| == 16 && SBOX[3] == [
      0x04, 0xc7, 0x23, 0xc3, 0x18, 0x96, 0x05, 0x9a, 0x07, 0x12, 0x80, 0xe2, 0xeb, 0x27, 0xb2, 0x75]
  {
  }

  lemma Bytes3()
    ensures SubByte(0x30) == 0x04 && SubByte(0x31) == 0xc7 && SubByte(0x32) == 0x23 && SubByte(0x33) == 0xc3
    ensures SubByte(0x34) == 0x18 && SubByte(0x35) == 0x96 && SubByte(0x36) == 0x05 && SubByte(0x37) == 0x9a
    ensures SubByte(0x38) == 0x07 && SubByte(0x39) == 0x12 && SubByte(0x3a) == 0x80 && SubByte(0x3b) == 0xe2
    ensures SubByte(0x3c) == 0xeb && SubByte(0x3d) == 0x27 && SubByte(0x3e) == 0xb2 && SubByte(0x3f) == 0x75
  {
    hide SBOX;
    Row3();
  }

  lemma Row4()
    ensures |SBOX| == 16 && SBOX[4] == [
      0x09, 0x83, 0x2c, 0x1a, 0x1b, 0x6e, 0x5a, 0xa0, 0x52, 0x3b, 0xd6, 0xb3, 0x29, 0xe3, 0x2f, 0x84]
  {
  }

  lemma Bytes4()
    ensures SubByte(0x40) == 0x09 && SubByte(0x41) == 0x83 && SubByte(0x42) == 0x2c && SubByte(0x43) == 0x1a
    ensures SubByte(0x44) == 0x1b && SubByte(0x45) == 0x6e && SubByte(0x46) == 0x5a && SubByte(0x47) == 0xa0
    ensures SubByte(0x48) == 0x52 && SubByte(0x49) == 0x3b && SubByte(0x4a) == 0xd6 && SubByte(0x4b) == 0xb3
    ensures SubByte(0x4c) == 0x29 && SubByte(0x4d) == 0xe3 && SubByte(0x4e) == 0x2f && SubByte(0x4f) == 0x84
  {
    hide SBOX;
    Row4();
  }

  lemma Row5()
    ensures |SBOX| == 16 && SBOX[5] == [
      0x53, 0xd1, 0x00, 0xed, 0x20, 0xfc, 0xb1, 0x5b, 0x6a, 0xcb, 0xbe, 0x39, 0x4a, 0x4c, 0x58, 0xcf]
  {
  }

  lemma Bytes5()
    ensures SubByte(0x50) == 0x53 && SubByte(0x51) == 0xd1 && SubByte(0x52) == 0x00 && SubByte(0x53) == 0xed
    ensures SubByte(0x54) == 0x20 && SubByte(0x55) == 0xfc && SubByte(0x56) == 0xb1 && SubByte(0x57) == 0x5b
    ensures SubByte(0x58) == 0x6a && SubByte(0x59) == 0xcb && SubByte(0x5a) == 0xbe && SubByte(0x5b) == 0x39
    ensures SubByte(0x5c) == 0x4a && SubByte(0x5d) == 0x4c && SubByte(0x5e) == 0x58 && SubByte(0x5f) == 0xcf
  {
    hide SBOX;
    Row5();
  }

  lemma Row6()
    ensures |SBOX| == 16 && SBOX[6] == [
      0xd0, 0xef, 0xaa, 0xfb, 0x43, 0x4d, 0x33, 0x85, 0x45, 0xf9, 0x02, 0x7f, 0x50, 0x3c, 0x9f, 0xa8]
  {
  }

  lemma Bytes6()
    ensures SubByte(0x60) == 0xd0 && SubByte(0x61) == 0xef && SubByte(0x62) == 0xaa && SubByte(0x63) == 0xfb
    ensures SubByte(0x64) == 0x43 && SubByte(0x65) == 0x4d && SubByte(0x66) == 0x33 && SubByte(0x67) == 0x85
    ensures SubByte(0x68) == 0x45 && SubByte(0x69) == 0xf9 && SubByte(0x6a) == 0x02 && SubByte(0x6b) == 0x7f
    ensures SubByte(0x6c) == 0x50 && SubByte(0x6d) == 0x3c && SubByte(0x6e) == 0x9f && SubByte(0x6f) == 0xa8
  {
    hide SBOX;
    Row6();
  }

  lemma Row7()
    ensures |SBOX| == 16 && SBOX[7] == [
      0x51, 0xa3, 0x40, 0x8f, 0x92, 0x9d, 0x38, 0xf5, 0xbc, 0xb6, 0xda, 0x21, 0x10, 0xff, 0xf3, 0xd2]
  {
  }

  lemma Bytes7()
    ensures SubByte(0x70) == 0x51 && SubByte(0x71) == 0xa3 && SubByte(0x72) == 0x40 && SubByte(0x73) == 0x8f
    ensures SubByte(0x74) == 0x92 && SubByte(0x75) == 0x9d && SubByte(0x76) == 0x38 && SubByte(0x77) == 0xf5
    ensures SubByte(0x78) == 0xbc && SubByte(0x79) == 0xb6 && SubByte(0x7a) == 0xda && SubByte(0x7b) == 0x21
    ensures SubByte(0x7c) == 0x10 && SubByte(0x7d) == 0xff && SubByte(0x7e) == 0xf3 && SubByte(0x7f) == 0xd2
  {
    hide SBOX;
    Row7();
  }

  lemma Row8()
    ensures |SBOX| == 16 && SBOX[8] == [
      0xcd, 0x0c, 0x13, 0xec, 0x5f, 0x97, 0x44, 0x17, 0xc4, 0xa7, 0x7e, 0x3d, 0x64, 0x5d, 0x19, 0x73]
  {
  }

  lemma Bytes8()
    ensures SubByte(0x80) == 0xcd && SubByte(0x81) == 0x0c && SubByte(0x82) == 0x13 && SubByte(0x83) == 0xec
    ensures SubByte(0x84) == 0x5f && SubByte(0x85) == 0x97 && SubByte(0x86) == 0x44 && SubByte(0x87) == 0x17
    ensures SubByte(0x88) == 0xc4 && SubByte(0x89) == 0xa7 && SubByte(0x8a) == 0x7e && SubByte(0x8b) == 0x3d
    ensures SubByte(0x8c) == 0x64 && SubByte(0x8d) == 0x5d && SubByte(0x8e) == 0x19 && SubByte(0x8f) == 0x73
  {
    hide SBOX;
    Row8();
  }

  lemma Row9()
    ensures |SBOX| == 16 && SBOX[9] == [
      0x60, 0x81, 0x4f, 0xdc, 0x22, 0x2a, 0x90, 0x88, 0x46, 0xee, 0xb8, 0x14, 0xde, 0x5e, 0x0b, 0xdb]
  {
  }

  lemma Bytes9()
    ensures SubByte(0x90) == 0x60 && SubByte(0x91) == 0x81 && SubByte(0x92) == 0x4f && SubByte(0x93) == 0xdc
    ensures SubByte(0x94) == 0x22 && SubByte(0x95) == 0x2a && SubByte(0x96) == 0x90 && SubByte(0x97) == 0x88
    ensures SubByte(0x98) == 0x46 && SubByte(0x99) == 0xee && SubByte(0x9a) == 0xb8 && SubByte(0x9b) == 0x14
    ensures SubByte(0x9c) == 0xde && SubByte(0x9d) == 0x5e && SubByte(0x9e) == 0x0b && SubByte(0x9f) == 0xdb
  {
    hide SBOX;
    Row9();
  }

  lemma RowA()
    ensures |SBOX| == 16 && SBOX[10] == [
      0xe0, 0x32, 0x3a, 0x0a, 0x49, 0x06, 0x24, 0x5c, 0xc2, 0xd3, 0xac, 0x62, 0x91, 0x95, 0xe4, 0x79]
  {
  }

  lemma BytesA()
    ensures SubByte(0xa0) == 0xe0 && SubByte(0xa1) == 0x32 && SubByte(0xa2) == 0x3a && SubByte(0xa3) == 0x0a
    ensures SubByte(0xa4) == 0x49 && SubByte(0xa5) == 0x06 && SubByte(0xa6) == 0x24 && SubByte(0xa7) == 0x5c
    ensures SubByte(0xa8) == 0xc2 && SubByte(0xa9) == 0xd3 && SubByte(0xaa) == 0xac && SubByte(0xab) == 0x62
    ensures SubByte(0xac) == 0x91 && SubByte(0xad) == 0x95 && SubByte(0xae) == 0xe4 && SubByte(0xaf) == 0x79
  {
    hide SBOX;
    RowA();
  }

  lemma RowB()
    ensures |SBOX| == 16 && SBOX[11] == [
      0xe7, 0xc8, 0x37, 0x6d, 0x8d, 0xd5, 0x4e, 0xa9, 0x6c, 0x56, 0xf4, 0xea, 0x65, 0x7a, 0xae, 0x08]
  {
  }

  lemma BytesB()
    ensures SubByte(0xb0) == 0xe7 && SubByte(0xb1) == 0xc8 && SubByte(0xb2) == 0x37 && SubByte(0xb3) == 0x6d
    ensures SubByte(0xb4) == 0x8d && SubByte(0xb5) == 0xd5 && SubByte(0xb6) == 0x4e && SubByte(0xb7) == 0xa9
    ensures SubByte(0xb8) == 0x6c && SubByte(0xb9) == 0x56 && SubByte(0xba) == 0xf4 && SubByte(0xbb) == 0xea
    ensures SubByte(0xbc) == 0x65 && SubByte(0xbd) == 0x7a && SubByte(0xbe) == 0xae && SubByte(0xbf) == 0x08
  {
    hide SBOX;
    RowB();
  }

  lemma RowC()
    ensures |SBOX| == 16 && SBOX[12] == [
      0xba, 0x78, 0x25, 0x2e, 0x1c, 0xa6, 0xb4, 0xc6, 0xe8, 0xdd, 0x74, 0x1f, 0x4b, 0xbd, 0x8b, 0x8a]
  {
  }

  lemma BytesC()
    ensures SubByte(0xc0) == 0xba && SubByte(0xc1) == 0x78 && SubByte(0xc2) == 0x25 && SubByte(0xc3) == 0x2e
    ensures SubByte(0xc4) == 0x1c && SubByte(0xc5) == 0xa6 && SubByte(0xc6) == 0xb4 && SubByte(0xc7) == 0xc6
    ensures SubByte(0xc8) == 0xe8 && SubByte(0xc9) == 0xdd && SubByte(0xca) == 0x74 && SubByte(0xcb) == 0x1f
    ensures SubByte(0xcc) == 0x4b && SubByte(0xcd) == 0xbd && SubByte(0xce) == 0x8b && SubByte(0xcf) == 0x8a
  {
    hide SBOX;
    RowC();
  }

  lemma RowD()
    ensures |SBOX| == 16 && SBOX[13] == [
      0x70, 0x3e, 0xb5, 0x66, 0x48, 0x03, 0xf6, 0x0e, 0x61, 0x35, 0x57, 0xb9, 0x86, 0xc1, 0x1d, 0x9e]
  {
  }

  lemma BytesD()
    ensures SubByte(0xd0) == 0x70 && SubByte(0xd1) == 0x3e && SubByte(0xd2) == 0xb5 && SubByte(0xd3) == 0x66
    ensures SubByte(0xd4) == 0x48 && SubByte(0xd5) == 0x03 && SubByte(0xd6) == 0xf6 && SubByte(0xd7) == 0x0e
    ensures SubByte(0xd8) == 0x61 && SubByte(0xd9) == 0x35 && SubByte(0xda) == 0x57 && SubByte(0xdb) == 0xb9
    ensures SubByte(0xdc) == 0x86 && SubByte(0xdd) == 0xc1 && SubByte(0xde) == 0x1d && SubByte(0xdf) == 0x9e
  {
    hide SBOX;
    RowD();
  }

  lemma RowE()
    ensures |SBOX| == 16 && SBOX[14] == [
      0xe1, 0xf8, 0x98, 0x11, 0x69, 0xd9, 0x8e, 0x94, 0x9b, 0x1e, 0x87, 0xe9, 0xce, 0x55, 0x28, 0xdf]
  {
  }

  lemma BytesE()
    ensures SubByte(0xe0) == 0xe1 && SubByte(0xe1) == 0xf8 && SubByte(0xe2) == 0x98 && SubByte(0xe3) == 0x11
    ensures SubByte(0xe4) == 0x69 && SubByte(0xe5) == 0xd9 && SubByte(0xe6) == 0x8e && SubByte(0xe7) == 0x94
    ensures SubByte(0xe8) == 0x9b && SubByte(0xe9) == 0x1e && SubByte(0xea) == 0x87 && SubByte(0xeb) == 0xe9
    ensures SubByte(0xec) == 0xce && SubByte(0xed) == 0x55 && SubByte(0xee) == 0x28 && SubByte(0xef) == 0xdf
  {
    hide SBOX;
    RowE();
  }

  lemma RowF()
    ensures |SBOX| == 16 && SBOX[15] == [
      0x8c, 0xa1, 0x89, 0x0d, 0xbf, 0xe6, 0x42, 0x68, 0x41, 0x99, 0x2d, 0x0f, 0xb0, 0x54, 0xbb, 0x16]
  {
  }

  lemma BytesF()
    ensures SubByte(0xf0) == 0x8c && SubByte(0xf1) == 0xa1 && SubByte(0xf2) == 0x89 && SubByte(0xf3) == 0x0d
    ensures SubByte(0xf4) == 0xbf && SubByte(0xf5) == 0xe6 && SubByte(0xf6) == 0x42 && SubByte(0xf7) == 0x68
    ensures SubByte(0xf8) == 0x41 && SubByte(0xf9) == 0x99 && SubByte(0xfa) == 0x2d && SubByte(0xfb) == 0x0f
    ensures SubByte(0xfc) == 0xb0 && SubByte(0xfd) == 0x54 && SubByte(0xfe) == 0xbb && SubByte(0xff) == 0x16
  {
    hide SBOX;
    RowF();
  }

  // ---- the key and its expansion ----

  /** 000102...1f */
  const KEY: seq<bv8> := [
    0x00, 0x01, 0x02, 0x03, 0x04, 0x05, 0x06, 0x07, 0x08, 0x09, 0x0a, 0x0b, 0x0c, 0x0d, 0x0e, 0x0f,
    0x10, 0x11, 0x12, 0x13, 0x14, 0x15, 0x16, 0x17, 0x18, 0x19, 0x1a, 0x1b, 0x1c, 0x1d, 0x1e, 0x1f
  ]

  /** The expanded key in groups of eight words. */
  const GROUPS: seq<seq<Word>> := [
    [
      Word(0x00, 0x01, 0x02, 0x03), Word(0x04, 0x05, 0x06, 0x07),
      Word(0x08, 0x09, 0x0a, 0x0b), Word(0x0c, 0x0d, 0x0e, 0x0f),
      Word(0x10, 0x11, 0x12, 0x13), Word(0x14, 0x15, 0x16, 0x17),
      Word(0x18, 0x19, 0x1a, 0x1b), Word(0x1c, 0x1d, 0x1e, 0x1f)
    ],
    [
      Word(0xa5, 0x73, 0xc2, 0x9f), Word(0xa1, 0x76, 0xc4, 0x98),
      Word(0xa9, 0x7f, 0xce, 0x93), Word(0xa5, 0x72, 0xc0, 0x9c),
      Word(0x16, 0x51, 0xa8, 0xcd), Word(0x02, 0x44, 0xbe, 0xda),
      Word(0x1a, 0x5d, 0xa4, 0xc1), Word(0x06, 0x40, 0xba, 0xde)
    ],
    [
      Word(0xae, 0x87, 0xdf, 0xf0), Word(0x0f, 0xf1, 0x1b, 0x68),
      Word(0xa6, 0x8e, 0xd5, 0xfb), Word(0x03, 0xfc, 0x15, 0x67),
      Word(0x6d, 0xe1, 0xf1, 0x48), Word(0x6f, 0xa5, 0x4f, 0x92),
      Word(0x75, 0xf8, 0xeb, 0x53), Word(0x73, 0xb8, 0x51, 0x8d)
    ],
    [
      Word(0xc6, 0x56, 0x82, 0x7f), Word(0xc9, 0xa7, 0x99, 0x17),
      Word(0x6f, 0x29, 0x4c, 0xec), Word(0x6c, 0xd5, 0x59, 0x8b),
      Word(0x3d, 0xe2, 0x3a, 0x75), Word(0x52, 0x47, 0x75, 0xe7),
      Word(0x27, 0xbf, 0x9e, 0xb4), Word(0x54, 0x07, 0xcf, 0x39)
    ],
    [
      Word(0x0b, 0xdc, 0x90, 0x5f), Word(0xc2, 0x7b, 0x09, 0x48),
      Word(0xad, 0x52, 0x45, 0xa4), Word(0xc1, 0x87, 0x1c, 0x2f),
      Word(0x45, 0xf5, 0xa6, 0x60), Word(0x17, 0xb2, 0xd3, 0x87),
      Word(0x30, 0x0d, 0x4d, 0x33), Word(0x64, 0x0a, 0x82, 0x0a)
    ],
    [
      Word(0x7c, 0xcf, 0xf7, 0x1c), Word(0xbe, 0xb4, 0xfe, 0x54),
      Word(0x13, 0xe6, 0xbb, 0xf0), Word(0xd2, 0x61, 0xa7, 0xdf),
      Word(0xf0, 0x1a, 0xfa, 0xfe), Word(0xe7, 0xa8, 0x29, 0x79),
      Word(0xd7, 0xa5, 0x64, 0x4a), Word(0xb3, 0xaf, 0xe6, 0x40)
    ],
    [
      Word(0x25, 0x41, 0xfe, 0x71), Word(0x9b, 0xf5, 0x00, 0x25),
      Word(0x88, 0x13, 0xbb, 0xd5), Word(0x5a, 0x72, 0x1c, 0x0a),
      Word(0x4e, 0x5a, 0x66, 0x99), Word(0xa9, 0xf2, 0x4f, 0xe0),
      Word(0x7e, 0x57, 0x2b, 0xaa), Word(0xcd, 0xf8, 0xcd, 0xea)
    ],
    [
      Word(0x24, 0xfc, 0x79, 0xcc), Word(0xbf, 0x09, 0x79, 0xe9),
      Word(0x37, 0x1a, 0xc2, 0x3c), Word(0x6d, 0x68, 0xde, 0x36)
    ]
  ]

  lemma GroupLengths()
    ensures |GROUPS| == 8 && (forall g :: 0 <= g < 7 ==> |GROUPS[g]| == 8) && |GROUPS[7]| == 4
  {
  }

  ghost predicate Follows(g: nat)
    requires 1 <= g < 8
  {
    GroupLengths();
    |RCON| == 10 && NextGroup(8, RCON[g - 1], GROUPS[g - 1], GROUPS[g])
  }

  lemma Group1()
    ensures Follows(1)
  {
    hide SubByte;
    Bytes1(); Bytes7(); Bytes9(); BytesA(); BytesC();
    assert SubWord(Word(0x1d, 0x1e, 0x1f, 0x1c)) == Word(0xa4, 0x72, 0xc0, 0x9c);
    assert SubWord(Word(0xa5, 0x72, 0xc0, 0x9c)) == Word(0x06, 0x40, 0xba, 0xde);
  }

  lemma Group2()
    ensures Follows(2)
  {
    hide SubByte;
    Bytes0(); Bytes1(); Bytes4(); Bytes6(); BytesB(); BytesD();
    BytesF();
    assert SubWord(Word(0x40, 0xba, 0xde, 0x06)) == Word(0x09, 0xf4, 0x1d, 0x6f);
    assert SubWord(Word(0x03, 0xfc, 0x15, 0x67)) == Word(0x7b, 0xb0, 0x59, 0x85);
  }

  lemma Group3()
    ensures Follows(3)
  {
    hide SubByte;
    Bytes5(); Bytes6(); Bytes7(); Bytes8(); BytesB(); BytesD();
    assert SubWord(Word(0xb8, 0x51, 0x8d, 0x73)) == Word(0x6c, 0xd1, 0x5d, 0x8f);
    assert SubWord(Word(0x6c, 0xd5, 0x59, 0x8b)) == Word(0x50, 0x03, 0xcb, 0x3d);
  }

  lemma Group4()
    ensures Follows(4)
  {
    hide SubByte;
    Bytes0(); Bytes1(); Bytes2(); Bytes3(); Bytes5(); Bytes8();
    BytesC();
    assert SubWord(Word(0x07, 0xcf, 0x39, 0x54)) == Word(0xc5, 0x8a, 0x12, 0x20);
    assert SubWord(Word(0xc1, 0x87, 0x1c, 0x2f)) == Word(0x78, 0x17, 0x9c, 0x15);
  }

  lemma Group5()
    ensures Follows(5)
  {
    hide SubByte;
    Bytes0(); Bytes6(); Bytes8(); BytesA(); BytesD();
    assert SubWord(Word(0x0a, 0x82, 0x0a, 0x64)) == Word(0x67, 0x13, 0x67, 0x43);
    assert SubWord(Word(0xd2, 0x61, 0xa7, 0xdf)) == Word(0xb5, 0xef, 0x5c, 0x9e);
  }

  lemma Group6()
    ensures Follows(6)
  {
    hide SubByte;
    Bytes0(); Bytes1(); Bytes4(); Bytes5(); Bytes7(); BytesA();
    BytesB(); BytesE();
    assert SubWord(Word(0xaf, 0xe6, 0x40, 0xb3)) == Word(0x79, 0x8e, 0x09, 0x6d);
    assert SubWord(Word(0x5a, 0x72, 0x1c, 0x0a)) == Word(0xbe, 0x40, 0x9c, 0x67);
  }

  lemma Group7()
    ensures Follows(7)
  {
    hide SubByte;
    BytesC(); BytesE(); BytesF();
    assert SubWord(Word(0xf8, 0xcd, 0xea, 0xcd)) == Word(0x41, 0xbd, 0x87, 0xbd);
  }

  lemma GroupFollows(g: nat)
    requires 1 <= g < 8
    ensures Follows(g)
  {
    hide Follows;
    Group1();
    Group2();
    Group3();
    Group4();
    Group5();
    Group6();
    Group7();
    assert g == 1 || g == 2 || g == 3 || g == 4 || g == 5 || g == 6 || g == 7;
  }

  lemma KeyWords0()
    ensures |KEY| == 32 && LeWord(KEY, 0) == Word(0x00, 0x01, 0x02, 0x03) && LeWord(KEY, 4)
      == Word(0x04, 0x05, 0x06, 0x07)
  {
  }

  lemma KeyWords2()
    ensures |KEY| == 32 && LeWord(KEY, 8) == Word(0x08, 0x09, 0x0a, 0x0b) && LeWord(KEY, 12)
      == Word(0x0c, 0x0d, 0x0e, 0x0f)
  {
  }

  lemma KeyWords4()
    ensures |KEY| == 32 && LeWord(KEY, 16) == Word(0x10, 0x11, 0x12, 0x13) && LeWord(KEY, 20)
      == Word(0x14, 0x15, 0x16, 0x17)
  {
  }

  lemma KeyWords6()
    ensures |KEY| == 32 && LeWord(KEY, 24) == Word(0x18, 0x19, 0x1a, 0x1b) && LeWord(KEY, 28)
      == Word(0x1c, 0x1d, 0x1e, 0x1f)
  {
  }

  lemma OwnGroup(j: nat)
    requires j < 8
    ensures |KEY| == 32 && |GROUPS| == 8 && |GROUPS[0]| == 8 && KeyWord(KEY, 8, j) == GROUPS[0][j]
  {
    hide KEY, LeWord;
    KeyWords0();
    KeyWords2();
    KeyWords4();
    KeyWords6();
    FirstWords(KEY, 8, j);
    FirstGroup();
    assert j == 0 || j == 1 || j == 2 || j == 3 || j == 4 || j == 5 || j == 6 || j == 7;
  }

  lemma FirstGroup()
    ensures |GROUPS| == 8 && GROUPS[0] == [
      Word(0x00, 0x01, 0x02, 0x03), Word(0x04, 0x05, 0x06, 0x07),
      Word(0x08, 0x09, 0x0a, 0x0b), Word(0x0c, 0x0d, 0x0e, 0x0f),
      Word(0x10, 0x11, 0x12, 0x13), Word(0x14, 0x15, 0x16, 0x17),
      Word(0x18, 0x19, 0x1a, 0x1b), Word(0x1c, 0x1d, 0x1e, 0x1f)
    ]
  {
  }

  /** The expansion of the key. */
  lemma {:induction false} Expansion(g: nat, j: nat)
    requires g < 8 && j < 8 && (g == 7 ==> j < 4)
    ensures |KEY| == 32 && |GROUPS| == 8 && j < |GROUPS[g]| && KeyWord(KEY, 8, 8 * g + j) == GROUPS[g][j]
    decreases g
  {
    hide KEY, GROUPS, KeyWord, NextGroup;
    GroupLengths();
    KeyWords0();
    if g == 0 {
      OwnGroup(j);
    } else {
      GroupFollows(g);
      var p := GROUPS[g - 1];
      forall m: nat | m < 8 ensures KeyWord(KEY, 8, 8 * g - 8 + m) == p[m] {
        Expansion(g - 1, m);
        assert 8 * (g - 1) + m == 8 * g - 8 + m;
      }
      GroupExpands(KEY, 8, g, 8 * g, p, GROUPS[g], j);
    }
  }

  // ---- the rounds ----

  /** The states after the first key addition and after each round, ... */
  const STATES: seq<Block> := [
    Block(Word(0x00, 0x10, 0x20, 0x30), Word(0x40, 0x50, 0x60, 0x70),
          Word(0x80, 0x90, 0xa0, 0xb0), Word(0xc0, 0xd0, 0xe0, 0xf0)),
    Block(Word(0x4f, 0x63, 0x76, 0x06), Word(0x43, 0xe0, 0xaa, 0x85),
          Word(0xef, 0xa7, 0x21, 0x32), Word(0x01, 0xa4, 0xe7, 0x05)),
    Block(Word(0x18, 0x59, 0xfb, 0xc2), Word(0x8a, 0x1c, 0x00, 0xa0),
          Word(0x78, 0xed, 0x8a, 0xad), Word(0xc4, 0x2f, 0x61, 0x09)),
    Block(Word(0x97, 0x5c, 0x66, 0xc1), Word(0xcb, 0x9f, 0x3f, 0xa8),
          Word(0xa9, 0x3a, 0x28, 0xdf), Word(0x8e, 0xe1, 0x0f, 0x63)),
    Block(Word(0x1c, 0x05, 0xf2, 0x71), Word(0xa4, 0x17, 0xe0, 0x4f),
          Word(0xf9, 0x21, 0xc5, 0xc1), Word(0x04, 0x70, 0x15, 0x54)),
    Block(Word(0xc3, 0x57, 0xaa, 0xe1), Word(0x1b, 0x45, 0xb7, 0xb0),
          Word(0xa2, 0xc7, 0xbd, 0x28), Word(0xa8, 0xdc, 0x99, 0xfa)),
    Block(Word(0x7f, 0x07, 0x41, 0x43), Word(0xcb, 0x4e, 0x24, 0x3e),
          Word(0xc1, 0x0c, 0x81, 0x5d), Word(0x83, 0x75, 0xd5, 0x4c)),
    Block(Word(0xd6, 0x53, 0xa4, 0x69), Word(0x6c, 0xa0, 0xbc, 0x0f),
          Word(0x5a, 0xca, 0xab, 0x5d), Word(0xb9, 0x6c, 0x5e, 0x7d)),
    Block(Word(0x5a, 0xa8, 0x58, 0x39), Word(0x5f, 0xd2, 0x8d, 0x7d),
          Word(0x05, 0xe1, 0xa3, 0x88), Word(0x68, 0xf3, 0xb9, 0xc5)),
    Block(Word(0x4a, 0x82, 0x48, 0x51), Word(0xc5, 0x7e, 0x7e, 0x47),
          Word(0x64, 0x3d, 0xe5, 0x0c), Word(0x2a, 0xf3, 0xe8, 0xc9)),
    Block(Word(0xc1, 0x49, 0x07, 0xf6), Word(0xca, 0x3b, 0x3a, 0xa0),
          Word(0x70, 0xe9, 0xaa, 0x31), Word(0x3b, 0x52, 0xb5, 0xec)),
    Block(Word(0x5f, 0x9c, 0x6a, 0xbf), Word(0xba, 0xc6, 0x34, 0xaa),
          Word(0x50, 0x40, 0x9f, 0xa7), Word(0x66, 0x67, 0x76, 0x53)),
    Block(Word(0x51, 0x66, 0x04, 0x95), Word(0x43, 0x53, 0x95, 0x03),
          Word(0x14, 0xfb, 0x86, 0xe4), Word(0x01, 0x92, 0x25, 0x21)),
    Block(Word(0x62, 0x7b, 0xce, 0xb9), Word(0x99, 0x9d, 0x5a, 0xaa),
          Word(0xc9, 0x45, 0xec, 0xf4), Word(0x23, 0xf5, 0x6d, 0xa5))
  ]

  /** ... in each round after SubBytes and ShiftRows, ... */
  const SHIFTED: seq<Block> := [
    Block(Word(0x63, 0x53, 0xe0, 0x8c), Word(0x09, 0x60, 0xe1, 0x04),
          Word(0xcd, 0x70, 0xb7, 0x51), Word(0xba, 0xca, 0xd0, 0xe7)),
    Block(Word(0x84, 0xe1, 0xfd, 0x6b), Word(0x1a, 0x5c, 0x94, 0x6f),
          Word(0xdf, 0x49, 0x38, 0x97), Word(0x7c, 0xfb, 0xac, 0x23)),
    Block(Word(0xad, 0x9c, 0x7e, 0x01), Word(0x7e, 0x55, 0xef, 0x25),
          Word(0xbc, 0x15, 0x0f, 0xe0), Word(0x1c, 0xcb, 0x63, 0x95)),
    Block(Word(0x88, 0xdb, 0x34, 0xfb), Word(0x1f, 0x80, 0x76, 0x78),
          Word(0xd3, 0xf8, 0x33, 0xc2), Word(0x19, 0x4a, 0x75, 0x9e)),
    Block(Word(0x9c, 0xf0, 0xa6, 0x20), Word(0x49, 0xfd, 0x59, 0xa3),
          Word(0x99, 0x51, 0x89, 0x84), Word(0xf2, 0x6b, 0xe1, 0x78)),
    Block(Word(0x2e, 0x6e, 0x7a, 0x2d), Word(0xaf, 0xc6, 0xee, 0xf8),
          Word(0x3a, 0x86, 0xac, 0xe7), Word(0xc2, 0x5b, 0xa9, 0x34)),
    Block(Word(0xd2, 0x2f, 0x0c, 0x29), Word(0x1f, 0xfe, 0x03, 0x1a),
          Word(0x78, 0x9d, 0x83, 0xb2), Word(0xec, 0xc5, 0x36, 0x4c)),
    Block(Word(0xf6, 0xe0, 0x62, 0xff), Word(0x50, 0x74, 0x58, 0xf9),
          Word(0xbe, 0x50, 0x49, 0x76), Word(0x56, 0xed, 0x65, 0x4c)),
    Block(Word(0xbe, 0xb5, 0x0a, 0xa6), Word(0xcf, 0xf8, 0x56, 0x12),
          Word(0x6b, 0x0d, 0x6a, 0xff), Word(0x45, 0xc2, 0x5d, 0xc4)),
    Block(Word(0xd6, 0xf3, 0xd9, 0xdd), Word(0xa6, 0x27, 0x9b, 0xd1),
          Word(0x43, 0x0d, 0x52, 0xa0), Word(0xe5, 0x13, 0xf3, 0xfe)),
    Block(Word(0x78, 0xe2, 0xac, 0xce), Word(0x74, 0x1e, 0xd5, 0x42),
          Word(0x51, 0x00, 0xc5, 0xe0), Word(0xe2, 0x3b, 0x80, 0xc7)),
    Block(Word(0xcf, 0xb4, 0xdb, 0xed), Word(0xf4, 0x09, 0x38, 0x08),
          Word(0x53, 0x85, 0x02, 0xac), Word(0x33, 0xde, 0x18, 0x5c)),
    Block(Word(0xd1, 0xed, 0x44, 0xfd), Word(0x1a, 0x0f, 0x3f, 0x2a),
          Word(0xfa, 0x4f, 0xf2, 0x7b), Word(0x7c, 0x33, 0x2a, 0x69)),
    Block(Word(0xaa, 0x5e, 0xce, 0x06), Word(0xee, 0x6e, 0x3c, 0x56),
          Word(0xdd, 0xe6, 0x8b, 0xac), Word(0x26, 0x21, 0xbe, 0xbf))
  ]

  /** ... and after MixColumns. */
  const MIXED: seq<Block> := [
    Block(Word(0x5f, 0x72, 0x64, 0x15), Word(0x57, 0xf5, 0xbc, 0x92),
          Word(0xf7, 0xbe, 0x3b, 0x29), Word(0x1d, 0xb9, 0xf9, 0x1a)),
    Block(Word(0xbd, 0x2a, 0x39, 0x5d), Word(0x2b, 0x6a, 0xc4, 0x38),
          Word(0xd1, 0x92, 0x44, 0x3e), Word(0x61, 0x5d, 0xa1, 0x95)),
    Block(Word(0x81, 0x0d, 0xce, 0x0c), Word(0xc9, 0xdb, 0x81, 0x72),
          Word(0xb3, 0x67, 0x8c, 0x1e), Word(0x88, 0xa1, 0xb5, 0xbd)),
    Block(Word(0xb2, 0x82, 0x2d, 0x81), Word(0xab, 0xe6, 0xfb, 0x27),
          Word(0x5f, 0xaf, 0x10, 0x3a), Word(0x07, 0x8c, 0x00, 0x33)),
    Block(Word(0xae, 0xb6, 0x5b, 0xa9), Word(0x74, 0xe0, 0xf8, 0x22),
          Word(0xd7, 0x3f, 0x56, 0x7b), Word(0xdb, 0x64, 0xc8, 0x77)),
    Block(Word(0xb9, 0x51, 0xc3, 0x3c), Word(0x02, 0xe9, 0xbd, 0x29),
          Word(0xae, 0x25, 0xcd, 0xb1), Word(0xef, 0xa0, 0x8c, 0xc7)),
    Block(Word(0xeb, 0xb1, 0x9e, 0x1c), Word(0x3e, 0xe7, 0xc9, 0xe8),
          Word(0x7d, 0x75, 0x35, 0xe9), Word(0xed, 0x6b, 0x91, 0x44)),
    Block(Word(0x51, 0x74, 0xc8, 0x66), Word(0x9d, 0xa9, 0x84, 0x35),
          Word(0xa8, 0xb3, 0xe6, 0x2c), Word(0xa9, 0x74, 0xa5, 0xea)),
    Block(Word(0x0f, 0x77, 0xee, 0x31), Word(0xd2, 0xcc, 0xad, 0xc0),
          Word(0x54, 0x30, 0xa8, 0x3f), Word(0x4e, 0xf9, 0x6a, 0xc3)),
    Block(Word(0xbd, 0x86, 0xf0, 0xea), Word(0x74, 0x8f, 0xc4, 0xf4),
          Word(0x63, 0x0f, 0x11, 0xc1), Word(0xe9, 0x33, 0x12, 0x33)),
    Block(Word(0xaf, 0x86, 0x90, 0x41), Word(0x5d, 0x6e, 0x1d, 0xd3),
          Word(0x87, 0xe5, 0xfb, 0xed), Word(0xd5, 0xc8, 0x90, 0x13)),
    Block(Word(0x74, 0x27, 0xfa, 0xe4), Word(0xd8, 0xa6, 0x95, 0x26),
          Word(0x9c, 0xe8, 0x3d, 0x31), Word(0x5b, 0xe0, 0x39, 0x2b)),
    Block(Word(0x2c, 0x21, 0xa8, 0x20), Word(0x30, 0x6f, 0x15, 0x4a),
          Word(0xb7, 0x12, 0xc7, 0x5e), Word(0xee, 0x0d, 0xa0, 0x4f))
  ]

  lemma TraceLengths()
    ensures |STATES| == 14 && |SHIFTED| == 14 && |MIXED| == 13
  {
  }

  /** Subkey r, in the groups. */
  function Subkey(r: nat): Block
    requires r < 15
  {
    GroupLengths();
    var g, i := GROUPS[r / 2], 4 * (r % 2);
    Block(g[i], g[i + 1], g[i + 2], g[i + 3])
  }

  predicate ShiftFollows(r: nat)
    requires r < 14
  {
    TraceLengths();
    SubShift(STATES[r]) == SHIFTED[r]
  }

  predicate MixFollows(r: nat)
    requires r < 13
  {
    TraceLengths();
    MixB(SHIFTED[r]) == MIXED[r]
  }

  predicate AddFollows(r: nat)
    requires r < 13
  {
    TraceLengths();
    XorB(MIXED[r], Subkey(r + 1)) == STATES[r + 1]
  }

  lemma Shift0()
    ensures ShiftFollows(0)
  {
    hide SubByte;
    Bytes0(); Bytes1(); Bytes2(); Bytes3(); Bytes4(); Bytes5();
    Bytes6(); Bytes7(); Bytes8(); Bytes9(); BytesA(); BytesB();
    BytesC(); BytesD(); BytesE(); BytesF();
  }

  lemma Shift1()
    ensures ShiftFollows(1)
  {
    hide SubByte;
    Bytes0(); Bytes2(); Bytes3(); Bytes4(); Bytes6(); Bytes7();
    Bytes8(); BytesA(); BytesE();
  }

  lemma Shift2()
    ensures ShiftFollows(2)
  {
    hide SubByte;
    Bytes0(); Bytes1(); Bytes2(); Bytes5(); Bytes6(); Bytes7();
    Bytes8(); BytesA(); BytesC(); BytesE(); BytesF();
  }

  lemma Shift3()
    ensures ShiftFollows(3)
  {
    hide SubByte;
    Bytes0(); Bytes2(); Bytes3(); Bytes5(); Bytes6(); Bytes8();
    Bytes9(); BytesA(); BytesC(); BytesD(); BytesE();
  }

  lemma Shift4()
    ensures ShiftFollows(4)
  {
    hide SubByte;
    Bytes0(); Bytes1(); Bytes2(); Bytes4(); Bytes5(); Bytes7();
    BytesA(); BytesC(); BytesE(); BytesF();
  }

  lemma Shift5()
    ensures ShiftFollows(5)
  {
    hide SubByte;
    Bytes1(); Bytes2(); Bytes4(); Bytes5(); Bytes9(); BytesA();
    BytesB(); BytesC(); BytesD(); BytesE(); BytesF();
  }

  lemma Shift6()
    ensures ShiftFollows(6)
  {
    hide SubByte;
    Bytes0(); Bytes2(); Bytes3(); Bytes4(); Bytes5(); Bytes7();
    Bytes8(); BytesC(); BytesD();
  }

  lemma Shift7()
    ensures ShiftFollows(7)
  {
    hide SubByte;
    Bytes0(); Bytes5(); Bytes6(); Bytes7(); BytesA(); BytesB();
    BytesC(); BytesD();
  }

  lemma Shift8()
    ensures ShiftFollows(8)
  {
    hide SubByte;
    Bytes0(); Bytes3(); Bytes5(); Bytes6(); Bytes7(); Bytes8();
    BytesA(); BytesB(); BytesC(); BytesD(); BytesE(); BytesF();
  }

  lemma Shift9()
    ensures ShiftFollows(9)
  {
    hide SubByte;
    Bytes0(); Bytes2(); Bytes3(); Bytes4(); Bytes5(); Bytes6();
    Bytes7(); Bytes8(); BytesC(); BytesE(); BytesF();
  }

  lemma Shift10()
    ensures ShiftFollows(10)
  {
    hide SubByte;
    Bytes0(); Bytes3(); Bytes4(); Bytes5(); Bytes7(); BytesA();
    BytesB(); BytesC(); BytesE(); BytesF();
  }

  lemma Shift11()
    ensures ShiftFollows(11)
  {
    hide SubByte;
    Bytes3(); Bytes4(); Bytes5(); Bytes6(); Bytes7(); Bytes9();
    BytesA(); BytesB(); BytesC();
  }

  lemma Shift12()
    ensures ShiftFollows(12)
  {
    hide SubByte;
    Bytes0(); Bytes1(); Bytes2(); Bytes4(); Bytes5(); Bytes6();
    Bytes8(); Bytes9(); BytesE(); BytesF();
  }

  lemma Shift13()
    ensures ShiftFollows(13)
  {
    hide SubByte;
    Bytes2(); Bytes4(); Bytes5(); Bytes6(); Bytes7(); Bytes9();
    BytesA(); BytesB(); BytesC(); BytesE(); BytesF();
  }

  lemma Mix0()
    ensures MixFollows(0)
  {
    assert MixCol(Word(0x63, 0x53, 0xe0, 0x8c)) == Word(0x5f, 0x72, 0x64, 0x15);
    assert MixCol(Word(0x09, 0x60, 0xe1, 0x04)) == Word(0x57, 0xf5, 0xbc, 0x92);
    assert MixCol(Word(0xcd, 0x70, 0xb7, 0x51)) == Word(0xf7, 0xbe, 0x3b, 0x29);
    assert MixCol(Word(0xba, 0xca, 0xd0, 0xe7)) == Word(0x1d, 0xb9, 0xf9, 0x1a);
  }

  lemma Mix1()
    ensures MixFollows(1)
  {
    assert MixCol(Word(0x84, 0xe1, 0xfd, 0x6b)) == Word(0xbd, 0x2a, 0x39, 0x5d);
    assert MixCol(Word(0x1a, 0x5c, 0x94, 0x6f)) == Word(0x2b, 0x6a, 0xc4, 0x38);
    assert MixCol(Word(0xdf, 0x49, 0x38, 0x97)) == Word(0xd1, 0x92, 0x44, 0x3e);
    assert MixCol(Word(0x7c, 0xfb, 0xac, 0x23)) == Word(0x61, 0x5d, 0xa1, 0x95);
  }

  lemma Mix2()
    ensures MixFollows(2)
  {
    assert MixCol(Word(0xad, 0x9c, 0x7e, 0x01)) == Word(0x81, 0x0d, 0xce, 0x0c);
    assert MixCol(Word(0x7e, 0x55, 0xef, 0x25)) == Word(0xc9, 0xdb, 0x81, 0x72);
    assert MixCol(Word(0xbc, 0x15, 0x0f, 0xe0)) == Word(0xb3, 0x67, 0x8c, 0x1e);
    assert MixCol(Word(0x1c, 0xcb, 0x63, 0x95)) == Word(0x88, 0xa1, 0xb5, 0xbd);
  }

  lemma Mix3()
    ensures MixFollows(3)
  {
    assert MixCol(Word(0x88, 0xdb, 0x34, 0xfb)) == Word(0xb2, 0x82, 0x2d, 0x81);
    assert MixCol(Word(0x1f, 0x80, 0x76, 0x78)) == Word(0xab, 0xe6, 0xfb, 0x27);
    assert MixCol(Word(0xd3, 0xf8, 0x33, 0xc2)) == Word(0x5f, 0xaf, 0x10, 0x3a);
    assert MixCol(Word(0x19, 0x4a, 0x75, 0x9e)) == Word(0x07, 0x8c, 0x00, 0x33);
  }

  lemma Mix4()
    ensures MixFollows(4)
  {
    assert MixCol(Word(0x9c, 0xf0, 0xa6, 0x20)) == Word(0xae, 0xb6, 0x5b, 0xa9);
    assert MixCol(Word(0x49, 0xfd, 0x59, 0xa3)) == Word(0x74, 0xe0, 0xf8, 0x22);
    assert MixCol(Word(0x99, 0x51, 0x89, 0x84)) == Word(0xd7, 0x3f, 0x56, 0x7b);
    assert MixCol(Word(0xf2, 0x6b, 0xe1, 0x78)) == Word(0xdb, 0x64, 0xc8, 0x77);
  }

  lemma Mix5()
    ensures MixFollows(5)
  {
    assert MixCol(Word(0x2e, 0x6e, 0x7a, 0x2d)) == Word(0xb9, 0x51, 0xc3, 0x3c);
    assert MixCol(Word(0xaf, 0xc6, 0xee, 0xf8)) == Word(0x02, 0xe9, 0xbd, 0x29);
    assert MixCol(Word(0x3a, 0x86, 0xac, 0xe7)) == Word(0xae, 0x25, 0xcd, 0xb1);
    assert MixCol(Word(0xc2, 0x5b, 0xa9, 0x34)) == Word(0xef, 0xa0, 0x8c, 0xc7);
  }

  lemma Mix6()
    ensures MixFollows(6)
  {
    assert MixCol(Word(0xd2, 0x2f, 0x0c, 0x29)) == Word(0xeb, 0xb1, 0x9e, 0x1c);
    assert MixCol(Word(0x1f, 0xfe, 0x03, 0x1a)) == Word(0x3e, 0xe7, 0xc9, 0xe8);
    assert MixCol(Word(0x78, 0x9d, 0x83, 0xb2)) == Word(0x7d, 0x75, 0x35, 0xe9);
    assert MixCol(Word(0xec, 0xc5, 0x36, 0x4c)) == Word(0xed, 0x6b, 0x91, 0x44);
  }

  lemma Mix7()
    ensures MixFollows(7)
  {
    assert MixCol(Word(0xf6, 0xe0, 0x62, 0xff)) == Word(0x51, 0x74, 0xc8, 0x66);
    assert MixCol(Word(0x50, 0x74, 0x58, 0xf9)) == Word(0x9d, 0xa9, 0x84, 0x35);
    assert MixCol(Word(0xbe, 0x50, 0x49, 0x76)) == Word(0xa8, 0xb3, 0xe6, 0x2c);
    assert MixCol(Word(0x56, 0xed, 0x65, 0x4c)) == Word(0xa9, 0x74, 0xa5, 0xea);
  }

  lemma Mix8()
    ensures MixFollows(8)
  {
    assert MixCol(Word(0xbe, 0xb5, 0x0a, 0xa6)) == Word(0x0f, 0x77, 0xee, 0x31);
    assert MixCol(Word(0xcf, 0xf8, 0x56, 0x12)) == Word(0xd2, 0xcc, 0xad, 0xc0);
    assert MixCol(Word(0x6b, 0x0d, 0x6a, 0xff)) == Word(0x54, 0x30, 0xa8, 0x3f);
    assert MixCol(Word(0x45, 0xc2, 0x5d, 0xc4)) == Word(0x4e, 0xf9, 0x6a, 0xc3);
  }

  lemma Mix9()
    ensures MixFollows(9)
  {
    assert MixCol(Word(0xd6, 0xf3, 0xd9, 0xdd)) == Word(0xbd, 0x86, 0xf0, 0xea);
    assert MixCol(Word(0xa6, 0x27, 0x9b, 0xd1)) == Word(0x74, 0x8f, 0xc4, 0xf4);
    assert MixCol(Word(0x43, 0x0d, 0x52, 0xa0)) == Word(0x63, 0x0f, 0x11, 0xc1);
    assert MixCol(Word(0xe5, 0x13, 0xf3, 0xfe)) == Word(0xe9, 0x33, 0x12, 0x33);
  }

  lemma Mix10()
    ensures MixFollows(10)
  {
    assert MixCol(Word(0x78, 0xe2, 0xac, 0xce)) == Word(0xaf, 0x86, 0x90, 0x41);
    assert MixCol(Word(0x74, 0x1e, 0xd5, 0x42)) == Word(0x5d, 0x6e, 0x1d, 0xd3);
    assert MixCol(Word(0x51, 0x00, 0xc5, 0xe0)) == Word(0x87, 0xe5, 0xfb, 0xed);
    assert MixCol(Word(0xe2, 0x3b, 0x80, 0xc7)) == Word(0xd5, 0xc8, 0x90, 0x13);
  }

  lemma Mix11()
    ensures MixFollows(11)
  {
    assert MixCol(Word(0xcf, 0xb4, 0xdb, 0xed)) == Word(0x74, 0x27, 0xfa, 0xe4);
    assert MixCol(Word(0xf4, 0x09, 0x38, 0x08)) == Word(0xd8, 0xa6, 0x95, 0x26);
    assert MixCol(Word(0x53, 0x85, 0x02, 0xac)) == Word(0x9c, 0xe8, 0x3d, 0x31);
    assert MixCol(Word(0x33, 0xde, 0x18, 0x5c)) == Word(0x5b, 0xe0, 0x39, 0x2b);
  }

  lemma Mix12()
    ensures MixFollows(12)
  {
    assert MixCol(Word(0xd1, 0xed, 0x44, 0xfd)) == Word(0x2c, 0x21, 0xa8, 0x20);
    assert MixCol(Word(0x1a, 0x0f, 0x3f, 0x2a)) == Word(0x30, 0x6f, 0x15, 0x4a);
    assert MixCol(Word(0xfa, 0x4f, 0xf2, 0x7b)) == Word(0xb7, 0x12, 0xc7, 0x5e);
    assert MixCol(Word(0x7c, 0x33, 0x2a, 0x69)) == Word(0xee, 0x0d, 0xa0, 0x4f);
  }

  lemma Xors0()
    ensures XorW(Word(0x5f, 0x72, 0x64, 0x15), Word(0x10, 0x11, 0x12, 0x13)) == Word(0x4f, 0x63, 0x76, 0x06)
    ensures XorW(Word(0x57, 0xf5, 0xbc, 0x92), Word(0x14, 0x15, 0x16, 0x17)) == Word(0x43, 0xe0, 0xaa, 0x85)
    ensures XorW(Word(0xf7, 0xbe, 0x3b, 0x29), Word(0x18, 0x19, 0x1a, 0x1b)) == Word(0xef, 0xa7, 0x21, 0x32)
    ensures XorW(Word(0x1d, 0xb9, 0xf9, 0x1a), Word(0x1c, 0x1d, 0x1e, 0x1f)) == Word(0x01, 0xa4, 0xe7, 0x05)
  {
  }

  lemma Add0()
    ensures AddFollows(0)
  {
    hide XorW;
    Xors0();
  }

  lemma Xors1()
    ensures XorW(Word(0xbd, 0x2a, 0x39, 0x5d), Word(0xa5, 0x73, 0xc2, 0x9f)) == Word(0x18, 0x59, 0xfb, 0xc2)
    ensures XorW(Word(0x2b, 0x6a, 0xc4, 0x38), Word(0xa1, 0x76, 0xc4, 0x98)) == Word(0x8a, 0x1c, 0x00, 0xa0)
    ensures XorW(Word(0xd1, 0x92, 0x44, 0x3e), Word(0xa9, 0x7f, 0xce, 0x93)) == Word(0x78, 0xed, 0x8a, 0xad)
    ensures XorW(Word(0x61, 0x5d, 0xa1, 0x95), Word(0xa5, 0x72, 0xc0, 0x9c)) == Word(0xc4, 0x2f, 0x61, 0x09)
  {
  }

  lemma Add1()
    ensures AddFollows(1)
  {
    hide XorW;
    Xors1();
  }

  lemma Xors2()
    ensures XorW(Word(0x81, 0x0d, 0xce, 0x0c), Word(0x16, 0x51, 0xa8, 0xcd)) == Word(0x97, 0x5c, 0x66, 0xc1)
    ensures XorW(Word(0xc9, 0xdb, 0x81, 0x72), Word(0x02, 0x44, 0xbe, 0xda)) == Word(0xcb, 0x9f, 0x3f, 0xa8)
    ensures XorW(Word(0xb3, 0x67, 0x8c, 0x1e), Word(0x1a, 0x5d, 0xa4, 0xc1)) == Word(0xa9, 0x3a, 0x28, 0xdf)
    ensures XorW(Word(0x88, 0xa1, 0xb5, 0xbd), Word(0x06, 0x40, 0xba, 0xde)) == Word(0x8e, 0xe1, 0x0f, 0x63)
  {
  }

  lemma Add2()
    ensures AddFollows(2)
  {
    hide XorW;
    Xors2();
  }

  lemma Xors3()
    ensures XorW(Word(0xb2, 0x82, 0x2d, 0x81), Word(0xae, 0x87, 0xdf, 0xf0)) == Word(0x1c, 0x05, 0xf2, 0x71)
    ensures XorW(Word(0xab, 0xe6, 0xfb, 0x27), Word(0x0f, 0xf1, 0x1b, 0x68)) == Word(0xa4, 0x17, 0xe0, 0x4f)
    ensures XorW(Word(0x5f, 0xaf, 0x10, 0x3a), Word(0xa6, 0x8e, 0xd5, 0xfb)) == Word(0xf9, 0x21, 0xc5, 0xc1)
    ensures XorW(Word(0x07, 0x8c, 0x00, 0x33), Word(0x03, 0xfc, 0x15, 0x67)) == Word(0x04, 0x70, 0x15, 0x54)
  {
  }

  lemma Add3()
    ensures AddFollows(3)
  {
    hide XorW;
    Xors3();
  }

  lemma Xors4()
    ensures XorW(Word(0xae, 0xb6, 0x5b, 0xa9), Word(0x6d, 0xe1, 0xf1, 0x48)) == Word(0xc3, 0x57, 0xaa, 0xe1)
    ensures XorW(Word(0x74, 0xe0, 0xf8, 0x22), Word(0x6f, 0xa5, 0x4f, 0x92)) == Word(0x1b, 0x45, 0xb7, 0xb0)
    ensures XorW(Word(0xd7, 0x3f, 0x56, 0x7b), Word(0x75, 0xf8, 0xeb, 0x53)) == Word(0xa2, 0xc7, 0xbd, 0x28)
    ensures XorW(Word(0xdb, 0x64, 0xc8, 0x77), Word(0x73, 0xb8, 0x51, 0x8d)) == Word(0xa8, 0xdc, 0x99, 0xfa)
  {
  }

  lemma Add4()
    ensures AddFollows(4)
  {
    hide XorW;
    Xors4();
  }

  lemma Xors5()
    ensures XorW(Word(0xb9, 0x51, 0xc3, 0x3c), Word(0xc6, 0x56, 0x82, 0x7f)) == Word(0x7f, 0x07, 0x41, 0x43)
    ensures XorW(Word(0x02, 0xe9, 0xbd, 0x29), Word(0xc9, 0xa7, 0x99, 0x17)) == Word(0xcb, 0x4e, 0x24, 0x3e)
    ensures XorW(Word(0xae, 0x25, 0xcd, 0xb1), Word(0x6f, 0x29, 0x4c, 0xec)) == Word(0xc1, 0x0c, 0x81, 0x5d)
    ensures XorW(Word(0xef, 0xa0, 0x8c, 0xc7), Word(0x6c, 0xd5, 0x59, 0x8b)) == Word(0x83, 0x75, 0xd5, 0x4c)
  {
  }

  lemma Add5()
    ensures AddFollows(5)
  {
    hide XorW;
    Xors5();
  }

  lemma Xors6()
    ensures XorW(Word(0xeb, 0xb1, 0x9e, 0x1c), Word(0x3d, 0xe2, 0x3a, 0x75)) == Word(0xd6, 0x53, 0xa4, 0x69)
    ensures XorW(Word(0x3e, 0xe7, 0xc9, 0xe8), Word(0x52, 0x47, 0x75, 0xe7)) == Word(0x6c, 0xa0, 0xbc, 0x0f)
    ensures XorW(Word(0x7d, 0x75, 0x35, 0xe9), Word(0x27, 0xbf, 0x9e, 0xb4)) == Word(0x5a, 0xca, 0xab, 0x5d)
    ensures XorW(Word(0xed, 0x6b, 0x91, 0x44), Word(0x54, 0x07, 0xcf, 0x39)) == Word(0xb9, 0x6c, 0x5e, 0x7d)
  {
  }

  lemma Add6()
    ensures AddFollows(6)
  {
    hide XorW;
    Xors6();
  }

  lemma Xors7()
    ensures XorW(Word(0x51, 0x74, 0xc8, 0x66), Word(0x0b, 0xdc, 0x90, 0x5f)) == Word(0x5a, 0xa8, 0x58, 0x39)
    ensures XorW(Word(0x9d, 0xa9, 0x84, 0x35), Word(0xc2, 0x7b, 0x09, 0x48)) == Word(0x5f, 0xd2, 0x8d, 0x7d)
    ensures XorW(Word(0xa8, 0xb3, 0xe6, 0x2c), Word(0xad, 0x52, 0x45, 0xa4)) == Word(0x05, 0xe1, 0xa3, 0x88)
    ensures XorW(Word(0xa9, 0x74, 0xa5, 0xea), Word(0xc1, 0x87, 0x1c, 0x2f)) == Word(0x68, 0xf3, 0xb9, 0xc5)
  {
  }

  lemma Add7()
    ensures AddFollows(7)
  {
    hide XorW;
    Xors7();
  }

  lemma Xors8()
    ensures XorW(Word(0x0f, 0x77, 0xee, 0x31), Word(0x45, 0xf5, 0xa6, 0x60)) == Word(0x4a, 0x82, 0x48, 0x51)
    ensures XorW(Word(0xd2, 0xcc, 0xad, 0xc0), Word(0x17, 0xb2, 0xd3, 0x87)) == Word(0xc5, 0x7e, 0x7e, 0x47)
    ensures XorW(Word(0x54, 0x30, 0xa8, 0x3f), Word(0x30, 0x0d, 0x4d, 0x33)) == Word(0x64, 0x3d, 0xe5, 0x0c)
    ensures XorW(Word(0x4e, 0xf9, 0x6a, 0xc3), Word(0x64, 0x0a, 0x82, 0x0a)) == Word(0x2a, 0xf3, 0xe8, 0xc9)
  {
  }

  lemma Add8()
    ensures AddFollows(8)
  {
    hide XorW;
    Xors8();
  }

  lemma Xors9()
    ensures XorW(Word(0xbd, 0x86, 0xf0, 0xea), Word(0x7c, 0xcf, 0xf7, 0x1c)) == Word(0xc1, 0x49, 0x07, 0xf6)
    ensures XorW(Word(0x74, 0x8f, 0xc4, 0xf4), Word(0xbe, 0xb4, 0xfe, 0x54)) == Word(0xca, 0x3b, 0x3a, 0xa0)
    ensures XorW(Word(0x63, 0x0f, 0x11, 0xc1), Word(0x13, 0xe6, 0xbb, 0xf0)) == Word(0x70, 0xe9, 0xaa, 0x31)
    ensures XorW(Word(0xe9, 0x33, 0x12, 0x33), Word(0xd2, 0x61, 0xa7, 0xdf)) == Word(0x3b, 0x52, 0xb5, 0xec)
  {
  }

  lemma Add9()
    ensures AddFollows(9)
  {
    hide XorW;
    Xors9();
  }

  lemma Xors10()
    ensures XorW(Word(0xaf, 0x86, 0x90, 0x41), Word(0xf0, 0x1a, 0xfa, 0xfe)) == Word(0x5f, 0x9c, 0x6a, 0xbf)
    ensures XorW(Word(0x5d, 0x6e, 0x1d, 0xd3), Word(0xe7, 0xa8, 0x29, 0x79)) == Word(0xba, 0xc6, 0x34, 0xaa)
    ensures XorW(Word(0x87, 0xe5, 0xfb, 0xed), Word(0xd7, 0xa5, 0x64, 0x4a)) == Word(0x50, 0x40, 0x9f, 0xa7)
    ensures XorW(Word(0xd5, 0xc8, 0x90, 0x13), Word(0xb3, 0xaf, 0xe6, 0x40)) == Word(0x66, 0x67, 0x76, 0x53)
  {
  }

  lemma Add10()
    ensures AddFollows(10)
  {
    hide XorW;
    Xors10();
  }

  lemma Xors11()
    ensures XorW(Word(0x74, 0x27, 0xfa, 0xe4), Word(0x25, 0x41, 0xfe, 0x71)) == Word(0x51, 0x66, 0x04, 0x95)
    ensures XorW(Word(0xd8, 0xa6, 0x95, 0x26), Word(0x9b, 0xf5, 0x00, 0x25)) == Word(0x43, 0x53, 0x95, 0x03)
    ensures XorW(Word(0x9c, 0xe8, 0x3d, 0x31), Word(0x88, 0x13, 0xbb, 0xd5)) == Word(0x14, 0xfb, 0x86, 0xe4)
    ensures XorW(Word(0x5b, 0xe0, 0x39, 0x2b), Word(0x5a, 0x72, 0x1c, 0x0a)) == Word(0x01, 0x92, 0x25, 0x21)
  {
  }

  lemma Add11()
    ensures AddFollows(11)
  {
    hide XorW;
    Xors11();
  }

  lemma Xors12()
    ensures XorW(Word(0x2c, 0x21, 0xa8, 0x20), Word(0x4e, 0x5a, 0x66, 0x99)) == Word(0x62, 0x7b, 0xce, 0xb9)
    ensures XorW(Word(0x30, 0x6f, 0x15, 0x4a), Word(0xa9, 0xf2, 0x4f, 0xe0)) == Word(0x99, 0x9d, 0x5a, 0xaa)
    ensures XorW(Word(0xb7, 0x12, 0xc7, 0x5e), Word(0x7e, 0x57, 0x2b, 0xaa)) == Word(0xc9, 0x45, 0xec, 0xf4)
    ensures XorW(Word(0xee, 0x0d, 0xa0, 0x4f), Word(0xcd, 0xf8, 0xcd, 0xea)) == Word(0x23, 0xf5, 0x6d, 0xa5)
  {
  }

  lemma Add12()
    ensures AddFollows(12)
  {
    hide XorW;
    Xors12();
  }

  lemma RoundFollows(r: nat)
    requires r < 13
    ensures ShiftFollows(r) && MixFollows(r) && AddFollows(r)
  {
    hide ShiftFollows, MixFollows, AddFollows;
    Shift0(); Mix0(); Add0();
    Shift1(); Mix1(); Add1();
    Shift2(); Mix2(); Add2();
    Shift3(); Mix3(); Add3();
    Shift4(); Mix4(); Add4();
    Shift5(); Mix5(); Add5();
    Shift6(); Mix6(); Add6();
    Shift7(); Mix7(); Add7();
    Shift8(); Mix8(); Add8();
    Shift9(); Mix9(); Add9();
    Shift10(); Mix10(); Add10();
    Shift11(); Mix11(); Add11();
    Shift12(); Mix12(); Add12();
    assert r == 0 || r == 1 || r == 2 || r == 3 || r == 4 || r == 5 || r == 6 || r == 7 || r == 8 || r == 9 || r == 10
        || r == 11 || r == 12;
  }

  lemma SubkeyIs(keys: seq<Word>, r: nat)
    requires r < 15 && |KEY| == 32 && keys == Schedule(KEY, 8, 14)
    ensures KeyAt(keys, r) == Subkey(r)
  {
    hide KEY, GROUPS, KeyWord;
    var g, i := r / 2, 4 * (r % 2);
    Expansion(g, i);
    Expansion(g, i + 1);
    Expansion(g, i + 2);
    Expansion(g, i + 3);
    assert 8 * g + i == 4 * r;
  }

  lemma {:induction false} States(keys: seq<Word>, p: Block, r: nat)
    requires r < 14 && |KEY| == 32 && keys == Schedule(KEY, 8, 14) && |STATES| == 14 && XorB(p, Subkey(0)) == STATES[0]
    ensures EncState(keys, p, r) == STATES[r]
  {
    hide KEY, STATES, SHIFTED, MIXED, Schedule, Subkey, SubShift, MixB, XorB;
    SubkeyIs(keys, r);
    TraceLengths();
    if r > 0 {
      States(keys, p, r - 1);
      RoundFollows(r - 1);
    }
  }

  // ---- the plaintext and the ciphertext ----

  /** 00112233445566778899aabbccddeeff */
  const PLAINTEXT: seq<bv8> := [
    0x00, 0x11, 0x22, 0x33, 0x44, 0x55, 0x66, 0x77, 0x88, 0x99, 0xaa, 0xbb, 0xcc, 0xdd, 0xee, 0xff
  ]

  /** 8ea2b7ca516745bfeafc49904b496089 */
  const CIPHERTEXT: seq<bv8> := [
    0x8e, 0xa2, 0xb7, 0xca, 0x51, 0x67, 0x45, 0xbf, 0xea, 0xfc, 0x49, 0x90, 0x4b, 0x49, 0x60, 0x89
  ]

  lemma FirstAddition()
    ensures |PLAINTEXT| == 16 && |STATES| == 14 && XorB(BlockOf(PLAINTEXT), Subkey(0)) == STATES[0]
  {
    hide XorW;
    PlaintextWords();
    FirstXors();
  }

  lemma PlaintextWords()
    ensures |PLAINTEXT| == 16 && BlockOf(PLAINTEXT) == Block(
      Word(0x00, 0x11, 0x22, 0x33), Word(0x44, 0x55, 0x66, 0x77),
      Word(0x88, 0x99, 0xaa, 0xbb), Word(0xcc, 0xdd, 0xee, 0xff))
  {
  }

  lemma FirstXors()
    ensures XorW(Word(0x00, 0x11, 0x22, 0x33), Word(0x00, 0x01, 0x02, 0x03)) == Word(0x00, 0x10, 0x20, 0x30)
    ensures XorW(Word(0x44, 0x55, 0x66, 0x77), Word(0x04, 0x05, 0x06, 0x07)) == Word(0x40, 0x50, 0x60, 0x70)
    ensures XorW(Word(0x88, 0x99, 0xaa, 0xbb), Word(0x08, 0x09, 0x0a, 0x0b)) == Word(0x80, 0x90, 0xa0, 0xb0)
    ensures XorW(Word(0xcc, 0xdd, 0xee, 0xff), Word(0x0c, 0x0d, 0x0e, 0x0f)) == Word(0xc0, 0xd0, 0xe0, 0xf0)
  {
  }

  lemma LastXors()
    ensures XorW(Word(0xaa, 0x5e, 0xce, 0x06), Word(0x24, 0xfc, 0x79, 0xcc)) == Word(0x8e, 0xa2, 0xb7, 0xca)
    ensures XorW(Word(0xee, 0x6e, 0x3c, 0x56), Word(0xbf, 0x09, 0x79, 0xe9)) == Word(0x51, 0x67, 0x45, 0xbf)
    ensures XorW(Word(0xdd, 0xe6, 0x8b, 0xac), Word(0x37, 0x1a, 0xc2, 0x3c)) == Word(0xea, 0xfc, 0x49, 0x90)
    ensures XorW(Word(0x26, 0x21, 0xbe, 0xbf), Word(0x6d, 0x68, 0xde, 0x36)) == Word(0x4b, 0x49, 0x60, 0x89)
  {
  }

  lemma LastAddition()
    ensures |SHIFTED| == 14 && XorB(SHIFTED[13], Subkey(14)) == Block(
      Word(0x8e, 0xa2, 0xb7, 0xca), Word(0x51, 0x67, 0x45, 0xbf),
      Word(0xea, 0xfc, 0x49, 0x90), Word(0x4b, 0x49, 0x60, 0x89))
  {
    hide XorW;
    LastXors();
  }

  lemma CiphertextBytes()
    ensures BlockBytes(Block(
      Word(0x8e, 0xa2, 0xb7, 0xca), Word(0x51, 0x67, 0x45, 0xbf),
      Word(0xea, 0xfc, 0x49, 0x90), Word(0x4b, 0x49, 0x60, 0x89)))
        == CIPHERTEXT
  {
  }

  /** Appendix C.3: the key expansion and the fourteen rounds turn the plaintext into the ciphertext. */
  lemma EncryptionExample()
    ensures |KEY| == 32 && |PLAINTEXT| == 16
    ensures BlockBytes(AesCipher.Encrypt(Schedule(KEY, 8, 14), 14, BlockOf(PLAINTEXT))) == CIPHERTEXT
  {
    hide KEY, PLAINTEXT, CIPHERTEXT, STATES, SHIFTED, MIXED, GROUPS, Schedule, Subkey, SubShift, MixB, XorB, BlockOf,
      BlockBytes, EncState;
    KeyWords0();
    PlaintextWords();
    FirstAddition();
    var keys := Schedule(KEY, 8, 14);
    States(keys, BlockOf(PLAINTEXT), 13);
    SubkeyIs(keys, 14);
    TraceLengths();
    Shift13();
    LastAddition();
    CiphertextBytes();
  }

  /** The same on the code: a context set to the key encrypts the plaintext. */
  method ContextExample(dst: array<bv8>, src: array<bv8>)
    requires dst.Length == src.Length == 16 && src[..] == PLAINTEXT
    modifies dst
    ensures dst[..] == CIPHERTEXT
  {
    hide KEY, PLAINTEXT, CIPHERTEXT, Schedule, BlockOf, BlockBytes, EncryptData, AesCipher.Encrypt;
    KeyWords0();
    EncryptionExample();
    assert src[..16] == src[..] && dst[16..] == [];
    var ctx := new AesCtx();
    ctx.SetEncryptKey(32, KEY);
    ghost var keys := ctx.keys[..];
    assert ctx.rounds == 14 && keys[..60] == ctx.keys[..60] == Schedule(KEY, 8, 14);
    DataPrefix(keys, 14, PLAINTEXT);
    OneBlock(Schedule(KEY, 8, 14), 14, PLAINTEXT);
    ctx.Encrypt(16, dst, src);
    NothingBehind(CIPHERTEXT);
  }

  lemma NothingBehind(t: seq<bv8>)
    ensures t + [] == t
  {
  }

  lemma OneBlock(keys: seq<Word>, rounds: nat, s: seq<bv8>)
    requires 1 <= rounds && 4 * rounds + 4 <= |keys| && |s| == 16
    ensures EncryptData(keys, rounds, s) == BlockBytes(AesCipher.Encrypt(keys, rounds, BlockOf(s)))
  {
    hide BlockBytes, BlockOf;
    assert s[..0] == [] && s[0..] == s;
  }
}
