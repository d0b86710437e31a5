/** The tables of Nettle's AES, tied to the S-box and to arithmetic in GF(256). */
module AesTables {
  import ByteNumbers
  import opened Gf256

  // ---- GF(256) modulo x^8+x^4+x^3+x+1 ----

  function Reduce1b(a: bv8): bv8 { if a & 0x80 == 0 then 0 else 0x1b }

  /** Multiplication by x. */
  function Double(a: bv8): bv8 { Add(Shl(a), Reduce1b(a)) }

  lemma Reduce1bAdd(a: bv8, b: bv8)
    ensures Reduce1b(a ^ b) == Reduce1b(a) ^ Reduce1b(b)
  {
  }

  lemma DoubleAdd(a: bv8, b: bv8)
    ensures Double(Add(a, b)) == Add(Double(a), Double(b))
  {
    hide Shl, Reduce1b;
    ShlAdd(a, b);
    Reduce1bAdd(a, b);
  }

  /** The four bytes of a 32-bit word, least significant first. */
  datatype Word = Word(b0: bv8, b1: bv8, b2: bv8, b3: bv8)

  function Bytes(w: bv32): Word {
    Word((w & 0xff) as bv8, ((w >> 8) & 0xff) as bv8, ((w >> 16) & 0xff) as bv8, ((w >> 24) & 0xff) as bv8)
  }

  /** The column that MixColumns makes of a single byte: 2, 1, 1 and 3 times the byte. */
  function MixByte(a: bv8): Word { Word(Double(a), a, a, Add(Double(a), a)) }

  /** The column that InvMixColumns makes of a single byte: 14, 9, 13 and 11 times the byte. */
  function InvMixByte(a: bv8): Word {
    var a2 := Double(a);
    var a4 := Double(a2);
    var a8 := Double(a4);
    Word(Add(Add(a8, a4), a2), Add(a8, a), Add(Add(a8, a4), a), Add(Add(a8, a2), a))
  }

  // ---- the tables, in rows of sixteen ----

  const SBOX: seq<seq<bv8>> := [
    [0x63, 0x7c, 0x77, 0x7b, 0xf2, 0x6b, 0x6f, 0xc5, 0x30, 0x01, 0x67, 0x2b, 0xfe, 0xd7, 0xab, 0x76],
    [0xca, 0x82, 0xc9, 0x7d, 0xfa, 0x59, 0x47, 0xf0, 0xad, 0xd4, 0xa2, 0xaf, 0x9c, 0xa4, 0x72, 0xc0],
    [0xb7, 0xfd, 0x93, 0x26, 0x36, 0x3f, 0xf7, 0xcc, 0x34, 0xa5, 0xe5, 0xf1, 0x71, 0xd8, 0x31, 0x15],
    [0x04, 0xc7, 0x23, 0xc3, 0x18, 0x96, 0x05, 0x9a, 0x07, 0x12, 0x80, 0xe2, 0xeb, 0x27, 0xb2, 0x75],
    [0x09, 0x83, 0x2c, 0x1a, 0x1b, 0x6e, 0x5a, 0xa0, 0x52, 0x3b, 0xd6, 0xb3, 0x29, 0xe3, 0x2f, 0x84],
    [0x53, 0xd1, 0x00, 0xed, 0x20, 0xfc, 0xb1, 0x5b, 0x6a, 0xcb, 0xbe, 0x39, 0x4a, 0x4c, 0x58, 0xcf],
    [0xd0, 0xef, 0xaa, 0xfb, 0x43, 0x4d, 0x33, 0x85, 0x45, 0xf9, 0x02, 0x7f, 0x50, 0x3c, 0x9f, 0xa8],
    [0x51, 0xa3, 0x40, 0x8f, 0x92, 0x9d, 0x38, 0xf5, 0xbc, 0xb6, 0xda, 0x21, 0x10, 0xff, 0xf3, 0xd2],
    [0xcd, 0x0c, 0x13, 0xec, 0x5f, 0x97, 0x44, 0x17, 0xc4, 0xa7, 0x7e, 0x3d, 0x64, 0x5d, 0x19, 0x73],
    [0x60, 0x81, 0x4f, 0xdc, 0x22, 0x2a, 0x90, 0x88, 0x46, 0xee, 0xb8, 0x14, 0xde, 0x5e, 0x0b, 0xdb],
    [0xe0, 0x32, 0x3a, 0x0a, 0x49, 0x06, 0x24, 0x5c, 0xc2, 0xd3, 0xac, 0x62, 0x91, 0x95, 0xe4, 0x79],
    [0xe7, 0xc8, 0x37, 0x6d, 0x8d, 0xd5, 0x4e, 0xa9, 0x6c, 0x56, 0xf4, 0xea, 0x65, 0x7a, 0xae, 0x08],
    [0xba, 0x78, 0x25, 0x2e, 0x1c, 0xa6, 0xb4, 0xc6, 0xe8, 0xdd, 0x74, 0x1f, 0x4b, 0xbd, 0x8b, 0x8a],
    [0x70, 0x3e, 0xb5, 0x66, 0x48, 0x03, 0xf6, 0x0e, 0x61, 0x35, 0x57, 0xb9, 0x86, 0xc1, 0x1d, 0x9e],
    [0xe1, 0xf8, 0x98, 0x11, 0x69, 0xd9, 0x8e, 0x94, 0x9b, 0x1e, 0x87, 0xe9, 0xce, 0x55, 0x28, 0xdf],
    [0x8c, 0xa1, 0x89, 0x0d, 0xbf, 0xe6, 0x42, 0x68, 0x41, 0x99, 0x2d, 0x0f, 0xb0, 0x54, 0xbb, 0x16]
  ]

  const ISBOX: seq<seq<nat>> := [
    [0x52, 0x09, 0x6a, 0xd5, 0x30, 0x36, 0xa5, 0x38, 0xbf, 0x40, 0xa3, 0x9e, 0x81, 0xf3, 0xd7, 0xfb],
    [0x7c, 0xe3, 0x39, 0x82, 0x9b, 0x2f, 0xff, 0x87, 0x34, 0x8e, 0x43, 0x44, 0xc4, 0xde, 0xe9, 0xcb],
    [0x54, 0x7b, 0x94, 0x32, 0xa6, 0xc2, 0x23, 0x3d, 0xee, 0x4c, 0x95, 0x0b, 0x42, 0xfa, 0xc3, 0x4e],
    [0x08, 0x2e, 0xa1, 0x66, 0x28, 0xd9, 0x24, 0xb2, 0x76, 0x5b, 0xa2, 0x49, 0x6d, 0x8b, 0xd1, 0x25],
    [0x72, 0xf8, 0xf6, 0x64, 0x86, 0x68, 0x98, 0x16, 0xd4, 0xa4, 0x5c, 0xcc, 0x5d, 0x65, 0xb6, 0x92],
    [0x6c, 0x70, 0x48, 0x50, 0xfd, 0xed, 0xb9, 0xda, 0x5e, 0x15, 0x46, 0x57, 0xa7, 0x8d, 0x9d, 0x84],
    [0x90, 0xd8, 0xab, 0x00, 0x8c, 0xbc, 0xd3, 0x0a, 0xf7, 0xe4, 0x58, 0x05, 0xb8, 0xb3, 0x45, 0x06],
    [0xd0, 0x2c, 0x1e, 0x8f, 0xca, 0x3f, 0x0f, 0x02, 0xc1, 0xaf, 0xbd, 0x03, 0x01, 0x13, 0x8a, 0x6b],
    [0x3a, 0x91, 0x11, 0x41, 0x4f, 0x67, 0xdc, 0xea, 0x97, 0xf2, 0xcf, 0xce, 0xf0, 0xb4, 0xe6, 0x73],
    [0x96, 0xac, 0x74, 0x22, 0xe7, 0xad, 0x35, 0x85, 0xe2, 0xf9, 0x37, 0xe8, 0x1c, 0x75, 0xdf, 0x6e],
    [0x47, 0xf1, 0x1a, 0x71, 0x1d, 0x29, 0xc5, 0x89, 0x6f, 0xb7, 0x62, 0x0e, 0xaa, 0x18, 0xbe, 0x1b],
    [0xfc, 0x56, 0x3e, 0x4b, 0xc6, 0xd2, 0x79, 0x20, 0x9a, 0xdb, 0xc0, 0xfe, 0x78, 0xcd, 0x5a, 0xf4],
    [0x1f, 0xdd, 0xa8, 0x33, 0x88, 0x07, 0xc7, 0x31, 0xb1, 0x12, 0x10, 0x59, 0x27, 0x80, 0xec, 0x5f],
    [0x60, 0x51, 0x7f, 0xa9, 0x19, 0xb5, 0x4a, 0x0d, 0x2d, 0xe5, 0x7a, 0x9f, 0x93, 0xc9, 0x9c, 0xef],
    [0xa0, 0xe0, 0x3b, 0x4d, 0xae, 0x2a, 0xf5, 0xb0, 0xc8, 0xeb, 0xbb, 0x3c, 0x83, 0x53, 0x99, 0x61],
    [0x17, 0x2b, 0x04, 0x7e, 0xba, 0x77, 0xd6, 0x26, 0xe1, 0x69, 0x14, 0x63, 0x55, 0x21, 0x0c, 0x7d]
  ]

  /** Table 0 for encryption. */
  const ETABLE: seq<seq<bv32>> := [
    [0xa56363c6, 0x847c7cf8, 0x997777ee, 0x8d7b7bf6, 0x0df2f2ff, 0xbd6b6bd6, 0xb16f6fde, 0x54c5c591,
     0x50303060, 0x03010102, 0xa96767ce, 0x7d2b2b56, 0x19fefee7, 0x62d7d7b5, 0xe6abab4d, 0x9a7676ec],
    [0x45caca8f, 0x9d82821f, 0x40c9c989, 0x877d7dfa, 0x15fafaef, 0xeb5959b2, 0xc947478e, 0x0bf0f0fb,
     0xecadad41, 0x67d4d4b3, 0xfda2a25f, 0xeaafaf45, 0xbf9c9c23, 0xf7a4a453, 0x967272e4, 0x5bc0c09b],
    [0xc2b7b775, 0x1cfdfde1, 0xae93933d, 0x6a26264c, 0x5a36366c, 0x413f3f7e, 0x02f7f7f5, 0x4fcccc83,
     0x5c343468, 0xf4a5a551, 0x34e5e5d1, 0x08f1f1f9, 0x937171e2, 0x73d8d8ab, 0x53313162, 0x3f15152a],
    [0x0c040408, 0x52c7c795, 0x65232346, 0x5ec3c39d, 0x28181830, 0xa1969637, 0x0f05050a, 0xb59a9a2f,
     0x0907070e, 0x36121224, 0x9b80801b, 0x3de2e2df, 0x26ebebcd, 0x6927274e, 0xcdb2b27f, 0x9f7575ea],
    [0x1b090912, 0x9e83831d, 0x742c2c58, 0x2e1a1a34, 0x2d1b1b36, 0xb26e6edc, 0xee5a5ab4, 0xfba0a05b,
     0xf65252a4, 0x4d3b3b76, 0x61d6d6b7, 0xceb3b37d, 0x7b292952, 0x3ee3e3dd, 0x712f2f5e, 0x97848413],
    [0xf55353a6, 0x68d1d1b9, 0x00000000, 0x2cededc1, 0x60202040, 0x1ffcfce3, 0xc8b1b179, 0xed5b5bb6,
     0xbe6a6ad4, 0x46cbcb8d, 0xd9bebe67, 0x4b393972, 0xde4a4a94, 0xd44c4c98, 0xe85858b0, 0x4acfcf85],
    [0x6bd0d0bb, 0x2aefefc5, 0xe5aaaa4f, 0x16fbfbed, 0xc5434386, 0xd74d4d9a, 0x55333366, 0x94858511,
     0xcf45458a, 0x10f9f9e9, 0x06020204, 0x817f7ffe, 0xf05050a0, 0x443c3c78, 0xba9f9f25, 0xe3a8a84b],
    [0xf35151a2, 0xfea3a35d, 0xc0404080, 0x8a8f8f05, 0xad92923f, 0xbc9d9d21, 0x48383870, 0x04f5f5f1,
     0xdfbcbc63, 0xc1b6b677, 0x75dadaaf, 0x63212142, 0x30101020, 0x1affffe5, 0x0ef3f3fd, 0x6dd2d2bf],
    [0x4ccdcd81, 0x140c0c18, 0x35131326, 0x2fececc3, 0xe15f5fbe, 0xa2979735, 0xcc444488, 0x3917172e,
     0x57c4c493, 0xf2a7a755, 0x827e7efc, 0x473d3d7a, 0xac6464c8, 0xe75d5dba, 0x2b191932, 0x957373e6],
    [0xa06060c0, 0x98818119, 0xd14f4f9e, 0x7fdcdca3, 0x66222244, 0x7e2a2a54, 0xab90903b, 0x8388880b,
     0xca46468c, 0x29eeeec7, 0xd3b8b86b, 0x3c141428, 0x79dedea7, 0xe25e5ebc, 0x1d0b0b16, 0x76dbdbad],
    [0x3be0e0db, 0x56323264, 0x4e3a3a74, 0x1e0a0a14, 0xdb494992, 0x0a06060c, 0x6c242448, 0xe45c5cb8,
     0x5dc2c29f, 0x6ed3d3bd, 0xefacac43, 0xa66262c4, 0xa8919139, 0xa4959531, 0x37e4e4d3, 0x8b7979f2],
    [0x32e7e7d5, 0x43c8c88b, 0x5937376e, 0xb76d6dda, 0x8c8d8d01, 0x64d5d5b1, 0xd24e4e9c, 0xe0a9a949,
     0xb46c6cd8, 0xfa5656ac, 0x07f4f4f3, 0x25eaeacf, 0xaf6565ca, 0x8e7a7af4, 0xe9aeae47, 0x18080810],
    [0xd5baba6f, 0x887878f0, 0x6f25254a, 0x722e2e5c, 0x241c1c38, 0xf1a6a657, 0xc7b4b473, 0x51c6c697,
     0x23e8e8cb, 0x7cdddda1, 0x9c7474e8, 0x211f1f3e, 0xdd4b4b96, 0xdcbdbd61, 0x868b8b0d, 0x858a8a0f],
    [0x907070e0, 0x423e3e7c, 0xc4b5b571, 0xaa6666cc, 0xd8484890, 0x05030306, 0x01f6f6f7, 0x120e0e1c,
     0xa36161c2, 0x5f35356a, 0xf95757ae, 0xd0b9b969, 0x91868617, 0x58c1c199, 0x271d1d3a, 0xb99e9e27],
    [0x38e1e1d9, 0x13f8f8eb, 0xb398982b, 0x33111122, 0xbb6969d2, 0x70d9d9a9, 0x898e8e07, 0xa7949433,
     0xb69b9b2d, 0x221e1e3c, 0x92878715, 0x20e9e9c9, 0x49cece87, 0xff5555aa, 0x78282850, 0x7adfdfa5],
    [0x8f8c8c03, 0xf8a1a159, 0x80898909, 0x170d0d1a, 0xdabfbf65, 0x31e6e6d7, 0xc6424284, 0xb86868d0,
     0xc3414182, 0xb0999929, 0x772d2d5a, 0x110f0f1e, 0xcbb0b07b, 0xfc5454a8, 0xd6bbbb6d, 0x3a16162c]
  ]

  /** Table 0 for decryption. */
  const DTABLE: seq<seq<bv32>> := [
    [0x50a7f451, 0x5365417e, 0xc3a4171a, 0x965e273a, 0xcb6bab3b, 0xf1459d1f, 0xab58faac, 0x9303e34b,
     0x55fa3020, 0xf66d76ad, 0x9176cc88, 0x254c02f5, 0xfcd7e54f, 0xd7cb2ac5, 0x80443526, 0x8fa362b5],
    [0x495ab1de, 0x671bba25, 0x980eea45, 0xe1c0fe5d, 0x02752fc3, 0x12f04c81, 0xa397468d, 0xc6f9d36b,
     0xe75f8f03, 0x959c9215, 0xeb7a6dbf, 0xda595295, 0x2d83bed4, 0xd3217458, 0x2969e049, 0x44c8c98e],
    [0x6a89c275, 0x78798ef4, 0x6b3e5899, 0xdd71b927, 0xb64fe1be, 0x17ad88f0, 0x66ac20c9, 0xb43ace7d,
     0x184adf63, 0x82311ae5, 0x60335197, 0x457f5362, 0xe07764b1, 0x84ae6bbb, 0x1ca081fe, 0x942b08f9],
    [0x58684870, 0x19fd458f, 0x876cde94, 0xb7f87b52, 0x23d373ab, 0xe2024b72, 0x578f1fe3, 0x2aab5566,
     0x0728ebb2, 0x03c2b52f, 0x9a7bc586, 0xa50837d3, 0xf2872830, 0xb2a5bf23, 0xba6a0302, 0x5c8216ed],
    [0x2b1ccf8a, 0x92b479a7, 0xf0f207f3, 0xa1e2694e, 0xcdf4da65, 0xd5be0506, 0x1f6234d1, 0x8afea6c4,
     0x9d532e34, 0xa055f3a2, 0x32e18a05, 0x75ebf6a4, 0x39ec830b, 0xaaef6040, 0x069f715e, 0x51106ebd],
    [0xf98a213e, 0x3d06dd96, 0xae053edd, 0x46bde64d, 0xb58d5491, 0x055dc471, 0x6fd40604, 0xff155060,
     0x24fb9819, 0x97e9bdd6, 0xcc434089, 0x779ed967, 0xbd42e8b0, 0x888b8907, 0x385b19e7, 0xdbeec879],
    [0x470a7ca1, 0xe90f427c, 0xc91e84f8, 0x00000000, 0x83868009, 0x48ed2b32, 0xac70111e, 0x4e725a6c,
     0xfbff0efd, 0x5638850f, 0x1ed5ae3d, 0x27392d36, 0x64d90f0a, 0x21a65c68, 0xd1545b9b, 0x3a2e3624],
    [0xb1670a0c, 0x0fe75793, 0xd296eeb4, 0x9e919b1b, 0x4fc5c080, 0xa220dc61, 0x694b775a, 0x161a121c,
     0x0aba93e2, 0xe52aa0c0, 0x43e0223c, 0x1d171b12, 0x0b0d090e, 0xadc78bf2, 0xb9a8b62d, 0xc8a91e14],
    [0x8519f157, 0x4c0775af, 0xbbdd99ee, 0xfd607fa3, 0x9f2601f7, 0xbcf5725c, 0xc53b6644, 0x347efb5b,
     0x7629438b, 0xdcc623cb, 0x68fcedb6, 0x63f1e4b8, 0xcadc31d7, 0x10856342, 0x40229713, 0x2011c684],
    [0x7d244a85, 0xf83dbbd2, 0x1132f9ae, 0x6da129c7, 0x4b2f9e1d, 0xf330b2dc, 0xec52860d, 0xd0e3c177,
     0x6c16b32b, 0x99b970a9, 0xfa489411, 0x2264e947, 0xc48cfca8, 0x1a3ff0a0, 0xd82c7d56, 0xef903322],
    [0xc74e4987, 0xc1d138d9, 0xfea2ca8c, 0x360bd498, 0xcf81f5a6, 0x28de7aa5, 0x268eb7da, 0xa4bfad3f,
     0xe49d3a2c, 0x0d927850, 0x9bcc5f6a, 0x62467e54, 0xc2138df6, 0xe8b8d890, 0x5ef7392e, 0xf5afc382],
    [0xbe805d9f, 0x7c93d069, 0xa92dd56f, 0xb31225cf, 0x3b99acc8, 0xa77d1810, 0x6e639ce8, 0x7bbb3bdb,
     0x097826cd, 0xf418596e, 0x01b79aec, 0xa89a4f83, 0x656e95e6, 0x7ee6ffaa, 0x08cfbc21, 0xe6e815ef],
    [0xd99be7ba, 0xce366f4a, 0xd4099fea, 0xd67cb029, 0xafb2a431, 0x31233f2a, 0x3094a5c6, 0xc066a235,
     0x37bc4e74, 0xa6ca82fc, 0xb0d090e0, 0x15d8a733, 0x4a9804f1, 0xf7daec41, 0x0e50cd7f, 0x2ff69117],
    [0x8dd64d76, 0x4db0ef43, 0x544daacc, 0xdf0496e4, 0xe3b5d19e, 0x1b886a4c, 0xb81f2cc1, 0x7f516546,
     0x04ea5e9d, 0x5d358c01, 0x737487fa, 0x2e410bfb, 0x5a1d67b3, 0x52d2db92, 0x335610e9, 0x1347d66d],
    [0x8c61d79a, 0x7a0ca137, 0x8e14f859, 0x893c13eb, 0xee27a9ce, 0x35c961b7, 0xede51ce1, 0x3cb1477a,
     0x59dfd29c, 0x3f73f255, 0x79ce1418, 0xbf37c773, 0xeacdf753, 0x5baafd5f, 0x146f3ddf, 0x86db4478],
    [0x81f3afca, 0x3ec468b9, 0x2c342438, 0x5f40a3c2, 0x72c31d16, 0x0c25e2bc, 0x8b493c28, 0x41950dff,
     0x7101a839, 0xdeb30c08, 0x9ce4b4d8, 0x90c15664, 0x6184cb7b, 0x70b632d5, 0x745c6c48, 0x4257b8d0]
  ]

  /** The table that inverts the subkeys. */
  const MTABLE: seq<seq<bv32>> := [
    [0x00000000, 0x0b0d090e, 0x161a121c, 0x1d171b12, 0x2c342438, 0x27392d36, 0x3a2e3624, 0x31233f2a,
     0x58684870, 0x5365417e, 0x4e725a6c, 0x457f5362, 0x745c6c48, 0x7f516546, 0x62467e54, 0x694b775a],
    [0xb0d090e0, 0xbbdd99ee, 0xa6ca82fc, 0xadc78bf2, 0x9ce4b4d8, 0x97e9bdd6, 0x8afea6c4, 0x81f3afca,
     0xe8b8d890, 0xe3b5d19e, 0xfea2ca8c, 0xf5afc382, 0xc48cfca8, 0xcf81f5a6, 0xd296eeb4, 0xd99be7ba],
    [0x7bbb3bdb, 0x70b632d5, 0x6da129c7, 0x66ac20c9, 0x578f1fe3, 0x5c8216ed, 0x41950dff, 0x4a9804f1,
     0x23d373ab, 0x28de7aa5, 0x35c961b7, 0x3ec468b9, 0x0fe75793, 0x04ea5e9d, 0x19fd458f, 0x12f04c81],
    [0xcb6bab3b, 0xc066a235, 0xdd71b927, 0xd67cb029, 0xe75f8f03, 0xec52860d, 0xf1459d1f, 0xfa489411,
     0x9303e34b, 0x980eea45, 0x8519f157, 0x8e14f859, 0xbf37c773, 0xb43ace7d, 0xa92dd56f, 0xa220dc61],
    [0xf66d76ad, 0xfd607fa3, 0xe07764b1, 0xeb7a6dbf, 0xda595295, 0xd1545b9b, 0xcc434089, 0xc74e4987,
     0xae053edd, 0xa50837d3, 0xb81f2cc1, 0xb31225cf, 0x82311ae5, 0x893c13eb, 0x942b08f9, 0x9f2601f7],
    [0x46bde64d, 0x4db0ef43, 0x50a7f451, 0x5baafd5f, 0x6a89c275, 0x6184cb7b, 0x7c93d069, 0x779ed967,
     0x1ed5ae3d, 0x15d8a733, 0x08cfbc21, 0x03c2b52f, 0x32e18a05, 0x39ec830b, 0x24fb9819, 0x2ff69117],
    [0x8dd64d76, 0x86db4478, 0x9bcc5f6a, 0x90c15664, 0xa1e2694e, 0xaaef6040, 0xb7f87b52, 0xbcf5725c,
     0xd5be0506, 0xdeb30c08, 0xc3a4171a, 0xc8a91e14, 0xf98a213e, 0xf2872830, 0xef903322, 0xe49d3a2c],
    [0x3d06dd96, 0x360bd498, 0x2b1ccf8a, 0x2011c684, 0x1132f9ae, 0x1a3ff0a0, 0x0728ebb2, 0x0c25e2bc,
     0x656e95e6, 0x6e639ce8, 0x737487fa, 0x78798ef4, 0x495ab1de, 0x4257b8d0, 0x5f40a3c2, 0x544daacc],
    [0xf7daec41, 0xfcd7e54f, 0xe1c0fe5d, 0xeacdf753, 0xdbeec879, 0xd0e3c177, 0xcdf4da65, 0xc6f9d36b,
     0xafb2a431, 0xa4bfad3f, 0xb9a8b62d, 0xb2a5bf23, 0x83868009, 0x888b8907, 0x959c9215, 0x9e919b1b],
    [0x470a7ca1, 0x4c0775af, 0x51106ebd, 0x5a1d67b3, 0x6b3e5899, 0x60335197, 0x7d244a85, 0x7629438b,
     0x1f6234d1, 0x146f3ddf, 0x097826cd, 0x02752fc3, 0x335610e9, 0x385b19e7, 0x254c02f5, 0x2e410bfb],
    [0x8c61d79a, 0x876cde94, 0x9a7bc586, 0x9176cc88, 0xa055f3a2, 0xab58faac, 0xb64fe1be, 0xbd42e8b0,
     0xd4099fea, 0xdf0496e4, 0xc2138df6, 0xc91e84f8, 0xf83dbbd2, 0xf330b2dc, 0xee27a9ce, 0xe52aa0c0],
    [0x3cb1477a, 0x37bc4e74, 0x2aab5566, 0x21a65c68, 0x10856342, 0x1b886a4c, 0x069f715e, 0x0d927850,
     0x64d90f0a, 0x6fd40604, 0x72c31d16, 0x79ce1418, 0x48ed2b32, 0x43e0223c, 0x5ef7392e, 0x55fa3020],
    [0x01b79aec, 0x0aba93e2, 0x17ad88f0, 0x1ca081fe, 0x2d83bed4, 0x268eb7da, 0x3b99acc8, 0x3094a5c6,
     0x59dfd29c, 0x52d2db92, 0x4fc5c080, 0x44c8c98e, 0x75ebf6a4, 0x7ee6ffaa, 0x63f1e4b8, 0x68fcedb6],
    [0xb1670a0c, 0xba6a0302, 0xa77d1810, 0xac70111e, 0x9d532e34, 0x965e273a, 0x8b493c28, 0x80443526,
     0xe90f427c, 0xe2024b72, 0xff155060, 0xf418596e, 0xc53b6644, 0xce366f4a, 0xd3217458, 0xd82c7d56],
    [0x7a0ca137, 0x7101a839, 0x6c16b32b, 0x671bba25, 0x5638850f, 0x5d358c01, 0x40229713, 0x4b2f9e1d,
     0x2264e947, 0x2969e049, 0x347efb5b, 0x3f73f255, 0x0e50cd7f, 0x055dc471, 0x184adf63, 0x1347d66d],
    [0xcadc31d7, 0xc1d138d9, 0xdcc623cb, 0xd7cb2ac5, 0xe6e815ef, 0xede51ce1, 0xf0f207f3, 0xfbff0efd,
     0x92b479a7, 0x99b970a9, 0x84ae6bbb, 0x8fa362b5, 0xbe805d9f, 0xb58d5491, 0xa89a4f83, 0xa397468d]
  ]

  lemma ByteTables()
    ensures Square(SBOX) && Square(ISBOX)
  {
  }

  lemma WordTables()
    ensures Square(ETABLE) && Square(DTABLE) && Square(MTABLE)
  {
  }

  function At<T>(t: seq<seq<T>>, a: bv8): T
    requires Square(t)
  {
    t[a as int / 16][a as int % 16]
  }

  // ---- row by row ----

  /** The inverse S-box takes the box's value back to byte number n. */
  predicate BackTo(a: bv8, n: nat)
    requires Square(ISBOX)
  {
    At(ISBOX, a) == n
  }

  predicate BoxRow(s: seq<bv8>, n: nat) {
    hide ISBOX;
    ByteTables();
    && |s| == 16
    && BackTo(s[0], n + 0) && BackTo(s[1], n + 1) && BackTo(s[2], n + 2) && BackTo(s[3], n + 3)
    && BackTo(s[4], n + 4) && BackTo(s[5], n + 5) && BackTo(s[6], n + 6) && BackTo(s[7], n + 7)
    && BackTo(s[8], n + 8) && BackTo(s[9], n + 9) && BackTo(s[10], n + 10) && BackTo(s[11], n + 11)
    && BackTo(s[12], n + 12) && BackTo(s[13], n + 13) && BackTo(s[14], n + 14) && BackTo(s[15], n + 15)
  }

  /** The encryption table holds the mixed columns of the S-box. */
  predicate MixRow(t: seq<bv32>, s: seq<bv8>) {
    && |t| == |s| == 16
    && Bytes(t[0]) == MixByte(s[0]) && Bytes(t[1]) == MixByte(s[1])
    && Bytes(t[2]) == MixByte(s[2]) && Bytes(t[3]) == MixByte(s[3])
    && Bytes(t[4]) == MixByte(s[4]) && Bytes(t[5]) == MixByte(s[5])
    && Bytes(t[6]) == MixByte(s[6]) && Bytes(t[7]) == MixByte(s[7])
    && Bytes(t[8]) == MixByte(s[8]) && Bytes(t[9]) == MixByte(s[9])
    && Bytes(t[10]) == MixByte(s[10]) && Bytes(t[11]) == MixByte(s[11])
    && Bytes(t[12]) == MixByte(s[12]) && Bytes(t[13]) == MixByte(s[13])
    && Bytes(t[14]) == MixByte(s[14]) && Bytes(t[15]) == MixByte(s[15])
  }

  /** The table for decryption is the table for subkeys at the byte of the inverse S-box. */
  predicate InvMixEntry(w: bv32, v: nat)
    requires Square(MTABLE)
  {
    v < 256 && w == MTABLE[v / 16][v % 16]
  }

  predicate InvMixRow(t: seq<bv32>, s: seq<nat>) {
    WordTables();
    && |t| == |s| == 16
    && InvMixEntry(t[0], s[0]) && InvMixEntry(t[1], s[1]) && InvMixEntry(t[2], s[2]) && InvMixEntry(t[3], s[3])
    && InvMixEntry(t[4], s[4]) && InvMixEntry(t[5], s[5]) && InvMixEntry(t[6], s[6]) && InvMixEntry(t[7], s[7])
    && InvMixEntry(t[8], s[8]) && InvMixEntry(t[9], s[9]) && InvMixEntry(t[10], s[10]) && InvMixEntry(t[11], s[11])
    && InvMixEntry(t[12], s[12]) && InvMixEntry(t[13], s[13]) && InvMixEntry(t[14], s[14]) && InvMixEntry(t[15], s[15])
  }

  /** The subkey table holds the inversely mixed column of byte number n. */
  predicate KeyRow(t: seq<bv32>, n: nat)
    requires n <= 240
  {
    && |t| == 16
    && Bytes(t[0]) == InvMixByte((n + 0) as bv8) && Bytes(t[1]) == InvMixByte((n + 1) as bv8)
    && Bytes(t[2]) == InvMixByte((n + 2) as bv8) && Bytes(t[3]) == InvMixByte((n + 3) as bv8)
    && Bytes(t[4]) == InvMixByte((n + 4) as bv8) && Bytes(t[5]) == InvMixByte((n + 5) as bv8)
    && Bytes(t[6]) == InvMixByte((n + 6) as bv8) && Bytes(t[7]) == InvMixByte((n + 7) as bv8)
    && Bytes(t[8]) == InvMixByte((n + 8) as bv8) && Bytes(t[9]) == InvMixByte((n + 9) as bv8)
    && Bytes(t[10]) == InvMixByte((n + 10) as bv8) && Bytes(t[11]) == InvMixByte((n + 11) as bv8)
    && Bytes(t[12]) == InvMixByte((n + 12) as bv8) && Bytes(t[13]) == InvMixByte((n + 13) as bv8)
    && Bytes(t[14]) == InvMixByte((n + 14) as bv8) && Bytes(t[15]) == InvMixByte((n + 15) as bv8)
  }

  function InvMixOf(n: nat): Word
    requires n < 256
  {
    InvMixByte(n as bv8)
  }

  predicate KeyColumns(t: seq<bv32>, n: nat)
    requires n <= 240
  {
    && |t| == 16
    && Bytes(t[0]) == InvMixOf(n + 0) && Bytes(t[1]) == InvMixOf(n + 1)
    && Bytes(t[2]) == InvMixOf(n + 2) && Bytes(t[3]) == InvMixOf(n + 3)
    && Bytes(t[4]) == InvMixOf(n + 4) && Bytes(t[5]) == InvMixOf(n + 5)
    && Bytes(t[6]) == InvMixOf(n + 6) && Bytes(t[7]) == InvMixOf(n + 7)
    && Bytes(t[8]) == InvMixOf(n + 8) && Bytes(t[9]) == InvMixOf(n + 9)
    && Bytes(t[10]) == InvMixOf(n + 10) && Bytes(t[11]) == InvMixOf(n + 11)
    && Bytes(t[12]) == InvMixOf(n + 12) && Bytes(t[13]) == InvMixOf(n + 13)
    && Bytes(t[14]) == InvMixOf(n + 14) && Bytes(t[15]) == InvMixOf(n + 15)
  }

  lemma KeyRowColumns(t: seq<bv32>, n: nat)
    requires n <= 240 && KeyRow(t, n)
    ensures KeyColumns(t, n)
  {
    hide Bytes, InvMixByte;
  }

  lemma BoxRow0()
    ensures |SBOX| == 16 && BoxRow(SBOX[0], 0)
  {
    hide Square;
    ByteTables();
  }

  lemma BoxRow1()
    ensures |SBOX| == 16 && BoxRow(SBOX[1], 16)
  {
    hide Square;
    ByteTables();
  }

  lemma BoxRow2()
    ensures |SBOX| == 16 && BoxRow(SBOX[2], 32)
  {
    hide Square;
    ByteTables();
  }

  lemma BoxRow3()
    ensures |SBOX| == 16 && BoxRow(SBOX[3], 48)
  {
    hide Square;
    ByteTables();
  }

  lemma BoxRow4()
    ensures |SBOX| == 16 && BoxRow(SBOX[4], 64)
  {
    hide Square;
    ByteTables();
  }

  lemma BoxRow5()
    ensures |SBOX| == 16 && BoxRow(SBOX[5], 80)
  {
    hide Square;
    ByteTables();
  }

  lemma BoxRow6()
    ensures |SBOX| == 16 && BoxRow(SBOX[6], 96)
  {
    hide Square;
    ByteTables();
  }

  lemma BoxRow7()
    ensures |SBOX| == 16 && BoxRow(SBOX[7], 112)
  {
    hide Square;
    ByteTables();
  }

  lemma BoxRow8()
    ensures |SBOX| == 16 && BoxRow(SBOX[8], 128)
  {
    hide Square;
    ByteTables();
  }

  lemma BoxRow9()
    ensures |SBOX| == 16 && BoxRow(SBOX[9], 144)
  {
    hide Square;
    ByteTables();
  }

  lemma BoxRow10()
    ensures |SBOX| == 16 && BoxRow(SBOX[10], 160)
  {
    hide Square;
    ByteTables();
  }

  lemma BoxRow11()
    ensures |SBOX| == 16 && BoxRow(SBOX[11], 176)
  {
    hide Square;
    ByteTables();
  }

  lemma BoxRow12()
    ensures |SBOX| == 16 && BoxRow(SBOX[12], 192)
  {
    hide Square;
    ByteTables();
  }

  lemma BoxRow13()
    ensures |SBOX| == 16 && BoxRow(SBOX[13], 208)
  {
    hide Square;
    ByteTables();
  }

  lemma BoxRow14()
    ensures |SBOX| == 16 && BoxRow(SBOX[14], 224)
  {
    hide Square;
    ByteTables();
  }

  lemma BoxRow15()
    ensures |SBOX| == 16 && BoxRow(SBOX[15], 240)
  {
    hide Square;
    ByteTables();
  }

  lemma MixRows0()
    ensures |ETABLE| == |SBOX| == 16 && MixRow(ETABLE[0], SBOX[0]) && MixRow(ETABLE[1], SBOX[1])
  {
  }

  lemma MixRows1()
    ensures |ETABLE| == |SBOX| == 16 && MixRow(ETABLE[2], SBOX[2]) && MixRow(ETABLE[3], SBOX[3])
  {
  }

  lemma MixRows2()
    ensures |ETABLE| == |SBOX| == 16 && MixRow(ETABLE[4], SBOX[4]) && MixRow(ETABLE[5], SBOX[5])
  {
  }

  lemma MixRows3()
    ensures |ETABLE| == |SBOX| == 16 && MixRow(ETABLE[6], SBOX[6]) && MixRow(ETABLE[7], SBOX[7])
  {
  }

  lemma MixRows4()
    ensures |ETABLE| == |SBOX| == 16 && MixRow(ETABLE[8], SBOX[8]) && MixRow(ETABLE[9], SBOX[9])
  {
  }

  lemma MixRows5()
    ensures |ETABLE| == |SBOX| == 16 && MixRow(ETABLE[10], SBOX[10]) && MixRow(ETABLE[11], SBOX[11])
  {
  }

  lemma MixRows6()
    ensures |ETABLE| == |SBOX| == 16 && MixRow(ETABLE[12], SBOX[12]) && MixRow(ETABLE[13], SBOX[13])
  {
  }

  lemma MixRows7()
    ensures |ETABLE| == |SBOX| == 16 && MixRow(ETABLE[14], SBOX[14]) && MixRow(ETABLE[15], SBOX[15])
  {
  }

  lemma InvMixRows0()
    ensures |DTABLE| == |ISBOX| == 16 && InvMixRow(DTABLE[0], ISBOX[0]) && InvMixRow(DTABLE[1], ISBOX[1])
  {
    hide Square;
    WordTables();
  }

  lemma InvMixRows1()
    ensures |DTABLE| == |ISBOX| == 16 && InvMixRow(DTABLE[2], ISBOX[2]) && InvMixRow(DTABLE[3], ISBOX[3])
  {
    hide Square;
    WordTables();
  }

  lemma InvMixRows2()
    ensures |DTABLE| == |ISBOX| == 16 && InvMixRow(DTABLE[4], ISBOX[4]) && InvMixRow(DTABLE[5], ISBOX[5])
  {
    hide Square;
    WordTables();
  }

  lemma InvMixRows3()
    ensures |DTABLE| == |ISBOX| == 16 && InvMixRow(DTABLE[6], ISBOX[6]) && InvMixRow(DTABLE[7], ISBOX[7])
  {
    hide Square;
    WordTables();
  }

  lemma InvMixRows4()
    ensures |DTABLE| == |ISBOX| == 16 && InvMixRow(DTABLE[8], ISBOX[8]) && InvMixRow(DTABLE[9], ISBOX[9])
  {
    hide Square;
    WordTables();
  }

  lemma InvMixRows5()
    ensures |DTABLE| == |ISBOX| == 16 && InvMixRow(DTABLE[10], ISBOX[10]) && InvMixRow(DTABLE[11], ISBOX[11])
  {
    hide Square;
    WordTables();
  }

  lemma InvMixRows6()
    ensures |DTABLE| == |ISBOX| == 16 && InvMixRow(DTABLE[12], ISBOX[12]) && InvMixRow(DTABLE[13], ISBOX[13])
  {
    hide Square;
    WordTables();
  }

  lemma InvMixRows7()
    ensures |DTABLE| == |ISBOX| == 16 && InvMixRow(DTABLE[14], ISBOX[14]) && InvMixRow(DTABLE[15], ISBOX[15])
  {
    hide Square;
    WordTables();
  }

  lemma KeyRow0()
    ensures |MTABLE| == 16 && KeyColumns(MTABLE[0], 0)
  {
    hide KeyColumns, InvMixOf;
    KeyRowColumns(MTABLE[0], 0);
  }

  lemma KeyRow1()
    ensures |MTABLE| == 16 && KeyColumns(MTABLE[1], 16)
  {
    hide KeyColumns, InvMixOf;
    KeyRowColumns(MTABLE[1], 16);
  }

  lemma KeyRow2()
    ensures |MTABLE| == 16 && KeyColumns(MTABLE[2], 32)
  {
    hide KeyColumns, InvMixOf;
    KeyRowColumns(MTABLE[2], 32);
  }

  lemma KeyRow3()
    ensures |MTABLE| == 16 && KeyColumns(MTABLE[3], 48)
  {
    hide KeyColumns, InvMixOf;
    KeyRowColumns(MTABLE[3], 48);
  }

  lemma KeyRow4()
    ensures |MTABLE| == 16 && KeyColumns(MTABLE[4], 64)
  {
    hide KeyColumns, InvMixOf;
    KeyRowColumns(MTABLE[4], 64);
  }

  lemma KeyRow5()
    ensures |MTABLE| == 16 && KeyColumns(MTABLE[5], 80)
  {
    hide KeyColumns, InvMixOf;
    KeyRowColumns(MTABLE[5], 80);
  }

  lemma KeyRow6()
    ensures |MTABLE| == 16 && KeyColumns(MTABLE[6], 96)
  {
    hide KeyColumns, InvMixOf;
    KeyRowColumns(MTABLE[6], 96);
  }

  lemma KeyRow7()
    ensures |MTABLE| == 16 && KeyColumns(MTABLE[7], 112)
  {
    hide KeyColumns, InvMixOf;
    KeyRowColumns(MTABLE[7], 112);
  }

  lemma KeyRow8()
    ensures |MTABLE| == 16 && KeyColumns(MTABLE[8], 128)
  {
    hide KeyColumns, InvMixOf;
    KeyRowColumns(MTABLE[8], 128);
  }

  lemma KeyRow9()
    ensures |MTABLE| == 16 && KeyColumns(MTABLE[9], 144)
  {
    hide KeyColumns, InvMixOf;
    KeyRowColumns(MTABLE[9], 144);
  }

  lemma KeyRow10()
    ensures |MTABLE| == 16 && KeyColumns(MTABLE[10], 160)
  {
    hide KeyColumns, InvMixOf;
    KeyRowColumns(MTABLE[10], 160);
  }

  lemma KeyRow11()
    ensures |MTABLE| == 16 && KeyColumns(MTABLE[11], 176)
  {
    hide KeyColumns, InvMixOf;
    KeyRowColumns(MTABLE[11], 176);
  }

  lemma KeyRow12()
    ensures |MTABLE| == 16 && KeyColumns(MTABLE[12], 192)
  {
    hide KeyColumns, InvMixOf;
    KeyRowColumns(MTABLE[12], 192);
  }

  lemma KeyRow13()
    ensures |MTABLE| == 16 && KeyColumns(MTABLE[13], 208)
  {
    hide KeyColumns, InvMixOf;
    KeyRowColumns(MTABLE[13], 208);
  }

  lemma KeyRow14()
    ensures |MTABLE| == 16 && KeyColumns(MTABLE[14], 224)
  {
    hide KeyColumns, InvMixOf;
    KeyRowColumns(MTABLE[14], 224);
  }

  lemma KeyRow15()
    ensures |MTABLE| == 16 && KeyColumns(MTABLE[15], 240)
  {
    hide KeyColumns, InvMixOf;
    KeyRowColumns(MTABLE[15], 240);
  }

  // ---- any entry ----

  lemma BoxRowAt(r: nat)
    requires r < 16
    ensures Square(SBOX) && BoxRow(SBOX[r], 16 * r)
  {
    hide BoxRow, SBOX;
    ByteTables();
    BoxRow0();
    BoxRow1();
    BoxRow2();
    BoxRow3();
    BoxRow4();
    BoxRow5();
    BoxRow6();
    BoxRow7();
    BoxRow8();
    BoxRow9();
    BoxRow10();
    BoxRow11();
    BoxRow12();
    BoxRow13();
    BoxRow14();
    BoxRow15();
    assert r == 0 || r == 1 || r == 2 || r == 3 || r == 4 || r == 5 || r == 6 || r == 7
        || r == 8 || r == 9 || r == 10 || r == 11 || r == 12 || r == 13 || r == 14 || r == 15;
  }

  lemma InvMixRowAt(r: nat)
    requires r < 16
    ensures Square(DTABLE) && Square(ISBOX) && InvMixRow(DTABLE[r], ISBOX[r])
  {
    hide InvMixRow, DTABLE, ISBOX;
    ByteTables();
    WordTables();
    InvMixRows0();
    InvMixRows1();
    InvMixRows2();
    InvMixRows3();
    InvMixRows4();
    InvMixRows5();
    InvMixRows6();
    InvMixRows7();
    assert r == 0 || r == 1 || r == 2 || r == 3 || r == 4 || r == 5 || r == 6 || r == 7
        || r == 8 || r == 9 || r == 10 || r == 11 || r == 12 || r == 13 || r == 14 || r == 15;
  }

  lemma MixRowAt(r: nat)
    requires r < 16
    ensures Square(ETABLE) && Square(SBOX) && MixRow(ETABLE[r], SBOX[r])
  {
    hide MixRow, ETABLE, SBOX;
    ByteTables();
    WordTables();
    MixRows0();
    MixRows1();
    MixRows2();
    MixRows3();
    MixRows4();
    MixRows5();
    MixRows6();
    MixRows7();
    assert r == 0 || r == 1 || r == 2 || r == 3 || r == 4 || r == 5 || r == 6 || r == 7
        || r == 8 || r == 9 || r == 10 || r == 11 || r == 12 || r == 13 || r == 14 || r == 15;
  }

  lemma KeyRowAt(r: nat)
    requires r < 16
    ensures Square(MTABLE) && KeyColumns(MTABLE[r], 16 * r)
  {
    hide KeyColumns, MTABLE;
    WordTables();
    KeyRow0();
    KeyRow1();
    KeyRow2();
    KeyRow3();
    KeyRow4();
    KeyRow5();
    KeyRow6();
    KeyRow7();
    KeyRow8();
    KeyRow9();
    KeyRow10();
    KeyRow11();
    KeyRow12();
    KeyRow13();
    KeyRow14();
    KeyRow15();
    assert r == 0 || r == 1 || r == 2 || r == 3 || r == 4 || r == 5 || r == 6 || r == 7
        || r == 8 || r == 9 || r == 10 || r == 11 || r == 12 || r == 13 || r == 14 || r == 15;
  }

  lemma BoxIn(s: seq<bv8>, n: nat, c: nat)
    requires BoxRow(s, n) && c < 16
    ensures Square(ISBOX) && BackTo(s[c], n + c)
  {
    hide BackTo, ISBOX;
    ByteTables();
    assert c == 0 || c == 1 || c == 2 || c == 3 || c == 4 || c == 5 || c == 6 || c == 7
        || c == 8 || c == 9 || c == 10 || c == 11 || c == 12 || c == 13 || c == 14 || c == 15;
  }

  lemma InvMixIn(t: seq<bv32>, s: seq<nat>, c: nat)
    requires InvMixRow(t, s) && c < 16
    ensures Square(MTABLE) && InvMixEntry(t[c], s[c])
  {
    hide InvMixEntry, MTABLE;
    WordTables();
    assert c == 0 || c == 1 || c == 2 || c == 3 || c == 4 || c == 5 || c == 6 || c == 7
        || c == 8 || c == 9 || c == 10 || c == 11 || c == 12 || c == 13 || c == 14 || c == 15;
  }

  lemma MixIn(t: seq<bv32>, s: seq<bv8>, c: nat)
    requires MixRow(t, s) && c < 16
    ensures Bytes(t[c]) == MixByte(s[c])
  {
    hide Bytes, MixByte;
    assert c == 0 || c == 1 || c == 2 || c == 3 || c == 4 || c == 5 || c == 6 || c == 7
        || c == 8 || c == 9 || c == 10 || c == 11 || c == 12 || c == 13 || c == 14 || c == 15;
  }

  lemma KeyIn(t: seq<bv32>, n: nat, c: nat)
    requires n <= 240 && KeyColumns(t, n) && c < 16
    ensures Bytes(t[c]) == InvMixOf(n + c)
  {
    hide Bytes, InvMixOf;
    assert c == 0 || c == 1 || c == 2 || c == 3 || c == 4 || c == 5 || c == 6 || c == 7
        || c == 8 || c == 9 || c == 10 || c == 11 || c == 12 || c == 13 || c == 14 || c == 15;
  }

  lemma BoxEntry(n: nat)
    requires n < 256
    ensures Square(SBOX) && Square(ISBOX) && BackTo(SBOX[n / 16][n % 16], n)
  {
    hide SBOX, ISBOX, BoxRow;
    BoxRowAt(n / 16);
    BoxIn(SBOX[n / 16], 16 * (n / 16), n % 16);
  }

  lemma InvBoxEntry(n: nat)
    requires n < 256
    ensures Square(DTABLE) && Square(ISBOX) && Square(MTABLE)
      && InvMixEntry(DTABLE[n / 16][n % 16], ISBOX[n / 16][n % 16])
  {
    hide DTABLE, ISBOX, MTABLE, InvMixRow;
    InvMixRowAt(n / 16);
    InvMixIn(DTABLE[n / 16], ISBOX[n / 16], n % 16);
  }

  /** SubBytes and its inverse on one byte. */
  function SubByte(a: bv8): bv8 {
    ByteTables();
    At(SBOX, a)
  }

  function InvSubByte(a: bv8): bv8 {
    InvBoxEntry(a as int);
    At(ISBOX, a) as bv8
  }

  lemma ByteNumber(a: bv8)
    ensures (a as int) as bv8 == a
  {
  }

  /** The inverse S-box undoes the S-box. */
  lemma InvSubSub(a: bv8)
    ensures InvSubByte(SubByte(a)) == a
  {
    hide SBOX, ISBOX;
    BoxEntry(a as int);
    ByteNumber(a);
  }

  /** An entry of the encryption table: the byte goes through the S-box and is mixed. */
  lemma EncryptEntry(a: bv8)
    ensures Square(ETABLE) && Bytes(At(ETABLE, a)) == MixByte(SubByte(a))
  {
    hide SBOX, ETABLE, Bytes, MixByte, MixRow;
    var n := a as int;
    MixRowAt(n / 16);
    MixIn(ETABLE[n / 16], SBOX[n / 16], n % 16);
  }

  lemma InvMixOfByte(a: bv8)
    ensures InvMixOf(a as int) == InvMixByte(a)
  {
    hide InvMixByte;
    ByteNumber(a);
  }

  lemma KeyOf(n: nat)
    requires n < 256
    ensures Square(MTABLE) && Bytes(MTABLE[n / 16][n % 16]) == InvMixOf(n)
  {
    hide MTABLE, Bytes, InvMixOf, KeyColumns;
    KeyRowAt(n / 16);
    KeyIn(MTABLE[n / 16], 16 * (n / 16), n % 16);
  }

  /** An entry of the subkey table: the byte is mixed inversely. */
  lemma KeyEntry(a: bv8)
    ensures Square(MTABLE) && Bytes(At(MTABLE, a)) == InvMixByte(a)
  {
    hide MTABLE, Bytes, InvMixByte, InvMixOf;
    KeyOf(a as int);
    InvMixOfByte(a);
  }

  /** An entry of the decryption table: the byte goes through the inverse S-box and is mixed inversely. */
  lemma DecryptEntry(a: bv8)
    ensures Square(DTABLE) && Bytes(At(DTABLE, a)) == InvMixByte(InvSubByte(a))
  {
    hide ISBOX, DTABLE, MTABLE, Bytes, InvMixByte;
    InvBoxEntry(a as int);
    ByteNumbers.NumberByte(At(ISBOX, a));
    KeyEntry(InvSubByte(a));
  }
}
