/** The second test case of RFC 4231 (section 4.3): an HMAC-SHA-256, which takes two hashes of two blocks each. */
module HmacExample {
  import opened Hmac
  import opened Sha256
  import opened Sha256Trace

  /** "Jefe" */
  const KEY: seq<bv8> := [0x4a, 0x65, 0x66, 0x65]

  /** "what do ya want for nothing?" */
  const MESSAGE: seq<bv8> := [
    0x77, 0x68, 0x61, 0x74, 0x20, 0x64, 0x6f, 0x20, 0x79, 0x61, 0x20, 0x77, 0x61, 0x6e,
    0x74, 0x20, 0x66, 0x6f, 0x72, 0x20, 0x6e, 0x6f, 0x74, 0x68, 0x69, 0x6e, 0x67, 0x3f
  ]

  const INNER_STATE: seq<bv32> := [
    0x655da7fa, 0xcc434b37, 0x5a1cd5cb, 0x0692ee0e, 0xa47a23d3, 0x4c3af449, 0xdba21ae2, 0x78c7500c
  ]

  const INNER_HASH: seq<bv32> := [
    0xa2e48586, 0x3d27f9d8, 0x64ac8d80, 0x2432a1ed, 0x477d8c4c, 0x6f349d16, 0xd4e7e917, 0xc629cad7
  ]

  const OUTER_STATE: seq<bv32> := [
    0x0eafe3d5, 0x13412e6c, 0x6a6a2feb, 0x2d375acc, 0x51a4fd47, 0x6db095e8, 0x23bfa18a, 0x52f141d5
  ]

  const MAC: seq<bv32> := [
    0x5bdcc146, 0xbf60754e, 0x6a042426, 0x089575c7, 0x5a003f08, 0x9d273983, 0x9dec58b9, 0x64ec3843
  ]

  // ---- the four compressions ----

  /** The compression of the key under the inner pad. */
  const IPAD: Trace := Trace(
    [
      [0x7c535053, 0x36363636, 0x36363636, 0x36363636, 0x36363636, 0x36363636, 0x36363636, 0x36363636],
      [0x36363636, 0x36363636, 0x36363636, 0x36363636, 0x36363636, 0x36363636, 0x36363636, 0x36363636],
      [0x7780fe00, 0x3163e3e3, 0xb47168a2, 0xe11539f8, 0xecfba47f, 0x8f8ebd79, 0xfa1ec89e, 0x1e0e70f6],
      [0x0c23673e, 0xc8311559, 0xddee66a1, 0xb28ed337, 0xac9fc9a9, 0xcb4db29d, 0x59369281, 0xe32830f3],
      [0x136f5555, 0x377ff55a, 0x4aa3e0f1, 0x9d19ff47, 0x926e254f, 0x39c2254f, 0x2731f000, 0x2bd17abc],
      [0xf96d6a27, 0x6686c278, 0x616aea0c, 0xb308442a, 0x5d1a34ff, 0xca7159c9, 0xd99ebf95, 0xe1a34c15],
      [0x51dbd4be, 0x7c986d13, 0x71d1a48e, 0x39a42882, 0x53c21066, 0x1d686bfc, 0x7682d688, 0xc08ab048],
      [0xf41238c8, 0x94e252cd, 0x485d2762, 0xe20b3ab9, 0x8e7ad67d, 0xda8d1cc5, 0xb0eeaf96, 0x8739d375]
    ],
    [
      [0x785bd8a0, 0x983307d2, 0xe561c53c, 0x8c549b2f, 0x53632755, 0x34561afc, 0x58778f6a, 0x16fcd1de],
      [0x235471b0, 0xb0e25b7e, 0xc29f7823, 0x1b918ad1, 0x07f487ee, 0x0aae579f, 0x32f91b02, 0xd8a297b3],
      [0x57ea9c70, 0x0268f9a1, 0x3dbc498e, 0xd9507501, 0xc5318371, 0x062e40f6, 0x17e2b319, 0xad9d4643],
      [0x08bb510a, 0x7c2a0dc2, 0xd2451e37, 0x0268fa1b, 0xedf2ce47, 0xf09b0708, 0x078f5fb6, 0xeaa1ecb4],
      [0x3328a14d, 0x6d2e4564, 0x83963ea4, 0x68029891, 0x1d8a1947, 0x67625ada, 0x3b14694f, 0xa79b91d0],
      [0xb44f112a, 0x09f97f87, 0x73144f72, 0x232d24d1, 0x5cd1d6ed, 0xb803f3e1, 0x6531bcdc, 0x750ed7b4],
      [0x352963ee, 0xbd49faae, 0x9d2923ec, 0x7875932a, 0xfc2f1aae, 0x3ac20327, 0x80be9491, 0xc5a25619],
      [0x26d12d1d, 0xecaa3749, 0xfc2dd2ee, 0x79b8b244, 0x6142f8d4, 0x1dade259, 0x10db9cb2, 0xfb53c193]
    ],
    [
      [0x151b32f5, 0xa5de5788, 0xd42662d3, 0x663f1212, 0xd7477e59, 0x24389410, 0xa6e3644b, 0x1f67d48a],
      [0x6a38013d, 0xfe30de3e, 0xe981ca81, 0x435e9d84, 0x426da4d5, 0x4b6881fa, 0x22d64e87, 0x40743133],
      [0x834c5d31, 0x5e22d8f7, 0xef561db9, 0x67d16b9d, 0x6414d5ba, 0x7e976b52, 0x513641df, 0x27cec047],
      [0x19db5e5c, 0x8d6241f3, 0x643e203e, 0x46841870, 0xf09bbf76, 0x67e97303, 0x905c490a, 0xc6426440],
      [0x65d22258, 0x55f8d8de, 0x967f4f57, 0xa23b5ecb, 0x52c2fa60, 0xa5cf1142, 0x8b47cae7, 0xfb81d2f6],
      [0xe1a23661, 0xa239fc34, 0x2c959b32, 0xe30014cd, 0x13126373, 0xa7e30631, 0xa1815b66, 0xe2cdce6a],
      [0x81387698, 0xc86fad2f, 0x6f83bf09, 0x93b9f32a, 0xa2ecbc67, 0x25c84e04, 0xc5fadb1d, 0x4677efca],
      [0x595f5238, 0x3cd11d02, 0x2e916135, 0xb37aa2eb, 0x1ce682f3, 0xbc1e4137, 0xb1358bbd, 0x536bd154]
    ])

  lemma IpadSchedule2()
    ensures Shape(IPAD) && ScheduleRow(IPAD, 2) && ScheduleRow(IPAD, 3)
  {
  }

  lemma IpadSchedule4()
    ensures Shape(IPAD) && ScheduleRow(IPAD, 4) && ScheduleRow(IPAD, 5)
  {
  }

  lemma IpadSchedule6()
    ensures Shape(IPAD) && ScheduleRow(IPAD, 6) && ScheduleRow(IPAD, 7)
  {
  }

  lemma IpadRounds0()
    ensures Shape(IPAD) && |H0| == 8 && RoundsRow(H0, IPAD, 0)
  {
  }

  lemma IpadRounds1()
    ensures Shape(IPAD) && |H0| == 8 && RoundsRow(H0, IPAD, 1)
  {
  }

  lemma IpadRounds2()
    ensures Shape(IPAD) && |H0| == 8 && RoundsRow(H0, IPAD, 2)
  {
  }

  lemma IpadRounds3()
    ensures Shape(IPAD) && |H0| == 8 && RoundsRow(H0, IPAD, 3)
  {
  }

  lemma IpadRounds4()
    ensures Shape(IPAD) && |H0| == 8 && RoundsRow(H0, IPAD, 4)
  {
  }

  lemma IpadRounds5()
    ensures Shape(IPAD) && |H0| == 8 && RoundsRow(H0, IPAD, 5)
  {
  }

  lemma IpadRounds6()
    ensures Shape(IPAD) && |H0| == 8 && RoundsRow(H0, IPAD, 6)
  {
  }

  lemma IpadRounds7()
    ensures Shape(IPAD) && |H0| == 8 && RoundsRow(H0, IPAD, 7)
  {
  }

  lemma IpadTraces()
    ensures Shape(IPAD) && |H0| == 8 && Traces(H0, IPAD)
  {
    hide ScheduleRow, RoundsRow, IPAD, H0;
    IpadSchedule2();
    IpadSchedule4();
    IpadSchedule6();
    IpadRounds0();
    IpadRounds1();
    IpadRounds2();
    IpadRounds3();
    IpadRounds4();
    IpadRounds5();
    IpadRounds6();
    IpadRounds7();
    forall k | 2 <= k < 8 ensures ScheduleRow(IPAD, k) {
      assert k == 2 || k == 3 || k == 4 || k == 5 || k == 6 || k == 7;
    }
    forall k | 0 <= k < 8 ensures RoundsRow(H0, IPAD, k) {
      assert k == 0 || k == 1 || k == 2 || k == 3 || k == 4 || k == 5 || k == 6 || k == 7;
    }
  }

  /** The compression of the message and its padding. */
  const INNER: Trace := Trace(
    [
      [0x77686174, 0x20646f20, 0x79612077, 0x616e7420, 0x666f7220, 0x6e6f7468, 0x696e673f, 0x80000000],
      [0x00000000, 0x00000000, 0x00000000, 0x00000000, 0x00000000, 0x00000000, 0x00000000, 0x000002e0],
      [0xd6ecae97, 0xcb53a736, 0x0df4d52e, 0x99470585, 0x56ac588f, 0xbaf46d24, 0x21b274b4, 0x120525d6],
      [0x40189fa8, 0x444a1f39, 0xf57833ad, 0xa316f0ba, 0xda928743, 0xc8153509, 0xe63c58e9, 0x9b063401],
      [0x5fb8701b, 0x06610ac3, 0xc09ff909, 0x1a6d0e91, 0x67b9d8fd, 0xb9251d58, 0x7b42c482, 0x1e4fcbae],
      [0x7f18d3ae, 0x6b3e02aa, 0x60acd3cc, 0x09230471, 0xcf103ae0, 0xff3e7122, 0xbc028b24, 0x31f8a0a0],
      [0xa4405ebd, 0xa126f06e, 0x5140b18d, 0x0f9727bc, 0x96dc649b, 0xa7105035, 0x1955553f, 0x4cbc81fd],
      [0xf9992590, 0x2d78b115, 0x48b2660c, 0xc566eb38, 0xbc4719f4, 0xbd8f6578, 0xe71fceb9, 0x023dd359]
    ],
    [
      [0xb8e21a13, 0x481dac7b, 0x62f20e4d, 0x238af6c2, 0xf5d4dabb, 0x567dcdf7, 0xd609bdc3, 0x54c22a6c],
      [0xf630cd63, 0x04bd02e2, 0x5a575c57, 0xd1f3d86b, 0x09eca57c, 0xf5842695, 0xd0e32bb8, 0xbf4e7f46],
      [0x03129a36, 0x604a7248, 0xeedaca00, 0xbe87e7f9, 0xbf0b0bf2, 0xf06fcc32, 0x79a0a5a9, 0x5b9a284d],
      [0x96bb045f, 0x4263f6b0, 0xe45cf572, 0x2baf19c4, 0xfd6b63f2, 0x578885a2, 0xa80d8d52, 0x3eebaf95],
      [0x89640ed6, 0x51552207, 0x008c48f1, 0xb55acccf, 0x44a5d2ff, 0x89b963f0, 0xc43e9334, 0x64336633],
      [0x6987babb, 0x8ec6134f, 0x795b866f, 0x3d286fbb, 0x9f6132f2, 0xb5486ab0, 0xc30b4900, 0x18eae95d],
      [0x792962de, 0xf8f9ec3e, 0x55103dbb, 0xb1b19220, 0x72ebf845, 0x71f4ebf0, 0xf1b65c41, 0xe73f1bab],
      [0x69922978, 0x33a4ced7, 0x8d8a1bdb, 0x39946bf0, 0x1d9fb3df, 0x0a8fb7b5, 0x70e4aea1, 0x3d86dd8c]
    ],
    [
      [0xa2fb95a0, 0xff2a679c, 0xff6ae436, 0x3d07eed9, 0x36f39d1a, 0xbf0823c8, 0x740ccf53, 0x648372d6],
      [0x46c05c5e, 0x2f941670, 0x797c2276, 0x67225dae, 0xb6e243b9, 0x053ab6db, 0x0000f140, 0xda0d8141],
      [0xab1d90bf, 0xa76ff792, 0xf8dabc32, 0x1ae1c552, 0x835ed8a5, 0xb5b58232, 0x47aee404, 0x2f41410b],
      [0x5fee007c, 0xabd69400, 0xe0824704, 0x5f777975, 0xb908e6ba, 0x9f3a120e, 0x71d96c70, 0x76edd9cf],
      [0xaa989cf3, 0xbb9a0523, 0xfe4cc83f, 0xbc799f31, 0xdc9571de, 0x04e91075, 0x66ab4215, 0x01eb08e5],
      [0xc4e2f503, 0xa2f775d7, 0x6f921a90, 0xb45facdd, 0xb871c7e5, 0x521dd93c, 0x2580f283, 0x68e92552],
      [0xdfc9235d, 0x27e4057a, 0x66b8573a, 0xd8fac404, 0x7f423327, 0xc7cca388, 0x44832b00, 0xdfe69826],
      [0x11c9754e, 0xaae179f5, 0xf21e79c4, 0xe17ff730, 0x4d627acb, 0xf945ce35, 0x22f9a8cd, 0xa3036879]
    ])

  lemma InnerSchedule2()
    ensures Shape(INNER) && ScheduleRow(INNER, 2) && ScheduleRow(INNER, 3)
  {
  }

  lemma InnerSchedule4()
    ensures Shape(INNER) && ScheduleRow(INNER, 4) && ScheduleRow(INNER, 5)
  {
  }

  lemma InnerSchedule6()
    ensures Shape(INNER) && ScheduleRow(INNER, 6) && ScheduleRow(INNER, 7)
  {
  }

  lemma InnerRounds0()
    ensures Shape(INNER) && |INNER_STATE| == 8 && RoundsRow(INNER_STATE, INNER, 0)
  {
  }

  lemma InnerRounds1()
    ensures Shape(INNER) && |INNER_STATE| == 8 && RoundsRow(INNER_STATE, INNER, 1)
  {
  }

  lemma InnerRounds2()
    ensures Shape(INNER) && |INNER_STATE| == 8 && RoundsRow(INNER_STATE, INNER, 2)
  {
  }

  lemma InnerRounds3()
    ensures Shape(INNER) && |INNER_STATE| == 8 && RoundsRow(INNER_STATE, INNER, 3)
  {
  }

  lemma InnerRounds4()
    ensures Shape(INNER) && |INNER_STATE| == 8 && RoundsRow(INNER_STATE, INNER, 4)
  {
  }

  lemma InnerRounds5()
    ensures Shape(INNER) && |INNER_STATE| == 8 && RoundsRow(INNER_STATE, INNER, 5)
  {
  }

  lemma InnerRounds6()
    ensures Shape(INNER) && |INNER_STATE| == 8 && RoundsRow(INNER_STATE, INNER, 6)
  {
  }

  lemma InnerRounds7()
    ensures Shape(INNER) && |INNER_STATE| == 8 && RoundsRow(INNER_STATE, INNER, 7)
  {
  }

  lemma InnerTraces()
    ensures Shape(INNER) && |INNER_STATE| == 8 && Traces(INNER_STATE, INNER)
  {
    hide ScheduleRow, RoundsRow, INNER;
    InnerSchedule2();
    InnerSchedule4();
    InnerSchedule6();
    InnerRounds0();
    InnerRounds1();
    InnerRounds2();
    InnerRounds3();
    InnerRounds4();
    InnerRounds5();
    InnerRounds6();
    InnerRounds7();
    forall k | 2 <= k < 8 ensures ScheduleRow(INNER, k) {
      assert k == 2 || k == 3 || k == 4 || k == 5 || k == 6 || k == 7;
    }
    forall k | 0 <= k < 8 ensures RoundsRow(INNER_STATE, INNER, k) {
      assert k == 0 || k == 1 || k == 2 || k == 3 || k == 4 || k == 5 || k == 6 || k == 7;
    }
  }

  /** The compression of the key under the outer pad. */
  const OPAD: Trace := Trace(
    [
      [0x16393a39, 0x5c5c5c5c, 0x5c5c5c5c, 0x5c5c5c5c, 0x5c5c5c5c, 0x5c5c5c5c, 0x5c5c5c5c, 0x5c5c5c5c],
      [0x5c5c5c5c, 0x5c5c5c5c, 0x5c5c5c5c, 0x5c5c5c5c, 0x5c5c5c5c, 0x5c5c5c5c, 0x5c5c5c5c, 0x5c5c5c5c],
      [0xbc6c6d6b, 0x028f8f8e, 0x18148f7c, 0x93133fd1, 0x33346707, 0x55131c00, 0x1c4c8fc1, 0xaa8252d7],
      [0xd92fce9a, 0x7bb09081, 0xb23c3c92, 0x8e036611, 0xef8b1cd6, 0xfcb68659, 0x98cd1c4a, 0xa514d1ce],
      [0x655e9871, 0x80b14e30, 0xc3f7e470, 0x235e01a7, 0x0b79c2d8, 0x51112a82, 0xc947e091, 0x9d17222d],
      [0x8fead71a, 0xf1240136, 0xf2403484, 0x911ae6e0, 0x6b8481a7, 0xb6c12283, 0xc47d12e8, 0x32b8fe41],
      [0xa4366b12, 0xd4bab7a3, 0x18198b37, 0x5dc30ab5, 0xfb56e209, 0xbc47b487, 0x298fa38f, 0xff6df23c],
      [0xfded1548, 0x6b3181fd, 0xe2eea69e, 0xe11be15d, 0x08859856, 0xfacb39cf, 0xfeb10bf2, 0xd790cd34]
    ],
    [
      [0x1241c286, 0x455055eb, 0x03637aee, 0x3c9c8844, 0xcb1304a6, 0xb1133397, 0xe54a3493, 0x69435709],
      [0x96d3fb5e, 0xba42125f, 0xc8369aca, 0xee376db8, 0xa1a61c47, 0xdf63a889, 0x5e3eeba7, 0xe7b8b56f],
      [0xc8ad2b06, 0xa0d6a020, 0x6643e281, 0x3cbb1ed2, 0x0b37ef52, 0x93238532, 0xb3d8e080, 0x897a142a],
      [0xf9870a23, 0x1c11e5a3, 0xa6dcfe16, 0x86103013, 0x66159104, 0x33c6b89d, 0x466a3c05, 0x223781a1],
      [0xd822185e, 0x54ecb192, 0xad7954cf, 0xe7d10d33, 0xfb686937, 0x297f2869, 0xe332a1f9, 0x2085ac20],
      [0x6b28b082, 0x16966c26, 0xb476c398, 0x2a70095c, 0x5b5a8b27, 0x5009f43b, 0xe65638ea, 0x835aa22a],
      [0xdbfedfb7, 0xa0b0242f, 0x4980a430, 0x1ca2eaeb, 0xf2457593, 0xd2dbf54f, 0xd3a780aa, 0x8a8b3fbf],
      [0x05ccc2a3, 0x8e535f40, 0x6717179f, 0xb31fa7ba, 0x87e76592, 0x2dfb3c79, 0x57d97fe7, 0xa4a5fd6e]
    ],
    [
      [0xaf011cdb, 0xafd267f0, 0x3d2fcf9f, 0xc9219e10, 0x98dc9837, 0x0f707dff, 0xf3639443, 0x4facc1d6],
      [0x915c0df4, 0x55649cc8, 0x7f195390, 0xfef75e3d, 0xc247b35e, 0x1f4a0977, 0x7a1a23a6, 0x85ada43a],
      [0xdad3ee9e, 0x52cc88f8, 0x701600c4, 0x019a631b, 0x194d0d3a, 0xdde54c39, 0xfba08193, 0xe78fa9c2],
      [0x85ea1054, 0x4204e95d, 0x1418c4dc, 0x27fa0221, 0xb7b33477, 0xe1e1a8b5, 0x34384529, 0x28c05066],
      [0x804e7b81, 0x49f215c3, 0xf84d3cf0, 0x85307daa, 0x1931b9a7, 0x78316de1, 0xaf7ba84f, 0x5f583973],
      [0xc5c881a9, 0x20d97726, 0xb7ff018f, 0x29e86379, 0x0fb4d10f, 0x466cefd5, 0xee6c6342, 0x354edc49],
      [0x99f4a262, 0x3d1ba64c, 0xa21a84e3, 0xa4da44af, 0xa9c7bd40, 0xd532b445, 0x1946da48, 0xa4a85ec7],
      [0xf1e61ceb, 0xf63e3f0b, 0x17059133, 0xfcf30f33, 0xf71074bc, 0x043bc7df, 0xd2ab2d5c, 0x0096aac8]
    ])

  lemma OpadSchedule2()
    ensures Shape(OPAD) && ScheduleRow(OPAD, 2) && ScheduleRow(OPAD, 3)
  {
  }

  lemma OpadSchedule4()
    ensures Shape(OPAD) && ScheduleRow(OPAD, 4) && ScheduleRow(OPAD, 5)
  {
  }

  lemma OpadSchedule6()
    ensures Shape(OPAD) && ScheduleRow(OPAD, 6) && ScheduleRow(OPAD, 7)
  {
  }

  lemma OpadRounds0()
    ensures Shape(OPAD) && |H0| == 8 && RoundsRow(H0, OPAD, 0)
  {
  }

  lemma OpadRounds1()
    ensures Shape(OPAD) && |H0| == 8 && RoundsRow(H0, OPAD, 1)
  {
  }

  lemma OpadRounds2()
    ensures Shape(OPAD) && |H0| == 8 && RoundsRow(H0, OPAD, 2)
  {
  }

  lemma OpadRounds3()
    ensures Shape(OPAD) && |H0| == 8 && RoundsRow(H0, OPAD, 3)
  {
  }

  lemma OpadRounds4()
    ensures Shape(OPAD) && |H0| == 8 && RoundsRow(H0, OPAD, 4)
  {
  }

  lemma OpadRounds5()
    ensures Shape(OPAD) && |H0| == 8 && RoundsRow(H0, OPAD, 5)
  {
  }

  lemma OpadRounds6()
    ensures Shape(OPAD) && |H0| == 8 && RoundsRow(H0, OPAD, 6)
  {
  }

  lemma OpadRounds7()
    ensures Shape(OPAD) && |H0| == 8 && RoundsRow(H0, OPAD, 7)
  {
  }

  lemma OpadTraces()
    ensures Shape(OPAD) && |H0| == 8 && Traces(H0, OPAD)
  {
    hide ScheduleRow, RoundsRow, OPAD, H0;
    OpadSchedule2();
    OpadSchedule4();
    OpadSchedule6();
    OpadRounds0();
    OpadRounds1();
    OpadRounds2();
    OpadRounds3();
    OpadRounds4();
    OpadRounds5();
    OpadRounds6();
    OpadRounds7();
    forall k | 2 <= k < 8 ensures ScheduleRow(OPAD, k) {
      assert k == 2 || k == 3 || k == 4 || k == 5 || k == 6 || k == 7;
    }
    forall k | 0 <= k < 8 ensures RoundsRow(H0, OPAD, k) {
      assert k == 0 || k == 1 || k == 2 || k == 3 || k == 4 || k == 5 || k == 6 || k == 7;
    }
  }

  /** The compression of the inner hash and its padding. */
  const OUTER: Trace := Trace(
    [
      [0xa2e48586, 0x3d27f9d8, 0x64ac8d80, 0x2432a1ed, 0x477d8c4c, 0x6f349d16, 0xd4e7e917, 0xc629cad7],
      [0x80000000, 0x00000000, 0x00000000, 0x00000000, 0x00000000, 0x00000000, 0x00000000, 0x00000300],
      [0xec8d4507, 0x6e44cb58, 0xe57a2e78, 0x1481a913, 0xa0c51e3a, 0x20542d99, 0xc7d6bc99, 0x572ed109],
      [0x7832fa16, 0x982a793e, 0x36d9a8b4, 0x1463b3c8, 0x01955976, 0x776eccea, 0x5f84771d, 0x7b31f508],
      [0xc9f4aee0, 0xd055fb5c, 0x0b79d67f, 0x7fe06bb1, 0x27530bc7, 0x3cdd17eb, 0xd3a5276a, 0xe79ef353],
      [0x70708e40, 0x503a442e, 0x8c04f280, 0x60a9ae13, 0x8edf61fe, 0x5a70bc6a, 0x06d8cf63, 0x2866cc9d],
      [0x7608691a, 0xa7182225, 0x1dc70eca, 0x6c947dd1, 0x7c97dcae, 0x7b09005f, 0x19d1e2a0, 0xab60d9da],
      [0xac37d412, 0x1236e096, 0x4a8a3d6d, 0xbe58c2f1, 0x53d27161, 0xe25a87a5, 0xb53d7e5f, 0x0828fce9]
    ],
    [
      [0xf0e59b1a, 0x74d0a70d, 0x3e39426b, 0x3b3e45a9, 0x13e61c3b, 0xcb506feb, 0x12acdcbb, 0x5d1582d4],
      [0x299dafa1, 0x96690f80, 0x75af6d08, 0x38e7f5bb, 0xb3f53c2a, 0x9af3cfc9, 0x8777eeed, 0x524a1ef8],
      [0x6ab009c8, 0x0b5d65cb, 0xf737884e, 0x14a85bed, 0x28d0682e, 0x513d0d3f, 0xe78abb5d, 0xca1dd9eb],
      [0xaa4cb4b8, 0x80cb7f4b, 0x11668226, 0xf7c152af, 0x804e3e18, 0x88ff9220, 0x6a101e8a, 0xf5637c6b],
      [0xbac40fc4, 0x55d2eba2, 0x342f2c31, 0xb17f8072, 0x3a8a934f, 0x2e42d717, 0x0d153365, 0x0939a676],
      [0xd04db10e, 0x558052cc, 0xea1d3715, 0x86ed36a6, 0x31c61bbf, 0x0795c206, 0xa4d05bd3, 0x5ab28db9],
      [0x4628a95a, 0xd908ac74, 0x11a2ef9d, 0x2e630aba, 0x1eb1f18c, 0x7ffaa436, 0x7e24f1f8, 0x13793033],
      [0x56d92dbb, 0x6f544952, 0x989fc133, 0x9b56f73d, 0xdb5e1afb, 0xff99f43b, 0xac1f46e2, 0x4d2cdd71]
    ],
    [
      [0x3124ec49, 0xd9d2a173, 0xb4d11325, 0x9b1e98cb, 0x2c0283b8, 0x4790de5c, 0x6939e327, 0xf26e1dc0],
      [0x8a822374, 0x064b4d17, 0x6d9dc752, 0x97b3f120, 0xac6ca791, 0x661ce7b3, 0x6a605c43, 0x2e2fafb1],
      [0xc1058262, 0xcf16b054, 0x9b3f39bf, 0xda2210a8, 0x4116203c, 0x9d044671, 0x8488c299, 0xf34d277d],
      [0xc540f9ab, 0x2a7734af, 0x370f480e, 0x322ec278, 0x2b124b23, 0x90550f47, 0xad346d31, 0x36193288],
      [0xbea853de, 0xa3e697be, 0x24b43db1, 0xe1ea1e98, 0x6e0359bc, 0xd54ff5d9, 0x8e8430d5, 0x0015e35d],
      [0xa65e9472, 0x7003a10e, 0x23df2e45, 0x09255f8c, 0x9b30b56e, 0xb061e903, 0xc04b2c11, 0x4504e9e3],
      [0x800d65f6, 0x1ff07294, 0xe4f56dbc, 0x84aea861, 0xf954931b, 0xee54ab78, 0xfbf6b1b0, 0xbf9e1c90],
      [0x548c538d, 0xbbfbaad1, 0x3f0868ad, 0xbf32e36d, 0x11faf66e, 0x7a2cb72f, 0x2f76a39b, 0x085b41c1]
    ])

  lemma OuterSchedule2()
    ensures Shape(OUTER) && ScheduleRow(OUTER, 2) && ScheduleRow(OUTER, 3)
  {
  }

  lemma OuterSchedule4()
    ensures Shape(OUTER) && ScheduleRow(OUTER, 4) && ScheduleRow(OUTER, 5)
  {
  }

  lemma OuterSchedule6()
    ensures Shape(OUTER) && ScheduleRow(OUTER, 6) && ScheduleRow(OUTER, 7)
  {
  }

  lemma OuterRounds0()
    ensures Shape(OUTER) && |OUTER_STATE| == 8 && RoundsRow(OUTER_STATE, OUTER, 0)
  {
  }

  lemma OuterRounds1()
    ensures Shape(OUTER) && |OUTER_STATE| == 8 && RoundsRow(OUTER_STATE, OUTER, 1)
  {
  }

  lemma OuterRounds2()
    ensures Shape(OUTER) && |OUTER_STATE| == 8 && RoundsRow(OUTER_STATE, OUTER, 2)
  {
  }

  lemma OuterRounds3()
    ensures Shape(OUTER) && |OUTER_STATE| == 8 && RoundsRow(OUTER_STATE, OUTER, 3)
  {
  }

  lemma OuterRounds4()
    ensures Shape(OUTER) && |OUTER_STATE| == 8 && RoundsRow(OUTER_STATE, OUTER, 4)
  {
  }

  lemma OuterRounds5()
    ensures Shape(OUTER) && |OUTER_STATE| == 8 && RoundsRow(OUTER_STATE, OUTER, 5)
  {
  }

  lemma OuterRounds6()
    ensures Shape(OUTER) && |OUTER_STATE| == 8 && RoundsRow(OUTER_STATE, OUTER, 6)
  {
  }

  lemma OuterRounds7()
    ensures Shape(OUTER) && |OUTER_STATE| == 8 && RoundsRow(OUTER_STATE, OUTER, 7)
  {
  }

  lemma OuterTraces()
    ensures Shape(OUTER) && |OUTER_STATE| == 8 && Traces(OUTER_STATE, OUTER)
  {
    hide ScheduleRow, RoundsRow, OUTER;
    OuterSchedule2();
    OuterSchedule4();
    OuterSchedule6();
    OuterRounds0();
    OuterRounds1();
    OuterRounds2();
    OuterRounds3();
    OuterRounds4();
    OuterRounds5();
    OuterRounds6();
    OuterRounds7();
    forall k | 2 <= k < 8 ensures ScheduleRow(OUTER, k) {
      assert k == 2 || k == 3 || k == 4 || k == 5 || k == 6 || k == 7;
    }
    forall k | 0 <= k < 8 ensures RoundsRow(OUTER_STATE, OUTER, k) {
      assert k == 0 || k == 1 || k == 2 || k == 3 || k == 4 || k == 5 || k == 6 || k == 7;
    }
  }

  // ---- the four blocks ----

  lemma IpadWords()
    ensures |XorPad(KeyBlock(KEY), 0x36)| == 64
    ensures Words(XorPad(KeyBlock(KEY), 0x36)) == IPAD.w[0] + IPAD.w[1]
  {
    hide IPAD, Word, Join, Xor8;
    var k := KeyBlock(KEY);
    var block := XorPad(k, 0x36);
    assert k == KEY + Zeros(60);
    IpadFirstWords();
    WordOfBytes(block, 0, 0x7c, 0x53, 0x50, 0x53);
    forall i | 4 <= i <= 60 ensures Word(block, i) == 0x36363636 {
      WordOfBytes(block, i, 0x36, 0x36, 0x36, 0x36);
    }
    SixteenWords(block, IPAD.w[0], IPAD.w[1]);
  }

  lemma IpadFirstWords()
    ensures Xor8(0x36, 0x4a) == 0x7c && Xor8(0x36, 0x65) == 0x53 && Xor8(0x36, 0x66) == 0x50
    ensures Xor8(0x36, 0) == 0x36
    ensures Join(0x7c, 0x53, 0x50, 0x53) == 0x7c535053 && Join(0x36, 0x36, 0x36, 0x36) == 0x36363636
    ensures Shape(IPAD) && IPAD.w[0] == [
      0x7c535053, 0x36363636, 0x36363636, 0x36363636, 0x36363636, 0x36363636, 0x36363636, 0x36363636
    ]
    ensures IPAD.w[1] == [
      0x36363636, 0x36363636, 0x36363636, 0x36363636, 0x36363636, 0x36363636, 0x36363636, 0x36363636
    ]
  {
  }

  lemma OpadWords()
    ensures |XorPad(KeyBlock(KEY), 0x5c)| == 64
    ensures Words(XorPad(KeyBlock(KEY), 0x5c)) == OPAD.w[0] + OPAD.w[1]
  {
    hide OPAD, Word, Join, Xor8;
    var k := KeyBlock(KEY);
    var block := XorPad(k, 0x5c);
    assert k == KEY + Zeros(60);
    OpadFirstWords();
    WordOfBytes(block, 0, 0x16, 0x39, 0x3a, 0x39);
    forall i | 4 <= i <= 60 ensures Word(block, i) == 0x5c5c5c5c {
      WordOfBytes(block, i, 0x5c, 0x5c, 0x5c, 0x5c);
    }
    SixteenWords(block, OPAD.w[0], OPAD.w[1]);
  }

  lemma OpadFirstWords()
    ensures Xor8(0x5c, 0x4a) == 0x16 && Xor8(0x5c, 0x65) == 0x39 && Xor8(0x5c, 0x66) == 0x3a
    ensures Xor8(0x5c, 0) == 0x5c
    ensures Join(0x16, 0x39, 0x3a, 0x39) == 0x16393a39 && Join(0x5c, 0x5c, 0x5c, 0x5c) == 0x5c5c5c5c
    ensures Shape(OPAD) && OPAD.w[0] == [
      0x16393a39, 0x5c5c5c5c, 0x5c5c5c5c, 0x5c5c5c5c, 0x5c5c5c5c, 0x5c5c5c5c, 0x5c5c5c5c, 0x5c5c5c5c
    ]
    ensures OPAD.w[1] == [
      0x5c5c5c5c, 0x5c5c5c5c, 0x5c5c5c5c, 0x5c5c5c5c, 0x5c5c5c5c, 0x5c5c5c5c, 0x5c5c5c5c, 0x5c5c5c5c
    ]
  {
  }

  lemma InnerWords()
    ensures |MESSAGE + Padding(92)| == 64 && Words(MESSAGE + Padding(92)) == INNER.w[0] + INNER.w[1]
  {
    hide INNER, MESSAGE, Padding, Word, Join;
    MessageStart();
    MessageMiddle();
    MessageEnd();
    InnerFirstWords();
    var block := MESSAGE + Padding(92);
    LastBlock(MESSAGE, 92);
    forall p | 0 <= p <= 24 ensures Word(block, p) == Word(MESSAGE, p) { SameWord4(block, MESSAGE, p); }
    WordOfBytes(block, 28, 0x80, 0, 0, 0);
    forall p | 32 <= p <= 56 ensures Word(block, p) == 0 { WordOfBytes(block, p, 0, 0, 0, 0); }
    WordOfBytes(block, 60, 0, 0, 0x02, 0xe0);
    SixteenWords(block, INNER.w[0], INNER.w[1]);
  }

  lemma SameWord4(s: seq<bv8>, t: seq<bv8>, p: nat)
    requires p + 4 <= |t| <= |s| && s[..|t|] == t
    ensures Word(s, p) == Word(t, p)
  {
    hide Word;
    assert s[p..p + 4] == t[p..p + 4];
    SameWord(s, p, s[p..p + 4]);
    SameWord(t, p, s[p..p + 4]);
  }

  lemma MessageStart()
    ensures |MESSAGE| == 28
    ensures Word(MESSAGE, 0) == 0x77686174 && Word(MESSAGE, 4) == 0x20646f20
  {
  }

  lemma MessageMiddle()
    ensures |MESSAGE| == 28
    ensures Word(MESSAGE, 8) == 0x79612077 && Word(MESSAGE, 12) == 0x616e7420
  {
  }

  lemma MessageEnd()
    ensures |MESSAGE| == 28
    ensures Word(MESSAGE, 16) == 0x666f7220 && Word(MESSAGE, 20) == 0x6e6f7468 && Word(MESSAGE, 24) == 0x696e673f
  {
  }

  lemma InnerFirstWords()
    ensures Shape(INNER) && INNER.w[0] == [
      0x77686174, 0x20646f20, 0x79612077, 0x616e7420, 0x666f7220, 0x6e6f7468, 0x696e673f, Join(0x80, 0, 0, 0)
    ]
    ensures INNER.w[1] == [0, 0, 0, 0, 0, 0, 0, Join(0, 0, 0x02, 0xe0)] && Join(0, 0, 0, 0) == 0
  {
  }

  lemma OuterWords()
    ensures |INNER_HASH| == 8 && |Digest(INNER_HASH) + Padding(96)| == 64
    ensures Words(Digest(INNER_HASH) + Padding(96)) == OUTER.w[0] + OUTER.w[1]
  {
    hide OUTER, INNER_HASH, Padding, Word, Join, Digest;
    OuterFirstWords();
    var d := Digest(INNER_HASH);
    var block := d + Padding(96);
    LastBlock(d, 96);
    forall i | 0 <= i < 8 ensures Word(d, 4 * i) == INNER_HASH[i] { DigestWord(INNER_HASH, i); }
    forall p | 0 <= p <= 28 ensures Word(block, p) == Word(d, p) { SameWord4(block, d, p); }
    assert INNER_HASH[0] == Word(d, 4 * 0) && INNER_HASH[1] == Word(d, 4 * 1) && INNER_HASH[2] == Word(d, 4 * 2);
    assert INNER_HASH[3] == Word(d, 4 * 3) && INNER_HASH[4] == Word(d, 4 * 4) && INNER_HASH[5] == Word(d, 4 * 5);
    assert INNER_HASH[6] == Word(d, 4 * 6) && INNER_HASH[7] == Word(d, 4 * 7);
    WordOfBytes(block, 32, 0x80, 0, 0, 0);
    forall p | 36 <= p <= 56 ensures Word(block, p) == 0 { WordOfBytes(block, p, 0, 0, 0, 0); }
    WordOfBytes(block, 60, 0, 0, 0x03, 0);
    SixteenWords(block, OUTER.w[0], OUTER.w[1]);
  }

  lemma OuterFirstWords()
    ensures |INNER_HASH| == 8 && Shape(OUTER) && OUTER.w[0] == INNER_HASH
    ensures OUTER.w[1] == [Join(0x80, 0, 0, 0), 0, 0, 0, 0, 0, 0, Join(0, 0, 0x03, 0)] && Join(0, 0, 0, 0) == 0
  {
  }

  // ---- the result ----

  lemma IpadSum()
    ensures |H0| == 8 && Shape(IPAD) && AddTo(H0, Last(IPAD.a[7], IPAD.e[7])) == INNER_STATE
  {
  }

  lemma InnerSum()
    ensures |INNER_STATE| == 8 && Shape(INNER) && AddTo(INNER_STATE, Last(INNER.a[7], INNER.e[7])) == INNER_HASH
  {
  }

  lemma OpadSum()
    ensures |H0| == 8 && Shape(OPAD) && AddTo(H0, Last(OPAD.a[7], OPAD.e[7])) == OUTER_STATE
  {
  }

  lemma OuterSum()
    ensures |OUTER_STATE| == 8 && Shape(OUTER) && AddTo(OUTER_STATE, Last(OUTER.a[7], OUTER.e[7])) == MAC
  {
  }

  /** A hash of two blocks. */
  lemma TwoBlocks(first: seq<bv8>, rest: seq<bv8>, state: seq<bv32>)
    requires |first| == 64 && |state| == 8 && |rest| <= 55 && Compress(H0, first) == state
    ensures |rest + Padding(64 + |rest|)| == 64
    ensures Hash(first + rest) == Digest(Compress(state, rest + Padding(64 + |rest|)))
  {
    hide Compress, Digest, Blocks, H0, Padding;
    LastBlock(rest, 64 + |rest|);
    HashAfterBlock(first, rest);
    BlocksOne(H0, first);
    BlocksOne(state, rest + Padding(64 + |rest|));
  }

  lemma InnerHash()
    ensures |INNER_HASH| == 8 && Hash(XorPad(KeyBlock(KEY), 0x36) + MESSAGE) == Digest(INNER_HASH)
  {
    hide IPAD, INNER, INNER_STATE, INNER_HASH, KEY, MESSAGE, H0, Compress, Digest, AddTo, Words, XorPad, KeyBlock, Hash,
      Padding, Traces, Last;
    IpadTraces();
    IpadWords();
    IpadSum();
    TraceCompresses(H0, XorPad(KeyBlock(KEY), 0x36), IPAD);
    InnerTraces();
    InnerWords();
    InnerSum();
    MessageStart();
    TraceCompresses(INNER_STATE, MESSAGE + Padding(92), INNER);
    TwoBlocks(XorPad(KeyBlock(KEY), 0x36), MESSAGE, INNER_STATE);
  }

  /** The MAC is 5bdcc146 bf60754e 6a042426 089575c7 5a003f08 9d273983 9dec58b9 64ec3843. */
  lemma MacOfMessage()
    ensures |MAC| == 8 && Mac(KEY, MESSAGE) == Digest(MAC)
  {
    hide OPAD, OUTER, OUTER_STATE, INNER_HASH, MAC, KEY, MESSAGE, H0, Compress, Digest, AddTo, Words, XorPad, KeyBlock,
      Hash, Padding, Traces, Last;
    InnerHash();
    OpadTraces();
    OpadWords();
    OpadSum();
    TraceCompresses(H0, XorPad(KeyBlock(KEY), 0x5c), OPAD);
    OuterTraces();
    OuterWords();
    OuterSum();
    TraceCompresses(OUTER_STATE, Digest(INNER_HASH) + Padding(96), OUTER);
    TwoBlocks(XorPad(KeyBlock(KEY), 0x5c), Digest(INNER_HASH), OUTER_STATE);
  }
}
