/** A state on which the 128-bit code of ChaCha8 goes wrong. */
module ChaChaAstray8 {
  import opened BitVectors
  import opened ChaCha
  import opened ChaChaKernels
  import opened ChaChaDispatch

  /** The constants, a key of zeros, the counter 306941241 and the nonce words 0 and 1. */
  function Start(): State {
    State(Row(0x61707865, 0x3320646e, 0x79622d32, 0x6b206574), Row(0, 0, 0, 0),
          Row(0, 0, 0, 0), Row(306941241, 0, 0, 1))
  }

  lemma NextStart()
    ensures Skip(Start(), 1, true)
      == Rows(
        Four(0x61707865, 0x3320646e, 0x79622d32, 0x6b206574), Four(0, 0, 0, 0),
        Four(0, 0, 0, 0), Four(0x124b8d3a, 0, 0, 1))
  {
    NarrowIsWide(Start(), 1);
  }

  lemma ColumnRound1()
    ensures ColumnRound(
      Rows(
        Four(0x61707865, 0x3320646e, 0x79622d32, 0x6b206574), Four(0, 0, 0, 0),
        Four(0, 0, 0, 0), Four(0x124b8d3a, 0, 0, 1)))
      == Rows(
        Four(0x58a437ba, 0x16526ab4, 0xa0f85005, 0xc1d26bcb), Four(0xc825de83, 0xfae0ea21, 0x66e11e68, 0x622849ad),
        Four(0xf0a3f4e8, 0xa0c7c792, 0xf75be0ef, 0xc7656c4), Four(0xfb4481ad, 0x3c599472, 0xca29678d, 0xa700eba4))
  {
    hide QuarterRound;
    QuarterIs(0x61707865, 0, 0, 0x124b8d3a, 0x61707865, 29499, 0xf55f733b,
              0xf55f733b, 3925, 0xf733bf55, 0x58a437ba, 173, 0xfb4481ad, 0xf0a3f4e8, 3, 0xc825de83);
    QuarterIs(0x3320646e, 0, 0, 0, 0x3320646e, 13088, 0x646e3320,
              0x646e3320, 1606, 0xe3320646, 0x16526ab4, 114, 0x3c599472, 0xa0c7c792, 33, 0xfae0ea21);
    QuarterIs(0x79622d32, 0, 0, 0, 0x79622d32, 31074, 0x2d327962,
              0x2d327962, 723, 0x279622d3, 0xa0f85005, 141, 0xca29678d, 0xf75be0ef, 104, 0x66e11e68);
    QuarterIs(0x6b206574, 0, 0, 1, 0x6b206574, 27424, 0x65756b20,
              0x65756b20, 1623, 0x56b20657, 0xc1d26bcb, 164, 0xa700eba4, 0xc7656c4, 45, 0x622849ad);
  }

  lemma DiagonalRound1()
    ensures DiagonalRound(
      Rows(
        Four(0x58a437ba, 0x16526ab4, 0xa0f85005, 0xc1d26bcb), Four(0xc825de83, 0xfae0ea21, 0x66e11e68, 0x622849ad),
        Four(0xf0a3f4e8, 0xa0c7c792, 0xf75be0ef, 0xc7656c4), Four(0xfb4481ad, 0x3c599472, 0xca29678d, 0xa700eba4)))
      == Rows(
        Four(0x77a758e, 0xe968c058, 0xcafd6376, 0x77564ab8), Four(0x653a6bc7, 0x54d9793a, 0x2d9d1041, 0xe46f67e),
        Four(0x3bc04428, 0x639474bd, 0xc75ce141, 0xee6e0d1c), Four(0xd9462fe1, 0x3d5c0fc7, 0x9509695a, 0x5810bcd))
  {
    hide QuarterRound;
    QuarterIs(0x58a437ba, 0xfae0ea21, 0xf75be0ef, 0xa700eba4, 0x538521db, 62597, 0xca7ff485,
              0xc1dbd574, 947, 0xb3f553b3, 0x77a758e, 205, 0x5810bcd, 0xc75ce141, 58, 0x54d9793a);
    QuarterIs(0x16526ab4, 0x66e11e68, 0xc7656c4, 0xfb4481ad, 0x7d33891c, 34423, 0x8b18677,
              0x1527dd3b, 1852, 0x6c35373c, 0xe968c058, 225, 0xd9462fe1, 0xee6e0d1c, 65, 0x2d9d1041);
    QuarterIs(0xa0f85005, 0x622849ad, 0xf0a3f4e8, 0x3c599472, 0x32099b2, 16249, 0xdc03f79,
              0xfe643461, 2500, 0xc7dcc9c4, 0xcafd6376, 199, 0x3d5c0fc7, 0x3bc04428, 126, 0xe46f67e);
    QuarterIs(0xc1d26bcb, 0xc825de83, 0xa0c7c792, 0xca29678d, 0x89f84a4e, 17361, 0x2dc343d1,
              0xce8b0b63, 106, 0xed5e006a, 0x77564ab8, 90, 0x9509695a, 0x639474bd, 71, 0x653a6bc7);
  }

  lemma ColumnRound2()
    ensures ColumnRound(
      Rows(
        Four(0x77a758e, 0xe968c058, 0xcafd6376, 0x77564ab8), Four(0x653a6bc7, 0x54d9793a, 0x2d9d1041, 0xe46f67e),
        Four(0x3bc04428, 0x639474bd, 0xc75ce141, 0xee6e0d1c), Four(0xd9462fe1, 0x3d5c0fc7, 0x9509695a, 0x5810bcd)))
      == Rows(
        Four(0x55d2b849, 0x3f305665, 0x6e83d0b4, 0x7d51a4a8), Four(0xcfb1a0cc, 0xe8771bff, 0x77155a92, 0x1d110e8a),
        Four(0x7082b5b5, 0xff3ef2e4, 0x51077648, 0xe38e416f), Four(0x660dbb9b, 0x65557b09, 0x6ebd2774, 0xaa24b437))
  {
    hide QuarterRound;
    QuarterIs(0x77a758e, 0x653a6bc7, 0x3bc04428, 0xd9462fe1, 0x6cb4e155, 46578, 0xceb4b5f2,
              0xa74fa1a, 1780, 0xe91dd6f4, 0x55d2b849, 155, 0x660dbb9b, 0x7082b5b5, 76, 0xcfb1a0cc);
    QuarterIs(0xe968c058, 0x54d9793a, 0x639474bd, 0x3d5c0fc7, 0x3e423992, 798, 0x3655031e,
              0x99e977db, 3283, 0xee1cd3, 0x3f305665, 9, 0x65557b09, 0xff3ef2e4, 127, 0xe8771bff);
    QuarterIs(0xcafd6376, 0x2d9d1041, 0xc75ce141, 0x9509695a, 0xf89a73b7, 28051, 0x1aed6d93,
              0xe24a4ed4, 3325, 0x75e95cfd, 0x6e83d0b4, 116, 0x6ebd2774, 0x51077648, 18, 0x77155a92);
    QuarterIs(0x77564ab8, 0xe46f67e, 0xee6e0d1c, 0x5810bcd, 0x859d4136, 32796, 0x4afb801c,
              0x39698d38, 882, 0xf7b46372, 0x7d51a4a8, 55, 0xaa24b437, 0xe38e416f, 10, 0x1d110e8a);
  }

  lemma DiagonalRound2()
    ensures DiagonalRound(
      Rows(
        Four(0x55d2b849, 0x3f305665, 0x6e83d0b4, 0x7d51a4a8), Four(0xcfb1a0cc, 0xe8771bff, 0x77155a92, 0x1d110e8a),
        Four(0x7082b5b5, 0xff3ef2e4, 0x51077648, 0xe38e416f), Four(0x660dbb9b, 0x65557b09, 0x6ebd2774, 0xaa24b437)))
      == Rows(
        Four(0x3f5e79e7, 0x9af80a95, 0x46449fd8, 0x386a305c), Four(0x1a090a10, 0x301845e9, 0xb3db6b33, 0x423f6119),
        Four(0x882bbe58, 0xcb52f8fc, 0xd3749514, 0x83d5ef48), Four(0x94dadd91, 0x737119e2, 0x6a13e25a, 0x21ed8a5f))
  {
    hide QuarterRound;
    QuarterIs(0x55d2b849, 0xe8771bff, 0x51077648, 0xaa24b437, 0x3e49d448, 37997, 0x607f946d,
              0xb1870ab5, 1439, 0x114a59f, 0x3f5e79e7, 95, 0x21ed8a5f, 0xd3749514, 105, 0x301845e9);
    QuarterIs(0x3f305665, 0x77155a92, 0xe38e416f, 0x660dbb9b, 0xb645b0f7, 53320, 0xb6cd048,
              0xeefb11b7, 2462, 0xe4b2599e, 0x9af80a95, 145, 0x94dadd91, 0x83d5ef48, 51, 0xb3db6b33);
    QuarterIs(0x6e83d0b4, 0x1d110e8a, 0x7082b5b5, 0x65557b09, 0x8b94df3e, 61121, 0xa437eec1,
              0x14baa476, 154, 0xbaafc09a, 0x46449fd8, 226, 0x737119e2, 0x882bbe58, 25, 0x423f6119);
    QuarterIs(0x7d51a4a8, 0xcfb1a0cc, 0xff3ef2e4, 0x6ebd2774, 0x4d034574, 9150, 0x620023be,
              0x613f16a2, 2792, 0xeb66eae8, 0x386a305c, 90, 0x6a13e25a, 0xcb52f8fc, 16, 0x1a090a10);
  }

  lemma ColumnRound3()
    ensures ColumnRound(
      Rows(
        Four(0x3f5e79e7, 0x9af80a95, 0x46449fd8, 0x386a305c), Four(0x1a090a10, 0x301845e9, 0xb3db6b33, 0x423f6119),
        Four(0x882bbe58, 0xcb52f8fc, 0xd3749514, 0x83d5ef48), Four(0x94dadd91, 0x737119e2, 0x6a13e25a, 0x21ed8a5f)))
      == Rows(
        Four(0x11c7e3c0, 0x4a5b92cd, 0xcf074bfc, 0x6d62ef48), Four(0xd0ab569f, 0xa88f97d1, 0xa35a4e63, 0x8685688a),
        Four(0x87c10964, 0xdc1a5d60, 0x13a1f46d, 0xe7b45702), Four(0xa12e7d4f, 0xc72aac03, 0x56dbcf26, 0x48b40c76))
  {
    hide QuarterRound;
    QuarterIs(0x3f5e79e7, 0x1a090a10, 0x882bbe58, 0x94dadd91, 0x596783f7, 52669, 0x5e66cdbd,
              0xe6928c15, 4041, 0xb8605fc9, 0x11c7e3c0, 79, 0xa12e7d4f, 0x87c10964, 31, 0xd0ab569f);
    QuarterIs(0x9af80a95, 0x301845e9, 0xcb52f8fc, 0x737119e2, 0xcb10507e, 47201, 0x499cb861,
              0x14efb15d, 591, 0x7f4b424f, 0x4a5b92cd, 3, 0xc72aac03, 0xdc1a5d60, 81, 0xa88f97d1);
    QuarterIs(0x46449fd8, 0xb3db6b33, 0xd3749514, 0x6a13e25a, 0xfa200b0b, 36915, 0xe9519033,
              0xbcc62547, 241, 0xd4e740f1, 0xcf074bfc, 38, 0x56dbcf26, 0x13a1f46d, 99, 0xa35a4e63);
    QuarterIs(0x386a305c, 0x423f6119, 0x83d5ef48, 0x21ed8a5f, 0x7aa99175, 23364, 0x1b2a5b44,
              0x9f004a8c, 3539, 0xf2b95dd3, 0x6d62ef48, 118, 0x48b40c76, 0xe7b45702, 10, 0x8685688a);
  }

  lemma DiagonalRound3()
    ensures DiagonalRound(
      Rows(
        Four(0x11c7e3c0, 0x4a5b92cd, 0xcf074bfc, 0x6d62ef48), Four(0xd0ab569f, 0xa88f97d1, 0xa35a4e63, 0x8685688a),
        Four(0x87c10964, 0xdc1a5d60, 0x13a1f46d, 0xe7b45702), Four(0xa12e7d4f, 0xc72aac03, 0x56dbcf26, 0x48b40c76)))
      == Rows(
        Four(0x215f8dc1, 0x8c95c3a6, 0x94d4b6f2, 0x4718f14e), Four(0xbfe4b2a4, 0x808dcb11, 0xe816df8, 0x11797d67),
        Four(0xf16af096, 0x40756202, 0x440909a6, 0x6ec2e0ad), Four(0xea8f3d10, 0x5124548c, 0xd9999bcd, 0xb87f2256))
  {
    hide QuarterRound;
    QuarterIs(0x11c7e3c0, 0xa88f97d1, 0x13a1f46d, 0x48b40c76, 0xba577b91, 62179, 0x77e7f2e3,
              0x8b89e750, 560, 0x67081230, 0x215f8dc1, 86, 0xb87f2256, 0x440909a6, 17, 0x808dcb11);
    QuarterIs(0x4a5b92cd, 0xa35a4e63, 0xe7b45702, 0xa12e7d4f, 0xedb5e130, 19611, 0x9c7f4c9b,
              0x8433a39d, 630, 0x9edfe276, 0x8c95c3a6, 16, 0xea8f3d10, 0x6ec2e0ad, 120, 0xe816df8);
    QuarterIs(0xcf074bfc, 0x8685688a, 0x87c10964, 0xc72aac03, 0x558cb486, 37542, 0x188592a6,
              0xa0469c0a, 620, 0x3f48026c, 0x94d4b6f2, 140, 0x5124548c, 0xf16af096, 103, 0x11797d67);
    QuarterIs(0x6d62ef48, 0xd0ab569f, 0xdc1a5d60, 0x56dbcf26, 0x3e0e45e7, 26837, 0x8ac168d5,
              0x66dbc635, 2919, 0x90aab67, 0x4718f14e, 205, 0xd9999bcd, 0x40756202, 36, 0xbfe4b2a4);
  }

  lemma ColumnRound4()
    ensures ColumnRound(
      Rows(
        Four(0x215f8dc1, 0x8c95c3a6, 0x94d4b6f2, 0x4718f14e), Four(0xbfe4b2a4, 0x808dcb11, 0xe816df8, 0x11797d67),
        Four(0xf16af096, 0x40756202, 0x440909a6, 0x6ec2e0ad), Four(0xea8f3d10, 0x5124548c, 0xd9999bcd, 0xb87f2256)))
      == Rows(
        Four(0x96309d78, 0xe475185a, 0xc1eef5c5, 0x54624962), Four(0x4d76af80, 0xd249725f, 0x13af1469, 0x4fc50fe3),
        Four(0xb476b04c, 0x68f51b47, 0xccbf8ef3, 0x3d5050b2), Four(0x4596b3eb, 0x4e445d3e, 0xc98f0a7e, 0x81a98f18))
  {
    hide QuarterRound;
    QuarterIs(0x215f8dc1, 0xbfe4b2a4, 0xf16af096, 0xea8f3d10, 0xe1444065, 3019, 0x7d750bcb,
              0x6edffc61, 3347, 0xb4ec5d13, 0x96309d78, 235, 0x4596b3eb, 0xb476b04c, 0, 0x4d76af80);
    QuarterIs(0x8c95c3a6, 0x808dcb11, 0x40756202, 0x5124548c, 0xd238eb7, 23559, 0xda3b5c07,
              0x1ab0be09, 2467, 0xd75189a3, 0xe475185a, 62, 0x4e445d3e, 0x68f51b47, 95, 0xd249725f);
    QuarterIs(0x94d4b6f2, 0xe816df8, 0x440909a6, 0xd9999bcd, 0xa35624ea, 31439, 0xbf277acf,
              0x3308475, 219, 0x1e98d0db, 0xc1eef5c5, 126, 0xc98f0a7e, 0xccbf8ef3, 105, 0x13af1469);
    QuarterIs(0x4718f14e, 0x11797d67, 0x6ec2e0ad, 0xb87f2256, 0x58926eb5, 57581, 0x4ce3e0ed,
              0xbba6c19a, 2733, 0xfbcfdaad, 0x54624962, 24, 0x81a98f18, 0x3d5050b2, 99, 0x4fc50fe3);
  }

  lemma DiagonalRound4()
    ensures DiagonalRound(
      Rows(
        Four(0x96309d78, 0xe475185a, 0xc1eef5c5, 0x54624962), Four(0x4d76af80, 0xd249725f, 0x13af1469, 0x4fc50fe3),
        Four(0xb476b04c, 0x68f51b47, 0xccbf8ef3, 0x3d5050b2), Four(0x4596b3eb, 0x4e445d3e, 0xc98f0a7e, 0x81a98f18)))
      == Rows(
        Four(0xc923a9d3, 0x59c509c0, 0x93b1f9d4, 0x149ada50), Four(0x41357508, 0xb37079ac, 0xc6aeebd5, 0xa76095da),
        Four(0x34b33507, 0x62438b84, 0x39cf790f, 0xca2d812a), Four(0xedb472c6, 0x27a624cb, 0x6b207e6, 0xec400049))
  {
    hide QuarterRound;
    QuarterIs(0x96309d78, 0xd249725f, 0xccbf8ef3, 0x81a98f18, 0x687a0fd7, 59859, 0x80cfe9d3,
              0x4d8f78c6, 2556, 0x60a999fc, 0xc923a9d3, 73, 0xec400049, 0x39cf790f, 44, 0xb37079ac);
    QuarterIs(0xe475185a, 0x13af1469, 0x3d5050b2, 0x4596b3eb, 0xf8242cc3, 48562, 0x9f28bdb2,
              0xdc790e64, 3325, 0x61a0dcfd, 0x59c509c0, 198, 0xedb472c6, 0xca2d812a, 85, 0xc6aeebd5);
    QuarterIs(0xc1eef5c5, 0x4fc50fe3, 0xb476b04c, 0x4e445d3e, 0x11b405a8, 24560, 0x58965ff0,
              0xd0d103c, 1068, 0x81fdf42c, 0x93b1f9d4, 203, 0x27a624cb, 0x34b33507, 90, 0xa76095da);
    QuarterIs(0x54624962, 0x4d76af80, 0x68f51b47, 0xc98f0a7e, 0xa1d8f8e2, 26711, 0xf29c6857,
              0x5b91839e, 366, 0x72c1e16e, 0x149ada50, 230, 0x6b207e6, 0x62438b84, 8, 0x41357508);
  }

  lemma EightRounds()
    ensures DoubleRounds(Skip(Start(), 1, true), 4)
      == Rows(
        Four(0xc923a9d3, 0x59c509c0, 0x93b1f9d4, 0x149ada50), Four(0x41357508, 0xb37079ac, 0xc6aeebd5, 0xa76095da),
        Four(0x34b33507, 0x62438b84, 0x39cf790f, 0xca2d812a), Four(0xedb472c6, 0x27a624cb, 0x6b207e6, 0xec400049))
  {
    hide ColumnRound, DiagonalRound, Rows, Skip, Start;
    NextStart();
    ColumnRound1(); DiagonalRound1(); ColumnRound2(); DiagonalRound2();
    ColumnRound3(); DiagonalRound3(); ColumnRound4(); DiagonalRound4();
  }

  lemma CarriesDisagree()
    ensures !CarriesAgree(Start(), 1, 8)
  {
    hide DoubleRounds, Skip;
    EightRounds();
  }

  /** After eight rounds the last addition of 1 carries although the counter does not wrap. */
  lemma EightRoundsGoAstray()
    ensures MultiBlockSafe(Start().r3.a, 4) && RegisterBlocks(Start(), 8) != Stream(Start(), 4, 8, true)
  {
    hide RegisterBlocks, Stream, CarriesAgree;
    CarriesDisagree();
    RegisterBlocksExact(Start(), 8);
  }

  /** So do the next four blocks written with 128-bit registers, for either width of the counter. */
  lemma KeystreamGoesAstray(wide: bool, has256: bool)
    ensures Keystream(Start(), 4, 8, wide, has256, true, true) != Stream(Start(), 4, 8, wide)
  {
    hide Keystream, Stream, CarriesAgree;
    CarriesDisagree();
    FourAstray(Start(), 8, wide, has256);
  }
}
