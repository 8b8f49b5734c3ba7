/** A state on which the 128-bit code of ChaCha20 goes wrong. */
module ChaChaAstray20 {
  import opened BitVectors
  import opened ChaCha
  import opened ChaChaKernels
  import opened ChaChaDispatch

  /** The constants, a key of zeros, the counter 1759523468 and the nonce words 0 and 1. */
  function Start(): State {
    State(Row(0x61707865, 0x3320646e, 0x79622d32, 0x6b206574), Row(0, 0, 0, 0),
          Row(0, 0, 0, 0), Row(1759523468, 0, 0, 1))
  }

  lemma NextStart()
    ensures Skip(Start(), 2, true)
      == Rows(
        Four(0x61707865, 0x3320646e, 0x79622d32, 0x6b206574), Four(0, 0, 0, 0),
        Four(0, 0, 0, 0), Four(0x68e0328e, 0, 0, 1))
  {
    NarrowIsWide(Start(), 2);
  }

  lemma ColumnRound1()
    ensures ColumnRound(
      Rows(
        Four(0x61707865, 0x3320646e, 0x79622d32, 0x6b206574), Four(0, 0, 0, 0),
        Four(0, 0, 0, 0), Four(0x68e0328e, 0, 0, 1)))
      == Rows(
        Four(0x12097d13, 0x16526ab4, 0xa0f85005, 0xc1d26bcb), Four(0xe344234e, 0xfae0ea21, 0x66e11e68, 0x622849ad),
        Four(0x2d5f8ce8, 0xa0c7c792, 0xf75be0ef, 0xc7656c4), Four(0xe2748358, 0x3c599472, 0xca29678d, 0xa700eba4))
  {
    hide QuarterRound;
    QuarterIs(0x61707865, 0, 0, 0x68e0328e, 0x61707865, 2448, 0x4aeb0990,
              0x4aeb0990, 1198, 0xb09904ae, 0x12097d13, 88, 0xe2748358, 0x2d5f8ce8, 78, 0xe344234e);
    QuarterIs(0x3320646e, 0, 0, 0, 0x3320646e, 13088, 0x646e3320,
              0x646e3320, 1606, 0xe3320646, 0x16526ab4, 114, 0x3c599472, 0xa0c7c792, 33, 0xfae0ea21);
    QuarterIs(0x79622d32, 0, 0, 0, 0x79622d32, 31074, 0x2d327962,
              0x2d327962, 723, 0x279622d3, 0xa0f85005, 141, 0xca29678d, 0xf75be0ef, 104, 0x66e11e68);
    QuarterIs(0x6b206574, 0, 0, 1, 0x6b206574, 27424, 0x65756b20,
              0x65756b20, 1623, 0x56b20657, 0xc1d26bcb, 164, 0xa700eba4, 0xc7656c4, 45, 0x622849ad);
  }

  lemma DiagonalRound1()
    ensures DiagonalRound(
      Rows(
        Four(0x12097d13, 0x16526ab4, 0xa0f85005, 0xc1d26bcb), Four(0xe344234e, 0xfae0ea21, 0x66e11e68, 0x622849ad),
        Four(0x2d5f8ce8, 0xa0c7c792, 0xf75be0ef, 0xc7656c4), Four(0xe2748358, 0x3c599472, 0xca29678d, 0xa700eba4)))
      == Rows(
        Four(0xd359eec4, 0x3bb9c021, 0x7b7d5f45, 0x267085ba), Four(0x8fa51f77, 0xaf1e5445, 0x4e359cd5, 0x6e66a240),
        Four(0xf88008d7, 0x6e46bc9f, 0x4d31bb38, 0x141a5c3c), Four(0xfd5f6631, 0xbd603c76, 0xe4ea85ce, 0xc9452e5f))
  {
    hide QuarterRound;
    QuarterIs(0x12097d13, 0xfae0ea21, 0xf75be0ef, 0xa700eba4, 0xcea6734, 44010, 0x8c90abea,
              0x83ec8cd9, 1936, 0xc66f8790, 0xd359eec4, 95, 0xc9452e5f, 0x4d31bb38, 69, 0xaf1e5445);
    QuarterIs(0x16526ab4, 0x66e11e68, 0xc7656c4, 0xe2748358, 0x7d33891c, 40775, 0xa449f47,
              0x16baf60b, 1797, 0xbe863705, 0x3bb9c021, 49, 0xfd5f6631, 0x141a5c3c, 85, 0x4e359cd5);
    QuarterIs(0xa0f85005, 0x622849ad, 0x2d5f8ce8, 0x3c599472, 0x32099b2, 16249, 0xdc03f79,
              0x3b1fcc61, 1427, 0x785cc593, 0x7b7d5f45, 118, 0xbd603c76, 0xf88008d7, 64, 0x6e66a240);
    QuarterIs(0xc1d26bcb, 0xe344234e, 0xa0c7c792, 0xca29678d, 0xa5168f19, 28479, 0xe8946f3f,
              0x895c36d1, 1697, 0x8159f6a1, 0x267085ba, 206, 0xe4ea85ce, 0x6e46bc9f, 119, 0x8fa51f77);
  }

  lemma ColumnRound2()
    ensures ColumnRound(
      Rows(
        Four(0xd359eec4, 0x3bb9c021, 0x7b7d5f45, 0x267085ba), Four(0x8fa51f77, 0xaf1e5445, 0x4e359cd5, 0x6e66a240),
        Four(0xf88008d7, 0x6e46bc9f, 0x4d31bb38, 0x141a5c3c), Four(0xfd5f6631, 0xbd603c76, 0xe4ea85ce, 0xc9452e5f)))
      == Rows(
        Four(0x5e6f1d2d, 0x7ed937fa, 0xd0f754ad, 0x26900f37), Four(0xbe9daf9e, 0xdb3a9ce5, 0x9dc35576, 0x555ce061),
        Four(0xc60d35ad, 0x5fb756ad, 0xea7fde39, 0x53125efd), Four(0x65828d36, 0xc9604256, 0x2379f5a9, 0x3552a52f))
  {
    hide QuarterRound;
    QuarterIs(0xd359eec4, 0x8fa51f77, 0xf88008d7, 0xfd5f6631, 0x62ff0e3b, 40864, 0x680a9fa0,
              0x608aa877, 3826, 0xfb700ef2, 0x5e6f1d2d, 54, 0x65828d36, 0xc60d35ad, 30, 0xbe9daf9e);
    QuarterIs(0x3bb9c021, 0xaf1e5445, 0x6e46bc9f, 0xbd603c76, 0xead81466, 22456, 0x281057b8,
              0x96571457, 916, 0x94012394, 0x7ed937fa, 86, 0xc9604256, 0x5fb756ad, 101, 0xdb3a9ce5);
    QuarterIs(0x7b7d5f45, 0x4e359cd5, 0x4d31bb38, 0xe4ea85ce, 0xc9b2fc1a, 11608, 0x79d42d58,
              0xc705e890, 2195, 0x7445893, 0xd0f754ad, 169, 0x2379f5a9, 0xea7fde39, 118, 0x9dc35576);
    QuarterIs(0x267085ba, 0x6e66a240, 0x141a5c3c, 0xc9452e5f, 0x94d727fa, 23954, 0x9a55d92,
              0x1dbfb9ce, 1853, 0x91b8e73d, 0x26900f37, 47, 0x3552a52f, 0x53125efd, 97, 0x555ce061);
  }

  lemma DiagonalRound2()
    ensures DiagonalRound(
      Rows(
        Four(0x5e6f1d2d, 0x7ed937fa, 0xd0f754ad, 0x26900f37), Four(0xbe9daf9e, 0xdb3a9ce5, 0x9dc35576, 0x555ce061),
        Four(0xc60d35ad, 0x5fb756ad, 0xea7fde39, 0x53125efd), Four(0x65828d36, 0xc9604256, 0x2379f5a9, 0x3552a52f)))
      == Rows(
        Four(0xa126d73a, 0xd5736a59, 0xd29c3b91, 0x8057b02f), Four(0xc1b4cb26, 0x72d8ed21, 0x5d618c98, 0x396602d7),
        Four(0x23aca86, 0xd6aa98cc, 0x2598acf2, 0x886c1ff0), Four(0x351347d5, 0xc4d4a5a5, 0x2b767bcb, 0x1bdbc1be))
  {
    hide QuarterRound;
    QuarterIs(0x5e6f1d2d, 0xdb3a9ce5, 0xea7fde39, 0x3552a52f, 0x39a9ba12, 3323, 0x1f3d0cfb,
              0x9bceb34, 3368, 0x677d1d28, 0xa126d73a, 190, 0x1bdbc1be, 0x2598acf2, 33, 0x72d8ed21);
    QuarterIs(0x7ed937fa, 0x9dc35576, 0x53125efd, 0x65828d36, 0x1c9c8d70, 31006, 0x46791e,
              0x5358d81b, 3305, 0xb8d6dce9, 0xd5736a59, 213, 0x351347d5, 0x886c1ff0, 24, 0x5d618c98);
    QuarterIs(0xd0f754ad, 0x555ce061, 0xc60d35ad, 0xc9604256, 0x2654350e, 61236, 0x7758ef34,
              0x3d6624e1, 1667, 0xac480683, 0xd29c3b91, 165, 0xc4d4a5a5, 0x23aca86, 87, 0x396602d7);
    QuarterIs(0x26900f37, 0xbe9daf9e, 0x5fb756ad, 0x2379f5a9, 0xe52dbed5, 50772, 0x4b7cc654,
              0xab341d01, 346, 0x9b29f15a, 0x8057b02f, 203, 0x2b767bcb, 0xd6aa98cc, 38, 0xc1b4cb26);
  }

  lemma ColumnRound3()
    ensures ColumnRound(
      Rows(
        Four(0xa126d73a, 0xd5736a59, 0xd29c3b91, 0x8057b02f), Four(0xc1b4cb26, 0x72d8ed21, 0x5d618c98, 0x396602d7),
        Four(0x23aca86, 0xd6aa98cc, 0x2598acf2, 0x886c1ff0), Four(0x351347d5, 0xc4d4a5a5, 0x2b767bcb, 0x1bdbc1be)))
      == Rows(
        Four(0xb17224c4, 0x74d0b32f, 0xe3dc206a, 0xe5c5cf2a), Four(0xfad66370, 0x26c3affa, 0x20e54652, 0x4d0964aa),
        Four(0xaf632ea2, 0xd8c9dcea, 0x179f92cd, 0x78920eed), Four(0xc7730c54, 0xf3fb786, 0x3e24e150, 0x7d6d4c97))
  {
    hide QuarterRound;
    QuarterIs(0xa126d73a, 0xc1b4cb26, 0x23aca86, 0x351347d5, 0x62dba260, 22472, 0xe5b557c8,
              0xe7f0224e, 612, 0x4e968264, 0xb17224c4, 84, 0xc7730c54, 0xaf632ea2, 112, 0xfad66370);
    QuarterIs(0xd5736a59, 0x72d8ed21, 0xd6aa98cc, 0xc4d4a5a5, 0x484c577a, 35992, 0xf2df8c98,
              0xc98a2564, 2997, 0x2c845bb5, 0x74d0b32f, 134, 0xf3fb786, 0xd8c9dcea, 122, 0x26c3affa);
    QuarterIs(0xd29c3b91, 0x5d618c98, 0x2598acf2, 0x2b767bcb, 0x2ffdc829, 1163, 0xb3e2048b,
              0xd97ab17d, 2113, 0xb3de5841, 0xe3dc206a, 80, 0x3e24e150, 0x179f92cd, 82, 0x20e54652);
    QuarterIs(0x8057b02f, 0x396602d7, 0x886c1ff0, 0x1bdbc1be, 0xb9bdb306, 41574, 0x72b8a266,
              0xfb24c256, 3108, 0x2c081c24, 0xe5c5cf2a, 151, 0x7d6d4c97, 0x78920eed, 42, 0x4d0964aa);
  }

  lemma DiagonalRound3()
    ensures DiagonalRound(
      Rows(
        Four(0xb17224c4, 0x74d0b32f, 0xe3dc206a, 0xe5c5cf2a), Four(0xfad66370, 0x26c3affa, 0x20e54652, 0x4d0964aa),
        Four(0xaf632ea2, 0xd8c9dcea, 0x179f92cd, 0x78920eed), Four(0xc7730c54, 0xf3fb786, 0x3e24e150, 0x7d6d4c97)))
      == Rows(
        Four(0x81b3cd4e, 0xb8340e69, 0xf192efe3, 0xe2957fe), Four(0xc9938dde, 0xa65b5771, 0xdd02f436, 0x34617811),
        Four(0xe2c5a83f, 0x901e027f, 0x4a314e3e, 0x4fc41100), Four(0xe15caf4d, 0xd039c3, 0xe38946dd, 0x9a681619))
  {
    hide QuarterRound;
    QuarterIs(0xb17224c4, 0x26c3affa, 0x179f92cd, 0x7d6d4c97, 0xd835d4be, 42328, 0x9829a558,
              0xafc93825, 2192, 0xa97df890, 0x81b3cd4e, 25, 0x9a681619, 0x4a314e3e, 113, 0xa65b5771);
    QuarterIs(0x74d0b32f, 0x20e54652, 0x78920eed, 0xc7730c54, 0x95b5f981, 21190, 0xf5d552c6,
              0x6e6761b3, 1256, 0x227e14e8, 0xb8340e69, 77, 0xe15caf4d, 0x4fc41100, 54, 0xdd02f436);
    QuarterIs(0xe3dc206a, 0x4d0964aa, 0xaf632ea2, 0xf3fb786, 0x30e58514, 16346, 0x32923fda,
              0xe1f56e7c, 2767, 0xc0ad6acf, 0xf192efe3, 195, 0xd039c3, 0xe2c5a83f, 17, 0x34617811);
    QuarterIs(0xe5c5cf2a, 0xfad66370, 0xd8c9dcea, 0x3e24e150, 0xe09c329a, 57016, 0xd3cadeb8,
              0xac94bba2, 1380, 0x2d8d2564, 0xe2957fe, 221, 0xe38946dd, 0x901e027f, 94, 0xc9938dde);
  }

  lemma ColumnRound4()
    ensures ColumnRound(
      Rows(
        Four(0x81b3cd4e, 0xb8340e69, 0xf192efe3, 0xe2957fe), Four(0xc9938dde, 0xa65b5771, 0xdd02f436, 0x34617811),
        Four(0xe2c5a83f, 0x901e027f, 0x4a314e3e, 0x4fc41100), Four(0xe15caf4d, 0xd039c3, 0xe38946dd, 0x9a681619)))
      == Rows(
        Four(0x993f9d17, 0x220a5a80, 0x478ca738, 0xfbaa022a), Four(0x530f963c, 0x235a7d1e, 0xc4b19026, 0xd5400235),
        Four(0x355e5ec7, 0xff3c405c, 0x357fa03f, 0xd2b5b21f), Four(0x5e370c6d, 0x1304df7e, 0x488a24e5, 0xbcdac83d))
  {
    hide QuarterRound;
    QuarterIs(0x81b3cd4e, 0xc9938dde, 0xe2c5a83f, 0xe15caf4d, 0x4b475b2c, 43547, 0xf461aa1b,
              0xd727525a, 491, 0x4df841eb, 0x993f9d17, 109, 0x5e370c6d, 0x355e5ec7, 60, 0x530f963c);
    QuarterIs(0xb8340e69, 0xa65b5771, 0x901e027f, 0xd039c3, 0x5e8f65da, 24159, 0x5c195e5f,
              0xec3760de, 1190, 0xc37af4a6, 0x220a5a80, 126, 0x1304df7e, 0xff3c405c, 30, 0x235a7d1e);
    QuarterIs(0xf192efe3, 0xdd02f436, 0x4a314e3e, 0xe38946dd, 0xce95e419, 11548, 0xa2c42d1c,
              0xecf57b5a, 799, 0x78f6c31f, 0x478ca738, 229, 0x488a24e5, 0x357fa03f, 38, 0xc4b19026);
    QuarterIs(0xe2957fe, 0x34617811, 0x4fc41100, 0x9a681619, 0x428ad00f, 55522, 0xc616d8e2,
              0x15dae9e2, 539, 0xb91f321b, 0xfbaa022a, 61, 0xbcdac83d, 0xd2b5b21f, 53, 0xd5400235);
  }

  lemma DiagonalRound4()
    ensures DiagonalRound(
      Rows(
        Four(0x993f9d17, 0x220a5a80, 0x478ca738, 0xfbaa022a), Four(0x530f963c, 0x235a7d1e, 0xc4b19026, 0xd5400235),
        Four(0x355e5ec7, 0xff3c405c, 0x357fa03f, 0xd2b5b21f), Four(0x5e370c6d, 0x1304df7e, 0x488a24e5, 0xbcdac83d)))
      == Rows(
        Four(0x9a702c82, 0xf664c279, 0x33985150, 0x5bc4d6f1), Four(0x4d9bfe87, 0x31384551, 0xaa443433, 0xdd09b90),
        Four(0x36d006d4, 0x3900976, 0x7fb462c7, 0x68fc5fbb), Four(0xaf7af510, 0x8b5e9845, 0x47d0c2e7, 0x782cc248))
  {
    hide QuarterRound;
    QuarterIs(0x993f9d17, 0x235a7d1e, 0x357fa03f, 0xbcdac83d, 0xbc9a1a35, 64, 0xd2080040,
              0x787a07f, 589, 0xddd6124d, 0x9a702c82, 72, 0x782cc248, 0x7fb462c7, 81, 0x31384551);
    QuarterIs(0x220a5a80, 0xc4b19026, 0xd2b5b21f, 0x5e370c6d, 0xe6bbeaa6, 47244, 0xe6cbb88c,
              0xb9816aab, 2003, 0xfa8d7d3, 0xf664c279, 16, 0xaf7af510, 0x68fc5fbb, 51, 0xaa443433);
    QuarterIs(0x478ca738, 0xd5400235, 0x355e5ec7, 0x1304df7e, 0x1ccca96d, 4040, 0x76130fc8,
              0xab716e8f, 2019, 0x16cba7e3, 0x33985150, 69, 0x8b5e9845, 0x36d006d4, 16, 0xdd09b90);
    QuarterIs(0xfbaa022a, 0x530f963c, 0xff3c405c, 0x488a24e5, 0x4eb99866, 1587, 0xbc830633,
              0xbbbf468f, 3723, 0xd0b3e8b, 0x5bc4d6f1, 231, 0x47d0c2e7, 0x3900976, 7, 0x4d9bfe87);
  }

  lemma ColumnRound5()
    ensures ColumnRound(
      Rows(
        Four(0x9a702c82, 0xf664c279, 0x33985150, 0x5bc4d6f1), Four(0x4d9bfe87, 0x31384551, 0xaa443433, 0xdd09b90),
        Four(0x36d006d4, 0x3900976, 0x7fb462c7, 0x68fc5fbb), Four(0xaf7af510, 0x8b5e9845, 0x47d0c2e7, 0x782cc248)))
      == Rows(
        Four(0x131900a0, 0xa6d390ec, 0xaa6a8c58, 0xc843b3c2), Four(0x1ef8401f, 0x36b62840, 0xd0ab8a8c, 0x64d6d6fd),
        Four(0x15312517, 0xff5be572, 0xd52f51c0, 0xa467ecec), Four(0x47d6cd, 0x5c3c2f39, 0xe1654ed, 0x8aa27b78))
  {
    hide QuarterRound;
    QuarterIs(0x9a702c82, 0x4d9bfe87, 0x36d006d4, 0xaf7af510, 0xe80c2b09, 18294, 0xde194776,
              0x14e94e4a, 1431, 0x2b0cd597, 0x131900a0, 205, 0x47d6cd, 0x15312517, 31, 0x1ef8401f);
    QuarterIs(0xf664c279, 0x31384551, 0x3900976, 0x8b5e9845, 0x279d07ca, 44227, 0x9f8facc3,
              0xa31fb639, 2338, 0x7f368922, 0xa6d390ec, 57, 0x5c3c2f39, 0xff5be572, 64, 0x36b62840);
    QuarterIs(0x33985150, 0xaa443433, 0x7fb462c7, 0x47d0c2e7, 0xdddc8583, 39436, 0x47649a0c,
              0xc718fcd3, 1749, 0xcc8e06d5, 0xaa6a8c58, 237, 0xe1654ed, 0xd52f51c0, 12, 0xd0ab8a8c);
    QuarterIs(0x5bc4d6f1, 0xdd09b90, 0x68fc5fbb, 0x782cc248, 0x69957281, 4537, 0xb0c911b9,
              0x19c57174, 321, 0x5eae4141, 0xc843b3c2, 120, 0x8aa27b78, 0xa467ecec, 125, 0x64d6d6fd);
  }

  lemma DiagonalRound5()
    ensures DiagonalRound(
      Rows(
        Four(0x131900a0, 0xa6d390ec, 0xaa6a8c58, 0xc843b3c2), Four(0x1ef8401f, 0x36b62840, 0xd0ab8a8c, 0x64d6d6fd),
        Four(0x15312517, 0xff5be572, 0xd52f51c0, 0xa467ecec), Four(0x47d6cd, 0x5c3c2f39, 0xe1654ed, 0x8aa27b78)))
      == Rows(
        Four(0x2da5fac7, 0xe669a5a3, 0xca27f3a9, 0xf023ff6a), Four(0xcb8f3fee, 0xebb72642, 0x2bab210, 0xec6ea70b),
        Four(0xad3e4d1a, 0xd57f15f6, 0x6601bfab, 0x4eefff4f), Four(0xdcd29b2b, 0x4ba0d486, 0x2f164757, 0x3d39aa7e))
  {
    hide QuarterRound;
    QuarterIs(0x131900a0, 0x36b62840, 0xd52f51c0, 0x8aa27b78, 0x49cf28e0, 50029, 0x5398c36d,
              0x28c8152d, 487, 0xe3d6d1e7, 0x2da5fac7, 126, 0x3d39aa7e, 0x6601bfab, 66, 0xebb72642);
    QuarterIs(0xa6d390ec, 0xd0ab8a8c, 0xa467ecec, 0x47d6cd, 0x777f1b78, 30520, 0xcdb57738,
              0x721d6424, 2603, 0x6eea8a2b, 0xe669a5a3, 43, 0xdcd29b2b, 0x4eefff4f, 16, 0x2bab210);
    QuarterIs(0xaa6a8c58, 0x64d6d6fd, 0x15312517, 0x5c3c2f39, 0xf416355, 21373, 0x4c6c537d,
              0x619d7894, 84, 0xbae69054, 0xca27f3a9, 134, 0x4ba0d486, 0xad3e4d1a, 11, 0xec6ea70b);
    QuarterIs(0xc843b3c2, 0x1ef8401f, 0xff5be572, 0xe1654ed, 0xe73bf3e1, 59693, 0xa70ce92d,
              0xa668ce9f, 2953, 0x8e80b89, 0xf023ff6a, 87, 0x2f164757, 0xd57f15f6, 110, 0xcb8f3fee);
  }

  lemma ColumnRound6()
    ensures ColumnRound(
      Rows(
        Four(0x2da5fac7, 0xe669a5a3, 0xca27f3a9, 0xf023ff6a), Four(0xcb8f3fee, 0xebb72642, 0x2bab210, 0xec6ea70b),
        Four(0xad3e4d1a, 0xd57f15f6, 0x6601bfab, 0x4eefff4f), Four(0xdcd29b2b, 0x4ba0d486, 0x2f164757, 0x3d39aa7e)))
      == Rows(
        Four(0x2e04330a, 0x2ab40dda, 0x6dfb9a5d, 0x3111c1de), Four(0x1ecc62ee, 0x72242f4a, 0xb95cc57f, 0xb1a6af10),
        Four(0xe8f36090, 0xcc7709ab, 0x5e6a4d2e, 0x751c5637), Four(0x9a16ed8f, 0xd7945a35, 0x1579a98f, 0x1a20753d))
  {
    hide QuarterRound;
    QuarterIs(0x2da5fac7, 0xcb8f3fee, 0xad3e4d1a, 0xdcd29b2b, 0xf9353ab5, 9703, 0xa19e25e7,
              0x4edc7301, 2133, 0x34cef855, 0x2e04330a, 143, 0x9a16ed8f, 0xe8f36090, 110, 0x1ecc62ee);
    QuarterIs(0xe669a5a3, 0xebb72642, 0xd57f15f6, 0x4ba0d486, 0xd220cbe5, 39296, 0x1f639980,
              0xf4e2af76, 501, 0x589341f5, 0x2ab40dda, 53, 0xd7945a35, 0xcc7709ab, 74, 0x72242f4a);
    QuarterIs(0xca27f3a9, 0x2bab210, 0x6601bfab, 0x2f164757, 0xcce2a5b9, 58356, 0xe2eee3f4,
              0x48f0a39f, 1188, 0xa118f4a4, 0x6dfb9a5d, 143, 0x1579a98f, 0x5e6a4d2e, 127, 0xb95cc57f);
    QuarterIs(0xf023ff6a, 0xec6ea70b, 0x4eefff4f, 0x3d39aa7e, 0xdc92a675, 57771, 0xc0be1ab,
              0x5afbe0fa, 2921, 0x547f1b69, 0x3111c1de, 61, 0x1a20753d, 0x751c5637, 16, 0xb1a6af10);
  }

  lemma DiagonalRound6()
    ensures DiagonalRound(
      Rows(
        Four(0x2e04330a, 0x2ab40dda, 0x6dfb9a5d, 0x3111c1de), Four(0x1ecc62ee, 0x72242f4a, 0xb95cc57f, 0xb1a6af10),
        Four(0xe8f36090, 0xcc7709ab, 0x5e6a4d2e, 0x751c5637), Four(0x9a16ed8f, 0xd7945a35, 0x1579a98f, 0x1a20753d)))
      == Rows(
        Four(0xa2b022d3, 0xc524f403, 0xc81fae4b, 0xb049e943), Four(0x2c67c02, 0xf5914a26, 0xb47d4923, 0xe7e13ff5),
        Four(0x43b2a6a1, 0x646e488f, 0x4f6ce2eb, 0xa67cda38), Four(0xf28a05fb, 0x47667ddb, 0xab3e43d, 0xd998dbb5))
  {
    hide QuarterRound;
    QuarterIs(0x2e04330a, 0x72242f4a, 0x5e6a4d2e, 0x1a20753d, 0xa0286254, 47624, 0x1769ba08,
              0x75d40736, 127, 0x287c07f, 0xa2b022d3, 181, 0xd998dbb5, 0x4f6ce2eb, 38, 0xf5914a26);
    QuarterIs(0x2ab40dda, 0xb95cc57f, 0x751c5637, 0x9a16ed8f, 0xe410d359, 32262, 0x3ed67e06,
              0xb3f2d43d, 170, 0xe11420aa, 0xc524f403, 251, 0xf28a05fb, 0xa67cda38, 35, 0xb47d4923);
    QuarterIs(0x6dfb9a5d, 0xb1a6af10, 0xe8f36090, 0xd7945a35, 0x1fa2496d, 51254, 0x1358c836,
              0xfc4c28c6, 1246, 0xa87d64de, 0xc81fae4b, 219, 0x47667ddb, 0x43b2a6a1, 117, 0xe7e13ff5);
    QuarterIs(0x3111c1de, 0x1ecc62ee, 0xcc7709ab, 0x1579a98f, 0x4fde24cc, 23207, 0x8d435aa7,
              0x59ba6452, 1143, 0x606bc477, 0xb049e943, 61, 0xab3e43d, 0x646e488f, 2, 0x2c67c02);
  }

  lemma ColumnRound7()
    ensures ColumnRound(
      Rows(
        Four(0xa2b022d3, 0xc524f403, 0xc81fae4b, 0xb049e943), Four(0x2c67c02, 0xf5914a26, 0xb47d4923, 0xe7e13ff5),
        Four(0x43b2a6a1, 0x646e488f, 0x4f6ce2eb, 0xa67cda38), Four(0xf28a05fb, 0x47667ddb, 0xab3e43d, 0xd998dbb5)))
      == Rows(
        Four(0xda09c97, 0xbb7dd408, 0x4da094d9, 0x4a6d1126), Four(0xc2cbf882, 0xa645441b, 0xd06909c3, 0x8dab26e5),
        Four(0x6dac6a33, 0x378b1f57, 0x56a34f78, 0x795ab1a3), Four(0x8ecb6b96, 0x8f29d8f8, 0xf3e2f65e, 0xe05095b8))
  {
    hide QuarterRound;
    QuarterIs(0xa2b022d3, 0x2c67c02, 0x43b2a6a1, 0xf28a05fb, 0xa5769ed5, 22524, 0x9b2e57fc,
              0xdee0fe9d, 3522, 0x6829fdc2, 0xda09c97, 150, 0x8ecb6b96, 0x6dac6a33, 2, 0xc2cbf882);
    QuarterIs(0xc524f403, 0xf5914a26, 0x646e488f, 0x47667ddb, 0xbab63e29, 64976, 0x43f2fdd0,
              0xa861465f, 1503, 0xc795df, 0xbb7dd408, 248, 0x8f29d8f8, 0x378b1f57, 27, 0xa645441b);
    QuarterIs(0xc81fae4b, 0xb47d4923, 0x4f6ce2eb, 0xab3e43d, 0x7c9cf76e, 30255, 0x1353762f,
              0x62c0591a, 3435, 0xd1039d6b, 0x4da094d9, 94, 0xf3e2f65e, 0x56a34f78, 67, 0xd06909c3);
    QuarterIs(0xb049e943, 0xe7e13ff5, 0xa67cda38, 0xd998dbb5, 0x982b2938, 16819, 0xf28d41b3,
              0x990a1beb, 2030, 0xb241e7ee, 0x4a6d1126, 184, 0xe05095b8, 0x795ab1a3, 101, 0x8dab26e5);
  }

  lemma DiagonalRound7()
    ensures DiagonalRound(
      Rows(
        Four(0xda09c97, 0xbb7dd408, 0x4da094d9, 0x4a6d1126), Four(0xc2cbf882, 0xa645441b, 0xd06909c3, 0x8dab26e5),
        Four(0x6dac6a33, 0x378b1f57, 0x56a34f78, 0x795ab1a3), Four(0x8ecb6b96, 0x8f29d8f8, 0xf3e2f65e, 0xe05095b8)))
      == Rows(
        Four(0x42594790, 0x77d81dc8, 0x74d2c193, 0xaba418fc), Four(0x1a5690a, 0x59575d48, 0x90d1b62f, 0x7d53cfe),
        Four(0x6588afac, 0x8a684586, 0x1ec1c864, 0xb4d09c91), Four(0x8518e5c1, 0x9495f117, 0x52e62754, 0x53142537))
  {
    hide QuarterRound;
    QuarterIs(0xda09c97, 0xa645441b, 0x56a34f78, 0xe05095b8, 0xb3e5e0b2, 21429, 0x750a53b5,
              0xcbada32d, 1758, 0x8e7366de, 0x42594790, 55, 0x53142537, 0x1ec1c864, 72, 0x59575d48);
    QuarterIs(0xbb7dd408, 0xd06909c3, 0x795ab1a3, 0x8ecb6b96, 0x8be6ddcb, 1325, 0xb65d052d,
              0x2fb7b6d0, 4093, 0xebf13ffd, 0x77d81dc8, 193, 0x8518e5c1, 0xb4d09c91, 47, 0x90d1b62f);
    QuarterIs(0x4da094d9, 0x8dab26e5, 0x6dac6a33, 0x8f29d8f8, 0xdb4bbbbe, 21602, 0x63465462,
              0xd0f2be95, 1493, 0x998705d5, 0x74d2c193, 23, 0x9495f117, 0x6588afac, 126, 0x7d53cfe);
    QuarterIs(0x4a6d1126, 0xc2cbf882, 0x378b1f57, 0xf3e2f65e, 0xd3909a8, 65243, 0xfff6fedb,
              0x37821e32, 3924, 0x9e6b0f54, 0xaba418fc, 84, 0x52e62754, 0x8a684586, 10, 0x1a5690a);
  }

  lemma ColumnRound8()
    ensures ColumnRound(
      Rows(
        Four(0x42594790, 0x77d81dc8, 0x74d2c193, 0xaba418fc), Four(0x1a5690a, 0x59575d48, 0x90d1b62f, 0x7d53cfe),
        Four(0x6588afac, 0x8a684586, 0x1ec1c864, 0xb4d09c91), Four(0x8518e5c1, 0x9495f117, 0x52e62754, 0x53142537)))
      == Rows(
        Four(0x55f83c4e, 0x5e8fffe3, 0xa03d17ba, 0x6779581e), Four(0x934a9327, 0x24b0e388, 0xc3b740, 0x2b7918b7),
        Four(0x5edf1e92, 0x9d29e514, 0x1a991896, 0xda56f015), Four(0xa3faa800, 0x88ba59d4, 0xab40f8f0, 0xb4b87317))
  {
    hide QuarterRound;
    QuarterIs(0x42594790, 0x1a5690a, 0x6588afac, 0x8518e5c1, 0x43feb09a, 50918, 0x555bc6e6,
              0xbae47692, 2996, 0x11f98bb4, 0x55f83c4e, 0, 0xa3faa800, 0x5edf1e92, 39, 0x934a9327);
    QuarterIs(0x77d81dc8, 0x59575d48, 0x8a684586, 0x9495f117, 0xd12f7b10, 17850, 0x8a0745ba,
              0x146f8b40, 1235, 0x8d6084d3, 0x5e8fffe3, 212, 0x88ba59d4, 0x9d29e514, 8, 0x24b0e388);
    QuarterIs(0x74d2c193, 0x90d1b62f, 0x1ec1c864, 0x52e62754, 0x5a477c2, 22338, 0x50965742,
              0x6f581fa6, 4088, 0x9a989ff8, 0xa03d17ba, 240, 0xab40f8f0, 0x1a991896, 64, 0xc3b740);
    QuarterIs(0xaba418fc, 0x7d53cfe, 0xb4d09c91, 0x53142537, 0xb37955fa, 57453, 0x70cde06d,
              0x259e7cfe, 548, 0xb4000224, 0x6779581e, 23, 0xb4b87317, 0xda56f015, 55, 0x2b7918b7);
  }

  lemma DiagonalRound8()
    ensures DiagonalRound(
      Rows(
        Four(0x55f83c4e, 0x5e8fffe3, 0xa03d17ba, 0x6779581e), Four(0x934a9327, 0x24b0e388, 0xc3b740, 0x2b7918b7),
        Four(0x5edf1e92, 0x9d29e514, 0x1a991896, 0xda56f015), Four(0xa3faa800, 0x88ba59d4, 0xab40f8f0, 0xb4b87317)))
      == Rows(
        Four(0x1afc1a14, 0xf513a6be, 0xa348ceb0, 0x551eed7e), Four(0x6398f203, 0xbe0b11b2, 0x357599de, 0xc0402bb0),
        Four(0xb6121e68, 0x5c9c33dd, 0xc52eec1d, 0x29d504a8), Four(0x305a17ea, 0xed8dbcca, 0xabbcfd46, 0x3dd40576))
  {
    hide QuarterRound;
    QuarterIs(0x55f83c4e, 0x24b0e388, 0x1a991896, 0xb4b87317, 0x7aa91fd6, 52753, 0x6cc1ce11,
              0x875ae6a7, 2622, 0xa052fa3e, 0x1afc1a14, 118, 0x3dd40576, 0xc52eec1d, 50, 0xbe0b11b2);
    QuarterIs(0x5e8fffe3, 0xc3b740, 0xda56f015, 0xa3faa800, 0x5f53b723, 64681, 0x1f23fca9,
              0xf97aecbe, 3995, 0x95bfef9b, 0xf513a6be, 234, 0x305a17ea, 0x29d504a8, 94, 0x357599de);
    QuarterIs(0xa03d17ba, 0x2b7918b7, 0x5edf1e92, 0x88ba59d4, 0xcbb63071, 17164, 0x69a5430c,
              0xc884619e, 3647, 0xd7929e3f, 0xa348ceb0, 202, 0xed8dbcca, 0xb6121e68, 48, 0xc0402bb0);
    QuarterIs(0x6779581e, 0x934a9327, 0x9d29e514, 0xab40f8f0, 0xfac3eb45, 20867, 0x13b55183,
              0xb0df3697, 569, 0x5a5b0239, 0x551eed7e, 70, 0xabbcfd46, 0x5c9c33dd, 3, 0x6398f203);
  }

  lemma ColumnRound9()
    ensures ColumnRound(
      Rows(
        Four(0x1afc1a14, 0xf513a6be, 0xa348ceb0, 0x551eed7e), Four(0x6398f203, 0xbe0b11b2, 0x357599de, 0xc0402bb0),
        Four(0xb6121e68, 0x5c9c33dd, 0xc52eec1d, 0x29d504a8), Four(0x305a17ea, 0xed8dbcca, 0xabbcfd46, 0x3dd40576)))
      == Rows(
        Four(0xf8885730, 0x8b5ae665, 0x52a7f86, 0xe5c75194), Four(0x6d13019f, 0x19d2854d, 0xb7faab88, 0xe73aa51a),
        Four(0x47296d1a, 0x420f88ff, 0x3d03e3af, 0xe5a64d2c), Four(0x7519ffe3, 0xe0b8f68f, 0xe20c8490, 0x9f791ff9))
  {
    hide QuarterRound;
    QuarterIs(0x1afc1a14, 0x6398f203, 0xb6121e68, 0x305a17ea, 0x7e950c17, 20175, 0x1bfd4ecf,
              0xd20f6d37, 2841, 0x79f34b19, 0xf8885730, 227, 0x7519ffe3, 0x47296d1a, 31, 0x6d13019f);
    QuarterIs(0xf513a6be, 0xbe0b11b2, 0x5c9c33dd, 0xed8dbcca, 0xb31eb870, 24211, 0x4ba5e93,
              0x61569270, 3573, 0xd83c2df5, 0x8b5ae665, 143, 0xe0b8f68f, 0x420f88ff, 77, 0x19d2854d);
    QuarterIs(0xa348ceb0, 0x357599de, 0xc52eec1d, 0xabbcfd46, 0xd8be688e, 29442, 0x95c87302,
              0x5af75f1f, 1784, 0x2c6c16f8, 0x52a7f86, 144, 0xe20c8490, 0x3d03e3af, 8, 0xb7faab88);
    QuarterIs(0x551eed7e, 0xc0402bb0, 0x29d504a8, 0x3dd40576, 0x155f192e, 10379, 0x1c58288b,
              0x462d2d33, 2150, 0xd0683866, 0xe5c75194, 249, 0x9f791ff9, 0xe5a64d2c, 26, 0xe73aa51a);
  }

  lemma DiagonalRound9()
    ensures DiagonalRound(
      Rows(
        Four(0xf8885730, 0x8b5ae665, 0x52a7f86, 0xe5c75194), Four(0x6d13019f, 0x19d2854d, 0xb7faab88, 0xe73aa51a),
        Four(0x47296d1a, 0x420f88ff, 0x3d03e3af, 0xe5a64d2c), Four(0x7519ffe3, 0xe0b8f68f, 0xe20c8490, 0x9f791ff9)))
      == Rows(
        Four(0xc1b4ce12, 0x25e4a031, 0x1a340486, 0x565efa7d), Four(0xbca10e0a, 0xc92820cf, 0x620743ee, 0xd7052c8c),
        Four(0x3460d5bf, 0x16fde556, 0x30cba1d4, 0x3e4b00c3), Four(0xea967d4b, 0x1b085bc8, 0xfd4aab81, 0x30433102))
  {
    hide QuarterRound;
    QuarterIs(0xf8885730, 0x19d2854d, 0x3d03e3af, 0x9f791ff9, 0x125adc7d, 36131, 0xc3848d23,
              0x8870d2, 405, 0xaf59f195, 0xc1b4ce12, 2, 0x30433102, 0x30cba1d4, 79, 0xc92820cf);
    QuarterIs(0x8b5ae665, 0xb7faab88, 0xe5a64d2c, 0x7519ffe3, 0x435591ed, 13900, 0x6e0e364c,
              0x53b48378, 3652, 0xe28f0e44, 0x25e4a031, 75, 0xea967d4b, 0x3e4b00c3, 110, 0x620743ee);
    QuarterIs(0x52a7f86, 0xe73aa51a, 0x47296d1a, 0xe0b8f68f, 0xec6524a0, 3293, 0xd22f0cdd,
              0x195879f7, 4070, 0x2dcedfe6, 0x1a340486, 200, 0x1b085bc8, 0x3460d5bf, 12, 0xd7052c8c);
    QuarterIs(0xe5c75194, 0x6d13019f, 0x420f88ff, 0xe20c8490, 0x52da5333, 45270, 0xd7a3b0d6,
              0x19b339d5, 1866, 0x384a74a, 0x565efa7d, 129, 0xfd4aab81, 0x16fde556, 10, 0xbca10e0a);
  }

  lemma ColumnRound10()
    ensures ColumnRound(
      Rows(
        Four(0xc1b4ce12, 0x25e4a031, 0x1a340486, 0x565efa7d), Four(0xbca10e0a, 0xc92820cf, 0x620743ee, 0xd7052c8c),
        Four(0x3460d5bf, 0x16fde556, 0x30cba1d4, 0x3e4b00c3), Four(0xea967d4b, 0x1b085bc8, 0xfd4aab81, 0x30433102)))
      == Rows(
        Four(0x149e62ad, 0xdea6188e, 0xe245ffe0, 0x607a8f3e), Four(0xf32fd304, 0x951a0867, 0x9a819551, 0x7f2faafb),
        Four(0x9faed937, 0x20b3639e, 0xc53fb446, 0xc5e83760), Four(0xc9f66eb5, 0x6eec8a44, 0xb07e9101, 0x71921976))
  {
    hide QuarterRound;
    QuarterIs(0xc1b4ce12, 0xbca10e0a, 0x3460d5bf, 0xea967d4b, 0x7e55dc1c, 38083, 0xa15794c3,
              0xd5b86a82, 1681, 0x96488691, 0x149e62ad, 181, 0xc9f66eb5, 0x9faed937, 4, 0xf32fd304);
    QuarterIs(0x25e4a031, 0xc92820cf, 0x16fde556, 0x1b085bc8, 0xef0cc100, 62468, 0x9ac8f404,
              0xb1c6d95a, 1934, 0xef99578e, 0xdea6188e, 68, 0x6eec8a44, 0x20b3639e, 103, 0x951a0867);
    QuarterIs(0x1a340486, 0x620743ee, 0x30cba1d4, 0xfd4aab81, 0x7c3b4874, 33137, 0xe3f58171,
              0x14c12345, 1900, 0x660ab76c, 0xe245ffe0, 1, 0xb07e9101, 0xc53fb446, 81, 0x9a819551);
    QuarterIs(0x565efa7d, 0xd7052c8c, 0x3e4b00c3, 0x30433102, 0x2d642709, 7463, 0x160b1d27,
              0x54561dea, 2101, 0x33166835, 0x607a8f3e, 118, 0x71921976, 0xc5e83760, 123, 0x7f2faafb);
  }

  lemma DiagonalRound10()
    ensures DiagonalRound(
      Rows(
        Four(0x149e62ad, 0xdea6188e, 0xe245ffe0, 0x607a8f3e), Four(0xf32fd304, 0x951a0867, 0x9a819551, 0x7f2faafb),
        Four(0x9faed937, 0x20b3639e, 0xc53fb446, 0xc5e83760), Four(0xc9f66eb5, 0x6eec8a44, 0xb07e9101, 0x71921976)))
      == Rows(
        Four(0x31f9e53f, 0xb0fdaf1c, 0x859866d1, 0xdcf1d04f), Four(0xb6c65627, 0x4f6dcc2d, 0xd25a4c8b, 0xcac541f1),
        Four(0xc7b73175, 0xc62ae2a1, 0xd2dfa1b3, 0x2072b5a4), Four(0x971fcd73, 0x76948a5, 0xb2339b2f, 0x9b3d1543))
  {
    hide QuarterRound;
    QuarterIs(0x149e62ad, 0x951a0867, 0xc53fb446, 0x71921976, 0xa9b86b14, 55338, 0x7262d82a,
              0x37a28c70, 2603, 0x88417a2b, 0x31f9e53f, 67, 0x9b3d1543, 0xd2dfa1b3, 45, 0x4f6dcc2d);
    QuarterIs(0xdea6188e, 0x9a819551, 0xc5e83760, 0xc9f66eb5, 0x7927addf, 45265, 0xc36ab0d1,
              0x8952e831, 317, 0x37d6013d, 0xb0fdaf1c, 115, 0x971fcd73, 0x2072b5a4, 11, 0xd25a4c8b);
    QuarterIs(0xe245ffe0, 0x7f2faafb, 0x9faed937, 0x6eec8a44, 0x6175aadb, 3993, 0x209f0f99,
              0xc04de8d0, 3062, 0x2422bbf6, 0x859866d1, 165, 0x76948a5, 0xc7b73175, 113, 0xcac541f1);
    QuarterIs(0x607a8f3e, 0xf32fd304, 0x20b3639e, 0xb07e9101, 0x53aa6242, 58324, 0xf343e3d4,
              0x13f74772, 3597, 0x89476e0d, 0xdcf1d04f, 47, 0xb2339b2f, 0xc62ae2a1, 39, 0xb6c65627);
  }

  lemma TwentyRounds()
    ensures DoubleRounds(Skip(Start(), 2, true), 10)
      == Rows(
        Four(0x31f9e53f, 0xb0fdaf1c, 0x859866d1, 0xdcf1d04f), Four(0xb6c65627, 0x4f6dcc2d, 0xd25a4c8b, 0xcac541f1),
        Four(0xc7b73175, 0xc62ae2a1, 0xd2dfa1b3, 0x2072b5a4), Four(0x971fcd73, 0x76948a5, 0xb2339b2f, 0x9b3d1543))
  {
    hide ColumnRound, DiagonalRound, Rows, Skip, Start;
    NextStart();
    ColumnRound1(); DiagonalRound1(); ColumnRound2(); DiagonalRound2();
    ColumnRound3(); DiagonalRound3(); ColumnRound4(); DiagonalRound4();
    ColumnRound5(); DiagonalRound5(); ColumnRound6(); DiagonalRound6();
    ColumnRound7(); DiagonalRound7(); ColumnRound8(); DiagonalRound8();
    ColumnRound9(); DiagonalRound9(); ColumnRound10(); DiagonalRound10();
  }

  lemma CarriesDisagree()
    ensures !CarriesAgree(Start(), 2, 20)
  {
    hide DoubleRounds, Skip;
    TwentyRounds();
  }

  /** After twenty rounds the last addition of 2 carries although the counter does not wrap. */
  lemma TwentyRoundsGoAstray()
    ensures MultiBlockSafe(Start().r3.a, 4) && RegisterBlocks(Start(), 20) != Stream(Start(), 4, 20, true)
  {
    hide RegisterBlocks, Stream, CarriesAgree;
    CarriesDisagree();
    RegisterBlocksExact(Start(), 20);
  }

  /** So do the next four blocks written with 128-bit registers, for either width of the counter. */
  lemma KeystreamGoesAstray(wide: bool, has256: bool)
    ensures Keystream(Start(), 4, 20, wide, has256, true, true) != Stream(Start(), 4, 20, wide)
  {
    hide Keystream, Stream, CarriesAgree;
    CarriesDisagree();
    FourAstray(Start(), 20, wide, has256);
  }
}
