/** The built-in groups are what the scan needs: each root generates its group and the factors are complete. */
module GroupTable {
  import opened Arith
  import opened ModPower
  import opened Cyclic
  import opened Certificates

  // Each row's order is factored into primes; the powers of its root at the order and at the order
  // over each prime are computed four bits of the exponent at a time. Larger primes among the
  // factors are certified in the same way.

  lemma Powers1423Part1()
    ensures PowMod(3, 3, 1423) == 27
    ensures PowMod(27, 79, 1423) == 780
  {
    hide PowMod;
    Nothing(3, 1423);
    Steps(3, 1423, 0, 3, 1, false, 0, 1, false, 0, 1, true, 0, 3, true, 0, 27);
    Nothing(27, 1423);
    Steps(27, 1423, 0, 4, 1, false, 0, 1, true, 0, 27, false, 0, 729, false, 373, 662);
    Steps(27, 1423, 4, 79, 662, true, 8315, 343, true, 2232, 387, true, 2841, 1020, true, 19740, 780);
  }

  lemma Powers1423Part2()
    ensures PowMod(780, 3, 1423) == 1422
    ensures PowMod(1422, 2, 1423) == 1
    ensures PowMod(780, 2, 1423) == 779
  {
    hide PowMod;
    Nothing(780, 1423);
    Steps(780, 1423, 0, 3, 1, false, 0, 1, false, 0, 1, true, 0, 780, true, 333486, 1422);
    Nothing(1422, 1423);
    Steps(1422, 1423, 0, 2, 1, false, 0, 1, false, 0, 1, true, 0, 1422, false, 1421, 1);
    Nothing(780, 1423);
    Steps(780, 1423, 0, 2, 1, false, 0, 1, false, 0, 1, true, 0, 780, false, 427, 779);
  }

  lemma Powers1423Part3()
    ensures PowMod(27, 3, 1423) == 1184
    ensures PowMod(1184, 2, 1423) == 201
  {
    hide PowMod;
    Nothing(27, 1423);
    Steps(27, 1423, 0, 3, 1, false, 0, 1, false, 0, 1, true, 0, 27, true, 13, 1184);
    Nothing(1184, 1423);
    Steps(1184, 1423, 0, 2, 1, false, 0, 1, false, 0, 1, true, 0, 1184, false, 985, 201);
  }

  lemma Prime1423()
    ensures IsPrime(1423)
  {
    hide PowMod, IsPrime, PrimitiveRoot, Supports, Quot, Mod, Sound;
    SmallPrimes();
    Powers1423Part1();
    Powers1423Part2();
    Powers1423Part3();
    Raise(3, 3, 27, 79, 237, 780, 1423);
    Raise(3, 237, 780, 3, 711, 1422, 1423);
    Raise(3, 711, 1422, 2, 1422, 1, 1423);
    Raise(3, 237, 780, 2, 474, 779, 1423);
    Raise(3, 3, 27, 3, 9, 1184, 1423);
    Raise(3, 9, 1184, 2, 18, 201, 1423);
    SupportsPrime(2, [2, 3, 79]);
    SupportsPrime(3, [2, 3, 79]);
    SupportsPrime(79, [2, 3, 79]);
    SupportsTimes(2, 3, 6, [2, 3, 79]);
    SupportsTimes(6, 3, 18, [2, 3, 79]);
    SupportsTimes(18, 79, 1422, [2, 3, 79]);
    QuotIs(1422, 2, 711);
    QuotIs(1422, 3, 474);
    QuotIs(1422, 79, 18);
    Certify(3, 1423, [2, 3, 79]);
    RootMakesPrime(3, 1423);
  }

  lemma Powers3541Part1()
    ensures PowMod(7, 2, 3541) == 49
    ensures PowMod(49, 59, 3541) == 36
  {
    hide PowMod;
    Nothing(7, 3541);
    Steps(7, 3541, 0, 2, 1, false, 0, 1, false, 0, 1, true, 0, 7, false, 0, 49);
    Nothing(49, 3541);
    Steps(49, 3541, 0, 3, 1, false, 0, 1, false, 0, 1, true, 0, 49, true, 33, 796);
    Steps(49, 3541, 3, 59, 796, true, 8767, 3237, false, 2959, 350, true, 1695, 505, true, 3529, 36);
  }

  lemma Powers3541Part2()
    ensures PowMod(36, 5, 3541) == 60
    ensures PowMod(60, 3, 3541) == 3540
    ensures PowMod(3540, 2, 3541) == 1
  {
    hide PowMod;
    Nothing(36, 3541);
    Steps(36, 3541, 0, 5, 1, false, 0, 1, true, 0, 36, false, 0, 1296, true, 17076, 60);
    Nothing(60, 3541);
    Steps(60, 3541, 0, 3, 1, false, 0, 1, false, 0, 1, true, 0, 60, true, 60, 3540);
    Nothing(3540, 3541);
    Steps(3540, 3541, 0, 2, 1, false, 0, 1, false, 0, 1, true, 0, 3540, false, 3539, 1);
  }

  lemma Powers3541Part3()
    ensures PowMod(60, 2, 3541) == 59
    ensures PowMod(36, 3, 3541) == 623
    ensures PowMod(623, 2, 3541) == 2160
  {
    hide PowMod;
    Nothing(60, 3541);
    Steps(60, 3541, 0, 2, 1, false, 0, 1, false, 0, 1, true, 0, 60, false, 1, 59);
    Nothing(36, 3541);
    Steps(36, 3541, 0, 3, 1, false, 0, 1, false, 0, 1, true, 0, 36, true, 13, 623);
    Nothing(623, 3541);
    Steps(623, 3541, 0, 2, 1, false, 0, 1, false, 0, 1, true, 0, 623, false, 109, 2160);
  }

  lemma Powers3541Part4()
    ensures PowMod(49, 5, 3541) == 2597
    ensures PowMod(2597, 3, 3541) == 2986
    ensures PowMod(2986, 2, 3541) == 3499
  {
    hide PowMod;
    Nothing(49, 3541);
    Steps(49, 3541, 0, 5, 1, false, 0, 1, true, 0, 49, false, 0, 2401, true, 79772, 2597);
    Nothing(2597, 3541);
    Steps(2597, 3541, 0, 3, 1, false, 0, 1, false, 0, 1, true, 0, 2597, true, 4946407, 2986);
    Nothing(2986, 3541);
    Steps(2986, 3541, 0, 2, 1, false, 0, 1, false, 0, 1, true, 0, 2986, false, 2517, 3499);
  }

  lemma Prime3541()
    ensures IsPrime(3541)
  {
    hide PowMod, IsPrime, PrimitiveRoot, Supports, Quot, Mod, Sound;
    SmallPrimes();
    Powers3541Part1();
    Powers3541Part2();
    Powers3541Part3();
    Powers3541Part4();
    Raise(7, 2, 49, 59, 118, 36, 3541);
    Raise(7, 118, 36, 5, 590, 60, 3541);
    Raise(7, 590, 60, 3, 1770, 3540, 3541);
    Raise(7, 1770, 3540, 2, 3540, 1, 3541);
    Raise(7, 590, 60, 2, 1180, 59, 3541);
    Raise(7, 118, 36, 3, 354, 623, 3541);
    Raise(7, 354, 623, 2, 708, 2160, 3541);
    Raise(7, 2, 49, 5, 10, 2597, 3541);
    Raise(7, 10, 2597, 3, 30, 2986, 3541);
    Raise(7, 30, 2986, 2, 60, 3499, 3541);
    SupportsPrime(2, [2, 3, 5, 59]);
    SupportsPrime(3, [2, 3, 5, 59]);
    SupportsPrime(5, [2, 3, 5, 59]);
    SupportsPrime(59, [2, 3, 5, 59]);
    SupportsTimes(2, 2, 4, [2, 3, 5, 59]);
    SupportsTimes(4, 3, 12, [2, 3, 5, 59]);
    SupportsTimes(12, 5, 60, [2, 3, 5, 59]);
    SupportsTimes(60, 59, 3540, [2, 3, 5, 59]);
    QuotIs(3540, 2, 1770);
    QuotIs(3540, 3, 1180);
    QuotIs(3540, 5, 708);
    QuotIs(3540, 59, 60);
    Certify(7, 3541, [2, 3, 5, 59]);
    RootMakesPrime(7, 3541);
  }

  lemma Powers87211Part1()
    ensures PowMod(13, 3, 87211) == 2197
    ensures PowMod(2197, 3, 87211) == 77828
  {
    hide PowMod;
    Nothing(13, 87211);
    Steps(13, 87211, 0, 3, 1, false, 0, 1, false, 0, 1, true, 0, 13, true, 0, 2197);
    Nothing(2197, 87211);
    Steps(2197, 87211, 0, 3, 1, false, 0, 1, false, 0, 1, true, 0, 2197, true, 121595, 77828);
  }

  lemma Powers87211Part2()
    ensures PowMod(77828, 19, 87211) == 9560
  {
    hide PowMod;
    Nothing(77828, 87211);
    Steps(77828, 87211, 0, 1, 1, false, 0, 1, false, 0, 1, false, 0, 1, true, 0, 77828);
    Steps(77828, 87211, 1, 19, 77828, false, 69454, 44790, false, 23003, 29467,
          true, 774883565, 51477, true, 2364781732, 9560);
  }

  lemma Powers87211Part3()
    ensures PowMod(9560, 17, 87211) == 2315
    ensures PowMod(2315, 5, 87211) == 512
  {
    hide PowMod;
    Nothing(9560, 87211);
    Steps(9560, 87211, 0, 1, 1, false, 0, 1, false, 0, 1, false, 0, 1, true, 0, 9560);
    Steps(9560, 87211, 1, 17, 9560, false, 1047, 83683, false, 80297, 62822,
          false, 45253, 44301, true, 215136295, 2315);
    Nothing(2315, 87211);
    Steps(2315, 87211, 0, 5, 1, false, 0, 1, true, 0, 2315, false, 61, 39354, true, 41110948, 512);
  }

  lemma Powers87211Part4()
    ensures PowMod(512, 3, 87211) == 87210
    ensures PowMod(87210, 2, 87211) == 1
    ensures PowMod(512, 2, 87211) == 511
  {
    hide PowMod;
    Nothing(512, 87211);
    Steps(512, 87211, 0, 3, 1, false, 0, 1, false, 0, 1, true, 0, 512, true, 1538, 87210);
    Nothing(87210, 87211);
    Steps(87210, 87211, 0, 2, 1, false, 0, 1, false, 0, 1, true, 0, 87210, false, 87209, 1);
    Nothing(512, 87211);
    Steps(512, 87211, 0, 2, 1, false, 0, 1, false, 0, 1, true, 0, 512, false, 3, 511);
  }

  lemma Powers87211Part5()
    ensures PowMod(2315, 3, 87211) == 56226
    ensures PowMod(56226, 2, 87211) == 51537
    ensures PowMod(9560, 5, 87211) == 43374
  {
    hide PowMod;
    Nothing(2315, 87211);
    Steps(2315, 87211, 0, 3, 1, false, 0, 1, false, 0, 1, true, 0, 2315, true, 142259, 56226);
    Nothing(56226, 87211);
    Steps(56226, 87211, 0, 2, 1, false, 0, 1, false, 0, 1, true, 0, 56226, false, 36249, 51537);
    Nothing(9560, 87211);
    Steps(9560, 87211, 0, 5, 1, false, 0, 1, true, 0, 9560, false, 1047, 83683, true, 767646206, 43374);
  }

  lemma Powers87211Part6()
    ensures PowMod(43374, 3, 87211) == 31863
    ensures PowMod(31863, 2, 87211) == 27518
  {
    hide PowMod;
    Nothing(43374, 87211);
    Steps(43374, 87211, 0, 3, 1, false, 0, 1, false, 0, 1, true, 0, 43374, true, 935658051, 31863);
    Nothing(31863, 87211);
    Steps(31863, 87211, 0, 2, 1, false, 0, 1, false, 0, 1, true, 0, 31863, false, 11641, 27518);
  }

  lemma Powers87211Part7()
    ensures PowMod(77828, 17, 87211) == 14623
    ensures PowMod(14623, 5, 87211) == 17003
  {
    hide PowMod;
    Nothing(77828, 87211);
    Steps(77828, 87211, 0, 1, 1, false, 0, 1, false, 0, 1, false, 0, 1, true, 0, 77828);
    Steps(77828, 87211, 1, 17, 77828, false, 69454, 44790, false, 23003, 29467,
          false, 9956, 31373, true, 878368399, 14623);
    Nothing(14623, 87211);
    Steps(14623, 87211, 0, 5, 1, false, 0, 1, true, 0, 14623, false, 2451, 77968, true, 1019290559, 17003);
  }

  lemma Powers87211Part8()
    ensures PowMod(17003, 3, 87211) == 14701
    ensures PowMod(14701, 2, 87211) == 10543
  {
    hide PowMod;
    Nothing(17003, 87211);
    Steps(17003, 87211, 0, 3, 1, false, 0, 1, false, 0, 1, true, 0, 17003, true, 56364466, 14701);
    Nothing(14701, 87211);
    Steps(14701, 87211, 0, 2, 1, false, 0, 1, false, 0, 1, true, 0, 14701, false, 2478, 10543);
  }

  lemma Prime87211()
    ensures IsPrime(87211)
  {
    hide PowMod, IsPrime, PrimitiveRoot, Supports, Quot, Mod, Sound;
    SmallPrimes();
    Powers87211Part1();
    Powers87211Part2();
    Powers87211Part3();
    Powers87211Part4();
    Powers87211Part5();
    Powers87211Part6();
    Powers87211Part7();
    Powers87211Part8();
    Raise(13, 3, 2197, 3, 9, 77828, 87211);
    Raise(13, 9, 77828, 19, 171, 9560, 87211);
    Raise(13, 171, 9560, 17, 2907, 2315, 87211);
    Raise(13, 2907, 2315, 5, 14535, 512, 87211);
    Raise(13, 14535, 512, 3, 43605, 87210, 87211);
    Raise(13, 43605, 87210, 2, 87210, 1, 87211);
    Raise(13, 14535, 512, 2, 29070, 511, 87211);
    Raise(13, 2907, 2315, 3, 8721, 56226, 87211);
    Raise(13, 8721, 56226, 2, 17442, 51537, 87211);
    Raise(13, 171, 9560, 5, 855, 43374, 87211);
    Raise(13, 855, 43374, 3, 2565, 31863, 87211);
    Raise(13, 2565, 31863, 2, 5130, 27518, 87211);
    Raise(13, 9, 77828, 17, 153, 14623, 87211);
    Raise(13, 153, 14623, 5, 765, 17003, 87211);
    Raise(13, 765, 17003, 3, 2295, 14701, 87211);
    Raise(13, 2295, 14701, 2, 4590, 10543, 87211);
    SupportsPrime(2, [2, 3, 5, 17, 19]);
    SupportsPrime(3, [2, 3, 5, 17, 19]);
    SupportsPrime(5, [2, 3, 5, 17, 19]);
    SupportsPrime(17, [2, 3, 5, 17, 19]);
    SupportsPrime(19, [2, 3, 5, 17, 19]);
    SupportsTimes(2, 3, 6, [2, 3, 5, 17, 19]);
    SupportsTimes(6, 3, 18, [2, 3, 5, 17, 19]);
    SupportsTimes(18, 3, 54, [2, 3, 5, 17, 19]);
    SupportsTimes(54, 5, 270, [2, 3, 5, 17, 19]);
    SupportsTimes(270, 17, 4590, [2, 3, 5, 17, 19]);
    SupportsTimes(4590, 19, 87210, [2, 3, 5, 17, 19]);
    QuotIs(87210, 2, 43605);
    QuotIs(87210, 3, 29070);
    QuotIs(87210, 5, 17442);
    QuotIs(87210, 17, 5130);
    QuotIs(87210, 19, 4590);
    Certify(13, 87211, [2, 3, 5, 17, 19]);
    RootMakesPrime(13, 87211);
  }

  lemma Powers364289Part1()
    ensures PowMod(3, 16, 364289) == 60619
    ensures PowMod(60619, 2, 364289) == 80018
  {
    hide PowMod;
    Nothing(3, 364289);
    Steps(3, 364289, 0, 1, 1, false, 0, 1, false, 0, 1, false, 0, 1, true, 0, 3);
    Steps(3, 364289, 1, 16, 3, false, 0, 9, false, 0, 81, false, 0, 6561, false, 118, 60619);
    Nothing(60619, 364289);
    Steps(60619, 364289, 0, 2, 1, false, 0, 1, false, 0, 1, true, 0, 60619, false, 10087, 80018);
  }

  lemma Powers364289Part2()
    ensures PowMod(80018, 2, 364289) == 136860
    ensures PowMod(136860, 2, 364289) == 12087
  {
    hide PowMod;
    Nothing(80018, 364289);
    Steps(80018, 364289, 0, 2, 1, false, 0, 1, false, 0, 1, true, 0, 80018, false, 17576, 136860);
    Nothing(136860, 364289);
    Steps(136860, 364289, 0, 2, 1, false, 0, 1, false, 0, 1, true, 0, 136860, false, 51417, 12087);
  }

  lemma Powers364289Part3Begin()
    ensures PowMod(12087, 88, 364289) == 185776
  {
    hide PowMod;
    Nothing(12087, 364289);
    Steps(12087, 364289, 0, 5, 1, false, 0, 1, true, 0, 12087, false, 401, 15680, true, 8157640, 310840);
    Steps(12087, 364289, 5, 88, 310840, true, 3205872640, 34240, false, 3218, 95598,
          false, 25087, 59461, false, 9705, 185776);
  }

  lemma Powers364289Part3()
    ensures PowMod(12087, 1423, 364289) == 364288
  {
    hide PowMod;
    Powers364289Part3Begin();
    Steps(12087, 364289, 88, 1423, 185776, true, 1145121793, 91135, true, 275576931, 258516,
          true, 2217416728, 81880, true, 222447808, 364288);
  }

  lemma Powers364289Part4()
    ensures PowMod(364288, 2, 364289) == 1
    ensures PowMod(12087, 2, 364289) == 15680
  {
    hide PowMod;
    Nothing(364288, 364289);
    Steps(364288, 364289, 0, 2, 1, false, 0, 1, false, 0, 1, true, 0, 364288, false, 364287, 1);
    Nothing(12087, 364289);
    Steps(12087, 364289, 0, 2, 1, false, 0, 1, false, 0, 1, true, 0, 12087, false, 401, 15680);
  }

  lemma Prime364289()
    ensures IsPrime(364289)
  {
    hide PowMod, IsPrime, PrimitiveRoot, Supports, Quot, Mod, Sound;
    SmallPrimes();
    Prime1423();
    Powers364289Part1();
    Powers364289Part2();
    Powers364289Part3();
    Powers364289Part4();
    Raise(3, 16, 60619, 2, 32, 80018, 364289);
    Raise(3, 32, 80018, 2, 64, 136860, 364289);
    Raise(3, 64, 136860, 2, 128, 12087, 364289);
    Raise(3, 128, 12087, 1423, 182144, 364288, 364289);
    Raise(3, 182144, 364288, 2, 364288, 1, 364289);
    Raise(3, 128, 12087, 2, 256, 15680, 364289);
    SupportsPrime(2, [2, 1423]);
    SupportsPrime(1423, [2, 1423]);
    SupportsTimes(2, 2, 4, [2, 1423]);
    SupportsTimes(4, 2, 8, [2, 1423]);
    SupportsTimes(8, 2, 16, [2, 1423]);
    SupportsTimes(16, 2, 32, [2, 1423]);
    SupportsTimes(32, 2, 64, [2, 1423]);
    SupportsTimes(64, 2, 128, [2, 1423]);
    SupportsTimes(128, 2, 256, [2, 1423]);
    SupportsTimes(256, 1423, 364288, [2, 1423]);
    QuotIs(364288, 2, 182144);
    QuotIs(364288, 1423, 256);
    Certify(3, 364289, [2, 1423]);
    RootMakesPrime(3, 364289);
  }

  lemma Powers257Part1()
    ensures PowMod(3, 16, 257) == 249
    ensures PowMod(249, 2, 257) == 64
  {
    hide PowMod;
    Nothing(3, 257);
    Steps(3, 257, 0, 1, 1, false, 0, 1, false, 0, 1, false, 0, 1, true, 0, 3);
    Steps(3, 257, 1, 16, 3, false, 0, 9, false, 0, 81, false, 25, 136, false, 71, 249);
    Nothing(249, 257);
    Steps(249, 257, 0, 2, 1, false, 0, 1, false, 0, 1, true, 0, 249, false, 241, 64);
  }

  lemma Powers257Part2()
    ensures PowMod(64, 2, 257) == 241
    ensures PowMod(241, 2, 257) == 256
    ensures PowMod(256, 2, 257) == 1
  {
    hide PowMod;
    Nothing(64, 257);
    Steps(64, 257, 0, 2, 1, false, 0, 1, false, 0, 1, true, 0, 64, false, 15, 241);
    Nothing(241, 257);
    Steps(241, 257, 0, 2, 1, false, 0, 1, false, 0, 1, true, 0, 241, false, 225, 256);
    Nothing(256, 257);
    Steps(256, 257, 0, 2, 1, false, 0, 1, false, 0, 1, true, 0, 256, false, 255, 1);
  }

  lemma Row0()
    ensures Sound(Groups()[0])
  {
    hide PowMod, IsPrime, PrimitiveRoot, Supports, Quot, Mod, Sound;
    SmallPrimes();
    Powers257Part1();
    Powers257Part2();
    Raise(3, 16, 249, 2, 32, 64, 257);
    Raise(3, 32, 64, 2, 64, 241, 257);
    Raise(3, 64, 241, 2, 128, 256, 257);
    Raise(3, 128, 256, 2, 256, 1, 257);
    SupportsPrime(2, [2]);
    SupportsTimes(2, 2, 4, [2]);
    SupportsTimes(4, 4, 16, [2]);
    SupportsTimes(16, 16, 256, [2]);
    QuotIs(256, 2, 128);
    Certify(3, 257, [2]);
    SoundRow(Groups()[0]);
  }

  lemma Powers65537Part1()
    ensures PowMod(3, 16, 65537) == 54449
  {
    hide PowMod;
    Nothing(3, 65537);
    Steps(3, 65537, 0, 1, 1, false, 0, 1, false, 0, 1, false, 0, 1, true, 0, 3);
    Steps(3, 65537, 1, 16, 3, false, 0, 9, false, 0, 81, false, 0, 6561, false, 656, 54449);
  }

  lemma Powers65537Part2()
    ensures PowMod(54449, 16, 65537) == 282
  {
    hide PowMod;
    Nothing(54449, 65537);
    Steps(54449, 65537, 0, 1, 1, false, 0, 1, false, 0, 1, false, 0, 1, true, 0, 54449);
    Steps(54449, 65537, 1, 16, 54449, false, 45236, 61869, false, 58406, 19139,
          false, 5589, 15028, false, 3446, 282);
  }

  lemma Powers65537Part3()
    ensures PowMod(282, 16, 65537) == 64
    ensures PowMod(64, 2, 65537) == 4096
  {
    hide PowMod;
    Nothing(282, 65537);
    Steps(282, 65537, 0, 1, 1, false, 0, 1, false, 0, 1, false, 0, 1, true, 0, 282);
    Steps(282, 65537, 1, 16, 282, false, 1, 13987, false, 2985, 8224, false, 1031, 65529, false, 65521, 64);
    Nothing(64, 65537);
    Steps(64, 65537, 0, 2, 1, false, 0, 1, false, 0, 1, true, 0, 64, false, 0, 4096);
  }

  lemma Powers65537Part4()
    ensures PowMod(4096, 2, 65537) == 65281
    ensures PowMod(65281, 2, 65537) == 65536
    ensures PowMod(65536, 2, 65537) == 1
  {
    hide PowMod;
    Nothing(4096, 65537);
    Steps(4096, 65537, 0, 2, 1, false, 0, 1, false, 0, 1, true, 0, 4096, false, 255, 65281);
    Nothing(65281, 65537);
    Steps(65281, 65537, 0, 2, 1, false, 0, 1, false, 0, 1, true, 0, 65281, false, 65025, 65536);
    Nothing(65536, 65537);
    Steps(65536, 65537, 0, 2, 1, false, 0, 1, false, 0, 1, true, 0, 65536, false, 65535, 1);
  }

  lemma Row1()
    ensures Sound(Groups()[1])
  {
    hide PowMod, IsPrime, PrimitiveRoot, Supports, Quot, Mod, Sound;
    SmallPrimes();
    Powers65537Part1();
    Powers65537Part2();
    Powers65537Part3();
    Powers65537Part4();
    Raise(3, 16, 54449, 16, 256, 282, 65537);
    Raise(3, 256, 282, 16, 4096, 64, 65537);
    Raise(3, 4096, 64, 2, 8192, 4096, 65537);
    Raise(3, 8192, 4096, 2, 16384, 65281, 65537);
    Raise(3, 16384, 65281, 2, 32768, 65536, 65537);
    Raise(3, 32768, 65536, 2, 65536, 1, 65537);
    SupportsPrime(2, [2]);
    SupportsTimes(2, 2, 4, [2]);
    SupportsTimes(4, 4, 16, [2]);
    SupportsTimes(16, 16, 256, [2]);
    SupportsTimes(256, 256, 65536, [2]);
    QuotIs(65536, 2, 32768);
    Certify(3, 65537, [2]);
    SoundRow(Groups()[1]);
  }

  lemma Powers16777259Part1()
    ensures PowMod(2, 3541, 16777259) == 6810559
  {
    hide PowMod;
    Nothing(2, 16777259);
    Steps(2, 16777259, 0, 13, 1, true, 0, 2, true, 0, 8, false, 0, 64, true, 0, 8192);
    Steps(2, 16777259, 13, 221, 8192, true, 7, 16776915, true, 33553142, 236672,
          false, 3338, 11145042, true, 14807181, 11666649);
    Steps(2, 16777259, 221, 3541, 11666649, false, 8112809, 1078670, true, 138703, 1782723,
          false, 189429, 1899618, true, 430171, 6810559);
  }

  lemma Powers16777259Part2()
    ensures PowMod(6810559, 103, 16777259) == 4526432
  {
    hide PowMod;
    Nothing(6810559, 16777259);
    Steps(6810559, 16777259, 0, 6, 1, false, 0, 1, true, 0, 6810559,
          true, 18829000619461, 3869480, false, 892450, 10675850);
    Steps(6810559, 16777259, 6, 103, 10675850, false, 6793348, 14349368, true, 83584798074252, 8082748,
          true, 26520385222178, 3800634, true, 5863728437108, 4526432);
  }

  lemma Powers16777259Part3()
    ensures PowMod(4526432, 23, 16777259) == 16777258
    ensures PowMod(16777258, 2, 16777259) == 1
  {
    hide PowMod;
    Nothing(4526432, 16777259);
    Steps(4526432, 16777259, 0, 1, 1, false, 0, 1, false, 0, 1, false, 0, 1, true, 0, 4526432);
    Steps(4526432, 16777259, 1, 23, 4526432, false, 1221211, 13409975, true, 48516663620045, 463345,
          true, 57922053858, 9993578, true, 26944926567170, 16777258);
    Nothing(16777258, 16777259);
    Steps(16777258, 16777259, 0, 2, 1, false, 0, 1, false, 0, 1, true, 0, 16777258, false, 16777257, 1);
  }

  lemma Powers16777259Part4()
    ensures PowMod(4526432, 2, 16777259) == 13409975
    ensures PowMod(6810559, 23, 16777259) == 10719473
  {
    hide PowMod;
    Nothing(4526432, 16777259);
    Steps(4526432, 16777259, 0, 2, 1, false, 0, 1, false, 0, 1, true, 0, 4526432, false, 1221211, 13409975);
    Nothing(6810559, 16777259);
    Steps(6810559, 16777259, 0, 1, 1, false, 0, 1, false, 0, 1, false, 0, 1, true, 0, 6810559);
    Steps(6810559, 16777259, 1, 23, 6810559, false, 2764677, 11812138, true, 56639417052816, 8182252,
          true, 27177371589105, 1527541, true, 947212677634, 10719473);
  }

  lemma Powers16777259Part5()
    ensures PowMod(10719473, 2, 16777259) == 6829168
    ensures PowMod(2, 103, 16777259) == 1397794
  {
    hide PowMod;
    Nothing(10719473, 16777259);
    Steps(10719473, 16777259, 0, 2, 1, false, 0, 1, false, 0, 1, true, 0, 10719473, false, 6848979, 6829168);
    Nothing(2, 16777259);
    Steps(2, 16777259, 0, 6, 1, false, 0, 1, true, 0, 2, true, 0, 8, false, 0, 64);
    Steps(2, 16777259, 6, 103, 64, false, 0, 4096, true, 1, 16777173, true, 33554174, 14792, true, 26, 1397794);
  }

  lemma Powers16777259Part6()
    ensures PowMod(1397794, 23, 16777259) == 10988784
    ensures PowMod(10988784, 2, 16777259) == 8449919
  {
    hide PowMod;
    Nothing(1397794, 16777259);
    Steps(1397794, 16777259, 0, 1, 1, false, 0, 1, false, 0, 1, false, 0, 1, true, 0, 1397794);
    Steps(1397794, 16777259, 1, 23, 1397794, false, 116456, 15592332, true, 20255562577580, 7064636,
          true, 4158165234441, 3656605, true, 1113982223174, 10988784);
    Nothing(10988784, 16777259);
    Steps(10988784, 16777259, 0, 2, 1, false, 0, 1, false, 0, 1, true, 0, 10988784, false, 7197443, 8449919);
  }

  lemma Row2()
    ensures Sound(Groups()[2])
  {
    hide PowMod, IsPrime, PrimitiveRoot, Supports, Quot, Mod, Sound;
    SmallPrimes();
    Prime3541();
    Powers16777259Part1();
    Powers16777259Part2();
    Powers16777259Part3();
    Powers16777259Part4();
    Powers16777259Part5();
    Powers16777259Part6();
    Raise(2, 3541, 6810559, 103, 364723, 4526432, 16777259);
    Raise(2, 364723, 4526432, 23, 8388629, 16777258, 16777259);
    Raise(2, 8388629, 16777258, 2, 16777258, 1, 16777259);
    Raise(2, 364723, 4526432, 2, 729446, 13409975, 16777259);
    Raise(2, 3541, 6810559, 23, 81443, 10719473, 16777259);
    Raise(2, 81443, 10719473, 2, 162886, 6829168, 16777259);
    Raise(2, 103, 1397794, 23, 2369, 10988784, 16777259);
    Raise(2, 2369, 10988784, 2, 4738, 8449919, 16777259);
    SupportsPrime(2, [2, 23, 103, 3541]);
    SupportsPrime(23, [2, 23, 103, 3541]);
    SupportsPrime(103, [2, 23, 103, 3541]);
    SupportsPrime(3541, [2, 23, 103, 3541]);
    SupportsTimes(2, 23, 46, [2, 23, 103, 3541]);
    SupportsTimes(46, 103, 4738, [2, 23, 103, 3541]);
    SupportsTimes(4738, 3541, 16777258, [2, 23, 103, 3541]);
    QuotIs(16777258, 2, 8388629);
    QuotIs(16777258, 23, 729446);
    QuotIs(16777258, 103, 162886);
    QuotIs(16777258, 3541, 4738);
    Certify(2, 16777259, [2, 23, 103, 3541]);
    SoundRow(Groups()[2]);
  }

  lemma Powers268435459Part1()
    ensures PowMod(2, 3, 268435459) == 8
    ensures PowMod(8, 3, 268435459) == 512
    ensures PowMod(512, 3, 268435459) == 134217728
  {
    hide PowMod;
    Nothing(2, 268435459);
    Steps(2, 268435459, 0, 3, 1, false, 0, 1, false, 0, 1, true, 0, 2, true, 0, 8);
    Nothing(8, 268435459);
    Steps(8, 268435459, 0, 3, 1, false, 0, 1, false, 0, 1, true, 0, 8, true, 0, 512);
    Nothing(512, 268435459);
    Steps(512, 268435459, 0, 3, 1, false, 0, 1, false, 0, 1, true, 0, 512, true, 0, 134217728);
  }

  lemma Powers268435459Part2()
    ensures PowMod(134217728, 340, 268435459) == 150999487
  {
    hide PowMod;
    Nothing(134217728, 268435459);
    Steps(134217728, 268435459, 0, 1, 1, false, 0, 1, false, 0, 1, false, 0, 1, true, 0, 134217728);
    Steps(134217728, 268435459, 1, 21, 134217728, false, 67108863, 67108867, true, 2251799989846018, 142606330,
          false, 75759608, 208928828, true, 21825627340806398, 168670470);
    Steps(134217728, 268435459, 21, 340, 168670470, false, 105983492, 128578072, true, 8266160207237052, 194171084,
          false, 140452420, 31374276, false, 3666971, 150999487);
  }

  lemma Powers268435459Part3()
    ensures PowMod(134217728, 87211, 268435459) == 238421970
  {
    hide PowMod;
    Powers268435459Part2();
    Steps(134217728, 268435459, 340, 5450, 150999487, true, 11400422409721935, 133166867, false, 66062116, 35624445,
          true, 634550533687357, 176875337, false, 116545276, 181521885);
    Steps(134217728, 268435459, 5450, 87211, 181521885, true, 16475097182853053, 106166473, false, 41988938, 144307187,
          true, 10412281993560165, 57343697, true, 1644149774439098, 238421970);
  }

  lemma Powers268435459Part4()
    ensures PowMod(238421970, 19, 268435459) == 134209538
    ensures PowMod(134209538, 3, 268435459) == 268435458
  {
    hide PowMod;
    Nothing(238421970, 268435459);
    Steps(238421970, 268435459, 0, 1, 1, false, 0, 1, false, 0, 1, false, 0, 1, true, 0, 238421970);
    Steps(238421970, 268435459, 1, 19, 238421970, false, 211764257, 251091937, false, 234868973, 254298362,
          true, 57437233570431392, 100547752, true, 8979478588420138, 134209538);
    Nothing(134209538, 268435459);
    Steps(134209538, 268435459, 0, 3, 1, false, 0, 1, false, 0, 1,
          true, 0, 134209538, true, 9005550389919746, 268435458);
  }

  lemma Powers268435459Part5()
    ensures PowMod(268435458, 2, 268435459) == 1
    ensures PowMod(134209538, 2, 268435459) == 134209537
    ensures PowMod(238421970, 3, 268435459) == 33658359
  {
    hide PowMod;
    Nothing(268435458, 268435459);
    Steps(268435458, 268435459, 0, 2, 1, false, 0, 1, false, 0, 1, true, 0, 268435458, false, 268435457, 1);
    Nothing(134209538, 268435459);
    Steps(134209538, 268435459, 0, 2, 1, false, 0, 1, false, 0, 1, true, 0, 134209538, false, 67100673, 134209537);
    Nothing(238421970, 268435459);
    Steps(238421970, 268435459, 0, 3, 1, false, 0, 1, false, 0, 1,
          true, 0, 238421970, true, 50489251552543899, 33658359);
  }

  lemma Powers268435459Part6()
    ensures PowMod(33658359, 2, 268435459) == 252068706
    ensures PowMod(134217728, 19, 268435459) == 253921626
  {
    hide PowMod;
    Nothing(33658359, 268435459);
    Steps(33658359, 268435459, 0, 2, 1, false, 0, 1, false, 0, 1, true, 0, 33658359, false, 4220325, 252068706);
    Nothing(134217728, 268435459);
    Steps(134217728, 268435459, 0, 1, 1, false, 0, 1, false, 0, 1, false, 0, 1, true, 0, 134217728);
    Steps(134217728, 268435459, 1, 19, 134217728, false, 67108863, 67108867, false, 16777217, 83886086,
          true, 3518437672878092, 218628060, true, 23899114042588386, 253921626);
  }

  lemma Powers268435459Part7()
    ensures PowMod(253921626, 3, 268435459) == 45546448
    ensures PowMod(45546448, 2, 268435459) == 34588180
  {
    hide PowMod;
    Nothing(253921626, 268435459);
    Steps(253921626, 268435459, 0, 3, 1, false, 0, 1, false, 0, 1,
          true, 0, 253921626, true, 60990077876184392, 45546448);
    Nothing(45546448, 268435459);
    Steps(45546448, 268435459, 0, 2, 1, false, 0, 1, false, 0, 1, true, 0, 45546448, false, 7728036, 34588180);
  }

  lemma Row3()
    ensures Sound(Groups()[3])
  {
    hide PowMod, IsPrime, PrimitiveRoot, Supports, Quot, Mod, Sound;
    SmallPrimes();
    Prime87211();
    Powers268435459Part1();
    Powers268435459Part2();
    Powers268435459Part3();
    Powers268435459Part4();
    Powers268435459Part5();
    Powers268435459Part6();
    Powers268435459Part7();
    Raise(2, 3, 8, 3, 9, 512, 268435459);
    Raise(2, 9, 512, 3, 27, 134217728, 268435459);
    Raise(2, 27, 134217728, 87211, 2354697, 238421970, 268435459);
    Raise(2, 2354697, 238421970, 19, 44739243, 134209538, 268435459);
    Raise(2, 44739243, 134209538, 3, 134217729, 268435458, 268435459);
    Raise(2, 134217729, 268435458, 2, 268435458, 1, 268435459);
    Raise(2, 44739243, 134209538, 2, 89478486, 134209537, 268435459);
    Raise(2, 2354697, 238421970, 3, 7064091, 33658359, 268435459);
    Raise(2, 7064091, 33658359, 2, 14128182, 252068706, 268435459);
    Raise(2, 27, 134217728, 19, 513, 253921626, 268435459);
    Raise(2, 513, 253921626, 3, 1539, 45546448, 268435459);
    Raise(2, 1539, 45546448, 2, 3078, 34588180, 268435459);
    SupportsPrime(2, [2, 3, 19, 87211]);
    SupportsPrime(3, [2, 3, 19, 87211]);
    SupportsPrime(19, [2, 3, 19, 87211]);
    SupportsPrime(87211, [2, 3, 19, 87211]);
    SupportsTimes(2, 3, 6, [2, 3, 19, 87211]);
    SupportsTimes(6, 3, 18, [2, 3, 19, 87211]);
    SupportsTimes(18, 3, 54, [2, 3, 19, 87211]);
    SupportsTimes(54, 3, 162, [2, 3, 19, 87211]);
    SupportsTimes(162, 19, 3078, [2, 3, 19, 87211]);
    SupportsTimes(3078, 87211, 268435458, [2, 3, 19, 87211]);
    QuotIs(268435458, 2, 134217729);
    QuotIs(268435458, 3, 89478486);
    QuotIs(268435458, 19, 14128182);
    QuotIs(268435458, 87211, 3078);
    Certify(2, 268435459, [2, 3, 19, 87211]);
    SoundRow(Groups()[3]);
  }

  lemma Powers4294967311Part1()
    ensures PowMod(3, 3, 4294967311) == 27
  {
    hide PowMod;
    Nothing(3, 4294967311);
    Steps(3, 4294967311, 0, 3, 1, false, 0, 1, false, 0, 1, true, 0, 3, true, 0, 27);
  }

  lemma Powers4294967311Part2Begin()
    ensures PowMod(27, 88, 4294967311) == 1914074372
  {
    hide PowMod;
    Nothing(27, 4294967311);
    Steps(27, 4294967311, 0, 5, 1, false, 0, 1, true, 0, 27, false, 0, 729, true, 0, 14348907);
    Steps(27, 4294967311, 5, 88, 14348907, true, 1294319, 2771549314, false, 1788485230, 877554066,
          false, 179303143, 808573883, false, 152222747, 1914074372);
  }

  lemma Powers4294967311Part2()
    ensures PowMod(27, 1423, 4294967311) == 2470969494
  {
    hide PowMod;
    Powers4294967311Part2Begin();
    Steps(27, 4294967311, 88, 1423, 1914074372, true, 23031462588, 1794787500, true, 20250230629, 2452781381,
          true, 37820005093, 4178698424, true, 109770580278, 2470969494);
  }

  lemma Powers4294967311Part3()
    ensures PowMod(27, 364289, 4294967311) == 1449485651
  {
    hide PowMod;
    Powers4294967311Part2();
    Steps(27, 4294967311, 1423, 22768, 2470969494, false, 1421591783, 2707410523, false, 1706665315, 1308615564,
          false, 398716583, 4004419783, false, 3733527321, 61363258);
    Steps(27, 4294967311, 22768, 364289, 61363258, false, 876712, 51213132, false, 610664, 2971244920,
          false, 2055497920, 397313280, true, 992361859, 1449485651);
  }

  lemma Powers4294967311Part4()
    ensures PowMod(1449485651, 131, 4294967311) == 313374762
    ensures PowMod(313374762, 5, 4294967311) == 2086193155
  {
    hide PowMod;
    Nothing(1449485651, 4294967311);
    Steps(1449485651, 4294967311, 0, 8, 1, true, 0, 1449485651, false, 489179195, 708599156,
          false, 116907237, 2549582629, false, 1513485694, 702402807);
    Steps(1449485651, 4294967311, 8, 131, 702402807, false, 114871585, 743721314, false, 128783609, 2050281197,
          true, 1418668465881822984, 3395967635, true, 3892074483530643983, 313374762);
    Nothing(313374762, 4294967311);
    Steps(313374762, 4294967311, 0, 5, 1, false, 0, 1, true, 0, 313374762,
          false, 22864840, 1087311404, true, 86260513764811667, 2086193155);
  }

  lemma Powers4294967311Part5()
    ensures PowMod(2086193155, 3, 4294967311) == 4294967310
    ensures PowMod(4294967310, 2, 4294967311) == 1
    ensures PowMod(2086193155, 2, 4294967311) == 2086193154
  {
    hide PowMod;
    Nothing(2086193155, 4294967311);
    Steps(2086193155, 4294967311, 0, 3, 1, false, 0, 1, false, 0, 1,
          true, 0, 2086193155, true, 2113993684635322915, 4294967310);
    Nothing(4294967310, 4294967311);
    Steps(4294967310, 4294967311, 0, 2, 1, false, 0, 1, false, 0, 1, true, 0, 4294967310, false, 4294967309, 1);
    Nothing(2086193155, 4294967311);
    Steps(2086193155, 4294967311, 0, 2, 1, false, 0, 1, false, 0, 1,
          true, 0, 2086193155, false, 1013325961, 2086193154);
  }

  lemma Powers4294967311Part6()
    ensures PowMod(313374762, 3, 4294967311) == 3639993378
    ensures PowMod(3639993378, 2, 4294967311) == 239247313
    ensures PowMod(1449485651, 5, 4294967311) == 1098151642
  {
    hide PowMod;
    Nothing(313374762, 4294967311);
    Steps(313374762, 4294967311, 0, 3, 1, false, 0, 1, false, 0, 1,
          true, 0, 313374762, true, 7165263872501850, 3639993378);
    Nothing(3639993378, 4294967311);
    Steps(3639993378, 4294967311, 0, 2, 1, false, 0, 1, false, 0, 1,
          true, 0, 3639993378, false, 3084901661, 239247313);
    Nothing(1449485651, 4294967311);
    Steps(1449485651, 4294967311, 0, 5, 1, false, 0, 1, true, 0, 1449485651,
          false, 489179195, 708599156, true, 169455363390001354, 1098151642);
  }

  lemma Powers4294967311Part7()
    ensures PowMod(1098151642, 3, 4294967311) == 133628779
    ensures PowMod(133628779, 2, 4294967311) == 1859000016
  {
    hide PowMod;
    Nothing(1098151642, 4294967311);
    Steps(1098151642, 4294967311, 0, 3, 1, false, 0, 1, false, 0, 1,
          true, 0, 1098151642, true, 308338022728037619, 133628779);
    Nothing(133628779, 4294967311);
    Steps(133628779, 4294967311, 0, 2, 1, false, 0, 1, false, 0, 1,
          true, 0, 133628779, false, 4157575, 1859000016);
  }

  lemma Powers4294967311Part8()
    ensures PowMod(27, 131, 4294967311) == 3569259130
    ensures PowMod(3569259130, 5, 4294967311) == 4127035931
  {
    hide PowMod;
    Nothing(27, 4294967311);
    Steps(27, 4294967311, 0, 8, 1, true, 0, 27, false, 0, 729, false, 0, 531441, false, 65, 3256661266);
    Steps(27, 4294967311, 8, 131, 3256661266, false, 2469365150, 3292111106, false, 2523417467, 1477121999,
          true, 13716289213, 46495784, true, 13590362, 3569259130);
    Nothing(3569259130, 4294967311);
    Steps(3569259130, 4294967311, 0, 5, 1, false, 0, 1, true, 0, 3569259130,
          false, 2966171757, 1961921473, true, 3198758532556105649, 4127035931);
  }

  lemma Powers4294967311Part9()
    ensures PowMod(4127035931, 3, 4294967311) == 2349539339
    ensures PowMod(2349539339, 2, 4294967311) == 1338913740
  {
    hide PowMod;
    Nothing(4127035931, 4294967311);
    Steps(4127035931, 4294967311, 0, 3, 1, false, 0, 1, false, 0, 1,
          true, 0, 4127035931, true, 16366465039963064232, 2349539339);
    Nothing(2349539339, 4294967311);
    Steps(2349539339, 4294967311, 0, 2, 1, false, 0, 1, false, 0, 1,
          true, 0, 2349539339, false, 1285303171, 1338913740);
  }

  /** In the largest group, the element half a turn from 1 is -1. */
  lemma HalfTurn()
    ensures PowMod(3, 1092867, 4294967311) == 1449485651
    ensures PowMod(3, 143165577, 4294967311) == 313374762
    ensures PowMod(3, 715827885, 4294967311) == 2086193155
    ensures PowMod(3, 2147483655, 4294967311) == 4294967310
  {
    hide PowMod;
    Powers4294967311Part1();
    Powers4294967311Part3();
    Powers4294967311Part4();
    Powers4294967311Part5();
    Raise(3, 3, 27, 364289, 1092867, 1449485651, 4294967311);
    Raise(3, 1092867, 1449485651, 131, 143165577, 313374762, 4294967311);
    Raise(3, 143165577, 313374762, 5, 715827885, 2086193155, 4294967311);
    Raise(3, 715827885, 2086193155, 3, 2147483655, 4294967310, 4294967311);
  }

  lemma Row4()
    ensures Sound(Groups()[4])
  {
    hide PowMod, IsPrime, PrimitiveRoot, Supports, Quot, Mod, Sound;
    SmallPrimes();
    Prime364289();
    Powers4294967311Part1();
    Powers4294967311Part2();
    Powers4294967311Part3();
    Powers4294967311Part4();
    Powers4294967311Part5();
    Powers4294967311Part6();
    Powers4294967311Part7();
    Powers4294967311Part8();
    Powers4294967311Part9();
    HalfTurn();
    Raise(3, 2147483655, 4294967310, 2, 4294967310, 1, 4294967311);
    Raise(3, 715827885, 2086193155, 2, 1431655770, 2086193154, 4294967311);
    Raise(3, 143165577, 313374762, 3, 429496731, 3639993378, 4294967311);
    Raise(3, 429496731, 3639993378, 2, 858993462, 239247313, 4294967311);
    Raise(3, 1092867, 1449485651, 5, 5464335, 1098151642, 4294967311);
    Raise(3, 5464335, 1098151642, 3, 16393005, 133628779, 4294967311);
    Raise(3, 16393005, 133628779, 2, 32786010, 1859000016, 4294967311);
    Raise(3, 3, 27, 131, 393, 3569259130, 4294967311);
    Raise(3, 393, 3569259130, 5, 1965, 4127035931, 4294967311);
    Raise(3, 1965, 4127035931, 3, 5895, 2349539339, 4294967311);
    Raise(3, 5895, 2349539339, 2, 11790, 1338913740, 4294967311);
    SupportsPrime(2, [2, 3, 5, 131, 364289]);
    SupportsPrime(3, [2, 3, 5, 131, 364289]);
    SupportsPrime(5, [2, 3, 5, 131, 364289]);
    SupportsPrime(131, [2, 3, 5, 131, 364289]);
    SupportsPrime(364289, [2, 3, 5, 131, 364289]);
    SupportsTimes(2, 3, 6, [2, 3, 5, 131, 364289]);
    SupportsTimes(6, 3, 18, [2, 3, 5, 131, 364289]);
    SupportsTimes(18, 5, 90, [2, 3, 5, 131, 364289]);
    SupportsTimes(90, 131, 11790, [2, 3, 5, 131, 364289]);
    SupportsTimes(11790, 364289, 4294967310, [2, 3, 5, 131, 364289]);
    QuotIs(4294967310, 2, 2147483655);
    QuotIs(4294967310, 3, 1431655770);
    QuotIs(4294967310, 5, 858993462);
    QuotIs(4294967310, 131, 32786010);
    QuotIs(4294967310, 364289, 11790);
    Certify(3, 4294967311, [2, 3, 5, 131, 364289]);
    SoundRow(Groups()[4]);
  }

  /** Every row of the table is sound. */
  lemma TableSound(i: nat)
    requires i < |Groups()|
    ensures Sound(Groups()[i]) && IsPrime(Groups()[i].prime)
  {
    hide Sound;
    if i == 0 { Row0(); }
    if i == 1 { Row1(); }
    if i == 2 { Row2(); }
    if i == 3 { Row3(); }
    if i == 4 { Row4(); }
    SoundIsPrime(Groups()[i]);
  }

  lemma SoundIsPrime(g: Group)
    requires Sound(g)
    ensures IsPrime(g.prime)
  {
    RootMakesPrime(g.root, g.prime);
  }
}
