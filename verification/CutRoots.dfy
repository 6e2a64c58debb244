/** The largest group's generators are cut to 32 bits: for which exponents the cut value is still a generator. */
module CutRoots {
  import opened Arith
  import opened ModPower
  import opened Cyclic
  import opened Certificates
  import GroupTable

  const P: nat := 4294967311

  // ----- the exponents of the elements that do not fit 32 bits -----

  // 2^32 + v is v - 15 modulo 2^32 + 15, so its exponent is that of 15 - v and half a turn more.

  lemma Log2Part1()
    ensures PowMod(3, 152, 4294967311) == 1868724943
  {
    hide PowMod;
    Nothing(3, 4294967311);
    Steps(3, 4294967311, 0, 9, 1, true, 0, 3, false, 0, 9, false, 0, 81, true, 0, 19683);
    Steps(3, 4294967311, 9, 152, 19683, true, 0, 1162261467, false, 314519673, 3471582786,
          false, 2806048606, 4204403330, false, 4115748987, 1868724943);
  }

  lemma Log2Part2()
    ensures PowMod(3, 39006, 4294967311) == 212220885
  {
    hide PowMod;
    Log2Part1();
    Steps(3, 4294967311, 152, 2437, 1868724943, false, 813075550, 3967007199, true, 10992269540, 2752469863,
          false, 1763945985, 2778542434, true, 5392565878, 4191919010);
    Steps(3, 4294967311, 2437, 39006, 4191919010, true, 12274029379, 2139510431, true, 3197350214, 2124562729,
          true, 3152829669, 2861832264, false, 1906902501, 212220885);
  }

  lemma Log2Part3()
    ensures PowMod(3, 9985638, 4294967311) == 3772287822
  {
    hide PowMod;
    Log2Part2();
    Steps(3, 4294967311, 39006, 624102, 212220885, false, 10486157, 2497169398, true, 4355694386, 2346831166,
          true, 3847025685, 3474375633, false, 2810565288, 1792850121);
    Steps(3, 4294967311, 624102, 9985638, 1792850121, false, 748390225, 4122779666, true, 11872485360, 1623147708,
          true, 1840252759, 2074398743, false, 1001900557, 3772287822);
  }

  lemma Log2()
    ensures PowMod(3, 2556323402, 4294967311) == 2
  {
    hide PowMod;
    Log2Part3();
    Steps(3, 4294967311, 9985638, 159770212, 3772287822, false, 3313216232, 1294911532, true, 1171228384, 4124405648,
          false, 3960617326, 2704069518, false, 1702455788, 294006256);
    Steps(3, 4294967311, 159770212, 2556323402, 294006256, true, 60377417, 3363796921, false, 2634508927, 3726394944,
          true, 9699272385, 1946282673, false, 881966257, 2);
  }

  lemma Log5Part1()
    ensures PowMod(3, 139, 4294967311) == 3119517300
  {
    hide PowMod;
    Nothing(3, 4294967311);
    Steps(3, 4294967311, 0, 8, 1, true, 0, 3, false, 0, 9, false, 0, 81, false, 0, 6561);
    Steps(3, 4294967311, 8, 139, 6561, true, 0, 129140163, false, 3882958, 4019680631,
          true, 11286115496, 2219123227, true, 3439729017, 3119517300);
  }

  lemma Log5Part2()
    ensures PowMod(3, 35788, 4294967311) == 2193266137
  {
    hide PowMod;
    Log5Part1();
    Steps(3, 4294967311, 139, 2236, 3119517300, true, 6797296100, 2310082900, true, 3727490305, 2572810145,
          false, 1541187991, 764158824, false, 135958824, 3575060712);
    Steps(3, 4294967311, 2236, 35788, 3575060712, true, 8927466615, 1989018567, true, 2763370177, 1204916420,
          false, 338029017, 1001153113, false, 233367912, 2193266137);
  }

  lemma Log5Part3()
    ensures PowMod(3, 9161928, 4294967311) == 657014742
  {
    hide PowMod;
    Log5Part2();
    Steps(3, 4294967311, 35788, 572620, 2193266137, true, 3360036991, 3036907106, true, 6442054690, 2195647118,
          false, 1122445391, 4054092323, false, 3826726345, 3490028034);
    Steps(3, 4294967311, 572620, 9161928, 3490028034, true, 8507838218, 731223670, false, 124491763, 2994509607,
          false, 2087812813, 3093338606, false, 2227896754, 657014742);
  }

  lemma Log5()
    ensures PowMod(3, 2345453628, 4294967311) == 5
  {
    hide PowMod;
    Log5Part3();
    Steps(3, 4294967311, 9161928, 146590851, 657014742, false, 100505624, 1553669500, false, 562027307, 3775888523,
          true, 9958632817, 3102519500, true, 6723422939, 2608202971);
    Steps(3, 4294967311, 146590851, 2345453628, 2608202971, true, 4751646924, 1805979159, true, 2278173839, 946664914,
          false, 208656875, 2058214271, false, 986327876, 5);
  }

  lemma Log7Part1()
    ensures PowMod(3, 22, 4294967311) == 1316288432
  {
    hide PowMod;
    Nothing(3, 4294967311);
    Steps(3, 4294967311, 0, 1, 1, false, 0, 1, false, 0, 1, false, 0, 1, true, 0, 3);
    Steps(3, 4294967311, 1, 22, 3, false, 0, 9, true, 0, 243, true, 0, 177147, false, 7, 1316288432);
  }

  lemma Log7Part2()
    ensures PowMod(3, 5647, 4294967311) == 1341402436
  {
    hide PowMod;
    Log7Part1();
    Steps(3, 4294967311, 22, 352, 1316288432, false, 403405919, 1048104815, false, 255769979, 4286027756,
          false, 4277106807, 3481809559, false, 2822605372, 550779789);
    Steps(3, 4294967311, 352, 5647, 550779789, true, 211893377, 280254316, true, 54861289, 2015559689,
          true, 2837610090, 1851562173, true, 2394627641, 1341402436);
  }

  lemma Log7Part3()
    ensures PowMod(3, 1445641, 4294967311) == 4047246921
  {
    hide PowMod;
    Log7Part2();
    Steps(3, 4294967311, 5647, 90352, 1341402436, false, 418946260, 3541027236, false, 2919434067, 1709015859,
          false, 680036655, 2806723176, false, 1834168787, 3674005219);
    Steps(3, 4294967311, 90352, 1445641, 3674005219, true, 9428463621, 2570020752, false, 1537847947, 4057184987,
          false, 3832567008, 2161114681, true, 3262248342, 4047246921);
  }

  lemma Log7()
    ensures PowMod(3, 370084200, 4294967311) == 7
  {
    hide PowMod;
    Log7Part3();
    Steps(3, 4294967311, 1445641, 23130262, 4047246921, false, 3813814274, 2488783027, true, 4326487612, 1463396855,
          true, 1495841667, 3474925638, false, 2811455202, 698805222);
    Steps(3, 4294967311, 23130262, 370084200, 698805222, true, 341093682, 704778750, false, 115650027, 970295103,
          false, 219203667, 2689451172, false, 1684098407, 7);
  }

  lemma Log11Part1()
    ensures PowMod(3, 172, 4294967311) == 1103471059
  {
    hide PowMod;
    Nothing(3, 4294967311);
    Steps(3, 4294967311, 0, 10, 1, true, 0, 3, false, 0, 9, true, 0, 243, false, 0, 59049);
    Steps(3, 4294967311, 10, 172, 59049, true, 2, 1870418581, true, 2443650031, 1781024042,
          false, 738549657, 3816755437, false, 3391788810, 1103471059);
  }

  lemma Log11Part2()
    ensures PowMod(3, 44108, 4294967311) == 192008701
  {
    hide PowMod;
    Log11Part1();
    Steps(3, 4294967311, 172, 2756, 1103471059, false, 283505854, 2643442887, true, 4880915120, 2327041987,
          false, 1260806897, 1162564202, false, 314683541, 1867168553);
    Steps(3, 4294967311, 2756, 44108, 1867168553, true, 2435165266, 1583721701, true, 1751939592, 168323091,
          false, 6596712, 563712849, false, 73987100, 192008701);
  }

  lemma Log11Part3()
    ensures PowMod(3, 11291709, 4294967311) == 1269271348
  {
    hide PowMod;
    Log11Part2();
    Steps(3, 4294967311, 44108, 705731, 192008701, false, 8583846, 3287049295, false, 2515663632, 2848463473,
          true, 5667384803, 3302490454, true, 7618062543, 944846475);
    Steps(3, 4294967311, 705731, 11291709, 944846475, true, 623568094, 4047201641, true, 11441186814, 3565041489,
          false, 2959165902, 1375507599, true, 1321561505, 1269271348);
  }

  lemma Log11()
    ensures PowMod(3, 2890677676, 4294967311) == 11
  {
    hide PowMod;
    Log11Part3();
    Steps(3, 4294967311, 11291709, 180667354, 1269271348, true, 1125305250, 914528562, false, 194730816, 1549432068,
          true, 1676897326, 966959486, false, 217699130, 582244766);
    Steps(3, 4294967311, 180667354, 2890677676, 582244766, true, 236795027, 2230821871, true, 3476091336, 2225504427,
          false, 1153179895, 1869185984, false, 813476795, 11);
  }

  lemma Log13Part1()
    ensures PowMod(3, 241, 4294967311) == 2608208471
  {
    hide PowMod;
    Nothing(3, 4294967311);
    Steps(3, 4294967311, 0, 15, 1, true, 0, 3, true, 0, 27, true, 0, 2187, true, 0, 14348907);
    Steps(3, 4294967311, 15, 241, 14348907, false, 47937, 3284107242, false, 2511162389, 3589180585,
          false, 2999374928, 2547963617, true, 4534692436, 2608208471);
  }

  lemma Log13Part2()
    ensures PowMod(3, 61720, 4294967311) == 2253123350
  {
    hide PowMod;
    Log13Part1();
    Steps(3, 4294967311, 241, 3857, 2608208471, false, 1583888988, 483286573, false, 54381301, 1517432718,
          false, 536116316, 1543121248, true, 1663265175, 1937538087);
    Steps(3, 4294967311, 3857, 61720, 1937538087, true, 2622176305, 2073092852, false, 1000639507, 353338227,
          false, 29068417, 1861986842, false, 807222674, 2253123350);
  }

  lemma Log13Part3()
    ensures PowMod(3, 15800492, 4294967311) == 3297377398
  {
    hide PowMod;
    Log13Part2();
    Steps(3, 4294967311, 61720, 987530, 2253123350, true, 3545939558, 2553878962, false, 1518590778, 2250139486,
          true, 3536553836, 157377592, false, 5766681, 75753673);
    Steps(3, 4294967311, 987530, 15800492, 75753673, true, 4008379, 143873918, true, 14458576, 1558403036,
          false, 565457161, 348153225, false, 28221557, 3297377398);
  }

  lemma Log13()
    ensures PowMod(3, 4044926071, 4294967311) == 13
  {
    hide PowMod;
    Log13Part3();
    Steps(3, 4294967311, 15800492, 252807879, 3297377398, false, 2531497196, 133090448, true, 12372434, 2459017138,
          true, 4223616745, 965910437, true, 651681075, 2594253582);
    Steps(3, 4294967311, 252807879, 4044926071, 2594253582, false, 1566985534, 2379951650, true, 3956376926, 1848501514,
          true, 2386717476, 1768449552, true, 2184473309, 13);
  }

  /** The exponent of a product. */
  lemma Product(i: nat, x: nat, j: nat, y: nat, e: nat)
    requires PowMod(3, i, P) == x && PowMod(3, j, P) == y && x * y < P && PrimitiveRoot(3, P)
    requires e < P - 1 && (e == i + j || e + (P - 1) == i + j)
    ensures PowMod(3, e, P) == x * y
  {
    hide PowMod, PrimitiveRoot;
    PowAdd(3, i, j, P);
    ModSmall(x * y, P);
    PowReduce(3, i + j, P);
    ModSmall(e, P - 1);
    if e < i + j { ModMinus(i + j, P - 1); }
  }

  /** The exponents of 1..15. */
  lemma SmallLogs()
    requires PrimitiveRoot(3, P)
    ensures PowMod(3, 0, P) == 1
    ensures PowMod(3, 2556323402, P) == 2
    ensures PowMod(3, 1, P) == 3
    ensures PowMod(3, 817679494, P) == 4
    ensures PowMod(3, 2345453628, P) == 5
    ensures PowMod(3, 2556323403, P) == 6
    ensures PowMod(3, 370084200, P) == 7
    ensures PowMod(3, 3374002896, P) == 8
    ensures PowMod(3, 2, P) == 9
    ensures PowMod(3, 606809720, P) == 10
    ensures PowMod(3, 2890677676, P) == 11
    ensures PowMod(3, 817679495, P) == 12
    ensures PowMod(3, 4044926071, P) == 13
    ensures PowMod(3, 2926407602, P) == 14
    ensures PowMod(3, 2345453629, P) == 15
  {
    hide PowMod, PrimitiveRoot;
    Nothing(3, P);
    ThreeLog();
    Log2();
    Log5();
    Log7();
    Log11();
    Log13();
    Product(2556323402, 2, 2556323402, 2, 817679494);
    Product(2556323402, 2, 1, 3, 2556323403);
    Product(2556323402, 2, 817679494, 4, 3374002896);
    Product(1, 3, 1, 3, 2);
    Product(2556323402, 2, 2345453628, 5, 606809720);
    Product(2556323402, 2, 2556323403, 6, 817679495);
    Product(2556323402, 2, 370084200, 7, 2926407602);
    Product(1, 3, 2345453628, 5, 2345453629);
  }

  lemma ThreeLog()
    ensures PowMod(3, 1, P) == 3
  {
    Nothing(3, P);
  }

  /** The exponents of 2^32..2^32 + 14. */
  function Cuts(): seq<nat> {
    [197969974, 778923947, 1897442416, 2965163150, 743194021, 2754293375, 2147483657, 1226519241,
     2517567855, 408839748, 197969973, 2965163149, 2147483656, 408839747, 2147483655]
  }

  /** Half a turn changes the sign. */
  lemma Negative(i: nat, x: nat, e: nat)
    requires PowMod(3, i, P) == x && 0 < x < P && PrimitiveRoot(3, P)
    requires e < P - 1 && (e == i + 2147483655 || e + (P - 1) == i + 2147483655)
    ensures PowMod(3, e, P) == P - x
  {
    hide PowMod, PrimitiveRoot;
    GroupTable.HalfTurn();
    PowAdd(3, i, 2147483655, P);
    assert x * 4294967310 == (x - 1) * P + (P - x);
    DivModUnique(x * 4294967310, P, x - 1, P - x);
    PowReduce(3, i + 2147483655, P);
    ModSmall(e, P - 1);
    if e < i + 2147483655 { ModMinus(i + 2147483655, P - 1); }
  }

  lemma CutLogs(v: nat)
    requires v < 15 && PrimitiveRoot(3, P)
    ensures Cuts()[v] < P - 1 && PowMod(3, Cuts()[v], P) == 0x1_0000_0000 + v
  {
    hide PowMod, PrimitiveRoot;
    SmallLogs();
    Negative(2345453629, 15, 197969974);
    Negative(2926407602, 14, 778923947);
    Negative(4044926071, 13, 1897442416);
    Negative(817679495, 12, 2965163150);
    Negative(2890677676, 11, 743194021);
    Negative(606809720, 10, 2754293375);
    Negative(2, 9, 2147483657);
    Negative(3374002896, 8, 1226519241);
    Negative(370084200, 7, 2517567855);
    Negative(2556323403, 6, 408839748);
    Negative(2345453628, 5, 197969973);
    Negative(817679494, 4, 2965163149);
    Negative(1, 3, 2147483656);
    Negative(2556323402, 2, 408839747);
    Negative(0, 1, 2147483655);
  }

  lemma NoClash(c: nat)
    requires c > 0 && !Clash(2, c) && !Clash(3, c) && !Clash(5, c) && !Clash(131, c) && !Clash(364289, c)
    ensures Accepts(Groups()[4], c)
  {
    hide Clash;
  }

  /** Which of these exponents the search accepts. */
  lemma AcceptedCuts(v: nat)
    requires v < 15
    ensures Accepts(Groups()[4], Cuts()[v]) <==> v in {1, 4, 6, 11, 13}
  {
    var g, c := Groups()[4], Cuts()[v];
    if v in {1, 4, 6, 11, 13} {
      NoClash(c);
    } else {
      assert Clash(g.factors[if v in {7, 8, 10, 14} then 1 else if v == 5 then 2 else 0], c);
    }
  }

  // ----- which cut values still generate -----

  /** A power whose exponent shares a divisor with the order generates no longer. */
  lemma NoRoot(k: nat, x: nat, d: nat)
    requires PrimitiveRoot(3, P) && PowMod(3, k, P) == x && 1 < d < P - 1 && Mod(k, d) == 0 && Mod(P - 1, d) == 0
    ensures !PrimitiveRoot(x, P)
  {
    hide PowMod;
    var j, n := k / d, (P - 1) / d;
    assert k == j * d && P - 1 == n * d;
    assert k * n == (P - 1) * j;
    PowPow(3, k, n, P);
    PowPow(3, P - 1, j, P);
    PowOfOne(j, P);
    SmallQuotient(n, d);
    assert PowMod(x, n, P) == 1;
  }

  lemma SmallQuotient(n: nat, d: nat)
    requires P - 1 == n * d && 1 < d < P - 1
    ensures 0 < n < P - 1
  {
    MulMono(2, d, n);
  }

  /** Of the five cut values, 1, 4, 6 and 11 generate no longer and 13 still does. */
  lemma CutValues(v: nat)
    requires v in {1, 4, 6, 11, 13} && Sound(Groups()[4])
    ensures PrimitiveRoot(v, P) <==> v == 13
  {
    hide PowMod, PrimitiveRoot;
    SmallLogs();
    if v == 13 {
      NoClash(4044926071);
      AcceptedIsCoprime(Groups()[4], 4044926071);
      CoprimePowerGenerates(3, 4044926071, P);
    } else if v == 1 {
      NoRoot(0, 1, 2);
    } else if v == 4 {
      NoRoot(817679494, 4, 2);
    } else if v == 6 {
      NoRoot(2556323403, 6, 3);
    } else {
      NoRoot(2890677676, 11, 2);
    }
  }

  /** The accepted exponents whose power is cut to a value that generates no longer. */
  predicate Broken(s: nat) {
    s == 778923947 || s == 743194021 || s == 2147483657 || s == 2965163149
  }

  /** For exactly these four accepted exponents the stored value does not generate the group. */
  lemma StoredRootIff(s: nat)
    requires Accepts(Groups()[4], s) && s < P
    ensures PrimitiveRoot(Low32(PowMod(3, s, P)), P) <==> !Broken(s)
    ensures PowMod(3, s, P) < 0x1_0000_0000 <==> !Broken(s) && s != 408839747
  {
    hide PowMod, PrimitiveRoot, Sound, Accepts;
    GroupTable.TableSound(4);
    SoundRoot();
    FoundGenerates(Groups()[4], s);
    NotWholeOrder(s);
    CutLogs(1);
    CutLogs(4);
    CutLogs(6);
    CutLogs(11);
    CutLogs(13);
    if PowMod(3, s, P) >= 0x1_0000_0000 {
      var v := PowMod(3, s, P) - 0x1_0000_0000;
      CutLogs(v);
      PowInjective(3, s, Cuts()[v], P);
      AcceptedCuts(v);
      CutValues(v);
    }
  }

  lemma SoundRoot()
    requires Sound(Groups()[4])
    ensures PrimitiveRoot(3, P)
  {
  }

  /** The order itself is even and not accepted. */
  lemma NotWholeOrder(s: nat)
    requires Accepts(Groups()[4], s)
    ensures s != P - 1
  {
    if s == P - 1 { assert Clash(Groups()[4].factors[0], s); }
  }

  /** The start word 778923947 is accepted at once, and the generator stored is 1. */
  lemma GeneratorOne(s: nat)
    requires Chosen(Groups()[4], 778923947, s)
    ensures Low32(PowMod(3, s, P)) == 1 && !PrimitiveRoot(1, P)
  {
    hide PowMod, PrimitiveRoot, Sound, Accepts;
    GroupTable.TableSound(4);
    SoundRoot();
    ModSmall(778923947, P);
    AcceptedCuts(1);
    CutLogs(1);
    CutValues(1);
  }
}
