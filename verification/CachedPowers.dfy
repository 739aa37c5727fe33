/**
 * The cached powers of ten of the double printer (common/string.hpp): 87 pairs (f, e) for 10^-348, 10^-340, ...,
 * 10^340, and the choice of one of them for a binary exponent.  Their accuracy is proved here, entry by entry,
 * against the exact powers: no entry is further than half a unit from the power it stands for.
 */
module CachedPowers {
  import opened Arith

  const ENTRIES: nat := 87

  /** kCachedPowers_F */
  function Significand(i: nat): (f: nat)
    requires i < ENTRIES
    ensures 0x8000_0000_0000_0000 <= f < 0x1_0000_0000_0000_0000
  {
    match i
    case 0 => 0xfa8fd5a0081c0288
    case 1 => 0xbaaee17fa23ebf76
    case 2 => 0x8b16fb203055ac76
    case 3 => 0xcf42894a5dce35ea
    case 4 => 0x9a6bb0aa55653b2d
    case 5 => 0xe61acf033d1a45df
    case 6 => 0xab70fe17c79ac6ca
    case 7 => 0xff77b1fcbebcdc4f
    case 8 => 0xbe5691ef416bd60c
    case 9 => 0x8dd01fad907ffc3c
    case 10 => 0xd3515c2831559a83
    case 11 => 0x9d71ac8fada6c9b5
    case 12 => 0xea9c227723ee8bcb
    case 13 => 0xaecc49914078536d
    case 14 => 0x823c12795db6ce57
    case 15 => 0xc21094364dfb5637
    case 16 => 0x9096ea6f3848984f
    case 17 => 0xd77485cb25823ac7
    case 18 => 0xa086cfcd97bf97f4
    case 19 => 0xef340a98172aace5
    case 20 => 0xb23867fb2a35b28e
    case 21 => 0x84c8d4dfd2c63f3b
    case 22 => 0xc5dd44271ad3cdba
    case 23 => 0x936b9fcebb25c996
    case 24 => 0xdbac6c247d62a584
    case 25 => 0xa3ab66580d5fdaf6
    case 26 => 0xf3e2f893dec3f126
    case 27 => 0xb5b5ada8aaff80b8
    case 28 => 0x87625f056c7c4a8b
    case 29 => 0xc9bcff6034c13053
    case 30 => 0x964e858c91ba2655
    case 31 => 0xdff9772470297ebd
    case 32 => 0xa6dfbd9fb8e5b88f
    case 33 => 0xf8a95fcf88747d94
    case 34 => 0xb94470938fa89bcf
    case 35 => 0x8a08f0f8bf0f156b
    case 36 => 0xcdb02555653131b6
    case 37 => 0x993fe2c6d07b7fac
    case 38 => 0xe45c10c42a2b3b06
    case 39 => 0xaa242499697392d3
    case 40 => 0xfd87b5f28300ca0e
    case 41 => 0xbce5086492111aeb
    case 42 => 0x8cbccc096f5088cc
    case 43 => 0xd1b71758e219652c
    case 44 => 0x9c40000000000000
    case 45 => 0xe8d4a51000000000
    case 46 => 0xad78ebc5ac620000
    case 47 => 0x813f3978f8940984
    case 48 => 0xc097ce7bc90715b3
    case 49 => 0x8f7e32ce7bea5c70
    case 50 => 0xd5d238a4abe98068
    case 51 => 0x9f4f2726179a2245
    case 52 => 0xed63a231d4c4fb27
    case 53 => 0xb0de65388cc8ada8
    case 54 => 0x83c7088e1aab65db
    case 55 => 0xc45d1df942711d9a
    case 56 => 0x924d692ca61be758
    case 57 => 0xda01ee641a708dea
    case 58 => 0xa26da3999aef774a
    case 59 => 0xf209787bb47d6b85
    case 60 => 0xb454e4a179dd1877
    case 61 => 0x865b86925b9bc5c2
    case 62 => 0xc83553c5c8965d3d
    case 63 => 0x952ab45cfa97a0b3
    case 64 => 0xde469fbd99a05fe3
    case 65 => 0xa59bc234db398c25
    case 66 => 0xf6c69a72a3989f5c
    case 67 => 0xb7dcbf5354e9bece
    case 68 => 0x88fcf317f22241e2
    case 69 => 0xcc20ce9bd35c78a5
    case 70 => 0x98165af37b2153df
    case 71 => 0xe2a0b5dc971f303a
    case 72 => 0xa8d9d1535ce3b396
    case 73 => 0xfb9b7cd9a4a7443c
    case 74 => 0xbb764c4ca7a44410
    case 75 => 0x8bab8eefb6409c1a
    case 76 => 0xd01fef10a657842c
    case 77 => 0x9b10a4e5e9913129
    case 78 => 0xe7109bfba19c0c9d
    case 79 => 0xac2820d9623bf429
    case 80 => 0x80444b5e7aa7cf85
    case 81 => 0xbf21e44003acdd2d
    case 82 => 0x8e679c2f5e44ff8f
    case 83 => 0xd433179d9c8cb841
    case 84 => 0x9e19db92b4e31ba9
    case 85 => 0xeb96bf6ebadf77d9
    case _ => 0xaf87023b9bf0ee6b
  }

  /** kCachedPowers_E */
  function Exponent(i: nat): (e: int)
    requires i < ENTRIES
  {
    match i
    case 0 => -1220
    case 1 => -1193
    case 2 => -1166
    case 3 => -1140
    case 4 => -1113
    case 5 => -1087
    case 6 => -1060
    case 7 => -1034
    case 8 => -1007
    case 9 => -980
    case 10 => -954
    case 11 => -927
    case 12 => -901
    case 13 => -874
    case 14 => -847
    case 15 => -821
    case 16 => -794
    case 17 => -768
    case 18 => -741
    case 19 => -715
    case 20 => -688
    case 21 => -661
    case 22 => -635
    case 23 => -608
    case 24 => -582
    case 25 => -555
    case 26 => -529
    case 27 => -502
    case 28 => -475
    case 29 => -449
    case 30 => -422
    case 31 => -396
    case 32 => -369
    case 33 => -343
    case 34 => -316
    case 35 => -289
    case 36 => -263
    case 37 => -236
    case 38 => -210
    case 39 => -183
    case 40 => -157
    case 41 => -130
    case 42 => -103
    case 43 => -77
    case 44 => -50
    case 45 => -24
    case 46 => 3
    case 47 => 30
    case 48 => 56
    case 49 => 83
    case 50 => 109
    case 51 => 136
    case 52 => 162
    case 53 => 189
    case 54 => 216
    case 55 => 242
    case 56 => 269
    case 57 => 295
    case 58 => 322
    case 59 => 348
    case 60 => 375
    case 61 => 402
    case 62 => 428
    case 63 => 455
    case 64 => 481
    case 65 => 508
    case 66 => 534
    case 67 => 561
    case 68 => 588
    case 69 => 614
    case 70 => 641
    case 71 => 667
    case 72 => 694
    case 73 => 720
    case 74 => 747
    case 75 => 774
    case 76 => 800
    case 77 => 827
    case 78 => 853
    case 79 => 880
    case 80 => 907
    case 81 => 933
    case 82 => 960
    case 83 => 986
    case 84 => 1013
    case 85 => 1039
    case _ => 1066
  }

  /** The next 64 bits of each power, rounded: what the printer does not store.  Used in the accuracy proof only. */
  function Tail(i: nat): int
    requires i < ENTRIES
  {
    match i
    case 0 => 0x1732c869cd60e454
    case 1 => 0x5d79bcf00d2df64a
    case 2 => 0x4c3bcb5021afcc31
    case 3 => 0x52064cac828675b9
    case 4 => 0x47b233c92125366f
    case 5 => 0x6fb92487298e33be
    case 6 => 0x6dbd630a48aaf407
    case 7 => 0x25e8e89c13bb0f7b
    case 8 => 0x23cc986bc656d554
    case 9 => -0x51c2582680986d1c
    case 10 => 0xd5a5b44ca873e04
    case 11 => 0x6f773fc3603db4a9
    case 12 => 0x465e15a979c1cadc
    case 13 => 0x58fae9f773886e19
    case 14 => 0x76c53d08d6b70858
    case 15 => -0x67a6ea03ed0abd1b
    case 16 => 0x3ff0d2c85def7622
    case 17 => 0x7d633293366b828b
    case 18 => -0x7f175bf1332dd75b
    case 19 => -0x7904768ee93783cb
    case 20 => -0x16619e65b0dc55bd
    case 21 => 0x29ecd9f40041e073
    case 22 => 0x40eff1e1853f29fe
    case 23 => -0x354ef226ff4113cb
    case 24 => -0x20ba08b948b540c7
    case 25 => -0x3ec19f2f2d1f1446
    case 26 => 0x5a89dba3c3efccfb
    case 27 => 0xd819992132456bb
    case 28 => 0x11471cd764ad4973
    case 29 => -0x3764c6c22fd0f4a
    case 30 => 0x3a6a07f8d510f870
    case 31 => 0x59787e2b93bc56f7
    case 32 => -0x34b332aff09446ad
    case 33 => 0x75a44c6397ce912a
    case 34 => -0x7f71bf172a4c196
    case 35 => 0x1b8e9ecb641b5900
    case 36 => 0x3792f412cb06794d
    case 37 => -0x1ab957fc7101bfd7
    case 38 => -0x734765824883af95
    case 39 => -0x221af42e2a2f4616
    case 40 => -0x74356291e777ac04
    case 41 => -0x770b44e359430a7c
    case 42 => -0x6c07848bbd1ba2c
    case 43 => -0x2c3c9eecbfb15b57
    case 44 => 0x0
    case 45 => 0x0
    case 46 => 0x0
    case 47 => 0x4000000000000000
    case 48 => 0x4b9f100000000000
    case 49 => -0x1b7dffdc5e000000
    case 50 => 0x72a4904598d6d880
    case 51 => 0x1d762422c946591
    case 52 => 0x4ca7aaa863ee4bdd
    case 53 => 0x3b25a55f43294bcc
    case 54 => 0x792667c6da79e0fa
    case 55 => 0x3ba5d0bd324f8394
    case 56 => 0x593c2626705f9c56
    case 57 => -0x17f190b7df336b6a
    case 58 => -0x1c41a1ccf0c70f62
    case 59 => -0x3f9873a242dc5b66
    case 60 => 0x29babe4598c311fc
    case 61 => 0xb8a2392ba45a9b2
    case 62 => 0x6f92829494e5acc7
    case 63 => -0x226ba58b840d9e7c
    case 64 => 0x6fca5f8ed9aef3bb
    case 65 => 0x43fab9837e699096
    case 66 => -0x7552ab61a8d8c2bb
    case 67 => 0xc11ed6d538aeb2f
    case 68 => 0x441fece3bdf81f03
    case 69 => 0x31ec038df7b441f4
    case 70 => -0x3c8d85cc85748fb6
    case 71 => 0x2e44ae64840fd61e
    case 72 => 0x7f1839a741a14d0d
    case 73 => 0x169840ef017da3b1
    case 74 => -0x6292e52be541c80e
    case 75 => 0x1ad089b6c2f7548e
    case 76 => 0x2d2b7569b0432d85
    case 77 => -0x35830d4be6e37cd9
    case 78 => 0xcc512670a783ad5
    case 79 => 0x546345fa9fbdcd44
    case 80 => 0x7980d163cf5b81b3
    case 81 => -0x1fb8f59c1942a93d
    case 82 => 0x570f09eaa7ea7648
    case 83 => 0x5fa60692a46151ec
    case 84 => 0x6c07a2c26a8346d1
    case 85 => -0x1be3a42e73a81771
    case _ => -0x1470528380797f4c
  }

  /** The decimal exponent of entry i. */
  function DecimalExponent(i: nat): int {
    8 * i - 348
  }

  /** 10^k in units of 2^e: the real number that Significand(i) approximates. */
  ghost function Exact(i: nat): real
    requires i < ENTRIES
  {
    Ten(DecimalExponent(i)) * Two(-Exponent(i))
  }

  // ---------- accuracy ----------

  /** 128 bits of the power. */
  function Long(i: nat): int
    requires i < ENTRIES
  {
    Significand(i) * 0x1_0000_0000_0000_0000 + Tail(i)
  }

  /** Entry i + 1 follows from entry i by a factor 10^8 and a shift of 26 or 27 bits. */
  predicate Rung(i: nat)
    requires i + 1 < ENTRIES
  {
    var s := Exponent(i + 1) - Exponent(i);
    && (s == 26 || s == 27)
    && (s == 26 ==> -0x800_0000 <= Long(i + 1) * 0x400_0000 - Long(i) * 100_000_000 <= 0x800_0000)
    && (s == 27 ==> -0x800_0000 <= Long(i + 1) * 0x800_0000 - Long(i) * 100_000_000 <= 0x800_0000)
  }

  lemma Rungs0(i: nat)
    requires 0 <= i < 15
    ensures Rung(i)
  {}

  lemma Rungs15(i: nat)
    requires 15 <= i < 30
    ensures Rung(i)
  {}

  lemma Rungs30(i: nat)
    requires 30 <= i < 45
    ensures Rung(i)
  {}

  lemma Rungs45(i: nat)
    requires 45 <= i < 60
    ensures Rung(i)
  {}

  lemma Rungs60(i: nat)
    requires 60 <= i < 75
    ensures Rung(i)
  {}

  lemma Rungs75(i: nat)
    requires 75 <= i < 86
    ensures Rung(i)
  {}

  lemma RungHolds(i: nat)
    requires i < 86
    ensures Rung(i)
  {
    hide *;
    if i < 15 {
      Rungs0(i);
    } else if i < 30 {
      Rungs15(i);
    } else if i < 45 {
      Rungs30(i);
    } else if i < 60 {
      Rungs45(i);
    } else if i < 75 {
      Rungs60(i);
    } else {
      Rungs75(i);
    }
  }

  /** The exact powers climb the same ladder. */
  lemma ExactStep(i: nat, s: nat)
    requires i < 86 && Exponent(i + 1) - Exponent(i) == s
    ensures Exact(i + 1) * Two(s) == Exact(i) * 100_000_000.0
  {
    hide Exponent;
    hide Two;
    hide Ten;
    var k, e := DecimalExponent(i), Exponent(i);
    assert DecimalExponent(i + 1) == k + 8;
    TenEight(k);
    TwoSum(-e - s, s);
    Regroup(Ten(k), Two(-e - s), Two(s), Two(-e), Ten(k + 8));
  }

  lemma Regroup(t: real, u: real, p: real, v: real, t': real)
    requires v == u * p && t' == 100_000_000.0 * t
    ensures t' * u * p == t * v * 100_000_000.0
  {}

  lemma TenEight(k: int)
    ensures Ten(k + 8) == 100_000_000.0 * Ten(k)
  {
    hide *;
    TenStep(k); TenStep(k + 1); TenStep(k + 2); TenStep(k + 3);
    TenStep(k + 4); TenStep(k + 5); TenStep(k + 6); TenStep(k + 7);
  }

  lemma TwoShifts()
    ensures Two(26) == 67_108_864.0 && Two(27) == 134_217_728.0
  {
    TwoOfNat(26);
    PowAdd(2, 13, 13);
    TwoStep(26);
  }

  const UNIT: real := 18_446_744_073_709_551_616.0

  /** 128 bits are within err of the exact power, in units of the last bit. */
  ghost predicate Within(i: nat, err: real)
    requires i < ENTRIES
  {
    -err <= Long(i) as real - Exact(i) * UNIT <= err
  }

  lemma ClimbUp(i: nat, err: real)
    requires i < 86 && err >= 0.0 && Within(i, err)
    ensures Within(i + 1, 2.0 * err + 2.0)
  {
    hide Significand;
    hide Exponent;
    hide Tail;
    hide Two;
    hide Ten;
    hide Exact;
    hide Long;
    RungHolds(i);
    TwoShifts();
    var s := Exponent(i + 1) - Exponent(i);
    ExactStep(i, s);
    RungScaled(Long(i), Long(i + 1), s, Two(s));
    RungUp(Long(i), Long(i + 1), Exact(i), Exact(i + 1), Two(s), err);
  }

  lemma ClimbDown(i: nat, err: real)
    requires i < 86 && err >= 0.0 && Within(i + 1, err)
    ensures Within(i, 2.0 * err + 2.0)
  {
    hide Significand;
    hide Exponent;
    hide Tail;
    hide Two;
    hide Ten;
    hide Exact;
    hide Long;
    RungHolds(i);
    TwoShifts();
    var s := Exponent(i + 1) - Exponent(i);
    ExactStep(i, s);
    RungScaled(Long(i), Long(i + 1), s, Two(s));
    RungDown(Long(i), Long(i + 1), Exact(i), Exact(i + 1), Two(s), err);
  }

  /** The rung over the reals. */
  lemma RungScaled(l: int, l': int, s: int, p: real)
    requires s == 26 || s == 27
    requires s == 26 ==> p == 67_108_864.0 && -0x800_0000 <= l' * 0x400_0000 - l * 100_000_000 <= 0x800_0000
    requires s == 27 ==> p == 134_217_728.0 && -0x800_0000 <= l' * 0x800_0000 - l * 100_000_000 <= 0x800_0000
    ensures p == 67_108_864.0 || p == 134_217_728.0
    ensures -134_217_728.0 <= l' as real * p - l as real * 100_000_000.0 <= 134_217_728.0
  {
    if s == 26 {
      assert (l' * 0x400_0000 - l * 100_000_000) as real == l' as real * 67_108_864.0 - l as real * 100_000_000.0;
    } else {
      assert (l' * 0x800_0000 - l * 100_000_000) as real == l' as real * 134_217_728.0 - l as real * 100_000_000.0;
    }
  }

  lemma RungUp(l: int, l': int, x: real, x': real, p: real, err: real)
    requires p == 67_108_864.0 || p == 134_217_728.0
    requires x' * p == x * 100_000_000.0 && err >= 0.0
    requires -err <= l as real - x * UNIT <= err
    requires -134_217_728.0 <= l' as real * p - l as real * 100_000_000.0 <= 134_217_728.0
    ensures -(2.0 * err + 2.0) <= l' as real - x' * UNIT <= 2.0 * err + 2.0
  {
    if p == 67_108_864.0 {
      assert x' * 67_108_864.0 == x * 100_000_000.0;
    } else {
      assert x' * 134_217_728.0 == x * 100_000_000.0;
    }
  }

  lemma RungDown(l: int, l': int, x: real, x': real, p: real, err: real)
    requires p == 67_108_864.0 || p == 134_217_728.0
    requires x' * p == x * 100_000_000.0 && err >= 0.0
    requires -err <= l' as real - x' * UNIT <= err
    requires -134_217_728.0 <= l' as real * p - l as real * 100_000_000.0 <= 134_217_728.0
    ensures -(2.0 * err + 2.0) <= l as real - x * UNIT <= 2.0 * err + 2.0
  {
    if p == 67_108_864.0 {
      assert x' * 67_108_864.0 == x * 100_000_000.0;
    } else {
      assert x' * 134_217_728.0 == x * 100_000_000.0;
    }
  }

  lemma MiddlePowers()
    ensures Ten(4) == 10_000.0 && Two(50) == 1_125_899_906_842_624.0
  {
    hide Two;
    hide Ten;
    TenOfNat(4);
    TwoOfNat(50);
    PowAdd(2, 25, 25);
    PowAdd(2, 13, 12);
  }

  /** Entry 44 is exact: 10^4 fits in 64 bits. */
  lemma MiddleIsExact()
    ensures Within(44, 0.0)
  {
    hide Two;
    hide Ten;
    MiddlePowers();
  }

  lemma {:induction false} Ladder(i: nat)
    requires i < ENTRIES
    ensures Within(i, 2.0 * Two(if i < 44 then 44 - i else i - 44) - 2.0)
    decreases if i < 44 then 44 - i else i - 44
  {
    hide Significand;
    hide Exponent;
    hide Tail;
    hide Two;
    hide Ten;
    hide Exact;
    hide Long;
    var j := if i < 44 then 44 - i else i - 44;
    if i == 44 {
      MiddleIsExact();
      TwoStep(0);
    } else {
      TwoStep(j - 1);
      TwoMonotone(0, j - 1);
      if i < 44 {
        Ladder(i + 1);
        ClimbDown(i, 2.0 * Two(j - 1) - 2.0);
      } else {
        Ladder(i - 1);
        ClimbUp(i - 1, 2.0 * Two(j - 1) - 2.0);
      }
    }
  }

  lemma TailSmall(i: nat)
    requires i < ENTRIES
    ensures -0x7fff_0000_0000_0000 <= Tail(i) <= 0x7fff_0000_0000_0000
  {}

  /** Every entry is within half a unit of the exact power of ten. */
  lemma Accurate(i: nat)
    requires i < ENTRIES
    ensures -0.5 <= Significand(i) as real - Exact(i) <= 0.5
  {
    hide Significand;
    hide Exponent;
    hide Tail;
    hide Two;
    hide Ten;
    hide Exact;
    Ladder(i);
    TailSmall(i);
    var j := if i < 44 then 44 - i else i - 44;
    TwoMonotone(j, 44);
    TwoOfNat(44);
    PowAdd(2, 22, 22);
    PowAdd(2, 11, 11);
    HalfUnit(Significand(i), Tail(i), Long(i), Exact(i), 2.0 * Two(j) - 2.0);
  }

  lemma HalfUnit(f: nat, t: int, l: int, x: real, err: real)
    requires l == f * 0x1_0000_0000_0000_0000 + t
    requires -0x7fff_0000_0000_0000 <= t <= 0x7fff_0000_0000_0000 && err <= 35_184_372_088_832.0
    requires -err <= l as real - x * UNIT <= err
    ensures -0.5 <= f as real - x <= 0.5
  {}

  // ---------- choosing an entry ----------

  /** What GetCachedPower computes before it rounds up; log10(2) is the literal of the source. */
  function Estimate(e: int): real {
    (-61 - e) as real * 0.30102999566398114 + 347.0
  }

  /**
   * dk may be what double arithmetic makes of Estimate(e).  The factor, the product and the sum each round
   * once, on magnitudes below 1024, so together they move dk by less than 10^-12.
   */
  predicate Rounded(e: int, dk: real) {
    -0.000000000001 <= dk - Estimate(e) <= 0.000000000001
  }

  /** The entry chosen: dk is truncated, raised by one when that lost something, divided by 8, plus one. */
  function CachedIndex(dk: real): int {
    var k := dk.Floor;
    var k' := if dk - k as real > 0.0 then k + 1 else k;
    k' / 8 + 1
  }

  /**
   * For every binary exponent a double can bring, the choice stays inside the table and the product's
   * exponent lands in [-60, -32], whatever the rounding of the estimate.
   */
  lemma ExponentWindow(e: int, dk: real)
    requires -1137 <= e <= 960 && Rounded(e, dk)
    ensures 6 <= CachedIndex(dk) < 85
    ensures -60 <= e + Exponent(CachedIndex(dk)) + 64 <= -32
  {}
}
