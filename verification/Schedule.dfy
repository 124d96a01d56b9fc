/** The emission schedule in numbers: what is levied, paid and mined at every height. */
module Schedules {
  import opened Arithmetic
  import opened Emission
  import opened Postorder
  import Navigation

  /** The levy of every height. Rates and rewards change after different heights, so there are twelve of them. */
  function LevyAt(height: nat): (l: nat) {
    if height == 0 then 0
    else if height <= 172_800 then 142_080_000
    else if height <= 480_960 then 124_320_000
    else if height <= 698_400 then 62_160_000
    else if height <= 1_157_760 then 53_280_000
    else if height <= 1_224_000 then 26_640_000
    else if height <= 1_749_600 then 22_200_000
    else if height <= 2_023_200 then 17_760_000
    else if height <= 2_275_200 then 8_880_000
    else if height <= 2_800_800 then 6_660_000
    else if height <= 3_175_200 then 4_440_000
    else if height <= 3_326_400 then 2_220_000
    else if height <= 4_377_600 then 1_110_000
    else 0
  }

  /** What all blocks up to a height of the first five eras have brought. */
  function MinedAt(height: nat): (s: nat) {
    if height <= 480_960 then 1_600_000_000 * height
    else if height <= 1_157_760 then 769_536_000_000_000 + 800_000_000 * (height - 480_960)
    else if height <= 2_023_200 then 1_310_976_000_000_000 + 400_000_000 * (height - 1_157_760)
    else if height <= 3_175_200 then 1_657_152_000_000_000 + 200_000_000 * (height - 2_023_200)
    else 1_887_552_000_000_000 + 100_000_000 * (height - 3_175_200)
  }

  lemma LevyIndexIs(height: nat)
    requires 0 < height
    ensures height <= 172_800 <==> LevyIndex(height) == 0
    ensures 172_800 < height <= 698_400 <==> LevyIndex(height) == 1
    ensures 698_400 < height <= 1_224_000 <==> LevyIndex(height) == 2
    ensures 1_224_000 < height <= 1_749_600 <==> LevyIndex(height) == 3
    ensures 1_749_600 < height <= 2_275_200 <==> LevyIndex(height) == 4
    ensures 2_275_200 < height <= 2_800_800 <==> LevyIndex(height) == 5
    ensures 2_800_800 < height <= 3_326_400 <==> LevyIndex(height) == 6
    ensures 3_326_400 < height <= 3_852_000 <==> LevyIndex(height) == 7
    ensures 3_852_000 < height <= 4_377_600 <==> LevyIndex(height) == 8
    ensures 4_377_600 < height <==> LevyIndex(height) >= 9
  {}

  lemma RewardIs(height: nat)
    requires height <= SCHEDULE_END
    ensures height <= 480_960 ==> BlockTotalReward(height) == 1_600_000_000
    ensures 480_960 < height <= 1_157_760 ==> BlockTotalReward(height) == 800_000_000
    ensures 1_157_760 < height <= 2_023_200 ==> BlockTotalReward(height) == 400_000_000
    ensures 2_023_200 < height <= 3_175_200 ==> BlockTotalReward(height) == 200_000_000
    ensures 3_175_200 < height <= 4_642_560 ==> BlockTotalReward(height) == 100_000_000
  {}

  lemma LevyIs(height: nat)
    requires height <= SCHEDULE_END
    ensures Levy(height) == if height == 0 || LevyIndex(height) >= 9 then 0
                            else BlockTotalReward(height) * FOUNDATION_LEVY[LevyIndex(height)] / 10000
  {}

  /** The levy of every height as a number. */
  lemma LevyTable(height: nat)
    requires height <= SCHEDULE_END
    ensures Levy(height) == LevyAt(height)
  {
    hide BlockTotalReward, LevyIndex, Levy;
    LevyIs(height);
    if height > 0 {
      LevyIndexIs(height);
      RewardIs(height);
    }
  }

  lemma {:induction false} LevySteady(lo: nat, hi: nat, levy: nat)
    requires lo <= hi <= SCHEDULE_END && forall h :: lo < h <= hi ==> Levy(h) == levy
    ensures LevySum(lo, hi) == Mul(hi - lo, levy)
  {
    hide Levy, Mul;
    MulStep(if hi > lo then hi - lo - 1 else 0, levy);
    if hi > lo {
      LevySteady(lo, hi - 1, levy);
    }
  }

  lemma {:induction false} LevyJoin(lo: nat, mid: nat, hi: nat)
    requires lo <= mid <= hi <= SCHEDULE_END
    ensures LevySum(lo, hi) == LevySum(lo, mid) + LevySum(mid, hi)
  {
    hide Levy;
    if mid < hi { LevyJoin(lo, mid, hi - 1); }
  }

  /** A stretch of heights with one levy. */
  lemma LevyStretch(lo: nat, hi: nat, levy: nat)
    requires lo < hi <= 4_377_600 && LevyAt(hi) == levy && forall h :: lo < h <= hi ==> LevyAt(h) == levy
    ensures hi <= SCHEDULE_END && LevySum(lo, hi) == (hi - lo) * levy
  {
    hide Levy, LevyAt, LevySum, Mul;
    forall h | lo < h <= hi ensures Levy(h) == levy { LevyTable(h); }
    LevySteady(lo, hi, levy);
    MulIs(hi - lo, levy);
  }

  /** What each year of the levy brings. */
  lemma LevyYears()
    ensures LevySum(0, 172_800) == 24_551_424_000_000
    ensures LevySum(172_800, 698_400) == 51_826_521_600_000
    ensures LevySum(698_400, 1_224_000) == 26_239_334_400_000
    ensures LevySum(1_224_000, 1_749_600) == 11_668_320_000_000
    ensures LevySum(1_749_600, 2_275_200) == 7_096_896_000_000
    ensures LevySum(2_275_200, 2_800_800) == 3_500_496_000_000
    ensures LevySum(2_800_800, 3_326_400) == 1_998_000_000_000
    ensures LevySum(3_326_400, 3_852_000) == 583_416_000_000
    ensures LevySum(3_852_000, 4_377_600) == 583_416_000_000
  {
    hide LevySum;
    LevyStretch(0, 172_800, 142_080_000);
    LevyStretch(172_800, 480_960, 124_320_000);
    LevyStretch(480_960, 698_400, 62_160_000);
    LevyJoin(172_800, 480_960, 698_400);
    LevyStretch(698_400, 1_157_760, 53_280_000);
    LevyStretch(1_157_760, 1_224_000, 26_640_000);
    LevyJoin(698_400, 1_157_760, 1_224_000);
    LevyStretch(1_224_000, 1_749_600, 22_200_000);
    LevyStretch(1_749_600, 2_023_200, 17_760_000);
    LevyStretch(2_023_200, 2_275_200, 8_880_000);
    LevyJoin(1_749_600, 2_023_200, 2_275_200);
    LevyStretch(2_275_200, 2_800_800, 6_660_000);
    LevyStretch(2_800_800, 3_175_200, 4_440_000);
    LevyStretch(3_175_200, 3_326_400, 2_220_000);
    LevyJoin(2_800_800, 3_175_200, 3_326_400);
    LevyStretch(3_326_400, 3_852_000, 1_110_000);
    LevyStretch(3_852_000, 4_377_600, 1_110_000);
  }

  // What the chain owes at every height

  lemma {:induction false} MinedTable(height: nat)
    requires height <= 4_642_560
    ensures height <= SCHEDULE_END && Mined(height) == MinedAt(height)
  {
    hide BlockTotalReward;
    if height > 0 {
      MinedTable(height - 1);
      RewardIs(height);
    }
  }

  /** The heights between two payments of the levy. */
  function Period(chain: ChainType): (f: nat) {
    if chain == AutomatedTesting then 5 else 1440
  }

  lemma PeriodIs(chain: ChainType, height: nat)
    ensures FoundationHeight(chain) == Period(chain) && height % Period(chain) <= height % 1440
  {
    var day, rest := height / 1440, height % 1440;
    assert height == 5 * (288 * day) + rest;
    assert height % 5 == rest % 5;
  }

  /** All heights since the last payment have one levy. */
  lemma SameDay(height: nat, h: nat)
    requires height - height % 1440 < h <= height
    ensures LevyAt(h) == LevyAt(height)
  {
    var day := height / 1440;
    assert height == 1440 * day + height % 1440;
  }

  /** The overage of every height of the first five eras: what was mined less the levy that is still to be paid. */
  lemma OverageTable(chain: ChainType, genesisHadReward: bool, height: nat)
    requires height <= 4_642_560
    ensures height <= SCHEDULE_END
    ensures Overage(chain, genesisHadReward, height) + (height % Period(chain)) * LevyAt(height)
            == MinedAt(height) + if genesisHadReward then 1_600_000_000 else 0
  {
    hide Overage, LevySum, Mined, MinedAt, LevyAt, Levy, Mul, Period, FoundationHeight;
    LevyConserved(chain, genesisHadReward, height);
    MinedTable(height);
    PeriodIs(chain, height);
    var last := height - height % Period(chain);
    forall h | last < h <= height ensures Levy(h) == LevyAt(height) {
      SameDay(height, h);
      LevyTable(h);
    }
    LevySteady(last, height, LevyAt(height));
    MulIs(height % Period(chain), LevyAt(height));
  }

  /** The first block, the first day, and a year on. */
  lemma FirstOverages()
    ensures Overage(Mainnet, false, 1) == 1_457_920_000 && Overage(Mainnet, true, 1) == 3_057_920_000
    ensures Overage(Mainnet, false, 1439) == 2_097_946_880_000 && Overage(Mainnet, false, 1440) == 2_304_000_000_000
    ensures Overage(Mainnet, false, 526_320) == 805_779_244_800_000
  {
    hide Overage;
    OverageTable(Mainnet, false, 1);
    OverageTable(Mainnet, true, 1);
    OverageTable(Mainnet, false, 1439);
    OverageTable(Mainnet, false, 1440);
    OverageTable(Mainnet, false, 526_320);
  }

  // The halvings

  /** A number, its half, the half of that, and so on k times, each rounded down. */
  function HalvingSum(n: nat, k: nat): (s: nat) {
    if k == 0 then 0 else n + HalvingSum(n / 2, k - 1)
  }

  lemma HalfDiv(n: nat, k: nat)
    ensures Pow2(k) > 0 && (n / 2) / Pow2(k) == n / Pow2(k + 1)
  {
    hide Mul;
    var p := Pow2(k);
    assert Pow2(k + 1) == 2 * p;
    hide Pow2;
    var m := n / 2;
    DivMod(m, p);
    MulTwice(m / p, p);
    MulDivUnique(n, 2 * p, m / p, 2 * (m % p) + n % 2);
  }

  lemma {:induction false} HalvingSnoc(n: nat, k: nat)
    ensures Pow2(k) > 0 && HalvingSum(n, k + 1) == HalvingSum(n, k) + n / Pow2(k)
  {
    if k == 0 {
      assert HalvingSum(n / 2, 0) == 0 && Pow2(0) == 1;
    } else {
      HalvingSnoc(n / 2, k - 1);
      HalfDiv(n, k - 1);
      hide Pow2;
    }
  }

  /** Halving until nothing is left brings twice the number less its binary ones. */
  lemma {:induction false} HalvingAll(n: nat, k: nat)
    requires n < Pow2(k)
    ensures HalvingSum(n, k) == 2 * n - Navigation.PopCount(n)
  {
    if k > 0 { HalvingAll(n / 2, k - 1); }
  }

  lemma {:induction false} HalvedEras(k: nat)
    requires k <= 64
    ensures Mined(BLOCK_ERA_5 + k * BLOCK_ERA_6_ONWARDS) == Mined(BLOCK_ERA_5) + 2_102_400 * HalvingSum(15_625_000, k)
  {
    hide Mined, Halved, Pow2, HalvingSum;
    HalvingNone();
    if k > 0 {
      HalvedEras(k - 1);
      HalvedIs(k - 1);
      HalvingSnoc(15_625_000, k - 1);
      var start := BLOCK_ERA_5 + (k - 1) * BLOCK_ERA_6_ONWARDS;
      EraSum(start, start + BLOCK_ERA_6_ONWARDS, Halved(k - 1));
    }
  }

  lemma HalvingNone()
    ensures HalvingSum(15_625_000, 0) == 0
  {}

  lemma HalvedIs(e: nat)
    ensures Pow2(e) > 0 && Halved(e) == 15_625_000 / Pow2(e)
  {}

  /** The whole emission, to the last unit. */
  lemma WholeEmission()
    ensures Mined(SCHEDULE_END) == 2_099_987_972_668_800
  {
    hide Mined, HalvingSum, Navigation.PopCount;
    HalvedEras(64);
    FirstEras();
    Ones();
    PowAbove(64);
    HalvingAll(15_625_000, 64);
  }

  lemma PopHalf(half: nat, bit: nat)
    requires bit < 2
    ensures Navigation.PopCount(2 * half + bit) == bit + Navigation.PopCount(half)
    ensures Navigation.PopCount(0) == 0
  {}

  lemma Ones()
    ensures Navigation.PopCount(15_625_000) == 13
  {
    hide *;
    LowerOnes();
    PopHalf(7_812_500, 0); PopHalf(3_906_250, 0); PopHalf(1_953_125, 0); PopHalf(976_562, 1);
    PopHalf(488_281, 0); PopHalf(244_140, 1); PopHalf(122_070, 0); PopHalf(61_035, 0);
    PopHalf(30_517, 1); PopHalf(15_258, 1); PopHalf(7_629, 0); PopHalf(3_814, 1);
  }

  lemma LowerOnes()
    ensures Navigation.PopCount(3_814) == 8
  {
    hide *;
    PopHalf(1_907, 0); PopHalf(953, 1); PopHalf(476, 1); PopHalf(238, 0);
    PopHalf(119, 0); PopHalf(59, 1); PopHalf(29, 1); PopHalf(14, 1);
    PopHalf(7, 0); PopHalf(3, 1); PopHalf(1, 1); PopHalf(0, 1);
  }

  lemma PowDouble(k: nat)
    ensures Pow2(0) == 1 && Pow2(k + 1) == 2 * Pow2(k)
  {}

  lemma PowByte(k: nat)
    ensures Pow2(0) == 1 && Pow2(k + 8) == 256 * Pow2(k)
  {
    hide *;
    PowDouble(k); PowDouble(k + 1); PowDouble(k + 2); PowDouble(k + 3);
    PowDouble(k + 4); PowDouble(k + 5); PowDouble(k + 6); PowDouble(k + 7);
  }

  lemma {:induction false} PowAbove(k: nat)
    requires k >= 24
    ensures 15_625_000 < Pow2(k)
  {
    hide *;
    if k > 24 {
      PowAbove(k - 1);
      PowDouble(k - 1);
    } else {
      PowByte(0);
      PowByte(8);
      PowByte(16);
    }
  }
}
