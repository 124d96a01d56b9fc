/**
 * The emission schedule: block rewards, the foundation levy that is taken from
 * them and paid out once per foundation height, and the overage of a chain.
 */
module Emission {
  import opened Arithmetic
  import opened Postorder

  const EPIC_BASE: nat := 100_000_000
  const DAY_HEIGHT: nat := 1440
  const BLOCK_ERA_1: nat := DAY_HEIGHT * 334
  const BLOCK_ERA_2: nat := BLOCK_ERA_1 + DAY_HEIGHT * 470
  const BLOCK_ERA_3: nat := BLOCK_ERA_2 + DAY_HEIGHT * 601
  const BLOCK_ERA_4: nat := BLOCK_ERA_3 + DAY_HEIGHT * 800
  const BLOCK_ERA_5: nat := BLOCK_ERA_4 + DAY_HEIGHT * 1019
  const BLOCK_ERA_6_ONWARDS: nat := DAY_HEIGHT * 1460
  const BASE_REWARD_ERA_6_ONWARDS: nat := 15_625_000
  const FOUNDATION_LEVY_ERA_1: nat := DAY_HEIGHT * 120
  const FOUNDATION_LEVY_ERA_2_ONWARDS: nat := DAY_HEIGHT * 365
  /** The levy of each era, in units of 1/10000 of the block reward. */
  const FOUNDATION_LEVY: seq<nat> := [888, 777, 666, 555, 444, 333, 222, 111, 111]
  /** The last height with a levy. */
  const LEVY_END: nat := FOUNDATION_LEVY_ERA_1 + 8 * FOUNDATION_LEVY_ERA_2_ONWARDS
  /** The last height whose halving exponent is a shift of a 64-bit word. */
  const SCHEDULE_END: nat := BLOCK_ERA_5 + 64 * BLOCK_ERA_6_ONWARDS

  datatype ChainType = AutomatedTesting | UserTesting | Floonet | Mainnet

  function FoundationHeight(chain: ChainType): (f: nat)
    ensures f > 0 && LEVY_END % f == 0
  {
    if chain == AutomatedTesting then 5 else DAY_HEIGHT
  }

  function Exponent(height: nat): (e: nat)
    requires BLOCK_ERA_5 < height <= SCHEDULE_END
    ensures e < 64 && e * BLOCK_ERA_6_ONWARDS < height - BLOCK_ERA_5 <= (e + 1) * BLOCK_ERA_6_ONWARDS
  {
    (height - BLOCK_ERA_5 - 1) / BLOCK_ERA_6_ONWARDS
  }

  function Halved(e: nat): (r: nat)
  {
    BASE_REWARD_ERA_6_ONWARDS / Pow2(e)
  }

  function BlockTotalReward(height: nat): (r: nat)
    requires height <= SCHEDULE_END
  {
    if height <= BLOCK_ERA_1 then 16 * EPIC_BASE
    else if height <= BLOCK_ERA_2 then 8 * EPIC_BASE
    else if height <= BLOCK_ERA_3 then 4 * EPIC_BASE
    else if height <= BLOCK_ERA_4 then 2 * EPIC_BASE
    else if height <= BLOCK_ERA_5 then EPIC_BASE
    else Halved(Exponent(height))
  }

  function LevyIndex(height: nat): (i: nat)
    requires height > 0
  {
    if height <= FOUNDATION_LEVY_ERA_1 then 0
    else (height - FOUNDATION_LEVY_ERA_1 - 1) / FOUNDATION_LEVY_ERA_2_ONWARDS + 1
  }

  /** The levy is positive exactly inside its schedule and always leaves the miner something. */
  function Levy(height: nat): (l: nat)
    requires height <= SCHEDULE_END
    ensures l > 0 <==> 0 < height <= LEVY_END
    ensures l == 0 || l < BlockTotalReward(height)
  {
    if height == 0 || LevyIndex(height) >= |FOUNDATION_LEVY| then 0
    else BlockTotalReward(height) * FOUNDATION_LEVY[LevyIndex(height)] / 10000
  }

  function RewardAtHeight(height: nat): (r: nat)
    requires height <= SCHEDULE_END
  {
    BlockTotalReward(height) - Levy(height)
  }

  /** The levies of the heights after lo and up to hi. */
  function LevySum(lo: nat, hi: nat): (s: nat)
    requires hi <= SCHEDULE_END
  {
    if hi <= lo then 0 else LevySum(lo, hi - 1) + Levy(hi)
  }

  predicate IsFoundationHeight(chain: ChainType, height: nat)
    requires height <= SCHEDULE_END
  {
    height > 0 && height % FoundationHeight(chain) == 0 && Levy(height) != 0
  }

  function AddRewardFoundation(chain: ChainType, height: nat): (r: nat)
    requires height <= SCHEDULE_END
  {
    if IsFoundationHeight(chain, height)
    then LevySum(LastFoundation(chain, height - 1), height)
    else 0
  }

  /** The last multiple of the foundation height, or zero. */
  function LastFoundation(chain: ChainType, height: nat): (h: nat)
    ensures h <= height < h + FoundationHeight(chain) && h % FoundationHeight(chain) == 0
  {
    FoundationIs(chain, height);
    height - height % FoundationHeight(chain)
  }

  lemma FoundationIs(chain: ChainType, height: nat)
    ensures (height - height % FoundationHeight(chain)) % FoundationHeight(chain) == 0
  {
    var f := FoundationHeight(chain);
    assert f == 5 || f == 1440;
  }

  /** One step of the last foundation height. */
  lemma FoundationStep(chain: ChainType, height: nat)
    requires height > 0
    ensures height % FoundationHeight(chain) != 0 ==>
              LastFoundation(chain, height) == LastFoundation(chain, height - 1)
    ensures height % FoundationHeight(chain) == 0 ==>
              LastFoundation(chain, height) == height &&
              LastFoundation(chain, height - 1) == height - FoundationHeight(chain)
    ensures height % FoundationHeight(chain) == 0 && height > LEVY_END ==>
              LastFoundation(chain, height - 1) >= LEVY_END
  {
    hide FoundationHeight;
    ModStep(height, FoundationHeight(chain));
    if height % FoundationHeight(chain) == 0 && height > LEVY_END {
      MultiplesApart(LEVY_END, height, FoundationHeight(chain));
    }
  }

  /** The rewards of all heights from 1. */
  function Mined(height: nat): (s: nat)
    requires height <= SCHEDULE_END
  {
    if height == 0 then 0 else Mined(height - 1) + BlockTotalReward(height)
  }

  function Overage(chain: ChainType, genesisHadReward: bool, height: nat): (s: nat)
    requires height <= SCHEDULE_END
  {
    if height == 0 then if genesisHadReward then RewardAtHeight(0) else 0
    else Overage(chain, genesisHadReward, height - 1) + RewardAtHeight(height) + AddRewardFoundation(chain, height)
  }

  lemma {:induction false} NoLevy(lo: nat, hi: nat)
    requires LEVY_END <= lo && hi <= SCHEDULE_END
    ensures LevySum(lo, hi) == 0
  {
    if hi > lo { NoLevy(lo, hi - 1); }
  }

  lemma LevyStep(lo: nat, hi: nat)
    requires lo < hi <= SCHEDULE_END
    ensures LevySum(lo, hi) == LevySum(lo, hi - 1) + Levy(hi)
    ensures LevySum(hi, hi) == 0
  {}

  lemma OverageStep(chain: ChainType, genesisHadReward: bool, height: nat)
    requires 0 < height <= SCHEDULE_END
    ensures Levy(height) <= BlockTotalReward(height)
    ensures Overage(chain, genesisHadReward, height) ==
            Overage(chain, genesisHadReward, height - 1) + BlockTotalReward(height) - Levy(height)
            + (if height % FoundationHeight(chain) == 0 && Levy(height) != 0
               then LevySum(LastFoundation(chain, height - 1), height) else 0)
    ensures Mined(height) == Mined(height - 1) + BlockTotalReward(height)
  {
    hide LevySum, LastFoundation;
  }

  lemma OverageStart(chain: ChainType, genesisHadReward: bool)
    ensures LastFoundation(chain, 0) == 0 && LevySum(0, 0) == 0 && Mined(0) == 0
    ensures Overage(chain, genesisHadReward, 0) == if genesisHadReward then 16 * EPIC_BASE else 0
  {}

  /**
   * Nothing is lost and nothing is minted twice: the overage and the levy that
   * has accrued since the last foundation height make up all block rewards.
   */
  lemma {:induction false} LevyConserved(chain: ChainType, genesisHadReward: bool, height: nat)
    requires height <= SCHEDULE_END
    ensures Overage(chain, genesisHadReward, height) + LevySum(LastFoundation(chain, height), height)
            == Mined(height) + if genesisHadReward then 16 * EPIC_BASE else 0
  {
    hide *;
    OverageStart(chain, genesisHadReward);
    if height > 0 {
      LevyConserved(chain, genesisHadReward, height - 1);
      OverageStep(chain, genesisHadReward, height);
      FoundationStep(chain, height);
      LevyStep(LastFoundation(chain, height - 1), height);
      if Levy(height) == 0 && height % FoundationHeight(chain) == 0 {
        NoLevy(LastFoundation(chain, height - 1), height);
      }
    }
  }

  /** At a foundation height the whole emission has been paid out. */
  lemma PaidOut(chain: ChainType, genesisHadReward: bool, height: nat)
    requires height <= SCHEDULE_END && height % FoundationHeight(chain) == 0
    ensures Overage(chain, genesisHadReward, height)
            == Mined(height) + if genesisHadReward then 16 * EPIC_BASE else 0
  {
    hide LevySum, Overage, Mined, BlockTotalReward;
    OverageStart(chain, genesisHadReward);
    LevyConserved(chain, genesisHadReward, height);
    if height > 0 {
      FoundationStep(chain, height);
      LevyStep(LastFoundation(chain, height - 1), height);
    }
  }

  // The supply cap

  lemma {:induction false} EraSum(start: nat, height: nat, reward: nat)
    requires start <= height <= SCHEDULE_END
    requires forall h :: start < h <= height ==> BlockTotalReward(h) == reward
    ensures Mined(height) == Mined(start) + Mul(height - start, reward)
  {
    hide Mul;
    hide BlockTotalReward;
    MulStep(if height > start then height - start - 1 else 0, reward);
    if height > start {
      EraSum(start, height - 1, reward);
    }
  }

  lemma EraReward(h: nat)
    requires h <= BLOCK_ERA_5
    ensures 0 < h <= BLOCK_ERA_1 ==> BlockTotalReward(h) == 16 * EPIC_BASE
    ensures BLOCK_ERA_1 < h <= BLOCK_ERA_2 ==> BlockTotalReward(h) == 8 * EPIC_BASE
    ensures BLOCK_ERA_2 < h <= BLOCK_ERA_3 ==> BlockTotalReward(h) == 4 * EPIC_BASE
    ensures BLOCK_ERA_3 < h <= BLOCK_ERA_4 ==> BlockTotalReward(h) == 2 * EPIC_BASE
    ensures BLOCK_ERA_4 < h <= BLOCK_ERA_5 ==> BlockTotalReward(h) == EPIC_BASE
  {}

  /** What has been mined by the end of the fifth era. */
  lemma FirstEras()
    ensures Mined(BLOCK_ERA_5) == DAY_HEIGHT * 14_127 * EPIC_BASE
  {
    hide Mined, BlockTotalReward, Mul;
    forall h: nat | h <= BLOCK_ERA_5
      ensures 0 < h <= BLOCK_ERA_1 ==> BlockTotalReward(h) == 16 * EPIC_BASE
      ensures BLOCK_ERA_1 < h <= BLOCK_ERA_2 ==> BlockTotalReward(h) == 8 * EPIC_BASE
      ensures BLOCK_ERA_2 < h <= BLOCK_ERA_3 ==> BlockTotalReward(h) == 4 * EPIC_BASE
      ensures BLOCK_ERA_3 < h <= BLOCK_ERA_4 ==> BlockTotalReward(h) == 2 * EPIC_BASE
      ensures BLOCK_ERA_4 < h <= BLOCK_ERA_5 ==> BlockTotalReward(h) == EPIC_BASE
    {
      EraReward(h);
    }
    OverageStart(Mainnet, false);
    EraSum(0, BLOCK_ERA_1, 16 * EPIC_BASE);
    EraSum(BLOCK_ERA_1, BLOCK_ERA_2, 8 * EPIC_BASE);
    EraSum(BLOCK_ERA_2, BLOCK_ERA_3, 4 * EPIC_BASE);
    EraSum(BLOCK_ERA_3, BLOCK_ERA_4, 2 * EPIC_BASE);
    EraSum(BLOCK_ERA_4, BLOCK_ERA_5, EPIC_BASE);
    MulIs(334 * DAY_HEIGHT, 16 * EPIC_BASE);
    MulIs(470 * DAY_HEIGHT, 8 * EPIC_BASE);
    MulIs(601 * DAY_HEIGHT, 4 * EPIC_BASE);
    MulIs(800 * DAY_HEIGHT, 2 * EPIC_BASE);
    MulIs(1019 * DAY_HEIGHT, EPIC_BASE);
  }

  lemma {:induction false} MinedGrows(lo: nat, hi: nat)
    requires lo <= hi <= SCHEDULE_END
    ensures Mined(lo) <= Mined(hi)
  {
    hide BlockTotalReward;
    if lo < hi { MinedGrows(lo, hi - 1); }
  }

  lemma HalvedStep(e: nat)
    ensures 2 * Halved(e + 1) <= Halved(e)
    ensures Halved(0) == BASE_REWARD_ERA_6_ONWARDS
  {
    assert Pow2(e + 1) == 2 * Pow2(e) && Pow2(0) == 1;
    hide Pow2;
    DivHalf(BASE_REWARD_ERA_6_ONWARDS, Pow2(e));
  }

  /** What is still to come never exceeds what two more eras at the present reward would bring. */
  lemma {:induction false} Halvings(k: nat)
    requires k <= 64
    ensures Mined(BLOCK_ERA_5 + k * BLOCK_ERA_6_ONWARDS) + 2 * BLOCK_ERA_6_ONWARDS * Halved(k)
            <= Mined(BLOCK_ERA_5) + 2 * BLOCK_ERA_6_ONWARDS * BASE_REWARD_ERA_6_ONWARDS
  {
    hide Mined, Halved;
    HalvedStep(if k == 0 then 0 else k - 1);
    if k > 0 {
      Halvings(k - 1);
      var start := BLOCK_ERA_5 + (k - 1) * BLOCK_ERA_6_ONWARDS;
      EraSum(start, start + BLOCK_ERA_6_ONWARDS, Halved(k - 1));
    }
  }

  /** Fewer than 21 million coins are mined over the whole schedule. */
  lemma SupplyCap(height: nat)
    requires height <= SCHEDULE_END
    ensures Mined(height) + 16 * EPIC_BASE < 21_000_000 * EPIC_BASE
  {
    hide Mined, Halved;
    FirstEras();
    MinedGrows(height, SCHEDULE_END);
    Halvings(64);
  }

  /** The overage of every height is below the cap. */
  lemma OverageCapped(chain: ChainType, genesisHadReward: bool, height: nat)
    requires height <= SCHEDULE_END
    ensures Overage(chain, genesisHadReward, height) < 21_000_000 * EPIC_BASE <= I64_MAX
  {
    hide Overage, Mined, LevySum, LastFoundation;
    LevyConserved(chain, genesisHadReward, height);
    SupplyCap(height);
  }

  /** cumulative_reward_foundation */
  method CumulativeRewardFoundation(chain: ChainType, height: nat) returns (sum: nat)
    requires height <= SCHEDULE_END && IsFoundationHeight(chain, height)
    ensures sum == AddRewardFoundation(chain, height)
    ensures sum == LevySum(LastFoundation(chain, height - 1), height)
  {
    hide Levy;
    sum := 0;
    var fHeight := FoundationHeight(chain);
    FoundationStep(chain, height);
    var n := height - fHeight + 1;
    for iterHeight := n to height + 1
      invariant sum == LevySum(n - 1, iterHeight - 1)
    {
      sum := sum + Levy(iterHeight);
    }
  }

  /** total_overage_at_height: the running sum never leaves the range of a 64-bit integer. */
  method TotalOverageAtHeight(chain: ChainType, genesisHadReward: bool, height: nat) returns (sum: int)
    requires height <= SCHEDULE_END
    ensures sum == Overage(chain, genesisHadReward, height) && 0 <= sum <= I64_MAX
    ensures height % FoundationHeight(chain) == 0 ==>
              sum == Mined(height) + if genesisHadReward then 16 * EPIC_BASE else 0
  {
    hide BlockTotalReward, Levy, LevySum, Mined, LastFoundation;
    OverageStart(chain, genesisHadReward);
    sum := 0;
    if genesisHadReward {
      sum := sum + RewardAtHeight(0);
    }
    for i := 1 to height + 1
      invariant sum == Overage(chain, genesisHadReward, i - 1)
    {
      OverageStep(chain, genesisHadReward, i);
      var reward := RewardAtHeight(i);
      var foundation := 0;
      if IsFoundationHeight(chain, i) {
        foundation := CumulativeRewardFoundation(chain, i);
      }
      sum := sum + reward + foundation;
      OverageCapped(chain, genesisHadReward, i);
      assert sum <= I64_MAX;
    }
    OverageCapped(chain, genesisHadReward, height);
    if height % FoundationHeight(chain) == 0 {
      PaidOut(chain, genesisHadReward, height);
    }
  }
}
