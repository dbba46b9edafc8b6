/**
 * FixedCoin's halving schedule: the block reward at a height, the next
 * halving in the schedule table, and the projection toward it (blocks
 * remaining, progress from the previous boundary, estimated time).
 */
module HalvingSchedule {
  import opened Wrappers

  /** One row of the schedule table: from block on, the reward is to. */
  datatype Halving = Halving(name: string, block: int, to: real)

  /** The schedule table; the last row ends all rewards. */
  const Halvings: seq<Halving> := [
    Halving("First halving", 4200, 0.5),
    Halving("Second halving", 8400, 0.25),
    Halving("Third halving", 12600, 0.125),
    Halving("Fourth halving", 16800, 0.0625),
    Halving("Fifth halving", 21000, 0.03125),
    Halving("Sixth halving", 25200, 0.015625),
    Halving("Seventh halving", 29400, 0.0078125),
    Halving("Eighth halving", 33600, 0.00390625),
    Halving("Final blocks", 113400, 0.0)
  ]

  /** Blocks between halvings. */
  const HalvingInterval: int := 4200

  /** The height from which no block is rewarded. */
  const LastRewardEnd: int := 113400

  /** The reward of the block at the premine height 1. */
  const PremineReward: real := 1600.0

  function Pow2(n: nat): (r: nat)
    ensures r >= 1
  {
    if n == 0 then 1 else 2 * Pow2(n - 1)
  }

  /**
   * getCurrentReward: 1 at genesis, the premine at height 1, 1 before the
   * first halving, then the tabulated rewards, then a further halving every
   * 4200 blocks after 33600, and nothing from 113400 on.
   */
  function CurrentReward(height: int): (r: real)
    ensures r >= 0.0
    ensures r == 0.0 <==> height >= LastRewardEnd
  {
    if height == 0 then 1.0
    else if height == 1 then PremineReward
    else if height < 4200 then 1.0
    else if height < 8400 then 0.5
    else if height < 12600 then 0.25
    else if height < 16800 then 0.125
    else if height < 21000 then 0.0625
    else if height < 25200 then 0.03125
    else if height < 29400 then 0.015625
    else if height < 33600 then 0.0078125
    else if height < LastRewardEnd then
      0.00390625 / Pow2((height - 33600) / HalvingInterval) as real
    else 0.0
  }

  /** The index of the first row of Halvings[i..] whose block is above height. */
  function NextHalvingIndex(height: int, i: nat): (r: Option<nat>)
    requires i <= |Halvings|
    ensures r.Some? ==> i <= r.value < |Halvings| && height < Halvings[r.value].block
    ensures r.Some? ==> forall j :: i <= j < r.value ==> height >= Halvings[j].block
    ensures r.None? ==> forall j :: i <= j < |Halvings| ==> height >= Halvings[j].block
    decreases |Halvings| - i
  {
    if i == |Halvings| then None
    else if height < Halvings[i].block then Some(i)
    else NextHalvingIndex(height, i + 1)
  }

  /** The script's search: scan the table and stop at the first block above height. */
  method FindNextHalving(height: int) returns (nextIdx: Option<nat>)
    ensures nextIdx == NextHalvingIndex(height, 0)
  {
    nextIdx := None;
    var i := 0;
    while i < |Halvings|
      invariant 0 <= i <= |Halvings|
      invariant forall j :: 0 <= j < i ==> height >= Halvings[j].block
    {
      if height < Halvings[i].block {
        nextIdx := Some(i);
        NextIsFirst(height, i);
        return;
      }
      i := i + 1;
    }
    NoneAfterAll(height);
  }

  lemma {:induction false} NextIsFirst(height: int, i: nat)
    requires i < |Halvings| && height < Halvings[i].block
    requires forall j :: 0 <= j < i ==> height >= Halvings[j].block
    ensures NextHalvingIndex(height, 0) == Some(i)
  {
    var r := NextHalvingIndex(height, 0);
    assert r.Some? && r.value <= i;
  }

  lemma NoneAfterAll(height: int)
    requires forall j :: 0 <= j < |Halvings| ==> height >= Halvings[j].block
    ensures NextHalvingIndex(height, 0).None?
  {
  }

  /** What the endpoint reports about the next halving. */
  datatype Projection = Projection(
    nextReward: real,
    nextHalvingBlock: int,
    blocksRemaining: int,
    progressPct: real,
    targetHalvingTs: real)

  function Max(a: real, b: real): real { if a >= b then a else b }

  function Min(a: real, b: real): real { if a <= b then a else b }

  /**
   * The projection given the search result next: all rewards done, or the
   * next row's block and reward, the blocks left, the progress from the
   * previous boundary (block 2 before the first halving) and the time the
   * next halving is due at the measured block time (the target time when the
   * measurement is not positive).
   */
  function ProjectFrom(height: int, next: Option<nat>, actualBlockTime: real, nowMs: int): Projection
    requires next.Some? ==> next.value < |Halvings|
  {
    match next
    case None => Projection(0.0, LastRewardEnd, 0, 100.0, nowMs as real)
    case Some(i) =>
      var nextHalvingBlock := Halvings[i].block;
      var blocksRemaining := if nextHalvingBlock - height >= 0 then nextHalvingBlock - height else 0;
      var prevBoundary := if i == 0 then 2 else Halvings[i - 1].block;
      var interval := if nextHalvingBlock - prevBoundary >= 1 then nextHalvingBlock - prevBoundary else 1;
      var done := if height - prevBoundary >= 0 then height - prevBoundary else 0;
      var progressPct := Max(0.0, Min(100.0, done as real / interval as real * 100.0));
      var blockTimeToUse := if actualBlockTime > 0.0 then actualBlockTime else 600.0;
      Projection(Halvings[i].to, nextHalvingBlock, blocksRemaining, progressPct,
                 nowMs as real + blocksRemaining as real * blockTimeToUse * 1000.0)
  }

  /** The projection at height. */
  function Project(height: int, actualBlockTime: real, nowMs: int): Projection {
    ProjectFrom(height, NextHalvingIndex(height, 0), actualBlockTime, nowMs)
  }

  // ---------------------------------------------------------------------------
  // Properties of the reward
  // ---------------------------------------------------------------------------

  /** Genesis, premine and the initial period. */
  lemma RewardAtStart(height: int)
    requires height < 4200
    ensures CurrentReward(height) == if height == 1 then 1600.0 else 1.0
  {
  }

  lemma {:induction false} Pow2Add(a: nat, b: nat)
    ensures Pow2(a + b) == Pow2(a) * Pow2(b)
  {
    if b > 0 {
      Pow2Add(a, b - 1);
    }
  }

  lemma TailStep(k: nat)
    requires k >= 8
    ensures 0.00390625 / Pow2(k - 8) as real == 1.0 / Pow2(k) as real
  {
    Pow2Add(8, k - 8);
    assert Pow2(8) == 256;
    var p := Pow2(k - 8) as real;
    assert Pow2(k) as real == 256.0 * p;
  }

  /**
   * After the premine the reward is 1 / 2^(height div 4200) until 113400:
   * every interval of 4200 blocks halves it, the table's rows and the
   * continued pattern alike.
   */
  lemma RewardClosedForm(height: int)
    requires 2 <= height < LastRewardEnd
    ensures CurrentReward(height) == 1.0 / Pow2(height / HalvingInterval) as real
  {
    var k := height / HalvingInterval;
    if height >= 33600 {
      assert (height - 33600) / HalvingInterval == k - 8;
      TailStep(k);
    } else {
      assert k < 8;
      assert Pow2(1) == 2 && Pow2(2) == 4 && Pow2(3) == 8 && Pow2(4) == 16;
      assert Pow2(5) == 32 && Pow2(6) == 64 && Pow2(7) == 128;
    }
  }

  lemma HalfStep(k: nat)
    requires k >= 1
    ensures 1.0 / Pow2(k) as real == (1.0 / Pow2(k - 1) as real) / 2.0
  {
    var p := Pow2(k - 1) as real;
    assert Pow2(k) as real == 2.0 * p;
  }

  /** At each boundary 4200k before 113400 the reward is exactly half the previous block's. */
  lemma RewardHalvesAtBoundary(k: int)
    requires 1 <= k < LastRewardEnd / HalvingInterval
    ensures CurrentReward(HalvingInterval * k) == CurrentReward(HalvingInterval * k - 1) / 2.0
  {
    RewardClosedForm(HalvingInterval * k);
    RewardClosedForm(HalvingInterval * k - 1);
    assert (HalvingInterval * k) / HalvingInterval == k;
    assert (HalvingInterval * k - 1) / HalvingInterval == k - 1;
    HalfStep(k);
  }

  lemma {:induction false} Pow2Monotonic(a: nat, b: nat)
    requires a <= b
    ensures Pow2(a) <= Pow2(b)
  {
    if a < b {
      Pow2Monotonic(a, b - 1);
    }
  }

  /** 1/x strictly falls as x grows over the positive reals. */
  lemma InverseAntitone(p: real, q: real)
    requires 0.0 < p < q
    ensures 1.0 / q < 1.0 / p
  {
    var a, b := 1.0 / p, 1.0 / q;
    assert a * p == 1.0 && b * q == 1.0;
    assert a * (q - p) > 0.0;
    assert (a - b) * q > 0.0;
  }

  /** From height 2 on the reward never grows. */
  lemma RewardNonIncreasing(a: int, b: int)
    requires 2 <= a <= b
    ensures CurrentReward(b) <= CurrentReward(a)
  {
    if b < LastRewardEnd {
      RewardClosedForm(a);
      RewardClosedForm(b);
      Pow2Monotonic(a / HalvingInterval, b / HalvingInterval);
      if Pow2(a / HalvingInterval) < Pow2(b / HalvingInterval) {
        InverseAntitone(Pow2(a / HalvingInterval) as real, Pow2(b / HalvingInterval) as real);
      }
    }
  }

  /** The table's boundaries strictly increase. */
  lemma TableIncreasing(i: nat, j: nat)
    requires i < j < |Halvings|
    ensures Halvings[i].block < Halvings[j].block
  {
  }

  /** Every row's reward is the reward getCurrentReward gives at the row's block. */
  lemma TableAgreesWithReward(i: nat)
    requires i < |Halvings|
    ensures CurrentReward(Halvings[i].block) == Halvings[i].to
  {
  }

  /**
   * Between the first and the eighth halving the reward is the reward of the
   * last table row at or below the height, the row before the next halving.
   */
  lemma RewardFromTable(height: int)
    requires HalvingInterval <= height < 33600
    ensures NextHalvingIndex(height, 0).Some? && NextHalvingIndex(height, 0).value >= 1
    ensures Halvings[NextHalvingIndex(height, 0).value - 1].block <= height
    ensures CurrentReward(height) == Halvings[NextHalvingIndex(height, 0).value - 1].to
  {
    var i := height / HalvingInterval;
    assert 1 <= i < 8;
    assert Halvings[i].block == HalvingInterval * (i + 1) && Halvings[i - 1].block == HalvingInterval * i;
    NextIsFirst(height, i);
  }

  // ---------------------------------------------------------------------------
  // Properties of the search and the projection
  // ---------------------------------------------------------------------------

  /** The search finds nothing exactly when every reward has ended. */
  lemma NoNextHalvingIffExhausted(height: int)
    ensures NextHalvingIndex(height, 0).None? <==> height >= LastRewardEnd
  {
    if height < LastRewardEnd {
      assert height < Halvings[8].block;
    } else {
      NoneAfterAll(height);
    }
  }

  /** Once rewards have ended the projection is fixed: 113400, 0 remaining, 100 percent, due now. */
  lemma ProjectExhausted(height: int, actualBlockTime: real, nowMs: int)
    requires height >= LastRewardEnd
    ensures Project(height, actualBlockTime, nowMs) == Projection(0.0, 113400, 0, 100.0, nowMs as real)
  {
    NoNextHalvingIffExhausted(height);
  }

  lemma RatioBelowHundred(done: int, interval: int)
    requires 0 <= done < interval
    ensures 0.0 <= done as real / interval as real * 100.0 < 100.0
  {
    var q := done as real / interval as real;
    assert q * interval as real == done as real;
  }

  /**
   * Before 113400 the next halving lies ahead: blocks remain, progress is in
   * [0, 100), its reward is the one getCurrentReward gives there and below
   * the current one, and it is due blocksRemaining block times from now.
   */
  lemma ProjectPending(height: int, actualBlockTime: real, nowMs: int)
    requires height < LastRewardEnd
    ensures var p := Project(height, actualBlockTime, nowMs);
      && p.nextHalvingBlock > height
      && p.blocksRemaining == p.nextHalvingBlock - height > 0
      && 0.0 <= p.progressPct < 100.0
      && p.nextReward == CurrentReward(p.nextHalvingBlock)
      && p.nextReward < CurrentReward(height)
      && p.targetHalvingTs == nowMs as real + p.blocksRemaining as real
           * (if actualBlockTime > 0.0 then actualBlockTime else 600.0) * 1000.0
  {
    NoNextHalvingIffExhausted(height);
    var i := NextHalvingIndex(height, 0).value;
    var prev := if i == 0 then 2 else Halvings[i - 1].block;
    var done := if height - prev >= 0 then height - prev else 0;
    if i > 0 {
      TableIncreasing(i - 1, i);
      assert height >= Halvings[i - 1].block;
    }
    RatioBelowHundred(done, Halvings[i].block - prev);
    TableAgreesWithReward(i);
    NextRewardBelowCurrent(height, i);
  }

  lemma NextRewardBelowCurrent(height: int, i: nat)
    requires NextHalvingIndex(height, 0) == Some(i)
    ensures Halvings[i].to < CurrentReward(height)
  {
    if height >= 2 && height < 33600 {
      assert i < 8;
      assert i == height / HalvingInterval;
    }
  }

  /**
   * After the eighth halving the continued halvings are not table rows: the
   * projection names 113400 and reward 0 while the reward keeps halving.
   */
  lemma ProjectTail(height: int, actualBlockTime: real, nowMs: int)
    requires 33600 <= height < LastRewardEnd
    ensures Project(height, actualBlockTime, nowMs).nextHalvingBlock == 113400
    ensures Project(height, actualBlockTime, nowMs).nextReward == 0.0
    ensures CurrentReward(height) > 0.0
  {
    assert NextHalvingIndex(height, 0) == Some(8);
  }

  /** Before the first halving, heights up to 2 count as no progress. */
  lemma ProgressFromBlockTwo(height: int, actualBlockTime: real, nowMs: int)
    requires height <= 2
    ensures Project(height, actualBlockTime, nowMs).progressPct == 0.0
    ensures Project(height, actualBlockTime, nowMs).nextHalvingBlock == 4200
  {
    assert NextHalvingIndex(height, 0) == Some(0);
  }

  /** Within a table interval, progress is the share of the interval already mined. */
  lemma ProgressWithinInterval(height: int, actualBlockTime: real, nowMs: int)
    requires 4200 <= height < 33600
    ensures Project(height, actualBlockTime, nowMs).progressPct
         == (height % HalvingInterval) as real / HalvingInterval as real * 100.0
  {
    var i := height / HalvingInterval;
    assert 1 <= i < 8;
    assert Halvings[i].block == HalvingInterval * (i + 1) && Halvings[i - 1].block == HalvingInterval * i;
    NextIsFirst(height, i);
    ProgressInTableInterval(height, i, actualBlockTime, nowMs);
  }

  lemma ProgressInTableInterval(height: int, i: nat, actualBlockTime: real, nowMs: int)
    requires 1 <= i < 8
    requires Halvings[i - 1].block <= height < Halvings[i].block
    ensures ProjectFrom(height, Some(i), actualBlockTime, nowMs).progressPct
         == (height % HalvingInterval) as real / HalvingInterval as real * 100.0
  {
    assert Halvings[i].block - Halvings[i - 1].block == HalvingInterval;
    assert height - Halvings[i - 1].block == height % HalvingInterval;
    RatioBelowHundred(height % HalvingInterval, HalvingInterval);
  }

  /** At height 50 with 600-second blocks: reward 1, halving 4200 is 4150 blocks and 2,490,000,000 ms away. */
  lemma ScenarioHeightFifty(nowMs: int)
    ensures CurrentReward(50) == 1.0
    ensures Project(50, 600.0, nowMs)
         == Projection(0.5, 4200, 4150, 48.0 / 4198.0 * 100.0, nowMs as real + 2490000000.0)
  {
    assert NextHalvingIndex(50, 0) == Some(0);
  }

  /** At height 4200 the reward has just halved and progress toward 8400 starts again at 0. */
  lemma ScenarioFirstHalving(nowMs: int)
    ensures CurrentReward(4199) == 1.0 && CurrentReward(4200) == 0.5
    ensures Project(4200, 600.0, nowMs).nextHalvingBlock == 8400
    ensures Project(4200, 600.0, nowMs).progressPct == 0.0
    ensures Project(4200, 600.0, nowMs).blocksRemaining == 4200
  {
    assert NextHalvingIndex(4200, 0) == Some(1);
  }
}
