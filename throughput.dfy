/**
 * Average blocks per 24 hours and the actual block time, measured over the
 * last 100 blocks from the timestamps of the newest block and of the block
 * 100 below it; the 600-second target is used whenever no usable
 * measurement exists.
 */
module ThroughputEstimator {
  import opened Wrappers
  import opened NumericNormalizer
  import opened ChainMetricsResolver
  import opened HalvingSchedule

  /** The target block time in seconds. */
  const BlockTimeSec: int := 600

  /** How many blocks the measurement spans. */
  const BlocksToAnalyze: int := 100

  const SecondsPerDay: int := 86400

  /**
   * The timestamp of a fetched block: (int) of its "time" field, 0 when the
   * field is missing; no timestamp when the block hash or the block could
   * not be fetched or did not decode to a JSON object.
   */
  function BlockTime(block: Option<Summary>): Option<int> {
    match block
    case None => None
    case Some(b) => Some(if IsSet(b, "time") then ToInt(b["time"]) else 0)
  }

  /**
   * A measurement is taken: the chain has at least 100 blocks, both
   * timestamps are there and positive, and time moved forward.
   */
  predicate Measurable(height: int, curTime: Option<int>, oldTime: Option<int>) {
    && height >= BlocksToAnalyze
    && curTime.Some? && oldTime.Some?
    && curTime.value > 0 && oldTime.value > 0
    && curTime.value > oldTime.value
  }

  datatype Throughput = Throughput(avgBlocksPer24h: real, actualBlockTime: real)

  /** The measured throughput, or the target's 144 blocks of 600 seconds. */
  function Estimate(height: int, curTime: Option<int>, oldTime: Option<int>): (t: Throughput)
    ensures t.actualBlockTime > 0.0 && t.avgBlocksPer24h > 0.0
  {
    if Measurable(height, curTime, oldTime) then
      var blockTime := (curTime.value - oldTime.value) as real / BlocksToAnalyze as real;
      Throughput(SecondsPerDay as real / blockTime, blockTime)
    else Throughput(SecondsPerDay as real / BlockTimeSec as real, BlockTimeSec as real)
  }

  /**
   * The estimator as the script runs it: start from 0 blocks per day and the
   * target time, overwrite both when the measurement succeeds, then fall
   * back to 86400 / 600 when the average is still not positive.
   */
  method EstimateThroughput(height: int, currentBlock: Option<Summary>, oldBlock: Option<Summary>)
    returns (avgBlocksPer24h: real, actualBlockTime: real)
    ensures Throughput(avgBlocksPer24h, actualBlockTime)
         == Estimate(height, BlockTime(currentBlock), BlockTime(oldBlock))
  {
    avgBlocksPer24h := 0.0;
    actualBlockTime := BlockTimeSec as real;
    if height >= BlocksToAnalyze {
      if currentBlock.Some? && oldBlock.Some? {
        var currentTime := if IsSet(currentBlock.value, "time") then ToInt(currentBlock.value["time"]) else 0;
        var oldTime := if IsSet(oldBlock.value, "time") then ToInt(oldBlock.value["time"]) else 0;
        if currentTime > 0 && oldTime > 0 && currentTime > oldTime {
          var timeDiff := currentTime - oldTime;
          actualBlockTime := timeDiff as real / BlocksToAnalyze as real;
          avgBlocksPer24h := SecondsPerDay as real / actualBlockTime;
        }
      }
    }
    if avgBlocksPer24h <= 0.0 {
      avgBlocksPer24h := SecondsPerDay as real / BlockTimeSec as real;
    }
  }

  // ---------------------------------------------------------------------------
  // Properties
  // ---------------------------------------------------------------------------

  lemma DayStep(a: real, b: real)
    requires b > 0.0 && a == 86400.0 / b
    ensures a * b == 86400.0
  {
  }

  /** The two figures always describe the same rate: blocks per day times seconds per block is one day. */
  lemma EstimateCoversOneDay(height: int, curTime: Option<int>, oldTime: Option<int>)
    ensures Estimate(height, curTime, oldTime).avgBlocksPer24h * Estimate(height, curTime, oldTime).actualBlockTime == 86400.0
  {
    var t := Estimate(height, curTime, oldTime);
    DayStep(t.avgBlocksPer24h, t.actualBlockTime);
  }

  /** Without a measurement the estimate is the target: 144 blocks a day, 600 seconds each. */
  lemma EstimateDefaultsToTarget(height: int, curTime: Option<int>, oldTime: Option<int>)
    requires !Measurable(height, curTime, oldTime)
    ensures Estimate(height, curTime, oldTime) == Throughput(144.0, 600.0)
  {
  }

  /** With one, the block time is the elapsed seconds over 100 blocks. */
  lemma EstimateMeasures(height: int, curTime: int, oldTime: int)
    requires Measurable(height, Some(curTime), Some(oldTime))
    ensures Estimate(height, Some(curTime), Some(oldTime)).actualBlockTime == (curTime - oldTime) as real / 100.0
  {
  }

  /** Chains shorter than 100 blocks are never measured. */
  lemma ShortChainUsesTarget(height: int, curTime: Option<int>, oldTime: Option<int>)
    requires height < BlocksToAnalyze
    ensures Estimate(height, curTime, oldTime) == Throughput(144.0, 600.0)
  {
  }

  /** Timestamps that do not move forward are ignored. */
  lemma StalledClockUsesTarget(height: int, curTime: int, oldTime: int)
    requires curTime <= oldTime
    ensures Estimate(height, Some(curTime), Some(oldTime)) == Throughput(144.0, 600.0)
  {
  }

  /** Blocks that take 60000 seconds per 100, the target pace, give exactly the target figures. */
  lemma TargetPaceMatchesDefault(height: int, oldTime: int)
    requires height >= BlocksToAnalyze && oldTime > 0
    ensures Estimate(height, Some(oldTime + 60000), Some(oldTime)) == Throughput(144.0, 600.0)
  {
  }

  lemma DayOver(x: real)
    requires x > 0.0
    ensures 86400.0 / x == 86400.0 * (1.0 / x)
  {
  }

  /** Faster blocks mean more blocks a day: a shorter span over the same 100 blocks gives a larger average. */
  lemma FasterBlocksMoreDaily(height: int, curTime1: int, curTime2: int, oldTime: int)
    requires Measurable(height, Some(curTime1), Some(oldTime)) && Measurable(height, Some(curTime2), Some(oldTime))
    requires curTime1 < curTime2
    ensures Estimate(height, Some(curTime1), Some(oldTime)).avgBlocksPer24h
          > Estimate(height, Some(curTime2), Some(oldTime)).avgBlocksPer24h
  {
    var x, y := (curTime1 - oldTime) as real / 100.0, (curTime2 - oldTime) as real / 100.0;
    InverseAntitone(x, y);
    DayOver(x);
    DayOver(y);
  }
}
