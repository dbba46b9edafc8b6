/**
 * The endpoint's response: the script's flow from the raw endpoint bodies
 * to the JSON record it serves, and the 5-second cache in front of it.
 */
module ResponseAssembler {
  import opened Wrappers
  import opened NumericNormalizer
  import HashrateFormatter
  import opened ChainMetricsResolver
  import opened ThroughputEstimator
  import opened HalvingSchedule

  /**
   * What the explorer returned: the plain-text bodies of getblockcount,
   * getdifficulty, getnetworkhashps and getmoneysupply (None when the request
   * failed), the summary record (None when it failed or did not decode to a
   * JSON object), the newest block and the block 100 below it (None when
   * either the hash or the block could not be fetched or decoded), and the
   * clock in milliseconds.
   */
  datatype Fetched = Fetched(
    heightRaw: Option<string>,
    difficultyRaw: Option<string>,
    hashpsRaw: Option<string>,
    supplyRaw: Option<string>,
    summary: Option<Summary>,
    currentBlock: Option<Summary>,
    oldBlock: Option<Summary>,
    nowMs: int)

  /** The four metrics as read from the plain-text endpoints: (int) and (float) of the trimmed bodies, 0 when missing. */
  function InitialMetrics(f: Fetched): Metrics {
    Metrics(
      if f.heightRaw.Some? then StringToInt(Trim(f.heightRaw.value)) else 0,
      if f.difficultyRaw.Some? then StringToFloat(Trim(f.difficultyRaw.value)) else 0.0,
      if f.hashpsRaw.Some? then StringToFloat(Trim(f.hashpsRaw.value)) else 0.0,
      if f.supplyRaw.Some? then StringToFloat(Trim(f.supplyRaw.value)) else 0.0)
  }

  /** PHP's round(x, digits): to the nearest multiple of 10^-digits, halves away from zero. */
  function Round(x: real, digits: nat): (r: real)
    ensures r * Pow10(digits) as real == RoundedUnits(x, digits) as real
  {
    RoundedUnits(x, digits) as real / Pow10(digits) as real
  }

  /** The whole number of 10^-digits units round(x, digits) yields. */
  function RoundedUnits(x: real, digits: nat): (n: int)
    ensures -0.5 <= InUnits(x, digits) - n as real <= 0.5
    ensures InUnits(x, digits) - n as real == 0.5 ==> InUnits(x, digits) < 0.0
    ensures n as real - InUnits(x, digits) == 0.5 ==> InUnits(x, digits) > 0.0
  {
    var s := InUnits(x, digits);
    if s >= 0.0 then (s + 0.5).Floor else -((-s + 0.5).Floor)
  }

  function InUnits(x: real, digits: nat): real {
    x * Pow10(digits) as real
  }

  datatype Hashrate = Hashrate(value: real, unit: string)

  /** The record the endpoint serves; the human-readable hashrate string is not modelled. */
  datatype StateResponse = StateResponse(
    serverTime: int,
    asOfMs: int,
    block: int,
    difficulty: real,
    supply: real,
    hashrate: Hashrate,
    currentReward: real,
    nextReward: real,
    nextHalvingBlock: int,
    blocksRemaining: int,
    progressPct: real,
    targetHalvingTs: int,
    avgBlocksPer24h: real,
    actualBlockTime: real)

  /** The response, composed from the specifications of each step. */
  function StateOf(f: Fetched): StateResponse {
    var m := MergeSummary(InitialMetrics(f), f.summary);
    var t := Estimate(m.height, BlockTime(f.currentBlock), BlockTime(f.oldBlock));
    var p := Project(m.height, t.actualBlockTime, f.nowMs);
    var h := HashrateFormatter.Humanize(m.hashps);
    StateResponse(
      f.nowMs, f.nowMs, m.height, m.difficulty, m.supply,
      Hashrate(h.value, HashrateFormatter.Units[h.unit]),
      CurrentReward(m.height), p.nextReward, p.nextHalvingBlock, p.blocksRemaining,
      p.progressPct, Truncate(p.targetHalvingTs),
      Round(t.avgBlocksPer24h, 2), Round(t.actualBlockTime, 1))
  }

  /** The script from the fetched bodies to the response, step by step. */
  method ComputeState(f: Fetched) returns (out: StateResponse)
    ensures out == StateOf(f)
  {
    var m := InitialMetrics(f);
    m := ApplySummaryFallback(m, f.summary);
    var avgBlocksPer24h, actualBlockTime := EstimateThroughput(m.height, f.currentBlock, f.oldBlock);
    var currentReward := CurrentReward(m.height);
    var nextIdx := FindNextHalving(m.height);
    var p := ProjectFrom(m.height, nextIdx, actualBlockTime, f.nowMs);
    var value, unit := HashrateFormatter.HumanHashrate(m.hashps);
    out := StateResponse(
      f.nowMs, f.nowMs, m.height, m.difficulty, m.supply, Hashrate(value, unit),
      currentReward, p.nextReward, p.nextHalvingBlock, p.blocksRemaining,
      p.progressPct, Truncate(p.targetHalvingTs),
      Round(avgBlocksPer24h, 2), Round(actualBlockTime, 1));
  }

  /**
   * After the response is written to the cache file, as_of_ms becomes the
   * file's modification time in milliseconds when that time is known and
   * not 0.
   */
  function StampAsOf(out: StateResponse, mtime: Option<int>): (r: StateResponse)
    ensures mtime.Some? && mtime.value != 0 ==> r.asOfMs == mtime.value * 1000
    ensures !(mtime.Some? && mtime.value != 0) ==> r.asOfMs == out.asOfMs
    ensures r.(asOfMs := out.asOfMs) == out
  {
    if mtime.Some? && mtime.value != 0 then out.(asOfMs := mtime.value * 1000) else out
  }

  // ---------------------------------------------------------------------------
  // The cache
  // ---------------------------------------------------------------------------

  /** Seconds a cached response is served for. */
  const CacheTtlSec: int := 5

  /** The cache file: its modification time and its body, None when it cannot be read. */
  datatype CacheFile = CacheFile(mtime: int, body: Option<string>)

  /** The cached body served at time now, if the cache is fresh and readable. */
  function CacheHit(cache: Option<CacheFile>, now: int): (r: Option<string>)
    ensures r.Some? <==> cache.Some? && now - cache.value.mtime < CacheTtlSec && cache.value.body.Some?
    ensures r.Some? ==> r == cache.value.body
  {
    if cache.Some? && now - cache.value.mtime < CacheTtlSec then cache.value.body else None
  }

  // ---------------------------------------------------------------------------
  // Properties of the response
  // ---------------------------------------------------------------------------

  /** A file written at time w is served up to 4 seconds later and recomputed from 5 seconds on. */
  lemma CacheExpiresAfterTtl(w: int, body: string, now: int)
    requires now >= w
    ensures CacheHit(Some(CacheFile(w, Some(body))), now) == if now < w + 5 then Some(body) else None
  {
  }

  lemma RoundedUnitsExact(n: int, digits: nat)
    ensures RoundedUnits(n as real / Pow10(digits) as real, digits) == n
  {
    var p := Pow10(digits) as real;
    assert InUnits(n as real / p, digits) == n as real;
  }

  /** A tie goes away from zero: 600.05 to one decimal is 600.1, and -600.05 is -600.1. */
  lemma RoundTieAwayFromZero()
    ensures Round(600.05, 1) == 600.1
    ensures Round(-600.05, 1) == -600.1
  {
    assert Pow10(1) == 10;
    assert InUnits(600.05, 1) == 6000.5;
    assert InUnits(-600.05, 1) == -6000.5;
  }

  /** Rounding leaves a figure that already has at most the given decimals unchanged. */
  lemma RoundKeepsExact(n: int, digits: nat)
    ensures Round(n as real / Pow10(digits) as real, digits) == n as real / Pow10(digits) as real
  {
    RoundedUnitsExact(n, digits);
  }

  lemma TruncateAtLeast(now: int, x: real)
    requires x >= now as real
    ensures Truncate(x) >= now
  {
  }

  /**
   * The projection part of every response: blocks remaining are never
   * negative, the progress is a percentage, the halving is never due in the
   * past, and without a next halving the projection is the fixed one.
   */
  lemma ProjectionBounds(height: int, actualBlockTime: real, nowMs: int)
    ensures var p := Project(height, actualBlockTime, nowMs);
      && p.blocksRemaining >= 0
      && 0.0 <= p.progressPct <= 100.0
      && Truncate(p.targetHalvingTs) >= nowMs
      && (height >= LastRewardEnd <==> p.blocksRemaining == 0)
      && (height >= LastRewardEnd ==> p.progressPct == 100.0 && Truncate(p.targetHalvingTs) == nowMs && p.nextReward == 0.0)
  {
    var p := Project(height, actualBlockTime, nowMs);
    if height >= LastRewardEnd {
      ProjectExhausted(height, actualBlockTime, nowMs);
    } else {
      ProjectPending(height, actualBlockTime, nowMs);
      var bt := if actualBlockTime > 0.0 then actualBlockTime else 600.0;
      NonNegativeProduct(p.blocksRemaining as real, bt);
      TruncateAtLeast(nowMs, p.targetHalvingTs);
    }
  }

  lemma NonNegativeProduct(a: real, b: real)
    requires a >= 0.0 && b >= 0.0
    ensures a * b * 1000.0 >= 0.0
  {
  }

  /**
   * Facts every response satisfies: both clocks are the request time, the
   * current reward is getCurrentReward of the reported block, the hashrate
   * unit is on the ladder, and the projection bounds above hold.
   */
  lemma ResponseInvariants(f: Fetched)
    ensures var r := StateOf(f);
      && r.serverTime == r.asOfMs == f.nowMs
      && r.currentReward == CurrentReward(r.block)
      && r.hashrate.unit in HashrateFormatter.Units
      && r.blocksRemaining >= 0
      && 0.0 <= r.progressPct <= 100.0
      && r.targetHalvingTs >= f.nowMs
      && (r.block >= LastRewardEnd <==> r.blocksRemaining == 0)
      && (r.block >= LastRewardEnd ==> r.progressPct == 100.0 && r.targetHalvingTs == f.nowMs && r.nextReward == 0.0)
  {
    var m := MergeSummary(InitialMetrics(f), f.summary);
    var t := Estimate(m.height, BlockTime(f.currentBlock), BlockTime(f.oldBlock));
    ProjectionBounds(m.height, t.actualBlockTime, f.nowMs);
  }

  /**
   * When every endpoint answers with a positive whole number the summary
   * plays no part, and the response carries those numbers.
   */
  lemma PlainEndpointsSuffice(f: Fetched, h: nat, d: nat, x: nat, s: nat)
    requires h > 0 && d > 0 && x > 0 && s > 0
    requires f.heightRaw == Some(ShowNat(h)) && f.difficultyRaw == Some(ShowNat(d))
    requires f.hashpsRaw == Some(ShowNat(x)) && f.supplyRaw == Some(ShowNat(s))
    ensures StateOf(f) == StateOf(f.(summary := None))
    ensures StateOf(f).block == h && StateOf(f).difficulty == d as real && StateOf(f).supply == s as real
    ensures StateOf(f).hashrate.value == HashrateFormatter.Humanize(x as real).value
    ensures StateOf(f).hashrate.unit == HashrateFormatter.Units[HashrateFormatter.Humanize(x as real).unit]
  {
    TrimKeepsShowNat(h);
    TrimKeepsShowNat(d);
    TrimKeepsShowNat(x);
    TrimKeepsShowNat(s);
    CastsReadShowNat(h);
    CastsReadShowNat(d);
    CastsReadShowNat(x);
    CastsReadShowNat(s);
    assert Resolved(InitialMetrics(f));
    MergeIdleWhenResolved(InitialMetrics(f), f.summary);
    MergeIdleWhenResolved(InitialMetrics(f), None);
  }

  lemma TrimKeepsShowNat(n: nat)
    ensures Trim(ShowNat(n)) == ShowNat(n)
  {
    var t := ShowNat(n);
    assert !IsTrimSpace(t[0]) && !IsTrimSpace(t[|t| - 1]);
    assert TrimLeft(t) == t;
    assert TrimRight(t) == t;
  }
}
