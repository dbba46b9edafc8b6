# FixedCoin halving and network-state endpoint, modelled in Dafny

`fixedcoin_summary.php` is a PHP endpoint for the FixedCoin chain. It serves
one JSON record, cached for 5 seconds. It reads the block height, difficulty,
network hashes per second and money supply from an eIquidus explorer. Any of
these that is still not positive is filled from the explorer's summary record.
It then measures the average block time over the last 100 blocks and formats
the hashrate on a unit ladder from H/s to YH/s. Finally it computes the block
reward and the next halving of FixedCoin's custom schedule, with the progress
toward that halving and the time it is due.

This project models that logic and proves properties of it. It has one module
per concern, one file each:

- `numeric_normalizer.dfy`, module `NumericNormalizer`. It models `to_number`
  and PHP's `(int)` and `(float)` casts, `trim`, `is_numeric`, and the
  leftmost match of the number pattern. All of them work over a simplified
  number grammar: an optional sign, digits, and at most one decimal point,
  with no exponent.
- `hashrate_formatter.dfy`, module `HashrateFormatter`. It models
  `human_hashrate`. The loop is a method, proved against the recursive
  function `Humanize`.
- `chain_metrics.dfy`, module `ChainMetricsResolver`. It models the summary
  fallback:
  - the key precedence for the height;
  - the regular expression that reads a hashrate with a unit, modelled
    exactly;
  - the unit-to-power-of-ten table.
  `ApplySummaryFallback` does the script's step-by-step reassignments. It is
  proved equal to the field-wise function `MergeSummary`.
- `throughput.dfy`, module `ThroughputEstimator`. It models the
  blocks-per-24h and block-time measurement. The method that defaults and
  then overwrites is proved against `Estimate`.
- `halving_schedule.dfy`, module `HalvingSchedule`. It holds:
  - the halving table and `getCurrentReward`;
  - the search for the next halving, a loop with an early exit proved against
    `NextHalvingIndex`;
  - the projection: next reward, next halving block, blocks remaining,
    clamped progress, and the target timestamp.
- `state_response.dfy`, module `ResponseAssembler`. `ComputeState` runs the
  script's flow, from the fetched endpoint bodies to the response record, and
  is proved equal to `StateOf`. The module also holds PHP's `round`, the
  cache freshness test and the `as_of_ms` re-stamp.
- `wrappers.dfy`, module `Wrappers`: an `Option` type.

The model uses exact `real` arithmetic in place of IEEE doubles, and unbounded
`int` in place of PHP's 64-bit integers. PHP's casts are written out: `(int)`
of a float truncates toward zero, and `floor` of a non-negative quotient is
Dafny's `/`. The network, the clocks and the file system are not modelled.
Their results are parameters: an `Option` that is `None` when a request
fails, and the time in milliseconds or seconds.

## Model

| member | source | states |
|---|---|---|
| NumericNormalizer.TrimLeft | fixedcoin_summary.php:70 | The result is a suffix of the input, everything dropped is a character `trim` strips, and the result does not start with one |
| NumericNormalizer.TrimRight | fixedcoin_summary.php:70 | The result is a prefix of the input, everything dropped is a character `trim` strips, and the result does not end with one |
| NumericNormalizer.Trim | fixedcoin_summary.php:70 | `trim`: no longer than the input, neither starting nor ending with a character `trim` strips, and a string without such ends is unchanged |
| NumericNormalizer.FirstToken | fixedcoin_summary.php:71-72 | The first piece of `preg_split('/\s+/')`: a prefix without whitespace that ends at the string's end or at a whitespace character |
| NumericNormalizer.StripSeparators | fixedcoin_summary.php:73 | No comma or space is left, every kept character comes from the token, and a token without separators is unchanged |
| NumericNormalizer.IsNumeric | fixedcoin_summary.php:68 | Defines `is_numeric` on a string: an optional sign, then digits with at most one point and at least one digit; ParseDecimal and GroupedNumeralCandidate state which strings it accepts |
| NumericNormalizer.ParseNumeric | fixedcoin_summary.php:68 | Defines `(float)` of a numeric string as its exact decimal value; ParseDecimal states it independently |
| NumericNormalizer.IsNumericValue | fixedcoin_summary.php:68 | Defines `is_numeric` on a decoded JSON value (also applied to the summary hashrate at line 112): a number, or a string `is_numeric` accepts; NumericValueKinds states which values it accepts |
| NumericNormalizer.NumericValue | fixedcoin_summary.php:68 | Defines `(float)` of a value `is_numeric` accepts (also at line 113): the number itself, or the string's decimal value; NumericValueKinds states its value |
| NumericNormalizer.NumericValueKinds | fixedcoin_summary.php:112-113 | Every JSON number is accepted and `(float)` keeps it; null, booleans and arrays are refused; the decimal text of a natural is accepted and reads as that natural |
| NumericNormalizer.MantissaEnd | fixedcoin_summary.php:75 | A match of `[-+]?[0-9]*\.?[0-9]+` at p: a reported end lies past p, within the string, and the slice up to it is numeric and ends in a digit |
| NumericNormalizer.MantissaEndIsGreedy | fixedcoin_summary.php:75 | The match `MantissaEnd` reports is the greedy one: it is a match, no longer slice from p is one, and nothing is reported exactly when no slice from p matches |
| NumericNormalizer.LeftmostMantissa | fixedcoin_summary.php:75 | `preg_match` takes the leftmost match: a match starts at the reported position, none starts earlier, and none at all when nothing is reported |
| NumericNormalizer.NumberCandidate | fixedcoin_summary.php:70-78 | Defines the string `to_number` tries: the first token without separators, else the leftmost number in the trimmed string; GroupedNumeralCandidate and NoDigitReadsZero state it |
| NumericNormalizer.ToNumber | fixedcoin_summary.php:67-80 | Defines `to_number`; the ToNumber lemmas and NoDigitReadsZero state what it reads |
| NumericNormalizer.SkipSpaces | fixedcoin_summary.php:86 | The casts stop at the first character that is not whitespace, or at the end |
| NumericNormalizer.SkipSpacesSkipped | fixedcoin_summary.php:86 | Everything the casts skip is whitespace, so together with `SkipSpaces` they skip exactly the leading whitespace |
| NumericNormalizer.StringToInt | fixedcoin_summary.php:86 | Defines `(int)` of a string: the signed digits after leading whitespace, 0 without them; CastsReadShowNat states it |
| NumericNormalizer.StringToFloat | fixedcoin_summary.php:89-95 | Defines `(float)` of a string: the leading number after whitespace, 0.0 without one; CastsReadShowNat states it |
| NumericNormalizer.Truncate | fixedcoin_summary.php:277 | `(int)` of a float truncates toward zero: the result has the input's sign and lies within 1 of the input, on the side toward zero |
| NumericNormalizer.ToInt | fixedcoin_summary.php:102-104 | Defines `(int)` of a decoded JSON value, for null, booleans, numbers, strings and arrays; FallbackHeightOrder uses it |
| NumericNormalizer.ToNumberReadsShowNat | fixedcoin_summary.php:67-80 | A natural number written in decimal reads back through `to_number` as itself |
| NumericNormalizer.ToNumberReadsNegative | fixedcoin_summary.php:67-80 | A negative number written with a leading minus reads back as itself |
| NumericNormalizer.CastsReadShowNat | fixedcoin_summary.php:86-95 | `(int)` and `(float)` of a written natural number give that number |
| NumericNormalizer.NoDigitReadsZero | fixedcoin_summary.php:67-80 | A string without any digit reads as the unresolved sentinel 0.0 |
| NumericNormalizer.ParseDecimal | fixedcoin_summary.php:68 | `a.b` made of digit strings is numeric, and its `(float)` is the decimal value a + b / 10^(number of digits of b) |
| NumericNormalizer.FirstTokenStopsAtSpace | fixedcoin_summary.php:71-72 | A token without whitespace followed by whitespace is exactly the first piece |
| NumericNormalizer.StripSeparatorsAppend | fixedcoin_summary.php:73 | Removing separators distributes over concatenation |
| NumericNormalizer.GroupedNumeralCandidate | fixedcoin_summary.php:70-78 | `"<a>,<b>.<c> <unit>"` is not numeric as a whole, and the string `to_number` parses is `<a><b>.<c>` |
| NumericNormalizer.ToNumberDropsSeparatorsAndUnit | fixedcoin_summary.php:67-80 | `"<a>,<b>.<c> <unit>"` reads as the decimal numeral `<a><b>.<c>`: the thousands separator is dropped and the trailing unit ignored |
| NumericNormalizer.ToNumberSeparatorExample | fixedcoin_summary.php:67-80 | `"1,234.5 USD"` reads as 1234.5 |
| NumericNormalizer.ToNumberPlainExamples | fixedcoin_summary.php:67-69 | `"abc"` reads as 0.0, and a JSON number is taken as it is |
| HashrateFormatter.HumanizeFrom | fixedcoin_summary.php:178 | The loop never leaves the 9-unit ladder: the unit index stays between its start and YH/s |
| HashrateFormatter.HumanizeFromStopsBelow | fixedcoin_summary.php:178 | On exit the value is below 1000 unless the unit is YH/s |
| HashrateFormatter.HumanizeFromScalesBack | fixedcoin_summary.php:178 | Scaling the result back up by 1000 per unit climbed gives the starting value, so the divisions lose nothing |
| HashrateFormatter.HumanizeFromReaches | fixedcoin_summary.php:178 | Every unit climbed was reached: the starting value is at least 1000 to the number of units climbed |
| HashrateFormatter.Humanize | fixedcoin_summary.php:176-181 | The reported unit index is a valid index into the ladder |
| HashrateFormatter.ScaleDown | fixedcoin_summary.php:177-178 | The while loop stops at the value and unit index `Humanize` specifies |
| HashrateFormatter.HumanHashrate | fixedcoin_summary.php:175-184 | `human_hashrate` returns the value and the unit name of `Humanize` |
| HashrateFormatter.HumanizeChoosesUnit | fixedcoin_summary.php:175-184 | The unit is the largest one the figure reaches, up to YH/s: the figure is at least 1000^unit (unless H/s), below 1000^(unit+1) (unless YH/s), and the value is the figure in that unit |
| HashrateFormatter.HumanizeSmall | fixedcoin_summary.php:178 | Figures below 1000, including 0 and negatives, stay unscaled in H/s |
| HashrateFormatter.HumanizeClamps | fixedcoin_summary.php:178 | Figures of 1000^8 and more are clamped to YH/s |
| HashrateFormatter.HumanizeInvertsScaling | fixedcoin_summary.php:175-181 | Any value in [1, 1000) taken to any unit is reported back as that value in that unit |
| HashrateFormatter.HumanizeExamples | fixedcoin_summary.php:176-181 | 0 is reported as 0 H/s and 1,500,000 as 1.5 MH/s |
| ChainMetricsResolver.FirstSetKey | fixedcoin_summary.php:101-105 | The reported key is set and no earlier key is set; no key is set when none is reported |
| ChainMetricsResolver.IsSet | fixedcoin_summary.php:102-110 | Defines `isset` on a summary key: present and not null |
| ChainMetricsResolver.FallbackHeight | fixedcoin_summary.php:101-105 | Defines the height the summary supplies, from the strongest height key set; FallbackHeightOrder states the order |
| ChainMetricsResolver.FallbackHeightOrder | fixedcoin_summary.php:101-105 | The summary's height comes from `blocks`, else `blockcount`, else `height`, cast with `(int)` |
| ChainMetricsResolver.UpperAscii | fixedcoin_summary.php:115-117 | `strtoupper` on one character, as the case-insensitive unit needs it: it gives `H` exactly for `h` and `H`, one of `KMGTPEZY` exactly for the prefix letters in either case, `S` exactly for `s` and `S`, and `/` only for `/` |
| ChainMetricsResolver.UpperString | fixedcoin_summary.php:117 | Defines `strtoupper` on the captured unit, character by character; UpperAscii's contract, UnitSuffixIsUnitAt and UpperStringIdempotent state what it gives |
| ChainMetricsResolver.UpperStringIdempotent | fixedcoin_summary.php:117 | Upper-casing an upper-cased string leaves it as it is |
| ChainMetricsResolver.UnitSuffix | fixedcoin_summary.php:115-117 | `\s*([kMGTPEZY]?H)\/s` at e, case-insensitively: a reported unit is a non-empty group ending in `H` |
| ChainMetricsResolver.UnitSuffixIsUnitAt | fixedcoin_summary.php:115-117 | `UnitSuffix` reports a unit exactly when the text after the whitespace, upper-cased, is a ladder unit followed by `/S`, and the unit it reports is that upper-cased group |
| ChainMetricsResolver.RateAt | fixedcoin_summary.php:115 | The rate pattern matches at k exactly when the number match at k is followed by a unit match, and then it reports the number's end and the unit |
| ChainMetricsResolver.RateAtIsMatch | fixedcoin_summary.php:115 | The rate pattern matches at k exactly when some number match from k, not only the greedy one, is followed by a unit, so taking the greedy number loses no match that backtracking would find |
| ChainMetricsResolver.ShorterNumberNoUnit | fixedcoin_summary.php:115 | Backtracking to a shorter number never lets the unit match, so the greedy number is the one the pattern's match uses |
| ChainMetricsResolver.FindRate | fixedcoin_summary.php:115 | `preg_match` takes the leftmost match: the reported match starts at or after the search position, the pattern matches there with the reported bounds and unit, it matches at no earlier position, and it matches nowhere when nothing is reported |
| ChainMetricsResolver.UnitSuffixKnownUnit | fixedcoin_summary.php:117-124 | Every unit the pattern can capture is in the scale table, so the default exponent 0 is never used for a match |
| ChainMetricsResolver.ScaleExponent | fixedcoin_summary.php:118-124 | The table holds exactly the ladder's units; rung k of the ladder (H, KH, … YH) gets exponent 3k, and any other unit gets 0 |
| ChainMetricsResolver.RateValueOfMatch | fixedcoin_summary.php:115-125 | The matched number is numeric, and the rate is its `(float)` times 10^exponent of the matched unit |
| ChainMetricsResolver.ScaleTable | fixedcoin_summary.php:118-122 | Defines the scale map, unit by unit; ScaleExponent states that its keys are exactly the ladder's units with 3k at rung k |
| ChainMetricsResolver.ScaleBy | fixedcoin_summary.php:124 | Defines `$v * pow(10, $exp)`; ScaleByGrows, RateValueOfMatch and Pow10Thousands state its value |
| ChainMetricsResolver.ScaleByGrows | fixedcoin_summary.php:124 | Scaling a rate that is not negative never shrinks it, so a positive rate stays positive |
| ChainMetricsResolver.RateValue | fixedcoin_summary.php:115-124 | Defines the rate with a unit in hashes per second; RateValueOfMatch and FallbackHashrateReadsLadder state its value |
| ChainMetricsResolver.FallbackHashrate | fixedcoin_summary.php:110-129 | Defines the hashrate the summary supplies: a number as is, a rate with a unit scaled, other text through `to_number`, nothing for other types; the FallbackHashrate lemmas state it |
| ChainMetricsResolver.MergeSummary | fixedcoin_summary.php:98-131 | Defines the fallback field by field; MergeKeepsResolvedFields, MergeIdleWhenResolved and MergeIdempotent state its properties |
| ChainMetricsResolver.Resolved | fixedcoin_summary.php:98 | Defines the guard: every metric is positive, so no summary is fetched; MergeIdleWhenResolved and MergeKeepsResolvedFields state what follows from it |
| ChainMetricsResolver.ApplySummaryFallback | fixedcoin_summary.php:98-131 | The script's reassignments give the field-wise merge `MergeSummary` |
| ChainMetricsResolver.MergeKeepsResolvedFields | fixedcoin_summary.php:101-110 | A metric that is already positive is never replaced |
| ChainMetricsResolver.MergeIdleWhenResolved | fixedcoin_summary.php:98-100 | With every metric positive, or no summary record, nothing changes |
| ChainMetricsResolver.MergeIdempotent | fixedcoin_summary.php:98-131 | Applying the same summary twice is the same as applying it once |
| ChainMetricsResolver.FallbackHashrateNumber | fixedcoin_summary.php:112-113 | A hashrate given as a JSON number is taken unchanged |
| ChainMetricsResolver.FallbackHashrateIgnoresOtherTypes | fixedcoin_summary.php:110-131 | A boolean, an array or null gives no hashrate, so the metric keeps its value |
| ChainMetricsResolver.LadderKeysScale | fixedcoin_summary.php:119-124 | The unit of rung k of the formatter's ladder is worth 10^(3k) |
| ChainMetricsResolver.Pow10Thousands | fixedcoin_summary.php:125 | Multiplying by `pow(10, 3k)` is scaling by 1000, k times |
| ChainMetricsResolver.UnitSuffixReadsLadder | fixedcoin_summary.php:115 | After a space, each unit name the formatter prints is captured as that rung's key |
| ChainMetricsResolver.FallbackHashrateDigitsUnit | fixedcoin_summary.php:114-125 | `"<digits> <unit>"` reads as the digits times 10^exponent of the captured unit |
| ChainMetricsResolver.FallbackHashrateReadsLadder | fixedcoin_summary.php:114-125 | A whole number n followed by the ladder unit k reads as n * 1000^k hashes per second |
| ChainMetricsResolver.HumanizedRateReadsBack | fixedcoin_summary.php:115-125 | The fallback reads back the value and unit `human_hashrate` reports, written as `<n> <unit>`: when that value is a whole number n, the text gives the original hashes per second (the three-decimal `human` string itself is not what is read) |
| ThroughputEstimator.Estimate | fixedcoin_summary.php:136-170 | Both figures are always positive |
| ThroughputEstimator.BlockTime | fixedcoin_summary.php:151-156 | Defines a fetched block's timestamp: `(int)` of `time`, 0 when unset, none when the block is missing |
| ThroughputEstimator.Measurable | fixedcoin_summary.php:139-158 | Defines when a measurement is taken: at least 100 blocks, both timestamps positive, and time moving forward; the Estimate lemmas state both branches |
| ThroughputEstimator.EstimateThroughput | fixedcoin_summary.php:136-170 | Defaulting, measuring and then falling back gives exactly `Estimate` |
| ThroughputEstimator.EstimateCoversOneDay | fixedcoin_summary.php:160-169 | Blocks per day times seconds per block is always 86400 |
| ThroughputEstimator.EstimateDefaultsToTarget | fixedcoin_summary.php:136-170 | Without a usable measurement the figures are 144 blocks of 600 seconds |
| ThroughputEstimator.EstimateMeasures | fixedcoin_summary.php:158-161 | With a measurement, the block time is the elapsed seconds over 100 blocks |
| ThroughputEstimator.ShortChainUsesTarget | fixedcoin_summary.php:139 | Chains shorter than 100 blocks are never measured |
| ThroughputEstimator.StalledClockUsesTarget | fixedcoin_summary.php:158 | Timestamps that do not move forward are ignored |
| ThroughputEstimator.TargetPaceMatchesDefault | fixedcoin_summary.php:158-169 | Blocks at exactly the 600-second pace give the same figures as the default |
| ThroughputEstimator.FasterBlocksMoreDaily | fixedcoin_summary.php:160-161 | A shorter span over the same 100 blocks gives more blocks per day |
| HalvingSchedule.CurrentReward | fixedcoin_summary.php:204-224 | The reward is never negative, and it is 0 exactly from block 113400 on |
| HalvingSchedule.RewardAtStart | fixedcoin_summary.php:205-207 | Genesis pays 1, the premine block 1 pays 1600, and blocks 2 to 4199 pay 1 |
| HalvingSchedule.RewardClosedForm | fixedcoin_summary.php:207-221 | From block 2 to 113399 the reward is 1 / 2^(height div 4200): the table's tiers and the continued halvings follow one rule |
| HalvingSchedule.RewardHalvesAtBoundary | fixedcoin_summary.php:207-221 | At every multiple of 4200 below 113400 the reward is exactly half the previous block's |
| HalvingSchedule.RewardNonIncreasing | fixedcoin_summary.php:204-224 | From height 2 on the reward never grows |
| HalvingSchedule.TableIncreasing | fixedcoin_summary.php:189-199 | The table's halving blocks strictly increase |
| HalvingSchedule.Halvings | fixedcoin_summary.php:189-199 | The schedule table, row for row; TableIncreasing, TableAgreesWithReward and RewardFromTable state its consistency |
| HalvingSchedule.TableAgreesWithReward | fixedcoin_summary.php:189-214 | Each row's reward is what `getCurrentReward` gives at the row's block |
| HalvingSchedule.RewardFromTable | fixedcoin_summary.php:189-214 | From block 4200 to 33599 the reward is that of the last table row at or below the height, the row just before the next halving |
| HalvingSchedule.NextHalvingIndex | fixedcoin_summary.php:229-235 | The reported row is the first whose block lies above the height; none is reported exactly when every block is at or below it |
| HalvingSchedule.FindNextHalving | fixedcoin_summary.php:229-235 | The loop with `break` finds `NextHalvingIndex` |
| HalvingSchedule.ProjectFrom | fixedcoin_summary.php:237-258 | Defines the projection from the search result; ProjectExhausted and ProjectPending state both branches |
| HalvingSchedule.Project | fixedcoin_summary.php:228-258 | Defines the projection at a height: the search, then ProjectFrom |
| HalvingSchedule.NextIsFirst | fixedcoin_summary.php:230-233 | The row where the scan breaks is the first row above the height |
| HalvingSchedule.NoNextHalvingIffExhausted | fixedcoin_summary.php:229-237 | No next halving is found exactly when the height is 113400 or more |
| HalvingSchedule.ProjectExhausted | fixedcoin_summary.php:237-243 | After all halvings the projection is reward 0, block 113400, 0 remaining, 100 percent, due now |
| HalvingSchedule.ProjectPending | fixedcoin_summary.php:244-258 | Before 113400: blocks remain, progress is in [0, 100), the next reward is `getCurrentReward` at the next block and below the current one, and the halving is due blocksRemaining block times from now |
| HalvingSchedule.NextRewardBelowCurrent | fixedcoin_summary.php:245-247 | The next row's reward is below the current reward |
| HalvingSchedule.ProjectTail | fixedcoin_summary.php:215-247 | From block 33600 the continued halvings are not table rows: the projection names block 113400 and reward 0 while rewards continue |
| HalvingSchedule.ProgressFromBlockTwo | fixedcoin_summary.php:251-254 | Before the first halving, the previous boundary is block 2, so heights up to 2 show 0 percent toward block 4200 |
| HalvingSchedule.ProgressWithinInterval | fixedcoin_summary.php:250-254 | Between the table's rows, progress is the share of the 4200-block interval already mined |
| HalvingSchedule.ScenarioHeightFifty | fixedcoin_summary.php:204-258 | At height 50 with 600-second blocks: reward 1, halving 4200 with reward 0.5, 4150 blocks and 2,490,000,000 ms away |
| HalvingSchedule.ScenarioFirstHalving | fixedcoin_summary.php:204-254 | At height 4200 the reward has just halved, and progress toward 8400 starts again at 0 |
| ResponseAssembler.Round | fixedcoin_summary.php:280-281 | `round(x, d)` is a whole number of 10^-d units |
| ResponseAssembler.RoundedUnits | fixedcoin_summary.php:280-281 | The number of units is within half a unit of x, and a tie goes away from zero |
| ResponseAssembler.RoundTieAwayFromZero | fixedcoin_summary.php:281 | 600.05 rounds to 600.1 at one decimal, and -600.05 to -600.1 |
| ResponseAssembler.RoundKeepsExact | fixedcoin_summary.php:280-281 | A figure that already has at most d decimals is unchanged by rounding |
| ResponseAssembler.InitialMetrics | fixedcoin_summary.php:85-95 | Defines the metrics read from the plain-text endpoints: the casts of the trimmed bodies, 0 when a request failed; PlainEndpointsSuffice states it |
| ResponseAssembler.StateOf | fixedcoin_summary.php:85-282 | Defines the response from the specifications of each step; ResponseInvariants and PlainEndpointsSuffice state its properties |
| ResponseAssembler.ComputeState | fixedcoin_summary.php:85-282 | The script, from the fetched bodies to the response record, gives `StateOf` of what was fetched |
| ResponseAssembler.StampAsOf | fixedcoin_summary.php:293-296 | `as_of_ms` becomes the cache file's modification time in milliseconds when that time is known and not 0; nothing else changes |
| ResponseAssembler.CacheHit | fixedcoin_summary.php:37-43 | The cached body is served exactly when the file exists, is younger than the 5-second TTL, and can be read |
| ResponseAssembler.CacheExpiresAfterTtl | fixedcoin_summary.php:17-43 | A file written at second w is served until w + 4 and recomputed from w + 5 on |
| ResponseAssembler.ProjectionBounds | fixedcoin_summary.php:237-277 | Blocks remaining are never negative, progress is a percentage, the target time is never before now, and no blocks remain exactly from 113400 on, where progress is 100, the target is now and the next reward is 0 |
| ResponseAssembler.ResponseInvariants | fixedcoin_summary.php:264-282 | In the computed response (before StampAsOf) both clocks are the request time, the current reward is `getCurrentReward` of the reported block, the unit is on the ladder, and the projection bounds hold |
| ResponseAssembler.PlainEndpointsSuffice | fixedcoin_summary.php:85-105 | When every plain-text endpoint answers with a positive whole number, the response is the same with or without the summary, and it reports those numbers as block, difficulty, supply and formatted hashrate |
| ResponseAssembler.TrimKeepsShowNat | fixedcoin_summary.php:86 | Trimming a written number leaves it unchanged |

## Left out

- HTTP: `http_get`, `http_get_json` and every endpoint call, including the
  block-hash fetches. Each fetched body is a parameter, `None` when the
  request fails. The two block lookups become one optional block each.
- JSON decoding and encoding, `echo` and the response headers. A decoded
  value is the `JValue` datatype, which keeps only an array's element count.
  Failure of `json_encode` is not modelled.
- The cache file: `is_file`, `filemtime`, `file_get_contents`,
  `file_put_contents` with `LOCK_EX`, and `mkdir`. Only the freshness test and
  the `as_of_ms` re-stamp are modelled, with the clock and the file's state as
  parameters. Concurrent requests are not modelled.
- `microtime` and `time`: the request time is a parameter.
- Floating point: all arithmetic is exact, so IEEE rounding, `sprintf('%.3f')`
  and how PHP prints floats in JSON are not modelled.
- PHP integer limits: `int` is unbounded, so 64-bit overflow of the height or
  of the timestamps is not modelled.
- Number grammar: `is_numeric`, the casts and the number pattern of
  `to_number` have no exponent part (`1e3`). `is_numeric` is modelled without
  the leading and trailing whitespace PHP allows. For `to_number` this gives
  the same result, because such a string reaches the same number through
  `trim` and the first token.
- HashrateFormatter.HumanHashrate: the `human` string built with
  `sprintf('%.3f %s')` is not produced; the value and the unit are.
- ResponseAssembler.ComputeState: the response leaves out the `human` string
  and does not tell PHP's int and float results apart (for example `0` from
  `0.0`).
- ResponseAssembler.Round: PHP's pre-rounding of doubles is not modelled;
  halves round away from zero on exact values.
