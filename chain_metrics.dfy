/**
 * Resolving the four chain metrics (height, difficulty, hashes per second,
 * money supply): the plain-text endpoint values, then the explorer's summary
 * record as a fallback for any metric that is still not positive.
 */
module ChainMetricsResolver {
  import opened Wrappers
  import opened NumericNormalizer
  import HashrateFormatter

  /** The explorer's summary record, decoded from JSON. */
  type Summary = map<string, JValue>

  /** PHP's isset on a summary key: present and not null. */
  predicate IsSet(sum: Summary, key: string) {
    key in sum && !sum[key].JNull?
  }

  /**
   * The summary keys that carry the block height, strongest first: the
   * source assigns "height", then "blockcount", then "blocks", so the last
   * one present wins.
   */
  const HeightKeys: seq<string> := ["blocks", "blockcount", "height"]

  /** The first of keys[i..] that is set in sum, as an index into keys. */
  function FirstSetKey(sum: Summary, keys: seq<string>, i: nat): (r: Option<nat>)
    requires i <= |keys|
    ensures r.Some? ==> i <= r.value < |keys| && IsSet(sum, keys[r.value])
    ensures r.Some? ==> forall j :: i <= j < r.value ==> !IsSet(sum, keys[j])
    ensures r.None? ==> forall j :: i <= j < |keys| ==> !IsSet(sum, keys[j])
    decreases |keys| - i
  {
    if i == |keys| then None
    else if IsSet(sum, keys[i]) then Some(i)
    else FirstSetKey(sum, keys, i + 1)
  }

  /** The height the summary supplies, if any: (int) of the strongest height key set. */
  function FallbackHeight(sum: Summary): Option<int> {
    match FirstSetKey(sum, HeightKeys, 0)
    case Some(i) => Some(ToInt(sum[HeightKeys[i]]))
    case None => None
  }

  // ---------------------------------------------------------------------------
  // The pattern ([-+]?[0-9]*\.?[0-9]+)\s*([kMGTPEZY]?H)\/s, case-insensitive
  // ---------------------------------------------------------------------------

  /** The unit prefixes [kMGTPEZY] in either case. */
  predicate IsScaleLetter(c: char) {
    || c == 'k' || c == 'K' || c == 'm' || c == 'M' || c == 'g' || c == 'G' || c == 't' || c == 'T'
    || c == 'p' || c == 'P' || c == 'e' || c == 'E' || c == 'z' || c == 'Z' || c == 'y' || c == 'Y'
  }

  /** The unit prefixes as strtoupper leaves them. */
  predicate IsUnitPrefix(u: char) {
    u == 'K' || u == 'M' || u == 'G' || u == 'T' || u == 'P' || u == 'E' || u == 'Z' || u == 'Y'
  }

  predicate IsH(c: char) { c == 'h' || c == 'H' }

  predicate IsS(c: char) { c == 's' || c == 'S' }

  /** PHP's strtoupper on one ASCII character. */
  function UpperAscii(c: char): (u: char)
    ensures IsH(c) <==> u == 'H'
    ensures IsScaleLetter(c) <==> IsUnitPrefix(u)
    ensures IsS(c) <==> u == 'S'
    ensures c == '/' <==> u == '/'
  {
    if 'a' <= c <= 'z' then (c as int - 32) as char else c
  }

  /** PHP's strtoupper on an ASCII string. */
  function UpperString(w: string): string {
    seq(|w|, i requires 0 <= i < |w| => UpperAscii(w[i]))
  }

  /** strtoupper leaves an upper-cased string as it is. */
  lemma UpperStringIdempotent(w: string)
    ensures UpperString(UpperString(w)) == UpperString(w)
  {
    var u := UpperString(w);
    forall i | 0 <= i < |w|
      ensures UpperAscii(u[i]) == u[i]
    {
      assert u[i] == UpperAscii(w[i]);
    }
  }

  /**
   * The text at j, upper-cased, is a unit of the ladder followed by "/S":
   * a match of ([kMGTPEZY]?H)\/s with key as its upper-cased group.
   */
  predicate UnitAt(s: string, j: nat, key: string) {
    key in LadderKeys && j + |key| + 2 <= |s| && UpperString(s[j..j + |key| + 2]) == key + "/S"
  }

  /**
   * Whether \s*([kMGTPEZY]?H)\/s matches at e, and if so the upper-cased
   * unit group. Backtracking cannot help: fewer spaces leave a space where
   * the unit must start, and no prefix letter is an H.
   */
  function UnitSuffix(s: string, e: nat): (r: Option<string>)
    requires e <= |s|
    ensures r.Some? ==> |r.value| >= 1 && r.value[|r.value| - 1] == 'H'
  {
    var j := SkipSpaces(s, e);
    if j < |s| && IsScaleLetter(s[j]) then
      if j + 3 < |s| && IsH(s[j + 1]) && s[j + 2] == '/' && IsS(s[j + 3]) then
        Some([UpperAscii(s[j]), 'H'])
      else None
    else if j + 2 < |s| && IsH(s[j]) && s[j + 1] == '/' && IsS(s[j + 2]) then
      Some("H")
    else None
  }

  /**
   * The unit suffix matches exactly when a ladder unit followed by "/s"
   * stands after the whitespace, in either case, and it reports that unit
   * upper-cased.
   */
  lemma UnitSuffixIsUnitAt(s: string, e: nat)
    requires e <= |s|
    ensures UnitSuffix(s, e).Some? ==> UnitAt(s, SkipSpaces(s, e), UnitSuffix(s, e).value)
    ensures UnitSuffix(s, e).None? ==> forall key :: !UnitAt(s, SkipSpaces(s, e), key)
  {
    var j := SkipSpaces(s, e);
    UnitAtShapes(s, j);
    if j < |s| && IsScaleLetter(s[j]) {
      if j + 3 < |s| && IsH(s[j + 1]) && s[j + 2] == '/' && IsS(s[j + 3]) {
        UnitAtPrefixed(s, j);
      }
    } else if j + 2 < |s| && IsH(s[j]) && s[j + 1] == '/' && IsS(s[j + 2]) {
      UnitAtPlain(s, j);
    }
  }

  lemma UnitAtPrefixed(s: string, j: nat)
    requires j + 3 < |s| && IsScaleLetter(s[j]) && IsH(s[j + 1]) && s[j + 2] == '/' && IsS(s[j + 3])
    ensures UnitAt(s, j, [UpperAscii(s[j]), 'H'])
  {
    var key := [UpperAscii(s[j]), 'H'];
    var c := UpperAscii(s[j]);
    assert key in LadderKeys by {
      if c == 'K' { assert key == LadderKeys[1]; }
      else if c == 'M' { assert key == LadderKeys[2]; }
      else if c == 'G' { assert key == LadderKeys[3]; }
      else if c == 'T' { assert key == LadderKeys[4]; }
      else if c == 'P' { assert key == LadderKeys[5]; }
      else if c == 'E' { assert key == LadderKeys[6]; }
      else if c == 'Z' { assert key == LadderKeys[7]; }
      else { assert key == LadderKeys[8]; }
    }
    assert UpperString(s[j..j + 4]) == key + "/S";
  }

  lemma UnitAtPlain(s: string, j: nat)
    requires j + 2 < |s| && IsH(s[j]) && s[j + 1] == '/' && IsS(s[j + 2])
    ensures UnitAt(s, j, "H")
  {
    assert "H" == LadderKeys[0];
    assert UpperString(s[j..j + 3]) == "H/S";
  }

  /** Every unit the text at j spells is a plain H or a prefix letter and H, followed by "/s". */
  lemma UnitAtShapes(s: string, j: nat)
    ensures forall key :: UnitAt(s, j, key) ==>
      || (j + 2 < |s| && IsH(s[j]) && s[j + 1] == '/' && IsS(s[j + 2]))
      || (j + 3 < |s| && IsScaleLetter(s[j]) && IsH(s[j + 1]) && s[j + 2] == '/' && IsS(s[j + 3]))
  {
    forall key | UnitAt(s, j, key)
      ensures || (j + 2 < |s| && IsH(s[j]) && s[j + 1] == '/' && IsS(s[j + 2]))
              || (j + 3 < |s| && IsScaleLetter(s[j]) && IsH(s[j + 1]) && s[j + 2] == '/' && IsS(s[j + 3]))
    {
      UnitAtShape(s, j, key);
    }
  }

  lemma UnitAtShape(s: string, j: nat, key: string)
    requires UnitAt(s, j, key)
    ensures || (j + 2 < |s| && IsH(s[j]) && s[j + 1] == '/' && IsS(s[j + 2]))
            || (j + 3 < |s| && IsScaleLetter(s[j]) && IsH(s[j + 1]) && s[j + 2] == '/' && IsS(s[j + 3]))
  {
    var w := UpperString(s[j..j + |key| + 2]);
    if key == "H" {
      assert w[0] == UpperAscii(s[j]) == 'H';
      assert w[1] == UpperAscii(s[j + 1]) == '/';
      assert w[2] == UpperAscii(s[j + 2]) == 'S';
    } else {
      assert |key| == 2 && IsUnitPrefix(key[0]) && key[1] == 'H';
      assert w[0] == UpperAscii(s[j]) == key[0];
      assert w[1] == UpperAscii(s[j + 1]) == 'H';
      assert w[2] == UpperAscii(s[j + 2]) == '/';
      assert w[3] == UpperAscii(s[j + 3]) == 'S';
    }
  }

  /**
   * Where the rate pattern ends when it matches starting at k, with the
   * unit group. A shorter number never lets the unit match (a digit or a '.'
   * would follow it), so the greedy number is the one the match uses.
   */
  function RateAt(s: string, k: nat): (r: Option<(nat, string)>)
    requires k <= |s|
    ensures r.Some? ==> MantissaEnd(s, k) == Some(r.value.0) && UnitSuffix(s, r.value.0) == Some(r.value.1)
    ensures r.Some? <==> MantissaEnd(s, k).Some? && UnitSuffix(s, MantissaEnd(s, k).value).Some?
  {
    match MantissaEnd(s, k)
    case Some(e) =>
      (match UnitSuffix(s, e)
       case Some(u) => Some((e, u))
       case None => None)
    case None => None
  }

  /** After a number shorter than the greedy one the unit never matches, so backtracking finds no other match. */
  lemma ShorterNumberNoUnit(s: string, k: nat, q: nat)
    requires MantissaMatch(s, k, q) && MantissaEnd(s, k).Some? && q < MantissaEnd(s, k).value
    ensures UnitSuffix(s, q).None?
  {
    var f := MantissaEnd(s, k).value;
    NumericBody(s[k..f], q - k);
    assert s[k..f][q - k] == s[q];
    assert SkipSpaces(s, q) == q;
  }

  /**
   * The rate pattern matches at k exactly when some number match from k is
   * followed by a unit, which is what preg_match's backtracking would try;
   * RateAt, taking only the greedy number, misses none of them.
   */
  lemma RateAtIsMatch(s: string, k: nat)
    requires k <= |s|
    ensures RateAt(s, k).Some? <==> exists q: nat :: MantissaMatch(s, k, q) && UnitSuffix(s, q).Some?
  {
    MantissaEndIsGreedy(s, k);
    if RateAt(s, k).Some? {
      var q := MantissaEnd(s, k).value;
      assert MantissaMatch(s, k, q) && UnitSuffix(s, q).Some?;
    } else {
      forall q: nat | MantissaMatch(s, k, q)
        ensures UnitSuffix(s, q).None?
      {
        if MantissaEnd(s, k).Some? && q < MantissaEnd(s, k).value {
          ShorterNumberNoUnit(s, k, q);
        }
      }
    }
  }

  /**
   * The leftmost match of the rate pattern at or after p, as the bounds of
   * the number and the unit group: no position before the one reported, and
   * none at all when nothing is reported, starts a match.
   */
  function FindRate(s: string, p: nat): (r: Option<(nat, nat, string)>)
    requires p <= |s|
    ensures r.Some? ==> p <= r.value.0 <= |s| && RateAt(s, r.value.0) == Some((r.value.1, r.value.2))
    ensures r.Some? ==> forall k :: p <= k < r.value.0 ==> RateAt(s, k).None?
    ensures r.None? ==> forall k :: p <= k <= |s| ==> RateAt(s, k).None?
    decreases |s| - p
  {
    var here := RateAt(s, p);
    if here.Some? then Some((p, here.value.0, here.value.1))
    else if p == |s| then None
    else FindRate(s, p + 1)
  }

  /** v * pow(10, e): a rate in a unit worth 10^e hashes per second. */
  function ScaleBy(v: real, e: nat): real {
    v * Pow10(e) as real
  }

  /** Scaling by a unit never shrinks a rate that is not negative, so a positive rate stays positive. */
  lemma ScaleByGrows(v: real, e: nat)
    requires v >= 0.0
    ensures ScaleBy(v, e) >= v
    ensures v > 0.0 ==> ScaleBy(v, e) > 0.0
  {
    var f := Pow10(e) as real;
    assert f >= 1.0;
    assert v * f - v == v * (f - 1.0);
  }

  /** Every unit group the pattern captures is a key of the table, so the default exponent 0 is never used. */
  lemma UnitSuffixKnownUnit(s: string, e: nat)
    requires e <= |s|
    ensures UnitSuffix(s, e).Some? ==> UnitSuffix(s, e).value in ScaleTable
  {
    var j := SkipSpaces(s, e);
    if UnitSuffix(s, e).Some? && j < |s| && IsScaleLetter(s[j]) {
      var c := s[j];
      assert IsUnitPrefix(UpperAscii(c));
    }
  }

  /** Powers of ten by upper-cased unit. */
  const ScaleTable: map<string, nat> :=
    map["H" := 0, "KH" := 3, "MH" := 6, "GH" := 9, "TH" := 12, "PH" := 15,
        "EH" := 18, "ZH" := 21, "YH" := 24]

  /** The power of ten for a unit; 0 for one not in the table. */
  function ScaleExponent(u: string): (x: nat)
    ensures u in ScaleTable <==> u in LadderKeys
    ensures forall k :: 0 <= k < |LadderKeys| && LadderKeys[k] == u ==> x == 3 * k
    ensures u !in LadderKeys ==> x == 0
  {
    if u in ScaleTable then ScaleTable[u] else 0
  }

  /**
   * The hashes per second a summary's "hashrate" value supplies: a numeric
   * value as is, a string with a rate and unit scaled to H/s, any other
   * string through to_number; no value for other JSON types.
   */
  function FallbackHashrate(hr: JValue): Option<real> {
    if IsNumericValue(hr) then Some(NumericValue(hr))
    else if hr.JStr? then
      if RateValue(hr.s).Some? then RateValue(hr.s) else Some(ToNumber(hr))
    else None
  }

  /** The leftmost rate with a unit in s, converted to hashes per second. */
  function RateValue(s: string): Option<real> {
    match FindRate(s, 0)
    case Some(m) => Some(ScaleBy(ParseNumeric(s[m.0..m.1]), ScaleExponent(m.2)))
    case None => None
  }

  /** A match gives a well-formed number, and RateValue is that number in the matched unit. */
  lemma RateValueOfMatch(s: string, m: (nat, nat, string))
    requires FindRate(s, 0) == Some(m)
    ensures m.0 < m.1 <= |s| && IsNumeric(s[m.0..m.1])
    ensures RateValue(s) == Some(ScaleBy(ParseNumeric(s[m.0..m.1]), ScaleExponent(m.2)))
  {
  }

  // ---------------------------------------------------------------------------
  // The fallback merge
  // ---------------------------------------------------------------------------

  datatype Metrics = Metrics(height: int, difficulty: real, hashps: real, supply: real)

  /** Every metric is positive, so the summary is not consulted. */
  predicate Resolved(m: Metrics) {
    m.height > 0 && m.difficulty > 0.0 && m.hashps > 0.0 && m.supply > 0.0
  }

  /**
   * The metrics after the fallback, field by field: a metric that is not
   * positive takes the summary's value when the summary supplies one.
   */
  function MergeSummary(m: Metrics, sum: Option<Summary>): Metrics {
    match sum
    case None => m
    case Some(s) =>
      Metrics(
        if m.height <= 0 && FallbackHeight(s).Some? then FallbackHeight(s).value else m.height,
        if m.difficulty <= 0.0 && IsSet(s, "difficulty") then ToNumber(s["difficulty"]) else m.difficulty,
        if m.hashps <= 0.0 && IsSet(s, "hashrate") && FallbackHashrate(s["hashrate"]).Some?
        then FallbackHashrate(s["hashrate"]).value else m.hashps,
        if m.supply <= 0.0 && IsSet(s, "supply") then ToNumber(s["supply"]) else m.supply)
  }

  /**
   * The fallback as the script performs it: one reassignment at a time,
   * only when some metric is unresolved and the summary decoded to a record.
   */
  method ApplySummaryFallback(m: Metrics, sum: Option<Summary>) returns (r: Metrics)
    ensures r == MergeSummary(m, sum)
  {
    var height, difficulty, hashps, supply := m.height, m.difficulty, m.hashps, m.supply;
    if height <= 0 || hashps <= 0.0 || difficulty <= 0.0 || supply <= 0.0 {
      if sum.Some? {
        var s := sum.value;
        if height <= 0 {
          if IsSet(s, "height") { height := ToInt(s["height"]); }
          if IsSet(s, "blockcount") { height := ToInt(s["blockcount"]); }
          if IsSet(s, "blocks") { height := ToInt(s["blocks"]); }
          FallbackHeightOrder(s);
        }
        assert height == MergeSummary(m, sum).height;
        if difficulty <= 0.0 && IsSet(s, "difficulty") {
          difficulty := ToNumber(s["difficulty"]);
        }
        if supply <= 0.0 && IsSet(s, "supply") {
          supply := ToNumber(s["supply"]);
        }
        if hashps <= 0.0 && IsSet(s, "hashrate") {
          var hr := s["hashrate"];
          if IsNumericValue(hr) {
            hashps := NumericValue(hr);
          } else if hr.JStr? {
            var rate := FindRate(hr.s, 0);
            if rate.Some? {
              RateValueOfMatch(hr.s, rate.value);
              var v := ParseNumeric(hr.s[rate.value.0..rate.value.1]);
              var exp := ScaleExponent(rate.value.2);
              hashps := ScaleBy(v, exp);
            } else {
              hashps := ToNumber(hr);
            }
          }
          assert hashps == MergeSummary(m, sum).hashps;
        }
      }
    }
    r := Metrics(height, difficulty, hashps, supply);
  }

  // ---------------------------------------------------------------------------
  // Properties of the merge
  // ---------------------------------------------------------------------------

  /** A metric that is already positive is never replaced. */
  lemma MergeKeepsResolvedFields(m: Metrics, sum: Option<Summary>)
    ensures m.height > 0 ==> MergeSummary(m, sum).height == m.height
    ensures m.difficulty > 0.0 ==> MergeSummary(m, sum).difficulty == m.difficulty
    ensures m.hashps > 0.0 ==> MergeSummary(m, sum).hashps == m.hashps
    ensures m.supply > 0.0 ==> MergeSummary(m, sum).supply == m.supply
  {
  }

  /** With every metric resolved, or no summary record, nothing changes. */
  lemma MergeIdleWhenResolved(m: Metrics, sum: Option<Summary>)
    requires Resolved(m) || sum.None?
    ensures MergeSummary(m, sum) == m
  {
  }

  /** Applying the same summary twice is the same as applying it once. */
  lemma MergeIdempotent(m: Metrics, sum: Option<Summary>)
    ensures MergeSummary(MergeSummary(m, sum), sum) == MergeSummary(m, sum)
  {
  }

  /** The summary's height comes from "blocks", else "blockcount", else "height". */
  lemma FallbackHeightOrder(s: Summary)
    ensures FallbackHeight(s) ==
      if IsSet(s, "blocks") then Some(ToInt(s["blocks"]))
      else if IsSet(s, "blockcount") then Some(ToInt(s["blockcount"]))
      else if IsSet(s, "height") then Some(ToInt(s["height"]))
      else None
  {
    var r := FirstSetKey(s, HeightKeys, 0);
    if IsSet(s, "blocks") {
      assert r == Some(0);
    } else if IsSet(s, "blockcount") {
      assert r == Some(1);
    } else if IsSet(s, "height") {
      assert r == Some(2);
    } else {
      assert r.None?;
    }
  }

  /** A summary whose hashrate is a JSON number supplies it unchanged. */
  lemma FallbackHashrateNumber(x: real)
    ensures FallbackHashrate(JNum(x)) == Some(x)
  {
  }

  /** Booleans, arrays and null supply no hashrate; the metric keeps its value. */
  lemma FallbackHashrateIgnoresOtherTypes(hr: JValue)
    requires !hr.JNum? && !hr.JStr?
    ensures FallbackHashrate(hr).None?
  {
  }

  // ---------------------------------------------------------------------------
  // The units table agrees with the formatter's ladder
  // ---------------------------------------------------------------------------

  /** The unit group the pattern captures for each rung of the formatter's ladder, upper-cased. */
  const LadderKeys: seq<string> := ["H", "KH", "MH", "GH", "TH", "PH", "EH", "ZH", "YH"]

  /** Rung k of the ladder is worth 10^(3k), i.e. 1000^k. */
  lemma LadderKeysScale(k: nat)
    requires k < |LadderKeys|
    ensures ScaleExponent(LadderKeys[k]) == 3 * k
  {
  }

  /** 10^(3k) is 1000^k. */
  lemma {:induction false} Pow10Thousands(v: real, k: nat)
    ensures ScaleBy(v, 3 * k) == HashrateFormatter.Scale(v, k)
  {
    if k > 0 {
      Pow10Thousands(v, k - 1);
      assert Pow10(3 * k) == 10 * Pow10(3 * k - 1);
      assert Pow10(3 * k - 1) == 10 * Pow10(3 * k - 2);
      assert Pow10(3 * k - 2) == 10 * Pow10(3 * (k - 1));
      ThousandStep(v, Pow10(3 * (k - 1)) as real);
    }
  }

  lemma ThousandStep(v: real, p: real)
    ensures v * (1000.0 * p) == 1000.0 * (v * p)
  {
  }

  /**
   * The pattern reads each formatter unit back after a number and a space:
   * the unit group is rung k's key.
   */
  lemma UnitSuffixReadsLadder(d: string, k: nat)
    requires k < |HashrateFormatter.Units|
    ensures UnitSuffix(d + " " + HashrateFormatter.Units[k], |d|) == Some(LadderKeys[k])
  {
    var u := HashrateFormatter.Units[k];
    var t := d + " " + u;
    assert t[|d|] == ' ';
    assert t[|d| + 1..] == u;
    assert t[|d| + 1] == u[0];
    assert SkipSpaces(t, |d| + 1) == |d| + 1;
    assert SkipSpaces(t, |d|) == |d| + 1;
    if k > 0 {
      assert |u| == 4 && t[|d| + 2] == u[1] && t[|d| + 3] == u[2] && t[|d| + 4] == u[3];
    } else {
      assert |u| == 3 && t[|d| + 2] == u[1] && t[|d| + 3] == u[2];
    }
  }

  /** Digits followed by a space: the mantissa match is exactly the digits. */
  lemma DigitsThenSpace(d: string, rest: string)
    requires |d| >= 1 && AllDigits(d)
    ensures MantissaEnd(d + " " + rest, 0) == Some(|d|)
    ensures (d + " " + rest)[0..|d|] == d
    ensures !IsNumeric(d + " " + rest)
  {
    var t := d + " " + rest;
    assert t[0] == d[0] && !IsSign(t[0]);
    assert forall i :: 0 <= i < |d| ==> t[i] == d[i];
    assert t[|d|] == ' ';
    DigitRunDigits(t, 0);
    assert DigitRun(t, 0) == |d|;
    assert t[0..|d|] == d;
  }

  /** Digits, a space and a unit the pattern accepts: the digits scaled by the unit's power of ten. */
  lemma FallbackHashrateDigitsUnit(d: string, u: string, key: string)
    requires |d| >= 1 && AllDigits(d)
    requires UnitSuffix(d + " " + u, |d|) == Some(key)
    ensures FallbackHashrate(JStr(d + " " + u)) == Some(ScaleBy(DigitsValue(d) as real, ScaleExponent(key)))
  {
    var t := d + " " + u;
    DigitsThenSpace(d, u);
    assert FindRate(t, 0) == Some((0, |d|, key));
    RateValueOfMatch(t, (0, |d|, key));
    AllDigitsIsNumeric(d);
  }

  /**
   * A whole number written in any unit of the formatter's ladder, as
   * "<n> <unit>", is read back as n * 1000^k hashes per second.
   */
  lemma FallbackHashrateReadsLadder(n: nat, k: nat)
    requires k < |HashrateFormatter.Units|
    ensures FallbackHashrate(JStr(ShowNat(n) + " " + HashrateFormatter.Units[k]))
         == Some(HashrateFormatter.Scale(n as real, k))
  {
    var d := ShowNat(n);
    UnitSuffixReadsLadder(d, k);
    FallbackHashrateDigitsUnit(d, HashrateFormatter.Units[k], LadderKeys[k]);
    LadderKeysScale(k);
    DigitsValueOfShowNat(n);
    Pow10Thousands(n as real, k);
  }

  /**
   * Formatter and fallback agree: when human_hashrate reports a whole
   * number n in unit k, the string "<n> <unit>" reads back as the original
   * hashes per second.
   */
  lemma HumanizedRateReadsBack(h: real, n: nat)
    requires HashrateFormatter.Humanize(h).value == n as real
    ensures FallbackHashrate(JStr(ShowNat(n) + " " + HashrateFormatter.Units[HashrateFormatter.Humanize(h).unit]))
         == Some(h)
  {
    HashrateFormatter.HumanizeChoosesUnit(h);
    FallbackHashrateReadsLadder(n, HashrateFormatter.Humanize(h).unit);
  }
}
