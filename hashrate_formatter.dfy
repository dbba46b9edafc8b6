/**
 * human_hashrate: scales a hashes-per-second figure down by 1000 at a time
 * until it is below 1000 or the largest unit of the ladder is reached.
 */
module HashrateFormatter {

  /** The unit ladder, smallest first. */
  const Units: seq<string> := ["H/s", "kH/s", "MH/s", "GH/s", "TH/s", "PH/s", "EH/s", "ZH/s", "YH/s"]

  /** The index of the largest unit, YH/s. */
  const TopUnit: nat := 8

  /** v taken up n units of the ladder: v * 1000^n. */
  function Scale(v: real, n: nat): real {
    if n == 0 then v else 1000.0 * Scale(v, n - 1)
  }

  /** Scaling up never shrinks a figure of at least 1. */
  lemma {:induction false} ScaleGrows(v: real, n: nat)
    requires v >= 1.0
    ensures Scale(v, n) >= v
  {
    if n > 0 {
      ScaleGrows(v, n - 1);
    }
  }

  /** A scaled figure: value in the unit whose ladder index is unit. */
  datatype Scaled = Scaled(value: real, unit: nat)

  /**
   * The loop of human_hashrate started with value h at ladder index idx: it
   * stays on the ladder.
   */
  function HumanizeFrom(h: real, idx: nat): (r: Scaled)
    requires idx <= TopUnit
    ensures idx <= r.unit <= TopUnit
    decreases TopUnit - idx
  {
    if h >= 1000.0 && idx < TopUnit then HumanizeFrom(h / 1000.0, idx + 1) else Scaled(h, idx)
  }

  /** The loop stops below 1000 unless the top unit is reached. */
  lemma {:induction false} HumanizeFromStopsBelow(h: real, idx: nat)
    requires idx <= TopUnit
    ensures HumanizeFrom(h, idx).value < 1000.0 || HumanizeFrom(h, idx).unit == TopUnit
    decreases TopUnit - idx
  {
    if h >= 1000.0 && idx < TopUnit {
      HumanizeFromStopsBelow(h / 1000.0, idx + 1);
    }
  }

  /** Scaling the loop's result back up to the starting unit gives the starting value. */
  lemma {:induction false} HumanizeFromScalesBack(h: real, idx: nat)
    requires idx <= TopUnit
    ensures Scale(HumanizeFrom(h, idx).value, HumanizeFrom(h, idx).unit - idx) == h
    decreases TopUnit - idx
  {
    if h >= 1000.0 && idx < TopUnit {
      var r := HumanizeFrom(h / 1000.0, idx + 1);
      HumanizeFromScalesBack(h / 1000.0, idx + 1);
      assert HumanizeFrom(h, idx) == r;
      assert Scale(r.value, r.unit - idx) == 1000.0 * Scale(r.value, r.unit - (idx + 1));
    }
  }

  /** Every division the loop performs is justified: each unit it climbs, h had reached. */
  lemma {:induction false} HumanizeFromReaches(h: real, idx: nat)
    requires idx <= TopUnit
    ensures HumanizeFrom(h, idx).unit > idx ==> h >= Scale(1.0, HumanizeFrom(h, idx).unit - idx)
    decreases TopUnit - idx
  {
    if h >= 1000.0 && idx < TopUnit {
      var r := HumanizeFrom(h / 1000.0, idx + 1);
      HumanizeFromReaches(h / 1000.0, idx + 1);
      assert HumanizeFrom(h, idx) == r;
      assert Scale(1.0, r.unit - idx) == 1000.0 * Scale(1.0, r.unit - (idx + 1));
    }
  }

  /** The unit and scaled value human_hashrate reports for h hashes per second. */
  function Humanize(h: real): (r: Scaled)
    ensures r.unit < |Units|
  {
    HumanizeFrom(h, 0)
  }

  /** human_hashrate as the source writes it: a loop dividing by 1000, then the unit's name. */
  method HumanHashrate(h: real) returns (value: real, unit: string)
    ensures value == Humanize(h).value && unit == Units[Humanize(h).unit]
  {
    var idx;
    value, idx := ScaleDown(h);
    unit := Units[idx];
  }

  /** The loop of human_hashrate: the figure and the ladder index it stops at. */
  method ScaleDown(h: real) returns (x: real, idx: nat)
    ensures x == Humanize(h).value && idx == Humanize(h).unit
  {
    x := h;
    idx := 0;
    while x >= 1000.0 && idx < |Units| - 1
      invariant 0 <= idx <= TopUnit
      invariant HumanizeFrom(x, idx) == Humanize(h)
      decreases TopUnit - idx
    {
      x := x / 1000.0;
      idx := idx + 1;
    }
    HumanizeFromStops(x, idx);
  }

  /** Once the loop's guard fails, the figure is reported as it stands. */
  lemma HumanizeFromStops(x: real, idx: nat)
    requires idx <= TopUnit && !(x >= 1000.0 && idx < TopUnit)
    ensures HumanizeFrom(x, idx) == Scaled(x, idx)
  {
  }

  // ---------------------------------------------------------------------------
  // Properties
  // ---------------------------------------------------------------------------

  lemma {:induction false} ScaleMonotonic(m: nat, n: nat)
    requires m <= n
    ensures Scale(1.0, m) <= Scale(1.0, n)
  {
    if m < n {
      ScaleMonotonic(m, n - 1);
      ScaleGrows(1.0, n - 1);
    }
  }

  /**
   * The chosen unit is the largest one, up to YH/s, that h reaches:
   * h is at least 1000^unit (unless the unit is H/s) and below
   * 1000^(unit+1) (unless the unit is YH/s); the value is h in that unit.
   */
  lemma HumanizeChoosesUnit(h: real)
    ensures Scale(Humanize(h).value, Humanize(h).unit) == h
    ensures Humanize(h).unit > 0 ==> Scale(1.0, Humanize(h).unit) <= h
    ensures Humanize(h).unit < TopUnit ==> h < Scale(1.0, Humanize(h).unit + 1)
  {
    var r := Humanize(h);
    HumanizeFromScalesBack(h, 0);
    HumanizeFromReaches(h, 0);
    HumanizeFromStopsBelow(h, 0);
    if r.unit < TopUnit {
      ScaleBelow(r.value, r.unit);
    }
  }

  /** A value below 1000 taken up n units stays below 1000^(n+1). */
  lemma {:induction false} ScaleBelow(v: real, n: nat)
    requires v < 1000.0
    ensures Scale(v, n) < Scale(1.0, n + 1)
  {
    if n > 0 {
      ScaleBelow(v, n - 1);
    }
  }

  /** Figures below 1000, zero and negatives included, stay unscaled in H/s. */
  lemma HumanizeSmall(h: real)
    requires h < 1000.0
    ensures Humanize(h) == Scaled(h, 0)
  {
  }

  /** Figures of 1000^8 and more are clamped to YH/s instead of running off the ladder. */
  lemma HumanizeClamps(h: real)
    requires h >= Scale(1.0, TopUnit)
    ensures Humanize(h).unit == TopUnit
  {
    var r := Humanize(h);
    if r.unit < TopUnit {
      HumanizeChoosesUnit(h);
      ScaleMonotonic(r.unit + 1, TopUnit);
    }
  }

  lemma {:induction false} HumanizeFromScaled(v: real, k: nat, idx: nat)
    requires 1.0 <= v < 1000.0 && idx + k <= TopUnit
    ensures HumanizeFrom(Scale(v, k), idx) == Scaled(v, idx + k)
  {
    if k > 0 {
      var below := Scale(v, k - 1);
      ScaleGrows(v, k - 1);
      assert Scale(v, k) == 1000.0 * below && below >= 1.0;
      assert Scale(v, k) / 1000.0 == below;
      HumanizeFromScaled(v, k - 1, idx + 1);
    }
  }

  /**
   * Formatting inverts scaling: a value in [1, 1000) taken to any unit of the
   * ladder is reported back as that value in that unit.
   */
  lemma HumanizeInvertsScaling(v: real, k: nat)
    requires 1.0 <= v < 1000.0 && k <= TopUnit
    ensures Humanize(Scale(v, k)) == Scaled(v, k)
  {
    HumanizeFromScaled(v, k, 0);
  }

  /** 0 reads "0.000 H/s" and 1,500,000 reads "1.500 MH/s". */
  lemma HumanizeExamples()
    ensures Humanize(0.0) == Scaled(0.0, 0) && Units[0] == "H/s"
    ensures Humanize(1500000.0) == Scaled(1.5, 2) && Units[2] == "MH/s"
  {
    assert Scale(1.5, 2) == 1500000.0;
    HumanizeInvertsScaling(1.5, 2);
  }
}
