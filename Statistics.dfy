/** The statistics service: mean, Bessel-corrected standard deviation, min, max and range of a
    sample; the process-capability indices Cp, Cpk, Cpu, Cpl, Pp and Ppk against spec limits;
    and the capability report assembled for one target.

    There is no square root in Dafny, so a standard deviation enters as a parameter `sd`
    constrained by `IsStdDev`: it is the non-negative number whose square is the sample
    variance. Python's `round(x, 3)` is defined here as `Round3`; the control limits and the
    stored measurement statistics use it, the outputs of this service are left unrounded. */
module Statistics {
  import opened Wrappers
  import opened Models

  function Sum(xs: seq<real>): real
  {
    if xs == [] then 0.0 else Sum(xs[..|xs| - 1]) + xs[|xs| - 1]
  }

  function Mean(xs: seq<real>): real
    requires xs != []
  {
    Sum(xs) / (|xs| as real)
  }

  /** Python's `min`: the smallest element. */
  function Min(xs: seq<real>): (m: real)
    requires xs != []
    ensures m in xs
    ensures forall x :: x in xs ==> m <= x
  {
    if |xs| == 1 then xs[0]
    else
      var init := xs[..|xs| - 1];
      var m := Min(init);
      assert xs == init + [xs[|xs| - 1]];
      if xs[|xs| - 1] < m then xs[|xs| - 1] else m
  }

  /** Python's `max`: the largest element. */
  function Max(xs: seq<real>): (m: real)
    requires xs != []
    ensures m in xs
    ensures forall x :: x in xs ==> x <= m
  {
    if |xs| == 1 then xs[0]
    else
      var init := xs[..|xs| - 1];
      var m := Max(init);
      assert xs == init + [xs[|xs| - 1]];
      if xs[|xs| - 1] > m then xs[|xs| - 1] else m
  }

  /** Every element equals every other. */
  predicate Constant(xs: seq<real>)
  {
    forall i, j :: 0 <= i < |xs| && 0 <= j < |xs| ==> xs[i] == xs[j]
  }

  lemma {:induction false} SumBounds(xs: seq<real>, lo: real, hi: real)
    requires forall x :: x in xs ==> lo <= x <= hi
    ensures (|xs| as real) * lo <= Sum(xs) <= (|xs| as real) * hi
  {
    if xs != [] {
      var init := xs[..|xs| - 1];
      assert forall x :: x in init ==> x in xs;
      assert xs[|xs| - 1] in xs;
      SumBounds(init, lo, hi);
    }
  }

  lemma QuotientBounds(s: real, n: real, lo: real, hi: real)
    requires n > 0.0 && n * lo <= s <= n * hi
    ensures lo <= s / n <= hi
  {
  }

  /** The mean of a sample lies between its minimum and its maximum. */
  lemma MeanWithinRange(xs: seq<real>)
    requires xs != []
    ensures Min(xs) <= Mean(xs) <= Max(xs)
  {
    SumBounds(xs, Min(xs), Max(xs));
    QuotientBounds(Sum(xs), |xs| as real, Min(xs), Max(xs));
  }

  lemma {:induction false} SumOfConstant(xs: seq<real>, c: real)
    requires forall x :: x in xs ==> x == c
    ensures Sum(xs) == (|xs| as real) * c
  {
    if xs != [] {
      var init := xs[..|xs| - 1];
      assert forall x :: x in init ==> x in xs;
      assert xs[|xs| - 1] in xs;
      SumOfConstant(init, c);
    }
  }

  /** The mean of a constant sample is its common value. */
  lemma MeanOfConstant(xs: seq<real>)
    requires xs != [] && Constant(xs)
    ensures Mean(xs) == xs[0]
  {
    forall x | x in xs ensures x == xs[0] {
      var i :| 0 <= i < |xs| && xs[i] == x;
    }
    SumOfConstant(xs, xs[0]);
  }

  /** `x ** n` for a natural exponent. */
  function Power(x: real, n: nat): real
  {
    if n == 0 then 1.0 else x * Power(x, n - 1)
  }

  lemma SquarePositive(d: real)
    requires d != 0.0
    ensures d * d > 0.0
  {
    if d < 0.0 {
      assert d * d == (-d) * (-d);
    }
  }

  /** A square is never negative, and is zero only at zero. */
  lemma SquareSign(d: real)
    ensures Power(d, 2) >= 0.0
    ensures Power(d, 2) == 0.0 <==> d == 0.0
  {
    assert Power(d, 1) == d * Power(d, 0) == d;
    assert Power(d, 2) == d * d;
    if d != 0.0 {
      SquarePositive(d);
    }
  }

  /** The sum of squared deviations from `m`. */
  function SumSquaredDeviations(xs: seq<real>, m: real): (r: real)
    ensures r >= 0.0
  {
    if xs == [] then 0.0
    else
      SquareSign(xs[|xs| - 1] - m);
      SumSquaredDeviations(xs[..|xs| - 1], m) + Power(xs[|xs| - 1] - m, 2)
  }

  lemma {:induction false} SquaredDeviationsOfConstant(xs: seq<real>, m: real)
    requires forall x :: x in xs ==> x == m
    ensures SumSquaredDeviations(xs, m) == 0.0
  {
    if xs != [] {
      var init := xs[..|xs| - 1];
      assert forall x :: x in init ==> x in xs;
      assert xs[|xs| - 1] in xs;
      SquareSign(xs[|xs| - 1] - m);
      SquaredDeviationsOfConstant(init, m);
    }
  }

  lemma {:induction false} ZeroSquaredDeviations(xs: seq<real>, m: real)
    requires SumSquaredDeviations(xs, m) == 0.0
    ensures forall x :: x in xs ==> x == m
  {
    if xs != [] {
      var init := xs[..|xs| - 1];
      SquareSign(xs[|xs| - 1] - m);
      ZeroSquaredDeviations(init, m);
      assert xs == init + [xs[|xs| - 1]];
    }
  }

  /** Bessel-corrected sample variance (`statistics.variance`, `np.var(ddof=1)`). */
  function SampleVariance(xs: seq<real>): real
    requires |xs| >= 2
  {
    SumSquaredDeviations(xs, Mean(xs)) / ((|xs| - 1) as real)
  }

  /** `sd` is the sample standard deviation of `xs` (`statistics.stdev`, `np.std(ddof=1)`). */
  predicate IsStdDev(xs: seq<real>, sd: real)
  {
    |xs| >= 2 && sd >= 0.0 && Power(sd, 2) == SampleVariance(xs)
  }

  /** The standard deviation is zero exactly when every reading is the same. */
  lemma StdDevZeroIffConstant(xs: seq<real>, sd: real)
    requires IsStdDev(xs, sd)
    ensures sd == 0.0 <==> Constant(xs)
  {
    var n1 := (|xs| - 1) as real;
    var ssd := SumSquaredDeviations(xs, Mean(xs));
    assert ssd == SampleVariance(xs) * n1;
    SquareSign(sd);
    if Constant(xs) {
      MeanOfConstant(xs);
      forall x | x in xs ensures x == Mean(xs) {
        var i :| 0 <= i < |xs| && xs[i] == x;
      }
      SquaredDeviationsOfConstant(xs, Mean(xs));
    }
    if sd == 0.0 {
      assert ssd == 0.0;
      ZeroSquaredDeviations(xs, Mean(xs));
      forall i, j | 0 <= i < |xs| && 0 <= j < |xs| ensures xs[i] == xs[j] {
        assert xs[i] in xs && xs[j] in xs;
      }
    }
  }

  // ---------------------------------------------------------------- rounding

  /** Python's `round` on an exact real: the nearest integer, a tie going to the even one. */
  function RoundHalfEven(x: real): (n: int)
    ensures x - 0.5 <= n as real <= x + 0.5
  {
    var f := x.Floor;
    var frac := x - f as real;
    if frac < 0.5 then f
    else if frac > 0.5 then f + 1
    else if f % 2 == 0 then f
    else f + 1
  }

  lemma RoundHalfEvenOfInteger(n: int)
    ensures RoundHalfEven(n as real) == n
  {
    assert (n as real).Floor == n;
  }

  lemma RoundHalfEvenMonotone(x: real, y: real)
    requires x <= y
    ensures RoundHalfEven(x) <= RoundHalfEven(y)
  {
    var fx, fy := x.Floor, y.Floor;
    assert fx <= fy;
    if fx == fy {
      assert x - fx as real <= y - fy as real;
    }
  }

  /** `round(x, 3)`: the nearest multiple of 0.001, ties to an even count of thousandths. */
  function Round3(x: real): (r: real)
    ensures x - 0.0005 <= r <= x + 0.0005
  {
    RoundHalfEven(x * 1000.0) as real / 1000.0
  }

  /** A number already given in thousandths is left as it is. */
  lemma Round3OfThousandths(n: int)
    ensures Round3(n as real / 1000.0) == n as real / 1000.0
  {
    assert (n as real / 1000.0) * 1000.0 == n as real;
    RoundHalfEvenOfInteger(n);
  }

  /** Rounding is idempotent. */
  lemma Round3Idempotent(x: real)
    ensures Round3(Round3(x)) == Round3(x)
  {
    Round3OfThousandths(RoundHalfEven(x * 1000.0));
  }

  lemma Round3Monotone(x: real, y: real)
    requires x <= y
    ensures Round3(x) <= Round3(y)
  {
    RoundHalfEvenMonotone(x * 1000.0, y * 1000.0);
  }

  /** The difference of two rounded numbers needs no further rounding. */
  lemma Round3Difference(x: real, y: real)
    ensures Round3(Round3(x) - Round3(y)) == Round3(x) - Round3(y)
  {
    var a, b := RoundHalfEven(x * 1000.0), RoundHalfEven(y * 1000.0);
    assert Round3(x) - Round3(y) == (a - b) as real / 1000.0;
    Round3OfThousandths(a - b);
  }

  // ---------------------------------------------------------------- basic statistics

  /** The reported deviation (`sd`, or 0 for one reading) is zero exactly for a constant sample. */
  lemma ReportedStdDev(xs: seq<real>, sd: real)
    requires xs != [] && (|xs| >= 2 ==> IsStdDev(xs, sd))
    ensures var d := if |xs| > 1 then sd else 0.0; d >= 0.0 && (d == 0.0 <==> Constant(xs))
  {
    if |xs| > 1 { StdDevZeroIffConstant(xs, sd); }
  }

  /** The five summary fields; all `None` for an empty sample. */
  datatype BasicStats = BasicStats(avg: Option<real>, stdDev: Option<real>, min: Option<real>,
                                   max: Option<real>, range: Option<real>)

  /** Summary statistics of a sample. A single reading has standard deviation 0. */
  function CalculateBasicStatistics(xs: seq<real>, sd: real): (r: BasicStats)
    requires |xs| >= 2 ==> IsStdDev(xs, sd)
    ensures xs == [] <==> r == BasicStats(None, None, None, None, None)
    ensures xs != [] ==> r.avg.Some? && r.stdDev.Some? && r.min.Some? && r.max.Some? && r.range.Some?
    ensures xs != [] ==> r.min.value in xs && r.max.value in xs
    ensures xs != [] ==> forall x :: x in xs ==> r.min.value <= x <= r.max.value
    ensures xs != [] ==> r.min.value <= r.avg.value <= r.max.value
    ensures xs != [] ==> r.range.value == r.max.value - r.min.value
    ensures xs != [] ==> r.stdDev.value >= 0.0 && (r.stdDev.value == 0.0 <==> Constant(xs))
    ensures xs != [] ==> r.avg.value == Mean(xs)
    ensures xs != [] ==> r.stdDev.value == (if |xs| >= 2 then sd else 0.0)
  {
    if xs == [] then BasicStats(None, None, None, None, None)
    else
      var avg := Mean(xs);
      var stdDev := if |xs| > 1 then sd else 0.0;
      var minVal := Min(xs);
      var maxVal := Max(xs);
      MeanWithinRange(xs);
      ReportedStdDev(xs, sd);
      BasicStats(Some(avg), Some(stdDev), Some(minVal), Some(maxVal), Some(maxVal - minVal))
  }

  // ---------------------------------------------------------------- process capability

  /** A capability index: a finite ratio, or Python's `float('inf')` when sigma is 0. */
  datatype Index = Finite(value: real) | Unbounded

  /** Strict order on indices, with `Unbounded` above every finite value. */
  predicate Below(a: Index, b: Index)
  {
    match (a, b)
    case (Finite(x), Finite(y)) => x < y
    case (Finite(_), Unbounded) => true
    case (Unbounded, _) => false
  }

  /** Python's `min(a, b)`: `b` only when it is strictly smaller. */
  function MinIndex(a: Index, b: Index): (r: Index)
    ensures r == a || r == b
    ensures !Below(a, r) && !Below(b, r)
  {
    if Below(b, a) then b else a
  }

  /** `numerator / (k * sd) if sd > 0 else float('inf')`. */
  function Ratio(numerator: real, k: real, sd: real): Index
    requires k > 0.0
  {
    if sd > 0.0 then Finite(numerator / (k * sd)) else Unbounded
  }

  /** `Insufficient` is the result for fewer than two readings: cp, cpk, pp and ppk are `None`
      and there are no cpu or cpl keys. */
  datatype Capability =
    | Insufficient
    | Indices(cp: Index, cpk: Index, pp: Index, ppk: Index, cpu: Index, cpl: Index)

  function CalculateProcessCapability(xs: seq<real>, lsl: real, usl: real, sd: real): (r: Capability)
    requires |xs| >= 2 ==> IsStdDev(xs, sd)
    ensures r.Insufficient? <==> |xs| < 2
    ensures r.Indices? ==> r.pp == r.cp && r.ppk == r.cpk
    ensures r.Indices? ==> (r.cp.Unbounded? <==> Constant(xs))
    ensures r.Indices? ==> (r.cpk.Unbounded? <==> Constant(xs))
    ensures r.Indices? ==> (r.cpu.Unbounded? <==> Constant(xs)) && (r.cpl.Unbounded? <==> Constant(xs))
    ensures r.Indices? ==> !Below(r.cpu, r.cpk) && !Below(r.cpl, r.cpk)
    ensures r.Indices? ==> r.cpk == r.cpu || r.cpk == r.cpl
  {
    if |xs| < 2 then Insufficient
    else
      var avg := Mean(xs);
      var cp := Ratio(usl - lsl, 6.0, sd);
      var cpu := Ratio(usl - avg, 3.0, sd);
      var cpl := Ratio(avg - lsl, 3.0, sd);
      var cpk := MinIndex(cpu, cpl);
      StdDevZeroIffConstant(xs, sd);
      Indices(cp, cpk, cp, cpk, cpu, cpl)
  }

  /** With spread in the sample, cpu + cpl = 2 cp, so cpk = min(cpu, cpl) never exceeds cp;
      each index is the formula of the capability definition. */
  lemma CapabilityRelations(xs: seq<real>, lsl: real, usl: real, sd: real)
    requires IsStdDev(xs, sd) && !Constant(xs)
    ensures var r := CalculateProcessCapability(xs, lsl, usl, sd);
      && r.cp == Finite((usl - lsl) / (6.0 * sd))
      && r.cpu == Finite((usl - Mean(xs)) / (3.0 * sd))
      && r.cpl == Finite((Mean(xs) - lsl) / (3.0 * sd))
      && r.cpu.value + r.cpl.value == 2.0 * r.cp.value
      && r.cpk.value <= r.cp.value
  {
    StdDevZeroIffConstant(xs, sd);
    var avg := Mean(xs);
    var t := 3.0 * sd;
    assert (usl - avg) / t + (avg - lsl) / t == (usl - lsl) / t;
    assert (usl - lsl) / t == 2.0 * ((usl - lsl) / (6.0 * sd));
  }

  /** cpk is negative exactly when the sample mean lies outside the spec limits. */
  lemma CpkNegativeIffMeanOutside(xs: seq<real>, lsl: real, usl: real, sd: real)
    requires IsStdDev(xs, sd) && !Constant(xs)
    ensures var r := CalculateProcessCapability(xs, lsl, usl, sd);
      r.cpk.Finite? && (r.cpk.value < 0.0 <==> Mean(xs) < lsl || Mean(xs) > usl)
  {
    StdDevZeroIffConstant(xs, sd);
    var avg := Mean(xs);
    var t := 3.0 * sd;
    assert t > 0.0;
    assert (usl - avg) / t < 0.0 <==> usl - avg < 0.0;
    assert (avg - lsl) / t < 0.0 <==> avg - lsl < 0.0;
  }

  // ---------------------------------------------------------------- per-target report

  /** `sigma(s)` is the sample standard deviation of series `s` of the measurements (when
      there are at least two of them). */
  ghost predicate SigmaFits(ms: seq<MeasurementRow>, sigma: Series -> real)
  {
    forall s :: |ms| >= 2 ==> IsStdDev(Column(ms, s), sigma(s))
  }

  /** The limits of the active spec and their midpoint. */
  datatype SpecSummary = SpecSummary(lsl: real, usl: real, target: real)

  datatype ProcessStatistics = ProcessStatistics(
    targetId: nat,
    sampleCount: nat,
    overallStatistics: BasicStats,
    positionStatistics: map<Position, BasicStats>,
    spec: Option<SpecSummary>,
    processCapability: Option<Capability>,
    positionCapability: Option<map<Position, Capability>>)

  /** `positionValues` holds, for each position, the readings of the measurements there. */
  predicate Gathered(ms: seq<MeasurementRow>, positionValues: map<Position, seq<real>>)
  {
    && positionValues.Keys == PositionSet
    && forall p :: p in positionValues ==> positionValues[p] == Column(ms, At(p))
  }

  /** The summary statistics of every die position. */
  method PositionStatistics(ms: seq<MeasurementRow>, positionValues: map<Position, seq<real>>, sigma: Series -> real)
    returns (stats: map<Position, BasicStats>)
    requires SigmaFits(ms, sigma)
    requires Gathered(ms, positionValues)
    ensures stats.Keys == PositionSet
    ensures forall p :: p in stats ==> stats[p] == CalculateBasicStatistics(Column(ms, At(p)), sigma(At(p)))
  {
    stats := map[];
    for k := 0 to |Positions|
      invariant stats.Keys == set j | 0 <= j < k :: Positions[j]
      invariant forall p :: p in stats ==> stats[p] == CalculateBasicStatistics(Column(ms, At(p)), sigma(At(p)))
    {
      var p := Positions[k];
      stats := stats[p := CalculateBasicStatistics(positionValues[p], sigma(At(p)))];
    }
    PositionsListed();
  }

  /** The capability indices of every die position. */
  method PositionCapability(ms: seq<MeasurementRow>, positionValues: map<Position, seq<real>>, lsl: real, usl: real,
                            sigma: Series -> real)
    returns (caps: map<Position, Capability>)
    requires SigmaFits(ms, sigma)
    requires Gathered(ms, positionValues)
    ensures caps.Keys == PositionSet
    ensures forall p :: p in caps ==> caps[p] == CalculateProcessCapability(Column(ms, At(p)), lsl, usl, sigma(At(p)))
  {
    caps := map[];
    for k := 0 to |Positions|
      invariant caps.Keys == set j | 0 <= j < k :: Positions[j]
      invariant forall p :: p in caps ==> caps[p] == CalculateProcessCapability(Column(ms, At(p)), lsl, usl, sigma(At(p)))
    {
      var p := Positions[k];
      caps := caps[p := CalculateProcessCapability(positionValues[p], lsl, usl, sigma(At(p)))];
    }
    PositionsListed();
  }

  /** One pass over the measurements gathering the stored averages and the readings at each
      position. */
  method CollectValues(ms: seq<MeasurementRow>) returns (allValues: seq<real>, positionValues: map<Position, seq<real>>)
    ensures allValues == Column(ms, Average)
    ensures Gathered(ms, positionValues)
  {
    allValues := [];
    positionValues := map p | p in PositionSet :: [];
    var i := 0;
    while i < |ms|
      invariant 0 <= i <= |ms|
      invariant allValues == Column(ms[..i], Average)
      invariant positionValues.Keys == PositionSet
      invariant forall p :: p in positionValues ==> positionValues[p] == Column(ms[..i], At(p))
    {
      ColumnSnoc(ms, i);
      var m := ms[i];
      allValues := allValues + [m.derived.avgValue];
      positionValues := map p | p in positionValues :: positionValues[p] + [m.data.readings.At(p)];
      i := i + 1;
    }
    assert ms[..i] == ms;
  }

  /** The spec and capability part of the report, present only when there is an active spec. */
  method CapabilitySection(ms: seq<MeasurementRow>, allValues: seq<real>, positionValues: map<Position, seq<real>>,
                           active: Option<SpecRow>, sigma: Series -> real)
    returns (spec: Option<SpecSummary>, processCapability: Option<Capability>,
             positionCapability: Option<map<Position, Capability>>)
    requires SigmaFits(ms, sigma)
    requires allValues == Column(ms, Average) && Gathered(ms, positionValues)
    ensures spec.Some? <==> active.Some?
    ensures processCapability.Some? <==> active.Some?
    ensures positionCapability.Some? <==> active.Some?
    ensures active.Some? ==>
      var lsl, usl := active.value.lsl, active.value.usl;
      && spec.value == SpecSummary(lsl, usl, (lsl + usl) / 2.0)
      && processCapability.value == CalculateProcessCapability(Column(ms, Average), lsl, usl, sigma(Average))
      && positionCapability.value.Keys == PositionSet
      && (forall p :: p in positionCapability.value ==>
            positionCapability.value[p] == CalculateProcessCapability(Column(ms, At(p)), lsl, usl, sigma(At(p))))
  {
    spec, processCapability, positionCapability := None, None, None;
    if active.Some? {
      var lsl, usl := active.value.lsl, active.value.usl;
      var caps := PositionCapability(ms, positionValues, lsl, usl, sigma);
      spec := Some(SpecSummary(lsl, usl, (lsl + usl) / 2.0));
      processCapability := Some(CalculateProcessCapability(allValues, lsl, usl, sigma(Average)));
      positionCapability := Some(caps);
    }
  }

  /** The statistics part of a report on measurements `ms`. */
  ghost predicate StatisticsOf(r: ProcessStatistics, ms: seq<MeasurementRow>, sigma: Series -> real)
    requires SigmaFits(ms, sigma)
  {
    && r.sampleCount == |ms|
    && r.overallStatistics == CalculateBasicStatistics(Column(ms, Average), sigma(Average))
    && r.positionStatistics.Keys == PositionSet
    && forall p :: p in r.positionStatistics ==>
         r.positionStatistics[p] == CalculateBasicStatistics(Column(ms, At(p)), sigma(At(p)))
  }

  /** The spec and capability part of a report on measurements `ms` under spec `active`. */
  ghost predicate CapabilityOf(r: ProcessStatistics, ms: seq<MeasurementRow>, active: Option<SpecRow>, sigma: Series -> real)
    requires SigmaFits(ms, sigma)
  {
    && (r.spec.Some? <==> active.Some?)
    && (r.processCapability.Some? <==> active.Some?)
    && (r.positionCapability.Some? <==> active.Some?)
    && (active.Some? ==>
          var lsl, usl := active.value.lsl, active.value.usl;
          && r.spec.value == SpecSummary(lsl, usl, (lsl + usl) / 2.0)
          && r.processCapability.value == CalculateProcessCapability(Column(ms, Average), lsl, usl, sigma(Average))
          && r.positionCapability.value.Keys == PositionSet
          && forall p :: p in r.positionCapability.value ==>
               r.positionCapability.value[p] == CalculateProcessCapability(Column(ms, At(p)), lsl, usl, sigma(At(p))))
  }

  /** Process statistics of one target: summary statistics of the stored averages and of each
      die position, and, when the target has an active spec, its limits with their midpoint and
      the capability indices overall and per position. The optional date window of the query is
      not modelled: `table` is the set of rows the query may see. */
  method GetProcessStatistics(targetId: nat, table: seq<MeasurementRow>, specs: seq<SpecRow>, sigma: Series -> real)
    returns (r: ProcessStatistics)
    requires SigmaFits(MeasurementsOf(table, targetId), sigma)
    ensures r.targetId == targetId
    ensures StatisticsOf(r, MeasurementsOf(table, targetId), sigma)
    ensures CapabilityOf(r, MeasurementsOf(table, targetId), ActiveSpecOf(specs, targetId), sigma)
  {
    r := Report(targetId, MeasurementsOf(table, targetId), ActiveSpecOf(specs, targetId), sigma);
  }

  /** The report on the target's measurements `ms` under its active spec `active`. */
  method Report(targetId: nat, ms: seq<MeasurementRow>, active: Option<SpecRow>, sigma: Series -> real)
    returns (r: ProcessStatistics)
    requires SigmaFits(ms, sigma)
    ensures r.targetId == targetId
    ensures StatisticsOf(r, ms, sigma)
    ensures CapabilityOf(r, ms, active, sigma)
  {
    var allValues, positionValues := CollectValues(ms);
    var positionStatistics := PositionStatistics(ms, positionValues, sigma);
    var spec, processCapability, positionCapability := CapabilitySection(ms, allValues, positionValues, active, sigma);
    r := ProcessStatistics(targetId, |ms|, CalculateBasicStatistics(allValues, sigma(Average)),
                           positionStatistics, spec, processCapability, positionCapability);
  }
}
