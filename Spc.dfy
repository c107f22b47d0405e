/** The SPC service: control limits at cl ± k·σ, the eight Nelson-rule scans as this
    repository writes them, and the SPC analysis of one target.

    Two rules differ from the textbook on purpose of the code: rule 5 fires on two of two
    consecutive points beyond 2σ on one side, and rule 6 on four of four beyond 1σ. */
module Spc {
  import opened Wrappers
  import opened Models
  import opened Statistics
  import Seqs

  // ---------------------------------------------------------------- control limits

  datatype Limits = Limits(cl: Option<real>, ucl: Option<real>, lcl: Option<real>)

  /** Rounding keeps a band around a centre in order. */
  lemma RoundedBandOrdered(c: real, width: real)
    ensures width >= 0.0 ==> Round3(c - width) <= Round3(c) <= Round3(c + width)
  {
    if width >= 0.0 {
      Round3Monotone(c - width, c);
      Round3Monotone(c, c + width);
    }
  }

  /** Centre line at the sample mean and limits `sigmaLevel` standard deviations either side,
      each rounded to three decimals; no limits for fewer than two values. The rounded limits
      are the ones the Nelson-rule scans see. */
  function CalculateControlLimits(xs: seq<real>, sigmaLevel: int, sd: real): (r: Limits)
    requires |xs| >= 2 ==> IsStdDev(xs, sd)
    ensures |xs| < 2 <==> r == Limits(None, None, None)
    ensures |xs| >= 2 ==> r.cl.Some? && r.ucl.Some? && r.lcl.Some?
    ensures |xs| >= 2 ==> Mean(xs) - 0.0005 <= r.cl.value <= Mean(xs) + 0.0005
    ensures |xs| >= 2 ==> var upper := Mean(xs) + (sigmaLevel as real) * sd;
      upper - 0.0005 <= r.ucl.value <= upper + 0.0005
    ensures |xs| >= 2 ==> var lower := Mean(xs) - (sigmaLevel as real) * sd;
      lower - 0.0005 <= r.lcl.value <= lower + 0.0005
    ensures |xs| >= 2 && sigmaLevel >= 0 ==> r.lcl.value <= r.cl.value <= r.ucl.value
  {
    if |xs| < 2 then Limits(None, None, None)
    else
      var cl := Mean(xs);
      var width := (sigmaLevel as real) * sd;
      assert sigmaLevel >= 0 ==> width >= 0.0;
      RoundedBandOrdered(cl, width);
      Limits(Some(Round3(cl)), Some(Round3(cl + width)), Some(Round3(cl - width)))
  }

  /** The limits are whole numbers of thousandths. */
  lemma LimitsInThousandths(xs: seq<real>, sigmaLevel: int, sd: real)
    requires IsStdDev(xs, sd)
    ensures var r := CalculateControlLimits(xs, sigmaLevel, sd);
      Round3(r.cl.value) == r.cl.value && Round3(r.ucl.value) == r.ucl.value && Round3(r.lcl.value) == r.lcl.value
  {
    var width := (sigmaLevel as real) * sd;
    Round3Idempotent(Mean(xs));
    Round3Idempotent(Mean(xs) + width);
    Round3Idempotent(Mean(xs) - width);
  }

  /** The band between the limits collapses when the sigma level is zero or every value is
      the same; once rounded, it also collapses for a band narrower than a thousandth, so a
      collapsed band only says that `sigmaLevel`·σ is at most 0.0005. */
  lemma LimitsCollapse(xs: seq<real>, sigmaLevel: int, sd: real)
    requires IsStdDev(xs, sd)
    ensures var r := CalculateControlLimits(xs, sigmaLevel, sd);
      (sigmaLevel == 0 || Constant(xs) ==> r.ucl.value == r.lcl.value)
      && (r.ucl.value == r.lcl.value ==> -0.0005 <= (sigmaLevel as real) * sd <= 0.0005)
  {
    StdDevZeroIffConstant(xs, sd);
    if sigmaLevel == 0 || Constant(xs) {
      assert (sigmaLevel as real) * sd == 0.0;
      assert Mean(xs) + (sigmaLevel as real) * sd == Mean(xs) - (sigmaLevel as real) * sd;
    }
  }

  // ---------------------------------------------------------------- Nelson rules

  /** Zone boundaries: σ is recovered as (ucl − cl) / 3; the lower limit plays no part. */
  datatype Zones = Zones(aUpper: real, aLower: real, bUpper: real, bLower: real)

  function ZonesOf(cl: real, ucl: real): Zones
  {
    var sd := (ucl - cl) / 3.0;
    Zones(cl + 2.0 * sd, cl - 2.0 * sd, cl + sd, cl - sd)
  }

  type RuleId = r: int | 1 <= r <= 8 witness 1

  /** The number of consecutive points a rule looks at. */
  function Width(rule: RuleId): nat
  {
    match rule
    case 1 => 1
    case 2 => 9
    case 3 => 6
    case 4 => 14
    case 5 => 2
    case 6 => 4
    case 7 => 15
    case 8 => 8
  }

  function Description(rule: RuleId): string
  {
    match rule
    case 1 => "한 점이 관리 한계선을 벗어남"
    case 2 => "9개 연속 점이 중심선의 같은 쪽에 있음"
    case 3 => "6개 연속 점이 증가하거나 감소함"
    case 4 => "14개 연속 점이 교대로 증가/감소함"
    case 5 => "2점 중 2점이 3-시그마 구간의 같은 쪽에 있음 (Zone A)"
    case 6 => "4점 중 4점이 2-시그마 구간의 같은 쪽에 있음 (Zone B)"
    case 7 => "15개 연속 점이 1-시그마 구간 안에 있음 (Zone C)"
    case 8 => "8개 연속 점이 1-시그마 구간 바깥에 있음"
  }

  /** The number of window starts a scan visits: Python's `range(n - (width - 1))`, which is
      empty when that bound is negative. */
  function WindowCount(width: nat, n: nat): (c: nat)
    requires width >= 1
    ensures c + width <= n + 1 || c == 0
    ensures n + 1 >= width ==> c + width == n + 1
  {
    if n + 1 >= width then n + 1 - width else 0
  }

  /** Rule-4 step direction: up only on a strict rise, so a tie counts as a fall. */
  function Step(xs: seq<real>, k: nat): int
    requires k + 1 < |xs|
  {
    if xs[k] < xs[k + 1] then 1 else -1
  }

  /** Rule 1: the point lies beyond a control limit. */
  predicate OutsideLimits(xs: seq<real>, ucl: real, lcl: real, i: nat)
    requires i < |xs|
  {
    xs[i] > ucl || xs[i] < lcl
  }

  /** Rule 2: nine points strictly on one side of the centre line. */
  predicate SameSide(xs: seq<real>, cl: real, i: nat)
    requires i + 9 <= |xs|
  {
    (forall j | i <= j < i + 9 :: xs[j] > cl) || (forall j | i <= j < i + 9 :: xs[j] < cl)
  }

  /** Rule 3: six points strictly rising or strictly falling. */
  predicate Monotone(xs: seq<real>, i: nat)
    requires i + 6 <= |xs|
  {
    (forall j | i <= j < i + 5 :: xs[j] < xs[j + 1]) || (forall j | i <= j < i + 5 :: xs[j] > xs[j + 1])
  }

  /** Rule 4: no two adjacent steps of 14 points are equal. */
  predicate Alternating(xs: seq<real>, i: nat)
    requires i + 14 <= |xs|
  {
    forall j | i <= j < i + 12 :: Step(xs, j) != Step(xs, j + 1)
  }

  /** Rule 5: two points beyond 2σ on the same side. */
  predicate BeyondZoneA(xs: seq<real>, z: Zones, i: nat)
    requires i + 2 <= |xs|
  {
    (xs[i] > z.aUpper && xs[i + 1] > z.aUpper) || (xs[i] < z.aLower && xs[i + 1] < z.aLower)
  }

  /** Rule 6: four points beyond 1σ on the same side. */
  predicate BeyondZoneB(xs: seq<real>, z: Zones, i: nat)
    requires i + 4 <= |xs|
  {
    (forall j | i <= j < i + 4 :: xs[j] > z.bUpper) || (forall j | i <= j < i + 4 :: xs[j] < z.bLower)
  }

  /** Rule 7: fifteen points strictly inside 1σ. */
  predicate InsideZoneC(xs: seq<real>, z: Zones, i: nat)
    requires i + 15 <= |xs|
  {
    forall j | i <= j < i + 15 :: z.bLower < xs[j] < z.bUpper
  }

  /** Rule 8: eight points strictly outside 1σ, on either side. */
  predicate OutsideZoneC(xs: seq<real>, z: Zones, i: nat)
    requires i + 8 <= |xs|
  {
    forall j | i <= j < i + 8 :: xs[j] < z.bLower || xs[j] > z.bUpper
  }

  /** The window condition of each rule at start `i`. */
  predicate Fires(rule: RuleId, xs: seq<real>, cl: real, ucl: real, lcl: real, i: nat)
    requires i + Width(rule) <= |xs|
  {
    match rule
    case 1 => OutsideLimits(xs, ucl, lcl, i)
    case 2 => SameSide(xs, cl, i)
    case 3 => Monotone(xs, i)
    case 4 => Alternating(xs, i)
    case 5 => BeyondZoneA(xs, ZonesOf(cl, ucl), i)
    case 6 => BeyondZoneB(xs, ZonesOf(cl, ucl), i)
    case 7 => InsideZoneC(xs, ZonesOf(cl, ucl), i)
    case 8 => OutsideZoneC(xs, ZonesOf(cl, ucl), i)
  }

  /** Rule 1 reports the offending value; the other rules report their window length. */
  datatype Detail = Value(value: real) | Length(length: nat)

  /** A reported pattern. Its description text is `Description(rule)`, fixed by the rule. */
  datatype Finding = Finding(rule: RuleId, position: nat, detail: Detail)

  function FindingAt(rule: RuleId, xs: seq<real>, i: nat): Finding
    requires i < |xs|
  {
    Finding(rule, i, if rule == 1 then Value(xs[i]) else Length(Width(rule)))
  }

  /** The findings of one rule among the first `k` window starts, in ascending position. */
  function RuleFindings(rule: RuleId, xs: seq<real>, cl: real, ucl: real, lcl: real, k: nat): (r: seq<Finding>)
    requires k <= WindowCount(Width(rule), |xs|)
    ensures |r| <= k
    ensures forall f :: f in r ==> f.rule == rule && f.position < k
    ensures forall a, b :: 0 <= a < b < |r| ==> r[a].position < r[b].position
  {
    if k == 0 then []
    else
      var earlier := RuleFindings(rule, xs, cl, ucl, lcl, k - 1);
      if Fires(rule, xs, cl, ucl, lcl, k - 1) then earlier + [FindingAt(rule, xs, k - 1)] else earlier
  }

  /** Findings come ordered by rule, then by position. */
  predicate Before(a: Finding, b: Finding)
  {
    a.rule < b.rule || (a.rule == b.rule && a.position < b.position)
  }

  /** One rule's findings, in ascending position, followed by ordered findings of later rules
      are ordered. */
  lemma ConcatOrdered(block: seq<Finding>, rest: seq<Finding>, rule: int)
    requires forall f :: f in block ==> f.rule == rule
    requires forall a, b :: 0 <= a < b < |block| ==> block[a].position < block[b].position
    requires forall f :: f in rest ==> rule < f.rule
    requires forall a, b :: 0 <= a < b < |rest| ==> Before(rest[a], rest[b])
    ensures forall a, b :: 0 <= a < b < |block + rest| ==> Before((block + rest)[a], (block + rest)[b])
  {
    forall a, b | 0 <= a < b < |block + rest|
      ensures Before((block + rest)[a], (block + rest)[b])
    {
      if b < |block| {
        assert (block + rest)[a] == block[a] && (block + rest)[b] == block[b];
        assert block[a] in block && block[b] in block;
      } else if a < |block| {
        assert (block + rest)[a] == block[a] && block[a] in block;
        assert (block + rest)[b] == rest[b - |block|] && rest[b - |block|] in rest;
      } else {
        assert (block + rest)[a] == rest[a - |block|] && (block + rest)[b] == rest[b - |block|];
      }
    }
  }

  /** The findings of rules `from` to 8, one rule after the other. */
  function AllRules(xs: seq<real>, cl: real, ucl: real, lcl: real, from: int): (r: seq<Finding>)
    requires 1 <= from <= 9
    ensures forall f :: f in r ==> from <= f.rule
    ensures forall a, b :: 0 <= a < b < |r| ==> Before(r[a], r[b])
    decreases 9 - from
  {
    if from == 9 then []
    else
      var block := RuleFindings(from, xs, cl, ucl, lcl, WindowCount(Width(from), |xs|));
      var rest := AllRules(xs, cl, ucl, lcl, from + 1);
      ConcatOrdered(block, rest, from);
      block + rest
  }

  /** What the scans report for `xs` against the given centre line and limits. */
  function NelsonFindings(xs: seq<real>, cl: real, ucl: real, lcl: real): seq<Finding>
  {
    if |xs| < 9 then [] else AllRules(xs, cl, ucl, lcl, 1)
  }

  /** A scan reports only windows on which its rule's condition holds. */
  lemma {:induction false} RuleFindingsSound(rule: RuleId, xs: seq<real>, cl: real, ucl: real, lcl: real, k: nat, f: Finding)
    requires k <= WindowCount(Width(rule), |xs|)
    requires f in RuleFindings(rule, xs, cl, ucl, lcl, k)
    ensures f.position < k && Fires(rule, xs, cl, ucl, lcl, f.position) && f == FindingAt(rule, xs, f.position)
  {
    var earlier := RuleFindings(rule, xs, cl, ucl, lcl, k - 1);
    if f in earlier {
      RuleFindingsSound(rule, xs, cl, ucl, lcl, k - 1, f);
    }
  }

  lemma {:induction false} AllRulesSound(xs: seq<real>, cl: real, ucl: real, lcl: real, from: int, f: Finding)
    requires 1 <= from <= 9
    requires f in AllRules(xs, cl, ucl, lcl, from)
    ensures f.position < WindowCount(Width(f.rule), |xs|)
    ensures Fires(f.rule, xs, cl, ucl, lcl, f.position) && f == FindingAt(f.rule, xs, f.position)
    decreases 9 - from
  {
    var block := RuleFindings(from, xs, cl, ucl, lcl, WindowCount(Width(from), |xs|));
    if f in block {
      RuleFindingsSound(from, xs, cl, ucl, lcl, WindowCount(Width(from), |xs|), f);
    } else {
      AllRulesSound(xs, cl, ucl, lcl, from + 1, f);
    }
  }

  /** `f` names a window of `xs` that fits, on which its rule's condition holds, and carries
      what that rule reports there. */
  predicate Justified(f: Finding, xs: seq<real>, cl: real, ucl: real, lcl: real)
  {
    && f.position + Width(f.rule) <= |xs|
    && Fires(f.rule, xs, cl, ucl, lcl, f.position)
    && f == FindingAt(f.rule, xs, f.position)
  }

  /** Every finding is justified by its window; findings are ordered by rule and then
      position, so no (rule, position) pair repeats; short data gets no finding. */
  lemma FindingsSound(xs: seq<real>, cl: real, ucl: real, lcl: real)
    ensures |xs| < 9 ==> NelsonFindings(xs, cl, ucl, lcl) == []
    ensures forall f :: f in NelsonFindings(xs, cl, ucl, lcl) ==> Justified(f, xs, cl, ucl, lcl)
    ensures var r := NelsonFindings(xs, cl, ucl, lcl);
      forall a, b :: 0 <= a < b < |r| ==> Before(r[a], r[b])
  {
    forall f | f in NelsonFindings(xs, cl, ucl, lcl)
      ensures Justified(f, xs, cl, ucl, lcl)
    {
      AllRulesSound(xs, cl, ucl, lcl, 1, f);
    }
  }

  lemma {:induction false} RuleFindingsComplete(rule: RuleId, xs: seq<real>, cl: real, ucl: real, lcl: real, k: nat, i: nat)
    requires k <= WindowCount(Width(rule), |xs|) && i < k
    requires Fires(rule, xs, cl, ucl, lcl, i)
    ensures FindingAt(rule, xs, i) in RuleFindings(rule, xs, cl, ucl, lcl, k)
  {
    if i < k - 1 {
      RuleFindingsComplete(rule, xs, cl, ucl, lcl, k - 1, i);
    }
  }

  lemma {:induction false} AllRulesComplete(xs: seq<real>, cl: real, ucl: real, lcl: real, from: int, rule: RuleId, i: nat)
    requires 1 <= from <= rule
    requires i < WindowCount(Width(rule), |xs|) && Fires(rule, xs, cl, ucl, lcl, i)
    ensures FindingAt(rule, xs, i) in AllRules(xs, cl, ucl, lcl, from)
    decreases 9 - from
  {
    if from == rule {
      RuleFindingsComplete(rule, xs, cl, ucl, lcl, WindowCount(Width(rule), |xs|), i);
    } else {
      AllRulesComplete(xs, cl, ucl, lcl, from + 1, rule, i);
    }
  }

  /** For data of at least nine points, rule `rule` is reported at position `i` exactly when its
      window fits and its condition holds there. */
  lemma FindingIff(xs: seq<real>, cl: real, ucl: real, lcl: real, rule: RuleId, i: nat)
    requires |xs| >= 9 && i < |xs|
    ensures FindingAt(rule, xs, i) in NelsonFindings(xs, cl, ucl, lcl) <==>
      i + Width(rule) <= |xs| && Fires(rule, xs, cl, ucl, lcl, i)
  {
    var f := FindingAt(rule, xs, i);
    if f in NelsonFindings(xs, cl, ucl, lcl) {
      AllRulesSound(xs, cl, ucl, lcl, 1, f);
    }
    if i + Width(rule) <= |xs| && Fires(rule, xs, cl, ucl, lcl, i) {
      AllRulesComplete(xs, cl, ucl, lcl, 1, rule, i);
    }
  }

  /** Rule 1 is reported at `i` exactly when the point lies beyond a control limit, carrying
      that point's value. */
  lemma Rule1Exact(xs: seq<real>, cl: real, ucl: real, lcl: real, i: nat)
    requires |xs| >= 9 && i < |xs|
    ensures Finding(1, i, Value(xs[i])) in NelsonFindings(xs, cl, ucl, lcl) <==>
      xs[i] > ucl || xs[i] < lcl
  {
    FindingIff(xs, cl, ucl, lcl, 1, i);
  }

  /** The number of findings of rule `rule` in `r`. */
  function CountRule(r: seq<Finding>, rule: RuleId): nat
  {
    if r == [] then 0 else (if r[0].rule == rule then 1 else 0) + CountRule(r[1..], rule)
  }

  /** In findings ordered by rule and position, the findings of `rule` have distinct positions,
      so when those positions lie in `[lo, hi)` there are at most `hi - lo` of them. */
  lemma {:induction false} OrderedCountBound(r: seq<Finding>, rule: RuleId, lo: nat, hi: nat)
    requires forall a, b :: 0 <= a < b < |r| ==> Before(r[a], r[b])
    requires forall f :: f in r && f.rule == rule ==> lo <= f.position < hi
    ensures CountRule(r, rule) <= if lo <= hi then hi - lo else 0
    decreases |r|
  {
    if r != [] {
      assert r[0] in r;
      forall a, b | 0 <= a < b < |r[1..]| ensures Before(r[1..][a], r[1..][b]) {
        assert r[1..][a] == r[a + 1] && r[1..][b] == r[b + 1];
      }
      if r[0].rule == rule {
        forall f | f in r[1..] && f.rule == rule ensures r[0].position + 1 <= f.position < hi {
          var k :| 0 <= k < |r[1..]| && r[1..][k] == f;
          assert Before(r[0], r[k + 1]) && r[k + 1] in r;
        }
        OrderedCountBound(r[1..], rule, r[0].position + 1, hi);
      } else {
        forall f | f in r[1..] && f.rule == rule ensures lo <= f.position < hi {
          assert f in r;
        }
        OrderedCountBound(r[1..], rule, lo, hi);
      }
    }
  }

  /** Each rule is reported at most once per window start its scan visits. */
  lemma RuleCount(xs: seq<real>, cl: real, ucl: real, lcl: real, rule: RuleId)
    ensures CountRule(NelsonFindings(xs, cl, ucl, lcl), rule) <= WindowCount(Width(rule), |xs|)
  {
    var r := NelsonFindings(xs, cl, ucl, lcl);
    FindingsSound(xs, cl, ucl, lcl);
    forall f | f in r && f.rule == rule ensures f.position < WindowCount(Width(rule), |xs|) {
      assert Justified(f, xs, cl, ucl, lcl);
    }
    OrderedCountBound(r, rule, 0, WindowCount(Width(rule), |xs|));
  }

  /** Where rule 4 fires, the 13 steps of its window alternate in sign. */
  lemma {:induction false} Rule4Alternates(xs: seq<real>, cl: real, ucl: real, lcl: real, i: nat, j: nat)
    requires i + 14 <= |xs| && Fires(4, xs, cl, ucl, lcl, i) && j < 13
    ensures Step(xs, i + j) == if j % 2 == 0 then Step(xs, i) else -Step(xs, i)
  {
    if j > 0 {
      Rule4Alternates(xs, cl, ucl, lcl, i, j - 1);
      assert Step(xs, i + j - 1) != Step(xs, i + j);
    }
  }

  /** Rules 3 and 4 never fire at the same start: six monotone points have equal first steps. */
  lemma Rule3ExcludesRule4(xs: seq<real>, cl: real, ucl: real, lcl: real, i: nat)
    requires i + 14 <= |xs|
    ensures !(Fires(3, xs, cl, ucl, lcl, i) && Fires(4, xs, cl, ucl, lcl, i))
  {
    if Fires(3, xs, cl, ucl, lcl, i) {
      assert xs[i] < xs[i + 1] <==> xs[i + 1] < xs[i + 2];
      assert Step(xs, i) == Step(xs, i + 1);
    }
  }

  /** Rules 7 and 8 never fire at the same start: the first point cannot be both inside and
      outside zone C. */
  lemma Rule7ExcludesRule8(xs: seq<real>, cl: real, ucl: real, lcl: real, i: nat)
    requires i + 15 <= |xs|
    ensures !(Fires(7, xs, cl, ucl, lcl, i) && Fires(8, xs, cl, ucl, lcl, i))
  {
    var z := ZonesOf(cl, ucl);
    if Fires(7, xs, cl, ucl, lcl, i) {
      assert z.bLower < xs[i] < z.bUpper;
    }
  }

  // ---------------------------------------------------------------- the scans

  method ScanRule1(xs: seq<real>, cl: real, ucl: real, lcl: real) returns (found: seq<Finding>)
    ensures found == RuleFindings(1, xs, cl, ucl, lcl, WindowCount(Width(1), |xs|))
  {
    found := [];
    for i := 0 to |xs|
      invariant found == RuleFindings(1, xs, cl, ucl, lcl, i)
    {
      var value := xs[i];
      if value > ucl || value < lcl {
        found := found + [Finding(1, i, Value(value))];
      }
    }
  }

  method ScanRule2(xs: seq<real>, cl: real, ucl: real, lcl: real) returns (found: seq<Finding>)
    ensures found == RuleFindings(2, xs, cl, ucl, lcl, WindowCount(Width(2), |xs|))
  {
    found := [];
    for i := 0 to WindowCount(9, |xs|)
      invariant found == RuleFindings(2, xs, cl, ucl, lcl, i)
    {
      if (forall j | i <= j < i + 9 :: xs[j] > cl) || (forall j | i <= j < i + 9 :: xs[j] < cl) {
        found := found + [Finding(2, i, Length(9))];
      }
    }
  }

  method ScanRule3(xs: seq<real>, cl: real, ucl: real, lcl: real) returns (found: seq<Finding>)
    ensures found == RuleFindings(3, xs, cl, ucl, lcl, WindowCount(Width(3), |xs|))
  {
    found := [];
    for i := 0 to WindowCount(6, |xs|)
      invariant found == RuleFindings(3, xs, cl, ucl, lcl, i)
    {
      if (forall j | i <= j < i + 5 :: xs[j] < xs[j + 1]) || (forall j | i <= j < i + 5 :: xs[j] > xs[j + 1]) {
        found := found + [Finding(3, i, Length(6))];
      }
    }
  }

  /** The alternation check of rule 4: the 13 step signs of the window, then a scan for two
      equal neighbours that stops at the first one. */
  method Rule4Window(xs: seq<real>, i: nat) returns (alternating: bool)
    requires i + 14 <= |xs|
    ensures alternating <==> Alternating(xs, i)
  {
    var upsAndDowns := seq(13, j requires 0 <= j < 13 => if xs[i + j] < xs[i + j + 1] then 1 else -1);
    assert forall j :: 0 <= j < 13 ==> upsAndDowns[j] == Step(xs, i + j);
    alternating := true;
    var j := 0;
    while j < |upsAndDowns| - 1
      invariant 0 <= j <= |upsAndDowns| - 1
      invariant alternating
      invariant forall t :: 0 <= t < j ==> upsAndDowns[t] != upsAndDowns[t + 1]
    {
      if upsAndDowns[j] == upsAndDowns[j + 1] {
        alternating := false;
        assert Step(xs, i + j) == Step(xs, i + j + 1);
        break;
      }
      j := j + 1;
    }
    if alternating {
      forall t | i <= t < i + 12 ensures Step(xs, t) != Step(xs, t + 1) {
        assert upsAndDowns[t - i] != upsAndDowns[t - i + 1];
      }
    }
  }

  method ScanRule4(xs: seq<real>, cl: real, ucl: real, lcl: real) returns (found: seq<Finding>)
    ensures found == RuleFindings(4, xs, cl, ucl, lcl, WindowCount(Width(4), |xs|))
  {
    found := [];
    for i := 0 to WindowCount(14, |xs|)
      invariant found == RuleFindings(4, xs, cl, ucl, lcl, i)
    {
      var alternating := Rule4Window(xs, i);
      if alternating {
        found := found + [Finding(4, i, Length(14))];
      }
    }
  }

  method ScanRule5(xs: seq<real>, cl: real, ucl: real, lcl: real, z: Zones) returns (found: seq<Finding>)
    requires z == ZonesOf(cl, ucl)
    ensures found == RuleFindings(5, xs, cl, ucl, lcl, WindowCount(Width(5), |xs|))
  {
    found := [];
    for i := 0 to WindowCount(2, |xs|)
      invariant found == RuleFindings(5, xs, cl, ucl, lcl, i)
    {
      if (xs[i] > z.aUpper && xs[i + 1] > z.aUpper) || (xs[i] < z.aLower && xs[i + 1] < z.aLower) {
        found := found + [Finding(5, i, Length(2))];
      }
    }
  }

  method ScanRule6(xs: seq<real>, cl: real, ucl: real, lcl: real, z: Zones) returns (found: seq<Finding>)
    requires z == ZonesOf(cl, ucl)
    ensures found == RuleFindings(6, xs, cl, ucl, lcl, WindowCount(Width(6), |xs|))
  {
    found := [];
    for i := 0 to WindowCount(4, |xs|)
      invariant found == RuleFindings(6, xs, cl, ucl, lcl, i)
    {
      if (forall j | i <= j < i + 4 :: xs[j] > z.bUpper) || (forall j | i <= j < i + 4 :: xs[j] < z.bLower) {
        found := found + [Finding(6, i, Length(4))];
      }
    }
  }

  method ScanRule7(xs: seq<real>, cl: real, ucl: real, lcl: real, z: Zones) returns (found: seq<Finding>)
    requires z == ZonesOf(cl, ucl)
    ensures found == RuleFindings(7, xs, cl, ucl, lcl, WindowCount(Width(7), |xs|))
  {
    found := [];
    for i := 0 to WindowCount(15, |xs|)
      invariant found == RuleFindings(7, xs, cl, ucl, lcl, i)
    {
      if forall j | i <= j < i + 15 :: z.bLower < xs[j] < z.bUpper {
        found := found + [Finding(7, i, Length(15))];
      }
    }
  }

  method ScanRule8(xs: seq<real>, cl: real, ucl: real, lcl: real, z: Zones) returns (found: seq<Finding>)
    requires z == ZonesOf(cl, ucl)
    ensures found == RuleFindings(8, xs, cl, ucl, lcl, WindowCount(Width(8), |xs|))
  {
    found := [];
    for i := 0 to WindowCount(8, |xs|)
      invariant found == RuleFindings(8, xs, cl, ucl, lcl, i)
    {
      if forall j | i <= j < i + 8 :: xs[j] < z.bLower || xs[j] > z.bUpper {
        found := found + [Finding(8, i, Length(8))];
      }
    }
  }

  /** The eight scans in rule order, on data of at least nine points. */
  method DetectNelsonRules(xs: seq<real>, cl: real, ucl: real, lcl: real) returns (patterns: seq<Finding>)
    ensures patterns == NelsonFindings(xs, cl, ucl, lcl)
  {
    if |xs| < 9 {
      return [];
    }
    var z := ZonesOf(cl, ucl);
    var p1 := ScanRule1(xs, cl, ucl, lcl);
    var p2 := ScanRule2(xs, cl, ucl, lcl);
    var p3 := ScanRule3(xs, cl, ucl, lcl);
    var p4 := ScanRule4(xs, cl, ucl, lcl);
    var p5 := ScanRule5(xs, cl, ucl, lcl, z);
    var p6 := ScanRule6(xs, cl, ucl, lcl, z);
    var p7 := ScanRule7(xs, cl, ucl, lcl, z);
    var p8 := ScanRule8(xs, cl, ucl, lcl, z);
    patterns := p1 + (p2 + (p3 + (p4 + (p5 + (p6 + (p7 + (p8 + [])))))));
    assert AllRules(xs, cl, ucl, lcl, 8) == p8 + [];
    assert AllRules(xs, cl, ucl, lcl, 7) == p7 + (p8 + []);
    assert AllRules(xs, cl, ucl, lcl, 6) == p6 + (p7 + (p8 + []));
    assert AllRules(xs, cl, ucl, lcl, 5) == p5 + (p6 + (p7 + (p8 + [])));
    assert AllRules(xs, cl, ucl, lcl, 4) == p4 + (p5 + (p6 + (p7 + (p8 + []))));
    assert AllRules(xs, cl, ucl, lcl, 3) == p3 + (p4 + (p5 + (p6 + (p7 + (p8 + [])))));
    assert AllRules(xs, cl, ucl, lcl, 2) == p2 + (p3 + (p4 + (p5 + (p6 + (p7 + (p8 + []))))));
  }

  // ---------------------------------------------------------------- analysis of one target

  /** The sigma level the analysis draws its control limits at. */
  const SigmaLevel: int := 3

  const NoDataMessage: string := "No data found for the specified period"

  datatype SpecLimits = SpecLimits(lsl: real, usl: real)

  /** The analysis result: a bare notice without data, the full analysis otherwise. The
      creation dates that accompany the values are not modelled. */
  datatype SpcReport =
    | NoData(targetId: nat, sampleCount: nat, message: string)
    | Analysis(targetId: nat, sampleCount: nat, values: seq<real>, controlLimits: Limits,
               patterns: seq<Finding>, positionData: map<Position, seq<real>>,
               positionControlLimits: map<Position, Limits>,
               positionPatterns: map<Position, seq<Finding>>, spec: Option<SpecLimits>)

  /** The patterns a series gets under its limits: a scan when there is a centre line, none
      otherwise. */
  function PatternsFor(xs: seq<real>, limits: Limits): seq<Finding>
  {
    if limits.cl.Some? && limits.ucl.Some? && limits.lcl.Some?
    then NelsonFindings(xs, limits.cl.value, limits.ucl.value, limits.lcl.value)
    else []
  }

  /** Control limits of one series and, when there is a centre line, its patterns. */
  method AnalyzeSeries(xs: seq<real>, sd: real) returns (limits: Limits, patterns: Option<seq<Finding>>)
    requires |xs| >= 2 ==> IsStdDev(xs, sd)
    ensures limits == CalculateControlLimits(xs, SigmaLevel, sd)
    ensures patterns.Some? <==> limits.cl.Some?
    ensures patterns.Some? ==> patterns.value == PatternsFor(xs, limits)
  {
    limits := CalculateControlLimits(xs, SigmaLevel, sd);
    patterns := None;
    if limits.cl.Some? {
      var found := DetectNelsonRules(xs, limits.cl.value, limits.ucl.value, limits.lcl.value);
      patterns := Some(found);
    }
  }

  /** Control limits of every position, and the patterns of those positions that have them. */
  method PositionAnalysis(ms: seq<MeasurementRow>, positionData: map<Position, seq<real>>, sigma: Series -> real)
    returns (limits: map<Position, Limits>, patterns: map<Position, seq<Finding>>)
    requires SigmaFits(ms, sigma)
    requires Gathered(ms, positionData)
    ensures limits.Keys == PositionSet
    ensures forall p :: p in limits ==> limits[p] == CalculateControlLimits(Column(ms, At(p)), SigmaLevel, sigma(At(p)))
    ensures forall p :: p in patterns <==> p in limits && limits[p].cl.Some?
    ensures forall p :: p in patterns ==> patterns[p] == PatternsFor(Column(ms, At(p)), limits[p])
  {
    limits, patterns := map[], map[];
    for k := 0 to |Positions|
      invariant forall p :: p in limits <==> p in Positions[..k]
      invariant forall p :: p in limits ==> limits[p] == CalculateControlLimits(positionData[p], SigmaLevel, sigma(At(p)))
      invariant forall p :: p in patterns <==> p in limits && limits[p].cl.Some?
      invariant forall p :: p in patterns ==> patterns[p] == PatternsFor(positionData[p], limits[p])
    {
      var position := Positions[k];
      var posLimits, posPatterns := AnalyzeSeries(positionData[position], sigma(At(position)));
      limits := limits[position := posLimits];
      if posPatterns.Some? {
        patterns := patterns[position := posPatterns.value];
      }
    }
    assert Positions[..|Positions|] == Positions;
  }

  /** The analysis part of a report on the measurements `ms`, which are not empty. */
  ghost predicate AnalysisOf(r: SpcReport, ms: seq<MeasurementRow>, sigma: Series -> real)
    requires SigmaFits(ms, sigma)
  {
    && r.Analysis?
    && r.sampleCount == |ms|
    && r.values == Column(ms, Average)
    && r.controlLimits == CalculateControlLimits(r.values, SigmaLevel, sigma(Average))
    && r.patterns == PatternsFor(r.values, r.controlLimits)
    && Gathered(ms, r.positionData)
    && r.positionControlLimits.Keys == PositionSet
    && (forall p :: p in r.positionControlLimits ==>
          r.positionControlLimits[p] == CalculateControlLimits(Column(ms, At(p)), SigmaLevel, sigma(At(p))))
    && (forall p :: p in r.positionPatterns <==> p in r.positionControlLimits && r.positionControlLimits[p].cl.Some?)
    && (forall p :: p in r.positionPatterns ==>
          r.positionPatterns[p] == PatternsFor(Column(ms, At(p)), r.positionControlLimits[p]))
  }

  /** SPC analysis of one target over its measurements in table order. The time window of the
      query is not modelled: `table` holds the rows the query may see, in creation order. */
  method AnalyzeSpc(targetId: nat, table: seq<MeasurementRow>, specs: seq<SpecRow>, sigma: Series -> real)
    returns (r: SpcReport)
    requires SigmaFits(MeasurementsOf(table, targetId), sigma)
    ensures r.targetId == targetId
    ensures r.NoData? <==> MeasurementsOf(table, targetId) == []
    ensures r.NoData? ==> r.sampleCount == 0 && r.message == NoDataMessage
    ensures r.Analysis? ==> AnalysisOf(r, MeasurementsOf(table, targetId), sigma)
    ensures r.Analysis? ==> var active := ActiveSpecOf(specs, targetId);
      && (r.spec.Some? <==> active.Some?)
      && (active.Some? ==> r.spec.value == SpecLimits(active.value.lsl, active.value.usl))
  {
    var ms := MeasurementsOf(table, targetId);
    if ms == [] {
      return NoData(targetId, 0, NoDataMessage);
    }
    var values := Column(ms, Average);
    var controlLimits := CalculateControlLimits(values, SigmaLevel, sigma(Average));
    var patterns: seq<Finding> := [];
    if controlLimits.cl.Some? {
      patterns := DetectNelsonRules(values, controlLimits.cl.value, controlLimits.ucl.value, controlLimits.lcl.value);
    }
    var positionData := map p | p in PositionSet :: Column(ms, At(p));
    var positionControlLimits, positionPatterns := PositionAnalysis(ms, positionData, sigma);
    var active := ActiveSpecOf(specs, targetId);
    var spec := if active.Some? then Some(SpecLimits(active.value.lsl, active.value.usl)) else None;
    r := Analysis(targetId, |ms|, values, controlLimits, patterns, positionData,
                  positionControlLimits, positionPatterns, spec);
  }

  /** With fewer than nine measurements no pattern is reported, overall or at any position;
      with a single one there are no control limits, so no position gets a pattern list. */
  lemma ShortSeriesHaveNoPatterns(r: SpcReport, ms: seq<MeasurementRow>, sigma: Series -> real)
    requires SigmaFits(ms, sigma) && AnalysisOf(r, ms, sigma)
    ensures |ms| < 9 ==> r.patterns == [] && forall p :: p in r.positionPatterns ==> r.positionPatterns[p] == []
    ensures |ms| < 2 ==> r.controlLimits == Limits(None, None, None) && r.positionPatterns == map[]
  {
    if |ms| < 2 {
      assert forall p :: p !in r.positionPatterns;
    }
  }
}
