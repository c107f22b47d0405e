/** The storage layer's logic: the statistics stored with each measurement, the spec-violation
    trigger, the spec-limit table with its one-active-spec-per-target policy, the spec check of
    a stored measurement, duplicate detection and the equipment guards.

    Tables are sequences of rows in storage order; a query's `.first()` is the first matching
    row. Sessions, commits and the notification service are not modelled: a raised
    notification is recorded as a `Notification` value. */
module Crud {
  import opened Wrappers
  import Seqs
  import opened Models
  import opened Statistics

  // ---------------------------------------------------------------- derived statistics

  /** Every positional reading is among the five values. */
  lemma ReadingListed(r: Readings, p: Position)
    ensures r.At(p) in r.Values()
  {
    var k := match p case Top => 0 case Center => 1 case Bottom => 2 case Left => 3 case Right => 4;
    assert r.Values()[k] == r.At(p);
  }

  lemma RoundedReadingsWithinBounds(r: Readings)
    ensures forall p :: Round3(Min(r.Values())) <= Round3(r.At(p)) <= Round3(Max(r.Values()))
  {
    forall p ensures Round3(Min(r.Values())) <= Round3(r.At(p)) <= Round3(Max(r.Values())) {
      ReadingListed(r, p);
      Round3Monotone(Min(r.Values()), r.At(p));
      Round3Monotone(r.At(p), Max(r.Values()));
    }
  }

  /** Some position carries the least reading, and some position the greatest. */
  lemma ExtremesAreReadings(r: Readings)
    ensures exists p :: r.At(p) == Min(r.Values())
    ensures exists p :: r.At(p) == Max(r.Values())
  {
    var vs := r.Values();
    var i :| 0 <= i < 5 && vs[i] == Min(vs);
    assert r.At(Positions[i]) == Min(vs);
    var j :| 0 <= j < 5 && vs[j] == Max(vs);
    assert r.At(Positions[j]) == Max(vs);
  }

  /** The statistics a new measurement is stored with: each of mean, min, max, max - min and
      the sample standard deviation `sd` of the five readings, rounded to three decimals. */
  function DerivedOnCreate(r: Readings, sd: real): (d: Derived)
    requires IsStdDev(r.Values(), sd)
    ensures d.minValue <= d.avgValue <= d.maxValue
    ensures d.rangeValue >= 0.0 && d.stdDev >= 0.0
    ensures forall p :: Round3(r.At(p)) >= d.minValue && Round3(r.At(p)) <= d.maxValue
    ensures Mean(r.Values()) - 0.0005 <= d.avgValue <= Mean(r.Values()) + 0.0005
  {
    var vs := r.Values();
    MeanWithinRange(vs);
    Round3Monotone(Min(vs), Mean(vs));
    Round3Monotone(Mean(vs), Max(vs));
    Round3Monotone(0.0, Max(vs) - Min(vs));
    Round3Monotone(0.0, sd);
    Round3OfThousandths(0);
    RoundedReadingsWithinBounds(r);
    Derived(Round3(Mean(vs)), Round3(Min(vs)), Round3(Max(vs)), Round3(Max(vs) - Min(vs)), Round3(sd))
  }

  /** What each stored statistic of a new measurement is: the least and greatest rounded
      readings, each at some position; max - min and the deviation to within half a thousandth;
      and every value a whole number of thousandths. */
  lemma DerivedOnCreateValues(r: Readings, sd: real)
    requires IsStdDev(r.Values(), sd)
    ensures var d := DerivedOnCreate(r, sd);
      && (exists p :: d.minValue == Round3(r.At(p))) && (exists p :: d.maxValue == Round3(r.At(p)))
      && Max(r.Values()) - Min(r.Values()) - 0.0005 <= d.rangeValue <= Max(r.Values()) - Min(r.Values()) + 0.0005
      && sd - 0.0005 <= d.stdDev <= sd + 0.0005
    ensures var d := DerivedOnCreate(r, sd);
      && Round3(d.avgValue) == d.avgValue && Round3(d.minValue) == d.minValue
      && Round3(d.maxValue) == d.maxValue && Round3(d.rangeValue) == d.rangeValue
      && Round3(d.stdDev) == d.stdDev
  {
    var vs := r.Values();
    ExtremesAreReadings(r);
    Round3Idempotent(Mean(vs));
    Round3Idempotent(Min(vs));
    Round3Idempotent(Max(vs));
    Round3Idempotent(Max(vs) - Min(vs));
    Round3Idempotent(sd);
  }


  /** The statistics an updated measurement is stored with: as on creation, except that the
      range is taken from the already rounded max and min, so it is exactly their difference. */
  function DerivedOnUpdate(r: Readings, sd: real): (d: Derived)
    requires IsStdDev(r.Values(), sd)
    ensures d.rangeValue == d.maxValue - d.minValue
    ensures d == DerivedOnCreate(r, sd).(rangeValue := d.rangeValue)
  {
    var created := DerivedOnCreate(r, sd);
    var vs := r.Values();
    Round3Difference(Max(vs), Min(vs));
    created.(rangeValue := Round3(created.maxValue - created.minValue))
  }

  /** Rounding before or after subtracting can differ: the same readings get a range of 0.001
      when created and 0 when updated, and on creation the stored range is not the stored
      max minus the stored min. */
  lemma RangeDependsOnPath(sd: real)
    requires IsStdDev(Readings(0.0014, 0.0006, 0.0006, 0.0006, 0.0006).Values(), sd)
    ensures var r := Readings(0.0014, 0.0006, 0.0006, 0.0006, 0.0006);
      && DerivedOnCreate(r, sd).rangeValue == 0.001
      && DerivedOnUpdate(r, sd).rangeValue == 0.0
      && DerivedOnCreate(r, sd).rangeValue != DerivedOnCreate(r, sd).maxValue - DerivedOnCreate(r, sd).minValue
  {
    var r := Readings(0.0014, 0.0006, 0.0006, 0.0006, 0.0006);
    var vs := r.Values();
    assert vs == [0.0014, 0.0006, 0.0006, 0.0006, 0.0006];
    assert Max(vs) == 0.0014 by {
      assert 0.0014 in vs;
    }
    assert Min(vs) == 0.0006 by {
      assert forall x :: x in vs ==> x >= 0.0006;
    }
    assert (0.0014 * 1000.0).Floor == 1 && (0.0006 * 1000.0).Floor == 0;
    assert ((0.0014 - 0.0006) * 1000.0).Floor == 0;
    assert Round3(0.0014) == 0.001 && Round3(0.0006) == 0.001;
    assert Round3(0.0014 - 0.0006) == 0.001;
    Round3OfThousandths(0);
  }

  // ---------------------------------------------------------------- spec checks

  /** The inclusive spec test of one value. */
  predicate InSpec(v: real, spec: SpecRow)
  {
    spec.lsl <= v <= spec.usl
  }

  /** Whether storing these readings raises a spec-violation notification: there is an active
      spec and some reading lies strictly below its lower or above its upper limit. */
  predicate ViolationRaised(r: Readings, active: Option<SpecRow>)
  {
    active.Some? && exists k | 0 <= k < 5 :: r.Values()[k] < active.value.lsl || r.Values()[k] > active.value.usl
  }

  /** The trigger fires exactly when some position is out of spec. */
  lemma ViolationIffSomePositionOutOfSpec(r: Readings, active: Option<SpecRow>)
    ensures ViolationRaised(r, active) <==> active.Some? && exists p :: !InSpec(r.At(p), active.value)
  {
    if active.Some? && exists p :: !InSpec(r.At(p), active.value) {
      var p :| !InSpec(r.At(p), active.value);
      ReadingListed(r, p);
    }
  }

  /** One reported value and whether it is within the limits. */
  datatype Check = Check(value: real, inSpec: bool)

  /** The spec check of a stored measurement: no active spec, or the limits, each positional
      reading and the stored average checked, and whether all five readings pass. */
  datatype SpecStatus =
    | NoActiveSpec
    | Status(lsl: real, usl: real, values: map<Position, Check>, avg: Check, allInSpec: bool)

  /** The five-value test and the per-position test agree. */
  lemma AllReadingsInSpec(r: Readings, spec: SpecRow)
    ensures (forall k | 0 <= k < 5 :: spec.lsl <= r.Values()[k] <= spec.usl) <==> forall p :: InSpec(r.At(p), spec)
  {
    if forall k | 0 <= k < 5 :: spec.lsl <= r.Values()[k] <= spec.usl {
      forall p ensures InSpec(r.At(p), spec) {
        ReadingListed(r, p);
      }
    }
  }

  function SpecStatusOf(m: MeasurementRow, active: Option<SpecRow>): (r: SpecStatus)
    ensures r.NoActiveSpec? <==> active.None?
    ensures r.Status? ==> r.lsl == active.value.lsl && r.usl == active.value.usl
    ensures r.Status? ==> r.values.Keys == PositionSet
    ensures r.Status? ==> forall p :: p in r.values ==> r.values[p].value == m.data.readings.At(p)
    ensures r.Status? ==> forall p :: p in r.values ==> (r.values[p].inSpec <==> InSpec(m.data.readings.At(p), active.value))
    ensures r.Status? ==> r.avg.value == m.derived.avgValue && (r.avg.inSpec <==> InSpec(m.derived.avgValue, active.value))
    ensures r.Status? ==> (r.allInSpec <==> forall p :: InSpec(m.data.readings.At(p), active.value))
  {
    match active
    case None => NoActiveSpec
    case Some(spec) =>
      var rd := m.data.readings;
      var vs := rd.Values();
      var values := map p | p in PositionSet :: Check(rd.At(p), spec.lsl <= rd.At(p) <= spec.usl);
      var allInSpec := forall k | 0 <= k < 5 :: spec.lsl <= vs[k] <= spec.usl;
      AllReadingsInSpec(rd, spec);
      Status(spec.lsl, spec.usl, values, Check(m.derived.avgValue, spec.lsl <= m.derived.avgValue <= spec.usl), allInSpec)
  }

  /** For a stored measurement under an active spec, the notification is raised exactly when
      the spec check reports that not all readings are in spec. */
  lemma ViolationIffNotAllInSpec(m: MeasurementRow, active: Option<SpecRow>)
    requires active.Some?
    ensures ViolationRaised(m.data.readings, active) <==> !SpecStatusOf(m, active).allInSpec
  {
    ViolationIffSomePositionOutOfSpec(m.data.readings, active);
  }

  // ---------------------------------------------------------------- spec-limit table

  /** At most one active spec per target. */
  predicate SingleActive(s: seq<SpecRow>)
  {
    forall i, j :: 0 <= i < |s| && 0 <= j < |s| && i != j && s[i].isActive && s[j].isActive ==> s[i].targetId != s[j].targetId
  }

  predicate DistinctSpecIds(s: seq<SpecRow>)
  {
    forall i, j :: 0 <= i < |s| && 0 <= j < |s| && i != j ==> s[i].id != s[j].id
  }

  /** Row ids are distinct and below the next id to be handed out. */
  predicate FreshSpecIds(s: seq<SpecRow>, next: nat)
  {
    (forall i :: 0 <= i < |s| ==> s[i].id < next) && DistinctSpecIds(s)
  }

  /** The position of the row `.first()` finds for `id`. */
  function SpecIndex(s: seq<SpecRow>, id: nat): (r: Option<nat>)
    ensures r.Some? ==> r.value < |s| && s[r.value].id == id
    ensures r.None? <==> forall row :: row in s ==> row.id != id
  {
    Seqs.FindFirst(s, (row: SpecRow) => row.id == id)
  }

  /** `create_spec`: every spec of the target is switched off, then the new row is added as
      the active one. */
  function WithSpecCreated(s: seq<SpecRow>, id: nat, targetId: nat, lsl: real, usl: real, reason: string): (r: seq<SpecRow>)
    ensures |r| == |s| + 1 && r[|s|] == SpecRow(id, targetId, lsl, usl, reason, true)
    ensures forall k :: 0 <= k < |s| && s[k].targetId != targetId ==> r[k] == s[k]
    ensures forall k :: 0 <= k < |s| && s[k].targetId == targetId ==> r[k] == s[k].(isActive := false)
  {
    seq(|s|, k requires 0 <= k < |s| =>
      if s[k].targetId == targetId && s[k].isActive then s[k].(isActive := false) else s[k])
    + [SpecRow(id, targetId, lsl, usl, reason, true)]
  }

  /** After `create_spec` the new spec is the only active spec of its target, the active-spec
      query returns it, and one-active-per-target holds if it held before. */
  lemma CreateSpecProperties(s: seq<SpecRow>, id: nat, targetId: nat, lsl: real, usl: real, reason: string)
    ensures var r := WithSpecCreated(s, id, targetId, lsl, usl, reason);
      && (forall k :: 0 <= k < |r| && r[k].targetId == targetId && r[k].isActive ==> k == |s|)
      && ActiveSpecOf(r, targetId) == Some(r[|s|])
      && (SingleActive(s) ==> SingleActive(r))
  {
    var r := WithSpecCreated(s, id, targetId, lsl, usl, reason);
    assert forall k :: 0 <= k < |s| && r[k].targetId == targetId ==> !r[k].isActive;
    match Seqs.FindFirst(r, (row: SpecRow) => row.targetId == targetId && row.isActive)
    case None =>
      assert r[|s|] in r;
    case Some(k) =>
  }

  /** `activate_spec` on the row at `k`: every other spec of its target with another id is
      switched off, then that row is switched on. Only the flags change. */
  function WithSpecActivated(s: seq<SpecRow>, k: nat): (r: seq<SpecRow>)
    requires k < |s|
    ensures |r| == |s| && r[k] == s[k].(isActive := true)
    ensures forall j :: 0 <= j < |s| ==> r[j] == s[j].(isActive := r[j].isActive)
    ensures forall j :: 0 <= j < |s| && s[j].targetId != s[k].targetId ==> r[j] == s[j]
    ensures forall j :: 0 <= j < |s| && s[j].targetId == s[k].targetId && s[j].id != s[k].id ==> !r[j].isActive
  {
    seq(|s|, j requires 0 <= j < |s| =>
      if j == k then s[j].(isActive := true)
      else if s[j].targetId == s[k].targetId && s[j].id != s[k].id then s[j].(isActive := false)
      else s[j])
  }

  /** With distinct ids, the activated spec is the only active one of its target, the
      active-spec query returns it, and one-active-per-target is preserved. */
  lemma ActivateSpecProperties(s: seq<SpecRow>, k: nat)
    requires k < |s| && DistinctSpecIds(s)
    ensures var r := WithSpecActivated(s, k);
      && (forall j :: 0 <= j < |r| && r[j].targetId == s[k].targetId && r[j].isActive ==> j == k)
      && ActiveSpecOf(r, s[k].targetId) == Some(r[k])
      && (SingleActive(s) ==> SingleActive(r))
  {
    var r := WithSpecActivated(s, k);
    assert r[k] in r;
  }

  /** `update_spec` as written: the row at `k` takes the new target, limits and reason; its
      flag, and every other row, stay as they are. */
  function WithSpecUpdated(s: seq<SpecRow>, k: nat, targetId: nat, lsl: real, usl: real, reason: string): (r: seq<SpecRow>)
    requires k < |s|
    ensures |r| == |s|
    ensures forall j :: 0 <= j < |s| ==> r[j].isActive == s[j].isActive && r[j].id == s[j].id
    ensures r[k].targetId == targetId && r[k].lsl == lsl && r[k].usl == usl && r[k].reason == reason
    ensures forall j :: 0 <= j < |s| && j != k ==> r[j] == s[j]
  {
    s[k := s[k].(targetId := targetId, lsl := lsl, usl := usl, reason := reason)]
  }

  /** Exactly when the as-written update keeps one active spec per target: the edited spec is
      inactive, or its new target has no other active spec. */
  lemma UpdateSpecSingleActiveIff(s: seq<SpecRow>, k: nat, targetId: nat, lsl: real, usl: real, reason: string)
    requires k < |s| && SingleActive(s)
    ensures SingleActive(WithSpecUpdated(s, k, targetId, lsl, usl, reason)) <==>
      !s[k].isActive || forall j :: 0 <= j < |s| && j != k && s[j].isActive ==> s[j].targetId != targetId
  {
    var r := WithSpecUpdated(s, k, targetId, lsl, usl, reason);
    if !SingleActive(r) {
      var i, j :| 0 <= i < |r| && 0 <= j < |r| && i != j && r[i].isActive && r[j].isActive && r[i].targetId == r[j].targetId;
      assert i == k || j == k;
    }
  }

  /** Moving an active spec onto a target that has one leaves that target with two. */
  lemma UpdateSpecBreaksSingleActive()
    ensures var s := [SpecRow(1, 10, 0.0, 1.0, "", true), SpecRow(2, 20, 0.0, 1.0, "", true)];
      SingleActive(s) && !SingleActive(WithSpecUpdated(s, 1, 10, 0.0, 1.0, ""))
  {
    var s := [SpecRow(1, 10, 0.0, 1.0, "", true), SpecRow(2, 20, 0.0, 1.0, "", true)];
    var r := WithSpecUpdated(s, 1, 10, 0.0, 1.0, "");
    assert r[0].isActive && r[1].isActive && r[0].targetId == r[1].targetId;
  }

  /** `update_spec` under the creation policy: when the edited spec is active, the other specs
      of its new target are switched off, as `create_spec` and `activate_spec` do. */
  function WithSpecUpdatedCorrected(s: seq<SpecRow>, k: nat, targetId: nat, lsl: real, usl: real, reason: string): (r: seq<SpecRow>)
    requires k < |s|
    ensures |r| == |s|
    ensures r[k] == s[k].(targetId := targetId, lsl := lsl, usl := usl, reason := reason)
    ensures forall j :: 0 <= j < |s| ==> r[j].id == s[j].id
    ensures forall j :: 0 <= j < |s| && j != k ==> r[j] == s[j].(isActive := r[j].isActive)
    ensures forall j :: 0 <= j < |s| && j != k && s[j].targetId != targetId ==> r[j] == s[j]
    ensures !s[k].isActive ==> r == WithSpecUpdated(s, k, targetId, lsl, usl, reason)
  {
    seq(|s|, j requires 0 <= j < |s| =>
      if j == k then s[j].(targetId := targetId, lsl := lsl, usl := usl, reason := reason)
      else if s[k].isActive && s[j].targetId == targetId then s[j].(isActive := false)
      else s[j])
  }

  /** The corrected update keeps one active spec per target, and agrees with the as-written
      update whenever that one does. */
  lemma UpdateSpecCorrectedKeepsSingleActive(s: seq<SpecRow>, k: nat, targetId: nat, lsl: real, usl: real, reason: string)
    requires k < |s| && SingleActive(s)
    ensures SingleActive(WithSpecUpdatedCorrected(s, k, targetId, lsl, usl, reason))
    ensures SingleActive(WithSpecUpdated(s, k, targetId, lsl, usl, reason)) ==>
      WithSpecUpdatedCorrected(s, k, targetId, lsl, usl, reason) == WithSpecUpdated(s, k, targetId, lsl, usl, reason)
  {
    var r := WithSpecUpdatedCorrected(s, k, targetId, lsl, usl, reason);
    var w := WithSpecUpdated(s, k, targetId, lsl, usl, reason);
    UpdateSpecSingleActiveIff(s, k, targetId, lsl, usl, reason);
    if SingleActive(w) {
      forall j | 0 <= j < |s| ensures r[j] == w[j] {
        if j != k && s[k].isActive && s[j].targetId == targetId {
          assert !s[j].isActive;
        }
      }
    }
  }

  /** Removing a row keeps one active spec per target and fresh ids. */
  lemma DeleteSpecKeepsInvariants(s: seq<SpecRow>, k: nat, next: nat)
    requires k < |s|
    ensures SingleActive(s) ==> SingleActive(Seqs.RemoveAt(s, k))
    ensures FreshSpecIds(s, next) ==> FreshSpecIds(Seqs.RemoveAt(s, k), next)
  {
    var r := Seqs.RemoveAt(s, k);
    assert forall i :: 0 <= i < |r| ==> r[i] == s[if i < k then i else i + 1];
  }

  /** Activation keeps ids, so fresh ids stay fresh; a created row with the next id keeps
      them fresh for the id after it. */
  lemma SpecTransitionsKeepFreshIds(s: seq<SpecRow>, next: nat)
    requires FreshSpecIds(s, next)
    ensures forall k: nat, t, lsl, usl, reason :: k < |s| ==>
      FreshSpecIds(WithSpecUpdated(s, k, t, lsl, usl, reason), next)
    ensures forall k: nat, t, lsl, usl, reason :: k < |s| ==>
      FreshSpecIds(WithSpecUpdatedCorrected(s, k, t, lsl, usl, reason), next)
    ensures forall k: nat :: k < |s| ==> FreshSpecIds(WithSpecActivated(s, k), next)
    ensures forall t, lsl, usl, reason :: FreshSpecIds(WithSpecCreated(s, next, t, lsl, usl, reason), next + 1)
  {
  }

  // ---------------------------------------------------------------- measurement updates

  /** One field a client set in an update request; fields it did not set are not sent. */
  datatype Field =
    | TargetId(targetId: nat)
    | CoatingEquipment(coating: EquipmentRef)
    | ExposureEquipment(exposure: EquipmentRef)
    | DevelopmentEquipment(development: EquipmentRef)
    | Device(device: string)
    | LotNo(lotNo: string)
    | WaferNo(waferNo: string)
    | Value(position: Position, value: real)
    | Author(author: string)

  function WithReading(r: Readings, p: Position, v: real): (w: Readings)
    ensures w.At(p) == v
    ensures forall q :: q != p ==> w.At(q) == r.At(q)
  {
    match p
    case Top => r.(top := v)
    case Center => r.(center := v)
    case Bottom => r.(bottom := v)
    case Left => r.(left := v)
    case Right => r.(right := v)
  }

  /** One `setattr`. */
  function Assign(d: MeasurementData, f: Field): MeasurementData
  {
    match f
    case TargetId(t) => d.(targetId := t)
    case CoatingEquipment(e) => d.(coatingEquipmentId := e)
    case ExposureEquipment(e) => d.(exposureEquipmentId := e)
    case DevelopmentEquipment(e) => d.(developmentEquipmentId := e)
    case Device(x) => d.(device := x)
    case LotNo(x) => d.(lotNo := x)
    case WaferNo(x) => d.(waferNo := x)
    case Value(p, v) => d.(readings := WithReading(d.readings, p, v))
    case Author(x) => d.(author := x)
  }

  /** The fields assigned one after another, in request order. */
  function Patched(d: MeasurementData, fields: seq<Field>): MeasurementData
  {
    if fields == [] then d else Assign(Patched(d, fields[..|fields| - 1]), fields[|fields| - 1])
  }

  /** The target and the readings the request does not set keep their stored values. */
  lemma {:induction false} UnsetFieldsKept(d: MeasurementData, fields: seq<Field>, p: Position)
    ensures (forall f :: f in fields ==> !f.TargetId?) ==> Patched(d, fields).targetId == d.targetId
    ensures (forall f :: f in fields ==> !(f.Value? && f.position == p)) ==>
      Patched(d, fields).readings.At(p) == d.readings.At(p)
  {
    if fields != [] {
      var init := fields[..|fields| - 1];
      UnsetFieldsKept(d, init, p);
      assert forall f :: f in init ==> f in fields;
      assert fields[|fields| - 1] in fields;
    }
  }

  /** A reading the request sets, and no later field sets again, takes that value. */
  lemma {:induction false} LastSetReadingWins(d: MeasurementData, fields: seq<Field>, i: nat)
    requires i < |fields| && fields[i].Value?
    requires forall j :: i < j < |fields| ==> !(fields[j].Value? && fields[j].position == fields[i].position)
    ensures Patched(d, fields).readings.At(fields[i].position) == fields[i].value
  {
    if i < |fields| - 1 {
      var init := fields[..|fields| - 1];
      assert init[i] == fields[i];
      LastSetReadingWins(d, init, i);
    }
  }

  /** The position of the row `.first()` finds for `id`. */
  function MeasurementIndex(ms: seq<MeasurementRow>, id: nat): (r: Option<nat>)
    ensures r.Some? ==> r.value < |ms| && ms[r.value].id == id
    ensures r.None? <==> forall m :: m in ms ==> m.id != id
  {
    Seqs.FindFirst(ms, (m: MeasurementRow) => m.id == id)
  }

  // ---------------------------------------------------------------- equipment

  datatype EquipmentData = EquipmentData(name: string, kind: string, description: string, isActive: bool)

  datatype EquipmentRow = EquipmentRow(id: nat, data: EquipmentData)

  /** Coating, exposure and development. */
  const EquipmentTypes: seq<string> := ["코팅", "노광", "현상"]

  const InvalidEquipmentType: string := "Invalid equipment type. Must be one of: 코팅, 노광, 현상"

  function EquipmentIndex(es: seq<EquipmentRow>, id: nat): (r: Option<nat>)
    ensures r.Some? ==> r.value < |es| && es[r.value].id == id
    ensures r.None? <==> forall e :: e in es ==> e.id != id
  {
    Seqs.FindFirst(es, (e: EquipmentRow) => e.id == id)
  }

  /** The measurement names the equipment in one of its three slots. */
  predicate References(m: MeasurementRow, equipmentId: nat)
  {
    m.data.coatingEquipmentId == Some(equipmentId)
    || m.data.exposureEquipmentId == Some(equipmentId)
    || m.data.developmentEquipmentId == Some(equipmentId)
  }

  // ---------------------------------------------------------------- the database

  datatype Notification = SpecViolation(measurementId: nat, specId: nat)

  class Database {
    var measurements: seq<MeasurementRow>
    var specs: seq<SpecRow>
    var equipments: seq<EquipmentRow>
    var notifications: seq<Notification>
    var nextMeasurementId: nat
    var nextSpecId: nat
    var nextEquipmentId: nat

    /** Spec ids are distinct and below the id counter. One active spec per target is not
        part of it: `update_spec` can break that (see `UpdateSpecBreaksSingleActive`). */
    predicate Valid()
      reads this
    {
      FreshSpecIds(specs, nextSpecId)
    }

    constructor()
      ensures Valid()
      ensures measurements == [] && specs == [] && equipments == [] && notifications == []
      ensures nextMeasurementId == 1 && nextSpecId == 1 && nextEquipmentId == 1
    {
      measurements, specs, equipments, notifications := [], [], [], [];
      nextMeasurementId, nextSpecId, nextEquipmentId := 1, 1, 1;
    }

    /** The spec check after storing `row`: a notification when a reading is out of the
        active spec of its target. */
    method NotifyViolation(row: MeasurementRow)
      modifies this`notifications
      ensures var active := ActiveSpecOf(specs, row.data.targetId);
        notifications == old(notifications) +
          if ViolationRaised(row.data.readings, active) then [SpecViolation(row.id, active.value.id)] else []
    {
      var active := ActiveSpecOf(specs, row.data.targetId);
      if active.Some? {
        var vs := row.data.readings.Values();
        if exists k | 0 <= k < 5 :: vs[k] < active.value.lsl || vs[k] > active.value.usl {
          notifications := notifications + [SpecViolation(row.id, active.value.id)];
        }
      }
    }

    /** `create_measurement`: store the readings with their derived statistics, then raise a
        violation notification if they break the target's active spec. `sd` is the sample
        standard deviation of the five readings. */
    method CreateMeasurement(data: MeasurementData, sd: real) returns (row: MeasurementRow)
      requires IsStdDev(data.readings.Values(), sd)
      modifies this`measurements, this`nextMeasurementId, this`notifications
      ensures row == MeasurementRow(old(nextMeasurementId), data, DerivedOnCreate(data.readings, sd))
      ensures measurements == old(measurements) + [row]
      ensures nextMeasurementId == old(nextMeasurementId) + 1
      ensures var active := ActiveSpecOf(specs, data.targetId);
        notifications == old(notifications) +
          if ViolationRaised(data.readings, active) then [SpecViolation(row.id, active.value.id)] else []
    {
      row := MeasurementRow(nextMeasurementId, data, DerivedOnCreate(data.readings, sd));
      measurements := measurements + [row];
      nextMeasurementId := nextMeasurementId + 1;
      NotifyViolation(row);
    }

    /** `update_measurement`: assign the request's fields one by one, recompute the derived
        statistics (the range from the rounded max and min), then run the violation check.
        `sd` is the sample standard deviation of the updated readings. */
    method UpdateMeasurement(id: nat, fields: seq<Field>, sd: real) returns (r: Option<MeasurementRow>)
      requires forall k :: 0 <= k < |measurements| && measurements[k].id == id ==>
        IsStdDev(Patched(measurements[k].data, fields).readings.Values(), sd)
      modifies this`measurements, this`notifications
      ensures r.None? <==> MeasurementIndex(old(measurements), id).None?
      ensures r.None? ==> measurements == old(measurements) && notifications == old(notifications)
      ensures r.Some? ==> var k := MeasurementIndex(old(measurements), id).value;
        && r.value.id == id
        && r.value.data == Patched(old(measurements)[k].data, fields)
        && r.value.derived == DerivedOnUpdate(r.value.data.readings, sd)
        && measurements == old(measurements)[k := r.value]
      ensures r.Some? ==> var active := ActiveSpecOf(specs, r.value.data.targetId);
        notifications == old(notifications) +
          if ViolationRaised(r.value.data.readings, active) then [SpecViolation(id, active.value.id)] else []
    {
      var index := MeasurementIndex(measurements, id);
      if index.None? {
        return None;
      }
      var k := index.value;
      var data := measurements[k].data;
      for i := 0 to |fields|
        invariant data == Patched(measurements[k].data, fields[..i])
      {
        assert fields[..i + 1][..i] == fields[..i];
        data := Assign(data, fields[i]);
      }
      assert fields[..|fields|] == fields;
      var row := MeasurementRow(id, data, DerivedOnUpdate(data.readings, sd));
      measurements := measurements[k := row];
      NotifyViolation(row);
      r := Some(row);
    }

    /** `delete_measurement`: remove the first row with that id, if any. */
    method DeleteMeasurement(id: nat) returns (deleted: bool)
      modifies this`measurements
      ensures deleted <==> MeasurementIndex(old(measurements), id).Some?
      ensures deleted ==> measurements == Seqs.RemoveAt(old(measurements), MeasurementIndex(old(measurements), id).value)
      ensures !deleted ==> measurements == old(measurements)
    {
      var index := MeasurementIndex(measurements, id);
      if index.None? {
        return false;
      }
      measurements := Seqs.RemoveAt(measurements, index.value);
      return true;
    }

    /** `check_spec_status`: nothing for an unknown measurement, otherwise its spec check
        against the active spec of its target. */
    function CheckSpecStatus(measurementId: nat): (r: Option<SpecStatus>)
      reads this
      ensures r.None? <==> forall m :: m in measurements ==> m.id != measurementId
      ensures r.Some? ==> exists m :: (m in measurements && m.id == measurementId &&
        r.value == SpecStatusOf(m, ActiveSpecOf(specs, m.data.targetId)))
    {
      match MeasurementIndex(measurements, measurementId)
      case None => None
      case Some(k) =>
        var m := measurements[k];
        assert m in measurements;
        Some(SpecStatusOf(m, ActiveSpecOf(specs, m.data.targetId)))
    }

    /** `check_duplicate_measurement`: some stored row has the same target, lot and wafer. */
    function CheckDuplicateMeasurement(targetId: nat, lotNo: string, waferNo: string): (b: bool)
      reads this
      ensures b <==> exists m :: (m in measurements && m.data.targetId == targetId &&
        m.data.lotNo == lotNo && m.data.waferNo == waferNo)
    {
      Seqs.FindFirst(measurements, (m: MeasurementRow) =>
        m.data.targetId == targetId && m.data.lotNo == lotNo && m.data.waferNo == waferNo).Some?
    }

    /** `create_spec`: switch off the target's active specs and add the new one, active. */
    method CreateSpec(targetId: nat, lsl: real, usl: real, reason: string) returns (row: SpecRow)
      requires Valid()
      modifies this`specs, this`nextSpecId
      ensures Valid()
      ensures row == SpecRow(old(nextSpecId), targetId, lsl, usl, reason, true)
      ensures specs == WithSpecCreated(old(specs), row.id, targetId, lsl, usl, reason)
      ensures nextSpecId == old(nextSpecId) + 1
      ensures ActiveSpecOf(specs, targetId) == Some(row)
      ensures SingleActive(old(specs)) ==> SingleActive(specs)
    {
      row := SpecRow(nextSpecId, targetId, lsl, usl, reason, true);
      CreateSpecProperties(specs, nextSpecId, targetId, lsl, usl, reason);
      SpecTransitionsKeepFreshIds(specs, nextSpecId);
      specs := WithSpecCreated(specs, nextSpecId, targetId, lsl, usl, reason);
      nextSpecId := nextSpecId + 1;
    }

    /** `activate_spec`: nothing for an unknown id; otherwise switch off the other specs of
        its target and switch it on. */
    method ActivateSpec(id: nat) returns (r: Option<SpecRow>)
      requires Valid()
      modifies this`specs
      ensures Valid()
      ensures r.None? <==> SpecIndex(old(specs), id).None?
      ensures r.None? ==> specs == old(specs)
      ensures r.Some? ==> var k := SpecIndex(old(specs), id).value;
        specs == WithSpecActivated(old(specs), k) && r.value == specs[k] && r.value.isActive
      ensures r.Some? ==> ActiveSpecOf(specs, r.value.targetId) == r
      ensures SingleActive(old(specs)) ==> SingleActive(specs)
    {
      var index := SpecIndex(specs, id);
      if index.None? {
        return None;
      }
      var k := index.value;
      ActivateSpecProperties(specs, k);
      SpecTransitionsKeepFreshIds(specs, nextSpecId);
      specs := WithSpecActivated(specs, k);
      r := Some(specs[k]);
    }

    /** `update_spec`: nothing for an unknown id; otherwise the row takes the new target,
        limits and reason, and no activity flag changes. One active spec per target survives
        exactly when the row is inactive or its new target has no other active spec. */
    method UpdateSpec(id: nat, targetId: nat, lsl: real, usl: real, reason: string) returns (r: Option<SpecRow>)
      requires Valid()
      modifies this`specs
      ensures Valid()
      ensures r.None? <==> SpecIndex(old(specs), id).None?
      ensures r.None? ==> specs == old(specs)
      ensures r.Some? ==> var k := SpecIndex(old(specs), id).value;
        specs == WithSpecUpdated(old(specs), k, targetId, lsl, usl, reason) && r.value == specs[k]
      ensures r.Some? && SingleActive(old(specs)) ==> var k := SpecIndex(old(specs), id).value;
        SingleActive(specs) <==>
          !old(specs)[k].isActive ||
          forall j :: 0 <= j < |old(specs)| && j != k && old(specs)[j].isActive ==> old(specs)[j].targetId != targetId
    {
      var index := SpecIndex(specs, id);
      if index.None? {
        return None;
      }
      var k := index.value;
      if SingleActive(specs) {
        UpdateSpecSingleActiveIff(specs, k, targetId, lsl, usl, reason);
      }
      SpecTransitionsKeepFreshIds(specs, nextSpecId);
      specs := WithSpecUpdated(specs, k, targetId, lsl, usl, reason);
      r := Some(specs[k]);
    }

    /** `delete_spec`: remove the row with that id, if any. */
    method DeleteSpec(id: nat) returns (deleted: bool)
      requires Valid()
      modifies this`specs
      ensures Valid()
      ensures deleted <==> SpecIndex(old(specs), id).Some?
      ensures deleted ==> specs == Seqs.RemoveAt(old(specs), SpecIndex(old(specs), id).value)
      ensures !deleted ==> specs == old(specs)
      ensures SingleActive(old(specs)) ==> SingleActive(specs)
    {
      var index := SpecIndex(specs, id);
      if index.None? {
        return false;
      }
      DeleteSpecKeepsInvariants(specs, index.value, nextSpecId);
      specs := Seqs.RemoveAt(specs, index.value);
      return true;
    }

    /** `create_equipment`: a type outside the three process steps is refused. */
    method CreateEquipment(e: EquipmentData) returns (r: Result<EquipmentRow, string>)
      modifies this`equipments, this`nextEquipmentId
      ensures e.kind !in EquipmentTypes ==>
        r == Err(InvalidEquipmentType) && equipments == old(equipments) && nextEquipmentId == old(nextEquipmentId)
      ensures e.kind in EquipmentTypes ==>
        && r == Ok(EquipmentRow(old(nextEquipmentId), e))
        && equipments == old(equipments) + [r.value]
        && nextEquipmentId == old(nextEquipmentId) + 1
    {
      if e.kind !in EquipmentTypes {
        return Err(InvalidEquipmentType);
      }
      var row := EquipmentRow(nextEquipmentId, e);
      equipments := equipments + [row];
      nextEquipmentId := nextEquipmentId + 1;
      r := Ok(row);
    }

    /** `update_equipment`: an unknown id gives nothing (before any type check); a known one
        with an invalid type is refused; otherwise its fields are replaced. */
    method UpdateEquipment(id: nat, e: EquipmentData) returns (r: Result<Option<EquipmentRow>, string>)
      modifies this`equipments
      ensures EquipmentIndex(old(equipments), id).None? ==> r == Ok(None) && equipments == old(equipments)
      ensures EquipmentIndex(old(equipments), id).Some? && e.kind !in EquipmentTypes ==>
        r == Err(InvalidEquipmentType) && equipments == old(equipments)
      ensures EquipmentIndex(old(equipments), id).Some? && e.kind in EquipmentTypes ==>
        && r == Ok(Some(EquipmentRow(id, e)))
        && equipments == old(equipments)[EquipmentIndex(old(equipments), id).value := EquipmentRow(id, e)]
    {
      var index := EquipmentIndex(equipments, id);
      if index.None? {
        return Ok(None);
      }
      if e.kind !in EquipmentTypes {
        return Err(InvalidEquipmentType);
      }
      var row := EquipmentRow(id, e);
      equipments := equipments[index.value := row];
      r := Ok(Some(row));
    }

    /** `delete_equipment`: refused, with nothing changed, for an unknown id or while any
        measurement references the equipment in any of its three slots. */
    method DeleteEquipment(id: nat) returns (deleted: bool)
      modifies this`equipments
      ensures deleted <==> (EquipmentIndex(old(equipments), id).Some? &&
        forall m :: m in measurements ==> !References(m, id))
      ensures deleted ==> equipments == Seqs.RemoveAt(old(equipments), EquipmentIndex(old(equipments), id).value)
      ensures !deleted ==> equipments == old(equipments)
    {
      var index := EquipmentIndex(equipments, id);
      if index.None? {
        return false;
      }
      var referencing := Seqs.Filter(measurements, (m: MeasurementRow) => References(m, id));
      if |referencing| > 0 {
        assert referencing[0] in referencing;
        return false;
      }
      equipments := Seqs.RemoveAt(equipments, index.value);
      return true;
    }
  }
}
