/** The persisted rows the services read: measurements at five die positions, and
    specification limits per target. Storage itself is not modelled; a table is a sequence
    of rows in storage order. */
module Models {
  import opened Wrappers
  import Seqs

  /** The five die positions at which a critical dimension is read. */
  datatype Position = Top | Center | Bottom | Left | Right

  /** Positions in the order the services iterate them. */
  const Positions: seq<Position> := [Top, Center, Bottom, Left, Right]
  const PositionSet: set<Position> := {Top, Center, Bottom, Left, Right}

  /** Every position is listed once in `Positions`. */
  lemma PositionsListed()
    ensures (set k | 0 <= k < |Positions| :: Positions[k]) == PositionSet
  {
    var listed := set k | 0 <= k < |Positions| :: Positions[k];
    assert Positions[0] in listed && Positions[1] in listed && Positions[2] in listed;
    assert Positions[3] in listed && Positions[4] in listed;
  }

  datatype Readings = Readings(top: real, center: real, bottom: real, left: real, right: real)
  {
    function At(p: Position): real
    {
      match p
      case Top => top
      case Center => center
      case Bottom => bottom
      case Left => left
      case Right => right
    }

    /** The five readings in the order top, center, bottom, left, right. */
    function Values(): (vs: seq<real>)
      ensures |vs| == 5
      ensures forall k :: 0 <= k < 5 ==> vs[k] == At(Positions[k])
    {
      [top, center, bottom, left, right]
    }
  }

  /** Nullable foreign key. */
  type EquipmentRef = Option<nat>

  /** The fields a client submits for a measurement. */
  datatype MeasurementData = MeasurementData(
    targetId: nat,
    coatingEquipmentId: EquipmentRef,
    exposureEquipmentId: EquipmentRef,
    developmentEquipmentId: EquipmentRef,
    device: string,
    lotNo: string,
    waferNo: string,
    readings: Readings,
    author: string)

  /** The statistics stored beside the readings of a measurement. */
  datatype Derived = Derived(avgValue: real, minValue: real, maxValue: real, rangeValue: real, stdDev: real)

  datatype MeasurementRow = MeasurementRow(id: nat, data: MeasurementData, derived: Derived)

  datatype SpecRow = SpecRow(id: nat, targetId: nat, lsl: real, usl: real, reason: string, isActive: bool)

  /** A value series the analysis runs over: the stored average, or one die position. */
  datatype Series = Average | At(position: Position)

  const AllSeries: set<Series> := {Average, At(Top), At(Center), At(Bottom), At(Left), At(Right)}

  function SeriesValue(m: MeasurementRow, s: Series): real
  {
    match s
    case Average => m.derived.avgValue
    case At(p) => m.data.readings.At(p)
  }

  /** The values of one series across the measurements, in their order. */
  function Column(ms: seq<MeasurementRow>, s: Series): (vs: seq<real>)
    ensures |vs| == |ms|
    ensures forall k :: 0 <= k < |ms| ==> vs[k] == SeriesValue(ms[k], s)
  {
    seq(|ms|, k requires 0 <= k < |ms| => SeriesValue(ms[k], s))
  }

  /** Extending the measurements by one row extends every column by that row's value. */
  lemma ColumnSnoc(ms: seq<MeasurementRow>, i: nat)
    requires i < |ms|
    ensures forall s :: Column(ms[..i + 1], s) == Column(ms[..i], s) + [SeriesValue(ms[i], s)]
  {
  }

  /** The measurement query of one target: its rows, in table order. */
  function MeasurementsOf(table: seq<MeasurementRow>, t: nat): (ms: seq<MeasurementRow>)
    ensures forall m :: m in ms <==> m in table && m.data.targetId == t
    ensures |ms| <= |table|
  {
    Seqs.Filter(table, (m: MeasurementRow) => m.data.targetId == t)
  }

  /** The active-spec query: the first row of the table that belongs to target `t` and is
      active. */
  function ActiveSpecOf(specs: seq<SpecRow>, t: nat): (r: Option<SpecRow>)
    ensures r.Some? ==> r.value in specs && r.value.targetId == t && r.value.isActive
    ensures r.None? <==> forall s :: s in specs ==> !(s.targetId == t && s.isActive)
  {
    match Seqs.FindFirst(specs, (s: SpecRow) => s.targetId == t && s.isActive)
    case None => None
    case Some(k) => Some(specs[k])
  }
}
