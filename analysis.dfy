/**
 * The sequential-delta anomaly engine (src/Db_work/analysis.py).
 *
 * `create_anomaly_features_table` drops the rows without a `time_position`,
 * runs a window `PARTITION BY icao24 ORDER BY time_position` whose LAG pairs
 * each row with its predecessor in the same partition, keeps the rows that
 * have one, and computes velocity, altitude and time deltas and a climb rate.
 * `flag_anomalies` appends three threshold flags to every feature row.
 *
 * SQL fixes neither the order of rows with equal `time_position` inside a
 * partition nor the order of the result, so the engine is stated for every
 * order the window may use (`IsWindowOrder`), not for one chosen order.
 */
module Analysis {
  import opened Wrappers
  import opened Sql
  import opened Schema
  import Sorting

  /** `FROM enriched_aircraft_states WHERE time_position IS NOT NULL`, in input order. */
  function WithTime(rows: seq<EnrichedRow>): (r: seq<EnrichedRow>)
    ensures forall e :: e in r <==> e in rows && e.state.timePosition.Some?
    ensures forall e :: multiset(r)[e] == if e.state.timePosition.Some? then multiset(rows)[e] else 0
    ensures |r| <= |rows|
  {
    if rows == [] then []
    else
      assert rows == [rows[0]] + rows[1..];
      (if rows[0].state.timePosition.Some? then [rows[0]] else []) + WithTime(rows[1..])
  }

  /** The partition key. A NULL `icao24` forms one partition of its own, as in SQL. */
  function PartitionKey(e: EnrichedRow): Option<string> {
    e.state.icao24
  }

  /** The ordering column in seconds; only read for rows that have one. */
  function Epoch(e: EnrichedRow): int {
    e.state.timePosition.GetOr(0)
  }

  function EpochKey(e: EnrichedRow): real {
    Epoch(e) as real
  }

  /** The distinct partitions among `s`. */
  ghost function Partitions(s: seq<EnrichedRow>): set<Option<string>> {
    set e | e in s :: PartitionKey(e)
  }

  /**
   * `arr` is an order in which the window may scan `rows`: a permutation of
   * the rows that have a `time_position` in which the rows of each partition
   * come in non-decreasing time. Ties, and how partitions interleave, are
   * left open.
   */
  ghost predicate IsWindowOrder(rows: seq<EnrichedRow>, arr: seq<EnrichedRow>) {
    multiset(arr) == multiset(WithTime(rows)) &&
    forall i, j :: 0 <= i < j < |arr| && PartitionKey(arr[i]) == PartitionKey(arr[j]) ==>
      Epoch(arr[i]) <= Epoch(arr[j])
  }

  /** Every input has at least one window order: the rows with a time, sorted by time. */
  lemma WindowOrderExists(rows: seq<EnrichedRow>)
    ensures IsWindowOrder(rows, Sorting.SortBy(WithTime(rows), EpochKey))
  {
    var arr := Sorting.SortBy(WithTime(rows), EpochKey);
    forall i, j | 0 <= i < j < |arr| && PartitionKey(arr[i]) == PartitionKey(arr[j])
      ensures Epoch(arr[i]) <= Epoch(arr[j])
    {
      assert EpochKey(arr[i]) <= EpochKey(arr[j]);
    }
  }

  lemma WindowOrderRowsHaveTime(rows: seq<EnrichedRow>, arr: seq<EnrichedRow>)
    requires IsWindowOrder(rows, arr)
    ensures forall e :: e in arr ==> e in rows && e.state.timePosition.Some?
  {
    forall e | e in arr ensures e in rows && e.state.timePosition.Some? {
      assert e in multiset(arr);
      assert e in multiset(WithTime(rows));
    }
  }

  /** Scans positions `j-1, j-2, …, 0` for the nearest one in the partition of position `i`. */
  function LagFrom(arr: seq<EnrichedRow>, i: nat, j: nat): (p: Option<nat>)
    requires i < |arr| && j <= i
    ensures p.Some? ==> p.value < j && PartitionKey(arr[p.value]) == PartitionKey(arr[i])
    ensures p.Some? ==> forall k :: p.value < k < j ==> PartitionKey(arr[k]) != PartitionKey(arr[i])
    ensures p.None? ==> forall k :: 0 <= k < j ==> PartitionKey(arr[k]) != PartitionKey(arr[i])
    decreases j
  {
    if j == 0 then None
    else if PartitionKey(arr[j - 1]) == PartitionKey(arr[i]) then Some(j - 1)
    else LagFrom(arr, i, j - 1)
  }

  /**
   * The position whose values `LAG(…) OVER (PARTITION BY icao24 ORDER BY
   * time_position)` returns for position `i`: the immediately preceding
   * position of the same partition, or none for a partition's first row.
   */
  function Lag(arr: seq<EnrichedRow>, i: nat): (p: Option<nat>)
    requires i < |arr|
    ensures p.Some? ==> p.value < i && PartitionKey(arr[p.value]) == PartitionKey(arr[i])
    ensures p.Some? ==> forall k :: p.value < k < i ==> PartitionKey(arr[k]) != PartitionKey(arr[i])
    ensures p.None? <==> forall k :: 0 <= k < i ==> PartitionKey(arr[k]) != PartitionKey(arr[i])
  {
    LagFrom(arr, i, i)
  }

  /** One row of the `ordered_states` CTE: the row and its four LAG columns. */
  datatype OrderedState = OrderedState(
    row: EnrichedRow,
    prevVelocity: Option<real>,
    prevAltitude: Option<real>,
    prevTime: Option<int>,
    prevVerticalRate: Option<real>)

  function OrderedStateAt(arr: seq<EnrichedRow>, i: nat): OrderedState
    requires i < |arr|
  {
    match Lag(arr, i)
    case Some(p) =>
      OrderedState(arr[i], arr[p].state.velocity, arr[p].state.baroAltitude,
                   arr[p].state.timePosition, arr[p].state.verticalRate)
    case None => OrderedState(arr[i], None, None, None, None)
  }

  /** The `ordered_states` CTE for window order `arr`. */
  function OrderedStates(arr: seq<EnrichedRow>): (r: seq<OrderedState>)
    ensures |r| == |arr|
    ensures forall i :: 0 <= i < |arr| ==> r[i].row == arr[i]
  {
    seq(|arr|, i requires 0 <= i < |arr| => OrderedStateAt(arr, i))
  }

  /**
   * The four LAG columns of position `i` are the predecessor's velocity,
   * altitude, time and vertical rate, or all NULL for a partition's first row.
   */
  lemma OrderedStateColumns(arr: seq<EnrichedRow>, i: nat)
    requires i < |arr|
    ensures var o := OrderedStates(arr)[i];
      match Lag(arr, i)
      case Some(p) =>
        && o.prevVelocity == arr[p].state.velocity && o.prevAltitude == arr[p].state.baroAltitude
        && o.prevTime == arr[p].state.timePosition && o.prevVerticalRate == arr[p].state.verticalRate
      case None =>
        o.prevVelocity.None? && o.prevAltitude.None? && o.prevTime.None? && o.prevVerticalRate.None?
  {
  }

  /** One row of `anomaly_features`: the `ordered_states` row and the computed columns. */
  datatype FeatureRow = FeatureRow(
    ordered: OrderedState,
    velocityDelta: Option<real>,
    altitudeDelta: Option<real>,
    timeDelta: Option<real>,
    calculatedClimbRate: Option<real>)

  /** `epoch(CAST(t AS TIMESTAMP))` for a column already held in seconds. */
  function Seconds(t: Option<int>): (r: Option<real>)
    ensures r.Some? <==> t.Some?
    ensures r.Some? ==> r.value == t.value as real
  {
    match t
    case Some(x) => Some(x as real)
    case None => None
  }

  /**
   * `CASE WHEN time_delta > 0 THEN altitude_delta / time_delta ELSE NULL END`:
   * a rate only over a positive time step, so the division never has a zero
   * divisor; a NULL altitude delta propagates.
   */
  function ClimbRate(altitudeDelta: Option<real>, timeDelta: Option<real>): (r: Option<real>)
    ensures r.Some? <==> altitudeDelta.Some? && timeDelta.Some? && timeDelta.value > 0.0
    ensures r.Some? ==> r.value == altitudeDelta.value / timeDelta.value
  {
    if When(Gt(timeDelta, Some(0.0))) then
      (if altitudeDelta.Some? then Some(altitudeDelta.value / timeDelta.value) else None)
    else None
  }

  /** The select list of `create_anomaly_features_table` applied to one `ordered_states` row. */
  function Features(o: OrderedState): (r: FeatureRow)
    ensures r.ordered == o
    ensures r.timeDelta.Some? <==> o.row.state.timePosition.Some? && o.prevTime.Some?
    ensures r.timeDelta.Some? ==> r.timeDelta.value == (o.row.state.timePosition.value - o.prevTime.value) as real
    ensures r.velocityDelta.Some? <==> o.row.state.velocity.Some? && o.prevVelocity.Some?
    ensures r.velocityDelta.Some? ==> r.velocityDelta.value == o.row.state.velocity.value - o.prevVelocity.value
    ensures r.altitudeDelta.Some? <==> o.row.state.baroAltitude.Some? && o.prevAltitude.Some?
    ensures r.altitudeDelta.Some? ==> r.altitudeDelta.value == o.row.state.baroAltitude.value - o.prevAltitude.value
    ensures r.calculatedClimbRate.Some? <==> r.altitudeDelta.Some? && r.timeDelta.Some? && r.timeDelta.value > 0.0
    ensures r.calculatedClimbRate.Some? ==> r.calculatedClimbRate.value == r.altitudeDelta.value / r.timeDelta.value
  {
    var timeDelta := Sub(Seconds(o.row.state.timePosition), Seconds(o.prevTime));
    var altitudeDelta := Sub(o.row.state.baroAltitude, o.prevAltitude);
    FeatureRow(o, Sub(o.row.state.velocity, o.prevVelocity), altitudeDelta, timeDelta,
               ClimbRate(altitudeDelta, timeDelta))
  }

  /** `SELECT … FROM ordered_states WHERE prev_time IS NOT NULL`, in scan order. */
  function SelectFeatures(os: seq<OrderedState>): (r: seq<FeatureRow>)
    ensures forall f :: f in r <==> exists i :: 0 <= i < |os| && os[i].prevTime.Some? && f == Features(os[i])
    ensures |r| == PredecessorCount(os)
  {
    if os == [] then []
    else
      var front, last := os[..|os| - 1], os[|os| - 1];
      var r := SelectFeatures(front) + (if last.prevTime.Some? then [Features(last)] else []);
      assert forall i :: 0 <= i < |front| ==> front[i] == os[i];
      r
  }

  /** How many rows of `os` have a `prev_time`. */
  function PredecessorCount(os: seq<OrderedState>): (n: nat)
    ensures n <= |os|
  {
    if os == [] then 0
    else PredecessorCount(os[..|os| - 1]) + (if os[|os| - 1].prevTime.Some? then 1 else 0)
  }

  /** `create_anomaly_features_table` for the window order `arr` of `rows`. */
  function CreateAnomalyFeatures(rows: seq<EnrichedRow>, arr: seq<EnrichedRow>): (r: seq<FeatureRow>)
    requires IsWindowOrder(rows, arr)
    ensures |r| <= |WithTime(rows)|
    ensures forall f :: f in r ==> f.ordered.row in arr && f.ordered.prevTime.Some?
  {
    var os := OrderedStates(arr);
    assert |arr| == |multiset(arr)| == |WithTime(rows)|;
    assert forall i :: 0 <= i < |os| ==> os[i].row in arr;
    SelectFeatures(os)
  }

  /** The feature row that position `i` of the window order contributes when it has a predecessor. */
  function DeltaRow(arr: seq<EnrichedRow>, i: nat): FeatureRow
    requires i < |arr|
  {
    Features(OrderedStateAt(arr, i))
  }

  /**
   * The output rows are exactly the rows of positions that have a predecessor
   * in their partition; the first row of every partition yields none.
   */
  lemma FeatureRowsArePredecessorPairs(rows: seq<EnrichedRow>, arr: seq<EnrichedRow>)
    requires IsWindowOrder(rows, arr)
    ensures forall f :: f in CreateAnomalyFeatures(rows, arr) <==>
      exists i :: 0 <= i < |arr| && Lag(arr, i).Some? && f == DeltaRow(arr, i)
  {
    WindowOrderRowsHaveTime(rows, arr);
    var os := OrderedStates(arr);
    var r := CreateAnomalyFeatures(rows, arr);
    assert r == SelectFeatures(os);
    forall f | f in r
      ensures exists i :: 0 <= i < |arr| && Lag(arr, i).Some? && f == DeltaRow(arr, i)
    {
      var i :| 0 <= i < |os| && os[i].prevTime.Some? && f == Features(os[i]);
      PrevTimeIffLag(arr, i);
    }
    forall f | exists i :: 0 <= i < |arr| && Lag(arr, i).Some? && f == DeltaRow(arr, i)
      ensures f in r
    {
      var i :| 0 <= i < |arr| && Lag(arr, i).Some? && f == DeltaRow(arr, i);
      PrevTimeIffLag(arr, i);
    }
  }

  /** In a timed window order a position has `prev_time` exactly when it has a LAG source. */
  lemma PrevTimeIffLag(arr: seq<EnrichedRow>, i: nat)
    requires i < |arr|
    requires forall e :: e in arr ==> e.state.timePosition.Some?
    ensures OrderedStates(arr)[i] == OrderedStateAt(arr, i)
    ensures OrderedStateAt(arr, i).prevTime.Some? <==> Lag(arr, i).Some?
  {
    if Lag(arr, i).Some? {
      assert arr[Lag(arr, i).value] in arr;
    }
  }

  /**
   * A row with a predecessor at position `p`: its LAG columns are `p`'s
   * values, `p` is the nearest earlier row of the same aircraft, both rows
   * have a time, `time_delta` is their time difference and is never
   * negative, and the deltas subtract the predecessor's values.
   */
  lemma DeltaRowFromPredecessor(rows: seq<EnrichedRow>, arr: seq<EnrichedRow>, i: nat)
    requires IsWindowOrder(rows, arr) && i < |arr| && Lag(arr, i).Some?
    ensures var p, f := Lag(arr, i).value, DeltaRow(arr, i);
      && p < i && PartitionKey(arr[p]) == PartitionKey(arr[i])
      && (forall k :: p < k < i ==> PartitionKey(arr[k]) != PartitionKey(arr[i]))
      && f.ordered.row == arr[i]
      && f.ordered.row.state.timePosition.Some? && f.ordered.prevTime == arr[p].state.timePosition
      && f.ordered.prevTime.Some?
      && f.ordered.prevVelocity == arr[p].state.velocity
      && f.ordered.prevAltitude == arr[p].state.baroAltitude
      && f.ordered.prevVerticalRate == arr[p].state.verticalRate
      && f.timeDelta == Some((Epoch(arr[i]) - Epoch(arr[p])) as real)
      && f.timeDelta.value >= 0.0
      && f.velocityDelta == Sub(arr[i].state.velocity, arr[p].state.velocity)
      && f.altitudeDelta == Sub(arr[i].state.baroAltitude, arr[p].state.baroAltitude)
  {
    WindowOrderRowsHaveTime(rows, arr);
    var p := Lag(arr, i).value;
    assert arr[p] in arr && arr[i] in arr;
  }

  /** Every feature row's time step is non-negative and its own row and predecessor had a time. */
  lemma NullTimeRowsNeverParticipate(rows: seq<EnrichedRow>, arr: seq<EnrichedRow>)
    requires IsWindowOrder(rows, arr)
    ensures forall f :: f in CreateAnomalyFeatures(rows, arr) ==>
      && f.ordered.row in rows
      && f.ordered.row.state.timePosition.Some?
      && f.ordered.prevTime.Some?
      && f.timeDelta.Some? && f.timeDelta.value >= 0.0
  {
    FeatureRowsArePredecessorPairs(rows, arr);
    WindowOrderRowsHaveTime(rows, arr);
    forall f | f in CreateAnomalyFeatures(rows, arr)
      ensures f.ordered.row in rows && f.ordered.row.state.timePosition.Some?
      ensures f.ordered.prevTime.Some? && f.timeDelta.Some? && f.timeDelta.value >= 0.0
    {
      var i :| 0 <= i < |arr| && Lag(arr, i).Some? && f == DeltaRow(arr, i);
      DeltaRowFromPredecessor(rows, arr, i);
      assert arr[i] in arr;
    }
  }

  /** Extending the scanned prefix by one position adds a feature row exactly when that position has `prev_time`. */
  lemma PredecessorCountSnoc(os: seq<OrderedState>, n: nat)
    requires 0 < n <= |os|
    ensures PredecessorCount(os[..n]) == PredecessorCount(os[..n - 1]) + (if os[n - 1].prevTime.Some? then 1 else 0)
  {
    assert os[..n][..n - 1] == os[..n - 1];
    assert os[..n][n - 1] == os[n - 1];
  }

  lemma PartitionsSnoc(arr: seq<EnrichedRow>, n: nat)
    requires 0 < n <= |arr|
    ensures Partitions(arr[..n]) == Partitions(arr[..n - 1]) + {PartitionKey(arr[n - 1])}
  {
    assert arr[..n] == arr[..n - 1] + [arr[n - 1]];
  }

  /** A timed position has `prev_time` exactly when an earlier position shares its partition. */
  lemma PrevTimeIffSeen(arr: seq<EnrichedRow>, n: nat)
    requires 0 < n <= |arr|
    requires forall e :: e in arr ==> e.state.timePosition.Some?
    ensures OrderedStateAt(arr, n - 1).prevTime.Some? <==> PartitionKey(arr[n - 1]) in Partitions(arr[..n - 1])
  {
    if Lag(arr, n - 1).Some? {
      var p := Lag(arr, n - 1).value;
      assert arr[p] in arr;
      assert arr[..n - 1][p] == arr[p];
    } else {
      forall e | e in arr[..n - 1] ensures PartitionKey(e) != PartitionKey(arr[n - 1]) {
        var k :| 0 <= k < n - 1 && arr[..n - 1][k] == e;
        assert arr[..n - 1][k] == arr[k];
      }
    }
  }

  /**
   * Counting over a prefix: when each position has `prev_time` exactly when
   * its aircraft already occurred earlier, every position either adds a
   * feature row or opens a new partition.
   */
  lemma {:induction false} PrefixCount(arr: seq<EnrichedRow>, os: seq<OrderedState>, n: nat)
    requires n <= |arr| == |os|
    requires forall i :: 0 <= i < |arr| ==> (os[i].prevTime.Some? <==> PartitionKey(arr[i]) in Partitions(arr[..i]))
    ensures PredecessorCount(os[..n]) + |Partitions(arr[..n])| == n
  {
    if n == 0 {
      assert Partitions(arr[..0]) == {};
    } else {
      PrefixCount(arr, os, n - 1);
      PredecessorCountSnoc(os, n);
      PartitionsSnoc(arr, n);
      var before := Partitions(arr[..n - 1]);
      if PartitionKey(arr[n - 1]) in before {
        assert os[n - 1].prevTime.Some?;
        assert Partitions(arr[..n]) == before;
      } else {
        assert os[n - 1].prevTime.None?;
        assert |Partitions(arr[..n])| == |before| + 1;
      }
    }
  }

  /** Over a whole timed window order, every position either has a predecessor or opens its aircraft's partition. */
  lemma OrderedPredecessorCount(arr: seq<EnrichedRow>)
    requires forall e :: e in arr ==> e.state.timePosition.Some?
    ensures PredecessorCount(OrderedStates(arr)) + |Partitions(arr)| == |arr|
  {
    var os := OrderedStates(arr);
    forall i | 0 <= i < |arr| ensures os[i].prevTime.Some? <==> PartitionKey(arr[i]) in Partitions(arr[..i]) {
      PrevTimeIffSeen(arr, i + 1);
    }
    PrefixCount(arr, os, |arr|);
    assert arr[..|arr|] == arr;
    assert os[..|arr|] == os;
  }

  /** Reordering rows does not change which aircraft occur among them. */
  lemma PartitionsOfSameBag(a: seq<EnrichedRow>, b: seq<EnrichedRow>)
    requires multiset(a) == multiset(b)
    ensures Partitions(a) == Partitions(b)
  {
    forall k ensures k in Partitions(a) ==> k in Partitions(b) {
      if k in Partitions(a) {
        var e :| e in a && PartitionKey(e) == k;
        assert e in multiset(b);
      }
    }
    forall k ensures k in Partitions(b) ==> k in Partitions(a) {
      if k in Partitions(b) {
        var e :| e in b && PartitionKey(e) == k;
        assert e in multiset(a);
      }
    }
  }

  /**
   * The first observation of each aircraft yields no row: the output has one
   * row per timed row minus one per distinct aircraft among them.
   */
  lemma FeatureCount(rows: seq<EnrichedRow>, arr: seq<EnrichedRow>)
    requires IsWindowOrder(rows, arr)
    ensures |CreateAnomalyFeatures(rows, arr)| == |WithTime(rows)| - |Partitions(WithTime(rows))|
  {
    WindowOrderRowsHaveTime(rows, arr);
    OrderedPredecessorCount(arr);
    PartitionsOfSameBag(arr, WithTime(rows));
    assert |arr| == |multiset(arr)| == |multiset(WithTime(rows))| == |WithTime(rows)|;
  }

  /** One row of `flagged_anomalies`: the feature row unchanged, then the three flags. */
  datatype FlaggedRow = FlaggedRow(
    features: FeatureRow,
    suddenVelocityAnomaly: bool,
    unrealisticClimbAnomaly: bool,
    altitudeJumpAnomaly: bool)

  /** `ABS(velocity_delta) > 50 AND time_delta < 20`; a NULL operand makes it false. */
  function SuddenVelocity(f: FeatureRow): (b: bool)
    ensures b <==> f.velocityDelta.Some? && f.timeDelta.Some? &&
                   AbsReal(f.velocityDelta.value) > 50.0 && f.timeDelta.value < 20.0
  {
    When(And(Gt(Abs(f.velocityDelta), Some(50.0)), Lt(f.timeDelta, Some(20.0))))
  }

  /** `ABS(calculated_climb_rate) > 50`; a NULL rate (no positive time step) makes it false. */
  function UnrealisticClimb(f: FeatureRow): (b: bool)
    ensures b <==> f.calculatedClimbRate.Some? && AbsReal(f.calculatedClimbRate.value) > 50.0
  {
    When(Gt(Abs(f.calculatedClimbRate), Some(50.0)))
  }

  /** `ABS(altitude_delta) > 1000 AND time_delta < 10`; a NULL operand makes it false. */
  function AltitudeJump(f: FeatureRow): (b: bool)
    ensures b <==> f.altitudeDelta.Some? && f.timeDelta.Some? &&
                   AbsReal(f.altitudeDelta.value) > 1000.0 && f.timeDelta.value < 10.0
  {
    When(And(Gt(Abs(f.altitudeDelta), Some(1000.0)), Lt(f.timeDelta, Some(10.0))))
  }

  /** `flag_anomalies`: every feature row, in order and unchanged, with its three flags appended. */
  function FlagAnomalies(features: seq<FeatureRow>): (r: seq<FlaggedRow>)
    ensures |r| == |features|
    ensures forall i :: 0 <= i < |r| ==> r[i].features == features[i]
    ensures forall i :: 0 <= i < |r| ==>
              && r[i].suddenVelocityAnomaly == SuddenVelocity(features[i])
              && r[i].unrealisticClimbAnomaly == UnrealisticClimb(features[i])
              && r[i].altitudeJumpAnomaly == AltitudeJump(features[i])
  {
    seq(|features|, i requires 0 <= i < |features| =>
      FlaggedRow(features[i], SuddenVelocity(features[i]), UnrealisticClimb(features[i]),
                 AltitudeJump(features[i])))
  }

  /**
   * The whole pass of `main`: build the features, then flag them. One row
   * per timed observation that has a predecessor of the same aircraft, each
   * with a non-negative time step and the three flags of its features.
   */
  function RunAnalysis(rows: seq<EnrichedRow>, arr: seq<EnrichedRow>): (r: seq<FlaggedRow>)
    requires IsWindowOrder(rows, arr)
    ensures |r| == |WithTime(rows)| - |Partitions(WithTime(rows))|
    ensures forall x :: x in r ==>
              && x.features.ordered.row in rows
              && x.features.ordered.row.state.timePosition.Some?
              && x.features.timeDelta.Some? && x.features.timeDelta.value >= 0.0
    ensures forall x :: x in r ==>
              && x.features in CreateAnomalyFeatures(rows, arr)
              && x.suddenVelocityAnomaly == SuddenVelocity(x.features)
              && x.unrealisticClimbAnomaly == UnrealisticClimb(x.features)
              && x.altitudeJumpAnomaly == AltitudeJump(x.features)
  {
    var features := CreateAnomalyFeatures(rows, arr);
    FeatureCount(rows, arr);
    NullTimeRowsNeverParticipate(rows, arr);
    FlaggedRowsCarryTheirFlags(features);
    FlagAnomalies(features)
  }

  /** Every flagged row holds one of the feature rows, with that row's own three flags. */
  lemma FlaggedRowsCarryTheirFlags(features: seq<FeatureRow>)
    ensures forall x :: x in FlagAnomalies(features) ==>
              && x.features in features
              && x.suddenVelocityAnomaly == SuddenVelocity(x.features)
              && x.unrealisticClimbAnomaly == UnrealisticClimb(x.features)
              && x.altitudeJumpAnomaly == AltitudeJump(x.features)
  {
    var r := FlagAnomalies(features);
    forall x | x in r ensures x.features in features {
      var i :| 0 <= i < |r| && r[i] == x;
      assert features[i] in features;
    }
  }

  /** A zero time step has no climb rate, so it is never an unrealistic climb. */
  lemma ZeroTimeStepIsNoClimbAnomaly(o: OrderedState)
    requires o.row.state.timePosition.Some? && o.prevTime == o.row.state.timePosition
    ensures Features(o).timeDelta == Some(0.0)
    ensures Features(o).calculatedClimbRate.None?
    ensures !UnrealisticClimb(Features(o))
  {
  }

  /**
   * Two samples of one aircraft 15 s apart whose velocity rose by 60 m/s give
   * one feature row, flagged as a sudden velocity change; 25 s apart the same
   * change is not flagged.
   */
  lemma SuddenVelocityExample(x: EnrichedRow, y: EnrichedRow, dt: int)
    requires PartitionKey(x) == PartitionKey(y)
    requires x.state.timePosition == Some(100) && y.state.timePosition == Some(100 + dt)
    requires x.state.velocity == Some(200.0) && y.state.velocity == Some(260.0)
    requires dt == 15 || dt == 25
    ensures IsWindowOrder([x, y], [x, y])
    ensures |CreateAnomalyFeatures([x, y], [x, y])| == 1
    ensures SuddenVelocity(CreateAnomalyFeatures([x, y], [x, y])[0]) <==> dt == 15
  {
    PairFeatures(x, y);
  }

  /** Two samples 8 s apart with a 1200 m altitude gain are flagged as an altitude jump. */
  lemma AltitudeJumpExample(x: EnrichedRow, y: EnrichedRow)
    requires PartitionKey(x) == PartitionKey(y)
    requires x.state.timePosition == Some(100) && y.state.timePosition == Some(108)
    requires x.state.baroAltitude == Some(3000.0) && y.state.baroAltitude == Some(4200.0)
    ensures IsWindowOrder([x, y], [x, y])
    ensures |CreateAnomalyFeatures([x, y], [x, y])| == 1
    ensures AltitudeJump(CreateAnomalyFeatures([x, y], [x, y])[0])
  {
    PairFeatures(x, y);
  }

  /** Two timed rows of one aircraft in time order give exactly the second row paired with the first. */
  lemma PairFeatures(x: EnrichedRow, y: EnrichedRow)
    requires PartitionKey(x) == PartitionKey(y)
    requires x.state.timePosition.Some? && y.state.timePosition.Some? && Epoch(x) <= Epoch(y)
    ensures IsWindowOrder([x, y], [x, y])
    ensures CreateAnomalyFeatures([x, y], [x, y]) == [DeltaRow([x, y], 1)]
    ensures DeltaRow([x, y], 1) == Features(OrderedState(y, x.state.velocity, x.state.baroAltitude,
                                                         x.state.timePosition, x.state.verticalRate))
  {
    PairWindowOrder(x, y);
    PairLag(x, y);
    var os := OrderedStates([x, y]);
    assert os[0].prevTime.None? && os[1].prevTime.Some?;
    SelectSecondOnly(os);
  }

  lemma PairWindowOrder(x: EnrichedRow, y: EnrichedRow)
    requires PartitionKey(x) == PartitionKey(y)
    requires x.state.timePosition.Some? && y.state.timePosition.Some? && Epoch(x) <= Epoch(y)
    ensures IsWindowOrder([x, y], [x, y])
  {
    assert WithTime([x, y]) == [x, y] by {
      assert [x, y][1..] == [y] && [y][1..] == [];
    }
    var arr := [x, y];
    forall i, j | 0 <= i < j < |arr| && PartitionKey(arr[i]) == PartitionKey(arr[j])
      ensures Epoch(arr[i]) <= Epoch(arr[j])
    {
      assert i == 0 && j == 1;
    }
  }

  /** The first of two rows of one partition has no predecessor; the second has the first. */
  lemma PairLag(x: EnrichedRow, y: EnrichedRow)
    requires PartitionKey(x) == PartitionKey(y)
    ensures Lag([x, y], 0).None? && Lag([x, y], 1) == Some(0)
  {
    assert Lag([x, y], 1).Some?;
  }

  /** Of two ordered rows only the second has a `prev_time`: one feature row, the second's. */
  lemma SelectSecondOnly(os: seq<OrderedState>)
    requires |os| == 2 && os[0].prevTime.None? && os[1].prevTime.Some?
    ensures SelectFeatures(os) == [Features(os[1])]
  {
    assert os[..1] == [os[0]];
    assert os[..1][..0] == [];
  }
}
