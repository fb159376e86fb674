/**
  The Gap Detector and Synthesizer.

  Trips are ordered by start time and grouped by bike; each trip's previous trip
  is the one just before it, in that order, among the trips of the same bike.
  When the previous trip ended at a station other than the one this trip starts
  from, the bike must have been moved without a recorded trip: a corrective
  departure from the previous end station and a corrective arrival at this
  start station are synthesized at the middle of the idle interval, and merged
  into the event log.

  Rows of the trip table are identified by their index in `trips`; an order is a
  sequence of row indices.
 */
module GapDetector {
  import opened Sorting
  import opened Events

  // ---------------------------------------------------------------------------
  // Ordering the rows by start time

  /** The row indices 0 .. n-1, in row order. */
  function Rows(n: nat): (rs: seq<nat>)
    ensures |rs| == n
    ensures forall k :: 0 <= k < n ==> rs[k] == k
  {
    seq(n, k => k)
  }

  /** Sort key of a row: the start time of its trip. */
  function StartKey(trips: seq<Trip>): nat -> int {
    (i: nat) => if i < |trips| then trips[i].startTime else 0
  }

  /** `order` lists every row of an n-row table exactly once. */
  ghost predicate IsRowOrder(n: nat, order: seq<nat>) {
    multiset(order) == multiset(Rows(n)) && Distinct(order)
  }

  /** Every entry of `order` is a row of `trips`. */
  ghost predicate InRows(trips: seq<Trip>, order: seq<nat>) {
    forall m :: 0 <= m < |order| ==> order[m] < |trips|
  }

  lemma RowOrderFacts(trips: seq<Trip>, order: seq<nat>)
    requires IsRowOrder(|trips|, order)
    ensures |order| == |trips|
    ensures InRows(trips, order)
    ensures forall i :: 0 <= i < |trips| ==> i in order
  {
    var n := |trips|;
    assert |order| == |multiset(order)| == |multiset(Rows(n))| == n;
    forall m | 0 <= m < |order| ensures order[m] < n {
      assert order[m] in multiset(Rows(n));
    }
    forall i | 0 <= i < n ensures i in order {
      assert Rows(n)[i] == i;
      assert i in multiset(order);
    }
  }

  /** `order` lists every row once, in non-decreasing start time. */
  ghost predicate IsStartOrder(trips: seq<Trip>, order: seq<nat>) {
    && IsRowOrder(|trips|, order)
    && |order| == |trips| && InRows(trips, order)
    && forall k, l :: 0 <= k < l < |order| ==> trips[order[k]].startTime <= trips[order[l]].startTime
  }

  /** The rows ordered by start time, as sorting the table by start time gives them. */
  function OrderByStart(trips: seq<Trip>): (order: seq<nat>)
    ensures IsStartOrder(trips, order)
  {
    var rows := Rows(|trips|);
    var order := SortBy(rows, StartKey(trips));
    PermutationKeepsDistinct(rows, order);
    RowOrderFacts(trips, order);
    order
  }

  // ---------------------------------------------------------------------------
  // The previous trip of the same bike (the reference definition)

  /**
    The position, among the first `k` positions of `order`, of the last trip of
    bike `b`; None when the bike has no trip there.
   */
  function LastPos(trips: seq<Trip>, order: seq<nat>, b: BikeId, k: nat): (r: Option<nat>)
    requires k <= |order| && InRows(trips, order)
    ensures r.Some? ==> r.value < k && trips[order[r.value]].bikeId == b
    ensures r.Some? ==> forall m :: r.value < m < k ==> trips[order[m]].bikeId != b
    ensures r.None? <==> forall m :: 0 <= m < k ==> trips[order[m]].bikeId != b
  {
    if k == 0 then None
    else if trips[order[k - 1]].bikeId == b then Some(k - 1)
    else LastPos(trips, order, b, k - 1)
  }

  /** The row of the last trip of bike `b` among the first `k` positions of `order`. */
  function LastRow(trips: seq<Trip>, order: seq<nat>, b: BikeId, k: nat): Option<nat>
    requires k <= |order| && InRows(trips, order)
  {
    match LastPos(trips, order, b, k)
    case None => None
    case Some(m) => Some(order[m])
  }

  /** The previous trip's row for the trip at position `k` of `order`. */
  function PrevRowAt(trips: seq<Trip>, order: seq<nat>, k: nat): Option<nat>
    requires k < |order| && InRows(trips, order)
  {
    LastRow(trips, order, trips[order[k]].bikeId, k)
  }

  /** The position of row `i` in `order`. */
  function PosOf(order: seq<nat>, i: nat): (p: nat)
    requires i in order
    ensures p < |order| && order[p] == i
  {
    if order[0] == i then 0 else 1 + PosOf(order[1..], i)
  }

  /** For each row, the row of its previous trip with respect to `order`. */
  function PrevRowsIn(trips: seq<Trip>, order: seq<nat>): (prev: seq<Option<nat>>)
    requires IsRowOrder(|trips|, order)
    ensures |prev| == |trips|
  {
    RowOrderFacts(trips, order);
    seq(|trips|, i requires 0 <= i < |trips| => PrevRowAt(trips, order, PosOf(order, i)))
  }

  /**
    `prev` names, for each row, another row of the same bike that started no
    later, with no trip of the bike starting strictly between the two; it is
    None only for a row that no other trip of its bike precedes.
   */
  ghost predicate IsPreviousRows(trips: seq<Trip>, prev: seq<Option<nat>>) {
    && |prev| == |trips|
    && (forall i :: 0 <= i < |trips| && prev[i].Some? ==>
          && prev[i].value < |trips|
          && prev[i].value != i
          && trips[prev[i].value].bikeId == trips[i].bikeId
          && trips[prev[i].value].startTime <= trips[i].startTime)
    && (forall i, j ::
          (0 <= i < |trips| && 0 <= j < |trips| && prev[i].None? && j != i && trips[j].bikeId == trips[i].bikeId)
          ==> trips[i].startTime <= trips[j].startTime)
    && (forall i, j ::
          (0 <= i < |trips| && 0 <= j < |trips| && prev[i].Some? && trips[j].bikeId == trips[i].bikeId)
          ==> !(trips[prev[i].value].startTime < trips[j].startTime < trips[i].startTime))
  }

  /**
    Previous rows taken along an order by start time are previous trips of the
    same bike, chain the trips of every bike, and step back along the order.
   */
  lemma PrevRowsInStartOrder(trips: seq<Trip>, order: seq<nat>)
    requires IsStartOrder(trips, order)
    ensures IsPreviousRows(trips, PrevRowsIn(trips, order))
    ensures IsChainPerBike(trips, PrevRowsIn(trips, order))
    ensures StepsBackAlong(trips, order, PrevRowsIn(trips, order))
  {
    PrevRowsInIsPrevious(trips, order);
    PrevRowsInChains(trips, order);
    PrevRowsInStepsBack(trips, order);
  }

  /** Along an order by start time, each previous row is an immediately preceding trip of the same bike. */
  lemma PrevRowsInIsPrevious(trips: seq<Trip>, order: seq<nat>)
    requires IsStartOrder(trips, order)
    ensures IsPreviousRows(trips, PrevRowsIn(trips, order))
  {
    var prev := PrevRowsIn(trips, order);
    RowOrderFacts(trips, order);
    forall i | 0 <= i < |trips| && prev[i].Some?
      ensures prev[i].value < |trips| && prev[i].value != i
      ensures trips[prev[i].value].bikeId == trips[i].bikeId
      ensures trips[prev[i].value].startTime <= trips[i].startTime
    {
      var k := PosOf(order, i);
      var m := LastPos(trips, order, trips[i].bikeId, k).value;
      assert prev[i] == Some(order[m]);
    }
    forall i, j | 0 <= i < |trips| && 0 <= j < |trips| && prev[i].None? && j != i &&
      trips[j].bikeId == trips[i].bikeId
      ensures trips[i].startTime <= trips[j].startTime
    {
      var k, q := PosOf(order, i), PosOf(order, j);
      assert LastPos(trips, order, trips[i].bikeId, k).None?;
      if q < k {
        assert false;
      }
    }
    forall i, j | 0 <= i < |trips| && 0 <= j < |trips| && prev[i].Some? && trips[j].bikeId == trips[i].bikeId
      ensures !(trips[prev[i].value].startTime < trips[j].startTime < trips[i].startTime)
    {
      PreviousIsImmediateAt(trips, order, i, j);
    }
  }

  /** Along an order by start time, no trip of the bike starts strictly between a row's previous row and the row. */
  lemma PreviousIsImmediateAt(trips: seq<Trip>, order: seq<nat>, i: nat, j: nat)
    requires IsStartOrder(trips, order) && i < |trips| && j < |trips|
    requires PrevRowsIn(trips, order)[i].Some? && trips[j].bikeId == trips[i].bikeId
    ensures !(trips[PrevRowsIn(trips, order)[i].value].startTime < trips[j].startTime < trips[i].startTime)
  {
    RowOrderFacts(trips, order);
    var k, q := PosOf(order, i), PosOf(order, j);
    var m := LastPos(trips, order, trips[i].bikeId, k).value;
    assert PrevRowsIn(trips, order)[i] == Some(order[m]);
    if trips[order[m]].startTime < trips[j].startTime < trips[i].startTime {
      assert false;
    }
  }

  /** Along `order`, every row's previous row sits at an earlier position. */
  ghost predicate StepsBackAlong(trips: seq<Trip>, order: seq<nat>, prev: seq<Option<nat>>) {
    && |prev| == |trips| && InRows(trips, order)
    && forall k, m :: 0 <= m < |order| && 0 <= k < |order| && prev[order[k]] == Some(order[m]) ==> m < k
  }

  /**
    The trips of every bike form one chain: exactly one of them has no previous
    row, and no two rows have the same previous row.
   */
  ghost predicate IsChainPerBike(trips: seq<Trip>, prev: seq<Option<nat>>) {
    && |prev| == |trips|
    && (forall i, j :: 0 <= i < j < |trips| && prev[i].Some? ==> prev[i] != prev[j])
    && (forall i, j ::
          (0 <= i < |trips| && 0 <= j < |trips| && i != j && trips[j].bikeId == trips[i].bikeId && prev[i].None?)
          ==> prev[j].Some?)
    && (forall i :: 0 <= i < |trips| ==> HasFirstTrip(trips, prev, trips[i].bikeId))
  }

  /** Some trip of bike `b` has no previous row. */
  ghost predicate HasFirstTrip(trips: seq<Trip>, prev: seq<Option<nat>>, b: BikeId)
    requires |prev| == |trips|
  {
    exists j :: 0 <= j < |trips| && trips[j].bikeId == b && prev[j].None?
  }

  /** The previous row of the row at position `k` of `order`. */
  lemma PrevAtPosition(trips: seq<Trip>, order: seq<nat>, k: nat)
    requires IsRowOrder(|trips|, order) && k < |order|
    ensures InRows(trips, order)
    ensures PrevRowsIn(trips, order)[order[k]] == PrevRowAt(trips, order, k)
  {
    RowOrderFacts(trips, order);
    var p := PosOf(order, order[k]);
    if p != k {
      assert false;
    }
  }

  /** Shifting along an order takes every row's previous row from an earlier position. */
  lemma PrevRowsInStepsBack(trips: seq<Trip>, order: seq<nat>)
    requires IsRowOrder(|trips|, order)
    ensures StepsBackAlong(trips, order, PrevRowsIn(trips, order))
  {
    var prev := PrevRowsIn(trips, order);
    RowOrderFacts(trips, order);
    forall k, m | 0 <= m < |order| && 0 <= k < |order| && prev[order[k]] == Some(order[m]) ensures m < k {
      PrevAtPosition(trips, order, k);
      var m0 := LastPos(trips, order, trips[order[k]].bikeId, k).value;
      assert order[m0] == order[m];
      if m != m0 {
        assert false;
      }
    }
  }

  /** Shifting along an order never gives two rows the same previous row. */
  lemma PrevRowsInNoSharedPrevious(trips: seq<Trip>, order: seq<nat>, i: nat, j: nat)
    requires IsRowOrder(|trips|, order) && i < |trips| && j < |trips| && i != j
    requires PrevRowsIn(trips, order)[i].Some?
    ensures PrevRowsIn(trips, order)[i] != PrevRowsIn(trips, order)[j]
  {
    var prev := PrevRowsIn(trips, order);
    RowOrderFacts(trips, order);
    var k, q := PosOf(order, i), PosOf(order, j);
    PrevAtPosition(trips, order, k);
    PrevAtPosition(trips, order, q);
    var b := trips[i].bikeId;
    var m := LastPos(trips, order, b, k).value;
    if prev[j] == prev[i] {
      if k < q {
        assert false;
      } else if q < k {
        assert false;
      }
    }
  }

  /** Of two rows of one bike, shifting along an order leaves at most one without a previous row. */
  lemma PrevRowsInOneFirst(trips: seq<Trip>, order: seq<nat>, i: nat, j: nat)
    requires IsRowOrder(|trips|, order) && i < |trips| && j < |trips| && i != j
    requires trips[j].bikeId == trips[i].bikeId && PrevRowsIn(trips, order)[i].None?
    ensures PrevRowsIn(trips, order)[j].Some?
  {
    RowOrderFacts(trips, order);
    var k, q := PosOf(order, i), PosOf(order, j);
    PrevAtPosition(trips, order, k);
    PrevAtPosition(trips, order, q);
    if PrevRowsIn(trips, order)[j].None? {
      if k < q {
        assert false;
      } else if q < k {
        assert false;
      }
    }
  }

  /** Every bike with a trip at position `k` has a position no later where its trips begin. */
  lemma {:induction false} FirstPositionOfBike(trips: seq<Trip>, order: seq<nat>, b: BikeId, k: nat) returns (m: nat)
    requires InRows(trips, order) && k < |order| && trips[order[k]].bikeId == b
    ensures m <= k && trips[order[m]].bikeId == b && LastPos(trips, order, b, m).None?
    decreases k
  {
    match LastPos(trips, order, b, k)
    case None => m := k;
    case Some(p) => m := FirstPositionOfBike(trips, order, b, p);
  }

  /** Shifting along an order leaves every bike one row without a previous row. */
  lemma PrevRowsInHasFirst(trips: seq<Trip>, order: seq<nat>, i: nat) returns (j: nat)
    requires IsRowOrder(|trips|, order) && i < |trips|
    ensures j < |trips| && trips[j].bikeId == trips[i].bikeId && PrevRowsIn(trips, order)[j].None?
  {
    RowOrderFacts(trips, order);
    var m := FirstPositionOfBike(trips, order, trips[i].bikeId, PosOf(order, i));
    PrevAtPosition(trips, order, m);
    j := order[m];
  }

  /** Shifting along an order chains the trips of every bike. */
  lemma PrevRowsInChains(trips: seq<Trip>, order: seq<nat>)
    requires IsRowOrder(|trips|, order)
    ensures IsChainPerBike(trips, PrevRowsIn(trips, order))
  {
    var prev := PrevRowsIn(trips, order);
    forall i, j | 0 <= i < j < |trips| && prev[i].Some? ensures prev[i] != prev[j] {
      PrevRowsInNoSharedPrevious(trips, order, i, j);
    }
    forall i, j | 0 <= i < |trips| && 0 <= j < |trips| && i != j && trips[j].bikeId == trips[i].bikeId && prev[i].None?
      ensures prev[j].Some?
    {
      PrevRowsInOneFirst(trips, order, i, j);
    }
    forall i | 0 <= i < |trips| ensures HasFirstTrip(trips, prev, trips[i].bikeId) {
      var j := PrevRowsInHasFirst(trips, order, i);
      assert trips[j].bikeId == trips[i].bikeId && prev[j].None?;
    }
  }

  /**
    For each row, the row of the same bike's previous trip in start-time order:
    None for exactly one trip of each bike, its first; otherwise another row of
    the same bike, earlier in that order, that no other row also points to.
   */
  function PrevRows(trips: seq<Trip>): (prev: seq<Option<nat>>)
    ensures IsPreviousRows(trips, prev)
    ensures IsChainPerBike(trips, prev)
    ensures exists order :: IsStartOrder(trips, order) && StepsBackAlong(trips, order, prev)
  {
    var order := OrderByStart(trips);
    PrevRowsInStartOrder(trips, order);
    PrevRowsIn(trips, order)
  }

  /** Seeing one more position changes only the last row of that position's bike. */
  lemma LastRowStep(trips: seq<Trip>, order: seq<nat>, k: nat)
    requires k < |order| && InRows(trips, order)
    ensures forall b :: LastRow(trips, order, b, k + 1)
                        == (if b == trips[order[k]].bikeId then Some(order[k]) else LastRow(trips, order, b, k))
  {
    forall b
      ensures LastRow(trips, order, b, k + 1)
              == (if b == trips[order[k]].bikeId then Some(order[k]) else LastRow(trips, order, b, k))
    {
      assert LastPos(trips, order, b, k + 1)
             == (if trips[order[k]].bikeId == b then Some(k) else LastPos(trips, order, b, k));
    }
  }

  // ---------------------------------------------------------------------------
  // The per-bike scan with a previous-row cursor

  /** The cursor's entry for bike `b`: the row of the bike's last trip seen so far. */
  function Cursor(last: map<BikeId, nat>, b: BikeId): Option<nat> {
    if b in last then Some(last[b]) else None
  }

  /** After `k` positions, the cursor holds, for every bike, the row of its last trip among them. */
  ghost predicate CursorAt(trips: seq<Trip>, order: seq<nat>, last: map<BikeId, nat>, k: nat) {
    k <= |order| && InRows(trips, order) && forall b :: Cursor(last, b) == LastRow(trips, order, b, k)
  }

  /** The rows at the first `k` positions already have their previous rows recorded. */
  ghost predicate FilledUpTo(trips: seq<Trip>, order: seq<nat>, prev: seq<Option<nat>>, k: nat) {
    && k <= |order| && InRows(trips, order) && |prev| == |trips|
    && forall m :: 0 <= m < k ==> prev[order[m]] == PrevRowAt(trips, order, m)
  }

  /** One step of the scan moves the cursor of the current trip's bike to its row. */
  lemma CursorStep(trips: seq<Trip>, order: seq<nat>, last: map<BikeId, nat>, k: nat)
    requires k < |order| && CursorAt(trips, order, last, k)
    ensures CursorAt(trips, order, last[trips[order[k]].bikeId := order[k]], k + 1)
  {
    var last' := last[trips[order[k]].bikeId := order[k]];
    LastRowStep(trips, order, k);
    forall b ensures Cursor(last', b) == LastRow(trips, order, b, k + 1) {
      assert Cursor(last, b) == LastRow(trips, order, b, k);
    }
  }

  /** One step of the scan records the cursor's row as the current trip's previous row. */
  lemma FilledStep(trips: seq<Trip>, order: seq<nat>, prev: seq<Option<nat>>, last: map<BikeId, nat>, k: nat)
    requires Distinct(order) && k < |order|
    requires CursorAt(trips, order, last, k) && FilledUpTo(trips, order, prev, k)
    ensures FilledUpTo(trips, order, prev[order[k] := Cursor(last, trips[order[k]].bikeId)], k + 1)
  {
    var i := order[k];
    var prev' := prev[i := Cursor(last, trips[i].bikeId)];
    assert prev'[order[k]] == PrevRowAt(trips, order, k) by {
      assert Cursor(last, trips[i].bikeId) == LastRow(trips, order, trips[i].bikeId, k);
    }
    forall m | 0 <= m < k ensures prev'[order[m]] == PrevRowAt(trips, order, m) {
      assert order[m] != i;
      assert prev[order[m]] == PrevRowAt(trips, order, m);
    }
  }

  /**
    Walks the rows in `order` once, remembering for every bike the row of its
    last trip seen; each row's previous trip is the remembered row of its bike.
   */
  method PreviousRows(trips: seq<Trip>, order: seq<nat>) returns (prev: seq<Option<nat>>)
    requires IsRowOrder(|trips|, order)
    ensures prev == PrevRowsIn(trips, order)
  {
    RowOrderFacts(trips, order);
    var n := |trips|;
    prev := seq(n, _ => None);
    var last: map<BikeId, nat> := map[];
    var k := 0;
    while k < n
      invariant CursorAt(trips, order, last, k)
      invariant FilledUpTo(trips, order, prev, k)
    {
      var i := order[k];
      var b := trips[i].bikeId;
      CursorStep(trips, order, last, k);
      FilledStep(trips, order, prev, last, k);
      prev := prev[i := Cursor(last, b)];
      last := last[b := i];
      k := k + 1;
    }
    forall i | 0 <= i < n ensures prev[i] == PrevRowsIn(trips, order)[i] {
      var p := PosOf(order, i);
      assert prev[order[p]] == PrevRowAt(trips, order, p);
    }
  }

  // ---------------------------------------------------------------------------
  // The columns written into the trip table, and the gap mask

  /** Every previous-row entry names a row of `trips`. */
  ghost predicate ValidPrev(trips: seq<Trip>, prev: seq<Option<nat>>) {
    |prev| == |trips| && forall i :: 0 <= i < |prev| && prev[i].Some? ==> prev[i].value < |trips|
  }

  /** Column `prev_end_station_id`: where the bike's previous trip ended. */
  function PrevEndStationIds(trips: seq<Trip>, prev: seq<Option<nat>>): seq<Option<StationId>>
    requires ValidPrev(trips, prev)
  {
    seq(|trips|, i requires 0 <= i < |trips| =>
      match prev[i]
      case None => None
      case Some(j) => Some(trips[j].endStationId))
  }

  /** Column `prev_end_station_name`. */
  function PrevEndStationNames(trips: seq<Trip>, prev: seq<Option<nat>>): seq<Option<string>>
    requires ValidPrev(trips, prev)
  {
    seq(|trips|, i requires 0 <= i < |trips| =>
      match prev[i]
      case None => None
      case Some(j) => Some(trips[j].endStationName))
  }

  /** Column `prev_stop_time`: when the bike's previous trip ended. */
  function PrevStopTimes(trips: seq<Trip>, prev: seq<Option<nat>>): seq<Option<Timestamp>>
    requires ValidPrev(trips, prev)
  {
    seq(|trips|, i requires 0 <= i < |trips| =>
      match prev[i]
      case None => None
      case Some(j) => Some(trips[j].stopTime))
  }

  /**
    Column `station_match`: the trip starts where the previous one ended. A
    missing previous trip compares unequal, as a comparison with NaN does.
   */
  function StationMatches(trips: seq<Trip>, prev: seq<Option<nat>>): seq<bool>
    requires ValidPrev(trips, prev)
  {
    seq(|trips|, i requires 0 <= i < |trips| => PrevEndStationIds(trips, prev)[i] == Some(trips[i].startStationId))
  }

  /** Row `i` is flagged: it has a previous trip, and that trip ended at another station. */
  predicate IsGap(trips: seq<Trip>, prev: seq<Option<nat>>, i: nat)
    requires ValidPrev(trips, prev) && i < |trips|
  {
    prev[i].Some? && trips[prev[i].value].endStationId != trips[i].startStationId
  }

  /** The mask "previous end station present and not matching" selects exactly the gaps. */
  lemma MaskSelectsGaps(trips: seq<Trip>, prev: seq<Option<nat>>, i: nat)
    requires ValidPrev(trips, prev) && i < |trips|
    ensures (PrevEndStationIds(trips, prev)[i].Some? && !StationMatches(trips, prev)[i]) <==> IsGap(trips, prev, i)
  {
  }

  /** The flagged rows below `upTo`, in row order. */
  function GapRows(trips: seq<Trip>, prev: seq<Option<nat>>, upTo: nat): (rows: seq<nat>)
    requires ValidPrev(trips, prev) && upTo <= |trips|
    ensures forall j :: 0 <= j < |rows| ==> rows[j] < upTo && IsGap(trips, prev, rows[j])
    ensures forall i :: 0 <= i < upTo && IsGap(trips, prev, i) ==> i in rows
    ensures forall j, j' :: 0 <= j < j' < |rows| ==> rows[j] < rows[j']
  {
    if upTo == 0 then []
    else GapRows(trips, prev, upTo - 1) + (if IsGap(trips, prev, upTo - 1) then [upTo - 1] else [])
  }

  // ---------------------------------------------------------------------------
  // The corrective operations

  /** Half of a time gap, rounded toward zero. */
  function HalfTowardZero(g: int): (h: int)
    ensures -1 <= 2 * h - g <= 1
  {
    if g >= 0 then g / 2 else -((-g) / 2)
  }

  /** The middle of the interval between a previous stop and the next start, in either order. */
  function Midpoint(prevStop: Timestamp, start: Timestamp): (m: Timestamp)
    ensures -1 <= (m - prevStop) - (start - m) <= 1
    ensures prevStop <= start ==> prevStop <= m <= start
    ensures start <= prevStop ==> start <= m <= prevStop
  {
    prevStop + HalfTowardZero(start - prevStop)
  }

  /** The corrective departure for row `i`: from where the previous trip ended, at the middle of the idle time. */
  function GhostDeparture(trips: seq<Trip>, prev: seq<Option<nat>>, i: nat): Op
    requires ValidPrev(trips, prev) && i < |trips| && prev[i].Some?
  {
    var p := trips[prev[i].value];
    Op(Midpoint(p.stopTime, trips[i].startTime), p.endStationId, p.endStationName,
       Some(trips[i].bikeId), Departure, -1)
  }

  /** The corrective arrival for row `i`: at the station this trip starts from, one millisecond later. */
  function GhostArrival(trips: seq<Trip>, prev: seq<Option<nat>>, i: nat): Op
    requires ValidPrev(trips, prev) && i < |trips| && prev[i].Some?
  {
    var p := trips[prev[i].value];
    Op(Midpoint(p.stopTime, trips[i].startTime) + OneMillisecond, trips[i].startStationId, trips[i].startStationName,
       Some(trips[i].bikeId), Arrival, 1)
  }

  /** The corrective departures of all flagged rows, in row order. */
  function SimDepartures(trips: seq<Trip>, prev: seq<Option<nat>>): (ds: seq<Op>)
    requires ValidPrev(trips, prev)
    ensures |ds| == |GapRows(trips, prev, |trips|)|
    ensures forall j :: 0 <= j < |ds| ==> ds[j] == GhostDeparture(trips, prev, GapRows(trips, prev, |trips|)[j])
    ensures forall o :: o in ds ==> o.opType == Departure && o.netBikes == -1
    ensures AllWellTagged(ds)
  {
    var gaps := GapRows(trips, prev, |trips|);
    seq(|gaps|, j requires 0 <= j < |gaps| => GhostDeparture(trips, prev, gaps[j]))
  }

  /** The corrective arrivals of all flagged rows, in row order. */
  function SimArrivals(trips: seq<Trip>, prev: seq<Option<nat>>): (as_: seq<Op>)
    requires ValidPrev(trips, prev)
    ensures |as_| == |GapRows(trips, prev, |trips|)|
    ensures forall j :: 0 <= j < |as_| ==> as_[j] == GhostArrival(trips, prev, GapRows(trips, prev, |trips|)[j])
    ensures forall o :: o in as_ ==> o.opType == Arrival && o.netBikes == 1
    ensures AllWellTagged(as_)
  {
    var gaps := GapRows(trips, prev, |trips|);
    seq(|gaps|, j requires 0 <= j < |gaps| => GhostArrival(trips, prev, gaps[j]))
  }

  /**
    The log with the corrective operations merged in: two more operations per
    flagged trip, ordered by time, keeping every operation it was given.
   */
  function MergeCorrections(trips: seq<Trip>, prev: seq<Option<nat>>, ops: seq<Op>): (r: seq<Op>)
    requires ValidPrev(trips, prev)
    ensures |r| == |ops| + 2 * |GapRows(trips, prev, |trips|)|
    ensures Chronological(r)
    ensures multiset(r) == multiset(ops) + multiset(SimDepartures(trips, prev)) + multiset(SimArrivals(trips, prev))
    ensures AllWellTagged(ops) ==> AllWellTagged(r)
  {
    Merge(Merge(SimDepartures(trips, prev), SimArrivals(trips, prev)), ops)
  }

  /** Gap filling as a value: the corrections for the trips' own previous rows, merged into `ops`. */
  function FilledOps(trips: seq<Trip>, ops: seq<Op>): seq<Op> {
    MergeCorrections(trips, PrevRows(trips), ops)
  }

  // ---------------------------------------------------------------------------
  // The caller's trip table and the gap-filling operation

  /**
    A trip table. Its trip rows are never changed; filling gaps writes (or
    overwrites) four derived columns into it, one entry per row.
   */
  class TripTable {
    const rows: seq<Trip>
    var prevEndStationId: seq<Option<StationId>>
    var prevEndStationName: seq<Option<string>>
    var prevStopTime: seq<Option<Timestamp>>
    var stationMatch: seq<bool>

    /** A freshly loaded table, which has none of the derived columns yet. */
    constructor (rows: seq<Trip>)
      ensures this.rows == rows
      ensures prevEndStationId == [] && prevEndStationName == [] && prevStopTime == [] && stationMatch == []
    {
      this.rows := rows;
      prevEndStationId, prevEndStationName, prevStopTime, stationMatch := [], [], [], [];
    }
  }

  /**
    Fills the gaps of `ops`: records in `table` each row's previous arrival of
    the same bike and whether the row starts where that arrival was, and returns
    `ops` with the corrective pair of every flagged row merged in by time.
   */
  method FillMissingOps(table: TripTable, ops: seq<Op>) returns (r: seq<Op>)
    modifies table
    ensures table.prevEndStationId == PrevEndStationIds(table.rows, PrevRows(table.rows))
    ensures table.prevEndStationName == PrevEndStationNames(table.rows, PrevRows(table.rows))
    ensures table.prevStopTime == PrevStopTimes(table.rows, PrevRows(table.rows))
    ensures table.stationMatch == StationMatches(table.rows, PrevRows(table.rows))
    ensures r == FilledOps(table.rows, ops)
  {
    var trips := table.rows;
    var order := OrderByStart(trips);
    var prev := PreviousRows(trips, order);
    assert prev == PrevRows(trips);
    WriteColumns(table, prev);
    var simOps := Merge(SimDepartures(trips, prev), SimArrivals(trips, prev));
    r := Merge(simOps, ops);
  }

  /** Writes the previous-trip columns and the station-match column for the given previous rows. */
  method WriteColumns(table: TripTable, prev: seq<Option<nat>>)
    requires ValidPrev(table.rows, prev)
    modifies table
    ensures table.prevEndStationId == PrevEndStationIds(table.rows, prev)
    ensures table.prevEndStationName == PrevEndStationNames(table.rows, prev)
    ensures table.prevStopTime == PrevStopTimes(table.rows, prev)
    ensures table.stationMatch == StationMatches(table.rows, prev)
  {
    var trips := table.rows;
    table.prevEndStationId := PrevEndStationIds(trips, prev);
    table.prevEndStationName := PrevEndStationNames(trips, prev);
    table.prevStopTime := PrevStopTimes(trips, prev);
    table.stationMatch := StationMatches(trips, prev);
  }
}
