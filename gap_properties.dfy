/**
  What gap filling promises: which trips are flagged, what is synthesized for
  them, and that nothing else is added to or removed from the log.
 */
module GapProperties {
  import opened Sorting
  import opened Events
  import opened GapDetector

  /** A bike's first trip (every other trip of the bike starts later) has no previous trip, so it is never flagged. */
  lemma FirstTripNeverFlagged(trips: seq<Trip>, i: nat)
    requires i < |trips|
    requires forall j :: 0 <= j < |trips| && j != i && trips[j].bikeId == trips[i].bikeId ==>
      trips[i].startTime < trips[j].startTime
    ensures PrevRows(trips)[i].None?
    ensures !IsGap(trips, PrevRows(trips), i)
    ensures i !in GapRows(trips, PrevRows(trips), |trips|)
  {
    if PrevRows(trips)[i].Some? {
      assert false;
    }
  }

  /** A trip that has an earlier trip of the same bike always has a previous trip. */
  lemma LaterTripHasPrevious(trips: seq<Trip>, i: nat, j: nat)
    requires i < |trips| && j < |trips|
    requires trips[j].bikeId == trips[i].bikeId && trips[j].startTime < trips[i].startTime
    ensures PrevRows(trips)[i].Some?
  {
    if PrevRows(trips)[i].None? {
      assert false;
    }
  }

  /**
    The previous trip is the immediately preceding one: no trip of the same bike
    starts strictly between it and the current trip.
   */
  lemma PreviousTripIsImmediate(trips: seq<Trip>, i: nat, j: nat)
    requires i < |trips| && j < |trips| && PrevRows(trips)[i].Some?
    requires trips[j].bikeId == trips[i].bikeId
    ensures !(trips[PrevRows(trips)[i].value].startTime < trips[j].startTime < trips[i].startTime)
  {
  }

  /**
    Every flagged trip gets its corrective pair in the log: a departure from
    where the previous trip ended, at the middle of the idle interval, and an
    arrival at this trip's start station strictly later, both for this bike.
   */
  lemma GapPairInLog(trips: seq<Trip>, prev: seq<Option<nat>>, ops: seq<Op>, i: nat)
    requires ValidPrev(trips, prev) && i < |trips| && IsGap(trips, prev, i)
    ensures var p := trips[prev[i].value];
            var d := GhostDeparture(trips, prev, i);
            var a := GhostArrival(trips, prev, i);
            && d in MergeCorrections(trips, prev, ops) && a in MergeCorrections(trips, prev, ops)
            && d.opType == Departure && d.netBikes == -1
            && a.opType == Arrival && a.netBikes == 1
            && d.stationId == p.endStationId && d.stationName == p.endStationName
            && a.stationId == trips[i].startStationId && a.stationName == trips[i].startStationName
            && d.bikeId == a.bikeId == Some(trips[i].bikeId)
            && -1 <= (d.opTime - p.stopTime) - (trips[i].startTime - d.opTime) <= 1
            && a.opTime == d.opTime + OneMillisecond && d.opTime < a.opTime
  {
    var gaps := GapRows(trips, prev, |trips|);
    var j :| 0 <= j < |gaps| && gaps[j] == i;
    var r := MergeCorrections(trips, prev, ops);
    assert SimDepartures(trips, prev)[j] == GhostDeparture(trips, prev, i);
    assert SimArrivals(trips, prev)[j] == GhostArrival(trips, prev, i);
    assert GhostDeparture(trips, prev, i) in multiset(r);
    assert GhostArrival(trips, prev, i) in multiset(r);
  }

  /** Every operation gap filling adds is half of the corrective pair of a flagged trip. */
  lemma CorrectionsAddOnlyGapPairs(trips: seq<Trip>, prev: seq<Option<nat>>, ops: seq<Op>, o: Op)
    requires ValidPrev(trips, prev)
    requires o in MergeCorrections(trips, prev, ops) && o !in ops
    ensures exists i :: 0 <= i < |trips| && IsGap(trips, prev, i)
                        && (o == GhostDeparture(trips, prev, i) || o == GhostArrival(trips, prev, i))
  {
    var gaps := GapRows(trips, prev, |trips|);
    var ds, as_ := SimDepartures(trips, prev), SimArrivals(trips, prev);
    assert o in multiset(MergeCorrections(trips, prev, ops));
    assert o in ds || o in as_;
    var j :| 0 <= j < |gaps| && (ds[j] == o || as_[j] == o);
    var i := gaps[j];
    assert IsGap(trips, prev, i);
  }

  /** With no flagged row below `upTo`, there is nothing to correct there. */
  lemma {:induction false} NoGapRows(trips: seq<Trip>, prev: seq<Option<nat>>, upTo: nat)
    requires ValidPrev(trips, prev) && upTo <= |trips|
    requires forall i :: 0 <= i < upTo ==> !IsGap(trips, prev, i)
    ensures GapRows(trips, prev, upTo) == []
  {
    if upTo > 0 {
      NoGapRows(trips, prev, upTo - 1);
    }
  }

  /**
    When every bike's trips chain station to station, nothing is synthesized:
    the result is `ops` re-sorted. When `ops` is already in time order, the
    result has the same time at every position, and it is `ops` itself when no
    two operations share a time.
   */
  lemma NoGapsMeansResorted(trips: seq<Trip>, prev: seq<Option<nat>>, ops: seq<Op>)
    requires ValidPrev(trips, prev)
    requires forall i :: 0 <= i < |trips| && prev[i].Some? ==> trips[prev[i].value].endStationId == trips[i].startStationId
    ensures MergeCorrections(trips, prev, ops) == Merge([], ops)
    ensures multiset(MergeCorrections(trips, prev, ops)) == multiset(ops)
    ensures Chronological(ops) ==> SameTimes(MergeCorrections(trips, prev, ops), ops)
    ensures StrictlyChronological(ops) ==> MergeCorrections(trips, prev, ops) == ops
  {
    NoGapRows(trips, prev, |trips|);
    assert SimDepartures(trips, prev) == [] && SimArrivals(trips, prev) == [];
    assert Merge([], []) == [];
    if Chronological(ops) {
      MergeChronologicalWithEmpty(ops);
    }
    if StrictlyChronological(ops) {
      MergeStrictlyChronologicalWithEmpty(ops);
    }
  }

  /** A single flagged row adds exactly its corrective pair. */
  lemma SingleGapAddsOnePair(trips: seq<Trip>, prev: seq<Option<nat>>, ops: seq<Op>, i: nat)
    requires ValidPrev(trips, prev) && i < |trips| && IsGap(trips, prev, i)
    requires GapRows(trips, prev, |trips|) == [i]
    ensures multiset(MergeCorrections(trips, prev, ops))
            == multiset(ops) + multiset{GhostDeparture(trips, prev, i), GhostArrival(trips, prev, i)}
  {
    var ds, as_ := SimDepartures(trips, prev), SimArrivals(trips, prev);
    assert ds == [GhostDeparture(trips, prev, i)] by {
      assert ds[0] == GhostDeparture(trips, prev, i);
    }
    assert as_ == [GhostArrival(trips, prev, i)] by {
      assert as_[0] == GhostArrival(trips, prev, i);
    }
  }

  /** With the later of two trips pointing to the earlier one, only the later can be flagged. */
  lemma TwoTripsGapRows(trips: seq<Trip>, prev: seq<Option<nat>>)
    requires |trips| == 2 && ValidPrev(trips, prev) && prev[0].None? && prev[1] == Some(0)
    ensures GapRows(trips, prev, 2) == if trips[0].endStationId != trips[1].startStationId then [1] else []
  {
    assert GapRows(trips, prev, 1) == [] by {
      assert !IsGap(trips, prev, 0);
    }
  }

  /** The previous rows of two trips of one bike, the second starting later. */
  lemma TwoTripsPrevRows(trips: seq<Trip>)
    requires |trips| == 2 && trips[0].bikeId == trips[1].bikeId && trips[0].startTime < trips[1].startTime
    ensures PrevRows(trips)[0].None? && PrevRows(trips)[1] == Some(0)
  {
    FirstTripNeverFlagged(trips, 0);
    LaterTripHasPrevious(trips, 1, 0);
  }

  /** The corrections for two trips whose later one points to the earlier one. */
  lemma TwoTripsCorrections(trips: seq<Trip>, prev: seq<Option<nat>>, ops: seq<Op>)
    requires |trips| == 2 && ValidPrev(trips, prev) && prev[0].None? && prev[1] == Some(0)
    ensures var first, second := trips[0], trips[1];
            var mid := Midpoint(first.stopTime, second.startTime);
            var d := Op(mid, first.endStationId, first.endStationName, Some(second.bikeId), Departure, -1);
            var a := Op(mid + OneMillisecond, second.startStationId, second.startStationName, Some(second.bikeId), Arrival, 1);
            multiset(MergeCorrections(trips, prev, ops))
            == if first.endStationId != second.startStationId then multiset(ops) + multiset{d, a} else multiset(ops)
  {
    TwoTripsGapRows(trips, prev);
    if trips[0].endStationId != trips[1].startStationId {
      var mid := Midpoint(trips[0].stopTime, trips[1].startTime);
      assert GhostDeparture(trips, prev, 1)
             == Op(mid, trips[0].endStationId, trips[0].endStationName, Some(trips[1].bikeId), Departure, -1);
      assert GhostArrival(trips, prev, 1)
             == Op(mid + OneMillisecond, trips[1].startStationId, trips[1].startStationName, Some(trips[1].bikeId), Arrival, 1);
      SingleGapAddsOnePair(trips, prev, ops, 1);
    }
  }

  /**
    Two trips of one bike, the second starting later: when the first ended
    somewhere other than where the second starts, exactly one corrective pair is
    added, bisecting the idle interval; otherwise nothing is added.
   */
  lemma TwoTripsOfOneBike(trips: seq<Trip>, ops: seq<Op>)
    requires |trips| == 2 && trips[0].bikeId == trips[1].bikeId && trips[0].startTime < trips[1].startTime
    ensures var first, second := trips[0], trips[1];
            var mid := Midpoint(first.stopTime, second.startTime);
            var d := Op(mid, first.endStationId, first.endStationName, Some(first.bikeId), Departure, -1);
            var a := Op(mid + OneMillisecond, second.startStationId, second.startStationName, Some(first.bikeId), Arrival, 1);
            multiset(FilledOps(trips, ops))
            == if first.endStationId != second.startStationId then multiset(ops) + multiset{d, a} else multiset(ops)
  {
    TwoTripsPrevRows(trips);
    TwoTripsCorrections(trips, PrevRows(trips), ops);
  }

  /**
    Two trips of one bike, whatever their start times: exactly one of them has no
    previous trip, and the other's previous trip is that one. So even trips that
    start at the same instant never both get flagged.
   */
  lemma TwoTripsOfOneBikeChain(trips: seq<Trip>)
    requires |trips| == 2 && trips[0].bikeId == trips[1].bikeId
    ensures var prev := PrevRows(trips);
            || (prev[0].None? && prev[1] == Some(0))
            || (prev[1].None? && prev[0] == Some(1))
    ensures !(IsGap(trips, PrevRows(trips), 0) && IsGap(trips, PrevRows(trips), 1))
  {
    var prev := PrevRows(trips);
    assert HasFirstTrip(trips, prev, trips[0].bikeId);
  }

  /** Every bike has a trip that is never flagged: the one with no previous trip. */
  lemma EveryBikeHasAnUnflaggedTrip(trips: seq<Trip>, i: nat)
    requires i < |trips|
    ensures exists j :: 0 <= j < |trips| && trips[j].bikeId == trips[i].bikeId
                        && PrevRows(trips)[j].None? && !IsGap(trips, PrevRows(trips), j)
  {
    var prev := PrevRows(trips);
    assert HasFirstTrip(trips, prev, trips[i].bikeId);
  }
}
