/**
  The Trip-to-Event Converter: every trip becomes a departure from its start
  station and an arrival at its end station, and the two streams are merged by
  time.
 */
module Converter {
  import opened Events

  /** The departure a trip records: its bike leaves the start station at the start time. */
  function DepartureOf(t: Trip): Op {
    Op(t.startTime, t.startStationId, t.startStationName, Some(t.bikeId), Departure, -1)
  }

  /** The arrival a trip records: its bike reaches the end station at the stop time. */
  function ArrivalOf(t: Trip): Op {
    Op(t.stopTime, t.endStationId, t.endStationName, Some(t.bikeId), Arrival, 1)
  }

  /** The departures of all trips, in row order. */
  function Departures(trips: seq<Trip>): (ds: seq<Op>)
    ensures |ds| == |trips|
    ensures forall i :: 0 <= i < |trips| ==> ds[i] == DepartureOf(trips[i])
    ensures forall o :: o in ds ==> o.opType == Departure && o.netBikes == -1
    ensures AllWellTagged(ds)
  {
    seq(|trips|, i requires 0 <= i < |trips| => DepartureOf(trips[i]))
  }

  /** The arrivals of all trips, in row order. */
  function Arrivals(trips: seq<Trip>): (as_: seq<Op>)
    ensures |as_| == |trips|
    ensures forall i :: 0 <= i < |trips| ==> as_[i] == ArrivalOf(trips[i])
    ensures forall o :: o in as_ ==> o.opType == Arrival && o.netBikes == 1
    ensures AllWellTagged(as_)
  {
    seq(|trips|, i requires 0 <= i < |trips| => ArrivalOf(trips[i]))
  }

  /**
    The event log of a set of trips: exactly twice as many operations as trips,
    ordered by time, each tagged consistently, and made of the trips' departures
    and arrivals and of nothing else.
   */
  function ConvertTripsToOps(trips: seq<Trip>): (ops: seq<Op>)
    ensures |ops| == 2 * |trips|
    ensures Chronological(ops)
    ensures AllWellTagged(ops)
    ensures multiset(ops) == multiset(Departures(trips)) + multiset(Arrivals(trips))
  {
    Merge(Departures(trips), Arrivals(trips))
  }

  /** Every trip contributes its departure and its arrival to the log. */
  lemma ConvertKeepsEveryTrip(trips: seq<Trip>, t: Trip)
    requires t in trips
    ensures DepartureOf(t) in ConvertTripsToOps(trips)
    ensures ArrivalOf(t) in ConvertTripsToOps(trips)
  {
    var i :| 0 <= i < |trips| && trips[i] == t;
    assert Departures(trips)[i] == DepartureOf(t);
    assert Arrivals(trips)[i] == ArrivalOf(t);
  }

  /** Every operation in the log is the departure or the arrival of some trip. */
  lemma ConvertAddsNothingElse(trips: seq<Trip>, o: Op)
    requires o in ConvertTripsToOps(trips)
    ensures exists i :: 0 <= i < |trips| && (o == DepartureOf(trips[i]) || o == ArrivalOf(trips[i]))
  {
    if o in Departures(trips) {
      var i :| 0 <= i < |trips| && Departures(trips)[i] == o;
      assert o == DepartureOf(trips[i]);
    } else {
      var i :| 0 <= i < |trips| && Arrivals(trips)[i] == o;
      assert o == ArrivalOf(trips[i]);
    }
  }

  /**
    A single trip whose stop comes after its start gives exactly its departure
    followed by its arrival.
   */
  lemma ConvertSingleTrip(t: Trip)
    requires t.startTime < t.stopTime
    ensures ConvertTripsToOps([t]) == [DepartureOf(t), ArrivalOf(t)]
  {
  }
}
