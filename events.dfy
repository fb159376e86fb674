/**
  The records of the bike-share event log and the Event Merger.

  A trip is a bike's ride from one station to another; an operation is one
  timestamped change at a station: a departure (one bike fewer), an arrival (one
  bike more) or a status report (no change). Timestamps are integers counting
  nanoseconds, the resolution of the datetime columns the pipeline works on.
 */
module Events {
  import opened Sorting

  type Timestamp = int
  type StationId = int
  type BikeId = int

  /** One millisecond, in timestamp units. */
  const OneMillisecond: int := 1_000_000

  datatype Option<T> = None | Some(value: T)

  /** A trip record, already loaded and with its times parsed. */
  datatype Trip = Trip(
    startTime: Timestamp,
    stopTime: Timestamp,
    startStationId: StationId,
    startStationName: string,
    endStationId: StationId,
    endStationName: string,
    bikeId: BikeId)

  /** A station status snapshot, with its report time parsed. */
  datatype StationSnapshot = StationSnapshot(
    lastCommunicationTime: Timestamp,
    id: StationId,
    stationName: string)

  datatype OpType = Departure | Arrival | Status

  /** One row of the event log; status reports carry no bike. */
  datatype Op = Op(
    opTime: Timestamp,
    stationId: StationId,
    stationName: string,
    bikeId: Option<BikeId>,
    opType: OpType,
    netBikes: int)

  /** The change in the station's bike count that each kind of operation stands for. */
  function NetBikesOf(t: OpType): (n: int)
    ensures -1 <= n <= 1
    ensures (n == -1) == (t == Departure)
    ensures (n == 1) == (t == Arrival)
    ensures (n == 0) == (t == Status)
  {
    match t
    case Departure => -1
    case Arrival => 1
    case Status => 0
  }

  /** The operation's type determines its net change in bikes. */
  ghost predicate WellTagged(o: Op) {
    o.netBikes == NetBikesOf(o.opType)
  }

  ghost predicate AllWellTagged(s: seq<Op>) {
    forall o :: o in s ==> WellTagged(o)
  }

  function OpTime(o: Op): Timestamp {
    o.opTime
  }

  /** The event log is ordered by time. */
  ghost predicate Chronological(s: seq<Op>) {
    SortedBy(s, OpTime)
  }

  /**
    The Event Merger: concatenates two operation streams and sorts the result by
    operation time. Nothing is dropped and nothing is deduplicated.
   */
  function Merge(a: seq<Op>, b: seq<Op>): (r: seq<Op>)
    ensures Chronological(r)
    ensures multiset(r) == multiset(a) + multiset(b)
    ensures |r| == |a| + |b|
    ensures forall o :: o in r <==> o in a || o in b
  {
    var r := SortBy(a + b, OpTime);
    assert forall o :: o in r <==> o in multiset(a + b);
    r
  }

  /** Merging keeps the link between operation type and net change. */
  lemma MergeWellTagged(a: seq<Op>, b: seq<Op>)
    requires AllWellTagged(a) && AllWellTagged(b)
    ensures AllWellTagged(Merge(a, b))
  {
  }

  /** No two operations of `s` share a time, and they are in time order. */
  ghost predicate StrictlyChronological(s: seq<Op>) {
    StrictlySortedBy(s, OpTime)
  }

  /** `a` and `b` have the same time at every position. */
  ghost predicate SameTimes(a: seq<Op>, b: seq<Op>) {
    SameKeys(a, b, OpTime)
  }

  /**
    Merging an already chronological stream with nothing keeps its operations and
    the time at every position; operations sharing a time may change places.
   */
  lemma MergeChronologicalWithEmpty(s: seq<Op>)
    requires Chronological(s)
    ensures multiset(Merge(s, [])) == multiset(s) && SameTimes(Merge(s, []), s)
    ensures multiset(Merge([], s)) == multiset(s) && SameTimes(Merge([], s), s)
  {
    assert s + [] == s && [] + s == s;
    SortBySortedKeepsKeys(s, OpTime);
  }

  /** A stream with no two operations at the same time comes back unchanged from merging with nothing. */
  lemma MergeStrictlyChronologicalWithEmpty(s: seq<Op>)
    requires StrictlyChronological(s)
    ensures Merge(s, []) == s
    ensures Merge([], s) == s
  {
    assert s + [] == s && [] + s == s;
    SortByStrictlySortedIsIdentity(s, OpTime);
  }

  /** Merging again by time keeps the operations and the time at every position. */
  lemma MergeIdempotent(a: seq<Op>, b: seq<Op>)
    ensures multiset(Merge(Merge(a, b), [])) == multiset(Merge(a, b))
    ensures SameTimes(Merge(Merge(a, b), []), Merge(a, b))
  {
    MergeChronologicalWithEmpty(Merge(a, b));
  }
}
