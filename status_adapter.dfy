/**
  The Status Event Adapter: each station status snapshot becomes one status
  operation, which changes no bike count and names no bike, and the snapshots
  are merged into the event log by time.
 */
module StatusAdapter {
  import opened Events

  /** The status operation a snapshot reports. */
  function StatusOf(s: StationSnapshot): Op {
    Op(s.lastCommunicationTime, s.id, s.stationName, None, Status, 0)
  }

  /** The status operations of all snapshots, in row order. */
  function StatusUpdates(stations: seq<StationSnapshot>): (us: seq<Op>)
    ensures |us| == |stations|
    ensures forall i :: 0 <= i < |stations| ==> us[i] == StatusOf(stations[i])
    ensures AllWellTagged(us)
    ensures forall o :: o in us ==> o.opType == Status && o.bikeId == None
  {
    seq(|stations|, i requires 0 <= i < |stations| => StatusOf(stations[i]))
  }

  /**
    The log with the snapshots inserted: one more operation per snapshot, ordered
    by time, keeping every operation it was given.
   */
  function InsertStatusUpdates(stations: seq<StationSnapshot>, ops: seq<Op>): (r: seq<Op>)
    ensures |r| == |ops| + |stations|
    ensures Chronological(r)
    ensures multiset(r) == multiset(ops) + multiset(StatusUpdates(stations))
    ensures AllWellTagged(ops) ==> AllWellTagged(r)
  {
    Merge(ops, StatusUpdates(stations))
  }

  /** Every snapshot appears in the log as its status operation. */
  lemma InsertKeepsEverySnapshot(stations: seq<StationSnapshot>, ops: seq<Op>, s: StationSnapshot)
    requires s in stations
    ensures StatusOf(s) in InsertStatusUpdates(stations, ops)
  {
    var i :| 0 <= i < |stations| && stations[i] == s;
    assert StatusUpdates(stations)[i] == StatusOf(s);
  }

  /** Every operation in the new log was already in it or reports one of the snapshots. */
  lemma InsertAddsOnlyStatus(stations: seq<StationSnapshot>, ops: seq<Op>, o: Op)
    requires o in InsertStatusUpdates(stations, ops)
    ensures o in ops || exists i :: 0 <= i < |stations| && o == StatusOf(stations[i])
  {
    if o !in ops {
      var i :| 0 <= i < |stations| && StatusUpdates(stations)[i] == o;
    }
  }
}
