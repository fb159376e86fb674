# Citi Bike event-log pipeline, modelled in Dafny

This project models the data-reshaping and gap-inference core of the Citi Bike
data pipeline, `data_processing.py`. The pipeline turns bike-share trip records
and station status snapshots into one time-ordered log of station operations. A
trip becomes a departure from its start station and an arrival at its end
station. A status snapshot becomes a status operation that changes no bike
count.

When a bike's next trip starts somewhere other than where its previous trip
ended, the bike was moved without a recorded trip. The pipeline then synthesizes
a corrective ("ghost") departure and arrival in the middle of the idle interval.

Modules:

- `Sorting` holds a sort by an integer key. It stands in for pandas'
  `sort_values`, which need not keep the order of equal keys. Its contracts say
  only what any such sort determines: the result is sorted, is a permutation of
  the input, and so has a fixed key at every position.
- `Events` holds the records (trip, station snapshot, operation) and the Event
  Merger. The merger concatenates operation streams and sorts them by time.
- `Converter` holds the Trip-to-Event Converter, `convert_trips_to_ops`.
- `StatusAdapter` holds the Status Event Adapter, `insert_status_updates`.
- `GapDetector` holds the Gap Detector and Synthesizer, `fill_missing_ops`:
  - The trip table is a class. `FillMissingOps` writes four derived columns into
    it: `prev_end_station_id`, `prev_end_station_name`, `prev_stop_time` and
    `station_match`.
  - The group-by-bike-and-shift step is the scan method `PreviousRows`. It walks
    the rows in start-time order and keeps a per-bike cursor. It is proved equal
    to a reference definition, which searches backwards for the bike's previous
    position.
- `GapProperties` holds the properties of gap filling: which trips are flagged,
  what is synthesized for each, and that nothing else is added.

Timestamps are integers counting nanoseconds, the resolution of pandas
datetimes, so one millisecond is 1 000 000. Station and bike ids are integers. A
status operation carries no bike id; the source writes NaN there.

## Model

| member | source | states |
|---|---|---|
| Sorting.SortBy | data_processing.py:73 | Sorting by a key gives a sequence in non-decreasing key order that is a permutation of the input (same multiset, same length). |
| Sorting.SortedPermutationsAgreeOnKeys | data_processing.py:73 | Any two key-ordered arrangements of the same elements have the same key at every position. This is all that a sort which may reorder ties determines. |
| Sorting.SortBySortedKeepsKeys | data_processing.py:49 | Sorting a sequence that is already in key order keeps the key at every position; elements with equal keys may change places. |
| Sorting.SortByStrictlySortedIsIdentity | data_processing.py:49 | Sorting a sequence whose keys strictly increase returns it unchanged, whatever the tie order. |
| Sorting.SortByIdempotent | data_processing.py:46 | Sorting again keeps the elements and the key at every position. |
| Events.NetBikesOf | data_processing.py:70-71 | A departure is -1, an arrival +1 and a status 0; each value identifies its operation type (both directions). |
| Events.Merge | data_processing.py:93 | Concatenating two operation streams and sorting by time gives a time-ordered log holding exactly the operations of both, with multiplicity; nothing is dropped or deduplicated. |
| Events.MergeWellTagged | data_processing.py:93 | If every input operation's net change matches its type, so does every merged operation's. |
| Events.MergeChronologicalWithEmpty | data_processing.py:49 | Merging an already time-ordered log with nothing, on either side, keeps its operations and the time at every position; operations sharing a time may change places. |
| Events.MergeStrictlyChronologicalWithEmpty | data_processing.py:49 | A log with strictly increasing times comes back unchanged from merging with nothing, on either side. |
| Events.MergeIdempotent | data_processing.py:73 | Re-sorting a merged log by time keeps its operations and the time at every position. |
| Converter.Departures | data_processing.py:61-70 | Entry i is trip i's departure: its start time, start station id and name, and bike. Each is a departure with net change -1. |
| Converter.Arrivals | data_processing.py:62-71 | Entry i is trip i's arrival: its stop time, end station id and name, and bike. Each is an arrival with net change +1. |
| Converter.ConvertTripsToOps | data_processing.py:53-75 | The log has exactly twice as many operations as there are trips. It is time-ordered, every operation is consistently tagged, and it is exactly the trips' departures plus their arrivals. |
| Converter.ConvertKeepsEveryTrip | data_processing.py:61-73 | Each trip's departure (start time, start station, bike) and arrival (stop time, end station, bike) are both in the log. |
| Converter.ConvertAddsNothingElse | data_processing.py:61-73 | Every operation in the log is the departure or the arrival of some trip. |
| Converter.ConvertSingleTrip | data_processing.py:73 | One trip that stops after it starts gives exactly its departure followed by its arrival. |
| StatusAdapter.StatusUpdates | data_processing.py:81-90 | Entry i is snapshot i's status operation: its report time, station id and name, no bike, type status and net change 0. |
| StatusAdapter.InsertStatusUpdates | data_processing.py:78-95 | The new log has one more operation per snapshot. It is time-ordered and holds exactly the old operations plus the snapshots' status operations. Consistent tagging is kept. |
| StatusAdapter.InsertKeepsEverySnapshot | data_processing.py:82-93 | Every snapshot appears in the new log as its status operation (report time, station id, station name). |
| StatusAdapter.InsertAddsOnlyStatus | data_processing.py:93 | Every operation of the new log was already in the old log or reports one of the snapshots. |
| GapDetector.OrderByStart | data_processing.py:22 | Sorting the table by start time lists every row exactly once, in non-decreasing start time. |
| GapDetector.LastPos | data_processing.py:22 | Finds the last position of a bike before position k in the order. It returns None exactly when the bike has no trip before k, and no trip of the bike sits between the returned position and k. |
| GapDetector.PrevRowsInStartOrder | data_processing.py:22-24 | Shifting within each bike along a start-time order gives each row's previous row as another row of the same bike. That row started no later, sits at an earlier position in the order, and no trip of the bike starts strictly between the two. Exactly one row of each bike gets None, and no two rows share a previous row. |
| GapDetector.PrevRowsInIsPrevious | data_processing.py:22-24 | Along a start-time order, each previous row is another row of the same bike that started no later, with no trip of the bike strictly between. A row gets None only when no other trip of its bike starts earlier. |
| GapDetector.PrevRowsInStepsBack | data_processing.py:22-24 | Along any row order, a row's previous row comes from an earlier position. |
| GapDetector.PrevRowsInChains | data_processing.py:22-24 | Along any row order, exactly one row of each bike has no previous row, and no two rows share a previous row. |
| GapDetector.PrevRowsInNoSharedPrevious | data_processing.py:22-24 | Two different rows never get the same previous row. |
| GapDetector.PrevRowsInOneFirst | data_processing.py:22-24 | Of two different rows of one bike, at most one gets no previous row. |
| GapDetector.PrevRowsInHasFirst | data_processing.py:22-24 | Every bike has a row without a previous row. |
| GapDetector.FirstPositionOfBike | data_processing.py:22-24 | Every position of a bike has, at or before it, a position where the bike's trips begin along the order. |
| GapDetector.PreviousIsImmediateAt | data_processing.py:22-24 | Along a start-time order, no trip of the bike starts strictly between a row's previous row and the row. |
| GapDetector.PrevRows | data_processing.py:22-24 | The previous-trip column. For some start-time order, each row's previous row is an earlier row in that order, of the same bike, started no later, with no trip of the bike starting strictly between. Exactly one row of each bike gets None, and no two rows share a previous row; so tied trips cannot point at each other. |
| GapDetector.PreviousRows | data_processing.py:22-24 | The per-bike scan with a cursor of each bike's last row computes exactly the reference previous rows for the given order. |
| GapDetector.MaskSelectsGaps | data_processing.py:26-28 | The mask "previous end station present and not matching this start station" holds exactly for the flagged rows. |
| GapDetector.GapRows | data_processing.py:28 | The selected rows are exactly the flagged rows, each once, in increasing row order. |
| GapDetector.HalfTowardZero | data_processing.py:30 | Halving a time gap is within one unit of the exact half. |
| GapDetector.Midpoint | data_processing.py:29-31 | The corrective time bisects the interval from the previous stop to the next start, to within one nanosecond, and lies between the two, whichever comes first. |
| GapDetector.SimDepartures | data_processing.py:34-43 | Entry j is the corrective departure of the j-th flagged row: from the previous trip's end station at the midpoint, for the row's bike. Each is a departure with net change -1. |
| GapDetector.SimArrivals | data_processing.py:35-44 | Entry j is the corrective arrival of the j-th flagged row: at the row's start station 1 ms after the midpoint, for the row's bike. Each is an arrival with net change +1. |
| GapDetector.MergeCorrections | data_processing.py:46-49 | The filled log has two more operations per flagged row. It is time-ordered and holds exactly the given operations plus the corrective departures and arrivals. Consistent tagging is kept. |
| GapDetector.WriteColumns | data_processing.py:22-26 | Writes the previous end station id and name, the previous stop time and the station-match flag for the given previous rows into the table. |
| GapDetector.FillMissingOps | data_processing.py:21-51 | Writes into the table the previous end station id and name, the previous stop time and the station-match flag of every row, each taken from the bike's previous trip. Returns the filled log. |
| GapProperties.FirstTripNeverFlagged | data_processing.py:22-28 | A bike's first trip by start time has no previous trip and is never flagged. |
| GapProperties.LaterTripHasPrevious | data_processing.py:22-24 | A trip that some trip of the same bike starts before always has a previous trip. |
| GapProperties.PreviousTripIsImmediate | data_processing.py:22-24 | No trip of the same bike starts strictly between a trip's previous trip and the trip itself. |
| GapProperties.GapPairInLog | data_processing.py:29-49 | Every flagged trip gets both halves of its corrective pair in the filled log. The departure is from the previous trip's end station at the midpoint. The arrival is at this trip's start station exactly 1 ms later, so strictly after the departure. Both carry the trip's bike and the right net changes. |
| GapProperties.CorrectionsAddOnlyGapPairs | data_processing.py:34-49 | Every operation that gap filling adds is the corrective departure or arrival of a flagged trip. |
| GapProperties.NoGapRows | data_processing.py:28 | When no row is flagged, the selection is empty. |
| GapProperties.NoGapsMeansResorted | data_processing.py:28-49 | When every bike's trips chain station to station, nothing is synthesized and the result is the log re-sorted by time. For a log already in time order the time at every position is kept, and the log comes back unchanged when no two operations share a time. |
| GapProperties.SingleGapAddsOnePair | data_processing.py:34-49 | With exactly one flagged row, gap filling adds exactly that row's corrective departure and arrival. |
| GapProperties.TwoTripsGapRows | data_processing.py:26-28 | Of two trips whose later one follows the earlier, only the later can be flagged, and it is flagged exactly when the stations do not chain. |
| GapProperties.TwoTripsPrevRows | data_processing.py:22-24 | Of two trips of one bike, the earlier has no previous trip and the later's previous trip is the earlier. |
| GapProperties.TwoTripsCorrections | data_processing.py:29-49 | For two such trips, the corrections are one departure/arrival pair when the stations differ, and nothing when they match. |
| GapProperties.TwoTripsOfOneBikeChain | data_processing.py:22-28 | Two trips of one bike, even starting at the same instant: exactly one has no previous trip and the other points to it, so they are never both flagged. |
| GapProperties.EveryBikeHasAnUnflaggedTrip | data_processing.py:22-28 | Every bike has a trip with no previous trip, which is never flagged. |
| GapProperties.TwoTripsOfOneBike | data_processing.py:21-51 | Two trips of one bike ending at B and restarting at C, with B ≠ C: gap filling adds exactly a departure at B at the midpoint and an arrival at C one millisecond later. When B = C it adds nothing. |

## Left out

- `process_monthly_trips` (reading a zipped CSV, renaming columns, parsing times) is loading I/O. The model starts from parsed trip records.
- The column renames in `convert_trips_to_ops` and `insert_status_updates`, and the time parsing of snapshot report times, are format details. Records arrive with typed fields.
- The `available_bikes` column that status updates carry through is not modelled. No operation of the core reads it.
- The columns that `convert_trips_to_ops` and `fill_missing_ops` leave out of their operation frames (trip duration, user type, and the like) are not modelled.
- Sorting.SortBy: pandas' default sort is not stable, so operations with equal times may come out in any order. The model computes with one concrete sort, but every contract about it promises only sortedness, permutation and the key at each position, never a tie order. Exact equalities are stated only for keys that strictly increase.
- GapDetector.PrevRows: the tie order of the start-time sort is not modelled. The source sorts by start time three times, once per derived column. All three sorts run on the same column with the same deterministic algorithm, so they give one permutation. The model takes all three columns from one order, which is exact. The contract of `PrevRows` promises what holds for some start-time order, and does not say which of two tied trips comes first.
- GapDetector.HalfTowardZero: the rounding of a halved nanosecond duration is stated only as "within one nanosecond of the exact half"; the body rounds toward zero.
- Index alignment: the table is assumed to have a default row index, so assigning a column back by index lines up with row order.
- Missing values other than the first-trip gaps, and type conversions, are not modelled. NaN ids, and the float ids the source gets when it concatenates NaN into `bike_id`, are among them.
- The source does not check that a time gap is positive. The model does not either: `Midpoint` is stated for both orders of the two times, and a reversed or zero interval still yields a pair.
