# Order-book ingest: a model and its proofs

This project models the part of a market-data ingest service that decides whether an
order book can be trusted: the depth resync procedure, the sharded stage that runs one
book per symbol, the comparison of a book with a snapshot, the recording and replay that
must reproduce a book, and the small algorithms underneath (the JSON field scanner, the
fixed-point parser, the latency histogram, the publisher's overflow policy).

Verify it with `dafny verify dfyconfig.toml`.

## How it is laid out

Code that changes things step by step is a class or a loop here, and each method is proved
against a specification on values; the theorems are about the specification, so they hold
of the methods too.

| concern | objects and loops | specification and theorems |
|---|---|---|
| one side, one book | `Books` | `Ladder`, `BookSpec` |
| update ids, the tracker | `Sequencing`, `Trackers` | `TrackerSpec`, `Calls`, `Venue`, `Confluence`, `Discard`, `Position` |
| book against snapshot | `Comparing` | `Comparing` |
| shards, fetches, queries, replay | `Shards`, `Replays` | `ShardSpec`, `ShardTheorems`, `StageTruth`, `Replays` |
| JSON scanner | `JsonScan` | `JsonGrammar` (RFC 8259, sections 2 to 7), `JsonSearch` (any bytes) |
| recording | `RecordFormat`, `Recorders`, `Recordings` | the same |
| publisher | `Publishers` | the same |
| fixed point, histogram | `FixedPoint`, `Histograms` | the same |

`MarketModel` holds the shared messages and `ByteData` the little-endian integers.

## The main results

1. **A live book never lies** (`Venue`, lifted to the whole sharded stage by `StageTruth`).
   The exchange is any history of books indexed by update id. A delta `U..u` is truthful
   when its levels give quantities as of `u` and mention every price changed in the range;
   a snapshot is truthful when it lists the book at its id, complete down to its deepest
   listed level when truncated (a side listing nothing is complete). For every run, with
   deltas lost, repeated, reordered, overlapping or pushed out of the buffer and snapshots
   of any age, a live book equals the exchange's at exactly its position, except beyond the
   edges of a truncated snapshot, where it may list less but never something wrong.
2. **Two replays agree** (`Confluence`, `Replays`). A load and a delta commute on a stale
   tracker, so the state is a function of the deltas and snapshots delivered, not of how
   they interleaved; a settled book depends on the recording alone, whatever the number of
   shards, the queue sizes, the timing and the fetches that failed.
3. **Sharding is invisible and no book is stranded** (`ShardTheorems`). What the stage does
   for one symbol is what a single-symbol lane would do, in order, on one shard, and its book
   is the run of one tracker; a book
   that is not live always has a fetch marked and a request under way, and the number in
   flight is known exactly.
4. **Stopping early loses nothing** (`Discard`), **exactly when the position can rewind**
   (`Position`), **comparison raises no false alarm** (`Comparing`).
5. **The scanner agrees with the JSON grammar**, **the recording format is a bijection with
   a detectable end**, **what was accepted for recording is what is read back**
   (`Recordings`), **drop-oldest really drops the oldest under every interleaving**,
   **parsing and printing are inverse and exact**, and **the histogram's quantile falls in
   the right bucket**.

## Where the code and its comments or aims differ

The model follows the code in each case.

- `Tracker.Apply`'s comment says a delta for another symbol leaves the book stale
  (internal/book/tracker.go:152-155); the code returns before touching anything
  (internal/book/tracker.go:157-159), and so does `TrackerSpec.ApplyStep`.
  `TrackerSpec.ForeignDeltaLeavesLive` is a run in which it happens, and
  `TrackerSpec.FailedApplyStaysLiveIff` says exactly when a failed delivery leaves a live
  book live.
- "One request per symbol" is not what the code ensures when a snapshot arrives as a routed
  event: `Load` clears the fetch mark (internal/book/tracker.go:222), so a second request
  goes out. `ShardSpec.RoutedSnapshotDoublesRequests` is a concrete input, and
  `ShardTheorems.OneRequestIffNoSnapMeetsStale` the exact condition: no snapshot event is
  handled for a book that is not live. The decoder produces no such events
  (internal/exchange/binance/decode.go:53-60).
- `openFile` truncates (internal/record/recorder.go:253), so an hour that is left and come
  back to loses what it held: `Recorders.RevisitLosesLines` is such a run, and
  `Recorders.FilesSurviveIffClustered` the exact condition.
- The position can move back after an overflow that leaves nothing reaching it in the
  buffer. `Position.OutOfOrderOverflowRewinds` is such a run of a new tracker, and
  `Position.RewindableIffOverflowSpares` the exact condition, on the buffer and the delta at
  each overflow. Deltas delivered in order always meet it (`Position.InOrderNeverRewinds`).
- `ParseFixed` takes a lone dot, with or without a sign, for zero
  (`FixedPoint.LoneDotIsZero`); "well-formed decimal" below means an optional minus sign,
  digits, and digits after an optional dot, where each group of digits may be empty.

## Conventions

- Prices, quantities and update ids are unbounded integers: the code only compares and
  stores them. Its one sum, `last + 1`, is evaluated only when a larger id exists, so it
  cannot wrap; `Sequencing.Sequencer.Next` asserts this. Widths that do matter are written
  out: the 64-bit FNV hash, the 64-bit decimal accumulator and result, the fields of the
  recording format.
- A lawful exchange lists positive prices and no empty levels.
- Goroutines and channels are atomic steps: routing, handling, a snapshotter's answer, its
  collection, a query; the publisher's three selects one by one with the consumer between
  them; the recorder's take, rotate, mark and write. A step that is not enabled changes
  nothing, which is also how a blocked or abandoned `Route` behaves.
- The replay theorems speak of runs in which the symbol's buffer never overflowed and no
  snapshot was routed as an event; requests may fail at any point. The answers come from the
  snapshot store, filled before the replay starts as the first pass over the files fills it.

## Model

| member | source | states |
|---|---|---|
| `Ladder.PutAllAt` | internal/book/book.go:146-160 | after a list of absolute levels each price it mentions has the quantity of its last mention, every other price the one it had, and no zero is stored |
| `Ladder.Canonical` | internal/book/book.go:41-46 | a price-to-quantity map has one representation as a top-first slice, so equal books are equal slices |
| `Ladder.OneMap` | internal/book/book.go:50-65 | a duplicate-free slice means one map only |
| `Ladder.UpdatedAt` | internal/book/book.go:50-65 | overwriting the quantity at a found index changes that price in the map and keeps the order |
| `Ladder.InsertedAt` | internal/book/book.go:50-65 | inserting at the searched index adds that price and keeps the slice strictly top-first |
| `Ladder.DeletedAt` | internal/book/book.go:50-65 | deleting at the found index removes that price and keeps the order |
| `Ladder.PermutedDistinct` | internal/book/book.go:87-108 | whether a price repeats does not depend on the order of the levels |
| `Ladder.PermutedDepth` | internal/book/book.go:87-108 | two orderings of the same levels mean the same map |
| `BookSpec.ValidateIff` | internal/book/book.go:241-251 | validation passes exactly when every price is positive and no quantity negative, and never reports a repeated price |
| `BookSpec.FirstBadIsReported` | internal/book/book.go:241-251 | the error is that of the first invalid level: its price if that is not positive, its quantity otherwise |
| `BookSpec.UpdateErrorIs` | internal/book/book.go:146-160 | an update is refused exactly for an invalid level, and a bad bid is reported before a bad ask |
| `BookSpec.UpdateHolds` | internal/book/book.go:146-160 | an update leaves, on each side, the last listed quantity at the prices it lists there and every other price alone |
| `BookSpec.ResetErrorIs` | internal/book/book.go:167-184 | a snapshot is refused exactly for an invalid level, as an update would be, or for a price listed twice with a quantity on one side |
| `BookSpec.ResetHolds` | internal/book/book.go:167-184 | an accepted snapshot becomes the book: a side holds a quantity at a price exactly when it lists that level |
| `BookSpec.PresentAt` | internal/book/book.go:87-108 | after the zero levels of a snapshot are dropped, the map holds a non-zero quantity at a price exactly when the snapshot listed that level |
| `BookSpec.ResetPermutes` | internal/book/book.go:167-184 | every permutation of a snapshot's levels is accepted or refused alike and gives the same book |
| `BookSpec.StaysProper` | internal/book/book.go:146-184 | updates and resets keep a book free of zero quantities |
| `Books.SortLevels` | internal/book/book.go:95-97 | the library sort's promise: in order, and the same levels |
| `Books.Side.Search` | internal/book/book.go:69-71 | the binary search finds the price if it is listed, and otherwise the place between nearer and farther levels where it belongs |
| `Books.Side.Apply` | internal/book/book.go:50-65 | in-place insert, replace or delete refines putting one absolute level into the map |
| `Books.Side.SortedCopy` | internal/book/book.go:87-108 | succeeds exactly when no price with a quantity repeats, and then gives the sorted zero-free slice of the same map |
| `Books.Side.Top` | internal/book/book.go:74-82 | the nearest n levels, all of them when fewer, none when n is not positive |
| `Books.StrictWhenNoRepeat` | internal/book/book.go:99-107 | comparing neighbours in a sorted slice is enough to exclude every repeated price |
| `Books.Book.Apply` | internal/book/book.go:146-160 | a valid update puts all levels into the two maps; an invalid one reports the first error and changes neither map nor slice |
| `Books.Book.Reset` | internal/book/book.go:167-184 | a good snapshot replaces both maps; a bad one, on either side, changes nothing |
| `Books.Book.BestBid` | internal/book/book.go:187-192 | the highest bid with its quantity, absent exactly when there are no bids |
| `Books.Book.BestAsk` | internal/book/book.go:195-200 | the lowest ask with its quantity, absent exactly when there are no asks |
| `Books.Book.Crossed` | internal/book/book.go:231-236 | true exactly when some bid is at or above some ask |
| `Books.SameMeaningSameSlices` | internal/book/book.go:146-184 | two books with equal maps hold equal slices, whatever calls led there |
| `Books.Validate` | internal/book/book.go:241-251 | the loop finds the first invalid level, if any |
| `Sequencing.Sequencer.Reset` | internal/book/sequence.go:66-69 | anchors at the id and is in sync |
| `Sequencing.Classify` | internal/book/sequence.go:88-107 | exactly when a range is behind the position, joins it, or leaves a hole |
| `Sequencing.Sequencer.Next` | internal/book/sequence.go:93-107 | stale ranges change nothing, joining ones move to their last id, a hole loses sync and keeps the id; the id never goes down, and no classification wraps |
| `Sequencing.Sequencer.Invalidate` | internal/book/sequence.go:114 | loses sync and keeps the id |
| `TrackerSpec.ReplaySplits` | internal/book/tracker.go:242-261 | replaying a buffer in two parts is replaying it whole, both when it goes through and when it stops |
| `TrackerSpec.KeepsSuffix` | internal/book/tracker.go:242-261 | what a stopped replay keeps is a non-empty suffix of the buffer |
| `TrackerSpec.FailedApplyStaysLiveIff` | internal/book/tracker.go:152-184 | after a delivery that fails, for its symbol or for its levels, the tracker is live exactly when it was live and the delta was of another symbol |
| `TrackerSpec.ForeignDeltaLeavesLive` | internal/book/tracker.go:157-159 | a new tracker, brought live and handed a foreign delta, reports the error and stays live |
| `Trackers.Tracker.constructor` | internal/book/tracker.go:120-125 | a new tracker is empty and stale, with a buffer of at least one |
| `Trackers.Tracker.Apply` | internal/book/tracker.go:156-184 | every branch of the whole state: ignored, buffered with or without dropping the oldest, applied, stale, gapped, and a rejected level that loses the anchor |
| `Trackers.Tracker.BeginFetch` | internal/book/tracker.go:189-195 | true, marking the fetch, exactly when stale with none outstanding |
| `Trackers.Tracker.FetchFailed` | internal/book/tracker.go:201 | clears the fetch mark and nothing else |
| `Trackers.Tracker.Load` | internal/book/tracker.go:221-265 | every branch of the whole state: wrong symbol, already live, refused snapshot, and a replay that goes through, meets a hole or meets a rejected delta; once taken up, each bound is the price of a listed level with none deeper |
| `Trackers.Tracker.Reanchor` | internal/book/tracker.go:234-264 | anchoring and replaying the buffer gives the book, position, sync flag, kept buffer, bounds and counters of the replay on values |
| `Trackers.Tracker.ReplayBuffer` | internal/book/tracker.go:242-263 | the loop over the buffer, mutating book and sequencer, refines the recursive replay |
| `Trackers.Tracker.Buffer` | internal/book/tracker.go:268-274 | appends, dropping and counting the oldest when full; never exceeds its capacity |
| `Trackers.Tracker.KeepBufferFrom` | internal/book/tracker.go:278-280 | keeps the deltas from an index on, in order |
| `Trackers.Tracker.ClearBuffer` | internal/book/tracker.go:285-288 | empties the buffer |
| `Trackers.Tracker.SetBounds` | internal/book/tracker.go:298-313 | each bound is the price of a listed level of a truncated side with no listed level deeper, and zero for a complete or empty side |
| `TrackerSpec.BoundsAreDeepest` | internal/book/tracker.go:298-313 | the same of the bounds the theorems speak of |
| `Calls.NewTrackerIs` | internal/book/tracker.go:112-125 | a new tracker is stale and empty, asks for a snapshot, and holds as many deltas as asked or 2048 |
| `Calls.FetchMarks` | internal/book/tracker.go:186-201 | a fetch begins exactly when the book is stale and none is outstanding; both fetch calls touch the mark alone |
| `Calls.DeliveryAnswers` | internal/book/tracker.go:156-184 | each answer of Apply, exactly, from the ids and from whether the position moved and the book stayed live |
| `Calls.DeliveryLeaves` | internal/book/tracker.go:156-184 | position, sync, book, bounds, buffer and every counter after a delivery, from its answer |
| `Calls.ForeignDeltaIsIgnored` | internal/book/tracker.go:157-159 | a delta is an error of symbol exactly when it is of another one, and changes nothing |
| `Calls.RefusedLoadLeaves` | internal/book/tracker.go:221-233 | exactly which snapshots are refused and how; a refused one changes the fetch mark alone |
| `Calls.LoadLeaves` | internal/book/tracker.go:234-265 | a live book becomes the snapshot; a stale one is live after exactly when every held delta joins up, at the highest id held, and otherwise keeps a suffix beyond everything before it; bounds and counters |
| `Venue.OverlapIsHarmless` | internal/book/sequence.go:78-107 | a truthful delta `U..u` applied to a side that agrees with the exchange anywhere in `U-1..u` makes it agree at `u` |
| `Venue.UncoveredIsPast` | internal/book/tracker.go:298-313 | a price a truncated snapshot says nothing about lies beyond the bound it sets |
| `Venue.SnapshotAgrees` | internal/book/tracker.go:298-313 | a side built from a truthful snapshot agrees with the exchange up to the bound |
| `Venue.ReplayAgrees` | internal/book/tracker.go:242-261 | replaying truthful deltas that join up from an agreeing book ends in one that agrees at its new position |
| `Venue.ApplyFaithful` | internal/book/tracker.go:156-184 | a truthful delta keeps the invariant: agreeing while live, truthful deltas buffered |
| `Venue.LoadFaithful` | internal/book/tracker.go:221-265 | a truthful snapshot, of any age, keeps the invariant |
| `Venue.RunFaithful` | internal/book/tracker.go:156-265 | every run of truthful messages keeps the invariant |
| `Venue.LiveBookNeverLies` | internal/book/tracker.go:156-265 | after any run of truthful messages from a new tracker a live book agrees with the exchange at its position, and is equal to it on every side without a bound |
| `Venue.NoEdgeWithoutTruncation` | internal/book/tracker.go:298-313 | runs whose snapshots are all untruncated never set a bound |
| `Venue.UntruncatedBookIsExact` | internal/book/tracker.go:156-265 | with untruncated snapshots a live book is the exchange's book at exactly its position |
| `Confluence.LoadApplyCommute` | internal/book/tracker.go:156-288 | on a stale tracker, load then delta and delta then load give the same book, position, sync flag, buffer and bounds in every case |
| `Confluence.LoadAndApplyCommute` | internal/book/tracker.go:156-288 | the same of the two calls themselves, when the buffer has room: everything but the counters agrees |
| `Confluence.DeltaMovesFirst` | internal/book/tracker.go:156-265 | delivering one more delta at the end equals having had it buffered before every snapshot |
| `Confluence.SnapshotComesLast` | internal/book/tracker.go:221-265 | one more snapshot on a stale book extends the canonical state |
| `Confluence.LiveIsUnique` | internal/book/tracker.go:221-265 | for given deltas and snapshot list, one prefix of the list at most makes the book live, so the live state is unique |
| `Confluence.RunIsCanonical` | internal/book/tracker.go:156-265 | the state after a run without overflow, loading only when stale, is a function of the deltas delivered and the snapshots landed, not of their interleaving |
| `Confluence.LiveRunsAgree` | internal/book/tracker.go:156-288 | two such runs over the same deltas and snapshot list that end live agree on book, position, buffer and bounds, and used the same snapshots |
| `Discard.ReplayReach` | internal/book/tracker.go:242-261 | a replay ends at the highest id it passed; a stop is at the first delta that the ones before it do not reach or whose levels are refused |
| `Discard.ThroughIffAllJoin` | internal/book/tracker.go:242-261 | a replay goes through exactly when every delta beyond the reach of those before it joins them and has valid levels |
| `Discard.LoadMakesLiveIff` | internal/book/tracker.go:221-265 | a snapshot brings a stale book live exactly when it is well formed and every held delta joins up in that sense |
| `Discard.SkipsStale` | internal/book/tracker.go:242-261 | deltas at or below the anchor can be left out of a replay |
| `Discard.Blocked` | internal/book/tracker.go:242-261 | a hole or a refused delta ahead of the reach stops every replay that comes to it, whatever follows |
| `Discard.PrefixIsSpent` | internal/book/tracker.go:276-280 | after a stop, for every later anchor and every later delta, the kept suffix replays through exactly when the whole buffer would, with the same result |
| `Discard.EarlyStopLosesNothing` | internal/book/tracker.go:242-280 | the same of `Load`: every later snapshot makes the kept state live exactly when it would have made the unshortened one live, and equal |
| `Position.BufferInvariants` | internal/book/tracker.go:156-288 | in every run the buffer is within capacity, empty while live, holds only this symbol, and is a suffix of the deltas delivered |
| `Position.OverflowDropsOldest` | internal/book/tracker.go:268-274 | a delivery counts a drop exactly when a stale buffer is full, and then the oldest delta, and only it, goes |
| `Position.ReplayKeepsMark` | internal/book/tracker.go:242-261 | a replay of a buffer holding a delta at or above a mark ends at or above it, or keeps such a delta |
| `Position.DeliverySecuresIff` | internal/book/tracker.go:267-274 | a delivery leaves a tracker holding or standing at or above a mark so exactly when, if it overflows, the new delta or one of those kept reaches the mark |
| `Position.RewindsIffNotSecured` | internal/book/tracker.go:221-265 | some snapshot would take a tracker live below a mark exactly when it is live below it already, or stale and holds no delta that reaches it |
| `Position.RunSecuresIff` | internal/book/tracker.go:156-274 | the same of every moment of a stretch of a run: never rewindable exactly when every overflow spares the mark |
| `Position.RewindableIffOverflowSpares` | internal/book/tracker.go:221-274 | once a new tracker has been live at a position, no snapshot can take it back at any later moment of the run exactly when every overflow until then kept something that reaches the position |
| `Position.PositionNeverRewinds` | internal/book/tracker.go:221-274 | between two live moments of such a run the position never goes down |
| `Position.InOrderNeverRewinds` | internal/book/tracker.go:221-274 | deltas delivered in id order never make the position go down, whatever the snapshots, gaps and overflows |
| `Position.OutOfOrderOverflowRewinds` | internal/book/tracker.go:267-274 | four calls on a new tracker of capacity one: live at 10 after the first, live at 7 after the last |
| `Position.CountersAddUp` | internal/book/tracker.go:54-62 | every delivered delta of the symbol is counted once, as applied, discarded, buffered, gapped, or refused |
| `Comparing.CompareSide` | internal/book/compare.go:145-187 | the two-index loop, stopping at the bound, appends the recursive merge's differences and counts its prices |
| `Comparing.MergeIsExact` | internal/book/compare.go:145-187 | for sorted zero-free sides: exactly the in-range prices whose quantities differ, absent counting as zero, once each and top-first; the count is the size of the in-range union |
| `Comparing.Compare` | internal/book/compare.go:101-139 | refuses exactly a foreign symbol, or a price repeated with a quantity, and says which; otherwise reports, for positive prices, exactly those not past the book's own edge nor, when the snapshot is truncated, past every level it lists with a quantity, at which the quantities differ; counts all such prices; reads the tracker only |
| `Comparing.RangeIsWhatBothKnow` | internal/book/compare.go:123-131 | a positive price is compared exactly when both the book and the snapshot know it, in that sense |
| `Comparing.ReportIsTold` | internal/book/compare.go:101-139 | a report over positive prices is exact, ordered and complete over that range, and its bounds describe it |
| `Comparing.InRangeIsKnown` | internal/book/compare.go:107-130 | inside the compared range a book that agrees with the exchange agrees with every truthful snapshot at its id |
| `Comparing.LiveMeansNoDiff` | internal/book/compare.go:101-139 | a book agreeing with the exchange at a snapshot's id has no difference from it |
| `Comparing.NoFalseAlarm` | internal/book/compare.go:101-139 | after any run of truthful messages a live book compared with a truthful snapshot of equal id, truncated or not, reports nothing |
| `ShardSpec.FnvLaw` | internal/pipeline/shard.go:264-275 | the hash of no bytes is the offset basis, and of one byte more the hash so far, exclusive-or the byte, times the prime, in 64 bits |
| `ShardSpec.FnvVectors` | internal/pipeline/shard.go:264-275 | the hash is 64-bit FNV-1a: its published values for "a" and "foobar" |
| `ShardSpec.ShardIndexIsRemainder` | internal/pipeline/shard.go:264-275 | the index is what is left of the hash after whole rounds of the shards |
| `ShardSpec.HashToShard` | internal/pipeline/shard.go:264-275 | the wrapping loop gives an index below n that differs from the hash by a multiple of n |
| `ShardSpec.LoadKeepsLive` | internal/book/tracker.go:221-265 | no snapshot costs a live book its anchor, and every one clears the fetch mark |
| `ShardSpec.HandleAttended` | internal/pipeline/shard.go:381-424 | handling any event leaves a stale book with its fetch marked and a request under way, a live one unmarked |
| `ShardSpec.CompleteAttended` | internal/pipeline/shard.go:475-524 | so does collecting any answer, a failure or a snapshot |
| `ShardSpec.ServeAnswersOne` | internal/pipeline/shard.go:443-472 | an answer goes to the request it is for and to no other |
| `ShardSpec.CompleteTakesOne` | internal/pipeline/shard.go:475-524 | collecting an answer removes that request alone and adds one exactly when the book is still stale |
| `ShardSpec.HandleExtra` | internal/pipeline/shard.go:381-424 | requests beyond those due go up by one exactly when a snapshot is routed to a book that is not live |
| `ShardSpec.CompleteExtra` | internal/pipeline/shard.go:475-489 | and down by one exactly when an answer comes back to a live book |
| `ShardSpec.RoutedSnapshotDoublesRequests` | internal/book/tracker.go:222 | a snapshot event, the first event of its symbol, after which two requests for it are in flight |
| `ShardTheorems.StepSeen` | internal/pipeline/shard.go:357-436 | each step of the stage is, for one symbol, either no step or one step of its own lane |
| `ShardTheorems.ShardingIsInvisible` | internal/pipeline/shard.go:194-206 | for every number of shards, queue size and interleaving, a symbol's book, requests and queue are those of a lane that sees that symbol alone |
| `ShardTheorems.OrderIsKept` | internal/pipeline/shard.go:194-289 | a symbol's routed events are its handled events followed by its queued ones, in order, and no other shard ever holds any of them or its book |
| `ShardTheorems.HandledDeltasArePrefix` | internal/pipeline/shard.go:357-436 | the deltas a symbol's shard has handled, then those in its queue, are the symbol's routed deltas in order; no other shard has any |
| `ShardTheorems.RouteWaitsForRoom` | internal/pipeline/shard.go:194-206 | an event with a symbol waits exactly for room in that symbol's queue; one without is never routed |
| `ShardTheorems.LaneIsTrackerRun` | internal/pipeline/shard.go:381-524 | in every lane run the book is a new tracker of that symbol and capacity after the deltas, snapshots and failures the lane gave it, each followed by a fetch |
| `ShardTheorems.BookIsTrackerRun` | internal/pipeline/shard.go:357-524 | the same of every symbol's book in every run of the stage |
| `ShardTheorems.InFlightIsExact` | internal/pipeline/shard.go:443-489 | in every lane run the requests beyond those due are the snapshots routed to a stale book less the answers that came back to a live one |
| `ShardTheorems.OneRequestIffNoSnapMeetsStale` | cmd/replay/main.go:265-288 | through any prefix of a run of the stage, a symbol always has one request in flight while stale and none once live exactly when no snapshot event was handled for it while it was not live |
| `ShardTheorems.NoBookIsStranded` | cmd/replay/main.go:265-288 | in every reachable state a stale book is marked fetching with a request in flight; with no routed snapshots there is exactly one, and none once live; a live book buffers nothing |
| `Replays.SnapshotStore.Add` | internal/record/source.go:221-225 | appended to its own symbol's list; other lists and all positions unchanged |
| `Replays.AnswersInOrder` | internal/record/source.go:231-245 | a symbol's answers are its recorded snapshots in order, each once; the store fails exactly when cancelled or used up, and then consumes nothing; other symbols are not touched |
| `Replays.SnapshotStore.Snapshot` | internal/record/source.go:231-245 | the object answers and advances as the store on values, and counts what it served |
| `Replays.RunDetermined` | internal/pipeline/shard.go:381-524 | in every clean lane run the book is a function of the deltas handled and the snapshots landed, any snapshot in hand being the last one served |
| `Replays.SettledIsFinal` | cmd/replay/main.go:265-288 | once a symbol's queue is empty and its book live, no further run of the stage changes its book, requests or queue unless another event is routed for it |
| `Replays.SettledIsCanonical` | cmd/replay/main.go:265-288 | a settled book of the sharded stage is a function of the routed deltas and the snapshots served |
| `Replays.ServedIsPrefix` | internal/record/source.go:197-245 | in every replay fed from the store, what a symbol has been served is a prefix of its recorded snapshots |
| `Replays.ReplayIsCanonical` | internal/record/source.go:197-245 | so a settled replay's book is a function of the routed deltas and a prefix of the recording's snapshots |
| `Replays.ReplaysAgree` | internal/record/source.go:197-245 | two settled replays of one recording have the same book, position and bounds, and used the same snapshots, whatever the shards, capacities, interleaving and failures |
| `Shards.Slot.Fetch` | internal/pipeline/shard.go:443-472 | starts a request exactly when the tracker asks for one |
| `Shards.Slot.Load` | internal/pipeline/shard.go:493-524 | the tracker's load followed by a new request if it is still stale |
| `Shards.Slot.Apply` | internal/pipeline/shard.go:381-424 | the tracker's apply followed by a request if that left it stale |
| `Shards.Slot.Serve` | internal/pipeline/shard.go:443-472 | the snapshotter's answer, or its failure, waits for the shard |
| `Shards.Slot.Complete` | internal/pipeline/shard.go:475-489 | the answer leaves the flight, and a failure clears the mark and asks again |
| `Shards.ShardLoop.Track` | internal/pipeline/shard.go:428-436 | a symbol's book is created, asking for a snapshot, on first sight only; no other book changes |
| `Shards.ShardLoop.Handle` | internal/pipeline/shard.go:381-424 | the event's symbol takes its lane step, created if needed, and every other book is as it was; trades and unknown events change none |
| `Shards.ShardLoop.Complete` | internal/pipeline/shard.go:475-489 | the symbol's book takes its answer and every other book is as it was |
| `Shards.ShardLoop.Answer` | internal/pipeline/query.go:140-165 | unknown symbol exactly when there is no book; a view shows position, sync, crossing, counters and nearest levels of the maps, live only with nothing buffered; a check is refused or answered as a comparison must be; no book is created or changed |
| `Shards.ViewOf` | internal/pipeline/query.go:140-165 | the view's fields against the two maps: depths are their sizes, levels their nearest ones in order |
| `Shards.TopOfSide` | internal/book/book.go:74-82 | a prefix of the sorted slice is the nearest levels of the map: none of the omitted is nearer |
| `StageTruth.LaneFaithful` | internal/pipeline/shard.go:381-524 | a lane fed truthful deltas and answers keeps its book faithful, the answers in flight included |
| `StageTruth.StageNeverLies` | internal/pipeline/shard.go:357-524 | in every run of the sharded stage a live book agrees with the exchange at its position, and is equal to it without bounds |
| `JsonScan.SkipSpace` | internal/exchange/binance/jsonscan.go:104-114 | the loop stops at the first byte that is not white space, for any bytes and start |
| `JsonScan.ScanString` | internal/exchange/binance/jsonscan.go:118-132 | finds the unescaped closing quote or fails, with indexes in bounds even when an escape skips past the end |
| `JsonScan.SkipNested` | internal/exchange/binance/jsonscan.go:150-175 | matches brackets by depth, ignoring those inside strings, or fails |
| `JsonScan.SkipValue` | internal/exchange/binance/jsonscan.go:138-188 | the end of the value at an index, or failure, on arbitrary bytes |
| `JsonScan.ReadMember` | internal/exchange/binance/jsonscan.go:44-68 | one member's key and value span, or failure, on arbitrary bytes |
| `JsonScan.FieldValue` | internal/exchange/binance/jsonscan.go:38-84 | the search loop ends on arbitrary bytes with the first matching member's bytes or failure |
| `JsonScan.StringField` | internal/exchange/binance/jsonscan.go:90-102 | the content of a quoted value without escapes, and failure otherwise |
| `JsonGrammar.ValueIsTransparent` | internal/exchange/binance/jsonscan.go:150-175 | the depth scan passes every well-formed value, whatever its nesting and strings, and comes out at the depth it went in with |
| `JsonGrammar.ValueIsReadWhole` | internal/exchange/binance/jsonscan.go:138-188 | the skip ends exactly at the end of a well-formed value followed by a delimiter |
| `JsonGrammar.MembersAreSearched` | internal/exchange/binance/jsonscan.go:44-83 | the search over rendered members is a lookup in the member list |
| `JsonGrammar.FieldAgreesWithGrammar` | internal/exchange/binance/jsonscan.go:38-84 | for every well-formed object, any white space and anything after it, the result is the bytes of the first member written with that key, and failure exactly when there is none |
| `JsonGrammar.StringFieldAgreesWithGrammar` | internal/exchange/binance/jsonscan.go:90-102 | a string comes back exactly when the first such member is a string without escapes, and it is that string's characters |
| `JsonGrammar.FoundIffPresent` | internal/exchange/binance/jsonscan.go:75-77 | the lookup succeeds exactly when some member has the key |
| `JsonSearch.ClosingQuoteIff` | internal/exchange/binance/jsonscan.go:118-132 | on any bytes a string ends at a quote reached through whole units, a unit being a plain byte or a backslash with the byte after it |
| `JsonSearch.NestedEndIff` | internal/exchange/binance/jsonscan.go:146-169 | on any bytes a bracketed value ends where its brackets are first all closed, strings among it passed whole |
| `JsonSearch.ValueEndIff` | internal/exchange/binance/jsonscan.go:138-188 | on any bytes a value ends there exactly when it is a string, a bracketed text or bytes up to the first delimiter |
| `JsonSearch.MemberAtIff` | internal/exchange/binance/jsonscan.go:44-74 | on any bytes a member is read exactly when it is a string, a colon and a value with white space around them |
| `JsonSearch.FieldIff` | internal/exchange/binance/jsonscan.go:38-84 | on any bytes the search succeeds exactly when members separated by commas lead from the opening brace to the first with the key, and returns that one's value |
| `JsonSearch.TextOfIff` | internal/exchange/binance/jsonscan.go:90-102 | a raw value is taken as text exactly when it is a quote, the text without a backslash, and a quote |
| `ByteData.LittleEndianRoundTrip` | internal/record/format.go:51-62 | an integer that fits its width reads back |
| `ByteData.FromLittleEndianRoundTrip` | internal/record/format.go:51-62 | every byte string is the encoding of what it reads as, and that fits the width |
| `ByteData.ByteWeights` | internal/record/format.go:51-62 | the least significant byte is first: each further byte weighs 256 times the one before |
| `ByteData.PutLittleEndian` | internal/record/writer.go:83-98 | the integer's bytes are written in place and all others left alone |
| `RecordFormat.KindOf` | internal/record/format.go:86-93 | a byte is a kind exactly when some kind is written as it |
| `RecordFormat.HeaderBytes` | internal/record/format.go:64-69 | the eight bytes a file opens with |
| `RecordFormat.RecordBytes` | internal/record/format.go:51-62 | the bytes of a frame, a snapshot, a metadata record and a drop marker, written out |
| `RecordFormat.NegativeTimes` | internal/record/writer.go:88 | a time before 1970 is written in two's complement and read back |
| `RecordFormat.ReadErrorsAre` | internal/record/reader.go:77-118 | on any bytes exactly when each error comes back, in the order they are looked for |
| `RecordFormat.OpenErrorsAre` | internal/record/reader.go:49-70 | the same of the file header |
| `RecordFormat.HeadIsRead` | internal/record/reader.go:77-90 | kind, signed time and length are recovered from the thirteen bytes of a head, cut after it or not |
| `RecordFormat.RecordRoundTrip` | internal/record/reader.go:77-118 | a written record, followed by anything, is read back and the rest is left |
| `RecordFormat.CutRecordIsCorrupt` | internal/record/reader.go:131-136 | a record cut at any byte inside it is reported as corrupt |
| `RecordFormat.WholeRecordsFit` | internal/record/reader.go:72-76 | the number of whole records before a cut is the greatest that fits |
| `RecordFormat.TruncationIsReported` | internal/record/reader.go:77-136 | a stream cut anywhere yields exactly its whole records, then a clean end exactly when the cut is on a boundary and a corrupt record otherwise |
| `RecordFormat.RecordingRoundTrip` | internal/record/reader.go:49-118 | a whole recording opens and reads back as the records written |
| `RecordFormat.ReadRecordWasWritten` | internal/record/reader.go:77-118 | conversely, a record that is read could have been written, and the bytes read are its encoding |
| `RecordFormat.OnlyRecordingsAreRead` | internal/record/reader.go:77-118 | for arbitrary bytes, what is read is what was written up to the first bad byte, and the end is clean exactly when all the bytes are records |
| `RecordFormat.OnlyRecordingsOpen` | internal/record/reader.go:49-70 | a stream is accepted exactly when it starts with the header |
| `RecordFormat.Writer.Write` | internal/record/writer.go:83-98 | head and payload are appended and counted; a payload over sixteen mebibytes is refused and changes nothing |
| `RecordFormat.Writer.WriteHeld` | internal/record/writer.go:50-57 | a frame or metadata record appends its encoding |
| `RecordFormat.Writer.WriteDropped` | internal/record/writer.go:74-78 | a drop marker appends its encoding and cannot be refused |
| `RecordFormat.Reader.Next` | internal/record/reader.go:77-118 | consumes what one step of reading consumes, in every outcome |
| `Recorders.StepBalanced` | internal/record/recorder.go:167-248 | every step keeps the accounts: accepted entries in order across file, hand and queue, and drops awaiting their marker |
| `Recorders.NothingIsUnaccounted` | internal/record/recorder.go:167-248 | in every run, offered is written plus in hand plus queued plus dropped, accepted entries stay in order, and once drained the markers sum to the drops |
| `Recorders.RefusedIffFull` | internal/record/recorder.go:167-178 | in every run a step refuses an entry exactly when it offers one to a queue holding its configured capacity; any other offer goes to the end |
| `Recorders.MarkersPrecedeEntries` | internal/record/recorder.go:223-247 | in every run each marker stands right before an entry, in its file and with its time |
| `Recorders.HourHolds` | internal/record/recorder.go:207 | an entry lies within its hour of 3600 seconds |
| `Recorders.FilesSurviveIffClustered` | internal/record/recorder.go:251-271 | each file opens with its one metadata line and holds what was written since it was last opened; nothing is ever lost exactly when no hour is left and come back to |
| `Recorders.RevisitLosesLines` | internal/record/recorder.go:251-271 | a closed run with entries of hours 1, 2 and 1 after which no file of hour 1 holds the first |
| `Recorders.HourHoldsItsEntries` | internal/record/recorder.go:202-248 | the entries ever written to the file of an hour are the entries written that belong to that hour, in order |
| `Recorders.GatherIsLog` | internal/record/recorder.go:202-248 | when hours never go back, the files one after the other in the order of their hours are everything that was written, in order |
| `Recorders.ClosedFilesHoldTheirHours` | internal/record/recorder.go:182-271 | after Close, if no hour was come back to, each file opens with its one metadata line and its entries are the accepted entries of its hour, in order |
| `Recorders.ClosedRecordingIsComplete` | internal/record/recorder.go:182-271 | after Close, if hours never decreased, the files in the ascending order of their hours hold exactly the accepted entries, in order, and markers that sum to the drops |
| `Recorders.RecorderLoop.Enqueue` | internal/record/recorder.go:167-178 | with room for it the entry goes to the end of the queue and nothing is dropped; with none only the drop counter grows, by one |
| `Recorders.RecorderLoop.OpenFile` | internal/record/recorder.go:251-271 | the hour's file is replaced by one holding the metadata |
| `Recorders.RecorderLoop.WriteLine` | internal/record/recorder.go:220-247 | one line is appended to the hour's file and counted |
| `Recorders.RecorderLoop.Turn` | internal/record/recorder.go:202-248 | one pass of the loop body is a take, a rotation if the hour changed, a marker if drops grew, and a write |
| `Recordings.OpenHour` | internal/record/recorder.go:251-271 | a fresh writer whose stream is the file holding the metadata line |
| `Recordings.Append` | internal/record/recorder.go:220-247 | the writer's stream goes from the bytes of a file to the bytes of that file with one more line |
| `Recordings.BytesSnoc` | internal/record/writer.go:83-98 | one more line is its record's encoding appended |
| `Recordings.FilesReadBack` | internal/record/reader.go:49-118 | in every run, closed or not, every file opens, reads back as the records of its lines, and ends cleanly |
| `Recordings.FilesOpenWithMetadata` | internal/record/recorder.go:251-271 | the first record read from every file is the metadata as given, at the start of the file's hour |
| `Recordings.RecordingIsReplayed` | internal/record/recorder.go:182-271 | after Close, if hours never decreased, reading the files in the order of their hours gives the accepted entries with kinds, times and payloads, in order, and drop counts for exactly the entries refused |
| `Publishers.SubsequenceWithout` | internal/pipeline/publisher.go:137-141 | leaving out one event keeps what remains in published order |
| `Publishers.RetrySound` | internal/pipeline/publisher.go:142-146 | after the discard the retry always finds room: the fallback drop is not taken |
| `Publishers.DropOldestKeepsNewest` | internal/pipeline/publisher.go:128-149 | under every interleaving with the consumer: published is consumed plus queued plus dropped, order is kept, the queue is the newest events with no gap, and the newest event of all is never dropped |
| `Publishers.Delivery.Deliver` | internal/pipeline/publisher.go:115-117 | the consumer takes from the front, in order, and drops nothing |
| `Publishers.Delivery.Publish` | internal/pipeline/publisher.go:128-149 | the event ends up last in the queue; nothing is lost unless the queue was full, and then one event at most, the one at the front when the discard was made |
| `FixedPoint.ParseFixed` | internal/model/fixed.go:25-85 | the imperative parser, with its loop over surplus digits, computes the specified result or error |
| `FixedPoint.ReadUintMeans` | internal/model/fixed.go:68-75 | reading digits gives their value when it fits 64 bits and a range error otherwise |
| `FixedPoint.ReadUintStops` | internal/model/fixed.go:63-70 | digits followed by anything else are a syntax error, unless they were out of range before it |
| `FixedPoint.TooManyDecimalsIff` | internal/model/fixed.go:45-58 | any string is refused for its decimals exactly when something other than a zero stands beyond them |
| `FixedPoint.NothingToParse` | internal/model/fixed.go:26-38 | nothing, or a lone sign, is a syntax error |
| `FixedPoint.CutAt` | internal/model/fixed.go:40 | the string is cut at its first dot |
| `FixedPoint.ParseMeans` | internal/model/fixed.go:25-85 | for every well-formed decimal: if the number times 10^d is an integer the result is that integer when it lies from -2^63 to 2^63-1, and an overflow otherwise; it is refused for its decimals exactly when there is none |
| `FixedPoint.ParsesOnlyDecimals` | internal/model/fixed.go:25-85 | whatever parses is a sign, digits and digits after an optional dot, where the groups of digits may be empty but the string is not empty nor a lone sign |
| `FixedPoint.LoneDotIsZero` | internal/model/fixed.go:40-43 | a lone dot, signed or not, parses as zero |
| `FixedPoint.TrailingZeroIsIgnored` | internal/model/fixed.go:25-85 | for a well-formed decimal with a point, a zero appended never changes the result, a refusal included |
| `FixedPoint.FormatSplits` | internal/model/fixed.go:108-133 | printing gives a well-formed decimal with exactly d fractional digits and the number's sign and digits |
| `FixedPoint.FormatIsShortest` | internal/model/fixed.go:108-133 | before the dot stands a lone zero or a number without leading zeros, a minus sign exactly before a negative number, and a dot exactly when digits follow |
| `FixedPoint.NegativeDecimals` | internal/model/fixed.go:109-111 | a negative number of decimals prints as none |
| `FixedPoint.FormatThenParse` | internal/model/fixed.go:108-133 | parsing what was printed gives the number back, for every int64 including the minimum |
| `Histograms.DedupInPlace` | internal/metrics/histogram.go:40-46 | writing into the slice being read still removes exactly the neighbours' repeats |
| `Histograms.UniqMembers` | internal/metrics/histogram.go:40-46 | deduplication keeps the set of bounds and the largest one last |
| `Histograms.UniqIsStrict` | internal/metrics/histogram.go:40-46 | sorted bounds become strictly ascending |
| `Histograms.MakeBounds` | internal/metrics/histogram.go:37-52 | strictly ascending bounds, with exactly the given values |
| `Histograms.BucketOf` | internal/metrics/histogram.go:55-64 | the first bucket whose bound is at or above the observation, or the overflow bucket |
| `Histograms.CumulativeIsRank` | internal/metrics/histogram.go:140-145 | the running total up to a bucket is the number of observations at or below its bound, and all of them at the last |
| `Histograms.QuantileIsMonotone` | internal/metrics/histogram.go:90-127 | a higher quantile is never estimated lower |
| `Histograms.NthExists` | internal/metrics/histogram.go:90-127 | every rank up to the count is held by some observation |
| `Histograms.QuantileHitsTheBucket` | internal/metrics/histogram.go:90-127 | for 0 < q <= 1 the estimate lies in the bucket of the ceil(q*n)-th smallest observation, or is the largest bound when that one is beyond all bounds |
| `Histograms.QuantileInterpolates` | internal/metrics/histogram.go:118-124 | inside the bucket it is the whole number at or below the point dividing the bucket as q*n divides the observations in it |
| `Histograms.QuantileIsClamped` | internal/metrics/histogram.go:95-100 | above one it is the quantile at one, below zero that at zero |
| `Histograms.QuantileAtZero` | internal/metrics/histogram.go:105-124 | at zero it is the bottom of the first bucket, or its bound when that bucket is empty |
| `Histograms.WantIsShare` | internal/metrics/histogram.go:95-101 | what is asked for is q of the observations, q taken into 0..1 |
| `Histograms.Histogram.constructor` | internal/metrics/histogram.go:37-52 | an empty histogram over the given set of bounds |
| `Histograms.Histogram.Search` | internal/metrics/histogram.go:55-64 | the binary search finds the observation's bucket |
| `Histograms.Histogram.Observe` | internal/metrics/histogram.go:55-64 | a non-negative observation joins the multiset and the sum; a negative one is only counted apart |
| `Histograms.Histogram.Cumulative` | internal/metrics/histogram.go:132-158 | the exported cumulative counts are the numbers of observations at or below each bound |
| `Histograms.Histogram.Quantile` | internal/metrics/histogram.go:90-127 | the loop with running totals computes the estimate the lemmas speak of |

## Left out

- Histograms.Histogram.Quantile: over real numbers, without float rounding; a histogram with observations but no bounds is excluded, since there the code indexes a last bound that does not exist.
- Histograms.Histogram.Observe: the sum is unbounded.
- Histograms.QuantileIsMonotone: for non-negative, strictly ascending bounds, as the code's own bounds are; with negative bounds interpolation from zero means nothing.
- Histograms.QuantileHitsTheBucket: under the same condition on the bounds, as is QuantileInterpolates.
- FixedPoint.ParseFixed: takes a non-negative number of decimals; with a negative one the code panics.
- RecordFormat.Writer.WriteHeld: payloads are bytes; the JSON body of a snapshot record is not encoded or decoded, and zstd compression is not modelled.
- Recordings.FilesReadBack: for entries whose times and hours are int64 nanoseconds and payloads within the size limit, which is what the writer takes.
- Recorders.NothingIsUnaccounted: assumes that opening and writing files succeed and that payloads are within the size limit, and starts with no files of an earlier process.
- Recorders.RecorderLoop.Turn: one pass of the loop with no enqueue in the middle of it; the interleaved steps are those of the transition system the theorems are about.
- Comparing.Compare: the statement of the range without its bounds is for books and snapshots with positive prices, which is all `validate` lets into a book; a zero bound stands for none in the code.
- Replays.ReplaysAgree: about runs whose buffer did not overflow for that symbol; with an overflow the two runs may hold different deltas.
- Confluence.LiveRunsAgree: says nothing of the counters, which do depend on the interleaving.
- JsonGrammar.FieldAgreesWithGrammar: keys are compared as written, as in the code, so an escaped spelling of a key is a different key; strings need not be valid UTF-8.
- Shards.ShardLoop.Answer: the query channel, its cancellation and its reply channel are not modelled, only what is answered between two events.
- Books.SortLevels: the library sort is an insertion sort here, proved to give some ordering of the same levels; nothing depends on which.
- Publishers.Delivery.Publish: one subscription, since subscribers share no state; Subscribe, Dropped and the bookkeeping around them are left out.
- Closing and starting of the publisher, recorder and router, and the mutexes and wait groups that guard them.
- Wall-clock times: fetch ages, retry delays, replay pacing, latencies.
- The shard's and router's counters and their logging.
- Websocket, HTTP and backoff; decoding of exchange messages into events.
- Reading a directory of recordings in order (`ReplaySource`), beyond the snapshot store it fills.
- Notional values, means, Prometheus text, error texts and String methods: easy computations or presentation.
