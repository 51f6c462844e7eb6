/** What one call on a tracker does, said without the step functions it is
defined by: the result, the counters and the state, each from the others
(internal/book/tracker.go). */
module Calls {
  import opened MarketModel
  import opened Ladder
  import opened BookSpec
  import opened Sequencing
  import opened TrackerSpec
  import opened Position
  import opened Discard

  /** A new tracker is empty, stale and asks for a snapshot; it holds as many
  deltas as it was asked to, or 2048. */
  lemma NewTrackerIs(symbol: Symbol, cap: int)
    ensures var t := NewState(symbol, cap);
      && t.symbol == symbol && !t.core.synced && t.core.buf == [] && t.core.depths == Depths(map[], map[])
      && t.core.bidFloor == t.core.askCeil == 0 && !t.fetching
      && (cap > 0 ==> t.cap == cap) && (cap <= 0 ==> t.cap == 2048)
      && BeginFetchStep(t) == (t.(fetching := true), true)
  {
  }

  /** A fetch is begun exactly when the book is stale and none is outstanding,
  and neither call touches anything but the mark. */
  lemma FetchMarks(t: State)
    ensures BeginFetchStep(t).1 <==> !t.core.synced && !t.fetching
    ensures BeginFetchStep(t).0.fetching <==> t.fetching || !t.core.synced
    ensures BeginFetchStep(t).0.(fetching := t.fetching) == t
    ensures !FetchFailedStep(t).fetching && FetchFailedStep(t).(fetching := t.fetching) == t
  {
  }

  /** The counters after a delivery: one for what happened, and one for the delta
  the buffer had no room for. */
  function CountDelivery(st: Stats, r: ApplyResult, overflowed: bool): Stats {
    Stats(st.applied + (if r == Applied then 1 else 0), st.discarded + (if r == Discarded then 1 else 0),
          st.buffered + (if r == Buffered then 1 else 0), st.gaps + (if r == GapFound then 1 else 0),
          st.dropped + (if overflowed then 1 else 0), st.resyncs, st.refetches)
  }

  /** What Apply answers, from the state before and the state after. */
  lemma DeliveryAnswers(t: State, d: BookDelta)
    requires d.symbol == t.symbol
    ensures var (t', r) := ApplyStep(t, d);
      && (r == Buffered <==> !t.core.synced)
      && (r == Discarded <==> t.core.synced && d.lastId <= t.core.last)
      && (r == GapFound <==> t.core.synced && t.core.last < d.lastId && t.core.last < d.firstId - 1)
      && (r == Applied <==> t.core.synced && t'.core.synced && t.core.last < t'.core.last)
      && (r.DeltaRejected? <==> t.core.synced && !t'.core.synced && t.core.last < t'.core.last)
      && (r.DeltaRejected? ==> r.err == UpdateError(d.bids, d.asks) && r.err != NoError)
  {
  }

  /** And what it leaves: the position moves to the delta exactly when it joins up,
  the book changes exactly when its levels are taken too, a stale tracker holds
  the delta last, and each call is counted. */
  lemma DeliveryLeaves(t: State, d: BookDelta)
    requires BufferSound(t) && d.symbol == t.symbol
    ensures var (t', r) := ApplyStep(t, d);
      && t'.symbol == t.symbol && t'.cap == t.cap && t'.fetching == t.fetching
      && t'.core.bidFloor == t.core.bidFloor && t'.core.askCeil == t.core.askCeil
      && t'.core.last == (if r == Applied || r.DeltaRejected? then d.lastId else t.core.last)
      && (t'.core.synced <==> r == Applied || r == Discarded)
      && t'.core.depths == (if r == Applied then Updated(t.core.depths, d.bids, d.asks) else t.core.depths)
      && t'.core.buf == (if t'.core.synced then [] else (if |t.core.buf| == t.cap then t.core.buf[1..] else t.core.buf) + [d])
      && t'.stats == CountDelivery(t.stats, r, |t.core.buf| == t.cap)
  {
    hide UpdateError, Updated;
  }

  /** A delta of another symbol is an error and nothing else. */
  lemma ForeignDeltaIsIgnored(t: State, d: BookDelta)
    ensures d.symbol != t.symbol <==> ApplyStep(t, d).1 == ForeignDelta
    ensures d.symbol != t.symbol ==> ApplyStep(t, d).0 == t
  {
  }

  /** Which snapshots are refused, and that a refused one changes the fetch mark alone. */
  lemma RefusedLoadLeaves(t: State, s: Snapshot)
    ensures var (t', r) := LoadStep(t, s);
      && (r == ForeignSnapshot <==> s.symbol != t.symbol)
      && (r == SnapshotBehind <==> s.symbol == t.symbol && t.core.synced && s.lastId < t.core.last)
      && (r.SnapshotRejected? <==>
          && s.symbol == t.symbol && (t.core.synced ==> t.core.last <= s.lastId)
          && !(ValidLevels(s.bids) && ValidLevels(s.asks) && NoRepeat(s.bids) && NoRepeat(s.asks)))
      && (r.SnapshotRejected? ==> r.err == ResetError(s.bids, s.asks))
      && (r == ForeignSnapshot || r == SnapshotBehind || r.SnapshotRejected? ==> t' == t.(fetching := false))
  {
    hide Replay, ValidLevels, NoRepeat, ResetError;
    ResetErrorIs(s.bids, s.asks);
  }

  /** The counters after a snapshot was taken up: a resync when the book is live,
  a refetch when the buffer has a hole. */
  function CountLoad(st: Stats, r: LoadResult, live: bool): Stats {
    if r.ReplayRejected? then st
    else if live then st.(resyncs := st.resyncs + 1)
    else st.(refetches := st.refetches + 1)
  }

  ghost predicate TakenUp(r: LoadResult) {
    r.LoadedOrTooOld? || r.ReplayRejected?
  }

  /** What a snapshot that is taken up leaves.  A live book becomes the snapshot.  A
  stale one comes live exactly when every held delta joins up, at the highest id
  held; otherwise it keeps a suffix of its buffer that begins beyond everything
  before it, with a delta whose levels are refused or that leaves a hole. */
  lemma LoadLeaves(t: State, s: Snapshot)
    requires BufferSound(t) && TakenUp(LoadStep(t, s).1)
    ensures var (t', r) := LoadStep(t, s);
      var kept := t'.core.buf;
      && t'.symbol == t.symbol && t'.cap == t.cap && !t'.fetching
      && DeepestListed(true, s.truncated, s.bids, t'.core.bidFloor)
      && DeepestListed(false, s.truncated, s.asks, t'.core.askCeil)
      && t'.stats == CountLoad(t.stats, r, t'.core.synced)
      && (t'.core.synced <==> forall i :: 0 <= i < |t.core.buf| ==> Joins(s.lastId, t.core.buf, i))
      && (t'.core.synced ==> t'.core.last == Reach(s.lastId, t.core.buf) && kept == [] && r == LoadedOrTooOld)
      && (t.core.synced ==> t'.core.synced && t'.core.last == s.lastId && t'.core.depths == ResetTo(s.bids, s.asks))
      && (!t'.core.synced ==>
          && 0 < |kept| <= |t.core.buf| && kept == t.core.buf[|t.core.buf| - |kept|..]
          && var reach := Reach(s.lastId, t.core.buf[..|t.core.buf| - |kept|]);
             && reach < kept[0].lastId
             && (r == LoadedOrTooOld ==> reach < kept[0].firstId - 1)
             && (r.ReplayRejected? ==> r.err == UpdateError(kept[0].bids, kept[0].asks) && r.err != NoError))
  {
    assert Accepts(t.core, s);
    BoundsAreDeepest(s);
    ReachOfNone(s.lastId);
    var a := Anchor(ResetTo(s.bids, s.asks), s.lastId);
    ReplayReach(a, t.core.buf);
    ThroughIffAllJoin(a, t.core.buf);
    hide Joins, Reach, ResetError, ResetTo, UpdateError, FloorOf, CeilOf, DeepestListed;
    if t.core.synced { assert Replay(a, []) == Through(a); }
  }
}
