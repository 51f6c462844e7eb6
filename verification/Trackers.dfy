/** Tracker: one symbol's book across its whole lifecycle
(internal/book/tracker.go), proved against TrackerSpec. */
module Trackers {
  import opened MarketModel
  import opened Ladder
  import opened BookSpec
  import opened Sequencing
  import opened TrackerSpec
  import opened Books

  class Tracker {
    const book: Book
    const seqr: Sequencer
    const bufCap: Capacity
    var buf: seq<BookDelta>
    var fetching: bool
    var bidFloor: int
    var askCeil: int
    var stats: Stats

    /** Everything the tracker may change; it never changes membership. */
    ghost const Repr: set<object> := {this, seqr, book.bids, book.asks}

    ghost predicate Valid()
      reads Repr
    {
      book.Valid() && |buf| <= bufCap
    }

    ghost function Abs(): (t: State)
      requires Valid()
      reads Repr
    {
      State(book.symbol, bufCap,
            Core(book.Contents(), seqr.last, seqr.synced, buf, bidFloor, askCeil),
            fetching, stats)
    }

    constructor (symbol: Symbol, cap: int)
      ensures Valid() && fresh(Repr) && Abs() == NewState(symbol, cap)
    {
      book := new Book(symbol);
      seqr := new Sequencer();
      bufCap := if cap <= 0 then DEFAULT_BUFFER_CAP else cap;
      buf, fetching, bidFloor, askCeil := [], false, 0, 0;
      stats := Stats(0, 0, 0, 0, 0, 0, 0);
    }

    method Apply(d: BookDelta) returns (r: ApplyResult)
      requires Valid()
      modifies Repr
      ensures Valid() && (Abs(), r) == ApplyStep(old(Abs()), d)
    {
      if d.symbol != book.symbol {
        return ForeignDelta;
      }
      if !seqr.synced {
        Buffer(d);
        stats := stats.(buffered := stats.buffered + 1);
        return Buffered;
      }
      var c := seqr.Next(d);
      match c
      case Stale =>
        stats := stats.(discarded := stats.discarded + 1);
        return Discarded;
      case Contiguous =>
        var err := book.Apply(d.bids, d.asks);
        if err != NoError {
          seqr.Invalidate();
          Buffer(d);
          return DeltaRejected(err);
        }
        stats := stats.(applied := stats.applied + 1);
        return Applied;
      case Gapped =>
        stats := stats.(gaps := stats.gaps + 1);
        Buffer(d);
        return GapFound;
    }

    method BeginFetch() returns (r: bool)
      requires Valid()
      modifies this
      ensures Valid() && (Abs(), r) == BeginFetchStep(old(Abs()))
    {
      if fetching || seqr.synced {
        return false;
      }
      fetching := true;
      return true;
    }

    method FetchFailed()
      requires Valid()
      modifies this
      ensures Valid() && Abs() == FetchFailedStep(old(Abs()))
    {
      fetching := false;
    }

    method Load(s: Snapshot) returns (r: LoadResult)
      requires Valid()
      modifies Repr
      ensures Valid() && (Abs(), r) == LoadStep(old(Abs()), s)
      ensures r.LoadedOrTooOld? || r.ReplayRejected? ==>
        DeepestListed(true, s.truncated, s.bids, bidFloor) && DeepestListed(false, s.truncated, s.asks, askCeil)
    {
      BoundsAreDeepest(s);
      hide DeepestListed, FloorOf, CeilOf, Replay, ValidateError, UpdateError;
      ghost var t := Abs();
      fetching := false;
      if s.symbol != book.symbol {
        return ForeignSnapshot;
      }
      if seqr.synced && s.lastId < seqr.last {
        assert !Accepts(t.core, s);
        return SnapshotBehind;
      }
      var err := book.Reset(s.bids, s.asks);
      if err != NoError {
        assert !Accepts(t.core, s);
        assert Abs() == t.(fetching := false);
        return SnapshotRejected(err);
      }
      assert Accepts(t.core, s);
      r := Reanchor(s);
      assert Abs().core == CoreLoad(t.core, s);
      assert r == LoadResultOf(t, s) && Abs().stats == LoadStats(t, s);
    }

    /** The rest of Load, once the snapshot has replaced the book. */
    method Reanchor(s: Snapshot) returns (r: LoadResult)
      requires Valid() && s.symbol == book.symbol
      requires ResetError(s.bids, s.asks) == NoError && book.Contents() == ResetTo(s.bids, s.asks)
      modifies Repr
      ensures Valid() && book.symbol == s.symbol && fetching == old(fetching)
      ensures match ReplayOn(s, old(buf))
              case Through(a) =>
                && r == LoadedOrTooOld && stats == old(stats).(resyncs := old(stats).resyncs + 1)
                && Abs().core == Core(a.depths, a.last, true, [], FloorOf(s), CeilOf(s))
              case Stopped(a, kept, e) =>
                && r == (if e == NoError then LoadedOrTooOld else ReplayRejected(e))
                && (stats == if e == NoError then old(stats).(refetches := old(stats).refetches + 1) else old(stats))
                && Abs().core == Core(a.depths, a.last, false, kept, FloorOf(s), CeilOf(s))
    {
      seqr.Reset(s.lastId);
      SetBounds(s);
      r := ReplayBuffer();
    }

    /** The replay loop of Load, entered with the snapshot already in the book. */
    method ReplayBuffer() returns (r: LoadResult)
      requires Valid() && seqr.synced
      modifies Repr
      ensures Valid()
      ensures fetching == old(fetching) && bidFloor == old(bidFloor) && askCeil == old(askCeil)
      ensures match Replay(old(Anchor(book.Contents(), seqr.last)), old(buf))
              case Through(a) =>
                && r == LoadedOrTooOld && Anchor(book.Contents(), seqr.last) == a && seqr.synced && buf == []
                && stats == old(stats).(resyncs := old(stats).resyncs + 1)
              case Stopped(a, kept, e) =>
                && Anchor(book.Contents(), seqr.last) == a && !seqr.synced && buf == kept
                && r == (if e == NoError then LoadedOrTooOld else ReplayRejected(e))
                && stats == if e == NoError then old(stats).(refetches := old(stats).refetches + 1) else old(stats)
    {
      ghost var whole := Replay(Anchor(book.Contents(), seqr.last), buf);
      var i := 0;
      assert buf[0..] == buf;
      while i < |buf|
        invariant Valid() && seqr.synced && 0 <= i <= |buf|
        invariant whole == Replay(Anchor(book.Contents(), seqr.last), buf[i..])
        invariant buf == old(buf) && stats == old(stats) && fetching == old(fetching)
        invariant bidFloor == old(bidFloor) && askCeil == old(askCeil)
      {
        var d := buf[i];
        assert buf[i..][1..] == buf[i + 1..];
        var c := seqr.Next(d);
        match c {
          case Stale =>
          case Contiguous =>
            var err := book.Apply(d.bids, d.asks);
            if err != NoError {
              seqr.Invalidate();
              KeepBufferFrom(i);
              return ReplayRejected(err);
            }
          case Gapped =>
            seqr.Invalidate();
            KeepBufferFrom(i);
            stats := stats.(refetches := stats.refetches + 1);
            return LoadedOrTooOld;
        }
        i := i + 1;
      }
      ClearBuffer();
      stats := stats.(resyncs := stats.resyncs + 1);
      return LoadedOrTooOld;
    }

    /** buffer: append, dropping the oldest held delta when full. */
    method Buffer(d: BookDelta)
      requires |buf| <= bufCap
      modifies this`buf, this`stats
      ensures |buf| <= bufCap && buf == Push(old(buf), bufCap, d)
      ensures stats == old(stats).(dropped := old(stats).dropped + PushDrops(old(buf), bufCap))
    {
      if |buf| >= bufCap {
        buf := buf[|buf| - bufCap + 1..];
        stats := stats.(dropped := stats.dropped + 1);
      }
      buf := buf + [d];
    }

    method KeepBufferFrom(i: nat)
      requires i <= |buf|
      modifies this`buf
      ensures buf == old(buf)[i..]
    {
      buf := buf[i..];
    }

    method ClearBuffer()
      modifies this`buf
      ensures buf == []
    {
      buf := [];
    }

    method SetBounds(s: Snapshot)
      modifies this`bidFloor, this`askCeil
      ensures bidFloor == FloorOf(s) && askCeil == CeilOf(s)
      ensures DeepestListed(true, s.truncated, s.bids, bidFloor) && DeepestListed(false, s.truncated, s.asks, askCeil)
    {
      BoundsAreDeepest(s);
      bidFloor, askCeil := 0, 0;
      if !s.truncated {
        return;
      }
      for i := 0 to |s.bids|
        invariant bidFloor == if i == 0 then 0 else Lowest(s.bids[..i])
        invariant askCeil == 0
      {
        assert s.bids[..i + 1][..i] == s.bids[..i];
        if i == 0 || s.bids[i].price < bidFloor {
          bidFloor := s.bids[i].price;
        }
      }
      assert s.bids[..|s.bids|] == s.bids;
      for i := 0 to |s.asks|
        invariant askCeil == if i == 0 then 0 else Highest(s.asks[..i])
        invariant bidFloor == FloorOf(s)
      {
        assert s.asks[..i + 1][..i] == s.asks[..i];
        if i == 0 || s.asks[i].price > askCeil {
          askCeil := s.asks[i].price;
        }
      }
      assert s.asks[..|s.asks|] == s.asks;
    }
  }
}
