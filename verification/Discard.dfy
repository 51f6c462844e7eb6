/** What Load throws away when it stops early, and what it must not
(internal/book/tracker.go). */
module Discard {
  import opened MarketModel
  import opened BookSpec
  import opened Sequencing
  import opened TrackerSpec

  /** The highest id the deltas reach, starting from `at`. */
  function Reach(at: int, ds: seq<BookDelta>): (r: int)
    ensures at <= r && forall i :: 0 <= i < |ds| ==> ds[i].lastId <= r
  {
    if ds == [] then at
    else
      var n := |ds| - 1;
      var r := Reach(at, ds[..n]);
      assert forall i :: 0 <= i < n ==> ds[..n][i] == ds[i];
      if r < ds[n].lastId then ds[n].lastId else r
  }

  lemma {:induction false} ReachFirst(at: int, ds: seq<BookDelta>)
    requires ds != []
    ensures Reach(at, ds) == Reach(if at < ds[0].lastId then ds[0].lastId else at, ds[1..])
  {
    var n := |ds| - 1;
    if n > 0 {
      ReachFirst(at, ds[..n]);
      assert ds[..n][1..] == ds[1..][..n - 1];
    }
  }

  lemma {:induction false} ReachOfNone(at: int)
    ensures Reach(at, []) == at
  {
  }

  /** A replay that gets through ends at the highest id it met; one that stops
  has, in front of it, a delta beyond everything it discarded. */
  lemma {:induction false} ReplayReach(a: Anchor, buf: seq<BookDelta>)
    ensures var r := Replay(a, buf);
      && a.last <= r.at.last
      && (r.Through? ==> r.at.last == Reach(a.last, buf))
      && (r.Stopped? ==>
          && 0 < |r.kept| <= |buf|
          && r.kept == buf[|buf| - |r.kept|..]
          && Reach(a.last, buf[..|buf| - |r.kept|]) < r.kept[0].lastId
          && (r.err == NoError ==> Reach(a.last, buf[..|buf| - |r.kept|]) < r.kept[0].firstId - 1)
          && (r.err != NoError ==> r.err == UpdateError(r.kept[0].bids, r.kept[0].asks)))
    decreases |buf|
  {
    hide Reach, Updated, UpdateError;
    ReachOfNone(a.last);
    if buf != [] {
      ReachFirst(a.last, buf);
      assert buf[..0] == [];
      var d, rest := buf[0], buf[1..];
      match Classify(a.last, d)
      case Stale =>
        ReplayReach(a, rest);
        ReachOfFront(a.last, buf, Replay(a, rest));
      case Contiguous =>
        if UpdateError(d.bids, d.asks) == NoError {
          var b := Anchor(Updated(a.depths, d.bids, d.asks), d.lastId);
          ReplayReach(b, rest);
          ReachOfFront(a.last, buf, Replay(b, rest));
        }
      case Gapped =>
    }
  }

  lemma ReachOfFront(at: int, buf: seq<BookDelta>, r: Replayed)
    requires buf != []
    requires r.Stopped? ==> |r.kept| < |buf|
    ensures r.Stopped? ==>
        var k := |buf| - |r.kept|;
        && Reach(at, buf[..k]) == Reach(if at < buf[0].lastId then buf[0].lastId else at, buf[1..][..k - 1])
        && buf[k..] == buf[1..][k - 1..]
  {
    if r.Stopped? {
      var k := |buf| - |r.kept|;
      ReachFirst(at, buf[..k]);
      assert buf[..k][1..] == buf[1..][..k - 1];
    }
  }

  /** Deltas at or below the anchor are skipped. */
  lemma {:induction false} SkipsStale(a: Anchor, x: seq<BookDelta>, y: seq<BookDelta>)
    requires forall i :: 0 <= i < |x| ==> x[i].lastId <= a.last
    ensures Replay(a, x + y) == Replay(a, y)
    decreases |x|
  {
    if x == [] {
      assert x + y == y;
    } else {
      assert (x + y)[1..] == x[1..] + y;
      SkipsStale(a, x[1..], y);
    }
  }

  /** An anchor that has not reached a delta cannot get past it when the delta
  lies beyond a hole, or carries levels the book refuses. */
  lemma Blocked(a: Anchor, x: seq<BookDelta>, d: BookDelta, y: seq<BookDelta>, hole: bool)
    requires Reach(a.last, x) < d.lastId
    requires if hole then Reach(a.last, x) < d.firstId - 1 else UpdateError(d.bids, d.asks) != NoError
    ensures Replay(a, x + ([d] + y)).Stopped?
  {
    ReplayReach(a, x);
    ReplaySplits(a, x, [d] + y);
  }

  /** The delta at `i` adds nothing to what those before it reach, or joins them
  and has levels the book takes. */
  ghost predicate Joins(at: int, buf: seq<BookDelta>, i: nat)
    requires i < |buf|
  {
    var reach := Reach(at, buf[..i]);
    reach < buf[i].lastId ==> buf[i].firstId - 1 <= reach && UpdateError(buf[i].bids, buf[i].asks) == NoError
  }

  /** Exactly when a replay goes through. */
  lemma ThroughIffAllJoin(a: Anchor, buf: seq<BookDelta>)
    ensures Replay(a, buf).Through? <==> forall i :: 0 <= i < |buf| ==> Joins(a.last, buf, i)
  {
    hide Reach, UpdateError;
    var r := Replay(a, buf);
    ReplayReach(a, buf);
    if r.Stopped? {
      var k := |buf| - |r.kept|;
      assert buf[k] == r.kept[0];
      assert !Joins(a.last, buf, k);
    } else {
      forall i | 0 <= i < |buf| ensures Joins(a.last, buf, i) {
        if !Joins(a.last, buf, i) {
          assert buf == buf[..i] + ([buf[i]] + buf[i + 1..]);
          Blocked(a, buf[..i], buf[i], buf[i + 1..], Reach(a.last, buf[..i]) < buf[i].firstId - 1);
        }
      }
    }
  }

  /** Exactly when a snapshot brings a stale book live: it is well formed, and
  every held delta that reaches past it and the deltas before joins them and
  has levels the book takes. */
  lemma LoadMakesLiveIff(c: Core, s: Snapshot)
    requires !c.synced
    ensures CoreLoad(c, s).synced <==>
      ResetError(s.bids, s.asks) == NoError && forall i :: 0 <= i < |c.buf| ==> Joins(s.lastId, c.buf, i)
  {
    hide Joins, ResetError, ResetTo;
    if ResetError(s.bids, s.asks) == NoError {
      ThroughIffAllJoin(Anchor(ResetTo(s.bids, s.asks), s.lastId), c.buf);
    }
  }

  /** Discarding the replayed prefix loses nothing.  When a replay stops and
  keeps `r.kept`, every later snapshot, over every further deltas, brings the
  kept suffix live exactly when it would have brought the whole old buffer
  live, and then to the same book and position. */
  lemma PrefixIsSpent(a: Anchor, buf: seq<BookDelta>, later: Anchor, more: seq<BookDelta>)
    requires Replay(a, buf).Stopped?
    ensures var kept := Replay(a, buf).kept;
      && (Replay(later, kept + more).Through? <==> Replay(later, buf + more).Through?)
      && (Replay(later, kept + more).Through? ==> Replay(later, kept + more) == Replay(later, buf + more))
  {
    var r := Replay(a, buf);
    ReplayReach(a, buf);
    var k := |buf| - |r.kept|;
    assert buf + more == buf[..k] + (r.kept + more);
    if forall i :: 0 <= i < k ==> buf[..k][i].lastId <= later.last {
      SkipsStale(later, buf[..k], r.kept + more);
    } else {
      // The later anchor is below something already discarded, so below the kept head as well.
      ReachBounds(later.last, a.last, buf[..k]);
      var d, y := r.kept[0], r.kept[1..] + more;
      assert r.kept + more == [d] + y == [] + ([d] + y);
      Blocked(later, buf[..k], d, y, r.err == NoError);
      Blocked(later, [], d, y, r.err == NoError);
    }
  }

  lemma {:induction false} ReachBounds(low: int, at: int, x: seq<BookDelta>)
    requires exists i :: 0 <= i < |x| && x[i].lastId > low
    ensures Reach(low, x) <= Reach(at, x) && low < Reach(at, x)
  {
    var i :| 0 <= i < |x| && x[i].lastId > low;
    ReachIsMet(low, x);
  }

  lemma {:induction false} ReachIsMet(at: int, x: seq<BookDelta>)
    ensures Reach(at, x) == at || exists i :: 0 <= i < |x| && x[i].lastId == Reach(at, x)
  {
    if x != [] {
      var n := |x| - 1;
      ReachIsMet(at, x[..n]);
      if Reach(at, x) != at {
        if x[n].lastId != Reach(at, x) {
          var i :| 0 <= i < n && x[..n][i].lastId == Reach(at, x[..n]);
          assert x[i].lastId == Reach(at, x);
        }
      }
    }
  }

  /** The same seen from the tracker: after a load that stopped early, whatever
  arrives next, every later snapshot does as well as if nothing had been
  discarded. */
  lemma EarlyStopLosesNothing(c: Core, s: Snapshot, later: Snapshot, more: seq<BookDelta>)
    requires !c.synced && Accepts(c, s) && !CoreLoad(c, s).synced
    ensures var kept := CoreLoad(c, s);
      var x, y := CoreLoad(kept.(buf := kept.buf + more), later), CoreLoad(c.(buf := c.buf + more), later);
      (x.synced <==> y.synced) && (x.synced ==> x == y)
  {
    if ResetError(later.bids, later.asks) == NoError {
      PrefixIsSpent(Anchor(ResetTo(s.bids, s.asks), s.lastId), c.buf,
                    Anchor(ResetTo(later.bids, later.asks), later.lastId), more);
    }
  }
}
