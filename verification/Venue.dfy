/** The exchange's own book, and the theorem the resync procedure exists for:
a live book never lies. */
module Venue {
  import opened MarketModel
  import opened Ladder
  import opened BookSpec
  import opened Sequencing
  import opened TrackerSpec

  /** The exchange's book after each update id. */
  type History = int -> Depths

  /** An exchange lists positive prices and no empty levels. */
  ghost predicate Lawful(v: History) {
    forall id :: Proper(v(id)) && forall desc, p :: p in SideOf(v(id), desc) ==> p > 0
  }

  function SideOf(b: Depths, desc: bool): Depth {
    if desc then b.bids else b.asks
  }

  // ---------- Truthful messages ----------

  ghost predicate Changed(v: History, desc: bool, k: int, p: int) {
    QtyAt(SideOf(v(k - 1), desc), p) != QtyAt(SideOf(v(k), desc), p)
  }

  /** Levels over ids first..last state absolute quantities at `last`, and
  mention every price an update in the range changed. */
  ghost predicate TruthfulLevels(v: History, desc: bool, ls: seq<Level>, first: int, last: int) {
    && (forall p | Lists(ls, p) :: LastQty(ls, p) == QtyAt(SideOf(v(last), desc), p))
    && (forall k, p | first <= k <= last && Changed(v, desc, k, p) :: Lists(ls, p))
  }

  ghost predicate TruthfulDelta(v: History, d: BookDelta) {
    && TruthfulLevels(v, true, d.bids, d.firstId, d.lastId)
    && TruthfulLevels(v, false, d.asks, d.firstId, d.lastId)
  }

  /** A truncated side is complete down to its deepest listed level; a side
  with nothing on it is complete. */
  ghost predicate Covered(desc: bool, s: Snapshot, p: int) {
    var ls := SnapshotSide(s, desc);
    || !s.truncated
    || (forall i :: 0 <= i < |ls| ==> ls[i].qty == 0)
    || (exists i :: 0 <= i < |ls| && !Nearer(desc, ls[i].price, p))
  }

  function SnapshotSide(s: Snapshot, desc: bool): seq<Level> {
    if desc then s.bids else s.asks
  }

  ghost predicate TruthfulSide(v: History, desc: bool, s: Snapshot) {
    forall p, q | q != 0 && Covered(desc, s, p) ::
      Level(p, q) in SnapshotSide(s, desc) <==> QtyAt(SideOf(v(s.lastId), desc), p) == q
  }

  ghost predicate TruthfulSnapshot(v: History, s: Snapshot) {
    TruthfulSide(v, true, s) && TruthfulSide(v, false, s)
  }

  ghost predicate TruthfulCall(v: History, symbol: Symbol, c: Call) {
    && (c.Deliver? && c.delta.symbol == symbol ==> TruthfulDelta(v, c.delta))
    && (c.Land? && c.snap.symbol == symbol ==> TruthfulSnapshot(v, c.snap))
  }

  // ---------- What a book may differ in ----------

  /** Strictly past the edge of what a side knows; a zero edge is no edge. */
  predicate Past(desc: bool, p: int, edge: int) {
    edge != 0 && Nearer(desc, edge, p)
  }

  /** Each price agrees with the truth, or lies past the edge and is absent. */
  ghost predicate Agrees(desc: bool, m: Depth, truth: Depth, edge: int) {
    && ZeroFree(m)
    && (forall p :: QtyAt(m, p) == QtyAt(truth, p) || (Past(desc, p, edge) && p !in m))
  }

  ghost predicate BookAgrees(b: Depths, truth: Depths, floor: int, ceil: int) {
    Agrees(true, b.bids, truth.bids, floor) && Agrees(false, b.asks, truth.asks, ceil)
  }

  // ---------- One delta, one snapshot ----------

  lemma {:induction false} Unchanged(v: History, desc: bool, p: int, a: int, b: int)
    requires a <= b
    requires forall k | a < k <= b :: !Changed(v, desc, k, p)
    ensures QtyAt(SideOf(v(a), desc), p) == QtyAt(SideOf(v(b), desc), p)
    decreases b - a
  {
    if a < b {
      assert !Changed(v, desc, b, p);
      Unchanged(v, desc, p, a, b - 1);
    }
  }

  /** A delta U..u applied to any state from U-1 to u gives the state at u. */
  lemma OverlapIsHarmless(v: History, desc: bool, m: Depth, ls: seq<Level>, first: int, last: int, at: int, edge: int)
    requires TruthfulLevels(v, desc, ls, first, last) && first - 1 <= at <= last
    requires Agrees(desc, m, SideOf(v(at), desc), edge)
    ensures Agrees(desc, PutAll(m, ls), SideOf(v(last), desc), edge)
  {
    var m' := PutAll(m, ls);
    PutAllAt(m, ls, 0);
    forall p
      ensures QtyAt(m', p) == QtyAt(SideOf(v(last), desc), p) || (Past(desc, p, edge) && p !in m')
    {
      PutAllAt(m, ls, p);
      if !Lists(ls, p) {
        Unchanged(v, desc, p, at, last);
        assert QtyAt(m, p) == QtyAt(SideOf(v(at), desc), p) || (Past(desc, p, edge) && p !in m);
      }
    }
  }

  function EdgeOf(desc: bool, s: Snapshot): int {
    if desc then FloorOf(s) else CeilOf(s)
  }

  /** A price the snapshot does not cover is past the edge setBounds records. */
  lemma UncoveredIsPast(desc: bool, s: Snapshot, p: int)
    requires ValidLevels(SnapshotSide(s, desc)) && !Covered(desc, s, p)
    ensures Past(desc, p, EdgeOf(desc, s)) && !Lists(SnapshotSide(s, desc), p)
  {
    var ls := SnapshotSide(s, desc);
    if desc { LowestBelow(ls); } else { HighestAbove(ls); }
  }

  lemma SnapshotAgrees(v: History, desc: bool, s: Snapshot)
    requires TruthfulSide(v, desc, s)
    requires ValidLevels(SnapshotSide(s, desc)) && Distinct(Present(SnapshotSide(s, desc)))
    ensures Agrees(desc, DepthOf(Present(SnapshotSide(s, desc))), SideOf(v(s.lastId), desc), EdgeOf(desc, s))
  {
    var ls := SnapshotSide(s, desc);
    var m := DepthOf(Present(ls));
    var truth := SideOf(v(s.lastId), desc);
    PresentAt(ls, 0, 1);
    forall p
      ensures QtyAt(m, p) == QtyAt(truth, p) || (Past(desc, p, EdgeOf(desc, s)) && p !in m)
    {
      var q, q' := QtyAt(m, p), QtyAt(truth, p);
      if q != 0 { PresentAt(ls, p, q); }
      if q' != 0 { PresentAt(ls, p, q'); }
      if !Covered(desc, s, p) {
        UncoveredIsPast(desc, s, p);
        assert q != 0 ==> Level(p, q) in ls;
      }
    }
  }

  /** Two zero-free sides with no edge between them are the same map. */
  lemma NoEdgeIsExact(desc: bool, m: Depth, truth: Depth)
    requires Agrees(desc, m, truth, 0) && ZeroFree(truth)
    ensures m == truth
  {
    SameDepth(m, truth);
  }

  // ---------- Whole runs ----------

  ghost predicate TruthfulBuffer(v: History, symbol: Symbol, buf: seq<BookDelta>) {
    forall i :: 0 <= i < |buf| ==> buf[i].symbol == symbol && TruthfulDelta(v, buf[i])
  }

  /** The invariant of every run of truthful calls. */
  ghost predicate Faithful(v: History, t: State) {
    var c := t.core;
    && TruthfulBuffer(v, t.symbol, c.buf)
    && (c.synced ==> c.buf == [] && BookAgrees(c.depths, v(c.last), c.bidFloor, c.askCeil))
  }

  lemma UpdateAgrees(v: History, b: Depths, d: BookDelta, at: int, floor: int, ceil: int)
    requires TruthfulDelta(v, d) && Classify(at, d) == Contiguous
    requires BookAgrees(b, v(at), floor, ceil)
    ensures BookAgrees(Updated(b, d.bids, d.asks), v(d.lastId), floor, ceil)
  {
    OverlapIsHarmless(v, true, b.bids, d.bids, d.firstId, d.lastId, at, floor);
    OverlapIsHarmless(v, false, b.asks, d.asks, d.firstId, d.lastId, at, ceil);
  }

  lemma {:induction false} ReplayAgrees(v: History, symbol: Symbol, a: Anchor, buf: seq<BookDelta>, floor: int, ceil: int)
    requires TruthfulBuffer(v, symbol, buf)
    requires BookAgrees(a.depths, v(a.last), floor, ceil)
    ensures var r := Replay(a, buf); r.Through? ==> BookAgrees(r.at.depths, v(r.at.last), floor, ceil)
    decreases |buf|
  {
    if buf != [] {
      var d := buf[0];
      assert TruthfulBuffer(v, symbol, buf[1..]);
      match Classify(a.last, d)
      case Stale => ReplayAgrees(v, symbol, a, buf[1..], floor, ceil);
      case Contiguous =>
        if UpdateError(d.bids, d.asks) == NoError {
          UpdateAgrees(v, a.depths, d, a.last, floor, ceil);
          ReplayAgrees(v, symbol, Anchor(Updated(a.depths, d.bids, d.asks), d.lastId), buf[1..], floor, ceil);
        }
      case Gapped =>
    }
  }

  lemma LoadFaithful(v: History, t: State, s: Snapshot)
    requires Faithful(v, t) && s.symbol == t.symbol && TruthfulSnapshot(v, s)
    ensures Faithful(v, LoadStep(t, s).0)
  {
    if Accepts(t.core, s) {
      ValidateIff(s.bids);
      ValidateIff(s.asks);
      SnapshotAgrees(v, true, s);
      SnapshotAgrees(v, false, s);
      var a := Anchor(ResetTo(s.bids, s.asks), s.lastId);
      ReplayAgrees(v, t.symbol, a, t.core.buf, FloorOf(s), CeilOf(s));
      KeepsSuffix(a, t.core.buf);
    }
  }

  lemma ApplyFaithful(v: History, t: State, d: BookDelta)
    requires Faithful(v, t) && d.symbol == t.symbol && TruthfulDelta(v, d)
    ensures Faithful(v, ApplyStep(t, d).0)
  {
    if t.core.synced && Classify(t.core.last, d) == Contiguous {
      UpdateAgrees(v, t.core.depths, d, t.core.last, t.core.bidFloor, t.core.askCeil);
    }
  }

  lemma {:induction false} RunFaithful(v: History, t: State, calls: seq<Call>)
    requires Faithful(v, t)
    requires forall i :: 0 <= i < |calls| ==> TruthfulCall(v, t.symbol, calls[i])
    ensures Faithful(v, Run(t, calls)) && Run(t, calls).symbol == t.symbol
  {
    if calls != [] {
      var n := |calls| - 1;
      RunFaithful(v, t, calls[..n]);
      var t' := Run(t, calls[..n]);
      assert TruthfulCall(v, t.symbol, calls[n]);
      match calls[n]
      case Deliver(d) => if d.symbol == t.symbol { ApplyFaithful(v, t', d); }
      case Land(s) => if s.symbol == t.symbol { LoadFaithful(v, t', s); }
      case Begin =>
      case Fail =>
    }
  }

  /** A live book never lies.  Whatever is lost, repeated, reordered or dropped
  by the buffer, and whatever the age of the snapshots: a live book agrees with
  the venue at exactly its LastID, except at prices past the edges of the
  truncated snapshot that seeded it, where it may hold nothing; on a side with
  no edge it is the venue's side, price for price. */
  lemma LiveBookNeverLies(v: History, symbol: Symbol, cap: int, calls: seq<Call>)
    requires Lawful(v)
    requires forall i :: 0 <= i < |calls| ==> TruthfulCall(v, symbol, calls[i])
    ensures var c := Run(NewState(symbol, cap), calls).core;
      c.synced ==>
        && BookAgrees(c.depths, v(c.last), c.bidFloor, c.askCeil)
        && (c.bidFloor == 0 ==> c.depths.bids == v(c.last).bids)
        && (c.askCeil == 0 ==> c.depths.asks == v(c.last).asks)
  {
    RunFaithful(v, NewState(symbol, cap), calls);
    var c := Run(NewState(symbol, cap), calls).core;
    assert Proper(v(c.last));
    if c.synced && c.bidFloor == 0 { NoEdgeIsExact(true, c.depths.bids, v(c.last).bids); }
    if c.synced && c.askCeil == 0 { NoEdgeIsExact(false, c.depths.asks, v(c.last).asks); }
  }

  lemma {:induction false} NoEdgeWithoutTruncation(t: State, calls: seq<Call>)
    requires t.core.bidFloor == 0 && t.core.askCeil == 0
    requires forall i :: 0 <= i < |calls| && calls[i].Land? ==> !calls[i].snap.truncated
    ensures Run(t, calls).core.bidFloor == 0 && Run(t, calls).core.askCeil == 0
  {
    if calls != [] {
      NoEdgeWithoutTruncation(t, calls[..|calls| - 1]);
    }
  }

  /** With untruncated snapshots a live book is the venue's book, exactly. */
  lemma UntruncatedBookIsExact(v: History, symbol: Symbol, cap: int, calls: seq<Call>)
    requires Lawful(v)
    requires forall i :: 0 <= i < |calls| ==> TruthfulCall(v, symbol, calls[i])
    requires forall i :: 0 <= i < |calls| && calls[i].Land? ==> !calls[i].snap.truncated
    ensures var c := Run(NewState(symbol, cap), calls).core; c.synced ==> c.depths == v(c.last)
  {
    LiveBookNeverLies(v, symbol, cap, calls);
    NoEdgeWithoutTruncation(NewState(symbol, cap), calls);
  }
}
