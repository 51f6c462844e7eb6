/** The resync state machine as functions on values (internal/book/tracker.go). */
module TrackerSpec {
  import opened MarketModel
  import opened Ladder
  import opened BookSpec
  import opened Sequencing

  /** NewTracker never leaves a tracker without room for one delta. */
  type Capacity = n: int | 0 < n witness 1

  const DEFAULT_BUFFER_CAP: Capacity := 2048

  datatype ApplyResult =
    | Applied | Discarded | Buffered | GapFound
    | ForeignDelta
    | DeltaRejected(err: BookError)

  datatype LoadResult =
    | LoadedOrTooOld
    | ForeignSnapshot
    | SnapshotBehind
    | SnapshotRejected(err: BookError)
    | ReplayRejected(err: BookError)

  datatype Stats =
    Stats(applied: nat, discarded: nat, buffered: nat, gaps: nat, dropped: nat, resyncs: nat, refetches: nat)

  /** What decides the future of a book: its contents, its position, whether
  the position is anchored, the held deltas, and the edges of its knowledge. */
  datatype Core =
    Core(depths: Depths, last: int, synced: bool, buf: seq<BookDelta>, bidFloor: int, askCeil: int)

  datatype State =
    State(symbol: Symbol, cap: Capacity, core: Core, fetching: bool, stats: Stats)

  function NewState(symbol: Symbol, cap: int): State {
    State(symbol, if cap <= 0 then DEFAULT_BUFFER_CAP else cap,
          Core(EMPTY, 0, false, [], 0, 0), false, Stats(0, 0, 0, 0, 0, 0, 0))
  }

  // ---------- The buffer ----------

  function Push(buf: seq<BookDelta>, cap: Capacity, d: BookDelta): seq<BookDelta> {
    (if |buf| >= cap then buf[|buf| - cap + 1..] else buf) + [d]
  }

  function PushDrops(buf: seq<BookDelta>, cap: Capacity): nat {
    if |buf| >= cap then 1 else 0
  }

  // ---------- Apply ----------

  /** The effect of one same-symbol delta, with room for `cap` held deltas. */
  function CoreApply(c: Core, cap: Capacity, d: BookDelta): Core {
    if !c.synced then c.(buf := Push(c.buf, cap, d))
    else match Classify(c.last, d)
      case Stale => c
      case Contiguous =>
        if UpdateError(d.bids, d.asks) == NoError then
          c.(depths := Updated(c.depths, d.bids, d.asks), last := d.lastId)
        else
          c.(last := d.lastId, synced := false, buf := Push(c.buf, cap, d))
      case Gapped => c.(synced := false, buf := Push(c.buf, cap, d))
  }

  function ApplyResultOf(c: Core, d: BookDelta): ApplyResult {
    if !c.synced then Buffered
    else match Classify(c.last, d)
      case Stale => Discarded
      case Contiguous =>
        var e := UpdateError(d.bids, d.asks);
        if e == NoError then Applied else DeltaRejected(e)
      case Gapped => GapFound
  }

  function ApplyStats(t: State, r: ApplyResult): Stats {
    var st := t.stats;
    var drops := PushDrops(t.core.buf, t.cap);
    match r
    case Applied => st.(applied := st.applied + 1)
    case Discarded => st.(discarded := st.discarded + 1)
    case Buffered => st.(buffered := st.buffered + 1, dropped := st.dropped + drops)
    case GapFound => st.(gaps := st.gaps + 1, dropped := st.dropped + drops)
    case ForeignDelta => st
    case DeltaRejected(_) => st.(dropped := st.dropped + drops)
  }

  /** Tracker.Apply.  A delta for another symbol changes nothing at all. */
  function ApplyStep(t: State, d: BookDelta): (State, ApplyResult) {
    if d.symbol != t.symbol then (t, ForeignDelta)
    else
      var r := ApplyResultOf(t.core, d);
      (t.(core := CoreApply(t.core, t.cap, d), stats := ApplyStats(t, r)), r)
  }

  // ---------- Load ----------

  datatype Anchor = Anchor(depths: Depths, last: int)

  /** How a replay ends: through the whole buffer, or at the first delta it
  cannot place, which it keeps together with everything after it. */
  datatype Replayed =
    | Through(at: Anchor)
    | Stopped(at: Anchor, kept: seq<BookDelta>, err: BookError)

  function Replay(a: Anchor, buf: seq<BookDelta>): Replayed
    decreases |buf|
  {
    if buf == [] then Through(a)
    else
      var d := buf[0];
      match Classify(a.last, d)
      case Stale => Replay(a, buf[1..])
      case Contiguous =>
        var e := UpdateError(d.bids, d.asks);
        if e == NoError then Replay(Anchor(Updated(a.depths, d.bids, d.asks), d.lastId), buf[1..])
        else Stopped(Anchor(a.depths, d.lastId), buf, e)
      case Gapped => Stopped(a, buf, NoError)
  }

  function Lowest(ls: seq<Level>): int
    requires ls != []
  {
    var n := |ls| - 1;
    if n == 0 then ls[0].price
    else if ls[n].price < Lowest(ls[..n]) then ls[n].price else Lowest(ls[..n])
  }

  function Highest(ls: seq<Level>): int
    requires ls != []
  {
    var n := |ls| - 1;
    if n == 0 then ls[0].price
    else if ls[n].price > Highest(ls[..n]) then ls[n].price else Highest(ls[..n])
  }

  /** setBounds. */
  function FloorOf(s: Snapshot): int {
    if s.truncated && s.bids != [] then Lowest(s.bids) else 0
  }

  function CeilOf(s: Snapshot): int {
    if s.truncated && s.asks != [] then Highest(s.asks) else 0
  }

  /** `edge` is the price of the deepest level listed on a side, or zero when the
  snapshot is not truncated or lists nothing there. */
  ghost predicate DeepestListed(desc: bool, truncated: bool, ls: seq<Level>, edge: int) {
    if !truncated || ls == [] then edge == 0
    else
      && (exists i :: 0 <= i < |ls| && ls[i].price == edge)
      && (forall i :: 0 <= i < |ls| ==> if desc then edge <= ls[i].price else ls[i].price <= edge)
  }

  /** setBounds keeps the deepest listed price of each side. */
  lemma BoundsAreDeepest(s: Snapshot)
    ensures DeepestListed(true, s.truncated, s.bids, FloorOf(s))
    ensures DeepestListed(false, s.truncated, s.asks, CeilOf(s))
  {
    if s.bids != [] { LowestBelow(s.bids); }
    if s.asks != [] { HighestAbove(s.asks); }
  }

  lemma {:induction false} LowestBelow(ls: seq<Level>)
    requires ls != []
    ensures Lists(ls, Lowest(ls)) && forall i :: 0 <= i < |ls| ==> Lowest(ls) <= ls[i].price
  {
    var n := |ls| - 1;
    if n > 0 {
      LowestBelow(ls[..n]);
      assert forall i :: 0 <= i < n ==> ls[..n][i] == ls[i];
      assert Lists(ls[..n], Lowest(ls[..n]));
    }
    assert ls[n].price == ls[n].price;
  }

  lemma {:induction false} HighestAbove(ls: seq<Level>)
    requires ls != []
    ensures Lists(ls, Highest(ls)) && forall i :: 0 <= i < |ls| ==> ls[i].price <= Highest(ls)
  {
    var n := |ls| - 1;
    if n > 0 {
      HighestAbove(ls[..n]);
      assert forall i :: 0 <= i < n ==> ls[..n][i] == ls[i];
      assert Lists(ls[..n], Highest(ls[..n]));
    }
    assert ls[n].price == ls[n].price;
  }

  /** Whether Load gets as far as replacing the book. */
  ghost predicate Accepts(c: Core, s: Snapshot) {
    !(c.synced && s.lastId < c.last) && ResetError(s.bids, s.asks) == NoError
  }

  ghost function ReplayOn(s: Snapshot, buf: seq<BookDelta>): Replayed
    requires ResetError(s.bids, s.asks) == NoError
  {
    Replay(Anchor(ResetTo(s.bids, s.asks), s.lastId), buf)
  }

  /** The effect of one same-symbol snapshot. */
  ghost function CoreLoad(c: Core, s: Snapshot): Core {
    if !Accepts(c, s) then c
    else match ReplayOn(s, c.buf)
      case Through(a) => Core(a.depths, a.last, true, [], FloorOf(s), CeilOf(s))
      case Stopped(a, kept, _) => Core(a.depths, a.last, false, kept, FloorOf(s), CeilOf(s))
  }

  ghost function LoadResultOf(t: State, s: Snapshot): LoadResult {
    if s.symbol != t.symbol then ForeignSnapshot
    else if t.core.synced && s.lastId < t.core.last then SnapshotBehind
    else
      var e := ResetError(s.bids, s.asks);
      if e != NoError then SnapshotRejected(e)
      else match ReplayOn(s, t.core.buf)
        case Through(_) => LoadedOrTooOld
        case Stopped(_, _, e) => if e == NoError then LoadedOrTooOld else ReplayRejected(e)
  }

  ghost function LoadStats(t: State, s: Snapshot): Stats {
    var st := t.stats;
    if LoadResultOf(t, s) != LoadedOrTooOld then st
    else if CoreLoad(t.core, s).synced then st.(resyncs := st.resyncs + 1)
    else st.(refetches := st.refetches + 1)
  }

  /** Tracker.Load. */
  ghost function LoadStep(t: State, s: Snapshot): (State, LoadResult) {
    var r := LoadResultOf(t, s);
    (t.(fetching := false,
        core := if s.symbol == t.symbol then CoreLoad(t.core, s) else t.core,
        stats := LoadStats(t, s)), r)
  }

  // ---------- Fetching ----------

  function BeginFetchStep(t: State): (State, bool) {
    if t.fetching || t.core.synced then (t, false) else (t.(fetching := true), true)
  }

  function FetchFailedStep(t: State): State {
    t.(fetching := false)
  }

  // ---------- Runs ----------

  /** One call on a tracker by its owner. */
  datatype Call = Deliver(delta: BookDelta) | Land(snap: Snapshot) | Begin | Fail

  ghost function Step(t: State, c: Call): State {
    match c
    case Deliver(d) => ApplyStep(t, d).0
    case Land(s) => LoadStep(t, s).0
    case Begin => BeginFetchStep(t).0
    case Fail => FetchFailedStep(t)
  }

  ghost function Run(t: State, calls: seq<Call>): State {
    if calls == [] then t else Step(Run(t, calls[..|calls| - 1]), calls[|calls| - 1])
  }

  /** The same-symbol deltas a run delivered, in order. */
  ghost function Delivered(symbol: Symbol, calls: seq<Call>): seq<BookDelta> {
    if calls == [] then []
    else
      var n := |calls| - 1;
      var c := calls[n];
      Delivered(symbol, calls[..n]) + if c.Deliver? && c.delta.symbol == symbol then [c.delta] else []
  }

  // ---------- Basic facts ----------

  /** Replay over a concatenation: through the first part, then the second. */
  lemma {:induction false} ReplaySplits(a: Anchor, x: seq<BookDelta>, y: seq<BookDelta>)
    ensures Replay(a, x + y) ==
            match Replay(a, x)
            case Through(b) => Replay(b, y)
            case Stopped(b, kept, e) => Stopped(b, kept + y, e)
    decreases |x|
  {
    if x == [] {
      assert x + y == y;
    } else {
      assert (x + y)[1..] == x[1..] + y;
      var d := x[0];
      match Classify(a.last, d)
      case Stale => ReplaySplits(a, x[1..], y);
      case Contiguous =>
        if UpdateError(d.bids, d.asks) == NoError {
          ReplaySplits(Anchor(Updated(a.depths, d.bids, d.asks), d.lastId), x[1..], y);
        }
      case Gapped =>
    }
  }

  /** What a stopped replay keeps is a nonempty suffix of what it was given. */
  lemma {:induction false} KeepsSuffix(a: Anchor, buf: seq<BookDelta>)
    ensures var r := Replay(a, buf);
      r.Stopped? ==> 0 < |r.kept| <= |buf| && r.kept == buf[|buf| - |r.kept|..]
    decreases |buf|
  {
    if buf != [] {
      var d := buf[0];
      match Classify(a.last, d)
      case Stale => KeepsSuffix(a, buf[1..]);
      case Contiguous =>
        if UpdateError(d.bids, d.asks) == NoError {
          KeepsSuffix(Anchor(Updated(a.depths, d.bids, d.asks), d.lastId), buf[1..]);
        }
      case Gapped =>
    }
  }

  lemma {:induction false} RunSplits(t: State, x: seq<Call>, y: seq<Call>)
    ensures Run(t, x + y) == Run(Run(t, x), y)
    decreases |y|
  {
    if y == [] {
      assert x + y == x;
    } else {
      var n := |y| - 1;
      assert (x + y)[..|x + y| - 1] == x + y[..n];
      RunSplits(t, x, y[..n]);
    }
  }

  lemma RunSnoc(t: State, calls: seq<Call>, c: Call)
    ensures Run(t, calls + [c]) == Step(Run(t, calls), c)
  {
    assert (calls + [c])[..|calls|] == calls;
  }

  // ---------- What an error leaves behind ----------

  /** A delivery that fails does not always leave the book stale: exactly when it
  fails for its symbol alone, a live book stays live. */
  lemma FailedApplyStaysLiveIff(t: State, d: BookDelta)
    requires ApplyStep(t, d).1.ForeignDelta? || ApplyStep(t, d).1.DeltaRejected?
    ensures ApplyStep(t, d).0.core.synced <==> t.core.synced && d.symbol != t.symbol
  {
  }

  /** And it happens: a live tracker, handed a delta of another symbol, stays live. */
  lemma ForeignDeltaLeavesLive()
    ensures var t := Run(NewState([], 1), [Land(Snapshot([], 10, [], [], false))]);
      var (t', r) := ApplyStep(t, BookDelta([0x61], 11, 11, [], []));
      t.core.synced && r == ForeignDelta && t'.core.synced
  {
    var t0, s := NewState([], 1), Snapshot([], 10, [], [], false);
    NothingIsGood();
    hide ResetError, ResetTo;
    assert LoadStep(t0, s).0.core.synced;
    assert [Land(s)][..0] == [];
    RunSnoc(t0, [], Land(s));
    assert [] + [Land(s)] == [Land(s)];
  }
}
