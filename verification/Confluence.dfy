/** The order in which a snapshot and the deltas around it reach a tracker does
not matter (internal/book/tracker.go, internal/record/source.go). */
module Confluence {
  import opened MarketModel
  import opened BookSpec
  import opened Sequencing
  import opened TrackerSpec

  /** CoreApply with room for everything. */
  function FreeApply(c: Core, d: BookDelta): Core {
    CoreApply(c, |c.buf| + 1, d)
  }

  lemma RoomIsEnough(c: Core, cap: Capacity, d: BookDelta)
    requires |c.buf| < cap
    ensures CoreApply(c, cap, d) == FreeApply(c, d)
  {
  }

  /** On a stale core, a snapshot and a delta commute in every case: foreign,
  stale, contiguous, gapped, rejected level, rejected snapshot. */
  lemma LoadApplyCommute(c: Core, s: Snapshot, d: BookDelta)
    requires !c.synced
    ensures CoreLoad(FreeApply(c, d), s) == FreeApply(CoreLoad(c, s), d)
  {
    assert FreeApply(c, d) == c.(buf := c.buf + [d]);
    if Accepts(c, s) {
      ReplaySplits(Anchor(ResetTo(s.bids, s.asks), s.lastId), c.buf, [d]);
    }
  }

  /** The same on a whole tracker with room in its buffer, counters apart. */
  lemma LoadAndApplyCommute(t: State, s: Snapshot, d: BookDelta)
    requires !t.core.synced && |t.core.buf| < t.cap
    ensures var x, y := ApplyStep(LoadStep(t, s).0, d).0, LoadStep(ApplyStep(t, d).0, s).0;
      x.(stats := t.stats) == y.(stats := t.stats)
  {
    if s.symbol == t.symbol && d.symbol == t.symbol {
      LoadApplyCommute(t.core, s, d);
      RoomIsEnough(t.core, t.cap, d);
      var l := CoreLoad(t.core, s);
      if Accepts(t.core, s) { KeepsSuffix(Anchor(ResetTo(s.bids, s.asks), s.lastId), t.core.buf); }
      assert |l.buf| <= |t.core.buf|;
      RoomIsEnough(l, t.cap, d);
    }
  }

  // ---------- Canonical runs ----------

  /** Every delta first, none of them lost. */
  function BufferAll(deltas: seq<BookDelta>): Core {
    Core(EMPTY, 0, false, deltas, 0, 0)
  }

  ghost function LoadAll(c: Core, snaps: seq<Snapshot>): Core {
    if snaps == [] then c else CoreLoad(LoadAll(c, snaps[..|snaps| - 1]), snaps[|snaps| - 1])
  }

  /** Each of the snapshots was loaded into a core that needed one. */
  ghost predicate Needed(c: Core, snaps: seq<Snapshot>) {
    forall j :: 0 <= j < |snaps| ==> !LoadAll(c, snaps[..j]).synced
  }

  /** What a run of `deltas` and the first snapshots of a list must amount to. */
  ghost function Canon(deltas: seq<BookDelta>, snaps: seq<Snapshot>): Core {
    LoadAll(BufferAll(deltas), snaps)
  }

  ghost predicate CanonNeeded(deltas: seq<BookDelta>, snaps: seq<Snapshot>) {
    Needed(BufferAll(deltas), snaps)
  }

  /** One more delta can be moved in front of all the snapshots. */
  lemma {:induction false} DeltaMovesFirst(deltas: seq<BookDelta>, snaps: seq<Snapshot>, d: BookDelta)
    requires CanonNeeded(deltas, snaps)
    ensures CanonNeeded(deltas + [d], snaps)
    ensures Canon(deltas + [d], snaps) == FreeApply(Canon(deltas, snaps), d)
    decreases |snaps|
  {
    var n := |snaps| - 1;
    if snaps != [] {
      var front := snaps[..n];
      forall j | 0 <= j < |front| ensures !LoadAll(BufferAll(deltas), front[..j]).synced {
        assert front[..j] == snaps[..j];
      }
      DeltaMovesFirst(deltas, front, d);
      assert !Canon(deltas, front).synced by { assert snaps[..n] == front; }
      LoadApplyCommute(Canon(deltas, front), snaps[n], d);
      forall j | 0 <= j < |snaps| ensures !LoadAll(BufferAll(deltas + [d]), snaps[..j]).synced {
        if j < n { assert front[..j] == snaps[..j]; }
      }
    }
  }

  lemma SnapshotComesLast(deltas: seq<BookDelta>, snaps: seq<Snapshot>, s: Snapshot)
    requires CanonNeeded(deltas, snaps) && !Canon(deltas, snaps).synced
    ensures CanonNeeded(deltas, snaps + [s])
    ensures Canon(deltas, snaps + [s]) == CoreLoad(Canon(deltas, snaps), s)
  {
    var all := snaps + [s];
    forall j | 0 <= j < |all| ensures !LoadAll(BufferAll(deltas), all[..j]).synced {
      assert all[..j] == if j == |snaps| then snaps else snaps[..j];
    }
    assert all[..|all| - 1] == snaps;
  }

  /** Two ways of consuming one list that both end live consumed the same
  prefix of it, so they end in the same core. */
  lemma LiveIsUnique(deltas: seq<BookDelta>, list: seq<Snapshot>, k1: nat, k2: nat)
    requires k1 <= |list| && k2 <= |list|
    requires CanonNeeded(deltas, list[..k1]) && Canon(deltas, list[..k1]).synced
    requires CanonNeeded(deltas, list[..k2]) && Canon(deltas, list[..k2]).synced
    ensures k1 == k2 && Canon(deltas, list[..k1]) == Canon(deltas, list[..k2])
  {
    if k1 < k2 {
      StaleBefore(deltas, list, k1, k2);
      assert false;
    } else if k2 < k1 {
      StaleBefore(deltas, list, k2, k1);
      assert false;
    }
  }

  lemma StaleBefore(deltas: seq<BookDelta>, list: seq<Snapshot>, j: nat, k: nat)
    requires j < k <= |list| && CanonNeeded(deltas, list[..k])
    ensures !Canon(deltas, list[..j]).synced
  {
    assert list[..k][..j] == list[..j];
  }

  // ---------- Runs of one tracker ----------

  /** The same-symbol snapshots a run landed, in order. */
  ghost function Landed(symbol: Symbol, calls: seq<Call>): seq<Snapshot> {
    if calls == [] then []
    else
      var n := |calls| - 1;
      var c := calls[n];
      Landed(symbol, calls[..n]) + if c.Land? && c.snap.symbol == symbol then [c.snap] else []
  }

  /** Snapshots land only on a tracker that needs one, as the fetch protocol ensures. */
  ghost predicate LandsWhenStale(t: State, calls: seq<Call>) {
    forall i :: 0 <= i < |calls| && calls[i].Land? ==> !Run(t, calls[..i]).core.synced
  }

  /** One delta that overflows nothing, on a canonical core. */
  lemma ApplyIsCanonical(t: State, d: BookDelta, deltas: seq<BookDelta>, landed: seq<Snapshot>)
    requires t.core == Canon(deltas, landed) && CanonNeeded(deltas, landed) && d.symbol == t.symbol
    requires ApplyStep(t, d).0.stats.dropped == 0
    ensures t.stats.dropped == 0
    ensures CanonNeeded(deltas + [d], landed) && ApplyStep(t, d).0.core == Canon(deltas + [d], landed)
  {
    hide Canon, CanonNeeded, UpdateError, Updated;
    DeltaMovesFirst(deltas, landed, d);
    if |t.core.buf| < t.cap { RoomIsEnough(t.core, t.cap, d); }
  }

  lemma StepIsCanonical(t: State, c: Call, deltas: seq<BookDelta>, landed: seq<Snapshot>)
    requires t.core == Canon(deltas, landed) && CanonNeeded(deltas, landed)
    requires Step(t, c).stats.dropped == 0 && (c.Land? ==> !t.core.synced)
    ensures var deltas' := deltas + if c.Deliver? && c.delta.symbol == t.symbol then [c.delta] else [];
      var landed' := landed + if c.Land? && c.snap.symbol == t.symbol then [c.snap] else [];
      CanonNeeded(deltas', landed') && Step(t, c).core == Canon(deltas', landed')
  {
    hide Canon, CanonNeeded, CoreApply, CoreLoad;
    assert deltas + [] == deltas && landed + [] == landed;
    if c.Deliver? && c.delta.symbol == t.symbol {
      ApplyIsCanonical(t, c.delta, deltas, landed);
    } else if c.Land? && c.snap.symbol == t.symbol {
      SnapshotComesLast(deltas, landed, c.snap);
    }
  }

  lemma StepDrops(t: State, c: Call)
    ensures t.stats.dropped <= Step(t, c).stats.dropped && Step(t, c).symbol == t.symbol
  {
  }

  /** Every run without an overflow is its canonical run. */
  lemma {:induction false} RunIsCanonical(symbol: Symbol, cap: int, calls: seq<Call>)
    requires LandsWhenStale(NewState(symbol, cap), calls)
    requires Run(NewState(symbol, cap), calls).stats.dropped == 0
    ensures var t := Run(NewState(symbol, cap), calls);
      && t.symbol == symbol
      && t.core == Canon(Delivered(symbol, calls), Landed(symbol, calls))
      && CanonNeeded(Delivered(symbol, calls), Landed(symbol, calls))
  {
    var t0 := NewState(symbol, cap);
    if calls != [] {
      hide Canon, CanonNeeded, Step;
      var n := |calls| - 1;
      var front := calls[..n];
      forall i | 0 <= i < |front| && front[i].Land? ensures !Run(t0, front[..i]).core.synced {
        assert front[..i] == calls[..i];
      }
      StepDrops(Run(t0, front), calls[n]);
      RunIsCanonical(symbol, cap, front);
      StepIsCanonical(Run(t0, front), calls[n], Delivered(symbol, front), Landed(symbol, front));
    }
  }

  /** Any two runs over the same deltas and the same ordered snapshot list that
  end live, without overflow, end in the same book, position, buffer and
  bounds, having used the same number of snapshots.  How the deliveries were
  interleaved with the snapshots, and the buffer sizes, do not show. */
  lemma LiveRunsAgree(symbol: Symbol, cap1: int, cap2: int, calls1: seq<Call>, calls2: seq<Call>, list: seq<Snapshot>)
    requires LandsWhenStale(NewState(symbol, cap1), calls1) && LandsWhenStale(NewState(symbol, cap2), calls2)
    requires Delivered(symbol, calls1) == Delivered(symbol, calls2)
    requires Landed(symbol, calls1) <= list && Landed(symbol, calls2) <= list
    requires Run(NewState(symbol, cap1), calls1).stats.dropped == 0 && Run(NewState(symbol, cap1), calls1).core.synced
    requires Run(NewState(symbol, cap2), calls2).stats.dropped == 0 && Run(NewState(symbol, cap2), calls2).core.synced
    ensures Run(NewState(symbol, cap1), calls1).core == Run(NewState(symbol, cap2), calls2).core
    ensures Landed(symbol, calls1) == Landed(symbol, calls2)
  {
    RunIsCanonical(symbol, cap1, calls1);
    RunIsCanonical(symbol, cap2, calls2);
    var l1, l2 := Landed(symbol, calls1), Landed(symbol, calls2);
    assert l1 == list[..|l1|] && l2 == list[..|l2|];
    LiveIsUnique(Delivered(symbol, calls1), list, |l1|, |l2|);
  }
}
