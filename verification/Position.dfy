/** Invariants of the buffer and of the position over all runs
(internal/book/tracker.go). */
module Position {
  import opened MarketModel
  import opened BookSpec
  import opened Sequencing
  import opened TrackerSpec
  import opened Discard

  // ---------- The buffer ----------

  ghost predicate IsSuffix(x: seq<BookDelta>, all: seq<BookDelta>) {
    |x| <= |all| && x == all[|all| - |x|..]
  }

  ghost predicate BufferSound(t: State) {
    |t.core.buf| <= t.cap && (t.core.synced ==> t.core.buf == [])
  }

  lemma StepSound(t: State, c: Call)
    requires BufferSound(t)
    ensures BufferSound(Step(t, c)) && Step(t, c).symbol == t.symbol && Step(t, c).cap == t.cap
  {
    if c.Land? && Accepts(t.core, c.snap) {
      KeepsSuffix(Anchor(ResetTo(c.snap.bids, c.snap.asks), c.snap.lastId), t.core.buf);
    }
  }

  /** In every state of every run: the buffer is within its capacity, it is a
  suffix of the same-symbol deltas delivered so far, and a live tracker holds
  none. */
  lemma {:induction false} BufferInvariants(symbol: Symbol, cap: int, calls: seq<Call>)
    ensures var t := Run(NewState(symbol, cap), calls);
      BufferSound(t) && t.symbol == symbol && IsSuffix(t.core.buf, Delivered(symbol, calls))
  {
    if calls != [] {
      var n := |calls| - 1;
      BufferInvariants(symbol, cap, calls[..n]);
      var t := Run(NewState(symbol, cap), calls[..n]);
      StepSound(t, calls[n]);
      StepSuffix(t, calls[n], Delivered(symbol, calls[..n]));
    }
  }

  lemma StepSuffix(t: State, c: Call, hist: seq<BookDelta>)
    requires BufferSound(t) && IsSuffix(t.core.buf, hist)
    ensures IsSuffix(Step(t, c).core.buf, hist + if c.Deliver? && c.delta.symbol == t.symbol then [c.delta] else [])
  {
    hide Replay, ResetTo, UpdateError, Updated, ApplyStats, ApplyResultOf, LoadStats, LoadResultOf;
    assert hist + [] == hist;
    match c
    case Deliver(d) =>
    case Land(s) =>
      if Accepts(t.core, s) { KeepsSuffix(Anchor(ResetTo(s.bids, s.asks), s.lastId), t.core.buf); }
    case Begin =>
    case Fail =>
  }

  /** A delivery the buffer has no room for. */
  ghost predicate Overflows(t: State, d: BookDelta) {
    d.symbol == t.symbol && !t.core.synced && |t.core.buf| >= t.cap
  }

  /** Each overflow is counted and removes exactly one delta, the oldest. */
  lemma OverflowDropsOldest(t: State, d: BookDelta)
    requires BufferSound(t)
    ensures var t' := ApplyStep(t, d).0;
      && t'.stats.dropped == t.stats.dropped + (if Overflows(t, d) then 1 else 0)
      && (Overflows(t, d) ==> t'.core.buf == t.core.buf[1..] + [d])
  {
  }

  // ---------- The position ----------

  ghost predicate HoldsAbove(buf: seq<BookDelta>, mark: int) {
    exists i :: 0 <= i < |buf| && buf[i].lastId >= mark
  }

  /** A tracker once live at `mark` is live at or above it, or still holds a
  delta that will carry it there. */
  ghost predicate Secured(t: State, mark: int) {
    if t.core.synced then t.core.last >= mark else HoldsAbove(t.core.buf, mark)
  }

  lemma {:induction false} ReplayKeepsMark(a: Anchor, buf: seq<BookDelta>, mark: int)
    requires HoldsAbove(buf, mark) || a.last >= mark
    ensures match Replay(a, buf)
            case Through(b) => b.last >= mark
            case Stopped(_, kept, _) => HoldsAbove(kept, mark)
    decreases |buf|
  {
    if buf != [] {
      var d, rest := buf[0], buf[1..];
      assert HoldsAbove(buf, mark) ==> d.lastId >= mark || HoldsAbove(rest, mark) by {
        if HoldsAbove(buf, mark) {
          var i :| 0 <= i < |buf| && buf[i].lastId >= mark;
          if i > 0 { assert rest[i - 1] == buf[i]; }
        }
      }
      match Classify(a.last, d)
      case Stale => ReplayKeepsMark(a, rest, mark);
      case Contiguous =>
        if UpdateError(d.bids, d.asks) == NoError {
          ReplayKeepsMark(Anchor(Updated(a.depths, d.bids, d.asks), d.lastId), rest, mark);
        } else if a.last >= mark {
          assert buf[0].lastId >= mark;
        }
      case Gapped =>
        if a.last >= mark { assert buf[0].lastId >= mark; }
    }
  }

  /** What an overflow has to leave for the mark to stay out of danger: the new
  delta, or one that is not dropped, reaches it. */
  ghost predicate Spares(t: State, c: Call, mark: int) {
    c.Deliver? && Overflows(t, c.delta) ==> c.delta.lastId >= mark || HoldsAbove(t.core.buf[1..], mark)
  }

  lemma HoldsAfterPush(buf: seq<BookDelta>, d: BookDelta, mark: int)
    ensures HoldsAbove(buf + [d], mark) <==> HoldsAbove(buf, mark) || d.lastId >= mark
  {
    var all := buf + [d];
    if HoldsAbove(buf, mark) {
      var i :| 0 <= i < |buf| && buf[i].lastId >= mark;
      assert all[i] == buf[i];
    }
    if d.lastId >= mark { assert all[|buf|] == d; }
  }

  /** Exactly when a delivery leaves a secured tracker secured. */
  lemma DeliverySecuresIff(t: State, d: BookDelta, mark: int)
    requires BufferSound(t) && Secured(t, mark) && d.symbol == t.symbol
    ensures Secured(ApplyStep(t, d).0, mark) <==> Spares(t, Deliver(d), mark)
  {
    var t' := ApplyStep(t, d).0;
    if !t.core.synced {
      if Overflows(t, d) {
        assert t'.core.buf == t.core.buf[1..] + [d];
        HoldsAfterPush(t.core.buf[1..], d, mark);
      } else {
        HoldsAfterPush(t.core.buf, d, mark);
      }
    } else if !t'.core.synced {
      assert t'.core.buf[0] == d && d.lastId >= mark;
    }
  }

  lemma StepSecuresIff(t: State, c: Call, mark: int)
    requires BufferSound(t) && Secured(t, mark)
    ensures Secured(Step(t, c), mark) <==> Spares(t, c, mark)
  {
    match c
    case Deliver(d) => if d.symbol == t.symbol { DeliverySecuresIff(t, d, mark); }
    case Land(s) =>
      if s.symbol == t.symbol && Accepts(t.core, s) {
        ReplayKeepsMark(Anchor(ResetTo(s.bids, s.asks), s.lastId), t.core.buf, mark);
      }
    case Begin =>
    case Fail =>
  }

  /** Some snapshot, landing now, would leave the tracker live below the mark. */
  ghost predicate CanRewind(t: State, mark: int) {
    exists s :: LoadStep(t, s).0.core.synced && LoadStep(t, s).0.core.last < mark
  }

  /** Exactly the trackers that are not secured can be taken back. */
  lemma RewindsIffNotSecured(t: State, mark: int)
    requires BufferSound(t)
    ensures CanRewind(t, mark) <==> !Secured(t, mark)
  {
    if Secured(t, mark) {
      forall s | LoadStep(t, s).0.core.synced ensures LoadStep(t, s).0.core.last >= mark {
        StepSecuresIff(t, Land(s), mark);
      }
    } else if t.core.synced {
      var behind := Snapshot(t.symbol, t.core.last - 1, [], [], false);
      assert LoadStep(t, behind).0.core == t.core;
    } else {
      var s := Snapshot(t.symbol, mark - 1, [], [], false);
      NothingIsGood();
      hide ResetError, ResetTo;
      SkipsStale(Anchor(ResetTo([], []), mark - 1), t.core.buf, []);
      assert t.core.buf + [] == t.core.buf;
      assert LoadStep(t, s).0.core.synced && LoadStep(t, s).0.core.last == mark - 1;
    }
  }

  ghost predicate SparesBetween(t: State, calls: seq<Call>, i: nat, j: nat, mark: int)
    requires i <= j <= |calls|
  {
    forall k :: i <= k < j ==> Spares(Run(t, calls[..k]), calls[k], mark)
  }

  ghost predicate NeverRewindable(t: State, calls: seq<Call>, i: nat, j: nat, mark: int)
    requires i <= j <= |calls|
  {
    forall k :: i <= k <= j ==> !CanRewind(Run(t, calls[..k]), mark)
  }

  lemma {:induction false} RunSecuresIff(t: State, calls: seq<Call>, i: nat, j: nat, mark: int)
    requires i <= j <= |calls|
    requires BufferSound(Run(t, calls[..i])) && Secured(Run(t, calls[..i]), mark)
    ensures BufferSound(Run(t, calls[..j]))
    ensures SparesBetween(t, calls, i, j, mark) <==> NeverRewindable(t, calls, i, j, mark)
    ensures SparesBetween(t, calls, i, j, mark) ==> Secured(Run(t, calls[..j]), mark)
    decreases j
  {
    hide Secured, BufferSound, Run, Spares, Step, CanRewind;
    RewindsIffNotSecured(Run(t, calls[..i]), mark);
    if i < j {
      RunSecuresIff(t, calls, i, j - 1, mark);
      var t', c := Run(t, calls[..j - 1]), calls[j - 1];
      StepSound(t', c);
      assert calls[..j] == calls[..j - 1] + [c];
      RunSnoc(t, calls[..j - 1], c);
      RewindsIffNotSecured(Step(t', c), mark);
      if SparesBetween(t, calls, i, j - 1, mark) {
        StepSecuresIff(t', c, mark);
        assert SparesBetween(t, calls, i, j, mark) <==> Spares(t', c, mark);
      }
    }
  }

  /** Exactly when the position can be taken back.  After a tracker was live at
  some position, a snapshot that takes it back to an earlier one exists at some
  later moment of the run if and only if some overflow until then left nothing
  that reaches the position: neither the new delta nor any of those kept. */
  lemma RewindableIffOverflowSpares(symbol: Symbol, cap: int, calls: seq<Call>, i: nat, j: nat)
    requires i <= j <= |calls| && Run(NewState(symbol, cap), calls[..i]).core.synced
    ensures var t := NewState(symbol, cap);
      var mark := Run(t, calls[..i]).core.last;
      NeverRewindable(t, calls, i, j, mark) <==> SparesBetween(t, calls, i, j, mark)
  {
    var t := NewState(symbol, cap);
    BufferInvariants(symbol, cap, calls[..i]);
    RunSecuresIff(t, calls, i, j, Run(t, calls[..i]).core.last);
  }

  /** The position never rewinds: between any two live moments of a run whose
  overflows spare the earlier position, LastID does not decrease, whatever
  snapshots land in between. */
  lemma PositionNeverRewinds(symbol: Symbol, cap: int, calls: seq<Call>, i: nat, j: nat)
    requires i <= j <= |calls|
    requires Run(NewState(symbol, cap), calls[..i]).core.synced
    requires SparesBetween(NewState(symbol, cap), calls, i, j, Run(NewState(symbol, cap), calls[..i]).core.last)
    requires Run(NewState(symbol, cap), calls[..j]).core.synced
    ensures Run(NewState(symbol, cap), calls[..i]).core.last <= Run(NewState(symbol, cap), calls[..j]).core.last
  {
    var t := NewState(symbol, cap);
    BufferInvariants(symbol, cap, calls[..i]);
    RunSecuresIff(t, calls, i, j, Run(t, calls[..i]).core.last);
  }

  ghost predicate NonDecreasing(ds: seq<BookDelta>) {
    forall i, j :: 0 <= i < j < |ds| ==> ds[i].lastId <= ds[j].lastId
  }

  /** Deltas delivered in id order spare every position a tracker is secured at. */
  lemma InOrderDeliverySpares(symbol: Symbol, cap: int, calls: seq<Call>, k: nat, mark: int)
    requires k < |calls| && NonDecreasing(Delivered(symbol, calls[..k + 1]))
    requires Secured(Run(NewState(symbol, cap), calls[..k]), mark)
    ensures Spares(Run(NewState(symbol, cap), calls[..k]), calls[k], mark)
  {
    hide Run, NewState, BufferSound;
    var t := Run(NewState(symbol, cap), calls[..k]);
    BufferInvariants(symbol, cap, calls[..k]);
    if calls[k].Deliver? && Overflows(t, calls[k].delta) {
      var hist, hist' := Delivered(symbol, calls[..k]), Delivered(symbol, calls[..k + 1]);
      assert calls[..k + 1][..k] == calls[..k];
      assert hist' == hist + [calls[k].delta];
      hide Delivered;
      var i :| 0 <= i < |t.core.buf| && t.core.buf[i].lastId >= mark;
      assert t.core.buf[i] == hist'[|hist| - |t.core.buf| + i];
      assert hist'[|hist|] == calls[k].delta;
    }
  }

  lemma LiveIsSecured(t: State)
    requires t.core.synced
    ensures Secured(t, t.core.last)
  {
  }

  lemma {:induction false} InOrderSpares(symbol: Symbol, cap: int, calls: seq<Call>, i: nat, j: nat)
    requires i <= j <= |calls| && NonDecreasing(Delivered(symbol, calls))
    requires Run(NewState(symbol, cap), calls[..i]).core.synced
    ensures SparesBetween(NewState(symbol, cap), calls, i, j, Run(NewState(symbol, cap), calls[..i]).core.last)
    decreases j
  {
    hide Run, Spares, Secured, BufferSound, IsSuffix, NeverRewindable;
    var t := NewState(symbol, cap);
    var mark := Run(t, calls[..i]).core.last;
    LiveIsSecured(Run(t, calls[..i]));
    if i < j {
      InOrderSpares(symbol, cap, calls, i, j - 1);
      BufferInvariants(symbol, cap, calls[..i]);
      RunSecuresIff(t, calls, i, j - 1, mark);
      DeliveredPrefix(symbol, calls, j);
      InOrderDeliverySpares(symbol, cap, calls, j - 1, mark);
    }
  }

  lemma {:induction false} DeliveredPrefix(symbol: Symbol, calls: seq<Call>, k: nat)
    requires k <= |calls|
    ensures Delivered(symbol, calls[..k]) <= Delivered(symbol, calls)
    decreases |calls| - k
  {
    if k == |calls| {
      assert calls[..k] == calls;
    } else {
      DeliveredPrefix(symbol, calls, k + 1);
      assert calls[..k + 1][..k] == calls[..k];
    }
  }

  /** In particular, for deltas delivered in id order. */
  lemma InOrderNeverRewinds(symbol: Symbol, cap: int, calls: seq<Call>, i: nat, j: nat)
    requires i <= j <= |calls| && NonDecreasing(Delivered(symbol, calls))
    requires Run(NewState(symbol, cap), calls[..i]).core.synced
    requires Run(NewState(symbol, cap), calls[..j]).core.synced
    ensures Run(NewState(symbol, cap), calls[..i]).core.last <= Run(NewState(symbol, cap), calls[..j]).core.last
  {
    InOrderSpares(symbol, cap, calls, i, j);
    PositionNeverRewinds(symbol, cap, calls, i, j);
  }

  /** Such an overflow does happen: a new tracker with room for one delta is
  brought live at 10, a gap puts 20 in its buffer, a late 5 pushes it out, and a
  snapshot at 7 brings it live again. */
  lemma OutOfOrderOverflowRewinds() returns (calls: seq<Call>)
    ensures |calls| == 4
    ensures Run(NewState([], 1), calls[..1]).core.synced && Run(NewState([], 1), calls[..1]).core.last == 10
    ensures Run(NewState([], 1), calls).core.synced && Run(NewState([], 1), calls).core.last == 7
  {
    var far, near := BookDelta([], 20, 20, [], []), BookDelta([], 5, 5, [], []);
    var first, aged := Snapshot([], 10, [], [], false), Snapshot([], 7, [], [], false);
    calls := [Land(first), Deliver(far), Deliver(near), Land(aged)];
    NothingIsGood();
    hide ResetError, ResetTo, UpdateError, Updated, ApplyStats, LoadStats, LoadResultOf, ApplyResultOf;
    var t0 := NewState([], 1);
    var t1 := Step(t0, Land(first));
    var t2 := Step(t1, Deliver(far));
    var t3 := Step(t2, Deliver(near));
    var b := ResetTo([], []);
    assert t1.core == Core(b, 10, true, [], 0, 0);
    assert t2.core == Core(b, 10, false, [far], 0, 0);
    assert t3.core == Core(b, 10, false, [near], 0, 0);
    assert Replay(Anchor(b, 7), [near]) == Through(Anchor(b, 7)) by {
      assert [near][1..] == [];
    }
    assert Step(t3, Land(aged)).core == Core(b, 7, true, [], 0, 0);
    RunOfFour(t0, calls);
  }

  lemma RunOfFour(t: State, calls: seq<Call>)
    requires |calls| == 4
    ensures Run(t, calls[..1]) == Step(t, calls[0])
    ensures Run(t, calls) == Step(Step(Step(Step(t, calls[0]), calls[1]), calls[2]), calls[3])
  {
    hide Step;
    assert calls[..4] == calls && calls[..3][..2] == calls[..2] && calls[..2][..1] == calls[..1] && calls[..1][..0] == [];
    assert Run(t, calls[..1]) == Step(Run(t, []), calls[0]);
    assert Run(t, calls[..2]) == Step(Run(t, calls[..1]), calls[1]);
    assert Run(t, calls[..3]) == Step(Run(t, calls[..2]), calls[2]);
  }

  // ---------- The counters ----------

  /** How many deliveries a run refused for their levels. */
  ghost function Refusals(t: State, calls: seq<Call>): nat {
    if calls == [] then 0
    else
      var n := |calls| - 1;
      var c := calls[n];
      Refusals(t, calls[..n]) + if c.Deliver? && ApplyStep(Run(t, calls[..n]), c.delta).1.DeltaRejected? then 1 else 0
  }

  /** The deliveries a tracker has counted. */
  function Counted(t: State): nat {
    t.stats.applied + t.stats.discarded + t.stats.buffered + t.stats.gaps
  }

  lemma StepCounts(t: State, c: Call)
    ensures Step(t, c).symbol == t.symbol
    ensures Counted(Step(t, c)) + (if c.Deliver? && ApplyStep(t, c.delta).1.DeltaRejected? then 1 else 0)
         == Counted(t) + if c.Deliver? && c.delta.symbol == t.symbol then 1 else 0
  {
    hide CoreApply, CoreLoad, LoadResultOf;
  }

  /** Every same-symbol delivery is counted once: as applied, discarded,
  buffered or a gap, or not at all when its levels were refused. */
  lemma {:induction false} CountersAddUp(symbol: Symbol, cap: int, calls: seq<Call>)
    ensures var t := Run(NewState(symbol, cap), calls);
      t.symbol == symbol && Counted(t) + Refusals(NewState(symbol, cap), calls) == |Delivered(symbol, calls)|
  {
    if calls != [] {
      hide Step, Counted, ApplyStep;
      var n := |calls| - 1;
      CountersAddUp(symbol, cap, calls[..n]);
      StepCounts(Run(NewState(symbol, cap), calls[..n]), calls[n]);
    }
  }
}
