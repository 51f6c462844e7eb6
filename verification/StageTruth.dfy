/** The truth of live books, carried to the whole book stage: any number of
shards, any interleaving, any failed or late request. */
module StageTruth {
  import opened MarketModel
  import opened BookSpec
  import opened TrackerSpec
  import opened Position
  import opened Venue
  import opened ShardSpec
  import opened ShardTheorems
  import opened Replays

  ghost predicate TruthfulEvent(v: History, sym: Symbol, ev: Event) {
    && EventSymbol(ev) == Some(sym)
    && (ev.Delta? ==> TruthfulDelta(v, ev.delta))
    && (ev.Snap? ==> TruthfulSnapshot(v, ev.snap))
  }

  ghost predicate TruthfulAnswer(v: History, sym: Symbol, s: Snapshot) {
    s.symbol == sym ==> TruthfulSnapshot(v, s)
  }

  ghost predicate TruthfulLane(v: History, sym: Symbol, l: Lane) {
    && (forall i :: 0 <= i < |l.done| ==> TruthfulEvent(v, sym, l.done[i]))
    && (forall i :: 0 <= i < |l.queue| ==> TruthfulEvent(v, sym, l.queue[i]))
    && (forall i :: 0 <= i < |l.served| ==> TruthfulAnswer(v, sym, l.served[i]))
  }

  lemma TruthfulBefore(v: History, sym: Symbol, l: Lane, cap: int, a: LaneAction)
    requires TruthfulLane(v, sym, LaneNext(l, cap, a))
    ensures TruthfulLane(v, sym, l)
    ensures a.Give? && LaneEnabled(l, a) && a.r.Some? ==> TruthfulAnswer(v, sym, a.r.value)
  {
    var l' := LaneNext(l, cap, a);
    if LaneEnabled(l, a) {
      assert forall i :: 0 <= i < |l.done| ==> l'.done[i] == l.done[i];
      assert forall i :: 0 <= i < |l.served| ==> l'.served[i] == l.served[i];
      match a
      case Accept(ev) => assert forall i :: 0 <= i < |l.queue| ==> l'.queue[i] == l.queue[i];
      case Take =>
        assert l'.done[|l.done|] == l.queue[0];
        assert forall i :: 1 <= i < |l.queue| ==> l'.queue[i - 1] == l.queue[i];
      case Give(i, r) => if r.Some? { assert l'.served[|l.served|] == r.value; }
      case Finish(_) =>
    }
  }

  ghost predicate CellFaithful(v: History, sym: Symbol, c: Cell) {
    && c.tracker.symbol == sym && Faithful(v, c.tracker)
    && forall i :: 0 <= i < |c.flight| && c.flight[i].Answered? && c.flight[i].result.Some? ==>
         TruthfulAnswer(v, sym, c.flight[i].result.value)
  }

  lemma FetchFaithful(v: History, sym: Symbol, c: Cell)
    requires CellFaithful(v, sym, c)
    ensures CellFaithful(v, sym, Fetch(c))
  {
  }

  lemma LoadCellFaithful(v: History, sym: Symbol, c: Cell, s: Snapshot)
    requires CellFaithful(v, sym, c) && TruthfulAnswer(v, sym, s)
    ensures CellFaithful(v, sym, LoadCell(c, s))
  {
    if s.symbol == sym { LoadFaithful(v, c.tracker, s); }
    FetchFaithful(v, sym, c.(tracker := LoadStep(c.tracker, s).0));
  }

  lemma HandleFaithful(v: History, sym: Symbol, c: Option<Cell>, cap: int, ev: Event)
    requires c.Some? ==> CellFaithful(v, sym, c.value)
    requires TruthfulEvent(v, sym, ev)
    ensures HandleCell(c, cap, ev).Some? ==> CellFaithful(v, sym, HandleCell(c, cap, ev).value)
  {
    var c0 := CellFor(c, sym, cap);
    assert CellFaithful(v, sym, c0);
    match ev
    case Delta(d) =>
      ApplyFaithful(v, c0.tracker, d);
      FetchFaithful(v, sym, c0.(tracker := ApplyStep(c0.tracker, d).0));
    case Snap(s) => LoadCellFaithful(v, sym, c0, s);
    case Trade(_) =>
  }

  lemma CompleteFaithful(v: History, sym: Symbol, c: Cell, i: nat)
    requires CellFaithful(v, sym, c) && CanComplete(c, i)
    ensures CellFaithful(v, sym, CompleteCell(c, i))
  {
    var c0 := c.(flight := c.flight[..i] + c.flight[i + 1..]);
    assert forall j :: 0 <= j < |c0.flight| ==> c0.flight[j] == c.flight[if j < i then j else j + 1];
    match c.flight[i].result
    case None => FetchFaithful(v, sym, c0.(tracker := FetchFailedStep(c0.tracker)));
    case Some(s) => LoadCellFaithful(v, sym, c0, s);
  }

  lemma {:induction false} LaneFaithful(v: History, sym: Symbol, cap: int, actions: seq<LaneAction>)
    requires TruthfulLane(v, sym, LaneExec(EMPTY_LANE, cap, actions))
    ensures var l := LaneExec(EMPTY_LANE, cap, actions); l.cell.Some? ==> CellFaithful(v, sym, l.cell.value)
  {
    if actions != [] {
      var n := |actions| - 1;
      var l, a := LaneExec(EMPTY_LANE, cap, actions[..n]), actions[n];
      TruthfulBefore(v, sym, l, cap, a);
      LaneFaithful(v, sym, cap, actions[..n]);
      if LaneEnabled(l, a) {
        match a
        case Accept(_) =>
        case Take => HandleFaithful(v, sym, l.cell, cap, l.queue[0]);
        case Give(_, _) =>
        case Finish(i) => CompleteFaithful(v, sym, l.cell.value, i);
      }
    }
  }

  /** However the stage is run, a book it shows as live agrees with the venue. */
  lemma StageNeverLies(v: History, n: nat, queueCap: nat, bufCap: int, actions: seq<Action>, sym: Symbol)
    requires 0 < n && Lawful(v)
    requires |Exec(Init(n, queueCap, bufCap), actions).shards| == n
    requires TruthfulLane(v, sym, LaneOf(Exec(Init(n, queueCap, bufCap), actions), sym))
    ensures var l := LaneOf(Exec(Init(n, queueCap, bufCap), actions), sym);
      l.cell.Some? && Live(l.cell.value) ==>
        var c := l.cell.value.tracker.core;
        && BookAgrees(c.depths, v(c.last), c.bidFloor, c.askCeil)
        && (c.bidFloor == 0 && c.askCeil == 0 ==> c.depths == v(c.last))
  {
    ShardingIsInvisible(n, queueCap, bufCap, actions, sym);
    LaneFaithful(v, sym, bufCap, SeenIn(Init(n, queueCap, bufCap), actions, sym));
    var l := LaneOf(Exec(Init(n, queueCap, bufCap), actions), sym);
    if l.cell.Some? && Live(l.cell.value) {
      var c := l.cell.value.tracker.core;
      assert Proper(v(c.last));
      if c.bidFloor == 0 && c.askCeil == 0 {
        NoEdgeIsExact(true, c.depths.bids, v(c.last).bids);
        NoEdgeIsExact(false, c.depths.asks, v(c.last).asks);
      }
    }
  }
}
