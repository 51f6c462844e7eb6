/** Two replays of one recording give the same books
(internal/record/source.go, internal/pipeline/shard.go). */
module Replays {
  import opened MarketModel
  import opened BookSpec
  import opened TrackerSpec
  import opened Position
  import opened Confluence
  import opened ShardSpec
  import opened ShardTheorems

  // ---------- The store ----------

  /** What a SnapshotStore holds, and how far each symbol has been served. */
  datatype Store = Store(all: map<Symbol, seq<Snapshot>>, next: map<Symbol, nat>)

  function RecordedIn(st: Store, sym: Symbol): seq<Snapshot> {
    ServedTo(st.all, sym)
  }

  function ServedIn(st: Store, sym: Symbol): nat {
    if sym in st.next then st.next[sym] else 0
  }

  /** Every list holds its own symbol's snapshots, and no list is overrun. */
  ghost predicate StoreSound(st: Store) {
    forall sym ::
      && ServedIn(st, sym) <= |RecordedIn(st, sym)|
      && forall i :: 0 <= i < |RecordedIn(st, sym)| ==> RecordedIn(st, sym)[i].symbol == sym
  }

  /** SnapshotStore.Snapshot. */
  function AnswerStep(st: Store, cancelled: bool, sym: Symbol): (Option<Snapshot>, Store) {
    var i := ServedIn(st, sym);
    if cancelled || i >= |RecordedIn(st, sym)| then (None, st)
    else (Some(RecordedIn(st, sym)[i]), st.(next := st.next[sym := i + 1]))
  }

  /** The answers a symbol gets are its recorded snapshots, in order, each once;
  the store fails exactly when cancelled or used up, and then consumes nothing. */
  lemma AnswersInOrder(st: Store, cancelled: bool, sym: Symbol)
    requires StoreSound(st)
    ensures var (r, st') := AnswerStep(st, cancelled, sym);
      && StoreSound(st') && st'.all == st.all
      && (r.None? <==> cancelled || ServedIn(st, sym) == |RecordedIn(st, sym)|)
      && RecordedIn(st, sym)[..ServedIn(st', sym)]
         == RecordedIn(st, sym)[..ServedIn(st, sym)] + (if r.Some? then [r.value] else [])
      && forall x :: x != sym ==> ServedIn(st', x) == ServedIn(st, x)
  {
    var st' := AnswerStep(st, cancelled, sym).1;
    assert forall x :: RecordedIn(st', x) == RecordedIn(st, x) && ServedIn(st, x) <= |RecordedIn(st, x)|;
  }

  /** SnapshotStore: the recorded snapshots, served in order, one per request. */
  class SnapshotStore {
    var all: map<Symbol, seq<Snapshot>>
    var next: map<Symbol, nat>
    var used: nat

    ghost function Abs(): Store
      reads this
    {
      Store(all, next)
    }

    constructor ()
      ensures StoreSound(Abs()) && used == 0
      ensures forall sym :: RecordedIn(Abs(), sym) == [] && ServedIn(Abs(), sym) == 0
    {
      all, next, used := map[], map[], 0;
    }

    method Add(s: Snapshot)
      requires StoreSound(Abs())
      modifies this
      ensures StoreSound(Abs()) && next == old(next) && used == old(used)
      ensures RecordedIn(Abs(), s.symbol) == old(RecordedIn(Abs(), s.symbol)) + [s]
      ensures forall sym :: sym != s.symbol ==> RecordedIn(Abs(), sym) == old(RecordedIn(Abs(), sym))
    {
      ghost var was := Abs();
      all := all[s.symbol := ServedTo(all, s.symbol) + [s]];
      forall sym ensures ServedIn(Abs(), sym) <= |RecordedIn(Abs(), sym)|
        ensures forall i :: 0 <= i < |RecordedIn(Abs(), sym)| ==> RecordedIn(Abs(), sym)[i].symbol == sym
      {
        assert ServedIn(was, sym) <= |RecordedIn(was, sym)|;
        assert RecordedIn(Abs(), sym) == RecordedIn(was, sym) + if sym == s.symbol then [s] else [];
      }
    }

    /** Snapshot. */
    method Snapshot(cancelled: bool, sym: Symbol) returns (r: Option<Snapshot>)
      requires StoreSound(Abs())
      modifies this
      ensures StoreSound(Abs()) && (r, Abs()) == AnswerStep(old(Abs()), cancelled, sym)
      ensures used == old(used) + if r.Some? then 1 else 0
    {
      AnswersInOrder(Abs(), cancelled, sym);
      if cancelled {
        return None;
      }
      var i := if sym in next then next[sym] else 0;
      if i >= |ServedTo(all, sym)| {
        return None;
      }
      next := next[sym := i + 1];
      used := used + 1;
      return Some(ServedTo(all, sym)[i]);
    }
  }

  // ---------- One lane ----------

  function Deltas(evs: seq<Event>): seq<BookDelta> {
    if evs == [] then []
    else
      var n := |evs| - 1;
      Deltas(evs[..n]) + if evs[n].Delta? then [evs[n].delta] else []
  }

  lemma DeltasSnoc(evs: seq<Event>, ev: Event)
    ensures Deltas(evs + [ev]) == Deltas(evs) + if ev.Delta? then [ev.delta] else []
    ensures SnapCount(evs + [ev]) == SnapCount(evs) + if ev.Snap? then 1 else 0
  {
    assert (evs + [ev])[..|evs|] == evs;
  }

  /** A lane of a replay: one symbol's events, none of them a routed snapshot,
  that symbol's snapshots, and no delta lost to an overflow. */
  ghost predicate Clean(l: Lane, sym: Symbol) {
    && (forall i :: 0 <= i < |l.done| ==> EventSymbol(l.done[i]) == Some(sym))
    && (forall i :: 0 <= i < |l.queue| ==> EventSymbol(l.queue[i]) == Some(sym))
    && SnapCount(l.done) == 0
    && (forall i :: 0 <= i < |l.served| ==> l.served[i].symbol == sym)
    && (l.cell.Some? ==> l.cell.value.tracker.stats.dropped == 0)
  }

  lemma CleanBefore(l: Lane, cap: int, a: LaneAction, sym: Symbol)
    requires Clean(LaneNext(l, cap, a), sym)
    ensures Clean(l, sym)
  {
    hide HandleCell;
    hide CompleteCell;
    var l' := LaneNext(l, cap, a);
    if LaneEnabled(l, a) {
      match a
      case Accept(ev) =>
        assert forall i :: 0 <= i < |l.queue| ==> l'.queue[i] == l.queue[i];
      case Take =>
        HandleDrops(l.cell, cap, l.queue[0]);
        DeltasSnoc(l.done, l.queue[0]);
        assert forall i :: 0 <= i < |l.done| ==> l'.done[i] == l.done[i];
        assert l'.done[|l.done|] == l.queue[0];
        assert forall i :: 1 <= i < |l.queue| ==> l'.queue[i - 1] == l.queue[i];
      case Give(i, r) =>
        assert forall j :: 0 <= j < |l.served| ==> l'.served[j] == l.served[j];
      case Finish(i) => CompleteDrops(l.cell.value, i);
    }
  }

  /** The drop counter only grows. */
  lemma HandleDrops(c: Option<Cell>, cap: int, ev: Event)
    ensures c.Some? ==> HandleCell(c, cap, ev).Some?
    ensures c.Some? ==> c.value.tracker.stats.dropped <= HandleCell(c, cap, ev).value.tracker.stats.dropped
  {
  }

  lemma CompleteDrops(c: Cell, i: nat)
    requires CanComplete(c, i)
    ensures CompleteCell(c, i).tracker.stats.dropped == c.tracker.stats.dropped
  {
  }

  ghost predicate Holding(c: Cell) {
    |c.flight| == 1 && c.flight[0].Answered? && c.flight[0].result.Some?
  }

  /** The snapshots that have reached the book: all that were served, save one still in hand. */
  ghost function LandedIn(l: Lane): seq<Snapshot> {
    if l.cell.Some? && Holding(l.cell.value) && l.served != [] then l.served[..|l.served| - 1] else l.served
  }

  /** The state of a lane is a function of the deltas handled and the snapshots landed. */
  ghost predicate Determined(l: Lane, sym: Symbol) {
    && LaneAttended(l)
    && match l.cell
       case None => Deltas(l.done) == [] && l.served == []
       case Some(c) =>
         && c.tracker.symbol == sym
         && (Holding(c) ==> l.served != [] && c.flight[0].result.value == l.served[|l.served| - 1])
         && CanonNeeded(Deltas(l.done), LandedIn(l))
         && c.tracker.core == Canon(Deltas(l.done), LandedIn(l))
  }

  /** The cell a delta is handled on is determined already, new or not. */
  lemma FoundDetermined(l: Lane, cap: int, sym: Symbol)
    requires Determined(l, sym)
    ensures var t := CellFor(l.cell, sym, cap).tracker;
      && t.symbol == sym && CanonNeeded(Deltas(l.done), LandedIn(l))
      && t.core == Canon(Deltas(l.done), LandedIn(l))
      && (l.cell.None? ==> t.stats.dropped == 0)
  {
    if l.cell.None? { assert LandedIn(l) == []; }
  }

  lemma DeltaDetermined(l: Lane, cap: int, sym: Symbol)
    requires Determined(l, sym) && l.queue != [] && l.queue[0].Delta? && Clean(l, sym)
    requires Clean(LaneNext(l, cap, Take), sym)
    ensures Determined(LaneNext(l, cap, Take), sym)
  {
    var d, l' := l.queue[0].delta, LaneNext(l, cap, Take);
    assert d.symbol == sym;
    LaneStaysAttended(l, cap, Take);
    DeltasSnoc(l.done, l.queue[0]);
    FoundDetermined(l, cap, sym);
    HeldThroughDelta(l.cell, cap, d);
    var t := CellFor(l.cell, sym, cap).tracker;
    hide Canon, CanonNeeded, ApplyStep, CellFor, Fetch, HandleCell;
    ApplyIsCanonical(t, d, Deltas(l.done), LandedIn(l));
    assert LandedIn(l') == LandedIn(l);
  }

  /** A delta changes the core as Apply does, and leaves any answer in hand where it is. */
  lemma HeldThroughDelta(c: Option<Cell>, cap: int, d: BookDelta)
    requires c.Some? ==> Attended(c.value, 0)
    ensures var c0, c' := CellFor(c, d.symbol, cap), HandleCell(c, cap, Delta(d));
      && c'.Some? && c'.value.tracker.core == ApplyStep(c0.tracker, d).0.core
      && c'.value.tracker.symbol == c0.tracker.symbol
      && c'.value.tracker.stats == ApplyStep(c0.tracker, d).0.stats
      && (Holding(c'.value) <==> c.Some? && Holding(c.value))
      && (Holding(c'.value) ==> c'.value.flight == c.value.flight)
  {
    hide CoreApply, ApplyStats, ApplyResultOf;
  }

  lemma GiveDetermined(l: Lane, cap: int, i: nat, r: Option<Snapshot>, sym: Symbol)
    requires Determined(l, sym) && Clean(l, sym) && LaneEnabled(l, Give(i, r))
    ensures Determined(LaneNext(l, cap, Give(i, r)), sym)
  {
    LaneStaysAttended(l, cap, Give(i, r));
    var l' := LaneNext(l, cap, Give(i, r));
    assert |l.cell.value.flight| == 1 && i == 0;
    assert LandedIn(l) == l.served;
    assert r.Some? ==> l'.served[..|l'.served| - 1] == l.served;
    assert LandedIn(l') == l.served;
  }

  lemma FinishDetermined(l: Lane, cap: int, i: nat, sym: Symbol)
    requires Determined(l, sym) && Clean(l, sym) && LaneEnabled(l, Finish(i))
    ensures Determined(LaneNext(l, cap, Finish(i)), sym)
  {
    hide Canon;
    hide CanonNeeded;
    hide CoreLoad;
    LaneStaysAttended(l, cap, Finish(i));
    var c := l.cell.value;
    var l' := LaneNext(l, cap, Finish(i));
    assert |c.flight| == 1 && i == 0 && !Live(c);
    assert c.flight[..0] + c.flight[1..] == [];
    if c.flight[0].result.Some? {
      var s := c.flight[0].result.value;
      var landed := LandedIn(l);
      assert l.served == landed + [s] && s.symbol == sym;
      SnapshotComesLast(Deltas(l.done), landed, s);
      assert LandedIn(l') == l.served;
    }
  }

  lemma StepDetermined(l: Lane, cap: int, a: LaneAction, sym: Symbol)
    requires Determined(l, sym) && Clean(LaneNext(l, cap, a), sym)
    ensures Determined(LaneNext(l, cap, a), sym)
  {
    hide Clean;
    hide Determined;
    CleanBefore(l, cap, a, sym);
    if LaneEnabled(l, a) {
      match a
      case Accept(ev) => AcceptDetermined(l, cap, ev, sym);
      case Take => if l.queue[0].Delta? { DeltaDetermined(l, cap, sym); } else { OtherDetermined(l, cap, sym); }
      case Give(i, r) => GiveDetermined(l, cap, i, r, sym);
      case Finish(i) => FinishDetermined(l, cap, i, sym);
    }
  }

  lemma AcceptDetermined(l: Lane, cap: int, ev: Event, sym: Symbol)
    requires Determined(l, sym)
    ensures Determined(LaneNext(l, cap, Accept(ev)), sym)
  {
  }

  /** A trade passes through and touches nothing. */
  lemma OtherDetermined(l: Lane, cap: int, sym: Symbol)
    requires Determined(l, sym) && l.queue != [] && !l.queue[0].Delta? && Clean(LaneNext(l, cap, Take), sym)
    ensures Determined(LaneNext(l, cap, Take), sym)
  {
    var ev := l.queue[0];
    hide Canon, CanonNeeded, LaneAttended, ApplyStep, LoadStep, Fetch, LoadCell, CellFor, Deltas, SnapCount;
    DeltasSnoc(l.done, ev);
    LaneStaysAttended(l, cap, Take);
    assert !ev.Snap?;
    assert HandleCell(l.cell, cap, ev) == l.cell;
    assert Deltas(l.done) + [] == Deltas(l.done);
  }

  lemma {:induction false} RunDetermined(cap: int, actions: seq<LaneAction>, sym: Symbol)
    requires Clean(LaneExec(EMPTY_LANE, cap, actions), sym)
    ensures Determined(LaneExec(EMPTY_LANE, cap, actions), sym)
  {
    if actions != [] {
      var n := |actions| - 1;
      var l := LaneExec(EMPTY_LANE, cap, actions[..n]);
      CleanBefore(l, cap, actions[n], sym);
      RunDetermined(cap, actions[..n], sym);
      StepDetermined(l, cap, actions[n], sym);
    }
  }

  // ---------- The whole stage ----------

  /** The stage has settled, as far as one symbol goes: no snapshot was routed for
  it, everything that was routed has been handled, and its book is live. */
  ghost predicate Settled(s: System, sym: Symbol)
    requires 0 < |s.shards|
  {
    var l := LaneOf(s, sym);
    SnapCount(l.done) == 0 && l.queue == [] && l.cell.Some? && Live(l.cell.value)
  }

  ghost predicate NothingDropped(s: System, sym: Symbol)
    requires 0 < |s.shards|
  {
    var l := LaneOf(s, sym);
    l.cell.Some? ==> l.cell.value.tracker.stats.dropped == 0
  }

  ghost predicate NoMoreRouted(actions: seq<Action>, sym: Symbol) {
    forall i :: 0 <= i < |actions| && actions[i].Route? ==> EventSymbol(actions[i].ev) != Some(sym)
  }

  lemma SettledStep(s: System, a: Action, sym: Symbol)
    requires 0 < |s.shards| && QueuesRoutable(s) && LaneAttended(LaneOf(s, sym)) && Settled(s, sym)
    requires a.Route? ==> EventSymbol(a.ev) != Some(sym)
    requires 0 < |Next(s, a).shards|
    ensures LaneOf(Next(s, a), sym) == LaneOf(s, sym)
  {
    var l, seen := LaneOf(s, sym), Seen(s, a, sym);
    assert |seen| <= 1 && (seen != [] ==> !seen[0].Accept?);
    StepSeen(s, a, sym);
    hide Next, Seen, LaneOf;
    if seen == [] {
      LaneExecNone(l, s.bufCap);
    } else {
      assert seen == [seen[0]] && l.cell.value.flight == [];
      LaneExecOne(l, s.bufCap, seen[0]);
    }
  }

  /** A settled book is final: nothing the stage can still do, short of routing
  another event for the symbol, changes its book, its requests, its queue or
  what it was served. */
  lemma {:induction false} SettledIsFinal(
      n: nat, queueCap: nat, bufCap: int, actions: seq<Action>, more: seq<Action>, sym: Symbol)
    requires 0 < n && |Exec(Init(n, queueCap, bufCap), actions).shards| == n
    requires Settled(Exec(Init(n, queueCap, bufCap), actions), sym) && NoMoreRouted(more, sym)
    ensures |Exec(Init(n, queueCap, bufCap), actions + more).shards| == n
    ensures LaneOf(Exec(Init(n, queueCap, bufCap), actions + more), sym) == LaneOf(Exec(Init(n, queueCap, bufCap), actions), sym)
    decreases |more|
  {
    hide LaneOf, Next, LaneAttended, QueuesRoutable;
    var s0 := Init(n, queueCap, bufCap);
    if more == [] {
      assert actions + more == actions;
    } else {
      var m := |more| - 1;
      var front := actions + more[..m];
      assert (actions + more)[..|actions + more| - 1] == front && (actions + more)[|actions + more| - 1] == more[m];
      assert Exec(s0, actions + more) == Next(Exec(s0, front), more[m]);
      SettledIsFinal(n, queueCap, bufCap, actions, more[..m], sym);
      ShardCount(s0, actions + more);
      ShardingIsInvisible(n, queueCap, bufCap, front, sym);
      LaneRunAttended(bufCap, SeenIn(s0, front, sym));
      hide Exec;
      SettledStep(Exec(s0, front), more[m], sym);
    }
  }

  /** A settled book is a function of the deltas routed and the snapshots served. */
  lemma SettledIsCanonical(n: nat, queueCap: nat, bufCap: int, actions: seq<Action>, sym: Symbol)
    requires 0 < n && |Exec(Init(n, queueCap, bufCap), actions).shards| == n
    requires Settled(Exec(Init(n, queueCap, bufCap), actions), sym)
    requires NothingDropped(Exec(Init(n, queueCap, bufCap), actions), sym)
    requires forall x <- LaneOf(Exec(Init(n, queueCap, bufCap), actions), sym).served :: x.symbol == sym
    ensures var s := Exec(Init(n, queueCap, bufCap), actions);
      var l := LaneOf(s, sym);
      && CanonNeeded(Deltas(ForSymbol(s.accepted, sym)), l.served)
      && l.cell.value.tracker.core == Canon(Deltas(ForSymbol(s.accepted, sym)), l.served)
  {
    var s := Exec(Init(n, queueCap, bufCap), actions);
    var l := LaneOf(s, sym);
    ShardingIsInvisible(n, queueCap, bufCap, actions, sym);
    OrderIsKept(n, queueCap, bufCap, actions, sym);
    ForSymbolIs(s.shards[ShardIndex(sym, n)].done, sym);
    assert l.done + l.queue == l.done;
    RunDetermined(bufCap, SeenIn(Init(n, queueCap, bufCap), actions, sym), sym);
    LaneRunAttended(bufCap, SeenIn(Init(n, queueCap, bufCap), actions, sym));
    assert LandedIn(l) == l.served;
  }

  // ---------- The stage fed from the store ----------

  type StageStep = a: Action | !a.Serve? witness Query(0, [])

  /** A step of a replay: one of the stage, or the store's answer to a request. */
  datatype ReplayStep = Plain(a: StageStep) | Ask(k: nat, sym: Symbol, i: nat, cancelled: bool)

  datatype Replaying = Replaying(stage: System, store: Store)

  ghost function StageAction(r: Replaying, x: ReplayStep): Action {
    match x
    case Plain(a) => a
    case Ask(k, sym, i, cancelled) => Serve(k, sym, i, AnswerStep(r.store, cancelled, sym).0)
  }

  ghost function ReplayNext(r: Replaying, x: ReplayStep): Replaying {
    var a := StageAction(r, x);
    Replaying(Next(r.stage, a),
              if x.Ask? && Enabled(r.stage, a) then AnswerStep(r.store, x.cancelled, x.sym).1 else r.store)
  }

  ghost function ReplayExec(r: Replaying, steps: seq<ReplayStep>): Replaying {
    if steps == [] then r else ReplayNext(ReplayExec(r, steps[..|steps| - 1]), steps[|steps| - 1])
  }

  /** The actions the stage takes in a replay. */
  ghost function Trace(r: Replaying, steps: seq<ReplayStep>): seq<Action> {
    if steps == [] then []
    else
      var n := |steps| - 1;
      Trace(r, steps[..n]) + [StageAction(ReplayExec(r, steps[..n]), steps[n])]
  }

  /** A replay of a recording that no snapshot has been served from yet. */
  function ReplayInit(n: nat, queueCap: nat, bufCap: int, all: map<Symbol, seq<Snapshot>>): Replaying {
    Replaying(Init(n, queueCap, bufCap), Store(all, map[]))
  }

  lemma {:induction false} TraceRuns(r: Replaying, steps: seq<ReplayStep>)
    ensures ReplayExec(r, steps).stage == Exec(r.stage, Trace(r, steps))
  {
    if steps != [] {
      hide Next, Enabled, AnswerStep;
      var n := |steps| - 1;
      TraceRuns(r, steps[..n]);
      var front, a := Trace(r, steps[..n]), StageAction(ReplayExec(r, steps[..n]), steps[n]);
      assert (front + [a])[..|front|] == front;
    }
  }

  /** A symbol has been served exactly what the store has given out for it. */
  ghost predicate ServedFromStore(r: Replaying, sym: Symbol)
    requires 0 < |r.stage.shards|
  {
    && StoreSound(r.store)
    && LaneOf(r.stage, sym).served == RecordedIn(r.store, sym)[..ServedIn(r.store, sym)]
  }

  /** What one step of the stage adds to what a symbol has been served. */
  lemma StepServes(s: System, a: Action, sym: Symbol)
    requires 0 < |s.shards| && 0 < |Next(s, a).shards|
    requires forall k :: 0 <= k < |s.shards| ==> OwnsOnly(s, k, sym)
    ensures LaneOf(Next(s, a), sym).served
         == LaneOf(s, sym).served + if Enabled(s, a) && a.Serve? && a.sym == sym && a.r.Some? then [a.r.value] else []
  {
    hide ForSymbol, ShardIndex, HandleBooks, CompleteCell, ServeCell;
    if Enabled(s, a) && a.Serve? && a.sym == sym { assert OwnsOnly(s, a.k, sym); }
    assert LaneOf(s, sym).served + [] == LaneOf(s, sym).served;
  }

  lemma ReplayStepServes(r: Replaying, x: ReplayStep, sym: Symbol)
    requires 0 < |r.stage.shards| && ServedFromStore(r, sym)
    requires forall k :: 0 <= k < |r.stage.shards| ==> OwnsOnly(r.stage, k, sym)
    requires 0 < |ReplayNext(r, x).stage.shards|
    ensures ServedFromStore(ReplayNext(r, x), sym) && ReplayNext(r, x).store.all == r.store.all
  {
    hide Next, LaneOf, OwnsOnly, StoreSound, Enabled, AnswerStep, ServedIn, RecordedIn;
    StepServes(r.stage, StageAction(r, x), sym);
    if x.Ask? { AnswersInOrder(r.store, x.cancelled, x.sym); }
    assert RecordedIn(ReplayNext(r, x).store, sym) == RecordedIn(r.store, sym) by { SameRecorded(r, x, sym); }
  }

  lemma SameRecorded(r: Replaying, x: ReplayStep, sym: Symbol)
    ensures RecordedIn(ReplayNext(r, x).store, sym) == RecordedIn(r.store, sym)
  {
    hide Next, Enabled;
  }

  /** In every replay, the snapshots a symbol has been served are a prefix of the
  ones recorded for it. */
  lemma {:induction false} ServedIsPrefix(
      n: nat, queueCap: nat, bufCap: int, all: map<Symbol, seq<Snapshot>>, steps: seq<ReplayStep>, sym: Symbol)
    requires 0 < n && StoreSound(Store(all, map[]))
    ensures var r := ReplayExec(ReplayInit(n, queueCap, bufCap, all), steps);
      |r.stage.shards| == n && r.store.all == all && ServedFromStore(r, sym)
  {
    var r0 := ReplayInit(n, queueCap, bufCap, all);
    TraceRuns(r0, steps);
    ShardCount(r0.stage, Trace(r0, steps));
    if steps != [] {
      hide ReplayNext, LaneOf, StoreSound, OwnsOnly, QueuesRoutable;
      var m := |steps| - 1;
      ServedIsPrefix(n, queueCap, bufCap, all, steps[..m], sym);
      TraceRuns(r0, steps[..m]);
      ShardingIsInvisible(n, queueCap, bufCap, Trace(r0, steps[..m]), sym);
      OrderIsKept(n, queueCap, bufCap, Trace(r0, steps[..m]), sym);
      ReplayStepServes(ReplayExec(r0, steps[..m]), steps[m], sym);
    }
  }

  /** A settled replay without an overflow has the book its recording determines. */
  lemma ReplayIsCanonical(
      n: nat, queueCap: nat, bufCap: int, all: map<Symbol, seq<Snapshot>>, steps: seq<ReplayStep>, sym: Symbol)
    requires 0 < n && StoreSound(Store(all, map[]))
    requires 0 < |ReplayExec(ReplayInit(n, queueCap, bufCap, all), steps).stage.shards|
    requires Settled(ReplayExec(ReplayInit(n, queueCap, bufCap, all), steps).stage, sym)
    requires NothingDropped(ReplayExec(ReplayInit(n, queueCap, bufCap, all), steps).stage, sym)
    ensures var s := ReplayExec(ReplayInit(n, queueCap, bufCap, all), steps).stage;
      var l, ds := LaneOf(s, sym), Deltas(ForSymbol(s.accepted, sym));
      && l.served <= ServedTo(all, sym)
      && CanonNeeded(ds, l.served) && l.cell.value.tracker.core == Canon(ds, l.served)
  {
    hide Settled, NothingDropped, ForSymbol, Canon, CanonNeeded;
    var r0 := ReplayInit(n, queueCap, bufCap, all);
    ServedIsPrefix(n, queueCap, bufCap, all, steps, sym);
    TraceRuns(r0, steps);
    hide ReplayExec, LaneOf;
    SettledIsCanonical(n, queueCap, bufCap, Trace(r0, steps), sym);
  }

  /** Two replays of one recording agree.  Whatever the number of shards, the
  queue and buffer sizes, the interleaving of routing, handling and fetching,
  and the requests that failed on the way: if both runs routed the same deltas
  for a symbol, both settled and neither overflowed its buffer, then its book,
  position, buffer and bounds are the same, and so are the snapshots it took to
  get there. */
  lemma ReplaysAgree(all: map<Symbol, seq<Snapshot>>, sym: Symbol,
                     n1: nat, q1: nat, b1: int, steps1: seq<ReplayStep>,
                     n2: nat, q2: nat, b2: int, steps2: seq<ReplayStep>)
    requires 0 < n1 && 0 < n2 && StoreSound(Store(all, map[]))
    requires 0 < |ReplayExec(ReplayInit(n1, q1, b1, all), steps1).stage.shards|
    requires 0 < |ReplayExec(ReplayInit(n2, q2, b2, all), steps2).stage.shards|
    requires Settled(ReplayExec(ReplayInit(n1, q1, b1, all), steps1).stage, sym)
    requires Settled(ReplayExec(ReplayInit(n2, q2, b2, all), steps2).stage, sym)
    requires NothingDropped(ReplayExec(ReplayInit(n1, q1, b1, all), steps1).stage, sym)
    requires NothingDropped(ReplayExec(ReplayInit(n2, q2, b2, all), steps2).stage, sym)
    requires Deltas(ForSymbol(ReplayExec(ReplayInit(n1, q1, b1, all), steps1).stage.accepted, sym))
          == Deltas(ForSymbol(ReplayExec(ReplayInit(n2, q2, b2, all), steps2).stage.accepted, sym))
    ensures var l1 := LaneOf(ReplayExec(ReplayInit(n1, q1, b1, all), steps1).stage, sym);
      var l2 := LaneOf(ReplayExec(ReplayInit(n2, q2, b2, all), steps2).stage, sym);
      l1.cell.value.tracker.core == l2.cell.value.tracker.core && l1.served == l2.served
  {
    hide ReplayExec, ForSymbol, Canon, CanonNeeded;
    var s1, s2 := ReplayExec(ReplayInit(n1, q1, b1, all), steps1).stage, ReplayExec(ReplayInit(n2, q2, b2, all), steps2).stage;
    ReplayIsCanonical(n1, q1, b1, all, steps1, sym);
    ReplayIsCanonical(n2, q2, b2, all, steps2, sym);
    var l1, l2, list := LaneOf(s1, sym), LaneOf(s2, sym), ServedTo(all, sym);
    assert l1.served == list[..|l1.served|] && l2.served == list[..|l2.served|];
    LiveIsUnique(Deltas(ForSymbol(s1.accepted, sym)), list, |l1.served|, |l2.served|);
  }
}
