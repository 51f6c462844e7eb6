/** What holds in every reachable state of the book stage. */
module ShardTheorems {
  import opened MarketModel
  import opened BookSpec
  import opened TrackerSpec
  import opened Position
  import opened Confluence
  import opened ShardSpec

  // ---------- One symbol's view ----------

  function ForSymbol(evs: seq<Event>, sym: Symbol): seq<Event> {
    if evs == [] then []
    else
      var n := |evs| - 1;
      ForSymbol(evs[..n], sym) + if EventSymbol(evs[n]) == Some(sym) then [evs[n]] else []
  }

  lemma ForSymbolSnoc(evs: seq<Event>, ev: Event, sym: Symbol)
    ensures ForSymbol(evs + [ev], sym) == ForSymbol(evs, sym) + if EventSymbol(ev) == Some(sym) then [ev] else []
  {
    assert (evs + [ev])[..|evs|] == evs;
  }

  lemma {:induction false} ForSymbolHead(evs: seq<Event>, sym: Symbol)
    requires evs != []
    ensures ForSymbol(evs, sym) == (if EventSymbol(evs[0]) == Some(sym) then [evs[0]] else []) + ForSymbol(evs[1..], sym)
  {
    var n := |evs| - 1;
    if n == 0 {
      assert ForSymbol(evs[..0], sym) == [] == ForSymbol(evs[1..], sym);
    } else {
      ForSymbolHead(evs[..n], sym);
      assert evs[..n][1..] == evs[1..][..n - 1];
    }
  }

  /** Everything the stage does for one symbol: what it has handled, what is
  waiting, the book with its requests, and the snapshots they were given. */
  datatype Lane = Lane(done: seq<Event>, queue: seq<Event>, cell: Option<Cell>, served: seq<Snapshot>)

  ghost function LaneOf(s: System, sym: Symbol): Lane
    requires 0 < |s.shards|
  {
    var sh := s.shards[ShardIndex(sym, |s.shards|)];
    Lane(ForSymbol(sh.done, sym), ForSymbol(sh.queue, sym), Get(sh.books, sym), ServedTo(sh.served, sym))
  }

  datatype LaneAction = Accept(ev: Event) | Take | Give(i: nat, r: Option<Snapshot>) | Finish(i: nat)

  ghost predicate LaneEnabled(l: Lane, a: LaneAction) {
    match a
    case Accept(_) => true
    case Take => l.queue != []
    case Give(i, _) => l.cell.Some? && CanServe(l.cell.value, i)
    case Finish(i) => l.cell.Some? && CanComplete(l.cell.value, i)
  }

  ghost function LaneNext(l: Lane, cap: int, a: LaneAction): Lane {
    if !LaneEnabled(l, a) then l
    else match a
      case Accept(ev) => l.(queue := l.queue + [ev])
      case Take =>
        l.(queue := l.queue[1..], done := l.done + [l.queue[0]], cell := HandleCell(l.cell, cap, l.queue[0]))
      case Give(i, r) =>
        l.(cell := Some(ServeCell(l.cell.value, i, r)), served := l.served + if r.Some? then [r.value] else [])
      case Finish(i) => l.(cell := Some(CompleteCell(l.cell.value, i)))
  }

  ghost function LaneExec(l: Lane, cap: int, actions: seq<LaneAction>): Lane {
    if actions == [] then l else LaneNext(LaneExec(l, cap, actions[..|actions| - 1]), cap, actions[|actions| - 1])
  }

  const EMPTY_LANE := Lane([], [], None, [])

  /** What an action of the stage is to one symbol: an action of its lane, or nothing. */
  ghost function Seen(s: System, a: Action, sym: Symbol): seq<LaneAction>
    requires 0 < |s.shards|
  {
    var k0 := ShardIndex(sym, |s.shards|);
    if !Enabled(s, a) then []
    else match a
      case Route(ev) => if EventSymbol(ev) == Some(sym) then [Accept(ev)] else []
      case Handle(k) => if k == k0 && EventSymbol(s.shards[k].queue[0]) == Some(sym) then [Take] else []
      case Serve(k, x, i, r) => if k == k0 && x == sym then [Give(i, r)] else []
      case Complete(k, x, i) => if k == k0 && x == sym then [Finish(i)] else []
      case Query(_, _) => []
  }

  ghost function SeenIn(s: System, actions: seq<Action>, sym: Symbol): seq<LaneAction>
    requires 0 < |s.shards|
  {
    if actions == [] then []
    else
      var n := |actions| - 1;
      ShardCount(s, actions[..n]);
      SeenIn(s, actions[..n], sym) + Seen(Exec(s, actions[..n]), actions[n], sym)
  }

  lemma {:induction false} ShardCount(s: System, actions: seq<Action>)
    ensures |Exec(s, actions).shards| == |s.shards|
    ensures Exec(s, actions).bufCap == s.bufCap && Exec(s, actions).queueCap == s.queueCap
  {
    if actions != [] { ShardCount(s, actions[..|actions| - 1]); }
  }

  /** An event with no book effect leaves the cell of its symbol alone. */
  lemma HandleBooksAt(m: map<Symbol, Cell>, cap: int, ev: Event, sym: Symbol)
    requires EventSymbol(ev).Some?
    ensures Get(HandleBooks(m, cap, ev), sym) ==
            if EventSymbol(ev).value == sym then HandleCell(Get(m, sym), cap, ev) else Get(m, sym)
  {
  }

  /** Handling an event of this symbol is taking it from the lane's queue. */
  lemma HandleOwn(s: System, k: nat, sym: Symbol)
    requires Enabled(s, Handle(k)) && k == ShardIndex(sym, |s.shards|)
    requires EventSymbol(s.shards[k].queue[0]) == Some(sym)
    ensures LaneOf(s, sym).queue != [] && LaneOf(s, sym).queue[0] == s.shards[k].queue[0]
    ensures LaneOf(Next(s, Handle(k)), sym) == LaneNext(LaneOf(s, sym), s.bufCap, Take)
  {
    hide HandleCell, ForSymbol, ShardIndex;
    var sh := s.shards[k];
    var ev, l := sh.queue[0], LaneOf(s, sym);
    ForSymbolHead(sh.queue, sym);
    ForSymbolSnoc(sh.done, ev, sym);
    HandleBooksAt(sh.books, s.bufCap, ev, sym);
    hide HandleBooks;
    var rest := ForSymbol(sh.queue[1..], sym);
    assert l.queue == [ev] + rest && l.queue[1..] == rest;
  }

  /** Handling an event of another symbol is nothing to the lane. */
  lemma HandleOther(s: System, k: nat, sym: Symbol)
    requires Enabled(s, Handle(k)) && k == ShardIndex(sym, |s.shards|)
    requires EventSymbol(s.shards[k].queue[0]).Some? && EventSymbol(s.shards[k].queue[0]) != Some(sym)
    ensures LaneOf(Next(s, Handle(k)), sym) == LaneOf(s, sym)
  {
    hide HandleCell, ForSymbol, ShardIndex;
    var sh := s.shards[k];
    var ev, l := sh.queue[0], LaneOf(s, sym);
    ForSymbolHead(sh.queue, sym);
    ForSymbolSnoc(sh.done, ev, sym);
    HandleBooksAt(sh.books, s.bufCap, ev, sym);
    hide HandleBooks;
    var rest := ForSymbol(sh.queue[1..], sym);
    assert l.queue == [] + rest == rest;
    assert l.done + [] == l.done;
  }

  lemma HandleSeen(s: System, k: nat, sym: Symbol)
    requires Enabled(s, Handle(k)) && EventSymbol(s.shards[k].queue[0]).Some? && k == ShardIndex(sym, |s.shards|)
    ensures LaneOf(Next(s, Handle(k)), sym) == LaneExec(LaneOf(s, sym), s.bufCap, Seen(s, Handle(k), sym))
  {
    hide LaneOf, Next, LaneNext, LaneExec, ShardIndex;
    if EventSymbol(s.shards[k].queue[0]) == Some(sym) {
      HandleOwn(s, k, sym);
      LaneExecOne(LaneOf(s, sym), s.bufCap, Take);
    } else {
      HandleOther(s, k, sym);
      LaneExecNone(LaneOf(s, sym), s.bufCap);
    }
  }

  lemma LaneExecNone(l: Lane, cap: int)
    ensures LaneExec(l, cap, []) == l
  {
  }

  lemma LaneExecOne(l: Lane, cap: int, a: LaneAction)
    ensures LaneExec(l, cap, [a]) == LaneNext(l, cap, a)
  {
    hide LaneNext;
    assert [a][..0] == [];
    assert LaneExec(l, cap, []) == l;
  }

  ghost predicate QueuesRoutable(s: System) {
    forall k, j :: 0 <= k < |s.shards| && 0 <= j < |s.shards[k].queue| ==> EventSymbol(s.shards[k].queue[j]).Some?
  }

  lemma StaysRoutable(s: System, a: Action)
    requires QueuesRoutable(s)
    ensures QueuesRoutable(Next(s, a))
  {
  }

  lemma RouteSeen(s: System, ev: Event, sym: Symbol)
    requires Enabled(s, Route(ev))
    ensures LaneOf(Next(s, Route(ev)), sym) == LaneExec(LaneOf(s, sym), s.bufCap, Seen(s, Route(ev), sym))
  {
    hide ForSymbol, HandleCell, ShardIndex;
    var l := LaneOf(s, sym);
    ForSymbolSnoc(s.shards[ShardIndex(sym, |s.shards|)].queue, ev, sym);
    if EventSymbol(ev) == Some(sym) {
      LaneExecOne(l, s.bufCap, Accept(ev));
    } else {
      assert l.queue + [] == l.queue;
    }
  }

  lemma FetchSeen(s: System, a: Action, sym: Symbol)
    requires Enabled(s, a) && (a.Serve? || a.Complete?)
    ensures LaneOf(Next(s, a), sym) == LaneExec(LaneOf(s, sym), s.bufCap, Seen(s, a, sym))
  {
    hide ForSymbol, CompleteCell, ServeCell, ShardIndex;
    if a.k == ShardIndex(sym, |s.shards|) && a.sym == sym {
      LaneExecOne(LaneOf(s, sym), s.bufCap, if a.Serve? then Give(a.i, a.r) else Finish(a.i));
    }
  }

  /** One step of the stage is at most one step of each lane. */
  lemma StepSeen(s: System, a: Action, sym: Symbol)
    requires 0 < |s.shards| && QueuesRoutable(s)
    ensures LaneOf(Next(s, a), sym) == LaneExec(LaneOf(s, sym), s.bufCap, Seen(s, a, sym))
  {
    hide LaneNext, ForSymbol, ShardIndex, HandleBooks, CompleteCell, ServeCell;
    if Enabled(s, a) {
      match a
      case Route(ev) => RouteSeen(s, ev, sym);
      case Handle(k) => if k == ShardIndex(sym, |s.shards|) { HandleSeen(s, k, sym); }
      case Serve(_, _, _, _) => FetchSeen(s, a, sym);
      case Complete(_, _, _) => FetchSeen(s, a, sym);
      case Query(_, _) =>
    }
  }

  lemma {:induction false} LaneExecSplits(l: Lane, cap: int, x: seq<LaneAction>, y: seq<LaneAction>)
    ensures LaneExec(l, cap, x + y) == LaneExec(LaneExec(l, cap, x), cap, y)
    decreases |y|
  {
    if y == [] {
      assert x + y == x;
    } else {
      assert (x + y)[..|x + y| - 1] == x + y[..|y| - 1];
      LaneExecSplits(l, cap, x, y[..|y| - 1]);
    }
  }

  /** Sharding is invisible: for every number of shards and every interleaving,
  what a symbol experiences is the run of a lane of its own, fed with the
  actions that concern it and with nothing else of the stage in it. */
  lemma {:induction false} ShardingIsInvisible(n: nat, queueCap: nat, bufCap: int, actions: seq<Action>, sym: Symbol)
    requires 0 < n
    ensures |Exec(Init(n, queueCap, bufCap), actions).shards| == n
    ensures QueuesRoutable(Exec(Init(n, queueCap, bufCap), actions))
    ensures LaneOf(Exec(Init(n, queueCap, bufCap), actions), sym)
         == LaneExec(EMPTY_LANE, bufCap, SeenIn(Init(n, queueCap, bufCap), actions, sym))
  {
    var s0 := Init(n, queueCap, bufCap);
    ShardCount(s0, actions);
    if actions != [] {
      var k := |actions| - 1;
      ShardingIsInvisible(n, queueCap, bufCap, actions[..k], sym);
      ShardCount(s0, actions[..k]);
      var s := Exec(s0, actions[..k]);
      StepSeen(s, actions[k], sym);
      StaysRoutable(s, actions[k]);
      LaneExecSplits(EMPTY_LANE, bufCap, SeenIn(s0, actions[..k], sym), Seen(s, actions[k], sym));
    }
  }

  // ---------- Ownership and order ----------

  ghost predicate OwnsOnly(s: System, k: nat, sym: Symbol)
    requires k < |s.shards|
  {
    k != ShardIndex(sym, |s.shards|) ==>
      && ForSymbol(s.shards[k].queue, sym) == [] && ForSymbol(s.shards[k].done, sym) == []
      && sym !in s.shards[k].books
  }

  lemma StepOwns(s: System, a: Action, sym: Symbol, k: nat)
    requires 0 < |s.shards| && QueuesRoutable(s) && k < |s.shards| && OwnsOnly(s, k, sym)
    ensures |Next(s, a).shards| == |s.shards| && OwnsOnly(Next(s, a), k, sym)
  {
    if Enabled(s, a) && k != ShardIndex(sym, |s.shards|) {
      var sh := s.shards[k];
      match a
      case Route(ev) => ForSymbolSnoc(sh.queue, ev, sym);
      case Handle(k') =>
        if k' == k {
          ForSymbolHead(sh.queue, sym);
          ForSymbolSnoc(sh.done, sh.queue[0], sym);
          HandleBooksAt(sh.books, s.bufCap, sh.queue[0], sym);
        }
      case Serve(_, _, _, _) =>
      case Complete(_, _, _) =>
      case Query(_, _) =>
    }
  }

  /** A lane is first in, first out. */
  lemma LaneKeepsOrder(l: Lane, cap: int, a: LaneAction)
    ensures var l' := LaneNext(l, cap, a);
      l'.done + l'.queue == l.done + l.queue + if a.Accept? then [a.ev] else []
  {
  }

  lemma StepKeepsOrder(s: System, a: Action, sym: Symbol)
    requires 0 < |s.shards| && QueuesRoutable(s)
    requires ForSymbol(s.accepted, sym) == LaneOf(s, sym).done + LaneOf(s, sym).queue
    ensures ForSymbol(Next(s, a).accepted, sym) == LaneOf(Next(s, a), sym).done + LaneOf(Next(s, a), sym).queue
  {
    StepSeen(s, a, sym);
    var l, seen := LaneOf(s, sym), Seen(s, a, sym);
    if Enabled(s, a) && a.Route? {
      ForSymbolSnoc(s.accepted, a.ev, sym);
    }
    if seen == [] {
      assert ForSymbol(s.accepted, sym) + [] == ForSymbol(s.accepted, sym);
    } else {
      assert seen == [seen[0]];
      LaneExecOne(l, s.bufCap, seen[0]);
      LaneKeepsOrder(l, s.bufCap, seen[0]);
    }
  }

  /** Every event of a symbol goes to one shard, and the events handled there,
  followed by those waiting, are the symbol's accepted events in their order:
  what a tracker has seen is always a prefix of what was routed to it. */
  lemma {:induction false} OrderIsKept(n: nat, queueCap: nat, bufCap: int, actions: seq<Action>, sym: Symbol)
    requires 0 < n
    ensures var s := Exec(Init(n, queueCap, bufCap), actions);
      && |s.shards| == n
      && ForSymbol(s.accepted, sym) == LaneOf(s, sym).done + LaneOf(s, sym).queue
      && forall k :: 0 <= k < n ==> OwnsOnly(s, k, sym)
  {
    hide Next;
    var s0 := Init(n, queueCap, bufCap);
    ShardCount(s0, actions);
    if actions != [] {
      var m := |actions| - 1;
      OrderIsKept(n, queueCap, bufCap, actions[..m], sym);
      ShardingIsInvisible(n, queueCap, bufCap, actions[..m], sym);
      var s := Exec(s0, actions[..m]);
      StepKeepsOrder(s, actions[m], sym);
      forall k | 0 <= k < n ensures |Next(s, actions[m]).shards| == n && OwnsOnly(Next(s, actions[m]), k, sym) {
        StepOwns(s, actions[m], sym, k);
      }
    }
  }

  lemma {:induction false} ForSymbolIs(evs: seq<Event>, sym: Symbol)
    ensures forall i :: 0 <= i < |ForSymbol(evs, sym)| ==> EventSymbol(ForSymbol(evs, sym)[i]) == Some(sym)
  {
    if evs != [] { ForSymbolIs(evs[..|evs| - 1], sym); }
  }

  /** The deltas of a symbol among some events. */
  function DeltasFor(evs: seq<Event>, sym: Symbol): seq<BookDelta> {
    if evs == [] then []
    else
      var n := |evs| - 1;
      DeltasFor(evs[..n], sym) + if evs[n].Delta? && evs[n].delta.symbol == sym then [evs[n].delta] else []
  }

  lemma {:induction false} DeltasAmongOwn(evs: seq<Event>, sym: Symbol)
    ensures DeltasFor(ForSymbol(evs, sym), sym) == DeltasFor(evs, sym)
  {
    if evs != [] {
      var n := |evs| - 1;
      var front := ForSymbol(evs[..n], sym);
      DeltasAmongOwn(evs[..n], sym);
      if EventSymbol(evs[n]) == Some(sym) {
        assert (front + [evs[n]])[..|front|] == front;
      } else {
        assert front + [] == front;
      }
    }
  }

  lemma {:induction false} DeltasConcat(a: seq<Event>, b: seq<Event>, sym: Symbol)
    ensures DeltasFor(a + b, sym) == DeltasFor(a, sym) + DeltasFor(b, sym)
    decreases |b|
  {
    if b == [] {
      assert a + b == a;
    } else {
      assert (a + b)[..|a + b| - 1] == a + b[..|b| - 1];
      DeltasConcat(a, b[..|b| - 1], sym);
    }
  }

  /** The deltas a symbol's shard has handled, followed by those in its queue, are
  the symbol's routed deltas in order, and no other shard has any of them. */
  lemma HandledDeltasArePrefix(n: nat, queueCap: nat, bufCap: int, actions: seq<Action>, sym: Symbol)
    requires 0 < n
    ensures var s := Exec(Init(n, queueCap, bufCap), actions);
      |s.shards| == n && forall k :: 0 <= k < n ==>
        var sh := s.shards[k];
        DeltasFor(sh.done, sym) + DeltasFor(sh.queue, sym)
        == if k == ShardIndex(sym, n) then DeltasFor(s.accepted, sym) else []
  {
    hide Exec, Init;
    OrderIsKept(n, queueCap, bufCap, actions, sym);
    var s := Exec(Init(n, queueCap, bufCap), actions);
    DeltasAmongOwn(s.accepted, sym);
    forall k | 0 <= k < n
      ensures var sh := s.shards[k];
        DeltasFor(sh.done, sym) + DeltasFor(sh.queue, sym)
        == if k == ShardIndex(sym, n) then DeltasFor(s.accepted, sym) else []
    {
      var sh := s.shards[k];
      assert OwnsOnly(s, k, sym);
      DeltasAmongOwn(sh.done, sym);
      DeltasAmongOwn(sh.queue, sym);
      DeltasConcat(ForSymbol(sh.done, sym), ForSymbol(sh.queue, sym), sym);
    }
  }

  /** Routing waits for room in the symbol's queue and for nothing else; an event
  that carries no symbol is never routed. */
  lemma RouteWaitsForRoom(s: System, sym: Symbol, d: BookDelta, snap: Snapshot)
    requires 0 < |s.shards| && d.symbol == sym && snap.symbol == sym
    ensures var room := |s.shards[ShardIndex(sym, |s.shards|)].queue| < s.queueCap;
      && (Enabled(s, Route(Trade(sym))) <==> room)
      && (Enabled(s, Route(Delta(d))) <==> room)
      && (Enabled(s, Route(Snap(snap))) <==> room)
      && !Enabled(s, Route(Unknown))
  {
    hide ShardIndex;
  }

  // ---------- A book is a tracker's run ----------

  /** The calls an action of the lane makes on its tracker: the event or the answer,
  and then a fetch if one is due; a new book asks for its first snapshot before
  anything else. */
  ghost function LaneCalls(l: Lane, a: LaneAction): seq<Call> {
    if !LaneEnabled(l, a) then []
    else match a
      case Take =>
        var first := if l.cell.None? then [Begin] else [];
        (match l.queue[0]
         case Delta(d) => first + [Deliver(d), Begin]
         case Snap(s) => first + [Land(s), Begin]
         case _ => [])
      case Finish(i) => [if l.cell.value.flight[i].result.Some? then Land(l.cell.value.flight[i].result.value) else Fail, Begin]
      case _ => []
  }

  ghost function CallsOf(cap: int, actions: seq<LaneAction>): seq<Call> {
    if actions == [] then []
    else
      var n := |actions| - 1;
      CallsOf(cap, actions[..n]) + LaneCalls(LaneExec(EMPTY_LANE, cap, actions[..n]), actions[n])
  }

  lemma RunTwo(t: State, a: Call, b: Call)
    ensures Run(t, [a, b]) == Step(Step(t, a), b) && Run(t, [a]) == Step(t, a) && Run(t, []) == t
  {
    hide Step;
    RunSnoc(t, [], a);
    RunSnoc(t, [a], b);
    assert [] + [a] == [a] && [a] + [b] == [a, b];
  }

  /** A fetch after some step is Begin. */
  lemma FetchIsBegin(c: Cell)
    ensures Fetch(c).tracker == Step(c.tracker, Begin)
  {
  }

  lemma StepCalls(l: Lane, cap: int, a: LaneAction, sym: Symbol)
    requires l.queue != [] ==> EventSymbol(l.queue[0]) == Some(sym)
    ensures var l' := LaneNext(l, cap, a);
      && (l.cell.Some? ==> l'.cell.Some? && l'.cell.value.tracker == Run(l.cell.value.tracker, LaneCalls(l, a)))
      && (l.cell.None? && l'.cell.Some? ==> l'.cell.value.tracker == Run(NewState(sym, cap), LaneCalls(l, a)))
      && (l.cell.None? && l'.cell.None? ==> LaneCalls(l, a) == [])
  {
    hide ApplyStep, LoadStep, BeginFetchStep, FetchFailedStep, Run, NewState, Fetch;
    if LaneEnabled(l, a) {
      match a
      case Accept(_) => RunNone(l);
      case Give(_, _) => RunNone(l);
      case Finish(i) =>
        var c, r := l.cell.value, l.cell.value.flight[i].result;
        var call := if r.Some? then Land(r.value) else Fail;
        assert LaneCalls(l, a) == [call, Begin];
        RunTwo(c.tracker, call, Begin);
        FetchIsBegin(Cell(Step(c.tracker, call), c.flight[..i] + c.flight[i + 1..]));
      case Take =>
        var ev := l.queue[0];
        if ev.Delta? || ev.Snap? {
          var call := if ev.Delta? then Deliver(ev.delta) else Land(ev.snap);
          TakeCalls(l, cap, sym, call);
        } else {
          RunNone(l);
        }
    } else {
      RunNone(l);
    }
  }

  lemma RunNone(l: Lane)
    ensures l.cell.Some? ==> Run(l.cell.value.tracker, []) == l.cell.value.tracker
  {
  }

  lemma TakeCalls(l: Lane, cap: int, sym: Symbol, call: Call)
    requires l.queue != [] && EventSymbol(l.queue[0]) == Some(sym)
    requires match l.queue[0] case Delta(d) => call == Deliver(d) case Snap(s) => call == Land(s) case _ => false
    ensures var l' := LaneNext(l, cap, Take);
      var t := if l.cell.Some? then l.cell.value.tracker else NewState(sym, cap);
      l'.cell.Some? && l'.cell.value.tracker == Run(t, LaneCalls(l, Take))
  {
    hide ApplyStep, LoadStep, BeginFetchStep, Run, NewState, Fetch;
    var t := if l.cell.Some? then l.cell.value.tracker else NewState(sym, cap);
    var c := CellFor(l.cell, sym, cap);
    FetchIsBegin(Cell(NewState(sym, cap), []));
    FetchIsBegin(c.(tracker := Step(c.tracker, call)));
    if l.cell.Some? {
      assert LaneCalls(l, Take) == [call, Begin];
      RunTwo(t, call, Begin);
    } else {
      assert LaneCalls(l, Take) == [Begin] + [call, Begin];
      RunTwo(t, Begin, Begin);
      RunTwo(Step(t, Begin), call, Begin);
      RunSplits(t, [Begin], [call, Begin]);
    }
  }

  /** For one symbol the stage is a tracker and nothing else: in every run of a lane
  its book is the tracker of that symbol, with the capacity configured, after the
  calls the lane made on it. */
  lemma {:induction false} LaneIsTrackerRun(cap: int, actions: seq<LaneAction>, sym: Symbol)
    requires forall x <- actions :: x.Accept? ==> EventSymbol(x.ev) == Some(sym)
    ensures var l := LaneExec(EMPTY_LANE, cap, actions);
      && (forall ev <- l.queue :: EventSymbol(ev) == Some(sym))
      && (l.cell.Some? ==> l.cell.value.tracker == Run(NewState(sym, cap), CallsOf(cap, actions)))
      && (l.cell.None? ==> CallsOf(cap, actions) == [])
  {
    if actions != [] {
      hide HandleCell, CompleteCell, ServeCell, LaneCalls, Run, NewState;
      var n := |actions| - 1;
      var l, calls := LaneExec(EMPTY_LANE, cap, actions[..n]), CallsOf(cap, actions[..n]);
      LaneIsTrackerRun(cap, actions[..n], sym);
      assert l.queue != [] ==> l.queue[0] in l.queue;
      StepCalls(l, cap, actions[n], sym);
      RunSplits(NewState(sym, cap), calls, LaneCalls(l, actions[n]));
      QueueKeepsSymbol(l, cap, actions[n], sym);
      assert [] + LaneCalls(l, actions[n]) == LaneCalls(l, actions[n]);
      assert calls + [] == calls;
    }
  }

  lemma QueueKeepsSymbol(l: Lane, cap: int, a: LaneAction, sym: Symbol)
    requires forall ev <- l.queue :: EventSymbol(ev) == Some(sym)
    requires a.Accept? ==> EventSymbol(a.ev) == Some(sym)
    ensures forall ev <- LaneNext(l, cap, a).queue :: EventSymbol(ev) == Some(sym)
  {
    hide HandleCell, CompleteCell, ServeCell;
    assert forall ev <- LaneNext(l, cap, a).queue :: ev in l.queue || (a.Accept? && ev == a.ev);
  }

  lemma {:induction false} SeenAreOwn(s: System, actions: seq<Action>, sym: Symbol)
    requires 0 < |s.shards|
    ensures forall x <- SeenIn(s, actions, sym) :: x.Accept? ==> EventSymbol(x.ev) == Some(sym)
  {
    if actions != [] {
      var n := |actions| - 1;
      SeenAreOwn(s, actions[..n], sym);
      ShardCount(s, actions[..n]);
      hide Exec, Enabled;
      assert forall x <- Seen(Exec(s, actions[..n]), actions[n], sym) :: x.Accept? ==> EventSymbol(x.ev) == Some(sym);
    }
  }

  /** The same of the whole stage. */
  lemma BookIsTrackerRun(n: nat, queueCap: nat, bufCap: int, actions: seq<Action>, sym: Symbol)
    requires 0 < n
    ensures var s := Exec(Init(n, queueCap, bufCap), actions);
      |s.shards| == n && var l := LaneOf(s, sym);
      l.cell.Some? ==>
        l.cell.value.tracker == Run(NewState(sym, bufCap), CallsOf(bufCap, SeenIn(Init(n, queueCap, bufCap), actions, sym)))
  {
    hide Run, NewState;
    ShardingIsInvisible(n, queueCap, bufCap, actions, sym);
    SeenAreOwn(Init(n, queueCap, bufCap), actions, sym);
    LaneIsTrackerRun(bufCap, SeenIn(Init(n, queueCap, bufCap), actions, sym), sym);
  }

  // ---------- No book is stranded ----------

  function SnapCount(evs: seq<Event>): nat {
    if evs == [] then 0
    else SnapCount(evs[..|evs| - 1]) + if evs[|evs| - 1].Snap? then 1 else 0
  }

  ghost predicate LaneAttended(l: Lane) {
    l.cell.Some? ==> Attended(l.cell.value, SnapCount(l.done))
  }

  lemma LaneStaysAttended(l: Lane, cap: int, a: LaneAction)
    requires LaneAttended(l)
    ensures LaneAttended(LaneNext(l, cap, a))
  {
    if LaneEnabled(l, a) {
      match a
      case Accept(_) =>
      case Take =>
        HandleAttended(l.cell, cap, l.queue[0], SnapCount(l.done));
        assert (l.done + [l.queue[0]])[..|l.done|] == l.done;
      case Give(_, _) =>
      case Finish(i) => CompleteAttended(l.cell.value, i, SnapCount(l.done));
    }
  }

  lemma {:induction false} LaneRunAttended(cap: int, actions: seq<LaneAction>)
    ensures LaneAttended(LaneExec(EMPTY_LANE, cap, actions))
  {
    if actions != [] {
      var n := |actions| - 1;
      LaneRunAttended(cap, actions[..n]);
      LaneStaysAttended(LaneExec(EMPTY_LANE, cap, actions[..n]), cap, actions[n]);
    }
  }

  /** The snapshots routed to a book that was not live, less the requests that
  came back to one that was. */
  ghost function Surplus(cap: int, actions: seq<LaneAction>): int {
    if actions == [] then 0
    else
      var n := |actions| - 1;
      var l := LaneExec(EMPTY_LANE, cap, actions[..n]);
      Surplus(cap, actions[..n]) + StepSurplus(l, actions[n])
  }

  ghost function StepSurplus(l: Lane, a: LaneAction): int {
    if !LaneEnabled(l, a) then 0
    else match a
      case Take => if l.queue[0].Snap? && !(l.cell.Some? && Live(l.cell.value)) then 1 else 0
      case Finish(_) => if Live(l.cell.value) then -1 else 0
      case _ => 0
  }

  lemma StepExtra(l: Lane, cap: int, a: LaneAction)
    requires LaneAttended(l)
    ensures Extra(LaneNext(l, cap, a).cell) == Extra(l.cell) + StepSurplus(l, a)
  {
    if LaneEnabled(l, a) {
      match a
      case Accept(_) =>
      case Take => HandleExtra(l.cell, cap, l.queue[0], SnapCount(l.done));
      case Give(_, _) =>
      case Finish(i) => CompleteExtra(l.cell.value, i, SnapCount(l.done));
    }
  }

  /** Exactly how many requests are in flight, in every run: one while stale and
  none once live if and only if every snapshot that was routed to a stale book
  has been paid for by a request that came back to a live one. */
  lemma {:induction false} InFlightIsExact(cap: int, actions: seq<LaneAction>)
    ensures var l := LaneExec(EMPTY_LANE, cap, actions);
      && Extra(l.cell) == Surplus(cap, actions)
      && (l.cell.Some? ==> (|l.cell.value.flight| == Due(l.cell.value) <==> Surplus(cap, actions) == 0))
  {
    if actions != [] {
      var n := |actions| - 1;
      InFlightIsExact(cap, actions[..n]);
      LaneRunAttended(cap, actions[..n]);
      StepExtra(LaneExec(EMPTY_LANE, cap, actions[..n]), cap, actions[n]);
    }
  }

  /** A snapshot is about to be handled for a book that is not live: the case in
  which Load clears a mark that stands for a request still under way. */
  ghost predicate SnapMeetsStale(s: System, a: Action, sym: Symbol)
    requires 0 < |s.shards|
  {
    var k := ShardIndex(sym, |s.shards|);
    && a.Handle? && a.k == k && Enabled(s, a)
    && s.shards[k].queue[0].Snap? && s.shards[k].queue[0].snap.symbol == sym
    && !(sym in s.shards[k].books && Live(s.shards[k].books[sym]))
  }

  /** One request in flight while stale, none once live. */
  ghost predicate OneRequestWhenStale(s: System, sym: Symbol)
    requires 0 < |s.shards|
  {
    var k := ShardIndex(sym, |s.shards|);
    sym in s.shards[k].books ==> |s.shards[k].books[sym].flight| == Due(s.shards[k].books[sym])
  }

  ghost predicate TakesStaleSnap(l: Lane, a: LaneAction) {
    a.Take? && l.queue != [] && l.queue[0].Snap? && !(l.cell.Some? && Live(l.cell.value))
  }

  lemma LaneKeepsOneRequest(l: Lane, cap: int, a: LaneAction)
    requires LaneAttended(l) && Extra(l.cell) == 0
    ensures Extra(LaneNext(l, cap, a).cell) == 0 <==> !TakesStaleSnap(l, a)
  {
    hide LaneNext;
    StepExtra(l, cap, a);
  }

  lemma SnapMeetsStaleSeen(s: System, a: Action, sym: Symbol)
    requires 0 < |s.shards|
    ensures SnapMeetsStale(s, a, sym) <==> exists x <- Seen(s, a, sym) :: TakesStaleSnap(LaneOf(s, sym), x)
  {
    hide ForSymbol, ShardIndex, Next;
    var seen := Seen(s, a, sym);
    assert seen != [] ==> seen[0] in seen;
    if seen == [Take] { HandleOwn(s, a.k, sym); }
  }

  /** One step of the stage from a state with the right number in flight. */
  lemma StepKeepsOneRequest(s: System, a: Action, sym: Symbol)
    requires 0 < |s.shards| && QueuesRoutable(s) && LaneAttended(LaneOf(s, sym)) && OneRequestWhenStale(s, sym)
    requires 0 < |Next(s, a).shards|
    ensures OneRequestWhenStale(Next(s, a), sym) <==> !SnapMeetsStale(s, a, sym)
  {
    var l, seen := LaneOf(s, sym), Seen(s, a, sym);
    assert |seen| <= 1;
    StepSeen(s, a, sym);
    SnapMeetsStaleSeen(s, a, sym);
    RequestsOfLane(s, sym);
    RequestsOfLane(Next(s, a), sym);
    hide Next, LaneNext, LaneOf, Seen, SnapMeetsStale, OneRequestWhenStale, LaneAttended, TakesStaleSnap, Extra;
    if seen == [] {
      LaneExecNone(l, s.bufCap);
    } else {
      assert seen == [seen[0]];
      LaneExecOne(l, s.bufCap, seen[0]);
      LaneKeepsOneRequest(l, s.bufCap, seen[0]);
    }
  }

  lemma RequestsOfLane(s: System, sym: Symbol)
    requires 0 < |s.shards|
    ensures OneRequestWhenStale(s, sym) <==> Extra(LaneOf(s, sym).cell) == 0
  {
  }

  ghost predicate AlwaysOneRequest(n: nat, queueCap: nat, bufCap: int, actions: seq<Action>, m: nat, sym: Symbol)
    requires 0 < n && m <= |actions|
  {
    forall j :: 0 <= j <= m ==>
      var s := Exec(Init(n, queueCap, bufCap), actions[..j]);
      0 < |s.shards| && OneRequestWhenStale(s, sym)
  }

  ghost predicate NoSnapMeetsStale(n: nat, queueCap: nat, bufCap: int, actions: seq<Action>, m: nat, sym: Symbol)
    requires 0 < n && m <= |actions|
  {
    forall j :: 0 <= j < m ==>
      var s := Exec(Init(n, queueCap, bufCap), actions[..j]);
      0 < |s.shards| && !SnapMeetsStale(s, actions[j], sym)
  }

  /** The bound is exact.  Through the first `m` steps of a run a symbol has one
  request in flight whenever it is stale and none whenever it is live if and
  only if no snapshot event was handled for it while it was not live. */
  lemma {:induction false} OneRequestIffNoSnapMeetsStale(
      n: nat, queueCap: nat, bufCap: int, actions: seq<Action>, m: nat, sym: Symbol)
    requires 0 < n && m <= |actions|
    ensures AlwaysOneRequest(n, queueCap, bufCap, actions, m, sym)
       <==> NoSnapMeetsStale(n, queueCap, bufCap, actions, m, sym)
  {
    hide OneRequestWhenStale, SnapMeetsStale, Next, LaneOf, LaneAttended, QueuesRoutable;
    var s0 := Init(n, queueCap, bufCap);
    if m == 0 {
      assert actions[..0] == [];
      NothingYet(n, queueCap, bufCap, sym);
    } else {
      OneRequestIffNoSnapMeetsStale(n, queueCap, bufCap, actions, m - 1, sym);
      var s := Exec(s0, actions[..m - 1]);
      assert actions[..m][..m - 1] == actions[..m - 1];
      assert Exec(s0, actions[..m]) == Next(s, actions[m - 1]);
      ShardingIsInvisible(n, queueCap, bufCap, actions[..m - 1], sym);
      ShardCount(s0, actions[..m]);
      LaneRunAttended(bufCap, SeenIn(s0, actions[..m - 1], sym));
      hide Exec, Init;
      if AlwaysOneRequest(n, queueCap, bufCap, actions, m - 1, sym) {
        StepKeepsOneRequest(s, actions[m - 1], sym);
      }
    }
  }

  lemma NothingYet(n: nat, queueCap: nat, bufCap: int, sym: Symbol)
    requires 0 < n
    ensures var s := Exec(Init(n, queueCap, bufCap), []); 0 < |s.shards| && OneRequestWhenStale(s, sym)
  {
  }

  /** No book is stranded: in every reachable state a book that is not live has
  its fetch marked outstanding and at least one request in flight; a live one
  has none marked.  Without snapshots routed as events the number in flight is
  exactly one while stale and zero once live, which is what lets a replay
  conclude that live books on empty queues are final. */
  lemma NoBookIsStranded(n: nat, queueCap: nat, bufCap: int, actions: seq<Action>, sym: Symbol)
    requires 0 < n
    ensures var s := Exec(Init(n, queueCap, bufCap), actions);
      |s.shards| == n && var l := LaneOf(s, sym);
      l.cell.Some? ==>
        var c := l.cell.value;
        && c.tracker.fetching == !Live(c)
        && (!Live(c) ==> |c.flight| >= 1)
        && |c.flight| <= Due(c) + SnapCount(l.done)
        && (SnapCount(l.done) == 0 ==> |c.flight| == Due(c))
        && (Live(c) ==> c.tracker.core.buf == [])
  {
    ShardingIsInvisible(n, queueCap, bufCap, actions, sym);
    LaneRunAttended(bufCap, SeenIn(Init(n, queueCap, bufCap), actions, sym));
  }
}
