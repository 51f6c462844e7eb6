/** The recorder (internal/record/recorder.go): a bounded queue that drops
when full, and a writer loop that rotates files by the hour and marks the drops.

The loop is modelled step by step, so that offers may fall between any two of
its steps.  I/O succeeds, and payloads are within the size limit.
*/
module Recorders {
  import opened MarketModel
  import opened ByteData

  const NANOS_PER_HOUR: int := 3_600_000_000_000

  /** A record offered: a frame, or a snapshot in its encoded form. */
  datatype Entry = Entry(snapshot: bool, at: int, payload: Bytes)

  /** The UTC hour a record belongs to. */
  function HourOf(e: Entry): int {
    e.at / NANOS_PER_HOUR
  }

  datatype Line = MetaLine | Marker(at: int, count: nat) | EntryLine(entry: Entry)

  /** A line, with the hour of the file it was written to. */
  datatype Logged = Logged(hour: int, line: Line)

  type Files = map<int, seq<Line>>

  /** Where the writer loop is with the entry it took. */
  datatype Stage = Waiting | Rotating(entry: Entry) | Marking(entry: Entry) | Writing(entry: Entry)

  /** The recorder, with the history the theorems speak of: what was offered and
  accepted, the entries written, and every line ever written, in order. */
  datatype Recorder = Recorder(
    cap: nat, queue: seq<Entry>, dropped: nat, written: nat,
    stage: Stage, hour: Option<int>, lastDropped: nat, files: Files,
    offered: nat, accepted: seq<Entry>, done: seq<Entry>, log: seq<Logged>)

  function NewRecorder(cap: nat): Recorder {
    Recorder(cap, [], 0, 0, Waiting, None, 0, map[], 0, [], [], [])
  }

  datatype Action = Offer(entry: Entry) | Work

  /** enqueue. */
  function OfferStep(r: Recorder, e: Entry): Recorder {
    if |r.queue| < r.cap then r.(offered := r.offered + 1, queue := r.queue + [e], accepted := r.accepted + [e])
    else r.(offered := r.offered + 1, dropped := r.dropped + 1)
  }

  function Lines(files: Files, hour: int): seq<Line> {
    if hour in files then files[hour] else []
  }

  /** Append one line to the open file. */
  function Put(r: Recorder, h: int, l: Line): Recorder {
    r.(files := r.files[h := Lines(r.files, h) + [l]], written := r.written + 1, log := r.log + [Logged(h, l)])
  }

  /** openFile: whatever an earlier visit to the hour had written is truncated. */
  function Open(r: Recorder, h: int): Recorder {
    r.(hour := Some(h), files := r.files[h := [MetaLine]], written := r.written + 1, log := r.log + [Logged(h, MetaLine)])
  }

  /** One step of the writer loop. */
  function WorkStep(r: Recorder): Recorder {
    match r.stage
    case Waiting => if r.queue == [] then r else r.(queue := r.queue[1..], stage := Rotating(r.queue[0]))
    case Rotating(e) => (if r.hour == Some(HourOf(e)) then r else Open(r, HourOf(e))).(stage := Marking(e))
    case Marking(e) =>
      if r.dropped > r.lastDropped then
        Put(r, HourOf(e), Marker(e.at, r.dropped - r.lastDropped)).(stage := Writing(e), lastDropped := r.dropped)
      else r.(stage := Writing(e))
    case Writing(e) => Put(r, HourOf(e), EntryLine(e)).(stage := Waiting, done := r.done + [e])
  }

  function Next(r: Recorder, a: Action): Recorder {
    if a.Offer? then OfferStep(r, a.entry) else WorkStep(r)
  }

  function Exec(r: Recorder, actions: seq<Action>): Recorder {
    if actions == [] then r else Next(Exec(r, actions[..|actions| - 1]), actions[|actions| - 1])
  }

  // ---------- Conservation ----------

  function InHand(s: Stage): seq<Entry> {
    if s.Waiting? then [] else [s.entry]
  }

  function MarksIn(log: seq<Logged>): nat {
    if log == [] then 0
    else MarksIn(log[..|log| - 1]) + if log[|log| - 1].line.Marker? then log[|log| - 1].line.count else 0
  }

  function EntriesIn(log: seq<Logged>): seq<Entry> {
    if log == [] then []
    else EntriesIn(log[..|log| - 1]) + if log[|log| - 1].line.EntryLine? then [log[|log| - 1].line.entry] else []
  }

  lemma {:induction false} LogSnoc(log: seq<Logged>, l: Logged)
    ensures MarksIn(log + [l]) == MarksIn(log) + if l.line.Marker? then l.line.count else 0
    ensures EntriesIn(log + [l]) == EntriesIn(log) + if l.line.EntryLine? then [l.line.entry] else []
  {
    assert (log + [l])[..|log|] == log;
  }

  /** Drops not yet marked have an entry coming that will carry the mark: a
  drop happens only while the queue is full. */
  ghost predicate DropsAwaited(r: Recorder) {
    r.dropped > r.lastDropped ==> r.queue != [] || r.stage.Rotating? || r.stage.Marking?
  }

  ghost predicate Balanced(r: Recorder) {
    && 0 < r.cap && |r.queue| <= r.cap
    && r.accepted == r.done + InHand(r.stage) + r.queue
    && r.offered == |r.accepted| + r.dropped
    && r.lastDropped <= r.dropped && DropsAwaited(r)
    && EntriesIn(r.log) == r.done && MarksIn(r.log) == r.lastDropped && r.written == |r.log|
  }

  lemma {:induction false} StepBalanced(r: Recorder, a: Action)
    requires Balanced(r)
    ensures Balanced(Next(r, a))
  {
    hide EntriesIn;
    hide MarksIn;
    match a
    case Offer(e) => assert r.done + InHand(r.stage) + (r.queue + [e]) == r.done + InHand(r.stage) + r.queue + [e];
    case Work =>
      match r.stage
      case Waiting =>
        if r.queue != [] { assert r.done + [] + r.queue == r.done + [r.queue[0]] + r.queue[1..]; }
      case Rotating(e) =>
        LogSnoc(r.log, Logged(HourOf(e), MetaLine));
        assert EntriesIn(r.log) + [] == EntriesIn(r.log);
      case Marking(e) =>
        if r.dropped > r.lastDropped { LogSnoc(r.log, Logged(HourOf(e), Marker(e.at, r.dropped - r.lastDropped))); }
        assert EntriesIn(r.log) + [] == EntriesIn(r.log);
      case Writing(e) =>
        LogSnoc(r.log, Logged(HourOf(e), EntryLine(e)));
        assert r.done + [e] + r.queue == (r.done + [e]) + [] + r.queue;
  }

  /** Conservation, in every state of every run: each record offered is written,
  waiting, in the writer's hands or counted as dropped, and the accepted ones
  are written in the order they came.  Once the queue has drained, nothing
  accepted is missing and the markers written sum to the drops. */
  lemma {:induction false} NothingIsUnaccounted(cap: nat, actions: seq<Action>)
    requires 0 < cap
    ensures var r := Exec(NewRecorder(cap), actions);
      && Balanced(r)
      && r.offered == |EntriesIn(r.log)| + |InHand(r.stage)| + |r.queue| + r.dropped
      && EntriesIn(r.log) + InHand(r.stage) + r.queue == r.accepted
      && (r.queue == [] && r.stage == Waiting ==> EntriesIn(r.log) == r.accepted && MarksIn(r.log) == r.dropped)
  {
    if actions != [] {
      var n := |actions| - 1;
      NothingIsUnaccounted(cap, actions[..n]);
      StepBalanced(Exec(NewRecorder(cap), actions[..n]), actions[n]);
    }
    var r := Exec(NewRecorder(cap), actions);
    assert r.done + [] + [] == r.done;
  }

  lemma {:induction false} CapacityStays(cap: nat, actions: seq<Action>)
    ensures Exec(NewRecorder(cap), actions).cap == cap
  {
    if actions != [] { CapacityStays(cap, actions[..|actions| - 1]); }
  }

  /** In every run a step refuses an entry exactly when it offers one to a queue
  that holds as many as it was configured for; an offer to any other queue goes to
  its end. */
  lemma RefusedIffFull(cap: nat, actions: seq<Action>, a: Action)
    requires 0 < cap
    ensures var r := Exec(NewRecorder(cap), actions);
      var r' := Next(r, a);
      && |r.queue| <= cap
      && r'.dropped == r.dropped + (if a.Offer? && |r.queue| == cap then 1 else 0)
      && (a.Offer? && |r.queue| < cap ==> r'.queue == r.queue + [a.entry] && r'.accepted == r.accepted + [a.entry])
      && (a.Offer? && |r.queue| == cap ==> r'.queue == r.queue && r'.accepted == r.accepted)
  {
    NothingIsUnaccounted(cap, actions);
    CapacityStays(cap, actions);
    hide Exec;
  }

  /** The hour of an entry starts at or before it, and the next one after it. */
  lemma HourHolds(e: Entry)
    ensures HourOf(e) * 3_600_000_000_000 <= e.at < (HourOf(e) + 1) * 3_600_000_000_000
  {
  }

  /** A marker stands right before the entry that found the drops, in the same
  file and with its time. */
  ghost predicate MarkerAt(r: Recorder, i: nat)
    requires i < |r.log|
  {
    r.log[i].line.Marker? ==>
      if i + 1 < |r.log| then
        && r.log[i + 1].line.EntryLine? && r.log[i + 1].hour == r.log[i].hour
        && r.log[i].line.at == r.log[i + 1].line.entry.at
      else
        r.stage.Writing? && r.log[i].hour == HourOf(r.stage.entry) && r.log[i].line.at == r.stage.entry.at
  }

  ghost predicate MarkersPlaced(r: Recorder) {
    forall i :: 0 <= i < |r.log| ==> MarkerAt(r, i)
  }

  lemma {:induction false} StepKeepsMarkers(r: Recorder, a: Action)
    requires MarkersPlaced(r)
    ensures MarkersPlaced(Next(r, a))
  {
    hide HourOf, Lines;
    var r' := Next(r, a);
    forall i | 0 <= i < |r'.log| ensures MarkerAt(r', i) {
      if i < |r.log| { assert MarkerAt(r, i) && r'.log[i] == r.log[i]; }
    }
  }

  /** Markers sit where the holes are, in every run. */
  lemma {:induction false} MarkersPrecedeEntries(cap: nat, actions: seq<Action>)
    ensures MarkersPlaced(Exec(NewRecorder(cap), actions))
  {
    if actions != [] {
      hide Next, MarkersPlaced;
      var n := |actions| - 1;
      MarkersPrecedeEntries(cap, actions[..n]);
      StepKeepsMarkers(Exec(NewRecorder(cap), actions[..n]), actions[n]);
    }
  }

  // ---------- What the files hold ----------

  /** The lines ever written for an hour. */
  function LinesOf(log: seq<Logged>, h: int): seq<Line> {
    if log == [] then []
    else
      var n := |log| - 1;
      LinesOf(log[..n], h) + if log[n].hour == h then [log[n].line] else []
  }

  /** The lines written for an hour since its file was last opened. */
  function LastVisit(log: seq<Logged>, h: int): seq<Line> {
    if log == [] then []
    else
      var n := |log| - 1;
      if log[n].hour != h then LastVisit(log[..n], h)
      else if log[n].line.MetaLine? then [MetaLine]
      else LastVisit(log[..n], h) + [log[n].line]
  }

  lemma {:induction false} VisitSnoc(log: seq<Logged>, l: Logged, h: int)
    ensures LinesOf(log + [l], h) == LinesOf(log, h) + if l.hour == h then [l.line] else []
    ensures LastVisit(log + [l], h) ==
      if l.hour != h then LastVisit(log, h) else if l.line.MetaLine? then [MetaLine] else LastVisit(log, h) + [l.line]
  {
    assert (log + [l])[..|log|] == log;
  }

  /** The files keep every line ever written. */
  ghost predicate Survives(log: seq<Logged>) {
    forall h :: LastVisit(log, h) == LinesOf(log, h)
  }

  /** The entries whose file has been opened for them, in order. */
  function Placed(r: Recorder): seq<Entry> {
    r.done + if r.stage.Marking? || r.stage.Writing? then [r.stage.entry] else []
  }

  ghost predicate Visits(es: seq<Entry>, h: int) {
    exists i :: 0 <= i < |es| && HourOf(es[i]) == h
  }

  /** No hour is left and come back to. */
  ghost predicate Clustered(es: seq<Entry>) {
    forall i, j, k :: 0 <= i < j < k < |es| && HourOf(es[i]) == HourOf(es[k]) ==> HourOf(es[j]) == HourOf(es[i])
  }

  ghost predicate HeadedByMeta(files: Files) {
    forall h <- files :: files[h] != [] && files[h][0] == MetaLine && forall i :: 0 < i < |files[h]| ==> files[h][i] != MetaLine
  }

  ghost predicate Filed(r: Recorder) {
    var es := Placed(r);
    && r.hour == (if es == [] then None else Some(HourOf(es[|es| - 1])))
    && HeadedByMeta(r.files)
    && (forall h :: Lines(r.files, h) == LastVisit(r.log, h))
    && (forall h :: (h in r.files <==> Visits(es, h)) && (LinesOf(r.log, h) != [] <==> h in r.files))
    && (Survives(r.log) <==> Clustered(es))
  }

  lemma {:induction false} ClusteredSnoc(es: seq<Entry>, e: Entry)
    ensures Clustered(es + [e]) <==>
            Clustered(es) && (es == [] || HourOf(es[|es| - 1]) == HourOf(e) || !Visits(es, HourOf(e)))
  {
    var all, n := es + [e], |es|;
    assert forall i :: 0 <= i < n ==> all[i] == es[i];
    if Clustered(all) {
      assert Clustered(es);
      if Visits(es, HourOf(e)) {
        var i :| 0 <= i < n && HourOf(es[i]) == HourOf(e);
        assert all[n] == e && HourOf(all[i]) == HourOf(all[n]);
        if i < n - 1 { assert HourOf(all[n - 1]) == HourOf(all[i]); }
      }
    }
    if Clustered(es) && (es == [] || HourOf(es[n - 1]) == HourOf(e) || !Visits(es, HourOf(e))) {
      forall i, j, k | 0 <= i < j < k < |all| && HourOf(all[i]) == HourOf(all[k]) ensures HourOf(all[j]) == HourOf(all[i]) {
        if k == n {
          assert Visits(es, HourOf(e));
          if j < n - 1 { assert HourOf(es[j]) == HourOf(es[i]); }
        }
      }
    }
  }

  lemma {:induction false} VisitsSnoc(es: seq<Entry>, e: Entry, h: int)
    ensures Visits(es + [e], h) <==> Visits(es, h) || h == HourOf(e)
  {
    var all := es + [e];
    if h == HourOf(e) { assert all[|es|] == e; }
    if Visits(es, h) {
      var i :| 0 <= i < |es| && HourOf(es[i]) == h;
      assert all[i] == es[i];
    }
  }

  /** Another line in an open file keeps or loses nothing. */
  lemma {:induction false} PutFiled(r: Recorder, h: int, l: Line)
    requires Filed(r) && h in r.files && l != MetaLine
    ensures Filed(Put(r, h, l))
  {
    hide LinesOf;
    hide LastVisit;
    var r' := Put(r, h, l);
    forall x
      ensures Lines(r'.files, x) == LastVisit(r'.log, x)
      ensures (x in r'.files <==> Visits(Placed(r'), x)) && (LinesOf(r'.log, x) != [] <==> x in r'.files)
      ensures LastVisit(r'.log, x) == LinesOf(r'.log, x) <==> LastVisit(r.log, x) == LinesOf(r.log, x)
    {
      VisitSnoc(r.log, Logged(h, l), x);
      assert Lines(r.files, x) == LastVisit(r.log, x);
      SameLast(LastVisit(r.log, x), LinesOf(r.log, x), l);
    }
    assert Survives(r'.log) <==> Survives(r.log);
  }

  lemma {:induction false} SameLast(a: seq<Line>, b: seq<Line>, l: Line)
    ensures a + [l] == b + [l] <==> a == b
  {
    assert (a + [l])[..|a|] == a && (b + [l])[..|b|] == b;
  }

  /** Opening a file for a new entry loses lines exactly when its hour had been left. */
  lemma {:induction false} OpenFiled(r: Recorder)
    requires Filed(r) && r.stage.Rotating? && r.hour != Some(HourOf(r.stage.entry))
    ensures Filed(WorkStep(r))
  {
    hide LinesOf, LastVisit, Clustered, HourOf;
    assert !Visits([], HourOf(r.stage.entry));
    hide Visits;
    var r', e := WorkStep(r), r.stage.entry;
    var es, h := Placed(r), HourOf(e);
    assert Placed(r') == es + [e];
    ClusteredSnoc(es, e);
    forall x
      ensures Lines(r'.files, x) == LastVisit(r'.log, x)
      ensures (x in r'.files <==> Visits(es + [e], x)) && (LinesOf(r'.log, x) != [] <==> x in r'.files)
    {
      VisitSnoc(r.log, Logged(h, MetaLine), x);
      VisitsSnoc(es, e, x);
      assert Lines(r.files, x) == LastVisit(r.log, x);
    }
    assert LastVisit(r.log, h) == Lines(r.files, h);
    OpenSurvives(r.log, h);
  }

  lemma {:induction false} OpenSurvives(log: seq<Logged>, h: int)
    requires LinesOf(log, h) == [] ==> LastVisit(log, h) == []
    ensures Survives(log + [Logged(h, MetaLine)]) <==> Survives(log) && LinesOf(log, h) == []
  {
    hide LinesOf;
    hide LastVisit;
    var log' := log + [Logged(h, MetaLine)];
    forall x
      ensures LastVisit(log', x) == LinesOf(log', x) <==>
              LastVisit(log, x) == LinesOf(log, x) && (x == h ==> LinesOf(log, h) == [])
    {
      VisitSnoc(log, Logged(h, MetaLine), x);
    }
    if Survives(log') {
      assert LastVisit(log', h) == LinesOf(log', h);
      forall x ensures LastVisit(log, x) == LinesOf(log, x) { assert LastVisit(log', x) == LinesOf(log', x); }
    }
  }

  lemma {:induction false} StayFiled(r: Recorder)
    requires Filed(r) && r.stage.Rotating? && r.hour == Some(HourOf(r.stage.entry))
    ensures Filed(WorkStep(r))
  {
    var es, e := Placed(r), r.stage.entry;
    assert Placed(WorkStep(r)) == es + [e];
    ClusteredSnoc(es, e);
    forall x ensures Visits(es + [e], x) <==> Visits(es, x) {
      VisitsSnoc(es, e, x);
      assert HourOf(es[|es| - 1]) == HourOf(e);
    }
  }

  lemma {:induction false} SameFiles(r: Recorder, r': Recorder)
    requires Filed(r) && r'.files == r.files && r'.log == r.log && r'.hour == r.hour && Placed(r') == Placed(r)
    ensures Filed(r')
  {
  }

  lemma {:induction false} StepFiled(r: Recorder, a: Action)
    requires Filed(r)
    ensures Filed(Next(r, a))
  {
    hide Filed;
    if a.Offer? {
      SameFiles(r, Next(r, a));
    } else {
      match r.stage
      case Waiting => SameFiles(r, Next(r, a));
      case Rotating(e) => if r.hour == Some(HourOf(e)) { StayFiled(r); } else { OpenFiled(r); }
      case Marking(e) =>
        FileIsOpen(r);
        if r.dropped > r.lastDropped {
          var p := Put(r, HourOf(e), Marker(e.at, r.dropped - r.lastDropped));
          PutFiled(r, HourOf(e), Marker(e.at, r.dropped - r.lastDropped));
          SameFiles(p, Next(r, a));
        } else {
          SameFiles(r, Next(r, a));
        }
      case Writing(e) =>
        FileIsOpen(r);
        PutFiled(r, HourOf(e), EntryLine(e));
        SameFiles(Put(r, HourOf(e), EntryLine(e)), Next(r, a));
    }
  }

  lemma {:induction false} FileIsOpen(r: Recorder)
    requires Filed(r) && (r.stage.Marking? || r.stage.Writing?)
    ensures HourOf(r.stage.entry) in r.files
  {
    var es := Placed(r);
    assert es[|es| - 1] == r.stage.entry;
    assert Visits(es, HourOf(r.stage.entry));
  }

  /** In every run a file opens with the metadata and holds what was written
  since it was last opened; the files keep every line ever written exactly
  when no hour was left and come back to. */
  lemma {:induction false} FilesSurviveIffClustered(cap: nat, actions: seq<Action>)
    requires 0 < cap
    ensures var r := Exec(NewRecorder(cap), actions);
      && Filed(r)
      && (r.stage == Waiting ==> (Survives(r.log) <==> Clustered(r.done)))
  {
    if actions != [] {
      var n := |actions| - 1;
      FilesSurviveIffClustered(cap, actions[..n]);
      StepFiled(Exec(NewRecorder(cap), actions[..n]), actions[n]);
    } else {
      assert Filed(NewRecorder(cap));
    }
    var r := Exec(NewRecorder(cap), actions);
    assert r.stage == Waiting ==> Placed(r) == r.done;
  }

  /** It happens: after entries of hours 1, 2 and 1, the file of hour 1 no longer
  holds the first of them. */
  lemma RevisitLosesLines() returns (first: Entry, actions: seq<Action>)
    ensures var r := Exec(NewRecorder(3), actions);
      && r.queue == [] && r.stage == Waiting && |r.accepted| == 3 && r.accepted[0] == first && HourOf(first) == 1
      && r.dropped == 0 && 1 in r.files && EntryLine(first) !in r.files[1]
  {
    var h := NANOS_PER_HOUR;
    var a, b, c := Entry(false, h, []), Entry(false, 2 * h, []), Entry(false, h + 1, []);
    assert HourOf(a) == 1 && HourOf(b) == 2 && HourOf(c) == 1;
    hide Exec, HourOf;
    var r0, offers, turn := NewRecorder(3), [Offer(a), Offer(b), Offer(c)], [Work, Work, Work, Work];
    ThreeOffers(a, b, c);
    var r1 := Exec(Exec(r0, offers), turn);
    var r2 := Exec(r1, turn);
    CalmTurn(Exec(r0, offers));
    CalmTurn(r1);
    CalmTurn(r2);
    first, actions := a, offers + turn + turn + turn;
    ExecSplits(r0, offers, turn);
    ExecSplits(r0, offers + turn, turn);
    ExecSplits(r0, offers + turn + turn, turn);
  }

  lemma ThreeOffers(a: Entry, b: Entry, c: Entry)
    ensures Exec(NewRecorder(3), [Offer(a), Offer(b), Offer(c)])
         == NewRecorder(3).(queue := [a, b, c], accepted := [a, b, c], offered := 3)
  {
    hide WorkStep;
    var r, x, y, z := NewRecorder(3), [Offer(a)], [Offer(a), Offer(b)], [Offer(a), Offer(b), Offer(c)];
    assert z[..2] == y && y[..1] == x && x[..0] == [];
    assert Exec(r, x) == OfferStep(Exec(r, []), a);
    assert Exec(r, y) == OfferStep(Exec(r, x), b);
    assert Exec(r, z) == OfferStep(Exec(r, y), c);
  }

  /** A pass of the loop with no drops to mark. */
  lemma CalmTurn(r: Recorder)
    requires r.stage == Waiting && r.queue != [] && r.dropped == r.lastDropped
    ensures var r', e := Exec(r, [Work, Work, Work, Work]), r.queue[0];
      && r'.stage == Waiting && r'.queue == r.queue[1..] && r'.accepted == r.accepted
      && r'.dropped == r'.lastDropped == r.dropped && r'.hour == Some(HourOf(e))
      && r'.files == r.files[HourOf(e) := (if r.hour == r'.hour then Lines(r.files, HourOf(e)) else [MetaLine]) + [EntryLine(e)]]
  {
    hide Exec, HourOf;
    FourWorks(r);
  }

  lemma {:induction false} ExecSplits(r: Recorder, x: seq<Action>, y: seq<Action>)
    ensures Exec(r, x + y) == Exec(Exec(r, x), y)
    decreases |y|
  {
    hide Next;
    if y == [] {
      assert x + y == x;
    } else {
      assert (x + y)[..|x + y| - 1] == x + y[..|y| - 1];
      ExecSplits(r, x, y[..|y| - 1]);
    }
  }

  // ---------- Every entry in the file of its hour ----------

  /** What a list of lines says was recorded. */
  function EntriesOf(ls: seq<Line>): seq<Entry> {
    if ls == [] then []
    else EntriesOf(ls[..|ls| - 1]) + if ls[|ls| - 1].EntryLine? then [ls[|ls| - 1].entry] else []
  }

  function MarksOf(ls: seq<Line>): nat {
    if ls == [] then 0 else MarksOf(ls[..|ls| - 1]) + if ls[|ls| - 1].Marker? then ls[|ls| - 1].count else 0
  }

  function OfHour(es: seq<Entry>, h: int): seq<Entry> {
    if es == [] then []
    else OfHour(es[..|es| - 1], h) + if HourOf(es[|es| - 1]) == h then [es[|es| - 1]] else []
  }

  lemma {:induction false} LinesSnoc(ls: seq<Line>, l: Line)
    ensures EntriesOf(ls + [l]) == EntriesOf(ls) + if l.EntryLine? then [l.entry] else []
    ensures MarksOf(ls + [l]) == MarksOf(ls) + if l.Marker? then l.count else 0
  {
    assert (ls + [l])[..|ls|] == ls;
  }

  ghost predicate HoursNeverDecrease(es: seq<Entry>) {
    forall i, j :: 0 <= i < j < |es| ==> HourOf(es[i]) <= HourOf(es[j])
  }

  ghost predicate Homed(log: seq<Logged>) {
    forall i :: 0 <= i < |log| && log[i].line.EntryLine? ==> log[i].hour == HourOf(log[i].line.entry)
  }

  ghost predicate Ascends(log: seq<Logged>) {
    forall i, j :: 0 <= i < j < |log| ==> log[i].hour <= log[j].hour
  }

  /** Entries are logged under their own hours, the last line under the hour of
  the last entry placed, and the hours of the log go back only if those of the
  entries did. */
  ghost predicate Tidy(r: Recorder) {
    var es, log := Placed(r), r.log;
    && Homed(log) && (es == [] <==> log == [])
    && r.hour == (if es == [] then None else Some(HourOf(es[|es| - 1])))
    && (es != [] ==> log[|log| - 1].hour == HourOf(es[|es| - 1]))
    && (HoursNeverDecrease(es) ==> Ascends(log))
  }

  lemma {:induction false} LogTidy(log: seq<Logged>, l: Logged)
    requires Homed(log) && (l.line.EntryLine? ==> l.hour == HourOf(l.line.entry))
    ensures Homed(log + [l])
    ensures Ascends(log) && (log != [] ==> log[|log| - 1].hour <= l.hour) ==> Ascends(log + [l])
  {
  }

  lemma {:induction false} HoursPrefix(es: seq<Entry>, e: Entry)
    requires HoursNeverDecrease(es + [e])
    ensures HoursNeverDecrease(es) && (es != [] ==> HourOf(es[|es| - 1]) <= HourOf(e))
  {
    var all := es + [e];
    assert forall i :: 0 <= i < |es| ==> all[i] == es[i];
    assert all[|es|] == e;
  }

  /** Another line for the hour of the entry placed last. */
  lemma {:induction false} PutTidy(r: Recorder, l: Line)
    requires Tidy(r) && (r.stage.Marking? || r.stage.Writing?)
    requires l.EntryLine? ==> l.entry == r.stage.entry
    ensures Tidy(Put(r, HourOf(r.stage.entry), l))
  {
    hide Homed, Ascends, HoursNeverDecrease, HourOf, Lines;
    var h := HourOf(r.stage.entry);
    assert Placed(r)[|Placed(r)| - 1] == r.stage.entry;
    LogTidy(r.log, Logged(h, l));
  }

  lemma {:induction false} PlaceTidy(r: Recorder)
    requires Tidy(r) && r.stage.Rotating?
    ensures Tidy(WorkStep(r))
  {
    hide Homed, Ascends, HoursNeverDecrease, HourOf, Lines;
    var e, es := r.stage.entry, Placed(r);
    assert Placed(WorkStep(r)) == es + [e];
    if HoursNeverDecrease(es + [e]) { HoursPrefix(es, e); }
    LogTidy(r.log, Logged(HourOf(e), MetaLine));
  }

  lemma {:induction false} SameTidy(r: Recorder, r': Recorder)
    requires Tidy(r) && r'.log == r.log && r'.hour == r.hour && Placed(r') == Placed(r)
    ensures Tidy(r')
  {
    hide Homed, Ascends, HoursNeverDecrease, HourOf;
  }

  lemma {:induction false} StepTidy(r: Recorder, a: Action)
    requires Tidy(r)
    ensures Tidy(Next(r, a))
  {
    hide Tidy, HourOf, Lines;
    var r' := Next(r, a);
    if a.Offer? {
      SameTidy(r, r');
    } else {
      match r.stage
      case Waiting => SameTidy(r, r');
      case Rotating(_) => PlaceTidy(r);
      case Marking(e) =>
        if r.dropped > r.lastDropped {
          PutTidy(r, Marker(e.at, r.dropped - r.lastDropped));
          SameTidy(Put(r, HourOf(e), Marker(e.at, r.dropped - r.lastDropped)), r');
        } else {
          SameTidy(r, r');
        }
      case Writing(e) =>
        PutTidy(r, EntryLine(e));
        SameTidy(Put(r, HourOf(e), EntryLine(e)), r');
    }
  }

  lemma {:induction false} RunTidy(cap: nat, actions: seq<Action>)
    ensures Tidy(Exec(NewRecorder(cap), actions))
  {
    if actions != [] {
      hide Tidy, Next;
      var n := |actions| - 1;
      RunTidy(cap, actions[..n]);
      StepTidy(Exec(NewRecorder(cap), actions[..n]), actions[n]);
    } else {
      assert Homed([]) && Ascends([]);
    }
  }

  /** What was written for an hour is what was written of that hour. */
  lemma {:induction false} HourHoldsItsEntries(log: seq<Logged>, h: int)
    requires Homed(log)
    ensures EntriesOf(LinesOf(log, h)) == OfHour(EntriesIn(log), h)
  {
    if log != [] {
      var n := |log| - 1;
      var l, front := log[n].line, EntriesIn(log[..n]);
      HourHoldsItsEntries(log[..n], h);
      LinesSnoc(LinesOf(log[..n], h), l);
      if l.EntryLine? {
        assert (front + [l.entry])[..|front|] == front;
      } else {
        assert EntriesIn(log) == front;
      }
      if log[n].hour != h { assert LinesOf(log, h) == LinesOf(log[..n], h); }
    }
  }

  // ---------- The files in the order of their hours ----------

  ghost predicate AscendingHours(hours: seq<int>) {
    forall i, j :: 0 <= i < j < |hours| ==> hours[i] < hours[j]
  }

  /** All the lines of some files, one file after the other. */
  function Gather(files: Files, hours: seq<int>): seq<Line> {
    if hours == [] then [] else Gather(files, hours[..|hours| - 1]) + Lines(files, hours[|hours| - 1])
  }

  function LinesIn(log: seq<Logged>): seq<Line> {
    if log == [] then [] else LinesIn(log[..|log| - 1]) + [log[|log| - 1].line]
  }

  /** The hours of a log, one for each stretch. */
  function HoursIn(log: seq<Logged>): seq<int> {
    if log == [] then []
    else AddHour(HoursIn(log[..|log| - 1]), log[|log| - 1].hour)
  }

  function AddHour(hs: seq<int>, h: int): seq<int> {
    if hs != [] && hs[|hs| - 1] == h then hs else hs + [h]
  }

  lemma {:induction false} GatherSame(a: Files, b: Files, hours: seq<int>)
    requires forall h <- hours :: Lines(a, h) == Lines(b, h)
    ensures Gather(a, hours) == Gather(b, hours)
  {
    if hours != [] { GatherSame(a, b, hours[..|hours| - 1]); }
  }

  /** A log, seen as its last line after the others. */
  lemma {:induction false} LastLine(log: seq<Logged>)
    requires log != []
    ensures var front, h, l := log[..|log| - 1], log[|log| - 1].hour, log[|log| - 1].line;
      && LinesIn(log) == LinesIn(front) + [l]
      && HoursIn(log) == AddHour(HoursIn(front), h)
      && (forall x :: LinesOf(log, x) == LinesOf(front, x) + if x == h then [l] else [])
      && (Ascends(log) ==> Ascends(front) && (front != [] ==> front[|front| - 1].hour <= h))
  {
  }

  /** In a log whose hours do not go back, each hour is one stretch: they ascend,
  the last is that of the last line, and only the hours listed have lines. */
  lemma {:induction false} HoursAscend(log: seq<Logged>)
    requires Ascends(log)
    ensures var hs := HoursIn(log);
      && AscendingHours(hs) && (hs == [] <==> log == [])
      && (log != [] ==> hs[|hs| - 1] == log[|log| - 1].hour)
      && forall h :: h in hs <==> LinesOf(log, h) != []
  {
    if log != [] {
      LastLine(log);
      hide Ascends, LinesOf, HoursIn, LinesIn;
      HoursAscend(log[..|log| - 1]);
    }
  }

  /** One more line in the last file gathered. */
  lemma {:induction false} GatherLast(before: Files, files: Files, hs: seq<int>, l: Line)
    requires hs != [] && AscendingHours(hs)
    requires var h := hs[|hs| - 1]; Lines(files, h) == Lines(before, h) + [l]
    requires forall x :: x != hs[|hs| - 1] ==> Lines(files, x) == Lines(before, x)
    ensures Gather(files, hs) == Gather(before, hs) + [l]
  {
    hide Lines;
    GatherSame(files, before, hs[..|hs| - 1]);
  }

  /** A line in a new file, gathered last. */
  lemma {:induction false} GatherNew(before: Files, files: Files, hs: seq<int>, h: int, l: Line)
    requires h !in hs && Lines(files, h) == [l]
    requires forall x :: x != h ==> Lines(files, x) == Lines(before, x)
    ensures Gather(files, hs + [h]) == Gather(before, hs) + [l]
  {
    hide Lines;
    GatherSame(files, before, hs);
    assert (hs + [h])[..|hs|] == hs;
  }

  /** One more line, in the last file gathered or in a later one. */
  lemma {:induction false} GatherStep(before: Files, files: Files, hs: seq<int>, h: int, l: Line)
    requires AscendingHours(hs) && (hs != [] ==> hs[|hs| - 1] <= h)
    requires h !in hs ==> Lines(before, h) == []
    requires forall x :: Lines(files, x) == Lines(before, x) + if x == h then [l] else []
    ensures Gather(files, AddHour(hs, h)) == Gather(before, hs) + [l]
  {
    hide Gather, Lines;
    if hs != [] && hs[|hs| - 1] == h {
      GatherLast(before, files, hs, l);
    } else {
      assert forall i :: 0 <= i < |hs| ==> hs[i] < h;
      GatherNew(before, files, hs, h, l);
    }
  }

  /** The files before the last line of a log was written. */
  lemma {:induction false} FilesBefore(log: seq<Logged>, files: Files)
    requires log != [] && forall h :: Lines(files, h) == LinesOf(log, h)
    ensures var front, h, l := log[..|log| - 1], log[|log| - 1].hour, log[|log| - 1].line;
      var before := files[h := LinesOf(front, h)];
      && (forall x :: Lines(before, x) == LinesOf(front, x))
      && (forall x :: Lines(files, x) == Lines(before, x) + if x == h then [l] else [])
  {
    var front, h, l := log[..|log| - 1], log[|log| - 1].hour, log[|log| - 1].line;
    var before := files[h := LinesOf(front, h)];
    LastLine(log);
    hide LinesOf;
    forall x ensures Lines(before, x) == LinesOf(front, x)
      ensures Lines(files, x) == Lines(before, x) + if x == h then [l] else []
    {
      assert Lines(files, x) == LinesOf(log, x);
    }
  }

  /** What the next line's hour is to the hours so far. */
  lemma {:induction false} NextHour(front: seq<Logged>, h: int)
    requires Ascends(front) && (front != [] ==> front[|front| - 1].hour <= h)
    ensures var hs := HoursIn(front);
      AscendingHours(hs) && (hs != [] ==> hs[|hs| - 1] <= h) && (h !in hs ==> LinesOf(front, h) == [])
  {
    HoursAscend(front);
  }

  /** Then the files, gathered in the order of their hours, are the log. */
  lemma {:induction false} GatherIsLog(log: seq<Logged>, files: Files)
    requires Ascends(log) && forall h :: Lines(files, h) == LinesOf(log, h)
    ensures Gather(files, HoursIn(log)) == LinesIn(log)
    decreases |log|
  {
    if log != [] {
      hide Ascends, LinesOf, HoursIn, LinesIn, Gather, Lines, AscendingHours, AddHour;
      var front, h, l := log[..|log| - 1], log[|log| - 1].hour, log[|log| - 1].line;
      var before := files[h := LinesOf(front, h)];
      LastLine(log);
      FilesBefore(log, files);
      GatherIsLog(front, before);
      NextHour(front, h);
      assert Lines(before, h) == LinesOf(front, h);
      GatherStep(before, files, HoursIn(front), h, l);
    }
  }

  lemma {:induction false} LogIsItsLines(log: seq<Logged>)
    ensures EntriesOf(LinesIn(log)) == EntriesIn(log) && MarksOf(LinesIn(log)) == MarksIn(log)
  {
    if log != [] {
      LogIsItsLines(log[..|log| - 1]);
      LinesSnoc(LinesIn(log[..|log| - 1]), log[|log| - 1].line);
    }
  }

  /** After Close, if no hour was left and come back to, each file opens with the
  metadata, which it holds once, and its entries are the accepted entries of its
  hour, in order. */
  lemma {:induction false} ClosedFilesHoldTheirHours(cap: nat, actions: seq<Action>)
    requires 0 < cap
    requires Exec(NewRecorder(cap), actions).queue == [] && Exec(NewRecorder(cap), actions).stage == Waiting
    requires Clustered(Exec(NewRecorder(cap), actions).accepted)
    ensures var r := Exec(NewRecorder(cap), actions);
      HeadedByMeta(r.files) && forall h :: EntriesOf(Lines(r.files, h)) == OfHour(r.accepted, h)
  {
    var r := Exec(NewRecorder(cap), actions);
    NothingIsUnaccounted(cap, actions);
    FilesSurviveIffClustered(cap, actions);
    RunTidy(cap, actions);
    assert Placed(r) == r.done == r.accepted;
    forall h ensures EntriesOf(Lines(r.files, h)) == OfHour(r.accepted, h) {
      assert Lines(r.files, h) == LastVisit(r.log, h) == LinesOf(r.log, h);
      HourHoldsItsEntries(r.log, h);
    }
  }

  /** After Close, if the hours of the accepted entries never went back: the
  files, one after the other in the order of their hours, hold exactly the
  accepted entries, in order, and markers that sum to the drops. */
  lemma {:induction false} ClosedRecordingIsComplete(cap: nat, actions: seq<Action>) returns (hours: seq<int>)
    requires 0 < cap
    requires Exec(NewRecorder(cap), actions).queue == [] && Exec(NewRecorder(cap), actions).stage == Waiting
    requires HoursNeverDecrease(Exec(NewRecorder(cap), actions).accepted)
    ensures var r := Exec(NewRecorder(cap), actions);
      && AscendingHours(hours) && (forall h :: h in hours <==> h in r.files)
      && EntriesOf(Gather(r.files, hours)) == r.accepted
      && MarksOf(Gather(r.files, hours)) == r.dropped && r.offered == |r.accepted| + r.dropped
  {
    var r := Exec(NewRecorder(cap), actions);
    hours := HoursIn(r.log);
    NothingIsUnaccounted(cap, actions);
    FilesSurviveIffClustered(cap, actions);
    RunTidy(cap, actions);
    hide Exec, EntriesIn, MarksIn, LinesIn, HoursIn, Gather;
    assert Placed(r) == r.done == r.accepted;
    assert Clustered(r.done);
    forall h ensures Lines(r.files, h) == LinesOf(r.log, h) {
      assert Lines(r.files, h) == LastVisit(r.log, h);
    }
    HoursAscend(r.log);
    GatherIsLog(r.log, r.files);
    LogIsItsLines(r.log);
  }

  // ---------- The object ----------

  /** The recorder object: its queue and counters, the writer loop's locals, and the history. */
  class RecorderLoop {
    const cap: nat
    var queue: seq<Entry>
    var dropped: nat
    var written: nat
    var hour: Option<int>
    var lastDropped: nat
    var files: Files
    ghost var offered: nat
    ghost var accepted: seq<Entry>
    ghost var done: seq<Entry>
    ghost var log: seq<Logged>

    ghost function At(stage: Stage): Recorder
      reads this
    {
      Recorder(cap, queue, dropped, written, stage, hour, lastDropped, files, offered, accepted, done, log)
    }

    constructor (cap: nat)
      ensures At(Waiting) == NewRecorder(cap)
    {
      this.cap := cap;
      queue, dropped, written, hour, lastDropped, files := [], 0, 0, None, 0, map[];
      offered, accepted, done, log := 0, [], [], [];
    }

    /** enqueue: it never blocks. */
    method Enqueue(e: Entry)
      modifies this
      ensures At(Waiting) == OfferStep(old(At(Waiting)), e)
      ensures offered == old(offered) + 1
      ensures |old(queue)| < cap ==>
        queue == old(queue) + [e] && accepted == old(accepted) + [e] && dropped == old(dropped)
      ensures |old(queue)| >= cap ==>
        queue == old(queue) && accepted == old(accepted) && dropped == old(dropped) + 1
      ensures files == old(files) && hour == old(hour) && written == old(written) && log == old(log)
    {
      offered := offered + 1;
      if |queue| < cap {
        queue := queue + [e];
        accepted := accepted + [e];
      } else {
        dropped := dropped + 1;
      }
    }

    /** Append a line to the open file. */
    method WriteLine(h: int, l: Line)
      modifies this`files, this`written, this`log
      ensures forall stage :: At(stage) == Put(old(At(stage)), h, l)
    {
      files := files[h := Lines(files, h) + [l]];
      written := written + 1;
      log := log + [Logged(h, l)];
    }

    /** openFile. */
    method OpenFile(h: int)
      modifies this`files, this`written, this`hour, this`log
      ensures forall stage :: At(stage) == Open(old(At(stage)), h)
    {
      files := files[h := [MetaLine]];
      written := written + 1;
      hour := Some(h);
      log := log + [Logged(h, MetaLine)];
    }

    /** One turn of the loop in run: take, rotate, mark, write. */
    method Turn()
      requires queue != []
      modifies this
      ensures At(Waiting) == Exec(old(At(Waiting)), [Work, Work, Work, Work])
    {
      hide Exec, HourOf, Lines;
      ghost var r := At(Waiting);
      var e := queue[0];
      queue := queue[1..];
      assert At(Rotating(e)) == WorkStep(r);
      if hour != Some(HourOf(e)) {
        OpenFile(HourOf(e));
      }
      assert At(Marking(e)) == WorkStep(WorkStep(r));
      if dropped > lastDropped {
        WriteLine(HourOf(e), Marker(e.at, dropped - lastDropped));
        lastDropped := dropped;
      }
      assert At(Writing(e)) == WorkStep(WorkStep(WorkStep(r)));
      WriteLine(HourOf(e), EntryLine(e));
      done := done + [e];
      FourWorks(r);
    }
  }

  lemma {:induction false} FourWorks(r: Recorder)
    ensures Exec(r, [Work, Work, Work, Work]) == WorkStep(WorkStep(WorkStep(WorkStep(r))))
  {
    var w := Work;
    assert [w, w, w, w][..3] == [w, w, w] && [w, w, w][..2] == [w, w] && [w, w][..1] == [w] && [w][..0] == [];
    assert Exec(r, [w]) == WorkStep(Exec(r, []));
    assert Exec(r, [w, w]) == WorkStep(Exec(r, [w]));
    assert Exec(r, [w, w, w]) == WorkStep(Exec(r, [w, w]));
  }
}
