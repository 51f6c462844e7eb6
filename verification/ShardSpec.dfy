/** The book stage as a transition system (internal/pipeline/shard.go): many
trackers over FIFO queues, with snapshot requests running beside them. */
module ShardSpec {
  import opened MarketModel
  import opened BookSpec
  import opened TrackerSpec
  import opened Position

  // ---------- Routing ----------

  function FnvStep(h: bv64, b: bv8): bv64 {
    (h ^ (b as bv64)) * 1099511628211
  }

  /** FNV-1a over the symbol's bytes. */
  function Fnv(sym: Symbol): bv64 {
    if sym == [] then 14695981039346656037 else FnvStep(Fnv(sym[..|sym| - 1]), sym[|sym| - 1])
  }

  /** The law of the hash: the offset basis for no bytes, and one more byte at the
  end is exclusive-or with the hash so far, then times the prime, in 64 bits. */
  lemma FnvLaw(sym: Symbol, b: bv8, h: bv64)
    requires Fnv(sym) == h
    ensures Fnv([]) == 14695981039346656037
    ensures Fnv(sym + [b]) == (h ^ (b as bv64)) * 1099511628211
  {
    LastByte(sym, b);
    assert Fnv(sym + [b]) == FnvStep(h, b);
  }

  lemma LastByte(sym: Symbol, b: bv8)
    ensures Fnv(sym + [b]) == FnvStep(Fnv(sym), b)
  {
    hide FnvStep;
    assert (sym + [b])[..|sym|] == sym;
  }

  /** Published FNV-1a test vectors: the hashes of "a" and of "foobar". */
  lemma FnvVectors()
    ensures Fnv([0x61]) == 0xaf63dc4c8601ec8c
    ensures Fnv([0x66, 0x6f, 0x6f, 0x62, 0x61, 0x72]) == 0x85944171f73967e8
  {
    FnvLaw([], 0x61, 0xcbf29ce484222325);
    assert [] + [0x61 as bv8] == [0x61];
    FnvLaw([], 0x66, 0xcbf29ce484222325);
    assert [] + [0x66 as bv8] == [0x66];
    FnvLaw([0x66], 0x6f, 0xaf63db4c8601ead9);
    assert [0x66 as bv8] + [0x6f] == [0x66, 0x6f];
    FnvLaw([0x66, 0x6f], 0x6f, 0x08985907b541d342);
    assert [0x66 as bv8, 0x6f] + [0x6f] == [0x66, 0x6f, 0x6f];
    FnvLaw([0x66, 0x6f, 0x6f], 0x62, 0xdcb27518fed9d577);
    assert [0x66 as bv8, 0x6f, 0x6f] + [0x62] == [0x66, 0x6f, 0x6f, 0x62];
    FnvLaw([0x66, 0x6f, 0x6f, 0x62], 0x61, 0xdd120e790c2512af);
    assert [0x66 as bv8, 0x6f, 0x6f, 0x62] + [0x61] == [0x66, 0x6f, 0x6f, 0x62, 0x61];
    FnvLaw([0x66, 0x6f, 0x6f, 0x62, 0x61], 0x72, 0xcac165afa2fef40a);
    assert [0x66 as bv8, 0x6f, 0x6f, 0x62, 0x61] + [0x72] == [0x66, 0x6f, 0x6f, 0x62, 0x61, 0x72];
  }

  function ShardIndex(sym: Symbol, n: nat): (k: nat)
    requires n > 0
    ensures k < n
  {
    (Fnv(sym) as int) % n
  }

  /** A whole number of times around the shards, and the index over: the hash of
  the symbol, which the bounds on the index make the only one possible. */
  lemma ShardIndexIsRemainder(sym: Symbol, n: nat) returns (q: nat)
    requires n > 0
    ensures Fnv(sym) as int == q * n + ShardIndex(sym, n)
  {
    q := Quotient(Fnv(sym) as int, n);
  }

  lemma Quotient(h: nat, n: nat) returns (q: nat)
    requires n > 0
    ensures h == q * n + h % n
  {
    q := h / n;
  }

  /** shardIndex, as the loop it is. */
  method HashToShard(sym: Symbol, n: nat) returns (k: nat, ghost q: nat)
    requires n > 0
    ensures k == ShardIndex(sym, n)
    ensures k < n && Fnv(sym) as int == q * n + k
  {
    var h: bv64 := 14695981039346656037;
    for i := 0 to |sym|
      invariant h == Fnv(sym[..i])
    {
      assert sym[..i + 1][..i] == sym[..i];
      h := FnvStep(h, sym[i]);
    }
    assert sym[..|sym|] == sym;
    k := (h as int) % n;
    q := ShardIndexIsRemainder(sym, n);
  }

  // ---------- One book and its requests ----------

  /** A fetch goroutine: waiting for the Snapshotter, or holding its answer
  (None for an error) until the shard takes it. */
  datatype Request = Asked | Answered(result: Option<Snapshot>)

  datatype Cell = Cell(tracker: State, flight: seq<Request>)

  predicate Live(c: Cell) {
    c.tracker.core.synced
  }

  /** fetch. */
  function Fetch(c: Cell): Cell {
    var (t, go) := BeginFetchStep(c.tracker);
    if go then Cell(t, c.flight + [Asked]) else c
  }

  /** tracker: the cell for `sym`, created on first sight and asking for a snapshot. */
  function CellFor(c: Option<Cell>, sym: Symbol, cap: int): Cell {
    if c.Some? then c.value else Fetch(Cell(NewState(sym, cap), []))
  }

  /** load. */
  ghost function LoadCell(c: Cell, s: Snapshot): Cell {
    Fetch(c.(tracker := LoadStep(c.tracker, s).0))
  }

  /** handle, for the cell of the event's symbol. */
  ghost function HandleCell(c: Option<Cell>, cap: int, ev: Event): Option<Cell> {
    match ev
    case Delta(d) =>
      var c0 := CellFor(c, d.symbol, cap);
      Some(Fetch(c0.(tracker := ApplyStep(c0.tracker, d).0)))
    case Snap(s) => Some(LoadCell(CellFor(c, s.symbol, cap), s))
    case Trade(_) => c
    case Unknown => c
  }

  predicate CanServe(c: Cell, i: nat) {
    i < |c.flight| && c.flight[i].Asked?
  }

  function ServeCell(c: Cell, i: nat, r: Option<Snapshot>): Cell
    requires CanServe(c, i)
  {
    c.(flight := c.flight[i := Answered(r)])
  }

  predicate CanComplete(c: Cell, i: nat) {
    i < |c.flight| && c.flight[i].Answered?
  }

  /** complete: take one finished request back into the book. */
  ghost function CompleteCell(c: Cell, i: nat): Cell
    requires CanComplete(c, i)
  {
    var c0 := c.(flight := c.flight[..i] + c.flight[i + 1..]);
    match c.flight[i].result
    case None => Fetch(c0.(tracker := FetchFailedStep(c0.tracker)))
    case Some(s) => LoadCell(c0, s)
  }

  // ---------- Nothing is stranded ----------

  function Due(c: Cell): nat {
    if Live(c) then 0 else 1
  }

  /** A book that is not live has its fetch marked and a request in flight, and
  there is at most one request beyond that per snapshot routed as an event. */
  ghost predicate Attended(c: Cell, routedSnaps: nat) {
    && BufferSound(c.tracker)
    && c.tracker.fetching == !Live(c)
    && Due(c) <= |c.flight| <= Due(c) + routedSnaps
  }

  /** A snapshot never costs a live book its anchor. */
  lemma LoadKeepsLive(t: State, s: Snapshot)
    requires BufferSound(t)
    ensures BufferSound(LoadStep(t, s).0) && !LoadStep(t, s).0.fetching
    ensures t.core.synced ==> LoadStep(t, s).0.core.synced
  {
    StepSound(t, Land(s));
  }

  lemma HandleAttended(c: Option<Cell>, cap: int, ev: Event, routedSnaps: nat)
    requires c.Some? ==> Attended(c.value, routedSnaps)
    ensures HandleCell(c, cap, ev).Some? ==>
              Attended(HandleCell(c, cap, ev).value, routedSnaps + if ev.Snap? then 1 else 0)
  {
    match ev
    case Delta(d) =>
      var c0 := CellFor(c, d.symbol, cap);
      StepSound(c0.tracker, Deliver(d));
    case Snap(s) =>
      var c0 := CellFor(c, s.symbol, cap);
      LoadKeepsLive(c0.tracker, s);
    case Trade(_) =>
    case Unknown =>
  }

  lemma CompleteAttended(c: Cell, i: nat, routedSnaps: nat)
    requires Attended(c, routedSnaps) && CanComplete(c, i)
    ensures Attended(CompleteCell(c, i), routedSnaps)
  {
    if c.flight[i].result.Some? {
      LoadKeepsLive(c.tracker, c.flight[i].result.value);
    }
  }

  /** An answer goes to the request it is for and to no other. */
  lemma ServeAnswersOne(c: Cell, i: nat, r: Option<Snapshot>)
    requires CanServe(c, i)
    ensures var c' := ServeCell(c, i, r);
      && c'.tracker == c.tracker && |c'.flight| == |c.flight| && c'.flight[i] == Answered(r)
      && forall j :: 0 <= j < |c.flight| && j != i ==> c'.flight[j] == c.flight[j]
  {
  }

  /** Collecting an answer takes that one out of flight, leaves every other request
  as it is, and asks again exactly when the book is still stale. */
  lemma CompleteTakesOne(c: Cell, i: nat, routedSnaps: nat)
    requires Attended(c, routedSnaps) && CanComplete(c, i)
    ensures var c' := CompleteCell(c, i);
      multiset(c'.flight) == multiset(c.flight) - multiset{c.flight[i]} + if Live(c') then multiset{} else multiset{Asked}
  {
    var rest := c.flight[..i] + c.flight[i + 1..];
    TakenOut(c.flight, i);
    CompletedFlight(c, i, routedSnaps);
    hide CompleteCell, Attended;
    if !Live(CompleteCell(c, i)) { assert multiset(rest + [Asked]) == multiset(rest) + multiset{Asked}; }
  }

  lemma TakenOut(flight: seq<Request>, i: nat)
    requires i < |flight|
    ensures multiset(flight[..i] + flight[i + 1..]) == multiset(flight) - multiset{flight[i]}
  {
    assert flight == flight[..i] + ([flight[i]] + flight[i + 1..]);
  }

  lemma CompletedFlight(c: Cell, i: nat, routedSnaps: nat)
    requires Attended(c, routedSnaps) && CanComplete(c, i)
    ensures var c' := CompleteCell(c, i);
      c'.flight == c.flight[..i] + c.flight[i + 1..] + if Live(c') then [] else [Asked]
  {
    CompleteAttended(c, i, routedSnaps);
    if c.flight[i].result.Some? { LoadKeepsLive(c.tracker, c.flight[i].result.value); }
    hide LoadStep;
    var rest := c.flight[..i] + c.flight[i + 1..];
    assert rest + [] == rest;
  }

  /** The requests in flight beyond those due: one while stale, none once live. */
  function Extra(c: Option<Cell>): int {
    if c.Some? then |c.value.flight| - Due(c.value) else 0
  }

  /** What a routed event does to them, exactly: only a snapshot routed to a book
  that is not live adds one. */
  lemma HandleExtra(c: Option<Cell>, cap: int, ev: Event, routedSnaps: nat)
    requires c.Some? ==> Attended(c.value, routedSnaps)
    ensures Extra(HandleCell(c, cap, ev)) == Extra(c) + if ev.Snap? && !(c.Some? && Live(c.value)) then 1 else 0
  {
    if ev.Snap? {
      LoadKeepsLive(CellFor(c, ev.snap.symbol, cap).tracker, ev.snap);
    }
  }

  /** And only one that comes back to a live book takes one away. */
  lemma CompleteExtra(c: Cell, i: nat, routedSnaps: nat)
    requires Attended(c, routedSnaps) && CanComplete(c, i)
    ensures Extra(Some(CompleteCell(c, i))) == Extra(Some(c)) - if Live(c) then 1 else 0
  {
    if c.flight[i].result.Some? {
      LoadKeepsLive(c.tracker, c.flight[i].result.value);
    }
  }

  /** Load clears the fetch mark even for a snapshot that came as an event, so
  one routed snapshot, the first event of its symbol, is enough to put two
  requests in flight. */
  lemma RoutedSnapshotDoublesRequests(sym: Symbol, cap: int)
    ensures var refused := Snap(Snapshot(sym, 1, [Level(0, 1)], [], false));
      |HandleCell(None, cap, refused).value.flight| == 2
  {
    var s := Snapshot(sym, 1, [Level(0, 1)], [], false);
    var c := CellFor(None, sym, cap);
    assert LevelError(s.bids[0]) == InvalidPrice;
    assert !Accepts(c.tracker.core, s);
  }

  // ---------- The whole stage ----------

  /** A shard, with the history the theorems speak of: the events it has
  handled and the snapshots its requests were given. */
  datatype Shard = Shard(queue: seq<Event>, books: map<Symbol, Cell>,
                         done: seq<Event>, served: map<Symbol, seq<Snapshot>>)

  datatype System = System(shards: seq<Shard>, queueCap: nat, bufCap: int, accepted: seq<Event>)

  datatype Action =
    | Route(ev: Event)
    | Handle(k: nat)
    | Serve(k: nat, sym: Symbol, i: nat, r: Option<Snapshot>)
    | Complete(k: nat, sym: Symbol, i: nat)
    | Query(k: nat, sym: Symbol)

  function Init(n: nat, queueCap: nat, bufCap: int): System {
    System(seq(n, _ => Shard([], map[], [], map[])), queueCap, bufCap, [])
  }

  function Get(m: map<Symbol, Cell>, sym: Symbol): Option<Cell> {
    if sym in m then Some(m[sym]) else None
  }

  function ServedTo(m: map<Symbol, seq<Snapshot>>, sym: Symbol): seq<Snapshot> {
    if sym in m then m[sym] else []
  }

  /** handle, on the map of books. */
  ghost function HandleBooks(m: map<Symbol, Cell>, cap: int, ev: Event): map<Symbol, Cell> {
    if ev.Delta? || ev.Snap? then
      var sym := EventSymbol(ev).value;
      m[sym := HandleCell(Get(m, sym), cap, ev).value]
    else m
  }

  ghost predicate Enabled(s: System, a: Action) {
    match a
    case Route(ev) =>
      EventSymbol(ev).Some? && 0 < |s.shards| &&
      |s.shards[ShardIndex(EventSymbol(ev).value, |s.shards|)].queue| < s.queueCap
    case Handle(k) => k < |s.shards| && s.shards[k].queue != []
    case Serve(k, sym, i, _) => k < |s.shards| && sym in s.shards[k].books && CanServe(s.shards[k].books[sym], i)
    case Complete(k, sym, i) => k < |s.shards| && sym in s.shards[k].books && CanComplete(s.shards[k].books[sym], i)
    case Query(_, _) => true
  }

  /** One step.  An action that cannot be taken leaves the stage as it was: a
  Route on a full queue is still blocked, or has been given up. */
  ghost function Next(s: System, a: Action): System {
    if !Enabled(s, a) then s
    else match a
      case Route(ev) =>
        var k := ShardIndex(EventSymbol(ev).value, |s.shards|);
        var sh := s.shards[k];
        s.(shards := s.shards[k := sh.(queue := sh.queue + [ev])], accepted := s.accepted + [ev])
      case Handle(k) =>
        var sh := s.shards[k];
        var ev := sh.queue[0];
        s.(shards := s.shards[k := sh.(queue := sh.queue[1..], done := sh.done + [ev],
                                       books := HandleBooks(sh.books, s.bufCap, ev))])
      case Serve(k, sym, i, r) =>
        var sh := s.shards[k];
        s.(shards := s.shards[k := sh.(
            books := sh.books[sym := ServeCell(sh.books[sym], i, r)],
            served := sh.served[sym := ServedTo(sh.served, sym) + if r.Some? then [r.value] else []])])
      case Complete(k, sym, i) =>
        var sh := s.shards[k];
        s.(shards := s.shards[k := sh.(books := sh.books[sym := CompleteCell(sh.books[sym], i)])])
      case Query(_, _) => s
  }

  ghost function Exec(s: System, actions: seq<Action>): System {
    if actions == [] then s else Next(Exec(s, actions[..|actions| - 1]), actions[|actions| - 1])
  }
}
