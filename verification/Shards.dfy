/** The shard object (internal/pipeline/shard.go, query.go): the map of
trackers it owns and the requests it has started, proved against ShardSpec. */
module Shards {
  import opened MarketModel
  import opened Ladder
  import opened BookSpec
  import opened Sequencing
  import opened TrackerSpec
  import opened Position
  import opened Books
  import opened Trackers
  import opened ShardSpec
  import opened Comparing

  /** What a query is answered with. */
  datatype BookView = BookView(symbol: Symbol, live: bool, lastId: int, crossed: bool, bids: seq<Level>, asks: seq<Level>,
                               bidDepth: nat, askDepth: nat, buffered: nat, stats: Stats)

  datatype Answer = View(view: BookView) | Checked(result: CompareResult) | UnknownSymbol

  /** One symbol's tracker together with the snapshot requests started for it. */
  class Slot {
    const tracker: Tracker
    var flight: seq<Request>
    ghost const Repr: set<object>

    ghost predicate Valid()
      reads Repr
    {
      Repr == tracker.Repr + {this} && this !in tracker.Repr && tracker.Valid() && BufferSound(tracker.Abs())
    }

    ghost function Abs(): (c: Cell)
      requires Valid()
      reads Repr
    {
      Cell(tracker.Abs(), flight)
    }

    constructor (sym: Symbol, cap: int)
      ensures Valid() && fresh(Repr) && Abs() == CellFor(None, sym, cap)
    {
      var t := new Tracker(sym, cap);
      tracker, flight, Repr := t, [], t.Repr + {this};
      new;
      Fetch();
    }

    /** fetch. */
    method Fetch()
      requires Valid()
      modifies Repr
      ensures Valid() && Abs() == ShardSpec.Fetch(old(Abs()))
    {
      var go := tracker.BeginFetch();
      if go {
        flight := flight + [Asked];
      }
    }

    /** load. */
    method Load(s: Snapshot)
      requires Valid()
      modifies Repr
      ensures Valid() && Abs() == LoadCell(old(Abs()), s)
    {
      StepSound(tracker.Abs(), Land(s));
      var r := tracker.Load(s);
      Fetch();
    }

    /** handle, for a delta of this symbol. */
    method Apply(d: BookDelta)
      requires Valid()
      modifies Repr
      ensures Valid() && Abs() == ShardSpec.Fetch(old(Abs()).(tracker := ApplyStep(old(Abs()).tracker, d).0))
    {
      StepSound(tracker.Abs(), Deliver(d));
      var r := tracker.Apply(d);
      Fetch();
    }

    /** The fetch goroutine has its answer. */
    method Serve(i: nat, r: Option<Snapshot>)
      requires Valid() && CanServe(Abs(), i)
      modifies Repr
      ensures Valid() && Abs() == ServeCell(old(Abs()), i, r)
    {
      flight := flight[i := Answered(r)];
    }

    /** complete. */
    method Complete(i: nat)
      requires Valid() && CanComplete(Abs(), i)
      modifies Repr
      ensures Valid() && Abs() == CompleteCell(old(Abs()), i)
    {
      var res := flight[i].result;
      flight := flight[..i] + flight[i + 1..];
      match res
      case None =>
        tracker.FetchFailed();
        Fetch();
      case Some(s) =>
        Load(s);
    }
  }

  class ShardLoop {
    const bufferCap: int
    var books: map<Symbol, Slot>
    /** Every object of every slot on this shard. */
    ghost var Owned: set<object>

    ghost predicate Valid()
      reads this, Owned
    {
      && this !in Owned
      && (forall sym <- books :: books[sym].Repr <= Owned && books[sym].Valid())
      && (forall a <- books, b <- books :: a != b ==> books[a].Repr !! books[b].Repr)
    }

    /** The book held for a symbol, if any. */
    ghost function At(sym: Symbol): Option<Cell>
      requires Valid()
      reads this, Owned
    {
      if sym in books then Some(books[sym].Abs()) else None
    }

    constructor (bufferCap: int)
      ensures Valid() && Owned == {} && this.bufferCap == bufferCap && forall sym :: At(sym) == None
    {
      this.bufferCap := bufferCap;
      books, Owned := map[], {};
    }

    /** Work on one slot leaves every other slot as it was. */
    twostate lemma OthersKept(slot: Slot)
      requires old(Valid()) && unchanged(this) && slot.Valid()
      requires forall x <- books :: books[x] != slot ==> unchanged(books[x].Repr)
      ensures Valid()
      ensures forall x :: x !in books || books[x] != slot ==> At(x) == old(At(x))
    {
      forall x | x in books && books[x] != slot
        ensures books[x].Valid() && books[x].Abs() == old(books[x].Abs())
      {
        SlotKept(books[x]);
      }
    }

    static twostate lemma SlotKept(slot: Slot)
      requires old(slot.Valid()) && unchanged(slot.Repr)
      ensures slot.Valid() && slot.Abs() == old(slot.Abs())
    {
    }

    /** tracker: looked up, or created with its first snapshot request. */
    method Track(sym: Symbol)
      requires Valid()
      modifies this
      ensures Valid() && sym in books && fresh(Owned - old(Owned))
      ensures At(sym) == Some(CellFor(old(At(sym)), sym, bufferCap))
      ensures forall x :: x != sym ==> At(x) == old(At(x))
    {
      if sym !in books {
        var slot := new Slot(sym, bufferCap);
        Install(sym, slot);
      }
    }

    method Install(sym: Symbol, slot: Slot)
      requires Valid() && sym !in books && slot.Valid() && slot.Repr !! Owned + {this}
      modifies this
      ensures Valid() && books == old(books)[sym := slot] && Owned == old(Owned) + slot.Repr
      ensures forall x :: At(x) == if x == sym then Some(slot.Abs()) else old(At(x))
    {
      hide Slot.Valid, Slot.Abs;
      books, Owned := books[sym := slot], Owned + slot.Repr;
    }

    /** handle. */
    method Handle(ev: Event)
      requires Valid()
      modifies this, Owned
      ensures Valid() && fresh(Owned - old(Owned))
      ensures forall x :: At(x) == if EventSymbol(ev) == Some(x) then HandleCell(old(At(x)), bufferCap, ev) else old(At(x))
    {
      hide Valid, ApplyStep, Fetch, LoadCell, CellFor;
      match ev
      case Delta(d) =>
        Track(d.symbol);
        ApplyAt(d.symbol, d);
      case Snap(s) =>
        Track(s.symbol);
        LoadAt(s.symbol, s);
      case Trade(_) =>
      case Unknown =>
    }

    method ApplyAt(sym: Symbol, d: BookDelta)
      requires Valid() && sym in books
      modifies books[sym].Repr
      ensures Valid() && At(sym) == Some(ShardSpec.Fetch(old(At(sym)).value.(tracker := ApplyStep(old(At(sym)).value.tracker, d).0)))
      ensures forall x :: x != sym ==> At(x) == old(At(x))
    {
      books[sym].Apply(d);
      OthersKept(books[sym]);
    }

    method LoadAt(sym: Symbol, s: Snapshot)
      requires Valid() && sym in books
      modifies books[sym].Repr
      ensures Valid() && At(sym) == Some(LoadCell(old(At(sym)).value, s))
      ensures forall x :: x != sym ==> At(x) == old(At(x))
    {
      books[sym].Load(s);
      OthersKept(books[sym]);
    }

    /** complete. */
    method Complete(sym: Symbol, i: nat)
      requires Valid() && sym in books && CanComplete(At(sym).value, i)
      modifies books[sym].Repr
      ensures Valid() && At(sym) == Some(CompleteCell(old(At(sym)).value, i))
      ensures forall x :: x != sym ==> At(x) == old(At(x))
    {
      books[sym].Complete(i);
      OthersKept(books[sym]);
    }

    /** answer: a read between two deltas.  It changes no tracker and creates
    no book; a view that says live holds nothing back in the buffer, and its
    levels are the nearest ones of the two maps. */
    method Answer(sym: Symbol, depth: int, check: Option<Snapshot>) returns (r: Answer)
      requires Valid()
      ensures r.UnknownSymbol? <==> sym !in books
      ensures r.Checked? <==> sym in books && check.Some?
      ensures r.Checked? ==> Answers(books[sym].Abs().tracker, check.value, r.result)
      ensures r.View? ==> Shows(r.view, sym, books[sym].Abs().tracker, depth)
    {
      if sym !in books {
        return UnknownSymbol;
      }
      var t := books[sym].tracker;
      if check.Some? {
        var d := Comparing.Compare(t, check.value);
        return Checked(d);
      }
      var view := ViewOf(t, sym, depth);
      return View(view);
    }
  }

  /** A view tells the truth about a tracker. */
  ghost predicate Shows(v: BookView, sym: Symbol, t: State, depth: int) {
    var c := t.core;
    && v.stats == t.stats
    && v.symbol == sym && v.live == c.synced && v.lastId == c.last
    && v.buffered == |c.buf| && (v.live ==> v.buffered == 0)
    && v.bidDepth == |c.depths.bids| && v.askDepth == |c.depths.asks|
    && (v.crossed <==> exists b, a :: b in c.depths.bids && a in c.depths.asks && b >= a)
    && IsTop(true, v.bids, c.depths.bids, depth) && IsTop(false, v.asks, c.depths.asks, depth)
  }

  method ViewOf(t: Tracker, sym: Symbol, depth: int) returns (v: BookView)
    requires t.Valid() && BufferSound(t.Abs())
    ensures Shows(v, sym, t.Abs(), depth)
  {
    var crossed := t.book.Crossed();
    var bids := t.book.bids.Top(depth);
    var asks := t.book.asks.Top(depth);
    TopOfSide(true, t.book.bids.levels, t.book.bids.Contents(), depth);
    TopOfSide(false, t.book.asks.levels, t.book.asks.Contents(), depth);
    v := BookView(sym, t.seqr.synced, t.seqr.last, crossed, bids, asks,
                  |t.book.bids.levels|, |t.book.asks.levels|, |t.buf|, t.stats);
  }

  /** The nearest `n` levels of a map, top first, or all when it has fewer. */
  ghost predicate IsTop(desc: bool, ls: seq<Level>, m: Depth, n: int) {
    && Sorted(desc, ls)
    && |ls| == (if n <= 0 then 0 else if n < |m| then n else |m|)
    && (forall i :: 0 <= i < |ls| ==> ls[i].price in m && m[ls[i].price] == ls[i].qty)
    && (forall i, p :: 0 <= i < |ls| && p in m && Nearer(desc, p, ls[i].price) ==> Lists(ls, p))
  }

  lemma TopOfSide(desc: bool, levels: seq<Level>, m: Depth, n: int)
    requires Sorted(desc, levels) && Represents(levels, m)
    ensures |m| == |levels|
    ensures IsTop(desc, levels[..if n <= 0 then 0 else if n < |levels| then n else |levels|], m, n)
  {
    DepthCount(desc, levels, m);
    var ls := levels[..if n <= 0 then 0 else if n < |levels| then n else |levels|];
    forall i, p | 0 <= i < |ls| && p in m && Nearer(desc, p, ls[i].price) ensures Lists(ls, p) {
      assert Lists(levels, p);
      var j :| 0 <= j < |levels| && levels[j].price == p;
      assert j < i;
      assert ls[j].price == p;
    }
  }

  lemma {:induction false} DepthCount(desc: bool, levels: seq<Level>, m: Depth)
    requires TopFirst(desc, levels) && Represents(levels, m)
    ensures |m| == |levels|
    decreases |levels|
  {
    if levels == [] {
      assert forall p :: p !in m;
      assert m == map[];
    } else {
      DropTop(desc, levels, m);
      DepthCount(desc, levels[1..], m - {levels[0].price});
      assert m.Keys == (m - {levels[0].price}).Keys + {levels[0].price};
    }
  }
}
