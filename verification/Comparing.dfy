/** The correctness check (internal/book/compare.go): a bounded merge-diff of
a maintained book and a fresh snapshot. */
module Comparing {
  import opened MarketModel
  import opened Ladder
  import opened BookSpec
  import opened Sequencing
  import opened TrackerSpec
  import opened Books
  import opened Trackers
  import opened Venue

  datatype BookSide = Bid | Ask

  datatype LevelDiff = LevelDiff(side: BookSide, price: int, local: int, remote: int)

  datatype Diff = Diff(symbol: Symbol, live: bool, localId: int, snapshotId: int, compared: nat,
                       levels: seq<LevelDiff>, bidFloor: int, askCeil: int)

  datatype CompareError = WrongSymbol | RepeatedPrice

  datatype CompareResult = Compared(diff: Diff) | Refused(err: CompareError)

  /** Whether the range bounded by `bound` reaches `p`; a zero bound is none. */
  predicate Covers(desc: bool, bound: int, p: int) {
    bound == 0 || (if desc then p >= bound else p <= bound)
  }

  // ---------- The merge ----------

  /** What is left to report, and to count, from two slices. */
  function Merge(sd: BookSide, desc: bool, l: seq<Level>, r: seq<Level>, bound: int): (seq<LevelDiff>, nat)
    decreases |l| + |r|
  {
    var hasL := l != [] && Covers(desc, bound, l[0].price);
    var hasR := r != [] && Covers(desc, bound, r[0].price);
    if !hasL && !hasR then ([], 0)
    else if hasL && hasR && l[0].price == r[0].price then
      var (out, n) := Merge(sd, desc, l[1..], r[1..], bound);
      (if l[0].qty != r[0].qty then [LevelDiff(sd, l[0].price, l[0].qty, r[0].qty)] + out else out, n + 1)
    else if hasL && (!hasR || Nearer(desc, l[0].price, r[0].price)) then
      var (out, n) := Merge(sd, desc, l[1..], r, bound);
      ([LevelDiff(sd, l[0].price, l[0].qty, 0)] + out, n + 1)
    else
      var (out, n) := Merge(sd, desc, l, r[1..], bound);
      ([LevelDiff(sd, r[0].price, 0, r[0].qty)] + out, n + 1)
  }

  /** One turn of the loop at `i`, `j`: what it appends and where it goes on. */
  lemma MergeTurn(sd: BookSide, desc: bool, l: seq<Level>, r: seq<Level>, bound: int, i: nat, j: nat)
    requires i <= |l| && j <= |r|
    ensures var hasL := i < |l| && Covers(desc, bound, l[i].price);
      var hasR := j < |r| && Covers(desc, bound, r[j].price);
      var (out, n) := Merge(sd, desc, l[i..], r[j..], bound);
      if !hasL && !hasR then out == [] && n == 0
      else if hasL && hasR && l[i].price == r[j].price then
        var rest := Merge(sd, desc, l[i + 1..], r[j + 1..], bound);
        && n == rest.1 + 1
        && out == (if l[i].qty != r[j].qty then [LevelDiff(sd, l[i].price, l[i].qty, r[j].qty)] else []) + rest.0
      else if hasL && (!hasR || Nearer(desc, l[i].price, r[j].price)) then
        var rest := Merge(sd, desc, l[i + 1..], r[j..], bound);
        n == rest.1 + 1 && out == [LevelDiff(sd, l[i].price, l[i].qty, 0)] + rest.0
      else
        var rest := Merge(sd, desc, l[i..], r[j + 1..], bound);
        n == rest.1 + 1 && out == [LevelDiff(sd, r[j].price, 0, r[j].qty)] + rest.0
  {
    assert i < |l| ==> l[i..][1..] == l[i + 1..];
    assert j < |r| ==> r[j..][1..] == r[j + 1..];
  }

  /** compareSide: the two-index loop. */
  method CompareSide(sd: BookSide, desc: bool, local: seq<Level>, remote: seq<Level>, bound: int, before: seq<LevelDiff>)
    returns (out: seq<LevelDiff>, n: nat)
    ensures out == before + Merge(sd, desc, local, remote, bound).0
    ensures n == Merge(sd, desc, local, remote, bound).1
  {
    hide Merge;
    out, n := before, 0;
    var i, j := 0, 0;
    ghost var all := Merge(sd, desc, local, remote, bound);
    assert local[0..] == local && remote[0..] == remote;
    while true
      invariant 0 <= i <= |local| && 0 <= j <= |remote|
      invariant before + all.0 == out + Merge(sd, desc, local[i..], remote[j..], bound).0
      invariant all.1 == n + Merge(sd, desc, local[i..], remote[j..], bound).1
      decreases |local| - i + |remote| - j
    {
      MergeTurn(sd, desc, local, remote, bound, i, j);
      var hasL := i < |local| && Covers(desc, bound, local[i].price);
      var hasR := j < |remote| && Covers(desc, bound, remote[j].price);
      if !hasL && !hasR {
        return;
      } else if hasL && hasR && local[i].price == remote[j].price {
        if local[i].qty != remote[j].qty {
          out := out + [LevelDiff(sd, local[i].price, local[i].qty, remote[j].qty)];
        }
        i, j := i + 1, j + 1;
      } else if hasL && (!hasR || Nearer(desc, local[i].price, remote[j].price)) {
        out := out + [LevelDiff(sd, local[i].price, local[i].qty, 0)];
        i := i + 1;
      } else {
        out := out + [LevelDiff(sd, remote[j].price, 0, remote[j].qty)];
        j := j + 1;
      }
      n := n + 1;
    }
  }

  // ---------- The merge is the map difference ----------

  ghost predicate Reports(out: seq<LevelDiff>, p: int) {
    exists i :: 0 <= i < |out| && out[i].price == p
  }

  /** `out` lists, once each and top first, exactly the prices in range at
  which the two maps differ, with the quantity each gives. */
  ghost predicate Exact(sd: BookSide, desc: bool, out: seq<LevelDiff>, x: Depth, y: Depth, bound: int) {
    && (forall i, j :: 0 <= i < j < |out| ==> Nearer(desc, out[i].price, out[j].price))
    && (forall i :: 0 <= i < |out| ==>
        out[i] == LevelDiff(sd, out[i].price, QtyAt(x, out[i].price), QtyAt(y, out[i].price)))
    && (forall p :: Reports(out, p) <==> Covers(desc, bound, p) && QtyAt(x, p) != QtyAt(y, p))
  }

  ghost function InRange(desc: bool, x: Depth, y: Depth, bound: int): set<int> {
    set p | p in x.Keys + y.Keys && Covers(desc, bound, p)
  }

  /** No key of a represented map is nearer than the first entry. */
  lemma FirstIsNearest(desc: bool, l: seq<Level>, x: Depth)
    requires TopFirst(desc, l) && Represents(l, x)
    ensures l == [] ==> forall p :: p !in x
    ensures l != [] ==> l[0].price in x && x[l[0].price] == l[0].qty
    ensures l != [] ==> forall p <- x :: p == l[0].price || Nearer(desc, l[0].price, p)
  {
    forall p | p in x ensures l != [] && (p == l[0].price || Nearer(desc, l[0].price, p)) {
      assert Lists(l, p);
    }
  }

  /** What is known of a report on everything past the nearest price `p`. */
  lemma PastNearest(sd: BookSide, desc: bool, p: int, rest: seq<LevelDiff>, x: Depth, y: Depth, bound: int)
    requires forall q <- x :: q == p || Nearer(desc, p, q)
    requires forall q <- y :: q == p || Nearer(desc, p, q)
    requires Exact(sd, desc, rest, x - {p}, y - {p}, bound)
    ensures forall i :: 0 <= i < |rest| ==> Nearer(desc, p, rest[i].price)
    ensures forall i :: 0 <= i < |rest| ==>
        rest[i] == LevelDiff(sd, rest[i].price, QtyAt(x, rest[i].price), QtyAt(y, rest[i].price))
    ensures forall q :: Reports(rest, q) <==> q != p && Covers(desc, bound, q) && QtyAt(x, q) != QtyAt(y, q)
  {
    forall q ensures Reports(rest, q) <==> q != p && Covers(desc, bound, q) && QtyAt(x, q) != QtyAt(y, q) {
      assert QtyAt(x - {p}, q) == if q == p then 0 else QtyAt(x, q);
      assert QtyAt(y - {p}, q) == if q == p then 0 else QtyAt(y, q);
    }
    forall i | 0 <= i < |rest|
      ensures Nearer(desc, p, rest[i].price)
      ensures rest[i] == LevelDiff(sd, rest[i].price, QtyAt(x, rest[i].price), QtyAt(y, rest[i].price))
    {
      assert Reports(rest, rest[i].price);
    }
  }

  /** Reporting, or not, the nearest price and then the rest is reporting all. */
  lemma ExactCons(sd: BookSide, desc: bool, p: int, rest: seq<LevelDiff>, x: Depth, y: Depth, bound: int)
    requires Covers(desc, bound, p)
    requires forall q <- x :: q == p || Nearer(desc, p, q)
    requires forall q <- y :: q == p || Nearer(desc, p, q)
    requires Exact(sd, desc, rest, x - {p}, y - {p}, bound)
    ensures var here := LevelDiff(sd, p, QtyAt(x, p), QtyAt(y, p));
      Exact(sd, desc, (if here.local != here.remote then [here] + rest else rest), x, y, bound)
  {
    hide QtyAt;
    hide Covers;
    PastNearest(sd, desc, p, rest, x, y, bound);
    var here := LevelDiff(sd, p, QtyAt(x, p), QtyAt(y, p));
    if here.local != here.remote {
      ReportsCons(here, rest);
      var out := [here] + rest;
      assert forall i :: 0 <= i < |out| ==> out[i] == if i == 0 then here else rest[i - 1];
    }
  }

  lemma ReportsCons(here: LevelDiff, rest: seq<LevelDiff>)
    ensures forall q :: Reports([here] + rest, q) <==> q == here.price || Reports(rest, q)
  {
    var out := [here] + rest;
    forall q ensures Reports(out, q) <==> q == here.price || Reports(rest, q) {
      if q == here.price { assert out[0].price == q; }
      if Reports(rest, q) {
        var i :| 0 <= i < |rest| && rest[i].price == q;
        assert out[i + 1].price == q;
      }
    }
  }

  lemma InRangeCons(desc: bool, p: int, x: Depth, y: Depth, bound: int)
    requires (p in x || p in y) && Covers(desc, bound, p)
    ensures |InRange(desc, x, y, bound)| == |InRange(desc, x - {p}, y - {p}, bound)| + 1
  {
    assert InRange(desc, x, y, bound) == InRange(desc, x - {p}, y - {p}, bound) + {p};
  }

  /** For strictly sorted zero-free slices, compareSide computes the map
  difference over the range, and counts the prices of the two in range. */
  lemma {:induction false} MergeIsExact(sd: BookSide, desc: bool, l: seq<Level>, r: seq<Level>, x: Depth, y: Depth, bound: int)
    requires Sorted(desc, l) && Sorted(desc, r) && Represents(l, x) && Represents(r, y)
    ensures Exact(sd, desc, Merge(sd, desc, l, r, bound).0, x, y, bound)
    ensures Merge(sd, desc, l, r, bound).1 == |InRange(desc, x, y, bound)|
    decreases |l| + |r|
  {
    FirstIsNearest(desc, l, x);
    FirstIsNearest(desc, r, y);
    var hasL := l != [] && Covers(desc, bound, l[0].price);
    var hasR := r != [] && Covers(desc, bound, r[0].price);
    if !hasL && !hasR {
      assert InRange(desc, x, y, bound) == {};
    } else if hasL && hasR && l[0].price == r[0].price {
      var p := l[0].price;
      DropTop(desc, l, x);
      DropTop(desc, r, y);
      MergeIsExact(sd, desc, l[1..], r[1..], x - {p}, y - {p}, bound);
      ExactCons(sd, desc, p, Merge(sd, desc, l[1..], r[1..], bound).0, x, y, bound);
      InRangeCons(desc, p, x, y, bound);
    } else if hasL && (!hasR || Nearer(desc, l[0].price, r[0].price)) {
      var p := l[0].price;
      assert p !in y;
      assert y - {p} == y;
      DropTop(desc, l, x);
      MergeIsExact(sd, desc, l[1..], r, x - {p}, y, bound);
      ExactCons(sd, desc, p, Merge(sd, desc, l[1..], r, bound).0, x, y, bound);
      InRangeCons(desc, p, x, y, bound);
    } else {
      var p := r[0].price;
      assert p !in x;
      assert x - {p} == x;
      DropTop(desc, r, y);
      MergeIsExact(sd, desc, l, r[1..], x, y - {p}, bound);
      ExactCons(sd, desc, p, Merge(sd, desc, l, r[1..], bound).0, x, y, bound);
      InRangeCons(desc, p, x, y, bound);
    }
  }

  // ---------- Compare ----------

  /** The shallower of the book's own edge and the snapshot's deepest level. */
  function RangeEdge(desc: bool, edge: int, truncated: bool, remote: seq<Level>): int {
    var n := |remote|;
    if truncated && n > 0 && (if desc then remote[n - 1].price > edge else edge == 0 || remote[n - 1].price < edge)
    then remote[n - 1].price
    else edge
  }

  /** A report that says exactly where the book and the snapshot differ, over
  the range both claim to know. */
  ghost predicate ExactDiff(c: Core, s: Snapshot, d: Diff)
    requires Distinct(Present(s.bids)) && Distinct(Present(s.asks))
  {
    exists bs, as_, rb, ra ::
      && d.levels == bs + as_
      && Sorted(true, rb) && Represents(rb, DepthOf(Present(s.bids)))
      && Sorted(false, ra) && Represents(ra, DepthOf(Present(s.asks)))
      && d.bidFloor == RangeEdge(true, c.bidFloor, s.truncated, rb)
      && d.askCeil == RangeEdge(false, c.askCeil, s.truncated, ra)
      && Exact(Bid, true, bs, c.depths.bids, DepthOf(Present(s.bids)), d.bidFloor)
      && Exact(Ask, false, as_, c.depths.asks, DepthOf(Present(s.asks)), d.askCeil)
  }

  // ---------- The range, said of the snapshot itself ----------

  /** A price the book knows, down to its own edge, and so does the snapshot: it is
  complete, or lists nothing here, or lists a level with a quantity no nearer. */
  ghost predicate BothKnow(desc: bool, edge: int, truncated: bool, ls: seq<Level>, p: int) {
    && (edge == 0 || if desc then edge <= p else p <= edge)
    && (truncated && (exists l <- ls :: l.qty != 0) ==>
        exists l <- ls :: l.qty != 0 && if desc then l.price <= p else p <= l.price)
  }

  ghost predicate PositiveSide(x: Depth, ls: seq<Level>) {
    (forall p <- x :: p > 0) && forall l <- ls :: l.qty != 0 ==> l.price > 0
  }

  /** A map that holds exactly the listed quantities. */
  ghost predicate Gives(ls: seq<Level>, y: Depth) {
    ZeroFree(y) && forall l: Level :: l.qty != 0 ==> (l in ls <==> QtyAt(y, l.price) == l.qty)
  }

  lemma SnapshotGives(ls: seq<Level>)
    requires Distinct(Present(ls))
    ensures Gives(ls, DepthOf(Present(ls)))
  {
    PresentAt(ls, 0, 1);
    forall l: Level | l.qty != 0 ensures l in ls <==> QtyAt(DepthOf(Present(ls)), l.price) == l.qty {
      PresentAt(ls, l.price, l.qty);
    }
  }

  /** The last level of a sorted side is the deepest of its map. */
  lemma LastIsDeepest(desc: bool, remote: seq<Level>, y: Depth)
    requires Sorted(desc, remote) && Represents(remote, y)
    ensures remote != [] ==> var l := remote[|remote| - 1]; l.qty != 0 && QtyAt(y, l.price) == l.qty
    ensures forall p :: QtyAt(y, p) != 0 ==> remote != [] && !Nearer(desc, remote[|remote| - 1].price, p)
  {
    forall p | QtyAt(y, p) != 0 ensures remote != [] && !Nearer(desc, remote[|remote| - 1].price, p) {
      assert Lists(remote, p);
    }
  }

  /** The prices compared are exactly those both know. */
  lemma RangeIsWhatBothKnow(desc: bool, edge: int, truncated: bool, ls: seq<Level>, remote: seq<Level>, y: Depth, p: int)
    requires Gives(ls, y) && Sorted(desc, remote) && Represents(remote, y)
    requires p > 0 && forall l <- ls :: l.qty != 0 ==> l.price > 0
    ensures Covers(desc, RangeEdge(desc, edge, truncated, remote), p) <==> BothKnow(desc, edge, truncated, ls, p)
  {
    LastIsDeepest(desc, remote, y);
    hide Sorted, Represents;
    forall l | l in ls && l.qty != 0 ensures remote != [] && !Nearer(desc, remote[|remote| - 1].price, l.price) {
      assert QtyAt(y, l.price) == l.qty;
    }
    if remote != [] {
      assert remote[|remote| - 1] in ls;
    }
    hide Gives;
  }

  /** One side of a report: top first, exactly the prices both know at which the
  quantities differ, with both quantities. */
  ghost predicate SideTold(sd: BookSide, desc: bool, out: seq<LevelDiff>, x: Depth, y: Depth, ls: seq<Level>,
                           edge: int, truncated: bool)
  {
    && (forall i, j :: 0 <= i < j < |out| ==> Nearer(desc, out[i].price, out[j].price))
    && (forall i :: 0 <= i < |out| ==>
        out[i] == LevelDiff(sd, out[i].price, QtyAt(x, out[i].price), QtyAt(y, out[i].price)))
    && (forall p :: Reports(out, p) <==> BothKnow(desc, edge, truncated, ls, p) && QtyAt(x, p) != QtyAt(y, p))
  }

  ghost function Known(desc: bool, x: Depth, y: Depth, ls: seq<Level>, edge: int, truncated: bool): set<int> {
    set p | p in x.Keys + y.Keys && BothKnow(desc, edge, truncated, ls, p)
  }

  lemma KeysArePositive(x: Depth, y: Depth, ls: seq<Level>, p: int)
    requires Gives(ls, y) && PositiveSide(x, ls) && (p in x || p in y)
    ensures p > 0
  {
    if p in y {
      var l := Level(p, y[p]);
      assert QtyAt(y, l.price) == l.qty != 0;
      assert l in ls;
    }
  }

  lemma SideIsTold(sd: BookSide, desc: bool, out: seq<LevelDiff>, x: Depth, y: Depth, ls: seq<Level>, remote: seq<Level>,
                   edge: int, truncated: bool)
    requires Gives(ls, y) && Sorted(desc, remote) && Represents(remote, y) && PositiveSide(x, ls)
    requires Exact(sd, desc, out, x, y, RangeEdge(desc, edge, truncated, remote))
    ensures SideTold(sd, desc, out, x, y, ls, edge, truncated)
    ensures InRange(desc, x, y, RangeEdge(desc, edge, truncated, remote)) == Known(desc, x, y, ls, edge, truncated)
    ensures forall p :: p > 0 ==>
      (Covers(desc, RangeEdge(desc, edge, truncated, remote), p) <==> BothKnow(desc, edge, truncated, ls, p))
  {
    hide RangeEdge, Covers, BothKnow, Sorted, Represents, Gives;
    forall p | p > 0
      ensures Covers(desc, RangeEdge(desc, edge, truncated, remote), p) <==> BothKnow(desc, edge, truncated, ls, p)
    {
      RangeIsWhatBothKnow(desc, edge, truncated, ls, remote, y, p);
    }
    forall p | p in x || p in y ensures p > 0 { KeysArePositive(x, y, ls, p); }
    hide PositiveSide;
    assert forall p :: QtyAt(x, p) != QtyAt(y, p) ==> p in x || p in y;
  }

  /** A whole report, over books and snapshots with positive prices. */
  ghost predicate Told(c: Core, s: Snapshot, d: Diff)
    requires Distinct(Present(s.bids)) && Distinct(Present(s.asks))
  {
    && (exists bs, as_ ::
          && d.levels == bs + as_
          && SideTold(Bid, true, bs, c.depths.bids, DepthOf(Present(s.bids)), s.bids, c.bidFloor, s.truncated)
          && SideTold(Ask, false, as_, c.depths.asks, DepthOf(Present(s.asks)), s.asks, c.askCeil, s.truncated))
    && d.compared == |Known(true, c.depths.bids, DepthOf(Present(s.bids)), s.bids, c.bidFloor, s.truncated)|
                   + |Known(false, c.depths.asks, DepthOf(Present(s.asks)), s.asks, c.askCeil, s.truncated)|
    && (forall p :: p > 0 ==> (Covers(true, d.bidFloor, p) <==> BothKnow(true, c.bidFloor, s.truncated, s.bids, p)))
    && (forall p :: p > 0 ==> (Covers(false, d.askCeil, p) <==> BothKnow(false, c.askCeil, s.truncated, s.asks, p)))
  }

  ghost predicate PositivePrices(c: Core, s: Snapshot) {
    PositiveSide(c.depths.bids, s.bids) && PositiveSide(c.depths.asks, s.asks)
  }

  lemma ReportIsTold(c: Core, s: Snapshot, d: Diff)
    requires Distinct(Present(s.bids)) && Distinct(Present(s.asks))
    requires ExactDiff(c, s, d) && PositivePrices(c, s)
    requires d.compared == |InRange(true, c.depths.bids, DepthOf(Present(s.bids)), d.bidFloor)|
                         + |InRange(false, c.depths.asks, DepthOf(Present(s.asks)), d.askCeil)|
    ensures Told(c, s, d)
  {
    SnapshotGives(s.bids);
    SnapshotGives(s.asks);
    hide Exact, SideTold, BothKnow, RangeEdge, InRange, Known, Covers, Gives, Present, DepthOf, Distinct;
    var y, z := DepthOf(Present(s.bids)), DepthOf(Present(s.asks));
    var bs, as_, rb, ra :|
      && d.levels == bs + as_
      && Sorted(true, rb) && Represents(rb, y) && Sorted(false, ra) && Represents(ra, z)
      && d.bidFloor == RangeEdge(true, c.bidFloor, s.truncated, rb)
      && d.askCeil == RangeEdge(false, c.askCeil, s.truncated, ra)
      && Exact(Bid, true, bs, c.depths.bids, y, d.bidFloor)
      && Exact(Ask, false, as_, c.depths.asks, z, d.askCeil);
    hide Sorted, Represents;
    SideIsTold(Bid, true, bs, c.depths.bids, y, s.bids, rb, c.bidFloor, s.truncated);
    SideIsTold(Ask, false, as_, c.depths.asks, z, s.asks, ra, c.askCeil, s.truncated);
  }

  /** What comparing a tracker with a snapshot has to answer: a refusal exactly
  for another symbol or a price repeated with a quantity, and otherwise the exact
  differences over the range both know, with the number of prices looked at. */
  ghost predicate Answers(t: State, s: Snapshot, r: CompareResult) {
    && (r == Refused(WrongSymbol) <==> s.symbol != t.symbol)
    && (r == Refused(RepeatedPrice) <==> s.symbol == t.symbol && !(NoRepeat(s.bids) && NoRepeat(s.asks)))
    && (r.Compared? ==>
        && Distinct(Present(s.bids)) && Distinct(Present(s.asks))
        && r.diff.symbol == s.symbol && r.diff.live == t.core.synced
        && r.diff.localId == t.core.last && r.diff.snapshotId == s.lastId
        && ExactDiff(t.core, s, r.diff)
        && (PositivePrices(t.core, s) ==> Told(t.core, s, r.diff))
        && r.diff.compared == |InRange(true, t.core.depths.bids, DepthOf(Present(s.bids)), r.diff.bidFloor)|
                            + |InRange(false, t.core.depths.asks, DepthOf(Present(s.asks)), r.diff.askCeil)|)
  }

  /** Tracker.Compare: reads the tracker, changes nothing. */
  method Compare(t: Tracker, s: Snapshot) returns (r: CompareResult)
    requires t.Valid()
    ensures Answers(t.Abs(), s, r)
  {
    hide Told, PositivePrices, NoRepeat, Present, Exact, InRange, RangeEdge, DepthOf, Merge, Distinct;
    DistinctIffNoRepeat(s.bids);
    DistinctIffNoRepeat(s.asks);
    if s.symbol != t.book.symbol {
      return Refused(WrongSymbol);
    }
    var bids := t.book.bids.SortedCopy(s.bids);
    if bids.None? { return Refused(RepeatedPrice); }
    var asks := t.book.asks.SortedCopy(s.asks);
    if asks.None? { return Refused(RepeatedPrice); }
    var rb, ra := bids.value, asks.value;
    var floor := RangeEdge(true, t.bidFloor, s.truncated, rb);
    var ceil := RangeEdge(false, t.askCeil, s.truncated, ra);
    var lv, n := CompareSide(Bid, true, t.book.bids.levels, rb, floor, []);
    var lv', n' := CompareSide(Ask, false, t.book.asks.levels, ra, ceil, lv);
    MergeIsExact(Bid, true, t.book.bids.levels, rb, t.book.bids.Contents(), DepthOf(Present(s.bids)), floor);
    MergeIsExact(Ask, false, t.book.asks.levels, ra, t.book.asks.Contents(), DepthOf(Present(s.asks)), ceil);
    assert lv == Merge(Bid, true, t.book.bids.levels, rb, floor).0;
    var d := Diff(t.book.symbol, t.seqr.synced, t.seqr.last, s.lastId, n + n', lv', floor, ceil);
    if PositivePrices(t.Abs().core, s) { ReportIsTold(t.Abs().core, s, d); }
    return Compared(d);
  }

  // ---------- No false alarm ----------

  /** Everything inside the compared range is known to both sides. */
  lemma InRangeIsKnown(v: History, desc: bool, m: Depth, edge: int, s: Snapshot, remote: seq<Level>, p: int)
    requires Lawful(v) && TruthfulSide(v, desc, s) && Distinct(Present(SnapshotSide(s, desc)))
    requires Agrees(desc, m, SideOf(v(s.lastId), desc), edge)
    requires Sorted(desc, remote) && Represents(remote, DepthOf(Present(SnapshotSide(s, desc))))
    requires Covers(desc, RangeEdge(desc, edge, s.truncated, remote), p)
    ensures QtyAt(m, p) == QtyAt(DepthOf(Present(SnapshotSide(s, desc))), p)
  {
    var ls := SnapshotSide(s, desc);
    var y, truth := DepthOf(Present(ls)), SideOf(v(s.lastId), desc);
    assert !Past(desc, p, edge) && Covered(desc, s, p) by {
      RangeWithinEdges(v, desc, edge, s, remote, p);
    }
    var q, q' := QtyAt(y, p), QtyAt(truth, p);
    if q != 0 { PresentAt(ls, p, q); }
    if q' != 0 { PresentAt(ls, p, q'); }
    assert QtyAt(m, p) == q';
  }

  lemma RangeWithinEdges(v: History, desc: bool, edge: int, s: Snapshot, remote: seq<Level>, p: int)
    requires Lawful(v) && TruthfulSide(v, desc, s) && Distinct(Present(SnapshotSide(s, desc)))
    requires Sorted(desc, remote) && Represents(remote, DepthOf(Present(SnapshotSide(s, desc))))
    requires Covers(desc, RangeEdge(desc, edge, s.truncated, remote), p)
    ensures !Past(desc, p, edge) && Covered(desc, s, p)
  {
    var ls := SnapshotSide(s, desc);
    var y := DepthOf(Present(ls));
    if remote == [] {
      assert forall q :: q !in y;
      forall i | 0 <= i < |ls| ensures ls[i].qty == 0 {
        if ls[i].qty != 0 {
          PresentAt(ls, ls[i].price, ls[i].qty);
          assert false;
        }
      }
    } else {
      var deep := remote[|remote| - 1];
      PresentAt(ls, deep.price, deep.qty);
      var i :| 0 <= i < |ls| && ls[i] == deep;
      assert !Nearer(desc, ls[i].price, deep.price);
      assert Covered(desc, s, deep.price);
      assert deep.price in SideOf(v(s.lastId), desc);
      assert deep.price > 0;
    }
  }

  lemma NothingToReport(sd: BookSide, desc: bool, out: seq<LevelDiff>, x: Depth, y: Depth, bound: int)
    requires Exact(sd, desc, out, x, y, bound)
    requires forall p :: Covers(desc, bound, p) ==> QtyAt(x, p) == QtyAt(y, p)
    ensures out == []
  {
    assert out != [] ==> Reports(out, out[0].price);
  }

  /** No false alarm: however a live book came to be, comparing it with a
  truthful snapshot at the same update id, truncated or not, reports nothing. */
  lemma NoFalseAlarm(v: History, symbol: Symbol, cap: int, calls: seq<Call>, s: Snapshot, d: Diff)
    requires Lawful(v) && TruthfulSnapshot(v, s)
    requires forall i :: 0 <= i < |calls| ==> TruthfulCall(v, symbol, calls[i])
    requires Run(NewState(symbol, cap), calls).core.synced
    requires s.lastId == Run(NewState(symbol, cap), calls).core.last
    requires Distinct(Present(s.bids)) && Distinct(Present(s.asks))
    requires ExactDiff(Run(NewState(symbol, cap), calls).core, s, d)
    ensures d.levels == []
  {
    RunFaithful(v, NewState(symbol, cap), calls);
    LiveMeansNoDiff(v, Run(NewState(symbol, cap), calls).core, s, d);
  }

  lemma LiveMeansNoDiff(v: History, c: Core, s: Snapshot, d: Diff)
    requires Lawful(v) && TruthfulSnapshot(v, s)
    requires BookAgrees(c.depths, v(s.lastId), c.bidFloor, c.askCeil)
    requires Distinct(Present(s.bids)) && Distinct(Present(s.asks)) && ExactDiff(c, s, d)
    ensures d.levels == []
  {
    var bs, as_, rb, ra :|
      && d.levels == bs + as_
      && Sorted(true, rb) && Represents(rb, DepthOf(Present(s.bids)))
      && Sorted(false, ra) && Represents(ra, DepthOf(Present(s.asks)))
      && d.bidFloor == RangeEdge(true, c.bidFloor, s.truncated, rb)
      && d.askCeil == RangeEdge(false, c.askCeil, s.truncated, ra)
      && Exact(Bid, true, bs, c.depths.bids, DepthOf(Present(s.bids)), d.bidFloor)
      && Exact(Ask, false, as_, c.depths.asks, DepthOf(Present(s.asks)), d.askCeil);
    forall p | Covers(true, d.bidFloor, p) ensures QtyAt(c.depths.bids, p) == QtyAt(DepthOf(Present(s.bids)), p) {
      InRangeIsKnown(v, true, c.depths.bids, c.bidFloor, s, rb, p);
    }
    forall p | Covers(false, d.askCeil, p) ensures QtyAt(c.depths.asks, p) == QtyAt(DepthOf(Present(s.asks)), p) {
      InRangeIsKnown(v, false, c.depths.asks, c.askCeil, s, ra, p);
    }
    NothingToReport(Bid, true, bs, c.depths.bids, DepthOf(Present(s.bids)), d.bidFloor);
    NothingToReport(Ask, false, as_, c.depths.asks, DepthOf(Present(s.asks)), d.askCeil);
  }
}
