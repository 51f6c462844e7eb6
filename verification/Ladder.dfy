/** One side of a book: the price-to-quantity map it stands for, and the
sorted slice that represents it (internal/book/book.go). */
module Ladder {
  import opened MarketModel

  /** What a side means: the quantity resting at each price. */
  type Depth = map<int, int>

  function QtyAt(m: Depth, p: int): int {
    if p in m then m[p] else 0
  }

  ghost predicate ZeroFree(m: Depth) {
    forall p <- m :: m[p] != 0
  }

  /** Set the quantity at one price; zero removes the price. */
  function Put(m: Depth, l: Level): Depth {
    if l.qty == 0 then m - {l.price} else m[l.price := l.qty]
  }

  /** A whole list of levels, applied in order. */
  function PutAll(m: Depth, ls: seq<Level>): Depth {
    if ls == [] then m else Put(PutAll(m, ls[..|ls| - 1]), ls[|ls| - 1])
  }

  ghost predicate Lists(ls: seq<Level>, p: int) {
    exists i :: 0 <= i < |ls| && ls[i].price == p
  }

  /** The quantity the last occurrence of `p` gives. */
  function LastQty(ls: seq<Level>, p: int): int
    requires Lists(ls, p)
  {
    var n := |ls| - 1;
    if ls[n].price == p then ls[n].qty else
      assert Lists(ls[..n], p) by {
        var i :| 0 <= i < |ls| && ls[i].price == p;
        assert ls[..n][i].price == p;
      }
      LastQty(ls[..n], p)
  }

  /** Applying a list is reading off, price by price, its last mention. */
  lemma {:induction false} PutAllAt(m: Depth, ls: seq<Level>, p: int)
    requires ZeroFree(m)
    ensures ZeroFree(PutAll(m, ls))
    ensures QtyAt(PutAll(m, ls), p) == if Lists(ls, p) then LastQty(ls, p) else QtyAt(m, p)
  {
    if ls != [] {
      PutAllAt(m, ls[..|ls| - 1], p);
      ListsLast(ls, p);
      hide Lists;
    }
  }

  lemma {:induction false} ListsLast(ls: seq<Level>, p: int)
    requires ls != []
    ensures Lists(ls, p) <==> ls[|ls| - 1].price == p || Lists(ls[..|ls| - 1], p)
  {
    var n := |ls| - 1;
    assert forall i :: 0 <= i < n ==> ls[..n][i] == ls[i];
    if Lists(ls, p) && ls[n].price != p {
      var i :| 0 <= i < |ls| && ls[i].price == p;
      assert ls[..n][i].price == p;
    }
    if Lists(ls[..n], p) {
      var i :| 0 <= i < n && ls[..n][i].price == p;
      assert ls[i].price == p;
    }
  }

  /** Zero-free maps are equal when they give every price the same quantity. */
  lemma SameDepth(a: Depth, b: Depth)
    requires ZeroFree(a) && ZeroFree(b)
    requires forall p :: QtyAt(a, p) == QtyAt(b, p)
    ensures a == b
  {
    forall p
      ensures p in a <==> p in b
      ensures p in a ==> a[p] == b[p]
    {
      assert QtyAt(a, p) == QtyAt(b, p);
    }
  }

  // ---------- The sorted slice ----------

  /** Whether price `a` sits closer to the top of book than `b`. */
  predicate Nearer(desc: bool, a: int, b: int) {
    if desc then a > b else a < b
  }

  /** side.compare: negative, zero or positive as the stored level comes
  before, at or after the target price. */
  function Compare(desc: bool, l: Level, p: int): (r: int)
    ensures r < 0 <==> Nearer(desc, l.price, p)
    ensures r == 0 <==> l.price == p
  {
    if desc then p - l.price else l.price - p
  }

  ghost predicate TopFirst(desc: bool, ls: seq<Level>) {
    forall i, j :: 0 <= i < j < |ls| ==> Nearer(desc, ls[i].price, ls[j].price)
  }

  ghost predicate Distinct(ls: seq<Level>) {
    forall i, j :: 0 <= i < j < |ls| ==> ls[i].price != ls[j].price
  }

  /** A slice with one entry per price, none of them zero. */
  ghost predicate NoZero(ls: seq<Level>) {
    forall i :: 0 <= i < |ls| ==> ls[i].qty != 0
  }

  ghost predicate Sorted(desc: bool, ls: seq<Level>) {
    TopFirst(desc, ls) && NoZero(ls)
  }

  /** The slice `ls`, one entry per price, stands for the map `m`. */
  ghost predicate Represents(ls: seq<Level>, m: Depth) {
    && (forall i :: 0 <= i < |ls| ==> ls[i].price in m && m[ls[i].price] == ls[i].qty)
    && (forall p <- m :: Lists(ls, p))
  }

  ghost function DepthOf(ls: seq<Level>): (m: Depth)
    requires Distinct(ls)
    ensures Represents(ls, m)
  {
    if ls == [] then map[]
    else
      var n := |ls| - 1;
      var rest := DepthOf(ls[..n]);
      var m := rest[ls[n].price := ls[n].qty];
      assert Represents(ls, m) by { Grow(ls, rest); }
      m
  }

  lemma Grow(ls: seq<Level>, rest: Depth)
    requires ls != [] && Distinct(ls) && Represents(ls[..|ls| - 1], rest)
    ensures Represents(ls, rest[ls[|ls| - 1].price := ls[|ls| - 1].qty])
  {
    var n := |ls| - 1;
    var m := rest[ls[n].price := ls[n].qty];
    forall i | 0 <= i < |ls| ensures ls[i].price in m && m[ls[i].price] == ls[i].qty {
      if i < n { assert ls[..n][i] == ls[i]; }
    }
    forall p | p in m ensures Lists(ls, p) {
      if p in rest {
        var i :| 0 <= i < n && ls[..n][i].price == p;
        assert ls[i].price == p;
      } else {
        assert ls[n].price == p;
      }
    }
  }

  /** A slice stands for one map only. */
  lemma OneMap(ls: seq<Level>, m: Depth)
    requires Distinct(ls) && Represents(ls, m)
    ensures m == DepthOf(ls)
    ensures NoZero(ls) ==> ZeroFree(m)
  {
    var m' := DepthOf(ls);
    forall p
      ensures p in m <==> p in m'
      ensures p in m ==> m[p] == m'[p]
    {
      assert p in m ==> Lists(ls, p);
      assert p in m' ==> Lists(ls, p);
    }
  }

  /** The slice a map has is unique: the representation is canonical. */
  lemma {:induction false} Canonical(desc: bool, a: seq<Level>, b: seq<Level>, m: Depth)
    requires TopFirst(desc, a) && TopFirst(desc, b)
    requires Represents(a, m) && Represents(b, m)
    ensures a == b
    decreases |a|
  {
    if a == [] {
      assert forall p :: p !in m;
    } else {
      assert Lists(b, a[0].price);
      var j :| 0 <= j < |b| && b[j].price == a[0].price;
      assert Lists(a, b[0].price);
      var k :| 0 <= k < |a| && a[k].price == b[0].price;
      assert j == 0 && k == 0;
      DropTop(desc, a, m);
      DropTop(desc, b, m);
      Canonical(desc, a[1..], b[1..], m - {a[0].price});
      assert a == [a[0]] + a[1..] && b == [b[0]] + b[1..];
    }
  }

  lemma OnePerPrice(desc: bool, ls: seq<Level>)
    requires TopFirst(desc, ls)
    ensures forall i, j :: 0 <= i < |ls| && 0 <= j < |ls| && i != j ==> ls[i].price != ls[j].price
  {
  }

  lemma DropTop(desc: bool, a: seq<Level>, m: Depth)
    requires TopFirst(desc, a) && a != [] && Represents(a, m)
    ensures TopFirst(desc, a[1..]) && Represents(a[1..], m - {a[0].price})
  {
    assert a[..0] + a[0 + 1..] == a[1..];
    DeletedAt(desc, a, 0, m);
  }

  /** The three ways a slice changes, seen as a change of the map. */
  lemma UpdatedAt(desc: bool, ls: seq<Level>, i: nat, l: Level, m: Depth)
    requires TopFirst(desc, ls) && Represents(ls, m) && i < |ls| && ls[i].price == l.price
    ensures TopFirst(desc, ls[i := l]) && Represents(ls[i := l], m[l.price := l.qty])
  {
    var r := ls[i := l];
    assert forall j :: 0 <= j < |ls| ==> r[j].price == ls[j].price;
    forall p | p in m ensures Lists(r, p) {
      var j :| 0 <= j < |ls| && ls[j].price == p;
      assert r[j].price == p;
    }
  }

  lemma InsertedAt(desc: bool, ls: seq<Level>, i: nat, l: Level, m: Depth)
    requires TopFirst(desc, ls) && Represents(ls, m) && i <= |ls|
    requires forall j :: 0 <= j < i ==> Nearer(desc, ls[j].price, l.price)
    requires forall j :: i <= j < |ls| ==> Nearer(desc, l.price, ls[j].price)
    ensures TopFirst(desc, ls[..i] + [l] + ls[i..])
    ensures Represents(ls[..i] + [l] + ls[i..], m[l.price := l.qty])
  {
    var r := ls[..i] + [l] + ls[i..];
    assert forall j :: 0 <= j < |r| ==> r[j] == if j < i then ls[j] else if j == i then l else ls[j - 1];
    forall p | p in m[l.price := l.qty] ensures Lists(r, p) {
      if p == l.price {
        assert r[i].price == p;
      } else {
        assert Lists(ls, p);
        var j :| 0 <= j < |ls| && ls[j].price == p;
        assert r[if j < i then j else j + 1].price == p;
      }
    }
    forall j | 0 <= j < |r| ensures r[j].price in m[l.price := l.qty] && m[l.price := l.qty][r[j].price] == r[j].qty {
      if j < i { assert r[j] == ls[j]; } else if j > i { assert r[j] == ls[j - 1]; }
    }
    InsertedOrder(desc, ls, i, l);
  }

  lemma InsertedOrder(desc: bool, ls: seq<Level>, i: nat, l: Level)
    requires TopFirst(desc, ls) && i <= |ls|
    requires forall j :: 0 <= j < i ==> Nearer(desc, ls[j].price, l.price)
    requires forall j :: i <= j < |ls| ==> Nearer(desc, l.price, ls[j].price)
    ensures TopFirst(desc, ls[..i] + [l] + ls[i..])
  {
    var r := ls[..i] + [l] + ls[i..];
    forall x, y | 0 <= x < y < |r| ensures Nearer(desc, r[x].price, r[y].price) {
      var a, b := if x < i then x else x - 1, if y < i then y else y - 1;
      assert x != i ==> r[x] == ls[a];
      assert y != i ==> r[y] == ls[b];
    }
  }

  lemma DeletedAt(desc: bool, ls: seq<Level>, i: nat, m: Depth)
    requires TopFirst(desc, ls) && Represents(ls, m) && i < |ls|
    ensures TopFirst(desc, ls[..i] + ls[i + 1..])
    ensures Represents(ls[..i] + ls[i + 1..], m - {ls[i].price})
  {
    hide Nearer;
    assert forall j :: 0 <= j < |ls| && j != i ==> ls[j].price != ls[i].price by { OnePerPrice(desc, ls); }
    var r := ls[..i] + ls[i + 1..];
    assert forall j :: 0 <= j < |r| ==> r[j] == if j < i then ls[j] else ls[j + 1];
    forall p | p in m - {ls[i].price} ensures Lists(r, p) {
      assert Lists(ls, p);
      var j :| 0 <= j < |ls| && ls[j].price == p;
      assert r[if j < i then j else j - 1].price == p;
    }
    forall j | 0 <= j < |r| ensures r[j].price in m - {ls[i].price} && m[r[j].price] == r[j].qty {
      var k := if j < i then j else j + 1;
      assert r[j] == ls[k] && ls[k].price != ls[i].price;
    }
    DeletedOrder(desc, ls, i);
  }

  lemma DeletedOrder(desc: bool, ls: seq<Level>, i: nat)
    requires TopFirst(desc, ls) && i < |ls|
    ensures TopFirst(desc, ls[..i] + ls[i + 1..])
  {
    var r := ls[..i] + ls[i + 1..];
    forall x, y | 0 <= x < y < |r| ensures Nearer(desc, r[x].price, r[y].price) {
      assert r[x] == ls[if x < i then x else x + 1] && r[y] == ls[if y < i then y else y + 1];
    }
  }

  // ---------- Snapshots: any order, no duplicates ----------

  /** The levels of a snapshot side that are really there. */
  function Present(ls: seq<Level>): seq<Level> {
    if ls == [] then []
    else
      var n := |ls| - 1;
      Present(ls[..n]) + if ls[n].qty == 0 then [] else [ls[n]]
  }

  lemma {:induction false} PresentMembers(ls: seq<Level>)
    ensures NoZero(Present(ls))
    ensures forall l :: l in Present(ls) <==> l in ls && l.qty != 0
  {
    if ls != [] {
      var n := |ls| - 1;
      PresentMembers(ls[..n]);
      assert ls == ls[..n] + [ls[n]];
    }
  }

  lemma {:induction false} PresentCounts(ls: seq<Level>, l: Level)
    ensures multiset(Present(ls))[l] == if l.qty == 0 then 0 else multiset(ls)[l]
  {
    if ls != [] {
      var n := |ls| - 1;
      PresentCounts(ls[..n], l);
      assert ls == ls[..n] + [ls[n]];
    }
  }

  lemma PresentPermutes(a: seq<Level>, b: seq<Level>)
    requires multiset(a) == multiset(b)
    ensures multiset(Present(a)) == multiset(Present(b))
  {
    forall l ensures multiset(Present(a))[l] == multiset(Present(b))[l] {
      PresentCounts(a, l);
      PresentCounts(b, l);
    }
  }

  lemma {:induction false} Twice(ls: seq<Level>, l: Level) returns (i: nat, j: nat)
    requires multiset(ls)[l] >= 2
    ensures i < j < |ls| && ls[i] == l && ls[j] == l
  {
    var n := |ls| - 1;
    assert ls == ls[..n] + [ls[n]];
    if ls[n] == l {
      assert l in multiset(ls[..n]);
      i :| 0 <= i < n && ls[i] == l;
      j := n;
    } else {
      i, j := Twice(ls[..n], l);
    }
  }

  lemma TwoCopies(ls: seq<Level>, i: nat, j: nat)
    requires i < j < |ls| && ls[i] == ls[j]
    ensures multiset(ls)[ls[i]] >= 2
  {
    assert ls == ls[..j] + [ls[j]] + ls[j + 1..];
    assert ls[i] in ls[..j];
    assert ls[i] in multiset(ls[..j]);
  }

  lemma PermutedDistinct(a: seq<Level>, b: seq<Level>)
    requires multiset(a) == multiset(b) && Distinct(a)
    ensures Distinct(b)
  {
    forall i, j | 0 <= i < j < |b|
      ensures b[i].price != b[j].price
    {
      if b[i].price == b[j].price {
        assert b[i] in multiset(a) && b[j] in multiset(a);
        assert b[i] == b[j];
        TwoCopies(b, i, j);
        var x, y := Twice(a, b[i]);
        assert false;
      }
    }
  }

  /** Distinctness and meaning depend only on which levels there are. */
  lemma PermutedDepth(a: seq<Level>, b: seq<Level>)
    requires multiset(a) == multiset(b) && Distinct(a)
    ensures Distinct(b) && DepthOf(a) == DepthOf(b)
  {
    PermutedDistinct(a, b);
    var m := DepthOf(a);
    forall i | 0 <= i < |b| ensures b[i].price in m && m[b[i].price] == b[i].qty {
      assert b[i] in multiset(a);
      var x :| 0 <= x < |a| && a[x] == b[i];
    }
    forall p | p in m ensures Lists(b, p) {
      var i :| 0 <= i < |a| && a[i].price == p;
      assert a[i] in multiset(b);
      var x :| 0 <= x < |b| && b[x] == a[i];
    }
    OneMap(b, m);
  }
}
