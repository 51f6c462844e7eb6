/** The order book container (internal/book/book.go): two sorted slices,
searched by bisection and changed in place. */
module Books {
  import opened MarketModel
  import opened Ladder
  import opened BookSpec

  ghost predicate InOrder(desc: bool, ls: seq<Level>) {
    forall i, j :: 0 <= i < j < |ls| ==> !Nearer(desc, ls[j].price, ls[i].price)
  }

  /** slices.SortFunc under side.compare: some permutation in top-first order. */
  method SortLevels(desc: bool, ls: seq<Level>) returns (out: seq<Level>)
    ensures multiset(out) == multiset(ls) && InOrder(desc, out)
  {
    out := [];
    for k := 0 to |ls|
      invariant multiset(out) == multiset(ls[..k]) && InOrder(desc, out)
    {
      out := InsertLevel(desc, out, ls[k]);
      assert ls[..k + 1] == ls[..k] + [ls[k]];
    }
    assert ls[..|ls|] == ls;
  }

  method InsertLevel(desc: bool, ls: seq<Level>, l: Level) returns (out: seq<Level>)
    requires InOrder(desc, ls)
    ensures InOrder(desc, out) && multiset(out) == multiset(ls + [l])
  {
    var i := |ls|;
    while i > 0 && Nearer(desc, l.price, ls[i - 1].price)
      invariant 0 <= i <= |ls|
      invariant forall j :: i <= j < |ls| ==> Nearer(desc, l.price, ls[j].price)
    {
      i := i - 1;
    }
    out := ls[..i] + [l] + ls[i..];
    InsertKeepsOrder(desc, ls, i, l);
    assert ls == ls[..i] + ls[i..];
  }

  lemma InsertKeepsOrder(desc: bool, ls: seq<Level>, i: nat, l: Level)
    requires InOrder(desc, ls) && i <= |ls|
    requires i == 0 || !Nearer(desc, l.price, ls[i - 1].price)
    requires forall j :: i <= j < |ls| ==> Nearer(desc, l.price, ls[j].price)
    ensures InOrder(desc, ls[..i] + [l] + ls[i..])
  {
    var out := ls[..i] + [l] + ls[i..];
    forall x, y | 0 <= x < y < |out| ensures !Nearer(desc, out[y].price, out[x].price) {
      var a := if x < i then x else x - 1;
      var b := if y < i then y else y - 1;
      assert x != i ==> out[x] == ls[a];
      assert y != i ==> out[y] == ls[b];
      if y == i && x < i - 1 {
        assert !Nearer(desc, ls[i - 1].price, ls[x].price);
      }
    }
  }

  class Side {
    var levels: seq<Level>
    const desc: bool

    ghost predicate Valid()
      reads this
    {
      Sorted(desc, levels)
    }

    ghost function Contents(): (m: Depth)
      requires Valid()
      reads this
    {
      DepthOf(levels)
    }

    constructor (desc: bool)
      ensures Valid() && Contents() == map[] && this.desc == desc
    {
      this.desc := desc;
      levels := [];
    }

    /** search: where `p` sits or would be inserted, by bisection. */
    method Search(p: int) returns (i: nat, found: bool)
      requires Valid()
      ensures i <= |levels|
      ensures forall j :: 0 <= j < i ==> Nearer(desc, levels[j].price, p)
      ensures forall j :: i + (if found then 1 else 0) <= j < |levels| ==> Nearer(desc, p, levels[j].price)
      ensures found <==> p in Contents()
      ensures found ==> i < |levels| && levels[i].price == p
    {
      i := 0;
      var j := |levels|;
      while i < j
        invariant i <= j <= |levels|
        invariant forall k :: 0 <= k < i ==> Nearer(desc, levels[k].price, p)
        invariant forall k :: j <= k < |levels| ==> !Nearer(desc, levels[k].price, p)
      {
        var h := (i + j) / 2;
        if Compare(desc, levels[h], p) < 0 {
          i := h + 1;
        } else {
          j := h;
        }
      }
      found := i < |levels| && Compare(desc, levels[i], p) == 0;
      if p in Contents() {
        assert Lists(levels, p);
        assert found;
      }
    }

    /** apply: insert, update or remove one level. */
    method Apply(l: Level)
      requires Valid()
      modifies this
      ensures Valid() && Contents() == Put(old(Contents()), l)
    {
      var i, found := Search(l.price);
      ghost var was := Contents();
      if l.qty != 0 && found {
        UpdatedAt(desc, levels, i, l, was);
        levels := levels[i := levels[i].(qty := l.qty)];
      } else if l.qty != 0 {
        InsertedAt(desc, levels, i, l, was);
        levels := levels[..i] + [l] + levels[i..];
      } else if found {
        DeletedAt(desc, levels, i, was);
        levels := levels[..i] + levels[i + 1..];
      }
      OneMap(levels, Put(was, l));
    }

    /** sorted: the levels really there, in this side's order, or None on a
    repeated price; the current contents are not touched. */
    method SortedCopy(ls: seq<Level>) returns (out: Option<seq<Level>>)
      ensures out.Some? <==> Distinct(Present(ls))
      ensures out.Some? ==> Sorted(desc, out.value) && DepthOf(out.value) == DepthOf(Present(ls))
    {
      var kept := [];
      for k := 0 to |ls|
        invariant kept == Present(ls[..k])
      {
        assert ls[..k + 1][..k] == ls[..k];
        if ls[k].qty != 0 {
          kept := kept + [ls[k]];
        }
      }
      assert ls[..|ls|] == ls;
      var s := SortLevels(desc, kept);
      var i := 1;
      while i < |s|
        invariant 1 <= i
        invariant forall j :: 1 <= j < i && j < |s| ==> s[j].price != s[j - 1].price
      {
        if s[i].price == s[i - 1].price {
          if Distinct(kept) {
            PermutedDistinct(kept, s);
            assert false;
          }
          return None;
        }
        i := i + 1;
      }
      StrictWhenNoRepeat(desc, s);
      PermutedDepth(s, kept);
      PresentMembers(ls);
      forall i | 0 <= i < |s| ensures s[i].qty != 0 {
        assert s[i] in multiset(kept);
        assert s[i] in kept;
      }
      return Some(s);
    }

    /** top: a copy of at most `n` levels from the top of book. */
    method Top(n: int) returns (out: seq<Level>)
      ensures out == levels[..if n <= 0 then 0 else if n < |levels| then n else |levels|]
    {
      if n <= 0 || |levels| == 0 {
        return [];
      }
      out := levels[..if n < |levels| then n else |levels|];
    }
  }

  /** A weakly ordered slice with no equal neighbours is strictly ordered. */
  lemma {:induction false} StrictWhenNoRepeat(desc: bool, s: seq<Level>)
    requires InOrder(desc, s)
    requires forall j :: 1 <= j < |s| ==> s[j].price != s[j - 1].price
    ensures TopFirst(desc, s)
  {
    forall i, j | 0 <= i < j < |s| ensures Nearer(desc, s[i].price, s[j].price) {
      assert !Nearer(desc, s[j].price, s[j - 1].price);
      assert i < j - 1 ==> !Nearer(desc, s[j - 1].price, s[i].price);
    }
  }

  class Book {
    const symbol: Symbol
    const bids: Side
    const asks: Side

    ghost predicate Valid()
      reads bids, asks
    {
      bids != asks && bids.desc && !asks.desc && bids.Valid() && asks.Valid()
    }

    ghost function Contents(): (b: Depths)
      requires Valid()
      reads bids, asks
    {
      Depths(bids.Contents(), asks.Contents())
    }

    constructor (symbol: Symbol)
      ensures Valid() && fresh(bids) && fresh(asks)
      ensures Contents() == EMPTY && this.symbol == symbol
    {
      this.symbol := symbol;
      bids := new Side(true);
      asks := new Side(false);
    }

    /** Apply: every level validated before any is applied, all or nothing. */
    method Apply(newBids: seq<Level>, newAsks: seq<Level>) returns (err: BookError)
      requires Valid()
      modifies bids, asks
      ensures Valid() && err == UpdateError(newBids, newAsks)
      ensures Contents() == if err == NoError then Updated(old(Contents()), newBids, newAsks) else old(Contents())
      ensures err != NoError ==> bids.levels == old(bids.levels) && asks.levels == old(asks.levels)
    {
      err := Validate(newBids);
      if err != NoError { return; }
      err := Validate(newAsks);
      if err != NoError { return; }
      ApplyAll(bids, newBids);
      ApplyAll(asks, newAsks);
    }

    static method ApplyAll(side: Side, ls: seq<Level>)
      requires side.Valid()
      modifies side
      ensures side.Valid() && side.Contents() == PutAll(old(side.Contents()), ls)
    {
      for k := 0 to |ls|
        invariant side.Valid() && side.Contents() == PutAll(old(side.Contents()), ls[..k])
      {
        assert ls[..k + 1][..k] == ls[..k];
        side.Apply(ls[k]);
      }
      assert ls[..|ls|] == ls;
    }

    /** Reset: replace the contents outright, or change nothing. */
    method Reset(newBids: seq<Level>, newAsks: seq<Level>) returns (err: BookError)
      requires Valid()
      modifies bids, asks
      ensures Valid() && err == ResetError(newBids, newAsks)
      ensures Contents() == if err == NoError then ResetTo(newBids, newAsks) else old(Contents())
      ensures err != NoError ==> bids.levels == old(bids.levels) && asks.levels == old(asks.levels)
    {
      err := Validate(newBids);
      if err != NoError { return; }
      err := Validate(newAsks);
      if err != NoError { return; }
      var b := bids.SortedCopy(newBids);
      if b.None? { return DuplicatePrice; }
      var a := asks.SortedCopy(newAsks);
      if a.None? { return DuplicatePrice; }
      bids.levels, asks.levels := b.value, a.value;
      return NoError;
    }

    method BestBid() returns (best: Option<Level>)
      requires Valid()
      ensures best.None? <==> bids.Contents() == map[]
      ensures best.Some? ==> QtyAt(bids.Contents(), best.value.price) == best.value.qty
      ensures best.Some? ==> best.value.price in bids.Contents() && forall p <- bids.Contents() :: p <= best.value.price
    {
      if |bids.levels| == 0 { return None; }
      TopIsBest(bids);
      return Some(bids.levels[0]);
    }

    method BestAsk() returns (best: Option<Level>)
      requires Valid()
      ensures best.None? <==> asks.Contents() == map[]
      ensures best.Some? ==> QtyAt(asks.Contents(), best.value.price) == best.value.qty
      ensures best.Some? ==> best.value.price in asks.Contents() && forall p <- asks.Contents() :: best.value.price <= p
    {
      if |asks.levels| == 0 { return None; }
      TopIsBest(asks);
      return Some(asks.levels[0]);
    }

    /** Crossed: some bid at or above some ask, read off the two tops alone. */
    method Crossed() returns (r: bool)
      requires Valid()
      ensures r <==> exists b, a :: b in bids.Contents() && a in asks.Contents() && b >= a
    {
      if |bids.levels| == 0 || |asks.levels| == 0 {
        return false;
      }
      TopIsBest(bids);
      TopIsBest(asks);
      r := bids.levels[0].price >= asks.levels[0].price;
    }
  }

  /** Books that mean the same hold the same slices, whatever built them. */
  lemma SameMeaningSameSlices(x: Book, y: Book)
    requires x.Valid() && y.Valid() && x.Contents() == y.Contents()
    ensures x.bids.levels == y.bids.levels && x.asks.levels == y.asks.levels
  {
    Canonical(true, x.bids.levels, y.bids.levels, x.bids.Contents());
    Canonical(false, x.asks.levels, y.asks.levels, x.asks.Contents());
  }

  lemma TopIsBest(s: Side)
    requires s.Valid() && s.levels != []
    ensures s.levels[0].price in s.Contents() && s.Contents()[s.levels[0].price] == s.levels[0].qty
    ensures forall p <- s.Contents() :: p == s.levels[0].price || Nearer(s.desc, s.levels[0].price, p)
  {
    forall p | p in s.Contents()
      ensures p == s.levels[0].price || Nearer(s.desc, s.levels[0].price, p)
    {
      assert Lists(s.levels, p);
    }
  }

  /** validate. */
  method Validate(ls: seq<Level>) returns (err: BookError)
    ensures err == ValidateError(ls)
  {
    for k := 0 to |ls|
      invariant ValidateError(ls) == ValidateError(ls[k..])
    {
      if ls[k].price <= 0 {
        return InvalidPrice;
      }
      if ls[k].qty < 0 {
        return NegativeQty;
      }
    }
    return NoError;
  }
}
