/** What Apply and Reset do to a book, as functions on the pair of depth maps. */
module BookSpec {
  import opened MarketModel
  import opened Ladder

  datatype BookError = NoError | InvalidPrice | NegativeQty | DuplicatePrice

  datatype Depths = Depths(bids: Depth, asks: Depth)

  const EMPTY := Depths(map[], map[])

  ghost predicate Proper(b: Depths) {
    ZeroFree(b.bids) && ZeroFree(b.asks)
  }

  function LevelError(l: Level): BookError {
    if l.price <= 0 then InvalidPrice else if l.qty < 0 then NegativeQty else NoError
  }

  /** validate: the error of the first bad level. */
  function ValidateError(ls: seq<Level>): BookError {
    if ls == [] then NoError
    else if LevelError(ls[0]) != NoError then LevelError(ls[0])
    else ValidateError(ls[1..])
  }

  ghost predicate ValidLevels(ls: seq<Level>) {
    forall i :: 0 <= i < |ls| ==> ls[i].price > 0 && ls[i].qty >= 0
  }

  lemma {:induction false} ValidateIff(ls: seq<Level>)
    ensures ValidateError(ls) == NoError <==> ValidLevels(ls)
    ensures ValidateError(ls) != DuplicatePrice
  {
    if ls != [] {
      ValidateIff(ls[1..]);
      assert ls == [ls[0]] + ls[1..];
      if ValidLevels(ls[1..]) && LevelError(ls[0]) == NoError {
        forall i | 0 <= i < |ls| ensures ls[i].price > 0 && ls[i].qty >= 0 {
          if i > 0 { assert ls[i] == ls[1..][i - 1]; }
        }
      }
      if ValidLevels(ls) {
        forall i | 0 <= i < |ls[1..]| ensures ls[1..][i].price > 0 && ls[1..][i].qty >= 0 {
          assert ls[1..][i] == ls[i + 1];
        }
      }
    }
  }

  /** The first level that is not valid. */
  ghost predicate FirstBad(ls: seq<Level>, i: nat) {
    && i < |ls| && (ls[i].price <= 0 || ls[i].qty < 0)
    && forall j :: 0 <= j < i ==> ls[j].price > 0 && ls[j].qty >= 0
  }

  /** validate reports the first bad level, and its price before its quantity. */
  lemma {:induction false} FirstBadIsReported(ls: seq<Level>)
    ensures ValidateError(ls) == InvalidPrice <==> exists i: nat :: FirstBad(ls, i) && ls[i].price <= 0
    ensures ValidateError(ls) == NegativeQty <==> exists i: nat :: FirstBad(ls, i) && ls[i].price > 0
  {
    ValidateIff(ls);
    if !ValidLevels(ls) {
      var i := BadLevel(ls);
      forall k: nat | FirstBad(ls, k) ensures k == i {
        assert !(k < i) && !(i < k);
      }
    }
  }

  lemma {:induction false} BadLevel(ls: seq<Level>) returns (i: nat)
    requires !ValidLevels(ls)
    ensures FirstBad(ls, i) && ValidateError(ls) == if ls[i].price <= 0 then InvalidPrice else NegativeQty
  {
    assert ls != [];
    if LevelError(ls[0]) != NoError {
      i := 0;
    } else {
      ValidateIff(ls);
      ValidateIff(ls[1..]);
      var k := BadLevel(ls[1..]);
      i := k + 1;
      forall j | 0 <= j < i ensures ls[j].price > 0 && ls[j].qty >= 0 {
        if j > 0 { assert ls[j] == ls[1..][j - 1]; }
      }
    }
  }

  /** The error Book.Apply returns. */
  function UpdateError(bids: seq<Level>, asks: seq<Level>): BookError {
    if ValidateError(bids) != NoError then ValidateError(bids) else ValidateError(asks)
  }

  function Updated(b: Depths, bids: seq<Level>, asks: seq<Level>): Depths {
    Depths(PutAll(b.bids, bids), PutAll(b.asks, asks))
  }

  /** The error Book.Reset returns. */
  ghost function ResetError(bids: seq<Level>, asks: seq<Level>): BookError {
    if UpdateError(bids, asks) != NoError then UpdateError(bids, asks)
    else if Distinct(Present(bids)) && Distinct(Present(asks)) then NoError
    else DuplicatePrice
  }

  ghost function ResetTo(bids: seq<Level>, asks: seq<Level>): Depths
    requires ResetError(bids, asks) == NoError
  {
    Depths(DepthOf(Present(bids)), DepthOf(Present(asks)))
  }

  /** An update is refused exactly for an invalid level, a bid before an ask. */
  lemma UpdateErrorIs(bids: seq<Level>, asks: seq<Level>)
    ensures UpdateError(bids, asks) == NoError <==> ValidLevels(bids) && ValidLevels(asks)
    ensures !ValidLevels(bids) ==> UpdateError(bids, asks) == ValidateError(bids)
    ensures ValidLevels(bids) ==> UpdateError(bids, asks) == ValidateError(asks)
    ensures UpdateError(bids, asks) != DuplicatePrice
  {
    ValidateIff(bids);
    ValidateIff(asks);
  }

  /** No price is listed twice with a quantity. */
  ghost predicate NoRepeat(ls: seq<Level>) {
    forall i, j :: 0 <= i < j < |ls| && ls[i].price == ls[j].price ==> ls[i].qty == 0 || ls[j].qty == 0
  }

  lemma {:induction false} DistinctIffNoRepeat(ls: seq<Level>)
    ensures Distinct(Present(ls)) <==> NoRepeat(ls)
  {
    if ls != [] {
      var n := |ls| - 1;
      var front, l := ls[..n], ls[n];
      DistinctIffNoRepeat(front);
      assert ls == front + [l] && Present(ls) == Present(front) + if l.qty == 0 then [] else [l];
      hide NoRepeat, Present, Distinct;
      if l.qty != 0 {
        RepeatAtEnd(front, l);
      } else {
        ZeroAtEnd(front, l);
        assert Present(ls) == Present(front);
      }
    }
  }

  lemma ZeroAtEnd(front: seq<Level>, l: Level)
    requires l.qty == 0
    ensures NoRepeat(front + [l]) <==> NoRepeat(front)
  {
    var ls := front + [l];
    assert forall i :: 0 <= i < |front| ==> ls[i] == front[i];
  }

  /** A level with a quantity repeats a price exactly when an earlier one has it. */
  lemma RepeatAtEnd(front: seq<Level>, l: Level)
    requires l.qty != 0 && (Distinct(Present(front)) <==> NoRepeat(front))
    ensures Distinct(Present(front) + [l]) <==> NoRepeat(front + [l])
  {
    PresentMembers(front);
    var pr, ls := Present(front), front + [l];
    var all := pr + [l];
    assert forall i :: 0 <= i < |pr| ==> all[i] == pr[i];
    assert forall i :: 0 <= i < |front| ==> ls[i] == front[i];
    if Distinct(all) {
      assert forall i :: 0 <= i < |pr| ==> all[i].price != all[|pr|].price;
      assert Distinct(pr);
      forall i | 0 <= i < |front| && front[i].qty != 0 ensures front[i].price != l.price {
        assert front[i] in pr;
        var k :| 0 <= k < |pr| && pr[k] == front[i];
        assert all[k].price != all[|pr|].price;
      }
    }
    if NoRepeat(ls) {
      assert NoRepeat(front);
      forall i | 0 <= i < |pr| ensures pr[i].price != l.price {
        assert pr[i] in front;
        var k :| 0 <= k < |front| && front[k] == pr[i];
        assert ls[k] == pr[i] && ls[|front|] == l;
      }
    }
  }

  /** A snapshot is refused exactly for an invalid level, and then as an update
  would be, or for a price listed twice with a quantity on one side. */
  lemma ResetErrorIs(bids: seq<Level>, asks: seq<Level>)
    ensures ResetError(bids, asks) == NoError <==>
      ValidLevels(bids) && ValidLevels(asks) && NoRepeat(bids) && NoRepeat(asks)
    ensures ResetError(bids, asks) == DuplicatePrice <==>
      ValidLevels(bids) && ValidLevels(asks) && !(NoRepeat(bids) && NoRepeat(asks))
    ensures !(ValidLevels(bids) && ValidLevels(asks)) ==> ResetError(bids, asks) == UpdateError(bids, asks)
  {
    UpdateErrorIs(bids, asks);
    DistinctIffNoRepeat(bids);
    DistinctIffNoRepeat(asks);
  }

  /** And an accepted one becomes the book: each side holds a quantity at a price
  exactly when the snapshot lists it. */
  lemma ResetHolds(bids: seq<Level>, asks: seq<Level>, p: int, q: int)
    requires ResetError(bids, asks) == NoError && q != 0
    ensures QtyAt(ResetTo(bids, asks).bids, p) == q <==> Level(p, q) in bids
    ensures QtyAt(ResetTo(bids, asks).asks, p) == q <==> Level(p, q) in asks
  {
    PresentAt(bids, p, q);
    PresentAt(asks, p, q);
  }

  /** An update leaves the last listed quantity at each price it lists, on the
  side it lists it, and every other price alone. */
  lemma UpdateHolds(b: Depths, bids: seq<Level>, asks: seq<Level>, p: int)
    requires Proper(b)
    ensures QtyAt(Updated(b, bids, asks).bids, p) == if Lists(bids, p) then LastQty(bids, p) else QtyAt(b.bids, p)
    ensures QtyAt(Updated(b, bids, asks).asks, p) == if Lists(asks, p) then LastQty(asks, p) else QtyAt(b.asks, p)
  {
    PutAllAt(b.bids, bids, p);
    PutAllAt(b.asks, asks, p);
  }

  /** A snapshot side states a nonzero quantity for a price exactly when it lists that level. */
  lemma PresentAt(ls: seq<Level>, p: int, q: int)
    requires Distinct(Present(ls)) && q != 0
    ensures ZeroFree(DepthOf(Present(ls)))
    ensures QtyAt(DepthOf(Present(ls)), p) == q <==> Level(p, q) in ls
  {
    var pr := Present(ls);
    PresentMembers(ls);
    var m := DepthOf(pr);
    OneMap(pr, m);
    if p in m && m[p] == q {
      assert Lists(pr, p);
      var j :| 0 <= j < |pr| && pr[j].price == p;
      assert pr[j] == Level(p, q);
    }
    if Level(p, q) in pr {
      var j :| 0 <= j < |pr| && pr[j] == Level(p, q);
      assert pr[j].price in m;
    }
  }

  /** Reset reads its input as a bag: every permutation gives the same answer. */
  lemma ResetPermutes(bids: seq<Level>, asks: seq<Level>, bids': seq<Level>, asks': seq<Level>)
    requires multiset(bids) == multiset(bids') && multiset(asks) == multiset(asks')
    ensures ResetError(bids, asks) == NoError <==> ResetError(bids', asks') == NoError
    ensures ResetError(bids, asks) == NoError ==> ResetTo(bids, asks) == ResetTo(bids', asks')
  {
    SideResetPermutes(bids, bids');
    SideResetPermutes(asks, asks');
    ValidateIff(bids);
    ValidateIff(asks);
    ValidateIff(bids');
    ValidateIff(asks');
  }

  lemma SideResetPermutes(a: seq<Level>, b: seq<Level>)
    requires multiset(a) == multiset(b)
    ensures ValidLevels(a) <==> ValidLevels(b)
    ensures Distinct(Present(a)) <==> Distinct(Present(b))
    ensures Distinct(Present(a)) ==> DepthOf(Present(a)) == DepthOf(Present(b))
  {
    if ValidLevels(a) { ValidPermutes(a, b); }
    if ValidLevels(b) { ValidPermutes(b, a); }
    PresentPermutes(a, b);
    if Distinct(Present(a)) {
      PermutedDepth(Present(a), Present(b));
    } else if Distinct(Present(b)) {
      PermutedDepth(Present(b), Present(a));
      assert false;
    }
  }

  lemma ValidPermutes(a: seq<Level>, b: seq<Level>)
    requires multiset(a) == multiset(b) && ValidLevels(a)
    ensures ValidLevels(b)
  {
    forall i | 0 <= i < |b| ensures b[i].price > 0 && b[i].qty >= 0 {
      assert b[i] in multiset(a);
      var j :| 0 <= j < |a| && a[j] == b[i];
    }
  }

  /** Both ways of changing a book keep it free of zero quantities. */
  lemma StaysProper(b: Depths, bids: seq<Level>, asks: seq<Level>)
    requires Proper(b)
    ensures Proper(Updated(b, bids, asks))
    ensures ResetError(bids, asks) == NoError ==> Proper(ResetTo(bids, asks))
  {
    PutAllAt(b.bids, bids, 0);
    PutAllAt(b.asks, asks, 0);
    if ResetError(bids, asks) == NoError {
      PresentAt(bids, 0, 1);
      PresentAt(asks, 0, 1);
    }
  }

  /** A snapshot of nothing is a good one. */
  lemma NothingIsGood()
    ensures ResetError([], []) == NoError
  {
  }
}
