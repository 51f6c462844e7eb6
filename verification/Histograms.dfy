/** The bucketed histogram (internal/metrics/histogram.go).  Durations are
integers; the interpolation of Quantile is done in reals, without rounding. */
module Histograms {

  // ---------- Bounds ----------

  ghost predicate Ascending(s: seq<int>) {
    forall i, j :: 0 <= i < j < |s| ==> s[i] <= s[j]
  }

  ghost predicate StrictlyAscending(s: seq<int>) {
    forall i, j :: 0 <= i < j < |s| ==> s[i] < s[j]
  }

  /** `s` without the elements equal to the one before them. */
  function Uniq(s: seq<int>): (u: seq<int>)
    ensures |u| <= |s|
  {
    if s == [] then []
    else
      var n := |s| - 1;
      if n == 0 || s[n] != s[n - 1] then Uniq(s[..n]) + [s[n]] else Uniq(s[..n])
  }

  lemma {:induction false} UniqEmpty()
    ensures Uniq([]) == []
  {
  }

  lemma {:induction false} UniqStep(s: seq<int>, i: nat)
    requires i < |s|
    ensures Uniq(s[..i + 1]) == if i == 0 || s[i] != s[i - 1] then Uniq(s[..i]) + [s[i]] else Uniq(s[..i])
  {
    assert s[..i + 1][..i] == s[..i];
  }

  lemma {:induction false} UniqMembers(s: seq<int>, x: int)
    ensures x in Uniq(s) <==> x in s
    ensures s != [] ==> Uniq(s) != [] && Uniq(s)[|Uniq(s)| - 1] == s[|s| - 1]
  {
    if s != [] {
      var n := |s| - 1;
      UniqMembers(s[..n], x);
      assert s == s[..n] + [s[n]];
    }
  }

  /** On a sorted sequence, Uniq keeps every value exactly once. */
  lemma {:induction false} UniqIsStrict(s: seq<int>)
    requires Ascending(s)
    ensures StrictlyAscending(Uniq(s))
  {
    if s != [] {
      var n := |s| - 1;
      UniqIsStrict(s[..n]);
      var u := Uniq(s[..n]);
      if n > 0 && s[n] != s[n - 1] {
        UniqMembers(s[..n], 0);
        assert u[|u| - 1] == s[n - 1] < s[n];
        assert Uniq(s) == u + [s[n]];
      }
    }
  }

  /** The loop of NewHistogram: uniq shares the array of sorted, so the values
  it appends overwrite the front of the very slice the loop is reading. */
  method DedupInPlace(a: array<int>) returns (k: nat)
    modifies a
    ensures k <= a.Length && a[..k] == Uniq(old(a[..]))
  {
    hide Uniq;
    ghost var was := a[..];
    assert Uniq(was[..0]) == [] by { UniqEmpty(); }
    k := 0;
    for i := 0 to a.Length
      invariant k <= i && a[..k] == Uniq(was[..i])
      invariant forall j :: k <= j < a.Length ==> a[j] == was[j]
      invariant k == i ==> forall j :: 0 <= j < i ==> a[j] == was[j]
    {
      assert a[i] == was[i] && (i > 0 ==> a[i - 1] == was[i - 1]);
      UniqStep(was, i);
      ghost var front := a[..k];
      if i == 0 || a[i] != a[i - 1] {
        a[k] := a[i];
        k := k + 1;
        assert a[..k] == front + [was[i]];
      }
    }
    assert was[..a.Length] == was;
  }

  method SortAscending(s: seq<int>) returns (out: seq<int>)
    ensures Ascending(out) && multiset(out) == multiset(s)
  {
    out := [];
    for k := 0 to |s|
      invariant Ascending(out) && multiset(out) == multiset(s[..k])
    {
      out := Insert(out, s[k]);
      assert s[..k + 1] == s[..k] + [s[k]];
    }
    assert s[..|s|] == s;
  }

  method Insert(s: seq<int>, x: int) returns (out: seq<int>)
    requires Ascending(s)
    ensures Ascending(out) && multiset(out) == multiset(s + [x])
  {
    var i := |s|;
    while i > 0 && x < s[i - 1]
      invariant 0 <= i <= |s| && forall j :: i <= j < |s| ==> x < s[j]
    {
      i := i - 1;
    }
    out := s[..i] + [x] + s[i..];
    InsertAscends(s, x, i);
    InsertKeeps(s, x, i);
  }

  lemma {:induction false} InsertKeeps(s: seq<int>, x: int, i: nat)
    requires i <= |s|
    ensures multiset(s[..i] + [x] + s[i..]) == multiset(s + [x])
  {
    assert s == s[..i] + s[i..];
  }

  lemma {:induction false} InsertAscends(s: seq<int>, x: int, i: nat)
    requires Ascending(s) && i <= |s| && (i > 0 ==> s[i - 1] <= x) && forall j :: i <= j < |s| ==> x < s[j]
    ensures Ascending(s[..i] + [x] + s[i..])
  {
    var out := s[..i] + [x] + s[i..];
    forall a, b | 0 <= a < b < |out| ensures out[a] <= out[b] {
      assert a != i ==> out[a] == s[if a < i then a else a - 1];
      assert b != i ==> out[b] == s[if b < i then b else b - 1];
    }
  }

  /** The bounds NewHistogram ends up with: the given ones, sorted, once each. */
  method MakeBounds(given: seq<int>) returns (bounds: seq<int>)
    ensures StrictlyAscending(bounds) && forall x :: x in bounds <==> x in given
  {
    var s := SortAscending(given);
    var a := new int[|s|](i requires 0 <= i < |s| => s[i]);
    assert a[..] == s;
    var k := DedupInPlace(a);
    bounds := a[..k];
    UniqIsStrict(s);
    forall x ensures x in bounds <==> x in given {
      UniqMembers(s, x);
      assert x in s <==> x in multiset(s);
      assert x in given <==> x in multiset(given);
    }
  }

  // ---------- Buckets ----------

  /** The bucket of a duration: the first bound at or above it, or the +Inf one. */
  function BucketOf(bounds: seq<int>, d: int): (i: nat)
    ensures i <= |bounds|
    ensures forall j :: 0 <= j < i ==> bounds[j] < d
    ensures i < |bounds| ==> d <= bounds[i]
  {
    if bounds == [] || d <= bounds[0] then 0
    else
      var i := 1 + BucketOf(bounds[1..], d);
      assert forall j :: 1 <= j < i ==> bounds[j] == bounds[1..][j - 1];
      i
  }

  lemma {:induction false} BucketIsUnique(bounds: seq<int>, d: int, i: nat)
    requires i <= |bounds| && (forall j :: 0 <= j < i ==> bounds[j] < d) && (i < |bounds| ==> d <= bounds[i])
    ensures i == BucketOf(bounds, d)
  {
    hide BucketOf;
    var b := BucketOf(bounds, d);
    assert !(i < b) && !(b < i);
  }

  /** The bucket counts after a history of observations. */
  function Counts(obs: seq<nat>, bounds: seq<int>): (c: seq<nat>)
    ensures |c| == |bounds| + 1
  {
    if obs == [] then seq(|bounds| + 1, _ => 0)
    else
      var c := Counts(obs[..|obs| - 1], bounds);
      var b := BucketOf(bounds, obs[|obs| - 1]);
      c[b := c[b] + 1]
  }

  function Total(c: seq<nat>, i: nat): nat
    requires i <= |c|
  {
    if i == 0 then 0 else Total(c, i - 1) + c[i - 1]
  }

  lemma {:induction false} TotalBump(c: seq<nat>, b: nat, i: nat)
    requires i <= |c| && b < |c|
    ensures Total(c[b := c[b] + 1], i) == Total(c, i) + if b < i then 1 else 0
    decreases i
  {
    if i > 0 { TotalBump(c, b, i - 1); }
  }

  lemma {:induction false} TotalGrows(c: seq<nat>, i: nat, j: nat)
    requires i <= j <= |c|
    ensures Total(c, i) <= Total(c, j)
    decreases j
  {
    if i < j { TotalGrows(c, i, j - 1); }
  }

  lemma {:induction false} TotalZero(n: nat, i: nat)
    requires i <= n
    ensures Total(seq(n, _ => 0), i) == 0
    decreases i
  {
    if i > 0 { TotalZero(n, i - 1); }
  }

  function CountLe(obs: seq<nat>, x: int): nat {
    if obs == [] then 0 else CountLe(obs[..|obs| - 1], x) + if obs[|obs| - 1] <= x then 1 else 0
  }

  function CountLt(obs: seq<nat>, x: int): nat {
    if obs == [] then 0 else CountLt(obs[..|obs| - 1], x) + if obs[|obs| - 1] < x then 1 else 0
  }

  /** The histogram refines the observations: the cumulative count at a bound is
  the number of observations at or below it, and over all buckets, all of them. */
  lemma {:induction false} CumulativeIsRank(obs: seq<nat>, bounds: seq<int>, i: nat)
    requires StrictlyAscending(bounds) && i <= |bounds|
    ensures Total(Counts(obs, bounds), i + 1) == if i < |bounds| then CountLe(obs, bounds[i]) else |obs|
  {
    if obs == [] {
      TotalZero(|bounds| + 1, i + 1);
    } else {
      var front, d := obs[..|obs| - 1], obs[|obs| - 1];
      CumulativeIsRank(front, bounds, i);
      var b := BucketOf(bounds, d);
      TotalBump(Counts(front, bounds), b, i + 1);
      if i < |bounds| { assert b <= i <==> d <= bounds[i]; }
    }
  }

  lemma {:induction false} RankMonotone(obs: seq<nat>, x: int, y: int)
    ensures x <= y ==> CountLe(obs, x) <= CountLe(obs, y)
    ensures x < y ==> CountLe(obs, x) <= CountLt(obs, y)
  {
    if obs != [] { RankMonotone(obs[..|obs| - 1], x, y); }
  }

  // ---------- Quantile ----------

  function LowerOf(bounds: seq<int>, i: nat): int
    requires i <= |bounds|
  {
    if i == 0 then 0 else bounds[i - 1]
  }

  /** The share x/y of a width, truncated to a whole duration. */
  function Part(w: int, x: real, y: real): int
    requires y > 0.0
  {
    (w as real * (x / y)).Floor
  }

  /** What share of the observations a quantile asks for. */
  function Want(q: real, n: nat): real {
    Clamp(q) * n as real
  }

  /** Interpolation inside bucket `i`. */
  function Inside(c: seq<nat>, bounds: seq<int>, want: real, i: nat): int
    requires |c| == |bounds| + 1 && i < |bounds|
  {
    if c[i] == 0 then bounds[i]
    else
      var lower, upper := LowerOf(bounds, i), bounds[i];
      lower + Part(upper - lower, want - Total(c, i) as real, c[i] as real)
  }

  /** The loop of Quantile from bucket `i` on. */
  function Locate(c: seq<nat>, bounds: seq<int>, want: real, i: nat): int
    requires |c| == |bounds| + 1 && bounds != [] && i <= |bounds|
    decreases |bounds| - i
  {
    if i == |bounds| then bounds[|bounds| - 1]
    else if Total(c, i + 1) as real < want then Locate(c, bounds, want, i + 1)
    else Inside(c, bounds, want, i)
  }

  function Clamp(q: real): real {
    if q <= 0.0 then 0.0 else if q >= 1.0 then 1.0 else q
  }

  function QuantileOf(c: seq<nat>, bounds: seq<int>, q: real): int
    requires |c| == |bounds| + 1 && (bounds != [] || Total(c, |c|) == 0)
  {
    var n := Total(c, |c|);
    if n == 0 then 0 else Locate(c, bounds, Want(q, n), 0)
  }

  /** The bucket where the cumulative count first reaches `want`. */
  function Reached(c: seq<nat>, want: real, i: nat): (k: nat)
    requires i < |c|
    ensures i <= k < |c|
    ensures k < |c| - 1 ==> Total(c, k + 1) as real >= want
    ensures k > i ==> (Total(c, k) as real) < want
    decreases |c| - i
  {
    if i == |c| - 1 || Total(c, i + 1) as real >= want then i else Reached(c, want, i + 1)
  }

  lemma {:induction false} LocateReaches(c: seq<nat>, bounds: seq<int>, want: real, i: nat)
    requires |c| == |bounds| + 1 && bounds != [] && i <= |bounds|
    ensures var k := Reached(c, want, i);
      Locate(c, bounds, want, i) == if k == |bounds| then bounds[k - 1] else Inside(c, bounds, want, k)
    decreases |bounds| - i
  {
    if i < |bounds| && (Total(c, i + 1) as real) < want { LocateReaches(c, bounds, want, i + 1); }
  }

  ghost predicate GoodBounds(bounds: seq<int>) {
    StrictlyAscending(bounds) && bounds != [] && 0 <= bounds[0]
  }

  /** The estimate stays inside its bucket. */
  lemma {:induction false} InsideIsInside(c: seq<nat>, bounds: seq<int>, want: real, i: nat)
    requires |c| == |bounds| + 1 && GoodBounds(bounds) && i < |bounds|
    requires Total(c, i) as real <= want <= Total(c, i + 1) as real
    ensures LowerOf(bounds, i) <= Inside(c, bounds, want, i) <= bounds[i]
  {
    hide Part;
    if c[i] > 0 {
      var w, x, y := bounds[i] - LowerOf(bounds, i), want - Total(c, i) as real, c[i] as real;
      assert w >= 0 && 0.0 <= x <= y;
      Fraction(w, x, y);
    }
  }

  lemma {:induction false} Fraction(w: int, x: real, y: real)
    requires w >= 0 && 0.0 <= x <= y && y > 0.0
    ensures 0 <= Part(w, x, y) <= w
  {
    assert 0.0 <= x / y <= 1.0;
    UnitProduct(x / y, w as real);
  }

  lemma {:induction false} FractionMonotone(w: int, x: real, x': real, y: real)
    requires w >= 0 && x <= x' && y > 0.0
    ensures Part(w, x, y) <= Part(w, x', y)
  {
    assert x / y <= x' / y;
    ProductBetween(x / y, x / y, x' / y, w as real);
  }

  lemma {:induction false} ReachedMonotone(c: seq<nat>, want: real, want': real, i: nat)
    requires i < |c| && want <= want'
    ensures Reached(c, want, i) <= Reached(c, want', i)
    decreases |c| - i
  {
    if i < |c| - 1 && (Total(c, i + 1) as real) < want { ReachedMonotone(c, want, want', i + 1); }
  }

  /** Wanting more never yields less. */
  lemma {:induction false} LocateMonotone(c: seq<nat>, bounds: seq<int>, want: real, want': real)
    requires |c| == |bounds| + 1 && GoodBounds(bounds) && 0.0 <= want <= want'
    ensures Locate(c, bounds, want, 0) <= Locate(c, bounds, want', 0)
  {
    hide Reached;
    hide Locate;
    hide Inside;
    var k, k' := Reached(c, want, 0), Reached(c, want', 0);
    LocateReaches(c, bounds, want, 0);
    LocateReaches(c, bounds, want', 0);
    ReachedMonotone(c, want, want', 0);
    assert Total(c, 0) == 0;
    if k < |bounds| { InsideIsInside(c, bounds, want, k); }
    if k' < |bounds| { InsideIsInside(c, bounds, want', k'); }
    if k == k' < |bounds| { InsideMonotone(c, bounds, want, want', k); }
  }

  lemma {:induction false} InsideMonotone(c: seq<nat>, bounds: seq<int>, want: real, want': real, i: nat)
    requires |c| == |bounds| + 1 && GoodBounds(bounds) && i < |bounds| && want <= want'
    ensures Inside(c, bounds, want, i) <= Inside(c, bounds, want', i)
  {
    hide Part;
    if c[i] > 0 {
      FractionMonotone(bounds[i] - LowerOf(bounds, i), want - Total(c, i) as real, want' - Total(c, i) as real, c[i] as real);
    }
  }

  /** Quantile is monotone in q. */
  lemma {:induction false} QuantileIsMonotone(c: seq<nat>, bounds: seq<int>, q: real, q': real)
    requires |c| == |bounds| + 1 && GoodBounds(bounds) && q <= q'
    ensures QuantileOf(c, bounds, q) <= QuantileOf(c, bounds, q')
  {
    var n := Total(c, |c|);
    if n > 0 {
      WantGrows(q, q', n);
      hide Locate;
      hide Want;
      LocateMonotone(c, bounds, Want(q, n), Want(q', n));
    }
  }

  lemma {:induction false} WantGrows(q: real, q': real, n: nat)
    requires q <= q'
    ensures 0.0 <= Want(q, n) <= Want(q', n)
  {
    assert 0.0 <= Clamp(q) <= Clamp(q');
    hide Clamp;
    ProductBetween(0.0, Clamp(q), Clamp(q'), n as real);
  }

  /** `x` is the r-th smallest observation, counting from one. */
  ghost predicate IsNth(obs: seq<nat>, x: int, r: int) {
    CountLt(obs, x) < r <= CountLe(obs, x)
  }

  lemma {:induction false} CountsAgree(obs: seq<nat>, x: int)
    ensures CountLt(obs, x) == CountLe(obs, x - 1) && (x < 0 ==> CountLe(obs, x) == 0)
  {
    if obs != [] { CountsAgree(obs[..|obs| - 1], x); }
  }

  lemma {:induction false} SomeBound(obs: seq<nat>) returns (hi: nat)
    ensures CountLe(obs, hi) == |obs|
  {
    if obs == [] {
      hi := 0;
    } else {
      var front, d := obs[..|obs| - 1], obs[|obs| - 1];
      var h := SomeBound(front);
      hi := if h < d then d else h;
      RankMonotone(front, h, hi);
      RankAtMost(front, hi);
    }
  }

  lemma {:induction false} RankAtMost(obs: seq<nat>, x: int)
    ensures CountLe(obs, x) <= |obs|
  {
    if obs != [] { RankAtMost(obs[..|obs| - 1], x); }
  }

  lemma {:induction false} LeastAtRank(obs: seq<nat>, r: int, hi: int) returns (x: int)
    requires 1 <= r <= CountLe(obs, hi)
    ensures IsNth(obs, x, r)
    decreases hi + 1
  {
    CountsAgree(obs, hi);
    if CountLe(obs, hi - 1) < r {
      x := hi;
    } else {
      CountsAgree(obs, hi - 1);
      x := LeastAtRank(obs, r, hi - 1);
    }
  }

  /** Every rank from one to the number of observations has its observation. */
  lemma {:induction false} NthExists(obs: seq<nat>, r: int) returns (x: int)
    requires 1 <= r <= |obs|
    ensures IsNth(obs, x, r)
  {
    var hi := SomeBound(obs);
    x := LeastAtRank(obs, r, hi);
  }

  /** What is asked for: q of the observations, for q from zero to one. */
  lemma {:induction false} WantIsShare(q: real, n: nat)
    ensures 0.0 <= q <= 1.0 ==> Want(q, n) == q * n as real
    ensures q <= 0.0 ==> Want(q, n) == 0.0
    ensures q >= 1.0 ==> Want(q, n) == n as real
  {
  }

  /** A quantile above one is the quantile at one, and one below zero that at zero. */
  lemma {:induction false} QuantileIsClamped(c: seq<nat>, bounds: seq<int>, q: real)
    requires |c| == |bounds| + 1 && bounds != []
    ensures q > 1.0 ==> QuantileOf(c, bounds, q) == QuantileOf(c, bounds, 1.0)
    ensures q < 0.0 ==> QuantileOf(c, bounds, q) == QuantileOf(c, bounds, 0.0)
  {
    hide Locate;
    var n := Total(c, |c|);
    WantIsShare(q, n);
    WantIsShare(0.0, n);
    WantIsShare(1.0, n);
    hide Want;
  }

  lemma {:induction false} WantedShare(q: real, want: real, n: nat)
    requires 0.0 < q <= 1.0 && 0 < n && want == q * n as real
    ensures want == Want(q, n) && 0.0 < want <= n as real
  {
    WantIsShare(q, n);
    WantInReach(q, n);
  }

  /** For 0 < q <= 1 the estimate lies in the bucket of the ceil(q*n)-th smallest
  observation, or is the largest bound when that one is beyond all bounds. */
  lemma {:induction false} QuantileHitsTheBucket(obs: seq<nat>, bounds: seq<int>, q: real, want: real, r: int, x: int)
    requires GoodBounds(bounds) && obs != [] && 0.0 < q <= 1.0
    requires want == q * |obs| as real && (r - 1) as real < want <= r as real
    requires IsNth(obs, x, r)
    ensures var b, e := BucketOf(bounds, x), QuantileOf(Counts(obs, bounds), bounds, q);
      if b == |bounds| then e == bounds[|bounds| - 1] else LowerOf(bounds, b) <= e <= bounds[b]
  {
    WantedShare(q, want, |obs|);
    hide Counts, Inside, BucketOf, QuantileOf, Want;
    QuantileIsInside(obs, bounds, q, want, r, x);
    var b := BucketOf(bounds, x);
    if b < |bounds| { InsideIsInside(Counts(obs, bounds), bounds, want, b); }
  }

  lemma {:induction false} QuantileIsInside(obs: seq<nat>, bounds: seq<int>, q: real, want: real, r: int, x: int)
    requires GoodBounds(bounds) && obs != [] && want == Want(q, |obs|)
    requires 0.0 < want <= |obs| as real && (r - 1) as real < want <= r as real && IsNth(obs, x, r)
    ensures var c, b := Counts(obs, bounds), BucketOf(bounds, x);
      && QuantileOf(c, bounds, q) == (if b == |bounds| then bounds[b - 1] else Inside(c, bounds, want, b))
      && (b < |bounds| ==> (Total(c, b) as real) < want <= Total(c, b + 1) as real)
  {
    hide Counts, Locate, Reached, Inside, IsNth, BucketOf, Want;
    var c, n := Counts(obs, bounds), |bounds|;
    CumulativeIsRank(obs, bounds, n);
    LocateReaches(c, bounds, want, 0);
    NthIsInReached(obs, bounds, want, r, x);
    assert Total(c, 0) == 0;
    assert QuantileOf(c, bounds, q) == Locate(c, bounds, want, 0);
  }

  /** `e` is the whole number at or below the point as far into `lower`..`upper` as
  `x` is into `y`. */
  ghost predicate Interpolates(e: int, lower: int, upper: int, x: real, y: real) {
    0.0 < y && (e - lower) as real * y <= (upper - lower) as real * x < (e - lower + 1) as real * y
  }

  /** The observations below a bucket, by counting them. */
  function CountBelow(obs: seq<nat>, bounds: seq<int>, b: nat): nat
    requires b <= |bounds|
  {
    if b == 0 then 0 else CountLe(obs, bounds[b - 1])
  }

  /** Where inside: the estimate is the whole number at or below the point that
  divides the bucket as q*n divides the observations in it. */
  lemma {:induction false} QuantileInterpolates(obs: seq<nat>, bounds: seq<int>, q: real, want: real, r: int, x: int)
    requires GoodBounds(bounds) && obs != [] && 0.0 < q <= 1.0
    requires want == q * |obs| as real && (r - 1) as real < want <= r as real
    requires IsNth(obs, x, r) && BucketOf(bounds, x) < |bounds|
    ensures var b, e := BucketOf(bounds, x), QuantileOf(Counts(obs, bounds), bounds, q);
      var lower, below := (if b == 0 then 0 else bounds[b - 1]), CountBelow(obs, bounds, b);
      Interpolates(e, lower, bounds[b], want - below as real, (CountLe(obs, bounds[b]) - below) as real)
  {
    WantedShare(q, want, |obs|);
    hide Want, QuantileOf, Counts, BucketOf, Interpolates, Inside, CountBelow, CountLe, CountLt, IsNth, Total;
    QuantileIsInside(obs, bounds, q, want, r, x);
    InsideInterpolates(obs, bounds, want, BucketOf(bounds, x));
  }

  lemma {:induction false} InsideInterpolates(obs: seq<nat>, bounds: seq<int>, want: real, b: nat)
    requires StrictlyAscending(bounds) && b < |bounds|
    requires (Total(Counts(obs, bounds), b) as real) < want <= Total(Counts(obs, bounds), b + 1) as real
    ensures var e := Inside(Counts(obs, bounds), bounds, want, b);
      var lower, below := (if b == 0 then 0 else bounds[b - 1]), CountBelow(obs, bounds, b);
      Interpolates(e, lower, bounds[b], want - below as real, (CountLe(obs, bounds[b]) - below) as real)
  {
    var c := Counts(obs, bounds);
    BucketCount(obs, bounds, b);
    hide Counts, Total, CountLe, CountBelow, Part, Interpolates;
    PartIsFloor(LowerOf(bounds, b), bounds[b], want - Total(c, b) as real, c[b] as real);
  }

  lemma {:induction false} BucketCount(obs: seq<nat>, bounds: seq<int>, b: nat)
    requires StrictlyAscending(bounds) && b < |bounds|
    ensures var c := Counts(obs, bounds);
      && Total(c, b) == CountBelow(obs, bounds, b) && Total(c, b + 1) == Total(c, b) + c[b]
      && c[b] == CountLe(obs, bounds[b]) - CountBelow(obs, bounds, b)
  {
    CumulativeIsRank(obs, bounds, b);
    if b > 0 { CumulativeIsRank(obs, bounds, b - 1); }
    hide Counts, CountLe;
  }

  lemma {:induction false} PartIsFloor(lower: int, upper: int, x: real, y: real)
    requires y > 0.0
    ensures Interpolates(lower + Part(upper - lower, x, y), lower, upper, x, y)
  {
    var w, f, t := upper - lower, Part(upper - lower, x, y), x / y;
    assert x == t * y;
    assert f as real <= w as real * t < (f + 1) as real;
    Scaled(f as real, w as real * t, (f + 1) as real, y);
    assert (w as real * t) * y == w as real * (t * y);
  }

  lemma {:induction false} Scaled(a: real, b: real, c: real, y: real)
    requires a <= b < c && 0.0 < y
    ensures a * y <= b * y < c * y
  {
  }

  /** At zero the estimate is the bottom of the first bucket, or its bound when that
  bucket is empty. */
  lemma {:induction false} QuantileAtZero(obs: seq<nat>, bounds: seq<int>)
    requires GoodBounds(bounds) && obs != []
    ensures QuantileOf(Counts(obs, bounds), bounds, 0.0) == if CountLe(obs, bounds[0]) == 0 then bounds[0] else 0
  {
    var c := Counts(obs, bounds);
    CumulativeIsRank(obs, bounds, 0);
    CumulativeIsRank(obs, bounds, |bounds|);
    WantIsShare(0.0, |obs|);
    hide Counts, Want, CountLe;
    assert Total(c, 1) == Total(c, 0) + c[0] == c[0];
    assert Locate(c, bounds, 0.0, 0) == Inside(c, bounds, 0.0, 0);
  }

  lemma {:induction false} WantInReach(q: real, n: nat)
    requires 0.0 < q && 0 < n
    ensures 0.0 < Want(q, n) <= n as real
  {
    assert 0.0 < Clamp(q) <= 1.0;
    hide Clamp;
    UnitProduct(Clamp(q), n as real);
  }

  lemma {:induction false} ProductBetween(lo: real, x: real, hi: real, y: real)
    requires lo <= x <= hi && 0.0 <= y
    ensures lo * y <= x * y <= hi * y
    ensures lo < x && 0.0 < y ==> lo * y < x * y
  {
    NonNegative(x - lo, y);
    NonNegative(hi - x, y);
  }

  lemma {:induction false} UnitProduct(x: real, y: real)
    requires 0.0 <= x <= 1.0 && 0.0 <= y
    ensures 0.0 <= x * y <= y && y * x == x * y && (0.0 < x && 0.0 < y ==> 0.0 < x * y)
  {
    NonNegative(x, y);
    NonNegative(1.0 - x, y);
    assert (1.0 - x) * y == y - x * y;
  }

  lemma {:induction false} NonNegative(a: real, b: real)
    requires 0.0 <= a && 0.0 <= b
    ensures 0.0 <= a * b && (0.0 < a && 0.0 < b ==> 0.0 < a * b)
  {
  }

  lemma {:induction false} NthIsInReached(obs: seq<nat>, bounds: seq<int>, want: real, r: int, x: int)
    requires GoodBounds(bounds) && 0.0 < want <= |obs| as real && (r - 1) as real < want <= r as real && IsNth(obs, x, r)
    ensures Reached(Counts(obs, bounds), want, 0) == BucketOf(bounds, x)
  {
    hide Counts;
    hide Reached;
    hide BucketOf;
    var c, b := Counts(obs, bounds), BucketOf(bounds, x);
    var k := Reached(c, want, 0);
    if b < k {
      CumulativeIsRank(obs, bounds, b);
      RankMonotone(obs, x, bounds[b]);
      TotalGrows(c, b + 1, k);
      assert false;
    } else if k < b {
      CumulativeIsRank(obs, bounds, k);
      RankMonotone(obs, bounds[k], x);
      assert false;
    }
  }

  // ---------- The object ----------

  class Histogram {
    const bounds: seq<int>
    const counts: array<nat>
    var sum: int
    var total: nat
    var negative: nat
    ghost var obs: seq<nat>

    ghost predicate Valid()
      reads this, counts
    {
      && StrictlyAscending(bounds) && counts.Length == |bounds| + 1
      && counts[..] == Counts(obs, bounds) && total == |obs|
    }

    constructor (given: seq<int>)
      ensures Valid() && fresh(counts) && obs == [] && negative == 0 && sum == 0
      ensures forall x :: x in bounds <==> x in given
    {
      var b := MakeBounds(given);
      var c := new nat[|b| + 1](_ => 0);
      bounds, counts := b, c;
      sum, total, negative := 0, 0, 0;
      obs := [];
      assert c[..] == Counts([], b);
    }

    /** sort.Search for the first bound at or above `d`. */
    method Search(d: int) returns (i: nat)
      requires StrictlyAscending(bounds)
      ensures i == BucketOf(bounds, d)
    {
      i := 0;
      var j := |bounds|;
      while i < j
        invariant i <= j <= |bounds|
        invariant forall h :: 0 <= h < i ==> bounds[h] < d
        invariant forall h :: j <= h < |bounds| ==> d <= bounds[h]
      {
        var h := (i + j) / 2;
        if d <= bounds[h] {
          j := h;
        } else {
          i := h + 1;
        }
      }
      BucketIsUnique(bounds, d, i);
    }

    method Observe(d: int)
      requires Valid()
      modifies this, counts
      ensures Valid()
      ensures d < 0 ==> obs == old(obs) && negative == old(negative) + 1 && sum == old(sum)
      ensures d >= 0 ==> obs == old(obs) + [d] && negative == old(negative) && sum == old(sum) + d
    {
      if d < 0 {
        negative := negative + 1;
        return;
      }
      var i := Search(d);
      counts[i] := counts[i] + 1;
      sum := sum + d;
      total := total + 1;
      obs := obs + [d];
      assert obs[..|obs| - 1] == old(obs);
    }

    /** The running totals WriteProm prints, one per bound and one for +Inf. */
    method Cumulative() returns (cums: seq<nat>)
      requires Valid()
      ensures |cums| == |bounds| + 1 && cums[|bounds|] == |obs|
      ensures forall i :: 0 <= i < |bounds| ==> cums[i] == CountLe(obs, bounds[i])
    {
      cums := [];
      var cum := 0;
      ghost var c := counts[..];
      for i := 0 to |bounds| + 1
        invariant |cums| == i && cum == Total(c, i)
        invariant forall j :: 0 <= j < i ==> cums[j] == Total(c, j + 1)
      {
        cum := cum + counts[i];
        cums := cums + [cum];
      }
      forall i | 0 <= i <= |bounds| ensures cums[i] == if i < |bounds| then CountLe(obs, bounds[i]) else |obs| {
        CumulativeIsRank(obs, bounds, i);
      }
    }

    /** Quantile. */
    method Quantile(q: real) returns (r: int)
      requires Valid() && (bounds != [] || obs == [])
      ensures Total(Counts(obs, bounds), |bounds| + 1) == |obs| && (obs == [] ==> r == 0)
      ensures r == QuantileOf(Counts(obs, bounds), bounds, q)
    {
      hide Counts;
      ghost var c := counts[..];
      CumulativeIsRank(obs, bounds, |bounds|);
      if total == 0 {
        return 0;
      }
      var want := Want(q, total);
      hide Want;
      hide Part;
      var cum, prevCum, lower := 0, 0, 0;
      var i := 0;
      while i < counts.Length
        invariant 0 <= i <= counts.Length && c == counts[..]
        invariant cum == prevCum == Total(c, i)
        invariant i <= |bounds| ==> lower == LowerOf(bounds, i) && Locate(c, bounds, want, 0) == Locate(c, bounds, want, i)
        invariant i > |bounds| ==> Locate(c, bounds, want, 0) == bounds[|bounds| - 1]
      {
        cum := cum + counts[i];
        if cum as real < want {
          prevCum := cum;
          if i < |bounds| {
            lower := bounds[i];
          }
        } else {
          if i >= |bounds| {
            return bounds[|bounds| - 1];
          }
          var upper := bounds[i];
          var inBucket := cum - prevCum;
          if inBucket <= 0 {
            return upper;
          }
          return lower + Part(upper - lower, want - prevCum as real, inBucket as real);
        }
        i := i + 1;
      }
      return bounds[|bounds| - 1];
    }
  }
}
