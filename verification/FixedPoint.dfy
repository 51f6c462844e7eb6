/** Fixed-point parsing and printing (internal/model/fixed.go). */
module FixedPoint {

  const MAX_UINT64: nat := 0xffff_ffff_ffff_ffff
  const MAX_INT64: int := 0x7fff_ffff_ffff_ffff
  const MIN_INT64: int := -0x8000_0000_0000_0000

  datatype Parsed = Ok(value: int) | InvalidSyntax | Overflow | TooManyDecimals

  predicate IsDigit(c: char) {
    '0' <= c <= '9'
  }

  ghost predicate AllDigits(s: string) {
    forall i :: 0 <= i < |s| ==> IsDigit(s[i])
  }

  function Zeros(n: nat): (z: string)
    ensures |z| == n && forall i :: 0 <= i < n ==> z[i] == '0'
  {
    seq(n, _ => '0')
  }

  // ---------- strconv ----------

  datatype Unsigned = Value(v: nat) | SyntaxError | RangeError

  const CUTOFF: nat := MAX_UINT64 / 10 + 1

  /** strconv.ParseUint(s, 10, 64) with `acc` already read. */
  function ReadUint(s: string, acc: nat): Unsigned {
    if s == "" then Value(acc)
    else if !IsDigit(s[0]) then SyntaxError
    else if acc >= CUTOFF then RangeError
    else
      var n := acc * 10 + (s[0] - '0') as int;
      if n > MAX_UINT64 then RangeError else ReadUint(s[1..], n)
  }

  function ParseUint(s: string): Unsigned {
    if s == "" then SyntaxError else ReadUint(s, 0)
  }

  /** strconv.FormatUint(n, 10). */
  function FormatUint(n: nat): (s: string)
    ensures s != ""
  {
    if n < 10 then [(n as char) + '0'] else FormatUint(n / 10) + [((n % 10) as char) + '0']
  }

  // ---------- The code ----------

  /** strings.Cut at the first dot. */
  function CutDot(s: string): (string, string) {
    if s == "" then ("", "")
    else if s[0] == '.' then ("", s[1..])
    else var (a, b) := CutDot(s[1..]); ([s[0]] + a, b)
  }

  /** The surplus fractional digits, past the instrument's exponent. */
  predicate SurplusIsZero(frac: string, decimals: nat) {
    forall i :: decimals <= i < |frac| ==> frac[i] == '0'
  }

  function Sign(neg: bool, m: nat): Parsed {
    if neg then if m > MAX_INT64 + 1 then Overflow else Ok(0 - m as int)
    else if m > MAX_INT64 then Overflow else Ok(m)
  }

  function ParseParts(neg: bool, whole: string, frac: string, decimals: nat): Parsed {
    var w := if whole == "" then "0" else whole;
    if |frac| > decimals && !SurplusIsZero(frac, decimals) then TooManyDecimals
    else
      var f := if |frac| > decimals then frac[..decimals] else frac + Zeros(decimals - |frac|);
      match ParseUint(w + f)
      case SyntaxError => InvalidSyntax
      case RangeError => Overflow
      case Value(m) => Sign(neg, m)
  }

  /** What ParseFixed returns. */
  function Parse(s: string, decimals: nat): Parsed {
    if s == "" then InvalidSyntax
    else
      var neg := s[0] == '-';
      var rest := if neg then s[1..] else s;
      if rest == "" then InvalidSyntax
      else var (whole, frac) := CutDot(rest); ParseParts(neg, whole, frac, decimals)
  }

  method ParseFixed(s: string, decimals: nat) returns (r: Parsed)
    ensures r == Parse(s, decimals)
  {
    if |s| == 0 {
      return InvalidSyntax;
    }
    var neg, rest := false, s;
    if rest[0] == '-' {
      neg, rest := true, rest[1..];
      if |rest| == 0 {
        return InvalidSyntax;
      }
    }
    var (whole, frac) := CutDot(rest);
    ghost var whole0, frac0 := whole, frac;
    if whole == "" {
      whole := "0";
    }
    if |frac| > decimals {
      var i := decimals;
      while i < |frac|
        invariant decimals <= i <= |frac|
        invariant forall k :: decimals <= k < i ==> frac[k] == '0'
      {
        if frac[i] != '0' {
          return TooManyDecimals;
        }
        i := i + 1;
      }
      frac := frac[..decimals];
    }
    if decimals > |frac| {
      frac := frac + Zeros(decimals - |frac|);
    }
    assert |frac0| <= decimals ==> frac == frac0 + Zeros(decimals - |frac0|);
    match ParseUint(whole + frac) {
      case SyntaxError => return InvalidSyntax;
      case RangeError => return Overflow;
      case Value(val) =>
        if neg {
          if val > MAX_INT64 + 1 {
            return Overflow;
          }
          if val == MAX_INT64 + 1 {
            return Ok(MIN_INT64);
          }
          return Ok(0 - val as int);
        }
        if val > MAX_INT64 {
          return Overflow;
        }
        return Ok(val);
    }
  }

  /** Enough leading zeros for one digit before the dot. */
  function Padded(ds: string, decimals: nat): (p: string)
    ensures |p| > decimals
  {
    if |ds| <= decimals then Zeros(decimals - |ds| + 1) + ds else ds
  }

  /** FormatFixed. */
  function FormatFixed(v: int, decimals: int): string {
    var mag: nat := if v < 0 then -v else v;
    var sign := if v < 0 then "-" else "";
    if decimals <= 0 then sign + FormatUint(mag)
    else
      var ds := FormatUint(mag);
      var padded := Padded(ds, decimals);
      var split := |padded| - decimals;
      sign + (padded[..split] + "." + padded[split..])
  }

  // ---------- What digits mean ----------

  function Pow10(n: nat): (p: nat)
    ensures p > 0
  {
    if n == 0 then 1 else 10 * Pow10(n - 1)
  }

  lemma {:induction false} Pow10Add(a: nat, b: nat)
    ensures Pow10(a + b) == Pow10(a) * Pow10(b)
    decreases b
  {
    if b > 0 { Pow10Add(a, b - 1); }
  }

  /** The number a digit string writes. */
  ghost function Num(s: string): nat
    requires AllDigits(s)
  {
    if s == "" then 0 else 10 * Num(s[..|s| - 1]) + (s[|s| - 1] - '0') as int
  }

  lemma {:induction false} NumConcat(a: string, b: string)
    requires AllDigits(a) && AllDigits(b)
    ensures AllDigits(a + b) && Num(a + b) == Num(a) * Pow10(|b|) + Num(b)
    decreases |b|
  {
    if b == "" {
      assert a + b == a;
    } else {
      var n := |b| - 1;
      assert (a + b)[..|a + b| - 1] == a + b[..n];
      NumConcat(a, b[..n]);
      TenTimes(Num(a), Pow10(n), Num(b[..n]), (b[n] - '0') as int);
    }
  }

  lemma {:induction false} TenTimes(x: nat, p: nat, y: nat, d: nat)
    ensures 10 * (x * p + y) + d == x * (10 * p) + (10 * y + d)
  {
  }

  lemma {:induction false} NumBound(s: string)
    requires AllDigits(s)
    ensures Num(s) < Pow10(|s|)
  {
    if s != "" { NumBound(s[..|s| - 1]); }
  }

  lemma {:induction false} NumZeros(s: string)
    requires AllDigits(s)
    ensures Num(s) == 0 <==> forall i :: 0 <= i < |s| ==> s[i] == '0'
  {
    if s != "" {
      NumZeros(s[..|s| - 1]);
      assert s == s[..|s| - 1] + [s[|s| - 1]];
    }
  }

  lemma {:induction false} NumHead(s: string)
    requires AllDigits(s) && s != ""
    ensures Num(s) == (s[0] - '0') as int * Pow10(|s| - 1) + Num(s[1..])
  {
    assert s == [s[0]] + s[1..];
    NumConcat([s[0]], s[1..]);
    assert [s[0]][..0] == "";
    assert Num([s[0]]) == (s[0] - '0') as int;
  }

  /** ParseUint reads exactly the digit strings below 2^64. */
  lemma {:induction false} ReadUintMeans(s: string, acc: nat)
    requires AllDigits(s) && acc <= MAX_UINT64
    ensures var n := acc * Pow10(|s|) + Num(s);
      ReadUint(s, acc) == if n <= MAX_UINT64 then Value(n) else RangeError
    decreases |s|
  {
    if s != "" {
      NumHead(s);
      var d, p := (s[0] - '0') as int, Pow10(|s| - 1);
      var acc' := acc * 10 + d;
      ReadDigit(acc, d, p, Num(s[1..]));
      hide Num;
      if acc < CUTOFF && acc' <= MAX_UINT64 {
        ReadUintMeans(s[1..], acc');
      } else {
        assert acc' > MAX_UINT64;
        TimesAtLeast(acc', p);
      }
    }
  }

  lemma {:induction false} ReadDigit(acc: nat, d: nat, p: nat, t: nat)
    ensures acc * (10 * p) + (d * p + t) == (acc * 10 + d) * p + t
  {
  }

  lemma {:induction false} TimesAtLeast(a: nat, p: nat)
    requires p > 0
    ensures a <= a * p
  {
  }

  lemma {:induction false} ReadUintOnlyDigits(s: string, acc: nat)
    ensures ReadUint(s, acc).Value? ==> AllDigits(s)
    decreases |s|
  {
    if s != "" && ReadUint(s, acc).Value? {
      ReadUintOnlyDigits(s[1..], acc * 10 + (s[0] - '0') as int);
      assert s == [s[0]] + s[1..];
    }
  }

  // ---------- What ParseFixed means ----------

  /** A decimal: a sign, digits, and digits after an optional dot. */
  datatype Decimal = Decimal(neg: bool, whole: string, frac: string)

  ghost predicate WellFormed(x: Decimal) {
    AllDigits(x.whole) && AllDigits(x.frac)
  }

  /** The parts of a string the parser will look at. */
  function Split(s: string): Decimal
    requires s != ""
  {
    var neg := s[0] == '-';
    var (a, b) := CutDot(if neg then s[1..] else s);
    Decimal(neg, a, b)
  }

  /** The digits of the decimal: its value is this over 10^|frac|. */
  ghost function Digits(x: Decimal): nat
    requires WellFormed(x)
  {
    Num(x.whole) * Pow10(|x.frac|) + Num(x.frac)
  }

  /** `m` is the decimal scaled to `decimals` places, exactly. */
  ghost predicate ScalesTo(x: Decimal, decimals: nat, m: nat)
    requires WellFormed(x)
  {
    Digits(x) * Pow10(decimals) == m * Pow10(|x.frac|)
  }

  lemma {:induction false} ScaleIsUnique(x: Decimal, decimals: nat, m: nat, m': nat)
    requires WellFormed(x) && ScalesTo(x, decimals, m) && ScalesTo(x, decimals, m')
    ensures m == m'
  {
    CancelRight(m, m', Pow10(|x.frac|));
  }

  lemma {:induction false} CancelRight(a: nat, b: nat, p: nat)
    requires p > 0 && a * p == b * p
    ensures a == b
  {
    assert (a - b) * p == 0;
  }

  lemma {:induction false} WholeOrZero(whole: string)
    requires AllDigits(whole)
    ensures var w := if whole == "" then "0" else whole; AllDigits(w) && Num(w) == Num(whole)
  {
    assert "0"[..0] == "";
    assert Num("") == 0 && Num("0") == 0;
  }

  /** Few enough fractional digits: they are padded, and nothing can be lost. */
  lemma {:induction false} PaddedScales(x: Decimal, decimals: nat)
    requires WellFormed(x) && |x.frac| <= decimals
    ensures var k := decimals - |x.frac|;
      ScalesTo(x, decimals, Digits(x) * Pow10(k)) && AllDigits(x.frac + Zeros(k))
      && Num(x.whole) * Pow10(decimals) + Num(x.frac + Zeros(k)) == Digits(x) * Pow10(k)
  {
    var k, f := decimals - |x.frac|, |x.frac|;
    NumConcat(x.frac, Zeros(k));
    NumZeros(Zeros(k));
    Pow10Add(f, k);
    hide Num;
    hide Pow10;
    PadArithmetic(Num(x.whole), Num(x.frac), Pow10(f), Pow10(k));
  }

  lemma {:induction false} PadArithmetic(w: nat, n: nat, pf: nat, pk: nat)
    ensures w * (pf * pk) + n * pk == (w * pf + n) * pk
    ensures (w * pf + n) * (pf * pk) == ((w * pf + n) * pk) * pf
  {
  }

  /** Too many: the surplus is a remainder, and only a zero one can be dropped. */
  lemma {:induction false} SurplusScales(x: Decimal, decimals: nat)
    requires WellFormed(x) && |x.frac| > decimals
    ensures AllDigits(x.frac[..decimals])
    ensures var m := Num(x.whole) * Pow10(decimals) + Num(x.frac[..decimals]);
      SurplusIsZero(x.frac, decimals) ==> ScalesTo(x, decimals, m)
    ensures !SurplusIsZero(x.frac, decimals) ==> forall m: nat :: !ScalesTo(x, decimals, m)
  {
    hide Num;
    hide Pow10;
    hide SurplusIsZero;
    var a, b := x.frac[..decimals], x.frac[decimals..];
    SurplusParts(x.frac, decimals);
    Pow10Add(decimals, |b|);
    DigitsSplit(Num(x.whole), Num(a), Num(b), Pow10(decimals), Pow10(|b|));
    var m := Num(x.whole) * Pow10(decimals) + Num(a);
    assert Digits(x) == m * Pow10(|b|) + Num(b);
    forall m': nat ensures ScalesTo(x, decimals, m') <==> Num(b) == 0 && m' == m {
      RemainderScales(m, Num(b), Pow10(decimals), Pow10(|b|), m');
    }
  }

  lemma {:induction false} SurplusParts(frac: string, decimals: nat)
    requires AllDigits(frac) && |frac| > decimals
    ensures var a, b := frac[..decimals], frac[decimals..];
      && AllDigits(a) && AllDigits(b) && Num(frac) == Num(a) * Pow10(|b|) + Num(b) && Num(b) < Pow10(|b|)
      && (Num(b) == 0 <==> SurplusIsZero(frac, decimals))
  {
    var a, b := frac[..decimals], frac[decimals..];
    assert frac == a + b;
    NumConcat(a, b);
    NumBound(b);
    NumZeros(b);
    assert forall i :: 0 <= i < |b| ==> b[i] == frac[decimals + i];
    assert forall i :: decimals <= i < |frac| ==> frac[i] == b[i - decimals];
  }

  lemma {:induction false} RemainderScales(m: nat, r: nat, pd: nat, pb: nat, m': nat)
    requires r < pb && 0 < pd
    ensures (m * pb + r) * pd == m' * (pd * pb) <==> r == 0 && m' == m
  {
    assert m' * (pd * pb) == (m' * pb) * pd;
    if (m * pb + r) * pd == (m' * pb) * pd {
      CancelRight(m * pb + r, m' * pb, pd);
      if r != 0 {
        NoRemainder(m, m', pb, r);
        assert false;
      } else {
        CancelRight(m, m', pb);
      }
    }
  }

  lemma {:induction false} DigitsSplit(w: nat, a: nat, b: nat, pd: nat, pb: nat)
    ensures w * (pd * pb) + (a * pb + b) == (w * pd + a) * pb + b
  {
  }

  lemma {:induction false} NoRemainder(m: nat, m': nat, p: nat, r: nat)
    requires 0 < r < p
    ensures m * p + r != m' * p
  {
    if m' <= m {
      assert m' * p <= m * p;
    } else {
      assert m' * p >= (m + 1) * p;
    }
  }

  lemma {:induction false} SignMeans(neg: bool, m: nat)
    ensures var v: int := if neg then 0 - m else m;
      Sign(neg, m) == if -0x8000_0000_0000_0000 <= v <= 0x7fff_ffff_ffff_ffff then Ok(v) else Overflow
  {
  }

  lemma {:induction false} ParseSigned(s: string, decimals: nat)
    requires s != "" && s != "-" && WellFormed(Split(s))
    ensures var x, r := Split(s), Parse(s, decimals);
      && (forall m: nat :: ScalesTo(x, decimals, m) ==> r == Sign(x.neg, m))
      && (r == TooManyDecimals <==> forall m: nat :: !ScalesTo(x, decimals, m))
  {
    hide ScalesTo;
    hide Num;
    var x := Split(s);
    var w := if x.whole == "" then "0" else x.whole;
    WholeOrZero(x.whole);
    if |x.frac| > decimals {
      SurplusScales(x, decimals);
      var f := x.frac[..decimals];
      var m := Num(x.whole) * Pow10(decimals) + Num(f);
      if SurplusIsZero(x.frac, decimals) { ParsesTo(x, w, f, decimals, m); }
    } else {
      var k := decimals - |x.frac|;
      PaddedScales(x, decimals);
      ParsesTo(x, w, x.frac + Zeros(k), decimals, Digits(x) * Pow10(k));
    }
  }

  /** ParseFixed on a well-formed decimal: the scaled value, signed, when there is
  one and it fits an int64, an overflow when it does not fit, and too many
  decimals exactly when the scaled value is not an integer. */
  lemma {:induction false} ParseMeans(s: string, decimals: nat)
    requires s != "" && s != "-" && WellFormed(Split(s))
    ensures var x, r := Split(s), Parse(s, decimals);
      && (forall m: nat :: ScalesTo(x, decimals, m) ==>
          var v: int := if x.neg then 0 - m else m;
          r == if -0x8000_0000_0000_0000 <= v <= 0x7fff_ffff_ffff_ffff then Ok(v) else Overflow)
      && (r == TooManyDecimals <==> forall m: nat :: !ScalesTo(x, decimals, m))
  {
    ParseSigned(s, decimals);
    hide Parse, Split, Sign, ScalesTo, WellFormed;
    forall m: nat ensures Sign(Split(s).neg, m) ==
      var v: int := if Split(s).neg then 0 - m else m;
      if -0x8000_0000_0000_0000 <= v <= 0x7fff_ffff_ffff_ffff then Ok(v) else Overflow
    {
      SignMeans(Split(s).neg, m);
    }
  }

  lemma {:induction false} ParsesTo(x: Decimal, w: string, f: string, decimals: nat, m: nat)
    requires WellFormed(x) && w == (if x.whole == "" then "0" else x.whole)
    requires AllDigits(w) && Num(w) == Num(x.whole) && AllDigits(f) && |f| == decimals
    requires ScalesTo(x, decimals, m) && m == Num(x.whole) * Pow10(decimals) + Num(f)
    ensures ParseUint(w + f) == if m <= MAX_UINT64 then Value(m) else RangeError
    ensures forall m': nat :: ScalesTo(x, decimals, m') ==> m' == m
  {
    NumConcat(w, f);
    ReadUintMeans(w + f, 0);
    forall m': nat | ScalesTo(x, decimals, m') ensures m' == m { ScaleIsUnique(x, decimals, m, m'); }
  }

  /** What is refused for its syntax: nothing at all, or a sign alone. */
  lemma {:induction false} NothingToParse(decimals: nat)
    ensures Parse("", decimals) == InvalidSyntax && Parse("-", decimals) == InvalidSyntax
  {
  }

  /** Whatever else is wrong with it, a string is refused for its decimals exactly when
  something other than a zero stands beyond them. */
  lemma {:induction false} TooManyDecimalsIff(s: string, decimals: nat)
    requires s != "" && s != "-"
    ensures Parse(s, decimals) == TooManyDecimals <==>
      exists i :: decimals <= i < |Split(s).frac| && Split(s).frac[i] != '0'
  {
    var x := Split(s);
    assert Parse(s, decimals) == ParseParts(x.neg, x.whole, x.frac, decimals);
    hide Parse, Split, ParseUint;
    assert SurplusIsZero(x.frac, decimals) || exists i :: decimals <= i < |x.frac| && x.frac[i] != '0';
  }

  /** And digits with something else after them, unless they are out of range before
  it comes. */
  lemma {:induction false} ReadUintStops(a: string, c: char, b: string, acc: nat)
    requires AllDigits(a) && !IsDigit(c) && acc <= MAX_UINT64
    ensures ReadUint(a + [c] + b, acc) ==
      if acc * Pow10(|a|) + Num(a) <= 0xffff_ffff_ffff_ffff then SyntaxError else RangeError
    decreases |a|
  {
    var s := a + [c] + b;
    if a == "" {
      assert s[0] == c;
    } else {
      assert s[0] == a[0] && s[1..] == a[1..] + [c] + b;
      ReadUintMeans(a, acc);
      NumHead(a);
      var d := (a[0] - '0') as int;
      var n := acc * 10 + d;
      ReadDigit(acc, d, Pow10(|a| - 1), Num(a[1..]));
      assert Pow10(|a|) == 10 * Pow10(|a| - 1);
      if n <= MAX_UINT64 {
        ReadUintStops(a[1..], c, b, n);
      } else {
        TimesAtLeast(n, Pow10(|a| - 1));
      }
    }
  }

  /** Only well-formed decimals parse. */
  lemma {:induction false} ParsesOnlyDecimals(s: string, decimals: nat)
    requires Parse(s, decimals).Ok?
    ensures s != "" && s != "-" && WellFormed(Split(s))
  {
    var x := Split(s);
    var w := if x.whole == "" then "0" else x.whole;
    var f := if |x.frac| > decimals then x.frac[..decimals] else x.frac + Zeros(decimals - |x.frac|);
    ReadUintOnlyDigits(w + f, 0);
    forall i | 0 <= i < |x.whole| ensures IsDigit(x.whole[i]) { assert (w + f)[i] == x.whole[i]; }
    forall i | 0 <= i < |x.frac| ensures IsDigit(x.frac[i]) {
      if i < decimals { assert (w + f)[|w| + i] == x.frac[i]; }
    }
  }

  /** Any of the groups of digits may be empty, even both: a lone dot is zero. */
  lemma {:induction false} LoneDotIsZero(decimals: nat)
    ensures Parse(".", decimals) == Ok(0) && Parse("-.", decimals) == Ok(0)
  {
    var x, y := Split("."), Split("-.");
    assert "."[1..] == "" && "-."[1..] == ".";
    assert x == Decimal(false, "", "") && y == Decimal(true, "", "");
    assert ScalesTo(x, decimals, 0) && ScalesTo(y, decimals, 0);
    ParseMeans(".", decimals);
    ParseMeans("-.", decimals);
  }

  /** A trailing fractional zero never changes the result. */
  lemma {:induction false} TrailingZeroIsIgnored(s: string, decimals: nat)
    requires s != "" && '.' in s && WellFormed(Split(s))
    ensures Parse(s + "0", decimals) == Parse(s, decimals)
  {
    var x, y := Split(s), Split(s + "0");
    CutExtends(if s[0] == '-' then s[1..] else s, "0");
    assert (s + "0")[1..] == s[1..] + "0";
    assert y == x.(frac := x.frac + "0");
    forall m: nat ensures WellFormed(y) && (ScalesTo(y, decimals, m) <==> ScalesTo(x, decimals, m)) {
      ZeroKeepsScale(x, decimals, m);
    }
    hide ScalesTo;
    ParseMeans(s, decimals);
    ParseMeans(s + "0", decimals);
    if m: nat :| ScalesTo(x, decimals, m) {
      assert ScalesTo(y, decimals, m);
    }
  }

  lemma {:induction false} ZeroKeepsScale(x: Decimal, decimals: nat, m: nat)
    requires WellFormed(x)
    ensures var y := x.(frac := x.frac + "0"); WellFormed(y) && (ScalesTo(y, decimals, m) <==> ScalesTo(x, decimals, m))
  {
    NumConcat(x.frac, "0");
    assert Num("0") == 0 by { WholeOrZero(""); }
    assert Pow10(1) == 10 * Pow10(0);
    Pow10Add(|x.frac|, 1);
    hide Num;
    hide Pow10;
    TenTimes(Num(x.whole), Pow10(|x.frac|), Num(x.frac), 0);
    SameScale(Num(x.whole) * Pow10(|x.frac|) + Num(x.frac), Pow10(decimals), m, Pow10(|x.frac|));
  }

  lemma {:induction false} SameScale(n: nat, p: nat, m: nat, q: nat)
    ensures (n * 10) * p == m * (q * 10) <==> n * p == m * q
  {
    assert (n * 10) * p == 10 * (n * p) && m * (q * 10) == 10 * (m * q);
  }

  lemma {:induction false} CutExtends(s: string, t: string)
    requires '.' in s
    ensures CutDot(s + t) == (CutDot(s).0, CutDot(s).1 + t)
    ensures CutDot(s) == (CutDot(s).0, CutDot(s).1)
    decreases |s|
  {
    assert (s + t)[1..] == s[1..] + t;
    if s[0] != '.' { CutExtends(s[1..], t); }
  }

  lemma {:induction false} CutAt(a: string, b: string)
    requires '.' !in a
    ensures CutDot(a + "." + b) == (a, b) && CutDot(a) == (a, "")
    decreases |a|
  {
    var s := a + "." + b;
    if a == "" {
      assert s[1..] == b;
    } else {
      assert s[1..] == a[1..] + "." + b;
      CutAt(a[1..], b);
      assert a == [a[0]] + a[1..];
    }
  }

  // ---------- Round trip ----------

  lemma {:induction false} FormatUintMeans(n: nat)
    ensures AllDigits(FormatUint(n)) && Num(FormatUint(n)) == n
  {
    var s := FormatUint(n);
    if n < 10 {
      assert s[..0] == "";
      assert Num(s) == 10 * Num("") + (s[0] - '0') as int;
    } else {
      FormatUintMeans(n / 10);
      assert s[..|s| - 1] == FormatUint(n / 10);
    }
  }

  /** What FormatFixed writes, as a decimal. */
  lemma {:induction false} FormatSplits(v: int, decimals: nat)
    ensures var s, x := FormatFixed(v, decimals), Split(FormatFixed(v, decimals));
      && s != "" && s != "-" && WellFormed(x) && x.neg == (v < 0) && |x.frac| == decimals
      && Digits(x) == if v < 0 then -v else v
  {
    hide FormatUint;
    hide Split;
    hide Digits;
    hide WellFormed;
    hide Num;
    hide Padded;
    var mag: nat := if v < 0 then -v else v;
    FormatUintMeans(mag);
    var ds := FormatUint(mag);
    if decimals == 0 {
      WholeSplits(v < 0, ds);
    } else {
      PaddedMeans(ds, decimals);
      PaddedSplits(v < 0, Padded(ds, decimals), decimals);
    }
  }

  lemma {:induction false} WholeSplits(neg: bool, ds: string)
    requires AllDigits(ds) && ds != ""
    ensures var s := (if neg then "-" else "") + ds;
      && s != "" && s != "-" && WellFormed(Split(s)) && Split(s).neg == neg && |Split(s).frac| == 0
      && Digits(Split(s)) == Num(ds)
  {
    hide CutDot;
    NoDotInDigits(ds);
    CutAt(ds, "");
    assert ds[0] in ds;
    SignedSplit(neg, ds, ds, "");
    assert Num("") == 0 && Pow10(0) == 1;
  }

  lemma {:induction false} NoDotInDigits(ds: string)
    requires AllDigits(ds)
    ensures '.' !in ds && '-' !in ds
  {
  }

  lemma {:induction false} PaddedSplits(neg: bool, p: string, decimals: nat)
    requires AllDigits(p) && decimals < |p|
    ensures var k := |p| - decimals;
      var s := (if neg then "-" else "") + (p[..k] + "." + p[k..]);
      && s != "" && s != "-" && WellFormed(Split(s)) && Split(s).neg == neg && |Split(s).frac| == decimals
      && Digits(Split(s)) == Num(p)
  {
    hide CutDot;
    hide Num;
    hide Pow10;
    var k := |p| - decimals;
    var a, b := p[..k], p[k..];
    DigitsApart(p, k);
    NoDotInDigits(a);
    CutAt(a, b);
    assert (a + "." + b)[0] == a[0] && a[0] in a;
    SignedSplit(neg, a + "." + b, a, b);
  }

  lemma {:induction false} SignedSplit(neg: bool, body: string, a: string, b: string)
    requires body != "" && body[0] != '-' && CutDot(body) == (a, b)
    ensures var s := (if neg then "-" else "") + body; s != "" && s != "-" && Split(s) == Decimal(neg, a, b)
  {
    hide CutDot;
    var s := (if neg then "-" else "") + body;
    if neg {
      assert |s| >= 2 && s[1..] == body;
    } else {
      assert s == body && s[0] != '-';
    }
  }

  lemma {:induction false} PaddedMeans(ds: string, decimals: nat)
    requires AllDigits(ds)
    ensures AllDigits(Padded(ds, decimals)) && Num(Padded(ds, decimals)) == Num(ds)
  {
    if |ds| <= decimals { LeadingZeros(decimals - |ds| + 1, ds); }
  }

  lemma {:induction false} DigitsApart(p: string, k: nat)
    requires AllDigits(p) && k <= |p|
    ensures AllDigits(p[..k]) && AllDigits(p[k..]) && Num(p[..k]) * Pow10(|p| - k) + Num(p[k..]) == Num(p)
  {
    assert p == p[..k] + p[k..];
    NumConcat(p[..k], p[k..]);
  }

  lemma {:induction false} LeadingZeros(n: nat, ds: string)
    requires AllDigits(ds)
    ensures AllDigits(Zeros(n) + ds) && Num(Zeros(n) + ds) == Num(ds)
  {
    NumConcat(Zeros(n), ds);
    NumZeros(Zeros(n));
  }

  /** The round trip, for every int64 including the minimum. */
  lemma {:induction false} FormatThenParse(v: int, decimals: nat)
    requires MIN_INT64 <= v <= MAX_INT64
    ensures Parse(FormatFixed(v, decimals), decimals) == Ok(v)
  {
    var s := FormatFixed(v, decimals);
    FormatSplits(v, decimals);
    ParseMeans(s, decimals);
    assert ScalesTo(Split(s), decimals, if v < 0 then -v else v);
  }

  /** Nothing is printed that need not be: before the dot stands a lone zero or a
  number without leading zeros, and there is a dot exactly when digits follow it. */
  lemma {:induction false} FormatIsShortest(v: int, decimals: nat)
    ensures var s, x := FormatFixed(v, decimals), Split(FormatFixed(v, decimals));
      && x.whole != "" && (x.whole[0] == '0' ==> x.whole == "0")
      && s == (if v < 0 then "-" else "") + x.whole + (if decimals == 0 then "" else "." + x.frac)
  {
    hide Split, FormatUint, Padded, AllDigits;
    var mag: nat := if v < 0 then -v else v;
    var ds := FormatUint(mag);
    FormatUintMeans(mag);
    NoLeadingZero(mag);
    if decimals == 0 {
      WholeIsShortest(v < 0, ds);
    } else {
      PaddedIsShortest(v < 0, ds, decimals);
    }
  }

  lemma {:induction false} WholeIsShortest(neg: bool, ds: string)
    requires AllDigits(ds) && ds != ""
    ensures var s := (if neg then "-" else "") + ds;
      s != "" && Split(s) == Decimal(neg, ds, "") && s == (if neg then "-" else "") + ds + ""
  {
    hide Split;
    NoDotInDigits(ds);
    CutAt(ds, "");
    assert ds[0] in ds;
    SignedSplit(neg, ds, ds, "");
  }

  lemma {:induction false} PaddedIsShortest(neg: bool, ds: string, decimals: nat)
    requires AllDigits(ds) && ds != "" && 0 < decimals && (ds[0] == '0' ==> ds == "0")
    ensures var p := Padded(ds, decimals);
      var k, sign := |p| - decimals, if neg then "-" else "";
      var s := sign + (p[..k] + "." + p[k..]);
      && s != "" && Split(s) == Decimal(neg, p[..k], p[k..]) && s == sign + p[..k] + ("." + p[k..])
      && p[..k] != "" && (p[..k][0] == '0' ==> p[..k] == "0")
  {
    PaddedMeans(ds, decimals);
    PaddedHead(ds, decimals);
    var p := Padded(ds, decimals);
    var k := |p| - decimals;
    assert AllDigits(p[..k]);
    hide Split, Padded, AllDigits;
    DottedSplits(neg, p[..k], p[k..]);
  }

  lemma {:induction false} DottedSplits(neg: bool, a: string, b: string)
    requires AllDigits(a) && a != ""
    ensures var sign := if neg then "-" else "";
      var s := sign + (a + "." + b);
      s != "" && Split(s) == Decimal(neg, a, b) && s == sign + a + ("." + b)
  {
    hide Split, CutDot;
    NoDotInDigits(a);
    CutAt(a, b);
    var body := a + "." + b;
    assert body[0] == a[0] && a[0] in a;
    SignedSplit(neg, body, a, b);
  }

  lemma {:induction false} PaddedHead(ds: string, decimals: nat)
    requires ds != "" && 0 < decimals && (ds[0] == '0' ==> ds == "0")
    ensures var p := Padded(ds, decimals);
      var k := |p| - decimals;
      p[..k] != "" && (p[..k][0] == '0' ==> p[..k] == "0")
  {
    var p := Padded(ds, decimals);
    if |ds| <= decimals {
      assert |p| - decimals == 1 && p[..1] == [p[0]] && p[0] == '0';
    }
  }

  lemma {:induction false} NoLeadingZero(n: nat)
    ensures FormatUint(n)[0] == '0' ==> n == 0 && FormatUint(n) == "0"
  {
    if n >= 10 { NoLeadingZero(n / 10); }
  }

  /** A negative number of decimals prints as none. */
  lemma {:induction false} NegativeDecimals(v: int, decimals: int)
    ensures decimals < 0 ==> FormatFixed(v, decimals) == FormatFixed(v, 0)
  {
  }
}
