/** The scanner on arbitrary bytes (internal/exchange/binance/jsonscan.go): what
it accepts, said of the bytes themselves, whether or not they are JSON. */
module JsonSearch {
  import opened MarketModel
  import opened ByteData
  import opened JsonScan

  predicate White(b: Byte) {
    b == 0x20 || b == 0x09 || b == 0x0a || b == 0x0d
  }

  /** Comma, closing brace, closing bracket or white space. */
  predicate Delimits(b: Byte) {
    b == 0x2c || b == 0x7d || b == 0x5d || White(b)
  }

  ghost predicate AllWhite(data: Bytes, i: nat, j: nat)
    requires i <= j <= |data|
  {
    forall k :: i <= k < j ==> White(data[k])
  }

  lemma {:induction false} SpaceSkipped(data: Bytes, i: nat)
    requires i <= |data|
    ensures var j := SkipSpaceFrom(data, i);
      i <= j <= |data| && AllWhite(data, i, j) && (j < |data| ==> !White(data[j]))
    decreases |data| - i
  {
    if i < |data| && IsSpace(data[i]) { SpaceSkipped(data, i + 1); }
  }

  /** The inside of a string: bytes other than quote and backslash, and pairs of a
  backslash and any byte. */
  ghost predicate Units(s: Bytes)
    decreases |s|
  {
    || s == []
    || (s[0] != 0x22 && s[0] != 0x5c && Units(s[1..]))
    || (s[0] == 0x5c && |s| >= 2 && Units(s[2..]))
  }

  ghost predicate ClosesAt(data: Bytes, i: nat, j: nat) {
    i <= j < |data| && data[j] == 0x22 && Units(data[i..j])
  }

  /** The closing quote is the one reached through whole units. */
  lemma {:induction false} ClosingQuoteIff(data: Bytes, i: nat, j: nat)
    ensures ClosingQuote(data, i) == Some(j) <==> ClosesAt(data, i, j)
    decreases |data| - i
  {
    if i < |data| && data[i] == 0x5c {
      ClosingQuoteIff(data, i + 2, j);
      if i + 2 <= j < |data| {
        assert data[i..j][0] == 0x5c && data[i..j][2..] == data[i + 2..j];
      } else if j == i + 1 < |data| {
        assert data[i..j] == [0x5c];
      }
    } else if i < |data| && data[i] != 0x22 {
      ClosingQuoteIff(data, i + 1, j);
      if i + 1 <= j < |data| { assert data[i..j][0] == data[i] && data[i..j][1..] == data[i + 1..j]; }
    } else if i < j < |data| {
      assert data[i..j][0] == data[i];
    }
  }

  lemma {:induction false} ScalarEndIff(data: Bytes, i: nat, j: nat)
    ensures ScalarEnd(data, i) == Some(j) <==>
      i <= j < |data| && Delimits(data[j]) && forall k :: i <= k < j ==> !Delimits(data[k])
    decreases |data| - i
  {
    if i < |data| && !EndsScalar(data[i]) { ScalarEndIff(data, i + 1, j); }
  }

  /** Text that takes `d` open brackets to none for the first time at its end, with
  whole strings among it; any bracket closes any other. */
  ghost predicate Unwinds(s: Bytes, d: nat)
    decreases |s|
  {
    && s != []
    && (if s[0] == 0x7b || s[0] == 0x5b then Unwinds(s[1..], d + 1)
        else if s[0] == 0x7d || s[0] == 0x5d then if d <= 1 then d == 1 && |s| == 1 else Unwinds(s[1..], d - 1)
        else if s[0] == 0x22 then exists k :: 0 < k < |s| && s[k] == 0x22 && Units(s[1..k]) && Unwinds(s[k + 1..], d)
        else Unwinds(s[1..], d))
  }

  /** The end of a nested value is where its brackets are all closed again. */
  lemma {:induction false} NestedEndIff(data: Bytes, i: nat, d: nat, j: nat)
    requires d > 0
    ensures NestedEnd(data, i, d) == Some(j) <==> i < j <= |data| && Unwinds(data[i..j], d)
    decreases |data| - i
  {
    if i < |data| {
      hide ClosingQuote, Units;
      if i < j <= |data| { assert data[i..j][0] == data[i] && data[i..j][1..] == data[i + 1..j]; }
      if Opens(data[i]) {
        NestedEndIff(data, i + 1, d + 1, j);
      } else if Closes(data[i]) {
        if d > 1 { NestedEndIff(data, i + 1, d - 1, j); }
      } else if data[i] == 0x22 {
        var q := ClosingQuote(data, i + 1);
        NestedPastString(data, i, d);
        if q.Some? { NestedEndIff(data, q.value + 1, d, j); }
        if i < j <= |data| { PieceUnwinds(data, i, d, j); }
      } else {
        NestedEndIff(data, i + 1, d, j);
      }
    }
  }

  /** A string among nested text is passed whole. */
  lemma {:induction false} UnwindsPastString(s: Bytes, d: nat)
    requires s != [] && s[0] == 0x22
    ensures var q := ClosingQuote(s, 1);
      Unwinds(s, d) <==> q.Some? && Unwinds(s[q.value + 1..], d)
  {
    var q := ClosingQuote(s, 1);
    forall k: nat | 0 < k < |s| && s[k] == 0x22 && Units(s[1..k]) ensures q == Some(k) {
      ClosingQuoteIff(s, 1, k);
    }
    if q.Some? {
      ClosingQuoteIff(s, 1, q.value);
      assert s[q.value] == 0x22 && Units(s[1..q.value]);
    }
    hide Units;
  }

  lemma {:induction false} SliceInside(data: Bytes, i: nat, j: nat, a: nat, b: nat)
    requires i <= j <= |data| && a <= b <= j - i
    ensures data[i..j][a..b] == data[i + a..i + b]
  {
    forall k | 0 <= k < b - a ensures data[i..j][a..b][k] == data[i + a..i + b][k] {
      assert data[i..j][a + k] == data[i + (a + k)];
    }
  }

  lemma {:induction false} TailInside(data: Bytes, i: nat, j: nat, a: nat)
    requires i <= j <= |data| && a <= j - i
    ensures data[i..j][a..] == data[i + a..j]
  {
    SliceInside(data, i, j, a, j - i);
  }

  /** A string that closes in a piece of the data closes there in the data. */
  lemma {:induction false} ClosingQuoteInside(data: Bytes, i: nat, j: nat)
    requires i < j <= |data|
    ensures var q, q' := ClosingQuote(data, i + 1), ClosingQuote(data[i..j], 1);
      q' == if q.Some? && q.value < j then Some(q.value - i) else None
  {
    var q, q' := ClosingQuote(data, i + 1), ClosingQuote(data[i..j], 1);
    if q.Some? && q.value < j {
      var k := q.value - i;
      ClosingQuoteIff(data, i + 1, q.value);
      SliceInside(data, i, j, 1, k);
      ClosingQuoteIff(data[i..j], 1, k);
    } else if q'.Some? {
      var k := q'.value;
      ClosingQuoteIff(data[i..j], 1, k);
      SliceInside(data, i, j, 1, k);
      ClosingQuoteIff(data, i + 1, i + k);
    }
  }

  /** The same in a piece of the data. */
  lemma {:induction false} PieceUnwinds(data: Bytes, i: nat, d: nat, j: nat)
    requires i < j <= |data| && data[i] == 0x22
    ensures var q := ClosingQuote(data, i + 1);
      Unwinds(data[i..j], d) <==> q.Some? && q.value + 1 < j && Unwinds(data[q.value + 1..j], d)
  {
    hide ClosingQuote, Unwinds;
    var q := ClosingQuote(data, i + 1);
    ClosingQuoteInside(data, i, j);
    UnwindsPastString(data[i..j], d);
    if q.Some? && q.value < j {
      TailInside(data, i, j, q.value - i + 1);
      if q.value + 1 == j { NoTextUnwinds(d); }
    }
  }

  lemma {:induction false} NestedPastString(data: Bytes, i: nat, d: nat)
    requires i < |data| && data[i] == 0x22
    ensures var q := ClosingQuote(data, i + 1);
      NestedEnd(data, i, d) == if q.None? then None else NestedEnd(data, q.value + 1, d)
  {
    hide ClosingQuote;
  }

  lemma NoTextUnwinds(d: nat)
    ensures !Unwinds([], d)
  {
  }

  /** A value from `i` to `j`: a string, a bracketed text, or anything else up to a
  delimiter. */
  ghost predicate ValueText(data: Bytes, i: nat, j: nat) {
    && i < j <= |data|
    && (if data[i] == 0x22 then ClosesAt(data, i + 1, j - 1)
        else if data[i] == 0x7b || data[i] == 0x5b then Unwinds(data[i + 1..j], 1)
        else j < |data| && Delimits(data[j]) && forall k :: i <= k < j ==> !Delimits(data[k]))
  }

  lemma {:induction false} ValueEndIff(data: Bytes, i: nat, j: nat)
    ensures ValueEnd(data, i) == Some(j) <==> ValueText(data, i, j)
  {
    if i < |data| {
      if data[i] == 0x22 {
        if j > 0 { ClosingQuoteIff(data, i + 1, j - 1); }
      } else if Opens(data[i]) {
        assert NestedEnd(data, i, 0) == NestedEnd(data, i + 1, 1);
        NestedEndIff(data, i + 1, 1, j);
        if j == i + 1 { assert data[i + 1..j] == []; }
      } else {
        ScalarEndIff(data, i, j);
      }
    }
  }

  /** A member from `i`: white space, a string, white space, a colon, white space and
  a value. */
  ghost predicate MemberText(data: Bytes, i: nat, m: Span) {
    && i <= m.open && m.open + 1 <= m.close && m.close + 1 < m.start < m.end <= |data|
    && AllWhite(data, i, m.open) && data[m.open] == 0x22 && ClosesAt(data, m.open + 1, m.close)
    && (exists colon :: m.close < colon < m.start && data[colon] == 0x3a
          && AllWhite(data, m.close + 1, colon) && AllWhite(data, colon + 1, m.start))
    && !White(data[m.start]) && ValueText(data, m.start, m.end)
  }

  /** Skipping space stops nowhere else. */
  lemma {:induction false} SpaceStops(data: Bytes, i: nat, j: nat)
    requires i <= j <= |data| && AllWhite(data, i, j) && (j < |data| ==> !White(data[j]))
    ensures SkipSpaceFrom(data, i) == j
  {
    SpaceSkipped(data, i);
    var k := SkipSpaceFrom(data, i);
    assert !(k < j) && !(j < k);
  }

  lemma {:induction false} MemberAtIff(data: Bytes, i: nat, m: Span)
    requires i <= |data|
    ensures MemberAt(data, i) == Some(m) <==> MemberText(data, i, m)
  {
    if MemberAt(data, i) == Some(m) { MemberIsText(data, i, m); }
    if MemberText(data, i, m) { TextIsMember(data, i, m); }
  }

  lemma {:induction false} MemberIsText(data: Bytes, i: nat, m: Span)
    requires i <= |data| && MemberAt(data, i) == Some(m)
    ensures MemberText(data, i, m)
  {
    hide ValueText, ClosesAt, ValueEnd;
    SpaceSkipped(data, i);
    ClosingQuoteIff(data, m.open + 1, m.close);
    SpaceSkipped(data, m.close + 1);
    var colon := SkipSpaceFrom(data, m.close + 1);
    SpaceSkipped(data, colon + 1);
    ValueEndIff(data, m.start, m.end);
  }

  lemma {:induction false} TextIsMember(data: Bytes, i: nat, m: Span)
    requires i <= |data| && MemberText(data, i, m)
    ensures MemberAt(data, i) == Some(m)
  {
    hide ValueText, ClosesAt, ValueEnd, SkipSpaceFrom, AllWhite;
    SpaceStops(data, i, m.open);
    ClosingQuoteIff(data, m.open + 1, m.close);
    var colon :| m.close < colon < m.start && data[colon] == 0x3a
      && AllWhite(data, m.close + 1, colon) && AllWhite(data, colon + 1, m.start);
    SpaceStops(data, m.close + 1, colon);
    SpaceStops(data, colon + 1, m.start);
    ValueEndIff(data, m.start, m.end);
  }

  /** The members from `i` on, separated by commas, up to the first whose key is
  written as asked, and it is the last of them. */
  ghost predicate Leads(data: Bytes, i: nat, key: Bytes, ms: seq<Span>)
    decreases |ms|
  {
    && ms != [] && i <= |data| && MemberText(data, i, ms[0])
    && if |ms| == 1 then data[ms[0].open + 1..ms[0].close] == key
       else
         && data[ms[0].open + 1..ms[0].close] != key
         && exists comma :: ms[0].end <= comma < |data| && data[comma] == 0x2c
              && AllWhite(data, ms[0].end, comma) && Leads(data, comma + 1, key, ms[1..])
  }

  ghost predicate ValueOf(data: Bytes, m: Span, v: Bytes) {
    m.start <= m.end <= |data| && v == data[m.start..m.end]
  }

  ghost predicate LeadsTo(data: Bytes, i: nat, key: Bytes, ms: seq<Span>, v: Bytes) {
    ms != [] && Leads(data, i, key, ms) && ValueOf(data, ms[|ms| - 1], v)
  }

  /** One turn of the search. */
  lemma {:induction false} SearchTurns(data: Bytes, i: nat, key: Bytes, m: Span)
    requires MemberAt(data, i) == Some(m) && m.end <= |data|
    ensures var comma := SkipSpaceFrom(data, m.end);
      FieldFrom(data, i, key) ==
      if data[m.open + 1..m.close] == key then Some(data[m.start..m.end])
      else if comma < |data| && data[comma] == 0x2c then FieldFrom(data, comma + 1, key)
      else None
  {
    hide MemberAt, SkipSpaceFrom;
  }

  lemma {:induction false} FoundLeads(data: Bytes, i: nat, key: Bytes) returns (ms: seq<Span>)
    requires i <= |data| && FieldFrom(data, i, key).Some?
    ensures LeadsTo(data, i, key, ms, FieldFrom(data, i, key).value)
    decreases |data| - i
  {
    assert MemberAt(data, i).Some?;
    var m := MemberAt(data, i).value;
    MemberAtIff(data, i, m);
    SearchTurns(data, i, key, m);
    SpaceSkipped(data, m.end);
    hide MemberText, MemberAt, FieldFrom, SkipSpaceFrom, Leads, AllWhite;
    if data[m.open + 1..m.close] == key {
      ms := [m];
      LeadsAlone(data, i, key, m);
    } else {
      var comma := SkipSpaceFrom(data, m.end);
      var more := FoundLeads(data, comma + 1, key);
      ms := [m] + more;
      LeadsOn(data, i, key, m, comma, more);
    }
  }

  lemma {:induction false} LeadsAlone(data: Bytes, i: nat, key: Bytes, m: Span)
    requires i <= |data| && m.open + 1 <= m.close <= |data| && MemberText(data, i, m)
    requires data[m.open + 1..m.close] == key
    ensures Leads(data, i, key, [m])
  {
    hide MemberText;
  }

  lemma {:induction false} LeadsOn(data: Bytes, i: nat, key: Bytes, m: Span, comma: nat, more: seq<Span>)
    ensures i <= |data| && m.open + 1 <= m.close <= |data| && MemberText(data, i, m)
      && data[m.open + 1..m.close] != key
      && m.end <= comma < |data| && data[comma] == 0x2c && AllWhite(data, m.end, comma) && Leads(data, comma + 1, key, more)
      ==> Leads(data, i, key, [m] + more)
  {
    hide MemberText, AllWhite;
    assert ([m] + more)[1..] == more;
  }

  /** The first of the members, and where the others begin. */
  lemma {:induction false} LeadsFirst(data: Bytes, i: nat, key: Bytes, ms: seq<Span>) returns (comma: nat)
    requires Leads(data, i, key, ms)
    ensures ms != [] && i <= |data| && MemberAt(data, i) == Some(ms[0]) && ms[0].open + 1 <= ms[0].close <= |data|
    ensures ms[0].start <= ms[0].end <= |data|
    ensures |ms| == 1 <==> data[ms[0].open + 1..ms[0].close] == key
    ensures |ms| > 1 ==>
      SkipSpaceFrom(data, ms[0].end) == comma < |data| && data[comma] == 0x2c && Leads(data, comma + 1, key, ms[1..])
  {
    MemberAtIff(data, i, ms[0]);
    hide MemberAt, SkipSpaceFrom, ValueText, ClosesAt, AllWhite;
    comma := 0;
    if |ms| > 1 {
      comma :| ms[0].end <= comma < |data| && data[comma] == 0x2c
        && AllWhite(data, ms[0].end, comma) && Leads(data, comma + 1, key, ms[1..]);
      hide Leads, MemberText;
      CommaStops(data, ms[0].end, comma);
    }
  }

  lemma {:induction false} LeadsFinds(data: Bytes, i: nat, key: Bytes, ms: seq<Span>)
    requires ms != [] && Leads(data, i, key, ms)
    ensures FieldFrom(data, i, key).Some? && ValueOf(data, ms[|ms| - 1], FieldFrom(data, i, key).value)
    decreases |ms|
  {
    hide Leads, MemberAt, FieldFrom, SkipSpaceFrom;
    var comma := LeadsFirst(data, i, key, ms);
    SearchTurns(data, i, key, ms[0]);
    if |ms| > 1 { LeadsFinds(data, comma + 1, key, ms[1..]); }
  }

  lemma {:induction false} CommaStops(data: Bytes, i: nat, comma: nat)
    requires i <= comma < |data| && data[comma] == 0x2c && AllWhite(data, i, comma)
    ensures SkipSpaceFrom(data, i) == comma
  {
    SpaceStops(data, i, comma);
  }

  /** White space, an opening brace, and members that lead to a value. */
  ghost predicate FieldText(data: Bytes, key: Bytes, brace: nat, ms: seq<Span>, v: Bytes) {
    brace < |data| && data[brace] == 0x7b && AllWhite(data, 0, brace) && LeadsTo(data, brace + 1, key, ms, v)
  }

  /** On arbitrary bytes fieldValue succeeds exactly when, after white space and an
  opening brace, members follow one another by commas up to one whose key is written
  as asked, and then it returns the value of that one; no other bytes are read as
  having the field. */
  lemma {:induction false} FieldIff(data: Bytes, key: Bytes, v: Bytes)
    ensures Field(data, key) == Some(v) <==> exists brace: nat, ms: seq<Span> :: FieldText(data, key, brace, ms, v)
  {
    hide Leads, FieldFrom, SkipSpaceFrom, AllWhite;
    SpaceSkipped(data, 0);
    if Field(data, key) == Some(v) {
      var brace := SkipSpaceFrom(data, 0);
      var ms := FoundLeads(data, brace + 1, key);
      assert FieldText(data, key, brace, ms, v);
    }
    forall brace: nat, ms: seq<Span> | FieldText(data, key, brace, ms, v) ensures Field(data, key) == Some(v) {
      BraceStops(data, brace);
      LeadsFinds(data, brace + 1, key, ms);
    }
  }

  lemma {:induction false} BraceStops(data: Bytes, brace: nat)
    requires brace < |data| && data[brace] == 0x7b && AllWhite(data, 0, brace)
    ensures SkipSpaceFrom(data, 0) == brace
  {
    SpaceStops(data, 0, brace);
  }

  /** And stringField returns what stands between the quotes of a value that begins and
  ends with one and holds no backslash, and nothing for any other. */
  lemma {:induction false} TextOfIff(raw: Bytes, text: Bytes)
    ensures TextOf(Some(raw)) == Some(text) <==> raw == [0x22] + text + [0x22] && 0x5c !in text
  {
    if |raw| >= 2 && raw[0] == 0x22 && raw[|raw| - 1] == 0x22 {
      assert raw == [0x22] + raw[1..|raw| - 1] + [0x22];
    }
    var r := [0x22] + text + [0x22];
    assert r[1..|r| - 1] == text;
  }
}
