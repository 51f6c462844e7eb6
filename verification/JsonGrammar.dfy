/** The scanner agrees with the grammar of RFC 8259. */
module JsonGrammar {
  import opened MarketModel
  import opened ByteData
  import opened JsonScan

  // ---------- The grammar: values with the whitespace they are written with ----------

  datatype Json =
    | Text(chars: Bytes)
    | Scalar(text: Bytes)
    | Array(pad: Bytes, elems: Elems)
    | Object(pad: Bytes, members: Members)

  datatype Elems = NoElems | Elem(before: Bytes, value: Json, after: Bytes, rest: Elems)

  datatype Members =
    | NoMembers
    | Member(before: Bytes, key: Bytes, afterKey: Bytes, beforeValue: Bytes, value: Json, after: Bytes, rest: Members)

  /** Sections 3 and 6: the literal names, and numbers by their parts. */
  datatype Atom = True | False | Null | Number(minus: bool, whole: Bytes, frac: Bytes, exp: Exponent)

  datatype Exponent = NoExponent | Exponent(mark: Byte, sign: Bytes, digits: Bytes)

  /** Section 2: space, tab, line feed and carriage return. */
  ghost predicate Spaces(s: Bytes) {
    forall i :: 0 <= i < |s| ==> s[i] == 0x20 || s[i] == 0x09 || s[i] == 0x0a || s[i] == 0x0d
  }

  predicate IsDigit(b: Byte) {
    0x30 <= b <= 0x39
  }

  predicate IsHex(b: Byte) {
    IsDigit(b) || 0x41 <= b <= 0x46 || 0x61 <= b <= 0x66
  }

  ghost predicate Digits(s: Bytes) {
    forall i :: 0 <= i < |s| ==> IsDigit(s[i])
  }

  /** Section 7: unescaped characters, two-character escapes and \uXXXX. */
  ghost predicate StringChars(s: Bytes)
    decreases |s|
  {
    || s == []
    || (s[0] >= 0x20 && s[0] != 0x22 && s[0] != 0x5c && StringChars(s[1..]))
    || (s[0] == 0x5c && |s| >= 2 && IsShortEscape(s[1]) && StringChars(s[2..]))
    || (s[0] == 0x5c && |s| >= 6 && s[1] == 0x75 && IsHex(s[2]) && IsHex(s[3]) && IsHex(s[4]) && IsHex(s[5])
        && StringChars(s[6..]))
  }

  /** " \ / b f n r t */
  predicate IsShortEscape(b: Byte) {
    b == 0x22 || b == 0x5c || b == 0x2f || b == 0x62 || b == 0x66 || b == 0x6e || b == 0x72 || b == 0x74
  }

  ghost predicate WellFormedAtom(a: Atom) {
    match a
    case Number(_, whole, frac, exp) =>
      && whole != [] && Digits(whole) && (whole[0] == 0x30 ==> |whole| == 1) && Digits(frac)
      && (exp.Exponent? ==>
          && (exp.mark == 0x65 || exp.mark == 0x45) && exp.sign in {[], [0x2b], [0x2d]}
          && exp.digits != [] && Digits(exp.digits))
    case _ => true
  }

  ghost predicate WellFormed(v: Json) {
    match v
    case Text(chars) => StringChars(chars)
    case Scalar(text) => ScalarText(text)
    case Array(pad, elems) => Spaces(pad) && WellFormedElems(elems)
    case Object(pad, members) => Spaces(pad) && WellFormedMembers(members)
  }

  ghost predicate WellFormedElems(e: Elems) {
    e.Elem? ==> Spaces(e.before) && WellFormed(e.value) && Spaces(e.after) && WellFormedElems(e.rest)
  }

  ghost predicate WellFormedMembers(m: Members) {
    m.Member? ==>
      && Spaces(m.before) && StringChars(m.key) && Spaces(m.afterKey) && Spaces(m.beforeValue)
      && WellFormed(m.value) && Spaces(m.after) && WellFormedMembers(m.rest)
  }

  // ---------- Written out ----------

  function AtomText(a: Atom): Bytes {
    match a
    case True => [0x74, 0x72, 0x75, 0x65]
    case False => [0x66, 0x61, 0x6c, 0x73, 0x65]
    case Null => [0x6e, 0x75, 0x6c, 0x6c]
    case Number(minus, whole, frac, exp) =>
      (if minus then [0x2d] else []) + whole + (if frac == [] then [] else [0x2e] + frac)
      + (if exp.NoExponent? then [] else [exp.mark] + exp.sign + exp.digits)
  }

  ghost predicate ScalarText(text: Bytes) {
    exists a :: WellFormedAtom(a) && AtomText(a) == text
  }

  function Bracketed(open: Byte, inside: Bytes, close: Byte): Bytes {
    [open] + (inside + [close])
  }

  function Quoted(s: Bytes): Bytes {
    Bracketed(0x22, s, 0x22)
  }

  function Render(v: Json): Bytes {
    match v
    case Text(chars) => Quoted(chars)
    case Scalar(text) => text
    case Array(pad, elems) =>
      Bracketed(0x5b, if elems.NoElems? then pad else RenderElems(elems), 0x5d)
    case Object(pad, members) =>
      Bracketed(0x7b, if members.NoMembers? then pad else RenderMembers(members), 0x7d)
  }

  function RenderElems(e: Elems): Bytes {
    match e
    case NoElems => []
    case Elem(before, value, after, rest) =>
      before + (Render(value) + (after + if rest.NoElems? then [] else [0x2c] + RenderElems(rest)))
  }

  function RenderMembers(m: Members): Bytes {
    match m
    case NoMembers => []
    case Member(before, key, afterKey, beforeValue, value, after, rest) =>
      before + (Quoted(key) + (afterKey + ([0x3a] + (beforeValue + (Render(value) +
        (after + if rest.NoMembers? then [] else [0x2c] + RenderMembers(rest)))))))
  }

  // ---------- Text at a place ----------

  ghost predicate At(data: Bytes, i: nat, text: Bytes) {
    i + |text| <= |data| && forall k :: 0 <= k < |text| ==> data[i + k] == text[k]
  }

  lemma {:induction false} AtParts(data: Bytes, i: nat, a: Bytes, b: Bytes)
    requires At(data, i, a + b)
    ensures At(data, i, a) && At(data, i + |a|, b)
  {
    forall k | 0 <= k < |a| ensures data[i + k] == a[k] {
      assert (a + b)[k] == a[k];
    }
    forall k | 0 <= k < |b| ensures data[i + |a| + k] == b[k] {
      assert (a + b)[|a| + k] == b[k];
    }
  }

  lemma {:induction false} AtFour(data: Bytes, i: nat, a: Bytes, b: Bytes, c: Bytes, d: Bytes)
    requires At(data, i, a + (b + (c + d)))
    ensures At(data, i, a) && At(data, i + |a|, b) && At(data, i + |a| + |b|, c) && At(data, i + |a| + |b| + |c|, d)
  {
    AtParts(data, i, a, b + (c + d));
    AtParts(data, i + |a|, b, c + d);
    AtParts(data, i + |a| + |b|, c, d);
  }

  lemma {:induction false} AtByte(data: Bytes, i: nat, text: Bytes, k: nat)
    requires At(data, i, text) && k < |text|
    ensures data[i + k] == text[k]
  {
  }

  lemma {:induction false} AtSlice(data: Bytes, i: nat, text: Bytes)
    requires At(data, i, text)
    ensures data[i..i + |text|] == text
  {
  }

  // ---------- Each loop on the text of its nonterminal ----------

  lemma {:induction false} SpaceIsSkipped(data: Bytes, i: nat, ws: Bytes)
    requires At(data, i, ws) && Spaces(ws)
    requires i + |ws| < |data| ==> !IsSpace(data[i + |ws|])
    ensures SkipSpaceFrom(data, i) == i + |ws|
    decreases |ws|
  {
    if ws != [] {
      AtByte(data, i, ws, 0);
      AtFrom(data, i, ws, 1);
      SpaceIsSkipped(data, i + 1, ws[1..]);
    }
  }

  lemma {:induction false} StringIsClosed(data: Bytes, i: nat, s: Bytes)
    requires At(data, i, s) && i + |s| < |data| && data[i + |s|] == QUOTE && StringChars(s)
    ensures ClosingQuote(data, i) == Some(i + |s|)
    decreases |s|
  {
    if s != [] {
      AtByte(data, i, s, 0);
      if s[0] != BACKSLASH {
        AtFrom(data, i, s, 1);
        StringIsClosed(data, i + 1, s[1..]);
      } else if IsShortEscape(s[1]) {
        AtFrom(data, i, s, 2);
        StringIsClosed(data, i + 2, s[2..]);
      } else {
        AtFrom(data, i, s, 6);
        StringIsClosed(data, i + 6, s[6..]);
        HexIsPassed(data, i, s);
      }
    }
  }

  lemma {:induction false} AtFrom(data: Bytes, i: nat, s: Bytes, k: nat)
    requires At(data, i, s) && k <= |s|
    ensures At(data, i + k, s[k..])
  {
    forall j | 0 <= j < |s[k..]| ensures data[i + k + j] == s[k..][j] {
      assert data[i + (k + j)] == s[k + j];
    }
  }

  lemma {:induction false} HexIsPassed(data: Bytes, i: nat, s: Bytes)
    requires At(data, i, s) && |s| >= 6 && s[0] == BACKSLASH && IsHex(s[2]) && IsHex(s[3]) && IsHex(s[4]) && IsHex(s[5])
    ensures ClosingQuote(data, i) == ClosingQuote(data, i + 6)
  {
    AtByte(data, i, s, 0);
    AtByte(data, i, s, 2);
    AtByte(data, i, s, 3);
    AtByte(data, i, s, 4);
    AtByte(data, i, s, 5);
    assert ClosingQuote(data, i) == ClosingQuote(data, i + 2);
    assert ClosingQuote(data, i + 2) == ClosingQuote(data, i + 3);
    assert ClosingQuote(data, i + 3) == ClosingQuote(data, i + 4);
    assert ClosingQuote(data, i + 4) == ClosingQuote(data, i + 5);
    assert ClosingQuote(data, i + 5) == ClosingQuote(data, i + 6);
  }

  /** Bytes no scalar loop and no nesting loop stops at. */
  ghost predicate Plain(s: Bytes) {
    forall i :: 0 <= i < |s| ==> !EndsScalar(s[i]) && !Opens(s[i]) && s[i] != QUOTE
  }

  lemma {:induction false} PlainJoin(a: Bytes, b: Bytes)
    requires Plain(a) && Plain(b)
    ensures Plain(a + b)
  {
  }

  lemma {:induction false} AtomIsPlain(a: Atom)
    requires WellFormedAtom(a)
    ensures AtomText(a) != [] && Plain(AtomText(a))
  {
    match a
    case Number(minus, whole, frac, exp) =>
      var m: Bytes := if minus then [0x2d] else [];
      var f: Bytes := if frac == [] then [] else [0x2e] + frac;
      var e: Bytes := if exp.NoExponent? then [] else [exp.mark] + exp.sign + exp.digits;
      PlainJoin(m, whole);
      PlainJoin(m + whole, f);
      PlainJoin(m + whole + f, e);
      assert AtomText(a) == m + whole + f + e;
    case _ =>
  }

  lemma {:induction false} ScalarIsPlain(text: Bytes)
    requires ScalarText(text)
    ensures text != [] && Plain(text)
  {
    var a :| WellFormedAtom(a) && AtomText(a) == text;
    AtomIsPlain(a);
  }

  lemma {:induction false} ScalarIsPassed(data: Bytes, i: nat, s: Bytes)
    requires At(data, i, s) && Plain(s) && i + |s| < |data| && EndsScalar(data[i + |s|])
    ensures ScalarEnd(data, i) == Some(i + |s|)
    decreases |s|
  {
    if s != [] {
      AtByte(data, i, s, 0);
      AtFrom(data, i, s, 1);
      ScalarIsPassed(data, i + 1, s[1..]);
    }
  }

  /** Bytes the nesting loop steps over one by one. */
  ghost predicate Inert(s: Bytes) {
    forall i :: 0 <= i < |s| ==> !Opens(s[i]) && !Closes(s[i]) && s[i] != QUOTE
  }

  lemma {:induction false} InertIsPassed(data: Bytes, i: nat, s: Bytes, depth: int)
    requires At(data, i, s) && Inert(s)
    ensures NestedEnd(data, i, depth) == NestedEnd(data, i + |s|, depth)
    decreases |s|
  {
    if s != [] {
      AtByte(data, i, s, 0);
      AtFrom(data, i, s, 1);
      InertIsPassed(data, i + 1, s[1..], depth);
    }
  }

  lemma {:induction false} BracketedParts(data: Bytes, i: nat, open: Byte, inside: Bytes, close: Byte)
    requires At(data, i, Bracketed(open, inside, close))
    ensures data[i] == open && At(data, i + 1, inside) && i + 1 + |inside| < |data| && data[i + 1 + |inside|] == close
  {
    AtParts(data, i, [open], inside + [close]);
    AtByte(data, i, [open], 0);
    AtParts(data, i + 1, inside, [close]);
    AtByte(data, i + 1 + |inside|, [close], 0);
  }

  lemma {:induction false} StringIsRead(data: Bytes, i: nat, s: Bytes)
    requires At(data, i, Quoted(s)) && StringChars(s)
    ensures data[i] == QUOTE && At(data, i + 1, s) && ClosingQuote(data, i + 1) == Some(i + 1 + |s|)
  {
    BracketedParts(data, i, QUOTE, s, QUOTE);
    StringIsClosed(data, i + 1, s);
  }

  // ---------- What the nesting loop cannot see ----------

  /** Text the nesting loop passes, wherever it lies, and is none the wiser. */
  ghost predicate Transparent(s: Bytes) {
    forall data: Bytes, i: nat, depth: int :: depth >= 1 && At(data, i, s) ==>
      NestedEnd(data, i, depth) == NestedEnd(data, i + |s|, depth)
  }

  lemma {:induction false} TransparentJoin(a: Bytes, b: Bytes)
    requires Transparent(a) && Transparent(b)
    ensures Transparent(a + b)
  {
    forall data: Bytes, i: nat, depth: int | depth >= 1 && At(data, i, a + b)
      ensures NestedEnd(data, i, depth) == NestedEnd(data, i + |a + b|, depth)
    {
      AtParts(data, i, a, b);
      assert i + |a + b| == i + |a| + |b|;
    }
  }

  lemma {:induction false} InertIsTransparent(s: Bytes)
    requires Inert(s)
    ensures Transparent(s)
  {
    forall data: Bytes, i: nat, depth: int | depth >= 1 && At(data, i, s)
      ensures NestedEnd(data, i, depth) == NestedEnd(data, i + |s|, depth)
    {
      InertIsPassed(data, i, s, depth);
    }
  }

  lemma {:induction false} StringIsTransparent(s: Bytes)
    requires StringChars(s)
    ensures Transparent(Quoted(s))
  {
    forall data: Bytes, i: nat, depth: int | depth >= 1 && At(data, i, Quoted(s))
      ensures NestedEnd(data, i, depth) == NestedEnd(data, i + |Quoted(s)|, depth)
    {
      StringIsRead(data, i, s);
    }
  }

  /** A bracketed text, from its opening bracket at any depth. */
  lemma {:induction false} BracketsAreMatched(data: Bytes, i: nat, open: Byte, inside: Bytes, close: Byte, depth: nat)
    requires Opens(open) && Closes(close) && Transparent(inside)
    requires At(data, i, Bracketed(open, inside, close))
    ensures var end := i + |inside| + 2;
      NestedEnd(data, i, depth) == if depth == 0 then Some(end) else NestedEnd(data, end, depth)
  {
    BracketedParts(data, i, open, inside, close);
    assert NestedEnd(data, i, depth) == NestedEnd(data, i + 1, depth + 1);
    assert NestedEnd(data, i + 1, depth + 1) == NestedEnd(data, i + 1 + |inside|, depth + 1);
  }

  lemma {:induction false} BracketedIsTransparent(open: Byte, inside: Bytes, close: Byte)
    requires Opens(open) && Closes(close) && Transparent(inside)
    ensures Transparent(Bracketed(open, inside, close))
  {
    forall data: Bytes, i: nat, depth: int | depth >= 1 && At(data, i, Bracketed(open, inside, close))
      ensures NestedEnd(data, i, depth) == NestedEnd(data, i + |Bracketed(open, inside, close)|, depth)
    {
      BracketsAreMatched(data, i, open, inside, close, depth);
    }
  }

  /** The inside of a container. */
  function Inside(v: Json): Bytes
    requires v.Array? || v.Object?
  {
    if v.Array? then if v.elems.NoElems? then v.pad else RenderElems(v.elems)
    else if v.members.NoMembers? then v.pad else RenderMembers(v.members)
  }

  lemma {:induction false} ValueIsTransparent(v: Json)
    requires WellFormed(v)
    ensures Transparent(Render(v))
    decreases v, 1
  {
    match v
    case Text(chars) => StringIsTransparent(chars);
    case Scalar(text) =>
      ScalarIsPlain(text);
      InertIsTransparent(text);
    case Array(_, _) =>
      InsideIsTransparent(v);
      BracketedIsTransparent(OPEN_BRACKET, Inside(v), CLOSE_BRACKET);
    case Object(_, _) =>
      InsideIsTransparent(v);
      BracketedIsTransparent(OPEN_BRACE, Inside(v), CLOSE_BRACE);
  }

  lemma {:induction false} InsideIsTransparent(v: Json)
    requires (v.Array? || v.Object?) && WellFormed(v)
    ensures Transparent(Inside(v))
    decreases v, 0
  {
    if v.Array? && v.elems.Elem? {
      ElemsAreTransparent(v.elems);
    } else if v.Object? && v.members.Member? {
      MembersAreTransparent(v.members);
    } else {
      InertIsTransparent(v.pad);
    }
  }

  lemma {:induction false} ElemsAreTransparent(e: Elems)
    requires e.Elem? && WellFormedElems(e)
    ensures Transparent(RenderElems(e))
    decreases e, 2
  {
    var r, rest := Render(e.value), RenderElems(e.rest);
    var t := if e.rest.NoElems? then [] else [COMMA] + rest;
    InertIsTransparent(e.before);
    ValueIsTransparent(e.value);
    InertIsTransparent(e.after);
    InertIsTransparent([COMMA]);
    InertIsTransparent([]);
    if e.rest.Elem? {
      ElemsAreTransparent(e.rest);
      TransparentJoin([COMMA], rest);
    }
    TransparentJoin(e.after, t);
    TransparentJoin(r, e.after + t);
    TransparentJoin(e.before, r + (e.after + t));
  }

  lemma {:induction false} MembersAreTransparent(m: Members)
    requires m.Member? && WellFormedMembers(m)
    ensures Transparent(RenderMembers(m))
    decreases m, 2
  {
    var w, rest := RawOf(m), RenderMembers(m.rest);
    var t := if m.rest.NoMembers? then [] else [COMMA] + rest;
    ValueIsTransparent(m.value);
    InertIsTransparent([COMMA]);
    InertIsTransparent([]);
    if m.rest.Member? {
      MembersAreTransparent(m.rest);
      TransparentJoin([COMMA], rest);
    }
    RawIsTransparent(w, t);
    assert RenderMembers(m) == RawText(w, t);
  }

  lemma {:induction false} RawIsTransparent(w: Raw, t: Bytes)
    requires RawSound(w) && Transparent(w.value) && Transparent(t)
    ensures Transparent(RawText(w, t))
  {
    InertIsTransparent(w.before);
    StringIsTransparent(w.key);
    InertIsTransparent(w.afterKey);
    InertIsTransparent([COLON]);
    InertIsTransparent(w.beforeValue);
    InertIsTransparent(w.after);
    TransparentJoin(w.after, t);
    TransparentJoin(w.value, w.after + t);
    var back := w.beforeValue + (w.value + (w.after + t));
    TransparentJoin(w.beforeValue, w.value + (w.after + t));
    TransparentJoin([COLON], back);
    TransparentJoin(w.afterKey, [COLON] + back);
    TransparentJoin(Quoted(w.key), w.afterKey + ([COLON] + back));
    TransparentJoin(w.before, Quoted(w.key) + (w.afterKey + ([COLON] + back)));
  }

  // ---------- What skipValue finds the end of ----------

  /** Text that skipValue, wherever it lies before a terminator, reads to its end. */
  ghost predicate ReadWhole(s: Bytes) {
    && s != [] && !IsSpace(s[0])
    && forall data: Bytes, i: nat :: At(data, i, s) && i + |s| < |data| && EndsScalar(data[i + |s|]) ==>
         ValueEnd(data, i) == Some(i + |s|)
  }

  lemma {:induction false} ValueIsReadWhole(v: Json)
    requires WellFormed(v)
    ensures ReadWhole(Render(v))
  {
    match v
    case Text(chars) => TextIsReadWhole(chars);
    case Scalar(text) => ScalarIsReadWhole(text);
    case Array(_, _) =>
      InsideIsTransparent(v);
      BracketedIsReadWhole(OPEN_BRACKET, Inside(v), CLOSE_BRACKET);
    case Object(_, _) =>
      InsideIsTransparent(v);
      BracketedIsReadWhole(OPEN_BRACE, Inside(v), CLOSE_BRACE);
  }

  lemma {:induction false} TextIsReadWhole(chars: Bytes)
    requires StringChars(chars)
    ensures ReadWhole(Quoted(chars))
  {
    var s := Quoted(chars);
    forall data: Bytes, i: nat | At(data, i, s) && i + |s| < |data| && EndsScalar(data[i + |s|])
      ensures ValueEnd(data, i) == Some(i + |s|)
    {
      StringIsRead(data, i, chars);
    }
  }

  lemma {:induction false} ScalarIsReadWhole(text: Bytes)
    requires ScalarText(text)
    ensures ReadWhole(text)
  {
    ScalarIsPlain(text);
    forall data: Bytes, i: nat | At(data, i, text) && i + |text| < |data| && EndsScalar(data[i + |text|])
      ensures ValueEnd(data, i) == Some(i + |text|)
    {
      AtByte(data, i, text, 0);
      ScalarIsPassed(data, i, text);
    }
  }

  lemma {:induction false} BracketedIsReadWhole(open: Byte, inside: Bytes, close: Byte)
    requires Opens(open) && Closes(close) && Transparent(inside)
    ensures ReadWhole(Bracketed(open, inside, close))
  {
    var s := Bracketed(open, inside, close);
    forall data: Bytes, i: nat | At(data, i, s) && i + |s| < |data| && EndsScalar(data[i + |s|])
      ensures ValueEnd(data, i) == Some(i + |s|)
    {
      BracketedParts(data, i, open, inside, close);
      BracketsAreMatched(data, i, open, inside, close, 0);
    }
  }

  // ---------- One member, as the bytes it is written with ----------

  datatype Raw = Raw(before: Bytes, key: Bytes, afterKey: Bytes, beforeValue: Bytes, value: Bytes, after: Bytes)

  /** A member followed by `t`. */
  function RawText(w: Raw, t: Bytes): Bytes {
    w.before + (Quoted(w.key) + (w.afterKey + ([COLON] + (w.beforeValue + (w.value + (w.after + t))))))
  }

  function Open(i: nat, w: Raw): nat {
    i + |w.before|
  }

  function Colon(i: nat, w: Raw): nat {
    Open(i, w) + 2 + |w.key| + |w.afterKey|
  }

  function Start(i: nat, w: Raw): nat {
    Colon(i, w) + 1 + |w.beforeValue|
  }

  function End(i: nat, w: Raw): nat {
    Start(i, w) + |w.value|
  }

  function Next(i: nat, w: Raw): nat {
    End(i, w) + |w.after|
  }

  ghost predicate RawSound(w: Raw) {
    Spaces(w.before) && StringChars(w.key) && Spaces(w.afterKey) && Spaces(w.beforeValue) && Spaces(w.after)
  }

  lemma {:induction false} RawParts(data: Bytes, i: nat, w: Raw, t: Bytes)
    requires At(data, i, RawText(w, t))
    ensures At(data, i, w.before) && At(data, Open(i, w), Quoted(w.key)) && At(data, Open(i, w) + 2 + |w.key|, w.afterKey)
    ensures At(data, Colon(i, w), [COLON]) && At(data, Colon(i, w) + 1, w.beforeValue)
    ensures At(data, Start(i, w), w.value) && At(data, End(i, w), w.after) && At(data, Next(i, w), t)
    ensures i + |RawText(w, t)| == Next(i, w) + |t|
  {
    var back := w.beforeValue + (w.value + (w.after + t));
    AtFour(data, i, w.before, Quoted(w.key), w.afterKey, [COLON] + back);
    AtParts(data, Colon(i, w), [COLON], back);
    AtFour(data, Colon(i, w) + 1, w.beforeValue, w.value, w.after, t);
  }

  lemma {:induction false} KeyIsRead(data: Bytes, i: nat, w: Raw, t: Bytes)
    requires At(data, i, RawText(w, t)) && RawSound(w)
    ensures SkipSpaceFrom(data, i) == Open(i, w) < |data| && data[Open(i, w)] == QUOTE
    ensures ClosingQuote(data, Open(i, w) + 1) == Some(Open(i, w) + 1 + |w.key|)
    ensures SkipSpaceFrom(data, Open(i, w) + 2 + |w.key|) == Colon(i, w) < |data| && data[Colon(i, w)] == COLON
    ensures data[Open(i, w) + 1..Open(i, w) + 1 + |w.key|] == w.key
  {
    RawParts(data, i, w, t);
    StringIsRead(data, Open(i, w), w.key);
    AtByte(data, Colon(i, w), [COLON], 0);
    SpaceIsSkipped(data, i, w.before);
    SpaceIsSkipped(data, Open(i, w) + 2 + |w.key|, w.afterKey);
    AtSlice(data, Open(i, w) + 1, w.key);
  }

  /** One member is read where it lies, if its value is. */
  lemma {:induction false} MemberIsRead(data: Bytes, i: nat, w: Raw, t: Bytes)
    requires At(data, i, RawText(w, t)) && RawSound(w) && ReadWhole(w.value)
    requires End(i, w) < |data| && EndsScalar(data[End(i, w)])
    ensures MemberAt(data, i) == Some(Span(Open(i, w), Open(i, w) + 1 + |w.key|, Start(i, w), End(i, w)))
    ensures data[Open(i, w) + 1..Open(i, w) + 1 + |w.key|] == w.key
    ensures data[Start(i, w)..End(i, w)] == w.value
  {
    KeyIsRead(data, i, w, t);
    ValueIsRead(data, i, w, t);
    ReadsAs(data, i, Open(i, w), Open(i, w) + 1 + |w.key|, Colon(i, w), Start(i, w), End(i, w));
  }

  lemma {:induction false} ValueIsRead(data: Bytes, i: nat, w: Raw, t: Bytes)
    requires At(data, i, RawText(w, t)) && RawSound(w) && ReadWhole(w.value)
    requires End(i, w) < |data| && EndsScalar(data[End(i, w)])
    ensures SkipSpaceFrom(data, Colon(i, w) + 1) == Start(i, w) && ValueEnd(data, Start(i, w)) == Some(End(i, w))
    ensures data[Start(i, w)..End(i, w)] == w.value
  {
    RawParts(data, i, w, t);
    SpaceThenText(data, Colon(i, w) + 1, w.beforeValue, w.value);
  }

  lemma {:induction false} SpaceThenText(data: Bytes, i: nat, ws: Bytes, text: Bytes)
    requires Spaces(ws) && At(data, i, ws) && At(data, i + |ws|, text) && text != [] && !IsSpace(text[0])
    ensures SkipSpaceFrom(data, i) == i + |ws| && data[i + |ws|..i + |ws| + |text|] == text
  {
    AtByte(data, i + |ws|, text, 0);
    SpaceIsSkipped(data, i, ws);
    AtSlice(data, i + |ws|, text);
  }

  lemma {:induction false} ReadsAs(data: Bytes, i: nat, open: nat, close: nat, colon: nat, start: nat, end: nat)
    requires SkipSpaceFrom(data, i) == open < |data| && data[open] == QUOTE
    requires ClosingQuote(data, open + 1) == Some(close)
    requires SkipSpaceFrom(data, close + 1) == colon < |data| && data[colon] == COLON
    requires SkipSpaceFrom(data, colon + 1) == start && ValueEnd(data, start) == Some(end)
    ensures MemberAt(data, i) == Some(Span(open, close, start, end))
  {
  }

  /** After the value comes its space, and then `t`, which starts with a comma or a brace. */
  lemma {:induction false} AfterValue(data: Bytes, i: nat, w: Raw, t: Bytes)
    requires At(data, i, RawText(w, t)) && RawSound(w) && t != [] && (t[0] == COMMA || t[0] == CLOSE_BRACE)
    ensures Next(i, w) < |data| && data[Next(i, w)] == t[0]
    ensures EndsScalar(data[End(i, w)]) && SkipSpaceFrom(data, End(i, w)) == Next(i, w)
  {
    RawParts(data, i, w, t);
    AtByte(data, Next(i, w), t, 0);
    SpaceIsSkipped(data, End(i, w), w.after);
    if w.after != [] { AtByte(data, End(i, w), w.after, 0); }
  }

  /** One turn of the search. */
  lemma {:induction false} SearchTurn(data: Bytes, i: nat, w: Raw, t: Bytes, key: Bytes)
    requires At(data, i, RawText(w, t)) && RawSound(w) && ReadWhole(w.value)
    requires t != [] && (t[0] == COMMA || t[0] == CLOSE_BRACE)
    ensures Next(i, w) < |data|
    ensures FieldFrom(data, i, key) ==
            if w.key == key then Some(w.value) else if t[0] == COMMA then FieldFrom(data, Next(i, w) + 1, key) else None
  {
    hide MemberAt;
    hide SkipSpaceFrom;
    hide FieldFrom;
    AfterValue(data, i, w, t);
    MemberIsRead(data, i, w, t);
    Turn(data, i, key, Span(Open(i, w), Open(i, w) + 1 + |w.key|, Start(i, w), End(i, w)), Next(i, w), w.key, w.value, t[0]);
  }

  lemma {:induction false} Turn(data: Bytes, i: nat, key: Bytes, m: Span, next: nat, name: Bytes, value: Bytes, b: Byte)
    requires MemberAt(data, i) == Some(m) && SkipSpaceFrom(data, m.end) == next < |data|
    requires data[m.open + 1..m.close] == name && data[m.start..m.end] == value && data[next] == b
    ensures FieldFrom(data, i, key) ==
            if name == key then Some(value) else if b == COMMA then FieldFrom(data, next + 1, key) else None
  {
    hide MemberAt;
    hide SkipSpaceFrom;
  }

  // ---------- A member of the grammar, as bytes ----------

  function RawOf(m: Members): Raw
    requires m.Member?
  {
    Raw(m.before, m.key, m.afterKey, m.beforeValue, Render(m.value), m.after)
  }

  lemma {:induction false} MembersThenBrace(m: Members) returns (rest: Bytes, t: Bytes)
    requires m.Member?
    ensures RenderMembers(m) + [CLOSE_BRACE] == RawText(RawOf(m), t)
    ensures rest == RenderMembers(m.rest) + [CLOSE_BRACE]
    ensures t == if m.rest.NoMembers? then [CLOSE_BRACE] else [COMMA] + rest
  {
    var r := RenderMembers(m.rest);
    var t0 := if m.rest.NoMembers? then [] else [COMMA] + r;
    assert RenderMembers(m) == RawText(RawOf(m), t0);
    RawAppend(RawOf(m), t0, [CLOSE_BRACE]);
    rest := r + [CLOSE_BRACE];
    t := t0 + [CLOSE_BRACE];
  }

  lemma {:induction false} RawAppend(w: Raw, t: Bytes, close: Bytes)
    ensures RawText(w, t) + close == RawText(w, t + close)
  {
  }

  // ---------- Looking a key up ----------

  /** The value, as written, of the first member whose key is written so. */
  function Lookup(m: Members, key: Bytes): Option<Bytes> {
    match m
    case NoMembers => None
    case Member(_, k, _, _, value, _, rest) => if k == key then Some(Render(value)) else Lookup(rest, key)
  }

  predicate HasKey(m: Members, key: Bytes) {
    m.Member? && (m.key == key || HasKey(m.rest, key))
  }

  lemma {:induction false} FoundIffPresent(m: Members, key: Bytes)
    ensures Lookup(m, key).Some? <==> HasKey(m, key)
  {
    if m.Member? { FoundIffPresent(m.rest, key); }
  }

  lemma {:induction false} MembersAreSearched(data: Bytes, i: nat, m: Members, key: Bytes)
    requires m.Member? && At(data, i, RenderMembers(m) + [CLOSE_BRACE]) && WellFormedMembers(m)
    ensures FieldFrom(data, i, key) == Lookup(m, key)
    decreases m
  {
    hide FieldFrom;
    hide RenderMembers;
    hide Render;
    hide ReadWhole;
    hide RawText;
    var w := RawOf(m);
    var rest, t := MembersThenBrace(m);
    ValueIsReadWhole(m.value);
    SearchTurn(data, i, w, t, key);
    if m.key != key && m.rest.Member? {
      RawParts(data, i, w, t);
      AtParts(data, Next(i, w), [COMMA], rest);
      MembersAreSearched(data, Next(i, w) + 1, m.rest, key);
    }
  }

  /** The scanner agrees with the grammar: on every JSON object, however spaced,
  nested and escaped, and whatever follows it, fieldValue gives exactly the
  bytes of the first member whose key is written as asked, and fails exactly
  when there is none. */
  lemma {:induction false} FieldAgreesWithGrammar(lead: Bytes, obj: Json, rest: Bytes, key: Bytes)
    requires Spaces(lead) && obj.Object? && WellFormed(obj)
    ensures Field(lead + Render(obj) + rest, key) == Lookup(obj.members, key)
    ensures Field(lead + Render(obj) + rest, key).None? <==> !HasKey(obj.members, key)
  {
    hide WellFormed, Lookup, HasKey, FieldFrom, RenderMembers, SkipSpaceFrom;
    var data := lead + Render(obj) + rest;
    FoundIffPresent(obj.members, key);
    assert At(data, 0, lead) && At(data, |lead|, Render(obj));
    BracketedParts(data, |lead|, OPEN_BRACE, Inside(obj), CLOSE_BRACE);
    SpaceIsSkipped(data, 0, lead);
    ObjectIsSearched(data, |lead|, obj, key);
  }

  lemma {:induction false} ObjectIsSearched(data: Bytes, i: nat, obj: Json, key: Bytes)
    requires obj.Object? && WellFormed(obj) && At(data, i, Bracketed(OPEN_BRACE, Inside(obj), CLOSE_BRACE))
    ensures FieldFrom(data, i + 1, key) == Lookup(obj.members, key)
  {
    if obj.members.Member? {
      AtParts(data, i, [OPEN_BRACE], RenderMembers(obj.members) + [CLOSE_BRACE]);
      MembersAreSearched(data, i + 1, obj.members, key);
    } else {
      BracketedParts(data, i, OPEN_BRACE, obj.pad, CLOSE_BRACE);
      SpaceIsSkipped(data, i + 1, obj.pad);
    }
  }

  function LookupValue(m: Members, key: Bytes): Option<Json> {
    match m
    case NoMembers => None
    case Member(_, k, _, _, value, _, rest) => if k == key then Some(value) else LookupValue(rest, key)
  }

  lemma {:induction false} LookupRenders(m: Members, key: Bytes)
    requires WellFormedMembers(m)
    ensures var v := LookupValue(m, key);
      && Lookup(m, key) == (if v.Some? then Some(Render(v.value)) else None)
      && (v.Some? ==> WellFormed(v.value))
  {
    if m.Member? { LookupRenders(m.rest, key); }
  }

  /** stringField answers exactly when that member is a string with no escape
  in it, and then with its characters. */
  lemma {:induction false} StringFieldAgreesWithGrammar(lead: Bytes, obj: Json, rest: Bytes, key: Bytes)
    requires Spaces(lead) && obj.Object? && WellFormed(obj)
    ensures var v := LookupValue(obj.members, key);
      TextOf(Field(lead + Render(obj) + rest, key)) ==
      if v.Some? && v.value.Text? && 0x5c !in v.value.chars then Some(v.value.chars) else None
  {
    FieldAgreesWithGrammar(lead, obj, rest, key);
    LookupRenders(obj.members, key);
    var v := LookupValue(obj.members, key);
    if v.Some? { TextOfRendered(v.value); }
  }

  lemma {:induction false} TextOfRendered(v: Json)
    requires WellFormed(v)
    ensures TextOf(Some(Render(v))) == if v.Text? && BACKSLASH !in v.chars then Some(v.chars) else None
  {
    var r := Render(v);
    match v
    case Text(chars) => assert r[1..|r| - 1] == chars;
    case Scalar(text) => ScalarIsPlain(text);
    case Array(_, _) => assert r[0] == OPEN_BRACKET;
    case Object(_, _) => assert r[0] == OPEN_BRACE;
  }
}
