/** The field scanner (internal/exchange/binance/jsonscan.go). */
module JsonScan {
  import opened MarketModel
  import opened ByteData

  const QUOTE: Byte := 0x22
  const BACKSLASH: Byte := 0x5c
  const COMMA: Byte := 0x2c
  const COLON: Byte := 0x3a
  const OPEN_BRACE: Byte := 0x7b
  const CLOSE_BRACE: Byte := 0x7d
  const OPEN_BRACKET: Byte := 0x5b
  const CLOSE_BRACKET: Byte := 0x5d

  predicate IsSpace(b: Byte) {
    b == 0x20 || b == 0x09 || b == 0x0a || b == 0x0d
  }

  predicate Opens(b: Byte) {
    b == OPEN_BRACE || b == OPEN_BRACKET
  }

  predicate Closes(b: Byte) {
    b == CLOSE_BRACE || b == CLOSE_BRACKET
  }

  /** What ends a number, true, false or null. */
  predicate EndsScalar(b: Byte) {
    b == COMMA || Closes(b) || IsSpace(b)
  }

  // ---------- What each loop computes ----------

  function SkipSpaceFrom(data: Bytes, i: nat): (r: nat)
    ensures i <= r && (i <= |data| ==> r <= |data|)
    decreases |data| - i
  {
    if i < |data| && IsSpace(data[i]) then SkipSpaceFrom(data, i + 1) else i
  }

  /** The closing quote of a string whose inside starts at `i`. */
  function ClosingQuote(data: Bytes, i: nat): (r: Option<nat>)
    ensures r.Some? ==> i <= r.value < |data| && data[r.value] == QUOTE
    decreases |data| - i
  {
    if i >= |data| then None
    else if data[i] == BACKSLASH then ClosingQuote(data, i + 2)
    else if data[i] == QUOTE then Some(i)
    else ClosingQuote(data, i + 1)
  }

  /** The end of a nested value, `depth` brackets deep at `i`. */
  function NestedEnd(data: Bytes, i: nat, depth: int): (r: Option<nat>)
    ensures r.Some? ==> i < r.value <= |data|
    decreases |data| - i
  {
    if i >= |data| then None
    else if Opens(data[i]) then NestedEnd(data, i + 1, depth + 1)
    else if Closes(data[i]) then
      if depth - 1 == 0 then Some(i + 1) else NestedEnd(data, i + 1, depth - 1)
    else if data[i] == QUOTE then
      match ClosingQuote(data, i + 1)
      case None => None
      case Some(q) => NestedEnd(data, q + 1, depth)
    else NestedEnd(data, i + 1, depth)
  }

  function ScalarEnd(data: Bytes, i: nat): (r: Option<nat>)
    ensures r.Some? ==> i <= r.value < |data|
    decreases |data| - i
  {
    if i >= |data| then None
    else if EndsScalar(data[i]) then Some(i)
    else ScalarEnd(data, i + 1)
  }

  function ValueEnd(data: Bytes, i: nat): (r: Option<nat>)
    ensures r.Some? ==> i < r.value <= |data|
  {
    if i >= |data| then None
    else if data[i] == QUOTE then
      match ClosingQuote(data, i + 1)
      case None => None
      case Some(q) => Some(q + 1)
    else if Opens(data[i]) then NestedEnd(data, i, 0)
    else match ScalarEnd(data, i)
      case None => None
      case Some(e) => if e == i then None else Some(e)
  }

  /** Where a member lies: its key between `open + 1` and `close`, its value from `start` to `end`. */
  datatype Span = Span(open: nat, close: nat, start: nat, end: nat)

  /** The member that begins at `i`, just inside an object or past a comma. */
  function MemberAt(data: Bytes, i: nat): (r: Option<Span>)
    ensures r.Some? ==> i <= r.value.open < r.value.close < r.value.start < r.value.end <= |data|
  {
    var open := SkipSpaceFrom(data, i);
    if open >= |data| || data[open] != QUOTE then None
    else match ClosingQuote(data, open + 1)
      case None => None
      case Some(q) =>
        var colon := SkipSpaceFrom(data, q + 1);
        if colon >= |data| || data[colon] != COLON then None
        else
          var start := SkipSpaceFrom(data, colon + 1);
          match ValueEnd(data, start)
          case None => None
          case Some(end) => Some(Span(open, q, start, end))
  }

  /** The search for `key` among the members from `i` on. */
  function FieldFrom(data: Bytes, i: nat, key: Bytes): Option<Bytes>
    decreases |data| - i
  {
    match MemberAt(data, i)
    case None => None
    case Some(m) =>
      if data[m.open + 1..m.close] == key then Some(data[m.start..m.end])
      else
        var next := SkipSpaceFrom(data, m.end);
        if next < |data| && data[next] == COMMA then FieldFrom(data, next + 1, key) else None
  }

  function Field(data: Bytes, key: Bytes): Option<Bytes> {
    var i := SkipSpaceFrom(data, 0);
    if i >= |data| || data[i] != OPEN_BRACE then None else FieldFrom(data, i + 1, key)
  }

  // ---------- The loops ----------
  // On arbitrary bytes every loop ends, and every index it uses is in bounds.

  method SkipSpace(data: Bytes, from: nat) returns (i: nat)
    ensures i == SkipSpaceFrom(data, from)
  {
    i := from;
    while i < |data| && IsSpace(data[i])
      invariant SkipSpaceFrom(data, from) == SkipSpaceFrom(data, i)
    {
      i := i + 1;
    }
  }

  method ScanString(data: Bytes, open: nat) returns (content: Bytes, next: nat, ok: bool)
    requires open < |data|
    ensures ok <==> ClosingQuote(data, open + 1).Some?
    ensures ok ==> next == ClosingQuote(data, open + 1).value + 1 && content == data[open + 1..next - 1]
  {
    var i := open + 1;
    var start := i;
    while i < |data|
      invariant open + 1 <= i && start == open + 1
      invariant ClosingQuote(data, open + 1) == ClosingQuote(data, i)
    {
      if data[i] == BACKSLASH {
        i := i + 2;
      } else if data[i] == QUOTE {
        return data[start..i], i + 1, true;
      } else {
        i := i + 1;
      }
    }
    return [], 0, false;
  }

  method SkipNested(data: Bytes, from: nat) returns (end: nat, ok: bool)
    ensures ok <==> NestedEnd(data, from, 0).Some?
    ensures ok ==> end == NestedEnd(data, from, 0).value
  {
    var depth, i := 0, from;
    while i < |data|
      invariant NestedEnd(data, from, 0) == NestedEnd(data, i, depth)
    {
      if Opens(data[i]) {
        depth := depth + 1;
        i := i + 1;
      } else if Closes(data[i]) {
        depth := depth - 1;
        i := i + 1;
        if depth == 0 {
          return i, true;
        }
      } else if data[i] == QUOTE {
        var _, next, closed := ScanString(data, i);
        if !closed {
          return 0, false;
        }
        i := next;
      } else {
        i := i + 1;
      }
    }
    return 0, false;
  }

  method SkipValue(data: Bytes, from: nat) returns (end: nat, ok: bool)
    ensures ok <==> ValueEnd(data, from).Some?
    ensures ok ==> end == ValueEnd(data, from).value
  {
    if from >= |data| {
      return 0, false;
    }
    if data[from] == QUOTE {
      var _, next, closed := ScanString(data, from);
      return next, closed;
    }
    if Opens(data[from]) {
      end, ok := SkipNested(data, from);
      return;
    }
    var i := from;
    while i < |data|
      invariant from <= i && ScalarEnd(data, from) == ScalarEnd(data, i)
    {
      if EndsScalar(data[i]) {
        if i == from {
          return 0, false;
        }
        return i, true;
      }
      i := i + 1;
    }
    return 0, false;
  }

  /** One turn of fieldValue's loop, up to the value of the member. */
  method ReadMember(data: Bytes, i: nat) returns (name: Bytes, start: nat, end: nat, ok: bool)
    ensures ok <==> MemberAt(data, i).Some?
    ensures ok ==> var m := MemberAt(data, i).value;
      name == data[m.open + 1..m.close] && start == m.start && end == m.end
  {
    name, start, end, ok := [], 0, 0, false;
    var open := SkipSpace(data, i);
    if open >= |data| || data[open] != QUOTE {
      return;
    }
    var next, closed;
    name, next, closed := ScanString(data, open);
    if !closed {
      return;
    }
    var colon := SkipSpace(data, next);
    if colon >= |data| || data[colon] != COLON {
      return;
    }
    start := SkipSpace(data, colon + 1);
    end, ok := SkipValue(data, start);
  }

  method FieldValue(data: Bytes, key: Bytes) returns (value: Bytes, ok: bool)
    ensures ok <==> Field(data, key).Some?
    ensures ok ==> value == Field(data, key).value
  {
    value, ok := [], false;
    var i := SkipSpace(data, 0);
    if i >= |data| || data[i] != OPEN_BRACE {
      return;
    }
    i := i + 1;
    while true
      invariant Field(data, key) == FieldFrom(data, i, key) && !ok
      decreases |data| - i
    {
      var name, start, end, found := ReadMember(data, i);
      if !found {
        return;
      }
      if name == key {
        return data[start..end], true;
      }
      i := SkipSpace(data, end);
      if i >= |data| || data[i] != COMMA {
        return;
      }
      i := i + 1;
    }
  }

  /** stringField: the unquoted value, refused when it carries an escape. */
  function TextOf(raw: Option<Bytes>): Option<Bytes> {
    if raw.None? || |raw.value| < 2 || raw.value[0] != QUOTE || raw.value[|raw.value| - 1] != QUOTE then None
    else
      var inner := raw.value[1..|raw.value| - 1];
      if BACKSLASH in inner then None else Some(inner)
  }

  method StringField(data: Bytes, key: Bytes) returns (text: Bytes, ok: bool)
    ensures ok <==> TextOf(Field(data, key)).Some?
    ensures ok ==> text == TextOf(Field(data, key)).value
  {
    var raw, found := FieldValue(data, key);
    if !found || |raw| < 2 || raw[0] != QUOTE || raw[|raw| - 1] != QUOTE {
      return [], false;
    }
    var inner := raw[1..|raw| - 1];
    for k := 0 to |inner|
      invariant BACKSLASH !in inner[..k]
    {
      if inner[k] == BACKSLASH {
        return [], false;
      }
    }
    return inner, true;
  }
}
