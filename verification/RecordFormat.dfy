/** The recording format over the uncompressed stream
(internal/record/format.go, writer.go, reader.go). */
module RecordFormat {
  import opened MarketModel
  import opened ByteData

  const MAGIC: Bytes := [0x4d, 0x53, 0x52, 0x45, 0x43, 0x00]
  const FORMAT_VERSION: nat := 1
  const HEADER_SIZE: nat := 8
  const RECORD_HEAD: nat := 13
  const MAX_PAYLOAD_SIZE: nat := 0x100_0000
  const TWO63: int := 0x8000_0000_0000_0000
  const TWO64: int := 0x1_0000_0000_0000_0000

  /** The kinds, with the values the constants have. */
  datatype Kind = Frame | Snapshot | Meta | Drop

  function KindByte(k: Kind): Byte {
    match k case Frame => 1 case Snapshot => 2 case Meta => 3 case Drop => 4
  }

  /** validKind. */
  function KindOf(b: Byte): (k: Option<Kind>)
    ensures k.Some? ==> KindByte(k.value) == b
    ensures k.None? ==> forall x :: KindByte(x) != b
  {
    if b == 1 then Some(Frame) else if b == 2 then Some(Kind.Snapshot) else if b == 3 then Some(Meta)
    else if b == 4 then Some(Drop) else None
  }

  /** A record as written and as read back; a drop marker holds its count. */
  datatype Record = Held(kind: Kind, at: int, payload: Bytes) | Dropped(at: int, count: nat)

  datatype FormatError = BadMagic | BadVersion | PayloadTooBig | CorruptRecord | UnknownKind

  /** What the writer can be asked to write: int64 times, uint64 counts, payloads in size. */
  ghost predicate Writable(r: Record) {
    && -TWO63 <= r.at < TWO63
    && match r
       case Held(kind, _, payload) => kind != Drop && |payload| <= MAX_PAYLOAD_SIZE
       case Dropped(_, count) => count < TWO64
  }

  function Unsigned(x: int): nat
    requires -TWO63 <= x < TWO63
  {
    if x < 0 then x + TWO64 else x
  }

  function Signed(u: nat): int {
    if u >= TWO63 then u - TWO64 else u
  }

  function RawRecord(kind: Byte, at: int, payload: Bytes): Bytes
    requires -TWO63 <= at < TWO63
  {
    [kind] + LittleEndian(Unsigned(at), 8) + LittleEndian(|payload|, 4) + payload
  }

  ghost function Encode(r: Record): Bytes
    requires Writable(r)
  {
    match r
    case Held(kind, at, payload) => RawRecord(KindByte(kind), at, payload)
    case Dropped(at, count) => RawRecord(KindByte(Drop), at, LittleEndian(count, 8))
  }

  function Header(): Bytes {
    MAGIC + LittleEndian(FORMAT_VERSION, 2)
  }

  // ---------- Reading ----------

  datatype Outcome = Got(record: Record) | EndOfFile | Failed(err: FormatError)

  /** What Reader.Next returns, and what it leaves unread. */
  datatype Step = Step(outcome: Outcome, rest: Bytes)

  function NextRecord(data: Bytes): Step {
    if data == [] then Step(EndOfFile, [])
    else if |data| < RECORD_HEAD then Step(Failed(CorruptRecord), [])
    else
      var kind, at, length := KindOf(data[0]), Signed(FromLittleEndian(data[1..9])), FromLittleEndian(data[9..13]);
      var rest := data[RECORD_HEAD..];
      if kind.None? then Step(Failed(UnknownKind), rest)
      else if length > MAX_PAYLOAD_SIZE then Step(Failed(PayloadTooBig), rest)
      else if |rest| < length then Step(Failed(CorruptRecord), [])
      else if kind.value != Drop then Step(Got(Held(kind.value, at, rest[..length])), rest[length..])
      else if length != 8 then Step(Failed(CorruptRecord), rest[length..])
      else Step(Got(Dropped(at, FromLittleEndian(rest[..8]))), rest[8..])
  }

  lemma {:induction false} ReadingShrinks(data: Bytes)
    ensures NextRecord(data).outcome.Got? ==> |NextRecord(data).rest| < |data|
  {
  }

  /** Reading until something other than a record comes back. */
  function ReadAll(data: Bytes): (seq<Record>, Outcome)
    decreases |data|
  {
    var s := NextRecord(data);
    if s.outcome.Got? then
      ReadingShrinks(data);
      var (more, end) := ReadAll(s.rest);
      ([s.outcome.record] + more, end)
    else ([], s.outcome)
  }

  /** NewReader's checks on the file header. */
  function OpenRecording(data: Bytes): Step {
    if |data| < HEADER_SIZE then Step(Failed(CorruptRecord), [])
    else if data[..6] != MAGIC then Step(Failed(BadMagic), data[HEADER_SIZE..])
    else if FromLittleEndian(data[6..8]) != FORMAT_VERSION then Step(Failed(BadVersion), data[HEADER_SIZE..])
    else Step(EndOfFile, data[HEADER_SIZE..])
  }

  // ---------- One record ----------

  lemma {:induction false} PowersOf256()
    ensures Pow256(2) == 0x1_0000 && Pow256(4) == 0x1_0000_0000 && Pow256(8) == TWO64
  {
    assert Pow256(1) == 256 * Pow256(0);
    assert Pow256(2) == 256 * Pow256(1);
    assert Pow256(3) == 256 * Pow256(2);
    assert Pow256(4) == 256 * Pow256(3);
    assert Pow256(5) == 256 * Pow256(4);
    assert Pow256(6) == 256 * Pow256(5);
    assert Pow256(7) == 256 * Pow256(6);
    assert Pow256(8) == 256 * Pow256(7);
  }

  /** The head of a record, cut or not, as long as all of the head is there. */
  lemma {:induction false} HeadIsRead(kind: Byte, at: int, payload: Bytes, data: Bytes)
    requires -TWO63 <= at < TWO63 && |payload| <= MAX_PAYLOAD_SIZE
    requires |data| >= RECORD_HEAD && data[..RECORD_HEAD] == RawRecord(kind, at, payload)[..RECORD_HEAD]
    ensures data[0] == kind && Signed(FromLittleEndian(data[1..9])) == at && FromLittleEndian(data[9..13]) == |payload|
  {
    var raw, t, l := RawRecord(kind, at, payload), LittleEndian(Unsigned(at), 8), LittleEndian(|payload|, 4);
    PowersOf256();
    LittleEndianRoundTrip(Unsigned(at), 8);
    LittleEndianRoundTrip(|payload|, 4);
    assert raw[0] == kind && raw[1..9] == t && raw[9..13] == l;
    assert data[1..9] == data[..RECORD_HEAD][1..9] == raw[..RECORD_HEAD][1..9] == raw[1..9];
    assert data[9..13] == data[..RECORD_HEAD][9..13] == raw[..RECORD_HEAD][9..13] == raw[9..13];
    assert data[0] == data[..RECORD_HEAD][0];
  }

  /** A record followed by anything is read back, and the rest is left. */
  lemma {:induction false} RecordRoundTrip(r: Record, rest: Bytes)
    requires Writable(r)
    ensures NextRecord(Encode(r) + rest) == Step(Got(r), rest)
  {
    hide LittleEndian, FromLittleEndian, Pow256;
    var kind, payload := if r.Held? then r.kind else Drop, if r.Held? then r.payload else LittleEndian(r.count, 8);
    var raw := RawRecord(KindByte(kind), r.at, payload);
    var data := raw + rest;
    assert Encode(r) == raw && |raw| == RECORD_HEAD + |payload|;
    assert data[..RECORD_HEAD] == raw[..RECORD_HEAD];
    HeadIsRead(KindByte(kind), r.at, payload, data);
    var after := data[RECORD_HEAD..];
    assert raw[RECORD_HEAD..] == payload;
    assert after == payload + rest;
    assert after[..|payload|] == payload && after[|payload|..] == rest;
    if r.Dropped? {
      PowersOf256();
      LittleEndianRoundTrip(r.count, 8);
    }
  }

  /** A record cut short is reported as corrupt, wherever the cut. */
  lemma {:induction false} CutRecordIsCorrupt(r: Record, k: nat)
    requires Writable(r) && 0 < k < |Encode(r)|
    ensures NextRecord(Encode(r)[..k]) == Step(Failed(CorruptRecord), [])
  {
    var kind, payload := if r.Held? then r.kind else Drop, if r.Held? then r.payload else LittleEndian(r.count, 8);
    var raw := RawRecord(KindByte(kind), r.at, payload);
    assert Encode(r) == raw && |raw| == RECORD_HEAD + |payload|;
    if k >= RECORD_HEAD {
      assert raw[..k][..RECORD_HEAD] == raw[..RECORD_HEAD];
      HeadIsRead(KindByte(kind), r.at, payload, raw[..k]);
    }
  }

  // ---------- The bytes themselves ----------

  /** A file opens with "MSREC", a zero byte and version one. */
  lemma {:induction false} HeaderBytes()
    ensures Header() == [0x4d, 0x53, 0x52, 0x45, 0x43, 0x00, 0x01, 0x00]
  {
    SmallBytes(1);
  }

  lemma {:induction false} SmallBytes(v: nat)
    requires v < 256
    ensures LittleEndian(v, 2) == [v as Byte, 0] && LittleEndian(v, 4) == [v as Byte, 0, 0, 0]
    ensures LittleEndian(v, 8) == [v as Byte, 0, 0, 0, 0, 0, 0, 0]
  {
    assert LittleEndian(0, 0) == [];
    assert LittleEndian(0, 1) == [0];
    assert LittleEndian(0, 2) == [0, 0];
    assert LittleEndian(0, 3) == [0, 0, 0];
    assert LittleEndian(0, 4) == [0, 0, 0, 0];
    assert LittleEndian(0, 5) == [0, 0, 0, 0, 0];
    assert LittleEndian(0, 6) == [0, 0, 0, 0, 0, 0];
    assert LittleEndian(0, 7) == [0, 0, 0, 0, 0, 0, 0];
  }

  /** The layout of a record, byte by byte, for each kind. */
  lemma {:induction false} RecordBytes(payload: Bytes)
    requires |payload| < 256
    ensures var time, size := [2, 0, 0, 0, 0, 0, 0, 0], [|payload| as Byte, 0, 0, 0];
      && Encode(Held(Frame, 2, payload)) == [1] + time + size + payload
      && Encode(Held(Kind.Snapshot, 2, payload)) == [2] + time + size + payload
      && Encode(Held(Meta, 2, payload)) == [3] + time + size + payload
    ensures Encode(Dropped(2, 5)) == [4] + [2, 0, 0, 0, 0, 0, 0, 0] + [8, 0, 0, 0] + [5, 0, 0, 0, 0, 0, 0, 0]
  {
    SmallBytes(2);
    SmallBytes(5);
    SmallBytes(8);
    SmallBytes(|payload|);
    hide LittleEndian;
  }

  /** A time before 1970 is written in two's complement. */
  lemma {:induction false} NegativeTimes(at: int)
    requires -TWO63 <= at < 0
    ensures Unsigned(at) == 0x1_0000_0000_0000_0000 + at && Signed(Unsigned(at)) == at
    ensures Signed(Unsigned(-1 - at)) == -1 - at == Unsigned(-1 - at)
  {
  }

  // ---------- What reading refuses ----------

  /** Which error comes back, and when, in the order they are looked for. */
  lemma {:induction false} ReadErrorsAre(data: Bytes)
    ensures var out := NextRecord(data).outcome;
      && (out == EndOfFile <==> data == [])
      && (out == Failed(UnknownKind) <==> |data| >= 13 && !(1 <= data[0] <= 4))
      && (out == Failed(PayloadTooBig) <==>
          |data| >= 13 && 1 <= data[0] <= 4 && FromLittleEndian(data[9..13]) > 16 * 1024 * 1024)
      && (out == Failed(CorruptRecord) <==>
          && data != []
          && (|data| >= 13 ==>
              var n := FromLittleEndian(data[9..13]);
              1 <= data[0] <= 4 && n <= 16 * 1024 * 1024 && (|data| < 13 + n || (data[0] == 4 && n != 8))))
  {
    hide FromLittleEndian;
  }

  lemma {:induction false} OpenErrorsAre(data: Bytes)
    ensures var out := OpenRecording(data).outcome;
      && (out == Failed(CorruptRecord) <==> |data| < 8)
      && (out == Failed(BadMagic) <==> |data| >= 8 && data[..6] != [0x4d, 0x53, 0x52, 0x45, 0x43, 0x00])
      && (out == Failed(BadVersion) <==>
          |data| >= 8 && data[..6] == [0x4d, 0x53, 0x52, 0x45, 0x43, 0x00] && FromLittleEndian(data[6..8]) != 1)
  {
    hide FromLittleEndian;
  }

  // ---------- Whole recordings ----------

  ghost predicate AllWritable(rs: seq<Record>) {
    forall i :: 0 <= i < |rs| ==> Writable(rs[i])
  }

  ghost function EncodeAll(rs: seq<Record>): Bytes
    requires AllWritable(rs)
  {
    if rs == [] then [] else Encode(rs[0]) + EncodeAll(rs[1..])
  }

  /** How many whole records the first `k` bytes hold. */
  ghost function WholeRecords(rs: seq<Record>, k: nat): (n: nat)
    requires AllWritable(rs)
    ensures n <= |rs|
  {
    if rs == [] || k < |Encode(rs[0])| then 0 else 1 + WholeRecords(rs[1..], k - |Encode(rs[0])|)
  }

  /** WholeRecords is what it says: the most records that fit in `k` bytes. */
  lemma {:induction false} WholeRecordsFit(rs: seq<Record>, k: nat)
    requires AllWritable(rs)
    ensures var n := WholeRecords(rs, k);
      |EncodeAll(rs[..n])| <= k && (n < |rs| ==> k < |EncodeAll(rs[..n])| + |Encode(rs[n])|)
    decreases |rs|
  {
    hide Encode;
    if rs != [] && k >= |Encode(rs[0])| {
      WholeRecordsFit(rs[1..], k - |Encode(rs[0])|);
      var n := WholeRecords(rs, k);
      assert rs[..n][1..] == rs[1..][..n - 1];
    }
  }

  /** Truncation: cut anywhere after the header, a recording yields exactly the
  records that are whole before the cut, then a clean end if the cut falls
  between records, and a corrupt record if it falls inside one. */
  lemma {:induction false} TruncationIsReported(rs: seq<Record>, k: nat)
    requires AllWritable(rs) && k <= |EncodeAll(rs)|
    ensures var n := WholeRecords(rs, k);
      ReadAll(EncodeAll(rs)[..k]) ==
      (rs[..n], if k == |EncodeAll(rs[..n])| then EndOfFile else Failed(CorruptRecord))
    decreases |rs|
  {
    hide Encode;
    hide NextRecord;
    if rs != [] { RecordNotEmpty(rs[0]); }
    var all := EncodeAll(rs);
    if rs == [] || k == 0 {
      EmptyEnds();
      assert all[..k] == [];
    } else {
      var e, tail := Encode(rs[0]), EncodeAll(rs[1..]);
      if k < |e| {
        assert all[..k] == e[..k];
        CutRecordIsCorrupt(rs[0], k);
      } else {
        var k' := k - |e|;
        assert all[..k] == e + tail[..k'];
        RecordRoundTrip(rs[0], tail[..k']);
        TruncationIsReported(rs[1..], k');
        var n := WholeRecords(rs, k);
        assert rs[..n][1..] == rs[1..][..n - 1];
        assert rs[..n] == [rs[0]] + rs[1..][..n - 1];
      }
    }
  }

  lemma {:induction false} RecordNotEmpty(r: Record)
    requires Writable(r)
    ensures 0 < |Encode(r)|
  {
  }

  lemma {:induction false} EmptyEnds()
    ensures ReadAll([]) == ([], EndOfFile)
  {
  }

  /** Round trip: a whole file opens, and reads back as what was written. */
  lemma {:induction false} RecordingRoundTrip(rs: seq<Record>)
    requires AllWritable(rs)
    ensures OpenRecording(Header() + EncodeAll(rs)) == Step(EndOfFile, EncodeAll(rs))
    ensures ReadAll(EncodeAll(rs)) == (rs, EndOfFile)
  {
    var file := Header() + EncodeAll(rs);
    assert file[..6] == MAGIC && file[6..8] == LittleEndian(FORMAT_VERSION, 2) && file[8..] == EncodeAll(rs);
    PowersOf256();
    LittleEndianRoundTrip(FORMAT_VERSION, 2);
    WholeIsWhole(rs);
    TruncationIsReported(rs, |EncodeAll(rs)|);
    assert EncodeAll(rs)[..|EncodeAll(rs)|] == EncodeAll(rs);
    assert rs[..|rs|] == rs;
  }

  lemma {:induction false} WholeIsWhole(rs: seq<Record>)
    requires AllWritable(rs)
    ensures WholeRecords(rs, |EncodeAll(rs)|) == |rs|
  {
    if rs != [] { WholeIsWhole(rs[1..]); }
  }

  // ---------- Nothing else is accepted ----------

  /** Enough bytes are always the raw encoding of something, whatever they are. */
  lemma {:induction false} BytesAreRaw(data: Bytes)
    requires |data| >= RECORD_HEAD && |data| - RECORD_HEAD >= FromLittleEndian(data[9..13])
    ensures var at, n := Signed(FromLittleEndian(data[1..9])), FromLittleEndian(data[9..13]);
      && -TWO63 <= at < TWO63
      && data == RawRecord(data[0], at, data[RECORD_HEAD..][..n]) + data[RECORD_HEAD..][n..]
  {
    hide LittleEndian, FromLittleEndian, Pow256;
    var a, l, rest := data[1..9], data[9..13], data[RECORD_HEAD..];
    var n := FromLittleEndian(l);
    PowersOf256();
    FromLittleEndianRoundTrip(a);
    FromLittleEndianRoundTrip(l);
    assert Unsigned(Signed(FromLittleEndian(a))) == FromLittleEndian(a);
    assert data == [data[0]] + a + l + rest && rest == rest[..n] + rest[n..];
  }

  /** A record that is read is one the writer can write, and these were its bytes. */
  lemma {:induction false} ReadRecordWasWritten(data: Bytes)
    requires NextRecord(data).outcome.Got?
    ensures var Step(out, rest) := NextRecord(data);
      Writable(out.record) && data == Encode(out.record) + rest
  {
    hide LittleEndian, FromLittleEndian, Pow256, RawRecord;
    PowersOf256();
    BytesAreRaw(data);
    if NextRecord(data).outcome.record.Dropped? { FromLittleEndianRoundTrip(data[RECORD_HEAD..][..8]); }
  }

  /** The reader accepts exactly the recordings: what it reads is what was
  written, up to the first byte that is not part of a whole record, and it
  reports a clean end only when there is no such byte. */
  lemma {:induction false} OnlyRecordingsAreRead(data: Bytes)
    ensures var (rs, end) := ReadAll(data);
      AllWritable(rs) && EncodeAll(rs) <= data && (end == EndOfFile <==> data == EncodeAll(rs))
    decreases |data|
  {
    hide Encode;
    var s := NextRecord(data);
    if s.outcome.Got? {
      ReadingShrinks(data);
      ReadRecordWasWritten(data);
      OnlyRecordingsAreRead(s.rest);
      hide NextRecord;
      var r, more := s.outcome.record, ReadAll(s.rest).0;
      assert ([r] + more)[1..] == more;
      assert EncodeAll([r] + more) == Encode(r) + EncodeAll(more);
    }
  }

  /** NewReader accepts exactly the files that open with the header. */
  lemma {:induction false} OnlyRecordingsOpen(data: Bytes)
    ensures OpenRecording(data).outcome == EndOfFile <==> Header() <= data
    ensures !OpenRecording(data).outcome.Got?
  {
    var v := LittleEndian(FORMAT_VERSION, 2);
    PowersOf256();
    LittleEndianRoundTrip(FORMAT_VERSION, 2);
    if |data| >= HEADER_SIZE {
      FromLittleEndianRoundTrip(data[6..8]);
      assert data[..8] == data[..6] + data[6..8];
      assert Header()[..6] == MAGIC && Header()[6..8] == v;
      if Header() <= data { assert data[..6] == Header()[..6] && data[6..8] == Header()[6..8]; }
    }
  }

  // ---------- The objects ----------

  class Writer {
    const head: array<Byte>
    var stream: Bytes
    var n: nat

    constructor ()
      ensures head.Length == RECORD_HEAD && fresh(head) && stream == Header() && n == 0
    {
      head := new Byte[RECORD_HEAD];
      stream := Header();
      n := 0;
    }

    /** write: fill the head in place, then append head and payload; a payload
    over the limit is refused and nothing is written. */
    method Write(kind: Kind, at: int, payload: Bytes) returns (err: Option<FormatError>)
      requires head.Length == RECORD_HEAD && -TWO63 <= at < TWO63
      modifies this, head
      ensures err == if |payload| > 16 * 1024 * 1024 then Some(PayloadTooBig) else None
      ensures err.Some? ==> stream == old(stream) && n == old(n)
      ensures err.None? ==> stream == old(stream) + RawRecord(KindByte(kind), at, payload) && n == old(n) + 1
    {
      if |payload| > MAX_PAYLOAD_SIZE {
        return Some(PayloadTooBig);
      }
      head[0] := KindByte(kind);
      PutLittleEndian(head, 1, 8, Unsigned(at));
      assert head[0] == head[..1][0];
      ghost var front := head[..9];
      assert front == [KindByte(kind)] + LittleEndian(Unsigned(at), 8);
      PutLittleEndian(head, 9, 4, |payload|);
      assert head[..] == front + LittleEndian(|payload|, 4);
      stream := stream + head[..];
      stream := stream + payload;
      n := n + 1;
      return None;
    }

    /** WriteFrame and WriteMeta. */
    method WriteHeld(r: Record) returns (err: Option<FormatError>)
      requires head.Length == RECORD_HEAD && r.Held? && r.kind != Drop && -TWO63 <= r.at < TWO63
      modifies this, head
      ensures err.Some? <==> |r.payload| > MAX_PAYLOAD_SIZE
      ensures err.Some? ==> stream == old(stream) && n == old(n)
      ensures err.None? ==> stream == old(stream) + Encode(r) && n == old(n) + 1
    {
      err := Write(r.kind, r.at, r.payload);
    }

    method WriteDropped(at: int, count: nat) returns (err: Option<FormatError>)
      requires head.Length == RECORD_HEAD && Writable(Dropped(at, count))
      modifies this, head
      ensures err.None? && stream == old(stream) + Encode(Dropped(at, count)) && n == old(n) + 1
    {
      var payload := new Byte[8];
      PutLittleEndian(payload, 0, 8, count);
      assert payload[..] == payload[0..8];
      err := Write(Drop, at, payload[..]);
    }
  }

  class Reader {
    var stream: Bytes
    var n: nat

    constructor (data: Bytes)
      ensures stream == data && n == 0
    {
      stream, n := data, 0;
    }

    /** Next. */
    method Next() returns (out: Outcome)
      modifies this
      ensures Step(out, stream) == NextRecord(old(stream))
      ensures out.Got? ==> n == old(n) + 1
    {
      if stream == [] {
        return EndOfFile;
      }
      if |stream| < RECORD_HEAD {
        stream := [];
        return Failed(CorruptRecord);
      }
      var head := stream[..RECORD_HEAD];
      stream := stream[RECORD_HEAD..];
      assert head[1..9] == old(stream)[1..9] && head[9..13] == old(stream)[9..13];
      var kind := KindOf(head[0]);
      if kind.None? {
        return Failed(UnknownKind);
      }
      var length := FromLittleEndian(head[9..]);
      assert head[9..] == head[9..13];
      if length > MAX_PAYLOAD_SIZE {
        return Failed(PayloadTooBig);
      }
      var at := Signed(FromLittleEndian(head[1..9]));
      if |stream| < length {
        stream := [];
        return Failed(CorruptRecord);
      }
      var payload := stream[..length];
      stream := stream[length..];
      n := n + 1;
      if kind.value == Drop {
        if |payload| != 8 {
          return Failed(CorruptRecord);
        }
        return Got(Dropped(at, FromLittleEndian(payload)));
      }
      return Got(Held(kind.value, at, payload));
    }
  }
}
