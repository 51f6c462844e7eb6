/** The recorder over the recording format (internal/record/recorder.go,
writer.go, reader.go): what is read back from the files it leaves. */
module Recordings {
  import opened MarketModel
  import opened ByteData
  import opened RecordFormat
  import opened Recorders

  /** The record a line of the file for hour `h` is written as. */
  function LineRecord(meta: Bytes, h: int, l: Line): Record {
    match l
    case MetaLine => Held(Meta, h * NANOS_PER_HOUR, meta)
    case Marker(at, count) => Dropped(at, count)
    case EntryLine(e) => Held(if e.snapshot then Kind.Snapshot else Frame, e.at, e.payload)
  }

  function LineRecords(meta: Bytes, h: int, ls: seq<Line>): seq<Record> {
    if ls == [] then []
    else LineRecords(meta, h, ls[..|ls| - 1]) + [LineRecord(meta, h, ls[|ls| - 1])]
  }

  ghost predicate LinesFit(meta: Bytes, h: int, ls: seq<Line>) {
    forall l <- ls :: Writable(LineRecord(meta, h, l))
  }

  lemma {:induction false} RecordsFit(meta: Bytes, h: int, ls: seq<Line>)
    requires LinesFit(meta, h, ls)
    ensures |LineRecords(meta, h, ls)| == |ls| && AllWritable(LineRecords(meta, h, ls))
  {
    if ls != [] {
      RecordsFit(meta, h, ls[..|ls| - 1]);
      assert ls[|ls| - 1] in ls;
    }
  }

  lemma {:induction false} RecordOfLine(meta: Bytes, h: int, ls: seq<Line>, i: nat)
    requires i < |ls|
    ensures |LineRecords(meta, h, ls)| == |ls| && LineRecords(meta, h, ls)[i] == LineRecord(meta, h, ls[i])
  {
    if i < |ls| - 1 {
      RecordOfLine(meta, h, ls[..|ls| - 1], i);
    } else if i > 0 {
      RecordOfLine(meta, h, ls[..|ls| - 1], 0);
    }
  }

  /** The uncompressed bytes of the file for hour `h` holding some lines. */
  ghost function FileBytes(meta: Bytes, h: int, ls: seq<Line>): Bytes
    requires LinesFit(meta, h, ls)
  {
    RecordsFit(meta, h, ls);
    Header() + EncodeAll(LineRecords(meta, h, ls))
  }

  lemma {:induction false} EncodeAllSnoc(rs: seq<Record>, r: Record)
    requires AllWritable(rs) && Writable(r)
    ensures AllWritable(rs + [r]) && EncodeAll(rs + [r]) == EncodeAll(rs) + Encode(r)
  {
    hide Encode;
    if rs == [] {
      assert [r][1..] == [];
    } else {
      assert (rs + [r])[1..] == rs[1..] + [r];
      EncodeAllSnoc(rs[1..], r);
    }
  }

  lemma {:induction false} BytesSnoc(meta: Bytes, h: int, ls: seq<Line>, l: Line)
    requires LinesFit(meta, h, ls) && Writable(LineRecord(meta, h, l))
    ensures LinesFit(meta, h, ls + [l])
    ensures FileBytes(meta, h, ls + [l]) == FileBytes(meta, h, ls) + Encode(LineRecord(meta, h, l))
  {
    hide Encode, Writable, LineRecord;
    RecordsFit(meta, h, ls);
    EncodeAllSnoc(LineRecords(meta, h, ls), LineRecord(meta, h, l));
    assert (ls + [l])[..|ls|] == ls;
  }

  // ---------- Writing ----------

  /** openFile: a new writer, with the header and the metadata in it. */
  method OpenHour(meta: Bytes, h: int) returns (w: Writer)
    requires Writable(LineRecord(meta, h, MetaLine))
    ensures fresh(w) && fresh(w.head) && w.head.Length == RECORD_HEAD
    ensures LinesFit(meta, h, [MetaLine]) && w.stream == FileBytes(meta, h, [MetaLine])
  {
    w := new Writer();
    BytesSnoc(meta, h, [], MetaLine);
    assert [] + [MetaLine] == [MetaLine];
    var err := w.WriteHeld(LineRecord(meta, h, MetaLine));
  }

  /** What the writer loop does with the open file's writer for one more line. */
  method Append(w: Writer, meta: Bytes, h: int, ghost ls: seq<Line>, l: Line)
    requires w.head.Length == RECORD_HEAD
    requires LinesFit(meta, h, ls) && w.stream == FileBytes(meta, h, ls) && Writable(LineRecord(meta, h, l))
    modifies w, w.head
    ensures LinesFit(meta, h, ls + [l]) && w.stream == FileBytes(meta, h, ls + [l])
  {
    hide FileBytes, Encode;
    BytesSnoc(meta, h, ls, l);
    match LineRecord(meta, h, l)
    case Held(kind, at, payload) =>
      var err := w.WriteHeld(LineRecord(meta, h, l));
    case Dropped(at, count) =>
      var err := w.WriteDropped(at, count);
  }

  // ---------- Everything written fits ----------

  /** An entry the format can hold: its time and its hour are int64 nanoseconds
  and its payload is within the size limit. */
  ghost predicate EntryFits(e: Entry) {
    -TWO63 <= HourOf(e) * NANOS_PER_HOUR && e.at < TWO63 && |e.payload| <= MAX_PAYLOAD_SIZE
  }

  lemma HourStart(e: Entry)
    ensures HourOf(e) * NANOS_PER_HOUR <= e.at
  {
  }

  ghost predicate RunFits(meta: Bytes, r: Recorder) {
    |meta| <= MAX_PAYLOAD_SIZE && (forall e <- r.accepted :: EntryFits(e)) && r.dropped < TWO64
  }

  ghost predicate LogFits(meta: Bytes, log: seq<Logged>) {
    forall i :: 0 <= i < |log| ==> Writable(LineRecord(meta, log[i].hour, log[i].line))
  }

  lemma {:induction false} EntryLinesFit(meta: Bytes, e: Entry, count: nat)
    requires EntryFits(e) && |meta| <= MAX_PAYLOAD_SIZE && count < TWO64
    ensures var h := HourOf(e);
      && Writable(LineRecord(meta, h, MetaLine)) && Writable(LineRecord(meta, h, EntryLine(e)))
      && Writable(LineRecord(meta, h, Marker(e.at, count)))
  {
    HourStart(e);
  }

  lemma {:induction false} StepFits(meta: Bytes, r: Recorder, a: Action)
    requires Balanced(r) && RunFits(meta, Next(r, a)) && (RunFits(meta, r) ==> LogFits(meta, r.log))
    ensures RunFits(meta, r) && LogFits(meta, Next(r, a).log)
  {
    hide Writable, LineRecord, EntryFits, HourOf, Lines, EntriesIn, MarksIn;
    var r' := Next(r, a);
    assert forall e <- r.accepted :: e in r'.accepted;
    if a.Work? && !r.stage.Waiting? {
      var e := r.stage.entry;
      assert e in InHand(r.stage) && e in r.accepted;
      EntryLinesFit(meta, e, if r.dropped > r.lastDropped then r.dropped - r.lastDropped else 0);
    }
  }

  lemma {:induction false} RunLogFits(meta: Bytes, cap: nat, actions: seq<Action>)
    requires 0 < cap && RunFits(meta, Exec(NewRecorder(cap), actions))
    ensures LogFits(meta, Exec(NewRecorder(cap), actions).log)
  {
    if actions != [] {
      hide RunFits, LogFits, Next, Balanced;
      var n := |actions| - 1;
      var r := Exec(NewRecorder(cap), actions[..n]);
      NothingIsUnaccounted(cap, actions[..n]);
      if RunFits(meta, r) { RunLogFits(meta, cap, actions[..n]); }
      StepFits(meta, r, actions[n]);
    }
  }

  lemma {:induction false} VisitFits(meta: Bytes, log: seq<Logged>, h: int)
    requires LogFits(meta, log)
    ensures LinesFit(meta, h, LastVisit(log, h))
  {
    hide Writable, LineRecord;
    if log != [] { VisitFits(meta, log[..|log| - 1], h); }
  }

  // ---------- Reading back ----------

  /** The records read from one file, if it opens. */
  function ReadFile(data: Bytes): seq<Record> {
    if OpenRecording(data).outcome == EndOfFile then ReadAll(OpenRecording(data).rest).0 else []
  }

  /** Every file of every run, closed or not, opens, reads back as its lines, and
  ends cleanly. */
  lemma {:induction false} FilesReadBack(meta: Bytes, cap: nat, actions: seq<Action>, h: int)
    requires 0 < cap && RunFits(meta, Exec(NewRecorder(cap), actions))
    ensures var ls := Lines(Exec(NewRecorder(cap), actions).files, h);
      && LinesFit(meta, h, ls)
      && var data := FileBytes(meta, h, ls);
         && OpenRecording(data).outcome == EndOfFile
         && ReadAll(OpenRecording(data).rest) == (LineRecords(meta, h, ls), EndOfFile)
         && ReadFile(data) == LineRecords(meta, h, ls)
  {
    hide Exec, NextRecord;
    var r := Exec(NewRecorder(cap), actions);
    RunLogFits(meta, cap, actions);
    FilesSurviveIffClustered(cap, actions);
    assert Lines(r.files, h) == LastVisit(r.log, h);
    VisitFits(meta, r.log, h);
    RecordsFit(meta, h, Lines(r.files, h));
    RecordingRoundTrip(LineRecords(meta, h, Lines(r.files, h)));
  }

  /** And the first record of each is the metadata as given, at the start of its hour. */
  lemma {:induction false} FilesOpenWithMetadata(meta: Bytes, cap: nat, actions: seq<Action>, h: int)
    requires 0 < cap && RunFits(meta, Exec(NewRecorder(cap), actions)) && h in Exec(NewRecorder(cap), actions).files
    ensures var ls := Lines(Exec(NewRecorder(cap), actions).files, h);
      && LinesFit(meta, h, ls) && ReadFile(FileBytes(meta, h, ls)) != []
      && ReadFile(FileBytes(meta, h, ls))[0] == Held(Meta, h * 3_600_000_000_000, meta)
  {
    hide Exec, ReadFile, FileBytes;
    FilesReadBack(meta, cap, actions, h);
    FilesSurviveIffClustered(cap, actions);
    var r := Exec(NewRecorder(cap), actions);
    assert r.files[h] != [] && r.files[h][0] == MetaLine;
    RecordOfLine(meta, h, Lines(r.files, h), 0);
  }

  /** The entries and the drops among some records. */
  function EntriesRead(rs: seq<Record>): seq<Entry> {
    if rs == [] then []
    else
      var r := rs[|rs| - 1];
      EntriesRead(rs[..|rs| - 1])
      + if r.Held? && r.kind != Meta then [Entry(r.kind == Kind.Snapshot, r.at, r.payload)] else []
  }

  function DropsRead(rs: seq<Record>): nat {
    if rs == [] then 0 else DropsRead(rs[..|rs| - 1]) + if rs[|rs| - 1].Dropped? then rs[|rs| - 1].count else 0
  }

  lemma {:induction false} LinesAreRead(meta: Bytes, h: int, ls: seq<Line>)
    ensures EntriesRead(LineRecords(meta, h, ls)) == EntriesOf(ls)
    ensures DropsRead(LineRecords(meta, h, ls)) == MarksOf(ls)
  {
    if ls != [] {
      var front := LineRecords(meta, h, ls[..|ls| - 1]);
      LinesAreRead(meta, h, ls[..|ls| - 1]);
      assert (front + [LineRecord(meta, h, ls[|ls| - 1])])[..|front|] == front;
    }
  }

  /** What a replay of the files, one after the other, reads. */
  ghost function ReadFiles(meta: Bytes, files: Files, hours: seq<int>): (seq<Entry>, nat)
    requires forall h <- hours :: LinesFit(meta, h, Lines(files, h))
  {
    if hours == [] then ([], 0)
    else
      var n := |hours| - 1;
      var (es, drops) := ReadFiles(meta, files, hours[..n]);
      var rs := ReadFile(FileBytes(meta, hours[n], Lines(files, hours[n])));
      (es + EntriesRead(rs), drops + DropsRead(rs))
  }

  lemma {:induction false} ReadIsGathered(meta: Bytes, files: Files, hours: seq<int>)
    requires forall h <- hours :: LinesFit(meta, h, Lines(files, h))
    requires forall h <- hours ::
        ReadFile(FileBytes(meta, h, Lines(files, h))) == LineRecords(meta, h, Lines(files, h))
    ensures ReadFiles(meta, files, hours) == (EntriesOf(Gather(files, hours)), MarksOf(Gather(files, hours)))
  {
    hide FileBytes, ReadFile, Lines, LineRecords, LinesFit;
    if hours != [] {
      var n := |hours| - 1;
      ReadIsGathered(meta, files, hours[..n]);
      LinesAreRead(meta, hours[n], Lines(files, hours[n]));
      LinesConcat(Gather(files, hours[..n]), Lines(files, hours[n]));
    }
  }

  lemma {:induction false} LinesConcat(a: seq<Line>, b: seq<Line>)
    ensures EntriesOf(a + b) == EntriesOf(a) + EntriesOf(b) && MarksOf(a + b) == MarksOf(a) + MarksOf(b)
    decreases |b|
  {
    if b == [] {
      assert a + b == a && EntriesOf(a) + [] == EntriesOf(a);
    } else {
      var n := |b| - 1;
      LinesConcat(a, b[..n]);
      LinesSnoc(a + b[..n], b[n]);
      assert a + b == a + b[..n] + [b[n]];
    }
  }

  /** From enqueue to replay.  After Close, if the hours of the accepted entries
  never went back, the files read in the order of their hours give back exactly
  the accepted entries, kinds, times and payloads, in order, and drop markers
  that account for every entry that was refused. */
  lemma {:induction false} RecordingIsReplayed(meta: Bytes, cap: nat, actions: seq<Action>) returns (hours: seq<int>)
    requires 0 < cap && RunFits(meta, Exec(NewRecorder(cap), actions))
    requires Exec(NewRecorder(cap), actions).queue == [] && Exec(NewRecorder(cap), actions).stage == Waiting
    requires HoursNeverDecrease(Exec(NewRecorder(cap), actions).accepted)
    ensures var r := Exec(NewRecorder(cap), actions);
      && AscendingHours(hours) && (forall h :: h in hours <==> h in r.files)
      && (forall h <- hours :: LinesFit(meta, h, Lines(r.files, h)))
      && ReadFiles(meta, r.files, hours) == (r.accepted, r.offered - |r.accepted|)
  {
    var r := Exec(NewRecorder(cap), actions);
    hide Exec, FileBytes, ReadFile, Lines, LinesFit, Gather;
    hours := ClosedRecordingIsComplete(cap, actions);
    forall h ensures LinesFit(meta, h, Lines(r.files, h))
      ensures ReadFile(FileBytes(meta, h, Lines(r.files, h))) == LineRecords(meta, h, Lines(r.files, h))
    {
      FilesReadBack(meta, cap, actions, h);
    }
    ReadIsGathered(meta, r.files, hours);
  }
}
