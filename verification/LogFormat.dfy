/**
  The byte format of log records: a record is framed by its size, and the frames of a file are
  padded to multiples of eight bytes.
 */
module LogFormat {
  import opened Sequences
  import opened Options
  import opened Bytes

  const ALIGNMENT := 8
  const HEADER := 16    // bytes of the file header
  const FIXED := 45     // bytes of a record before its payload

  datatype LogRecord = LogRecord(
    kind: nat, lsn: nat, timestamp: nat, pageId: nat, transaction: nat, checksum: nat,
    reserved0: nat, reserved1: nat, payload: seq<Byte>)
  {
    /** Every field within its width. */
    predicate Wire() {
      && kind < 0x100 && lsn < 0x1_0000_0000_0000_0000 && timestamp < 0x1_0000_0000_0000_0000
      && pageId < 0x1_0000_0000 && transaction < 0x1_0000_0000_0000_0000
      && checksum < 0x1_0000_0000 && reserved0 < 0x1_0000_0000 && reserved1 < 0x1_0000_0000
      && FIXED + |payload| < 0x1_0000_0000
    }

    /** What the writer accepts: a known type, an LSN and a timestamp. */
    predicate Sound() { 1 <= kind <= 9 && lsn > 0 && timestamp > 0 }

    /** A record as the program makes it: the reserved fields are never set. */
    predicate Made() { Wire() && Sound() && reserved0 == 0 && reserved1 == 0 }
  }

  function Front(r: LogRecord): (b: seq<Byte>)
    requires r.Wire()
    ensures |b| == 29
  {
    [r.kind] + ToBytes(r.lsn, 8) + ToBytes(r.timestamp, 8) + ToBytes(r.pageId, 4) + ToBytes(r.transaction, 8)
  }

  function Back(r: LogRecord): (b: seq<Byte>)
    requires r.Wire()
    ensures |b| == 16
  {
    ToBytes(|r.payload|, 4) + ToBytes(r.checksum, 4) + ToBytes(r.reserved0, 4) + ToBytes(r.reserved1, 4)
  }

  function Encode(r: LogRecord): (b: seq<Byte>)
    requires r.Wire()
    ensures |b| == FIXED + |r.payload|
  {
    Front(r) + Back(r) + r.payload
  }

  /** Reads the fields in order; fails on a short body.  Bytes after the payload are ignored. */
  function Decode(b: seq<Byte>): Option<LogRecord> {
    if |b| < FIXED then None else
    var n := Value(b, 4, 29);
    if |b| < FIXED + n then None else
    Some(LogRecord(b[0], Value(b, 8, 1), Value(b, 8, 9), Value(b, 4, 17), Value(b, 8, 21),
                   Value(b, 4, 33), Value(b, 4, 37), Value(b, 4, 41), b[FIXED..FIXED + n]))
  }

  lemma FrontParts(r: LogRecord, rest: seq<Byte>)
    requires r.Wire()
    ensures var b := Front(r) + rest;
      b[0] == r.kind && b[1..9] == ToBytes(r.lsn, 8) && b[9..17] == ToBytes(r.timestamp, 8)
      && b[17..21] == ToBytes(r.pageId, 4) && b[21..29] == ToBytes(r.transaction, 8)
  {
  }

  lemma BackParts(r: LogRecord, front: seq<Byte>, rest: seq<Byte>)
    requires r.Wire() && |front| == 29
    ensures var b := front + Back(r) + rest;
      b[29..33] == ToBytes(|r.payload|, 4) && b[33..37] == ToBytes(r.checksum, 4)
      && b[37..41] == ToBytes(r.reserved0, 4) && b[41..45] == ToBytes(r.reserved1, 4)
  {
  }

  lemma DecodeEncode(r: LogRecord, rest: seq<Byte>)
    requires r.Wire()
    ensures Decode(Encode(r) + rest) == Some(r)
  {
    var b := Encode(r) + rest;
    Widths();
    assert b == Front(r) + (Back(r) + r.payload + rest);
    assert b == Front(r) + Back(r) + (r.payload + rest);
    FrontParts(r, Back(r) + r.payload + rest);
    BackParts(r, Front(r), r.payload + rest);
    ValueBack(b, 1, r.lsn, 8);
    ValueBack(b, 9, r.timestamp, 8);
    ValueBack(b, 17, r.pageId, 4);
    ValueBack(b, 21, r.transaction, 8);
    ValueBack(b, 29, |r.payload|, 4);
    ValueBack(b, 33, r.checksum, 4);
    ValueBack(b, 37, r.reserved0, 4);
    ValueBack(b, 41, r.reserved1, 4);
    assert b[45..45 + |r.payload|] == r.payload;
  }

  // ---------------------------------------------------------------- frames

  function Padding(n: nat): (p: nat)
    ensures p < ALIGNMENT
  {
    if n % ALIGNMENT == 0 then 0 else ALIGNMENT - n % ALIGNMENT
  }

  function Frame(r: LogRecord): (b: seq<Byte>)
    requires r.Wire()
    ensures |b| == 4 + FIXED + |r.payload|
  {
    ToBytes(FIXED + |r.payload|, 4) + Encode(r)
  }

  /** The size of what follows, the fields at their places, the payload. */
  lemma FrameLayout(r: LogRecord)
    requires r.Wire()
    ensures var f := Frame(r);
      && |f| == 49 + |r.payload| && Value(f, 4, 0) == 45 + |r.payload| && f[49..] == r.payload
      && f[4] == r.kind && Value(f, 8, 5) == r.lsn && Value(f, 8, 13) == r.timestamp && Value(f, 4, 21) == r.pageId
      && Value(f, 8, 25) == r.transaction && Value(f, 4, 33) == |r.payload| && Value(f, 4, 37) == r.checksum
      && Value(f, 4, 41) == r.reserved0 && Value(f, 4, 45) == r.reserved1
  {
    var f, e := Frame(r), Encode(r);
    Widths();
    assert f[0..4] == ToBytes(45 + |r.payload|, 4) && f[4..|f|] == e;
    ValueBack(f, 0, 45 + |r.payload|, 4);
    EncodedFields(r);
    ValueSlice(f, 4, |f|, 8, 1);
    ValueSlice(f, 4, |f|, 8, 9);
    ValueSlice(f, 4, |f|, 4, 17);
    ValueSlice(f, 4, |f|, 8, 21);
    ValueSlice(f, 4, |f|, 4, 29);
    ValueSlice(f, 4, |f|, 4, 33);
    ValueSlice(f, 4, |f|, 4, 37);
    ValueSlice(f, 4, |f|, 4, 41);
  }

  lemma EncodedFields(r: LogRecord)
    requires r.Wire()
    ensures var e := Encode(r);
      && e[0] == r.kind && Value(e, 8, 1) == r.lsn && Value(e, 8, 9) == r.timestamp && Value(e, 4, 17) == r.pageId
      && Value(e, 8, 21) == r.transaction && Value(e, 4, 29) == |r.payload| && Value(e, 4, 33) == r.checksum
      && Value(e, 4, 37) == r.reserved0 && Value(e, 4, 41) == r.reserved1
  {
    DecodeEncode(r, []);
    assert Encode(r) + [] == Encode(r);
  }

  /** n bytes of the file from `at` on; bytes past its end read as zero. */
  function Window(file: seq<Byte>, at: nat, n: nat): (b: seq<Byte>)
    ensures |b| == n
    ensures forall i :: 0 <= i < n ==> b[i] == if at + i < |file| then file[at + i] else 0
  {
    seq(n, i requires 0 <= i < n => if at + i < |file| then file[at + i] else 0)
  }

  /** The record at an offset and the distance to the next one. */
  function Read(file: seq<Byte>, at: nat): (r: Option<(LogRecord, nat)>)
    ensures r.Some? ==> r.value.1 > 0
  {
    if at + 4 > |file| then None else
    var size := Value(file, 4, at);
    if size == 0 then None else
    match Decode(Window(file, at + 4, size))
    case None => None
    case Some(r) => Some((r, 4 + size + Padding(4 + size)))
  }

  lemma ReadLsn(file: seq<Byte>, at: nat)
    requires Read(file, at).Some?
    ensures Read(file, at).value.0.lsn < 0x1_0000_0000_0000_0000
  {
    ValueBelow(Window(file, at + 4, Value(file, 4, at)), 8, 1);
    assert Power256(8) == 0x1_0000_0000_0000_0000;
  }

  predicate AllWire(rs: seq<LogRecord>) { forall i :: 0 <= i < |rs| ==> rs[i].Wire() }

  predicate AllMade(rs: seq<LogRecord>) { forall i :: 0 <= i < |rs| ==> rs[i].Made() }

  /** Frames one after another, as a buffer holds them. */
  function Frames(rs: seq<LogRecord>): seq<Byte>
    requires AllWire(rs)
  {
    if rs == [] then [] else Frame(rs[0]) + Frames(rs[1..])
  }

  function PaddedFrame(r: LogRecord): (b: seq<Byte>)
    requires r.Wire()
    ensures |b| == |Frame(r)| + Padding(|Frame(r)|)
  {
    Frame(r) + Zeros(Padding(|Frame(r)|))
  }

  /** Frames each padded, as one append per record leaves them. */
  function Padded(rs: seq<LogRecord>): seq<Byte>
    requires AllWire(rs)
  {
    if rs == [] then [] else PaddedFrame(rs[0]) + Padded(rs[1..])
  }

  lemma ReadFrame(before: seq<Byte>, r: LogRecord, after: seq<Byte>)
    requires r.Wire()
    ensures Read(before + Frame(r) + after, |before|) == Some((r, |Frame(r)| + Padding(|Frame(r)|)))
  {
    var file, at, size := before + Frame(r) + after, |before|, FIXED + |r.payload|;
    Widths();
    assert file[at..at + 4] == ToBytes(size, 4);
    ValueBack(file, at, size, 4);
    assert Window(file, at + 4, size) == Encode(r) + [];
    DecodeEncode(r, []);
  }

  lemma ReadPaddedFrame(before: seq<Byte>, r: LogRecord, after: seq<Byte>)
    requires r.Wire()
    ensures Read(before + PaddedFrame(r) + after, |before|) == Some((r, |PaddedFrame(r)|))
  {
    var pad := Zeros(Padding(|Frame(r)|));
    Regroup(before, Frame(r), pad);
    Regroup(before + Frame(r), pad, after);
    ReadFrame(before, r, pad + after);
  }

  // ---------------------------------------------------------------- flushes

  /** A flush appends the buffered frames and pads once, at the end. */
  function Flushed(rs: seq<LogRecord>): seq<Byte>
    requires AllWire(rs)
  {
    Frames(rs) + Zeros(Padding(|Frames(rs)|))
  }

  /** Every record but the last fills its frame to a multiple of eight. */
  predicate Aligned(rs: seq<LogRecord>) {
    forall i :: 0 <= i < |rs| - 1 ==> |rs[i].payload| % 8 == 7
  }

  lemma PaddingAfter(a: nat, b: nat)
    requires a % ALIGNMENT == 0
    ensures Padding(a) == 0 && Padding(a + b) == Padding(b)
  {
  }

  lemma NoPadding(f: seq<Byte>)
    requires Padding(|f|) == 0
    ensures f + Zeros(Padding(|f|)) == f
  {
  }

  lemma FlushedStep(r: LogRecord, rs: seq<LogRecord>)
    requires r.Wire() && AllWire(rs) && |r.payload| % 8 == 7
    ensures Flushed([r] + rs) == PaddedFrame(r) + Flushed(rs)
  {
    var f, g := Frame(r), Frames(rs);
    PaddingAfter(|f|, |g|);
    NoPadding(f);
    assert Frames([r] + rs) == f + g by { assert ([r] + rs)[1..] == rs; }
    Regroup(f, g, Zeros(Padding(|g|)));
  }

  lemma {:induction false} AlignedFlush(rs: seq<LogRecord>)
    requires AllWire(rs) && Aligned(rs)
    ensures Flushed(rs) == Padded(rs)
  {
    if |rs| == 1 {
      assert rs[1..] == [] && Frame(rs[0]) + [] == Frame(rs[0]);
    } else if |rs| > 1 {
      AlignedFlush(rs[1..]);
      FlushedStep(rs[0], rs[1..]);
      assert [rs[0]] + rs[1..] == rs;
    }
  }

  /** Moving d places from type byte to type byte ends in the reserved zeros. */
  lemma {:induction false} Periodic(e: seq<Byte>, d: nat, i: nat)
    requires |e| == FIXED && 1 <= d <= 7 && i <= 44
    requires forall j :: 0 <= j < FIXED - d ==> e[j] == e[j + d]
    requires forall j :: 37 <= j < FIXED ==> e[j] == 0
    ensures e[i] == 0
    decreases FIXED - i
  {
    if i < 37 { Periodic(e, d, i + d); }
  }

  lemma DecodedFront(b: seq<Byte>, r: LogRecord)
    requires Decode(b) == Some(r) && r.Wire()
    ensures b[..29] == Front(r)
  {
    assert ToBytes(r.lsn, 8) == b[1..9] by { BytesBack(b, 1, 8); }
    assert ToBytes(r.timestamp, 8) == b[9..17] by { BytesBack(b, 9, 8); }
    assert ToBytes(r.pageId, 4) == b[17..21] by { BytesBack(b, 17, 4); }
    assert ToBytes(r.transaction, 8) == b[21..29] by { BytesBack(b, 21, 8); }
    FiveParts(b[..29]);
  }

  lemma DecodedBack(b: seq<Byte>, r: LogRecord)
    requires Decode(b) == Some(r) && r.Wire()
    ensures b[29..45] == Back(r)
  {
    assert ToBytes(|r.payload|, 4) == b[29..33] by { BytesBack(b, 29, 4); }
    assert ToBytes(r.checksum, 4) == b[33..37] by { BytesBack(b, 33, 4); }
    assert ToBytes(r.reserved0, 4) == b[37..41] by { BytesBack(b, 37, 4); }
    assert ToBytes(r.reserved1, 4) == b[41..45] by { BytesBack(b, 41, 4); }
    FourParts(b[29..45]);
  }

  lemma FiveParts(b: seq<Byte>)
    requires |b| == 29
    ensures b == [b[0]] + b[1..9] + b[9..17] + b[17..21] + b[21..29]
  {
  }

  lemma FourParts(b: seq<Byte>)
    requires |b| == 16
    ensures b == b[0..4] + b[4..8] + b[8..12] + b[12..16]
  {
  }

  /** Whatever is decoded from a frame's bytes has its fields within their widths. */
  lemma DecodedWire(b: seq<Byte>)
    requires Decode(b).Some? && |b| < 0x1_0000_0000
    ensures Decode(b).value.Wire()
  {
    Widths();
    ValueBelow(b, 8, 1);
    ValueBelow(b, 8, 9);
    ValueBelow(b, 4, 17);
    ValueBelow(b, 8, 21);
    ValueBelow(b, 4, 33);
    ValueBelow(b, 4, 37);
    ValueBelow(b, 4, 41);
  }

  /** What is decoded, if anything, was encoded there. */
  lemma EncodeDecode(b: seq<Byte>)
    requires Decode(b).Some? && |b| < 0x1_0000_0000
    ensures Decode(b).value.Wire() && Encode(Decode(b).value) <= b
  {
    var r := Decode(b).value;
    DecodedWire(b);
    DecodedBytes(b, r);
    assert b[..FIXED + |r.payload|] == b[..FIXED] + b[FIXED..FIXED + |r.payload|];
  }

  /** The fixed fields that were read are the bytes they were read from. */
  lemma DecodedBytes(b: seq<Byte>, r: LogRecord)
    requires Decode(b) == Some(r) && r.Wire()
    ensures |b| >= FIXED && b[..FIXED] == Front(r) + Back(r)
  {
    DecodedFront(b, r);
    DecodedBack(b, r);
    assert b[..FIXED] == b[..29] + b[29..45];
  }

  lemma {:induction false} ZeroBytes(n: nat, i: nat)
    requires i < n
    ensures ToBytes(0, n)[i] == 0
  {
    if i > 0 { ZeroBytes(n - 1, i - 1); }
  }

  lemma ReservedZero(r: LogRecord)
    requires r.Wire() && r.reserved0 == 0 && r.reserved1 == 0
    ensures forall j :: 37 <= j < FIXED ==> (Front(r) + Back(r))[j] == 0
  {
    forall i | 0 <= i < 4 ensures ToBytes(0, 4)[i] == 0 { ZeroBytes(4, i); }
  }

  /** A record decoded d bytes into its own frame would repeat with period d. */
  lemma ShiftedFields(file: seq<Byte>, at: nat, r: LogRecord, d: nat, size: nat)
    requires r.Wire() && r.reserved0 == 0 && r.reserved1 == 0 && 1 <= d <= 7 && at + 4 + FIXED <= |file|
    requires file[at + 4..at + 4 + FIXED] == Front(r) + Back(r)
    requires Decode(Window(file, at + d + 4, size)) == Some(r)
    ensures r.kind == 0
  {
    var e, body := Front(r) + Back(r), Window(file, at + d + 4, size);
    DecodedBytes(body, r);
    forall j | 0 <= j < FIXED - d ensures e[j] == e[j + d] {
      assert e[j] == body[..FIXED][j] == body[j] == file[at + d + 4 + j];
      assert e[j + d] == file[at + 4..at + 4 + FIXED][j + d] == file[at + 4 + (j + d)];
    }
    ReservedZero(r);
    Periodic(e, d, 0);
    assert e[0] == r.kind;
  }

  lemma FrameBytes(before: seq<Byte>, r: LogRecord, after: seq<Byte>)
    requires r.Wire()
    ensures (before + Frame(r) + after)[|before| + 4..|before| + 4 + FIXED] == Front(r) + Back(r)
  {
  }

  /** Reading a few bytes too far into a record never gives that record. */
  lemma NotShifted(before: seq<Byte>, r: LogRecord, after: seq<Byte>, d: nat)
    requires r.Made() && 1 <= d <= 7
    ensures var x := Read(before + Frame(r) + after, |before| + d); x.None? || x.value.0 != r
  {
    var file := before + Frame(r) + after;
    FrameBytes(before, r, after);
    if Read(file, |before| + d).Some? && Read(file, |before| + d).value.0 == r {
      ShiftedFields(file, |before|, r, d, Value(file, 4, |before| + d));
    }
  }

  // ---------------------------------------------------------------- whole files

  /** What a reader can see of a file: the record at each offset and the distance to the next. */
  type Sight = nat -> Option<(LogRecord, nat)>

  function SightOf(file: seq<Byte>): Sight { at => Read(file, at) }

  predicate Offset(at: nat) { at >= 0 }

  /** What the reader sees is what is in the file. */
  ghost predicate Shows(see: Sight, file: seq<Byte>) {
    forall at: nat {:trigger Offset(at)} :: Offset(at) ==> see(at) == Read(file, at)
  }

  datatype Scan = Scan(records: seq<LogRecord>, end: nat)

  /** The records from an offset on, up to the end of the file or the first one that cannot be
      read, and the offset reached. */
  function ReadAll(see: Sight, size: nat, at: nat): Scan
    decreases size - at
  {
    if at >= size || see(at).None? || see(at).value.1 == 0 then Scan([], at) else
    var rest := ReadAll(see, size, at + see(at).value.1);
    Scan([see(at).value.0] + rest.records, rest.end)
  }

  function ReadFile(file: seq<Byte>, at: nat): Scan { ReadAll(SightOf(file), |file|, at) }

  function Size(r: LogRecord): nat { 4 + FIXED + |r.payload| }

  function PaddedSize(r: LogRecord): nat { Size(r) + Padding(Size(r)) }

  /** These records can be read one after another, each padded. */
  predicate InRow(see: Sight, at: nat, rs: seq<LogRecord>)
    decreases |rs|
  {
    rs == [] || (see(at) == Some((rs[0], PaddedSize(rs[0]))) && InRow(see, at + PaddedSize(rs[0]), rs[1..]))
  }

  function PaddedSizes(rs: seq<LogRecord>): nat {
    if rs == [] then 0 else PaddedSize(rs[0]) + PaddedSizes(rs[1..])
  }

  lemma {:induction false} ReadRow(see: Sight, size: nat, at: nat, rs: seq<LogRecord>)
    requires InRow(see, at, rs) && at + PaddedSizes(rs) <= size
    ensures var rest := ReadAll(see, size, at + PaddedSizes(rs));
      ReadAll(see, size, at) == Scan(rs + rest.records, rest.end)
    decreases |rs|
  {
    var rest := ReadAll(see, size, at + PaddedSizes(rs)).records;
    if rs == [] {
      assert rs + rest == rest;
    } else {
      ReadRow(see, size, at + PaddedSize(rs[0]), rs[1..]);
      HeadFirst(rs, rest);
    }
  }

  lemma HeadFirst(rs: seq<LogRecord>, more: seq<LogRecord>)
    requires rs != []
    ensures [rs[0]] + (rs[1..] + more) == rs + more
  {
  }

  predicate Differs(see: Sight, at: nat, r: LogRecord) { see(at).None? || see(at).value.0 != r }

  predicate Unshifted(see: Sight, at: nat, r: LogRecord) { forall p :: at < p < at + 8 ==> Differs(see, p, r) }

  /** These records are framed one after another without padding: each can be read at its own
      start, and not from one to seven bytes into it. */
  predicate Tight(see: Sight, at: nat, rs: seq<LogRecord>)
    decreases |rs|
  {
    rs == [] ||
    ( && see(at) == Some((rs[0], PaddedSize(rs[0])))
      && Unshifted(see, at, rs[0])
      && Tight(see, at + Size(rs[0]), rs[1..]))
  }

  /** When such records are read back in full, all but the last are aligned. */
  lemma {:induction false} MustAlign(see: Sight, size: nat, at: nat, rs: seq<LogRecord>)
    requires Tight(see, at, rs) && rs <= ReadAll(see, size, at).records
    ensures Aligned(rs)
    decreases |rs|
  {
    if |rs| > 1 {
      var next := at + PaddedSize(rs[0]);
      var rest := ReadAll(see, size, next).records;
      assert rs[1..] <= rest;
      assert rs[1..][0] == rs[1] && rest[0] == rs[1];
      assert see(next).Some? && see(next).value.0 == rs[1];
      assert !Differs(see, next, rs[1]);
      assert Padding(Size(rs[0])) == 0;
      MustAlign(see, size, next, rs[1..]);
    }
  }

  lemma SeePadded(see: Sight, file: seq<Byte>, before: seq<Byte>, r: LogRecord, after: seq<Byte>)
    requires r.Wire() && file == before + PaddedFrame(r) + after && Shows(see, file)
    ensures see(|before|) == Some((r, PaddedSize(r)))
  {
    assert Offset(|before|);
    ReadPaddedFrame(before, r, after);
  }

  lemma {:induction false} PaddedInRow(see: Sight, file: seq<Byte>, before: seq<Byte>, rs: seq<LogRecord>,
                                       after: seq<Byte>)
    requires AllWire(rs) && file == before + Padded(rs) + after && Shows(see, file)
    ensures |Padded(rs)| == PaddedSizes(rs) && InRow(see, |before|, rs)
    decreases |rs|
  {
    if rs != [] {
      var f, rest := PaddedFrame(rs[0]), Padded(rs[1..]);
      Regroup(before, f, rest);
      Regroup(before + f, rest, after);
      SeePadded(see, file, before, rs[0], rest + after);
      PaddedInRow(see, file, before + f, rs[1..], after);
    }
  }

  lemma SeeShifted(see: Sight, file: seq<Byte>, before: seq<Byte>, r: LogRecord, after: seq<Byte>, d: nat)
    requires r.Made() && file == before + Frame(r) + after && Shows(see, file) && 1 <= d <= 7
    ensures Differs(see, |before| + d, r)
  {
    assert Offset(|before| + d);
    NotShifted(before, r, after, d);
  }

  lemma SeeFrame(see: Sight, file: seq<Byte>, before: seq<Byte>, r: LogRecord, after: seq<Byte>)
    requires r.Made() && file == before + Frame(r) + after && Shows(see, file)
    ensures see(|before|) == Some((r, PaddedSize(r)))
  {
    assert Offset(|before|);
    ReadFrame(before, r, after);
  }

  lemma {:induction false} FramesTight(see: Sight, file: seq<Byte>, before: seq<Byte>, rs: seq<LogRecord>,
                                       after: seq<Byte>)
    requires AllMade(rs) && file == before + Frames(rs) + after && Shows(see, file)
    ensures Tight(see, |before|, rs)
    decreases |rs|
  {
    if rs != [] {
      var f, rest := Frame(rs[0]), Frames(rs[1..]);
      Regroup(before, f, rest);
      Regroup(before + f, rest, after);
      SeeFrame(see, file, before, rs[0], rest + after);
      forall p | |before| < p < |before| + 8 ensures Differs(see, p, rs[0]) {
        SeeShifted(see, file, before, rs[0], rest + after, p - |before|);
      }
      FramesTight(see, file, before + f, rs[1..], after);
    }
  }

  predicate AllBatchesMade(bs: seq<seq<LogRecord>>) { forall i :: 0 <= i < |bs| ==> AllMade(bs[i]) }

  predicate AllAligned(bs: seq<seq<LogRecord>>) { forall i :: 0 <= i < |bs| ==> Aligned(bs[i]) }

  /** What a series of flushes adds to the file. */
  function Image(bs: seq<seq<LogRecord>>): seq<Byte>
    requires AllBatchesMade(bs)
  {
    if bs == [] then [] else Flushed(bs[0]) + Image(bs[1..])
  }

  function Flatten(bs: seq<seq<LogRecord>>): seq<LogRecord> { if bs == [] then [] else bs[0] + Flatten(bs[1..]) }

  /** An aligned flush is read as its records, and then reading goes on. */
  lemma ReadFlush(see: Sight, file: seq<Byte>, before: seq<Byte>, rs: seq<LogRecord>, after: seq<Byte>)
    requires AllMade(rs) && Aligned(rs) && file == before + Flushed(rs) + after && Shows(see, file)
    ensures InRow(see, |before|, rs) && |before + Flushed(rs)| == |before| + PaddedSizes(rs)
  {
    AlignedFlush(rs);
    PaddedInRow(see, file, before, rs, after);
  }

  lemma FlushTight(see: Sight, file: seq<Byte>, before: seq<Byte>, rs: seq<LogRecord>, after: seq<Byte>)
    requires AllMade(rs) && file == before + Flushed(rs) + after && Shows(see, file)
    ensures Tight(see, |before|, rs)
  {
    var pad := Zeros(Padding(|Frames(rs)|));
    Regroup(before, Frames(rs), pad);
    Regroup(before + Frames(rs), pad, after);
    FramesTight(see, file, before, rs, pad + after);
  }

  /** One flush: read exactly, with the rest read exactly from `next`, if and only if aligned. */
  lemma FlushStep(see: Sight, size: nat, at: nat, next: nat, rs: seq<LogRecord>, rest: seq<LogRecord>)
    requires Tight(see, at, rs) && at <= next <= size
    requires Aligned(rs) ==> InRow(see, at, rs) && next == at + PaddedSizes(rs)
    ensures ReadAll(see, size, at) == Scan(rs + rest, size) <==>
            Aligned(rs) && ReadAll(see, size, next) == Scan(rest, size)
  {
    if Aligned(rs) {
      RowThen(see, size, at, rs, rest);
    } else if ReadAll(see, size, at) == Scan(rs + rest, size) {
      MustAlign(see, size, at, rs);
    }
  }

  lemma RowThen(see: Sight, size: nat, at: nat, rs: seq<LogRecord>, rest: seq<LogRecord>)
    requires InRow(see, at, rs) && at + PaddedSizes(rs) <= size
    ensures ReadAll(see, size, at) == Scan(rs + rest, size)
      <==> ReadAll(see, size, at + PaddedSizes(rs)) == Scan(rest, size)
  {
    ReadRow(see, size, at, rs);
    SameRest(rs, ReadAll(see, size, at + PaddedSizes(rs)).records, rest);
  }

  lemma SameRest(rs: seq<LogRecord>, a: seq<LogRecord>, b: seq<LogRecord>)
    ensures rs + a == rs + b <==> a == b
  {
    if rs + a == rs + b { assert a == (rs + a)[|rs|..] == (rs + b)[|rs|..] == b; }
  }

  lemma {:induction false} BatchesReadBack(see: Sight, file: seq<Byte>, before: seq<Byte>, bs: seq<seq<LogRecord>>)
    requires AllBatchesMade(bs) && file == before + Image(bs) && Shows(see, file)
    ensures ReadAll(see, |file|, |before|) == Scan(Flatten(bs), |file|) <==> AllAligned(bs)
    decreases |bs|
  {
    if bs != [] {
      var b, rest := Flushed(bs[0]), Image(bs[1..]);
      Regroup(before, b, rest);
      BatchesReadBack(see, file, before + b, bs[1..]);
      FlushTight(see, file, before, bs[0], rest);
      if Aligned(bs[0]) { ReadFlush(see, file, before, bs[0], rest); }
      FlushStep(see, |file|, |before|, |before + b|, bs[0], Flatten(bs[1..]));
      AlignedFirst(bs);
    }
  }

  lemma AlignedFirst(bs: seq<seq<LogRecord>>)
    requires bs != []
    ensures AllAligned(bs) <==> Aligned(bs[0]) && AllAligned(bs[1..])
  {
    if Aligned(bs[0]) && AllAligned(bs[1..]) {
      forall i | 0 <= i < |bs| ensures Aligned(bs[i]) { if i > 0 { assert bs[i] == bs[1..][i - 1]; } }
    }
  }

  /** Flushed records are read back exactly, up to the end of the file, if and only if every
      record of a flush but its last has a payload of 7 modulo 8 bytes. */
  lemma FlushesReadBack(before: seq<Byte>, bs: seq<seq<LogRecord>>)
    requires AllBatchesMade(bs)
    ensures ReadFile(before + Image(bs), |before|) == Scan(Flatten(bs), |before + Image(bs)|) <==> AllAligned(bs)
  {
    BatchesReadBack(SightOf(before + Image(bs)), before + Image(bs), before, bs);
  }

  lemma RowReadBack(see: Sight, size: nat, at: nat, rs: seq<LogRecord>)
    requires InRow(see, at, rs) && at + PaddedSizes(rs) == size
    ensures ReadAll(see, size, at) == Scan(rs, size)
  {
    ReadRow(see, size, at, rs);
    assert rs + [] == rs;
  }

  /** Records appended one by one read back exactly, up to the end of the file. */
  lemma AppendsReadBack(before: seq<Byte>, rs: seq<LogRecord>)
    requires AllWire(rs)
    ensures ReadFile(before + Padded(rs), |before|) == Scan(rs, |before + Padded(rs)|)
  {
    var file := before + Padded(rs);
    PaddedInRow(SightOf(file), file, before, rs, []);
    RowReadBack(SightOf(file), |file|, |before|, rs);
  }

  /** The first insert into an empty database flushes an allocation, whose payload is empty,
      before its update: the file cannot be read back. */
  lemma FirstInsertLost(before: seq<Byte>, allocation: LogRecord, update: LogRecord)
    requires allocation.Made() && allocation.payload == [] && update.Made()
    ensures ReadFile(before + Flushed([allocation, update]), |before|)
      != Scan([allocation, update], |before + Flushed([allocation, update])|)
  {
    var bs: seq<seq<LogRecord>> := [[allocation, update]];
    FlushesReadBack(before, bs);
    assert bs[1..] == [] && Image([]) == [] && Flatten([]) == [];
    assert Flushed(bs[0]) + [] == Flushed(bs[0]) && bs[0] + [] == bs[0];
    assert !Aligned(bs[0]) by { assert |bs[0][0].payload| % 8 != 7; }
  }
}
