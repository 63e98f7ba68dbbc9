/**
  The log file, its writer and its reader.  The file is a sequence of bytes that begins with a
  header; the writer frames records into a buffer and flushes it; the reader walks the frames.
 */
module LogFiles {
  import opened Sequences
  import opened Options
  import opened Bytes
  import opened LogFormat

  const LSN_LIMIT := 0x1_0000_0000_0000_0000

  class LogFile {
    var bytes: seq<Byte>
    var appendOffset: nat

    ghost predicate Valid()
      reads this
    {
      HEADER <= |bytes| == appendOffset
    }

    constructor (header: seq<Byte>)
      requires |header| == HEADER
      ensures Valid() && bytes == header
    {
      bytes, appendOffset := header, HEADER;
    }

    /** Writes at the append offset and pads the file to a multiple of eight. */
    method Append(data: seq<Byte>)
      requires Valid()
      modifies this
      ensures Valid()
      ensures bytes == old(bytes) + data + Zeros(Padding(|old(bytes)| + |data|))
    {
      bytes := bytes[..appendOffset] + data;
      appendOffset := appendOffset + |data|;
      var pad := Padding(appendOffset);
      bytes := bytes + Zeros(pad);
      appendOffset := appendOffset + pad;
    }

    method AppendRecord(r: LogRecord)
      requires Valid() && r.Wire() && |bytes| % ALIGNMENT == 0
      modifies this
      ensures Valid() && |bytes| % ALIGNMENT == 0
      ensures bytes == old(bytes) + PaddedFrame(r)
    {
      PaddingAfter(|bytes|, |Frame(r)|);
      Append(Frame(r));
      Regroup(old(bytes), Frame(r), Zeros(Padding(|Frame(r)|)));
    }

    method ReadRecord(at: nat, ghost see: Sight) returns (r: Option<(LogRecord, nat)>)
      requires Shows(see, bytes)
      ensures r == see(at) && (r.Some? ==> r.value.1 > 0 && r.value.0.lsn < LSN_LIMIT)
    {
      assert Offset(at);
      r := Read(bytes, at);
      if r.Some? { ReadLsn(bytes, at); }
    }

    /** Cuts the file, or extends it with zeros; refuses to cut into the header. */
    method Truncate(size: nat) returns (ok: bool)
      requires Valid()
      modifies this
      ensures Valid()
      ensures ok <==> size >= 16
      ensures !ok ==> bytes == old(bytes)
      ensures ok ==> bytes == Window(old(bytes), 0, size)
    {
      if size < HEADER { return false; }
      bytes := Window(bytes, 0, size);
      appendOffset := size;
      return true;
    }
  }

  // ---------------------------------------------------------------- LSN order

  predicate Precedes(rs: seq<LogRecord>, i: nat, j: nat)
    requires i < |rs| && j < |rs|
  {
    rs[i].lsn < rs[j].lsn
  }

  predicate Ordered(rs: seq<LogRecord>) { forall i, j :: 0 <= i < j < |rs| ==> Precedes(rs, i, j) }

  predicate Below(rs: seq<LogRecord>, lsn: nat) { forall i :: 0 <= i < |rs| ==> rs[i].lsn < lsn }

  lemma OrderedExtends(rs: seq<LogRecord>, r: LogRecord)
    requires Ordered(rs) && Below(rs, r.lsn)
    ensures Ordered(rs + [r]) && Below(rs + [r], r.lsn + 1)
  {
    forall i, j | 0 <= i < j < |rs + [r]| ensures Precedes(rs + [r], i, j) {
      if j < |rs| { assert Precedes(rs, i, j); }
    }
  }

  lemma {:induction false} FramesExtend(rs: seq<LogRecord>, r: LogRecord)
    requires AllWire(rs) && r.Wire()
    ensures Frames(rs + [r]) == Frames(rs) + Frame(r)
  {
    if rs == [] {
      assert [r][1..] == [] && Frame(r) + [] == Frame(r);
    } else {
      assert (rs + [r])[1..] == rs[1..] + [r];
      FramesExtend(rs[1..], r);
      Regroup(Frame(rs[0]), Frames(rs[1..]), Frame(r));
    }
  }

  lemma {:induction false} ImageExtends(bs: seq<seq<LogRecord>>, b: seq<LogRecord>)
    requires AllBatchesMade(bs) && AllMade(b)
    ensures Image(bs + [b]) == Image(bs) + Flushed(b)
    ensures Flatten(bs + [b]) == Flatten(bs) + b
  {
    if bs == [] {
      assert [b][1..] == [] && Flushed(b) + [] == Flushed(b) && b + [] == b;
    } else {
      assert (bs + [b])[1..] == bs[1..] + [b];
      ImageExtends(bs[1..], b);
      Regroup(Flushed(bs[0]), Image(bs[1..]), Flushed(b));
    }
  }

  // ---------------------------------------------------------------- the writer

  function LastLsn(rs: seq<LogRecord>): nat { if rs == [] then 0 else rs[|rs| - 1].lsn }

  /** The file holds a header and these flushes. */
  predicate Holds(header: seq<Byte>, bytes: seq<Byte>, flushes: seq<seq<LogRecord>>) {
    |header| == HEADER && AllBatchesMade(flushes) && bytes == header + Image(flushes)
  }

  lemma PaddingFills(n: nat)
    ensures (n + Padding(n)) % ALIGNMENT == 0
  {
  }

  lemma MultiplesAdd(a: nat, b: nat)
    requires a % ALIGNMENT == 0 && b % ALIGNMENT == 0
    ensures (a + b) % ALIGNMENT == 0
  {
  }

  lemma FlushedAligned(rs: seq<LogRecord>)
    requires AllWire(rs)
    ensures |Flushed(rs)| % ALIGNMENT == 0
  {
    PaddingFills(|Frames(rs)|);
  }

  lemma FlushedAfter(bytes: seq<Byte>, rs: seq<LogRecord>)
    requires AllWire(rs) && |bytes| % ALIGNMENT == 0
    ensures bytes + Frames(rs) + Zeros(Padding(|bytes| + |Frames(rs)|)) == bytes + Flushed(rs)
  {
    PaddingAfter(|bytes|, |Frames(rs)|);
    Regroup(bytes, Frames(rs), Zeros(Padding(|Frames(rs)|)));
  }

  lemma {:induction false} ImageAligned(bs: seq<seq<LogRecord>>)
    requires AllBatchesMade(bs)
    ensures |Image(bs)| % ALIGNMENT == 0
  {
    if bs != [] {
      ImageAligned(bs[1..]);
      FlushedAligned(bs[0]);
      MultiplesAdd(|Flushed(bs[0])|, |Image(bs[1..])|);
    }
  }

  lemma HoldsMore(header: seq<Byte>, bytes: seq<Byte>, flushes: seq<seq<LogRecord>>, b: seq<LogRecord>)
    requires Holds(header, bytes, flushes) && AllMade(b)
    ensures Holds(header, bytes + Frames(b) + Zeros(Padding(|bytes| + |Frames(b)|)), flushes + [b])
    ensures Flatten(flushes + [b]) + [] == Flatten(flushes) + b
  {
    ImageAligned(flushes);
    MultiplesAdd(|header|, |Image(flushes)|);
    FlushedAfter(bytes, b);
    ImageExtends(flushes, b);
    Regroup(header, Image(flushes), Flushed(b));
  }

  /** LSNs rise along the file and the buffer, and the next one is above them all. */
  predicate Rising(log: seq<LogRecord>, next: nat) { 1 <= next && Ordered(log) && Below(log, next) }

  predicate Buffered(pending: seq<LogRecord>, buffer: seq<Byte>) { AllMade(pending) && buffer == Frames(pending) }

  lemma BufferedMore(log: seq<LogRecord>, pending: seq<LogRecord>, buffer: seq<Byte>, r: LogRecord)
    requires Buffered(pending, buffer) && r.Made()
    ensures Buffered(pending + [r], buffer + Frame(r))
    ensures Ordered(log + (pending + [r])) <==> Rising(log + pending, r.lsn)
    ensures Rising(log + pending, r.lsn) ==> Rising(log + (pending + [r]), r.lsn + 1)
  {
    FramesExtend(pending, r);
    assert log + (pending + [r]) == log + pending + [r];
    if Rising(log + pending, r.lsn) { OrderedExtends(log + pending, r); }
    if Ordered(log + pending + [r]) { OrderedBefore(log + pending, r); }
  }

  lemma OrderedBefore(rs: seq<LogRecord>, r: LogRecord)
    requires Ordered(rs + [r])
    ensures Ordered(rs) && Below(rs, r.lsn)
  {
    forall i, j | 0 <= i < j < |rs| ensures Precedes(rs, i, j) { assert Precedes(rs + [r], i, j); }
    forall i | 0 <= i < |rs| ensures rs[i].lsn < r.lsn { assert Precedes(rs + [r], i, |rs|); }
  }

  lemma ReadOne(see: Sight, size: nat, at: nat)
    requires at < size && see(at).Some? && see(at).value.1 > 0
    ensures ReadAll(see, size, at).records == [see(at).value.0] + ReadAll(see, size, at + see(at).value.1).records
  {
  }

  /** The LSN of the last record that can be read, or 0. */
  method LastReadable(file: LogFile, ghost see: Sight) returns (lsn: nat)
    requires Shows(see, file.bytes)
    ensures lsn == LastLsn(ReadAll(see, |file.bytes|, HEADER).records) && lsn < LSN_LIMIT
  {
    lsn := 0;
    var at: nat := HEADER;
    ghost var size := |file.bytes|;
    ghost var seen: seq<LogRecord> := [];
    while at < |file.bytes|
      invariant ReadAll(see, size, HEADER).records == seen + ReadAll(see, size, at).records
      invariant lsn == LastLsn(seen) && lsn < LSN_LIMIT
    {
      var r := file.ReadRecord(at, see);
      if r.None? { break; }
      ReadOne(see, size, at);
      ghost var rest := ReadAll(see, size, at + r.value.1).records;
      assert seen + ([r.value.0] + rest) == seen + [r.value.0] + rest;
      seen := seen + [r.value.0];
      lsn := r.value.0.lsn;
      at := at + r.value.1;
    }
    assert ReadAll(see, size, at).records == [];
    assert seen + [] == seen;
  }

  /** Records that validation accepts: each sound, LSNs increasing. */
  predicate Acceptable(rs: seq<LogRecord>) { (forall i :: 0 <= i < |rs| ==> rs[i].Sound()) && Ordered(rs) }

  lemma AcceptableIs(rs: seq<LogRecord>)
    ensures Acceptable(rs) <==>
            && (forall i :: 0 <= i < |rs| ==>
                  rs[i].kind in {1, 2, 3, 4, 5, 6, 7, 8, 9} && rs[i].lsn > 0 && rs[i].timestamp > 0)
            && (forall i, j :: 0 <= i < j < |rs| ==> rs[i].lsn < rs[j].lsn)
  {
    if forall i, j :: 0 <= i < j < |rs| ==> rs[i].lsn < rs[j].lsn {
      forall i, j | 0 <= i < j < |rs| ensures Precedes(rs, i, j) {}
    }
    if Ordered(rs) { forall i, j | 0 <= i < j < |rs| ensures rs[i].lsn < rs[j].lsn { assert Precedes(rs, i, j); } }
  }

  lemma AcceptMore(rs: seq<LogRecord>, r: LogRecord, rest: seq<LogRecord>)
    requires Acceptable(rs)
    ensures Acceptable(rs + [r]) <==> r.Sound() && (LastLsn(rs) > 0 ==> LastLsn(rs) < r.lsn)
    ensures Acceptable(rs + [r] + rest) ==> Acceptable(rs + [r])
  {
    var n, more, all := |rs|, rs + [r], rs + [r] + rest;
    if r.Sound() && (LastLsn(rs) > 0 ==> LastLsn(rs) < r.lsn) {
      forall i | 0 <= i < n ensures rs[i].lsn < r.lsn { if i < n - 1 { assert Precedes(rs, i, n - 1); } }
      OrderedExtends(rs, r);
    }
    if Acceptable(more) && n > 0 { assert more[n] == r && more[n - 1] == rs[n - 1] && Precedes(more, n - 1, n); }
    if Acceptable(more) { assert more[n].Sound(); }
    if Acceptable(all) {
      forall i | 0 <= i < |more| ensures more[i].Sound() { assert all[i] == more[i]; }
      forall i, j | 0 <= i < j < |more| ensures Precedes(more, i, j) { assert Precedes(all, i, j); }
    }
  }

  /** Accepts exactly the files that can be read to their end as records of known types, with
      timestamps and increasing LSNs. */
  method ValidateLog(file: LogFile, ghost see: Sight) returns (ok: bool)
    requires Shows(see, file.bytes)
    ensures var s := ReadAll(see, |file.bytes|, 16);
            ok <==> && s.end >= |file.bytes|
                    && (forall i :: 0 <= i < |s.records| ==>
                          && s.records[i].kind in {1, 2, 3, 4, 5, 6, 7, 8, 9}
                          && s.records[i].lsn > 0 && s.records[i].timestamp > 0)
                    && (forall i, j :: 0 <= i < j < |s.records| ==> s.records[i].lsn < s.records[j].lsn)
  {
    AcceptableIs(ReadAll(see, |file.bytes|, HEADER).records);
    ok := CheckRecords(file, see);
  }

  method CheckRecords(file: LogFile, ghost see: Sight) returns (ok: bool)
    requires Shows(see, file.bytes)
    ensures var s := ReadAll(see, |file.bytes|, HEADER);
      ok <==> s.end >= |file.bytes| && Acceptable(s.records)
  {
    var at: nat, previous := HEADER, 0;
    ghost var size, all := |file.bytes|, ReadAll(see, |file.bytes|, HEADER);
    ghost var seen: seq<LogRecord> := [];
    while at < |file.bytes|
      invariant all == Scan(seen + ReadAll(see, size, at).records, ReadAll(see, size, at).end)
      invariant Acceptable(seen) && previous == LastLsn(seen)
    {
      var r := file.ReadRecord(at, see);
      if r.None? { return false; }
      var record := r.value.0;
      ghost var rest := ReadAll(see, size, at + r.value.1).records;
      assert seen + ([record] + rest) == seen + [record] + rest;
      AcceptMore(seen, record, rest);
      if !record.Sound() || (previous > 0 && record.lsn <= previous) { return false; }
      seen, previous, at := seen + [record], record.lsn, at + r.value.1;
    }
    assert seen + [] == seen;
    return true;
  }

  lemma Seeing(file: seq<Byte>) returns (see: Sight)
    ensures Shows(see, file)
  {
    see := SightOf(file);
  }

  /** After a restore the next LSN is above the file's, so above the buffer's too only if the
      buffer is empty. */
  lemma RestoredRising(flat: seq<LogRecord>, pending: seq<LogRecord>, next: nat)
    requires Rising(flat + pending, next) && flat != [] && next < LSN_LIMIT
    ensures NextLsn(LastLsn(flat)) == LastLsn(flat) + 1
    ensures Rising(flat + pending, LastLsn(flat) + 1) <==> pending == []
  {
    var log, n := flat + pending, |flat| - 1;
    assert log[n] == flat[n];
    if pending == [] {
      forall i | 0 <= i < |log| ensures log[i].lsn < LastLsn(flat) + 1 { if i < n { assert Precedes(log, i, n); } }
    } else {
      assert Precedes(log, n, |log| - 1);
      assert log[|log| - 1].lsn >= LastLsn(flat) + 1;
    }
  }

  lemma {:induction false} LastLsnPositive(bs: seq<seq<LogRecord>>)
    requires AllBatchesMade(bs)
    ensures LastLsn(Flatten(bs)) > 0 <==> Flatten(bs) != []
  {
    if bs != [] {
      LastLsnPositive(bs[1..]);
      var rest := Flatten(bs[1..]);
      if rest == [] { assert bs[0] + rest == bs[0]; } else { assert LastLsn(bs[0] + rest) == LastLsn(rest); }
    }
  }

  /** LSNs are 64 bits wide. */
  function NextLsn(lsn: nat): nat { if lsn + 1 == LSN_LIMIT then 0 else lsn + 1 }

  class LogWriter {
    const file: LogFile
    const capacity: nat
    var buffer: seq<Byte>
    var next: nat
    var current: nat
    var lastFlushed: nat
    ghost const header: seq<Byte>
    ghost var flushes: seq<seq<LogRecord>>
    ghost var pending: seq<LogRecord>

    /** The records written since the header, flushed or not. */
    ghost function Log(): seq<LogRecord>
      reads this
    {
      Flatten(flushes) + pending
    }

    /** The file and the buffer hold the log; nothing is said of its LSNs. */
    ghost predicate Framed()
      reads this, file
    {
      && file.Valid()
      && Holds(header, file.bytes, flushes)
      && Buffered(pending, buffer)
      && next < LSN_LIMIT
    }

    /** LSNs increase along the log, and the next one is new. */
    ghost predicate Valid()
      reads this, file
    {
      Framed() && Rising(Log(), next)
    }

    constructor (file: LogFile, capacity: nat)
      requires file.Valid() && |file.bytes| == HEADER
      ensures Valid() && Log() == [] && this.file == file && this.capacity == capacity
      ensures next == 1 && current == 0 && lastFlushed == 0
    {
      this.file, this.capacity, header := file, capacity, file.bytes;
      buffer, next, current, lastFlushed := [], 1, 0, 0;
      flushes, pending := [], [];
    }

    /** Opens a file that an earlier writer left: the next LSN follows the last one that can be
        read, and is new exactly when that was the last one of the file. */
    constructor Open(file: LogFile, capacity: nat, ghost header: seq<Byte>, ghost flushes: seq<seq<LogRecord>>)
      requires file.Valid() && Holds(header, file.bytes, flushes)
      ensures this.file == file && this.header == header && this.flushes == flushes && Framed() && pending == []
      ensures next == NextLsn(LastLsn(ReadFile(file.bytes, HEADER).records))
      ensures var last := LastLsn(ReadFile(file.bytes, HEADER).records);
        Ordered(Flatten(flushes)) ==> (Valid() <==> LastLsn(Flatten(flushes)) <= last && last + 1 < LSN_LIMIT)
    {
      this.file, this.capacity, this.header := file, capacity, header;
      buffer, next, current, lastFlushed := [], 1, 0, 0;
      this.flushes, pending := flushes, [];
      new;
      assert Log() == Flatten(flushes);
      LastLsnPositive(flushes);
      RestoreFromFile();
    }

    /** A refused record still uses up its LSN.  The last LSN there is makes the next one
        wrap to 0, which is no LSN. */
    method AppendRecord(record: LogRecord) returns (ok: bool)
      requires Framed() && record.Wire() && record.reserved0 == 0 && record.reserved1 == 0
      modifies this
      ensures Framed() && current == old(next)
      ensures next == if old(next) == 0xFFFF_FFFF_FFFF_FFFF then 0 else old(next) + 1
      ensures old(Valid()) ==> (Valid() <==> old(next) + 1 < LSN_LIMIT)
      ensures ok ==> (Ordered(Log()) <==> Rising(old(Log()), old(next)))
      ensures ok <==> && record.kind in {1, 2, 3, 4, 5, 6, 7, 8, 9} && old(next) > 0 && record.timestamp > 0
                      && |old(buffer)| + 49 + |record.payload| <= capacity
      ensures pending == old(pending) + if ok then [record.(lsn := old(next))] else []
      ensures flushes == old(flushes) && lastFlushed == old(lastFlushed)
    {
      var r := record.(lsn := next);
      current := next;
      next := NextLsn(next);
      ok := r.Sound() && |buffer| + |Frame(r)| <= capacity;
      if ok {
        BufferedMore(Flatten(flushes), pending, buffer, r);
        buffer := buffer + Frame(r);
        pending := pending + [r];
      }
    }

    /** The log does not change, and nothing is left in the buffer. */
    method Flush()
      requires Framed()
      modifies this, file
      ensures Framed() && Log() == old(Log())
      ensures buffer == [] && pending == [] && lastFlushed == current
      ensures next == old(next) && current == old(current)
      ensures flushes == old(flushes) + if old(pending) == [] then [] else [old(pending)]
    {
      if buffer != [] {
        HoldsMore(header, file.bytes, flushes, pending);
        file.Append(buffer);
        flushes, pending, buffer := flushes + [pending], [], [];
      }
      lastFlushed := current;
    }

    /** Takes the LSNs up again from the file: the next one follows the last that can be read,
        if any can.  It is above every LSN of the log exactly when the last of the log is not
        above the last that can be read; when every flush can be read back, exactly when the
        buffer is empty or the file has no record. */
    method RestoreFromFile()
      requires Framed()
      modifies this`next, this`current, this`lastFlushed
      ensures Framed()
      ensures var last := LastLsn(ReadFile(file.bytes, HEADER).records);
        if last > 0 then next == NextLsn(last) && current == lastFlushed == last
        else next == old(next) && current == old(current) && lastFlushed == old(lastFlushed)
      ensures var last := LastLsn(ReadFile(file.bytes, HEADER).records);
        && (last > 0 && Ordered(Log()) ==> (Valid() <==> LastLsn(Log()) <= last && last + 1 < LSN_LIMIT))
        && (last == 0 ==> (Valid() <==> old(Valid())))
      ensures AllAligned(flushes) ==> ReadFile(file.bytes, HEADER).records == Flatten(flushes)
      ensures AllAligned(flushes) && Rising(Log(), old(next)) ==>
        (Rising(Log(), next) <==> pending == [] || Flatten(flushes) == [])
    {
      ghost var see := Seeing(file.bytes);
      var last := LastReadable(file, see);
      Restored(see, header, file.bytes, flushes, pending, next, last);
      if Ordered(Log()) { LastIsHighest(Log()); }
      if last > 0 { next, current, lastFlushed := NextLsn(last), last, last; }
    }
  }

  lemma LastIsHighest(rs: seq<LogRecord>)
    requires Ordered(rs)
    ensures forall n :: Below(rs, n) <==> rs == [] || LastLsn(rs) < n
  {
    forall n ensures Below(rs, n) <==> rs == [] || LastLsn(rs) < n {
      forall i | 0 <= i < |rs| ensures rs[i].lsn <= LastLsn(rs) {
        if i < |rs| - 1 { assert Precedes(rs, i, |rs| - 1); }
      }
    }
  }

  lemma Restored(see: Sight, header: seq<Byte>, bytes: seq<Byte>, flushes: seq<seq<LogRecord>>,
                 pending: seq<LogRecord>, next: nat, last: nat)
    requires Holds(header, bytes, flushes) && Shows(see, bytes)
    requires last == LastLsn(ReadAll(see, |bytes|, HEADER).records) && next < LSN_LIMIT
    ensures last == LastLsn(ReadFile(bytes, HEADER).records)
    ensures AllAligned(flushes) ==> ReadFile(bytes, HEADER).records == Flatten(flushes)
    ensures AllAligned(flushes) && Rising(Flatten(flushes) + pending, next) ==>
      var next' := if last > 0 then NextLsn(last) else next;
      (Rising(Flatten(flushes) + pending, next') <==> pending == [] || Flatten(flushes) == [])
  {
    SameScan(see, bytes);
    BatchesReadBack(see, bytes, header, flushes);
    LastLsnPositive(flushes);
    if Flatten(flushes) != [] && Rising(Flatten(flushes) + pending, next) {
      RestoredRising(Flatten(flushes), pending, next);
    }
  }

  lemma {:induction false} SameReads(see: Sight, see': Sight, file: seq<Byte>, size: nat, at: nat)
    requires Shows(see, file) && Shows(see', file)
    ensures ReadAll(see, size, at) == ReadAll(see', size, at)
    decreases size - at
  {
    assert Offset(at);
    assert see(at) == see'(at);
    if at < size && see(at).Some? && see(at).value.1 > 0 { SameReads(see, see', file, size, at + see(at).value.1); }
  }

  lemma SameScan(see: Sight, file: seq<Byte>)
    requires Shows(see, file)
    ensures ReadAll(see, |file|, HEADER) == ReadFile(file, HEADER)
  {
    SameReads(see, SightOf(file), file, |file|, HEADER);
  }

  // ---------------------------------------------------------------- an LSN handed out twice

  lemma {:induction false} HighByte(v: nat, n: nat, i: nat)
    requires v < Power256(i) && i < n
    ensures ToBytes(v, n)[i] == 0
    decreases n
  {
    if i == 0 { assert v == 0; } else { HighByte(v / 256, n - 1, i - 1); }
  }

  lemma FourZeros(b: seq<Byte>, at: nat)
    requires at + 4 <= |b| && b[at] == b[at + 1] == b[at + 2] == b[at + 3] == 0
    ensures Value(b, 4, at) == 0
  {
    assert Value(b, 1, at + 3) == 0 && Value(b, 2, at + 2) == 0 && Value(b, 3, at + 1) == 0;
  }

  /** Seven bytes into the frame of a record stand the third to sixth bytes of its LSN. */
  lemma LsnBytes(before: seq<Byte>, r: LogRecord, after: seq<Byte>, i: nat)
    requires r.Wire() && i < 4
    ensures (before + Frame(r) + after)[|before| + 7 + i] == ToBytes(r.lsn, 8)[2 + i]
  {
    assert (before + Frame(r) + after)[|before| + (7 + i)] == Frame(r)[7 + i] == Encode(r)[3 + i];
    FrontParts(r, Back(r) + r.payload);
    Regroup(Front(r), Back(r), r.payload);
    assert Encode(r)[1..9][2 + i] == Encode(r)[3 + i];
  }

  lemma NoSize(before: seq<Byte>, r: LogRecord, after: seq<Byte>)
    requires r.Wire() && r.lsn < 0x1_0000
    ensures Read(before + Frame(r) + after, |before| + 7) == None
  {
    var file, at := before + Frame(r) + after, |before| + 7;
    Widths();
    assert Power256(3) == 256 * Power256(2) && Power256(5) == 256 * Power256(4);
    HighByte(r.lsn, 8, 2);
    HighByte(r.lsn, 8, 3);
    HighByte(r.lsn, 8, 4);
    HighByte(r.lsn, 8, 5);
    LsnBytes(before, r, after, 0);
    LsnBytes(before, r, after, 1);
    LsnBytes(before, r, after, 2);
    LsnBytes(before, r, after, 3);
    FourZeros(file, at);
  }

  lemma TwoFrames(a: LogRecord, b: LogRecord)
    requires a.Wire() && b.Wire()
    ensures Frames([a, b]) == Frame(a) + Frame(b)
  {
    assert Frames([b]) == Frame(b) by { assert [b][1..] == [] && Frame(b) + Frames([]) == Frame(b); }
    assert [a, b][1..] == [b];
  }

  lemma OneRead(see: Sight, size: nat, at: nat, r: LogRecord, n: nat)
    requires at < size && n > 0 && see(at) == Some((r, n)) && see(at + n) == None
    ensures ReadAll(see, size, at) == Scan([r], at + n)
  {
    ReadOne(see, size, at);
    assert [r] + [] == [r];
  }

  lemma FlushedPair(header: seq<Byte>, a: LogRecord, u: LogRecord, pad: seq<Byte>)
    requires a.Wire() && u.Wire() && pad == Zeros(Padding(|Frame(a)| + |Frame(u)|))
    ensures header + Flushed([a, u]) == header + Frame(a) + (Frame(u) + pad)
    ensures header + Flushed([a, u]) == header + Frame(a) + Frame(u) + pad
  {
    TwoFrames(a, u);
    Regroup(header, Frame(a) + Frame(u), pad);
    Regroup(header, Frame(a), Frame(u));
    Regroup(header + Frame(a), Frame(u), pad);
  }

  lemma SecondUnseen(see: Sight, file: seq<Byte>, before: seq<Byte>, r: LogRecord, after: seq<Byte>)
    requires Shows(see, file) && r.Wire() && r.lsn < 0x1_0000 && file == before + Frame(r) + after
    ensures see(|before| + 7) == None
  {
    NoSize(before, r, after);
    assert Offset(|before| + 7);
  }

  lemma PairSeen(see: Sight, file: seq<Byte>, header: seq<Byte>, a: LogRecord, u: LogRecord, pad: seq<Byte>)
    requires Shows(see, file) && |header| == HEADER && a.Made() && a.payload == [] && u.Made() && u.lsn < 0x1_0000
    requires file == header + Frame(a) + (Frame(u) + pad) && file == header + Frame(a) + Frame(u) + pad
    ensures see(HEADER) == Some((a, 56)) && see(HEADER + 56) == None && HEADER < |file|
  {
    SeeFrame(see, file, header, a, Frame(u) + pad);
    SecondUnseen(see, file, header + Frame(a), u, pad);
  }

  /** Of a file that begins with an allocation and an update, as that of a new database does after
      its first insert, only the allocation can be read, whatever is written later. */
  lemma OnlyFirstRead(header: seq<Byte>, allocation: LogRecord, update: LogRecord, rest: seq<Byte>)
    requires |header| == HEADER && allocation.Made() && allocation.payload == []
    requires update.Made() && update.lsn < 0x1_0000
    ensures ReadFile(header + Frame(allocation) + Frame(update) + rest, HEADER) == Scan([allocation], HEADER + 56)
  {
    var file := header + Frame(allocation) + Frame(update) + rest;
    Regroup(header + Frame(allocation), Frame(update), rest);
    var see := Seeing(file);
    SameScan(see, file);
    PairSeen(see, file, header, allocation, update, rest);
    OneRead(see, |file|, HEADER, allocation, 56);
  }

  /** Of the first flush of a new database only the allocation can be read. */
  lemma FirstFlushRead(header: seq<Byte>, allocation: LogRecord, update: LogRecord)
    requires |header| == HEADER && allocation.Made() && allocation.payload == []
    requires update.Made() && update.lsn < 0x1_0000
    ensures ReadFile(header + Flushed([allocation, update]), HEADER).records == [allocation]
  {
    var pad := Zeros(Padding(|Frame(allocation)| + |Frame(update)|));
    FlushedPair(header, allocation, update, pad);
    OnlyFirstRead(header, allocation, update, pad);
  }

  /** A writer that reopens that file hands out the update's LSN a second time. */
  lemma FirstLsnTwice(header: seq<Byte>, allocation: LogRecord, update: LogRecord)
    requires |header| == HEADER && allocation.Made() && allocation.payload == []
    requires update.Made() && update.lsn == allocation.lsn + 1 < 0x1_0000
    ensures var file := header + Flushed([allocation, update]);
      && Holds(header, file, [[allocation, update]]) && Flatten([[allocation, update]]) == [allocation, update]
      && LastLsn(ReadFile(file, HEADER).records) + 1 == update.lsn
      && !Rising([allocation, update], update.lsn)
  {
    var bs: seq<seq<LogRecord>> := [[allocation, update]];
    FirstFlushRead(header, allocation, update);
    assert bs[1..] == [] && Image([]) == [] && Flatten([]) == [];
    assert Flushed(bs[0]) + [] == Flushed(bs[0]) && bs[0] + [] == bs[0];
    assert AllMade(bs[0]);
    assert [allocation, update][1].lsn == update.lsn;
  }
}
