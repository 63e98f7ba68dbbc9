/** Reading a log record by record, and seeking an LSN. */
module LogReaders {
  import opened Sequences
  import opened Options
  import opened Bytes
  import opened LogFormat
  import opened LogFiles

  datatype ReadStatus = Got(record: LogRecord) | End | Unreadable | Invalid | OutOfOrder

  /** The distance of record i from the first. */
  function Start(rs: seq<LogRecord>, i: nat): nat
    requires i <= |rs|
  {
    PaddedSizes(rs[..i])
  }

  lemma {:induction false} StartNext(rs: seq<LogRecord>, i: nat)
    requires i < |rs|
    ensures Start(rs, i + 1) == Start(rs, i) + PaddedSize(rs[i])
    decreases i
  {
    if i == 0 {
      assert rs[..1] == [rs[0]] && rs[..0] == [];
    } else {
      StartNext(rs[1..], i - 1);
      assert rs[..i + 1][1..] == rs[1..][..i] && rs[..i][1..] == rs[1..][..i - 1];
    }
  }

  lemma {:induction false} RowAt(see: Sight, at: nat, rs: seq<LogRecord>, i: nat)
    requires InRow(see, at, rs) && i < |rs|
    ensures see(at + Start(rs, i)) == Some((rs[i], PaddedSize(rs[i])))
    decreases i
  {
    if i == 0 {
      assert rs[..0] == [];
    } else {
      RowAt(see, at + PaddedSize(rs[0]), rs[1..], i - 1);
      assert rs[..i][1..] == rs[1..][..i - 1];
    }
  }

  /** A file in which these records, in LSN order, can be read one after another. */
  ghost predicate Readable(see: Sight, size: nat, rs: seq<LogRecord>) {
    InRow(see, HEADER, rs) && HEADER + PaddedSizes(rs) == size && AllMade(rs) && Ordered(rs)
  }

  lemma {:induction false} ImagePadded(bs: seq<seq<LogRecord>>)
    requires AllBatchesMade(bs) && AllAligned(bs)
    ensures AllMade(Flatten(bs)) && Image(bs) == Padded(Flatten(bs))
  {
    if bs != [] {
      ImagePadded(bs[1..]);
      AlignedFlush(bs[0]);
      PaddedConcat(bs[0], Flatten(bs[1..]));
    }
  }

  lemma {:induction false} PaddedConcat(a: seq<LogRecord>, b: seq<LogRecord>)
    requires AllWire(a) && AllWire(b)
    ensures AllWire(a + b) && Padded(a + b) == Padded(a) + Padded(b)
  {
    if a == [] {
      assert a + b == b;
    } else {
      PaddedConcat(a[1..], b);
      assert (a + b)[1..] == a[1..] + b;
      Regroup(PaddedFrame(a[0]), Padded(a[1..]), Padded(b));
    }
  }

  /** What a writer left in a file, flushed in aligned batches, is readable. */
  lemma WrittenReadable(see: Sight, header: seq<Byte>, bytes: seq<Byte>, flushes: seq<seq<LogRecord>>, next: nat)
    requires Holds(header, bytes, flushes) && AllAligned(flushes) && Rising(Flatten(flushes), next) && Shows(see, bytes)
    ensures Readable(see, |bytes|, Flatten(flushes))
  {
    ImagePadded(flushes);
    assert bytes == header + Image(flushes) + [];
    PaddedInRow(see, bytes, header, Flatten(flushes), []);
  }

  class LogReader {
    const file: LogFile
    var offset: nat
    var lastLsn: nat
    var endOfLog: bool

    /** Positioned before record i of a readable file. */
    ghost predicate Before(rs: seq<LogRecord>, i: nat)
      reads this
    {
      && i <= |rs|
      && offset == HEADER + Start(rs, i)
      && (i < |rs| ==> lastLsn < rs[i].lsn)
      && (endOfLog ==> i == |rs|)
    }

    constructor (file: LogFile)
      ensures this.file == file && offset == 16 && lastLsn == 0 && !endOfLog
    {
      this.file, offset, lastLsn, endOfLog := file, HEADER, 0, false;
    }

    method Rewind()
      modifies this
      ensures offset == 16 && lastLsn == 0 && !endOfLog
    {
      offset, lastLsn, endOfLog := HEADER, 0, false;
    }

    /** Only a record that is returned moves the reader.  On a readable file that is always the
        next record, until the end. */
    method ReadNext(ghost see: Sight, ghost rs: seq<LogRecord>, ghost i: nat) returns (s: ReadStatus)
      requires Shows(see, file.bytes)
      modifies this
      ensures s.End? <==> old(endOfLog || offset >= |file.bytes|)
      ensures s.Unreadable? <==> !s.End? && see(old(offset)).None?
      ensures s.Invalid? <==>
        && !s.End? && !s.Unreadable?
        && var r := see(old(offset)).value.0; !(r.kind in {1, 2, 3, 4, 5, 6, 7, 8, 9} && r.lsn > 0 && r.timestamp > 0)
      ensures s.OutOfOrder? <==>
        !s.End? && !s.Unreadable? && !s.Invalid? && 0 < old(lastLsn) && see(old(offset)).value.0.lsn <= old(lastLsn)
      ensures s.Got? ==>
        && s.record == see(old(offset)).value.0 && lastLsn == s.record.lsn
        && offset == old(offset) + see(old(offset)).value.1
      ensures !s.Got? ==> offset == old(offset) && lastLsn == old(lastLsn)
      ensures endOfLog <==> s.End? || s.Unreadable?
      ensures Readable(see, |file.bytes|, rs) && old(Before(rs, i)) ==>
        if i < |rs| then s == Got(rs[i]) && Before(rs, i + 1) else s == End && Before(rs, i)
    {
      if Readable(see, |file.bytes|, rs) && Before(rs, i) { NextInRow(see, |file.bytes|, rs, i); }
      if endOfLog { return End; }
      if offset >= |file.bytes| {
        endOfLog := true;
        return End;
      }
      var r := file.ReadRecord(offset, see);
      if r.None? {
        endOfLog := true;
        return Unreadable;
      }
      var (record, n) := r.value;
      if !record.Sound() { return Invalid; }
      if lastLsn > 0 && record.lsn <= lastLsn { return OutOfOrder; }
      lastLsn := record.lsn;
      offset := offset + n;
      return Got(record);
    }

    /** Reads a log from its start until a read fails, as checkpoint search and replay do. */
    method ReadLog(ghost see: Sight, ghost rs: seq<LogRecord>) returns (records: seq<LogRecord>)
      requires Shows(see, file.bytes) && Readable(see, |file.bytes|, rs)
      modifies this
      ensures records == rs
    {
      Rewind();
      StartsFirst(rs);
      records := [];
      var s := ReadNext(see, rs, 0);
      while s.Got?
        invariant |records| <= |rs| && records == rs[..|records|]
        invariant if |records| < |rs| then s == Got(rs[|records|]) && Before(rs, |records| + 1) else s == End
        decreases |rs| - |records|
      {
        records := records + [s.record];
        s := ReadNext(see, rs, |records|);
      }
    }

    /** Succeeds exactly when a record has the LSN, and then that record is read next. */
    method SeekLsn(lsn: nat, ghost see: Sight, ghost rs: seq<LogRecord>) returns (ok: bool, ghost at: nat)
      requires Shows(see, file.bytes) && Readable(see, |file.bytes|, rs)
      modifies this
      ensures ok <==> exists i :: 0 <= i < |rs| && rs[i].lsn == lsn
      ensures ok ==> at < |rs| && rs[at].lsn == lsn && Before(rs, at)
    {
      Rewind();
      StartsFirst(rs);
      at := 0;
      while !endOfLog
        invariant Before(rs, at)
        invariant forall i :: 0 <= i < at ==> rs[i].lsn < lsn
        decreases |rs| - at, !endOfLog
      {
        var start := offset;
        var s := ReadNext(see, rs, at);
        if !s.Got? { break; }
        if s.record.lsn == lsn {
          offset, lastLsn, endOfLog := start, if lsn > 1 then lsn - 1 else 0, false;
          return true, at;
        }
        if s.record.lsn > lsn {
          LaterLsns(rs, at);
          return false, at;
        }
        at := at + 1;
      }
      return false, at;
    }
  }

  lemma StartsFirst(rs: seq<LogRecord>)
    ensures Start(rs, 0) == 0
  {
    assert rs[..0] == [];
  }

  lemma LaterLsns(rs: seq<LogRecord>, at: nat)
    requires Ordered(rs) && at < |rs|
    ensures forall i :: at <= i < |rs| ==> rs[at].lsn <= rs[i].lsn
  {
    forall i | at <= i < |rs| ensures rs[at].lsn <= rs[i].lsn { if at < i { assert Precedes(rs, at, i); } }
  }

  lemma NextInRow(see: Sight, size: nat, rs: seq<LogRecord>, i: nat)
    requires Readable(see, size, rs) && i <= |rs|
    ensures i < |rs| ==>
      && HEADER + Start(rs, i) < size
      && see(HEADER + Start(rs, i)) == Some((rs[i], PaddedSize(rs[i])))
      && Start(rs, i + 1) == Start(rs, i) + PaddedSize(rs[i])
    ensures i + 1 < |rs| ==> rs[i].lsn < rs[i + 1].lsn
    ensures i == |rs| ==> HEADER + Start(rs, i) == size
  {
    if i < |rs| {
      RowAt(see, HEADER, rs, i);
      StartNext(rs, i);
      StartGrows(rs, i);
      if i + 1 < |rs| { assert Precedes(rs, i, i + 1); }
    } else {
      assert rs[..i] == rs;
    }
  }

  lemma {:induction false} StartGrows(rs: seq<LogRecord>, i: nat)
    requires i < |rs|
    ensures Start(rs, i) < PaddedSizes(rs)
    decreases |rs| - i
  {
    StartNext(rs, i);
    if i + 1 < |rs| { StartGrows(rs, i + 1); } else { assert rs[..i + 1] == rs; }
  }
}
