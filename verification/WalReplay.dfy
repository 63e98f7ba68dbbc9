/**
  Recovery from the bytes of a log file: the payloads of the records, and what replaying the
  records that can be read comes to.
 */
module WalReplay {
  import opened Sequences
  import opened Options
  import opened PageReferences
  import opened Bytes
  import opened LogFormat
  import LogFiles
  import Keys
  import NodePages
  import Snapshots
  import opened Recovery
  import Durability

  const PAGE_UPDATE := 2
  const PAGE_DELETE := 3
  const CHECKPOINT_MARKER := 9

  /** The payload of an insert; of an erase, which has no reference, only the key. */
  function UpdatePayload(k: Keys.Key, r: PageReference): seq<Byte>
    requires k.Valid() && NodePages.Wire(r)
  {
    Keys.Encode(k) + if r.IsValid() then NodePages.EncodeReference(r) else []
  }

  /** What the pages of a tree mean as a map. */
  type Meaning = Snapshots.Tree -> Table

  /** What recovery makes of a record, or that it fails: a checkpoint is the map of the tree that
      its payload restores. */
  function BodyOf(r: LogRecord, mapOf: Meaning): Option<Body> {
    if r.kind == PAGE_UPDATE then
      match Keys.Decode(r.payload, 0, 0)
      case None => None
      case Some(k) =>
        if Keys.Size(k) + NodePages.REFERENCE > |r.payload| then None
        else Some(Put(Keys.Rank(k), NodePages.DecodeReference(r.payload, Keys.Size(k))))
    else if r.kind == PAGE_DELETE then
      match Keys.Decode(r.payload, 0, 0)
      case None => None
      case Some(k) => Some(Del(Keys.Rank(k)))
    else if r.kind == CHECKPOINT_MARKER then
      match Snapshots.Restored(r.payload)
      case None => None
      case Some(t) => Some(Checkpoint(mapOf(t)))
    else if 1 <= r.kind <= 8 then Some(Structural)
    else None
  }

  /** An insert's record says what was inserted, reference and all. */
  lemma UpdateBack(r: LogRecord, k: Keys.Key, ref: PageReference, mapOf: Meaning)
    requires k.Valid() && NodePages.Wire(ref) && ref.IsValid()
    requires r.kind == 2 && r.payload == UpdatePayload(k, ref)
    ensures BodyOf(r, mapOf) == Some(Put(Keys.Rank(k), ref))
  {
    KeyFirst(k, NodePages.EncodeReference(ref));
    ReferenceNext(Keys.Encode(k), ref);
  }

  lemma KeyFirst(k: Keys.Key, rest: seq<Byte>)
    requires k.Valid()
    ensures Keys.Decode(Keys.Encode(k) + rest, 0, 0) == Some(k)
  {
    Keys.DecodeEncode([], k, rest, 0);
    assert [] + Keys.Encode(k) + rest == Keys.Encode(k) + rest;
  }

  lemma ReferenceNext(before: seq<Byte>, ref: PageReference)
    requires NodePages.Wire(ref)
    ensures NodePages.DecodeReference(before + NodePages.EncodeReference(ref), |before|) == ref
  {
    var b := before + NodePages.EncodeReference(ref);
    assert b[|before|..|before| + NodePages.REFERENCE] == NodePages.EncodeReference(ref);
    NodePages.ReferenceBack(b, |before|, ref);
  }

  /** An erase's record says what was erased. */
  lemma DeleteBack(r: LogRecord, k: Keys.Key, mapOf: Meaning)
    requires k.Valid() && r.kind == 3 && r.payload == Keys.Encode(k)
    ensures BodyOf(r, mapOf) == Some(Del(Keys.Rank(k)))
  {
    KeyFirst(k, []);
    assert Keys.Encode(k) + [] == r.payload;
  }

  /** A checkpoint's record is the map of the tree that was checkpointed, whatever the order of
      its pages. */
  lemma CheckpointBack(r: LogRecord, t: Snapshots.Tree, ps: seq<Snapshots.Page>, lsn: nat, mapOf: Meaning)
    requires r.kind == 9 && Snapshots.Checkpoints(r.payload, t, ps, lsn)
    ensures BodyOf(r, mapOf) == Some(Checkpoint(mapOf(t)))
  {
    Snapshots.RestoredBack(r.payload, t, ps, lsn);
  }

  /** The other records change no map. */
  lemma StructuralBack(r: LogRecord, mapOf: Meaning)
    requires r.kind in {1, 4, 5, 6, 7, 8}
    ensures BodyOf(r, mapOf) == Some(Structural)
  {
  }

  /** The log that these records are, if replay can make sense of all of them. */
  function LogOf(rs: seq<LogRecord>, mapOf: Meaning): Option<seq<Record>> {
    if rs == [] then Some([]) else
    match (LogOf(rs[..|rs| - 1], mapOf), BodyOf(rs[|rs| - 1], mapOf))
    case (Some(log), Some(b)) => Some(log + [Record(rs[|rs| - 1].lsn, b)])
    case _ => None
  }

  /** What recovery gets out of the bytes of a log file. */
  function RecoveredFrom(file: seq<Byte>, mapOf: Meaning): Option<Table> {
    match LogOf(ReadFile(file, HEADER).records, mapOf)
    case None => None
    case Some(log) => Some(Recovered(log))
  }

  /** The log half of the validation that closes a recovery. */
  predicate LogAccepted(file: seq<Byte>) {
    var s := ReadFile(file, HEADER);
    s.end >= |file| && LogFiles.Acceptable(s.records)
  }

  lemma {:induction false} LogOfLsns(rs: seq<LogRecord>, mapOf: Meaning)
    requires LogOf(rs, mapOf).Some?
    ensures var log := LogOf(rs, mapOf).value;
      |log| == |rs| && forall i :: 0 <= i < |rs| ==> log[i].lsn == rs[i].lsn
  {
    if rs != [] { LogOfLsns(rs[..|rs| - 1], mapOf); }
  }

  lemma {:induction false} FlattenMade(bs: seq<seq<LogRecord>>)
    requires AllBatchesMade(bs)
    ensures AllMade(Flatten(bs))
  {
    if bs != [] { FlattenMade(bs[1..]); }
  }

  lemma RecordsAccepted(bs: seq<seq<LogRecord>>, mapOf: Meaning, log: seq<Record>)
    requires AllBatchesMade(bs) && LogOf(Flatten(bs), mapOf) == Some(log) && Increasing(log)
    ensures LogFiles.Acceptable(Flatten(bs))
  {
    var rs := Flatten(bs);
    FlattenMade(bs);
    LogOfLsns(rs, mapOf);
    forall i, j | 0 <= i < j < |rs| ensures LogFiles.Precedes(rs, i, j) { assert Before(log, i, j); }
  }

  /** When every flush can be read back, recovery from the bytes is recovery from the records:
      after any run, it has every acknowledged operation, and the log passes validation. */
  lemma BytesSurvive(events: seq<Durability.Event>, header: seq<Byte>, bs: seq<seq<LogRecord>>,
                     mapOf: Meaning)
    requires |header| == HEADER && AllBatchesMade(bs) && AllAligned(bs)
    requires LogOf(Flatten(bs), mapOf) == Some(Durability.Run(Durability.INITIAL, events).file)
    ensures var s := Durability.Run(Durability.INITIAL, events);
      && RecoveredFrom(header + Image(bs), mapOf) == Some(Replay(map[], s.file))
      && Durability.AckedIn(s.acked, s.file) && LogAccepted(header + Image(bs))
  {
    BytesAreRecords(header, bs, mapOf);
    FileSurvives(events);
    RecordsAccepted(bs, mapOf, Durability.Run(Durability.INITIAL, events).file);
  }

  lemma BytesAreRecords(header: seq<Byte>, bs: seq<seq<LogRecord>>, mapOf: Meaning)
    requires |header| == HEADER && AllBatchesMade(bs) && AllAligned(bs)
    ensures RecoveredFrom(header + Image(bs), mapOf) ==
            match LogOf(Flatten(bs), mapOf) case None => None case Some(log) => Some(Recovered(log))
    ensures LogFiles.Acceptable(Flatten(bs)) ==> LogAccepted(header + Image(bs))
  {
    FlushesReadBack(header, bs);
  }

  lemma FileSurvives(events: seq<Durability.Event>)
    ensures var s := Durability.Run(Durability.INITIAL, events);
      Recovered(s.file) == Replay(map[], s.file) && Durability.AckedIn(s.acked, s.file) && Increasing(s.file)
  {
    var s := Durability.Run(Durability.INITIAL, events);
    Durability.AckedSurvive(events, 0);
    assert s.file + s.buffer[..0] == s.file;
    Durability.RunKeeps(events);
    IncreasingPrefix(s.file, s.buffer);
  }

  lemma IncreasingPrefix(a: seq<Record>, b: seq<Record>)
    requires Increasing(a + b)
    ensures Increasing(a)
  {
    if a != [] { assert (a + b)[0] == a[0]; }
    forall i, j | 0 <= i < j < |a| ensures Before(a, i, j) { assert Before(a + b, i, j); }
  }

  /** After the first insert into a new database has been flushed, whatever is logged later,
      recovery from the bytes gives the empty map, and then the validation of the log fails. */
  lemma NothingRecovered(header: seq<Byte>, allocation: LogRecord, update: LogRecord, rest: seq<Byte>,
                         mapOf: Meaning)
    requires |header| == HEADER && allocation.Made() && allocation.kind == 6 && allocation.payload == []
    requires update.Made() && update.lsn < 0x1_0000
    ensures RecoveredFrom(header + Frame(allocation) + Frame(update) + rest, mapOf) == Some(map[])
    ensures !LogAccepted(header + Frame(allocation) + Frame(update) + rest)
  {
    LogFiles.OnlyFirstRead(header, allocation, update, rest);
    var rs, log := [allocation], [Record(allocation.lsn, Structural)];
    assert rs[..0] == [] && log[..0] == [] && [] + [Record(allocation.lsn, Structural)] == log;
    assert LogOf(rs, mapOf) == Some(log);
    assert LastCheckpoint(log) == None && ReplayAfter(map[], log, 0) == map[];
  }

  /** The first insert: acknowledged, in the log, in the table, and gone after recovery from the
      bytes. */
  lemma FirstInsertGone(header: seq<Byte>, allocation: LogRecord, update: LogRecord, k: Keys.Key, ref: PageReference,
                        mapOf: Meaning)
    requires |header| == HEADER && k.Valid() && NodePages.Wire(ref) && ref.IsValid()
    requires allocation.Made() && allocation.kind == 6 && allocation.payload == [] && allocation.lsn == 1
    requires update.Made() && update.kind == PAGE_UPDATE && update.payload == UpdatePayload(k, ref) && update.lsn == 2
    ensures var s := FirstInsert(Keys.Rank(k), ref);
      && s.acked == [(1, Put(Keys.Rank(k), ref))] && s.table == map[Keys.Rank(k) := ref]
      && LogOf([allocation, update], mapOf) == Some(s.file)
      && RecoveredFrom(header + Flushed([allocation, update]), mapOf) == Some(map[])
      && !LogAccepted(header + Flushed([allocation, update]))
  {
    var rank, rs := Keys.Rank(k), [allocation, update];
    FirstInsertRun(rank, ref);
    UpdateBack(update, k, ref, mapOf);
    assert rs[..1] == [allocation] && [allocation][..0] == [];
    assert LogOf([allocation], mapOf) == Some([] + [Record(1, Structural)]);
    assert [] + [Record(1, Structural)] + [Record(2, Put(rank, ref))] ==
           [Record(1, Structural), Record(2, Put(rank, ref))];
    var pad := Zeros(Padding(|Frame(allocation)| + |Frame(update)|));
    LogFiles.FlushedPair(header, allocation, update, pad);
    NothingRecovered(header, allocation, update, pad, mapOf);
  }

  /** The state after a first insert that succeeded. */
  function FirstInsert(rank: Key, ref: PageReference): Durability.State {
    Durability.Run(Durability.INITIAL, [Durability.Insert(rank, ref, 1, 0), Durability.Flush, Durability.Return])
  }

  lemma FirstInsertRun(rank: Key, ref: PageReference)
    requires ref.IsValid()
    ensures var s := FirstInsert(rank, ref);
      && s.acked == [(1, Put(rank, ref))] && s.table == map[rank := ref]
      && s.file == [Record(1, Structural), Record(2, Put(rank, ref))]
  {
    var es := [Durability.Insert(rank, ref, 1, 0), Durability.Flush, Durability.Return];
    var s0 := Durability.INITIAL;
    assert es[..2] == [es[0], es[1]] && es[..2][..1] == [es[0]] && es[..2][..1][..0] == [];
    var s1 := Durability.Step(s0, es[0]);
    var s2 := Durability.Step(s1, es[1]);
    assert Durability.Run(s0, es[..2][..1]) == s1;
    assert Durability.Run(s0, es[..2]) == s2;
    assert Durability.Run(s0, es) == Durability.Step(s2, es[2]);
    assert s2.file == [Record(1, Structural), Record(2, Put(rank, ref))];
  }
}
