/**
  A database over time: inserts, erases, checkpoints, log truncations, failed flushes and
  crashes, in every order.  The log is a sequence of records, of which the file part survives a
  crash and the buffered part may be lost; the tree is a map.
 */
module Durability {
  import opened Sequences
  import opened Options
  import opened PageReferences
  import opened Recovery

  /** Where the current call stands: its operation's record is at position `at` of the log. */
  datatype Phase =
    | Idle
    | Logged(at: nat, op: Body)
    | Flushed(at: nat, op: Body)
    | Marked
    | MarkFlushed

  datatype State = State(
    file: seq<Record>,       // survives a crash
    buffer: seq<Record>,     // appended, not yet flushed
    next: nat,               // the next LSN
    table: Table,            // the tree
    phase: Phase,
    acked: seq<(nat, Body)>  // operations whose call returned success, with their positions
  ) {
    function Log(): seq<Record> { file + buffer }
  }

  const INITIAL := State([], [], 1, map[], Idle, [])

  /** `before` and `after` count the structural records logged around an operation's own. */
  datatype Event =
    | Insert(key: Key, ref: PageReference, before: nat, after: nat)
    | Erase(key: Key, before: nat, after: nat)
    | Flush
    | Fail
    | Return
    | Mark
    | Truncate
    | Crash(survivors: nat)

  function Structurals(n: nat, lsn: nat): (r: seq<Record>)
    ensures |r| == n && forall i :: 0 <= i < n ==> r[i] == Record(lsn + i, Structural)
  {
    seq(n, i requires 0 <= i < n => Record(lsn + i, Structural))
  }

  /** The records of one operation, from LSN `lsn` on. */
  function Records(op: Body, lsn: nat, before: nat, after: nat): (r: seq<Record>)
    ensures |r| == before + 1 + after && r[before] == Record(lsn + before, op)
  {
    Structurals(before, lsn) + [Record(lsn + before, op)] + Structurals(after, lsn + before + 1)
  }

  function Appended(s: State, op: Body, before: nat, after: nat): State {
    s.(buffer := s.buffer + Records(op, s.next, before, after),
       next := s.next + before + 1 + after,
       phase := Logged(|s.Log()| + before, op))
  }

  /** The log up to and including the record with this LSN, or all of it. */
  function UpTo(log: seq<Record>, lsn: nat): seq<Record> {
    if log == [] then []
    else if log[0].lsn == lsn then [log[0]]
    else [log[0]] + UpTo(log[1..], lsn)
  }

  /** An insert needs an absent key and a valid reference, an erase a present key.  `Fail` is a
      call that ends without a successful flush, its records staying in the buffer. */
  function Step(s: State, e: Event): State {
    match e
    case Insert(k, r, before, after) =>
      if s.phase.Idle? && k !in s.table && r.IsValid()
      then Appended(s, Put(k, r), before, after).(table := s.table[k := r])
      else s
    case Erase(k, before, after) =>
      if s.phase.Idle? && k in s.table
      then Appended(s, Del(k), before, after).(table := s.table - {k})
      else s
    case Mark =>
      if s.phase.Idle?
      then s.(buffer := s.buffer + [Record(s.next, Checkpoint(s.table))], next := s.next + 1, phase := Marked)
      else s
    case Flush =>
      (match s.phase
       case Logged(at, op) => s.(file := s.Log(), buffer := [], phase := Flushed(at, op))
       case Marked => s.(file := s.Log(), buffer := [], phase := MarkFlushed)
       case _ => s)
    case Fail =>
      if s.phase.Logged? || s.phase.Marked? then s.(phase := Idle) else s
    case Return =>
      (match s.phase
       case Flushed(at, op) => s.(acked := s.acked + [(at, op)], phase := Idle)
       case MarkFlushed => s.(phase := Idle)
       case _ => s)
    case Truncate =>
      if s.phase.MarkFlushed? && s.next > 0
      then var kept := UpTo(s.file, s.next - 1); s.(file := kept, next := LastLsn(kept) + 1)
      else s
    case Crash(n) => Recovering(s, s.file + s.buffer[..if n <= |s.buffer| then n else |s.buffer|])
  }

  /** Opening the database again on a file. */
  function Recovering(s: State, file: seq<Record>): State {
    State(file, [], LastLsn(file) + 1, Recovered(file), Idle, s.acked)
  }

  function Run(s: State, events: seq<Event>): State {
    if events == [] then s else Step(Run(s, events[..|events| - 1]), events[|events| - 1])
  }

  // ---------------------------------------------------------------- the invariant

  predicate LogOk(log: seq<Record>, next: nat, table: Table) {
    Increasing(log) && LastLsn(log) < next && Faithful(log) && table == Replay(map[], log)
  }

  predicate Has(log: seq<Record>, x: (nat, Body)) {
    x.0 < |log| && log[x.0].body == x.1 && (x.1.Put? || x.1.Del?)
  }

  predicate PhaseOk(s: State) {
    match s.phase
    case Idle => true
    case Logged(at, op) => Has(s.Log(), (at, op))
    case Flushed(at, op) => s.buffer == [] && Has(s.file, (at, op))
    case Marked => s.Log() != [] && LastLsn(s.Log()) == s.next - 1
    case MarkFlushed => s.buffer == [] && s.file != [] && LastLsn(s.file) == s.next - 1
  }

  predicate AckedIn(acked: seq<(nat, Body)>, log: seq<Record>) {
    forall i :: 0 <= i < |acked| ==> Has(log, acked[i])
  }

  predicate Inv(s: State) { LogOk(s.Log(), s.next, s.table) && PhaseOk(s) && AckedIn(s.acked, s.file) }

  lemma LogExtends(log: seq<Record>, next: nat, table: Table, r: Record)
    requires LogOk(log, next, table) && r.lsn == next
    requires r.body.Checkpoint? ==> r.body.snapshot == table
    ensures LogOk(log + [r], next + 1, Apply(table, r.body)) && LastLsn(log + [r]) == next
  {
    var longer := log + [r];
    var n := |log|;
    assert longer[..n] == log;
    forall i, j | 0 <= i < j < |longer| ensures Before(longer, i, j) {
      if j < n {
        assert Before(log, i, j);
      } else if i < n - 1 {
        assert Before(log, i, n - 1);
      }
    }
    forall i | 0 <= i < |longer| ensures FaithfulAt(longer, i) {
      if i < |log| { assert longer[..i] == log[..i] && FaithfulAt(log, i); }
    }
  }

  lemma OneMoreStructural(log: seq<Record>, n: nat, lsn: nat)
    ensures log + Structurals(n + 1, lsn) == log + Structurals(n, lsn) + [Record(lsn + n, Structural)]
  {
    assert Structurals(n + 1, lsn) == Structurals(n, lsn) + [Record(lsn + n, Structural)];
  }

  lemma {:induction false} StructuralsExtend(log: seq<Record>, next: nat, table: Table, n: nat)
    requires LogOk(log, next, table)
    ensures LogOk(log + Structurals(n, next), next + n, table)
  {
    if n == 0 {
      assert log + Structurals(n, next) == log;
    } else {
      StructuralsExtend(log, next, table, n - 1);
      LogExtends(log + Structurals(n - 1, next), next + n - 1, table, Record(next + n - 1, Structural));
      OneMoreStructural(log, n - 1, next);
    }
  }

  lemma RecordsExtend(log: seq<Record>, next: nat, table: Table, op: Body, before: nat, after: nat)
    requires LogOk(log, next, table) && (op.Put? || op.Del?)
    ensures LogOk(log + Records(op, next, before, after), next + before + 1 + after, Apply(table, op))
  {
    var r := Record(next + before, op);
    StructuralsExtend(log, next, table, before);
    LogExtends(log + Structurals(before, next), next + before, table, r);
    StructuralsExtend(log + Structurals(before, next) + [r], next + before + 1, Apply(table, op), after);
    RecordsRegroup(log, op, next, before, after);
  }

  lemma RecordsRegroup(log: seq<Record>, op: Body, lsn: nat, before: nat, after: nat)
    ensures log + Records(op, lsn, before, after)
      == log + Structurals(before, lsn) + [Record(lsn + before, op)] + Structurals(after, lsn + before + 1)
  {
    var a, r, b := Structurals(before, lsn), [Record(lsn + before, op)], Structurals(after, lsn + before + 1);
    Regroup(log, a + r, b);
    Regroup(log, a, r);
  }

  lemma AppendedKeeps(s: State, op: Body, before: nat, after: nat)
    requires Inv(s) && (op.Put? || op.Del?)
    ensures Inv(Appended(s, op, before, after).(table := Apply(s.table, op)))
  {
    var more := Records(op, s.next, before, after);
    RecordsExtend(s.Log(), s.next, s.table, op, before, after);
    Regroup(s.file, s.buffer, more);
  }

  lemma {:induction false} PrefixOk(log: seq<Record>, next: nat, table: Table, n: nat)
    requires LogOk(log, next, table) && n <= |log|
    ensures LogOk(log[..n], LastLsn(log[..n]) + 1, Recovered(log[..n]))
  {
    forall i | 0 <= i < n ensures FaithfulAt(log[..n], i) {
      assert log[..n][..i] == log[..i] && FaithfulAt(log, i);
    }
    forall i, j | 0 <= i < j < n ensures Before(log[..n], i, j) { assert Before(log, i, j); }
    RecoveredIsReplay(log[..n]);
  }

  /** Truncating right after a checkpoint keeps every record. */
  lemma {:induction false} TruncateKeepsAll(log: seq<Record>)
    requires Increasing(log) && log != []
    ensures UpTo(log, LastLsn(log)) == log
  {
    var n := |log| - 1;
    if n > 0 {
      assert Before(log, 0, n) && Before(log, 0, 1);
      forall i, j | 0 <= i < j < n ensures Before(log[1..], i, j) { assert Before(log, i + 1, j + 1); }
      TruncateKeepsAll(log[1..]);
    }
  }

  lemma CrashKeeps(s: State, n: nat)
    requires Inv(s)
    ensures Inv(Step(s, Crash(n)))
  {
    var m := if n <= |s.buffer| then n else |s.buffer|;
    var file := s.file + s.buffer[..m];
    assert file == s.Log()[..|file|];
    PrefixOk(s.Log(), s.next, s.table, |file|);
    assert file + [] == file;
  }

  lemma MarkKeeps(s: State)
    requires Inv(s)
    ensures Inv(Step(s, Mark))
  {
    if s.phase.Idle? {
      var r := Record(s.next, Checkpoint(s.table));
      var log := s.Log();
      LogExtends(log, s.next, s.table, r);
      Regroup(s.file, s.buffer, [r]);
    }
  }

  lemma TruncateKeeps(s: State)
    requires Inv(s)
    ensures Step(s, Truncate) == s
  {
    if s.phase.MarkFlushed? {
      assert UpTo(s.file, s.next - 1) == s.file by {
        assert s.Log() == s.file;
        TruncateKeepsAll(s.file);
      }
    }
  }

  lemma FlushKeeps(s: State)
    requires Inv(s)
    ensures Inv(Step(s, Flush))
  {
    assert s.Log() + [] == s.Log();
    forall i | 0 <= i < |s.acked| ensures Has(s.Log(), s.acked[i]) { assert Has(s.file, s.acked[i]); }
  }

  lemma ReturnKeeps(s: State)
    requires Inv(s)
    ensures Inv(Step(s, Return))
  {
  }

  lemma StepKeeps(s: State, e: Event)
    requires Inv(s)
    ensures Inv(Step(s, e))
  {
    match e
    case Insert(k, r, before, after) => AppendedKeeps(s, Put(k, r), before, after);
    case Erase(k, before, after) => AppendedKeeps(s, Del(k), before, after);
    case Mark => MarkKeeps(s);
    case Flush => FlushKeeps(s);
    case Fail =>
    case Return => ReturnKeeps(s);
    case Truncate => TruncateKeeps(s);
    case Crash(n) => CrashKeeps(s, n);
  }

  lemma {:induction false} RunKeeps(events: seq<Event>)
    ensures Inv(Run(INITIAL, events))
  {
    if events != [] {
      RunKeeps(events[..|events| - 1]);
      StepKeeps(Run(INITIAL, events[..|events| - 1]), events[|events| - 1]);
    }
  }

  // ---------------------------------------------------------------- what survives

  /** After any run and a crash at any point, recovery brings back the map of a prefix of the
      log, and every operation whose call had returned success is in that prefix. */
  lemma AckedSurvive(events: seq<Event>, n: nat)
    ensures var s := Run(INITIAL, events);
      var after := Step(s, Crash(n));
      && s.table == Replay(map[], s.Log())
      && s.file <= after.file <= s.Log()
      && after.table == Replay(map[], after.file)
      && AckedIn(s.acked, after.file)
  {
    var s := Run(INITIAL, events);
    RunKeeps(events);
    CrashKeeps(s, n);
    var after := Step(s, Crash(n));
    assert after.Log() == after.file;
    assert after.file == s.Log()[..|after.file|];
    forall i | 0 <= i < |s.acked| ensures Has(after.file, s.acked[i]) { assert Has(s.file, s.acked[i]); }
  }

  /** The last logged operation on a key decides what the map shows for it. */
  lemma {:induction false} LastWriteWins(log: seq<Record>, i: nat)
    requires i < |log| && (log[i].body.Put? || log[i].body.Del?)
    requires forall j :: i < j < |log| ==> !Touches(log[j].body, log[i].body.key)
    ensures var t, k := Replay(map[], log), log[i].body.key;
      if log[i].body.Put? then k in t && Alike(t[k], log[i].body.ref) else k !in t
  {
    var n := |log| - 1;
    if i < n { LastWriteWins(log[..n], i); }
  }

  /** An acknowledged operation, after any crash, shows in the recovered map unless a later
      logged operation on its key survived too. */
  lemma AckedShows(events: seq<Event>, n: nat, a: nat)
    requires a < |Run(INITIAL, events).acked|
    ensures var s := Run(INITIAL, events);
      var (at, op) := s.acked[a];
      var after := Step(s, Crash(n));
      && Has(after.file, s.acked[a])
      && ((forall j :: at < j < |after.file| ==> !Touches(after.file[j].body, op.key))
          ==> if op.Put? then op.key in after.table && Alike(after.table[op.key], op.ref) else op.key !in after.table)
  {
    var s := Run(INITIAL, events);
    AckedSurvive(events, n);
    var after := Step(s, Crash(n));
    var (at, op) := s.acked[a];
    assert Has(after.file, s.acked[a]);
    if forall j :: at < j < |after.file| ==> !Touches(after.file[j].body, op.key) {
      LastWriteWins(after.file, at);
    }
  }

  // ---------------------------------------------------------------- the database

  function Call(s: State, e: Event, flushes: bool): State {
    if flushes then Step(Step(Step(s, e), Flush), Return) else Step(Step(s, e), Fail)
  }

  /** One database call is a run of three steps, or of two when its flush fails. */
  lemma CallIsRun(s: State, e: Event, flushes: bool)
    ensures Call(s, e, flushes) == Run(s, if flushes then [e, Flush, Return] else [e, Fail])
  {
    if flushes {
      assert [e, Flush, Return][..2] == [e, Flush];
    }
    assert [e, Flush][..1] == [e] && [e, Fail][..1] == [e] && [e][..0] == [];
    assert Run(s, [e]) == Step(s, e);
  }

  lemma CallKeeps(s: State, e: Event, flushes: bool)
    requires Inv(s)
    ensures Inv(Call(s, e, flushes))
  {
    StepKeeps(s, e);
    StepKeeps(Step(s, e), Flush);
    StepKeeps(Step(Step(s, e), Flush), Return);
    StepKeeps(Step(s, e), Fail);
  }

  /** The state a call leaves when it appended `more` and set the map to `t`. */
  function After(s: State, more: seq<Record>, t: Table, flushes: bool, acked: seq<(nat, Body)>): State {
    if flushes
    then State(s.file + (s.buffer + more), [], s.next + |more|, t, Idle, s.acked + acked)
    else State(s.file, s.buffer + more, s.next + |more|, t, Idle, s.acked)
  }

  lemma InsertCall(s: State, k: Key, r: PageReference, before: nat, after: nat, flushes: bool)
    requires s.phase.Idle?
    ensures Call(s, Insert(k, r, before, after), flushes) ==
      if k in s.table || !r.IsValid() then s
      else After(s, Records(Put(k, r), s.next, before, after), s.table[k := r], flushes,
                 [(|s.Log()| + before, Put(k, r))])
  {
  }

  lemma EraseCall(s: State, k: Key, before: nat, after: nat, flushes: bool)
    requires s.phase.Idle?
    ensures Call(s, Erase(k, before, after), flushes) ==
      if k !in s.table then s
      else After(s, Records(Del(k), s.next, before, after), s.table - {k}, flushes, [(|s.Log()| + before, Del(k))])
  {
  }

  lemma MarkCall(s: State, flushes: bool)
    requires s.phase.Idle?
    ensures Call(s, Mark, flushes) == After(s, [Record(s.next, Checkpoint(s.table))], s.table, flushes, [])
  {
  }

  lemma MarkLast(s: State)
    requires LogOk(s.Log(), s.next, s.table)
    ensures var log := s.file + (s.buffer + [Record(s.next, Checkpoint(s.table))]); UpTo(log, s.next) == log
  {
    var r := Record(s.next, Checkpoint(s.table));
    LogExtends(s.Log(), s.next, s.table, r);
    Regroup(s.file, s.buffer, [r]);
    TruncateKeepsAll(s.Log() + [r]);
  }

  /** Scans for the record with this LSN and cuts the log after it. */
  method TruncatedAfter(log: seq<Record>, lsn: nat) returns (kept: Option<seq<Record>>)
    ensures kept.None? <==> forall i :: 0 <= i < |log| ==> log[i].lsn != lsn
    ensures kept.Some? ==> kept.value == UpTo(log, lsn)
    ensures kept.Some? ==>
              var n := |kept.value| - 1;
              && 0 <= n < |log| && kept.value == log[..n + 1] && log[n].lsn == lsn
              && forall i :: 0 <= i < n ==> log[i].lsn != lsn
  {
    var i := 0;
    while i < |log|
      invariant 0 <= i <= |log|
      invariant forall j :: 0 <= j < i ==> log[j].lsn != lsn
      invariant log[..i] + UpTo(log[i..], lsn) == UpTo(log, lsn)
    {
      if log[i].lsn == lsn { return Some(log[..i + 1]); }
      assert log[i..][1..] == log[i + 1..];
      assert log[..i] + ([log[i]] + UpTo(log[i + 1..], lsn)) == log[..i + 1] + UpTo(log[i + 1..], lsn);
      i := i + 1;
    }
    return None;
  }

  class Database {
    var file: seq<Record>
    var buffer: seq<Record>
    var next: nat
    var table: Table
    ghost var acked: seq<(nat, Body)>

    ghost function View(): State
      reads this
    {
      State(file, buffer, next, table, Idle, acked)
    }

    ghost predicate Valid()
      reads this
    {
      Inv(View())
    }

    constructor ()
      ensures Valid() && View() == INITIAL
      ensures file == [] && buffer == [] && next == 1 && table == map[] && acked == []
    {
      file, buffer, next, table, acked := [], [], 1, map[], [];
    }

    method Append(b: Body)
      modifies this`buffer, this`next
      ensures buffer == old(buffer) + [Record(old(next), b)] && next == old(next) + 1
    {
      buffer := buffer + [Record(next, b)];
      next := next + 1;
    }

    method AppendStructurals(n: nat)
      modifies this`buffer, this`next
      ensures buffer == old(buffer) + Structurals(n, old(next)) && next == old(next) + n
    {
      for i := 0 to n
        invariant buffer == old(buffer) + Structurals(i, old(next)) && next == old(next) + i
      {
        OneMoreStructural(old(buffer), i, old(next));
        Append(Structural);
      }
    }

    method AppendOperation(op: Body, before: nat, after: nat)
      modifies this`buffer, this`next
      ensures buffer == old(buffer) + Records(op, old(next), before, after)
      ensures next == old(next) + before + 1 + after
    {
      AppendStructurals(before);
      Append(op);
      AppendStructurals(after);
    }

    method FlushBuffer()
      modifies this`file, this`buffer
      ensures file == old(file + buffer) && buffer == []
    {
      if buffer != [] { file, buffer := file + buffer, []; }
    }

    /** The operation's record is in the file, nothing is left in the buffer, and the call is
        recorded as having returned success. */
    twostate predicate Durable(op: Body, before: nat)
      reads this
    {
      var at := |old(file + buffer)| + before;
      && buffer == [] && old(file + buffer) <= file
      && at < |file| && file[at] == Record(old(next) + before, op)
      && acked == old(acked) + [(at, op)]
    }

    /** The operation's record is in the buffer, after what was there; the file and the
        successful calls are as they were. */
    twostate predicate Pending(op: Body, before: nat)
      reads this
    {
      var at := |old(buffer)| + before;
      && file == old(file) && acked == old(acked) && old(buffer) <= buffer
      && at < |buffer| && buffer[at] == Record(old(next) + before, op)
    }

    /** Logs an operation, sets the map and flushes; `flushes` is whether the flush succeeds. */
    method Perform(op: Body, before: nat, after: nat, t: Table, flushes: bool)
      modifies this
      ensures table == t && next == old(next) + before + 1 + after
      ensures if flushes then Durable(op, before) else Pending(op, before)
      ensures View() == After(old(View()), Records(op, old(next), before, after), t, flushes,
        [(|old(file + buffer)| + before, op)])
    {
      AppendOperation(op, before, after);
      table := t;
      if flushes {
        FlushBuffer();
        acked := acked + [(|old(file + buffer)| + before, op)];
      }
    }

    method Insert(k: Key, r: PageReference, before: nat, after: nat, flushes: bool) returns (ok: bool)
      requires Valid()
      modifies this
      ensures Valid()
      ensures View() == Call(old(View()), Event.Insert(k, r, before, after), flushes)
      ensures ok <==> r.IsValid() && k !in old(table) && flushes
      ensures if r.IsValid() && k !in old(table)
              then table == old(table)[k := r] && if ok then Durable(Put(k, r), before) else Pending(Put(k, r), before)
              else unchanged(this)
    {
      CallKeeps(View(), Event.Insert(k, r, before, after), flushes);
      InsertCall(View(), k, r, before, after, flushes);
      ok := r.IsValid() && k !in table;
      if ok {
        Perform(Put(k, r), before, after, table[k := r], flushes);
        ok := flushes;
      }
    }

    method Erase(k: Key, before: nat, after: nat, flushes: bool) returns (ok: bool)
      requires Valid()
      modifies this
      ensures Valid()
      ensures View() == Call(old(View()), Event.Erase(k, before, after), flushes)
      ensures ok <==> k in old(table) && flushes
      ensures if k in old(table)
              then table == old(table) - {k} && if ok then Durable(Del(k), before) else Pending(Del(k), before)
              else unchanged(this)
    {
      CallKeeps(View(), Event.Erase(k, before, after), flushes);
      EraseCall(View(), k, before, after, flushes);
      ok := k in table;
      if ok {
        Perform(Del(k), before, after, table - {k}, flushes);
        ok := flushes;
      }
    }

    /** Cuts the file after the last appended record and takes the writer back to its end;
        fails when the file has no such record. */
    method TruncateLog() returns (ok: bool)
      requires next > 0
      modifies this`file, this`next
      ensures ok <==> exists i :: 0 <= i < |old(file)| && old(file)[i].lsn == old(next) - 1
      ensures ok ==> file == UpTo(old(file), old(next) - 1) && next == LastLsn(file) + 1
      ensures !ok ==> file == old(file) && next == old(next)
    {
      var kept := TruncatedAfter(file, next - 1);
      ok := kept.Some?;
      if ok {
        file := kept.value;
        var current := MaxLsn(file);
        next := current + 1;
      }
    }

    method WriteCheckpoint(truncate: bool, flushes: bool)
      requires var f := file + (buffer + [Record(next, Body.Checkpoint(table))]); UpTo(f, next) == f
      modifies this
      ensures View() == After(old(View()), [Record(old(next), Body.Checkpoint(old(table)))], old(table), flushes, [])
    {
      Append(Body.Checkpoint(table));
      if flushes {
        FlushBuffer();
        if truncate {
          assert file[|file| - 1].lsn == next - 1;
          var ok := TruncateLog();
        }
      }
    }

    /** Truncating changes nothing. */
    method Checkpoint(truncate: bool, flushes: bool) returns (ok: bool)
      requires Valid()
      modifies this
      ensures Valid()
      ensures View() == Call(old(View()), Mark, flushes)
      ensures ok == flushes && table == old(table) && next == old(next) + 1 && acked == old(acked)
      ensures var marker := [Record(old(next), Body.Checkpoint(table))];
              if ok then file == old(file + buffer) + marker && buffer == []
              else file == old(file) && buffer == old(buffer) + marker
    {
      CallKeeps(View(), Mark, flushes);
      MarkCall(View(), flushes);
      MarkLast(View());
      WriteCheckpoint(truncate, flushes);
      ok := flushes;
    }

    /** The process dies with `survivors` of the buffered records written, and reopens. */
    method Reopen(survivors: nat)
      requires Valid()
      modifies this
      ensures Valid()
      ensures View() == Step(old(View()), Crash(survivors))
      ensures file == old(file) + old(buffer)[..if survivors <= |old(buffer)| then survivors else |old(buffer)|]
      ensures buffer == [] && table == Replay(map[], file) && next == LastLsn(file) + 1 && acked == old(acked)
    {
      CrashKeeps(View(), survivors);
      file := file + buffer[..if survivors <= |buffer| then survivors else |buffer|];
      buffer := [];
      assert file + buffer == file;
      RecoveredIsReplay(file);
      var t, current := Recover(file);
      table, next := t, current + 1;
    }
  }

  /** An erase that returned success, and then a crash: the key is gone, and nothing else is. */
  method EraseThenReopen(db: Database, k: Key, before: nat, after: nat, flushes: bool, survivors: nat)
    returns (ok: bool)
    requires db.Valid()
    modifies db
    ensures db.Valid() && (ok <==> k in old(db.table) && flushes)
    ensures ok ==> k !in db.table && db.table == old(db.table) - {k}
  {
    ok := db.Erase(k, before, after, flushes);
    assert ok ==> db.file + db.buffer == db.file;
    db.Reopen(survivors);
  }

  /** An insert that returned success, and then a crash. */
  method InsertThenReopen(db: Database, k: Key, r: PageReference, before: nat, after: nat, flushes: bool,
                          survivors: nat)
    returns (ok: bool)
    requires db.Valid()
    modifies db
    ensures db.Valid() && (ok <==> r.IsValid() && k !in old(db.table) && flushes)
    ensures ok ==> k in db.table && Alike(db.table[k], r) && db.table == old(db.table)[k := r]
  {
    ok := db.Insert(k, r, before, after, flushes);
    assert ok ==> db.file + db.buffer == db.file;
    db.Reopen(survivors);
  }

  /** A checkpoint that returned success ends the file, and opening on it restores its map. */
  method CheckpointThenReopen(db: Database, truncate: bool, flushes: bool, survivors: nat) returns (ok: bool)
    requires db.Valid()
    modifies db
    ensures db.Valid() && ok == flushes
    ensures ok ==> && db.table == old(db.table) && db.file != []
                   && db.file[|db.file| - 1] == Record(old(db.next), Checkpoint(db.table))
  {
    ok := db.Checkpoint(truncate, flushes);
    assert ok ==> db.file + db.buffer == db.file;
    db.Reopen(survivors);
  }
}
