/**
  Logging, checkpoints, crashes and recovery, with the log as a sequence of records and the
  tree as a map.
 */
module Recovery {
  import opened Options
  import opened PageReferences

  type Key = int

  type Table = map<Key, PageReference>

  datatype Body = Put(key: Key, ref: PageReference) | Del(key: Key) | Checkpoint(snapshot: Table) | Structural

  datatype Record = Record(lsn: nat, body: Body)

  // ---------------------------------------------------------------- replay

  /** Applying one record.  An equal reference is left alone, even when its uncompared fields
      differ. */
  function Apply(t: Table, b: Body): Table {
    match b
    case Put(k, r) => if k in t && t[k].Same(r) then t else t[k := r]
    case Del(k) => t - {k}
    case Checkpoint(_) => t
    case Structural => t
  }

  function Replay(t: Table, log: seq<Record>): Table {
    if log == [] then t else Apply(Replay(t, log[..|log| - 1]), log[|log| - 1].body)
  }

  /** The records a recovery replays: later than `after`, and no checkpoints. */
  function ReplayAfter(t: Table, log: seq<Record>, after: nat): Table {
    if log == [] then t else
    var n := |log| - 1;
    var before := ReplayAfter(t, log[..n], after);
    if log[n].lsn <= after || log[n].body.Checkpoint? then before else Apply(before, log[n].body)
  }

  /** The last checkpoint, if any. */
  function LastCheckpoint(log: seq<Record>): (i: Option<nat>)
    ensures i.Some? ==> i.value < |log| && log[i.value].body.Checkpoint?
    ensures forall j :: (if i.Some? then i.value + 1 else 0) <= j < |log| ==> !log[j].body.Checkpoint?
  {
    if log == [] then None
    else if log[|log| - 1].body.Checkpoint? then Some(|log| - 1)
    else LastCheckpoint(log[..|log| - 1])
  }

  function Recovered(log: seq<Record>): Table {
    match LastCheckpoint(log)
    case None => ReplayAfter(map[], log, 0)
    case Some(i) => ReplayAfter(log[i].body.snapshot, log, log[i].lsn)
  }

  predicate Before(log: seq<Record>, i: nat, j: nat)
    requires i < |log| && j < |log|
  {
    log[i].lsn < log[j].lsn
  }

  predicate Increasing(log: seq<Record>) {
    && (log != [] ==> log[0].lsn > 0)
    && (forall i, j :: 0 <= i < j < |log| ==> Before(log, i, j))
  }

  predicate FaithfulAt(log: seq<Record>, i: nat)
    requires i < |log|
  {
    log[i].body.Checkpoint? ==> log[i].body.snapshot == Replay(map[], log[..i])
  }

  /** Every checkpoint holds the map of the records before it. */
  predicate Faithful(log: seq<Record>) { forall i :: 0 <= i < |log| ==> FaithfulAt(log, i) }

  lemma {:induction false} SkipEarly(t: Table, log: seq<Record>, after: nat)
    requires forall i :: 0 <= i < |log| ==> log[i].lsn <= after
    ensures ReplayAfter(t, log, after) == t
  {
    if log != [] { SkipEarly(t, log[..|log| - 1], after); }
  }

  /** Replay from record c on, from the map of the first c records, is replay of it all. */
  lemma {:induction false} ReplayFrom(log: seq<Record>, c: nat, after: nat)
    requires c <= |log|
    requires forall i :: 0 <= i < |log| ==> (log[i].lsn <= after <==> i < c)
    ensures ReplayAfter(Replay(map[], log[..c]), log, after) == Replay(map[], log)
  {
    if c == |log| {
      SkipEarly(Replay(map[], log[..c]), log, after);
      assert log[..c] == log;
    } else {
      var n := |log| - 1;
      ReplayFrom(log[..n], c, after);
      assert log[..n][..c] == log[..c];
    }
  }

  /** Restoring the last checkpoint and replaying what follows gives the map of the whole log. */
  lemma RecoveredIsReplay(log: seq<Record>)
    requires Increasing(log) && Faithful(log)
    ensures Recovered(log) == Replay(map[], log)
  {
    forall i | 0 <= i < |log| ensures log[i].lsn > 0 { if i > 0 { assert Before(log, 0, i); } }
    match LastCheckpoint(log)
    case None =>
      ReplayFrom(log, 0, 0);
      assert log[..0] == [];
    case Some(c) =>
      assert FaithfulAt(log, c);
      forall i | 0 <= i < |log| ensures log[i].lsn <= log[c].lsn <==> i < c + 1 {
        if i < c { assert Before(log, i, c); } else if i > c { assert Before(log, c, i); }
      }
      ReplayFrom(log, c + 1, log[c].lsn);
      assert log[..c + 1][..c] == log[..c];
      assert Replay(map[], log[..c + 1]) == Replay(map[], log[..c]);
  }

  predicate Touches(b: Body, k: Key) { (b.Put? || b.Del?) && b.key == k }

  /** Equality cannot tell the references apart. */
  predicate Alike(a: PageReference, b: PageReference) {
    (a.pageId, a.generation, a.pageType, a.flags) == (b.pageId, b.generation, b.pageType, b.flags)
  }

  /** A key that no record touches is not in the map. */
  lemma {:induction false} Untouched(log: seq<Record>, k: Key)
    requires forall i :: 0 <= i < |log| ==> !Touches(log[i].body, k)
    ensures k !in Replay(map[], log)
  {
    if log != [] { Untouched(log[..|log| - 1], k); }
  }

  /** The map holds the earliest of the references that equality cannot tell apart: a later
      one does not replace it. */
  lemma {:induction false} EarliestStays(log: seq<Record>, i: nat)
    requires i < |log| && log[i].body.Put?
    requires var k, t := log[i].body.key, Replay(map[], log[..i]); k !in t || !Alike(t[k], log[i].body.ref)
    requires forall j :: i < j < |log| && Touches(log[j].body, log[i].body.key) ==>
                           log[j].body.Put? && Alike(log[i].body.ref, log[j].body.ref)
    ensures At(Replay(map[], log), log[i].body.key) == Some(log[i].body.ref)
  {
    var n := |log| - 1;
    if i < n {
      assert log[..n][..i] == log[..i];
      EarliestStays(log[..n], i);
    }
  }

  // ---------------------------------------------------------------- replaying again

  function At(t: Table, k: Key): Option<PageReference> {
    if k in t then Some(t[k]) else None
  }

  /** How the map at one key may differ while a log is replayed over its own later state:
      the replayed map still shows the value it started from, which the reference's equality
      cannot tell from the value it should be. */
  predicate Lagging(start: Option<PageReference>, should: Option<PageReference>, got: Option<PageReference>) {
    got == should || (got == start && got.Some? && (should.None? || should.value.Same(got.value)))
  }

  lemma ApplyLags(start: Option<PageReference>, a: Table, b: Table, body: Body, k: Key)
    requires Lagging(start, At(a, k), At(b, k))
    ensures Lagging(start, At(Apply(a, body), k), At(Apply(b, body), k))
  {
  }

  lemma {:induction false} ReplayLags(t: Table, log: seq<Record>, k: Key)
    ensures Lagging(At(t, k), At(Replay(map[], log), k), At(Replay(t, log), k))
  {
    if log != [] {
      var n := |log| - 1;
      ReplayLags(t, log[..n], k);
      ApplyLags(At(t, k), Replay(map[], log[..n]), Replay(t, log[..n]), log[n].body, k);
    }
  }

  lemma {:induction false} ReplayAppend(t: Table, a: seq<Record>, b: seq<Record>)
    ensures Replay(t, a + b) == Replay(Replay(t, a), b)
  {
    if b == [] {
      assert a + b == a;
    } else {
      var n := |b| - 1;
      ReplayAppend(t, a, b[..n]);
      assert (a + b)[..|a + b| - 1] == a + b[..n];
    }
  }

  /** Replaying a log over the map of any of its prefixes gives exactly the same map again. */
  lemma ReplayAgain(log: seq<Record>, i: nat)
    requires i <= |log|
    ensures Replay(Replay(map[], log[..i]), log) == Replay(map[], log)
  {
    var t := Replay(map[], log[..i]);
    forall k ensures At(Replay(t, log[..i]), k) == At(t, k) { ReplayLags(t, log[..i], k); }
    SameTables(Replay(t, log[..i]), t);
    assert log == log[..i] + log[i..];
    ReplayAppend(t, log[..i], log[i..]);
    ReplayAppend(map[], log[..i], log[i..]);
  }

  lemma SameTables(a: Table, b: Table)
    requires forall k :: At(a, k) == At(b, k)
    ensures a == b
  {
    forall k ensures k in a <==> k in b { assert At(a, k) == At(b, k); }
    forall k | k in a ensures a[k] == b[k] { assert At(a, k) == At(b, k); }
  }

  // ---------------------------------------------------------------- the loops of recovery

  /** Scans the whole log for its last checkpoint. */
  method FindLastCheckpoint(log: seq<Record>) returns (found: Option<nat>)
    ensures found == LastCheckpoint(log)
  {
    found := None;
    var i := 0;
    while i < |log|
      invariant 0 <= i <= |log| && found == LastCheckpoint(log[..i])
    {
      assert log[..i + 1][..i] == log[..i];
      if log[i].body.Checkpoint? { found := Some(i); }
      i := i + 1;
    }
    assert log[..i] == log;
  }

  /** Replays the records later than `after`. */
  method ReplayLog(log: seq<Record>, start: Table, after: nat) returns (t: Table)
    ensures t == ReplayAfter(start, log, after)
  {
    t := start;
    var i := 0;
    while i < |log|
      invariant 0 <= i <= |log| && t == ReplayAfter(start, log[..i], after)
    {
      assert log[..i + 1][..i] == log[..i];
      if log[i].lsn <= after || log[i].body.Checkpoint? {
        i := i + 1;
        continue;
      }
      t := Apply(t, log[i].body);
      i := i + 1;
    }
    assert log[..i] == log;
  }

  /** The LSN of the last record, or 0. */
  method MaxLsn(log: seq<Record>) returns (lsn: nat)
    ensures lsn == LastLsn(log)
  {
    lsn := 0;
    var i := 0;
    while i < |log|
      invariant 0 <= i <= |log| && lsn == LastLsn(log[..i])
    {
      lsn := log[i].lsn;
      i := i + 1;
    }
    assert log[..i] == log;
  }

  function LastLsn(log: seq<Record>): nat { if log == [] then 0 else log[|log| - 1].lsn }

  /** Restores the last checkpoint and replays what follows; on a log in order with faithful
      checkpoints that is the map of the whole log. */
  method Recover(log: seq<Record>) returns (t: Table, current: nat)
    ensures t == Recovered(log) && current == LastLsn(log)
    ensures Increasing(log) && Faithful(log) ==> t == Replay(map[], log)
  {
    var found := FindLastCheckpoint(log);
    match found {
      case None => t := ReplayLog(log, map[], 0);
      case Some(i) => t := ReplayLog(log, log[i].body.snapshot, log[i].lsn);
    }
    if Increasing(log) && Faithful(log) { RecoveredIsReplay(log); }
    current := MaxLsn(log);
  }
}
