/**
  Tree snapshots and the checkpoint payloads that carry them.  A snapshot lists the tree's pages
  in whatever order its hash tables give them.
 */
module Snapshots {
  import opened Sequences
  import opened Options
  import opened Bytes

  const PAGE := 4096
  const HEAD := 24
  const LEAF := 1
  const INTERNAL := 2

  type Page = p: seq<Byte> | |p| == PAGE witness Zeros(PAGE)

  function IdOf(p: Page): nat { Value(p, 4, 8) }

  function TypeOf(p: Page): nat { Value(p, 4, 64) }

  type Pages = map<nat, Page>

  datatype Tree = Tree(
    rootId: nat, size: nat, height: nat, keyType: nat, binarySize: nat, allowDuplicates: bool,
    leaves: Pages, inners: Pages)
  {
    predicate Wire() {
      && rootId < 0x1_0000_0000 && size < 0x1_0000_0000_0000_0000 && height < 0x1_0000_0000
      && keyType < 0x100 && binarySize < 0x1_0000
      && (forall id :: id in leaves ==> IdOf(leaves[id]) == id && TypeOf(leaves[id]) == LEAF)
      && (forall id :: id in inners ==> IdOf(inners[id]) == id && TypeOf(inners[id]) == INTERNAL)
    }
  }

  // ---------------------------------------------------------------- writing

  function Concat(ps: seq<Page>): (b: seq<Byte>)
    ensures |b| == PAGE * |ps|
  {
    if ps == [] then [] else ps[0] + Concat(ps[1..])
  }

  function Head(t: Tree, count: nat): (b: seq<Byte>)
    requires t.Wire()
    ensures |b| == HEAD
  {
    ToBytes(t.rootId, 4) + ToBytes(t.size, 8) + ToBytes(t.height, 4)
      + ([t.keyType] + ToBytes(t.binarySize, 2) + [if t.allowDuplicates then 1 else 0] + ToBytes(count, 4))
  }

  predicate From(t: Tree, p: Page) {
    || (TypeOf(p) == LEAF && IdOf(p) in t.leaves && t.leaves[IdOf(p)] == p)
    || (TypeOf(p) == INTERNAL && IdOf(p) in t.inners && t.inners[IdOf(p)] == p)
  }

  /** These pages are the tree's, all of them, in some order. */
  predicate Lists(t: Tree, ps: seq<Page>) {
    && (forall i :: 0 <= i < |ps| ==> From(t, ps[i]))
    && (forall id :: id in t.leaves ==> t.leaves[id] in ps)
    && (forall id :: id in t.inners ==> t.inners[id] in ps)
    && |ps| < 0x1_0000_0000
  }

  function Serialize(t: Tree, ps: seq<Page>): seq<Byte>
    requires t.Wire()
  {
    Head(t, |ps|) + Concat(ps)
  }

  // ---------------------------------------------------------------- reading

  datatype Tables = Tables(leaves: Pages, inners: Pages)

  /** A page already present is not replaced. */
  function Place(p: Page, found: Tables): Option<Tables> {
    var id := IdOf(p);
    if TypeOf(p) == LEAF then Some(found.(leaves := if id in found.leaves then found.leaves else found.leaves[id := p]))
    else if TypeOf(p) == INTERNAL
    then Some(found.(inners := if id in found.inners then found.inners else found.inners[id := p]))
    else None
  }

  function PlaceAll(ps: seq<Page>): Option<Tables> {
    if ps == [] then Some(Tables(map[], map[])) else
    var before := PlaceAll(ps[..|ps| - 1]);
    if before.None? then None else Place(ps[|ps| - 1], before.value)
  }

  /** The n pages from a position on. */
  function PagesIn(b: seq<Byte>, at: nat, n: nat): (ps: seq<Page>)
    requires at + PAGE * n <= |b|
    ensures |ps| == n
  {
    if n == 0 then [] else PagesIn(b, at, n - 1) + [b[at + PAGE * (n - 1)..at + PAGE * n]]
  }

  lemma {:induction false} PageAt(b: seq<Byte>, at: nat, n: nat, i: nat)
    requires at + PAGE * n <= |b| && i < n
    ensures PagesIn(b, at, n)[i] == b[at + PAGE * i..at + PAGE * (i + 1)]
  {
    if i < n - 1 { PageAt(b, at, n - 1, i); }
  }

  lemma TypeAt(b: seq<Byte>, at: nat, n: nat, i: nat)
    requires at + PAGE * n <= |b| && i < n
    ensures at + 4096 * i + 68 <= |b| && TypeOf(PagesIn(b, at, n)[i]) == Value(b, 4, at + 4096 * i + 64)
  {
    PageAt(b, at, n, i);
    ValueSlice(b, at + PAGE * i, at + PAGE * (i + 1), 4, 64);
  }

  function Held(table: Pages, id: nat): Option<Page> { if id in table then Some(table[id]) else None }

  /** The first page of this type with this id. */
  function FirstWith(ps: seq<Page>, pageType: nat, id: nat): Option<Page> {
    if ps == [] then None
    else if Value(ps[0], 4, 64) == pageType && Value(ps[0], 4, 8) == id then Some(ps[0])
    else FirstWith(ps[1..], pageType, id)
  }

  lemma {:induction false} FirstWithLast(ps: seq<Page>, p: Page, pageType: nat, id: nat)
    ensures FirstWith(ps + [p], pageType, id) ==
            if FirstWith(ps, pageType, id).Some? then FirstWith(ps, pageType, id)
            else if Value(p, 4, 64) == pageType && Value(p, 4, 8) == id then Some(p) else None
  {
    if ps != [] {
      assert (ps + [p])[1..] == ps[1..] + [p];
      FirstWithLast(ps[1..], p, pageType, id);
    }
  }

  predicate AllKnown(ps: seq<Page>) { forall i :: 0 <= i < |ps| ==> TypeOf(ps[i]) in {1, 2} }

  /** Pages are placed exactly when all are leaf or internal pages; of two with the same type and
      id the first stays. */
  lemma {:induction false} PlacedFirst(ps: seq<Page>, id: nat)
    ensures PlaceAll(ps).Some? <==> AllKnown(ps)
    ensures PlaceAll(ps).Some? ==>
              && Held(PlaceAll(ps).value.leaves, id) == FirstWith(ps, 1, id)
              && Held(PlaceAll(ps).value.inners, id) == FirstWith(ps, 2, id)
  {
    if ps != [] {
      var n := |ps| - 1;
      PlacedFirst(ps[..n], id);
      FirstWithLast(ps[..n], ps[n], 1, id);
      FirstWithLast(ps[..n], ps[n], 2, id);
      KnownLast(ps);
    }
  }

  lemma KnownLast(ps: seq<Page>)
    requires ps != []
    ensures ps == ps[..|ps| - 1] + [ps[|ps| - 1]]
    ensures AllKnown(ps) <==> AllKnown(ps[..|ps| - 1]) && TypeOf(ps[|ps| - 1]) in {1, 2}
  {
  }

  /** Fails on a short input and on a page of another type. */
  method ReadPages(b: seq<Byte>, start: nat, count: nat) returns (t: Option<Tables>)
    ensures t == if start + PAGE * count > |b| then None else PlaceAll(PagesIn(b, start, count))
  {
    var found := Tables(map[], map[]);
    for i := 0 to count
      invariant start + PAGE * i <= |b| || i == 0
      invariant i == 0 ==> found == Tables(map[], map[])
      invariant i > 0 ==> PlaceAll(PagesIn(b, start, i)) == Some(found)
    {
      var at := start + PAGE * i;
      if at + PAGE > |b| { return None; }
      var ps := PagesIn(b, start, i + 1);
      assert ps[..i] == PagesIn(b, start, i);
      var more := Place(b[at..at + PAGE], found);
      if more.None? {
        if start + PAGE * count <= |b| { NoneStays(b, start, i + 1, count); }
        return None;
      }
      found := more.value;
    }
    t := if start > |b| then None else Some(found);
  }

  lemma {:induction false} NoneStays(b: seq<Byte>, start: nat, i: nat, n: nat)
    requires i <= n && start + PAGE * n <= |b| && PlaceAll(PagesIn(b, start, i)).None?
    ensures PlaceAll(PagesIn(b, start, n)).None?
  {
    if i < n {
      NoneStays(b, start, i, n - 1);
      var ps := PagesIn(b, start, n);
      assert ps[..n - 1] == PagesIn(b, start, n - 1);
    }
  }

  /** Pages that were written one after another are read back. */
  lemma {:induction false} PagesBack(before: seq<Byte>, ps: seq<Page>, after: seq<Byte>)
    ensures |before| + PAGE * |ps| <= |before + Concat(ps) + after|
    ensures PagesIn(before + Concat(ps) + after, |before|, |ps|) == ps
  {
    if ps != [] {
      var n := |ps| - 1;
      var last := ps[n];
      ConcatLast(ps);
      Regroup(before, Concat(ps[..n]), last);
      Regroup(before + Concat(ps[..n]), last, after);
      PagesBack(before, ps[..n], last + after);
      var b, at := before + Concat(ps) + after, |before + Concat(ps[..n])|;
      assert b[at..at + PAGE] == last;
      assert ps == ps[..n] + [last];
    }
  }

  lemma {:induction false} ConcatLast(ps: seq<Page>)
    requires ps != []
    ensures Concat(ps) == Concat(ps[..|ps| - 1]) + ps[|ps| - 1]
  {
    var n := |ps| - 1;
    if n > 0 {
      ConcatLast(ps[1..]);
      assert ps[1..][..n - 1] == ps[..n][1..];
      Regroup(ps[0], Concat(ps[1..n]), ps[n]);
    }
  }

  lemma {:induction false} PlacedPages(t: Tree, ps: seq<Page>)
    requires t.Wire()
    requires forall i :: 0 <= i < |ps| ==> From(t, ps[i])
    ensures PlaceAll(ps).Some?
    ensures var f := PlaceAll(ps).value;
      && (forall id :: id in f.leaves ==> id in t.leaves && f.leaves[id] == t.leaves[id])
      && (forall id :: id in f.inners ==> id in t.inners && f.inners[id] == t.inners[id])
      && (forall i :: 0 <= i < |ps| ==>
            if TypeOf(ps[i]) == LEAF then IdOf(ps[i]) in f.leaves else IdOf(ps[i]) in f.inners)
  {
    if ps != [] { PlacedPages(t, ps[..|ps| - 1]); }
  }

  /** Whatever the order of its pages, a tree's page tables are read back. */
  lemma PlacedAll(t: Tree, ps: seq<Page>)
    requires t.Wire() && Lists(t, ps)
    ensures PlaceAll(ps) == Some(Tables(t.leaves, t.inners))
  {
    PlacedPages(t, ps);
    var f := PlaceAll(ps).value;
    forall id | id in t.leaves ensures id in f.leaves {
      var i :| 0 <= i < |ps| && ps[i] == t.leaves[id];
    }
    forall id | id in t.inners ensures id in f.inners {
      var i :| 0 <= i < |ps| && ps[i] == t.inners[id];
    }
    assert f.leaves == t.leaves && f.inners == t.inners;
  }

  lemma HeadParts(t: Tree, count: nat, rest: seq<Byte>)
    requires t.Wire()
    ensures var b := Head(t, count) + rest;
      && b[0..4] == ToBytes(t.rootId, 4) && b[4..12] == ToBytes(t.size, 8) && b[12..16] == ToBytes(t.height, 4)
      && b[16] == t.keyType && b[17..19] == ToBytes(t.binarySize, 2)
      && b[19] == (if t.allowDuplicates then 1 else 0) && b[20..24] == ToBytes(count, 4)
  {
  }

  /** The tree that a snapshot holds. */
  function Deserialized(b: seq<Byte>): Option<Tree> {
    if |b| < HEAD || HEAD + PAGE * Value(b, 4, 20) > |b| then None else
    match PlaceAll(PagesIn(b, HEAD, Value(b, 4, 20)))
    case None => None
    case Some(f) =>
      Some(Tree(Value(b, 4, 0), Value(b, 8, 4), Value(b, 4, 12), b[16], Value(b, 2, 17), b[19] != 0,
                f.leaves, f.inners))
  }

  /** The type of page i, as the bytes give it, is a known one. */
  predicate KnownAt(b: seq<Byte>, i: nat) { 24 + 4096 * i + 68 <= |b| && Value(b, 4, 24 + 4096 * i + 64) in {1, 2} }

  /** What is accepted: as many pages as the head counts, each of a known type. */
  predicate Complete(b: seq<Byte>) {
    && 24 <= |b| && 24 + 4096 * Value(b, 4, 20) <= |b|
    && forall i :: 0 <= i < Value(b, 4, 20) ==> KnownAt(b, i)
  }

  lemma KnownPages(b: seq<Byte>, n: nat)
    requires HEAD + PAGE * n <= |b|
    ensures AllKnown(PagesIn(b, HEAD, n)) <==> forall i :: 0 <= i < n ==> KnownAt(b, i)
  {
    var ps := PagesIn(b, HEAD, n);
    forall i | 0 <= i < n ensures KnownAt(b, i) <==> TypeOf(ps[i]) in {1, 2} { TypeAt(b, HEAD, n, i); }
  }

  lemma DeserializedIff(b: seq<Byte>)
    ensures Deserialized(b).Some? <==> Complete(b)
  {
    if |b| >= HEAD && HEAD + PAGE * Value(b, 4, 20) <= |b| {
      KnownPages(b, Value(b, 4, 20));
      PlacedFirst(PagesIn(b, HEAD, Value(b, 4, 20)), 0);
    }
  }

  method Deserialize(b: seq<Byte>) returns (t: Option<Tree>)
    ensures t == Deserialized(b) && (t.Some? <==> Complete(b))
    ensures forall u: Tree, ps: seq<Page> :: u.Wire() && Lists(u, ps) && b == Serialize(u, ps) ==> t == Some(u)
  {
    DeserializedIff(b);
    if |b| < HEAD { return None; }
    var count := Value(b, 4, 20);
    var pages := ReadPages(b, HEAD, count);
    t := if pages.None? then None else
      Some(Tree(Value(b, 4, 0), Value(b, 8, 4), Value(b, 4, 12), b[16], Value(b, 2, 17), b[19] != 0,
                pages.value.leaves, pages.value.inners));
    forall u: Tree, ps: seq<Page> | u.Wire() && Lists(u, ps) && b == Serialize(u, ps) ensures t == Some(u) {
      SerializedBack(b, u, ps);
    }
  }

  lemma HeadBack(t: Tree, count: nat, rest: seq<Byte>)
    requires t.Wire() && count < 0x1_0000_0000
    ensures var b := Head(t, count) + rest;
      && Value(b, 4, 0) == t.rootId && Value(b, 8, 4) == t.size && Value(b, 4, 12) == t.height
      && b[16] == t.keyType && Value(b, 2, 17) == t.binarySize && b[19] == (if t.allowDuplicates then 1 else 0)
      && Value(b, 4, 20) == count
  {
    var b := Head(t, count) + rest;
    HeadParts(t, count, rest);
    Widths();
    assert Value(b, 4, 0) == t.rootId by { ValueBack(b, 0, t.rootId, 4); }
    assert Value(b, 8, 4) == t.size by { ValueBack(b, 4, t.size, 8); }
    assert Value(b, 4, 12) == t.height by { ValueBack(b, 12, t.height, 4); }
    assert Value(b, 2, 17) == t.binarySize by { ValueBack(b, 17, t.binarySize, 2); }
    assert Value(b, 4, 20) == count by { ValueBack(b, 20, count, 4); }
  }

  /** What is read from a serialized tree. */
  lemma SerializedBack(b: seq<Byte>, u: Tree, ps: seq<Page>)
    requires u.Wire() && Lists(u, ps) && b == Serialize(u, ps)
    ensures |b| >= HEAD && Value(b, 4, 20) == |ps| && HEAD + PAGE * |ps| <= |b|
    ensures PlaceAll(PagesIn(b, HEAD, |ps|)) == Some(Tables(u.leaves, u.inners))
    ensures Value(b, 4, 0) == u.rootId && Value(b, 8, 4) == u.size && Value(b, 4, 12) == u.height
    ensures b[16] == u.keyType && Value(b, 2, 17) == u.binarySize && b[19] == (if u.allowDuplicates then 1 else 0)
  {
    HeadBack(u, |ps|, Concat(ps));
    PagesBack(Head(u, |ps|), ps, []);
    assert b == b + [];
    PlacedAll(u, ps);
  }

  // ---------------------------------------------------------------- checkpoint payloads

  const MAGIC := 0x4348_504B
  const VERSION := 1
  const PAYLOAD_HEAD := 32

  datatype Payload = Payload(lsn: nat, treeSize: nat, treeHeight: nat, snapshot: seq<Byte>) {
    predicate Wire() {
      && lsn < 0x1_0000_0000_0000_0000 && treeSize < 0x1_0000_0000_0000_0000 && treeHeight < 0x1_0000_0000
      && |snapshot| < 0x1_0000_0000
    }
  }

  function PayloadHead(p: Payload): (b: seq<Byte>)
    requires p.Wire()
    ensures |b| == PAYLOAD_HEAD
  {
    ToBytes(MAGIC, 4) + ToBytes(VERSION, 4) + ToBytes(p.lsn, 8)
      + (ToBytes(p.treeSize, 8) + ToBytes(p.treeHeight, 4) + ToBytes(|p.snapshot|, 4))
  }

  function EncodePayload(p: Payload): seq<Byte>
    requires p.Wire()
  {
    PayloadHead(p) + p.snapshot
  }

  /** Refuses a short input, another magic or version, and the invalid LSN. */
  function DecodePayload(b: seq<Byte>): Option<Payload> {
    if |b| < PAYLOAD_HEAD || PAYLOAD_HEAD + Value(b, 4, 28) > |b| then None
    else if Value(b, 4, 0) != MAGIC || Value(b, 4, 4) != VERSION || Value(b, 8, 8) == 0 then None
    else Some(Payload(Value(b, 8, 8), Value(b, 8, 16), Value(b, 4, 24),
                      b[PAYLOAD_HEAD..PAYLOAD_HEAD + Value(b, 4, 28)]))
  }

  lemma PayloadParts(p: Payload, rest: seq<Byte>)
    requires p.Wire()
    ensures var b := PayloadHead(p) + rest;
      && b[0..4] == ToBytes(MAGIC, 4) && b[4..8] == ToBytes(VERSION, 4) && b[8..16] == ToBytes(p.lsn, 8)
      && b[16..24] == ToBytes(p.treeSize, 8) && b[24..28] == ToBytes(p.treeHeight, 4)
      && b[28..32] == ToBytes(|p.snapshot|, 4)
  {
  }

  lemma PayloadValues(p: Payload, rest: seq<Byte>)
    requires p.Wire()
    ensures var b := PayloadHead(p) + rest;
      && Value(b, 4, 0) == MAGIC && Value(b, 4, 4) == VERSION && Value(b, 8, 8) == p.lsn
      && Value(b, 8, 16) == p.treeSize && Value(b, 4, 24) == p.treeHeight && Value(b, 4, 28) == |p.snapshot|
  {
    var b := PayloadHead(p) + rest;
    PayloadParts(p, rest);
    Widths();
    assert Value(b, 4, 0) == MAGIC by { ValueBack(b, 0, MAGIC, 4); }
    assert Value(b, 4, 4) == VERSION by { ValueBack(b, 4, VERSION, 4); }
    assert Value(b, 8, 8) == p.lsn by { ValueBack(b, 8, p.lsn, 8); }
    assert Value(b, 8, 16) == p.treeSize by { ValueBack(b, 16, p.treeSize, 8); }
    assert Value(b, 4, 24) == p.treeHeight by { ValueBack(b, 24, p.treeHeight, 4); }
    assert Value(b, 4, 28) == |p.snapshot| by { ValueBack(b, 28, |p.snapshot|, 4); }
  }

  /** A payload comes back, whatever follows it, exactly when it has an LSN. */
  lemma PayloadBack(p: Payload, rest: seq<Byte>)
    requires p.Wire()
    ensures DecodePayload(EncodePayload(p) + rest) == if p.lsn > 0 then Some(p) else None
  {
    var b := EncodePayload(p) + rest;
    Regroup(PayloadHead(p), p.snapshot, rest);
    PayloadValues(p, p.snapshot + rest);
    assert b[PAYLOAD_HEAD..PAYLOAD_HEAD + |p.snapshot|] == p.snapshot;
  }

  function Restored(b: seq<Byte>): (t: Option<Tree>)
    ensures t.Some? ==> |b| >= 32
  {
    match DecodePayload(b)
    case None => None
    case Some(p) => Deserialized(p.snapshot)
  }

  /** These bytes begin with the payload of a checkpoint of the tree. */
  predicate Checkpoints(b: seq<Byte>, t: Tree, ps: seq<Page>, lsn: nat) {
    && t.Wire() && Lists(t, ps) && |Serialize(t, ps)| < 0x1_0000_0000 && 0 < lsn < 0x1_0000_0000_0000_0000
    && EncodePayload(Payload(lsn, t.size, t.height, Serialize(t, ps))) <= b
  }

  lemma RestoredBack(b: seq<Byte>, u: Tree, ps: seq<Page>, lsn: nat)
    requires Checkpoints(b, u, ps, lsn)
    ensures Restored(b) == Some(u)
  {
    var payload := Payload(lsn, u.size, u.height, Serialize(u, ps));
    var e := EncodePayload(payload);
    assert b == e + b[|e|..];
    PayloadBack(payload, b[|e|..]);
    SerializedBack(payload.snapshot, u, ps);
  }

  /** Restoring a checkpoint gives the tree that was checkpointed, whatever the order of its pages. */
  method Restore(b: seq<Byte>) returns (t: Option<Tree>)
    ensures t == Restored(b)
    ensures t.Some? ==> Value(b, 4, 0) == 0x4348_504B && Value(b, 4, 4) == 1 && Value(b, 8, 8) > 0
    ensures forall u: Tree, ps: seq<Page>, lsn :: Checkpoints(b, u, ps, lsn) ==> t == Some(u)
  {
    var p := DecodePayload(b);
    t := None;
    if p.Some? { t := Deserialize(p.value.snapshot); }
    forall u: Tree, ps: seq<Page>, lsn | Checkpoints(b, u, ps, lsn) ensures t == Some(u) {
      RestoredBack(b, u, ps, lsn);
    }
  }
}
