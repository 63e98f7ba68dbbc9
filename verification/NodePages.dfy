/**
  The entry area of a node page.  A leaf's is its keys, each with its reference; an internal
  node's begins with its leftmost child.  The rest of the area is zero.
 */
module NodePages {
  import opened Sequences
  import opened Options
  import opened Bytes
  import opened PageReferences
  import Keys

  const AREA := 3960       // an index page's data area without the node's body header
  const REFERENCE := 20    // bytes of a page reference

  // ---------------------------------------------------------------- references

  predicate Wire(r: PageReference) {
    && r.pageId < 0x1_0000_0000 && r.generation < 0x1_0000_0000_0000_0000
    && r.pageType < 0x100 && r.flags < 0x100 && r.reserved < 0x1_0000 && r.checksum < 0x1_0000_0000
  }

  function EncodeReference(r: PageReference): (b: seq<Byte>)
    requires Wire(r)
    ensures |b| == REFERENCE
  {
    ToBytes(r.pageId, 4) + ToBytes(r.generation, 8) + [r.pageType, r.flags]
      + ToBytes(r.reserved, 2) + ToBytes(r.checksum, 4)
  }

  function DecodeReference(b: seq<Byte>, at: nat): (r: PageReference)
    requires at + REFERENCE <= |b|
  {
    PageReference(Value(b, 4, at), Value(b, 8, at + 4), b[at + 12], b[at + 13],
                  Value(b, 2, at + 14), Value(b, 4, at + 16))
  }

  lemma Slice(b: seq<Byte>, at: nat, e: seq<Byte>, i: nat, j: nat)
    requires at + |e| <= |b| && b[at..at + |e|] == e && i <= j <= |e|
    ensures b[at + i..at + j] == e[i..j]
  {
    forall k | 0 <= k < j - i ensures b[at + i..at + j][k] == e[i..j][k] {
      assert b[at..at + |e|][i + k] == b[at + (i + k)];
    }
  }

  lemma EncodedParts(r: PageReference)
    requires Wire(r)
    ensures var e := EncodeReference(r);
      && e[0..4] == ToBytes(r.pageId, 4) && e[4..12] == ToBytes(r.generation, 8)
      && e[12] == r.pageType && e[13] == r.flags
      && e[14..16] == ToBytes(r.reserved, 2) && e[16..20] == ToBytes(r.checksum, 4)
  {
  }

  lemma ReferenceParts(b: seq<Byte>, at: nat, r: PageReference)
    requires Wire(r) && at + REFERENCE <= |b| && b[at..at + REFERENCE] == EncodeReference(r)
    ensures b[at..at + 4] == ToBytes(r.pageId, 4) && b[at + 4..at + 12] == ToBytes(r.generation, 8)
    ensures b[at + 12] == r.pageType && b[at + 13] == r.flags
    ensures b[at + 14..at + 16] == ToBytes(r.reserved, 2) && b[at + 16..at + 20] == ToBytes(r.checksum, 4)
  {
    var e := EncodeReference(r);
    EncodedParts(r);
    Slice(b, at, e, 0, 4);
    Slice(b, at, e, 4, 12);
    Slice(b, at, e, 14, 16);
    Slice(b, at, e, 16, 20);
    assert b[at + 12] == b[at..at + REFERENCE][12] && b[at + 13] == b[at..at + REFERENCE][13];
  }

  lemma ReferenceBack(b: seq<Byte>, at: nat, r: PageReference)
    requires Wire(r) && at + REFERENCE <= |b| && b[at..at + REFERENCE] == EncodeReference(r)
    ensures DecodeReference(b, at) == r
  {
    Widths();
    ReferenceParts(b, at, r);
    ValueBack(b, at, r.pageId, 4);
    ValueBack(b, at + 4, r.generation, 8);
    ValueBack(b, at + 14, r.reserved, 2);
    ValueBack(b, at + 16, r.checksum, 4);
  }

  lemma AnyWire(b: seq<Byte>, at: nat)
    requires at + 20 <= |b|
    ensures Wire(DecodeReference(b, at))
  {
    Widths();
    ValueBelow(b, 4, at);
    ValueBelow(b, 8, at + 4);
    ValueBelow(b, 2, at + 14);
    ValueBelow(b, 4, at + 16);
  }

  lemma FiveParts(b: seq<Byte>, at: nat)
    requires at + 20 <= |b|
    ensures b[at..at + 20] ==
            b[at..at + 4] + b[at + 4..at + 12] + [b[at + 12], b[at + 13]] + b[at + 14..at + 16] + b[at + 16..at + 20]
  {
  }

  /** Any twenty bytes are a reference, and encode back to themselves. */
  lemma ReferenceAgain(b: seq<Byte>, at: nat)
    requires at + 20 <= |b|
    ensures var r := DecodeReference(b, at); Wire(r) && EncodeReference(r) == b[at..at + 20]
  {
    AnyWire(b, at);
    FiveParts(b, at);
    var r := DecodeReference(b, at);
    assert ToBytes(r.pageId, 4) == b[at..at + 4] by { BytesBack(b, at, 4); }
    assert ToBytes(r.generation, 8) == b[at + 4..at + 12] by { BytesBack(b, at + 4, 8); }
    assert ToBytes(r.reserved, 2) == b[at + 14..at + 16] by { BytesBack(b, at + 14, 2); }
    assert ToBytes(r.checksum, 4) == b[at + 16..at + 20] by { BytesBack(b, at + 16, 4); }
  }

  // ---------------------------------------------------------------- entries

  datatype Entry = Entry(key: Keys.Key, ref: PageReference) {
    predicate Valid() { key.Valid() && Wire(ref) }

    function Size(): nat { Keys.Size(key) + REFERENCE }
  }

  predicate AllValid(es: seq<Entry>) { forall i :: 0 <= i < |es| ==> es[i].Valid() }

  predicate AllFit(es: seq<Entry>, binarySize: nat) { forall i :: 0 <= i < |es| ==> Keys.Fits(es[i].key, binarySize) }

  function EncodeEntry(e: Entry): (b: seq<Byte>)
    requires e.Valid()
    ensures |b| == e.Size()
  {
    Keys.Encode(e.key) + EncodeReference(e.ref)
  }

  function EncodeEntries(es: seq<Entry>): seq<Byte>
    requires AllValid(es)
  {
    if es == [] then [] else EncodeEntries(es[..|es| - 1]) + EncodeEntry(es[|es| - 1])
  }

  function DecodeEntry(b: seq<Byte>, at: nat, binarySize: nat): Option<Entry> {
    var k := Keys.Decode(b, at, binarySize);
    if k.None? || at + Keys.Size(k.value) + REFERENCE > |b| then None
    else Some(Entry(k.value, DecodeReference(b, at + Keys.Size(k.value))))
  }

  lemma EntryBack(before: seq<Byte>, e: Entry, after: seq<Byte>, binarySize: nat)
    requires e.Valid() && Keys.Fits(e.key, binarySize)
    ensures DecodeEntry(before + EncodeEntry(e) + after, |before|, binarySize) == Some(e)
  {
    var k, r := Keys.Encode(e.key), EncodeReference(e.ref);
    var b := before + EncodeEntry(e) + after;
    Regroup(before, k, r);
    Regroup(before + k, r, after);
    Keys.DecodeEncode(before, e.key, r + after, binarySize);
    Keys.Middle(before + k, r, after);
    ReferenceBack(b, |before + k|, e.ref);
  }

  lemma {:induction false} EntriesFirst(es: seq<Entry>)
    requires AllValid(es) && es != []
    ensures EncodeEntries(es) == EncodeEntry(es[0]) + EncodeEntries(es[1..])
  {
    var n := |es| - 1;
    if n > 0 {
      EntriesFirst(es[..n]);
      assert EncodeEntries(es[1..]) == EncodeEntries(es[1..n]) + EncodeEntry(es[n]) by {
        assert es[1..][..n - 1] == es[1..n];
      }
      assert es[..n][1..] == es[1..n];
      Regroup(EncodeEntry(es[0]), EncodeEntries(es[1..n]), EncodeEntry(es[n]));
    }
  }

  lemma EntriesSplit(before: seq<Byte>, es: seq<Entry>, after: seq<Byte>)
    requires AllValid(es) && es != []
    ensures var e, rest := EncodeEntry(es[0]), EncodeEntries(es[1..]);
      && before + EncodeEntries(es) + after == before + e + (rest + after)
      && before + EncodeEntries(es) + after == before + e + rest + after
      && |before + e| == |before| + es[0].Size()
  {
    var e, rest := EncodeEntry(es[0]), EncodeEntries(es[1..]);
    EntriesFirst(es);
    Regroup(before, e, rest);
    Regroup(before + e, rest, after);
  }

  /** What a reader sees of an area: the entry at each position. */
  type Sight = nat -> Option<Entry>

  predicate Position(at: nat) { at >= 0 }

  ghost predicate Shows(see: Sight, area: seq<Byte>, binarySize: nat) {
    forall at: nat {:trigger Position(at)} :: Position(at) ==> see(at) == DecodeEntry(area, at, binarySize)
  }

  lemma Seeing(area: seq<Byte>, binarySize: nat) returns (see: Sight)
    ensures Shows(see, area, binarySize)
  {
    see := (at: nat) => DecodeEntry(area, at, binarySize);
  }

  /** n entries from a position on. */
  function DecodeEntries(see: Sight, at: nat, n: nat): Option<seq<Entry>>
    decreases n
  {
    if n == 0 then Some([])
    else if see(at).None? then None
    else
      var rest := DecodeEntries(see, at + see(at).value.Size(), n - 1);
      if rest.None? then None else Some([see(at).value] + rest.value)
  }

  /** These entries can be read one after another. */
  predicate InRow(see: Sight, at: nat, es: seq<Entry>)
    decreases |es|
  {
    es == [] || (see(at) == Some(es[0]) && InRow(see, at + es[0].Size(), es[1..]))
  }

  lemma {:induction false} RowDecodes(see: Sight, at: nat, es: seq<Entry>)
    requires InRow(see, at, es)
    ensures DecodeEntries(see, at, |es|) == Some(es)
    decreases |es|
  {
    if es != [] {
      RowDecodes(see, at + es[0].Size(), es[1..]);
      assert [es[0]] + es[1..] == es;
    }
  }

  lemma SeeEntry(see: Sight, area: seq<Byte>, before: seq<Byte>, e: Entry, after: seq<Byte>, binarySize: nat)
    requires e.Valid() && Keys.Fits(e.key, binarySize)
    requires area == before + EncodeEntry(e) + after && Shows(see, area, binarySize)
    ensures see(|before|) == Some(e)
  {
    assert Position(|before|);
    EntryBack(before, e, after, binarySize);
  }

  lemma {:induction false} EntriesInRow(see: Sight, area: seq<Byte>, before: seq<Byte>, es: seq<Entry>,
                                        after: seq<Byte>, binarySize: nat)
    requires AllValid(es) && AllFit(es, binarySize)
    requires area == before + EncodeEntries(es) + after && Shows(see, area, binarySize)
    ensures InRow(see, |before|, es)
    decreases |es|
  {
    if es != [] {
      EntriesSplit(before, es, after);
      SeeEntry(see, area, before, es[0], EncodeEntries(es[1..]) + after, binarySize);
      EntriesInRow(see, area, before + EncodeEntry(es[0]), es[1..], after, binarySize);
    }
  }

  // ---------------------------------------------------------------- capacity

  /** The key type and, for binary keys, the size every key of the node has. */
  datatype Config = Config(keyType: nat, binarySize: nat) {
    function KeySize(): nat {
      if keyType == 1 then 5 else if keyType == 2 then 9 else if keyType == 3 then 3 + binarySize else 0
    }

    function LeafCapacity(): nat { AREA / (KeySize() + REFERENCE) }

    function InnerCapacity(): nat { (AREA - REFERENCE) / (KeySize() + REFERENCE) }

    predicate Matches(k: Keys.Key) { k.Type() == keyType && (k.Binary? ==> |k.bytes| == binarySize) }
  }

  predicate AllMatch(es: seq<Entry>, c: Config) { forall i :: 0 <= i < |es| ==> c.Matches(es[i].key) }

  function Sizes(es: seq<Entry>): nat { if es == [] then 0 else Sizes(es[..|es| - 1]) + es[|es| - 1].Size() }

  lemma {:induction false} EntriesSize(es: seq<Entry>)
    requires AllValid(es)
    ensures |EncodeEntries(es)| == Sizes(es)
  {
    if es != [] { EntriesSize(es[..|es| - 1]); }
  }

  lemma {:induction false} EqualSizes(es: seq<Entry>, c: Config)
    requires AllMatch(es, c)
    ensures Sizes(es) == |es| * (c.KeySize() + REFERENCE)
  {
    if es != [] {
      var n, k := |es| - 1, c.KeySize() + REFERENCE;
      EqualSizes(es[..n], c);
      assert es[n].Size() == k;
      assert n * k + k == (n + 1) * k;
    }
  }

  lemma WithinArea(n: nat, entry: nat, area: nat)
    requires entry > 0
    ensures n <= area / entry <==> n * entry <= area
  {
    var most := area / entry;
    assert area == most * entry + area % entry;
    if n <= most {
      Keys.Product(n, most, entry);
    } else {
      Keys.Product(most + 1, n, entry);
      assert (most + 1) * entry == most * entry + entry;
    }
  }

  /** The capacity is exactly how many entries, with keys of the configuration, fit the page. */
  lemma CapacityFits(es: seq<Entry>, c: Config)
    requires AllValid(es) && AllMatch(es, c)
    ensures |es| <= c.LeafCapacity() <==> |EncodeEntries(es)| <= 3960
    ensures |es| <= c.InnerCapacity() <==> 20 + |EncodeEntries(es)| <= 3960
  {
    EntriesSize(es);
    EqualSizes(es, c);
    var entry := c.KeySize() + REFERENCE;
    WithinArea(|es|, entry, AREA);
    WithinArea(|es|, entry, AREA - REFERENCE);
  }

  // ---------------------------------------------------------------- writing and reading a page

  lemma OneMore(head: seq<Byte>, es: seq<Entry>, i: nat)
    requires AllValid(es) && i < |es|
    ensures head + EncodeEntries(es[..i + 1]) == head + EncodeEntries(es[..i]) + EncodeEntry(es[i])
  {
    assert es[..i + 1][..i] == es[..i];
    Regroup(head, EncodeEntries(es[..i]), EncodeEntry(es[i]));
  }

  /** Writes a node's entry area; refuses entries that do not fit. */
  method SyncEntries(left: Option<PageReference>, es: seq<Entry>) returns (area: Option<seq<Byte>>)
    requires AllValid(es) && (left.Some? ==> Wire(left.value))
    ensures var head := if left.Some? then EncodeReference(left.value) else [];
      var size := |head| + |EncodeEntries(es)|;
      if size > 3960 then area == None else area == Some(head + EncodeEntries(es) + Zeros(3960 - size))
  {
    var head := if left.Some? then EncodeReference(left.value) else [];
    var buf := head;
    for i := 0 to |es|
      invariant buf == head + EncodeEntries(es[..i])
    {
      OneMore(head, es, i);
      buf := buf + EncodeEntry(es[i]);
    }
    assert es[..|es|] == es;
    if |buf| > AREA { return None; }
    area := Some(buf + Zeros(AREA - |buf|));
  }

  /** Reads n entries of an area, from a position on. */
  method LoadEntries(area: seq<Byte>, start: nat, n: nat, binarySize: nat, ghost see: Sight)
    returns (es: Option<seq<Entry>>)
    requires Shows(see, area, binarySize)
    ensures es == DecodeEntries(see, start, n)
  {
    var at: nat, read: seq<Entry> := start, [];
    ghost var all := DecodeEntries(see, start, n);
    assert all.Some? ==> [] + all.value == all.value;
    for i := 0 to n
      invariant var rest := DecodeEntries(see, at, n - i);
        DecodeEntries(see, start, n) == if rest.None? then None else Some(read + rest.value)
    {
      assert Position(at);
      var e := DecodeEntry(area, at, binarySize);
      if e.None? { return None; }
      ghost var rest := DecodeEntries(see, at + e.value.Size(), n - i - 1);
      assert rest.Some? ==> read + ([e.value] + rest.value) == read + [e.value] + rest.value;
      read := read + [e.value];
      at := at + e.value.Size();
    }
    assert read + [] == read;
    es := Some(read);
  }

  /** Loading what was synchronised gives the node back, for every node within its capacity. */
  method LeafThroughPage(es: seq<Entry>, c: Config) returns (area: seq<Byte>, back: Option<seq<Entry>>)
    requires AllValid(es) && AllMatch(es, c) && |es| <= c.LeafCapacity()
    ensures |area| == AREA && back == Some(es)
  {
    CapacityFits(es, c);
    var written := SyncEntries(None, es);
    area := written.value;
    ghost var see := Seeing(area, c.binarySize);
    EntriesInRow(see, area, [], es, Zeros(AREA - |EncodeEntries(es)|), c.binarySize);
    RowDecodes(see, 0, es);
    back := LoadEntries(area, 0, |es|, c.binarySize, see);
  }

  method InnerThroughPage(left: PageReference, es: seq<Entry>, c: Config)
    returns (area: seq<Byte>, leftBack: PageReference, back: Option<seq<Entry>>)
    requires Wire(left) && AllValid(es) && AllMatch(es, c) && |es| <= c.InnerCapacity()
    ensures |area| == AREA && leftBack == left && back == Some(es)
  {
    CapacityFits(es, c);
    var written := SyncEntries(Some(left), es);
    area := written.value;
    ghost var head, rest := EncodeReference(left), Zeros(AREA - REFERENCE - |EncodeEntries(es)|);
    assert area[0..0 + REFERENCE] == head;
    ReferenceBack(area, 0, left);
    leftBack := DecodeReference(area, 0);
    ghost var see := Seeing(area, c.binarySize);
    EntriesInRow(see, area, head, es, rest, c.binarySize);
    RowDecodes(see, REFERENCE, es);
    back := LoadEntries(area, REFERENCE, |es|, c.binarySize, see);
  }
}
