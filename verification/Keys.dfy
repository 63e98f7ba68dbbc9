/**
  Keys: their order, their bytes, and the rank that lets the tree model use integers for them.
 */
module Keys {
  import opened Sequences
  import opened Options
  import opened Bytes

  const MAX_BINARY := 256

  datatype Key = UInt32(value: nat) | UInt64(value: nat) | Binary(bytes: seq<Byte>) {
    predicate Valid() {
      match this
      case UInt32(v) => v < 0x1_0000_0000
      case UInt64(v) => v < 0x1_0000_0000_0000_0000
      case Binary(b) => |b| <= MAX_BINARY
    }

    function Type(): nat {
      match this
      case UInt32(_) => 1
      case UInt64(_) => 2
      case Binary(_) => 3
    }
  }

  // ---------------------------------------------------------------- order

  /** Lexicographic comparison from position i on: a proper prefix comes first. */
  function CompareFrom(a: seq<Byte>, b: seq<Byte>, i: nat): int
    requires i <= |a| && i <= |b|
    decreases |a| - i
  {
    if i == |a| || i == |b| then (if |a| < |b| then -1 else if |a| > |b| then 1 else 0)
    else if a[i] < b[i] then -1
    else if a[i] > b[i] then 1
    else CompareFrom(a, b, i + 1)
  }

  /** The strings agree before position j, where a ends or has the smaller byte. */
  predicate SmallerAt(a: seq<Byte>, b: seq<Byte>, j: nat) {
    j <= |a| && j < |b| && a[..j] == b[..j] && (j == |a| || a[j] < b[j])
  }

  lemma OnlyThere(a: seq<Byte>, b: seq<Byte>, i: nat, j: nat)
    requires i <= |a| && i <= |b| && a[..i] == b[..i] && (i == |a| || i == |b| || a[i] != b[i]) && j != i
    ensures !SmallerAt(a, b, j)
  {
    if j < i {
      assert a[..i][j] == b[..i][j];
    } else if j <= |a| && j <= |b| {
      assert a[..j][i] == a[i] && b[..j][i] == b[i];
    }
  }

  lemma {:induction false} CompareFromSmaller(a: seq<Byte>, b: seq<Byte>, i: nat)
    requires i <= |a| && i <= |b| && a[..i] == b[..i]
    ensures CompareFrom(a, b, i) < 0 <==> exists j :: SmallerAt(a, b, j)
    decreases |a| - i
  {
    if i < |a| && i < |b| && a[i] == b[i] {
      assert a[..i + 1] == a[..i] + [a[i]] && b[..i + 1] == b[..i] + [b[i]];
      CompareFromSmaller(a, b, i + 1);
    } else {
      assert SmallerAt(a, b, i) <==> CompareFrom(a, b, i) < 0;
      forall j: nat | j != i ensures !SmallerAt(a, b, j) { OnlyThere(a, b, i, j); }
    }
  }

  method CompareBytes(a: seq<Byte>, b: seq<Byte>) returns (c: int)
    ensures c == CompareFrom(a, b, 0)
  {
    var n := if |a| < |b| then |a| else |b|;
    var i := 0;
    while i < n
      invariant 0 <= i <= n && CompareFrom(a, b, 0) == CompareFrom(a, b, i)
    {
      if a[i] < b[i] { return -1; }
      if a[i] > b[i] { return 1; }
      i := i + 1;
    }
    return if |a| < |b| then -1 else if |a| > |b| then 1 else 0;
  }

  function CompareNumbers(a: nat, b: nat): int { if a < b then -1 else if a > b then 1 else 0 }

  /** Types first, then values. */
  method Compare(a: Key, b: Key) returns (c: int)
    requires a.Valid() && b.Valid()
    ensures c < 0 <==> Rank(a) < Rank(b)
    ensures c == 0 <==> a == b
    ensures a.UInt32? && !b.UInt32? ==> c < 0
    ensures a.UInt64? && b.Binary? ==> c < 0
    ensures (a.UInt32? && b.UInt32?) || (a.UInt64? && b.UInt64?) ==> (c < 0 <==> a.value < b.value)
    ensures a.Binary? && b.Binary? ==> (c < 0 <==> exists j :: SmallerAt(a.bytes, b.bytes, j))
  {
    RankOrder(a, b);
    RankOrder(b, a);
    if a.Type() != b.Type() {
      c := if a.Type() < b.Type() then -1 else 1;
    } else if a.Binary? {
      c := CompareBytes(a.bytes, b.bytes);
    } else {
      c := CompareNumbers(a.value, b.value);
    }
  }

  // ---------------------------------------------------------------- rank

  function Power257(n: nat): (p: nat)
    ensures p >= 1
  {
    if n == 0 then 1 else 257 * Power257(n - 1)
  }

  /** The rank of what follows position i among strings of at most n more bytes. */
  function Digits(b: seq<Byte>, i: nat, n: nat): nat
    requires i <= |b|
    decreases n
  {
    if n == 0 || i == |b| then 0 else (b[i] as int + 1) * Power257(n - 1) + Digits(b, i + 1, n - 1)
  }

  function Rank(k: Key): nat {
    match k
    case UInt32(v) => v
    case UInt64(v) => 0x1_0000_0000 + v
    case Binary(b) => 0x1_0000_0000 + 0x1_0000_0000_0000_0000 + Digits(b, 0, MAX_BINARY)
  }

  lemma {:induction false} DigitsBelow(b: seq<Byte>, i: nat, n: nat)
    requires i <= |b|
    ensures Digits(b, i, n) < Power257(n)
    decreases n
  {
    if n > 0 && i < |b| {
      DigitsBelow(b, i + 1, n - 1);
      Product(b[i] as int + 1, 256, Power257(n - 1));
    }
  }

  lemma Product(a: nat, b: nat, p: nat)
    requires a <= b
    ensures a * p <= b * p
  {
  }

  lemma {:induction false} DigitsOrder(a: seq<Byte>, b: seq<Byte>, i: nat, n: nat)
    requires i <= |a| <= i + n && i <= |b| <= i + n && a[..i] == b[..i]
    ensures CompareFrom(a, b, i) < 0 <==> Digits(a, i, n) < Digits(b, i, n)
    ensures CompareFrom(a, b, i) == 0 <==> a == b
    ensures CompareFrom(a, b, i) == 0 <==> Digits(a, i, n) == Digits(b, i, n)
    decreases n
  {
    if i == |a| || i == |b| {
      Ended(a, b, i, n);
    } else if a[i] == b[i] {
      assert a[..i + 1] == a[..i] + [a[i]] && b[..i + 1] == b[..i] + [b[i]];
      DigitsOrder(a, b, i + 1, n - 1);
    } else if a[i] < b[i] {
      FirstDigit(a, b, i, n);
    } else {
      FirstDigit(b, a, i, n);
    }
  }

  lemma Ended(a: seq<Byte>, b: seq<Byte>, i: nat, n: nat)
    requires i <= |a| <= i + n && i <= |b| <= i + n && a[..i] == b[..i] && (i == |a| || i == |b|)
    ensures |a| < |b| <==> Digits(a, i, n) < Digits(b, i, n)
    ensures |a| == |b| <==> a == b
    ensures |a| == |b| <==> Digits(a, i, n) == Digits(b, i, n)
  {
    if i < |a| { Product(1, a[i] as int + 1, Power257(n - 1)); }
    if i < |b| { Product(1, b[i] as int + 1, Power257(n - 1)); }
    assert a[..i] == b[..i];
    if |a| == |b| { assert a == a[..i] && b == b[..i]; }
  }

  lemma FirstDigit(a: seq<Byte>, b: seq<Byte>, i: nat, n: nat)
    requires i < |a| && i < |b| && n > 0 && a[i] < b[i]
    ensures Digits(a, i, n) < Digits(b, i, n)
  {
    var p, x, y := Power257(n - 1), a[i] as int, b[i] as int;
    DigitsBelow(a, i + 1, n - 1);
    Product(x + 2, y + 1, p);
    assert (x + 2) * p == (x + 1) * p + p;
  }

  /** Ranks order keys by type, then by value or as strings of bytes, and differ on different
      keys. */
  lemma RankOrder(a: Key, b: Key)
    requires a.Valid() && b.Valid()
    ensures a.Type() < b.Type() ==> Rank(a) < Rank(b)
    ensures (a.UInt32? && !b.UInt32?) || (a.UInt64? && b.Binary?) ==> Rank(a) < Rank(b)
    ensures (a.UInt32? && b.UInt32?) || (a.UInt64? && b.UInt64?) ==> (Rank(a) < Rank(b) <==> a.value < b.value)
    ensures a.Binary? && b.Binary? ==> (Rank(a) < Rank(b) <==> exists j :: SmallerAt(a.bytes, b.bytes, j))
    ensures a.Binary? && b.Binary? ==> (CompareFrom(a.bytes, b.bytes, 0) < 0 <==> Rank(a) < Rank(b))
    ensures a.Binary? && b.Binary? ==> (CompareFrom(a.bytes, b.bytes, 0) == 0 <==> a == b)
    ensures Rank(a) == Rank(b) <==> a == b
  {
    if a.Binary? && b.Binary? {
      DigitsOrder(a.bytes, b.bytes, 0, MAX_BINARY);
      CompareFromSmaller(a.bytes, b.bytes, 0);
    }
  }

  // ---------------------------------------------------------------- bytes

  function Encode(k: Key): (b: seq<Byte>)
    requires k.Valid()
    ensures |b| == Size(k)
  {
    match k
    case UInt32(v) => [1] + ToBytes(v, 4)
    case UInt64(v) => [2] + ToBytes(v, 8)
    case Binary(s) => [3] + ToBytes(|s|, 2) + s
  }

  function Size(k: Key): nat {
    match k
    case UInt32(_) => 5
    case UInt64(_) => 9
    case Binary(s) => 3 + |s|
  }

  /** The key at a position.  A configured size that is not zero is the only one accepted. */
  function Decode(b: seq<Byte>, at: nat, binarySize: nat): (k: Option<Key>)
    ensures k.Some? ==> k.value.Valid() && at + Size(k.value) <= |b|
  {
    Widths();
    if at >= |b| then None
    else if b[at] == 1 then
      if at + 5 > |b| then None else BytesBack(b, at + 1, 4); Some(UInt32(Value(b, 4, at + 1)))
    else if b[at] == 2 then
      if at + 9 > |b| then None else BytesBack(b, at + 1, 8); Some(UInt64(Value(b, 8, at + 1)))
    else if b[at] == 3 then
      if at + 3 > |b| then None else
      var size := Value(b, 2, at + 1);
      if (binarySize > 0 && size != binarySize) || size > MAX_BINARY || at + 3 + size > |b| then None
      else Some(Binary(b[at + 3..at + 3 + size]))
    else None
  }

  predicate Fits(k: Key, binarySize: nat) { k.Binary? && binarySize > 0 ==> |k.bytes| == binarySize }

  lemma NumberBack(before: seq<Byte>, tag: Byte, v: nat, n: nat, after: seq<Byte>)
    requires v < Power256(n)
    ensures var b := before + ([tag] + ToBytes(v, n)) + after;
      b[|before|] == tag && Value(b, n, |before| + 1) == v
  {
    var b := before + ([tag] + ToBytes(v, n)) + after;
    ValueBack(b, |before| + 1, v, n);
  }

  lemma Middle(before: seq<Byte>, s: seq<Byte>, after: seq<Byte>)
    ensures (before + s + after)[|before|..|before| + |s|] == s
  {
  }

  lemma BinaryBack(before: seq<Byte>, s: seq<Byte>, after: seq<Byte>)
    requires |s| <= MAX_BINARY
    ensures var b, at := before + ([3] + ToBytes(|s|, 2) + s) + after, |before|;
      b[at] == 3 && Value(b, 2, at + 1) == |s| && b[at + 3..at + 3 + |s|] == s
  {
    var head := [3] + ToBytes(|s|, 2);
    Regroup(before, head, s);
    Regroup(before + head, s, after);
    assert Power256(2) == 0x1_0000 by { Widths(); }
    NumberBack(before, 3, |s|, 2, s + after);
    Middle(before + head, s, after);
  }

  /** The type byte, then the number or the length and the bytes. */
  lemma EncodeLayout(k: Key)
    requires k.Valid()
    ensures k.UInt32? ==> |Encode(k)| == 5 && Encode(k)[0] == 1 && Value(Encode(k), 4, 1) == k.value
    ensures k.UInt64? ==> |Encode(k)| == 9 && Encode(k)[0] == 2 && Value(Encode(k), 8, 1) == k.value
    ensures k.Binary? ==>
              && |Encode(k)| == 3 + |k.bytes| && Encode(k)[0] == 3
              && Value(Encode(k), 2, 1) == |k.bytes| && Encode(k)[3..] == k.bytes
  {
    Widths();
    var b := [] + Encode(k) + [];
    assert b == Encode(k);
    match k
    case UInt32(v) => NumberBack([], 1, v, 4, []);
    case UInt64(v) => NumberBack([], 2, v, 8, []);
    case Binary(s) => BinaryBack([], s, []);
  }

  /** An encoded key of the configured size decodes to itself, whatever is around it. */
  lemma DecodeEncode(before: seq<Byte>, k: Key, after: seq<Byte>, binarySize: nat)
    requires k.UInt32? ==> k.value < 0x1_0000_0000
    requires k.UInt64? ==> k.value < 0x1_0000_0000_0000_0000
    requires k.Binary? ==> |k.bytes| <= 256 && (binarySize > 0 ==> |k.bytes| == binarySize)
    ensures Decode(before + Encode(k) + after, |before|, binarySize) == Some(k)
  {
    Widths();
    match k
    case UInt32(v) => NumberBack(before, 1, v, 4, after);
    case UInt64(v) => NumberBack(before, 2, v, 8, after);
    case Binary(s) => BinaryBack(before, s, after);
  }

  lemma NumberAgain(b: seq<Byte>, at: nat, n: nat)
    requires at + 1 + n <= |b|
    ensures [b[at]] + ToBytes(Value(b, n, at + 1), n) == b[at..at + 1 + n]
  {
    BytesBack(b, at + 1, n);
  }

  lemma BinaryAgain(b: seq<Byte>, at: nat, n: nat)
    requires at + 3 + n <= |b| && Value(b, 2, at + 1) == n
    ensures [b[at]] + ToBytes(n, 2) + b[at + 3..at + 3 + n] == b[at..at + 3 + n]
  {
    NumberAgain(b, at, 2);
  }

  /** What is decoded, if anything, was encoded there. */
  lemma EncodeDecode(b: seq<Byte>, at: nat, binarySize: nat)
    requires Decode(b, at, binarySize).Some?
    ensures var k := Decode(b, at, binarySize).value;
            && (k.Binary? ==> |k.bytes| <= 256 && (binarySize > 0 ==> |k.bytes| == binarySize))
            && at + |Encode(k)| <= |b| && b[at..at + |Encode(k)|] == Encode(k)
  {
    var k := Decode(b, at, binarySize).value;
    if k.UInt32? {
      assert Encode(k) == b[at..at + 5] by { NumberAgain(b, at, 4); }
    } else if k.UInt64? {
      assert Encode(k) == b[at..at + 9] by { NumberAgain(b, at, 8); }
    } else {
      assert Encode(k) == b[at..at + 3 + |k.bytes|] by { BinaryAgain(b, at, |k.bytes|); }
    }
  }
}
