/** Bytes and little-endian integers. */
module Bytes {
  type Byte = x: int | 0 <= x < 256

  function Power256(n: nat): (p: nat)
    ensures p >= 1
  {
    if n == 0 then 1 else 256 * Power256(n - 1)
  }

  /** The n low bytes of v, lowest first. */
  function ToBytes(v: nat, n: nat): (b: seq<Byte>)
    ensures |b| == n
  {
    if n == 0 then [] else [v % 256] + ToBytes(v / 256, n - 1)
  }

  /** The value of n bytes at a position, lowest first. */
  function Value(b: seq<Byte>, n: nat, at: nat): nat
    requires at + n <= |b|
  {
    if n == 0 then 0 else b[at] + 256 * Value(b, n - 1, at + 1)
  }

  /** Byte i is the digit of weight 256 to the i. */
  lemma {:induction false} ByteAt(v: nat, n: nat, i: nat)
    requires i < n
    ensures ToBytes(v, n)[i] == v / Power256(i) % 256
    decreases n
  {
    if i > 0 {
      ByteAt(v / 256, n - 1, i - 1);
      DivideTwice(v, Power256(i - 1));
    }
  }

  lemma DivideTwice(v: nat, p: nat)
    requires p > 0
    ensures v / 256 / p == v / (256 * p)
  {
    var q, s, t := v / 256 / p, v / 256 % p, v % 256;
    assert v == q * (256 * p) + (256 * s + t);
    Quotient(q, 256 * p, 256 * s + t);
  }

  lemma Quotient(q: nat, d: nat, r: nat)
    requires r < d
    ensures (q * d + r) / d == q
  {
    var x := q * d + r;
    var e := x / d - q;
    assert e * d == r - x % d;
  }

  lemma {:induction false} ValueBelow(b: seq<Byte>, n: nat, at: nat)
    requires at + n <= |b|
    ensures Value(b, n, at) < Power256(n)
    decreases n
  {
    if n > 0 { ValueBelow(b, n - 1, at + 1); }
  }

  lemma {:induction false} ValueBack(b: seq<Byte>, at: nat, v: nat, n: nat)
    requires at + n <= |b| && b[at..at + n] == ToBytes(v, n) && v < Power256(n)
    ensures Value(b, n, at) == v
    decreases n
  {
    if n > 0 {
      assert b[at] == b[at..at + n][0] == v % 256;
      assert b[at + 1..at + n] == b[at..at + n][1..] == ToBytes(v / 256, n - 1);
      ValueBack(b, at + 1, v / 256, n - 1);
    }
  }

  lemma {:induction false} BytesBack(b: seq<Byte>, at: nat, n: nat)
    requires at + n <= |b|
    ensures ToBytes(Value(b, n, at), n) == b[at..at + n] && Value(b, n, at) < Power256(n)
    decreases n
  {
    if n > 0 {
      BytesBack(b, at + 1, n - 1);
      assert b[at..at + n] == [b[at]] + b[at + 1..at + n];
    }
  }

  lemma {:induction false} ValueSlice(b: seq<Byte>, lo: nat, hi: nat, n: nat, at: nat)
    requires lo + at + n <= hi <= |b|
    ensures Value(b[lo..hi], n, at) == Value(b, n, lo + at)
    decreases n
  {
    if n > 0 { ValueSlice(b, lo, hi, n - 1, at + 1); }
  }

  lemma Widths()
    ensures Power256(1) == 0x100 && Power256(2) == 0x1_0000 && Power256(4) == 0x1_0000_0000
    ensures Power256(8) == 0x1_0000_0000_0000_0000
  {
    assert Power256(3) == 0x100_0000;
    assert Power256(5) == 0x100_0000_0000;
    assert Power256(6) == 0x1_0000_0000_0000;
    assert Power256(7) == 0x100_0000_0000_0000;
  }

  function Zeros(n: nat): (b: seq<Byte>)
    ensures |b| == n && forall i :: 0 <= i < n ==> b[i] == 0
  {
    seq(n, i => 0)
  }
}
