/**
  Variable-length integers: unsigned LEB128 (section 7.6 of DWARF Version 5) of at most five or
  ten bytes, and the signed forms built on it.
 */
module VarInts {
  import opened Options
  import opened Bytes

  const MAX_BYTES_32 := 5
  const MAX_BYTES_64 := 10
  const LIMIT_32 := 0x1_0000_0000
  const LIMIT_64 := 0x1_0000_0000_0000_0000

  datatype Decoded = Value(value: nat, consumed: nat) | EndOfInput | Overflow | Malformed | TooLarge

  /** Seven bits a byte, lowest first; the top bit says that more follow. */
  function Leb128(v: nat): (b: seq<Byte>)
    ensures |b| > 0
  {
    if v < 128 then [v] else [128 + v % 128] + Leb128(v / 128)
  }

  function Power128(n: nat): (p: nat)
    ensures p >= 1
  {
    if n == 0 then 1 else 128 * Power128(n - 1)
  }

  lemma {:induction false} LengthBound(v: nat, n: nat)
    requires v < Power128(n) && n > 0
    ensures |Leb128(v)| <= n
  {
    if v >= 128 { LengthBound(v / 128, n - 1); }
  }

  /** Five bytes are enough for 32 bits and ten for 64. */
  lemma EnoughBytes(v: nat)
    ensures v < LIMIT_32 ==> |Leb128(v)| <= MAX_BYTES_32
    ensures v < LIMIT_64 ==> |Leb128(v)| <= MAX_BYTES_64
  {
    Powers();
    if v < LIMIT_32 { LengthBound(v, 5); }
    if v < LIMIT_64 { LengthBound(v, 10); }
  }

  lemma Powers()
    ensures Power128(5) == 0x8_0000_0000 && Power128(10) == 0x40_0000_0000_0000_0000
  {
    assert Power128(2) == 0x4000 && Power128(3) == 0x20_0000 && Power128(4) == 0x1000_0000;
    assert Power128(5) == 0x8_0000_0000;
    assert Power128(6) == 0x400_0000_0000 && Power128(7) == 0x2_0000_0000_0000;
    assert Power128(8) == 0x100_0000_0000_0000 && Power128(9) == 0x8000_0000_0000_0000;
  }

  // ---------------------------------------------------------------- encoding

  method Encode(value: nat, outSize: nat, maxBytes: nat) returns (out: Option<seq<Byte>>)
    ensures out == if |Leb128(value)| <= maxBytes && |Leb128(value)| <= outSize then Some(Leb128(value)) else None
  {
    var v := value;
    var buf: seq<Byte> := [];
    var more := true;
    while more
      invariant buf + (if more then Leb128(v) else []) == Leb128(value)
      invariant |buf| <= maxBytes
      decreases more, v
    {
      if |buf| >= maxBytes { return None; }
      var byte := v % 128;
      assert v < 128 ==> Leb128(v) == [byte];
      assert v >= 128 ==> buf + ([128 + byte] + Leb128(v / 128)) == (buf + [128 + byte]) + Leb128(v / 128);
      v := v / 128;
      more := v != 0;
      buf := buf + [if more then 128 + byte else byte];
    }
    assert buf + [] == buf;
    out := if |buf| > outSize then None else Some(buf);
  }

  method EncodedSize(value: nat) returns (count: nat)
    ensures count == |Leb128(value)|
  {
    count := 1;
    var v := value;
    while v >= 128
      invariant |Leb128(value)| == count - 1 + |Leb128(v)|
    {
      v := v / 128;
      count := count + 1;
    }
  }

  // ---------------------------------------------------------------- decoding

  function Scaled(digits: nat, i: nat): nat { digits * Power128(i) }

  /** Decoding from byte i on, with the value of the bytes before it; shifted bits past the
      64th are lost. */
  function DecodeFrom(b: seq<Byte>, i: nat, acc: nat, maxBytes: nat): Decoded
    decreases maxBytes - i
  {
    if i >= maxBytes then Malformed
    else if i >= |b| then EndOfInput
    else
      var value := acc + Scaled(b[i] % 128, i) % LIMIT_64;
      if b[i] < 128 then Value(value, i + 1)
      else if 7 * (i + 1) >= 64 && b[i] % 128 != 0 then Overflow
      else DecodeFrom(b, i + 1, value, maxBytes)
  }

  method Decode(b: seq<Byte>, maxBytes: nat) returns (r: Decoded)
    ensures r == DecodeFrom(b, 0, 0, maxBytes)
  {
    var value: nat, scale: nat := 0, 1;
    var i := 0;
    while i < maxBytes
      invariant i <= maxBytes && scale == Power128(i)
      invariant DecodeFrom(b, 0, 0, maxBytes) == DecodeFrom(b, i, value, maxBytes)
    {
      if i >= |b| { return EndOfInput; }
      value := value + (b[i] % 128 * scale) % LIMIT_64;
      if b[i] < 128 { return Value(value, i + 1); }
      if 7 * (i + 1) >= 64 && b[i] % 128 != 0 { return Overflow; }
      scale := scale * 128;
      i := i + 1;
    }
    r := Malformed;
  }

  lemma Digits(v: nat, i: nat)
    ensures Scaled(v, i) == Scaled(v % 128, i) + Scaled(v / 128, i + 1)
  {
    var p := Power128(i);
    assert v == v % 128 + v / 128 * 128;
    assert v * p == (v % 128 + v / 128 * 128) * p;
  }

  lemma AtLeastPower(v: nat, i: nat)
    requires v > 0
    ensures Scaled(v, i) >= Power128(i)
  {
  }

  lemma {:induction false} PowerBelow(i: nat)
    requires 9 < i
    ensures Power128(i) >= LIMIT_64
  {
    if i == 10 { Powers(); } else { PowerBelow(i - 1); }
  }

  lemma LastByte(b: seq<Byte>, i: nat, acc: nat, maxBytes: nat)
    requires i < |b| && i < maxBytes && b[i] < 128 && Scaled(b[i], i) < LIMIT_64
    ensures DecodeFrom(b, i, acc, maxBytes) == Value(acc + Scaled(b[i], i), i + 1)
  {
  }

  lemma MiddleByte(b: seq<Byte>, i: nat, acc: nat, digit: nat, maxBytes: nat)
    requires i < |b| && i < maxBytes && i < 9 && digit < 128 && b[i] == 128 + digit && Scaled(digit, i) < LIMIT_64
    ensures DecodeFrom(b, i, acc, maxBytes) == DecodeFrom(b, i + 1, acc + Scaled(digit, i), maxBytes)
  {
    assert b[i] % 128 == digit;
  }

  /** What is left to decode after one byte stays below the limit, and ends in time. */
  lemma RestFits(v: nat, i: nat)
    requires v >= 128 && Scaled(v, i) < LIMIT_64
    ensures Scaled(v, i) == Scaled(v % 128, i) + Scaled(v / 128, i + 1) && i < 9
  {
    Digits(v, i);
    AtLeastPower(v / 128, i + 1);
    if i >= 9 { PowerBelow(i + 1); }
  }

  lemma Split(before: seq<Byte>, v: nat, after: seq<Byte>)
    requires v >= 128
    ensures before + Leb128(v) + after == before + [128 + v % 128] + Leb128(v / 128) + after
  {
  }

  /** Decoding an encoded value gives it back and stops right after it. */
  lemma {:induction false} DecodeEncoded(before: seq<Byte>, v: nat, after: seq<Byte>, acc: nat, maxBytes: nat)
    requires |before| + |Leb128(v)| <= maxBytes && Scaled(v, |before|) < LIMIT_64
    ensures DecodeFrom(before + Leb128(v) + after, |before|, acc, maxBytes)
      == Value(acc + Scaled(v, |before|), |before| + |Leb128(v)|)
    decreases v
  {
    var b, i := before + Leb128(v) + after, |before|;
    if v < 128 {
      LastByte(b, i, acc, maxBytes);
    } else {
      var digit := v % 128;
      RestFits(v, i);
      MiddleByte(b, i, acc, digit, maxBytes);
      Split(before, v, after);
      DecodeEncoded(before + [128 + digit], v / 128, after, acc + Scaled(digit, i), maxBytes);
    }
  }

  /** A 64-bit value decodes from its encoding, whatever follows. */
  lemma RoundTrip64(v: nat, after: seq<Byte>)
    requires v < LIMIT_64
    ensures DecodeFrom(Leb128(v) + after, 0, 0, MAX_BYTES_64) == Value(v, |Leb128(v)|)
  {
    EnoughBytes(v);
    DecodeEncoded([], v, after, 0, MAX_BYTES_64);
    assert [] + Leb128(v) + after == Leb128(v) + after;
  }

  lemma RoundTrip32(v: nat, after: seq<Byte>)
    requires v < LIMIT_32
    ensures DecodeFrom(Leb128(v) + after, 0, 0, MAX_BYTES_32) == Value(v, |Leb128(v)|)
  {
    EnoughBytes(v);
    DecodeEncoded([], v, after, 0, MAX_BYTES_32);
    assert [] + Leb128(v) + after == Leb128(v) + after;
  }

  /** The first n bytes all say that more follow. */
  predicate AllMore(b: seq<Byte>, n: nat)
    requires n <= |b|
  {
    forall j :: 0 <= j < n ==> b[j] >= 128
  }

  /** An integer, in its shortest form or not, takes up the first n bytes. */
  predicate Stops(b: seq<Byte>, n: nat) { 0 < n <= |b| && AllMore(b, n - 1) && b[n - 1] < 128 }

  /** What the first n bytes mean: the low seven bits of byte j have weight 128 to the j. */
  function Weighted(b: seq<Byte>, n: nat): nat
    requires n <= |b|
  {
    if n == 0 then 0 else Weighted(b, n - 1) + b[n - 1] % 128 * Power128(n - 1)
  }

  lemma {:induction false} WeightedBelow(b: seq<Byte>, n: nat)
    requires n <= |b|
    ensures Weighted(b, n) < Power128(n)
  {
    if n > 0 {
      WeightedBelow(b, n - 1);
      DigitBelow(b[n - 1] % 128, Power128(n - 1));
    }
  }

  lemma DigitBelow(d: nat, p: nat)
    requires d < 128
    ensures d * p + p <= 128 * p
  {
  }

  lemma {:induction false} PowerAtMost(n: nat)
    requires n <= 9
    ensures Power128(n) <= 0x8000_0000_0000_0000
    decreases 9 - n
  {
    if n == 9 { Powers(); } else { PowerAtMost(n + 1); }
  }

  /** The tenth byte counts modulo 2. */
  lemma TenthByte(low: nat, d: nat)
    requires low < 0x8000_0000_0000_0000
    ensures low + d * 0x8000_0000_0000_0000 % LIMIT_64 == (low + d * 0x8000_0000_0000_0000) % LIMIT_64
  {
    var m, p := d / 2, d % 2;
    assert d * 0x8000_0000_0000_0000 == p * 0x8000_0000_0000_0000 + m * LIMIT_64;
  }

  lemma StepWeight(b: seq<Byte>, i: nat)
    requires i < |b| && i <= 9
    ensures var value := Weighted(b, i) + Scaled(b[i] % 128, i) % LIMIT_64;
            value == Weighted(b, i + 1) % LIMIT_64 && (i < 9 ==> value == Weighted(b, i + 1))
  {
    WeightedBelow(b, i);
    WeightedBelow(b, i + 1);
    if i == 9 {
      Powers();
      TenthByte(Weighted(b, 9), b[9] % 128);
    } else {
      PowerAtMost(i + 1);
    }
  }

  /** Decoding in closed form, for at most ten bytes. */
  ghost predicate Decodes(b: seq<Byte>, maxBytes: nat, d: Decoded) {
    && (d.EndOfInput? <==> |b| < maxBytes && AllMore(b, |b|))
    && (d.Malformed? <==> |b| >= maxBytes && AllMore(b, maxBytes) && (maxBytes == 10 ==> b[9] == 128))
    && (d.Overflow? <==> |b| >= maxBytes && AllMore(b, maxBytes) && maxBytes == 10 && b[9] != 128)
    && (d.Value? ==> Stops(b, d.consumed) && d.consumed <= maxBytes && d.value == Weighted(b, d.consumed) % LIMIT_64)
    && !d.TooLarge?
  }

  lemma {:induction false} DecodeFromIs(b: seq<Byte>, i: nat, maxBytes: nat)
    requires i <= |b| && i <= maxBytes <= 10 && i < 10 && AllMore(b, i)
    ensures Decodes(b, maxBytes, DecodeFrom(b, i, Weighted(b, i), maxBytes))
    decreases maxBytes - i
  {
    if i < maxBytes && i < |b| {
      StepWeight(b, i);
      if b[i] >= 128 && i < 9 { DecodeFromIs(b, i + 1, maxBytes); }
    }
  }

  lemma StopsOnce(b: seq<Byte>, m: nat, n: nat)
    requires Stops(b, m) && Stops(b, n)
    ensures m == n
  {
  }

  /** Four bytes hold 28 bits and five 35. */
  lemma SmallValue(b: seq<Byte>, n: nat)
    requires Stops(b, n) && n <= 5
    ensures Weighted(b, n) < 0x8_0000_0000 && (n < 5 ==> Weighted(b, n) < 0x1000_0000)
    ensures n < 5 ==> !(|b| >= 5 && Stops(b, 5))
  {
    Powers();
    WeightedBelow(b, n);
    assert Power128(1) == 0x80 && Power128(2) == 0x4000 && Power128(3) == 0x20_0000 && Power128(4) == 0x1000_0000;
    if |b| >= 5 && Stops(b, 5) { StopsOnce(b, n, 5); }
  }

  /** Only a fifth byte can take a value past 32 bits. */
  lemma FiveBytes(b: seq<Byte>, d: Decoded)
    requires Decodes(b, 5, d)
    ensures d.Value? ==> d.value == Weighted(b, d.consumed)
    ensures d.Value? && d.value >= LIMIT_32 <==> |b| >= 5 && Stops(b, 5) && Weighted(b, 5) >= LIMIT_32
  {
    if d.Value? { SmallValue(b, d.consumed); }
  }

  /** The value of the bytes up to the first without its top bit, if that is within five bytes
      and the value has 32 bits; the encoding of any 32-bit value reads as that value, whatever
      follows. */
  method DecodeU32(b: seq<Byte>) returns (r: Decoded)
    ensures r.Value? ==> Stops(b, r.consumed) && r.consumed <= 5 && r.value == Weighted(b, r.consumed) < 0x1_0000_0000
    ensures r.TooLarge? <==> |b| >= 5 && Stops(b, 5) && Weighted(b, 5) >= 0x1_0000_0000
    ensures r.EndOfInput? <==> |b| < 5 && AllMore(b, |b|)
    ensures r.Malformed? <==> |b| >= 5 && AllMore(b, 5)
    ensures !r.Overflow?
    ensures forall v: nat | v < LIMIT_32 && Leb128(v) <= b :: r == Value(v, |Leb128(v)|)
  {
    r := Decode(b, MAX_BYTES_32);
    DecodeFromIs(b, 0, MAX_BYTES_32);
    forall v: nat | v < LIMIT_32 && Leb128(v) <= b ensures r == Value(v, |Leb128(v)|) {
      RoundTrip32(v, b[|Leb128(v)|..]);
      assert b == Leb128(v) + b[|Leb128(v)|..];
    }
    FiveBytes(b, r);
    if r.Value? && r.value >= LIMIT_32 { r := TooLarge; }
  }

  /** The value of the bytes up to the first without its top bit, modulo 2^64: of a tenth byte
      only the lowest bit counts, and nothing is reported when others are set. */
  method DecodeU64(b: seq<Byte>) returns (r: Decoded)
    ensures r.Value? ==>
              Stops(b, r.consumed) && r.consumed <= 10 && r.value == Weighted(b, r.consumed) % 0x1_0000_0000_0000_0000
    ensures r.Value? ==> (r.value == Weighted(b, r.consumed) <==> r.consumed < 10 || b[9] <= 1)
    ensures r.EndOfInput? <==> |b| < 10 && AllMore(b, |b|)
    ensures r.Malformed? <==> |b| >= 10 && AllMore(b, 10) && b[9] == 128
    ensures r.Overflow? <==> |b| >= 10 && AllMore(b, 10) && b[9] != 128
    ensures !r.TooLarge?
    ensures forall v: nat | v < LIMIT_64 && Leb128(v) <= b :: r == Value(v, |Leb128(v)|)
  {
    r := Decode(b, MAX_BYTES_64);
    DecodeFromIs(b, 0, MAX_BYTES_64);
    forall v: nat | v < LIMIT_64 && Leb128(v) <= b ensures r == Value(v, |Leb128(v)|) {
      RoundTrip64(v, b[|Leb128(v)|..]);
      assert b == Leb128(v) + b[|Leb128(v)|..];
    }
    if r.Value? { WholeValue(b, r.consumed); }
  }

  lemma WholeValue(b: seq<Byte>, n: nat)
    requires Stops(b, n) && n <= 10
    ensures Weighted(b, n) % LIMIT_64 == Weighted(b, n) <==> n < 10 || b[9] <= 1
  {
    if n < 10 {
      WeightedBelow(b, n);
      PowerAtMost(n);
    } else {
      WeightedBelow(b, 9);
      Powers();
    }
  }

  // ---------------------------------------------------------------- signed forms

  /** The word of a signed value, and back; half is 2^31 or 2^63. */
  function Word(v: int, half: int): (u: nat)
    requires -half <= v < half
    ensures u < 2 * half
  {
    if v < 0 then v + 2 * half else v
  }

  function Signed(u: nat, half: int): (v: int)
    requires u < 2 * half
    ensures -half <= v < half
  {
    if u < half then u else u - 2 * half
  }

  /** The word shifted left by one, exclusive-or its top bit: the shifted word is even. */
  function Zig(u: nat, half: int): (z: nat)
    requires u < 2 * half
    ensures z < 2 * half
  {
    if u < half then 2 * u else 2 * (u - half) + 1
  }

  /** The word shifted right by one, exclusive-or all ones when its low bit is set. */
  function Zag(z: nat, half: int): (u: nat)
    requires z < 2 * half
    ensures u < 2 * half
  {
    if z % 2 == 0 then z / 2 else 2 * half - 1 - z / 2
  }

  /** What a signed value becomes after encoding and decoding. */
  function Through(v: int, half: int): (w: int)
    requires -half <= v < half
    ensures -half <= w < half
    ensures w == if v >= 0 then v else -half - 1 - v
  {
    Signed(Zag(Zig(Word(v, half), half), half), half)
  }

  const HALF_32 := 0x8000_0000

  /** Encoding and decoding twice is the identity; once is so exactly on the non-negatives. */
  lemma ThroughTwice(v: int, half: int)
    requires -half <= v < half && half % 2 == 0
    ensures Through(Through(v, half), half) == v
    ensures Through(v, half) == v <==> v >= 0
  {
  }

  /** A non-negative value is encoded as its double; a negative one as an odd number, and not as
      the one that decoding would turn back into it. */
  method EncodeS32(v: int, outSize: nat) returns (out: Option<seq<Byte>>)
    requires -HALF_32 <= v < HALF_32
    ensures var z := if v >= 0 then 2 * v else 2 * (v + 0x8000_0000) + 1;
            && |Leb128(z)| <= 5 && out == if |Leb128(z)| <= outSize then Some(Leb128(z)) else None
  {
    var z := Zig(Word(v, HALF_32), HALF_32);
    EnoughBytes(z);
    out := Encode(z, outSize, MAX_BYTES_32);
  }

  /** Halves an even number and takes an odd z to -1 - z / 2: so w comes back as itself if it is
      not negative, else as -2^31 - 1 - w. */
  method DecodeS32(b: seq<Byte>) returns (v: Option<(int, nat)>)
    ensures v.Some? <==> exists n :: n <= 5 && Stops(b, n) && Weighted(b, n) < 0x1_0000_0000
    ensures v.Some? ==>
              && v.value.1 <= 5 && Stops(b, v.value.1)
              && var z := Weighted(b, v.value.1); v.value.0 == if z % 2 == 0 then z / 2 else -1 - z / 2
    ensures forall z: nat | z < 0x1_0000_0000 && Leb128(z) <= b ::
              v == Some((if z % 2 == 0 then z / 2 else -1 - z / 2, |Leb128(z)|))
    ensures forall w | -HALF_32 <= w < HALF_32 && Leb128(Zig(Word(w, HALF_32), HALF_32)) <= b ::
              v.Some? && v.value.0 == Through(w, HALF_32)
  {
    var d := DecodeU32(b);
    v := if d.Value? then Some((Signed(Zag(d.value, HALF_32), HALF_32), d.consumed)) else None;
    forall n | n <= 5 && Stops(b, n) && Weighted(b, n) < LIMIT_32 ensures d.Value? { SmallValue(b, n); }
  }
}
