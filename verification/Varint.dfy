/**
 Shortest-form little-endian base-128 integers (elements/codec/src/varint.ts).

 `VarintBytes` is the reference: the bytes of a number. The loops of the source are proved against
 it in both directions: a reader accepts exactly the bytes the writer produces.
 */
module Varint {
  import opened Wrappers

  const MAX_UINT32: nat := 0xffff_ffff
  const MAX_UINT64: nat := 0xffff_ffff_ffff_ffff
  const MAX_SINT32: nat := 0x7fff_ffff
  const MAX_SINT64: nat := 0x7fff_ffff_ffff_ffff

  /** The most bytes a reader looks at, and the greatest value allowed in the last of them. */
  datatype Width = Width(maxBytes: nat, lastMax: nat) {
    predicate Valid() {
      0 < maxBytes && lastMax < 128
    }

    function Max(): nat
      requires Valid()
    {
      Pow128(maxBytes - 1) * (lastMax + 1) - 1
    }
  }

  const W32 := Width(5, 0x0f)
  const W64 := Width(10, 0x01)

  function Pow128(n: nat): (p: nat)
    ensures p > 0
  {
    if n == 0 then 1 else 128 * Pow128(n - 1)
  }

  lemma Widths()
    ensures W32.Valid() && W32.Max() == MAX_UINT32
    ensures W64.Valid() && W64.Max() == MAX_UINT64
  {
    assert Pow128(2) == 16384;
    assert Pow128(4) == 268435456;
    assert Pow128(6) == 128 * 128 * Pow128(4);
    assert Pow128(8) == 128 * 128 * Pow128(6);
    assert Pow128(9) == 128 * Pow128(8);
  }

  /** The shortest-form encoding of `v`. */
  function VarintBytes(v: nat): (bs: bytes)
    ensures |bs| > 0
  {
    if v < 128 then [v] else [128 + v % 128] + VarintBytes(v / 128)
  }

  /** The length of an encoding is the number of base-128 digits. */
  lemma {:induction false} VarintLength(v: nat)
    ensures v < Pow128(|VarintBytes(v)|)
    ensures |VarintBytes(v)| > 1 ==> v >= Pow128(|VarintBytes(v)| - 1)
  {
    if v >= 128 {
      VarintLength(v / 128);
    }
  }

  /** The number whose groups of seven bits, the lowest first, are the bytes without their highest bits. */
  function Weighed(bs: bytes, n: nat): nat
    requires n <= |bs|
  {
    if n == 0 then 0 else Weighed(bs, n - 1) + (bs[n - 1] % 128) * Pow128(n - 1)
  }

  /** What the bytes of a varint mean: all but the last have the highest bit set, and their groups weigh up to the value. */
  lemma {:induction false} VarintMeans(v: nat)
    ensures var bs := VarintBytes(v);
            && (forall i | 0 <= i < |bs| :: bs[i] >= 128 <==> i < |bs| - 1)
            && Weighed(bs, |bs|) == v
  {
    var bs := VarintBytes(v);
    if v < 128 {
      LastGroup(bs, 0);
    } else {
      var rest := VarintBytes(v / 128);
      VarintMeans(v / 128);
      assert bs == [128 + v % 128] + rest;
      hide VarintBytes, Weighed;
      WeighedCons(bs[0], rest, |rest|);
    }
  }

  lemma {:induction false} WeighedCons(b: byte, rest: bytes, n: nat)
    requires n <= |rest|
    ensures Weighed([b] + rest, n + 1) == b % 128 + 128 * Weighed(rest, n)
  {
    var bs := [b] + rest;
    if n == 0 {
      assert Weighed(bs, 0) == 0;
    } else {
      WeighedCons(b, rest, n - 1);
      assert bs[n] == rest[n - 1];
      var d, p := rest[n - 1] % 128, Pow128(n - 1);
      assert d * (128 * p) == 128 * (d * p);
    }
  }

  lemma {:induction false} Pow128Monotone(a: nat, b: nat)
    requires a <= b
    ensures Pow128(a) <= Pow128(b)
  {
    if a < b {
      Pow128Monotone(a, b - 1);
    }
  }

  /** Smaller numbers never take more bytes. */
  lemma {:induction false} VarintLengthMonotone(a: nat, b: nat)
    requires a <= b
    ensures |VarintBytes(a)| <= |VarintBytes(b)|
  {
    if a >= 128 {
      VarintLengthMonotone(a / 128, b / 128);
    }
  }

  lemma {:induction false} VarintLengthBound(v: nat, left: nat, lastMax: nat)
    requires 0 < left && lastMax < 128 && v < Pow128(left - 1) * (lastMax + 1)
    ensures |VarintBytes(v)| <= left
    decreases left
  {
    if v >= 128 {
      assert left > 1;
      BoundStepDown(v, Pow128(left - 2), lastMax + 1);
      VarintLengthBound(v / 128, left - 1, lastMax);
    }
  }

  /* ---- Readers as functions ---- */

  /** Value and length of the digits that start at `i`, with `left` bytes still allowed. */
  function Scan(buf: bytes, i: nat, left: nat, lastMax: nat): (r: Result<(nat, nat)>)
    ensures r.Ok? ==> 0 < r.value.1 <= left
    decreases left
  {
    if left == 0 then Err(NoTerminatingBit)
    else if i >= |buf| then Err(InvalidBufferLength)
    else if left == 1 && buf[i] > lastMax then Err(OutOfRange)
    else if buf[i] < 128 then Ok((buf[i], 1))
    else
      var (v, n) :- Scan(buf, i + 1, left - 1, lastMax);
      Ok((buf[i] - 128 + 128 * v, 1 + n))
  }

  /** validateVarintSize: zero takes one byte, and the last byte of a longer varint is not zero. */
  predicate Shortest(v: nat, n: nat) {
    (v == 0 && n == 1) || (n > 0 && v >= Pow128(n - 1))
  }

  function ReadVarint(buf: bytes, offset: nat, w: Width): Result<(nat, nat)> {
    var (v, n) :- Scan(buf, offset, w.maxBytes, w.lastMax);
    if Shortest(v, n) then Ok((v, n)) else Err(NotShortest)
  }

  /** `enc` stands in `buf` at `offset`. */
  predicate At(buf: bytes, offset: nat, enc: bytes) {
    offset + |enc| <= |buf| && buf[offset..offset + |enc|] == enc
  }

  lemma AtSplit(buf: bytes, offset: nat, a: bytes, b: bytes)
    ensures At(buf, offset, a + b) <==> At(buf, offset, a) && At(buf, offset + |a|, b)
  {
    if offset + |a| + |b| <= |buf| {
      var whole := buf[offset..offset + |a| + |b|];
      assert whole == buf[offset..offset + |a|] + buf[offset + |a|..offset + |a| + |b|];
      if At(buf, offset, a + b) {
        assert buf[offset..offset + |a|] == whole[..|a|] == a;
        assert buf[offset + |a|..offset + |a| + |b|] == whole[|a|..] == b;
      }
    }
  }

  lemma {:induction false} ScanSound(buf: bytes, i: nat, left: nat, lastMax: nat)
    requires 0 < left && lastMax < 128
    requires Scan(buf, i, left, lastMax).Ok?
    requires var (v, n) := Scan(buf, i, left, lastMax).value; Shortest(v, n)
    ensures var (v, n) := Scan(buf, i, left, lastMax).value;
            && n == |VarintBytes(v)| && At(buf, i, VarintBytes(v))
            && v < Pow128(left - 1) * (lastMax + 1)
    decreases left
  {
    var (v, n) := Scan(buf, i, left, lastMax).value;
    var b := buf[i];
    if b < 128 {
      assert VarintBytes(v) == [b];
      if left > 1 {
        SmallBound(b, left, lastMax);
      }
    } else {
      var (v', n') := Scan(buf, i + 1, left - 1, lastMax).value;
      assert v / 128 == v' && v % 128 == b - 128;
      assert v' >= Pow128(n' - 1);
      ScanSound(buf, i + 1, left - 1, lastMax);
      AtSplit(buf, i, [b], VarintBytes(v'));
      assert v >= 128;
      assert VarintBytes(v) == [b] + VarintBytes(v');
      BoundStep(v', b - 128, Pow128(left - 2), lastMax + 1);
    }
  }

  lemma SmallBound(b: nat, left: nat, lastMax: nat)
    requires b < 128 && left > 1
    ensures b < Pow128(left - 1) * (lastMax + 1)
  {
    Pow128Monotone(1, left - 1);
    assert Pow128(1) == 128;
    assert Pow128(left - 1) * (lastMax + 1) >= Pow128(left - 1);
  }

  lemma BoundStep(v: nat, d: nat, p: nat, q: nat)
    requires v < p * q && d < 128
    ensures d + 128 * v < 128 * p * q
  {
    assert 128 * v <= 128 * (p * q - 1);
    assert 128 * p * q == 128 * (p * q);
  }

  lemma {:induction false} ScanComplete(buf: bytes, i: nat, left: nat, lastMax: nat, v: nat)
    requires 0 < left && lastMax < 128 && v < Pow128(left - 1) * (lastMax + 1)
    requires At(buf, i, VarintBytes(v))
    ensures Scan(buf, i, left, lastMax) == Ok((v, |VarintBytes(v)|))
    decreases left
  {
    assert buf[i] == buf[i..i + |VarintBytes(v)|][0];
    if v >= 128 {
      assert left > 1;
      AtSplit(buf, i, [128 + v % 128], VarintBytes(v / 128));
      BoundStepDown(v, Pow128(left - 2), lastMax + 1);
      ScanComplete(buf, i + 1, left - 1, lastMax, v / 128);
    }
  }

  lemma BoundStepDown(v: nat, p: nat, q: nat)
    requires v < 128 * p * q
    ensures v / 128 < p * q
  {
    assert 128 * p * q == 128 * (p * q);
  }

  /** A reader accepts exactly the shortest encoding of a value in range, at any offset of any buffer. */
  lemma ReadVarintIff(buf: bytes, offset: nat, w: Width, v: nat, n: nat)
    requires w.Valid()
    ensures ReadVarint(buf, offset, w) == Ok((v, n))
       <==> v <= w.Max() && n == |VarintBytes(v)| && At(buf, offset, VarintBytes(v))
  {
    if ReadVarint(buf, offset, w) == Ok((v, n)) {
      ScanSound(buf, offset, w.maxBytes, w.lastMax);
    }
    if v <= w.Max() && n == |VarintBytes(v)| && At(buf, offset, VarintBytes(v)) {
      ScanComplete(buf, offset, w.maxBytes, w.lastMax, v);
      VarintLength(v);
    }
  }

  /* ---- What a reader answers on any bytes ---- */

  /** From `i` on there are exactly `k` bytes with the highest bit set. */
  ghost predicate Continued(buf: bytes, i: nat, k: nat) {
    && (k > 0 ==> i + k <= |buf|) && (forall j | i <= j < i + k && j < |buf| :: buf[j] >= 128)
    && (i + k < |buf| ==> buf[i + k] < 128)
  }

  lemma {:induction false} ScanOutcomes(buf: bytes, i: nat, left: nat, lastMax: nat, k: nat)
    requires 0 < left && lastMax < 128 && Continued(buf, i, k)
    ensures Scan(buf, i, left, lastMax) ==
              if k >= left then Err(OutOfRange)
              else if i + k >= |buf| then Err(InvalidBufferLength)
              else if k == left - 1 && buf[i + k] > lastMax then Err(OutOfRange)
              else Ok((Weighed(buf[i..i + k + 1], k + 1), k + 1))
    decreases left
  {
    hide Weighed, Pow128;
    if k == 0 {
      if i < |buf| {
        LastGroup(buf[i..i + 1], 0);
      }
    } else if left > 1 {
      ScanOutcomes(buf, i + 1, left - 1, lastMax, k - 1);
      if i + k < |buf| {
        WeighedFront(buf, i, k);
      }
    }
  }

  lemma WeighedFront(buf: bytes, i: nat, k: nat)
    requires 0 < k && i + k < |buf| && buf[i] >= 128
    ensures Weighed(buf[i..i + k + 1], k + 1) == buf[i] - 128 + 128 * Weighed(buf[i + 1..i + k + 1], k)
  {
    var rest := buf[i + 1..i + k + 1];
    assert buf[i..i + k + 1] == [buf[i]] + rest;
    hide Weighed;
    WeighedCons(buf[i], rest, k);
  }

  lemma Digit(d: nat, p: nat)
    requires d < 128 && p > 0
    ensures 0 <= d * p <= 127 * p && (d > 0 ==> d * p >= p) && (d == 0 ==> d * p == 0)
  {
  }

  lemma {:induction false} WeighedBound(bs: bytes, n: nat)
    requires n <= |bs|
    ensures Weighed(bs, n) < Pow128(n)
  {
    if n > 0 {
      WeighedBound(bs, n - 1);
      Digit(bs[n - 1] % 128, Pow128(n - 1));
    }
  }

  /**
   The reader on any bytes. With k continuation bytes in front of the last one: too many, or a last byte above the limit of the
   width, is out of range; a buffer that ends before is too short; a last byte of zero behind others is not the shortest form;
   otherwise the value is the weight of the groups.
   */
  lemma ReadOutcomes(buf: bytes, offset: nat, w: Width, k: nat)
    requires w.Valid() && Continued(buf, offset, k)
    ensures ReadVarint(buf, offset, w) ==
              if k >= w.maxBytes then Err(OutOfRange)
              else if offset + k >= |buf| then Err(InvalidBufferLength)
              else if k == w.maxBytes - 1 && buf[offset + k] > w.lastMax then Err(OutOfRange)
              else if k > 0 && buf[offset + k] == 0 then Err(NotShortest)
              else Ok((Weighed(buf[offset..offset + k + 1], k + 1), k + 1))
  {
    ScanOutcomes(buf, offset, w.maxBytes, w.lastMax, k);
    if offset + k < |buf| {
      var bs := buf[offset..offset + k + 1];
      assert bs[k] == buf[offset + k];
      LastGroup(bs, k);
    }
  }

  /** A value reaches the weight of its last group exactly when that group is not zero. */
  lemma LastGroup(bs: bytes, k: nat)
    requires k < |bs| && bs[k] < 128
    ensures bs[k] > 0 ==> Weighed(bs, k + 1) >= Pow128(k)
    ensures bs[k] == 0 ==> Weighed(bs, k + 1) < Pow128(k)
    ensures k == 0 ==> Weighed(bs, k + 1) == bs[k]
  {
    WeighedBound(bs, k);
    Digit(bs[k] % 128, Pow128(k));
    if k == 0 {
      assert Weighed(bs, 0) == 0 && Pow128(0) == 1;
    }
  }

  /** The widths in numbers: five bytes with four bits in the last one, ten with one bit. */
  lemma WidthsMean()
    ensures W32 == Width(5, 15) && W64 == Width(10, 1)
    ensures MAX_UINT32 == 4294967295 && MAX_UINT64 == 18446744073709551615
    ensures MAX_SINT32 == 2147483647 && MAX_SINT64 == 9223372036854775807
  {
  }

  /** No encoding is a proper prefix of another, so the value is determined by the buffer. */
  lemma VarintInjective(buf: bytes, offset: nat, v: nat, v': nat)
    requires v <= MAX_UINT64 && v' <= MAX_UINT64
    requires At(buf, offset, VarintBytes(v)) && At(buf, offset, VarintBytes(v'))
    ensures v == v'
  {
    Widths();
    ReadVarintIff(buf, offset, W64, v, |VarintBytes(v)|);
    ReadVarintIff(buf, offset, W64, v', |VarintBytes(v')|);
  }

  /* ---- Zigzag ---- */

  function ZigZag(v: int): nat {
    if v >= 0 then 2 * v else -2 * v - 1
  }

  function UnZigZag(u: nat): int {
    if u % 2 == 0 then u / 2 else -((u + 1) / 2)
  }

  /** Zigzag is a bijection that maps the signed range exactly onto the unsigned one. */
  lemma ZigZagBijection(v: int, u: nat, max: nat)
    ensures UnZigZag(ZigZag(v)) == v
    ensures ZigZag(UnZigZag(u)) == u
    ensures -(max as int) - 1 <= v <= max <==> ZigZag(v) <= 2 * max + 1
  {
  }

  function Abs(v: int): nat {
    if v < 0 then -v else v
  }

  /** Zigzag counts the integers by magnitude from zero on, the negative one first: 0, -1, 1, -2, 2. */
  lemma ZigZagOrder(v: int, w: int)
    ensures ZigZag(0) == 0
    ensures ZigZag(v) < ZigZag(w) <==> Abs(v) < Abs(w) || (Abs(v) == Abs(w) && v < w)
  {
  }

  function WriteUnsigned(v: nat, max: nat): Result<bytes> {
    if v > max then Err(OutOfRange) else Ok(VarintBytes(v))
  }

  function WriteSigned(v: int, max: nat): Result<bytes> {
    if v > max then Err(OutOfRange) else WriteUnsigned(ZigZag(v), 2 * max + 1)
  }

  function ReadSigned(buf: bytes, offset: nat, w: Width): Result<(int, nat)> {
    var (u, n) :- ReadVarint(buf, offset, w);
    Ok((UnZigZag(u), n))
  }

  /** The signed readers accept exactly what the signed writers produce, up to both extremes of the range. */
  lemma ReadSignedIff(buf: bytes, offset: nat, w: Width, max: nat, v: int, n: nat)
    requires w.Valid() && w.Max() == 2 * max + 1
    ensures ReadSigned(buf, offset, w) == Ok((v, n))
       <==> -(max as int) - 1 <= v <= max && WriteSigned(v, max).Ok?
            && n == |WriteSigned(v, max).value| && At(buf, offset, WriteSigned(v, max).value)
  {
    ZigZagBijection(v, 0, max);
    ReadVarintIff(buf, offset, w, ZigZag(v), n);
    if ReadSigned(buf, offset, w) == Ok((v, n)) {
      var (u, _) := ReadVarint(buf, offset, w).value;
      ZigZagBijection(0, u, max);
    }
  }

  /* ---- The source's loops ---- */

  /** writeUInt32 and writeUInt64: the same loop, over numbers and over bigints. */
  method WriteUInt(value: nat, max: nat) returns (r: Result<bytes>)
    ensures r == WriteUnsigned(value, max)
  {
    if value > max {
      return Err(OutOfRange);
    }
    var result: bytes := [];
    var rest := value;
    while rest > 0x7f
      invariant VarintBytes(value) == result + VarintBytes(rest)
    {
      result := result + [0x80 + rest % 0x80];
      rest := rest / 0x80;
    }
    return Ok(result + [rest]);
  }

  /** `d << 7 * k`. */
  function Shift(d: nat, k: nat): nat {
    d * Pow128(k)
  }

  /** The digits already read, followed by those still to scan. */
  ghost predicate Resumes(whole: Result<(nat, nat)>, acc: nat, k: nat, rest: Result<(nat, nat)>) {
    if rest.Err? then whole == rest
    else whole == Ok((acc + Shift(rest.value.0, k), k + rest.value.1))
  }

  lemma ResumesStep(buf: bytes, w: Width, whole: Result<(nat, nat)>, acc: nat, k: nat, i: nat)
    requires k < w.maxBytes && i < |buf| && buf[i] >= 128 && (k + 1 == w.maxBytes ==> buf[i] <= w.lastMax)
    requires Resumes(whole, acc, k, Scan(buf, i, w.maxBytes - k, w.lastMax))
    ensures Resumes(whole, acc + Shift(buf[i] - 128, k), k + 1, Scan(buf, i + 1, w.maxBytes - k - 1, w.lastMax))
  {
    var rest := Scan(buf, i + 1, w.maxBytes - k - 1, w.lastMax);
    if rest.Ok? {
      var v := rest.value.0;
      assert Shift(buf[i] - 128 + 128 * v, k) == Shift(buf[i] - 128, k) + Shift(v, k + 1);
    }
  }

  /** readUInt32 and readUInt64: one digit per turn, most significant last. */
  method ReadUInt(buffer: bytes, offset: nat, w: Width) returns (r: Result<(nat, nat)>)
    requires w.Valid()
    ensures r == ReadVarint(buffer, offset, w)
  {
    var result: nat := 0;
    var k := 0;
    ghost var whole := Scan(buffer, offset, w.maxBytes, w.lastMax);
    assert Resumes(whole, 0, 0, whole);
    while k < w.maxBytes
      invariant k <= w.maxBytes
      invariant Resumes(whole, result, k, Scan(buffer, offset + k, w.maxBytes - k, w.lastMax))
    {
      if offset + k >= |buffer| {
        return Err(InvalidBufferLength);
      }
      var bit := buffer[offset + k];
      if k + 1 == w.maxBytes && bit > w.lastMax {
        return Err(OutOfRange);
      }
      if bit < 0x80 {
        result := result + Shift(bit, k);
        return if Shortest(result, k + 1) then Ok((result, k + 1)) else Err(NotShortest);
      }
      ResumesStep(buffer, w, whole, result, k, offset + k);
      result := result + Shift(bit - 0x80, k);
      k := k + 1;
    }
    return Err(NoTerminatingBit);
  }
}
