/** Aggregation bitmaps of BLS signatures (elements/cryptography/src/bls.ts). */
module AggregationBits {
  import opened Wrappers

  /* ---- Bits of a buffer ---- */

  /** `1 << i` in a byte. */
  function Mask(i: nat): (m: bv8)
    requires i < 8
  {
    if i == 0 then 1 else if i == 1 then 2 else if i == 2 then 4 else if i == 3 then 8
    else if i == 4 then 16 else if i == 5 then 32 else if i == 6 then 64 else 128
  }

  predicate Has(x: bv8, m: bv8) {
    x & m != 0
  }

  /** readBit */
  predicate ReadBit(buf: seq<bv8>, bit: nat)
    requires bit < 8 * |buf|
  {
    Has(buf[bit / 8], Mask(bit % 8))
  }

  function Updated(x: bv8, m: bv8, val: bool): bv8 {
    if val then x | m else x & !m
  }

  lemma SetMask(x: bv8, i: nat, j: nat, val: bool)
    requires i < 8 && j < 8
    ensures Has(Updated(x, Mask(i), val), Mask(j)) <==> if i == j then val else Has(x, Mask(j))
  {
    hide Mask, Has, Updated, Apart;
    MasksDiffer(i, j);
    if i == j {
      SameMask(x, Mask(i), val);
    } else {
      OtherMask(x, Mask(i), Mask(j), val);
    }
  }

  predicate Apart(m: bv8, n: bv8) {
    m & n == 0
  }

  lemma MasksDiffer(i: nat, j: nat)
    requires i < 8 && j < 8
    ensures Mask(i) != 0 && (i != j ==> Apart(Mask(i), Mask(j)))
  {
  }

  lemma SameMask(x: bv8, m: bv8, val: bool)
    requires m != 0
    ensures Has(Updated(x, m, val), m) == val
  {
  }

  lemma OtherMask(x: bv8, m: bv8, n: bv8, val: bool)
    requires Apart(m, n)
    ensures Has(Updated(x, m, val), n) == Has(x, n)
  {
  }

  lemma SameBit(i: nat, j: nat)
    ensures i == j <==> i / 8 == j / 8 && i % 8 == j % 8
  {
  }

  /** writeBit: exactly the addressed bit changes. An index outside leaves the buffer as it is. */
  method WriteBit(buf: array<bv8>, bit: int, val: bool)
    modifies buf
    ensures forall i | 0 <= i < 8 * buf.Length :: ReadBit(buf[..], i) == if i == bit then val else old(ReadBit(buf[..], i))
  {
    hide Mask, Has, Updated;
    if bit < 0 || bit >= 8 * buf.Length {
      return;
    }
    var byteIndex, bitIndex := bit / 8, bit % 8;
    ghost var before := buf[..];
    buf[byteIndex] := Updated(buf[byteIndex], Mask(bitIndex), val);
    assert buf[..] == before[byteIndex := Updated(before[byteIndex], Mask(bitIndex), val)];
    OneBitChanged(before, bit, val);
  }

  lemma OneBitChanged(before: seq<bv8>, bit: nat, val: bool)
    requires bit < 8 * |before|
    ensures var now := before[bit / 8 := Updated(before[bit / 8], Mask(bit % 8), val)];
            forall i | 0 <= i < 8 * |before| :: ReadBit(now, i) == if i == bit then val else ReadBit(before, i)
  {
    hide Mask, Has, Updated;
    var now := before[bit / 8 := Updated(before[bit / 8], Mask(bit % 8), val)];
    forall i | 0 <= i < 8 * |before|
      ensures ReadBit(now, i) == if i == bit then val else ReadBit(before, i)
    {
      SameBit(i, bit);
      SetMask(before[bit / 8], bit % 8, i % 8, val);
    }
  }

  /* ---- Building the bitmap ---- */

  /** The bits say who signed: bit `i` is set when key `i` is the first occurrence of a signer. */
  ghost predicate Marks(keys: seq<bytes>, signers: seq<bytes>, bits: seq<bv8>) {
    && |bits| == ByteCount(|keys|)
    && forall i | 0 <= i < 8 * |bits| ::
         ReadBit(bits, i) <==> i < |keys| && keys[i] in signers && FindIndex(keys, keys[i]) == i
  }

  /** The bitmap loop of createAggSig; a signer that is not in the list leaves no mark. */
  method CreateBits(keys: seq<bytes>, signers: seq<bytes>) returns (bits: array<bv8>)
    ensures fresh(bits) && Marks(keys, signers, bits[..])
  {
    hide Mask, FindIndex;
    bits := new bv8[ByteCount(|keys|)](_ => 0);
    NoBits(bits[..]);
    assert signers[..0] == [];
    for k := 0 to |signers|
      invariant Marks(keys, signers[..k], bits[..])
    {
      var index := FindIndex(keys, signers[k]);
      ghost var before := bits[..];
      WriteBit(bits, index, true);
      MarkOneMore(keys, signers, k, index, before, bits[..]);
    }
    assert signers[..|signers|] == signers;
  }

  lemma NoBits(bits: seq<bv8>)
    requires forall i | 0 <= i < |bits| :: bits[i] == 0
    ensures forall i | 0 <= i < 8 * |bits| :: !ReadBit(bits, i)
  {
    hide Mask;
    forall i | 0 <= i < 8 * |bits|
      ensures !ReadBit(bits, i)
    {
      NothingMasked(Mask(i % 8));
    }
  }

  lemma NothingMasked(m: bv8)
    ensures !Has(0, m)
  {
  }

  lemma MarkOneMore(keys: seq<bytes>, signers: seq<bytes>, k: nat, index: int, before: seq<bv8>, now: seq<bv8>)
    requires k < |signers| && Marks(keys, signers[..k], before) && |now| == |before|
    requires index == FindIndex(keys, signers[k])
    requires forall i | 0 <= i < 8 * |now| :: ReadBit(now, i) == if i == index then true else ReadBit(before, i)
    ensures Marks(keys, signers[..k + 1], now)
  {
    hide Mask, Has;
    assert signers[..k + 1] == signers[..k] + [signers[k]];
    forall i | 0 <= i < 8 * |now|
      ensures ReadBit(now, i) <==> i < |keys| && keys[i] in signers[..k + 1] && FindIndex(keys, keys[i]) == i
    {
    }
  }

  /* ---- Checking the bitmap ---- */

  /** `x >> used`, compared with zero by its mask. */
  function HighMask(used: nat): bv8
    requires used < 8
  {
    if used == 0 then 0xff else if used == 1 then 0xfe else if used == 2 then 0xfc else if used == 3 then 0xf8
    else if used == 4 then 0xf0 else if used == 5 then 0xe0 else if used == 6 then 0xc0 else 0x80
  }

  lemma HighBits(x: bv8, used: nat)
    requires used < 8
    ensures !Has(x, HighMask(used)) <==> forall j | used <= j < 8 :: !Has(x, Mask(j))
  {
    if forall j | used <= j < 8 :: !Has(x, Mask(j)) {
      assert used <= 0 ==> !Has(x, Mask(0));
      assert used <= 1 ==> !Has(x, Mask(1));
      assert used <= 2 ==> !Has(x, Mask(2));
      assert used <= 3 ==> !Has(x, Mask(3));
      assert used <= 4 ==> !Has(x, Mask(4));
      assert used <= 5 ==> !Has(x, Mask(5));
      assert used <= 6 ==> !Has(x, Mask(6));
      assert !Has(x, Mask(7));
    }
  }

  /** verifyAggregationBits */
  method VerifyAggregationBits(keyCount: nat, bits: seq<bv8>) returns (ok: bool)
    ensures ok <==> |bits| == ByteCount(keyCount) && forall i | keyCount <= i < 8 * |bits| :: !ReadBit(bits, i)
  {
    hide Mask, Has;
    if |bits| != ByteCount(keyCount) {
      return false;
    }
    var unusedBits := keyCount % 8;
    if unusedBits == 0 {
      return true;
    }
    var last := |bits| - 1;
    LastByte(bits, keyCount);
    HighBits(bits[last], unusedBits);
    return !Has(bits[last], HighMask(unusedBits));
  }

  lemma LastByte(bits: seq<bv8>, keyCount: nat)
    requires |bits| == ByteCount(keyCount) && keyCount % 8 != 0
    ensures (forall i | keyCount <= i < 8 * |bits| :: !ReadBit(bits, i))
       <==> forall j | keyCount % 8 <= j < 8 :: !Has(bits[|bits| - 1], Mask(j))
  {
    hide Mask, Has;
    var last := |bits| - 1;
    assert 8 * last + keyCount % 8 == keyCount;
    if forall i | keyCount <= i < 8 * |bits| :: !ReadBit(bits, i) {
      forall j | keyCount % 8 <= j < 8
        ensures !Has(bits[last], Mask(j))
      {
        assert !ReadBit(bits, 8 * last + j);
      }
    }
    if forall j | keyCount % 8 <= j < 8 :: !Has(bits[last], Mask(j)) {
      forall i | keyCount <= i < 8 * |bits|
        ensures !ReadBit(bits, i)
      {
        assert i / 8 == last && keyCount % 8 <= i % 8;
      }
    }
  }

  /* ---- Reading the bitmap back ---- */

  /** The elements of `xs` whose position is marked, in order. */
  function Select<T>(xs: seq<T>, bits: seq<bv8>): seq<T>
    requires |xs| <= 8 * |bits|
  {
    if xs == [] then []
    else
      var front := Select(xs[..|xs| - 1], bits);
      if ReadBit(bits, |xs| - 1) then front + [xs[|xs| - 1]] else front
  }

  function Total(weights: seq<nat>): nat {
    if weights == [] then 0 else Total(weights[..|weights| - 1]) + weights[|weights| - 1]
  }

  /** As many of the weights as there are keys. */
  function Matching(weights: seq<nat>, keyCount: nat): (r: seq<nat>)
    ensures |r| <= keyCount && r <= weights
  {
    if keyCount <= |weights| then weights[..keyCount] else weights
  }

  /** A marked key has no weight. */
  predicate WeightMissing(keyCount: nat, bits: seq<bv8>, weights: seq<nat>)
    requires keyCount <= 8 * |bits|
  {
    exists i | |weights| <= i < keyCount :: ReadBit(bits, i)
  }

  /**
   The loop of verifyAggSig and verifyWeightedAggSig. Weights beyond those of the keys are not looked at, nor are missing
   ones of keys that are not marked.
   */
  method Collect(keys: seq<bytes>, bits: seq<bv8>, weights: seq<nat>) returns (r: Result<(seq<bytes>, nat)>)
    requires |keys| <= 8 * |bits|
    ensures r == if WeightMissing(|keys|, bits, weights) then Err(TypeError)
                 else Ok((Select(keys, bits), Total(Select(Matching(weights, |keys|), bits))))
  {
    hide ReadBit, Select, Total, Matching;
    var selected, weightSum := [], 0;
    SelectNone(bits);
    assert keys[..0] == [];
    MatchingNone(weights);
    for index := 0 to |keys|
      invariant selected == Select(keys[..index], bits)
      invariant weightSum == Total(Select(Matching(weights, index), bits))
      invariant !WeightMissing(index, bits, weights)
    {
      SelectNext(keys, bits, index);
      if ReadBit(bits, index) {
        if index >= |weights| {
          return Err(TypeError);
        }
        selected, weightSum := selected + [keys[index]], weightSum + weights[index];
      }
      WeightNext(weights, bits, index);
    }
    assert keys[..|keys|] == keys;
    return Ok((selected, weightSum));
  }

  lemma SelectNone(bits: seq<bv8>)
    ensures Select<bytes>([], bits) == [] && Select<nat>([], bits) == [] && Total([]) == 0
  {
  }

  lemma SelectNext<T>(xs: seq<T>, bits: seq<bv8>, i: nat)
    requires i < |xs| && i < 8 * |bits|
    ensures var front := Select(xs[..i], bits);
            Select(xs[..i + 1], bits) == if ReadBit(bits, i) then front + [xs[i]] else front
  {
    hide ReadBit;
    assert xs[..i + 1][..i] == xs[..i];
  }

  lemma TotalNext(weights: seq<nat>, w: nat)
    ensures Total(weights + [w]) == Total(weights) + w
  {
    assert (weights + [w])[..|weights|] == weights;
  }

  lemma MatchingNone(weights: seq<nat>)
    ensures Matching(weights, 0) == []
  {
  }

  lemma WeightNext(weights: seq<nat>, bits: seq<bv8>, i: nat)
    requires i < 8 * |bits|
    ensures var front := Total(Select(Matching(weights, i), bits));
            Total(Select(Matching(weights, i + 1), bits)) == if i < |weights| && ReadBit(bits, i) then front + weights[i] else front
  {
    hide ReadBit, Select, Total;
    if i < |weights| {
      SelectNext(weights, bits, i);
      TotalNext(Select(weights[..i], bits), weights[i]);
    } else {
      assert weights[..|weights|] == weights;
    }
  }

  /* ---- What the bits and the selection mean ---- */

  /** Bit `i` of the buffer is bit `i % 8`, the lowest first, of byte `i / 8`. */
  lemma BitMeans(buf: seq<bv8>, i: nat)
    requires i < 8 * |buf|
    ensures ReadBit(buf, i) <==> (buf[i / 8] >> (i % 8)) & 1 == 1
  {
    BitOfByte(buf[i / 8], i % 8);
  }

  lemma BitOfByte(x: bv8, j: nat)
    requires j < 8
    ensures Has(x, Mask(j)) <==> (x >> j) & 1 == 1
  {
    if j == 0 {
    } else if j == 1 {
    } else if j == 2 {
    } else if j == 3 {
    } else if j == 4 {
    } else if j == 5 {
    } else if j == 6 {
    } else {
      assert j == 7;
    }
  }

  /** The least number of bytes that hold `n` bits. */
  lemma ByteCountMeans(n: nat)
    ensures n <= 8 * ByteCount(n) < n + 8
  {
  }

  /** How many of the first `i` bits are set. */
  function Rank(bits: seq<bv8>, i: nat): nat
    requires i <= 8 * |bits|
  {
    if i == 0 then 0 else Rank(bits, i - 1) + if ReadBit(bits, i - 1) then 1 else 0
  }

  /** Each marked element comes behind as many as are marked before it. */
  lemma {:induction false} SelectAt<T>(xs: seq<T>, bits: seq<bv8>)
    requires |xs| <= 8 * |bits|
    ensures |Select(xs, bits)| == Rank(bits, |xs|)
    ensures forall i | 0 <= i < |xs| && ReadBit(bits, i) :: Rank(bits, i) < |Select(xs, bits)| && Select(xs, bits)[Rank(bits, i)] == xs[i]
    decreases |xs|
  {
    hide ReadBit;
    if xs != [] {
      SelectAt(xs[..|xs| - 1], bits);
    }
  }

  /** The sum, however the weights are split. */
  lemma {:induction false} TotalSplit(a: seq<nat>, b: seq<nat>)
    ensures Total(a + b) == Total(a) + Total(b)
    ensures |b| == 1 ==> Total(b) == b[0]
    decreases |b|
  {
    if |b| == 1 {
      assert b[..0] == [] && Total([]) == 0;
    }
    if b == [] {
      assert a + b == a;
    } else {
      assert (a + b)[..|a + b| - 1] == a + b[..|b| - 1];
      TotalSplit(a, b[..|b| - 1]);
    }
  }

  /** The keys of the list that signed, in list order, and with what weights. */
  function SignersOf(keys: seq<bytes>, signers: seq<bytes>): seq<bytes> {
    if keys == [] then []
    else
      var front := SignersOf(keys[..|keys| - 1], signers);
      if keys[|keys| - 1] in signers then front + [keys[|keys| - 1]] else front
  }

  function WeightOf(keys: seq<bytes>, weights: seq<nat>, signers: seq<bytes>): nat
    requires |weights| == |keys|
  {
    if keys == [] then 0
    else
      WeightOf(keys[..|keys| - 1], weights[..|keys| - 1], signers)
      + (if keys[|keys| - 1] in signers then weights[|keys| - 1] else 0)
  }

  lemma DistinctFirst(keys: seq<bytes>, i: nat)
    requires NoDup(keys) && i < |keys|
    ensures FindIndex(keys, keys[i]) == i
  {
    hide FindIndex;
    var r := FindIndex(keys, keys[i]);
    assert keys[i] in keys;
    assert r >= 0 && keys[r] == keys[i];
    assert r <= i;
  }

  lemma {:induction false} SelectedAreSigners(keys: seq<bytes>, weights: seq<nat>, signers: seq<bytes>, bits: seq<bv8>)
    requires |weights| == |keys| <= 8 * |bits|
    requires forall i | 0 <= i < |keys| :: ReadBit(bits, i) <==> keys[i] in signers
    ensures Select(keys, bits) == SignersOf(keys, signers)
    ensures Total(Select(weights, bits)) == WeightOf(keys, weights, signers)
    decreases keys
  {
    hide ReadBit;
    if keys != [] {
      var n := |keys| - 1;
      SelectedAreSigners(keys[..n], weights[..n], signers, bits);
      var front := Select(weights[..n], bits);
      assert (front + [weights[n]])[..|front|] == front;
    }
  }

  /**
   For a list of distinct keys, the bitmap made from any signers passes the check, and the verification loops
   read back exactly the signers of the list, in list order, with the sum of their weights.
   */
  method CreateThenCollect(keys: seq<bytes>, weights: seq<nat>, signers: seq<bytes>)
    returns (ok: bool, r: Result<(seq<bytes>, nat)>)
    requires NoDup(keys) && |weights| == |keys|
    ensures ok && r == Ok((SignersOf(keys, signers), WeightOf(keys, weights, signers)))
  {
    hide ReadBit, FindIndex;
    var bits := CreateBits(keys, signers);
    ok := VerifyAggregationBits(|keys|, bits[..]);
    r := Collect(keys, bits[..], weights);
    assert weights[..|keys|] == weights;
    MarksRoundTrip(keys, weights, signers, bits[..]);
  }

  /** What any buffer that marks the signers means to the verifier. */
  lemma MarksRoundTrip(keys: seq<bytes>, weights: seq<nat>, signers: seq<bytes>, bits: seq<bv8>)
    requires NoDup(keys) && |weights| == |keys| && Marks(keys, signers, bits)
    ensures |keys| <= 8 * |bits|
    ensures forall i | |keys| <= i < 8 * |bits| :: !ReadBit(bits, i)
    ensures Select(keys, bits) == SignersOf(keys, signers)
    ensures Total(Select(weights, bits)) == WeightOf(keys, weights, signers)
  {
    hide ReadBit, FindIndex;
    forall i | 0 <= i < |keys|
      ensures ReadBit(bits, i) <==> keys[i] in signers
    {
      DistinctFirst(keys, i);
    }
    SelectedAreSigners(keys, weights, signers, bits);
  }

  lemma {:induction false} BitsDetermineBuffer(keyCount: nat, a: seq<bv8>, b: seq<bv8>)
    requires |a| == |b| == ByteCount(keyCount)
    requires forall i | 0 <= i < 8 * |a| :: ReadBit(a, i) == ReadBit(b, i)
    ensures a == b
  {
    hide Mask, Has;
    forall k | 0 <= k < |a|
      ensures a[k] == b[k]
    {
      forall j | 0 <= j < 8
        ensures Has(a[k], Mask(j)) == Has(b[k], Mask(j))
      {
        assert (8 * k + j) / 8 == k && (8 * k + j) % 8 == j;
        assert ReadBit(a, 8 * k + j) == ReadBit(b, 8 * k + j);
      }
      SameByte(a[k], b[k]);
    }
  }

  lemma SameByte(x: bv8, y: bv8)
    requires forall j | 0 <= j < 8 :: Has(x, Mask(j)) == Has(y, Mask(j))
    ensures x == y
  {
    assert Has(x, Mask(0)) == Has(y, Mask(0)) && Has(x, Mask(1)) == Has(y, Mask(1));
    assert Has(x, Mask(2)) == Has(y, Mask(2)) && Has(x, Mask(3)) == Has(y, Mask(3));
    assert Has(x, Mask(4)) == Has(y, Mask(4)) && Has(x, Mask(5)) == Has(y, Mask(5));
    assert Has(x, Mask(6)) == Has(y, Mask(6)) && Has(x, Mask(7)) == Has(y, Mask(7));
  }

  /** The bitmap of a set of signers is unique, so it depends neither on their order nor on repetitions. */
  lemma BitmapUnique(keys: seq<bytes>, s: seq<bytes>, t: seq<bytes>, a: seq<bv8>, b: seq<bv8>)
    requires Marks(keys, s, a) && Marks(keys, t, b) && forall k | k in keys :: k in s <==> k in t
    ensures a == b
  {
    hide ReadBit, FindIndex;
    BitsDetermineBuffer(|keys|, a, b);
  }

  /** verifyWeightedAggSig; the BLS check itself is a parameter. */
  method VerifyWeightedAggSig(keys: seq<bytes>, bits: seq<bv8>, weights: seq<nat>, threshold: nat,
                              fastAggregateVerify: seq<bytes> -> bool) returns (r: Result<bool>)
    ensures var wellFormed := |bits| == ByteCount(|keys|) && forall i | |keys| <= i < 8 * |bits| :: !ReadBit(bits, i);
            && (r.Err? <==> wellFormed && WeightMissing(|keys|, bits, weights))
            && (r == Ok(true) <==>
                  && wellFormed && !WeightMissing(|keys|, bits, weights)
                  && Total(Select(Matching(weights, |keys|), bits)) >= threshold && fastAggregateVerify(Select(keys, bits)))
  {
    hide ReadBit, Select, Total, Matching, WeightMissing;
    var wellFormed := VerifyAggregationBits(|keys|, bits);
    if !wellFormed {
      return Ok(false);
    }
    var collected :- Collect(keys, bits, weights);
    return Ok(collected.1 >= threshold && fastAggregateVerify(collected.0));
  }
}
