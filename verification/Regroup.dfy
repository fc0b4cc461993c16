/**
 Regrouping digits of one width into digits of another (convertUIntArray of
 elements/cryptography/src/address.ts). The reference is the bit string: the accumulator of the
 source wraps at 32 bits and only its low bits matter.
 */
module Regroup {
  function Pow2(n: nat): (p: nat)
    ensures p > 0
  {
    if n == 0 then 1 else 2 * Pow2(n - 1)
  }

  lemma {:induction false} Pow2Add(a: nat, b: nat)
    ensures Pow2(a + b) == Pow2(a) * Pow2(b)
  {
    if a > 0 {
      Pow2Add(a - 1, b);
    }
  }

  /* ---- Division ---- */

  lemma MulLow(d: nat, k: int)
    requires d > 0 && k >= 1
    ensures d * k >= d
  {
  }

  lemma MulNonNegative(a: nat, b: nat)
    ensures a * b >= 0
  {
  }

  lemma MulSub(d: int, a: int, b: int)
    ensures d * (a - b) == d * a - d * b
  {
  }

  lemma MulAssoc(a: int, b: int, c: int)
    ensures (a * b) * c == a * (b * c)
    ensures a * -c == -(a * c)
  {
  }

  lemma DivModUnique(x: int, d: nat, q: int, r: int)
    requires d > 0 && x == d * q + r && 0 <= r < d
    ensures x / d == q && x % d == r
  {
    var q', r' := x / d, x % d;
    assert x == d * q' + r' && 0 <= r' < d;
    MulSub(d, q, q');
    MulSub(d, q', q);
    if q - q' >= 1 {
      MulLow(d, q - q');
      assert false;
    }
    if q' - q >= 1 {
      MulLow(d, q' - q);
      assert false;
    }
  }

  lemma AddMultiple(x: int, d: nat, k: int)
    requires d > 0
    ensures (x + d * k) % d == x % d
  {
    var q := x / d;
    MulSub(d, q, -k);
    MulAssoc(d, 1, k);
    DivModUnique(x + d * k, d, q + k, x % d);
  }

  lemma AddSmall(t: int, d: nat, b: nat)
    requires d > 0 && t % d + b < d
    ensures (t + b) % d == t % d + b
  {
    DivModUnique(t + b, d, t / d, t % d + b);
  }

  lemma ScaleMod(x: int, p: nat, f: nat)
    requires p > 0 && f > 0
    ensures p * f > 0 && (x * f) % (p * f) == (x % p) * f
  {
    var q, r := x / p, x % p;
    assert x * f == (p * f) * q + r * f by {
      assert x * f == (p * q + r) * f == (p * q) * f + r * f;
      assert (p * q) * f == (p * f) * q;
    }
    assert 0 <= r * f < p * f by {
      MulSub(f, p, r);
      MulLow(f, p - r);
    }
    DivModUnique(x * f, p * f, q, r * f);
  }

  lemma ModProduct(x: int, m: nat, n: nat)
    requires m > 0 && n > 0
    ensures m * n > 0
    ensures (x / m) % n == (x % (m * n)) / m && x % m == (x % (m * n)) % m
  {
    var q, r := x / m, x % m;
    var a, b := q / n, q % n;
    assert x == m * q + r;
    assert m * q == m * (n * a) + m * b by {
      MulSub(m, n * a, -b);
      MulAssoc(m, 1, b);
    }
    MulAssoc(m, n, a);
    MulSub(m, n, b);
    MulLow(m, n - b);
    MulNonNegative(m, b);
    DivModUnique(x, m * n, a, m * b + r);
    DivModUnique(m * b + r, m, b, r);
  }

  lemma DivStep(n: nat, w: nat)
    requires w > 0 && n >= w
    ensures n / w == 1 + (n - w) / w && n % w == (n - w) % w
  {
    var q := (n - w) / w;
    assert w * (1 + q) == w + w * q;
    DivModUnique(n, w, 1 + q, (n - w) % w);
  }

  /** `n` is a multiple of `w`. */
  predicate Even(n: nat, w: nat)
    requires w > 0
  {
    n == 0 || (n >= w && Even(n - w, w))
  }

  lemma {:induction false} EvenIff(n: nat, w: nat)
    requires w > 0
    ensures Even(n, w) <==> n % w == 0
    decreases n
  {
    if n >= w {
      DivStep(n, w);
      EvenIff(n - w, w);
    } else if n > 0 {
      DivModUnique(n, w, 0, n);
    } else {
      DivModUnique(0, w, 0, 0);
    }
  }

  lemma {:induction false} EvenMultiple(n: nat, w: nat)
    requires w > 0
    ensures n * w >= 0 && Even(n * w, w)
  {
    if n > 0 {
      EvenMultiple(n - 1, w);
      assert n * w == (n - 1) * w + w;
    }
  }

  lemma {:induction false} EvenPlus(n: nat, w: nat)
    requires w > 0 && Even(n, w)
    ensures Even(n + w, w)
  {
  }

  /* ---- Bits, most significant first ---- */

  function Val(bs: seq<bool>): nat {
    if bs == [] then 0 else 2 * Val(bs[..|bs| - 1]) + (if bs[|bs| - 1] then 1 else 0)
  }

  function ToBits(v: nat, w: nat): (bs: seq<bool>)
    ensures |bs| == w
  {
    if w == 0 then [] else ToBits(v / 2, w - 1) + [v % 2 == 1]
  }

  lemma {:induction false} ValOfBits(v: nat, w: nat)
    requires v < Pow2(w)
    ensures Val(ToBits(v, w)) == v
  {
    if w > 0 {
      ValOfBits(v / 2, w - 1);
      assert ToBits(v, w)[..w - 1] == ToBits(v / 2, w - 1);
    }
  }

  lemma {:induction false} BitsOfVal(bs: seq<bool>)
    ensures Val(bs) < Pow2(|bs|) && ToBits(Val(bs), |bs|) == bs
  {
    if bs != [] {
      BitsOfVal(bs[..|bs| - 1]);
      assert bs == bs[..|bs| - 1] + [bs[|bs| - 1]];
    }
  }

  lemma Double(a: nat, p: nat, v: nat)
    ensures 2 * (a * p + v) == a * (2 * p) + 2 * v
  {
  }

  lemma {:induction false} ValConcat(a: seq<bool>, b: seq<bool>)
    ensures Val(a + b) == Val(a) * Pow2(|b|) + Val(b)
    decreases |b|
  {
    if b == [] {
      assert a + b == a;
    } else {
      var b' := b[..|b| - 1];
      assert (a + b)[..|a + b| - 1] == a + b';
      ValConcat(a, b');
      Double(Val(a), Pow2(|b'|), Val(b'));
    }
  }

  predicate InRange(xs: seq<int>, w: nat) {
    forall i | 0 <= i < |xs| :: 0 <= xs[i] < Pow2(w)
  }

  function Bits(xs: seq<int>, w: nat): (bs: seq<bool>)
    requires InRange(xs, w)
    ensures |bs| == |xs| * w
  {
    if xs == [] then [] else Bits(xs[..|xs| - 1], w) + ToBits(xs[|xs| - 1], w)
  }

  /** The digits of width `w` of a bit string; an incomplete digit at the end is dropped. */
  function Digits(bs: seq<bool>, w: nat): (xs: seq<int>)
    requires w > 0
  {
    if |bs| < w then [] else [Val(bs[..w])] + Digits(bs[w..], w)
  }

  lemma DigitsStep(bs: seq<bool>, w: nat)
    requires w > 0
    ensures |bs| < w ==> Digits(bs, w) == []
    ensures |bs| >= w ==> Digits(bs, w) == [Val(bs[..w])] + Digits(bs[w..], w)
  {
    hide Val;
  }

  lemma {:induction false} DigitsInRange(bs: seq<bool>, w: nat)
    requires w > 0
    ensures InRange(Digits(bs, w), w) && |Digits(bs, w)| == |bs| / w
    decreases |bs|
  {
    hide Val, Pow2;
    if |bs| >= w {
      BitsOfVal(bs[..w]);
      DigitsInRange(bs[w..], w);
      DivStep(|bs|, w);
    } else {
      DivModUnique(|bs|, w, 0, |bs|);
    }
  }

  lemma {:induction false} DigitsConcat(a: seq<bool>, b: seq<bool>, w: nat)
    requires w > 0 && Even(|a|, w)
    ensures Digits(a + b, w) == Digits(a, w) + Digits(b, w)
    decreases |a|
  {
    hide Val, Digits;
    DigitsStep(a, w);
    if |a| < w {
      assert a == [];
      assert a + b == b;
    } else {
      var first, rest := a[..w], a[w..];
      DigitsStep(a + b, w);
      assert (a + b)[..w] == first && (a + b)[w..] == rest + b;
      DigitsConcat(rest, b, w);
      assert [Val(first)] + (Digits(rest, w) + Digits(b, w)) == [Val(first)] + Digits(rest, w) + Digits(b, w);
    }
  }

  /** Splitting the bits of digits gives the digits back. */
  lemma {:induction false} DigitsOfBits(xs: seq<int>, w: nat)
    requires w > 0 && InRange(xs, w)
    ensures Digits(Bits(xs, w), w) == xs
    decreases |xs|
  {
    hide Digits, Val, Pow2, ToBits, Even;
    if xs == [] {
      DigitsStep([], w);
    } else {
      var front, last := xs[..|xs| - 1], xs[|xs| - 1];
      DigitsOfBits(front, w);
      EvenMultiple(|front|, w);
      DigitsPush(Bits(front, w), last, w);
      assert xs == front + [last];
    }
  }

  lemma DigitsPush(bs: seq<bool>, v: nat, w: nat)
    requires w > 0 && Even(|bs|, w) && v < Pow2(w)
    ensures Digits(bs + ToBits(v, w), w) == Digits(bs, w) + [v]
  {
    hide Digits, Val, Pow2;
    DigitsConcat(bs, ToBits(v, w), w);
    ValOfBits(v, w);
    OneDigit(ToBits(v, w), w);
  }

  lemma {:induction false} BitsCons(x: nat, xs: seq<int>, w: nat)
    requires InRange([x] + xs, w)
    ensures 0 <= x < Pow2(w) && InRange(xs, w) && Bits([x] + xs, w) == ToBits(x, w) + Bits(xs, w)
    decreases |xs|
  {
    assert ([x] + xs)[0] == x;
    assert forall i | 0 <= i < |xs| :: xs[i] == ([x] + xs)[i + 1];
    if xs == [] {
      assert [x] + xs == [x] && [x][..0] == [];
      assert Bits([x], w) == [] + ToBits(x, w);
    } else {
      var front := xs[..|xs| - 1];
      assert ([x] + xs)[..|xs|] == [x] + front;
      assert InRange([x] + front, w);
      BitsCons(x, front, w);
    }
  }

  /** The bits of the digits of a bit string are the bit string, when it divides evenly. */
  lemma {:induction false} BitsOfDigits(bs: seq<bool>, w: nat)
    requires w > 0 && Even(|bs|, w)
    ensures InRange(Digits(bs, w), w) && Bits(Digits(bs, w), w) == bs
    decreases |bs|
  {
    hide Val, ToBits, Pow2;
    DigitsInRange(bs, w);
    if |bs| >= w {
      hide Bits, InRange;
      var first, rest := bs[..w], bs[w..];
      BitsOfDigits(rest, w);
      BitsOfVal(first);
      assert Digits(bs, w) == [Val(first)] + Digits(rest, w);
      BitsCons(Val(first), Digits(rest, w), w);
      assert bs == first + rest;
    } else {
      assert bs == [];
    }
  }

  /** convertUIntArray as a function of bit strings: nothing at all for an entry out of range. */
  function Convert(xs: seq<int>, from: nat, to: nat): seq<int>
    requires to > 0
  {
    if InRange(xs, from) then Digits(Bits(xs, from), to) else []
  }

  /** Converting there and back is the identity whenever no bits are left over. */
  lemma ConvertRoundTrip(xs: seq<int>, from: nat, to: nat)
    requires from > 0 && to > 0 && InRange(xs, from) && (|xs| * from) % to == 0
    ensures Convert(Convert(xs, from, to), to, from) == xs
    ensures |Convert(xs, from, to)| == |xs| * from / to && InRange(Convert(xs, from, to), to)
  {
    var bs := Bits(xs, from);
    EvenIff(|bs|, to);
    BitsOfDigits(bs, to);
    DigitsInRange(bs, to);
    DigitsOfBits(xs, from);
  }

  /** The number with the digits `xs` of `w` bits, the first one the highest. */
  function Numeral(xs: seq<int>, w: nat): int {
    if xs == [] then 0 else Numeral(xs[..|xs| - 1], w) * Pow2(w) + xs[|xs| - 1]
  }

  lemma {:induction false} BitsNumber(xs: seq<int>, w: nat)
    requires InRange(xs, w)
    ensures Val(Bits(xs, w)) == Numeral(xs, w)
  {
    if xs != [] {
      var front, last := xs[..|xs| - 1], xs[|xs| - 1];
      BitsNumber(front, w);
      ValConcat(Bits(front, w), ToBits(last, w));
      ValOfBits(last, w);
    }
  }

  /** Regrouping changes the digits, not the number they stand for. */
  lemma ConvertKeepsNumber(xs: seq<int>, from: nat, to: nat)
    requires from > 0 && to > 0 && InRange(xs, from) && (|xs| * from) % to == 0
    ensures Numeral(Convert(xs, from, to), to) == Numeral(xs, from)
  {
    var bs := Bits(xs, from);
    EvenIff(|bs|, to);
    BitsOfDigits(bs, to);
    DigitsInRange(bs, to);
    BitsNumber(xs, from);
    BitsNumber(Digits(bs, to), to);
  }

  lemma {:induction false} NumberBound(xs: seq<int>, w: nat)
    requires InRange(xs, w)
    ensures Numeral(xs, w) >= 0
  {
    if xs != [] {
      NumberBound(xs[..|xs| - 1], w);
      MulNonNegative(Numeral(xs[..|xs| - 1], w), Pow2(w));
    }
  }

  /** Digits are determined by their number. */
  lemma {:induction false} SameNumber(a: seq<int>, b: seq<int>, w: nat)
    requires InRange(a, w) && InRange(b, w) && |a| == |b| && Numeral(a, w) == Numeral(b, w)
    ensures a == b
    decreases |a|
  {
    hide Pow2;
    if a != [] {
      var n := |a| - 1;
      var p := Pow2(w);
      var x, y := Numeral(a[..n], w), Numeral(b[..n], w);
      DivModUnique(x * p + a[n], p, x, a[n]);
      DivModUnique(x * p + a[n], p, y, b[n]);
      SameNumber(a[..n], b[..n], w);
      assert a == a[..n] + [a[n]] && b == b[..n] + [b[n]];
    }
  }

  lemma {:induction false} NumeralConcat(a: seq<int>, b: seq<int>, w: nat)
    ensures Numeral(a + b, w) == Numeral(a, w) * Pow2(w * |b|) + Numeral(b, w)
    decreases |b|
  {
    hide Pow2;
    if b == [] {
      assert a + b == a && Pow2(w * 0) == 1 by { NoPower(); }
    } else {
      var b', x := b[..|b| - 1], Numeral(a, w);
      assert (a + b)[..|a + b| - 1] == a + b';
      NumeralConcat(a, b', w);
      assert w * |b| == w * |b'| + w;
      Pow2Add(w * |b'|, w);
      assert (x * Pow2(w * |b'|) + Numeral(b', w)) * Pow2(w) == x * Pow2(w * |b'|) * Pow2(w) + Numeral(b', w) * Pow2(w);
      MulAssoc(x, Pow2(w * |b'|), Pow2(w));
    }
  }

  lemma NoPower()
    ensures Pow2(0) == 1
  {
  }

  /* ---- The loop with its wrapping accumulator ---- */

  const TWO31: int := 0x8000_0000
  const TWO32: int := 0x1_0000_0000

  /** Conversion to a signed 32-bit integer, which every bitwise operator makes. */
  function ToInt32(x: int): int {
    (x + TWO31) % TWO32 - TWO31
  }

  lemma ToInt32Mod(x: int, k: nat)
    requires k <= 32
    ensures ToInt32(x) % Pow2(k) == x % Pow2(k)
  {
    Pow2Add(k, 32 - k);
    Pow2Of32();
    hide Pow2;
    WrapMod(x, Pow2(k), Pow2(32 - k));
  }

  lemma WrapMod(x: int, m: nat, n: nat)
    requires m > 0 && m * n == TWO32
    ensures ToInt32(x) % m == x % m
  {
    var q := (x + TWO31) / TWO32;
    assert ToInt32(x) == x - TWO32 * q;
    MulAssoc(m, n, q);
    MulAssoc(m, 1, n * q);
    AddMultiple(x, m, -(n * q));
  }

  lemma Pow2Of32()
    ensures Pow2(32) == TWO32
  {
    assert Pow2(4) == 16;
    Pow2Add(4, 4);
    hide Pow2;
    Pow2Add(8, 8);
    Pow2Add(16, 16);
  }

  /** The low `bits` bits of the accumulator are the bits read but not yet written. */
  ghost predicate Holds(acc: int, pending: seq<bool>) {
    acc % Pow2(|pending|) == Val(pending)
  }

  lemma PushBits(acc: int, pending: seq<bool>, byte: nat, from: nat)
    requires Holds(acc, pending) && byte < Pow2(from) && |pending| + from <= 32
    ensures Holds(ToInt32(acc * Pow2(from)) + byte, pending + ToBits(byte, from))
  {
    hide Pow2, Val, ToInt32;
    var k := |pending|;
    var t := ToInt32(acc * Pow2(from));
    ValOfBits(byte, from);
    ValConcat(pending, ToBits(byte, from));
    assert t % Pow2(k + from) == (acc % Pow2(k)) * Pow2(from) by {
      ToInt32Mod(acc * Pow2(from), k + from);
      Pow2Add(k, from);
      ScaleMod(acc, Pow2(k), Pow2(from));
    }
    BitsOfVal(pending + ToBits(byte, from));
    AddSmall(t, Pow2(k + from), byte);
  }

  lemma PopBits(acc: int, pending: seq<bool>, to: nat)
    requires Holds(acc, pending) && to <= |pending|
    ensures (acc / Pow2(|pending| - to)) % Pow2(to) == Val(pending[..to])
    ensures Holds(acc, pending[to..])
  {
    var hi, lo := pending[..to], pending[to..];
    assert pending == hi + lo;
    ValConcat(hi, lo);
    BitsOfVal(lo);
    Pow2Add(|lo|, to);
    ModProduct(acc, Pow2(|lo|), Pow2(to));
    DivModUnique(Val(pending), Pow2(|lo|), Val(hi), Val(lo));
  }

  lemma BitsPush(xs: seq<int>, p: nat, w: nat)
    requires p < |xs| && InRange(xs[..p], w) && 0 <= xs[p] < Pow2(w)
    ensures InRange(xs[..p + 1], w) && Bits(xs[..p + 1], w) == Bits(xs[..p], w) + ToBits(xs[p], w)
  {
    assert xs[..p + 1][..p] == xs[..p];
  }

  lemma ShortDigits(bs: seq<bool>, w: nat)
    requires |bs| < w
    ensures Digits(bs, w) == []
  {
  }

  /** The bits read so far are those of the digits written and those still held. */
  ghost predicate Progress(xs: seq<int>, from: nat, to: nat, result: seq<int>, consumed: seq<bool>, pending: seq<bool>, acc: int)
    requires to > 0
  {
    && InRange(xs, from) && Bits(xs, from) == consumed + pending
    && Even(|consumed|, to) && result == Digits(consumed, to)
    && Holds(acc, pending)
  }

  lemma ProgressPush(xs: seq<int>, p: nat, from: nat, to: nat, result: seq<int>, consumed: seq<bool>, pending: seq<bool>, acc: int)
    requires to > 0 && p < |xs| && 0 <= xs[p] < Pow2(from) && |pending| + from <= 32
    requires Progress(xs[..p], from, to, result, consumed, pending, acc)
    ensures Progress(xs[..p + 1], from, to, result, consumed, pending + ToBits(xs[p], from), ToInt32(acc * Pow2(from)) + xs[p])
  {
    hide Pow2, Val, ToInt32, Digits, Holds, Bits, InRange;
    BitsPush(xs, p, from);
    PushBits(acc, pending, xs[p], from);
    assert consumed + pending + ToBits(xs[p], from) == consumed + (pending + ToBits(xs[p], from));
  }

  lemma ProgressPop(xs: seq<int>, from: nat, to: nat, result: seq<int>, consumed: seq<bool>, pending: seq<bool>, acc: int)
    requires 0 < to <= |pending| && Progress(xs, from, to, result, consumed, pending, acc)
    ensures Progress(xs, from, to, result + [(acc / Pow2(|pending| - to)) % Pow2(to)],
                     consumed + pending[..to], pending[to..], acc)
  {
    hide Pow2, Val, Digits, Holds, Bits, InRange;
    PopBits(acc, pending, to);
    EmitDigit(consumed, pending, to);
  }

  /** The source's loop gives the digits of the bit string, although its accumulator overflows. */
  method ConvertUIntArray(uintArray: seq<int>, fromBits: nat, toBits: nat) returns (result: seq<int>)
    requires 0 < fromBits <= 8 && 0 < toBits <= 8
    ensures result == Convert(uintArray, fromBits, toBits)
  {
    hide Bits, Digits, ToInt32, Holds, Val, ToBits;
    var accumulator := 0;
    var bits := 0;
    result := [];
    ghost var consumed: seq<bool>, pending: seq<bool> := [], [];
    assert uintArray[..0] == [];
    NoProgress(fromBits, toBits);
    for p := 0 to |uintArray|
      invariant bits == |pending| < toBits
      invariant Progress(uintArray[..p], fromBits, toBits, result, consumed, pending, accumulator)
    {
      var byte := uintArray[p];
      if byte < 0 || byte >= Pow2(fromBits) {
        assert !InRange(uintArray, fromBits);
        return [];
      }
      ProgressPush(uintArray, p, fromBits, toBits, result, consumed, pending, accumulator);
      accumulator := ToInt32(accumulator * Pow2(fromBits)) + byte;
      bits := bits + fromBits;
      pending := pending + ToBits(byte, fromBits);
      while bits >= toBits
        invariant bits == |pending|
        invariant Progress(uintArray[..p + 1], fromBits, toBits, result, consumed, pending, accumulator)
      {
        ProgressPop(uintArray[..p + 1], fromBits, toBits, result, consumed, pending, accumulator);
        bits := bits - toBits;
        result := result + [(accumulator / Pow2(bits)) % Pow2(toBits)];
        consumed, pending := consumed + pending[..toBits], pending[toBits..];
      }
    }
    assert uintArray[..|uintArray|] == uintArray;
    DigitsConcat(consumed, pending, toBits);
    ShortDigits(pending, toBits);
    assert result + [] == result;
  }

  lemma NoProgress(from: nat, to: nat)
    requires to > 0
    ensures Progress([], from, to, [], [], [], 0)
  {
    var none: seq<bool> := [];
    assert none + none == none;
  }

  lemma OneDigit(d: seq<bool>, w: nat)
    requires |d| == w > 0
    ensures Digits(d, w) == [Val(d)]
  {
    hide Val;
    assert d[..w] == d && d[w..] == [];
    DigitsStep([], w);
  }

  lemma EmitDigit(consumed: seq<bool>, pending: seq<bool>, to: nat)
    requires 0 < to <= |pending| && Even(|consumed|, to)
    ensures consumed + pending == (consumed + pending[..to]) + pending[to..]
    ensures Even(|consumed + pending[..to]|, to)
    ensures Digits(consumed + pending[..to], to) == Digits(consumed, to) + [Val(pending[..to])]
  {
    hide Val, Digits;
    var d := pending[..to];
    DigitsConcat(consumed, d, to);
    EvenPlus(|consumed|, to);
    OneDigit(d, to);
  }
}
