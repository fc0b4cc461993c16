/**
 The BCH checksum of Klayr32 addresses (elements/cryptography/src/address.ts), over 32-bit words.

 Appending a symbol multiplies the state by x modulo the generator and adds the symbol. The
 multiplication is linear over GF(2) and injective on 30-bit states; everything follows from that.
 */
module Checksum {
  /* ---- One step ---- */

  /** Exclusive or, named so that proofs can treat it as an abstract operation. */
  function Xor(a: bv32, b: bv32): bv32 {
    a ^ b
  }

  const GENERATOR: seq<bv32> := [0x3b6a57b2, 0x26508e6d, 0x1ea119fa, 0x3d4233dd, 0x2a1462b3]

  const STATES: bv32 := 0x4000_0000

  predicate IsMask(m: bv32) {
    m == 1 || m == 2 || m == 4 || m == 8 || m == 16
  }

  /** `1 << i`. */
  function Mask(i: nat): (m: bv32)
    requires i < 5
    ensures IsMask(m)
  {
    if i == 0 then 1 else if i == 1 then 2 else if i == 2 then 4 else if i == 3 then 8 else 16
  }

  /** Bit `i` of `top`. */
  function Bit(top: bv32, i: nat): bool
    requires i < 5
  {
    Has(top, Mask(i))
  }

  function Masked(x: bv32, m: bv32): bv32 {
    x & m
  }

  predicate Has(x: bv32, m: bv32) {
    Masked(x, m) != 0
  }

  function Term(top: bv32, i: nat): bv32
    requires i < 5
  {
    if Bit(top, i) then GENERATOR[i] else 0
  }

  /** The generators selected by the lowest `n` bits of `top`. */
  function Mix(top: bv32, n: nat): bv32
    requires n <= 5
  {
    if n == 0 then 0 else Xor(Mix(top, n - 1), Term(top, n - 1))
  }

  function Shifted(chk: bv32): bv32 {
    (chk & 0x1ffffff) << 5
  }

  function Top(chk: bv32): bv32 {
    chk >> 25
  }

  /** Multiplication by x. */
  function Times(chk: bv32): bv32 {
    Xor(Shifted(chk), Mix(Top(chk), 5))
  }

  function Step(chk: bv32, value: bv32): bv32 {
    Xor(Times(chk), value)
  }

  function Run(chk: bv32, values: seq<bv32>): bv32 {
    if values == [] then chk else Step(Run(chk, values[..|values| - 1]), values[|values| - 1])
  }

  function Polymod(values: seq<bv32>): bv32 {
    Run(1, values)
  }

  predicate Symbols(values: seq<bv32>) {
    forall i | 0 <= i < |values| :: values[i] < 32
  }

  /* ---- Laws of exclusive or ---- */

  lemma XorAssoc(a: bv32, b: bv32, c: bv32)
    ensures Xor(Xor(a, b), c) == Xor(a, Xor(b, c))
  {
    assert (a ^ b) ^ c == a ^ (b ^ c);
  }

  lemma XorCommutes(a: bv32, b: bv32)
    ensures Xor(a, b) == Xor(b, a)
  {
    assert a ^ b == b ^ a;
  }

  lemma XorSwap(a: bv32, b: bv32, c: bv32, d: bv32)
    ensures Xor(Xor(a, b), Xor(c, d)) == Xor(Xor(a, c), Xor(b, d))
  {
    hide Xor;
    XorAssoc(a, b, Xor(c, d));
    XorAssoc(b, c, d);
    XorCommutes(b, c);
    XorAssoc(c, b, d);
    XorAssoc(a, c, Xor(b, d));
  }

  lemma XorUnits(g: bv32)
    ensures Xor(g, 0) == g && Xor(0, g) == g && Xor(g, g) == 0
  {
  }

  lemma XorTwice(a: bv32, b: bv32)
    ensures Xor(a, Xor(a, b)) == b
  {
    hide Xor;
    XorAssoc(a, a, b);
    XorUnits(a);
    XorUnits(b);
  }

  lemma XorCancel(a: bv32, b: bv32, c: bv32)
    ensures Xor(a, b) == c <==> b == Xor(a, c)
  {
    hide Xor;
    XorTwice(a, b);
    XorTwice(a, c);
  }

  lemma XorBound(a: bv32, b: bv32)
    ensures a < STATES && b < STATES ==> Xor(a, b) < STATES
  {
  }

  /* ---- Linearity ---- */

  lemma MaskXor(a: bv32, b: bv32, m: bv32)
    requires IsMask(m)
    ensures Masked(Xor(a, b), m) == Xor(Masked(a, m), Masked(b, m))
  {
    if m == 1 {
      assert (a ^ b) & 1 == (a & 1) ^ (b & 1);
    } else if m == 2 {
      assert (a ^ b) & 2 == (a & 2) ^ (b & 2);
    } else if m == 4 {
      assert (a ^ b) & 4 == (a & 4) ^ (b & 4);
    } else if m == 8 {
      assert (a ^ b) & 8 == (a & 8) ^ (b & 8);
    } else {
      assert (a ^ b) & 16 == (a & 16) ^ (b & 16);
    }
  }

  lemma OneBit(a: bv32, m: bv32)
    requires IsMask(m)
    ensures Masked(a, m) == 0 || Masked(a, m) == m
    ensures m != 0
  {
  }

  lemma XorCases(p: bv32, q: bv32, m: bv32)
    requires m != 0 && (p == 0 || p == m) && (q == 0 || q == m)
    ensures Xor(p, q) != 0 <==> (p != 0) != (q != 0)
  {
    XorUnits(m);
    XorUnits(0);
    hide Xor;
    if p == 0 {
      assert Xor(p, q) == q;
    } else if q == 0 {
      assert Xor(p, q) == m;
    } else {
      assert Xor(p, q) == 0;
    }
  }

  lemma MaskedXor(a: bv32, b: bv32, m: bv32)
    requires IsMask(m)
    ensures Masked(Xor(a, b), m) != 0 <==> (Masked(a, m) != 0) != (Masked(b, m) != 0)
  {
    hide Xor, Masked, IsMask;
    MaskXor(a, b, m);
    OneBit(a, m);
    OneBit(b, m);
    XorCases(Masked(a, m), Masked(b, m), m);
  }

  lemma BitXor(a: bv32, b: bv32, i: nat)
    requires i < 5
    ensures Bit(Xor(a, b), i) <==> (Bit(a, i) != Bit(b, i))
  {
    hide Xor, Mask, IsMask, Masked;
    MaskedXor(a, b, Mask(i));
  }

  lemma TermLinear(a: bv32, b: bv32, i: nat)
    requires i < 5
    ensures Term(Xor(a, b), i) == Xor(Term(a, i), Term(b, i))
  {
    hide Xor, Bit;
    BitXor(a, b, i);
    XorUnits(GENERATOR[i]);
    XorUnits(0);
  }

  lemma {:induction false} MixLinear(a: bv32, b: bv32, n: nat)
    requires n <= 5
    ensures Mix(Xor(a, b), n) == Xor(Mix(a, n), Mix(b, n))
  {
    hide Xor, Term;
    if n == 0 {
      XorUnits(0);
    } else {
      MixLinear(a, b, n - 1);
      TermLinear(a, b, n - 1);
      XorSwap(Mix(a, n - 1), Mix(b, n - 1), Term(a, n - 1), Term(b, n - 1));
    }
  }

  lemma ShiftLinear(a: bv32, b: bv32)
    ensures Shifted(Xor(a, b)) == Xor(Shifted(a), Shifted(b))
    ensures Top(Xor(a, b)) == Xor(Top(a), Top(b))
  {
  }

  /** Multiplication by x distributes over exclusive or. */
  lemma TimesLinear(a: bv32, b: bv32)
    ensures Times(Xor(a, b)) == Xor(Times(a), Times(b))
  {
    hide Mix, Xor, Shifted, Top;
    ShiftLinear(a, b);
    MixLinear(Top(a), Top(b), 5);
    XorSwap(Shifted(a), Shifted(b), Mix(Top(a), 5), Mix(Top(b), 5));
  }

  /* ---- Injectivity on 30-bit states ---- */

  lemma TermBound(top: bv32, i: nat)
    requires i < 5
    ensures Term(top, i) < STATES
  {
    hide Bit;
  }

  lemma {:induction false} MixBound(top: bv32, n: nat)
    requires n <= 5
    ensures Mix(top, n) < STATES
  {
    hide Xor, Term;
    if n > 0 {
      MixBound(top, n - 1);
      TermBound(top, n - 1);
      XorBound(Mix(top, n - 1), Term(top, n - 1));
    }
  }

  lemma StepBound(chk: bv32, value: bv32)
    requires value < 32
    ensures Times(chk) < STATES && Step(chk, value) < STATES
  {
    hide Xor, Mix;
    MixBound(Top(chk), 5);
    assert Shifted(chk) < STATES;
    XorBound(Shifted(chk), Mix(Top(chk), 5));
    XorBound(Times(chk), value);
  }

  /** The lowest five bits of the five generators are linearly independent. */
  lemma GeneratorsIndependent(t: bv32)
    requires t < 32 && Mix(t, 5) & 31 == 0
    ensures t == 0
  {
    hide Bit;
    MixIsSum(t);
    hide Mix, Sum;
    NonZeroSum(Bit(t, 0), Bit(t, 1), Bit(t, 2), Bit(t, 3), Bit(t, 4));
    AllBits(t);
  }

  lemma MixIsSum(t: bv32)
    ensures Mix(t, 5) == Sum(Bit(t, 0), Bit(t, 1), Bit(t, 2), Bit(t, 3), Bit(t, 4))
  {
    hide Bit, Xor;
    XorUnits(Term(t, 0));
    assert Mix(t, 1) == Term(t, 0);
    assert Mix(t, 2) == Xor(Mix(t, 1), Term(t, 1));
    assert Mix(t, 3) == Xor(Mix(t, 2), Term(t, 2));
    assert Mix(t, 4) == Xor(Mix(t, 3), Term(t, 3));
  }

  /** The generators selected by five flags. */
  function Sum(b0: bool, b1: bool, b2: bool, b3: bool, b4: bool): bv32 {
    Xor(Xor(Xor(Xor(if b0 then 0x3b6a57b2 else 0, if b1 then 0x26508e6d else 0), if b2 then 0x1ea119fa else 0),
            if b3 then 0x3d4233dd else 0), if b4 then 0x2a1462b3 else 0)
  }

  lemma NonZeroSum(b0: bool, b1: bool, b2: bool, b3: bool, b4: bool)
    ensures Sum(b0, b1, b2, b3, b4) & 31 == 0 ==> !b0 && !b1 && !b2 && !b3 && !b4
  {
  }

  lemma AllBits(t: bv32)
    requires t < 32 && !Bit(t, 0) && !Bit(t, 1) && !Bit(t, 2) && !Bit(t, 3) && !Bit(t, 4)
    ensures t == 0
  {
  }

  lemma LowBits(x: bv32, y: bv32)
    requires Xor(Shifted(x), y) == 0
    ensures y & 31 == 0
  {
  }

  lemma TimesKernel(a: bv32)
    requires a < STATES && Times(a) == 0
    ensures a == 0
  {
    hide Mix, Xor, Top;
    LowBits(a, Mix(Top(a), 5));
    assert Top(a) < 32 by { TopBound(a); }
    GeneratorsIndependent(Top(a));
    assert Mix(0, 5) == 0 by { MixZero(5); }
    XorUnits(Shifted(a));
    NoTop(a);
  }

  lemma {:induction false} MixZero(n: nat)
    requires n <= 5
    ensures Mix(0, n) == 0
  {
    if n > 0 {
      MixZero(n - 1);
      NoBits(n - 1);
      XorUnits(0);
    }
  }

  lemma NoBits(i: nat)
    requires i < 5
    ensures !Bit(0, i)
  {
  }

  lemma TopBound(a: bv32)
    requires a < STATES
    ensures Top(a) < 32
  {
  }

  lemma NoTop(a: bv32)
    requires a < STATES && Top(a) == 0
    ensures Shifted(a) == 0 ==> a == 0
  {
  }

  /** Different states stay different when they read the same symbol. */
  lemma StepInjective(a: bv32, b: bv32, value: bv32)
    requires a < STATES && b < STATES && Step(a, value) == Step(b, value)
    ensures a == b
  {
    hide Times, Xor;
    var x, y := Times(a), Times(b);
    assert x == y by {
      XorCommutes(x, value);
      XorCommutes(y, value);
      XorTwice(value, x);
      XorTwice(value, y);
    }
    TimesLinear(a, b);
    XorUnits(x);
    XorBound(a, b);
    TimesKernel(Xor(a, b));
    XorCancel(a, b, 0);
    XorUnits(a);
  }

  lemma {:induction false} RunInjective(a: bv32, b: bv32, values: seq<bv32>)
    requires a < STATES && b < STATES && Symbols(values) && Run(a, values) == Run(b, values)
    ensures a == b
  {
    hide Step;
    if values != [] {
      var front, last := values[..|values| - 1], values[|values| - 1];
      RunBound(a, front);
      RunBound(b, front);
      StepInjective(Run(a, front), Run(b, front), last);
      RunInjective(a, b, front);
    }
  }

  lemma {:induction false} RunBound(chk: bv32, values: seq<bv32>)
    requires chk < STATES && Symbols(values)
    ensures Run(chk, values) < STATES
  {
    hide Step;
    if values != [] {
      RunBound(chk, values[..|values| - 1]);
      StepBound(Run(chk, values[..|values| - 1]), values[|values| - 1]);
    }
  }

  lemma {:induction false} RunConcat(chk: bv32, a: seq<bv32>, b: seq<bv32>)
    ensures Run(chk, a + b) == Run(Run(chk, a), b)
    decreases |b|
  {
    hide Step;
    if b == [] {
      assert a + b == a;
    } else {
      assert (a + b)[..|a + b| - 1] == a + b[..|b| - 1];
      RunConcat(chk, a, b[..|b| - 1]);
    }
  }

  /* ---- At most six symbols ---- */

  function Power(chk: bv32, n: nat): bv32 {
    if n == 0 then chk else Times(Power(chk, n - 1))
  }

  function Push(p: bv32, v: bv32): bv32 {
    Xor(p << 5, v)
  }

  /** Up to six symbols packed into a word. */
  function Pack(values: seq<bv32>): bv32 {
    if values == [] then 0 else Push(Pack(values[..|values| - 1]), values[|values| - 1])
  }

  function Limit(n: nat): bv32
    requires n <= 6
  {
    match n
    case 0 => 1
    case 1 => 0x20
    case 2 => 0x400
    case 3 => 0x8000
    case 4 => 0x10_0000
    case 5 => 0x200_0000
    case 6 => 0x4000_0000
  }

  lemma {:induction false} PackBound(values: seq<bv32>)
    requires |values| <= 6 && Symbols(values)
    ensures Pack(values) < Limit(|values|)
  {
    hide Push;
    if values != [] {
      PackBound(values[..|values| - 1]);
      PackBoundStep(Pack(values[..|values| - 1]), values[|values| - 1], |values|);
    }
  }

  lemma PackBoundStep(p: bv32, v: bv32, n: nat)
    requires 0 < n <= 6 && p < Limit(n - 1) && v < 32
    ensures Push(p, v) < Limit(n)
  {
    match n
    case 1 => assert p == 0;
    case 2 => assert p < 0x20;
    case 3 => assert p < 0x400;
    case 4 => assert p < 0x8000;
    case 5 => assert p < 0x10_0000;
    case 6 => assert p < 0x200_0000;
  }

  /** Below 25 bits, multiplication by x is a shift. */
  lemma SmallTimes(p: bv32)
    requires p < 0x200_0000
    ensures Times(p) == p << 5
  {
    hide Mix, Xor;
    assert Top(p) == 0;
    MixZero(5);
    XorUnits(Shifted(p));
    assert Shifted(p) == p << 5;
  }

  lemma PushIsStep(p: bv32, v: bv32)
    requires p < 0x200_0000
    ensures Push(p, v) == Xor(Times(p), v)
  {
    hide Times, Xor;
    SmallTimes(p);
  }

  lemma LimitMonotone(n: nat)
    requires n <= 5
    ensures Limit(n) <= 0x200_0000
  {
  }

  /** Reading up to six symbols adds their packed word to a state that only depends on their number. */
  lemma {:induction false} RunIsPower(chk: bv32, values: seq<bv32>)
    requires |values| <= 6 && Symbols(values)
    ensures Run(chk, values) == Xor(Power(chk, |values|), Pack(values))
  {
    hide Xor, Times, Push;
    if values == [] {
      XorUnits(chk);
    } else {
      var front, last := values[..|values| - 1], values[|values| - 1];
      RunIsPower(chk, front);
      PackBound(front);
      LimitMonotone(|front|);
      TimesLinear(Power(chk, |front|), Pack(front));
      PushIsStep(Pack(front), last);
      XorAssoc(Times(Power(chk, |front|)), Times(Pack(front)), last);
    }
  }

  lemma {:induction false} PackInjective(a: seq<bv32>, b: seq<bv32>)
    requires |a| == |b| <= 6 && Symbols(a) && Symbols(b) && Pack(a) == Pack(b)
    ensures a == b
  {
    hide Push;
    if a != [] {
      var a', b' := a[..|a| - 1], b[..|b| - 1];
      PackBound(a');
      PackBound(b');
      LimitMonotone(|a'|);
      PackStepInjective(Pack(a'), a[|a| - 1], Pack(b'), b[|b| - 1]);
      PackInjective(a', b');
      assert a == a' + [a[|a| - 1]] && b == b' + [b[|b| - 1]];
    }
  }

  lemma PackStepInjective(p: bv32, v: bv32, q: bv32, w: bv32)
    requires p < 0x200_0000 && q < 0x200_0000 && v < 32 && w < 32 && Push(p, v) == Push(q, w)
    ensures p == q && v == w
  {
  }

  function Low(x: bv32): bv32 {
    x & 31
  }

  function Down(x: bv32): bv32 {
    x >> 5
  }

  /** `mod >> 5 * n`. */
  function Drop(mod: bv32, n: nat): bv32 {
    if n == 0 then mod else Down(Drop(mod, n - 1))
  }

  /** The symbol `p` places from the most significant one: `(mod >> (5 * (5 - p))) & 31`. */
  function Digit(mod: bv32, p: nat): bv32
    requires p < 6
  {
    Low(Drop(mod, 5 - p))
  }

  /** The six symbols of a 30-bit word. */
  function Unpack(mod: bv32): seq<bv32> {
    [Digit(mod, 0), Digit(mod, 1), Digit(mod, 2), Digit(mod, 3), Digit(mod, 4), Digit(mod, 5)]
  }

  lemma PushSplit(x: bv32)
    ensures Push(Down(x), Low(x)) == x && Low(x) < 32
  {
  }

  lemma DownBound(x: bv32)
    ensures x < 0x4000_0000 ==> Down(x) < 0x200_0000
    ensures x < 0x200_0000 ==> Down(x) < 0x10_0000
    ensures x < 0x10_0000 ==> Down(x) < 0x8000
    ensures x < 0x8000 ==> Down(x) < 0x400
    ensures x < 0x400 ==> Down(x) < 0x20
  {
  }

  lemma DropBound(mod: bv32)
    requires mod < STATES
    ensures Drop(mod, 5) < 32
  {
    hide Down;
    NoDrop(mod);
    DownBound(mod);
    DownBound(Drop(mod, 1));
    DownBound(Drop(mod, 2));
    DownBound(Drop(mod, 3));
    DownBound(Drop(mod, 4));
  }

  lemma NoDrop(mod: bv32)
    ensures Drop(mod, 0) == mod
  {
  }

  lemma LowOfSymbol(x: bv32)
    requires x < 32
    ensures Low(x) == x
  {
  }

  lemma PackUnpack(mod: bv32)
    requires mod < STATES
    ensures Symbols(Unpack(mod)) && Pack(Unpack(mod)) == mod
  {
    hide Push, Low, Down, Pack;
    var d1, d2, d3, d4, d5 := Drop(mod, 1), Drop(mod, 2), Drop(mod, 3), Drop(mod, 4), Drop(mod, 5);
    DropBound(mod);
    NoDrop(mod);
    assert Down(d4) == d5 && Down(d3) == d4 && Down(d2) == d3 && Down(d1) == d2 && Down(mod) == d1;
    hide Drop;
    LowOfSymbol(d5);
    PushSplit(d5);
    PushSplit(d4);
    PushSplit(d3);
    PushSplit(d2);
    PushSplit(d1);
    PushSplit(mod);
    PackSix(Digit(mod, 0), Digit(mod, 1), Digit(mod, 2), Digit(mod, 3), Digit(mod, 4), Digit(mod, 5));
  }

  lemma PackSix(a: bv32, b: bv32, c: bv32, d: bv32, e: bv32, f: bv32)
    ensures Pack([a, b, c, d, e, f]) == Push(Push(Push(Push(Push(a, b), c), d), e), f)
  {
    assert Push(0, a) == a by { PushZero(a); }
    hide Push;
    var none: seq<bv32> := [];
    assert [a][..0] == none && Pack([a]) == a;
    assert [a, b][..1] == [a] && [a, b, c][..2] == [a, b] && [a, b, c, d][..3] == [a, b, c];
    assert [a, b, c, d, e][..4] == [a, b, c, d] && [a, b, c, d, e, f][..5] == [a, b, c, d, e];
    assert Pack([a, b]) == Push(a, b);
    assert Pack([a, b, c]) == Push(Pack([a, b]), c);
    assert Pack([a, b, c, d]) == Push(Pack([a, b, c]), d);
    assert Pack([a, b, c, d, e]) == Push(Pack([a, b, c, d]), e);
  }

  lemma PushZero(a: bv32)
    ensures Push(0, a) == a
  {
  }

  /* ---- The leading coefficient ---- */

  /** The remainder is that of the polynomial whose coefficients are 1 and then the symbols. */
  lemma PolymodLeading(values: seq<bv32>)
    ensures Polymod(values) == Run(0, [1] + values)
  {
    RunConcat(0, [1], values);
    assert Run(0, [1]) == 1 by { LeadingOne(); }
    hide Run;
  }

  lemma LeadingOne()
    ensures Run(0, [1]) == 1
  {
    assert [1][..0] == [] && Run(0, []) == 0;
    SmallTimes(0);
    hide Times;
  }

  /** So a zero symbol in front is noticed: no accepted sequence stays accepted with it. */
  lemma ZeroInFront(values: seq<bv32>)
    requires Symbols(values) && Polymod(values) == 1
    ensures Polymod([0] + values) != 1
  {
    RunConcat(1, [0], values);
    assert Run(1, [0]) == 32 by { OneZero(); }
    hide Run;
    if Run(32, values) == Run(1, values) {
      RunInjective(32, 1, values);
      assert false;
    }
  }

  lemma OneZero()
    ensures Run(1, [0]) == 32
  {
    assert [0][..0] == [] && Run(1, []) == 1;
    SmallTimes(1);
    hide Times;
  }

  /* ---- Creating and verifying ---- */

  const ZEROS: seq<bv32> := [0, 0, 0, 0, 0, 0]

  function CreateChecksum(values: seq<bv32>): seq<bv32> {
    Unpack(Xor(Polymod(values + ZEROS), 1))
  }

  predicate VerifyChecksum(values: seq<bv32>) {
    Polymod(values) == 1
  }

  lemma PackZeros()
    ensures Pack(ZEROS) == 0
  {
    PackSix(0, 0, 0, 0, 0, 0);
    PushZero(0);
  }

  /** For symbols of any number, six symbols complete them to an accepted sequence exactly when they are their checksum. */
  lemma ChecksumIff(values: seq<bv32>, c: seq<bv32>)
    requires Symbols(values) && Symbols(c) && |c| == 6
    ensures VerifyChecksum(values + c) <==> c == CreateChecksum(values)
    ensures Symbols(CreateChecksum(values)) && |CreateChecksum(values)| == 6
  {
    hide Xor, Times, Pack, Run, Power, Unpack;
    var s := Run(1, values);
    var p := Power(s, 6);
    RunConcat(1, values, c);
    RunConcat(1, values, ZEROS);
    RunIsPower(s, c);
    RunIsPower(s, ZEROS);
    PackZeros();
    XorUnits(p);
    RunBound(1, values);
    RunBound(s, ZEROS);
    var mod := Xor(p, 1);
    XorBound(p, 1);
    PackUnpack(mod);
    UnpackLength(mod);
    XorCancel(p, Pack(c), 1);
    if Pack(c) == mod {
      PackInjective(c, Unpack(mod));
    }
  }

  lemma UnpackLength(mod: bv32)
    ensures |Unpack(mod)| == 6
  {
  }

  /**
   Two different sequences of the same length that differ only within a window of at most six consecutive symbols
   are never both accepted: any change of a single symbol, and any swap of neighbours, is detected.
   */
  lemma BurstDetected(before: seq<bv32>, x: seq<bv32>, y: seq<bv32>, after: seq<bv32>)
    requires Symbols(before) && Symbols(x) && Symbols(y) && Symbols(after)
    requires |x| == |y| <= 6 && x != y
    ensures !(VerifyChecksum(before + x + after) && VerifyChecksum(before + y + after))
  {
    hide Xor, Times, Pack, Run, Power;
    var s := Run(1, before);
    RunConcat(1, before, x);
    RunConcat(1, before, y);
    RunConcat(1, before + x, after);
    RunConcat(1, before + y, after);
    RunBound(1, before);
    var a, b := Run(s, x), Run(s, y);
    RunBound(s, x);
    RunBound(s, y);
    if Run(a, after) == Run(b, after) {
      RunInjective(a, b, after);
      RunIsPower(s, x);
      RunIsPower(s, y);
      XorTwice(Power(s, |x|), Pack(x));
      XorTwice(Power(s, |x|), Pack(y));
      PackInjective(x, y);
      assert false;
    }
  }

  /** Changing one symbol of an accepted sequence makes it rejected. */
  lemma SingleErrorDetected(values: seq<bv32>, i: nat, v: bv32)
    requires Symbols(values) && VerifyChecksum(values) && i < |values| && v < 32 && v != values[i]
    ensures !VerifyChecksum(values[i := v])
  {
    hide Polymod;
    assert values == values[..i] + [values[i]] + values[i + 1..];
    assert values[i := v] == values[..i] + [v] + values[i + 1..];
    BurstDetected(values[..i], [values[i]], [v], values[i + 1..]);
  }

  /* ---- The source's loops ---- */

  method PolymodLoop(values: seq<bv32>) returns (chk: bv32)
    ensures chk == Polymod(values)
  {
    hide Xor, Shifted, Top, Term;
    chk := 1;
    for k := 0 to |values|
      invariant chk == Run(1, values[..k])
    {
      ghost var prev := chk;
      var value := values[k];
      var top := Top(chk);
      chk := Xor(Shifted(chk), value);
      XorUnits(chk);
      for i := 0 to 5
        invariant chk == Xor(Xor(Shifted(prev), value), Mix(top, i))
      {
        XorAssoc(Xor(Shifted(prev), value), Mix(top, i), Term(top, i));
        NoTerm(top, i, chk);
        if Bit(top, i) {
          chk := Xor(chk, GENERATOR[i]);
        }
      }
      XorAssoc(Shifted(prev), value, Mix(top, 5));
      XorAssoc(Shifted(prev), Mix(top, 5), value);
      XorCommutes(value, Mix(top, 5));
      assert values[..k + 1][..k] == values[..k];
    }
    assert values[..|values|] == values;
  }

  lemma NoTerm(top: bv32, i: nat, chk: bv32)
    requires i < 5
    ensures Xor(chk, Term(top, i)) == if Bit(top, i) then Xor(chk, GENERATOR[i]) else chk
  {
    hide Bit;
    XorUnits(chk);
  }

  method CreateChecksumLoop(values: seq<bv32>) returns (result: seq<bv32>)
    ensures result == CreateChecksum(values)
  {
    hide Polymod, Xor, Digit;
    var chk := PolymodLoop(values + [0, 0, 0, 0, 0, 0]);
    var mod := Xor(chk, 1);
    result := [];
    UnpackLength(mod);
    for p := 0 to 6
      invariant result == Unpack(mod)[..p]
    {
      assert Unpack(mod)[p] == Digit(mod, p);
      result := result + [Digit(mod, p)];
    }
  }
}
