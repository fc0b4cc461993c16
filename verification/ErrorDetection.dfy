/**
 How many wrong symbols the checksum of a Klayr32 address detects (elements/cryptography/src/address.ts:76-107).

 The symbols are the field of 32 elements, and the checksum step commutes with multiplication by them. So up to a factor
 there is only one error at each distance, and 37 constants decide about all errors in an address.
 */
module ErrorDetection {
  import opened Checksum

  /* ---- Multiplication of every symbol of a word by the primitive element ---- */

  /** Every symbol is doubled modulo x^5 + x^3 + 1. */
  function Double(x: bv32): bv32 {
    Xor(Raise(x), Xor(Carry(x), Fold(x)))
  }

  function Raise(x: bv32): bv32 {
    (x & 0x1ef7bdef) << 1
  }

  function Carry(x: bv32): bv32 {
    (x & 0x21084210) >> 4
  }

  function Fold(x: bv32): bv32 {
    (x & 0x21084210) >> 1
  }

  lemma RaiseLinear(a: bv32, b: bv32)
    ensures Raise(Xor(a, b)) == Xor(Raise(a), Raise(b))
  {
  }

  lemma CarryLinear(a: bv32, b: bv32)
    ensures Carry(Xor(a, b)) == Xor(Carry(a), Carry(b))
  {
  }

  lemma FoldLinear(a: bv32, b: bv32)
    ensures Fold(Xor(a, b)) == Xor(Fold(a), Fold(b))
  {
  }

  lemma DoubleLinear(a: bv32, b: bv32)
    ensures Double(Xor(a, b)) == Xor(Double(a), Double(b))
  {
    hide Xor, Raise, Carry, Fold;
    RaiseLinear(a, b);
    CarryLinear(a, b);
    FoldLinear(a, b);
    XorSwap(Carry(a), Carry(b), Fold(a), Fold(b));
    XorSwap(Raise(a), Raise(b), Xor(Carry(a), Fold(a)), Xor(Carry(b), Fold(b)));
  }

  lemma DoubleBound(x: bv32)
    ensures x < STATES ==> Double(x) < STATES
    ensures x < 32 ==> Double(x) < 32
  {
  }

  lemma DoubleInjective(x: bv32, y: bv32)
    requires x < STATES && y < STATES && Double(x) == Double(y)
    ensures x == y
  {
  }

  lemma PartsShifted(x: bv32)
    requires x < STATES
    ensures Raise(Shifted(x)) == Shifted(Raise(x)) && Carry(Shifted(x)) == Shifted(Carry(x)) && Fold(Shifted(x)) == Shifted(Fold(x))
  {
  }

  lemma DoubleShifted(x: bv32)
    requires x < STATES
    ensures Double(Shifted(x)) == Shifted(Double(x))
  {
    hide Xor, Raise, Carry, Fold, Shifted;
    PartsShifted(x);
    ShiftLinear(Carry(x), Fold(x));
    ShiftLinear(Raise(x), Xor(Carry(x), Fold(x)));
  }

  lemma DoubleTop(x: bv32)
    requires x < STATES
    ensures Double(Top(x)) == Top(Double(x))
  {
  }

  lemma PartsDown(x: bv32)
    requires x < STATES
    ensures Raise(Down(x)) == Down(Raise(x)) && Carry(Down(x)) == Down(Carry(x)) && Fold(Down(x)) == Down(Fold(x))
  {
  }

  lemma DownLinear(a: bv32, b: bv32)
    ensures Down(Xor(a, b)) == Xor(Down(a), Down(b))
  {
  }

  lemma DoubleDown(x: bv32)
    requires x < STATES
    ensures Double(Down(x)) == Down(Double(x))
  {
    hide Xor, Raise, Carry, Fold, Down;
    PartsDown(x);
    DownLinear(Carry(x), Fold(x));
    DownLinear(Raise(x), Xor(Carry(x), Fold(x)));
  }

  lemma MixIsPicked(t: bv32)
    ensures Mix(t, 5) == Picked(t, 0x3b6a57b2, 0x26508e6d, 0x1ea119fa, 0x3d4233dd, 0x2a1462b3)
  {
    MixIsSum(t);
    hide Mix, Xor;
  }

  lemma GeneratorsDouble()
    ensures Double(0x3b6a57b2) == 0x26508e6d && Double(0x26508e6d) == 0x1ea119fa && Double(0x1ea119fa) == 0x3d4233dd
    ensures Double(0x3d4233dd) == 0x2a1462b3 && Double(0x2a1462b3) == Xor(0x3d4233dd, 0x3b6a57b2)
  {
  }

  /** The generators are the first one times the powers of the primitive element. */
  lemma MixDouble(t: bv32)
    requires t < 32
    ensures Mix(Double(t), 5) == Double(Mix(t, 5))
  {
    hide Mix, Picked, Xor, Double;
    MixIsPicked(t);
    MixIsPicked(Double(t));
    GeneratorsDouble();
    DoublePicked(t, 0x3b6a57b2, 0x26508e6d, 0x1ea119fa, 0x3d4233dd, 0x2a1462b3);
    DoubledBits(t, 0x3b6a57b2, 0x26508e6d, 0x1ea119fa, 0x3d4233dd, 0x2a1462b3);
  }

  /** The checksum step is linear over the field of symbols, not only over bits. */
  lemma TimesDouble(x: bv32)
    requires x < STATES
    ensures Times(Double(x)) == Double(Times(x))
  {
    hide Xor, Mix, Shifted, Top, Double;
    DoubleShifted(x);
    DoubleTop(x);
    TopBound(x);
    MixDouble(Top(x));
    DoubleLinear(Shifted(x), Mix(Top(x), 5));
  }

  /* ---- Multiplication by any symbol ---- */

  function Scale(x: bv32, k: nat): bv32 {
    if k == 0 then x else Double(Scale(x, k - 1))
  }

  lemma {:induction false} ScaleBound(x: bv32, k: nat)
    ensures x < STATES ==> Scale(x, k) < STATES
    ensures x < 32 ==> Scale(x, k) < 32
  {
    hide Double;
    if k > 0 {
      ScaleBound(x, k - 1);
      DoubleBound(Scale(x, k - 1));
    }
  }

  lemma {:induction false} ScaleAdd(x: bv32, i: nat, j: nat)
    ensures Scale(Scale(x, i), j) == Scale(x, i + j)
  {
    hide Double;
    if j > 0 {
      ScaleAdd(x, i, j - 1);
    }
  }

  lemma {:induction false} ScaleInjective(x: bv32, y: bv32, k: nat)
    requires x < STATES && y < STATES && Scale(x, k) == Scale(y, k)
    ensures x == y
  {
    hide Double;
    if k > 0 {
      ScaleBound(x, k - 1);
      ScaleBound(y, k - 1);
      DoubleInjective(Scale(x, k - 1), Scale(y, k - 1));
      ScaleInjective(x, y, k - 1);
    }
  }

  lemma {:induction false} TimesScale(x: bv32, k: nat)
    requires x < STATES
    ensures Times(Scale(x, k)) == Scale(Times(x), k)
  {
    hide Double, Times;
    if k > 0 {
      TimesScale(x, k - 1);
      ScaleBound(x, k - 1);
      TimesDouble(Scale(x, k - 1));
    }
  }

  lemma {:induction false} PowerBound(x: bv32, n: nat)
    requires x < STATES
    ensures Power(x, n) < STATES
  {
    hide Times;
    if n > 0 {
      StepBound(Power(x, n - 1), 0);
    }
  }

  lemma {:induction false} PowerScale(x: bv32, k: nat, n: nat)
    requires x < STATES
    ensures Power(Scale(x, k), n) == Scale(Power(x, n), k)
  {
    hide Double, Times, Scale;
    if n > 0 {
      PowerScale(x, k, n - 1);
      PowerBound(x, n - 1);
      TimesScale(Power(x, n - 1), k);
    }
  }

  lemma {:induction false} DownScale(x: bv32, k: nat)
    requires x < STATES
    ensures Down(Scale(x, k)) == Scale(Down(x), k)
  {
    hide Double, Down;
    if k > 0 {
      DownScale(x, k - 1);
      ScaleBound(x, k - 1);
      DoubleDown(Scale(x, k - 1));
    }
  }

  /** `x` times the symbol `c`. */
  function Mul(c: bv32, x: bv32): bv32 {
    Picked(c, x, Scale(x, 1), Scale(x, 2), Scale(x, 3), Scale(x, 4))
  }

  function Picked(c: bv32, s0: bv32, s1: bv32, s2: bv32, s3: bv32, s4: bv32): bv32 {
    Xor(Xor(Xor(Xor(Pick(c, 1, s0), Pick(c, 2, s1)), Pick(c, 4, s2)), Pick(c, 8, s3)), Pick(c, 16, s4))
  }

  function Pick(c: bv32, m: bv32, x: bv32): bv32 {
    if c & m == 0 then 0 else x
  }

  lemma DoublePicked(c: bv32, s0: bv32, s1: bv32, s2: bv32, s3: bv32, s4: bv32)
    ensures Double(Picked(c, s0, s1, s2, s3, s4)) == Picked(c, Double(s0), Double(s1), Double(s2), Double(s3), Double(s4))
  {
    assert Double(0) == 0;
    hide Double, Xor;
    DoubleLinear(Pick(c, 1, s0), Pick(c, 2, s1));
    DoubleLinear(Xor(Pick(c, 1, s0), Pick(c, 2, s1)), Pick(c, 4, s2));
    DoubleLinear(Xor(Xor(Pick(c, 1, s0), Pick(c, 2, s1)), Pick(c, 4, s2)), Pick(c, 8, s3));
    DoubleLinear(Xor(Xor(Xor(Pick(c, 1, s0), Pick(c, 2, s1)), Pick(c, 4, s2)), Pick(c, 8, s3)), Pick(c, 16, s4));
  }

  /** The primitive element satisfies x^5 == x^3 + 1. */
  predicate Fifth(x: bv32) {
    Double(Double(Double(Double(Double(x))))) == Xor(Double(Double(Double(x))), x)
  }

  lemma FifthOfSymbol(v: bv32)
    requires v < 32
    ensures Fifth(v)
  {
  }

  lemma FifthShifted(p: bv32)
    requires p < 0x200_0000 && Fifth(p)
    ensures Fifth(Shifted(p))
  {
    hide Xor, Double, Shifted;
    var p1 := Double(p);
    var p2 := Double(p1);
    var p3 := Double(p2);
    var p4 := Double(p3);
    DoubleBound(p);
    DoubleBound(p1);
    DoubleBound(p2);
    DoubleBound(p3);
    DoubleShifted(p);
    DoubleShifted(p1);
    DoubleShifted(p2);
    DoubleShifted(p3);
    DoubleShifted(p4);
    ShiftLinear(p3, p);
  }

  lemma FifthSum(a: bv32, b: bv32)
    requires Fifth(a) && Fifth(b)
    ensures Fifth(Xor(a, b))
  {
    hide Xor, Double;
    var a1, b1 := Double(a), Double(b);
    var a2, b2 := Double(a1), Double(b1);
    var a3, b3 := Double(a2), Double(b2);
    var a4, b4 := Double(a3), Double(b3);
    DoubleLinear(a, b);
    DoubleLinear(a1, b1);
    DoubleLinear(a2, b2);
    DoubleLinear(a3, b3);
    DoubleLinear(a4, b4);
    XorSwap(a3, a, b3, b);
  }

  lemma SplitWord(x: bv32)
    requires x < STATES
    ensures x == Xor(Shifted(Down(x)), Low(x)) && Down(x) < 0x200_0000 && Low(x) < 32
  {
  }

  lemma {:induction false} FifthPower(x: bv32, n: nat)
    requires n <= 6 && x < STATES && x < Limit(n)
    ensures Fifth(x)
    decreases n
  {
    hide Fifth, Xor, Shifted, Down, Low;
    if n <= 1 {
      FifthOfSymbol(x);
    } else {
      SplitWord(x);
      assert Down(x) < Limit(n - 1) by { DownLimit(x, n); }
      FifthPower(Down(x), n - 1);
      FifthShifted(Down(x));
      FifthOfSymbol(Low(x));
      FifthSum(Shifted(Down(x)), Low(x));
    }
  }

  lemma DownLimit(x: bv32, n: nat)
    requires 1 < n <= 6 && x < Limit(n)
    ensures Down(x) < Limit(n - 1)
  {
    DownBound(x);
  }

  lemma DoubledSymbol(c: bv32)
    requires c < 32
    ensures Double(c) & 1 == 0 <==> c & 16 == 0
    ensures Double(c) & 2 == 0 <==> c & 1 == 0
    ensures Double(c) & 4 == 0 <==> c & 2 == 0
    ensures Double(c) & 8 == 0 <==> (c & 4 == 0 <==> c & 16 == 0)
    ensures Double(c) & 16 == 0 <==> c & 8 == 0
  {
  }

  lemma Rearranged(a: bv32, b: bv32, c: bv32, d: bv32, e: bv32, f: bv32)
    ensures Xor(Xor(Xor(Xor(a, b), c), d), Xor(e, f)) == Xor(Xor(Xor(Xor(f, a), b), Xor(c, e)), d)
  {
    hide Xor;
    var ab, ce := Xor(a, b), Xor(c, e);
    XorSwap(Xor(ab, c), d, e, f);
    XorAssoc(ab, c, e);
    XorCommutes(d, f);
    XorAssoc(Xor(ab, ce), f, d);
    XorCommutes(Xor(ab, ce), f);
    XorAssoc(f, ab, ce);
    XorAssoc(f, a, b);
  }

  lemma DoubledBits(c: bv32, s0: bv32, s1: bv32, s2: bv32, s3: bv32, s4: bv32)
    requires c < 32
    ensures Picked(c, s1, s2, s3, s4, Xor(s3, s0)) == Picked(Double(c), s0, s1, s2, s3, s4)
  {
    hide Double, Xor;
    DoubledSymbol(c);
    Rearranged(Pick(c, 1, s1), Pick(c, 2, s2), Pick(c, 4, s3), Pick(c, 8, s4), Pick(c, 16, s3), Pick(c, 16, s0));
    XorUnits(s3);
    XorUnits(0);
  }

  lemma MulDouble(c: bv32, x: bv32)
    requires c < 32 && x < STATES
    ensures Double(Mul(c, x)) == Mul(Double(c), x)
  {
    hide Double, Xor, Picked;
    FifthPower(x, 6);
    var s1, s2, s3, s4 := Scale(x, 1), Scale(x, 2), Scale(x, 3), Scale(x, 4);
    assert Scale(x, 0) == x;
    assert s1 == Double(Scale(x, 0));
    assert s2 == Double(s1) && s3 == Double(s2) && s4 == Double(s3);
    assert Double(s4) == Xor(s3, x);
    DoublePicked(c, x, s1, s2, s3, s4);
    DoubledBits(c, x, s1, s2, s3, s4);
  }

  lemma MulOne(x: bv32)
    ensures Mul(1, x) == x
  {
    hide Scale, Xor;
    XorUnits(x);
  }

  lemma {:induction false} ScaleIsMul(x: bv32, k: nat)
    requires x < STATES
    ensures Scale(x, k) == Mul(Scale(1, k), x)
  {
    hide Double, Mul;
    if k == 0 {
      MulOne(x);
    } else {
      ScaleIsMul(x, k - 1);
      ScaleBound(1, k - 1);
      MulDouble(Scale(1, k - 1), x);
    }
  }

  /** The powers of the primitive element are all symbols but zero. */
  lemma Exponents()
    ensures Scale(1, 0) == 1 && Scale(1, 1) == 2 && Scale(1, 2) == 4 && Scale(1, 3) == 8
    ensures Scale(1, 4) == 16 && Scale(1, 5) == 9 && Scale(1, 6) == 18 && Scale(1, 7) == 13
    ensures Scale(1, 8) == 26 && Scale(1, 9) == 29 && Scale(1, 10) == 19 && Scale(1, 11) == 15
    ensures Scale(1, 12) == 30 && Scale(1, 13) == 21 && Scale(1, 14) == 3 && Scale(1, 15) == 6
    ensures Scale(1, 16) == 12 && Scale(1, 17) == 24 && Scale(1, 18) == 25 && Scale(1, 19) == 27
    ensures Scale(1, 20) == 31 && Scale(1, 21) == 23 && Scale(1, 22) == 7 && Scale(1, 23) == 14
    ensures Scale(1, 24) == 28 && Scale(1, 25) == 17 && Scale(1, 26) == 11 && Scale(1, 27) == 22
    ensures Scale(1, 28) == 5 && Scale(1, 29) == 10 && Scale(1, 30) == 20 && Scale(1, 31) == 1
  {
    DoubleTable();
    hide Double;
    assert Scale(1, 0) == 1;
    assert Scale(1, 8) == 26;
    assert Scale(1, 16) == 12;
    assert Scale(1, 24) == 28;
  }

  lemma DoubleTable()
    ensures Double(1) == 2 && Double(2) == 4 && Double(4) == 8 && Double(8) == 16
    ensures Double(16) == 9 && Double(9) == 18 && Double(18) == 13 && Double(13) == 26
    ensures Double(26) == 29 && Double(29) == 19 && Double(19) == 15 && Double(15) == 30
    ensures Double(30) == 21 && Double(21) == 3 && Double(3) == 6 && Double(6) == 12
    ensures Double(12) == 24 && Double(24) == 25 && Double(25) == 27 && Double(27) == 31
    ensures Double(31) == 23 && Double(23) == 7 && Double(7) == 14 && Double(14) == 28
    ensures Double(28) == 17 && Double(17) == 11 && Double(11) == 22 && Double(22) == 5
    ensures Double(5) == 10 && Double(10) == 20 && Double(20) == 1
  {
  }

  lemma Logarithm(a: bv32) returns (k: nat)
    requires 0 < a < 32
    ensures k < 31 && Scale(1, k) == a
  {
    Exponents();
    hide Scale;
    k :| k < 31 && Scale(1, k) == a;
  }

  lemma OnlyMultiplesOfPeriod(k: nat)
    requires k < 62 && Scale(1, k) == 1
    ensures k == 0 || k == 31
  {
    Exponents();
    hide Double;
    if k >= 31 {
      ScaleAdd(1, 31, k - 31);
    }
    hide Scale;
  }

  lemma ScalePeriod(x: bv32)
    requires x < STATES
    ensures Scale(x, 31) == x
  {
    Exponents();
    hide Scale, Mul;
    ScaleIsMul(x, 31);
    MulOne(x);
  }

  /* ---- Words up to a factor ---- */

  /** The first symbol of a word that is not zero. */
  function Lead(x: bv32): bv32
    decreases x
  {
    if x < 32 then x
    else
      DownLess(x);
      Lead(Down(x))
  }

  lemma DownLess(x: bv32)
    requires x >= 32
    ensures 0 < Down(x) < x
  {
  }

  lemma DownIsZero(x: bv32)
    ensures Down(x) == 0 <==> x < 32
  {
  }

  lemma {:induction false} LeadDouble(x: bv32)
    requires x < STATES
    ensures Lead(Double(x)) == Double(Lead(x))
    decreases x
  {
    hide Double, Down;
    DoubleBound(x);
    if x >= 32 {
      DownLess(x);
      LeadDouble(Down(x));
      DoubleDown(x);
      DownIsZero(Double(x));
      if Double(Down(x)) == 0 {
        ScaledZero(1);
        assert Scale(0, 0) == 0;
        DoubleInjective(Down(x), 0);
        assert false;
      }
    }
  }

  lemma {:induction false} LeadScale(x: bv32, k: nat)
    requires x < STATES
    ensures Lead(Scale(x, k)) == Scale(Lead(x), k)
  {
    hide Double, Lead;
    if k > 0 {
      LeadScale(x, k - 1);
      ScaleBound(x, k - 1);
      LeadDouble(Scale(x, k - 1));
    }
  }

  /** A word whose first symbol is one has no other multiple of that kind. */
  lemma OneNormal(x: bv32, y: bv32, k: nat)
    requires x < STATES && Lead(x) == 1 && y == Scale(x, k) && Lead(y) == 1 && k < 62
    ensures y == x
  {
    hide Double, Lead, Scale;
    LeadScale(x, k);
    OnlyMultiplesOfPeriod(k);
    ScalePeriod(x);
    ScaleZero(x);
  }

  lemma ScaleZero(x: bv32)
    ensures Scale(x, 0) == x
  {
  }

  lemma SameNormal(x: bv32, y: bv32, i: nat, j: nat)
    requires x < STATES && y < STATES && Lead(x) == Lead(y) == 1 && i < 62 && j < 62 && Scale(x, i) == Scale(y, j)
    ensures x == y
  {
    hide Double, Lead, Scale;
    if i >= j {
      ScaleAdd(x, i - j, j);
      ScaleBound(x, i - j);
      ScaleInjective(Scale(x, i - j), y, j);
      OneNormal(x, y, i - j);
    } else {
      ScaleAdd(y, j - i, i);
      ScaleBound(y, j - i);
      ScaleInjective(x, Scale(y, j - i), i);
      OneNormal(y, x, j - i);
    }
  }

  /* ---- The same functions, for constants ---- */

  function TimesDirect(x: bv32): bv32 {
    Xor(Shifted(x), Picked(Top(x), 0x3b6a57b2, 0x26508e6d, 0x1ea119fa, 0x3d4233dd, 0x2a1462b3))
  }

  lemma TimesIsDirect(x: bv32)
    ensures Times(x) == TimesDirect(x)
  {
    hide Xor, Shifted, Top, Picked, Mix;
    MixIsPicked(Top(x));
  }

  function DoubleDirect(x: bv32): bv32 {
    ((x & 0x1ef7bdef) << 1) ^ (((x & 0x21084210) >> 4) ^ ((x & 0x21084210) >> 1))
  }

  lemma DoubleIsDirect(x: bv32)
    ensures Double(x) == DoubleDirect(x)
  {
  }

  function MulDirect(c: bv32, x: bv32): bv32 {
    var x1 := DoubleDirect(x);
    var x2 := DoubleDirect(x1);
    var x3 := DoubleDirect(x2);
    Picked(c, x, x1, x2, x3, DoubleDirect(x3))
  }

  lemma MulIsDirect(c: bv32, x: bv32)
    ensures Mul(c, x) == MulDirect(c, x)
  {
    hide Double, DoubleDirect, Picked;
    assert Scale(x, 0) == x;
    assert Scale(x, 1) == Double(Scale(x, 0));
    DoubleIsDirect(x);
    DoubleIsDirect(Scale(x, 1));
    DoubleIsDirect(Scale(x, 2));
    DoubleIsDirect(Scale(x, 3));
  }

  predicate StartsWithOne(n: bv32) {
    n == 1 || n >> 5 == 1 || n >> 10 == 1 || n >> 15 == 1 || n >> 20 == 1
  }

  lemma OneLeads(n: bv32)
    requires StartsWithOne(n) && n < 0x200_0000
    ensures Lead(n) == 1
  {
    hide Lead;
    var n1 := Down(n);
    var n2 := Down(n1);
    var n3 := Down(n2);
    LeadNext(n);
    LeadNext(n1);
    LeadNext(n2);
    LeadNext(n3);
    LeadNext(Down(n3));
    LeadNext(1);
    OneBelow(n);
    hide Down, StartsWithOne;
  }

  lemma LeadNext(n: bv32)
    ensures Lead(n) == if n < 32 then n else Lead(Down(n))
  {
  }

  /** Each word on the way is a single one, or has more symbols. */
  lemma OneBelow(n: bv32)
    requires StartsWithOne(n) && n < 0x200_0000
    ensures n == 1 || n >= 32
    ensures Down(n) == 1 || Down(n) >= 32 || n == 1
    ensures var m := Down(Down(n)); m == 1 || m >= 32 || n == 1 || Down(n) == 1
    ensures var m := Down(Down(Down(n))); m == 1 || m >= 32 || n == 1 || Down(n) == 1 || Down(Down(n)) == 1
    ensures n == 1 || Down(n) == 1 || Down(Down(n)) == 1 || Down(Down(Down(n))) == 1 || Down(Down(Down(Down(n)))) == 1
  {
  }

  /* ---- The errors of an address ---- */

  /** The words with first symbol one that a wrong symbol becomes, but for a factor and its last symbol, by its distance. */
  function Index(n: bv32): nat {
    if n == 0x1 then 1 else if n == 0x20 then 2 else if n == 0x400 then 3
    else if n == 0x8000 then 4 else if n == 0x100000 then 5 else if n == 0x1cde01 then 6
    else if n == 0x1504a6 then 7 else if n == 0x10c3f8 then 8 else if n == 0x139062 then 9
    else if n == 0x1556ab then 10 else if n == 0x1e4ce1 then 11 else if n == 0x12ce91 then 12
    else if n == 0x178191 then 13 else if n == 0x1bbecb then 14 else if n == 0x1fa06b then 15
    else if n == 0x17fdf7 then 16 else if n == 0x1a557c then 17 else if n == 0x1e983b then 18
    else if n == 0xf76c then 19 else if n == 0x1eed84 then 20 else if n == 0xcf24 then 21
    else if n == 0x19e494 then 22 else if n == 0x1dfb58 then 23 else if n == 0x1de9c5 then 24
    else if n == 0x1173fc then 25 else if n == 0x1ec99b then 26 else if n == 0x9aeb then 27
    else if n == 0x135d70 then 28 else if n == 0x1f0bb7 then 29 else if n == 0x161f3b then 30
    else if n == 0x10d54c then 31 else if n == 0x1bee37 then 32 else if n == 0x1ed109 then 33
    else if n == 0xb9d7 then 34 else if n == 0x173ae9 then 35 else if n == 0x16c074 then 36
    else if n == 0x17e2c7 then 37
    else 0
  }

  /** `d` symbols later a wrong symbol 1 has become `p`, which but for its last symbol is `f` times `n`. */
  ghost predicate Row(d: nat, p: bv32, f: bv32, n: bv32) {
    && Power(1, d) == p && MulDirect(f, n) == p >> 5
    && 0 < f < 32 && n < 0x200_0000 && Lead(n) == 1 && Index(n) == d
  }

  ghost predicate Known(d: nat) {
    exists p, f, n :: Row(d, p, f, n)
  }

  lemma Next(d: nat, p: bv32, q: bv32, f: bv32, n: bv32)
    requires Power(1, d) == p && TimesDirect(p) == q && MulDirect(f, n) == q >> 5
    requires 0 < f < 32 && n < 0x200_0000 && StartsWithOne(n) && Index(n) == d + 1
    ensures Power(1, d + 1) == q && Known(d + 1)
  {
    hide Lead, Index, MulDirect, TimesDirect, Times, StartsWithOne;
    TimesIsDirect(p);
    OneLeads(n);
    assert Row(d + 1, q, f, n);
  }

  lemma NoPower()
    ensures Power(1, 0) == 1
  {
  }

  lemma Indexes1To9()
    ensures Index(0x1) == 1 && Index(0x20) == 2 && Index(0x400) == 3 && Index(0x8000) == 4
    ensures Index(0x100000) == 5 && Index(0x1cde01) == 6 && Index(0x1504a6) == 7 && Index(0x10c3f8) == 8
    ensures Index(0x139062) == 9
  {
  }

  lemma Indexes10To18()
    ensures Index(0x1556ab) == 10 && Index(0x1e4ce1) == 11 && Index(0x12ce91) == 12 && Index(0x178191) == 13
    ensures Index(0x1bbecb) == 14 && Index(0x1fa06b) == 15 && Index(0x17fdf7) == 16 && Index(0x1a557c) == 17
    ensures Index(0x1e983b) == 18
  {
  }

  lemma Indexes19To27()
    ensures Index(0xf76c) == 19 && Index(0x1eed84) == 20 && Index(0xcf24) == 21 && Index(0x19e494) == 22
    ensures Index(0x1dfb58) == 23 && Index(0x1de9c5) == 24 && Index(0x1173fc) == 25 && Index(0x1ec99b) == 26
    ensures Index(0x9aeb) == 27
  {
  }

  lemma Indexes28To37()
    ensures Index(0x135d70) == 28 && Index(0x1f0bb7) == 29 && Index(0x161f3b) == 30 && Index(0x10d54c) == 31
    ensures Index(0x1bee37) == 32 && Index(0x1ed109) == 33 && Index(0xb9d7) == 34 && Index(0x173ae9) == 35
    ensures Index(0x16c074) == 36 && Index(0x17e2c7) == 37
  {
  }

  lemma Rows1To9()
    ensures Power(1, 9) == 0x22cb696d
    ensures Known(1) && Known(2) && Known(3) && Known(4) && Known(5) && Known(6) && Known(7) && Known(8) && Known(9)
  {
    hide Power, Known, Index;
    Indexes1To9();
    NoPower();
    Next(0, 0x1, 0x20, 0x1, 0x1);
    Next(1, 0x20, 0x400, 0x1, 0x20);
    Next(2, 0x400, 0x8000, 0x1, 0x400);
    Next(3, 0x8000, 0x100000, 0x1, 0x8000);
    Next(4, 0x100000, 0x2000000, 0x1, 0x100000);
    Next(5, 0x2000000, 0x3b6a57b2, 0x1d, 0x1cde01);
    Next(6, 0x3b6a57b2, 0x1fd7e966, 0xf, 0x1504a6);
    Next(7, 0x1fd7e966, 0x424df38, 0x2, 0x10c3f8);
    Next(8, 0x424df38, 0x22cb696d, 0x11, 0x139062);
  }

  lemma Rows10To18()
    ensures Power(1, 18) == 0x228ec6ab
    ensures Known(10) && Known(11) && Known(12) && Known(13) && Known(14) && Known(15) && Known(16) && Known(17) && Known(18)
  {
    hide Power, Known, Index;
    Indexes10To18();
    Rows1To9();
    Next(9, 0x22cb696d, 0x81318a1, 0x4, 0x1556ab);
    Next(10, 0x81318a1, 0x1cc20dda, 0xe, 0x1e4ce1);
    Next(11, 0x1cc20dda, 0x1df21f0a, 0xe, 0x12ce91);
    Next(12, 0x1df21f0a, 0x3bf0450a, 0x1d, 0x178191);
    Next(13, 0x3bf0450a, 0xc95be66, 0x6, 0x1bbecb);
    Next(14, 0xc95be66, 0x2a465b57, 0x15, 0x1fa06b);
    Next(15, 0x2a465b57, 0x714461b, 0x3, 0x17fdf7);
    Next(16, 0x714461b, 0x3fb21abf, 0x1f, 0x1a557c);
    Next(17, 0x3fb21abf, 0x228ec6ab, 0x11, 0x1e983b);
  }

  lemma Rows19To27()
    ensures Power(1, 27) == 0x1926aa7
    ensures Known(19) && Known(20) && Known(21) && Known(22) && Known(23) && Known(24) && Known(25) && Known(26) && Known(27)
  {
    hide Power, Known, Index;
    Indexes19To27();
    Rows10To18();
    Next(18, 0x228ec6ab, 0xa6e061, 0xa, 0xf76c);
    Next(19, 0xa6e061, 0x14dc0c20, 0xa, 0x1eed84);
    Next(20, 0x14dc0c20, 0x9339b0, 0x9, 0xcf24);
    Next(21, 0x9339b0, 0x12673600, 0x9, 0x19e494);
    Next(22, 0x12673600, 0xacea46f, 0x5, 0x1dfb58);
    Next(23, 0xacea46f, 0x3c1fc3a8, 0x1e, 0x1de9c5);
    Next(24, 0x3c1fc3a8, 0x2c5fb3f9, 0x16, 0x1173fc);
    Next(25, 0x2c5fb3f9, 0x19138a04, 0xc, 0x1ec99b);
    Next(26, 0x19138a04, 0x1926aa7, 0x19, 0x9aeb);
  }

  lemma Rows28To37()
    ensures Power(1, 37) == 0x3e1931e7
    ensures Known(28) && Known(29) && Known(30) && Known(31) && Known(32) && Known(33) && Known(34) && Known(35) && Known(36) && Known(37)
  {
    hide Power, Known, Index;
    Indexes28To37();
    Rows19To27();
    Next(27, 0x1926aa7, 0x324d54e0, 0x19, 0x135d70);
    Next(28, 0x324d54e0, 0x25969adc, 0x12, 0x1f0bb7);
    Next(29, 0x25969adc, 0x3e97b75e, 0x1f, 0x161f3b);
    Next(30, 0x3e97b75e, 0x63b7a8b, 0x3, 0x10d54c);
    Next(31, 0x63b7a8b, 0x1a5588bf, 0xd, 0x1bee37);
    Next(32, 0x1a5588bf, 0x12386a75, 0x9, 0x1ed109);
    Next(33, 0x12386a75, 0x1252acf, 0x12, 0xb9d7);
    Next(34, 0x1252acf, 0x24a559e0, 0x12, 0x173ae9);
    Next(35, 0x24a559e0, 0x18efd0de, 0xc, 0x16c074);
    Next(36, 0x18efd0de, 0x3e1931e7, 0x1f, 0x17e2c7);
  }

  lemma RowAt(d: nat)
    requires 1 <= d <= 37
    ensures Known(d)
  {
    hide Known, Power;
    if d <= 9 {
      Rows1To9();
    } else if d <= 18 {
      Rows10To18();
    } else if d <= 27 {
      Rows19To27();
    } else {
      Rows28To37();
    }
  }

  /** What a wrong symbol `a` becomes: but for the last symbol, a multiple of the word of its distance. */
  lemma UpToFactor(a: bv32, d: nat) returns (n: bv32, m: nat)
    requires 0 < a < 32 && 1 <= d <= 37
    ensures m < 62 && n < STATES && Lead(n) == 1 && Index(n) == d && Down(Power(a, d)) == Scale(n, m)
  {
    hide MulDirect, Double, Scale, Power, Mul, Lead, Index, Times;
    var i := Logarithm(a);
    RowAt(d);
    var p, f, n' :| Row(d, p, f, n');
    n := n';
    var l := Logarithm(f);
    m := l + i;
    PowerScale(1, i, d);
    PowerBound(1, d);
    DownScale(p, i);
    MulIsDirect(f, n);
    ScaleIsMul(n, l);
    ScaleAdd(n, l, i);
  }

  lemma {:induction false} ScaledZero(k: nat)
    ensures Scale(0, k) == 0
  {
    assert Double(0) == 0;
    hide Double;
    if k > 0 {
      ScaledZero(k - 1);
    }
  }

  /** A wrong symbol never becomes a single symbol again within an address. */
  lemma OneError(a: bv32, d: nat)
    requires 0 < a < 32 && 1 <= d <= 37
    ensures Down(Power(a, d)) != 0
  {
    hide Index, Double, Scale, Power, Down;
    var n, m := UpToFactor(a, d);
    assert n != 0;
    if Scale(n, m) == 0 {
      ScaledZero(m);
      ScaleInjective(n, 0, m);
      assert false;
    }
  }

  /** Two wrong symbols never cancel but for the last symbol. */
  lemma TwoErrors(a: bv32, e: nat, b: bv32, d: nat)
    requires 0 < a < 32 && 0 < b < 32 && 1 <= d < e <= 37
    ensures Down(Power(a, e)) != Down(Power(b, d))
  {
    hide Index, Double, Scale, Power, Lead, Down;
    var x, i := UpToFactor(a, e);
    var y, j := UpToFactor(b, d);
    if Scale(x, i) == Scale(y, j) {
      SameNormal(x, y, i, j);
      assert false;
    }
  }

  /* ---- Sequences ---- */

  /** The number of places in which two sequences differ. */
  function Distance<T(==)>(x: seq<T>, y: seq<T>): nat
    requires |x| == |y|
  {
    if x == [] then 0
    else Distance(x[..|x| - 1], y[..|x| - 1]) + if x[|x| - 1] == y[|x| - 1] then 0 else 1
  }

  /** The difference of the remainders. */
  function Gap(x: seq<bv32>, y: seq<bv32>): bv32 {
    Xor(Polymod(x), Polymod(y))
  }

  lemma GapNext(x: seq<bv32>, y: seq<bv32>)
    requires |x| == |y| > 0
    ensures var n := |x| - 1; Gap(x, y) == Xor(Times(Gap(x[..n], y[..n])), Xor(x[n], y[n]))
  {
    hide Xor, Times;
    var n := |x| - 1;
    var p, q := Run(1, x[..n]), Run(1, y[..n]);
    TimesLinear(p, q);
    XorSwap(Times(p), x[n], Times(q), y[n]);
  }

  lemma WrongSymbol(u: bv32, v: bv32)
    requires u < 32 && v < 32
    ensures Xor(u, v) < 32 && (Xor(u, v) == 0 <==> u == v)
  {
  }

  lemma {:induction false} NoGap(x: seq<bv32>, y: seq<bv32>)
    requires |x| == |y| && Distance(x, y) == 0
    ensures x == y && Gap(x, y) == 0
  {
    hide Xor, Polymod;
    XorUnits(Polymod(x));
    if x != [] {
      var n := |x| - 1;
      NoGap(x[..n], y[..n]);
      assert x == x[..n] + [x[n]] && y == y[..n] + [y[n]];
    }
  }

  lemma {:induction false} OneGap(x: seq<bv32>, y: seq<bv32>) returns (a: bv32, d: nat)
    requires |x| == |y| && Symbols(x) && Symbols(y) && Distance(x, y) == 1
    ensures 0 < a < 32 && d < |x| && Gap(x, y) == Power(a, d)
    decreases |x|
  {
    hide Xor, Times, Gap;
    var n := |x| - 1;
    var x', y', c := x[..n], y[..n], Xor(x[n], y[n]);
    GapNext(x, y);
    WrongSymbol(x[n], y[n]);
    if c == 0 {
      var d';
      a, d' := OneGap(x', y');
      d := d' + 1;
      XorUnits(Times(Gap(x', y')));
    } else {
      NoGap(x', y');
      ZeroTimes();
      XorUnits(c);
      a, d := c, 0;
    }
  }

  lemma ZeroTimes()
    ensures Times(0) == 0
  {
    TimesIsDirect(0);
    hide Times;
  }

  lemma {:induction false} TwoGap(x: seq<bv32>, y: seq<bv32>) returns (a: bv32, e: nat, b: bv32, d: nat)
    requires |x| == |y| && Symbols(x) && Symbols(y) && Distance(x, y) == 2
    ensures 0 < a < 32 && 0 < b < 32 && d < e < |x| && Gap(x, y) == Xor(Power(a, e), Power(b, d))
    decreases |x|
  {
    hide Xor, Times, Gap;
    var n := |x| - 1;
    var x', y', c := x[..n], y[..n], Xor(x[n], y[n]);
    GapNext(x, y);
    WrongSymbol(x[n], y[n]);
    if c == 0 {
      var e', d';
      a, e', b, d' := TwoGap(x', y');
      e, d := e' + 1, d' + 1;
      TimesLinear(Power(a, e'), Power(b, d'));
      XorUnits(Times(Gap(x', y')));
    } else {
      var e';
      a, e' := OneGap(x', y');
      e, b, d := e' + 1, c, 0;
    }
  }

  /** The last of one to three wrong symbols. */
  lemma LastGap(x: seq<bv32>, y: seq<bv32>)
    requires 0 < |x| == |y| <= 38 && Symbols(x) && Symbols(y) && 1 <= Distance(x, y) <= 3 && x[|x| - 1] != y[|x| - 1]
    ensures Gap(x, y) != 0
  {
    hide Xor, Times, Gap, Power, Down;
    var n := |x| - 1;
    var x', y', c := x[..n], y[..n], Xor(x[n], y[n]);
    GapNext(x, y);
    WrongSymbol(x[n], y[n]);
    if Distance(x', y') == 0 {
      NoGap(x', y');
      ZeroTimes();
      XorUnits(c);
    } else if Distance(x', y') == 1 {
      var a, d := OneGap(x', y');
      PowerNext(a, d);
      OneError(a, d + 1);
      SymbolOnly(Power(a, d + 1), c);
    } else {
      var a, e, b, d := TwoGap(x', y');
      TimesLinear(Power(a, e), Power(b, d));
      PowerNext(a, e);
      PowerNext(b, d);
      TwoErrors(a, e + 1, b, d + 1);
      SymbolOnlyTwo(Power(a, e + 1), Power(b, d + 1), c);
    }
  }

  lemma PowerNext(a: bv32, d: nat)
    ensures Power(a, d + 1) == Times(Power(a, d))
  {
  }

  lemma SymbolOnly(p: bv32, c: bv32)
    requires c < 32 && Down(p) != 0
    ensures Xor(p, c) != 0
  {
  }

  lemma SymbolOnlyTwo(p: bv32, q: bv32, c: bv32)
    requires c < 32 && Down(p) != Down(q)
    ensures Xor(Xor(p, q), c) != 0
  {
  }

  lemma {:induction false} GapIsSeen(x: seq<bv32>, y: seq<bv32>)
    requires |x| == |y| <= 38 && Symbols(x) && Symbols(y) && 1 <= Distance(x, y) <= 3
    ensures Gap(x, y) != 0
    decreases |x|
  {
    hide Xor, Times, Gap;
    var n := |x| - 1;
    if x[n] != y[n] {
      LastGap(x, y);
    } else {
      var x', y' := x[..n], y[..n];
      GapIsSeen(x', y');
      GapNext(x, y);
      XorUnits(x[n]);
      XorUnits(Times(Gap(x', y')));
      GapBound(x', y');
      if Times(Gap(x', y')) == 0 {
        TimesKernel(Gap(x', y'));
        assert false;
      }
    }
  }

  lemma GapBound(x: seq<bv32>, y: seq<bv32>)
    requires Symbols(x) && Symbols(y)
    ensures Gap(x, y) < STATES
  {
    hide Run, Xor;
    RunBound(1, x);
    RunBound(1, y);
    XorBound(Run(1, x), Run(1, y));
  }

  /** Two different accepted sequences of at most 38 symbols differ in at least four places. */
  lemma ThreeErrorsDetected(x: seq<bv32>, y: seq<bv32>)
    requires |x| == |y| <= 38 && Symbols(x) && Symbols(y) && x != y && VerifyChecksum(x) && VerifyChecksum(y)
    ensures Distance(x, y) >= 4
  {
    XorUnits(1);
    hide Xor, Polymod;
    if Distance(x, y) == 0 {
      NoGap(x, y);
      assert false;
    } else if Distance(x, y) <= 3 {
      GapIsSeen(x, y);
      assert false;
    }
  }
}
