/**
 The validator-set diff of a cross-chain update
 (framework-plugins/chain-connector/src/active_validators_update.ts) and its receiver
 (calculateNewActiveValidators, framework/src/modules/interoperability/utils.ts).
 */
module ValidatorsUpdate {
  import opened Wrappers
  import opened Sorting
  import opened Regroup

  datatype Validator = Validator(blsKey: bytes, bftWeight: nat)
  datatype Update = Update(blsKeys: seq<bytes>, weights: seq<nat>, bitmap: bytes)

  /* ---- Numbers as bitmaps ---- */

  /** `(n >> i) & 1` */
  predicate TestBit(n: nat, i: nat) {
    if i == 0 then n % 2 == 1 else TestBit(n / 2, i - 1)
  }

  /** `n | (1 << i)` */
  function SetBit(n: nat, i: nat): nat {
    if i == 0 then (if n % 2 == 1 then n else n + 1) else 2 * SetBit(n / 2, i - 1) + n % 2
  }

  lemma {:induction false} SetBitSpec(n: nat, i: nat, j: nat)
    ensures TestBit(SetBit(n, i), j) <==> i == j || TestBit(n, j)
    decreases i
  {
    if i > 0 && j > 0 {
      SetBitSpec(n / 2, i - 1, j - 1);
    }
  }

  lemma {:induction false} SetBitBound(n: nat, i: nat, m: nat)
    requires n < Pow2(m) && i < m
    ensures SetBit(n, i) < Pow2(m)
    decreases i
  {
    var half := Pow2(m - 1);
    assert Pow2(m) == 2 * half;
    if i > 0 {
      SetBitBound(n / 2, i - 1, m - 1);
      assert SetBit(n / 2, i - 1) <= half - 1;
    }
  }

  function CountBits(n: nat): nat {
    if n == 0 then 0 else n % 2 + CountBits(n / 2)
  }

  lemma {:induction false} SameBits(a: nat, b: nat, m: nat)
    requires a < Pow2(m) && b < Pow2(m) && forall i: nat | i < m :: TestBit(a, i) == TestBit(b, i)
    ensures a == b
    decreases m
  {
    if m > 0 {
      assert TestBit(a, 0) == TestBit(b, 0);
      forall i: nat | i < m - 1
        ensures TestBit(a / 2, i) == TestBit(b / 2, i)
      {
        assert TestBit(a, i + 1) == TestBit(b, i + 1);
      }
      SameBits(a / 2, b / 2, m - 1);
    }
  }

  /* ---- Numbers as buffers ---- */

  /** The buffer of `n.toString(16)`, padded to whole bytes. */
  function BytesOf(n: nat): (r: bytes)
    ensures |r| > 0
  {
    if n < 256 then [n] else BytesOf(n / 256) + [n % 256]
  }

  /** The number written in hexadecimal by a buffer. */
  function FromBytes(bs: bytes): nat {
    if bs == [] then 0 else 256 * FromBytes(bs[..|bs| - 1]) + bs[|bs| - 1]
  }

  function Zeros(n: nat): (r: bytes)
    ensures |r| == n
  {
    seq(n, _ => 0)
  }

  function LeftPad(bs: bytes, size: nat): bytes {
    if |bs| < size then Zeros(size - |bs|) + bs else bs
  }

  lemma {:induction false} BytesRoundTrip(n: nat)
    ensures FromBytes(BytesOf(n)) == n
  {
    if n >= 256 {
      BytesRoundTrip(n / 256);
      assert BytesOf(n)[..|BytesOf(n)| - 1] == BytesOf(n / 256);
    }
  }

  lemma {:induction false} PaddingIsIgnored(k: nat, bs: bytes)
    ensures FromBytes(Zeros(k) + bs) == FromBytes(bs)
    decreases |bs| + k
  {
    if bs == [] {
      assert Zeros(k) + bs == Zeros(k);
      if k > 0 {
        assert Zeros(k)[..k - 1] == Zeros(k - 1) + [];
        PaddingIsIgnored(k - 1, []);
      }
    } else {
      assert (Zeros(k) + bs)[..k + |bs| - 1] == Zeros(k) + bs[..|bs| - 1];
      PaddingIsIgnored(k, bs[..|bs| - 1]);
    }
  }

  lemma {:induction false} BytesBound(n: nat, k: nat)
    requires k > 0 && n < Pow2(8 * k)
    ensures |BytesOf(n)| <= k
    decreases k
  {
    if n >= 256 {
      Pow2OfByte(8 * k);
      assert k > 1;
      BytesBound(n / 256, k - 1);
    }
  }

  lemma Pow2OfByte(m: nat)
    requires m >= 8
    ensures Pow2(m) == 256 * Pow2(m - 8)
  {
    Pow2Add(8, m - 8);
    assert Pow2(8) == 256;
  }

  lemma {:induction false} Pow2Monotone(a: nat, b: nat)
    requires a <= b
    ensures Pow2(a) <= Pow2(b)
  {
    if a < b {
      Pow2Monotone(a, b - 1);
    }
  }

  lemma BitmapBuffer(bitmap: nat, n: nat)
    requires n > 0 && bitmap < Pow2(n)
    ensures var buf := LeftPad(BytesOf(bitmap), ByteCount(n));
            |buf| == ByteCount(n) && FromBytes(buf) == bitmap
  {
    hide Pow2, BytesOf, FromBytes;
    var size := ByteCount(n);
    Pow2Monotone(n, 8 * size);
    BytesBound(bitmap, size);
    BytesRoundTrip(bitmap);
    PaddingIsIgnored(size - |BytesOf(bitmap)|, BytesOf(bitmap));
  }

  lemma PaddedBitmap(bitmap: nat, size: nat)
    ensures FromBytes(LeftPad(BytesOf(bitmap), size)) == bitmap
  {
    hide BytesOf, FromBytes;
    BytesRoundTrip(bitmap);
    if |BytesOf(bitmap)| < size {
      PaddingIsIgnored(size - |BytesOf(bitmap)|, BytesOf(bitmap));
    }
  }

  /* ---- Lists of keys ---- */

  lemma {:induction false} NoDupCount<T>(xs: seq<T>, x: T)
    requires NoDup(xs)
    ensures multiset(xs)[x] == if x in xs then 1 else 0
    decreases |xs|
  {
    if xs != [] {
      var rest := xs[1..];
      NoDupCount(rest, x);
      assert xs == [xs[0]] + rest;
      assert multiset(xs) == multiset{xs[0]} + multiset(rest);
    }
  }

  lemma SameSetSameMultiset<T(!new)>(a: seq<T>, b: seq<T>)
    requires NoDup(a) && NoDup(b) && forall x :: x in a <==> x in b
    ensures multiset(a) == multiset(b)
  {
    forall x
      ensures multiset(a)[x] == multiset(b)[x]
    {
      NoDupCount(a, x);
      NoDupCount(b, x);
    }
  }

  lemma SortNoDup<T(!new)>(xs: seq<T>, le: (T, T) -> bool)
    requires NoDup(xs)
    ensures NoDup(Sort(xs, le)) && forall x :: x in Sort(xs, le) <==> x in xs
  {
    hide Sort;
    SortPermutes(xs, le);
    var s := Sort(xs, le);
    SameElements(s, xs);
    forall i, j | 0 <= i < j < |s|
      ensures s[i] != s[j]
    {
      NoDupCount(xs, s[i]);
      if s[i] == s[j] {
        TwiceInSequence(s, i, j);
        assert false;
      }
    }
  }

  /** A sorted list without repetitions is determined by its elements. */
  lemma SortedSetUnique<T(!new)>(a: seq<T>, b: seq<T>, le: (T, T) -> bool)
    requires TotalPreorder(le) && Ranked(a, le) && Sorted(a, le) && Sorted(b, le)
    requires NoDup(a) && NoDup(b) && forall x :: x in a <==> x in b
    ensures a == b
  {
    hide TotalPreorder, Ranked, Sorted;
    SameSetSameMultiset(a, b);
    SortedUnique(a, b, le);
  }

  predicate ByKey(a: Validator, b: Validator) {
    LexLe(a.blsKey, b.blsKey)
  }

  lemma ByKeyIsPreorder()
    ensures TotalPreorder(ByKey)
  {
    LexIsOrder();
    hide LexLe;
    assert forall a: bytes, b: bytes :: LexLe(a, b) || LexLe(b, a);
  }

  function KeysOf(vs: seq<Validator>): (r: seq<bytes>)
    ensures |r| == |vs| && forall i | 0 <= i < |vs| :: r[i] == vs[i].blsKey
  {
    seq(|vs|, i requires 0 <= i < |vs| => vs[i].blsKey)
  }

  function WeightsOf(vs: seq<Validator>): (r: seq<nat>)
    ensures |r| == |vs| && forall i | 0 <= i < |vs| :: r[i] == vs[i].bftWeight
  {
    seq(|vs|, i requires 0 <= i < |vs| => vs[i].bftWeight)
  }

  /** A validator list has one entry per key. */
  ghost predicate Distinct(vs: seq<Validator>) {
    forall i, j | 0 <= i < j < |vs| :: vs[i].blsKey != vs[j].blsKey
  }

  function Weights(vs: seq<Validator>): (m: map<bytes, nat>)
  {
    if vs == [] then map[] else Weights(vs[..|vs| - 1])[vs[|vs| - 1].blsKey := vs[|vs| - 1].bftWeight]
  }

  lemma {:induction false} WeightsSpec(vs: seq<Validator>)
    requires Distinct(vs)
    ensures forall v :: v in vs <==> v.blsKey in Weights(vs) && Weights(vs)[v.blsKey] == v.bftWeight
    ensures forall k :: k in Weights(vs) <==> k in KeysOf(vs)
    decreases vs
  {
    if vs != [] {
      var front, last := vs[..|vs| - 1], vs[|vs| - 1];
      WeightsSpec(front);
      assert vs == front + [last];
      assert KeysOf(vs) == KeysOf(front) + [last.blsKey];
      assert last.blsKey !in KeysOf(front);
    }
  }

  /** The validators of the keys `ks`, with the weights of `m`. */
  function Assemble(ks: seq<bytes>, m: map<bytes, nat>): seq<Validator>
    requires forall k | k in ks :: k in m
  {
    seq(|ks|, i requires 0 <= i < |ks| => Validator(ks[i], m[ks[i]]))
  }

  lemma DistinctFacts(vs: seq<Validator>)
    requires Distinct(vs)
    ensures NoDup(vs) && NoDup(KeysOf(vs)) && Ranked(vs, ByKey)
  {
    LexIsOrder();
    hide LexLe;
    forall x, y | x in vs && y in vs && ByKey(x, y) && ByKey(y, x)
      ensures x == y
    {
      var i :| 0 <= i < |vs| && vs[i] == x;
      var j :| 0 <= j < |vs| && vs[j] == y;
      assert LexLe(x.blsKey, y.blsKey) && LexLe(y.blsKey, x.blsKey);
      assert x.blsKey == y.blsKey;
    }
  }

  /** Sorting validators by key is sorting their keys. */
  lemma SortAssembles(vs: seq<Validator>, ks: seq<bytes>, m: map<bytes, nat>)
    requires Distinct(vs) && NoDup(ks) && Sorted(ks, LexLe)
    requires forall k | k in ks :: k in m
    requires forall v :: v in vs <==> v.blsKey in ks && m[v.blsKey] == v.bftWeight
    ensures Sort(vs, ByKey) == Assemble(ks, m)
  {
    hide LexLe, Sort;
    var a, b := Sort(vs, ByKey), Assemble(ks, m);
    ByKeyIsPreorder();
    DistinctFacts(vs);
    SortSorted(vs, ByKey);
    SortNoDup(vs, ByKey);
    assert Sorted(b, ByKey);
    assert NoDup(b);
    forall x
      ensures x in a <==> x in b
    {
      if x in vs {
        var i :| 0 <= i < |ks| && ks[i] == x.blsKey;
        assert b[i] == x;
      }
    }
    assert Ranked(a, ByKey);
    SortedSetUnique(a, b, ByKey);
  }

  /* ---- What the diff says, key by key ---- */

  /** The new weight of `k`, or none: the key is unchanged. A removed validator gets weight zero. */
  function Change(was: map<bytes, nat>, next: map<bytes, nat>, k: bytes): Option<nat> {
    if k !in next then (if k in was then Some(0) else None)
    else if k in was && was[k] == next[k] then None
    else Some(next[k])
  }

  function Changed(ks: seq<bytes>, was: map<bytes, nat>, next: map<bytes, nat>): (r: seq<bytes>)
    ensures forall k :: k in r <==> k in ks && Change(was, next, k).Some?
  {
    if ks == [] then []
    else
      var rest := Changed(ks[1..], was, next);
      assert ks == [ks[0]] + ks[1..];
      if Change(was, next, ks[0]).Some? then [ks[0]] + rest else rest
  }

  function ChangedWeights(ks: seq<bytes>, was: map<bytes, nat>, next: map<bytes, nat>): seq<nat> {
    if ks == [] then []
    else
      var rest := ChangedWeights(ks[1..], was, next);
      match Change(was, next, ks[0])
      case Some(w) => [w] + rest
      case None => rest
  }

  /** Bit `i` is set when key `i` changes. */
  function ChangedBitmap(ks: seq<bytes>, was: map<bytes, nat>, next: map<bytes, nat>): nat {
    if ks == [] then 0
    else (if Change(was, next, ks[0]).Some? then 1 else 0) + 2 * ChangedBitmap(ks[1..], was, next)
  }

  lemma {:induction false} ChangedBitmapSpec(ks: seq<bytes>, was: map<bytes, nat>, next: map<bytes, nat>)
    ensures ChangedBitmap(ks, was, next) < Pow2(|ks|)
    ensures forall i: nat | i < |ks| :: TestBit(ChangedBitmap(ks, was, next), i) <==> Change(was, next, ks[i]).Some?
    ensures CountBits(ChangedBitmap(ks, was, next)) == |ChangedWeights(ks, was, next)|
    decreases ks
  {
    if ks != [] {
      ChangedBitmapSpec(ks[1..], was, next);
      var n := ChangedBitmap(ks, was, next);
      assert n / 2 == ChangedBitmap(ks[1..], was, next);
      forall i: nat | i < |ks|
        ensures TestBit(n, i) <==> Change(was, next, ks[i]).Some?
      {
        if i > 0 {
          assert ks[i] == ks[1..][i - 1];
          assert TestBit(n, i) == TestBit(n / 2, i - 1);
        }
      }
    }
  }

  /* ---- The receiver ---- */

  /** One pass over the sorted validators, taking the next weight at each set bit. */
  function Patch(vs: seq<Validator>, bitmap: nat, weights: seq<nat>): Result<seq<Validator>> {
    if vs == [] then if weights == [] then Ok([]) else Err(WeightsLeft)
    else if bitmap % 2 == 0 then
      var rest :- Patch(vs[1..], bitmap / 2, weights);
      Ok([vs[0]] + rest)
    else if weights == [] then Err(WeightsLeft)
    else
      var rest :- Patch(vs[1..], bitmap / 2, weights[1..]);
      Ok([vs[0].(bftWeight := weights[0])] + rest)
  }

  function Positive(vs: seq<Validator>): seq<Validator> {
    if vs == [] then []
    else if vs[0].bftWeight > 0 then [vs[0]] + Positive(vs[1..])
    else Positive(vs[1..])
  }

  function NewEntries(ks: seq<bytes>): (r: seq<Validator>)
    ensures |r| == |ks| && forall i | 0 <= i < |ks| :: r[i] == Validator(ks[i], 0)
  {
    seq(|ks|, i requires 0 <= i < |ks| => Validator(ks[i], 0))
  }

  /** calculateNewActiveValidators; the empty buffer is no hexadecimal number. */
  function Apply(active: seq<Validator>, u: Update): Result<seq<Validator>> {
    if u.bitmap == [] then Err(InvalidArgument)
    else
      var patched :- Patch(Sort(active + NewEntries(u.blsKeys), ByKey), FromBytes(u.bitmap), u.weights);
      Ok(Positive(patched))
  }

  /** The weight after the update: as in the new set, and zero outside it. */
  function Final(ks: seq<bytes>, next: map<bytes, nat>): map<bytes, nat> {
    map k | k in ks :: if k in next then next[k] else 0
  }

  lemma {:induction false} PatchAppliesChanges(ks: seq<bytes>, before: map<bytes, nat>, was: map<bytes, nat>, next: map<bytes, nat>, final: map<bytes, nat>)
    requires forall k | k in ks :: k in before && before[k] == if k in was then was[k] else 0
    requires forall k | k in ks :: k in final && final[k] == if k in next then next[k] else 0
    requires forall k | k in ks :: k in was || k in next
    ensures Patch(Assemble(ks, before), ChangedBitmap(ks, was, next), ChangedWeights(ks, was, next)) == Ok(Assemble(ks, final))
    decreases ks
  {
    if ks != [] {
      var rest := ks[1..];
      var vs, b, w := Assemble(ks, before), ChangedBitmap(ks, was, next), ChangedWeights(ks, was, next);
      PatchAppliesChanges(rest, before, was, next, final);
      assert vs[1..] == Assemble(rest, before) && b / 2 == ChangedBitmap(rest, was, next);
      assert Assemble(ks, final) == [Validator(ks[0], final[ks[0]])] + Assemble(rest, final);
      assert ks[0] in ks;
      var c := Change(was, next, ks[0]);
      if c.Some? {
        assert w == [c.value] + ChangedWeights(rest, was, next) && w[1..] == ChangedWeights(rest, was, next);
      }
    }
  }

  function Present(ks: seq<bytes>, next: map<bytes, nat>): (r: seq<bytes>)
    ensures forall k :: k in r <==> k in ks && k in next
  {
    if ks == [] then []
    else
      assert ks == [ks[0]] + ks[1..];
      if ks[0] in next then [ks[0]] + Present(ks[1..], next) else Present(ks[1..], next)
  }

  lemma AssembleCons(k: bytes, rest: seq<bytes>, m: map<bytes, nat>)
    requires k in m && forall x | x in rest :: x in m
    ensures (forall x | x in [k] + rest :: x in m) && Assemble([k] + rest, m) == [Validator(k, m[k])] + Assemble(rest, m)
  {
  }

  lemma PositiveCons(v: Validator, vs: seq<Validator>)
    ensures Positive([v] + vs) == (if v.bftWeight > 0 then [v] else []) + Positive(vs)
  {
    assert ([v] + vs)[1..] == vs;
  }

  lemma {:induction false} PositiveIsPresent(ks: seq<bytes>, next: map<bytes, nat>, final: map<bytes, nat>)
    requires forall k | k in ks :: k in final && final[k] == if k in next then next[k] else 0
    requires forall k | k in next :: next[k] > 0
    ensures Positive(Assemble(ks, final)) == Assemble(Present(ks, next), next)
    decreases ks
  {
    if ks != [] {
      var k, rest := ks[0], ks[1..];
      assert k in ks && forall x | x in rest :: x in ks;
      PositiveIsPresent(rest, next, final);
      AssembleCons(k, rest, final);
      assert ks == [k] + rest;
      hide Assemble;
      assert Positive(Assemble(ks, final)) == (if final[k] > 0 then [Validator(k, final[k])] else []) + Positive(Assemble(rest, final)) by {
        PositiveCons(Validator(k, final[k]), Assemble(rest, final));
      }
      if k in next {
        AssembleCons(k, Present(rest, next), next);
      }
    }
  }

  lemma {:induction false} PresentSorted(ks: seq<bytes>, next: map<bytes, nat>)
    requires Sorted(ks, LexLe) && NoDup(ks)
    ensures Sorted(Present(ks, next), LexLe) && NoDup(Present(ks, next))
    decreases ks
  {
    hide LexLe;
    if ks != [] {
      PresentSorted(ks[1..], next);
      var p := Present(ks[1..], next);
      forall i | 0 <= i < |p|
        ensures LexLe(ks[0], p[i]) && ks[0] != p[i]
      {
        assert p[i] in p && p[i] in ks[1..];
        var j :| 0 <= j < |ks[1..]| && ks[1..][j] == p[i];
        assert ks[1 + j] == p[i];
      }
    }
  }

  /* ---- What the source computes ---- */

  /** All keys of both sets, in order. */
  ghost predicate AllKeys(ks: seq<bytes>, current: seq<Validator>, next: seq<Validator>) {
    && Sorted(ks, LexLe) && NoDup(ks)
    && forall k :: k in ks <==> k in Weights(current) || k in Weights(next)
  }

  /** The added keys in order, and the weights and the bitmap of the changes over all keys. */
  ghost predicate IsDiff(u: Update, ks: seq<bytes>, current: seq<Validator>, next: seq<Validator>) {
    var was, m := Weights(current), Weights(next);
    && AllKeys(ks, current, next)
    && Sorted(u.blsKeys, LexLe) && NoDup(u.blsKeys)
    && (forall k :: k in u.blsKeys <==> k in m && k !in was)
    && u.weights == ChangedWeights(ks, was, m)
    && u.bitmap == LeftPad(BytesOf(ChangedBitmap(ks, was, m)), ByteCount(|ks|))
  }

  lemma DiffSize(u: Update, ks: seq<bytes>, current: seq<Validator>, next: seq<Validator>)
    requires IsDiff(u, ks, current, next) && current + next != [] && Distinct(current) && Distinct(next)
    ensures |ks| > 0
  {
    WeightsSpec(current);
    WeightsSpec(next);
    hide LexLe;
    var v := (current + next)[0];
    assert v in current || v in next;
    assert v.blsKey in ks;
  }

  /** The buffer has one bit per key rounded up to whole bytes, except that it is never empty. */
  lemma BitmapLengthIff(u: Update, ks: seq<bytes>, current: seq<Validator>, next: seq<Validator>)
    requires Distinct(current) && Distinct(next) && IsDiff(u, ks, current, next)
    ensures |u.bitmap| > 0
    ensures |u.bitmap| == ByteCount(|ks|) <==> current + next != []
  {
    hide LexLe, Pow2, BytesOf, ChangedBitmap, ChangedWeights, Weights, Distinct, Change;
    if current + next != [] {
      var was, m := Weights(current), Weights(next);
      DiffSize(u, ks, current, next);
      ChangedBitmapSpec(ks, was, m);
      BitmapBuffer(ChangedBitmap(ks, was, m), |ks|);
    } else {
      assert current == [] && next == [];
      NoKeys(ks, current, next);
    }
  }

  lemma FirstIn(ks: seq<bytes>)
    requires ks != []
    ensures ks[0] in set k | k in ks
  {
  }

  lemma NoKeys(ks: seq<bytes>, current: seq<Validator>, next: seq<Validator>)
    requires current == [] && next == [] && AllKeys(ks, current, next)
    ensures ks == []
  {
    var members := set k | k in ks;
    assert members == {};
    if ks != [] {
      FirstIn(ks);
      assert false;
    }
  }

  /**
   Diff, then patch: for any two validator sets with distinct keys, applying the computed update to the current set gives
   exactly the validators of the new set that have weight, in key order.
   */
  lemma DiffThenPatch(u: Update, ks: seq<bytes>, current: seq<Validator>, next: seq<Validator>)
    requires Distinct(current) && Distinct(next) && IsDiff(u, ks, current, next)
    ensures Apply(current, u) == Ok(Sort(Positive(next), ByKey))
  {
    hide LexLe, Sort, BytesOf, FromBytes, ChangedBitmap, ChangedWeights, Patch, Positive, Assemble, Distinct, Weights;
    BitmapLengthIff(u, ks, current, next);
    PatchedUpdate(u, ks, current, next);
    PositiveSpec(next);
    SameFinal(ks, next);
    FinalIsNext(ks, Positive(next));
  }

  lemma {:induction false} PositiveMembers(vs: seq<Validator>)
    ensures forall v :: v in Positive(vs) <==> v in vs && v.bftWeight > 0
  {
    if vs != [] {
      PositiveMembers(vs[1..]);
      assert vs == [vs[0]] + vs[1..];
    }
  }

  lemma {:induction false} PositiveAll(vs: seq<Validator>)
    requires forall v | v in vs :: v.bftWeight > 0
    ensures Positive(vs) == vs
  {
    if vs != [] {
      assert vs == [vs[0]] + vs[1..];
      PositiveAll(vs[1..]);
    }
  }

  lemma DistinctTail(vs: seq<Validator>)
    requires vs != [] && Distinct(vs)
    ensures Distinct(vs[1..]) && forall w | w in vs[1..] :: w.blsKey != vs[0].blsKey
  {
    forall w | w in vs[1..]
      ensures w.blsKey != vs[0].blsKey
    {
      var i :| 0 <= i < |vs[1..]| && vs[1..][i] == w;
      assert vs[i + 1] == w;
    }
  }

  lemma DistinctCons(v: Validator, vs: seq<Validator>)
    requires Distinct(vs) && forall w | w in vs :: w.blsKey != v.blsKey
    ensures Distinct([v] + vs)
  {
    assert forall i | 0 <= i < |vs| :: vs[i] in vs;
  }

  lemma {:induction false} PositiveDistinct(vs: seq<Validator>)
    requires Distinct(vs)
    ensures Distinct(Positive(vs))
  {
    if vs != [] {
      DistinctTail(vs);
      PositiveDistinct(vs[1..]);
      PositiveMembers(vs[1..]);
      hide Distinct;
      if vs[0].bftWeight > 0 {
        DistinctCons(vs[0], Positive(vs[1..]));
      }
    }
  }

  lemma PositiveSpec(vs: seq<Validator>)
    requires Distinct(vs)
    ensures Distinct(Positive(vs)) && forall v :: v in Positive(vs) <==> v in vs && v.bftWeight > 0
    ensures Positive(vs) == vs <==> forall v | v in vs :: v.bftWeight > 0
  {
    hide Distinct, Positive;
    PositiveDistinct(vs);
    PositiveMembers(vs);
    if forall v | v in vs :: v.bftWeight > 0 {
      PositiveAll(vs);
    }
  }

  lemma SameFinal(ks: seq<bytes>, next: seq<Validator>)
    requires Distinct(next)
    ensures Final(ks, Weights(next)) == Final(ks, Weights(Positive(next)))
    ensures forall k | k in Weights(Positive(next)) :: k in Weights(next)
  {
    hide Weights, Positive, Distinct;
    var m, p := Weights(next), Weights(Positive(next));
    forall k
      ensures k in p ==> k in m && p[k] == m[k]
      ensures k in m && k !in p ==> m[k] == 0
    {
      PositiveWeight(next, k);
    }
  }

  lemma PositiveWeight(next: seq<Validator>, k: bytes)
    requires Distinct(next)
    ensures var m, p := Weights(next), Weights(Positive(next));
            (k in p ==> k in m && p[k] == m[k]) && (k in m && k !in p ==> m[k] == 0)
  {
    PositiveSpec(next);
    WeightsSpec(next);
    WeightsSpec(Positive(next));
    hide Weights, Positive, Distinct;
    var m, p := Weights(next), Weights(Positive(next));
    if k in p {
      assert Validator(k, p[k]) in next;
    } else if k in m {
      assert Validator(k, m[k]) in next;
    }
  }

  /** The new set comes back exactly when all its weights are positive: a validator of weight zero is dropped. */
  lemma PatchRestoresIff(u: Update, ks: seq<bytes>, current: seq<Validator>, next: seq<Validator>)
    requires Distinct(current) && Distinct(next) && IsDiff(u, ks, current, next)
    ensures Apply(current, u) == Ok(Sort(next, ByKey)) <==> forall v | v in next :: v.bftWeight > 0
  {
    hide LexLe, Sort, Apply, Positive, Distinct, IsDiff;
    DiffThenPatch(u, ks, current, next);
    PositiveSpec(next);
    SortPermutes(next, ByKey);
    SortPermutes(Positive(next), ByKey);
    SameElements(Sort(next, ByKey), next);
    SameElements(Sort(Positive(next), ByKey), Positive(next));
  }

  lemma PatchedUpdate(u: Update, ks: seq<bytes>, current: seq<Validator>, next: seq<Validator>)
    requires Distinct(current) && Distinct(next) && IsDiff(u, ks, current, next)
    ensures Patch(Sort(current + NewEntries(u.blsKeys), ByKey), FromBytes(u.bitmap), u.weights)
         == Ok(Assemble(ks, Final(ks, Weights(next))))
  {
    hide LexLe, Sort, Pow2, BytesOf, FromBytes, ChangedBitmap, ChangedWeights, Patch, Weights, Distinct, Change;
    var was, m := Weights(current), Weights(next);
    ChangedBitmapSpec(ks, was, m);
    PaddedBitmap(ChangedBitmap(ks, was, m), ByteCount(|ks|));
    var before := map k | k in ks :: if k in was then was[k] else 0;
    BeforeUpdate(u, ks, current, next, before);
    SortAssembles(current + NewEntries(u.blsKeys), ks, before);
    PatchAppliesChanges(ks, before, was, m, Final(ks, m));
  }

  lemma FinalIsNext(ks: seq<bytes>, next: seq<Validator>)
    requires Distinct(next) && Sorted(ks, LexLe) && NoDup(ks) && (forall k | k in Weights(next) :: k in ks)
    requires forall v | v in next :: v.bftWeight > 0
    ensures Positive(Assemble(ks, Final(ks, Weights(next)))) == Sort(next, ByKey)
  {
    hide LexLe, Sort, Positive, Weights, Distinct;
    var m := Weights(next);
    WeightsSpec(next);
    PositiveWeights(next);
    PositiveIsPresent(ks, m, Final(ks, m));
    PresentSorted(ks, m);
    SortAssembles(next, Present(ks, m), m);
  }

  lemma PositiveWeights(next: seq<Validator>)
    requires Distinct(next) && forall v | v in next :: v.bftWeight > 0
    ensures forall k | k in Weights(next) :: Weights(next)[k] > 0
  {
    WeightsSpec(next);
    forall k | k in Weights(next)
      ensures Weights(next)[k] > 0
    {
      assert Validator(k, Weights(next)[k]) in next;
    }
  }

  /** The receiver's list before the patch: current weights, and zero for the added keys. */
  lemma BeforeUpdate(u: Update, ks: seq<bytes>, current: seq<Validator>, next: seq<Validator>, before: map<bytes, nat>)
    requires Distinct(current) && Distinct(next) && IsDiff(u, ks, current, next)
    requires before == map k | k in ks :: if k in Weights(current) then Weights(current)[k] else 0
    ensures Distinct(current + NewEntries(u.blsKeys))
    ensures forall v :: v in current + NewEntries(u.blsKeys) <==> v.blsKey in ks && before[v.blsKey] == v.bftWeight
  {
    hide LexLe;
    WeightsSpec(current);
    var added := NewEntries(u.blsKeys);
    var all := current + added;
    forall i, j | 0 <= i < j < |all|
      ensures all[i].blsKey != all[j].blsKey
    {
      if i < |current| && j >= |current| {
        assert all[i] in current;
        assert all[j].blsKey in u.blsKeys;
      }
    }
    forall v
      ensures v in all <==> v.blsKey in ks && before[v.blsKey] == v.bftWeight
    {
      assert v in added <==> v.blsKey in u.blsKeys && v.bftWeight == 0 by {
        if v.blsKey in u.blsKeys && v.bftWeight == 0 {
          var i :| 0 <= i < |u.blsKeys| && u.blsKeys[i] == v.blsKey;
          assert added[i] == v;
        }
      }
      assert v in all <==> v in current || v in added;
    }
  }

  /* ---- The source's loops ---- */

  /** New validators, and validators whose weight differs. */
  function Updated(vs: seq<Validator>, was: map<bytes, nat>): seq<Validator> {
    if vs == [] then []
    else
      var front, v := Updated(vs[..|vs| - 1], was), vs[|vs| - 1];
      if v.blsKey !in was || was[v.blsKey] != v.bftWeight then front + [v] else front
  }

  function Added(vs: seq<Validator>, was: map<bytes, nat>): seq<bytes> {
    if vs == [] then []
    else
      var front, v := Added(vs[..|vs| - 1], was), vs[|vs| - 1];
      if v.blsKey !in was then front + [v.blsKey] else front
  }

  /** Validators that are gone, with weight zero. */
  function Removed(vs: seq<Validator>, newKeys: set<bytes>): seq<Validator> {
    if vs == [] then []
    else
      var front, v := Removed(vs[..|vs| - 1], newKeys), vs[|vs| - 1];
      if v.blsKey !in newKeys then front + [Validator(v.blsKey, 0)] else front
  }

  lemma {:induction false} UpdatedSpec(vs: seq<Validator>, was: map<bytes, nat>)
    requires Distinct(vs)
    ensures Distinct(Updated(vs, was))
    ensures forall v :: v in Updated(vs, was) <==> v in vs && (v.blsKey !in was || was[v.blsKey] != v.bftWeight)
    decreases vs
  {
    if vs != [] {
      var front, v := vs[..|vs| - 1], vs[|vs| - 1];
      UpdatedSpec(front, was);
      assert vs == front + [v];
      var u := Updated(front, was);
      forall i | 0 <= i < |u|
        ensures u[i].blsKey != v.blsKey
      {
        assert u[i] in u && u[i] in front;
      }
    }
  }

  lemma {:induction false} AddedSpec(vs: seq<Validator>, was: map<bytes, nat>)
    requires Distinct(vs)
    ensures NoDup(Added(vs, was))
    ensures forall k :: k in Added(vs, was) <==> k in KeysOf(vs) && k !in was
    decreases vs
  {
    if vs != [] {
      var front, v := vs[..|vs| - 1], vs[|vs| - 1];
      AddedSpec(front, was);
      assert KeysOf(vs) == KeysOf(front) + [v.blsKey];
      assert v.blsKey !in KeysOf(front);
    }
  }

  lemma {:induction false} RemovedSpec(vs: seq<Validator>, newKeys: set<bytes>)
    requires Distinct(vs)
    ensures Distinct(Removed(vs, newKeys))
    ensures forall v :: v in Removed(vs, newKeys) <==> v.blsKey in KeysOf(vs) && v.blsKey !in newKeys && v.bftWeight == 0
    decreases vs
  {
    if vs != [] {
      var front, v := vs[..|vs| - 1], vs[|vs| - 1];
      RemovedSpec(front, newKeys);
      assert KeysOf(vs) == KeysOf(front) + [v.blsKey];
      assert v.blsKey !in KeysOf(front);
      var r := Removed(front, newKeys);
      forall i | 0 <= i < |r|
        ensures r[i].blsKey != v.blsKey
      {
        assert r[i] in r;
      }
    }
  }

  /** The list of changes has one entry per changed key. */
  lemma ChangesSpec(current: seq<Validator>, next: seq<Validator>, newKeys: set<bytes>)
    requires Distinct(current) && Distinct(next) && forall k :: k in newKeys <==> k in KeysOf(next)
    ensures var all := Updated(next, Weights(current)) + Removed(current, newKeys);
            && Distinct(all)
            && forall v :: v in all <==> Change(Weights(current), Weights(next), v.blsKey) == Some(v.bftWeight)
  {
    hide Updated, Removed, Weights;
    var was, m := Weights(current), Weights(next);
    var a, b := Updated(next, was), Removed(current, newKeys);
    WeightsSpec(current);
    WeightsSpec(next);
    UpdatedSpec(next, was);
    RemovedSpec(current, newKeys);
    forall i, j | 0 <= i < |a| && 0 <= j < |b|
      ensures a[i].blsKey != b[j].blsKey
    {
      assert a[i] in a && b[j] in b;
    }
    forall v
      ensures v in a + b <==> Change(was, m, v.blsKey) == Some(v.bftWeight)
    {
      assert v in a + b <==> v in a || v in b;
    }
  }

  function ChangeMap(ks: seq<bytes>, was: map<bytes, nat>, next: map<bytes, nat>): map<bytes, nat> {
    map k | k in ks && Change(was, next, k).Some? :: Change(was, next, k).value
  }

  lemma AssembleFirst(k: bytes, rest: seq<bytes>, m: map<bytes, nat>)
    requires k in m && forall x | x in rest :: x in m
    ensures forall x | x in [k] + rest :: x in m
    ensures WeightsOf(Assemble([k] + rest, m)) == [m[k]] + WeightsOf(Assemble(rest, m))
  {
    AssembleCons(k, rest, m);
    hide Assemble;
  }

  lemma {:induction false} ChangedWeightsOf(ks: seq<bytes>, was: map<bytes, nat>, next: map<bytes, nat>, m: map<bytes, nat>)
    requires forall k | k in ks && Change(was, next, k).Some? :: k in m && m[k] == Change(was, next, k).value
    ensures WeightsOf(Assemble(Changed(ks, was, next), m)) == ChangedWeights(ks, was, next)
    decreases ks
  {
    hide Change;
    if ks != [] {
      assert ks[0] in ks && forall k | k in ks[1..] :: k in ks;
      ChangedWeightsOf(ks[1..], was, next, m);
      var rest := Changed(ks[1..], was, next);
      if Change(was, next, ks[0]).Some? {
        AssembleFirst(ks[0], rest, m);
      }
    }
  }

  lemma {:induction false} ChangedSorted(ks: seq<bytes>, was: map<bytes, nat>, next: map<bytes, nat>)
    requires Sorted(ks, LexLe) && NoDup(ks)
    ensures Sorted(Changed(ks, was, next), LexLe) && NoDup(Changed(ks, was, next))
    decreases ks
  {
    hide LexLe, Change;
    if ks != [] {
      ChangedSorted(ks[1..], was, next);
      var c := Changed(ks[1..], was, next);
      forall i | 0 <= i < |c|
        ensures LexLe(ks[0], c[i]) && ks[0] != c[i]
      {
        assert c[i] in c && c[i] in ks[1..];
        var j :| 0 <= j < |ks[1..]| && ks[1..][j] == c[i];
        assert ks[1 + j] == c[i];
      }
    }
  }

  /** Sorted by key, the changes are those of all keys in order. */
  lemma SortedChanges(current: seq<Validator>, next: seq<Validator>, ks: seq<bytes>, changes: seq<Validator>)
    requires Distinct(changes) && AllKeys(ks, current, next)
    requires forall v :: v in changes <==> Change(Weights(current), Weights(next), v.blsKey) == Some(v.bftWeight)
    ensures WeightsOf(Sort(changes, ByKey)) == ChangedWeights(ks, Weights(current), Weights(next))
    ensures KeysOf(Sort(changes, ByKey)) == Changed(ks, Weights(current), Weights(next))
  {
    hide LexLe, Sort, Weights;
    var was, m := Weights(current), Weights(next);
    var cm := ChangeMap(ks, was, m);
    ChangedSorted(ks, was, m);
    var cs := Changed(ks, was, m);
    assert forall k :: Change(was, m, k).Some? ==> k in ks;
    SortAssembles(changes, cs, cm);
    ChangedWeightsOf(ks, was, m, cm);
    assert KeysOf(Assemble(cs, cm)) == cs;
  }

  method BuildBitmap(ks: seq<bytes>, changed: seq<bytes>) returns (bitmap: nat)
    requires NoDup(ks) && forall k | k in changed :: k in ks
    ensures bitmap < Pow2(|ks|) && forall i: nat | i < |ks| :: TestBit(bitmap, i) <==> ks[i] in changed
  {
    hide FindIndex, Pow2, TestBit, SetBit;
    bitmap := 0;
    forall i: nat
      ensures !TestBit(0, i)
    {
      NoBits(i);
    }
    assert changed[..0] == [];
    for j := 0 to |changed|
      invariant bitmap < Pow2(|ks|)
      invariant forall i: nat | i < |ks| :: TestBit(bitmap, i) <==> ks[i] in changed[..j]
    {
      var index := FindIndex(ks, changed[j]);
      assert changed[j] in changed && index >= 0;
      ghost var before := bitmap;
      SetBitBound(bitmap, index, |ks|);
      bitmap := SetBit(bitmap, index);
      assert changed[..j + 1] == changed[..j] + [changed[j]];
      forall i: nat | i < |ks|
        ensures TestBit(bitmap, i) <==> ks[i] in changed[..j + 1]
      {
        SetBitSpec(before, index, i);
      }
    }
    assert changed[..|changed|] == changed;
  }

  lemma {:induction false} NoBits(i: nat)
    ensures !TestBit(0, i)
  {
    if i > 0 {
      NoBits(i - 1);
    }
  }

  /** The key collection loops: a Set keeps its elements in insertion order, without repetition. */
  method CollectKeys(current: seq<Validator>, next: seq<Validator>) returns (all: seq<bytes>)
    ensures NoDup(all) && forall k :: k in all <==> k in KeysOf(current) || k in KeysOf(next)
  {
    var vs := current + next;
    all := [];
    for i := 0 to |vs|
      invariant NoDup(all) && forall k :: k in all <==> k in KeysOf(vs[..i])
    {
      assert KeysOf(vs[..i + 1]) == KeysOf(vs[..i]) + [vs[i].blsKey];
      if vs[i].blsKey !in all {
        all := all + [vs[i].blsKey];
      }
    }
    assert vs[..|vs|] == vs;
    assert KeysOf(vs) == KeysOf(current) + KeysOf(next);
  }

  /** The comparison loops: changed entries, added keys. */
  method CompareSets(current: seq<Validator>, next: seq<Validator>) returns (changes: seq<Validator>, added: seq<bytes>, ghost newKeys: set<bytes>)
    ensures forall k :: k in newKeys <==> k in KeysOf(next)
    ensures changes == Updated(next, Weights(current)) + Removed(current, newKeys)
    ensures added == Added(next, Weights(current))
  {
    var currentMap: map<bytes, nat> := map[];
    for i := 0 to |current|
      invariant currentMap == Weights(current[..i])
    {
      assert current[..i + 1][..i] == current[..i];
      currentMap := currentMap[current[i].blsKey := current[i].bftWeight];
    }
    assert current[..|current|] == current;
    changes, added := [], [];
    var keys: set<bytes> := {};
    for i := 0 to |next|
      invariant forall k :: k in keys <==> k in KeysOf(next[..i])
      invariant changes == Updated(next[..i], currentMap) && added == Added(next[..i], currentMap)
    {
      assert next[..i + 1][..i] == next[..i];
      assert KeysOf(next[..i + 1]) == KeysOf(next[..i]) + [next[i].blsKey];
      var v := next[i];
      keys := keys + {v.blsKey};
      if v.blsKey !in currentMap {
        added, changes := added + [v.blsKey], changes + [v];
      } else if currentMap[v.blsKey] != v.bftWeight {
        changes := changes + [v];
      }
    }
    assert next[..|next|] == next;
    ghost var updated := changes;
    for i := 0 to |current|
      invariant changes == updated + Removed(current[..i], keys)
    {
      assert current[..i + 1][..i] == current[..i];
      if current[i].blsKey !in keys {
        changes := changes + [Validator(current[i].blsKey, 0)];
      }
    }
    newKeys := keys;
  }

  /** getActiveValidatorsUpdate */
  method GetActiveValidatorsUpdate(current: seq<Validator>, next: seq<Validator>) returns (u: Update)
    requires Distinct(current) && Distinct(next)
    ensures exists ks :: IsDiff(u, ks, current, next)
  {
    hide LexLe, Sort, Weights, Updated, Added, Removed, BytesOf, ChangedBitmap, ChangedWeights, Pow2, TestBit, Change;
    var allKeys := CollectKeys(current, next);
    var changes, added, newKeys := CompareSets(current, next);
    var sortedChanges, sortedKeys, sortedAdded := Sort(changes, ByKey), Sort(allKeys, LexLe), Sort(added, LexLe);
    ghost var ks := sortedKeys;
    WeightsSpec(current);
    WeightsSpec(next);
    LexIsOrder();
    SortSorted(allKeys, LexLe);
    SortNoDup(allKeys, LexLe);
    AddedSpec(next, Weights(current));
    SortSorted(added, LexLe);
    SortNoDup(added, LexLe);
    ChangesSpec(current, next, newKeys);
    SortedChanges(current, next, ks, changes);
    var bitmap := BuildBitmap(sortedKeys, KeysOf(sortedChanges));
    ChangedBitmapSpec(ks, Weights(current), Weights(next));
    SameBits(bitmap, ChangedBitmap(ks, Weights(current), Weights(next)), |ks|);
    u := Update(sortedAdded, WeightsOf(sortedChanges), LeftPad(BytesOf(bitmap), ByteCount(|sortedKeys|)));
    assert IsDiff(u, ks, current, next);
  }

  /** What is left to do after the first `i` validators. */
  ghost predicate Patching(whole: Result<seq<Validator>>, done: seq<Validator>, rest: Result<seq<Validator>>) {
    whole == if rest.Ok? then Ok(done + rest.value) else rest
  }

  /** calculateNewActiveValidators */
  method CalculateNewActiveValidators(active: seq<Validator>, u: Update) returns (r: Result<seq<Validator>>)
    ensures r == Apply(active, u)
  {
    hide Sort, FromBytes;
    if |u.bitmap| == 0 {
      return Err(InvalidArgument);
    }
    var list := Sort(active + NewEntries(u.blsKeys), ByKey);
    var bitmap := FromBytes(u.bitmap);
    ghost var whole := Patch(list, bitmap, u.weights);
    var done: seq<Validator>, used := [], 0;
    assert list[0..] == list && u.weights[0..] == u.weights;
    assert Patching(whole, [], whole) by {
      assert whole.Ok? ==> [] + whole.value == whole.value;
    }
    for i := 0 to |list|
      invariant used <= |u.weights|
      invariant Patching(whole, done, Patch(list[i..], bitmap, u.weights[used..]))
    {
      assert list[i..][1..] == list[i + 1..] && list[i..][0] == list[i];
      ghost var rest := Patch(list[i..], bitmap, u.weights[used..]);
      if bitmap % 2 == 1 {
        if used == |u.weights| {
          return Err(WeightsLeft);
        }
        assert u.weights[used..][1..] == u.weights[used + 1..] && u.weights[used..][0] == u.weights[used];
        PatchingStep(whole, done, list[i].(bftWeight := u.weights[used]), Patch(list[i + 1..], bitmap / 2, u.weights[used + 1..]));
        done, used := done + [list[i].(bftWeight := u.weights[used])], used + 1;
      } else {
        PatchingStep(whole, done, list[i], Patch(list[i + 1..], bitmap / 2, u.weights[used..]));
        done := done + [list[i]];
      }
      bitmap := bitmap / 2;
    }
    if used != |u.weights| {
      return Err(WeightsLeft);
    }
    assert done + [] == done;
    return Ok(Positive(done));
  }

  lemma PatchingStep(whole: Result<seq<Validator>>, done: seq<Validator>, v: Validator, rest: Result<seq<Validator>>)
    requires Patching(whole, done, if rest.Ok? then Ok([v] + rest.value) else rest)
    ensures Patching(whole, done + [v], rest)
  {
    if rest.Ok? {
      assert done + ([v] + rest.value) == done + [v] + rest.value;
    }
  }
}
