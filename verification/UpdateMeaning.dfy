/** What a validators update says byte by byte, and what the receiver makes of any update. */
module UpdateMeaning {
  import opened Wrappers
  import opened Sorting
  import opened Regroup
  import opened ValidatorsUpdate
  import opened UpdateCheck

  /* ---- Bits of the bitmap ---- */

  /** Bit `i`, counted from the right: bit `i % 8` of the byte `i / 8` places from the end. */
  predicate BitAt(bitmap: bytes, i: nat)
    requires i < 8 * |bitmap|
  {
    (bitmap[|bitmap| - 1 - i / 8] / Pow2(i % 8)) % 2 == 1
  }

  lemma {:induction false} TestBitMeans(n: nat, i: nat)
    ensures TestBit(n, i) <==> (n / Pow2(i)) % 2 == 1
  {
    if i > 0 {
      TestBitMeans(n / 2, i - 1);
      HalfThenPower(n, Pow2(i - 1));
    }
  }

  lemma HalfThenPower(n: nat, p: nat)
    requires p > 0
    ensures (n / 2) / p == n / (2 * p)
  {
    var q, r := n / 2, n % 2;
    var a, b := q / p, q % p;
    assert n == 2 * q + r && q == p * a + b;
    assert n == (2 * p) * a + (2 * b + r);
    DivModUnique(n, 2 * p, a, 2 * b + r);
  }

  lemma {:induction false} TestLowBits(high: nat, low: nat, w: nat, i: nat)
    requires low < Pow2(w)
    ensures TestBit(high * Pow2(w) + low, i) <==> if i < w then TestBit(low, i) else TestBit(high, i - w)
    decreases w
  {
    if w > 0 {
      var n := high * Pow2(w) + low;
      assert high * Pow2(w) == 2 * (high * Pow2(w - 1));
      assert n / 2 == high * Pow2(w - 1) + low / 2 && n % 2 == low % 2;
      if i > 0 {
        TestLowBits(high, low / 2, w - 1, i - 1);
      }
    }
  }

  lemma Pow2Of8()
    ensures Pow2(8) == 256
  {
  }

  /** The bits of the number a bitmap stands for are its bits counted from the right. */
  lemma {:induction false} BitmapBits(bitmap: bytes, i: nat)
    requires i < 8 * |bitmap|
    ensures TestBit(FromBytes(bitmap), i) <==> BitAt(bitmap, i)
    decreases |bitmap|
  {
    hide TestBit;
    Pow2Of8();
    var n := |bitmap| - 1;
    TestLowBits(FromBytes(bitmap[..n]), bitmap[n], 8, i);
    if i < 8 {
      TestBitMeans(bitmap[n], i);
      assert i / 8 == 0 && i % 8 == i;
    } else {
      BitmapBits(bitmap[..n], i - 8);
      assert (i - 8) / 8 == i / 8 - 1 && (i - 8) % 8 == i % 8;
    }
  }

  /** How many of the lowest `i` bits are set. */
  function SetBelow(n: nat, i: nat): nat {
    if i == 0 then 0 else SetBelow(n, i - 1) + if TestBit(n, i - 1) then 1 else 0
  }

  lemma {:induction false} SetBelowShift(n: nat, i: nat)
    ensures SetBelow(n, i + 1) == n % 2 + SetBelow(n / 2, i)
  {
    if i == 0 {
      assert SetBelow(n, 0) == 0 && SetBelow(n, 1) == SetBelow(n, 0) + if TestBit(n, 0) then 1 else 0;
    } else {
      SetBelowShift(n, i - 1);
    }
  }

  /** The number of set bits, counted place by place. */
  lemma {:induction false} CountBitsMeans(n: nat, m: nat)
    requires n < Pow2(m)
    ensures CountBits(n) == SetBelow(n, m)
  {
    if m == 0 {
      assert SetBelow(n, 0) == 0;
    } else {
      CountBitsMeans(n / 2, m - 1);
      SetBelowShift(n, m - 1);
    }
  }

  /* ---- What the sender's update says ---- */

  lemma {:induction false} WeightsAtRank(ks: seq<bytes>, was: map<bytes, nat>, next: map<bytes, nat>)
    ensures var n, ws := ChangedBitmap(ks, was, next), ChangedWeights(ks, was, next);
            && |ws| == SetBelow(n, |ks|)
            && forall i | 0 <= i < |ks| && Change(was, next, ks[i]).Some? ::
                 SetBelow(n, i) < |ws| && ws[SetBelow(n, i)] == Change(was, next, ks[i]).value
  {
    hide Change, SetBelow;
    var n, ws := ChangedBitmap(ks, was, next), ChangedWeights(ks, was, next);
    if ks == [] {
      NothingBelow(n);
    } else {
      var rest := ks[1..];
      var m := ChangedBitmap(rest, was, next);
      WeightsAtRank(rest, was, next);
      assert n / 2 == m && n % 2 == if Change(was, next, ks[0]).Some? then 1 else 0;
      SetBelowShift(n, |rest|);
      NothingBelow(n);
      forall i | 0 <= i < |ks| && Change(was, next, ks[i]).Some?
        ensures SetBelow(n, i) < |ws| && ws[SetBelow(n, i)] == Change(was, next, ks[i]).value
      {
        if i > 0 {
          assert ks[i] == rest[i - 1];
          SetBelowShift(n, i - 1);
        }
      }
    }
  }

  lemma NothingBelow(n: nat)
    ensures SetBelow(n, 0) == 0
  {
  }

  /** The same validator in both sets. */
  ghost predicate Unchanged(current: seq<Validator>, next: seq<Validator>, k: bytes) {
    exists v :: v in current && v in next && v.blsKey == k
  }

  lemma ChangeMeans(current: seq<Validator>, next: seq<Validator>, k: bytes)
    requires Distinct(current) && Distinct(next) && (k in Weights(current) || k in Weights(next))
    ensures var change := Change(Weights(current), Weights(next), k);
            && (change == None <==> Unchanged(current, next, k))
            && (change.Some? ==> forall w :: Validator(k, w) in next ==> change.value == w)
            && (change.Some? && k !in KeysOf(next) ==> change.value == 0)
  {
    WeightsSpec(current);
    WeightsSpec(next);
    var was, m := Weights(current), Weights(next);
    if k in was && k in m && was[k] == m[k] {
      assert Validator(k, m[k]) in current && Validator(k, m[k]) in next;
    }
    hide Weights;
  }

  /**
   The update, byte by byte. For the sorted union `ks` of the keys: bit `i` from the right is set if and only if validator `i` is
   not the same in both sets, and the weights are those of the set bits, in order, as the new set has them or zero.
   */
  lemma UpdateMeans(u: Update, ks: seq<bytes>, current: seq<Validator>, next: seq<Validator>, i: nat)
    requires Distinct(current) && Distinct(next) && IsDiff(u, ks, current, next) && i < |ks|
    ensures |ks| <= 8 * |u.bitmap| && (BitAt(u.bitmap, i) <==> !Unchanged(current, next, ks[i]))
    ensures var n := FromBytes(u.bitmap);
            && |u.weights| == SetBelow(n, |ks|)
            && (BitAt(u.bitmap, i) ==>
                  && SetBelow(n, i) < |u.weights|
                  && (forall w :: Validator(ks[i], w) in next ==> u.weights[SetBelow(n, i)] == w)
                  && (ks[i] !in KeysOf(next) ==> u.weights[SetBelow(n, i)] == 0))
  {
    var was, m := Weights(current), Weights(next);
    assert ks[i] in ks && (ks[i] in was || ks[i] in m);
    hide Change, ChangedBitmap, ChangedWeights, Weights, BytesOf, LeftPad, SetBelow;
    DiffSize(u, ks, current, next);
    ChangedBitmapSpec(ks, was, m);
    PaddedBitmap(ChangedBitmap(ks, was, m), ByteCount(|ks|));
    BitmapBits(u.bitmap, i);
    ChangeMeans(current, next, ks[i]);
    WeightsAtRank(ks, was, m);
  }

  /* ---- What the receiver makes of any update ---- */

  /** Patching succeeds exactly when there is one weight for each set bit of a validator, and puts them there in order. */
  lemma {:induction false} PatchMeans(vs: seq<Validator>, bitmap: nat, weights: seq<nat>)
    ensures var r := Patch(vs, bitmap, weights);
            && (r.Ok? <==> |weights| == SetBelow(bitmap, |vs|)) && (r.Err? ==> r.error == WeightsLeft)
            && (r.Ok? ==>
                  && |r.value| == |vs|
                  && forall i | 0 <= i < |vs| ::
                       r.value[i] == if TestBit(bitmap, i) && SetBelow(bitmap, i) < |weights|
                                     then Validator(vs[i].blsKey, weights[SetBelow(bitmap, i)]) else vs[i])
    decreases vs
  {
    hide SetBelow;
    NothingBelow(bitmap);
    if vs != [] {
      var rest, ws := vs[1..], if bitmap % 2 == 1 && weights != [] then weights[1..] else weights;
      SetBelowShift(bitmap, |rest|);
      if bitmap % 2 == 0 || weights != [] {
        PatchMeans(rest, bitmap / 2, ws);
        var r := Patch(vs, bitmap, weights);
        if r.Ok? {
          forall i | 0 <= i < |vs|
            ensures r.value[i] == if TestBit(bitmap, i) && SetBelow(bitmap, i) < |weights|
                                  then Validator(vs[i].blsKey, weights[SetBelow(bitmap, i)]) else vs[i]
          {
            if i > 0 {
              SetBelowShift(bitmap, i - 1);
              assert vs[i] == rest[i - 1];
            }
          }
        }
      }
    }
  }

  /** A key of the update must have its bit set and a weight that is not zero. */
  ghost predicate WeightGiven(ks: seq<bytes>, added: seq<bytes>, bitmap: nat, weights: seq<nat>, i: nat)
    requires i < |ks|
  {
    ks[i] in added ==>
      TestBit(bitmap, i) && (SetBelow(bitmap, i) < |weights| ==> weights[SetBelow(bitmap, i)] != 0)
  }

  /** The loop over the weights stops at the first key of the update that has none, or a zero. */
  lemma {:induction false} CheckWeightsMeans(ks: seq<bytes>, added: seq<bytes>, bitmap: nat, weights: seq<nat>, k: nat)
    requires k <= |ks| && (forall i | 0 <= i < k :: WeightGiven(ks, added, bitmap, weights, i))
    requires k < |ks| ==> !WeightGiven(ks, added, bitmap, weights, k)
    ensures CheckWeights(ks, added, bitmap, weights) ==
              if k == |ks| then Ok(()) else if TestBit(bitmap, k) then Err(ZeroWeight) else Err(MissingWeight)
    decreases ks
  {
    hide SetBelow;
    NothingBelow(bitmap);
    if ks != [] {
      if k == 0 {
        assert !WeightGiven(ks, added, bitmap, weights, 0);
      } else {
        assert WeightGiven(ks, added, bitmap, weights, 0);
        var rest, ws := ks[1..], if bitmap % 2 == 1 && weights != [] then weights[1..] else weights;
        forall i | 0 <= i < |rest|
          ensures WeightGiven(rest, added, bitmap / 2, ws, i) <==> WeightGiven(ks, added, bitmap, weights, i + 1)
        {
          SetBelowShift(bitmap, i);
          assert rest[i] == ks[i + 1];
        }
        CheckWeightsMeans(rest, added, bitmap / 2, ws, k - 1);
      }
    }
  }

  /** Which updates get past the first checks of the receiver, and which error the others get, in this order. */
  lemma VerifyOutcomes(active: seq<Validator>, u: Update)
    ensures var r, keys := VerifyUpdate(active, u), KeysOf(active) + u.blsKeys;
            var sorted, unique, long := Sorted(u.blsKeys, LexLe), NoDup(keys), |u.bitmap| == (|keys| + 7) / 8;
            && (r == Err(KeysNotSorted) <==> !sorted)
            && (r == Err(DuplicatedKeys) <==> sorted && !unique)
            && (r == Err(InvalidBitmapLength) <==> sorted && unique && !long)
            && (r == Err(InvalidArgument) <==> sorted && unique && keys == [] && u.bitmap == [])
            && (r == Err(InvalidWeightCount) <==>
                  sorted && unique && long && u.bitmap != [] && CountBits(FromBytes(u.bitmap)) != |u.weights|)
  {
    var keys := KeysOf(active) + u.blsKeys;
    LexIsOrder();
    SortIsIdentityIff(u.blsKeys);
    SortPermutes(keys, LexLe);
    SameElements(SortKeys(keys), keys);
    NoDupIff(keys);
    assert (set k | k in SortKeys(keys)) == set k | k in keys;
    ApplyErrors(active, u);
    WeightErrors(SortKeys(keys), u.blsKeys, FromBytes(u.bitmap), u.weights);
    hide SortKeys, CheckWeights, Apply, CheckLimits, FromBytes, CountBits, Sorted, LexLe, NoDup, TotalPreorder;
    LimitErrors(active, u);
  }

  lemma SortIsIdentityIff(keys: seq<bytes>)
    ensures SortKeys(keys) == keys <==> Sorted(keys, LexLe)
  {
    LexIsOrder();
    hide LexLe, Sort, TotalPreorder;
    SortSorted(keys, LexLe);
    SortPermutes(keys, LexLe);
    if Sorted(keys, LexLe) {
      SortedStay(keys);
    }
  }

  lemma {:induction false} SortedStay(keys: seq<bytes>)
    requires Sorted(keys, LexLe)
    ensures SortKeys(keys) == keys
  {
    if keys != [] {
      var front, last := keys[..|keys| - 1], keys[|keys| - 1];
      SortedStay(front);
      assert keys == front + [last];
      if front != [] {
        assert LexLe(front[|front| - 1], last);
      }
    }
  }

  lemma {:induction false} WeightErrors(ks: seq<bytes>, added: seq<bytes>, bitmap: nat, weights: seq<nat>)
    ensures CheckWeights(ks, added, bitmap, weights).Err? ==>
              CheckWeights(ks, added, bitmap, weights).error in {MissingWeight, ZeroWeight}
  {
    if ks != [] {
      WeightErrors(ks[1..], added, bitmap / 2, if bitmap % 2 == 1 && weights != [] then weights[1..] else weights);
    }
  }

  lemma ApplyErrors(active: seq<Validator>, u: Update)
    ensures u.bitmap != [] && Apply(active, u).Err? ==> Apply(active, u).error == WeightsLeft
  {
    PatchMeans(Sort(active + NewEntries(u.blsKeys), ByKey), FromBytes(u.bitmap), u.weights);
    hide Patch, Sort, SetBelow;
  }

  lemma LimitErrors(active: seq<Validator>, u: Update)
    ensures forall vs :: CheckLimits(vs).Err? ==> CheckLimits(vs).error in {InvalidValidatorCount, TotalWeightTooLarge}
  {
    hide TotalWeight;
  }

  /** The limits of a validator set, in numbers; the total is the sum. */
  lemma LimitsMean(vs: seq<Validator>, v: Validator)
    ensures CheckLimits(vs) == Err(InvalidValidatorCount) <==> |vs| == 0 || |vs| > 199
    ensures CheckLimits(vs) == Err(TotalWeightTooLarge) <==> 1 <= |vs| <= 199 && TotalWeight(vs) > 18446744073709551615
    ensures TotalWeight([]) == 0 && TotalWeight(vs + [v]) == TotalWeight(vs) + v.bftWeight
  {
    assert (vs + [v])[..|vs|] == vs;
  }
}
