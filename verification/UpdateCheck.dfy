/** The receiver's check of a validator-set update (verifyValidatorsUpdate of the interoperability module). */
module UpdateCheck {
  import opened Wrappers
  import opened Sorting
  import opened Regroup
  import opened ValidatorsUpdate

  /** The loop over all keys: an added key must have its bit set, and the weight taken at that bit must not be zero. */
  function CheckWeights(ks: seq<bytes>, added: seq<bytes>, bitmap: nat, weights: seq<nat>): Result<()> {
    if ks == [] then Ok(())
    else if ks[0] in added && bitmap % 2 == 0 then Err(MissingWeight)
    else if ks[0] in added && weights != [] && weights[0] == 0 then Err(ZeroWeight)
    else CheckWeights(ks[1..], added, bitmap / 2, if bitmap % 2 == 1 && weights != [] then weights[1..] else weights)
  }

  const MAX_NUM_VALIDATORS: nat := 199
  const MAX_TOTAL_WEIGHT: nat := 0xffff_ffff_ffff_ffff

  function TotalWeight(vs: seq<Validator>): nat {
    if vs == [] then 0 else TotalWeight(vs[..|vs| - 1]) + vs[|vs| - 1].bftWeight
  }

  /** The limits on the validators after the update. */
  function CheckLimits(vs: seq<Validator>): Result<()> {
    if |vs| < 1 || |vs| > MAX_NUM_VALIDATORS then Err(InvalidValidatorCount)
    else if TotalWeight(vs) > MAX_TOTAL_WEIGHT then Err(TotalWeightTooLarge)
    else Ok(())
  }

  /** verifyValidatorsUpdate up to the certificate. */
  function VerifyUpdate(active: seq<Validator>, u: Update): Result<()> {
    var ks := SortKeys(KeysOf(active) + u.blsKeys);
    if SortKeys(u.blsKeys) != u.blsKeys then Err(KeysNotSorted)
    else if |ks| != |set k | k in ks| then Err(DuplicatedKeys)
    else if |u.bitmap| != ByteCount(|ks|) then Err(InvalidBitmapLength)
    else if u.bitmap == [] then Err(InvalidArgument)
    else if CountBits(FromBytes(u.bitmap)) != |u.weights| then Err(InvalidWeightCount)
    else
      var _ :- CheckWeights(ks, u.blsKeys, FromBytes(u.bitmap), u.weights);
      var validators :- Apply(active, u);
      CheckLimits(validators)
  }

  /** On the weights and the bitmap of a diff the loop finds exactly the added keys without a positive weight. */
  lemma {:induction false} WeightsPassIff(ks: seq<bytes>, added: seq<bytes>, was: map<bytes, nat>, next: map<bytes, nat>)
    requires forall k | k in ks && k in added :: k in next && k !in was
    ensures CheckWeights(ks, added, ChangedBitmap(ks, was, next), ChangedWeights(ks, was, next)).Ok?
       <==> forall k | k in ks && k in added :: next[k] > 0
    decreases ks
  {
    if ks != [] {
      var k, rest := ks[0], ks[1..];
      assert ks == [k] + rest;
      WeightsPassIff(rest, added, was, next);
      assert ChangedBitmap(ks, was, next) / 2 == ChangedBitmap(rest, was, next);
      if Change(was, next, k).Some? {
        assert ChangedWeights(ks, was, next)[1..] == ChangedWeights(rest, was, next);
      }
    }
  }

  lemma NoDupStep(xs: seq<bytes>)
    requires xs != []
    ensures NoDup(xs) <==> NoDup(xs[1..]) && xs[0] !in xs[1..]
  {
    var x, rest := xs[0], xs[1..];
    assert forall i | 0 <= i < |rest| :: rest[i] == xs[i + 1];
    if x in rest {
      var i :| 0 <= i < |rest| && rest[i] == x;
      assert xs[i + 1] == x;
    }
  }

  lemma {:induction false} NoDupIff(xs: seq<bytes>)
    ensures NoDup(xs) <==> |xs| == |set x | x in xs|
    ensures |set x | x in xs| <= |xs|
  {
    if xs != [] {
      NoDupStep(xs);
      hide NoDup;
      NoDupIff(xs[1..]);
      assert xs == [xs[0]] + xs[1..];
      assert (set y | y in xs) == (set y | y in xs[1..]) + {xs[0]};
    }
  }

  lemma SortedKeysStay(keys: seq<bytes>, ks: seq<bytes>)
    requires NoDup(keys) && NoDup(ks) && Sorted(ks, LexLe) && forall k :: k in ks <==> k in keys
    ensures SortKeys(keys) == ks
  {
    LexIsOrder();
    hide LexLe, Sort;
    SortSorted(keys, LexLe);
    SortNoDup(keys, LexLe);
    SortedSetUnique(SortKeys(keys), ks, LexLe);
  }

  lemma AddedAreNew(u: Update, ks: seq<bytes>, current: seq<Validator>, next: seq<Validator>)
    requires Distinct(current) && Distinct(next) && IsDiff(u, ks, current, next)
    ensures NoDup(KeysOf(current) + u.blsKeys) && forall k :: k in ks <==> k in KeysOf(current) + u.blsKeys
    ensures forall k :: k in u.blsKeys <==> k in Weights(next) && k !in Weights(current)
  {
    WeightsSpec(current);
    hide LexLe, BytesOf, ChangedBitmap, ChangedWeights, Weights;
    DistinctFacts(current);
    var keys := KeysOf(current);
    forall k
      ensures k in keys <==> k in Weights(current)
    {
    }
  }

  /**
   For two validator sets with distinct keys the receiver accepts the computed update if and only if every added
   validator has a positive weight and the validators with weight are neither none nor too many nor too heavy.
   */
  lemma UpdateIsAcceptedIff(u: Update, ks: seq<bytes>, current: seq<Validator>, next: seq<Validator>)
    requires Distinct(current) && Distinct(next) && IsDiff(u, ks, current, next)
    ensures VerifyUpdate(current, u).Ok?
       <==> && (forall v | v in next && v.blsKey !in KeysOf(current) :: v.bftWeight > 0)
            && 1 <= |Positive(next)| <= MAX_NUM_VALIDATORS && TotalWeight(next) <= MAX_TOTAL_WEIGHT
  {
    hide LexLe, Sort, Pow2, BytesOf, FromBytes, ChangedBitmap, ChangedWeights, Weights, Distinct, CountBits, CheckWeights, Change,
         Apply, Positive, TotalWeight;
    var was, m := Weights(current), Weights(next);
    AddedAreNew(u, ks, current, next);
    SortedKeysStay(u.blsKeys, u.blsKeys);
    SortedKeysStay(KeysOf(current) + u.blsKeys, ks);
    NoDupIff(ks);
    BitmapLengthIff(u, ks, current, next);
    ChangedBitmapSpec(ks, was, m);
    PaddedBitmap(ChangedBitmap(ks, was, m), ByteCount(|ks|));
    WeightsPassIff(ks, u.blsKeys, was, m);
    AddedPositive(u, ks, current, next);
    DiffThenPatch(u, ks, current, next);
    SortPermutes(Positive(next), ByKey);
    SortKeepsTotal(Positive(next));
    PositiveKeepsTotal(next);
    PositiveIsPart(next);
  }

  lemma {:induction false} InsertKeepsTotal(v: Validator, vs: seq<Validator>)
    ensures TotalWeight(Insert(v, vs, ByKey)) == TotalWeight(vs) + v.bftWeight
  {
    hide ByKey;
    if vs != [] {
      var front, last := vs[..|vs| - 1], vs[|vs| - 1];
      if ByKey(last, v) {
        assert (vs + [v])[..|vs|] == vs;
      } else {
        InsertKeepsTotal(v, front);
        var r := Insert(v, front, ByKey);
        assert (r + [last])[..|r|] == r;
      }
    }
  }

  lemma {:induction false} SortKeepsTotal(vs: seq<Validator>)
    ensures TotalWeight(Sort(vs, ByKey)) == TotalWeight(vs)
  {
    if vs != [] {
      SortKeepsTotal(vs[..|vs| - 1]);
      InsertKeepsTotal(vs[|vs| - 1], Sort(vs[..|vs| - 1], ByKey));
    }
  }

  lemma {:induction false} TotalFromFront(vs: seq<Validator>)
    requires vs != []
    ensures TotalWeight(vs) == vs[0].bftWeight + TotalWeight(vs[1..])
  {
    if |vs| > 1 {
      var front := vs[..|vs| - 1];
      TotalFromFront(front);
      assert front[1..] == vs[1..][..|vs| - 2];
    }
  }

  lemma {:induction false} PositiveKeepsTotal(vs: seq<Validator>)
    ensures TotalWeight(Positive(vs)) == TotalWeight(vs)
  {
    if vs != [] {
      PositiveKeepsTotal(vs[1..]);
      TotalFromFront(vs);
      if vs[0].bftWeight > 0 {
        TotalFromFront(Positive(vs));
        assert Positive(vs)[1..] == Positive(vs[1..]);
      }
    }
  }

  lemma PositiveIsPart(vs: seq<Validator>)
    ensures vs == [] ==> Positive(vs) == []
  {
  }

  lemma AddedPositive(u: Update, ks: seq<bytes>, current: seq<Validator>, next: seq<Validator>)
    requires Distinct(current) && Distinct(next) && IsDiff(u, ks, current, next)
    requires forall k :: k in u.blsKeys <==> k in Weights(next) && k !in Weights(current)
    ensures (forall k | k in ks && k in u.blsKeys :: Weights(next)[k] > 0)
       <==> forall v | v in next && v.blsKey !in KeysOf(current) :: v.bftWeight > 0
  {
    WeightsSpec(current);
    WeightsSpec(next);
    hide LexLe, BytesOf, ChangedBitmap, ChangedWeights, Weights;
    forall k | k in u.blsKeys
      ensures k in ks && Validator(k, Weights(next)[k]) in next && k !in KeysOf(current)
    {
    }
    forall v | v in next && v.blsKey !in KeysOf(current)
      ensures v.blsKey in u.blsKeys && Weights(next)[v.blsKey] == v.bftWeight
    {
    }
  }

  /** verifyValidatorsUpdate, with its loop. */
  method VerifyValidatorsUpdate(active: seq<Validator>, u: Update) returns (r: Result<()>)
    ensures r == VerifyUpdate(active, u)
  {
    hide LexLe, Sort, FromBytes, CountBits;
    if SortKeys(u.blsKeys) != u.blsKeys {
      return Err(KeysNotSorted);
    }
    var allBLSKeys := SortKeys(KeysOf(active) + u.blsKeys);
    if |allBLSKeys| != |set k | k in allBLSKeys| {
      return Err(DuplicatedKeys);
    }
    if |u.bitmap| != ByteCount(|allBLSKeys|) {
      return Err(InvalidBitmapLength);
    }
    if u.bitmap == [] {
      return Err(InvalidArgument);
    }
    var bitmap := FromBytes(u.bitmap);
    if CountBits(bitmap) != |u.weights| {
      return Err(InvalidWeightCount);
    }
    var bftWeightIndex := 0;
    ghost var whole := CheckWeights(allBLSKeys, u.blsKeys, bitmap, u.weights);
    assert allBLSKeys[0..] == allBLSKeys && u.weights[0..] == u.weights;
    for i := 0 to |allBLSKeys|
      invariant bftWeightIndex <= |u.weights|
      invariant whole == CheckWeights(allBLSKeys[i..], u.blsKeys, bitmap, u.weights[bftWeightIndex..])
    {
      var blsKey := allBLSKeys[i];
      assert allBLSKeys[i..][0] == blsKey && allBLSKeys[i..][1..] == allBLSKeys[i + 1..];
      var digit := bitmap % 2;
      if blsKey in u.blsKeys {
        if digit != 1 {
          return Err(MissingWeight);
        }
        if bftWeightIndex < |u.weights| && u.weights[bftWeightIndex] == 0 {
          return Err(ZeroWeight);
        }
      }
      if digit == 1 && bftWeightIndex < |u.weights| {
        assert u.weights[bftWeightIndex..][1..] == u.weights[bftWeightIndex + 1..];
        bftWeightIndex := bftWeightIndex + 1;
      }
      bitmap := bitmap / 2;
    }
    var validators := CalculateNewActiveValidators(active, u);
    if validators.Err? {
      return Err(validators.error);
    }
    AppliedHaveWeight(active, u);
    r := VerifyLimits(validators.value);
  }

  lemma {:induction false} PositiveOnly(vs: seq<Validator>)
    ensures forall v | v in Positive(vs) :: v.bftWeight > 0
  {
    if vs != [] {
      PositiveOnly(vs[1..]);
    }
  }

  lemma AppliedHaveWeight(active: seq<Validator>, u: Update)
    requires Apply(active, u).Ok?
    ensures forall v | v in Apply(active, u).value :: v.bftWeight > 0
  {
    hide Patch, Sort, FromBytes, Positive;
    PositiveOnly(Patch(Sort(active + NewEntries(u.blsKeys), ByKey), FromBytes(u.bitmap), u.weights).value);
  }

  /** The last loop: no validator without weight is left to it. */
  method VerifyLimits(vs: seq<Validator>) returns (r: Result<()>)
    requires forall v | v in vs :: v.bftWeight > 0
    ensures r == CheckLimits(vs)
  {
    if |vs| < 1 || |vs| > MAX_NUM_VALIDATORS {
      return Err(InvalidValidatorCount);
    }
    var totalWeight := 0;
    for i := 0 to |vs|
      invariant totalWeight == TotalWeight(vs[..i]) <= MAX_TOTAL_WEIGHT
    {
      if vs[i].bftWeight == 0 {
        return Err(ZeroWeight);
      }
      assert vs[..i + 1][..i] == vs[..i];
      totalWeight := totalWeight + vs[i].bftWeight;
      if totalWeight > MAX_TOTAL_WEIGHT {
        TotalGrows(vs, i + 1);
        return Err(TotalWeightTooLarge);
      }
    }
    assert vs[..|vs|] == vs;
    return Ok(());
  }

  lemma {:induction false} TotalGrows(vs: seq<Validator>, i: nat)
    requires i <= |vs|
    ensures TotalWeight(vs[..i]) <= TotalWeight(vs)
  {
    if i < |vs| {
      TotalGrows(vs[..|vs| - 1], i);
      assert vs[..|vs| - 1][..i] == vs[..i];
    } else {
      assert vs[..i] == vs;
    }
  }
}
