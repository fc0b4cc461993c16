/** The minimum fee of a transaction (elements/transactions/src/fee.ts). */
module Fee {
  import opened Wrappers
  import opened Varint
  import opened Schema
  import opened Codec
  import opened CodecCases
  import opened Transactions

  /** The transaction with the fee `fee`. */
  function WithFee(tx: Props, fee: nat): Props {
    tx[FEE := Num(fee)]
  }

  /** The other properties encode. */
  predicate Encodable(tx: Props) {
    GetBytes(WithFee(tx, 0)).Ok?
  }

  /** The size with the fee left out of the count. */
  function FixedSize(tx: Props): (n: int)
    requires Encodable(tx)
  {
    |GetBytes(WithFee(tx, 0)).value| - 1
  }

  /** A transaction encodes exactly when its fee fits, and its size is a constant plus the length of the fee. */
  lemma SizeOfFee(tx: Props, fee: nat)
    requires Encodable(tx)
    ensures GetBytes(WithFee(tx, fee)).Ok? <==> fee <= MAX_UINT64
    ensures fee <= MAX_UINT64 ==> |GetBytes(WithFee(tx, fee)).value| == FixedSize(tx) + |VarintBytes(fee)|
    ensures FixedSize(tx) >= 0
  {
    hide EncodeFields;
    FieldNames();
    assert VarintBytes(0) == [0];
    hide VarintBytes;
    if fee <= MAX_UINT64 {
      SizeOfNumber(BASE_TRANSACTION, tx, FEE, 0, fee);
    } else {
      FeeOutOfRange(BASE_TRANSACTION, tx, FEE, fee);
    }
    SizeOfNumber(BASE_TRANSACTION, tx, FEE, 0, MAX_UINT64);
    assert |GetBytes(WithFee(tx, 0)).value| >= 1 by { NonEmpty(tx); }
  }

  lemma NonEmpty(tx: Props)
    requires Encodable(tx)
    ensures |GetBytes(WithFee(tx, 0)).value| > 0
  {
    hide EncodeFields;
    FieldNames();
    FeeIsWritten(BASE_TRANSACTION, WithFee(tx, 0));
  }

  lemma {:induction false} FeeIsWritten(fs: seq<Field>, obj: Props)
    requires EncodeFields(fs, obj).Ok? && FEE in obj && exists f :: f in fs && f.name == FEE && f.kind == Scalar(UInt64)
    ensures |EncodeFields(fs, obj).value| > 0
    decreases fs
  {
    var f, rest := fs[0], fs[1..];
    assert fs == [f] + rest;
    if !(f.name == FEE && f.kind == Scalar(UInt64)) {
      FeeIsWritten(rest, obj);
    }
  }

  /** What a transaction with fee `fee` must pay at least. */
  function Required(tx: Props, perByte: nat, additional: nat, fee: nat): nat
    requires Encodable(tx)
  {
    SizeOfFee(tx, fee);
    (FixedSize(tx) + |VarintBytes(fee)|) * perByte + additional
  }

  lemma RequiredMonotone(tx: Props, perByte: nat, additional: nat, a: nat, b: nat)
    requires Encodable(tx)
    ensures a <= b ==> Required(tx, perByte, additional, a) <= Required(tx, perByte, additional, b)
    ensures |VarintBytes(a)| == |VarintBytes(b)| ==> Required(tx, perByte, additional, a) == Required(tx, perByte, additional, b)
    ensures Required(tx, perByte, additional, a) >= additional
  {
    SizeOfFee(tx, a);
    SizeOfFee(tx, b);
    var m, x, y := FixedSize(tx), |VarintBytes(a)|, |VarintBytes(b)|;
    MulMonotone(m + x, m + y, perByte);
    if a <= b {
      VarintLengthMonotone(a, b);
    }
  }

  lemma MulMonotone(a: nat, b: nat, k: nat)
    ensures a <= b ==> a * k <= b * k
    ensures a * k >= 0
  {
  }

  /** `fee` is enough for its own transaction. */
  ghost predicate Sufficient(tx: Props, perByte: nat, additional: nat, fee: nat)
    requires Encodable(tx)
  {
    fee <= MAX_UINT64 && fee >= Required(tx, perByte, additional, fee)
  }

  /**
   The loop reaches, within eleven rounds, the least fee that pays for the transaction carrying it, and that fee
   equals what is required. It fails exactly when no uint64 fee is sufficient.
   */
  method LeastFee(tx: Props, perByte: nat, additional: nat) returns (r: Result<nat>, ghost rounds: nat)
    requires Encodable(tx)
    ensures rounds <= 11
    ensures r.Ok? ==> Sufficient(tx, perByte, additional, r.value) && r.value == Required(tx, perByte, additional, r.value)
    ensures r.Ok? ==> GetBytes(tx[FEE := Num(r.value)]).Ok?
    ensures r.Ok? ==> r.value == |GetBytes(tx[FEE := Num(r.value)]).value| * perByte + additional
    ensures r.Ok? ==> forall x: nat | Sufficient(tx, perByte, additional, x) :: r.value <= x
    ensures r.Err? <==> forall x: nat :: !Sufficient(tx, perByte, additional, x)
  {
    hide Encodable, EncodeFields, FixedSize, VarintBytes;
    var fee := additional;
    ghost var prev: nat := 0;
    rounds := 0;
    RequiredMonotone(tx, perByte, additional, 0, 0);
    LowerBound(tx, perByte, additional);
    while true
      invariant rounds <= 10
      invariant rounds == 0 ==> fee == additional
      invariant rounds > 0 ==>
                  && prev < fee == Required(tx, perByte, additional, prev)
                  && prev <= MAX_UINT64 && |VarintBytes(prev)| >= rounds
      invariant forall x: nat | Sufficient(tx, perByte, additional, x) :: fee <= x
      decreases MAX_UINT64 + 1 - fee
    {
      SizeOfFee(tx, fee);
      var encoded := GetBytes(WithFee(tx, fee));
      rounds := rounds + 1;
      if encoded.Err? {
        return Err(encoded.error), rounds;
      }
      var minFee := |encoded.value| * perByte + additional;
      RequiredMonotone(tx, perByte, additional, prev, fee);
      RequiredMonotone(tx, perByte, additional, fee, fee);
      assert minFee == Required(tx, perByte, additional, fee);
      if minFee <= fee {
        assert minFee == fee;
        assert Sufficient(tx, perByte, additional, fee);
        return Ok(minFee), rounds;
      }
      AboveRequired(tx, perByte, additional, fee);
      LongerFee(tx, perByte, additional, prev, fee, rounds);
      prev, fee := fee, minFee;
    }
  }

  lemma LowerBound(tx: Props, perByte: nat, additional: nat)
    requires Encodable(tx)
    ensures forall x: nat | Sufficient(tx, perByte, additional, x) :: additional <= x
  {
    forall x: nat | Sufficient(tx, perByte, additional, x)
      ensures additional <= x
    {
      RequiredMonotone(tx, perByte, additional, x, x);
    }
  }

  /** A sufficient fee that is at least `fee` is at least what `fee` requires. */
  lemma AboveRequired(tx: Props, perByte: nat, additional: nat, fee: nat)
    requires Encodable(tx)
    ensures forall x: nat | Sufficient(tx, perByte, additional, x) && fee <= x :: Required(tx, perByte, additional, fee) <= x
  {
    forall x: nat | Sufficient(tx, perByte, additional, x) && fee <= x
      ensures Required(tx, perByte, additional, fee) <= x
    {
      RequiredMonotone(tx, perByte, additional, fee, x);
    }
  }

  /** Each further round needs a longer fee, and a uint64 has at most ten bytes. */
  lemma LongerFee(tx: Props, perByte: nat, additional: nat, prev: nat, fee: nat, rounds: nat)
    requires Encodable(tx) && fee <= MAX_UINT64 && fee < Required(tx, perByte, additional, fee)
    requires rounds > 0
    requires rounds > 1 ==> prev < fee == Required(tx, perByte, additional, prev) && |VarintBytes(prev)| >= rounds - 1
    ensures |VarintBytes(fee)| >= rounds && rounds <= 10
  {
    hide Encodable, FixedSize;
    Widths();
    VarintLengthBound(fee, W64.maxBytes, W64.lastMax);
    if rounds > 1 {
      RequiredMonotone(tx, perByte, additional, prev, fee);
      VarintLengthMonotone(prev, fee);
    }
  }

  const DEFAULT_SIGNATURE_BYTE_SIZE: nat := 64

  /** The transaction with stand-ins for its signatures: full ones, then empty ones. */
  function Mocked(trx: Props, signatures: nat, empty: nat): Props {
    WithSignatures(trx, seq(signatures, _ => seq(DEFAULT_SIGNATURE_BYTE_SIZE, _ => 0)) + seq(empty, _ => []))
  }

  /* ---- The size of the stand-ins ---- */

  /** The bytes of an array of byte strings under a one-byte key, all shorter than 128 bytes. */
  function SlotsSize(items: seq<Value>): nat {
    if items == [] then 0 else 2 + (if items[0].Bin? then |items[0].data| else 0) + SlotsSize(items[1..])
  }

  lemma {:induction false} RepeatedSize(key: bytes, items: seq<Value>)
    requires |key| == 1 && forall v | v in items :: v.Bin? && |v.data| < 128
    ensures EncodeRepeated(Bytes, key, items).Ok? && |EncodeRepeated(Bytes, key, items).value| == SlotsSize(items)
  {
    if items != [] {
      assert items[0] in items;
      RepeatedSize(key, items[1..]);
      assert VarintBytes(|items[0].data|) == [|items[0].data|];
    }
  }

  lemma {:induction false} SlotsOfConcat(a: seq<Value>, b: seq<Value>)
    ensures SlotsSize(a + b) == SlotsSize(a) + SlotsSize(b)
  {
    if a == [] {
      assert a + b == b;
    } else {
      assert (a + b)[1..] == a[1..] + b;
      SlotsOfConcat(a[1..], b);
    }
  }

  lemma {:induction false} SlotsOfSame(items: seq<Value>, size: nat)
    requires forall v | v in items :: v.Bin? && |v.data| == size
    ensures SlotsSize(items) == |items| * (2 + size)
  {
    if items != [] {
      assert items[0] in items;
      SlotsOfSame(items[1..], size);
      assert |items| * (2 + size) == (2 + size) + (|items| - 1) * (2 + size);
    }
  }

  /** An array of byte strings at the end, written or not, changes nothing in front of it. */
  lemma {:induction false} LastArray(head: seq<Field>, f: Field, obj: Props, items: seq<Value>)
    requires f.kind == ScalarArray(Bytes) && (forall g | g in head :: g.name != f.name)
    requires EncodeFields(head + [f], obj[f.name := Arr([])]).Ok? && EncodeRepeated(Bytes, Key(f), items).Ok?
    ensures EncodeFields(head + [f], obj[f.name := Arr(items)])
         == Ok(EncodeFields(head + [f], obj[f.name := Arr([])]).value + EncodeRepeated(Bytes, Key(f), items).value)
    decreases head
  {
    hide EncodeRepeated, Key;
    var a, b := obj[f.name := Arr([])], obj[f.name := Arr(items)];
    if head == [] {
      assert head + [f] == [f];
      NoItems(Key(f));
      SingleEncode(f, a);
      SingleEncode(f, b);
      hide EncodeFields;
      assert [] + EncodeRepeated(Bytes, Key(f), items).value == EncodeRepeated(Bytes, Key(f), items).value;
    } else {
      assert (head + [f])[1..] == head[1..] + [f] && (head + [f])[0] == head[0];
      assert head[0] in head;
      SameField(head[0], a, b);
      hide EncodeField;
      LastArray(head[1..], f, obj, items);
      var h, t, r := EncodeField(head[0], a).value, EncodeFields(head[1..] + [f], a).value, EncodeRepeated(Bytes, Key(f), items).value;
      assert h + (t + r) == (h + t) + r;
    }
  }

  lemma {:induction false} LastArrayBack(head: seq<Field>, f: Field, obj: Props, items: seq<Value>)
    requires f.kind == ScalarArray(Bytes) && (forall g | g in head :: g.name != f.name)
    requires EncodeFields(head + [f], obj[f.name := Arr(items)]).Ok?
    ensures EncodeFields(head + [f], obj[f.name := Arr([])]).Ok?
    decreases head
  {
    hide EncodeRepeated, Key;
    var a, b := obj[f.name := Arr([])], obj[f.name := Arr(items)];
    if head == [] {
      assert head + [f] == [f] && [f][1..] == [];
      NoItems(Key(f));
      assert EncodeFields([], a) == Ok([]) && EncodeFields([], b) == Ok([]);
    } else {
      assert (head + [f])[1..] == head[1..] + [f] && (head + [f])[0] == head[0];
      assert head[0] in head;
      SameField(head[0], a, b);
      hide EncodeField;
      LastArrayBack(head[1..], f, obj, items);
    }
  }

  lemma NoItems(key: bytes)
    ensures EncodeRepeated(Bytes, key, []) == Ok([])
  {
  }

  lemma SameField(f: Field, a: Props, b: Props)
    requires (f.name in a <==> f.name in b) && (f.name in a ==> a[f.name] == b[f.name])
    ensures EncodeField(f, a) == EncodeField(f, b)
  {
    hide EncodeFields, EncodeItems, EncodeRepeated, EncodePacked;
  }

  /** The message whose size counts: the transaction as given, with that fee and without signatures. */
  function Bare(trx: Props, fee: nat): Props {
    trx[FEE := Num(fee)][SIGNATURES := Arr([])]
  }

  /** Each full stand-in adds 66 bytes, each empty one two. */
  lemma MockedSize(trx: Props, signatures: nat, empty: nat, fee: nat)
    ensures GetBytes(WithFee(Mocked(trx, signatures, empty), fee)).Ok? <==> GetBytes(Bare(trx, fee)).Ok?
    ensures GetBytes(Bare(trx, fee)).Ok? ==>
              |GetBytes(WithFee(Mocked(trx, signatures, empty), fee)).value|
              == |GetBytes(Bare(trx, fee)).value| + 66 * signatures + 2 * empty
  {
    var items := MockItems(trx, signatures, empty, fee);
    MockItemsSize(items, signatures, empty);
    var fs := BASE_TRANSACTION;
    SignatureKey();
    hide EncodeFields, EncodeRepeated, Key, SlotsSize;
    RepeatedSize(Key(fs[6]), items);
    assert fs == fs[..6] + [fs[6]];
    OtherNames();
    if GetBytes(Bare(trx, fee)).Ok? {
      LastArray(fs[..6], fs[6], trx[FEE := Num(fee)], items);
    }
    if GetBytes(WithFee(Mocked(trx, signatures, empty), fee)).Ok? {
      LastArrayBack(fs[..6], fs[6], trx[FEE := Num(fee)], items);
    }
  }

  lemma OtherNames()
    ensures forall g | g in BASE_TRANSACTION[..6] :: g.name != BASE_TRANSACTION[6].name
    ensures BASE_TRANSACTION[6].name == SIGNATURES && BASE_TRANSACTION[6].kind == ScalarArray(Bytes)
  {
  }

  lemma SignatureKey()
    ensures |Key(BASE_TRANSACTION[6])| == 1
  {
    KeyRange(BASE_TRANSACTION[6]);
    hide Key;
  }

  /** The stand-ins as they stand in the transaction. */
  lemma MockItems(trx: Props, signatures: nat, empty: nat, fee: nat) returns (items: seq<Value>)
    ensures WithFee(Mocked(trx, signatures, empty), fee) == trx[FEE := Num(fee)][SIGNATURES := Arr(items)]
    ensures |items| == signatures + empty
    ensures forall i | 0 <= i < |items| :: items[i].Bin? && |items[i].data| == if i < signatures then 64 else 0
  {
    items := Mocked(trx, signatures, empty)[SIGNATURES].items;
  }

  lemma MockItemsSize(items: seq<Value>, signatures: nat, empty: nat)
    requires |items| == signatures + empty
    requires forall i | 0 <= i < |items| :: items[i].Bin? && |items[i].data| == if i < signatures then 64 else 0
    ensures SlotsSize(items) == 66 * signatures + 2 * empty
    ensures forall v | v in items :: v.Bin? && |v.data| < 128
  {
    var full, rest := items[..signatures], items[signatures..];
    assert items == full + rest;
    SlotsOfConcat(full, rest);
    SlotsOfSame(full, 64);
    SlotsOfSame(rest, 0);
  }

  /** `fee` pays for every byte of the transaction that carries it and its signatures, of 64 bytes or none, and what is due beside. */
  ghost predicate Pays(trx: Props, signatures: nat, empty: nat, perByte: nat, additional: nat, fee: nat) {
    && GetBytes(Bare(trx, fee)).Ok?
    && fee >= (|GetBytes(Bare(trx, fee)).value| + 66 * signatures + 2 * empty) * perByte + additional
  }

  lemma PaysIff(trx: Props, signatures: nat, empty: nat, perByte: nat, additional: nat, fee: nat)
    requires Encodable(Mocked(trx, signatures, empty))
    ensures var tx := Mocked(trx, signatures, empty);
            && (Sufficient(tx, perByte, additional, fee) <==> Pays(trx, signatures, empty, perByte, additional, fee))
            && (fee <= MAX_UINT64 ==>
                  && GetBytes(Bare(trx, fee)).Ok?
                  && Required(tx, perByte, additional, fee)
                     == (|GetBytes(Bare(trx, fee)).value| + 66 * signatures + 2 * empty) * perByte + additional)
  {
    var tx := Mocked(trx, signatures, empty);
    hide EncodeFields, Mocked, Bare, WithFee, FixedSize, VarintBytes, Encodable;
    SizeOfFee(tx, fee);
    MockedSize(trx, signatures, empty, fee);
  }

  /** computeMinFee: the least fee that pays for the transaction with its expected signatures, or an error when no uint64 does. */
  method ComputeMinFee(trx: Props, signatures: nat, empty: nat, perByte: nat, additional: nat)
    returns (r: Result<nat>, ghost rounds: nat)
    ensures rounds <= 11
    ensures r.Ok? ==> Pays(trx, signatures, empty, perByte, additional, r.value)
    ensures r.Ok? ==> r.value == (|GetBytes(Bare(trx, r.value)).value| + 66 * signatures + 2 * empty) * perByte + additional
    ensures r.Ok? ==> forall x: nat | Pays(trx, signatures, empty, perByte, additional, x) :: r.value <= x
    ensures r.Err? <==> forall x: nat :: !Pays(trx, signatures, empty, perByte, additional, x)
  {
    var tx := Mocked(trx, signatures, empty);
    hide EncodeFields, Required, Mocked, Bare, Pays;
    if GetBytes(WithFee(tx, 0)).Err? {
      NonePays(trx, signatures, empty, perByte, additional);
      return Err(GetBytes(WithFee(tx, 0)).error), 1;
    }
    r, rounds := LeastFee(tx, perByte, additional);
    forall x: nat
      ensures Sufficient(tx, perByte, additional, x) <==> Pays(trx, signatures, empty, perByte, additional, x)
    {
      PaysIff(trx, signatures, empty, perByte, additional, x);
    }
    if r.Ok? {
      PaysIff(trx, signatures, empty, perByte, additional, r.value);
    }
  }

  /** If it does not encode with fee zero, it does not with any. */
  lemma NonePays(trx: Props, signatures: nat, empty: nat, perByte: nat, additional: nat)
    requires GetBytes(WithFee(Mocked(trx, signatures, empty), 0)).Err?
    ensures forall x: nat :: !Pays(trx, signatures, empty, perByte, additional, x)
  {
    forall x: nat
      ensures !Pays(trx, signatures, empty, perByte, additional, x)
    {
      if GetBytes(Bare(trx, x)).Ok? {
        MockedSize(trx, signatures, empty, x);
        FeeNeverHelps(Mocked(trx, signatures, empty), x);
        assert false;
      }
    }
  }

  lemma FeeNeverHelps(tx: Props, fee: nat)
    ensures GetBytes(WithFee(tx, fee)).Ok? ==> GetBytes(WithFee(tx, 0)).Ok?
  {
    FieldNames();
    if GetBytes(WithFee(tx, fee)).Ok? {
      if fee <= MAX_UINT64 {
        SizeOfNumber(BASE_TRANSACTION, tx, FEE, fee, 0);
      } else {
        FeeOutOfRange(BASE_TRANSACTION, tx, FEE, fee);
      }
    }
  }
}
