/** The base transaction schema and its encodings (elements/transactions/src/schema.ts and sign.ts). */
module Transactions {
  import opened Wrappers
  import opened Varint
  import opened Schema
  import opened Codec
  import opened RoundTrip
  import opened RoundTripExact
  import opened Canonical
  import opened CodecCases
  import opened Injective
  import opened WireFormat

  const FEE: string := "fee"
  const SIGNATURES: string := "signatures"

  const BASE_TRANSACTION: seq<Field> := [
    Field("module", 1, Scalar(Str)),
    Field("command", 2, Scalar(Str)),
    Field("nonce", 3, Scalar(UInt64)),
    Field(FEE, 4, Scalar(UInt64)),
    Field("senderPublicKey", 5, Scalar(Bytes)),
    Field("params", 6, Scalar(Bytes)),
    Field(SIGNATURES, 7, ScalarArray(Bytes))
  ]

  /** getBytes: `params` already holds the encoded parameters. */
  function GetBytes(tx: Props): Result<bytes> {
    Encode(BASE_TRANSACTION, tx)
  }

  function WithSignatures(tx: Props, signatures: seq<bytes>): Props {
    tx[SIGNATURES := Arr(seq(|signatures|, i requires 0 <= i < |signatures| => Bin(signatures[i])))]
  }

  /** getSigningBytes: the transaction with an empty list of signatures. */
  function SigningBytes(tx: Props): Result<bytes> {
    GetBytes(tx[SIGNATURES := Arr([])])
  }

  /** What is signed does not depend on the signatures already there. */
  lemma SigningBytesIgnoreSignatures(tx: Props, signatures: seq<bytes>)
    ensures SigningBytes(WithSignatures(tx, signatures)) == SigningBytes(tx)
  {
    assert WithSignatures(tx, signatures)[SIGNATURES := Arr([])] == tx[SIGNATURES := Arr([])];
  }

  lemma FieldNames()
    ensures forall i, j | 0 <= i < j < |BASE_TRANSACTION| :: BASE_TRANSACTION[i].name != BASE_TRANSACTION[j].name
    ensures exists f :: f in BASE_TRANSACTION && f.name == FEE && f.kind == Scalar(UInt64)
    ensures forall f | f in BASE_TRANSACTION && f.name == FEE :: f.kind == Scalar(UInt64)
  {
    var f := Field(FEE, 4, Scalar(UInt64));
    assert BASE_TRANSACTION[3] == f && f in BASE_TRANSACTION;
  }

  lemma FieldNumbers()
    ensures forall i | 0 <= i < |BASE_TRANSACTION| ::
              && BASE_TRANSACTION[i].number == i + 1 && !BASE_TRANSACTION[i].kind.Object? && !BASE_TRANSACTION[i].kind.ObjectArray?
    ensures |BASE_TRANSACTION| == 7
  {
  }

  /** The schema meets the hypotheses of the codec theorems. */
  lemma BaseTransactionWellFormed()
    ensures WellFormed(BASE_TRANSACTION) && ClashFree(BASE_TRANSACTION)
  {
    FieldNames();
    FieldNumbers();
    var fs := BASE_TRANSACTION;
    hide WellFormed;
    AscendingIsWellFormed(fs);
    AllSmall(fs);
    SmallRepeatedIsClashFree(fs);
  }

  /* ---- What is on the wire, and what is signed ---- */

  function SignatureUnits(signatures: seq<Value>): seq<Unit> {
    if signatures == [] then []
    else [Block(7, if signatures[0].Bin? then signatures[0].data else [])] + SignatureUnits(signatures[1..])
  }

  ghost predicate IsTransaction(text: TextCheck, tx: Props) {
    Conforms(text, BASE_TRANSACTION, tx)
  }

  lemma FieldNamed(text: TextCheck, tx: Props)
    requires IsTransaction(text, tx)
    ensures {"module", "command", "nonce", FEE, "senderPublicKey", "params", SIGNATURES} <= tx.Keys
    ensures tx["module"].Text? && tx["command"].Text? && tx["nonce"].Num? && tx[FEE].Num?
    ensures tx["nonce"].n >= 0 && tx[FEE].n >= 0
    ensures tx["senderPublicKey"].Bin? && tx["params"].Bin? && tx[SIGNATURES].Arr?
    ensures forall v | v in tx[SIGNATURES].items :: v.Bin?
  {
    hide ConformsField;
    var fs := BASE_TRANSACTION;
    ConformsEach(text, fs, tx);
    hide ConformsFields;
    FieldKinds(text, tx);
  }

  lemma FieldKinds(text: TextCheck, tx: Props)
    requires forall f | f in BASE_TRANSACTION :: f.name in tx && ConformsField(text, f, tx[f.name])
    ensures {"module", "command", "nonce", FEE, "senderPublicKey", "params", SIGNATURES} <= tx.Keys
    ensures tx["module"].Text? && tx["command"].Text? && tx["nonce"].Num? && tx[FEE].Num?
    ensures tx["nonce"].n >= 0 && tx[FEE].n >= 0
    ensures tx["senderPublicKey"].Bin? && tx["params"].Bin? && tx[SIGNATURES].Arr?
    ensures forall v | v in tx[SIGNATURES].items :: v.Bin?
  {
    hide ConformsField;
    var fs := BASE_TRANSACTION;
    EachIn(fs);
    KindMeans(text, fs[0], tx["module"]);
    KindMeans(text, fs[1], tx["command"]);
    KindMeans(text, fs[2], tx["nonce"]);
    KindMeans(text, fs[3], tx[FEE]);
    KindMeans(text, fs[4], tx["senderPublicKey"]);
    KindMeans(text, fs[5], tx["params"]);
    KindMeans(text, fs[6], tx[SIGNATURES]);
  }

  lemma EachIn(fs: seq<Field>)
    requires |fs| == 7
    ensures fs[0] in fs && fs[1] in fs && fs[2] in fs && fs[3] in fs && fs[4] in fs && fs[5] in fs && fs[6] in fs
  {
  }

  lemma KindMeans(text: TextCheck, f: Field, v: Value)
    requires ConformsField(text, f, v)
    ensures f.kind == Scalar(Str) ==> v.Text?
    ensures f.kind == Scalar(UInt64) ==> v.Num? && v.n >= 0
    ensures f.kind == Scalar(Bytes) ==> v.Bin?
    ensures f.kind == ScalarArray(Bytes) ==> v.Arr? && forall x | x in v.items :: x.Bin?
  {
  }

  lemma {:induction false} SignaturesAreUnits(signatures: seq<Value>)
    requires forall v | v in signatures :: v.Bin?
    ensures ArrayUnits(7, Bytes, signatures) == SignatureUnits(signatures)
  {
    if signatures != [] {
      assert signatures[0] in signatures;
      SignaturesAreUnits(signatures[1..]);
    }
  }

  /**
   The bytes of a transaction, read without the schema, are module, command, nonce, fee, public key and parameters under the
   numbers 1 to 6, and the signatures under 7.
   */
  lemma TransactionLayout(text: TextCheck, tx: Props)
    requires IsTransaction(text, tx) && GetBytes(tx).Ok?
    ensures {"module", "command", "nonce", FEE, "senderPublicKey", "params", SIGNATURES} <= tx.Keys
    ensures tx["module"].Text? && tx["command"].Text? && tx["nonce"].Num? && tx[FEE].Num?
    ensures tx["nonce"].n >= 0 && tx[FEE].n >= 0
    ensures tx["senderPublicKey"].Bin? && tx["params"].Bin? && tx[SIGNATURES].Arr?
    ensures Split(GetBytes(tx).value) == Ok(HeadUnits(tx) + SignatureUnits(tx[SIGNATURES].items))
    ensures HeadUnits(tx) == [Block(1, tx["module"].data), Block(2, tx["command"].data), Number(3, tx["nonce"].n),
                              Number(4, tx[FEE].n), Block(5, tx["senderPublicKey"].data), Block(6, tx["params"].data)]
  {
    hide EncodeFields, Split, WellFormed, Conforms, UnitsOf, FieldUnits;
    FieldNamed(text, tx);
    BaseTransactionWellFormed();
    SplitEncoding(BASE_TRANSACTION, tx);
    SignaturesAreUnits(tx[SIGNATURES].items);
    EachFieldUnits(tx);
    var fs := BASE_TRANSACTION;
    assert fs[..6] + [fs[6]] == fs;
    UnitsConcat(fs[..6], [fs[6]], tx);
    UnitsLast(fs[6], tx);
    SixUnits(fs[..6], tx);
    hide SignatureUnits, ArrayUnits;
  }

  /** The units in front of the signatures. */
  function HeadUnits(tx: Props): seq<Unit> {
    UnitsOf(BASE_TRANSACTION[..6], tx)
  }

  lemma EachFieldUnits(tx: Props)
    requires {"module", "command", "nonce", FEE, "senderPublicKey", "params", SIGNATURES} <= tx.Keys
    requires tx["module"].Text? && tx["command"].Text? && tx["nonce"].Num? && tx[FEE].Num?
    requires tx["nonce"].n >= 0 && tx[FEE].n >= 0
    requires tx["senderPublicKey"].Bin? && tx["params"].Bin? && tx[SIGNATURES].Arr?
    ensures FieldUnits(BASE_TRANSACTION[0], tx) == [Block(1, tx["module"].data)]
    ensures FieldUnits(BASE_TRANSACTION[1], tx) == [Block(2, tx["command"].data)]
    ensures FieldUnits(BASE_TRANSACTION[2], tx) == [Number(3, tx["nonce"].n)]
    ensures FieldUnits(BASE_TRANSACTION[3], tx) == [Number(4, tx[FEE].n)]
    ensures FieldUnits(BASE_TRANSACTION[4], tx) == [Block(5, tx["senderPublicKey"].data)]
    ensures FieldUnits(BASE_TRANSACTION[5], tx) == [Block(6, tx["params"].data)]
    ensures FieldUnits(BASE_TRANSACTION[6], tx) == ArrayUnits(7, Bytes, tx[SIGNATURES].items)
  {
    hide ArrayUnits;
  }

  lemma {:induction false} UnitsConcat(a: seq<Field>, b: seq<Field>, obj: Props)
    ensures UnitsOf(a + b, obj) == UnitsOf(a, obj) + UnitsOf(b, obj)
  {
    hide FieldUnits;
    if a == [] {
      assert a + b == b;
    } else {
      assert (a + b)[1..] == a[1..] + b;
      UnitsConcat(a[1..], b, obj);
    }
  }

  lemma SixUnits(fs: seq<Field>, obj: Props)
    requires |fs| == 6
    ensures UnitsOf(fs, obj) == FieldUnits(fs[0], obj) + FieldUnits(fs[1], obj) + FieldUnits(fs[2], obj)
                              + FieldUnits(fs[3], obj) + FieldUnits(fs[4], obj) + FieldUnits(fs[5], obj)
  {
    hide UnitsOf, FieldUnits;
    var a, b, c, d, e, f := [fs[0]], [fs[1]], [fs[2]], [fs[3]], [fs[4]], [fs[5]];
    assert fs == a + (b + (c + (d + (e + f))));
    UnitsConcat(a, b + (c + (d + (e + f))), obj);
    UnitsConcat(b, c + (d + (e + f)), obj);
    UnitsConcat(c, d + (e + f), obj);
    UnitsConcat(d, e + f, obj);
    UnitsConcat(e, f, obj);
    UnitsLast(fs[0], obj);
    UnitsLast(fs[1], obj);
    UnitsLast(fs[2], obj);
    UnitsLast(fs[3], obj);
    UnitsLast(fs[4], obj);
    UnitsLast(fs[5], obj);
  }

  lemma UnitsLast(f: Field, obj: Props)
    ensures UnitsOf([f], obj) == FieldUnits(f, obj)
  {
    hide FieldUnits;
    assert [f][1..] == [] && UnitsOf([], obj) == [];
  }

  /** The transaction without its signatures. */
  function Unsigned(tx: Props): Props {
    tx[SIGNATURES := Arr([])]
  }

  lemma UnsignedConforms(text: TextCheck, tx: Props)
    requires IsTransaction(text, tx)
    ensures IsTransaction(text, Unsigned(tx))
  {
    SignaturesField();
    hide ConformsFields, Names;
    SignaturesAlone(text, BASE_TRANSACTION, tx);
  }

  lemma SignaturesField()
    ensures SIGNATURES in Names(BASE_TRANSACTION)
    ensures forall f | f in BASE_TRANSACTION && f.name == SIGNATURES :: f.kind == ScalarArray(Bytes)
  {
    assert BASE_TRANSACTION[6] in BASE_TRANSACTION;
  }

  lemma {:induction false} SignaturesAlone(text: TextCheck, fs: seq<Field>, tx: Props)
    requires ConformsFields(text, fs, tx) && forall f | f in fs && f.name == SIGNATURES :: f.kind == ScalarArray(Bytes)
    ensures ConformsFields(text, fs, Unsigned(tx))
    decreases fs
  {
    if fs != [] {
      assert fs[0] in fs && forall f | f in fs[1..] :: f in fs;
      SignaturesAlone(text, fs[1..], tx);
    }
  }

  /** What is signed is everything but the signatures: transactions with the same signing bytes differ in nothing else. */
  lemma SigningBytesCover(text: TextCheck, a: Props, b: Props)
    requires IsTransaction(text, a) && IsTransaction(text, b)
    requires SigningBytes(a).Ok? && SigningBytes(a) == SigningBytes(b)
    ensures a[SIGNATURES := Arr([])] == b[SIGNATURES := Arr([])]
  {
    hide EncodeFields, WellFormed, Conforms;
    BaseTransactionWellFormed();
    UnsignedConforms(text, a);
    UnsignedConforms(text, b);
    EncodeInjective(text, BASE_TRANSACTION, Unsigned(a), Unsigned(b));
  }

  /** Read without the schema, the signing bytes are the six first units of the transaction. */
  lemma SigningLayout(text: TextCheck, tx: Props)
    requires IsTransaction(text, tx) && GetBytes(tx).Ok? && SigningBytes(tx).Ok? && Split(GetBytes(tx).value).Ok?
    ensures |Split(GetBytes(tx).value).value| >= 6
    ensures Split(SigningBytes(tx).value) == Ok(Split(GetBytes(tx).value).value[..6])
  {
    hide EncodeFields, Split, Conforms;
    UnsignedConforms(text, tx);
    TransactionLayout(text, tx);
    TransactionLayout(text, Unsigned(tx));
    assert SignatureUnits([]) == [];
    hide SignatureUnits, UnitsOf;
    var head := HeadUnits(tx);
    assert HeadUnits(Unsigned(tx)) == head;
    assert (head + SignatureUnits(tx[SIGNATURES].items))[..6] == head && head + [] == head;
  }

  lemma {:induction false} AllSmall(fs: seq<Field>)
    requires forall i | 0 <= i < |fs| :: SmallRepeatedField(fs[i])
    ensures SmallRepeated(fs)
  {
    if fs != [] {
      AllSmall(fs[1..]);
    }
  }

  lemma {:induction false} LosslessEach(fs: seq<Field>, obj: Props)
    ensures LosslessFields(fs, obj) <==> forall f | f in fs :: f.name in obj ==> LosslessField(f, obj[f.name])
  {
    hide LosslessField;
    if fs != [] {
      LosslessEach(fs[1..], obj);
      assert fs == [fs[0]] + fs[1..];
    }
  }

  lemma {:induction false} ConformsEach(text: TextCheck, fs: seq<Field>, obj: Props)
    requires ConformsFields(text, fs, obj)
    ensures forall f | f in fs :: f.name in obj && ConformsField(text, f, obj[f.name])
  {
    hide ConformsField;
    if fs != [] {
      ConformsEach(text, fs[1..], obj);
      assert fs == [fs[0]] + fs[1..];
    }
  }

  ghost predicate OnlyStrings(fs: seq<Field>, m: Field, c: Field) {
    && m in fs && c in fs && m.kind == c.kind == Scalar(Str)
    && forall f | f in fs && f != m && f != c :: f.kind in {Scalar(UInt64), Scalar(Bytes), ScalarArray(Bytes)}
  }

  /** Where only two fields are strings, only they can lose something. */
  lemma TwoStringsLossless(text: TextCheck, fs: seq<Field>, m: Field, c: Field, tx: Props)
    requires OnlyStrings(fs, m, c) && ConformsFields(text, fs, tx)
    ensures m.name in tx && tx[m.name].Text? && c.name in tx && tx[c.name].Text?
    ensures LosslessFields(fs, tx) <==> !HasBom(tx[m.name].data) && !HasBom(tx[c.name].data)
  {
    ConformsEach(text, fs, tx);
    LosslessEach(fs, tx);
    hide LosslessFields, ConformsFields;
    forall f | f in fs && f != m && f != c
      ensures f.name in tx ==> LosslessField(f, tx[f.name])
    {
      OtherLossless(f, tx);
    }
  }

  /** Only module and command are strings. */
  lemma LosslessTransaction(text: TextCheck, tx: Props)
    requires Conforms(text, BASE_TRANSACTION, tx)
    ensures "module" in tx && tx["module"].Text? && "command" in tx && tx["command"].Text?
    ensures LosslessFields(BASE_TRANSACTION, tx) <==> !HasBom(tx["module"].data) && !HasBom(tx["command"].data)
  {
    hide LosslessFields, ConformsFields, HasBom;
    var m, c := Field("module", 1, Scalar(Str)), Field("command", 2, Scalar(Str));
    StringFields(m, c);
    TwoStringsLossless(text, BASE_TRANSACTION, m, c, tx);
  }

  lemma StringFields(m: Field, c: Field)
    requires m == Field("module", 1, Scalar(Str)) && c == Field("command", 2, Scalar(Str))
    ensures OnlyStrings(BASE_TRANSACTION, m, c)
  {
    assert BASE_TRANSACTION[0] == m && BASE_TRANSACTION[1] == c;
  }

  lemma OtherLossless(f: Field, tx: Props)
    requires f.kind in {Scalar(UInt64), Scalar(Bytes), ScalarArray(Bytes)}
    ensures f.name in tx ==> LosslessField(f, tx[f.name])
  {
  }

  /** A transaction comes back from its bytes if and only if module and command start with no byte order mark. */
  lemma TransactionRoundTrip(text: TextCheck, tx: Props)
    requires Conforms(text, BASE_TRANSACTION, tx) && GetBytes(tx).Ok?
    ensures "module" in tx && tx["module"].Text? && "command" in tx && tx["command"].Text?
    ensures Decode(text, BASE_TRANSACTION, GetBytes(tx).value) == Ok(tx)
       <==> !HasBom(tx["module"].data) && !HasBom(tx["command"].data)
  {
    hide Encode, Decode, Conforms, LosslessFields, Separated;
    BaseTransactionWellFormed();
    ClashFreeSeparates(BASE_TRANSACTION, tx);
    LosslessTransaction(text, tx);
    RoundTripIff(text, BASE_TRANSACTION, tx);
  }

  /** What stands on the wire for a string, before a leading mark is dropped; nothing if it cannot be read. */
  function RawText(buf: bytes, offset: nat): bytes {
    if ReadBytes(buf, offset).Ok? then ReadBytes(buf, offset).value.0 else []
  }

  function RawSize(buf: bytes, offset: nat): nat {
    if ReadBytes(buf, offset).Ok? then ReadBytes(buf, offset).value.1 else 0
  }

  /** The module behind its one-byte key, and the command behind the module and its own key. */
  const MODULE_AT: nat := 1

  function CommandAt(buf: bytes): nat {
    MODULE_AT + RawSize(buf, MODULE_AT) + 1
  }

  /** A string the code accepts is also accepted strictly, with the same result, if and only if it has no mark. */
  lemma StringStrictIff(text: TextCheck, f: Field, buf: bytes, index: nat, terminate: nat)
    requires f.kind == Scalar(Str) && f.number < 16 && DecodeField(text, false, f, buf, index, terminate).Ok?
    ensures DecodeField(text, true, f, buf, index, terminate).Ok? <==> !HasBom(RawText(buf, index + 1))
    ensures DecodeField(text, true, f, buf, index, terminate).Ok? ==>
              DecodeField(text, true, f, buf, index, terminate) == DecodeField(text, false, f, buf, index, terminate)
    ensures DecodeField(text, false, f, buf, index, terminate).value.1 == index + 1 + RawSize(buf, index + 1)
  {
    hide ReadU32, ReadBytes, ExpectKey;
    ExpectKeySound(f, buf, index);
    KeyRange(f);
  }

  /** Two strings in front of fields that are always read strictly. */
  lemma TwoStringsStrictIff(text: TextCheck, m: Field, c: Field, rest: seq<Field>, buf: bytes)
    requires m.kind == c.kind == Scalar(Str) && m.number < 16 && c.number < 16 && PlainFields(rest)
    requires DecodeFields(text, false, [m] + ([c] + rest), buf, 0, |buf|).Ok?
    ensures DecodeFields(text, true, [m] + ([c] + rest), buf, 0, |buf|).Ok?
       <==> !HasBom(RawText(buf, MODULE_AT)) && !HasBom(RawText(buf, CommandAt(buf)))
  {
    hide DecodeField, DecodeFields, ReadBytes, RawText, RawSize;
    FirstField(text, false, m, [c] + rest, buf, 0, |buf|);
    FirstField(text, true, m, [c] + rest, buf, 0, |buf|);
    StringStrictIff(text, m, buf, 0, |buf|);
    var next := DecodeField(text, false, m, buf, 0, |buf|).value.1;
    FirstField(text, false, c, rest, buf, next, |buf|);
    FirstField(text, true, c, rest, buf, next, |buf|);
    StringStrictIff(text, c, buf, next, |buf|);
    PlainIsStrict(text, rest, buf, DecodeField(text, false, c, buf, next, |buf|).value.1, |buf|);
  }

  lemma FirstField(text: TextCheck, strict: bool, f: Field, rest: seq<Field>, buf: bytes, index: nat, terminate: nat)
    ensures var r := DecodeField(text, strict, f, buf, index, terminate);
            DecodeFields(text, strict, [f] + rest, buf, index, terminate).Ok?
            <==> r.Ok? && DecodeFields(text, strict, rest, buf, r.value.1, terminate).Ok?
  {
    hide DecodeField;
    assert ([f] + rest)[1..] == rest;
  }

  lemma HeadStrictIff(text: TextCheck, buf: bytes)
    requires DecodeFields(text, false, BASE_TRANSACTION[..6], buf, 0, |buf|).Ok?
    ensures DecodeFields(text, true, BASE_TRANSACTION[..6], buf, 0, |buf|).Ok?
       <==> !HasBom(RawText(buf, MODULE_AT)) && !HasBom(RawText(buf, CommandAt(buf)))
  {
    var head := BASE_TRANSACTION[..6];
    var m, c, rest := head[0], head[1], head[2..];
    PlainRest(rest);
    assert head == [m] + ([c] + rest) && m.kind == c.kind == Scalar(Str) && m.number < 16 && c.number < 16;
    hide DecodeFields, RawText, CommandAt, PlainFields;
    TwoStringsStrictIff(text, m, c, rest, buf);
  }

  lemma PlainRest(rest: seq<Field>)
    requires rest == BASE_TRANSACTION[..6][2..]
    ensures PlainFields(rest)
  {
    assert PlainFields([]);
    assert rest[1..][1..][1..][1..] == [];
    assert PlainFields(rest[1..][1..][1..]);
    assert PlainFields(rest[1..][1..]);
    assert PlainFields(rest[1..]);
  }

  /**
   Transaction bytes the decoder accepts are the bytes of the decoded transaction if and only if module and command
   stand there without a byte order mark and there is no signature or the first signature's key is 0x3a. With 0x38 they
   are a second encoding of the same transaction.
   */
  lemma TransactionCanonicalIff(text: TextCheck, buf: bytes)
    requires text([]) && Decode(text, BASE_TRANSACTION, buf).Ok?
    ensures DecodeFields(text, false, BASE_TRANSACTION[..6], buf, 0, |buf|).Ok?
    ensures var i := DecodeFields(text, false, BASE_TRANSACTION[..6], buf, 0, |buf|).value.1;
            GetBytes(Decode(text, BASE_TRANSACTION, buf).value) == Ok(buf)
            <==> && !HasBom(RawText(buf, MODULE_AT)) && !HasBom(RawText(buf, CommandAt(buf)))
                 && (i == |buf| || (i < |buf| && buf[i] == 0x3a))
  {
    var head, f := BASE_TRANSACTION[..6], BASE_TRANSACTION[6];
    FieldNumbers();
    assert BASE_TRANSACTION == head + [f];
    hide DecodeFields, EncodeFields, DecodeObject, RawText;
    BaseTransactionWellFormed();
    TrailingBytesCanonicalIff(text, head, f, buf);
    HeadStrictIff(text, buf);
  }

  /* ---- The size of a transaction as a function of its fee ---- */

  /** Changing one uint64 property changes the encoding by the length of that number's varint, and nothing else. */
  lemma {:induction false} SizeOfNumber(fs: seq<Field>, obj: Props, name: string, a: nat, b: nat)
    requires a <= MAX_UINT64 && b <= MAX_UINT64
    requires forall i, j | 0 <= i < j < |fs| :: fs[i].name != fs[j].name
    requires forall f | f in fs && f.name == name :: f.kind == Scalar(UInt64)
    requires EncodeFields(fs, obj[name := Num(a)]).Ok?
    ensures EncodeFields(fs, obj[name := Num(b)]).Ok?
    ensures var ea, eb := EncodeFields(fs, obj[name := Num(a)]).value, EncodeFields(fs, obj[name := Num(b)]).value;
            |eb| == |ea| + if exists f :: f in fs && f.name == name then |VarintBytes(b)| - |VarintBytes(a)| else 0
    decreases fs
  {
    if fs != [] {
      var f, rest := fs[0], fs[1..];
      assert fs == [f] + rest;
      SizeOfNumber(rest, obj, name, a, b);
      hide VarintBytes;
      if f.name == name {
        assert forall g | g in rest :: g.name != name;
        assert EncodeField(f, obj[name := Num(b)]) == Ok(Key(f) + VarintBytes(b));
        assert EncodeField(f, obj[name := Num(a)]) == Ok(Key(f) + VarintBytes(a));
      } else {
        OtherField(f, obj, name, a, b);
        hide EncodeField;
      }
    }
  }

  lemma OtherField(f: Field, obj: Props, name: string, a: nat, b: nat)
    requires f.name != name
    ensures EncodeField(f, obj[name := Num(a)]) == EncodeField(f, obj[name := Num(b)])
  {
  }

  /** A fee beyond uint64 is refused. */
  lemma {:induction false} FeeOutOfRange(fs: seq<Field>, obj: Props, name: string, b: nat)
    requires b > MAX_UINT64 && exists f :: f in fs && f.name == name && f.kind == Scalar(UInt64)
    ensures EncodeFields(fs, obj[name := Num(b)]).Err?
    decreases fs
  {
    var f, rest := fs[0], fs[1..];
    assert fs == [f] + rest;
    if !(f.name == name && f.kind == Scalar(UInt64)) {
      FeeOutOfRange(rest, obj, name, b);
    }
  }
}
