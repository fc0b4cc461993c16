/** Consequences of the exact codec theorems, and the inputs on which the unconditional claims fail. */
module CodecCases {
  import opened Wrappers
  import opened Varint
  import opened Schema
  import opened Codec
  import opened RoundTrip
  import opened RoundTripExact
  import opened Canonical
  import opened Decoding

  /* ---- Schemas on which every accepted input is canonical ---- */

  /** Scalars other than strings, and nested objects of them. */
  predicate PlainFields(fs: seq<Field>)
    decreases fs, 0
  {
    fs != [] ==> PlainField(fs[0]) && PlainFields(fs[1..])
  }

  predicate PlainField(f: Field)
    decreases f, 1
  {
    match f.kind
    case Scalar(dt) => !dt.Str?
    case Object(fs) => PlainFields(fs)
    case _ => false
  }

  lemma {:induction false} PlainIsStrict(text: TextCheck, fs: seq<Field>, buf: bytes, index: nat, terminate: nat)
    requires PlainFields(fs)
    ensures DecodeFields(text, true, fs, buf, index, terminate) == DecodeFields(text, false, fs, buf, index, terminate)
    decreases fs, 0
  {
    hide DecodeField;
    if fs != [] {
      PlainFieldIsStrict(text, fs[0], buf, index, terminate);
      var r := DecodeField(text, false, fs[0], buf, index, terminate);
      if r.Ok? {
        PlainIsStrict(text, fs[1..], buf, r.value.1, terminate);
      }
    }
  }

  lemma {:induction false} PlainFieldIsStrict(text: TextCheck, f: Field, buf: bytes, index: nat, terminate: nat)
    requires PlainField(f)
    ensures DecodeField(text, true, f, buf, index, terminate) == DecodeField(text, false, f, buf, index, terminate)
    decreases f, 1
  {
    hide ReadU32, ReadBytes, ReadVarint, ReadSigned, ExpectKey, DecodeFields;
    var k := ExpectKey(f, buf, index);
    if f.kind.Object? && k.Ok? && ReadU32(buf, index + k.value).Ok? {
      var (size, n) := ReadU32(buf, index + k.value).value;
      PlainIsStrict(text, f.kind.fields, buf, index + k.value + n, index + k.value + n + size);
    }
  }

  /** Schemas of non-string scalars and nested objects: every accepted byte string is the encoding of its value. */
  lemma PlainSchemaCanonical(text: TextCheck, fs: seq<Field>, buf: bytes)
    requires text([]) && WellFormed(fs) && PlainFields(fs) && Decode(text, fs, buf).Ok?
    ensures Encode(fs, Decode(text, fs, buf).value) == Ok(buf)
  {
    hide WellFormed, PlainFields, DecodeFields, EncodeFields;
    PlainIsStrict(text, fs, buf, 0, |buf|);
    StrictIsCanonical(text, fs, buf);
  }

  /* ---- A trailing array of byte strings, as in the transaction schema ---- */

  lemma {:induction false} DecodeAppend(text: TextCheck, strict: bool, a: seq<Field>, b: seq<Field>, buf: bytes, index: nat, terminate: nat)
    ensures var ra := DecodeFields(text, strict, a, buf, index, terminate);
            var r := DecodeFields(text, strict, a + b, buf, index, terminate);
            if ra.Err? then r == ra
            else
              var rb := DecodeFields(text, strict, b, buf, ra.value.1, terminate);
              r == if rb.Err? then rb else Ok((ra.value.0 + rb.value.0, rb.value.1))
    decreases a
  {
    hide DecodeField;
    if a == [] {
      assert a + b == b;
      var rb := DecodeFields(text, strict, b, buf, index, terminate);
      if rb.Ok? {
        assert map[] + rb.value.0 == rb.value.0;
      }
    } else {
      assert (a + b)[1..] == a[1..] + b;
      var h := DecodeField(text, strict, a[0], buf, index, terminate);
      if h.Ok? {
        DecodeAppend(text, strict, a[1..], b, buf, h.value.1, terminate);
        var ta := DecodeFields(text, strict, a[1..], buf, h.value.1, terminate);
        if ta.Ok? {
          var rb := DecodeFields(text, strict, b, buf, ta.value.1, terminate);
          if rb.Ok? {
            assert map[a[0].name := h.value.0] + (ta.value.0 + rb.value.0)
                == (map[a[0].name := h.value.0] + ta.value.0) + rb.value.0;
          }
        }
      }
    }
  }

  /** With one-byte keys, all elements carry the key of the first one. */
  lemma {:induction false} SmallKeysStrict(text: TextCheck, expected: nat, buf: bytes, index: nat, terminate: nat)
    requires expected < 128
    ensures DecodeRepeated(text, true, Bytes, expected, buf, index, terminate, expected)
         == DecodeRepeated(text, false, Bytes, expected, buf, index, terminate, expected)
    decreases |buf| - index
  {
    hide ReadU32, DecodeElement;
    if More(buf, index, terminate, expected) {
      ReadOneByte(buf, index);
      BytesElement(text, buf, index + 1);
      var r := DecodeElement(text, false, Bytes, buf, index + 1);
      if r.Ok? {
        SmallKeysStrict(text, expected, buf, index + 1 + r.value.1, terminate);
      }
    }
  }

  lemma BytesElement(text: TextCheck, buf: bytes, index: nat)
    ensures DecodeElement(text, true, Bytes, buf, index) == DecodeElement(text, false, Bytes, buf, index)
  {
    hide ReadU32, ReadBytes;
  }

  lemma OneByteKey(f: Field, buf: bytes, index: nat, key: nat, k: nat)
    requires f.number < 16 && f.kind == ScalarArray(Bytes)
    requires ReadU32(buf, index) == Ok((key, k)) && ReadKey(key).Ok? && ReadKey(key).value.0 == f.number
    ensures index < |buf| && buf[index] == key && key < 128
    ensures key == KeyValue(f) <==> buf[index] == 8 * f.number + 2
  {
    hide ReadU32;
    ReadU32Iff(buf, index, key, k);
    assert VarintBytes(key) == [key];
    assert buf[index] == buf[index..index + 1][0];
  }

  lemma SingleField(text: TextCheck, strict: bool, f: Field, buf: bytes, index: nat, terminate: nat)
    ensures var r := DecodeField(text, strict, f, buf, index, terminate);
            DecodeFields(text, strict, [f], buf, index, terminate)
            == if r.Ok? then Ok((map[f.name := r.value.0], r.value.1)) else Err(r.error)
  {
    hide DecodeField;
    assert [f][1..] == [];
    var r := DecodeField(text, strict, f, buf, index, terminate);
    if r.Ok? {
      assert DecodeFields(text, strict, [], buf, r.value.1, terminate) == Ok((map[], r.value.1));
      assert map[f.name := r.value.0] + map[] == map[f.name := r.value.0];
    }
  }

  lemma TrailingStrict(text: TextCheck, f: Field, buf: bytes, index: nat)
    requires f.kind == ScalarArray(Bytes) && f.number < 16
    requires DecodeField(text, false, f, buf, index, |buf|).Ok?
    requires DecodeField(text, false, f, buf, index, |buf|).value.1 == |buf|
    ensures var r := DecodeField(text, true, f, buf, index, |buf|);
            && (r.Ok? <==> index == |buf| || (index < |buf| && buf[index] == 8 * f.number + 2))
            && (r.Ok? ==> r.value.1 == |buf|)
  {
    hide ReadU32, ReadBytes, DecodeElement, VarintBytes;
    FieldMonotone(text, false, f, buf, index, |buf|);
    if index < |buf| {
      var (key, k) := ReadU32(buf, index).value;
      OneByteKey(f, buf, index, key, k);
      if key == KeyValue(f) {
        SmallKeysStrict(text, key, buf, index, |buf|);
      }
    }
  }

  /**
   An object whose last field is an array of byte strings numbered below 16: accepted input is canonical if and only if
   the fields before it pass the strict decoder and the array is absent or its first key carries wire type 2. The base
   transaction schema, with its signatures, is of this form.
   */
  lemma TrailingBytesCanonicalIff(text: TextCheck, head: seq<Field>, f: Field, buf: bytes)
    requires text([]) && WellFormed(head + [f]) && f.kind == ScalarArray(Bytes) && f.number < 16
    requires Decode(text, head + [f], buf).Ok?
    ensures DecodeFields(text, false, head, buf, 0, |buf|).Ok?
    ensures var i := DecodeFields(text, false, head, buf, 0, |buf|).value.1;
            Encode(head + [f], Decode(text, head + [f], buf).value) == Ok(buf)
            <==> && DecodeFields(text, true, head, buf, 0, |buf|).Ok?
                 && (i == |buf| || (i < |buf| && buf[i] == 8 * f.number + 2))
  {
    hide DecodeFields, EncodeFields, WellFormed;
    CanonicalIff(text, head + [f], buf);
    DecodeAppend(text, false, head, [f], buf, 0, |buf|);
    DecodeAppend(text, true, head, [f], buf, 0, |buf|);
    if DecodeFields(text, true, head, buf, 0, |buf|).Ok? {
      FieldsRefine(text, head, buf, 0, |buf|);
      var i := DecodeFields(text, true, head, buf, 0, |buf|).value.1;
      SingleField(text, false, f, buf, i, |buf|);
      SingleField(text, true, f, buf, i, |buf|);
      TrailingStrict(text, f, buf, i);
    }
  }

  /* ---- Arrays of byte strings anywhere among plain fields ---- */

  predicate MixedFields(fs: seq<Field>)
    decreases fs, 0
  {
    fs != [] ==> MixedField(fs[0]) && MixedFields(fs[1..])
  }

  predicate MixedField(f: Field)
    decreases f, 1
  {
    match f.kind
    case Scalar(dt) => !dt.Str?
    case Object(fs) => MixedFields(fs)
    case ScalarArray(dt) => dt == Bytes && f.number < 16
    case ObjectArray(_) => false
  }

  /** Wherever the code reads a non-empty array, on any level, its first byte is the key of the array with wire type 2. */
  predicate KeysRight(text: TextCheck, fs: seq<Field>, buf: bytes, index: nat, terminate: nat)
    decreases fs, 0
  {
    fs != [] ==>
      && KeyRight(text, fs[0], buf, index, terminate)
      && var r := DecodeField(text, false, fs[0], buf, index, terminate);
         r.Ok? ==> KeysRight(text, fs[1..], buf, r.value.1, terminate)
  }

  predicate KeyRight(text: TextCheck, f: Field, buf: bytes, index: nat, terminate: nat)
    decreases f, 1
  {
    match f.kind
    case Scalar(_) => true
    case Object(fs) =>
      var k := ExpectKey(f, buf, index);
      k.Ok? && ReadU32(buf, index + k.value).Ok? ==>
        var (size, n) := ReadU32(buf, index + k.value).value;
        KeysRight(text, fs, buf, index + k.value + n, index + k.value + n + size)
    case _ =>
      var r := DecodeField(text, false, f, buf, index, terminate);
      r.Ok? && r.value.0 != Arr([]) ==> index < |buf| && buf[index] == 8 * f.number + 2
  }

  lemma {:induction false} MixedStrictIff(text: TextCheck, fs: seq<Field>, buf: bytes, index: nat, terminate: nat)
    requires MixedFields(fs) && DecodeFields(text, false, fs, buf, index, terminate).Ok?
    ensures KeysRight(text, fs, buf, index, terminate) ==>
              DecodeFields(text, true, fs, buf, index, terminate) == DecodeFields(text, false, fs, buf, index, terminate)
    ensures !KeysRight(text, fs, buf, index, terminate) ==> DecodeFields(text, true, fs, buf, index, terminate).Err?
    decreases fs, 0
  {
    hide DecodeField, KeyRight, MixedField;
    if fs != [] {
      MixedFieldStrictIff(text, fs[0], buf, index, terminate);
      var r := DecodeField(text, false, fs[0], buf, index, terminate);
      MixedStrictIff(text, fs[1..], buf, r.value.1, terminate);
    }
  }

  lemma {:induction false} MixedFieldStrictIff(text: TextCheck, f: Field, buf: bytes, index: nat, terminate: nat)
    requires MixedField(f) && DecodeField(text, false, f, buf, index, terminate).Ok?
    ensures KeyRight(text, f, buf, index, terminate) ==>
              DecodeField(text, true, f, buf, index, terminate) == DecodeField(text, false, f, buf, index, terminate)
    ensures !KeyRight(text, f, buf, index, terminate) ==> DecodeField(text, true, f, buf, index, terminate).Err?
    decreases f, 1
  {
    hide ReadU32, ReadBytes, ReadVarint, ReadSigned, ExpectKey, DecodeFields, DecodeRepeated, KeysRight, MixedFields;
    if f.kind.Object? {
      var k := ExpectKey(f, buf, index).value;
      var (size, n) := ReadU32(buf, index + k).value;
      MixedStrictIff(text, f.kind.fields, buf, index + k + n, index + k + n + size);
    } else if f.kind.ScalarArray? {
      ByteArrayStrictIff(text, f, buf, index, terminate);
    }
  }

  lemma ByteArrayStrictIff(text: TextCheck, f: Field, buf: bytes, index: nat, terminate: nat)
    requires f.kind == ScalarArray(Bytes) && f.number < 16 && DecodeField(text, false, f, buf, index, terminate).Ok?
    ensures KeyRight(text, f, buf, index, terminate) ==>
              DecodeField(text, true, f, buf, index, terminate) == DecodeField(text, false, f, buf, index, terminate)
    ensures !KeyRight(text, f, buf, index, terminate) ==> DecodeField(text, true, f, buf, index, terminate).Err?
  {
    hide ReadU32, DecodeElement, VarintBytes;
    if index < terminate && index < |buf| {
      var (key, k) := ReadU32(buf, index).value;
      if ReadKey(key).value.0 == f.number {
        OneByteKey(f, buf, index, key, k);
        if key == KeyValue(f) {
          SmallKeysStrict(text, key, buf, index, terminate);
        }
      }
    }
  }

  /**
   A schema of non-string scalars, arrays of byte strings numbered below 16, and nested objects of these: accepted input is
   canonical if and only if every non-empty array in it starts with its key of wire type 2.
   */
  lemma ByteArraysCanonicalIff(text: TextCheck, fs: seq<Field>, buf: bytes)
    requires text([]) && WellFormed(fs) && MixedFields(fs) && Decode(text, fs, buf).Ok?
    ensures Encode(fs, Decode(text, fs, buf).value) == Ok(buf) <==> KeysRight(text, fs, buf, 0, |buf|)
  {
    hide DecodeFields, EncodeFields, WellFormed, MixedFields, KeysRight;
    CanonicalIff(text, fs, buf);
    MixedStrictIff(text, fs, buf, 0, |buf|);
  }

  /* ---- Concrete inputs ---- */

  function SingleSchema(number: nat, kind: Kind): seq<Field> {
    [Field("x", number, kind)]
  }

  lemma SingleWellFormed(number: nat, kind: Kind)
    requires 1 <= number <= MAX_FIELD_NUMBER && (kind.ObjectArray? || kind.Object? ==> kind.fields == [])
    ensures WellFormed(SingleSchema(number, kind)) && ClashFree(SingleSchema(number, kind))
    ensures Names(SingleSchema(number, kind)) == {"x"}
  {
    var fs := SingleSchema(number, kind);
    assert fs[1..] == [] && fs[0] in fs;
  }

  /** The string "\ufeff" does not survive. */
  lemma ByteOrderMarkIsLost(text: TextCheck)
    requires text(BOM)
    ensures var fs := SingleSchema(1, Scalar(Str));
            var obj := map["x" := Text(BOM)];
            && Conforms(text, fs, obj) && Encode(fs, obj).Ok? && Decode(text, fs, Encode(fs, obj).value) != Ok(obj)
  {
    var fs := SingleSchema(1, Scalar(Str));
    var obj := map["x" := Text(BOM)];
    SingleWellFormed(1, Scalar(Str));
    assert fs[1..] == [];
    assert Separated(fs, obj) by { ClashFreeSeparates(fs, obj); }
    RoundTripIff(text, fs, obj);
  }

  /** An empty object inside an array does not survive. */
  lemma EmptyItemIsLost(text: TextCheck)
    ensures var fs := SingleSchema(1, ObjectArray([]));
            var obj := map["x" := Arr([Obj(map[])])];
            && Conforms(text, fs, obj) && Encode(fs, obj).Ok? && Decode(text, fs, Encode(fs, obj).value) != Ok(obj)
  {
    var fs := SingleSchema(1, ObjectArray([]));
    var item: Value := Obj(map[]);
    var obj := map["x" := Arr([item])];
    SingleWellFormed(1, ObjectArray([]));
    assert fs[1..] == [] && [item][1..] == [];
    assert EncodeItems([], Key(fs[0]), []) == Ok([]);
    assert EncodeFields([], item.props) == Ok([]);
    assert item in [item] && Vacuous([], item.props);
    RoundTripIff(text, fs, obj);
  }

  lemma SingleEncode(f: Field, obj: Props)
    ensures EncodeFields([f], obj) == EncodeField(f, obj)
  {
    hide EncodeField;
    assert [f][1..] == [] && EncodeFields([], obj) == Ok([]);
    var r := EncodeField(f, obj);
    if r.Ok? {
      assert r.value + [] == r.value;
    }
  }

  lemma ReadOneByte(buf: bytes, i: nat)
    requires i < |buf| && buf[i] < 128
    ensures ReadU32(buf, i) == Ok((buf[i], 1))
  {
    ReadU32Iff(buf, i, buf[i], 1);
    assert buf[i..i + 1] == [buf[i]];
  }

  /** A byte-string array is also accepted under a key of wire type 0, so two inputs decode to the same message. */
  lemma WrongWireTypeIsAccepted(text: TextCheck)
    ensures var fs := SingleSchema(7, ScalarArray(Bytes));
            var obj := map["x" := Arr([Bin([0xaa])])];
            && Decode(text, fs, [0x38, 1, 0xaa]) == Ok(obj) && Encode(fs, obj) == Ok([0x3a, 1, 0xaa])
  {
    var fs := SingleSchema(7, ScalarArray(Bytes));
    var f := fs[0];
    var buf: bytes := [0x38, 1, 0xaa];
    ReadOneByte(buf, 0);
    ReadOneByte(buf, 1);
    assert Clip(buf, 2, 3) == [0xaa];
    assert DecodeElement(text, false, Bytes, buf, 1) == Ok((Bin([0xaa]), 2));
    var items: seq<Value> := [Bin([0xaa])];
    assert DecodeRepeated(text, false, Bytes, KeyValue(f), buf, 3, 3, 0x38) == Ok(([], 3));
    assert [items[0]] + [] == items;
    assert DecodeRepeated(text, false, Bytes, KeyValue(f), buf, 0, 3, 0x38) == Ok((items, 3));
    assert DecodeField(text, false, f, buf, 0, 3) == Ok((Arr(items), 3));
    SingleField(text, false, f, buf, 0, 3);
    assert Key(f) == [0x3a] && VarintBytes(1) == [1] && [1] + [0xaa] == [1, 0xaa];
    assert EncodeScalar(Bytes, items[0]) == Ok([1, 0xaa]);
    assert items[1..] == [] && EncodeRepeated(Bytes, Key(f), []) == Ok([]);
    assert [0x3a] + [1, 0xaa] + [] == [0x3a, 1, 0xaa];
    assert EncodeRepeated(Bytes, Key(f), items) == Ok([0x3a, 1, 0xaa]);
    SingleEncode(f, map["x" := Arr(items)]);
  }

  /** A packed array may run past the length it declares. */
  lemma PackedOverrunIsAccepted(text: TextCheck)
    ensures var fs := SingleSchema(1, ScalarArray(UInt32));
            var obj := map["x" := Arr([Num(128)])];
            && Decode(text, fs, [0x0a, 1, 0x80, 1]) == Ok(obj) && Encode(fs, obj) == Ok([0x0a, 2, 0x80, 1])
  {
    var fs := SingleSchema(1, ScalarArray(UInt32));
    var f := fs[0];
    var buf: bytes := [0x0a, 1, 0x80, 1];
    var items: seq<Value> := [Num(128)];
    ReadOneByte(buf, 0);
    ReadOneByte(buf, 1);
    assert VarintBytes(128) == [0x80, 1];
    assert buf[2..4] == [0x80, 1];
    ReadU32Iff(buf, 2, 128, 2);
    assert DecodeScalar(text, false, UInt32, buf, 2) == Ok((items[0], 2));
    assert DecodePacked(text, false, UInt32, buf, 4, 3) == Ok(([], 4));
    assert [items[0]] + [] == items;
    assert DecodePacked(text, false, UInt32, buf, 2, 3) == Ok((items, 4));
    assert DecodeField(text, false, f, buf, 0, 4) == Ok((Arr(items), 4));
    SingleField(text, false, f, buf, 0, 4);
    assert Key(f) == [0x0a] && items[1..] == [] && fs[1..] == [];
    var body: bytes := [0x80, 1];
    assert Contents(UInt32, []) == Ok([]);
    assert EncodeScalar(UInt32, items[0]) == Ok(body) && body + [] == body;
    assert Contents(UInt32, items) == Ok(body);
    assert VarintBytes(2) == [2] && [2] + body == [2, 0x80, 1];
    assert [0x0a] + [2, 0x80, 1] == [0x0a, 2, 0x80, 1];
    SingleEncode(f, map["x" := Arr(items)]);
  }

  const SIXTEEN: Field := Field("x", 16, ScalarArray(Bytes))
  const THIRTY_TWO: Field := Field("y", 32, Scalar(Bytes))

  lemma SixteenWellFormed(text: TextCheck, a: bytes, b: bytes)
    ensures var fs, obj := [SIXTEEN, THIRTY_TWO], map["x" := Arr([Bin(a)]), "y" := Bin(b)];
            WellFormed(fs) && Conforms(text, fs, obj) && LosslessFields(fs, obj)
  {
    var f, g := SIXTEEN, THIRTY_TWO;
    var fs := [f, g];
    var obj := map["x" := Arr([Bin(a)]), "y" := Bin(b)];
    assert fs[1..] == [g] && [g][1..] == [];
    assert WellFormedField(f) && WellFormedField(g) && WellFormed([g]) && WellFormed(fs);
    assert f in fs && g in fs && Names(fs) == {"x", "y"};
    assert ConformsField(text, f, obj["x"]) && ConformsField(text, g, obj["y"]) && ConformsFields(text, [g], obj);
    assert LosslessField(f, obj["x"]) && LosslessField(g, obj["y"]) && LosslessFields([g], obj);
  }

  lemma SixteenKeys()
    ensures Key(SIXTEEN)[0] == 0x82 == Key(THIRTY_TWO)[0]
  {
  }

  lemma SixteenEncodes(a: bytes, b: bytes)
    requires |a| <= MAX_UINT32 && |b| <= MAX_UINT32
    ensures EncodeFields([SIXTEEN, THIRTY_TWO], map["x" := Arr([Bin(a)]), "y" := Bin(b)]).Ok?
  {
    hide Key, VarintBytes;
    var f, g := SIXTEEN, THIRTY_TWO;
    var obj := map["x" := Arr([Bin(a)]), "y" := Bin(b)];
    assert [f, g][1..] == [g] && [g][1..] == [] && [Bin(a)][1..] == [];
    assert EncodeFields([], obj) == Ok([]) && EncodeField(g, obj).Ok?;
    assert EncodeRepeated(Bytes, Key(f), []) == Ok([]) && EncodeRepeated(Bytes, Key(f), [Bin(a)]).Ok?;
    assert EncodeField(f, obj).Ok?;
  }

  /** Fields 16 and 32 share the first byte of their keys, so an array numbered 16 swallows a byte string numbered 32. */
  lemma SixteenSwallowsThirtyTwo(text: TextCheck, a: bytes, b: bytes)
    requires |a| <= MAX_UINT32 && |b| <= MAX_UINT32
    ensures var fs, obj := [SIXTEEN, THIRTY_TWO], map["x" := Arr([Bin(a)]), "y" := Bin(b)];
            && WellFormed(fs) && Conforms(text, fs, obj) && Encode(fs, obj).Ok?
            && Decode(text, fs, Encode(fs, obj).value) != Ok(obj)
  {
    SixteenWellFormed(text, a, b);
    SixteenKeys();
    SixteenEncodes(a, b);
    hide WellFormed, Conforms, LosslessFields, EncodeFields, DecodeFields, Key;
    var fs, obj := [SIXTEEN, THIRTY_TWO], map["x" := Arr([Bin(a)]), "y" := Bin(b)];
    assert fs[1..] == [THIRTY_TWO];
    assert !Follows(SIXTEEN, [THIRTY_TWO], obj) && !Separated(fs, obj);
    RoundTripIff(text, fs, obj);
  }
}
