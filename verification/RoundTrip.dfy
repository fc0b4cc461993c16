/** Decoding undoes encoding, on exactly the messages that lose nothing. */
module RoundTrip {
  import opened Wrappers
  import opened Varint
  import opened Schema
  import opened Codec

  /* ---- What an encoding can lose ---- */

  /** Every property of the object is an empty array, so that it encodes to no bytes at all. */
  predicate Vacuous(fs: seq<Field>, obj: Props) {
    forall f | f in fs :: IsArray(f.kind) && f.name in obj && obj[f.name].Arr? && obj[f.name].items == []
  }

  predicate LosslessScalar(dt: DataType, v: Value) {
    dt.Str? && v.Text? ==> !HasBom(v.data)
  }

  /** No string starts with a byte order mark, and no array holds a vacuous object. */
  predicate LosslessFields(fs: seq<Field>, obj: Props)
    decreases fs, 0
  {
    fs != [] ==>
      && (fs[0].name in obj ==> LosslessField(fs[0], obj[fs[0].name]))
      && LosslessFields(fs[1..], obj)
  }

  predicate LosslessField(f: Field, v: Value)
    decreases f, 1
  {
    match f.kind
    case Scalar(dt) => LosslessScalar(dt, v)
    case Object(fs) => v.Obj? ==> LosslessFields(fs, v.props)
    case ScalarArray(dt) => v.Arr? ==> forall x | x in v.items :: LosslessScalar(dt, x)
    case ObjectArray(fs) => v.Arr? ==> forall x | x in v.items :: LosslessItem(fs, x)
  }

  predicate LosslessItem(fs: seq<Field>, x: Value)
    decreases fs, 1
  {
    x.Obj? ==> !Vacuous(fs, x.props) && LosslessFields(fs, x.props)
  }

  /** An empty array, which leaves no trace in the encoding. */
  predicate Silent(f: Field, obj: Props) {
    IsArray(f.kind) && f.name in obj && obj[f.name].Arr? && obj[f.name].items == []
  }

  /** The first field behind `f` that leaves a trace, if there is any, has a key that starts differently. */
  predicate Follows(f: Field, rest: seq<Field>, obj: Props) {
    rest != [] ==> if Silent(rest[0], obj) then Follows(f, rest[1..], obj) else Key(f)[0] != Key(rest[0])[0]
  }

  /** Behind every array with one key per element stands a field whose key starts differently, on every level. */
  predicate Separated(fs: seq<Field>, obj: Props)
    decreases fs, 0
  {
    fs != [] ==>
      && (fs[0].name in obj ==> SeparatedField(fs[0], obj[fs[0].name]))
      && (IsRepeated(fs[0].kind) && !Silent(fs[0], obj) ==> Follows(fs[0], fs[1..], obj))
      && Separated(fs[1..], obj)
  }

  predicate SeparatedField(f: Field, v: Value)
    decreases f, 1
  {
    match f.kind
    case Object(fs) => v.Obj? ==> Separated(fs, v.props)
    case ObjectArray(fs) => v.Arr? ==> forall x | x in v.items :: SeparatedItem(fs, x)
    case _ => true
  }

  predicate SeparatedItem(fs: seq<Field>, x: Value)
    decreases fs, 1
  {
    x.Obj? ==> Separated(fs, x.props)
  }

  predicate SeparatedItems(fs: seq<Field>, items: seq<Value>) {
    forall x | x in items :: SeparatedItem(fs, x)
  }

  lemma {:induction false} ClearFollows(f: Field, rest: seq<Field>, obj: Props)
    requires Clear(f, rest)
    ensures Follows(f, rest, obj)
  {
    if rest != [] && Silent(rest[0], obj) {
      ClearFollows(f, rest[1..], obj);
    }
  }

  /** In a clash-free schema every message is separated. */
  lemma {:induction false} ClashFreeSeparates(fs: seq<Field>, obj: Props)
    requires ClashFree(fs)
    ensures Separated(fs, obj)
    decreases fs, 0
  {
    hide Clear, Follows;
    if fs != [] {
      if IsRepeated(fs[0].kind) {
        ClearFollows(fs[0], fs[1..], obj);
      }
      if fs[0].name in obj {
        ClashFreeSeparatesField(fs[0], obj[fs[0].name]);
      }
      ClashFreeSeparates(fs[1..], obj);
    }
  }

  lemma {:induction false} ClashFreeSeparatesField(f: Field, v: Value)
    requires ClashFreeField(f)
    ensures SeparatedField(f, v)
    decreases f, 1
  {
    if f.kind.Object? && v.Obj? {
      ClashFreeSeparates(f.kind.fields, v.props);
    } else if f.kind.ObjectArray? && v.Arr? {
      forall x | x in v.items
        ensures SeparatedItem(f.kind.fields, x)
      {
        if x.Obj? {
          ClashFreeSeparates(f.kind.fields, x.props);
        }
      }
    }
  }

  lemma {:induction false} VacuousIffEmpty(fs: seq<Field>, obj: Props)
    requires EncodeFields(fs, obj).Ok?
    requires forall f | f in fs :: f.name in obj
    ensures Vacuous(fs, obj) <==> EncodeFields(fs, obj).value == []
  {
    if fs != [] {
      var f := fs[0];
      assert fs == [f] + fs[1..];
      VacuousIffEmpty(fs[1..], obj);
      FieldStartsWithKey(f, obj);
      assert EncodeFields(fs, obj).value == EncodeField(f, obj).value + EncodeFields(fs[1..], obj).value;
    }
  }

  lemma ConformsNames(text: TextCheck, fs: seq<Field>, obj: Props)
    requires ConformsFields(text, fs, obj)
    ensures forall f | f in fs :: f.name in obj
  {
    if fs != [] {
      ConformsNames(text, fs[1..], obj);
      assert fs == [fs[0]] + fs[1..];
    }
  }

  /* ---- Scalars ---- */

  lemma BytesComplete(buf: bytes, offset: nat, data: bytes)
    requires WriteBytes(data).Ok? && At(buf, offset, WriteBytes(data).value)
    ensures ReadBytes(buf, offset) == Ok((data, |WriteBytes(data).value|))
    ensures ReadU32(buf, offset).Ok? && ReadU32(buf, offset).value.0 == |data|
  {
    DelimitedAt(buf, offset, data);
    var n := PrefixSize(data);
    assert Clip(buf, offset + n, offset + n + |data|) == data;
  }

  lemma ScalarComplete(text: TextCheck, strict: bool, dt: DataType, v: Value, buf: bytes, offset: nat)
    requires ConformsScalar(text, dt, v) && LosslessScalar(dt, v)
    requires EncodeScalar(dt, v).Ok? && At(buf, offset, EncodeScalar(dt, v).value)
    ensures DecodeScalar(text, strict, dt, buf, offset) == Ok((v, |EncodeScalar(dt, v).value|))
  {
    Widths();
    var e := EncodeScalar(dt, v).value;
    match dt
    case UInt32 => ReadVarintIff(buf, offset, W32, v.n, |e|);
    case UInt64 => ReadVarintIff(buf, offset, W64, v.n, |e|);
    case SInt32 => ReadSignedIff(buf, offset, W32, MAX_SINT32, v.n, |e|);
    case SInt64 => ReadSignedIff(buf, offset, W64, MAX_SINT64, v.n, |e|);
    case Str => BytesComplete(buf, offset, v.data);
    case Bytes => BytesComplete(buf, offset, v.data);
    case Boolean => assert buf[offset] == buf[offset..offset + 1][0];
  }

  /** A string that starts with a byte order mark comes back without it, or not at all. */
  lemma ScalarLossy(text: TextCheck, dt: DataType, v: Value, buf: bytes, offset: nat)
    requires ConformsScalar(text, dt, v) && !LosslessScalar(dt, v)
    requires EncodeScalar(dt, v).Ok? && At(buf, offset, EncodeScalar(dt, v).value)
    ensures var r := DecodeScalar(text, false, dt, buf, offset);
            r.Ok? ==> r.value.0 != v && r.value.1 == |EncodeScalar(dt, v).value|
  {
    BytesComplete(buf, offset, v.data);
  }

  lemma ElementComplete(text: TextCheck, strict: bool, dt: DataType, v: Value, buf: bytes, offset: nat)
    requires LengthDelimited(dt) && ConformsScalar(text, dt, v) && LosslessScalar(dt, v)
    requires EncodeScalar(dt, v).Ok? && At(buf, offset, EncodeScalar(dt, v).value)
    ensures DecodeElement(text, strict, dt, buf, offset) == Ok((v, |EncodeScalar(dt, v).value|))
  {
    BytesComplete(buf, offset, v.data);
    ScalarComplete(text, strict, dt, v, buf, offset);
  }

  lemma ElementLossy(text: TextCheck, dt: DataType, v: Value, buf: bytes, offset: nat)
    requires LengthDelimited(dt) && ConformsScalar(text, dt, v) && !LosslessScalar(dt, v)
    requires EncodeScalar(dt, v).Ok? && At(buf, offset, EncodeScalar(dt, v).value)
    ensures var r := DecodeElement(text, false, dt, buf, offset);
            r.Ok? ==> r.value.0 != v && r.value.1 == |EncodeScalar(dt, v).value|
  {
    BytesComplete(buf, offset, v.data);
    ScalarLossy(text, dt, v, buf, offset);
  }

  /* ---- Keys ---- */

  lemma KeyComplete(f: Field, buf: bytes, index: nat)
    requires f.number <= MAX_FIELD_NUMBER && At(buf, index, Key(f))
    ensures ReadU32(buf, index) == Ok((KeyValue(f), |Key(f)|))
    ensures ReadKey(KeyValue(f)) == Ok((f.number, WireType(f.kind)))
    ensures ExpectKey(f, buf, index) == Ok(|Key(f)|)
    ensures buf[index] == Key(f)[0]
  {
    KeyRange(f);
    KeyRoundTrip(f);
    ReadU32Iff(buf, index, KeyValue(f), |Key(f)|);
    assert buf[index] == buf[index..index + |Key(f)|][0];
  }

  /** The encoding of a field starts with its key, unless it is an empty array, which leaves no bytes. */
  lemma FieldStartsWithKey(f: Field, obj: Props)
    requires f.name in obj && EncodeField(f, obj).Ok?
    ensures EncodeField(f, obj).value == [] ==> IsArray(f.kind) && obj[f.name].Arr? && obj[f.name].items == []
    ensures EncodeField(f, obj).value != [] ==> Key(f) <= EncodeField(f, obj).value
  {
    var v := obj[f.name];
    var h := EncodeField(f, obj).value;
    match f.kind
    case Scalar(dt) =>
      assert h == Key(f) + EncodeScalar(dt, v).value;
    case Object(fs) =>
      assert h == Key(f) + WriteBytes(EncodeFields(fs, v.props).value).value;
    case ScalarArray(dt) =>
      if v.items != [] {
        if LengthDelimited(dt) {
          assert h == Key(f) + EncodeScalar(dt, v.items[0]).value + EncodeRepeated(dt, Key(f), v.items[1..]).value;
        } else {
          assert h == Key(f) + WriteBytes(Contents(dt, v.items).value).value;
        }
      }
    case ObjectArray(fs) =>
      if v.items != [] {
        assert h == Key(f) + WriteBytes(EncodeFields(fs, v.items[0].props).value).value
                  + EncodeItems(fs, Key(f), v.items[1..]).value;
      }
  }

  /** A non-empty encoding starts with the key of the first field that leaves a trace. */
  lemma {:induction false} FirstPresent(f: Field, fs: seq<Field>, obj: Props) returns (g: Field)
    requires EncodeFields(fs, obj).Ok? && EncodeFields(fs, obj).value != []
    requires forall h | h in fs :: h.name in obj
    ensures g in fs && Key(g) <= EncodeFields(fs, obj).value
    ensures Follows(f, fs, obj) <==> Key(f)[0] != Key(g)[0]
  {
    hide EncodeField, Key;
    var head := EncodeField(fs[0], obj).value;
    FieldStartsWithKey(fs[0], obj);
    SilentIffEmpty(fs[0], obj);
    assert fs == [fs[0]] + fs[1..];
    assert EncodeFields(fs, obj).value == head + EncodeFields(fs[1..], obj).value;
    if head == [] {
      g := FirstPresent(f, fs[1..], obj);
    } else {
      g := fs[0];
    }
  }

  lemma SilentIffEmpty(f: Field, obj: Props)
    requires f.name in obj && EncodeField(f, obj).Ok?
    ensures Silent(f, obj) <==> EncodeField(f, obj).value == []
  {
    FieldStartsWithKey(f, obj);
    if Silent(f, obj) {
      assert obj[f.name] == Arr([]);
      EmptyArray(f, obj);
    }
  }

  /** Where the encoding of a field ends: at the end of the object, or at a key that cannot be mistaken for `f`'s. */
  ghost predicate Stops(f: Field, buf: bytes, index: nat, terminate: nat) {
    index == terminate || (index < |buf| && buf[index] != Key(f)[0])
  }

  lemma FieldStops(f: Field, rest: seq<Field>, obj: Props, buf: bytes, index: nat, terminate: nat)
    requires EncodeFields(rest, obj).Ok? && At(buf, index, EncodeFields(rest, obj).value)
    requires terminate == index + |EncodeFields(rest, obj).value|
    requires Follows(f, rest, obj) && forall h | h in rest :: h.name in obj
    ensures Stops(f, buf, index, terminate)
  {
    var r := EncodeFields(rest, obj).value;
    if r != [] {
      var g := FirstPresent(f, rest, obj);
      assert buf[index] == buf[index..index + |r|][0] == Key(g)[0];
    }
  }

  /** A field that left no trace is not mistaken for the field that follows it. */
  lemma AbsentArray(text: TextCheck, strict: bool, f: Field, rest: seq<Field>, obj: Props, buf: bytes, index: nat, terminate: nat)
    requires IsArray(f.kind) && WellFormed(rest) && forall h | h in rest :: f.number < h.number && h.name in obj
    requires EncodeFields(rest, obj).Ok? && At(buf, index, EncodeFields(rest, obj).value)
    requires terminate == index + |EncodeFields(rest, obj).value|
    ensures DecodeField(text, strict, f, buf, index, terminate) == Ok((Arr([]), index))
  {
    var r := EncodeFields(rest, obj).value;
    if r != [] {
      var g := FirstPresent(f, rest, obj);
      WellFormedNumbers(rest);
      assert r == Key(g) + r[|Key(g)|..];
      AtSplit(buf, index, Key(g), r[|Key(g)|..]);
      KeyComplete(g, buf, index);
    }
  }

  /* ---- Array loops ---- */

  /** The loop reads the encoded strings or byte strings, and goes on behind them. */
  lemma {:induction false} RepeatedThen(
    text: TextCheck, strict: bool, f: Field, items: seq<Value>, buf: bytes, index: nat, terminate: nat)
    requires f.kind.ScalarArray? && LengthDelimited(f.kind.dt) && f.number <= MAX_FIELD_NUMBER
    requires forall x | x in items :: ConformsScalar(text, f.kind.dt, x) && LosslessScalar(f.kind.dt, x)
    requires EncodeRepeated(f.kind.dt, Key(f), items).Ok?
    requires var e := EncodeRepeated(f.kind.dt, Key(f), items).value;
             At(buf, index, e) && index + |e| <= terminate
    ensures var end := index + |EncodeRepeated(f.kind.dt, Key(f), items).value|;
            DecodeRepeated(text, strict, f.kind.dt, KeyValue(f), buf, index, terminate, Key(f)[0])
            == Then(items, DecodeRepeated(text, strict, f.kind.dt, KeyValue(f), buf, end, terminate, Key(f)[0]))
    decreases items
  {
    hide EncodeScalar, DecodeElement, ReadU32, VarintBytes, ConformsScalar, LosslessScalar, Then;
    var dt := f.kind.dt;
    var end := index + |EncodeRepeated(dt, Key(f), items).value|;
    var rest := DecodeRepeated(text, strict, dt, KeyValue(f), buf, end, terminate, Key(f)[0]);
    if items == [] {
      ThenNothing(items, rest);
    } else {
      var payload := EncodeScalar(dt, items[0]).value;
      var tail := EncodeRepeated(dt, Key(f), items[1..]).value;
      assert EncodeRepeated(dt, Key(f), items).value == Key(f) + payload + tail;
      AtSplit(buf, index, Key(f) + payload, tail);
      AtSplit(buf, index, Key(f), payload);
      KeyComplete(f, buf, index);
      ElementComplete(text, strict, dt, items[0], buf, index + |Key(f)|);
      var next := index + |Key(f)| + |payload|;
      RepeatedThen(text, strict, f, items[1..], buf, next, terminate);
      RepeatedStep(text, strict, f, items[0], buf, index, terminate, |payload|);
      ThenCons(items[0], items[1..], rest);
      assert items == [items[0]] + items[1..];
    }
  }

  lemma RepeatedStep(text: TextCheck, strict: bool, f: Field, x: Value, buf: bytes, index: nat, terminate: nat, n: nat)
    requires f.kind.ScalarArray? && LengthDelimited(f.kind.dt) && index < terminate && index < |buf| && buf[index] == Key(f)[0]
    requires ReadU32(buf, index) == Ok((KeyValue(f), |Key(f)|))
    requires DecodeElement(text, strict, f.kind.dt, buf, index + |Key(f)|) == Ok((x, n))
    ensures DecodeRepeated(text, strict, f.kind.dt, KeyValue(f), buf, index, terminate, Key(f)[0])
         == Then([x], DecodeRepeated(text, strict, f.kind.dt, KeyValue(f), buf, index + |Key(f)| + n, terminate, Key(f)[0]))
  {
    hide DecodeElement, ReadU32, VarintBytes;
  }

  lemma RepeatedComplete(
    text: TextCheck, strict: bool, f: Field, items: seq<Value>, buf: bytes, index: nat, terminate: nat)
    requires f.kind.ScalarArray? && LengthDelimited(f.kind.dt) && f.number <= MAX_FIELD_NUMBER
    requires forall x | x in items :: ConformsScalar(text, f.kind.dt, x) && LosslessScalar(f.kind.dt, x)
    requires EncodeRepeated(f.kind.dt, Key(f), items).Ok?
    requires var e := EncodeRepeated(f.kind.dt, Key(f), items).value;
             At(buf, index, e) && index + |e| <= terminate && Stops(f, buf, index + |e|, terminate)
    ensures var e := EncodeRepeated(f.kind.dt, Key(f), items).value;
            DecodeRepeated(text, strict, f.kind.dt, KeyValue(f), buf, index, terminate, Key(f)[0]) == Ok((items, index + |e|))
  {
    hide DecodeElement, VarintBytes, EncodeRepeated, ConformsScalar, LosslessScalar, Then;
    RepeatedThen(text, strict, f, items, buf, index, terminate);
    ThenNothing(items, Ok(([], 0)));
  }

  lemma {:induction false} RepeatedLossy(
    text: TextCheck, f: Field, items: seq<Value>, buf: bytes, index: nat, terminate: nat)
    requires f.kind.ScalarArray? && LengthDelimited(f.kind.dt) && f.number <= MAX_FIELD_NUMBER
    requires forall x | x in items :: ConformsScalar(text, f.kind.dt, x)
    requires exists x | x in items :: !LosslessScalar(f.kind.dt, x)
    requires EncodeRepeated(f.kind.dt, Key(f), items).Ok?
    requires var e := EncodeRepeated(f.kind.dt, Key(f), items).value; At(buf, index, e) && index + |e| <= terminate
    ensures var r := DecodeRepeated(text, false, f.kind.dt, KeyValue(f), buf, index, terminate, Key(f)[0]);
            r.Ok? ==> r.value.0 != items
    decreases items
  {
    hide EncodeScalar, DecodeElement, ReadU32, VarintBytes, ConformsScalar, LosslessScalar;
    var dt := f.kind.dt;
    var payload := EncodeScalar(dt, items[0]).value;
    var tail := EncodeRepeated(dt, Key(f), items[1..]).value;
    assert EncodeRepeated(dt, Key(f), items).value == Key(f) + payload + tail;
    AtSplit(buf, index, Key(f) + payload, tail);
    AtSplit(buf, index, Key(f), payload);
    KeyComplete(f, buf, index);
    assert items == [items[0]] + items[1..];
    if LosslessScalar(dt, items[0]) {
      ElementComplete(text, false, dt, items[0], buf, index + |Key(f)|);
      RepeatedLossy(text, f, items[1..], buf, index + |Key(f)| + |payload|, terminate);
    } else {
      ElementLossy(text, dt, items[0], buf, index + |Key(f)|);
    }
  }

  lemma {:induction false} PackedComplete(
    text: TextCheck, strict: bool, dt: DataType, items: seq<Value>, buf: bytes, index: nat, end: nat)
    requires !LengthDelimited(dt) && forall x | x in items :: ConformsScalar(text, dt, x)
    requires Contents(dt, items).Ok? && At(buf, index, Contents(dt, items).value)
    requires end == index + |Contents(dt, items).value|
    ensures DecodePacked(text, strict, dt, buf, index, end) == Ok((items, end))
    ensures items != [] ==> index < end
    decreases items
  {
    hide EncodeScalar, DecodeScalar, ConformsScalar;
    if items != [] {
      var head := EncodeScalar(dt, items[0]).value;
      assert Contents(dt, items).value == head + Contents(dt, items[1..]).value;
      AtSplit(buf, index, head, Contents(dt, items[1..]).value);
      ScalarComplete(text, strict, dt, items[0], buf, index);
      PackedComplete(text, strict, dt, items[1..], buf, index + |head|, end);
      assert items == [items[0]] + items[1..];
    }
  }

  /* ---- One turn of each decoding loop ---- */

  lemma ScalarFieldStep(text: TextCheck, strict: bool, f: Field, buf: bytes, index: nat, terminate: nat, k: nat, v: Value, n: nat)
    requires f.kind.Scalar? && index < |buf| && ExpectKey(f, buf, index) == Ok(k)
    requires DecodeScalar(text, strict, f.kind.dt, buf, index + k) == Ok((v, n))
    ensures DecodeField(text, strict, f, buf, index, terminate) == Ok((v, index + k + n))
  {
    hide DecodeScalar, ExpectKey;
  }

  lemma ObjectFieldStep(text: TextCheck, strict: bool, f: Field, buf: bytes, index: nat, terminate: nat, k: nat, size: nat, n: nat)
    requires f.kind.Object? && ExpectKey(f, buf, index) == Ok(k) && ReadU32(buf, index + k) == Ok((size, n))
    ensures var r := DecodeObject(text, strict, f.kind.fields, buf, index + k + n, index + k + n + size);
            DecodeField(text, strict, f, buf, index, terminate)
            == if r.Ok? then Ok((Obj(r.value), index + k + n + size)) else Err(r.error)
  {
    hide DecodeObject, ExpectKey, ReadU32;
  }

  /** Reading an array that is present: the key is there and carries the field number. */
  ghost predicate Present(f: Field, buf: bytes, index: nat, terminate: nat) {
    && index < terminate && index < |buf|
    && ReadU32(buf, index) == Ok((KeyValue(f), |Key(f)|))
    && ReadKey(KeyValue(f)) == Ok((f.number, WireType(f.kind)))
    && buf[index] == Key(f)[0]
  }

  function AsArray(r: Result<(seq<Value>, nat)>): Result<(Value, nat)> {
    if r.Ok? then Ok((Arr(r.value.0), r.value.1)) else Err(r.error)
  }

  lemma RepeatedFieldStep(text: TextCheck, strict: bool, f: Field, buf: bytes, index: nat, terminate: nat)
    requires f.kind.ScalarArray? && LengthDelimited(f.kind.dt) && Present(f, buf, index, terminate)
    ensures DecodeField(text, strict, f, buf, index, terminate)
         == AsArray(DecodeRepeated(text, strict, f.kind.dt, KeyValue(f), buf, index, terminate, Key(f)[0]))
  {
    hide DecodeRepeated, ReadU32, VarintBytes;
  }

  lemma ItemsFieldStep(text: TextCheck, strict: bool, f: Field, buf: bytes, index: nat, terminate: nat)
    requires f.kind.ObjectArray? && Present(f, buf, index, terminate)
    ensures DecodeField(text, strict, f, buf, index, terminate)
         == AsArray(DecodeItems(text, strict, f.kind.fields, KeyValue(f), buf, index, terminate, Key(f)[0]))
  {
    hide DecodeItems, ReadU32, VarintBytes;
  }

  lemma PackedFieldStep(text: TextCheck, strict: bool, f: Field, buf: bytes, index: nat, terminate: nat,
                        size: nat, n: nat, items: seq<Value>)
    requires f.kind.ScalarArray? && !LengthDelimited(f.kind.dt) && Present(f, buf, index, terminate)
    requires ReadU32(buf, index + |Key(f)|) == Ok((size, n)) && size > 0
    requires var start := index + |Key(f)| + n;
             DecodePacked(text, strict, f.kind.dt, buf, start, start + size) == Ok((items, start + size))
    ensures DecodeField(text, strict, f, buf, index, terminate) == Ok((Arr(items), index + |Key(f)| + n + size))
  {
    hide DecodePacked, ReadU32, VarintBytes;
  }

  /** One object of the array, whose key and length stand at `index`. */
  lemma ItemsStep(text: TextCheck, strict: bool, f: Field, fs: seq<Field>, buf: bytes, index: nat, terminate: nat, size: nat, n: nat)
    requires Present(f, buf, index, terminate) && ReadU32(buf, index + |Key(f)|) == Ok((size, n))
    ensures var body := index + |Key(f)| + n;
            var r := DecodeItems(text, strict, fs, KeyValue(f), buf, index, terminate, Key(f)[0]);
            var first := DecodeObject(text, strict, fs, buf, body, body + size);
            var rest := DecodeItems(text, strict, fs, KeyValue(f), buf, body + size, terminate, Key(f)[0]);
            && (size == 0 && !strict ==> r == rest)
            && (size > 0 ==> r == if first.Err? then Err(first.error)
                                  else if rest.Err? then rest
                                  else Ok(([Obj(first.value)] + rest.value.0, rest.value.1)))
  {
    hide DecodeObject, ReadU32, VarintBytes;
  }

  /* ---- The mutual induction: lossless messages come back ---- */

  function Restrict(fs: seq<Field>, obj: Props): Props {
    map n | n in obj && n in Names(fs) :: obj[n]
  }

  lemma RestrictStep(fs: seq<Field>, obj: Props)
    requires fs != [] && fs[0].name in obj
    ensures Restrict(fs, obj) == map[fs[0].name := obj[fs[0].name]] + Restrict(fs[1..], obj)
  {
    assert fs == [fs[0]] + fs[1..];
  }

  predicate ItemsConform(text: TextCheck, fs: seq<Field>, items: seq<Value>) {
    forall x | x in items :: x.Obj? && x.props.Keys == Names(fs) && ConformsFields(text, fs, x.props)
  }

  predicate LosslessItems(fs: seq<Field>, items: seq<Value>) {
    forall x | x in items :: LosslessItem(fs, x)
  }

  /** The encoding of the remaining fields stands at `index` and ends at `terminate`. */
  ghost predicate EncodedAt(fs: seq<Field>, obj: Props, buf: bytes, index: nat, terminate: nat) {
    var r := EncodeFields(fs, obj);
    r.Ok? && At(buf, index, r.value) && terminate == index + |r.value|
  }

  lemma EncodedStep(fs: seq<Field>, obj: Props, buf: bytes, index: nat, terminate: nat)
    requires fs != [] && EncodedAt(fs, obj, buf, index, terminate)
    ensures EncodeField(fs[0], obj).Ok? && At(buf, index, EncodeField(fs[0], obj).value)
    ensures EncodedAt(fs[1..], obj, buf, index + |EncodeField(fs[0], obj).value|, terminate)
  {
    AtSplit(buf, index, EncodeField(fs[0], obj).value, EncodeFields(fs[1..], obj).value);
  }

  lemma {:induction false} FieldsComplete(
    text: TextCheck, strict: bool, fs: seq<Field>, obj: Props, buf: bytes, index: nat, terminate: nat)
    requires WellFormed(fs) && Separated(fs, obj)
    requires ConformsFields(text, fs, obj) && LosslessFields(fs, obj)
    requires EncodedAt(fs, obj, buf, index, terminate)
    ensures DecodeFields(text, strict, fs, buf, index, terminate) == Ok((Restrict(fs, obj), terminate))
    decreases fs, 0
  {
    hide EncodeField, DecodeField, Restrict, At, Follows;
    if fs == [] {
      assert Restrict(fs, obj) == map[] by { RestrictEmpty(obj); }
      EncodedEmpty(obj, buf, index, terminate);
    } else {
      EncodedStep(fs, obj, buf, index, terminate);
      FieldComplete(text, strict, fs[0], fs[1..], obj, buf, index, terminate);
      FieldsComplete(text, strict, fs[1..], obj, buf, index + |EncodeField(fs[0], obj).value|, terminate);
      RestrictStep(fs, obj);
    }
  }

  lemma RestrictEmpty(obj: Props)
    ensures Restrict([], obj) == map[]
  {
  }

  lemma EncodedEmpty(obj: Props, buf: bytes, index: nat, terminate: nat)
    requires EncodedAt([], obj, buf, index, terminate)
    ensures index == terminate
  {
  }

  lemma {:induction false} FieldComplete(
    text: TextCheck, strict: bool, f: Field, rest: seq<Field>, obj: Props, buf: bytes, index: nat, terminate: nat)
    requires WellFormedField(f) && WellFormed(rest)
    requires forall g | g in rest :: f.number < g.number
    requires f.name in obj && ConformsField(text, f, obj[f.name]) && LosslessField(f, obj[f.name])
    requires SeparatedField(f, obj[f.name]) && (IsRepeated(f.kind) && !Silent(f, obj) ==> Follows(f, rest, obj))
    requires ConformsFields(text, rest, obj)
    requires EncodeField(f, obj).Ok? && At(buf, index, EncodeField(f, obj).value)
    requires EncodedAt(rest, obj, buf, index + |EncodeField(f, obj).value|, terminate)
    ensures DecodeField(text, strict, f, buf, index, terminate) == Ok((obj[f.name], index + |EncodeField(f, obj).value|))
    decreases f, 1
  {
    hide EncodeScalar, DecodeScalar, ReadU32, ReadKey, VarintBytes, WriteBytes, ConformsScalar, LosslessScalar,
         DecodeField, DecodeRepeated, DecodeItems, DecodeFields, EncodeFields, EncodeItems, EncodeRepeated, EncodePacked,
         At, Restrict, Follows, LosslessItem, SeparatedItem;
    var v := obj[f.name];
    var end := index + |EncodeField(f, obj).value|;
    ConformsNames(text, rest, obj);
    if f.kind.Scalar? {
      ScalarFieldComplete(text, strict, f, obj, buf, index, terminate);
    } else if f.kind.Object? {
      var fs := f.kind.fields;
      var body := EncodeFields(fs, v.props).value;
      BodyAt(f, body, buf, index);
      var start := index + |Key(f)| + PrefixSize(body);
      FieldsComplete(text, strict, fs, v.props, buf, start, end);
      RestrictWhole(fs, v.props);
      ObjectFieldStep(text, strict, f, buf, index, terminate, |Key(f)|, |body|, PrefixSize(body));
    } else if v.items == [] {
      EmptyArray(f, obj);
      AbsentArray(text, strict, f, rest, obj, buf, index, terminate);
    } else {
      ArrayStarts(f, obj, buf, index, terminate);
      if f.kind.ObjectArray? {
        FieldStops(f, rest, obj, buf, end, terminate);
        ItemsComplete(text, strict, f, f.kind.fields, v.items, buf, index, terminate);
        ItemsFieldStep(text, strict, f, buf, index, terminate);
      } else if LengthDelimited(f.kind.dt) {
        FieldStops(f, rest, obj, buf, end, terminate);
        RepeatedComplete(text, strict, f, v.items, buf, index, terminate);
        RepeatedFieldStep(text, strict, f, buf, index, terminate);
      } else {
        PackedFieldComplete(text, strict, f, v.items, buf, index, terminate);
      }
    }
  }

  lemma RestrictWhole(fs: seq<Field>, obj: Props)
    requires obj.Keys == Names(fs)
    ensures Restrict(fs, obj) == obj
  {
  }

  lemma EmptyArray(f: Field, obj: Props)
    requires IsArray(f.kind) && f.name in obj && obj[f.name] == Arr([])
    ensures EncodeField(f, obj) == Ok([])
  {
  }

  lemma ScalarFieldComplete(text: TextCheck, strict: bool, f: Field, obj: Props, buf: bytes, index: nat, terminate: nat)
    requires f.kind.Scalar? && f.number <= MAX_FIELD_NUMBER && f.name in obj
    requires ConformsScalar(text, f.kind.dt, obj[f.name]) && LosslessScalar(f.kind.dt, obj[f.name])
    requires EncodeField(f, obj).Ok? && At(buf, index, EncodeField(f, obj).value)
    ensures DecodeField(text, strict, f, buf, index, terminate) == Ok((obj[f.name], index + |EncodeField(f, obj).value|))
  {
    hide EncodeScalar, DecodeScalar, DecodeField, ConformsScalar, LosslessScalar;
    var v := obj[f.name];
    var payload := EncodeScalar(f.kind.dt, v).value;
    assert EncodeField(f, obj).value == Key(f) + payload;
    AtSplit(buf, index, Key(f), payload);
    KeyComplete(f, buf, index);
    ScalarComplete(text, strict, f.kind.dt, v, buf, index + |Key(f)|);
    ScalarFieldStep(text, strict, f, buf, index, terminate, |Key(f)|, v, |payload|);
  }

  /** A key and a delimited body stand at `index`. */
  lemma BodyAt(f: Field, body: bytes, buf: bytes, index: nat)
    requires f.number <= MAX_FIELD_NUMBER
    requires WriteBytes(body).Ok? && At(buf, index, Key(f) + WriteBytes(body).value)
    ensures ExpectKey(f, buf, index) == Ok(|Key(f)|)
    ensures forall t | index < t :: Present(f, buf, index, t)
    ensures ReadU32(buf, index + |Key(f)|) == Ok((|body|, PrefixSize(body)))
    ensures At(buf, index + |Key(f)| + PrefixSize(body), body)
    ensures |WriteBytes(body).value| == PrefixSize(body) + |body|
  {
    hide ReadU32, VarintBytes, WriteBytes, ReadKey;
    AtSplit(buf, index, Key(f), WriteBytes(body).value);
    DelimitedAt(buf, index + |Key(f)|, body);
    KeyComplete(f, buf, index);
  }

  lemma ArrayStarts(f: Field, obj: Props, buf: bytes, index: nat, terminate: nat)
    requires IsArray(f.kind) && f.number <= MAX_FIELD_NUMBER
    requires f.name in obj && obj[f.name].Arr? && obj[f.name].items != []
    requires EncodeField(f, obj).Ok? && At(buf, index, EncodeField(f, obj).value)
    requires index + |EncodeField(f, obj).value| <= terminate
    ensures Present(f, buf, index, terminate)
  {
    hide EncodeField;
    var h := EncodeField(f, obj).value;
    FieldStartsWithKey(f, obj);
    NonEmptyArray(f, obj);
    assert h == Key(f) + h[|Key(f)|..];
    AtSplit(buf, index, Key(f), h[|Key(f)|..]);
    KeyComplete(f, buf, index);
  }

  lemma NonEmptyArray(f: Field, obj: Props)
    requires IsArray(f.kind) && f.name in obj && obj[f.name].Arr? && obj[f.name].items != []
    requires EncodeField(f, obj).Ok?
    ensures EncodeField(f, obj).value != []
  {
  }

  lemma PackedFieldComplete(text: TextCheck, strict: bool, f: Field, items: seq<Value>, buf: bytes, index: nat, terminate: nat)
    requires f.kind.ScalarArray? && !LengthDelimited(f.kind.dt) && f.number <= MAX_FIELD_NUMBER && items != []
    requires forall x | x in items :: ConformsScalar(text, f.kind.dt, x)
    requires EncodePacked(f.kind.dt, Key(f), items).Ok?
    requires var e := EncodePacked(f.kind.dt, Key(f), items).value; At(buf, index, e) && index + |e| <= terminate
    ensures DecodeField(text, strict, f, buf, index, terminate)
         == Ok((Arr(items), index + |EncodePacked(f.kind.dt, Key(f), items).value|))
  {
    hide DecodeField, WriteBytes, Contents, DecodePacked, ReadU32, VarintBytes, ConformsScalar, At;
    var dt := f.kind.dt;
    var body := Contents(dt, items).value;
    BodyAt(f, body, buf, index);
    var start := index + |Key(f)| + PrefixSize(body);
    PackedComplete(text, strict, dt, items, buf, start, start + |body|);
    PackedFieldStep(text, strict, f, buf, index, terminate, |body|, PrefixSize(body), items);
  }

  lemma ItemsEncodedStep(fs: seq<Field>, f: Field, items: seq<Value>, buf: bytes, index: nat)
    requires items != [] && EncodeItems(fs, Key(f), items).Ok? && At(buf, index, EncodeItems(fs, Key(f), items).value)
    ensures items[0].Obj? && EncodeFields(fs, items[0].props).Ok? && EncodeItems(fs, Key(f), items[1..]).Ok?
    ensures var body := EncodeFields(fs, items[0].props).value;
            && WriteBytes(body).Ok? && At(buf, index, Key(f) + WriteBytes(body).value)
            && var k := |Key(f)| + |WriteBytes(body).value|;
            && At(buf, index + k, EncodeItems(fs, Key(f), items[1..]).value)
            && |EncodeItems(fs, Key(f), items).value| == k + |EncodeItems(fs, Key(f), items[1..]).value|
  {
    hide WriteBytes, EncodeFields;
    var body := EncodeFields(fs, items[0].props).value;
    AtSplit(buf, index, Key(f) + WriteBytes(body).value, EncodeItems(fs, Key(f), items[1..]).value);
  }

  lemma NoItems(text: TextCheck, strict: bool, f: Field, fs: seq<Field>, buf: bytes, index: nat, terminate: nat)
    ensures EncodeItems(fs, Key(f), []) == Ok([])
    ensures Stops(f, buf, index, terminate) ==>
              DecodeItems(text, strict, fs, KeyValue(f), buf, index, terminate, Key(f)[0]) == Ok(([], index))
  {
    hide VarintBytes;
  }

  /** The loop reads the encoded objects, and goes on behind them. */
  lemma {:induction false} ItemsThen(
    text: TextCheck, strict: bool, f: Field, fs: seq<Field>, items: seq<Value>, buf: bytes, index: nat, terminate: nat)
    requires f.number <= MAX_FIELD_NUMBER && WellFormed(fs) && SeparatedItems(fs, items)
    requires ItemsConform(text, fs, items) && LosslessItems(fs, items)
    requires EncodeItems(fs, Key(f), items).Ok?
    requires var e := EncodeItems(fs, Key(f), items).value; At(buf, index, e) && index + |e| <= terminate
    ensures var end := index + |EncodeItems(fs, Key(f), items).value|;
            DecodeItems(text, strict, fs, KeyValue(f), buf, index, terminate, Key(f)[0])
            == Then(items, DecodeItems(text, strict, fs, KeyValue(f), buf, end, terminate, Key(f)[0]))
    decreases fs, 1, items
  {
    hide ReadU32, VarintBytes, WriteBytes, DecodeFields, EncodeFields, DecodeItems, EncodeItems, ConformsFields,
         At, WellFormed, Separated, Restrict, Present, LosslessFields, Vacuous, Then;
    var end := index + |EncodeItems(fs, Key(f), items).value|;
    var rest := DecodeItems(text, strict, fs, KeyValue(f), buf, end, terminate, Key(f)[0]);
    if items == [] {
      NoItems(text, strict, f, fs, buf, index, terminate);
      ThenNothing(items, rest);
    } else {
      ItemsEncodedStep(fs, f, items, buf, index);
      assert items[0] in items && LosslessItem(fs, items[0]) && SeparatedItem(fs, items[0]);
      var props := items[0].props;
      var body := EncodeFields(fs, props).value;
      BodyAt(f, body, buf, index);
      ConformsNames(text, fs, props);
      VacuousIffEmpty(fs, props);
      var start := index + |Key(f)| + PrefixSize(body);
      FieldsComplete(text, strict, fs, props, buf, start, start + |body|);
      RestrictWhole(fs, props);
      ItemsThen(text, strict, f, fs, items[1..], buf, start + |body|, terminate);
      ItemsStep(text, strict, f, fs, buf, index, terminate, |body|, PrefixSize(body));
      ThenOne(items[0], DecodeItems(text, strict, fs, KeyValue(f), buf, start + |body|, terminate, Key(f)[0]));
      ThenCons(items[0], items[1..], rest);
      assert items == [items[0]] + items[1..];
    }
  }

  lemma ThenOne(x: Value, rest: Result<(seq<Value>, nat)>)
    ensures Then([x], rest) == if rest.Err? then rest else Ok(([x] + rest.value.0, rest.value.1))
  {
  }

  lemma ItemsComplete(
    text: TextCheck, strict: bool, f: Field, fs: seq<Field>, items: seq<Value>, buf: bytes, index: nat, terminate: nat)
    requires f.number <= MAX_FIELD_NUMBER && WellFormed(fs) && SeparatedItems(fs, items)
    requires ItemsConform(text, fs, items) && LosslessItems(fs, items)
    requires EncodeItems(fs, Key(f), items).Ok?
    requires var e := EncodeItems(fs, Key(f), items).value;
             At(buf, index, e) && index + |e| <= terminate && Stops(f, buf, index + |e|, terminate)
    ensures var e := EncodeItems(fs, Key(f), items).value;
            DecodeItems(text, strict, fs, KeyValue(f), buf, index, terminate, Key(f)[0]) == Ok((items, index + |e|))
    decreases fs, 2
  {
    hide DecodeItems, EncodeItems, At, Stops, WellFormed, SeparatedItems, ItemsConform, LosslessItems, Then;
    ItemsThen(text, strict, f, fs, items, buf, index, terminate);
    NoItems(text, strict, f, fs, buf, index + |EncodeItems(fs, Key(f), items).value|, terminate);
    ThenNothing(items, Ok(([], 0)));
  }
}
