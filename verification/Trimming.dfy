/** What does come back of a message that does not survive a round trip. */
module Trimming {
  import opened Wrappers
  import opened Varint
  import opened Schema
  import opened Codec
  import opened RoundTrip

  /* ---- What the reader leaves of a message ---- */

  /** A string without its leading byte order mark; anything else as it is. */
  function TrimScalar(v: Value): Value {
    if v.Text? && [0xef, 0xbb, 0xbf] <= v.data then Text(v.data[3..]) else v
  }

  function TrimScalars(items: seq<Value>): seq<Value> {
    if items == [] then [] else [TrimScalar(items[0])] + TrimScalars(items[1..])
  }

  function TrimFields(fs: seq<Field>, obj: Props): Props
    decreases fs, 0
  {
    if fs == [] then map[]
    else if fs[0].name in obj then map[fs[0].name := TrimField(fs[0], obj[fs[0].name])] + TrimFields(fs[1..], obj)
    else TrimFields(fs[1..], obj)
  }

  function TrimField(f: Field, v: Value): Value
    decreases f, 2
  {
    match f.kind
    case Scalar(_) => TrimScalar(v)
    case Object(fs) => if v.Obj? then Obj(TrimFields(fs, v.props)) else v
    case ScalarArray(_) => if v.Arr? then Arr(TrimScalars(v.items)) else v
    case ObjectArray(fs) => if v.Arr? then Arr(TrimItems(fs, v.items)) else v
  }

  predicate OnlyEmptyArrays(fs: seq<Field>, props: Props) {
    forall f | f in fs && f.name in props :: props[f.name] == Arr([])
  }

  /** The objects all of whose properties are empty arrays are dropped. */
  function TrimItems(fs: seq<Field>, items: seq<Value>): seq<Value>
    decreases fs, 1, items
  {
    if items == [] then []
    else if items[0].Obj? && OnlyEmptyArrays(fs, items[0].props) then TrimItems(fs, items[1..])
    else [if items[0].Obj? then Obj(TrimFields(fs, items[0].props)) else items[0]] + TrimItems(fs, items[1..])
  }

  /** Valid text stays valid without a leading byte order mark. */
  ghost predicate MarksAreOptional(text: TextCheck) {
    forall data | text(data) && [0xef, 0xbb, 0xbf] <= data :: text(data[3..])
  }

  /* ---- The reader does exactly that ---- */

  lemma ScalarTrims(text: TextCheck, dt: DataType, v: Value, buf: bytes, offset: nat)
    requires MarksAreOptional(text) && ConformsScalar(text, dt, v)
    requires EncodeScalar(dt, v).Ok? && At(buf, offset, EncodeScalar(dt, v).value)
    ensures DecodeScalar(text, false, dt, buf, offset) == Ok((TrimScalar(v), |EncodeScalar(dt, v).value|))
  {
    if dt.Str? {
      BytesComplete(buf, offset, v.data);
    } else {
      ScalarComplete(text, false, dt, v, buf, offset);
    }
  }

  lemma ElementTrims(text: TextCheck, dt: DataType, v: Value, buf: bytes, offset: nat)
    requires MarksAreOptional(text) && LengthDelimited(dt) && ConformsScalar(text, dt, v)
    requires EncodeScalar(dt, v).Ok? && At(buf, offset, EncodeScalar(dt, v).value)
    ensures DecodeElement(text, false, dt, buf, offset) == Ok((TrimScalar(v), |EncodeScalar(dt, v).value|))
  {
    BytesComplete(buf, offset, v.data);
    ScalarTrims(text, dt, v, buf, offset);
  }

  lemma {:induction false} RepeatedTrims(text: TextCheck, f: Field, items: seq<Value>, buf: bytes, index: nat, terminate: nat)
    requires MarksAreOptional(text) && f.kind.ScalarArray? && LengthDelimited(f.kind.dt) && f.number <= MAX_FIELD_NUMBER
    requires forall x | x in items :: ConformsScalar(text, f.kind.dt, x)
    requires EncodeRepeated(f.kind.dt, Key(f), items).Ok?
    requires var e := EncodeRepeated(f.kind.dt, Key(f), items).value;
             At(buf, index, e) && index + |e| <= terminate && Stops(f, buf, index + |e|, terminate)
    ensures var e := EncodeRepeated(f.kind.dt, Key(f), items).value;
            DecodeRepeated(text, false, f.kind.dt, KeyValue(f), buf, index, terminate, Key(f)[0]) == Ok((TrimScalars(items), index + |e|))
    decreases items
  {
    hide EncodeScalar, DecodeElement, ReadU32, VarintBytes, ConformsScalar, TrimScalar;
    var dt := f.kind.dt;
    if items != [] {
      var payload := EncodeScalar(dt, items[0]).value;
      var tail := EncodeRepeated(dt, Key(f), items[1..]).value;
      assert EncodeRepeated(dt, Key(f), items).value == Key(f) + payload + tail;
      AtSplit(buf, index, Key(f) + payload, tail);
      AtSplit(buf, index, Key(f), payload);
      KeyComplete(f, buf, index);
      ElementTrims(text, dt, items[0], buf, index + |Key(f)|);
      RepeatedTrims(text, f, items[1..], buf, index + |Key(f)| + |payload|, terminate);
      RepeatedStep(text, false, f, TrimScalar(items[0]), buf, index, terminate, |payload|);
    }
  }

  lemma {:induction false} PackedUntrimmed(text: TextCheck, dt: DataType, items: seq<Value>)
    requires !LengthDelimited(dt) && forall x | x in items :: ConformsScalar(text, dt, x)
    ensures TrimScalars(items) == items
  {
    if items != [] {
      assert items[0] in items;
      PackedUntrimmed(text, dt, items[1..]);
    }
  }

  lemma {:induction false} FieldsTrim(text: TextCheck, fs: seq<Field>, obj: Props, buf: bytes, index: nat, terminate: nat)
    requires MarksAreOptional(text) && WellFormed(fs) && Separated(fs, obj) && ConformsFields(text, fs, obj)
    requires EncodedAt(fs, obj, buf, index, terminate)
    ensures DecodeFields(text, false, fs, buf, index, terminate) == Ok((TrimFields(fs, obj), terminate))
    decreases fs, 0
  {
    hide EncodeField, DecodeField, At, Follows, TrimField, MarksAreOptional;
    if fs == [] {
      EncodedEmpty(obj, buf, index, terminate);
    } else {
      EncodedStep(fs, obj, buf, index, terminate);
      FieldTrims(text, fs[0], fs[1..], obj, buf, index, terminate);
      FieldsTrim(text, fs[1..], obj, buf, index + |EncodeField(fs[0], obj).value|, terminate);
    }
  }

  lemma ScalarFieldTrims(text: TextCheck, f: Field, obj: Props, buf: bytes, index: nat, terminate: nat)
    requires MarksAreOptional(text) && f.kind.Scalar? && f.number <= MAX_FIELD_NUMBER && f.name in obj
    requires ConformsScalar(text, f.kind.dt, obj[f.name])
    requires EncodeField(f, obj).Ok? && At(buf, index, EncodeField(f, obj).value)
    ensures DecodeField(text, false, f, buf, index, terminate)
         == Ok((TrimScalar(obj[f.name]), index + |EncodeField(f, obj).value|))
  {
    hide EncodeScalar, DecodeScalar, DecodeField, ConformsScalar, TrimScalar;
    var v := obj[f.name];
    var payload := EncodeScalar(f.kind.dt, v).value;
    assert EncodeField(f, obj).value == Key(f) + payload;
    AtSplit(buf, index, Key(f), payload);
    KeyComplete(f, buf, index);
    ScalarTrims(text, f.kind.dt, v, buf, index + |Key(f)|);
    ScalarFieldStep(text, false, f, buf, index, terminate, |Key(f)|, TrimScalar(v), |payload|);
  }

  lemma {:induction false} FieldTrims(
    text: TextCheck, f: Field, rest: seq<Field>, obj: Props, buf: bytes, index: nat, terminate: nat)
    requires MarksAreOptional(text) && WellFormedField(f) && WellFormed(rest)
    requires forall g | g in rest :: f.number < g.number
    requires f.name in obj && ConformsField(text, f, obj[f.name])
    requires SeparatedField(f, obj[f.name]) && (IsRepeated(f.kind) && !Silent(f, obj) ==> Follows(f, rest, obj))
    requires ConformsFields(text, rest, obj)
    requires EncodeField(f, obj).Ok? && At(buf, index, EncodeField(f, obj).value)
    requires EncodedAt(rest, obj, buf, index + |EncodeField(f, obj).value|, terminate)
    ensures DecodeField(text, false, f, buf, index, terminate)
         == Ok((TrimField(f, obj[f.name]), index + |EncodeField(f, obj).value|))
    decreases f, 1
  {
    hide EncodeScalar, DecodeScalar, ReadU32, ReadKey, VarintBytes, WriteBytes, ConformsScalar, DecodeField, DecodeRepeated, DecodeItems,
         DecodeFields, EncodeFields, EncodeItems, EncodeRepeated, EncodePacked, At, Follows, SeparatedItem, TrimScalar, TrimScalars,
         TrimFields, TrimItems, MarksAreOptional;
    var v := obj[f.name];
    var end := index + |EncodeField(f, obj).value|;
    ConformsNames(text, rest, obj);
    if f.kind.Scalar? {
      ScalarFieldTrims(text, f, obj, buf, index, terminate);
    } else if f.kind.Object? {
      var fs := f.kind.fields;
      var body := EncodeFields(fs, v.props).value;
      BodyAt(f, body, buf, index);
      var start := index + |Key(f)| + PrefixSize(body);
      FieldsTrim(text, fs, v.props, buf, start, end);
      ObjectFieldStep(text, false, f, buf, index, terminate, |Key(f)|, |body|, PrefixSize(body));
    } else if v.items == [] {
      EmptyArray(f, obj);
      AbsentArray(text, false, f, rest, obj, buf, index, terminate);
      NothingTrimmed(f);
    } else {
      ArrayStarts(f, obj, buf, index, terminate);
      if f.kind.ObjectArray? {
        FieldStops(f, rest, obj, buf, end, terminate);
        ItemsTrim(text, f, f.kind.fields, v.items, buf, index, terminate);
        ItemsFieldStep(text, false, f, buf, index, terminate);
      } else if LengthDelimited(f.kind.dt) {
        FieldStops(f, rest, obj, buf, end, terminate);
        RepeatedTrims(text, f, v.items, buf, index, terminate);
        RepeatedFieldStep(text, false, f, buf, index, terminate);
      } else {
        PackedFieldComplete(text, false, f, v.items, buf, index, terminate);
        PackedUntrimmed(text, f.kind.dt, v.items);
      }
    }
  }

  lemma NothingTrimmed(f: Field)
    requires IsArray(f.kind)
    ensures TrimField(f, Arr([])) == Arr([])
  {
  }

  lemma {:induction false} VacuousMeans(fs: seq<Field>, props: Props)
    requires forall f | f in fs :: f.name in props
    ensures Vacuous(fs, props) ==> forall f | f in fs :: props[f.name] == Arr([])
    ensures (forall f | f in fs :: props[f.name] == Arr([]) && IsArray(f.kind)) ==> Vacuous(fs, props)
  {
    if fs != [] {
      assert fs == [fs[0]] + fs[1..];
      VacuousMeans(fs[1..], props);
    }
  }

  lemma {:induction false} ItemsTrim(
    text: TextCheck, f: Field, fs: seq<Field>, items: seq<Value>, buf: bytes, index: nat, terminate: nat)
    requires MarksAreOptional(text) && f.number <= MAX_FIELD_NUMBER && WellFormed(fs) && SeparatedItems(fs, items)
    requires ItemsConform(text, fs, items) && EncodeItems(fs, Key(f), items).Ok?
    requires var e := EncodeItems(fs, Key(f), items).value;
             At(buf, index, e) && index + |e| <= terminate && Stops(f, buf, index + |e|, terminate)
    ensures var e := EncodeItems(fs, Key(f), items).value;
            DecodeItems(text, false, fs, KeyValue(f), buf, index, terminate, Key(f)[0]) == Ok((TrimItems(fs, items), index + |e|))
    decreases fs, 1, items
  {
    hide ReadU32, VarintBytes, WriteBytes, DecodeFields, EncodeFields, DecodeItems, EncodeItems, ConformsFields,
         At, WellFormed, Separated, Present, Vacuous, TrimFields, Stops, MarksAreOptional, OnlyEmptyArrays;
    if items == [] {
      NoItems(text, false, f, fs, buf, index, terminate);
    } else {
      ItemsEncodedStep(fs, f, items, buf, index);
      assert items[0] in items && SeparatedItem(fs, items[0]);
      var props := items[0].props;
      var body := EncodeFields(fs, props).value;
      BodyAt(f, body, buf, index);
      ConformsNames(text, fs, props);
      VacuousIffEmpty(fs, props);
      EmptyItem(text, fs, props);
      var start := index + |Key(f)| + PrefixSize(body);
      FieldsTrim(text, fs, props, buf, start, start + |body|);
      ItemsTrim(text, f, fs, items[1..], buf, start + |body|, terminate);
      ItemsStep(text, false, f, fs, buf, index, terminate, |body|, PrefixSize(body));
    }
  }

  /** The dropped objects are those that leave no bytes. */
  lemma EmptyItem(text: TextCheck, fs: seq<Field>, props: Props)
    requires ConformsFields(text, fs, props)
    ensures Vacuous(fs, props) <==> OnlyEmptyArrays(fs, props)
  {
    ConformsNames(text, fs, props);
    VacuousMeans(fs, props);
    ArraysOnly(text, fs, props);
    hide Vacuous, ConformsFields;
  }

  lemma {:induction false} ArraysOnly(text: TextCheck, fs: seq<Field>, props: Props)
    requires ConformsFields(text, fs, props)
    ensures forall f | f in fs && f.name in props && props[f.name] == Arr([]) :: IsArray(f.kind)
  {
    if fs != [] {
      assert fs == [fs[0]] + fs[1..];
      ArraysOnly(text, fs[1..], props);
    }
  }

  /**
   Decoding the encoding of any message, unless an array of it runs on into the field behind it, gives the message without the
   leading byte order marks of its strings and without those objects of its arrays that leave no bytes, and nothing else is lost.
   */
  lemma DecodeTrims(text: TextCheck, fs: seq<Field>, obj: Props)
    requires MarksAreOptional(text) && WellFormed(fs) && Conforms(text, fs, obj) && Encode(fs, obj).Ok? && Separated(fs, obj)
    ensures Decode(text, fs, Encode(fs, obj).value) == Ok(TrimFields(fs, obj))
  {
    hide DecodeFields, EncodeFields, WellFormed, ConformsFields, Separated, TrimFields, MarksAreOptional;
    var buf := Encode(fs, obj).value;
    FieldsTrim(text, fs, obj, buf, 0, |buf|);
  }
}
