/** Exactly which messages come back from their encoding. */
module RoundTripExact {
  import opened Wrappers
  import opened Varint
  import opened Schema
  import opened Codec
  import opened RoundTrip
  import opened Decoding
  import opened Clashes

  /* ---- Arrays of objects ---- */

  lemma {:induction false} ItemsBound(
    text: TextCheck, f: Field, fs: seq<Field>, items: seq<Value>, buf: bytes, index: nat, terminate: nat)
    requires f.number <= MAX_FIELD_NUMBER
    requires EncodeItems(fs, Key(f), items).Ok?
    requires var e := EncodeItems(fs, Key(f), items).value;
             At(buf, index, e) && index + |e| <= terminate && Stops(f, buf, index + |e|, terminate)
    ensures var r := DecodeItems(text, false, fs, KeyValue(f), buf, index, terminate, Key(f)[0]);
            r.Ok? ==> |r.value.0| <= |items|
    decreases items
  {
    hide ReadU32, VarintBytes, WriteBytes, DecodeObject, EncodeFields, DecodeItems, EncodeItems, At, Stops, Present;
    if items == [] {
      NoItems(text, false, f, fs, buf, index, terminate);
    } else {
      ItemsEncodedStep(fs, f, items, buf, index);
      var body := EncodeFields(fs, items[0].props).value;
      BodyAt(f, body, buf, index);
      ItemsStep(text, false, f, fs, buf, index, terminate, |body|, PrefixSize(body));
      ItemsBound(text, f, fs, items[1..], buf, index + |Key(f)| + PrefixSize(body) + |body|, terminate);
    }
  }

  /** Some item is lost or read wrongly. */
  lemma {:induction false} BadItems(
    text: TextCheck, f: Field, fs: seq<Field>, items: seq<Value>, buf: bytes, index: nat, terminate: nat)
    requires f.number <= MAX_FIELD_NUMBER && WellFormed(fs)
    requires ItemsConform(text, fs, items) && !(LosslessItems(fs, items) && SeparatedItems(fs, items))
    requires EncodeItems(fs, Key(f), items).Ok?
    requires var e := EncodeItems(fs, Key(f), items).value;
             At(buf, index, e) && index + |e| <= terminate && Stops(f, buf, index + |e|, terminate)
    ensures var r := DecodeItems(text, false, fs, KeyValue(f), buf, index, terminate, Key(f)[0]);
            r.Ok? ==> r.value.0 != items
    decreases fs, 1, items
  {
    hide ReadU32, VarintBytes, WriteBytes, DecodeFields, EncodeFields, DecodeItems, EncodeItems, ConformsFields,
         At, Stops, WellFormed, Separated, Restrict, Present, LosslessFields, Vacuous;
    ItemsEncodedStep(fs, f, items, buf, index);
    var props := items[0].props;
    var body := EncodeFields(fs, props).value;
    BodyAt(f, body, buf, index);
    ConformsNames(text, fs, props);
    VacuousIffEmpty(fs, props);
    var start := index + |Key(f)| + PrefixSize(body);
    ItemsStep(text, false, f, fs, buf, index, terminate, |body|, PrefixSize(body));
    assert items == [items[0]] + items[1..];
    RestrictWhole(fs, props);
    if body == [] {
      ItemsBound(text, f, fs, items[1..], buf, start + |body|, terminate);
    } else if LosslessFields(fs, props) && Separated(fs, props) {
      assert LosslessItem(fs, items[0]) && SeparatedItem(fs, items[0]);
      BadItems(text, f, fs, items[1..], buf, start + |body|, terminate);
    } else {
      BadFields(text, fs, props, buf, start, start + |body|);
    }
  }

  /* ---- The mutual induction ---- */

  /** An object that loses something, or in which an array runs on, is read wrongly, or its end is passed. */
  lemma {:induction false} BadFields(
    text: TextCheck, fs: seq<Field>, obj: Props, buf: bytes, index: nat, terminate: nat)
    requires WellFormed(fs) && ConformsFields(text, fs, obj) && !(LosslessFields(fs, obj) && Separated(fs, obj))
    requires EncodedAt(fs, obj, buf, index, terminate)
    ensures var r := DecodeFields(text, false, fs, buf, index, terminate);
            r.Ok? ==> r.value.0 != Restrict(fs, obj) || r.value.1 > terminate
    decreases fs, 0
  {
    hide EncodeField, DecodeField, Restrict, At, Follows, ConformsField, LosslessField, SeparatedField, WellFormedField, EncodedAt;
    EncodedStep(fs, obj, buf, index, terminate);
    var f, rest := fs[0], fs[1..];
    ConformsTyped(text, rest, obj);
    if IsRepeated(f.kind) && !Silent(f, obj) && !Follows(f, rest, obj) {
      Overrun(text, f, rest, obj, buf, index, terminate);
    } else if LosslessField(f, obj[f.name]) && SeparatedField(f, obj[f.name]) {
      FieldComplete(text, false, f, rest, obj, buf, index, terminate);
      BadFields(text, rest, obj, buf, index + |EncodeField(f, obj).value|, terminate);
    } else {
      BadField(text, f, rest, obj, buf, index, terminate);
    }
    if DecodeFields(text, false, fs, buf, index, terminate).Ok? {
      var (v, next) := DecodeField(text, false, f, buf, index, terminate).value;
      if v != obj[f.name] || DecodeFields(text, false, rest, buf, next, terminate).value.0 != Restrict(rest, obj) {
        WrongObject(text, fs, obj, buf, index, terminate);
      }
    }
  }

  lemma {:induction false} BadField(
    text: TextCheck, f: Field, rest: seq<Field>, obj: Props, buf: bytes, index: nat, terminate: nat)
    requires WellFormedField(f) && WellFormed(rest) && ConformsFields(text, rest, obj)
    requires IsRepeated(f.kind) && !Silent(f, obj) ==> Follows(f, rest, obj)
    requires f.name in obj && ConformsField(text, f, obj[f.name])
    requires !(LosslessField(f, obj[f.name]) && SeparatedField(f, obj[f.name]))
    requires EncodeField(f, obj).Ok? && At(buf, index, EncodeField(f, obj).value)
    requires EncodedAt(rest, obj, buf, index + |EncodeField(f, obj).value|, terminate)
    ensures var r := DecodeField(text, false, f, buf, index, terminate);
            r.Ok? ==> r.value.0 != obj[f.name]
    decreases f, 1
  {
    hide EncodeScalar, DecodeScalar, ReadU32, ReadKey, VarintBytes, WriteBytes, ConformsScalar,
         DecodeField, DecodeRepeated, DecodeItems, DecodeFields, EncodeFields, EncodeItems, EncodeRepeated, EncodePacked,
         At, Restrict, Follows, LosslessItem, SeparatedItem;
    var v := obj[f.name];
    ConformsNames(text, rest, obj);
    if f.kind.Scalar? {
      ScalarFieldLossy(text, f, obj, buf, index, terminate);
    } else if f.kind.Object? {
      var fs := f.kind.fields;
      var body := EncodeFields(fs, v.props).value;
      BodyAt(f, body, buf, index);
      var start := index + |Key(f)| + PrefixSize(body);
      BadFields(text, fs, v.props, buf, start, start + |body|);
      RestrictWhole(fs, v.props);
      ObjectFieldStep(text, false, f, buf, index, terminate, |Key(f)|, |body|, PrefixSize(body));
    } else {
      assert v.items != [];
      var end := index + |EncodeField(f, obj).value|;
      ArrayStarts(f, obj, buf, index, terminate);
      if f.kind.ObjectArray? {
        FieldStops(f, rest, obj, buf, end, terminate);
        BadItems(text, f, f.kind.fields, v.items, buf, index, terminate);
        ItemsFieldStep(text, false, f, buf, index, terminate);
      } else {
        RepeatedLossy(text, f, v.items, buf, index, terminate);
        RepeatedFieldStep(text, false, f, buf, index, terminate);
      }
    }
  }

  lemma ScalarFieldLossy(text: TextCheck, f: Field, obj: Props, buf: bytes, index: nat, terminate: nat)
    requires f.kind.Scalar? && f.number <= MAX_FIELD_NUMBER && f.name in obj
    requires ConformsScalar(text, f.kind.dt, obj[f.name]) && !LosslessScalar(f.kind.dt, obj[f.name])
    requires EncodeField(f, obj).Ok? && At(buf, index, EncodeField(f, obj).value)
    ensures var r := DecodeField(text, false, f, buf, index, terminate);
            r.Ok? ==> r.value.0 != obj[f.name]
  {
    hide EncodeScalar, DecodeScalar, ConformsScalar, LosslessScalar;
    var payload := EncodeScalar(f.kind.dt, obj[f.name]).value;
    assert EncodeField(f, obj).value == Key(f) + payload;
    AtSplit(buf, index, Key(f), payload);
    KeyComplete(f, buf, index);
    ScalarLossy(text, f.kind.dt, obj[f.name], buf, index + |Key(f)|);
  }

  /* ---- Main theorem ---- */

  /**
   For every well-formed schema and every message of it that encodes: decoding gives the message back if and only if
   no string of it starts with a byte order mark, no array of it holds an object that encodes to nothing, and no
   non-empty array of strings, byte strings or objects is directly followed, in the encoding, by a field whose key
   starts with the same byte. In these cases the strict decoder gives it back as well.
   */
  lemma RoundTripIff(text: TextCheck, fs: seq<Field>, obj: Props)
    requires WellFormed(fs) && Conforms(text, fs, obj) && Encode(fs, obj).Ok?
    ensures Decode(text, fs, Encode(fs, obj).value) == Ok(obj) <==> LosslessFields(fs, obj) && Separated(fs, obj)
    ensures LosslessFields(fs, obj) && Separated(fs, obj) ==> StrictDecode(text, fs, Encode(fs, obj).value) == Ok(obj)
  {
    hide DecodeFields, EncodeFields, LosslessFields, WellFormed, Restrict, ConformsFields, Separated;
    var buf := Encode(fs, obj).value;
    RestrictWhole(fs, obj);
    if LosslessFields(fs, obj) && Separated(fs, obj) {
      FieldsComplete(text, false, fs, obj, buf, 0, |buf|);
      FieldsComplete(text, true, fs, obj, buf, 0, |buf|);
    } else {
      BadFields(text, fs, obj, buf, 0, |buf|);
    }
  }

  /* ---- A condition on the schema alone ---- */

  /** Some property of the object leaves a trace in every encoding. */
  predicate Solid(fs: seq<Field>) {
    exists f | f in fs :: !IsArray(f.kind)
  }

  /** On every level, objects inside arrays are solid and there are no strings. */
  predicate SafeFields(fs: seq<Field>)
    decreases fs, 0
  {
    fs != [] ==> SafeField(fs[0]) && SafeFields(fs[1..])
  }

  predicate SafeField(f: Field)
    decreases f, 1
  {
    match f.kind
    case Scalar(dt) => !dt.Str?
    case ScalarArray(dt) => !dt.Str?
    case Object(fs) => SafeFields(fs)
    case ObjectArray(fs) => Solid(fs) && SafeFields(fs)
  }

  lemma {:induction false} SafeIsLossless(text: TextCheck, fs: seq<Field>, obj: Props)
    requires SafeFields(fs) && ConformsFields(text, fs, obj)
    ensures LosslessFields(fs, obj)
    decreases fs
  {
    if fs != [] {
      var f := fs[0];
      var v := obj[f.name];
      if f.kind.Object? {
        SafeIsLossless(text, f.kind.fields, v.props);
      } else if f.kind.ObjectArray? {
        forall x | x in v.items
          ensures LosslessItem(f.kind.fields, x)
        {
          SafeIsLossless(text, f.kind.fields, x.props);
        }
      }
      SafeIsLossless(text, fs[1..], obj);
    }
  }

  /** A schema without strings whose array objects are solid: every message of it comes back. */
  lemma SafeSchemaRoundTrip(text: TextCheck, fs: seq<Field>, obj: Props)
    requires WellFormed(fs) && SmallRepeated(fs) && SafeFields(fs)
    requires Conforms(text, fs, obj) && Encode(fs, obj).Ok?
    ensures Decode(text, fs, Encode(fs, obj).value) == Ok(obj)
  {
    hide WellFormed, ClashFree, LosslessFields, SafeFields, SmallRepeated, Encode, Decode, Separated;
    SmallRepeatedIsClashFree(fs);
    ClashFreeSeparates(fs, obj);
    SafeIsLossless(text, fs, obj);
    RoundTripIff(text, fs, obj);
  }
}
