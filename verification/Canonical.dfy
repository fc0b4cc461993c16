/** Which accepted byte strings are the only encoding of the message they decode to. */
module Canonical {
  import opened Wrappers
  import opened Varint
  import opened Schema
  import opened Codec
  import opened RoundTrip
  import opened Decoding
  import opened RoundTripExact

  /* ---- Scalars ---- */

  lemma BytesSound(buf: bytes, offset: nat)
    requires ReadBytes(buf, offset).Ok? && offset + ReadBytes(buf, offset).value.1 <= |buf|
    ensures var (data, n) := ReadBytes(buf, offset).value; WriteBytes(data) == Ok(buf[offset..offset + n])
  {
    var (len, k) := ReadU32(buf, offset).value;
    DelimitedBack(buf, offset, len, k);
  }

  /** What a reader accepts without clipping is what the writer writes. */
  lemma ScalarSound(text: TextCheck, dt: DataType, buf: bytes, offset: nat)
    requires DecodeScalar(text, true, dt, buf, offset).Ok?
    requires offset + DecodeScalar(text, true, dt, buf, offset).value.1 <= |buf|
    ensures var (v, n) := DecodeScalar(text, true, dt, buf, offset).value;
            ConformsScalar(text, dt, v) && EncodeScalar(dt, v) == Ok(buf[offset..offset + n])
  {
    hide VarintBytes, Scan;
    Widths();
    var (v, n) := DecodeScalar(text, true, dt, buf, offset).value;
    match dt
    case UInt32 => ReadVarintIff(buf, offset, W32, v.n, n);
    case UInt64 => ReadVarintIff(buf, offset, W64, v.n, n);
    case SInt32 => ReadSignedIff(buf, offset, W32, MAX_SINT32, v.n, n);
    case SInt64 => ReadSignedIff(buf, offset, W64, MAX_SINT64, v.n, n);
    case Str => BytesSound(buf, offset);
    case Bytes => BytesSound(buf, offset);
    case Boolean => assert buf[offset..offset + 1] == [buf[offset]];
  }

  lemma ElementSound(text: TextCheck, dt: DataType, buf: bytes, offset: nat)
    requires text([]) && LengthDelimited(dt) && DecodeElement(text, true, dt, buf, offset).Ok?
    requires offset + DecodeElement(text, true, dt, buf, offset).value.1 <= |buf|
    ensures var (v, n) := DecodeElement(text, true, dt, buf, offset).value;
            ConformsScalar(text, dt, v) && EncodeScalar(dt, v) == Ok(buf[offset..offset + n])
  {
    hide VarintBytes, Scan, DecodeScalar, ReadU32;
    var (len, k) := ReadU32(buf, offset).value;
    if len == 0 {
      DelimitedBack(buf, offset, 0, k);
      assert buf[offset + k..offset + k] == [];
    } else {
      ScalarSound(text, dt, buf, offset);
    }
  }

  /* ---- Keys and slices ---- */

  lemma KeySound(f: Field, buf: bytes, index: nat, k: nat)
    requires ReadU32(buf, index) == Ok((KeyValue(f), k))
    ensures index + k <= |buf| && buf[index..index + k] == Key(f) && k == |Key(f)|
  {
    hide ReadU32, VarintBytes;
    ReadU32Iff(buf, index, KeyValue(f), k);
  }

  lemma ExpectKeySound(f: Field, buf: bytes, index: nat)
    requires ExpectKey(f, buf, index).Ok?
    ensures var k := ExpectKey(f, buf, index).value;
            index + k <= |buf| && buf[index..index + k] == Key(f)
  {
    hide ReadU32, VarintBytes;
    var (key, k) := ReadU32(buf, index).value;
    assert key == KeyValue(f);
    KeySound(f, buf, index, k);
  }

  lemma Slices(buf: bytes, a: nat, b: nat, c: nat)
    requires a <= b <= c <= |buf|
    ensures buf[a..c] == buf[a..b] + buf[b..c]
  {
  }

  /* ---- Array loops ---- */

  lemma {:induction false} RepeatedSound(
    text: TextCheck, f: Field, buf: bytes, index: nat, terminate: nat, start: byte)
    requires text([]) && f.kind.ScalarArray? && LengthDelimited(f.kind.dt)
    requires DecodeRepeated(text, true, f.kind.dt, KeyValue(f), buf, index, terminate, start).Ok?
    requires DecodeRepeated(text, true, f.kind.dt, KeyValue(f), buf, index, terminate, start).value.1 <= |buf|
    ensures var (items, next) := DecodeRepeated(text, true, f.kind.dt, KeyValue(f), buf, index, terminate, start).value;
            && index <= next && EncodeRepeated(f.kind.dt, Key(f), items) == Ok(buf[index..next])
            && forall x | x in items :: ConformsScalar(text, f.kind.dt, x)
    decreases |buf| - index
  {
    hide ReadU32, DecodeElement, EncodeScalar, ConformsScalar, KeyValue, Key;
    RepeatedMonotone(text, true, f.kind.dt, KeyValue(f), buf, index, terminate, start);
    if More(buf, index, terminate, start) {
      var dt := f.kind.dt;
      var (items, next) := DecodeRepeated(text, true, dt, KeyValue(f), buf, index, terminate, start).value;
      var k := ReadU32(buf, index).value.1;
      var n := DecodeElement(text, true, dt, buf, index + k).value.1;
      KeySound(f, buf, index, k);
      RepeatedMonotone(text, true, dt, KeyValue(f), buf, index + k + n, terminate, start);
      ElementSound(text, dt, buf, index + k);
      RepeatedSound(text, f, buf, index + k + n, terminate, start);
      Slices(buf, index, index + k, index + k + n);
      Slices(buf, index, index + k + n, next);
    }
  }

  lemma {:induction false} PackedSound(text: TextCheck, dt: DataType, buf: bytes, index: nat, end: nat)
    requires DecodePacked(text, true, dt, buf, index, end).Ok?
    requires DecodePacked(text, true, dt, buf, index, end).value.1 <= |buf|
    ensures var (items, next) := DecodePacked(text, true, dt, buf, index, end).value;
            && index <= next && Contents(dt, items) == Ok(buf[index..next])
            && (forall x | x in items :: ConformsScalar(text, dt, x)) && (index < end ==> items != [])
    decreases end - index
  {
    hide DecodeScalar, EncodeScalar, ConformsScalar;
    PackedMonotone(text, true, dt, buf, index, end);
    if index < end {
      var (items, next) := DecodePacked(text, true, dt, buf, index, end).value;
      var (item, n) := DecodeScalar(text, true, dt, buf, index).value;
      PackedMonotone(text, true, dt, buf, index + n, end);
      ScalarSound(text, dt, buf, index);
      PackedSound(text, dt, buf, index + n, end);
      Slices(buf, index, index + n, next);
      var rest := DecodePacked(text, true, dt, buf, index + n, end).value.0;
      assert items == [item] + rest;
      assert items[1..] == rest;
    } else {
      assert buf[index..index] == [];
    }
  }

  /* ---- The mutual induction: what the strict decoder accepts is canonical ---- */

  lemma {:induction false} ConformsFrame(text: TextCheck, fs: seq<Field>, a: Props, b: Props)
    requires forall f | f in fs :: f.name in a && f.name in b && a[f.name] == b[f.name]
    requires ConformsFields(text, fs, a)
    ensures ConformsFields(text, fs, b)
    decreases fs
  {
    if fs != [] {
      ConformsFrame(text, fs[1..], a, b);
    }
  }

  lemma {:induction false} FieldsSound(text: TextCheck, fs: seq<Field>, buf: bytes, index: nat, terminate: nat)
    requires text([]) && WellFormed(fs)
    requires DecodeFields(text, true, fs, buf, index, terminate).Ok?
    requires DecodeFields(text, true, fs, buf, index, terminate).value.1 <= |buf|
    ensures var (obj, end) := DecodeFields(text, true, fs, buf, index, terminate).value;
            && index <= end && obj.Keys == Names(fs)
            && ConformsFields(text, fs, obj) && EncodeFields(fs, obj) == Ok(buf[index..end])
    decreases fs, 0
  {
    hide EncodeField, DecodeField, ConformsField;
    FieldsMonotone(text, true, fs, buf, index, terminate);
    DecodedKeys(text, true, fs, buf, index, terminate);
    if fs != [] {
      var f, rest := fs[0], fs[1..];
      var (v, next) := DecodeField(text, true, f, buf, index, terminate).value;
      var (props, end) := DecodeFields(text, true, rest, buf, next, terminate).value;
      var obj := map[f.name := v] + props;
      FieldsMonotone(text, true, rest, buf, next, terminate);
      FieldMonotone(text, true, f, buf, index, terminate);
      DecodedKeys(text, true, rest, buf, next, terminate);
      NotInRest(fs);
      assert obj[f.name] == v;
      FieldSound(text, f, obj, buf, index, terminate);
      FieldsSound(text, rest, buf, next, terminate);
      assert forall g | g in rest :: g.name in Names(rest);
      EncodeFrame(rest, props, obj);
      ConformsFrame(text, rest, props, obj);
      Slices(buf, index, next, end);
    } else {
      assert buf[index..index] == [];
    }
  }

  lemma ScalarFieldSound(text: TextCheck, f: Field, obj: Props, buf: bytes, index: nat, terminate: nat)
    requires text([]) && WellFormedField(f)
    requires DecodeField(text, true, f, buf, index, terminate).Ok?
    requires var (v, next) := DecodeField(text, true, f, buf, index, terminate).value;
             index <= next <= |buf| && f.name in obj && obj[f.name] == v
    requires f.kind.Scalar?
    ensures var (v, next) := DecodeField(text, true, f, buf, index, terminate).value;
            ConformsField(text, f, v) && EncodeField(f, obj) == Ok(buf[index..next])
  {
    hide ReadU32, VarintBytes, ExpectKey, DecodeScalar, EncodeScalar, ConformsScalar, KeyValue, Key, WriteBytes,
         DecodeRepeated, DecodePacked, DecodeItems, DecodeFields, EncodeFields, EncodeItems, EncodeRepeated, Contents;
    var next := DecodeField(text, true, f, buf, index, terminate).value.1;
    var k := ExpectKey(f, buf, index).value;
    ExpectKeySound(f, buf, index);
    ScalarSound(text, f.kind.dt, buf, index + k);
    Slices(buf, index, index + k, next);
  }

  lemma ScalarArraySound(text: TextCheck, f: Field, obj: Props, buf: bytes, index: nat, terminate: nat)
    requires text([]) && WellFormedField(f)
    requires DecodeField(text, true, f, buf, index, terminate).Ok?
    requires var (v, next) := DecodeField(text, true, f, buf, index, terminate).value;
             index <= next <= |buf| && f.name in obj && obj[f.name] == v
    requires f.kind.ScalarArray? && index < terminate && index < |buf| && obj[f.name] != Arr([])
    ensures var (v, next) := DecodeField(text, true, f, buf, index, terminate).value;
            ConformsField(text, f, v) && EncodeField(f, obj) == Ok(buf[index..next])
  {
    hide ReadU32, VarintBytes, ExpectKey, DecodeScalar, EncodeScalar, ConformsScalar, KeyValue, Key, WriteBytes,
         DecodeRepeated, DecodePacked, DecodeItems, DecodeFields, EncodeFields, EncodeItems, EncodeRepeated, Contents;
    var next := DecodeField(text, true, f, buf, index, terminate).value.1;
    if LengthDelimited(f.kind.dt) {
      RepeatedSound(text, f, buf, index, terminate, buf[index]);
    } else {
      var k := ReadU32(buf, index).value.1;
      var (size, n) := ReadU32(buf, index + k).value;
      KeySound(f, buf, index, k);
      PackedSound(text, f.kind.dt, buf, index + k + n, index + k + n + size);
      DelimitedBack(buf, index + k, size, n);
      Slices(buf, index, index + k, next);
    }
  }

  lemma {:induction false} ObjectFieldSound(text: TextCheck, f: Field, obj: Props, buf: bytes, index: nat, terminate: nat)
    requires text([]) && WellFormedField(f)
    requires DecodeField(text, true, f, buf, index, terminate).Ok?
    requires var (v, next) := DecodeField(text, true, f, buf, index, terminate).value;
             index <= next <= |buf| && f.name in obj && obj[f.name] == v
    requires f.kind.Object?
    ensures var (v, next) := DecodeField(text, true, f, buf, index, terminate).value;
            ConformsField(text, f, v) && EncodeField(f, obj) == Ok(buf[index..next])
    decreases f, 0
  {
    hide ReadU32, VarintBytes, ExpectKey, DecodeScalar, EncodeScalar, ConformsScalar, KeyValue, Key, WriteBytes,
         DecodeRepeated, DecodePacked, DecodeItems, DecodeFields, EncodeFields, EncodeItems, EncodeRepeated, Contents;
    var next := DecodeField(text, true, f, buf, index, terminate).value.1;
    var k := ExpectKey(f, buf, index).value;
    var (size, n) := ReadU32(buf, index + k).value;
    ExpectKeySound(f, buf, index);
    FieldsSound(text, f.kind.fields, buf, index + k + n, next);
    DelimitedBack(buf, index + k, size, n);
    Slices(buf, index, index + k, next);
  }

  lemma {:induction false} ObjectArraySound(text: TextCheck, f: Field, obj: Props, buf: bytes, index: nat, terminate: nat)
    requires text([]) && WellFormedField(f)
    requires DecodeField(text, true, f, buf, index, terminate).Ok?
    requires var (v, next) := DecodeField(text, true, f, buf, index, terminate).value;
             index <= next <= |buf| && f.name in obj && obj[f.name] == v
    requires f.kind.ObjectArray? && index < terminate && index < |buf| && obj[f.name] != Arr([])
    ensures var (v, next) := DecodeField(text, true, f, buf, index, terminate).value;
            ConformsField(text, f, v) && EncodeField(f, obj) == Ok(buf[index..next])
    decreases f, 0
  {
    hide ReadU32, VarintBytes, ExpectKey, DecodeScalar, EncodeScalar, ConformsScalar, KeyValue, Key, WriteBytes,
         DecodeRepeated, DecodePacked, DecodeItems, DecodeFields, EncodeFields, EncodeItems, EncodeRepeated, Contents;
    ItemsSound(text, f, f.kind.fields, buf, index, terminate, buf[index]);
  }

  lemma {:induction false} FieldSound(text: TextCheck, f: Field, obj: Props, buf: bytes, index: nat, terminate: nat)
    requires text([]) && WellFormedField(f)
    requires DecodeField(text, true, f, buf, index, terminate).Ok?
    requires var (v, next) := DecodeField(text, true, f, buf, index, terminate).value;
             index <= next <= |buf| && f.name in obj && obj[f.name] == v
    ensures var (v, next) := DecodeField(text, true, f, buf, index, terminate).value;
            ConformsField(text, f, v) && EncodeField(f, obj) == Ok(buf[index..next])
    decreases f, 1
  {
    hide ReadU32, EncodeField, DecodeArray, ConformsField, WellFormedField;
    var (v, next) := DecodeField(text, true, f, buf, index, terminate).value;
    if f.kind.Scalar? {
      ScalarFieldSound(text, f, obj, buf, index, terminate);
    } else if f.kind.Object? {
      ObjectFieldSound(text, f, obj, buf, index, terminate);
    } else if index < terminate && index < |buf| && v != Arr([]) {
      if f.kind.ObjectArray? {
        ObjectArraySound(text, f, obj, buf, index, terminate);
      } else {
        ScalarArraySound(text, f, obj, buf, index, terminate);
      }
    } else {
      NothingReadSound(text, f, obj, buf, index, terminate);
    }
  }

  lemma NothingReadSound(text: TextCheck, f: Field, obj: Props, buf: bytes, index: nat, terminate: nat)
    requires text([]) && WellFormedField(f)
    requires DecodeField(text, true, f, buf, index, terminate).Ok?
    requires var (v, next) := DecodeField(text, true, f, buf, index, terminate).value;
             index <= next <= |buf| && f.name in obj && obj[f.name] == v
    requires IsArray(f.kind) && (index >= terminate || index >= |buf| || obj[f.name] == Arr([]))
    ensures var (v, next) := DecodeField(text, true, f, buf, index, terminate).value;
            ConformsField(text, f, v) && EncodeField(f, obj) == Ok(buf[index..next])
  {
    hide ReadU32, DecodeRepeated, DecodePacked, DecodeItems;
    EmptyArraySound(text, f, buf, index, terminate);
    EmptyArray(f, obj);
    assert buf[index..index] == [];
  }

  /** Strict arrays are only empty when nothing was read for them. */
  lemma EmptyArraySound(text: TextCheck, f: Field, buf: bytes, index: nat, terminate: nat)
    requires IsArray(f.kind) && DecodeField(text, true, f, buf, index, terminate).Ok?
    ensures var (v, next) := DecodeField(text, true, f, buf, index, terminate).value;
            next == index || v != Arr([])
  {
    hide ReadU32, DecodeObject, DecodeElement, DecodeScalar, KeyValue;
    if index < terminate && index < |buf| {
      var (key, k) := ReadU32(buf, index).value;
      if ReadKey(key).value.0 == f.number {
        if f.kind.ObjectArray? {
          assert DecodeItems(text, true, f.kind.fields, KeyValue(f), buf, index, terminate, buf[index]).value.0 != [];
        } else if LengthDelimited(f.kind.dt) {
          assert DecodeRepeated(text, true, f.kind.dt, KeyValue(f), buf, index, terminate, buf[index]).value.0 != [];
        } else {
          var (size, n) := ReadU32(buf, index + k).value;
          assert DecodePacked(text, true, f.kind.dt, buf, index + k + n, index + k + n + size).value.0 != [];
        }
      }
    }
  }

  lemma {:induction false} ItemsSound(
    text: TextCheck, f: Field, fs: seq<Field>, buf: bytes, index: nat, terminate: nat, start: byte)
    requires text([]) && WellFormed(fs)
    requires DecodeItems(text, true, fs, KeyValue(f), buf, index, terminate, start).Ok?
    requires DecodeItems(text, true, fs, KeyValue(f), buf, index, terminate, start).value.1 <= |buf|
    ensures var (items, next) := DecodeItems(text, true, fs, KeyValue(f), buf, index, terminate, start).value;
            && index <= next && ItemsConform(text, fs, items)
            && EncodeItems(fs, Key(f), items) == Ok(buf[index..next])
    decreases fs, 1, |buf| - index
  {
    hide ReadU32, VarintBytes, KeyValue, Key, WriteBytes, DecodeFields, EncodeFields, ConformsFields, WellFormed, More;
    ItemsMonotone(text, true, fs, KeyValue(f), buf, index, terminate, start);
    if More(buf, index, terminate, start) {
      var (items, next) := DecodeItems(text, true, fs, KeyValue(f), buf, index, terminate, start).value;
      var k := ReadU32(buf, index).value.1;
      var (size, n) := ReadU32(buf, index + k).value;
      var body := index + k + n;
      KeySound(f, buf, index, k);
      ItemsMonotone(text, true, fs, KeyValue(f), buf, body + size, terminate, start);
      FieldsSound(text, fs, buf, body, body + size);
      DelimitedBack(buf, index + k, size, n);
      ItemsSound(text, f, fs, buf, body + size, terminate, start);
      Slices(buf, index, index + k, body + size);
      Slices(buf, index, body + size, next);
      var rest := DecodeItems(text, true, fs, KeyValue(f), buf, body + size, terminate, start).value.0;
      assert items[1..] == rest;
    } else {
      assert buf[index..index] == [];
    }
  }

  /* ---- The strict decoder accepts less, and agrees ---- */

  lemma {:induction false} RepeatedRefines(
    text: TextCheck, dt: DataType, expected: nat, buf: bytes, index: nat, terminate: nat, start: byte)
    requires LengthDelimited(dt)
    requires DecodeRepeated(text, true, dt, expected, buf, index, terminate, start).Ok?
    ensures DecodeRepeated(text, false, dt, expected, buf, index, terminate, start)
         == DecodeRepeated(text, true, dt, expected, buf, index, terminate, start)
    decreases |buf| - index
  {
    hide ReadU32, ReadBytes, ReadVarint, ReadSigned;
    if More(buf, index, terminate, start) {
      var k := ReadU32(buf, index).value.1;
      var n := DecodeElement(text, true, dt, buf, index + k).value.1;
      RepeatedRefines(text, dt, expected, buf, index + k + n, terminate, start);
    }
  }

  lemma ScalarRefines(text: TextCheck, dt: DataType, buf: bytes, index: nat)
    requires DecodeScalar(text, true, dt, buf, index).Ok?
    ensures DecodeScalar(text, false, dt, buf, index) == DecodeScalar(text, true, dt, buf, index)
  {
    hide ReadU32, ReadBytes, ReadVarint, ReadSigned;
  }

  lemma {:induction false} PackedRefines(text: TextCheck, dt: DataType, buf: bytes, index: nat, end: nat)
    requires DecodePacked(text, true, dt, buf, index, end).Ok?
    ensures DecodePacked(text, false, dt, buf, index, end) == DecodePacked(text, true, dt, buf, index, end)
    decreases end - index
  {
    hide DecodeScalar;
    if index < end {
      ScalarRefines(text, dt, buf, index);
      var n := DecodeScalar(text, true, dt, buf, index).value.1;
      PackedRefines(text, dt, buf, index + n, end);
    }
  }

  lemma {:induction false} FieldsRefine(text: TextCheck, fs: seq<Field>, buf: bytes, index: nat, terminate: nat)
    requires DecodeFields(text, true, fs, buf, index, terminate).Ok?
    ensures DecodeFields(text, false, fs, buf, index, terminate) == DecodeFields(text, true, fs, buf, index, terminate)
    decreases fs, 0
  {
    hide DecodeField;
    if fs != [] {
      FieldRefines(text, fs[0], buf, index, terminate);
      FieldsRefine(text, fs[1..], buf, DecodeField(text, true, fs[0], buf, index, terminate).value.1, terminate);
    }
  }

  lemma {:induction false} FieldRefines(text: TextCheck, f: Field, buf: bytes, index: nat, terminate: nat)
    requires DecodeField(text, true, f, buf, index, terminate).Ok?
    ensures DecodeField(text, false, f, buf, index, terminate) == DecodeField(text, true, f, buf, index, terminate)
    decreases f, 1
  {
    hide ReadU32, ReadBytes, ReadVarint, ReadSigned, DecodeFields, DecodeRepeated, DecodePacked, DecodeItems;
    if f.kind.Object? {
      var k := ExpectKey(f, buf, index).value;
      var (size, n) := ReadU32(buf, index + k).value;
      FieldsRefine(text, f.kind.fields, buf, index + k + n, index + k + n + size);
    } else if IsArray(f.kind) && index < terminate && index < |buf| {
      var (key, k) := ReadU32(buf, index).value;
      if ReadKey(key).value.0 == f.number {
        if f.kind.ObjectArray? {
          ItemsRefine(text, f.kind.fields, KeyValue(f), buf, index, terminate, buf[index]);
        } else if LengthDelimited(f.kind.dt) {
          RepeatedRefines(text, f.kind.dt, KeyValue(f), buf, index, terminate, buf[index]);
        } else {
          var (size, n) := ReadU32(buf, index + k).value;
          PackedRefines(text, f.kind.dt, buf, index + k + n, index + k + n + size);
        }
      }
    }
  }

  lemma {:induction false} ItemsRefine(
    text: TextCheck, fs: seq<Field>, expected: nat, buf: bytes, index: nat, terminate: nat, start: byte)
    requires DecodeItems(text, true, fs, expected, buf, index, terminate, start).Ok?
    ensures DecodeItems(text, false, fs, expected, buf, index, terminate, start)
         == DecodeItems(text, true, fs, expected, buf, index, terminate, start)
    decreases fs, 1, |buf| - index
  {
    hide ReadU32, DecodeFields;
    if More(buf, index, terminate, start) {
      var k := ReadU32(buf, index).value.1;
      var (size, n) := ReadU32(buf, index + k).value;
      FieldsRefine(text, fs, buf, index + k + n, index + k + n + size);
      ItemsRefine(text, fs, expected, buf, index + k + n + size, terminate, start);
    }
  }

  /* ---- Whatever is accepted is a message of the schema ---- */

  lemma ScalarConforms(text: TextCheck, strict: bool, dt: DataType, buf: bytes, offset: nat)
    requires DecodeScalar(text, strict, dt, buf, offset).Ok?
    ensures ConformsScalar(text, dt, DecodeScalar(text, strict, dt, buf, offset).value.0)
  {
    hide VarintBytes, Scan, ReadBytes;
    Widths();
    var (v, n) := DecodeScalar(text, strict, dt, buf, offset).value;
    match dt
    case UInt32 => ReadVarintIff(buf, offset, W32, v.n, n);
    case UInt64 => ReadVarintIff(buf, offset, W64, v.n, n);
    case SInt32 => ReadSignedIff(buf, offset, W32, MAX_SINT32, v.n, n);
    case SInt64 => ReadSignedIff(buf, offset, W64, MAX_SINT64, v.n, n);
    case _ =>
  }

  lemma {:induction false} RepeatedConforms(
    text: TextCheck, strict: bool, dt: DataType, expected: nat, buf: bytes, index: nat, terminate: nat, start: byte)
    requires text([]) && LengthDelimited(dt)
    requires DecodeRepeated(text, strict, dt, expected, buf, index, terminate, start).Ok?
    ensures forall x | x in DecodeRepeated(text, strict, dt, expected, buf, index, terminate, start).value.0 ::
              ConformsScalar(text, dt, x)
    decreases |buf| - index
  {
    hide ReadU32, DecodeScalar;
    if More(buf, index, terminate, start) {
      var k := ReadU32(buf, index).value.1;
      var n := DecodeElement(text, strict, dt, buf, index + k).value.1;
      if ReadU32(buf, index + k).value.0 != 0 {
        ScalarConforms(text, strict, dt, buf, index + k);
      }
      RepeatedConforms(text, strict, dt, expected, buf, index + k + n, terminate, start);
    }
  }

  lemma {:induction false} PackedConforms(text: TextCheck, strict: bool, dt: DataType, buf: bytes, index: nat, end: nat)
    requires DecodePacked(text, strict, dt, buf, index, end).Ok?
    ensures forall x | x in DecodePacked(text, strict, dt, buf, index, end).value.0 :: ConformsScalar(text, dt, x)
    decreases end - index
  {
    hide DecodeScalar, ConformsScalar;
    if index < end {
      ScalarConforms(text, strict, dt, buf, index);
      PackedConforms(text, strict, dt, buf, index + DecodeScalar(text, strict, dt, buf, index).value.1, end);
    }
  }

  lemma {:induction false} FieldsConform(text: TextCheck, strict: bool, fs: seq<Field>, buf: bytes, index: nat, terminate: nat)
    requires text([]) && WellFormed(fs)
    requires DecodeFields(text, strict, fs, buf, index, terminate).Ok?
    ensures var obj := DecodeFields(text, strict, fs, buf, index, terminate).value.0;
            obj.Keys == Names(fs) && ConformsFields(text, fs, obj)
    decreases fs, 0
  {
    hide DecodeField, ConformsField;
    DecodedKeys(text, strict, fs, buf, index, terminate);
    if fs != [] {
      var f, rest := fs[0], fs[1..];
      var (v, next) := DecodeField(text, strict, f, buf, index, terminate).value;
      var props := DecodeFields(text, strict, rest, buf, next, terminate).value.0;
      var obj := map[f.name := v] + props;
      DecodedKeys(text, strict, rest, buf, next, terminate);
      NotInRest(fs);
      assert obj[f.name] == v;
      FieldConforms(text, strict, f, buf, index, terminate);
      FieldsConform(text, strict, rest, buf, next, terminate);
      assert forall g | g in rest :: g.name in Names(rest);
      ConformsFrame(text, rest, props, obj);
    }
  }

  lemma {:induction false} FieldConforms(text: TextCheck, strict: bool, f: Field, buf: bytes, index: nat, terminate: nat)
    requires text([]) && WellFormedField(f)
    requires DecodeField(text, strict, f, buf, index, terminate).Ok?
    ensures ConformsField(text, f, DecodeField(text, strict, f, buf, index, terminate).value.0)
    decreases f, 1
  {
    hide ReadU32, ExpectKey, DecodeScalar, ConformsScalar, KeyValue,
         DecodeRepeated, DecodePacked, DecodeItems, DecodeFields, ConformsFields;
    if f.kind.Scalar? {
      ScalarConforms(text, strict, f.kind.dt, buf, index + ExpectKey(f, buf, index).value);
    } else if f.kind.Object? {
      var k := ExpectKey(f, buf, index).value;
      var (size, n) := ReadU32(buf, index + k).value;
      FieldsConform(text, strict, f.kind.fields, buf, index + k + n, index + k + n + size);
    } else if index < terminate && index < |buf| {
      var (key, k) := ReadU32(buf, index).value;
      if ReadKey(key).value.0 == f.number {
        if f.kind.ObjectArray? {
          ItemsConformed(text, strict, f.kind.fields, KeyValue(f), buf, index, terminate, buf[index]);
        } else if LengthDelimited(f.kind.dt) {
          RepeatedConforms(text, strict, f.kind.dt, KeyValue(f), buf, index, terminate, buf[index]);
        } else {
          var (size, n) := ReadU32(buf, index + k).value;
          PackedConforms(text, strict, f.kind.dt, buf, index + k + n, index + k + n + size);
        }
      }
    }
  }

  lemma {:induction false} ItemsConformed(
    text: TextCheck, strict: bool, fs: seq<Field>, expected: nat, buf: bytes, index: nat, terminate: nat, start: byte)
    requires text([]) && WellFormed(fs)
    requires DecodeItems(text, strict, fs, expected, buf, index, terminate, start).Ok?
    ensures ItemsConform(text, fs, DecodeItems(text, strict, fs, expected, buf, index, terminate, start).value.0)
    decreases fs, 1, |buf| - index
  {
    hide ReadU32, DecodeFields, ConformsFields, WellFormed;
    if More(buf, index, terminate, start) {
      var k := ReadU32(buf, index).value.1;
      var (size, n) := ReadU32(buf, index + k).value;
      if size != 0 {
        FieldsConform(text, strict, fs, buf, index + k + n, index + k + n + size);
      }
      ItemsConformed(text, strict, fs, expected, buf, index + k + n + size, terminate, start);
    }
  }

  /* ---- Main theorems ---- */

  /** Whatever the strict decoder accepts is the encoding of a message of the schema, for every well-formed schema. */
  lemma StrictIsCanonical(text: TextCheck, fs: seq<Field>, buf: bytes)
    requires text([]) && WellFormed(fs) && StrictDecode(text, fs, buf).Ok?
    ensures var obj := StrictDecode(text, fs, buf).value;
            && Decode(text, fs, buf) == Ok(obj)
            && Conforms(text, fs, obj) && Encode(fs, obj) == Ok(buf)
  {
    hide WellFormed, DecodeFields, EncodeFields, ConformsFields;
    FieldsSound(text, fs, buf, 0, |buf|);
    FieldsRefine(text, fs, buf, 0, |buf|);
    assert buf[0..|buf|] == buf;
  }

  /**
   For every well-formed schema: a byte string the decoder accepts re-encodes to itself if and only if it passes the
   checks the decoder omits. Either way the result is a message of the schema.
   */
  lemma CanonicalIff(text: TextCheck, fs: seq<Field>, buf: bytes)
    requires text([]) && WellFormed(fs) && Decode(text, fs, buf).Ok?
    ensures Conforms(text, fs, Decode(text, fs, buf).value)
    ensures Encode(fs, Decode(text, fs, buf).value) == Ok(buf) <==> StrictDecode(text, fs, buf).Ok?
  {
    hide WellFormed, DecodeFields, EncodeFields, ConformsFields, LosslessFields, Separated;
    var obj := Decode(text, fs, buf).value;
    FieldsConform(text, false, fs, buf, 0, |buf|);
    if Encode(fs, obj) == Ok(buf) {
      RoundTripIff(text, fs, obj);
    }
    if StrictDecode(text, fs, buf).Ok? {
      StrictIsCanonical(text, fs, buf);
    }
  }
}
