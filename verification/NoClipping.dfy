/**
 Whatever the decoder accepts it has read from within the buffer: no byte string was cut off at the end, and nothing
 behind the end would have made a difference.
 */
module NoClipping {
  import opened Wrappers
  import opened Varint
  import opened Schema
  import opened Codec
  import opened Decoding

  lemma AtExtends(buf: bytes, more: bytes, index: nat, e: bytes)
    requires At(buf, index, e)
    ensures At(buf + more, index, e)
  {
    assert (buf + more)[index..index + |e|] == buf[index..index + |e|];
  }

  lemma U32Extends(buf: bytes, more: bytes, index: nat)
    requires ReadU32(buf, index).Ok?
    ensures ReadU32(buf + more, index) == ReadU32(buf, index)
  {
    hide ReadU32, VarintBytes, At;
    var (v, n) := ReadU32(buf, index).value;
    ReadU32Iff(buf, index, v, n);
    AtExtends(buf, more, index, VarintBytes(v));
    ReadU32Iff(buf + more, index, v, n);
  }

  lemma VarintExtends(buf: bytes, more: bytes, index: nat, w: Width)
    requires w.Valid() && ReadVarint(buf, index, w).Ok?
    ensures ReadVarint(buf + more, index, w) == ReadVarint(buf, index, w)
  {
    hide ReadVarint, VarintBytes, At;
    var (v, n) := ReadVarint(buf, index, w).value;
    ReadVarintIff(buf, index, w, v, n);
    AtExtends(buf, more, index, VarintBytes(v));
    ReadVarintIff(buf + more, index, w, v, n);
  }

  lemma SignedExtends(buf: bytes, more: bytes, index: nat, w: Width)
    requires w.Valid() && ReadSigned(buf, index, w).Ok?
    ensures ReadSigned(buf + more, index, w) == ReadSigned(buf, index, w)
  {
    hide ReadVarint;
    VarintExtends(buf, more, index, w);
  }

  lemma BytesExtend(buf: bytes, more: bytes, index: nat)
    requires ReadBytes(buf, index).Ok? && index + ReadBytes(buf, index).value.1 <= |buf|
    ensures ReadBytes(buf + more, index) == ReadBytes(buf, index)
  {
    hide ReadU32;
    U32Extends(buf, more, index);
    var (len, k) := ReadU32(buf, index).value;
    assert (buf + more)[index + k..index + k + len] == buf[index + k..index + k + len];
  }

  lemma ScalarExtends(text: TextCheck, dt: DataType, buf: bytes, more: bytes, index: nat)
    requires DecodeScalar(text, false, dt, buf, index).Ok? && index + DecodeScalar(text, false, dt, buf, index).value.1 <= |buf|
    ensures DecodeScalar(text, false, dt, buf + more, index) == DecodeScalar(text, false, dt, buf, index)
  {
    hide ReadVarint, ReadSigned, ReadBytes;
    Widths();
    match dt
    case UInt32 => VarintExtends(buf, more, index, W32);
    case UInt64 => VarintExtends(buf, more, index, W64);
    case SInt32 => SignedExtends(buf, more, index, W32);
    case SInt64 => SignedExtends(buf, more, index, W64);
    case Str => BytesExtend(buf, more, index);
    case Bytes => BytesExtend(buf, more, index);
    case Boolean =>
  }

  lemma ElementExtends(text: TextCheck, dt: DataType, buf: bytes, more: bytes, index: nat)
    requires LengthDelimited(dt) && DecodeElement(text, false, dt, buf, index).Ok?
    requires index + DecodeElement(text, false, dt, buf, index).value.1 <= |buf|
    ensures DecodeElement(text, false, dt, buf + more, index) == DecodeElement(text, false, dt, buf, index)
  {
    hide ReadU32, DecodeScalar;
    U32Extends(buf, more, index);
    if ReadU32(buf, index).value.0 != 0 {
      ScalarExtends(text, dt, buf, more, index);
    }
  }

  /** The loops stop at the same place. */
  lemma MoreExtends(buf: bytes, more: bytes, index: nat, terminate: nat, start: byte)
    requires index <= terminate <= |buf|
    ensures More(buf + more, index, terminate, start) == More(buf, index, terminate, start)
  {
  }

  lemma {:induction false} RepeatedExtends(
    text: TextCheck, dt: DataType, expected: nat, buf: bytes, more: bytes, index: nat, terminate: nat, start: byte)
    requires LengthDelimited(dt) && terminate <= |buf|
    requires DecodeRepeated(text, false, dt, expected, buf, index, terminate, start).Ok?
    requires DecodeRepeated(text, false, dt, expected, buf, index, terminate, start).value.1 <= terminate
    ensures DecodeRepeated(text, false, dt, expected, buf + more, index, terminate, start)
         == DecodeRepeated(text, false, dt, expected, buf, index, terminate, start)
    decreases |buf| - index
  {
    hide ReadU32, DecodeElement, More;
    RepeatedMonotone(text, false, dt, expected, buf, index, terminate, start);
    MoreExtends(buf, more, index, terminate, start);
    if More(buf, index, terminate, start) {
      MoreInside(buf, index, terminate, start);
      var k := ReadU32(buf, index).value.1;
      var n := DecodeElement(text, false, dt, buf, index + k).value.1;
      RepeatedMonotone(text, false, dt, expected, buf, index + k + n, terminate, start);
      U32Extends(buf, more, index);
      ElementExtends(text, dt, buf, more, index + k);
      RepeatedExtends(text, dt, expected, buf, more, index + k + n, terminate, start);
    }
  }

  lemma MoreInside(buf: bytes, index: nat, terminate: nat, start: byte)
    requires More(buf, index, terminate, start)
    ensures index < |buf|
  {
  }

  lemma {:induction false} PackedExtends(text: TextCheck, dt: DataType, buf: bytes, more: bytes, index: nat, end: nat)
    requires DecodePacked(text, false, dt, buf, index, end).Ok?
    requires DecodePacked(text, false, dt, buf, index, end).value.1 <= |buf|
    ensures DecodePacked(text, false, dt, buf + more, index, end) == DecodePacked(text, false, dt, buf, index, end)
    decreases end - index
  {
    hide DecodeScalar;
    if index < end {
      var n := DecodeScalar(text, false, dt, buf, index).value.1;
      PackedMonotone(text, false, dt, buf, index + n, end);
      ScalarExtends(text, dt, buf, more, index);
      PackedExtends(text, dt, buf, more, index + n, end);
    }
  }

  lemma ExpectKeyExtends(f: Field, buf: bytes, more: bytes, index: nat)
    requires ExpectKey(f, buf, index).Ok?
    ensures ExpectKey(f, buf + more, index) == ExpectKey(f, buf, index)
  {
    hide ReadU32;
    U32Extends(buf, more, index);
  }

  /* ---- The mutual induction ---- */

  lemma {:induction false} FieldsExtend(text: TextCheck, fs: seq<Field>, buf: bytes, more: bytes, index: nat, terminate: nat)
    requires terminate <= |buf| && DecodeFields(text, false, fs, buf, index, terminate).Ok?
    requires DecodeFields(text, false, fs, buf, index, terminate).value.1 <= terminate
    ensures DecodeFields(text, false, fs, buf + more, index, terminate) == DecodeFields(text, false, fs, buf, index, terminate)
    decreases fs, 0
  {
    hide DecodeField;
    if fs != [] {
      var next := DecodeField(text, false, fs[0], buf, index, terminate).value.1;
      FieldsMonotone(text, false, fs[1..], buf, next, terminate);
      FieldExtends(text, fs[0], buf, more, index, terminate);
      FieldsExtend(text, fs[1..], buf, more, next, terminate);
    }
  }

  lemma {:induction false} ObjectExtends(text: TextCheck, fs: seq<Field>, buf: bytes, more: bytes, index: nat, terminate: nat)
    requires terminate <= |buf| && DecodeObject(text, false, fs, buf, index, terminate).Ok?
    ensures DecodeObject(text, false, fs, buf + more, index, terminate) == DecodeObject(text, false, fs, buf, index, terminate)
    decreases fs, 1
  {
    hide DecodeFields;
    FieldsExtend(text, fs, buf, more, index, terminate);
  }

  lemma {:induction false} FieldExtends(text: TextCheck, f: Field, buf: bytes, more: bytes, index: nat, terminate: nat)
    requires terminate <= |buf| && DecodeField(text, false, f, buf, index, terminate).Ok?
    requires DecodeField(text, false, f, buf, index, terminate).value.1 <= terminate
    ensures DecodeField(text, false, f, buf + more, index, terminate) == DecodeField(text, false, f, buf, index, terminate)
    decreases f, 2
  {
    hide ReadU32, ExpectKey, DecodeScalar, DecodeObject, DecodeArray;
    if f.kind.Scalar? {
      var k := ExpectKey(f, buf, index).value;
      ExpectKeyExtends(f, buf, more, index);
      ScalarExtends(text, f.kind.dt, buf, more, index + k);
    } else if f.kind.Object? {
      var k := ExpectKey(f, buf, index).value;
      var (size, n) := ReadU32(buf, index + k).value;
      ExpectKeyExtends(f, buf, more, index);
      U32Extends(buf, more, index + k);
      ObjectExtends(text, f.kind.fields, buf, more, index + k + n, index + k + n + size);
    } else if index < terminate {
      ArrayExtends(text, f, buf, more, index, terminate);
    }
  }

  lemma {:induction false} ArrayExtends(text: TextCheck, f: Field, buf: bytes, more: bytes, index: nat, terminate: nat)
    requires IsArray(f.kind) && index < terminate <= |buf| && DecodeArray(text, false, f, buf, index, terminate).Ok?
    requires DecodeArray(text, false, f, buf, index, terminate).value.1 <= terminate
    ensures DecodeArray(text, false, f, buf + more, index, terminate) == DecodeArray(text, false, f, buf, index, terminate)
    decreases f, 1
  {
    hide ReadU32, DecodeItems, DecodeRepeated, DecodePacked, KeyValue;
    U32Extends(buf, more, index);
    var (key, k) := ReadU32(buf, index).value;
    assert (buf + more)[index] == buf[index];
    if ReadKey(key).value.0 == f.number {
      if f.kind.ObjectArray? {
        ItemsExtend(text, f.kind.fields, KeyValue(f), buf, more, index, terminate, buf[index]);
      } else if LengthDelimited(f.kind.dt) {
        RepeatedExtends(text, f.kind.dt, KeyValue(f), buf, more, index, terminate, buf[index]);
      } else {
        U32Extends(buf, more, index + k);
        var (size, n) := ReadU32(buf, index + k).value;
        PackedExtends(text, f.kind.dt, buf, more, index + k + n, index + k + n + size);
      }
    }
  }

  lemma {:induction false} ItemsExtend(
    text: TextCheck, fs: seq<Field>, expected: nat, buf: bytes, more: bytes, index: nat, terminate: nat, start: byte)
    requires terminate <= |buf| && DecodeItems(text, false, fs, expected, buf, index, terminate, start).Ok?
    requires DecodeItems(text, false, fs, expected, buf, index, terminate, start).value.1 <= terminate
    ensures DecodeItems(text, false, fs, expected, buf + more, index, terminate, start)
         == DecodeItems(text, false, fs, expected, buf, index, terminate, start)
    decreases fs, 2, |buf| - index
  {
    hide ReadU32, DecodeObject, More;
    ItemsMonotone(text, false, fs, expected, buf, index, terminate, start);
    MoreExtends(buf, more, index, terminate, start);
    if More(buf, index, terminate, start) {
      MoreInside(buf, index, terminate, start);
      var k := ReadU32(buf, index).value.1;
      var (size, n) := ReadU32(buf, index + k).value;
      var body := index + k + n;
      U32Extends(buf, more, index);
      U32Extends(buf, more, index + k);
      ItemsMonotone(text, false, fs, expected, buf, body + size, terminate, start);
      if size != 0 {
        ObjectExtends(text, fs, buf, more, body, body + size);
      }
      ItemsExtend(text, fs, expected, buf, more, body + size, terminate, start);
    }
  }

  /** For every schema: what is accepted would be read alike whatever stood behind it. */
  lemma NothingIsClipped(text: TextCheck, fs: seq<Field>, buf: bytes, more: bytes)
    requires Decode(text, fs, buf).Ok?
    ensures DecodeObject(text, false, fs, buf + more, 0, |buf|) == Decode(text, fs, buf)
  {
    hide DecodeObject;
    ObjectExtends(text, fs, buf, more, 0, |buf|);
  }
}
