/** What holds of every decoding, right or wrong. */
module Decoding {
  import opened Wrappers
  import opened Varint
  import opened Schema
  import opened Codec
  import opened RoundTrip

  /* ---- The decoder never moves backwards ---- */

  lemma {:induction false} RepeatedMonotone(
    text: TextCheck, strict: bool, dt: DataType, expected: nat, buf: bytes, index: nat, terminate: nat, start: byte)
    requires LengthDelimited(dt)
    requires DecodeRepeated(text, strict, dt, expected, buf, index, terminate, start).Ok?
    ensures index <= DecodeRepeated(text, strict, dt, expected, buf, index, terminate, start).value.1
    decreases |buf| - index
  {
    hide ReadU32, DecodeElement;
    if More(buf, index, terminate, start) {
      var k := ReadU32(buf, index).value.1;
      var n := DecodeElement(text, strict, dt, buf, index + k).value.1;
      RepeatedMonotone(text, strict, dt, expected, buf, index + k + n, terminate, start);
    }
  }

  lemma {:induction false} PackedMonotone(text: TextCheck, strict: bool, dt: DataType, buf: bytes, index: nat, end: nat)
    requires DecodePacked(text, strict, dt, buf, index, end).Ok?
    ensures index <= DecodePacked(text, strict, dt, buf, index, end).value.1
    decreases end - index
  {
    hide DecodeScalar;
    if index < end {
      var n := DecodeScalar(text, strict, dt, buf, index).value.1;
      PackedMonotone(text, strict, dt, buf, index + n, end);
    }
  }

  lemma {:induction false} ItemsMonotone(
    text: TextCheck, strict: bool, fs: seq<Field>, expected: nat, buf: bytes, index: nat, terminate: nat, start: byte)
    requires DecodeItems(text, strict, fs, expected, buf, index, terminate, start).Ok?
    ensures index <= DecodeItems(text, strict, fs, expected, buf, index, terminate, start).value.1
    decreases |buf| - index
  {
    hide ReadU32, DecodeObject;
    if More(buf, index, terminate, start) {
      var k := ReadU32(buf, index).value.1;
      var (size, n) := ReadU32(buf, index + k).value;
      ItemsMonotone(text, strict, fs, expected, buf, index + k + n + size, terminate, start);
    }
  }

  lemma FieldMonotone(text: TextCheck, strict: bool, f: Field, buf: bytes, index: nat, terminate: nat)
    requires DecodeField(text, strict, f, buf, index, terminate).Ok?
    ensures index <= DecodeField(text, strict, f, buf, index, terminate).value.1
  {
    hide ReadU32, DecodeObject, DecodeRepeated, DecodePacked, DecodeItems, ExpectKey, DecodeScalar, KeyValue;
    if IsArray(f.kind) && index < terminate && index < |buf| {
      var (key, k) := ReadU32(buf, index).value;
      if ReadKey(key).value.0 == f.number {
        if f.kind.ObjectArray? {
          ItemsMonotone(text, strict, f.kind.fields, KeyValue(f), buf, index, terminate, buf[index]);
        } else if LengthDelimited(f.kind.dt) {
          RepeatedMonotone(text, strict, f.kind.dt, KeyValue(f), buf, index, terminate, buf[index]);
        } else {
          var (size, n) := ReadU32(buf, index + k).value;
          PackedMonotone(text, strict, f.kind.dt, buf, index + k + n, index + k + n + size);
        }
      }
    }
  }

  lemma {:induction false} FieldsMonotone(text: TextCheck, strict: bool, fs: seq<Field>, buf: bytes, index: nat, terminate: nat)
    requires DecodeFields(text, strict, fs, buf, index, terminate).Ok?
    ensures index <= DecodeFields(text, strict, fs, buf, index, terminate).value.1
    decreases fs
  {
    hide DecodeField;
    if fs != [] {
      FieldMonotone(text, strict, fs[0], buf, index, terminate);
      FieldsMonotone(text, strict, fs[1..], buf, DecodeField(text, strict, fs[0], buf, index, terminate).value.1, terminate);
    }
  }

  /* ---- The decoded object ---- */

  lemma {:induction false} DecodedKeys(text: TextCheck, strict: bool, fs: seq<Field>, buf: bytes, index: nat, terminate: nat)
    requires DecodeFields(text, strict, fs, buf, index, terminate).Ok?
    ensures DecodeFields(text, strict, fs, buf, index, terminate).value.0.Keys == Names(fs)
    decreases fs
  {
    hide DecodeField;
    if fs != [] {
      var (_, next) := DecodeField(text, strict, fs[0], buf, index, terminate).value;
      DecodedKeys(text, strict, fs[1..], buf, next, terminate);
      assert fs == [fs[0]] + fs[1..];
    }
  }

  lemma NotInRest(fs: seq<Field>)
    requires WellFormed(fs) && fs != []
    ensures fs[0].name !in Names(fs[1..])
  {
  }

  /** The decoded object is wrong when its first value is wrong, or when the rest of it is. */
  lemma WrongObject(text: TextCheck, fs: seq<Field>, obj: Props, buf: bytes, index: nat, terminate: nat)
    requires fs != [] && WellFormed(fs) && fs[0].name in obj
    requires DecodeFields(text, false, fs, buf, index, terminate).Ok?
    requires var (v, next) := DecodeField(text, false, fs[0], buf, index, terminate).value;
             v != obj[fs[0].name] || DecodeFields(text, false, fs[1..], buf, next, terminate).value.0 != Restrict(fs[1..], obj)
    ensures DecodeFields(text, false, fs, buf, index, terminate).value.0 != Restrict(fs, obj)
  {
    hide DecodeField, Restrict;
    var name := fs[0].name;
    var (v, next) := DecodeField(text, false, fs[0], buf, index, terminate).value;
    var props := DecodeFields(text, false, fs[1..], buf, next, terminate).value.0;
    DecodedKeys(text, false, fs[1..], buf, next, terminate);
    NotInRest(fs);
    RestrictStep(fs, obj);
    RestrictKeys(fs[1..], obj);
    hide DecodeFields, WellFormed, Names;
    DifferentProps(name, v, props, obj[name], Restrict(fs[1..], obj));
  }

  lemma RestrictKeys(fs: seq<Field>, obj: Props)
    ensures Restrict(fs, obj).Keys <= Names(fs)
  {
  }

  lemma DifferentProps(name: string, v: Value, props: Props, w: Value, good: Props)
    requires name !in props && name !in good && (v != w || props != good)
    ensures map[name := v] + props != map[name := w] + good
  {
    var x, y := map[name := v] + props, map[name := w] + good;
    assert x[name] == v && y[name] == w;
    assert x - {name} == props && y - {name} == good;
  }

  lemma {:induction false} EncodeFrame(fs: seq<Field>, a: Props, b: Props)
    requires forall f | f in fs :: f.name in a && f.name in b && a[f.name] == b[f.name]
    ensures EncodeFields(fs, a) == EncodeFields(fs, b)
    decreases fs
  {
    if fs != [] {
      assert EncodeField(fs[0], a) == EncodeField(fs[0], b);
      EncodeFrame(fs[1..], a, b);
    }
  }
}
