/**
 The four mutually recursive loops of elements/codec/src/collection.ts, which push chunks, add up
 sizes and advance an index, proved against the functions of module Codec.
 */
module CodecLoops {
  import opened Wrappers
  import opened Varint
  import opened Schema
  import opened Codec

  /** Buffer.concat */
  function Flatten(chunks: seq<bytes>): bytes {
    if chunks == [] then [] else Flatten(chunks[..|chunks| - 1]) + chunks[|chunks| - 1]
  }

  lemma FlattenPush(chunks: seq<bytes>, c: bytes)
    ensures Flatten(chunks + [c]) == Flatten(chunks) + c
  {
    assert (chunks + [c])[..|chunks|] == chunks;
  }

  lemma {:induction false} FlattenConcat(a: seq<bytes>, b: seq<bytes>)
    ensures Flatten(a + b) == Flatten(a) + Flatten(b)
    decreases b
  {
    if b == [] {
      assert a + b == a;
    } else {
      var b', c := b[..|b| - 1], b[|b| - 1];
      assert a + b == (a + b') + [c];
      FlattenPush(a + b', c);
      FlattenConcat(a, b');
    }
  }

  /** The total length of the chunks, which is what the running size must equal. */
  function TotalLength(chunks: seq<bytes>): nat {
    |Flatten(chunks)|
  }

  /** `done` has been written already, `rest` is still to come. */
  function After(done: bytes, rest: Result<bytes>): Result<bytes> {
    if rest.Ok? then Ok(done + rest.value) else rest
  }

  lemma AfterStep(done: bytes, head: Result<bytes>, tail: Result<bytes>)
    requires head.Ok?
    ensures After(done, if tail.Ok? then Ok(head.value + tail.value) else tail) == After(done + head.value, tail)
  {
    if tail.Ok? {
      assert done + (head.value + tail.value) == done + head.value + tail.value;
    }
  }

  lemma AfterNothing(r: Result<bytes>)
    ensures After([], r) == r
  {
    if r.Ok? {
      assert [] + r.value == r.value;
    }
  }

  /** What a writer returns: chunks pushed behind those it was given, and the size of what it pushed. */
  ghost predicate Wrote(r: Result<(seq<bytes>, nat)>, chunks: seq<bytes>, expected: Result<bytes>) {
    if expected.Err? then r == Err(expected.error)
    else
      && r.Ok? && chunks <= r.value.0
      && Flatten(r.value.0) == Flatten(chunks) + expected.value
      && r.value.1 == |expected.value|
      && r.value.1 == TotalLength(r.value.0) - TotalLength(chunks)
  }

  lemma EncodeFieldsStep(fs: seq<Field>, obj: Props, i: nat, done: bytes)
    requires i < |fs|
    ensures EncodeField(fs[i], obj).Err? ==> EncodeFields(fs[i..], obj) == Err(EncodeField(fs[i], obj).error)
    ensures EncodeField(fs[i], obj).Ok? ==>
              After(done, EncodeFields(fs[i..], obj)) == After(done + EncodeField(fs[i], obj).value, EncodeFields(fs[i + 1..], obj))
  {
    hide EncodeField;
    assert fs[i..][0] == fs[i] && fs[i..][1..] == fs[i + 1..];
    if EncodeField(fs[i], obj).Ok? {
      AfterStep(done, EncodeField(fs[i], obj), EncodeFields(fs[i + 1..], obj));
    }
  }

  method WriteObject(fs: seq<Field>, message: Props, chunks: seq<bytes>) returns (r: Result<(seq<bytes>, nat)>)
    ensures Wrote(r, chunks, EncodeFields(fs, message))
    decreases fs, 0
  {
    hide EncodeField;
    var result, size := chunks, 0;
    ghost var done: bytes := [];
    AfterNothing(EncodeFields(fs, message));
    assert fs[0..] == fs;
    assert Flatten(chunks) + done == Flatten(chunks);
    for i := 0 to |fs|
      invariant chunks <= result && Flatten(result) == Flatten(chunks) + done && size == |done|
      invariant EncodeFields(fs, message) == After(done, EncodeFields(fs[i..], message))
    {
      EncodeFieldsStep(fs, message, i, done);
      var w := WriteField(fs[i], message, result);
      if w.Err? {
        return w;
      }
      result, size := w.value.0, size + w.value.1;
      done := done + EncodeField(fs[i], message).value;
    }
    assert done + [] == done;
    return Ok((result, size));
  }

  lemma EmptyObject()
    ensures EncodeFields([], map[]) == Ok([])
  {
  }

  /** The body of the loop of writeObject. */
  method WriteField(f: Field, message: Props, chunks: seq<bytes>) returns (r: Result<(seq<bytes>, nat)>)
    ensures Wrote(r, chunks, EncodeField(f, message))
    decreases f, 2
  {
    hide EncodeFields, EncodeItems, EncodeRepeated, EncodePacked, EncodeScalar, Key;
    if f.name !in message {
      // a missing scalar is not encoded; a missing container has no length, and properties only if none are asked for
      if f.kind.Scalar? {
        return Ok((chunks, 0));
      }
      if f.kind != Object([]) {
        return Err(TypeError);
      }
      EmptyObject();
      r := WriteDelimited([], Key(f), map[], chunks);
      return;
    }
    var v := message[f.name];
    match f.kind
    case Scalar(dt) =>
      var payload := EncodeScalar(dt, v);
      if payload.Err? {
        return Err(payload.error);
      }
      FlattenPush(chunks, Key(f));
      FlattenPush(chunks + [Key(f)], payload.value);
      return Ok((chunks + [Key(f)] + [payload.value], |Key(f)| + |payload.value|));
    case Object(fs) =>
      if !v.Obj? {
        return Err(TypeError);
      }
      r := WriteDelimited(fs, Key(f), v.props, chunks);
    case _ =>
      if !v.Arr? {
        return Err(TypeError);
      }
      r := WriteArray(f, v.items, chunks);
  }

  /** A key, the length of a nested object and its own chunks. */
  method WriteDelimited(fs: seq<Field>, key: bytes, message: Props, chunks: seq<bytes>) returns (r: Result<(seq<bytes>, nat)>)
    ensures var body := EncodeFields(fs, message);
            var delimited := if body.Err? then Err(body.error) else WriteBytes(body.value);
            Wrote(r, chunks, After(key, delimited))
    decreases fs, 1
  {
    hide EncodeFields;
    var nested := WriteObject(fs, message, []);
    if nested.Err? {
      return nested;
    }
    var (encodedValues, totalWrittenSize) := nested.value;
    ghost var body := EncodeFields(fs, message).value;
    assert Flatten(encodedValues) == body;
    var size := WriteUInt(totalWrittenSize, MAX_UINT32);
    if size.Err? {
      return Err(size.error);
    }
    var result := chunks + [key] + [size.value];
    FlattenDelimited(chunks, key, size.value, encodedValues);
    hide Flatten;
    assert chunks <= result + encodedValues;
    return Ok((result + encodedValues, |key| + |size.value| + totalWrittenSize));
  }

  lemma FlattenDelimited(chunks: seq<bytes>, key: bytes, size: bytes, encodedValues: seq<bytes>)
    ensures Flatten(chunks + [key] + [size] + encodedValues) == Flatten(chunks) + (key + (size + Flatten(encodedValues)))
  {
    FlattenPush(chunks, key);
    FlattenPush(chunks + [key], size);
    FlattenConcat(chunks + [key] + [size], encodedValues);
    hide Flatten;
    assert Flatten(chunks) + key + size + Flatten(encodedValues) == Flatten(chunks) + (key + (size + Flatten(encodedValues)));
  }

  lemma EncodeItemsStep(fs: seq<Field>, key: bytes, items: seq<Value>, i: nat, done: bytes)
    requires i < |items|
    ensures !items[i].Obj? ==> EncodeItems(fs, key, items[i..]) == Err(TypeError)
    ensures items[i].Obj? ==>
              var body := EncodeFields(fs, items[i].props);
              var delimited := if body.Err? then Err(body.error) else WriteBytes(body.value);
              if delimited.Err? then EncodeItems(fs, key, items[i..]) == Err(delimited.error)
              else
                After(done, EncodeItems(fs, key, items[i..]))
                == After(done + (key + delimited.value), EncodeItems(fs, key, items[i + 1..]))
  {
    hide EncodeFields, WriteBytes;
    assert items[i..][0] == items[i] && items[i..][1..] == items[i + 1..];
    if items[i].Obj? {
      var body := EncodeFields(fs, items[i].props);
      if body.Ok? && WriteBytes(body.value).Ok? {
        AfterStep(done, Ok(key + WriteBytes(body.value).value), EncodeItems(fs, key, items[i + 1..]));
      }
    }
  }

  lemma EncodeRepeatedStep(dt: DataType, key: bytes, items: seq<Value>, i: nat, done: bytes)
    requires i < |items|
    ensures var payload := EncodeScalar(dt, items[i]);
            if payload.Err? then EncodeRepeated(dt, key, items[i..]) == Err(payload.error)
            else
              After(done, EncodeRepeated(dt, key, items[i..]))
              == After(done + (key + payload.value), EncodeRepeated(dt, key, items[i + 1..]))
  {
    hide EncodeScalar;
    assert items[i..][0] == items[i] && items[i..][1..] == items[i + 1..];
    var payload := EncodeScalar(dt, items[i]);
    if payload.Ok? {
      AfterStep(done, Ok(key + payload.value), EncodeRepeated(dt, key, items[i + 1..]));
    }
  }

  lemma ContentsStep(dt: DataType, items: seq<Value>, i: nat, done: bytes)
    requires i < |items|
    ensures var payload := EncodeScalar(dt, items[i]);
            if payload.Err? then Contents(dt, items[i..]) == Err(payload.error)
            else After(done, Contents(dt, items[i..])) == After(done + payload.value, Contents(dt, items[i + 1..]))
  {
    hide EncodeScalar;
    assert items[i..][0] == items[i] && items[i..][1..] == items[i + 1..];
    if EncodeScalar(dt, items[i]).Ok? {
      AfterStep(done, EncodeScalar(dt, items[i]), Contents(dt, items[i + 1..]));
    }
  }

  /** The encoding of an array property. */
  function EncodeArray(f: Field, items: seq<Value>): Result<bytes>
    requires IsArray(f.kind)
  {
    match f.kind
    case ObjectArray(fs) => EncodeItems(fs, Key(f), items)
    case ScalarArray(dt) => if LengthDelimited(dt) then EncodeRepeated(dt, Key(f), items) else EncodePacked(dt, Key(f), items)
  }

  /** writeArray */
  method WriteArray(f: Field, items: seq<Value>, chunks: seq<bytes>) returns (r: Result<(seq<bytes>, nat)>)
    requires IsArray(f.kind)
    ensures Wrote(r, chunks, EncodeArray(f, items))
    decreases f, 1
  {
    if items == [] {
      return Ok((chunks, 0));
    }
    match f.kind
    case ObjectArray(fs) =>
      r := WriteItems(fs, Key(f), items, chunks);
    case ScalarArray(dt) =>
      if LengthDelimited(dt) {
        r := WriteRepeated(dt, Key(f), items, chunks);
      } else {
        r := WritePacked(dt, Key(f), items, chunks);
      }
  }

  method WriteItems(fs: seq<Field>, key: bytes, items: seq<Value>, chunks: seq<bytes>) returns (r: Result<(seq<bytes>, nat)>)
    ensures Wrote(r, chunks, EncodeItems(fs, key, items))
    decreases fs, 2
  {
    hide EncodeFields, WriteBytes;
    var result, size := chunks, 0;
    ghost var done: bytes := [];
    AfterNothing(EncodeItems(fs, key, items));
    assert items[0..] == items;
    assert Flatten(chunks) + done == Flatten(chunks);
    for i := 0 to |items|
      invariant chunks <= result && Flatten(result) == Flatten(chunks) + done && size == |done|
      invariant EncodeItems(fs, key, items) == After(done, EncodeItems(fs, key, items[i..]))
    {
      EncodeItemsStep(fs, key, items, i, done);
      if !items[i].Obj? {
        return Err(TypeError);
      }
      var w := WriteDelimited(fs, key, items[i].props, result);
      if w.Err? {
        return w;
      }
      result, size := w.value.0, size + w.value.1;
      done := done + (key + WriteBytes(EncodeFields(fs, items[i].props).value).value);
    }
    assert done + [] == done;
    return Ok((result, size));
  }

  method WriteRepeated(dt: DataType, key: bytes, items: seq<Value>, chunks: seq<bytes>) returns (r: Result<(seq<bytes>, nat)>)
    ensures Wrote(r, chunks, EncodeRepeated(dt, key, items))
  {
    hide EncodeScalar;
    var result, size := chunks, 0;
    ghost var done: bytes := [];
    AfterNothing(EncodeRepeated(dt, key, items));
    assert items[0..] == items;
    assert Flatten(chunks) + done == Flatten(chunks);
    for i := 0 to |items|
      invariant chunks <= result && Flatten(result) == Flatten(chunks) + done && size == |done|
      invariant EncodeRepeated(dt, key, items) == After(done, EncodeRepeated(dt, key, items[i..]))
    {
      EncodeRepeatedStep(dt, key, items, i, done);
      var payload := EncodeScalar(dt, items[i]);
      if payload.Err? {
        return Err(payload.error);
      }
      FlattenPush(result, key);
      FlattenPush(result + [key], payload.value);
      result := result + [key] + [payload.value];
      size := size + |payload.value| + |key|;
      done := done + (key + payload.value);
    }
    assert done + [] == done;
    return Ok((result, size));
  }

  method WriteContents(dt: DataType, items: seq<Value>) returns (r: Result<(seq<bytes>, nat)>)
    ensures Wrote(r, [], Contents(dt, items))
  {
    hide EncodeScalar;
    var contents: seq<bytes>, contentSize := [], 0;
    ghost var done: bytes := [];
    AfterNothing(Contents(dt, items));
    assert items[0..] == items;
    for i := 0 to |items|
      invariant Flatten(contents) == done && contentSize == |done|
      invariant Contents(dt, items) == After(done, Contents(dt, items[i..]))
    {
      ContentsStep(dt, items, i, done);
      var payload := EncodeScalar(dt, items[i]);
      if payload.Err? {
        return Err(payload.error);
      }
      FlattenPush(contents, payload.value);
      contents, contentSize := contents + [payload.value], contentSize + |payload.value|;
      done := done + payload.value;
    }
    assert done + [] == done;
    assert Flatten([]) + done == done;
    return Ok((contents, contentSize));
  }

  method WritePacked(dt: DataType, key: bytes, items: seq<Value>, chunks: seq<bytes>) returns (r: Result<(seq<bytes>, nat)>)
    requires items != []
    ensures Wrote(r, chunks, EncodePacked(dt, key, items))
  {
    hide Contents, VarintBytes;
    var written := WriteContents(dt, items);
    if written.Err? {
      return written;
    }
    var (contents, contentSize) := written.value;
    ghost var body := Contents(dt, items).value;
    assert Flatten(contents) == body;
    var arrayLength := WriteUInt(contentSize, MAX_UINT32);
    if arrayLength.Err? {
      return Err(arrayLength.error);
    }
    var result := chunks + [key] + [arrayLength.value];
    FlattenPush(chunks, key);
    FlattenPush(chunks + [key], arrayLength.value);
    FlattenConcat(result, contents);
    assert Flatten(result + contents) == Flatten(chunks) + (key + (arrayLength.value + body));
    return Ok((result + contents, |key| + contentSize + |arrayLength.value|));
  }

  /* ---- Readers ---- */

  method ReadLength(buf: bytes, index: nat) returns (r: Result<(nat, nat)>)
    ensures r == ReadU32(buf, index)
  {
    Widths();
    r := ReadUInt(buf, index, W32);
  }

  /** The properties read so far, then those still to be read. */
  function AfterProps(result: Props, rest: Result<(Props, nat)>): Result<(Props, nat)> {
    if rest.Ok? then Ok((result + rest.value.0, rest.value.1)) else rest
  }

  lemma DecodeFieldsStep(text: TextCheck, fs: seq<Field>, buf: bytes, i: nat, index: nat, terminate: nat, result: Props)
    requires i < |fs|
    ensures var r := DecodeField(text, false, fs[i], buf, index, terminate);
            if r.Err? then DecodeFields(text, false, fs[i..], buf, index, terminate) == Err(r.error)
            else
              AfterProps(result, DecodeFields(text, false, fs[i..], buf, index, terminate))
              == AfterProps(result[fs[i].name := r.value.0], DecodeFields(text, false, fs[i + 1..], buf, r.value.1, terminate))
  {
    hide DecodeField;
    assert fs[i..][0] == fs[i] && fs[i..][1..] == fs[i + 1..];
    var r := DecodeField(text, false, fs[i], buf, index, terminate);
    if r.Ok? {
      var tail := DecodeFields(text, false, fs[i + 1..], buf, r.value.1, terminate);
      if tail.Ok? {
        assert result + (map[fs[i].name := r.value.0] + tail.value.0) == result[fs[i].name := r.value.0] + tail.value.0;
      }
    }
  }

  /** readObject */
  method ReadObject(text: TextCheck, buf: bytes, offset: nat, fs: seq<Field>, terminate: nat) returns (r: Result<(Props, nat)>)
    ensures var d := DecodeObject(text, false, fs, buf, offset, terminate);
            r == if d.Ok? then Ok((d.value, terminate)) else Err(d.error)
    decreases fs, 0
  {
    hide DecodeField;
    var index := offset;
    var result: Props := map[];
    assert fs[0..] == fs;
    ghost var whole := DecodeFields(text, false, fs, buf, offset, terminate);
    assert whole.Ok? ==> map[] + whole.value.0 == whole.value.0;
    for i := 0 to |fs|
      invariant whole == AfterProps(result, DecodeFields(text, false, fs[i..], buf, index, terminate))
    {
      DecodeFieldsStep(text, fs, buf, i, index, terminate, result);
      var v := ReadField(text, buf, index, fs[i], terminate);
      if v.Err? {
        return Err(v.error);
      }
      result, index := result[fs[i].name := v.value.0], v.value.1;
    }
    assert result + map[] == result;
    if index != terminate {
      return Err(InvalidTerminateIndex);
    }
    return Ok((result, index));
  }

  /** The body of the loop of readObject. */
  method ReadField(text: TextCheck, buf: bytes, offset: nat, f: Field, terminate: nat) returns (r: Result<(Value, nat)>)
    ensures r == DecodeField(text, false, f, buf, offset, terminate)
    decreases f, 2
  {
    hide ReadU32, DecodeScalar, DecodeObject, DecodeArray;
    var index := offset;
    if IsArray(f.kind) {
      if index >= terminate {
        return Ok((Arr([]), index));
      }
      r := ReadArray(text, buf, index, f, terminate);
      return;
    }
    if f.kind.Scalar? && |buf| <= index {
      return Err(MissingProperty);
    }
    var key := ReadLength(buf, index);
    if key.Err? {
      return Err(key.error);
    }
    var parts := ReadKey(key.value.0);
    if parts.Err? {
      return Err(parts.error);
    }
    if parts.value.0 != f.number {
      return Err(InvalidFieldNumber);
    }
    if parts.value.1 != WireType(f.kind) {
      return Err(InvalidWireType);
    }
    index := index + key.value.1;
    if f.kind.Scalar? {
      var scalar := DecodeScalar(text, false, f.kind.dt, buf, index);
      if scalar.Err? {
        return Err(scalar.error);
      }
      return Ok((scalar.value.0, index + scalar.value.1));
    }
    var size := ReadLength(buf, index);
    if size.Err? {
      return Err(size.error);
    }
    index := index + size.value.1;
    var obj := ReadObject(text, buf, index, f.kind.fields, index + size.value.0);
    if obj.Err? {
      return Err(obj.error);
    }
    return Ok((Obj(obj.value.0), obj.value.1));
  }

  lemma ThenStep(result: seq<Value>, item: Value, rest: Result<(seq<Value>, nat)>)
    ensures Then(result, if rest.Ok? then Ok(([item] + rest.value.0, rest.value.1)) else rest)
         == Then(result + [item], rest)
  {
    if rest.Ok? {
      assert result + ([item] + rest.value.0) == result + [item] + rest.value.0;
    }
  }

  /** readArray */
  method ReadArray(text: TextCheck, buf: bytes, offset: nat, f: Field, terminate: nat) returns (r: Result<(Value, nat)>)
    requires IsArray(f.kind)
    ensures r == DecodeArray(text, false, f, buf, offset, terminate)
    decreases f, 1
  {
    hide ReadU32, DecodeItems, DecodeRepeated, DecodePacked;
    if offset >= |buf| {
      return Ok((Arr([]), offset));
    }
    var key := ReadLength(buf, offset);
    if key.Err? {
      return Err(key.error);
    }
    var parts := ReadKey(key.value.0);
    if parts.Err? {
      return Err(parts.error);
    }
    if parts.value.0 != f.number {
      return Ok((Arr([]), offset));
    }
    var items;
    if f.kind.ObjectArray? {
      items := ReadItems(text, f.kind.fields, KeyValue(f), buf, offset, terminate);
    } else if LengthDelimited(f.kind.dt) {
      items := ReadRepeated(text, f.kind.dt, KeyValue(f), buf, offset, terminate);
    } else {
      var size := ReadLength(buf, offset + key.value.1);
      if size.Err? {
        return Err(size.error);
      }
      var start := offset + key.value.1 + size.value.1;
      items := ReadPacked(text, f.kind.dt, buf, start, start + size.value.0);
    }
    return if items.Err? then Err(items.error) else Ok((Arr(items.value.0), items.value.1));
  }

  method ReadItems(text: TextCheck, fs: seq<Field>, ghost expected: nat, buf: bytes, offset: nat, terminate: nat)
    returns (r: Result<(seq<Value>, nat)>)
    requires offset < |buf|
    ensures r == DecodeItems(text, false, fs, expected, buf, offset, terminate, buf[offset])
    decreases fs, 1
  {
    hide ReadU32, DecodeObject;
    var index, result, startingByte := offset, [], buf[offset];
    ghost var whole := DecodeItems(text, false, fs, expected, buf, offset, terminate, startingByte);
    ThenNothing([], whole);
    while More(buf, index, terminate, startingByte)
      invariant whole == Then(result, DecodeItems(text, false, fs, expected, buf, index, terminate, startingByte))
      decreases |buf| - index
    {
      var key := ReadLength(buf, index);
      if key.Err? {
        return Err(key.error);
      }
      index := index + key.value.1;
      var size := ReadLength(buf, index);
      if size.Err? {
        return Err(size.error);
      }
      index := index + size.value.1;
      if size.value.0 == 0 {
        continue;
      }
      var obj := ReadObject(text, buf, index, fs, index + size.value.0);
      if obj.Err? {
        return Err(obj.error);
      }
      ThenStep(result, Obj(obj.value.0),
                     DecodeItems(text, false, fs, expected, buf, index + size.value.0, terminate, startingByte));
      result, index := result + [Obj(obj.value.0)], obj.value.1;
    }
    assert result + [] == result;
    return Ok((result, index));
  }

  method ReadRepeated(text: TextCheck, dt: DataType, ghost expected: nat, buf: bytes, offset: nat, terminate: nat)
    returns (r: Result<(seq<Value>, nat)>)
    requires offset < |buf| && LengthDelimited(dt)
    ensures r == DecodeRepeated(text, false, dt, expected, buf, offset, terminate, buf[offset])
  {
    hide ReadU32, DecodeScalar;
    var index, result, startingByte := offset, [], buf[offset];
    ghost var whole := DecodeRepeated(text, false, dt, expected, buf, offset, terminate, startingByte);
    ThenNothing([], whole);
    while More(buf, index, terminate, startingByte)
      invariant whole == Then(result, DecodeRepeated(text, false, dt, expected, buf, index, terminate, startingByte))
      decreases |buf| - index
    {
      var key := ReadLength(buf, index);
      if key.Err? {
        return Err(key.error);
      }
      index := index + key.value.1;
      var size := ReadLength(buf, index);
      if size.Err? {
        return Err(size.error);
      }
      var item, n := if dt.Str? then Text([]) else Bin([]), size.value.1;
      if size.value.0 != 0 {
        var scalar := DecodeScalar(text, false, dt, buf, index);
        if scalar.Err? {
          return Err(scalar.error);
        }
        item, n := scalar.value.0, scalar.value.1;
      }
      index := index + n;
      ThenStep(result, item, DecodeRepeated(text, false, dt, expected, buf, index, terminate, startingByte));
      result := result + [item];
    }
    assert result + [] == result;
    return Ok((result, index));
  }

  method ReadPacked(text: TextCheck, dt: DataType, buf: bytes, offset: nat, end: nat) returns (r: Result<(seq<Value>, nat)>)
    ensures r == DecodePacked(text, false, dt, buf, offset, end)
  {
    hide DecodeScalar;
    var index, result := offset, [];
    ghost var whole := DecodePacked(text, false, dt, buf, offset, end);
    ThenNothing([], whole);
    while index < end
      invariant whole == Then(result, DecodePacked(text, false, dt, buf, index, end))
    {
      var scalar := DecodeScalar(text, false, dt, buf, index);
      if scalar.Err? {
        return Err(scalar.error);
      }
      index := index + scalar.value.1;
      ThenStep(result, scalar.value.0, DecodePacked(text, false, dt, buf, index, end));
      result := result + [scalar.value.0];
    }
    assert result + [] == result;
    return Ok((result, index));
  }
}
