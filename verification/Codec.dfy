/**
 The encoder and the decoder of elements/codec/src/collection.ts as functions.

 `Decode…(strict := false, …)` is what the source does. With `strict := true` the same decoder also
 makes the checks the source omits; the strict decoder serves to say exactly which accepted inputs
 are canonical.
 */
module Codec {
  import opened Wrappers
  import opened Varint
  import opened Schema

  /* ---- Scalars ---- */

  function ReadU32(buf: bytes, offset: nat): (r: Result<(nat, nat)>)
    ensures r.Ok? ==> r.value.1 > 0
  {
    ReadVarint(buf, offset, W32)
  }

  lemma ReadU32Iff(buf: bytes, offset: nat, v: nat, n: nat)
    ensures ReadU32(buf, offset) == Ok((v, n))
       <==> v <= MAX_UINT32 && n == |VarintBytes(v)| && At(buf, offset, VarintBytes(v))
  {
    Widths();
    ReadVarintIff(buf, offset, W32, v, n);
  }

  /** readKey: field number and wire type. */
  function ReadKey(key: nat): Result<(nat, nat)> {
    if key % 8 == 2 || key % 8 == 0 then Ok((key / 8, key % 8)) else Err(UnsupportedWireType)
  }

  /** A key splits into the parts it was made of. */
  lemma KeyRoundTrip(f: Field)
    ensures ReadKey(KeyValue(f)) == Ok((f.number, WireType(f.kind)))
  {
  }

  /** writeBytes: a length and that many bytes. Nested objects and packed arrays are delimited alike. */
  function WriteBytes(data: bytes): Result<bytes> {
    var size :- WriteUnsigned(|data|, MAX_UINT32);
    Ok(size + data)
  }

  /** The length of the length prefix of `data`. */
  function PrefixSize(data: bytes): (n: nat)
    ensures n > 0
  {
    |VarintBytes(|data|)|
  }

  lemma DelimitedAt(buf: bytes, offset: nat, data: bytes)
    requires WriteBytes(data).Ok? && At(buf, offset, WriteBytes(data).value)
    ensures |WriteBytes(data).value| == PrefixSize(data) + |data|
    ensures ReadU32(buf, offset) == Ok((|data|, PrefixSize(data)))
    ensures At(buf, offset + PrefixSize(data), data)
  {
    var size := VarintBytes(|data|);
    assert WriteBytes(data).value == size + data;
    AtSplit(buf, offset, size, data);
    ReadU32Iff(buf, offset, |data|, |size|);
  }

  /** Bytes that read as a length and hold that many more bytes are a delimited byte string. */
  lemma DelimitedBack(buf: bytes, offset: nat, len: nat, n: nat)
    requires ReadU32(buf, offset) == Ok((len, n)) && offset + n + len <= |buf|
    ensures var data := buf[offset + n..offset + n + len];
            && WriteBytes(data) == Ok(buf[offset..offset + n + len]) && n == PrefixSize(data)
  {
    var data := buf[offset + n..offset + n + len];
    var size := VarintBytes(len);
    ReadU32Iff(buf, offset, len, n);
    assert |data| == len;
    assert buf[offset..offset + n + len] == buf[offset..offset + n] + data;
    assert WriteBytes(data) == Ok(size + data);
  }

  /** Buffer.subarray, which clips both ends to the buffer. */
  function Clip(buf: bytes, from: nat, to: nat): bytes
    requires from <= to
  {
    if to <= |buf| then buf[from..to] else if from <= |buf| then buf[from..] else []
  }

  function ReadBytes(buf: bytes, offset: nat): (r: Result<(bytes, nat)>)
    ensures r.Ok? ==> r.value.1 > 0
  {
    var (len, k) :- ReadU32(buf, offset);
    Ok((Clip(buf, offset + k, offset + k + len), len + k))
  }

  /** The bytes of U+FEFF, which a TextDecoder removes from the start of its input. */
  const BOM: bytes := [0xef, 0xbb, 0xbf]

  predicate HasBom(data: bytes) {
    BOM <= data
  }

  function StripBom(data: bytes): bytes {
    if HasBom(data) then data[3..] else data
  }

  function EncodeScalar(dt: DataType, v: Value): Result<bytes> {
    match dt
    case UInt32 => if v.Num? && v.n >= 0 then WriteUnsigned(v.n, MAX_UINT32) else Err(TypeError)
    case UInt64 => if v.Num? && v.n >= 0 then WriteUnsigned(v.n, MAX_UINT64) else Err(TypeError)
    case SInt32 => if v.Num? then WriteSigned(v.n, MAX_SINT32) else Err(TypeError)
    case SInt64 => if v.Num? then WriteSigned(v.n, MAX_SINT64) else Err(TypeError)
    case Str => if v.Text? then WriteBytes(v.data) else Err(TypeError)
    case Bytes => if v.Bin? then WriteBytes(v.data) else Err(TypeError)
    case Boolean => if v.Bool? then Ok([if v.b then 1 else 0]) else Err(TypeError)
  }

  function DecodeScalar(text: TextCheck, strict: bool, dt: DataType, buf: bytes, offset: nat): (r: Result<(Value, nat)>)
    ensures r.Ok? ==> r.value.1 > 0
  {
    match dt
    case UInt32 => var (v, n) :- ReadVarint(buf, offset, W32); Ok((Num(v), n))
    case UInt64 => var (v, n) :- ReadVarint(buf, offset, W64); Ok((Num(v), n))
    case SInt32 => var (v, n) :- ReadSigned(buf, offset, W32); Ok((Num(v), n))
    case SInt64 => var (v, n) :- ReadSigned(buf, offset, W64); Ok((Num(v), n))
    case Str =>
      var (data, n) :- ReadBytes(buf, offset);
      if !text(StripBom(data)) then Err(InvalidText)
      else if strict && HasBom(data) then Err(NotCanonical)
      else Ok((Text(StripBom(data)), n))
    case Bytes => var (data, n) :- ReadBytes(buf, offset); Ok((Bin(data), n))
    case Boolean =>
      if offset < |buf| && buf[offset] <= 1 then Ok((Bool(buf[offset] != 0), 1)) else Err(InvalidBoolean)
  }

  /* ---- Encoder ---- */

  /** writeObject */
  function EncodeFields(fs: seq<Field>, obj: Props): Result<bytes>
    decreases fs, 0
  {
    if fs == [] then Ok([])
    else
      var head :- EncodeField(fs[0], obj);
      var tail :- EncodeFields(fs[1..], obj);
      Ok(head + tail)
  }

  /**
   One property: nothing for a missing scalar, else its key and value. Of a missing object nothing is asked when its
   schema has no properties, so it is written as an empty one.
   */
  function EncodeField(f: Field, obj: Props): Result<bytes>
    decreases f, 1
  {
    if f.name !in obj then
      match f.kind
      case Scalar(_) => Ok([])
      case Object(fs) =>
        if fs != [] then Err(TypeError)
        else
          var delimited :- WriteBytes([]);
          Ok(Key(f) + delimited)
      case _ => Err(TypeError)
    else
      var v := obj[f.name];
      match f.kind
      case Scalar(dt) =>
        var payload :- EncodeScalar(dt, v);
        Ok(Key(f) + payload)
      case Object(fs) =>
        if !v.Obj? then Err(TypeError)
        else
          var body :- EncodeFields(fs, v.props);
          var delimited :- WriteBytes(body);
          Ok(Key(f) + delimited)
      case ScalarArray(dt) =>
        if !v.Arr? then Err(TypeError)
        else if LengthDelimited(dt) then EncodeRepeated(dt, Key(f), v.items)
        else EncodePacked(dt, Key(f), v.items)
      case ObjectArray(fs) =>
        if !v.Arr? then Err(TypeError) else EncodeItems(fs, Key(f), v.items)
  }

  /** Each string or byte string with its own key. */
  function EncodeRepeated(dt: DataType, key: bytes, items: seq<Value>): Result<bytes> {
    if items == [] then Ok([])
    else
      var payload :- EncodeScalar(dt, items[0]);
      var tail :- EncodeRepeated(dt, key, items[1..]);
      Ok(key + payload + tail)
  }

  function Contents(dt: DataType, items: seq<Value>): Result<bytes> {
    if items == [] then Ok([])
    else
      var head :- EncodeScalar(dt, items[0]);
      var tail :- Contents(dt, items[1..]);
      Ok(head + tail)
  }

  /** Numbers and booleans behind one key and the length of all of them. */
  function EncodePacked(dt: DataType, key: bytes, items: seq<Value>): Result<bytes> {
    if items == [] then Ok([])
    else
      var body :- Contents(dt, items);
      var delimited :- WriteBytes(body);
      Ok(key + delimited)
  }

  /** Each object with its own key and length. */
  function EncodeItems(fs: seq<Field>, key: bytes, items: seq<Value>): Result<bytes>
    decreases fs, 1, items
  {
    if items == [] then Ok([])
    else if !items[0].Obj? then Err(TypeError)
    else
      var body :- EncodeFields(fs, items[0].props);
      var delimited :- WriteBytes(body);
      var tail :- EncodeItems(fs, key, items[1..]);
      Ok(key + delimited + tail)
  }

  /* ---- Decoder ---- */

  /** readObject: all fields in schema order, ending exactly at `terminate`. */
  function DecodeObject(text: TextCheck, strict: bool, fs: seq<Field>, buf: bytes, index: nat, terminate: nat)
    : (r: Result<Props>)
    decreases fs, 1
  {
    var (props, next) :- DecodeFields(text, strict, fs, buf, index, terminate);
    if next == terminate then Ok(props) else Err(InvalidTerminateIndex)
  }

  function DecodeFields(text: TextCheck, strict: bool, fs: seq<Field>, buf: bytes, index: nat, terminate: nat)
    : (r: Result<(Props, nat)>)
    decreases fs, 0
  {
    if fs == [] then Ok((map[], index))
    else
      var (v, next) :- DecodeField(text, strict, fs[0], buf, index, terminate);
      var (props, end) :- DecodeFields(text, strict, fs[1..], buf, next, terminate);
      Ok((map[fs[0].name := v] + props, end))
  }

  /** The key at `index`, which must be that of `f`; returns its length. */
  function ExpectKey(f: Field, buf: bytes, index: nat): (r: Result<nat>)
    ensures r.Ok? ==> r.value > 0
  {
    var (key, k) :- ReadU32(buf, index);
    var (number, wire) :- ReadKey(key);
    if number != f.number then Err(InvalidFieldNumber)
    else if wire != WireType(f.kind) then Err(InvalidWireType)
    else Ok(k)
  }

  function DecodeField(text: TextCheck, strict: bool, f: Field, buf: bytes, index: nat, terminate: nat)
    : (r: Result<(Value, nat)>)
    decreases f, 3
  {
    match f.kind
    case Scalar(dt) =>
      if |buf| <= index then Err(MissingProperty)
      else
        var k :- ExpectKey(f, buf, index);
        var (v, n) :- DecodeScalar(text, strict, dt, buf, index + k);
        Ok((v, index + k + n))
    case Object(fs) =>
      var k :- ExpectKey(f, buf, index);
      var (size, n) :- ReadU32(buf, index + k);
      var props :- DecodeObject(text, strict, fs, buf, index + k + n, index + k + n + size);
      Ok((Obj(props), index + k + n + size))
    case _ =>
      if index >= terminate then Ok((Arr([]), index))
      else DecodeArray(text, strict, f, buf, index, terminate)
  }

  /** readArray */
  function DecodeArray(text: TextCheck, strict: bool, f: Field, buf: bytes, index: nat, terminate: nat)
    : (r: Result<(Value, nat)>)
    requires IsArray(f.kind)
    decreases f, 2
  {
    if index >= |buf| then Ok((Arr([]), index))
    else
      var (key, k) :- ReadU32(buf, index);
      var (number, _) :- ReadKey(key);
      if number != f.number then Ok((Arr([]), index))
      else
        match f.kind
        case ObjectArray(fs) =>
          var (items, next) :- DecodeItems(text, strict, fs, KeyValue(f), buf, index, terminate, buf[index]);
          Ok((Arr(items), next))
        case ScalarArray(dt) =>
          if LengthDelimited(dt) then
            var (items, next) :- DecodeRepeated(text, strict, dt, KeyValue(f), buf, index, terminate, buf[index]);
            Ok((Arr(items), next))
          else
            var (size, n) :- ReadU32(buf, index + k);
            var start := index + k + n;
            var (items, next) :- DecodePacked(text, strict, dt, buf, start, start + size);
            if strict && (key != KeyValue(f) || size == 0 || next != start + size) then Err(NotCanonical)
            else Ok((Arr(items), next))
  }

  /** The loop goes on while the next byte repeats the first byte of the first key. */
  predicate More(buf: bytes, index: nat, terminate: nat, start: byte) {
    index < |buf| && buf[index] == start && index != terminate
  }

  function DecodeRepeated(text: TextCheck, strict: bool, dt: DataType, expected: nat,
                          buf: bytes, index: nat, terminate: nat, start: byte)
    : (r: Result<(seq<Value>, nat)>)
    requires LengthDelimited(dt)
    decreases |buf| - index
  {
    if !More(buf, index, terminate, start) then Ok(([], index))
    else
      var (key, k) :- ReadU32(buf, index);
      if strict && key != expected then Err(NotCanonical)
      else
        var (item, n) :- DecodeElement(text, strict, dt, buf, index + k);
        var (items, next) :- DecodeRepeated(text, strict, dt, expected, buf, index + k + n, terminate, start);
        Ok(([item] + items, next))
  }

  /** A string or byte string of the array; one of length zero is not passed to the reader. */
  function DecodeElement(text: TextCheck, strict: bool, dt: DataType, buf: bytes, index: nat): (r: Result<(Value, nat)>)
    requires LengthDelimited(dt)
    ensures r.Ok? ==> r.value.1 > 0
  {
    var (len, n) :- ReadU32(buf, index);
    if len == 0 then Ok((if dt.Str? then Text([]) else Bin([]), n))
    else DecodeScalar(text, strict, dt, buf, index)
  }

  function DecodePacked(text: TextCheck, strict: bool, dt: DataType, buf: bytes, index: nat, end: nat)
    : (r: Result<(seq<Value>, nat)>)
    decreases end - index
  {
    if index >= end then Ok(([], index))
    else
      var (item, n) :- DecodeScalar(text, strict, dt, buf, index);
      var (items, next) :- DecodePacked(text, strict, dt, buf, index + n, end);
      Ok(([item] + items, next))
  }

  /** Objects of length zero are skipped. */
  function DecodeItems(text: TextCheck, strict: bool, fs: seq<Field>, expected: nat,
                       buf: bytes, index: nat, terminate: nat, start: byte)
    : (r: Result<(seq<Value>, nat)>)
    decreases fs, 2, |buf| - index
  {
    if !More(buf, index, terminate, start) then Ok(([], index))
    else
      var (key, k) :- ReadU32(buf, index);
      var (size, n) :- ReadU32(buf, index + k);
      var body := index + k + n;
      if strict && (key != expected || size == 0) then Err(NotCanonical)
      else if size == 0 then DecodeItems(text, strict, fs, expected, buf, body, terminate, start)
      else
        var props :- DecodeObject(text, strict, fs, buf, body, body + size);
        var (items, next) :- DecodeItems(text, strict, fs, expected, buf, body + size, terminate, start);
        Ok(([Obj(props)] + items, next))
  }

  /** `items` in front of what the loop finds behind them. */
  function Then(items: seq<Value>, rest: Result<(seq<Value>, nat)>): Result<(seq<Value>, nat)> {
    if rest.Ok? then Ok((items + rest.value.0, rest.value.1)) else rest
  }

  lemma ThenCons(x: Value, items: seq<Value>, rest: Result<(seq<Value>, nat)>)
    ensures Then([x], Then(items, rest)) == Then([x] + items, rest)
  {
    if rest.Ok? {
      assert [x] + (items + rest.value.0) == [x] + items + rest.value.0;
    }
  }

  lemma ThenNothing(items: seq<Value>, rest: Result<(seq<Value>, nat)>)
    ensures Then([], rest) == rest
    ensures forall next: nat :: Then(items, Ok(([], next))) == Ok((items, next))
  {
    assert items + [] == items;
    if rest.Ok? {
      assert [] + rest.value.0 == rest.value.0;
    }
  }

  /* ---- Codec.encode and Codec.decode on a compiled schema ---- */

  function Encode(fs: seq<Field>, obj: Props): Result<bytes> {
    EncodeFields(fs, obj)
  }

  function Decode(text: TextCheck, fs: seq<Field>, buf: bytes): Result<Props> {
    DecodeObject(text, false, fs, buf, 0, |buf|)
  }

  function StrictDecode(text: TextCheck, fs: seq<Field>, buf: bytes): Result<Props> {
    DecodeObject(text, true, fs, buf, 0, |buf|)
  }
}
