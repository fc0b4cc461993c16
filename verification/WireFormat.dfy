/**
 The wire format without schemas: a reader that knows only keys, varints and length prefixes takes every encoding apart
 into numbered units (elements/codec/src/utils/key.ts, elements/codec/src/collection.ts:56-118).
 */
module WireFormat {
  import opened Wrappers
  import opened Varint
  import opened Schema
  import opened Codec

  /** What stands behind one key: after wire type 0 a number, after wire type 2 a string of bytes. */
  datatype Unit = Number(field: nat, value: nat) | Block(field: nat, content: bytes)

  function ReadUnit(buf: bytes): Result<(Unit, nat)> {
    var (key, k) :- ReadVarint(buf, 0, W32);
    if key % 8 == 0 then
      var (v, n) :- ReadVarint(buf, k, W64);
      Ok((Number(key / 8, v), k + n))
    else if key % 8 == 2 then
      var (size, n) :- ReadVarint(buf, k, W32);
      if k + n + size <= |buf| then Ok((Block(key / 8, buf[k + n..k + n + size]), k + n + size)) else Err(InvalidBufferLength)
    else Err(UnsupportedWireType)
  }

  /** All units of a buffer. */
  function Split(buf: bytes): Result<seq<Unit>>
    decreases |buf|
  {
    if buf == [] then Ok([])
    else
      var (u, n) :- ReadUnit(buf);
      if 0 < n <= |buf| then
        var rest :- Split(buf[n..]);
        Ok([u] + rest)
      else Err(InvalidBufferLength)
  }

  function Wire(u: Unit): (bs: bytes)
    ensures |bs| > 0
  {
    match u
    case Number(field, value) => VarintBytes(8 * field) + VarintBytes(value)
    case Block(field, content) => VarintBytes(8 * field + 2) + (VarintBytes(|content|) + content)
  }

  function Join(us: seq<Unit>): bytes {
    if us == [] then [] else Wire(us[0]) + Join(us[1..])
  }

  predicate Fits(u: Unit) {
    && u.field <= MAX_FIELD_NUMBER
    && match u
       case Number(_, value) => value <= MAX_UINT64
       case Block(_, content) => |content| <= MAX_UINT32
  }

  lemma VarintInFront(v: nat, rest: bytes, buf: bytes, offset: nat, w: Width)
    requires w.Valid() && v <= w.Max() && offset <= |buf| && buf[offset..] == VarintBytes(v) + rest
    ensures ReadVarint(buf, offset, w) == Ok((v, |VarintBytes(v)|)) && buf[offset + |VarintBytes(v)|..] == rest
  {
    var bs := VarintBytes(v);
    assert buf[offset..offset + |bs|] == buf[offset..][..|bs|] == bs;
    assert buf[offset + |bs|..] == buf[offset..][|bs|..] == rest;
    ReadVarintIff(buf, offset, w, v, |bs|);
  }

  lemma NumberInFront(field: nat, value: nat, rest: bytes)
    requires Fits(Number(field, value))
    ensures var e := Wire(Number(field, value));
            ReadUnit(e + rest) == Ok((Number(field, value), |e|)) && (e + rest)[|e|..] == rest
  {
    Widths();
    hide VarintBytes, ReadVarint;
    var key, number := VarintBytes(8 * field), VarintBytes(value);
    var buf := Wire(Number(field, value)) + rest;
    assert buf[0..] == buf == key + (number + rest);
    VarintInFront(8 * field, number + rest, buf, 0, W32);
    VarintInFront(value, rest, buf, |key|, W64);
  }

  lemma BlockInFront(field: nat, content: bytes, rest: bytes)
    requires Fits(Block(field, content))
    ensures var e := Wire(Block(field, content));
            ReadUnit(e + rest) == Ok((Block(field, content), |e|)) && (e + rest)[|e|..] == rest
  {
    Widths();
    hide VarintBytes, ReadVarint;
    var key, size := VarintBytes(8 * field + 2), VarintBytes(|content|);
    var buf := Wire(Block(field, content)) + rest;
    assert buf[0..] == buf == key + (size + (content + rest));
    VarintInFront(8 * field + 2, size + (content + rest), buf, 0, W32);
    VarintInFront(|content|, content + rest, buf, |key|, W32);
    var at := |key| + |size|;
    assert buf[at..at + |content|] == buf[at..][..|content|] == content;
  }

  /** A unit is found again in front of anything. */
  lemma UnitInFront(u: Unit, rest: bytes)
    requires Fits(u)
    ensures ReadUnit(Wire(u) + rest) == Ok((u, |Wire(u)|)) && (Wire(u) + rest)[|Wire(u)|..] == rest
  {
    hide ReadUnit, Wire, Fits;
    match u
    case Number(field, value) => NumberInFront(field, value, rest);
    case Block(field, content) => BlockInFront(field, content, rest);
  }

  /** Whatever units are put together are taken apart again. */
  lemma {:induction false} SplitJoin(us: seq<Unit>)
    requires forall u | u in us :: Fits(u)
    ensures Split(Join(us)) == Ok(us)
  {
    hide ReadUnit, Wire, Fits;
    if us != [] {
      SplitJoin(us[1..]);
      assert us[0] in us;
      UnitInFront(us[0], Join(us[1..]));
      assert us == [us[0]] + us[1..];
    }
  }

  lemma {:induction false} JoinConcat(us: seq<Unit>, vs: seq<Unit>)
    ensures Join(us + vs) == Join(us) + Join(vs)
  {
    hide Wire;
    if us == [] {
      assert us + vs == vs;
    } else {
      assert (us + vs)[1..] == us[1..] + vs;
      JoinConcat(us[1..], vs);
    }
  }

  lemma JoinOne(u: Unit)
    ensures Join([u]) == Wire(u)
  {
    hide Wire;
    assert [u][1..] == [] && Join([]) == [];
  }

  /* ---- The units of a message ---- */

  /** The number a scalar goes out as: booleans as 0 and 1, signed numbers in zigzag form. */
  function NumberOf(dt: DataType, v: Value): nat {
    match v
    case Num(n) => if dt.SInt32? || dt.SInt64? then ZigZag(n) else if n < 0 then 0 else n
    case Bool(b) => if b then 1 else 0
    case _ => 0
  }

  function ScalarUnit(number: nat, dt: DataType, v: Value): Unit {
    match v
    case Bin(data) => Block(number, data)
    case Text(data) => Block(number, data)
    case _ => Number(number, NumberOf(dt, v))
  }

  function Packed(dt: DataType, items: seq<Value>): bytes {
    if items == [] then [] else VarintBytes(NumberOf(dt, items[0])) + Packed(dt, items[1..])
  }

  function BytesIn(r: Result<bytes>): bytes {
    if r.Ok? then r.value else []
  }

  /** Scalars one unit each, nested objects a block each, strings and byte strings of an array and its objects a block each, its numbers one block. */
  function FieldUnits(f: Field, obj: Props): seq<Unit> {
    if f.name !in obj then if f.kind.Object? then [Block(f.number, [])] else []
    else
      match f.kind
      case Scalar(dt) => [ScalarUnit(f.number, dt, obj[f.name])]
      case Object(fs) => if obj[f.name].Obj? then [Block(f.number, BytesIn(EncodeFields(fs, obj[f.name].props)))] else []
      case ScalarArray(dt) => if obj[f.name].Arr? then ArrayUnits(f.number, dt, obj[f.name].items) else []
      case ObjectArray(fs) => if obj[f.name].Arr? then ItemUnits(f.number, fs, obj[f.name].items) else []
  }

  function ArrayUnits(number: nat, dt: DataType, items: seq<Value>): seq<Unit> {
    if items == [] then []
    else if dt.Str? || dt.Bytes? then [ScalarUnit(number, dt, items[0])] + ArrayUnits(number, dt, items[1..])
    else [Block(number, Packed(dt, items))]
  }

  function ItemUnits(number: nat, fs: seq<Field>, items: seq<Value>): seq<Unit> {
    if items == [] then []
    else
      [Block(number, if items[0].Obj? then BytesIn(EncodeFields(fs, items[0].props)) else [])] + ItemUnits(number, fs, items[1..])
  }

  function UnitsOf(fs: seq<Field>, obj: Props): seq<Unit> {
    if fs == [] then [] else FieldUnits(fs[0], obj) + UnitsOf(fs[1..], obj)
  }

  ghost predicate AllFit(us: seq<Unit>) {
    forall u | u in us :: Fits(u)
  }

  /* ---- The encoder writes exactly these ---- */

  lemma NumberIsVarint(dt: DataType, v: Value)
    requires !(dt.Str? || dt.Bytes?) && EncodeScalar(dt, v).Ok?
    ensures EncodeScalar(dt, v).value == VarintBytes(NumberOf(dt, v)) && NumberOf(dt, v) <= MAX_UINT64
    ensures v.Num? || v.Bool?
  {
  }

  lemma ScalarIsUnit(f: Field, key: bytes, dt: DataType, v: Value)
    requires f.number <= MAX_FIELD_NUMBER && EncodeScalar(dt, v).Ok?
    requires key == VarintBytes(8 * f.number + if dt.Str? || dt.Bytes? then 2 else 0)
    ensures key + EncodeScalar(dt, v).value == Wire(ScalarUnit(f.number, dt, v)) && Fits(ScalarUnit(f.number, dt, v))
  {
    if !(dt.Str? || dt.Bytes?) {
      NumberIsVarint(dt, v);
      hide VarintBytes, EncodeScalar, NumberOf;
      assert ScalarUnit(f.number, dt, v) == Number(f.number, NumberOf(dt, v));
    } else {
      hide VarintBytes;
    }
  }

  lemma BlockIsUnit(number: nat, body: bytes)
    requires number <= MAX_FIELD_NUMBER && WriteBytes(body).Ok?
    ensures VarintBytes(8 * number + 2) + WriteBytes(body).value == Wire(Block(number, body)) && Fits(Block(number, body))
  {
    hide VarintBytes;
  }

  lemma {:induction false} ContentsArePacked(dt: DataType, items: seq<Value>)
    requires !(dt.Str? || dt.Bytes?) && Contents(dt, items).Ok?
    ensures Contents(dt, items).value == Packed(dt, items)
  {
    hide EncodeScalar, VarintBytes, NumberOf;
    if items != [] {
      NumberIsVarint(dt, items[0]);
      ContentsArePacked(dt, items[1..]);
    }
  }

  lemma {:induction false} RepeatedAreUnits(f: Field, key: bytes, dt: DataType, items: seq<Value>)
    requires f.number <= MAX_FIELD_NUMBER && (dt.Str? || dt.Bytes?) && key == VarintBytes(8 * f.number + 2)
    requires EncodeRepeated(dt, key, items).Ok?
    ensures EncodeRepeated(dt, key, items).value == Join(ArrayUnits(f.number, dt, items)) && AllFit(ArrayUnits(f.number, dt, items))
    decreases items
  {
    hide EncodeScalar, VarintBytes, Wire, Fits, ScalarUnit;
    if items != [] {
      ScalarIsUnit(f, key, dt, items[0]);
      RepeatedAreUnits(f, key, dt, items[1..]);
      var u, us := ScalarUnit(f.number, dt, items[0]), ArrayUnits(f.number, dt, items[1..]);
      assert ([u] + us)[1..] == us;
    }
  }

  lemma {:induction false} ItemsAreUnits(number: nat, key: bytes, fs: seq<Field>, items: seq<Value>)
    requires number <= MAX_FIELD_NUMBER && key == VarintBytes(8 * number + 2) && EncodeItems(fs, key, items).Ok?
    ensures EncodeItems(fs, key, items).value == Join(ItemUnits(number, fs, items)) && AllFit(ItemUnits(number, fs, items))
    decreases items
  {
    hide EncodeFields, VarintBytes, Wire, Fits, WriteBytes;
    if items != [] {
      var body := EncodeFields(fs, items[0].props).value;
      BlockIsUnit(number, body);
      ItemsAreUnits(number, key, fs, items[1..]);
      var us := ItemUnits(number, fs, items[1..]);
      assert ([Block(number, body)] + us)[1..] == us;
    }
  }

  lemma KeyMeans(f: Field)
    ensures Key(f) == VarintBytes(8 * f.number + match f.kind case Scalar(dt) => if dt.Str? || dt.Bytes? then 2 else 0 case _ => 2)
  {
    hide VarintBytes;
  }

  lemma ArrayIsUnits(f: Field, obj: Props)
    requires f.number <= MAX_FIELD_NUMBER && f.kind.ScalarArray? && EncodeField(f, obj).Ok?
    ensures EncodeField(f, obj).value == Join(FieldUnits(f, obj)) && AllFit(FieldUnits(f, obj))
  {
    hide VarintBytes, EncodeScalar, Wire, Fits, WriteBytes, Key;
    KeyMeans(f);
    var items := obj[f.name].items;
    var dt := f.kind.dt;
    if items != [] {
      if dt.Str? || dt.Bytes? {
        RepeatedAreUnits(f, Key(f), dt, items);
      } else {
        ContentsArePacked(dt, items);
        BlockIsUnit(f.number, Packed(dt, items));
        JoinOne(Block(f.number, Packed(dt, items)));
      }
    }
  }

  lemma FieldIsUnits(f: Field, obj: Props)
    requires f.number <= MAX_FIELD_NUMBER && EncodeField(f, obj).Ok?
    ensures EncodeField(f, obj).value == Join(FieldUnits(f, obj)) && AllFit(FieldUnits(f, obj))
  {
    hide VarintBytes, EncodeScalar, Wire, Fits, WriteBytes, Key, EncodeFields, ScalarUnit;
    KeyMeans(f);
    if f.name !in obj {
      if f.kind.Object? {
        BlockIsUnit(f.number, []);
        JoinOne(Block(f.number, []));
      }
    } else {
      match f.kind
      case Scalar(dt) =>
        ScalarIsUnit(f, Key(f), dt, obj[f.name]);
        JoinOne(ScalarUnit(f.number, dt, obj[f.name]));
      case Object(fs) =>
        var body := EncodeFields(fs, obj[f.name].props).value;
        BlockIsUnit(f.number, body);
        JoinOne(Block(f.number, body));
      case ScalarArray(_) => ArrayIsUnits(f, obj);
      case ObjectArray(fs) => ItemsAreUnits(f.number, Key(f), fs, obj[f.name].items);
    }
  }

  /** Every encoding is the units of its message, one after the other: the fields in the order of the schema. */
  lemma {:induction false} EncodingIsUnits(fs: seq<Field>, obj: Props)
    requires WellFormed(fs) && EncodeFields(fs, obj).Ok?
    ensures EncodeFields(fs, obj).value == Join(UnitsOf(fs, obj)) && AllFit(UnitsOf(fs, obj))
    decreases fs
  {
    hide EncodeField, FieldUnits, Wire, Fits;
    if fs != [] {
      FieldIsUnits(fs[0], obj);
      EncodingIsUnits(fs[1..], obj);
      JoinConcat(FieldUnits(fs[0], obj), UnitsOf(fs[1..], obj));
    }
  }

  /** A reader without the schema splits the encoding of every message exactly at its fields, and finds their numbers and values. */
  lemma SplitEncoding(fs: seq<Field>, obj: Props)
    requires WellFormed(fs) && Encode(fs, obj).Ok?
    ensures Split(Encode(fs, obj).value) == Ok(UnitsOf(fs, obj))
  {
    hide EncodeFields, UnitsOf, Join, Split, Fits;
    EncodingIsUnits(fs, obj);
    SplitJoin(UnitsOf(fs, obj));
  }

  /* ---- What can be encoded ---- */

  /** Exactly the values of the type within its range are written; the range of a length is that of a uint32. */
  lemma ScalarEncodesIff(dt: DataType, v: Value)
    ensures EncodeScalar(dt, v).Ok? <==>
              match dt
              case UInt32 => v.Num? && 0 <= v.n <= 4294967295
              case UInt64 => v.Num? && 0 <= v.n <= 18446744073709551615
              case SInt32 => v.Num? && -2147483648 <= v.n <= 2147483647
              case SInt64 => v.Num? && -9223372036854775808 <= v.n <= 9223372036854775807
              case Str => v.Text? && |v.data| <= 4294967295
              case Bytes => v.Bin? && |v.data| <= 4294967295
              case Boolean => v.Bool?
  {
    hide VarintBytes;
  }

  /** A property that is not there: scalars are left out, an object without properties goes out empty, anything else is an error. */
  lemma MissingOutcomes(f: Field, obj: Props)
    requires f.name !in obj
    ensures f.kind.Scalar? ==> EncodeField(f, obj) == Ok([])
    ensures f.kind == Object([]) ==> EncodeField(f, obj) == Ok(VarintBytes(8 * f.number + 2) + [0])
    ensures !f.kind.Scalar? && f.kind != Object([]) ==> EncodeField(f, obj) == Err(TypeError)
  {
    KeyMeans(f);
    assert WriteBytes([]) == Ok([0] + []) && [0] + [] == [0];
    hide VarintBytes, WriteBytes, Key;
  }

  /** A property of the wrong type is an error. */
  lemma MismatchOutcomes(f: Field, obj: Props)
    requires f.name in obj
    ensures f.kind.Object? && !obj[f.name].Obj? ==> EncodeField(f, obj) == Err(TypeError)
    ensures IsArray(f.kind) && !obj[f.name].Arr? ==> EncodeField(f, obj) == Err(TypeError)
    ensures f.kind.Scalar? && EncodeScalar(f.kind.dt, obj[f.name]).Err? ==>
              EncodeField(f, obj) == Err(EncodeScalar(f.kind.dt, obj[f.name]).error)
  {
    hide EncodeScalar;
  }

  /* ---- The numbers of a packed array ---- */

  function ReadNumbers(buf: bytes): Result<seq<nat>>
    decreases |buf|
  {
    if buf == [] then Ok([])
    else
      var (v, n) :- ReadVarint(buf, 0, W64);
      if 0 < n <= |buf| then
        var rest :- ReadNumbers(buf[n..]);
        Ok([v] + rest)
      else Err(InvalidBufferLength)
  }

  function NumbersOf(dt: DataType, items: seq<Value>): (r: seq<nat>)
    ensures |r| == |items|
  {
    if items == [] then [] else [NumberOf(dt, items[0])] + NumbersOf(dt, items[1..])
  }

  /** The block of an array of numbers is their varints, one after the other. */
  lemma {:induction false} PackedAreNumbers(dt: DataType, items: seq<Value>)
    requires forall v | v in items :: NumberOf(dt, v) <= MAX_UINT64
    ensures ReadNumbers(Packed(dt, items)) == Ok(NumbersOf(dt, items))
  {
    hide ReadVarint, VarintBytes, NumberOf;
    if items != [] {
      assert items[0] in items;
      PackedAreNumbers(dt, items[1..]);
      Widths();
      var buf := Packed(dt, items);
      assert buf[0..] == buf;
      VarintInFront(NumberOf(dt, items[0]), Packed(dt, items[1..]), buf, 0, W64);
    }
  }
}
