/**
 Different messages have different encodings, for every well-formed schema. The writer leaves out missing scalars, so
 messages with missing scalars are included.
 */
module Injective {
  import opened Wrappers
  import opened Varint
  import opened Schema
  import opened Codec
  import opened RoundTrip

  /* ---- Messages with missing scalars ---- */

  /** Every property is of its type, or a scalar that is missing. */
  predicate Partial(text: TextCheck, fs: seq<Field>, obj: Props)
    decreases fs, 0
  {
    fs != [] ==>
      && (if fs[0].name in obj then PartialField(text, fs[0], obj[fs[0].name]) else fs[0].kind.Scalar?)
      && Partial(text, fs[1..], obj)
  }

  predicate PartialField(text: TextCheck, f: Field, v: Value)
    decreases f, 1
  {
    match f.kind
    case Scalar(dt) => ConformsScalar(text, dt, v)
    case Object(fs) => v.Obj? && v.props.Keys <= Names(fs) && Partial(text, fs, v.props)
    case ScalarArray(dt) => v.Arr? && forall x | x in v.items :: ConformsScalar(text, dt, x)
    case ObjectArray(fs) => v.Arr? && forall x | x in v.items :: PartialItem(text, fs, x)
  }

  predicate PartialItem(text: TextCheck, fs: seq<Field>, x: Value)
    decreases fs, 1
  {
    x.Obj? && x.props.Keys <= Names(fs) && Partial(text, fs, x.props)
  }

  /** A message of the schema some of whose scalars, on any level, may be missing. */
  predicate PartialMessage(text: TextCheck, fs: seq<Field>, obj: Props) {
    obj.Keys <= Names(fs) && Partial(text, fs, obj)
  }

  lemma {:induction false} ConformsIsPartial(text: TextCheck, fs: seq<Field>, obj: Props)
    requires ConformsFields(text, fs, obj)
    ensures Partial(text, fs, obj)
    decreases fs, 0
  {
    if fs != [] {
      ConformsIsPartialField(text, fs[0], obj[fs[0].name]);
      ConformsIsPartial(text, fs[1..], obj);
    }
  }

  lemma {:induction false} ConformsIsPartialField(text: TextCheck, f: Field, v: Value)
    requires ConformsField(text, f, v)
    ensures PartialField(text, f, v)
    decreases f, 1
  {
    if f.kind.Object? {
      ConformsIsPartial(text, f.kind.fields, v.props);
    } else if f.kind.ObjectArray? {
      forall x | x in v.items
        ensures PartialItem(text, f.kind.fields, x)
      {
        ConformsIsPartial(text, f.kind.fields, x.props);
      }
    }
  }

  /* ---- Scalars ---- */

  /** One place of a buffer starts with the encoding of at most one scalar. */
  lemma ScalarInjective(text: TextCheck, dt: DataType, v: Value, w: Value, buf: bytes, index: nat)
    requires ConformsScalar(text, dt, v) && ConformsScalar(text, dt, w) && EncodeScalar(dt, v).Ok? && EncodeScalar(dt, w).Ok?
    requires At(buf, index, EncodeScalar(dt, v).value) && At(buf, index, EncodeScalar(dt, w).value)
    ensures v == w
  {
    hide VarintBytes, Scan, ReadU32, At;
    match dt
    case UInt32 => VarintInjective(buf, index, v.n, w.n);
    case UInt64 => VarintInjective(buf, index, v.n, w.n);
    case SInt32 => SignedInjective(v.n, w.n, MAX_SINT32, buf, index);
    case SInt64 => SignedInjective(v.n, w.n, MAX_SINT64, buf, index);
    case Str => BytesInjective(v.data, w.data, buf, index);
    case Bytes => BytesInjective(v.data, w.data, buf, index);
    case Boolean => BooleanInjective(v.b, w.b, buf, index);
  }

  lemma SignedInjective(v: int, w: int, max: nat, buf: bytes, index: nat)
    requires -(max as int) - 1 <= v <= max && -(max as int) - 1 <= w <= max && 2 * max + 1 <= MAX_UINT64
    requires WriteSigned(v, max).Ok? && WriteSigned(w, max).Ok?
    requires At(buf, index, WriteSigned(v, max).value) && At(buf, index, WriteSigned(w, max).value)
    ensures v == w
  {
    hide VarintBytes, At;
    ZigZagBijection(v, 0, max);
    ZigZagBijection(w, 0, max);
    VarintInjective(buf, index, ZigZag(v), ZigZag(w));
  }

  lemma BytesInjective(a: bytes, b: bytes, buf: bytes, index: nat)
    requires WriteBytes(a).Ok? && WriteBytes(b).Ok? && At(buf, index, WriteBytes(a).value) && At(buf, index, WriteBytes(b).value)
    ensures a == b
  {
    hide ReadU32, WriteBytes;
    DelimitedAt(buf, index, a);
    DelimitedAt(buf, index, b);
  }

  lemma BooleanInjective(a: bool, b: bool, buf: bytes, index: nat)
    requires At(buf, index, [if a then 1 else 0]) && At(buf, index, [if b then 1 else 0])
    ensures a == b
  {
    assert buf[index..index + 1][0] == if a then 1 else 0;
  }

  lemma ScalarNotEmpty(dt: DataType, v: Value)
    requires EncodeScalar(dt, v).Ok?
    ensures EncodeScalar(dt, v).value != []
  {
  }

  /* ---- Where an array ends ---- */

  lemma StartsWithKey(f: Field, obj: Props)
    requires EncodeField(f, obj).Ok? && EncodeField(f, obj).value != []
    ensures Key(f) <= EncodeField(f, obj).value
  {
    if f.name in obj {
      FieldStartsWithKey(f, obj);
    }
  }

  /** A non-empty encoding starts with the key of one of the fields. */
  lemma {:induction false} FirstTrace(fs: seq<Field>, obj: Props) returns (g: Field)
    requires EncodeFields(fs, obj).Ok? && EncodeFields(fs, obj).value != []
    ensures g in fs && Key(g) <= EncodeFields(fs, obj).value
  {
    hide EncodeField, Key;
    var head := EncodeField(fs[0], obj).value;
    assert EncodeFields(fs, obj).value == head + EncodeFields(fs[1..], obj).value;
    if head == [] {
      g := FirstTrace(fs[1..], obj);
    } else {
      StartsWithKey(fs[0], obj);
      g := fs[0];
    }
  }

  /** The fields behind `f` do not start with the key of `f`. */
  lemma NotTheKey(f: Field, rest: seq<Field>, obj: Props, buf: bytes, index: nat, terminate: nat)
    requires WellFormed(rest) && f.number <= MAX_FIELD_NUMBER && forall h | h in rest :: f.number < h.number
    requires EncodedAt(rest, obj, buf, index, terminate) && index < terminate
    ensures !At(buf, index, Key(f))
  {
    hide EncodeFields, VarintBytes, ReadU32;
    var e := EncodeFields(rest, obj).value;
    var g := FirstTrace(rest, obj);
    WellFormedNumbers(rest);
    assert e == Key(g) + e[|Key(g)|..];
    AtSplit(buf, index, Key(g), e[|Key(g)|..]);
    KeyComplete(g, buf, index);
    if At(buf, index, Key(f)) {
      KeyComplete(f, buf, index);
      assert false;
    }
  }

  /** `e`, and behind it the fields `rest` up to `terminate`, stand at `index`. */
  ghost predicate Before(e: bytes, rest: seq<Field>, obj: Props, buf: bytes, index: nat, terminate: nat) {
    At(buf, index, e) && EncodedAt(rest, obj, buf, index + |e|, terminate)
  }

  /** Not both: an array that ends here, and one that goes on. */
  lemma EndsOrGoesOn(f: Field, rest: seq<Field>, a: Props, b: Props, e: bytes, buf: bytes, index: nat, terminate: nat)
    requires WellFormed(rest) && f.number <= MAX_FIELD_NUMBER && forall h | h in rest :: f.number < h.number
    requires Before([], rest, a, buf, index, terminate) && Before(e, rest, b, buf, index, terminate)
    ensures !(Key(f) <= e)
  {
    hide EncodeFields, VarintBytes;
    if Key(f) <= e {
      assert e == Key(f) + e[|Key(f)|..];
      AtSplit(buf, index, Key(f), e[|Key(f)|..]);
      NotTheKey(f, rest, a, buf, index, terminate);
      assert false;
    }
  }

  lemma BeforeTail(e: bytes, tail: bytes, rest: seq<Field>, obj: Props, buf: bytes, index: nat, terminate: nat)
    requires Before(e + tail, rest, obj, buf, index, terminate)
    ensures At(buf, index, e) && Before(tail, rest, obj, buf, index + |e|, terminate)
  {
    AtSplit(buf, index, e, tail);
  }

  /* ---- Arrays of scalars ---- */

  lemma {:induction false} ContentsInjective(
    text: TextCheck, dt: DataType, xs: seq<Value>, ys: seq<Value>, buf: bytes, index: nat)
    requires (forall x | x in xs :: ConformsScalar(text, dt, x)) && (forall y | y in ys :: ConformsScalar(text, dt, y))
    requires Contents(dt, xs).Ok? && Contents(dt, ys).Ok? && |Contents(dt, xs).value| == |Contents(dt, ys).value|
    requires At(buf, index, Contents(dt, xs).value) && At(buf, index, Contents(dt, ys).value)
    ensures xs == ys
    decreases xs
  {
    hide EncodeScalar, ConformsScalar, At;
    if xs != [] {
      ScalarNotEmpty(dt, xs[0]);
    }
    if ys != [] {
      ScalarNotEmpty(dt, ys[0]);
    }
    if xs != [] && ys != [] {
      AtSplit(buf, index, EncodeScalar(dt, xs[0]).value, Contents(dt, xs[1..]).value);
      AtSplit(buf, index, EncodeScalar(dt, ys[0]).value, Contents(dt, ys[1..]).value);
      ScalarInjective(text, dt, xs[0], ys[0], buf, index);
      ContentsInjective(text, dt, xs[1..], ys[1..], buf, index + |EncodeScalar(dt, xs[0]).value|);
      assert xs == [xs[0]] + xs[1..] && ys == [ys[0]] + ys[1..];
    }
  }

  lemma {:induction false} RepeatedInjective(
    text: TextCheck, f: Field, rest: seq<Field>, a: Props, b: Props, xs: seq<Value>, ys: seq<Value>,
    buf: bytes, index: nat, terminate: nat)
    requires f.kind.ScalarArray? && f.number <= MAX_FIELD_NUMBER && WellFormed(rest)
    requires forall h | h in rest :: f.number < h.number
    requires forall x | x in xs :: ConformsScalar(text, f.kind.dt, x)
    requires forall y | y in ys :: ConformsScalar(text, f.kind.dt, y)
    requires EncodeRepeated(f.kind.dt, Key(f), xs).Ok? && EncodeRepeated(f.kind.dt, Key(f), ys).Ok?
    requires Before(EncodeRepeated(f.kind.dt, Key(f), xs).value, rest, a, buf, index, terminate)
    requires Before(EncodeRepeated(f.kind.dt, Key(f), ys).value, rest, b, buf, index, terminate)
    ensures xs == ys
    decreases xs
  {
    hide EncodeScalar, ConformsScalar, Before, WellFormed, Key, At;
    var dt, key := f.kind.dt, Key(f);
    var ex, ey := EncodeRepeated(dt, key, xs).value, EncodeRepeated(dt, key, ys).value;
    if xs == [] && ys != [] {
      assert ey == key + (EncodeScalar(dt, ys[0]).value + EncodeRepeated(dt, key, ys[1..]).value);
      EndsOrGoesOn(f, rest, a, b, ey, buf, index, terminate);
      assert false;
    } else if xs != [] && ys == [] {
      assert ex == key + (EncodeScalar(dt, xs[0]).value + EncodeRepeated(dt, key, xs[1..]).value);
      EndsOrGoesOn(f, rest, b, a, ex, buf, index, terminate);
      assert false;
    } else if xs != [] {
      var px, py := EncodeScalar(dt, xs[0]).value, EncodeScalar(dt, ys[0]).value;
      BeforeTail(key + px, EncodeRepeated(dt, key, xs[1..]).value, rest, a, buf, index, terminate);
      BeforeTail(key + py, EncodeRepeated(dt, key, ys[1..]).value, rest, b, buf, index, terminate);
      AtSplit(buf, index, key, px);
      AtSplit(buf, index, key, py);
      ScalarInjective(text, dt, xs[0], ys[0], buf, index + |key|);
      RepeatedInjective(text, f, rest, a, b, xs[1..], ys[1..], buf, index + |key| + |px|, terminate);
      assert xs == [xs[0]] + xs[1..] && ys == [ys[0]] + ys[1..];
    }
  }

  lemma PackedInjective(
    text: TextCheck, f: Field, rest: seq<Field>, a: Props, b: Props, xs: seq<Value>, ys: seq<Value>,
    buf: bytes, index: nat, terminate: nat)
    requires f.kind.ScalarArray? && f.number <= MAX_FIELD_NUMBER && WellFormed(rest)
    requires forall h | h in rest :: f.number < h.number
    requires forall x | x in xs :: ConformsScalar(text, f.kind.dt, x)
    requires forall y | y in ys :: ConformsScalar(text, f.kind.dt, y)
    requires EncodePacked(f.kind.dt, Key(f), xs).Ok? && EncodePacked(f.kind.dt, Key(f), ys).Ok?
    requires Before(EncodePacked(f.kind.dt, Key(f), xs).value, rest, a, buf, index, terminate)
    requires Before(EncodePacked(f.kind.dt, Key(f), ys).value, rest, b, buf, index, terminate)
    ensures xs == ys
  {
    hide ConformsScalar, WellFormed, Key, WriteBytes, Contents, At, EncodedAt, ReadU32;
    var dt, key := f.kind.dt, Key(f);
    if xs == [] && ys != [] {
      EndsOrGoesOn(f, rest, a, b, EncodePacked(dt, key, ys).value, buf, index, terminate);
      assert false;
    } else if xs != [] && ys == [] {
      EndsOrGoesOn(f, rest, b, a, EncodePacked(dt, key, xs).value, buf, index, terminate);
      assert false;
    } else if xs != [] {
      var x, y := Contents(dt, xs).value, Contents(dt, ys).value;
      AtSplit(buf, index, key, WriteBytes(x).value);
      AtSplit(buf, index, key, WriteBytes(y).value);
      DelimitedAt(buf, index + |key|, x);
      DelimitedAt(buf, index + |key|, y);
      ContentsInjective(text, dt, xs, ys, buf, index + |key| + PrefixSize(x));
    }
  }

  /* ---- The mutual induction ---- */

  ghost predicate SameAt(f: Field, a: Props, b: Props) {
    (f.name in a <==> f.name in b) && (f.name in a ==> a[f.name] == b[f.name])
  }

  lemma {:induction false} FieldsInjective(
    text: TextCheck, fs: seq<Field>, a: Props, b: Props, buf: bytes, index: nat, terminate: nat)
    requires WellFormed(fs) && Partial(text, fs, a) && Partial(text, fs, b)
    requires EncodedAt(fs, a, buf, index, terminate) && EncodedAt(fs, b, buf, index, terminate)
    ensures Restrict(fs, a) == Restrict(fs, b)
    decreases fs, 0
  {
    hide EncodeField, Restrict, At, PartialField, WellFormedField;
    if fs == [] {
      RestrictEmpty(a);
      RestrictEmpty(b);
    } else {
      EncodedStep(fs, a, buf, index, terminate);
      EncodedStep(fs, b, buf, index, terminate);
      FieldInjective(text, fs[0], fs[1..], a, b, buf, index, terminate);
      SameField(fs[0], a, b);
      FieldsInjective(text, fs[1..], a, b, buf, index + |EncodeField(fs[0], a).value|, terminate);
      RestrictSame(fs, a, b);
    }
  }

  lemma SameField(f: Field, a: Props, b: Props)
    requires SameAt(f, a, b)
    ensures EncodeField(f, a) == EncodeField(f, b)
  {
  }

  lemma RestrictSame(fs: seq<Field>, a: Props, b: Props)
    requires fs != [] && SameAt(fs[0], a, b) && Restrict(fs[1..], a) == Restrict(fs[1..], b)
    ensures Restrict(fs, a) == Restrict(fs, b)
  {
    assert fs == [fs[0]] + fs[1..];
    forall n
      ensures n in Restrict(fs, a) <==> n in Restrict(fs, b)
      ensures n in Restrict(fs, a) ==> Restrict(fs, a)[n] == Restrict(fs, b)[n]
    {
      assert n in Restrict(fs[1..], a) <==> n in Restrict(fs[1..], b);
    }
  }

  /** A scalar that is missing in one message only would have to start with its own key where it leaves no trace. */
  lemma OneMissing(f: Field, rest: seq<Field>, a: Props, b: Props, buf: bytes, index: nat, terminate: nat)
    requires f.kind.Scalar? && f.number <= MAX_FIELD_NUMBER && WellFormed(rest) && forall h | h in rest :: f.number < h.number
    requires f.name !in a && f.name in b && EncodeField(f, b).Ok?
    ensures !(Before([], rest, a, buf, index, terminate) && Before(EncodeField(f, b).value, rest, b, buf, index, terminate))
  {
    hide WellFormed, Before, EncodeScalar, Key;
    assert Key(f) <= EncodeField(f, b).value;
    if Before([], rest, a, buf, index, terminate) && Before(EncodeField(f, b).value, rest, b, buf, index, terminate) {
      EndsOrGoesOn(f, rest, a, b, EncodeField(f, b).value, buf, index, terminate);
      assert false;
    }
  }

  lemma {:induction false} FieldInjective(
    text: TextCheck, f: Field, rest: seq<Field>, a: Props, b: Props, buf: bytes, index: nat, terminate: nat)
    requires WellFormedField(f) && WellFormed(rest) && forall g | g in rest :: f.number < g.number
    requires if f.name in a then PartialField(text, f, a[f.name]) else f.kind.Scalar?
    requires if f.name in b then PartialField(text, f, b[f.name]) else f.kind.Scalar?
    requires EncodeField(f, a).Ok? && At(buf, index, EncodeField(f, a).value)
    requires EncodeField(f, b).Ok? && At(buf, index, EncodeField(f, b).value)
    requires EncodedAt(rest, a, buf, index + |EncodeField(f, a).value|, terminate)
    requires EncodedAt(rest, b, buf, index + |EncodeField(f, b).value|, terminate)
    ensures SameAt(f, a, b)
    decreases f, 1
  {
    hide EncodeScalar, ReadU32, VarintBytes, WriteBytes, ConformsScalar, EncodeFields, EncodeItems, EncodeRepeated,
         EncodePacked, At, Restrict, EncodedAt, Key, PartialItem;
    if f.name !in a && f.name in b {
      OneMissing(f, rest, a, b, buf, index, terminate);
      assert false;
    } else if f.name in a && f.name !in b {
      OneMissing(f, rest, b, a, buf, index, terminate);
      assert false;
    } else if f.name in a {
      var v, w, key := a[f.name], b[f.name], Key(f);
      match f.kind
      case Scalar(dt) =>
        AtSplit(buf, index, key, EncodeScalar(dt, v).value);
        AtSplit(buf, index, key, EncodeScalar(dt, w).value);
        ScalarInjective(text, dt, v, w, buf, index + |key|);
      case Object(fs) =>
        ObjectInjective(text, f, fs, v.props, w.props, buf, index);
      case ScalarArray(dt) =>
        if LengthDelimited(dt) {
          RepeatedInjective(text, f, rest, a, b, v.items, w.items, buf, index, terminate);
        } else {
          PackedInjective(text, f, rest, a, b, v.items, w.items, buf, index, terminate);
        }
      case ObjectArray(fs) =>
        ItemsInjective(text, f, rest, a, b, fs, v.items, w.items, buf, index, terminate);
    }
  }

  lemma RestrictPart(fs: seq<Field>, obj: Props)
    requires obj.Keys <= Names(fs)
    ensures Restrict(fs, obj) == obj
  {
  }

  lemma {:induction false} ObjectInjective(
    text: TextCheck, f: Field, fs: seq<Field>, x: Props, y: Props, buf: bytes, index: nat)
    requires f.number <= MAX_FIELD_NUMBER && WellFormed(fs) && PartialMessage(text, fs, x) && PartialMessage(text, fs, y)
    requires EncodeFields(fs, x).Ok? && EncodeFields(fs, y).Ok?
    requires WriteBytes(EncodeFields(fs, x).value).Ok? && WriteBytes(EncodeFields(fs, y).value).Ok?
    requires At(buf, index, Key(f) + WriteBytes(EncodeFields(fs, x).value).value)
    requires At(buf, index, Key(f) + WriteBytes(EncodeFields(fs, y).value).value)
    ensures x == y
    decreases fs, 1
  {
    hide ReadU32, WriteBytes, WellFormed, Partial, Restrict, EncodeFields, At, Key;
    var p, q := EncodeFields(fs, x).value, EncodeFields(fs, y).value;
    BodyAt(f, p, buf, index);
    BodyAt(f, q, buf, index);
    var start := index + |Key(f)| + PrefixSize(p);
    FieldsInjective(text, fs, x, y, buf, start, start + |p|);
    RestrictPart(fs, x);
    RestrictPart(fs, y);
  }

  lemma {:induction false} ItemsInjective(
    text: TextCheck, f: Field, rest: seq<Field>, a: Props, b: Props, fs: seq<Field>, xs: seq<Value>, ys: seq<Value>,
    buf: bytes, index: nat, terminate: nat)
    requires f.number <= MAX_FIELD_NUMBER && WellFormed(rest) && WellFormed(fs)
    requires forall h | h in rest :: f.number < h.number
    requires (forall x | x in xs :: PartialItem(text, fs, x)) && (forall y | y in ys :: PartialItem(text, fs, y))
    requires EncodeItems(fs, Key(f), xs).Ok? && EncodeItems(fs, Key(f), ys).Ok?
    requires Before(EncodeItems(fs, Key(f), xs).value, rest, a, buf, index, terminate)
    requires Before(EncodeItems(fs, Key(f), ys).value, rest, b, buf, index, terminate)
    ensures xs == ys
    decreases fs, 2, xs
  {
    hide Partial, Before, WellFormed, Key, WriteBytes, EncodeFields, EncodeItems, At, Names;
    var key := Key(f);
    NoItem(fs, key);
    if xs == [] && ys != [] {
      var _ := FirstItem(fs, key, ys);
      EndsOrGoesOn(f, rest, a, b, EncodeItems(fs, key, ys).value, buf, index, terminate);
      assert false;
    } else if xs != [] && ys == [] {
      var _ := FirstItem(fs, key, xs);
      EndsOrGoesOn(f, rest, b, a, EncodeItems(fs, key, xs).value, buf, index, terminate);
      assert false;
    } else if xs != [] {
      assert xs[0] in xs && ys[0] in ys;
      var px := FirstItem(fs, key, xs);
      var py := FirstItem(fs, key, ys);
      BeforeTail(key + px, EncodeItems(fs, key, xs[1..]).value, rest, a, buf, index, terminate);
      BeforeTail(key + py, EncodeItems(fs, key, ys[1..]).value, rest, b, buf, index, terminate);
      ObjectInjective(text, f, fs, xs[0].props, ys[0].props, buf, index);
      ItemsInjective(text, f, rest, a, b, fs, xs[1..], ys[1..], buf, index + |key| + |px|, terminate);
      assert xs == [xs[0]] + xs[1..] && ys == [ys[0]] + ys[1..];
    }
  }

  lemma NoItem(fs: seq<Field>, key: bytes)
    ensures EncodeItems(fs, key, []) == Ok([])
  {
  }

  /** The first of the items, behind its key. */
  lemma FirstItem(fs: seq<Field>, key: bytes, items: seq<Value>) returns (payload: bytes)
    requires items != [] && EncodeItems(fs, key, items).Ok?
    ensures items[0].Obj? && EncodeFields(fs, items[0].props).Ok? && EncodeItems(fs, key, items[1..]).Ok?
    ensures WriteBytes(EncodeFields(fs, items[0].props).value) == Ok(payload)
    ensures EncodeItems(fs, key, items).value == key + payload + EncodeItems(fs, key, items[1..]).value
    ensures key <= EncodeItems(fs, key, items).value
  {
    hide EncodeFields, WriteBytes;
    payload := WriteBytes(EncodeFields(fs, items[0].props).value).value;
  }

  /* ---- Main theorems ---- */

  /** Different messages of a well-formed schema have different encodings, also when scalars are missing. */
  lemma PartialInjective(text: TextCheck, fs: seq<Field>, a: Props, b: Props)
    requires WellFormed(fs) && PartialMessage(text, fs, a) && PartialMessage(text, fs, b)
    requires Encode(fs, a).Ok? && Encode(fs, a) == Encode(fs, b)
    ensures a == b
  {
    hide WellFormed, Partial, EncodeFields, Restrict;
    var buf := Encode(fs, a).value;
    FieldsInjective(text, fs, a, b, buf, 0, |buf|);
    RestrictPart(fs, a);
    RestrictPart(fs, b);
  }

  /** In particular for complete messages. */
  lemma EncodeInjective(text: TextCheck, fs: seq<Field>, a: Props, b: Props)
    requires WellFormed(fs) && Conforms(text, fs, a) && Conforms(text, fs, b)
    requires Encode(fs, a).Ok? && Encode(fs, a) == Encode(fs, b)
    ensures a == b
  {
    hide WellFormed, ConformsFields, Partial, Encode;
    ConformsIsPartial(text, fs, a);
    ConformsIsPartial(text, fs, b);
    PartialInjective(text, fs, a, b);
  }
}
