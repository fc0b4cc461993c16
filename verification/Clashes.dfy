/**
 Keys that start alike. Array elements are recognised by the first byte of their key only, so an array may run on into
 the field behind it; it then never comes back.
 */
module Clashes {
  import opened Wrappers
  import opened Varint
  import opened Schema
  import opened Codec
  import opened RoundTrip
  import opened Decoding

  /* ---- Equal first bytes mean equal wire types ---- */

  /** The first byte of a key shows its wire type. */
  lemma FirstByteShowsWireType(f: Field)
    ensures Key(f)[0] % 8 == WireType(f.kind)
  {
  }

  /* ---- An array of strings or byte strings runs on ---- */

  /** An element is as long as its encoding says, whatever is read from it. */
  lemma ElementLength(text: TextCheck, dt: DataType, v: Value, buf: bytes, offset: nat)
    requires LengthDelimited(dt) && ConformsScalar(text, dt, v)
    requires EncodeScalar(dt, v).Ok? && At(buf, offset, EncodeScalar(dt, v).value)
    ensures var r := DecodeElement(text, false, dt, buf, offset); r.Ok? ==> r.value.1 == |EncodeScalar(dt, v).value|
  {
    hide EncodeScalar, DecodeElement, ConformsScalar, LosslessScalar;
    if LosslessScalar(dt, v) {
      ElementComplete(text, false, dt, v, buf, offset);
    } else {
      ElementLossy(text, dt, v, buf, offset);
    }
  }

  /** The loop reads as many elements as were written, and goes on behind them. */
  lemma {:induction false} RepeatedCount(text: TextCheck, f: Field, items: seq<Value>, buf: bytes, index: nat, terminate: nat)
    requires f.kind.ScalarArray? && LengthDelimited(f.kind.dt) && f.number <= MAX_FIELD_NUMBER
    requires forall x | x in items :: ConformsScalar(text, f.kind.dt, x)
    requires EncodeRepeated(f.kind.dt, Key(f), items).Ok?
    requires var e := EncodeRepeated(f.kind.dt, Key(f), items).value; At(buf, index, e) && index + |e| <= terminate
    ensures var end := index + |EncodeRepeated(f.kind.dt, Key(f), items).value|;
            var r := DecodeRepeated(text, false, f.kind.dt, KeyValue(f), buf, index, terminate, Key(f)[0]);
            var behind := DecodeRepeated(text, false, f.kind.dt, KeyValue(f), buf, end, terminate, Key(f)[0]);
            r.Ok? ==> behind.Ok? && |r.value.0| == |items| + |behind.value.0|
    decreases items
  {
    hide EncodeScalar, DecodeElement, ReadU32, VarintBytes, ConformsScalar;
    if items != [] {
      var dt := f.kind.dt;
      var payload := EncodeScalar(dt, items[0]).value;
      var tail := EncodeRepeated(dt, Key(f), items[1..]).value;
      assert EncodeRepeated(dt, Key(f), items).value == Key(f) + payload + tail;
      AtSplit(buf, index, Key(f) + payload, tail);
      AtSplit(buf, index, Key(f), payload);
      KeyComplete(f, buf, index);
      ElementLength(text, dt, items[0], buf, index + |Key(f)|);
      RepeatedCount(text, f, items[1..], buf, index + |Key(f)| + |payload|, terminate);
    }
  }

  /** When a key that starts like its own follows, the array comes back longer, if at all. */
  lemma RepeatedOverrun(text: TextCheck, f: Field, items: seq<Value>, buf: bytes, index: nat, terminate: nat)
    requires f.kind.ScalarArray? && LengthDelimited(f.kind.dt) && f.number <= MAX_FIELD_NUMBER
    requires forall x | x in items :: ConformsScalar(text, f.kind.dt, x)
    requires EncodeRepeated(f.kind.dt, Key(f), items).Ok?
    requires var end := index + |EncodeRepeated(f.kind.dt, Key(f), items).value|;
             && At(buf, index, EncodeRepeated(f.kind.dt, Key(f), items).value)
             && end < terminate && end < |buf| && buf[end] == Key(f)[0]
    ensures var r := DecodeRepeated(text, false, f.kind.dt, KeyValue(f), buf, index, terminate, Key(f)[0]);
            r.Ok? ==> |r.value.0| > |items|
  {
    hide DecodeElement, ReadU32, VarintBytes, EncodeRepeated, ConformsScalar;
    RepeatedCount(text, f, items, buf, index, terminate);
  }

  /* ---- An array of objects runs on ---- */

  /** Where the loop over objects stops does not depend on what it reads. */
  lemma {:induction false} ItemsEnd(
    text: TextCheck, f: Field, fs: seq<Field>, items: seq<Value>, buf: bytes, index: nat, terminate: nat)
    requires f.number <= MAX_FIELD_NUMBER
    requires EncodeItems(fs, Key(f), items).Ok?
    requires var e := EncodeItems(fs, Key(f), items).value; At(buf, index, e) && index + |e| <= terminate
    ensures var end := index + |EncodeItems(fs, Key(f), items).value|;
            var r := DecodeItems(text, false, fs, KeyValue(f), buf, index, terminate, Key(f)[0]);
            var behind := DecodeItems(text, false, fs, KeyValue(f), buf, end, terminate, Key(f)[0]);
            r.Ok? ==> behind.Ok? && r.value.1 == behind.value.1
    decreases items
  {
    hide ReadU32, VarintBytes, WriteBytes, DecodeObject, EncodeFields, DecodeItems, EncodeItems, At, Present;
    if items == [] {
      NoItems(text, false, f, fs, buf, index, terminate);
    } else {
      ItemsEncodedStep(fs, f, items, buf, index);
      var body := EncodeFields(fs, items[0].props).value;
      BodyAt(f, body, buf, index);
      ItemsStep(text, false, f, fs, buf, index, terminate, |body|, PrefixSize(body));
      ItemsEnd(text, f, fs, items[1..], buf, index + |Key(f)| + PrefixSize(body) + |body|, terminate);
    }
  }

  /** The delimited part of a field of wire type 2: all of it, or its first element. */
  lemma DelimitedUnit(body: bytes, tail: bytes, key: bytes, buf: bytes, index: nat, size: nat, n: nat)
    requires WriteBytes(body).Ok? && At(buf, index, key + WriteBytes(body).value + tail)
    requires ReadU32(buf, index + |key|) == Ok((size, n))
    ensures |WriteBytes(body).value| == n + size && At(buf, index + |key| + n + size, tail)
  {
    hide ReadU32, WriteBytes;
    AtSplit(buf, index, key + WriteBytes(body).value, tail);
    AtSplit(buf, index, key, WriteBytes(body).value);
    DelimitedAt(buf, index + |key|, body);
  }

  /** The loop takes a field of wire type 2 whole, or its first element when it has one key per element. */
  lemma SwallowedUnit(g: Field, obj: Props, buf: bytes, index: nat, size: nat, n: nat)
    requires g.name in obj && EncodeField(g, obj).Ok? && !Silent(g, obj) && At(buf, index, EncodeField(g, obj).value)
    requires WireType(g.kind) == 2 && ReadU32(buf, index + |Key(g)|) == Ok((size, n))
    ensures if IsRepeated(g.kind) then
              && obj[g.name].Arr? && obj[g.name].items != []
              && var trimmed := obj[g.name := Arr(obj[g.name].items[1..])];
              && EncodeField(g, trimmed).Ok? && At(buf, index + |Key(g)| + n + size, EncodeField(g, trimmed).value)
              && |EncodeField(g, obj).value| == |Key(g)| + n + size + |EncodeField(g, trimmed).value|
            else |EncodeField(g, obj).value| == |Key(g)| + n + size
  {
    hide ReadU32, WriteBytes, EncodeFields, Key, At;
    var v, key := obj[g.name], Key(g);
    var e := EncodeField(g, obj).value;
    match g.kind
    case Scalar(dt) =>
      assert e == key + WriteBytes(v.data).value + [];
      DelimitedUnit(v.data, [], key, buf, index, size, n);
    case Object(fs) =>
      assert e == key + WriteBytes(EncodeFields(fs, v.props).value).value + [];
      DelimitedUnit(EncodeFields(fs, v.props).value, [], key, buf, index, size, n);
    case ScalarArray(dt) =>
      if LengthDelimited(dt) {
        DelimitedUnit(v.items[0].data, EncodeRepeated(dt, key, v.items[1..]).value, key, buf, index, size, n);
      } else {
        assert e == key + WriteBytes(Contents(dt, v.items).value).value + [];
        DelimitedUnit(Contents(dt, v.items).value, [], key, buf, index, size, n);
      }
    case ObjectArray(fs) =>
      DelimitedUnit(EncodeFields(fs, v.items[0].props).value, EncodeItems(fs, key, v.items[1..]).value, key, buf, index, size, n);
  }

  /** Some of the fields leaves a trace. */
  ghost predicate Traced(fs: seq<Field>, obj: Props) {
    exists g :: g in fs && !Silent(g, obj)
  }

  /** A step of the loop takes a key, a size and as many bytes. */
  lemma SwallowStep(text: TextCheck, fs: seq<Field>, expected: nat, key: nat, k: nat, buf: bytes, index: nat, terminate: nat, start: byte)
    returns (size: nat, n: nat, end: nat)
    requires More(buf, index, terminate, start) && ReadU32(buf, index) == Ok((key, k))
    requires DecodeItems(text, false, fs, expected, buf, index, terminate, start).Ok?
    ensures ReadU32(buf, index + k) == Ok((size, n))
    ensures EndOf(DecodeItems(text, false, fs, expected, buf, index, terminate, start)) == Some(end)
    ensures EndOf(DecodeItems(text, false, fs, expected, buf, index + k + n + size, terminate, start)) == Some(end)
  {
    hide ReadU32, DecodeObject;
    size, n := ReadU32(buf, index + k).value.0, ReadU32(buf, index + k).value.1;
    end := DecodeItems(text, false, fs, expected, buf, index, terminate, start).value.1;
  }

  /** Where a loop stopped. */
  function EndOf(r: Result<(seq<Value>, nat)>): Option<nat> {
    if r.Ok? then Some(r.value.1) else None
  }

  lemma FieldKeyAt(g: Field, obj: Props, buf: bytes, index: nat)
    requires g.name in obj && EncodeField(g, obj).Ok? && !Silent(g, obj) && At(buf, index, EncodeField(g, obj).value)
    requires g.number <= MAX_FIELD_NUMBER
    ensures ReadU32(buf, index) == Ok((KeyValue(g), |Key(g)|)) && index < |buf| && buf[index] == Key(g)[0]
    ensures |EncodeField(g, obj).value| > 0
  {
    hide EncodeField, ReadU32, VarintBytes;
    var h := EncodeField(g, obj).value;
    SilentIffEmpty(g, obj);
    FieldStartsWithKey(g, obj);
    assert h == Key(g) + h[|Key(g)|..];
    AtSplit(buf, index, Key(g), h[|Key(g)|..]);
    KeyComplete(g, buf, index);
  }

  lemma TrimmedFrame(g: Field, rest: seq<Field>, obj: Props, v: Value)
    requires (forall h | h in rest :: h.name in obj && h.name != g.name)
    ensures EncodeFields(rest, obj[g.name := v]) == EncodeFields(rest, obj)
  {
    EncodeFrame(rest, obj, obj[g.name := v]);
  }

  function ItemCount(rest: seq<Field>, obj: Props): nat {
    if rest != [] && rest[0].name in obj && obj[rest[0].name].Arr? then |obj[rest[0].name].items| else 0
  }

  /** A loop over objects that runs on stops in front of a field, having swallowed the earlier ones whole. */
  lemma {:induction false} Swallows(
    text: TextCheck, fs: seq<Field>, expected: nat, rest: seq<Field>, obj: Props, buf: bytes, index: nat, terminate: nat, start: byte)
    returns (j: nat)
    requires WellFormed(rest) && (forall h | h in rest :: h.name in obj) && EncodedAt(rest, obj, buf, index, terminate)
    requires start % 8 == 2 && DecodeItems(text, false, fs, expected, buf, index, terminate, start).Ok?
    ensures var next := DecodeItems(text, false, fs, expected, buf, index, terminate, start).value.1;
            j <= |rest| && EncodedAt(rest[j..], obj, buf, next, terminate)
    ensures More(buf, index, terminate, start) ==> Traced(rest[..j], obj)
    decreases |rest|, ItemCount(rest, obj)
  {
    hide ReadU32, EncodeField, DecodeItems, VarintBytes;
    if !More(buf, index, terminate, start) {
      NothingMore(text, fs, expected, buf, index, terminate, start);
      assert rest[0..] == rest;
      return 0;
    }
    if rest == [] {
      EncodedEmpty(obj, buf, index, terminate);
      assert false;
    } else {
      j := SwallowsOne(text, fs, expected, rest, obj, buf, index, terminate, start);
    }
  }

  lemma NothingMore(text: TextCheck, fs: seq<Field>, expected: nat, buf: bytes, index: nat, terminate: nat, start: byte)
    requires !More(buf, index, terminate, start)
    ensures DecodeItems(text, false, fs, expected, buf, index, terminate, start) == Ok(([], index))
  {
  }

  lemma TracedTail(rest: seq<Field>, obj: Props, j: nat)
    requires rest != [] && j < |rest|
    ensures rest[1..][j..] == rest[j + 1..]
    ensures rest[..j + 1] == [rest[0]] + rest[1..][..j]
    ensures Traced(rest[1..][..j], obj) ==> Traced(rest[..j + 1], obj)
    ensures !Silent(rest[0], obj) ==> Traced(rest[..j + 1], obj)
  {
    assert rest[..j + 1] == [rest[0]] + rest[1..][..j];
    assert rest[0] in rest[..j + 1];
    if Traced(rest[1..][..j], obj) {
      var g :| g in rest[1..][..j] && !Silent(g, obj);
      assert g in rest[..j + 1];
    }
  }

  lemma {:induction false} SwallowsOne(
    text: TextCheck, fs: seq<Field>, expected: nat, rest: seq<Field>, obj: Props, buf: bytes, index: nat, terminate: nat, start: byte)
    returns (j: nat)
    requires WellFormed(rest) && (forall h | h in rest :: h.name in obj) && EncodedAt(rest, obj, buf, index, terminate)
    requires start % 8 == 2 && DecodeItems(text, false, fs, expected, buf, index, terminate, start).Ok?
    requires rest != [] && More(buf, index, terminate, start)
    ensures var next := DecodeItems(text, false, fs, expected, buf, index, terminate, start).value.1;
            j <= |rest| && EncodedAt(rest[j..], obj, buf, next, terminate)
    ensures Traced(rest[..j], obj)
    decreases |rest|, ItemCount(rest, obj), 0
  {
    hide ReadU32, EncodeField, DecodeItems, VarintBytes, EncodedAt, EncodeFields, At, Traced, More;
    var g := rest[0];
    assert g in rest && (forall h | h in rest[1..] :: h in rest) && WellFormed(rest[1..]) && g.number <= MAX_FIELD_NUMBER;
    hide WellFormed, Key, KeyValue;
    EncodedStep(rest, obj, buf, index, terminate);
    SilentIffEmpty(g, obj);
    if Silent(g, obj) {
      j := Swallows(text, fs, expected, rest[1..], obj, buf, index, terminate, start);
      TracedTail(rest, obj, j);
      j := j + 1;
    } else {
      FieldKeyAt(g, obj, buf, index);
      assert buf[index] == start by { MoreStarts(buf, index, terminate, start); }
      FirstByteShowsWireType(g);
      var size, n, end := SwallowStep(text, fs, expected, KeyValue(g), |Key(g)|, buf, index, terminate, start);
      SwallowedUnit(g, obj, buf, index, size, n);
      var next := index + |Key(g)| + n + size;
      if IsRepeated(g.kind) && |obj[g.name].items| > 1 {
        j := SwallowsMore(text, fs, expected, rest, obj, buf, index, terminate, start, next);
      } else {
        LastUnit(g, obj);
        j := Swallows(text, fs, expected, rest[1..], obj, buf, next, terminate, start);
        TracedTail(rest, obj, j);
        j := j + 1;
      }
    }
  }

  lemma MoreStarts(buf: bytes, index: nat, terminate: nat, start: byte)
    requires More(buf, index, terminate, start)
    ensures index < |buf| && buf[index] == start
  {
  }

  lemma LastUnit(g: Field, obj: Props)
    requires IsRepeated(g.kind) ==> g.name in obj && obj[g.name].Arr? && |obj[g.name].items| == 1
    ensures IsRepeated(g.kind) ==> EncodeField(g, obj[g.name := Arr(obj[g.name].items[1..])]) == Ok([])
  {
    if IsRepeated(g.kind) {
      assert obj[g.name].items[1..] == [];
      EmptyArray(g, obj[g.name := Arr([])]);
    }
  }

  /** An array of which one element was swallowed is swallowed to its end. */
  lemma {:induction false} SwallowsMore(
    text: TextCheck, fs: seq<Field>, expected: nat, rest: seq<Field>, obj: Props, buf: bytes, index: nat, terminate: nat, start: byte,
    next: nat) returns (j: nat)
    requires WellFormed(rest) && (forall h | h in rest :: h.name in obj) && EncodedAt(rest, obj, buf, index, terminate)
    requires start % 8 == 2 && DecodeItems(text, false, fs, expected, buf, next, terminate, start).Ok?
    requires rest != [] && Key(rest[0])[0] == start
    requires var g := rest[0];
             && IsRepeated(g.kind) && obj[g.name].Arr? && |obj[g.name].items| > 1 && EncodeField(g, obj).Ok?
             && var trimmed := obj[g.name := Arr(obj[g.name].items[1..])];
             && EncodeField(g, trimmed).Ok? && At(buf, next, EncodeField(g, trimmed).value)
             && index + |EncodeField(g, obj).value| == next + |EncodeField(g, trimmed).value|
    ensures var end := DecodeItems(text, false, fs, expected, buf, next, terminate, start).value.1;
            j <= |rest| && EncodedAt(rest[j..], obj, buf, end, terminate)
    ensures Traced(rest[..j], obj)
    decreases |rest|, ItemCount(rest, obj) - 1, 1
  {
    hide ReadU32, EncodeField, DecodeItems, VarintBytes, At;
    var g := rest[0];
    var trimmed := obj[g.name := Arr(obj[g.name].items[1..])];
    EncodedStep(rest, obj, buf, index, terminate);
    TrimmedFrame(g, rest[1..], obj, trimmed[g.name]);
    TrimmedEncoding(rest, obj, trimmed, buf, next, terminate);
    FieldKeyAt(g, trimmed, buf, next);
    j := SwallowsOne(text, fs, expected, rest, trimmed, buf, next, terminate, start);
    assert j > 0;
    assert forall h | h in rest[j..] :: h in rest[1..];
    TrimmedFrame(g, rest[j..], obj, trimmed[g.name]);
    TracedTail(rest, obj, j - 1);
  }

  lemma TrimmedEncoding(rest: seq<Field>, obj: Props, trimmed: Props, buf: bytes, next: nat, terminate: nat)
    requires rest != [] && EncodeField(rest[0], trimmed).Ok? && At(buf, next, EncodeField(rest[0], trimmed).value)
    requires EncodeFields(rest[1..], trimmed) == EncodeFields(rest[1..], obj)
    requires EncodedAt(rest[1..], obj, buf, next + |EncodeField(rest[0], trimmed).value|, terminate)
    ensures EncodedAt(rest, trimmed, buf, next, terminate)
  {
    hide EncodeField;
    AtSplit(buf, next, EncodeField(rest[0], trimmed).value, EncodeFields(rest[1..], obj).value);
  }

  /* ---- The swallowed field is missed ---- */

  /** A field is not found in front of later fields; behind the end of the object it may be, but then the end is passed. */
  lemma MissedField(
    text: TextCheck, g: Field, later: seq<Field>, obj: Props, buf: bytes, index: nat, terminate: nat)
    requires !IsArray(g.kind) && WellFormed(later) && (forall h | h in later :: g.number < h.number && h.name in obj)
    requires EncodedAt(later, obj, buf, index, terminate)
    ensures var r := DecodeField(text, false, g, buf, index, terminate); r.Ok? ==> r.value.1 > terminate
  {
    hide ReadU32, EncodeFields, DecodeObject, DecodeScalar, VarintBytes;
    if index < terminate {
      var e := EncodeFields(later, obj).value;
      var h := FirstPresent(g, later, obj);
      WellFormedNumbers(later);
      assert e == Key(h) + e[|Key(h)|..];
      AtSplit(buf, index, Key(h), e[|Key(h)|..]);
      KeyComplete(h, buf, index);
    }
  }

  ghost predicate Typed(fs: seq<Field>, obj: Props) {
    forall h | h in fs :: h.name in obj && (IsArray(h.kind) ==> obj[h.name].Arr?)
  }

  /** Fields that were swallowed do not come back. */
  lemma {:induction false} AfterSwallowing(
    text: TextCheck, rest: seq<Field>, obj: Props, j: nat, buf: bytes, index: nat, terminate: nat)
    requires WellFormed(rest) && Typed(rest, obj) && j <= |rest| && Traced(rest[..j], obj)
    requires EncodedAt(rest[j..], obj, buf, index, terminate)
    ensures var r := DecodeFields(text, false, rest, buf, index, terminate);
            r.Ok? ==> r.value.0 != Restrict(rest, obj) || r.value.1 > terminate
    decreases |rest|
  {
    hide DecodeField, Restrict, EncodedAt, Silent;
    var g, tail := rest[0], rest[1..];
    LaterFields(rest, j);
    assert g in rest && rest[..j][0] == g;
    if IsArray(g.kind) {
      assert EncodeFields(rest[j..], obj).Ok? && At(buf, index, EncodeFields(rest[j..], obj).value)
          && terminate == index + |EncodeFields(rest[j..], obj).value| by { EncodedAtParts(rest[j..], obj, buf, index, terminate); }
      AbsentArray(text, false, g, rest[j..], obj, buf, index, terminate);
      if Silent(g, obj) {
        TracedRest(rest, obj, j);
        assert tail[j - 1..] == rest[j..];
        AfterSwallowing(text, tail, obj, j - 1, buf, index, terminate);
      } else {
        NotSilent(g, obj);
      }
    } else {
      MissedField(text, g, rest[j..], obj, buf, index, terminate);
    }
    if DecodeFields(text, false, rest, buf, index, terminate).Ok? {
      var (v, next) := DecodeField(text, false, g, buf, index, terminate).value;
      FieldsMonotone(text, false, tail, buf, next, terminate);
      var props := DecodeFields(text, false, tail, buf, next, terminate).value.0;
      if v != obj[g.name] || props != Restrict(tail, obj) {
        WrongObject(text, rest, obj, buf, index, terminate);
      }
    }
  }

  lemma EncodedAtParts(fs: seq<Field>, obj: Props, buf: bytes, index: nat, terminate: nat)
    requires EncodedAt(fs, obj, buf, index, terminate)
    ensures EncodeFields(fs, obj).Ok? && At(buf, index, EncodeFields(fs, obj).value)
    ensures terminate == index + |EncodeFields(fs, obj).value|
  {
  }

  lemma NotSilent(g: Field, obj: Props)
    requires IsArray(g.kind) && g.name in obj && obj[g.name].Arr? && !Silent(g, obj)
    ensures obj[g.name] != Arr([])
  {
  }

  lemma TracedRest(rest: seq<Field>, obj: Props, j: nat)
    requires 0 < j <= |rest| && Traced(rest[..j], obj) && Silent(rest[0], obj)
    ensures Traced(rest[1..][..j - 1], obj)
  {
    hide Silent;
    var g :| g in rest[..j] && !Silent(g, obj);
    assert rest[..j] == [rest[0]] + rest[1..][..j - 1];
    assert g in rest[1..][..j - 1];
  }

  lemma {:induction false} LaterFields(rest: seq<Field>, j: nat)
    requires WellFormed(rest) && 0 < j <= |rest|
    ensures WellFormed(rest[j..]) && forall h | h in rest[j..] :: rest[0].number < h.number && h in rest
  {
    assert forall h | h in rest[1..] :: h in rest;
    if j > 1 {
      LaterFields(rest[1..], j - 1);
      assert rest[1..][j - 1..] == rest[j..];
    }
  }

  lemma {:induction false} ConformsTyped(text: TextCheck, fs: seq<Field>, obj: Props)
    requires ConformsFields(text, fs, obj)
    ensures Typed(fs, obj)
  {
    if fs != [] {
      ConformsTyped(text, fs[1..], obj);
      assert fs == [fs[0]] + fs[1..];
    }
  }

  lemma ClashAhead(f: Field, rest: seq<Field>, obj: Props, buf: bytes, index: nat, terminate: nat)
    requires Typed(rest, obj) && !Follows(f, rest, obj) && EncodedAt(rest, obj, buf, index, terminate)
    ensures More(buf, index, terminate, Key(f)[0]) && index < terminate
  {
    hide EncodeField, Key, Silent;
    var e := EncodeFields(rest, obj).value;
    if e == [] {
      AllSilent(f, rest, obj);
      assert false;
    } else {
      var g := FirstPresent(f, rest, obj);
      assert buf[index] == buf[index..index + |e|][0] == Key(g)[0];
    }
  }

  lemma {:induction false} AllSilent(f: Field, rest: seq<Field>, obj: Props)
    requires (forall h | h in rest :: h.name in obj) && EncodeFields(rest, obj) == Ok([])
    ensures Follows(f, rest, obj)
  {
    hide EncodeField, Key, Silent;
    if rest != [] {
      assert rest == [rest[0]] + rest[1..];
      assert EncodeField(rest[0], obj).value == [] && EncodeFields(rest[1..], obj) == Ok([]);
      SilentIffEmpty(rest[0], obj);
      AllSilent(f, rest[1..], obj);
    }
  }

  /**
   Whatever it holds, an array followed by a key that starts like its own is read wrongly, or has swallowed a field that
   is then missed.
   */
  lemma Overrun(text: TextCheck, f: Field, rest: seq<Field>, obj: Props, buf: bytes, index: nat, terminate: nat)
    requires WellFormedField(f) && WellFormed(rest) && IsRepeated(f.kind) && Typed(rest, obj)
    requires f.name in obj && ConformsField(text, f, obj[f.name]) && !Silent(f, obj) && !Follows(f, rest, obj)
    requires EncodeField(f, obj).Ok? && At(buf, index, EncodeField(f, obj).value)
    requires EncodedAt(rest, obj, buf, index + |EncodeField(f, obj).value|, terminate)
    ensures var r := DecodeField(text, false, f, buf, index, terminate);
            r.Ok? ==>
              || r.value.0 != obj[f.name]
              || var t := DecodeFields(text, false, rest, buf, r.value.1, terminate);
              t.Ok? ==> t.value.0 != Restrict(rest, obj) || t.value.1 > terminate
  {
    hide EncodeScalar, DecodeScalar, ReadU32, ReadKey, VarintBytes, WriteBytes, ConformsScalar,
         DecodeField, DecodeRepeated, DecodeItems, DecodeFields, EncodeFields, EncodeItems, EncodeRepeated, EncodePacked,
         At, Restrict, Follows, Traced;
    var v := obj[f.name];
    var end := index + |EncodeField(f, obj).value|;
    ClashAhead(f, rest, obj, buf, end, terminate);
    ArrayStarts(f, obj, buf, index, terminate);
    FirstByteShowsWireType(f);
    if f.kind.ObjectArray? {
      var fs := f.kind.fields;
      ItemsEnd(text, f, fs, v.items, buf, index, terminate);
      ItemsFieldStep(text, false, f, buf, index, terminate);
      var behind := DecodeItems(text, false, fs, KeyValue(f), buf, end, terminate, Key(f)[0]);
      if behind.Ok? {
        var j := Swallows(text, fs, KeyValue(f), rest, obj, buf, end, terminate, Key(f)[0]);
        AfterSwallowing(text, rest, obj, j, buf, behind.value.1, terminate);
      }
    } else {
      RepeatedOverrun(text, f, v.items, buf, index, terminate);
      RepeatedFieldStep(text, false, f, buf, index, terminate);
    }
  }
}
