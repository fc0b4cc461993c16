/** What the decoder says to bytes that are not what the schema expects (elements/codec/src/collection.ts:120-203, keys.ts). */
module Rejections {
  import opened Wrappers
  import opened Varint
  import opened Schema
  import opened Codec
  import opened RoundTrip
  import opened Decoding

  /** A key with field number `number` and wire type `wire` stands at `index`. */
  ghost predicate KeyAt(buf: bytes, index: nat, number: nat, wire: nat) {
    wire < 8 && 8 * number + wire <= MAX_UINT32 && At(buf, index, VarintBytes(8 * number + wire))
  }

  /** What follows wire type 0 is a number, what follows wire type 2 has a length. */
  predicate Announced(k: Kind, wire: nat) {
    wire == match k case Scalar(dt) => (if dt.Str? || dt.Bytes? then 2 else 0) case _ => 2
  }

  lemma KeyRead(buf: bytes, index: nat, number: nat, wire: nat)
    requires KeyAt(buf, index, number, wire)
    ensures ReadU32(buf, index) == Ok((8 * number + wire, |VarintBytes(8 * number + wire)|))
    ensures (8 * number + wire) / 8 == number && (8 * number + wire) % 8 == wire
  {
    ReadU32Iff(buf, index, 8 * number + wire, |VarintBytes(8 * number + wire)|);
  }

  /**
   The key in front of a scalar or an object decides: an unknown wire type, another field number and another wire type than the
   property's are rejected, in this order; a scalar may not be missing.
   */
  lemma KeyOutcomes(text: TextCheck, f: Field, buf: bytes, index: nat, terminate: nat, number: nat, wire: nat)
    requires !IsArray(f.kind) && KeyAt(buf, index, number, wire)
    ensures var r := DecodeField(text, false, f, buf, index, terminate);
            && (wire != 0 && wire != 2 ==> r == Err(UnsupportedWireType))
            && (wire == 0 || wire == 2 ==> (number != f.number ==> r == Err(InvalidFieldNumber)))
            && ((wire == 0 || wire == 2) && number == f.number && !Announced(f.kind, wire) ==> r == Err(InvalidWireType))
  {
    KeyRead(buf, index, number, wire);
    NotAtEnd(buf, index, 8 * number + wire);
    hide VarintBytes, ReadU32, DecodeScalar, DecodeObject;
  }

  lemma NotAtEnd(buf: bytes, index: nat, v: nat)
    requires At(buf, index, VarintBytes(v))
    ensures index < |buf|
  {
  }

  lemma MissingScalar(text: TextCheck, f: Field, buf: bytes, index: nat, terminate: nat)
    requires f.kind.Scalar? && index >= |buf|
    ensures DecodeField(text, false, f, buf, index, terminate) == Err(MissingProperty)
  {
  }

  /** An array is taken to be empty if the object is over, or another field follows. */
  lemma AbsentOutcomes(text: TextCheck, f: Field, buf: bytes, index: nat, terminate: nat, number: nat, wire: nat)
    requires IsArray(f.kind)
    ensures index >= terminate || index >= |buf| ==> DecodeField(text, false, f, buf, index, terminate) == Ok((Arr([]), index))
    ensures index < terminate && KeyAt(buf, index, number, wire) && (wire == 0 || wire == 2) && number != f.number ==>
              DecodeField(text, false, f, buf, index, terminate) == Ok((Arr([]), index))
    ensures index < terminate && KeyAt(buf, index, number, wire) && wire != 0 && wire != 2 ==>
              DecodeField(text, false, f, buf, index, terminate) == Err(UnsupportedWireType)
  {
    if KeyAt(buf, index, number, wire) {
      KeyRead(buf, index, number, wire);
      NotAtEnd(buf, index, 8 * number + wire);
    }
    hide VarintBytes, ReadU32, DecodeRepeated, DecodePacked, DecodeItems;
  }

  /** Booleans are one byte, zero or one. */
  lemma BooleanOutcomes(text: TextCheck, buf: bytes, offset: nat)
    ensures DecodeScalar(text, false, Boolean, buf, offset) ==
              if offset < |buf| && buf[offset] == 0 then Ok((Bool(false), 1))
              else if offset < |buf| && buf[offset] == 1 then Ok((Bool(true), 1))
              else Err(InvalidBoolean)
  {
  }

  /** The first property that is rejected rejects the message, with its error. */
  lemma FirstRejected(text: TextCheck, f: Field, rest: seq<Field>, buf: bytes, index: nat, terminate: nat)
    requires DecodeField(text, false, f, buf, index, terminate).Err?
    ensures DecodeObject(text, false, [f] + rest, buf, index, terminate) == Err(DecodeField(text, false, f, buf, index, terminate).error)
  {
    assert ([f] + rest)[1..] == rest;
    hide DecodeField;
  }

  /** No message but the empty array takes no room: what stands behind a message whose last property is no array is rejected. */
  lemma TrailingBytes(text: TextCheck, fs: seq<Field>, obj: Props, extra: bytes)
    requires WellFormed(fs) && Conforms(text, fs, obj) && LosslessFields(fs, obj) && Separated(fs, obj) && Encode(fs, obj).Ok?
    requires (forall f | f in fs :: !IsArray(f.kind)) && extra != []
    ensures Decode(text, fs, Encode(fs, obj).value + extra) == Err(InvalidTerminateIndex)
  {
    hide DecodeFields, EncodeFields, LosslessFields, WellFormed, Restrict, ConformsFields, Separated;
    var e := Encode(fs, obj).value;
    var buf := e + extra;
    assert buf[0..|e|] == e;
    FieldsComplete(text, false, fs, obj, buf, 0, |e|);
    SameUpTo(text, fs, buf, 0, |e|, |buf|);
  }

  /** Where there are no arrays the end given for the object is not looked at. */
  lemma {:induction false} SameUpTo(text: TextCheck, fs: seq<Field>, buf: bytes, index: nat, a: nat, b: nat)
    requires forall f | f in fs :: !IsArray(f.kind)
    ensures DecodeFields(text, false, fs, buf, index, a) == DecodeFields(text, false, fs, buf, index, b)
    decreases fs
  {
    if fs != [] {
      assert fs == [fs[0]] + fs[1..];
      SameField(text, fs[0], buf, index, a, b);
      hide DecodeField;
      var r := DecodeField(text, false, fs[0], buf, index, a);
      if r.Ok? {
        SameUpTo(text, fs[1..], buf, r.value.1, a, b);
      }
    }
  }

  lemma SameField(text: TextCheck, f: Field, buf: bytes, index: nat, a: nat, b: nat)
    requires !IsArray(f.kind)
    ensures DecodeField(text, false, f, buf, index, a) == DecodeField(text, false, f, buf, index, b)
  {
    hide DecodeScalar, DecodeObject, ExpectKey, ReadU32;
  }
}
