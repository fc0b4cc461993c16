/**
 Schemas and messages of the binary codec.

 A compiled schema lists the fields of an object in ascending field-number order
 (elements/codec/src/codec.ts). The header entries the source keeps at index 0 of nested lists, and
 which both its loops skip, are the `name` and `number` of the enclosing `Field` here.
 */
module Schema {
  import opened Wrappers
  import opened Varint

  datatype DataType = UInt32 | SInt32 | UInt64 | SInt64 | Str | Bytes | Boolean

  datatype Kind =
    | Scalar(dt: DataType)
    | Object(fields: seq<Field>)
    | ScalarArray(dt: DataType)
    | ObjectArray(fields: seq<Field>)

  datatype Field = Field(name: string, number: nat, kind: Kind)

  datatype Value =
    | Num(n: int)
    | Bool(b: bool)
    | Bin(data: bytes)
    | Text(data: bytes)   // the UTF-8 bytes of an NFC-normalised string
    | Obj(props: Props)
    | Arr(items: seq<Value>)

  type Props = map<string, Value>

  /** Which byte strings are NFC-normalised UTF-8: a parameter of the whole model. */
  type TextCheck = bytes -> bool

  /** The greatest field number the schema validator admits (elements/validator/src/keywords/field_number.ts). */
  const MAX_FIELD_NUMBER: nat := 18999

  predicate LengthDelimited(dt: DataType) {
    dt.Str? || dt.Bytes?
  }

  predicate IsArray(k: Kind) {
    k.ScalarArray? || k.ObjectArray?
  }

  /** Arrays written as one key per element; arrays of numbers and booleans are packed instead. */
  predicate IsRepeated(k: Kind) {
    k.ObjectArray? || (k.ScalarArray? && LengthDelimited(k.dt))
  }

  function WireType(k: Kind): nat {
    if k.Scalar? && !LengthDelimited(k.dt) then 0 else 2
  }

  function KeyValue(f: Field): nat {
    8 * f.number + WireType(f.kind)
  }

  /** generateKey */
  function Key(f: Field): (k: bytes)
    ensures |k| > 0
  {
    VarintBytes(KeyValue(f))
  }

  function Names(fs: seq<Field>): (r: set<string>) {
    set f | f in fs :: f.name
  }

  /** Distinct names and field numbers on every level, in ascending order, numbers within the validator's bounds. */
  predicate WellFormed(fs: seq<Field>)
    decreases fs, 0
  {
    fs != [] ==>
      && WellFormedField(fs[0])
      && (forall g | g in fs[1..] :: fs[0].number < g.number && fs[0].name != g.name)
      && WellFormed(fs[1..])
  }

  predicate WellFormedField(f: Field)
    decreases f, 1
  {
    && 1 <= f.number <= MAX_FIELD_NUMBER
    && (f.kind.Object? ==> WellFormed(f.kind.fields))
    && (f.kind.ObjectArray? ==> WellFormed(f.kind.fields))
  }

  /** Ascending numbers and distinct names: the compiled form. */
  lemma {:induction false} AscendingIsWellFormed(fs: seq<Field>)
    requires forall i | 0 <= i < |fs| :: WellFormedField(fs[i])
    requires forall i, j | 0 <= i < j < |fs| :: fs[i].number < fs[j].number && fs[i].name != fs[j].name
    ensures WellFormed(fs)
  {
    hide WellFormedField;
    if fs != [] {
      AscendingIsWellFormed(fs[1..]);
    }
  }

  /**
   No field that can directly follow the repeated field `f` in an encoding starts with the same byte.
   Only empty arrays leave no trace, so a field can follow `f` when all fields in between are arrays.
   */
  predicate Clear(f: Field, rest: seq<Field>) {
    rest != [] ==>
      && Key(f)[0] != Key(rest[0])[0]
      && (IsArray(rest[0].kind) ==> Clear(f, rest[1..]))
  }

  /** Every repeated field is clear of its followers, on every level. */
  predicate ClashFree(fs: seq<Field>)
    decreases fs, 0
  {
    fs != [] ==>
      && (IsRepeated(fs[0].kind) ==> Clear(fs[0], fs[1..]))
      && ClashFreeField(fs[0])
      && ClashFree(fs[1..])
  }

  predicate ClashFreeField(f: Field)
    decreases f, 1
  {
    && (f.kind.Object? ==> ClashFree(f.kind.fields))
    && (f.kind.ObjectArray? ==> ClashFree(f.kind.fields))
  }

  /* ---- Which messages a schema describes ---- */

  predicate ConformsScalar(text: TextCheck, dt: DataType, v: Value) {
    match dt
    case UInt32 => v.Num? && 0 <= v.n <= MAX_UINT32
    case UInt64 => v.Num? && 0 <= v.n <= MAX_UINT64
    case SInt32 => v.Num? && -(MAX_SINT32 as int) - 1 <= v.n <= MAX_SINT32
    case SInt64 => v.Num? && -(MAX_SINT64 as int) - 1 <= v.n <= MAX_SINT64
    case Str => v.Text? && text(v.data)
    case Bytes => v.Bin?
    case Boolean => v.Bool?
  }

  /** All properties of `fs` are present in `obj` and of their type. */
  predicate ConformsFields(text: TextCheck, fs: seq<Field>, obj: Props)
    decreases fs, 0
  {
    fs != [] ==>
      && fs[0].name in obj
      && ConformsField(text, fs[0], obj[fs[0].name])
      && ConformsFields(text, fs[1..], obj)
  }

  predicate ConformsField(text: TextCheck, f: Field, v: Value)
    decreases f, 1
  {
    match f.kind
    case Scalar(dt) => ConformsScalar(text, dt, v)
    case Object(fs) => v.Obj? && v.props.Keys == Names(fs) && ConformsFields(text, fs, v.props)
    case ScalarArray(dt) => v.Arr? && forall x | x in v.items :: ConformsScalar(text, dt, x)
    case ObjectArray(fs) =>
      v.Arr? && forall x | x in v.items :: x.Obj? && x.props.Keys == Names(fs) && ConformsFields(text, fs, x.props)
  }

  /** A message of the schema `fs`: exactly its properties, each of its type. */
  predicate Conforms(text: TextCheck, fs: seq<Field>, obj: Props) {
    obj.Keys == Names(fs) && ConformsFields(text, fs, obj)
  }

  /* ---- Field numbers below 16 never clash ---- */

  lemma KeyRange(f: Field)
    requires f.number <= MAX_FIELD_NUMBER
    ensures KeyValue(f) <= MAX_UINT32
    ensures f.number < 16 ==> Key(f) == [KeyValue(f)] && KeyValue(f) < 128
    ensures f.number >= 16 ==> Key(f)[0] >= 128
  {
  }

  lemma {:induction false} SmallNumberIsClear(f: Field, rest: seq<Field>)
    requires f.number < 16
    requires forall g | g in rest :: f.number < g.number <= MAX_FIELD_NUMBER
    ensures Clear(f, rest)
  {
    if rest != [] {
      KeyRange(f);
      KeyRange(rest[0]);
      SmallNumberIsClear(f, rest[1..]);
    }
  }

  predicate SmallRepeated(fs: seq<Field>)
    decreases fs, 0
  {
    fs != [] ==> SmallRepeatedField(fs[0]) && SmallRepeated(fs[1..])
  }

  predicate SmallRepeatedField(f: Field)
    decreases f, 1
  {
    && (IsRepeated(f.kind) ==> f.number < 16)
    && (f.kind.Object? ==> SmallRepeated(f.kind.fields))
    && (f.kind.ObjectArray? ==> SmallRepeated(f.kind.fields))
  }

  lemma {:induction false} WellFormedNumbers(fs: seq<Field>)
    requires WellFormed(fs)
    ensures forall g | g in fs :: 1 <= g.number <= MAX_FIELD_NUMBER
  {
    if fs != [] {
      WellFormedNumbers(fs[1..]);
      assert fs == [fs[0]] + fs[1..];
    }
  }

  /** A well-formed schema whose repeated arrays are numbered below 16, on every level, has no clash. */
  lemma {:induction false} SmallRepeatedIsClashFree(fs: seq<Field>)
    requires WellFormed(fs) && SmallRepeated(fs)
    ensures ClashFree(fs)
    decreases fs
  {
    if fs != [] {
      var f := fs[0];
      if IsRepeated(f.kind) {
        WellFormedNumbers(fs[1..]);
        SmallNumberIsClear(f, fs[1..]);
      }
      if f.kind.Object? || f.kind.ObjectArray? {
        SmallRepeatedIsClashFree(f.kind.fields);
      }
      SmallRepeatedIsClashFree(fs[1..]);
    }
  }
}
