/** Schema compilation and the schema cache (elements/codec/src/codec.ts). */
module CodecCache {
  import opened Wrappers
  import opened Schema
  import opened Codec
  import opened CodecLoops
  import opened Sorting

  /** A schema as declared: properties in any order. */
  datatype Declared = Declared(id: string, properties: seq<Field>)

  predicate ByNumber(a: Field, b: Field) {
    a.number <= b.number
  }

  lemma ByNumberIsPreorder()
    ensures TotalPreorder(ByNumber)
  {
  }

  /** Sort by field number, and compile nested objects alike. */
  function Compile(props: seq<Field>): seq<Field>
    decreases props, 1
  {
    Sort(CompileAll(props), ByNumber)
  }

  function CompileAll(props: seq<Field>): (r: seq<Field>)
    ensures |r| == |props|
    decreases props, 0
  {
    if props == [] then [] else [CompileField(props[0])] + CompileAll(props[1..])
  }

  function CompileField(f: Field): (r: Field)
    ensures r.name == f.name && r.number == f.number
    decreases f, 2
  {
    match f.kind
    case Object(fs) => f.(kind := Object(Compile(fs)))
    case ObjectArray(fs) => f.(kind := ObjectArray(Compile(fs)))
    case _ => f
  }

  /** What the schema validator demands: distinct names and numbers on each level, numbers within bounds. */
  predicate Valid(props: seq<Field>)
    decreases props, 0
  {
    && (forall i, j | 0 <= i < j < |props| :: props[i].number != props[j].number && props[i].name != props[j].name)
    && (forall f | f in props :: ValidField(f))
  }

  predicate ValidField(f: Field)
    decreases f, 1
  {
    && 1 <= f.number <= MAX_FIELD_NUMBER
    && (f.kind.Object? ==> Valid(f.kind.fields))
    && (f.kind.ObjectArray? ==> Valid(f.kind.fields))
  }

  lemma {:induction false} CompileAllAt(props: seq<Field>, i: nat)
    requires i < |props|
    ensures CompileAll(props)[i] == CompileField(props[i])
  {
    if i > 0 {
      CompileAllAt(props[1..], i - 1);
    }
  }

  lemma CompileIsPermutation(props: seq<Field>)
    ensures multiset(Compile(props)) == multiset(CompileAll(props)) && |Compile(props)| == |props|
    ensures Sorted(Compile(props), ByNumber)
  {
    ByNumberIsPreorder();
    SortPermutes(CompileAll(props), ByNumber);
    SortSorted(CompileAll(props), ByNumber);
  }

  ghost predicate Distinct(fs: seq<Field>) {
    forall x, y | x in fs && y in fs && x != y :: x.number != y.number && x.name != y.name
  }

  lemma CompiledDistinct(props: seq<Field>)
    requires Valid(props)
    ensures Distinct(CompileAll(props)) && (forall x :: multiset(CompileAll(props))[x] <= 1)
  {
    var c := CompileAll(props);
    forall i | 0 <= i < |c|
      ensures c[i] == CompileField(props[i])
    {
      CompileAllAt(props, i);
    }
    NoRepeats(c);
  }

  lemma {:induction false} NoRepeats(c: seq<Field>)
    requires forall i, j | 0 <= i < j < |c| :: c[i].number != c[j].number
    ensures forall x :: multiset(c)[x] <= 1
  {
    if c != [] {
      NoRepeats(c[1..]);
      assert c == [c[0]] + c[1..];
      assert c[0] !in c[1..];
      assert multiset(c) == multiset{c[0]} + multiset(c[1..]);
    }
  }

  /** Sorted by distinct numbers with distinct names: every field comes strictly before the later ones. */
  lemma SortedAscends(fs: seq<Field>)
    requires Sorted(fs, ByNumber) && Distinct(fs) && (forall x :: multiset(fs)[x] <= 1)
    ensures forall i, j | 0 <= i < j < |fs| :: fs[i].number < fs[j].number && fs[i].name != fs[j].name
  {
    forall i, j | 0 <= i < j < |fs|
      ensures fs[i].number < fs[j].number && fs[i].name != fs[j].name
    {
      assert ByNumber(fs[i], fs[j]) && multiset(fs)[fs[i]] <= 1;
      if fs[i] == fs[j] {
        TwiceInSequence(fs, i, j);
        assert false;
      }
      assert fs[i] in fs && fs[j] in fs;
    }
  }

  /** Compiling a valid schema gives a well-formed one: strictly ascending numbers on every level. */
  lemma {:induction false} CompileIsWellFormed(props: seq<Field>)
    requires Valid(props)
    ensures WellFormed(Compile(props))
    decreases props, 1
  {
    var c := Compile(props);
    CompileIsPermutation(props);
    CompiledDistinct(props);
    SameElements(c, CompileAll(props));
    assert Distinct(c);
    forall f | f in c
      ensures WellFormedField(f)
    {
      var i :| 0 <= i < |CompileAll(props)| && CompileAll(props)[i] == f;
      CompileAllAt(props, i);
      assert props[i] in props && ValidField(props[i]);
      if props[i].kind.Object? || props[i].kind.ObjectArray? {
        CompileIsWellFormed(props[i].kind.fields);
      }
    }
    hide Sorted, Distinct, WellFormedField;
    SortedAscends(c);
    AscendingIsWellFormed(c);
  }

  /** Two declarations of the same properties, in different orders on any level. */
  ghost predicate Reordered(a: seq<Field>, b: seq<Field>)
    decreases a, 1
  {
    |a| == |b| && (forall f | f in a :: MatchedIn(f, b)) && (forall g | g in b :: MatchedBy(a, g))
  }

  ghost predicate MatchedIn(f: Field, b: seq<Field>)
    decreases f, 2
  {
    exists g :: g in b && ReorderedField(f, g)
  }

  ghost predicate MatchedBy(a: seq<Field>, g: Field)
    decreases a, 0
  {
    exists f :: f in a && ReorderedField(f, g)
  }

  ghost predicate ReorderedField(f: Field, g: Field)
    decreases f, 1
  {
    && f.name == g.name && f.number == g.number
    && match f.kind
       case Object(fs) => g.kind.Object? && Reordered(fs, g.kind.fields)
       case ObjectArray(fs) => g.kind.ObjectArray? && Reordered(fs, g.kind.fields)
       case _ => f.kind == g.kind
  }

  lemma {:induction false} ReorderedCompiles(f: Field, g: Field)
    requires ReorderedField(f, g) && ValidField(f) && ValidField(g)
    ensures CompileField(f) == CompileField(g)
    decreases f, 1
  {
    hide Compile, Reordered, Valid;
    if f.kind.Object? || f.kind.ObjectArray? {
      DeclarationOrderIrrelevant(f.kind.fields, g.kind.fields);
    }
  }

  lemma {:induction false} CompiledFrom(props: seq<Field>, x: Field) returns (f: Field)
    requires x in CompileAll(props)
    ensures f in props && x == CompileField(f)
  {
    hide CompileField;
    var i :| 0 <= i < |CompileAll(props)| && CompileAll(props)[i] == x;
    CompileAllAt(props, i);
    f := props[i];
  }

  lemma CompiledInto(props: seq<Field>, f: Field)
    requires f in props
    ensures CompileField(f) in CompileAll(props)
  {
    hide CompileField;
    var i :| 0 <= i < |props| && props[i] == f;
    CompileAllAt(props, i);
  }

  lemma OnceEach(a: seq<Field>, b: seq<Field>)
    requires (forall x :: multiset(a)[x] <= 1) && (forall x :: multiset(b)[x] <= 1) && forall x :: x in a <==> x in b
    ensures multiset(a) == multiset(b)
  {
    forall x
      ensures multiset(a)[x] == multiset(b)[x]
    {
      assert x in multiset(a) <==> x in a;
      assert x in multiset(b) <==> x in b;
    }
  }

  lemma PartnerOf(a: seq<Field>, b: seq<Field>, f: Field) returns (g: Field)
    requires Reordered(a, b) && f in a
    ensures g in b && ReorderedField(f, g)
  {
    hide ReorderedField, MatchedBy;
    assert MatchedIn(f, b);
    g :| g in b && ReorderedField(f, g);
  }

  lemma PartnerIn(a: seq<Field>, b: seq<Field>, g: Field) returns (f: Field)
    requires Reordered(a, b) && g in b
    ensures f in a && ReorderedField(f, g)
  {
    hide ReorderedField, MatchedIn;
    assert MatchedBy(a, g);
    f :| f in a && ReorderedField(f, g);
  }

  lemma ValidMember(props: seq<Field>, f: Field)
    requires Valid(props) && f in props
    ensures ValidField(f)
  {
    hide ValidField;
  }

  lemma {:induction false} ReorderedForth(a: seq<Field>, b: seq<Field>, c: Field)
    requires Valid(a) && Valid(b) && Reordered(a, b) && c in CompileAll(a)
    ensures c in CompileAll(b)
    decreases a, 2
  {
    hide CompileAll, CompileField, ValidField, Valid, Reordered, ReorderedField;
    var f := CompiledFrom(a, c);
    var g := PartnerOf(a, b, f);
    ValidMember(a, f);
    ValidMember(b, g);
    ReorderedCompiles(f, g);
    CompiledInto(b, g);
  }

  lemma {:induction false} ReorderedBack(a: seq<Field>, b: seq<Field>, c: Field)
    requires Valid(a) && Valid(b) && Reordered(a, b) && c in CompileAll(b)
    ensures c in CompileAll(a)
    decreases a, 2
  {
    hide CompileAll, CompileField, ValidField, Valid, Reordered, ReorderedField;
    var g := CompiledFrom(b, c);
    var f := PartnerIn(a, b, g);
    ValidMember(a, f);
    ValidMember(b, g);
    ReorderedCompiles(f, g);
    CompiledInto(a, f);
  }

  /** The compiled schema does not depend on the order in which properties are declared, on any level. */
  lemma {:induction false} DeclarationOrderIrrelevant(a: seq<Field>, b: seq<Field>)
    requires Valid(a) && Valid(b) && Reordered(a, b)
    ensures Compile(a) == Compile(b)
    decreases a, 3
  {
    hide CompileAll, Valid, Reordered, TotalPreorder, Sort, Distinct;
    var x, y := CompileAll(a), CompileAll(b);
    forall c
      ensures c in x <==> c in y
    {
      if c in x {
        ReorderedForth(a, b, c);
      }
      if c in y {
        ReorderedBack(a, b, c);
      }
    }
    CompiledDistinct(a);
    CompiledDistinct(b);
    OnceEach(x, y);
    ByNumberIsPreorder();
    assert Ranked(x, ByNumber) by { DistinctRanked(x); }
    SortOrderIndependent(x, y, ByNumber);
  }

  lemma DistinctRanked(fs: seq<Field>)
    requires Distinct(fs)
    ensures Ranked(fs, ByNumber)
  {
  }

  /** Compiling only reorders: the compiled schema has the declared properties, with their names, numbers and types, on every level. */
  lemma {:induction false} CompileReorders(props: seq<Field>)
    ensures Reordered(props, Compile(props))
    decreases props, 1
  {
    var c := Compile(props);
    CompileIsPermutation(props);
    SameElements(c, CompileAll(props));
    hide Compile, CompileAll, CompileField, ReorderedField;
    forall f | f in props
      ensures MatchedIn(f, c)
    {
      CompiledInto(props, f);
      FieldReorders(f);
    }
    forall g | g in c
      ensures MatchedBy(props, g)
    {
      var f := CompiledFrom(props, g);
      FieldReorders(f);
    }
  }

  lemma {:induction false} FieldReorders(f: Field)
    ensures ReorderedField(f, CompileField(f))
    decreases f, 2
  {
    if f.kind.Object? || f.kind.ObjectArray? {
      CompileReorders(f.kind.fields);
    }
  }

  /** The class Codec: schemas are compiled once per id. */
  class Cache {
    var compileSchemas: map<string, seq<Field>>

    constructor ()
      ensures compileSchemas == map[]
    {
      compileSchemas := map[];
    }

    /** Every cached entry is the compilation of the one schema registered under its id. */
    ghost predicate Consistent(registry: map<string, seq<Field>>)
      reads this
    {
      forall id | id in compileSchemas :: id in registry && compileSchemas[id] == Compile(registry[id])
    }

    method AddSchema(schema: Declared)
      modifies this
      ensures compileSchemas == old(compileSchemas)[schema.id := Compile(schema.properties)]
      ensures forall registry | schema.id in registry && registry[schema.id] == schema.properties ::
                old(Consistent(registry)) ==> Consistent(registry)
    {
      compileSchemas := compileSchemas[schema.id := Compile(schema.properties)];
    }

    method Encode(schema: Declared, message: Props) returns (r: Result<bytes>)
      modifies this
      ensures compileSchemas == if schema.id in old(compileSchemas) then old(compileSchemas)
                                else old(compileSchemas)[schema.id := Compile(schema.properties)]
      ensures forall registry | schema.id in registry && registry[schema.id] == schema.properties && old(Consistent(registry)) ::
                Consistent(registry) && r == Codec.Encode(Compile(schema.properties), message)
    {
      if schema.id !in compileSchemas {
        AddSchema(schema);
      }
      var written := WriteObject(compileSchemas[schema.id], message, []);
      ghost var expected := EncodeFields(compileSchemas[schema.id], message);
      assert expected.Ok? ==> Flatten([]) + expected.value == expected.value;
      return if written.Ok? then Ok(Flatten(written.value.0)) else Err(written.error);
    }

    method Decode(text: TextCheck, schema: Declared, message: bytes) returns (r: Result<Props>)
      modifies this
      ensures compileSchemas == if schema.id in old(compileSchemas) then old(compileSchemas)
                                else old(compileSchemas)[schema.id := Compile(schema.properties)]
      ensures forall registry | schema.id in registry && registry[schema.id] == schema.properties && old(Consistent(registry)) ::
                Consistent(registry) && r == Codec.Decode(text, Compile(schema.properties), message)
    {
      if schema.id !in compileSchemas {
        AddSchema(schema);
      }
      var read := ReadObject(text, message, 0, compileSchemas[schema.id], |message|);
      return if read.Ok? then Ok(read.value.0) else Err(read.error);
    }

    method ClearCache()
      modifies this
      ensures compileSchemas == map[]
    {
      compileSchemas := map[];
    }
  }
}
