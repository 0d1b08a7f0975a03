/**
 * What the parsed columns are for: the JSON values that the schemas describe. A column's type is the least one
 * that holds every value described for it, and it is nullable exactly when one of them is null.
 */
module SpecValues {
  import opened SpecGraph
  import opened SpecColumns
  import opened SpecTables

  /** What the parser relies on about texts: some, but not all, are points in time. */
  datatype Times = Times(isTime: string -> bool, time: string, other: string)

  predicate ValidTimes(d: Times) {
    d.isTime(d.time) && !d.isTime(d.other)
  }

  /** The values other than null that a column of this type holds; a text column holds scalars by their text. */
  predicate Holds(d: Times, t: ScalarType, v: Value) {
    match t
    case Boolean => v.Bool?
    case Bigint => IsInteger(v)
    case Numeric => v.Num?
    case Timestamptz => v.Str? && d.isTime(v.s)
    case Text => v.Bool? || v.Num? || v.Str?
    case Json => true
  }

  ghost predicate HoldsAll(d: Times, t: ScalarType, values: iset<Value>) {
    forall v :: v in values && v != Null ==> Holds(d, t, v)
  }

  /** A type is below another exactly when the other one holds everything that it holds. */
  lemma BelowIffHolds(d: Times, a: ScalarType, b: ScalarType)
    requires ValidTimes(d)
    ensures Below(a, b) <==> forall v :: v != Null && Holds(d, a, v) ==> Holds(d, b, v)
  {
    if !Below(a, b) {
      var v := WitnessFor(d, a, b);
    }
  }

  /** Something that `a` holds and `b` does not. */
  function WitnessFor(d: Times, a: ScalarType, b: ScalarType): (v: Value)
    requires ValidTimes(d) && !Below(a, b)
    ensures v != Null && Holds(d, a, v) && !Holds(d, b, v)
  {
    match a
    case Boolean => Bool(true)
    case Bigint => Num(0.0)
    case Numeric => if b == Bigint then assert !IsInteger(Num(0.5)); Num(0.5) else Num(0.0)
    case Timestamptz => Str(d.time)
    case Text => Str(d.other)
    case Json => Arr([])
  }

  // ----- The values that a schema describes -----

  const KINDS := {"boolean", "integer", "number", "string", "array", "object"}

  predicate OfKind(d: Times, kind: string, format: string, v: Value) {
    || (kind == "boolean" && v.Bool?)
    || (kind == "integer" && IsInteger(v))
    || (kind == "number" && v.Num?)
    || (kind == "string" && v.Str? && (format == "date-time" ==> d.isTime(v.s)))
    || (kind == "array" && v.Arr?)
    || (kind == "object" && v.Obj?)
  }

  /** By its type if it names one, as an object if it has properties, and else by its list of values. */
  predicate LeafDescribes(d: Times, schema: Schema, v: Value) {
    if schema.kind in KINDS then OfKind(d, schema.kind, schema.format, v)
    else if schema.hasProperties || schema.hasAdditional then v.Obj?
    else if schema.enum_ != [] then v in schema.enum_
    else true
  }

  /** `c` is one of the alternatives that count: those of `oneOf`, else of `anyOf`, else of `allOf`. */
  predicate IsAlternative(schema: Schema, c: SchemaOrRef) {
    || c in schema.oneOf
    || (schema.oneOf == [] && c in schema.anyOf)
    || (schema.oneOf == [] && schema.anyOf == [] && c in schema.allOf)
  }

  predicate IsComposed(schema: Schema) {
    schema.oneOf != [] || schema.anyOf != [] || schema.allOf != []
  }

  /** Described, with null where the schema is nullable, and by any alternative where there are some. */
  ghost predicate Describes(d: Times, spec: Spec, s: SchemaOrRef, stack: set<ObjectId>, v: Value)
    requires Valid(spec) && Known(spec, s)
    decreases |spec.objects.Keys - stack|
  {
    var r := Resolve(spec, s);
    && r.Ok? && r.value !in stack
    && var schema := spec.objects[r.value];
       || (v == Null && schema.nullable)
       || (!IsComposed(schema) && LeafDescribes(d, schema, v))
       || (OneFewer(spec.objects.Keys, stack, r.value);
           exists c :: IsAlternative(schema, c) && Known(spec, c) && Describes(d, spec, c, stack + {r.value}, v))
  }

  ghost function Described(d: Times, spec: Spec, s: SchemaOrRef, stack: set<ObjectId>): iset<Value>
    requires Valid(spec) && Known(spec, s)
  {
    iset v | Describes(d, spec, s, stack, v)
  }

  /** Names a type, has properties, or lists booleans only or numbers only. */
  predicate RegularLeaf(schema: Schema) {
    || schema.kind in KINDS
    || schema.hasProperties || schema.hasAdditional
    || (schema.enum_ != [] && (AllBooleans(schema.enum_) || AllNumbers(schema.enum_)))
  }

  /** All that counts for the type is regular. */
  ghost predicate Regular(spec: Spec, s: SchemaOrRef, stack: set<ObjectId>)
    requires Valid(spec) && Known(spec, s)
    decreases |spec.objects.Keys - stack|
  {
    var r := Resolve(spec, s);
    && r.Ok? && r.value !in stack
    && var schema := spec.objects[r.value];
       if !IsComposed(schema) then RegularLeaf(schema)
       else
         OneFewer(spec.objects.Keys, stack, r.value);
         forall c :: IsAlternative(schema, c) && Known(spec, c) ==> Regular(spec, c, stack + {r.value})
  }

  // ----- A column for a set of values -----

  /** The types that hold all the values are those from the column's type upwards; and null decides the rest. */
  ghost predicate Fits(d: Times, x: Column, values: iset<Value>) {
    && (forall t :: HoldsAll(d, t, values) <==> Below(x.kind, t))
    && (x.nullable <==> Null in values)
  }

  lemma HoldsUnion(d: Times, t: ScalarType, a: iset<Value>, b: iset<Value>)
    ensures HoldsAll(d, t, a + b) <==> HoldsAll(d, t, a) && HoldsAll(d, t, b)
  {
    if HoldsAll(d, t, a + b) {
      forall v | v in a && v != Null ensures Holds(d, t, v) {
        assert v in a + b;
      }
      forall v | v in b && v != Null ensures Holds(d, t, v) {
        assert v in a + b;
      }
    }
  }

  lemma MergeIsBelow(a: ScalarType, b: ScalarType, t: ScalarType)
    ensures Below(MergeTypes(a, b), t) <==> Below(a, t) && Below(b, t)
  {
  }

  lemma FitsUnion(d: Times, x: Column, a: iset<Value>, y: Column, b: iset<Value>)
    requires Fits(d, x, a) && Fits(d, y, b)
    ensures Fits(d, Join(x, y), a + b)
  {
    hide HoldsAll, Below, MergeTypes;
    forall t ensures HoldsAll(d, t, a + b) <==> Below(MergeTypes(x.kind, y.kind), t) {
      HoldsUnion(d, t, a, b);
      MergeIsBelow(x.kind, y.kind, t);
    }
  }

  lemma LeafFits(d: Times, schema: Schema)
    requires ValidTimes(d) && RegularLeaf(schema)
    ensures var values := iset v | (v == Null && schema.nullable) || (LeafDescribes(d, schema, v) && v != Null);
      Fits(d, LeafColumn(schema), values)
  {
    var values := iset v | (v == Null && schema.nullable) || (LeafDescribes(d, schema, v) && v != Null);
    var kind := LeafColumn(schema).kind;
    forall t ensures HoldsAll(d, t, values) <==> Below(kind, t) {
      if Below(kind, t) {
        forall v | v in values && v != Null ensures Holds(d, t, v) {
          LeafHolds(d, schema, v);
          BelowIffHolds(d, kind, t);
        }
      } else {
        var v := LeafWitness(d, schema, t);
        assert v in values && !Holds(d, t, v);
      }
    }
  }

  lemma LeafHolds(d: Times, schema: Schema, v: Value)
    requires RegularLeaf(schema) && LeafDescribes(d, schema, v)
    ensures Holds(d, LeafColumn(schema).kind, v)
  {
    if schema.kind !in KINDS && !schema.hasProperties && !schema.hasAdditional {
      var i :| 0 <= i < |schema.enum_| && schema.enum_[i] == v;
    }
  }

  /** A described value that a type not above the leaf's type does not hold. */
  lemma LeafWitness(d: Times, schema: Schema, t: ScalarType) returns (v: Value)
    requires ValidTimes(d) && RegularLeaf(schema) && !Below(LeafColumn(schema).kind, t)
    ensures v != Null && LeafDescribes(d, schema, v) && !Holds(d, t, v)
  {
    if schema.kind in KINDS {
      v := if schema.kind == "array" then Arr([]) else if schema.kind == "object" then Obj([])
           else WitnessFor(d, LeafColumn(schema).kind, t);
      if schema.kind == "string" && schema.format != "date-time" {
        v := Str(d.other);
      }
    } else if schema.hasProperties || schema.hasAdditional {
      v := Obj([]);
    } else {
      v := schema.enum_[0];
      if !AllBooleans(schema.enum_) && !AllIntegers(schema.enum_) {
        var i :| 0 <= i < |schema.enum_| && !IsInteger(schema.enum_[i]);
        v := schema.enum_[i];
      }
    }
  }

  // ----- Every scalar value is held -----

  predicate IsScalar(v: Value) {
    v.Bool? || v.Num? || v.Str?
  }

  /** The column holds every scalar among the values, and null if that is among them. */
  ghost predicate HoldsScalars(d: Times, x: Column, values: iset<Value>) {
    && (forall v :: v in values && IsScalar(v) ==> Holds(d, x.kind, v))
    && (Null in values ==> x.nullable)
  }

  lemma ScalarsUnion(d: Times, x: Column, a: iset<Value>, y: Column, b: iset<Value>)
    requires HoldsScalars(d, x, a) && HoldsScalars(d, y, b)
    ensures HoldsScalars(d, Join(x, y), a + b)
  {
    forall v | v in a + b && IsScalar(v) ensures Holds(d, Join(x, y).kind, v) {
      if v in a {
        assert Holds(d, x.kind, v);
      } else {
        assert Holds(d, y.kind, v);
      }
    }
  }

  ghost function LeafValues(d: Times, schema: Schema): iset<Value> {
    iset v | (v == Null && schema.nullable) || LeafDescribes(d, schema, v)
  }

  lemma LeafHoldsScalars(d: Times, schema: Schema)
    ensures HoldsScalars(d, LeafColumn(schema), LeafValues(d, schema))
  {
    forall v | LeafDescribes(d, schema, v) && IsScalar(v) ensures Holds(d, LeafColumn(schema).kind, v) {
      LeafHoldsScalar(d, schema, v);
    }
    if LeafDescribes(d, schema, Null) && schema.enum_ != [] {
      assert schema.enum_[..] == schema.enum_;
    }
  }

  lemma LeafHoldsScalar(d: Times, schema: Schema, v: Value)
    requires LeafDescribes(d, schema, v) && IsScalar(v)
    ensures Holds(d, LeafColumn(schema).kind, v)
  {
    if RegularLeaf(schema) {
      LeafHolds(d, schema, v);
    }
  }

  lemma RegularValues(d: Times, schema: Schema)
    requires RegularLeaf(schema)
    ensures LeafValues(d, schema) ==
      iset v | (v == Null && schema.nullable) || (LeafDescribes(d, schema, v) && v != Null)
  {
    assert !LeafDescribes(d, schema, Null);
  }

  // ----- Candidates -----

  lemma AlternativesAre(schema: Schema, c: SchemaOrRef)
    ensures c in Alternatives(schema) <==> IsAlternative(schema, c)
    ensures Alternatives(schema) != [] <==> IsComposed(schema)
  {
  }

  ghost predicate AnyDescribes(d: Times, spec: Spec, list: seq<SchemaOrRef>, stack: set<ObjectId>, v: Value)
    requires Valid(spec) && AllKnown(spec, list)
  {
    exists i :: 0 <= i < |list| && Describes(d, spec, list[i], stack, v)
  }

  ghost function DescribedByAny(d: Times, spec: Spec, list: seq<SchemaOrRef>, stack: set<ObjectId>): iset<Value>
    requires Valid(spec) && AllKnown(spec, list)
  {
    iset v | AnyDescribes(d, spec, list, stack, v)
  }

  lemma DescribedSnoc(d: Times, spec: Spec, list: seq<SchemaOrRef>, stack: set<ObjectId>)
    requires Valid(spec) && AllKnown(spec, list) && list != []
    ensures var front, last := list[..|list| - 1], list[|list| - 1];
      DescribedByAny(d, spec, list, stack) ==
        DescribedByAny(d, spec, front, stack) + Described(d, spec, last, stack)
  {
    hide Describes, Known;
    var front, last := list[..|list| - 1], list[|list| - 1];
    forall v ensures v in DescribedByAny(d, spec, list, stack) <==>
        v in DescribedByAny(d, spec, front, stack) + Described(d, spec, last, stack)
    {
      if v in DescribedByAny(d, spec, list, stack) {
        var i :| 0 <= i < |list| && Describes(d, spec, list[i], stack, v);
        if i < |front| {
          assert Describes(d, spec, front[i], stack, v);
        }
      }
      if v in DescribedByAny(d, spec, front, stack) {
        var i :| 0 <= i < |front| && Describes(d, spec, front[i], stack, v);
        assert Describes(d, spec, list[i], stack, v);
      }
      if v in Described(d, spec, last, stack) {
        assert Describes(d, spec, list[|list| - 1], stack, v);
      }
    }
  }

  /** A composed schema describes what its alternatives describe, and null where it is nullable. */
  lemma ComposedDescribes(d: Times, spec: Spec, s: SchemaOrRef, stack: set<ObjectId>, v: Value)
    requires Valid(spec) && Known(spec, s) && Resolve(spec, s).Ok? && Resolve(spec, s).value !in stack
    requires IsComposed(spec.objects[Resolve(spec, s).value])
    ensures var id := Resolve(spec, s).value;
      && AllKnown(spec, Alternatives(spec.objects[id]))
      && (v in Described(d, spec, s, stack) <==>
           (v == Null && spec.objects[id].nullable) ||
           v in DescribedByAny(d, spec, Alternatives(spec.objects[id]), stack + {id}))
  {
    var id := Resolve(spec, s).value;
    var schema, list := spec.objects[id], Alternatives(spec.objects[id]);
    AlternativesKnown(spec, id);
    OneFewer(spec.objects.Keys, stack, id);
    hide Alternatives, LeafDescribes, Known, IsAlternative;
    if c :| IsAlternative(schema, c) && Known(spec, c) && Describes(d, spec, c, stack + {id}, v) {
      AlternativesAre(schema, c);
      var i :| 0 <= i < |list| && list[i] == c;
      assert Describes(d, spec, list[i], stack + {id}, v);
    }
    if i :| 0 <= i < |list| && Describes(d, spec, list[i], stack + {id}, v) {
      AlternativesAre(schema, list[i]);
      assert IsAlternative(schema, list[i]) && Known(spec, list[i]);
    }
  }

  lemma LeafIsDescribed(d: Times, spec: Spec, s: SchemaOrRef, stack: set<ObjectId>)
    requires Valid(spec) && Known(spec, s) && Resolve(spec, s).Ok? && Resolve(spec, s).value !in stack
    requires !IsComposed(spec.objects[Resolve(spec, s).value])
    ensures Described(d, spec, s, stack) == LeafValues(d, spec.objects[Resolve(spec, s).value])
  {
    hide LeafDescribes;
    var schema := spec.objects[Resolve(spec, s).value];
    assert forall c :: !IsAlternative(schema, c);
  }

  /** What holds of all leaves and of unions holds of whatever has a type. */
  lemma {:induction false} TypeHoldsScalars(d: Times, spec: Spec, s: SchemaOrRef, stack: set<ObjectId>)
    requires Valid(spec) && Known(spec, s) && InferType(spec, s, stack).Ok?
    ensures HoldsScalars(d, InferType(spec, s, stack).value, Described(d, spec, s, stack))
    decreases |spec.objects.Keys - stack|, 0
  {
    hide HoldsScalars, Describes, LeafDescribes, LeafColumn, Resolve, Alternatives;
    var id := Resolve(spec, s).value;
    var schema := spec.objects[id];
    AlternativesAre(schema, s);
    if Alternatives(schema) == [] {
      LeafIsDescribed(d, spec, s, stack);
      LeafHoldsScalars(d, schema);
    } else {
      AlternativesKnown(spec, id);
      OneFewer(spec.objects.Keys, stack, id);
      var list := Alternatives(schema);
      ListHoldsScalars(d, spec, list, stack + {id});
      forall v ensures v in Described(d, spec, s, stack) <==>
          (v == Null && schema.nullable) || v in DescribedByAny(d, spec, list, stack + {id})
      {
        ComposedDescribes(d, spec, s, stack, v);
      }
      ScalarsWithNull(d, InferAll(spec, list, stack + {id}).value, DescribedByAny(d, spec, list, stack + {id}),
                      InferType(spec, s, stack).value, schema.nullable, Described(d, spec, s, stack));
    }
  }

  lemma ScalarsWithNull(d: Times, x: Column, values: iset<Value>, y: Column, nullable: bool, more: iset<Value>)
    requires HoldsScalars(d, x, values) && y.kind == x.kind && (y.nullable <==> nullable || x.nullable)
    requires forall v :: v in more <==> (v == Null && nullable) || v in values
    ensures HoldsScalars(d, y, more)
  {
  }

  lemma {:induction false} ListHoldsScalars(d: Times, spec: Spec, list: seq<SchemaOrRef>, stack: set<ObjectId>)
    requires Valid(spec) && AllKnown(spec, list) && list != [] && InferAll(spec, list, stack).Ok?
    ensures HoldsScalars(d, InferAll(spec, list, stack).value, DescribedByAny(d, spec, list, stack))
    decreases |spec.objects.Keys - stack|, |list| + 1
  {
    hide HoldsScalars, Describes, InferType, Join;
    var front, last := list[..|list| - 1], list[|list| - 1];
    DescribedSnoc(d, spec, list, stack);
    TypeHoldsScalars(d, spec, last, stack);
    var x := CandidateColumn(spec, last, stack).value;
    ScalarsWithFlag(d, InferType(spec, last, stack).value, x, Described(d, spec, last, stack));
    if |list| == 1 {
      assert DescribedByAny(d, spec, front, stack) + Described(d, spec, last, stack) == Described(d, spec, last, stack);
    } else {
      ListHoldsScalars(d, spec, front, stack);
      ScalarsUnion(d, InferAll(spec, front, stack).value, DescribedByAny(d, spec, front, stack),
                   x, Described(d, spec, last, stack));
    }
  }

  lemma ScalarsWithFlag(d: Times, x: Column, y: Column, values: iset<Value>)
    requires y.kind == x.kind && y.nullable == x.nullable
    ensures HoldsScalars(d, x, values) <==> HoldsScalars(d, y, values)
    ensures Fits(d, x, values) <==> Fits(d, y, values)
  {
  }

  // ----- Regular candidates fit -----

  lemma {:induction false} TypeFits(d: Times, spec: Spec, s: SchemaOrRef, stack: set<ObjectId>)
    requires ValidTimes(d) && Valid(spec) && Known(spec, s) && Regular(spec, s, stack)
    ensures InferType(spec, s, stack).Ok?
    ensures Fits(d, InferType(spec, s, stack).value, Described(d, spec, s, stack))
    decreases |spec.objects.Keys - stack|, 0
  {
    hide Fits, Describes, LeafDescribes, LeafColumn, Resolve, Alternatives, RegularLeaf, IsAlternative;
    var id := Resolve(spec, s).value;
    var schema := spec.objects[id];
    AlternativesAre(schema, s);
    if Alternatives(schema) == [] {
      LeafIsDescribed(d, spec, s, stack);
      RegularValues(d, schema);
      LeafFits(d, schema);
    } else {
      AlternativesKnown(spec, id);
      OneFewer(spec.objects.Keys, stack, id);
      var list := Alternatives(schema);
      forall i | 0 <= i < |list| ensures Regular(spec, list[i], stack + {id}) {
        AlternativesAre(schema, list[i]);
      }
      ListFits(d, spec, list, stack + {id});
      forall v ensures v in Described(d, spec, s, stack) <==>
          (v == Null && schema.nullable) || v in DescribedByAny(d, spec, list, stack + {id})
      {
        ComposedDescribes(d, spec, s, stack, v);
      }
      FitsWithNull(d, InferAll(spec, list, stack + {id}).value, DescribedByAny(d, spec, list, stack + {id}),
                   InferType(spec, s, stack).value, schema.nullable, Described(d, spec, s, stack));
    }
  }

  lemma FitsWithNull(d: Times, x: Column, values: iset<Value>, y: Column, nullable: bool, more: iset<Value>)
    requires Fits(d, x, values) && y.kind == x.kind && (y.nullable <==> nullable || x.nullable)
    requires forall v :: v in more <==> (v == Null && nullable) || v in values
    ensures Fits(d, y, more)
  {
    hide Holds, Below;
    forall t ensures HoldsAll(d, t, more) <==> HoldsAll(d, t, values) {
    }
  }

  lemma {:induction false} ListFits(d: Times, spec: Spec, list: seq<SchemaOrRef>, stack: set<ObjectId>)
    requires ValidTimes(d) && Valid(spec) && AllKnown(spec, list) && list != []
    requires forall i :: 0 <= i < |list| ==> Regular(spec, list[i], stack)
    ensures InferAll(spec, list, stack).Ok?
    ensures Fits(d, InferAll(spec, list, stack).value, DescribedByAny(d, spec, list, stack))
    decreases |spec.objects.Keys - stack|, |list| + 1
  {
    hide Fits, Describes, InferType, Join, Regular;
    var front, last := list[..|list| - 1], list[|list| - 1];
    DescribedSnoc(d, spec, list, stack);
    TypeFits(d, spec, last, stack);
    var x := CandidateColumn(spec, last, stack).value;
    ScalarsWithFlag(d, InferType(spec, last, stack).value, x, Described(d, spec, last, stack));
    if |list| == 1 {
      assert DescribedByAny(d, spec, front, stack) + Described(d, spec, last, stack) == Described(d, spec, last, stack);
    } else {
      ListFits(d, spec, front, stack);
      FitsUnion(d, InferAll(spec, front, stack).value, DescribedByAny(d, spec, front, stack),
                x, Described(d, spec, last, stack));
    }
  }

  // ----- Columns of tables -----

  ghost predicate CandidateIn(
    spec: Spec, tableOf: map<ObjectId, string>, schema: string, t: string, name: string, c: SchemaOrRef)
    requires Valid(spec)
  {
    Feeds(spec, tableOf, schema, t) && Candidate(spec, Root(spec, schema).value, name, c)
  }

  /** A candidate for column `name` of table `t`, in any schema that feeds the table. */
  ghost predicate IsCandidate(
    spec: Spec, tableOf: map<ObjectId, string>, schemas: seq<string>, t: string, name: string, c: SchemaOrRef)
    requires Valid(spec)
  {
    && Known(spec, c)
    && exists i :: 0 <= i < |schemas| && CandidateIn(spec, tableOf, schemas[i], t, name, c)
  }

  ghost predicate CandidateDescribes(
    d: Times, spec: Spec, tableOf: map<ObjectId, string>, schemas: seq<string>, t: string, name: string, v: Value)
    requires Valid(spec)
  {
    exists c :: IsCandidate(spec, tableOf, schemas, t, name, c) && Describes(d, spec, c, {}, v)
  }

  /** All values described for the column. */
  ghost function ColumnValues(
    d: Times, spec: Spec, tableOf: map<ObjectId, string>, schemas: seq<string>, t: string, name: string): iset<Value>
    requires Valid(spec)
  {
    iset v | CandidateDescribes(d, spec, tableOf, schemas, t, name, v)
  }

  predicate IsExpandable(spec: Spec, c: SchemaOrRef)
    requires Valid(spec) && Known(spec, c)
  {
    Resolve(spec, c).Ok? && spec.objects[Resolve(spec, c).value].expandable
  }

  lemma OfferedIffCandidate(
    spec: Spec, tableOf: map<ObjectId, string>, schemas: seq<string>, t: string, name: string, x: Column)
    requires Valid(spec)
    ensures x in Offered(spec, tableOf, schemas, t, name) <==>
      exists c :: IsCandidate(spec, tableOf, schemas, t, name, c) && ColumnOf(spec, c) == Ok(x)
  {
    hide Candidate, ColumnOf, Root;
    if x in Offered(spec, tableOf, schemas, t, name) {
      var i :| 0 <= i < |schemas| && Offers(spec, tableOf, schemas[i], t, name, x);
      var c :| Candidate(spec, Root(spec, schemas[i]).value, name, c) && Known(spec, c) && ColumnOf(spec, c) == Ok(x);
      assert CandidateIn(spec, tableOf, schemas[i], t, name, c);
    }
    if c :| IsCandidate(spec, tableOf, schemas, t, name, c) && ColumnOf(spec, c) == Ok(x) {
      var i :| 0 <= i < |schemas| && CandidateIn(spec, tableOf, schemas[i], t, name, c);
      assert Offers(spec, tableOf, schemas[i], t, name, x);
    }
  }

  lemma LeIs(a: Column, b: Column)
    ensures Le(a, b) <==> Below(a.kind, b.kind) && (a.nullable ==> b.nullable) && (a.expandable ==> b.expandable)
  {
  }

  /** A least upper bound, read type by type and flag by flag. */
  lemma LeastMeans(columns: iset<Column>, v: Column, t: ScalarType)
    requires IsLeast(columns, v)
    ensures Below(v.kind, t) <==> forall x :: x in columns ==> Below(x.kind, t)
    ensures v.nullable <==> exists x :: x in columns && x.nullable
    ensures v.expandable <==> exists x :: x in columns && x.expandable
  {
    hide Le, Below;
    forall x | x in columns
      ensures Below(x.kind, v.kind) && (x.nullable ==> v.nullable) && (x.expandable ==> v.expandable)
    {
      LeIs(x, v);
    }
    if forall x :: x in columns ==> Below(x.kind, t) {
      BoundedBy(columns, v, Column(t, true, true));
    }
    if Below(v.kind, t) {
      forall x | x in columns ensures Below(x.kind, t) {
        BelowTransitive(x.kind, v.kind, t);
      }
    }
    BelowTransitive(v.kind, v.kind, v.kind);
    if !exists x :: x in columns && x.nullable {
      BoundedBy(columns, v, Column(v.kind, false, true));
    }
    if !exists x :: x in columns && x.expandable {
      BoundedBy(columns, v, Column(v.kind, true, false));
    }
  }

  lemma BelowTransitive(a: ScalarType, b: ScalarType, c: ScalarType)
    ensures Below(a, a) && (Below(a, b) && Below(b, c) ==> Below(a, c))
  {
  }

  lemma BoundedBy(columns: iset<Column>, v: Column, u: Column)
    requires IsLeast(columns, v)
    requires forall x :: x in columns ==>
      Below(x.kind, u.kind) && (x.nullable ==> u.nullable) && (x.expandable ==> u.expandable)
    ensures Below(v.kind, u.kind) && (v.nullable ==> u.nullable) && (v.expandable ==> u.expandable)
  {
    hide Le, Below;
    forall x | x in columns ensures Le(x, u) {
      LeIs(x, u);
    }
    LeIs(v, u);
  }

  /**
   A column of a parsed table whose candidates are regular: the types that hold every value described for it are
   exactly its own type and those above, and it is nullable if and only if null is described.
   */
  lemma ParsedColumnFits(
    d: Times, spec: Spec, tableOf: map<ObjectId, string>, schemas: seq<string>, tables: Tables, t: string, name: string)
    requires ValidTimes(d) && Valid(spec) && TablesAre(spec, tableOf, schemas, tables)
    requires t in tables && name in tables[t]
    requires forall c :: IsCandidate(spec, tableOf, schemas, t, name, c) ==> Regular(spec, c, {})
    ensures Fits(d, tables[t][name], ColumnValues(d, spec, tableOf, schemas, t, name))
  {
    hide IsCandidate, Describes, Regular, IsLeast, Below, Holds, Offered, CandidateColumn, Feeds;
    var col, offered := tables[t][name], Offered(spec, tableOf, schemas, t, name);
    var values := ColumnValues(d, spec, tableOf, schemas, t, name);
    assert ColumnIs(offered, name, TableAt(tables, t));
    forall k ensures HoldsAll(d, k, values) <==> Below(col.kind, k) {
      LeastMeans(offered, col, k);
      HeldIffAbove(d, spec, tableOf, schemas, t, name, k);
    }
    LeastMeans(offered, col, Json);
    NullIffNullable(d, spec, tableOf, schemas, t, name);
  }

  lemma CandidateFits(d: Times, spec: Spec, c: SchemaOrRef)
    requires ValidTimes(d) && Valid(spec) && Known(spec, c) && Regular(spec, c, {})
    ensures ColumnOf(spec, c).Ok? && Fits(d, ColumnOf(spec, c).value, Described(d, spec, c, {}))
  {
    hide Fits, Describes, Regular, InferType;
    TypeFits(d, spec, c, {});
    ScalarsWithFlag(d, InferType(spec, c, {}).value, ColumnOf(spec, c).value, Described(d, spec, c, {}));
  }

  lemma HeldIffAbove(
    d: Times, spec: Spec, tableOf: map<ObjectId, string>, schemas: seq<string>, t: string, name: string, k: ScalarType)
    requires ValidTimes(d) && Valid(spec)
    requires forall c :: IsCandidate(spec, tableOf, schemas, t, name, c) ==> Regular(spec, c, {})
    ensures HoldsAll(d, k, ColumnValues(d, spec, tableOf, schemas, t, name)) <==>
      forall x :: x in Offered(spec, tableOf, schemas, t, name) ==> Below(x.kind, k)
  {
    hide Describes, Regular, Below, Holds, Offered, CandidateColumn, Feeds, Candidate;
    var values := ColumnValues(d, spec, tableOf, schemas, t, name);
    if HoldsAll(d, k, values) {
      forall x | x in Offered(spec, tableOf, schemas, t, name) ensures Below(x.kind, k) {
        OfferedIffCandidate(spec, tableOf, schemas, t, name, x);
        var c :| IsCandidate(spec, tableOf, schemas, t, name, c) && ColumnOf(spec, c) == Ok(x);
        CandidateFits(d, spec, c);
        assert HoldsAll(d, k, Described(d, spec, c, {}));
      }
    }
    if forall x :: x in Offered(spec, tableOf, schemas, t, name) ==> Below(x.kind, k) {
      forall v | v in values && v != Null ensures Holds(d, k, v) {
        var c :| IsCandidate(spec, tableOf, schemas, t, name, c) && Describes(d, spec, c, {}, v);
        CandidateFits(d, spec, c);
        OfferedIffCandidate(spec, tableOf, schemas, t, name, ColumnOf(spec, c).value);
        assert HoldsAll(d, k, Described(d, spec, c, {}));
        assert v in Described(d, spec, c, {});
      }
    }
  }

  lemma NullIffNullable(
    d: Times, spec: Spec, tableOf: map<ObjectId, string>, schemas: seq<string>, t: string, name: string)
    requires ValidTimes(d) && Valid(spec)
    requires forall c :: IsCandidate(spec, tableOf, schemas, t, name, c) ==> Regular(spec, c, {})
    ensures Null in ColumnValues(d, spec, tableOf, schemas, t, name) <==>
      exists x :: x in Offered(spec, tableOf, schemas, t, name) && x.nullable
  {
    hide Describes, Regular, HoldsAll, Offered, CandidateColumn, Feeds, Candidate;
    if Null in ColumnValues(d, spec, tableOf, schemas, t, name) {
      var c :| IsCandidate(spec, tableOf, schemas, t, name, c) && Describes(d, spec, c, {}, Null);
      CandidateFits(d, spec, c);
      OfferedIffCandidate(spec, tableOf, schemas, t, name, ColumnOf(spec, c).value);
      assert Null in Described(d, spec, c, {});
    }
    if x :| x in Offered(spec, tableOf, schemas, t, name) && x.nullable {
      OfferedIffCandidate(spec, tableOf, schemas, t, name, x);
      var c :| IsCandidate(spec, tableOf, schemas, t, name, c) && ColumnOf(spec, c) == Ok(x);
      CandidateFits(d, spec, c);
      assert Null in Described(d, spec, c, {});
    }
  }

  /** When the schemas parse, every candidate for a column that is not reserved has a type. */
  lemma CandidatesAreTyped(
    spec: Spec, tableOf: map<ObjectId, string>, schemas: seq<string>, t: string, name: string, c: SchemaOrRef)
    requires Valid(spec) && AllParse(spec, tableOf, schemas) && name !in RESERVED
    requires IsCandidate(spec, tableOf, schemas, t, name, c)
    ensures ColumnOf(spec, c).Ok?
  {
    hide Candidate, CandidateColumn, AllResolve;
    var i :| 0 <= i < |schemas| && CandidateIn(spec, tableOf, schemas[i], t, name, c);
    assert SchemaParses(spec, tableOf, schemas[i]);
  }

  /** A column is expandable if and only if one of its candidates is. */
  lemma ExpandableIff(
    spec: Spec, tableOf: map<ObjectId, string>, schemas: seq<string>, tables: Tables, t: string, name: string)
    requires Valid(spec) && TablesAre(spec, tableOf, schemas, tables) && t in tables && name in tables[t]
    ensures tables[t][name].expandable <==>
      exists c :: IsCandidate(spec, tableOf, schemas, t, name, c) && ColumnOf(spec, c).Ok? && IsExpandable(spec, c)
  {
    hide CandidateIn, IsLeast, Offered, InferType, Feeds;
    var col, offered := tables[t][name], Offered(spec, tableOf, schemas, t, name);
    assert ColumnIs(offered, name, TableAt(tables, t));
    LeastMeans(offered, col, Json);
    if x :| x in offered && x.expandable {
      OfferedIffCandidate(spec, tableOf, schemas, t, name, x);
      var c :| IsCandidate(spec, tableOf, schemas, t, name, c) && ColumnOf(spec, c) == Ok(x);
      assert IsExpandable(spec, c);
    }
    if c :| IsCandidate(spec, tableOf, schemas, t, name, c) && ColumnOf(spec, c).Ok? && IsExpandable(spec, c) {
      OfferedIffCandidate(spec, tableOf, schemas, t, name, ColumnOf(spec, c).value);
      assert ColumnOf(spec, c).value.expandable;
    }
  }

  lemma CandidateHoldsScalars(d: Times, spec: Spec, c: SchemaOrRef)
    requires Valid(spec) && Known(spec, c) && ColumnOf(spec, c).Ok?
    ensures HoldsScalars(d, ColumnOf(spec, c).value, Described(d, spec, c, {}))
  {
    hide Fits, Describes, InferType;
    TypeHoldsScalars(d, spec, c, {});
    ScalarsWithFlag(d, InferType(spec, c, {}).value, ColumnOf(spec, c).value, Described(d, spec, c, {}));
  }

  lemma BelowHolds(d: Times, a: ScalarType, b: ScalarType, v: Value)
    requires Below(a, b) && Holds(d, a, v)
    ensures Holds(d, b, v)
  {
  }

  /**
   A column of a parsed table, whatever its candidates: it holds every scalar described for it, and null where that is
   described.  So it holds all that is described if and only if it is JSON or no array or object is.
   */
  lemma ParsedColumnHolds(
    d: Times, spec: Spec, tableOf: map<ObjectId, string>, schemas: seq<string>, tables: Tables, t: string, name: string)
    requires Valid(spec) && TablesAre(spec, tableOf, schemas, tables) && t in tables && name in tables[t]
    requires forall c :: IsCandidate(spec, tableOf, schemas, t, name, c) ==> ColumnOf(spec, c).Ok?
    ensures var col, values := tables[t][name], ColumnValues(d, spec, tableOf, schemas, t, name);
      && HoldsScalars(d, col, values)
      && (HoldsAll(d, col.kind, values) <==> col.kind == Json || forall v :: v in values ==> !v.Arr? && !v.Obj?)
  {
    hide CandidateIn, Describes, IsLeast, Below, Offered, CandidateColumn, Feeds;
    var col, offered := tables[t][name], Offered(spec, tableOf, schemas, t, name);
    var values := ColumnValues(d, spec, tableOf, schemas, t, name);
    assert ColumnIs(offered, name, TableAt(tables, t));
    BelowTransitive(col.kind, col.kind, col.kind);
    LeastMeans(offered, col, col.kind);
    forall v | v in values ensures (IsScalar(v) ==> Holds(d, col.kind, v)) && (v == Null ==> col.nullable) {
      var c :| IsCandidate(spec, tableOf, schemas, t, name, c) && Describes(d, spec, c, {}, v);
      var x := ColumnOf(spec, c).value;
      CandidateHoldsScalars(d, spec, c);
      OfferedIffCandidate(spec, tableOf, schemas, t, name, x);
      assert v in Described(d, spec, c, {}) && x in offered;
      if IsScalar(v) {
        BelowHolds(d, x.kind, col.kind, v);
      }
    }
  }

  /** An untyped leaf becomes text: that holds all it describes if and only if it lists scalars and null only. */
  lemma IrregularLeafHoldsIff(d: Times, schema: Schema)
    requires !RegularLeaf(schema)
    ensures LeafColumn(schema) == Column(Text, true, false)
    ensures HoldsAll(d, Text, LeafValues(d, schema)) <==>
      schema.enum_ != [] && forall i :: 0 <= i < |schema.enum_| ==> IsScalar(schema.enum_[i]) || schema.enum_[i] == Null
  {
    if schema.enum_ == [] {
      assert Arr([]) in LeafValues(d, schema);
    } else {
      forall i | 0 <= i < |schema.enum_| ensures schema.enum_[i] in LeafValues(d, schema) {
        assert schema.enum_[i] in schema.enum_;
      }
    }
  }

  // ----- JSON Schema's own reading -----

  /**
   The values that a schema allows when all that it says counts: its type, its list of values, exactly one of
   `oneOf`, some of `anyOf` and all of `allOf`. Properties without a type stand for an object.
   */
  ghost predicate Allows(d: Times, spec: Spec, s: SchemaOrRef, stack: set<ObjectId>, v: Value)
    requires Valid(spec) && Known(spec, s)
    decreases |spec.objects.Keys - stack|
  {
    var r := Resolve(spec, s);
    && r.Ok? && r.value !in stack
    && var schema, inner := spec.objects[r.value], stack + {r.value};
       AllKnownIn(spec, r.value);
       OneFewer(spec.objects.Keys, stack, r.value);
       || (v == Null && schema.nullable)
       || (&& (schema.kind in KINDS ==> OfKind(d, schema.kind, schema.format, v))
           && (schema.kind !in KINDS && (schema.hasProperties || schema.hasAdditional) ==> v.Obj?)
           && (schema.enum_ != [] ==> v in schema.enum_)
           && (schema.oneOf != [] ==>
                exists i :: 0 <= i < |schema.oneOf| && Allows(d, spec, schema.oneOf[i], inner, v)
                  && forall j :: 0 <= j < |schema.oneOf| && j != i ==> !Allows(d, spec, schema.oneOf[j], inner, v))
           && (schema.anyOf != [] ==>
                exists i :: 0 <= i < |schema.anyOf| && Allows(d, spec, schema.anyOf[i], inner, v))
           && (forall i :: 0 <= i < |schema.allOf| ==> Allows(d, spec, schema.allOf[i], inner, v)))
  }

  lemma AllKnownIn(spec: Spec, id: ObjectId)
    requires Valid(spec) && id in spec.objects
    ensures var schema := spec.objects[id];
      AllKnown(spec, schema.oneOf) && AllKnown(spec, schema.anyOf) && AllKnown(spec, schema.allOf)
  {
    var schema := spec.objects[id];
    assert SchemaKnown(spec, schema);
    var all := Composed(schema);
    var a, b := |schema.allOf|, |schema.allOf + schema.oneOf|;
    assert schema.allOf == all[..a] && schema.oneOf == all[a..b] && schema.anyOf == all[b..];
  }

  /** All that a schema allows is described, so what is held of the described values is held of the allowed ones. */
  lemma {:induction false} AllowedIsDescribed(d: Times, spec: Spec, s: SchemaOrRef, stack: set<ObjectId>, v: Value)
    requires Valid(spec) && Known(spec, s) && Allows(d, spec, s, stack, v)
    ensures Describes(d, spec, s, stack, v)
    decreases |spec.objects.Keys - stack|
  {
    hide OfKind;
    var id := Resolve(spec, s).value;
    var schema, inner := spec.objects[id], stack + {id};
    AllKnownIn(spec, id);
    OneFewer(spec.objects.Keys, stack, id);
    if !(v == Null && schema.nullable) && IsComposed(schema) {
      var c := AllowedAlternative(d, spec, s, stack, v);
      AllowedIsDescribed(d, spec, c, inner, v);
    }
  }

  lemma AllowedAlternative(d: Times, spec: Spec, s: SchemaOrRef, stack: set<ObjectId>, v: Value)
    returns (c: SchemaOrRef)
    requires Valid(spec) && Known(spec, s) && Allows(d, spec, s, stack, v)
    requires var schema := spec.objects[Resolve(spec, s).value];
      IsComposed(schema) && !(v == Null && schema.nullable)
    ensures IsAlternative(spec.objects[Resolve(spec, s).value], c) && Known(spec, c)
    ensures Allows(d, spec, c, stack + {Resolve(spec, s).value}, v)
  {
    hide OfKind;
    var id := Resolve(spec, s).value;
    var schema, inner := spec.objects[id], stack + {id};
    AllKnownIn(spec, id);
    if schema.oneOf != [] {
      var i :| 0 <= i < |schema.oneOf| && Allows(d, spec, schema.oneOf[i], inner, v);
      c := schema.oneOf[i];
    } else if schema.anyOf != [] {
      var i :| 0 <= i < |schema.anyOf| && Allows(d, spec, schema.anyOf[i], inner, v);
      c := schema.anyOf[i];
    } else {
      c := schema.allOf[0];
    }
  }
}
