/**
 * Column types from property candidates: the merge of types is a semilattice join, so a column is the least
 * upper bound of its candidates, whatever the order in which schemas and candidates come.
 */
module SpecColumns {
  import opened Options
  import opened SpecGraph

  datatype ScalarType = Text | Boolean | Bigint | Numeric | Json | Timestamptz

  function MergeTypes(left: ScalarType, right: ScalarType): ScalarType {
    if left == right then left
    else if left == Json || right == Json then Json
    else if (left == Numeric && right == Bigint) || (left == Bigint && right == Numeric) then Numeric
    else if left == Timestamptz && right == Text then Text
    else if left == Text && right == Timestamptz then Text
    else Text
  }

  datatype Column = Column(kind: ScalarType, nullable: bool, expandable: bool)

  function Join(a: Column, b: Column): Column {
    Column(MergeTypes(a.kind, b.kind), a.nullable || b.nullable, a.expandable || b.expandable)
  }

  predicate Le(a: Column, b: Column) {
    Join(a, b) == b
  }

  lemma MergeIsJoin(a: ScalarType, b: ScalarType, c: ScalarType)
    ensures MergeTypes(a, a) == a
    ensures MergeTypes(a, b) == MergeTypes(b, a)
    ensures MergeTypes(MergeTypes(a, b), c) == MergeTypes(a, MergeTypes(b, c))
  {
  }

  /** The order of the types: JSON above all, text above all others, numeric above bigint. */
  predicate Below(a: ScalarType, b: ScalarType) {
    || a == b
    || b == Json
    || (b == Text && a != Json)
    || (a == Bigint && b == Numeric)
  }

  /** The merge is the least type above both. */
  lemma MergeWidens(a: ScalarType, b: ScalarType, u: ScalarType)
    ensures Below(a, MergeTypes(a, b)) && Below(b, MergeTypes(a, b))
    ensures Below(a, u) && Below(b, u) ==> Below(MergeTypes(a, b), u)
  {
  }

  lemma JoinIsLeast(a: Column, b: Column, u: Column)
    ensures Le(a, Join(a, b)) && Le(b, Join(a, b))
    ensures Le(Join(a, b), u) <==> Le(a, u) && Le(b, u)
  {
    MergeIsJoin(a.kind, b.kind, u.kind);
    MergeIsJoin(a.kind, a.kind, b.kind);
    MergeIsJoin(a.kind, b.kind, b.kind);
  }

  lemma LeIsOrder(a: Column, b: Column, c: Column)
    ensures Le(a, a)
    ensures Le(a, b) && Le(b, a) ==> a == b
    ensures Le(a, b) && Le(b, c) ==> Le(a, c)
  {
    MergeIsJoin(a.kind, b.kind, c.kind);
  }

  // ----- Least upper bounds -----

  ghost predicate Bounds(columns: iset<Column>, u: Column) {
    forall x :: x in columns ==> Le(x, u)
  }

  ghost predicate IsLeast(columns: iset<Column>, v: Column) {
    Bounds(columns, v) && forall u :: Bounds(columns, u) ==> Le(v, u)
  }

  lemma LeastIsUnique(columns: iset<Column>, v: Column, w: Column)
    requires IsLeast(columns, v) && IsLeast(columns, w)
    ensures v == w
  {
    LeIsOrder(v, w, v);
  }

  lemma LeastOfOne(v: Column)
    ensures IsLeast(iset{v}, v)
  {
    LeIsOrder(v, v, v);
    forall u | Bounds(iset{v}, u) ensures Le(v, u) {
      assert v in iset{v};
    }
  }

  lemma LeastOfUnion(a: iset<Column>, v: Column, b: iset<Column>, w: Column)
    requires IsLeast(a, v) && IsLeast(b, w)
    ensures IsLeast(a + b, Join(v, w))
  {
    hide Le;
    forall x | x in a + b ensures Le(x, Join(v, w)) {
      JoinIsLeast(v, w, v);
      if x in a {
        LeIsOrder(x, v, Join(v, w));
      } else {
        LeIsOrder(x, w, Join(v, w));
      }
    }
    forall u | Bounds(a + b, u) ensures Le(Join(v, w), u) {
      assert Bounds(a, u) && Bounds(b, u);
      JoinIsLeast(v, w, u);
    }
  }

  // ----- The type of one candidate -----

  predicate IsInteger(v: Value) {
    v.Num? && v.x == v.x.Floor as real
  }

  predicate AllBooleans(values: seq<Value>) {
    forall i :: 0 <= i < |values| ==> values[i].Bool?
  }

  predicate AllIntegers(values: seq<Value>) {
    forall i :: 0 <= i < |values| ==> IsInteger(values[i])
  }

  predicate AllNumbers(values: seq<Value>) {
    forall i :: 0 <= i < |values| ==> values[i].Num?
  }

  /** The type of a schema that is not composed of others. */
  function LeafColumn(schema: Schema): Column {
    if schema.kind == "boolean" then Column(Boolean, schema.nullable, false)
    else if schema.kind == "integer" then Column(Bigint, schema.nullable, false)
    else if schema.kind == "number" then Column(Numeric, schema.nullable, false)
    else if schema.kind == "string" then
      Column(if schema.format == "date-time" then Timestamptz else Text, schema.nullable, false)
    else if schema.kind == "array" || schema.kind == "object" then Column(Json, schema.nullable, false)
    else if schema.hasProperties || schema.hasAdditional then Column(Json, schema.nullable, false)
    else if schema.enum_ != [] && AllBooleans(schema.enum_) then Column(Boolean, schema.nullable, false)
    else if schema.enum_ != [] && AllIntegers(schema.enum_) then Column(Bigint, schema.nullable, false)
    else if schema.enum_ != [] && AllNumbers(schema.enum_) then Column(Numeric, schema.nullable, false)
    else Column(Text, true, false)
  }

  function Alternatives(schema: Schema): seq<SchemaOrRef> {
    if schema.oneOf != [] then schema.oneOf
    else if schema.anyOf != [] then schema.anyOf
    else schema.allOf
  }

  lemma AlternativesKnown(spec: Spec, id: ObjectId)
    requires Valid(spec) && id in spec.objects
    ensures AllKnown(spec, Alternatives(spec.objects[id]))
  {
    var schema := spec.objects[id];
    assert SchemaKnown(spec, schema);
    var all := Composed(schema);
    var a, b := |schema.allOf|, |schema.allOf + schema.oneOf|;
    assert schema.allOf == all[..a] && schema.oneOf == all[a..b] && schema.anyOf == all[b..];
  }

  lemma OneFewer(all: set<ObjectId>, stack: set<ObjectId>, id: ObjectId)
    requires id in all && id !in stack
    ensures |all - (stack + {id})| < |all - stack|
  {
    assert all - (stack + {id}) == all - stack - {id};
  }

  /**
   * The type of a candidate, below the schemas of `stack`. A schema that comes up below itself is one on
   * which the source's recursion never ends: it runs out of stack.
   */
  function InferType(spec: Spec, s: SchemaOrRef, stack: set<ObjectId>): Result<Column>
    requires Valid(spec) && Known(spec, s)
    decreases |spec.objects.Keys - stack|, 0
  {
    var r := Resolve(spec, s);
    if r.Err? then Err(r.error)
    else if r.value in stack then Err(Endless)
    else
      var schema := spec.objects[r.value];
      var list := Alternatives(schema);
      if list == [] then Ok(LeafColumn(schema))
      else
        AlternativesKnown(spec, r.value);
        OneFewer(spec.objects.Keys, stack, r.value);
        var merged := InferAll(spec, list, stack + {r.value});
        if merged.Err? then merged
        else Ok(Column(merged.value.kind, schema.nullable || merged.value.nullable, false))
  }

  function CandidateColumn(spec: Spec, s: SchemaOrRef, stack: set<ObjectId>): Result<Column>
    requires Valid(spec) && Known(spec, s)
    decreases |spec.objects.Keys - stack|, 1
  {
    var r := InferType(spec, s, stack);
    if r.Err? then r
    else Ok(r.value.(expandable := Resolve(spec, s).Ok? && spec.objects[Resolve(spec, s).value].expandable))
  }

  /** The candidates of one property, merged from first to last; the first error ends it. */
  function InferAll(spec: Spec, list: seq<SchemaOrRef>, stack: set<ObjectId>): Result<Column>
    requires Valid(spec) && AllKnown(spec, list) && list != []
    decreases |spec.objects.Keys - stack|, |list| + 1
  {
    var last := list[|list| - 1];
    if |list| == 1 then CandidateColumn(spec, last, stack)
    else
      var front := InferAll(spec, list[..|list| - 1], stack);
      if front.Err? then front
      else
        var c := CandidateColumn(spec, last, stack);
        if c.Err? then c else Ok(Join(front.value, c.value))
  }

  function ColumnOf(spec: Spec, s: SchemaOrRef): Result<Column>
    requires Valid(spec) && Known(spec, s)
  {
    CandidateColumn(spec, s, {})
  }

  function InferFromCandidates(spec: Spec, list: seq<SchemaOrRef>): Result<Column>
    requires Valid(spec) && AllKnown(spec, list)
  {
    if list == [] then Ok(Column(Text, true, false)) else InferAll(spec, list, {})
  }

  // ----- What the candidates of one property amount to -----

  ghost predicate AllTyped(spec: Spec, list: seq<SchemaOrRef>)
    requires Valid(spec) && AllKnown(spec, list)
  {
    forall i :: 0 <= i < |list| ==> ColumnOf(spec, list[i]).Ok?
  }

  ghost function ColumnsOf(spec: Spec, list: seq<SchemaOrRef>): iset<Column>
    requires Valid(spec) && AllKnown(spec, list)
  {
    iset x | exists i :: 0 <= i < |list| && ColumnOf(spec, list[i]) == Ok(x)
  }

  lemma ColumnsOfSnoc(spec: Spec, list: seq<SchemaOrRef>, x: Column)
    requires Valid(spec) && AllKnown(spec, list) && list != []
    requires ColumnOf(spec, list[|list| - 1]) == Ok(x)
    ensures ColumnsOf(spec, list) == ColumnsOf(spec, list[..|list| - 1]) + iset{x}
  {
    hide ColumnOf;
    var front := list[..|list| - 1];
    forall y ensures y in ColumnsOf(spec, list) <==> y in ColumnsOf(spec, front) + iset{x} {
      if y in ColumnsOf(spec, list) {
        var i :| 0 <= i < |list| && ColumnOf(spec, list[i]) == Ok(y);
        if i < |front| {
          assert ColumnOf(spec, front[i]) == Ok(y);
        }
      }
      if y in ColumnsOf(spec, front) {
        var i :| 0 <= i < |front| && ColumnOf(spec, front[i]) == Ok(y);
        assert ColumnOf(spec, list[i]) == Ok(y);
      }
      if y == x {
        assert ColumnOf(spec, list[|list| - 1]) == Ok(y);
      }
    }
  }

  /** Merging in any order gives the least upper bound of the candidates, and fails only if one has no type. */
  lemma {:induction false} InferAllIsLeast(spec: Spec, list: seq<SchemaOrRef>)
    requires Valid(spec) && AllKnown(spec, list) && list != []
    ensures InferAll(spec, list, {}).Ok? <==> AllTyped(spec, list)
    ensures InferAll(spec, list, {}).Ok? ==> IsLeast(ColumnsOf(spec, list), InferAll(spec, list, {}).value)
  {
    hide CandidateColumn, Join, IsLeast;
    var front, last := list[..|list| - 1], list[|list| - 1];
    if |list| > 1 {
      InferAllIsLeast(spec, front);
    }
    assert AllTyped(spec, list) <==> AllTyped(spec, front) && ColumnOf(spec, last).Ok?;
    if InferAll(spec, list, {}).Ok? {
      var x := ColumnOf(spec, last).value;
      ColumnsOfSnoc(spec, list, x);
      LeastOfOne(x);
      if |list| > 1 {
        LeastOfUnion(ColumnsOf(spec, front), InferAll(spec, front, {}).value, iset{x}, x);
      } else {
        assert ColumnsOf(spec, front) + iset{x} == iset{x};
      }
    }
  }

  ghost predicate SameElements<T(!new)>(a: seq<T>, b: seq<T>) {
    (forall x :: x in a ==> x in b) && (forall x :: x in b ==> x in a)
  }

  lemma EmptyTogether<T(!new)>(a: seq<T>, b: seq<T>)
    requires SameElements(a, b)
    ensures a == [] <==> b == []
  {
    if a != [] {
      assert a[0] in b;
    }
    if b != [] {
      assert b[0] in a;
    }
  }

  lemma SameColumns(spec: Spec, a: seq<SchemaOrRef>, b: seq<SchemaOrRef>)
    requires Valid(spec) && AllKnown(spec, a) && AllKnown(spec, b) && SameElements(a, b)
    ensures ColumnsOf(spec, a) == ColumnsOf(spec, b)
    ensures AllTyped(spec, a) <==> AllTyped(spec, b)
  {
    hide ColumnOf, Known;
    forall i | 0 <= i < |a| ensures exists j :: 0 <= j < |b| && b[j] == a[i] {
      assert a[i] in b;
    }
    forall i | 0 <= i < |b| ensures exists j :: 0 <= j < |a| && a[j] == b[i] {
      assert b[i] in a;
    }
  }

  /** Neither the order of the candidates nor their repetition matters. */
  lemma OrderIrrelevant(spec: Spec, a: seq<SchemaOrRef>, b: seq<SchemaOrRef>)
    requires Valid(spec) && AllKnown(spec, a) && AllKnown(spec, b) && SameElements(a, b)
    ensures InferFromCandidates(spec, a).Ok? <==> InferFromCandidates(spec, b).Ok?
    ensures InferFromCandidates(spec, a).Ok? ==> InferFromCandidates(spec, a) == InferFromCandidates(spec, b)
  {
    hide InferAll, IsLeast;
    EmptyTogether(a, b);
    if a != [] {
      InferAllIsLeast(spec, a);
      InferAllIsLeast(spec, b);
      SameColumns(spec, a, b);
      if AllTyped(spec, a) {
        LeastIsUnique(ColumnsOf(spec, a), InferAll(spec, a, {}).value, InferAll(spec, b, {}).value);
      }
    }
  }

  lemma {:induction false} ErrorPersists(spec: Spec, list: seq<SchemaOrRef>, i: nat)
    requires Valid(spec) && AllKnown(spec, list) && 0 < i <= |list|
    requires InferAll(spec, list[..i], {}).Err?
    ensures InferAll(spec, list, {}) == InferAll(spec, list[..i], {})
    decreases |list|
  {
    hide CandidateColumn;
    if i == |list| {
      assert list[..i] == list;
    } else {
      var front := list[..|list| - 1];
      assert front[..i] == list[..i];
      ErrorPersists(spec, front, i);
    }
  }

  lemma InferAllSnoc(spec: Spec, list: seq<SchemaOrRef>, i: nat)
    requires Valid(spec) && AllKnown(spec, list) && i < |list|
    ensures AllKnown(spec, list[..i]) && AllKnown(spec, list[..i + 1])
    ensures InferAll(spec, list[..i + 1], {}) ==
      var c := ColumnOf(spec, list[i]);
      if i == 0 then c
      else
        var front := InferAll(spec, list[..i], {});
        if front.Err? then front else if c.Err? then c else Ok(Join(front.value, c.value))
  {
    assert list[..i + 1][..i] == list[..i];
  }

  /** The loop over the candidates of one property, with its three accumulators. */
  method InferColumn(spec: Spec, candidates: seq<SchemaOrRef>) returns (r: Result<Column>)
    requires Valid(spec) && AllKnown(spec, candidates)
    ensures r == InferFromCandidates(spec, candidates)
  {
    hide InferAll, CandidateColumn, Valid;
    if candidates == [] {
      return Ok(Column(Text, true, false));
    }
    var mergedType: Option<ScalarType> := None;
    var nullable, expandable := false, false;
    for i := 0 to |candidates|
      invariant mergedType.None? <==> i == 0
      invariant i == 0 ==> !nullable && !expandable
      invariant i > 0 ==>
        InferAll(spec, candidates[..i], {}) == Ok(Column(mergedType.value, nullable, expandable))
    {
      InferAllSnoc(spec, candidates, i);
      var inferred := ColumnOf(spec, candidates[i]);
      if inferred.Err? {
        ErrorPersists(spec, candidates, i + 1);
        return inferred;
      }
      var x := inferred.value;
      mergedType := Some(if mergedType.Some? then MergeTypes(mergedType.value, x.kind) else x.kind);
      nullable, expandable := nullable || x.nullable, expandable || x.expandable;
    }
    assert candidates[..|candidates|] == candidates;
    r := Ok(Column(mergedType.value, nullable, expandable));
  }
}
