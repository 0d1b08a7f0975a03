/**
 * From schemas to tables: several schemas may feed one table, and each column of it is the least upper bound
 * of every candidate that composition reaches from any of them.
 */
module SpecTables {
  import opened SpecGraph
  import opened SpecColumns

  type Columns = map<string, Column>

  type Tables = map<string, Columns>

  const RESERVED := {"id", "_raw_data", "_last_synced_at", "_updated_at", "_account_id", "deleted"}

  function RefTo(name: string): SchemaOrRef {
    Ref(PREFIX + name)
  }

  function Root(spec: Spec, name: string): Result<ObjectId>
    requires Valid(spec)
  {
    Resolve(spec, RefTo(name))
  }

  /** Schema `name` feeds table `t`; `tableOf` has the objects with a resource id of an allowed table. */
  predicate Feeds(spec: Spec, tableOf: map<ObjectId, string>, name: string, t: string)
    requires Valid(spec)
  {
    var root := Root(spec, name);
    root.Ok? && root.value in tableOf && tableOf[root.value] == t
  }

  // ----- What a column should be -----

  /** The types of the candidates for column `name` below one schema. */
  ghost function ColumnsAt(spec: Spec, root: ObjectId, name: string): iset<Column>
    requires Valid(spec)
  {
    iset x | exists c :: Candidate(spec, root, name, c) && Known(spec, c) && ColumnOf(spec, c) == Ok(x)
  }

  ghost predicate Offers(spec: Spec, tableOf: map<ObjectId, string>, schema: string, t: string, name: string, x: Column)
    requires Valid(spec)
  {
    Feeds(spec, tableOf, schema, t) && x in ColumnsAt(spec, Root(spec, schema).value, name)
  }

  ghost predicate OffersAny(
    spec: Spec, tableOf: map<ObjectId, string>, schemas: seq<string>, t: string, name: string, x: Column)
    requires Valid(spec)
  {
    exists i :: 0 <= i < |schemas| && Offers(spec, tableOf, schemas[i], t, name, x)
  }

  /** The same below any of the schemas that feed a table. */
  ghost function Offered(
    spec: Spec, tableOf: map<ObjectId, string>, schemas: seq<string>, t: string, name: string): iset<Column>
    requires Valid(spec)
  {
    iset x | OffersAny(spec, tableOf, schemas, t, name, x)
  }

  /** A column exists if it has a candidate and is not reserved; it is then the least upper bound. */
  ghost predicate ColumnIs(offered: iset<Column>, name: string, cols: Columns) {
    && (name in cols <==> name !in RESERVED && offered != iset{})
    && (name in cols ==> IsLeast(offered, cols[name]))
  }

  function TableAt(tables: Tables, t: string): Columns {
    if t in tables then tables[t] else map[]
  }

  ghost predicate IsFed(spec: Spec, tableOf: map<ObjectId, string>, schemas: seq<string>, t: string)
    requires Valid(spec)
  {
    exists i :: 0 <= i < |schemas| && Feeds(spec, tableOf, schemas[i], t)
  }

  ghost predicate TablesAre(spec: Spec, tableOf: map<ObjectId, string>, schemas: seq<string>, tables: Tables)
    requires Valid(spec)
  {
    && (forall t :: t in tables <==> IsFed(spec, tableOf, schemas, t))
    && (forall t, name :: ColumnIs(Offered(spec, tableOf, schemas, t, name), name, TableAt(tables, t)))
  }

  lemma OfferedSame(spec: Spec, tableOf: map<ObjectId, string>, a: seq<string>, b: seq<string>, t: string, name: string)
    requires Valid(spec) && SameElements(a, b)
    ensures Offered(spec, tableOf, a, t, name) == Offered(spec, tableOf, b, t, name)
    ensures IsFed(spec, tableOf, a, t) <==> IsFed(spec, tableOf, b, t)
  {
    hide Offers, Feeds;
    forall i | 0 <= i < |a| ensures exists j :: 0 <= j < |b| && b[j] == a[i] {
      assert a[i] in b;
    }
    forall i | 0 <= i < |b| ensures exists j :: 0 <= j < |a| && a[j] == b[i] {
      assert b[i] in a;
    }
  }

  lemma SameColumnsBySameOffers(offered: iset<Column>, name: string, a: Columns, b: Columns)
    requires ColumnIs(offered, name, a) && ColumnIs(offered, name, b)
    ensures name in a <==> name in b
    ensures name in a ==> a[name] == b[name]
  {
    hide IsLeast;
    if name in a {
      LeastIsUnique(offered, a[name], b[name]);
    }
  }

  /** The tables do not depend on the order in which the schemas are processed. */
  lemma SchemaOrderIrrelevant(
    spec: Spec, tableOf: map<ObjectId, string>, a: seq<string>, ta: Tables, b: seq<string>, tb: Tables)
    requires Valid(spec) && SameElements(a, b)
    requires TablesAre(spec, tableOf, a, ta) && TablesAre(spec, tableOf, b, tb)
    ensures ta == tb
  {
    hide Offered, IsFed, ColumnIs;
    forall t ensures (t in ta <==> t in tb) && (t in ta ==> ta[t] == tb[t]) {
      OfferedSame(spec, tableOf, a, b, t, "");
      if t in ta {
        forall name ensures (name in ta[t] <==> name in tb[t]) && (name in ta[t] ==> ta[t][name] == tb[t][name]) {
          OfferedSame(spec, tableOf, a, b, t, name);
          assert ColumnIs(Offered(spec, tableOf, a, t, name), name, TableAt(ta, t));
          assert ColumnIs(Offered(spec, tableOf, b, t, name), name, TableAt(tb, t));
          SameColumnsBySameOffers(Offered(spec, tableOf, a, t, name), name, ta[t], tb[t]);
        }
      }
    }
  }

  // ----- The columns of one schema -----

  lemma {:induction false} ValuesKnown(spec: Spec, props: seq<Property>, name: string)
    requires forall i :: 0 <= i < |props| ==> Known(spec, props[i].value)
    ensures AllKnown(spec, ValuesOf(props, name))
  {
    if props != [] {
      ValuesKnown(spec, props[..|props| - 1], name);
    }
  }

  lemma {:induction false} GatheredKnown(spec: Spec, order: seq<ObjectId>, name: string)
    requires Valid(spec)
    ensures AllKnown(spec, Gathered(spec, order, name))
  {
    if order != [] {
      var last := order[|order| - 1];
      GatheredKnown(spec, order[..|order| - 1], name);
      if last in spec.objects {
        assert SchemaKnown(spec, spec.objects[last]);
        ValuesKnown(spec, spec.objects[last].properties, name);
      }
    }
  }

  ghost predicate AllListsKnown(spec: Spec, m: Candidates) {
    forall name :: name in m ==> AllKnown(spec, m[name])
  }

  ghost predicate AllInferred(spec: Spec, m: Candidates)
    requires Valid(spec) && AllListsKnown(spec, m)
  {
    forall name :: name in m && name !in RESERVED ==> InferFromCandidates(spec, m[name]).Ok?
  }

  /** The columns `keys` of the candidates, with their inferred types. */
  ghost predicate Inferred(spec: Spec, m: Candidates, keys: set<string>, cols: Columns)
    requires Valid(spec) && AllListsKnown(spec, m)
  {
    && cols.Keys == keys * m.Keys - RESERVED
    && forall name :: name in cols ==> InferFromCandidates(spec, m[name]) == Ok(cols[name])
  }

  method ParseColumns(spec: Spec, m: Candidates) returns (r: Result<Columns>)
    requires Valid(spec) && AllListsKnown(spec, m)
    ensures r.Ok? <==> AllInferred(spec, m)
    ensures r.Ok? ==> Inferred(spec, m, m.Keys, r.value)
  {
    hide InferFromCandidates, Valid;
    var cols: Columns := map[];
    var left := m.Keys;
    while left != {}
      invariant left <= m.Keys
      invariant Inferred(spec, m, m.Keys - left, cols)
      decreases left
    {
      var name :| name in left;
      left := left - {name};
      if name !in RESERVED {
        var inferred := InferColumn(spec, m[name]);
        if inferred.Err? {
          return Err(inferred.error);
        }
        cols := cols[name := inferred.value];
      }
    }
    r := Ok(cols);
  }

  /** Every candidate below a schema that is not for a reserved column has a type. */
  ghost predicate CandidatesTyped(spec: Spec, root: ObjectId)
    requires Valid(spec)
  {
    forall name, c :: name !in RESERVED && Candidate(spec, root, name, c) && Known(spec, c) ==> ColumnOf(spec, c).Ok?
  }

  lemma GatheredColumns(spec: Spec, root: ObjectId, order: seq<ObjectId>, m: Candidates, name: string)
    requires Valid(spec) && ExactlyReachable(spec, root, order) && IsGathered(spec, m, order)
    requires AllKnown(spec, Get(m, name))
    ensures ColumnsOf(spec, Get(m, name)) == ColumnsAt(spec, root, name)
  {
    hide ExactlyReachable, IsGathered, Candidate, ColumnOf, Known;
    forall x ensures x in ColumnsOf(spec, Get(m, name)) <==> x in ColumnsAt(spec, root, name) {
      if x in ColumnsOf(spec, Get(m, name)) {
        var i :| 0 <= i < |Get(m, name)| && ColumnOf(spec, Get(m, name)[i]) == Ok(x);
        assert Get(m, name)[i] in Get(m, name);
        CandidatesAreExact(spec, root, order, m, name, Get(m, name)[i]);
      }
      if x in ColumnsAt(spec, root, name) {
        var c :| Candidate(spec, root, name, c) && Known(spec, c) && ColumnOf(spec, c) == Ok(x);
        CandidatesAreExact(spec, root, order, m, name, c);
      }
    }
  }

  lemma ColumnsOfNothing(spec: Spec, list: seq<SchemaOrRef>)
    requires Valid(spec) && AllKnown(spec, list)
    ensures list == [] ==> ColumnsOf(spec, list) == iset{}
    ensures list != [] && AllTyped(spec, list) ==> ColumnsOf(spec, list) != iset{}
  {
    hide ColumnOf, Known;
    if list != [] && AllTyped(spec, list) {
      assert ColumnOf(spec, list[0]).value in ColumnsOf(spec, list);
    }
  }

  /** The columns parsed from a schema's candidates are the least upper bounds below it. */
  lemma ParsedColumns(
    spec: Spec, root: ObjectId, order: seq<ObjectId>, m: Candidates, cols: Columns, name: string)
    requires Valid(spec) && ExactlyReachable(spec, root, order) && IsGathered(spec, m, order)
    requires AllListsKnown(spec, m) && Inferred(spec, m, m.Keys, cols)
    ensures ColumnIs(ColumnsAt(spec, root, name), name, cols)
  {
    hide ExactlyReachable, Valid, InferAll, IsLeast, ColumnOf, AllKnown, AllTyped, ColumnsOf, ColumnsAt, Gathered;
    if name !in RESERVED {
      var list := Get(m, name);
      NoneKnown(spec, m, name);
      GatheredColumns(spec, root, order, m, name);
      ColumnsOfNothing(spec, list);
      if list != [] {
        InferAllIsLeast(spec, list);
      }
    }
  }

  lemma NoneKnown(spec: Spec, m: Candidates, name: string)
    requires AllListsKnown(spec, m)
    ensures AllKnown(spec, Get(m, name))
  {
  }

  lemma ListsKnown(spec: Spec, order: seq<ObjectId>, m: Candidates)
    requires Valid(spec) && IsGathered(spec, m, order)
    ensures AllListsKnown(spec, m)
  {
    hide AllKnown, Valid;
    forall name | name in m ensures AllKnown(spec, m[name]) {
      GatheredKnown(spec, order, name);
      assert Get(m, name) == Gathered(spec, order, name);
    }
  }

  lemma InferredIffTyped(spec: Spec, root: ObjectId, order: seq<ObjectId>, m: Candidates)
    requires Valid(spec) && ExactlyReachable(spec, root, order) && IsGathered(spec, m, order)
    requires AllListsKnown(spec, m)
    ensures AllInferred(spec, m) <==> CandidatesTyped(spec, root)
  {
    hide ExactlyReachable, Valid, InferAll, ColumnOf, Candidate, Gathered, Known;
    forall name | name in m && name !in RESERVED && !InferFromCandidates(spec, m[name]).Ok?
      ensures !CandidatesTyped(spec, root)
    {
      var list := m[name];
      InferAllIsLeast(spec, list);
      var i :| 0 <= i < |list| && !ColumnOf(spec, list[i]).Ok?;
      assert Get(m, name) == list && list[i] in list;
      CandidatesAreExact(spec, root, order, m, name, list[i]);
    }
    forall name, c | name !in RESERVED && Candidate(spec, root, name, c) && Known(spec, c) && !ColumnOf(spec, c).Ok?
      ensures !AllInferred(spec, m)
    {
      CandidatesAreExact(spec, root, order, m, name, c);
      InferAllIsLeast(spec, m[name]);
    }
  }

  ghost predicate ColumnsAre(spec: Spec, root: ObjectId, cols: Columns)
    requires Valid(spec)
  {
    forall name :: ColumnIs(ColumnsAt(spec, root, name), name, cols)
  }

  lemma AllParsedColumns(spec: Spec, root: ObjectId, order: seq<ObjectId>, m: Candidates, cols: Columns)
    requires Valid(spec) && ExactlyReachable(spec, root, order) && IsGathered(spec, m, order)
    requires AllListsKnown(spec, m) && Inferred(spec, m, m.Keys, cols)
    ensures ColumnsAre(spec, root, cols)
  {
    hide ColumnIs, ColumnsAt, Inferred, ExactlyReachable, IsGathered, Valid;
    forall name ensures ColumnIs(ColumnsAt(spec, root, name), name, cols) {
      ParsedColumns(spec, root, order, m, cols, name);
    }
  }

  /** The columns of one schema, or the error that its candidates run into. */
  method SchemaColumns(spec: Spec, s: SchemaOrRef) returns (r: Result<Columns>)
    requires Valid(spec) && Known(spec, s)
    ensures r.Ok? <==> AllResolve(spec, s) && Resolve(spec, s).Ok? && CandidatesTyped(spec, Resolve(spec, s).value)
    ensures r.Ok? ==> ColumnsAre(spec, Resolve(spec, s).value, r.value)
  {
    hide *;
    var m, order := CollectPropertyCandidates(spec, s);
    ResolvesIfAll(spec, s);
    if m.Err? {
      return Err(m.error);
    }
    ghost var root := Resolve(spec, s).value;
    ListsKnown(spec, order, m.value);
    InferredIffTyped(spec, root, order, m.value);
    r := ParseColumns(spec, m.value);
    if r.Ok? {
      AllParsedColumns(spec, root, order, m.value, r.value);
    }
  }

  lemma ResolvesIfAll(spec: Spec, s: SchemaOrRef)
    requires Valid(spec) && Known(spec, s)
    ensures AllResolve(spec, s) ==> Resolve(spec, s).Ok?
  {
  }

  // ----- Merging the schemas of a table -----

  /** The columns a table has so far with those of one more schema. */
  function Merged(existing: Columns, parsed: Columns): Columns {
    map name | name in existing.Keys + parsed.Keys ::
      if name in existing && name in parsed then Join(existing[name], parsed[name])
      else if name in existing then existing[name]
      else parsed[name]
  }

  lemma MergedIs(a: iset<Column>, existing: Columns, b: iset<Column>, parsed: Columns, name: string)
    requires ColumnIs(a, name, existing) && ColumnIs(b, name, parsed)
    ensures ColumnIs(a + b, name, Merged(existing, parsed))
  {
    hide Join, IsLeast;
    if name !in RESERVED {
      if a != iset{} && b != iset{} {
        LeastOfUnion(a, existing[name], b, parsed[name]);
      } else if a == iset{} {
        assert a + b == b;
      } else {
        assert a + b == a;
      }
    }
  }

  method MergeColumns(existing: Columns, parsed: Columns) returns (r: Columns)
    ensures r == Merged(existing, parsed)
  {
    r := existing;
    var left := parsed.Keys;
    while left != {}
      invariant left <= parsed.Keys
      invariant r == map name | name in existing.Keys + (parsed.Keys - left) ::
        if name in left then existing[name] else Merged(existing, parsed)[name]
      decreases left
    {
      var name :| name in left;
      r := r[name := if name in r then Join(r[name], parsed[name]) else parsed[name]];
      left := left - {name};
    }
  }

  lemma OfferedSnoc(
    spec: Spec, tableOf: map<ObjectId, string>, schemas: seq<string>, last: string, t: string, name: string)
    requires Valid(spec)
    ensures Offered(spec, tableOf, schemas + [last], t, name) ==
      if Feeds(spec, tableOf, last, t)
      then Offered(spec, tableOf, schemas, t, name) + ColumnsAt(spec, Root(spec, last).value, name)
      else Offered(spec, tableOf, schemas, t, name)
    ensures IsFed(spec, tableOf, schemas + [last], t) <==>
        IsFed(spec, tableOf, schemas, t) || Feeds(spec, tableOf, last, t)
  {
    hide ColumnsAt, Feeds;
    var all := schemas + [last];
    assert all[|schemas|] == last;
    assert forall i :: 0 <= i < |schemas| ==> all[i] == schemas[i];
    forall x ensures OffersAny(spec, tableOf, all, t, name, x) <==>
        OffersAny(spec, tableOf, schemas, t, name, x) || Offers(spec, tableOf, last, t, name, x)
    {
    }
  }

  // ----- All tables -----

  /** The schema resolves and, if it feeds a table, so does all it is composed of, with typed candidates. */
  ghost predicate SchemaParses(spec: Spec, tableOf: map<ObjectId, string>, name: string)
    requires Valid(spec)
  {
    && Root(spec, name).Ok?
    && (Root(spec, name).value in tableOf ==>
         AllResolve(spec, RefTo(name)) && CandidatesTyped(spec, Root(spec, name).value))
  }

  ghost predicate AllParse(spec: Spec, tableOf: map<ObjectId, string>, schemas: seq<string>)
    requires Valid(spec)
  {
    forall i :: 0 <= i < |schemas| ==> SchemaParses(spec, tableOf, schemas[i])
  }

  lemma TablesStart(spec: Spec, tableOf: map<ObjectId, string>)
    requires Valid(spec)
    ensures TablesAre(spec, tableOf, [], map[])
  {
  }

  lemma TablesSkip(spec: Spec, tableOf: map<ObjectId, string>, schemas: seq<string>, last: string, tables: Tables)
    requires Valid(spec) && TablesAre(spec, tableOf, schemas, tables)
    requires Root(spec, last).Ok? && Root(spec, last).value !in tableOf
    ensures TablesAre(spec, tableOf, schemas + [last], tables)
  {
    hide Offered, IsFed, ColumnIs, Root, TableAt;
    forall t, name
      ensures Offered(spec, tableOf, schemas + [last], t, name) == Offered(spec, tableOf, schemas, t, name)
      ensures IsFed(spec, tableOf, schemas + [last], t) <==> IsFed(spec, tableOf, schemas, t)
    {
      OfferedSnoc(spec, tableOf, schemas, last, t, name);
    }
    forall t ensures t in tables <==> IsFed(spec, tableOf, schemas + [last], t) {
      OfferedSnoc(spec, tableOf, schemas, last, t, "");
    }
  }

  lemma TableGrows(
    spec: Spec, tableOf: map<ObjectId, string>, schemas: seq<string>, last: string, tables: Tables, cols: Columns,
    t: string, name: string)
    requires Valid(spec) && TablesAre(spec, tableOf, schemas, tables)
    requires Root(spec, last).Ok? && Root(spec, last).value in tableOf
    requires ColumnsAre(spec, Root(spec, last).value, cols)
    ensures var mine := tableOf[Root(spec, last).value];
      var grown := tables[mine := Merged(TableAt(tables, mine), cols)];
      && ColumnIs(Offered(spec, tableOf, schemas + [last], t, name), name, TableAt(grown, t))
      && (t in grown <==> IsFed(spec, tableOf, schemas + [last], t))
  {
    hide Offered, IsFed, ColumnIs, Root, Merged, ColumnsAt;
    OfferedSnoc(spec, tableOf, schemas, last, t, name);
    assert ColumnIs(Offered(spec, tableOf, schemas, t, name), name, TableAt(tables, t));
    if Feeds(spec, tableOf, last, t) {
      MergedIs(
        Offered(spec, tableOf, schemas, t, name), TableAt(tables, t),
        ColumnsAt(spec, Root(spec, last).value, name), cols, name);
    }
  }

  lemma TablesGrow(
    spec: Spec, tableOf: map<ObjectId, string>, schemas: seq<string>, last: string, tables: Tables, cols: Columns)
    requires Valid(spec) && TablesAre(spec, tableOf, schemas, tables)
    requires Root(spec, last).Ok? && Root(spec, last).value in tableOf
    requires ColumnsAre(spec, Root(spec, last).value, cols)
    ensures var mine := tableOf[Root(spec, last).value];
      TablesAre(spec, tableOf, schemas + [last], tables[mine := Merged(TableAt(tables, mine), cols)])
  {
    hide Offered, IsFed, ColumnIs, Root, Merged, ColumnsAre, TableAt;
    var mine := tableOf[Root(spec, last).value];
    var grown := tables[mine := Merged(TableAt(tables, mine), cols)];
    forall t, name
      ensures ColumnIs(Offered(spec, tableOf, schemas + [last], t, name), name, TableAt(grown, t))
    {
      TableGrows(spec, tableOf, schemas, last, tables, cols, t, name);
    }
    forall t ensures t in grown <==> IsFed(spec, tableOf, schemas + [last], t) {
      TableGrows(spec, tableOf, schemas, last, tables, cols, t, "");
    }
  }

  lemma ParsesMeans(spec: Spec, tableOf: map<ObjectId, string>, name: string)
    requires Valid(spec)
    ensures Root(spec, name) == Resolve(spec, RefTo(name)) && Known(spec, RefTo(name))
    ensures SchemaParses(spec, tableOf, name) ==>
      Root(spec, name).Ok? && (Root(spec, name).value in tableOf ==>
         AllResolve(spec, RefTo(name)) && CandidatesTyped(spec, Root(spec, name).value))
    ensures Root(spec, name).Ok? && Root(spec, name).value !in tableOf ==> SchemaParses(spec, tableOf, name)
    ensures Root(spec, name).Ok? && AllResolve(spec, RefTo(name)) && CandidatesTyped(spec, Root(spec, name).value) ==>
      SchemaParses(spec, tableOf, name)
  {
  }

  lemma AllParseSnoc(spec: Spec, tableOf: map<ObjectId, string>, schemas: seq<string>, i: nat)
    requires Valid(spec) && i < |schemas|
    ensures AllParse(spec, tableOf, schemas[..i]) && SchemaParses(spec, tableOf, schemas[i]) ==>
      AllParse(spec, tableOf, schemas[..i + 1])
    ensures !SchemaParses(spec, tableOf, schemas[i]) ==> !AllParse(spec, tableOf, schemas)
    ensures schemas[..i + 1] == schemas[..i] + [schemas[i]]
  {
    hide SchemaParses;
  }

  /**
   * The main loop of the parser. It fails exactly when some schema does not parse, and otherwise every
   * table has exactly the columns that its schemas offer.
   */
  method ParseTables(spec: Spec, tableOf: map<ObjectId, string>, schemas: seq<string>) returns (r: Result<Tables>)
    requires Valid(spec)
    ensures r.Ok? <==> AllParse(spec, tableOf, schemas)
    ensures r.Ok? ==> TablesAre(spec, tableOf, schemas, r.value)
  {
    hide *;
    var tables: Tables := map[];
    TablesStart(spec, tableOf);
    NothingParses(spec, tableOf);
    for i := 0 to |schemas|
      invariant AllParse(spec, tableOf, schemas[..i])
      invariant TablesAre(spec, tableOf, schemas[..i], tables)
    {
      var s := RefTo(schemas[i]);
      ParsesMeans(spec, tableOf, schemas[i]);
      AllParseSnoc(spec, tableOf, schemas, i);
      var root := Resolve(spec, s);
      if root.Err? {
        return Err(root.error);
      }
      if root.value !in tableOf {
        TablesSkip(spec, tableOf, schemas[..i], schemas[i], tables);
      } else {
        var cols := SchemaColumns(spec, s);
        if cols.Err? {
          return Err(cols.error);
        }
        TablesGrow(spec, tableOf, schemas[..i], schemas[i], tables, cols.value);
        var t := tableOf[root.value];
        var merged := MergeColumns(TableAt(tables, t), cols.value);
        tables := tables[t := merged];
      }
    }
    assert schemas[..|schemas|] == schemas;
    r := Ok(tables);
  }

  lemma NothingParses(spec: Spec, tableOf: map<ObjectId, string>)
    requires Valid(spec)
    ensures AllParse(spec, tableOf, [])
  {
  }
}
