/**
 * The schema graph of an OpenAPI specification, and the depth-first collection of the properties of every
 * schema that composition reaches. References may form cycles through `allOf`, `oneOf` and `anyOf`.
 */
module SpecGraph {

  /** A schema object stands by its identity, as in the source's set of objects already seen. */
  type ObjectId = nat

  datatype SchemaOrRef = Ref(ref: string) | Inline(object_: ObjectId)

  datatype Property = Property(name: string, value: SchemaOrRef)

  /** A JSON value. */
  datatype Value =
    | Null
    | Bool(b: bool)
    | Num(x: real)
    | Str(s: string)
    | Arr(items: seq<Value>)
    | Obj(fields: seq<(string, Value)>)

  /** A schema object; an absent list is empty, and an absent `type` or `format` is the empty text. */
  datatype Schema = Schema(
    kind: string,
    format: string,
    nullable: bool,
    properties: seq<Property>,
    hasProperties: bool,
    hasAdditional: bool,
    enum_: seq<Value>,
    allOf: seq<SchemaOrRef>,
    oneOf: seq<SchemaOrRef>,
    anyOf: seq<SchemaOrRef>,
    expandable: bool)

  datatype Spec = Spec(components: map<string, SchemaOrRef>, objects: map<ObjectId, Schema>)

  datatype Error = Unsupported(ref: string) | Unresolved(ref: string) | Endless

  datatype Result<+T> = Ok(value: T) | Err(error: Error)

  const PREFIX := "#/components/schemas/"

  predicate Known(spec: Spec, s: SchemaOrRef) {
    s.Inline? ==> s.object_ in spec.objects
  }

  predicate AllKnown(spec: Spec, list: seq<SchemaOrRef>) {
    forall i :: 0 <= i < |list| ==> Known(spec, list[i])
  }

  function Composed(schema: Schema): seq<SchemaOrRef> {
    schema.allOf + schema.oneOf + schema.anyOf
  }

  predicate SchemaKnown(spec: Spec, schema: Schema) {
    && AllKnown(spec, Composed(schema))
    && (forall i :: 0 <= i < |schema.properties| ==> Known(spec, schema.properties[i].value))
  }

  /** Every object that something holds exists: the objects are those of one program. */
  ghost predicate Valid(spec: Spec) {
    && (forall name :: name in spec.components ==> Known(spec, spec.components[name]))
    && (forall id :: id in spec.objects ==> SchemaKnown(spec, spec.objects[id]))
  }

  /**
   * Follows references from component to component. On a chain that comes back to a component, the
   * source's recursion never ends: it runs out of stack, which is an error too.
   */
  function ResolveFrom(spec: Spec, s: SchemaOrRef, names: set<string>): (r: Result<ObjectId>)
    requires Valid(spec) && Known(spec, s)
    ensures r.Ok? ==> r.value in spec.objects
    decreases |spec.components.Keys - names|
  {
    if s.Inline? then Ok(s.object_)
    else if !(PREFIX <= s.ref) then Err(Unsupported(s.ref))
    else
      var name := s.ref[|PREFIX|..];
      if name !in spec.components then Err(Unresolved(s.ref))
      else if name in names then Err(Endless)
      else
        assert spec.components.Keys - (names + {name}) == spec.components.Keys - names - {name};
        ResolveFrom(spec, spec.components[name], names + {name})
  }

  function Resolve(spec: Spec, s: SchemaOrRef): (r: Result<ObjectId>)
    requires Valid(spec) && Known(spec, s)
    ensures r.Ok? ==> r.value in spec.objects
  {
    ResolveFrom(spec, s, {})
  }

  // ----- Following references -----

  /** `chain` is the list of components that following references from `s` goes through, up to object `id`. */
  predicate Chain(spec: Spec, s: SchemaOrRef, chain: seq<string>, id: ObjectId)
    decreases |chain|
  {
    if chain == [] then s == Inline(id)
    else
      s == Ref(PREFIX + chain[0]) && chain[0] in spec.components
      && Chain(spec, spec.components[chain[0]], chain[1..], id)
  }

  lemma {:induction false} ChainIsUnique(
    spec: Spec, s: SchemaOrRef, a: seq<string>, x: ObjectId, b: seq<string>, y: ObjectId)
    requires Chain(spec, s, a, x) && Chain(spec, s, b, y)
    ensures a == b && x == y
    decreases |a|
  {
    if a != [] && b != [] {
      assert (PREFIX + a[0])[|PREFIX|..] == a[0] && (PREFIX + b[0])[|PREFIX|..] == b[0];
      ChainIsUnique(spec, spec.components[a[0]], a[1..], x, b[1..], y);
      assert a == [a[0]] + a[1..] && b == [b[0]] + b[1..];
    }
  }

  lemma {:induction false} ChainFrom(spec: Spec, s: SchemaOrRef, chain: seq<string>, id: ObjectId, i: nat)
    requires Chain(spec, s, chain, id) && i < |chain|
    ensures chain[i] in spec.components && Chain(spec, spec.components[chain[i]], chain[i + 1..], id)
    decreases i
  {
    if i > 0 {
      ChainFrom(spec, spec.components[chain[0]], chain[1..], id, i - 1);
      assert chain[1..][i..] == chain[i + 1..];
    }
  }

  /** A chain that ends passes through no component twice. */
  lemma ChainHasNoRepeats(spec: Spec, s: SchemaOrRef, chain: seq<string>, id: ObjectId)
    requires Chain(spec, s, chain, id)
    ensures forall i, j :: 0 <= i < j < |chain| ==> chain[i] != chain[j]
  {
    forall i, j | 0 <= i < j < |chain| ensures chain[i] != chain[j] {
      ChainFrom(spec, s, chain, id, i);
      ChainFrom(spec, s, chain, id, j);
      if chain[i] == chain[j] {
        ChainIsUnique(spec, spec.components[chain[i]], chain[i + 1..], id, chain[j + 1..], id);
      }
    }
  }

  lemma {:induction false} ChainResolves(
    spec: Spec, s: SchemaOrRef, chain: seq<string>, id: ObjectId, names: set<string>)
    requires Valid(spec) && Known(spec, s) && Chain(spec, s, chain, id)
    requires forall i :: 0 <= i < |chain| ==> chain[i] !in names
    ensures ResolveFrom(spec, s, names) == Ok(id)
    decreases |chain|
  {
    if chain != [] {
      var name := chain[0];
      assert s.ref[|PREFIX|..] == name && PREFIX <= s.ref;
      ChainHasNoRepeats(spec, s, chain, id);
      ChainResolves(spec, spec.components[name], chain[1..], id, names + {name});
    }
  }

  lemma {:induction false} ResolvedByChain(spec: Spec, s: SchemaOrRef, names: set<string>) returns (chain: seq<string>)
    requires Valid(spec) && Known(spec, s) && ResolveFrom(spec, s, names).Ok?
    ensures Chain(spec, s, chain, ResolveFrom(spec, s, names).value)
    decreases |spec.components.Keys - names|
  {
    chain := [];
    if s.Ref? {
      var name := s.ref[|PREFIX|..];
      assert s.ref == PREFIX + name;
      assert spec.components.Keys - (names + {name}) == spec.components.Keys - names - {name};
      var rest := ResolvedByChain(spec, spec.components[name], names + {name});
      chain := [name] + rest;
      assert chain[1..] == rest && s == Ref(PREFIX + chain[0]);
    }
  }

  ghost predicate Leads(spec: Spec, s: SchemaOrRef, id: ObjectId) {
    exists chain :: Chain(spec, s, chain, id)
  }

  /** A reference resolves to an object if and only if following it gets there. */
  lemma ResolvesIff(spec: Spec, s: SchemaOrRef, id: ObjectId)
    requires Valid(spec) && Known(spec, s)
    ensures Resolve(spec, s) == Ok(id) <==> Leads(spec, s, id)
  {
    if Resolve(spec, s) == Ok(id) {
      var chain := ResolvedByChain(spec, s, {});
      assert Chain(spec, s, chain, id);
    }
    if Leads(spec, s, id) {
      var chain :| Chain(spec, s, chain, id);
      ChainResolves(spec, s, chain, id, {});
    }
  }

  // ----- Reachability -----

  function Children(spec: Spec, id: ObjectId): (list: seq<SchemaOrRef>)
    requires Valid(spec) && id in spec.objects
    ensures AllKnown(spec, list)
  {
    Composed(spec.objects[id])
  }

  /** Composition leads from one schema straight to another. */
  ghost predicate Edge(spec: Spec, a: ObjectId, b: ObjectId)
    requires Valid(spec)
  {
    a in spec.objects && exists i :: 0 <= i < |Children(spec, a)| && Resolve(spec, Children(spec, a)[i]) == Ok(b)
  }

  ghost predicate Path(spec: Spec, p: seq<ObjectId>)
    requires Valid(spec)
  {
    p != [] && forall i :: 0 <= i < |p| - 1 ==> Edge(spec, p[i], p[i + 1])
  }

  ghost predicate Joins(spec: Spec, p: seq<ObjectId>, a: ObjectId, b: ObjectId)
    requires Valid(spec)
  {
    Path(spec, p) && p[0] == a && p[|p| - 1] == b
  }

  ghost predicate Reaches(spec: Spec, a: ObjectId, b: ObjectId)
    requires Valid(spec)
  {
    exists p :: Joins(spec, p, a, b)
  }

  lemma ReachesItself(spec: Spec, a: ObjectId)
    requires Valid(spec)
    ensures Reaches(spec, a, a)
  {
    assert Joins(spec, [a], a, a);
  }

  lemma ReachesThrough(spec: Spec, a: ObjectId, b: ObjectId, c: ObjectId)
    requires Valid(spec) && Edge(spec, a, b) && Reaches(spec, b, c)
    ensures Reaches(spec, a, c)
  {
    var p :| Joins(spec, p, b, c);
    var q := [a] + p;
    forall i | 0 <= i < |q| - 1 ensures Edge(spec, q[i], q[i + 1]) {
      if i > 0 {
        assert Edge(spec, p[i - 1], p[i - 1 + 1]);
      }
    }
    assert Joins(spec, q, a, c);
  }

  ghost predicate ChildrenIn(spec: Spec, id: ObjectId, seen: set<ObjectId>)
    requires Valid(spec)
  {
    id in spec.objects && forall i :: 0 <= i < |Children(spec, id)| ==> ResolvesInto(spec, Children(spec, id)[i], seen)
  }

  predicate ResolvesInto(spec: Spec, s: SchemaOrRef, seen: set<ObjectId>)
    requires Valid(spec) && Known(spec, s)
  {
    Resolve(spec, s).Ok? && Resolve(spec, s).value in seen
  }

  ghost predicate Closed(spec: Spec, seen: set<ObjectId>)
    requires Valid(spec)
  {
    forall id :: id in seen ==> ChildrenIn(spec, id, seen)
  }

  lemma {:induction false} ClosedHoldsPath(spec: Spec, seen: set<ObjectId>, p: seq<ObjectId>)
    requires Valid(spec) && Closed(spec, seen) && Path(spec, p) && p[0] in seen
    ensures p[|p| - 1] in seen
    decreases |p|
  {
    if |p| > 1 {
      assert Edge(spec, p[0], p[0 + 1]);
      assert ChildrenIn(spec, p[0], seen);
      var q := p[1..];
      forall i | 0 <= i < |q| - 1 ensures Edge(spec, q[i], q[i + 1]) {
        assert Edge(spec, p[i + 1], p[i + 1 + 1]);
      }
      ClosedHoldsPath(spec, seen, q);
    }
  }

  lemma ClosedHoldsReachable(spec: Spec, seen: set<ObjectId>, a: ObjectId, b: ObjectId)
    requires Valid(spec) && Closed(spec, seen) && a in seen && Reaches(spec, a, b)
    ensures b in seen
  {
    var p :| Joins(spec, p, a, b);
    ClosedHoldsPath(spec, seen, p);
  }

  // ----- Candidates -----

  /** The values that a list of properties gives one name, in order. */
  function ValuesOf(props: seq<Property>, name: string): seq<SchemaOrRef> {
    if props == [] then []
    else
      (ValuesOf(props[..|props| - 1], name)
       + (if props[|props| - 1].name == name then [props[|props| - 1].value] else []))
  }

  function OwnValues(spec: Spec, id: ObjectId, name: string): seq<SchemaOrRef> {
    if id in spec.objects then ValuesOf(spec.objects[id].properties, name) else []
  }

  /** The candidates for one property name over schemas visited in this order. */
  function Gathered(spec: Spec, order: seq<ObjectId>, name: string): seq<SchemaOrRef> {
    if order == [] then []
    else Gathered(spec, order[..|order| - 1], name) + OwnValues(spec, order[|order| - 1], name)
  }

  lemma {:induction false} GatheredAppend(spec: Spec, a: seq<ObjectId>, b: seq<ObjectId>, name: string)
    ensures Gathered(spec, a + b, name) == Gathered(spec, a, name) + Gathered(spec, b, name)
    decreases |b|
  {
    if b == [] {
      assert a + b == a;
    } else {
      assert (a + b)[..|a + b| - 1] == a + b[..|b| - 1];
      GatheredAppend(spec, a, b[..|b| - 1], name);
    }
  }

  lemma GatheredOne(spec: Spec, id: ObjectId, name: string)
    requires id in spec.objects
    ensures Gathered(spec, [id], name) == ValuesOf(spec.objects[id].properties, name)
  {
    assert [id][..0] == [];
  }

  type Candidates = map<string, seq<SchemaOrRef>>

  function Get(m: Candidates, name: string): seq<SchemaOrRef> {
    if name in m then m[name] else []
  }

  function Pushed(m: Candidates, name: string, values: seq<SchemaOrRef>): Candidates {
    m[name := Get(m, name) + values]
  }

  predicate NoneEmpty(m: Candidates) {
    forall name :: name in m ==> m[name] != []
  }

  ghost predicate IsGathered(spec: Spec, m: Candidates, order: seq<ObjectId>) {
    NoneEmpty(m) && forall name :: Get(m, name) == Gathered(spec, order, name)
  }

  ghost predicate IsSum(m: Candidates, sub: Candidates, r: Candidates) {
    && (NoneEmpty(m) && NoneEmpty(sub) ==> NoneEmpty(r))
    && forall name :: Get(r, name) == Get(m, name) + Get(sub, name)
  }

  ghost predicate HoldsProperties(props: seq<Property>, m: Candidates) {
    NoneEmpty(m) && forall name :: Get(m, name) == ValuesOf(props, name)
  }

  /** Adds a schema's own properties to an empty map. */
  method PushProperties(props: seq<Property>) returns (m: Candidates)
    ensures HoldsProperties(props, m)
  {
    m := map[];
    for i := 0 to |props|
      invariant NoneEmpty(m)
      invariant forall name :: Get(m, name) == ValuesOf(props[..i], name)
    {
      assert props[..i + 1][..i] == props[..i];
      m := Pushed(m, props[i].name, [props[i].value]);
    }
    assert props[..|props|] == props;
  }

  /** Adds the candidates found below to those found so far. */
  method PushAll(m: Candidates, sub: Candidates) returns (r: Candidates)
    ensures IsSum(m, sub, r)
  {
    r := m;
    var left := sub.Keys;
    while left != {}
      invariant left <= sub.Keys
      invariant NoneEmpty(m) && NoneEmpty(sub) ==> NoneEmpty(r)
      invariant forall name :: Get(r, name) == Get(m, name) + (if name in left then [] else Get(sub, name))
      decreases left
    {
      var name :| name in left;
      r := Pushed(r, name, sub[name]);
      left := left - {name};
    }
  }

  // ----- The traversal -----

  predicate NoRepeats(order: seq<ObjectId>) {
    forall i, j :: 0 <= i < j < |order| ==> order[i] != order[j]
  }

  /** The schemas of `order` are the ones that became seen, each listed once. */
  ghost predicate Extends(before: set<ObjectId>, order: seq<ObjectId>, after: set<ObjectId>) {
    && NoRepeats(order)
    && (forall id :: id in order ==> id !in before)
    && (forall id :: id in after <==> id in before || id in order)
  }

  ghost predicate AllClosed(spec: Spec, order: seq<ObjectId>, seen: set<ObjectId>)
    requires Valid(spec)
  {
    forall id :: id in order ==> ChildrenIn(spec, id, seen)
  }

  ghost predicate AllReached(spec: Spec, root: ObjectId, order: seq<ObjectId>)
    requires Valid(spec)
  {
    forall id :: id in order ==> Reaches(spec, root, id)
  }

  lemma ExtendsAppend(s0: set<ObjectId>, a: seq<ObjectId>, s1: set<ObjectId>, b: seq<ObjectId>, s2: set<ObjectId>)
    requires Extends(s0, a, s1) && Extends(s1, b, s2)
    ensures Extends(s0, a + b, s2)
  {
    forall i, j | 0 <= i < j < |a + b| ensures (a + b)[i] != (a + b)[j] {
      if i < |a| <= j {
        assert a[i] in a && b[j - |a|] in b;
      }
    }
  }

  lemma ChildrenStayIn(spec: Spec, id: ObjectId, small: set<ObjectId>, large: set<ObjectId>)
    requires Valid(spec) && ChildrenIn(spec, id, small) && small <= large
    ensures ChildrenIn(spec, id, large)
  {
  }

  lemma AllClosedAppend(spec: Spec, a: seq<ObjectId>, small: set<ObjectId>, b: seq<ObjectId>, large: set<ObjectId>)
    requires Valid(spec) && AllClosed(spec, a, small) && AllClosed(spec, b, large) && small <= large
    ensures AllClosed(spec, a + b, large)
  {
    forall id | id in a + b ensures ChildrenIn(spec, id, large) {
      if id in a {
        ChildrenStayIn(spec, id, small, large);
      }
    }
  }

  lemma AllReachedAppend(spec: Spec, root: ObjectId, a: seq<ObjectId>, child: ObjectId, b: seq<ObjectId>)
    requires Valid(spec) && AllReached(spec, root, a) && Edge(spec, root, child) && AllReached(spec, child, b)
    ensures AllReached(spec, root, a + b)
  {
    forall id | id in a + b ensures Reaches(spec, root, id) {
      if id in b {
        ReachesThrough(spec, root, child, id);
      }
    }
  }

  lemma GatheredPushed(spec: Spec, m: Candidates, a: seq<ObjectId>, sub: Candidates, b: seq<ObjectId>, r: Candidates)
    requires IsGathered(spec, m, a) && IsGathered(spec, sub, b)
    requires IsSum(m, sub, r)
    ensures IsGathered(spec, r, a + b)
  {
    forall name ensures Get(r, name) == Gathered(spec, a + b, name) {
      GatheredAppend(spec, a, b, name);
    }
  }

  /** Some schema that composition reaches from `s` has a member that does not resolve. */
  ghost predicate Fails(spec: Spec, s: SchemaOrRef, e: Error)
    requires Valid(spec) && Known(spec, s)
  {
    var root := Resolve(spec, s);
    root == Err(e) || (root.Ok? && exists id :: Reaches(spec, root.value, id) && FailsAt(spec, id, e))
  }

  ghost predicate FailsAt(spec: Spec, id: ObjectId, e: Error)
    requires Valid(spec)
  {
    id in spec.objects && exists i :: 0 <= i < |Children(spec, id)| && Resolve(spec, Children(spec, id)[i]) == Err(e)
  }

  lemma FailsThrough(spec: Spec, s: SchemaOrRef, id: ObjectId, i: nat, e: Error)
    requires Valid(spec) && Known(spec, s) && Resolve(spec, s) == Ok(id)
    requires i < |Children(spec, id)| && Fails(spec, Children(spec, id)[i], e)
    ensures Fails(spec, s, e)
  {
    var child := Resolve(spec, Children(spec, id)[i]);
    if child.Ok? {
      var x :| Reaches(spec, child.value, x) && FailsAt(spec, x, e);
      ReachesThrough(spec, id, child.value, x);
    } else {
      ReachesItself(spec, id);
      assert FailsAt(spec, id, e);
    }
  }

  lemma FailsAtOnce(spec: Spec, s: SchemaOrRef)
    requires Valid(spec) && Known(spec, s) && Resolve(spec, s).Err?
    ensures Fails(spec, s, Resolve(spec, s).error)
  {
  }

  lemma Shrinks(all: set<ObjectId>, before: set<ObjectId>, id: ObjectId, now: set<ObjectId>)
    requires id in all && id !in before && before <= now && id in now
    ensures |all - now| < |all - before|
  {
    assert all - before == (all - now) + ((all - before) * now);
    assert id in (all - before) * now;
  }

  ghost predicate RefsSeen(spec: Spec, refs: set<string>, seen: set<ObjectId>)
    requires Valid(spec)
  {
    forall r :: r in refs ==> ResolvesInto(spec, Ref(r), seen)
  }

  ghost predicate Consistent(spec: Spec, refs: set<string>, seen: set<ObjectId>)
    requires Valid(spec)
  {
    seen <= spec.objects.Keys && RefsSeen(spec, refs, seen)
  }

  lemma MemberKnown(spec: Spec, id: ObjectId, i: nat)
    requires Valid(spec) && id in spec.objects && i < |Children(spec, id)|
    ensures Known(spec, Children(spec, id)[i])
  {
  }

  /** What a visit of the schemas `order` from `root` has achieved. */
  ghost predicate Visited(
    spec: Spec, before: set<ObjectId>, root: ObjectId, order: seq<ObjectId>, m: Candidates, after: set<ObjectId>)
    requires Valid(spec)
  {
    && Extends(before, order, after)
    && IsGathered(spec, m, order)
    && AllReached(spec, root, order)
    && AllClosed(spec, order, after)
  }

  /** The same for a visit of `id` in progress, with its first `i` members done. */
  ghost predicate Visiting(
    spec: Spec, before: set<ObjectId>, id: ObjectId, i: nat, order: seq<ObjectId>, m: Candidates, now: set<ObjectId>)
    requires Valid(spec)
  {
    && id in spec.objects && i <= |Children(spec, id)|
    && order != [] && order[0] == id
    && Extends(before, order, now)
    && IsGathered(spec, m, order)
    && AllReached(spec, id, order)
    && AllClosed(spec, order[1..], now)
    && forall j :: 0 <= j < i ==> ResolvesInto(spec, Children(spec, id)[j], now)
  }

  lemma VisitingStarts(spec: Spec, before: set<ObjectId>, id: ObjectId, m: Candidates)
    requires Valid(spec) && id in spec.objects && id !in before
    requires HoldsProperties(spec.objects[id].properties, m)
    ensures Visiting(spec, before, id, 0, [id], m, before + {id})
  {
    ReachesItself(spec, id);
    forall name ensures Get(m, name) == Gathered(spec, [id], name) {
      GatheredOne(spec, id, name);
    }
  }

  lemma VisitingContinues(
    spec: Spec, before: set<ObjectId>, id: ObjectId, i: nat, order: seq<ObjectId>, m: Candidates, now: set<ObjectId>,
    visited: seq<ObjectId>, sub: Candidates, r: Candidates, after: set<ObjectId>)
    requires Valid(spec) && Visiting(spec, before, id, i, order, m, now)
    requires i < |Children(spec, id)| && ResolvesInto(spec, Children(spec, id)[i], after)
    requires Visited(spec, now, Resolve(spec, Children(spec, id)[i]).value, visited, sub, after)
    requires IsSum(m, sub, r)
    ensures Visiting(spec, before, id, i + 1, order + visited, r, after)
  {
    hide Reaches, ChildrenIn;
    var child := Resolve(spec, Children(spec, id)[i]).value;
    assert Edge(spec, id, child);
    ExtendsAppend(before, order, now, visited, after);
    GatheredPushed(spec, m, order, sub, visited, r);
    AllReachedAppend(spec, id, order, child, visited);
    AllClosedAppend(spec, order[1..], now, visited, after);
    assert (order + visited)[1..] == order[1..] + visited;
  }

  lemma VisitingEnds(
    spec: Spec, before: set<ObjectId>, id: ObjectId, order: seq<ObjectId>, m: Candidates, now: set<ObjectId>)
    requires Valid(spec) && id in spec.objects
    requires Visiting(spec, before, id, |Children(spec, id)|, order, m, now)
    ensures Visited(spec, before, id, order, m, now) && id in now
  {
    assert order[0] in order;
    forall x | x in order ensures ChildrenIn(spec, x, now) {
      if x != id {
        assert x in order[1..];
      }
    }
  }

  lemma NothingVisited(spec: Spec, root: ObjectId, seen: set<ObjectId>)
    requires Valid(spec)
    ensures Visited(spec, seen, root, [], map[], seen)
  {
  }

  /** The sets shared by the whole recursion. */
  class Collector {
    const spec: Spec
    var seenRefs: set<string>
    var seenSchemas: set<ObjectId>

    constructor (spec: Spec)
      ensures this.spec == spec && seenRefs == {} && seenSchemas == {}
    {
      this.spec := spec;
      seenRefs, seenSchemas := {}, {};
    }

    /**
     * Visits every schema not seen before that composition reaches, each once, and gathers the candidates
     * of the visited schemas in the order of the visit.
     */
    method Collect(s: SchemaOrRef) returns (r: Result<Candidates>, ghost order: seq<ObjectId>)
      requires Valid(spec) && Known(spec, s) && Consistent(spec, seenRefs, seenSchemas)
      modifies this
      ensures r.Ok? ==> Consistent(spec, seenRefs, seenSchemas) && ResolvesInto(spec, s, seenSchemas)
      ensures r.Ok? ==> Visited(spec, old(seenSchemas), Resolve(spec, s).value, order, r.value, seenSchemas)
      ensures r.Err? ==> Fails(spec, s, r.error)
      ensures old(seenSchemas) <= seenSchemas
      decreases |spec.objects.Keys - seenSchemas|
    {
      hide Visited, Visiting, Fails, Resolve;
      order := [];
      if s.Ref? && s.ref in seenRefs {
        NothingVisited(spec, Resolve(spec, s).value, seenSchemas);
        return Ok(map[]), [];
      }
      var resolved := Resolve(spec, s);
      if resolved.Err? {
        FailsAtOnce(spec, s);
        return Err(resolved.error), [];
      }
      var id := resolved.value;
      if s.Ref? {
        seenRefs := seenRefs + {s.ref};
      }
      if id in seenSchemas {
        NothingVisited(spec, id, seenSchemas);
        return Ok(map[]), [];
      }
      r, order := Visit(s, id);
    }

    /** The rest of a visit, once `s` turned out to be the unseen schema `id`. */
    method Visit(s: SchemaOrRef, id: ObjectId) returns (r: Result<Candidates>, ghost order: seq<ObjectId>)
      requires Valid(spec) && Known(spec, s) && Resolve(spec, s) == Ok(id)
      requires id in spec.objects && id !in seenSchemas
      requires Consistent(spec, seenRefs, seenSchemas + {id})
      modifies this
      ensures r.Ok? ==> Consistent(spec, seenRefs, seenSchemas) && id in seenSchemas
      ensures r.Ok? ==> Visited(spec, old(seenSchemas), id, order, r.value, seenSchemas)
      ensures r.Err? ==> Fails(spec, s, r.error)
      ensures old(seenSchemas) <= seenSchemas
      decreases |spec.objects.Keys - seenSchemas|, 0
    {
      hide *;
      ghost var before := seenSchemas;
      seenSchemas := seenSchemas + {id};
      var merged := PushProperties(spec.objects[id].properties);
      order := [id];
      VisitingStarts(spec, before, id, merged);
      var composed := Children(spec, id);
      for i := 0 to |composed|
        invariant Consistent(spec, seenRefs, seenSchemas)
        invariant before <= seenSchemas && id in seenSchemas
        invariant Visiting(spec, before, id, i, order, merged, seenSchemas)
      {
        Shrinks(spec.objects.Keys, before, id, seenSchemas);
        MemberKnown(spec, id, i);
        ghost var now := seenSchemas;
        var sub, visited := Collect(composed[i]);
        if sub.Err? {
          FailsThrough(spec, s, id, i, sub.error);
          return sub, [];
        }
        var all := PushAll(merged, sub.value);
        VisitingContinues(spec, before, id, i, order, merged, now, visited, sub.value, all, seenSchemas);
        merged := all;
        order := order + visited;
      }
      VisitingEnds(spec, before, id, order, merged, seenSchemas);
      r := Ok(merged);
    }
  }

  /** Each schema that composition reaches from `root`, once, and no other. */
  ghost predicate ExactlyReachable(spec: Spec, root: ObjectId, order: seq<ObjectId>)
    requires Valid(spec)
  {
    NoRepeats(order) && forall id :: id in order <==> Reaches(spec, root, id)
  }

  /** A traversal that starts with nothing seen visits exactly what composition reaches, cycles included. */
  lemma VisitIsExact(spec: Spec, root: ObjectId, order: seq<ObjectId>, m: Candidates, seen: set<ObjectId>)
    requires Valid(spec) && Visited(spec, {}, root, order, m, seen) && root in seen
    ensures ExactlyReachable(spec, root, order)
  {
    forall id | Reaches(spec, root, id) ensures id in order {
      ClosedHoldsReachable(spec, seen, root, id);
    }
  }

  /** `s` resolves, and so does every member of every schema that composition reaches from it. */
  ghost predicate AllResolve(spec: Spec, s: SchemaOrRef)
    requires Valid(spec) && Known(spec, s)
  {
    Resolve(spec, s).Ok? && forall id :: Reaches(spec, Resolve(spec, s).value, id) ==> MembersResolve(spec, id)
  }

  ghost predicate MembersResolve(spec: Spec, id: ObjectId)
    requires Valid(spec)
  {
    id in spec.objects && forall i :: 0 <= i < |Children(spec, id)| ==> Resolve(spec, Children(spec, id)[i]).Ok?
  }

  lemma VisitResolves(
    spec: Spec, s: SchemaOrRef, order: seq<ObjectId>, m: Candidates, seen: set<ObjectId>)
    requires Valid(spec) && Known(spec, s) && ResolvesInto(spec, s, seen)
    requires Visited(spec, {}, Resolve(spec, s).value, order, m, seen)
    ensures AllResolve(spec, s)
  {
    var root := Resolve(spec, s).value;
    VisitIsExact(spec, root, order, m, seen);
    forall id | Reaches(spec, root, id) ensures MembersResolve(spec, id) {
      assert ChildrenIn(spec, id, seen);
    }
  }

  lemma FailureIsUnresolved(spec: Spec, s: SchemaOrRef, e: Error)
    requires Valid(spec) && Known(spec, s) && Fails(spec, s, e)
    ensures !AllResolve(spec, s)
  {
    if Resolve(spec, s).Ok? {
      var id :| Reaches(spec, Resolve(spec, s).value, id) && FailsAt(spec, id, e);
      assert !MembersResolve(spec, id);
    }
  }

  /** The property candidates of one schema and everything it is composed of. */
  method CollectPropertyCandidates(
    spec: Spec, s: SchemaOrRef) returns (r: Result<Candidates>, ghost order: seq<ObjectId>)
    requires Valid(spec) && Known(spec, s)
    ensures r.Ok? <==> AllResolve(spec, s)
    ensures r.Ok? ==> ExactlyReachable(spec, Resolve(spec, s).value, order) && IsGathered(spec, r.value, order)
    ensures r.Err? ==> Fails(spec, s, r.error)
  {
    hide Resolve, Reaches, AllResolve, Fails, ExactlyReachable, Valid;
    var collector := new Collector(spec);
    r, order := collector.Collect(s);
    if r.Ok? {
      VisitIsExact(spec, Resolve(spec, s).value, order, r.value, collector.seenSchemas);
      VisitResolves(spec, s, order, r.value, collector.seenSchemas);
    } else {
      FailureIsUnresolved(spec, s, r.error);
    }
  }

  /** Property `name` with value `c` belongs to schema `id`. */
  ghost predicate Has(spec: Spec, id: ObjectId, name: string, c: SchemaOrRef) {
    id in spec.objects && Property(name, c) in spec.objects[id].properties
  }

  lemma {:induction false} ValuesAre(props: seq<Property>, name: string, c: SchemaOrRef)
    ensures c in ValuesOf(props, name) <==> Property(name, c) in props
  {
    if props != [] {
      ValuesAre(props[..|props| - 1], name, c);
      assert props == props[..|props| - 1] + [props[|props| - 1]];
    }
  }

  lemma OwnValuesAre(spec: Spec, id: ObjectId, name: string, c: SchemaOrRef)
    ensures c in OwnValues(spec, id, name) <==> Has(spec, id, name, c)
  {
    if id in spec.objects {
      ValuesAre(spec.objects[id].properties, name, c);
    }
  }

  ghost predicate SomeHas(spec: Spec, order: seq<ObjectId>, name: string, c: SchemaOrRef) {
    exists id :: id in order && Has(spec, id, name, c)
  }

  /** The candidates of a name are exactly the values it has in the visited schemas. */
  lemma {:induction false} GatheredAre(spec: Spec, order: seq<ObjectId>, name: string, c: SchemaOrRef)
    ensures c in Gathered(spec, order, name) <==> SomeHas(spec, order, name, c)
  {
    hide Has, OwnValues;
    if order != [] {
      var front, last := order[..|order| - 1], order[|order| - 1];
      GatheredAre(spec, front, name, c);
      OwnValuesAre(spec, last, name, c);
      assert forall id :: id in order <==> id in front || id == last;
    }
  }

  /** Some schema that composition reaches from `root` has property `name` with value `c`. */
  ghost predicate Candidate(spec: Spec, root: ObjectId, name: string, c: SchemaOrRef)
    requires Valid(spec)
  {
    exists id :: Reaches(spec, root, id) && Has(spec, id, name, c)
  }

  lemma CandidatesAreExact(
    spec: Spec, root: ObjectId, order: seq<ObjectId>, m: Candidates, name: string, c: SchemaOrRef)
    requires Valid(spec) && ExactlyReachable(spec, root, order) && IsGathered(spec, m, order)
    ensures c in Get(m, name) <==> Candidate(spec, root, name, c)
  {
    GatheredAre(spec, order, name, c);
  }
}
