/**
 The API page's walk over request bodies: every object schema that a body reaches
 through `$ref` gets a section, so that the links in the field tables resolve.
 A dictionary with `$ref` is followed and its other keys are not visited.
 */
module RequestWalker {
  import opened Options
  import opened Graph

  datatype Node = Leaf | List(items: seq<Node>) | Dict(ref: Option<string>, kind: string, fields: map<string, Node>)

  /** What each reference resolves to. */
  type Spec = map<string, Node>

  /** The references met in a node before following any of them. */
  function RefsOf(n: Node): set<string> {
    match n
    case Leaf => {}
    case List(items) => set i, r | 0 <= i < |items| && r in RefsOf(items[i]) :: r
    case Dict(ref, _, fields) => if ref.Some? then {ref.value}
      else set k, r | k in fields && r in RefsOf(fields[k]) :: r
  }

  function Edges(spec: Spec): string -> set<string> {
    (r: string) => if r in spec then RefsOf(spec[r]) else {}
  }

  predicate IsObject(n: Node) {
    n.Dict? && n.kind == "object"
  }

  /** Every reference in the document resolves, to a dictionary. */
  ghost predicate Resolvable(spec: Spec) {
    forall r :: r in spec ==> spec[r].Dict? && RefsOf(spec[r]) <= spec.Keys
  }

  /** `_resolve`: the target of a reference, or the node itself. */
  function Resolve(spec: Spec, n: Node): Node
    requires RefsOf(n) <= spec.Keys
  {
    if n.Dict? && n.ref.Some? then spec[n.ref.value] else n
  }

  // ----- what one visit adds -----

  ghost predicate Walked(spec: Spec, before: set<string>, after: set<string>, targets: set<string>) {
    && before <= after <= spec.Keys
    && targets <= after
    && forall r :: r in after && r !in before ==> RefsOf(spec[r]) <= after && Reaches(Edges(spec), targets, r)
  }

  lemma WalkedThen(spec: Spec, v0: set<string>, v1: set<string>, v2: set<string>, t1: set<string>, t2: set<string>)
    requires Walked(spec, v0, v1, t1) && Walked(spec, v1, v2, t2)
    ensures Walked(spec, v0, v2, t1 + t2)
  {
    forall r | r in v2 && r !in v0 ensures RefsOf(spec[r]) <= v2 && Reaches(Edges(spec), t1 + t2, r) {
      if r in v1 { ReachesMore(Edges(spec), t1, t1 + t2, r); } else { ReachesMore(Edges(spec), t2, t1 + t2, r); }
    }
  }

  lemma WalkedRef(spec: Spec, before: set<string>, after: set<string>, ref: string)
    requires ref in spec && ref !in before && Walked(spec, before + {ref}, after, RefsOf(spec[ref]))
    ensures Walked(spec, before, after, {ref})
  {
    ReachesStart(Edges(spec), {ref}, ref);
    forall r | r in after && r !in before ensures RefsOf(spec[r]) <= after && Reaches(Edges(spec), {ref}, r) {
      if r != ref { ReachesThrough(Edges(spec), ref, r); }
    }
  }

  /** The sections are those of the visited references that resolve to objects. */
  ghost predicate Sections(spec: Spec, name: string -> string, visited: set<string>, models: map<string, Node>) {
    && visited <= spec.Keys
    && (forall r :: r in visited && IsObject(spec[r]) ==> name(r) in models)
    && (forall m :: m in models ==>
        exists r :: r in visited && IsObject(spec[r]) && name(r) == m && models[m] == spec[r])
  }

  lemma RefsSnoc(items: seq<Node>, i: nat)
    requires i < |items|
    ensures RefsOf(List(items[..i + 1])) == RefsOf(List(items[..i])) + RefsOf(items[i])
  {
    var longer, shorter := items[..i + 1], items[..i];
    forall r ensures r in RefsOf(List(longer)) <==> r in RefsOf(List(shorter)) + RefsOf(items[i]) {
      if r in RefsOf(List(longer)) {
        var j :| 0 <= j < |longer| && r in RefsOf(longer[j]);
        if j < i { assert shorter[j] == longer[j]; }
      }
      if r in RefsOf(List(shorter)) {
        var j :| 0 <= j < |shorter| && r in RefsOf(shorter[j]);
        assert longer[j] == shorter[j];
      }
      if r in RefsOf(items[i]) { assert longer[i] == items[i]; }
    }
  }

  class Walker {
    var visited: set<string>
    var models: map<string, Node>
    const spec: Spec
    const name: string -> string

    constructor (spec: Spec, name: string -> string)
      ensures visited == {} && models == map[] && this.spec == spec && this.name == name
    {
      visited, models, this.spec, this.name := {}, map[], spec, name;
    }

    method Visit(node: Node)
      requires Resolvable(spec) && RefsOf(node) <= spec.Keys && Sections(spec, name, visited, models)
      modifies this`visited, this`models
      ensures Walked(spec, old(visited), visited, RefsOf(node)) && Sections(spec, name, visited, models)
      decreases spec.Keys - visited, node, 1
    {
      match node
      case Leaf =>
      case List(_) => VisitItems(node);
      case Dict(ref, _, _) => if ref.Some? { Follow(node); } else { VisitFields(node); }
    }

    method VisitItems(node: Node)
      requires node.List?
      requires Resolvable(spec) && RefsOf(node) <= spec.Keys && Sections(spec, name, visited, models)
      modifies this`visited, this`models
      ensures Walked(spec, old(visited), visited, RefsOf(node)) && Sections(spec, name, visited, models)
      decreases spec.Keys - visited, node, 0
    {
      for i := 0 to |node.items|
        invariant Walked(spec, old(visited), visited, RefsOf(List(node.items[..i]))) &&
                  Sections(spec, name, visited, models)
      {
        ghost var before := visited;
        assert RefsOf(node.items[i]) <= RefsOf(node);
        Visit(node.items[i]);
        WalkedThen(spec, old(visited), before, visited, RefsOf(List(node.items[..i])), RefsOf(node.items[i]));
        RefsSnoc(node.items, i);
      }
      assert node.items[..|node.items|] == node.items;
    }

    /** The values of a dictionary, in any order. */
    method VisitFields(node: Node)
      requires node.Dict? && node.ref.None?
      requires Resolvable(spec) && RefsOf(node) <= spec.Keys && Sections(spec, name, visited, models)
      modifies this`visited, this`models
      ensures Walked(spec, old(visited), visited, RefsOf(node)) && Sections(spec, name, visited, models)
      decreases spec.Keys - visited, node, 0
    {
      var rest := node.fields.Keys;
      ghost var targets := {};
      while rest != {}
        invariant rest <= node.fields.Keys
        invariant forall r :: r in targets <==>
                  exists k :: k in node.fields && k !in rest && r in RefsOf(node.fields[k])
        invariant Walked(spec, old(visited), visited, targets) && Sections(spec, name, visited, models)
        decreases rest
      {
        var k :| k in rest;
        ghost var before := visited;
        assert RefsOf(node.fields[k]) <= RefsOf(node);
        Visit(node.fields[k]);
        WalkedThen(spec, old(visited), before, visited, targets, RefsOf(node.fields[k]));
        targets := targets + RefsOf(node.fields[k]);
        rest := rest - {k};
      }
      assert targets == RefsOf(node);
    }

    method Follow(node: Node)
      requires node.Dict? && node.ref.Some?
      requires Resolvable(spec) && RefsOf(node) <= spec.Keys && Sections(spec, name, visited, models)
      modifies this`visited, this`models
      ensures Walked(spec, old(visited), visited, RefsOf(node)) && Sections(spec, name, visited, models)
      decreases spec.Keys - visited, node, 0
    {
      var ref := node.ref.value;
      assert ref in RefsOf(node);
      if ref in visited { return; }
      ghost var before := visited;
      visited := visited + {ref};
      assert ref in spec.Keys - before && ref !in spec.Keys - visited;
      if IsObject(spec[ref]) { models := models[name(ref) := spec[ref]]; }
      Visit(spec[ref]);
      WalkedRef(spec, before, visited, ref);
    }
  }

  // ----- the page -----

  /** The references of all request bodies, each body first resolved itself. */
  ghost function BodyRefs(spec: Spec, bodies: seq<Node>): set<string>
    requires forall i :: 0 <= i < |bodies| ==> RefsOf(bodies[i]) <= spec.Keys
  {
    set i, r | 0 <= i < |bodies| && r in RefsOf(Resolve(spec, bodies[i])) :: r
  }

  lemma BodyRefsSnoc(spec: Spec, bodies: seq<Node>, i: nat)
    requires i < |bodies| && forall j :: 0 <= j < |bodies| ==> RefsOf(bodies[j]) <= spec.Keys
    ensures BodyRefs(spec, bodies[..i + 1]) == BodyRefs(spec, bodies[..i]) + RefsOf(Resolve(spec, bodies[i]))
  {
    var longer, shorter := bodies[..i + 1], bodies[..i];
    assert longer == shorter + [bodies[i]];
    forall r | r in BodyRefs(spec, shorter) ensures r in BodyRefs(spec, longer) {
      var j :| 0 <= j < |shorter| && r in RefsOf(Resolve(spec, shorter[j]));
      assert longer[j] == shorter[j];
    }
    forall r | r in RefsOf(Resolve(spec, bodies[i])) ensures r in BodyRefs(spec, longer) {
      assert longer[i] == bodies[i];
    }
  }

  lemma ResolvedRefs(spec: Spec, n: Node)
    requires Resolvable(spec) && RefsOf(n) <= spec.Keys
    ensures RefsOf(Resolve(spec, n)) <= spec.Keys
  {
    if n.Dict? && n.ref.Some? { assert n.ref.value in RefsOf(n); }
  }

  /** From nothing visited, a walk visits exactly what is reachable. */
  lemma WalkedIsReachable(spec: Spec, visited: set<string>, targets: set<string>)
    requires Walked(spec, {}, visited, targets)
    ensures forall r :: r in visited <==> Reaches(Edges(spec), targets, r)
  {
    assert Closed(Edges(spec), visited);
    ClosedIsReachable(Edges(spec), targets, visited);
  }

  /** The sections are exactly the object schemas reachable from `start`, under their names. */
  ghost predicate ListsReached(spec: Spec, name: string -> string, start: set<string>, models: map<string, Node>) {
    && (forall r :: r in spec && IsObject(spec[r]) && Reaches(Edges(spec), start, r) ==> name(r) in models)
    && (forall m :: m in models ==> IsSectionOf(spec, name, start, m, models[m]))
  }

  ghost predicate IsSectionOf(spec: Spec, name: string -> string, start: set<string>, m: string, schema: Node) {
    exists r :: r in spec && Reaches(Edges(spec), start, r) && IsObject(spec[r]) && name(r) == m && schema == spec[r]
  }

  lemma SectionsOfReached(
    spec: Spec, name: string -> string, start: set<string>, visited: set<string>, models: map<string, Node>)
    requires Sections(spec, name, visited, models) && forall r :: r in visited <==> Reaches(Edges(spec), start, r)
    ensures ListsReached(spec, name, start, models)
  {
    forall m | m in models ensures IsSectionOf(spec, name, start, m, models[m]) {
      var r :| r in visited && IsObject(spec[r]) && name(r) == m && models[m] == spec[r];
      assert Reaches(Edges(spec), start, r);
    }
  }

  /** The sections of the page: exactly the object schemas reachable by reference from the request bodies. */
  method RequestDefinitions(spec: Spec, bodies: seq<Node>, name: string -> string) returns (models: map<string, Node>)
    requires Resolvable(spec) && forall i :: 0 <= i < |bodies| ==> RefsOf(bodies[i]) <= spec.Keys
    ensures ListsReached(spec, name, BodyRefs(spec, bodies), models)
  {
    var walker := new Walker(spec, name);
    ghost var targets := {};
    for i := 0 to |bodies|
      invariant targets == BodyRefs(spec, bodies[..i])
      invariant Walked(spec, {}, walker.visited, targets) && Sections(spec, name, walker.visited, walker.models)
      invariant walker.spec == spec && walker.name == name && fresh(walker)
    {
      ghost var before := walker.visited;
      var body := Resolve(spec, bodies[i]);
      ResolvedRefs(spec, bodies[i]);
      walker.Visit(body);
      WalkedThen(spec, {}, before, walker.visited, targets, RefsOf(body));
      BodyRefsSnoc(spec, bodies, i);
      targets := targets + RefsOf(body);
    }
    assert bodies[..|bodies|] == bodies;
    WalkedIsReachable(spec, walker.visited, targets);
    SectionsOfReached(spec, name, targets, walker.visited, walker.models);
    models := walker.models;
  }

  // ----- links -----

  /** `_type_of` writes a link to `r` for this property, within `steps` recursive calls. */
  ghost predicate LinksTo(spec: Spec, prop: Node, r: string, steps: nat)
    decreases steps
  {
    && steps > 0 && prop.Dict?
    && if prop.ref.Some? then
         prop.ref.value in spec &&
         if IsObject(spec[prop.ref.value]) then r == prop.ref.value
           else LinksTo(spec, spec[prop.ref.value], r, steps - 1)
       else if "anyOf" in prop.fields then
         prop.fields["anyOf"].List? &&
         exists i :: 0 <= i < |prop.fields["anyOf"].items| && LinksTo(spec, prop.fields["anyOf"].items[i], r, steps - 1)
       else
         prop.kind == "array" && "items" in prop.fields && LinksTo(spec, prop.fields["items"], r, steps - 1)
  }

  /** A link leads to an object that is reached wherever the property's own references are. */
  lemma {:induction false} LinkIsReached(spec: Spec, prop: Node, r: string, steps: nat, start: set<string>)
    requires LinksTo(spec, prop, r, steps) && forall x :: x in RefsOf(prop) ==> Reaches(Edges(spec), start, x)
    ensures r in spec && IsObject(spec[r]) && Reaches(Edges(spec), start, r)
    decreases steps
  {
    if prop.ref.Some? {
      var x := prop.ref.value;
      assert x in RefsOf(prop);
      if !IsObject(spec[x]) {
        forall y | y in RefsOf(spec[x]) ensures Reaches(Edges(spec), start, y) {
          ReachesNext(Edges(spec), start, x, y);
        }
        LinkIsReached(spec, spec[x], r, steps - 1, start);
      }
    } else if "anyOf" in prop.fields {
      var options := prop.fields["anyOf"];
      var i :| 0 <= i < |options.items| && LinksTo(spec, options.items[i], r, steps - 1);
      assert RefsOf(options.items[i]) <= RefsOf(options) <= RefsOf(prop);
      LinkIsReached(spec, options.items[i], r, steps - 1, start);
    } else {
      assert RefsOf(prop.fields["items"]) <= RefsOf(prop);
      LinkIsReached(spec, prop.fields["items"], r, steps - 1, start);
    }
  }

  /** A field of a table: a value of the schema's `properties`. */
  ghost predicate IsField(schema: Node, prop: Node) {
    && schema.Dict? && "properties" in schema.fields
    && schema.fields["properties"].Dict? && schema.fields["properties"].ref.None?
    && exists k :: k in schema.fields["properties"].fields && schema.fields["properties"].fields[k] == prop
  }

  lemma FieldRefs(schema: Node, prop: Node)
    requires IsField(schema, prop) && schema.ref.None?
    ensures RefsOf(prop) <= RefsOf(schema)
  {
    var properties := schema.fields["properties"];
    var k :| k in properties.fields && properties.fields[k] == prop;
    assert RefsOf(prop) <= RefsOf(properties);
    assert RefsOf(properties) <= RefsOf(schema);
  }

  /**
   Every object link in the table of a body, or of a section, has a section of its name when
   that schema has no `$ref` beside its properties; and the section shows the linked object
   when no other object of that name is reached.
   */
  lemma LinksHaveSections(
    spec: Spec, name: string -> string, bodies: seq<Node>, models: map<string, Node>, schema: Node, prop: Node,
      r: string, steps: nat)
    requires forall i :: 0 <= i < |bodies| ==> RefsOf(bodies[i]) <= spec.Keys
    requires ListsReached(spec, name, BodyRefs(spec, bodies), models)
    requires (exists i :: 0 <= i < |bodies| && Resolve(spec, bodies[i]) == schema) ||
             (exists m :: m in models && models[m] == schema)
    requires IsField(schema, prop) && schema.ref.None? && LinksTo(spec, prop, r, steps)
    ensures r in spec && name(r) in models
    ensures NoClashAt(spec, name, BodyRefs(spec, bodies), r) ==> models[name(r)] == spec[r]
  {
    var start := BodyRefs(spec, bodies);
    FieldRefs(schema, prop);
    forall x | x in RefsOf(schema) ensures Reaches(Edges(spec), start, x) {
      if i :| 0 <= i < |bodies| && Resolve(spec, bodies[i]) == schema {
        ReachesStart(Edges(spec), start, x);
      } else {
        var m :| m in models && models[m] == schema;
        SectionRefs(spec, name, start, m, schema, x);
      }
    }
    LinkIsReached(spec, prop, r, steps, start);
    if NoClashAt(spec, name, start, r) { SectionShows(spec, name, start, models, r); }
  }

  lemma SectionRefs(spec: Spec, name: string -> string, start: set<string>, m: string, schema: Node, x: string)
    requires IsSectionOf(spec, name, start, m, schema) && x in RefsOf(schema)
    ensures Reaches(Edges(spec), start, x)
  {
    var r :| r in spec && Reaches(Edges(spec), start, r) && IsObject(spec[r]) && name(r) == m && schema == spec[r];
    ReachesNext(Edges(spec), start, r, x);
  }

  /** Every reached object of that name is the same. */
  ghost predicate NoClashAt(spec: Spec, name: string -> string, start: set<string>, r: string) {
    && r in spec
    && forall x :: x in spec && IsObject(spec[x]) && Reaches(Edges(spec), start, x) && name(x) == name(r) ==>
       spec[x] == spec[r]
  }

  /** Without a clash, the section of a reached object shows that object. */
  lemma SectionShows(spec: Spec, name: string -> string, start: set<string>, models: map<string, Node>, r: string)
    requires ListsReached(spec, name, start, models) && NoClashAt(spec, name, start, r)
    requires IsObject(spec[r]) && Reaches(Edges(spec), start, r)
    ensures name(r) in models && models[name(r)] == spec[r]
  {
    assert IsSectionOf(spec, name, start, name(r), models[name(r)]);
  }

  /** The section of every reached object shows it. */
  ghost predicate AllShown(spec: Spec, name: string -> string, start: set<string>, models: map<string, Node>) {
    forall r :: r in spec && IsObject(spec[r]) && Reaches(Edges(spec), start, r) ==>
      name(r) in models && models[name(r)] == spec[r]
  }

  /**
   Two references with one last segment overwrite each other, so all sections are right if and only
   if no name clashes.
   */
  lemma AllShownIff(spec: Spec, name: string -> string, start: set<string>, models: map<string, Node>)
    requires ListsReached(spec, name, start, models)
    ensures AllShown(spec, name, start, models) <==>
            forall r :: r in spec && IsObject(spec[r]) && Reaches(Edges(spec), start, r) ==>
              NoClashAt(spec, name, start, r)
  {
    if forall r :: r in spec && IsObject(spec[r]) && Reaches(Edges(spec), start, r) ==>
      NoClashAt(spec, name, start, r)
    {
      forall r | r in spec && IsObject(spec[r]) && Reaches(Edges(spec), start, r)
        ensures name(r) in models && models[name(r)] == spec[r]
      {
        SectionShows(spec, name, start, models, r);
      }
    }
  }

  /** A body that refers to two objects. */
  function TwoRefs(x: string, y: string): Node {
    Dict(None, "object", map["first" := Dict(Some(x), "", map[]), "second" := Dict(Some(y), "", map[])])
  }

  function ClashSpec(x: string, y: string): Spec {
    map[x := Dict(None, "object", map[]), y := Dict(None, "object", map["title" := Leaf])]
  }

  /** Whatever the page lists, one of two different objects of one name is not shown. */
  lemma ClashHidesOne(x: string, y: string, name: string -> string, models: map<string, Node>)
    requires x != y && name(x) == name(y)
    requires ListsReached(ClashSpec(x, y), name, RefsOf(TwoRefs(x, y)), models)
    ensures !AllShown(ClashSpec(x, y), name, RefsOf(TwoRefs(x, y)), models)
  {
    var spec, start, body := ClashSpec(x, y), RefsOf(TwoRefs(x, y)), TwoRefs(x, y);
    assert x in RefsOf(body.fields["first"]) && y in RefsOf(body.fields["second"]);
    ReachesStart(Edges(spec), start, x);
    ReachesStart(Edges(spec), start, y);
    assert "title" !in spec[x].fields && "title" in spec[y].fields;
  }

  /** A body that has both a `$ref` to `x` and a property that refers to the object `y`. */
  function Sibling(x: string, y: string): Node {
    Dict(Some(x), "object", map["properties" := Dict(None, "", map["p" := Dict(Some(y), "", map[])])])
  }

  function SiblingSpec(b: string, x: string, y: string): Spec {
    map[x := Dict(None, "string", map[]), y := Dict(None, "object", map[]), b := Sibling(x, y)]
  }

  /** A `$ref` beside properties hides them from the walk: the link in the body's table has no section. */
  lemma SiblingPropertiesAreSkipped(b: string, x: string, y: string, name: string -> string, models: map<string, Node>)
    requires b != x && b != y && x != y && name(x) != name(y)
    requires ListsReached(SiblingSpec(b, x, y), name, RefsOf(Sibling(x, y)), models)
    ensures IsField(Sibling(x, y), Dict(Some(y), "", map[])) &&
            LinksTo(SiblingSpec(b, x, y), Dict(Some(y), "", map[]), y, 1)
    ensures name(y) !in models
  {
    var spec, prop := SiblingSpec(b, x, y), Dict(Some(y), "", map[]);
    var properties := Dict(None, "", map["p" := prop]);
    assert Sibling(x, y).fields["properties"] == properties && properties.fields["p"] == prop;
    assert RefsOf(Sibling(x, y)) == {x};
    assert Edges(spec)(x) == {};
    forall r | Reaches(Edges(spec), {x}, r) ensures r == x { ClosedContains(Edges(spec), {x}, {x}, r); }
  }
}
