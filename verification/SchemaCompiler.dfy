/**
 The compiler as it runs: a depth-first walk of the type graph that shares one
 dictionary of definitions, with a placeholder standing for a class in progress.
 */
module SchemaCompiler {
  import opened Options
  import opened SchemaTypes
  import opened SchemaEmit
  import opened SchemaLastWins
  import opened Graph

  class Definitions {
    var entries: map<string, Schema>

    constructor ()
      ensures entries == map[]
    {
      entries := map[];
    }
  }

  /** The type graph: a class leads to the classes that its annotations mention. */
  function Edges(env: Env): string -> set<string> {
    (n: string) => if n in env then Mentions(env[n]) else {}
  }

  // ----- what one call adds to the dictionary -----

  /** The entry of a class is its schema, and everything the class mentions has an entry. */
  ghost predicate Complete(env: Env, entries: map<string, Schema>, targets: set<string>, n: string) {
    && n in env && n in entries
    && entries[n] == ObjectOf(env[n])
    && DeclSupported(env[n])
    && Mentions(env[n]) <= entries.Keys
    && Reaches(Edges(env), targets, n)
  }

  /**
   Everything present stays as it was, placeholders included; the targets are
   present; and each new entry is complete, reachable, and mentions only names
   that are present too.
   */
  ghost predicate Grown(env: Env, before: map<string, Schema>, after: map<string, Schema>, targets: set<string>) {
    && before.Keys <= after.Keys <= env.Keys
    && (forall n :: n in before ==> after[n] == before[n])
    && targets <= after.Keys
    && forall n :: n in after && n !in before ==> Complete(env, after, targets, n)
  }

  /** Some class below the targets cannot be compiled. */
  ghost predicate Blocked(env: Env, targets: set<string>) {
    exists n :: n in env && Reaches(Edges(env), targets, n) && !DeclSupported(env[n])
  }

  lemma GrownThen(
    env: Env, d0: map<string, Schema>, d1: map<string, Schema>, d2: map<string, Schema>, t1: set<string>,
    t2: set<string>)
    requires Grown(env, d0, d1, t1) && Grown(env, d1, d2, t2)
    ensures Grown(env, d0, d2, t1 + t2)
  {
    forall n | n in d2 && n !in d0 ensures Complete(env, d2, t1 + t2, n) {
      if n in d1 {
        assert Complete(env, d1, t1, n);
        ReachesMore(Edges(env), t1, t1 + t2, n);
      } else {
        assert Complete(env, d2, t2, n);
        ReachesMore(Edges(env), t2, t1 + t2, n);
      }
    }
  }

  /** Replacing the placeholder of a class by its schema completes that class. */
  lemma GrownRecord(env: Env, d0: map<string, Schema>, d1: map<string, Schema>, name: string, placeholder: Schema)
    requires name in env && name !in d0 && DeclSupported(env[name])
    requires Grown(env, d0[name := placeholder], d1, Mentions(env[name]))
    ensures Grown(env, d0, d1[name := ObjectOf(env[name])], {name})
  {
    var d2 := d1[name := ObjectOf(env[name])];
    assert d2.Keys == d1.Keys;
    ReachesStart(Edges(env), {name}, name);
    forall n | n in d2 && n !in d0 ensures Complete(env, d2, {name}, n) {
      if n != name {
        assert Complete(env, d1, Mentions(env[name]), n);
        ReachesThrough(Edges(env), name, n);
      }
    }
  }

  lemma BlockedMore(env: Env, start: set<string>, more: set<string>)
    requires start <= more && Blocked(env, start)
    ensures Blocked(env, more)
  {
    var n :| n in env && Reaches(Edges(env), start, n) && !DeclSupported(env[n]);
    ReachesMore(Edges(env), start, more, n);
  }

  lemma BlockedThrough(env: Env, name: string)
    requires name in env && (Blocked(env, Mentions(env[name])) || !DeclSupported(env[name]))
    ensures Blocked(env, {name})
  {
    if DeclSupported(env[name]) {
      var n :| n in env && Reaches(Edges(env), Mentions(env[name]), n) && !DeclSupported(env[n]);
      ReachesThrough(Edges(env), name, n);
    } else {
      ReachesStart(Edges(env), {name}, name);
    }
  }

  // ----- the walk -----

  /** Flatten the metadata, then write each keyword in turn. */
  method ApplyConstraints(schema: Schema, annotation: Ty, metadata: seq<Constraint>) returns (r: Schema)
    ensures schema.Flag? ==> r == schema
    ensures schema.Node? ==>
            r == Node(schema.kw.(limits := ApplyAll(schema.kw.limits, Flatten(metadata), CountsItems(annotation))))
    ensures schema.Node? ==>
            && LastValues(schema.kw.limits, Flatten(metadata), r.kw.limits)
            && LastLengths(schema.kw.limits, Flatten(metadata), CountsItems(annotation), r.kw.limits)
  {
    if schema.Flag? { return schema; }
    var arrays := CountsItems(annotation);
    var constraints := Owned(metadata);
    for i := 0 to |metadata|
      invariant constraints == Owned(metadata) + Nested(metadata[..i])
    {
      assert metadata[..i + 1][..i] == metadata[..i];
      constraints := constraints + metadata[i].nested;
    }
    assert metadata[..|metadata|] == metadata;
    var limits := schema.kw.limits;
    for i := 0 to |constraints|
      invariant limits == ApplyAll(schema.kw.limits, constraints[..i], arrays)
    {
      assert constraints[..i + 1][..i] == constraints[..i];
      limits := ApplyOne(limits, constraints[i], arrays);
    }
    assert constraints[..|constraints|] == constraints;
    LastValueWins(schema.kw.limits, constraints, arrays);
    LastLengthWins(schema.kw.limits, constraints, arrays);
    r := Node(schema.kw.(limits := limits));
  }

  /** The schema of an annotation; `None` is the exit for an annotation with no mapping. */
  method SchemaForType(
    env: Env, definitions: Definitions, annotation: Ty, metadata: seq<Constraint>) returns (r: Option<Schema>)
    requires Scoped(env) && RecordsIn(annotation) <= env.Keys && definitions.entries.Keys <= env.Keys
    modifies definitions
    ensures r.Some? ==> r.value == Emit(annotation, metadata) && Supported(annotation)
    ensures r.Some? ==> Grown(env, old(definitions.entries), definitions.entries, RecordsIn(annotation))
    ensures r.None? ==> !Supported(annotation) || Blocked(env, RecordsIn(annotation))
    decreases env.Keys - definitions.entries.Keys, annotation
  {
    match annotation
    case AnyT => r := Some(Node(BLANK));
    case NeverT => r := Some(Flag(false));
    case Alias(u) => r := SchemaForType(env, definitions, u, metadata);
    case Annotated(b, m) => r := SchemaForType(env, definitions, b, m + metadata);
    case RequiredT(b) => r := SchemaForType(env, definitions, b, metadata);
    case NotRequiredT(b) => r := SchemaForType(env, definitions, b, metadata);
    case Union(args) =>
      var branches := SchemasFor(env, definitions, args);
      if branches.None? { return None; }
      var s := ApplyConstraints(Node(BLANK.(anyOf := AnyOf(branches.value))), annotation, metadata);
      r := Some(s);
    case Literal(values) => r := Some(LiteralSchema(values));
    case ArrayOf(u) =>
      var item := SchemaForType(env, definitions, u, []);
      if item.None? { return None; }
      var s := ApplyConstraints(Node(BLANK.(kind := Some(ArrayType), items := item)), annotation, metadata);
      r := Some(s);
    case TupleOf(parts) =>
      var schemas := SchemasFor(env, definitions, parts);
      if schemas.None? { return None; }
      var base := Node(BLANK.(kind := Some(ArrayType), prefixItems := PrefixItems(schemas.value),
                              limits := NO_LIMITS.(minItems := Some(|parts|), maxItems := Some(|parts|))));
      var s := ApplyConstraints(base, annotation, metadata);
      r := Some(s);
    case Mapping(keys, u) =>
      var value := SchemaForType(env, definitions, u, []);
      if value.None? { return None; }
      if keys.LiteralKeys? {
        r := Some(Node(BLANK.(kind := Some(ObjectType),
                              properties := Properties(map n | n in keys.names :: value.value),
                              additionalProperties := Some(Flag(false)))));
      } else {
        r := Some(Node(BLANK.(kind := Some(ObjectType), additionalProperties := value)));
      }
    case Record(name) => r := Reference(env, definitions, name);
    case DateTimeT =>
      var base := Node(BLANK.(kind := Some(StringType), format := Some("date-time")));
      var s := ApplyConstraints(base, annotation, metadata);
      r := Some(s);
    case DecimalT =>
      r := Some(Node(BLANK.(kind := Some(StringType), format := Some("decimal"),
                            limits := NO_LIMITS.(pattern := Some(PRICE_DECIMAL_PATTERN)))));
    case BoolT => r := Some(Node(BLANK.(kind := Some(BooleanType))));
    case StrT =>
      var s := ApplyConstraints(Node(BLANK.(kind := Some(StringType))), annotation, metadata);
      r := Some(s);
    case IntT =>
      var s := ApplyConstraints(Node(BLANK.(kind := Some(IntegerType))), annotation, metadata);
      r := Some(s);
    case FloatT =>
      var s := ApplyConstraints(Node(BLANK.(kind := Some(NumberType))), annotation, metadata);
      r := Some(s);
    case NoneT => r := Some(NULL_SCHEMA);
    case Unsupported => r := None;
  }

  /** A reference to a class, which is defined first unless it already has an entry or a placeholder. */
  method Reference(env: Env, definitions: Definitions, name: string) returns (r: Option<Schema>)
    requires Scoped(env) && name in env && definitions.entries.Keys <= env.Keys
    modifies definitions
    ensures r.Some? ==> r.value == Node(BLANK.(ref := Some(name)))
    ensures r.Some? ==> Grown(env, old(definitions.entries), definitions.entries, {name})
    ensures r.None? ==> Blocked(env, {name})
    decreases env.Keys - definitions.entries.Keys, Record(name), 0
  {
    if name !in definitions.entries {
      ghost var before := definitions.entries;
      definitions.entries := definitions.entries[name := Node(BLANK)];
      assert name in env.Keys - before.Keys && name !in env.Keys - definitions.entries.Keys;
      var s := ObjectSchema(env, definitions, env[name]);
      if s.None? {
        BlockedThrough(env, name);
        return None;
      }
      GrownRecord(env, before, definitions.entries, name, Node(BLANK));
      definitions.entries := definitions.entries[name := s.value];
    }
    r := Some(Node(BLANK.(ref := Some(name))));
  }

  /** The arguments of a union or of a fixed tuple, compiled in order. */
  method SchemasFor(env: Env, definitions: Definitions, args: seq<Ty>) returns (r: Option<seq<Schema>>)
    requires Scoped(env) && RecordsInAll(args) <= env.Keys && definitions.entries.Keys <= env.Keys
    modifies definitions
    ensures r.Some? ==> r.value == seq(|args|, i requires 0 <= i < |args| => Emit(args[i], []))
    ensures r.Some? ==> forall i :: 0 <= i < |args| ==> Supported(args[i])
    ensures r.Some? ==> Grown(env, old(definitions.entries), definitions.entries, RecordsInAll(args))
    ensures r.None? ==> (exists i :: 0 <= i < |args| && !Supported(args[i])) || Blocked(env, RecordsInAll(args))
    decreases env.Keys - definitions.entries.Keys, args
  {
    var schemas := [];
    ghost var targets := {};
    for k := 0 to |args|
      invariant definitions.entries.Keys <= env.Keys
      invariant |schemas| == k && forall i :: 0 <= i < k ==> schemas[i] == Emit(args[i], []) && Supported(args[i])
      invariant targets == RecordsInAll(args[..k])
      invariant Grown(env, old(definitions.entries), definitions.entries, targets)
    {
      ghost var before := definitions.entries;
      assert RecordsIn(args[k]) <= RecordsInAll(args);
      var s := SchemaForType(env, definitions, args[k], []);
      if s.None? {
        if Supported(args[k]) { BlockedMore(env, RecordsIn(args[k]), RecordsInAll(args)); }
        return None;
      }
      GrownThen(env, old(definitions.entries), before, definitions.entries, targets, RecordsIn(args[k]));
      RecordsInSnoc(args, k);
      targets := targets + RecordsIn(args[k]);
      schemas := schemas + [s.value];
    }
    assert args[..|args|] == args;
    r := Some(schemas);
  }

  lemma RecordsInSnoc(args: seq<Ty>, k: nat)
    requires k < |args|
    ensures RecordsInAll(args[..k + 1]) == RecordsInAll(args[..k]) + RecordsIn(args[k])
  {
    var longer, shorter := args[..k + 1], args[..k];
    assert forall i :: 0 <= i < k ==> longer[i] == shorter[i];
    assert longer[k] == args[k];
  }

  /** The annotations of a class in declaration order. */
  ghost function Annotations(decl: RecordDecl): seq<Ty> {
    seq(|decl.fields|, i requires 0 <= i < |decl.fields| => decl.fields[i].annotation)
  }

  lemma MentionsAll(decl: RecordDecl)
    ensures RecordsInAll(Annotations(decl)) == Mentions(decl)
  {
    var all := Annotations(decl);
    assert forall i :: 0 <= i < |all| ==> all[i] == decl.fields[i].annotation;
  }

  /** The closed object schema of a class, field by field. */
  method ObjectSchema(env: Env, definitions: Definitions, decl: RecordDecl) returns (r: Option<Schema>)
    requires Scoped(env) && Mentions(decl) <= env.Keys && definitions.entries.Keys <= env.Keys
    modifies definitions
    ensures r.Some? ==> r.value == ObjectOf(decl) && DeclSupported(decl)
    ensures r.Some? ==> Grown(env, old(definitions.entries), definitions.entries, Mentions(decl))
    ensures r.None? ==> !DeclSupported(decl) || Blocked(env, Mentions(decl))
    decreases env.Keys - definitions.entries.Keys, decl
  {
    var properties := map[];
    var required := [];
    ghost var targets, all := {}, Annotations(decl);
    MentionsAll(decl);
    for k := 0 to |decl.fields|
      invariant definitions.entries.Keys <= env.Keys
      invariant properties == PropertiesOf(decl, k) && required == RequiredOf(decl, k)
      invariant forall i :: 0 <= i < k ==> FieldSupported(decl, decl.fields[i])
      invariant targets == RecordsInAll(all[..k])
      invariant Grown(env, old(definitions.entries), definitions.entries, targets)
    {
      var f := decl.fields[k];
      ghost var before := definitions.entries;
      assert all[k] == f.annotation && RecordsIn(f.annotation) <= Mentions(decl);
      var s := SchemaForType(env, definitions, f.annotation, FieldMetadata(decl, f));
      if s.None? {
        if Supported(f.annotation) { BlockedMore(env, RecordsIn(f.annotation), Mentions(decl)); }
        return None;
      }
      GrownThen(env, old(definitions.entries), before, definitions.entries, targets, RecordsIn(f.annotation));
      RecordsInSnoc(all, k);
      targets := targets + RecordsIn(f.annotation);
      var fieldSchema := if Omits(decl, f) then WithoutNull(s.value) else s.value;
      if fieldSchema.Node? {
        if f.description.None? { return None; }
        fieldSchema := Describe(fieldSchema, f.description);
      }
      properties := properties[f.name := fieldSchema];
      if !LeavesOptional(decl, f) && !Omits(decl, f) { required := required + [f.name]; }
    }
    assert all[..|all|] == all;
    r := Some(ClosedObject(properties, required));
  }
}
