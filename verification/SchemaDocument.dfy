/**
 The rendered document: the root's object schema beside `$defs`. Which references
 resolve, which values validate, and the annotations for which more values do.
 */
module SchemaDocument {
  import opened Options
  import opened SchemaTypes
  import opened SchemaEmit
  import opened Graph
  import opened SchemaMeaning
  import opened SchemaFaithful
  import opened SchemaCompiler

  datatype Document = Document(schema: Schema, defs: map<string, Schema>)

  /** The root's own schema, and an entry for every class reachable from its fields except the root itself. */
  ghost predicate IsDocument(env: Env, root: string, doc: Document)
    requires root in env
  {
    && doc.schema == ObjectOf(env[root])
    && (forall n :: n in doc.defs <==> n != root && Reaches(Edges(env), Mentions(env[root]), n))
    && (forall n :: n in doc.defs ==> n in env && doc.defs[n] == ObjectOf(env[n]))
  }

  /** Compile the root, then remove the entry that a cycle may have made for it. */
  method RenderJsonSchema(env: Env, root: string) returns (r: Option<Document>)
    requires Scoped(env) && root in env
    ensures r.Some? <==> DeclSupported(env[root]) && !Blocked(env, Mentions(env[root]))
    ensures r.Some? ==> IsDocument(env, root, r.value)
  {
    var definitions := new Definitions();
    var schema := ObjectSchema(env, definitions, env[root]);
    if schema.None? { return None; }
    EntriesAreReachable(env, Mentions(env[root]), definitions.entries);
    DocumentOf(env, root, definitions.entries);
    r := Some(Document(schema.value, definitions.entries - {root}));
  }

  /** Starting from no definitions, the entries are exactly the reachable classes, all of them compiled. */
  lemma EntriesAreReachable(env: Env, targets: set<string>, entries: map<string, Schema>)
    requires Grown(env, map[], entries, targets)
    ensures forall n :: n in entries <==> Reaches(Edges(env), targets, n)
    ensures forall n :: n in entries ==> n in env && entries[n] == ObjectOf(env[n])
    ensures !Blocked(env, targets)
  {
    forall n | n in entries ensures Complete(env, entries, targets, n) {}
    assert Closed(Edges(env), entries.Keys);
    ClosedIsReachable(Edges(env), targets, entries.Keys);
  }

  lemma DocumentOf(env: Env, root: string, entries: map<string, Schema>)
    requires root in env
    requires forall n :: n in entries <==> Reaches(Edges(env), Mentions(env[root]), n)
    requires forall n :: n in entries ==> n in env && entries[n] == ObjectOf(env[n])
    ensures IsDocument(env, root, Document(ObjectOf(env[root]), entries - {root}))
  {
  }

  /** The classes that the document describes: the root and those reachable from it. */
  function Compiled(root: string, doc: Document): set<string> {
    doc.defs.Keys + {root}
  }

  // ----- references -----

  /** Every `$ref` written anywhere in a schema. */
  function RefsIn(s: Schema): set<string> {
    match s
    case Flag(_) => {}
    case Node(k) =>
      (if k.ref.Some? then {k.ref.value} else {})
      + (if k.anyOf.AnyOf? then RefsInAll(k.anyOf.branches) else {})
      + (if k.items.Some? then RefsIn(k.items.value) else {})
      + (if k.prefixItems.PrefixItems? then RefsInAll(k.prefixItems.schemas) else {})
      + (if k.properties.Properties?
         then set p, n | p in k.properties.schemas && n in RefsIn(k.properties.schemas[p]) :: n else {})
      + (if k.additionalProperties.Some? then RefsIn(k.additionalProperties.value) else {})
  }

  function RefsInAll(schemas: seq<Schema>): set<string> {
    set i, n | 0 <= i < |schemas| && n in RefsIn(schemas[i]) :: n
  }

  /** A schema that writes references only through `properties`. */
  lemma RefsInClosed(properties: map<string, Schema>, required: seq<string>, n: string)
    ensures n in RefsIn(ClosedObject(properties, required)) <==>
            exists p :: p in properties && n in RefsIn(properties[p])
  {
  }

  lemma {:induction false} RefsEmitted(t: Ty, md: seq<Constraint>)
    ensures RefsIn(Emit(t, md)) == RecordsIn(t)
    decreases t
  {
    match t
    case Alias(u) => RefsEmitted(u, md);
    case Annotated(b, m) => RefsEmitted(b, m + md);
    case RequiredT(b) => RefsEmitted(b, md);
    case NotRequiredT(b) => RefsEmitted(b, md);
    case Union(args) =>
      RefsOfAll(args, Emit(t, md).kw.anyOf.branches);
      assert RecordsIn(t) == RecordsInAll(args);
    case ArrayOf(u) => RefsEmitted(u, []);
    case TupleOf(parts) =>
      RefsOfAll(parts, Emit(t, md).kw.prefixItems.schemas);
      assert RecordsIn(t) == RecordsInAll(parts);
    case Mapping(keys, u) =>
      RefsEmitted(u, []);
      if keys.LiteralKeys? { assert keys.names[0] in Emit(t, md).kw.properties.schemas; }
    case _ =>
  }

  lemma {:induction false} RefsOfAll(args: seq<Ty>, schemas: seq<Schema>)
    requires |schemas| == |args| && forall i :: 0 <= i < |args| ==> schemas[i] == Emit(args[i], [])
    ensures RefsInAll(schemas) == RecordsInAll(args)
    decreases args
  {
    forall i | 0 <= i < |args| ensures RefsIn(schemas[i]) == RecordsIn(args[i]) { RefsEmitted(args[i], []); }
    forall n ensures n in RefsInAll(schemas) <==> n in RecordsInAll(args) {
      if n in RefsInAll(schemas) {
        var i :| 0 <= i < |schemas| && n in RefsIn(schemas[i]);
        assert n in RecordsIn(args[i]);
      }
      if n in RecordsInAll(args) {
        var i :| 0 <= i < |args| && n in RecordsIn(args[i]);
        assert n in RefsIn(schemas[i]);
      }
    }
  }

  lemma RefsNonNull(branches: seq<Schema>)
    ensures RefsInAll(NonNull(branches)) == RefsInAll(branches)
  {
    var kept := NonNull(branches);
    assert RefsIn(NULL_SCHEMA) == {};
    forall n | n in RefsInAll(branches) ensures n in RefsInAll(kept) {
      var i :| 0 <= i < |branches| && n in RefsIn(branches[i]);
      NonNullMembers(branches, branches[i]);
      var j :| 0 <= j < |kept| && kept[j] == branches[i];
    }
    forall n | n in RefsInAll(kept) ensures n in RefsInAll(branches) {
      var j :| 0 <= j < |kept| && n in RefsIn(kept[j]);
      NonNullMembers(branches, kept[j]);
    }
  }

  lemma RefsWithoutNull(s: Schema)
    requires s.Node? && s.kw.anyOf.AnyOf? ==> s == Node(BLANK.(anyOf := s.kw.anyOf, limits := s.kw.limits))
    ensures RefsIn(WithoutNull(s)) == RefsIn(s)
  {
    if s.Node? && s.kw.anyOf.AnyOf? {
      var kept := NonNull(s.kw.anyOf.branches);
      RefsNonNull(s.kw.anyOf.branches);
      assert RefsIn(s) == RefsInAll(kept);
      if |kept| == 1 { assert RefsInAll(kept) == RefsIn(kept[0]); }
    }
  }

  lemma RefsInField(decl: RecordDecl, f: Field)
    ensures RefsIn(FieldSchema(decl, f)) == RecordsIn(f.annotation)
  {
    var s := Emit(f.annotation, FieldMetadata(decl, f));
    RefsEmitted(f.annotation, FieldMetadata(decl, f));
    if s.Node? && s.kw.anyOf.AnyOf? { var u, umd := UnionBehind(f.annotation, FieldMetadata(decl, f)); }
    RefsWithoutNull(s);
    var reduced := if Omits(decl, f) then WithoutNull(s) else s;
    assert RefsIn(Describe(reduced, f.description)) == RefsIn(reduced);
  }

  lemma RefsInObject(decl: RecordDecl)
    requires DistinctNames(decl)
    ensures RefsIn(ObjectOf(decl)) == Mentions(decl)
  {
    var count := |decl.fields|;
    var properties := PropertiesOf(decl, count);
    forall i | 0 <= i < count
      ensures decl.fields[i].name in properties
      ensures RefsIn(properties[decl.fields[i].name]) == RecordsIn(decl.fields[i].annotation)
    {
      PropertyOf(decl, count, i);
      RefsInField(decl, decl.fields[i]);
    }
    forall p | p in properties ensures exists i :: 0 <= i < count && decl.fields[i].name == p {
      PropertyNames(decl, count, p);
    }
    forall n ensures n in RefsIn(ObjectOf(decl)) <==> n in Mentions(decl) {
      RefsInClosed(properties, RequiredOf(decl, count), n);
    }
  }

  /** Every reference in the document names a definition. */
  ghost predicate RefsResolve(doc: Document) {
    && RefsIn(doc.schema) <= doc.defs.Keys
    && forall n :: n in doc.defs ==> RefsIn(doc.defs[n]) <= doc.defs.Keys
  }

  /** Removing the root entry leaves every reference resolved exactly when no chain of fields leads back to the root. */
  lemma RefsResolveIffAcyclicRoot(env: Env, root: string, doc: Document)
    requires Scoped(env) && root in env && IsDocument(env, root, doc)
    requires forall n :: n in Compiled(root, doc) && n in env ==> DistinctNames(env[n])
    ensures RefsResolve(doc) <==> !Reaches(Edges(env), Mentions(env[root]), root)
  {
    RefsInObject(env[root]);
    forall n | n in doc.defs ensures RefsIn(doc.defs[n]) == Mentions(env[n]) { RefsInObject(env[n]); }
    if !Reaches(Edges(env), Mentions(env[root]), root) {
      ClosedUnderMention(env, root, doc);
    } else if RefsResolve(doc) {
      assert Closed(Edges(env), doc.defs.Keys);
      ClosedContains(Edges(env), Mentions(env[root]), doc.defs.Keys, root);
      assert false;
    }
  }

  /** Without a cycle through the root, `$defs` is what the two meaning theorems need. */
  lemma ClosedUnderMention(env: Env, root: string, doc: Document)
    requires root in env && IsDocument(env, root, doc) && !Reaches(Edges(env), Mentions(env[root]), root)
    ensures Resolved(env, doc.defs) && Mentions(env[root]) <= doc.defs.Keys
  {
    forall n | n in Mentions(env[root]) ensures n in doc.defs { ReachesStart(Edges(env), Mentions(env[root]), n); }
    forall m, n | m in doc.defs && n in Mentions(env[m]) ensures n in doc.defs {
      ReachesNext(Edges(env), Mentions(env[root]), m, n);
    }
  }

  // ----- meaning of the document -----

  /** No serialized record is rejected, whatever constraints its annotations carry. */
  lemma DocumentAcceptsEveryRecord(env: Env, d: Dialect, root: string, doc: Document, v: Json)
    requires root in env && IsDocument(env, root, doc) && !Reaches(Edges(env), Mentions(env[root]), root)
    requires Declared(env, Compiled(root, doc))
    requires HasType(env, d, v, Record(root), [])
    ensures Validates(d, doc.defs, doc.schema, v, {})
  {
    ClosedUnderMention(env, root, doc);
    RecordTyped(env, d, v, root);
    AcceptsRecord(env, d, doc.defs, root, v, {});
  }

  /** When the annotations keep their bounds, the document validates exactly the serialized records. */
  lemma DocumentMeansTheType(env: Env, d: Dialect, root: string, doc: Document, v: Json)
    requires root in env && IsDocument(env, root, doc) && !Reaches(Edges(env), Mentions(env[root]), root)
    requires Declared(env, Compiled(root, doc)) && FaithfulEnv(env, d, Compiled(root, doc)) && NonNegative(d)
    ensures Validates(d, doc.defs, doc.schema, v, {}) <==> HasType(env, d, v, Record(root), [])
  {
    if HasType(env, d, v, Record(root), []) { DocumentAcceptsEveryRecord(env, d, root, doc, v); }
    if Validates(d, doc.defs, doc.schema, v, {}) {
      ClosedUnderMention(env, root, doc);
      RejectsRecord(env, d, doc.defs, root, v, {});
      ShapedTyped(env, d, v, Record(root));
    }
  }
}
