/**
 What the compiler writes for an annotation. A reference to a record is always
 `$ref`, so the text does not depend on which definitions already exist.
 */
module SchemaEmit {
  import opened Options
  import opened SchemaTypes

  function Override<T>(present: Option<T>, written: Option<T>): Option<T> {
    if written.Some? then written else present
  }

  /** One round of the constraint loop: a later value replaces an earlier one. */
  function ApplyOne(l: Limits, b: Bounds, arrays: bool): Limits {
    Limits(
      Override(l.minimum, b.ge), Override(l.exclusiveMinimum, b.gt),
      Override(l.maximum, b.le), Override(l.exclusiveMaximum, b.lt),
      Override(l.pattern, b.pattern),
      if arrays then l.minLength else Override(l.minLength, b.minLength),
      if arrays then l.maxLength else Override(l.maxLength, b.maxLength),
      if arrays then Override(l.minItems, b.minLength) else l.minItems,
      if arrays then Override(l.maxItems, b.maxLength) else l.maxItems)
  }

  function ApplyAll(l: Limits, bs: seq<Bounds>, arrays: bool): Limits {
    if bs == [] then l else ApplyOne(ApplyAll(l, bs[..|bs| - 1], arrays), bs[|bs| - 1], arrays)
  }

  predicate IsSequence(t: Ty) {
    t.ArrayOf? || t.TupleOf?
  }

  /** Whether a length bound is written as `minItems`/`maxItems`: decided by the first union argument. */
  predicate CountsItems(t: Ty) {
    if t.Union? then |t.args| > 0 && IsSequence(t.args[0]) else IsSequence(t)
  }

  /** The limits written for an annotation that has no wrapper left. */
  function EmitLimits(t: Ty, md: seq<Constraint>): Limits {
    match t
    case Union(_) => ApplyAll(NO_LIMITS, Flatten(md), CountsItems(t))
    case ArrayOf(_) => ApplyAll(NO_LIMITS, Flatten(md), true)
    case TupleOf(parts) =>
      ApplyAll(NO_LIMITS.(minItems := Some(|parts|), maxItems := Some(|parts|)), Flatten(md), true)
    case DateTimeT => ApplyAll(NO_LIMITS, Flatten(md), false)
    case StrT => ApplyAll(NO_LIMITS, Flatten(md), false)
    case IntT => ApplyAll(NO_LIMITS, Flatten(md), false)
    case FloatT => ApplyAll(NO_LIMITS, Flatten(md), false)
    case DecimalT => NO_LIMITS.(pattern := Some(PRICE_DECIMAL_PATTERN))
    case _ => NO_LIMITS
  }

  function LiteralKind(values: seq<Lit>): Option<JsonType> {
    if values == [] then None
    else if forall i :: 0 <= i < |values| ==> values[i].LNull? then Some(NullType)
    else if forall i :: 0 <= i < |values| ==> values[i].LBool? then Some(BooleanType)
    else if forall i :: 0 <= i < |values| ==> values[i].LInt? then Some(IntegerType)
    else if forall i :: 0 <= i < |values| ==> values[i].LFloat? then Some(NumberType)
    else if forall i :: 0 <= i < |values| ==> values[i].LStr? then Some(StringType)
    else None
  }

  function LiteralSchema(values: seq<Lit>): Schema {
    if |values| == 1
    then Node(BLANK.(kind := LiteralKind(values), constant := Some(Image(values[0]))))
    else Node(BLANK.(kind := LiteralKind(values), enumeration := Some(Images(values))))
  }

  function Emit(t: Ty, md: seq<Constraint>): Schema {
    match t
    case AnyT => Node(BLANK)
    case NeverT => Flag(false)
    case Alias(u) => Emit(u, md)
    case Annotated(b, m) => Emit(b, m + md)
    case RequiredT(b) => Emit(b, md)
    case NotRequiredT(b) => Emit(b, md)
    case Union(args) =>
      Node(BLANK.(anyOf := AnyOf(seq(|args|, i requires 0 <= i < |args| => Emit(args[i], []))),
                  limits := EmitLimits(t, md)))
    case Literal(values) => LiteralSchema(values)
    case ArrayOf(u) =>
      Node(BLANK.(kind := Some(ArrayType), items := Some(Emit(u, [])), limits := EmitLimits(t, md)))
    case TupleOf(parts) =>
      Node(BLANK.(kind := Some(ArrayType),
                  prefixItems := PrefixItems(seq(|parts|, i requires 0 <= i < |parts| => Emit(parts[i], []))),
                  limits := EmitLimits(t, md)))
    case Mapping(keys, u) =>
      if keys.LiteralKeys? then
        Node(BLANK.(kind := Some(ObjectType),
                    properties := Properties(map n | n in keys.names :: Emit(u, [])),
                    additionalProperties := Some(Flag(false))))
      else
        Node(BLANK.(kind := Some(ObjectType), additionalProperties := Some(Emit(u, []))))
    case Record(n) => Node(BLANK.(ref := Some(n)))
    case DateTimeT => Node(BLANK.(kind := Some(StringType), format := Some("date-time"), limits := EmitLimits(t, md)))
    case DecimalT => Node(BLANK.(kind := Some(StringType), format := Some("decimal"), limits := EmitLimits(t, md)))
    case BoolT => Node(BLANK.(kind := Some(BooleanType)))
    case StrT => Node(BLANK.(kind := Some(StringType), limits := EmitLimits(t, md)))
    case IntT => Node(BLANK.(kind := Some(IntegerType), limits := EmitLimits(t, md)))
    case FloatT => Node(BLANK.(kind := Some(NumberType), limits := EmitLimits(t, md)))
    case NoneT => NULL_SCHEMA
    case Unsupported => Flag(false)
  }

  /** The branches that `_without_null` keeps. */
  function NonNull(branches: seq<Schema>): seq<Schema> {
    if branches == [] then []
    else
      var last := branches[|branches| - 1];
      NonNull(branches[..|branches| - 1]) + (if last == NULL_SCHEMA then [] else [last])
  }

  function WithoutNull(s: Schema): Schema {
    if s.Flag? || s.kw.anyOf.NoAnyOf? then s
    else
      var kept := NonNull(s.kw.anyOf.branches);
      if |kept| == 1 then kept[0] else Node(s.kw.(anyOf := AnyOf(kept)))
  }

  function Describe(s: Schema, description: Option<string>): Schema {
    if s.Flag? then s else Node(s.kw.(description := description))
  }

  function FieldSchema(decl: RecordDecl, f: Field): Schema {
    var s := Emit(f.annotation, FieldMetadata(decl, f));
    Describe(if Omits(decl, f) then WithoutNull(s) else s, f.description)
  }

  /** The optional keys of a typed dictionary as the compiler decides them: outermost qualifier, class totality. */
  predicate LeavesOptional(decl: RecordDecl, f: Field) {
    decl.kind.TypedDict? && (f.annotation.NotRequiredT? || (!decl.kind.total && !f.annotation.RequiredT?))
  }

  function PropertiesOf(decl: RecordDecl, k: nat): map<string, Schema>
    requires k <= |decl.fields|
  {
    if k == 0 then map[]
    else PropertiesOf(decl, k - 1)[decl.fields[k - 1].name := FieldSchema(decl, decl.fields[k - 1])]
  }

  function RequiredOf(decl: RecordDecl, k: nat): seq<string>
    requires k <= |decl.fields|
  {
    if k == 0 then []
    else
      var f := decl.fields[k - 1];
      RequiredOf(decl, k - 1) + (if LeavesOptional(decl, f) || Omits(decl, f) then [] else [f.name])
  }

  function ClosedObject(properties: map<string, Schema>, required: seq<string>): Schema {
    Node(BLANK.(kind := Some(ObjectType), properties := Properties(properties),
                additionalProperties := Some(Flag(false)), required := required))
  }

  function ObjectOf(decl: RecordDecl): Schema {
    ClosedObject(PropertiesOf(decl, |decl.fields|), RequiredOf(decl, |decl.fields|))
  }

  /** No annotation below raises the "no JSON Schema mapping" error. */
  predicate Supported(t: Ty) {
    match t
    case Unsupported => false
    case Alias(u) => Supported(u)
    case Annotated(b, _) => Supported(b)
    case RequiredT(b) => Supported(b)
    case NotRequiredT(b) => Supported(b)
    case Union(args) => forall i :: 0 <= i < |args| ==> Supported(args[i])
    case ArrayOf(u) => Supported(u)
    case TupleOf(parts) => forall i :: 0 <= i < |parts| ==> Supported(parts[i])
    case Mapping(_, u) => Supported(u)
    case _ => true
  }

  predicate FieldSupported(decl: RecordDecl, f: Field) {
    Supported(f.annotation) && (FieldSchema(decl, f).Node? ==> f.description.Some?)
  }

  predicate DeclSupported(decl: RecordDecl) {
    forall i :: 0 <= i < |decl.fields| ==> FieldSupported(decl, decl.fields[i])
  }
}
