/**
 Two independent readings of a contract. `HasType` says which JSON values are
 serialized values of an annotation. `Validates` gives the keywords the meaning
 of JSON Schema Draft 2020-12.
 */
module SchemaMeaning {
  import opened Options
  import opened SchemaTypes

  // ----- serialized values of a type -----

  predicate WithinNumber(b: Bounds, x: real) {
    && (b.ge.Some? ==> x >= b.ge.value)
    && (b.gt.Some? ==> x > b.gt.value)
    && (b.le.Some? ==> x <= b.le.value)
    && (b.lt.Some? ==> x < b.lt.value)
  }

  predicate WithinLength(b: Bounds, n: nat) {
    && (b.minLength.Some? ==> n >= b.minLength.value)
    && (b.maxLength.Some? ==> n <= b.maxLength.value)
  }

  /** What the bounds demand: numeric bounds of numbers, patterns of text, lengths of anything sized. */
  ghost predicate Within(d: Dialect, b: Bounds, v: Json) {
    match v
    case JNum(x) => WithinNumber(b, x)
    case JStr(s) => WithinLength(b, |s|) && (b.pattern.Some? ==> d.matches(b.pattern.value, s))
    case JArr(items) => WithinLength(b, |items|)
    case JObj(fields) => WithinLength(b, |fields|)
    case _ => true
  }

  ghost predicate MeetsBounds(d: Dialect, md: seq<Constraint>, v: Json) {
    forall i :: 0 <= i < |md| ==>
      && Within(d, md[i].own, v)
      && forall j :: 0 <= j < |md[i].nested| ==> Within(d, md[i].nested[j], v)
  }

  ghost predicate Asked(d: Dialect, demands: seq<string>, v: Json) {
    forall i :: 0 <= i < |demands| ==> d.accepts(demands[i], v)
  }

  ghost predicate Demanded(d: Dialect, md: seq<Constraint>, v: Json) {
    forall i :: 0 <= i < |md| ==> Asked(d, md[i].demands, v)
  }

  /** All that the metadata ask for, whether or not the compiler reads it. */
  ghost predicate Meets(d: Dialect, md: seq<Constraint>, v: Json) {
    MeetsBounds(d, md, v) && Demanded(d, md, v)
  }

  /** A typed dictionary key may be absent: its qualifier wins over the totality of the declaring class. */
  predicate MayBeAbsent(decl: RecordDecl, f: Field) {
    decl.kind.TypedDict? && OptionalQualifier(f.annotation, f.declaredTotal)
  }

  predicate OptionalQualifier(t: Ty, total: bool) {
    match t
    case RequiredT(_) => false
    case NotRequiredT(_) => true
    case Annotated(b, _) => OptionalQualifier(b, total)
    case _ => !total
  }

  predicate AdmitsNull(t: Ty) {
    match t
    case AnyT => true
    case NoneT => true
    case Alias(u) => AdmitsNull(u)
    case Annotated(b, _) => AdmitsNull(b)
    case RequiredT(b) => AdmitsNull(b)
    case NotRequiredT(b) => AdmitsNull(b)
    case Union(args) => exists i :: 0 <= i < |args| && AdmitsNull(args[i])
    case Literal(values) => LNull in values
    case _ => false
  }

  /** Null is a value of the annotation and meets the metadata around it. */
  ghost predicate TakesNull(d: Dialect, t: Ty, md: seq<Constraint>) {
    match t
    case Alias(u) => TakesNull(d, u, md)
    case Annotated(b, m) => TakesNull(d, b, m + md)
    case RequiredT(b) => TakesNull(d, b, md)
    case NotRequiredT(b) => TakesNull(d, b, md)
    case Union(args) => exists i :: 0 <= i < |args| && TakesNull(d, args[i], md)
    case _ => AdmitsNull(t) && Meets(d, md, JNull)
  }

  /**
   The value is a serialized value of the annotation and meets the metadata around
   it. Constraints on a union hold of the value as one of its arguments.
   */
  ghost predicate HasType(env: Env, d: Dialect, v: Json, t: Ty, md: seq<Constraint>)
    decreases v, t, 3
  {
    match t
    case Alias(u) => HasType(env, d, v, u, md)
    case Annotated(b, m) => HasType(env, d, v, b, m + md)
    case RequiredT(b) => HasType(env, d, v, b, md)
    case NotRequiredT(b) => HasType(env, d, v, b, md)
    case Union(args) => exists i :: 0 <= i < |args| && HasType(env, d, v, args[i], md)
    case DecimalT =>
      Shaped(env, d, v, t) && Meets(d, md, v) && MeetsBounds(d, md, JNum(d.decimal(v.s)))
    case _ => Shaped(env, d, v, t) && Meets(d, md, v)
  }

  /**
   The form of a value of an annotation that is no wrapper and no union. A decimal is text that
   stands for a number.
   */
  ghost predicate Shaped(env: Env, d: Dialect, v: Json, t: Ty)
    ensures Shaped(env, d, v, t) && t.DecimalT? ==> v.JStr?
    decreases v, t, 2
  {
    match t
    case AnyT => true
    case Literal(values) => exists i :: 0 <= i < |values| && v == Image(values[i])
    case ArrayOf(u) => v.JArr? && forall i :: 0 <= i < |v.items| ==> HasType(env, d, v.items[i], u, [])
    case TupleOf(parts) =>
      v.JArr? && |v.items| == |parts| && forall i :: 0 <= i < |parts| ==> HasType(env, d, v.items[i], parts[i], [])
    case Mapping(keys, u) =>
      v.JObj? && forall n :: n in v.fields ==>
        (keys.OpenKeys? || n in keys.names) && HasType(env, d, v.fields[n], u, [])
    case Record(n) => n in env && v.JObj? && KeysTyped(env, d, n, v) && Asked(d, env[n].demands, v)
    case DateTimeT => v.JStr? && d.conforms("date-time", v.s)
    case DecimalT => v.JStr? && d.conforms("decimal", v.s) && d.matches(PRICE_DECIMAL_PATTERN, v.s)
    case BoolT => v.JBool?
    case StrT => v.JStr?
    case IntT => v.JNum? && v.n.Floor as real == v.n
    case FloatT => v.JNum?
    case NoneT => v.JNull?
    case _ => false
  }

  /** Only declared keys, each as the class demands it. */
  ghost predicate KeysTyped(env: Env, d: Dialect, n: string, v: Json)
    requires n in env
    decreases v, Record(n), 1
  {
    && v.JObj?
    && (forall k :: k in v.fields ==> exists i :: 0 <= i < |env[n].fields| && env[n].fields[i].name == k)
    && forall i :: 0 <= i < |env[n].fields| ==> FieldTyped(env, d, n, i, v)
  }

  /** The demand that a record places on one of its keys. */
  ghost predicate FieldTyped(env: Env, d: Dialect, n: string, i: nat, v: Json)
    requires n in env && i < |env[n].fields| && v.JObj?
    decreases v, Record(n), 0
  {
    var f := env[n].fields[i];
    if f.name in v.fields then
      && HasType(env, d, v.fields[f.name], f.annotation, FieldMetadata(env[n], f))
      && (Omits(env[n], f) ==> !v.fields[f.name].JNull?)
      && Asked(d, f.demands, v.fields[f.name])
    else
      MayLack(d, env[n], f)
  }

  /** A key may be absent by its qualifier, or because its value is an omitted null. */
  ghost predicate MayLack(d: Dialect, decl: RecordDecl, f: Field) {
    || MayBeAbsent(decl, f)
    || (Omits(decl, f) && TakesNull(d, f.annotation, FieldMetadata(decl, f)) && Asked(d, f.demands, JNull))
  }

  // ----- Draft 2020-12 -----

  /** `type` (Validation 6.1.1); an integer is a number without a fraction. */
  ghost predicate KindHolds(k: JsonType, v: Json) {
    match k
    case NullType => v.JNull?
    case BooleanType => v.JBool?
    case IntegerType => v.JNum? && v.n.Floor as real == v.n
    case NumberType => v.JNum?
    case StringType => v.JStr?
    case ArrayType => v.JArr?
    case ObjectType => v.JObj?
  }

  /** Validation 6.2 for numbers, 6.3 for strings, 6.4 for arrays; other values are unaffected. */
  ghost predicate LimitsHold(d: Dialect, l: Limits, v: Json) {
    match v
    case JNum(x) =>
      && (l.minimum.Some? ==> x >= l.minimum.value)
      && (l.exclusiveMinimum.Some? ==> x > l.exclusiveMinimum.value)
      && (l.maximum.Some? ==> x <= l.maximum.value)
      && (l.exclusiveMaximum.Some? ==> x < l.exclusiveMaximum.value)
    case JStr(s) =>
      && (l.pattern.Some? ==> d.matches(l.pattern.value, s))
      && (l.minLength.Some? ==> |s| >= l.minLength.value)
      && (l.maxLength.Some? ==> |s| <= l.maxLength.value)
    case JArr(items) =>
      && (l.minItems.Some? ==> |items| >= l.minItems.value)
      && (l.maxItems.Some? ==> |items| <= l.maxItems.value)
    case _ => true
  }

  /** Keywords whose outcome needs no other schema. */
  ghost predicate AssertionsHold(d: Dialect, k: Keywords, v: Json) {
    && (k.kind.Some? ==> KindHolds(k.kind.value, v))
    && (k.constant.Some? ==> v == k.constant.value)
    && (k.enumeration.Some? ==> exists i :: 0 <= i < |k.enumeration.value| && v == k.enumeration.value[i])
    && LimitsHold(d, k.limits, v)
    && (v.JStr? && k.format.Some? ==> d.conforms(k.format.value, v.s))
  }

  /**
   Validation of an instance. `defs` is `$defs`; `seen` holds the references
   already followed for this same instance, so a chain of references that returns
   to itself without descending into the instance accepts nothing.
   */
  ghost predicate Validates(d: Dialect, defs: map<string, Schema>, s: Schema, v: Json, seen: set<string>)
    decreases v, defs.Keys - seen, s
  {
    match s
    case Flag(accepts) => accepts
    case Node(k) =>
      && AssertionsHold(d, k, v)
      && (k.anyOf.AnyOf? ==>
        exists i :: 0 <= i < |k.anyOf.branches| && Validates(d, defs, k.anyOf.branches[i], v, seen))
      && (k.ref.Some? ==>
        k.ref.value in defs && k.ref.value !in seen &&
        Validates(d, defs, defs[k.ref.value], v, seen + {k.ref.value}))
      && (v.JArr? ==>
        && (k.prefixItems.PrefixItems? ==>
          forall i :: 0 <= i < |k.prefixItems.schemas| && i < |v.items| ==>
            Validates(d, defs, k.prefixItems.schemas[i], v.items[i], {}))
        && (k.items.Some? ==>
          forall i :: (if k.prefixItems.PrefixItems? then |k.prefixItems.schemas| else 0) <= i < |v.items| ==>
            Validates(d, defs, k.items.value, v.items[i], {})))
      && (v.JObj? ==>
        && (k.properties.Properties? ==>
          forall n :: n in k.properties.schemas && n in v.fields ==>
            Validates(d, defs, k.properties.schemas[n], v.fields[n], {}))
        && (k.additionalProperties.Some? ==>
          forall n :: n in v.fields && !(k.properties.Properties? && n in k.properties.schemas) ==>
            Validates(d, defs, k.additionalProperties.value, v.fields[n], {}))
        && (forall i :: 0 <= i < |k.required| ==> k.required[i] in v.fields))
  }
}
