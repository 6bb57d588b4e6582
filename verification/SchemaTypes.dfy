/**
 The inputs and outputs of the JSON Schema compiler: JSON values, the graph of
 annotated Python types, and schemas as dictionaries of keywords.
 */
module SchemaTypes {
  import opened Options

  datatype Json =
    | JNull
    | JBool(b: bool)
    | JNum(n: real)
    | JStr(s: string)
    | JArr(items: seq<Json>)
    | JObj(fields: map<string, Json>)

  /** The attributes of one constraint object that the compiler reads. */
  datatype Bounds = Bounds(
    ge: Option<real>, gt: Option<real>, le: Option<real>, lt: Option<real>,
    pattern: Option<string>, minLength: Option<nat>, maxLength: Option<nat>)

  /**
   A constraint object: its bounds, those in its own `metadata` attribute, and the demands that
   no attribute shows, such as a validator function or the stripping of whitespace.
   */
  datatype Constraint = Constraint(own: Bounds, nested: seq<Bounds>, demands: seq<string>)

  /** A value of a `Literal` or of an enumeration member. */
  datatype Lit = LNull | LBool(b: bool) | LInt(i: int) | LFloat(x: real) | LStr(s: string)

  /** The arguments of a `Literal`, of which there is at least one. */
  type Names = names: seq<string> | |names| > 0 witness [""]

  /** Keys of a mapping: unrestricted, a direct `Literal`, or literals behind an alias or an enumeration. */
  datatype Keys = OpenKeys | LiteralKeys(names: Names) | NamedKeys(names: Names)

  /** An annotation. `ArrayOf` stands for `list[T]` and `tuple[T, ...]`, which the compiler treats alike. */
  datatype Ty =
    | AnyT
    | NeverT
    | Alias(target: Ty)
    | Annotated(base: Ty, metadata: seq<Constraint>)
    | RequiredT(base: Ty)
    | NotRequiredT(base: Ty)
    | Union(args: seq<Ty>)
    | Literal(values: seq<Lit>)
    | ArrayOf(item: Ty)
    | TupleOf(parts: seq<Ty>)
    | Mapping(keys: Keys, value: Ty)
    | Record(name: string)
    | DateTimeT
    | DecimalT
    | BoolT
    | StrT
    | IntT
    | FloatT
    | NoneT
    | Unsupported

  datatype RecordKind = Dataclass | Model | TypedDict(total: bool)

  /**
   `declaredTotal` is the totality of the class that declares the key, which a subclass inherits.
   The demands are the validators that the class attaches to the key.
   */
  datatype Field = Field(
    name: string, annotation: Ty, metadata: seq<Constraint>,
    omitNone: bool, declaredTotal: bool, description: Option<string>, demands: seq<string>)

  /** The demands of a class are its validators of whole records. */
  datatype RecordDecl = RecordDecl(kind: RecordKind, fields: seq<Field>, demands: seq<string>)

  /** Record classes by `__name__`. */
  type Env = map<string, RecordDecl>

  datatype JsonType = NullType | BooleanType | IntegerType | NumberType | StringType | ArrayType | ObjectType

  /** The keywords that `_apply_constraints` writes. */
  datatype Limits = Limits(
    minimum: Option<real>, exclusiveMinimum: Option<real>,
    maximum: Option<real>, exclusiveMaximum: Option<real>,
    pattern: Option<string>,
    minLength: Option<nat>, maxLength: Option<nat>,
    minItems: Option<nat>, maxItems: Option<nat>)

  datatype Branches = NoAnyOf | AnyOf(branches: seq<Schema>)
  datatype Prefix = NoPrefix | PrefixItems(schemas: seq<Schema>)
  datatype Properties = NoProperties | Properties(schemas: map<string, Schema>)

  /** A schema dictionary; an absent key is `None`, `NoAnyOf` and so on. */
  datatype Keywords = Keywords(
    kind: Option<JsonType>,
    constant: Option<Json>,
    enumeration: Option<seq<Json>>,
    anyOf: Branches,
    ref: Option<string>,
    items: Option<Schema>,
    prefixItems: Prefix,
    properties: Properties,
    additionalProperties: Option<Schema>,
    required: seq<string>,
    limits: Limits,
    format: Option<string>,
    description: Option<string>)

  /** A boolean schema or a dictionary. */
  datatype Schema = Flag(accepts: bool) | Node(kw: Keywords)

  const NO_LIMITS := Limits(None, None, None, None, None, None, None, None, None)

  const BLANK := Keywords(None, None, None, NoAnyOf, None, None, NoPrefix, NoProperties, None, [], NO_LIMITS, None,
    None)

  const NULL_SCHEMA := Node(BLANK.(kind := Some(NullType)))

  /** The regular expression of a serialized price. */
  const PRICE_DECIMAL_PATTERN := "^(?:-0(?:\\.0+)?|0(?:\\.\\d+)?|[1-9]\\d*(?:\\.\\d+)?)$"

  /**
   What the compiler only names or does not read: regular expressions, formats, the number that a
   decimal text stands for, and whether a value meets a demand.
   */
  datatype Dialect = Dialect(
    matches: (string, string) -> bool, conforms: (string, string) -> bool, decimal: string -> real,
    accepts: (string, Json) -> bool)

  function Image(l: Lit): Json {
    match l
    case LNull => JNull
    case LBool(b) => JBool(b)
    case LInt(i) => JNum(i as real)
    case LFloat(x) => JNum(x)
    case LStr(s) => JStr(s)
  }

  function Images(values: seq<Lit>): (r: seq<Json>)
  {
    seq(|values|, i requires 0 <= i < |values| => Image(values[i]))
  }

  /** Every bound in the metadata: the constraints themselves, then what each one nests. */
  function Flatten(md: seq<Constraint>): seq<Bounds> {
    Owned(md) + Nested(md)
  }

  function Owned(md: seq<Constraint>): seq<Bounds> {
    seq(|md|, i requires 0 <= i < |md| => md[i].own)
  }

  function Nested(md: seq<Constraint>): seq<Bounds> {
    if md == [] then [] else Nested(md[..|md| - 1]) + md[|md| - 1].nested
  }

  /** The metadata as far as the compiler reads it. */
  function Stripped(md: seq<Constraint>): (r: seq<Constraint>)
    ensures |r| == |md| && forall i :: 0 <= i < |md| ==> r[i] == md[i].(demands := [])
  {
    seq(|md|, i requires 0 <= i < |md| => md[i].(demands := []))
  }

  function FieldMetadata(decl: RecordDecl, f: Field): seq<Constraint> {
    if decl.kind.Model? then f.metadata else []
  }

  predicate Omits(decl: RecordDecl, f: Field) {
    decl.kind.Dataclass? && f.omitNone
  }

  /** The record names written in an annotation. */
  function RecordsIn(t: Ty): set<string> {
    match t
    case Alias(u) => RecordsIn(u)
    case Annotated(b, _) => RecordsIn(b)
    case RequiredT(b) => RecordsIn(b)
    case NotRequiredT(b) => RecordsIn(b)
    case Union(args) => set i, n | 0 <= i < |args| && n in RecordsIn(args[i]) :: n
    case ArrayOf(u) => RecordsIn(u)
    case TupleOf(parts) => set i, n | 0 <= i < |parts| && n in RecordsIn(parts[i]) :: n
    case Mapping(_, u) => RecordsIn(u)
    case Record(n) => {n}
    case _ => {}
  }

  function RecordsInAll(ts: seq<Ty>): set<string> {
    set i, n | 0 <= i < |ts| && n in RecordsIn(ts[i]) :: n
  }

  /** The record names written in the annotations of a class. */
  function Mentions(decl: RecordDecl): set<string> {
    set i, n | 0 <= i < |decl.fields| && n in RecordsIn(decl.fields[i].annotation) :: n
  }

  /** Every class that is mentioned exists. */
  ghost predicate Scoped(env: Env) {
    forall n :: n in env ==> Mentions(env[n]) <= env.Keys
  }

  /** A class declares each name once. */
  ghost predicate DistinctNames(decl: RecordDecl) {
    forall i, j :: 0 <= i < j < |decl.fields| ==> decl.fields[i].name != decl.fields[j].name
  }
}
