/**
 The emitted schemas mean what the annotations mean. No serialized value is ever
 rejected; and nothing else is accepted when the constraints survive emission.
 */
module SchemaFaithful {
  import opened Options
  import opened SchemaTypes
  import opened SchemaEmit
  import opened SchemaMeaning

  predicate IsWrapper(t: Ty) {
    t.Alias? || t.Annotated? || t.RequiredT? || t.NotRequiredT?
  }

  predicate IsContainer(t: Ty) {
    t.ArrayOf? || t.TupleOf? || t.Mapping? || t.Record? || t.Literal?
  }

  predicate IsText(t: Ty) {
    t.StrT? || t.DateTimeT? || t.DecimalT?
  }

  // ----- constraints -----

  lemma {:induction false} NestedMembers(md: seq<Constraint>, b: Bounds)
    ensures b in Nested(md) <==> exists i :: 0 <= i < |md| && b in md[i].nested
  {
    if md != [] {
      var init := md[..|md| - 1];
      NestedMembers(init, b);
      if i :| 0 <= i < |md| && b in md[i].nested {
        if i < |md| - 1 { assert init[i] == md[i]; }
      }
    }
  }

  /** The flattened list loses no bound and invents none. */
  lemma MeetsFlattened(d: Dialect, md: seq<Constraint>, v: Json)
    ensures MeetsBounds(d, md, v) <==> forall b :: b in Flatten(md) ==> Within(d, b, v)
  {
    forall b ensures b in Nested(md) <==> exists i :: 0 <= i < |md| && b in md[i].nested {
      NestedMembers(md, b);
    }
    assert forall i :: 0 <= i < |md| ==> md[i].own == Owned(md)[i];
    if forall b :: b in Flatten(md) ==> Within(d, b, v) {
      forall i | 0 <= i < |md|
        ensures Within(d, md[i].own, v) && forall j :: 0 <= j < |md[i].nested| ==> Within(d, md[i].nested[j], v)
      {
        assert Owned(md)[i] in Flatten(md);
        forall j | 0 <= j < |md[i].nested| ensures Within(d, md[i].nested[j], v) {
          assert md[i].nested[j] in Nested(md);
        }
      }
    }
  }

  lemma BoundsConcat(d: Dialect, m: seq<Constraint>, md: seq<Constraint>, v: Json)
    ensures MeetsBounds(d, m + md, v) <==> MeetsBounds(d, m, v) && MeetsBounds(d, md, v)
  {
    if MeetsBounds(d, m + md, v) {
      assert forall i :: 0 <= i < |m| ==> m[i] == (m + md)[i];
      assert forall i :: 0 <= i < |md| ==> md[i] == (m + md)[|m| + i];
    }
  }

  lemma DemandsConcat(d: Dialect, m: seq<Constraint>, md: seq<Constraint>, v: Json)
    ensures Demanded(d, m + md, v) <==> Demanded(d, m, v) && Demanded(d, md, v)
  {
    if Demanded(d, m + md, v) {
      assert forall i :: 0 <= i < |m| ==> m[i] == (m + md)[i];
      assert forall i :: 0 <= i < |md| ==> md[i] == (m + md)[|m| + i];
    }
  }

  lemma MeetsConcat(d: Dialect, m: seq<Constraint>, md: seq<Constraint>, v: Json)
    ensures Meets(d, m + md, v) <==> Meets(d, m, v) && Meets(d, md, v)
  {
    BoundsConcat(d, m, md, v);
    DemandsConcat(d, m, md, v);
  }

  /** Overwriting a keyword can only lose a bound, never add one. */
  lemma {:induction false} LimitsNeverTighter(d: Dialect, l: Limits, bs: seq<Bounds>, arrays: bool, v: Json)
    requires LimitsHold(d, l, v)
    requires forall b :: b in bs ==> Within(d, b, v)
    ensures LimitsHold(d, ApplyAll(l, bs, arrays), v)
  {
    if bs != [] {
      LimitsNeverTighter(d, l, bs[..|bs| - 1], arrays, v);
      assert bs[|bs| - 1] in bs;
    }
  }

  predicate KeepsNumber(f: Limits, b: Bounds) {
    && (b.ge.Some? ==> f.minimum.Some? && f.minimum.value >= b.ge.value)
    && (b.gt.Some? ==> f.exclusiveMinimum.Some? && f.exclusiveMinimum.value >= b.gt.value)
    && (b.le.Some? ==> f.maximum.Some? && f.maximum.value <= b.le.value)
    && (b.lt.Some? ==> f.exclusiveMaximum.Some? && f.exclusiveMaximum.value <= b.lt.value)
  }

  predicate KeepsText(f: Limits, b: Bounds) {
    && (b.pattern.Some? ==> f.pattern == b.pattern)
    && (b.minLength.Some? ==> f.minLength.Some? && f.minLength.value >= b.minLength.value)
    && (b.maxLength.Some? ==> f.maxLength.Some? && f.maxLength.value <= b.maxLength.value)
  }

  predicate KeepsItems(f: Limits, b: Bounds) {
    && (b.minLength.Some? ==> f.minItems.Some? && f.minItems.value >= b.minLength.value)
    && (b.maxLength.Some? ==> f.maxItems.Some? && f.maxItems.value <= b.maxLength.value)
  }

  predicate NoLength(b: Bounds) {
    b.minLength.None? && b.maxLength.None?
  }

  datatype Sort = NumberSort | TextSort | ArraySort | ObjectSort

  /** Whether some value of the annotation may be of a constrained sort. */
  predicate MayBe(t: Ty, sort: Sort) {
    match t
    case AnyT => true
    case Alias(u) => MayBe(u, sort)
    case Annotated(b, _) => MayBe(b, sort)
    case RequiredT(b) => MayBe(b, sort)
    case NotRequiredT(b) => MayBe(b, sort)
    case Union(args) => exists i :: 0 <= i < |args| && MayBe(args[i], sort)
    case Literal(values) => exists i :: 0 <= i < |values| && SortOf(Image(values[i])) == Some(sort)
    case ArrayOf(_) => sort == ArraySort
    case TupleOf(_) => sort == ArraySort
    case Mapping(_, _) => sort == ObjectSort
    case Record(_) => sort == ObjectSort
    case DateTimeT => sort == TextSort
    case DecimalT => sort == TextSort
    case StrT => sort == TextSort
    case IntT => sort == NumberSort
    case FloatT => sort == NumberSort
    case _ => false
  }

  function SortOf(v: Json): Option<Sort> {
    match v
    case JNum(_) => Some(NumberSort)
    case JStr(_) => Some(TextSort)
    case JArr(_) => Some(ArraySort)
    case JObj(_) => Some(ObjectSort)
    case _ => None
  }

  lemma {:induction false} SortsOfValues(env: Env, d: Dialect, v: Json, t: Ty, md: seq<Constraint>)
    requires HasType(env, d, v, t, md) && SortOf(v).Some?
    ensures MayBe(t, SortOf(v).value)
    decreases t
  {
    match t
    case Alias(u) => SortsOfValues(env, d, v, u, md);
    case Annotated(b, m) => SortsOfValues(env, d, v, b, m + md);
    case RequiredT(b) => SortsOfValues(env, d, v, b, md);
    case NotRequiredT(b) => SortsOfValues(env, d, v, b, md);
    case Union(args) =>
      var i :| 0 <= i < |args| && HasType(env, d, v, args[i], md);
      SortsOfValues(env, d, v, args[i], md);
    case _ =>
  }

  // ----- metadata around an annotation -----

  /** Without metadata, only the form counts. */
  lemma ShapedTyped(env: Env, d: Dialect, v: Json, t: Ty)
    requires !IsWrapper(t) && !t.Union?
    ensures HasType(env, d, v, t, []) <==> Shaped(env, d, v, t)
  {
  }

  lemma PlainTyped(env: Env, d: Dialect, v: Json, t: Ty, md: seq<Constraint>)
    requires !IsWrapper(t) && !t.Union?
    ensures HasType(env, d, v, t, md) <==>
            && Shaped(env, d, v, t) && Meets(d, md, v)
            && (t.DecimalT? ==> MeetsBounds(d, md, JNum(d.decimal(v.s))))
  {
  }

  lemma RecordTyped(env: Env, d: Dialect, v: Json, n: string)
    requires n in env
    ensures HasType(env, d, v, Record(n), []) <==> KeysTyped(env, d, n, v) && Asked(d, env[n].demands, v)
  {
    ShapedTyped(env, d, v, Record(n));
  }

  /** A typed value meets all the metadata around it, and is typed under less of it. */
  lemma {:induction false} HasTypeMeets(env: Env, d: Dialect, v: Json, t: Ty, m: seq<Constraint>, md: seq<Constraint>)
    requires HasType(env, d, v, t, m + md)
    ensures HasType(env, d, v, t, m) && Meets(d, md, v)
    decreases t
  {
    if t.Annotated? {
      assert t.metadata + (m + md) == (t.metadata + m) + md;
      HasTypeMeets(env, d, v, t.base, t.metadata + m, md);
    } else if t.Alias? {
      HasTypeMeets(env, d, v, t.target, m, md);
    } else if IsWrapper(t) {
      HasTypeMeets(env, d, v, t.base, m, md);
    } else if t.Union? {
      var i :| 0 <= i < |t.args| && HasType(env, d, v, t.args[i], m + md);
      HasTypeMeets(env, d, v, t.args[i], m, md);
    } else {
      MeetsConcat(d, m, md, v);
      if t.DecimalT? { BoundsConcat(d, m, md, JNum(d.decimal(v.s))); }
    }
  }

  /** Whether some value of the annotation may be a decimal text. */
  predicate Decimals(t: Ty) {
    match t
    case Alias(u) => Decimals(u)
    case Annotated(b, _) => Decimals(b)
    case RequiredT(b) => Decimals(b)
    case NotRequiredT(b) => Decimals(b)
    case Union(args) => exists i :: 0 <= i < |args| && Decimals(args[i])
    case DecimalT => true
    case _ => false
  }

  /** The bounds that every price meets, so that dropping them is harmless. */
  predicate KeepsDecimal(b: Bounds) {
    && (b.ge.Some? ==> b.ge.value <= 0.0)
    && (b.gt.Some? ==> b.gt.value < 0.0)
    && b.le.None? && b.lt.None?
  }

  /** Texts of the price pattern stand for numbers that are not negative. */
  ghost predicate NonNegative(d: Dialect) {
    forall s :: d.matches(PRICE_DECIMAL_PATTERN, s) ==> d.decimal(s) >= 0.0
  }

  lemma PriceMeets(d: Dialect, md: seq<Constraint>, x: real)
    requires x >= 0.0 && forall b :: b in Flatten(md) ==> KeepsDecimal(b)
    ensures MeetsBounds(d, md, JNum(x))
  {
    MeetsFlattened(d, md, JNum(x));
    forall b | b in Flatten(md) ensures Within(d, b, JNum(x)) { assert KeepsDecimal(b); }
  }

  /**
   More metadata that a typed value meets can be put around it, where it asks no more of a decimal
   than any price gives.
   */
  lemma {:induction false} HasTypeMore(env: Env, d: Dialect, v: Json, t: Ty, m: seq<Constraint>, md: seq<Constraint>)
    requires HasType(env, d, v, t, m) && Meets(d, md, v)
    requires v.JStr? && Decimals(t) ==> NonNegative(d) && forall b :: b in Flatten(md) ==> KeepsDecimal(b)
    ensures HasType(env, d, v, t, m + md)
    decreases t
  {
    if t.Annotated? {
      assert t.metadata + (m + md) == (t.metadata + m) + md;
      HasTypeMore(env, d, v, t.base, t.metadata + m, md);
    } else if t.Alias? {
      HasTypeMore(env, d, v, t.target, m, md);
    } else if IsWrapper(t) {
      HasTypeMore(env, d, v, t.base, m, md);
    } else if t.Union? {
      var i :| 0 <= i < |t.args| && HasType(env, d, v, t.args[i], m);
      HasTypeMore(env, d, v, t.args[i], m, md);
    } else {
      MeetsConcat(d, m, md, v);
      if t.DecimalT? {
        PriceMeets(d, md, d.decimal(v.s));
        BoundsConcat(d, m, md, JNum(d.decimal(v.s)));
      }
    }
  }

  lemma HasTypeBare(env: Env, d: Dialect, v: Json, t: Ty, md: seq<Constraint>)
    requires HasType(env, d, v, t, md)
    ensures HasType(env, d, v, t, []) && Meets(d, md, v)
  {
    assert [] + md == md;
    HasTypeMeets(env, d, v, t, [], md);
  }

  /** The final keywords are at least as tight as one bound, for every sort the annotation allows. */
  predicate KeepsBound(t: Ty, f: Limits, b: Bounds) {
    && (MayBe(t, NumberSort) ==> KeepsNumber(f, b))
    && (MayBe(t, TextSort) ==> KeepsText(f, b))
    && (MayBe(t, ArraySort) ==> KeepsItems(f, b))
    && (MayBe(t, ObjectSort) ==> NoLength(b))
    && (Decimals(t) ==> KeepsDecimal(b))
  }

  predicate KeepsBounds(t: Ty, md: seq<Constraint>) {
    forall i :: 0 <= i < |Flatten(md)| ==> KeepsBound(t, EmitLimits(t, md), Flatten(md)[i])
  }

  /** The demands that the compiler does not read follow from the annotation and the keywords. */
  ghost predicate DemandsImplied(env: Env, d: Dialect, t: Ty, md: seq<Constraint>) {
    forall v :: HasType(env, d, v, t, []) && LimitsHold(d, EmitLimits(t, md), v) ==> Demanded(d, md, v)
  }

  /** No bound is dropped, loosened or written under the wrong keyword, and no unread demand is needed. */
  ghost predicate Keeps(env: Env, d: Dialect, t: Ty, md: seq<Constraint>) {
    KeepsBounds(t, md) && DemandsImplied(env, d, t, md)
  }

  /** Keywords at least as tight as every bound imply all the constraints. */
  lemma KeptBoundsHold(env: Env, d: Dialect, t: Ty, md: seq<Constraint>, v: Json)
    requires HasType(env, d, v, t, []) && Keeps(env, d, t, md) && LimitsHold(d, EmitLimits(t, md), v) && NonNegative(d)
    ensures HasType(env, d, v, t, md)
  {
    MeetsFlattened(d, md, v);
    forall b | b in Flatten(md) ensures Within(d, b, v) && (Decimals(t) ==> KeepsDecimal(b)) {
      var i :| 0 <= i < |Flatten(md)| && Flatten(md)[i] == b;
      assert KeepsBound(t, EmitLimits(t, md), Flatten(md)[i]);
      if SortOf(v).Some? { SortsOfValues(env, d, v, t, []); }
    }
    HasTypeMore(env, d, v, t, [], md);
    assert [] + md == md;
  }

  /** Validation from the start, before any reference has been followed. */
  ghost predicate Passes(d: Dialect, defs: map<string, Schema>, s: Schema, v: Json) {
    Validates(d, defs, s, v, {})
  }

  /** A value validates against the schema emitted for an annotation. */
  ghost predicate Conforms(d: Dialect, defs: map<string, Schema>, t: Ty, md: seq<Constraint>, v: Json) {
    Passes(d, defs, Emit(t, md), v)
  }

  /** A value of an annotation that meets the metadata around it. */
  ghost predicate IsValue(env: Env, d: Dialect, t: Ty, md: seq<Constraint>, v: Json) {
    HasType(env, d, v, t, md)
  }

  lemma ValueBare(env: Env, d: Dialect, t: Ty, md: seq<Constraint>, v: Json)
    requires IsValue(env, d, t, md, v)
    ensures IsValue(env, d, t, [], v) && Meets(d, md, v)
  {
    HasTypeBare(env, d, v, t, md);
  }

  lemma ValueMore(env: Env, d: Dialect, t: Ty, md: seq<Constraint>, v: Json)
    requires IsValue(env, d, t, [], v) && Meets(d, md, v) && (v.JStr? ==> !Decimals(t))
    ensures IsValue(env, d, t, md, v)
  {
    HasTypeMore(env, d, v, t, [], md);
    assert [] + md == md;
  }

  // ----- omitted null -----

  lemma {:induction false} NonNullMembers(branches: seq<Schema>, s: Schema)
    ensures s in NonNull(branches) <==> s in branches && s != NULL_SCHEMA
  {
    if branches != [] {
      NonNullMembers(branches[..|branches| - 1], s);
    }
  }

  lemma NullSchema(d: Dialect, defs: map<string, Schema>, v: Json)
    ensures Passes(d, defs, NULL_SCHEMA, v) <==> v.JNull?
  {
  }

  /** `anyOf` beside limits and nothing else that constrains the instance. */
  lemma AnyOfForm(d: Dialect, defs: map<string, Schema>, branches: seq<Schema>, l: Limits, v: Json)
    ensures Passes(d, defs, Node(BLANK.(anyOf := AnyOf(branches), limits := l)), v) <==>
            LimitsHold(d, l, v) && exists i :: 0 <= i < |branches| && Passes(d, defs, branches[i], v)
  {
  }

  /** Removing the null branch rejects no value other than null. */
  lemma WithoutNullKeeps(d: Dialect, defs: map<string, Schema>, branches: seq<Schema>, l: Limits, v: Json)
    requires Passes(d, defs, Node(BLANK.(anyOf := AnyOf(branches), limits := l)), v) && !v.JNull?
    ensures Passes(d, defs, WithoutNull(Node(BLANK.(anyOf := AnyOf(branches), limits := l))), v)
  {
    AnyOfForm(d, defs, branches, l, v);
    var i :| 0 <= i < |branches| && Passes(d, defs, branches[i], v);
    NullSchema(d, defs, v);
    NonNullMembers(branches, branches[i]);
    var kept := NonNull(branches);
    AnyOfForm(d, defs, kept, l, v);
    var j :| 0 <= j < |kept| && kept[j] == branches[i];
    assert Passes(d, defs, kept[j], v);
  }

  /** What survives accepts null exactly when a surviving branch does. */
  lemma WithoutNullOnNull(d: Dialect, defs: map<string, Schema>, branches: seq<Schema>, l: Limits)
    ensures Passes(d, defs, WithoutNull(Node(BLANK.(anyOf := AnyOf(branches), limits := l))), JNull) <==>
            exists i :: 0 <= i < |branches| && branches[i] != NULL_SCHEMA && Passes(d, defs, branches[i], JNull)
  {
    var kept := NonNull(branches);
    AnyOfForm(d, defs, kept, l, JNull);
    forall s ensures s in kept <==> s in branches && s != NULL_SCHEMA { NonNullMembers(branches, s); }
    if i :| 0 <= i < |branches| && branches[i] != NULL_SCHEMA && Passes(d, defs, branches[i], JNull) {
      assert branches[i] in kept;
    }
    if Passes(d, defs, WithoutNull(Node(BLANK.(anyOf := AnyOf(branches), limits := l))), JNull) {
      var j :| 0 <= j < |kept| && Passes(d, defs, kept[j], JNull);
      assert kept[j] in branches;
    }
  }

  /** A key whose null is omitted: a plain union in which only the null branch accepts null. */
  predicate OmitsCleanly(t: Ty, md: seq<Constraint>) {
    var s := Emit(t, md);
    && AdmitsNull(t)
    && s.Node? && s.kw.anyOf.AnyOf?
    && (|NonNull(s.kw.anyOf.branches)| == 1 ==> s.kw.limits == NO_LIMITS)
    && NullOnlyByName(t)
  }

  /** Every union argument that admits null is compiled to exactly `{"type": "null"}`. */
  predicate NullOnlyByName(t: Ty) {
    match t
    case Alias(u) => NullOnlyByName(u)
    case Annotated(b, _) => NullOnlyByName(b)
    case RequiredT(b) => NullOnlyByName(b)
    case NotRequiredT(b) => NullOnlyByName(b)
    case Union(args) => forall i :: 0 <= i < |args| && AdmitsNull(args[i]) ==> Emit(args[i], []) == NULL_SCHEMA
    case _ => true
  }

  /** Only a union, behind any wrappers, is emitted with `anyOf`. */
  lemma {:induction false} UnionBehind(t: Ty, md: seq<Constraint>) returns (u: Ty, umd: seq<Constraint>)
    requires Emit(t, md).Node? && Emit(t, md).kw.anyOf.AnyOf?
    ensures u.Union? && Emit(t, md) == Emit(u, umd) && NullOnlyByName(t) == NullOnlyByName(u)
    ensures RecordsIn(u) == RecordsIn(t) && AdmitsNull(u) == AdmitsNull(t)
    ensures Emit(t, md) == Node(BLANK.(anyOf := Emit(t, md).kw.anyOf, limits := Emit(t, md).kw.limits))
    decreases t
  {
    match t
    case Alias(b) => u, umd := UnionBehind(b, md);
    case Annotated(b, m) => u, umd := UnionBehind(b, m + md);
    case RequiredT(b) => u, umd := UnionBehind(b, md);
    case NotRequiredT(b) => u, umd := UnionBehind(b, md);
    case Union(_) => u, umd := t, md;
    case Mapping(keys, _) => assert false;
    case _ => assert false;
  }

  lemma OmittedKeeps(d: Dialect, defs: map<string, Schema>, t: Ty, md: seq<Constraint>, v: Json)
    requires Conforms(d, defs, t, md, v) && !v.JNull?
    ensures Passes(d, defs, WithoutNull(Emit(t, md)), v)
  {
    var s := Emit(t, md);
    assert Passes(d, defs, s, v);
    if s.Node? && s.kw.anyOf.AnyOf? {
      var u, umd := UnionBehind(t, md);
      WithoutNullKeeps(d, defs, s.kw.anyOf.branches, s.kw.limits, v);
    } else {
      assert WithoutNull(s) == s;
    }
  }

  // ----- records -----

  lemma {:induction false} PropertyOf(decl: RecordDecl, k: nat, i: nat)
    requires DistinctNames(decl) && i < k <= |decl.fields|
    ensures decl.fields[i].name in PropertiesOf(decl, k)
    ensures PropertiesOf(decl, k)[decl.fields[i].name] == FieldSchema(decl, decl.fields[i])
  {
    if i < k - 1 { PropertyOf(decl, k - 1, i); }
  }

  lemma {:induction false} PropertyNames(decl: RecordDecl, k: nat, n: string)
    requires k <= |decl.fields|
    ensures n in PropertiesOf(decl, k) <==> exists i :: 0 <= i < k && decl.fields[i].name == n
  {
    if k > 0 { PropertyNames(decl, k - 1, n); }
  }

  lemma {:induction false} RequiredNames(decl: RecordDecl, k: nat, n: string)
    requires k <= |decl.fields|
    ensures n in RequiredOf(decl, k) <==>
            exists i :: 0 <= i < k && decl.fields[i].name == n &&
                        !LeavesOptional(decl, decl.fields[i]) && !Omits(decl, decl.fields[i])
  {
    if k > 0 {
      RequiredNames(decl, k - 1, n);
      assert RequiredOf(decl, k) == RequiredOf(decl, k - 1) +
        (if LeavesOptional(decl, decl.fields[k - 1]) || Omits(decl, decl.fields[k - 1]) then []
          else [decl.fields[k - 1].name]);
    }
  }

  /** `$defs` holds, for each of its names, the schema of that class and everything it mentions. */
  ghost predicate Resolved(env: Env, defs: map<string, Schema>) {
    forall n :: n in defs ==> n in env && defs[n] == ObjectOf(env[n]) && Mentions(env[n]) <= defs.Keys
  }

  /** Each class names a key once and never has a key that may be absent but is listed as required. */
  ghost predicate DeclaredClass(decl: RecordDecl) {
    && DistinctNames(decl)
    && forall i :: 0 <= i < |decl.fields| && MayBeAbsent(decl, decl.fields[i]) ==> LeavesOptional(decl, decl.fields[i])
  }

  ghost predicate Declared(env: Env, names: set<string>) {
    forall n :: n in names && n in env ==> DeclaredClass(env[n])
  }

  lemma Redescribed(d: Dialect, defs: map<string, Schema>, s: Schema, description: Option<string>, v: Json)
    ensures Passes(d, defs, Describe(s, description), v) <==> Passes(d, defs, s, v)
  {
  }

  lemma LiteralExact(d: Dialect, defs: map<string, Schema>, values: seq<Lit>, v: Json)
    ensures Passes(d, defs, LiteralSchema(values), v) <==> exists i :: 0 <= i < |values| && v == Image(values[i])
  {
    if i :| 0 <= i < |values| && v == Image(values[i]) {
      assert Images(values)[i] == Image(values[i]);
      assert LiteralKind(values).Some? ==> KindHolds(LiteralKind(values).value, Image(values[i]));
    }
  }

  // ----- one constructor at a time -----

  lemma UnionForm(d: Dialect, defs: map<string, Schema>, args: seq<Ty>, md: seq<Constraint>, v: Json)
    ensures Conforms(d, defs, Union(args), md, v) <==>
            && LimitsHold(d, EmitLimits(Union(args), md), v)
            && exists i :: 0 <= i < |args| && Conforms(d, defs, args[i], [], v)
  {
    var branches := Emit(Union(args), md).kw.anyOf.branches;
    AnyOfForm(d, defs, branches, EmitLimits(Union(args), md), v);
    assert |branches| == |args| && forall i :: 0 <= i < |args| ==> branches[i] == Emit(args[i], []);
  }

  lemma ArrayForm(d: Dialect, defs: map<string, Schema>, u: Ty, md: seq<Constraint>, v: Json)
    ensures Conforms(d, defs, ArrayOf(u), md, v) <==>
            && v.JArr?
            && LimitsHold(d, EmitLimits(ArrayOf(u), md), v)
            && forall i :: 0 <= i < |v.items| ==> Conforms(d, defs, u, [], v.items[i])
  {
  }

  lemma TupleForm(d: Dialect, defs: map<string, Schema>, parts: seq<Ty>, md: seq<Constraint>, v: Json)
    ensures Conforms(d, defs, TupleOf(parts), md, v) <==>
            && v.JArr?
            && LimitsHold(d, EmitLimits(TupleOf(parts), md), v)
            && forall i :: 0 <= i < |parts| && i < |v.items| ==> Conforms(d, defs, parts[i], [], v.items[i])
  {
    var schemas := Emit(TupleOf(parts), md).kw.prefixItems.schemas;
    assert |schemas| == |parts| && forall i :: 0 <= i < |parts| ==> schemas[i] == Emit(parts[i], []);
  }

  lemma MappingForm(d: Dialect, defs: map<string, Schema>, keys: Keys, u: Ty, md: seq<Constraint>, v: Json)
    ensures Conforms(d, defs, Mapping(keys, u), md, v) <==>
            && v.JObj?
            && forall n :: n in v.fields ==>
                 (keys.LiteralKeys? ==> n in keys.names) && Conforms(d, defs, u, [], v.fields[n])
  {
    var s := Emit(Mapping(keys, u), md);
    if keys.LiteralKeys? {
      var schemas := s.kw.properties.schemas;
      assert forall n :: n in keys.names <==> n in schemas;
      if v.JObj? {
        forall n | n in v.fields && n !in schemas ensures !Validates(d, defs, Flag(false), v.fields[n], {}) {}
      }
    }
  }

  lemma ObjectForm(d: Dialect, defs: map<string, Schema>, decl: RecordDecl, v: Json, seen: set<string>)
    requires DistinctNames(decl)
    ensures Validates(d, defs, ObjectOf(decl), v, seen) <==>
            && v.JObj?
            && (forall k :: k in v.fields ==> exists i :: 0 <= i < |decl.fields| && decl.fields[i].name == k)
            && forall i :: 0 <= i < |decl.fields| ==>
                 if decl.fields[i].name in v.fields
                 then Passes(d, defs, FieldSchema(decl, decl.fields[i]), v.fields[decl.fields[i].name])
                 else LeavesOptional(decl, decl.fields[i]) || Omits(decl, decl.fields[i])
  {
    var count := |decl.fields|;
    var properties := PropertiesOf(decl, count);
    var required := RequiredOf(decl, count);
    forall n ensures n in properties <==> exists i :: 0 <= i < count && decl.fields[i].name == n {
      PropertyNames(decl, count, n);
    }
    forall i | 0 <= i < count
      ensures decl.fields[i].name in properties && properties[decl.fields[i].name] == FieldSchema(decl, decl.fields[i])
    {
      PropertyOf(decl, count, i);
    }
    RequiredForm(decl, v);
    ClosedObjectForm(d, defs, properties, required, v, seen);
  }

  lemma ClosedObjectForm(
    d: Dialect, defs: map<string, Schema>, properties: map<string, Schema>, required: seq<string>, v: Json,
    seen: set<string>)
    ensures Validates(d, defs, ClosedObject(properties, required), v, seen) <==>
            && v.JObj?
            && (forall n :: n in v.fields ==> n in properties && Passes(d, defs, properties[n], v.fields[n]))
            && (forall n :: n in required ==> n in v.fields)
  {
    if v.JObj? {
      forall n | n in v.fields && n !in properties ensures !Validates(d, defs, Flag(false), v.fields[n], {}) {}
    }
  }

  lemma RequiredForm(decl: RecordDecl, v: Json)
    requires DistinctNames(decl)
    ensures v.JObj? ==>
            ((forall n :: n in RequiredOf(decl, |decl.fields|) ==> n in v.fields) <==>
             forall i :: 0 <= i < |decl.fields| && decl.fields[i].name !in v.fields ==>
               LeavesOptional(decl, decl.fields[i]) || Omits(decl, decl.fields[i]))
  {
    forall n
      ensures n in RequiredOf(decl, |decl.fields|) <==>
              exists i :: 0 <= i < |decl.fields| && decl.fields[i].name == n &&
                          !LeavesOptional(decl, decl.fields[i]) && !Omits(decl, decl.fields[i])
    {
      RequiredNames(decl, |decl.fields|, n);
    }
  }

  /** A dictionary with no keyword that applies another schema. */
  lemma PlainForm(d: Dialect, defs: map<string, Schema>, k: Keywords, v: Json)
    requires k.anyOf.NoAnyOf? && k.ref.None? && k.items.None? && k.prefixItems.NoPrefix?
    requires k.properties.NoProperties? && k.additionalProperties.None? && k.required == []
    ensures Passes(d, defs, Node(k), v) <==> AssertionsHold(d, k, v)
  {
  }

  lemma TextForm(env: Env, d: Dialect, defs: map<string, Schema>, t: Ty, md: seq<Constraint>, v: Json)
    requires IsText(t)
    ensures Conforms(d, defs, t, md, v) <==> Shaped(env, d, v, t) && LimitsHold(d, EmitLimits(t, md), v)
  {
    PlainForm(d, defs, Emit(t, md).kw, v);
  }

  lemma ScalarForm(env: Env, d: Dialect, defs: map<string, Schema>, t: Ty, md: seq<Constraint>, v: Json)
    requires !IsContainer(t) && !IsWrapper(t) && !IsText(t) && !t.Union?
    ensures Conforms(d, defs, t, md, v) <==> Shaped(env, d, v, t) && LimitsHold(d, EmitLimits(t, md), v)
  {
    var s := Emit(t, md);
    if s.Node? { PlainForm(d, defs, s.kw, v); }
  }

  lemma EmittedLimitsHold(env: Env, d: Dialect, t: Ty, md: seq<Constraint>, v: Json)
    requires t.TupleOf? || t.DecimalT? ==> Shaped(env, d, v, t)
    requires MeetsBounds(d, md, v)
    ensures LimitsHold(d, EmitLimits(t, md), v)
  {
    MeetsFlattened(d, md, v);
    match t
    case TupleOf(parts) =>
      LimitsNeverTighter(d, NO_LIMITS.(minItems := Some(|parts|), maxItems := Some(|parts|)), Flatten(md), true, v);
    case DecimalT =>
    case _ =>
      LimitsNeverTighter(d, NO_LIMITS, Flatten(md), CountsItems(t), v);
  }

  // ----- the two theorems -----

  /** Every serialized value of an annotation validates, whatever its constraints. */
  lemma {:induction false} Accepts(env: Env, d: Dialect, defs: map<string, Schema>, t: Ty, md: seq<Constraint>, v: Json)
    requires Declared(env, defs.Keys) && Resolved(env, defs) && RecordsIn(t) <= defs.Keys
    requires HasType(env, d, v, t, md)
    ensures Conforms(d, defs, t, md, v)
    decreases v, t, 3
  {
    if IsWrapper(t) {
      match t
      case Alias(u) => Accepts(env, d, defs, u, md, v);
      case Annotated(b, m) => Accepts(env, d, defs, b, m + md, v);
      case RequiredT(b) => Accepts(env, d, defs, b, md, v);
      case NotRequiredT(b) => Accepts(env, d, defs, b, md, v);
    } else {
      HasTypeBare(env, d, v, t, md);
      if t.Union? {
        AcceptsUnion(env, d, defs, t.args, md, v);
      } else {
        ShapedTyped(env, d, v, t);
        EmittedLimitsHold(env, d, t, md, v);
        if IsContainer(t) {
          AcceptsContainer(env, d, defs, t, md, v);
        } else if IsText(t) {
          TextForm(env, d, defs, t, md, v);
        } else {
          ScalarForm(env, d, defs, t, md, v);
        }
      }
    }
  }

  lemma {:induction false} AcceptsUnion(
    env: Env, d: Dialect, defs: map<string, Schema>, args: seq<Ty>, md: seq<Constraint>, v: Json)
    requires Declared(env, defs.Keys) && Resolved(env, defs) && RecordsIn(Union(args)) <= defs.Keys
    requires HasType(env, d, v, Union(args), []) && Meets(d, md, v)
    ensures Conforms(d, defs, Union(args), md, v)
    decreases v, Union(args), 2
  {
    var i :| 0 <= i < |args| && HasType(env, d, v, args[i], []);
    assert RecordsIn(args[i]) <= RecordsIn(Union(args));
    Accepts(env, d, defs, args[i], [], v);
    EmittedLimitsHold(env, d, Union(args), md, v);
    UnionForm(d, defs, args, md, v);
  }

  lemma {:induction false} AcceptsContainer(
    env: Env, d: Dialect, defs: map<string, Schema>, t: Ty, md: seq<Constraint>, v: Json)
    requires Declared(env, defs.Keys) && Resolved(env, defs) && RecordsIn(t) <= defs.Keys && IsContainer(t)
    requires Shaped(env, d, v, t) && LimitsHold(d, EmitLimits(t, md), v)
    ensures Conforms(d, defs, t, md, v)
    decreases v, t, 2
  {
    match t
    case Literal(values) => LiteralExact(d, defs, values, v);
    case ArrayOf(u) =>
      forall i | 0 <= i < |v.items| ensures Conforms(d, defs, u, [], v.items[i]) {
        Accepts(env, d, defs, u, [], v.items[i]);
      }
      ArrayForm(d, defs, u, md, v);
    case TupleOf(parts) =>
      forall i | 0 <= i < |parts| ensures Conforms(d, defs, parts[i], [], v.items[i]) {
        assert RecordsIn(parts[i]) <= RecordsIn(t);
        Accepts(env, d, defs, parts[i], [], v.items[i]);
      }
      TupleForm(d, defs, parts, md, v);
    case Mapping(keys, u) =>
      forall n | n in v.fields ensures Conforms(d, defs, u, [], v.fields[n]) {
        Accepts(env, d, defs, u, [], v.fields[n]);
      }
      MappingForm(d, defs, keys, u, md, v);
    case Record(n) =>
      AcceptsRecord(env, d, defs, n, v, {n});
      RecordForm(env, d, defs, n, md, v);
  }

  /** A reference hop: the definition is itself not a reference, so the chain ends at once. */
  lemma RecordForm(env: Env, d: Dialect, defs: map<string, Schema>, n: string, md: seq<Constraint>, v: Json)
    requires Resolved(env, defs) && n in defs
    ensures Conforms(d, defs, Record(n), md, v) <==> Validates(d, defs, ObjectOf(env[n]), v, {n})
  {
    assert {} + {n} == {n};
  }

  lemma {:induction false} AcceptsRecord(
    env: Env, d: Dialect, defs: map<string, Schema>, n: string, v: Json, seen: set<string>)
    requires Declared(env, defs.Keys) && Resolved(env, defs) && n in env && DeclaredClass(env[n]) &&
             Mentions(env[n]) <= defs.Keys
    requires KeysTyped(env, d, n, v)
    ensures Validates(d, defs, ObjectOf(env[n]), v, seen)
    decreases v, Record(n), 1
  {
    var decl := env[n];
    forall i | 0 <= i < |decl.fields|
      ensures if decl.fields[i].name in v.fields
              then Passes(d, defs, FieldSchema(decl, decl.fields[i]), v.fields[decl.fields[i].name])
              else LeavesOptional(decl, decl.fields[i]) || Omits(decl, decl.fields[i])
    {
      assert FieldTyped(env, d, n, i, v);
      if decl.fields[i].name in v.fields { AcceptsField(env, d, defs, n, i, v); }
    }
    ObjectForm(d, defs, decl, v, seen);
  }

  lemma {:induction false} AcceptsField(env: Env, d: Dialect, defs: map<string, Schema>, n: string, i: nat, v: Json)
    requires Declared(env, defs.Keys) && Resolved(env, defs) && n in env && DeclaredClass(env[n]) &&
             Mentions(env[n]) <= defs.Keys
    requires v.JObj? && i < |env[n].fields| && env[n].fields[i].name in v.fields && FieldTyped(env, d, n, i, v)
    ensures Passes(d, defs, FieldSchema(env[n], env[n].fields[i]), v.fields[env[n].fields[i].name])
    decreases v, Record(n), 0
  {
    var f := env[n].fields[i];
    var s := Emit(f.annotation, FieldMetadata(env[n], f));
    assert RecordsIn(f.annotation) <= Mentions(env[n]);
    Accepts(env, d, defs, f.annotation, FieldMetadata(env[n], f), v.fields[f.name]);
    if Omits(env[n], f) {
      OmittedKeeps(d, defs, f.annotation, FieldMetadata(env[n], f), v.fields[f.name]);
      Redescribed(d, defs, WithoutNull(s), f.description, v.fields[f.name]);
    } else {
      Redescribed(d, defs, s, f.description, v.fields[f.name]);
    }
  }

  // ----- exactness -----

  /** The tuple's own arity survives the length bounds applied after it. */
  predicate KeepsArity(f: Limits, n: nat) {
    f.minItems.Some? && f.minItems.value >= n && f.maxItems.Some? && f.maxItems.value <= n
  }

  /** Every constraint survives emission or is not needed, and literal keys are visible. */
  ghost predicate Faithful(env: Env, d: Dialect, t: Ty, md: seq<Constraint>) {
    match t
    case Alias(u) => Faithful(env, d, u, md)
    case Annotated(b, m) => Faithful(env, d, b, m + md)
    case RequiredT(b) => Faithful(env, d, b, md)
    case NotRequiredT(b) => Faithful(env, d, b, md)
    case Union(args) => Keeps(env, d, t, md) && forall i :: 0 <= i < |args| ==> Faithful(env, d, args[i], [])
    case ArrayOf(u) => Keeps(env, d, t, md) && Faithful(env, d, u, [])
    case TupleOf(parts) =>
      && Keeps(env, d, t, md)
      && KeepsArity(EmitLimits(t, md), |parts|)
      && forall i :: 0 <= i < |parts| ==> Faithful(env, d, parts[i], [])
    case Mapping(keys, u) => Keeps(env, d, t, md) && !keys.NamedKeys? && Faithful(env, d, u, [])
    case _ => Keeps(env, d, t, md)
  }

  ghost predicate FaithfulField(env: Env, d: Dialect, decl: RecordDecl, f: Field) {
    && Faithful(env, d, f.annotation, FieldMetadata(decl, f))
    && (Omits(decl, f) ==> OmitsCleanly(f.annotation, FieldMetadata(decl, f)))
    && (LeavesOptional(decl, f) ==> MayBeAbsent(decl, f))
    && FieldDemandsImplied(env, d, decl, f)
  }

  /** The validators of a key ask for nothing more of its values. */
  ghost predicate FieldDemandsImplied(env: Env, d: Dialect, decl: RecordDecl, f: Field) {
    forall w :: HasType(env, d, w, f.annotation, FieldMetadata(decl, f)) ==> Asked(d, f.demands, w)
  }

  /** The validators of a class ask for nothing more of its records. */
  ghost predicate ClassDemandsImplied(env: Env, d: Dialect, n: string)
    requires n in env
  {
    forall v :: KeysTyped(env, d, n, v) ==> Asked(d, env[n].demands, v)
  }

  ghost predicate FaithfulClass(env: Env, d: Dialect, n: string)
    requires n in env
  {
    && (forall i :: 0 <= i < |env[n].fields| ==> FaithfulField(env, d, env[n], env[n].fields[i]))
    && ClassDemandsImplied(env, d, n)
  }

  ghost predicate FaithfulEnv(env: Env, d: Dialect, names: set<string>) {
    forall n :: n in names && n in env ==> FaithfulClass(env, d, n)
  }

  /** The emitted schema accepts null exactly when the annotation admits it. */
  lemma {:induction false} NullForm(env: Env, d: Dialect, defs: map<string, Schema>, t: Ty, md: seq<Constraint>)
    requires Resolved(env, defs) && RecordsIn(t) <= defs.Keys
    ensures Conforms(d, defs, t, md, JNull) <==> AdmitsNull(t)
    decreases t
  {
    if IsWrapper(t) {
      match t
      case Alias(u) => NullForm(env, d, defs, u, md);
      case Annotated(b, m) => NullForm(env, d, defs, b, m + md);
      case RequiredT(b) => NullForm(env, d, defs, b, md);
      case NotRequiredT(b) => NullForm(env, d, defs, b, md);
    } else if t.Union? {
      UnionForm(d, defs, t.args, md, JNull);
      forall i | 0 <= i < |t.args| ensures Conforms(d, defs, t.args[i], [], JNull) <==> AdmitsNull(t.args[i]) {
        assert RecordsIn(t.args[i]) <= RecordsIn(t);
        NullForm(env, d, defs, t.args[i], []);
      }
    } else if IsContainer(t) {
      NullInContainer(env, d, defs, t, md);
    } else if IsText(t) {
      TextForm(env, d, defs, t, md, JNull);
    } else {
      ScalarForm(env, d, defs, t, md, JNull);
    }
  }

  lemma NullInContainer(env: Env, d: Dialect, defs: map<string, Schema>, t: Ty, md: seq<Constraint>)
    requires Resolved(env, defs) && RecordsIn(t) <= defs.Keys && IsContainer(t)
    ensures Conforms(d, defs, t, md, JNull) <==> AdmitsNull(t)
  {
    match t
    case Literal(values) =>
      LiteralExact(d, defs, values, JNull);
      if i :| 0 <= i < |values| && JNull == Image(values[i]) { assert values[i] == LNull; }
      if LNull in values { assert Image(LNull) == JNull; }
    case ArrayOf(u) => ArrayForm(d, defs, u, md, JNull);
    case TupleOf(parts) => TupleForm(d, defs, parts, md, JNull);
    case Mapping(keys, u) => MappingForm(d, defs, keys, u, md, JNull);
    case Record(n) =>
      RecordForm(env, d, defs, n, md, JNull);
      ClosedObjectForm(d, defs, PropertiesOf(env[n], |env[n].fields|), RequiredOf(env[n], |env[n].fields|), JNull, {n});
  }

  /** Null is a serialized value exactly where the annotation admits it and the metadata around it take it. */
  lemma {:induction false} NullTyped(env: Env, d: Dialect, t: Ty, md: seq<Constraint>)
    ensures HasType(env, d, JNull, t, md) <==> TakesNull(d, t, md)
    decreases t
  {
    if IsWrapper(t) {
      match t
      case Alias(u) => NullTyped(env, d, u, md);
      case Annotated(b, m) => NullTyped(env, d, b, m + md);
      case RequiredT(b) => NullTyped(env, d, b, md);
      case NotRequiredT(b) => NullTyped(env, d, b, md);
    } else if t.Union? {
      forall i | 0 <= i < |t.args| { NullTyped(env, d, t.args[i], md); }
    } else if t.Literal? && LNull in t.values {
      assert Image(LNull) == JNull;
    }
  }

  /** Under the discipline, an annotation that admits null takes it. */
  lemma {:induction false} FaithfulNull(env: Env, d: Dialect, t: Ty, md: seq<Constraint>)
    requires Faithful(env, d, t, md) && AdmitsNull(t) && NonNegative(d)
    ensures HasType(env, d, JNull, t, md)
    decreases t
  {
    if IsWrapper(t) {
      match t
      case Alias(u) => FaithfulNull(env, d, u, md);
      case Annotated(b, m) => FaithfulNull(env, d, b, m + md);
      case RequiredT(b) => FaithfulNull(env, d, b, md);
      case NotRequiredT(b) => FaithfulNull(env, d, b, md);
    } else {
      if t.Union? {
        var i :| 0 <= i < |t.args| && AdmitsNull(t.args[i]);
        FaithfulNull(env, d, t.args[i], []);
      } else {
        NullTyped(env, d, t, []);
      }
      KeptBoundsHold(env, d, t, md, JNull);
    }
  }

  /** Where null is omitted cleanly, the reduced schema accepts exactly the values other than null. */
  lemma OmittedExact(env: Env, d: Dialect, defs: map<string, Schema>, t: Ty, md: seq<Constraint>, v: Json)
    requires Resolved(env, defs) && RecordsIn(t) <= defs.Keys && OmitsCleanly(t, md)
    ensures Passes(d, defs, WithoutNull(Emit(t, md)), v) <==> Conforms(d, defs, t, md, v) && !v.JNull?
  {
    var u, umd := UnionBehind(t, md);
    var s := Emit(t, md);
    var branches, kept := s.kw.anyOf.branches, NonNull(s.kw.anyOf.branches);
    if v.JNull? {
      WithoutNullOnNull(d, defs, branches, s.kw.limits);
      forall i | 0 <= i < |branches| && Passes(d, defs, branches[i], JNull) ensures branches[i] == NULL_SCHEMA {
        assert RecordsIn(u.args[i]) <= RecordsIn(u);
        NullForm(env, d, defs, u.args[i], []);
        assert Conforms(d, defs, u.args[i], [], JNull);
      }
    } else {
      if Conforms(d, defs, t, md, v) { OmittedKeeps(d, defs, t, md, v); }
      if Passes(d, defs, WithoutNull(s), v) {
        OmittedLoosens(d, defs, branches, s.kw.limits, v);
        AnyOfForm(d, defs, branches, s.kw.limits, v);
      }
    }
  }

  /** The reduced schema adds nothing, unless limits beside a lone branch were dropped with `anyOf`. */
  lemma OmittedLoosens(d: Dialect, defs: map<string, Schema>, branches: seq<Schema>, l: Limits, v: Json)
    requires |NonNull(branches)| == 1 ==> l == NO_LIMITS
    requires Passes(d, defs, WithoutNull(Node(BLANK.(anyOf := AnyOf(branches), limits := l))), v)
    ensures LimitsHold(d, l, v) && exists i :: 0 <= i < |branches| && Passes(d, defs, branches[i], v)
  {
    var kept := NonNull(branches);
    var j := 0;
    if |kept| == 1 {
      assert LimitsHold(d, NO_LIMITS, v);
    } else {
      AnyOfForm(d, defs, kept, l, v);
      j :| 0 <= j < |kept| && Passes(d, defs, kept[j], v);
    }
    NonNullMembers(branches, kept[j]);
  }

  /** Under the discipline, only serialized values validate. */
  lemma {:induction false} Rejects(env: Env, d: Dialect, defs: map<string, Schema>, t: Ty, md: seq<Constraint>, v: Json)
    requires Declared(env, defs.Keys) && FaithfulEnv(env, d, defs.Keys) && Resolved(env, defs) && NonNegative(d)
    requires RecordsIn(t) <= defs.Keys
    requires Faithful(env, d, t, md) && Conforms(d, defs, t, md, v)
    ensures HasType(env, d, v, t, md)
    decreases v, t, 5
  {
    if IsWrapper(t) {
      match t
      case Alias(u) => Rejects(env, d, defs, u, md, v);
      case Annotated(b, m) => Rejects(env, d, defs, b, m + md, v);
      case RequiredT(b) => Rejects(env, d, defs, b, md, v);
      case NotRequiredT(b) => Rejects(env, d, defs, b, md, v);
    } else {
      RejectsPlain(env, d, defs, t, md, v);
      FaithfulKeeps(env, d, t, md);
      KeptBoundsHold(env, d, t, md, v);
    }
  }

  lemma FaithfulKeeps(env: Env, d: Dialect, t: Ty, md: seq<Constraint>)
    requires Faithful(env, d, t, md) && !IsWrapper(t)
    ensures Keeps(env, d, t, md)
  {
  }

  lemma {:induction false} RejectsPlain(
    env: Env, d: Dialect, defs: map<string, Schema>, t: Ty, md: seq<Constraint>, v: Json)
    requires Declared(env, defs.Keys) && FaithfulEnv(env, d, defs.Keys) && Resolved(env, defs) && NonNegative(d)
    requires RecordsIn(t) <= defs.Keys && !IsWrapper(t)
    requires Faithful(env, d, t, md) && Conforms(d, defs, t, md, v)
    ensures HasType(env, d, v, t, []) && LimitsHold(d, EmitLimits(t, md), v)
    decreases v, t, 4
  {
    if t.Union? {
      RejectsUnion(env, d, defs, t.args, md, v);
    } else {
      if IsContainer(t) {
        RejectsContainer(env, d, defs, t, md, v);
      } else {
        LeafForm(env, d, defs, t, md, v);
      }
      ShapedTyped(env, d, v, t);
    }
  }

  lemma LeafForm(env: Env, d: Dialect, defs: map<string, Schema>, t: Ty, md: seq<Constraint>, v: Json)
    requires !IsContainer(t) && !IsWrapper(t) && !t.Union?
    ensures Conforms(d, defs, t, md, v) <==> Shaped(env, d, v, t) && LimitsHold(d, EmitLimits(t, md), v)
  {
    if IsText(t) { TextForm(env, d, defs, t, md, v); } else { ScalarForm(env, d, defs, t, md, v); }
  }

  lemma {:induction false} RejectsUnion(
    env: Env, d: Dialect, defs: map<string, Schema>, args: seq<Ty>, md: seq<Constraint>, v: Json)
    requires Declared(env, defs.Keys) && FaithfulEnv(env, d, defs.Keys) && Resolved(env, defs) && NonNegative(d)
    requires RecordsIn(Union(args)) <= defs.Keys
    requires Faithful(env, d, Union(args), md) && Conforms(d, defs, Union(args), md, v)
    ensures HasType(env, d, v, Union(args), []) && LimitsHold(d, EmitLimits(Union(args), md), v)
    decreases v, Union(args), 3
  {
    UnionForm(d, defs, args, md, v);
    var i :| 0 <= i < |args| && Conforms(d, defs, args[i], [], v);
    assert RecordsIn(args[i]) <= RecordsIn(Union(args));
    Rejects(env, d, defs, args[i], [], v);
  }

  lemma {:induction false} RejectsContainer(
    env: Env, d: Dialect, defs: map<string, Schema>, t: Ty, md: seq<Constraint>, v: Json)
    requires Declared(env, defs.Keys) && FaithfulEnv(env, d, defs.Keys) && Resolved(env, defs) && NonNegative(d)
    requires RecordsIn(t) <= defs.Keys && IsContainer(t)
    requires Faithful(env, d, t, md) && Conforms(d, defs, t, md, v)
    ensures Shaped(env, d, v, t) && LimitsHold(d, EmitLimits(t, md), v)
    decreases v, t, 3
  {
    match t
    case Literal(values) => LiteralExact(d, defs, values, v);
    case ArrayOf(u) =>
      ArrayForm(d, defs, u, md, v);
      forall i | 0 <= i < |v.items| ensures HasType(env, d, v.items[i], u, []) {
        Rejects(env, d, defs, u, [], v.items[i]);
      }
    case TupleOf(parts) =>
      TupleForm(d, defs, parts, md, v);
      forall i | 0 <= i < |parts| ensures HasType(env, d, v.items[i], parts[i], []) {
        assert RecordsIn(parts[i]) <= RecordsIn(t);
        Rejects(env, d, defs, parts[i], [], v.items[i]);
      }
    case Mapping(keys, u) =>
      MappingForm(d, defs, keys, u, md, v);
      forall n | n in v.fields ensures HasType(env, d, v.fields[n], u, []) {
        Rejects(env, d, defs, u, [], v.fields[n]);
      }
    case Record(n) =>
      RecordForm(env, d, defs, n, md, v);
      RejectsRecord(env, d, defs, n, v, {n});
  }

  lemma {:induction false} RejectsRecord(
    env: Env, d: Dialect, defs: map<string, Schema>, n: string, v: Json, seen: set<string>)
    requires Declared(env, defs.Keys) && FaithfulEnv(env, d, defs.Keys) && Resolved(env, defs) && NonNegative(d)
    requires n in env && DeclaredClass(env[n]) && FaithfulClass(env, d, n) && Mentions(env[n]) <= defs.Keys
    requires Validates(d, defs, ObjectOf(env[n]), v, seen)
    ensures Shaped(env, d, v, Record(n))
    decreases v, Record(n), 1
  {
    var decl := env[n];
    ObjectForm(d, defs, decl, v, seen);
    forall i | 0 <= i < |decl.fields|
      ensures FieldTyped(env, d, n, i, v)
    {
      if decl.fields[i].name in v.fields {
        RejectsField(env, d, defs, n, i, v);
      } else {
        LackKept(env, d, decl, decl.fields[i]);
      }
    }
    assert KeysTyped(env, d, n, v);
  }

  /** Under the discipline, a key that the schema lets be absent may be absent. */
  lemma LackKept(env: Env, d: Dialect, decl: RecordDecl, f: Field)
    requires FaithfulField(env, d, decl, f) && NonNegative(d) && (LeavesOptional(decl, f) || Omits(decl, f))
    ensures MayLack(d, decl, f)
  {
    if Omits(decl, f) {
      FaithfulNull(env, d, f.annotation, FieldMetadata(decl, f));
      NullTyped(env, d, f.annotation, FieldMetadata(decl, f));
    }
  }

  lemma {:induction false} RejectsField(env: Env, d: Dialect, defs: map<string, Schema>, n: string, i: nat, v: Json)
    requires Declared(env, defs.Keys) && FaithfulEnv(env, d, defs.Keys) && Resolved(env, defs) && NonNegative(d)
    requires n in env && DeclaredClass(env[n]) && FaithfulClass(env, d, n) && Mentions(env[n]) <= defs.Keys
    requires v.JObj? && i < |env[n].fields| && env[n].fields[i].name in v.fields
    requires Passes(d, defs, FieldSchema(env[n], env[n].fields[i]), v.fields[env[n].fields[i].name])
    ensures FieldTyped(env, d, n, i, v)
    decreases v, Record(n), 0
  {
    var f := env[n].fields[i];
    var md := FieldMetadata(env[n], f);
    var w := v.fields[f.name];
    assert RecordsIn(f.annotation) <= Mentions(env[n]);
    assert FaithfulField(env, d, env[n], f);
    if Omits(env[n], f) {
      Redescribed(d, defs, WithoutNull(Emit(f.annotation, md)), f.description, w);
      OmittedExact(env, d, defs, f.annotation, md, w);
    } else {
      Redescribed(d, defs, Emit(f.annotation, md), f.description, w);
    }
    Rejects(env, d, defs, f.annotation, md, w);
  }
}
