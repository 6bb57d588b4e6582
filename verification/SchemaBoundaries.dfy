/**
 Where the compiled contract is looser or stricter than the annotation: one
 family of annotations for each condition that the meaning theorems name.
 */
module SchemaBoundaries {
  import opened Options
  import opened SchemaTypes
  import opened SchemaEmit
  import opened SchemaMeaning
  import opened SchemaFaithful
  import opened SchemaCompiler
  import opened SchemaDocument
  import opened SchemaRanges
  import opened SchemaLastWins
  import opened SchemaExactness
  import opened SchemaExactTypes

  // ----- one keyword, two bounds -----

  const FREE := Bounds(None, None, None, None, None, None, None)

  function AtLeast(x: real): Constraint {
    Constraint(FREE.(ge := Some(x)), [], [])
  }

  /** Two lower bounds on a float survive exactly when the later one is at least the earlier one. */
  lemma LaterBoundWins(env: Env, d: Dialect, defs: map<string, Schema>, a: real, b: real)
    ensures Exact(env, d, defs, FloatT, [AtLeast(a), AtLeast(b)]) <==> a <= b
  {
    var md := [AtLeast(a), AtLeast(b)];
    var bs := [FREE.(ge := Some(a)), FREE.(ge := Some(b))];
    TwoBounds(md, bs);
    TwoApplied(NO_LIMITS, bs);
    assert EmitLimits(FloatT, md) == NO_LIMITS.(minimum := Some(b));
    FloatExactIff(env, d, defs, md);
    assert bs[0] in Flatten(md);
    assert forall v :: Demanded(d, md, v);
  }

  lemma TwoApplied(l: Limits, bs: seq<Bounds>)
    requires |bs| == 2
    ensures ApplyAll(l, bs, false) == ApplyOne(ApplyOne(l, bs[0], false), bs[1], false)
  {
    var init := bs[..1];
    assert init[..0] == [] && ApplyAll(l, init[..0], false) == l;
    assert ApplyAll(l, init, false) == ApplyOne(l, bs[0], false);
  }

  lemma TwoBounds(md: seq<Constraint>, bs: seq<Bounds>)
    requires |md| == |bs| == 2 && md[0] == Constraint(bs[0], [], []) && md[1] == Constraint(bs[1], [], [])
    ensures Flatten(md) == bs
  {
    assert Nested(md[..1][..0]) == [] && md[..1][..0] == [];
    assert Nested(md[..1]) == [] && Nested(md) == [];
    assert Owned(md) == bs;
  }

  /** A validator on a string is lost as soon as it refuses one text. */
  lemma ValidatorIsLost(env: Env, d: Dialect, defs: map<string, Schema>, validator: string)
    ensures var md := [Constraint(FREE, [], [validator])];
            Exact(env, d, defs, StrT, md) <==> forall s :: d.accepts(validator, JStr(s))
  {
    var md := [Constraint(FREE, [], [validator])];
    PatternExactIff(env, d, defs, StrT, md);
    forall s
      ensures TextKept(env, d, StrT, md, s) <==> d.accepts(validator, JStr(s))
    {
      OnlyDemand(d, md, validator, JStr(s));
    }
  }

  lemma OnlyDemand(d: Dialect, md: seq<Constraint>, validator: string, v: Json)
    requires md == [Constraint(FREE, [], [validator])]
    ensures Meets(d, md, v) <==> d.accepts(validator, v)
    ensures LimitsHold(d, EmitLimits(StrT, md), v)
  {
    var demands := md[0].demands;
    assert demands[0] == validator && (Asked(d, demands, v) <==> d.accepts(demands[0], v));
    assert MeetsBounds(d, md, v);
    EmittedLimitsHold(map[], d, StrT, md, v);
  }

  // ----- which length a union writes -----

  /**
   A union whose first argument is no list or tuple writes its lengths for strings, so its arrays are
   exact if and only if no length is bounded; one whose first argument is, for arrays, so its texts are.
   */
  lemma FirstArgumentNamesTheLength(env: Env, d: Dialect, defs: map<string, Schema>, args: seq<Ty>, md: seq<Constraint>)
    requires forall i :: 0 <= i < |args| ==> Exact(env, d, defs, args[i], [])
    ensures !CountsItems(Union(args)) && (forall n: nat :: HasArray(env, d, Union(args), n)) ==>
            (ExactOn(env, d, defs, Union(args), Stripped(md), ArraySort) <==> NoLengths(md))
    ensures CountsItems(Union(args)) && TakesTexts(env, d, Union(args), md) && NoPatterns(md) ==>
            (ExactOn(env, d, defs, Union(args), Stripped(md), TextSort) <==> NoLengths(md))
  {
    var t := Union(args);
    UnionExact(env, d, defs, args);
    LimitsAre(t, md);
    OtherPairUntouched(NO_LIMITS, Flatten(md));
    if !CountsItems(t) && forall n: nat :: HasArray(env, d, t, n) { ArraysExactIff(env, d, defs, t, md); }
    if CountsItems(t) && TakesTexts(env, d, t, md) && NoPatterns(md) { TextsExactIff(env, d, defs, t, md); }
  }

  // ----- omitted null -----

  /** The reduced schema accepts exactly what the union's schema accepts, except null. */
  ghost predicate ReducesCleanly(d: Dialect, defs: map<string, Schema>, args: seq<Ty>, md: seq<Constraint>) {
    forall v :: ReducesAt(d, defs, args, md, v)
  }

  ghost predicate ReducesAt(d: Dialect, defs: map<string, Schema>, args: seq<Ty>, md: seq<Constraint>, v: Json) {
    Passes(d, defs, WithoutNull(Emit(Union(args), md)), v) <==> Conforms(d, defs, Union(args), md, v) && !v.JNull?
  }

  /** The branches that survive: those of the arguments that do not compile to the null schema. */
  function Survivors(args: seq<Ty>): seq<Schema> {
    NonNull(seq(|args|, i requires 0 <= i < |args| => Emit(args[i], [])))
  }

  ghost predicate SomePasses(d: Dialect, defs: map<string, Schema>, branches: seq<Schema>, v: Json) {
    exists i :: 0 <= i < |branches| && Passes(d, defs, branches[i], v)
  }

  /** A value other than null passes some branch exactly when it passes a surviving one. */
  lemma SurvivorsPass(d: Dialect, defs: map<string, Schema>, branches: seq<Schema>, v: Json)
    requires !v.JNull?
    ensures SomePasses(d, defs, branches, v) <==> SomePasses(d, defs, NonNull(branches), v)
  {
    var kept := NonNull(branches);
    NullSchema(d, defs, v);
    if i :| 0 <= i < |branches| && Passes(d, defs, branches[i], v) {
      NonNullMembers(branches, branches[i]);
      var j :| 0 <= j < |kept| && kept[j] == branches[i];
    }
    if j :| 0 <= j < |kept| && Passes(d, defs, kept[j], v) {
      NonNullMembers(branches, kept[j]);
    }
  }

  /** What the reduced schema and the union's schema accept. */
  lemma ReducedForms(d: Dialect, defs: map<string, Schema>, args: seq<Ty>, md: seq<Constraint>, v: Json)
    ensures var kept, l := Survivors(args), EmitLimits(Union(args), md);
            && (Passes(d, defs, WithoutNull(Emit(Union(args), md)), v) <==>
                SomePasses(d, defs, kept, v) && (|kept| == 1 || LimitsHold(d, l, v)))
            && (!v.JNull? ==>
                (Conforms(d, defs, Union(args), md, v) <==> SomePasses(d, defs, kept, v) && LimitsHold(d, l, v)))
  {
    var kept, l := Survivors(args), EmitLimits(Union(args), md);
    var branches := seq(|args|, i requires 0 <= i < |args| => Emit(args[i], []));
    assert Emit(Union(args), md) == Node(BLANK.(anyOf := AnyOf(branches), limits := l));
    AnyOfForm(d, defs, branches, l, v);
    AnyOfForm(d, defs, kept, l, v);
    if !v.JNull? { SurvivorsPass(d, defs, branches, v); }
  }

  /** The limits beside a lone surviving branch follow from it. */
  ghost predicate LoneImplies(d: Dialect, defs: map<string, Schema>, args: seq<Ty>, md: seq<Constraint>) {
    |Survivors(args)| == 1 ==>
      forall v :: SomePasses(d, defs, Survivors(args), v) ==> LimitsHold(d, EmitLimits(Union(args), md), v)
  }

  /**
   Omitting null is clean if and only if no surviving branch accepts null and, where only one branch
   survives, it alone implies the limits beside the union, which are dropped.
   */
  lemma OmissionCleanIff(d: Dialect, defs: map<string, Schema>, args: seq<Ty>, md: seq<Constraint>)
    ensures ReducesCleanly(d, defs, args, md) <==>
            !SomePasses(d, defs, Survivors(args), JNull) && LoneImplies(d, defs, args, md)
  {
    var kept, l := Survivors(args), EmitLimits(Union(args), md);
    forall v
      ensures ReducesAt(d, defs, args, md, v) <==>
              if v.JNull? then !SomePasses(d, defs, kept, v)
              else |kept| == 1 && SomePasses(d, defs, kept, v) ==> LimitsHold(d, l, v)
    {
      ReducedForms(d, defs, args, md, v);
      assert v.JNull? ==> LimitsHold(d, l, v);
    }
    if ReducesCleanly(d, defs, args, md) {
      assert ReducesAt(d, defs, args, md, JNull);
      forall v | |kept| == 1 && SomePasses(d, defs, kept, v) ensures LimitsHold(d, l, v) {
        assert ReducesAt(d, defs, args, md, v);
      }
    }
  }

  /** `Any` beside null still accepts null, whatever the constraints. */
  lemma AnyKeepsNull(d: Dialect, defs: map<string, Schema>, md: seq<Constraint>)
    ensures !ReducesCleanly(d, defs, [AnyT, NoneT], md)
  {
    var args := [AnyT, NoneT];
    var branches := seq(|args|, i requires 0 <= i < |args| => Emit(args[i], []));
    assert branches[0] == Node(BLANK) && branches[0] != NULL_SCHEMA;
    NonNullMembers(branches, branches[0]);
    var j :| 0 <= j < |Survivors(args)| && Survivors(args)[j] == Node(BLANK);
    assert Passes(d, defs, Survivors(args)[j], JNull);
    OmissionCleanIff(d, defs, args, md);
  }

  /** All arguments but one compile to the null schema. */
  predicate LoneArgument(args: seq<Ty>, k: nat) {
    && k < |args|
    && Emit(args[k], []) != NULL_SCHEMA
    && forall i :: 0 <= i < |args| && i != k ==> Emit(args[i], []) == NULL_SCHEMA
  }

  lemma {:induction false} KeepsLone(branches: seq<Schema>, k: nat)
    requires k < |branches| && branches[k] != NULL_SCHEMA
    requires forall i :: 0 <= i < |branches| && i != k ==> branches[i] == NULL_SCHEMA
    ensures NonNull(branches) == [branches[k]]
  {
    var init := branches[..|branches| - 1];
    if k < |branches| - 1 {
      KeepsLone(init, k);
    } else {
      DropsNull(init);
    }
  }

  lemma {:induction false} DropsNull(branches: seq<Schema>)
    requires forall i :: 0 <= i < |branches| ==> branches[i] == NULL_SCHEMA
    ensures NonNull(branches) == []
  {
    if branches != [] { DropsNull(branches[..|branches| - 1]); }
  }

  lemma LoneSurvives(d: Dialect, defs: map<string, Schema>, args: seq<Ty>, k: nat)
    requires LoneArgument(args, k)
    ensures |Survivors(args)| == 1
    ensures forall v :: SomePasses(d, defs, Survivors(args), v) <==> Conforms(d, defs, args[k], [], v)
  {
    var branches := seq(|args|, i requires 0 <= i < |args| => Emit(args[i], []));
    KeepsLone(branches, k);
    forall v ensures SomePasses(d, defs, Survivors(args), v) <==> Conforms(d, defs, args[k], [], v) {
      assert Survivors(args)[0] == Emit(args[k], []);
    }
  }

  /** With one surviving branch: clean if and only if it rejects null and implies the dropped limits. */
  lemma LoneBranchDropsLimits(d: Dialect, defs: map<string, Schema>, args: seq<Ty>, md: seq<Constraint>, k: nat)
    requires LoneArgument(args, k)
    ensures ReducesCleanly(d, defs, args, md) <==>
            && !Conforms(d, defs, args[k], [], JNull)
            && forall v :: Conforms(d, defs, args[k], [], v) ==> LimitsHold(d, EmitLimits(Union(args), md), v)
  {
    LoneSurvives(d, defs, args, k);
    OmissionCleanIff(d, defs, args, md);
  }

  predicate NoNumberLimits(l: Limits) {
    l.minimum.None? && l.exclusiveMinimum.None? && l.maximum.None? && l.exclusiveMaximum.None?
  }

  predicate AllLengths(low: Option<nat>, high: Option<nat>) {
    (low.Some? ==> low.value == 0) && high.None?
  }

  lemma OutsideRange(l: Limits) returns (n: int)
    requires !NoNumberLimits(l)
    ensures !InRange(l, n as real)
  {
    n := if l.minimum.Some? then l.minimum.value.Floor - 1
         else if l.exclusiveMinimum.Some? then l.exclusiveMinimum.value.Floor - 1
         else if l.maximum.Some? then l.maximum.value.Floor + 1
         else l.exclusiveMaximum.value.Floor + 1;
  }

  lemma OutsideLength(low: Option<nat>, high: Option<nat>) returns (n: nat)
    requires !AllLengths(low, high)
    ensures !InLength(low, high, n)
  {
    n := if high.Some? then high.value + 1 else 0;
  }

  lemma NumberEscapesLimits(d: Dialect, defs: map<string, Schema>, t: Ty, l: Limits)
    requires t.IntT? || t.FloatT?
    ensures (forall v :: Conforms(d, defs, t, [], v) ==> LimitsHold(d, l, v)) <==> NoNumberLimits(l)
  {
    LeafExact(map[], d, defs, t);
    forall v ensures Conforms(d, defs, t, [], v) <==> Shaped(map[], d, v, t) {
      assert ExactAt(map[], d, defs, t, [], v);
    }
    if !NoNumberLimits(l) {
      var n := OutsideRange(l);
      assert Shaped(map[], d, JNum(n as real), t) && !LimitsHold(d, l, JNum(n as real));
    }
  }

  lemma TextEscapesLimits(d: Dialect, defs: map<string, Schema>, t: Ty, l: Limits)
    requires t.StrT? && l.pattern.None?
    ensures (forall v :: Conforms(d, defs, t, [], v) ==> LimitsHold(d, l, v)) <==> AllLengths(l.minLength, l.maxLength)
  {
    LeafExact(map[], d, defs, t);
    forall v ensures Conforms(d, defs, t, [], v) <==> v.JStr? { assert ExactAt(map[], d, defs, t, [], v); }
    if !AllLengths(l.minLength, l.maxLength) {
      var n := OutsideLength(l.minLength, l.maxLength);
      assert !LimitsHold(d, l, JStr(Spaces(n)));
    }
  }

  lemma ArrayEscapesLimits(d: Dialect, defs: map<string, Schema>, u: Ty, l: Limits, w: Json)
    requires Conforms(d, defs, u, [], w)
    ensures (forall v :: Conforms(d, defs, ArrayOf(u), [], v) ==> LimitsHold(d, l, v)) <==>
            AllLengths(l.minItems, l.maxItems)
  {
    LimitsAre(ArrayOf(u), []);
    forall v: Json { ArrayForm(d, defs, u, [], v); }
    if !AllLengths(l.minItems, l.maxItems) {
      var n := OutsideLength(l.minItems, l.maxItems);
      var v := JArr(seq(n, _ => w));
      assert LimitsHold(d, NO_LIMITS, v);
      assert Conforms(d, defs, ArrayOf(u), [], v) && !LimitsHold(d, l, v);
    }
  }

  /**
   Omitting null from an optional number, text or list keeps its meaning exactly when no keyword for
   that sort was written.
   */
  lemma OmittedNullDropsBounds(
    d: Dialect, defs: map<string, Schema>, args: seq<Ty>, md: seq<Constraint>, k: nat, w: Json)
    requires LoneArgument(args, k)
    ensures var l := EmitLimits(Union(args), md);
            && (args[k].IntT? || args[k].FloatT? ==> (ReducesCleanly(d, defs, args, md) <==> NoNumberLimits(l)))
            && (args[k].StrT? && l.pattern.None? ==>
                (ReducesCleanly(d, defs, args, md) <==> AllLengths(l.minLength, l.maxLength)))
            && (args[k].ArrayOf? && Conforms(d, defs, args[k].item, [], w) ==>
                (ReducesCleanly(d, defs, args, md) <==> AllLengths(l.minItems, l.maxItems)))
  {
    var l := EmitLimits(Union(args), md);
    LoneBranchDropsLimits(d, defs, args, md, k);
    if args[k].IntT? || args[k].FloatT? {
      RejectsNull(d, defs, args[k]);
      NumberEscapesLimits(d, defs, args[k], l);
    } else if args[k].StrT? && l.pattern.None? {
      RejectsNull(d, defs, args[k]);
      TextEscapesLimits(d, defs, args[k], l);
    } else if args[k].ArrayOf? && Conforms(d, defs, args[k].item, [], w) {
      ArrayForm(d, defs, args[k].item, [], JNull);
      ArrayEscapesLimits(d, defs, args[k].item, l, w);
    }
  }

  lemma RejectsNull(d: Dialect, defs: map<string, Schema>, t: Ty)
    requires t.IntT? || t.FloatT? || t.StrT?
    ensures !Conforms(d, defs, t, [], JNull)
  {
    if t.StrT? { TextForm(map[], d, defs, t, [], JNull); } else { ScalarForm(map[], d, defs, t, [], JNull); }
  }

  // ----- records, key by key -----

  /** The values that a key may hold, as the class means them. */
  ghost predicate FieldValue(env: Env, d: Dialect, decl: RecordDecl, f: Field, w: Json) {
    && IsValue(env, d, f.annotation, FieldMetadata(decl, f), w)
    && (Omits(decl, f) ==> !w.JNull?)
    && Asked(d, f.demands, w)
  }

  /** Whether it may be left out as the schema says. */
  predicate SchemaLacks(decl: RecordDecl, f: Field) {
    LeavesOptional(decl, f) || Omits(decl, f)
  }

  ghost predicate FieldAgrees(env: Env, d: Dialect, defs: map<string, Schema>, decl: RecordDecl, f: Field) {
    && (forall w :: Passes(d, defs, FieldSchema(decl, f), w) <==> FieldValue(env, d, decl, f, w))
    && (MayLack(d, decl, f) <==> SchemaLacks(decl, f))
  }

  /** The keys of a class and its schema agree on a value. */
  ghost predicate AgreeOn(env: Env, d: Dialect, defs: map<string, Schema>, n: string, v: Json)
    requires n in env
  {
    KeysTyped(env, d, n, v) <==> Validates(d, defs, ObjectOf(env[n]), v, {})
  }

  lemma FieldTypedIs(env: Env, d: Dialect, n: string, i: nat, v: Json)
    requires n in env && i < |env[n].fields| && v.JObj?
    ensures var f := env[n].fields[i];
            FieldTyped(env, d, n, i, v) <==>
            if f.name in v.fields then FieldValue(env, d, env[n], f, v.fields[f.name]) else MayLack(d, env[n], f)
  {
  }

  lemma AgreesByField(env: Env, d: Dialect, defs: map<string, Schema>, n: string, v: Json)
    requires n in env && DistinctNames(env[n])
    requires forall i :: 0 <= i < |env[n].fields| ==> FieldAgrees(env, d, defs, env[n], env[n].fields[i])
    ensures AgreeOn(env, d, defs, n, v)
  {
    ObjectForm(d, defs, env[n], v, {});
    if v.JObj? {
      forall i | 0 <= i < |env[n].fields|
        ensures var f := env[n].fields[i];
                FieldTyped(env, d, n, i, v) <==>
                if f.name in v.fields then Passes(d, defs, FieldSchema(env[n], f), v.fields[f.name])
                else LeavesOptional(env[n], f) || Omits(env[n], f)
      {
        FieldTypedIs(env, d, n, i, v);
        assert FieldAgrees(env, d, defs, env[n], env[n].fields[i]);
      }
    }
  }

  /** A value for every key that both sides take. */
  ghost predicate KeysHave(env: Env, d: Dialect, defs: map<string, Schema>, decl: RecordDecl, ws: seq<Json>) {
    && |ws| == |decl.fields|
    && forall i :: 0 <= i < |ws| ==>
         FieldValue(env, d, decl, decl.fields[i], ws[i]) && Passes(d, defs, FieldSchema(decl, decl.fields[i]), ws[i])
  }

  /** An object with the given value for every key except one. */
  function AllBut(decl: RecordDecl, ws: seq<Json>, k: nat, skip: nat): map<string, Json>
    requires k <= |decl.fields| == |ws|
  {
    if k == 0 then map[]
    else if k - 1 == skip then AllBut(decl, ws, k - 1, skip)
    else AllBut(decl, ws, k - 1, skip)[decl.fields[k - 1].name := ws[k - 1]]
  }

  lemma {:induction false} AllButNames(decl: RecordDecl, ws: seq<Json>, k: nat, skip: nat, n: string)
    requires k <= |decl.fields| == |ws|
    ensures n in AllBut(decl, ws, k, skip) <==> exists i :: 0 <= i < k && i != skip && decl.fields[i].name == n
  {
    if k > 0 { AllButNames(decl, ws, k - 1, skip, n); }
  }

  lemma {:induction false} AllButAt(decl: RecordDecl, ws: seq<Json>, k: nat, skip: nat, i: nat)
    requires DistinctNames(decl) && i < k <= |decl.fields| == |ws| && i != skip
    ensures decl.fields[i].name in AllBut(decl, ws, k, skip) && AllBut(decl, ws, k, skip)[decl.fields[i].name] == ws[i]
  {
    if i < k - 1 { AllButAt(decl, ws, k - 1, skip, i); }
  }

  /** Only declared keys, and a value that both sides take for each of them except the k-th. */
  ghost predicate OthersFit(env: Env, d: Dialect, defs: map<string, Schema>, decl: RecordDecl, v: Json, k: nat) {
    && v.JObj? && k < |decl.fields|
    && (forall m :: m in v.fields ==> exists i :: 0 <= i < |decl.fields| && decl.fields[i].name == m)
    && forall i :: 0 <= i < |decl.fields| && i != k ==>
         var f := decl.fields[i];
         && f.name in v.fields
         && FieldValue(env, d, decl, f, v.fields[f.name]) && Passes(d, defs, FieldSchema(decl, f), v.fields[f.name])
  }

  lemma SampleFits(
    env: Env, d: Dialect, defs: map<string, Schema>, decl: RecordDecl, ws: seq<Json>, w: Json, k: nat, skip: nat)
    requires DistinctNames(decl) && KeysHave(env, d, defs, decl, ws) && k < |ws| && (skip == k || skip == |ws|)
    ensures var v := JObj(AllBut(decl, ws[k := w], |ws|, skip));
            && OthersFit(env, d, defs, decl, v, k)
            && (decl.fields[k].name in v.fields <==> skip != k)
            && (skip != k ==> v.fields[decl.fields[k].name] == w)
  {
    var fs, vs := decl.fields, ws[k := w];
    var v := JObj(AllBut(decl, vs, |ws|, skip));
    forall m ensures m in v.fields <==> exists i :: 0 <= i < |ws| && i != skip && fs[i].name == m {
      AllButNames(decl, vs, |ws|, skip, m);
    }
    forall i | 0 <= i < |fs| && i != skip ensures fs[i].name in v.fields && v.fields[fs[i].name] == vs[i] {
      AllButAt(decl, vs, |ws|, skip, i);
    }
  }

  lemma TypedByKey(env: Env, d: Dialect, defs: map<string, Schema>, n: string, v: Json, k: nat)
    requires n in env && OthersFit(env, d, defs, env[n], v, k)
    ensures KeysTyped(env, d, n, v) <==> FieldTyped(env, d, n, k, v)
  {
    forall i | 0 <= i < |env[n].fields| && i != k ensures FieldTyped(env, d, n, i, v) { FieldTypedIs(env, d, n, i, v); }
  }

  lemma ValidByKey(env: Env, d: Dialect, defs: map<string, Schema>, decl: RecordDecl, v: Json, k: nat)
    requires DistinctNames(decl) && OthersFit(env, d, defs, decl, v, k)
    ensures var f := decl.fields[k];
            Validates(d, defs, ObjectOf(decl), v, {}) <==>
            if f.name in v.fields then Passes(d, defs, FieldSchema(decl, f), v.fields[f.name]) else SchemaLacks(decl, f)
  {
    ObjectForm(d, defs, decl, v, {});
  }

  /** With all other keys present, the class and its schema differ on an object exactly where they differ on the key. */
  lemma KeyDecides(env: Env, d: Dialect, defs: map<string, Schema>, n: string, v: Json, k: nat)
    requires n in env && DistinctNames(env[n]) && OthersFit(env, d, defs, env[n], v, k)
    ensures var f := env[n].fields[k];
            AgreeOn(env, d, defs, n, v) <==>
            if f.name in v.fields
            then Passes(d, defs, FieldSchema(env[n], f), v.fields[f.name]) <==>
              FieldValue(env, d, env[n], f, v.fields[f.name])
            else MayLack(d, env[n], f) <==> SchemaLacks(env[n], f)
  {
    TypedByKey(env, d, defs, n, v, k);
    ValidByKey(env, d, defs, env[n], v, k);
    FieldTypedIs(env, d, n, k, v);
  }

  lemma DiffersByField(env: Env, d: Dialect, defs: map<string, Schema>, n: string, ws: seq<Json>, k: nat)
    requires n in env && DistinctNames(env[n]) && KeysHave(env, d, defs, env[n], ws)
    requires k < |ws| && !FieldAgrees(env, d, defs, env[n], env[n].fields[k])
    ensures exists v :: !AgreeOn(env, d, defs, n, v)
  {
    var decl, f := env[n], env[n].fields[k];
    if w :| !(Passes(d, defs, FieldSchema(decl, f), w) <==> FieldValue(env, d, decl, f, w)) {
      SampleFits(env, d, defs, decl, ws, w, k, |ws|);
      KeyDecides(env, d, defs, n, JObj(AllBut(decl, ws[k := w], |ws|, |ws|)), k);
    } else {
      SampleFits(env, d, defs, decl, ws, JNull, k, k);
      KeyDecides(env, d, defs, n, JObj(AllBut(decl, ws[k := JNull], |ws|, k)), k);
    }
  }

  /** With a value for every key, the keys of a class agree with its schema everywhere if and only if each key does. */
  lemma RecordExactIff(env: Env, d: Dialect, defs: map<string, Schema>, n: string, ws: seq<Json>)
    requires n in env && DistinctNames(env[n]) && KeysHave(env, d, defs, env[n], ws)
    ensures (forall v :: AgreeOn(env, d, defs, n, v)) <==>
            forall i :: 0 <= i < |ws| ==> FieldAgrees(env, d, defs, env[n], env[n].fields[i])
  {
    if forall i :: 0 <= i < |ws| ==> FieldAgrees(env, d, defs, env[n], env[n].fields[i]) {
      forall v ensures AgreeOn(env, d, defs, n, v) { AgreesByField(env, d, defs, n, v); }
    } else {
      var k :| 0 <= k < |ws| && !FieldAgrees(env, d, defs, env[n], env[n].fields[k]);
      DiffersByField(env, d, defs, n, ws, k);
    }
  }

  /** The class means its schema on a value, its own validators included. */
  ghost predicate ClassExactAt(env: Env, d: Dialect, defs: map<string, Schema>, n: string, v: Json)
    requires n in env
  {
    HasType(env, d, v, Record(n), []) <==> Validates(d, defs, ObjectOf(env[n]), v, {})
  }

  /** There are no validators of whole records, or records with typed keys always validate. */
  ghost predicate KeysAccepted(env: Env, d: Dialect, defs: map<string, Schema>, n: string)
    requires n in env
  {
    env[n].demands == [] || forall v :: KeysTyped(env, d, n, v) ==> Validates(d, defs, ObjectOf(env[n]), v, {})
  }

  lemma KeysAlwaysAccepted(env: Env, d: Dialect, defs: map<string, Schema>, n: string)
    requires Declared(env, defs.Keys) && Resolved(env, defs) && n in env && DeclaredClass(env[n])
    requires Mentions(env[n]) <= defs.Keys
    ensures KeysAccepted(env, d, defs, n)
  {
    forall v | KeysTyped(env, d, n, v) ensures Validates(d, defs, ObjectOf(env[n]), v, {}) {
      AcceptsRecord(env, d, defs, n, v, {});
    }
  }

  lemma ClassDecides(env: Env, d: Dialect, defs: map<string, Schema>, n: string)
    requires n in env && KeysAccepted(env, d, defs, n)
    ensures (forall v :: ClassExactAt(env, d, defs, n, v)) <==>
            (forall v :: AgreeOn(env, d, defs, n, v)) && ClassDemandsImplied(env, d, n)
  {
    forall v
      ensures ClassExactAt(env, d, defs, n, v) <==>
              AgreeOn(env, d, defs, n, v) && (KeysTyped(env, d, n, v) ==> Asked(d, env[n].demands, v))
    {
      RecordTyped(env, d, v, n);
    }
  }

  /**
   A class means its schema if and only if each of its keys does and no record with typed keys breaks a
   validator of the class.
   */
  lemma ClassExactIff(env: Env, d: Dialect, defs: map<string, Schema>, n: string, ws: seq<Json>)
    requires n in env && DistinctNames(env[n]) && KeysHave(env, d, defs, env[n], ws) && KeysAccepted(env, d, defs, n)
    ensures (forall v :: ClassExactAt(env, d, defs, n, v)) <==>
            && (forall i :: 0 <= i < |ws| ==> FieldAgrees(env, d, defs, env[n], env[n].fields[i]))
            && ClassDemandsImplied(env, d, n)
  {
    ClassDecides(env, d, defs, n);
    RecordExactIff(env, d, defs, n, ws);
  }

  /** A document means its root class if and only if every field of the root does and no validator of it binds. */
  lemma DocumentExactIff(env: Env, d: Dialect, root: string, doc: Document, ws: seq<Json>)
    requires root in env && IsDocument(env, root, doc)
    requires DistinctNames(env[root]) && KeysHave(env, d, doc.defs, env[root], ws)
    requires KeysAccepted(env, d, doc.defs, root)
    ensures (forall v :: DocumentAgrees(env, d, root, doc, v)) <==>
            && (forall i :: 0 <= i < |ws| ==> FieldAgrees(env, d, doc.defs, env[root], env[root].fields[i]))
            && ClassDemandsImplied(env, d, root)
  {
    forall v ensures DocumentAgrees(env, d, root, doc, v) <==> ClassExactAt(env, d, doc.defs, root, v) {}
    ClassExactIff(env, d, doc.defs, root, ws);
  }

  /** A document and its root class agree on a value. */
  ghost predicate DocumentAgrees(env: Env, d: Dialect, root: string, doc: Document, v: Json) {
    Validates(d, doc.defs, doc.schema, v, {}) <==> HasType(env, d, v, Record(root), [])
  }

  // ----- constraints around a record -----

  ghost function MustNames(d: Dialect, decl: RecordDecl): set<string> {
    set i | 0 <= i < |decl.fields| && !MayLack(d, decl, decl.fields[i]) :: decl.fields[i].name
  }

  function AllNames(decl: RecordDecl): set<string> {
    set i | 0 <= i < |decl.fields| :: decl.fields[i].name
  }

  lemma RecordSizes(env: Env, d: Dialect, n: string, v: Json)
    requires n in env && IsValue(env, d, Record(n), [], v)
    ensures v.JObj? && |MustNames(d, env[n])| <= |v.fields| <= |AllNames(env[n])|
  {
    RecordTyped(env, d, v, n);
    forall m | m in MustNames(d, env[n]) ensures m in v.fields {
      var i :| 0 <= i < |env[n].fields| && !MayLack(d, env[n], env[n].fields[i]) && env[n].fields[i].name == m;
      assert FieldTyped(env, d, n, i, v);
    }
    SubsetSize(MustNames(d, env[n]), v.fields.Keys);
    SubsetSize(v.fields.Keys, AllNames(env[n]));
  }

  /** The sizes that a record can have are all within the bound. */
  ghost predicate HarmlessSize(d: Dialect, decl: RecordDecl, b: Bounds) {
    && (b.minLength.Some? ==> b.minLength.value <= |MustNames(d, decl)|)
    && (b.maxLength.Some? ==> b.maxLength.value >= |AllNames(decl)|)
  }

  /**
   Constraints around a record are dropped. With a smallest and a largest record, its reference is exact
   if and only if no size breaks a length bound and no record breaks an unread demand.
   */
  lemma RecordDropsLength(
    env: Env, d: Dialect, defs: map<string, Schema>, n: string, md: seq<Constraint>, small: Json, large: Json)
    requires n in env && Exact(env, d, defs, Record(n), [])
    requires IsValue(env, d, Record(n), [], small) && IsValue(env, d, Record(n), [], large)
    requires small.JObj? && |small.fields| == |MustNames(d, env[n])|
    requires large.JObj? && |large.fields| == |AllNames(env[n])|
    ensures Exact(env, d, defs, Record(n), md) <==>
            && (forall b :: b in Flatten(md) ==> HarmlessSize(d, env[n], b))
            && NoDemandBroken(env, d, Record(n), md)
  {
    IgnoredIff(env, d, defs, Record(n), Stripped(md));
    IgnoredDemands(env, d, defs, Record(n), md);
    ObjectMeets(d, md, small);
    ObjectMeets(d, md, large);
    if forall b :: b in Flatten(md) ==> HarmlessSize(d, env[n], b) {
      forall v | IsValue(env, d, Record(n), [], v) ensures Meets(d, Stripped(md), v) {
        RecordSizes(env, d, n, v);
        ObjectMeets(d, md, v);
      }
    } else {
      var b :| b in Flatten(md) && !HarmlessSize(d, env[n], b);
      assert !(WithinLength(b, |small.fields|) && WithinLength(b, |large.fields|));
    }
  }

  // ----- inherited totality -----

  /** The qualifier is outermost, or the declaring class has the totality of the compiled one. */
  predicate TotalityKept(total: bool, f: Field) {
    f.annotation.RequiredT? || f.annotation.NotRequiredT? || OptionalQualifier(f.annotation, f.declaredTotal) == !total
  }

  lemma TotalityDecides(env: Env, d: Dialect, defs: map<string, Schema>, decl: RecordDecl, f: Field)
    requires decl.kind.TypedDict? && Exact(env, d, defs, f.annotation, [])
    ensures FieldAgrees(env, d, defs, decl, f) <==>
            TotalityKept(decl.kind.total, f) && FieldDemandsImplied(env, d, decl, f)
    ensures forall w :: FieldValue(env, d, decl, f, w) ==> Passes(d, defs, FieldSchema(decl, f), w)
  {
    forall w
      ensures Passes(d, defs, FieldSchema(decl, f), w) <==> IsValue(env, d, f.annotation, [], w)
    {
      Redescribed(d, defs, Emit(f.annotation, []), f.description, w);
      assert ExactAt(env, d, defs, f.annotation, [], w);
    }
    assert MayLack(d, decl, f) <==> MayBeAbsent(decl, f);
    if FieldAgrees(env, d, defs, decl, f) {
      forall w | HasType(env, d, w, f.annotation, []) ensures Asked(d, f.demands, w) {
        assert IsValue(env, d, f.annotation, [], w) && FieldValue(env, d, decl, f, w);
      }
    }
    if FieldDemandsImplied(env, d, decl, f) {
      forall w | IsValue(env, d, f.annotation, [], w) ensures FieldValue(env, d, decl, f, w) {}
    }
  }

  /**
   A typed dictionary with exact keys agrees with its schema on every value if and only if each key
   keeps its totality and no demand on it binds: a total subclass of a partial dictionary requires the
   inherited key.
   */
  lemma InheritedTotality(env: Env, d: Dialect, defs: map<string, Schema>, n: string, ws: seq<Json>)
    requires n in env && env[n].kind.TypedDict? && DistinctNames(env[n]) && |ws| == |env[n].fields|
    requires forall i :: 0 <= i < |ws| ==>
               && Exact(env, d, defs, env[n].fields[i].annotation, [])
               && FieldValue(env, d, env[n], env[n].fields[i], ws[i])
    ensures (forall v :: AgreeOn(env, d, defs, n, v)) <==>
            forall i :: 0 <= i < |ws| ==>
              && TotalityKept(env[n].kind.total, env[n].fields[i])
              && FieldDemandsImplied(env, d, env[n], env[n].fields[i])
  {
    forall i | 0 <= i < |ws|
      ensures FieldAgrees(env, d, defs, env[n], env[n].fields[i]) <==>
              && TotalityKept(env[n].kind.total, env[n].fields[i])
              && FieldDemandsImplied(env, d, env[n], env[n].fields[i])
      ensures Passes(d, defs, FieldSchema(env[n], env[n].fields[i]), ws[i])
    {
      TotalityDecides(env, d, defs, env[n], env[n].fields[i]);
    }
    RecordExactIff(env, d, defs, n, ws);
  }

  // ----- a cyclic root -----

  /** A linked list as the root: its tail refers to a definition that was removed, so two nodes are rejected. */
  lemma CyclicRootDangles(d: Dialect, n: string, key: string, description: Option<string>, doc: Document)
    requires IsDocument(map[n := ListDecl(n, key, description)], n, doc)
    ensures var env := map[n := ListDecl(n, key, description)];
            var v := JObj(map[key := JObj(map[key := JNull])]);
            HasType(env, d, v, Record(n), []) && !Validates(d, doc.defs, doc.schema, v, {})
  {
    TwoNodesTyped(d, n, key, description);
    TailRejected(d, doc.defs, n, key, description, JObj(map[key := JNull]));
  }

  lemma TailRejected(
    d: Dialect, defs: map<string, Schema>, n: string, key: string, description: Option<string>, tail: Json)
    requires n !in defs && tail.JObj?
    ensures !Validates(d, defs, ObjectOf(ListDecl(n, key, description)), JObj(map[key := tail]), {})
  {
    var decl := ListDecl(n, key, description);
    var f := decl.fields[0];
    TailUnresolved(d, defs, n, tail);
    Redescribed(d, defs, Emit(f.annotation, []), description, tail);
    if Validates(d, defs, ObjectOf(decl), JObj(map[key := tail]), {}) {
      ObjectForm(d, defs, decl, JObj(map[key := tail]), {});
      assert false;
    }
  }

  lemma TailUnresolved(d: Dialect, defs: map<string, Schema>, n: string, tail: Json)
    requires n !in defs && tail.JObj?
    ensures !Conforms(d, defs, Union([Record(n), NoneT]), [], tail)
  {
    UnionForm(d, defs, [Record(n), NoneT], [], tail);
    Dangles(d, defs, n, tail);
    NullSchema(d, defs, tail);
  }

  lemma TwoNodesTyped(d: Dialect, n: string, key: string, description: Option<string>)
    ensures var env, v := map[n := ListDecl(n, key, description)], JObj(map[key := JObj(map[key := JNull])]);
            HasType(env, d, v, Record(n), [])
  {
    var env := map[n := ListDecl(n, key, description)];
    var inner := JObj(map[key := JNull]);
    var v := JObj(map[key := inner]);
    var t := Union([Record(n), NoneT]);
    assert AdmitsNull(t.args[1]);
    NullTyped(env, d, t, []);
    assert FieldTyped(env, d, n, 0, inner);
    assert Shaped(env, d, inner, Record(n));
    assert HasType(env, d, inner, t.args[0], []);
    assert FieldTyped(env, d, n, 0, v);
  }

  lemma Dangles(d: Dialect, defs: map<string, Schema>, n: string, v: Json)
    requires n !in defs
    ensures !Conforms(d, defs, Record(n), [], v)
  {
  }

  /** A class whose one key is itself or null. */
  function ListDecl(n: string, key: string, description: Option<string>): RecordDecl {
    RecordDecl(Dataclass, [Field(key, Union([Record(n), NoneT]), [], false, true, description, [])], [])
  }
}
