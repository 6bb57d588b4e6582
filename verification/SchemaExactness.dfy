/**
 Exactly when a schema says what its annotation says, for every list of
 constraints: sort by sort for the annotations whose limits stand beside them,
 with the condition for each sort.
 */
module SchemaExactness {
  import opened Options
  import opened SchemaTypes
  import opened SchemaEmit
  import opened SchemaMeaning
  import opened SchemaFaithful
  import opened SchemaRanges

  ghost predicate ExactAt(env: Env, d: Dialect, defs: map<string, Schema>, t: Ty, md: seq<Constraint>, v: Json) {
    Conforms(d, defs, t, md, v) <==> IsValue(env, d, t, md, v)
  }

  /** The schema accepts exactly the constrained values of the annotation. */
  ghost predicate Exact(env: Env, d: Dialect, defs: map<string, Schema>, t: Ty, md: seq<Constraint>) {
    forall v :: ExactAt(env, d, defs, t, md, v)
  }

  /** The same for the values of one JSON sort. */
  ghost predicate ExactOn(
    env: Env, d: Dialect, defs: map<string, Schema>, t: Ty, md: seq<Constraint>, sort: Sort)
  {
    forall v :: SortOf(v) == Some(sort) ==> ExactAt(env, d, defs, t, md, v)
  }

  // ----- demands that the compiler does not read -----

  predicate SameBounds(a: seq<Constraint>, b: seq<Constraint>) {
    |a| == |b| && forall i :: 0 <= i < |a| ==> a[i].own == b[i].own && a[i].nested == b[i].nested
  }

  lemma {:induction false} FlattenSame(a: seq<Constraint>, b: seq<Constraint>)
    requires SameBounds(a, b)
    ensures Nested(a) == Nested(b) && Flatten(a) == Flatten(b)
  {
    if a != [] { FlattenSame(a[..|a| - 1], b[..|b| - 1]); }
    assert Owned(a) == Owned(b);
  }

  lemma LimitsSame(t: Ty, a: seq<Constraint>, b: seq<Constraint>)
    requires SameBounds(a, b)
    ensures EmitLimits(t, a) == EmitLimits(t, b)
  {
    FlattenSame(a, b);
  }

  /** What is emitted depends only on the bounds. */
  lemma {:induction false} EmitSame(t: Ty, a: seq<Constraint>, b: seq<Constraint>)
    requires SameBounds(a, b)
    ensures Emit(t, a) == Emit(t, b)
    decreases t
  {
    LimitsSame(t, a, b);
    if t.Annotated? {
      EmitSame(t.base, t.metadata + a, t.metadata + b);
    } else if t.Alias? {
      EmitSame(t.target, a, b);
    } else if IsWrapper(t) {
      EmitSame(t.base, a, b);
    }
  }

  lemma StrippedEmits(t: Ty, md: seq<Constraint>)
    ensures Emit(t, Stripped(md)) == Emit(t, md) && EmitLimits(t, Stripped(md)) == EmitLimits(t, md)
    ensures Flatten(Stripped(md)) == Flatten(md)
  {
    FlattenSame(Stripped(md), md);
    LimitsSame(t, Stripped(md), md);
    EmitSame(t, Stripped(md), md);
  }

  lemma StrippedMeets(d: Dialect, md: seq<Constraint>, v: Json)
    ensures Meets(d, Stripped(md), v) <==> MeetsBounds(d, md, v)
    ensures MeetsBounds(d, Stripped(md), v) <==> MeetsBounds(d, md, v)
    ensures Meets(d, md, v) <==> Meets(d, Stripped(md), v) && Demanded(d, md, v)
  {
    StrippedEmits(StrT, md);
    MeetsFlattened(d, md, v);
    MeetsFlattened(d, Stripped(md), v);
  }

  lemma PlainApart(env: Env, d: Dialect, t: Ty, m: seq<Constraint>, md: seq<Constraint>, v: Json)
    requires !IsWrapper(t) && !t.Union?
    ensures IsValue(env, d, t, m + md, v) <==> IsValue(env, d, t, m + Stripped(md), v) && Demanded(d, md, v)
  {
    PlainTyped(env, d, v, t, m + md);
    PlainTyped(env, d, v, t, m + Stripped(md));
    MeetsConcat(d, m, md, v);
    MeetsConcat(d, m, Stripped(md), v);
    StrippedMeets(d, md, v);
    if t.DecimalT? && v.JStr? { NumberApart(d, m, md, d.decimal(v.s)); }
  }

  lemma NumberApart(d: Dialect, m: seq<Constraint>, md: seq<Constraint>, x: real)
    ensures MeetsBounds(d, m + md, JNum(x)) <==> MeetsBounds(d, m + Stripped(md), JNum(x))
  {
    BoundsConcat(d, m, md, JNum(x));
    BoundsConcat(d, m, Stripped(md), JNum(x));
    StrippedMeets(d, md, JNum(x));
  }

  /** A value is one of what the compiler reads, and meets the demands that it does not read. */
  lemma {:induction false} DemandsApart(env: Env, d: Dialect, t: Ty, m: seq<Constraint>, md: seq<Constraint>, v: Json)
    ensures IsValue(env, d, t, m + md, v) <==> IsValue(env, d, t, m + Stripped(md), v) && Demanded(d, md, v)
    decreases t
  {
    if t.Annotated? {
      assert t.metadata + (m + md) == (t.metadata + m) + md;
      assert t.metadata + (m + Stripped(md)) == (t.metadata + m) + Stripped(md);
      DemandsApart(env, d, t.base, t.metadata + m, md, v);
    } else if t.Alias? {
      DemandsApart(env, d, t.target, m, md, v);
    } else if IsWrapper(t) {
      DemandsApart(env, d, t.base, m, md, v);
    } else if t.Union? {
      forall i | 0 <= i < |t.args|
        ensures IsValue(env, d, t.args[i], m + md, v) <==>
                IsValue(env, d, t.args[i], m + Stripped(md), v) && Demanded(d, md, v)
      {
        DemandsApart(env, d, t.args[i], m, md, v);
      }
    } else {
      PlainApart(env, d, t, m, md, v);
    }
  }

  lemma ValueApart(env: Env, d: Dialect, t: Ty, md: seq<Constraint>, v: Json)
    ensures IsValue(env, d, t, md, v) <==> IsValue(env, d, t, Stripped(md), v) && Demanded(d, md, v)
  {
    DemandsApart(env, d, t, [], md, v);
    assert [] + md == md && [] + Stripped(md) == Stripped(md);
  }

  /** No value of the annotation, under the bounds around it, breaks a demand that the compiler does not read. */
  ghost predicate NoDemandBroken(env: Env, d: Dialect, t: Ty, md: seq<Constraint>) {
    forall v :: IsValue(env, d, t, Stripped(md), v) ==> Demanded(d, md, v)
  }

  /** At one value: exact with the demands exactly when exact without them, and met by the value. */
  lemma DemandsDecideAt(env: Env, d: Dialect, defs: map<string, Schema>, t: Ty, md: seq<Constraint>, v: Json)
    requires IsValue(env, d, t, Stripped(md), v) ==> Conforms(d, defs, t, Stripped(md), v)
    ensures ExactAt(env, d, defs, t, md, v) <==>
            && ExactAt(env, d, defs, t, Stripped(md), v)
            && (IsValue(env, d, t, Stripped(md), v) ==> Demanded(d, md, v))
  {
    StrippedConforms(d, defs, t, md, v);
    ValueApart(env, d, t, md, v);
  }

  lemma StrippedConforms(d: Dialect, defs: map<string, Schema>, t: Ty, md: seq<Constraint>, v: Json)
    ensures Conforms(d, defs, t, md, v) <==> Conforms(d, defs, t, Stripped(md), v)
  {
    StrippedEmits(t, md);
  }

  lemma DemandsDecide(env: Env, d: Dialect, defs: map<string, Schema>, t: Ty, md: seq<Constraint>)
    requires forall v :: IsValue(env, d, t, Stripped(md), v) ==> Conforms(d, defs, t, Stripped(md), v)
    ensures Exact(env, d, defs, t, md) <==> Exact(env, d, defs, t, Stripped(md)) && NoDemandBroken(env, d, t, md)
  {
    forall v
      ensures ExactAt(env, d, defs, t, md, v) <==>
              && ExactAt(env, d, defs, t, Stripped(md), v)
              && (IsValue(env, d, t, Stripped(md), v) ==> Demanded(d, md, v))
    {
      DemandsDecideAt(env, d, defs, t, md, v);
    }
  }

  /**
   For every annotation: the schema is exact with demands that the compiler does not read if and only
   if it is exact without them and no value breaks one.
   */
  lemma UnreadDemandsIff(env: Env, d: Dialect, defs: map<string, Schema>, t: Ty, md: seq<Constraint>)
    requires Declared(env, defs.Keys) && Resolved(env, defs) && RecordsIn(t) <= defs.Keys
    ensures Exact(env, d, defs, t, md) <==> Exact(env, d, defs, t, Stripped(md)) && NoDemandBroken(env, d, t, md)
  {
    forall v | IsValue(env, d, t, Stripped(md), v) ensures Conforms(d, defs, t, Stripped(md), v) {
      Accepts(env, d, defs, t, Stripped(md), v);
    }
    DemandsDecide(env, d, defs, t, md);
  }

  // ----- limits beside an annotation -----

  /** The annotations whose schema gets the limits added to it and is otherwise independent of the metadata. */
  predicate LimitsBeside(t: Ty) {
    t.Union? || t.ArrayOf? || t.StrT? || t.DateTimeT? || t.IntT? || t.FloatT?
  }

  lemma LimitsAre(t: Ty, md: seq<Constraint>)
    requires LimitsBeside(t)
    ensures EmitLimits(t, md) == ApplyAll(NO_LIMITS, Flatten(md), CountsItems(t))
    ensures EmitLimits(t, []) == NO_LIMITS
  {
    assert Flatten([]) == [];
  }

  lemma Beside(d: Dialect, defs: map<string, Schema>, t: Ty, md: seq<Constraint>, v: Json)
    requires LimitsBeside(t)
    ensures Conforms(d, defs, t, md, v) <==> Conforms(d, defs, t, [], v) && LimitsHold(d, EmitLimits(t, md), v)
  {
    LimitsAre(t, md);
    assert LimitsHold(d, NO_LIMITS, v);
    if t.Union? {
      UnionForm(d, defs, t.args, md, v);
      UnionForm(d, defs, t.args, [], v);
    } else if t.ArrayOf? {
      ArrayForm(d, defs, t.item, md, v);
      ArrayForm(d, defs, t.item, [], v);
    } else {
      LeafBeside(d, defs, t, md, v);
    }
  }

  lemma LeafBeside(d: Dialect, defs: map<string, Schema>, t: Ty, md: seq<Constraint>, v: Json)
    requires t.StrT? || t.DateTimeT? || t.IntT? || t.FloatT?
    ensures Conforms(d, defs, t, md, v) <==> Conforms(d, defs, t, [], v) && LimitsHold(d, EmitLimits(t, md), v)
  {
    LimitsAre(t, md);
    assert LimitsHold(d, NO_LIMITS, v);
    if IsText(t) {
      TextForm(map[], d, defs, t, md, v);
      TextForm(map[], d, defs, t, [], v);
    } else {
      ScalarForm(map[], d, defs, t, md, v);
      ScalarForm(map[], d, defs, t, [], v);
    }
  }

  /** What is left of exactness at one value: the limits that survive must imply the constraints. */
  lemma AtValue(env: Env, d: Dialect, defs: map<string, Schema>, t: Ty, md: seq<Constraint>, v: Json)
    requires LimitsBeside(t) && ExactAt(env, d, defs, t, [], v) && (v.JStr? ==> !Decimals(t))
    ensures ExactAt(env, d, defs, t, md, v) <==>
            (IsValue(env, d, t, [], v) && LimitsHold(d, EmitLimits(t, md), v) ==> Meets(d, md, v))
  {
    Beside(d, defs, t, md, v);
    TypedBeside(env, d, t, md, v);
    if Meets(d, md, v) { EmittedLimitsHold(env, d, t, md, v); }
  }

  lemma TypedBeside(env: Env, d: Dialect, t: Ty, md: seq<Constraint>, v: Json)
    requires v.JStr? ==> !Decimals(t)
    ensures IsValue(env, d, t, md, v) <==> IsValue(env, d, t, [], v) && Meets(d, md, v)
  {
    if IsValue(env, d, t, md, v) { ValueBare(env, d, t, md, v); }
    if IsValue(env, d, t, [], v) && Meets(d, md, v) { ValueMore(env, d, t, md, v); }
  }

  lemma DemandsBeside(env: Env, d: Dialect, defs: map<string, Schema>, t: Ty, md: seq<Constraint>)
    requires LimitsBeside(t) && Exact(env, d, defs, t, [])
    ensures Exact(env, d, defs, t, md) <==> Exact(env, d, defs, t, Stripped(md)) && NoDemandBroken(env, d, t, md)
  {
    forall v | IsValue(env, d, t, Stripped(md), v) ensures Conforms(d, defs, t, Stripped(md), v) {
      ValueBare(env, d, t, Stripped(md), v);
      assert ExactAt(env, d, defs, t, [], v);
      EmittedLimitsHold(env, d, t, Stripped(md), v);
      Beside(d, defs, t, Stripped(md), v);
    }
    DemandsDecide(env, d, defs, t, md);
  }

  /**
   Bounds never touch null and booleans, so exactness is decided sort by sort for the bounds, and by
   the values that break an unread demand.
   */
  lemma SortBySort(env: Env, d: Dialect, defs: map<string, Schema>, t: Ty, md: seq<Constraint>)
    requires LimitsBeside(t) && Exact(env, d, defs, t, [])
    ensures Exact(env, d, defs, t, md) <==>
            (forall sort :: ExactOn(env, d, defs, t, Stripped(md), sort)) && NoDemandBroken(env, d, t, md)
  {
    DemandsBeside(env, d, defs, t, md);
    if forall sort :: ExactOn(env, d, defs, t, Stripped(md), sort) {
      forall v ensures ExactAt(env, d, defs, t, Stripped(md), v) { SortDecides(env, d, defs, t, md, v); }
    }
  }

  lemma SortDecides(env: Env, d: Dialect, defs: map<string, Schema>, t: Ty, md: seq<Constraint>, v: Json)
    requires LimitsBeside(t) && Exact(env, d, defs, t, [])
    requires SortOf(v).Some? ==> ExactOn(env, d, defs, t, Stripped(md), SortOf(v).value)
    ensures ExactAt(env, d, defs, t, Stripped(md), v)
  {
    if SortOf(v).None? {
      assert ExactAt(env, d, defs, t, [], v);
      AtValue(env, d, defs, t, Stripped(md), v);
      RestMeets(d, md, v);
    }
  }

  lemma RestMeets(d: Dialect, md: seq<Constraint>, v: Json)
    requires SortOf(v).None?
    ensures Meets(d, Stripped(md), v)
  {
  }

  /** A sort of which the annotation has no value is exact. */
  lemma AbsentSort(env: Env, d: Dialect, defs: map<string, Schema>, t: Ty, md: seq<Constraint>, sort: Sort)
    requires LimitsBeside(t) && Exact(env, d, defs, t, []) && !MayBe(t, sort)
    ensures ExactOn(env, d, defs, t, md, sort)
  {
    forall v | SortOf(v) == Some(sort) ensures ExactAt(env, d, defs, t, md, v) {
      assert ExactAt(env, d, defs, t, [], v);
      if HasType(env, d, v, t, []) { SortsOfValues(env, d, v, t, []); }
      if HasType(env, d, v, t, md) { SortsOfValues(env, d, v, t, md); }
      Beside(d, defs, t, md, v);
    }
  }

  /** A union of exact arguments is exact before any metadata is put around it. */
  lemma UnionExact(env: Env, d: Dialect, defs: map<string, Schema>, args: seq<Ty>)
    requires forall i :: 0 <= i < |args| ==> Exact(env, d, defs, args[i], [])
    ensures Exact(env, d, defs, Union(args), [])
  {
    forall v ensures ExactAt(env, d, defs, Union(args), [], v) {
      UnionForm(d, defs, args, [], v);
      LimitsAre(Union(args), []);
      forall i | 0 <= i < |args| ensures Conforms(d, defs, args[i], [], v) <==> IsValue(env, d, args[i], [], v) {
        assert ExactAt(env, d, defs, args[i], [], v);
      }
    }
  }

  // ----- the sorts -----

  ghost predicate TakesFloats(env: Env, d: Dialect, t: Ty) {
    forall x :: IsValue(env, d, t, [], JNum(x))
  }

  ghost predicate TakesInts(env: Env, d: Dialect, t: Ty) {
    forall x :: IsValue(env, d, t, [], JNum(x)) <==> IsInteger(x)
  }

  predicate ImpliesNumbers(f: Limits, md: seq<Constraint>) {
    EmptyRange(f) || forall b :: b in Flatten(md) ==> ImpliesNumber(f, b)
  }

  predicate ImpliesIntegers(f: Limits, md: seq<Constraint>) {
    NoInteger(f) || forall b :: b in Flatten(md) ==> ImpliesInteger(f, b)
  }

  predicate ImpliesLengths(low: Option<nat>, high: Option<nat>, md: seq<Constraint>) {
    NoLengthFits(low, high) || forall b :: b in Flatten(md) ==> ImpliesLength(low, high, b)
  }

  lemma NumberMeets(d: Dialect, md: seq<Constraint>, x: real)
    ensures Meets(d, Stripped(md), JNum(x)) <==> forall b :: b in Flatten(md) ==> WithinNumber(b, x)
  {
    StrippedMeets(d, md, JNum(x));
    MeetsFlattened(d, md, JNum(x));
    assert forall b :: Within(d, b, JNum(x)) <==> WithinNumber(b, x);
  }

  lemma NumberAt(env: Env, d: Dialect, defs: map<string, Schema>, t: Ty, md: seq<Constraint>, x: real)
    requires LimitsBeside(t) && Exact(env, d, defs, t, [])
    ensures ExactAt(env, d, defs, t, Stripped(md), JNum(x)) <==>
            (IsValue(env, d, t, [], JNum(x)) && InRange(EmitLimits(t, md), x) ==>
             forall b :: b in Flatten(md) ==> WithinNumber(b, x))
  {
    assert ExactAt(env, d, defs, t, [], JNum(x));
    AtValue(env, d, defs, t, Stripped(md), JNum(x));
    StrippedEmits(t, md);
    NumberMeets(d, md, x);
    assert LimitsHold(d, EmitLimits(t, md), JNum(x)) <==> InRange(EmitLimits(t, md), x);
  }

  /** Numbers, where every number is a value. */
  lemma FloatsExactIff(env: Env, d: Dialect, defs: map<string, Schema>, t: Ty, md: seq<Constraint>)
    requires LimitsBeside(t) && Exact(env, d, defs, t, []) && TakesFloats(env, d, t)
    ensures ExactOn(env, d, defs, t, Stripped(md), NumberSort) <==> ImpliesNumbers(EmitLimits(t, md), md)
  {
    var f := EmitLimits(t, md);
    forall x
      ensures ExactAt(env, d, defs, t, Stripped(md), JNum(x)) <==>
              (InRange(f, x) ==> forall b :: b in Flatten(md) ==> WithinNumber(b, x))
    {
      NumberAt(env, d, defs, t, md, x);
    }
    NumbersImplied(f, Flatten(md));
    NumberSortIs(env, d, defs, t, md);
  }

  lemma NumberSortIs(env: Env, d: Dialect, defs: map<string, Schema>, t: Ty, md: seq<Constraint>)
    ensures ExactOn(env, d, defs, t, Stripped(md), NumberSort) <==>
            forall x :: ExactAt(env, d, defs, t, Stripped(md), JNum(x))
  {
    forall v | SortOf(v) == Some(NumberSort) ensures v == JNum(v.n) {}
    if ExactOn(env, d, defs, t, Stripped(md), NumberSort) {
      forall x ensures ExactAt(env, d, defs, t, Stripped(md), JNum(x)) { assert SortOf(JNum(x)) == Some(NumberSort); }
    }
  }

  /** Numbers, where exactly the whole ones are values. */
  lemma IntsExactIff(env: Env, d: Dialect, defs: map<string, Schema>, t: Ty, md: seq<Constraint>)
    requires LimitsBeside(t) && Exact(env, d, defs, t, []) && TakesInts(env, d, t)
    ensures ExactOn(env, d, defs, t, Stripped(md), NumberSort) <==> ImpliesIntegers(EmitLimits(t, md), md)
  {
    var f := EmitLimits(t, md);
    forall x
      ensures ExactAt(env, d, defs, t, Stripped(md), JNum(x)) <==>
              (IsInteger(x) && InRange(f, x) ==> forall b :: b in Flatten(md) ==> WithinNumber(b, x))
    {
      NumberAt(env, d, defs, t, md, x);
      assert IsValue(env, d, t, [], JNum(x)) <==> IsInteger(x);
    }
    IntegersImplied(f, Flatten(md));
    NumberSortIs(env, d, defs, t, md);
  }

  predicate NoPatterns(md: seq<Constraint>) {
    forall b :: b in Flatten(md) ==> b.pattern.None?
  }

  lemma {:induction false} NoPatternWritten(bs: seq<Bounds>, arrays: bool)
    requires forall b :: b in bs ==> b.pattern.None?
    ensures ApplyAll(NO_LIMITS, bs, arrays).pattern.None?
  {
    if bs != [] {
      NoPatternWritten(bs[..|bs| - 1], arrays);
      assert bs[|bs| - 1] in bs;
    }
  }

  function Spaces(n: nat): (s: string)
    ensures |s| == n
  {
    seq(n, _ => ' ')
  }

  /** Every text that meets the metadata is a value, as where `str` is an argument. */
  ghost predicate TakesTexts(env: Env, d: Dialect, t: Ty, md: seq<Constraint>) {
    forall s ::
      && IsValue(env, d, t, [], JStr(s))
      && (Meets(d, Stripped(md), JStr(s)) ==> IsValue(env, d, t, Stripped(md), JStr(s)))
  }

  lemma TextMeets(d: Dialect, md: seq<Constraint>, s: string)
    requires NoPatterns(md)
    ensures Meets(d, Stripped(md), JStr(s)) <==> forall b :: b in Flatten(md) ==> WithinLength(b, |s|)
  {
    StrippedMeets(d, md, JStr(s));
    MeetsFlattened(d, md, JStr(s));
    assert forall b :: b in Flatten(md) ==> (Within(d, b, JStr(s)) <==> WithinLength(b, |s|));
  }

  lemma TextAt(env: Env, d: Dialect, defs: map<string, Schema>, t: Ty, md: seq<Constraint>, s: string)
    requires LimitsBeside(t) && Exact(env, d, defs, t, []) && TakesTexts(env, d, t, md) && NoPatterns(md)
    ensures var f := EmitLimits(t, md);
            ExactAt(env, d, defs, t, Stripped(md), JStr(s)) <==>
            (InLength(f.minLength, f.maxLength, |s|) ==> forall b :: b in Flatten(md) ==> WithinLength(b, |s|))
  {
    assert ExactAt(env, d, defs, t, [], JStr(s)) && IsValue(env, d, t, [], JStr(s));
    Beside(d, defs, t, Stripped(md), JStr(s));
    StrippedEmits(t, md);
    LimitsAre(t, md);
    NoPatternWritten(Flatten(md), CountsItems(t));
    TextMeets(d, md, s);
    if IsValue(env, d, t, Stripped(md), JStr(s)) { ValueBare(env, d, t, Stripped(md), JStr(s)); }
    if Meets(d, Stripped(md), JStr(s)) { EmittedLimitsHold(env, d, t, Stripped(md), JStr(s)); }
  }

  /** Texts, where every one is a value and no pattern is asked for. */
  lemma TextsExactIff(env: Env, d: Dialect, defs: map<string, Schema>, t: Ty, md: seq<Constraint>)
    requires LimitsBeside(t) && Exact(env, d, defs, t, []) && TakesTexts(env, d, t, md) && NoPatterns(md)
    ensures var f := EmitLimits(t, md);
            ExactOn(env, d, defs, t, Stripped(md), TextSort) <==> ImpliesLengths(f.minLength, f.maxLength, md)
  {
    var f := EmitLimits(t, md);
    LengthsImplied(f.minLength, f.maxLength, Flatten(md));
    if ImpliesLengths(f.minLength, f.maxLength, md) {
      forall v | SortOf(v) == Some(TextSort) ensures ExactAt(env, d, defs, t, Stripped(md), v) {
        TextAt(env, d, defs, t, md, v.s);
      }
    } else {
      var n: nat :| InLength(f.minLength, f.maxLength, n) && !forall b :: b in Flatten(md) ==> WithinLength(b, n);
      TextAt(env, d, defs, t, md, Spaces(n));
      assert SortOf(JStr(Spaces(n))) == Some(TextSort);
    }
  }

  /** Some value is an array of this length. */
  ghost predicate HasArray(env: Env, d: Dialect, t: Ty, n: nat) {
    exists v :: IsValue(env, d, t, [], v) && v.JArr? && |v.items| == n
  }

  lemma ArrayAt(env: Env, d: Dialect, defs: map<string, Schema>, t: Ty, md: seq<Constraint>, v: Json)
    requires LimitsBeside(t) && Exact(env, d, defs, t, []) && v.JArr?
    ensures var f := EmitLimits(t, md);
            ExactAt(env, d, defs, t, Stripped(md), v) <==>
            (IsValue(env, d, t, [], v) && InLength(f.minItems, f.maxItems, |v.items|) ==>
             forall b :: b in Flatten(md) ==> WithinLength(b, |v.items|))
  {
    assert ExactAt(env, d, defs, t, [], v);
    AtValue(env, d, defs, t, Stripped(md), v);
    StrippedEmits(t, md);
    StrippedMeets(d, md, v);
    MeetsFlattened(d, md, v);
    assert forall b :: Within(d, b, v) <==> WithinLength(b, |v.items|);
  }

  /** Arrays, where there are values of every length. */
  lemma ArraysExactIff(env: Env, d: Dialect, defs: map<string, Schema>, t: Ty, md: seq<Constraint>)
    requires LimitsBeside(t) && Exact(env, d, defs, t, []) && forall n: nat :: HasArray(env, d, t, n)
    ensures var f := EmitLimits(t, md);
            ExactOn(env, d, defs, t, Stripped(md), ArraySort) <==> ImpliesLengths(f.minItems, f.maxItems, md)
  {
    var f := EmitLimits(t, md);
    LengthsImplied(f.minItems, f.maxItems, Flatten(md));
    if ImpliesLengths(f.minItems, f.maxItems, md) {
      forall v | SortOf(v) == Some(ArraySort) ensures ExactAt(env, d, defs, t, Stripped(md), v) {
        ArrayAt(env, d, defs, t, md, v);
      }
    } else {
      var n: nat :| InLength(f.minItems, f.maxItems, n) && !forall b :: b in Flatten(md) ==> WithinLength(b, n);
      assert HasArray(env, d, t, n);
      var v :| IsValue(env, d, t, [], v) && v.JArr? && |v.items| == n;
      ArrayAt(env, d, defs, t, md, v);
      assert SortOf(v) == Some(ArraySort);
    }
  }

  /** Some value is an object of this size. */
  ghost predicate HasObject(env: Env, d: Dialect, t: Ty, n: nat) {
    exists v :: IsValue(env, d, t, [], v) && v.JObj? && |v.fields| == n
  }

  /** No bound on lengths that some length breaks. */
  predicate NoLengths(md: seq<Constraint>) {
    forall b :: b in Flatten(md) ==> ImpliesLength(None, None, b)
  }

  lemma ObjectMeets(d: Dialect, md: seq<Constraint>, v: Json)
    requires v.JObj?
    ensures Meets(d, Stripped(md), v) <==> forall b :: b in Flatten(md) ==> WithinLength(b, |v.fields|)
  {
    StrippedMeets(d, md, v);
    MeetsFlattened(d, md, v);
    assert forall b :: Within(d, b, v) <==> WithinLength(b, |v.fields|);
  }

  lemma ObjectAt(env: Env, d: Dialect, defs: map<string, Schema>, t: Ty, md: seq<Constraint>, v: Json)
    requires LimitsBeside(t) && Exact(env, d, defs, t, []) && v.JObj?
    ensures ExactAt(env, d, defs, t, Stripped(md), v) <==>
            (IsValue(env, d, t, [], v) ==> forall b :: b in Flatten(md) ==> WithinLength(b, |v.fields|))
  {
    assert ExactAt(env, d, defs, t, [], v);
    AtValue(env, d, defs, t, Stripped(md), v);
    StrippedEmits(t, md);
    StrippedMeets(d, md, v);
    ObjectMeets(d, md, v);
  }

  /** Objects, where there are values of every size: no length bound is ever written for them. */
  lemma ObjectsExactIff(env: Env, d: Dialect, defs: map<string, Schema>, t: Ty, md: seq<Constraint>)
    requires LimitsBeside(t) && Exact(env, d, defs, t, []) && forall n: nat :: HasObject(env, d, t, n)
    ensures ExactOn(env, d, defs, t, Stripped(md), ObjectSort) <==> NoLengths(md)
  {
    LengthsImplied(None, None, Flatten(md));
    if NoLengths(md) {
      forall v | SortOf(v) == Some(ObjectSort) ensures ExactAt(env, d, defs, t, Stripped(md), v) {
        ObjectAt(env, d, defs, t, md, v);
      }
    } else {
      var n: nat :| InLength(None, None, n) && !forall b :: b in Flatten(md) ==> WithinLength(b, n);
      assert HasObject(env, d, t, n);
      var v :| IsValue(env, d, t, [], v) && v.JObj? && |v.fields| == n;
      ObjectAt(env, d, defs, t, md, v);
      assert SortOf(v) == Some(ObjectSort);
    }
  }

  /** Where only one sort has values, it decides. */
  lemma OneSort(env: Env, d: Dialect, defs: map<string, Schema>, t: Ty, md: seq<Constraint>, sort: Sort)
    requires LimitsBeside(t) && Exact(env, d, defs, t, []) && forall other: Sort :: other != sort ==> !MayBe(t, other)
    ensures Exact(env, d, defs, t, md) <==>
            ExactOn(env, d, defs, t, Stripped(md), sort) && NoDemandBroken(env, d, t, md)
  {
    SortBySort(env, d, defs, t, md);
    forall other: Sort | other != sort ensures ExactOn(env, d, defs, t, Stripped(md), other) {
      AbsentSort(env, d, defs, t, Stripped(md), other);
    }
  }
}
