/**
 Exactness of each kind of annotation, for every list of constraints around it.
 Where a bound is dropped or overwritten, the condition says when that is harmless.
 */
module SchemaExactTypes {
  import opened Options
  import opened SchemaTypes
  import opened SchemaEmit
  import opened SchemaMeaning
  import opened SchemaFaithful
  import opened SchemaRanges
  import opened SchemaExactness
  import opened Prices

  // ----- numbers and texts -----

  lemma LeafExact(env: Env, d: Dialect, defs: map<string, Schema>, t: Ty)
    requires t.StrT? || t.DateTimeT? || t.IntT? || t.FloatT?
    ensures Exact(env, d, defs, t, [])
    ensures forall v :: IsValue(env, d, t, [], v) <==> Shaped(env, d, v, t)
  {
    forall v ensures ExactAt(env, d, defs, t, [], v) && (IsValue(env, d, t, [], v) <==> Shaped(env, d, v, t)) {
      LimitsAre(t, []);
      ShapedTyped(env, d, v, t);
      assert LimitsHold(d, NO_LIMITS, v);
      if IsText(t) { TextForm(env, d, defs, t, [], v); } else { ScalarForm(env, d, defs, t, [], v); }
    }
  }

  /**
   For every constraint list, a float's schema is exact if and only if each bound is implied or
   nothing is allowed, and no value breaks a demand that the compiler does not read.
   */
  lemma FloatExactIff(env: Env, d: Dialect, defs: map<string, Schema>, md: seq<Constraint>)
    ensures Exact(env, d, defs, FloatT, md) <==>
            ImpliesNumbers(EmitLimits(FloatT, md), md) && NoDemandBroken(env, d, FloatT, md)
  {
    LeafExact(env, d, defs, FloatT);
    OneSort(env, d, defs, FloatT, md, NumberSort);
    FloatsExactIff(env, d, defs, FloatT, md);
  }

  /** The same for integers, whose bounds may lie between two of them. */
  lemma IntExactIff(env: Env, d: Dialect, defs: map<string, Schema>, md: seq<Constraint>)
    ensures Exact(env, d, defs, IntT, md) <==>
            ImpliesIntegers(EmitLimits(IntT, md), md) && NoDemandBroken(env, d, IntT, md)
  {
    LeafExact(env, d, defs, IntT);
    OneSort(env, d, defs, IntT, md, NumberSort);
    IntsExactIff(env, d, defs, IntT, md);
  }

  /** The same for the lengths of strings without patterns. */
  lemma TextExactIff(env: Env, d: Dialect, defs: map<string, Schema>, md: seq<Constraint>)
    requires NoPatterns(md)
    ensures var f := EmitLimits(StrT, md);
            Exact(env, d, defs, StrT, md) <==>
            ImpliesLengths(f.minLength, f.maxLength, md) && NoDemandBroken(env, d, StrT, md)
  {
    LeafExact(env, d, defs, StrT);
    OneSort(env, d, defs, StrT, md, TextSort);
    StrTexts(env, d, md);
    TextsExactIff(env, d, defs, StrT, md);
  }

  lemma StrTexts(env: Env, d: Dialect, md: seq<Constraint>)
    ensures TakesTexts(env, d, StrT, md)
  {
    forall s
      ensures IsValue(env, d, StrT, [], JStr(s))
      ensures Meets(d, Stripped(md), JStr(s)) ==> IsValue(env, d, StrT, Stripped(md), JStr(s))
    {
      ShapedTyped(env, d, JStr(s), StrT);
      if Meets(d, Stripped(md), JStr(s)) { ValueMore(env, d, StrT, Stripped(md), JStr(s)); }
    }
  }

  /**
   With patterns too, and for date-times: exact if and only if every text that the keywords allow
   meets the metadata.
   */
  lemma PatternExactIff(env: Env, d: Dialect, defs: map<string, Schema>, t: Ty, md: seq<Constraint>)
    requires t.StrT? || t.DateTimeT?
    ensures Exact(env, d, defs, t, md) <==> forall s :: TextKept(env, d, t, md, s)
  {
    LeafExact(env, d, defs, t);
    forall v
      ensures ExactAt(env, d, defs, t, md, v) <==>
              (Shaped(env, d, v, t) && LimitsHold(d, EmitLimits(t, md), v) ==> Meets(d, md, v))
    {
      assert ExactAt(env, d, defs, t, [], v);
      AtValue(env, d, defs, t, md, v);
    }
    if forall s :: TextKept(env, d, t, md, s) {
      forall v ensures ExactAt(env, d, defs, t, md, v) { if v.JStr? { assert TextKept(env, d, t, md, v.s); } }
    }
    if Exact(env, d, defs, t, md) {
      forall s ensures TextKept(env, d, t, md, s) { assert ExactAt(env, d, defs, t, md, JStr(s)); }
    }
  }

  ghost predicate TextKept(env: Env, d: Dialect, t: Ty, md: seq<Constraint>, s: string) {
    Shaped(env, d, JStr(s), t) && LimitsHold(d, EmitLimits(t, md), JStr(s)) ==> Meets(d, md, JStr(s))
  }

  // ----- annotations whose metadata are ignored -----

  /** The branches that return without applying the metadata. */
  predicate IgnoresMetadata(t: Ty) {
    t.AnyT? || t.NeverT? || t.Literal? || t.Mapping? || t.Record? || t.BoolT? || t.NoneT?
  }

  /** There the schema is exact if and only if every value meets the metadata. */
  lemma IgnoredIff(env: Env, d: Dialect, defs: map<string, Schema>, t: Ty, md: seq<Constraint>)
    requires IgnoresMetadata(t) && Exact(env, d, defs, t, [])
    ensures Exact(env, d, defs, t, md) <==> forall v :: IsValue(env, d, t, [], v) ==> Meets(d, md, v)
  {
    forall v ensures ExactAt(env, d, defs, t, md, v) <==> (IsValue(env, d, t, [], v) ==> Meets(d, md, v)) {
      assert ExactAt(env, d, defs, t, [], v);
      IgnoredAt(env, d, defs, t, md, v);
    }
  }

  lemma IgnoredAt(env: Env, d: Dialect, defs: map<string, Schema>, t: Ty, md: seq<Constraint>, v: Json)
    requires IgnoresMetadata(t) && ExactAt(env, d, defs, t, [], v)
    ensures ExactAt(env, d, defs, t, md, v) <==> (IsValue(env, d, t, [], v) ==> Meets(d, md, v))
  {
    IgnoredConforms(d, defs, t, md, v);
    TypedBeside(env, d, t, md, v);
  }

  lemma IgnoredConforms(d: Dialect, defs: map<string, Schema>, t: Ty, md: seq<Constraint>, v: Json)
    requires IgnoresMetadata(t)
    ensures Conforms(d, defs, t, md, v) <==> Conforms(d, defs, t, [], v)
  {
    assert Emit(t, md) == Emit(t, []);
  }

  lemma IgnoredDemands(env: Env, d: Dialect, defs: map<string, Schema>, t: Ty, md: seq<Constraint>)
    requires IgnoresMetadata(t) && Exact(env, d, defs, t, [])
    ensures Exact(env, d, defs, t, md) <==> Exact(env, d, defs, t, Stripped(md)) && NoDemandBroken(env, d, t, md)
  {
    forall v | IsValue(env, d, t, Stripped(md), v) ensures Conforms(d, defs, t, Stripped(md), v) {
      ValueBare(env, d, t, Stripped(md), v);
      assert ExactAt(env, d, defs, t, [], v);
      IgnoredConforms(d, defs, t, Stripped(md), v);
    }
    DemandsDecide(env, d, defs, t, md);
  }

  lemma PlainExact(env: Env, d: Dialect, defs: map<string, Schema>, t: Ty)
    requires t.AnyT? || t.NeverT? || t.BoolT? || t.NoneT?
    ensures Exact(env, d, defs, t, []) && forall v :: IsValue(env, d, t, [], v) <==> Shaped(env, d, v, t)
  {
    forall v ensures ExactAt(env, d, defs, t, [], v) && (IsValue(env, d, t, [], v) <==> Shaped(env, d, v, t)) {
      ShapedTyped(env, d, v, t);
      ScalarForm(env, d, defs, t, [], v);
      assert LimitsHold(d, EmitLimits(t, []), v);
    }
  }

  ghost predicate IsListed(values: seq<Lit>, v: Json) {
    exists i :: 0 <= i < |values| && v == Image(values[i])
  }

  lemma LiteralValues(env: Env, d: Dialect, defs: map<string, Schema>, values: seq<Lit>)
    ensures Exact(env, d, defs, Literal(values), [])
    ensures forall v :: IsValue(env, d, Literal(values), [], v) <==> IsListed(values, v)
  {
    forall v
      ensures ExactAt(env, d, defs, Literal(values), [], v)
      ensures IsValue(env, d, Literal(values), [], v) <==> IsListed(values, v)
    {
      ShapedTyped(env, d, v, Literal(values));
      LiteralExact(d, defs, values, v);
    }
  }

  /** Constraints on a literal or an enumeration are dropped: exact if and only if each listed value meets them. */
  lemma LiteralExactIff(env: Env, d: Dialect, defs: map<string, Schema>, values: seq<Lit>, md: seq<Constraint>)
    ensures Exact(env, d, defs, Literal(values), md) <==>
            forall i :: 0 <= i < |values| ==> Meets(d, md, Image(values[i]))
  {
    LiteralValues(env, d, defs, values);
    IgnoredIff(env, d, defs, Literal(values), md);
    forall i | 0 <= i < |values| ensures IsValue(env, d, Literal(values), [], Image(values[i])) {
      assert IsListed(values, Image(values[i]));
    }
  }

  /** Constraints on a boolean bind only through demands that the compiler does not read. */
  lemma BoolExactIff(env: Env, d: Dialect, defs: map<string, Schema>, md: seq<Constraint>)
    ensures Exact(env, d, defs, BoolT, md) <==> Demanded(d, md, JBool(false)) && Demanded(d, md, JBool(true))
  {
    PlainExact(env, d, defs, BoolT);
    IgnoredIff(env, d, defs, BoolT, md);
    assert forall b :: Meets(d, md, JBool(b)) <==> Demanded(d, md, JBool(b));
    assert IsValue(env, d, BoolT, [], JBool(false)) && IsValue(env, d, BoolT, [], JBool(true));
    forall v | IsValue(env, d, BoolT, [], v) ensures v == JBool(false) || v == JBool(true) {
      assert v.JBool? && (v.b || !v.b);
    }
  }

  /** Nor do they bind null otherwise, and nothing is a value of `Never`. */
  lemma NullExactIff(env: Env, d: Dialect, defs: map<string, Schema>, md: seq<Constraint>)
    ensures Exact(env, d, defs, NoneT, md) <==> Demanded(d, md, JNull)
    ensures Exact(env, d, defs, NeverT, md)
  {
    PlainExact(env, d, defs, NoneT);
    IgnoredIff(env, d, defs, NoneT, md);
    PlainExact(env, d, defs, NeverT);
    IgnoredIff(env, d, defs, NeverT, md);
    assert Meets(d, md, JNull) <==> Demanded(d, md, JNull);
    assert IsValue(env, d, NoneT, [], JNull);
  }

  /** The bounds that no JSON value breaks. */
  predicate Unbounded(b: Bounds) {
    && b.ge.None? && b.gt.None? && b.le.None? && b.lt.None?
    && ImpliesLength(None, None, b)
  }

  /** A value that breaks a bound which some value breaks. */
  lemma BreaksUnbounded(d: Dialect, b: Bounds) returns (v: Json)
    requires !Unbounded(b) && b.pattern.None?
    ensures !Within(d, b, v)
  {
    if !ImpliesLength(None, None, b) {
      var n := EscapesLength(None, None, b);
      v := JStr(Spaces(n));
    } else if b.ge.Some? {
      v := JNum(b.ge.value - 1.0);
    } else if b.gt.Some? {
      v := JNum(b.gt.value);
    } else if b.le.Some? {
      v := JNum(b.le.value + 1.0);
    } else {
      v := JNum(b.lt.value);
    }
  }

  lemma BoundsBindNothing(d: Dialect, md: seq<Constraint>)
    requires NoPatterns(md)
    ensures (forall v :: MeetsBounds(d, md, v)) <==> forall b :: b in Flatten(md) ==> Unbounded(b)
  {
    if forall b :: b in Flatten(md) ==> Unbounded(b) {
      forall v ensures MeetsBounds(d, md, v) {
        MeetsFlattened(d, md, v);
        forall b | b in Flatten(md) ensures Within(d, b, v) { assert Unbounded(b) && b.pattern.None?; }
      }
    } else {
      var b :| b in Flatten(md) && !Unbounded(b);
      var v := BreaksUnbounded(d, b);
      MeetsFlattened(d, md, v);
    }
  }

  /** Constraints on `Any` are dropped: exact if and only if they bind nothing. */
  lemma AnyExactIff(env: Env, d: Dialect, defs: map<string, Schema>, md: seq<Constraint>)
    ensures Exact(env, d, defs, AnyT, md) <==> forall v :: Meets(d, md, v)
    ensures NoPatterns(md) ==>
            (Exact(env, d, defs, AnyT, md) <==>
             (forall b :: b in Flatten(md) ==> Unbounded(b)) && forall v :: Demanded(d, md, v))
  {
    PlainExact(env, d, defs, AnyT);
    IgnoredIff(env, d, defs, AnyT, md);
    forall v ensures IsValue(env, d, AnyT, [], v) {}
    MeetsEverywhere(d, md);
    if NoPatterns(md) { BoundsBindNothing(d, md); }
  }

  lemma MeetsEverywhere(d: Dialect, md: seq<Constraint>)
    ensures (forall v :: Meets(d, md, v)) <==> (forall v :: MeetsBounds(d, md, v)) && forall v :: Demanded(d, md, v)
  {
    if forall v :: Meets(d, md, v) {
      forall v ensures MeetsBounds(d, md, v) && Demanded(d, md, v) { assert Meets(d, md, v); }
    }
  }

  // ----- arrays -----

  lemma ArrayExact(env: Env, d: Dialect, defs: map<string, Schema>, u: Ty)
    requires Exact(env, d, defs, u, [])
    ensures Exact(env, d, defs, ArrayOf(u), [])
  {
    forall v ensures ExactAt(env, d, defs, ArrayOf(u), [], v) {
      LimitsAre(ArrayOf(u), []);
      assert LimitsHold(d, NO_LIMITS, v);
      ArrayForm(d, defs, u, [], v);
      ArrayValue(env, d, u, v);
      if v.JArr? {
        forall i | 0 <= i < |v.items|
          ensures Conforms(d, defs, u, [], v.items[i]) <==> IsValue(env, d, u, [], v.items[i])
        {
          assert ExactAt(env, d, defs, u, [], v.items[i]);
        }
      }
    }
  }

  lemma ArrayValue(env: Env, d: Dialect, u: Ty, v: Json)
    ensures IsValue(env, d, ArrayOf(u), [], v) <==>
            v.JArr? && forall i :: 0 <= i < |v.items| ==> IsValue(env, d, u, [], v.items[i])
  {
    ShapedTyped(env, d, v, ArrayOf(u));
  }

  lemma RepeatedItem(env: Env, d: Dialect, u: Ty, w: Json, n: nat)
    requires IsValue(env, d, u, [], w)
    ensures IsValue(env, d, ArrayOf(u), [], JArr(seq(n, _ => w)))
  {
    ArrayValue(env, d, u, JArr(seq(n, _ => w)));
  }

  /**
   With a value of the item type, an array's schema is exact if and only if each length bound is
   implied or no length is allowed, and no array breaks an unread demand.
   */
  lemma ArrayExactIff(env: Env, d: Dialect, defs: map<string, Schema>, u: Ty, md: seq<Constraint>, w: Json)
    requires Exact(env, d, defs, u, []) && IsValue(env, d, u, [], w)
    ensures var f := EmitLimits(ArrayOf(u), md);
            Exact(env, d, defs, ArrayOf(u), md) <==>
            ImpliesLengths(f.minItems, f.maxItems, md) && NoDemandBroken(env, d, ArrayOf(u), md)
  {
    ArrayExact(env, d, defs, u);
    OneSort(env, d, defs, ArrayOf(u), md, ArraySort);
    forall n: nat ensures HasArray(env, d, ArrayOf(u), n) { RepeatedItem(env, d, u, w, n); }
    ArraysExactIff(env, d, defs, ArrayOf(u), md);
  }

  /** When the item type has no value, only the empty array counts. */
  lemma EmptyArrayExactIff(env: Env, d: Dialect, defs: map<string, Schema>, u: Ty, md: seq<Constraint>)
    requires Exact(env, d, defs, u, []) && forall w :: !IsValue(env, d, u, [], w)
    ensures var f := EmitLimits(ArrayOf(u), md);
            Exact(env, d, defs, ArrayOf(u), md) <==>
            && (InLength(f.minItems, f.maxItems, 0) ==> forall b :: b in Flatten(md) ==> WithinLength(b, 0))
            && NoDemandBroken(env, d, ArrayOf(u), md)
  {
    ArrayExact(env, d, defs, u);
    OneSort(env, d, defs, ArrayOf(u), md, ArraySort);
    EmptyArrayDecides(env, d, defs, u, md);
  }

  lemma EmptyArrayDecides(env: Env, d: Dialect, defs: map<string, Schema>, u: Ty, md: seq<Constraint>)
    requires Exact(env, d, defs, ArrayOf(u), []) && forall w :: !IsValue(env, d, u, [], w)
    ensures var f := EmitLimits(ArrayOf(u), md);
            ExactOn(env, d, defs, ArrayOf(u), Stripped(md), ArraySort) <==>
            (InLength(f.minItems, f.maxItems, 0) ==> forall b :: b in Flatten(md) ==> WithinLength(b, 0))
  {
    forall v | SortOf(v) == Some(ArraySort)
      ensures IsValue(env, d, ArrayOf(u), [], v) <==> v == JArr([])
    {
      ArrayValue(env, d, u, v);
      if v.items != [] { assert !IsValue(env, d, u, [], v.items[0]); }
    }
    forall v | SortOf(v) == Some(ArraySort) { ArrayAt(env, d, defs, ArrayOf(u), md, v); }
    assert SortOf(JArr([])) == Some(ArraySort);
  }

  // ----- fixed tuples -----

  ghost predicate PartsExact(env: Env, d: Dialect, defs: map<string, Schema>, parts: seq<Ty>, ws: seq<Json>) {
    && |ws| == |parts|
    && forall i :: 0 <= i < |parts| ==> Exact(env, d, defs, parts[i], []) && IsValue(env, d, parts[i], [], ws[i])
  }

  /** As many items as asked for: values of the parts, and anything after them. */
  function Items(ws: seq<Json>, n: nat): (r: seq<Json>)
    ensures |r| == n && forall i :: 0 <= i < n && i < |ws| ==> r[i] == ws[i]
  {
    seq(n, i => if 0 <= i < |ws| then ws[i] else JNull)
  }

  lemma TupleValue(env: Env, d: Dialect, parts: seq<Ty>, md: seq<Constraint>, v: Json)
    ensures IsValue(env, d, TupleOf(parts), Stripped(md), v) <==>
            && v.JArr? && |v.items| == |parts|
            && (forall i :: 0 <= i < |parts| ==> IsValue(env, d, parts[i], [], v.items[i]))
            && forall b :: b in Flatten(md) ==> WithinLength(b, |parts|)
  {
    TypedBeside(env, d, TupleOf(parts), Stripped(md), v);
    ShapedTyped(env, d, v, TupleOf(parts));
    StrippedMeets(d, md, v);
    MeetsFlattened(d, md, v);
    if v.JArr? { assert forall b :: Within(d, b, v) <==> WithinLength(b, |v.items|); }
  }

  lemma TupleConforms(
    env: Env, d: Dialect, defs: map<string, Schema>, parts: seq<Ty>, md: seq<Constraint>, ws: seq<Json>, v: Json)
    requires PartsExact(env, d, defs, parts, ws)
    ensures var f := EmitLimits(TupleOf(parts), md);
            Conforms(d, defs, TupleOf(parts), md, v) <==>
            && v.JArr? && InLength(f.minItems, f.maxItems, |v.items|)
            && forall i :: 0 <= i < |parts| && i < |v.items| ==> IsValue(env, d, parts[i], [], v.items[i])
  {
    TupleForm(d, defs, parts, md, v);
    if v.JArr? {
      forall i | 0 <= i < |parts| && i < |v.items|
        ensures Conforms(d, defs, parts[i], [], v.items[i]) <==> IsValue(env, d, parts[i], [], v.items[i])
      {
        assert ExactAt(env, d, defs, parts[i], [], v.items[i]);
      }
    }
  }

  /** The only length that the surviving limits leave is the arity, and every bound holds there; or none is left. */
  predicate ArityKept(f: Limits, arity: nat, md: seq<Constraint>) {
    || NoLengthFits(f.minItems, f.maxItems)
    || (f.minItems == Some(arity) && f.maxItems == Some(arity) && forall b :: b in Flatten(md) ==>
       WithinLength(b, arity))
  }

  lemma {:induction false} ArityWritten(l: Limits, bs: seq<Bounds>)
    requires l.minItems.Some? && l.maxItems.Some?
    ensures ApplyAll(l, bs, true).minItems.Some? && ApplyAll(l, bs, true).maxItems.Some?
  {
    if bs != [] { ArityWritten(l, bs[..|bs| - 1]); }
  }

  /** Some allowed length is not the arity, or breaks a bound. */
  lemma OtherLength(f: Limits, arity: nat, md: seq<Constraint>) returns (n: nat)
    requires f.minItems.Some? && f.maxItems.Some? && !ArityKept(f, arity, md)
    ensures InLength(f.minItems, f.maxItems, n) &&
            (n != arity || exists b :: b in Flatten(md) && !WithinLength(b, arity))
  {
    n := if f.minItems.value != arity then f.minItems.value else f.maxItems.value;
  }

  /** The values always conform, and where the arity survives nothing else does. */
  lemma TupleAt(
    env: Env, d: Dialect, defs: map<string, Schema>, parts: seq<Ty>, md: seq<Constraint>, ws: seq<Json>, v: Json)
    requires PartsExact(env, d, defs, parts, ws)
    ensures IsValue(env, d, TupleOf(parts), Stripped(md), v) ==> Conforms(d, defs, TupleOf(parts), Stripped(md), v)
    ensures ArityKept(EmitLimits(TupleOf(parts), md), |parts|, md) ==>
            ExactAt(env, d, defs, TupleOf(parts), Stripped(md), v)
  {
    TupleConforms(env, d, defs, parts, md, ws, v);
    StrippedConforms(d, defs, TupleOf(parts), md, v);
    TupleValue(env, d, parts, md, v);
    if IsValue(env, d, TupleOf(parts), Stripped(md), v) { TupleAccepted(env, d, parts, md, v); }
  }

  /**
   With a value of each part, a fixed tuple's schema is exact if and only if no length bound has
   overwritten its arity and no tuple breaks an unread demand.
   */
  lemma TupleExactIff(
    env: Env, d: Dialect, defs: map<string, Schema>, parts: seq<Ty>, md: seq<Constraint>, ws: seq<Json>)
    requires PartsExact(env, d, defs, parts, ws)
    ensures Exact(env, d, defs, TupleOf(parts), md) <==>
            && ArityKept(EmitLimits(TupleOf(parts), md), |parts|, md)
            && NoDemandBroken(env, d, TupleOf(parts), md)
  {
    var t, f := TupleOf(parts), EmitLimits(TupleOf(parts), md);
    ArityWritten(NO_LIMITS.(minItems := Some(|parts|), maxItems := Some(|parts|)), Flatten(md));
    forall v
      ensures IsValue(env, d, t, Stripped(md), v) ==> Conforms(d, defs, t, Stripped(md), v)
      ensures ArityKept(f, |parts|, md) ==> ExactAt(env, d, defs, t, Stripped(md), v)
    {
      TupleAt(env, d, defs, parts, md, ws, v);
    }
    DemandsDecide(env, d, defs, t, md);
    if !ArityKept(f, |parts|, md) { TupleDiffers(env, d, defs, parts, md, ws); }
  }

  lemma TupleDiffers(
    env: Env, d: Dialect, defs: map<string, Schema>, parts: seq<Ty>, md: seq<Constraint>, ws: seq<Json>)
    requires PartsExact(env, d, defs, parts, ws)
    requires EmitLimits(TupleOf(parts), md).minItems.Some? && EmitLimits(TupleOf(parts), md).maxItems.Some?
    requires !ArityKept(EmitLimits(TupleOf(parts), md), |parts|, md)
    ensures !Exact(env, d, defs, TupleOf(parts), Stripped(md))
  {
    var n := OtherLength(EmitLimits(TupleOf(parts), md), |parts|, md);
    var v := JArr(Items(ws, n));
    TupleConforms(env, d, defs, parts, md, ws, v);
    StrippedConforms(d, defs, TupleOf(parts), md, v);
    TupleValue(env, d, parts, md, v);
    assert !ExactAt(env, d, defs, TupleOf(parts), Stripped(md), v);
  }

  lemma TupleAccepted(env: Env, d: Dialect, parts: seq<Ty>, md: seq<Constraint>, v: Json)
    requires IsValue(env, d, TupleOf(parts), Stripped(md), v)
    ensures LimitsHold(d, EmitLimits(TupleOf(parts), md), v)
  {
    ValueBare(env, d, TupleOf(parts), Stripped(md), v);
    ShapedTyped(env, d, v, TupleOf(parts));
    StrippedMeets(d, md, v);
    EmittedLimitsHold(env, d, TupleOf(parts), md, v);
  }

  // ----- mappings -----

  lemma MappingValue(env: Env, d: Dialect, keys: Keys, u: Ty, v: Json)
    ensures IsValue(env, d, Mapping(keys, u), [], v) <==>
            && v.JObj?
            && forall n :: n in v.fields ==> (keys.OpenKeys? || n in keys.names) && IsValue(env, d, u, [], v.fields[n])
  {
    ShapedTyped(env, d, v, Mapping(keys, u));
  }

  /** With direct or open keys, the mapping is exact when its values are. */
  lemma MappingExact(env: Env, d: Dialect, defs: map<string, Schema>, keys: Keys, u: Ty)
    requires Exact(env, d, defs, u, []) && !keys.NamedKeys?
    ensures Exact(env, d, defs, Mapping(keys, u), [])
  {
    forall v ensures ExactAt(env, d, defs, Mapping(keys, u), [], v) {
      MappingForm(d, defs, keys, u, [], v);
      MappingValue(env, d, keys, u, v);
      if v.JObj? {
        forall n | n in v.fields
          ensures Conforms(d, defs, u, [], v.fields[n]) <==> IsValue(env, d, u, [], v.fields[n])
        {
          assert ExactAt(env, d, defs, u, [], v.fields[n]);
        }
      }
    }
  }

  /** An object of the given size with equal values. */
  function Sample(keys: set<string>, w: Json): Json {
    JObj(map k | k in keys :: w)
  }

  lemma SampleSize(keys: set<string>, w: Json)
    ensures |Sample(keys, w).fields| == |keys|
  {
    assert Sample(keys, w).fields.Keys == keys;
  }

  ghost function Keyring(n: nat): (r: set<string>)
    ensures |r| == n && forall k :: k in r ==> |k| < n
  {
    if n == 0 then {} else Keyring(n - 1) + {Spaces(n - 1)}
  }

  function KeySet(names: seq<string>): set<string> {
    set n | n in names
  }

  /** Objects of every size, or up to all the listed keys. */
  lemma MappingSample(env: Env, d: Dialect, keys: Keys, u: Ty, w: Json, n: nat) returns (v: Json)
    requires IsValue(env, d, u, [], w) && !keys.NamedKeys?
    requires keys.LiteralKeys? ==> n == 0 || n == |KeySet(keys.names)|
    ensures IsValue(env, d, Mapping(keys, u), [], v) && v.JObj? && |v.fields| == n
  {
    var ks := if n == 0 then {} else if keys.LiteralKeys? then KeySet(keys.names) else Keyring(n);
    v := Sample(ks, w);
    SampleSize(ks, w);
    MappingValue(env, d, keys, u, v);
  }

  lemma SubsetSize(a: set<string>, b: set<string>)
    requires a <= b
    ensures |a| <= |b|
  {
    assert b == a + (b - a) && |b| == |a| + |b - a|;
  }

  /** The sizes that a bound may exclude: none for open keys, those above the number of listed keys otherwise. */
  predicate HarmlessLength(keys: Keys, b: Bounds) {
    && (b.minLength.Some? ==> b.minLength.value == 0)
    && (b.maxLength.Some? ==> keys.LiteralKeys? && b.maxLength.value >= |KeySet(keys.names)|)
  }

  /**
   Constraints on a mapping are dropped, so its schema is exact if and only if no object breaks a
   length bound or an unread demand.
   */
  lemma MappingDropsLength(
    env: Env, d: Dialect, defs: map<string, Schema>, keys: Keys, u: Ty, md: seq<Constraint>, w: Json)
    requires Exact(env, d, defs, u, []) && IsValue(env, d, u, [], w) && !keys.NamedKeys?
    ensures Exact(env, d, defs, Mapping(keys, u), md) <==>
            && (forall b :: b in Flatten(md) ==> HarmlessLength(keys, b))
            && NoDemandBroken(env, d, Mapping(keys, u), md)
  {
    var t := Mapping(keys, u);
    MappingExact(env, d, defs, keys, u);
    IgnoredIff(env, d, defs, t, Stripped(md));
    IgnoredDemands(env, d, defs, t, md);
    if forall b :: b in Flatten(md) ==> HarmlessLength(keys, b) {
      forall v | IsValue(env, d, t, [], v) ensures Meets(d, Stripped(md), v) { MappingKept(env, d, keys, u, md, v); }
    } else {
      var b :| b in Flatten(md) && !HarmlessLength(keys, b);
      MappingBroken(env, d, keys, u, md, w, b);
    }
  }

  lemma MappingKept(env: Env, d: Dialect, keys: Keys, u: Ty, md: seq<Constraint>, v: Json)
    requires IsValue(env, d, Mapping(keys, u), [], v) && !keys.NamedKeys?
    requires forall b :: b in Flatten(md) ==> HarmlessLength(keys, b)
    ensures Meets(d, Stripped(md), v)
  {
    MappingValue(env, d, keys, u, v);
    ObjectMeets(d, md, v);
    if keys.LiteralKeys? { SubsetSize(v.fields.Keys, KeySet(keys.names)); }
  }

  lemma MappingBroken(env: Env, d: Dialect, keys: Keys, u: Ty, md: seq<Constraint>, w: Json, b: Bounds)
    requires IsValue(env, d, u, [], w) && !keys.NamedKeys? && b in Flatten(md) && !HarmlessLength(keys, b)
    ensures exists v :: IsValue(env, d, Mapping(keys, u), [], v) && !Meets(d, Stripped(md), v)
  {
    var n := if b.minLength.Some? && b.minLength.value != 0 then 0
             else if keys.LiteralKeys? then |KeySet(keys.names)| else b.maxLength.value + 1;
    var v := MappingSample(env, d, keys, u, w, n);
    ObjectMeets(d, md, v);
  }

  function Longest(names: seq<string>): (k: nat)
    ensures forall n :: n in names ==> |n| <= k
  {
    if names == [] then 0
    else
      var rest := Longest(names[..|names| - 1]);
      if |names[|names| - 1]| > rest then |names[|names| - 1]| else rest
  }

  function Unlisted(names: seq<string>): (key: string)
    ensures key !in names
  {
    Spaces(Longest(names) + 1)
  }

  /**
   Literal keys behind an alias or an enumeration are not enforced, so the schema is exact only
   where there are no values at all.
   */
  lemma NamedKeysExactIff(env: Env, d: Dialect, defs: map<string, Schema>, names: Names, u: Ty)
    requires Exact(env, d, defs, u, [])
    ensures Exact(env, d, defs, Mapping(NamedKeys(names), u), []) <==> forall w :: !IsValue(env, d, u, [], w)
  {
    if w :| IsValue(env, d, u, [], w) {
      NamedKeysOpen(env, d, defs, names, u, [], w);
    } else {
      forall v ensures ExactAt(env, d, defs, Mapping(NamedKeys(names), u), [], v) {
        MappingForm(d, defs, NamedKeys(names), u, [], v);
        MappingValue(env, d, NamedKeys(names), u, v);
        if v.JObj? {
          forall n | n in v.fields ensures !Conforms(d, defs, u, [], v.fields[n]) {
            assert ExactAt(env, d, defs, u, [], v.fields[n]) && !IsValue(env, d, u, [], v.fields[n]);
          }
        }
      }
    }
  }

  /** An object with an unlisted key is accepted, whatever the metadata. */
  lemma NamedKeysOpen(
    env: Env, d: Dialect, defs: map<string, Schema>, names: Names, u: Ty, md: seq<Constraint>, w: Json)
    requires Exact(env, d, defs, u, []) && IsValue(env, d, u, [], w)
    ensures !Exact(env, d, defs, Mapping(NamedKeys(names), u), md)
  {
    var key := Unlisted(names);
    UnlistedKey(env, d, defs, names, u, md, w, key);
    assert !ExactAt(env, d, defs, Mapping(NamedKeys(names), u), md, JObj(map[key := w]));
  }

  lemma UnlistedKey(
    env: Env, d: Dialect, defs: map<string, Schema>, names: Names, u: Ty, md: seq<Constraint>, w: Json, key: string)
    requires ExactAt(env, d, defs, u, [], w) && IsValue(env, d, u, [], w) && key !in names
    ensures Conforms(d, defs, Mapping(NamedKeys(names), u), md, JObj(map[key := w]))
    ensures !IsValue(env, d, Mapping(NamedKeys(names), u), md, JObj(map[key := w]))
  {
    var v := JObj(map[key := w]);
    MappingForm(d, defs, NamedKeys(names), u, md, v);
    MappingValue(env, d, NamedKeys(names), u, v);
    assert key in v.fields;
    TypedBeside(env, d, Mapping(NamedKeys(names), u), md, v);
  }

  // ----- decimals -----

  /** The dialect reads the price pattern as it is written, takes a price as a decimal, and knows its number. */
  ghost predicate ReadsPrices(d: Dialect) {
    forall s ::
      && (d.matches(PRICE_DECIMAL_PATTERN, s) <==> IsPrice(s))
      && (IsPrice(s) ==> d.conforms("decimal", s) && d.decimal(s) == PriceValue(s))
  }

  lemma PricesNonNegative(d: Dialect)
    requires ReadsPrices(d)
    ensures NonNegative(d)
  {
  }

  lemma DecimalConforms(env: Env, d: Dialect, defs: map<string, Schema>, md: seq<Constraint>, v: Json)
    requires ReadsPrices(d)
    ensures Conforms(d, defs, DecimalT, md, v) <==> v.JStr? && IsPrice(v.s)
  {
    TextForm(env, d, defs, DecimalT, md, v);
    if v.JStr? && IsPrice(v.s) { assert d.matches(PRICE_DECIMAL_PATTERN, v.s); }
  }

  lemma DecimalTyped(env: Env, d: Dialect, v: Json, t: Ty, md: seq<Constraint>)
    requires t.DecimalT?
    ensures HasType(env, d, v, t, md) <==>
            && v.JStr? && d.conforms("decimal", v.s) && d.matches(PRICE_DECIMAL_PATTERN, v.s)
            && Meets(d, md, v) && MeetsBounds(d, md, JNum(d.decimal(v.s)))
  {
  }

  lemma DecimalValue(env: Env, d: Dialect, md: seq<Constraint>, v: Json)
    requires ReadsPrices(d) && NoPatterns(md)
    ensures IsValue(env, d, DecimalT, Stripped(md), v) <==> v.JStr? && IsPrice(v.s) && PriceMeetsAll(md, v.s)
  {
    DecimalTyped(env, d, v, DecimalT, Stripped(md));
    if v.JStr? { assert d.matches(PRICE_DECIMAL_PATTERN, v.s) <==> IsPrice(v.s); }
    if v.JStr? && IsPrice(v.s) {
      TextMeets(d, md, v.s);
      NumberMeets(d, md, d.decimal(v.s));
      StrippedMeets(d, md, JNum(d.decimal(v.s)));
    }
  }

  /** The text and the number of a price are within all the bounds. */
  predicate PriceMeetsAll(md: seq<Constraint>, s: string)
    requires IsPrice(s)
  {
    forall b :: b in Flatten(md) ==> WithinLength(b, |s|) && WithinNumber(b, PriceValue(s))
  }

  /** The length keywords allow no price. */
  predicate NoPrice(low: Option<nat>, high: Option<nat>) {
    high.Some? && (high.value < 1 || (low.Some? && low.value > high.value))
  }

  /** Every price of an allowed length is within a bound: it is never negative, and its length limits it from above. */
  predicate PriceImplied(low: Option<nat>, high: Option<nat>, b: Bounds) {
    && (b.ge.Some? ==> b.ge.value <= 0.0)
    && (b.gt.Some? ==> b.gt.value < 0.0)
    && (b.le.Some? ==> high.Some? && b.le.value >= (Power(high.value) - 1) as real)
    && (b.lt.Some? ==> high.Some? && b.lt.value > (Power(high.value) - 1) as real)
    && (b.minLength.Some? ==> b.minLength.value <= 1 || (low.Some? && low.value >= b.minLength.value))
    && (b.maxLength.Some? ==> high.Some? && high.value <= b.maxLength.value)
  }

  lemma PriceWithin(low: Option<nat>, high: Option<nat>, b: Bounds, s: string)
    requires PriceImplied(low, high, b) && IsPrice(s) && InLength(low, high, |s|)
    ensures WithinLength(b, |s|) && WithinNumber(b, PriceValue(s))
  {
    PriceNotEmpty(s);
    PriceBounded(s);
    if high.Some? { PowerGrows(|s|, high.value); }
  }

  /** A price of an allowed length that breaks a bound which some such price breaks. */
  lemma PriceBreaks(low: Option<nat>, high: Option<nat>, b: Bounds) returns (s: string)
    requires !NoPrice(low, high) && !PriceImplied(low, high, b)
    ensures IsPrice(s) && InLength(low, high, |s|) && !(WithinLength(b, |s|) && WithinNumber(b, PriceValue(s)))
  {
    var least: nat := if low.Some? && low.value > 1 then low.value else 1;
    if b.maxLength.Some? && !(high.Some? && high.value <= b.maxLength.value) {
      s := ZeroPrice(if high.Some? then high.value else least + b.maxLength.value + 1);
    } else if UpperBroken(high, b) {
      s := LargePrice(least, high, b);
    } else {
      s := ZeroPrice(least);
    }
  }

  predicate UpperBroken(high: Option<nat>, b: Bounds) {
    || (b.le.Some? && !(high.Some? && b.le.value >= (Power(high.value) - 1) as real))
    || (b.lt.Some? && !(high.Some? && b.lt.value > (Power(high.value) - 1) as real))
  }

  lemma LargePrice(least: nat, high: Option<nat>, b: Bounds) returns (s: string)
    requires UpperBroken(high, b) && least >= 1 && (high.Some? ==> least <= high.value)
    ensures IsPrice(s) && least <= |s| && (high.Some? ==> |s| <= high.value) && !WithinNumber(b, PriceValue(s))
  {
    if high.Some? {
      s := Nines(high.value);
    } else {
      var top := if b.le.Some? then b.le.value else b.lt.value;
      var n: nat := least + (if top < 0.0 then 0 else top.Floor) + 2;
      PowerAbove(n);
      s := Nines(n);
    }
  }

  /** The keywords imply the bounds on prices exactly when each is implied, or no price is allowed. */
  lemma PricesImplied(low: Option<nat>, high: Option<nat>, md: seq<Constraint>)
    ensures (forall s :: IsPrice(s) && InLength(low, high, |s|) ==> PriceMeetsAll(md, s)) <==>
            NoPrice(low, high) || forall b :: b in Flatten(md) ==> PriceImplied(low, high, b)
  {
    if NoPrice(low, high) || forall b :: b in Flatten(md) ==> PriceImplied(low, high, b) {
      forall s | IsPrice(s) && InLength(low, high, |s|) ensures PriceMeetsAll(md, s) {
        PriceNotEmpty(s);
        forall b | b in Flatten(md) ensures WithinLength(b, |s|) && WithinNumber(b, PriceValue(s)) {
          PriceWithin(low, high, b, s);
        }
      }
    } else {
      var b :| b in Flatten(md) && !PriceImplied(low, high, b);
      var s := PriceBreaks(low, high, b);
      assert !PriceMeetsAll(md, s);
    }
  }

  /**
   Every constraint on a decimal is dropped, so its schema is exact if and only if all prices meet the
   bounds and no price breaks an unread demand: `ge=0` is harmless, `ge=5` is not.
   */
  lemma DecimalDropsBounds(env: Env, d: Dialect, defs: map<string, Schema>, md: seq<Constraint>)
    requires ReadsPrices(d) && NoPatterns(md)
    ensures Exact(env, d, defs, DecimalT, md) <==>
            && (forall b :: b in Flatten(md) ==> PriceImplied(None, None, b))
            && NoDemandBroken(env, d, DecimalT, md)
  {
    PricesImplied(None, None, md);
    forall v | IsValue(env, d, DecimalT, Stripped(md), v) ensures Conforms(d, defs, DecimalT, Stripped(md), v) {
      DecimalAt(env, d, defs, md, v);
    }
    DemandsDecide(env, d, defs, DecimalT, md);
    DecimalBare(env, d, defs, md);
  }

  lemma DecimalAt(env: Env, d: Dialect, defs: map<string, Schema>, md: seq<Constraint>, v: Json)
    requires ReadsPrices(d) && NoPatterns(md)
    ensures Conforms(d, defs, DecimalT, Stripped(md), v) <==> v.JStr? && IsPrice(v.s)
    ensures IsValue(env, d, DecimalT, Stripped(md), v) ==> Conforms(d, defs, DecimalT, Stripped(md), v)
    ensures ExactAt(env, d, defs, DecimalT, Stripped(md), v) <==>
            (v.JStr? && IsPrice(v.s) ==> PriceMeetsAll(md, v.s))
  {
    DecimalConforms(env, d, defs, Stripped(md), v);
    DecimalValue(env, d, md, v);
  }

  lemma DecimalBare(env: Env, d: Dialect, defs: map<string, Schema>, md: seq<Constraint>)
    requires ReadsPrices(d) && NoPatterns(md)
    ensures Exact(env, d, defs, DecimalT, Stripped(md)) <==> forall s :: IsPrice(s) ==> PriceMeetsAll(md, s)
  {
    if Exact(env, d, defs, DecimalT, Stripped(md)) {
      forall s | IsPrice(s) ensures PriceMeetsAll(md, s) {
        assert ExactAt(env, d, defs, DecimalT, Stripped(md), JStr(s));
        DecimalAt(env, d, defs, md, JStr(s));
      }
    }
    if forall s :: IsPrice(s) ==> PriceMeetsAll(md, s) {
      forall v ensures ExactAt(env, d, defs, DecimalT, Stripped(md), v) { DecimalAt(env, d, defs, md, v); }
    }
  }

  // ----- unions -----

  /** Decimals are the only texts among the arguments. */
  predicate OnlyDecimalTexts(args: seq<Ty>, k: nat) {
    && k < |args| && args[k].DecimalT?
    && forall i :: 0 <= i < |args| ==> args[i].DecimalT? || !MayBe(args[i], TextSort)
  }

  lemma DecimalInUnion(env: Env, d: Dialect, args: seq<Ty>, k: nat, md: seq<Constraint>, s: string)
    requires OnlyDecimalTexts(args, k)
    ensures IsValue(env, d, Union(args), md, JStr(s)) <==> IsValue(env, d, DecimalT, md, JStr(s))
  {
    if i :| 0 <= i < |args| && HasType(env, d, JStr(s), args[i], md) {
      SortsOfValues(env, d, JStr(s), args[i], md);
    }
    assert args[k] == DecimalT;
  }

  /** What a union with a decimal says of one text. */
  lemma DecimalUnionAt(
    env: Env, d: Dialect, defs: map<string, Schema>, args: seq<Ty>, k: nat, md: seq<Constraint>, s: string)
    requires ReadsPrices(d) && OnlyDecimalTexts(args, k) && NoPatterns(md) && Exact(env, d, defs, Union(args), [])
    ensures var f := EmitLimits(Union(args), md);
            ExactAt(env, d, defs, Union(args), Stripped(md), JStr(s)) <==>
            (IsPrice(s) && InLength(f.minLength, f.maxLength, |s|) ==> PriceMeetsAll(md, s))
  {
    assert ExactAt(env, d, defs, Union(args), [], JStr(s));
    Beside(d, defs, Union(args), Stripped(md), JStr(s));
    StrippedEmits(Union(args), md);
    LimitsAre(Union(args), md);
    NoPatternWritten(Flatten(md), CountsItems(Union(args)));
    DecimalInUnion(env, d, args, k, Stripped(md), s);
    DecimalInUnion(env, d, args, k, [], s);
    DecimalValue(env, d, md, JStr(s));
    PlainDecimal(env, d, s);
    if IsValue(env, d, Union(args), Stripped(md), JStr(s)) { UnionLimitsHold(env, d, args, md, JStr(s)); }
  }

  lemma PlainDecimal(env: Env, d: Dialect, s: string)
    requires ReadsPrices(d)
    ensures IsValue(env, d, DecimalT, [], JStr(s)) <==> IsPrice(s)
  {
    DecimalTyped(env, d, JStr(s), DecimalT, []);
    assert d.matches(PRICE_DECIMAL_PATTERN, s) <==> IsPrice(s);
  }

  lemma UnionLimitsHold(env: Env, d: Dialect, args: seq<Ty>, md: seq<Constraint>, v: Json)
    requires IsValue(env, d, Union(args), Stripped(md), v)
    ensures LimitsHold(d, EmitLimits(Union(args), md), v)
  {
    ValueBare(env, d, Union(args), Stripped(md), v);
    StrippedMeets(d, md, v);
    EmittedLimitsHold(env, d, Union(args), md, v);
  }

  /**
   Numeric bounds around a union are not enforced on its decimals: exact for texts if and only if the
   length keywords and the price pattern alone imply every bound.
   */
  lemma DecimalUnionDropsBounds(
    env: Env, d: Dialect, defs: map<string, Schema>, args: seq<Ty>, k: nat, md: seq<Constraint>)
    requires ReadsPrices(d) && OnlyDecimalTexts(args, k) && NoPatterns(md) && Exact(env, d, defs, Union(args), [])
    ensures var f := EmitLimits(Union(args), md);
            ExactOn(env, d, defs, Union(args), Stripped(md), TextSort) <==>
            || NoPrice(f.minLength, f.maxLength)
            || forall b :: b in Flatten(md) ==> PriceImplied(f.minLength, f.maxLength, b)
  {
    var t, f := Union(args), EmitLimits(Union(args), md);
    PricesImplied(f.minLength, f.maxLength, md);
    forall s
      ensures ExactAt(env, d, defs, t, Stripped(md), JStr(s)) <==>
              (IsPrice(s) && InLength(f.minLength, f.maxLength, |s|) ==> PriceMeetsAll(md, s))
    {
      DecimalUnionAt(env, d, defs, args, k, md, s);
    }
    TextSortIs(env, d, defs, t, Stripped(md));
  }

  lemma TextSortIs(env: Env, d: Dialect, defs: map<string, Schema>, t: Ty, md: seq<Constraint>)
    ensures ExactOn(env, d, defs, t, md, TextSort) <==> forall s :: ExactAt(env, d, defs, t, md, JStr(s))
  {
    forall v | SortOf(v) == Some(TextSort) ensures v == JStr(v.s) {}
    if ExactOn(env, d, defs, t, md, TextSort) {
      forall s ensures ExactAt(env, d, defs, t, md, JStr(s)) { assert SortOf(JStr(s)) == Some(TextSort); }
    }
  }

  lemma ArgumentIsValue(env: Env, d: Dialect, args: seq<Ty>, k: nat, md: seq<Constraint>, v: Json)
    requires k < |args| && IsValue(env, d, args[k], md, v)
    ensures IsValue(env, d, Union(args), md, v)
  {
  }

  /**
   An argument `float` makes every number a value, `str` every text, a list every length and an open
   mapping every size.
   */
  lemma ArgumentGives(
    env: Env, d: Dialect, defs: map<string, Schema>, args: seq<Ty>, k: nat, md: seq<Constraint>, w: Json)
    requires k < |args|
    ensures args[k].FloatT? ==> TakesFloats(env, d, Union(args))
    ensures args[k].StrT? ==> TakesTexts(env, d, Union(args), md)
    ensures args[k].ArrayOf? && IsValue(env, d, args[k].item, [], w) ==>
            forall n: nat :: HasArray(env, d, Union(args), n)
    ensures args[k].Mapping? && args[k].keys.OpenKeys? && IsValue(env, d, args[k].value, [], w) ==>
            forall n: nat :: HasObject(env, d, Union(args), n)
  {
    if args[k].FloatT? {
      LeafExact(env, d, defs, args[k]);
      forall x ensures IsValue(env, d, Union(args), [], JNum(x)) { ArgumentIsValue(env, d, args, k, [], JNum(x)); }
    } else if args[k].StrT? {
      StrGives(env, d, defs, args, k, md);
    } else if args[k].ArrayOf? && IsValue(env, d, args[k].item, [], w) {
      forall n: nat ensures HasArray(env, d, Union(args), n) {
        RepeatedItem(env, d, args[k].item, w, n);
        ArgumentIsValue(env, d, args, k, [], JArr(seq(n, _ => w)));
      }
    } else if args[k].Mapping? && args[k].keys.OpenKeys? && IsValue(env, d, args[k].value, [], w) {
      forall n: nat ensures HasObject(env, d, Union(args), n) {
        var v := MappingSample(env, d, args[k].keys, args[k].value, w, n);
        ArgumentIsValue(env, d, args, k, [], v);
      }
    }
  }

  lemma StrGives(env: Env, d: Dialect, defs: map<string, Schema>, args: seq<Ty>, k: nat, md: seq<Constraint>)
    requires k < |args| && args[k].StrT?
    ensures TakesTexts(env, d, Union(args), md)
  {
    LeafExact(env, d, defs, args[k]);
    forall s
      ensures IsValue(env, d, Union(args), [], JStr(s))
      ensures Meets(d, Stripped(md), JStr(s)) ==> IsValue(env, d, Union(args), Stripped(md), JStr(s))
    {
      ArgumentIsValue(env, d, args, k, [], JStr(s));
      if Meets(d, Stripped(md), JStr(s)) {
        ValueMore(env, d, args[k], Stripped(md), JStr(s));
        ArgumentIsValue(env, d, args, k, Stripped(md), JStr(s));
      }
    }
  }

  /** `int` with no other numbers beside it makes exactly the whole numbers values. */
  lemma IntGives(env: Env, d: Dialect, defs: map<string, Schema>, args: seq<Ty>, k: nat)
    requires k < |args| && args[k].IntT?
    requires forall i :: 0 <= i < |args| ==> args[i].IntT? || !MayBe(args[i], NumberSort)
    ensures TakesInts(env, d, Union(args))
  {
    LeafExact(env, d, defs, args[k]);
    forall x ensures IsValue(env, d, Union(args), [], JNum(x)) <==> IsInteger(x) {
      if IsInteger(x) { ArgumentIsValue(env, d, args, k, [], JNum(x)); }
      if i :| 0 <= i < |args| && HasType(env, d, JNum(x), args[i], []) {
        SortsOfValues(env, d, JNum(x), args[i], []);
        assert IsValue(env, d, args[k], [], JNum(x));
      }
    }
  }

  /**
   A union of exact arguments is exact if and only if it is on each sort and no value breaks an unread
   demand. Where `float`, `int`, `str`, a list or an open mapping is an argument, the condition for its
   sort is the one below, in terms of the keywords that the first argument selects.
   */
  lemma UnionExactIff(env: Env, d: Dialect, defs: map<string, Schema>, args: seq<Ty>, md: seq<Constraint>)
    requires forall i :: 0 <= i < |args| ==> Exact(env, d, defs, args[i], [])
    ensures Exact(env, d, defs, Union(args), md) <==>
            && (forall sort :: ExactOn(env, d, defs, Union(args), Stripped(md), sort))
            && NoDemandBroken(env, d, Union(args), md)
    ensures forall sort: Sort :: !MayBe(Union(args), sort) ==> ExactOn(env, d, defs, Union(args), Stripped(md), sort)
    ensures SortConditions(env, d, defs, Union(args), md)
  {
    var t := Union(args);
    UnionExact(env, d, defs, args);
    SortBySort(env, d, defs, t, md);
    forall sort: Sort | !MayBe(t, sort) ensures ExactOn(env, d, defs, t, Stripped(md), sort) {
      AbsentSort(env, d, defs, t, Stripped(md), sort);
    }
    SortsDecided(env, d, defs, t, md);
  }

  /** Sort by sort, the condition in the keywords, where the annotation has all values of the sort. */
  ghost predicate SortConditions(env: Env, d: Dialect, defs: map<string, Schema>, t: Ty, md: seq<Constraint>) {
    var f := EmitLimits(t, md);
    && (TakesFloats(env, d, t) ==>
        (ExactOn(env, d, defs, t, Stripped(md), NumberSort) <==> ImpliesNumbers(f, md)))
    && (TakesInts(env, d, t) ==>
        (ExactOn(env, d, defs, t, Stripped(md), NumberSort) <==> ImpliesIntegers(f, md)))
    && (TakesTexts(env, d, t, md) && NoPatterns(md) ==>
        (ExactOn(env, d, defs, t, Stripped(md), TextSort) <==> ImpliesLengths(f.minLength, f.maxLength, md)))
    && ((forall n: nat :: HasArray(env, d, t, n)) ==>
        (ExactOn(env, d, defs, t, Stripped(md), ArraySort) <==> ImpliesLengths(f.minItems, f.maxItems, md)))
    && ((forall n: nat :: HasObject(env, d, t, n)) ==>
        (ExactOn(env, d, defs, t, Stripped(md), ObjectSort) <==> NoLengths(md)))
  }

  lemma SortsDecided(env: Env, d: Dialect, defs: map<string, Schema>, t: Ty, md: seq<Constraint>)
    requires LimitsBeside(t) && Exact(env, d, defs, t, [])
    ensures SortConditions(env, d, defs, t, md)
  {
    if TakesFloats(env, d, t) { FloatsExactIff(env, d, defs, t, md); }
    if TakesInts(env, d, t) { IntsExactIff(env, d, defs, t, md); }
    if TakesTexts(env, d, t, md) && NoPatterns(md) { TextsExactIff(env, d, defs, t, md); }
    if forall n: nat :: HasArray(env, d, t, n) { ArraysExactIff(env, d, defs, t, md); }
    if forall n: nat :: HasObject(env, d, t, n) { ObjectsExactIff(env, d, defs, t, md); }
  }
}
