/**
 Ranges of numbers and lengths as the emitted keywords write them, and when they
 imply a bound: each condition in both directions, with a value that escapes.
 */
module SchemaRanges {
  import opened Options
  import opened SchemaTypes
  import opened SchemaMeaning

  // ----- numbers -----

  predicate AtLeastBoth(low: Option<real>, strict: Option<real>, x: real) {
    (low.Some? ==> x >= low.value) && (strict.Some? ==> x > strict.value)
  }

  predicate AtMostBoth(high: Option<real>, strict: Option<real>, x: real) {
    (high.Some? ==> x <= high.value) && (strict.Some? ==> x < strict.value)
  }

  predicate InRange(f: Limits, x: real) {
    AtLeastBoth(f.minimum, f.exclusiveMinimum, x) && AtMostBoth(f.maximum, f.exclusiveMaximum, x)
  }

  predicate Crosses(low: Option<real>, high: Option<real>, strict: bool) {
    low.Some? && high.Some? && (low.value > high.value || (strict && low.value == high.value))
  }

  /** Some lower keyword excludes everything that some upper keyword allows. */
  predicate EmptyRange(f: Limits) {
    || Crosses(f.minimum, f.maximum, false) || Crosses(f.minimum, f.exclusiveMaximum, true)
    || Crosses(f.exclusiveMinimum, f.maximum, true) || Crosses(f.exclusiveMinimum, f.exclusiveMaximum, true)
  }

  function Higher(a: Option<real>, b: Option<real>): Option<real> {
    if a.None? then b else if b.None? then a else if a.value < b.value then b else a
  }

  function Lower(a: Option<real>, b: Option<real>): Option<real> {
    if a.None? then b else if b.None? then a else if a.value < b.value then a else b
  }

  /** The range is empty exactly when two keywords cross. */
  lemma EmptyRangeIff(f: Limits)
    ensures EmptyRange(f) <==> forall x :: !InRange(f, x)
  {
    if !EmptyRange(f) {
      var low, high := Higher(f.minimum, f.exclusiveMinimum), Lower(f.maximum, f.exclusiveMaximum);
      var x :=
        if low.None? && high.None? then 0.0
        else if low.None? then high.value - 1.0
        else if high.None? then low.value + 1.0
        else (low.value + high.value) / 2.0;
      assert InRange(f, x);
    }
  }

  predicate ImpliesLow(f: Limits, low: real) {
    || (f.minimum.Some? && f.minimum.value >= low)
    || (f.exclusiveMinimum.Some? && f.exclusiveMinimum.value >= low)
  }

  predicate ImpliesStrictLow(f: Limits, low: real) {
    || (f.minimum.Some? && f.minimum.value > low)
    || (f.exclusiveMinimum.Some? && f.exclusiveMinimum.value >= low)
  }

  predicate ImpliesHigh(f: Limits, high: real) {
    || (f.maximum.Some? && f.maximum.value <= high)
    || (f.exclusiveMaximum.Some? && f.exclusiveMaximum.value <= high)
  }

  predicate ImpliesStrictHigh(f: Limits, high: real) {
    || (f.maximum.Some? && f.maximum.value < high)
    || (f.exclusiveMaximum.Some? && f.exclusiveMaximum.value <= high)
  }

  /** A keyword that survived is at least as tight as each of the four bounds. */
  predicate ImpliesNumber(f: Limits, b: Bounds) {
    && (b.ge.Some? ==> ImpliesLow(f, b.ge.value))
    && (b.gt.Some? ==> ImpliesStrictLow(f, b.gt.value))
    && (b.le.Some? ==> ImpliesHigh(f, b.le.value))
    && (b.lt.Some? ==> ImpliesStrictHigh(f, b.lt.value))
  }

  /** A value of the range just below a bound that no lower keyword implies. */
  lemma BelowBound(f: Limits, low: real, y: real) returns (x: real)
    requires InRange(f, y) && !ImpliesLow(f, low)
    ensures InRange(f, x) && x < low
  {
    if y < low { return y; }
    var l := Higher(f.minimum, f.exclusiveMinimum);
    x := if l.None? then low - 1.0 else (l.value + low) / 2.0;
  }

  lemma AboveBound(f: Limits, high: real, y: real) returns (x: real)
    requires InRange(f, y) && !ImpliesHigh(f, high)
    ensures InRange(f, x) && x > high
  {
    if y > high { return y; }
    var h := Lower(f.maximum, f.exclusiveMaximum);
    x := if h.None? then high + 1.0 else (h.value + high) / 2.0;
  }

  /** A bound that no keyword implies is broken somewhere in a range that is not empty. */
  lemma Escapes(f: Limits, b: Bounds, y: real) returns (x: real)
    requires InRange(f, y) && !ImpliesNumber(f, b)
    ensures InRange(f, x) && !WithinNumber(b, x)
  {
    if b.ge.Some? && !ImpliesLow(f, b.ge.value) {
      x := BelowBound(f, b.ge.value, y);
    } else if b.le.Some? && !ImpliesHigh(f, b.le.value) {
      x := AboveBound(f, b.le.value, y);
    } else if b.gt.Some? && !ImpliesStrictLow(f, b.gt.value) {
      if ImpliesLow(f, b.gt.value) { x := LowEdge(f, b.gt.value, y); } else { x := BelowBound(f, b.gt.value, y); }
    } else {
      if ImpliesHigh(f, b.lt.value) { x := HighEdge(f, b.lt.value, y); } else { x := AboveBound(f, b.lt.value, y); }
    }
  }

  lemma LowEdge(f: Limits, low: real, y: real) returns (x: real)
    requires InRange(f, y) && ImpliesLow(f, low) && !ImpliesStrictLow(f, low)
    ensures InRange(f, x) && x == low
  {
    x := low;
  }

  lemma HighEdge(f: Limits, high: real, y: real) returns (x: real)
    requires InRange(f, y) && ImpliesHigh(f, high) && !ImpliesStrictHigh(f, high)
    ensures InRange(f, x) && x == high
  {
    x := high;
  }

  // ----- whole numbers -----

  function Ceiling(x: real): int {
    -((-x).Floor)
  }

  /** The least integer that a weak and a strict lower bound allow. */
  function IntLow(low: Option<real>, strict: Option<real>): Option<int> {
    if low.None? && strict.None? then None
    else if low.None? then Some(strict.value.Floor + 1)
    else if strict.None? || Ceiling(low.value) > strict.value.Floor then Some(Ceiling(low.value))
    else Some(strict.value.Floor + 1)
  }

  function IntHigh(high: Option<real>, strict: Option<real>): Option<int> {
    if high.None? && strict.None? then None
    else if high.None? then Some(Ceiling(strict.value) - 1)
    else if strict.None? || high.value.Floor < Ceiling(strict.value) then Some(high.value.Floor)
    else Some(Ceiling(strict.value) - 1)
  }

  predicate Between(low: Option<int>, high: Option<int>, n: int) {
    (low.Some? ==> n >= low.value) && (high.Some? ==> n <= high.value)
  }

  lemma LowOf(low: Option<real>, strict: Option<real>, n: int)
    ensures AtLeastBoth(low, strict, n as real) <==> Between(IntLow(low, strict), None, n)
  {
  }

  lemma HighOf(high: Option<real>, strict: Option<real>, n: int)
    ensures AtMostBoth(high, strict, n as real) <==> Between(None, IntHigh(high, strict), n)
  {
  }

  lemma RangeOf(f: Limits, n: int)
    ensures InRange(f, n as real) <==>
            Between(IntLow(f.minimum, f.exclusiveMinimum), IntHigh(f.maximum, f.exclusiveMaximum), n)
  {
    LowOf(f.minimum, f.exclusiveMinimum, n);
    HighOf(f.maximum, f.exclusiveMaximum, n);
  }

  lemma BoundsOf(b: Bounds, n: int)
    ensures WithinNumber(b, n as real) <==> Between(IntLow(b.ge, b.gt), IntHigh(b.le, b.lt), n)
  {
    LowOf(b.ge, b.gt, n);
    HighOf(b.le, b.lt, n);
    assert WithinNumber(b, n as real) <==> AtLeastBoth(b.ge, b.gt, n as real) && AtMostBoth(b.le, b.lt, n as real);
  }

  predicate NoInteger(f: Limits) {
    var low, high := IntLow(f.minimum, f.exclusiveMinimum), IntHigh(f.maximum, f.exclusiveMaximum);
    low.Some? && high.Some? && low.value > high.value
  }

  predicate Tighter(low: Option<int>, high: Option<int>, l: Option<int>, h: Option<int>) {
    (l.Some? ==> low.Some? && low.value >= l.value) && (h.Some? ==> high.Some? && high.value <= h.value)
  }

  predicate ImpliesInteger(f: Limits, b: Bounds) {
    Tighter(
      IntLow(f.minimum, f.exclusiveMinimum), IntHigh(f.maximum, f.exclusiveMaximum),
      IntLow(b.ge, b.gt), IntHigh(b.le, b.lt))
  }

  /** One interval of integers lies inside another exactly when its ends are tighter, unless it is empty. */
  lemma EscapesInterval(low: Option<int>, high: Option<int>, l: Option<int>, h: Option<int>) returns (n: int)
    requires low.Some? && high.Some? ==> low.value <= high.value
    requires !Tighter(low, high, l, h)
    ensures Between(low, high, n) && !Between(l, h, n)
  {
    if l.Some? && !(low.Some? && low.value >= l.value) {
      n := if low.Some? then low.value else if high.Some? && high.value < l.value then high.value else l.value - 1;
    } else {
      n := if high.Some? then high.value else if low.Some? && low.value > h.value then low.value else h.value + 1;
    }
  }

  // ----- lengths -----

  predicate InLength(low: Option<nat>, high: Option<nat>, n: nat) {
    (low.Some? ==> n >= low.value) && (high.Some? ==> n <= high.value)
  }

  predicate NoLengthFits(low: Option<nat>, high: Option<nat>) {
    low.Some? && high.Some? && low.value > high.value
  }

  /** The surviving pair of keywords is at least as tight as both bounds. */
  predicate ImpliesLength(low: Option<nat>, high: Option<nat>, b: Bounds) {
    && (b.minLength.Some? ==> b.minLength.value == 0 || (low.Some? && low.value >= b.minLength.value))
    && (b.maxLength.Some? ==> high.Some? && high.value <= b.maxLength.value)
  }

  lemma EscapesLength(low: Option<nat>, high: Option<nat>, b: Bounds) returns (n: nat)
    requires !NoLengthFits(low, high) && !ImpliesLength(low, high, b)
    ensures InLength(low, high, n) && !WithinLength(b, n)
  {
    var least := if low.Some? then low.value else 0;
    if b.minLength.Some? && least < b.minLength.value {
      n := least;
    } else if high.Some? {
      n := high.value;
    } else {
      n := least + b.maxLength.value + 1;
    }
  }

  /** Every allowed length meets every bound exactly when each bound is implied, or no length is allowed. */
  lemma LengthsImplied(low: Option<nat>, high: Option<nat>, bs: seq<Bounds>)
    ensures (forall n: nat :: InLength(low, high, n) ==> forall b :: b in bs ==> WithinLength(b, n)) <==>
            NoLengthFits(low, high) || forall b :: b in bs ==> ImpliesLength(low, high, b)
  {
    if !NoLengthFits(low, high) && exists b :: b in bs && !ImpliesLength(low, high, b) {
      var b :| b in bs && !ImpliesLength(low, high, b);
      var n := EscapesLength(low, high, b);
    }
  }

  /** Every allowed number meets every bound exactly when each bound is implied, or no number is allowed. */
  lemma NumbersImplied(f: Limits, bs: seq<Bounds>)
    ensures (forall x :: InRange(f, x) ==> forall b :: b in bs ==> WithinNumber(b, x)) <==>
            EmptyRange(f) || forall b :: b in bs ==> ImpliesNumber(f, b)
  {
    EmptyRangeIff(f);
    if EmptyRange(f) || forall b :: b in bs ==> ImpliesNumber(f, b) {
      forall x, b | InRange(f, x) && b in bs ensures WithinNumber(b, x) { assert ImpliesNumber(f, b); }
    } else {
      var b :| b in bs && !ImpliesNumber(f, b);
      var y :| InRange(f, y);
      var x := Escapes(f, b, y);
    }
  }

  predicate IsInteger(x: real) {
    x.Floor as real == x
  }

  /** The same for integers. */
  lemma IntegersImplied(f: Limits, bs: seq<Bounds>)
    ensures (forall x :: IsInteger(x) && InRange(f, x) ==> forall b :: b in bs ==> WithinNumber(b, x)) <==>
            NoInteger(f) || forall b :: b in bs ==> ImpliesInteger(f, b)
  {
    if NoInteger(f) || forall b :: b in bs ==> ImpliesInteger(f, b) {
      forall x, b | IsInteger(x) && InRange(f, x) && b in bs ensures WithinNumber(b, x) {
        RangeOf(f, x.Floor);
        BoundsOf(b, x.Floor);
        assert ImpliesInteger(f, b);
      }
    } else {
      var b :| b in bs && !ImpliesInteger(f, b);
      IntegerEscapes(f, b);
    }
  }

  lemma IntegerEscapes(f: Limits, b: Bounds)
    requires !NoInteger(f) && !ImpliesInteger(f, b)
    ensures exists x :: IsInteger(x) && InRange(f, x) && !WithinNumber(b, x)
  {
    var low, high := IntLow(f.minimum, f.exclusiveMinimum), IntHigh(f.maximum, f.exclusiveMaximum);
    var n := EscapesInterval(low, high, IntLow(b.ge, b.gt), IntHigh(b.le, b.lt));
    RangeOf(f, n);
    BoundsOf(b, n);
    assert IsInteger(n as real);
  }
}
