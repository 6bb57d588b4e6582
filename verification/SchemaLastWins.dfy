/** Constraints are written in turn, so each keyword holds the last value written for it. */
module SchemaLastWins {
  import opened Options
  import opened SchemaTypes
  import opened SchemaEmit

  /** The value that remains after a run of writes: the last one written, or the first value if none was. */
  ghost predicate IsLast<T>(writes: seq<Option<T>>, first: Option<T>, r: Option<T>) {
    || (r == first && forall i :: 0 <= i < |writes| ==> writes[i].None?)
    || exists i :: 0 <= i < |writes| && writes[i].Some? && writes[i] == r && forall j :: i < j < |writes| ==>
       writes[j].None?
  }

  lemma LastSnoc<T>(writes: seq<Option<T>>, last: Option<T>, first: Option<T>, r: Option<T>)
    requires IsLast(writes, first, r)
    ensures IsLast(writes + [last], first, Override(r, last))
  {
    var longer := writes + [last];
    if last.Some? {
      assert longer[|writes|] == last;
    } else if !(r == first && forall i :: 0 <= i < |writes| ==> writes[i].None?) {
      var i :| 0 <= i < |writes| && writes[i].Some? && writes[i] == r && forall j :: i < j < |writes| ==>
        writes[j].None?;
      assert longer[i] == writes[i];
    }
  }

  function Column<T>(bs: seq<Bounds>, f: Bounds -> Option<T>): seq<Option<T>> {
    seq(|bs|, i requires 0 <= i < |bs| => f(bs[i]))
  }

  lemma ColumnSnoc<T>(bs: seq<Bounds>, f: Bounds -> Option<T>)
    requires bs != []
    ensures Column(bs, f) == Column(bs[..|bs| - 1], f) + [f(bs[|bs| - 1])]
  {
  }

  /** A keyword that each round overrides holds the last value written for it. */
  lemma {:induction false} LastWritten<T>(
    l: Limits, bs: seq<Bounds>, arrays: bool, keyword: Limits -> Option<T>, attribute: Bounds -> Option<T>)
    requires forall x, b :: keyword(ApplyOne(x, b, arrays)) == Override(keyword(x), attribute(b))
    ensures IsLast(Column(bs, attribute), keyword(l), keyword(ApplyAll(l, bs, arrays)))
  {
    if bs != [] {
      var init := bs[..|bs| - 1];
      LastWritten(l, init, arrays, keyword, attribute);
      ColumnSnoc(bs, attribute);
      LastSnoc(Column(init, attribute), attribute(bs[|bs| - 1]), keyword(l), keyword(ApplyAll(l, init, arrays)));
    }
  }

  lemma {:induction false} OtherPairUntouched(l: Limits, bs: seq<Bounds>)
    ensures ApplyAll(l, bs, true).minLength == l.minLength && ApplyAll(l, bs, true).maxLength == l.maxLength
    ensures ApplyAll(l, bs, false).minItems == l.minItems && ApplyAll(l, bs, false).maxItems == l.maxItems
  {
    if bs != [] { OtherPairUntouched(l, bs[..|bs| - 1]); }
  }

  /** Each numeric keyword and the pattern hold the last such bound, or what was there before any. */
  ghost predicate LastValues(l: Limits, bs: seq<Bounds>, r: Limits) {
    && IsLast(Column(bs, (b: Bounds) => b.ge), l.minimum, r.minimum)
    && IsLast(Column(bs, (b: Bounds) => b.gt), l.exclusiveMinimum, r.exclusiveMinimum)
    && IsLast(Column(bs, (b: Bounds) => b.le), l.maximum, r.maximum)
    && IsLast(Column(bs, (b: Bounds) => b.lt), l.exclusiveMaximum, r.exclusiveMaximum)
    && IsLast(Column(bs, (b: Bounds) => b.pattern), l.pattern, r.pattern)
  }

  /** The selected pair of length keywords holds the last lengths, and the other pair is untouched. */
  ghost predicate LastLengths(l: Limits, bs: seq<Bounds>, arrays: bool, r: Limits) {
    var low, high := Column(bs, (b: Bounds) => b.minLength), Column(bs, (b: Bounds) => b.maxLength);
    if arrays then
      && IsLast(low, l.minItems, r.minItems) && IsLast(high, l.maxItems, r.maxItems)
      && r.minLength == l.minLength && r.maxLength == l.maxLength
    else
      && IsLast(low, l.minLength, r.minLength) && IsLast(high, l.maxLength, r.maxLength)
      && r.minItems == l.minItems && r.maxItems == l.maxItems
  }

  lemma LastValueWins(l: Limits, bs: seq<Bounds>, arrays: bool)
    ensures LastValues(l, bs, ApplyAll(l, bs, arrays))
  {
    LastWritten(l, bs, arrays, (x: Limits) => x.minimum, (b: Bounds) => b.ge);
    LastWritten(l, bs, arrays, (x: Limits) => x.exclusiveMinimum, (b: Bounds) => b.gt);
    LastWritten(l, bs, arrays, (x: Limits) => x.maximum, (b: Bounds) => b.le);
    LastWritten(l, bs, arrays, (x: Limits) => x.exclusiveMaximum, (b: Bounds) => b.lt);
    LastWritten(l, bs, arrays, (x: Limits) => x.pattern, (b: Bounds) => b.pattern);
  }

  lemma LastLengthWins(l: Limits, bs: seq<Bounds>, arrays: bool)
    ensures LastLengths(l, bs, arrays, ApplyAll(l, bs, arrays))
  {
    OtherPairUntouched(l, bs);
    if arrays {
      LastWritten(l, bs, true, (x: Limits) => x.minItems, (b: Bounds) => b.minLength);
      LastWritten(l, bs, true, (x: Limits) => x.maxItems, (b: Bounds) => b.maxLength);
    } else {
      LastWritten(l, bs, false, (x: Limits) => x.minLength, (b: Bounds) => b.minLength);
      LastWritten(l, bs, false, (x: Limits) => x.maxLength, (b: Bounds) => b.maxLength);
    }
  }
}
