/**
 The timestamps of a synthetic population: calls spread over whole weeks before an
 anchor, with each offset rounded to a microsecond, ties to even.
 */
module Workload {

  const WEEK: nat := 7 * 24 * 3600 * 1_000_000
  const MAX_CALLS: nat := 300_000

  /** The dimensions that place calls in time. */
  datatype Profile = Profile(weeks: nat, sessionsPerWeek: nat, callsPerSession: nat) {
    predicate Valid() {
      && 1 <= weeks <= 26
      && 1 <= sessionsPerWeek <= 100_000
      && 1 <= callsPerSession <= 1000
      && TotalCalls() <= MAX_CALLS
    }

    function CallsPerWeek(): nat {
      sessionsPerWeek * callsPerSession
    }

    function TotalCalls(): nat {
      weeks * sessionsPerWeek * callsPerSession
    }

    function Duration(): nat {
      weeks * WEEK
    }
  }

  /** Division of microseconds as `timedelta / int` rounds it. */
  function DivideRoundEven(a: nat, b: nat): nat
    requires b > 0
  {
    var q, r := a / b, a % b;
    if 2 * r > b || (2 * r == b && q % 2 == 1) then q + 1 else q
  }

  function ObservedAt(p: Profile, index: nat, anchor: int): int
    requires p.Valid() && index < p.TotalCalls()
  {
    anchor - p.Duration() + DivideRoundEven(p.Duration() * index, p.TotalCalls())
  }

  /** The rounded quotient is nearest to the exact one, and even where two are equally near. */
  lemma RoundedWithinHalf(a: nat, b: nat)
    requires b > 0
    ensures 2 * a - b <= 2 * (b * DivideRoundEven(a, b)) <= 2 * a + b
    ensures 2 * (b * DivideRoundEven(a, b)) == 2 * a - b || 2 * (b * DivideRoundEven(a, b)) == 2 * a + b ==>
            DivideRoundEven(a, b) % 2 == 0
  {
    var q, r := a / b, a % b;
    assert a == b * q + r;
    assert b * (q + 1) == b * q + b;
  }

  lemma CallsPerWeekBounded(p: Profile)
    requires p.Valid()
    ensures 1 <= p.CallsPerWeek() <= MAX_CALLS && p.TotalCalls() == p.weeks * p.CallsPerWeek()
  {
    var k := p.CallsPerWeek();
    assert p.sessionsPerWeek * p.callsPerSession >= 1 * p.callsPerSession;
    assert p.weeks * p.sessionsPerWeek * p.callsPerSession == p.weeks * k;
    assert p.weeks * k >= 1 * k;
  }

  /** Consecutive calls are at least two microseconds apart before rounding. */
  lemma SpacedOut(p: Profile)
    requires p.Valid()
    ensures p.TotalCalls() >= 1 && p.Duration() >= 2 * p.TotalCalls()
  {
    CallsPerWeekBounded(p);
    var k := p.CallsPerWeek();
    assert p.weeks * k >= 1;
    assert p.weeks * WEEK >= p.weeks * (2 * k);
    assert p.weeks * (2 * k) == 2 * (p.weeks * k);
  }

  lemma CancelFactor(b: int, x: int, y: int)
    requires b > 0 && b * x < b * y
    ensures x < y
  {
    assert b * (y - x) == b * y - b * x;
  }

  /** Exact values at least two divisors apart round to different quotients. */
  lemma RoundedApart(x: nat, y: nat, n: nat)
    requires n > 0 && y >= x + 2 * n
    ensures DivideRoundEven(x, n) < DivideRoundEven(y, n)
  {
    RoundedWithinHalf(x, n);
    RoundedWithinHalf(y, n);
    CancelFactor(n, DivideRoundEven(x, n), DivideRoundEven(y, n));
  }

  /** Rounding does not cross a whole quotient from above, or reach one from well below. */
  lemma RoundedAgainst(x: nat, n: nat, m: nat)
    requires n > 0
    ensures x >= n * m ==> DivideRoundEven(x, n) >= m
    ensures x + n <= n * m ==> DivideRoundEven(x, n) < m
  {
    var r := DivideRoundEven(x, n);
    RoundedWithinHalf(x, n);
    assert n * (r + 1) == n * r + n;
    if x >= n * m { CancelFactor(n, m, r + 1); }
    if x + n <= n * m { CancelFactor(n, r, m); }
  }

  lemma {:induction false} ScaledApart(d: nat, i: nat, j: nat)
    requires i < j
    ensures d * j >= d * i + d
    decreases j
  {
    assert d * j == d * (j - 1) + d;
    if i < j - 1 { ScaledApart(d, i, j - 1); }
  }

  /** Later calls are strictly later. */
  lemma StrictlyIncreasing(p: Profile, i: nat, j: nat, anchor: int)
    requires p.Valid() && i < j < p.TotalCalls()
    ensures ObservedAt(p, i, anchor) < ObservedAt(p, j, anchor)
  {
    SpacedOut(p);
    ScaledApart(p.Duration(), i, j);
    RoundedApart(p.Duration() * i, p.Duration() * j, p.TotalCalls());
  }

  /** A call is in week `w` of the history exactly when its index is among that week's calls. */
  lemma WeekOfCall(p: Profile, i: nat, w: nat, anchor: int)
    requires p.Valid() && i < p.TotalCalls() && w < p.weeks
    ensures w * p.CallsPerWeek() <= i < (w + 1) * p.CallsPerWeek() <==>
            anchor - p.Duration() + w * WEEK <= ObservedAt(p, i, anchor) < anchor - p.Duration() + (w + 1) * WEEK
  {
    CallsPerWeekBounded(p);
    var k := p.CallsPerWeek();
    if i >= w * k { NotBefore(p, i, w); } else { Before(p, i, w); }
    if i < (w + 1) * k { Before(p, i, w + 1); } else { NotBefore(p, i, w + 1); }
  }

  lemma NotBefore(p: Profile, i: nat, w: nat)
    requires p.Valid() && w * p.CallsPerWeek() <= i
    ensures p.TotalCalls() > 0 && w * WEEK <= DivideRoundEven(p.Duration() * i, p.TotalCalls())
  {
    SpacedOut(p);
    WeekBoundary(p, w);
    if w * p.CallsPerWeek() < i { ScaledApart(p.Duration(), w * p.CallsPerWeek(), i); }
    RoundedAgainst(p.Duration() * i, p.TotalCalls(), w * WEEK);
  }

  lemma Before(p: Profile, i: nat, w: nat)
    requires p.Valid() && i < w * p.CallsPerWeek()
    ensures p.TotalCalls() > 0 && DivideRoundEven(p.Duration() * i, p.TotalCalls()) < w * WEEK
  {
    SpacedOut(p);
    WeekBoundary(p, w);
    ScaledApart(p.Duration(), i, w * p.CallsPerWeek());
    RoundedAgainst(p.Duration() * i, p.TotalCalls(), w * WEEK);
  }

  /** A week's worth of calls spans exactly a week. */
  lemma WeekBoundary(p: Profile, w: nat)
    requires p.Valid()
    ensures p.Duration() * (w * p.CallsPerWeek()) == p.TotalCalls() * (w * WEEK)
  {
    CallsPerWeekBounded(p);
    var k := p.CallsPerWeek();
    assert (p.weeks * WEEK) * (w * k) == p.weeks * (WEEK * (w * k));
    assert WEEK * (w * k) == (WEEK * w) * k == k * (w * WEEK);
    assert p.weeks * (k * (w * WEEK)) == (p.weeks * k) * (w * WEEK);
  }

  /** Every timestamp lies in the half-open window that ends at the anchor. */
  lemma WithinWindow(p: Profile, i: nat, anchor: int)
    requires p.Valid() && i < p.TotalCalls()
    ensures anchor - p.Duration() <= ObservedAt(p, i, anchor) < anchor
  {
    CallsPerWeekBounded(p);
    Before(p, i, p.weeks);
  }

  /** The calls observed in week `w`. */
  ghost function ObservedIn(p: Profile, w: nat, anchor: int): set<nat>
    requires p.Valid()
  {
    set i: nat | i < p.TotalCalls() &&
                 anchor - p.Duration() + w * WEEK <= ObservedAt(p, i, anchor) < anchor - p.Duration() + (w + 1) * WEEK
  }

  lemma WeekEdges(p: Profile, w: nat)
    requires p.Valid() && w < p.weeks
    ensures (w + 1) * p.CallsPerWeek() == w * p.CallsPerWeek() + p.CallsPerWeek() <= p.TotalCalls()
  {
    CallsPerWeekBounded(p);
    var k := p.CallsPerWeek();
    if w + 1 < p.weeks { ScaledApart(k, w + 1, p.weeks); }
    assert k * (w + 1) <= k * p.weeks;
  }

  /** Each week holds exactly its share of the observations. */
  lemma WeeklyShare(p: Profile, w: nat, anchor: int)
    requires p.Valid() && w < p.weeks
    ensures |ObservedIn(p, w, anchor)| == p.CallsPerWeek()
  {
    WeekEdges(p, w);
    var lo, k := w * p.CallsPerWeek(), p.CallsPerWeek();
    forall i: nat ensures i in ObservedIn(p, w, anchor) <==> i in Range(lo, k) {
      if i < p.TotalCalls() { WeekOfCall(p, i, w, anchor); }
    }
    assert ObservedIn(p, w, anchor) == Range(lo, k);
  }

  ghost function Range(lo: nat, k: nat): (r: set<nat>)
    ensures |r| == k && forall i :: i in r <==> lo <= i < lo + k
  {
    if k == 0 then {} else Range(lo, k - 1) + {lo + k - 1}
  }
}
