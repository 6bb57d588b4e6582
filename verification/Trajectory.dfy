/**
 Folds over event logs and captured histories. Whether a completed retrieval hits
 the constraint or the failure, and whether it matched, are functions of its result.
 */
module Trajectory {

  datatype Tool = Retrieve | Work | OtherTool

  datatype Event<+R> = Start(tool: Tool, id: string) | End(id: string, result: R) | OtherEvent

  /** How a result counts: gold hits, and a match for the lookup check. */
  datatype Scoring<!R> = Scoring(constraint: R -> bool, failure: R -> bool, matched: R -> bool)

  // ----- declarative meaning -----

  /** A retrieval start with this identifier is still waiting for its end before position `n`. */
  ghost predicate Open<R>(events: seq<Event<R>>, id: string, n: nat)
    requires n <= |events|
  {
    exists i :: 0 <= i < n && OpenSince(events, id, i, n)
  }

  ghost predicate OpenSince<R>(events: seq<Event<R>>, id: string, i: nat, n: nat)
    requires i < n <= |events|
  {
    events[i] == Start(Retrieve, id) && forall m :: i < m < n && events[m].End? ==> events[m].id != id
  }

  /** The event at `j` ends a retrieval that had started and not yet ended. */
  ghost predicate Completes<R>(events: seq<Event<R>>, j: nat)
    requires j < |events|
  {
    events[j].End? && Open(events, events[j].id, j)
  }

  ghost predicate HitBefore<R>(events: seq<Event<R>>, hit: R -> bool, n: nat)
    requires n <= |events|
  {
    exists j :: 0 <= j < n && Completes(events, j) && hit(events[j].result)
  }

  /** Both kinds of evidence were retrieved before position `n`. */
  ghost predicate EvidenceBefore<R>(events: seq<Event<R>>, s: Scoring<R>, n: nat)
    requires n <= |events|
  {
    HitBefore(events, s.constraint, n) && HitBefore(events, s.failure, n)
  }

  ghost predicate IsWork<R>(e: Event<R>) {
    e.Start? && e.tool.Work?
  }

  /** Native work started after the evidence was complete. */
  ghost predicate LaterWork<R>(events: seq<Event<R>>, s: Scoring<R>, n: nat)
    requires n <= |events|
  {
    exists w :: 0 <= w < n && IsWork(events[w]) && EvidenceBefore(events, s, w)
  }

  // ----- one more event -----

  lemma OpenNext<R>(events: seq<Event<R>>, id: string, n: nat)
    requires n < |events|
    ensures Open(events, id, n + 1) <==>
            events[n] == Start(Retrieve, id) || (Open(events, id, n) && !(events[n].End? && events[n].id == id))
  {
    if Open(events, id, n + 1) {
      var i :| 0 <= i < n + 1 && OpenSince(events, id, i, n + 1);
      if i < n { assert OpenSince(events, id, i, n); }
    }
    if events[n] == Start(Retrieve, id) {
      assert OpenSince(events, id, n, n + 1);
    } else if Open(events, id, n) && !(events[n].End? && events[n].id == id) {
      var i :| 0 <= i < n && OpenSince(events, id, i, n);
      assert OpenSince(events, id, i, n + 1);
    }
  }

  /** The identifiers of open retrievals, and their update. */
  ghost predicate PendingIs<R>(events: seq<Event<R>>, pending: set<string>, n: nat)
    requires n <= |events|
  {
    forall id :: id in pending <==> Open(events, id, n)
  }

  lemma PendingNext<R>(events: seq<Event<R>>, pending: set<string>, n: nat)
    requires n < |events| && PendingIs(events, pending, n)
    ensures events[n].Start? && events[n].tool.Retrieve? ==> PendingIs(events, pending + {events[n].id}, n + 1)
    ensures events[n].End? ==> PendingIs(events, pending - {events[n].id}, n + 1)
    ensures (events[n].End? && events[n].id !in pending) || (events[n].Start? && !events[n].tool.Retrieve?) ||
            events[n].OtherEvent? ==>
            PendingIs(events, pending, n + 1)
    ensures events[n].End? ==> (events[n].id in pending <==> Completes(events, n))
  {
    forall id ensures Open(events, id, n + 1) <==>
      events[n] == Start(Retrieve, id) || (Open(events, id, n) && !(events[n].End? && events[n].id == id))
    {
      OpenNext(events, id, n);
    }
  }

  lemma HitNext<R>(events: seq<Event<R>>, hit: R -> bool, n: nat)
    requires n < |events|
    ensures HitBefore(events, hit, n + 1) <==>
            HitBefore(events, hit, n) || (Completes(events, n) && hit(events[n].result))
  {
    if HitBefore(events, hit, n) {
      var j :| 0 <= j < n && Completes(events, j) && hit(events[j].result);
      assert 0 <= j < n + 1;
    }
  }

  // ----- the folds -----

  /** The retrieval observations of a log: what was hit, and whether work followed complete evidence. */
  method RetrievalObservations<R>(events: seq<Event<R>>, s: Scoring<R>)
    returns (completed: seq<nat>, constraint: bool, failure: bool, laterWork: bool)
    ensures constraint <==> HitBefore(events, s.constraint, |events|)
    ensures failure <==> HitBefore(events, s.failure, |events|)
    ensures laterWork <==> LaterWork(events, s, |events|)
    ensures forall j: nat :: j in completed <==> j < |events| && Completes(events, j)
    ensures forall a, b :: 0 <= a < b < |completed| ==> completed[a] < completed[b]
  {
    var pending: set<string> := {};
    var evidence := false;
    completed, constraint, failure, laterWork := [], false, false, false;
    for n := 0 to |events|
      invariant PendingIs(events, pending, n)
      invariant constraint <==> HitBefore(events, s.constraint, n)
      invariant failure <==> HitBefore(events, s.failure, n)
      invariant evidence <==> EvidenceBefore(events, s, n)
      invariant laterWork <==> LaterWork(events, s, n)
      invariant forall j: nat :: j in completed <==> j < n && Completes(events, j)
      invariant forall a :: 0 <= a < |completed| ==> completed[a] < n
      invariant forall a, b :: 0 <= a < b < |completed| ==> completed[a] < completed[b]
    {
      PendingNext(events, pending, n);
      HitNext(events, s.constraint, n);
      HitNext(events, s.failure, n);
      LaterNext(events, s, n);
      match events[n]
      case Start(tool, id) =>
        if tool.Retrieve? { pending := pending + {id}; } else if tool.Work? && evidence { laterWork := true; }
      case End(id, result) =>
        if id in pending {
          pending := pending - {id};
          constraint := constraint || s.constraint(result);
          failure := failure || s.failure(result);
          evidence := evidence || (constraint && failure);
          completed := completed + [n];
        }
      case OtherEvent =>
    }
  }

  lemma LaterNext<R>(events: seq<Event<R>>, s: Scoring<R>, n: nat)
    requires n < |events|
    ensures LaterWork(events, s, n + 1) <==>
            LaterWork(events, s, n) || (IsWork(events[n]) && EvidenceBefore(events, s, n))
  {
    if LaterWork(events, s, n) {
      var w :| 0 <= w < n && IsWork(events[w]) && EvidenceBefore(events, s, w);
      assert 0 <= w < n + 1;
    }
  }

  /** A longer log never takes a hit or later work back. */
  lemma FlagsNeverRevert<R>(events: seq<Event<R>>, more: seq<Event<R>>, s: Scoring<R>)
    ensures HitBefore(events, s.constraint, |events|) ==> HitBefore(events + more, s.constraint, |events + more|)
    ensures HitBefore(events, s.failure, |events|) ==> HitBefore(events + more, s.failure, |events + more|)
    ensures LaterWork(events, s, |events|) ==> LaterWork(events + more, s, |events + more|)
  {
    SamePrefix(events, events + more, s.constraint, |events|);
    SamePrefix(events, events + more, s.failure, |events|);
    if LaterWork(events, s, |events|) {
      var w :| 0 <= w < |events| && IsWork(events[w]) && EvidenceBefore(events, s, w);
      SamePrefix(events, events + more, s.constraint, w);
      SamePrefix(events, events + more, s.failure, w);
      assert IsWork((events + more)[w]) && EvidenceBefore(events + more, s, w);
    }
    if HitBefore(events, s.constraint, |events|) { HitGrows(events + more, s.constraint, |events|); }
    if HitBefore(events, s.failure, |events|) { HitGrows(events + more, s.failure, |events|); }
  }

  lemma HitGrows<R>(events: seq<Event<R>>, hit: R -> bool, n: nat)
    requires n <= |events| && HitBefore(events, hit, n)
    ensures HitBefore(events, hit, |events|)
  {
  }

  /** What was hit before a position depends only on the events before it. */
  lemma SamePrefix<R>(a: seq<Event<R>>, b: seq<Event<R>>, hit: R -> bool, n: nat)
    requires n <= |a| && n <= |b| && a[..n] == b[..n]
    ensures HitBefore(a, hit, n) <==> HitBefore(b, hit, n)
  {
    forall j | 0 <= j < n ensures a[j] == b[j] && (Completes(a, j) <==> Completes(b, j)) {
      assert a[j] == a[..n][j] && b[j] == b[..n][j];
      if a[j].End? { SameOpen(a, b, a[j].id, j, n); }
    }
  }

  lemma SameOpen<R>(a: seq<Event<R>>, b: seq<Event<R>>, id: string, j: nat, n: nat)
    requires j <= n <= |a| && n <= |b| && a[..n] == b[..n]
    ensures Open(a, id, j) <==> Open(b, id, j)
  {
    forall i | 0 <= i < j ensures OpenSince(a, id, i, j) <==> OpenSince(b, id, i, j) {
      assert forall m :: 0 <= m < n ==> a[m] == a[..n][m] && b[m] == b[..n][m];
    }
  }

  // ----- lookup before work -----

  /** The first start of native work. */
  ghost predicate FirstWork<R>(events: seq<Event<R>>, w: nat) {
    w < |events| && IsWork(events[w]) && forall i :: 0 <= i < w ==> !IsWork(events[i])
  }

  /** A matched retrieval completed before the first work; a start without an identifier does not count. */
  ghost predicate Looked<R>(events: seq<Event<R>>, s: Scoring<R>, n: nat)
    requires n <= |events|
  {
    exists j :: 0 <= j < n && Completes(events, j) && events[j].id != "" && s.matched(events[j].result)
  }

  method LookupBeforeWork<R>(events: seq<Event<R>>, s: Scoring<R>) returns (r: bool)
    ensures r <==> exists w :: FirstWork(events, w) && Looked(events, s, w)
    ensures forall w :: FirstWork(events, w) ==> (r <==> Looked(events, s, w))
  {
    var pending: set<string> := {};
    var received := false;
    for n := 0 to |events|
      invariant forall id :: id in pending <==> id != "" && Open(events, id, n)
      invariant received <==> Looked(events, s, n)
      invariant forall i :: 0 <= i < n ==> !IsWork(events[i])
    {
      forall id ensures Open(events, id, n + 1) <==>
        events[n] == Start(Retrieve, id) || (Open(events, id, n) && !(events[n].End? && events[n].id == id))
      {
        OpenNext(events, id, n);
      }
      LookedNext(events, s, n);
      match events[n]
      case Start(tool, id) =>
        if tool.Work? {
          assert FirstWork(events, n);
          return received;
        }
        if tool.Retrieve? && id != "" { pending := pending + {id}; }
      case End(id, result) =>
        if id in pending {
          pending := pending - {id};
          received := received || s.matched(result);
        }
      case OtherEvent =>
    }
    return false;
  }

  lemma LookedNext<R>(events: seq<Event<R>>, s: Scoring<R>, n: nat)
    requires n < |events|
    ensures Looked(events, s, n + 1) <==>
            Looked(events, s, n) || (Completes(events, n) && events[n].id != "" && s.matched(events[n].result))
  {
    if Looked(events, s, n) {
      var j :| 0 <= j < n && Completes(events, j) && events[j].id != "" && s.matched(events[j].result);
      assert 0 <= j < n + 1;
    }
  }

  /** Two logs that agree up to their first work agree on the lookup. */
  lemma DecidedByPrefix<R>(a: seq<Event<R>>, b: seq<Event<R>>, s: Scoring<R>, w: nat)
    requires w < |a| && w < |b| && a[..w + 1] == b[..w + 1] && FirstWork(a, w)
    ensures FirstWork(b, w) && (Looked(a, s, w) <==> Looked(b, s, w))
  {
    forall j | 0 <= j <= w ensures a[j] == b[j] { assert a[j] == a[..w + 1][j] && b[j] == b[..w + 1][j]; }
    forall j | 0 <= j < w ensures Completes(a, j) <==> Completes(b, j) {
      if a[j].End? { SameOpen(a, b, a[j].id, j, w + 1); }
    }
  }

  // ----- the captured trajectory -----

  datatype Part<+R> = Call(tool: Tool, id: string, query: bool) | Response(id: string, result: R) | OtherPart

  /** A response to an earlier retrieval call that carried a query. */
  ghost predicate Answers<R>(parts: seq<Part<R>>, j: nat)
    requires j < |parts|
  {
    parts[j].Response? && exists i :: 0 <= i < j && parts[i] == Call(Retrieve, parts[j].id, true)
  }

  ghost predicate AnsweredBefore<R>(parts: seq<Part<R>>, hit: R -> bool, n: nat)
    requires n <= |parts|
  {
    exists j :: 0 <= j < n && Answers(parts, j) && hit(parts[j].result)
  }

  ghost predicate WorkAfter<R>(parts: seq<Part<R>>, s: Scoring<R>, w: nat)
    requires w < |parts|
  {
    parts[w].Call? && parts[w].tool.Work? && AnsweredBefore(parts, s.constraint, w) &&
      AnsweredBefore(parts, s.failure, w)
  }

  method CapturedTrajectory<R>(parts: seq<Part<R>>, s: Scoring<R>) returns (r: bool)
    ensures r <==> exists w :: 0 <= w < |parts| && WorkAfter(parts, s, w)
  {
    var calls: set<string> := {};
    var constraint, failure := false, false;
    for n := 0 to |parts|
      invariant forall id :: id in calls <==> exists i :: 0 <= i < n && parts[i] == Call(Retrieve, id, true)
      invariant constraint <==> AnsweredBefore(parts, s.constraint, n)
      invariant failure <==> AnsweredBefore(parts, s.failure, n)
      invariant forall w :: 0 <= w < n ==> !WorkAfter(parts, s, w)
    {
      AnsweredNext(parts, s.constraint, n);
      AnsweredNext(parts, s.failure, n);
      match parts[n]
      case Call(tool, id, query) =>
        if tool.Retrieve? && query { calls := calls + {id}; }
        else if tool.Work? && constraint && failure {
          assert WorkAfter(parts, s, n);
          return true;
        }
      case Response(id, result) =>
        if id in calls {
          constraint := constraint || s.constraint(result);
          failure := failure || s.failure(result);
        }
      case OtherPart =>
    }
    return false;
  }

  lemma AnsweredNext<R>(parts: seq<Part<R>>, hit: R -> bool, n: nat)
    requires n < |parts|
    ensures AnsweredBefore(parts, hit, n + 1) <==>
            AnsweredBefore(parts, hit, n) || (Answers(parts, n) && hit(parts[n].result))
  {
    if AnsweredBefore(parts, hit, n) {
      var j :| 0 <= j < n && Answers(parts, j) && hit(parts[j].result);
      assert 0 <= j < n + 1;
    }
  }
}
