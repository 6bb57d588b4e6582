/** What holds of every interleaving of gate handlers, and what an accepted preflight then means. */
module GateTheorems {
  import opened Options
  import opened Gate

  function InFlightOn(r: Route): Handler -> nat {
    (h: Handler) => One(h.route == r && HoldsReservation(h.pc) && !h.pc.Closed?)
  }

  function ClosedOn(r: Route, outcome: Outcome): Handler -> nat {
    (h: Handler) => One(h.route == r && h.pc == Closed(outcome))
  }

  function RefusedOrLostOn(r: Route): Handler -> nat {
    (h: Handler) => One(h.route == r && (h.pc == Closed(WasRefused) || h.pc == Closed(WasLost)))
  }

  /** Upstream requests stay within the limit, and reservations and refusals account for every attempt that asked. */
  lemma AttemptsWithinLimit(actions: seq<Action>, s: State, r: Route)
    requires Runs(INITIAL, actions, s)
    ensures s.sent.At(r) <= s.budget.forwarded.At(r) <= Limit(r)
    ensures s.budget.forwarded.At(r) + s.budget.declined.At(r) == Total(s.handlers, ArrivedOn(r))
  {
    InitialInv();
    RunInv(INITIAL, actions, s);
    assert BalancedOn(s, r);
    SentAtMostReserved(s, r);
    TotalSplit(s.handlers, ArrivedOn(r), ReservedOn(r), DeclinedOn(r));
  }

  lemma SentAtMostReserved(s: State, r: Route)
    requires Inv(s)
    ensures Total(s.handlers, SentOn(r)) <= Total(s.handlers, ReservedOn(r))
  {
    forall i | 0 <= i < |s.handlers| ensures SentOn(r)(s.handlers[i]) <= ReservedOn(r)(s.handlers[i]) {
      assert HandlerOk(s, s.handlers[i]);
    }
    TotalAtMost(s.handlers, SentOn(r), ReservedOn(r));
  }

  /** Saved request and response bytes never pass the total ceiling. */
  lemma RetainedWithinCeiling(actions: seq<Action>, s: State)
    requires Runs(INITIAL, actions, s)
    ensures s.retained <= TOTAL_RECORD_LIMIT
  {
    InitialInv();
    RunInv(INITIAL, actions, s);
  }

  /**
   From any reachable state on, the stop reason and the session are fixed once set, and every record
   of a session names that one.
   */
  lemma OneStopOneSession(before: seq<Action>, s: State, after: seq<Action>, t: State)
    requires Runs(INITIAL, before, s) && Runs(s, after, t)
    ensures s.stopped.Some? ==> t.stopped == s.stopped
    ensures s.session.Some? ==> t.session == s.session
    ensures forall i :: 0 <= i < |t.metas| && t.metas[i].session.Some? ==> t.session == t.metas[i].session
  {
    InitialInv();
    RunInv(INITIAL, before, s);
    RunInv(s, after, t);
    forall i | 0 <= i < |t.metas| ensures MetaOk(t, t.metas[i]) {}
  }

  /** Every reservation is in flight, recorded, refused because of a stop, or had its record lost. */
  lemma ReservationsConserved(actions: seq<Action>, s: State, r: Route)
    requires Runs(INITIAL, actions, s)
    ensures s.budget.forwarded.At(r) ==
            Total(s.handlers, InFlightOn(r)) + RowsOn(s.metas, r)
            + Total(s.handlers, ClosedOn(r, WasRefused)) + Total(s.handlers, ClosedOn(r, WasLost))
    ensures Total(s.handlers, ClosedOn(r, WasRefused)) > 0 ==> s.stopped.Some?
  {
    InitialInv();
    RunInv(INITIAL, actions, s);
    assert BalancedOn(s, r);
    ReservedSplits(s.handlers, r);
    UnrecordedSplits(s.handlers, r);
    if s.stopped.None? { NoneRefused(s, r); }
  }

  lemma ReservedSplits(hs: seq<Handler>, r: Route)
    ensures Total(hs, ReservedOn(r)) == Total(hs, UnrecordedOn(r)) + Total(hs, RecordedOn(r))
  {
    TotalSplit(hs, ReservedOn(r), UnrecordedOn(r), RecordedOn(r));
  }

  lemma UnrecordedSplits(hs: seq<Handler>, r: Route)
    ensures Total(hs, UnrecordedOn(r)) ==
            Total(hs, InFlightOn(r)) + Total(hs, ClosedOn(r, WasRefused)) + Total(hs, ClosedOn(r, WasLost))
  {
    forall h: Handler ensures UnrecordedOn(r)(h) == InFlightOn(r)(h) + RefusedOrLostOn(r)(h) {
      if h.pc.Closed? {
        match h.pc.outcome
        case WasDeclined =>
        case WasRefused =>
        case WasRecorded =>
        case WasLost =>
      }
    }
    TotalSplit(hs, UnrecordedOn(r), InFlightOn(r), RefusedOrLostOn(r));
    TotalSplit(hs, RefusedOrLostOn(r), ClosedOn(r, WasRefused), ClosedOn(r, WasLost));
  }

  lemma NoneRefused(s: State, r: Route)
    requires Inv(s) && s.stopped.None?
    ensures Total(s.handlers, ClosedOn(r, WasRefused)) == 0
  {
    forall i | 0 <= i < |s.handlers| ensures ClosedOn(r, WasRefused)(s.handlers[i]) == 0 {
      assert HandlerOk(s, s.handlers[i]);
    }
    TotalZero(s.handlers, ClosedOn(r, WasRefused));
  }

  lemma {:induction false} TotalZero(hs: seq<Handler>, f: Handler -> nat)
    requires forall i :: 0 <= i < |hs| ==> f(hs[i]) == 0
    ensures Total(hs, f) == 0
  {
    if hs != [] { TotalZero(hs[..|hs| - 1], f); }
  }

  /**
   A record that carries an error is incomplete and stops the gate. A record is incomplete without
   an error exactly when an exception escaped its own handler.
   */
  lemma IncompleteMeansStopped(actions: seq<Action>, s: State, i: nat)
    requires Runs(INITIAL, actions, s) && i < |s.metas|
    ensures s.metas[i].error.Some? ==> !s.metas[i].complete && s.stopped.Some?
    ensures Owns(s, s.metas[i])
    ensures !s.metas[i].complete && s.metas[i].error.None? <==> s.handlers[s.metas[i].id].escaped
    ensures !s.metas[i].complete && !s.handlers[s.metas[i].id].escaped ==> s.stopped.Some?
  {
    InitialInv();
    RunInv(INITIAL, actions, s);
    assert MetaOk(s, s.metas[i]) && Owns(s, s.metas[i]);
    assert HandlerOk(s, s.handlers[s.metas[i].id]);
  }

  /** An exception outside the caught classes leaves an incomplete record and an open gate. */
  lemma EscapeLeavesGateOpen(r: Route) returns (actions: seq<Action>, s: State)
    ensures Runs(INITIAL, actions, s)
    ensures |s.metas| == 1 && !s.metas[0].complete && s.metas[0].error.None? && s.stopped.None?
    ensures Owns(s, s.metas[0]) && s.handlers[s.metas[0].id].escaped
  {
    actions, s := OneReading(r);
    actions, s := Extended(actions, s, Escape(0));
    actions, s := Extended(actions, s, WriteMeta(0));
  }

  function Spent(r: Route): Budget {
    Budget(ZERO.Bump(r), ZERO)
  }

  /** One handler, inside its try block. */
  lemma OneReading(r: Route) returns (actions: seq<Action>, s: State)
    ensures Runs(INITIAL, actions, s)
    ensures s == State(Spent(r), None, None, 0, 0, 0, ZERO, [],
                       [Handler(r, Reading, false, false, Meta(0, r, false, None, None, None))])
  {
    actions, s := [], INITIAL;
    actions, s := Extended(actions, s, Arrive(r));
    actions, s := Extended(actions, s, TryReserve(0));
    actions, s := Extended(actions, s, ReadStop(0));
  }

  /** One more step at the end of a run. */
  lemma Extended(actions: seq<Action>, s: State, a: Action) returns (longer: seq<Action>, t: State)
    requires Runs(INITIAL, actions, s) && Enabled(s, a)
    ensures Runs(INITIAL, longer, t) && t == Do(s, a)
  {
    longer, t := actions + [a], Do(s, a);
    RunsSnoc(INITIAL, actions, s, a);
  }

  lemma {:induction false} RunsSnoc(s: State, actions: seq<Action>, t: State, a: Action)
    requires Runs(s, actions, t) && Enabled(t, a)
    ensures Runs(s, actions + [a], Do(t, a))
    decreases |actions|
  {
    if actions == [] {
      assert (actions + [a])[1..] == [];
    } else {
      RunsSnoc(Do(s, actions[0]), actions[1..], t, a);
      assert (actions + [a])[1..] == actions[1..] + [a];
    }
  }

  // ----- preflight -----

  /** The health snapshot and the saved records that `preflight_traffic` accepts. */
  ghost predicate TrafficAccepted(stopped: Option<string>, budget: Budget, metas: seq<Meta>, session: string) {
    && stopped.None?
    && (forall r: Route :: budget.forwarded.At(r) == RowsOn(metas, r) && budget.declined.At(r) == 0)
    && (forall i :: 0 <= i < |metas| ==> metas[i].complete && metas[i].status == Some(200))
    && (exists i :: 0 <= i < |metas| && metas[i].route.ModelRoute?)
    && (forall i :: 0 <= i < |metas| && metas[i].route.ModelRoute? ==> metas[i].session == Some(session))
  }

  /**
   The stop flag is read at `s0`, the budget at `s1`, the records at `s2`. Acceptance
   leaves exactly as many reservations without a record as were made after the
   budget was read. So when none was, every reserved attempt is recorded, complete,
   with status 200, in the one session.
   */
  lemma AcceptedTraffic(
    a0: seq<Action>, s0: State, a1: seq<Action>, s1: State, a2: seq<Action>, s2: State, session: string, r: Route)
    requires Runs(INITIAL, a0, s0) && Runs(s0, a1, s1) && Runs(s1, a2, s2)
    requires TrafficAccepted(s0.stopped, s1.budget, s2.metas, session)
    ensures Total(s2.handlers, UnrecordedOn(r)) == s2.budget.forwarded.At(r) - s1.budget.forwarded.At(r)
    ensures s2.session == Some(session)
    ensures s2.budget.forwarded.At(r) == s1.budget.forwarded.At(r) ==>
            forall i :: 0 <= i < |s2.handlers| && s2.handlers[i].route == r && HoldsReservation(s2.handlers[i].pc) ==>
              && s2.handlers[i].pc == Closed(WasRecorded)
              && s2.handlers[i].meta.complete && s2.handlers[i].meta.status == Some(200)
              && (r.ModelRoute? ==> s2.handlers[i].meta.session == Some(session))
  {
    InitialInv();
    RunInv(INITIAL, a0, s0);
    RunInv(s0, a1, s1);
    RunInv(s1, a2, s2);
    assert BalancedOn(s2, r);
    ReservedSplits(s2.handlers, r);
    var m :| 0 <= m < |s2.metas| && s2.metas[m].route.ModelRoute?;
    assert MetaOk(s2, s2.metas[m]);
    if s2.budget.forwarded.At(r) == s1.budget.forwarded.At(r) {
      AllRecorded(s2.handlers, r);
      forall i | 0 <= i < |s2.handlers| ensures HandlerOk(s2, s2.handlers[i]) {}
    }
  }

  lemma AllRecorded(hs: seq<Handler>, r: Route)
    requires Total(hs, UnrecordedOn(r)) == 0
    ensures forall i :: 0 <= i < |hs| && hs[i].route == r && HoldsReservation(hs[i].pc) ==>
            hs[i].pc == Closed(WasRecorded)
  {
    forall i | 0 <= i < |hs| && hs[i].route == r && HoldsReservation(hs[i].pc) ensures hs[i].pc == Closed(WasRecorded) {
      TotalCovers(hs, UnrecordedOn(r), i);
    }
  }

  lemma {:induction false} TotalCovers(hs: seq<Handler>, f: Handler -> nat, i: nat)
    requires i < |hs|
    ensures f(hs[i]) <= Total(hs, f)
  {
    if i < |hs| - 1 {
      TotalCovers(hs[..|hs| - 1], f, i);
      assert hs[..|hs| - 1][i] == hs[i];
    }
  }

  function Solo(pc: Pc, sent: bool, meta: Meta): seq<Handler> {
    [Handler(ModelRoute, pc, sent, false, meta)]
  }

  /** Its request accepted and saved. */
  lemma OneForwarding(session: string) returns (actions: seq<Action>, s: State)
    ensures Runs(INITIAL, actions, s)
    ensures s == State(Spent(ModelRoute), None, Some(session), 1, 1, 1, ZERO, [],
                       Solo(Forwarding, false, Meta(0, ModelRoute, false, None, Some(session), None)))
  {
    actions, s := OneReading(ModelRoute);
    actions, s := Extended(actions, s, BindSession(0, session));
    actions, s := Extended(actions, s, AcceptSettings(0));
    actions, s := Extended(actions, s, CountRequest(0, 1));
    actions, s := Extended(actions, s, SaveRequest(0));
  }

  /** Its response received with status 200. */
  lemma OneStreaming(session: string) returns (actions: seq<Action>, s: State)
    ensures Runs(INITIAL, actions, s)
    ensures s == State(Spent(ModelRoute), None, Some(session), 1, 1, 1, ZERO.Bump(ModelRoute), [],
                       Solo(Streaming(0), true, Meta(0, ModelRoute, false, Some(200), Some(session), None)))
  {
    actions, s := OneForwarding(session);
    actions, s := Extended(actions, s, Send(0));
    actions, s := Extended(actions, s, Receive(0, 200, true));
  }

  /** A model request that runs to completion, from its arrival to its record. */
  lemma OneCompletedCall(session: string) returns (actions: seq<Action>, s: State)
    ensures Runs(INITIAL, actions, s) && s.stopped.None?
    ensures s.budget == Budget(Counts(1, 0), ZERO)
    ensures s.metas == [Meta(0, ModelRoute, true, Some(200), Some(session), None)] && |s.handlers| == 1
  {
    actions, s := OneStreaming(session);
    actions, s := Extended(actions, s, Complete(0));
    actions, s := Extended(actions, s, WriteMeta(0));
  }

  /** A run whose preflight is accepted although a second attempt, reserved after the budget was read, has no record. */
  lemma LateReservation(session: string)
    returns (before: seq<Action>, s1: State, after: seq<Action>, s2: State)
    ensures Runs(INITIAL, before, s1) && Runs(s1, after, s2)
    ensures TrafficAccepted(s1.stopped, s1.budget, s2.metas, session)
    ensures s2.budget.forwarded.At(ModelRoute) == s1.budget.forwarded.At(ModelRoute) + 1
    ensures |s2.handlers| == 2 && s2.handlers[1].pc.Reserved?
  {
    before, s1 := OneCompletedCall(session);
    var a, b := Arrive(ModelRoute), TryReserve(1);
    var middle := Do(s1, a);
    s2 := Do(middle, b);
    after := [a] + [b];
    assert after[1..] == [b] && [b][1..] == [];
    assert Runs(middle, [b], s2);
    OneRow(s2.metas);
  }

  lemma OneRow(metas: seq<Meta>)
    requires |metas| == 1 && metas[0].route.ModelRoute?
    ensures RowsOn(metas, ModelRoute) == 1 && RowsOn(metas, RetrievalRoute) == 0
  {
    assert metas[..0] == [];
  }
}
