/**
 The evaluation gate: an attempt budget, a write-once stop reason, a write-once
 session and a byte ceiling, shared by any number of request handlers. The
 classes are the shared objects; the transition system interleaves handlers at
 every point where they touch those objects or the record directory.
 */
module Gate {
  import opened Options

  const MODEL_CALL_LIMIT: nat := 12
  const RETRIEVAL_CALL_LIMIT: nat := 4
  const RECORD_LIMIT: nat := 8 * 1024 * 1024
  const TOTAL_RECORD_LIMIT: nat := 64 * 1024 * 1024

  datatype Route = ModelRoute | RetrievalRoute

  function Limit(r: Route): nat {
    if r.ModelRoute? then MODEL_CALL_LIMIT else RETRIEVAL_CALL_LIMIT
  }

  datatype Counts = Counts(model: nat, retrieval: nat) {
    function At(r: Route): nat {
      if r.ModelRoute? then model else retrieval
    }

    function Bump(r: Route): Counts {
      if r.ModelRoute? then Counts(model + 1, retrieval) else Counts(model, retrieval + 1)
    }
  }

  const ZERO := Counts(0, 0)

  datatype Budget = Budget(forwarded: Counts, declined: Counts)

  /** One reservation: granted below the limit, otherwise counted as declined; never refunded. */
  function Reserve(b: Budget, r: Route): (Budget, bool) {
    if b.forwarded.At(r) >= Limit(r)
    then (Budget(b.forwarded, b.declined.Bump(r)), false)
    else (Budget(b.forwarded.Bump(r), b.declined), true)
  }

  function StopWith(stopped: Option<string>, reason: string): Option<string> {
    if stopped.Some? then stopped else Some(reason)
  }

  /** One count of bytes: the new total, the stop it may cause, and whether it is within the ceiling. */
  function Count(total: nat, stopped: Option<string>, size: nat): (nat, Option<string>, bool) {
    if total + size > TOTAL_RECORD_LIMIT then (total + size, StopWith(stopped, "record_limit"), false)
    else (total + size, stopped, true)
  }

  /** One attempt to name the session: the session afterwards, and whether this is it. */
  function Bind(session: Option<string>, id: string): (Option<string>, bool) {
    if session.Some? && session != Some(id) then (session, false) else (Some(id), true)
  }

  class AttemptBudget {
    var counts: Budget

    constructor ()
      ensures counts == Budget(ZERO, ZERO)
    {
      counts := Budget(ZERO, ZERO);
    }

    method TryReserve(route: Route) returns (granted: bool)
      modifies this
      ensures (counts, granted) == Reserve(old(counts), route)
      ensures granted ==> counts.forwarded.At(route) <= Limit(route)
    {
      if counts.forwarded.At(route) >= Limit(route) {
        counts := Budget(counts.forwarded, counts.declined.Bump(route));
        return false;
      }
      counts := Budget(counts.forwarded.Bump(route), counts.declined);
      return true;
    }
  }

  class GateState {
    var stopped: Option<string>
    var sessionId: Option<string>
    var recordBytes: nat

    constructor ()
      ensures stopped == None && sessionId == None && recordBytes == 0
    {
      stopped, sessionId, recordBytes := None, None, 0;
    }

    method Stop(reason: string)
      modifies this`stopped
      ensures stopped == StopWith(old(stopped), reason)
    {
      if stopped.None? { stopped := Some(reason); }
    }

    /** The total grows even when the count is refused, so every later count is refused too. */
    method CountBytes(size: nat) returns (within: bool)
      modifies this`stopped, this`recordBytes
      ensures (recordBytes, stopped, within) == Count(old(recordBytes), old(stopped), size)
      ensures recordBytes == old(recordBytes) + size && within == (recordBytes <= TOTAL_RECORD_LIMIT)
    {
      recordBytes := recordBytes + size;
      within := recordBytes <= TOTAL_RECORD_LIMIT;
      if !within && stopped.None? { stopped := Some("record_limit"); }
    }

    method BindSession(session: string) returns (bound: bool)
      modifies this`sessionId
      ensures (sessionId, bound) == Bind(old(sessionId), session)
      ensures old(sessionId).Some? ==> sessionId == old(sessionId)
    {
      if sessionId.Some? && sessionId != Some(session) { return false; }
      sessionId := Some(session);
      return true;
    }
  }

  // ----- the transition system -----

  /** A `.meta.json` record, as far as it has been filled in; the identifier is its handler's alone. */
  datatype Meta = Meta(
    id: nat, route: Route, complete: bool, status: Option<nat>, session: Option<string>, error: Option<string>)

  datatype Outcome = WasDeclined | WasRefused | WasRecorded | WasLost

  datatype Pc =
    | Authorised                           // credentials accepted, no reservation yet
    | Declined                             // reservation refused, stop not yet recorded
    | Reserved                             // reservation made, stop flag not yet read
    | Reading                              // inside the try block
    | Sessioned(id: string)                // session bound, settings not yet checked
    | Prepared                             // request accepted, bytes not yet counted
    | Granted(pending: nat)                // request bytes counted, not yet saved
    | Forwarding                           // request saved, not yet sent
    | Awaiting                             // sent upstream
    | UpstreamFailed                       // status other than 200 seen
    | Streaming(received: nat)
    | ChunkGranted(received: nat, pending: nat)
    | Raising(reason: string)              // a caught exception, stop not yet recorded
    | Finishing                            // in the finally block
    | Closed(outcome: Outcome)

  /** `escaped` tells that an exception outside the caught classes left the try block. */
  datatype Handler = Handler(route: Route, pc: Pc, sent: bool, escaped: bool, meta: Meta)

  /** `granted` and `retained` are bytes counted within the ceiling and bytes written. */
  datatype State = State(
    budget: Budget, stopped: Option<string>, session: Option<string>, recordBytes: nat,
    granted: nat, retained: nat, sent: Counts, metas: seq<Meta>, handlers: seq<Handler>)

  const INITIAL := State(Budget(ZERO, ZERO), None, None, 0, 0, 0, ZERO, [], [])

  datatype Action =
    | Arrive(route: Route)
    | TryReserve(i: nat)
    | NoteExhausted(i: nat)
    | ReadStop(i: nat)
    | BindSession(i: nat, id: string)
    | AcceptSettings(i: nat)
    | SkipSession(i: nat)
    | CountRequest(i: nat, size: nat)
    | SaveRequest(i: nat)
    | Send(i: nat)
    | Receive(i: nat, status: nat, identity: bool)
    | NoteUpstreamFailure(i: nat)
    | CountChunk(i: nat, size: nat)
    | SaveChunk(i: nat)
    | SavePartly(i: nat, written: nat)
    | Fail(i: nat, reason: string)
    | Complete(i: nat)
    | NoteError(i: nat)
    | Escape(i: nat)
    | WriteMeta(i: nat)
    | LoseMeta(i: nat)

  /** Program points between entering the try block and leaving it. */
  predicate InTry(pc: Pc) {
    pc.Reading? || pc.Sessioned? || pc.Prepared? || pc.Granted? || pc.Forwarding? || pc.Awaiting? ||
    pc.UpstreamFailed? || pc.Streaming? || pc.ChunkGranted?
  }

  predicate Enabled(s: State, a: Action) {
    a.Arrive? ||
    (a.i < |s.handlers| &&
     var h := s.handlers[a.i];
     match a
     case TryReserve(_) => h.pc.Authorised?
     case NoteExhausted(_) => h.pc.Declined?
     case ReadStop(_) => h.pc.Reserved?
     case BindSession(_, _) => h.pc.Reading? && h.route.ModelRoute?
     case AcceptSettings(_) => h.pc.Sessioned?
     case SkipSession(_) => h.pc.Reading? && h.route.RetrievalRoute?
     case CountRequest(_, _) => h.pc.Prepared?
     case SaveRequest(_) => h.pc.Granted?
     case Send(_) => h.pc.Forwarding?
     case Receive(_, _, _) => h.pc.Awaiting?
     case NoteUpstreamFailure(_) => h.pc.UpstreamFailed?
     case CountChunk(_, _) => h.pc.Streaming?
     case SaveChunk(_) => h.pc.ChunkGranted?
     case SavePartly(_, written) => (h.pc.Granted? || h.pc.ChunkGranted?) && written <= h.pc.pending
     case Fail(_, _) => InTry(h.pc)
     case Complete(_) => h.pc.Streaming?
     case NoteError(_) => h.pc.Raising?
     case Escape(_) => InTry(h.pc)
     case WriteMeta(_) => h.pc.Finishing?
     case LoseMeta(_) => h.pc.Finishing?)
  }

  /** The handler after its step. */
  function Moved(s: State, a: Action): Handler
    requires !a.Arrive? && Enabled(s, a)
  {
    var h := s.handlers[a.i];
    match a
    case TryReserve(_) => h.(pc := if Reserve(s.budget, h.route).1 then Reserved else Declined)
    case NoteExhausted(_) => h.(pc := Closed(WasDeclined))
    case ReadStop(_) => h.(pc := if s.stopped.Some? then Closed(WasRefused) else Reading)
    case BindSession(_, id) =>
      h.(pc := if Bind(s.session, id).1 then Sessioned(id) else Raising("session_changed"))
    case AcceptSettings(_) => h.(pc := Prepared, meta := h.meta.(session := Some(h.pc.id)))
    case SkipSession(_) => h.(pc := Prepared)
    case CountRequest(_, size) =>
      h.(pc := if Count(s.recordBytes, s.stopped, size).2 then Granted(size) else Raising("record_limit"))
    case SaveRequest(_) => h.(pc := Forwarding)
    case Send(_) => h.(pc := Awaiting, sent := true)
    case Receive(_, status, identity) =>
      h.(meta := h.meta.(status := Some(status)),
         pc := if !identity then Raising("response_encoding")
               else if status != 200 then UpstreamFailed
               else Streaming(0))
    case NoteUpstreamFailure(_) => h.(pc := Raising("upstream_failure"))
    case CountChunk(_, size) =>
      h.(pc := if h.pc.received + size > RECORD_LIMIT then Raising("response_limit")
               else if Count(s.recordBytes, s.stopped, size).2 then ChunkGranted(h.pc.received + size, size)
               else Raising("record_limit"))
    case SaveChunk(_) => h.(pc := Streaming(h.pc.received))
    case SavePartly(_, _) => h.(pc := Raising("forward_failed"))
    case Fail(_, reason) => h.(pc := Raising(reason))
    case Complete(_) => h.(pc := Finishing, meta := h.meta.(complete := true))
    case NoteError(_) => h.(pc := Finishing, meta := h.meta.(error := Some(h.pc.reason)))
    case Escape(_) => h.(pc := Finishing, escaped := true)
    case WriteMeta(_) => h.(pc := Closed(WasRecorded))
    case LoseMeta(_) => h.(pc := Closed(WasLost))
  }

  /** A count of bytes against the ceiling, with the stop that a refusal records. */
  function CountInto(s: State, size: nat): State {
    var (total, stopped, within) := Count(s.recordBytes, s.stopped, size);
    s.(recordBytes := total, stopped := stopped, granted := if within then s.granted + size else s.granted)
  }

  /** The shared objects after the step. */
  function Shared(s: State, a: Action): State
    requires !a.Arrive? && Enabled(s, a)
  {
    var h := s.handlers[a.i];
    match a
    case TryReserve(_) => s.(budget := Reserve(s.budget, h.route).0)
    case NoteExhausted(_) => s.(stopped := StopWith(s.stopped, "budget_exhausted"))
    case BindSession(_, id) => s.(session := Bind(s.session, id).0)
    case CountRequest(_, size) => CountInto(s, size)
    case SaveRequest(_) => s.(retained := s.retained + h.pc.pending)
    case Send(_) => s.(sent := s.sent.Bump(h.route))
    case NoteUpstreamFailure(_) => s.(stopped := StopWith(s.stopped, "upstream_failure"))
    case CountChunk(_, size) => if h.pc.received + size > RECORD_LIMIT then s else CountInto(s, size)
    case SaveChunk(_) => s.(retained := s.retained + h.pc.pending)
    case SavePartly(_, written) => s.(retained := s.retained + written)
    case NoteError(_) => s.(stopped := StopWith(s.stopped, h.pc.reason))
    case WriteMeta(_) => s.(metas := s.metas + [h.meta])
    case _ => s
  }

  function Arrived(route: Route, id: nat): Handler {
    Handler(route, Authorised, false, false, Meta(id, route, false, None, None, None))
  }

  function Do(s: State, a: Action): State
    requires Enabled(s, a)
  {
    if a.Arrive? then
      s.(handlers := s.handlers + [Arrived(a.route, |s.handlers|)])
    else
      Shared(s, a).(handlers := s.handlers[a.i := Moved(s, a)])
  }

  /** A finite interleaving of handler steps. */
  ghost predicate Runs(s: State, actions: seq<Action>, t: State)
    decreases |actions|
  {
    if actions == [] then s == t
    else Enabled(s, actions[0]) && Runs(Do(s, actions[0]), actions[1..], t)
  }

  // ----- totals over handlers -----

  ghost function Total(hs: seq<Handler>, f: Handler -> nat): nat {
    if hs == [] then 0 else Total(hs[..|hs| - 1], f) + f(hs[|hs| - 1])
  }

  lemma {:induction false} TotalUpdate(hs: seq<Handler>, i: nat, h: Handler, f: Handler -> nat)
    requires i < |hs|
    ensures Total(hs[i := h], f) + f(hs[i]) == Total(hs, f) + f(h)
  {
    var n := |hs| - 1;
    if i < n {
      TotalUpdate(hs[..n], i, h, f);
      assert hs[i := h][..n] == hs[..n][i := h];
    } else {
      assert hs[i := h][..n] == hs[..n];
    }
  }

  lemma TotalAppend(hs: seq<Handler>, h: Handler, f: Handler -> nat)
    ensures Total(hs + [h], f) == Total(hs, f) + f(h)
  {
    assert (hs + [h])[..|hs|] == hs;
  }

  lemma {:induction false} TotalAtMost(hs: seq<Handler>, f: Handler -> nat, g: Handler -> nat)
    requires forall i :: 0 <= i < |hs| ==> f(hs[i]) <= g(hs[i])
    ensures Total(hs, f) <= Total(hs, g)
  {
    if hs != [] { TotalAtMost(hs[..|hs| - 1], f, g); }
  }

  lemma {:induction false} TotalSplit(hs: seq<Handler>, f: Handler -> nat, g: Handler -> nat, h: Handler -> nat)
    requires forall x :: f(x) == g(x) + h(x)
    ensures Total(hs, f) == Total(hs, g) + Total(hs, h)
  {
    if hs != [] { TotalSplit(hs[..|hs| - 1], f, g, h); }
  }

  predicate HoldsReservation(pc: Pc) {
    !pc.Authorised? && !pc.Declined? && pc != Closed(WasDeclined)
  }

  function One(b: bool): nat {
    if b then 1 else 0
  }

  function ReservedOn(r: Route): Handler -> nat {
    (h: Handler) => One(h.route == r && HoldsReservation(h.pc))
  }

  function DeclinedOn(r: Route): Handler -> nat {
    (h: Handler) => One(h.route == r && (h.pc.Declined? || h.pc == Closed(WasDeclined)))
  }

  function SentOn(r: Route): Handler -> nat {
    (h: Handler) => One(h.route == r && h.sent)
  }

  function RecordedOn(r: Route): Handler -> nat {
    (h: Handler) => One(h.route == r && h.pc == Closed(WasRecorded))
  }

  /** Holds a reservation but has no record: in flight, refused after reserving, or its record was lost. */
  function UnrecordedOn(r: Route): Handler -> nat {
    (h: Handler) => One(h.route == r && HoldsReservation(h.pc) && h.pc != Closed(WasRecorded))
  }

  function ArrivedOn(r: Route): Handler -> nat {
    (h: Handler) => One(h.route == r && !h.pc.Authorised?)
  }

  function Pending(): Handler -> nat {
    (h: Handler) => if h.pc.Granted? || h.pc.ChunkGranted? then h.pc.pending else 0
  }

  function RowsOn(metas: seq<Meta>, r: Route): nat {
    if metas == [] then 0 else RowsOn(metas[..|metas| - 1], r) + One(metas[|metas| - 1].route == r)
  }

  // ----- the invariant -----

  ghost predicate BalancedOn(s: State, r: Route) {
    && s.budget.forwarded.At(r) == Total(s.handlers, ReservedOn(r))
    && s.budget.declined.At(r) == Total(s.handlers, DeclinedOn(r))
    && s.sent.At(r) == Total(s.handlers, SentOn(r))
    && RowsOn(s.metas, r) == Total(s.handlers, RecordedOn(r))
    && s.budget.forwarded.At(r) <= Limit(r)
  }

  ghost predicate BytesBounded(s: State) {
    && s.retained + Total(s.handlers, Pending()) <= s.granted <= TOTAL_RECORD_LIMIT
    && s.granted <= s.recordBytes
    && (s.recordBytes <= TOTAL_RECORD_LIMIT ==> s.granted == s.recordBytes)
  }

  /** Program points reached only after the request was accepted. */
  predicate PastRequest(pc: Pc) {
    pc.Prepared? || pc.Granted? || pc.Forwarding? || pc.Awaiting? || pc.UpstreamFailed? || pc.Streaming? ||
      pc.ChunkGranted?
  }

  predicate PastSending(pc: Pc) {
    pc.Awaiting? || pc.UpstreamFailed? || pc.Streaming? || pc.ChunkGranted? || pc.Raising? || pc.Finishing? ||
    pc == Closed(WasRecorded) || pc == Closed(WasLost)
  }

  ghost predicate MetaOk(s: State, m: Meta) {
    && (m.session.Some? ==> m.route.ModelRoute? && s.session == m.session)
    && (m.complete ==> m.status == Some(200) && m.error.None? && (m.route.ModelRoute? ==> m.session.Some?))
    && (m.error.Some? ==> s.stopped.Some?)
  }

  /** What the program point says about the handler itself. */
  ghost predicate PointOk(s: State, h: Handler) {
    && h.meta.route == h.route
    && (h.sent ==> PastSending(h.pc))
    && (h.pc.Sessioned? ==> h.route.ModelRoute? && s.session == Some(h.pc.id))
    && (PastRequest(h.pc) && h.route.ModelRoute? ==> h.meta.session.Some?)
    && (h.pc.Streaming? || h.pc.ChunkGranted? ==> h.meta.status == Some(200))
    && (!h.pc.Finishing? && !h.pc.Closed? ==> !h.meta.complete && h.meta.error.None?)
    && (h.escaped ==> h.pc.Finishing? || h.pc == Closed(WasRecorded) || h.pc == Closed(WasLost))
    && (h.pc.Finishing? || h.pc == Closed(WasRecorded) ==> (h.escaped <==> !h.meta.complete && h.meta.error.None?))
  }

  /** What the end of a handler says about the shared objects. */
  ghost predicate EndOk(s: State, h: Handler) {
    && MetaOk(s, h.meta)
    && (h.pc == Closed(WasDeclined) || h.pc == Closed(WasRefused) ==> s.stopped.Some?)
    && (h.pc == Closed(WasRecorded) ==> h.meta in s.metas)
  }

  ghost predicate HandlerOk(s: State, h: Handler) {
    PointOk(s, h) && EndOk(s, h)
  }

  ghost predicate Inv(s: State) {
    && (forall r :: BalancedOn(s, r))
    && BytesBounded(s)
    && (forall i :: 0 <= i < |s.handlers| ==> HandlerOk(s, s.handlers[i]))
    && (forall i :: 0 <= i < |s.handlers| ==> s.handlers[i].meta.id == i)
    && (forall i :: 0 <= i < |s.metas| ==> MetaOk(s, s.metas[i]) && Owns(s, s.metas[i]))
  }

  /** A record on disk is that of the finished handler whose identifier it bears. */
  ghost predicate Owns(s: State, m: Meta) {
    m.id < |s.handlers| && s.handlers[m.id].pc == Closed(WasRecorded) && s.handlers[m.id].meta == m
  }

  lemma InitialInv()
    ensures Inv(INITIAL)
  {
    forall r: Route ensures BalancedOn(INITIAL, r) {}
  }

  /** The change in a counter is the change in the moved handler's contribution. */
  ghost predicate Tracks(before: nat, after: nat, f: Handler -> nat, h: Handler, g: Handler) {
    after + f(h) == before + f(g)
  }

  lemma Rebalanced(s: State, t: State, i: nat, g: Handler, r: Route)
    requires BalancedOn(s, r) && i < |s.handlers| && t.handlers == s.handlers[i := g]
    requires Tracks(s.budget.forwarded.At(r), t.budget.forwarded.At(r), ReservedOn(r), s.handlers[i], g)
    requires Tracks(s.budget.declined.At(r), t.budget.declined.At(r), DeclinedOn(r), s.handlers[i], g)
    requires Tracks(s.sent.At(r), t.sent.At(r), SentOn(r), s.handlers[i], g)
    requires Tracks(RowsOn(s.metas, r), RowsOn(t.metas, r), RecordedOn(r), s.handlers[i], g)
    requires t.budget.forwarded.At(r) <= Limit(r)
    ensures BalancedOn(t, r)
  {
    TotalUpdate(s.handlers, i, g, ReservedOn(r));
    TotalUpdate(s.handlers, i, g, DeclinedOn(r));
    TotalUpdate(s.handlers, i, g, SentOn(r));
    TotalUpdate(s.handlers, i, g, RecordedOn(r));
  }

  lemma ReservationsTrack(s: State, a: Action, r: Route)
    requires !a.Arrive? && Enabled(s, a) && s.budget.forwarded.At(r) <= Limit(r)
    ensures Tracks(s.budget.forwarded.At(r), Do(s, a).budget.forwarded.At(r), ReservedOn(r), s.handlers[a.i],
            Moved(s, a))
    ensures Do(s, a).budget.forwarded.At(r) <= Limit(r)
  {
  }

  lemma RefusalsTrack(s: State, a: Action, r: Route)
    requires !a.Arrive? && Enabled(s, a)
    ensures Tracks(s.budget.declined.At(r), Do(s, a).budget.declined.At(r), DeclinedOn(r), s.handlers[a.i], Moved(s, a))
  {
  }

  lemma SendsTrack(s: State, a: Action, r: Route)
    requires !a.Arrive? && Enabled(s, a) && PointOk(s, s.handlers[a.i])
    ensures Tracks(s.sent.At(r), Do(s, a).sent.At(r), SentOn(r), s.handlers[a.i], Moved(s, a))
  {
  }

  lemma RowsTrack(s: State, a: Action, r: Route)
    requires !a.Arrive? && Enabled(s, a) && PointOk(s, s.handlers[a.i])
    ensures Tracks(RowsOn(s.metas, r), RowsOn(Do(s, a).metas, r), RecordedOn(r), s.handlers[a.i], Moved(s, a))
  {
    if a.WriteMeta? {
      RowsAppend(s.metas, s.handlers[a.i].meta, r);
    } else {
      assert Do(s, a).metas == s.metas && RecordedOn(r)(s.handlers[a.i]) == RecordedOn(r)(Moved(s, a));
    }
  }

  lemma RowsAppend(metas: seq<Meta>, m: Meta, r: Route)
    ensures RowsOn(metas + [m], r) == RowsOn(metas, r) + One(m.route == r)
  {
    assert (metas + [m])[..|metas|] == metas;
  }

  /** One handler moves and every counter moves with it. */
  lemma StepBalanced(s: State, a: Action, r: Route)
    requires Inv(s) && Enabled(s, a)
    ensures BalancedOn(Do(s, a), r)
  {
    assert BalancedOn(s, r);
    if a.Arrive? {
      var h := Do(s, a).handlers[|s.handlers|];
      TotalAppend(s.handlers, h, ReservedOn(r));
      TotalAppend(s.handlers, h, DeclinedOn(r));
      TotalAppend(s.handlers, h, SentOn(r));
      TotalAppend(s.handlers, h, RecordedOn(r));
    } else {
      assert HandlerOk(s, s.handlers[a.i]);
      ReservationsTrack(s, a, r);
      RefusalsTrack(s, a, r);
      SendsTrack(s, a, r);
      RowsTrack(s, a, r);
      Rebalanced(s, Do(s, a), a.i, Moved(s, a), r);
    }
  }

  /** Bytes move from counted to pending to written; a refused or failed write only lowers the pending side. */
  lemma BytesTrack(s: State, a: Action)
    requires !a.Arrive? && Enabled(s, a) && s.granted <= TOTAL_RECORD_LIMIT && s.granted <= s.recordBytes
    requires s.recordBytes <= TOTAL_RECORD_LIMIT ==> s.granted == s.recordBytes
    ensures var h, g, t := s.handlers[a.i], Moved(s, a), Do(s, a);
            && t.retained + Pending()(g) + s.granted <= s.retained + Pending()(h) + t.granted
            && t.granted <= TOTAL_RECORD_LIMIT && t.granted <= t.recordBytes
            && (t.recordBytes <= TOTAL_RECORD_LIMIT ==> t.granted == t.recordBytes)
  {
  }

  lemma StepBytes(s: State, a: Action)
    requires Inv(s) && Enabled(s, a)
    ensures BytesBounded(Do(s, a))
  {
    if a.Arrive? {
      TotalAppend(s.handlers, Do(s, a).handlers[|s.handlers|], Pending());
    } else {
      BytesTrack(s, a);
      TotalUpdate(s.handlers, a.i, Moved(s, a), Pending());
    }
  }

  /** Later in a run: the first stop reason and the first session stay, counters only grow, records are only added. */
  ghost predicate Later(s: State, t: State) {
    && (s.stopped.Some? ==> t.stopped == s.stopped)
    && (s.session.Some? ==> t.session == s.session)
    && (forall r: Route :: s.budget.forwarded.At(r) <= t.budget.forwarded.At(r))
    && (forall r: Route :: s.budget.declined.At(r) <= t.budget.declined.At(r))
    && s.metas <= t.metas
    && s.retained <= t.retained
  }

  lemma StepLater(s: State, a: Action)
    requires Enabled(s, a)
    ensures Later(s, Do(s, a))
  {
  }

  lemma HandlerStays(s: State, t: State, h: Handler)
    requires HandlerOk(s, h) && Later(s, t)
    ensures HandlerOk(t, h)
  {
  }

  lemma MovedPoint(s: State, a: Action)
    requires !a.Arrive? && Enabled(s, a) && PointOk(s, s.handlers[a.i])
    ensures PointOk(Do(s, a), Moved(s, a))
  {
  }

  lemma MovedEnd(s: State, a: Action)
    requires !a.Arrive? && Enabled(s, a) && HandlerOk(s, s.handlers[a.i])
    ensures EndOk(Do(s, a), Moved(s, a))
  {
    var h := s.handlers[a.i];
    if a.WriteMeta? { assert Do(s, a).metas[|s.metas|] == h.meta; }
  }

  lemma StepHandlers(s: State, a: Action, i: nat)
    requires Enabled(s, a) && i < |Do(s, a).handlers|
    requires forall j :: 0 <= j < |s.handlers| ==> HandlerOk(s, s.handlers[j])
    ensures HandlerOk(Do(s, a), Do(s, a).handlers[i])
  {
    if a.Arrive? && i == |s.handlers| {
      assert Do(s, a).handlers[i] == Arrived(a.route, i);
    } else if !a.Arrive? && i == a.i {
      assert HandlerOk(s, s.handlers[a.i]);
      MovedPoint(s, a);
      MovedEnd(s, a);
    } else {
      assert HandlerOk(s, s.handlers[i]) && Do(s, a).handlers[i] == s.handlers[i];
      StepLater(s, a);
      HandlerStays(s, Do(s, a), s.handlers[i]);
    }
  }

  /** Only a handler that finishes writes a record: its own. */
  lemma StepRecords(s: State, a: Action)
    requires Enabled(s, a)
    ensures Do(s, a).metas == if a.WriteMeta? then s.metas + [s.handlers[a.i].meta] else s.metas
  {
  }

  lemma MetaStays(s: State, t: State, m: Meta)
    requires MetaOk(s, m) && Later(s, t)
    ensures MetaOk(t, m)
  {
  }

  lemma StepMetas(s: State, a: Action, i: nat)
    requires Inv(s) && Enabled(s, a) && i < |Do(s, a).metas|
    ensures MetaOk(Do(s, a), Do(s, a).metas[i])
  {
    StepRecords(s, a);
    StepLater(s, a);
    if i < |s.metas| {
      MetaStays(s, Do(s, a), s.metas[i]);
    } else {
      assert HandlerOk(s, s.handlers[a.i]);
      MetaStays(s, Do(s, a), s.handlers[a.i].meta);
    }
  }

  lemma OwnerStays(s: State, a: Action, m: Meta)
    requires Enabled(s, a) && Owns(s, m)
    ensures Owns(Do(s, a), m)
  {
    assert a.Arrive? || a.i != m.id;
  }

  /** A finished handler takes no further step, so its record keeps its owner. */
  lemma StepOwner(s: State, a: Action, i: nat)
    requires Inv(s) && Enabled(s, a) && i < |Do(s, a).metas|
    ensures Owns(Do(s, a), Do(s, a).metas[i])
  {
    StepRecords(s, a);
    if i < |s.metas| {
      OwnerStays(s, a, s.metas[i]);
    } else {
      assert s.handlers[a.i].meta.id == a.i;
    }
  }

  lemma StepIdentifiers(s: State, a: Action)
    requires Inv(s) && Enabled(s, a)
    ensures forall i :: 0 <= i < |Do(s, a).handlers| ==> Do(s, a).handlers[i].meta.id == i
  {
    if !a.Arrive? { assert Moved(s, a).meta.id == s.handlers[a.i].meta.id; }
  }

  /** Every step of every handler keeps the invariant. */
  lemma StepInv(s: State, a: Action)
    requires Inv(s) && Enabled(s, a)
    ensures Inv(Do(s, a))
  {
    forall r ensures BalancedOn(Do(s, a), r) { StepBalanced(s, a, r); }
    StepBytes(s, a);
    forall i | 0 <= i < |Do(s, a).handlers| ensures HandlerOk(Do(s, a), Do(s, a).handlers[i]) { StepHandlers(s, a, i); }
    forall i | 0 <= i < |Do(s, a).metas|
      ensures MetaOk(Do(s, a), Do(s, a).metas[i]) && Owns(Do(s, a), Do(s, a).metas[i])
    {
      StepMetas(s, a, i);
      StepOwner(s, a, i);
    }
    StepIdentifiers(s, a);
  }

  lemma {:induction false} RunInv(s: State, actions: seq<Action>, t: State)
    requires Inv(s) && Runs(s, actions, t)
    ensures Inv(t) && Later(s, t)
    decreases |actions|
  {
    if actions != [] {
      var next := Do(s, actions[0]);
      StepInv(s, actions[0]);
      StepLater(s, actions[0]);
      RunInv(next, actions[1..], t);
    }
  }
}
