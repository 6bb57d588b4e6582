/**
 The RPC client of the native agent: requests that set aside events until their own
 response comes, and waits that take the set-aside events first. Events arrive at
 any time; a deadline bounds how often the client can poll.
 */
module Rpc {
  import opened Options

  datatype Event = Response(id: string, success: bool) | Settled | Continuation | OtherEvent(tag: int)

  /** The events at positions outside `own`. */
  ghost function Kept(events: seq<Event>, own: set<nat>): seq<Event> {
    if events == [] then []
    else
      var n := |events| - 1;
      Kept(events[..n], own) + (if n in own then [] else [events[n]])
  }

  lemma {:induction false} KeptBeyond(events: seq<Event>, own: set<nat>, i: nat)
    requires i >= |events|
    ensures Kept(events, own + {i}) == Kept(events, own)
  {
    if events != [] { KeptBeyond(events[..|events| - 1], own, i); }
  }

  /** Reading one more event adds it, unless it is set apart as a request's own response. */
  lemma KeptSnoc(arrived: seq<Event>, taken: nat, own: set<nat>)
    requires taken < |arrived| && forall i :: i in own ==> i < taken
    ensures Kept(arrived[..taken + 1], own) == Kept(arrived[..taken], own) + [arrived[taken]]
    ensures Kept(arrived[..taken + 1], own + {taken}) == Kept(arrived[..taken], own)
  {
    assert arrived[..taken + 1][..taken] == arrived[..taken];
    KeptBeyond(arrived[..taken], own, taken);
  }

  /** Arrivals in order, without any that the waits do not accept. */
  ghost predicate Clean(events: seq<Event>) {
    forall i :: 0 <= i < |events| ==> !events[i].Continuation?
  }

  ghost function Settlements(events: seq<Event>): nat {
    if events == [] then 0
    else Settlements(events[..|events| - 1]) + (if events[|events| - 1].Settled? then 1 else 0)
  }

  lemma {:induction false} SettlementsConcat(a: seq<Event>, b: seq<Event>)
    ensures Settlements(a + b) == Settlements(a) + Settlements(b)
  {
    if b == [] {
      assert a + b == a;
    } else {
      SettlementsConcat(a, b[..|b| - 1]);
      assert (a + b)[..|a + b| - 1] == a + b[..|b| - 1];
    }
  }

  lemma {:induction false} SettlementsNone(events: seq<Event>)
    requires forall i :: 0 <= i < |events| ==> !events[i].Settled?
    ensures Settlements(events) == 0
  {
    if events != [] { SettlementsNone(events[..|events| - 1]); }
  }

  class RpcClient {
    var pending: seq<Event>      // set aside by requests, oldest first
    var arrived: seq<Event>      // everything the reading thread has queued so far
    var taken: nat               // how much of it has left the queue
    var polls: nat               // polls left before the deadline
    ghost var own: set<nat>      // positions of responses that answered a request
    ghost var inspected: seq<Event>
    ghost var waits: nat         // waits that returned

    /**
     Waits have inspected, and `pending` then the queue still hold, every arrival but the requests'
     own responses, in order.
     */
    ghost predicate Valid()
      reads this
    {
      && taken <= |arrived|
      && (forall i :: i in own ==> i < taken && arrived[i].Response?)
      && Kept(arrived[..taken], own) == inspected + pending
    }

    /** No wait has failed: each settled event was returned by one wait, and nothing unwanted came before the last. */
    ghost predicate AllSettled()
      reads this
    {
      Clean(inspected) && Settlements(inspected) == waits && (inspected != [] ==> inspected[|inspected| - 1].Settled?)
    }

    /** The arrival at this position was read and answers the request. */
    ghost predicate IsResponse(i: nat, id: string)
      reads this
    {
      i < taken && i < |arrived| && arrived[i].Response? && arrived[i].id == id
    }

    constructor (polls: nat)
      ensures Valid() && AllSettled() && pending == [] && arrived == [] && inspected == [] && waits == 0
    {
      pending, arrived, taken, this.polls := [], [], 0, polls;
      own, inspected, waits := {}, [], 0;
    }

    /** One poll of the queue; more events may have arrived meanwhile, and the transport may report an error. */
    method Receive() returns (r: Result<Event, string>)
      requires Valid()
      modifies this`arrived, this`taken, this`polls
      ensures old(arrived) <= arrived && polls <= old(polls)
      ensures r.Err? ==> taken == old(taken) && Valid()
      ensures r.Ok? ==> polls < old(polls) && taken == old(taken) + 1
      ensures r.Ok? ==> taken <= |arrived| && r.value == arrived[old(taken)]
    {
      var more: seq<Event> := *;
      var failed: Option<string> := *;
      assert (arrived + more)[..taken] == arrived[..taken];
      arrived := arrived + more;
      if failed.Some? { return Err(failed.value); }
      if polls == 0 { return Err("run_deadline"); }
      if taken == |arrived| { return Err("rpc_process_ended"); }
      polls := polls - 1;
      r := Ok(arrived[taken]);
      taken := taken + 1;
    }

    /** Wait for the response to one request, setting every other event aside. */
    method Request(id: string) returns (r: Result<(), string>)
      requires Valid()
      modifies this
      ensures Valid() && old(arrived) <= arrived && inspected == old(inspected) && waits == old(waits)
      ensures old(pending) <= pending
      ensures own == old(own) || exists i :: own == old(own) + {i} && IsResponse(i, id)
      ensures r.Ok? ==> own != old(own) && Response(id, true) == arrived[taken - 1]
    {
      while true
        invariant Valid() && old(arrived) <= arrived && inspected == old(inspected) && waits == old(waits)
        invariant own == old(own) && old(pending) <= pending
        decreases polls
      {
        label before:
        var event := Receive();
        if event.Err? { return Err(event.error); }
        assert arrived[..old@before(taken)] == old@before(arrived)[..old@before(taken)];
        KeptSnoc(arrived, old@before(taken), own);
        if event.value.Response? && event.value.id == id {
          own := own + {taken - 1};
          if !event.value.success { return Err("rpc_command_declined"); }
          return Ok(());
        }
        pending := pending + [event.value];
      }
    }

    /** Wait for the next settled event: set-aside events first, then the queue. */
    method WaitSettled() returns (r: Result<(), string>)
      requires Valid()
      modifies this
      ensures Valid() && old(arrived) <= arrived && own == old(own)
      ensures old(inspected) <= inspected
      ensures var seen := inspected[|old(inspected)|..];
              if r.Ok? then
                && waits == old(waits) + 1 && |seen| > 0 && seen[|seen| - 1] == Settled
                && forall i :: 0 <= i < |seen| - 1 ==> !seen[i].Settled? && !seen[i].Continuation?
              else
                waits == old(waits) && forall i :: 0 <= i < |seen| ==> !seen[i].Settled?
    {
      while true
        invariant Valid() && old(arrived) <= arrived && own == old(own) && waits == old(waits)
        invariant old(inspected) <= inspected
        invariant forall i :: |old(inspected)| <= i < |inspected| ==>
                  !inspected[i].Settled? && !inspected[i].Continuation?
        decreases polls + |pending|
      {
        var event;
        if pending != [] {
          event := pending[0];
          assert inspected + pending == (inspected + [event]) + pending[1..];
          pending := pending[1..];
        } else {
          label before:
          var received := Receive();
          if received.Err? { return Err(received.error); }
          event := received.value;
          assert arrived[..old@before(taken)] == old@before(arrived)[..old@before(taken)];
          KeptSnoc(arrived, old@before(taken), own);
        }
        inspected := inspected + [event];
        if event.Settled? {
          waits := waits + 1;
          return Ok(());
        }
        if event.Continuation? { return Err("unexpected_continuation"); }
      }
    }
  }

  datatype Call = DoRequest(id: string) | DoWait

  /**
   Any sequence of calls, stopping at the first that raises. As long as none does, the
   events inspected are exactly the first arrivals other than the requests' own
   responses, each settled event answered one wait, and no continuation came before
   the last of them.
   */
  method Drive(client: RpcClient, calls: seq<Call>) returns (error: Option<string>)
    requires client.Valid() && client.AllSettled()
    modifies client
    ensures client.Valid()
    ensures error.None? ==> client.AllSettled()
    ensures error.None? ==> client.waits == old(client.waits) + |Waits(calls)|
  {
    for k := 0 to |calls|
      invariant client.Valid() && client.AllSettled() && client.waits == old(client.waits) + |Waits(calls[..k])|
    {
      assert calls[..k + 1][..k] == calls[..k];
      label before:
      match calls[k]
      case DoRequest(id) =>
        var r := client.Request(id);
        if r.Err? { return Some(r.error); }
      case DoWait =>
        var r := client.WaitSettled();
        if r.Err? { return Some(r.error); }
        StillSettled(old@before(client.inspected), client.inspected);
    }
    assert calls[..|calls|] == calls;
    return None;
  }

  ghost function Waits(calls: seq<Call>): seq<Call> {
    if calls == [] then []
    else Waits(calls[..|calls| - 1]) + (if calls[|calls| - 1].DoWait? then [DoWait] else [])
  }

  /** A returned wait adds a clean segment that ends in its settled event. */
  lemma StillSettled(before: seq<Event>, after: seq<Event>)
    requires before <= after && |after| > |before| && after[|after| - 1] == Settled && Clean(before)
    requires forall i :: |before| <= i < |after| - 1 ==> !after[i].Settled? && !after[i].Continuation?
    ensures Clean(after) && Settlements(after) == Settlements(before) + 1
  {
    var seen := after[|before|..|after| - 1];
    assert after == before + seen + [Settled];
    SettlementsConcat(before, seen);
    SettlementsNone(seen);
    SettlementsConcat(before + seen, [Settled]);
    assert Settlements([Settled]) == 1;
  }

  /**
   What `Valid` and `AllSettled` say of the arrivals: no continuation precedes the settled event
   that a wait returned last.
   */
  lemma NothingBetween(arrived: seq<Event>, own: set<nat>, inspected: seq<Event>, pending: seq<Event>, i: nat)
    requires Kept(arrived, own) == inspected + pending && Clean(inspected)
    requires i < |arrived| && i !in own && |Kept(arrived[..i], own)| < |inspected|
    ensures !arrived[i].Continuation?
  {
    KeptPrefix(arrived, own, i);
    assert Kept(arrived, own)[|Kept(arrived[..i], own)|] == arrived[i];
  }

  lemma {:induction false} KeptPrefix(arrived: seq<Event>, own: set<nat>, i: nat)
    requires i < |arrived| && i !in own
    ensures Kept(arrived[..i], own) + [arrived[i]] <= Kept(arrived, own)
  {
    var n := |arrived| - 1;
    if i < n {
      KeptPrefix(arrived[..n], own, i);
      assert arrived[..n][..i] == arrived[..i];
    } else {
      assert arrived[..n][..i] == arrived[..i];
    }
  }
}
