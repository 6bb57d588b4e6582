/**
 Matching native tool executions to the captured calls that requested them and the
 later calls that consumed their results. JSON values are compared through their
 canonical encoding, so a value stands for its encoding here.
 */
module ToolCycles {
  import opened Options

  datatype Content = Text(text: string) | OtherContent

  datatype Event<+V> =
    | Start(name: Option<string>, id: Option<string>, args: Option<V>)
    | End(id: Option<string>, isError: Option<bool>, content: seq<Content>)
    | OtherEvent

  datatype Part<+V> = ToolCall(id: string, name: string, arguments: V) | ToolResponse(id: string, result: V) | OtherPart

  /** The parts of one captured call, message boundaries removed. */
  datatype History<+V> = History(inputs: seq<Part<V>>, outputs: seq<Part<V>>)

  datatype Cycle<+V> = Cycle(id: string, name: string, arguments: V, text: string, calledAt: nat, consumedAt: nat)

  /** Where one tool cycle starts, ends, was requested and was consumed. */
  datatype Slot = Slot(started: nat, ended: nat, called: nat, consumed: nat)

  datatype Site<+V> = Site(index: nat, name: string, arguments: V)

  /** The matcher's inputs; `loads` parses a text, or is the text itself when it does not parse. */
  datatype Log<!V> = Log(events: seq<Event<V>>, histories: seq<History<V>>, names: seq<string>, loads: string -> V)

  // ----- selections -----

  function Starts<V>(events: seq<Event<V>>): (r: seq<nat>)
    ensures forall i :: 0 <= i < |r| ==> r[i] < |events| && events[r[i]].Start?
  {
    if events == [] then []
    else
      var n := |events| - 1;
      Starts(events[..n]) + (if events[n].Start? then [n] else [])
  }

  function Ends<V>(events: seq<Event<V>>): (r: seq<nat>)
    ensures forall i :: 0 <= i < |r| ==> r[i] < |events| && events[r[i]].End?
  {
    if events == [] then []
    else
      var n := |events| - 1;
      Ends(events[..n]) + (if events[n].End? then [n] else [])
  }

  function Matching<V>(events: seq<Event<V>>, id: string): (r: seq<nat>)
    ensures forall i :: 0 <= i < |r| ==> r[i] < |events| && events[r[i]].End? && events[r[i]].id == Some(id)
  {
    if events == [] then []
    else
      var n := |events| - 1;
      Matching(events[..n], id) + (if events[n].End? && events[n].id == Some(id) then [n] else [])
  }

  function CallsIn<V>(parts: seq<Part<V>>, id: string, index: nat): (r: seq<Site<V>>)
    ensures forall i :: 0 <= i < |r| ==> r[i].index == index
  {
    if parts == [] then []
    else
      var p := parts[|parts| - 1];
      CallsIn(parts[..|parts| - 1], id, index)
      + (if p.ToolCall? && p.id == id then [Site(index, p.name, p.arguments)] else [])
  }

  function CallSites<V>(histories: seq<History<V>>, id: string): (r: seq<Site<V>>)
    ensures forall i :: 0 <= i < |r| ==> r[i].index < |histories|
  {
    if histories == [] then []
    else
      var n := |histories| - 1;
      CallSites(histories[..n], id) + CallsIn(histories[n].outputs, id, n)
  }

  predicate Consumes<V(==)>(h: History<V>, id: string, value: V) {
    ToolResponse(id, value) in h.inputs
  }

  // ----- specification -----

  /**
   One cycle at its slot: a start with the k-th name, its end, the only call with its identifier, and
   a later call that carries its result.
   */
  ghost predicate CycleAt<V>(log: Log<V>, k: nat, s: Slot) {
    && k < |log.names|
    && s.started < s.ended < |log.events| && s.called < s.consumed < |log.histories|
    && log.events[s.started].Start?
    && var start, end := log.events[s.started], log.events[s.ended];
    && start.name == Some(log.names[k]) && start.id.Some? && start.id.value != "" && start.args.Some?
    && end.End? && end.id == start.id && end.isError == Some(false) && |end.content| == 1 && end.content[0].Text?
    && CallSites(log.histories, start.id.value) == [Site(s.called, log.names[k], start.args.value)]
    && Consumes(log.histories[s.consumed], start.id.value, log.loads(end.content[0].text))
  }

  ghost predicate Cycles<V>(log: Log<V>, slots: seq<Slot>) {
    |slots| == |log.names| && forall k :: 0 <= k < |slots| ==> CycleAt(log, k, slots[k])
  }

  ghost predicate DistinctIds<V>(log: Log<V>, slots: seq<Slot>)
    requires Cycles(log, slots)
  {
    forall j, k :: 0 <= j < k < |slots| ==> log.events[slots[j].started].id != log.events[slots[k].started].id
  }

  /** Starts and ends pair one-to-one without overlap, and each result is consumed before the next call is made. */
  ghost predicate Matched<V>(log: Log<V>, slots: seq<Slot>) {
    && Cycles(log, slots) && DistinctIds(log, slots)
    && CoversStarts(log.events, slots) && Covers(log.events, slots)
    && (forall k :: 0 < k < |slots| ==>
        slots[k - 1].ended < slots[k].started && slots[k - 1].consumed <= slots[k].called)
  }

  // ----- the greedy choice -----

  /** The first history after `from` that carries the result. */
  function FirstConsumer<V(==)>(histories: seq<History<V>>, id: string, value: V, from: nat): (r: Option<nat>)
    ensures r.Some? ==> from <= r.value < |histories| && Consumes(histories[r.value], id, value)
    ensures forall i :: from <= i < |histories| && Consumes(histories[i], id, value) ==> r.Some? && r.value <= i
    decreases |histories| - from
  {
    if from >= |histories| then None
    else if Consumes(histories[from], id, value) then Some(from)
    else FirstConsumer(histories, id, value, from + 1)
  }

  /** What the loop body finds for the k-th start, or nothing when a check fails. */
  function Chosen<V(==)>(log: Log<V>, k: nat): Option<Slot>
    requires k < |log.names| == |Starts(log.events)|
  {
    var started := Starts(log.events)[k];
    var start := log.events[started];
    if start.id.None? || start.args.None? then None else
    var ends := Matching(log.events, start.id.value);
    if |ends| != 1 then None else
    var end := log.events[ends[0]];
    if started >= ends[0] || end.isError != Some(false) || |end.content| != 1 || !end.content[0].Text? then None else
    var calls := CallSites(log.histories, start.id.value);
    if |calls| != 1 || calls[0].name != log.names[k] || calls[0].arguments != start.args.value then None else
    var consumed := FirstConsumer(log.histories, start.id.value, log.loads(end.content[0].text), calls[0].index + 1);
    if consumed.None? then None else Some(Slot(started, ends[0], calls[0].index, consumed.value))
  }

  predicate Identified<V(==)>(log: Log<V>) {
    var starts := Starts(log.events);
    && |starts| == |log.names| == |Ends(log.events)|
    && (forall k :: 0 <= k < |starts| ==> log.events[starts[k]].name == Some(log.names[k]))
    && (forall k :: 0 <= k < |starts| ==> log.events[starts[k]].id.Some? && log.events[starts[k]].id.value != "")
    && (forall j, k :: 0 <= j < k < |starts| ==> log.events[starts[j]].id != log.events[starts[k]].id)
  }

  /** The choices made for the first `n` starts are all found and in order. */
  predicate InOrder<V(==)>(log: Log<V>, slots: seq<Slot>)
    requires |slots| <= |log.names| == |Starts(log.events)|
  {
    && (forall k :: 0 <= k < |slots| ==> Chosen(log, k) == Some(slots[k]))
    && (forall k :: 0 < k < |slots| ==> Follows(slots[k - 1], slots[k]))
  }

  /** Consumption at every cycle is no later. */
  ghost predicate Earlier(slots: seq<Slot>, other: seq<Slot>) {
    |slots| == |other| && forall k :: 0 <= k < |slots| ==> slots[k].consumed <= other[k].consumed
  }

  // ----- increasing selections -----

  ghost predicate Increasing(s: seq<nat>) {
    forall i, j :: 0 <= i < j < |s| ==> s[i] < s[j]
  }

  lemma {:induction false} EndsExact<V>(events: seq<Event<V>>)
    ensures Increasing(Ends(events))
    ensures forall e :: 0 <= e < |events| && events[e].End? ==> e in Ends(events)
  {
    if events != [] { EndsExact(events[..|events| - 1]); }
  }

  lemma {:induction false} StartsExact<V>(events: seq<Event<V>>)
    ensures Increasing(Starts(events))
    ensures forall e :: 0 <= e < |events| && events[e].Start? ==> e in Starts(events)
  {
    if events != [] { StartsExact(events[..|events| - 1]); }
  }

  lemma {:induction false} MatchingExact<V>(events: seq<Event<V>>, id: string)
    ensures Increasing(Matching(events, id))
    ensures forall e :: 0 <= e < |events| && events[e].End? && events[e].id == Some(id) ==> e in Matching(events, id)
  {
    if events != [] { MatchingExact(events[..|events| - 1], id); }
  }

  /** An increasing sequence drawn from another is no longer, and is the same one when it is as long. */
  lemma {:induction false} Drawn(e: seq<nat>, f: seq<nat>)
    requires Increasing(e) && Increasing(f) && forall x :: x in e ==> x in f
    ensures |e| <= |f| && (|e| == |f| ==> e == f)
    decreases |f|
  {
    assert e == [] || e[0] in f;
    if f != [] {
      var m := |f| - 1;
      var hit := e != [] && e[|e| - 1] == f[m];
      var shorter := if hit then e[..|e| - 1] else e;
      forall x | x in shorter ensures x in f[..m] { InFront(e, f, shorter, x); }
      Drawn(shorter, f[..m]);
      if hit { assert e == shorter + [f[m]] && f == f[..m] + [f[m]]; }
    }
  }

  lemma InFront(e: seq<nat>, f: seq<nat>, shorter: seq<nat>, x: nat)
    requires Increasing(e) && Increasing(f) && f != [] && forall y :: y in e ==> y in f
    requires shorter == if e != [] && e[|e| - 1] == f[|f| - 1] then e[..|e| - 1] else e
    requires x in shorter
    ensures x in f[..|f| - 1]
  {
    var i :| 0 <= i < |shorter| && shorter[i] == x;
    assert e[i] in f;
    var j :| 0 <= j < |f| && f[j] == x;
    assert e[|e| - 1] in f;
    assert e[i] <= e[|e| - 1] <= f[|f| - 1];
    assert j < |f| - 1 ==> f[..|f| - 1][j] == x;
  }

  ghost function Ended(slots: seq<Slot>): seq<nat> {
    seq(|slots|, k requires 0 <= k < |slots| => slots[k].ended)
  }

  lemma {:induction false} EndedIncreasing(slots: seq<Slot>, i: nat, j: nat)
    requires forall k :: 0 <= k < |slots| ==> slots[k].started < slots[k].ended
    requires forall k :: 0 < k < |slots| ==> slots[k - 1].ended < slots[k].started
    requires i < j < |slots|
    ensures slots[i].ended < slots[j].ended
  {
    if i < j - 1 { EndedIncreasing(slots, i, j - 1); }
  }

  /** Cycles follow one another, each from its start to a later end. */
  ghost predicate Spaced<V>(events: seq<Event<V>>, slots: seq<Slot>) {
    && (forall k :: 0 <= k < |slots| ==> slots[k].started < slots[k].ended < |events| && events[slots[k].ended].End?)
    && (forall k :: 0 < k < |slots| ==> slots[k - 1].ended < slots[k].started)
  }

  ghost predicate Covers<V>(events: seq<Event<V>>, slots: seq<Slot>) {
    forall e :: 0 <= e < |events| && events[e].End? ==> exists k :: 0 <= k < |slots| && slots[k].ended == e
  }

  ghost predicate CoversStarts<V>(events: seq<Event<V>>, slots: seq<Slot>) {
    forall e :: 0 <= e < |events| && events[e].Start? ==> exists k :: 0 <= k < |slots| && slots[k].started == e
  }

  ghost function Started(slots: seq<Slot>): seq<nat> {
    seq(|slots|, k requires 0 <= k < |slots| => slots[k].started)
  }

  lemma StartedIncreasing<V>(events: seq<Event<V>>, slots: seq<Slot>, i: nat, j: nat)
    requires Spaced(events, slots) && i < j < |slots|
    ensures slots[i].started < slots[j].started
  {
    if i < j - 1 { EndedIncreasing(slots, i, j - 1); }
  }

  /** Spaced cycles that begin at starts and use every one begin at the starts in order. */
  lemma StartsUsed<V>(events: seq<Event<V>>, slots: seq<Slot>)
    requires Spaced(events, slots) && forall k :: 0 <= k < |slots| ==> events[slots[k].started].Start?
    ensures CoversStarts(events, slots) <==> Starts(events) == Started(slots)
  {
    var started := Started(slots);
    forall i, j | 0 <= i < j < |started| ensures started[i] < started[j] { StartedIncreasing(events, slots, i, j); }
    StartsExact(events);
    forall x | x in started ensures x in Starts(events) {}
    if CoversStarts(events, slots) {
      forall x | x in Starts(events) ensures x in started {
        var k :| 0 <= k < |slots| && slots[k].started == x;
        assert started[k] == x;
      }
      Drawn(started, Starts(events));
      Drawn(Starts(events), started);
    }
    if Starts(events) == started {
      forall e | 0 <= e < |events| && events[e].Start? ensures exists k :: 0 <= k < |slots| && slots[k].started == e {
        var k :| 0 <= k < |started| && started[k] == e;
        assert slots[k].started == e;
      }
    }
  }

  /** In a matching, the k-th cycle begins at the k-th start. */
  lemma MatchedStarts<V>(log: Log<V>, other: seq<Slot>)
    requires Matched(log, other)
    ensures Starts(log.events) == Started(other)
  {
    forall k | 0 <= k < |other| ensures CycleAt(log, k, other[k]) {}
    StartsUsed(log.events, other);
  }

  /** Spaced cycles use every end exactly when there are as many ends as cycles. */
  lemma EndsUsed<V>(events: seq<Event<V>>, slots: seq<Slot>)
    requires Spaced(events, slots)
    ensures |slots| == |Ends(events)| <==> Covers(events, slots)
  {
    var ended := Ended(slots);
    forall i, j | 0 <= i < j < |ended| ensures ended[i] < ended[j] { EndedIncreasing(slots, i, j); }
    EndsExact(events);
    forall x | x in ended ensures x in Ends(events) {}
    Drawn(ended, Ends(events));
    if |slots| == |Ends(events)| {
      forall e | 0 <= e < |events| && events[e].End? ensures exists k :: 0 <= k < |slots| && slots[k].ended == e {
        var k :| 0 <= k < |ended| && ended[k] == e;
        assert slots[k].ended == e;
      }
    }
    if Covers(events, slots) {
      forall x | x in Ends(events) ensures x in ended {
        var k :| 0 <= k < |slots| && slots[k].ended == x;
        assert ended[k] == x;
      }
      Drawn(Ends(events), ended);
    }
  }

  // ----- soundness and completeness -----

  /** A matching uses each end once, so there are as many ends as starts. */
  lemma MatchedIdentified<V>(log: Log<V>, other: seq<Slot>)
    requires Matched(log, other)
    ensures Identified(log)
  {
    var starts := Starts(log.events);
    MatchedStarts(log, other);
    forall k | 0 <= k < |other| ensures starts[k] == other[k].started && CycleAt(log, k, other[k]) {}
    EndsUsed(log.events, other);
    forall k | 0 <= k < |starts|
      ensures log.events[starts[k]].name == Some(log.names[k]) && log.events[starts[k]].id.Some? &&
              log.events[starts[k]].id.value != ""
    {
      assert CycleAt(log, k, other[k]);
    }
    forall j, k | 0 <= j < k < |starts| ensures log.events[starts[j]].id != log.events[starts[k]].id {
      assert starts[j] == other[j].started && starts[k] == other[k].started;
    }
  }

  /** In a matching, the end of a cycle is the only end with its identifier. */
  lemma OnlyEnd<V>(log: Log<V>, other: seq<Slot>, k: nat)
    requires Matched(log, other) && k < |other|
    ensures log.events[other[k].started].id.Some?
    ensures Matching(log.events, log.events[other[k].started].id.value) == [other[k].ended]
  {
    assert CycleAt(log, k, other[k]);
    var id := log.events[other[k].started].id.value;
    var ends := Matching(log.events, id);
    MatchingExact(log.events, id);
    forall e | e in ends ensures e == other[k].ended { SameEnd(log, other, k, e); }
    assert other[k].ended in ends;
    Singleton(ends, other[k].ended);
  }

  lemma SameEnd<V>(log: Log<V>, other: seq<Slot>, k: nat, e: nat)
    requires Cycles(log, other) && DistinctIds(log, other) && Covers(log.events, other)
    requires k < |other| && e < |log.events|
    requires log.events[e].End? && log.events[e].id == log.events[other[k].started].id
    ensures e == other[k].ended
  {
    var j :| 0 <= j < |other| && other[j].ended == e;
    assert CycleAt(log, j, other[j]) && CycleAt(log, k, other[k]);
  }

  lemma Singleton(s: seq<nat>, x: nat)
    requires Increasing(s) && x in s && forall y :: y in s ==> y == x
    ensures s == [x]
  {
    assert |s| > 1 ==> s[0] < s[1];
    forall i | 0 <= i < |s| ensures s[i] == x { assert s[i] in s; }
  }

  /** Any matching shows that every check of the loop passes, with the same call and a consumption no later. */
  lemma ChosenFromWitness<V>(log: Log<V>, other: seq<Slot>, k: nat)
    requires Identified(log) && Matched(log, other) && k < |other|
    ensures Chosen(log, k).Some?
    ensures var c := Chosen(log, k).value;
            c.started == other[k].started && c.ended == other[k].ended && c.called == other[k].called &&
              c.consumed <= other[k].consumed
  {
    assert CycleAt(log, k, other[k]);
    MatchedStarts(log, other);
    assert Starts(log.events)[k] == other[k].started;
    OnlyEnd(log, other, k);
    SlotChosen(log, k, other[k]);
  }

  /** The checks of the loop body pass at a cycle whose end is the only one with its identifier. */
  lemma SlotChosen<V>(log: Log<V>, k: nat, s: Slot)
    requires k < |log.names| == |Starts(log.events)| && Starts(log.events)[k] == s.started && CycleAt(log, k, s)
    requires Matching(log.events, log.events[s.started].id.value) == [s.ended]
    ensures Chosen(log, k).Some?
    ensures var c := Chosen(log, k).value;
            c.started == s.started && c.ended == s.ended && c.called == s.called && c.consumed <= s.consumed
  {
  }

  lemma GreedyNeverLoses<V>(log: Log<V>, slots: seq<Slot>, other: seq<Slot>, k: nat)
    requires Matched(log, other) && Identified(log) && |slots| == k < |log.names| && InOrder(log, slots)
    ensures Chosen(log, k).Some?
    ensures k > 0 ==>
            Follows(slots[k - 1], Chosen(log, k).value)
  {
    ChosenFromWitness(log, other, k);
    if k > 0 {
      ChosenFromWitness(log, other, k - 1);
      assert CycleAt(log, k - 1, other[k - 1]);
      assert Chosen(log, k - 1) == Some(slots[k - 1]);
    }
  }

  predicate Follows(previous: Slot, next: Slot) {
    previous.ended < next.started && previous.called < next.called && previous.consumed <= next.called
  }

  /** Where the loop gives up, no matching exists. */
  lemma StuckMeansNone<V>(log: Log<V>, slots: seq<Slot>, k: nat)
    requires Identified(log) && |slots| == k < |log.names| && InOrder(log, slots)
    requires Chosen(log, k).None? || (k > 0 && !Follows(slots[k - 1], Chosen(log, k).value))
    ensures forall other :: !Matched(log, other)
  {
    forall other ensures !Matched(log, other) { if Matched(log, other) { GreedyNeverLoses(log, slots, other, k); } }
  }

  lemma ChosenIsCycle<V>(log: Log<V>, k: nat)
    requires Identified(log) && k < |log.names| && Chosen(log, k).Some?
    ensures CycleAt(log, k, Chosen(log, k).value)
  {
    var start := log.events[Starts(log.events)[k]];
    var calls := CallSites(log.histories, start.id.value);
    assert calls == [calls[0]];
  }

  lemma GreedyCycles<V>(log: Log<V>, slots: seq<Slot>)
    requires Identified(log) && |slots| == |log.names| && InOrder(log, slots)
    ensures Cycles(log, slots) && Started(slots) == Starts(log.events)
  {
    forall k | 0 <= k < |slots| ensures CycleAt(log, k, slots[k]) && slots[k].started == Starts(log.events)[k] {
      assert Chosen(log, k) == Some(slots[k]);
      ChosenIsCycle(log, k);
    }
  }

  lemma GreedySpaced<V>(log: Log<V>, slots: seq<Slot>)
    requires Identified(log) && |slots| == |log.names| && InOrder(log, slots) && Cycles(log, slots)
    ensures Spaced(log.events, slots)
    ensures forall k :: 0 <= k < |slots| ==> log.events[slots[k].started].Start?
    ensures forall k :: 0 < k < |slots| ==> slots[k - 1].consumed <= slots[k].called
  {
    forall k | 0 <= k < |slots| ensures CycleAt(log, k, slots[k]) {}
    forall k | 0 < k < |slots| ensures Follows(slots[k - 1], slots[k]) {}
  }

  lemma GreedyIsMatched<V>(log: Log<V>, slots: seq<Slot>)
    requires Identified(log) && |slots| == |log.names| && InOrder(log, slots)
    ensures Matched(log, slots)
  {
    GreedyCycles(log, slots);
    GreedySpaced(log, slots);
    EndsUsed(log.events, slots);
    StartsUsed(log.events, slots);
    StartedDistinct(log, slots);
  }

  lemma StartedDistinct<V>(log: Log<V>, slots: seq<Slot>)
    requires Identified(log) && Cycles(log, slots) && Started(slots) == Starts(log.events)
    ensures DistinctIds(log, slots)
  {
    var starts := Starts(log.events);
    forall k | 0 <= k < |slots| ensures slots[k].started == starts[k] { assert Started(slots)[k] == starts[k]; }
  }

  /** The greedy choices are a matching, and no matching consumes any result earlier. */
  lemma GreedyWins<V>(log: Log<V>, slots: seq<Slot>)
    requires Identified(log) && |slots| == |log.names| && InOrder(log, slots)
    ensures Matched(log, slots) && forall other :: Matched(log, other) ==> Earlier(slots, other)
  {
    GreedyIsMatched(log, slots);
    forall other: seq<Slot> | Matched(log, other) ensures Earlier(slots, other) {
      forall k | 0 <= k < |slots| ensures slots[k].consumed <= other[k].consumed { ChosenFromWitness(log, other, k); }
    }
  }

  lemma InOrderSnoc<V>(log: Log<V>, slots: seq<Slot>, slot: Slot)
    requires |slots| < |log.names| == |Starts(log.events)| && InOrder(log, slots) && Chosen(log, |slots|) == Some(slot)
    requires slots != [] ==> Follows(slots[|slots| - 1], slot)
    ensures InOrder(log, slots + [slot])
  {
    var longer := slots + [slot];
    forall k | 0 <= k < |longer| ensures Chosen(log, k) == Some(longer[k]) {
      if k < |slots| { assert Chosen(log, k) == Some(slots[k]); }
    }
    forall k | 0 < k < |longer| ensures Follows(longer[k - 1], longer[k]) {
      if k < |slots| { assert Follows(slots[k - 1], slots[k]); }
    }
  }

  /** The cycle returned for a slot. */
  ghost predicate Reports<V>(log: Log<V>, k: nat, s: Slot, c: Cycle<V>) {
    && k < |log.names| && s.started < |log.events| && s.ended < |log.events|
    && log.events[s.started].Start? && log.events[s.ended].End?
    && c.calledAt == s.called && c.consumedAt == s.consumed && c.name == log.names[k]
    && Some(c.id) == log.events[s.started].id && Some(c.arguments) == log.events[s.started].args
    && log.events[s.ended].content == [Text(c.text)]
  }

  function CycleOf<V>(log: Log<V>, k: nat, s: Slot): (c: Cycle<V>)
    requires CycleAt(log, k, s)
    ensures Reports(log, k, s, c)
  {
    var start, end := log.events[s.started], log.events[s.ended];
    assert end.content == [end.content[0]];
    Cycle(start.id.value, log.names[k], start.args.value, end.content[0].text, s.called, s.consumed)
  }

  /** The matcher's loop. */
  method PreflightToolCycles<V(==)>(log: Log<V>) returns (r: Option<seq<Cycle<V>>>, ghost slots: seq<Slot>)
    ensures r.Some? ==> Matched(log, slots) && |r.value| == |slots|
    ensures r.Some? ==> forall k :: 0 <= k < |slots| ==> Reports(log, k, slots[k], r.value[k])
    ensures r.Some? ==> forall other :: Matched(log, other) ==> Earlier(slots, other)
    ensures r.None? ==> forall other :: !Matched(log, other)
  {
    slots := [];
    if !Identified(log) {
      forall other ensures !Matched(log, other) { if Matched(log, other) { MatchedIdentified(log, other); } }
      return None, [];
    }
    var starts := Starts(log.events);
    var cycles: seq<Cycle<V>> := [];
    var previous: Option<Slot> := None;
    for k := 0 to |starts|
      invariant |slots| == |cycles| == k && InOrder(log, slots)
      invariant previous == if k == 0 then None else Some(slots[k - 1])
      invariant forall j :: 0 <= j < k ==> Reports(log, j, slots[j], cycles[j])
    {
      var slot := Chosen(log, k);
      if slot.None? || (previous.Some? && !Follows(previous.value, slot.value)) {
        StuckMeansNone(log, slots, k);
        return None, [];
      }
      InOrderSnoc(log, slots, slot.value);
      ChosenIsCycle(log, k);
      cycles := cycles + [CycleOf(log, k, slot.value)];
      previous := slot;
      slots := slots + [slot.value];
    }
    GreedyWins(log, slots);
    r := Some(cycles);
  }
}
