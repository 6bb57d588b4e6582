/**
 Two generators of growing conversations. One rebuilds the messages of a call from
 scratch; the other keeps one list and appends to it. Message bodies are functions
 of the turn, of fixed length.
 */
module GrowingHistory {
  import opened Options

  datatype Role = User | Assistant

  datatype Message = Message(role: Role, content: string)

  datatype Call = Call(inputs: seq<Message>, output: Message)

  /** The bodies of a Session: what the user says and what the assistant answers at each turn. */
  datatype Script = Script(user: nat -> string, assistant: nat -> string)

  // ----- fixed-size bodies -----

  function Repeat(text: string, n: nat): string {
    if n == 0 then "" else Repeat(text, n - 1) + text
  }

  lemma {:induction false} RepeatLength(text: string, n: nat)
    ensures |Repeat(text, n)| == n * |text|
  {
    if n > 0 { RepeatLength(text, n - 1); }
  }

  lemma CeilingCovers(size: nat, width: nat)
    requires width > 0
    ensures (size + width - 1) / width * width >= size
  {
  }

  type Label = text: string | |text| > 0 witness "x"

  /** The text repeated often enough and cut to size: always exactly `size` characters. */
  function Body(text: Label, size: nat): (r: string)
    ensures |r| == size
  {
    var n := (size + |text| - 1) / |text|;
    RepeatLength(text, n);
    CeilingCovers(size, |text|);
    Repeat(text, n)[..size]
  }

  // ----- the two generators -----

  /** The messages sent at a turn: every earlier exchange, then the new user message. */
  function InputsAt(s: Script, turn: nat): seq<Message> {
    if turn == 0 then [Message(User, s.user(0))]
    else InputsAt(s, turn - 1) + [Message(Assistant, s.assistant(turn - 1)), Message(User, s.user(turn))]
  }

  function CallAt(s: Script, turn: nat): Call {
    Call(InputsAt(s, turn), Message(Assistant, s.assistant(turn)))
  }

  /** Accumulate one list and copy it at every turn, as the storage fixture does. */
  method Accumulate(s: Script, turns: nat) returns (calls: seq<Call>)
    ensures |calls| == turns && forall k :: 0 <= k < turns ==> calls[k] == CallAt(s, k)
  {
    calls := [];
    var messages := [];
    for index := 0 to turns
      invariant |calls| == index && forall k :: 0 <= k < index ==> calls[k] == CallAt(s, k)
      invariant messages + [Message(User, s.user(index))] == InputsAt(s, index)
    {
      messages := messages + [Message(User, s.user(index))];
      var output := Message(Assistant, s.assistant(index));
      calls := calls + [Call(messages, output)];
      messages := messages + [output];
    }
  }

  // ----- prefix verification -----

  /** The last call, provided its input starts with the input and output of every earlier call. */
  method VerifyPrefix(calls: seq<Call>) returns (r: Option<Call>)
    ensures r.Some? <==>
            |calls| > 0 && forall k :: 0 <= k < |calls| - 1 ==>
              calls[k].inputs + [calls[k].output] <= calls[|calls| - 1].inputs
    ensures r.Some? ==> r.value == calls[|calls| - 1]
  {
    if calls == [] { return None; }
    var final := calls[|calls| - 1];
    for k := 0 to |calls| - 1
      invariant forall j :: 0 <= j < k ==> calls[j].inputs + [calls[j].output] <= final.inputs
    {
      var prefix := calls[k].inputs + [calls[k].output];
      if |final.inputs| < |prefix| || final.inputs[..|prefix|] != prefix { return None; }
    }
    r := Some(final);
  }

  /** Each earlier exchange is a prefix of every later input. */
  lemma {:induction false} EarlierIsPrefix(s: Script, j: nat, k: nat)
    requires j < k
    ensures InputsAt(s, j) + [CallAt(s, j).output] <= InputsAt(s, k)
  {
    if j < k - 1 { EarlierIsPrefix(s, j, k - 1); }
  }

  /** Every non-empty beginning of a generated Session passes, however it was generated. */
  method GeneratedVerifies(s: Script, turns: nat) returns (r: Option<Call>)
    requires turns > 0
    ensures r == Some(CallAt(s, turns - 1))
  {
    var calls := Accumulate(s, turns);
    forall k | 0 <= k < turns - 1 ensures calls[k].inputs + [calls[k].output] <= calls[turns - 1].inputs {
      EarlierIsPrefix(s, k, turns - 1);
    }
    r := VerifyPrefix(calls);
  }

  // ----- totals -----

  function TextOf(messages: seq<Message>): nat {
    if messages == [] then 0 else TextOf(messages[..|messages| - 1]) + |messages[|messages| - 1].content|
  }

  function CallText(c: Call): nat {
    TextOf(c.inputs) + |c.output.content|
  }

  function CallParts(c: Call): nat {
    |c.inputs| + 1
  }

  ghost predicate Sized(s: Script, history: nat, output: nat) {
    forall t: nat :: |s.user(t)| == history && |s.assistant(t)| == output
  }

  lemma TextSnoc(messages: seq<Message>, m: Message)
    ensures TextOf(messages + [m]) == TextOf(messages) + |m.content|
  {
    assert (messages + [m])[..|messages|] == messages;
  }

  lemma {:induction false} CallTotals(s: Script, turn: nat, history: nat, output: nat)
    requires Sized(s, history, output)
    ensures CallText(CallAt(s, turn)) == (turn + 1) * (history + output)
    ensures CallParts(CallAt(s, turn)) == 2 * (turn + 1)
  {
    if turn == 0 {
      TextSnoc([], Message(User, s.user(0)));
      assert [] + [Message(User, s.user(0))] == InputsAt(s, 0);
    } else {
      CallTotals(s, turn - 1, history, output);
      var before, a, u := InputsAt(s, turn - 1), Message(Assistant, s.assistant(turn - 1)), Message(User, s.user(turn));
      TextSnoc(before, a);
      TextSnoc(before + [a], u);
      assert before + [a] + [u] == InputsAt(s, turn);
      assert (turn + 1) * (history + output) == turn * (history + output) + (history + output);
    }
  }

  function SessionText(s: Script, turns: nat): nat {
    if turns == 0 then 0 else SessionText(s, turns - 1) + CallText(CallAt(s, turns - 1))
  }

  function SessionParts(s: Script, turns: nat): nat {
    if turns == 0 then 0 else SessionParts(s, turns - 1) + CallParts(CallAt(s, turns - 1))
  }

  /** The budget formulas of the profile and of the population plan. */
  function RepeatedBytes(turns: nat, history: nat, output: nat): nat {
    turns * (turns + 1) / 2 * (history + output)
  }

  function ReplayedBytes(turns: nat, history: nat, output: nat): nat {
    if turns == 0 then 0 else turns * (turns - 1) / 2 * (history + output)
  }

  lemma TriangleStep(n: nat)
    ensures (n + 1) * (n + 2) / 2 == n * (n + 1) / 2 + (n + 1)
  {
    assert (n + 1) * (n + 2) == n * (n + 1) + 2 * (n + 1);
  }

  /** Summed over a Session, text and parts meet the declared closed forms. */
  lemma {:induction false} SessionTotals(s: Script, turns: nat, history: nat, output: nat)
    requires Sized(s, history, output)
    ensures SessionText(s, turns) == RepeatedBytes(turns, history, output)
    ensures SessionParts(s, turns) == turns * (turns + 1)
  {
    if turns > 0 {
      var n := turns - 1;
      SessionTotals(s, n, history, output);
      CallTotals(s, n, history, output);
      RepeatedStep(n, history, output);
      PartsStep(n);
    }
  }

  lemma RepeatedStep(n: nat, history: nat, output: nat)
    ensures RepeatedBytes(n + 1, history, output) == RepeatedBytes(n, history, output) + (n + 1) * (history + output)
  {
    TriangleStep(n);
    var h, t := history + output, n * (n + 1) / 2;
    assert (t + (n + 1)) * h == t * h + (n + 1) * h;
  }

  lemma PartsStep(n: nat)
    ensures (n + 1) * (n + 2) == n * (n + 1) + 2 * (n + 1)
  {
  }

  lemma ReplayedFormula(turns: nat, history: nat, output: nat)
    ensures turns * (history + output) + ReplayedBytes(turns, history, output) == RepeatedBytes(turns, history, output)
  {
    if turns > 0 {
      var n := turns - 1;
      RepeatedStep(n, history, output);
      assert turns * n == n * (n + 1);
    }
  }

  /** The text of the messages that a call repeats from earlier turns: all its inputs but the last. */
  function ReplayedText(c: Call): nat
    requires c.inputs != []
  {
    TextOf(c.inputs[..|c.inputs| - 1])
  }

  /** The text that a turn contributes itself. */
  function OwnText(c: Call): nat
    requires c.inputs != []
  {
    |c.inputs[|c.inputs| - 1].content| + |c.output.content|
  }

  lemma {:induction false} InputsNonEmpty(s: Script, turn: nat)
    ensures InputsAt(s, turn) != [] && InputsAt(s, turn)[|InputsAt(s, turn)| - 1] == Message(User, s.user(turn))
  {
  }

  /** What is replayed at a turn is exactly the inputs and output of the call before it. */
  lemma ReplayedIsPrevious(s: Script, turn: nat)
    requires turn > 0
    ensures InputsAt(s, turn)[..|InputsAt(s, turn)| - 1] == InputsAt(s, turn - 1) + [CallAt(s, turn - 1).output]
  {
  }

  function SessionReplayed(s: Script, turns: nat): nat {
    if turns == 0 then 0
    else InputsNonEmpty(s, turns - 1); SessionReplayed(s, turns - 1) + ReplayedText(CallAt(s, turns - 1))
  }

  function SessionOwn(s: Script, turns: nat): nat {
    if turns == 0 then 0
    else InputsNonEmpty(s, turns - 1); SessionOwn(s, turns - 1) + OwnText(CallAt(s, turns - 1))
  }

  /** Each turn's own text plus the text it replays is all the text, and both meet the reported formulas. */
  lemma {:induction false} OncePlusReplayed(s: Script, turns: nat, history: nat, output: nat)
    ensures SessionOwn(s, turns) + SessionReplayed(s, turns) == SessionText(s, turns)
    ensures Sized(s, history, output) ==>
            && SessionOwn(s, turns) == turns * (history + output)
            && SessionReplayed(s, turns) == ReplayedBytes(turns, history, output)
  {
    if turns > 0 {
      var n := turns - 1;
      InputsNonEmpty(s, n);
      OncePlusReplayed(s, n, history, output);
    }
    if Sized(s, history, output) {
      OwnTotal(s, turns, history, output);
      SessionTotals(s, turns, history, output);
      ReplayedFormula(turns, history, output);
    }
  }

  lemma {:induction false} OwnTotal(s: Script, turns: nat, history: nat, output: nat)
    requires Sized(s, history, output)
    ensures SessionOwn(s, turns) == turns * (history + output)
  {
    if turns > 0 {
      OwnTotal(s, turns - 1, history, output);
      InputsNonEmpty(s, turns - 1);
      assert turns * (history + output) == (turns - 1) * (history + output) + (history + output);
    }
  }

  // ----- envelopes by call index -----

  /** The sizes of a profile, the repeated user text and the label of each call's answer. */
  datatype Profile = Profile(perSession: nat, history: nat, output: nat, text: Label, answer: nat -> Label)

  /** The conversation of one session: its turns are consecutive calls. */
  function SessionScript(w: Profile, session: nat): (s: Script)
    ensures Sized(s, w.history, w.output)
  {
    var s := Script(
      (t: nat) => Body(w.text, w.history), (t: nat) => Body(w.answer(session * w.perSession + t), w.output));
    assert forall t: nat ::
        && s.user(t) == Body(w.text, w.history)
        && s.assistant(t) == Body(w.answer(session * w.perSession + t), w.output);
    s
  }

  /** The call of an index is that turn of its session: the answers it replays are those of the earlier indices. */
  method GatewayEnvelope(w: Profile, index: nat) returns (call: Call)
    requires w.perSession > 0
    ensures call == CallAt(SessionScript(w, index / w.perSession), index % w.perSession)
    ensures call.output == Message(Assistant, Body(w.answer(index), w.output))
  {
    var session, turn := index / w.perSession, index % w.perSession;
    ghost var s := SessionScript(w, session);
    var user := Body(w.text, w.history);
    var messages := [];
    for previous := 0 to turn
      invariant messages + [Message(User, user)] == InputsAt(s, previous)
    {
      var previousId := session * w.perSession + previous;
      messages := messages + [Message(User, user), Message(Assistant, Body(w.answer(previousId), w.output))];
    }
    messages := messages + [Message(User, user)];
    assert session * w.perSession + turn == index;
    assert s.assistant(turn) == Body(w.answer(index), w.output);
    call := Call(messages, Message(Assistant, Body(w.answer(index), w.output)));
  }

  /** The index of a turn leads back to its session and turn. */
  lemma IndexOfTurn(perSession: nat, session: nat, turn: nat)
    requires turn < perSession
    ensures (session * perSession + turn) / perSession == session && (session * perSession + turn) % perSession == turn
  {
    var index := session * perSession + turn;
    var q, r := index / perSession, index % perSession;
    assert index == q * perSession + r;
    if q < session { Apart(perSession, q, session); }
    if session < q { Apart(perSession, session, q); }
  }

  lemma {:induction false} Apart(d: nat, i: nat, j: nat)
    requires i < j
    ensures d * j >= d * i + d
    decreases j
  {
    if i < j - 1 { Apart(d, i, j - 1); }
    assert d * j == d * (j - 1) + d;
  }

  /** The first calls of any session, each built from its index alone, pass the prefix check. */
  method EnvelopesVerify(w: Profile, session: nat, turns: nat) returns (calls: seq<Call>, r: Option<Call>)
    requires 0 < turns <= w.perSession
    ensures |calls| == turns && forall k :: 0 <= k < turns ==> calls[k] == CallAt(SessionScript(w, session), k)
    ensures r == Some(calls[turns - 1])
  {
    calls := [];
    for k := 0 to turns
      invariant |calls| == k && forall j :: 0 <= j < k ==> calls[j] == CallAt(SessionScript(w, session), j)
    {
      IndexOfTurn(w.perSession, session, k);
      var call := GatewayEnvelope(w, session * w.perSession + k);
      calls := calls + [call];
    }
    forall k | 0 <= k < turns - 1 ensures calls[k].inputs + [calls[k].output] <= calls[turns - 1].inputs {
      EarlierIsPrefix(SessionScript(w, session), k, turns - 1);
    }
    r := VerifyPrefix(calls);
  }
}
