/** The agent's tool loop: what the model is shown at each call, and what is recorded. */
module Agent {
  import opened Text

  const MAX_STEPS: nat := 5

  datatype ToolCall = ToolCall(id: string, name: string, arguments: string)

  datatype Message = Message(
    role: string, content: string, toolCalls: Option<seq<ToolCall>>, toolCallId: Option<string>)

  datatype Reply = Reply(content: string, toolCalls: seq<ToolCall>)

  datatype Card = Card(title: string, action: string)

  /** What a tool brought; a navigation may carry an effect that can be read. */
  datatype Outcome =
    | Data(text: string)
    | Prepared(card: Card)
    | Question(text: string)
    | Nav(json: string, effect: Option<string>)
    | Failed(error: string)

  /** The world: the model's answer to its n-th call, a tool's outcome (the n-th run), whether
      the client has left before turn n, and how many awaits end before the timeout. */
  datatype World = World(
    complete: (nat, seq<Message>) -> Option<Reply>,
    execute: (nat, ToolCall) -> Outcome,
    closed: nat -> bool,
    awaits: nat)

  datatype Ending = Answered(answer: string) | OutOfSteps | Left | TimedOut | ModelFailed

  datatype Record = Record(
    asked: seq<seq<Message>>, replies: seq<Reply>, outcomes: seq<Outcome>,
    steps: seq<string>, cards: seq<Card>, effects: seq<string>,
    navigation: Option<string>, question: Option<string>, ending: Ending)

  function AssistantTurn(r: Reply): Message {
    Message("assistant", r.content, Some(r.toolCalls), None)
  }

  function ToolMessage(id: string, text: string): Message {
    Message("tool", text, None, Some(id))
  }

  function AnswerText(o: Outcome): string {
    match o
    case Data(t) => t
    case Prepared(c) => "Karte vorbereitet: " + c.title
    case Question(s) => "R\U{00fc}ckfrage: " + s
    case Nav(_, _) => "Navigation vorbereitet."
    case Failed(e) => "Fehler: " + e
  }

  // ------------------------------------------------------------ specification

  /** One tool message per call, in order, with matching ids. */
  function Answers(calls: seq<ToolCall>, outcomes: seq<Outcome>): (r: seq<Message>)
    requires |outcomes| == |calls|
    ensures |r| == |calls|
    ensures forall i :: 0 <= i < |calls| ==> r[i] == ToolMessage(calls[i].id, AnswerText(outcomes[i]))
  {
    if calls == [] then []
    else Answers(calls[..|calls| - 1], outcomes[..|calls| - 1])
         + [ToolMessage(calls[|calls| - 1].id, AnswerText(outcomes[|calls| - 1]))]
  }

  function Calls(replies: seq<Reply>): seq<ToolCall> {
    if replies == [] then [] else Calls(replies[..|replies| - 1]) + replies[|replies| - 1].toolCalls
  }

  /** What the finished turns add to the transcript. */
  function Turns(replies: seq<Reply>, outcomes: seq<Outcome>): seq<Message>
    requires |outcomes| >= |Calls(replies)|
  {
    if replies == [] then []
    else
      var before, last := replies[..|replies| - 1], replies[|replies| - 1];
      Turns(before, outcomes) + [AssistantTurn(last)]
      + Answers(last.toolCalls, outcomes[|Calls(before)|..|Calls(replies)|])
  }

  function Names(calls: seq<ToolCall>): (r: seq<string>)
    ensures |r| == |calls| && forall i :: 0 <= i < |calls| ==> r[i] == calls[i].name
  {
    if calls == [] then [] else Names(calls[..|calls| - 1]) + [calls[|calls| - 1].name]
  }

  function Cards(outcomes: seq<Outcome>): seq<Card> {
    if outcomes == [] then []
    else
      var last := outcomes[|outcomes| - 1];
      Cards(outcomes[..|outcomes| - 1]) + if last.Prepared? then [last.card] else []
  }

  function Effects(outcomes: seq<Outcome>): seq<string> {
    if outcomes == [] then []
    else
      var last := outcomes[|outcomes| - 1];
      Effects(outcomes[..|outcomes| - 1]) + if last.Nav? && last.effect.Some? then [last.effect.value] else []
  }

  function LastQuestion(outcomes: seq<Outcome>): Option<string> {
    if outcomes == [] then None
    else
      var last := outcomes[|outcomes| - 1];
      if last.Question? then Some(last.text) else LastQuestion(outcomes[..|outcomes| - 1])
  }

  function LastNavigation(outcomes: seq<Outcome>): Option<string> {
    if outcomes == [] then None
    else
      var last := outcomes[|outcomes| - 1];
      if last.Nav? && last.effect.Some? then Some(last.json) else LastNavigation(outcomes[..|outcomes| - 1])
  }

  /** Cards, effects, question and navigation are those of the outcomes, in order. */
  predicate Kept(r: Record) {
    && r.cards == Cards(r.outcomes)
    && r.effects == Effects(r.outcomes)
    && r.question == LastQuestion(r.outcomes)
    && r.navigation == LastNavigation(r.outcomes)
  }

  /** Why the loop ended where it did. */
  predicate Ended(r: Record, w: World) {
    && (forall i :: 0 <= i < |r.asked| ==> !w.closed(i))
    && (forall i :: 0 <= i < |r.replies| - 1 ==> r.replies[i].toolCalls != [])
    && (r.replies != [] ==> (r.ending.Answered? <==> r.replies[|r.replies| - 1].toolCalls == []))
    && |r.replies| + |r.outcomes| <= w.awaits
    && match r.ending
       case Answered(a) => r.replies != [] && r.replies[|r.replies| - 1].content == a && |r.asked| == |r.replies|
       case OutOfSteps => |r.asked| == |r.replies| == MAX_STEPS
       case Left => |r.asked| == |r.replies| < MAX_STEPS && w.closed(|r.asked|)
       case TimedOut =>
         |r.replies| + |r.outcomes| == w.awaits && (|r.asked| == |r.replies| ==> |r.outcomes| < |r.steps|)
       case ModelFailed =>
         && |r.asked| == |r.replies| + 1 && |r.replies| + |r.outcomes| < w.awaits
         && w.complete(|r.replies|, r.asked[|r.replies|]) == None
  }

  /** The record `r` is what the loop may leave, for this world and these first messages. */
  ghost predicate Faithful(r: Record, initial: seq<Message>, w: World) {
    && |r.replies| <= |r.asked| <= MAX_STEPS
    && |r.outcomes| <= |Calls(r.replies)|
    // the model sees the first messages and every turn before, fully answered
    && (forall i :: 0 <= i < |r.asked| && i <= |r.replies| ==>
          && |Calls(r.replies[..i])| <= |r.outcomes|
          && r.asked[i] == initial + Turns(r.replies[..i], r.outcomes))
    && |r.asked| <= |r.replies| + 1
    && (forall i :: 0 <= i < |r.replies| ==> w.complete(i, r.asked[i]) == Some(r.replies[i]))
    && (forall i :: 0 <= i < |r.outcomes| ==> r.outcomes[i] == w.execute(i, Calls(r.replies)[i]))
    // the recorded steps are the calls, in order
    && |r.outcomes| <= |r.steps| <= |Calls(r.replies)|
    && r.steps == Names(Calls(r.replies)[..|r.steps|])
    && (!r.ending.TimedOut? ==> |r.outcomes| == |r.steps| == |Calls(r.replies)|)
    && |r.steps| <= |r.outcomes| + 1
    && Kept(r)
  }

  /** One tool call: the step is recorded before the tool runs. */
  method RunTool(tc: ToolCall, w: World, before: Record, messages: seq<Message>)
    returns (after: Record, next: seq<Message>)
    ensures var o := w.execute(|before.outcomes|, tc);
            && after.outcomes == before.outcomes + [o]
            && next == messages + [ToolMessage(tc.id, AnswerText(o))]
            && (Kept(before) ==> Kept(after))
            && after.steps == before.steps && after.asked == before.asked && after.replies == before.replies
            && after.ending == before.ending
  {
    var o := w.execute(|before.outcomes|, tc);
    after := before.(outcomes := before.outcomes + [o]);
    assert after.outcomes[..|after.outcomes| - 1] == before.outcomes;
    next := messages + [ToolMessage(tc.id, AnswerText(o))];
    match o
    case Data(_) =>
    case Prepared(c) => after := after.(cards := before.cards + [c]);
    case Question(s) => after := after.(question := Some(s));
    case Nav(json, effect) =>
      if effect.Some? {
        after := after.(effects := before.effects + [effect.value], navigation := Some(json));
      }
    case Failed(_) =>
  }

  lemma {:induction false} TurnsPrefix(replies: seq<Reply>, outcomes: seq<Outcome>, more: seq<Outcome>)
    requires |outcomes| >= |Calls(replies)|
    ensures Turns(replies, outcomes) == Turns(replies, outcomes + more)
  {
    if replies != [] {
      var before := replies[..|replies| - 1];
      TurnsPrefix(before, outcomes, more);
      assert (outcomes + more)[|Calls(before)|..|Calls(replies)|] == outcomes[|Calls(before)|..|Calls(replies)|];
    }
  }

  ghost predicate Asked(r: Record, initial: seq<Message>) {
    forall i :: 0 <= i < |r.asked| && i <= |r.replies| ==>
      |Calls(r.replies[..i])| <= |r.outcomes| && r.asked[i] == initial + Turns(r.replies[..i], r.outcomes)
  }

  lemma AskedGrows(r: Record, initial: seq<Message>, o: Outcome)
    requires Asked(r, initial)
    ensures Asked(r.(outcomes := r.outcomes + [o]), initial)
  {
    hide Turns, Calls;
    forall i | 0 <= i < |r.asked| && i <= |r.replies|
      ensures |Calls(r.replies[..i])| <= |r.outcomes|
      ensures Turns(r.replies[..i], r.outcomes + [o]) == Turns(r.replies[..i], r.outcomes)
    {
      TurnsPrefix(r.replies[..i], r.outcomes, [o]);
    }
  }

  /** Everything but how it ended. */
  ghost predicate SoFar(r: Record, initial: seq<Message>, w: World) {
    && |r.replies| <= |r.asked| <= |r.replies| + 1 && |r.asked| <= MAX_STEPS
    && |r.outcomes| <= |r.steps| <= |Calls(r.replies)| && |r.steps| <= |r.outcomes| + 1
    && Asked(r, initial)
    && (forall i :: 0 <= i < |r.replies| ==> w.complete(i, r.asked[i]) == Some(r.replies[i]))
    && (forall i :: 0 <= i < |r.outcomes| ==> r.outcomes[i] == w.execute(i, Calls(r.replies)[i]))
    && r.steps == Names(Calls(r.replies)[..|r.steps|])
    && Kept(r)
  }

  /** The tool calls of one reply. */
  method RunTools(tcs: seq<ToolCall>, w: World, ghost initial: seq<Message>, before: Record,
      said: seq<Message>, used: nat)
    returns (r: Record, messages: seq<Message>, awaits: nat, timedOut: bool)
    requires SoFar(before, initial, w) && before.replies != []
    requires tcs == before.replies[|before.replies| - 1].toolCalls
    requires |before.steps| == |before.outcomes| && |before.outcomes| + |tcs| == |Calls(before.replies)|
    requires |before.asked| == |before.replies|
    ensures SoFar(r, initial, w) && r.replies == before.replies && r.asked == before.asked && r.ending == before.ending
    requires used <= w.awaits
    ensures awaits == used + |r.outcomes| - |before.outcomes| && awaits <= w.awaits
    ensures timedOut ==> awaits == w.awaits && |r.outcomes| < |r.steps|
    ensures !timedOut ==> |r.outcomes| == |r.steps| == |Calls(r.replies)|
    ensures !timedOut ==> messages == said + Answers(tcs, r.outcomes[|before.outcomes|..])
    ensures !timedOut ==> r.outcomes[..|before.outcomes|] == before.outcomes
  {
    hide Turns, Calls, SoFar, Kept, Answers, Names;
    r, messages, awaits, timedOut := before, said, used, false;
    ghost var base := |before.outcomes|;
    ghost var all := Calls(before.replies);
    CallsEnd(before.replies);
    for k := 0 to |tcs|
      invariant SoFar(r, initial, w)
      invariant r.replies == before.replies && r.asked == before.asked && r.ending == before.ending
      invariant |r.outcomes| == |r.steps| == base + k && r.outcomes[..base] == before.outcomes
      invariant messages == said + Answers(tcs[..k], r.outcomes[base..])
      invariant awaits == used + k <= w.awaits
    {
      var tc := tcs[k];
      assert tc == all[base + k];
      StepKeeps(r, initial, w);
      r := r.(steps := r.steps + [tc.name]);
      if awaits == w.awaits {
        timedOut := true;
        return;
      }
      awaits := awaits + 1;
      ghost var was := r;
      ghost var o := w.execute(|r.outcomes|, tc);
      AnswersSnoc(tcs[..k], r.outcomes[base..], tc, o);
      assert tcs[..k + 1] == tcs[..k] + [tc];
      assert (r.outcomes + [o])[base..] == r.outcomes[base..] + [o];
      assert (r.outcomes + [o])[..base] == r.outcomes[..base];
      r, messages := RunTool(tc, w, r, messages);
      OutcomeKeeps(was, r, initial, w);
    }
    assert tcs[..|tcs|] == tcs;
  }

  lemma StepKeeps(r: Record, initial: seq<Message>, w: World)
    requires SoFar(r, initial, w) && |r.steps| == |r.outcomes| < |Calls(r.replies)|
    ensures SoFar(r.(steps := r.steps + [Calls(r.replies)[|r.steps|].name]), initial, w)
  {
    hide Turns, Calls, Cards, Effects, Asked;
    NamesSnoc(Calls(r.replies), |r.steps|);
    SameAsked(r, r.(steps := r.steps + [Calls(r.replies)[|r.steps|].name]), initial);
  }

  lemma OutcomeKeeps(was: Record, r: Record, initial: seq<Message>, w: World)
    requires SoFar(was, initial, w) && |was.steps| == |was.outcomes| + 1
    requires r.outcomes == was.outcomes + [w.execute(|was.outcomes|, Calls(was.replies)[|was.outcomes|])]
    requires r.steps == was.steps && r.asked == was.asked && r.replies == was.replies
    requires Kept(was) ==> Kept(r)
    ensures SoFar(r, initial, w)
  {
    hide Turns, Calls, Kept, Asked, Names;
    var o := w.execute(|was.outcomes|, Calls(was.replies)[|was.outcomes|]);
    AskedGrows(was, initial, o);
    SameAsked(was.(outcomes := was.outcomes + [o]), r, initial);
  }

  lemma SameAsked(a: Record, b: Record, initial: seq<Message>)
    requires Asked(a, initial) && a.asked == b.asked && a.replies == b.replies && a.outcomes == b.outcomes
    ensures Asked(b, initial)
  {
  }

  lemma CallsEnd(replies: seq<Reply>)
    requires replies != []
    ensures Calls(replies) == Calls(replies[..|replies| - 1]) + replies[|replies| - 1].toolCalls
  {
  }

  lemma NamesSnoc(calls: seq<ToolCall>, k: nat)
    requires k < |calls|
    ensures Names(calls[..k + 1]) == Names(calls[..k]) + [calls[k].name]
  {
    assert calls[..k + 1][..k] == calls[..k];
  }

  lemma AnswersSnoc(calls: seq<ToolCall>, outcomes: seq<Outcome>, tc: ToolCall, o: Outcome)
    requires |outcomes| == |calls|
    ensures Answers(calls + [tc], outcomes + [o]) == Answers(calls, outcomes) + [ToolMessage(tc.id, AnswerText(o))]
  {
    assert (calls + [tc])[..|calls|] == calls && (outcomes + [o])[..|calls|] == outcomes;
  }

  /** The loop of `run_agent_core`. */
  method RunLoop(initial: seq<Message>, w: World) returns (r: Record)
    ensures Faithful(r, initial, w) && Ended(r, w)
  {
    hide Turns, Calls, Kept, Answers, SoFar, Faithful, AssistantTurn;
    r := Record([], [], [], [], [], [], None, None, OutOfSteps);
    Start(r, initial, w);
    var messages, awaits := initial, 0;
    for turn := 0 to MAX_STEPS
      invariant SoFar(r, initial, w) && r.ending.OutOfSteps?
      invariant |r.asked| == |r.replies| == turn
      invariant |r.outcomes| == |r.steps| == |Calls(r.replies)|
      invariant messages == initial + Turns(r.replies, r.outcomes)
      invariant awaits == |r.replies| + |r.outcomes| <= w.awaits
      invariant forall i :: 0 <= i < |r.asked| ==> !w.closed(i)
      invariant forall i :: 0 <= i < |r.replies| ==> r.replies[i].toolCalls != []
    {
      if w.closed(turn) {
        r := r.(ending := Left);
        Done(r, initial, w);
        return;
      }
      AskKeeps(r, initial, w);
      r := r.(asked := r.asked + [messages]);
      if awaits == w.awaits {
        r := r.(ending := TimedOut);
        Done(r, initial, w);
        return;
      }
      awaits := awaits + 1;
      var result := w.complete(turn, messages);
      if result.None? {
        r := r.(ending := ModelFailed);
        Done(r, initial, w);
        return;
      }
      var reply := result.value;
      ghost var was := r;
      r := r.(replies := r.replies + [reply]);
      ReplyKeeps(was, reply, initial, w);
      if reply.toolCalls == [] {
        r := r.(ending := Answered(reply.content));
        Done(r, initial, w);
        return;
      }
      var timedOut;
      r, messages, awaits, timedOut :=
        RunTools(reply.toolCalls, w, initial, r, messages + [AssistantTurn(reply)], awaits);
      if timedOut {
        r := r.(ending := TimedOut);
        Done(r, initial, w);
        return;
      }
      TurnsSnoc(initial, was.replies, reply, was.outcomes, r.outcomes);
    }
    Done(r, initial, w);
  }

  /** How it ended says nothing about what was recorded. */
  lemma Done(r: Record, initial: seq<Message>, w: World)
    requires SoFar(r.(ending := OutOfSteps), initial, w)
    requires !r.ending.TimedOut? ==> |r.outcomes| == |r.steps| == |Calls(r.replies)|
    ensures Faithful(r, initial, w)
  {
    hide Turns, Calls, Cards, Effects;
    SameAsked(r.(ending := OutOfSteps), r, initial);
  }

  lemma AskKeeps(r: Record, initial: seq<Message>, w: World)
    requires SoFar(r, initial, w) && |r.asked| == |r.replies| < MAX_STEPS
    requires |r.outcomes| == |Calls(r.replies)|
    ensures SoFar(r.(asked := r.asked + [initial + Turns(r.replies, r.outcomes)]), initial, w)
  {
    hide Turns, Calls, Cards, Effects, Names;
    assert r.replies[..|r.replies|] == r.replies;
  }

  lemma Start(r: Record, initial: seq<Message>, w: World)
    requires r == Record([], [], [], [], [], [], None, None, OutOfSteps)
    ensures SoFar(r, initial, w) && Calls([]) == [] && initial + Turns([], []) == initial
  {
  }

  lemma ReplyKeeps(was: Record, reply: Reply, initial: seq<Message>, w: World)
    requires SoFar(was, initial, w) && |was.asked| == |was.replies| + 1
    requires |was.outcomes| == |was.steps| == |Calls(was.replies)|
    requires w.complete(|was.replies|, was.asked[|was.replies|]) == Some(reply)
    ensures var r := was.(replies := was.replies + [reply]);
            SoFar(r, initial, w) && Calls(r.replies) == Calls(was.replies) + reply.toolCalls
  {
    hide Turns, Calls, Cards, Effects, Names, Asked;
    var r := was.(replies := was.replies + [reply]);
    CallsEnd(r.replies);
    assert r.replies[..|was.replies|] == was.replies;
    assert (Calls(was.replies) + reply.toolCalls)[..|was.steps|] == Calls(was.replies)[..|was.steps|];
    AskedReply(was, reply, initial);
  }

  lemma AskedReply(was: Record, reply: Reply, initial: seq<Message>)
    requires Asked(was, initial) && |was.asked| == |was.replies| + 1
    ensures Asked(was.(replies := was.replies + [reply]), initial)
  {
    hide Turns, Calls;
    var r := was.(replies := was.replies + [reply]);
    forall i | 0 <= i < |r.asked|
      ensures r.replies[..i] == was.replies[..i]
    {
    }
  }

  lemma TurnsSnoc(initial: seq<Message>, replies: seq<Reply>, reply: Reply, before: seq<Outcome>, after: seq<Outcome>)
    requires |before| == |Calls(replies)| && |after| == |before| + |reply.toolCalls| && after[..|before|] == before
    ensures |after| == |Calls(replies + [reply])|
    ensures initial + Turns(replies + [reply], after)
         == initial + Turns(replies, before) + [AssistantTurn(reply)] + Answers(reply.toolCalls, after[|before|..])
  {
    hide Turns, Answers, AssistantTurn, Calls;
    LastTurn(replies, reply, before, after);
    Join4(initial, Turns(replies, before), [AssistantTurn(reply)], Answers(reply.toolCalls, after[|before|..]));
  }

  lemma Join4(a: seq<Message>, b: seq<Message>, c: seq<Message>, d: seq<Message>)
    ensures a + (b + c + d) == a + b + c + d
  {
  }

  lemma LastTurn(replies: seq<Reply>, reply: Reply, before: seq<Outcome>, after: seq<Outcome>)
    requires |before| == |Calls(replies)| && |after| == |before| + |reply.toolCalls| && after[..|before|] == before
    ensures |after| == |Calls(replies + [reply])|
    ensures Turns(replies + [reply], after)
         == Turns(replies, before) + [AssistantTurn(reply)] + Answers(reply.toolCalls, after[|before|..])
  {
    hide Answers, AssistantTurn;
    var all := replies + [reply];
    assert all[..|all| - 1] == replies;
    TurnsPrefix(replies, before, after[|before|..]);
    assert before + after[|before|..] == after;
  }

  // ----------------------------------------------------------- well-formedness

  predicate AnsweredBy(calls: seq<ToolCall>, ms: seq<Message>) {
    && |calls| <= |ms|
    && forall i :: 0 <= i < |calls| ==>
      ms[i].role == "tool" && ms[i].toolCallId == Some(calls[i].id) && ms[i].toolCalls.None?
  }

  /** Every tool-call turn is followed by exactly one tool message per call, in order, with
      the call's id, and there is no other tool message. */
  predicate WellFormed(ms: seq<Message>)
    decreases |ms|
  {
    ms == [] ||
    if ms[0].toolCalls.Some? then
      var calls := ms[0].toolCalls.value;
      ms[0].role == "assistant" && AnsweredBy(calls, ms[1..]) && WellFormed(ms[|calls| + 1..])
    else ms[0].role != "tool" && ms[0].toolCallId.None? && WellFormed(ms[1..])
  }

  lemma {:induction false} WellFormedConcat(a: seq<Message>, b: seq<Message>)
    requires WellFormed(a) && WellFormed(b)
    ensures WellFormed(a + b)
    decreases |a|
  {
    if a == [] {
      assert a + b == b;
    } else {
      var n := if a[0].toolCalls.Some? then |a[0].toolCalls.value| + 1 else 1;
      assert (a + b)[n..] == a[n..] + b;
      WellFormedConcat(a[n..], b);
      assert (a + b)[0] == a[0] && (a + b)[1..] == a[1..] + b;
    }
  }

  lemma {:induction false} TurnsWellFormed(replies: seq<Reply>, outcomes: seq<Outcome>)
    requires |outcomes| >= |Calls(replies)|
    ensures WellFormed(Turns(replies, outcomes))
  {
    hide WellFormed, Answers;
    if replies == [] {
      PlainIsWellFormed([]);
    } else {
      var before, last := replies[..|replies| - 1], replies[|replies| - 1];
      TurnsWellFormed(before, outcomes);
      var own := outcomes[|Calls(before)|..|Calls(replies)|];
      var turn := [AssistantTurn(last)] + Answers(last.toolCalls, own);
      TurnWellFormed(last, own);
      WellFormedConcat(Turns(before, outcomes), turn);
      assert Turns(replies, outcomes) == Turns(before, outcomes) + turn;
    }
  }

  lemma TurnWellFormed(r: Reply, outcomes: seq<Outcome>)
    requires |outcomes| == |r.toolCalls|
    ensures WellFormed([AssistantTurn(r)] + Answers(r.toolCalls, outcomes))
  {
    hide Answers, AnswerText;
    var turn := [AssistantTurn(r)] + Answers(r.toolCalls, outcomes);
    assert turn[|r.toolCalls| + 1..] == [];
    assert turn[1..] == Answers(r.toolCalls, outcomes);
  }

  /** The first messages: system prompt, history and the new question, all plain text. */
  predicate Plain(ms: seq<Message>) {
    forall m :: m in ms ==> m.role != "tool" && m.toolCalls.None? && m.toolCallId.None?
  }

  lemma {:induction false} PlainIsWellFormed(ms: seq<Message>)
    requires Plain(ms)
    ensures WellFormed(ms)
  {
    if ms != [] {
      assert ms[0] in ms;
      PlainIsWellFormed(ms[1..]);
    }
  }

  /** At every model call the transcript is well formed, whatever model and tools do. */
  lemma EveryModelCallIsWellFormed(r: Record, initial: seq<Message>, w: World, i: nat)
    requires Faithful(r, initial, w) && Plain(initial) && i < |r.asked|
    ensures WellFormed(r.asked[i])
  {
    hide WellFormed, Turns, Calls;
    PlainIsWellFormed(initial);
    TurnsWellFormed(r.replies[..i], r.outcomes);
    WellFormedConcat(initial, Turns(r.replies[..i], r.outcomes));
  }

  /** The finished turns hold every reply with its text and its calls, and the answer to every
      call under the call's id. */
  lemma {:induction false} TurnsTell(replies: seq<Reply>, outcomes: seq<Outcome>, k: nat, c: nat)
    requires |outcomes| >= |Calls(replies)|
    ensures k < |replies| ==>
      Message("assistant", replies[k].content, Some(replies[k].toolCalls), None) in Turns(replies, outcomes)
    ensures c < |Calls(replies)| ==>
      Message("tool", AnswerText(outcomes[c]), None, Some(Calls(replies)[c].id)) in Turns(replies, outcomes)
  {
    hide Answers, AnswerText;
    if replies != [] {
      var before, last := replies[..|replies| - 1], replies[|replies| - 1];
      var own := outcomes[|Calls(before)|..|Calls(replies)|];
      TurnsTell(before, outcomes, k, c);
      var answers := Answers(last.toolCalls, own);
      InTurns(Turns(before, outcomes), AssistantTurn(last), answers);
      if |Calls(before)| <= c < |Calls(replies)| {
        var i := c - |Calls(before)|;
        assert answers[i] == ToolMessage(last.toolCalls[i].id, AnswerText(own[i])) && answers[i] in answers;
      }
    }
  }

  lemma InTurns(before: seq<Message>, m: Message, after: seq<Message>)
    ensures m in before + [m] + after
    ensures forall x :: x in before || x in after ==> x in before + [m] + after
  {
    var all := before + [m] + after;
    assert all[|before|] == m;
  }

  /** At every model call the model is shown all its replies before and all that the tools
      brought. */
  lemma EverythingIsShown(r: Record, initial: seq<Message>, w: World, i: nat, k: nat, c: nat)
    requires Faithful(r, initial, w) && i < |r.asked| && i <= |r.replies| && k < i && c < |Calls(r.replies[..i])|
    ensures initial <= r.asked[i]
    ensures Message("assistant", r.replies[k].content, Some(r.replies[k].toolCalls), None) in r.asked[i]
    ensures |Calls(r.replies[..i])| <= |r.outcomes|
    ensures Message("tool", AnswerText(r.outcomes[c]), None, Some(Calls(r.replies[..i])[c].id)) in r.asked[i]
  {
    hide Turns, Calls, AnswerText;
    TurnsTell(r.replies[..i], r.outcomes, k, c);
  }

  // --------------------------------------------------------------------- plan

  /** The standard note where the model gave no answer. */
  function SplitNote(lang: string): string {
    if lang == "en" then "Please split the request into smaller steps."
    else "Bitte teile den Auftrag in kleinere Schritte."
  }

  /** Places in a list, from the first on. */
  predicate Places(p: seq<nat>, n: nat) {
    (forall k :: 0 <= k < |p| ==> p[k] < n) && forall j, k :: 0 <= j < k < |p| ==> p[j] < p[k]
  }

  /** `cards` are the cards the outcomes prepared, each once and in the order of the calls. */
  ghost predicate PlanOf(cards: seq<Card>, outcomes: seq<Outcome>) {
    exists p: seq<nat> :: CardsAt(p, cards, outcomes)
  }

  predicate CardsAt(p: seq<nat>, cards: seq<Card>, outcomes: seq<Outcome>) {
    && |p| == |cards| && Places(p, |outcomes|)
    && (forall k :: 0 <= k < |p| ==> outcomes[p[k]] == Prepared(cards[k]))
    && forall i: nat :: i < |outcomes| && outcomes[i].Prepared? ==> i in p
  }

  /** `effects` are the readable effects of navigations, likewise. */
  ghost predicate EffectsOf(effects: seq<string>, outcomes: seq<Outcome>) {
    exists p: seq<nat> :: EffectsAt(p, effects, outcomes)
  }

  predicate EffectsAt(p: seq<nat>, effects: seq<string>, outcomes: seq<Outcome>) {
    && |p| == |effects| && Places(p, |outcomes|)
    && (forall k :: 0 <= k < |p| ==> outcomes[p[k]].Nav? && outcomes[p[k]].effect == Some(effects[k]))
    && forall i: nat :: i < |outcomes| && outcomes[i].Nav? && outcomes[i].effect.Some? ==> i in p
  }

  /** The question is the one asked last, if any was. */
  predicate QuestionOf(question: Option<string>, outcomes: seq<Outcome>) {
    match question
    case None => forall o :: o in outcomes ==> !o.Question?
    case Some(text) =>
      exists i :: 0 <= i < |outcomes| && outcomes[i] == Question(text)
             && forall j :: i < j < |outcomes| ==> !outcomes[j].Question?
  }

  /** The navigation is the last one with a readable effect, if any had one. */
  predicate NavigationOf(navigation: Option<string>, outcomes: seq<Outcome>) {
    match navigation
    case None => forall o :: o in outcomes ==> !(o.Nav? && o.effect.Some?)
    case Some(json) =>
      exists i :: 0 <= i < |outcomes| && outcomes[i].Nav? && outcomes[i].effect.Some? && outcomes[i].json == json
             && forall j :: i < j < |outcomes| ==> !(outcomes[j].Nav? && outcomes[j].effect.Some?)
  }

  lemma OneMorePlace(p: seq<nat>, n: nat)
    requires Places(p, n)
    ensures Places(p, n + 1) && Places(p + [n], n + 1)
  {
  }

  lemma CardStep(p: seq<nat>, cards: seq<Card>, front: seq<Outcome>, o: Outcome)
    requires CardsAt(p, cards, front)
    ensures if o.Prepared? then CardsAt(p + [|front|], cards + [o.card], front + [o])
            else CardsAt(p, cards, front + [o])
  {
    OneMorePlace(p, |front|);
    var all := front + [o];
    assert forall i: nat :: i < |front| ==> all[i] == front[i];
    assert forall i: nat :: i in p ==> i in p + [|front|];
    assert |front| in p + [|front|];
  }

  lemma EffectStep(p: seq<nat>, effects: seq<string>, front: seq<Outcome>, o: Outcome)
    requires EffectsAt(p, effects, front)
    ensures if o.Nav? && o.effect.Some? then EffectsAt(p + [|front|], effects + [o.effect.value], front + [o])
            else EffectsAt(p, effects, front + [o])
  {
    OneMorePlace(p, |front|);
    var all := front + [o];
    assert forall i: nat :: i < |front| ==> all[i] == front[i];
    assert forall i: nat :: i in p ==> i in p + [|front|];
    assert |front| in p + [|front|];
  }

  lemma NoPlaces()
    ensures CardsAt([], [], []) && EffectsAt([], [], []) && Cards([]) == [] && Effects([]) == []
  {
  }

  lemma OneMoreOutcome(front: seq<Outcome>, o: Outcome)
    ensures Cards(front + [o]) == if o.Prepared? then Cards(front) + [o.card] else Cards(front)
    ensures Effects(front + [o])
         == if o.Nav? && o.effect.Some? then Effects(front) + [o.effect.value] else Effects(front)
  {
    assert (front + [o])[..|front|] == front;
    assert Cards(front) + [] == Cards(front) && Effects(front) + [] == Effects(front);
  }

  lemma {:induction false} CardsInOrder(outcomes: seq<Outcome>) returns (p: seq<nat>)
    ensures CardsAt(p, Cards(outcomes), outcomes)
    decreases |outcomes|
  {
    hide CardsAt, EffectsAt, Cards, Effects;
    NoPlaces();
    p := [];
    if outcomes != [] {
      var front, o := outcomes[..|outcomes| - 1], outcomes[|outcomes| - 1];
      assert front + [o] == outcomes;
      p := CardsInOrder(front);
      CardStep(p, Cards(front), front, o);
      OneMoreOutcome(front, o);
      p := if o.Prepared? then p + [|front|] else p;
    }
  }

  lemma {:induction false} EffectsInOrder(outcomes: seq<Outcome>) returns (p: seq<nat>)
    ensures EffectsAt(p, Effects(outcomes), outcomes)
    decreases |outcomes|
  {
    hide CardsAt, EffectsAt, Cards, Effects;
    NoPlaces();
    p := [];
    if outcomes != [] {
      var front, o := outcomes[..|outcomes| - 1], outcomes[|outcomes| - 1];
      assert front + [o] == outcomes;
      p := EffectsInOrder(front);
      EffectStep(p, Effects(front), front, o);
      OneMoreOutcome(front, o);
      p := if o.Nav? && o.effect.Some? then p + [|front|] else p;
    }
  }

  lemma {:induction false} LastOnesCount(outcomes: seq<Outcome>)
    ensures QuestionOf(LastQuestion(outcomes), outcomes) && NavigationOf(LastNavigation(outcomes), outcomes)
    decreases |outcomes|
  {
    if outcomes != [] {
      var n := |outcomes| - 1;
      LastOnesCount(outcomes[..n]);
      assert forall o :: o in outcomes <==> o in outcomes[..n] || o == outcomes[n];
      assert forall i :: 0 <= i < n ==> outcomes[..n][i] == outcomes[i];
    }
  }

  /** The model is told what a tool brought: the data itself, the card's title, the question or
      the error at the end of its note; of a navigation only that there is one. */
  lemma AnswerTells(o: Outcome)
    ensures o.Data? ==> AnswerText(o) == o.text
    ensures o.Prepared? || o.Question? || o.Failed? ==>
      var t := if o.Prepared? then o.card.title else if o.Question? then o.text else o.error;
      |AnswerText(o)| > |t| && AnswerText(o)[|AnswerText(o)| - |t|..] == t
    ensures o.Nav? ==> forall j, e :: AnswerText(Nav(j, e)) == AnswerText(o)
    ensures forall b: Outcome :: AnswerText(o) == AnswerText(b) ==>
      o.Data? || b.Data? || (o.Failed? <==> b.Failed?)
  {
    var s := AnswerText(o);
    assert o.Failed? ==> s[..8] == "Fehler: ";
    forall b: Outcome | !b.Data? && AnswerText(b) == s && !o.Data?
      ensures o.Failed? <==> b.Failed?
    {
      assert AnswerText(b)[0] == s[0];
    }
  }

  datatype Result = Result(answer: string, plan: Option<seq<Card>>, navigation: Option<string>, effects: seq<string>,
                           steps: seq<string>, question: Option<string>)

  lemma KeptOf(r: Record, initial: seq<Message>, w: World)
    requires Faithful(r, initial, w)
    ensures Kept(r)
  {
  }

  /** What the caller gets: None where the model failed; the plan is stored if `saved`. */
  method Run(initial: seq<Message>, w: World, lang: string, saved: bool) returns (result: Option<Result>, r: Record)
    ensures Faithful(r, initial, w) && Ended(r, w)
    ensures result.None? <==> r.ending.ModelFailed?
    ensures result.Some? ==>
      && result.value.answer == (if r.ending.Answered? then r.ending.answer
                                 else if lang == "en" then "Please split the request into smaller steps."
                                 else "Bitte teile den Auftrag in kleinere Schritte.")
      && result.value.plan == (if Cards(r.outcomes) != [] && saved then Some(Cards(r.outcomes)) else None)
      && result.value.steps == r.steps && result.value.effects == Effects(r.outcomes)
      && result.value.navigation == LastNavigation(r.outcomes) && result.value.question == LastQuestion(r.outcomes)
    ensures result.Some? ==>
      && (result.value.plan.Some? ==>
           saved && result.value.plan.value != [] && PlanOf(result.value.plan.value, r.outcomes))
      && (result.value.plan.None? ==> saved ==> PlanOf([], r.outcomes))
      && EffectsOf(result.value.effects, r.outcomes)
      && QuestionOf(result.value.question, r.outcomes) && NavigationOf(result.value.navigation, r.outcomes)
  {
    hide Cards, Effects, LastQuestion, LastNavigation, Turns, Calls, CardsAt, EffectsAt, QuestionOf, NavigationOf,
      Faithful, Ended;
    r := RunLoop(initial, w);
    KeptOf(r, initial, w);
    ghost var cardPlaces := CardsInOrder(r.outcomes);
    ghost var effectPlaces := EffectsInOrder(r.outcomes);
    assert PlanOf(Cards(r.outcomes), r.outcomes) && EffectsOf(Effects(r.outcomes), r.outcomes);
    LastOnesCount(r.outcomes);
    if r.ending.ModelFailed? {
      return None, r;
    }
    var answer := if r.ending.Answered? then r.ending.answer else SplitNote(lang);
    var plan := None;
    if r.cards != [] && saved {
      plan := Some(r.cards);
    }
    result := Some(Result(answer, plan, r.navigation, r.effects, r.steps, r.question));
  }
}
