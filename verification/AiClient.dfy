/** Callers of the language model: breaker first, then the one-permit semaphore. */
module AiClient {
  import opened Text
  import B = CircuitBreaker

  type Id = nat

  datatype Result<+T> = Ok(value: T) | Err(message: string)

  const REJECTED: string := "rejected"
  const BUSY: string := "busy"

  // ------------------------------------------------------------- one caller

  /** `complete_user`: `permit` says whether the semaphore came within the bounded wait,
      `reply` what the model call returned; the two clock readings are those of the breaker. */
  method CompleteUser(breaker: B.CircuitBreaker, asked: nat, permit: bool, reply: Result<string>, done: nat)
    returns (r: Result<string>)
    modifies breaker
    ensures breaker.View() == B.Run(old(breaker.View()), Trace(old(breaker.View()), asked, permit, reply.Ok?, done))
    ensures r == if !B.Allow(old(breaker.View()), asked).1 then Err(REJECTED) else if !permit then Err(BUSY) else reply
  {
    ghost var before := breaker.View();
    TraceRuns(before, asked, permit, reply.Ok?, done);
    var ok := breaker.AllowRequest(asked);
    if !ok {
      return Err(REJECTED);
    }
    if !permit {
      return Err(BUSY);
    }
    match reply {
      case Ok(_) =>
        breaker.RecordSuccess();
      case Err(_) =>
        breaker.RecordFailure(done);
    }
    r := reply;
  }

  /** `complete_background`: skips instead of waiting. */
  method CompleteBackground(breaker: B.CircuitBreaker, asked: nat, permit: bool, reply: Result<string>, done: nat)
    returns (r: Option<Result<string>>)
    modifies breaker
    ensures breaker.View() == B.Run(old(breaker.View()), Trace(old(breaker.View()), asked, permit, reply.Ok?, done))
    ensures r == if B.Allow(old(breaker.View()), asked).1 && permit then Some(reply) else None
  {
    ghost var before := breaker.View();
    TraceRuns(before, asked, permit, reply.Ok?, done);
    var ok := breaker.AllowRequest(asked);
    if !ok {
      return None;
    }
    if !permit {
      return None;
    }
    if reply.Ok? {
      breaker.RecordSuccess();
    } else {
      breaker.RecordFailure(done);
    }
    r := Some(reply);
  }

  /** What one call does to the breaker when nobody comes between: it always asks, and
      records exactly one outcome when it was let through and got the permit. */
  function Trace(b: B.Breaker, asked: nat, permit: bool, worked: bool, done: nat): seq<B.Event> {
    if B.Allow(b, asked).1 && permit
    then [B.Ask(asked), if worked then B.Worked(done) else B.Failed(done)]
    else [B.Ask(asked)]
  }

  lemma TraceRuns(b: B.Breaker, asked: nat, permit: bool, worked: bool, done: nat)
    ensures B.Run(b, Trace(b, asked, permit, worked, done))
         == var b' := B.Allow(b, asked).0;
            if !B.Allow(b, asked).1 || !permit then b'
            else if worked then B.Success(b') else B.Failure(b', done)
  {
    var t := Trace(b, asked, permit, worked, done);
    assert [B.Ask(asked)][..0] == [];
    assert B.Run(b, [B.Ask(asked)]) == B.After(B.Run(b, []), B.Ask(asked));
    if |t| == 2 {
      assert t[..1] == [B.Ask(asked)];
    }
  }

  // ------------------------------------------------------------ interleavings

  /** The permit and whether its holder still has to record an outcome. */
  datatype Permit = Free | Held(holder: Id, owes: bool)

  /** `waiting` are the admitted callers without the permit. */
  datatype State = State(breaker: B.Breaker, waiting: set<Id>, permit: Permit)

  const START: State := State(B.INITIAL, {}, Free)

  datatype Step =
    | Arrive(id: Id, at: nat)           // asks the breaker
    | Acquire(id: Id)                   // gets the semaphore
    | Leave(id: Id)                     // busy: times out or skips, records nothing
    | Record(worked: bool, at: nat)     // the holder records its outcome
    | Release                           // the holder drops the permit
    | Cancel(id: Id)                    // the caller's task is dropped (agent time limit)
    | Reset(at: nat)                    // the user resets the breaker

  predicate Enabled(s: State, step: Step) {
    match step
    case Arrive(id, _) => id !in s.waiting && !(s.permit.Held? && s.permit.holder == id)
    case Acquire(id) => id in s.waiting && s.permit.Free?
    case Leave(id) => id in s.waiting && s.permit.Held?
    case Record(_, _) => s.permit.Held? && s.permit.owes
    case Release => s.permit.Held? && !s.permit.owes
    case Cancel(id) => id in s.waiting || (s.permit.Held? && s.permit.holder == id)
    case Reset(_) => true
  }

  function Next(s: State, step: Step): State
    requires Enabled(s, step)
  {
    match step
    case Arrive(id, at) =>
      var (b, ok) := B.Allow(s.breaker, at);
      State(b, if ok then s.waiting + {id} else s.waiting, s.permit)
    case Acquire(id) => State(s.breaker, s.waiting - {id}, Held(id, true))
    case Leave(id) => s.(waiting := s.waiting - {id})
    case Record(worked, at) =>
      State(if worked then B.Success(s.breaker) else B.Failure(s.breaker, at),
            s.waiting, s.permit.(owes := false))
    case Release => s.(permit := Free)
    case Cancel(id) =>
      if id in s.waiting then s.(waiting := s.waiting - {id}) else s.(permit := Free)
    case Reset(_) => s.(breaker := B.Success(s.breaker))
  }

  ghost predicate Runs(s: State, steps: seq<Step>)
    decreases |steps|
  {
    steps == [] || (Enabled(s, steps[0]) && Runs(Next(s, steps[0]), steps[1..]))
  }

  ghost function End(s: State, steps: seq<Step>): State
    requires Runs(s, steps)
    decreases |steps|
  {
    if steps == [] then s else End(Next(s, steps[0]), steps[1..])
  }

  /** A holder is never also waiting. */
  predicate Valid(s: State) {
    s.permit.Held? ==> s.permit.holder !in s.waiting
  }

  lemma StaysValid(s: State, step: Step)
    requires Valid(s) && Enabled(s, step)
    ensures Valid(Next(s, step))
  {
  }

  /** Admitted callers that will still record an outcome if they go on. */
  function Owing(s: State): set<Id> {
    s.waiting + if s.permit.Held? && s.permit.owes then {s.permit.holder} else {}
  }

  /** Half-open, the permission used up, and nobody left who could record an outcome. */
  predicate Latched(s: State) {
    && s.breaker.circuit.HalfOpen? && !s.breaker.permitted
    && s.waiting == {} && !(s.permit.Held? && s.permit.owes)
  }

  /** The one way to get stuck: the last caller who owes an outcome goes without one. */
  lemma LatchesExactlyWhen(s: State, step: Step)
    requires Valid(s) && Enabled(s, step) && !Latched(s)
    ensures Latched(Next(s, step))
       <==> && s.breaker.circuit.HalfOpen? && !s.breaker.permitted
            && (step.Leave? || step.Cancel?) && Owing(s) == {step.id}
  {
    var s' := Next(s, step);
    if step.Leave? || step.Cancel? {
      if Owing(s) == {step.id} {
        assert s'.waiting <= {step.id} - {step.id};
        assert s.permit.Held? && s.permit.owes ==> s.permit.holder in Owing(s);
      }
    } else if step.Arrive? && B.Allow(s.breaker, step.at).1 {
      assert step.id in s'.waiting;
    }
  }

  /** Nobody is cancelled, and who gives up does so while the holder is still at work. */
  predicate Patient(s: State, step: Step) {
    !step.Cancel? && (step.Leave? ==> s.permit.Held? && s.permit.owes)
  }

  ghost predicate PatientRun(s: State, steps: seq<Step>)
    requires Runs(s, steps)
    decreases |steps|
  {
    steps == [] || (Patient(s, steps[0]) && PatientRun(Next(s, steps[0]), steps[1..]))
  }

  /** In every patient run, whatever the interleaving, the breaker never latches. */
  lemma {:induction false} NeverLatches(s: State, steps: seq<Step>)
    requires Valid(s) && !Latched(s)
    requires Runs(s, steps) && PatientRun(s, steps)
    ensures Valid(End(s, steps)) && !Latched(End(s, steps))
    decreases |steps|
  {
    if steps != [] {
      LatchesExactlyWhen(s, steps[0]);
      StaysValid(s, steps[0]);
      if steps[0].Leave? {
        assert s.permit.holder in Owing(s) && s.permit.holder != steps[0].id;
      }
      NeverLatches(Next(s, steps[0]), steps[1..]);
    }
  }

  /** A latched breaker lets nobody through again until a user resets it. */
  lemma {:induction false} LatchedUntilReset(s: State, steps: seq<Step>)
    requires Latched(s) && Runs(s, steps)
    requires forall step :: step in steps ==> !step.Reset?
    ensures Latched(End(s, steps)) && End(s, steps).breaker == s.breaker
    decreases |steps|
  {
    if steps != [] {
      assert steps[0] in steps;
      assert Next(s, steps[0]).breaker == s.breaker;
      assert Latched(Next(s, steps[0]));
      LatchedUntilReset(Next(s, steps[0]), steps[1..]);
    }
  }

  // -------------------------------------------------- runs that do get stuck

  lemma {:induction false} RunsConcat(s: State, a: seq<Step>, b: seq<Step>)
    requires Runs(s, a) && Runs(End(s, a), b)
    ensures Runs(s, a + b) && End(s, a + b) == End(End(s, a), b)
    decreases |a|
  {
    if a == [] {
      assert a + b == b;
    } else {
      assert (a + b)[1..] == a[1..] + b;
      RunsConcat(Next(s, a[0]), a[1..], b);
    }
  }

  /** One failing call, start to end, at time `at`. */
  function FailingCall(id: Id, at: nat): seq<Step> {
    [Arrive(id, at), Acquire(id), Record(false, at), Release]
  }

  lemma FailingCallRuns(s: State, id: Id, at: nat)
    requires s.permit.Free? && id !in s.waiting && B.Allow(s.breaker, at).1
    ensures Runs(s, FailingCall(id, at))
    ensures End(s, FailingCall(id, at))
         == State(B.Failure(B.Allow(s.breaker, at).0, at), s.waiting, Free)
  {
    var t := FailingCall(id, at);
    var s1 := Next(s, t[0]);
    assert Enabled(s1, t[1]);
    var s2 := Next(s1, t[1]);
    assert s2.waiting == s.waiting;
    var s3 := Next(s2, t[2]);
    var s4 := Next(s3, t[3]);
    assert t[3..] == [t[3]] && t[3..][1..] == [] && t[2..][1..] == t[3..] && t[1..][1..] == t[2..];
    assert Runs(s4, []) && End(s4, []) == s4;
    assert Runs(s3, t[3..]) && End(s3, t[3..]) == s4;
    assert Runs(s2, t[2..]) && End(s2, t[2..]) == s4;
    assert Runs(s1, t[1..]) && End(s1, t[1..]) == s4;
  }

  /** Two calls let through after the timeout and cancelled (or gone while the holder has
      recorded but not released) leave the breaker latched. */
  function Probes(y: Id, z: Id, at: nat, cancel: bool): seq<Step> {
    [Arrive(y, at), Arrive(z, at),
     if cancel then Cancel(y) else Leave(y), if cancel then Cancel(z) else Leave(z)]
  }

  lemma ProbesLatch(s: State, y: Id, z: Id, at: nat, cancel: bool)
    requires s.breaker.circuit.Open? && B.Since(at, s.breaker.circuit.since) >= s.breaker.resetTimeout
    requires s.waiting == {} && y != z
    requires cancel || s.permit.Held?
    requires s.permit.Held? ==> !s.permit.owes && s.permit.holder != y && s.permit.holder != z
    ensures var t := Probes(y, z, at, cancel);
            Runs(s, t) && Latched(End(s, t))
  {
    var t := Probes(y, z, at, cancel);
    var s1 := Next(s, t[0]);
    var s2 := Next(s1, t[1]);
    assert s2.waiting == {y, z} && Enabled(s2, t[2]);
    var s3 := Next(s2, t[2]);
    assert s3.waiting == {z} && Enabled(s3, t[3]);
    var s4 := Next(s3, t[3]);
    assert s4.waiting == {};
    assert t[3..] == [t[3]] && t[3..][1..] == [] && t[2..][1..] == t[3..] && t[1..][1..] == t[2..];
    assert Runs(s4, []) && End(s4, []) == s4;
    assert Runs(s3, t[3..]) && End(s3, t[3..]) == s4;
    assert Runs(s2, t[2..]) && End(s2, t[2..]) == s4;
    assert Runs(s1, t[1..]) && End(s1, t[1..]) == s4;
  }

  /** The breaker after 1, 2 and 3 failures at time 0. */
  function Failures(n: nat): B.Breaker
    requires 1 <= n <= 3
  {
    B.INITIAL.(failures := [[0], [0, 0], [0, 0, 0]][n - 1],
               circuit := if n == 3 then B.Open(0) else B.Closed)
  }

  lemma RecentAtZero(n: nat)
    requires 1 <= n <= 3
    ensures B.Recent(Failures(n).failures, 0, B.INITIAL.window) == Failures(n).failures
  {
    var w := B.INITIAL.window;
    B.RecentOne(0, 0, w);
    if n > 1 {
      RecentAtZero(n - 1);
      B.RecentConcat(Failures(n - 1).failures, [0], 0, w);
      assert Failures(n).failures == Failures(n - 1).failures + [0];
    }
  }

  lemma FailuresCount()
    ensures B.Failure(B.INITIAL, 0) == Failures(1)
    ensures B.Failure(Failures(1), 0) == Failures(2)
    ensures B.Failure(Failures(2), 0) == Failures(3)
  {
    RecentAtZero(1);
    RecentAtZero(2);
    RecentAtZero(3);
    assert B.INITIAL.failures + [0] == Failures(1).failures;
    assert Failures(1).failures + [0] == Failures(2).failures;
    assert Failures(2).failures + [0] == Failures(3).failures;
  }

  /** Two failing calls at time 0. */
  lemma TwoFailures()
    ensures var one := FailingCall(1, 0);
            Runs(START, one + one) && End(START, one + one) == State(Failures(2), {}, Free)
  {
    var one := FailingCall(1, 0);
    FailuresCount();
    FailingCallRuns(START, 1, 0);
    FailingCallRuns(State(Failures(1), {}, Free), 1, 0);
    RunsConcat(START, one, one);
  }

  /** A third one opens the circuit. */
  lemma OpeningRun() returns (steps: seq<Step>)
    ensures Runs(START, steps) && End(START, steps) == State(Failures(3), {}, Free)
  {
    var one := FailingCall(1, 0);
    TwoFailures();
    FailuresCount();
    FailingCallRuns(State(Failures(2), {}, Free), 1, 0);
    RunsConcat(START, one + one, one);
    steps := one + one + one;
  }

  /** The third one, with another caller let through while it holds the permit. */
  function Overtaken(): seq<Step> {
    [Arrive(1, 0), Acquire(1), Arrive(9, 0), Record(false, 0), Release]
  }

  lemma OvertakenStarts()
    ensures var s, t := State(Failures(2), {}, Free), Overtaken();
            && Enabled(s, t[0]) && Next(s, t[0]) == State(Failures(2), {1}, Free)
            && Enabled(Next(s, t[0]), t[1])
            && Next(Next(s, t[0]), t[1]) == State(Failures(2), {}, Held(1, true))
  {
  }

  lemma OvertakenGoesOn()
    ensures var s, t := State(Failures(2), {}, Held(1, true)), Overtaken();
            && Enabled(s, t[2]) && Next(s, t[2]) == State(Failures(2), {9}, Held(1, true))
            && Enabled(Next(s, t[2]), t[3])
            && Next(Next(s, t[2]), t[3]) == State(Failures(3), {9}, Held(1, false))
  {
    FailuresCount();
  }

  lemma OvertakenRuns()
    ensures var s, t := State(Failures(2), {}, Free), Overtaken();
            Runs(s, t) && End(s, t) == State(Failures(3), {9}, Free)
  {
    hide Failures, Next, Enabled;
    var t := Overtaken();
    OvertakenStarts();
    OvertakenGoesOn();
    assert t[1..][1..] == t[2..] && t[2..][1..] == t[3..] && t[3..][1..] == t[4..] && t[4..][1..] == [];
    var s4, s5 := State(Failures(3), {9}, Held(1, false)), State(Failures(3), {9}, Free);
    ReleaseRuns(s4, s5, t[4..]);
    var s3, s2, s1 := State(Failures(2), {9}, Held(1, true)), State(Failures(2), {}, Held(1, true)),
      State(Failures(2), {1}, Free);
    assert Runs(s3, t[3..]) && End(s3, t[3..]) == s5;
    assert Runs(s2, t[2..]) && End(s2, t[2..]) == s5;
    assert Runs(s1, t[1..]) && End(s1, t[1..]) == s5;
  }

  lemma ReleaseRuns(s: State, s': State, t: seq<Step>)
    requires t == [Release] && s.permit.Held? && !s.permit.owes && s' == s.(permit := Free)
    ensures Runs(s, t) && End(s, t) == s'
  {
    assert t[1..] == [] && Runs(s', []) && End(s', []) == s';
  }

  lemma OpeningRunWithWaiter() returns (steps: seq<Step>)
    ensures forall step :: step in steps ==> !step.Cancel?
    ensures Runs(START, steps) && End(START, steps) == State(Failures(3), {9}, Free)
  {
    hide Failures, Runs, End;
    var one := FailingCall(1, 0);
    TwoFailures();
    OvertakenRuns();
    RunsConcat(START, one + one, Overtaken());
    steps := one + one + Overtaken();
  }

  /** From the start: the circuit opens, a minute later two callers are let through and
      both tasks are cancelled. */
  lemma CancellationLatches()
    ensures exists steps :: Runs(START, steps) && Latched(End(START, steps))
  {
    var opening := OpeningRun();
    var probes := Probes(1, 2, 60 * B.SECOND, true);
    ProbesLatch(End(START, opening), 1, 2, 60 * B.SECOND, true);
    RunsConcat(START, opening, probes);
  }

  lemma LateRecord(late: nat)
    requires late == 60 * B.SECOND
    ensures var s, tail := State(Failures(3), {9}, Free), [Acquire(9), Record(false, late)];
            && Runs(s, tail)
            && End(s, tail) == State(Failures(3).(failures := [late]), {}, Held(9, false))
  {
    LateFailure(late);
    var s1, s2 := State(Failures(3), {9}, Free), State(Failures(3), {}, Held(9, true));
    var s3 := State(Failures(3).(failures := [late]), {}, Held(9, false));
    var tail := [Acquire(9), Record(false, late)];
    assert Next(s1, tail[0]) == s2 && Next(s2, tail[1]) == s3;
    assert tail[1..] == [Record(false, late)] && tail[1..][1..] == [];
    assert Runs(s3, []) && End(s3, []) == s3;
    assert Runs(s2, tail[1..]) && End(s2, tail[1..]) == s3;
  }

  lemma LateFailure(late: nat)
    requires late == B.INITIAL.window
    ensures B.Failure(Failures(3), late) == Failures(3).(failures := [late])
  {
    B.RecentOne(0, late, late);
    B.RecentOne(late, late, late);
    B.RecentConcat([0], [0], late, late);
    assert [0] + [0] == [0, 0];
    B.RecentConcat([0, 0], [0], late, late);
    assert [0, 0] + [0] == [0, 0, 0];
    B.RecentConcat([0, 0, 0], [late], late, late);
  }

  /** Without any cancellation: a call let through while another one's failure opens the
      circuit gets the permit next and fails a minute later, which leaves the circuit open with
      its old time; before that holder drops the permit, two callers are let through, find the
      model busy and go. */
  lemma LateLeaveLatches()
    ensures exists steps: seq<Step> :: Runs(START, steps) && Latched(End(START, steps))
              && forall step :: step in steps ==> !step.Cancel?
  {
    var late := 60 * B.SECOND;
    var opening := OpeningRunWithWaiter();
    var s1 := State(Failures(3), {9}, Free);
    var tail := [Acquire(9), Record(false, late)];
    var s3 := State(Failures(3).(failures := [late]), {}, Held(9, false));
    LateRecord(late);
    assert Runs(s1, tail) && End(s1, tail) == s3;
    RunsConcat(START, opening, tail);
    var probes := Probes(1, 2, late, false);
    ProbesLatch(s3, 1, 2, late, false);
    RunsConcat(START, opening + tail, probes);
  }

  // --------------------------------------- the breaker inside the interleaving

  /** What the steps mean to the breaker. */
  function Events(steps: seq<Step>): seq<B.Event> {
    if steps == [] then []
    else
      (match steps[0]
       case Arrive(_, at) => [B.Ask(at)]
       case Record(worked, at) => [if worked then B.Worked(at) else B.Failed(at)]
       case Reset(at) => [B.ManualReset(at)]
       case _ => []) + Events(steps[1..])
  }

  lemma {:induction false} RunFront(b: B.Breaker, e: B.Event, rest: seq<B.Event>)
    ensures B.Run(b, [e] + rest) == B.Run(B.After(b, e), rest)
  {
    var all := [e] + rest;
    if rest == [] {
      assert all[..0] == [];
    } else {
      var n := |rest| - 1;
      assert all[..|all| - 1] == [e] + rest[..n];
      RunFront(b, e, rest[..n]);
    }
  }

  /** Every interleaving drives the breaker through a run of its own, so the bounds proved
      there hold here. */
  lemma {:induction false} InterleavingIsBreakerRun(s: State, steps: seq<Step>)
    requires Runs(s, steps)
    ensures End(s, steps).breaker == B.Run(s.breaker, Events(steps))
    decreases |steps|
  {
    if steps != [] {
      var s' := Next(s, steps[0]);
      InterleavingIsBreakerRun(s', steps[1..]);
      var rest := Events(steps[1..]);
      match steps[0]
      case Arrive(_, at) => RunFront(s.breaker, B.Ask(at), rest);
      case Record(worked, at) =>
        RunFront(s.breaker, if worked then B.Worked(at) else B.Failed(at), rest);
      case Reset(at) => RunFront(s.breaker, B.ManualReset(at), rest);
      case _ => assert Events(steps) == rest;
    }
  }

  lemma {:induction false} OnlyAsks(steps: seq<Step>)
    requires forall step :: step in steps ==> !step.Record? && !step.Reset?
    ensures B.OnlyAsked(Events(steps))
  {
    if steps != [] {
      assert steps[0] in steps;
      assert forall step :: step in steps[1..] ==> step in steps;
      OnlyAsks(steps[1..]);
    }
  }

  /** Between an opening and the next recorded outcome or reset, every interleaving lets at
      most two callers through, and none before the reset timeout. */
  lemma AtMostTwoAdmitted(s: State, steps: seq<Step>)
    requires Runs(s, steps) && s.breaker.circuit.Open?
    requires forall step :: step in steps ==> !step.Record? && !step.Reset?
    ensures B.Admitted(s.breaker, Events(steps)) <= 2
    ensures || End(s, steps).breaker == s.breaker
            || (exists e :: e in Events(steps) &&
                 B.Since(e.at, s.breaker.circuit.since) >= s.breaker.resetTimeout)
  {
    OnlyAsks(steps);
    InterleavingIsBreakerRun(s, steps);
    B.AtMostTwo(s.breaker, Events(steps));
  }

  /** The same in every interleaving, where the events are the arrivals in order: nobody is
      let through exactly when all arrive before the timeout is over, and only one probe is
      exactly when all but the last one do. */
  lemma OneProbeExactlyWhen(s: State, steps: seq<Step>)
    requires Runs(s, steps) && s.breaker.circuit.Open?
    requires forall step :: step in steps ==> !step.Record? && !step.Reset?
    ensures var arrivals := Events(steps);
            && (B.Admitted(s.breaker, arrivals) == 0 <==> B.EarlyFirst(s.breaker, arrivals, |arrivals|))
            && (B.Admitted(s.breaker, arrivals) <= 1 <==>
                  B.EarlyFirst(s.breaker, arrivals, if arrivals == [] then 0 else |arrivals| - 1))
            && (End(s, steps).breaker == s.breaker <==> B.EarlyFirst(s.breaker, arrivals, |arrivals|))
  {
    OnlyAsks(steps);
    InterleavingIsBreakerRun(s, steps);
    B.AtMostTwo(s.breaker, Events(steps));
    B.OneProbeExactlyWhen(s.breaker, Events(steps));
  }
}
