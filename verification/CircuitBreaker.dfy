/** The circuit breaker in front of the language model. Times are ticks of one monotone
    clock, passed in where the code reads `Instant::now()` under its lock. */
module CircuitBreaker {
  datatype Circuit = Closed | Open(since: nat) | HalfOpen

  /** `CircuitBreakerInner` as a value. */
  datatype Breaker = Breaker(
    circuit: Circuit, failures: seq<nat>, permitted: bool,
    threshold: nat, window: nat, resetTimeout: nat)

  const SECOND: nat := 1_000_000_000

  const INITIAL: Breaker := Breaker(Closed, [], false, 3, 60 * SECOND, 60 * SECOND)

  /** `Instant::duration_since`, which saturates at zero. */
  function Since(now: nat, earlier: nat): nat {
    if now >= earlier then now - earlier else 0
  }

  /** The failures that `retain` keeps. */
  function Recent(failures: seq<nat>, now: nat, window: nat): (r: seq<nat>)
    ensures forall t :: t in r <==> t in failures && Since(now, t) < window
    ensures |r| <= |failures|
  {
    if failures == [] then []
    else
      var rest := Recent(failures[1..], now, window);
      if Since(now, failures[0]) < window then [failures[0]] + rest else rest
  }

  // ------------------------------------------------------------------- steps

  function Allow(b: Breaker, now: nat): (Breaker, bool) {
    match b.circuit
    case Closed => (b, true)
    case Open(since) =>
      if Since(now, since) >= b.resetTimeout
      then (b.(circuit := HalfOpen, permitted := true), true)
      else (b, false)
    case HalfOpen =>
      if b.permitted then (b.(permitted := false), true) else (b, false)
  }

  function Success(b: Breaker): Breaker {
    b.(circuit := Closed, failures := [], permitted := false)
  }

  function Failure(b: Breaker, now: nat): Breaker {
    var kept := Recent(b.failures + [now], now, b.window);
    if b.circuit.HalfOpen? || |kept| >= b.threshold
    then b.(circuit := Open(now), failures := kept, permitted := false)
    else b.(failures := kept)
  }

  /** `CircuitBreaker`; the lock makes each method one atomic step. */
  class CircuitBreaker {
    var circuit: Circuit
    var failures: seq<nat>
    var permitted: bool
    const threshold: nat
    const window: nat
    const resetTimeout: nat

    ghost function View(): Breaker
      reads this
    {
      Breaker(circuit, failures, permitted, threshold, window, resetTimeout)
    }

    constructor ()
      ensures View() == INITIAL
    {
      circuit, failures, permitted := Closed, [], false;
      threshold, window, resetTimeout := 3, 60 * SECOND, 60 * SECOND;
    }

    method AllowRequest(now: nat) returns (ok: bool)
      modifies this
      ensures (View(), ok) == Allow(old(View()), now)
    {
      match circuit {
        case Closed =>
          ok := true;
        case Open(since) =>
          if Since(now, since) >= resetTimeout {
            circuit := HalfOpen;
            permitted := true;
            ok := true;
          } else {
            ok := false;
          }
        case HalfOpen =>
          if permitted {
            permitted := false;
            ok := true;
          } else {
            ok := false;
          }
      }
    }

    method RecordSuccess()
      modifies this
      ensures View() == Success(old(View()))
    {
      circuit := Closed;
      failures := [];
      permitted := false;
    }

    method Reset()
      modifies this
      ensures View() == Success(old(View()))
    {
      circuit := Closed;
      failures := [];
      permitted := false;
    }

    method RecordFailure(now: nat)
      modifies this
      ensures View() == Failure(old(View()), now)
    {
      failures := failures + [now];
      Retain(now);
      if circuit.HalfOpen? {
        circuit := Open(now);
        permitted := false;
        return;
      }
      if |failures| >= threshold {
        circuit := Open(now);
        permitted := false;
      }
    }

    /** `failures.retain(|t| now.duration_since(*t) < window)`. */
    method Retain(now: nat)
      modifies this`failures
      ensures failures == Recent(old(failures), now, window)
    {
      var kept: seq<nat> := [];
      ghost var all := failures;
      for i := 0 to |failures|
        invariant failures == all
        invariant kept == Recent(all[..i], now, window)
      {
        RecentConcat(all[..i], [all[i]], now, window);
        assert all[..i + 1] == all[..i] + [all[i]];
        RecentOne(all[i], now, window);
        if Since(now, failures[i]) < window {
          kept := kept + [failures[i]];
        }
      }
      assert all[..|all|] == all;
      failures := kept;
    }
  }

  // ----------------------------------------------------------------- history

  /** One call on the breaker and the clock reading it saw. */
  datatype Event =
    | Ask(at: nat)
    | Worked(at: nat)
    | Failed(at: nat)
    | ManualReset(at: nat)

  function After(b: Breaker, e: Event): Breaker {
    match e
    case Ask(now) => Allow(b, now).0
    case Worked(_) => Success(b)
    case Failed(now) => Failure(b, now)
    case ManualReset(_) => Success(b)
  }

  function Run(b: Breaker, events: seq<Event>): Breaker {
    if events == [] then b
    else After(Run(b, events[..|events| - 1]), events[|events| - 1])
  }

  /** No event sees an earlier clock than one before it. */
  predicate Monotone(events: seq<Event>) {
    forall i, j :: 0 <= i < j < |events| ==> events[i].at <= events[j].at
  }

  /** Every failure since the last success or reset, nothing pruned. */
  function SinceReset(events: seq<Event>): seq<nat> {
    if events == [] then []
    else
      var past := SinceReset(events[..|events| - 1]);
      match events[|events| - 1]
      case Ask(_) => past
      case Worked(_) => []
      case Failed(now) => past + [now]
      case ManualReset(_) => []
  }

  /** The window as it stood at the last failure. */
  function LastFailure(events: seq<Event>): nat {
    if events == [] then 0
    else match events[|events| - 1]
      case Failed(now) => now
      case _ => LastFailure(events[..|events| - 1])
  }

  lemma {:induction false} RecentConcat(a: seq<nat>, b: seq<nat>, now: nat, window: nat)
    ensures Recent(a + b, now, window) == Recent(a, now, window) + Recent(b, now, window)
  {
    if a == [] {
      assert a + b == b;
    } else {
      assert (a + b)[1..] == a[1..] + b;
      RecentConcat(a[1..], b, now, window);
    }
  }

  lemma RecentOne(t: nat, now: nat, window: nat)
    ensures Recent([t], now, window) == if Since(now, t) < window then [t] else []
  {
    assert Recent([t][1..], now, window) == [];
  }

  /** Pruning at an earlier time first loses nothing that a later pruning keeps. */
  lemma {:induction false} RecentTwice(s: seq<nat>, t0: nat, t1: nat, window: nat)
    requires t0 <= t1
    ensures Recent(Recent(s, t0, window), t1, window) == Recent(s, t1, window)
  {
    if s != [] {
      RecentTwice(s[1..], t0, t1, window);
      var rest := Recent(s[1..], t0, window);
      RecentConcat([s[0]], rest, t1, window);
      RecentOne(s[0], t1, window);
    }
  }

  lemma {:induction false} LastFailureBound(events: seq<Event>, e: Event)
    requires Monotone(events + [e])
    ensures LastFailure(events) <= e.at
  {
    if events != [] {
      var n := |events| - 1;
      assert (events + [e])[n] == events[n] && (events + [e])[n + 1] == e;
      if !events[n].Failed? {
        assert Monotone(events[..n] + [e]) by {
          assert forall i :: 0 <= i < n ==> (events[..n] + [e])[i] == (events + [e])[i];
        }
        LastFailureBound(events[..n], e);
      }
    }
  }

  lemma NothingRecent(window: nat)
    ensures Recent([], 0, window) == [] && forall now :: Recent([], now, window) == []
  {
  }

  lemma MonotonePast(past: seq<Event>, e: Event)
    requires Monotone(past + [e])
    ensures Monotone(past)
  {
    assert forall i :: 0 <= i < |past| ==> (past + [e])[i] == past[i];
  }

  /** Over every run under a monotone clock the pruned list is exactly the failures since
      the last success or reset that the window held at the last failure, and a closed
      circuit holds fewer of them than the threshold. */
  lemma {:induction false} PrunedListIsWindow(events: seq<Event>)
    requires Monotone(events)
    ensures var b := Run(INITIAL, events);
            && b.failures == Recent(SinceReset(events), LastFailure(events), b.window)
            && b.window == INITIAL.window && b.threshold == 3 && b.resetTimeout == INITIAL.resetTimeout
            && (b.circuit.Closed? ==> |b.failures| < b.threshold)
  {
    hide Recent, Monotone;
    if events == [] {
      NothingRecent(INITIAL.window);
    } else {
      var n := |events| - 1;
      var past, e := events[..n], events[n];
      assert past + [e] == events;
      MonotonePast(past, e);
      PrunedListIsWindow(past);
      LastFailureBound(past, e);
      NothingRecent(INITIAL.window);
      var b := Run(INITIAL, past);
      if e.Failed? {
        RecentConcat(b.failures, [e.at], e.at, b.window);
        RecentConcat(SinceReset(past), [e.at], e.at, b.window);
        RecentTwice(SinceReset(past), LastFailure(past), e.at, b.window);
      }
    }
  }

  /** A failure opens the circuit from its own time on, exactly when the circuit was half-open or
      the full history since the last success or reset holds at least three failures in the
      window; else the circuit stays as it was. */
  lemma OpensExactlyAtThreshold(past: seq<Event>, now: nat)
    requires Monotone(past + [Failed(now)])
    ensures var all := past + [Failed(now)];
            var before, after := Run(INITIAL, past).circuit, Run(INITIAL, all).circuit;
            after == if before.HalfOpen? || |Recent(SinceReset(all), now, INITIAL.window)| >= 3 then Open(now)
                     else before
  {
    hide Recent, Monotone;
    var all := past + [Failed(now)];
    assert all[..|past|] == past;
    PrunedListIsWindow(all);
    PastIsMonotone(past, Failed(now));
    PrunedListIsWindow(past);
  }

  lemma PastIsMonotone(past: seq<Event>, e: Event)
    requires Monotone(past + [e])
    ensures Monotone(past)
  {
    MonotonePast(past, e);
  }

  /** A success or a reset closes the circuit in whatever state, and then everybody is let
      through until the next failure. */
  lemma {:induction false} SuccessCloses(past: seq<Event>, e: Event, asks: seq<Event>)
    requires (e.Worked? || e.ManualReset?) && OnlyAsked(asks)
    ensures var b := Run(INITIAL, past + [e]);
            && b.circuit.Closed? && b.failures == []
            && Run(b, asks) == b && Admitted(b, asks) == |asks|
    decreases |asks|
  {
    assert (past + [e])[..|past|] == past;
    if asks != [] {
      var n := |asks| - 1;
      assert asks[n] in asks;
      SuccessCloses(past, e, asks[..n]);
    }
  }

  /** The permission for a second call is there only while the circuit is half-open. */
  lemma {:induction false} PermissionOnlyHalfOpen(events: seq<Event>)
    ensures var b := Run(INITIAL, events); b.permitted ==> b.circuit.HalfOpen?
  {
    hide Recent;
    if events != [] {
      PermissionOnlyHalfOpen(events[..|events| - 1]);
    }
  }

  // -------------------------------------------------------------- admissions

  /** How many of the calls that asked were let through. */
  function Admitted(b: Breaker, events: seq<Event>): nat {
    if events == [] then 0
    else
      var past, e := events[..|events| - 1], events[|events| - 1];
      Admitted(b, past) + if e.Ask? && Allow(Run(b, past), e.at).1 then 1 else 0
  }

  /** Nobody has recorded an outcome or reset the breaker. */
  predicate OnlyAsked(events: seq<Event>) {
    forall e :: e in events ==> e.Ask?
  }

  /** From an open circuit, until the next recorded outcome or reset: at most two calls get
      through, none before the reset timeout, and the count can be read off the state. */
  lemma {:induction false} AtMostTwo(b: Breaker, events: seq<Event>)
    requires b.circuit.Open? && OnlyAsked(events)
    ensures var r := Run(b, events);
            && Admitted(b, events) <= 2
            && (Admitted(b, events) == 0 ==> r == b)
            && (Admitted(b, events) == 1 ==> r == b.(circuit := HalfOpen, permitted := true))
            && (Admitted(b, events) == 2 ==> r == b.(circuit := HalfOpen, permitted := false))
            && (Admitted(b, events) > 0 ==>
                 exists e :: e in events && Since(e.at, b.circuit.since) >= b.resetTimeout)
  {
    if events != [] {
      var n := |events| - 1;
      AtMostTwo(b, events[..n]);
      assert events[n] in events;
    }
  }

  /** The first `n` calls asked before the reset timeout was over. */
  predicate EarlyFirst(b: Breaker, events: seq<Event>, n: nat)
    requires b.circuit.Open? && n <= |events|
  {
    forall i :: 0 <= i < n ==> Since(events[i].at, b.circuit.since) < b.resetTimeout
  }

  /** From an open circuit, until the next recorded outcome or reset: nobody gets through
      exactly when every call asked before the timeout was over, and the promised single
      probe is kept exactly when every call but the last one did. */
  lemma {:induction false} OneProbeExactlyWhen(b: Breaker, events: seq<Event>)
    requires b.circuit.Open? && OnlyAsked(events)
    ensures Admitted(b, events) == 0 <==> EarlyFirst(b, events, |events|)
    ensures Admitted(b, events) <= 1 <==> EarlyFirst(b, events, if events == [] then 0 else |events| - 1)
  {
    if events != [] {
      var n := |events| - 1;
      var past := events[..n];
      OneProbeExactlyWhen(b, past);
      AtMostTwo(b, past);
      assert events[n] in events;
      assert forall i :: 0 <= i < n ==> past[i] == events[i];
      assert EarlyFirst(b, events, n) <==> EarlyFirst(b, past, n);
      assert EarlyFirst(b, events, n + 1) <==>
        EarlyFirst(b, events, n) && Since(events[n].at, b.circuit.since) < b.resetTimeout;
    }
  }

  /** The comment promises one probe; the circuit lets two calls through: the one that
      makes it half-open and the one that uses the permission. */
  lemma TwoAreAdmitted(b: Breaker, at: nat, later: nat)
    requires b.circuit.Open? && Since(at, b.circuit.since) >= b.resetTimeout
    ensures Admitted(b, [Ask(at), Ask(later)]) == 2
  {
    var one, two := [Ask(at)], [Ask(at), Ask(later)];
    assert one[..0] == [] && two[..1] == one;
    assert Admitted(b, one) == Admitted(b, []) + 1;
  }
}
