/**
 The circuit breaker.  The callback runs outside the lock, so a run is any interleaving of
 admissions and of reports that arrive late, or from calls admitted long before.
 */
module CircuitBreaker {
  import opened Common

  datatype State = Closed | Open | HalfOpen

  datatype Breaker = Breaker(state: State, failures: nat, threshold: int, timeoutMs: nat, lastFailure: nat)

  /** One locked region: the admission of a call, or the report of a result. */
  datatype Event = Call(now: nat) | Succeeded(now: nat) | Failed(now: nat)

  function Start(threshold: int, timeoutMs: nat): Breaker {
    Breaker(Closed, 0, threshold, timeoutMs, 0)
  }

  /** Whether a call is let through to the callback. */
  predicate Starts(b: Breaker, now: nat) {
    b.state.Open? ==> now - b.lastFailure > b.timeoutMs
  }

  function Step(b: Breaker, e: Event): Breaker {
    match e
    case Call(now) => if b.state.Open? && Starts(b, now) then b.(state := HalfOpen) else b
    case Succeeded(_) => if b.state.HalfOpen? then b.(state := Closed, failures := 0) else b
    case Failed(now) =>
      var n := b.failures + 1;
      b.(failures := n, lastFailure := now, state := if n >= b.threshold then Open else b.state)
  }

  function After(b: Breaker, events: seq<Event>): Breaker {
    if events == [] then b else Step(After(b, events[..|events| - 1]), events[|events| - 1])
  }

  predicate Ordered(events: seq<Event>) {
    forall i, j :: 0 <= i < j < |events| ==> events[i].now <= events[j].now
  }

  // ----- The breaker object -----

  class CircuitBreaker {
    var state: State
    var failureCount: nat
    const failureThreshold: int
    const timeoutMs: nat
    var lastFailureTime: nat

    ghost function Model(): Breaker
      reads this
    {
      Breaker(state, failureCount, failureThreshold, timeoutMs, lastFailureTime)
    }

    constructor (threshold: int, timeoutMs: nat)
      ensures Model() == Start(threshold, timeoutMs)
    {
      state, failureCount, lastFailureTime := Closed, 0, 0;
      failureThreshold, this.timeoutMs := threshold, timeoutMs;
    }

    /** The locked head of a call: Success means that the callback is started. */
    method Admit(now: nat) returns (status: Status)
      requires lastFailureTime <= now
      modifies this`state
      ensures Model() == Step(old(Model()), Call(now))
      ensures status == if old(state).Open? && now <= old(lastFailureTime) + timeoutMs then Timeout else Success
      ensures status == Success <==> Starts(old(Model()), now)
    {
      if state.Open? {
        if now - lastFailureTime > timeoutMs {
          state := HalfOpen;
        } else {
          return Timeout;
        }
      }
      return Success;
    }

    method RecordSuccess(now: nat)
      modifies this`state, this`failureCount
      ensures Model() == Step(old(Model()), Succeeded(now))
    {
      if state.HalfOpen? {
        state := Closed;
        failureCount := 0;
      }
    }

    method RecordFailure(now: nat)
      modifies this`state, this`failureCount, this`lastFailureTime
      ensures Model() == Step(old(Model()), Failed(now))
    {
      failureCount := failureCount + 1;
      lastFailureTime := now;
      if failureCount >= failureThreshold {
        state := Open;
      }
    }
  }

  // ----- What the events alone say -----

  /** Time of the last reported failure; 0 when there was none. */
  function LastFailed(events: seq<Event>): nat {
    if events == [] then 0
    else if events[|events| - 1].Failed? then events[|events| - 1].now
    else LastFailed(events[..|events| - 1])
  }

  /** Since the last failure a call came later than the timeout after it. */
  predicate Probing(events: seq<Event>, timeoutMs: nat) {
    if events == [] then false
    else
      var n := |events| - 1;
      match events[n]
      case Failed(_) => false
      case Call(now) => Probing(events[..n], timeoutMs) || now > LastFailed(events[..n]) + timeoutMs
      case Succeeded(_) => Probing(events[..n], timeoutMs)
  }

  /** Failures it takes to open the breaker; even with a threshold below one it takes one. */
  function Trip(threshold: int): nat {
    if threshold < 1 then 1 else threshold
  }

  /**
   Failures since creation or since the last success that closed the breaker: one that answers a probe
   after enough failures to open it.
   */
  function FailuresSince(events: seq<Event>, threshold: int, timeoutMs: nat): nat {
    if events == [] then 0
    else
      var n := |events| - 1;
      var before := FailuresSince(events[..n], threshold, timeoutMs);
      match events[n]
      case Failed(_) => before + 1
      case Call(_) => before
      case Succeeded(_) => if before >= Trip(threshold) && Probing(events[..n], timeoutMs) then 0 else before
  }

  /** The breaker after any events, told without running it. */
  function Told(events: seq<Event>, threshold: int, timeoutMs: nat): Breaker {
    var n := FailuresSince(events, threshold, timeoutMs);
    var state := if n < Trip(threshold) then Closed else if Probing(events, timeoutMs) then HalfOpen else Open;
    Breaker(state, n, threshold, timeoutMs, LastFailed(events))
  }

  /** In every interleaving the breaker is what its events say. */
  lemma {:induction false} StateIs(threshold: int, timeoutMs: nat, events: seq<Event>)
    ensures After(Start(threshold, timeoutMs), events) == Told(events, threshold, timeoutMs)
  {
    if events != [] { StateIs(threshold, timeoutMs, events[..|events| - 1]); }
  }

  lemma {:induction false} ProbeIsLate(events: seq<Event>, timeoutMs: nat, now: nat)
    requires Ordered(events) && Probing(events, timeoutMs) && events[|events| - 1].now <= now
    ensures now > LastFailed(events) + timeoutMs
  {
    var n := |events| - 1;
    if Probing(events[..n], timeoutMs) { ProbeIsLate(events[..n], timeoutMs, now); }
  }

  /**
   A call is refused exactly when there have been enough failures since the last close and the timeout after
   the last of them is not over; with fewer failures no call is ever refused.
   */
  lemma RefusedIff(threshold: int, timeoutMs: nat, events: seq<Event>, now: nat)
    requires Ordered(events + [Call(now)])
    ensures !Starts(After(Start(threshold, timeoutMs), events), now) <==>
      FailuresSince(events, threshold, timeoutMs) >= Trip(threshold) && now <= LastFailed(events) + timeoutMs
  {
    StateIs(threshold, timeoutMs, events);
    assert forall i :: 0 <= i < |events| ==> (events + [Call(now)])[i] == events[i];
    assert events != [] ==> events[|events| - 1].now <= (events + [Call(now)])[|events|].now;
    if Probing(events, timeoutMs) { ProbeIsLate(events, timeoutMs, now); }
  }

  // ----- Counting failures -----

  /** Failures reported since creation or since the breaker last became closed. */
  function SinceClose(b: Breaker, events: seq<Event>): nat {
    if events == [] then 0
    else
      var n := |events| - 1;
      var before, after := After(b, events[..n]).state, After(b, events).state;
      if !before.Closed? && after.Closed? then 0
      else SinceClose(b, events[..n]) + if events[n].Failed? then 1 else 0
  }

  ghost predicate ClosedBelow(b: Breaker) {
    b.state.Closed? <==> b.failures < b.threshold
  }

  /** In every interleaving the count is that of the failures since the last close, and it alone decides CLOSED. */
  lemma {:induction false} FailureCount(threshold: int, timeoutMs: nat, events: seq<Event>)
    requires threshold >= 1
    ensures var b := After(Start(threshold, timeoutMs), events);
      && b.failures == SinceClose(Start(threshold, timeoutMs), events)
      && ClosedBelow(b) && b.threshold == threshold && b.timeoutMs == timeoutMs
  {
    if events != [] {
      FailureCount(threshold, timeoutMs, events[..|events| - 1]);
    }
  }

  /** That CLOSED means "fewer failures than the threshold" in all runs takes a threshold of at least one. */
  lemma ClosedBelowIff(threshold: int, timeoutMs: nat)
    ensures (forall events :: ClosedBelow(After(Start(threshold, timeoutMs), events))) <==> threshold >= 1
  {
    if threshold >= 1 {
      forall events ensures ClosedBelow(After(Start(threshold, timeoutMs), events)) {
        FailureCount(threshold, timeoutMs, events);
      }
    } else {
      assert !ClosedBelow(After(Start(threshold, timeoutMs), []));
    }
  }

  // ----- Timing -----

  /** After a failure at `t` that leaves the breaker open, no callback starts up to and including t + timeout. */
  lemma {:induction false} NoStartDuringTimeout(b: Breaker, events: seq<Event>, i: nat, now: nat)
    requires Ordered(events) && i < |events| && events[i].Failed? && After(b, events[..i + 1]).state.Open?
    requires events[|events| - 1].now <= now <= events[i].now + b.timeoutMs
    ensures var end := After(b, events);
      end.timeoutMs == b.timeoutMs && end.state.Open? && events[i].now <= end.lastFailure <= events[|events| - 1].now && !Starts(end, now)
  {
    var n := |events| - 1;
    SameSettings(b, events[..n]);
    if i == n {
      assert events[..i + 1] == events;
    } else {
      assert events[..n][..i + 1] == events[..i + 1];
      NoStartDuringTimeout(b, events[..n], i, events[n].now);
    }
  }

  lemma {:induction false} SameSettings(b: Breaker, events: seq<Event>)
    ensures After(b, events).timeoutMs == b.timeoutMs && After(b, events).threshold == b.threshold
  {
    if events != [] { SameSettings(b, events[..|events| - 1]); }
  }

  /** A call that started after the timeout of the failure before it, a success after it, no failure in between. */
  ghost predicate Probed(b: Breaker, events: seq<Event>, i: nat, j: nat) {
    && i < j < |events| && events[i].Call? && events[j].Succeeded?
    && After(b, events[..i]).state.Open? && events[i].now > After(b, events[..i]).lastFailure + b.timeoutMs
    && forall k :: i < k < j ==> !events[k].Failed?
  }

  /** In a half-open breaker the probe that opened it halfway is still unanswered by a failure. */
  ghost predicate ProbeOut(b: Breaker, events: seq<Event>, i: nat) {
    && i < |events| && events[i].Call?
    && After(b, events[..i]).state.Open? && events[i].now > After(b, events[..i]).lastFailure + b.timeoutMs
    && forall k :: i < k < |events| ==> !events[k].Failed?
  }

  lemma {:induction false} HalfOpenHasProbe(b: Breaker, events: seq<Event>) returns (i: nat)
    requires b.threshold >= 1 && ClosedBelow(b) && !b.state.HalfOpen? && After(b, events).state.HalfOpen?
    ensures ProbeOut(b, events, i)
  {
    var n := |events| - 1;
    SameSettings(b, events[..n]);
    KeepsClosedBelow(b, events[..n]);
    if After(b, events[..n]).state.HalfOpen? {
      i := HalfOpenHasProbe(b, events[..n]);
      assert events[..n][..i] == events[..i];
    } else {
      i := n;
    }
  }

  lemma {:induction false} KeepsClosedBelow(b: Breaker, events: seq<Event>)
    requires b.threshold >= 1 && ClosedBelow(b)
    ensures ClosedBelow(After(b, events)) && After(b, events).threshold == b.threshold
  {
    if events != [] { KeepsClosedBelow(b, events[..|events| - 1]); }
  }

  lemma {:induction false} FindProbe(b: Breaker, events: seq<Event>) returns (i: nat, j: nat)
    requires b.threshold >= 1 && ClosedBelow(b) && b.state.Open? && After(b, events).state.Closed?
    ensures Probed(b, events, i, j)
  {
    var n := |events| - 1;
    KeepsClosedBelow(b, events[..n]);
    if After(b, events[..n]).state.Closed? {
      i, j := FindProbe(b, events[..n]);
      assert events[..n][..i] == events[..i];
    } else {
      i := HalfOpenHasProbe(b, events[..n]);
      j := n;
      assert events[..n][..i] == events[..i];
    }
  }

  /** An open breaker closes again only after a probe started past the timeout and then a success. */
  lemma RecoveryNeedsProbe(threshold: int, timeoutMs: nat, events: seq<Event>, later: seq<Event>)
    requires threshold >= 1
    requires After(Start(threshold, timeoutMs), events).state.Open?
    requires After(After(Start(threshold, timeoutMs), events), later).state.Closed?
    ensures exists i, j :: Probed(After(Start(threshold, timeoutMs), events), later, i, j)
  {
    FailureCount(threshold, timeoutMs, events);
    var i, j := FindProbe(After(Start(threshold, timeoutMs), events), later);
  }

  /** A started probe answered by a success, with only admissions in between, closes an open breaker. */
  lemma {:induction false} ProbeCloses(b: Breaker, now: nat, between: seq<Event>, done: nat)
    requires b.state.Open? && now > b.lastFailure + b.timeoutMs && forall e :: e in between ==> e.Call?
    ensures Starts(b, now) && After(b, [Call(now)] + between).state.HalfOpen?
    ensures var end := After(b, [Call(now)] + between + [Succeeded(done)]); end.state.Closed? && end.failures == 0
  {
    var events := [Call(now)] + between;
    if between == [] {
      assert events[..0] == [] && After(b, []) == b;
      assert After(b, events) == Step(b, Call(now));
    } else {
      ProbeCloses(b, now, between[..|between| - 1], done);
      assert events[..|events| - 1] == [Call(now)] + between[..|between| - 1];
      assert between[|between| - 1] in between;
    }
    assert (events + [Succeeded(done)])[..|events|] == events;
  }
}
