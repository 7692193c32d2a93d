/**
 What the broker does get done: a consumer that keeps taking works through the queue, one that is
 stopped finishes and leaves, and every event is the one its action asked for.
 */
module QueueProgress {
  import opened Common
  import opened QueueModel
  import opened QueueRuns

  // ----- Runs in pieces -----

  lemma {:induction false} RunConcat(s: Broker, first: seq<Action>, second: seq<Action>)
    ensures CanRun(s, first + second) <==> CanRun(s, first) && CanRun(Run(s, first).0, second)
    ensures CanRun(s, first + second) ==>
      var t := Run(s, first);
      var u := Run(t.0, second);
      Run(s, first + second) == (u.0, t.1 + u.1)
    decreases |second|
  {
    hide Step, Enabled;
    if second == [] {
      assert first + second == first;
      assert CanRun(s, first) ==> Run(s, first).1 + [] == Run(s, first).1;
    } else {
      var n := |second| - 1;
      RunConcat(s, first, second[..n]);
      assert (first + second)[..|first + second| - 1] == first + second[..n];
      if CanRun(s, first + second) {
        var t, e := Run(s, first), Step(Run(s, first + second[..n]).0, second[n]).1;
        assert (t.1 + Run(t.0, second[..n]).1) + [e] == t.1 + (Run(t.0, second[..n]).1 + [e]);
      }
    }
  }

  lemma RunOne(s: Broker, a: Action)
    requires Enabled(s, a)
    ensures CanRun(s, [a]) && Run(s, [a]) == (Step(s, a).0, [Step(s, a).1])
  {
    hide Step, Enabled;
    assert [a][..0] == [];
    assert Run(s, []).1 + [Step(s, a).1] == [Step(s, a).1];
  }

  lemma RunThen(s: Broker, run: seq<Action>, a: Action)
    requires CanRun(s, run) && Enabled(Run(s, run).0, a)
    ensures CanRun(s, run + [a])
    ensures var t := Run(s, run); Run(s, run + [a]) == (Step(t.0, a).0, t.1 + [Step(t.0, a).1])
  {
    hide Step, Enabled;
    assert (run + [a])[..|run|] == run;
  }

  // ----- Working through the queue -----

  predicate Ready(s: Broker, c: Name) {
    c in s.consumers && s.consumers[c].active && s.consumers[c].phase == Idle
  }

  /** What a consumer does with one message. */
  function Round(c: Name, topic: Key, m: Message): seq<Action> {
    if m.topic == topic then [Take(c), Handle(c), Count(c)] else [Take(c), Requeue(c)]
  }

  function Rounds(c: Name, topic: Key, ms: seq<Message>): seq<Action> {
    if ms == [] then [] else Rounds(c, topic, ms[..|ms| - 1]) + Round(c, topic, ms[|ms| - 1])
  }

  function NotOfTopic(ms: seq<Message>, topic: Key): seq<Message> {
    if ms == [] then []
    else
      var m := ms[|ms| - 1];
      NotOfTopic(ms[..|ms| - 1], topic) + if m.topic != topic then [m] else []
  }

  /** The messages handled, in the order the handlers got them. */
  function HandledIn(events: seq<Event>): seq<Message> {
    if events == [] then []
    else
      var e := events[|events| - 1];
      HandledIn(events[..|events| - 1]) + if e.Handled? then [e.m] else []
  }

  lemma {:induction false} HandledConcat(a: seq<Event>, b: seq<Event>)
    ensures HandledIn(a + b) == HandledIn(a) + HandledIn(b)
  {
    if b == [] {
      assert a + b == a;
    } else {
      HandledConcat(a, b[..|b| - 1]);
      assert (a + b)[..|a + b| - 1] == a + b[..|b| - 1];
    }
  }

  lemma HandledInRound(c: Name, topic: Key, m: Message)
    ensures HandledIn([Taken(c, m), Handled(c, topic, m), Counted(c, m)]) == [m]
    ensures HandledIn([Taken(c, m), Requeued(c, m)]) == []
  {
    var taken, handled := [Taken(c, m)], [Handled(c, topic, m)];
    assert taken[..0] == [] && handled[..0] == [] && [Counted(c, m)][..0] == [] && [Requeued(c, m)][..0] == [];
    HandledConcat(taken, handled);
    HandledConcat(taken + handled, [Counted(c, m)]);
    HandledConcat(taken, [Requeued(c, m)]);
    assert taken + handled + [Counted(c, m)] == [Taken(c, m), Handled(c, topic, m), Counted(c, m)];
    assert taken + [Requeued(c, m)] == [Taken(c, m), Requeued(c, m)];
  }

  /** A message of the consumer's topic is handled and counted. */
  lemma HandlesFirst(s: Broker, c: Name)
    requires Ready(s, c) && s.queue != [] && s.queue[0].topic == s.consumers[c].topic
    ensures var topic, m := s.consumers[c].topic, s.queue[0];
      var run := [Take(c), Handle(c), Count(c)];
      && CanRun(s, run)
      && Run(s, run) == (s.(queue := s.queue[1..], totalConsumed := s.totalConsumed + 1),
                         [Taken(c, m), Handled(c, topic, m), Counted(c, m)])
  {
    hide CanRun, Run;
    var topic, m := s.consumers[c].topic, s.queue[0];
    RunOne(s, Take(c));
    RunThen(s, [Take(c)], Handle(c));
    RunThen(s, [Take(c)] + [Handle(c)], Count(c));
    assert [Take(c)] + [Handle(c)] + [Count(c)] == [Take(c), Handle(c), Count(c)];
    assert [Taken(c, m)] + [Handled(c, topic, m)] + [Counted(c, m)] == [Taken(c, m), Handled(c, topic, m), Counted(c, m)];
    assert Run(s, [Take(c), Handle(c), Count(c)]).0.consumers == s.consumers;
  }

  /** Any other message goes back, to where a message of its priority that was just published would go. */
  lemma PutsBackFirst(s: Broker, c: Name)
    requires Ready(s, c) && s.queue != [] && s.queue[0].topic != s.consumers[c].topic
    ensures var m := s.queue[0];
      var run := [Take(c), Requeue(c)];
      && CanRun(s, run)
      && Run(s, run) == (s.(queue := Enqueue(s.ordering, s.queue[1..], m)), [Taken(c, m), Requeued(c, m)])
  {
    hide CanRun, Run, Enqueue;
    var m := s.queue[0];
    RunOne(s, Take(c));
    RunThen(s, [Take(c)], Requeue(c));
    assert [Take(c)] + [Requeue(c)] == [Take(c), Requeue(c)];
    assert [Taken(c, m)] + [Requeued(c, m)] == [Taken(c, m), Requeued(c, m)];
    assert Run(s, [Take(c), Requeue(c)]).0.consumers == s.consumers;
  }

  /** The state after one pass over the first `k` messages. */
  function AfterPass(s: Broker, topic: Key, k: nat): Broker
    requires k <= |s.queue|
  {
    s.(queue := s.queue[k..] + NotOfTopic(s.queue[..k], topic),
       totalConsumed := s.totalConsumed + |OfTopic(s.queue[..k], topic)|)
  }

  ghost predicate PassGoes(s: Broker, c: Name, topic: Key, k: nat)
    requires k <= |s.queue|
  {
    var run := Rounds(c, topic, s.queue[..k]);
    CanRun(s, run) && Run(s, run).0 == AfterPass(s, topic, k) && HandledIn(Run(s, run).1) == OfTopic(s.queue[..k], topic)
  }

  lemma PassSnoc(s: Broker, c: Name, topic: Key, k: nat)
    requires 0 < k <= |s.queue|
    ensures var m, before := s.queue[k - 1], s.queue[..k - 1];
      && Rounds(c, topic, s.queue[..k]) == Rounds(c, topic, before) + Round(c, topic, m)
      && OfTopic(s.queue[..k], topic) == OfTopic(before, topic) + (if m.topic == topic then [m] else [])
      && NotOfTopic(s.queue[..k], topic) == NotOfTopic(before, topic) + (if m.topic != topic then [m] else [])
  {
    hide Round;
    assert s.queue[..k][..k - 1] == s.queue[..k - 1];
  }

  lemma {:induction false} NoneOther(ms: seq<Message>, topic: Key)
    requires forall i :: 0 <= i < |ms| ==> ms[i].topic == topic
    ensures NotOfTopic(ms, topic) == [] && OfTopic(ms, topic) == ms
  {
    if ms != [] {
      NoneOther(ms[..|ms| - 1], topic);
      assert ms[..|ms| - 1] + [ms[|ms| - 1]] == ms;
    }
  }

  /** What the k-th message finds, and what becomes of it. */
  lemma PassStep(s: Broker, topic: Key, k: nat)
    requires 0 < k <= |s.queue|
    ensures var t, m := AfterPass(s, topic, k - 1), s.queue[k - 1];
      && t.consumers == s.consumers && t.ordering == s.ordering && t.queue != [] && t.queue[0] == m
      && AfterPass(s, topic, k) ==
           if m.topic == topic then t.(queue := t.queue[1..], totalConsumed := t.totalConsumed + 1)
           else t.(queue := t.queue[1..] + [m])
  {
    hide OfTopic, NotOfTopic;
    PassSnoc(s, 0, topic, k);
    var t, others := AfterPass(s, topic, k - 1), NotOfTopic(s.queue[..k - 1], topic);
    var m := s.queue[k - 1];
    assert t.queue[1..] == s.queue[k..] + others;
    assert (s.queue[k..] + others) + [m] == s.queue[k..] + (others + [m]);
    assert others + [] == others;
  }

  /** One round of a pass. */
  lemma RoundGoes(s: Broker, c: Name, k: nat)
    requires Ready(s, c) && 0 < k <= |s.queue|
    requires s.ordering.ByPriority? ==> forall i :: 0 <= i < |s.queue| ==> s.queue[i].topic == s.consumers[c].topic
    ensures var topic, m := s.consumers[c].topic, s.queue[k - 1];
      var t, run := AfterPass(s, topic, k - 1), Round(c, topic, m);
      && CanRun(t, run) && Run(t, run).0 == AfterPass(s, topic, k)
      && HandledIn(Run(t, run).1) == if m.topic == topic then [m] else []
  {
    hide Run, CanRun, HandledIn, AfterPass, Enqueue;
    var topic, m := s.consumers[c].topic, s.queue[k - 1];
    PassStep(s, topic, k);
    HandledInRound(c, topic, m);
    var t := AfterPass(s, topic, k - 1);
    if m.topic == topic {
      HandlesFirst(t, c);
    } else {
      PutsBackFirst(t, c);
      assert Enqueue(t.ordering, t.queue[1..], m) == t.queue[1..] + [m] by { AtTheEnd(t.ordering, t.queue[1..], m); }
    }
  }

  lemma AtTheEnd(ordering: Ordering, q: seq<Message>, m: Message)
    requires !ordering.ByPriority?
    ensures Enqueue(ordering, q, m) == q + [m]
  {
  }

  /**
   One pass over the first `k` messages can always be made.  It handles those of the consumer's topic, in
   order, counts each, and leaves the others in order behind the rest of the queue.  With priorities this
   is so when all messages are of the topic.
   */
  lemma {:induction false} OnePass(s: Broker, c: Name, k: nat)
    requires Ready(s, c) && k <= |s.queue|
    requires s.ordering.ByPriority? ==> forall i :: 0 <= i < |s.queue| ==> s.queue[i].topic == s.consumers[c].topic
    ensures PassGoes(s, c, s.consumers[c].topic, k)
  {
    var topic := s.consumers[c].topic;
    if k == 0 {
      assert s.queue[0..] + [] == s.queue;
    } else {
      OnePass(s, c, k - 1);
      PassSnoc(s, c, topic, k);
      RoundGoes(s, c, k);
      hide Run, CanRun, Rounds, Round, OfTopic, NotOfTopic, HandledIn, AfterPass;
      var run, round := Rounds(c, topic, s.queue[..k - 1]), Round(c, topic, s.queue[k - 1]);
      RunConcat(s, run, round);
      HandledConcat(Run(s, run).1, Run(AfterPass(s, topic, k - 1), round).1);
    }
  }

  /** A consumer to whose topic all `n` queued messages belong empties the queue in `n` rounds of three steps. */
  lemma Drains(s: Broker, c: Name)
    requires Ready(s, c) && forall i :: 0 <= i < |s.queue| ==> s.queue[i].topic == s.consumers[c].topic
    ensures var run := Rounds(c, s.consumers[c].topic, s.queue);
      && |run| == 3 * |s.queue| && CanRun(s, run)
      && Run(s, run).0 == s.(queue := [], totalConsumed := s.totalConsumed + |s.queue|)
      && HandledIn(Run(s, run).1) == s.queue
  {
    hide Run, CanRun, Rounds, HandledIn, OfTopic, NotOfTopic;
    var topic := s.consumers[c].topic;
    OnePass(s, c, |s.queue|);
    assert s.queue[..|s.queue|] == s.queue && s.queue[|s.queue|..] == [];
    NoneOther(s.queue, topic);
    RoundsLength(c, topic, s.queue);
  }

  lemma {:induction false} RoundsLength(c: Name, topic: Key, ms: seq<Message>)
    requires forall i :: 0 <= i < |ms| ==> ms[i].topic == topic
    ensures |Rounds(c, topic, ms)| == 3 * |ms|
  {
    if ms != [] { RoundsLength(c, topic, ms[..|ms| - 1]); }
  }

  /**
   A message of another topic at the head comes straight back to the head, so that the consumer makes no
   progress, exactly when it is alone or has a strictly higher priority than the next one.
   */
  lemma SpinsIff(ordering: Ordering, run: seq<Action>, c: Name)
    requires CanRun(Start(ordering), run)
    requires var s := Run(Start(ordering), run).0;
      Ready(s, c) && s.queue != [] && s.queue[0].topic != s.consumers[c].topic
    ensures var s := Run(Start(ordering), run).0;
      var round := [Take(c), Requeue(c)];
      && CanRun(s, round)
      && (Run(s, round).0 == s <==>
          |s.queue| == 1 || (ordering.ByPriority? && s.queue[1].priority < s.queue[0].priority))
  {
    hide Run, CanRun, Where, HandledOnce, Balanced, InOrder, Genuine, OnePerSerial;
    RunInv(ordering, run);
    var s := Run(Start(ordering), run).0;
    PutsBackFirst(s, c);
    BackAtHeadIff(ordering, s.queue);
    assert s.(queue := s.queue) == s;
  }

  lemma BackAtHeadIff(ordering: Ordering, q: seq<Message>)
    requires q != [] && NoRepeats(q)
    ensures Enqueue(ordering, q[1..], q[0]) == q <==>
      |q| == 1 || (ordering.ByPriority? && q[1].priority < q[0].priority)
  {
    var m, rest := q[0], q[1..];
    var p := if ordering.ByPriority? then Slot(rest, m.priority) else |rest|;
    if p == 0 {
      assert rest[..0] + [m] + rest[0..] == q;
    } else {
      assert Enqueue(ordering, rest, m)[0] == rest[0] == q[1];
    }
  }

  // ----- Unsubscribing -----

  /** What is left to do for a consumer that stops in this phase. */
  function Finish(consumer: Consumer, c: Name): seq<Action> {
    match consumer.phase
    case Idle => []
    case Holding(m) => if m.topic == consumer.topic then [Handle(c), Count(c)] else [Requeue(c)]
    case Finished(_) => [Count(c)]
  }

  /** From any state a consumer can be unsubscribed: it is stopped, finishes what it holds, and leaves. */
  lemma Unsubscribes(s: Broker, c: Name)
    requires c in s.consumers
    ensures var finish := Finish(s.consumers[c], c);
      var run := [Stop(c)] + finish + [Leave(c)];
      && CanRun(s, run) && Run(s, run).0.consumers == s.consumers - {c}
      && Run(s, run).0.totalPublished == s.totalPublished
      && Run(s, run).0.totalConsumed == s.totalConsumed + (if Count(c) in finish then 1 else 0)
      && |Run(s, run).0.queue| == |s.queue| + (if Requeue(c) in finish then 1 else 0)
  {
    hide CanRun, Run, Enqueue;
    var finish := Finish(s.consumers[c], c);
    RunOne(s, Stop(c));
    var t := Run(s, [Stop(c)]).0;
    if |finish| == 0 {
      assert [Stop(c)] + finish == [Stop(c)];
    } else {
      RunThen(s, [Stop(c)], finish[0]);
      if |finish| == 1 {
        assert finish == [finish[0]];
      } else {
        RunThen(s, [Stop(c)] + [finish[0]], finish[1]);
        assert [Stop(c)] + finish == [Stop(c)] + [finish[0]] + [finish[1]];
      }
    }
    RunThen(s, [Stop(c)] + finish, Leave(c));
    assert Run(s, [Stop(c)] + finish).0.consumers - {c} == s.consumers - {c};
  }

  lemma StopStops(s: Broker, c: Name)
    requires Enabled(s, Stop(c))
    ensures var (t, e) := Step(s, Stop(c)); Stopped(t, c) && e == Quiet && forall n: nat :: Has(s, c, n) <==> Has(t, c, n)
  {
  }

  /**
   After a consumer has been stopped, at any point of any run and until it subscribes anew, it takes no
   further message, and what it held stays with it until it is consumed or put back.
   */
  lemma AfterStop(s: Broker, run: seq<Action>, at: nat, c: Name, serial: nat)
    requires CanRun(s, run) && at < |run| && run[at] == Stop(c)
    requires forall i :: at < i < |run| && run[i].Subscribe? ==> run[i].c != c
    ensures CanRun(s, run[..at])
    ensures var (t, events) := Run(s, run);
      && (forall i :: at <= i < |run| && events[i].Taken? ==> events[i].c != c)
      && (Has(Run(s, run[..at]).0, c, serial) ==>
          Has(t, c, serial) || exists i :: at <= i < |run| && LetGo(events[i], c, serial))
  {
    hide CanRun, Run, Step, Enabled, Stopped, Has, LetGo;
    var first, rest := run[..at], run[at + 1..];
    assert first + ([Stop(c)] + rest) == run;
    assert first + [Stop(c)] + rest == run;
    RunConcat(s, first + [Stop(c)], rest);
    StopInRun(s, first, c);
    var t := Run(s, first + [Stop(c)]);
    StoppedTakesNothing(t.0, c, rest, serial);
    var events, later := Run(s, run).1, Run(t.0, rest).1;
    assert events == t.1 + later;
    forall i | at <= i < |run| && events[i].Taken? ensures events[i].c != c {
      if i > at { assert events[i] == later[i - at - 1]; }
    }
    if exists e :: e in later && LetGo(e, c, serial) {
      var e :| e in later && LetGo(e, c, serial);
      var j :| 0 <= j < |later| && later[j] == e;
      assert events[at + 1 + j] == e;
    }
  }

  lemma StopInRun(s: Broker, first: seq<Action>, c: Name)
    requires CanRun(s, first + [Stop(c)])
    ensures CanRun(s, first)
    ensures var t := Run(s, first + [Stop(c)]);
      && Stopped(t.0, c) && |t.1| == |first| + 1 && t.1[|first|] == Quiet
      && forall n: nat :: Has(Run(s, first).0, c, n) <==> Has(t.0, c, n)
  {
    hide Step, Enabled, Stopped, Has;
    assert (first + [Stop(c)])[..|first|] == first;
    StopStops(Run(s, first).0, c);
  }

  // ----- Events -----

  /** The event that an action gives rise to. */
  predicate Tells(a: Action, e: Event) {
    match a
    case Publish(topic, payload, priority) =>
      e.Published? && e.m.topic == topic && e.m.payload == payload && e.m.priority == priority
    case Take(c) => e.Taken? && e.c == c
    case Handle(c) => e.Handled? && e.c == c
    case Count(c) => e.Counted? && e.c == c
    case Requeue(c) => e.Requeued? && e.c == c
    case Clear => e.Dropped?
    case _ => e.Quiet?
  }

  function Publications(run: seq<Action>): nat {
    if run == [] then 0 else Publications(run[..|run| - 1]) + if run[|run| - 1].Publish? then 1 else 0
  }

  /** The i-th event reports the i-th action, and a published message is numbered by publication. */
  ghost predicate Told(run: seq<Action>, events: seq<Event>, i: nat)
    requires i < |run| == |events|
  {
    Tells(run[i], events[i]) && (events[i].Published? ==> events[i].m.serial == Publications(run[..i]))
  }

  lemma StepTells(s: Broker, a: Action)
    requires Enabled(s, a)
    ensures var (t, e) := Step(s, a);
      && Tells(a, e) && t.totalPublished == s.totalPublished + (if a.Publish? then 1 else 0)
      && (e.Published? ==> e.m.serial == s.totalPublished)
  {
    hide Enqueue;
  }

  ghost predicate AllTold(run: seq<Action>, events: seq<Event>) {
    |run| == |events| && forall i :: 0 <= i < |run| ==> Told(run, events, i)
  }

  lemma OneMoreTold(run: seq<Action>, events: seq<Event>, a: Action, e: Event)
    requires AllTold(run, events) && Tells(a, e) && (e.Published? ==> e.m.serial == Publications(run))
    ensures AllTold(run + [a], events + [e])
    ensures Publications(run + [a]) == Publications(run) + if a.Publish? then 1 else 0
  {
    hide Tells;
    assert (run + [a])[..|run|] == run;
    hide Publications;
    forall i | 0 <= i <= |run| ensures Told(run + [a], events + [e], i) {
      assert (run + [a])[..i] == run[..i];
      assert i < |run| ==> Told(run, events, i);
    }
  }

  /** In every run the events are the ones the actions asked for. */
  lemma {:induction false} EventsTell(ordering: Ordering, run: seq<Action>)
    requires CanRun(Start(ordering), run)
    ensures var (s, events) := Run(Start(ordering), run); s.totalPublished == Publications(run) && AllTold(run, events)
  {
    if run != [] {
      hide Run, CanRun, Step, Enabled, AllTold, Tells, Publications;
      RunSnoc(Start(ordering), run);
      var a, before := run[|run| - 1], run[..|run| - 1];
      EventsTell(ordering, before);
      var s, events := Run(Start(ordering), before).0, Run(Start(ordering), before).1;
      StepTells(s, a);
      OneMoreTold(before, events, a, Step(s, a).1);
    }
  }

  // ----- The life of a subscription -----

  datatype Standing = Away | Serving | Stopping

  function Becomes(earlier: Standing, a: Action, c: Name): Standing {
    if a == Stop(c) then Stopping
    else if a == Leave(c) then Away
    else if a.Subscribe? && a.c == c then Serving
    else earlier
  }

  /** What the actions say about a consumer. */
  function StandingOf(run: seq<Action>, c: Name): Standing {
    if run == [] then Away else Becomes(StandingOf(run[..|run| - 1], c), run[|run| - 1], c)
  }

  lemma StandingSnoc(run: seq<Action>, a: Action, c: Name)
    ensures StandingOf(run + [a], c) == Becomes(StandingOf(run, c), a, c)
  {
    hide Becomes;
    assert (run + [a])[..|run|] == run;
  }

  ghost predicate Stands(s: Broker, c: Name, standing: Standing) {
    && (c in s.consumers <==> !standing.Away?)
    && (c in s.consumers ==> (s.consumers[c].active <==> standing.Serving?))
  }

  predicate Fits(standing: Standing, a: Action, c: Name) {
    && (a.Subscribe? && a.c == c ==> standing.Away?)
    && (a == Take(c) ==> standing.Serving?)
    && (a == Leave(c) ==> standing.Stopping?)
    && (a == Handle(c) || a == Count(c) || a == Requeue(c) || a == Stop(c) ==> !standing.Away?)
  }

  lemma StepStands(s: Broker, standing: Standing, a: Action, c: Name)
    requires Enabled(s, a) && Stands(s, c, standing)
    ensures Fits(standing, a, c) && Stands(Step(s, a).0, c, Becomes(standing, a, c))
  {
    hide Enqueue;
  }

  ghost predicate AllFit(run: seq<Action>, c: Name) {
    forall i :: 0 <= i < |run| ==> Fits(StandingOf(run[..i], c), run[i], c)
  }

  lemma OneMoreFits(run: seq<Action>, a: Action, c: Name)
    requires AllFit(run, c) && Fits(StandingOf(run, c), a, c)
    ensures AllFit(run + [a], c)
  {
    hide Fits, StandingOf;
    forall i | 0 <= i <= |run| ensures Fits(StandingOf((run + [a])[..i], c), (run + [a])[i], c) {
      assert (run + [a])[..i] == run[..i];
      assert i == |run| ==> run[..i] == run;
    }
  }

  /**
   In every run a name subscribes only while it is away, takes only between its subscription and its stop,
   and leaves only once it has been stopped.
   */
  lemma {:induction false} Lifecycle(ordering: Ordering, run: seq<Action>, c: Name)
    requires CanRun(Start(ordering), run)
    ensures Stands(Run(Start(ordering), run).0, c, StandingOf(run, c)) && AllFit(run, c)
  {
    if run != [] {
      hide Run, CanRun, Step, Enabled, Stands, Fits, AllFit, StandingOf, Becomes;
      RunSnoc(Start(ordering), run);
      var a, before := run[|run| - 1], run[..|run| - 1];
      Lifecycle(ordering, before, c);
      StepStands(Run(Start(ordering), before).0, StandingOf(before, c), a, c);
      StandingSnoc(before, a, c);
      OneMoreFits(before, a, c);
    }
  }

  lemma NoneHandled(e: Event)
    requires !e.Handled?
    ensures HandledIn([e]) == []
  {
    assert [e][..0] == [];
  }

  /** Whoever subscribes to the topic of all queued messages drains the queue, whatever else is going on. */
  lemma NewcomerDrains(s: Broker, c: Name, topic: Key)
    requires c !in s.consumers && forall i :: 0 <= i < |s.queue| ==> s.queue[i].topic == topic
    ensures var run := [Subscribe(c, topic)] + Rounds(c, topic, s.queue);
      && CanRun(s, run) && Run(s, run).0.queue == [] && Run(s, run).0.totalConsumed == s.totalConsumed + |s.queue|
      && HandledIn(Run(s, run).1) == s.queue
  {
    hide Run, CanRun, Rounds, HandledIn;
    RunOne(s, Subscribe(c, topic));
    var t := Run(s, [Subscribe(c, topic)]).0;
    Drains(t, c);
    RunConcat(s, [Subscribe(c, topic)], Rounds(c, topic, s.queue));
    HandledConcat([Quiet], Run(t, Rounds(c, topic, s.queue)).1);
    NoneHandled(Quiet);
  }

  // ----- Cleared messages -----

  lemma StaysDiscarded(s: Broker, events: seq<Event>, a: Action, n: nat)
    requires Located(s, events) && Enabled(s, a) && Where(events, n) == Discarded
    ensures Where(events + [Step(s, a).1], n) == Discarded
  {
    hide Enqueue, Where, NoRepeats;
    var e := Step(s, a).1;
    Extend(events, e, n);
    if a.Count? || a.Requeue? { assert Has(s, a.c, e.m.serial); }
    if a.Take? { assert s.queue[0].serial == e.m.serial && Mentions(s.queue, e.m.serial); }
  }

  lemma ClearDiscards(s: Broker, events: seq<Event>, n: nat)
    requires Located(s, events) && Enabled(s, Clear) && Where(events, n) == Queued
    ensures Where(events + [Step(s, Clear).1], n) == Discarded
  {
    hide Where;
    Extend(events, Step(s, Clear).1, n);
  }

  /** A message that is queued when the queue is cleared is discarded for good, and no handler ever gets it. */
  lemma {:induction false} ClearedForGood(ordering: Ordering, run: seq<Action>, at: nat, n: nat)
    requires CanRun(Start(ordering), run) && at < |run| && run[at] == Clear
    requires Where(Run(Start(ordering), run).1[..at], n) == Queued
    ensures var events := Run(Start(ordering), run).1; Where(events, n) == Discarded && HandledTimes(events, n) == 0
  {
    hide Run, CanRun, Step, Enabled, Where, HandledTimes, Balanced, InOrder, Genuine, OnePerSerial, NoRepeats;
    RunInv(ordering, run);
    RunSnoc(Start(ordering), run);
    var last, before := |run| - 1, run[..|run| - 1];
    var s, events := Run(Start(ordering), before).0, Run(Start(ordering), before).1;
    assert Run(Start(ordering), run).1[..at] == events[..at];
    RunInv(ordering, before);
    if at == last {
      assert events[..at] == events;
      ClearDiscards(s, events, n);
    } else {
      ClearedForGood(ordering, before, at, n);
      StaysDiscarded(s, events, run[last], n);
    }
  }

  // ----- Delivery -----

  datatype Letter = Letter(payload: Bytes, priority: int)

  /** The messages of one publisher, in the order it publishes them. */
  function PublishAll(topic: Key, letters: seq<Letter>): seq<Action> {
    if letters == [] then []
    else
      var l := letters[|letters| - 1];
      PublishAll(topic, letters[..|letters| - 1]) + [Publish(topic, l.payload, l.priority)]
  }

  predicate Before(ordering: Ordering, m: Message, n: Message) {
    if ordering.ByPriority? && m.priority != n.priority then m.priority > n.priority else m.serial < n.serial
  }

  /** The messages that the letters became, each once and in the order of the queue. */
  ghost predicate Sorted(ordering: Ordering, topic: Key, letters: seq<Letter>, ms: seq<Message>) {
    && |ms| == |letters|
    && (forall i :: 0 <= i < |ms| ==> ms[i].serial < |letters|)
    && (forall i :: 0 <= i < |ms| ==>
          var l := letters[ms[i].serial]; ms[i] == Message(ms[i].serial, topic, l.payload, l.priority))
    && (forall i, j :: 0 <= i < j < |ms| ==> Before(ordering, ms[i], ms[j]))
  }

  /** A message goes in behind all that come before it and ahead of all others. */
  lemma EnqueueShape(ordering: Ordering, q: seq<Message>, m: Message) returns (p: nat)
    ensures p <= |q| && Enqueue(ordering, q, m) == q[..p] + [m] + q[p..]
    ensures ordering.ByPriority? ==> forall i :: 0 <= i < p ==> q[i].priority >= m.priority
    ensures p < |q| ==> ordering.ByPriority? && q[p].priority < m.priority
  {
    p := if ordering.ByPriority? then Slot(q, m.priority) else |q|;
  }

  lemma InsertOrdered(ordering: Ordering, q: seq<Message>, p: nat, m: Message)
    requires forall i, j :: 0 <= i < j < |q| ==> Before(ordering, q[i], q[j])
    requires p <= |q| && forall i :: 0 <= i < |q| ==> q[i].serial < m.serial
    requires ordering.ByPriority? ==> forall i :: 0 <= i < p ==> q[i].priority >= m.priority
    requires p < |q| ==> ordering.ByPriority? && q[p].priority < m.priority
    ensures var r := q[..p] + [m] + q[p..]; forall i, j :: 0 <= i < j < |r| ==> Before(ordering, r[i], r[j])
  {
    var r := q[..p] + [m] + q[p..];
    forall i, j | 0 <= i < j < |r| ensures Before(ordering, r[i], r[j]) {
      var i', j' := if i < p then i else i - 1, if j < p then j else j - 1;
      assert i != p ==> r[i] == q[i'];
      assert j != p ==> r[j] == q[j'];
      if i == p && p < |q| { assert j' == p || Before(ordering, q[p], q[j']); }
    }
  }

  lemma EnqueueSorted(ordering: Ordering, topic: Key, letters: seq<Letter>, ms: seq<Message>, l: Letter)
    requires Sorted(ordering, topic, letters, ms)
    ensures Sorted(ordering, topic, letters + [l], Enqueue(ordering, ms, Message(|letters|, topic, l.payload, l.priority)))
  {
    hide Enqueue, Before;
    var m := Message(|letters|, topic, l.payload, l.priority);
    var p := EnqueueShape(ordering, ms, m);
    InsertOrdered(ordering, ms, p, m);
    var r := ms[..p] + [m] + ms[p..];
    assert forall i :: 0 <= i < |r| ==> r[i] == if i < p then ms[i] else if i == p then m else ms[i - 1];
  }

  lemma {:induction false} PublishesAll(s: Broker, topic: Key, letters: seq<Letter>)
    requires s.queue == [] && s.totalPublished == 0 && forall i :: 0 <= i < |letters| ==> letters[i].payload != []
    ensures CanRun(s, PublishAll(topic, letters))
    ensures var (t, events) := Run(s, PublishAll(topic, letters));
      && t == s.(queue := t.queue, totalPublished := |letters|) && Sorted(s.ordering, topic, letters, t.queue)
      && HandledIn(events) == []
  {
    if letters != [] {
      hide Run, CanRun, Sorted, Enqueue, HandledIn;
      var n := |letters| - 1;
      var l, run := letters[n], PublishAll(topic, letters[..n]);
      PublishesAll(s, topic, letters[..n]);
      var t := Run(s, run).0;
      EnqueueSorted(s.ordering, topic, letters[..n], t.queue, l);
      assert letters[..n] + [l] == letters;
      var a := Publish(topic, l.payload, l.priority);
      RunThen(s, run, a);
      HandledConcat(Run(s, run).1, [Step(t, a).1]);
      NoneHandled(Step(t, a).1);
    }
  }

  /**
   Everything that is published to a topic can be delivered to its subscriber: each message once, with its
   payload, in order of publication, or by priority and among equals in order of publication.
   */
  lemma Delivers(ordering: Ordering, c: Name, topic: Key, letters: seq<Letter>) returns (handled: seq<Message>)
    requires forall i :: 0 <= i < |letters| ==> letters[i].payload != []
    ensures Sorted(ordering, topic, letters, handled)
    ensures var run := PublishAll(topic, letters) + ([Subscribe(c, topic)] + Rounds(c, topic, handled));
      && CanRun(Start(ordering), run) && Run(Start(ordering), run).0.queue == []
      && Run(Start(ordering), run).0.totalConsumed == |letters|
      && HandledIn(Run(Start(ordering), run).1) == handled
  {
    hide Run, CanRun, Rounds, PublishAll, Step, HandledIn;
    PublishesAll(Start(ordering), topic, letters);
    var before := Run(Start(ordering), PublishAll(topic, letters));
    handled := before.0.queue;
    NewcomerDrains(before.0, c, topic);
    var rest := [Subscribe(c, topic)] + Rounds(c, topic, handled);
    RunConcat(Start(ordering), PublishAll(topic, letters), rest);
    HandledConcat(before.1, Run(before.0, rest).1);
  }
}
