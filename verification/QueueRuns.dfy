/** What holds in every run of the broker. */
module QueueRuns {
  import opened Common
  import opened QueueModel

  // ----- Every message is in exactly one place -----

  datatype Place = Nowhere | Queued | With(c: Name) | Consumed | Discarded

  predicate Mentions(ms: seq<Message>, serial: nat) {
    exists i :: 0 <= i < |ms| && ms[i].serial == serial
  }

  /** Where one event puts a message that was at `earlier`. */
  function MovedBy(e: Event, serial: nat, earlier: Place): Place {
    match e
    case Published(m) => if m.serial == serial then Queued else earlier
    case Requeued(_, m) => if m.serial == serial then Queued else earlier
    case Taken(c, m) => if m.serial == serial then With(c) else earlier
    case Counted(_, m) => if m.serial == serial then Consumed else earlier
    case Dropped(ms) => if Mentions(ms, serial) then Discarded else earlier
    case _ => earlier
  }

  /** Where a message is, read off the history alone. */
  function Where(events: seq<Event>, serial: nat): Place {
    if events == [] then Nowhere
    else MovedBy(events[|events| - 1], serial, Where(events[..|events| - 1], serial))
  }

  function HandledTimes(events: seq<Event>, serial: nat): nat {
    if events == [] then 0
    else
      var e := events[|events| - 1];
      HandledTimes(events[..|events| - 1], serial) + if e.Handled? && e.m.serial == serial then 1 else 0
  }

  function DroppedCount(events: seq<Event>): nat {
    if events == [] then 0
    else
      var e := events[|events| - 1];
      DroppedCount(events[..|events| - 1]) + if e.Dropped? then |e.ms| else 0
  }

  lemma Extend(events: seq<Event>, e: Event, serial: nat)
    ensures Where(events + [e], serial) == MovedBy(e, serial, Where(events, serial))
    ensures HandledTimes(events + [e], serial) ==
      HandledTimes(events, serial) + if e.Handled? && e.m.serial == serial then 1 else 0
    ensures DroppedCount(events + [e]) == DroppedCount(events) + if e.Dropped? then |e.ms| else 0
  {
    assert (events + [e])[..|events|] == events;
  }

  ghost predicate NoRepeats(q: seq<Message>) {
    forall i, j :: 0 <= i < j < |q| ==> q[i].serial != q[j].serial
  }

  function Busy(consumers: map<Name, Consumer>): set<Name> {
    set c | c in consumers && !consumers[c].phase.Idle?
  }

  /** The message in the hands of a consumer. */
  ghost predicate Has(s: Broker, c: Name, serial: nat) {
    c in s.consumers && !s.consumers[c].phase.Idle? && s.consumers[c].phase.m.serial == serial
  }

  ghost predicate Located(s: Broker, events: seq<Event>) {
    && NoRepeats(s.queue)
    && (forall n: nat :: Where(events, n) == Queued <==> Mentions(s.queue, n))
    && (forall n: nat, c :: Where(events, n) == With(c) <==> Has(s, c, n))
    && (forall n: nat :: Where(events, n) == Nowhere <==> s.totalPublished <= n)
  }

  lemma EnqueueMentions(ordering: Ordering, q: seq<Message>, m: Message)
    requires NoRepeats(q) && !Mentions(q, m.serial)
    ensures NoRepeats(Enqueue(ordering, q, m))
    ensures forall n: nat :: Mentions(Enqueue(ordering, q, m), n) <==> Mentions(q, n) || n == m.serial
  {
    hide Slot;
    var r := Enqueue(ordering, q, m);
    var p := if ordering.ByPriority? then Slot(q, m.priority) else |q|;
    assert r[p] == m;
    forall n: nat | Mentions(q, n) ensures Mentions(r, n) {
      var i :| 0 <= i < |q| && q[i].serial == n;
      assert r[if i < p then i else i + 1] == q[i];
    }
    forall n: nat | Mentions(r, n) && n != m.serial ensures Mentions(q, n) {
      var i :| 0 <= i < |r| && r[i].serial == n;
      assert r[i] == q[if i < p then i else i - 1];
    }
  }

  lemma HeadMentions(q: seq<Message>)
    requires NoRepeats(q) && q != []
    ensures NoRepeats(q[1..]) && Mentions(q, q[0].serial)
    ensures forall n: nat :: Mentions(q[1..], n) <==> Mentions(q, n) && n != q[0].serial
  {
  }

  lemma NothingMentioned()
    ensures forall n: nat :: !Mentions([], n)
  {
  }

  lemma StepLocated(s: Broker, events: seq<Event>, a: Action)
    requires Located(s, events) && Enabled(s, a)
    ensures var (t, e) := Step(s, a); Located(t, events + [e])
  {
    hide Enqueue, Where, Mentions;
    var (t, e) := Step(s, a);
    forall n: nat { Extend(events, e, n); }
    match a
    case Publish(_, _, _) => EnqueueMentions(s.ordering, s.queue, e.m);
    case Requeue(c) =>
      assert Has(s, c, e.m.serial);
      EnqueueMentions(s.ordering, s.queue, e.m);
    case Take(c) => HeadMentions(s.queue);
    case Clear => assert forall n: nat :: !Mentions([], n) by { NothingMentioned(); }
    case Count(c) => assert Has(s, c, e.m.serial);
    case Handle(c) => assert Has(s, c, e.m.serial);
    case _ =>
  }

  // ----- Handled at most once, by a consumer of the topic -----

  ghost predicate FinishedAt(s: Broker, place: Place) {
    place.With? && place.c in s.consumers && s.consumers[place.c].phase.Finished?
  }

  ghost predicate HandledOnce(s: Broker, events: seq<Event>) {
    forall n: nat :: HandledTimes(events, n) ==
      if Where(events, n) == Consumed || FinishedAt(s, Where(events, n)) then 1 else 0
  }

  lemma StepHandledOnce(s: Broker, events: seq<Event>, a: Action)
    requires Located(s, events) && HandledOnce(s, events) && Enabled(s, a)
    ensures var (t, e) := Step(s, a); HandledOnce(t, events + [e])
  {
    hide Enqueue, Where, HandledTimes, NoRepeats;
    var (t, e) := Step(s, a);
    forall n: nat
      ensures HandledTimes(events + [e], n) ==
        if Where(events + [e], n) == Consumed || FinishedAt(t, Where(events + [e], n)) then 1 else 0
    {
      Extend(events, e, n);
      if a.Count? || a.Handle? || a.Requeue? { assert Has(s, a.c, e.m.serial); }
      if a.Take? { assert s.queue[0].serial == e.m.serial && Mentions(s.queue, e.m.serial); }
      assert Where(events, n).With? ==> Has(s, Where(events, n).c, n);
    }
  }

  // ----- Conservation -----

  ghost predicate Balanced(s: Broker, events: seq<Event>) {
    s.totalPublished == |s.queue| + |Busy(s.consumers)| + s.totalConsumed + DroppedCount(events)
  }

  function Load(phase: Phase): nat {
    if phase.Idle? then 0 else 1
  }

  lemma BusyAfter(consumers: map<Name, Consumer>, c: Name, consumer: Consumer)
    ensures |Busy(consumers[c := consumer])| ==
      |Busy(consumers)| - (if c in consumers then Load(consumers[c].phase) else 0) + Load(consumer.phase)
    ensures c in consumers ==> |Busy(consumers - {c})| == |Busy(consumers)| - Load(consumers[c].phase)
  {
    var rest := Busy(consumers) - {c};
    assert Busy(consumers) == if c in consumers && !consumers[c].phase.Idle? then rest + {c} else rest;
    assert Busy(consumers[c := consumer]) == if consumer.phase.Idle? then rest else rest + {c};
    assert Busy(consumers - {c}) == rest;
  }

  lemma StepBalanced(s: Broker, events: seq<Event>, a: Action)
    requires Balanced(s, events) && Enabled(s, a)
    ensures var (t, e) := Step(s, a); Balanced(t, events + [e])
  {
    hide Enqueue, Busy;
    var (t, e) := Step(s, a);
    Extend(events, e, 0);
    if !a.Publish? && !a.Clear? {
      BusyAfter(s.consumers, a.c, if a.c in t.consumers then t.consumers[a.c] else s.consumers[a.c]);
    }
  }

  // ----- Order of the queue -----

  predicate Enters(e: Event, serial: nat) {
    (e.Published? || e.Requeued?) && e.m.serial == serial
  }

  /** Position (from 1) of the last event that put the message into the queue. */
  function EnteredAt(events: seq<Event>, serial: nat): (t: nat)
    ensures t <= |events|
  {
    if events == [] then 0
    else if Enters(events[|events| - 1], serial) then |events|
    else EnteredAt(events[..|events| - 1], serial)
  }

  /** By priority, and among equals by time of entry; without priorities, by time of entry. */
  ghost predicate Precedes(ordering: Ordering, events: seq<Event>, a: Message, b: Message) {
    || (ordering.ByPriority? && a.priority > b.priority)
    || ((ordering.ByPriority? ==> a.priority == b.priority) && EnteredAt(events, a.serial) < EnteredAt(events, b.serial))
  }

  ghost predicate InOrder(ordering: Ordering, q: seq<Message>, events: seq<Event>) {
    forall i, j :: 0 <= i < j < |q| ==> Precedes(ordering, events, q[i], q[j])
  }

  lemma EntersExtend(events: seq<Event>, e: Event, serial: nat)
    ensures EnteredAt(events + [e], serial) == if Enters(e, serial) then |events| + 1 else EnteredAt(events, serial)
  {
    assert (events + [e])[..|events|] == events;
  }

  lemma EnqueueInOrder(ordering: Ordering, q: seq<Message>, events: seq<Event>, m: Message, e: Event)
    requires InOrder(ordering, q, events) && !Mentions(q, m.serial) && Enters(e, m.serial)
    ensures InOrder(ordering, Enqueue(ordering, q, m), events + [e])
  {
    hide EnteredAt;
    var r := Enqueue(ordering, q, m);
    var p := if ordering.ByPriority? then Slot(q, m.priority) else |q|;
    hide Slot;
    forall i, j | 0 <= i < j < |r| ensures Precedes(ordering, events + [e], r[i], r[j]) {
      EntersExtend(events, e, r[i].serial);
      EntersExtend(events, e, r[j].serial);
      assert i != p ==> r[i] == q[if i < p then i else i - 1];
      assert j != p ==> r[j] == q[if j < p then j else j - 1];
      if i == p && p < |q| {
        // everything from the slot on has a strictly lower priority
        assert j - 1 == p || Precedes(ordering, events, q[p], q[j - 1]);
      }
    }
  }

  lemma StepInOrder(s: Broker, events: seq<Event>, a: Action)
    requires Located(s, events) && InOrder(s.ordering, s.queue, events) && Enabled(s, a)
    ensures var (t, e) := Step(s, a); t.ordering == s.ordering && InOrder(t.ordering, t.queue, events + [e])
  {
    hide Enqueue, Where, EnteredAt;
    var (t, e) := Step(s, a);
    if a.Publish? || a.Requeue? {
      if a.Requeue? { assert Has(s, a.c, e.m.serial); }
      EnqueueInOrder(s.ordering, s.queue, events, e.m, e);
    } else {
      forall i, j | 0 <= i < j < |t.queue| ensures Precedes(t.ordering, events + [e], t.queue[i], t.queue[j]) {
        EntersExtend(events, e, t.queue[i].serial);
        EntersExtend(events, e, t.queue[j].serial);
        var d := if a.Take? then 1 else 0;
        assert t.queue[i] == s.queue[i + d] && t.queue[j] == s.queue[j + d];
      }
    }
  }

  // ----- Messages are what was published, consumers what was subscribed -----

  /** Queued and held messages are published ones, whole. */
  ghost predicate Genuine(s: Broker, events: seq<Event>) {
    && (forall m :: m in s.queue ==> Published(m) in events)
    && (forall c :: c in s.consumers && !s.consumers[c].phase.Idle? ==> Published(s.consumers[c].phase.m) in events)
  }

  /** A publication number belongs to one message. */
  ghost predicate OnePerSerial(events: seq<Event>, published: nat) {
    && (forall m :: Published(m) in events ==> m.serial < published)
    && (forall m, n :: Published(m) in events && Published(n) in events && m.serial == n.serial ==> m == n)
  }

  /** The event is about a message that was already in the broker. */
  predicate Moves(e: Event) {
    e.Taken? || e.Handled? || e.Counted? || e.Requeued?
  }

  lemma EnqueueElements(ordering: Ordering, q: seq<Message>, m: Message)
    ensures forall x :: x in Enqueue(ordering, q, m) ==> x == m || x in q
  {
    hide Slot;
  }

  lemma StepGenuine(s: Broker, events: seq<Event>, a: Action)
    requires Genuine(s, events) && OnePerSerial(events, s.totalPublished) && Enabled(s, a)
    ensures var (t, e) := Step(s, a);
      && Genuine(t, events + [e]) && OnePerSerial(events + [e], t.totalPublished)
      && (Moves(e) ==> Published(e.m) in events)
  {
    hide Enqueue;
    var (t, e) := Step(s, a);
    assert forall x :: x in events + [e] <==> x in events || x == e;
    if a.Publish? || a.Requeue? { EnqueueElements(s.ordering, s.queue, e.m); }
  }

  /** The topic that the last subscription of a consumer named. */
  function Subscription(run: seq<Action>, c: Name): Option<Key> {
    if run == [] then None
    else
      var a := run[|run| - 1];
      if a.Subscribe? && a.c == c then Some(a.topic) else Subscription(run[..|run| - 1], c)
  }

  ghost predicate Subscribed(s: Broker, run: seq<Action>) {
    forall c :: c in s.consumers ==> Subscription(run, c) == Some(s.consumers[c].topic)
  }

  lemma StepSubscribed(s: Broker, run: seq<Action>, a: Action)
    requires Subscribed(s, run) && Enabled(s, a)
    ensures var (t, e) := Step(s, a);
      && Subscribed(t, run + [a])
      && (e.Handled? ==> Subscription(run, e.c) == Some(e.m.topic))
  {
    assert (run + [a])[..|run|] == run;
  }

  // ----- Every run -----

  ghost predicate Inv(s: Broker, events: seq<Event>) {
    && Located(s, events) && HandledOnce(s, events) && Balanced(s, events)
    && InOrder(s.ordering, s.queue, events)
    && Genuine(s, events) && OnePerSerial(events, s.totalPublished)
  }

  lemma {:induction false} RunInv(ordering: Ordering, run: seq<Action>)
    requires CanRun(Start(ordering), run)
    ensures var (s, events) := Run(Start(ordering), run); Inv(s, events) && s.ordering == ordering
  {
    if run == [] {
      NothingMentioned();
    } else {
      hide Located, HandledOnce, Balanced, InOrder, Genuine, OnePerSerial, Step;
      var n := |run| - 1;
      RunInv(ordering, run[..n]);
      var (s, events) := Run(Start(ordering), run[..n]);
      StepLocated(s, events, run[n]);
      StepHandledOnce(s, events, run[n]);
      StepBalanced(s, events, run[n]);
      StepInOrder(s, events, run[n]);
      StepGenuine(s, events, run[n]);
    }
  }

  /**
   In every interleaving each published message is in exactly one place, with the topic, payload and
   priority it was published with, and the counters add up: published = queued + in hand + consumed + dropped.
   */
  lemma ExactlyOnePlace(ordering: Ordering, run: seq<Action>)
    requires CanRun(Start(ordering), run)
    ensures var (s, events) := Run(Start(ordering), run);
      && s.totalPublished == |s.queue| + |Busy(s.consumers)| + s.totalConsumed + DroppedCount(events)
      && (forall n: nat :: n < s.totalPublished <==> Where(events, n) != Nowhere)
      && (forall n: nat :: Mentions(s.queue, n) <==> Where(events, n) == Queued)
      && (forall n: nat, c :: Has(s, c, n) <==> Where(events, n) == With(c))
      && (forall i, j :: 0 <= i < j < |s.queue| ==> s.queue[i].serial != s.queue[j].serial)
      && Genuine(s, events) && OnePerSerial(events, s.totalPublished)
  {
    hide Where, Run, HandledTimes, DroppedCount, Genuine, OnePerSerial;
    RunInv(ordering, run);
  }

  /** The message of the i-th event was published before, and a handler gets it for the topic it subscribed to. */
  ghost predicate RightlyHandled(run: seq<Action>, events: seq<Event>, i: nat)
    requires i < |events| == |run|
  {
    && (Moves(events[i]) ==> Published(events[i].m) in events[..i])
    && (events[i].Handled? ==> Subscription(run[..i], events[i].c) == Some(events[i].m.topic))
  }

  ghost predicate AllRight(run: seq<Action>, events: seq<Event>) {
    |run| == |events| && forall i :: 0 <= i < |run| ==> RightlyHandled(run, events, i)
  }

  lemma OneMoreRight(run: seq<Action>, events: seq<Event>, a: Action, e: Event)
    requires AllRight(run, events)
    requires Moves(e) ==> Published(e.m) in events
    requires e.Handled? ==> Subscription(run, e.c) == Some(e.m.topic)
    ensures AllRight(run + [a], events + [e])
  {
    hide Subscription;
    forall i | 0 <= i <= |run| ensures RightlyHandled(run + [a], events + [e], i) {
      assert (run + [a])[..i] == run[..i] && (events + [e])[..i] == events[..i];
      assert i == |run| ==> run[..i] == run && events[..i] == events;
      assert i < |run| ==> RightlyHandled(run, events, i);
    }
  }

  lemma RunSnoc(s: Broker, run: seq<Action>)
    requires CanRun(s, run) && run != []
    ensures CanRun(s, run[..|run| - 1])
    ensures var n := |run| - 1;
      var before := Run(s, run[..n]);
      && run[..n] + [run[n]] == run && Enabled(before.0, run[n])
      && Run(s, run) == (Step(before.0, run[n]).0, before.1 + [Step(before.0, run[n]).1])
  {
    hide Step, Enabled;
    var n := |run| - 1;
    assert CanRun(s, run[..n]) && Enabled(Run(s, run[..n]).0, run[n]);
    hide CanRun;
    assert run[..n] + [run[n]] == run;
  }

  /**
   Whatever is taken, handled, counted or re-queued is a message as it was published before, and a
   handler only sees messages of the topic that its consumer's last subscription named.
   */
  lemma {:induction false} HandledByTopic(ordering: Ordering, run: seq<Action>)
    requires CanRun(Start(ordering), run)
    ensures var (s, events) := Run(Start(ordering), run); Subscribed(s, run) && AllRight(run, events)
  {
    if run != [] {
      hide Run, Step, Enabled, Genuine, OnePerSerial, Subscribed, AllRight, Subscription;
      RunSnoc(Start(ordering), run);
      var a, before := run[|run| - 1], run[..|run| - 1];
      var s, events := Run(Start(ordering), before).0, Run(Start(ordering), before).1;
      HandledByTopic(ordering, before);
      InvGenuine(ordering, before);
      StepGenuine(s, events, a);
      StepSubscribed(s, before, a);
      OneMoreRight(before, events, a, Step(s, a).1);
    }
  }

  lemma InvGenuine(ordering: Ordering, run: seq<Action>)
    requires CanRun(Start(ordering), run)
    ensures var (s, events) := Run(Start(ordering), run); Genuine(s, events) && OnePerSerial(events, s.totalPublished)
  {
    hide Run, Located, HandledOnce, Balanced, InOrder, Genuine, OnePerSerial;
    RunInv(ordering, run);
  }

  /** A message is handled at most once, and a consumed one exactly once. */
  lemma HandledAtMostOnce(ordering: Ordering, run: seq<Action>)
    requires CanRun(Start(ordering), run)
    ensures var events := Run(Start(ordering), run).1;
      forall n: nat :: HandledTimes(events, n) <= 1 && (Where(events, n) == Consumed ==> HandledTimes(events, n) == 1)
  {
    hide Located, Balanced, InOrder, CanRun, Run, Where, HandledTimes;
    RunInv(ordering, run);
  }

  /** What a consumer takes precedes everything it leaves behind. */
  lemma TakesFirst(ordering: Ordering, run: seq<Action>, c: Name)
    requires CanRun(Start(ordering), run) && Enabled(Run(Start(ordering), run).0, Take(c))
    ensures var (s, events) := Run(Start(ordering), run);
      var first, left := s.queue[0], s.queue[1..];
      && Step(s, Take(c)) == (s.(queue := left, consumers := InPhase(s, c, Holding(first))), Taken(c, first))
      && forall m :: m in left ==> Precedes(ordering, events, first, m)
  {
    RunInv(ordering, run);
    var (s, events) := Run(Start(ordering), run);
    forall m | m in s.queue[1..] ensures Precedes(ordering, events, s.queue[0], m) {
      var j :| 0 <= j < |s.queue[1..]| && s.queue[1..][j] == m;
      assert s.queue[j + 1] == m;
    }
  }

  // ----- Without re-queueing, time of entry is time of publication -----

  ghost predicate SerialsInOrder(events: seq<Event>, published: nat) {
    && (forall n: nat :: EnteredAt(events, n) > 0 <==> n < published)
    && (forall m: nat, n: nat :: m < n < published ==> EnteredAt(events, m) < EnteredAt(events, n))
  }

  lemma {:induction false} PublicationOrder(s: Broker, run: seq<Action>)
    requires s.totalPublished == 0 && CanRun(s, run) && forall i :: 0 <= i < |run| ==> !run[i].Requeue?
    ensures var (t, events) := Run(s, run); SerialsInOrder(events, t.totalPublished)
  {
    if run != [] {
      var n := |run| - 1;
      PublicationOrder(s, run[..n]);
      var (t, events) := Run(s, run[..n]);
      forall k { EntersExtend(events, Step(t, run[n]).1, k); }
    }
  }

  lemma QueuedSerials(s: Broker, events: seq<Event>)
    requires Located(s, events)
    ensures forall i :: 0 <= i < |s.queue| ==> s.queue[i].serial < s.totalPublished
  {
    hide Where;
    forall i | 0 <= i < |s.queue| ensures s.queue[i].serial < s.totalPublished {
      assert Mentions(s.queue, s.queue[i].serial);
    }
  }

  lemma FirstIsEarliest(q: seq<Message>, events: seq<Event>, published: nat)
    requires InOrder(ByPriority, q, events) && SerialsInOrder(events, published)
    requires q != [] && forall i :: 0 <= i < |q| ==> q[i].serial < published
    ensures forall m :: m in q[1..] ==> q[0].priority > m.priority || (q[0].priority == m.priority && q[0].serial < m.serial)
  {
    hide EnteredAt;
    forall m | m in q[1..] ensures q[0].priority > m.priority || (q[0].priority == m.priority && q[0].serial < m.serial) {
      var j :| 0 <= j < |q[1..]| && q[1..][j] == m;
      assert q[j + 1] == m && Precedes(ByPriority, events, q[0], q[j + 1]);
    }
  }

  /** Without re-queueing a take returns the earliest published message of the highest priority present. */
  lemma TakesEarliestOfHighest(run: seq<Action>, c: Name)
    requires CanRun(Start(ByPriority), run) && Enabled(Run(Start(ByPriority), run).0, Take(c))
    requires forall i :: 0 <= i < |run| ==> !run[i].Requeue?
    ensures var s := Run(Start(ByPriority), run).0;
      var first, left := s.queue[0], s.queue[1..];
      && Step(s, Take(c)) == (s.(queue := left, consumers := InPhase(s, c, Holding(first))), Taken(c, first))
      && forall m :: m in left ==> first.priority > m.priority || (first.priority == m.priority && first.serial < m.serial)
  {
    hide Run, CanRun, Located, HandledOnce, Balanced, InOrder, Genuine, OnePerSerial, SerialsInOrder;
    RunInv(ByPriority, run);
    PublicationOrder(Start(ByPriority), run);
    var (s, events) := Run(Start(ByPriority), run);
    QueuedSerials(s, events);
    FirstIsEarliest(s.queue, events, s.totalPublished);
  }

  // ----- First in, first out -----

  function Entering(events: seq<Event>): seq<Message> {
    if events == [] then []
    else
      var e := events[|events| - 1];
      Entering(events[..|events| - 1]) + if e.Published? || e.Requeued? then [e.m] else []
  }

  function Leaving(events: seq<Event>): seq<Message> {
    if events == [] then []
    else
      var e := events[|events| - 1];
      Leaving(events[..|events| - 1]) + if e.Taken? then [e.m] else []
  }

  lemma FlowExtend(events: seq<Event>, e: Event)
    ensures Entering(events + [e]) == Entering(events) + if e.Published? || e.Requeued? then [e.m] else []
    ensures Leaving(events + [e]) == Leaving(events) + if e.Taken? then [e.m] else []
    ensures PublishedIn(events + [e]) == PublishedIn(events) + if e.Published? then [e.m] else []
  {
    assert (events + [e])[..|events|] == events;
  }

  /** One step of a queue without priorities, seen as a flow of messages. */
  lemma FifoStep(s: Broker, a: Action)
    requires !s.ordering.ByPriority? && Enabled(s, a) && !a.Clear?
    ensures var (t, e) := Step(s, a);
      && t.ordering == s.ordering
      && s.queue + (if e.Published? || e.Requeued? then [e.m] else []) == (if e.Taken? then [e.m] else []) + t.queue
  {
  }

  lemma Flow(first: seq<Message>, entered: seq<Message>, left: seq<Message>, q: seq<Message>,
             inn: seq<Message>, out: seq<Message>, q': seq<Message>)
    requires first + entered == left + q && q + inn == out + q'
    ensures first + (entered + inn) == (left + out) + q'
  {
    calc {
      first + (entered + inn);
      (first + entered) + inn;
      (left + q) + inn;
      left + (q + inn);
      left + (out + q');
      (left + out) + q';
    }
  }

  /** Without priorities, and until a clear, what was queued or enters leaves in that order. */
  lemma {:induction false} FifoLaw(s: Broker, run: seq<Action>)
    requires !s.ordering.ByPriority? && CanRun(s, run) && forall i :: 0 <= i < |run| ==> !run[i].Clear?
    ensures var (t, events) := Run(s, run);
      t.ordering == s.ordering && s.queue + Entering(events) == Leaving(events) + t.queue
  {
    if run != [] {
      hide Step, Enabled, Entering, Leaving;
      var n := |run| - 1;
      FifoLaw(s, run[..n]);
      var (t, events) := Run(s, run[..n]);
      var (u, e) := Step(t, run[n]);
      FlowExtend(events, e);
      FifoStep(t, run[n]);
      Flow(s.queue, Entering(events), Leaving(events), t.queue,
           if e.Published? || e.Requeued? then [e.m] else [], if e.Taken? then [e.m] else [], u.queue);
    }
  }

  /** A message with `p` messages ahead of it leaves on exactly the (p+1)-th later take. */
  lemma BoundedWait(s: Broker, run: seq<Action>, p: nat)
    requires !s.ordering.ByPriority? && CanRun(s, run) && forall i :: 0 <= i < |run| ==> !run[i].Clear?
    requires p < |s.queue|
    ensures var (t, events) := Run(s, run);
      var taken := Leaving(events);
      if p < |taken| then taken[p] == s.queue[p]
      else p - |taken| < |t.queue| && t.queue[p - |taken|] == s.queue[p]
  {
    FifoLaw(s, run);
    var (t, events) := Run(s, run);
    assert (s.queue + Entering(events))[p] == s.queue[p];
  }

  function OfTopic(ms: seq<Message>, topic: Key): seq<Message> {
    if ms == [] then []
    else
      var m := ms[|ms| - 1];
      OfTopic(ms[..|ms| - 1], topic) + if m.topic == topic then [m] else []
  }

  function PublishedIn(events: seq<Event>): seq<Message> {
    if events == [] then []
    else
      var e := events[|events| - 1];
      PublishedIn(events[..|events| - 1]) + if e.Published? then [e.m] else []
  }

  lemma {:induction false} OfTopicConcat(a: seq<Message>, b: seq<Message>, topic: Key)
    ensures OfTopic(a + b, topic) == OfTopic(a, topic) + OfTopic(b, topic)
  {
    if b == [] {
      assert a + b == a;
    } else {
      var front, m := b[..|b| - 1], b[|b| - 1];
      var x := if m.topic == topic then [m] else [];
      OfTopicConcat(a, front, topic);
      assert (a + b)[..|a + b| - 1] == a + front;
      hide OfTopic;
      assert (OfTopic(a, topic) + OfTopic(front, topic)) + x == OfTopic(a, topic) + (OfTopic(front, topic) + x);
    }
  }

  lemma OfTopicSnoc(ms: seq<Message>, m: Message, topic: Key)
    ensures OfTopic(ms + [m], topic) == OfTopic(ms, topic) + if m.topic == topic then [m] else []
  {
    assert (ms + [m])[..|ms|] == ms;
  }

  ghost predicate OnlyTopic(s: Broker, topic: Key) {
    forall c :: c in s.consumers ==> s.consumers[c].topic == topic
  }

  lemma TopicStep(s: Broker, a: Action, topic: Key)
    requires OnlyTopic(s, topic) && Enabled(s, a) && (a.Subscribe? ==> a.topic == topic)
    ensures var (t, e) := Step(s, a); OnlyTopic(t, topic) && (e.Requeued? ==> e.m.topic != topic)
  {
  }

  /** With every consumer on one topic, its messages enter the queue only by being published. */
  lemma {:induction false} NoRequeueOfTopic(s: Broker, run: seq<Action>, topic: Key)
    requires OnlyTopic(s, topic) && CanRun(s, run)
    requires forall i :: 0 <= i < |run| && run[i].Subscribe? ==> run[i].topic == topic
    ensures var (t, events) := Run(s, run);
      OnlyTopic(t, topic) && OfTopic(Entering(events), topic) == OfTopic(PublishedIn(events), topic)
  {
    if run != [] {
      hide Step, Enabled, OnlyTopic, Entering, PublishedIn, OfTopic;
      var n := |run| - 1;
      NoRequeueOfTopic(s, run[..n], topic);
      var (t, events) := Run(s, run[..n]);
      var e := Step(t, run[n]).1;
      TopicStep(t, run[n], topic);
      FlowExtend(events, e);
      if e.Published? || e.Requeued? {
        OfTopicSnoc(Entering(events), e.m, topic);
        OfTopicSnoc(PublishedIn(events), e.m, topic);
      }
      assert PublishedIn(events) + [] == PublishedIn(events) && Entering(events) + [] == Entering(events);
    }
  }

  /** With every consumer on one topic, that topic's messages leave in publication order. */
  lemma TopicLeavesInOrder(ordering: Ordering, run: seq<Action>, topic: Key)
    requires !ordering.ByPriority? && CanRun(Start(ordering), run)
    requires forall i :: 0 <= i < |run| ==> !run[i].Clear? && (run[i].Subscribe? ==> run[i].topic == topic)
    ensures var (t, events) := Run(Start(ordering), run);
      OfTopic(PublishedIn(events), topic) == OfTopic(Leaving(events), topic) + OfTopic(t.queue, topic)
  {
    FifoLaw(Start(ordering), run);
    NoRequeueOfTopic(Start(ordering), run, topic);
    var (t, events) := Run(Start(ordering), run);
    OfTopicConcat(Leaving(events), t.queue, topic);
    assert [] + Entering(events) == Entering(events);
  }

  // ----- Unsubscribing -----

  ghost predicate Stopped(s: Broker, c: Name) {
    c in s.consumers ==> !s.consumers[c].active
  }

  predicate LetGo(e: Event, c: Name, serial: nat) {
    (e.Counted? || e.Requeued?) && e.c == c && e.m.serial == serial
  }

  lemma StoppedStep(s: Broker, c: Name, a: Action)
    requires Stopped(s, c) && Enabled(s, a) && (a.Subscribe? ==> a.c != c)
    ensures var (t, e) := Step(s, a);
      && Stopped(t, c) && (e.Taken? ==> e.c != c)
      && forall n: nat :: Has(s, c, n) ==> Has(t, c, n) || LetGo(e, c, n)
  {
  }

  /** A stopped consumer takes no further message, but keeps the one it holds until it is consumed or re-queued. */
  lemma {:induction false} StoppedTakesNothing(s: Broker, c: Name, run: seq<Action>, serial: nat)
    requires Stopped(s, c) && CanRun(s, run)
    requires forall i :: 0 <= i < |run| && run[i].Subscribe? ==> run[i].c != c
    ensures var (t, events) := Run(s, run);
      && Stopped(t, c)
      && (forall e :: e in events && e.Taken? ==> e.c != c)
      && (Has(s, c, serial) ==> Has(t, c, serial) || exists e :: e in events && LetGo(e, c, serial))
  {
    if run != [] {
      hide Stopped, Has, LetGo, Step, Enabled;
      var n := |run| - 1;
      StoppedTakesNothing(s, c, run[..n], serial);
      var (t, events) := Run(s, run[..n]);
      StoppedStep(t, c, run[n]);
      var e := Step(t, run[n]).1;
      assert e in Run(s, run).1 && forall x :: x in events ==> x in Run(s, run).1;
    }
  }
}
