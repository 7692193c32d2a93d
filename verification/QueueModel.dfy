/**
 The message queue as a value, and the broker around it as a transition system: publishers and any
 number of consumer threads, each locked region (and each handler call) one action.
 */
module QueueModel {
  import opened Common

  datatype Ordering = Unordered | Fifo | ByPriority

  /** `serial` numbers the messages in the order they were published. */
  datatype Message = Message(serial: nat, topic: Key, payload: Bytes, priority: int)

  /** Where the scan from the head stops: before the first message of strictly lower priority. */
  function Slot(q: seq<Message>, priority: int): (p: nat)
    ensures p <= |q|
    ensures forall i :: 0 <= i < p ==> q[i].priority >= priority
    ensures p < |q| ==> q[p].priority < priority
  {
    if q != [] && q[0].priority >= priority then 1 + Slot(q[1..], priority) else 0
  }

  function Enqueue(ordering: Ordering, q: seq<Message>, m: Message): (r: seq<Message>)
    ensures |r| == |q| + 1
  {
    var p := if ordering.ByPriority? then Slot(q, m.priority) else |q|;
    q[..p] + [m] + q[p..]
  }

  /** A consumer thread between two critical sections. */
  datatype Phase = Idle | Holding(m: Message) | Finished(m: Message)

  datatype Consumer = Consumer(topic: Key, active: bool, phase: Phase)

  type Name = int

  datatype Broker = Broker(ordering: Ordering, queue: seq<Message>, consumers: map<Name, Consumer>,
                           totalPublished: nat, totalConsumed: nat)

  datatype Action =
    | Publish(topic: Key, payload: Bytes, priority: int)
    | Subscribe(c: Name, topic: Key)
    | Take(c: Name)
    | Handle(c: Name)
    | Count(c: Name)
    | Requeue(c: Name)
    | Stop(c: Name)
    | Leave(c: Name)
    | Clear

  datatype Event =
    | Published(m: Message)
    | Taken(c: Name, m: Message)
    | Handled(c: Name, topic: Key, m: Message)
    | Counted(c: Name, m: Message)
    | Requeued(c: Name, m: Message)
    | Dropped(ms: seq<Message>)
    | Quiet

  function Start(ordering: Ordering): Broker {
    Broker(ordering, [], map[], 0, 0)
  }

  /** A thread takes a message only while it is active, but finishes the one it holds regardless. */
  predicate Enabled(s: Broker, a: Action) {
    match a
    case Publish(_, payload, _) => payload != []
    case Clear => true
    case Subscribe(c, _) => c !in s.consumers
    case Take(c) => c in s.consumers && s.consumers[c].active && s.consumers[c].phase.Idle? && s.queue != []
    case Handle(c) => c in s.consumers && s.consumers[c].phase.Holding? && s.consumers[c].phase.m.topic == s.consumers[c].topic
    case Count(c) => c in s.consumers && s.consumers[c].phase.Finished?
    case Requeue(c) => c in s.consumers && s.consumers[c].phase.Holding? && s.consumers[c].phase.m.topic != s.consumers[c].topic
    case Stop(c) => c in s.consumers
    case Leave(c) => c in s.consumers && !s.consumers[c].active && s.consumers[c].phase.Idle?
  }

  function InPhase(s: Broker, c: Name, phase: Phase): map<Name, Consumer>
    requires c in s.consumers
  {
    s.consumers[c := s.consumers[c].(phase := phase)]
  }

  function Step(s: Broker, a: Action): (Broker, Event)
    requires Enabled(s, a)
  {
    match a
    case Publish(topic, payload, priority) =>
      var m := Message(s.totalPublished, topic, payload, priority);
      (s.(queue := Enqueue(s.ordering, s.queue, m), totalPublished := s.totalPublished + 1), Published(m))
    case Subscribe(c, topic) => (s.(consumers := s.consumers[c := Consumer(topic, true, Idle)]), Quiet)
    case Take(c) => (s.(queue := s.queue[1..], consumers := InPhase(s, c, Holding(s.queue[0]))), Taken(c, s.queue[0]))
    case Handle(c) =>
      var m := s.consumers[c].phase.m;
      (s.(consumers := InPhase(s, c, Finished(m))), Handled(c, s.consumers[c].topic, m))
    case Count(c) =>
      (s.(totalConsumed := s.totalConsumed + 1, consumers := InPhase(s, c, Idle)), Counted(c, s.consumers[c].phase.m))
    case Requeue(c) =>
      var m := s.consumers[c].phase.m;
      (s.(queue := Enqueue(s.ordering, s.queue, m), consumers := InPhase(s, c, Idle)), Requeued(c, m))
    case Stop(c) => (s.(consumers := s.consumers[c := s.consumers[c].(active := false)]), Quiet)
    case Leave(c) => (s.(consumers := s.consumers - {c}), Quiet)
    case Clear => (s.(queue := []), Dropped(s.queue))
  }

  predicate CanRun(s: Broker, run: seq<Action>)
    decreases |run|, 0
  {
    if run == [] then true
    else CanRun(s, run[..|run| - 1]) && Enabled(Run(s, run[..|run| - 1]).0, run[|run| - 1])
  }

  /** The state and the events after a whole run. */
  function Run(s: Broker, run: seq<Action>): (r: (Broker, seq<Event>))
    requires CanRun(s, run)
    ensures |r.1| == |run|
    decreases |run|, 1
  {
    if run == [] then (s, [])
    else
      var p := Run(s, run[..|run| - 1]);
      var n := Step(p.0, run[|run| - 1]);
      (n.0, p.1 + [n.1])
  }

  lemma {:induction false} CanRunPrefix(s: Broker, run: seq<Action>)
    requires CanRun(s, run)
    ensures forall i :: 0 <= i <= |run| ==> CanRun(s, run[..i])
  {
    hide Enabled, Step;
    if run != [] {
      var n := |run| - 1;
      CanRunPrefix(s, run[..n]);
      forall i | 0 <= i <= |run| ensures CanRun(s, run[..i]) {
        if i <= n { assert run[..n][..i] == run[..i]; } else { assert run[..i] == run; }
      }
    }
  }
}
