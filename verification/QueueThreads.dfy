/**
 A queue together with all of its consumer threads: any number of them, each holding at most one node
 and no two the same.  Every operation of one thread keeps all the others as they are and takes one
 step of QueueModel, so its whole-run results hold of these objects.
 */
module QueueThreads {
  import opened Common
  import Q = QueueModel
  import opened MessageQueue

  class Threads {
    const queue: MQueue
    var threads: map<Q.Name, ConsumerThread>

    ghost predicate Own(c: Q.Name)
      requires c in threads
      reads this, threads.Values
    {
      var t := threads[c];
      t in threads.Values && t.queue == queue && t.name == c
    }

    /** What the thread holds is out of the list, and nobody else holds it. */
    ghost predicate HoldsAlone(c: Q.Name)
      requires c in threads
      reads this, queue, threads.Values
    {
      var node := threads[c].held;
      node != null ==>
        && node !in queue.nodes && node in queue.repr
        && forall d :: d in threads && d != c ==> threads[d].held != node
    }

    ghost predicate Valid()
      reads this, queue, queue.repr, threads.Values
    {
      && queue.Valid()
      && (forall c :: c in threads ==> Own(c))
      && (forall c :: c in threads ==> HoldsAlone(c))
    }

    ghost function Consumers(): map<Q.Name, Q.Consumer>
      reads this, threads.Values
    {
      map c | c in threads :: threads[c].Consumer()
    }

    ghost function State(): Q.Broker
      reads this, queue, threads.Values
    {
      queue.State(Consumers())
    }

    lemma AllDifferent(c: Q.Name)
      requires Valid() && c in threads
      ensures threads[c].queue == queue && threads[c].name == c && threads[c].Valid()
      ensures forall d :: d in threads && d != c ==> threads[d] != threads[c]
    {
      hide MQueue.Valid;
      assert Own(c) && HoldsAlone(c);
      forall d | d in threads && d != c ensures threads[d] != threads[c] {
        assert Own(d);
      }
    }

    lemma OneChanged(before: map<Q.Name, Q.Consumer>, c: Q.Name)
      requires c in threads && before.Keys == threads.Keys
      requires forall d :: d in threads && d != c ==> before[d] == threads[d].Consumer()
      ensures Consumers() == before[c := threads[c].Consumer()]
    {
      var now, after := Consumers(), before[c := threads[c].Consumer()];
      assert forall d :: d in now <==> d in threads.Keys;
      assert forall d :: d in now ==> now[d] == after[d];
    }

    constructor (ordering: Q.Ordering)
      ensures Valid() && State() == Q.Start(ordering) && fresh(queue) && fresh(queue.repr)
    {
      queue := new MQueue(ordering);
      threads := map[];
    }

    method Publish(topic: Option<Key>, payload: Option<Bytes>, priority: int) returns (status: Status)
      requires Valid()
      modifies queue, queue.repr
      ensures Valid() && fresh(queue.repr - old(queue.repr))
      ensures if topic.None? || payload.None? || payload.value == []
        then status == InvalidParam && State() == old(State())
        else status == Success && State() == Q.Step(old(State()), Q.Publish(topic.value, payload.value, priority)).0
    {
      hide MQueue.Valid, Q.Enqueue;
      status := queue.Publish(topic, payload, priority);
      assert Consumers() == old(Consumers());
    }

    method Subscribe(c: Q.Name, topic: Key)
      requires Valid() && c !in threads
      modifies this`threads
      ensures Valid() && fresh(threads.Values - old(threads).Values)
      ensures State() == Q.Step(old(State()), Q.Subscribe(c, topic)).0
    {
      hide MQueue.Valid;
      var t := new ConsumerThread(queue, topic, c);
      threads := threads[c := t];
      assert Consumers() == old(Consumers())[c := Q.Consumer(topic, true, Q.Idle)];
    }

    method Take(c: Q.Name) returns (taken: bool)
      requires Valid() && c in threads && threads[c].held == null
      modifies queue, threads[c]
      ensures Valid() && queue.repr == old(queue.repr) && (taken <==> old(threads[c].active) && old(queue.contents) != [])
      ensures taken == old(Q.Enabled(State(), Q.Take(c)))
      ensures State() == old(if taken then Q.Step(State(), Q.Take(c)).0 else State())
    {
      hide MQueue.Valid;
      ghost var others := Consumers();
      assert others[c := threads[c].Consumer()] == others;
      AllDifferent(c);
      taken := threads[c].Take(others);
      OneChanged(others, c);
    }

    method Dispatch(c: Q.Name) returns (matches: bool)
      requires Valid() && c in threads && threads[c].held != null && !threads[c].handled
      modifies queue, queue.repr`next, threads[c]
      ensures Valid() && queue.repr == old(queue.repr)
      ensures matches <==> old(threads[c].held.message.topic) == threads[c].topic
      ensures Q.Enabled(old(State()), if matches then Q.Handle(c) else Q.Requeue(c))
      ensures State() == Q.Step(old(State()), if matches then Q.Handle(c) else Q.Requeue(c)).0
    {
      hide MQueue.Valid, Q.Enqueue;
      ghost var others := Consumers();
      assert others[c := threads[c].Consumer()] == others;
      AllDifferent(c);
      matches := threads[c].Dispatch(others);
      OneChanged(others, c);
    }

    method CountConsumed(c: Q.Name)
      requires Valid() && c in threads && threads[c].held != null && threads[c].handled
      modifies queue, threads[c]
      ensures Valid() && queue.repr == old(queue.repr) && State() == Q.Step(old(State()), Q.Count(c)).0
    {
      hide MQueue.Valid;
      ghost var others := Consumers();
      assert others[c := threads[c].Consumer()] == others;
      AllDifferent(c);
      threads[c].CountConsumed(others);
      OneChanged(others, c);
    }

    method Stop(c: Q.Name)
      requires Valid() && c in threads
      modifies threads[c]
      ensures Valid() && State() == Q.Step(old(State()), Q.Stop(c)).0
    {
      hide MQueue.Valid;
      ghost var others := Consumers();
      assert others[c := threads[c].Consumer()] == others;
      AllDifferent(c);
      threads[c].Stop(others);
      OneChanged(others, c);
    }

    /** The end of an unsubscription: the thread has been joined and leaves the list. */
    method Leave(c: Q.Name)
      requires Valid() && c in threads && !threads[c].active && threads[c].held == null
      modifies this`threads
      ensures Valid() && threads.Values <= old(threads).Values && State() == Q.Step(old(State()), Q.Leave(c)).0
    {
      hide MQueue.Valid;
      threads := threads - {c};
      assert Consumers() == old(Consumers()) - {c};
    }

    method Clear()
      requires Valid()
      modifies queue
      ensures Valid() && queue.repr == old(queue.repr) && State() == Q.Step(old(State()), Q.Clear).0
    {
      hide MQueue.Valid;
      queue.Clear();
      assert Consumers() == old(Consumers());
    }

    /** Every action that the model allows can be performed on the objects, with the model's effect. */
    method Perform(a: Q.Action)
      requires Valid() && Q.Enabled(State(), a)
      modifies this, queue, queue.repr, threads.Values
      ensures Valid() && State() == Q.Step(old(State()), a).0
      ensures fresh(queue.repr - old(queue.repr)) && fresh(threads.Values - old(threads).Values)
    {
      hide MQueue.Valid, Q.Enqueue;
      match a
      case Publish(topic, payload, priority) => var _ := Publish(Some(topic), Some(payload), priority);
      case Subscribe(c, topic) => Subscribe(c, topic);
      case Take(c) => var _ := Take(c);
      case Handle(c) => var _ := Dispatch(c);
      case Requeue(c) => var _ := Dispatch(c);
      case Count(c) => CountConsumed(c);
      case Stop(c) => Stop(c);
      case Leave(c) => Leave(c);
      case Clear => Clear();
    }

    /** The objects follow the model through any run. */
    method PerformAll(run: seq<Q.Action>)
      requires Valid() && Q.CanRun(State(), run)
      modifies this, queue, queue.repr, threads.Values
      ensures Valid() && State() == Q.Run(old(State()), run).0
    {
      hide MQueue.Valid, Q.Step, Q.Enabled;
      Q.CanRunPrefix(State(), run);
      for i := 0 to |run|
        invariant Valid() && State() == Q.Run(old(State()), run[..i]).0
        invariant fresh(queue.repr - old(queue.repr)) && fresh(threads.Values - old(threads).Values)
      {
        assert run[..i + 1][..i] == run[..i];
        Perform(run[i]);
      }
      assert run[..|run|] == run;
    }
  }
}
