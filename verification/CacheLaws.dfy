/**
 What callers of the cache can rely on, said about the operations of a run and for both policies:
 what a put, a delete and a clear mean for later reads of the key, and that they leave other keys alone.
 */
module CacheLaws {
  import opened Common
  import opened CacheModel
  import opened CacheRuns

  /** A delete removes something exactly when a get at the same moment would have hit. */
  lemma DeleteReportsIff(c: Cache, key: Key, now: nat)
    ensures DoDelete(c, key, now).1 == if DoGet(c, key, now).1.Hit? then Removed(key) else Absent
    ensures DoGet(c, key, now).1.Missed? ==> DoDelete(c, key, now).0 == c
  {
  }

  // ----- Deleted and cleared keys -----

  ghost predicate AllExpired(items: seq<Item>, key: Key, now: nat) {
    forall x :: x in items && x.key == key ==> Expired(x, now)
  }

  predicate Writes(op: Op, key: Key) {
    op.Put? && op.key == key
  }

  predicate Removes(op: Op, key: Key) {
    op.Clear? || (op.Delete? && op.key == key)
  }

  lemma RemovalExpires(c: Cache, before: nat, op: Op, key: Key)
    requires Inv(c, before) && before <= op.now && Removes(op, key)
    ensures AllExpired(Step(c, op).0.items, key, op.now)
  {
    InvLater(c, before, op.now);
    if op.Delete? {
      var r := Find(c.items, key, op.now);
      if r.Some? { LeftExpired(c.items, r.value, op.now); } else { MissMeansExpired(c.items, key, op.now); }
    }
  }

  lemma ExpiredMisses(items: seq<Item>, key: Key, now: nat)
    requires AllExpired(items, key, now)
    ensures Find(items, key, now).None?
  {
    var r := Newest(items, key);
    assert r.Some? ==> items[r.value] in items;
  }

  /** Entries an operation leaves are old ones, or one that it wrote or touched under its own key. */
  lemma StepItems(c: Cache, before: nat, op: Op)
    requires Inv(c, before) && before <= op.now && !op.Clear?
    ensures forall x :: x in Step(c, op).0.items ==>
      x in c.items || (x.key == op.key && (op.Put? || Find(c.items, op.key, op.now).Some?))
  {
    hide Find, ShadowsExpired, DistinctIds;
    InvLater(c, before, op.now);
    match Find(c.items, op.key, op.now)
    case Some(i) =>
      var it := if op.Put? then c.items[i].(value := op.value, stamp := op.now, ttl := op.ttl)
                else c.items[i].(hits := c.items[i].hits + 1);
      TouchElements(c.policy, c.items[i := it], i);
      assert forall x :: x in c.items[i := it] ==> x in c.items || x == it;
      assert forall x :: x in RemoveAt(c.items, i) ==> x in c.items;
    case None =>
      assert forall x :: x in MakeRoom(c).items ==> x in c.items;
  }

  lemma StaysExpired(c: Cache, before: nat, op: Op, key: Key)
    requires Inv(c, before) && before <= op.now && AllExpired(c.items, key, before) && !Writes(op, key)
    ensures AllExpired(Step(c, op).0.items, key, op.now)
  {
    assert AllExpired(c.items, key, op.now);
    if !op.Clear? {
      ExpiredMisses(c.items, key, op.now);
      StepItems(c, before, op);
    }
  }

  /**
   In any run, under either policy: once a key was deleted, or everything cleared, and the key was not put
   again, a read of it misses.
   */
  lemma {:induction false} GoneStaysGone(policy: Policy, capacity: nat, ops: seq<Op>, i: nat, key: Key)
    requires 1 <= capacity && Ordered(ops) && i < |ops| && Removes(ops[i], key)
    requires forall j :: i < j < |ops| ==> !Writes(ops[j], key)
    ensures var c := Run(Empty(policy, capacity), ops).0;
      AllExpired(c.items, key, EndOf(ops)) && forall now: nat :: EndOf(ops) <= now ==> DoGet(c, key, now).1 == Missed
  {
    hide Inv, Step, Agrees;
    var n := |ops| - 1;
    var rest, end := ops[..n], Run(Empty(policy, capacity), ops).0;
    RunAgrees(policy, capacity, rest);
    var c := Run(Empty(policy, capacity), rest).0;
    if i == n {
      RemovalExpires(c, EndOf(rest), ops[n], key);
    } else {
      GoneStaysGone(policy, capacity, rest, i, key);
      StaysExpired(c, EndOf(rest), ops[n], key);
    }
    forall now: nat | EndOf(ops) <= now ensures DoGet(end, key, now).1 == Missed {
      ExpiredMisses(end.items, key, now);
    }
  }

  // ----- Puts -----

  lemma RunSnoc(policy: Policy, capacity: nat, ops: seq<Op>, op: Op)
    requires Ordered(ops) && EndOf(ops) <= op.now
    ensures var p := Run(Empty(policy, capacity), ops);
      && Run(Empty(policy, capacity), ops + [op]) == (Step(p.0, op).0, p.1 + [Step(p.0, op).1])
      && Ordered(ops + [op]) && EndOf(ops + [op]) == op.now
  {
    hide Step;
    assert (ops + [op])[..|ops|] == ops;
  }

  /** After a put, a read hits with the value put until the time to live has passed, and misses from then on. */
  lemma PutThenGet(policy: Policy, capacity: nat, ops: seq<Op>, put: Op, now: nat)
    requires 1 <= capacity && Ordered(ops) && put.Put? && EndOf(ops) <= put.now <= now
    ensures var c := Run(Empty(policy, capacity), ops + [put]).0;
      var e := DoGet(c, put.key, now).1;
      if put.ttl > 0 && now - put.now > put.ttl then e == Missed else e.Hit? && e.value == put.value
  {
    hide Step, DoGet, LastPut, Find, Run;
    RunSnoc(policy, capacity, ops, put);
    ReadsLatest(policy, capacity, ops + [put], put.key, now);
    PutIsLatest(policy, capacity, ops, put);
  }

  lemma PutIsLatest(policy: Policy, capacity: nat, ops: seq<Op>, put: Op)
    requires put.Put? && Ordered(ops) && EndOf(ops) <= put.now
    ensures var latest := Latest(Run(Empty(policy, capacity), ops + [put]).1, put.key);
      latest.Some? && latest.value.value == put.value && latest.value.stamp == put.now && latest.value.ttl == put.ttl
  {
    hide Find, Run, Touch;
    RunSnoc(policy, capacity, ops, put);
    var p := Run(Empty(policy, capacity), ops);
    assert (p.1 + [Step(p.0, put).1])[..|p.1|] == p.1;
  }

  // ----- Other keys -----

  /** What reads, and operations on other keys, do to the latest put of a key. */
  lemma LatestOfOther(c: Cache, events: seq<Event>, op: Op, key: Key)
    requires op.Get? || (!op.Clear? && op.key != key)
    ensures var e := Step(c, op).1;
      var earlier := Latest(events, key);
      && (e.Stored? <==> op.Put?)
      && Latest(events + [e], key) ==
           if earlier.Some? && op.Put? && e.evicted == Some(earlier.value.id) then None else earlier
  {
    hide Find, Touch, Victim;
    var e := Step(c, op).1;
    assert (events + [e])[..|events|] == events;
  }

  /** A read changes nothing for any key, nor does a write for another key, unless a put evicts that very entry. */
  lemma OtherKeysKept(policy: Policy, capacity: nat, ops: seq<Op>, op: Op, key: Key, now: nat)
    requires 1 <= capacity && Ordered(ops) && EndOf(ops) <= op.now <= now
    requires op.Get? || (!op.Clear? && op.key != key)
    ensures var c, d := Run(Empty(policy, capacity), ops).0, Run(Empty(policy, capacity), ops + [op]).0;
      var before, after, e := DoGet(c, key, now).1, DoGet(d, key, now).1, Step(c, op).1;
      && (op.Put? ==> e.Stored?)
      && after == if before.Hit? && op.Put? && e.evicted == Some(before.id) then Missed else before
  {
    hide Step, DoGet, Find, Run, Latest;
    RunSnoc(policy, capacity, ops, op);
    ReadsLatest(policy, capacity, ops, key, now);
    ReadsLatest(policy, capacity, ops + [op], key, now);
    LatestOfOther(Run(Empty(policy, capacity), ops).0, Run(Empty(policy, capacity), ops).1, op, key);
  }
}
