/**
 What holds in every run of the cache: the bookkeeping invariant, agreement with the
 history of the run, and the choice of the evicted entry.
 */
module CacheRuns {
  import opened Common
  import opened CacheModel

  ghost predicate DistinctIds(items: seq<Item>) {
    forall i, j :: 0 <= i < j < |items| ==> items[i].id != items[j].id
  }

  /** Of two entries with one key, the older is expired, and so will stay expired. */
  ghost predicate ShadowsExpired(items: seq<Item>, now: nat) {
    forall x, y :: x in items && y in items && x.key == y.key && x.id < y.id ==> Expired(x, now)
  }

  ghost predicate ItemsInv(items: seq<Item>, nextId: nat, now: nat) {
    && DistinctIds(items)
    && (forall x :: x in items ==> x.id < nextId && x.stamp <= now)
    && ShadowsExpired(items, now)
  }

  ghost predicate Inv(c: Cache, now: nat) {
    1 <= c.capacity && |c.items| <= c.capacity && ItemsInv(c.items, c.nextId, now)
  }

  lemma TouchElements(policy: Policy, items: seq<Item>, i: nat)
    requires i < |items|
    ensures forall x :: x in Touch(policy, items, i) <==> x in items
  {
  }

  lemma TouchDistinct(policy: Policy, items: seq<Item>, i: nat)
    requires i < |items| && DistinctIds(items)
    ensures DistinctIds(Touch(policy, items, i))
  {
  }

  lemma TouchInv(policy: Policy, items: seq<Item>, i: nat, nextId: nat, now: nat)
    requires i < |items| && ItemsInv(items, nextId, now)
    ensures ItemsInv(Touch(policy, items, i), nextId, now)
    ensures forall x :: x in Touch(policy, items, i) <==> x in items
  {
    hide Touch, DistinctIds;
    TouchElements(policy, items, i);
    TouchDistinct(policy, items, i);
  }

  lemma RemoveInv(items: seq<Item>, i: nat, nextId: nat, now: nat)
    requires i < |items| && ItemsInv(items, nextId, now)
    ensures ItemsInv(RemoveAt(items, i), nextId, now)
    ensures forall x :: x in RemoveAt(items, i) <==> x in items && x != items[i]
  {
  }

  /** Rewriting the newest live entry of a key. */
  lemma UpdateInv(items: seq<Item>, i: nat, it: Item, nextId: nat, now: nat)
    requires i < |items| && ItemsInv(items, nextId, now) && IsNewest(items, items[i].key, i)
    requires it.id == items[i].id && it.key == items[i].key && it.stamp <= now
    ensures ItemsInv(items[i := it], nextId, now)
    ensures forall x :: x in items[i := it] <==> x == it || (x in items && x != items[i])
  {
    var r := items[i := it];
    forall x | x == it || (x in items && x != items[i]) ensures x in r {
      if x == it { assert r[i] == x; } else {
        var k :| 0 <= k < |items| && items[k] == x;
        assert r[k] == x;
      }
    }
    forall x | x in r ensures x == it || (x in items && x != items[i]) {
      var k :| 0 <= k < |r| && r[k] == x;
    }
  }

  lemma InsertInv(items: seq<Item>, it: Item, nextId: nat, now: nat)
    requires ItemsInv(items, nextId, now)
    requires it.id == nextId && it.stamp == now
    requires forall x :: x in items && x.key == it.key ==> Expired(x, now)
    ensures ItemsInv([it] + items, nextId + 1, now)
  {
  }

  /** A lookup that fails means that every entry of the key is expired. */
  lemma MissMeansExpired(items: seq<Item>, key: Key, now: nat)
    requires ShadowsExpired(items, now) && DistinctIds(items) && Find(items, key, now).None?
    ensures forall x :: x in items && x.key == key ==> Expired(x, now)
  {
    var r := Newest(items, key);
    if r.Some? {
      forall x | x in items && x.key == key ensures Expired(x, now) {
        var k :| 0 <= k < |items| && items[k] == x;
        assert items[r.value] in items;
        assert x.id < items[r.value].id || k == r.value;
      }
    }
  }

  lemma InvLater(c: Cache, before: nat, now: nat)
    requires Inv(c, before) && before <= now
    ensures Inv(c, now)
  {
  }

  lemma PutInv(c: Cache, key: Key, value: Bytes, ttl: nat, now: nat)
    requires Inv(c, now)
    ensures Inv(DoPut(c, key, value, ttl, now).0, now)
  {
    match Find(c.items, key, now)
    case Some(i) =>
      var it := c.items[i].(value := value, stamp := now, ttl := ttl);
      UpdateInv(c.items, i, it, c.nextId, now);
      TouchInv(c.policy, c.items[i := it], i, c.nextId, now);
    case None =>
      MissMeansExpired(c.items, key, now);
      if |c.items| == c.capacity { RemoveInv(c.items, Victim(c.policy, c.items), c.nextId, now); }
      InsertInv(MakeRoom(c).items, Item(c.nextId, key, value, now, ttl, 0), c.nextId, now);
  }

  lemma GetInv(c: Cache, key: Key, now: nat)
    requires Inv(c, now)
    ensures Inv(DoGet(c, key, now).0, now)
  {
    hide Find, Touch, DistinctIds, ShadowsExpired;
    match Find(c.items, key, now)
    case Some(i) =>
      var it := c.items[i].(hits := c.items[i].hits + 1);
      assert c.items[i] in c.items;
      UpdateInv(c.items, i, it, c.nextId, now);
      TouchInv(c.policy, c.items[i := it], i, c.nextId, now);
    case None =>
  }

  lemma StepInv(c: Cache, before: nat, op: Op)
    requires Inv(c, before) && before <= op.now
    ensures Inv(Step(c, op).0, op.now)
  {
    InvLater(c, before, op.now);
    match op
    case Put(key, value, ttl, now) => PutInv(c, key, value, ttl, now);
    case Get(key, now) => GetInv(c, key, now);
    case Delete(key, now) =>
      var r := Find(c.items, key, now);
      if r.Some? { RemoveInv(c.items, r.value, c.nextId, now); }
    case Clear(_) =>
  }

  // ----- Agreement with the history -----

  datatype Record = Record(id: nat, value: Bytes, stamp: nat, ttl: nat)

  function RecordOf(x: Item): Record {
    Record(x.id, x.value, x.stamp, x.ttl)
  }

  /** The latest put of `key` that was not deleted, cleared or evicted since, read off the history alone. */
  function Latest(events: seq<Event>, key: Key): Option<Record> {
    if events == [] then None
    else
      var earlier := Latest(events[..|events| - 1], key);
      match events[|events| - 1]
      case Stored(id, k, value, ttl, now, evicted) =>
        if k == key then Some(Record(id, value, now, ttl))
        else if earlier.Some? && evicted == Some(earlier.value.id) then None
        else earlier
      case Removed(k) => if k == key then None else earlier
      case Cleared => None
      case _ => earlier
  }

  ghost predicate Holds(items: seq<Item>, key: Key, rec: Record) {
    exists x :: x in items && x.key == key && RecordOf(x) == rec
  }

  ghost predicate Agrees(items: seq<Item>, events: seq<Event>, now: nat) {
    && (forall x :: x in items ==> Latest(events, x.key) == Some(RecordOf(x)) || Expired(x, now))
    && (forall key :: Latest(events, key).Some? ==> Holds(items, key, Latest(events, key).value))
  }

  lemma UpdateAgrees(items: seq<Item>, events: seq<Event>, i: nat, it: Item, e: Event, now: nat)
    requires i < |items| && Agrees(items, events, now)
    requires IsNewest(items, it.key, i) && ShadowsExpired(items, now) && DistinctIds(items)
    requires it.id == items[i].id && it.key == items[i].key
    requires e == Stored(it.id, it.key, it.value, it.ttl, it.stamp, None)
    ensures Agrees(items[i := it], events + [e], now)
  {
    var r := items[i := it];
    assert (events + [e])[..|events|] == events;
    assert r[i] == it;
    forall x | x in r ensures Latest(events + [e], x.key) == Some(RecordOf(x)) || Expired(x, now) {
      var k :| 0 <= k < |r| && r[k] == x;
      if k != i { assert items[k] in items && items[i] in items; }
    }
    forall key | Latest(events + [e], key).Some? ensures Holds(r, key, Latest(events + [e], key).value) {
      if key != it.key {
        assert Holds(items, key, Latest(events, key).value);
        var x :| x in items && x.key == key && RecordOf(x) == Latest(events, key).value;
        var k :| 0 <= k < |items| && items[k] == x;
        assert r[k] == x;
      }
    }
  }

  lemma EvictAgrees(items: seq<Item>, events: seq<Event>, v: nat, it: Item, e: Event, nextId: nat, now: nat)
    requires v < |items| && ItemsInv(items, nextId, now) && Agrees(items, events, now)
    requires forall x :: x in items && x.key == it.key ==> Expired(x, now)
    requires e == Stored(it.id, it.key, it.value, it.ttl, it.stamp, Some(items[v].id))
    ensures Agrees([it] + RemoveAt(items, v), events + [e], now)
  {
  }

  lemma PutAgrees(c: Cache, events: seq<Event>, key: Key, value: Bytes, ttl: nat, now: nat)
    requires Inv(c, now) && Agrees(c.items, events, now)
    ensures var (d, e) := DoPut(c, key, value, ttl, now); Agrees(d.items, events + [e], now)
  {
    var (d, e) := DoPut(c, key, value, ttl, now);
    match Find(c.items, key, now)
    case Some(i) =>
      var it := c.items[i].(value := value, stamp := now, ttl := ttl);
      UpdateAgrees(c.items, events, i, it, e, now);
      TouchElements(c.policy, c.items[i := it], i);
    case None =>
      MissMeansExpired(c.items, key, now);
      if |c.items| == c.capacity {
        EvictAgrees(c.items, events, Victim(c.policy, c.items), d.items[0], e, c.nextId, now);
      } else {
        assert (events + [e])[..|events|] == events;
      }
  }

  lemma GetAgrees(c: Cache, events: seq<Event>, key: Key, now: nat)
    requires Inv(c, now) && Agrees(c.items, events, now)
    ensures var (d, e) := DoGet(c, key, now); Agrees(d.items, events + [e], now)
  {
    var (d, e) := DoGet(c, key, now);
    assert (events + [e])[..|events|] == events;
    match Find(c.items, key, now)
    case Some(i) =>
      var it := c.items[i].(hits := c.items[i].hits + 1);
      assert c.items[i] in c.items;
      UpdateInv(c.items, i, it, c.nextId, now);
      TouchInv(c.policy, c.items[i := it], i, c.nextId, now);
      forall k | Latest(events, k).Some? ensures Holds(d.items, k, Latest(events, k).value) {
        var x :| x in c.items && x.key == k && RecordOf(x) == Latest(events, k).value;
        var y := if x == c.items[i] then it else x;
        assert y in d.items && y.key == k && RecordOf(y) == RecordOf(x);
      }
    case None =>
  }

  lemma LatestAfterRemoval(events: seq<Event>, gone: Key, key: Key)
    ensures Latest(events + [Removed(gone)], key) == if key == gone then None else Latest(events, key)
    ensures Latest(events + [Absent], key) == Latest(events, key)
  {
    assert (events + [Removed(gone)])[..|events|] == events && (events + [Absent])[..|events|] == events;
  }

  /** What a delete leaves of its key was shadowed by the entry it removed. */
  lemma LeftExpired(items: seq<Item>, i: nat, now: nat)
    requires i < |items| && DistinctIds(items) && ShadowsExpired(items, now) && IsNewest(items, items[i].key, i)
    ensures forall x :: x in RemoveAt(items, i) && x.key == items[i].key ==> Expired(x, now)
  {
    forall x | x in RemoveAt(items, i) && x.key == items[i].key ensures Expired(x, now) {
      var k :| 0 <= k < |RemoveAt(items, i)| && RemoveAt(items, i)[k] == x;
      var j := if k < i then k else k + 1;
      assert items[j] == x && items[i] in items;
    }
  }

  lemma DeleteAgrees(c: Cache, events: seq<Event>, key: Key, now: nat)
    requires Inv(c, now) && Agrees(c.items, events, now)
    ensures var (d, e) := DoDelete(c, key, now); Agrees(d.items, events + [e], now)
  {
    hide Latest, Find, DistinctIds, ShadowsExpired;
    forall k { LatestAfterRemoval(events, key, k); }
    match Find(c.items, key, now)
    case Some(i) =>
      RemoveInv(c.items, i, c.nextId, now);
      LeftExpired(c.items, i, now);
      var r, after := RemoveAt(c.items, i), events + [Removed(key)];
      forall k | Latest(after, k).Some? ensures Holds(r, k, Latest(after, k).value) {
        var x :| x in c.items && x.key == k && RecordOf(x) == Latest(events, k).value;
        assert x in r;
      }
    case None =>
  }

  lemma StepAgrees(c: Cache, events: seq<Event>, before: nat, op: Op)
    requires Inv(c, before) && Agrees(c.items, events, before) && before <= op.now
    ensures var (d, e) := Step(c, op); Inv(d, op.now) && Agrees(d.items, events + [e], op.now)
  {
    InvLater(c, before, op.now);
    assert Agrees(c.items, events, op.now);
    StepInv(c, before, op);
    match op
    case Put(key, value, ttl, now) => PutAgrees(c, events, key, value, ttl, now);
    case Get(key, now) => GetAgrees(c, events, key, now);
    case Delete(key, now) => DeleteAgrees(c, events, key, now);
    case Clear(_) =>
  }

  /** Every run from the empty cache keeps the invariant and agrees with its own history. */
  lemma {:induction false} RunAgrees(policy: Policy, capacity: nat, ops: seq<Op>)
    requires 1 <= capacity && Ordered(ops)
    ensures var (c, events) := Run(Empty(policy, capacity), ops);
      Inv(c, EndOf(ops)) && Agrees(c.items, events, EndOf(ops)) && c.policy == policy && c.capacity == capacity
  {
    if ops != [] {
      var n := |ops| - 1;
      RunAgrees(policy, capacity, ops[..n]);
      var p := Run(Empty(policy, capacity), ops[..n]);
      StepAgrees(p.0, p.1, EndOf(ops[..n]), ops[n]);
    }
  }

  /**
   A read returns exactly the latest put of the key that was not deleted, cleared, evicted or
   expired; in particular no older value of the key reappears after the newest one is gone.
   */
  lemma ReadsLatest(policy: Policy, capacity: nat, ops: seq<Op>, key: Key, now: nat)
    requires 1 <= capacity && Ordered(ops) && EndOf(ops) <= now
    ensures var (c, events) := Run(Empty(policy, capacity), ops);
      var latest := Latest(events, key);
      DoGet(c, key, now).1 ==
        if latest.Some? && !(latest.value.ttl > 0 && now - latest.value.stamp > latest.value.ttl)
        then Hit(latest.value.id, latest.value.value) else Missed
  {
    RunAgrees(policy, capacity, ops);
    var (c, events) := Run(Empty(policy, capacity), ops);
    InvLater(c, EndOf(ops), now);
    var latest := Latest(events, key);
    var r := Find(c.items, key, now);
    if r.Some? {
      assert c.items[r.value] in c.items;
    } else {
      MissMeansExpired(c.items, key, now);
    }
  }

  /** The last put of `key` among the operations. */
  function LastPut(ops: seq<Op>, key: Key): (r: Option<Op>)
    ensures r.Some? ==> r.value.Put? && r.value.key == key
  {
    if ops == [] then None
    else
      var op := ops[|ops| - 1];
      if op.Put? && op.key == key then Some(op) else LastPut(ops[..|ops| - 1], key)
  }

  /** What the history calls latest is the last put operation of the key: its value, its time to live, its time. */
  lemma {:induction false} LatestIsLastPut(c: Cache, ops: seq<Op>, key: Key)
    ensures var latest, put := Latest(Run(c, ops).1, key), LastPut(ops, key);
      latest.Some? ==>
        && put.Some? && latest.value.value == put.value.value
        && latest.value.ttl == put.value.ttl && latest.value.stamp == put.value.now
  {
    hide Find, Touch, Victim;
    if ops != [] {
      var n := |ops| - 1;
      LatestIsLastPut(c, ops[..n], key);
      var p := Run(c, ops[..n]);
      assert Run(c, ops).1[..n] == p.1;
    }
  }

  // ----- Which entry is evicted -----

  predicate Touches(e: Event, id: nat) {
    (e.Stored? || e.Hit?) && e.id == id
  }

  /** Position (from 1) of the last put or hit of entry `id`; 0 when it was never touched. */
  function LastTouch(events: seq<Event>, id: nat): (t: nat)
    ensures t <= |events|
  {
    if events == [] then 0
    else if Touches(events[|events| - 1], id) then |events|
    else LastTouch(events[..|events| - 1], id)
  }

  /** Position (from 1) of the put that created entry `id`; 0 when there was none. */
  function BornAt(events: seq<Event>, id: nat): (t: nat)
    ensures t <= |events|
  {
    if events == [] then 0
    else
      var n := |events| - 1;
      var t := BornAt(events[..n], id);
      if t == 0 && events[n].Stored? && events[n].id == id then |events| else t
  }

  function HitCount(events: seq<Event>, id: nat): nat {
    if events == [] then 0
    else
      var n := |events| - 1;
      HitCount(events[..n], id) + if events[n].Hit? && events[n].id == id then 1 else 0
  }

  lemma Extend(events: seq<Event>, e: Event, id: nat)
    ensures LastTouch(events + [e], id) == if Touches(e, id) then |events| + 1 else LastTouch(events, id)
    ensures HitCount(events + [e], id) == HitCount(events, id) + if e.Hit? && e.id == id then 1 else 0
    ensures BornAt(events + [e], id) ==
      if BornAt(events, id) == 0 && e.Stored? && e.id == id then |events| + 1 else BornAt(events, id)
  {
    assert (events + [e])[..|events|] == events;
  }

  /** What the list is ordered by: the last touch under LRU, the insertion under LFU. */
  function Rank(policy: Policy, events: seq<Event>, id: nat): nat {
    if policy.LRU? then LastTouch(events, id) else BornAt(events, id)
  }

  /** The list is ordered by rank, latest first. */
  ghost predicate InOrder(policy: Policy, items: seq<Item>, events: seq<Event>) {
    forall i, j :: 0 <= i < j < |items| ==> Rank(policy, events, items[j].id) < Rank(policy, events, items[i].id)
  }

  ghost predicate Counted(items: seq<Item>, nextId: nat, events: seq<Event>) {
    && (forall x :: x in items ==> x.hits == HitCount(events, x.id) && 0 < BornAt(events, x.id))
    && (forall id :: nextId <= id ==> HitCount(events, id) == 0 && BornAt(events, id) == 0)
  }

  ghost predicate Tracked(c: Cache, events: seq<Event>) {
    InOrder(c.policy, c.items, events) && Counted(c.items, c.nextId, events)
  }

  lemma ExtendRank(policy: Policy, events: seq<Event>, e: Event, id: nat)
    ensures Rank(policy, events, id) <= |events|
    ensures policy.LRU? ==> Rank(policy, events + [e], id) == if Touches(e, id) then |events| + 1 else Rank(policy, events, id)
    ensures policy.LFU? && (Rank(policy, events, id) > 0 || !Touches(e, id)) ==> Rank(policy, events + [e], id) == Rank(policy, events, id)
  {
    Extend(events, e, id);
  }

  lemma MovedInOrder(items: seq<Item>, events: seq<Event>, i: nat, it: Item, e: Event)
    requires i < |items| && DistinctIds(items) && InOrder(LRU, items, events)
    requires it.id == items[i].id && Touches(e, it.id)
    ensures InOrder(LRU, MoveToFront(items[i := it], i), events + [e])
  {
    hide Rank;
    var r := MoveToFront(items[i := it], i);
    forall a, b | 0 <= a < b < |r| ensures Rank(LRU, events + [e], r[b].id) < Rank(LRU, events + [e], r[a].id) {
      ExtendRank(LRU, events, e, r[a].id);
      ExtendRank(LRU, events, e, r[b].id);
      assert r[b] == items[if b <= i then b - 1 else b];
      assert a > 0 ==> r[a] == items[if a <= i then a - 1 else a];
    }
  }

  lemma TouchInOrder(policy: Policy, items: seq<Item>, events: seq<Event>, i: nat, it: Item, e: Event)
    requires i < |items| && DistinctIds(items) && InOrder(policy, items, events)
    requires it.id == items[i].id && Touches(e, it.id)
    requires forall k :: 0 <= k < |items| ==> 0 < BornAt(events, items[k].id)
    ensures InOrder(policy, Touch(policy, items[i := it], i), events + [e])
  {
    if policy.LRU? {
      MovedInOrder(items, events, i, it, e);
    } else {
      forall k | 0 <= k < |items| { ExtendRank(policy, events, e, items[k].id); }
      hide Rank;
    }
  }

  lemma TouchCounted(items: seq<Item>, nextId: nat, events: seq<Event>, i: nat, it: Item, e: Event)
    requires i < |items| && DistinctIds(items) && Counted(items, nextId, events)
    requires it.id == items[i].id < nextId && Touches(e, it.id)
    requires it.hits == items[i].hits + if e.Hit? then 1 else 0
    ensures Counted(items[i := it], nextId, events + [e])
  {
    forall id { Extend(events, e, id); }
    forall x | x in items[i := it] ensures x.hits == HitCount(events + [e], x.id) && 0 < BornAt(events + [e], x.id) {
      var k :| 0 <= k < |items| && items[i := it][k] == x;
      assert items[k] in items;
    }
  }

  /** A put or a hit of the live entry at position `i`. */
  lemma TouchTracked(c: Cache, events: seq<Event>, i: nat, it: Item, e: Event, now: nat)
    requires i < |c.items| && Inv(c, now) && Tracked(c, events) && IsNewest(c.items, it.key, i)
    requires it.id == c.items[i].id && it.stamp <= now && Touches(e, it.id)
    requires it.hits == c.items[i].hits + if e.Hit? then 1 else 0
    ensures var r := Touch(c.policy, c.items[i := it], i);
      InOrder(c.policy, r, events + [e]) && Counted(r, c.nextId, events + [e])
  {
    assert c.items[i] in c.items;
    TouchInOrder(c.policy, c.items, events, i, it, e);
    TouchCounted(c.items, c.nextId, events, i, it, e);
    UpdateInv(c.items, i, it, c.nextId, now);
    TouchInv(c.policy, c.items[i := it], i, c.nextId, now);
  }

  lemma InsertInOrder(policy: Policy, items: seq<Item>, events: seq<Event>, it: Item, e: Event)
    requires InOrder(policy, items, events) && Touches(e, it.id) && e.Stored? && BornAt(events, it.id) == 0
    requires forall i :: 0 <= i < |items| ==> items[i].id != it.id
    ensures InOrder(policy, [it] + items, events + [e])
  {
  }

  lemma InsertCounted(items: seq<Item>, nextId: nat, events: seq<Event>, it: Item, e: Event)
    requires Counted(items, nextId, events) && e.Stored? && e.id == it.id == nextId && it.hits == 0
    ensures Counted([it] + items, nextId + 1, events + [e])
  {
    forall id { Extend(events, e, id); }
  }

  lemma RemoveTracked(c: Cache, events: seq<Event>, i: nat)
    requires i < |c.items| && Tracked(c, events)
    ensures Tracked(c.(items := RemoveAt(c.items, i)), events)
  {
    assert forall x :: x in RemoveAt(c.items, i) ==> x in c.items;
  }

  lemma RoomTracked(c: Cache, events: seq<Event>)
    requires Tracked(c, events)
    ensures Tracked(MakeRoom(c), events) && forall x :: x in MakeRoom(c).items ==> x in c.items
  {
    if c.items != [] { RemoveTracked(c, events, Victim(c.policy, c.items)); }
  }

  lemma InsertTracked(c: Cache, events: seq<Event>, it: Item, e: Event)
    requires Tracked(c, events) && e.Stored? && e.id == it.id == c.nextId && it.hits == 0
    requires forall x :: x in c.items ==> x.id < c.nextId
    ensures Tracked(c.(items := [it] + c.items, nextId := c.nextId + 1), events + [e])
  {
    hide InOrder, LastTouch, HitCount, BornAt;
    assert forall k :: 0 <= k < |c.items| ==> c.items[k] in c.items;
    InsertInOrder(c.policy, c.items, events, it, e);
    InsertCounted(c.items, c.nextId, events, it, e);
  }

  lemma PutTracked(c: Cache, events: seq<Event>, op: Op)
    requires op.Put? && Inv(c, op.now) && Tracked(c, events)
    ensures var (d, e) := Step(c, op); Tracked(d, events + [e])
  {
    hide Find, Touch, DistinctIds, ShadowsExpired, InOrder, Counted;
    var e := Step(c, op).1;
    match Find(c.items, op.key, op.now)
    case Some(i) =>
      TouchTracked(c, events, i, c.items[i].(value := op.value, stamp := op.now, ttl := op.ttl), e, op.now);
    case None =>
      RoomTracked(c, events);
      InsertTracked(MakeRoom(c), events, Item(c.nextId, op.key, op.value, op.now, op.ttl, 0), e);
  }

  /** An operation that touches no entry and inserts none. */
  lemma QuietTracked(c: Cache, events: seq<Event>, e: Event)
    requires !e.Stored? && !e.Hit? && Tracked(c, events)
    ensures Tracked(c, events + [e])
  {
    forall id { Extend(events, e, id); }
  }

  lemma GetTracked(c: Cache, events: seq<Event>, op: Op)
    requires op.Get? && Inv(c, op.now) && Tracked(c, events)
    ensures var (d, e) := Step(c, op); Tracked(d, events + [e])
  {
    var (d, e) := Step(c, op);
    match Find(c.items, op.key, op.now)
    case Some(i) =>
      var it := c.items[i].(hits := c.items[i].hits + 1);
      assert c.items[i] in c.items;
      TouchTracked(c, events, i, it, e, op.now);
      assert d.items == Touch(c.policy, c.items[i := it], i);
    case None => QuietTracked(c, events, e);
  }

  lemma DeleteTracked(c: Cache, events: seq<Event>, op: Op)
    requires op.Delete? && Inv(c, op.now) && Tracked(c, events)
    ensures var (d, e) := Step(c, op); Tracked(d, events + [e])
  {
    var (d, e) := Step(c, op);
    QuietTracked(c, events, e);
    match Find(c.items, op.key, op.now)
    case Some(i) => RemoveTracked(c, events + [e], i);
    case None =>
  }

  lemma StepTracked(c: Cache, events: seq<Event>, op: Op)
    requires Inv(c, op.now) && Tracked(c, events)
    ensures var (d, e) := Step(c, op); Tracked(d, events + [e])
  {
    match op
    case Put(_, _, _, _) => PutTracked(c, events, op);
    case Get(_, _) => GetTracked(c, events, op);
    case Delete(_, _) => DeleteTracked(c, events, op);
    case Clear(_) => QuietTracked(c, events, Cleared);
  }

  lemma {:induction false} RunTracked(policy: Policy, capacity: nat, ops: seq<Op>)
    requires 1 <= capacity && Ordered(ops)
    ensures var (c, events) := Run(Empty(policy, capacity), ops); Tracked(c, events)
  {
    if ops != [] {
      var n := |ops| - 1;
      RunTracked(policy, capacity, ops[..n]);
      RunAgrees(policy, capacity, ops[..n]);
      var p := Run(Empty(policy, capacity), ops[..n]);
      InvLater(p.0, EndOf(ops[..n]), ops[n].now);
      StepTracked(p.0, p.1, ops[n]);
    }
  }

  /**
   Entry `id` goes before entry `other`: under LRU its last put or hit is older; under LFU it has fewer
   hits since it was inserted or, with as many hits, was inserted later.
   */
  predicate GoesFirst(policy: Policy, events: seq<Event>, id: nat, other: nat) {
    if policy.LRU? then LastTouch(events, id) < LastTouch(events, other)
    else || HitCount(events, id) < HitCount(events, other)
         || (HitCount(events, id) == HitCount(events, other) && BornAt(events, other) < BornAt(events, id))
  }

  lemma VictimGoesFirst(c: Cache, events: seq<Event>)
    requires c.items != [] && Tracked(c, events)
    ensures var v := c.items[Victim(c.policy, c.items)];
      v in c.items && forall x :: x in c.items && x.id != v.id ==> GoesFirst(c.policy, events, v.id, x.id)
  {
    hide LastTouch, HitCount, BornAt;
    var v := Victim(c.policy, c.items);
    forall x | x in c.items && x.id != c.items[v].id ensures GoesFirst(c.policy, events, c.items[v].id, x.id) {
      var k :| 0 <= k < |c.items| && c.items[k] == x;
      assert c.items[v] in c.items;
    }
  }

  /** Which entry a put evicts, and when it evicts one, in any run: the one that goes before all others. */
  lemma EvictionChoice(policy: Policy, capacity: nat, ops: seq<Op>, put: Op)
    requires 1 <= capacity && Ordered(ops) && EndOf(ops) <= put.now && put.Put?
    ensures var (c, events) := Run(Empty(policy, capacity), ops);
      var evicted := Step(c, put).1.evicted;
      && (evicted.Some? <==> |c.items| == capacity && Find(c.items, put.key, put.now).None?)
      && (evicted.Some? ==>
            && (exists x :: x in c.items && x.id == evicted.value)
            && forall x :: x in c.items && x.id != evicted.value ==> GoesFirst(policy, events, evicted.value, x.id))
  {
    hide Run, Tracked, Agrees, ItemsInv, Find, Victim, GoesFirst;
    RunAgrees(policy, capacity, ops);
    RunTracked(policy, capacity, ops);
    var (c, events) := Run(Empty(policy, capacity), ops);
    if c.items != [] { VictimGoesFirst(c, events); }
  }

  // ----- Statistics -----

  /** Hits, misses and evictions among the events. */
  function Tally(events: seq<Event>): (nat, nat, nat) {
    if events == [] then (0, 0, 0)
    else
      var (hits, misses, evictions) := Tally(events[..|events| - 1]);
      match events[|events| - 1]
      case Hit(_, _) => (hits + 1, misses, evictions)
      case Missed => (hits, misses + 1, evictions)
      case Stored(_, _, _, _, _, evicted) => (hits, misses, evictions + if evicted.Some? then 1 else 0)
      case _ => (hits, misses, evictions)
  }

  /** The counters count exactly what happened, over any run. */
  lemma {:induction false} StatsAddUp(c: Cache, ops: seq<Op>)
    ensures var (d, events) := Run(c, ops);
      var (hits, misses, evictions) := Tally(events);
      d.hits == c.hits + hits && d.misses == c.misses + misses && d.evictions == c.evictions + evictions
  {
    hide Find, Touch, Victim;
    if ops != [] {
      var n := |ops| - 1;
      StatsAddUp(c, ops[..n]);
      var p := Run(c, ops[..n]);
      assert Run(c, ops).1[..n] == p.1;
    }
  }
}
