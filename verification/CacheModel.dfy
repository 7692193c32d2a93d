/**
 The cache as a value: the entries in list order (head first), the counters, and one
 function per locked region.  Every entry carries the serial number of its insertion;
 hash chains grow at the front, so "first match in the chain" is "largest serial number".
 */
module CacheModel {
  import opened Common

  datatype Policy = LRU | LFU

  datatype Item = Item(id: nat, key: Key, value: Bytes, stamp: nat, ttl: nat, hits: nat)

  datatype Cache = Cache(policy: Policy, capacity: nat, items: seq<Item>, nextId: nat,
                         hits: nat, misses: nat, evictions: nat)

  /** What one operation did, as its caller and the statistics can observe it. */
  datatype Event =
    | Stored(id: nat, key: Key, value: Bytes, ttl: nat, now: nat, evicted: Option<nat>)
    | Hit(id: nat, value: Bytes)
    | Missed
    | Removed(key: Key)
    | Absent
    | Cleared

  datatype Op =
    | Put(key: Key, value: Bytes, ttl: nat, now: nat)
    | Get(key: Key, now: nat)
    | Delete(key: Key, now: nat)
    | Clear(now: nat)

  function Empty(policy: Policy, capacity: nat): Cache {
    Cache(policy, capacity, [], 0, 0, 0, 0)
  }

  predicate Expired(it: Item, now: nat) {
    it.ttl > 0 && now - it.stamp > it.ttl
  }

  predicate IsNewest(items: seq<Item>, key: Key, i: nat) {
    && i < |items| && items[i].key == key
    && forall j :: 0 <= j < |items| && items[j].key == key ==> items[j].id <= items[i].id
  }

  /** Position of the most recently inserted entry for `key`, expired or not. */
  function Newest(items: seq<Item>, key: Key): (r: Option<nat>)
    ensures r.Some? ==> IsNewest(items, key, r.value)
    ensures r.None? <==> forall j :: 0 <= j < |items| ==> items[j].key != key
  {
    if items == [] then None
    else
      var n := |items| - 1;
      var r := Newest(items[..n], key);
      if items[n].key == key && (r.None? || items[r.value].id <= items[n].id) then Some(n) else r
  }

  /** The entry a lookup finds: only the newest entry of the key is looked at. */
  function Find(items: seq<Item>, key: Key, now: nat): (r: Option<nat>)
    ensures r.Some? ==> IsNewest(items, key, r.value) && !Expired(items[r.value], now)
  {
    var r := Newest(items, key);
    if r.Some? && Expired(items[r.value], now) then None else r
  }

  /** Head-most position among the entries with the fewest hits. */
  function LeastUsed(items: seq<Item>): (v: nat)
    requires items != []
    ensures v < |items|
    ensures forall j :: 0 <= j < |items| ==> items[v].hits <= items[j].hits
    ensures forall j :: 0 <= j < v ==> items[v].hits < items[j].hits
  {
    var n := |items| - 1;
    if n == 0 then 0
    else
      var v := LeastUsed(items[..n]);
      if items[n].hits < items[v].hits then n else v
  }

  function Victim(policy: Policy, items: seq<Item>): (v: nat)
    requires items != []
    ensures v < |items|
  {
    if policy.LRU? then |items| - 1 else LeastUsed(items)
  }

  /** A full cache gives up one entry. */
  function MakeRoom(c: Cache): Cache {
    if |c.items| < c.capacity || c.items == [] then c
    else c.(items := RemoveAt(c.items, Victim(c.policy, c.items)), evictions := c.evictions + 1)
  }

  function EvictedBy(c: Cache): Option<nat> {
    if |c.items| < c.capacity || c.items == [] then None
    else Some(c.items[Victim(c.policy, c.items)].id)
  }

  /** An access moves the entry to the head only under LRU. */
  function Touch(policy: Policy, items: seq<Item>, i: nat): (r: seq<Item>)
    requires i < |items|
    ensures |r| == |items|
  {
    if policy.LRU? then MoveToFront(items, i) else items
  }

  function DoPut(c: Cache, key: Key, value: Bytes, ttl: nat, now: nat): (r: (Cache, Event)) {
    match Find(c.items, key, now)
    case Some(i) =>
      var it := c.items[i].(value := value, stamp := now, ttl := ttl);
      (c.(items := Touch(c.policy, c.items[i := it], i)), Stored(it.id, key, value, ttl, now, None))
    case None =>
      var r := MakeRoom(c);
      var it := Item(c.nextId, key, value, now, ttl, 0);
      (r.(items := [it] + r.items, nextId := c.nextId + 1), Stored(it.id, key, value, ttl, now, EvictedBy(c)))
  }

  function DoGet(c: Cache, key: Key, now: nat): (r: (Cache, Event)) {
    match Find(c.items, key, now)
    case Some(i) =>
      var it := c.items[i].(hits := c.items[i].hits + 1);
      (c.(items := Touch(c.policy, c.items[i := it], i), hits := c.hits + 1), Hit(it.id, it.value))
    case None => (c.(misses := c.misses + 1), Missed)
  }

  function DoDelete(c: Cache, key: Key, now: nat): (r: (Cache, Event)) {
    match Find(c.items, key, now)
    case Some(i) => (c.(items := RemoveAt(c.items, i)), Removed(key))
    case None => (c, Absent)
  }

  function DoClear(c: Cache): (r: (Cache, Event)) {
    (c.(items := []), Cleared)
  }

  function Step(c: Cache, op: Op): (r: (Cache, Event)) {
    match op
    case Put(key, value, ttl, now) => DoPut(c, key, value, ttl, now)
    case Get(key, now) => DoGet(c, key, now)
    case Delete(key, now) => DoDelete(c, key, now)
    case Clear(_) => DoClear(c)
  }

  /** The state and the events after a whole run. */
  function Run(c: Cache, ops: seq<Op>): (r: (Cache, seq<Event>))
    ensures |r.1| == |ops|
  {
    if ops == [] then (c, [])
    else
      var p := Run(c, ops[..|ops| - 1]);
      var s := Step(p.0, ops[|ops| - 1]);
      (s.0, p.1 + [s.1])
  }

  /** The clock never goes backwards during the run. */
  predicate Ordered(ops: seq<Op>) {
    forall i, j :: 0 <= i < j < |ops| ==> ops[i].now <= ops[j].now
  }

  function EndOf(ops: seq<Op>): nat {
    if ops == [] then 0 else ops[|ops| - 1].now
  }
}
