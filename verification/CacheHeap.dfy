/**
 The cache as the program builds it: entries linked both into a doubly linked list and into the
 chains of a hash table, rewired in place.  Each operation is proved against CacheModel.
 */
module CacheHeap {
  import opened Common
  import M = CacheModel

  class Entry {
    const key: Key
    var value: Bytes
    var timestamp: nat
    var ttl: nat
    var accessCount: nat
    var prev: Entry?
    var next: Entry?
    var hashNext: Entry?
    ghost const id: nat

    constructor (key: Key, value: Bytes, timestamp: nat, ttl: nat, ghost id: nat)
      ensures View() == M.Item(id, key, value, timestamp, ttl, 0)
    {
      this.key, this.value, this.timestamp, this.ttl, this.id := key, value, timestamp, ttl, id;
      accessCount, prev, next, hashNext := 0, null, null, null;
    }

    ghost function View(): M.Item
      reads this`value, this`timestamp, this`ttl, this`accessCount
    {
      M.Item(id, key, value, timestamp, ttl, accessCount)
    }
  }

  ghost function At(nodes: seq<Entry>, i: int): Entry? {
    if 0 <= i < |nodes| then nodes[i] else null
  }

  ghost predicate NoRepeats(nodes: seq<Entry>) {
    forall i, j :: 0 <= i < j < |nodes| ==> nodes[i] != nodes[j]
  }

  ghost predicate Owned(nodes: seq<Entry>, repr: set<Entry>) {
    forall i :: 0 <= i < |nodes| ==> nodes[i] in repr
  }

  /** `nodes` is the doubly linked list from `head` to `tail`. */
  ghost predicate Linked(nodes: seq<Entry>, head: Entry?, tail: Entry?)
    reads nodes`prev, nodes`next
  {
    && NoRepeats(nodes)
    && head == At(nodes, 0) && tail == At(nodes, |nodes| - 1)
    && (forall i {:trigger nodes[i].prev} :: 0 <= i < |nodes| ==> nodes[i].prev == At(nodes, i - 1))
    && (forall i {:trigger nodes[i].next} :: 0 <= i < |nodes| ==> nodes[i].next == At(nodes, i + 1))
  }

  /** `chain` hangs off a table slot holding `first`. */
  ghost predicate Chained(chain: seq<Entry>, first: Entry?)
    reads chain`hashNext
  {
    && first == At(chain, 0)
    && forall j {:trigger chain[j].hashNext} :: 0 <= j < |chain| ==> chain[j].hashNext == At(chain, j + 1)
  }

  /** In each chain the later insertion comes first, and every key is in the bucket it hashes to. */
  ghost predicate InBucket(chain: seq<Entry>, b: nat, n: nat)
    requires n > 0
  {
    && (forall j :: 0 <= j < |chain| ==> Bucket(chain[j].key, n) == b)
    && (forall i, j :: 0 <= i < j < |chain| ==> chain[j].id < chain[i].id)
  }

  ghost predicate Bucketed(chains: seq<seq<Entry>>, n: nat) {
    n > 0 && |chains| == n && forall b :: 0 <= b < n ==> InBucket(chains[b], b, n)
  }

  ghost predicate Within(chains: seq<seq<Entry>>, nodes: seq<Entry>) {
    forall b, j :: 0 <= b < |chains| && 0 <= j < |chains[b]| ==> chains[b][j] in nodes
  }

  ghost predicate AllChained(table: array<Entry?>, chains: seq<seq<Entry>>, nodes: seq<Entry>)
    requires |chains| == table.Length && Within(chains, nodes)
    reads table, nodes`hashNext
  {
    forall b :: 0 <= b < |chains| ==> Chained(chains[b], table[b])
  }

  /** The chains and the list hold the same entries. */
  ghost predicate Placed(nodes: seq<Entry>, chains: seq<seq<Entry>>, n: nat) {
    && Bucketed(chains, n) && Within(chains, nodes)
    && (forall x :: x in nodes ==> x in chains[Bucket(x.key, n)])
    && (forall i, j :: 0 <= i < j < |nodes| ==> nodes[i].id != nodes[j].id)
  }

  /** `items` is what the nodes hold. */
  ghost predicate Shows(nodes: seq<Entry>, items: seq<M.Item>)
    reads nodes`value, nodes`timestamp, nodes`ttl, nodes`accessCount
  {
    |items| == |nodes| && forall i :: 0 <= i < |nodes| ==> items[i] == nodes[i].View()
  }

  ghost predicate IdsBelow(nodes: seq<Entry>, bound: nat) {
    forall i :: 0 <= i < |nodes| ==> nodes[i].id < bound
  }

  ghost predicate SameNames(nodes: seq<Entry>, items: seq<M.Item>) {
    |items| == |nodes| && forall i :: 0 <= i < |nodes| ==> items[i].id == nodes[i].id && items[i].key == nodes[i].key
  }

  class HeapCache {
    const hashTable: array<Entry?>
    var head: Entry?
    var tail: Entry?
    var size: nat
    const maxSize: nat
    const policy: M.Policy
    var hits: nat
    var misses: nat
    var evictions: nat

    ghost var nodes: seq<Entry>
    ghost var repr: set<Entry>
    ghost var chains: seq<seq<Entry>>
    ghost var items: seq<M.Item>
    ghost var nextId: nat

    ghost predicate Valid()
      reads this, hashTable, repr
    {
      && Owned(nodes, repr)
      && 1 <= maxSize && hashTable.Length == 2 * maxSize
      && size == |nodes| == |items| <= maxSize
      && Linked(nodes, head, tail)
      && Placed(nodes, chains, hashTable.Length)
      && |chains| == hashTable.Length && Within(chains, nodes) && AllChained(hashTable, chains, nodes)
      && Shows(nodes, items)
      && IdsBelow(nodes, nextId)
    }

    /** The value this object stands for. */
    ghost function Model(): M.Cache
      reads this
    {
      M.Cache(policy, maxSize, items, nextId, hits, misses, evictions)
    }

    /** Unlinks the entry at position `i` of the list. */
    method RemoveFromList(entry: Entry, ghost i: nat)
      requires Owned(nodes, repr) && Linked(nodes, head, tail) && i < |nodes| && nodes[i] == entry
      modifies this`head, this`tail, this`nodes, repr`prev, repr`next
      ensures nodes == RemoveAt(old(nodes), i) && Linked(nodes, head, tail)
    {
      if entry.prev != null {
        entry.prev.next := entry.next;
      } else {
        head := entry.next;
      }
      if entry.next != null {
        entry.next.prev := entry.prev;
      } else {
        tail := entry.prev;
      }
      BypassKeepsLinks(nodes, i, head, tail);
      nodes := RemoveAt(nodes, i);
    }

    method AddToHead(entry: Entry)
      requires Owned(nodes, repr) && Linked(nodes, head, tail) && entry !in nodes
      modifies this`head, this`tail, this`nodes, entry`prev, entry`next, repr`prev, repr`next
      ensures nodes == [entry] + old(nodes) && Linked(nodes, head, tail)
    {
      entry.prev := null;
      entry.next := head;
      if head != null {
        head.prev := entry;
      }
      head := entry;
      if tail == null {
        tail := entry;
      }
      nodes := [entry] + nodes;
    }

    method MoveToHead(entry: Entry, ghost i: nat)
      requires Owned(nodes, repr) && Linked(nodes, head, tail) && i < |nodes| && nodes[i] == entry
      modifies this`head, this`tail, this`nodes, repr`prev, repr`next
      ensures nodes == MoveToFront(old(nodes), i) && Linked(nodes, head, tail)
    {
      if head == entry {
        assert i == 0;
        return;
      }
      RemoveFromList(entry, i);
      AddToHead(entry);
    }

    method FindEntry(key: Key, now: nat) returns (entry: Entry?)
      requires Valid()
      ensures var found := M.Find(items, key, now);
        entry == if found.Some? then nodes[found.value] else null
    {
      hide Linked;
      var hash := HashKey(key);
      var bucket := hash % hashTable.Length;
      ghost var chain := chains[bucket];
      ghost var j := 0;
      entry := hashTable[bucket];
      assert Chained(chain, entry);
      while entry != null
        invariant 0 <= j <= |chain| && entry == At(chain, j)
        invariant forall k :: 0 <= k < j ==> chain[k].key != key
        decreases |chain| - j
      {
        if entry.key == key {
          ghost var i := FirstInChain(nodes, chains, items, hashTable.Length, key, now, j);
          if entry.ttl > 0 && now - entry.timestamp > entry.ttl {
            return null;
          }
          return entry;
        }
        entry := entry.hashNext;
        j := j + 1;
      }
      NotInChain(nodes, chains, items, hashTable.Length, key, now);
    }

    /** Walks the chain of the entry up to it. */
    method FindInChain(entry: Entry) returns (bucket: nat, prev: Entry?, ghost j: nat)
      requires Bucketed(chains, hashTable.Length) && entry in chains[Bucket(entry.key, hashTable.Length)]
      requires Within(chains, nodes) && AllChained(hashTable, chains, nodes)
      ensures bucket == Bucket(entry.key, hashTable.Length)
      ensures j < |chains[bucket]| && chains[bucket][j] == entry && prev == At(chains[bucket], j - 1)
    {
      var hash := HashKey(entry.key);
      bucket := hash % hashTable.Length;
      ghost var chain := chains[bucket];
      j := 0;
      var current := hashTable[bucket];
      prev := null;
      assert Chained(chain, current);
      while current != entry
        invariant 0 <= j < |chain| && current == chain[j] && prev == At(chain, j - 1)
        invariant entry in chain[j..]
        decreases |chain| - j
      {
        prev := current;
        current := current.hashNext;
        j := j + 1;
      }
    }

    /** Takes the entry out of its hash chain. */
    method RemoveFromChain(entry: Entry) returns (ghost j: nat)
      requires Bucketed(chains, hashTable.Length) && entry in chains[Bucket(entry.key, hashTable.Length)]
      requires Owned(nodes, repr) && Within(chains, nodes) && AllChained(hashTable, chains, nodes)
      modifies this`chains, hashTable, repr`hashNext
      ensures var b := Bucket(entry.key, hashTable.Length);
        && j < |old(chains)[b]| && old(chains)[b][j] == entry
        && chains == old(chains)[b := RemoveAt(old(chains)[b], j)]
      ensures Within(chains, nodes) && AllChained(hashTable, chains, nodes)
    {
      assert |chains| == hashTable.Length;
      hide Bucketed, Bucket;
      var bucket, prev;
      bucket, prev, j := FindInChain(entry);
      ghost var chain := chains[bucket];
      assert Chained(chain, hashTable[bucket]);
      if prev != null {
        OnlyInItsChain(chains, hashTable.Length, bucket, j - 1);
        prev.hashNext := entry.hashNext;
      } else {
        hashTable[bucket] := entry.hashNext;
      }
      BypassKeepsChain(chain, j, hashTable[bucket]);
      forall b | 0 <= b < |chains| && b != bucket ensures Chained(chains[b], hashTable[b]) {
        assert old(Chained(chains[b], hashTable[b]));
      }
      chains := chains[bucket := RemoveAt(chain, j)];
    }

    method RemoveEntry(entry: Entry, ghost i: nat)
      requires Valid() && i < |nodes| && nodes[i] == entry
      modifies this`head, this`tail, this`size, this`nodes, this`chains, this`items, hashTable,
               repr`prev, repr`next, repr`hashNext
      ensures Valid() && nodes == RemoveAt(old(nodes), i) && items == RemoveAt(old(items), i)
    {
      hide Owned, Linked, AllChained, Placed, Bucketed, Within, Bucket, Shows, IdsBelow;
      InItsChain(nodes, chains, hashTable.Length, i);
      ghost var j := RemoveFromChain(entry);
      RemoveFromList(entry, i);
      size := size - 1;
      RemoveKeepsPlaced(old(nodes), old(chains), hashTable.Length, i, j);
      RemoveKeepsShows(old(nodes), items, repr, nextId, i);
      ChainedInFewer(hashTable, chains, old(nodes), nodes);
      items := RemoveAt(items, i);
    }

    method FindVictim() returns (victim: Entry?)
      requires Valid()
      ensures nodes == [] ==> victim == null
      ensures nodes != [] ==> victim == nodes[M.Victim(policy, items)]
    {
      hide Placed, AllChained, M.LeastUsed;
      if policy.LRU? {
        return tail;
      }
      victim := head;
      var current := head;
      ghost var j := 0;
      while current != null
        invariant 0 <= j <= |nodes| && current == At(nodes, j)
        invariant nodes == [] ==> victim == null
        invariant nodes != [] ==> victim == nodes[if j == 0 then 0 else M.LeastUsed(items[..j])]
        decreases |nodes| - j
      {
        LeastUsedOfOneMore(items, j);
        if current.accessCount < victim.accessCount {
          victim := current;
        }
        current := current.next;
        j := j + 1;
      }
      assert items[..j] == items;
    }

    method EvictIfNeeded()
      requires Valid()
      modifies this`head, this`tail, this`size, this`nodes, this`chains, this`items, this`evictions, hashTable,
               repr`prev, repr`next, repr`hashNext
      ensures Valid() && Model() == M.MakeRoom(old(Model())) && |nodes| < maxSize
    {
      hide Owned, Placed, AllChained, Linked, Shows, IdsBelow;
      ghost var was := nodes;
      while size >= maxSize
        invariant Valid() && (nodes == was || |nodes| < maxSize)
        invariant Model() == if nodes == was then old(Model()) else M.MakeRoom(old(Model()))
        decreases size
      {
        var victim := FindVictim();
        if victim == null {
          break;
        }
        RemoveEntry(victim, M.Victim(policy, items));
        evictions := evictions + 1;
      }
    }

    /** What every access does to the list: to the head under LRU, nothing under LFU. */
    method Touch(entry: Entry, ghost i: nat)
      requires Valid() && i < |nodes| && nodes[i] == entry
      modifies this`head, this`tail, this`nodes, this`items, repr`prev, repr`next
      ensures Valid() && items == M.Touch(policy, old(items), i)
    {
      hide Owned, Linked, AllChained, Placed, Bucketed, Within, Shows, IdsBelow;
      if policy.LRU? {
        MoveToHead(entry, i);
        MoveKeepsPlaced(old(nodes), chains, hashTable, i);
        MoveKeepsShows(old(nodes), items, repr, nextId, i);
        items := MoveToFront(items, i);
      }
    }

    method AddToChain(entry: Entry)
      requires |chains| == hashTable.Length > 0 && Within(chains, nodes) && AllChained(hashTable, chains, nodes)
      requires entry !in nodes
      modifies this`chains, hashTable, entry`hashNext
      ensures var b := Bucket(entry.key, hashTable.Length);
        chains == old(chains)[b := [entry] + old(chains)[b]]
      ensures Within(chains, [entry] + nodes) && AllChained(hashTable, chains, [entry] + nodes)
    {
      var hash := HashKey(entry.key);
      var bucket := hash % hashTable.Length;
      ghost var chain := chains[bucket];
      assert Chained(chain, hashTable[bucket]);
      entry.hashNext := hashTable[bucket];
      hashTable[bucket] := entry;
      forall b | 0 <= b < |chains| && b != bucket ensures Chained(chains[b], hashTable[b]) {
        assert old(Chained(chains[b], hashTable[b])) && entry !in chains[b];
      }
      assert Chained([entry] + chain, entry);
      chains := chains[bucket := [entry] + chain];
    }

    constructor (maxSize: nat, policy: M.Policy)
      requires 1 <= maxSize
      ensures Valid() && Model() == M.Empty(policy, maxSize)
      ensures fresh(hashTable) && fresh(repr)
    {
      this.maxSize, this.policy := maxSize, policy;
      hashTable := new Entry?[2 * maxSize](_ => null);
      head, tail, size := null, null, 0;
      hits, misses, evictions := 0, 0, 0;
      nodes, items, repr, nextId := [], [], {}, 0;
      chains := seq(2 * maxSize, _ => []);
    }

    /** The clock has not gone backwards since any entry was written. */
    ghost predicate Settled(now: nat)
      reads this
    {
      forall x :: x in items ==> x.stamp <= now
    }

    /** Hooks a new entry into its chain and into the list. */
    method LinkIn(entry: Entry)
      requires Owned(nodes, repr) && Linked(nodes, head, tail) && Placed(nodes, chains, hashTable.Length)
      requires |chains| == hashTable.Length && Within(chains, nodes) && AllChained(hashTable, chains, nodes)
      requires entry !in repr && IdsBelow(nodes, entry.id)
      modifies this`head, this`tail, this`nodes, this`chains, this`repr, hashTable,
               repr`prev, repr`next, entry`prev, entry`next, entry`hashNext
      ensures nodes == [entry] + old(nodes) && repr == old(repr) + {entry}
      ensures Owned(nodes, repr) && Linked(nodes, head, tail) && Placed(nodes, chains, hashTable.Length)
      ensures |chains| == hashTable.Length && Within(chains, nodes) && AllChained(hashTable, chains, nodes)
    {
      hide Owned, Linked, AllChained, Placed, Bucketed, Within, Bucket, IdsBelow;
      NewEntry(nodes, chains, repr, hashTable.Length, entry);
      AddToChain(entry);
      AddToHead(entry);
      repr := repr + {entry};
    }

    method Insert(key: Key, value: Bytes, ttl: nat, now: nat)
      requires Valid() && size < maxSize
      modifies this`head, this`tail, this`size, this`nodes, this`chains, this`items, this`nextId, this`repr, hashTable,
               repr`prev, repr`next
      ensures Valid() && items == [M.Item(old(nextId), key, value, now, ttl, 0)] + old(items)
      ensures nextId == old(nextId) + 1 && fresh(repr - old(repr))
    {
      hide Owned, Linked, AllChained, Placed, Bucketed, Within, Shows, IdsBelow;
      var entry := new Entry(key, value, now, ttl, nextId);
      LinkIn(entry);
      size := size + 1;
      InsertKeepsShows(old(nodes), items, entry);
      items := [entry.View()] + items;
      nextId := nextId + 1;
    }

    /** Writes new contents into the entry found for a key. */
    method Overwrite(entry: Entry, ghost i: nat, value: Bytes, ttl: nat, now: nat)
      requires NoRepeats(nodes) && Shows(nodes, items) && i < |nodes| && nodes[i] == entry
      modifies this`items, entry`value, entry`timestamp, entry`ttl
      ensures Shows(nodes, items) && items == old(items)[i := old(items)[i].(value := value, stamp := now, ttl := ttl)]
    {
      entry.value := value;
      entry.timestamp := now;
      entry.ttl := ttl;
      items := items[i := entry.View()];
    }

    method Update(entry: Entry, ghost i: nat, value: Bytes, ttl: nat, now: nat)
      requires Valid() && i < |nodes| && nodes[i] == entry
      modifies this`head, this`tail, this`nodes, this`items, repr
      ensures Valid() && items == M.Touch(policy, old(items)[i := old(items)[i].(value := value, stamp := now, ttl := ttl)], i)
    {
      hide Owned, Linked, AllChained, Placed, Shows, IdsBelow, NoRepeats, M.Touch;
      InItsList(nodes, head, tail, repr, i);
      Overwrite(entry, i, value, ttl, now);
      Touch(entry, i);
    }

    /** The locked region of a put. */
    method Store(key: Key, value: Bytes, ttl: nat, now: nat)
      requires Valid() && Settled(now)
      modifies this, hashTable, repr
      ensures Valid() && Model() == M.DoPut(old(Model()), key, value, ttl, now).0
      ensures fresh(repr - old(repr))
    {
      hide Owned, Linked, AllChained, Placed, Shows, IdsBelow, M.Find, M.MakeRoom;
      var existing := FindEntry(key, now);
      if existing != null {
        Update(existing, M.Find(items, key, now).value, value, ttl, now);
      } else {
        EvictIfNeeded();
        Insert(key, value, ttl, now);
      }
    }

    method PutWithTtl(key: Option<Key>, value: Option<Bytes>, ttl: nat, now: nat) returns (status: Status)
      requires Valid() && Settled(now)
      modifies this, hashTable, repr
      ensures Valid() && fresh(repr - old(repr))
      ensures if key.None? || value.None? || value.value == []
        then status == InvalidParam && Model() == old(Model())
        else status == Success && Model() == M.DoPut(old(Model()), key.value, value.value, ttl, now).0
    {
      if key.None? || value.None? || value.value == [] {
        return InvalidParam;
      }
      Store(key.value, value.value, ttl, now);
      return Success;
    }

    method Put(key: Option<Key>, value: Option<Bytes>, now: nat) returns (status: Status)
      requires Valid() && Settled(now)
      modifies this, hashTable, repr
      ensures Valid() && fresh(repr - old(repr))
      ensures if key.None? || value.None? || value.value == []
        then status == InvalidParam && Model() == old(Model())
        else status == Success && Model() == M.DoPut(old(Model()), key.value, value.value, 0, now).0
    {
      status := PutWithTtl(key, value, 0, now);
    }

    method CountAccess(entry: Entry, ghost i: nat)
      requires NoRepeats(nodes) && Shows(nodes, items) && i < |nodes| && nodes[i] == entry
      modifies this`items, entry`accessCount
      ensures Shows(nodes, items) && items == old(items)[i := old(items)[i].(hits := old(items)[i].hits + 1)]
    {
      entry.accessCount := entry.accessCount + 1;
      items := items[i := entry.View()];
    }

    /** A hit: counts the access, moves the entry under LRU and copies the value out. */
    method Serve(entry: Entry, ghost i: nat) returns (value: Bytes)
      requires Valid() && i < |nodes| && nodes[i] == entry
      modifies this`head, this`tail, this`nodes, this`items, repr
      ensures Valid() && value == old(items)[i].value
      ensures items == M.Touch(policy, old(items)[i := old(items)[i].(hits := old(items)[i].hits + 1)], i)
    {
      hide Owned, Linked, AllChained, Placed, Within, Shows, IdsBelow, NoRepeats, M.Touch;
      InItsList(nodes, head, tail, repr, i);
      value := ReadValue(entry, i);
      CountAccess(entry, i);
      Touch(entry, i);
    }

    method ReadValue(entry: Entry, ghost i: nat) returns (value: Bytes)
      requires Shows(nodes, items) && i < |nodes| && nodes[i] == entry
      ensures value == items[i].value
    {
      value := entry.value;
    }

    /** The locked region of a get. */
    method Fetch(key: Key, now: nat) returns (value: Option<Bytes>)
      requires Valid() && Settled(now)
      modifies this`head, this`tail, this`nodes, this`items, this`hits, this`misses, repr
      ensures Valid()
      ensures var r := M.DoGet(old(Model()), key, now);
        Model() == r.0 && value == if r.1.Hit? then Some(r.1.value) else None
    {
      hide Owned, Linked, AllChained, Placed, Within, Shows, IdsBelow, M.Find, M.Touch;
      var entry := FindEntry(key, now);
      if entry == null {
        misses := misses + 1;
        return None;
      }
      hits := hits + 1;
      var v := Serve(entry, M.Find(items, key, now).value);
      value := Some(v);
    }

    method Get(key: Option<Key>, now: nat) returns (status: Status, value: Option<Bytes>)
      requires Valid() && Settled(now)
      modifies this`head, this`tail, this`nodes, this`items, this`hits, this`misses, repr
      ensures Valid()
      ensures if key.None? then status == InvalidParam && value == None && Model() == old(Model())
        else
          var r := M.DoGet(old(Model()), key.value, now);
          && Model() == r.0
          && (if r.1.Hit? then status == Success && value == Some(r.1.value) else status == NotFound && value == None)
    {
      if key.None? {
        return InvalidParam, None;
      }
      value := Fetch(key.value, now);
      status := if value.Some? then Success else NotFound;
    }

    method Delete(key: Option<Key>, now: nat) returns (status: Status)
      requires Valid() && Settled(now)
      modifies this, hashTable, repr
      ensures Valid() && repr == old(repr)
      ensures if key.None? then status == InvalidParam && Model() == old(Model())
        else
          var r := M.DoDelete(old(Model()), key.value, now);
          Model() == r.0 && status == if M.DoGet(old(Model()), key.value, now).1.Hit? then Success else NotFound
    {
      hide Owned, Linked, AllChained, Placed, Within, Shows, IdsBelow, M.Find;
      if key.None? {
        return InvalidParam;
      }
      var entry := FindEntry(key.value, now);
      if entry == null {
        return NotFound;
      }
      RemoveEntry(entry, M.Find(items, key.value, now).value);
      return Success;
    }

    method Exists(key: Option<Key>, now: nat) returns (found: bool)
      requires Valid() && Settled(now)
      ensures found <==> key.Some? && M.Find(items, key.value, now).Some?
    {
      if key.None? {
        return false;
      }
      var entry := FindEntry(key.value, now);
      return entry != null;
    }

    method Clear()
      requires Valid()
      modifies this`head, this`tail, this`size, this`nodes, this`items, this`chains, hashTable
      ensures Valid() && Model() == M.DoClear(old(Model())).0
    {
      hide Owned, Linked, AllChained, Placed, Within, Shows, IdsBelow;
      for b := 0 to hashTable.Length
        invariant forall c :: 0 <= c < b ==> hashTable[c] == null
        modifies hashTable
      {
        hashTable[b] := null;
      }
      head, tail, size := null, null, 0;
      nodes, items, chains := [], [], seq(hashTable.Length, _ => []);
      NothingStored(hashTable, chains, repr, nextId);
    }
  }

  // ----- Lists and chains as values -----

  /** Bypassing the node at position `i` in both directions links what remains. */
  lemma BypassKeepsLinks(nodes: seq<Entry>, i: nat, head: Entry?, tail: Entry?)
    requires i < |nodes| && NoRepeats(nodes)
    requires head == if i == 0 then At(nodes, 1) else nodes[0]
    requires tail == if i == |nodes| - 1 then At(nodes, i - 1) else nodes[|nodes| - 1]
    requires forall k {:trigger nodes[k].next} :: 0 <= k < |nodes| ==>
      nodes[k].next == if k == i - 1 then At(nodes, i + 1) else At(nodes, k + 1)
    requires forall k {:trigger nodes[k].prev} :: 0 <= k < |nodes| ==>
      nodes[k].prev == if k == i + 1 then At(nodes, i - 1) else At(nodes, k - 1)
    ensures Linked(RemoveAt(nodes, i), head, tail)
  {
  }

  /** Bypassing position `j` of a chain leaves the chain without it. */
  lemma BypassKeepsChain(chain: seq<Entry>, j: nat, first: Entry?)
    requires j < |chain| && first == if j == 0 then At(chain, 1) else chain[0]
    requires forall k {:trigger chain[k].hashNext} :: 0 <= k < |chain| ==>
      chain[k].hashNext == if k == j - 1 then At(chain, j + 1) else At(chain, k + 1)
    ensures Chained(RemoveAt(chain, j), first)
  {
  }

  lemma OnlyInItsChain(chains: seq<seq<Entry>>, n: nat, b: nat, j: nat)
    requires |chains| == n && Bucketed(chains, n) && b < n && j < |chains[b]|
    ensures NoRepeats(chains[b]) && forall c :: 0 <= c < n && c != b ==> chains[b][j] !in chains[c]
  {
  }

  lemma RemovedElements<T>(s: seq<T>, i: nat)
    requires i < |s| && forall k :: 0 <= k < |s| && k != i ==> s[k] != s[i]
    ensures forall x :: x in RemoveAt(s, i) <==> x in s && x != s[i]
  {
  }

  lemma RemoveKeepsPlaced(nodes: seq<Entry>, chains: seq<seq<Entry>>, n: nat, i: nat, j: nat)
    requires Placed(nodes, chains, n) && i < |nodes|
    requires j < |chains[Bucket(nodes[i].key, n)]| && chains[Bucket(nodes[i].key, n)][j] == nodes[i]
    ensures var b := Bucket(nodes[i].key, n);
      var chains' := chains[b := RemoveAt(chains[b], j)];
      |chains'| == n && Within(chains', RemoveAt(nodes, i)) && Placed(RemoveAt(nodes, i), chains', n)
  {
    var x, b := nodes[i], Bucket(nodes[i].key, n);
    var rest, chain := RemoveAt(nodes, i), RemoveAt(chains[b], j);
    var chains' := chains[b := chain];
    RemovedElements(nodes, i);
    assert InBucket(chains[b], b, n) && InBucket(chain, b, n) && Bucketed(chains', n);
    RemovedElements(chains[b], j);
    OnlyInItsChain(chains, n, b, j);
    hide InBucket, Bucket;
    assert Within(chains', rest);
    forall y | y in rest ensures y in chains'[Bucket(y.key, n)] {
      assert y in chains[Bucket(y.key, n)];
    }
  }

  lemma NothingStored(table: array<Entry?>, chains: seq<seq<Entry>>, repr: set<Entry>, bound: nat)
    requires |chains| == table.Length > 0
    requires forall b :: 0 <= b < |chains| ==> chains[b] == [] && table[b] == null
    ensures Owned([], repr) && Linked([], null, null) && Placed([], chains, table.Length) && Within(chains, [])
    ensures AllChained(table, chains, []) && Shows([], []) && IdsBelow([], bound)
  {
  }

  lemma InItsList(nodes: seq<Entry>, head: Entry?, tail: Entry?, repr: set<Entry>, i: nat)
    requires Linked(nodes, head, tail) && Owned(nodes, repr) && i < |nodes|
    ensures NoRepeats(nodes) && nodes[i] in repr
  {
  }

  lemma InItsChain(nodes: seq<Entry>, chains: seq<seq<Entry>>, n: nat, i: nat)
    requires Placed(nodes, chains, n) && i < |nodes|
    ensures Bucketed(chains, n) && Within(chains, nodes) && nodes[i] in chains[Bucket(nodes[i].key, n)]
  {
    assert nodes[i] in nodes;
  }

  lemma ChainedInFewer(table: array<Entry?>, chains: seq<seq<Entry>>, nodes: seq<Entry>, fewer: seq<Entry>)
    requires |chains| == table.Length && Within(chains, nodes) && Within(chains, fewer)
    ensures AllChained(table, chains, nodes) == AllChained(table, chains, fewer)
  {
  }

  lemma RemoveKeepsShows(nodes: seq<Entry>, items: seq<M.Item>, repr: set<Entry>, bound: nat, i: nat)
    requires Shows(nodes, items) && Owned(nodes, repr) && IdsBelow(nodes, bound) && i < |nodes|
    ensures Shows(RemoveAt(nodes, i), RemoveAt(items, i))
    ensures Owned(RemoveAt(nodes, i), repr) && IdsBelow(RemoveAt(nodes, i), bound)
  {
  }

  lemma LeastUsedOfOneMore(items: seq<M.Item>, j: nat)
    requires j < |items|
    ensures M.LeastUsed(items[..j + 1]) ==
      if j == 0 then 0
      else if items[j].hits < items[M.LeastUsed(items[..j])].hits then j else M.LeastUsed(items[..j])
  {
    assert items[..j + 1][..j] == items[..j];
  }

  lemma NewestIs(nodes: seq<Entry>, items: seq<M.Item>, key: Key, i: nat)
    requires SameNames(nodes, items) && i < |nodes| && nodes[i].key == key
    requires forall m :: 0 <= m < |nodes| && m != i && nodes[m].key == key ==> nodes[m].id < nodes[i].id
    ensures M.Newest(items, key) == Some(i)
  {
  }

  /** The first entry of a key in its chain is the newest entry of the key in the list. */
  lemma FirstInChain(nodes: seq<Entry>, chains: seq<seq<Entry>>, items: seq<M.Item>,
                     n: nat, key: Key, now: nat, j: nat) returns (i: nat)
    requires Placed(nodes, chains, n) && SameNames(nodes, items)
    requires var chain := chains[Bucket(key, n)];
      j < |chain| && chain[j].key == key && forall k :: 0 <= k < j ==> chain[k].key != key
    ensures i < |nodes| && nodes[i] == chains[Bucket(key, n)][j]
    ensures M.Find(items, key, now) == if M.Expired(items[i], now) then None else Some(i)
  {
    var chain := chains[Bucket(key, n)];
    assert chain[j] in nodes;
    i :| 0 <= i < |nodes| && nodes[i] == chain[j];
    forall m | 0 <= m < |nodes| && m != i && nodes[m].key == key ensures nodes[m].id < nodes[i].id {
      assert nodes[m] in nodes && nodes[m] in chain;
      var k :| 0 <= k < |chain| && chain[k] == nodes[m];
      assert j <= k;
    }
    NewestIs(nodes, items, key, i);
  }

  lemma NotInChain(nodes: seq<Entry>, chains: seq<seq<Entry>>, items: seq<M.Item>, n: nat, key: Key, now: nat)
    requires Placed(nodes, chains, n) && SameNames(nodes, items)
    requires var chain := chains[Bucket(key, n)]; forall k :: 0 <= k < |chain| ==> chain[k].key != key
    ensures M.Find(items, key, now).None?
  {
  }

  lemma InsertKeepsShows(nodes: seq<Entry>, items: seq<M.Item>, entry: Entry)
    requires Shows(nodes, items) && IdsBelow(nodes, entry.id)
    ensures Shows([entry] + nodes, [entry.View()] + items) && IdsBelow([entry] + nodes, entry.id + 1)
  {
  }

  lemma NewEntry(nodes: seq<Entry>, chains: seq<seq<Entry>>, repr: set<Entry>, n: nat, entry: Entry)
    requires Placed(nodes, chains, n) && Owned(nodes, repr) && entry !in repr && IdsBelow(nodes, entry.id)
    ensures entry !in nodes && |chains| == n > 0 && Within(chains, nodes) && Owned([entry] + nodes, repr + {entry})
    ensures var b := Bucket(entry.key, n);
      Placed([entry] + nodes, chains[b := [entry] + chains[b]], n)
  {
    InsertKeepsPlaced(nodes, chains, n, entry);
  }

  lemma InsertKeepsPlaced(nodes: seq<Entry>, chains: seq<seq<Entry>>, n: nat, entry: Entry)
    requires Placed(nodes, chains, n)
    requires entry !in nodes && forall x :: x in nodes ==> x.id < entry.id
    ensures var b := Bucket(entry.key, n);
      var chains' := chains[b := [entry] + chains[b]];
      |chains'| == n && Within(chains', [entry] + nodes) && Placed([entry] + nodes, chains', n)
  {
  }

  lemma MoveKeepsPlaced(nodes: seq<Entry>, chains: seq<seq<Entry>>, table: array<Entry?>, i: nat)
    requires Placed(nodes, chains, table.Length) && AllChained(table, chains, nodes) && i < |nodes|
    ensures var moved := MoveToFront(nodes, i);
      && Placed(moved, chains, table.Length) && |chains| == table.Length && Within(chains, moved)
      && AllChained(table, chains, moved)
  {
  }

  lemma MoveKeepsShows(nodes: seq<Entry>, items: seq<M.Item>, repr: set<Entry>, bound: nat, i: nat)
    requires Shows(nodes, items) && Owned(nodes, repr) && IdsBelow(nodes, bound) && i < |nodes|
    ensures Shows(MoveToFront(nodes, i), MoveToFront(items, i))
    ensures Owned(MoveToFront(nodes, i), repr) && IdsBelow(MoveToFront(nodes, i), bound)
  {
  }
}
