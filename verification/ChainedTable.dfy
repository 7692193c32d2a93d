/**
 The chained hash table behind the store and behind transaction write sets, with its bucket
 chains mutated in place and proved to be a map.
 */
module ChainedTable {
  import opened Common

  class HashEntry {
    const key: Key
    var value: Bytes
    var next: HashEntry?

    constructor (key: Key, value: Bytes, next: HashEntry?)
      ensures this.key == key && this.value == value && this.next == next
    {
      this.key, this.value, this.next := key, value, next;
    }
  }

  ghost function At(chain: seq<HashEntry>, j: int): HashEntry? {
    if 0 <= j < |chain| then chain[j] else null
  }

  ghost predicate Chained(chain: seq<HashEntry>, first: HashEntry?)
    reads chain`next
  {
    && first == At(chain, 0)
    && forall j {:trigger chain[j].next} :: 0 <= j < |chain| ==> chain[j].next == At(chain, j + 1)
  }

  ghost predicate Within(chains: seq<seq<HashEntry>>, repr: set<HashEntry>) {
    forall b, j :: 0 <= b < |chains| && 0 <= j < |chains[b]| ==> chains[b][j] in repr
  }

  ghost predicate AllChained(buckets: array<HashEntry?>, chains: seq<seq<HashEntry>>, repr: set<HashEntry>)
    requires |chains| == buckets.Length && Within(chains, repr)
    reads buckets, repr`next
  {
    forall b :: 0 <= b < |chains| ==> Chained(chains[b], buckets[b])
  }

  /** Every key sits in the bucket it hashes to, at most once. */
  ghost predicate InBucket(chain: seq<HashEntry>, b: nat, n: nat)
    requires n > 0
  {
    && (forall j :: 0 <= j < |chain| ==> Bucket(chain[j].key, n) == b)
    && (forall i, j :: 0 <= i < j < |chain| ==> chain[i].key != chain[j].key)
  }

  ghost predicate Bucketed(chains: seq<seq<HashEntry>>, n: nat) {
    n > 0 && |chains| == n && forall b :: 0 <= b < n ==> InBucket(chains[b], b, n)
  }

  ghost predicate HasKey(chain: seq<HashEntry>, key: Key) {
    exists j :: 0 <= j < |chain| && chain[j].key == key
  }

  /** The chains hold exactly the pairs of `contents`. */
  ghost predicate Shows(chains: seq<seq<HashEntry>>, n: nat, contents: map<Key, Bytes>, repr: set<HashEntry>)
    requires Bucketed(chains, n) && Within(chains, repr)
    reads repr`value
  {
    && (forall b, j :: 0 <= b < n && 0 <= j < |chains[b]| ==>
          chains[b][j].key in contents && contents[chains[b][j].key] == chains[b][j].value)
    && (forall key :: key in contents ==> HasKey(chains[Bucket(key, n)], key))
  }

  class HashTable {
    const buckets: array<HashEntry?>
    var size: nat

    ghost var contents: map<Key, Bytes>
    ghost var chains: seq<seq<HashEntry>>
    ghost var repr: set<HashEntry>

    ghost predicate Valid()
      reads this, buckets, repr
    {
      && buckets.Length > 0 && |chains| == buckets.Length
      && Bucketed(chains, buckets.Length) && Within(chains, repr)
      && AllChained(buckets, chains, repr)
      && Shows(chains, buckets.Length, contents, repr)
      && size == |contents|
    }

    constructor (bucketCount: nat)
      requires bucketCount > 0
      ensures Valid() && contents == map[] && buckets.Length == bucketCount && fresh(buckets) && fresh(repr)
    {
      buckets := new HashEntry?[bucketCount](_ => null);
      size, contents, repr := 0, map[], {};
      chains := seq(bucketCount, _ => []);
    }

    /** Walks the chain of `key`; `prev` is the entry before the one found. */
    method Find(key: Key) returns (bucket: nat, prev: HashEntry?, entry: HashEntry?, ghost j: nat)
      requires Valid()
      ensures bucket == Bucket(key, buckets.Length) && entry == At(chains[bucket], j)
      ensures entry == null ==> key !in contents
      ensures entry != null ==> entry.key == key && key in contents && contents[key] == entry.value
      ensures j <= |chains[bucket]| && prev == At(chains[bucket], j - 1)
    {
      hide Bucketed, Within, AllChained, Shows;
      var hash := HashKey(key);
      bucket := hash % buckets.Length;
      ghost var chain := chains[bucket];
      prev, entry, j := null, buckets[bucket], 0;
      ChainAt(buckets, chains, repr, bucket);
      while entry != null
        invariant 0 <= j <= |chain| && entry == At(chain, j) && prev == At(chain, j - 1)
        invariant forall k :: 0 <= k < j ==> chain[k].key != key
        decreases |chain| - j
      {
        if entry.key == key {
          ShownAt(chains, buckets.Length, contents, repr, bucket, j);
          return;
        }
        prev := entry;
        entry := entry.next;
        j := j + 1;
      }
      NotShown(chains, buckets.Length, contents, repr, key);
    }

    method Get(key: Key) returns (value: Option<Bytes>)
      requires Valid()
      ensures value == if key in contents then Some(contents[key]) else None
    {
      hide Bucketed, Within, AllChained, Shows;
      var _, _, entry, _ := Find(key);
      if entry == null {
        return None;
      }
      return Some(entry.value);
    }

    method Overwrite(bucket: nat, entry: HashEntry, value: Bytes, ghost j: nat)
      requires bucket < buckets.Length && Bucketed(chains, buckets.Length) && Within(chains, repr)
      requires Shows(chains, buckets.Length, contents, repr) && j < |chains[bucket]| && chains[bucket][j] == entry
      modifies this`contents, entry`value
      ensures contents == old(contents)[entry.key := value] && entry.key in old(contents)
      ensures Shows(chains, buckets.Length, contents, repr)
    {
      KeyDeterminesEntry(chains, buckets.Length, bucket, j);
      hide Bucketed;
      entry.value := value;
      contents := contents[entry.key := value];
    }

    method PushFront(bucket: nat, entry: HashEntry)
      requires bucket < buckets.Length == |chains| && Within(chains, repr) && AllChained(buckets, chains, repr)
      requires entry !in repr && entry.next == buckets[bucket]
      modifies buckets, this`chains, this`repr
      ensures chains == old(chains)[bucket := [entry] + old(chains)[bucket]] && repr == old(repr) + {entry}
      ensures Within(chains, repr) && AllChained(buckets, chains, repr)
    {
      ghost var chain := chains[bucket];
      assert Chained(chain, buckets[bucket]);
      buckets[bucket] := entry;
      assert Chained([entry] + chain, entry);
      chains := chains[bucket := [entry] + chain];
      repr := repr + {entry};
    }

    method Put(key: Key, value: Bytes)
      requires Valid()
      modifies this, buckets, repr
      ensures Valid() && contents == old(contents)[key := value] && fresh(repr - old(repr))
    {
      hide Bucketed, Within, AllChained, Shows, Bucket;
      var bucket, _, entry, j := Find(key);
      if entry != null {
        EntryOwned(chains, repr, bucket, j);
        Overwrite(bucket, entry, value, j);
        SizeAfterPut(old(contents), key, value);
        return;
      }
      entry := new HashEntry(key, value, buckets[bucket]);
      InsertShows(chains, buckets.Length, contents, repr, entry);
      PushFront(bucket, entry);
      SizeAfterPut(contents, key, value);
      contents := contents[key := value];
      size := size + 1;
    }

    /** Bypasses the entry at position `j` of its chain. */
    method Unlink(bucket: nat, prev: HashEntry?, entry: HashEntry, ghost j: nat)
      requires bucket < buckets.Length && Bucketed(chains, buckets.Length) && Within(chains, repr)
      requires AllChained(buckets, chains, repr)
      requires j < |chains[bucket]| && chains[bucket][j] == entry && prev == At(chains[bucket], j - 1)
      modifies buckets, this`chains, repr`next
      ensures chains == old(chains)[bucket := RemoveAt(old(chains)[bucket], j)]
      ensures Within(chains, repr) && AllChained(buckets, chains, repr)
    {
      assert |chains| == buckets.Length;
      hide Bucketed;
      ghost var chain := chains[bucket];
      assert Chained(chain, buckets[bucket]);
      if prev != null {
        KeyDeterminesEntry(chains, buckets.Length, bucket, j - 1);
        prev.next := entry.next;
      } else {
        buckets[bucket] := entry.next;
      }
      BypassKeepsChain(chain, j, buckets[bucket]);
      forall b | 0 <= b < |chains| && b != bucket ensures Chained(chains[b], buckets[b]) {
        assert old(Chained(chains[b], buckets[b]));
      }
      chains := chains[bucket := RemoveAt(chain, j)];
    }

    method Delete(key: Key) returns (status: Status)
      requires Valid()
      modifies this`size, this`contents, this`chains, buckets, repr`next
      ensures Valid() && contents == old(contents) - {key}
      ensures status == if key in old(contents) then Success else NotFound
    {
      hide Bucketed, Within, AllChained, Shows, Bucket;
      var bucket, prev, entry, j := Find(key);
      SizeAfterDelete(contents, key);
      if entry == null {
        return NotFound;
      }
      RemoveShows(chains, buckets.Length, contents, repr, bucket, j);
      Unlink(bucket, prev, entry, j);
      contents := contents - {key};
      size := size - 1;
      return Success;
    }

    /** What a walk over bucket `b` meets. */
    lemma WalkBucket(b: nat)
      requires Valid() && b < buckets.Length
      ensures |chains| == buckets.Length && Chained(chains[b], buckets[b])
      ensures forall j :: 0 <= j < |chains[b]| ==> chains[b][j] in repr
      ensures forall j :: 0 <= j < |chains[b]| ==>
        chains[b][j].key in contents && contents[chains[b][j].key] == chains[b][j].value
    {
    }

    /** A walk over all buckets meets every key. */
    lemma WalkMeets(key: Key)
      requires Valid() && key in contents
      ensures |chains| == buckets.Length && exists b :: 0 <= b < |chains| && HasKey(chains[b], key)
    {
      assert HasKey(chains[Bucket(key, buckets.Length)], key);
    }
  }

  // ----- Chains as values -----

  lemma SizeAfterPut(m: map<Key, Bytes>, key: Key, value: Bytes)
    ensures |m[key := value]| == if key in m then |m| else |m| + 1
  {
    assert m[key := value].Keys == m.Keys + {key};
  }

  lemma SizeAfterDelete(m: map<Key, Bytes>, key: Key)
    ensures if key in m then |m - {key}| == |m| - 1 else m - {key} == m
  {
    assert m.Keys == (m - {key}).Keys + if key in m then {key} else {};
  }

  lemma KeyDeterminesEntry(chains: seq<seq<HashEntry>>, n: nat, b: nat, j: nat)
    requires Bucketed(chains, n) && b < n && j < |chains[b]|
    ensures forall c, k :: 0 <= c < n && 0 <= k < |chains[c]| && chains[c][k].key == chains[b][j].key ==> c == b && k == j
  {
  }

  lemma ChainAt(buckets: array<HashEntry?>, chains: seq<seq<HashEntry>>, repr: set<HashEntry>, b: nat)
    requires |chains| == buckets.Length && Within(chains, repr) && AllChained(buckets, chains, repr) && b < |chains|
    ensures Chained(chains[b], buckets[b])
  {
  }

  lemma ShownAt(chains: seq<seq<HashEntry>>, n: nat, contents: map<Key, Bytes>, repr: set<HashEntry>, b: nat, j: nat)
    requires Bucketed(chains, n) && Within(chains, repr) && Shows(chains, n, contents, repr)
    requires |chains| == n && b < n && j < |chains[b]|
    ensures chains[b][j].key in contents && contents[chains[b][j].key] == chains[b][j].value
  {
  }

  lemma NotShown(chains: seq<seq<HashEntry>>, n: nat, contents: map<Key, Bytes>, repr: set<HashEntry>, key: Key)
    requires n > 0 && |chains| == n && Bucketed(chains, n) && Within(chains, repr) && Shows(chains, n, contents, repr)
    requires forall k :: 0 <= k < |chains[Bucket(key, n)]| ==> chains[Bucket(key, n)][k].key != key
    ensures key !in contents
  {
  }

  lemma EntryOwned(chains: seq<seq<HashEntry>>, repr: set<HashEntry>, b: nat, j: nat)
    requires Within(chains, repr) && b < |chains| && j < |chains[b]|
    ensures chains[b][j] in repr
  {
  }

  lemma InsertBucketed(chains: seq<seq<HashEntry>>, n: nat, entry: HashEntry)
    requires Bucketed(chains, n) && !HasKey(chains[Bucket(entry.key, n)], entry.key)
    ensures var b := Bucket(entry.key, n); Bucketed(chains[b := [entry] + chains[b]], n)
  {
    var b := Bucket(entry.key, n);
    assert InBucket(chains[b], b, n);
    assert InBucket([entry] + chains[b], b, n);
  }

  lemma PushKeepsKeys(chain: seq<HashEntry>, entry: HashEntry, key: Key)
    ensures HasKey([entry] + chain, key) <==> entry.key == key || HasKey(chain, key)
  {
    var longer := [entry] + chain;
    assert longer[0] == entry;
    if HasKey(chain, key) {
      var k :| 0 <= k < |chain| && chain[k].key == key;
      assert longer[k + 1] == chain[k];
    }
    if HasKey(longer, key) && entry.key != key {
      var k :| 0 <= k < |longer| && longer[k].key == key;
      assert chain[k - 1] == longer[k];
    }
  }

  lemma PushedEntries(chains: seq<seq<HashEntry>>, b: nat, entry: HashEntry, contents: map<Key, Bytes>, repr: set<HashEntry>)
    requires b < |chains| && Within(chains, repr) && entry.key !in contents
    requires forall c, j :: 0 <= c < |chains| && 0 <= j < |chains[c]| ==>
      chains[c][j].key in contents && contents[chains[c][j].key] == chains[c][j].value
    ensures var chains' := chains[b := [entry] + chains[b]];
      && Within(chains', repr + {entry})
      && forall c, j :: 0 <= c < |chains'| && 0 <= j < |chains'[c]| ==>
           && chains'[c][j].key in contents[entry.key := entry.value]
           && contents[entry.key := entry.value][chains'[c][j].key] == chains'[c][j].value
  {
    var chains' := chains[b := [entry] + chains[b]];
    forall c, j | 0 <= c < |chains'| && 0 <= j < |chains'[c]|
      ensures chains'[c][j] == entry || exists i :: 0 <= i < |chains[c]| && chains'[c][j] == chains[c][i]
    {
      if c == b && j > 0 { assert chains'[c][j] == chains[c][j - 1]; } else if c != b { assert chains'[c][j] == chains[c][j]; }
    }
  }

  lemma InsertShows(chains: seq<seq<HashEntry>>, n: nat, contents: map<Key, Bytes>, repr: set<HashEntry>, entry: HashEntry)
    requires Bucketed(chains, n) && Within(chains, repr) && Shows(chains, n, contents, repr)
    requires entry.key !in contents && entry !in repr
    ensures var b := Bucket(entry.key, n);
      var chains' := chains[b := [entry] + chains[b]];
      && Bucketed(chains', n) && Within(chains', repr + {entry})
      && Shows(chains', n, contents[entry.key := entry.value], repr + {entry})
  {
    hide InBucket, Bucket, Within;
    var b := Bucket(entry.key, n);
    var chains' := chains[b := [entry] + chains[b]];
    InsertBucketed(chains, n, entry);
    PushedEntries(chains, b, entry, contents, repr);
    hide Bucketed, HasKey;
    forall key | key in contents[entry.key := entry.value] ensures HasKey(chains'[Bucket(key, n)], key) {
      PushKeepsKeys(chains[b], entry, key);
    }
  }

  lemma BypassKeepsChain(chain: seq<HashEntry>, j: nat, first: HashEntry?)
    requires j < |chain| && first == if j == 0 then At(chain, 1) else chain[0]
    requires forall k {:trigger chain[k].next} :: 0 <= k < |chain| ==>
      chain[k].next == if k == j - 1 then At(chain, j + 1) else At(chain, k + 1)
    ensures Chained(RemoveAt(chain, j), first)
  {
  }

  lemma RemoveBucketed(chains: seq<seq<HashEntry>>, n: nat, b: nat, j: nat)
    requires Bucketed(chains, n) && b < n && j < |chains[b]|
    ensures Bucketed(chains[b := RemoveAt(chains[b], j)], n)
  {
    assert InBucket(chains[b], b, n);
    assert InBucket(RemoveAt(chains[b], j), b, n);
  }

  lemma RemoveKeepsKeys(chain: seq<HashEntry>, j: nat, key: Key)
    requires j < |chain| && HasKey(chain, key) && key != chain[j].key
    ensures HasKey(RemoveAt(chain, j), key)
  {
    var k :| 0 <= k < |chain| && chain[k].key == key;
    assert RemoveAt(chain, j)[if k < j then k else k - 1] == chain[k];
  }

  /** What is left is old, and is not the entry removed. */
  lemma RemainingEntry(chains: seq<seq<HashEntry>>, n: nat, b: nat, j: nat, c: nat, k: nat) returns (i: nat)
    requires Bucketed(chains, n) && b < n && j < |chains[b]|
    requires c < n && k < |chains[b := RemoveAt(chains[b], j)][c]|
    ensures i < |chains[c]| && chains[b := RemoveAt(chains[b], j)][c][k] == chains[c][i]
    ensures chains[c][i].key != chains[b][j].key
  {
    hide InBucket;
    KeyDeterminesEntry(chains, n, b, j);
    i := if c == b && k >= j then k + 1 else k;
  }

  lemma RemoveShows(chains: seq<seq<HashEntry>>, n: nat, contents: map<Key, Bytes>, repr: set<HashEntry>, b: nat, j: nat)
    requires Bucketed(chains, n) && Within(chains, repr) && Shows(chains, n, contents, repr)
    requires b < n && j < |chains[b]|
    ensures var chains' := chains[b := RemoveAt(chains[b], j)];
      && Bucketed(chains', n) && Within(chains', repr)
      && Shows(chains', n, contents - {chains[b][j].key}, repr)
  {
    hide InBucket, Bucket, HasKey, RemoveAt;
    var gone := chains[b][j].key;
    var chains' := chains[b := RemoveAt(chains[b], j)];
    RemoveBucketed(chains, n, b, j);
    forall key | key in contents && key != gone ensures HasKey(chains'[Bucket(key, n)], key) {
      if Bucket(key, n) == b { RemoveKeepsKeys(chains[b], j, key); }
    }
    forall c, k | 0 <= c < n && 0 <= k < |chains'[c]|
      ensures chains'[c][k] in repr && chains'[c][k].key in contents - {gone} && contents[chains'[c][k].key] == chains'[c][k].value
    {
      var i := RemainingEntry(chains, n, b, j, c, k);
    }
  }
}
