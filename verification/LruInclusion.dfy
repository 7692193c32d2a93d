/**
 The inclusion property of LRU: run the same operations on two LRU caches; what the smaller one
 holds the larger one holds too, in the same order, whatever the times to live.
 */
module LruInclusion {
  import opened Common
  import opened CacheModel

  // ----- The recency list an LRU cache amounts to -----

  /** An entry as a caller can see it. */
  datatype Entry = Entry(key: Key, value: Bytes, stamp: nat, ttl: nat)

  function EntryOf(it: Item): Entry {
    Entry(it.key, it.value, it.stamp, it.ttl)
  }

  function Entries(items: seq<Item>): (r: seq<Entry>)
    ensures |r| == |items| && forall i :: 0 <= i < |r| ==> r[i] == EntryOf(items[i])
  {
    seq(|items|, i requires 0 <= i < |items| => EntryOf(items[i]))
  }

  predicate HasKey(es: seq<Entry>, key: Key) {
    exists i :: 0 <= i < |es| && es[i].key == key
  }

  function First(es: seq<Entry>, key: Key): Option<Entry> {
    if es == [] then None else if es[0].key == key then Some(es[0]) else First(es[1..], key)
  }

  /** The list without the first entry of the key. */
  function Drop(es: seq<Entry>, key: Key): seq<Entry> {
    if es == [] then [] else if es[0].key == key then es[1..] else [es[0]] + Drop(es[1..], key)
  }

  /** The first entry of the key, unless it has expired. */
  function Live(es: seq<Entry>, key: Key, now: nat): Option<Entry> {
    var x := First(es, key);
    if x.Some? && x.value.ttl > 0 && now - x.value.stamp > x.value.ttl then None else x
  }

  function Front(es: seq<Entry>): seq<Entry>
    requires es != []
  {
    es[..|es| - 1]
  }

  /** One operation on the recency list: no identities, no hash chains, no counters. */
  function ListStep(es: seq<Entry>, capacity: nat, op: Op): seq<Entry> {
    match op
    case Put(key, value, ttl, now) =>
      [Entry(key, value, now, ttl)] +
      if Live(es, key, now).Some? then Drop(es, key)
      else if |es| < capacity || es == [] then es
      else Front(es)
    case Get(key, now) =>
      var x := Live(es, key, now);
      if x.Some? then [x.value] + Drop(es, key) else es
    case Delete(key, now) => if Live(es, key, now).Some? then Drop(es, key) else es
    case Clear(_) => []
  }

  // ----- The LRU cache refines the recency list -----

  /** Entries of one key stand in the list newest first. */
  ghost predicate NewestFirst(items: seq<Item>) {
    forall i, j :: 0 <= i < j < |items| && items[i].key == items[j].key ==> items[j].id < items[i].id
  }

  ghost predicate Stacked(c: Cache) {
    && c.policy.LRU? && 1 <= c.capacity && |c.items| <= c.capacity
    && NewestFirst(c.items) && forall i :: 0 <= i < |c.items| ==> c.items[i].id < c.nextId
  }

  lemma {:induction false} FirstAt(es: seq<Entry>, i: nat)
    requires i < |es| && forall j :: 0 <= j < i ==> es[j].key != es[i].key
    ensures First(es, es[i].key) == Some(es[i]) && Drop(es, es[i].key) == RemoveAt(es, i)
  {
    if i > 0 { FirstAt(es[1..], i - 1); }
  }

  lemma {:induction false} NoFirst(es: seq<Entry>, key: Key)
    requires !HasKey(es, key)
    ensures First(es, key) == None && Drop(es, key) == es
  {
    if es != [] {
      forall i | 0 <= i < |es[1..]| ensures es[1..][i].key != key { assert es[i + 1].key != key; }
      NoFirst(es[1..], key);
    }
  }

  /** A lookup in the cache and a lookup in its recency list find the same entry. */
  lemma FindIsLive(items: seq<Item>, key: Key, now: nat)
    requires NewestFirst(items)
    ensures var r := Find(items, key, now);
      && Live(Entries(items), key, now) == (if r.Some? then Some(EntryOf(items[r.value])) else None)
      && (r.Some? ==> Drop(Entries(items), key) == RemoveAt(Entries(items), r.value))
  {
    var r := Newest(items, key);
    if r.Some? { FirstAt(Entries(items), r.value); } else { NoFirst(Entries(items), key); }
  }

  lemma MoveStacked(items: seq<Item>, i: nat, it: Item)
    requires i < |items| && NewestFirst(items) && IsNewest(items, it.key, i) && it.id == items[i].id
    ensures NewestFirst(MoveToFront(items[i := it], i))
  {
  }

  lemma MoveEntries(items: seq<Item>, i: nat, it: Item, bound: nat)
    requires i < |items| && it.id < bound && forall j :: 0 <= j < |items| ==> items[j].id < bound
    ensures var r := MoveToFront(items[i := it], i);
      && Entries(r) == [EntryOf(it)] + RemoveAt(Entries(items), i)
      && forall j :: 0 <= j < |r| ==> r[j].id < bound
  {
    hide EntryOf;
    assert MoveToFront(items[i := it], i) == [it] + RemoveAt(items, i);
  }

  lemma RemoveStacked(items: seq<Item>, i: nat)
    requires i < |items| && NewestFirst(items)
    ensures NewestFirst(RemoveAt(items, i)) && Entries(RemoveAt(items, i)) == RemoveAt(Entries(items), i)
  {
  }

  ghost predicate Refines(c: Cache, d: Cache, op: Op) {
    Stacked(d) && d.capacity == c.capacity && Entries(d.items) == ListStep(Entries(c.items), c.capacity, op)
  }

  /** A lookup that finds the entry at `i`, rewrites it and moves it to the head. */
  lemma TouchRefines(c: Cache, i: nat, it: Item)
    requires Stacked(c) && i < |c.items| && IsNewest(c.items, it.key, i) && it.id == c.items[i].id
    ensures var r := Touch(c.policy, c.items[i := it], i);
      Stacked(c.(items := r)) && Entries(r) == [EntryOf(it)] + RemoveAt(Entries(c.items), i)
  {
    hide NewestFirst, IsNewest, EntryOf, Entries, RemoveAt, MoveToFront;
    MoveStacked(c.items, i, it);
    MoveEntries(c.items, i, it, c.nextId);
  }

  lemma InsertRefines(c: Cache, it: Item)
    requires Stacked(c) && it.id == c.nextId
    ensures var d := MakeRoom(c); var r := [it] + d.items;
      && Stacked(d.(items := r, nextId := c.nextId + 1)) && d.capacity == c.capacity
      && Entries(r) == [EntryOf(it)] +
           if |c.items| < c.capacity || c.items == [] then Entries(c.items) else Front(Entries(c.items))
  {
  }

  lemma StackedNewest(c: Cache)
    requires Stacked(c)
    ensures NewestFirst(c.items)
  {
  }

  lemma PutRefines(c: Cache, op: Op)
    requires Stacked(c) && op.Put?
    ensures Refines(c, Step(c, op).0, op)
  {
    hide Find, Live, Drop, Touch, MakeRoom, Stacked;
    StackedNewest(c);
    FindIsLive(c.items, op.key, op.now);
    match Find(c.items, op.key, op.now)
    case Some(i) => TouchRefines(c, i, c.items[i].(value := op.value, stamp := op.now, ttl := op.ttl));
    case None => InsertRefines(c, Item(c.nextId, op.key, op.value, op.now, op.ttl, 0));
  }

  lemma GetRefines(c: Cache, op: Op)
    requires Stacked(c) && op.Get?
    ensures Refines(c, Step(c, op).0, op)
  {
    hide Find, Live, Drop, Touch;
    FindIsLive(c.items, op.key, op.now);
    match Find(c.items, op.key, op.now)
    case Some(i) => TouchRefines(c, i, c.items[i].(hits := c.items[i].hits + 1));
    case None =>
  }

  lemma DeleteRefines(c: Cache, op: Op)
    requires Stacked(c) && op.Delete?
    ensures Refines(c, Step(c, op).0, op)
  {
    hide Find, Live, Drop;
    FindIsLive(c.items, op.key, op.now);
    match Find(c.items, op.key, op.now)
    case Some(i) => RemoveStacked(c.items, i);
    case None =>
  }

  /** Every operation of an LRU cache does to its entries what the recency list does. */
  lemma StepRefines(c: Cache, op: Op)
    requires Stacked(c)
    ensures Refines(c, Step(c, op).0, op)
  {
    match op
    case Put(_, _, _, _) => PutRefines(c, op);
    case Get(_, _) => GetRefines(c, op);
    case Delete(_, _) => DeleteRefines(c, op);
    case Clear(_) =>
  }

  // ----- Inclusion of recency lists -----

  /**
   `a` is `b` with some entries left out, and with an entry every later entry of its key is left out:
   the smaller list never holds an entry whose successor only the larger one holds.
   */
  ghost predicate Within(a: seq<Entry>, b: seq<Entry>)
    decreases |b|
  {
    || a == []
    || (b != [] && a[0] == b[0] && Within(a[1..], b[1..]))
    || (b != [] && !HasKey(a, b[0].key) && Within(a, b[1..]))
  }

  lemma WithinCons(x: Entry, a: seq<Entry>, b: seq<Entry>)
    requires Within(a, b)
    ensures Within([x] + a, [x] + b)
  {
    assert ([x] + a)[1..] == a && ([x] + b)[1..] == b;
  }

  lemma WithinSkip(x: Entry, a: seq<Entry>, b: seq<Entry>)
    requires Within(a, b) && !HasKey(a, x.key)
    ensures Within(a, [x] + b)
  {
    assert ([x] + b)[1..] == b;
  }

  lemma {:induction false} HasFirst(es: seq<Entry>, key: Key)
    ensures First(es, key).Some? <==> HasKey(es, key)
    ensures First(es, key).Some? ==> First(es, key).value.key == key && |Drop(es, key)| == |es| - 1
  {
    if es != [] && es[0].key != key {
      HasFirst(es[1..], key);
      if HasKey(es, key) {
        var i :| 0 <= i < |es| && es[i].key == key;
        assert es[1..][i - 1].key == key;
      }
      if HasKey(es[1..], key) {
        var i :| 0 <= i < |es[1..]| && es[1..][i].key == key;
        assert es[i + 1].key == key;
      }
    }
  }

  lemma {:induction false} DropKeys(es: seq<Entry>, key: Key, other: Key)
    requires HasKey(Drop(es, key), other)
    ensures HasKey(es, other)
  {
    var r := Drop(es, key);
    var i :| 0 <= i < |r| && r[i].key == other;
    if es[0].key == key {
      assert es[i + 1].key == other;
    } else if i == 0 {
      assert es[0].key == other;
    } else {
      assert Drop(es[1..], key)[i - 1].key == other;
      DropKeys(es[1..], key, other);
      var j :| 0 <= j < |es[1..]| && es[1..][j].key == other;
      assert es[j + 1].key == other;
    }
  }

  /** An entry of the key in the smaller list means that both lists have the same first entry of the key. */
  lemma {:induction false} WithinFirst(a: seq<Entry>, b: seq<Entry>, key: Key)
    requires Within(a, b) && HasKey(a, key)
    ensures First(a, key) == First(b, key)
    decreases |b|
  {
    HasFirst(a, key);
    if a[0] == b[0] && Within(a[1..], b[1..]) {
      if a[0].key != key {
        HasFirst(a[1..], key);
        WithinFirst(a[1..], b[1..], key);
      }
    } else {
      WithinFirst(a, b[1..], key);
    }
  }

  lemma {:induction false} WithinDrop(a: seq<Entry>, b: seq<Entry>, key: Key)
    requires Within(a, b)
    ensures Within(Drop(a, key), Drop(b, key))
    decreases |b|
  {
    if a != [] {
      if a[0] == b[0] && Within(a[1..], b[1..]) {
        if a[0].key != key {
          WithinDrop(a[1..], b[1..], key);
          WithinCons(a[0], Drop(a[1..], key), Drop(b[1..], key));
        }
      } else if b[0].key == key {
        NoFirst(a, key);
      } else {
        WithinDrop(a, b[1..], key);
        if HasKey(Drop(a, key), b[0].key) { DropKeys(a, key, b[0].key); }
        WithinSkip(b[0], Drop(a, key), Drop(b[1..], key));
      }
    }
  }

  /** Dropping the last entry of both, or of the smaller alone. */
  lemma {:induction false} WithinFront(a: seq<Entry>, b: seq<Entry>)
    requires Within(a, b) && a != []
    ensures b != [] && Within(Front(a), Front(b)) && Within(Front(a), b)
    decreases |b|
  {
    if a[0] == b[0] && Within(a[1..], b[1..]) {
      if |a| > 1 {
        WithinFront(a[1..], b[1..]);
        assert Front(a)[1..] == Front(a[1..]) && Front(b)[1..] == Front(b[1..]);
      }
    } else {
      WithinFront(a, b[1..]);
      assert Front(b)[1..] == Front(b[1..]);
    }
  }

  // ----- Inclusion is kept by every operation -----

  /** The difference in fill never exceeds the difference in capacity: a full large list has a full small one. */
  ghost predicate ListsIncluded(a: seq<Entry>, ca: nat, b: seq<Entry>, cb: nat) {
    1 <= ca <= cb && |a| <= ca && |b| <= cb && |b| - |a| <= cb - ca && Within(a, b)
  }

  /** What the smaller list serves the larger serves too; what it lacks while the larger serves it, it has no entry of. */
  lemma LiveIncluded(a: seq<Entry>, b: seq<Entry>, key: Key, now: nat)
    requires Within(a, b)
    ensures Live(a, key, now).Some? ==> Live(b, key, now) == Live(a, key, now)
    ensures Live(b, key, now).Some? && Live(a, key, now).None? ==> !HasKey(a, key)
  {
    HasFirst(a, key);
    if HasKey(a, key) { WithinFirst(a, b, key); }
  }

  lemma PutIncluded(a: seq<Entry>, ca: nat, b: seq<Entry>, cb: nat, op: Op)
    requires ListsIncluded(a, ca, b, cb) && op.Put?
    ensures ListsIncluded(ListStep(a, ca, op), ca, ListStep(b, cb, op), cb)
  {
    hide First, Drop, Within, HasKey;
    LiveIncluded(a, b, op.key, op.now);
    WithinDrop(a, b, op.key);
    HasFirst(a, op.key);
    HasFirst(b, op.key);
    var e := Entry(op.key, op.value, op.now, op.ttl);
    var rest := ListStep(b, cb, op)[1..];
    if Live(a, op.key, op.now).Some? {
      WithinCons(e, Drop(a, op.key), Drop(b, op.key));
    } else {
      // the smaller list inserts; when it is full it gives up its last entry
      if Live(b, op.key, op.now).Some? { NoFirst(a, op.key); }
      if |a| == ca {
        WithinFront(a, if Live(b, op.key, op.now).None? then b else rest);
        WithinCons(e, Front(a), rest);
      } else {
        WithinCons(e, a, rest);
      }
    }
  }

  /** A lookup that moves what it finds to the head, and one that removes it. */
  lemma LookupIncluded(a: seq<Entry>, b: seq<Entry>, key: Key, now: nat)
    requires Within(a, b)
    ensures var x, y := Live(a, key, now), Live(b, key, now);
      && (x.Some? ==> y == x && Within([x.value] + Drop(a, key), [x.value] + Drop(b, key)))
      && (x.None? && y.Some? ==> Within(a, [y.value] + Drop(b, key)) && Within(a, Drop(b, key)))
      && Within(Drop(a, key), Drop(b, key))
      && (x.Some? ==> |Drop(a, key)| == |a| - 1) && (y.Some? ==> |Drop(b, key)| == |b| - 1)
  {
    hide First, Drop, Within, HasKey;
    LiveIncluded(a, b, key, now);
    WithinDrop(a, b, key);
    HasFirst(a, key);
    HasFirst(b, key);
    var x, y := Live(a, key, now), Live(b, key, now);
    if x.Some? {
      WithinCons(x.value, Drop(a, key), Drop(b, key));
    } else if y.Some? {
      NoFirst(a, key);
      WithinSkip(y.value, a, Drop(b, key));
    }
  }

  lemma ListStepIncluded(a: seq<Entry>, ca: nat, b: seq<Entry>, cb: nat, op: Op)
    requires ListsIncluded(a, ca, b, cb)
    ensures ListsIncluded(ListStep(a, ca, op), ca, ListStep(b, cb, op), cb)
  {
    match op
    case Put(_, _, _, _) => PutIncluded(a, ca, b, cb, op);
    case Clear(_) =>
    case Get(key, now) => LookupIncluded(a, b, key, now);
    case Delete(key, now) => LookupIncluded(a, b, key, now);
  }

  // ----- Whole runs -----

  ghost predicate Included(a: Cache, b: Cache) {
    && Stacked(a) && Stacked(b) && ListsIncluded(Entries(a.items), a.capacity, Entries(b.items), b.capacity)
    && a.hits <= b.hits && a.hits + a.misses == b.hits + b.misses
  }

  lemma StepIncluded(a: Cache, b: Cache, op: Op)
    requires Included(a, b)
    ensures var (a', ea), (b', eb) := Step(a, op), Step(b, op);
      Included(a', b') && (ea.Hit? ==> eb.Hit? && eb.value == ea.value)
  {
    hide Find, Live, Within, NewestFirst, Touch, Victim;
    StepRefines(a, op);
    StepRefines(b, op);
    ListStepIncluded(Entries(a.items), a.capacity, Entries(b.items), b.capacity, op);
    if op.Get? {
      FindIsLive(a.items, op.key, op.now);
      FindIsLive(b.items, op.key, op.now);
      LiveIncluded(Entries(a.items), Entries(b.items), op.key, op.now);
    }
  }

  lemma EmptyIncluded(small: nat, large: nat)
    requires 1 <= small <= large
    ensures Included(Empty(LRU, small), Empty(LRU, large))
  {
  }

  lemma {:induction false} RunIncluded(small: nat, large: nat, ops: seq<Op>)
    requires 1 <= small <= large
    ensures var (a, ea), (b, eb) := Run(Empty(LRU, small), ops), Run(Empty(LRU, large), ops);
      && Included(a, b)
      && forall i :: 0 <= i < |ops| && ea[i].Hit? ==> eb[i].Hit? && eb[i].value == ea[i].value
  {
    hide Included, Step;
    if ops == [] {
      EmptyIncluded(small, large);
    } else {
      var n := |ops| - 1;
      RunIncluded(small, large, ops[..n]);
      StepIncluded(Run(Empty(LRU, small), ops[..n]).0, Run(Empty(LRU, large), ops[..n]).0, ops[n]);
    }
  }

  /** `a` is `b` with some elements left out. */
  predicate Subseq<T(==)>(a: seq<T>, b: seq<T>)
    decreases |b|
  {
    a == [] || (b != [] && ((a[0] == b[0] && Subseq(a[1..], b[1..])) || Subseq(a, b[1..])))
  }

  lemma {:induction false} WithinIsSubseq(a: seq<Entry>, b: seq<Entry>)
    requires Within(a, b)
    ensures Subseq(a, b)
    decreases |b|
  {
    if a != [] {
      if a[0] == b[0] && Within(a[1..], b[1..]) { WithinIsSubseq(a[1..], b[1..]); } else { WithinIsSubseq(a, b[1..]); }
    }
  }

  /**
   Of two LRU caches given the same operations, the larger holds all the entries of the smaller in
   the same order, every hit of the smaller is a hit of the larger with the same value, and so the
   larger never has fewer hits.
   */
  lemma Inclusion(small: nat, large: nat, ops: seq<Op>)
    requires 1 <= small <= large
    ensures var (a, ea), (b, eb) := Run(Empty(LRU, small), ops), Run(Empty(LRU, large), ops);
      && Subseq(Entries(a.items), Entries(b.items))
      && a.hits <= b.hits && a.hits + a.misses == b.hits + b.misses
      && forall i :: 0 <= i < |ops| && ea[i].Hit? ==> eb[i].Hit? && eb[i].value == ea[i].value
  {
    hide Run, Stacked, Within, Subseq;
    RunIncluded(small, large, ops);
    var a, b := Run(Empty(LRU, small), ops).0, Run(Empty(LRU, large), ops).0;
    WithinIsSubseq(Entries(a.items), Entries(b.items));
  }
}
