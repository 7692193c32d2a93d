/**
 The key-value store and its transactions as objects: the table, the log bytes and the write sets
 are updated in place.  Each method takes a step of DatabaseModel, whatever the other open
 transactions hold.
 */
module Database {
  import opened Common
  import opened Wal
  import opened ChainedTable
  import M = DatabaseModel

  datatype IsolationLevel = ReadUncommitted | ReadCommitted | RepeatableRead | Serializable

  const TABLE_BUCKETS: nat := 1024
  const WRITE_SET_BUCKETS: nat := 64

  class Database {
    const table: HashTable
    var wal: Option<Bytes>
    var nextTxnId: nat

    ghost predicate Valid()
      reads this, table, table.buckets, table.repr
    {
      table.Valid() && table.buckets.Length == TABLE_BUCKETS
    }

    /** The store and the write sets of the open transactions, as one state of the model. */
    ghost function State(open: map<M.Handle, Table>): M.Db
      reads this, table
    {
      M.Db(table.contents, wal, open, nextTxnId)
    }

    /** A store that has not been opened: no log file. */
    constructor ()
      ensures Valid() && State(map[]) == M.Fresh(None)
      ensures fresh(table) && fresh(table.buckets) && fresh(table.repr)
    {
      hide HashTable.Valid;
      table := new HashTable(TABLE_BUCKETS);
      wal, nextTxnId := None, 1;
    }

    method Put(key: Option<Key>, value: Option<Bytes>, ghost open: map<M.Handle, Table>) returns (status: Status)
      requires Valid()
      modifies this`wal, table, table.buckets, table.repr
      ensures Valid() && fresh(table.repr - old(table.repr))
      ensures if key.None? || value.None? || value.value == []
        then status == InvalidParam && State(open) == old(State(open))
        else status == Success && M.Next(old(State(open)), M.Direct(PutWrite(key.value, value.value)), State(open))
    {
      hide HashTable.Valid, Record;
      if key.None? || value.None? || value.value == [] {
        return InvalidParam;
      }
      if wal.Some? {
        wal := Some(wal.value + Record(PutWrite(key.value, value.value)));
      }
      table.Put(key.value, value.value);
      return Success;
    }

    method Get(key: Option<Key>) returns (status: Status, value: Option<Bytes>)
      requires Valid()
      ensures key.None? ==> status == InvalidParam && value == None
      ensures key.Some? ==> value == Lookup(table.contents, key.value) && status == if value.Some? then Success else NotFound
    {
      hide HashTable.Valid;
      if key.None? {
        return InvalidParam, None;
      }
      value := table.Get(key.value);
      status := if value.Some? then Success else NotFound;
    }

    /** A delete is logged even when the key is absent. */
    method Delete(key: Option<Key>, ghost open: map<M.Handle, Table>) returns (status: Status)
      requires Valid()
      modifies this`wal, table, table.buckets, table.repr
      ensures Valid() && table.repr == old(table.repr)
      ensures if key.None? then status == InvalidParam && State(open) == old(State(open))
        else
          && status == (if key.value in old(table.contents) then Success else NotFound)
          && M.Next(old(State(open)), M.Direct(DeleteWrite(key.value)), State(open))
    {
      hide HashTable.Valid, Record;
      if key.None? {
        return InvalidParam;
      }
      if wal.Some? {
        wal := Some(wal.value + Record(DeleteWrite(key.value)));
      }
      status := table.Delete(key.value);
    }

    method Checkpoint(ghost open: map<M.Handle, Table>) returns (status: Status)
      requires Valid()
      modifies this`wal
      ensures Valid() && status == if wal.None? then InvalidParam else Success
      ensures M.Next(old(State(open)), M.Checkpoint, State(open))
    {
      hide HashTable.Valid;
      if wal.None? {
        return InvalidParam;
      }
      wal := Some([]);
      return Success;
    }

    /** Replays the log, record by record, into the table. */
    method Recover() returns (status: Status)
      requires Valid() && (wal.Some? ==> Complete(wal.value))
      modifies table, table.buckets, table.repr
      ensures Valid() && fresh(table.repr - old(table.repr))
      ensures if wal.None? then status == InvalidParam && table.contents == old(table.contents)
        else status == Success && table.contents == Replay(wal.value, old(table.contents))
    {
      hide HashTable.Valid, Decode, PayloadSize, ApplyAll, Field, CString;
      if wal.None? {
        return InvalidParam;
      }
      var log, pos := wal.value, 0;
      assert log[0..] == log;
      while pos + HEADER_SIZE <= |log| && Field(log, pos) == MAGIC
        invariant pos <= |log| && Complete(log[pos..]) && Valid() && fresh(table.repr - old(table.repr))
        invariant ApplyAll(table.contents, Decode(log[pos..])) == Replay(log, old(table.contents))
      {
        RecordAt(log, pos);
        ReplayFirst(log[pos..], table.contents);
        var kind, keySize, valueSize := Field(log, pos + 4), Field(log, pos + 16), Field(log, pos + 20);
        var data := log[pos + HEADER_SIZE..pos + HEADER_SIZE + keySize + valueSize];
        if kind == KIND_PUT {
          table.Put(CString(data), data[keySize..]);
        } else if kind == KIND_DELETE {
          var _ := table.Delete(CString(data));
        }
        pos := pos + HEADER_SIZE + keySize + valueSize;
      }
      NoMoreRecords(log, pos, table.contents);
      return Success;
    }

    method Begin(level: IsolationLevel, ghost h: M.Handle, ghost open: map<M.Handle, Table>) returns (txn: Transaction)
      requires Valid() && h !in open
      modifies this`nextTxnId
      ensures Valid() && fresh(txn) && txn.db == this && txn.Valid() && !txn.committed
      ensures fresh(txn.writes) && fresh(txn.writes.buckets) && fresh(txn.writes.repr)
      ensures M.Next(old(State(open)), M.Begin(h), State(open[h := txn.writes.contents]))
      ensures txn.txnId == old(nextTxnId) && txn.level == level
    {
      hide HashTable.Valid;
      txn := new Transaction(this, nextTxnId, level);
      nextTxnId := nextTxnId + 1;
    }
  }

  lemma ApplyAllCons(m: Table, w: Write, ws: seq<Write>)
    ensures ApplyAll(m, [w] + ws) == ApplyAll(Apply(m, w), ws)
  {
    if ws == [] {
      assert [w] + ws == [w] && [w][..0] == [];
    } else {
      ApplyAllCons(m, w, ws[..|ws| - 1]);
      assert ([w] + ws)[..|ws|] == [w] + ws[..|ws| - 1];
    }
  }

  lemma FieldAt(log: Bytes, pos: nat, at: nat)
    requires pos + at + 4 <= |log|
    ensures Field(log[pos..], at) == Field(log, pos + at)
  {
    assert log[pos..][at..at + 4] == log[pos + at..pos + at + 4];
  }

  /** The record at `pos`, as the reading loop sees it. */
  lemma RecordAt(log: Bytes, pos: nat)
    requires pos + HEADER_SIZE <= |log| && Field(log, pos) == MAGIC && Complete(log[pos..])
    ensures var rest, n := log[pos..], Field(log, pos + 16) + Field(log, pos + 20);
      && HasRecord(rest) && PayloadSize(rest) == n && pos + HEADER_SIZE + n <= |log|
      && Field(rest, 4) == Field(log, pos + 4) && Field(rest, 16) == Field(log, pos + 16)
      && rest[HEADER_SIZE..HEADER_SIZE + n] == log[pos + HEADER_SIZE..pos + HEADER_SIZE + n]
      && rest[HEADER_SIZE + n..] == log[pos + HEADER_SIZE + n..]
  {
    hide Field;
    FieldAt(log, pos, 0);
    FieldAt(log, pos, 4);
    FieldAt(log, pos, 16);
    FieldAt(log, pos, 20);
  }

  /** What the first record of a log contributes to the replay. */
  lemma ReplayFirst(log: Bytes, m: Table)
    requires HasRecord(log) && Complete(log)
    ensures var rest, w := log[HEADER_SIZE + PayloadSize(log)..], FirstWrite(log);
      Complete(rest) && ApplyAll(m, Decode(log)) == ApplyAll(if w.Some? then Apply(m, w.value) else m, Decode(rest))
  {
    hide Field, CString, ApplyAll, FirstWrite;
    var rest, w := log[HEADER_SIZE + PayloadSize(log)..], FirstWrite(log);
    if w.Some? {
      ApplyAllCons(m, w.value, Decode(rest));
    } else {
      assert [] + Decode(rest) == Decode(rest);
    }
  }

  lemma NoMoreRecords(log: Bytes, pos: nat, m: Table)
    requires pos <= |log| && Complete(log[pos..])
    requires pos + HEADER_SIZE <= |log| ==> Field(log, pos) != MAGIC
    ensures ApplyAll(m, Decode(log[pos..])) == m
  {
    if pos + HEADER_SIZE <= |log| { FieldAt(log, pos, 0); }
  }

  class Transaction {
    const db: Database
    const txnId: nat
    const level: IsolationLevel
    const writes: HashTable
    var committed: bool

    /** The write set shares nothing with the store's table. */
    ghost predicate Valid()
      reads this, db, db.table, db.table.buckets, db.table.repr, writes, writes.buckets, writes.repr
    {
      && db.Valid() && writes.Valid() && writes.buckets.Length == WRITE_SET_BUCKETS
      && writes != db.table && writes.buckets != db.table.buckets && writes.repr !! db.table.repr
    }

    constructor (db: Database, txnId: nat, level: IsolationLevel)
      requires db.Valid()
      ensures this.db == db && this.txnId == txnId && this.level == level && !committed
      ensures Valid() && writes.contents == map[]
      ensures fresh(writes) && fresh(writes.buckets) && fresh(writes.repr)
    {
      hide HashTable.Valid;
      this.db, this.txnId, this.level, committed := db, txnId, level, false;
      writes := new HashTable(WRITE_SET_BUCKETS);
    }

    /** The state of the model in which this transaction has handle `h`. */
    ghost function State(h: M.Handle, others: map<M.Handle, Table>): M.Db
      reads db, db.table, writes
    {
      db.State(others[h := writes.contents])
    }

    method Put(key: Option<Key>, value: Option<Bytes>, ghost h: M.Handle, ghost others: map<M.Handle, Table>)
      returns (status: Status)
      requires Valid()
      modifies writes, writes.buckets, writes.repr
      ensures Valid() && fresh(writes.repr - old(writes.repr))
      ensures if key.None? || value.None? then status == InvalidParam && State(h, others) == old(State(h, others))
        else status == Success && M.Next(old(State(h, others)), M.TxnPut(h, key.value, value.value), State(h, others))
    {
      hide HashTable.Valid;
      if key.None? || value.None? {
        return InvalidParam;
      }
      writes.Put(key.value, value.value);
      SamePlace(others, h, old(writes.contents), writes.contents);
      return Success;
    }

    /** Own writes first, then the store, whatever the isolation level. */
    method Get(key: Option<Key>, ghost h: M.Handle, ghost others: map<M.Handle, Table>)
      returns (status: Status, value: Option<Bytes>)
      requires Valid()
      ensures key.None? ==> status == InvalidParam && value == None
      ensures key.Some? ==>
        value == M.View(State(h, others), h, key.value) && status == if value.Some? then Success else NotFound
    {
      hide HashTable.Valid;
      if key.None? {
        return InvalidParam, None;
      }
      value := writes.Get(key.value);
      if value.Some? {
        return Success, value;
      }
      status, value := db.Get(key);
    }

    /** Withdraws the transaction's own put; it does not delete from the store. */
    method Delete(key: Option<Key>, ghost h: M.Handle, ghost others: map<M.Handle, Table>) returns (status: Status)
      requires Valid()
      modifies writes, writes.buckets, writes.repr
      ensures Valid() && writes.repr == old(writes.repr)
      ensures if key.None? then status == InvalidParam && State(h, others) == old(State(h, others))
        else
          && M.Next(old(State(h, others)), M.TxnDelete(h, key.value), State(h, others))
          && status == if key.value in old(writes.contents) then Success else NotFound
    {
      hide HashTable.Valid;
      if key.None? {
        return InvalidParam;
      }
      status := writes.Delete(key.value);
      SamePlace(others, h, old(writes.contents), writes.contents);
    }

    /** Puts the entries of one bucket of the write set into the table. */
    method PublishBucket(i: nat, ghost base: Table, ghost before: set<Key>) returns (ghost done: set<Key>)
      requires Valid() && i < writes.buckets.Length
      requires db.table.contents == Override(base, writes.contents, before)
      modifies db.table, db.table.buckets, db.table.repr
      ensures Valid() && fresh(db.table.repr - old(db.table.repr))
      ensures db.table.contents == Override(base, writes.contents, done)
      ensures before <= done && |writes.chains| == writes.buckets.Length
      ensures forall key :: HasKey(writes.chains[i], key) ==> key in done
    {
      hide HashTable.Valid, Override;
      writes.WalkBucket(i);
      ghost var chain := writes.chains[i];
      var entry := writes.buckets[i];
      ghost var j := 0;
      done := before;
      while entry != null
        invariant 0 <= j <= |chain| && entry == At(chain, j) && before <= done
        invariant forall k :: 0 <= k < j ==> chain[k].key in done
        invariant Valid() && fresh(db.table.repr - old(db.table.repr))
        invariant db.table.contents == Override(base, writes.contents, done)
        decreases |chain| - j
      {
        OverrideOne(base, writes.contents, done, entry.key);
        db.table.Put(entry.key, entry.value);
        done := done + {entry.key};
        entry := entry.next;
        j := j + 1;
      }
    }

    method Commit(ghost h: M.Handle, ghost others: map<M.Handle, Table>) returns (status: Status)
      requires Valid() && h !in others
      modifies this`committed, db.table, db.table.buckets, db.table.repr
      ensures Valid() && committed && fresh(db.table.repr - old(db.table.repr))
      ensures if old(committed) then status == InvalidParam && State(h, others) == old(State(h, others))
        else status == Success && M.Next(old(State(h, others)), M.Commit(h), db.State(others))
    {
      hide HashTable.Valid, Override;
      if committed {
        return InvalidParam;
      }
      ghost var base, done := db.table.contents, {};
      OverrideNothing(base, writes.contents);
      for i := 0 to writes.buckets.Length
        invariant Valid() && fresh(db.table.repr - old(db.table.repr))
        invariant db.table.contents == Override(base, writes.contents, done)
        invariant i > 0 ==> |writes.chains| == writes.buckets.Length
        invariant forall b, key :: 0 <= b < i && HasKey(writes.chains[b], key) ==> key in done
      {
        done := PublishBucket(i, base, done);
      }
      forall key | key in writes.contents ensures key in done {
        writes.WalkMeets(key);
      }
      OverrideAll(base, writes.contents, done);
      Closed(others, h, writes.contents);
      committed := true;
      return Success;
    }

    /** Drops the write set; the store is not touched. */
    method Rollback(ghost h: M.Handle, ghost others: map<M.Handle, Table>) returns (status: Status)
      requires Valid() && h !in others
      ensures status == Success && M.Next(State(h, others), M.Rollback(h), db.State(others))
    {
      hide HashTable.Valid;
      Closed(others, h, writes.contents);
      return Success;
    }
  }

  lemma SamePlace(others: map<M.Handle, Table>, h: M.Handle, before: Table, after: Table)
    ensures others[h := before][h := after] == others[h := after]
  {
  }

  lemma Closed(others: map<M.Handle, Table>, h: M.Handle, t: Table)
    requires h !in others
    ensures others[h := t] - {h} == others
  {
  }

  /** `base` overridden by the part of `writes` whose keys were visited. */
  ghost function Override(base: Table, writes: Table, visited: set<Key>): Table {
    map key | key in base.Keys + (writes.Keys * visited) :: if key in writes && key in visited then writes[key] else base[key]
  }

  lemma OverrideNothing(base: Table, writes: Table)
    ensures Override(base, writes, {}) == base
  {
  }

  lemma OverrideOne(base: Table, writes: Table, visited: set<Key>, key: Key)
    requires key in writes
    ensures Override(base, writes, visited)[key := writes[key]] == Override(base, writes, visited + {key})
  {
  }

  lemma OverrideAll(base: Table, writes: Table, visited: set<Key>)
    requires forall key :: key in writes ==> key in visited
    ensures Override(base, writes, visited) == base + writes
  {
  }
}
