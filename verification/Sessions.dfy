/**
 A store together with all of its open transactions: any number of them, with write sets that share
 nothing.  Every operation keeps all the other transactions as they are and takes one step of
 DatabaseModel, so its whole-run results hold of these objects.
 */
module Sessions {
  import opened Common
  import opened Wal
  import opened ChainedTable
  import opened Database
  import M = DatabaseModel

  ghost predicate Apart(s: Transaction, t: Transaction)
    reads s.writes, t.writes
  {
    s != t && s.writes != t.writes && s.writes.buckets != t.writes.buckets && s.writes.repr !! t.writes.repr
  }

  twostate predicate SameTable(t: HashTable)
    reads t
  {
    t.contents == old(t.contents) && t.repr == old(t.repr)
  }

  class Sessions {
    const db: Database
    var open: map<M.Handle, Transaction>
    ghost var repr: set<object>

    /** The store's own part. */
    ghost predicate Stored()
      reads this, repr
    {
      {db, db.table, db.table.buckets} <= repr && db.table.repr <= repr && this !in repr && db.Valid()
    }

    ghost predicate Live(t: Transaction)
      reads this, repr
    {
      && Stored() && {t, t.writes, t.writes.buckets} <= repr && t.writes.repr <= repr
      && t.db == db && !t.committed && t.Valid()
    }

    ghost predicate Valid()
      reads this, repr
    {
      && Stored()
      && (forall h :: h in open ==> Live(open[h]))
      && (forall g, h :: g in open && h in open && g != h ==> Apart(open[g], open[h]))
    }

    ghost function WriteSets(): map<M.Handle, Table>
      reads this, repr
      requires Valid()
    {
      map h | h in open :: open[h].writes.contents
    }

    ghost function State(): M.Db
      reads this, repr
      requires Valid()
    {
      db.State(WriteSets())
    }

    constructor (db: Database)
      requires db.Valid()
      ensures Valid() && this.db == db && State() == db.State(map[])
      ensures fresh(repr - {db, db.table, db.table.buckets} - db.table.repr)
    {
      hide HashTable.Valid;
      this.db, open := db, map[];
      repr := {db, db.table, db.table.buckets} + db.table.repr;
      new;
      assert WriteSets() == map[];
    }

    /** Objects that an operation on the transaction does not reach. */
    ghost function Rest(t: Transaction): set<object>
      reads this, t.writes
    {
      repr - {t.writes, t.writes.buckets} - t.writes.repr
    }

    /** Objects that an operation on the store does not reach. */
    ghost function Outside(): set<object>
      reads this, db.table
    {
      repr - {db, db.table, db.table.buckets} - db.table.repr
    }

    lemma LiveParts(t: Transaction)
      requires Live(t)
      ensures {t, t.writes, t.writes.buckets} <= repr && t.writes.repr <= repr
    {
      hide HashTable.Valid;
    }

    lemma LiveIs(t: Transaction)
      requires Live(t)
      ensures t in repr && t.db == db && !t.committed && t.Valid()
    {
      hide HashTable.Valid;
    }

    twostate lemma StaysWithout(ut: (Transaction, Transaction))
      requires old(Live(ut.0)) && ut.0 != ut.1 && Stored() && repr == old(repr) - {ut.1}
      requires unchanged(old(repr))
      ensures Live(ut.0)
    {
      hide HashTable.Valid;
    }

    lemma JoinsLive(t: Transaction)
      requires Stored() && {t, t.writes, t.writes.buckets} <= repr && t.writes.repr <= repr
      requires t.db == db && !t.committed && t.Valid()
      ensures Live(t)
    {
      hide HashTable.Valid;
    }

    twostate lemma InOutside(h: M.Handle)
      requires old(Valid()) && h in old(open)
      ensures old({open[h], open[h].writes, open[h].writes.buckets} <= Outside() && open[h].writes.repr <= Outside())
    {
      hide HashTable.Valid;
      assert old(Live(open[h]));
    }

    /** A transaction that an operation does not reach stays live. */
    twostate lemma StaysLive(t: Transaction)
      requires old(Live(t)) && Stored() && old(repr) <= repr
      requires unchanged(t) && unchanged(t.writes) && unchanged(t.writes.buckets) && unchanged(t.writes.repr)
      requires fresh(db.table.repr - old(db.table.repr))
      ensures Live(t)
    {
      hide HashTable.Valid;
    }

    twostate lemma EachStays(h: M.Handle)
      requires old(Valid()) && h in open && open == old(open) && old(repr) <= repr && unchanged(old(Outside()))
      requires Stored() && fresh(db.table.repr - old(db.table.repr))
      ensures Live(open[h]) && SameTable(open[h].writes)
    {
      hide HashTable.Valid, Stored;
      InOutside(h);
      StaysLive(open[h]);
    }

    /** Only the transaction `h` has been touched. */
    twostate predicate OnlyReached(h: M.Handle)
      requires h in old(open) && old(repr) <= repr
      reads this, repr
    {
      open == old(open) && unchanged(old(Rest(open[h])))
    }

    twostate lemma OtherStays(gh: (M.Handle, M.Handle))
      requires old(Valid()) && gh.0 in old(open) && gh.1 in old(open) && gh.0 != gh.1
      requires old(repr) <= repr && OnlyReached(gh.1) && Stored() && fresh(db.table.repr - old(db.table.repr))
      ensures Live(open[gh.0]) && SameTable(open[gh.0].writes)
    {
      hide HashTable.Valid, Stored;
      var u, t := open[gh.0], open[gh.1];
      assert old(Live(u)) && old(Live(t)) && old(Apart(u, t));
      assert old({u, u.writes, u.writes.buckets} <= Rest(t) && u.writes.repr <= Rest(t));
      StaysLive(u);
    }

    /** An operation on the store leaves every transaction alone. */
    twostate lemma AllStay()
      requires old(Valid()) && open == old(open) && old(repr) <= repr && unchanged(old(Outside()))
      requires Stored() && fresh(db.table.repr - old(db.table.repr))
      ensures Valid() && WriteSets() == old(WriteSets())
    {
      hide HashTable.Valid, Stored, Live;
      forall h | h in open ensures Live(open[h]) { EachStays(h); }
      forall h | h in open ensures SameTable(open[h].writes) { EachStays(h); }
    }

    /** An operation on one transaction leaves the store and the others alone. */
    twostate lemma OthersStay(h: M.Handle)
      requires old(Valid()) && h in old(open) && old(repr) <= repr && OnlyReached(h)
      requires Stored() && Live(open[h]) && fresh(db.table.repr - old(db.table.repr))
      requires fresh(open[h].writes.repr - old(open[h].writes.repr))
      ensures Valid() && WriteSets() == old(WriteSets())[h := open[h].writes.contents]
    {
      hide HashTable.Valid, Stored, Live;
      forall g | g in open && g != h ensures Live(open[g]) { OtherStays((g, h)); }
      forall g | g in open && g != h ensures SameTable(open[g].writes) { OtherStays((g, h)); }
      var before := old(WriteSets());
      OneChanged(before, h);
    }

    lemma OneChanged(before: map<M.Handle, Table>, h: M.Handle)
      requires Valid() && h in open && before.Keys == open.Keys
      requires forall g :: g in open && g != h ==> before[g] == open[g].writes.contents
      ensures WriteSets() == before[h := open[h].writes.contents]
    {
      hide HashTable.Valid, Stored, Live;
      var now, after := WriteSets(), before[h := open[h].writes.contents];
      assert forall g :: g in now <==> g in open.Keys;
      assert forall g :: g in now ==> now[g] == after[g];
    }

    method Put(key: Option<Key>, value: Option<Bytes>) returns (status: Status)
      requires Valid()
      modifies this`repr, repr
      ensures Valid() && fresh(repr - old(repr))
      ensures if key.None? || value.None? || value.value == []
        then status == InvalidParam && State() == old(State())
        else status == Success && M.Next(old(State()), M.Direct(PutWrite(key.value, value.value)), State())
    {
      hide HashTable.Valid, Record, Live;
      status := db.Put(key, value, WriteSets());
      repr := repr + db.table.repr;
      AllStay();
    }

    method TxnPut(h: M.Handle, key: Option<Key>, value: Option<Bytes>) returns (status: Status)
      requires Valid() && h in open
      modifies this`repr, repr
      ensures Valid() && fresh(repr - old(repr))
      ensures if key.None? || value.None? then status == InvalidParam && State() == old(State())
        else status == Success && M.Next(old(State()), M.TxnPut(h, key.value, value.value), State())
    {
      hide HashTable.Valid;
      ghost var before := WriteSets();
      assert before[h := open[h].writes.contents] == before;
      status := open[h].Put(key, value, h, before);
      repr := repr + open[h].writes.repr;
      OthersStay(h);
    }

    method Delete(key: Option<Key>) returns (status: Status)
      requires Valid()
      modifies repr
      ensures Valid() && repr == old(repr)
      ensures if key.None? then status == InvalidParam && State() == old(State())
        else M.Next(old(State()), M.Direct(DeleteWrite(key.value)), State())
    {
      hide HashTable.Valid, Record, Live;
      status := db.Delete(key, WriteSets());
      AllStay();
    }

    method Checkpoint() returns (status: Status)
      requires Valid()
      modifies repr
      ensures Valid() && repr == old(repr) && M.Next(old(State()), M.Checkpoint, State())
    {
      hide HashTable.Valid, Live;
      status := db.Checkpoint(WriteSets());
      AllStay();
    }

    method Begin(h: M.Handle, level: IsolationLevel)
      requires Valid() && h !in open
      modifies this, repr
      ensures Valid() && fresh(repr - old(repr)) && M.Next(old(State()), M.Begin(h), State())
    {
      hide HashTable.Valid;
      ghost var before := WriteSets();
      var t := db.Begin(level, h, before);
      AllStay();
      Admit(h, t);
    }

    /** Takes a transaction that shares nothing with the others into the books. */
    method Admit(h: M.Handle, t: Transaction)
      requires Valid() && h !in open && t.db == db && t.Valid() && !t.committed
      requires {t, t.writes, t.writes.buckets} !! repr && t.writes.repr !! repr
      modifies this`open, this`repr
      ensures Valid() && WriteSets() == old(WriteSets())[h := t.writes.contents]
      ensures repr == old(repr) + {t, t.writes, t.writes.buckets} + t.writes.repr
    {
      hide HashTable.Valid, Live;
      forall g | g in open ensures Apart(open[g], t) && Apart(t, open[g]) { LiveParts(open[g]); }
      open := open[h := t];
      repr := repr + {t, t.writes, t.writes.buckets} + t.writes.repr;
      forall g | g in open && g != h ensures Live(open[g]) { StaysLive(open[g]); }
      assert Live(t) by { JoinsLive(t); }
      OneChanged(old(WriteSets())[h := t.writes.contents], h);
    }

    method TxnDelete(h: M.Handle, key: Option<Key>) returns (status: Status)
      requires Valid() && h in open
      modifies repr
      ensures Valid() && repr == old(repr)
      ensures if key.None? then status == InvalidParam && State() == old(State())
        else M.Next(old(State()), M.TxnDelete(h, key.value), State())
    {
      hide HashTable.Valid;
      ghost var before := WriteSets();
      assert before[h := open[h].writes.contents] == before;
      status := open[h].Delete(key, h, before);
      OthersStay(h);
    }

    method TxnGet(h: M.Handle, key: Option<Key>) returns (status: Status, value: Option<Bytes>)
      requires Valid() && h in open
      ensures key.Some? ==> value == M.View(State(), h, key.value) && status == if value.Some? then Success else NotFound
    {
      hide HashTable.Valid;
      ghost var before := WriteSets();
      assert before[h := open[h].writes.contents] == before;
      status, value := open[h].Get(key, h, before);
    }

    /** Strikes a transaction off the books. */
    method Dismiss(h: M.Handle) returns (t: Transaction)
      requires Valid() && h in open
      modifies this`open, this`repr
      ensures Valid() && t == old(open[h]) && open == old(open) - {h}
      ensures t.Valid() && t.db == db && !t.committed && t in old(repr) && repr == old(repr) - {t}
      ensures WriteSets() == old(WriteSets()) - {h} && old(WriteSets()) == WriteSets()[h := t.writes.contents]
    {
      hide HashTable.Valid, Live;
      t := open[h];
      LiveIs(t);
      open := open - {h};
      repr := repr - {t};
      forall g | g in open ensures Live(open[g]) { StaysWithout((open[g], t)); }
      assert WriteSets() == old(WriteSets()) - {h};
    }

    method Commit(h: M.Handle) returns (status: Status)
      requires Valid() && h in open
      modifies this, repr
      ensures Valid() && fresh(repr - old(repr)) && status == Success && M.Next(old(State()), M.Commit(h), State())
    {
      hide HashTable.Valid, Live;
      var t := Dismiss(h);
      label dismissed:
      status := t.Commit(h, WriteSets());
      repr := repr + db.table.repr;
      AllStay@dismissed();
    }

    method Rollback(h: M.Handle) returns (status: Status)
      requires Valid() && h in open
      modifies this
      ensures Valid() && repr <= old(repr) && status == Success && M.Next(old(State()), M.Rollback(h), State())
    {
      hide HashTable.Valid;
      var t := Dismiss(h);
      status := t.Rollback(h, WriteSets());
    }

    /** Every action that the model allows can be performed on the objects, with the model's effect. */
    method Perform(a: M.Action, level: IsolationLevel)
      requires Valid() && M.Enabled(State(), a)
      modifies this, repr
      ensures Valid() && fresh(repr - old(repr)) && M.Next(old(State()), a, State())
    {
      hide HashTable.Valid, Stored, Live, Record;
      match a
      case Direct(PutWrite(key, value)) => var _ := Put(Some(key), Some(value));
      case Direct(DeleteWrite(key)) => var _ := Delete(Some(key));
      case Begin(h) => Begin(h, level);
      case TxnPut(h, key, value) => var _ := TxnPut(h, Some(key), Some(value));
      case TxnDelete(h, key) => var _ := TxnDelete(h, Some(key));
      case Commit(h) => var _ := Commit(h);
      case Rollback(h) => var _ := Rollback(h);
      case Checkpoint => var _ := Checkpoint();
    }

    /** The objects follow the model through any run, whatever isolation level is asked for. */
    method PerformAll(run: seq<M.Action>, level: IsolationLevel)
      requires Valid() && M.CanRun(State(), run)
      modifies this, repr
      ensures Valid() && State() == M.After(old(State()), run)
    {
      hide HashTable.Valid, Stored, Live, M.Step, M.Enabled;
      M.CanRunPrefix(State(), run);
      for i := 0 to |run|
        invariant Valid() && fresh(repr - old(repr)) && State() == M.After(old(State()), run[..i])
      {
        assert run[..i + 1][..i] == run[..i];
        Perform(run[i], level);
      }
      assert run[..|run|] == run;
    }
  }
}
