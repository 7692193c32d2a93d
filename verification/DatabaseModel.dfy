/**
 The key-value store as a transition system: one action per locked region, any number of open
 transactions, in any interleaving.  A transaction is known by the handle its caller holds; the
 isolation level is stored by the program and never consulted, so it is not part of the state.
 */
module DatabaseModel {
  import opened Common
  import opened Wal

  type Handle = int

  /** `wal` is None while no log file is open. */
  datatype Db = Db(table: Table, wal: Option<Bytes>, open: map<Handle, Table>, nextTxnId: nat)

  datatype Action =
    | Direct(write: Write)
    | Begin(h: Handle)
    | TxnPut(h: Handle, key: Key, value: Bytes)
    | TxnDelete(h: Handle, key: Key)
    | Commit(h: Handle)
    | Rollback(h: Handle)
    | Checkpoint

  function Fresh(wal: Option<Bytes>): Db {
    Db(map[], wal, map[], 1)
  }

  /** A plain put carries a value; a handle is used between its begin and its commit or rollback. */
  predicate Enabled(db: Db, a: Action) {
    match a
    case Direct(w) => w.PutWrite? ==> w.value != []
    case Checkpoint => true
    case Begin(h) => h !in db.open
    case _ => a.h in db.open
  }

  function Step(db: Db, a: Action): Db
    requires Enabled(db, a)
  {
    match a
    case Direct(w) =>
      db.(table := Apply(db.table, w), wal := if db.wal.Some? then Some(db.wal.value + Record(w)) else None)
    case Begin(h) => db.(open := db.open[h := map[]], nextTxnId := db.nextTxnId + 1)
    case TxnPut(h, key, value) => db.(open := db.open[h := Apply(db.open[h], PutWrite(key, value))])
    case TxnDelete(h, key) => db.(open := db.open[h := Apply(db.open[h], DeleteWrite(key))])
    case Commit(h) => db.(table := db.table + db.open[h], open := db.open - {h})
    case Rollback(h) => db.(open := db.open - {h})
    case Checkpoint => db.(wal := if db.wal.Some? then Some([]) else None)
  }

  /** The action is allowed in `db` and leads to `after`. */
  predicate Next(db: Db, a: Action, after: Db) {
    Enabled(db, a) && after == Step(db, a)
  }

  predicate CanRun(db: Db, run: seq<Action>)
    decreases |run|, 0
  {
    if run == [] then true
    else CanRun(db, run[..|run| - 1]) && Enabled(After(db, run[..|run| - 1]), run[|run| - 1])
  }

  function After(db: Db, run: seq<Action>): Db
    requires CanRun(db, run)
    decreases |run|, 1
  {
    if run == [] then db else Step(After(db, run[..|run| - 1]), run[|run| - 1])
  }

  lemma {:induction false} CanRunPrefix(db: Db, run: seq<Action>)
    requires CanRun(db, run)
    ensures forall i :: 0 <= i <= |run| ==> CanRun(db, run[..i])
  {
    hide Enabled, Step;
    if run != [] {
      var n := |run| - 1;
      CanRunPrefix(db, run[..n]);
      forall i | 0 <= i <= |run| ensures CanRun(db, run[..i]) {
        if i <= n { assert run[..n][..i] == run[..i]; } else { assert run[..i] == run; }
      }
    }
  }

  // ----- Which runs there are -----

  function Using(handles: set<Handle>, a: Action): set<Handle> {
    match a
    case Begin(h) => handles + {h}
    case Commit(h) => handles - {h}
    case Rollback(h) => handles - {h}
    case _ => handles
  }

  /** The handles in use after the actions, given those in use before. */
  function InUse(handles: set<Handle>, run: seq<Action>): set<Handle> {
    if run == [] then handles else Using(InUse(handles, run[..|run| - 1]), run[|run| - 1])
  }

  /** A handle is begun while it is free and used while it is not; a plain put carries a value. */
  predicate Proper(handles: set<Handle>, a: Action) {
    match a
    case Begin(h) => h !in handles
    case Direct(w) => w.PutWrite? ==> |w.value| > 0
    case Checkpoint => true
    case TxnPut(h, _, _) => h in handles
    case TxnDelete(h, _) => h in handles
    case Commit(h) => h in handles
    case Rollback(h) => h in handles
  }

  predicate AllProper(handles: set<Handle>, run: seq<Action>) {
    if run == [] then true
    else AllProper(handles, run[..|run| - 1]) && Proper(InUse(handles, run[..|run| - 1]), run[|run| - 1])
  }

  lemma EnabledIff(db: Db, a: Action)
    ensures Enabled(db, a) <==> Proper(db.open.Keys, a)
    ensures Enabled(db, a) ==> Step(db, a).open.Keys == Using(db.open.Keys, a)
  {
  }

  /** Any interleaving of properly used handles can happen, and no other; commit and rollback free the handle. */
  lemma {:induction false} CanRunIff(db: Db, run: seq<Action>)
    ensures CanRun(db, run) <==> AllProper(db.open.Keys, run)
    ensures CanRun(db, run) ==> After(db, run).open.Keys == InUse(db.open.Keys, run)
  {
    hide Proper, Enabled, Step, Using;
    if run != [] {
      var n := |run| - 1;
      CanRunIff(db, run[..n]);
      if CanRun(db, run[..n]) { EnabledIff(After(db, run[..n]), run[n]); }
    }
  }

  /** What a transaction reads: its own write set first, then the table. */
  function View(db: Db, h: Handle, key: Key): Option<Bytes>
    requires h in db.open
  {
    if key in db.open[h] then Some(db.open[h][key]) else Lookup(db.table, key)
  }

  // ----- What a run means, read off its actions alone -----

  /** The write set of `h`, from its own actions since its last begin, or since `open`. */
  function WriteSet(open: map<Handle, Table>, run: seq<Action>, h: Handle): Table {
    if run == [] then if h in open then open[h] else map[]
    else
      var earlier := WriteSet(open, run[..|run| - 1], h);
      match run[|run| - 1]
      case Begin(g) => if g == h then map[] else earlier
      case TxnPut(g, key, value) => if g == h then earlier[key := value] else earlier
      case TxnDelete(g, key) => if g == h then earlier - {key} else earlier
      case _ => earlier
  }

  /** The table after plain writes and committed write sets, applied in the order they took the lock. */
  function Serial(table: Table, open: map<Handle, Table>, run: seq<Action>): Table {
    if run == [] then table
    else
      var n := |run| - 1;
      var earlier := Serial(table, open, run[..n]);
      match run[n]
      case Direct(w) => Apply(earlier, w)
      case Commit(h) => earlier + WriteSet(open, run[..n], h)
      case _ => earlier
  }

  /** Commit order is the meaning of every interleaving; open write sets hold their own writes only. */
  lemma {:induction false} CommitOrder(db: Db, run: seq<Action>)
    requires CanRun(db, run)
    ensures After(db, run).table == Serial(db.table, db.open, run)
    ensures forall h :: h in After(db, run).open ==> After(db, run).open[h] == WriteSet(db.open, run, h)
  {
    if run != [] {
      CommitOrder(db, run[..|run| - 1]);
    }
  }

  function Begins(run: seq<Action>): nat {
    if run == [] then 0 else Begins(run[..|run| - 1]) + if run[|run| - 1].Begin? then 1 else 0
  }

  /** Every begin takes a new transaction id; nothing else moves the counter. */
  lemma {:induction false} TxnIdsAdvance(db: Db, run: seq<Action>)
    requires CanRun(db, run)
    ensures After(db, run).nextTxnId == db.nextTxnId + Begins(run)
  {
    if run != [] { TxnIdsAdvance(db, run[..|run| - 1]); }
  }

  // ----- Uncommitted work is invisible -----

  predicate About(a: Action, hs: set<Handle>) {
    !a.Direct? && !a.Checkpoint? && a.h in hs
  }

  /** The run without anything the handles `hs` did. */
  function Without(run: seq<Action>, hs: set<Handle>): seq<Action> {
    if run == [] then []
    else
      var n := |run| - 1;
      Without(run[..n], hs) + if About(run[n], hs) then [] else [run[n]]
  }

  ghost predicate SameExcept(a: Db, b: Db, hs: set<Handle>) {
    && a.table == b.table && a.wal == b.wal
    && forall h :: h !in hs ==> (h in a.open <==> h in b.open) && (h in a.open ==> a.open[h] == b.open[h])
  }

  lemma RunSnoc(db: Db, run: seq<Action>, a: Action)
    requires CanRun(db, run) && Enabled(After(db, run), a)
    ensures CanRun(db, run + [a]) && After(db, run + [a]) == Step(After(db, run), a)
  {
    assert (run + [a])[..|run|] == run;
  }

  lemma StepSameExcept(a: Db, b: Db, hs: set<Handle>, act: Action)
    requires SameExcept(a, b, hs) && Enabled(a, act)
    ensures About(act, hs) && !act.Commit? ==> SameExcept(Step(a, act), b, hs)
    ensures !About(act, hs) ==> Enabled(b, act) && SameExcept(Step(a, act), Step(b, act), hs)
  {
  }

  /**
   Leaving out all that some never-committing transactions did changes neither the table, nor the
   log, nor any other transaction's write set.
   */
  lemma {:induction false} UncommittedInvisible(db: Db, run: seq<Action>, hs: set<Handle>)
    requires CanRun(db, run)
    requires forall i :: 0 <= i < |run| && run[i].Commit? ==> run[i].h !in hs
    ensures CanRun(db, Without(run, hs)) && SameExcept(After(db, run), After(db, Without(run, hs)), hs)
  {
    if run != [] {
      var n := |run| - 1;
      UncommittedInvisible(db, run[..n], hs);
      var a, b := After(db, run[..n]), After(db, Without(run[..n], hs));
      StepSameExcept(a, b, hs, run[n]);
      if About(run[n], hs) {
        assert Without(run, hs) == Without(run[..n], hs);
      } else {
        RunSnoc(db, Without(run[..n], hs), run[n]);
      }
    }
  }

  /** No read, by anyone at any isolation level, depends on another transaction's uncommitted writes. */
  lemma NoDirtyRead(db: Db, run: seq<Action>, reader: Handle, hs: set<Handle>, key: Key)
    requires CanRun(db, run) && reader in After(db, run).open && reader !in hs
    requires forall i :: 0 <= i < |run| && run[i].Commit? ==> run[i].h !in hs
    ensures CanRun(db, Without(run, hs)) && reader in After(db, Without(run, hs)).open
    ensures View(After(db, run), reader, key) == View(After(db, Without(run, hs)), reader, key)
    ensures Lookup(After(db, run).table, key) == Lookup(After(db, Without(run, hs)).table, key)
  {
    UncommittedInvisible(db, run, hs);
  }

  /** What the last write of `key` to reach the table left there, if one did. */
  function LastEffect(open: map<Handle, Table>, run: seq<Action>, key: Key): Option<Option<Bytes>> {
    if run == [] then None
    else
      var n := |run| - 1;
      var earlier := LastEffect(open, run[..n], key);
      match run[n]
      case Direct(w) => if w.key != key then earlier else Some(if w.PutWrite? then Some(w.value) else None)
      case Commit(g) =>
        var writes := WriteSet(open, run[..n], g);
        if key in writes then Some(Some(writes[key])) else earlier
      case _ => earlier
  }

  lemma {:induction false} SerialAt(table: Table, open: map<Handle, Table>, run: seq<Action>, key: Key)
    ensures var e := LastEffect(open, run, key);
      Lookup(Serial(table, open, run), key) == if e.Some? then e.value else Lookup(table, key)
  {
    if run != [] { SerialAt(table, open, run[..|run| - 1], key); }
  }

  lemma {:induction false} KeepsOwnWrites(db: Db, h: Handle, run: seq<Action>)
    requires h in db.open && CanRun(db, run) && forall i :: 0 <= i < |run| ==> !About(run[i], {h})
    ensures h in After(db, run).open && After(db, run).open[h] == db.open[h]
  {
    hide Step, Enabled, About;
    if run != [] {
      var n := |run| - 1;
      assert forall i :: 0 <= i < n ==> run[..n][i] == run[i];
      KeepsOwnWrites(db, h, run[..n]);
      StepKeepsOwn(After(db, run[..n]), h, run[n]);
    }
  }

  lemma StepKeepsOwn(db: Db, h: Handle, a: Action)
    requires h in db.open && Enabled(db, a) && !About(a, {h})
    ensures h in Step(db, a).open && Step(db, a).open[h] == db.open[h]
  {
  }

  /**
   A read can be repeated across any run of everybody else exactly when the transaction wrote the key
   itself, or nothing reached the key, or the last thing to reach it put the same value back.  The
   isolation level has no say.
   */
  lemma RepeatableReadIff(db: Db, h: Handle, run: seq<Action>, key: Key)
    requires h in db.open && CanRun(db, run) && forall i :: 0 <= i < |run| ==> !About(run[i], {h})
    ensures h in After(db, run).open
    ensures var e := LastEffect(db.open, run, key);
      View(After(db, run), h, key) == View(db, h, key) <==>
        key in db.open[h] || e.None? || e.value == Lookup(db.table, key)
  {
    hide After, CanRun, LastEffect, Serial;
    KeepsOwnWrites(db, h, run);
    CommitOrder(db, run);
    SerialAt(db.table, db.open, run, key);
  }

  /** Two reads of one transaction that differ: another one commits in between. */
  lemma NonRepeatableRead(key: Key, value: Bytes)
    ensures var db := Step(Fresh(Some([])), Begin(0));
      var run := [Begin(1), TxnPut(1, key, value), Commit(1)];
      && CanRun(db, run) && 0 in After(db, run).open
      && View(db, 0, key) == None && View(After(db, run), 0, key) == Some(value)
  {
    var db := Step(Fresh(Some([])), Begin(0));
    ThreeSteps(db, Begin(1), TxnPut(1, key, value), Commit(1));
  }

  lemma ThreeSteps(db: Db, a: Action, b: Action, c: Action)
    requires Enabled(db, a) && Enabled(Step(db, a), b) && Enabled(Step(Step(db, a), b), c)
    ensures CanRun(db, [a, b, c]) && After(db, [a, b, c]) == Step(Step(Step(db, a), b), c)
  {
    hide Enabled, Step;
    assert CanRun(db, []) && After(db, []) == db;
    RunSnoc(db, [], a);
    assert [] + [a] == [a];
    RunSnoc(db, [a], b);
    assert [a] + [b] == [a, b];
    RunSnoc(db, [a, b], c);
    assert [a, b] + [c] == [a, b, c];
  }

  /** What a transaction sees just before its commit is what everyone reads just after. */
  lemma CommitPublishesView(db: Db, h: Handle, key: Key)
    requires h in db.open
    ensures Lookup(Step(db, Commit(h)).table, key) == View(db, h, key)
  {
  }

  // ----- Recovery -----

  /** The direct writes since the last checkpoint, after those already in the log: all that the log knows. */
  function LoggedAfter(ws: seq<Write>, run: seq<Action>): seq<Write> {
    if run == [] then ws
    else
      var n := |run| - 1;
      match run[n]
      case Direct(w) => LoggedAfter(ws, run[..n]) + [w]
      case Checkpoint => []
      case _ => LoggedAfter(ws, run[..n])
  }

  predicate FitsAll(run: seq<Action>) {
    forall i :: 0 <= i < |run| && run[i].Direct? ==> Fits(run[i].write)
  }

  /** The table of a new process that opens the same log. */
  function Recovered(db: Db): Table
    requires db.wal.Some? && Complete(db.wal.value)
  {
    Replay(db.wal.value, map[])
  }

  lemma {:induction false} LogIs(db: Db, ws: seq<Write>, run: seq<Action>)
    requires db.wal == Some(Encode(ws)) && CanRun(db, run)
    ensures After(db, run).wal == Some(Encode(LoggedAfter(ws, run)))
  {
    if run != [] {
      var n := |run| - 1;
      LogIs(db, ws, run[..n]);
      if run[n].Direct? { EncodeAppend(LoggedAfter(ws, run[..n]), run[n].write); }
    }
  }

  lemma {:induction false} LoggedFits(ws: seq<Write>, run: seq<Action>)
    requires FitsAll(run) && AllFit(ws)
    ensures AllFit(LoggedAfter(ws, run))
  {
    if run != [] {
      var n := |run| - 1;
      assert forall i :: 0 <= i < n ==> run[..n][i] == run[i];
      LoggedFits(ws, run[..n]);
    }
  }

  /** After any run at all, recovery yields the direct writes since the last checkpoint and nothing else. */
  lemma RecoveryYields(db: Db, ws: seq<Write>, run: seq<Action>)
    requires db.wal == Some(Encode(ws)) && CanRun(db, run) && FitsAll(run) && AllFit(ws)
    ensures var end := After(db, run);
      end.wal.Some? && Complete(end.wal.value) && Recovered(end) == ApplyAll(map[], LoggedAfter(ws, run))
  {
    hide After, CanRun, LoggedAfter, FitsAll;
    LogIs(db, ws, run);
    LoggedFits(ws, run);
    DecodeEncode(LoggedAfter(ws, run), []);
    assert Encode(LoggedAfter(ws, run)) + [] == Encode(LoggedAfter(ws, run));
  }

  /** No commit takes effect and no checkpoint is made. */
  predicate DirectOnly(run: seq<Action>) {
    forall i :: 0 <= i < |run| ==> !run[i].Commit? && !run[i].Checkpoint?
  }

  lemma {:induction false} SerialIsLogged(ws: seq<Write>, run: seq<Action>)
    requires DirectOnly(run)
    ensures Serial(ApplyAll(map[], ws), map[], run) == ApplyAll(map[], LoggedAfter(ws, run))
  {
    if run != [] {
      var n := |run| - 1;
      SerialIsLogged(ws, run[..n]);
      var before := LoggedAfter(ws, run[..n]);
      if run[n].Direct? { assert (before + [run[n].write])[..|before|] == before; }
    }
  }

  /** A store whose log holds just these writes, as a new process finds it. */
  function Reopened(ws: seq<Write>): Db {
    Db(ApplyAll(map[], ws), Some(Encode(ws)), map[], 1)
  }

  /** Without commits and checkpoints, a crash at any point loses nothing. */
  lemma CrashRecovery(ws: seq<Write>, run: seq<Action>)
    requires CanRun(Reopened(ws), run) && FitsAll(run) && DirectOnly(run) && AllFit(ws)
    ensures var end := After(Reopened(ws), run);
      && end.wal == Some(Encode(LoggedAfter(ws, run))) && Complete(end.wal.value)
      && Recovered(end) == end.table == ApplyAll(map[], LoggedAfter(ws, run))
  {
    hide After, CanRun, LoggedAfter, FitsAll, DirectOnly, Serial;
    LogIs(Reopened(ws), ws, run);
    RecoveryYields(Reopened(ws), ws, run);
    CommitOrder(Reopened(ws), run);
    SerialIsLogged(ws, run);
  }

  // ----- Any number of crashes -----

  /** A new process that opens the log a dead one left behind. */
  function Opened(wal: Bytes): Db
    requires Complete(wal)
  {
    Db(Replay(wal, map[]), Some(wal), map[], 1)
  }

  lemma OpenedIs(ws: seq<Write>)
    requires AllFit(ws)
    ensures Complete(Encode(ws)) && Opened(Encode(ws)) == Reopened(ws)
  {
    DecodeEncode(ws, []);
    assert Encode(ws) + [] == Encode(ws);
  }

  /** One process after another on the same log file, each ended by a crash between two of its operations. */
  predicate CanLive(wal: Bytes, lives: seq<seq<Action>>)
    decreases lives
  {
    Complete(wal) &&
    (lives == [] ||
     (&& CanRun(Opened(wal), lives[0]) && After(Opened(wal), lives[0]).wal.Some?
      && CanLive(After(Opened(wal), lives[0]).wal.value, lives[1..])))
  }

  /** The store as the last process finds it. */
  function AfterLives(wal: Bytes, lives: seq<seq<Action>>): Db
    requires CanLive(wal, lives)
    decreases lives
  {
    if lives == [] then Opened(wal) else AfterLives(After(Opened(wal), lives[0]).wal.value, lives[1..])
  }

  function AllWrites(ws: seq<Write>, lives: seq<seq<Action>>): seq<Write>
    decreases lives
  {
    if lives == [] then ws else AllWrites(LoggedAfter(ws, lives[0]), lives[1..])
  }

  lemma {:induction false} EnabledByOpen(a: Db, b: Db, run: seq<Action>)
    requires a.open == b.open && CanRun(a, run)
    ensures CanRun(b, run) && After(a, run).open == After(b, run).open
  {
    if run != [] { EnabledByOpen(a, b, run[..|run| - 1]); }
  }

  /**
   However many processes ran one after another, whatever they did and after whichever operation each of
   them crashed, the next one finds the direct writes since the last checkpoint applied in order, and
   nothing of any transaction.
   */
  lemma {:induction false} AnyNumberOfCrashes(ws: seq<Write>, lives: seq<seq<Action>>)
    requires AllFit(ws)
    requires forall i :: 0 <= i < |lives| ==> CanRun(Fresh(Some([])), lives[i]) && FitsAll(lives[i])
    ensures CanLive(Encode(ws), lives)
    ensures AfterLives(Encode(ws), lives) == Reopened(AllWrites(ws, lives))
    decreases lives
  {
    hide After, CanRun, LoggedAfter, FitsAll;
    OpenedIs(ws);
    if lives != [] {
      EnabledByOpen(Fresh(Some([])), Reopened(ws), lives[0]);
      LogIs(Reopened(ws), ws, lives[0]);
      LoggedFits(ws, lives[0]);
      AnyNumberOfCrashes(LoggedAfter(ws, lives[0]), lives[1..]);
    }
  }

  ghost predicate Durable(db: Db) {
    db.wal.Some? && Complete(db.wal.value) && Recovered(db) == db.table
  }

  /** A commit is not logged: it survives a crash exactly when it changes nothing. */
  lemma CommitDurableIff(db: Db, h: Handle)
    requires Durable(db) && h in db.open
    ensures Durable(Step(db, Commit(h))) <==> forall key :: key in db.open[h] ==> Lookup(db.table, key) == Some(db.open[h][key])
  {
    var writes := db.open[h];
    if forall key :: key in writes ==> Lookup(db.table, key) == Some(writes[key]) {
      forall key ensures Lookup(db.table + writes, key) == Lookup(db.table, key) {}
      SameLookups(db.table + writes, db.table);
    } else {
      var key :| key in writes && Lookup(db.table, key) != Some(writes[key]);
      assert Lookup(db.table + writes, key) == Some(writes[key]);
    }
  }

  /** A checkpoint empties the log without saving the table: only an empty table survives it. */
  lemma CheckpointDurableIff(db: Db)
    requires db.wal.Some?
    ensures Durable(Step(db, Checkpoint)) <==> db.table == map[]
  {
  }

  /** The shortest run whose committed write is gone after a crash. */
  lemma LostCommit(key: Key, value: Bytes)
    ensures var run := [Begin(0), TxnPut(0, key, value), Commit(0)];
      && CanRun(Fresh(Some([])), run)
      && var end := After(Fresh(Some([])), run);
      && end.table == map[key := value] && end.wal == Some([]) && !Durable(end)
  {
    ThreeSteps(Fresh(Some([])), Begin(0), TxnPut(0, key, value), Commit(0));
    assert key in map[key := value];
  }
}
