/** The code that drives the write-ahead protocol: page transactions
    (src/tinydb/transaction.py) and replay (src/tinydb/recovery.py). Each I/O call is one
    step of the protocol's state machine. */
module Transactions {
  import opened ByteStrings
  import opened Wrappers
  import opened WalBytes
  import opened Replay
  import opened CrashSafety
  import opened PageStore

  // ---- runs -----------------------------------------------------------------

  lemma {:induction false} RunsThrough(s: Sys, a: seq<Event>, t: Sys, b: seq<Event>, u: Sys)
    requires Runs(s, a, t) && Runs(t, b, u)
    ensures Runs(s, a + b, u)
    decreases |a|
  {
    hide Enabled, Step;
    if a == [] {
      assert a + b == b;
    } else {
      RunsThrough(Step(s, a[0]), a[1..], t, b, u);
      assert (a + b)[1..] == a[1..] + b;
    }
  }

  lemma OneStep(s: Sys, e: Event)
    requires Enabled(s, e)
    ensures Runs(s, [e], Step(s, e))
  {
    hide Enabled, Step;
    assert [e][1..] == [];
    assert Runs(Step(s, e), [], Step(s, e));
  }

  function Times(e: Event, n: nat): (es: seq<Event>)
    ensures |es| == n
  {
    seq(n, _ => e)
  }

  // ---- a dict of pages in insertion order -----------------------------------

  predicate DistinctPages(ws: Writes) {
    forall i, j :: 0 <= i < j < |ws| ==> ws[i].0 != ws[j].0
  }

  function Put(ws: Writes, page: nat, data: Bytes): Writes {
    if ws == [] then [(page, data)]
    else if ws[0].0 == page then [(page, data)] + ws[1..]
    else [ws[0]] + Put(ws[1..], page, data)
  }

  lemma {:induction false} PutApplied(m: PageMap, ws: Writes, page: nat, data: Bytes)
    requires DistinctPages(ws)
    ensures DistinctPages(Put(ws, page, data))
    ensures forall w :: w in Put(ws, page, data) ==> w.0 == page || w in ws
    ensures Applied(m, Put(ws, page, data)) == Applied(m, ws)[page := data]
    decreases |ws|
  {
    if ws == [] {
      assert Applied(m[page := data], []) == m[page := data];
    } else if ws[0].0 == page {
      assert ([(page, data)] + ws[1..])[1..] == ws[1..];
      OtherPages(m, ws[1..], page, data, ws[0].1);
    } else {
      var w, rest := ws[0], Put(ws[1..], page, data);
      PutApplied(m[w.0 := w.1], ws[1..], page, data);
      assert ([w] + rest)[1..] == rest;
    }
  }

  /** Writing `page` before or after writes to other pages is the same. */
  lemma {:induction false} OtherPages(m: PageMap, ws: Writes, page: nat, data: Bytes, was: Bytes)
    requires forall i :: 0 <= i < |ws| ==> ws[i].0 != page
    ensures Applied(m[page := data], ws) == Applied(m[page := was], ws)[page := data]
    decreases |ws|
  {
    if ws == [] {
      assert m[page := was][page := data] == m[page := data];
    } else {
      var w := ws[0];
      assert m[page := data][w.0 := w.1] == m[w.0 := w.1][page := data];
      assert m[page := was][w.0 := w.1] == m[w.0 := w.1][page := was];
      OtherPages(m[w.0 := w.1], ws[1..], page, data, was);
    }
  }

  lemma {:induction false} AppliedConcat(m: PageMap, a: Writes, b: Writes)
    ensures Applied(m, a + b) == Applied(Applied(m, a), b)
    decreases |a|
  {
    if a == [] {
      assert a + b == b;
    } else {
      AppliedConcat(m[a[0].0 := a[0].1], a[1..], b);
      assert (a + b)[1..] == a[1..] + b;
    }
  }

  // ---- the files ------------------------------------------------------------

  /** The log file holds the records of the abstract log. */
  ghost predicate LogOnDisk(crc: Crc, buf: Bytes, s: Sys) {
    && HEADER_BYTES <= |buf| && Parse(crc, buf).records == s.disk.log
    && (forall r :: r in s.disk.log ==> RecordFits(r))
    && match s.mode
       case Down => true
       case Redoing(_, _, torn) => torn || Parse(crc, buf).bad.None?
       case PagesSynced(_, torn) => torn || Parse(crc, buf).bad.None?
       case _ => buf == LogFile(crc, s.disk.log)
  }

  /** The record that a step appends to the log. */
  ghost predicate RecordOf(s: Sys, e: Event, r: Record) {
    && s.mode.InTxn? && r.txn == s.mode.id
    && match e
       case Write(page, data) => r == Record(r.txn, PAGE_WRITE, page, data)
       case AppendCommit => r == Record(r.txn, COMMIT, 0, [])
       case AppendRollback => r == Record(r.txn, ROLLBACK, 0, [])
       case _ => false
  }

  lemma LogGrows(s: Sys, e: Event, r: Record)
    requires Enabled(s, e) && RecordOf(s, e, r)
    ensures var t := Step(s, e);
      && t.disk.log == s.disk.log + [r] && t.disk.main == s.disk.main
      && (t.mode.InTxn? || t.mode.CommitAppended? || t.mode.RollingBack?)
  {
  }

  /** Where the protocol truncates next. */
  function TruncatePoint(mode: Mode): nat
    requires mode.PagesSynced? || mode.RollingBack?
  {
    if mode.PagesSynced? then mode.upTo else mode.id + 1
  }

  /** The pager's side: the main file and the log. `sys` is where the protocol stands. */
  class Store {
    const wal: Wal
    var main: PageMap
    ghost var sys: Sys

    ghost predicate Valid()
      reads this, wal
    {
      main == sys.disk.main && Inv(sys) && LogOnDisk(wal.crc, wal.buf, sys)
    }

    /** A new database. */
    constructor Create(crc: Crc, main: PageMap)
      ensures Valid() && fresh(wal) && wal.crc == crc && sys == Fresh(main)
    {
      wal := new Wal(crc);
      this.main := main;
      sys := Fresh(main);
      new;
      ParseLogFile(crc, []);
      PendingOfNoWrites([]);
      NoWritesIsSettled([], main);
    }

    method Log(r: Record, ghost e: Event)
      requires Valid() && RecordFits(r) && Enabled(sys, e)
      requires RecordOf(sys, e, r)
      modifies this`sys, wal
      ensures Valid() && sys == Step(old(sys), e)
    {
      LogGrows(sys, e, r);
      hide Inv, Parse, LogFile, Enabled, Step;
      StepKeeps(sys, e);
      wal.Append(r);
      sys := Step(sys, e);
      ParseLogFile(wal.crc, sys.disk.log);
    }

    method FsyncWal(ghost todo: Writes)
      requires Valid() && Enabled(sys, SyncLog(todo))
      modifies this`sys
      ensures Valid() && sys == Step(old(sys), SyncLog(todo))
    {
      hide Inv, Parse, LogFile;
      StepKeeps(sys, SyncLog(todo));
      ParseLogFile(wal.crc, sys.disk.log);
      sys := Step(sys, SyncLog(todo));
    }

    method WriteMainPage(page: nat, data: Bytes)
      requires Valid() && Enabled(sys, WriteMain) && sys.mode.todo[0] == (page, data)
      modifies this
      ensures Valid() && sys == Step(old(sys), WriteMain)
    {
      hide Inv, Parse, LogFile;
      StepKeeps(sys, WriteMain);
      main := main[page := data];
      sys := Step(sys, WriteMain);
    }

    method FsyncMain()
      requires Valid() && Enabled(sys, SyncMain)
      modifies this`sys
      ensures Valid() && sys == Step(old(sys), SyncMain)
    {
      hide Inv, Parse, LogFile;
      StepKeeps(sys, SyncMain);
      sys := Step(sys, SyncMain);
    }

    method WalTruncateBefore(txn: nat)
      requires Valid() && Enabled(sys, Truncate) && txn == TruncatePoint(sys.mode)
      modifies this`sys, wal
      ensures Valid() && sys == Step(old(sys), Truncate)
    {
      hide Inv, Parse, LogFile;
      ghost var log := sys.disk.log;
      StepKeeps(sys, Truncate);
      ParseLogFile(wal.crc, log);
      var ok := wal.TruncateBefore(txn);
      AtLeastElements(log, txn);
      ParseLogFile(wal.crc, AtLeast(log, txn));
      sys := Step(sys, Truncate);
    }

    /** The write loop of `commit` and of replay. */
    method WriteMainPages(ws: Writes)
      requires Valid() && sys.mode.Redoing? && ws <= sys.mode.todo
      modifies this
      ensures Valid() && sys.mode == Redoing(old(sys.mode.todo)[|ws|..], old(sys.mode.upTo), old(sys.mode.torn))
      ensures Runs(old(sys), Times(WriteMain, |ws|), sys)
      ensures main == Applied(old(main), ws) && wal.buf == old(wal.buf) && sys.disk.log == old(sys.disk.log)
    {
      hide Inv, LogOnDisk;
      ghost var start, todo := sys, sys.mode.todo;
      for i := 0 to |ws|
        invariant Valid() && sys.mode == Redoing(todo[i..], start.mode.upTo, start.mode.torn)
        invariant Runs(start, Times(WriteMain, i), sys)
        invariant main == Applied(old(main), ws[..i]) && wal.buf == old(wal.buf) && sys.disk.log == start.disk.log
      {
        assert ws[i] == todo[i];
        OneStep(sys, WriteMain);
        ghost var was := sys;
        WriteMainPage(ws[i].0, ws[i].1);
        RunsThrough(start, Times(WriteMain, i), was, [WriteMain], sys);
        assert Times(WriteMain, i) + [WriteMain] == Times(WriteMain, i + 1);
        assert ws[..i + 1] == ws[..i] + [ws[i]];
        AppliedConcat(old(main), ws[..i], [ws[i]]);
        OneApplied(Applied(old(main), ws[..i]), ws[i]);
      }
      assert ws[..|ws|] == ws;
    }
  }

  lemma OneApplied(m: PageMap, w: (nat, Bytes))
    ensures Applied(m, [w]) == m[w.0 := w.1]
  {
    assert [w][1..] == [];
    assert Applied(m[w.0 := w.1], []) == m[w.0 := w.1];
  }

  // ---- transactions ---------------------------------------------------------

  /** Everything a commit does, in order. */
  function CommitRun(ws: Writes): seq<Event> {
    [AppendCommit] + [SyncLog(ws)] + Times(WriteMain, |ws|) + [SyncMain] + [Truncate]
  }

  function RollbackRun(): seq<Event> {
    [AppendRollback] + [Truncate]
  }

  class Transaction {
    const id: nat
    const store: Store
    var state: Status
    var pendingWrites: Writes

    ghost predicate Valid()
      reads this, store, store.wal
    {
      && store.Valid() && id < U64_LIMIT && DistinctPages(pendingWrites)
      && (state.Active? ==> store.sys.mode == InTxn(id, Applied(map[], pendingWrites)))
    }

    constructor (id: nat, store: Store)
      requires store.Valid() && id < U64_LIMIT && Enabled(store.sys, Event.Begin(id))
      modifies store`sys
      ensures Valid() && this.id == id && this.store == store && state == Active && pendingWrites == []
      ensures store.sys == Step(old(store.sys), Event.Begin(id))
    {
      hide Inv;
      this.id, this.store, state, pendingWrites := id, store, Active, [];
      new;
      StepKeeps(store.sys, Event.Begin(id));
      store.sys := Step(store.sys, Event.Begin(id));
    }

    /** The log first, then the dict; InvalidTxnState (`false`) once the transaction has ended. */
    method WritePage(page: nat, data: Bytes) returns (ok: bool)
      requires Valid() && page < U32_LIMIT && |data| == PAGE_SIZE
      modifies this`pendingWrites, store`sys, store.wal
      ensures Valid() && ok == state.Active?
      ensures ok ==> store.sys == Step(old(store.sys), Write(page, data))
                     && Applied(map[], pendingWrites) == Applied(map[], old(pendingWrites))[page := data]
      ensures !ok ==> store.sys == old(store.sys) && store.wal.buf == old(store.wal.buf) && pendingWrites == old(pendingWrites)
    {
      hide Inv, LogOnDisk;
      if !state.Active? {
        return false;
      }
      store.Log(Record(id, PAGE_WRITE, page, data), Write(page, data));
      PutApplied(map[], pendingWrites, page, data);
      pendingWrites := Put(pendingWrites, page, data);
      return true;
    }

    method Commit() returns (ok: bool)
      requires Valid()
      modifies this`state, store, store.wal
      ensures Valid() && ok == old(state).Active?
      ensures ok ==> state == Committed && store.sys.mode.Idle?
                     && store.main == old(store.main) + Applied(map[], pendingWrites)
                     && Runs(old(store.sys), CommitRun(pendingWrites), store.sys)
                     && store.sys.disk.log == AtLeast(old(store.sys.disk.log) + [Record(id, COMMIT, 0, [])], id + 1)
      ensures !ok ==> state == old(state) && store.sys == old(store.sys) && store.main == old(store.main)
                      && store.wal.buf == old(store.wal.buf)
    {
      hide Inv, LogOnDisk, Runs;
      if !state.Active? {
        return false;
      }
      ghost var s0 := store.sys;
      store.Log(Record(id, COMMIT, 0, []), AppendCommit);
      ghost var s1 := store.sys;
      store.FsyncWal(pendingWrites);
      ghost var s2 := store.sys;
      store.WriteMainPages(pendingWrites);
      ghost var s3 := store.sys;
      store.FsyncMain();
      ghost var s4 := store.sys;
      store.WalTruncateBefore(id + 1);
      state := Committed;
      FiveLegs(s0, s1, s2, s3, s4, store.sys, pendingWrites);
      AppliedIsOverlay(old(store.main), pendingWrites);
      return true;
    }

    method Rollback() returns (ok: bool)
      requires Valid()
      modifies this`state, store`sys, store.wal
      ensures Valid() && ok == old(state).Active?
      ensures ok ==> state == RolledBack && store.sys.mode.Idle? && Runs(old(store.sys), RollbackRun(), store.sys)
                     && store.sys.disk.log == AtLeast(old(store.sys.disk.log) + [Record(id, ROLLBACK, 0, [])], id + 1)
      ensures !ok ==> state == old(state) && store.sys == old(store.sys) && store.wal.buf == old(store.wal.buf)
    {
      hide Inv, LogOnDisk, Runs;
      if !state.Active? {
        return false;
      }
      ghost var s0 := store.sys;
      store.Log(Record(id, ROLLBACK, 0, []), AppendRollback);
      ghost var s1 := store.sys;
      store.WalTruncateBefore(id + 1);
      state := RolledBack;
      OneStep(s0, AppendRollback);
      OneStep(s1, Truncate);
      RunsThrough(s0, [AppendRollback], s1, [Truncate], store.sys);
      return true;
    }
  }

  lemma FiveLegs(s0: Sys, s1: Sys, s2: Sys, s3: Sys, s4: Sys, s5: Sys, ws: Writes)
    requires Enabled(s0, AppendCommit) && s1 == Step(s0, AppendCommit)
    requires Enabled(s1, SyncLog(ws)) && s2 == Step(s1, SyncLog(ws))
    requires Runs(s2, Times(WriteMain, |ws|), s3)
    requires Enabled(s3, SyncMain) && s4 == Step(s3, SyncMain)
    requires Enabled(s4, Truncate) && s5 == Step(s4, Truncate)
    ensures Runs(s0, CommitRun(ws), s5)
  {
    hide Runs, Enabled, Step;
    OneStep(s0, AppendCommit);
    OneStep(s1, SyncLog(ws));
    OneStep(s3, SyncMain);
    OneStep(s4, Truncate);
    var a := [AppendCommit] + [SyncLog(ws)];
    RunsThrough(s0, [AppendCommit], s1, [SyncLog(ws)], s2);
    RunsThrough(s0, a, s2, Times(WriteMain, |ws|), s3);
    RunsThrough(s0, a + Times(WriteMain, |ws|), s3, [SyncMain], s4);
    RunsThrough(s0, a + Times(WriteMain, |ws|) + [SyncMain], s4, [Truncate], s5);
  }

  /** A crash after `n` steps of a commit: before the COMMIT record nothing has happened,
      after its fsync everything has, in between one or the other. */
  lemma CommitCrash(s: Sys, ws: Writes, n: nat, u: Sys, main: PageMap, log: seq<Record>)
    requires Inv(s) && s.mode.InTxn? && n <= |CommitRun(ws)|
    requires Runs(s, CommitRun(ws)[..n], u) && CrashImage(u.disk, main, log)
    ensures n == 0 ==> Replayed(main, log) == s.disk.main
    ensures n == 1 ==> Replayed(main, log) in {s.disk.main, s.disk.main + s.mode.pend}
    ensures n >= 2 ==> Replayed(main, log) == s.disk.main + s.mode.pend
  {
    hide CrashImage, Replayed;
    var es := CommitRun(ws)[..n];
    if n == 0 {
      InvIsRecoverable(u);
    } else if n == 1 {
      AppendedCommit(s, es, u);
      InvIsRecoverable(u);
    } else {
      SyncedCommit(s, ws, es, u);
    }
  }

  lemma AppendedCommit(s: Sys, es: seq<Event>, u: Sys)
    requires Inv(s) && s.mode.InTxn? && es == [AppendCommit] && Runs(s, es, u)
    ensures Inv(u) && u.before == s.disk.main && u.after == s.disk.main + s.mode.pend
    ensures u == Step(s, AppendCommit)
  {
    StepKeeps(s, AppendCommit);
    hide Step;
    assert es[1..] == [];
    assert Runs(Step(s, AppendCommit), [], u);
    CommitMoves(s);
  }

  lemma CommitMoves(s: Sys)
    requires Inv(s) && s.mode.InTxn?
    ensures Enabled(s, AppendCommit)
    ensures var u := Step(s, AppendCommit); u.before == s.disk.main && u.after == s.disk.main + s.mode.pend
  {
    hide Overlay, PendingOf;
  }

  lemma SyncedCommit(s: Sys, ws: Writes, es: seq<Event>, u: Sys)
    requires Inv(s) && s.mode.InTxn? && es <= CommitRun(ws) && |es| >= 2 && Runs(s, es, u)
    ensures u.before == u.after == s.disk.main + s.mode.pend && Recoverable(u)
  {
    hide Inv, Enabled, Recoverable;
    assert es[0] == AppendCommit && es[1..][0] == SyncLog(ws);
    var s1 := Step(s, AppendCommit);
    StepKeeps(s, AppendCommit);
    CommitMoves(s);
    StepKeeps(s1, SyncLog(ws));
    var s2 := Step(s1, SyncLog(ws));
    var rest := es[1..][1..];
    forall e | e in rest ensures !e.AppendCommit? {
      var i :| 0 <= i < |rest| && rest[i] == e;
      assert CommitRun(ws)[i + 2] == es[i + 2] == e;
    }
    CommittedForGood(s2, rest, u);
  }

  // ---- recovery -------------------------------------------------------------

  /** `pending` with each transaction's dict in insertion order. */
  predicate Represents(pending: map<nat, Writes>, p: map<nat, PageMap>) {
    && pending.Keys == p.Keys
    && forall t :: t in pending ==> DistinctPages(pending[t]) && Applied(map[], pending[t]) == p[t]
  }

  predicate Ascending(ids: seq<nat>) {
    forall i, j :: 0 <= i < j < |ids| ==> ids[i] < ids[j]
  }

  /** `sorted` of a set of ids. */
  method Sorted(keys: set<nat>) returns (ids: seq<nat>)
    ensures Ascending(ids) && forall t :: t in ids <==> t in keys
  {
    ids := [];
    var left := keys;
    while left != {}
      invariant Ascending(ids) && left <= keys
      invariant forall t :: t in ids <==> t in keys && t !in left
      invariant forall t, u :: t in ids && u in left ==> t < u
      decreases left
    {
      var low := Lowest(left);
      assert forall t :: t in ids + [low] <==> t in ids || t == low;
      assert forall i :: 0 <= i < |ids| ==> ids[i] in ids;
      ids, left := ids + [low], left - {low};
    }
  }

  method Lowest(s: set<nat>) returns (low: nat)
    requires s != {}
    ensures low in s && forall t :: t in s ==> low <= t
  {
    low :| low in s;
    var left := s - {low};
    while left != {}
      invariant low in s && left <= s
      invariant forall t :: t in s && t !in left ==> low <= t
      decreases left
    {
      var t :| t in left;
      if t < low {
        low := t;
      }
      left := left - {t};
    }
  }

  method MaxId(ids: set<nat>) returns (m: nat)
    requires ids != {}
    ensures m in ids && forall t :: t in ids ==> t <= m
  {
    m :| m in ids;
    var left := ids - {m};
    while left != {}
      invariant m in ids && left <= ids
      invariant forall t :: t in ids && t !in left ==> t <= m
      decreases left
    {
      var t :| t in left;
      if t > m {
        m := t;
      }
      left := left - {t};
    }
  }

  /** The scan of the log. */
  method Scan(records: seq<Record>) returns (pending: map<nat, Writes>, status: map<nat, Status>)
    ensures Represents(pending, Pending(records)) && status == StatusOf(records)
  {
    hide Pending, StatusOf, Represents, Applied;
    pending, status := map[], map[];
    NothingScanned();
    for i := 0 to |records|
      invariant Represents(pending, Pending(records[..i])) && status == StatusOf(records[..i])
    {
      var r := records[i];
      assert records[..i + 1] == records[..i] + [r];
      PendingStep(records[..i], r);
      ScanStep(pending, Pending(records[..i]), r);
      if r.kind == BEGIN {
        status := status[r.txn := Active];
        pending := pending[r.txn := if r.txn in pending then pending[r.txn] else []];
      } else if r.kind == PAGE_WRITE {
        pending := pending[r.txn := Put(if r.txn in pending then pending[r.txn] else [], r.page, r.data)];
      } else if r.kind == COMMIT {
        status := status[r.txn := Committed];
      } else if r.kind == ROLLBACK {
        status := status[r.txn := RolledBack];
      }
    }
    assert records[..|records|] == records;
  }

  lemma NothingScanned()
    ensures Represents(map[], Pending([])) && StatusOf([]) == map[]
  {
  }

  lemma ScanStep(pending: map<nat, Writes>, p: map<nat, PageMap>, r: Record)
    requires Represents(pending, p)
    ensures var ws := if r.txn in pending then pending[r.txn] else [];
      var mine: PageMap := if r.txn in p then p[r.txn] else map[];
      && Represents(pending[r.txn := ws], p[r.txn := mine])
      && Represents(pending[r.txn := Put(ws, r.page, r.data)], p[r.txn := mine[r.page := r.data]])
  {
    var ws := if r.txn in pending then pending[r.txn] else [];
    assert DistinctPages(ws);
    PutApplied(map[], ws, r.page, r.data);
  }

  /** The writes replay makes, in order. */
  function Todo(ids: seq<nat>, pending: map<nat, Writes>, status: map<nat, Status>): Writes {
    if ids == [] then [] else
      var t := ids[|ids| - 1];
      Todo(ids[..|ids| - 1], pending, status)
        + if t in pending && t in status && status[t] == Committed then pending[t] else []
  }

  /** They lay the committed transactions over the pages in id order. */
  lemma {:induction false} TodoIsApply(m: PageMap, ids: seq<nat>, pending: map<nat, Writes>, p: map<nat, PageMap>,
                                       status: map<nat, Status>, n: nat)
    requires Represents(pending, p) && Ascending(ids)
    requires forall t :: t in ids <==> t in pending && t < n
    ensures Applied(m, Todo(ids, pending, status)) == ApplyBelow(m, p, status, n)
    decreases n
  {
    hide Applied;
    if n == 0 {
      NoIds(ids, n);
      AppliedNothing(m);
    } else if n - 1 in pending {
      hide Ascending, Represents;
      LastId(ids, n - 1);
      TodoIsApply(m, ids[..|ids| - 1], pending, p, status, n - 1);
      LastTodo(m, ids, pending, p, status);
    } else {
      TodoIsApply(m, ids, pending, p, status, n - 1);
    }
  }

  lemma LastTodo(m: PageMap, ids: seq<nat>, pending: map<nat, Writes>, p: map<nat, PageMap>, status: map<nat, Status>)
    requires Represents(pending, p) && ids != [] && ids[|ids| - 1] in p
    ensures var t, before := ids[|ids| - 1], Applied(m, Todo(ids[..|ids| - 1], pending, status));
      Applied(m, Todo(ids, pending, status)) == if t in status && status[t] == Committed then before + p[t] else before
  {
    hide Applied;
    var t := ids[|ids| - 1];
    LaidOver(m, Todo(ids[..|ids| - 1], pending, status), pending[t]);
  }

  lemma LaidOver(m: PageMap, todo: Writes, ws: Writes)
    ensures Applied(m, todo + ws) == Applied(m, todo) + Applied(map[], ws)
    ensures todo + [] == todo
  {
    AppliedConcat(m, todo, ws);
    AppliedIsOverlay(Applied(m, todo), ws);
  }

  lemma AppliedNothing(m: PageMap)
    ensures Applied(m, []) == m
  {
  }

  lemma NoIds(ids: seq<nat>, n: nat)
    requires n == 0 && forall t :: t in ids ==> t < n
    ensures ids == []
  {
    SomeId(ids);
  }

  lemma SomeId(ids: seq<nat>)
    ensures ids == [] || exists t :: t in ids
  {
    if ids != [] {
      assert ids[0] in ids;
    }
  }

  /** The highest id is the last. */
  lemma LastId(ids: seq<nat>, top: nat)
    requires Ascending(ids) && top in ids && forall t :: t in ids ==> t <= top
    ensures ids != [] && ids[|ids| - 1] == top
    ensures Ascending(ids[..|ids| - 1])
    ensures forall t :: t in ids[..|ids| - 1] <==> t in ids && t < top
  {
    var k := |ids| - 1;
    assert ids[k] in ids;
    var i :| 0 <= i < |ids| && ids[i] == top;
    assert ids == ids[..k] + [ids[k]];
  }

  lemma {:induction false} TodoPrefix(ids: seq<nat>, pending: map<nat, Writes>, status: map<nat, Status>, i: nat)
    requires i <= |ids|
    ensures Todo(ids[..i], pending, status) <= Todo(ids, pending, status)
    decreases |ids| - i
  {
    if i == |ids| {
      assert ids[..i] == ids;
    } else {
      TodoPrefix(ids, pending, status, i + 1);
      assert ids[..i + 1][..i] == ids[..i];
    }
  }

  /** What truncation after replay keeps is decided by `pending` alone. */
  lemma {:induction false} LimitOfPending(log: seq<Record>)
    ensures Pending(log) == map[] ==> PendingLimit(log) == 1
    ensures Pending(log) != map[] ==> PendingLimit(log) - 1 in Pending(log)
    ensures forall t :: t in Pending(log) ==> t < PendingLimit(log)
  {
    PendingBelow(log);
    if log != [] {
      LimitOfPending(log[..|log| - 1]);
    }
  }

  /** Everything a replay does, in order. */
  function ReplayRun(todo: Writes, torn: bool): seq<Event> {
    [Open(todo, torn)] + Times(WriteMain, |todo|) + [SyncMain] + [if torn then GiveUp else Truncate]
  }

  /** `Recovery.replay`; `false` is the re-raised WalCorruption. What is replayed are the records
      the log file is made of (`Reads`): one whose CRC is wrong is not, nor is anything behind it. */
  method Recover(store: Store) returns (ok: bool, ghost todo: Writes)
    requires store.Valid() && store.sys.mode.Down?
    modifies store, store.wal
    ensures forall records, bad :: Reads(store.wal.crc, old(store.wal.buf), records, bad) ==>
              ok == bad.None? && store.main == Replayed(old(store.main), records)
    ensures store.Valid() && ok == Parse(store.wal.crc, old(store.wal.buf)).bad.None?
    ensures store.main == Replayed(old(store.main), Parse(store.wal.crc, old(store.wal.buf)).records)
    ensures Runs(old(store.sys), ReplayRun(todo, !ok), store.sys)
    ensures ok ==> store.sys.mode.Idle?
    ensures !ok ==> store.sys.mode.Down? && Parse(store.wal.crc, store.wal.buf).bad.None?
  {
    hide Inv, Parse, Reads, Runs, Represents, Todo, Replayed, Overlay, Pending, StatusOf, PendingLimit, Applied, LogFile;
    var records, bad := store.wal.IterRecords();
    var pending, status := Scan(records);
    var ids := Sorted(pending.Keys);
    todo := Todo(ids, pending, status);
    ok := bad.None?;
    ghost var s0 := store.sys;
    TodoIsOverlay(records, ids, pending, status);
    StepKeeps(s0, Open(todo, !ok));
    if bad.Some? {
      CutAtBad(store.wal.crc, store.wal.buf);
      store.wal.TruncateTo(bad.value);
    }
    store.sys := Step(s0, Open(todo, !ok));
    ghost var s1 := store.sys;
    ApplyCommitted(store, ids, pending, status, todo);
    ghost var s2 := store.sys;
    store.FsyncMain();
    ghost var s3 := store.sys;
    if ok {
      var n := TruncateAt(records, pending);
      store.WalTruncateBefore(n);
    } else {
      StepKeeps(s3, GiveUp);
      store.sys := Step(s3, GiveUp);
    }
    FourLegs(s0, s1, s2, s3, store.sys, todo, !ok);
    TodoIsReplayed(old(store.main), records, ids, pending, status);
    ReadOneWay(store.wal.crc, old(store.wal.buf), records, bad);
  }

  lemma ReadOneWay(crc: Crc, buf: Bytes, records: seq<Record>, bad: Option<nat>)
    requires Parse(crc, buf) == Parsed(records, bad)
    ensures forall rs, b :: Reads(crc, buf, rs, b) ==> rs == records && b == bad
  {
    hide Parse, ReadsFrom;
    forall rs, b | Reads(crc, buf, rs, b) ensures rs == records && b == bad {
      HeaderIsThere(crc, buf, rs, b);
      ReadsOne(crc, buf, rs, b);
    }
  }

  lemma HeaderIsThere(crc: Crc, buf: Bytes, rs: seq<Record>, bad: Option<nat>)
    requires Reads(crc, buf, rs, bad)
    ensures HEADER_BYTES <= |buf|
  {
    hide EncodeAll, StartsNoRecord;
  }

  method TruncateAt(ghost records: seq<Record>, pending: map<nat, Writes>) returns (n: nat)
    requires Represents(pending, Pending(records))
    ensures n == PendingLimit(records)
  {
    LimitOfPending(records);
    if pending == map[] {
      return 1;
    }
    var m := MaxId(pending.Keys);
    return m + 1;
  }

  lemma TodoIsReplayed(m: PageMap, records: seq<Record>, ids: seq<nat>, pending: map<nat, Writes>, status: map<nat, Status>)
    requires Represents(pending, Pending(records)) && status == StatusOf(records)
    requires Ascending(ids) && forall t :: t in ids <==> t in pending
    ensures Applied(m, Todo(ids, pending, status)) == Replayed(m, records)
  {
    PendingBelow(records);
    TodoIsApply(m, ids, pending, Pending(records), status, PendingLimit(records));
  }

  lemma TodoIsOverlay(records: seq<Record>, ids: seq<nat>, pending: map<nat, Writes>, status: map<nat, Status>)
    requires Represents(pending, Pending(records)) && status == StatusOf(records)
    requires Ascending(ids) && forall t :: t in ids <==> t in pending
    ensures Lists(Todo(ids, pending, status), Overlay(records))
  {
    TodoIsReplayed(map[], records, ids, pending, status);
  }

  method ApplyCommitted(store: Store, ids: seq<nat>, pending: map<nat, Writes>, status: map<nat, Status>, ghost todo: Writes)
    requires store.Valid() && store.sys.mode.Redoing? && store.sys.mode.todo == todo == Todo(ids, pending, status)
    requires forall t :: t in ids ==> t in pending
    modifies store
    ensures store.Valid() && store.sys.mode == Redoing([], old(store.sys.mode.upTo), old(store.sys.mode.torn))
    ensures Runs(old(store.sys), Times(WriteMain, |todo|), store.sys)
    ensures store.main == Applied(old(store.main), todo) && store.wal.buf == old(store.wal.buf)
  {
    hide Inv, LogOnDisk, Runs, Applied;
    ghost var start := store.sys;
    ghost var done: Writes := [];
    NothingYet(start);
    AppliedNothing(store.main);
    assert todo[0..] == todo;
    for i := 0 to |ids|
      invariant done == Todo(ids[..i], pending, status) && done <= todo
      invariant store.Valid() && store.sys.mode == Redoing(todo[|done|..], start.mode.upTo, start.mode.torn)
      invariant Runs(start, Times(WriteMain, |done|), store.sys)
      invariant store.main == Applied(old(store.main), done) && store.wal.buf == old(store.wal.buf)
    {
      var t := ids[i];
      assert ids[..i + 1][..i] == ids[..i] && t in ids;
      TodoPrefix(ids, pending, status, i + 1);
      if t in status && status[t] == Committed {
        ghost var was, next := store.sys, done + pending[t];
        AppliedConcat(old(store.main), done, pending[t]);
        NextWrites(todo, done, pending[t]);
        store.WriteMainPages(pending[t]);
        RunsThrough(start, Times(WriteMain, |done|), was, Times(WriteMain, |pending[t]|), store.sys);
        assert Times(WriteMain, |done|) + Times(WriteMain, |pending[t]|) == Times(WriteMain, |next|);
        done := next;
      } else {
        assert done + [] == done;
      }
    }
    assert ids[..|ids|] == ids;
    assert todo[|todo|..] == [];
  }

  lemma NextWrites(todo: Writes, done: Writes, ws: Writes)
    requires done + ws <= todo
    ensures ws <= todo[|done|..] && todo[|done|..][|ws|..] == todo[|done + ws|..]
  {
  }

  lemma NothingYet(s: Sys)
    ensures Runs(s, Times(WriteMain, 0), s)
  {
  }

  lemma FourLegs(s0: Sys, s1: Sys, s2: Sys, s3: Sys, s4: Sys, todo: Writes, torn: bool)
    requires Enabled(s0, Open(todo, torn)) && s1 == Step(s0, Open(todo, torn))
    requires Runs(s1, Times(WriteMain, |todo|), s2)
    requires Enabled(s2, SyncMain) && s3 == Step(s2, SyncMain)
    requires var e := if torn then GiveUp else Truncate; Enabled(s3, e) && s4 == Step(s3, e)
    ensures Runs(s0, ReplayRun(todo, torn), s4)
  {
    hide Runs, Enabled, Step;
    var last := if torn then GiveUp else Truncate;
    OneStep(s0, Open(todo, torn));
    OneStep(s2, SyncMain);
    OneStep(s3, last);
    RunsThrough(s0, [Open(todo, torn)], s1, Times(WriteMain, |todo|), s2);
    RunsThrough(s0, [Open(todo, torn)] + Times(WriteMain, |todo|), s2, [SyncMain], s3);
    RunsThrough(s0, [Open(todo, torn)] + Times(WriteMain, |todo|) + [SyncMain], s3, [last], s4);
  }

  /** A crash at any point of a recovery leaves the next recovery with the same answer. */
  lemma CrashWhileRecovering(s: Sys, todo: Writes, torn: bool, n: nat, u: Sys, main: PageMap, log: seq<Record>)
    requires Inv(s) && s.mode.Down? && n <= |ReplayRun(todo, torn)|
    requires Runs(s, ReplayRun(todo, torn)[..n], u) && CrashImage(u.disk, main, log)
    ensures Replayed(main, log) == Replayed(s.disk.main, s.disk.log)
  {
    hide Inv, Runs, Enabled, Replayed;
    var es := ReplayRun(todo, torn)[..n];
    forall e | e in es ensures !e.AppendCommit? {
    }
    StandsAsIs(s);
    CommittedForGood(s, es, u);
  }

  lemma StandsAsIs(s: Sys)
    requires Inv(s) && s.mode.Down?
    ensures Replayed(s.disk.main, s.disk.log) == s.before == s.after
  {
    ReplayIsOverlay(s.disk.main, s.disk.log);
  }
}
