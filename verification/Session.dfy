/** The executor's routing of page reads and writes through its transaction, and what BEGIN,
    COMMIT, ROLLBACK and failing statements do to what a session sees
    (src/tinydb/executor.py, src/tinydb/_executor_snapshot.py). */
module Session {
  import opened ByteStrings
  import opened Wrappers
  import opened WalBytes
  import opened Replay
  import opened CrashSafety
  import opened Transactions
  import opened PageStore

  datatype TableInfo = TableInfo(columns: seq<string>, rootPageId: nat, nextPageId: nat)

  /** The Python objects a snapshot deep-copies. */
  datatype Objects = Objects(catalog: map<string, TableInfo>, tablePages: map<string, seq<nat>>,
                             indexRoots: map<(string, string), nat>)

  /** Everything a statement can see or change. */
  datatype Db = Db(pages: PageMap, objects: Objects)

  /** What a statement does, one write at a time. */
  datatype Action = PutPage(page: nat, data: Bytes) | PutObjects(objects: Objects)

  datatype Command =
    | Begin
    | Commit
    | Rollback
    | Statement(actions: seq<Action>, fails: bool)   // `fails`: raises after those actions

  predicate ActionFits(a: Action) {
    a.PutPage? ==> a.page < U32_LIMIT && |a.data| == PAGE_SIZE
  }

  predicate CommandFits(c: Command) {
    c.Statement? ==> forall a :: a in c.actions ==> ActionFits(a)
  }

  // ---- what a session should see --------------------------------------------

  function Act(d: Db, a: Action): Db {
    match a
    case PutPage(p, data) => d.(pages := d.pages[p := data])
    case PutObjects(o) => d.(objects := o)
  }

  function ActAll(d: Db, acts: seq<Action>): Db {
    if acts == [] then d else Act(ActAll(d, acts[..|acts| - 1]), acts[|acts| - 1])
  }

  /** A connection: what is committed, and what the session sees. */
  datatype Conn = Conn(base: Db, work: Db, inTxn: bool)

  predicate Accepted(c: Conn, cmd: Command) {
    match cmd
    case Begin => !c.inTxn
    case Commit => c.inTxn
    case Rollback => c.inTxn
    case Statement(_, fails) => !fails
  }

  /** A failing statement takes the whole open transaction with it. */
  function Next(c: Conn, cmd: Command): Conn {
    match cmd
    case Begin => c.(inTxn := true)
    case Commit => if c.inTxn then Conn(c.work, c.work, false) else c
    case Rollback => Conn(c.base, c.base, false)
    case Statement(acts, fails) =>
      if fails then Conn(c.base, c.base, false)
      else if c.inTxn then c.(work := ActAll(c.work, acts))
      else Conn(ActAll(c.work, acts), ActAll(c.work, acts), false)
  }

  function NextAll(c: Conn, cmds: seq<Command>): Conn {
    if cmds == [] then c else Next(NextAll(c, cmds[..|cmds| - 1]), cmds[|cmds| - 1])
  }

  /** Which writes of a history survive: those kept for good, and those of the open transaction. */
  datatype Script = Script(kept: seq<Action>, open: seq<Action>, inTxn: bool)

  function Survivors(cmds: seq<Command>): Script {
    if cmds == [] then Script([], [], false) else
      var s := Survivors(cmds[..|cmds| - 1]);
      match cmds[|cmds| - 1]
      case Begin => s.(inTxn := true)
      case Commit => if s.inTxn then Script(s.kept + s.open, [], false) else s
      case Rollback => Script(s.kept, [], false)
      case Statement(acts, fails) =>
        if fails then Script(s.kept, [], false)
        else if s.inTxn then s.(open := s.open + acts)
        else Script(s.kept + acts, [], false)
  }

  lemma {:induction false} ActConcat(d: Db, a: seq<Action>, b: seq<Action>)
    ensures ActAll(d, a + b) == ActAll(ActAll(d, a), b)
  {
    if b == [] {
      assert a + b == a;
    } else {
      ActConcat(d, a, b[..|b| - 1]);
      assert (a + b)[..|a + b| - 1] == a + b[..|b| - 1];
    }
  }

  /** All or nothing over histories: the committed state is the effect of exactly the writes of
      transactions and statements that committed, in order, as if no other had been run. */
  lemma {:induction false} OnlySurvivorsCount(d: Db, cmds: seq<Command>)
    ensures var c, s := NextAll(Conn(d, d, false), cmds), Survivors(cmds);
      && c.inTxn == s.inTxn && (!s.inTxn ==> s.open == [])
      && c.base == ActAll(d, s.kept) && c.work == ActAll(c.base, s.open)
  {
    hide ActAll;
    NoActions(d);
    if cmds != [] {
      var before := cmds[..|cmds| - 1];
      OnlySurvivorsCount(d, before);
      var c, s := NextAll(Conn(d, d, false), before), Survivors(before);
      NoActions(c.base);
      NoActions(c.work);
      ActConcat(d, s.kept, s.open);
      match cmds[|cmds| - 1]
      case Statement(acts, fails) =>
        NoActions(ActAll(c.work, acts));
        ActConcat(d, s.kept, acts);
        ActConcat(c.base, s.open, acts);
      case _ =>
    }
  }

  lemma NoActions(d: Db)
    ensures ActAll(d, []) == d
  {
  }

  // ---- the executor ---------------------------------------------------------

  /** No id from `n` to `limit` is that of a COMMIT in the log. Other records of such ids may be
      left over from before the database was opened, when ids start anew. */
  ghost predicate FreeIds(log: seq<Record>, n: nat, limit: nat) {
    forall id :: n <= id < limit ==> !IsCommitted(log, id)
  }

  /** The last record of a transaction that is no write decides on its status. */
  lemma LastDecides(log: seq<Record>, r: Record, t: nat)
    ensures IsCommitted(log + [r], t) <==> if r.txn == t && (IsEnd(r) || r.kind == BEGIN) then r.kind == COMMIT else IsCommitted(log, t)
  {
    PendingStep(log, r);
  }

  lemma WriteKeepsIds(log: seq<Record>, r: Record, n: nat, limit: nat)
    requires FreeIds(log, n, limit) && r.kind == PAGE_WRITE
    ensures FreeIds(log + [r], n, limit)
  {
    hide IsCommitted;
    var longer := log + [r];
    forall id | n <= id < limit ensures !IsCommitted(longer, id) {
      LastDecides(log, r, id);
    }
  }

  lemma {:induction false} TruncatedStatus(log: seq<Record>, n: nat, t: nat)
    requires t >= n
    ensures IsCommitted(AtLeast(log, n), t) <==> IsCommitted(log, t)
  {
    hide IsCommitted;
    if log != [] {
      var before, r := log[..|log| - 1], log[|log| - 1];
      TruncatedStatus(before, n, t);
      LastDecides(before, r, t);
      LastDecides(AtLeast(before, n), r, t);
      assert log == before + [r];
      assert AtLeast(before, n) + [] == AtLeast(before, n);
    }
  }

  /** The end of a transaction, truncated away with everything up to its id. */
  lemma EndKeepsIds(log: seq<Record>, end: Record, n: nat, limit: nat)
    requires FreeIds(log, n, limit) && end.txn < n
    ensures FreeIds(AtLeast(log + [end], end.txn + 1), n, limit)
  {
    hide IsCommitted, AtLeast;
    var rest := AtLeast(log + [end], end.txn + 1);
    forall id | n <= id < limit ensures !IsCommitted(rest, id) {
      TruncatedStatus(log + [end], end.txn + 1, id);
      LastDecides(log, end, id);
    }
  }

  class Executor {
    const store: Store
    var currentTxn: Transaction?
    var nextTxnId: nat
    var pageBuffer: PageMap
    var objects: Objects
    var snapshot: Option<Objects>
    ghost const idLimit: nat       // ids from nextTxnId to here may be given out
    ghost var base: Db             // at BEGIN, or now when no transaction is open

    ghost predicate Valid()
      reads this, store, store.wal, currentTxn
    {
      && store.Valid() && FreeIds(store.sys.disk.log, nextTxnId, idLimit) && idLimit <= U64_LIMIT
      && store.sys.before == store.sys.after == base.pages
      && if currentTxn == null then
           store.sys.mode.Idle? && pageBuffer == map[] && snapshot == None && objects == base.objects
         else
           && currentTxn.store == store && currentTxn.Valid() && currentTxn.state.Active?
           && currentTxn.id < nextTxnId
           && pageBuffer == Applied(map[], currentTxn.pendingWrites) && snapshot == Some(base.objects)
    }

    ghost function Work(): Db
      reads this, store
    {
      Db(store.main + pageBuffer, objects)
    }

    ghost function Now(): Conn
      reads this, store
    {
      Conn(base, Work(), currentTxn != null)
    }

    constructor (store: Store, objects: Objects, nextTxnId: nat, ghost idLimit: nat)
      requires store.Valid() && store.sys.mode.Idle? && FreeIds(store.sys.disk.log, nextTxnId, idLimit) && idLimit <= U64_LIMIT
      ensures Valid() && this.store == store && currentTxn == null && this.nextTxnId == nextTxnId && this.idLimit == idLimit
      ensures Now() == Conn(Db(store.main, objects), Db(store.main, objects), false)
    {
      this.store, this.objects, this.nextTxnId := store, objects, nextTxnId;
      currentTxn, pageBuffer, snapshot := null, map[], None;
      base := Db(store.main, objects);
      this.idLimit := idLimit;
    }

    /** The buffered page, else the main file's. */
    function ReadPage(pid: nat): (data: Bytes)
      reads this, store
    {
      if pageBuffer != map[] && pid in pageBuffer then pageBuffer[pid]
      else if pid in store.main then store.main[pid] else Zeros(PAGE_SIZE)
    }

    /** A read sees the latest write of the open transaction or the page as it was at BEGIN. */
    lemma ReadIsWork(pid: nat)
      requires Valid()
      ensures pid in Work().pages ==> ReadPage(pid) == Work().pages[pid]
      ensures pid !in Work().pages ==> ReadPage(pid) == Zeros(PAGE_SIZE)
      ensures var written: PageMap := if currentTxn == null then map[] else Applied(map[], currentTxn.pendingWrites);
        ReadPage(pid) == if pid in written then written[pid]
                         else if pid in base.pages then base.pages[pid] else Zeros(PAGE_SIZE)
    {
      MainIsBase();
    }

    lemma MainIsBase()
      requires Valid()
      ensures store.main == base.pages
      ensures currentTxn == null ==> Work() == base
    {
      hide Overlay, PendingOf, IsCommitted;
      assert store.main + map[] == store.main;
    }

    method WritePage(pid: nat, data: Bytes)
      requires Valid() && currentTxn != null && pid < U32_LIMIT && |data| == PAGE_SIZE
      modifies this`pageBuffer, store`sys, store.wal, currentTxn`pendingWrites
      ensures Valid() && Now() == old(Now()).(work := Act(old(Work()), PutPage(pid, data)))
    {
      hide Inv, LogOnDisk, Applied, CrashSafety.Append;
      ghost var was := store.sys;
      ghost var before: PageMap := Work().pages;
      var ok := currentTxn.WritePage(pid, data);
      WriteTouches(was, pid, data);
      WriteKeepsIds(was.disk.log, Record(was.mode.id, PAGE_WRITE, pid, data), nextTxnId, idLimit);
      pageBuffer := pageBuffer[pid := data];
      assert Work().pages == before[pid := data];
    }

    /** `_txn_free_page`: the free list of the pages a session sees gains the page. */
    method FreePage(pid: nat, ghost next: nat, ghost live: set<nat>, ghost free: seq<nat>)
      requires Valid() && currentTxn != null && pid < U32_LIMIT
      requires Consistent(Work().pages, next, live, free) && pid in live
      modifies this`pageBuffer, store`sys, store.wal, currentTxn`pendingWrites
      ensures Valid() && currentTxn == old(currentTxn) && base == old(base)
      ensures Consistent(Work().pages, next, live - {pid}, [pid] + free)
      ensures forall p :: p != 0 && p != pid && p in Work().pages ==> p in old(Work().pages) && Work().pages[p] == old(Work().pages[p])
    {
      hide Valid, UnpackBE, U32;
      ghost var was: PageMap := Work().pages;
      ReadIsWork(0);
      ReadIsWork(pid);
      var page0, freed := ReadPage(0), ReadPage(pid);
      var oldHead := FieldAt(page0, FREE_LIST_HEAD_OFFSET, 4);
      HeadFits(was, next, live, free);
      PatchAt(freed, 0, U32(oldHead));
      PatchAt(page0, FREE_LIST_HEAD_OFFSET, U32(pid));
      var freed' := Patch(freed, 0, U32(oldHead));
      var page0' := Patch(page0, FREE_LIST_HEAD_OFFSET, U32(pid));
      WritePage(0, page0');
      WritePage(pid, freed');
      ghost var now: PageMap := Work().pages;
      assert now == was[0 := page0'][pid := freed'];
      FreedIsConsistent(was, next, live, free, pid, page0', freed');
    }

    method ExecBegin() returns (ok: bool)
      requires Valid() && nextTxnId < idLimit
      modifies this, store`sys
      ensures Valid() && Now() == Next(old(Now()), Command.Begin) && ok == Accepted(old(Now()), Command.Begin)
      ensures currentTxn == old(currentTxn) || fresh(currentTxn)
      ensures nextTxnId <= old(nextTxnId) + 1
    {
      hide Inv, LogOnDisk;
      if currentTxn != null {
        return false;
      }
      OpenTxn();
      return true;
    }

    method OpenTxn()
      requires Valid() && currentTxn == null && nextTxnId < idLimit
      modifies this, store`sys
      ensures Valid() && currentTxn != null && fresh(currentTxn) && Now() == old(Now()).(inTxn := true)
      ensures nextTxnId == old(nextTxnId) + 1
    {
      hide Inv, LogOnDisk, IsCommitted;
      currentTxn := new Transaction(nextTxnId, store);
      nextTxnId := nextTxnId + 1;
      snapshot := Some(objects);
    }

    method ExecCommit() returns (ok: bool)
      requires Valid()
      modifies this, store, store.wal, currentTxn
      ensures Valid() && Now() == Next(old(Now()), Command.Commit) && ok == Accepted(old(Now()), Command.Commit)
      ensures currentTxn == null && nextTxnId == old(nextTxnId)
    {
      hide Inv, LogOnDisk;
      if currentTxn == null {
        return false;
      }
      CloseTxn();
      return true;
    }

    method CloseTxn()
      requires Valid() && currentTxn != null
      modifies this, store, store.wal, currentTxn
      ensures Valid() && currentTxn == null && nextTxnId == old(nextTxnId)
      ensures Now() == Conn(old(Work()), old(Work()), false)
    {
      hide Inv, LogOnDisk, Runs, CommitRun;
      ghost var log, id := store.sys.disk.log, currentTxn.id;
      var ok := currentTxn.Commit();
      EndKeepsIds(log, Record(id, COMMIT, 0, []), nextTxnId, idLimit);
      IdleIsDecided(store.sys);
      currentTxn, pageBuffer, snapshot := null, map[], None;
      base := Db(store.main, objects);
      assert store.main + map[] == store.main;
    }

    method ExecRollback() returns (ok: bool)
      requires Valid()
      modifies this, store, store.wal, currentTxn
      ensures Valid() && Now() == Next(old(Now()), Command.Rollback) && ok == Accepted(old(Now()), Command.Rollback)
      ensures currentTxn == null && nextTxnId == old(nextTxnId)
    {
      hide Inv, LogOnDisk;
      if currentTxn == null {
        MainIsBase();
        return false;
      }
      AbandonTxn();
      return true;
    }

    method AbandonTxn()
      requires Valid() && currentTxn != null
      modifies this, store, store.wal, currentTxn
      ensures Valid() && currentTxn == null && nextTxnId == old(nextTxnId)
      ensures Now() == Conn(old(base), old(base), false)
    {
      hide Inv, LogOnDisk, Runs, RollbackRun;
      ghost var was, id := store.sys, currentTxn.id;
      MainIsBase();
      var ok := currentTxn.Rollback();
      EndKeepsIds(was.disk.log, Record(id, ROLLBACK, 0, []), nextTxnId, idLimit);
      RolledBackState(was, store.sys);
      IdleIsDecided(store.sys);
      currentTxn, pageBuffer := null, map[];
      objects := snapshot.value;
      snapshot := None;
      assert store.main + map[] == store.main;
    }

    /** A statement: in the open transaction, or in one of its own. */
    method ExecInTxn(actions: seq<Action>, fails: bool) returns (ok: bool)
      requires Valid() && nextTxnId < idLimit && CommandFits(Statement(actions, fails))
      modifies this, store, store.wal, currentTxn
      ensures Valid() && Now() == Next(old(Now()), Statement(actions, fails))
      ensures ok == Accepted(old(Now()), Statement(actions, fails))
      ensures currentTxn == old(currentTxn) || currentTxn == null
      ensures nextTxnId <= old(nextTxnId) + 1
    {
      hide Valid;
      var auto := currentTxn == null;
      if auto {
        MainIsBase();
        OpenTxn();
      }
      ghost var start := Now();
      RunStatement(actions);
      if fails {
        AbandonTxn();
        return false;
      }
      if auto {
        CloseTxn();
      }
      return true;
    }

    method RunStatement(actions: seq<Action>)
      requires Valid() && currentTxn != null && forall a :: a in actions ==> ActionFits(a)
      modifies this`pageBuffer, this`objects, store`sys, store.wal, currentTxn`pendingWrites
      ensures Valid() && Now() == old(Now()).(work := ActAll(old(Work()), actions))
    {
      hide Valid;
      ghost var start := Now();
      for i := 0 to |actions|
        invariant Valid() && Now() == start.(work := ActAll(start.work, actions[..i]))
      {
        assert actions[..i + 1][..i] == actions[..i];
        assert actions[i] in actions;
        match actions[i]
        case PutPage(p, data) => WritePage(p, data);
        case PutObjects(o) => SetObjects(o);
      }
      assert actions[..|actions|] == actions;
    }

    method SetObjects(o: Objects)
      requires Valid() && currentTxn != null
      modifies this`objects
      ensures Valid() && Now() == old(Now()).(work := old(Work()).(objects := o))
    {
      objects := o;
    }

    /** Whatever a crash between two steps of a session leaves recovers to what is committed. */
    lemma CrashLosesOnlyOpenWork(main: PageMap, log: seq<Record>)
      requires Valid() && CrashImage(store.sys.disk, main, log)
      ensures Replayed(main, log) == base.pages
    {
      hide Inv, Replayed;
      ImageRecovers(store.sys, main, log);
    }

    /** Any history of commands: the session sees what it should, and a crash at the end
        recovers the effect of exactly the writes that were committed. */
    method RunSession(cmds: seq<Command>)
      requires Valid() && currentTxn == null && nextTxnId + |cmds| < idLimit
      requires forall c :: c in cmds ==> CommandFits(c)
      modifies this, store, store.wal
      ensures Valid() && Now() == NextAll(old(Now()), cmds)
      ensures base == ActAll(old(Work()), Survivors(cmds).kept)
      ensures forall main: PageMap, log :: CrashImage(store.sys.disk, main, log) ==>
                Replayed(main, log) == ActAll(old(Work()), Survivors(cmds).kept).pages
    {
      hide Valid, CrashImage, Replayed, Next, CommandFits;
      MainIsBase();
      ghost var start := Now();
      for i := 0 to |cmds|
        invariant Valid() && Now() == NextAll(start, cmds[..i]) && nextTxnId <= old(nextTxnId) + i
        invariant currentTxn == null || fresh(currentTxn)
      {
        assert cmds[..i + 1][..i] == cmds[..i];
        assert cmds[i] in cmds;
        var ok := Execute(cmds[i]);
      }
      assert cmds[..|cmds|] == cmds;
      OnlySurvivorsCount(start.work, cmds);
      forall main: PageMap, log | CrashImage(store.sys.disk, main, log)
        ensures Replayed(main, log) == base.pages
      {
        CrashLosesOnlyOpenWork(main, log);
      }
    }

    method Execute(cmd: Command) returns (ok: bool)
      requires Valid() && nextTxnId < idLimit && CommandFits(cmd)
      modifies this, store, store.wal, currentTxn
      ensures Valid() && Now() == Next(old(Now()), cmd) && ok == Accepted(old(Now()), cmd)
      ensures currentTxn == null || currentTxn == old(currentTxn) || fresh(currentTxn)
      ensures nextTxnId <= old(nextTxnId) + 1
    {
      hide Valid, CommandFits, Next, Accepted;
      match cmd
      case Begin => ok := ExecBegin();
      case Commit => ok := ExecCommit();
      case Rollback => ok := ExecRollback();
      case Statement(acts, fails) => ok := ExecInTxn(acts, fails);
    }
  }

  lemma WriteTouches(s: Sys, pid: nat, data: Bytes)
    requires Enabled(s, Write(pid, data))
    ensures var t := Step(s, Write(pid, data));
      && t.before == s.before && t.after == s.after && t.disk.main == s.disk.main
      && t.disk.log == s.disk.log + [Record(s.mode.id, PAGE_WRITE, pid, data)]
  {
  }

  lemma IdleIsDecided(s: Sys)
    requires Inv(s) && s.mode.Idle?
    ensures s.before == s.after == s.disk.main
  {
  }

  lemma RolledBackState(s: Sys, t: Sys)
    requires Inv(s) && s.mode.InTxn? && Runs(s, RollbackRun(), t)
    ensures t.before == t.after == s.after && t.disk.main == s.disk.main
  {
    var es := RollbackRun();
    assert es[0] == AppendRollback && es[1..][0] == Truncate && es[1..][1..] == [];
    var s1 := Step(s, AppendRollback);
    assert Runs(s1, es[1..], t);
    assert Runs(Step(s1, Truncate), [], t);
  }

  lemma HeadFits(pages: PageMap, next: nat, live: set<nat>, free: seq<nat>)
    requires Consistent(pages, next, live, free)
    ensures FieldAt(pages[0], FREE_LIST_HEAD_OFFSET, 4) < U32_LIMIT
  {
    assert free != [] ==> free[0] in free;
  }

  lemma FreedIsConsistent(pages: PageMap, next: nat, live: set<nat>, free: seq<nat>, pid: nat, page0: Bytes, freed: Bytes)
    requires Consistent(pages, next, live, free) && pid in live && pid < U32_LIMIT
    requires |page0| == PAGE_SIZE && |freed| == PAGE_SIZE
    requires FieldAt(freed, 0, 4) == FieldAt(pages[0], FREE_LIST_HEAD_OFFSET, 4)
    requires FieldAt(page0, FREE_LIST_HEAD_OFFSET, 4) == pid
    ensures Consistent(pages[0 := page0][pid := freed], next, live - {pid}, [pid] + free)
  {
    PushIsConsistent(pages, next, live, free, pid, pages[0 := page0][pid := freed]);
  }
}
