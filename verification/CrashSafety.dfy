/** The write-ahead protocol as a state machine over single I/O steps, with a crash possible
    between any two of them (src/tinydb/transaction.py, src/tinydb/recovery.py).

    What a crash may leave: of the log, any version it had since the last fsync (so a suffix
    of appends may be lost, and a rewrite by truncation may be lost as a whole); of the main
    file, anything in pages written since its last fsync. */
module CrashSafety {
  import opened ByteStrings
  import opened WalBytes
  import opened Replay

  /** `images` are the versions of the log since its last fsync, `dirty` the main pages
      written since theirs. */
  datatype Disk = Disk(main: PageMap, log: seq<Record>, images: set<seq<Record>>, dirty: set<nat>)

  type Writes = seq<(nat, Bytes)>

  datatype Mode =
    | Idle
    | InTxn(id: nat, pend: PageMap)
    | CommitAppended(id: nat, pend: PageMap)                // not yet fsynced
    | Redoing(todo: Writes, upTo: nat, torn: bool)          // commit past its barrier, or recovery
    | PagesSynced(upTo: nat, torn: bool)
    | RollingBack(id: nat)
    | Down

  /** `before` and `after` are what the main file may hold once recovered: they differ only
      while a COMMIT record is on its way to the disk. A crash in that window leaves one of
      them, and the log that survived says which. */
  datatype Sys = Sys(disk: Disk, mode: Mode, before: PageMap, after: PageMap)

  datatype Event =
    | Begin(id: nat)
    | Write(page: nat, data: Bytes)
    | AppendCommit
    | SyncLog(todo: Writes)
    | WriteMain
    | SyncMain
    | Truncate
    | AppendRollback
    | GiveUp                                                // replay re-raises WalCorruption
    | Crash(main: PageMap, log: seq<Record>)
    | Open(todo: Writes, torn: bool)

  function Applied(m: PageMap, ws: Writes): PageMap
    decreases |ws|
  {
    if ws == [] then m else Applied(m[ws[0].0 := ws[0].1], ws[1..])
  }

  /** A list of page writes with the same effect as laying `w` over the pages. */
  predicate Lists(ws: Writes, w: PageMap) {
    Applied(map[], ws) == w
  }

  function Append(d: Disk, r: Record): Disk {
    d.(log := d.log + [r], images := d.images + {d.log + [r]})
  }

  function TruncateLog(d: Disk, n: nat): Disk {
    d.(log := AtLeast(d.log, n), images := d.images + {AtLeast(d.log, n)})
  }

  /** What the disk may hold after a crash. */
  ghost predicate CrashImage(d: Disk, main: PageMap, log: seq<Record>) {
    && log in d.images
    && forall p :: p !in d.dirty ==> (p in main <==> p in d.main) && (p in main ==> main[p] == d.main[p])
  }

  ghost predicate Enabled(s: Sys, e: Event) {
    match e
    case Begin(id) => s.mode.Idle? && !IsCommitted(s.disk.log, id)
    case Write(_, _) => s.mode.InTxn?
    case AppendCommit => s.mode.InTxn?
    case SyncLog(todo) => s.mode.CommitAppended? && Lists(todo, s.mode.pend)
    case WriteMain => s.mode.Redoing? && s.mode.todo != []
    case SyncMain => s.mode.Redoing? && s.mode.todo == []
    case Truncate => (s.mode.PagesSynced? && !s.mode.torn) || s.mode.RollingBack?
    case AppendRollback => s.mode.InTxn?
    case GiveUp => s.mode.PagesSynced? && s.mode.torn
    case Crash(main, log) => CrashImage(s.disk, main, log)
    case Open(todo, _) => s.mode.Down? && Lists(todo, Overlay(s.disk.log))
  }

  ghost function Step(s: Sys, e: Event): Sys
    requires Enabled(s, e)
  {
    var d := s.disk;
    match e
    case Begin(id) => s.(mode := InTxn(id, map[]))
    case Write(p, data) =>
      s.(disk := Append(d, Record(s.mode.id, PAGE_WRITE, p, data)), mode := InTxn(s.mode.id, s.mode.pend[p := data]))
    case AppendCommit =>
      s.(disk := Append(d, Record(s.mode.id, COMMIT, 0, [])), mode := CommitAppended(s.mode.id, s.mode.pend),
         after := s.before + s.mode.pend)
    case SyncLog(todo) =>
      s.(disk := d.(images := {d.log}), mode := Redoing(todo, s.mode.id + 1, false), before := s.after)
    case WriteMain =>
      var (p, data) := s.mode.todo[0];
      s.(disk := d.(main := d.main[p := data], dirty := d.dirty + {p}), mode := Redoing(s.mode.todo[1..], s.mode.upTo, s.mode.torn))
    case SyncMain => s.(disk := d.(dirty := {}), mode := PagesSynced(s.mode.upTo, s.mode.torn))
    case Truncate =>
      var n := if s.mode.PagesSynced? then s.mode.upTo else s.mode.id + 1;
      s.(disk := TruncateLog(d, n), mode := Idle)
    case AppendRollback => s.(disk := Append(d, Record(s.mode.id, ROLLBACK, 0, [])), mode := RollingBack(s.mode.id))
    case GiveUp => s.(mode := Down)
    case Crash(main, log) => Sys(Disk(main, log, {log}, {}), Down, Replayed(main, log), Replayed(main, log))
    case Open(todo, torn) => s.(mode := Redoing(todo, PendingLimit(d.log), torn))
  }

  /** What a crash may do, step by step: all that it could have left before it can still leave
      after, until the log or the pages are fsynced; and a page being written may hold anything. */
  lemma CrashesThatMayBe(s: Sys, e: Event, main: PageMap, log: seq<Record>, x: Bytes)
    requires Enabled(s, e) && CrashImage(s.disk, main, log)
    requires !e.SyncLog? && !e.SyncMain? && !e.Crash?
    ensures CrashImage(Step(s, e).disk, main, log)
    ensures s.disk.log in s.disk.images ==> CrashImage(Step(s, e).disk, main, Step(s, e).disk.log)
    ensures e.WriteMain? ==> CrashImage(Step(s, e).disk, main[s.mode.todo[0].0 := x], log)
  {
    hide AtLeast;
  }

  // ---- the invariant --------------------------------------------------------

  /** Every version of the log replays to nothing new over `base`. */
  ghost predicate Settled(d: Disk, base: PageMap) {
    && d.main == base && d.dirty == {} && d.log in d.images
    && forall log :: log in d.images ==> base + Overlay(log) == base
  }

  ghost predicate WritesBelow(log: seq<Record>, n: nat) {
    forall r :: r in log && (r.kind == PAGE_WRITE || r.kind == BEGIN) ==> r.txn < n
  }

  function PendingOf(log: seq<Record>, id: nat): PageMap {
    if id in Pending(log) then Pending(log)[id] else map[]
  }

  /** The log alone decides `target`; what is left to write brings the pages there. */
  ghost predicate Decided(d: Disk, todo: Writes, target: PageMap) {
    && d.images == {d.log}
    && d.main + Overlay(d.log) == target
    && Applied(d.main, todo) == target
    && (forall i :: 0 <= i < |todo| ==> todo[i].0 in Overlay(d.log))
    && d.dirty <= Overlay(d.log).Keys
  }

  ghost predicate Inv(s: Sys) {
    var d := s.disk;
    match s.mode
    case Idle => Settled(d, s.before) && s.after == s.before && NoWrites(d.log)
    case InTxn(id, pend) =>
      && Settled(d, s.before) && s.after == s.before
      && WritesOnlyOf(d.log, id) && PendingOf(d.log, id) == pend && !IsCommitted(d.log, id)
    case CommitAppended(id, pend) =>
      && d.main == s.before && d.dirty == {} && d.log in d.images && s.after == s.before + pend
      && WritesOnlyOf(d.log, id) && Overlay(d.log) == pend
      && forall log :: log in d.images ==> s.before + Overlay(log) == s.before || s.before + Overlay(log) == s.after
    case Redoing(todo, upTo, _) =>
      && Decided(d, todo, s.before) && s.after == s.before && WritesBelow(d.log, upTo)
    case PagesSynced(upTo, _) =>
      && Settled(d, s.before) && s.after == s.before && d.images == {d.log} && WritesBelow(d.log, upTo)
    case RollingBack(id) => Settled(d, s.before) && s.after == s.before && WritesOnlyOf(d.log, id)
    case Down => d.images == {d.log} && d.dirty == {} && d.main + Overlay(d.log) == s.before == s.after
  }

  /** Whatever a crash leaves, replay gives the state before or after the transaction. */
  ghost predicate Recoverable(s: Sys) {
    forall main: PageMap, log :: CrashImage(s.disk, main, log) ==> Replayed(main, log) in {s.before, s.after}
  }

  lemma InvIsRecoverable(s: Sys)
    requires Inv(s)
    ensures Recoverable(s)
  {
    hide Inv, Replayed, CrashImage;
    forall main: PageMap, log | CrashImage(s.disk, main, log)
      ensures Replayed(main, log) in {s.before, s.after}
    {
      ImageRecovers(s, main, log);
    }
  }

  lemma ImageRecovers(s: Sys, main: PageMap, log: seq<Record>)
    requires Inv(s) && CrashImage(s.disk, main, log)
    ensures Replayed(main, log) in {s.before, s.after}
  {
    hide Replayed, Overlay, PendingOf, WritesOnlyOf, IsCommitted, NoWrites;
    ReplayIsOverlay(main, log);
    if s.mode.Redoing? {
      DamageIsRepaired(s.disk, s.mode.todo, s.before, main);
    } else {
      assert main == s.disk.main;
    }
  }

  /** Pages in doubt are pages the log writes. */
  lemma DamageIsRepaired(d: Disk, todo: Writes, target: PageMap, main: PageMap)
    requires Decided(d, todo, target) && CrashImage(d, main, d.log)
    ensures main + Overlay(d.log) == target
  {
    var w := Overlay(d.log);
    forall p ensures (p in main + w <==> p in d.main + w) && (p in main + w ==> (main + w)[p] == (d.main + w)[p]) {
    }
  }

  // ---- every step keeps it --------------------------------------------------

  lemma OneMoreRecord(log: seq<Record>, r: Record)
    ensures var longer := log + [r];
      && (WritesOnlyOf(log, r.txn) ==> WritesOnlyOf(longer, r.txn))
      && (r.kind == PAGE_WRITE ==> PendingOf(longer, r.txn) == PendingOf(log, r.txn)[r.page := r.data]
                                   && (IsCommitted(longer, r.txn) <==> IsCommitted(log, r.txn)))
      && (IsEnd(r) ==> PendingOf(longer, r.txn) == PendingOf(log, r.txn)
                       && (IsCommitted(longer, r.txn) <==> r.kind == COMMIT))
  {
    PendingStep(log, r);
  }

  lemma OverlayIsPending(log: seq<Record>, id: nat)
    requires WritesOnlyOf(log, id)
    ensures Overlay(log) == if IsCommitted(log, id) then PendingOf(log, id) else map[]
  {
    OverlayOfOne(log, id);
  }

  lemma NoWritesIsSettled(log: seq<Record>, base: PageMap)
    requires NoWrites(log)
    ensures base + Overlay(log) == base
  {
    PendingOfNoWrites(log);
    assert base + map[] == base;
  }

  lemma BeginKeeps(s: Sys, id: nat)
    requires Inv(s) && Enabled(s, Begin(id))
    ensures Inv(Step(s, Begin(id)))
  {
    PendingOfNoWrites(s.disk.log);
  }

  lemma WriteKeeps(s: Sys, p: nat, data: Bytes)
    requires Inv(s) && Enabled(s, Write(p, data))
    ensures Inv(Step(s, Write(p, data)))
  {
    hide Overlay, PendingOf, IsCommitted;
    var r := Record(s.mode.id, PAGE_WRITE, p, data);
    OneMoreRecord(s.disk.log, r);
    OverlayIsPending(s.disk.log + [r], s.mode.id);
    assert s.before + map[] == s.before;
  }

  lemma AppendCommitKeeps(s: Sys)
    requires Inv(s) && Enabled(s, AppendCommit)
    ensures Inv(Step(s, AppendCommit))
  {
    hide Overlay, PendingOf, IsCommitted;
    var r := Record(s.mode.id, COMMIT, 0, []);
    OneMoreRecord(s.disk.log, r);
    OverlayIsPending(s.disk.log + [r], s.mode.id);
  }

  lemma AppendRollbackKeeps(s: Sys)
    requires Inv(s) && Enabled(s, AppendRollback)
    ensures Inv(Step(s, AppendRollback))
  {
    hide Overlay, PendingOf, IsCommitted;
    var r := Record(s.mode.id, ROLLBACK, 0, []);
    OneMoreRecord(s.disk.log, r);
    OverlayIsPending(s.disk.log + [r], s.mode.id);
    assert s.before + map[] == s.before;
  }

  lemma {:induction false} AppliedIsOverlay(m: PageMap, ws: Writes)
    ensures Applied(m, ws) == m + Applied(map[], ws)
    ensures forall i :: 0 <= i < |ws| ==> ws[i].0 in Applied(map[], ws)
    decreases |ws|
  {
    if ws != [] {
      var one: PageMap := map[ws[0].0 := ws[0].1];
      AppliedIsOverlay(m[ws[0].0 := ws[0].1], ws[1..]);
      AppliedIsOverlay(one, ws[1..]);
      assert map[][ws[0].0 := ws[0].1] == one;
      assert Applied(map[], ws) == Applied(one, ws[1..]);
      forall i | 0 <= i < |ws| ensures ws[i].0 in Applied(map[], ws) {
        if i > 0 {
          assert ws[i] == ws[1..][i - 1];
        }
      }
    }
  }

  /** Starting to redo what the log lists. */
  lemma RedoFrom(d: Disk, todo: Writes)
    requires d.images == {d.log} && d.dirty == {} && Lists(todo, Overlay(d.log))
    ensures Decided(d, todo, d.main + Overlay(d.log))
  {
    AppliedIsOverlay(d.main, todo);
  }

  lemma SyncLogKeeps(s: Sys, todo: Writes)
    requires Inv(s) && Enabled(s, SyncLog(todo))
    ensures Inv(Step(s, SyncLog(todo)))
  {
    hide Overlay;
    RedoFrom(s.disk.(images := {s.disk.log}), todo);
    assert WritesBelow(s.disk.log, s.mode.id + 1);
  }

  lemma OpenKeeps(s: Sys, todo: Writes, torn: bool)
    requires Inv(s) && Enabled(s, Open(todo, torn))
    ensures Inv(Step(s, Open(todo, torn)))
  {
    hide Overlay;
    RedoFrom(s.disk, todo);
    WritesBelowLimit(s.disk.log);
  }

  lemma WriteMainKeeps(s: Sys)
    requires Inv(s) && Enabled(s, WriteMain)
    ensures Inv(Step(s, WriteMain))
  {
    hide Overlay;
    OneWriteDone(s.disk, s.mode.todo, s.before);
  }

  lemma OneWriteDone(d: Disk, todo: Writes, target: PageMap)
    requires Decided(d, todo, target) && todo != []
    ensures Decided(d.(main := d.main[todo[0].0 := todo[0].1], dirty := d.dirty + {todo[0].0}), todo[1..], target)
  {
    hide Overlay;
    var w, p := Overlay(d.log), todo[0].0;
    assert p in w;
    assert d.main[p := todo[0].1] + w == d.main + w;
  }

  lemma SyncMainKeeps(s: Sys)
    requires Inv(s) && Enabled(s, SyncMain)
    ensures Inv(Step(s, SyncMain))
  {
    hide Overlay;
  }

  lemma TruncateKeeps(s: Sys)
    requires Inv(s) && Enabled(s, Truncate)
    ensures Inv(Step(s, Truncate))
  {
    hide Overlay;
    var n := if s.mode.PagesSynced? then s.mode.upTo else s.mode.id + 1;
    TruncatedHasNoWrites(s.disk.log, n);
    NoWritesIsSettled(AtLeast(s.disk.log, n), s.disk.main);
  }

  lemma CrashKeeps(s: Sys, main: PageMap, log: seq<Record>)
    requires Inv(s) && Enabled(s, Crash(main, log))
    ensures Inv(Step(s, Crash(main, log)))
    ensures Step(s, Crash(main, log)).before in {s.before, s.after}
  {
    hide Overlay;
    InvIsRecoverable(s);
    ReplayIsOverlay(main, log);
  }

  lemma StepKeeps(s: Sys, e: Event)
    requires Inv(s) && Enabled(s, e)
    ensures Inv(Step(s, e))
  {
    hide Inv, Step, Enabled;
    match e
    case Begin(id) => BeginKeeps(s, id);
    case Write(p, data) => WriteKeeps(s, p, data);
    case AppendCommit => AppendCommitKeeps(s);
    case SyncLog(todo) => SyncLogKeeps(s, todo);
    case WriteMain => WriteMainKeeps(s);
    case SyncMain => SyncMainKeeps(s);
    case Truncate => TruncateKeeps(s);
    case AppendRollback => AppendRollbackKeeps(s);
    case GiveUp => GiveUpKeeps(s);
    case Crash(main, log) => CrashKeeps(s, main, log);
    case Open(todo, torn) => OpenKeeps(s, todo, torn);
  }

  lemma GiveUpKeeps(s: Sys)
    requires Inv(s) && Enabled(s, GiveUp)
    ensures Inv(Step(s, GiveUp))
  {
    hide Overlay;
  }

  // ---- whole runs -----------------------------------------------------------

  ghost predicate Runs(s: Sys, es: seq<Event>, t: Sys)
    decreases |es|
  {
    if es == [] then s == t else Enabled(s, es[0]) && Runs(Step(s, es[0]), es[1..], t)
  }

  /** A fresh database: an empty log, both files on disk. */
  function Fresh(main: PageMap): Sys {
    Sys(Disk(main, [], {[]}, {}), Idle, main, main)
  }

  lemma {:induction false} RunKeeps(s: Sys, es: seq<Event>, t: Sys)
    requires Inv(s) && Runs(s, es, t)
    ensures Inv(t)
    decreases |es|
  {
    hide Inv, Step, Enabled;
    if es != [] {
      StepKeeps(s, es[0]);
      RunKeeps(Step(s, es[0]), es[1..], t);
    }
  }

  /** Atomicity over all runs: at any point of any run of transactions, crashes and
      recoveries, whatever a crash there leaves recovers to the state before or after the
      transaction. These are one state except between the append and the fsync of a COMMIT
      record, and the main file is that state before the append and after the truncation. */
  lemma CrashAtomicity(main: PageMap, es: seq<Event>, t: Sys)
    requires Runs(Fresh(main), es, t)
    ensures Recoverable(t)
    ensures !t.mode.CommitAppended? ==> t.before == t.after
    ensures t.mode.Idle? || t.mode.InTxn? || t.mode.RollingBack? ==> t.disk.main == t.before
    ensures t.mode.CommitAppended? ==> t.disk.main == t.before && t.after == t.before + t.mode.pend
  {
    PendingOfNoWrites([]);
    NoWritesIsSettled([], main);
    RunKeeps(Fresh(main), es, t);
    InvIsRecoverable(t);
    hide Overlay;
  }

  // ---- the order of ids -----------------------------------------------------

  ghost predicate OneWriter(log: seq<Record>) {
    exists t: nat :: WritesOnlyOf(log, t)
  }

  /** Each version of the log that a crash may leave has the writes of one transaction at most. */
  ghost predicate OneWriterEach(d: Disk) {
    OneWriter(d.log) && forall log :: log in d.images ==> OneWriter(log)
  }

  lemma WriterOf(log: seq<Record>, t: nat)
    requires WritesOnlyOf(log, t)
    ensures OneWriter(log)
  {
  }

  lemma PartHasOneWriter(log: seq<Record>, n: nat)
    requires OneWriter(log)
    ensures OneWriter(AtLeast(log, n))
  {
    var t: nat :| WritesOnlyOf(log, t);
    AtLeastElements(log, n);
    var rest := AtLeast(log, n);
    assert forall i :: 0 <= i < |rest| ==> rest[i] in rest;
    WriterOf(rest, t);
  }

  /** A transaction starts writing on a log without writes. */
  lemma OneWriterKept(s: Sys, e: Event)
    requires Inv(s) && Enabled(s, e) && OneWriterEach(s.disk)
    ensures OneWriterEach(Step(s, e).disk)
  {
    hide Settled, Decided, Overlay, PendingOf, IsCommitted, WritesBelow, OneWriter, Replayed, Lists;
    match e
    case Write(p, data) => WriterOf(s.disk.log + [Record(s.mode.id, PAGE_WRITE, p, data)], s.mode.id);
    case AppendCommit => WriterOf(s.disk.log + [Record(s.mode.id, COMMIT, 0, [])], s.mode.id);
    case AppendRollback => WriterOf(s.disk.log + [Record(s.mode.id, ROLLBACK, 0, [])], s.mode.id);
    case Truncate => PartHasOneWriter(s.disk.log, if s.mode.PagesSynced? then s.mode.upTo else s.mode.id + 1);
    case _ =>
  }

  lemma {:induction false} RunHasOneWriter(s: Sys, es: seq<Event>, t: Sys)
    requires Inv(s) && OneWriterEach(s.disk) && Runs(s, es, t)
    ensures OneWriterEach(t.disk)
    decreases |es|
  {
    hide Inv, Step, Enabled, OneWriterEach;
    if es != [] {
      StepKeeps(s, es[0]);
      OneWriterKept(s, es[0]);
      RunHasOneWriter(Step(s, es[0]), es[1..], t);
    }
  }

  /** Whatever log a crash leaves at any point of any run, replay by sorted ids is redo of it in
      log order, although ids restart: no log on which the two differ is ever on the disk. */
  lemma OrderNeverMatters(main: PageMap, es: seq<Event>, t: Sys, crashed: PageMap, log: seq<Record>)
    requires Runs(Fresh(main), es, t) && CrashImage(t.disk, crashed, log)
    ensures HighestWritesLast(log) && Replayed(crashed, log) == Redo(crashed, log, CommittedIds(log))
  {
    PendingOfNoWrites([]);
    NoWritesIsSettled([], main);
    WriterOf([], 0);
    hide Runs, Overlay, WritesOnlyOf, Replayed, Redo;
    RunHasOneWriter(Fresh(main), es, t);
    var u: nat :| WritesOnlyOf(log, u);
    OneWriterIsRedo(crashed, log, u);
  }

  /** Durability: while no COMMIT record is appended, the one state that every crash recovers
      to stays the same, through any number of crashes, recoveries and rollbacks. */
  lemma {:induction false} CommittedForGood(s: Sys, es: seq<Event>, t: Sys)
    requires Inv(s) && s.before == s.after && Runs(s, es, t)
    requires forall e :: e in es ==> !e.AppendCommit?
    ensures t.before == t.after == s.after && Recoverable(t)
    decreases |es|
  {
    hide Inv, Enabled, Recoverable, Replayed, Step;
    if es == [] {
      InvIsRecoverable(t);
    } else {
      StepKeeps(s, es[0]);
      assert es[0] in es;
      StaysDecided(s, es[0]);
      assert forall e :: e in es[1..] ==> e in es;
      CommittedForGood(Step(s, es[0]), es[1..], t);
    }
  }

  lemma StaysDecided(s: Sys, e: Event)
    requires Inv(s) && s.before == s.after && Enabled(s, e) && !e.AppendCommit?
    ensures Step(s, e).before == Step(s, e).after == s.after
  {
    hide Inv, Replayed;
    match e
    case Crash(main, log) => CrashKeeps(s, main, log);
    case _ =>
  }

  /** A byte-level crash image of the log, cut behind what was last fsynced, parses to a
      version the log had since then. */
  lemma CutIsEarlierVersion(crc: Crc, synced: nat, rs: seq<Record>, cut: nat)
    requires forall r :: r in rs ==> RecordFits(r)
    requires synced <= |rs| && Boundary(crc, rs, synced) <= cut <= |LogFile(crc, rs)|
    ensures exists n :: synced <= n <= |rs| && Parse(crc, LogFile(crc, rs)[..cut]).records == rs[..n]
  {
    hide EncodeAll, LogFile, Parse;
    FirstBoundary(crc, rs);
    BoundaryGrows(crc, rs, 0, synced);
    TornTail(crc, rs, cut);
    var n := WholeBefore(crc, rs, cut);
    if n < synced {
      BoundaryGrows(crc, rs, n + 1, synced);
    }
  }
}
