/** What recovery makes of a log (src/tinydb/recovery.py). */
module Replay {
  import opened ByteStrings
  import opened WalBytes

  type PageMap = map<nat, Bytes>

  datatype Status = Active | Committed | RolledBack

  /** The writes of each transaction, the last one to a page winning. */
  function Pending(log: seq<Record>): map<nat, PageMap> {
    if log == [] then map[] else
      var p, r := Pending(log[..|log| - 1]), log[|log| - 1];
      var mine: PageMap := if r.txn in p then p[r.txn] else map[];
      if r.kind == BEGIN then p[r.txn := mine]
      else if r.kind == PAGE_WRITE then p[r.txn := mine[r.page := r.data]]
      else p
  }

  function StatusOf(log: seq<Record>): map<nat, Status> {
    if log == [] then map[] else
      var s, r := StatusOf(log[..|log| - 1]), log[|log| - 1];
      if r.kind == BEGIN then s[r.txn := Active]
      else if r.kind == COMMIT then s[r.txn := Committed]
      else if r.kind == ROLLBACK then s[r.txn := RolledBack]
      else s
  }

  predicate IsCommitted(log: seq<Record>, txn: nat) {
    txn in StatusOf(log) && StatusOf(log)[txn] == Committed
  }

  /** One more than every id below which `pending` has entries, and at least 1: where
      `replay` truncates. */
  function PendingLimit(log: seq<Record>): (n: nat)
    ensures n >= 1
  {
    if log == [] then 1 else
      var n, r := PendingLimit(log[..|log| - 1]), log[|log| - 1];
      if (r.kind == BEGIN || r.kind == PAGE_WRITE) && r.txn >= n then r.txn + 1 else n
  }

  /** The committed transactions below `n`, laid over `m` in ascending id order. */
  function ApplyBelow(m: PageMap, pending: map<nat, PageMap>, status: map<nat, Status>, n: nat): PageMap {
    if n == 0 then m else
      var below := ApplyBelow(m, pending, status, n - 1);
      if n - 1 in pending && n - 1 in status && status[n - 1] == Committed then below + pending[n - 1] else below
  }

  /** The main pages after replaying `log` over `m`. */
  function Replayed(m: PageMap, log: seq<Record>): PageMap {
    ApplyBelow(m, Pending(log), StatusOf(log), PendingLimit(log))
  }

  /** The pages a replay writes. */
  function Overlay(log: seq<Record>): PageMap {
    Replayed(map[], log)
  }

  lemma {:induction false} ApplyIsOverlay(m: PageMap, pending: map<nat, PageMap>, status: map<nat, Status>, n: nat)
    ensures ApplyBelow(m, pending, status, n) == m + ApplyBelow(map[], pending, status, n)
  {
    if n > 0 {
      ApplyIsOverlay(m, pending, status, n - 1);
    }
  }

  /** Replaying lays a fixed map over the pages ... */
  lemma ReplayIsOverlay(m: PageMap, log: seq<Record>)
    ensures Replayed(m, log) == m + Overlay(log)
  {
    ApplyIsOverlay(m, Pending(log), StatusOf(log), PendingLimit(log));
  }

  /** ... so replaying again changes nothing, and neither does damage to pages it writes. */
  lemma ReplayAgain(m: PageMap, log: seq<Record>, damaged: PageMap)
    requires forall p :: p !in Overlay(log) ==> (p in damaged <==> p in m) && (p in m ==> damaged[p] == m[p])
    ensures Replayed(Replayed(m, log), log) == Replayed(m, log)
    ensures Replayed(damaged, log) == Replayed(m, log)
  {
    ReplayIsOverlay(m, log);
    ReplayIsOverlay(damaged, log);
    ReplayIsOverlay(Replayed(m, log), log);
  }

  lemma {:induction false} PendingBelow(log: seq<Record>)
    ensures forall t :: t in Pending(log) ==> t < PendingLimit(log)
  {
    if log != [] {
      PendingBelow(log[..|log| - 1]);
    }
  }

  // ---- the order of the log -------------------------------------------------

  /** Redo the writes of `log` one by one, keeping those of transactions in `winners`. */
  function Redo(m: PageMap, log: seq<Record>, winners: set<nat>): PageMap {
    if log == [] then m else
      var n, r := Redo(m, log[..|log| - 1], winners), log[|log| - 1];
      if r.kind == PAGE_WRITE && r.txn in winners then n[r.page := r.data] else n
  }

  predicate IdsDoNotDecrease(log: seq<Record>) {
    forall i, j :: 0 <= i < j < |log| ==> log[i].txn <= log[j].txn
  }

  predicate IsEnd(r: Record) {
    r.kind == COMMIT || r.kind == ROLLBACK
  }

  /** No transaction has two ends, or begins after its end. */
  predicate EndsOnce(log: seq<Record>) {
    forall i, j :: 0 <= i < j < |log| && IsEnd(log[i]) && log[i].txn == log[j].txn ==> !IsEnd(log[j]) && log[j].kind != BEGIN
  }

  function Winners(log: seq<Record>): set<nat> {
    set i | 0 <= i < |log| && log[i].kind == COMMIT :: log[i].txn
  }

  lemma {:induction false} CommittedIsWinner(log: seq<Record>, t: nat)
    requires EndsOnce(log)
    ensures IsCommitted(log, t) <==> t in Winners(log)
    ensures t !in StatusOf(log) ==> forall i :: 0 <= i < |log| && log[i].txn == t ==> !IsEnd(log[i]) && log[i].kind != BEGIN
    ensures t in StatusOf(log) && StatusOf(log)[t] == Active ==> forall i :: 0 <= i < |log| && log[i].txn == t ==> !IsEnd(log[i])
  {
    if log != [] {
      var before, r := log[..|log| - 1], log[|log| - 1];
      CommittedIsWinner(before, t);
      WinnersStep(log);
      assert forall i :: 0 <= i < |log| ==> log[i] == if i < |before| then before[i] else r;
    }
  }

  lemma WinnersStep(log: seq<Record>)
    requires log != []
    ensures Winners(log) == Winners(log[..|log| - 1]) + if log[|log| - 1].kind == COMMIT then {log[|log| - 1].txn} else {}
  {
    var before, r := log[..|log| - 1], log[|log| - 1];
    forall t | t in Winners(before) ensures t in Winners(log) {
      var i :| 0 <= i < |before| && before[i].kind == COMMIT && before[i].txn == t;
      assert log[i] == before[i];
    }
    forall t | t in Winners(log) ensures t in Winners(before) || (r.kind == COMMIT && t == r.txn) {
      var i :| 0 <= i < |log| && log[i].kind == COMMIT && log[i].txn == t;
      assert i < |before| ==> before[i] == log[i];
    }
  }

  /** Nothing above the limit, and entries below `n` decide what is applied below `n`. */
  lemma {:induction false} ApplySame(m: PageMap, p: map<nat, PageMap>, q: map<nat, PageMap>, status: map<nat, Status>, n: nat)
    requires forall t :: t < n ==> (t in p <==> t in q) && (t in p ==> p[t] == q[t])
    ensures ApplyBelow(m, p, status, n) == ApplyBelow(m, q, status, n)
  {
    if n > 0 {
      ApplySame(m, p, q, status, n - 1);
    }
  }

  lemma {:induction false} ApplyBeyond(m: PageMap, p: map<nat, PageMap>, status: map<nat, Status>, n: nat, k: nat)
    requires n <= k && forall t :: t in p ==> t < n
    ensures ApplyBelow(m, p, status, k) == ApplyBelow(m, p, status, n)
  {
    if n < k {
      ApplyBeyond(m, p, status, n, k - 1);
    }
  }

  /** One more record. */
  lemma PendingStep(before: seq<Record>, r: Record)
    ensures var p, log := Pending(before), before + [r];
      var mine: PageMap := if r.txn in p then p[r.txn] else map[];
      Pending(log) == if r.kind == BEGIN then p[r.txn := mine]
                      else if r.kind == PAGE_WRITE then p[r.txn := mine[r.page := r.data]] else p
    ensures var s, log := StatusOf(before), before + [r];
      StatusOf(log) == if r.kind == BEGIN then s[r.txn := Active] else if r.kind == COMMIT then s[r.txn := Committed]
                       else if r.kind == ROLLBACK then s[r.txn := RolledBack] else s
    ensures var n, log := PendingLimit(before), before + [r];
      PendingLimit(log) == if (r.kind == BEGIN || r.kind == PAGE_WRITE) && r.txn >= n then r.txn + 1 else n
  {
    assert (before + [r])[..|before|] == before;
  }

  /** With no entry above `t`, the transaction `t` is applied last. */
  lemma HighestApplied(m: PageMap, p: map<nat, PageMap>, status: map<nat, Status>, t: nat, n: nat)
    requires t < n && forall u :: u in p ==> u <= t
    ensures ApplyBelow(m, p, status, n) ==
      var below := ApplyBelow(m, p, status, t);
      if t in p && t in status && status[t] == Committed then below + p[t] else below
  {
    ApplyBeyond(m, p, status, t + 1, n);
  }

  /** The transactions replay takes for committed. */
  function CommittedIds(log: seq<Record>): set<nat> {
    set t | t in StatusOf(log) && StatusOf(log)[t] == Committed
  }

  predicate WritesTo(r: Record, page: nat, ids: set<nat>) {
    r.kind == PAGE_WRITE && r.page == page && r.txn in ids
  }

  /** The last write to the page by one of these transactions; -1 if there is none. */
  function LastWrite(log: seq<Record>, page: nat, ids: set<nat>): (i: int)
    ensures -1 <= i < |log|
    ensures i >= 0 ==> WritesTo(log[i], page, ids)
    ensures forall j :: i < j < |log| ==> !WritesTo(log[j], page, ids)
  {
    if log == [] then -1
    else if WritesTo(log[|log| - 1], page, ids) then |log| - 1
    else LastWrite(log[..|log| - 1], page, ids)
  }

  /** The last committed write to a page belongs to the highest committed id that writes it. */
  ghost predicate HighestWritesLast(log: seq<Record>) {
    forall page, i :: 0 <= i < |log| && WritesTo(log[i], page, CommittedIds(log)) ==>
      log[i].txn <= log[LastWrite(log, page, CommittedIds(log))].txn
  }

  /** What a page holds when write `i` of the log, if any, was the last to it. */
  ghost predicate HoldsWrite(m: PageMap, now: PageMap, log: seq<Record>, page: nat, i: int)
    requires -1 <= i < |log|
  {
    if i >= 0 then page in now && now[page] == log[i].data
    else (page in now <==> page in m) && (page in now ==> now[page] == m[page])
  }

  lemma {:induction false} RedoAt(m: PageMap, log: seq<Record>, ids: set<nat>, page: nat)
    ensures HoldsWrite(m, Redo(m, log, ids), log, page, LastWrite(log, page, ids))
  {
    if log != [] {
      RedoAt(m, log[..|log| - 1], ids, page);
    }
  }

  lemma {:induction false} PendingAt(log: seq<Record>, t: nat, page: nat)
    ensures var i, p := LastWrite(log, page, {t}), Pending(log);
      && (i >= 0 <==> t in p && page in p[t])
      && (i >= 0 ==> p[t][page] == log[i].data)
  {
    if log != [] {
      PendingAt(log[..|log| - 1], t, page);
    }
  }

  lemma {:induction false} ApplyNone(m: PageMap, pending: map<nat, PageMap>, status: map<nat, Status>, n: nat, page: nat)
    requires forall u :: u < n && u in pending && u in status && status[u] == Committed ==> page !in pending[u]
    ensures var now := ApplyBelow(m, pending, status, n);
      (page in now <==> page in m) && (page in now ==> now[page] == m[page])
  {
    if n > 0 {
      ApplyNone(m, pending, status, n - 1, page);
    }
  }

  /** The highest committed transaction that has the page decides. */
  lemma {:induction false} ApplyAt(m: PageMap, pending: map<nat, PageMap>, status: map<nat, Status>, n: nat, t: nat, page: nat)
    requires t < n && t in pending && t in status && status[t] == Committed && page in pending[t]
    requires forall u :: t < u < n && u in pending && u in status && status[u] == Committed ==> page !in pending[u]
    ensures page in ApplyBelow(m, pending, status, n) && ApplyBelow(m, pending, status, n)[page] == pending[t][page]
  {
    if t < n - 1 {
      ApplyAt(m, pending, status, n - 1, t, page);
    }
  }

  /** The highest transaction of `ids` below `n` that writes the page; -1 if there is none. */
  function TopWriter(log: seq<Record>, page: nat, ids: set<nat>, n: nat): (t: int)
    ensures -1 <= t < n && (t >= 0 ==> t in ids && LastWrite(log, page, {t}) >= 0)
    ensures forall u :: t < u < n && u in ids ==> LastWrite(log, page, {u}) < 0
  {
    if n == 0 then -1
    else if n - 1 in ids && LastWrite(log, page, {n - 1}) >= 0 then n - 1
    else TopWriter(log, page, ids, n - 1)
  }

  /** Replay leaves in a page the last write of the highest committed transaction that has one. */
  lemma ReplayAt(m: PageMap, log: seq<Record>, page: nat)
    ensures var t := TopWriter(log, page, CommittedIds(log), PendingLimit(log));
      HoldsWrite(m, Replayed(m, log), log, page, if t >= 0 then LastWrite(log, page, {t}) else -1)
  {
    var p, s, n := Pending(log), StatusOf(log), PendingLimit(log);
    var t := TopWriter(log, page, CommittedIds(log), n);
    forall u: nat ensures (u in p && page in p[u]) <==> LastWrite(log, page, {u}) >= 0 {
      PendingAt(log, u, page);
    }
    hide Pending, StatusOf, LastWrite, TopWriter, ApplyBelow, PendingLimit;
    if t >= 0 {
      PendingAt(log, t, page);
      ApplyAt(m, p, s, n, t, page);
    } else {
      ApplyNone(m, p, s, n, page);
    }
  }

  /** A COMMIT of `t`, and no BEGIN or ROLLBACK of `t` behind it. */
  predicate CommittedAt(log: seq<Record>, t: nat, i: nat) {
    && i < |log| && log[i].kind == COMMIT && log[i].txn == t
    && forall j :: i < j < |log| && log[j].txn == t ==> log[j].kind != BEGIN && log[j].kind != ROLLBACK
  }

  lemma {:induction false} CommittedMeans(log: seq<Record>, t: nat)
    ensures IsCommitted(log, t) <==> exists i: nat :: CommittedAt(log, t, i)
  {
    if log != [] {
      var k := |log| - 1;
      var before := log[..k];
      CommittedMeans(before, t);
      if log[k].txn == t && log[k].kind == COMMIT {
        assert CommittedAt(log, t, k);
      } else if i: nat :| CommittedAt(before, t, i) {
        assert !(log[k].txn == t && (log[k].kind == BEGIN || log[k].kind == ROLLBACK)) ==> CommittedAt(log, t, i);
      }
      if i: nat :| CommittedAt(log, t, i) {
        assert i < k ==> CommittedAt(before, t, i);
      }
    }
  }

  /** Record `i` is a write to the page by a committed transaction. */
  ghost predicate CommittedWrite(log: seq<Record>, page: nat, i: nat) {
    && i < |log| && log[i].kind == PAGE_WRITE && log[i].page == page
    && exists k: nat :: CommittedAt(log, log[i].txn, k)
  }

  /** ... and none of a higher transaction, or of the same one further on, writes it. */
  ghost predicate WinningWrite(log: seq<Record>, page: nat, i: nat) {
    && CommittedWrite(log, page, i)
    && forall j: nat :: CommittedWrite(log, page, j) ==> log[j].txn < log[i].txn || (log[j].txn == log[i].txn && j <= i)
  }

  lemma CommittedWriteIs(log: seq<Record>, page: nat, i: nat)
    ensures CommittedWrite(log, page, i) <==> i < |log| && WritesTo(log[i], page, CommittedIds(log))
  {
    hide StatusOf;
    if i < |log| {
      CommittedMeans(log, log[i].txn);
    }
  }

  /** What replay leaves in a page, told from the records: the winning write, or what was there. */
  lemma ReplayedPage(m: PageMap, log: seq<Record>, page: nat, i: nat)
    ensures var now := Replayed(m, log);
      && (WinningWrite(log, page, i) ==> page in now && now[page] == log[i].data)
      && ((forall j: nat :: !CommittedWrite(log, page, j)) ==> (page in now <==> page in m) && (page in now ==> now[page] == m[page]))
  {
    hide Replayed, CommittedWrite, StatusOf, CommittedIds, TopWriter, LastWrite, PendingLimit;
    ReplayAt(m, log, page);
    var t := TopWriter(log, page, CommittedIds(log), PendingLimit(log));
    if WinningWrite(log, page, i) {
      WriterHasTop(log, page, i);
      assert t >= 0;
      TopIsWinner(log, page, i, t);
    }
    if forall j: nat :: !CommittedWrite(log, page, j) {
      NoTop(log, page);
      assert HoldsWrite(m, Replayed(m, log), log, page, -1);
    }
  }

  lemma NoTop(log: seq<Record>, page: nat)
    requires forall j: nat :: !CommittedWrite(log, page, j)
    ensures TopWriter(log, page, CommittedIds(log), PendingLimit(log)) < 0
  {
    hide StatusOf, CommittedIds, TopWriter, LastWrite, PendingLimit, CommittedWrite;
    var t := TopWriter(log, page, CommittedIds(log), PendingLimit(log));
    if t >= 0 {
      CommittedWriteIs(log, page, LastWrite(log, page, {t}));
    }
  }

  lemma WriterHasTop(log: seq<Record>, page: nat, i: nat)
    requires CommittedWrite(log, page, i)
    ensures 0 <= log[i].txn <= TopWriter(log, page, CommittedIds(log), PendingLimit(log))
  {
    hide CommittedWrite, StatusOf, CommittedIds, TopWriter, LastWrite, PendingLimit;
    CommittedWriteIs(log, page, i);
    WritersArePending(log, i);
    assert WritesTo(log[i], page, {log[i].txn});
  }

  lemma TopIsWinner(log: seq<Record>, page: nat, i: nat, t: nat)
    requires t == TopWriter(log, page, CommittedIds(log), PendingLimit(log)) && WinningWrite(log, page, i)
    ensures LastWrite(log, page, {t}) == i
  {
    hide CommittedWrite, StatusOf, CommittedIds, TopWriter, LastWrite, PendingLimit;
    var k := LastWrite(log, page, {t});
    CommittedWriteIs(log, page, i);
    CommittedWriteIs(log, page, k);
    WriterHasTop(log, page, i);
    assert WritesTo(log[i], page, {log[i].txn});
    assert CommittedWrite(log, page, k);
  }

  lemma WritersArePending(log: seq<Record>, i: nat)
    requires i < |log| && log[i].kind == PAGE_WRITE
    ensures log[i].txn < PendingLimit(log)
  {
    WritesBelowLimit(log);
    assert log[i] in log;
  }

  /** The writes of one transaction are among those of all. */
  lemma OneOfAll(log: seq<Record>, page: nat, ids: set<nat>, t: nat)
    requires t in ids
    ensures LastWrite(log, page, {t}) <= LastWrite(log, page, ids)
    ensures LastWrite(log, page, ids) >= 0 && log[LastWrite(log, page, ids)].txn == t ==>
              LastWrite(log, page, {t}) == LastWrite(log, page, ids)
  {
    hide LastWrite;
    var i, j := LastWrite(log, page, {t}), LastWrite(log, page, ids);
    if i >= 0 {
      assert WritesTo(log[i], page, ids);
    }
    if j >= 0 && log[j].txn == t {
      assert WritesTo(log[j], page, {t});
    }
  }

  /** The top writer is the last writer, page by page. */
  lemma TopIsLast(log: seq<Record>, page: nat)
    requires HighestWritesLast(log)
    ensures var ids := CommittedIds(log);
      var t := TopWriter(log, page, ids, PendingLimit(log));
      (if t >= 0 then LastWrite(log, page, {t}) else -1) == LastWrite(log, page, ids)
  {
    hide LastWrite, TopWriter, CommittedIds, PendingLimit;
    var ids := CommittedIds(log);
    var t, last := TopWriter(log, page, ids, PendingLimit(log)), LastWrite(log, page, ids);
    if last >= 0 {
      WritersArePending(log, last);
      OneOfAll(log, page, ids, log[last].txn);
    }
    if t >= 0 {
      OneOfAll(log, page, ids, t);
      assert WritesTo(log[LastWrite(log, page, {t})], page, ids);
    }
  }

  /** Page by page: replay by sorted transaction ids is redo in log order. */
  lemma HighestLastIsRedo(m: PageMap, log: seq<Record>)
    requires HighestWritesLast(log)
    ensures Replayed(m, log) == Redo(m, log, CommittedIds(log))
  {
    var a, b := Replayed(m, log), Redo(m, log, CommittedIds(log));
    hide Replayed, Redo, CommittedIds, LastWrite, TopWriter, HighestWritesLast;
    forall page: nat ensures (page in a <==> page in b) && (page in a ==> a[page] == b[page]) {
      ReplayAt(m, log, page);
      RedoAt(m, log, CommittedIds(log), page);
      TopIsLast(log, page);
    }
    assert a.Keys == b.Keys;
  }

  /** The same records up to the bytes they write. */
  predicate SameButData(a: seq<Record>, b: seq<Record>) {
    |a| == |b| && forall i :: 0 <= i < |a| ==> b[i] == a[i].(data := b[i].data)
  }

  lemma {:induction false} SameStatus(a: seq<Record>, b: seq<Record>)
    requires SameButData(a, b)
    ensures StatusOf(a) == StatusOf(b) && PendingLimit(a) == PendingLimit(b)
    decreases |a|
  {
    if a != [] {
      SameStatus(a[..|a| - 1], b[..|b| - 1]);
    }
  }

  lemma {:induction false} SameLastWrite(a: seq<Record>, b: seq<Record>, page: nat, ids: set<nat>)
    requires SameButData(a, b)
    ensures LastWrite(a, page, ids) == LastWrite(b, page, ids)
    decreases |a|
  {
    if a != [] {
      SameLastWrite(a[..|a| - 1], b[..|b| - 1], page, ids);
    }
  }

  lemma SameOrder(a: seq<Record>, b: seq<Record>)
    requires SameButData(a, b) && HighestWritesLast(a)
    ensures HighestWritesLast(b)
  {
    hide LastWrite, StatusOf, PendingLimit;
    SameStatus(a, b);
    assert CommittedIds(a) == CommittedIds(b);
    forall page, i | 0 <= i < |b| && WritesTo(b[i], page, CommittedIds(b))
      ensures b[i].txn <= b[LastWrite(b, page, CommittedIds(b))].txn
    {
      SameLastWrite(a, b, page, CommittedIds(b));
      assert WritesTo(a[i], page, CommittedIds(a));
    }
  }

  /** The log with one write told from all others by its bytes. */
  function Marked(log: seq<Record>, k: int): (r: seq<Record>)
    ensures SameButData(log, r) && forall i :: 0 <= i < |log| ==> r[i].data == if i == k then [1] else [0]
  {
    seq(|log|, i requires 0 <= i < |log| => log[i].(data := if i == k then [1] else [0]))
  }

  /** Where a lower id writes last, the two leave different writes in the page. */
  lemma LowerWritesLast(log: seq<Record>, page: nat, i: nat)
    requires i < |log| && WritesTo(log[i], page, CommittedIds(log))
    requires log[i].txn > log[LastWrite(log, page, CommittedIds(log))].txn
    ensures var marked := Marked(log, LastWrite(log, page, CommittedIds(log)));
      Replayed(map[], marked) != Redo(map[], marked, CommittedIds(marked))
  {
    hide LastWrite, TopWriter, StatusOf, Replayed, Redo, Marked, PendingLimit;
    var ids, last := CommittedIds(log), LastWrite(log, page, CommittedIds(log));
    var marked := Marked(log, last);
    SameStatus(log, marked);
    assert CommittedIds(marked) == ids;
    SameLastWrite(log, marked, page, ids);
    ReplayAt(map[], marked, page);
    RedoAt(map[], marked, ids, page);
    WritersArePending(marked, i);
    assert WritesTo(marked[i], page, {marked[i].txn});
  }

  /** Replay by sorted transaction ids is redo in log order, whatever bytes are written over
      whatever pages, exactly when the last committed write to each page belongs to the highest
      committed id that writes it. */
  lemma OrderMatters(log: seq<Record>)
    ensures HighestWritesLast(log) <==>
      forall other, m: PageMap :: SameButData(log, other) ==> Replayed(m, other) == Redo(m, other, CommittedIds(other))
  {
    hide HighestWritesLast, Replayed, Redo, CommittedIds, LastWrite;
    if HighestWritesLast(log) {
      forall other, m: PageMap | SameButData(log, other) ensures Replayed(m, other) == Redo(m, other, CommittedIds(other)) {
        SameOrder(log, other);
        HighestLastIsRedo(m, other);
      }
    } else {
      var page, i := LowerAfterHigher(log);
      LowerWritesLast(log, page, i);
    }
  }

  lemma LowerAfterHigher(log: seq<Record>) returns (page: nat, i: nat)
    requires !HighestWritesLast(log)
    ensures i < |log| && WritesTo(log[i], page, CommittedIds(log))
    ensures log[i].txn > log[LastWrite(log, page, CommittedIds(log))].txn
  {
    page, i :| i < |log| && WritesTo(log[i], page, CommittedIds(log))
               && log[i].txn > log[LastWrite(log, page, CommittedIds(log))].txn;
  }

  /** In particular when ids do not decrease and each transaction ends at most once. */
  lemma ReplayIsRedo(m: PageMap, log: seq<Record>)
    requires IdsDoNotDecrease(log) && EndsOnce(log)
    ensures Replayed(m, log) == Redo(m, log, Winners(log))
  {
    hide Replayed, Redo, StatusOf, LastWrite;
    forall t: nat ensures t in Winners(log) <==> t in CommittedIds(log) {
      CommittedIsWinner(log, t);
    }
    assert Winners(log) == CommittedIds(log);
    HighestLastIsRedo(m, log);
  }

  /** And when one transaction alone writes, whatever other records there are. */
  lemma OneWriterIsRedo(m: PageMap, log: seq<Record>, t: nat)
    requires WritesOnlyOf(log, t)
    ensures HighestWritesLast(log) && Replayed(m, log) == Redo(m, log, CommittedIds(log))
  {
    HighestLastIsRedo(m, log);
  }

  /** Two transactions that write page 7, the higher id first. */
  function UnorderedLog(): seq<Record> {
    [Record(2, PAGE_WRITE, 7, [1]), Record(2, COMMIT, 0, [])] + [Record(1, PAGE_WRITE, 7, [2]), Record(1, COMMIT, 0, [])]
  }

  /** There replay brings the earlier write back. */
  lemma EarlierWriteWins()
    ensures EndsOnce(UnorderedLog()) && !HighestWritesLast(UnorderedLog())
    ensures Replayed(map[], UnorderedLog()) == map[7 := [1]]
    ensures Redo(map[], UnorderedLog(), Winners(UnorderedLog())) == map[7 := [2]]
  {
    var l4 := UnorderedLog();
    var l1, l2, l3 := l4[..1], l4[..2], l4[..3];
    assert l1[..0] == [] && l2[..1] == l1 && l3[..2] == l2 && l4[..3] == l3;
    assert l1 == [l4[0]] && l2 == l1 + [l4[1]] && l3 == l2 + [l4[2]] && l4 == l3 + [l4[3]];
    UnorderedReplay(l1, l2, l3, l4);
    hide Replayed, Winners, EndsOnce;
    var w := Winners(l4);
    UnorderedWinners(l4);
    assert Redo(map[], l1, w) == map[7 := [1]];
    assert Redo(map[], l2, w) == map[7 := [1]];
    assert Redo(map[], l3, w) == map[7 := [2]];
    UnorderedIsNotHighestLast(l4);
  }

  lemma UnorderedIsNotHighestLast(l4: seq<Record>)
    requires l4 == UnorderedLog() && EndsOnce(l4) && 1 in Winners(l4) && 2 in Winners(l4)
    ensures !HighestWritesLast(l4)
  {
    hide StatusOf, EndsOnce, Winners;
    CommittedIsWinner(l4, 1);
    CommittedIsWinner(l4, 2);
    var ids := CommittedIds(l4);
    assert WritesTo(l4[0], 7, ids) && WritesTo(l4[2], 7, ids);
    assert LastWrite(l4, 7, ids) == 2;
  }

  lemma UnorderedWinners(l4: seq<Record>)
    requires l4 == UnorderedLog()
    ensures EndsOnce(l4) && 1 in Winners(l4) && 2 in Winners(l4)
  {
    assert l4[1].kind == COMMIT && l4[3].kind == COMMIT;
  }

  lemma UnorderedReplay(l1: seq<Record>, l2: seq<Record>, l3: seq<Record>, l4: seq<Record>)
    requires l1 == [Record(2, PAGE_WRITE, 7, [1])] && l2 == l1 + [Record(2, COMMIT, 0, [])]
    requires l3 == l2 + [Record(1, PAGE_WRITE, 7, [2])] && l4 == l3 + [Record(1, COMMIT, 0, [])]
    ensures Replayed(map[], l4) == map[7 := [1]]
  {
    assert l1 == [] + l1;
    PendingStep([], l1[0]);
    PendingStep(l1, Record(2, COMMIT, 0, []));
    PendingStep(l2, Record(1, PAGE_WRITE, 7, [2]));
    PendingStep(l3, Record(1, COMMIT, 0, []));
    var p, s := Pending(l4), StatusOf(l4);
    assert PendingLimit(l4) == 3 && p[2] == map[7 := [1]] && p[1] == map[7 := [2]] && 0 !in p;
    assert s[2] == Committed && s[1] == Committed;
    assert ApplyBelow(map[], p, s, 1) == map[];
    assert ApplyBelow(map[], p, s, 2) == map[7 := [2]];
    assert ApplyBelow(map[], p, s, 3) == map[7 := [1]];
  }

  // ---- which transactions a replay applies ----------------------------------

  /** Only transaction `t` has writes. */
  predicate WritesOnlyOf(log: seq<Record>, t: nat) {
    forall i :: 0 <= i < |log| && (log[i].kind == PAGE_WRITE || log[i].kind == BEGIN) ==> log[i].txn == t
  }

  predicate NoWrites(log: seq<Record>) {
    forall i :: 0 <= i < |log| ==> log[i].kind != PAGE_WRITE && log[i].kind != BEGIN
  }

  lemma {:induction false} PendingOfNoWrites(log: seq<Record>)
    requires NoWrites(log)
    ensures Pending(log) == map[] && PendingLimit(log) == 1 && Overlay(log) == map[]
  {
    if log != [] {
      PendingOfNoWrites(log[..|log| - 1]);
    }
    ApplyBeyond(map[], Pending(log), StatusOf(log), 0, PendingLimit(log));
  }

  lemma {:induction false} PendingOfOne(log: seq<Record>, t: nat)
    requires WritesOnlyOf(log, t)
    ensures forall u :: u in Pending(log) ==> u == t
  {
    if log != [] {
      PendingOfOne(log[..|log| - 1], t);
    }
  }

  /** A log in which only `t` writes replays the writes of `t`, or nothing. */
  lemma OverlayOfOne(log: seq<Record>, t: nat)
    requires WritesOnlyOf(log, t)
    ensures Overlay(log) == if IsCommitted(log, t) && t in Pending(log) then Pending(log)[t] else map[]
  {
    PendingOfOne(log, t);
    var p, s := Pending(log), StatusOf(log);
    if t in p {
      PendingBelow(log);
      HighestApplied(map[], p, s, t, PendingLimit(log));
      ApplySame(map[], p, map[], s, t);
      ApplyBeyond(map[], map[], s, 0, t);
      assert map[] + p[t] == p[t];
    } else {
      ApplyBeyond(map[], p, s, 0, PendingLimit(log));
    }
  }

  /** Records of an unfinished transaction. */
  predicate Unfinished(records: seq<Record>, t: nat) {
    forall i :: 0 <= i < |records| ==> records[i].txn == t && !IsEnd(records[i])
  }

  lemma {:induction false} StillNotCommitted(log: seq<Record>, records: seq<Record>, t: nat)
    requires Unfinished(records, t) && !IsCommitted(log, t)
    ensures !IsCommitted(log + records, t)
  {
    if records == [] {
      assert log + records == log;
    } else {
      var before, r := records[..|records| - 1], records[|records| - 1];
      StillNotCommitted(log, before, t);
      PendingStep(log + before, r);
      assert log + before + [r] == log + records;
    }
  }

  lemma WritesAdded(log: seq<Record>, records: seq<Record>, t: nat)
    requires NoWrites(log) && Unfinished(records, t)
    ensures WritesOnlyOf(log + records, t)
  {
  }

  /** What a transaction that never committed has logged is dropped whatever it is, exactly
      when its id is not that of a COMMIT already in the log. */
  lemma DroppedUnlessIdReused(base: PageMap, log: seq<Record>, t: nat)
    requires NoWrites(log)
    ensures !IsCommitted(log, t) <==> forall records :: Unfinished(records, t) ==> Replayed(base, log + records) == base
  {
    hide Replayed, IsCommitted, Overlay, WritesOnlyOf;
    if IsCommitted(log, t) {
      var data: Bytes := if 2 in base && base[2] == [] then [0] else [];
      OneWrite(base, log, t, 2, data);
      assert Unfinished([Record(t, PAGE_WRITE, 2, data)], t);
    } else {
      forall records | Unfinished(records, t) ensures Replayed(base, log + records) == base {
        StillNotCommitted(log, records, t);
        WritesAdded(log, records, t);
        OverlayOfOne(log + records, t);
        ReplayIsOverlay(base, log + records);
        assert base + map[] == base;
      }
    }
  }

  lemma OneWrite(base: PageMap, log: seq<Record>, t: nat, page: nat, data: Bytes)
    requires NoWrites(log) && IsCommitted(log, t)
    ensures Replayed(base, log + [Record(t, PAGE_WRITE, page, data)]) == base[page := data]
  {
    var longer := log + [Record(t, PAGE_WRITE, page, data)];
    assert longer[..|log|] == log;
    PendingOfNoWrites(log);
    OverlayOfOne(longer, t);
    ReplayIsOverlay(base, longer);
    assert Pending(longer) == map[t := map[page := data]];
  }

  /** Such a COMMIT can outlive a recovery: of a transaction that wrote nothing it is kept. */
  lemma EmptyCommitSurvivesRecovery(t: nat)
    requires t >= 1
    ensures var log := [Record(t, COMMIT, 0, [])];
      AtLeast(log, PendingLimit(log)) == log && IsCommitted(log, t)
  {
    var log := [Record(t, COMMIT, 0, [])];
    assert log[..0] == [];
    assert AtLeast(log[..0], 1) == [];
  }

  /** What truncation keeps. */
  lemma {:induction false} AtLeastElements(log: seq<Record>, n: nat)
    ensures forall r :: r in AtLeast(log, n) <==> r in log && r.txn >= n
  {
    if log != [] {
      AtLeastElements(log[..|log| - 1], n);
      assert log == log[..|log| - 1] + [log[|log| - 1]];
    }
  }

  lemma {:induction false} WritesBelowLimit(log: seq<Record>)
    ensures forall r :: r in log && (r.kind == PAGE_WRITE || r.kind == BEGIN) ==> r.txn < PendingLimit(log)
  {
    if log != [] {
      WritesBelowLimit(log[..|log| - 1]);
      assert log == log[..|log| - 1] + [log[|log| - 1]];
    }
  }

  /** Truncating above every writer leaves no writes. */
  lemma TruncatedHasNoWrites(log: seq<Record>, n: nat)
    requires forall r :: r in log && (r.kind == PAGE_WRITE || r.kind == BEGIN) ==> r.txn < n
    ensures NoWrites(AtLeast(log, n))
  {
    AtLeastElements(log, n);
    var rest := AtLeast(log, n);
    assert forall i :: 0 <= i < |rest| ==> rest[i] in rest;
  }

  /** Truncating before `id + 1` drops the COMMIT record of `id` too, and everything once ids
      only grow: within a session an id never meets its own COMMIT in the log. */
  lemma OwnCommitIsDropped(log: seq<Record>, id: nat)
    ensures var rest := AtLeast(log + [Record(id, COMMIT, 0, [])], id + 1);
      && (forall r :: r in rest ==> r in log && r.txn > id)
      && ((forall r :: r in log ==> r.txn <= id) ==> rest == [])
  {
    AtLeastElements(log + [Record(id, COMMIT, 0, [])], id + 1);
    var rest := AtLeast(log + [Record(id, COMMIT, 0, [])], id + 1);
    assert rest != [] ==> rest[0] in rest;
  }
}
