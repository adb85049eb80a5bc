/** Where the rows of a table go: the first page of its list with room, else a new one
    (src/tinydb/executor.py, src/tinydb/slotted_page.py). */
module TableSpace {
  import opened ByteStrings
  import opened Wrappers
  import opened SlottedPages
  import Data = TablePages

  /** The pages of a table in list order, as users see them. */
  type Chain = seq<PageView>

  function ChainOf(ids: seq<nat>, views: map<nat, PageView>): (r: Chain)
    ensures |r| == |ids| && forall i :: 0 <= i < |ids| && ids[i] in views ==> r[i] == views[ids[i]]
  {
    seq(|ids|, i requires 0 <= i < |ids| => if ids[i] in views then views[ids[i]] else Data.EmptyPage())
  }

  lemma ChainWritten(ids: seq<nat>, views: map<nat, PageView>, i: nat, v: PageView)
    requires Data.DistinctIds(ids) && i < |ids| && ids[i] in views
    ensures ChainOf(ids, views[ids[i] := v]) == ChainOf(ids, views)[i := v]
  {
  }

  lemma ChainGrown(ids: seq<nat>, views: map<nat, PageView>, pid: nat, v: PageView)
    requires pid !in ids
    ensures ChainOf(ids + [pid], views[pid := v]) == ChainOf(ids, views) + [v]
  {
    var more := ids + [pid];
    forall i | 0 <= i < |more| ensures ChainOf(more, views[pid := v])[i] == (ChainOf(ids, views) + [v])[i] {
      assert i < |ids| ==> more[i] == ids[i] && ids[i] in ids;
    }
  }

  /** The first page that takes a row of `n` bytes; the number of pages if none does. */
  function FirstWithRoom(chain: Chain, n: nat): (i: nat)
    ensures i <= |chain|
    ensures i < |chain| ==> SlotFor(chain[i], n).Some?
    ensures forall j :: 0 <= j < i ==> SlotFor(chain[j], n).None?
  {
    if chain == [] then 0
    else if SlotFor(chain[0], n).Some? then 0
    else 1 + FirstWithRoom(chain[1..], n)
  }

  /** The page with the row, if that leaves its directory alone. */
  function Roomy(v: PageView): Option<PageView> {
    if v.space >= 0 then Some(v) else None
  }

  /** One row more. `None` when it is too long for a page, or the first page that takes it has no
      room for it: the guard forgets the directory entry, and a tombstone is taken over unasked. */
  function Placed(chain: Chain, row: Bytes): Option<Chain> {
    if |row| > MAX_INLINE_PAYLOAD then None else
      var i := FirstWithRoom(chain, |row|);
      if i == |chain| then
        match Roomy(Put(Data.EmptyPage(), 0, row))
        case None => None
        case Some(v) => Some(chain + [v])
      else
        match Roomy(Put(chain[i], SlotFor(chain[i], |row|).value, row))
        case None => None
        case Some(v) => Some(chain[i := v])
  }

  lemma FirstIs(chain: Chain, n: nat, i: nat)
    requires i <= |chain| && forall j :: 0 <= j < i ==> SlotFor(chain[j], n).None?
    requires i < |chain| ==> SlotFor(chain[i], n).Some?
    ensures FirstWithRoom(chain, n) == i
  {
  }

  /** An empty page takes any row in its first slot that is no longer than the limit. */
  lemma EmptyTakes(n: nat)
    requires n <= MAX_INLINE_PAYLOAD
    ensures SlotFor(Data.EmptyPage(), n) == Some(0)
  {
  }

  /** A row placed leaves every other row where it is. */
  ghost predicate RowsStay(was: Chain, now: Chain) {
    && |was| <= |now|
    && forall i, s :: 0 <= i < |was| && 0 <= s < |was[i].cells| && was[i].cells[s].row.Some? ==>
         s < |now[i].cells| && now[i].cells[s] == was[i].cells[s]
  }

  lemma PlacedSpares(chain: Chain, row: Bytes)
    requires Placed(chain, row).Some?
    ensures RowsStay(chain, Placed(chain, row).value)
  {
    var i := FirstWithRoom(chain, |row|);
    if i < |chain| {
      var slot := SlotFor(chain[i], |row|).value;
      assert slot < |chain[i].cells| ==> chain[i].cells[slot].row.None?;
    }
  }

  lemma NotPlaced(ids: seq<nat>, views: map<nat, PageView>, row: Bytes)
    requires |row| > MAX_INLINE_PAYLOAD
    ensures Placed(ChainOf(ids, views), row).None?
  {
  }

  /** A row placed on page `i`, the first that takes it. */
  lemma PlacedOn(ids: seq<nat>, views: map<nat, PageView>, row: Bytes, i: nat)
    requires Data.DistinctIds(ids) && i < |ids| && ids[i] in views && |row| <= MAX_INLINE_PAYLOAD
    requires forall j :: 0 <= j < i ==> SlotFor(ChainOf(ids, views)[j], |row|).None?
    requires SlotFor(views[ids[i]], |row|).Some?
    ensures var v := Put(views[ids[i]], SlotFor(views[ids[i]], |row|).value, row);
      Placed(ChainOf(ids, views), row) == if v.space >= 0 then Some(ChainOf(ids, views[ids[i] := v])) else None
  {
    hide Put, SlotFor, Data.DistinctIds;
    FirstIs(ChainOf(ids, views), |row|, i);
    ChainWritten(ids, views, i, Put(views[ids[i]], SlotFor(views[ids[i]], |row|).value, row));
  }

  /** A row placed on a new page. */
  lemma PlacedNew(ids: seq<nat>, views: map<nat, PageView>, row: Bytes, pid: nat)
    requires pid !in ids && |row| <= MAX_INLINE_PAYLOAD
    requires forall j :: 0 <= j < |ids| ==> SlotFor(ChainOf(ids, views)[j], |row|).None?
    ensures SlotFor(Data.EmptyPage(), |row|) == Some(0)
    ensures var v := Put(Data.EmptyPage(), 0, row);
      Placed(ChainOf(ids, views), row) == if v.space >= 0 then Some(ChainOf(ids + [pid], views[pid := v])) else None
  {
    EmptyTakes(|row|);
    hide Put, SlotFor, Data.EmptyPage;
    FirstIs(ChainOf(ids, views), |row|, |ids|);
    ChainGrown(ids, views, pid, Put(Data.EmptyPage(), 0, row));
  }

  // ---- rows gone ------------------------------------------------------------

  function SweptCell(cell: Cell, chosen: Bytes -> bool): Cell {
    if cell.row.Some? && chosen(cell.row.value) then Cell(None, cell.room) else cell
  }

  /** The page with the chosen rows turned into tombstones. */
  function SweptPage(v: PageView, chosen: Bytes -> bool): (r: PageView)
    ensures r.space == v.space && |r.cells| == |v.cells|
    ensures forall s :: 0 <= s < |v.cells| ==> r.cells[s] == SweptCell(v.cells[s], chosen)
  {
    PageView(seq(|v.cells|, s requires 0 <= s < |v.cells| => SweptCell(v.cells[s], chosen)), v.space)
  }

  function Swept(chain: Chain, chosen: Bytes -> bool): (r: Chain)
    ensures |r| == |chain| && forall i :: 0 <= i < |chain| ==> r[i] == SweptPage(chain[i], chosen)
  {
    seq(|chain|, i requires 0 <= i < |chain| => SweptPage(chain[i], chosen))
  }

  // ---- page ids -------------------------------------------------------------

  /** The page ids that `n` steps take at most, each a data page or an index entry, when no index
      is higher than `h` before. */
  function IdCost(h: nat, n: nat): nat {
    if n == 0 then 0 else IdCost(h, n - 1) + h + n + 1
  }

  lemma {:induction false} IdCostSum(h: nat, a: nat, b: nat)
    ensures IdCost(h, a + b) == IdCost(h, a) + IdCost(h + a, b)
  {
    if b > 0 {
      IdCostSum(h, a, b - 1);
    }
  }

  lemma {:induction false} IdCostGrows(h: nat, k: nat, n: nat, m: nat)
    requires h <= k && n <= m
    ensures IdCost(h, n) <= IdCost(k, m)
  {
    if n < m {
      IdCostGrows(h, k, n, m - 1);
    } else if n > 0 {
      IdCostGrows(h, k, n - 1, n - 1);
    }
  }

  lemma {:induction false} IdCostIs(h: nat, n: nat)
    ensures IdCost(h, n) <= n * (h + n + 1)
  {
    if n > 0 {
      IdCostIs(h, n - 1);
      assert n * (h + n + 1) == (n - 1) * (h + n) + (n - 1) + h + n + 1;
    }
  }

  /** What `n` steps have taken: no index is higher than `high` after, `ids` is the next page id. */
  predicate Spent(tall: nat, next: nat, n: nat, high: nat, ids: nat) {
    high <= tall + n && ids <= next + IdCost(tall, n)
  }

  lemma SpentNothing(tall: nat, next: nat, n: nat)
    ensures Spent(tall, next, n, tall, next)
  {
  }

  /** An index entry takes one step. */
  lemma SpentOne(tall: nat, next: nat, high: nat, ids: nat)
    requires high <= tall + 1 && ids <= next + tall + 2
    ensures Spent(tall, next, 1, high, ids)
  {
    assert IdCost(tall, 0) == 0;
  }

  lemma SpentMore(tall: nat, next: nat, a: nat, high: nat, ids: nat, b: nat, highest: nat, most: nat)
    requires Spent(tall, next, a, high, ids) && Spent(high, ids, b, highest, most)
    ensures Spent(tall, next, a + b, highest, most)
  {
    IdCostSum(tall, a, b);
    IdCostGrows(high, tall + a, b, b);
  }

  lemma SpentLess(tall: nat, next: nat, n: nat, m: nat, high: nat, ids: nat)
    requires Spent(tall, next, n, high, ids) && n <= m
    ensures Spent(tall, next, m, high, ids)
  {
    IdCostGrows(tall, tall, n, m);
  }

  /** The page ids `n` steps may use up are less than half of all there are. */
  predicate IdsLast(next: nat, tall: nat, n: nat) {
    2 * (next + IdCost(tall, n)) <= U32_LIMIT
  }

  /** Page ids last for `n` steps when half of them are not used up by so many. */
  lemma EnoughIds(next: nat, tall: nat, n: nat)
    requires 2 * (next + n * (tall + n + 1)) <= U32_LIMIT
    ensures IdsLast(next, tall, n)
  {
    IdCostIs(tall, n);
  }

  lemma IdsRanOut(tall: nat, next: nat, n: nat, high: nat, ids: nat)
    requires Spent(tall, next, n, high, ids) && 2 * ids > U32_LIMIT
    ensures !IdsLast(next, tall, n)
  {
  }

  /** The steps of an INSERT of `rows` rows into `columns` columns. */
  function InsertSteps(columns: nat, rows: nat): nat {
    if rows == 0 then 0 else InsertSteps(columns, rows - 1) + 1 + columns
  }

  lemma {:induction false} StepsGrow(columns: nat, m: nat, n: nat)
    requires m <= n
    ensures InsertSteps(columns, m) <= InsertSteps(columns, n)
  {
    if m < n {
      StepsGrow(columns, m, n - 1);
    }
  }

  /** One row more of `n`. */
  lemma InsertSpent(tall: nat, next: nat, columns: nat, i: nat, n: nat, high: nat, ids: nat, highest: nat, most: nat)
    requires i < n && Spent(tall, next, InsertSteps(columns, i), high, ids) && Spent(high, ids, 1 + columns, highest, most)
    ensures Spent(tall, next, InsertSteps(columns, i + 1), highest, most)
    ensures Spent(tall, next, InsertSteps(columns, n), highest, most)
    ensures 2 * most > U32_LIMIT ==> !IdsLast(next, tall, InsertSteps(columns, n))
  {
    hide Spent, IdsLast;
    SpentMore(tall, next, InsertSteps(columns, i), high, ids, 1 + columns, highest, most);
    StepsGrow(columns, i + 1, n);
    SpentLess(tall, next, InsertSteps(columns, i + 1), InsertSteps(columns, n), highest, most);
    if 2 * most > U32_LIMIT {
      IdsRanOut(tall, next, InsertSteps(columns, n), highest, most);
    }
  }
}
