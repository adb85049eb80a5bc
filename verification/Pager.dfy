/** Page store with a LIFO free list threaded through the freed pages
    (src/tinydb/pager.py, in-memory pages). */
module PageStore {
  import opened ByteStrings

  const PAGE_SIZE: nat := 4096
  /** Page 0 keeps the head of the free list as a u32 at bytes 9..13. */
  const FREE_LIST_HEAD_OFFSET: nat := 9
  const CHAIN_HEAD_PAGE: nat := 1

  /** `ids[i]`, or 0 (the null page id) past the end. */
  function At(ids: seq<nat>, i: nat): nat {
    if i < |ids| then ids[i] else 0
  }

  predicate Distinct<T(==)>(s: seq<T>) {
    forall i, j :: 0 <= i < j < |s| ==> s[i] != s[j]
  }

  /** The u32 links of the pages spell out exactly `ids`, in order, ending in 0. */
  ghost predicate Linked(pages: map<nat, Bytes>, ids: seq<nat>) {
    forall i :: 0 <= i < |ids| ==>
      ids[i] in pages && |pages[ids[i]]| == PAGE_SIZE && FieldAt(pages[ids[i]], 0, 4) == At(ids, i + 1)
  }

  /** Links depend on the linked pages only. */
  lemma LinkedElsewhere(pages: map<nat, Bytes>, after: map<nat, Bytes>, ids: seq<nat>)
    requires Linked(pages, ids)
    requires forall p :: p in ids ==> p in after && after[p] == pages[p]
    ensures Linked(after, ids)
  {
    assert forall i :: 0 <= i < |ids| ==> ids[i] in ids;
  }

  lemma LinkedTail(pages: map<nat, Bytes>, ids: seq<nat>)
    requires Linked(pages, ids) && ids != []
    ensures Linked(pages, ids[1..])
  {
    forall i | 0 <= i < |ids| - 1
      ensures ids[1..][i] in pages && |pages[ids[1..][i]]| == PAGE_SIZE
      ensures FieldAt(pages[ids[1..][i]], 0, 4) == At(ids[1..], i + 1)
    {
      assert ids[1..][i] == ids[i + 1];
    }
  }

  lemma LinkedPush(pages: map<nat, Bytes>, pid: nat, ids: seq<nat>)
    requires Linked(pages, ids) && pid in pages && |pages[pid]| == PAGE_SIZE
    requires FieldAt(pages[pid], 0, 4) == At(ids, 0)
    ensures Linked(pages, [pid] + ids)
  {
    var all := [pid] + ids;
    forall i | 0 <= i < |all|
      ensures all[i] in pages && |pages[all[i]]| == PAGE_SIZE && FieldAt(pages[all[i]], 0, 4) == At(all, i + 1)
    {
      if i > 0 {
        assert all[i] == ids[i - 1];
      }
    }
  }

  /** The free list is the chain of page-0's head pointer: it has no cycle, and with
      the live pages it partitions the ids handed out so far. */
  ghost predicate Consistent(pages: map<nat, Bytes>, nextPageId: nat, live: set<nat>, free: seq<nat>) {
    && (forall p :: p in pages ==> |pages[p]| == PAGE_SIZE && p < nextPageId)
    && 0 in pages
    && 2 <= nextPageId
    && FieldAt(pages[0], FREE_LIST_HEAD_OFFSET, 4) == At(free, 0)
    && Linked(pages, free)
    && Distinct(free)
    && (forall p :: p in live || p in free <==> 2 <= p < nextPageId)
    && (forall p :: p in free ==> p !in live && p < U32_LIMIT)
  }

  lemma PopIsConsistent(pages: map<nat, Bytes>, nextPageId: nat, live: set<nat>, free: seq<nat>,
                        after: map<nat, Bytes>)
    requires Consistent(pages, nextPageId, live, free) && free != []
    requires after.Keys == pages.Keys && 0 in after
    requires forall p :: p in after ==> |after[p]| == PAGE_SIZE
    requires forall p :: p in after && p != 0 && p != free[0] ==> after[p] == pages[p]
    requires FieldAt(after[0], FREE_LIST_HEAD_OFFSET, 4) == At(free, 1)
    ensures Consistent(after, nextPageId, live + {free[0]}, free[1..])
    ensures free[0] >= 2 && free[0] !in live
  {
    var rest := free[1..];
    assert free[0] in free;
    assert forall p :: p in free <==> p == free[0] || p in rest;
    LinkedTail(pages, free);
    LinkedElsewhere(pages, after, rest);
  }

  lemma PushIsConsistent(pages: map<nat, Bytes>, nextPageId: nat, live: set<nat>, free: seq<nat>,
                         pid: nat, after: map<nat, Bytes>)
    requires Consistent(pages, nextPageId, live, free) && pid in live && pid < U32_LIMIT
    requires after.Keys == pages.Keys + {pid}
    requires forall p :: p in after ==> |after[p]| == PAGE_SIZE
    requires forall p :: p in after && p != 0 && p != pid ==> after[p] == pages[p]
    requires FieldAt(after[pid], 0, 4) == At(free, 0)
    requires FieldAt(after[0], FREE_LIST_HEAD_OFFSET, 4) == pid
    ensures Consistent(after, nextPageId, live - {pid}, [pid] + free)
  {
    LinkedElsewhere(pages, after, free);
    LinkedPush(after, pid, free);
    assert forall p :: p in [pid] + free <==> p == pid || p in free;
  }

  /** Some list and some live pages make these pages a consistent store. */
  ghost predicate InOrder(pages: map<nat, Bytes>, nextPageId: nat) {
    exists live: set<nat>, free: seq<nat> :: Consistent(pages, nextPageId, live, free)
  }

  /** A page that is not live was pushed: following the links from it comes back to it. */
  lemma {:induction false} PushedComesBack(pages: map<nat, Bytes>, free: seq<nat>, pid: nat, after: map<nat, Bytes>, list: seq<nat>, k: nat,
                                           i: nat)
    requires Linked(pages, free) && Distinct(free) && Linked(after, list) && At(list, 0) == pid != 0
    requires k < |free| && free[k] == pid && i <= k && forall j :: 0 <= j < |free| ==> free[j] != 0
    requires pid in after && |after[pid]| == PAGE_SIZE && FieldAt(after[pid], 0, 4) == At(free, 0)
    requires forall p :: p in after && p != 0 && p != pid && p in pages ==> after[p] == pages[p]
    ensures i + 1 < |list| && list[i + 1] == free[i]
  {
    hide UnpackBE, FieldAt;
    if i > 0 {
      PushedComesBack(pages, free, pid, after, list, k, i - 1);
      assert free[i - 1] != free[k];
    }
  }

  /** No list explains the links after a page that is not live was pushed. */
  lemma PushOfDead(pages: map<nat, Bytes>, nextPageId: nat, live: set<nat>, free: seq<nat>, pid: nat, after: map<nat, Bytes>)
    requires Consistent(pages, nextPageId, live, free) && 1 <= pid && pid !in live
    requires after.Keys == pages.Keys + {pid}
    requires forall p :: p in after ==> |after[p]| == PAGE_SIZE
    requires forall p :: p in after && p != 0 && p != pid ==> after[p] == pages[p]
    requires FieldAt(after[pid], 0, 4) == At(free, 0)
    requires FieldAt(after[0], FREE_LIST_HEAD_OFFSET, 4) == pid
    ensures !InOrder(after, nextPageId)
  {
    assert forall j :: 0 <= j < |free| ==> free[j] in free;
    forall l: set<nat>, list: seq<nat> ensures !Consistent(after, nextPageId, l, list) {
      assert list != [] ==> list[0] in list;
      if pid in free && Linked(after, list) && At(list, 0) == pid {
        OnListTwice(pages, free, pid, after, list);
      }
    }
  }

  lemma OnListTwice(pages: map<nat, Bytes>, free: seq<nat>, pid: nat, after: map<nat, Bytes>, list: seq<nat>)
    requires Linked(pages, free) && Distinct(free) && Linked(after, list) && At(list, 0) == pid != 0 && pid in free
    requires forall j :: 0 <= j < |free| ==> free[j] != 0
    requires pid in after && |after[pid]| == PAGE_SIZE && FieldAt(after[pid], 0, 4) == At(free, 0)
    requires forall p :: p in after && p != 0 && p != pid && p in pages ==> after[p] == pages[p]
    ensures !Distinct(list)
  {
    var k :| 0 <= k < |free| && free[k] == pid;
    PushedComesBack(pages, free, pid, after, list, k, k);
  }

  /** Page images outside the free list and the header do not matter. */
  lemma StoreIsConsistent(pages: map<nat, Bytes>, nextPageId: nat, live: set<nat>, free: seq<nat>,
                          pid: nat, data: Bytes)
    requires Consistent(pages, nextPageId, live, free) && |data| == PAGE_SIZE
    requires pid == CHAIN_HEAD_PAGE || pid in live
    ensures Consistent(pages[pid := data], nextPageId, live, free)
  {
    LinkedElsewhere(pages, pages[pid := data], free);
  }

  lemma AppendIsConsistent(pages: map<nat, Bytes>, nextPageId: nat, live: set<nat>, after: map<nat, Bytes>)
    requires Consistent(pages, nextPageId, live, [])
    requires pages.Keys <= after.Keys <= pages.Keys + {nextPageId} && after[0] == pages[0]
    requires forall p :: p in after ==> |after[p]| == PAGE_SIZE
    ensures Consistent(after, nextPageId + 1, live + {nextPageId}, []) && nextPageId !in live
  {
  }

  class Pager {
    var pages: map<nat, Bytes>
    var nextPageId: nat
    ghost var live: set<nat>   // handed out by AllocPage and not freed since
    ghost var free: seq<nat>   // the free list, head first

    ghost predicate Valid()
      reads this
    {
      Consistent(pages, nextPageId, live, free)
    }

    constructor ()
      ensures Valid() && live == {} && free == [] && nextPageId == 2
    {
      var header := Zeros(PAGE_SIZE);
      pages := map[0 := header];
      nextPageId := 2;
      live, free := {}, [];
      new;
      HeadOfZeros();
    }

    static lemma HeadOfZeros()
      ensures FieldAt(Zeros(PAGE_SIZE), FREE_LIST_HEAD_OFFSET, 4) == 0
    {
      var f := Zeros(PAGE_SIZE)[9..13];
      assert f == [0, 0, 0, 0];
      assert f[..3] == [0, 0, 0] && [0, 0, 0][..2] == [0, 0] && [0, 0][..1] == [0] && [0][..0] == [];
      assert UnpackBE([0]) == 0;
      assert UnpackBE([0, 0]) == 0;
      assert UnpackBE([0, 0, 0]) == 0;
    }

    static lemma LinkOfZeros()
      ensures FieldAt(Zeros(PAGE_SIZE), 0, 4) == 0
    {
      HeadOfZeros();
      assert Zeros(PAGE_SIZE)[0..4] == Zeros(PAGE_SIZE)[FREE_LIST_HEAD_OFFSET..FREE_LIST_HEAD_OFFSET + 4];
    }

    /** A page that was never stored reads as zeros. */
    function Read(pid: nat): (r: Bytes)
      reads this
    {
      if pid in pages then pages[pid] else Zeros(PAGE_SIZE)
    }

    method WriteFreeListHead(head: nat)
      requires 0 in pages && |pages[0]| == PAGE_SIZE && head < U32_LIMIT
      modifies this`pages
      ensures pages == old(pages)[0 := Patch(old(pages)[0], FREE_LIST_HEAD_OFFSET, U32(head))]
      ensures FieldAt(pages[0], FREE_LIST_HEAD_OFFSET, 4) == head
    {
      PatchAt(pages[0], FREE_LIST_HEAD_OFFSET, U32(head));
      pages := pages[0 := Patch(pages[0], FREE_LIST_HEAD_OFFSET, U32(head))];
    }

    /** Take the head of the list and zero it; its link is the new head. Whether the list is in
        order is not asked. */
    method PopHead() returns (head: nat)
      requires 0 in pages && |pages[0]| == PAGE_SIZE && FieldAt(pages[0], FREE_LIST_HEAD_OFFSET, 4) != 0
      requires |Read(FieldAt(pages[0], FREE_LIST_HEAD_OFFSET, 4))| == PAGE_SIZE
      modifies this`pages
      ensures head == FieldAt(old(pages)[0], FREE_LIST_HEAD_OFFSET, 4)
      ensures pages == old(pages)[0 := Patch(old(pages)[0], FREE_LIST_HEAD_OFFSET, U32(FieldAt(old(Read(head)), 0, 4)))]
                                 [head := Zeros(PAGE_SIZE)]
      ensures FieldAt(pages[0], FREE_LIST_HEAD_OFFSET, 4) == FieldAt(old(Read(head)), 0, 4)
    {
      head := FieldAt(pages[0], FREE_LIST_HEAD_OFFSET, 4);
      LinkIsU32(Read(head));
      WriteFreeListHead(FieldAt(Read(head), 0, 4));
      pages := pages[head := Zeros(PAGE_SIZE)];
    }

    static lemma LinkIsU32(page: Bytes)
      requires |page| == PAGE_SIZE
      ensures FieldAt(page, 0, 4) < U32_LIMIT
    {
      Pow256Values();
    }

    /** A page no caller holds: the head of the free list, zeroed, or a new one at the end. */
    method AllocPage() returns (pid: nat)
      requires Valid()
      modifies this
      ensures Valid()
      ensures pid !in old(live) && pid >= 2 && live == old(live) + {pid}
      ensures old(free) != [] ==>
        pid == old(free)[0] && free == old(free)[1..] && nextPageId == old(nextPageId)
      ensures old(free) == [] ==>
        pid == old(nextPageId) && free == [] && nextPageId == old(nextPageId) + 1
      ensures Read(pid) == Zeros(PAGE_SIZE)
      ensures old(pages).Keys <= pages.Keys <= old(pages).Keys + {pid}
      ensures forall p :: p != 0 && p != pid && p in old(pages) ==> pages[p] == old(pages)[p]
      ensures forall p :: p in old(live) || p == CHAIN_HEAD_PAGE ==> Read(p) == old(Read(p))
      ensures pid < U32_LIMIT || (pid == old(nextPageId) && nextPageId == pid + 1)
      ensures old(nextPageId) <= nextPageId <= old(nextPageId) + 1
    {
      var head := FieldAt(pages[0], FREE_LIST_HEAD_OFFSET, 4);
      assert free != [] ==> free[0] in free;
      if head != 0 {
        assert head == free[0];
        pid := PopHead();
        PopIsConsistent(old(pages), nextPageId, live, free, pages);
        free, live := free[1..], live + {head};
        return;
      }
      pid := nextPageId;
      nextPageId := nextPageId + 1;
      if pid !in pages {
        pages := pages[pid := Zeros(PAGE_SIZE)];
      }
      AppendIsConsistent(old(pages), pid, live, pages);
      live := live + {pid};
    }

    /** Push a page on the free list.  Refused (`false`) for page 0; otherwise there is a list
        and a set of live pages that explain the store exactly when the page was live. */
    method FreePage(pid: nat) returns (ok: bool)
      requires Valid() && pid < U32_LIMIT
      modifies this
      ensures ok <==> pid >= 1
      ensures !ok ==> Valid() && pages == old(pages) && live == old(live) && free == old(free)
      ensures ok ==>
        pages == old(pages)[pid := Patch(old(Read(pid)), 0, U32(old(At(free, 0))))]
                           [0 := Patch(old(pages)[0], FREE_LIST_HEAD_OFFSET, U32(pid))]
      ensures ok ==> (InOrder(pages, nextPageId) <==> pid in old(live))
      ensures ok && pid in old(live) ==> Valid() && live == old(live) - {pid} && free == [pid] + old(free)
      ensures nextPageId == old(nextPageId)
    {
      hide UnpackBE, U32;
      if pid < 1 {
        return false;
      }
      ok := true;
      var head := FieldAt(pages[0], FREE_LIST_HEAD_OFFSET, 4);
      var page := Patch(Read(pid), 0, U32(head));
      PatchAt(Read(pid), 0, U32(head));
      pages := pages[pid := page];
      WriteFreeListHead(pid);
      if pid in live {
        PushIsConsistent(old(pages), nextPageId, live, free, pid, pages);
      } else {
        PushOfDead(old(pages), nextPageId, live, free, pid, pages);
      }
      free, live := [pid] + free, live - {pid};
    }

    /** Store a page image; anything but `PAGE_SIZE` bytes is refused. */
    method WritePage(pid: nat, data: Bytes) returns (ok: bool)
      requires Valid()
      modifies this`pages
      ensures ok <==> |data| == PAGE_SIZE
      ensures pages == if ok then old(pages)[pid := data] else old(pages)
      ensures !ok || pid == CHAIN_HEAD_PAGE || pid in live ==> Valid()
    {
      ok := |data| == PAGE_SIZE;
      if ok {
        if pid == CHAIN_HEAD_PAGE || pid in live {
          StoreIsConsistent(pages, nextPageId, live, free, pid, data);
        }
        pages := pages[pid := data];
      }
    }

    /** Patch the u32 link at the start of a page. */
    method WriteChainNext(pid: nat, nextPid: nat)
      requires Valid() && nextPid < U32_LIMIT
      modifies this`pages
      ensures pages == old(pages)[pid := Patch(old(Read(pid)), 0, U32(nextPid))]
      ensures pid == CHAIN_HEAD_PAGE || pid in live ==> Valid() && FieldAt(pages[pid], 0, 4) == nextPid
    {
      PatchAt(Read(pid), 0, U32(nextPid));
      var data := Patch(Read(pid), 0, U32(nextPid));
      if pid == CHAIN_HEAD_PAGE || pid in live {
        StoreIsConsistent(pages, nextPageId, live, free, pid, data);
      }
      pages := pages[pid := data];
    }
  }

  /** Freeing a page twice makes the next two allocations hand out the same page; what else was
      on the list is lost with them. */
  method FreeTwiceThenAllocate(pager: Pager, pid: nat) returns (first: nat, second: nat)
    requires pager.Valid() && pid in pager.live && pid < U32_LIMIT
    modifies pager
    ensures first == second == pid
    ensures 0 in pager.pages && |pager.pages[0]| == PAGE_SIZE && FieldAt(pager.pages[0], FREE_LIST_HEAD_OFFSET, 4) == 0
  {
    hide UnpackBE, U32, Patch;
    var ok := pager.FreePage(pid);
    var before := pager.pages;
    ok := pager.FreePage(pid);
    PatchAt(before[pid], 0, U32(pid));
    PatchAt(before[0], FREE_LIST_HEAD_OFFSET, U32(pid));
    first := pager.PopHead();
    second := pager.PopHead();
    Pager.LinkOfZeros();
  }
}
