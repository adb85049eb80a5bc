/** The catalog on disk: a chain of pages behind page 1, rewritten over an older chain
    (src/tinydb/pager.py, src/tinydb/catalog.py). */
module CatalogStore {
  import opened ByteStrings
  import opened Wrappers
  import opened PageStore
  import opened CatalogPacking

  const LINK_BYTES: nat := 4

  function PageAt(pages: map<nat, Bytes>, p: nat): Bytes {
    if p in pages then pages[p] else Zeros(PAGE_SIZE)
  }

  function LinkOf(page: Bytes): nat {
    if |page| < LINK_BYTES then 0 else FieldAt(page, 0, LINK_BYTES)
  }

  /** Following the links from `ids[0]` visits exactly `ids`. */
  ghost predicate Chain(pages: map<nat, Bytes>, ids: seq<nat>) {
    forall i :: 0 <= i < |ids| ==> LinkOf(PageAt(pages, ids[i])) == At(ids, i + 1)
  }

  ghost predicate InUse(ids: seq<nat>, live: set<nat>) {
    Distinct(ids) && forall i :: 0 <= i < |ids| ==> ids[i] in live
  }

  function Elements(ids: seq<nat>): set<nat> {
    set p | p in ids
  }

  /** The catalog occupies page 1 and the live pages `overflow`, linked in this order. */
  ghost predicate Catalogued(pages: map<nat, Bytes>, live: set<nat>, overflow: seq<nat>) {
    Chain(pages, [CHAIN_HEAD_PAGE] + overflow) && InUse(overflow, live)
  }

  function Images(pages: map<nat, Bytes>, ids: seq<nat>): (r: seq<Bytes>)
    ensures |r| == |ids| && forall i :: 0 <= i < |ids| ==> r[i] == PageAt(pages, ids[i])
  {
    seq(|ids|, i requires 0 <= i < |ids| => PageAt(pages, ids[i]))
  }

  function Reversed(ids: seq<nat>): (r: seq<nat>)
    ensures |r| == |ids|
  {
    if ids == [] then [] else [ids[|ids| - 1]] + Reversed(ids[..|ids| - 1])
  }

  // ---- the hop guard never fires -------------------------------------------

  lemma {:induction false} DistinctFits(ids: seq<nat>, s: set<nat>)
    requires Distinct(ids) && forall i :: 0 <= i < |ids| ==> ids[i] in s
    ensures |ids| <= |s|
    decreases |ids|
  {
    if ids != [] {
      var k := |ids| - 1;
      DistinctFits(ids[..k], s - {ids[k]});
    }
  }

  lemma PageLinked(pages: map<nat, Bytes>, p: nat)
    requires LinkOf(PageAt(pages, p)) != 0
    ensures p in pages
  {
    if p !in pages {
      var f := Zeros(PAGE_SIZE)[0..LINK_BYTES];
      assert f == Zeros(PAGE_SIZE)[9..13];
      Pager.HeadOfZeros();
    }
  }

  /** A chain is no longer than the pages there are, and one. */
  lemma ChainIsShort(pages: map<nat, Bytes>, overflow: seq<nat>)
    requires Chain(pages, [CHAIN_HEAD_PAGE] + overflow) && Distinct(overflow)
    requires forall i :: 0 <= i < |overflow| ==> overflow[i] != 0
    ensures |overflow| <= |pages| + 1
  {
    if overflow != [] {
      var all, most := [CHAIN_HEAD_PAGE] + overflow, overflow[..|overflow| - 1];
      forall i | 0 <= i < |most| ensures most[i] in pages.Keys {
        assert all[i + 1] == most[i] && all[i + 2] == overflow[i + 1];
        PageLinked(pages, most[i]);
      }
      DistinctFits(most, pages.Keys);
    }
  }

  // ---- giving the old chain back -------------------------------------------

  /** What a page holds behind its link. */
  function AfterLink(page: Bytes): Bytes {
    if |page| < LINK_BYTES then [] else page[LINK_BYTES..]
  }

  /** Pages, live set and free list. */
  datatype Heap = Heap(pages: map<nat, Bytes>, live: set<nat>, free: seq<nat>)

  ghost function HeapOf(pager: Pager): Heap
    reads pager
  {
    Heap(pager.pages, pager.live, pager.free)
  }

  /** Part way through: `k` overflow pages are on the free list, the others as they were. */
  ghost predicate Reclaimed(was: Heap, now: Heap, overflow: seq<nat>, k: nat) {
    && k <= |overflow| && now.live == was.live - Elements(overflow[..k])
    && now.free == Reversed(overflow[..k]) + was.free
    && forall p :: p != 0 && p !in overflow[..k] ==> PageAt(now.pages, p) == PageAt(was.pages, p)
  }

  lemma NothingReclaimed(was: Heap, overflow: seq<nat>)
    ensures Reclaimed(was, was, overflow, 0)
  {
    assert [] + was.free == was.free;
  }

  lemma NextToReclaim(was: Heap, now: Heap, overflow: seq<nat>, k: nat)
    requires Catalogued(was.pages, was.live, overflow) && Reclaimed(was, now, overflow, k) && k < |overflow|
    requires overflow[k] != 0
    ensures overflow[k] in now.live && LinkOf(PageAt(now.pages, overflow[k])) == At(overflow, k + 1)
  {
    var all := [CHAIN_HEAD_PAGE] + overflow;
    assert all[k + 1] == overflow[k];
  }

  lemma OneMoreReclaimed(was: Heap, now: Heap, after: Heap, overflow: seq<nat>, k: nat)
    requires Reclaimed(was, now, overflow, k) && k < |overflow|
    requires forall p :: p != 0 && p != overflow[k] ==> PageAt(after.pages, p) == PageAt(now.pages, p)
    requires after.live == now.live - {overflow[k]} && after.free == [overflow[k]] + now.free
    ensures Reclaimed(was, after, overflow, k + 1)
  {
    assert overflow[..k + 1] == overflow[..k] + [overflow[k]];
    assert overflow[..k + 1][..k] == overflow[..k];
    assert Elements(overflow[..k + 1]) == Elements(overflow[..k]) + {overflow[k]};
  }

  /** The loop and the reset of the head's link; `false` is the hop guard, never reached. */
  method Reclaim(pager: Pager, ghost overflow: seq<nat>) returns (ok: bool)
    requires pager.Valid() && Catalogued(pager.pages, pager.live, overflow)
    modifies pager
    ensures ok && pager.Valid() && pager.nextPageId == old(pager.nextPageId)
    ensures CutDown(old(HeapOf(pager)), HeapOf(pager), overflow)
  {
    hide UnpackBE, FieldAt, Consistent, U32, Patch, Reclaimed, Catalogued, LinkOf, AfterLink, Elements, Reversed;
    ghost var was := HeapOf(pager);
    OverflowIds(pager.pages, pager.nextPageId, pager.live, pager.free, overflow);
    var pageCap := (if |pager.pages| > 1 then |pager.pages| else 1) + 1;
    FirstLink(pager.pages, pager.live, overflow);
    var nextId := LinkOf(pager.Read(CHAIN_HEAD_PAGE));
    var visited: nat := 0;
    NothingReclaimed(was, overflow);
    while nextId != 0
      invariant visited <= |overflow| && nextId == At(overflow, visited)
      invariant pager.Valid() && pager.nextPageId == old(pager.nextPageId)
      invariant Reclaimed(was, HeapOf(pager), overflow, visited)
      decreases |overflow| - visited
    {
      if visited > pageCap {
        return false;
      }
      var cur := nextId;
      ghost var now := HeapOf(pager);
      NextToReclaim(was, now, overflow, visited);
      nextId := LinkOf(pager.Read(cur));
      FreeOne(pager, cur);
      OneMoreReclaimed(was, now, HeapOf(pager), overflow, visited);
      visited := visited + 1;
    }
    assert visited == |overflow|;
    AllReclaimed(was, HeapOf(pager), overflow);
    ghost var head := pager.Read(CHAIN_HEAD_PAGE);
    PageSize(pager);
    LinkPatched(head, 0);
    pager.WriteChainNext(CHAIN_HEAD_PAGE, 0);
    return true;
  }

  /** The overflow pages are on the free list, in the order they were freed, and page 1 is the
      whole chain; nothing else has changed. */
  ghost predicate CutDown(was: Heap, now: Heap, overflow: seq<nat>) {
    && now.live == was.live - Elements(overflow) && now.free == Reversed(overflow) + was.free
    && (forall p :: p != 0 && p != CHAIN_HEAD_PAGE && p !in overflow ==> PageAt(now.pages, p) == PageAt(was.pages, p))
    && LinkOf(PageAt(now.pages, CHAIN_HEAD_PAGE)) == 0
    && AfterLink(PageAt(now.pages, CHAIN_HEAD_PAGE)) == AfterLink(PageAt(was.pages, CHAIN_HEAD_PAGE))
  }

  lemma FirstLink(pages: map<nat, Bytes>, live: set<nat>, overflow: seq<nat>)
    requires Catalogued(pages, live, overflow)
    ensures LinkOf(PageAt(pages, CHAIN_HEAD_PAGE)) == At(overflow, 0)
  {
    assert ([CHAIN_HEAD_PAGE] + overflow)[0] == CHAIN_HEAD_PAGE;
    assert At([CHAIN_HEAD_PAGE] + overflow, 1) == At(overflow, 0);
  }

  lemma AllReclaimed(was: Heap, now: Heap, overflow: seq<nat>)
    requires Reclaimed(was, now, overflow, |overflow|)
    requires forall i :: 0 <= i < |overflow| ==> overflow[i] >= 2
    ensures now.live == was.live - Elements(overflow) && now.free == Reversed(overflow) + was.free
    ensures forall p :: p != 0 && p !in overflow ==> PageAt(now.pages, p) == PageAt(was.pages, p)
    ensures PageAt(now.pages, CHAIN_HEAD_PAGE) == PageAt(was.pages, CHAIN_HEAD_PAGE)
  {
    assert overflow[..|overflow|] == overflow;
    HeadNotOverflow(overflow);
  }

  method FreeOne(pager: Pager, pid: nat)
    requires pager.Valid() && pid in pager.live && pid < U32_LIMIT
    modifies pager
    ensures pager.Valid() && pager.nextPageId == old(pager.nextPageId)
    ensures pager.live == old(pager.live) - {pid} && pager.free == [pid] + old(pager.free)
    ensures forall p :: p != 0 && p != pid ==> PageAt(pager.pages, p) == PageAt(old(pager.pages), p)
  {
    hide UnpackBE, FieldAt, U32, Patch;
    assert pid >= 2;
    hide Consistent;
    var ok := pager.FreePage(pid);
  }

  lemma LinkPatched(page: Bytes, next: nat)
    requires |page| == PAGE_SIZE && next < U32_LIMIT
    ensures LinkOf(Patch(page, 0, U32(next))) == next
    ensures AfterLink(Patch(page, 0, U32(next))) == AfterLink(page)
  {
    hide UnpackBE;
    PatchAt(page, 0, U32(next));
    assert page[LINK_BYTES..|page|] == page[LINK_BYTES..];
    assert Patch(page, 0, U32(next))[LINK_BYTES..|page|] == Patch(page, 0, U32(next))[LINK_BYTES..];
  }

  lemma PageSize(pager: Pager)
    requires pager.Valid()
    ensures forall p :: |pager.Read(p)| == PAGE_SIZE
  {
  }

  lemma HeadNotOverflow(overflow: seq<nat>)
    requires forall i :: 0 <= i < |overflow| ==> overflow[i] >= 2
    ensures CHAIN_HEAD_PAGE !in overflow
  {
  }

  lemma OverflowIds(pages: map<nat, Bytes>, next: nat, live: set<nat>, free: seq<nat>, overflow: seq<nat>)
    requires Consistent(pages, next, live, free) && Catalogued(pages, live, overflow)
    ensures forall i :: 0 <= i < |overflow| ==> 2 <= overflow[i] < U32_LIMIT
    ensures |overflow| <= |pages| + 1
  {
    Pow256Values();
    var all := [CHAIN_HEAD_PAGE] + overflow;
    forall i | 0 <= i < |overflow| ensures 2 <= overflow[i] < U32_LIMIT {
      assert overflow[i] in live;
      assert all[i + 1] == overflow[i];
      LinkBound(PageAt(pages, all[i]));
    }
    ChainIsShort(pages, overflow);
  }

  lemma LinkBound(page: Bytes)
    ensures LinkOf(page) < U32_LIMIT
  {
    Pow256Values();
  }

  // ---- writing the new chain ------------------------------------------------

  /** The first `k` segments are in place; the pages behind the head are newly live. */
  ghost predicate Placed(pages: map<nat, Bytes>, live: set<nat>, was: set<nat>, segs: seq<Segment>, ids: seq<nat>) {
    && |ids| <= |segs| && AllFit(segs)
    && (forall i :: 0 <= i < |ids| ==> ids[i] < U32_LIMIT)
    && (ids != [] ==> ids[0] == CHAIN_HEAD_PAGE && InUse(ids[1..], live) && Elements(ids[1..]) !! was
                      && live == was + Elements(ids[1..]))
    && (ids == [] ==> live == was)
    && forall i :: 0 <= i < |ids| ==> AfterLink(PageAt(pages, ids[i])) == AfterLink(PageOf(segs[i]))
  }

  lemma PlaceHead(pages: map<nat, Bytes>, after: map<nat, Bytes>, live: set<nat>, segs: seq<Segment>)
    requires Placed(pages, live, live, segs, []) && segs != []
    requires after == pages[CHAIN_HEAD_PAGE := PageOf(segs[0])]
    ensures Placed(after, live, live, segs, [CHAIN_HEAD_PAGE])
  {
    assert [CHAIN_HEAD_PAGE][1..] == [] && live + Elements([]) == live;
  }

  lemma PlaceOverflow(pages: map<nat, Bytes>, mid: map<nat, Bytes>, after: map<nat, Bytes>, live: set<nat>, was: set<nat>,
                      segs: seq<Segment>, ids: seq<nat>, pid: nat)
    requires Placed(pages, live, was, segs, ids) && ids != [] && |ids| < |segs|
    requires 2 <= pid < U32_LIMIT && pid !in live
    requires forall p :: p in live || p == CHAIN_HEAD_PAGE ==> PageAt(mid, p) == PageAt(pages, p)
    requires after == mid[pid := PageOf(segs[|ids|])]
    ensures Placed(after, live + {pid}, was, segs, ids + [pid])
  {
    hide PageOf, AllFit, AfterLink;
    var more := ids + [pid];
    assert more[1..] == ids[1..] + [pid];
    assert Elements(more[1..]) == Elements(ids[1..]) + {pid};
    OtherBodies(pages, after, live, ids);
  }

  lemma OtherBodies(pages: map<nat, Bytes>, after: map<nat, Bytes>, live: set<nat>, ids: seq<nat>)
    requires ids != [] && ids[0] == CHAIN_HEAD_PAGE && InUse(ids[1..], live)
    requires forall p :: p in live || p == CHAIN_HEAD_PAGE ==> PageAt(after, p) == PageAt(pages, p)
    ensures forall i :: 0 <= i < |ids| ==> PageAt(after, ids[i]) == PageAt(pages, ids[i])
  {
    hide PageAt;
    forall i | 0 <= i < |ids| ensures PageAt(after, ids[i]) == PageAt(pages, ids[i]) {
      if i > 0 {
        assert ids[i] == ids[1..][i - 1];
      }
    }
  }

  /** Allocate and write; `None` when page ids outgrow the u32 link (OverflowError). */
  method PlaceSegments(pager: Pager, segs: seq<Segment>) returns (r: Option<seq<nat>>)
    requires pager.Valid() && AllFit(segs) && segs != []
    modifies pager
    ensures r.Some? ==> pager.Valid() && |r.value| == |segs|
                        && Placed(pager.pages, pager.live, old(pager.live), segs, r.value)
    ensures r.Some? ==> forall p :: p in old(pager.live) ==> pager.Read(p) == old(pager.Read(p))
    ensures r.None? ==> pager.nextPageId > U32_LIMIT
    ensures old(pager.nextPageId) <= pager.nextPageId <= old(pager.nextPageId) + |segs|
  {
    hide Placed, Consistent, PageOf, AllFit, Dumps, Fits;
    var ids: seq<nat> := [];
    ghost var was := pager.live;
    NothingPlaced(pager.pages, was, segs);
    for i := 0 to |segs|
      invariant |ids| == i && pager.Valid()
      invariant Placed(pager.pages, pager.live, was, segs, ids) && was <= pager.live
      invariant forall p :: p in was ==> pager.Read(p) == old(pager.Read(p))
      invariant old(pager.nextPageId) <= pager.nextPageId <= old(pager.nextPageId) + i
    {
      ghost var pages: map<nat, Bytes> := pager.pages;
      ghost var live := pager.live;
      SegmentFits(segs, i);
      if i == 0 {
        HeadNotLive(pager);
        var ok := pager.WritePage(CHAIN_HEAD_PAGE, PageOf(segs[0]));
        OnlyWas(pages, live, was, segs, ids);
        PlaceHead(pages, pager.pages, live, segs);
        ids := [CHAIN_HEAD_PAGE];
      } else {
        var target := pager.AllocPage();
        if target >= U32_LIMIT {
          return None;
        }
        ghost var mid: map<nat, Bytes> := pager.pages;
        var ok := pager.WritePage(target, PageOf(segs[i]));
        PlaceOverflow(pages, mid, pager.pages, live, was, segs, ids, target);
        ids := ids + [target];
      }
    }
    return Some(ids);
  }

  lemma NothingPlaced(pages: map<nat, Bytes>, was: set<nat>, segs: seq<Segment>)
    requires AllFit(segs)
    ensures Placed(pages, was, was, segs, [])
  {
  }

  lemma OnlyWas(pages: map<nat, Bytes>, live: set<nat>, was: set<nat>, segs: seq<Segment>, ids: seq<nat>)
    requires Placed(pages, live, was, segs, ids) && ids == []
    ensures live == was && Placed(pages, live, live, segs, [])
  {
  }

  lemma SegmentFits(segs: seq<Segment>, i: nat)
    requires AllFit(segs) && i < |segs|
    ensures Fits(segs[i])
  {
  }

  lemma HeadNotLive(pager: Pager)
    requires pager.Valid()
    ensures CHAIN_HEAD_PAGE !in pager.live
  {
  }

  /** Linking one page changes neither bodies nor other links. */
  lemma LinkKeeps(pages: map<nat, Bytes>, live: set<nat>, was: set<nat>, segs: seq<Segment>, ids: seq<nat>, i: nat)
    requires Placed(pages, live, was, segs, ids) && i < |ids| && |PageAt(pages, ids[i])| == PAGE_SIZE
    requires Distinct(ids)
    requires forall k :: 0 <= k < i ==> LinkOf(PageAt(pages, ids[k])) == At(ids, k + 1)
    ensures At(ids, i + 1) < U32_LIMIT
    ensures var after := pages[ids[i] := Patch(PageAt(pages, ids[i]), 0, U32(At(ids, i + 1)))];
      && Placed(after, live, was, segs, ids)
      && forall k :: 0 <= k <= i ==> LinkOf(PageAt(after, ids[k])) == At(ids, k + 1)
  {
    hide PageOf, AllFit, InUse, LinkOf, Patch, U32;
    LinkPatched(PageAt(pages, ids[i]), At(ids, i + 1));
  }

  lemma PlacedIds(pages: map<nat, Bytes>, live: set<nat>, was: set<nat>, segs: seq<Segment>, ids: seq<nat>)
    requires Placed(pages, live, was, segs, ids) && CHAIN_HEAD_PAGE !in live
    ensures Distinct(ids) && forall i :: 0 <= i < |ids| ==> ids[i] == CHAIN_HEAD_PAGE || ids[i] in live - was
  {
    hide PageOf, AllFit;
    if ids != [] {
      assert forall i :: 1 <= i < |ids| ==> ids[i] == ids[1..][i - 1];
    }
  }

  method LinkSegments(pager: Pager, ids: seq<nat>, ghost segs: seq<Segment>, ghost was: set<nat>)
    requires pager.Valid() && Placed(pager.pages, pager.live, was, segs, ids) && was <= pager.live
    modifies pager`pages
    ensures pager.Valid() && Placed(pager.pages, pager.live, was, segs, ids) && Chain(pager.pages, ids)
    ensures forall p :: p in was ==> pager.Read(p) == old(pager.Read(p))
  {
    hide Placed, Consistent, LinkOf, Patch, U32;
    HeadNotLive(pager);
    PlacedIds(pager.pages, pager.live, was, segs, ids);
    for i := 0 to |ids|
      invariant pager.Valid() && Placed(pager.pages, pager.live, was, segs, ids)
      invariant forall k :: 0 <= k < i ==> LinkOf(PageAt(pager.pages, ids[k])) == At(ids, k + 1)
      invariant forall p :: p in was ==> pager.Read(p) == old(pager.Read(p))
    {
      PageSize(pager);
      assert pager.Read(ids[i]) == PageAt(pager.pages, ids[i]);
      LinkKeeps(pager.pages, pager.live, was, segs, ids, i);
      pager.WriteChainNext(ids[i], At(ids, i + 1));
    }
  }

  // ---- the whole write ------------------------------------------------------

  datatype Outcome = Written | Corrupt | ChainLoop | PageIdTooLarge

  predicate AllPackable(tables: seq<CatalogTable>) {
    forall i :: 0 <= i < |tables| ==> Packable(tables[i])
  }

  predicate WholePages(pages: map<nat, Bytes>) {
    forall p :: p in pages ==> |pages[p]| == PAGE_SIZE
  }

  lemma ImagesWhole(pages: map<nat, Bytes>, ids: seq<nat>)
    requires WholePages(pages)
    ensures forall b :: b in Images(pages, ids) ==> |b| == PAGE_SIZE
  {
  }

  /** What the pages of a chain are read as. */
  function Stored(json: Json, pages: map<nat, Bytes>, ids: seq<nat>): Option<seq<CatalogTable>>
    requires WholePages(pages)
  {
    ImagesWhole(pages, ids);
    Materialize(MergePages(json, Images(pages, ids)))
  }

  /** The pages `ids` are read as `tables`, by any JSON reader that can read their texts. */
  ghost predicate ReadsAs(pages: map<nat, Bytes>, ids: seq<nat>, tables: seq<CatalogTable>) {
    && WholePages(pages)
    && forall json :: Faithful(json) && Readable(json, EntriesOf(tables)) ==> Stored(json, pages, ids) == Some(tables)
  }

  /** The pages `ids` carry these segments, and these make up `tables`. */
  ghost predicate Carry(pages: map<nat, Bytes>, ids: seq<nat>, segs: seq<Segment>, tables: seq<CatalogTable>) {
    && |ids| == |segs| && segs != [] && WellPacked(segs) && MergeAll(segs) == EntriesOf(tables)
    && forall i :: 0 <= i < |ids| ==> AfterLink(PageAt(pages, ids[i])) == AfterLink(PageOf(segs[i]))
  }

  /** What `WriteCatalogChain` leaves. */
  ghost predicate Keeps(pages: map<nat, Bytes>, ids: seq<nat>, tables: seq<CatalogTable>) {
    WholePages(pages) && exists segs :: Carry(pages, ids, segs, tables)
  }

  lemma CarriedIsRead(json: Json, pages: map<nat, Bytes>, ids: seq<nat>, segs: seq<Segment>)
    requires WholePages(pages) && |ids| == |segs| && Faithful(json) && AllFit(segs)
    requires forall i :: 0 <= i < |ids| ==>
      DistinctMembers(segs[i]) && Readable(json, segs[i]) && AfterLink(PageAt(pages, ids[i])) == AfterLink(PageOf(segs[i]))
    ensures Stored(json, pages, ids) == Materialize(MergeAll(segs))
  {
    hide PageOf, Faithful, Readable, Materialize, MergePages, MergeAll, DistinctMembers;
    ImagesWhole(pages, ids);
    forall i | 0 <= i < |segs|
      ensures Images(pages, ids)[i][CHAIN_SEG_HEADER..] == PageOf(segs[i])[CHAIN_SEG_HEADER..]
    {
      SameBehindHeader(Images(pages, ids)[i], PageOf(segs[i]));
    }
    MergePagesOf(json, segs, Images(pages, ids));
  }

  lemma KeptIsRead(pages: map<nat, Bytes>, ids: seq<nat>, tables: seq<CatalogTable>)
    requires Keeps(pages, ids, tables)
    ensures ReadsAs(pages, ids, tables)
  {
    hide AfterLink, PageOf, EntriesOf, Materialize, Stored, Readable, Faithful, MergeAll, Growing, Fits, DistinctMembers;
    var segs :| Carry(pages, ids, segs, tables);
    MaterializeEntries(tables);
    forall json | Faithful(json) && Readable(json, EntriesOf(tables)) ensures Stored(json, pages, ids) == Some(tables) {
      MergedAllTexts(json, segs);
      CarriedIsRead(json, pages, ids, segs);
    }
  }

  lemma SameBehindHeader(a: Bytes, b: Bytes)
    requires |a| == PAGE_SIZE && |b| == PAGE_SIZE && AfterLink(a) == AfterLink(b)
    ensures a[CHAIN_SEG_HEADER..] == b[CHAIN_SEG_HEADER..]
  {
    assert a[LINK_BYTES..][CHAIN_SEG_HEADER - LINK_BYTES..] == a[CHAIN_SEG_HEADER..];
    assert b[LINK_BYTES..][CHAIN_SEG_HEADER - LINK_BYTES..] == b[CHAIN_SEG_HEADER..];
  }

  /** The accounting of a rewrite: pages of the old chain are in the new one or free, all other
      live pages are as they were. */
  ghost predicate Rewritten(was: Heap, now: Heap, before: seq<nat>, after: seq<nat>) {
    && now.live == (was.live - Elements(before)) + Elements(after)
    && Elements(after) !! (was.live - Elements(before))
    && (forall p :: p in was.live && p !in before ==> PageAt(now.pages, p) == PageAt(was.pages, p))
    && (forall p :: p in before ==> p in after || p in now.free)
  }

  /** Of the tables stored over the chain `before`, the pages now hold all exactly when page 1
      held them all alone. */
  ghost predicate LeftOfTables(was: map<nat, Bytes>, now: map<nat, Bytes>, before: seq<nat>) {
    && WholePages(now)
    && forall stored: seq<CatalogTable>, json ::
         Keeps(was, [CHAIN_HEAD_PAGE] + before, stored) && Faithful(json) && Readable(json, EntriesOf(stored)) ==>
         (Stored(json, now, [CHAIN_HEAD_PAGE]) == Some(stored) <==> before == [])
  }

  /** What is read from page 1 alone. */
  lemma HeadIsRead(json: Json, was: map<nat, Bytes>, now: map<nat, Bytes>, before: seq<nat>, segs: seq<Segment>, stored: seq<CatalogTable>)
    requires WholePages(now) && AfterLink(PageAt(now, CHAIN_HEAD_PAGE)) == AfterLink(PageAt(was, CHAIN_HEAD_PAGE))
    requires Carry(was, [CHAIN_HEAD_PAGE] + before, segs, stored) && Faithful(json) && Readable(json, EntriesOf(stored))
    ensures Stored(json, now, [CHAIN_HEAD_PAGE]) == Materialize(MergeAll(segs[..1]))
  {
    hide AfterLink, PageOf, EntriesOf, Materialize, Stored, Readable, Faithful, MergeAll, Growing, Fits, DistinctMembers;
    MergedAllTexts(json, segs);
    CarriedIsRead(json, now, [CHAIN_HEAD_PAGE], segs[..1]);
  }

  lemma CutChainLoses(was: Heap, now: Heap, before: seq<nat>)
    requires CutDown(was, now, before) && WholePages(now.pages)
    ensures LeftOfTables(was.pages, now.pages, before)
  {
    hide AfterLink, LinkOf, PageAt, PageOf, EntriesOf, Materialize, Stored, Readable, Faithful, MergeAll, Growing, Fits, DistinctMembers, WholePages,
         Weight;
    forall stored: seq<CatalogTable>, json
      | Keeps(was.pages, [CHAIN_HEAD_PAGE] + before, stored) && Faithful(json) && Readable(json, EntriesOf(stored))
      ensures Stored(json, now.pages, [CHAIN_HEAD_PAGE]) == Some(stored) <==> before == []
    {
      var segs :| Carry(was.pages, [CHAIN_HEAD_PAGE] + before, segs, stored);
      HeadIsRead(json, was.pages, now.pages, before, segs, stored);
      if before == [] {
        assert segs[..1] == segs;
        MaterializeEntries(stored);
      } else {
        LessInFirst(segs, 1);
        if Materialize(MergeAll(segs[..1])) == Some(stored) {
          MaterializedAre(MergeAll(segs[..1]), stored);
        }
      }
    }
  }

  /** `write_catalog_chain` over the chain with overflow pages `before`. A catalog that cannot be
      packed is refused only after the old chain has been cut down to page 1. */
  method WriteCatalogChain(pager: Pager, tables: seq<CatalogTable>, ghost before: seq<nat>)
      returns (outcome: Outcome, ghost after: seq<nat>)
    requires pager.Valid() && Catalogued(pager.pages, pager.live, before) && DistinctNames(tables)
    modifies pager
    ensures outcome != ChainLoop && (outcome == Corrupt <==> !AllPackable(tables))
    ensures outcome == PageIdTooLarge ==> old(pager.nextPageId) + Weight(EntriesOf(tables)) + 1 > U32_LIMIT
    ensures outcome == Corrupt ==>
      && pager.Valid() && Catalogued(pager.pages, pager.live, []) && CutDown(old(HeapOf(pager)), HeapOf(pager), before)
      && LeftOfTables(old(pager.pages), pager.pages, before)
    ensures outcome == Written ==>
      && pager.Valid() && Catalogued(pager.pages, pager.live, after)
      && Rewritten(old(HeapOf(pager)), HeapOf(pager), before, after)
      && Keeps(pager.pages, [CHAIN_HEAD_PAGE] + after, tables)
      && ReadsAs(pager.pages, [CHAIN_HEAD_PAGE] + after, tables)
  {
    hide Consistent, Catalogued, Rewritten, CutDown, NewChain, ReadsAs, EntriesOf, MergeAll, WellPacked, Packable,
         Dumps, DistinctNames, LeftOfTables, Keeps, WholePages;
    ghost var was := HeapOf(pager);
    ghost var next := pager.nextPageId;
    after := [];
    var ok := Reclaim(pager, before);
    if !ok {
      return ChainLoop, [];
    }
    ghost var mid := HeapOf(pager);
    var r := SerializeSegments(tables);
    if r.None? {
      HeadAlone(was, mid, before);
      WholeIfValid(pager);
      CutChainLoses(was, mid, before);
      return Corrupt, [];
    }
    NoMoreThanWeight(r.value, tables);
    var ids := WriteSegments(pager, r.value, tables);
    if ids.None? {
      return PageIdTooLarge, [];
    }
    after := ids.value[1..];
    PlacedIsRewritten(was, next, mid, HeapOf(pager), pager.nextPageId, r.value, ids.value, before);
    KeptIsRead(pager.pages, ids.value, tables);
    return Written, after;
  }

  lemma NoMoreThanWeight(segs: seq<Segment>, tables: seq<CatalogTable>)
    requires WellPacked(segs) && MergeAll(segs) == EntriesOf(tables)
    ensures |segs| <= Weight(EntriesOf(tables)) + 1
  {
    hide MergeAll, Weight, EntriesOf, Growing, AllFit;
    FewSegments(segs, |segs|);
    assert segs[..|segs|] == segs;
  }

  /** The segments are in newly live pages, linked in order; pages that were live are as they were. */
  ghost predicate NewChain(mid: Heap, now: Heap, segs: seq<Segment>, ids: seq<nat>) {
    && ids != [] && Placed(now.pages, now.live, mid.live, segs, ids) && Chain(now.pages, ids)
    && forall p :: p in mid.live ==> PageAt(now.pages, p) == PageAt(mid.pages, p)
  }

  /** Steps 2 and 3 of the write: place the segments, then link them. */
  method WriteSegments(pager: Pager, segs: seq<Segment>, ghost tables: seq<CatalogTable>) returns (r: Option<seq<nat>>)
    requires pager.Valid() && WellPacked(segs) && segs != [] && MergeAll(segs) == EntriesOf(tables)
    modifies pager
    ensures r.None? ==> pager.nextPageId > U32_LIMIT
    ensures pager.nextPageId <= old(pager.nextPageId) + |segs|
    ensures r.Some? ==>
      && pager.Valid() && old(pager.nextPageId) <= pager.nextPageId && r.value != []
      && NewChain(old(HeapOf(pager)), HeapOf(pager), segs, r.value)
      && Keeps(pager.pages, r.value, tables)
  {
    hide Consistent, Placed, Chain, Keeps, EntriesOf, MergeAll, AllFit, Growing;
    ghost var was := pager.live;
    r := PlaceSegments(pager, segs);
    if r.None? {
      return;
    }
    SomePlaced(pager.pages, pager.live, was, segs, r.value);
    LinkSegments(pager, r.value, segs, was);
    WholeIfValid(pager);
    PlacedIsKept(pager.pages, pager.live, was, segs, r.value, tables);
  }

  lemma PlacedIsKept(pages: map<nat, Bytes>, live: set<nat>, was: set<nat>, segs: seq<Segment>, ids: seq<nat>, tables: seq<CatalogTable>)
    requires WholePages(pages) && Placed(pages, live, was, segs, ids) && |ids| == |segs| && segs != []
    requires WellPacked(segs) && MergeAll(segs) == EntriesOf(tables)
    ensures Keeps(pages, ids, tables)
  {
    hide WholePages, MergeAll, EntriesOf, WellPacked;
    assert Carry(pages, ids, segs, tables);
  }

  lemma SomePlaced(pages: map<nat, Bytes>, live: set<nat>, was: set<nat>, segs: seq<Segment>, ids: seq<nat>)
    requires Placed(pages, live, was, segs, ids)
    ensures was <= live
  {
  }

  lemma WholeIfValid(pager: Pager)
    requires pager.Valid()
    ensures WholePages(pager.pages)
  {
  }

  lemma HeadAlone(was: Heap, now: Heap, before: seq<nat>)
    requires CutDown(was, now, before)
    ensures Catalogued(now.pages, now.live, [])
  {
    hide LinkOf;
    assert [CHAIN_HEAD_PAGE] + [] == [CHAIN_HEAD_PAGE];
  }

  lemma LivePages(was: Heap, next: nat, before: seq<nat>)
    requires Consistent(was.pages, next, was.live, was.free) && Catalogued(was.pages, was.live, before)
    ensures forall p :: p in was.live ==> 2 <= p < next
    ensures forall p :: p in before ==> p in was.live
  {
  }

  lemma PlacedIsRewritten(was: Heap, first: nat, mid: Heap, now: Heap, next: nat, segs: seq<Segment>, ids: seq<nat>, before: seq<nat>)
    requires Consistent(was.pages, first, was.live, was.free) && Catalogued(was.pages, was.live, before) && first <= next
    requires CutDown(was, mid, before) && NewChain(mid, now, segs, ids)
    requires Consistent(now.pages, next, now.live, now.free)
    ensures ids == [CHAIN_HEAD_PAGE] + ids[1..]
    ensures Catalogued(now.pages, now.live, ids[1..]) && Rewritten(was, now, before, ids[1..])
  {
    hide AfterLink, LinkOf, PageOf, AllFit, Linked;
    assert ids == [CHAIN_HEAD_PAGE] + ids[1..];
    LivePages(was, first, before);
    var after := ids[1..];
    forall p | p in before ensures p in after || p in now.free {
      assert p !in mid.live;
      assert p in now.live ==> p in Elements(after);
    }
  }

  // ---- reading --------------------------------------------------------------

  /** `_unpack_chain`; `looped` is its hop guard, never reached on a chain, and `None` a table
      without page ids. */
  method UnpackChain(pager: Pager, json: Json, ghost overflow: seq<nat>) returns (looped: bool, r: Option<seq<CatalogTable>>)
    requires pager.Valid() && Catalogued(pager.pages, pager.live, overflow)
    ensures WholePages(pager.pages) && !looped
    ensures r == Stored(json, pager.pages, [CHAIN_HEAD_PAGE] + overflow)
  {
    hide Consistent, LinkOf, BodyOf, MergeSegment, Materialize, InUse, MergePages;
    WholeIfValid(pager);
    OverflowIds(pager.pages, pager.nextPageId, pager.live, pager.free, overflow);
    ghost var ids := [CHAIN_HEAD_PAGE] + overflow;
    ghost var images := Images(pager.pages, ids);
    ImagesWhole(pager.pages, ids);
    var pageCap := (if |pager.pages| > 1 then |pager.pages| else 1) + 1;
    var tables: Segment := [];
    var pid := CHAIN_HEAD_PAGE;
    var visited: nat := 0;
    NothingMerged(json, images);
    hide Stored, Catalogued, WholePages;
    while pid != 0
      invariant visited <= |ids| && pid == At(ids, visited)
      invariant tables == MergePages(json, images[..visited])
      decreases |ids| - visited
    {
      if visited > pageCap {
        return true, None;
      }
      var page := pager.Read(pid);
      MergeNext(json, images, visited);
      var body := BodyOf(page);
      tables := if body == [] then tables else MergeSegment(tables, json.loads(body));
      pid := LinkOf(page);
      visited := visited + 1;
    }
    NotBeforeEnd(ids, visited);
    assert images[..visited] == images;
    return false, Materialize(tables);
  }

  lemma NothingMerged(json: Json, images: seq<Bytes>)
    requires forall b :: b in images ==> |b| == PAGE_SIZE
    ensures MergePages(json, images[..0]) == []
  {
  }

  lemma MergeNext(json: Json, images: seq<Bytes>, k: nat)
    requires k < |images| && forall b :: b in images ==> |b| == PAGE_SIZE
    ensures images[k] in images
    ensures var body, tables := BodyOf(images[k]), MergePages(json, images[..k]);
      MergePages(json, images[..k + 1]) == if body == [] then tables else MergeSegment(tables, json.loads(body))
  {
    assert images[..k + 1][..k] == images[..k];
  }

  lemma NotBeforeEnd(ids: seq<nat>, k: nat)
    requires k <= |ids| && At(ids, k) == 0 && forall i :: 0 <= i < |ids| ==> ids[i] != 0
    ensures k == |ids|
  {
  }

  /** Rewriting the catalog and reopening it gives the tables written. */
  method SaveAndLoad(pager: Pager, tables: seq<CatalogTable>, json: Json, ghost before: seq<nat>)
      returns (saved: bool, r: Option<seq<CatalogTable>>)
    requires pager.Valid() && Catalogued(pager.pages, pager.live, before) && DistinctNames(tables)
    requires Faithful(json) && Readable(json, EntriesOf(tables)) && AllPackable(tables)
    modifies pager
    ensures saved ==> pager.Valid() && r == Some(tables)
    ensures !saved ==> old(pager.nextPageId) + Weight(EntriesOf(tables)) + 1 > U32_LIMIT
  {
    hide Consistent, Catalogued, Rewritten, Faithful, Readable, EntriesOf, Stored, Packable, AllPackable;
    var outcome, after := WriteCatalogChain(pager, tables, before);
    if outcome != Written {
      return false, None;
    }
    var looped, loaded := UnpackChain(pager, json, after);
    return true, loaded;
  }

  // ---- a refused catalog ----------------------------------------------------

  /** A table with one column, whose text has `n` bytes. */
  function WideTable(name: Byte, n: nat): CatalogTable {
    CatalogTable([34, name, 34], [seq(n, _ => 120)], 2, 2)
  }

  /** Two tables that take a segment each. */
  function TwoWide(): seq<CatalogTable> {
    [WideTable(97, 3000), WideTable(98, 3000)]
  }

  /** A table whose one column fits no segment. */
  function TooWide(): seq<CatalogTable> {
    [WideTable(99, 5000)]
  }

  lemma OneColumnWeight(t: CatalogTable)
    requires |t.columns| == 1
    ensures Weight([EntryOf(t)]) == 2 + |t.columns[0]|
  {
    SingleWeight(EntryOf(t));
    assert t.columns[..0] == [];
  }

  lemma WideFits(name: Byte)
    ensures Packable(WideTable(name, 3000))
  {
    hide Ascii;
    var t := WideTable(name, 3000);
    SingleText(EntryOf(t));
    assert |MemberText(EntryOf(t))| < 3100;
  }

  lemma OneSegmentIsLight(segs: seq<Segment>)
    requires AllFit(segs) && |segs| == 1
    ensures Weight(MergeAll(segs)) <= CHAIN_BODY_SIZE
  {
    hide Dumps, MergeSegment;
    assert segs[..0] == [];
    MergeSegmentWeight([], segs[0]);
    DumpsWeight(segs[0]);
  }

  lemma TwoWideIsHeavy()
    ensures Weight(EntriesOf(TwoWide())) > CHAIN_BODY_SIZE
  {
    hide Dumps, Weight;
    var all, a, b := EntriesOf(TwoWide()), EntryOf(TwoWide()[0]), EntryOf(TwoWide()[1]);
    assert all == [a] + [b];
    WeightSum([a], [b]);
    OneColumnWeight(TwoWide()[0]);
    OneColumnWeight(TwoWide()[1]);
  }

  lemma TooWideIsRefused()
    ensures DistinctNames(TooWide()) && !AllPackable(TooWide())
  {
    hide Dumps;
    var t := TooWide()[0];
    OneColumnWeight(t);
    DumpsWeight([EntryOf(t)]);
    assert t.columns[..1] == t.columns;
    assert EntryOf(t) == (t.name, Entry(t.columns, Metadata(t)));
  }

  lemma TwoWideArePacked()
    ensures DistinctNames(TwoWide()) && AllPackable(TwoWide())
  {
    hide Packable, Ascii;
    WideFits(97);
    WideFits(98);
  }

  lemma TwoWideNeedTwoPages(pages: map<nat, Bytes>, after: seq<nat>)
    requires Keeps(pages, [CHAIN_HEAD_PAGE] + after, TwoWide())
    ensures after != []
  {
    hide AfterLink, PageOf, EntriesOf, MergeAll, Growing, Fits, DistinctMembers, TwoWide;
    var segs :| Carry(pages, [CHAIN_HEAD_PAGE] + after, segs, TwoWide());
    TwoWideIsHeavy();
    if after == [] {
      OneSegmentIsLight(segs);
    }
  }

  /** Two tables are stored over two pages, then a catalog that cannot be packed is refused:
      the stored one is not readable any more. */
  method RefusedCatalogLosesTables(pager: Pager, json: Json, ghost before: seq<nat>)
      returns (saved: bool, refused: bool, loaded: Option<seq<CatalogTable>>)
    requires pager.Valid() && Catalogued(pager.pages, pager.live, before)
    requires Faithful(json) && Readable(json, EntriesOf(TwoWide()))
    modifies pager
    ensures !saved ==> old(pager.nextPageId) + Weight(EntriesOf(TwoWide())) + 1 > U32_LIMIT
    ensures saved ==> refused && loaded != Some(TwoWide())
  {
    hide Consistent, Catalogued, Rewritten, Faithful, Readable, EntriesOf, Stored, Packable, AllPackable, Keeps, CutDown, ReadsAs, DistinctNames,
         TwoWide, TooWide;
    TwoWideArePacked();
    TooWideIsRefused();
    var outcome, after := WriteCatalogChain(pager, TwoWide(), before);
    if outcome != Written {
      return false, false, None;
    }
    TwoWideNeedTwoPages(pager.pages, after);
    var second, none := WriteCatalogChain(pager, TooWide(), after);
    var looped, tables := UnpackChain(pager, json, []);
    assert [CHAIN_HEAD_PAGE] + [] == [CHAIN_HEAD_PAGE];
    return true, second == Corrupt, tables;
  }
}
