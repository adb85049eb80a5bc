/** The data pages of one table: slotted pages stored in a pager, loaded and stored as a whole
    (src/tinydb/executor.py). */
module TablePages {
  import opened ByteStrings
  import opened Wrappers
  import opened PageStore
  import opened SlottedPages

  function ReadOf(pages: map<nat, Bytes>, p: nat): Bytes {
    if p in pages then pages[p] else Zeros(PAGE_SIZE)
  }

  function FreeIn(slots: seq<Slot>, data: Bytes): int {
    DATA_END - |data| - (PAGE_HEADER + 6 * |slots|)
  }

  /** What users see of a page image. */
  function ViewOf(raw: Bytes): PageView
    requires |raw| == PAGE_SIZE
  {
    var slots, data := SlotsFrom(raw, raw[1]), DataFrom(raw);
    PageView(CellsOf(slots, data), FreeIn(slots, data))
  }

  /** An image of a page whose directory and data do not overlap. */
  ghost predicate Sound(raw: Bytes) {
    && |raw| == PAGE_SIZE
    && SlotsFit(SlotsFrom(raw, raw[1]), DataFrom(raw)) && Fits(SlotsFrom(raw, raw[1]), DataFrom(raw))
  }

  predicate DistinctIds(ids: seq<nat>) {
    forall i, j :: 0 <= i < j < |ids| ==> ids[i] != ids[j]
  }

  ghost predicate AllSound(pages: map<nat, Bytes>, live: set<nat>, ids: seq<nat>) {
    DistinctIds(ids) && forall p :: p in ids ==> p in live && Sound(ReadOf(pages, p))
  }

  function ViewsOf(pages: map<nat, Bytes>, ids: seq<nat>): map<nat, PageView> {
    map p | p in ids && |ReadOf(pages, p)| == PAGE_SIZE :: ViewOf(ReadOf(pages, p))
  }

  function EmptyPage(): PageView {
    PageView([], MAX_INLINE_PAYLOAD)
  }

  /** A zeroed page is an empty one. */
  lemma ZerosAreEmpty()
    ensures Sound(Zeros(PAGE_SIZE)) && ViewOf(Zeros(PAGE_SIZE)) == EmptyPage()
  {
    var raw := Zeros(PAGE_SIZE);
    assert raw[DATA_END..DATA_END + 2] == [0, 0];
    assert [0, 0][..1] == [0] && [0][..0] == [];
    assert UnpackBE([0]) == 0;
    assert UnpackBE([0, 0]) == 0;
    assert DataFrom(raw) == [];
    assert SlotsFrom(raw, raw[1]) == [];
  }

  /** Views and soundness depend on the bytes of the listed pages only. */
  lemma SameBytes(before: map<nat, Bytes>, live: set<nat>, after: map<nat, Bytes>, liveAfter: set<nat>, ids: seq<nat>)
    requires AllSound(before, live, ids) && live <= liveAfter
    requires forall p :: p in ids ==> ReadOf(after, p) == ReadOf(before, p)
    ensures AllSound(after, liveAfter, ids) && ViewsOf(after, ids) == ViewsOf(before, ids)
  {
    hide Sound, ViewOf;
  }

  lemma OnePageWritten(before: map<nat, Bytes>, live: set<nat>, ids: seq<nat>, pid: nat, raw: Bytes)
    requires AllSound(before, live, ids) && pid in ids && Sound(raw)
    ensures AllSound(before[pid := raw], live, ids)
    ensures ViewsOf(before[pid := raw], ids) == ViewsOf(before, ids)[pid := ViewOf(raw)]
  {
    hide ViewOf, Sound;
    SoundIsWhole(raw);
    forall p | p in ids ensures |ReadOf(before, p)| == PAGE_SIZE {
      SoundIsWhole(ReadOf(before, p));
    }
  }

  lemma SoundIsWhole(raw: Bytes)
    requires Sound(raw)
    ensures |raw| == PAGE_SIZE
  {
  }

  lemma OnePageMore(before: map<nat, Bytes>, live: set<nat>, ids: seq<nat>, after: map<nat, Bytes>, pid: nat)
    requires AllSound(before, live, ids) && pid !in live && ReadOf(after, pid) == Zeros(PAGE_SIZE)
    requires forall p :: p in live ==> ReadOf(after, p) == ReadOf(before, p)
    ensures AllSound(after, live + {pid}, ids + [pid])
    ensures ViewsOf(after, ids + [pid]) == ViewsOf(before, ids)[pid := EmptyPage()]
  {
    hide ViewOf, Sound;
    ZerosAreEmpty();
    assert forall p :: p in ids + [pid] <==> p in ids || p == pid;
    assert forall i :: 0 <= i < |ids| ==> ids[i] in ids;
  }

  lemma ViewsAreListed(pages: map<nat, Bytes>, live: set<nat>, ids: seq<nat>)
    requires AllSound(pages, live, ids)
    ensures forall p :: p in ViewsOf(pages, ids) <==> p in ids
    ensures forall p :: p in ids ==> ViewsOf(pages, ids)[p] == ViewOf(ReadOf(pages, p))
  {
  }

  class TablePages {
    const pager: Pager
    var dataPages: seq<nat>

    ghost predicate Valid()
      reads this, pager
    {
      pager.Valid() && AllSound(pager.pages, pager.live, dataPages)
    }

    ghost function Views(): map<nat, PageView>
      reads this, pager
    {
      ViewsOf(pager.pages, dataPages)
    }

    constructor (pager: Pager)
      requires pager.Valid()
      ensures Valid() && this.pager == pager && dataPages == [] && Views() == map[]
    {
      this.pager := pager;
      dataPages := [];
    }

    lemma Listed()
      requires Valid()
      ensures DistinctIds(dataPages) && forall p :: p in Views() <==> p in dataPages
      ensures forall p :: p in dataPages ==> p in pager.live
    {
      ViewsAreListed(pager.pages, pager.live, dataPages);
    }

    /** `SlottedPage.from_bytes(pid, read_page(pid))`. */
    method Load(pid: nat) returns (page: SlottedPage)
      requires Valid() && pid in dataPages
      ensures fresh(page) && page.Valid() && page.Roomy()
      ensures pid in Views() && PageView(page.Cells(), page.FreeSpace()) == Views()[pid]
    {
      ViewsAreListed(pager.pages, pager.live, dataPages);
      var raw := pager.Read(pid);
      assert Sound(raw);
      Pow256Values();
      page := new SlottedPage.FromBytes(raw);
    }

    /** `write_page(pid, page.to_bytes())`. */
    method Store(pid: nat, page: SlottedPage)
      requires Valid() && pid in dataPages && page.Valid() && page.Roomy()
      modifies pager`pages
      ensures Valid() && Views() == old(Views())[pid := PageView(page.Cells(), page.FreeSpace())]
      ensures forall p :: p != pid ==> pager.Read(p) == old(pager.Read(p))
    {
      hide Image;
      var raw := page.ToBytes();
      ImageReadsBack(page.numSlots as Byte, page.freeOffset, page.overflowNext, page.slots, page.data);
      assert Sound(raw) && ViewOf(raw) == PageView(page.Cells(), page.FreeSpace());
      OnePageWritten(pager.pages, pager.live, dataPages, pid, raw);
      hide AllSound, ViewsOf, Consistent;
      var ok := pager.WritePage(pid, raw);
    }

    /** The page list of a snapshot. */
    method Reset(ids: seq<nat>)
      requires pager.Valid() && AllSound(pager.pages, pager.live, ids)
      modifies this
      ensures Valid() && dataPages == ids && Views() == ViewsOf(pager.pages, ids)
    {
      dataPages := ids;
    }

    /** A new page at the end of the table's list. */
    method Append() returns (pid: nat)
      requires Valid()
      modifies this, pager
      ensures Valid() && dataPages == old(dataPages) + [pid] && Views() == old(Views())[pid := EmptyPage()]
      ensures pid !in old(pager.live) && pager.live == old(pager.live) + {pid} && pager.nextPageId <= old(pager.nextPageId) + 1
      ensures forall p :: p in old(pager.live) ==> pager.Read(p) == old(pager.Read(p))
    {
      hide AllSound, ViewsOf, Consistent;
      ghost var before: map<nat, Bytes> := pager.pages;
      ghost var live := pager.live;
      pid := pager.AllocPage();
      OnePageMore(before, live, dataPages, pager.pages, pid);
      dataPages := dataPages + [pid];
    }
  }
}
