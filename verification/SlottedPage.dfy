/** The slotted page: a slot directory growing up, row bytes growing down
    (src/tinydb/slotted_page.py). */
module SlottedPages {
  import opened ByteStrings
  import opened Wrappers
  import opened PageStore

  const PAGE_HEADER: nat := 16
  /** Written out as 6 in products, to keep them linear. */
  const SLOT_SIZE: nat := 6
  /** The last two bytes of a page hold the length of the data area before them. */
  const DATA_END: nat := PAGE_SIZE - 2
  const MAX_SLOTS: nat := 32
  const MAX_INLINE_PAYLOAD: nat := PAGE_SIZE - PAGE_HEADER - 2
  const TOMBSTONE_OFFSET: nat := 0xFFFF
  const NULL_PAGE_ID: nat := 0xFFFF_FFFF

  /** `offset` is an index into the data area. */
  datatype Slot = Slot(offset: nat, length: nat, flags: nat)

  /** FLAG_TOMBSTONE is bit 0. */
  predicate Dead(s: Slot) {
    s.flags % 2 == 1
  }

  /** What a slot means to its users: its row, if live, and how long a row it can take over. */
  datatype Cell = Cell(row: Option<Bytes>, room: nat)

  predicate InData(s: Slot, data: Bytes) {
    s.offset + s.length <= |data|
  }

  function CellOf(s: Slot, data: Bytes): Cell {
    Cell(if Dead(s) || !InData(s, data) then None else Some(data[s.offset..s.offset + s.length]), s.length)
  }

  function CellsOf(slots: seq<Slot>, data: Bytes): (r: seq<Cell>)
    ensures |r| == |slots| && forall i :: 0 <= i < |slots| ==> r[i] == CellOf(slots[i], data)
  {
    seq(|slots|, i requires 0 <= i < |slots| => CellOf(slots[i], data))
  }

  /** The first tombstone that can take `n` bytes over; the number of cells if there is none. */
  function Reusable(cells: seq<Cell>, n: nat): (i: nat)
    ensures i <= |cells|
    ensures i < |cells| ==> cells[i].row.None? && n <= cells[i].room
    ensures forall j :: 0 <= j < i ==> cells[j].row.Some? || n > cells[j].room
  {
    if cells == [] then 0
    else if cells[0].row.None? && n <= cells[0].room then 0
    else 1 + Reusable(cells[1..], n)
  }

  /** The page image keeps directory and data apart. */
  predicate Fits(slots: seq<Slot>, data: Bytes) {
    PAGE_HEADER + 6 * |slots| + |data| <= DATA_END
  }

  /** Live slots lie in the data area, and everything else fits its two bytes. */
  ghost predicate SlotsFit(slots: seq<Slot>, data: Bytes) {
    forall i :: 0 <= i < |slots| ==>
      slots[i].length < U16_LIMIT && slots[i].flags < U16_LIMIT
      && if Dead(slots[i]) then slots[i].offset < U16_LIMIT else InData(slots[i], data)
  }

  // ---- images ---------------------------------------------------------------

  function SlotBytes(s: Slot): (b: Bytes)
    ensures |b| == SLOT_SIZE
  {
    U16(s.offset) + U16(s.length) + U16(s.flags)
  }

  function Directory(slots: seq<Slot>): (b: Bytes)
    ensures |b| == 6 * |slots|
  {
    if slots == [] then [] else Directory(slots[..|slots| - 1]) + SlotBytes(slots[|slots| - 1])
  }

  function Header(numSlots: Byte, freeOffset: nat, overflowNext: nat): (b: Bytes)
    ensures |b| == PAGE_HEADER
  {
    [1, numSlots] + U16(freeOffset) + U32(overflowNext) + Zeros(8)
  }

  /** The buffer before the data area is written over it. */
  function Frame(numSlots: Byte, freeOffset: nat, overflowNext: nat, slots: seq<Slot>): (b: Bytes)
    requires PAGE_HEADER + 6 * |slots| <= PAGE_SIZE
    ensures |b| == PAGE_SIZE
  {
    Header(numSlots, freeOffset, overflowNext) + Directory(slots) + Zeros(PAGE_SIZE - PAGE_HEADER - 6 * |slots|)
  }

  function Image(numSlots: Byte, freeOffset: nat, overflowNext: nat, slots: seq<Slot>, data: Bytes): (b: Bytes)
    requires PAGE_HEADER + 6 * |slots| <= PAGE_SIZE && |data| <= DATA_END
    ensures |b| == PAGE_SIZE
  {
    Patch(Patch(Frame(numSlots, freeOffset, overflowNext, slots), DATA_END - |data|, data), DATA_END, U16(|data|))
  }

  function SlotAt(raw: Bytes, i: nat): Slot
    requires PAGE_HEADER + 6 * (i + 1) <= |raw|
  {
    SlotOf(raw, PAGE_HEADER + 6 * i)
  }

  function SlotOf(raw: Bytes, base: nat): Slot
    requires base + SLOT_SIZE <= |raw|
  {
    Slot(FieldAt(raw, base, 2), FieldAt(raw, base + 2, 2), FieldAt(raw, base + 4, 2))
  }

  function SlotsFrom(raw: Bytes, n: nat): (r: seq<Slot>)
    requires |raw| == PAGE_SIZE && n < 256
    ensures |r| == n && forall i :: 0 <= i < n ==> r[i] == SlotAt(raw, i)
  {
    seq(n, i requires 0 <= i < n => SlotAt(raw, i))
  }

  /** `raw[PAGE_SIZE - 2 - n:PAGE_SIZE - 2]`, where a negative start counts from the end. */
  function DataFrom(raw: Bytes): Bytes
    requires |raw| == PAGE_SIZE
  {
    var n := FieldAt(raw, DATA_END, 2);
    var start := if n <= DATA_END then DATA_END - n else if n <= DATA_END + PAGE_SIZE then DATA_END + PAGE_SIZE - n else 0;
    if start <= DATA_END then raw[start..DATA_END] else []
  }

  lemma SlotOfBytes(s: Slot, b: Bytes)
    requires s.offset < U16_LIMIT && s.length < U16_LIMIT && s.flags < U16_LIMIT
    requires |b| >= SLOT_SIZE && b[..SLOT_SIZE] == SlotBytes(s)
    ensures FieldAt(b, 0, 2) == s.offset && FieldAt(b, 2, 2) == s.length && FieldAt(b, 4, 2) == s.flags
  {
    hide UnpackBE, U16;
    var e := SlotBytes(s);
    PartsOf(e, [], U16(s.offset), U16(s.length) + U16(s.flags));
    PartsOf(e, U16(s.offset), U16(s.length), U16(s.flags));
    assert b[0..2] == e[0..2] && b[2..4] == e[2..4] && b[4..6] == e[4..6];
  }

  lemma {:induction false} DirectoryAt(slots: seq<Slot>, i: nat)
    requires i < |slots|
    ensures 6 * (i + 1) <= |Directory(slots)|
    ensures Directory(slots)[6 * i..6 * (i + 1)] == SlotBytes(slots[i])
  {
    hide SlotBytes;
    var k := |slots| - 1;
    if i < k {
      DirectoryAt(slots[..k], i);
      var d := Directory(slots[..k]);
      assert (d + SlotBytes(slots[k]))[6 * i..6 * (i + 1)] == d[6 * i..6 * (i + 1)];
    }
  }

  /** A directory entry in any page that starts with the header and the directory. */
  lemma SlotInPage(raw: Bytes, header: Bytes, slots: seq<Slot>, i: nat)
    requires |header| == PAGE_HEADER && i < |slots| && PAGE_HEADER + 6 * |slots| <= |raw|
    requires raw[..PAGE_HEADER + 6 * |slots|] == header + Directory(slots)
    requires slots[i].offset < U16_LIMIT && slots[i].length < U16_LIMIT && slots[i].flags < U16_LIMIT
    ensures SlotAt(raw, i) == slots[i]
  {
    hide SlotBytes, Directory, SlotOf;
    DirectoryAt(slots, i);
    EntryInPage(raw, header, Directory(slots), 6 * i, slots[i]);
  }

  lemma EntryInPage(raw: Bytes, header: Bytes, d: Bytes, lo: nat, s: Slot)
    requires |header| == PAGE_HEADER && |header| + |d| <= |raw| && raw[..|header| + |d|] == header + d
    requires lo + SLOT_SIZE <= |d| && d[lo..lo + SLOT_SIZE] == SlotBytes(s)
    requires s.offset < U16_LIMIT && s.length < U16_LIMIT && s.flags < U16_LIMIT
    ensures SlotOf(raw, PAGE_HEADER + lo) == s
  {
    hide SlotBytes, SlotOf;
    Behind(raw, header, d, lo, lo + SLOT_SIZE);
    SlotFromBytes(raw, PAGE_HEADER + lo, s);
  }

  /** A part of the directory, found behind the header. */
  lemma Behind(raw: Bytes, header: Bytes, d: Bytes, lo: nat, hi: nat)
    requires |header| + |d| <= |raw| && raw[..|header| + |d|] == header + d && lo <= hi <= |d|
    ensures raw[|header| + lo..|header| + hi] == d[lo..hi]
  {
    var h, end := |header|, |header| + |d|;
    SubSlice(raw, 0, end, h + lo, h + hi);
    assert raw[0..end] == raw[..end];
    SubSlice(header + d, h, |d|, lo, hi);
    assert (header + d)[h..h + |d|] == d;
  }

  lemma SlotFromBytes(raw: Bytes, base: nat, s: Slot)
    requires s.offset < U16_LIMIT && s.length < U16_LIMIT && s.flags < U16_LIMIT
    requires base + SLOT_SIZE <= |raw| && raw[base..base + SLOT_SIZE] == SlotBytes(s)
    ensures SlotOf(raw, base) == s
  {
    hide UnpackBE, SlotBytes, U16;
    var part := raw[base..base + SLOT_SIZE];
    assert part[..SLOT_SIZE] == part;
    SlotOfBytes(s, part);
    SubSlice(raw, base, SLOT_SIZE, 0, 2);
    SubSlice(raw, base, SLOT_SIZE, 2, 4);
    SubSlice(raw, base, SLOT_SIZE, 4, 6);
  }

  lemma HeaderFields(header: Bytes, numSlots: Byte, freeOffset: nat, overflowNext: nat)
    requires header == Header(numSlots, freeOffset, overflowNext) && freeOffset < U16_LIMIT && overflowNext < U32_LIMIT
    ensures header[1] == numSlots && FieldAt(header, 2, 2) == freeOffset && FieldAt(header, 4, 4) == overflowNext
  {
    hide UnpackBE, U16, U32;
    PartsOf(header, [1, numSlots], U16(freeOffset), U32(overflowNext) + Zeros(8));
    PartsOf(header, [1, numSlots] + U16(freeOffset), U32(overflowNext), Zeros(8));
  }

  /** With room for both, the data area is written behind the directory. */
  lemma ImageParts(numSlots: Byte, freeOffset: nat, overflowNext: nat, slots: seq<Slot>, data: Bytes)
    requires Fits(slots, data)
    ensures var raw, end := Image(numSlots, freeOffset, overflowNext, slots, data), PAGE_HEADER + 6 * |slots|;
      && raw[..end] == Header(numSlots, freeOffset, overflowNext) + Directory(slots)
      && raw[DATA_END - |data|..DATA_END] == data && raw[DATA_END..] == U16(|data|)
  {
    var raw, end := Image(numSlots, freeOffset, overflowNext, slots, data), PAGE_HEADER + 6 * |slots|;
    var frame := Frame(numSlots, freeOffset, overflowNext, slots);
    assert raw == Patch(Patch(frame, DATA_END - |data|, data), DATA_END, U16(|data|));
    hide Header, Directory, U16, Patch, Frame, Image;
    FrameStarts(numSlots, freeOffset, overflowNext, slots);
    TwoPatches(frame, end, data, U16(|data|));
    assert raw[..end] == frame[0..end];
  }

  lemma TwoPatches(frame: Bytes, end: nat, data: Bytes, tail: Bytes)
    requires |frame| == PAGE_SIZE && |tail| == 2 && end + |data| <= DATA_END
    ensures var raw := Patch(Patch(frame, DATA_END - |data|, data), DATA_END, tail);
      raw[..end] == frame[0..end] && raw[DATA_END - |data|..DATA_END] == data && raw[DATA_END..] == tail
  {
    hide Patch;
    var start := DATA_END - |data|;
    var mid := Patch(frame, start, data);
    var raw := Patch(mid, DATA_END, tail);
    PatchBeside(frame, start, data, 0, end);
    PatchInside(frame, start, data);
    PatchBeside(mid, DATA_END, tail, 0, end);
    PatchBeside(mid, DATA_END, tail, start, DATA_END);
    PatchInside(mid, DATA_END, tail);
    assert raw[DATA_END..DATA_END + 2] == raw[DATA_END..] && raw[0..end] == raw[..end];
  }

  lemma FrameStarts(numSlots: Byte, freeOffset: nat, overflowNext: nat, slots: seq<Slot>)
    requires PAGE_HEADER + 6 * |slots| <= PAGE_SIZE
    ensures Frame(numSlots, freeOffset, overflowNext, slots)[0..PAGE_HEADER + 6 * |slots|]
         == Header(numSlots, freeOffset, overflowNext) + Directory(slots)
  {
    hide Header, Directory;
    var h, d := Header(numSlots, freeOffset, overflowNext), Directory(slots);
    var rest := Zeros(PAGE_SIZE - PAGE_HEADER - 6 * |slots|);
    PartsOf(h + d + rest, [], h + d, rest);
  }

  /** Reading an image back gives every field, provided directory and data do not overlap. */
  lemma ImageReadsBack(numSlots: Byte, freeOffset: nat, overflowNext: nat, slots: seq<Slot>, data: Bytes)
    requires Fits(slots, data) && numSlots == |slots| && SlotsFit(slots, data)
    requires freeOffset < U16_LIMIT && overflowNext < U32_LIMIT
    ensures var raw := Image(numSlots, freeOffset, overflowNext, slots, data);
      && raw[1] == numSlots && FieldAt(raw, 2, 2) == freeOffset && FieldAt(raw, 4, 4) == overflowNext
      && SlotsFrom(raw, |slots|) == slots && DataFrom(raw) == data
  {
    hide Header, Directory, UnpackBE, U16, Image;
    var raw, end := Image(numSlots, freeOffset, overflowNext, slots, data), PAGE_HEADER + 6 * |slots|;
    var header := Header(numSlots, freeOffset, overflowNext);
    ImageParts(numSlots, freeOffset, overflowNext, slots, data);
    HeaderFields(header, numSlots, freeOffset, overflowNext);
    HeaderInPage(raw, header, Directory(slots), end);
    assert raw[DATA_END..DATA_END + 2] == raw[DATA_END..];
    forall i | 0 <= i < |slots| ensures SlotAt(raw, i) == slots[i] {
      SlotInPage(raw, header, slots, i);
    }
  }

  lemma HeaderInPage(raw: Bytes, header: Bytes, d: Bytes, end: nat)
    requires |header| == PAGE_HEADER <= end <= |raw| && raw[..end] == header + d
    ensures raw[1] == header[1] && FieldAt(raw, 2, 2) == FieldAt(header, 2, 2) && FieldAt(raw, 4, 4) == FieldAt(header, 4, 4)
  {
    assert raw[1] == raw[..end][1] && header[1] == (header + d)[1];
    assert raw[2..4] == raw[..end][2..4] && (header + d)[2..4] == header[2..4];
    assert raw[4..8] == raw[..end][4..8] && (header + d)[4..8] == header[4..8];
  }

  // ---- the page object ------------------------------------------------------

  datatype UpdateOutcome = Updated | NoSuchSlot | TooLong

  class SlottedPage {
    var numSlots: nat
    var freeOffset: nat
    var overflowNext: nat
    var slots: seq<Slot>
    var data: Bytes
    var dataOffset: int

    ghost predicate Valid()
      reads this
    {
      && numSlots == |slots| < 256 && dataOffset == DATA_END - |data|
      && freeOffset < U16_LIMIT && overflowNext < U32_LIMIT
      && SlotsFit(slots, data)
    }

    /** Directory and data do not overlap: what the image needs. */
    predicate Roomy()
      reads this
    {
      Fits(slots, data)
    }

    lemma RoomyIsFree()
      requires Valid()
      ensures Roomy() <==> FreeSpace() >= 0
    {
    }

    function Cells(): (r: seq<Cell>)
      reads this
    {
      CellsOf(slots, data)
    }

    constructor Empty()
      ensures Valid() && Roomy() && Cells() == []
    {
      numSlots, freeOffset, overflowNext := 0, PAGE_HEADER, NULL_PAGE_ID;
      slots, data, dataOffset := [], [], DATA_END;
    }

    function FreeSpace(): int
      reads this
    {
      dataOffset - (PAGE_HEADER + 6 * numSlots)
    }

    /** Move the end of the data area and point slot `i` at the new tail. */
    method AppendIntoData(row: Bytes, i: nat)
      requires Valid() && i < numSlots && |row| < U16_LIMIT
      modifies this`data, this`dataOffset, this`slots
      ensures Valid() && |slots| == old(|slots|) && data == old(data) + row
      ensures Cells() == old(Cells())[i := Cell(Some(row), |row|)]
    {
      OldRowsStay(slots, data, row, i);
      slots := slots[i := Slot(|data|, |row|, 0)];
      data := data + row;
      dataOffset := dataOffset - |row|;
    }

    /** A slot id, or `None` for PageFull. A tombstone that is large enough is taken over;
        otherwise a new slot is added. The guard leaves out the new directory entry, so what it
        admits keeps the page roomy exactly when there is space for that entry as well. */
    method Insert(row: Bytes) returns (r: Option<nat>)
      requires Valid()
      modifies this
      ensures Valid() && overflowNext == old(overflowNext)
      ensures var i := Reusable(old(Cells()), |row|);
        r == if |row| > MAX_INLINE_PAYLOAD then None
             else if i < old(numSlots) then Some(i)
             else if old(numSlots) >= MAX_SLOTS || old(FreeSpace()) < |row| then None
             else Some(old(numSlots))
      ensures r.None? ==> Cells() == old(Cells()) && FreeSpace() == old(FreeSpace())
      ensures r.Some? && r.value < old(numSlots) ==> Cells() == old(Cells())[r.value := Cell(Some(row), |row|)]
      ensures r.Some? && r.value == old(numSlots) ==> Cells() == old(Cells()) + [Cell(Some(row), |row|)]
      ensures r.Some? ==> FreeSpace() == old(FreeSpace()) - |row| - if r.value == old(numSlots) then SLOT_SIZE else 0
    {
      if |row| > MAX_INLINE_PAYLOAD {
        return None;
      }
      var i := FirstReusable(|row|);
      if i < numSlots {
        AppendIntoData(row, i);
        return Some(i);
      }
      if numSlots >= MAX_SLOTS || FreeSpace() < |row| {
        return None;
      }
      ghost var before := Cells();
      slots := slots + [Slot(|data|, 0, 0)];
      numSlots := numSlots + 1;
      freeOffset := PAGE_HEADER + numSlots * 6;
      assert Cells()[..numSlots - 1] == before;
      AppendIntoData(row, numSlots - 1);
      return Some(numSlots - 1);
    }

    method FirstReusable(n: nat) returns (i: nat)
      requires Valid()
      ensures i == Reusable(Cells(), n)
    {
      ghost var cells := Cells();
      i := 0;
      while i < numSlots && !(Dead(slots[i]) && n <= slots[i].length)
        invariant i <= numSlots && Reusable(cells, n) == i + Reusable(cells[i..], n)
      {
        assert cells[i..][1..] == cells[i + 1..] && cells[i..][0] == cells[i];
        i := i + 1;
      }
      assert i < numSlots ==> cells[i..][0] == cells[i];
    }

    /** `false` is the ValueError for an id out of range. */
    method Delete(sid: int) returns (ok: bool)
      requires Valid()
      modifies this`slots
      ensures Valid() && ok == (0 <= sid < numSlots)
      ensures |slots| == old(|slots|) && FreeSpace() == old(FreeSpace())
      ensures Cells() == if ok then old(Cells())[sid := Cell(None, old(Cells())[sid].room)] else old(Cells())
    {
      if sid < 0 || sid >= numSlots {
        return false;
      }
      slots := slots[sid := slots[sid].(offset := TOMBSTONE_OFFSET, flags := 1)];
      return true;
    }

    method Update(sid: int, row: Bytes) returns (r: UpdateOutcome)
      requires Valid()
      modifies this`data, this`dataOffset, this`slots
      ensures Valid() && |slots| == old(|slots|)
      ensures r == if !(0 <= sid < numSlots) || old(Cells())[sid].row.None? then NoSuchSlot
                   else if |row| > old(Cells())[sid].room then TooLong else Updated
      ensures Cells() == if r.Updated? then old(Cells())[sid := Cell(Some(row), |row|)] else old(Cells())
      ensures FreeSpace() == old(FreeSpace()) - if r.Updated? then |row| else 0
    {
      if sid < 0 || sid >= numSlots || Dead(slots[sid]) {
        return NoSuchSlot;
      }
      if |row| > slots[sid].length {
        return TooLong;
      }
      AppendIntoData(row, sid);
      return Updated;
    }

    /** The row of a live slot; the range check that would raise never does on a valid page. */
    method Get(sid: int) returns (raised: bool, row: Option<Bytes>)
      requires Valid()
      ensures !raised && row == if 0 <= sid < numSlots then Cells()[sid].row else None
    {
      if sid < 0 || sid >= numSlots || Dead(slots[sid]) {
        return false, None;
      }
      var s := slots[sid];
      if s.offset + s.length > |data| {
        return true, None;
      }
      return false, Some(data[s.offset..s.offset + s.length]);
    }

    method ToBytes() returns (buf: Bytes)
      requires Valid() && |data| <= DATA_END
      ensures buf == Image(numSlots as Byte, freeOffset, overflowNext, slots, data)
    {
      hide U16, U32, Patch, SlotBytes, Header;
      var header := Header(numSlots as Byte, freeOffset, overflowNext);
      var room := PAGE_SIZE - PAGE_HEADER;
      buf := header + Zeros(room);
      assert slots[..0] == [] && header + Directory([]) == header;
      for i := 0 to numSlots
        invariant |buf| == PAGE_SIZE
        invariant buf == header + Directory(slots[..i]) + Zeros(room - 6 * i)
      {
        assert slots[..i + 1][..i] == slots[..i];
        PatchPadding(header + Directory(slots[..i]), room - 6 * i, SlotBytes(slots[i]));
        buf := Patch(buf, PAGE_HEADER + 6 * i, SlotBytes(slots[i]));
        assert header + Directory(slots[..i]) + SlotBytes(slots[i]) == header + Directory(slots[..i + 1]);
      }
      assert slots[..numSlots] == slots;
      buf := Patch(buf, DATA_END - |data|, data);
      buf := Patch(buf, DATA_END, U16(|data|));
    }

    constructor FromBytes(raw: Bytes)
      requires |raw| == PAGE_SIZE
      ensures numSlots == raw[1] && slots == SlotsFrom(raw, numSlots) && data == DataFrom(raw)
      ensures freeOffset == FieldAt(raw, 2, 2) && overflowNext == FieldAt(raw, 4, 4) && dataOffset == DATA_END - |data|
    {
      numSlots := raw[1];
      freeOffset := FieldAt(raw, 2, 2);
      overflowNext := FieldAt(raw, 4, 4);
      slots := SlotsFrom(raw, raw[1]);
      data := DataFrom(raw);
      dataOffset := DATA_END - |DataFrom(raw)|;
    }

    /** Storing a roomy page and loading it again changes nothing. */
    method Reload() returns (again: SlottedPage)
      requires Valid() && Roomy()
      ensures fresh(again) && again.Valid() && again.Cells() == Cells()
      ensures again.FreeSpace() == FreeSpace() && again.Roomy()
      ensures again.slots == slots && again.data == data && again.overflowNext == overflowNext && again.freeOffset == freeOffset
    {
      var raw := ToBytes();
      ImageReadsBack(numSlots as Byte, freeOffset, overflowNext, slots, data);
      again := new SlottedPage.FromBytes(raw);
    }
  }

  lemma OldRowsStay(slots: seq<Slot>, data: Bytes, row: Bytes, i: nat)
    requires i < |slots| && SlotsFit(slots, data)
    ensures CellsOf(slots[i := Slot(|data|, |row|, 0)], data + row) == CellsOf(slots, data)[i := Cell(Some(row), |row|)]
  {
    var after, all := slots[i := Slot(|data|, |row|, 0)], data + row;
    assert all[|data|..|data| + |row|] == row && after[i] == Slot(|data|, |row|, 0) && !Dead(after[i]);
    assert CellOf(after[i], all) == Cell(Some(row), |row|);
    forall j | 0 <= j < |slots| && j != i ensures CellOf(after[j], all) == CellOf(slots[j], data) {
      var s := slots[j];
      if !Dead(s) {
        assert all[s.offset..s.offset + s.length] == data[s.offset..s.offset + s.length];
      }
    }
  }

  // ---- the guard ------------------------------------------------------------

  /** Where the data area lies over the slot count or the directory, it has the same bytes. */
  ghost predicate SpellsDirectory(slots: seq<Slot>, data: Bytes)
    requires |slots| < 256 && |data| <= DATA_END
  {
    var start := DATA_END - |data|;
    && (start <= 1 ==> data[1 - start] == |slots|)
    && forall i :: 0 <= i < 6 * |slots| && start <= PAGE_HEADER + i ==> data[PAGE_HEADER + i - start] == Directory(slots)[i]
  }

  /** Slots are read back exactly when their bytes are there. */
  lemma {:induction false} SlotsAreBytes(raw: Bytes, slots: seq<Slot>)
    requires |raw| == PAGE_SIZE && |slots| < 256
    requires forall i :: 0 <= i < |slots| ==> slots[i].offset < U16_LIMIT && slots[i].length < U16_LIMIT && slots[i].flags < U16_LIMIT
    ensures SlotsFrom(raw, |slots|) == slots <==> raw[PAGE_HEADER..PAGE_HEADER + 6 * |slots|] == Directory(slots)
  {
    hide SlotOf, SlotBytes;
    if slots == [] {
      assert raw[PAGE_HEADER..PAGE_HEADER] == [];
    } else {
      var k := |slots| - 1;
      var lo, hi := PAGE_HEADER + 6 * k, PAGE_HEADER + 6 * |slots|;
      SlotsAreBytes(raw, slots[..k]);
      SlotIsBytes(raw, lo, slots[k]);
      assert SlotsFrom(raw, |slots|) == SlotsFrom(raw, k) + [SlotAt(raw, k)];
      assert slots == slots[..k] + [slots[k]];
      assert raw[PAGE_HEADER..hi] == raw[PAGE_HEADER..lo] + raw[lo..hi];
      SplitsEqual(raw[PAGE_HEADER..lo], raw[lo..hi], Directory(slots[..k]), SlotBytes(slots[k]));
    }
  }

  lemma SplitsEqual(a: Bytes, b: Bytes, c: Bytes, d: Bytes)
    requires |a| == |c|
    ensures a + b == c + d <==> a == c && b == d
  {
    if a + b == c + d {
      assert (a + b)[..|a|] == a && (c + d)[..|c|] == c && (a + b)[|a|..] == b && (c + d)[|c|..] == d;
    }
  }

  lemma SlotIsBytes(raw: Bytes, base: nat, s: Slot)
    requires s.offset < U16_LIMIT && s.length < U16_LIMIT && s.flags < U16_LIMIT && base + SLOT_SIZE <= |raw|
    ensures SlotOf(raw, base) == s <==> raw[base..base + SLOT_SIZE] == SlotBytes(s)
  {
    hide U16, UnpackBE;
    if raw[base..base + SLOT_SIZE] == SlotBytes(s) {
      SlotFromBytes(raw, base, s);
    }
    if SlotOf(raw, base) == s {
      FieldIsBytes(raw[base..base + 2]);
      FieldIsBytes(raw[base + 2..base + 4]);
      FieldIsBytes(raw[base + 4..base + 6]);
      assert raw[base..base + SLOT_SIZE] == raw[base..base + 2] + raw[base + 2..base + 4] + raw[base + 4..base + 6];
    }
  }

  lemma FieldIsBytes(b: Bytes)
    requires |b| == 2
    ensures U16(UnpackBE(b)) == b
  {
    UnpackPack(b);
  }

  /** The byte of a page image at `k`, before the length field. */
  lemma ByteOfImage(frame: Bytes, data: Bytes, tail: Bytes, k: nat)
    requires |frame| == PAGE_SIZE && |data| <= DATA_END && |tail| == 2 && k < DATA_END
    ensures var start := DATA_END - |data|;
      Patch(Patch(frame, start, data), DATA_END, tail)[k] == if k < start then frame[k] else data[k - start]
  {
  }

  lemma ByteOfFrame(numSlots: Byte, freeOffset: nat, overflowNext: nat, slots: seq<Slot>, k: nat)
    requires PAGE_HEADER + 6 * |slots| <= PAGE_SIZE && PAGE_HEADER <= k < PAGE_HEADER + 6 * |slots|
    ensures Frame(numSlots, freeOffset, overflowNext, slots)[k] == Directory(slots)[k - PAGE_HEADER]
  {
    hide Header, Directory;
    var h, d := Header(numSlots, freeOffset, overflowNext), Directory(slots);
    assert (h + d)[k] == d[k - PAGE_HEADER];
  }

  /** The guard admits more than the page has room for. Whatever was inserted, slot count and
      directory are read back exactly when data and directory fit side by side, or the bytes of
      the data that lie over them happen to be the same. */
  lemma DirectorySurvives(freeOffset: nat, overflowNext: nat, slots: seq<Slot>, data: Bytes)
    requires |slots| < 256 && |data| <= DATA_END && SlotsFit(slots, data)
    ensures var raw := Image(|slots| as Byte, freeOffset, overflowNext, slots, data);
      raw[1] == |slots| && SlotsFrom(raw, |slots|) == slots <==> Fits(slots, data) || SpellsDirectory(slots, data)
  {
    hide Header, Directory, UnpackBE, U16, Image, Frame, Patch, SlotOf;
    var n, start := |slots| as Byte, DATA_END - |data|;
    var frame, raw := Frame(n, freeOffset, overflowNext, slots), Image(n, freeOffset, overflowNext, slots, data);
    ImageIsPatched(n, freeOffset, overflowNext, slots, data);
    CountByte(n, freeOffset, overflowNext, slots);
    ByteOfImage(frame, data, U16(|data|), 1);
    SlotsAreBytes(raw, slots);
    var d := Directory(slots);
    forall i | 0 <= i < 6 * |slots|
      ensures raw[PAGE_HEADER + i] == if PAGE_HEADER + i < start then d[i] else data[PAGE_HEADER + i - start]
    {
      ByteOfImage(frame, data, U16(|data|), PAGE_HEADER + i);
      ByteOfFrame(n, freeOffset, overflowNext, slots, PAGE_HEADER + i);
    }
    SamePart(raw, d, PAGE_HEADER);
  }

  lemma SamePart(raw: Bytes, d: Bytes, lo: nat)
    requires lo + |d| <= |raw|
    ensures raw[lo..lo + |d|] == d <==> forall i :: 0 <= i < |d| ==> raw[lo + i] == d[i]
  {
    var part := raw[lo..lo + |d|];
    assert forall i :: 0 <= i < |d| ==> part[i] == raw[lo + i];
  }

  lemma ImageIsPatched(numSlots: Byte, freeOffset: nat, overflowNext: nat, slots: seq<Slot>, data: Bytes)
    requires PAGE_HEADER + 6 * |slots| <= PAGE_SIZE && |data| <= DATA_END
    ensures Image(numSlots, freeOffset, overflowNext, slots, data)
         == Patch(Patch(Frame(numSlots, freeOffset, overflowNext, slots), DATA_END - |data|, data), DATA_END, U16(|data|))
  {
  }

  lemma CountByte(numSlots: Byte, freeOffset: nat, overflowNext: nat, slots: seq<Slot>)
    requires PAGE_HEADER + 6 * |slots| <= PAGE_SIZE
    ensures Frame(numSlots, freeOffset, overflowNext, slots)[1] == numSlots
  {
    hide Directory, U16, U32;
  }

  /** A page on which only that row was inserted. */
  function LongestRowPage(row: Bytes): Bytes
    requires |row| == MAX_INLINE_PAYLOAD
  {
    Image(1, PAGE_HEADER + SLOT_SIZE, NULL_PAGE_ID, [Slot(0, |row|, 0)], row)
  }

  /** The longest row the guard admits on an empty page is written over its own directory entry:
      the entry read back is the row's first six bytes. */
  lemma LongestRowOverwritesItsSlot(row: Bytes)
    requires |row| == MAX_INLINE_PAYLOAD
    ensures SlotAt(LongestRowPage(row), 0) == Slot(0, |row|, 0) <==>
            FieldAt(row, 0, 2) == 0 && FieldAt(row, 2, 2) == |row| && FieldAt(row, 4, 2) == 0
  {
    hide U16, U32, UnpackBE;
    var frame := Frame(1, PAGE_HEADER + SLOT_SIZE, NULL_PAGE_ID, [Slot(0, |row|, 0)]);
    var mid := Patch(frame, PAGE_HEADER, row);
    var raw := Patch(mid, DATA_END, U16(|row|));
    PatchInside(frame, PAGE_HEADER, row);
    PatchBeside(mid, DATA_END, U16(|row|), PAGE_HEADER, DATA_END);
    assert raw[PAGE_HEADER..PAGE_HEADER + |row|] == row;
    SubSlice(raw, PAGE_HEADER, |row|, 0, 2);
    SubSlice(raw, PAGE_HEADER, |row|, 2, 4);
    SubSlice(raw, PAGE_HEADER, |row|, 4, 6);
    assert raw == LongestRowPage(row);
  }

  // ---- runs -----------------------------------------------------------------

  datatype Op = InsertRow(row: Bytes) | DeleteSlot(sid: int) | UpdateSlot(sid: int, row: Bytes)

  /** A page as its users see it. */
  datatype PageView = PageView(cells: seq<Cell>, space: int)

  function Put(v: PageView, i: nat, row: Bytes): PageView
    requires i <= |v.cells|
  {
    if i < |v.cells| then PageView(v.cells[i := Cell(Some(row), |row|)], v.space - |row|)
    else PageView(v.cells + [Cell(Some(row), |row|)], v.space - |row| - SLOT_SIZE)
  }

  /** The slot an insert of `n` bytes takes; `None` is PageFull. A tombstone is taken over whatever
      space there is. */
  function SlotFor(v: PageView, n: nat): (r: Option<nat>)
    ensures r.Some? ==> r.value <= |v.cells|
  {
    var i := Reusable(v.cells, n);
    if n > MAX_INLINE_PAYLOAD || (i == |v.cells| && (i >= MAX_SLOTS || v.space < n)) then None else Some(i)
  }

  /** What one operation does. */
  function Step(v: PageView, op: Op): PageView {
    match op
    case InsertRow(row) =>
      var i := SlotFor(v, |row|);
      if i.None? then v else Put(v, i.value, row)
    case DeleteSlot(sid) =>
      if 0 <= sid < |v.cells| then v.(cells := v.cells[sid := Cell(None, v.cells[sid].room)]) else v
    case UpdateSlot(sid, row) =>
      if 0 <= sid < |v.cells| && v.cells[sid].row.Some? && |row| <= v.cells[sid].room then Put(v, sid, row) else v
  }

  function StepAll(v: PageView, ops: seq<Op>): PageView {
    if ops == [] then v else Step(StepAll(v, ops[..|ops| - 1]), ops[|ops| - 1])
  }

  method Apply(page: SlottedPage, op: Op)
    requires page.Valid()
    modifies page
    ensures page.Valid()
    ensures PageView(page.Cells(), page.FreeSpace()) == Step(old(PageView(page.Cells(), page.FreeSpace())), op)
  {
    match op
    case InsertRow(row) => var r := page.Insert(row);
    case DeleteSlot(sid) => var r := page.Delete(sid);
    case UpdateSlot(sid, row) => var r := page.Update(sid, row);
  }

  /** Any run of operations, the page stored and loaded after each, gives what the run gives on
      rows alone, as long as no step runs out of space. */
  method RunStored(page: SlottedPage, ops: seq<Op>) returns (last: SlottedPage)
    requires page.Valid() && page.Roomy()
    requires forall n :: 0 <= n <= |ops| ==> StepAll(PageView(page.Cells(), page.FreeSpace()), ops[..n]).space >= 0
    modifies page
    ensures last.Valid()
    ensures PageView(last.Cells(), last.FreeSpace()) == StepAll(old(PageView(page.Cells(), page.FreeSpace())), ops)
  {
    ghost var start := PageView(page.Cells(), page.FreeSpace());
    last := page;
    assert ops[..0] == [];
    for n := 0 to |ops|
      invariant last.Valid() && last.Roomy() && (last == page || fresh(last))
      invariant PageView(last.Cells(), last.FreeSpace()) == StepAll(start, ops[..n])
    {
      assert ops[..n + 1][..n] == ops[..n];
      assert StepAll(start, ops[..n + 1]).space >= 0;
      Apply(last, ops[n]);
      last.RoomyIsFree();
      last := last.Reload();
    }
    assert ops[..|ops|] == ops;
  }
}
