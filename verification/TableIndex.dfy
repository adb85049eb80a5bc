/** A table with its indexes: INSERT and DELETE statements, and equality lookups by index and by
    scan (src/tinydb/executor.py, src/tinydb/index_manager.py). Data pages are slotted pages, the
    indexes are B+trees on their pager, and a failing statement is rolled back as a whole. */
module TableIndex {
  import opened ByteStrings
  import opened Wrappers
  import opened NodeCodec
  import opened RowCodec
  import opened SlottedPages
  import opened TableSpace
  import opened TableRows
  import TreeShape
  import PagedBTree
  import Indexing
  import Trees = TableTrees
  import opened PageStore
  import Data = TablePages

  /** A statement fails when it raises, and is then rolled back. It leaves the model when a row is
      too long for a page or runs into its directory, or half of all page ids are used up. */
  datatype Outcome = Done | Failed | LeavesModel

  /** No tree owns one of these pages. */
  ghost predicate NotOwned(shapes: map<Indexing.IndexName, TreeShape.Shape>, ids: seq<nat>) {
    forall p :: p in ids ==> !Trees.OwnedBy(shapes, p)
  }

  class Table {
    const columns: seq<Column>
    const store: Data.TablePages
    const trees: Trees.TableTrees
    ghost var rows: Rows

    /** The data pages hold the rows. */
    ghost predicate Stored()
      reads this, store, store.pager
    {
      store.Valid() && Holds(columns, store.Views(), rows)
    }

    /** The trees of this table's columns are in order, whatever they hold. */
    ghost predicate TreesOk()
      reads trees, trees.manager, trees.manager.pager, trees.manager.indexes.Values
    {
      trees.Valid() && trees.names == Names(columns) && trees.widths == Widths(columns) && SchemaOk(columns)
    }

    /** Data and trees share the pager, but no page. */
    ghost predicate OnePager()
      reads store, trees, trees.manager, trees.manager.indexes.Values
    {
      store.pager == trees.manager.pager && NotOwned(Trees.ShapesOf(trees.manager.indexes), store.dataPages)
    }

    /** Pages and trees are in order; the indexes may hold anything. */
    ghost predicate Sound()
      reads this, store, store.pager, trees, trees.manager, trees.manager.pager, trees.manager.indexes.Values
    {
      Stored() && TreesOk() && OnePager()
    }

    /** ... and hold exactly the keys of the rows. */
    ghost predicate Valid()
      reads this, store, store.pager, trees, trees.manager, trees.manager.pager, trees.manager.indexes.Values
    {
      Sound() && AllExact(columns, trees.Maps(), rows)
    }

    /** The data pages in list order. */
    ghost function Chain(): Chain
      reads store, store.pager
    {
      ChainOf(store.dataPages, store.Views())
    }

    lemma ValidIsExact()
      ensures Valid() <==> Sound() && AllExact(columns, trees.Maps(), rows)
    {
    }

    /** The height of the highest index. */
    ghost function Tall(): nat
      reads trees, trees.manager, trees.manager.indexes.Values
    {
      Indexing.Tallest(trees.manager.indexes)
    }

    ghost function Now(): Content
      reads this, store, store.pager, trees, trees.manager, trees.manager.indexes.Values
    {
      Content(rows, trees.Maps(), Chain())
    }

    /** CREATE TABLE. */
    constructor (name: string, columns: seq<Column>, manager: Indexing.IndexManager)
      requires manager.Valid() && SchemaOk(columns)
      modifies manager`indexes, manager.pager
      ensures Valid() && rows == map[] && this.columns == columns && trees.manager == manager && fresh(store) && fresh(trees)
      ensures Chain() == [Data.EmptyPage()]
      ensures Tall() <= old(Indexing.Tallest(manager.indexes)) && manager.pager.nextPageId <= old(manager.pager.nextPageId) + 1
      ensures forall k :: k in manager.indexes ==> fresh(manager.indexes[k]) || manager.indexes[k] in old(manager.indexes.Values)
    {
      hide Indexing.Standing, SchemaOk, Holds, AllExact, NotOwned, Data.TablePages.Valid, Data.TablePages.Views, Trees.TableTrees.Valid,
           Trees.TableTrees.Maps, Indexing.Tallest;
      this.columns := columns;
      var pages := FirstPage(manager);
      var indexes := NewTrees(manager, name, columns, pages);
      NothingHeld(columns, pages.dataPages[0], indexes.Maps());
      store, trees := pages, indexes;
      rows := map[];
    }

    // -- scanning --

    /** `_scan_table`: the live rows, page by page and slot by slot. */
    method ScanTable() returns (out: seq<(Ref, Row)>)
      requires Stored()
      ensures Enumerates(out, rows)
      ensures InPageOrder(store.dataPages, out)
    {
      hide StoredAs, Data.AllSound, Data.ViewsOf, InPageOrder, ListedBefore, PlaceOf;
      ghost var views, ids := store.Views(), store.dataPages;
      store.Listed();
      out := [];
      NothingListed(ids);
      for i := 0 to |store.dataPages|
        invariant PartOf(out, rows) && forall r: Ref :: r in rows ==> (Seen(out, r) <==> r.page in ids[..i])
        invariant InPageOrder(ids, out) && ListedBefore(ids, out, i, 0)
      {
        var pid := store.dataPages[i];
        assert store.dataPages[i] in store.dataPages;
        NotYet(ids, i);
        out := ScanPage(pid, out, ids[..i], i);
        assert ids[..i + 1] == ids[..i] + [pid];
      }
      assert ids[..|ids|] == ids;
      AllSeen(columns, ids, views, rows);
    }

    method ScanPage(pid: nat, before: seq<(Ref, Row)>, ghost scanned: seq<nat>, ghost n: nat) returns (out: seq<(Ref, Row)>)
      requires Stored() && pid in store.dataPages && pid !in scanned
      requires n < |store.dataPages| && store.dataPages[n] == pid && scanned == store.dataPages[..n]
      requires InPageOrder(store.dataPages, before) && ListedBefore(store.dataPages, before, n, 0)
      ensures InPageOrder(store.dataPages, out) && ListedBefore(store.dataPages, out, n + 1, 0)
      requires PartOf(before, rows) && forall r: Ref :: r in rows ==> (Seen(before, r) <==> r.page in scanned)
      ensures PartOf(out, rows) && forall r: Ref :: r in rows ==> (Seen(out, r) <==> r.page in scanned || r.page == pid)
    {
      hide StoredAs, Data.AllSound, Data.ViewsOf, InPageOrder, ListedBefore, PlaceOf;
      var page := store.Load(pid);
      ghost var views, ids := store.Views(), store.dataPages;
      PlaceIs(ids, n);
      out := before;
      for s := 0 to page.numSlots
        invariant InPageOrder(ids, out) && ListedBefore(ids, out, n, s)
        invariant PartOf(out, rows)
        invariant forall r: Ref :: r in rows ==> (Seen(out, r) <==> r.page in scanned || (r.page == pid && r.slot < s))
        modifies {}
      {
        var ref := Ref(pid, s);
        HeldIsLive(columns, views, rows, ref);
        var raised, cell := page.Get(s);
        if cell.Some? {
          var row := DecodeCell(ref, cell.value);
          SeenMore(out, ref, row);
          ListedMore(ids, out, n, ref, row);
          out := out + [(ref, row)];
        } else {
          ListedPast(ids, out, n, s);
        }
      }
      ListedPast(ids, out, n, page.numSlots);
      PageDone(columns, views, rows, pid, page.numSlots);
    }

    /** Decode the bytes of a live cell. */
    method DecodeCell(ghost ref: Ref, b: Bytes) returns (row: Row)
      requires Stored() && LiveAt(store.Views(), ref) && b == store.Views()[ref.page].cells[ref.slot].row.value
      ensures ref in rows && row == rows[ref]
    {
      hide Data.AllSound, Data.ViewsOf;
      assert StoredAs(columns, store.Views(), ref, rows[ref]);
      var decoded := DecodeRow(b, Types(columns));
      return decoded.value.0;
    }

    /** `_read_row_by_slot`. */
    method ReadCell(ref: Ref) returns (row: Row)
      requires Stored() && LiveAt(store.Views(), ref)
      ensures ref in rows && row == rows[ref]
    {
      hide Data.AllSound, Data.ViewsOf;
      store.Listed();
      var page := store.Load(ref.page);
      var raised, cell := page.Get(ref.slot);
      row := DecodeCell(ref, cell.value);
    }

    // -- INSERT --

    /** `_scan_unique_keys` for one column. */
    method ScanUniqueKeys(c: nat) returns (seen: set<Datum>)
      requires Stored() && c < |columns|
      ensures forall v: Datum :: v in seen <==> HasValue(rows, c, v)
    {
      hide Holds, Data.AllSound, Data.ViewsOf;
      var scanned := ScanTable();
      RowsFit();
      seen := {};
      for i := 0 to |scanned|
        invariant forall v: Datum :: v in seen <==> exists j :: 0 <= j < i && scanned[j].1[c] == Some(v)
      {
        if scanned[i].1[c].Some? {
          seen := seen + {scanned[i].1[c].value};
        }
      }
      forall v: Datum ensures v in seen <==> HasValue(rows, c, v) {
        ScannedValue(scanned, rows, c, v);
      }
    }

    lemma RowsFit()
      requires Stored()
      ensures AllFit(columns, rows)
    {
      HeldFit(columns, store.Views(), rows);
    }

    /** `_validate_unique_keys`; `session` has the values of the rows before in the statement. */
    method ValidateUnique(row: Row, session: seq<set<Datum>>, ghost earlier: seq<Row>) returns (ok: bool, after: seq<set<Datum>>)
      requires Stored() && |row| == |columns| && SessionOf(columns, session, earlier)
      ensures ok <==> ClashFree(columns, row, rows) && ClearOf(columns, row, earlier)
      ensures ok <==>
        && (forall r: Ref :: r in rows ==> !Repeats(columns, row, rows[r]))
        && (forall j :: 0 <= j < |earlier| ==> !Repeats(columns, row, earlier[j]))
      ensures ok ==> SessionOf(columns, after, earlier + [row])
    {
      hide Holds, ClashFree, ClearOf, HasValue, Given, Repeats, Data.AllSound, Data.ViewsOf;
      RepeatsNone(columns, row, rows, earlier);
      after := session;
      for c := 0 to |columns|
        invariant |after| == |columns|
        invariant forall k :: 0 <= k < c && Indexed(columns[k]) && row[k].Some? ==>
                    !HasValue(rows, k, row[k].value) && !Given(earlier, k, row[k].value)
        invariant forall k :: 0 <= k < c && Indexed(columns[k]) ==>
                    after[k] == if row[k].Some? then session[k] + {row[k].value} else session[k]
        invariant forall k :: c <= k < |columns| ==> after[k] == session[k]
      {
        if Indexed(columns[c]) && row[c].Some? {
          var v := row[c].value;
          var inTable := ScanUniqueKeys(c);
          if v in session[c] || v in inTable {
            ClashOn(columns, row, rows, earlier, c);
            return false, after;
          }
          after := after[c := after[c] + {v}];
        }
      }
      NoClash(columns, row, rows, earlier);
      SessionGrows(columns, session, after, earlier, row);
      return true, after;
    }

    /** The first page with room, or a new one. `false` when the row is too long for a page, or
        the page that takes it has no room for its directory then. */
    method InsertIntoChain(b: Bytes, ghost row: Row) returns (ok: bool, ref: Ref)
      requires Stored() && RowFits(columns, row) && DecodedRow(b, Types(columns)) == Some(row)
      modifies store, store.pager
      ensures ok <==> Placed(old(Chain()), b).Some?
      ensures ok ==> ref !in rows && store.Valid() && Holds(columns, store.Views(), rows[ref := row])
      ensures ok ==> Placed(old(Chain()), b) == Some(Chain())
      ensures store.pager.nextPageId <= old(store.pager.nextPageId) + 1
      ensures store.pager.Valid() && old(store.pager.live) <= store.pager.live
      ensures forall p :: p in store.dataPages ==> p in old(store.dataPages) || p !in old(store.pager.live)
      ensures forall p :: p in old(store.pager.live) && p !in old(store.dataPages) ==>
                store.pager.Read(p) == old(store.pager.Read(p))
    {
      hide Holds, DecodedRow, RowFits, Put, SlotFor, Placed, ChainOf, Data.TablePages.Views, Data.AllSound, Data.ViewsOf;
      ref := Ref(0, 0);
      if |b| > MAX_INLINE_PAYLOAD {
        NotPlaced(store.dataPages, store.Views(), b);
        return false, ref;
      }
      var done;
      done, ok, ref := TryPages(b, row);
      if !done {
        ok, ref := InsertOnNewPage(b, row);
      }
    }

    /** The pages there are, in list order; `done` unless all are full. */
    method TryPages(b: Bytes, ghost row: Row) returns (done: bool, ok: bool, ref: Ref)
      requires Stored() && RowFits(columns, row) && DecodedRow(b, Types(columns)) == Some(row) && |b| <= MAX_INLINE_PAYLOAD
      modifies store.pager`pages
      ensures !done ==> store.pager.pages == old(store.pager.pages)
      ensures !done ==> forall j :: 0 <= j < |store.dataPages| ==> SlotFor(old(Chain())[j], |b|).None?
      ensures done ==> (ok <==> Placed(old(Chain()), b).Some?)
      ensures done && ok ==> ref !in rows && store.Valid() && Holds(columns, store.Views(), rows[ref := row])
                             && Placed(old(Chain()), b) == Some(Chain())
      ensures store.pager.Valid() && forall p :: p !in store.dataPages ==> store.pager.Read(p) == old(store.pager.Read(p))
    {
      hide Holds, DecodedRow, RowFits, Put, SlotFor, Placed, ChainOf, Data.TablePages.Views, Data.AllSound, Data.ViewsOf;
      done, ok, ref := false, false, Ref(0, 0);
      store.Listed();
      ghost var views := store.Views();
      for i := 0 to |store.dataPages|
        invariant Stored() && store.pager.pages == old(store.pager.pages)
        invariant forall j :: 0 <= j < i ==> SlotFor(ChainOf(store.dataPages, views)[j], |b|).None?
      {
        assert store.dataPages[i] in store.dataPages;
        done, ok, ref := TryPage(store.dataPages[i], b, row);
        if done {
          PlacedOn(store.dataPages, views, b, i);
          return;
        }
      }
      return false, false, ref;
    }

    method InsertOnNewPage(b: Bytes, ghost row: Row) returns (ok: bool, ref: Ref)
      requires Stored() && RowFits(columns, row) && DecodedRow(b, Types(columns)) == Some(row) && |b| <= MAX_INLINE_PAYLOAD
      requires forall j :: 0 <= j < |store.dataPages| ==> SlotFor(Chain()[j], |b|).None?
      modifies store, store.pager
      ensures ok <==> Placed(old(Chain()), b).Some?
      ensures ok ==> ref !in rows && store.Valid() && Holds(columns, store.Views(), rows[ref := row])
      ensures ok ==> Placed(old(Chain()), b) == Some(Chain())
      ensures store.pager.nextPageId <= old(store.pager.nextPageId) + 1
      ensures store.pager.Valid() && old(store.pager.live) <= store.pager.live
      ensures forall p :: p in store.dataPages ==> p in old(store.dataPages) || p !in old(store.pager.live)
      ensures forall p :: p in old(store.pager.live) && p !in old(store.dataPages) ==>
                store.pager.Read(p) == old(store.pager.Read(p))
    {
      hide Holds, DecodedRow, RowFits, Put, SlotFor, Placed, ChainOf, Data.TablePages.Views, Data.AllSound, Data.EmptyPage;
      store.Listed();
      ghost var ids, views := store.dataPages, store.Views();
      assert Chain() == ChainOf(ids, views);
      var pid := store.Append();
      PageAdded(columns, views, rows, pid);
      PlacedNew(ids, views, b, pid);
      store.Listed();
      var done;
      done, ok, ref := TryPage(pid, b, row);
      if ok {
        assert views[pid := Data.EmptyPage()][pid := Put(Data.EmptyPage(), 0, b)] == views[pid := Put(Data.EmptyPage(), 0, b)];
      }
    }

    /** `done` unless the page is full; then `ok` unless the row overran the room left. */
    method TryPage(pid: nat, b: Bytes, ghost row: Row) returns (done: bool, ok: bool, ref: Ref)
      requires Stored() && pid in store.dataPages && pid in store.Views()
      requires RowFits(columns, row) && DecodedRow(b, Types(columns)) == Some(row)
      modifies store.pager`pages
      ensures done <==> SlotFor(old(store.Views())[pid], |b|).Some?
      ensures !done ==> !ok && store.pager.pages == old(store.pager.pages)
      ensures done ==> (ok <==> Put(old(store.Views())[pid], SlotFor(old(store.Views())[pid], |b|).value, b).space >= 0)
      ensures ok ==> store.Views() == old(store.Views())[pid := Put(old(store.Views())[pid], SlotFor(old(store.Views())[pid], |b|).value, b)]
      ensures ok ==> ref !in rows && store.Valid() && Holds(columns, store.Views(), rows[ref := row])
      ensures store.pager.Valid() && forall p :: p != pid ==> store.pager.Read(p) == old(store.pager.Read(p))
    {
      hide Holds, DecodedRow, RowFits, Data.AllSound, Data.ViewsOf;
      var page := store.Load(pid);
      ghost var view := PageView(page.Cells(), page.FreeSpace());
      var sid := page.Insert(b);
      if sid.None? {
        return false, false, Ref(0, 0);
      }
      ref := Ref(pid, sid.value);
      page.RoomyIsFree();
      assert PageView(page.Cells(), page.FreeSpace()) == Put(view, sid.value, b);
      if !page.Roomy() {
        return true, false, ref;
      }
      RowPut(columns, store.Views(), rows, pid, sid.value, b, row);
      store.Store(pid, page);
      return true, true, ref;
    }

    /** `InsertIntoChain`, with the trees beside it. */
    method StoreRow(b: Bytes, ghost row: Row) returns (ok: bool, ref: Ref)
      requires Sound() && RowFits(columns, row) && DecodedRow(b, Types(columns)) == Some(row)
      modifies store, store.pager
      ensures ok <==> Placed(old(Chain()), b).Some?
      ensures ok ==> ref !in rows && store.Valid() && Holds(columns, store.Views(), rows[ref := row])
      ensures ok ==> Placed(old(Chain()), b) == Some(Chain())
      ensures store.pager.nextPageId <= old(store.pager.nextPageId) + 1
      ensures ok ==> TreesOk() && OnePager() && trees.Maps() == old(trees.Maps())
    {
      hide Holds, DecodedRow, RowFits, SchemaOk, Placed, Data.AllSound, Data.ViewsOf, Trees.OwnedBy, Trees.Regular;
      hide Indexing.Standing, Indexing.Remembered;
      ghost var pages: map<nat, Bytes> := store.pager.pages;
      ghost var live := store.pager.live;
      Indexing.StandingIsRemembered(trees.manager.indexes, trees.manager.pager);
      Trees.OwnedIsLive(trees.manager);
      ok, ref := InsertIntoChain(b, row);
      if ok {
        trees.DataWritten(pages, live);
      }
    }

    lemma SchemaIsOk()
      requires TreesOk()
      ensures SchemaOk(columns) && |trees.Maps()| == |columns|
    {
    }

    /** One entry; the data pages are not touched. */
    method IndexValue(c: nat, key: Bytes, ref: Ref) returns (ok: bool)
      requires store.Valid() && TreesOk() && OnePager() && c < |columns| && PagedBTree.RefFits(ref)
      requires Widths(columns)[c] == Some(|key|)
      modifies trees.manager.pager, trees.manager.indexes.Values
      ensures trees.manager.indexes == old(trees.manager.indexes)
      ensures Spent(old(Tall()), old(trees.manager.pager.nextPageId), 1, Tall(), trees.manager.pager.nextPageId)
      ensures !ok ==> 2 * trees.manager.pager.nextPageId > U32_LIMIT
      ensures ok ==> TreesOk() && OnePager() && trees.Maps() == old(trees.Maps())[c := old(trees.Maps())[c][key := ref]]
      ensures ok ==> store.Valid() && store.Views() == old(store.Views())
    {
      hide SchemaOk, PagedBTree.RefFits, Data.AllSound, Data.ViewsOf, Trees.OwnedBy, Trees.MapsAt, Trees.Regular, Indexing.Tallest;
      ghost var pages: map<nat, Bytes> := store.pager.pages;
      ghost var next := trees.manager.pager.nextPageId;
      ghost var live := store.pager.live;
      store.Listed();
      ghost var tall := Tall();
      ok := trees.Put(c, key, ref);
      SpentOne(tall, next, Tall(), trees.manager.pager.nextPageId);
      if ok {
        Data.SameBytes(pages, live, store.pager.pages, store.pager.live, store.dataPages);
      }
    }

    method UnindexValue(c: nat, key: Bytes)
      requires store.Valid() && TreesOk() && OnePager() && c < |columns| && Widths(columns)[c].Some?
      modifies trees.manager.pager, trees.manager.indexes.Values
      ensures trees.manager.indexes == old(trees.manager.indexes)
      ensures Tall() <= old(Tall()) && trees.manager.pager.nextPageId == old(trees.manager.pager.nextPageId)
      ensures TreesOk() && OnePager() && trees.Maps() == old(trees.Maps())[c := old(trees.Maps())[c] - {key}]
      ensures store.Valid() && store.Views() == old(store.Views())
    {
      hide SchemaOk, Data.AllSound, Data.ViewsOf, Trees.OwnedBy, Trees.MapsAt, Trees.Regular, Indexing.Tallest;
      ghost var pages: map<nat, Bytes> := store.pager.pages;
      ghost var live := store.pager.live;
      store.Listed();
      trees.Remove(c, key);
      Data.SameBytes(pages, live, store.pager.pages, store.pager.live, store.dataPages);
    }

    /** `_index_row`; `false` when page ids run out, as for `TableTrees.Put`. */
    method IndexRow(row: Row, ref: Ref) returns (ok: bool)
      requires store.Valid() && TreesOk() && OnePager()
      requires |row| == |columns| && Payload(row, Types(columns)).Some? && PagedBTree.RefFits(ref)
      modifies trees.manager.pager, trees.manager.indexes.Values
      ensures trees.manager.indexes == old(trees.manager.indexes)
      ensures Spent(old(Tall()), old(trees.manager.pager.nextPageId), |columns|, Tall(), trees.manager.pager.nextPageId)
      ensures !ok ==> 2 * trees.manager.pager.nextPageId > U32_LIMIT
      ensures ok ==> TreesOk() && OnePager() && |old(trees.Maps())| == |columns|
                     && trees.Maps() == Entered(columns, old(trees.Maps()), row, ref, |columns|)
      ensures ok ==> store.Valid() && store.Views() == old(store.Views())
    {
      hide Encode, SchemaOk, Payload, PagedBTree.RefFits, TreesOk, OnePager, Data.TablePages.Valid, Data.TablePages.Views,
           Trees.TableTrees.Maps, Widths, EnteredAt, Entered, Spent, Tall;
      SchemaIsOk();
      ghost var maps: seq<Index> := trees.Maps();
      ghost var tall, next := Tall(), trees.manager.pager.nextPageId;
      SpentNothing(tall, next, 0);
      NothingEntered(columns, maps, row, ref);
      for c := 0 to |columns|
        invariant TreesOk() && OnePager() && store.Valid() && store.Views() == old(store.Views())
        invariant trees.manager.indexes == old(trees.manager.indexes)
        invariant trees.Maps() == Entered(columns, maps, row, ref, c)
        invariant Spent(tall, next, c, Tall(), trees.manager.pager.nextPageId)
      {
        ghost var high, ids := Tall(), trees.manager.pager.nextPageId;
        ok := IndexColumn(c, row, ref);
        SpentMore(tall, next, c, high, ids, 1, Tall(), trees.manager.pager.nextPageId);
        if !ok {
          SpentLess(tall, next, c + 1, |columns|, Tall(), trees.manager.pager.nextPageId);
          return;
        }
        OneColumnEntered(columns, maps, row, ref, c);
      }
      return true;
    }

    method IndexColumn(c: nat, row: Row, ref: Ref) returns (ok: bool)
      requires store.Valid() && TreesOk() && OnePager() && c < |columns| == |trees.Maps()|
      requires |row| == |columns| && Payload(row, Types(columns)).Some? && PagedBTree.RefFits(ref)
      modifies trees.manager.pager, trees.manager.indexes.Values
      ensures trees.manager.indexes == old(trees.manager.indexes)
      ensures Spent(old(Tall()), old(trees.manager.pager.nextPageId), 1, Tall(), trees.manager.pager.nextPageId)
      ensures !ok ==> 2 * trees.manager.pager.nextPageId > U32_LIMIT
      ensures ok ==> TreesOk() && OnePager()
                     && trees.Maps() == old(trees.Maps())[c := EnteredAt(columns, c, old(trees.Maps())[c], row, ref)]
      ensures ok ==> store.Valid() && store.Views() == old(store.Views())
    {
      hide Encode, SchemaOk, Payload, PagedBTree.RefFits, TreesOk, OnePager, Spent, Tall, Widths, Data.TablePages.Valid, Data.TablePages.Views,
           Trees.TableTrees.Maps;
      SchemaIsOk();
      if Indexed(columns[c]) && row[c].Some? {
        ValueHasKey(columns, row, c);
        var key := Encode(columns[c].ctype, row[c].value);
        ok := IndexValue(c, key.value, ref);
        return;
      }
      SpentNothing(Tall(), trees.manager.pager.nextPageId, 1);
      return true;
    }

    /** One row of an INSERT. */
    method InsertRow(row: Row, session: seq<set<Datum>>, ghost earlier: seq<Row>)
        returns (outcome: Outcome, after: seq<set<Datum>>, ref: Ref)
      requires Sound() && RowOk(row) && SessionOf(columns, session, earlier)
      modifies this, store, store.pager, trees.manager.indexes.Values
      ensures trees.manager.indexes == old(trees.manager.indexes)
      ensures Spent(old(Tall()), old(store.pager.nextPageId), 1 + |columns|, Tall(), store.pager.nextPageId)
      ensures outcome == Failed <==> !Acceptable(columns, row, old(rows), earlier)
      ensures outcome == LeavesModel ==>
        Placed(old(Chain()), RowImage(row, Types(columns)).value).None? || 2 * store.pager.nextPageId > U32_LIMIT
      ensures outcome == Done ==> Sound() && TookRow(columns, old(Now()), Now(), row, ref) && SessionOf(columns, after, earlier + [row])
    {
      hide Stored, RowFits, Acceptable, DecodedRow, SessionOf, Placed, Kept, RowImage, Payload, Spent, Tall, TookRow, Sound, ChainOf;
      SoundIsStored();
      var ok, b;
      b, after := CheckRow(row, session, earlier);
      if b.None? {
        SpentNothing(Tall(), store.pager.nextPageId, 1 + |columns|);
        return Failed, after, Ref(0, 0);
      }
      ok, ref := KeepRow(row, b.value);
      outcome := if ok then Done else LeavesModel;
    }

    lemma SoundIsStored()
      requires Sound()
      ensures Stored()
    {
    }

    /** Steps 8 and 9 of the pipeline: the row goes on a page and into the indexes. */
    method KeepRow(row: Row, b: Bytes) returns (ok: bool, ref: Ref)
      requires Sound() && |row| == |columns| && RowOk(row) && Payload(row, Types(columns)).Some?
      requires RowImage(row, Types(columns)) == Some(b)
      requires RowFits(columns, Kept(columns, row)) && DecodedRow(b, Types(columns)) == Some(Kept(columns, row))
      modifies this, store, store.pager, trees.manager.indexes.Values
      ensures trees.manager.indexes == old(trees.manager.indexes)
      ensures Spent(old(Tall()), old(store.pager.nextPageId), 1 + |columns|, Tall(), store.pager.nextPageId)
      ensures !ok ==> Placed(old(Chain()), b).None? || 2 * store.pager.nextPageId > U32_LIMIT
      ensures ok ==> Sound() && TookRow(columns, old(Now()), Now(), row, ref)
    {
      hide Holds, RowFits, DecodedRow, SchemaOk, PagedBTree.RefFits, TreesOk, OnePager, Placed, Kept, Entered, RowImage, Payload, Spent, Tall,
           Data.TablePages.Valid, Data.TablePages.Views, Trees.TableTrees.Maps;
      ghost var tall, next := Tall(), store.pager.nextPageId;
      OnOnePager();
      ok, ref := StoreRow(b, Kept(columns, row));
      SpentOne(tall, next, Tall(), store.pager.nextPageId);
      SpentLess(tall, next, 1, 1 + |columns|, Tall(), store.pager.nextPageId);
      if !ok {
        return;
      }
      RefIsSmall(ref, Kept(columns, row));
      if !PagedBTree.RefFits(ref) {
        return false, ref;
      }
      SchemaIsOk();
      KeptEntries(columns, trees.Maps(), row, ref);
      ghost var ids := store.pager.nextPageId;
      ok := IndexRow(row, ref);
      SpentMore(tall, next, 1, tall, ids, |columns|, Tall(), store.pager.nextPageId);
      if ok {
        rows := rows[ref := Kept(columns, row)];
      }
    }

    /** References fit the index while page ids do. */
    lemma RefIsSmall(ref: Ref, row: Row)
      requires store.Valid() && Holds(columns, store.Views(), rows[ref := row])
      ensures PagedBTree.RefFits(ref) || 2 * store.pager.nextPageId > U32_LIMIT
    {
      hide Data.AllSound, DecodedRow, RowFits;
      store.Listed();
      HeldIsLive(columns, store.Views(), rows[ref := row], ref);
      Data.ViewsAreListed(store.pager.pages, store.pager.live, store.dataPages);
    }

    /** Steps 5 to 8 of the constraints pipeline; `None` when one raises. */
    method CheckRow(row: Row, session: seq<set<Datum>>, ghost earlier: seq<Row>) returns (b: Option<Bytes>, after: seq<set<Datum>>)
      requires Stored() && RowOk(row) && SessionOf(columns, session, earlier)
      ensures b.Some? <==> Acceptable(columns, row, rows, earlier)
      ensures b.Some? <==>
        && HasNeeded(columns, row) && RowTaken(row, Types(columns))
        && (forall r: Ref :: r in rows ==> !Repeats(columns, row, rows[r]))
        && (forall j :: 0 <= j < |earlier| ==> !Repeats(columns, row, earlier[j]))
      ensures b.Some? ==>
        && b == RowImage(row, Types(columns)) && |row| == |columns| && Payload(row, Types(columns)).Some?
        && RowFits(columns, Kept(columns, row)) && DecodedRow(b.value, Types(columns)) == Some(Kept(columns, row))
        && SessionOf(columns, after, earlier + [row])
    {
      hide Holds, RowFits, Kept, ClashFree, ClearOf, DecodedRow, Payload, RowImage, SessionOf, RowOk, IsRow, Data.TablePages.Valid,
           Data.TablePages.Views, HasNeeded, RowTaken, Repeats, Clashes;
      AcceptableMeans(columns, row, rows, earlier);
      if |row| != |columns| || NullRejected(columns, row) {
        return None, session;
      }
      var ok;
      ok, after := ValidateUnique(row, session, earlier);
      b := EncodeRow(row, Types(columns));
      if !ok || b.None? {
        return None, after;
      }
      EncodedDecodes(columns, b.value, row);
      KeptFits(columns, row);
    }

    /** What a statement remembers, and what its rollback brings back. */
    ghost predicate CanRollBack(copies: Indexing.Indexes, pages: map<nat, Bytes>, next: nat, live: set<nat>, free: seq<nat>,
                                maps: seq<Index>, ids: seq<nat>, was: Rows, tall: nat)
      reads copies.Values
    {
      && trees.CanRestore(copies, pages, next, live, free, maps) && store.pager == trees.manager.pager
      && Data.AllSound(pages, live, ids) && Holds(columns, Data.ViewsOf(pages, ids), was)
      && NotOwned(Trees.ShapesOf(copies), ids) && Indexing.Tallest(copies) == tall
      && trees.names == Names(columns) && trees.widths == Widths(columns) && SchemaOk(columns)
    }

    method RollBack(copies: Indexing.Indexes, pages: map<nat, Bytes>, next: nat, ghost live: set<nat>, ghost free: seq<nat>,
                    ghost maps: seq<Index>, ids: seq<nat>, ghost was: Rows, ghost tall: nat)
      requires CanRollBack(copies, pages, next, live, free, maps, ids, was, tall)
      modifies this, store, store.pager, trees.manager
      ensures Sound() && rows == was && trees.Maps() == maps && store.pager.pages == pages && store.dataPages == ids
      ensures trees.manager.indexes == copies && store.pager.nextPageId == next && Tall() == tall
    {
      hide Holds, NotOwned, SchemaOk, Trees.TableTrees.CanRestore, Data.AllSound, Data.ViewsOf, Trees.OwnedBy, Trees.TableTrees.Valid, Trees.TableTrees.Maps,
           Data.TablePages.Valid, Data.TablePages.Views, Trees.ShapesOf, Indexing.Tallest, Consistent;
      trees.Restore(copies, pages, next, live, free, maps);
      store.Reset(ids);
      rows := was;
    }

    method Remember() returns (copies: Indexing.Indexes)
      requires Sound()
      ensures forall k :: k in copies ==> fresh(copies[k])
      ensures CanRollBack(copies, store.pager.pages, store.pager.nextPageId, store.pager.live, store.pager.free, trees.Maps(),
                          store.dataPages, rows, Tall())
    {
      hide Holds, NotOwned, SchemaOk, Trees.TableTrees.CanRestore, Data.AllSound, Data.ViewsOf, Trees.OwnedBy, Trees.TableTrees.Valid, Trees.TableTrees.Maps;
      copies := trees.Snapshot();
    }

    /** An INSERT statement. It fails exactly when one of its rows is not acceptable, and then
        changes nothing; otherwise the rows are in the table and its indexes, each on the first
        page with room. It leaves the model only where `Progress` says a row overruns a page, or
        when half of all page ids are used up. */
    method Insert(values: seq<Row>) returns (outcome: Outcome, ghost refs: seq<Ref>)
      requires Sound() && forall i :: 0 <= i < |values| ==> RowOk(values[i])
      modifies this, store, store.pager, trees.manager, trees.manager.indexes.Values
      ensures forall k :: k in trees.manager.indexes ==>
                fresh(trees.manager.indexes[k]) || trees.manager.indexes[k] in old(trees.manager.indexes.Values)
      ensures Spent(old(Tall()), old(store.pager.nextPageId), InsertSteps(|columns|, |values|), Tall(), store.pager.nextPageId)
      ensures outcome == Done ==> MayInsertAll(columns, values, old(rows))
      ensures outcome == Failed ==> !MayInsertAll(columns, values, old(rows))
      ensures (exists i :: 0 <= i < |values| && !HasNeeded(columns, values[i])) ==> outcome != Done
      ensures values != [] && !HasNeeded(columns, values[0]) ==> outcome == Failed
      ensures outcome == LeavesModel ==> exists k :: 0 < k <= |values| && MayInsertAll(columns, values[..k], old(rows))
      ensures old(Filled(columns, rows)) && outcome != LeavesModel ==> Filled(columns, rows)
      ensures outcome == Done ==> Sound() && Took(columns, old(Now()), Now(), values, refs)
      ensures outcome == Failed ==>
        && !AllAcceptable(columns, values, old(rows)) && Progress(columns, old(Chain()), values) == Refused
        && Sound() && Now() == old(Now()) && store.pager.pages == old(store.pager.pages) && store.dataPages == old(store.dataPages)
      ensures outcome == LeavesModel ==>
        || Progress(columns, old(Chain()), values) == Overrun
        || !IdsLast(old(store.pager.nextPageId), old(Tall()), InsertSteps(|columns|, |values|))
    {
      hide Acceptable, AcceptableOn, SessionOf, MayInsertAll, Filled, HasNeeded, Took, TookRow, CanRollBack, Sound, Progress, RowOk, Placed, RowImage, Spent, IdsLast,
           InsertSteps, Tall, Chain, ChainOf, Data.ViewsOf, Data.TablePages.Views, Trees.TableTrees.Maps, Acceptable, RowFits, AllFit, Kept;
      ghost var tall, width, steps := Tall(), |columns|, InsertSteps(|columns|, |values|);
      NoSteps(width);
      NullStops(columns, values, rows);
      var pages, next, ids := store.pager.pages, store.pager.nextPageId, store.dataPages;
      ghost var live, free, maps, was := store.pager.live, store.pager.free, trees.Maps(), Now();
      assert store.pager == trees.manager.pager by { OnOnePager(); }
      var copies := Remember();
      var session: seq<set<Datum>> := seq(|columns|, _ => {});
      refs := [];
      NothingGiven(columns);
      SchemaKnown();
      SpentNothing(tall, next, 0);
      NowIs();
      NothingTaken(columns, was);
      assert values[..0] == [];
      for i := 0 to |values|
        invariant Sound() && SessionOf(columns, session, values[..i])
        invariant trees.manager.indexes == old(trees.manager.indexes)
        invariant CanRollBack(copies, pages, next, live, free, maps, ids, was.rows, tall)
        invariant Took(columns, was, Now(), values[..i], refs)
        invariant Spent(tall, next, InsertSteps(width, i), Tall(), store.pager.nextPageId)
      {
        ghost var mid, high, ids1 := Now(), Tall(), store.pager.nextPageId;
        assert values[..i + 1] == values[..i] + [values[i]];
        RowOnPages(values[i], values[..i]);
        var result, after, ref := InsertRow(values[i], session, values[..i]);
        InsertSpent(tall, next, width, i, |values|, high, ids1, Tall(), store.pager.nextPageId);
        if result == LeavesModel {
          Leaves(columns, was, mid, values, refs, i);
          LeavesAfter(columns, was, mid, values, refs, i);
          return LeavesModel, refs;
        }
        if result == Failed {
          Refuses(columns, was, mid, values, refs, i);
          AllAcceptedMayInsert(columns, values, was.rows);
          RollBack(copies, pages, next, live, free, maps, ids, was.rows, tall);
          NowIs();
          SpentNothing(tall, next, steps);
          return Failed, refs;
        }
        TookMore(columns, was, mid, Now(), values[..i], refs, values[i], ref);
        refs, session := refs + [ref], after;
      }
      assert values[..|values|] == values;
      TookMayInsert(columns, was, Now(), values, refs);
      return Done, refs;
    }

    lemma SchemaKnown()
      requires Sound()
      ensures |trees.Maps()| == |columns|
    {
    }

    /** Rows, maps and the bytes of the pages are all there is. */
    lemma NowIs()
      ensures Now() == Content(rows, trees.Maps(), ChainOf(store.dataPages, Data.ViewsOf(store.pager.pages, store.dataPages)))
    {
    }

    /** What is asked of a row can be read off the pages. */
    lemma RowOnPages(row: Row, earlier: seq<Row>)
      requires Sound() && RowOk(row)
      ensures AllFit(columns, rows)
      ensures Acceptable(columns, row, rows, earlier) <==> AcceptableOn(columns, row, Chain(), earlier)
      ensures Acceptable(columns, row, rows, earlier) ==> RowFits(columns, Kept(columns, row)) && RowImage(row, Types(columns)).Some?
    {
      hide Holds, AllFit, ClashFree, ClearOn, ClearOf, RowFits, Kept, RowOk, Data.AllSound, Data.ViewsOf;
      RowsFit();
      store.Listed();
      ClearOnIs(columns, row, store.dataPages, store.Views(), rows);
      if ShapeOk(columns, row) {
        KeptFits(columns, row);
      }
    }

    /** Whether a key is taken twice can be read off the pages. */
    lemma KeysOnPages(values: seq<Row>)
      requires Sound()
      ensures KeysFreeOn(columns, values, Chain()) <==> KeysFree(columns, values, rows)
    {
      hide Holds, KeysFree, KeysFreeOn, Data.AllSound, Data.ViewsOf;
      store.Listed();
      KeysFreeOnIs(columns, values, store.dataPages, store.Views(), rows);
    }

    lemma OnOnePager()
      requires Sound()
      ensures store.pager == trees.manager.pager
    {
    }

    // -- DELETE --

    /** `_unindex_row`. */
    method UnindexRow(row: Row)
      requires store.Valid() && TreesOk() && OnePager() && |row| == |columns| && Payload(row, Types(columns)).Some?
      modifies trees.manager.pager, trees.manager.indexes.Values
      ensures trees.manager.indexes == old(trees.manager.indexes)
      ensures Tall() <= old(Tall()) && trees.manager.pager.nextPageId == old(trees.manager.pager.nextPageId)
      ensures TreesOk() && OnePager() && |old(trees.Maps())| == |columns|
              && trees.Maps() == Removed(columns, old(trees.Maps()), row, |columns|)
      ensures store.Valid() && store.Views() == old(store.Views())
    {
      hide Encode, SchemaOk, Payload, TreesOk, OnePager, Data.TablePages.Valid, Data.TablePages.Views, Trees.TableTrees.Maps, Widths,
           RemovedAt, Removed, Tall;
      SchemaIsOk();
      ghost var maps: seq<Index> := trees.Maps();
      NothingEntered(columns, maps, row, Ref(0, 0));
      for c := 0 to |columns|
        invariant TreesOk() && OnePager() && store.Valid() && store.Views() == old(store.Views())
        invariant trees.manager.indexes == old(trees.manager.indexes)
        invariant trees.Maps() == Removed(columns, maps, row, c)
        invariant Tall() <= old(Tall()) && trees.manager.pager.nextPageId == old(trees.manager.pager.nextPageId)
      {
        UnindexColumn(c, row);
        OneColumnRemoved(columns, maps, row, c);
      }
    }

    method UnindexColumn(c: nat, row: Row)
      requires store.Valid() && TreesOk() && OnePager() && c < |columns| == |trees.Maps()|
      requires |row| == |columns| && Payload(row, Types(columns)).Some?
      modifies trees.manager.pager, trees.manager.indexes.Values
      ensures trees.manager.indexes == old(trees.manager.indexes)
      ensures Tall() <= old(Tall()) && trees.manager.pager.nextPageId == old(trees.manager.pager.nextPageId)
      ensures TreesOk() && OnePager() && trees.Maps() == old(trees.Maps())[c := RemovedAt(columns, c, old(trees.Maps())[c], row)]
      ensures store.Valid() && store.Views() == old(store.Views())
    {
      hide Encode, SchemaOk, Payload, TreesOk, OnePager, Tall, Widths, Data.TablePages.Valid, Data.TablePages.Views, Trees.TableTrees.Maps;
      SchemaIsOk();
      if Indexed(columns[c]) && row[c].Some? {
        ValueHasKey(columns, row, c);
        var key := Encode(columns[c].ctype, row[c].value);
        UnindexValue(c, key.value);
      }
    }

    /** A DELETE statement. `where` decides on a row, or raises (`None`); then nothing changes.
        Otherwise exactly the rows it selects are gone, their places are tombstones, and indexes
        that were exact are exact. */
    method Delete(where: Row -> Option<bool>) returns (outcome: Outcome)
      requires Sound()
      modifies this`rows, store.pager, trees.manager.indexes.Values
      ensures trees.manager.indexes == old(trees.manager.indexes)
      ensures Tall() <= old(Tall()) && store.pager.nextPageId == old(store.pager.nextPageId)
      ensures Sound() && (old(Valid()) ==> Valid())
      ensures outcome == if exists r: Ref :: r in old(rows) && where(old(rows)[r]).None? then Failed else Done
      ensures outcome == Failed <==> RaisesOn(columns, old(Chain()), where)
      ensures outcome == Failed ==> Now() == old(Now()) && store.pager.pages == old(store.pager.pages)
      ensures outcome == Done ==> (forall r: Ref :: r in rows ==> r in old(rows) && rows[r] == old(rows)[r])
      ensures outcome == Done ==> (forall r: Ref :: r in old(rows) ==> (r in rows <==> where(old(rows)[r]) == Some(false)))
      ensures outcome == Done ==> Chain() == Swept(old(Chain()), Chosen(columns, where))
    {
      hide Holds, AllExact, SchemaOk, Swept, RaisesOn, Cut, Tall, TreesOk, OnePager, ChainOf, Data.AllSound, Data.TablePages.Views,
           Trees.TableTrees.Maps;
      var toDelete := SelectForDelete(where);
      if toDelete.None? {
        return Failed;
      }
      ghost var before, views := rows, store.Views();
      store.Listed();
      DeleteAll(toDelete.value);
      SelectedAreGone(before, rows, toDelete.value, where);
      CutIsSwept(columns, store.dataPages, views, store.Views(), before, toDelete.value, where);
      return Done;
    }

    /** The rows a DELETE selects, read before any is touched; `None` when the condition raises. */
    method SelectForDelete(where: Row -> Option<bool>) returns (out: Option<seq<(Ref, Row)>>)
      requires Stored()
      ensures out.None? <==> exists r: Ref :: r in rows && where(rows[r]).None?
      ensures out.None? <==> RaisesOn(columns, Chain(), where)
      ensures out.Some? ==> PartOf(out.value, rows)
      ensures out.Some? ==> forall r: Ref :: r in rows ==> where(rows[r]).Some? && (Seen(out.value, r) <==> where(rows[r]) == Some(true))
    {
      hide Holds, RaisesOn, ChainOf, Data.AllSound, Data.ViewsOf;
      var scanned := ScanTable();
      out := PickWhere(scanned, where);
      PickedAll(scanned, rows, where);
      store.Listed();
      RaisesOnIs(columns, store.dataPages, store.Views(), rows, where);
      if out.None? {
        SomeRaises(scanned, rows, where);
      } else {
        NothingRaises(scanned, rows, where);
      }
    }

    method DeleteAll(toDelete: seq<(Ref, Row)>)
      requires Sound() && PartOf(toDelete, rows)
      modifies this`rows, store.pager, trees.manager.indexes.Values
      ensures trees.manager.indexes == old(trees.manager.indexes)
      ensures Tall() <= old(Tall()) && store.pager.nextPageId == old(store.pager.nextPageId)
      ensures Sound() && (old(Valid()) ==> Valid())
      ensures Without(old(rows), rows, toDelete, |toDelete|) && Cut(old(store.Views()), store.Views(), toDelete, |toDelete|)
    {
      hide PartOf, Without, Cut, Sound, AllExact, LiveAt, Data.TablePages.Views, Tall;
      ghost var exact := Valid();
      NothingGone(rows, toDelete);
      NothingCut(store.Views(), toDelete);
      for k := 0 to |toDelete|
        invariant Sound() && (exact ==> Valid()) && trees.manager.indexes == old(trees.manager.indexes)
        invariant Tall() <= old(Tall()) && store.pager.nextPageId == old(store.pager.nextPageId)
        invariant Without(old(rows), rows, toDelete, k) && Cut(old(store.Views()), store.Views(), toDelete, k)
      {
        StillThere(old(rows), rows, toDelete, k);
        LiveRow(toDelete[k].0);
        OneMoreCut(old(store.Views()), store.Views(), toDelete, k);
        DeleteRow(toDelete[k].0, toDelete[k].1);
      }
    }

    lemma LiveRow(ref: Ref)
      requires Sound() && ref in rows
      ensures LiveAt(store.Views(), ref)
    {
      hide DecodedRow, RowFits, Data.AllSound, Data.ViewsOf;
      HeldIsLive(columns, store.Views(), rows, ref);
    }

    method DeleteRow(ref: Ref, row: Row)
      requires Sound() && ref in rows && rows[ref] == row && LiveAt(store.Views(), ref)
      modifies this`rows, store.pager, trees.manager.indexes.Values
      ensures trees.manager.indexes == old(trees.manager.indexes)
      ensures Tall() <= old(Tall()) && store.pager.nextPageId == old(store.pager.nextPageId)
      ensures Sound() && (old(Valid()) ==> Valid()) && rows == old(rows) - {ref}
      ensures store.Views() == old(store.Views())[ref.page := Step(old(store.Views())[ref.page], DeleteSlot(ref.slot))]
    {
      hide Holds, AllExact, SchemaOk, TreesOk, OnePager, Removed, Step, Payload, Tall, Data.TablePages.Valid, Data.TablePages.Views, Trees.TableTrees.Maps;
      ghost var maps: seq<Index> := trees.Maps();
      RowFitsIn(ref);
      OnOnePager();
      Tombstone(ref);
      UnindexRow(row);
      if AllExact(columns, maps, rows) {
        RemovedIsExact(columns, maps, rows, ref);
      }
      rows := rows - {ref};
    }

    lemma RowFitsIn(ref: Ref)
      requires Stored() && ref in rows
      ensures |rows[ref]| == |columns| && Payload(rows[ref], Types(columns)).Some?
    {
      hide Holds, Payload;
      RowsFit();
      assert RowFits(columns, rows[ref]);
    }

    /** The page loses the row, the trees stand. */
    method Tombstone(ref: Ref)
      requires Sound() && ref in rows && LiveAt(store.Views(), ref)
      modifies store.pager`pages
      ensures store.Valid() && Holds(columns, store.Views(), rows - {ref})
      ensures store.Views() == old(store.Views())[ref.page := Step(old(store.Views())[ref.page], DeleteSlot(ref.slot))]
      ensures TreesOk() && OnePager() && trees.Maps() == old(trees.Maps())
    {
      hide Holds, SchemaOk, Step, Data.AllSound, Data.ViewsOf, Trees.OwnedBy, Trees.Regular;
      hide Indexing.Standing, Indexing.Remembered;
      ghost var pages: map<nat, Bytes> := store.pager.pages;
      ghost var live := store.pager.live;
      Indexing.StandingIsRemembered(trees.manager.indexes, trees.manager.pager);
      RemoveFromPage(ref);
      trees.DataWritten(pages, live);
    }

    method RemoveFromPage(ref: Ref)
      requires Stored() && ref in rows && LiveAt(store.Views(), ref)
      modifies store.pager`pages
      ensures store.Valid() && Holds(columns, store.Views(), rows - {ref})
      ensures store.Views() == old(store.Views())[ref.page := Step(old(store.Views())[ref.page], DeleteSlot(ref.slot))]
      ensures ref.page in store.dataPages && forall p :: p != ref.page ==> store.pager.Read(p) == old(store.pager.Read(p))
    {
      hide Holds, Data.AllSound, Data.ViewsOf;
      RowRemoved(columns, store.Views(), rows, ref);
      store.Listed();
      var page := store.Load(ref.page);
      var ok := page.Delete(ref.slot);
      page.RoomyIsFree();
      store.Store(ref.page, page);
    }

    // -- equality lookups --

    /** `_exec_indexed_select`: the key's row, read by its reference. `None` is a CodecError. */
    method IndexedSelect(c: nat, lit: Datum) returns (out: Option<seq<(Ref, Row)>>)
      requires Valid() && c < |columns| && (columns[c].unique || columns[c].primaryKey) && DatumOk(lit)
      ensures out.None? <==> Encode(columns[c].ctype, lit).None?
      ensures out.Some? ==> Selects(out.value, rows, c, Canonical(columns[c].ctype, lit))
    {
      hide Holds, AllExact, Encode, Canonical, SchemaOk, NotOwned, Data.AllSound, Data.ViewsOf, Trees.OwnedBy, Trees.TableTrees.Valid, Trees.TableTrees.Maps;
      var key := Encode(columns[c].ctype, lit);
      if key.None? {
        return None;
      }
      RowsFit();
      ghost var index := trees.Maps()[c];
      ExactColumn(columns, trees.Maps(), rows, c);
      KeyWidthsAreGood(columns);
      var found := trees.Get(c, key.value);
      if found.None? {
        KeyAbsent(columns, c, index, rows, lit);
        return Some([]);
      }
      var ref := found.value;
      KeyPresent(columns, c, index, rows, lit);
      HeldIsLive(columns, store.Views(), rows, ref);
      var row := ReadCell(ref);
      return Some([(ref, row)]);
    }

    /** The same equality by scanning. `None` is the TypeError of the first row: the literal has
        not the column's own type, or is out of its range. */
    method ScanSelect(c: nat, lit: Datum) returns (out: Option<seq<(Ref, Row)>>)
      requires Stored() && c < |columns|
      ensures out.None? <==> rows != map[] && !Comparable(columns[c].ctype, lit)
      ensures out.Some? ==> Selects(out.value, rows, c, lit) && InPageOrder(store.dataPages, out.value)
    {
      hide Holds, Selects, Comparable, Data.AllSound, Data.ViewsOf, InPageOrder;
      var scanned := ScanTable();
      var where := EqualAt(columns[c].ctype, c, lit);
      out := PickWhere(scanned, where);
      PickedInOrder(store.dataPages, scanned, where, |scanned|);
      EqualByScan(columns[c].ctype, c, lit, scanned, rows);
    }

    /** The fast path and the scan give the same result, or both raise, exactly when `SameAnswer`
        says so. */
    method SelectBothWays(c: nat, lit: Datum) returns (fast: Option<seq<(Ref, Row)>>, scan: Option<seq<(Ref, Row)>>)
      requires Valid() && c < |columns| && (columns[c].unique || columns[c].primaryKey) && DatumOk(lit)
      ensures fast.Some? <==> Encode(columns[c].ctype, lit).Some?
      ensures fast.Some? ==> Selects(fast.value, rows, c, Canonical(columns[c].ctype, lit))
      ensures scan.None? <==> rows != map[] && !Comparable(columns[c].ctype, lit)
      ensures scan.Some? ==> Selects(scan.value, rows, c, lit)
      ensures fast == scan <==> SameAnswer(columns[c], rows, c, lit)
    {
      hide Holds, AllExact, Encode, Canonical, Selects, Comparable, SchemaOk, NotOwned, Data.AllSound, Data.ViewsOf, Trees.OwnedBy, Trees.TableTrees.Valid,
           Trees.TableTrees.Maps;
      fast := IndexedSelect(c, lit);
      scan := ScanSelect(c, lit);
      RowsFit();
      BothAnswers(columns, trees.Maps(), rows, c, lit, fast, scan);
    }
  }

  /** An INSERT stopped by a row that overruns its page. */
  lemma Leaves(columns: seq<Column>, was: Content, mid: Content, values: seq<Row>, refs: seq<Ref>, i: nat)
    requires i < |values| && Took(columns, was, mid, values[..i], refs) && AcceptableOn(columns, values[i], mid.chain, values[..i])
    requires RowImage(values[i], Types(columns)).Some?
    ensures Placed(mid.chain, RowImage(values[i], Types(columns)).value).None? ==> Progress(columns, was.chain, values) == Overrun
  {
    hide AllExact, AllAcceptable, KeysFree, AcceptableOn, Placed, RowImage, Progress, EnteredAll;
    assert values[..i + 1] == values[..i] + [values[i]];
    ProgressMore(columns, was.chain, values[..i], values[i]);
    if Placed(mid.chain, RowImage(values[i], Types(columns)).value).None? {
      ProgressStops(columns, was.chain, values, i + 1);
    }
  }

  lemma RepeatsNone(columns: seq<Column>, row: Row, rows: Rows, earlier: seq<Row>)
    ensures ClashFree(columns, row, rows) <==> forall r: Ref :: r in rows ==> !Repeats(columns, row, rows[r])
    ensures ClearOf(columns, row, earlier) <==> forall j :: 0 <= j < |earlier| ==> !Repeats(columns, row, earlier[j])
  {
    hide Clashes, Repeats;
    RepeatsIsClash(columns);
  }

  /** All rows up to the one that leaves the model may be inserted. */
  lemma LeavesAfter(columns: seq<Column>, was: Content, mid: Content, values: seq<Row>, refs: seq<Ref>, i: nat)
    requires i < |values| && Took(columns, was, mid, values[..i], refs) && Acceptable(columns, values[i], mid.rows, values[..i])
    requires forall j :: 0 <= j < |values| ==> RowOk(values[j])
    ensures MayInsertAll(columns, values[..i + 1], was.rows)
  {
    hide AllExact, KeysFree, Acceptable, Accepted, MayInsertAll, Progress, EnteredAll, Added, KeyFree, RowOk;
    var upTo := values[..i + 1];
    assert upTo == values[..i] + [values[i]];
    AcceptedNow(columns, values[..i], values[i], was.rows, mid.rows, refs);
    PrefixAccepted(columns, values[..i], values[i], was.rows);
    AllAcceptedMayInsert(columns, upTo, was.rows);
  }

  lemma TookMayInsert(columns: seq<Column>, was: Content, now: Content, values: seq<Row>, refs: seq<Ref>)
    requires Took(columns, was, now, values, refs) && forall j :: 0 <= j < |values| ==> RowOk(values[j])
    ensures MayInsertAll(columns, values, was.rows)
    ensures Filled(columns, was.rows) ==> Filled(columns, now.rows)
  {
    hide AllExact, KeysFree, AllAcceptable, MayInsertAll, Progress, EnteredAll, Added, RowOk, Filled;
    AllAcceptedMayInsert(columns, values, was.rows);
    if Filled(columns, was.rows) {
      StaysFilled(columns, was.rows, now.rows, values, refs);
    }
  }

  /** An INSERT stopped by a row that is refused. */
  lemma Refuses(columns: seq<Column>, was: Content, mid: Content, values: seq<Row>, refs: seq<Ref>, i: nat)
    requires i < |values| && Took(columns, was, mid, values[..i], refs)
    requires !Acceptable(columns, values[i], mid.rows, values[..i]) && !AcceptableOn(columns, values[i], mid.chain, values[..i])
    ensures Progress(columns, was.chain, values) == Refused && !AllAcceptable(columns, values, was.rows)
  {
    hide AllExact, KeysFree, Acceptable, AcceptableOn, Placed, RowImage, Progress, EnteredAll, Added, ClearOf, KeyFree;
    var upTo := values[..i + 1];
    assert upTo == values[..i] + [values[i]];
    ProgressMore(columns, was.chain, values[..i], values[i]);
    ProgressStops(columns, was.chain, values, i + 1);
    AcceptedNow(columns, values[..i], values[i], was.rows, mid.rows, refs);
    assert upTo[..i] == values[..i];
    assert !Accepted(columns, values, i, was.rows);
  }

  lemma ValueHasKey(columns: seq<Column>, row: Row, c: nat)
    requires c < |columns| == |row| && Payload(row, Types(columns)).Some? && row[c].Some?
    ensures Encode(columns[c].ctype, row[c].value).Some?
    ensures SchemaOk(columns) && Indexed(columns[c]) ==> Widths(columns)[c] == Some(|Encode(columns[c].ctype, row[c].value).value|)
  {
    hide Encode, Payload, SchemaOk;
    PayloadEncodes(row, Types(columns));
    if SchemaOk(columns) && Indexed(columns[c]) {
      KeyWidthsAreGood(columns);
      KeyHasWidth(columns[c].ctype, row[c].value);
    }
  }

  lemma NoSteps(columns: nat)
    ensures InsertSteps(columns, 0) == 0 && RunSteps(columns, []) == 0
  {
  }

  lemma NothingListed(ids: seq<nat>)
    ensures InPageOrder(ids, []) && ListedBefore(ids, [], 0, 0)
  {
  }

  lemma NothingHeld(columns: seq<Column>, root: nat, maps: seq<Index>)
    requires |maps| == |columns| && forall c :: 0 <= c < |columns| && Indexed(columns[c]) ==> maps[c] == map[]
    ensures Holds(columns, map[root := Data.EmptyPage()], map[]) && AllExact(columns, maps, map[])
  {
  }

  /** The root page of a new table; the trees there are stand. */
  method FirstPage(manager: Indexing.IndexManager) returns (store: Data.TablePages)
    requires manager.Valid()
    modifies manager.pager
    ensures fresh(store) && store.Valid() && store.pager == manager.pager && manager.Valid() && |store.dataPages| == 1
    ensures manager.pager.nextPageId <= old(manager.pager.nextPageId) + 1
    ensures NotOwned(Trees.ShapesOf(manager.indexes), store.dataPages) && store.Views() == map[store.dataPages[0] := Data.EmptyPage()]
  {
    hide Data.AllSound, Data.ViewsOf, Indexing.Standing, Indexing.Remembered, Trees.OwnedBy;
    ghost var pages: map<nat, Bytes> := manager.pager.pages;
    ghost var live := manager.pager.live;
    Indexing.StandingIsRemembered(manager.indexes, manager.pager);
    Trees.OwnedIsLive(manager);
    store := new Data.TablePages(manager.pager);
    var root := store.Append();
    Trees.TreesStand(manager, pages, live);
  }

  /** Empty trees for the indexed columns; the data pages are left alone. */
  method NewTrees(manager: Indexing.IndexManager, name: string, columns: seq<Column>, store: Data.TablePages)
      returns (trees: Trees.TableTrees)
    requires manager.Valid() && SchemaOk(columns) && store.Valid() && store.pager == manager.pager
    requires NotOwned(Trees.ShapesOf(manager.indexes), store.dataPages)
    modifies manager`indexes
    ensures fresh(trees) && trees.Valid() && trees.manager == manager && trees.names == Names(columns) && trees.widths == Widths(columns)
    ensures NotOwned(Trees.ShapesOf(manager.indexes), store.dataPages)
    ensures forall c :: 0 <= c < |columns| && Indexed(columns[c]) ==> trees.Maps()[c] == map[]
    ensures Indexing.Tallest(manager.indexes) <= old(Indexing.Tallest(manager.indexes))
    ensures forall k :: k in manager.indexes ==> fresh(manager.indexes[k]) || manager.indexes[k] in old(manager.indexes.Values)
  {
    hide Indexing.Standing, PagedBTree.GoodWidth, SchemaOk, Trees.Regular, Trees.OwnedBy, Indexing.Tallest;
    KeyWidthsAreGood(columns);
    trees := new Trees.TableTrees(manager, name, Names(columns), Widths(columns));
  }

  // ---- whole sessions -------------------------------------------------------

  predicate GivenOk(statements: seq<Statement>) {
    forall i, j :: 0 <= i < |statements| && statements[i].InsertInto? && 0 <= j < |statements[i].values| ==> RowOk(statements[i].values[j])
  }

  predicate GivenWhole(columns: seq<Column>, statements: seq<Statement>) {
    forall i, j :: 0 <= i < |statements| && statements[i].InsertInto? && 0 <= j < |statements[i].values| ==>
      WholeRow(columns, statements[i].values[j])
  }

  /** Statements whose rows are stored as they are take no key twice. */
  lemma WholeRunKeepsKeys(columns: seq<Column>, chain: Chain, statements: seq<Statement>)
    requires GivenWhole(columns, statements)
    ensures KeepsKeys(columns, chain, statements)
  {
    hide After, WholeRow, KeysFreeOn, Progress;
    forall i | 0 <= i < |statements| && After(columns, chain, statements[..i]).Some?
      ensures KeepsOne(columns, After(columns, chain, statements[..i]).value, statements[i])
    {
      var now := After(columns, chain, statements[..i]).value;
      if statements[i].InsertInto? && Progress(columns, now, statements[i].values).At? {
        WholeKeepsKeys(columns, now, statements[i].values);
      }
    }
  }

  lemma StaysExact(columns: seq<Column>, was: Content, now: Content, values: seq<Row>, refs: seq<Ref>)
    requires Took(columns, was, now, values, refs) && AllExact(columns, was.maps, was.rows)
    requires KeysFreeOn(columns, values, was.chain) <==> KeysFree(columns, values, was.rows)
    ensures AllExact(columns, now.maps, now.rows) <==> KeepsOne(columns, was.chain, InsertInto(values))
  {
    hide AllExact, AllAcceptable, KeysFree, KeysFreeOn, Progress, EnteredAll, Added;
  }

  function StatementSteps(columns: nat, statement: Statement): nat {
    if statement.InsertInto? then InsertSteps(columns, |statement.values|) else 0
  }

  /** The steps of a run. */
  function RunSteps(columns: nat, statements: seq<Statement>): nat {
    if statements == [] then 0 else
      RunSteps(columns, statements[..|statements| - 1]) + StatementSteps(columns, statements[|statements| - 1])
  }

  lemma {:induction false} RunStepsGrow(columns: nat, statements: seq<Statement>, i: nat)
    requires i <= |statements|
    ensures RunSteps(columns, statements[..i]) <= RunSteps(columns, statements)
    decreases |statements|
  {
    if i == |statements| {
      assert statements[..i] == statements;
    } else {
      var k := |statements| - 1;
      assert statements[..k][..i] == statements[..i];
      RunStepsGrow(columns, statements[..k], i);
    }
  }

  lemma RunStepsMore(columns: nat, statements: seq<Statement>, i: nat)
    requires i < |statements|
    ensures RunSteps(columns, statements[..i + 1]) == RunSteps(columns, statements[..i]) + StatementSteps(columns, statements[i])
  {
    assert statements[..i + 1][..i] == statements[..i];
  }

  /** Any run of INSERT and DELETE statements, failed ones included, on a pager with page ids
      enough. It gets to its end exactly when no row overruns its page, and then the pages are as
      `After` says. */
  method RunStatements(table: Table, statements: seq<Statement>) returns (ok: bool)
    requires table.Sound() && GivenOk(statements)
    modifies table, table.store, table.store.pager, table.trees.manager, table.trees.manager.indexes.Values
    ensures ok ==> table.Sound() && After(table.columns, old(table.Chain()), statements) == Some(table.Chain())
    ensures !ok ==>
      || After(table.columns, old(table.Chain()), statements).None?
      || !IdsLast(old(table.store.pager.nextPageId), old(table.Tall()), RunSteps(|table.columns|, statements))
    ensures ok && old(table.Valid()) && KeepsKeys(table.columns, old(table.Chain()), statements) ==> table.Valid()
    ensures ok && old(Filled(table.columns, table.rows)) ==> Filled(table.columns, table.rows)
  {
    hide Holds, AllExact, Took, Progress, KeepsOne, Filled, RowOk, Swept, RaisesOn, ChainOf, Spent, IdsLast, RunSteps, StatementSteps, AfterOne, Table.Tall, SchemaOk, NotOwned, Data.AllSound, Data.ViewsOf, Trees.OwnedBy,
         Trees.TableTrees.Valid, Trees.TableTrees.Maps;
    ghost var chain := table.Chain();
    ghost var exact := table.Valid() && KeepsKeys(table.columns, chain, statements);
    ghost var tall, next, width := table.Tall(), table.store.pager.nextPageId, |table.columns|;
    SpentNothing(tall, next, 0);
    NoSteps(width);
    assert statements[..0] == [];
    for i := 0 to |statements|
      invariant table.Sound() && (exact ==> table.Valid())
      invariant old(Filled(table.columns, table.rows)) ==> Filled(table.columns, table.rows)
      invariant After(table.columns, chain, statements[..i]) == Some(table.Chain())
      invariant Spent(tall, next, RunSteps(width, statements[..i]), table.Tall(), table.store.pager.nextPageId)
      invariant forall k :: k in table.trees.manager.indexes ==>
                  fresh(table.trees.manager.indexes[k]) || table.trees.manager.indexes[k] in old(table.trees.manager.indexes.Values)
    {
      AfterMore(table.columns, chain, statements, i);
      RunStepsMore(width, statements, i);
      ghost var high, ids := table.Tall(), table.store.pager.nextPageId;
      assert exact ==> KeepsOne(table.columns, table.Chain(), statements[i]);
      var left := RunOne(table, statements[i]);
      SpentMore(tall, next, RunSteps(width, statements[..i]), high, ids, StatementSteps(width, statements[i]),
                table.Tall(), table.store.pager.nextPageId);
      if left {
        LeftRun(table.columns, chain, statements, i);
        RunOut(tall, next, width, statements, i, high, ids);
        return false;
      }
    }
    assert statements[..|statements|] == statements;
    return true;
  }

  /** One statement of a run; `left` when it leaves the model. Exact indexes stay exact if and only
      if it stores no key that is taken. */
  method RunOne(table: Table, statement: Statement) returns (left: bool)
    requires table.Sound() && GivenOk([statement])
    modifies table, table.store, table.store.pager, table.trees.manager, table.trees.manager.indexes.Values
    ensures forall k :: k in table.trees.manager.indexes ==>
              fresh(table.trees.manager.indexes[k]) || table.trees.manager.indexes[k] in old(table.trees.manager.indexes.Values)
    ensures Spent(old(table.Tall()), old(table.store.pager.nextPageId), StatementSteps(|table.columns|, statement),
                  table.Tall(), table.store.pager.nextPageId)
    ensures !left && old(Filled(table.columns, table.rows)) ==> Filled(table.columns, table.rows)
    ensures !left ==>
      && table.Sound() && (old(table.Valid()) ==> (table.Valid() <==> KeepsOne(table.columns, old(table.Chain()), statement)))
      && AfterOne(table.columns, old(table.Chain()), statement) == Some(table.Chain())
    ensures left ==>
      || AfterOne(table.columns, old(table.Chain()), statement).None?
      || !IdsLast(old(table.store.pager.nextPageId), old(table.Tall()), StatementSteps(|table.columns|, statement))
  {
    hide Table.Sound, AllExact, Filled, MayInsertAll, HasNeeded, Progress, RowOk, KeysFreeOn, ChainOf, Swept, RaisesOn, Spent, IdsLast, InsertSteps, Table.Tall, AllAcceptable, KeysFree,
         Added, EnteredAll;
    ghost var was, exact := table.Now(), table.Valid();
    match statement
    case InsertInto(values) =>
      assert [statement][0] == statement;
      table.KeysOnPages(values);
      ghost var refs;
      var outcome;
      outcome, refs := table.Insert(values);
      if outcome == Done && exact {
        StaysExact(table.columns, was, table.Now(), values, refs);
      }
      left := outcome == LeavesModel;
    case DeleteFrom(where) =>
      ghost var tall, next := table.Tall(), table.store.pager.nextPageId;
      ghost var rows := table.rows;
      var outcome := table.Delete(where);
      if Filled(table.columns, rows) {
        FewerFilled(table.columns, rows, table.rows);
      }
      left := false;
      SpentNoMore(tall, next, table.Tall(), table.store.pager.nextPageId);
  }

  lemma SpentNoMore(tall: nat, next: nat, high: nat, ids: nat)
    requires high <= tall && ids == next
    ensures Spent(tall, next, 0, high, ids)
  {
  }

  lemma LeftRun(columns: seq<Column>, chain: Chain, statements: seq<Statement>, i: nat)
    requires i < |statements|
    ensures After(columns, chain, statements[..i + 1]).None? ==> After(columns, chain, statements).None?
  {
    if After(columns, chain, statements[..i + 1]).None? {
      AfterStops(columns, chain, statements, i + 1);
    }
  }

  /** Page ids that do not last for one statement do not last for the run. */
  lemma RunOut(tall: nat, next: nat, width: nat, statements: seq<Statement>, i: nat, high: nat, ids: nat)
    requires i < |statements| && Spent(tall, next, RunSteps(width, statements[..i]), high, ids)
    ensures !IdsLast(ids, high, StatementSteps(width, statements[i])) ==> !IdsLast(next, tall, RunSteps(width, statements))
  {
    hide RunSteps, StatementSteps;
    var a, b, n := RunSteps(width, statements[..i]), StatementSteps(width, statements[i]), RunSteps(width, statements);
    RunStepsMore(width, statements, i);
    RunStepsGrow(width, statements, i + 1);
    IdCostSum(tall, a, b);
    IdCostGrows(high, tall + a, b, b);
    IdCostGrows(tall, tall, a + b, n);
  }

  predicate SharesValue(rows: Rows, c: nat, r: Ref, s: Ref)
    requires r in rows && s in rows
  {
    c < |rows[r]| && c < |rows[s]| && rows[r][c].Some? && rows[r][c] == rows[s][c]
  }

  /** After any run of statements that takes no key twice (`KeepsKeys`), no two live rows share a
      non-NULL value of an indexed column, and looking any literal up by index gives what scanning
      for it gives exactly when `SameAnswer` says so. */
  method RunThenSelect(table: Table, statements: seq<Statement>, c: nat, lit: Datum)
      returns (ok: bool, fast: Option<seq<(Ref, Row)>>, scan: Option<seq<(Ref, Row)>>)
    requires table.Valid() && DatumOk(lit)
    requires c < |table.columns| && (table.columns[c].unique || table.columns[c].primaryKey)
    requires GivenOk(statements) && KeepsKeys(table.columns, table.Chain(), statements)
    modifies table, table.store, table.store.pager, table.trees.manager, table.trees.manager.indexes.Values
    ensures ok ==> table.Valid() && After(table.columns, old(table.Chain()), statements) == Some(table.Chain())
    ensures !ok ==>
      || After(table.columns, old(table.Chain()), statements).None?
      || !IdsLast(old(table.store.pager.nextPageId), old(table.Tall()), RunSteps(|table.columns|, statements))
    ensures ok && old(Filled(table.columns, table.rows)) ==> Filled(table.columns, table.rows)
    ensures ok ==> forall r: Ref, s: Ref :: r in table.rows && s in table.rows && SharesValue(table.rows, c, r, s) ==> r == s
    ensures ok ==>
      && (fast.Some? <==> Takes(table.columns[c].ctype, lit))
      && (fast.Some? ==> Selects(fast.value, table.rows, c, Canonical(table.columns[c].ctype, lit)))
      && (scan.None? <==> table.rows != map[] && !Comparable(table.columns[c].ctype, lit))
      && (scan.Some? ==> Selects(scan.value, table.rows, c, lit))
    ensures ok ==> (fast == scan <==> SameAnswer(table.columns[c], table.rows, c, lit))
  {
    hide Holds, AllExact, Filled, GivenOk, KeepsKeys, After, ChainOf, SameAnswer, Encode, Takes, Canonical, Selects, Comparable, SchemaOk, NotOwned, Data.AllSound,
         Data.ViewsOf, Trees.OwnedBy, Trees.TableTrees.Valid, Trees.TableTrees.Maps;
    fast, scan := None, None;
    ok := RunStatements(table, statements);
    if ok {
      forall r: Ref, s: Ref | r in table.rows && s in table.rows && SharesValue(table.rows, c, r, s) ensures r == s {
        NoTwoShareAKey(table.columns, table.trees.Maps(), table.rows, c, r, s);
      }
      EncodesExactly(table.columns[c].ctype, lit);
      fast, scan := table.SelectBothWays(c, lit);
    }
  }

  // ---- where the two lookups, and the two checks, part ----------------------

  /** A BIGINT primary key with one row: the index finds it, the scan raises on it. */
  lemma BigintScanRaises(ref: Ref)
    ensures var column, row, lit := Column("id", IntType(8), false, false, true), [Some(IntValue(5))], IntValue(5);
      && SchemaOk([column]) && Encode(column.ctype, lit).Some?
      && AllExact([column], [map[Encode(column.ctype, lit).value := ref]], map[ref := row])
      && Selects([(ref, row)], map[ref := row], 0, Canonical(column.ctype, lit))
      && EqualAt(column.ctype, 0, lit)(row).None? && !SameAnswer(column, map[ref := row], 0, lit)
  {
    hide PackBE;
    Pow256Values();
    var column, row, lit := Column("id", IntType(8), false, false, true), [Some(IntValue(5))], IntValue(5);
    assert 4086 % 14 == 12;
    var rows := map[ref := row];
    var out := [(ref, row)];
    assert out[0].0 == ref && ref in rows;
    assert KeyAt([column], row, 0) == Encode(column.ctype, lit);
    assert HasValue(rows, 0, lit);
  }

  /** A row that is accepted although its key is taken takes the index entry over: the row that had
      it is live, has the same stored value, and is not found any more. */
  lemma PaddedRowTakesOver(columns: seq<Column>, was: Content, now: Content, row: Row, ref: Ref, c: nat, r: Ref)
    requires Took(columns, was, now, [row], [ref]) && AllExact(columns, was.maps, was.rows)
    requires RowOk(row) && c < |columns| == |row| && Indexed(columns[c]) && row[c].Some?
    requires r in was.rows && c < |was.rows[r]| && was.rows[r][c] == Kept(columns, row)[c]
    ensures row[c] != Kept(columns, row)[c] && r != ref && r in now.rows && ref in now.rows
    ensures SharesValue(now.rows, c, r, ref) && !AllExact(columns, now.maps, now.rows)
    ensures KeyAt(columns, now.rows[r], c).Some? && Points(was.maps[c], KeyAt(columns, now.rows[r], c), r)
    ensures Points(now.maps[c], KeyAt(columns, now.rows[r], c), ref)
  {
    hide Encode, Canonical, Progress, KeysFree, Kept, Payload, AllExact, EnteredAll;
    var kept := Kept(columns, row);
    KeptIsThere(columns, row, c);
    assert KeptAll(columns, [row]) == [kept] && [ref][0] in [ref] && [kept][0] == kept;
    assert Accepted(columns, [row], 0, was.rows);
    assert now.rows[ref] == kept && now.rows[r] == was.rows[r];
    hide Added;
    assert !Clashes(columns, row, was.rows[r]);
    ExactColumn(columns, was.maps, was.rows, c);
    assert Points(was.maps[c], KeyAt(columns, was.rows[r], c), r);
    EnteredOne(columns, was.maps, kept, ref);
    if AllExact(columns, now.maps, now.rows) {
      NoTwoShareAKey(columns, now.maps, now.rows, c, r, ref);
    }
  }

  lemma KeptIsThere(columns: seq<Column>, row: Row, c: nat)
    requires c < |columns| == |row|
    ensures Kept(columns, row)[c].Some? <==> row[c].Some?
  {
  }

  lemma EnteredOne(columns: seq<Column>, maps: seq<Index>, row: Row, ref: Ref)
    requires |maps| == |columns|
    ensures EnteredAll(columns, maps, [row], [ref]) == Entered(columns, maps, row, ref, |columns|)
  {
    assert [row][..0] == [] && [ref][..0] == [];
    assert EnteredAll(columns, maps, [], []) == maps;
  }

  // ---- a row lost -----------------------------------------------------------

  /** A table with one column, CHAR(3) UNIQUE. */
  function PaddedColumns(): seq<Column> {
    [Column("a", CharType(3), true, true, false)]
  }

  /** 'a', and what is stored of it. */
  function ShortRow(): Row {
    [Some(TextValue([97]))]
  }

  function PaddedRow(): Row {
    [Some(TextValue([97, 32, 32]))]
  }

  lemma PaddedSchema()
    ensures SchemaOk(PaddedColumns())
  {
    assert 4086 % 11 == 5;
  }

  lemma ShortIsKept()
    ensures RowOk(ShortRow()) && Kept(PaddedColumns(), ShortRow()) == PaddedRow()
    ensures RowImage(ShortRow(), Types(PaddedColumns())).Some? && |RowImage(ShortRow(), Types(PaddedColumns())).value| == 6
  {
    hide U16;
    var row, schema := ShortRow(), Types(PaddedColumns());
    assert schema == [CharType(3)];
    assert row[..0] == [] && schema[..0] == [];
    assert Payload([], []) == Some([]);
    assert Encode(CharType(3), TextValue([97])).Some?;
    assert [97] + Spaces(2) == [97, 32, 32];
    assert Kept(PaddedColumns(), row)[0] == PaddedRow()[0];
  }

  function PaddedKey(): Bytes {
    U16(3) + [97, 32, 32]
  }

  lemma KeyOfPadded()
    ensures KeyAt(PaddedColumns(), PaddedRow(), 0) == Some(PaddedKey())
  {
    hide U16;
    assert [97, 32, 32] + Spaces(0) == [97, 32, 32];
  }

  lemma ShortIsAccepted(rows: Rows)
    requires forall r: Ref :: r in rows ==> rows[r] == PaddedRow()
    ensures AllAcceptable(PaddedColumns(), [ShortRow()], rows)
  {
    ShortIsKept();
    hide Payload, RowImage, Kept;
    var columns, row := PaddedColumns(), ShortRow();
    assert KeptAll(columns, [row][..0]) == [];
    assert ShapeOk(columns, row);
    assert !Clashes(columns, row, PaddedRow()) by { assert row[0] != PaddedRow()[0]; }
    assert Accepted(columns, [row], 0, rows);
  }

  /** Two short rows fit the first page. */
  lemma ShortRoom(image: Bytes)
    requires |image| == 6
    ensures var one := Put(Data.EmptyPage(), 0, image);
      Placed([Data.EmptyPage()], image) == Some([one]) && Placed([one], image).Some?
  {
    var one := Put(Data.EmptyPage(), 0, image);
    FirstIs([Data.EmptyPage()], 6, 0);
    assert [Data.EmptyPage()][0 := one] == [one];
    assert SlotFor(Data.EmptyPage(), 6) == Some(0);
    assert one.cells == [Cell(Some(image), 6)] && one.cells[1..] == [];
    assert Reusable(one.cells, 6) == 1;
    FirstIs([one], 6, 0);
  }

  lemma NotOverrun(columns: seq<Column>, chain: Chain, row: Row)
    requires RowImage(row, Types(columns)).Some? && Placed(chain, RowImage(row, Types(columns)).value).Some?
    ensures var stage := Progress(columns, chain, [row]);
      stage == Refused || stage == At(Placed(chain, RowImage(row, Types(columns)).value).value)
  {
    hide AcceptableOn, Placed, RowImage;
    assert [] + [row] == [row];
    ProgressMore(columns, chain, [], row);
  }

  /** What one short row does to a table of such rows. */
  lemma OneShortRow(was: Content, now: Content, refs: seq<Ref>)
    requires Took(PaddedColumns(), was, now, [ShortRow()], refs)
    ensures |refs| == 1 && refs[0] !in was.rows && now.rows == was.rows[refs[0] := PaddedRow()]
    ensures |was.maps| == 1 && now.maps == [was.maps[0][PaddedKey() := refs[0]]]
    ensures Progress(PaddedColumns(), was.chain, [ShortRow()]) == At(now.chain)
  {
    ShortIsKept();
    KeyOfPadded();
    hide Kept, AllExact, AllAcceptable, KeysFree, Progress, KeyAt;
    var columns, ref := PaddedColumns(), refs[0];
    assert KeptAll(columns, [ShortRow()]) == [PaddedRow()] && refs == [ref];
    assert ref in refs;
    EnteredOne(columns, was.maps, PaddedRow(), ref);
  }

  method InsertShort(table: Table) returns (outcome: Outcome, ghost ref: Ref)
    requires table.Sound() && table.columns == PaddedColumns() && forall r: Ref :: r in table.rows ==> table.rows[r] == PaddedRow()
    requires Placed(table.Chain(), RowImage(ShortRow(), Types(PaddedColumns())).value).Some?
    modifies table, table.store, table.store.pager, table.trees.manager, table.trees.manager.indexes.Values
    ensures forall k :: k in table.trees.manager.indexes ==>
              fresh(table.trees.manager.indexes[k]) || table.trees.manager.indexes[k] in old(table.trees.manager.indexes.Values)
    ensures Spent(old(table.Tall()), old(table.store.pager.nextPageId), 2, table.Tall(), table.store.pager.nextPageId)
    ensures outcome == Done || !IdsLast(old(table.store.pager.nextPageId), old(table.Tall()), 2)
    ensures outcome == Done ==>
      && table.Sound() && ref !in old(table.rows) && table.rows == old(table.rows)[ref := PaddedRow()]
      && |old(table.trees.Maps())| == 1 && table.trees.Maps() == [old(table.trees.Maps())[0][PaddedKey() := ref]]
      && Some(table.Chain()) == Placed(old(table.Chain()), RowImage(ShortRow(), Types(PaddedColumns())).value)
  {
    hide PaddedColumns, ShortRow, PaddedRow, PaddedKey, AllExact, Took, Progress, Placed, RowImage, AllAcceptable, RowOk, Table.Sound, ChainOf,
         Kept, Types, Table.Chain, Data.TablePages.Views, Trees.TableTrees.Maps, Spent, IdsLast, Table.Tall;
    TwoSteps();
    ShortIsKept();
    ShortIsAccepted(table.rows);
    ghost var was := table.Now();
    NotOverrun(table.columns, table.Chain(), ShortRow());
    ghost var refs;
    ref := Ref(0, 0);
    outcome, refs := table.Insert([ShortRow()]);
    if outcome == Done {
      OneShortRow(was, table.Now(), refs);
      ref := refs[0];
    }
  }

  lemma TwoSteps()
    ensures |PaddedColumns()| == 1 && InsertSteps(1, 1) == 2
  {
    assert InsertSteps(1, 0) == 0;
  }

  /** Two live rows with one stored value; the index has the second one only. */
  ghost predicate RowLost(now: Content, lost: Ref, found: Ref) {
    && lost != found && now.rows == map[lost := PaddedRow(), found := PaddedRow()]
    && now.maps == [map[PaddedKey() := found]]
  }

  /** Inserting 'a' twice into a fresh table: the second one is accepted, and the index loses the
      first one. */
  method PaddedDuplicate(manager: Indexing.IndexManager) returns (table: Table, outcome: Outcome, ghost lost: Ref, ghost found: Ref)
    requires manager.Valid()
    modifies manager, manager.pager, manager.indexes.Values
    ensures outcome == Done || !IdsLast(old(manager.pager.nextPageId), old(Indexing.Tallest(manager.indexes)), 5)
    ensures outcome == Done ==> table.Sound() && RowLost(table.Now(), lost, found) && !table.Valid()
  {
    hide PaddedColumns, ShortRow, PaddedRow, PaddedKey, SchemaOk, AllExact, Placed, RowImage, Put, Data.EmptyPage, Table.Sound, Table.Valid, ChainOf,
         Types, Kept, RowOk, Table.Chain, Indexing.Standing, Clashes, Data.TablePages.Views, Trees.TableTrees.Maps, Spent, IdsLast, Indexing.Tallest,
         Table.Tall;
    ghost var tall, next := Indexing.Tallest(manager.indexes), manager.pager.nextPageId;
    PaddedSchema();
    ShortIsKept();
    ShortRoom(RowImage(ShortRow(), Types(PaddedColumns())).value);
    found := Ref(0, 0);
    table := new Table("t", PaddedColumns(), manager);
    table.ValidIsExact();
    table.OnOnePager();
    NoIndexYet(table.columns, table.trees.Maps());
    assert forall t :: t in table.trees.manager.indexes.Values ==> fresh(t) || t in old(manager.indexes.Values);
    ghost var tall1, next1 := table.Tall(), manager.pager.nextPageId;
    outcome, lost := InsertShort(table);
    ghost var tall2, next2 := table.Tall(), manager.pager.nextPageId;
    FiveSteps(tall, next, tall1, next1, tall2, next2);
    if outcome == Done {
      ghost var rows, maps: seq<Index> := table.rows, table.trees.Maps();
      assert forall t :: t in table.trees.manager.indexes.Values ==> fresh(t) || t in old(manager.indexes.Values);
      outcome, found := InsertShort(table);
      if outcome == Done {
        TwoRows(rows, maps, table.Now(), lost, found);
        SamePadded();
        ClashBreaks(table.columns, table.trees.Maps(), table.rows, lost, found);
        table.ValidIsExact();
      }
    }
  }

  /** The first page and two rows of one column each. */
  lemma FiveSteps(tall: nat, next: nat, tall1: nat, next1: nat, tall2: nat, next2: nat)
    requires tall1 <= tall && next1 <= next + 1 && Spent(tall1, next1, 2, tall2, next2)
    ensures IdsLast(next, tall, 5) ==> IdsLast(next1, tall1, 2) && IdsLast(next2, tall2, 2)
  {
    SpentOne(tall, next, tall1, next1);
    SpentMore(tall, next, 1, tall1, next1, 2, tall2, next2);
    IdCostSum(tall, 1, 2);
    IdCostSum(tall, 3, 2);
    IdCostGrows(tall1, tall + 1, 2, 2);
    IdCostGrows(tall2, tall + 3, 2, 2);
  }

  lemma TwoRows(rows: Rows, maps: seq<Index>, now: Content, lost: Ref, found: Ref)
    requires rows == map[lost := PaddedRow()] && maps == [map[PaddedKey() := lost]] && found !in rows
    requires now.rows == rows[found := PaddedRow()] && now.maps == [maps[0][PaddedKey() := found]]
    ensures RowLost(now, lost, found)
  {
    var one: Index := map[PaddedKey() := lost];
    assert one[PaddedKey() := found] == map[PaddedKey() := found];
  }

  lemma NoIndexYet(columns: seq<Column>, maps: seq<Index>)
    requires columns == PaddedColumns() && AllExact(columns, maps, map[])
    ensures maps == [map[]]
  {
    assert Indexed(columns[0]) && Exact(columns, 0, maps[0], map[]);
    assert maps[0] == map[];
  }

  lemma SamePadded()
    ensures Clashes(PaddedColumns(), PaddedRow(), PaddedRow())
  {
    assert Indexed(PaddedColumns()[0]);
  }
}
