/** Rows of a table and what its indexes hold of them: which rows the constraints pipeline
    accepts, what an insert and a delete do to the indexes, and what lookups select
    (src/tinydb/executor.py, src/tinydb/index_manager.py). */
module TableRows {
  import opened ByteStrings
  import opened Wrappers
  import opened NodeCodec
  import opened RowCodec
  import opened SlottedPages
  import opened TableSpace
  import PagedBTree
  import Trees = TableTrees
  import Data = TablePages

  datatype Column = Column(name: string, ctype: ColumnType, nullable: bool, unique: bool, primaryKey: bool)

  /** UNIQUE columns and the primary key have an index. */
  predicate Indexed(c: Column) {
    c.unique || c.primaryKey
  }

  function Types(columns: seq<Column>): (r: seq<ColumnType>)
    ensures |r| == |columns| && forall i :: 0 <= i < |columns| ==> r[i] == columns[i].ctype
  {
    seq(|columns|, i requires 0 <= i < |columns| => columns[i].ctype)
  }

  function Names(columns: seq<Column>): (r: seq<string>)
    ensures |r| == |columns| && forall i :: 0 <= i < |columns| ==> r[i] == columns[i].name
  {
    seq(|columns|, i requires 0 <= i < |columns| => columns[i].name)
  }

  /** Types whose keys all have one width. */
  function KeyWidth(t: ColumnType): Option<nat> {
    match t
    case IntType(w) => Some(w)
    case BoolType => Some(1)
    case DateType => Some(4)
    case TimeType => Some(4)
    case CharType(n) => Some(2 + n)
    case _ => None
  }

  /** The key widths of the indexed columns. */
  function Widths(columns: seq<Column>): (r: seq<Option<nat>>)
    ensures |r| == |columns|
    ensures forall i :: 0 <= i < |columns| ==> r[i] == if Indexed(columns[i]) then KeyWidth(columns[i].ctype) else None
  {
    seq(|columns|, i requires 0 <= i < |columns| => if Indexed(columns[i]) then KeyWidth(columns[i].ctype) else None)
  }

  /** Column names are distinct, the primary key is one column; keys have one width, of which a
      tree can hold any number. */
  predicate SchemaOk(columns: seq<Column>) {
    && Trees.DistinctNames(Names(columns))
    && (forall i, j :: 0 <= i < j < |columns| && columns[i].primaryKey ==> !columns[j].primaryKey)
    && forall c :: 0 <= c < |columns| && Indexed(columns[c]) ==>
         KeyWidth(columns[c].ctype).Some? && PagedBTree.GoodWidth(KeyWidth(columns[c].ctype).value)
  }

  /** SMALLINT, INT, BIGINT, BOOL, DATE and TIME are such types. */
  lemma NumbersAreGoodKeys(t: ColumnType)
    requires t in {IntType(2), IntType(4), IntType(8), BoolType, DateType, TimeType}
    ensures KeyWidth(t).Some? && PagedBTree.GoodWidth(KeyWidth(t).value)
  {
    assert 4086 % 7 == 5 && 4086 % 8 == 6 && 4086 % 10 == 6 && 4086 % 14 == 12;
  }

  lemma KeyWidthsAreGood(columns: seq<Column>)
    requires SchemaOk(columns)
    ensures forall c :: 0 <= c < |columns| && Widths(columns)[c].Some? ==> PagedBTree.GoodWidth(Widths(columns)[c].value)
    ensures forall c :: 0 <= c < |columns| && Indexed(columns[c]) ==> Widths(columns)[c].Some?
    ensures Trees.DistinctNames(Names(columns))
  {
  }

  /** What is stored of a row. */
  function Kept(columns: seq<Column>, row: Row): (r: Row)
    ensures |r| == |row|
  {
    if |row| == |columns| then CanonicalRow(row, Types(columns)) else row
  }

  function KeptAll(columns: seq<Column>, values: seq<Row>): (r: seq<Row>)
    ensures |r| == |values| && forall i :: 0 <= i < |values| ==> r[i] == Kept(columns, values[i])
  {
    seq(|values|, i requires 0 <= i < |values| => Kept(columns, values[i]))
  }

  lemma KeyHasWidth(t: ColumnType, v: Datum)
    requires KeyWidth(t).Some? && Encode(t, v).Some?
    ensures |Encode(t, v).value| == KeyWidth(t).value
  {
  }

  /** The value is stored as it is: no CHAR to pad, no fraction of a second to drop. */
  predicate Whole(c: Column, v: Datum) {
    DatumOk(v) && Canonical(c.ctype, v) == v
  }

  lemma WholeMeans(c: Column, v: Datum)
    requires DatumOk(v) && Encode(c.ctype, v).Some?
    ensures Whole(c, v) <==> Intact(c.ctype, v)
  {
    CanonicalIsSame(c.ctype, v);
  }

  predicate WholeRow(columns: seq<Column>, row: Row) {
    |row| == |columns| ==> forall i :: 0 <= i < |row| && row[i].Some? ==> Whole(columns[i], row[i].value)
  }

  // ---- keys -----------------------------------------------------------------

  /** Values with the same key are the same once stored. */
  lemma KeyDecides(t: ColumnType, v: Datum, w: Datum)
    requires DatumOk(v) && DatumOk(w) && Encode(t, v).Some? && Encode(t, v) == Encode(t, w)
    ensures Canonical(t, v) == Canonical(t, w)
  {
    hide Encode, Decode, Canonical;
    var e := Encode(t, v).value;
    assert e[0..0 + |e|] == e;
    DecodesBack(t, v, e, 0);
    DecodesBack(t, w, e, 0);
  }

  /** A value that is not stored as it is has the key of the one that is stored, though it does
      not equal it: the duplicate check, which compares values, lets it through. */
  lemma KeyOfStored(t: ColumnType, v: Datum)
    requires DatumOk(v) && Encode(t, v).Some?
    ensures Encode(t, Canonical(t, v)) == Encode(t, v) && Canonical(t, Canonical(t, v)) == Canonical(t, v)
  {
    match (t, v)
    case (CharType(max), TextValue(s)) =>
      var padded := s + Spaces(max - |s|);
      assert |padded| == max && padded + Spaces(0) == padded;
    case _ =>
  }

  lemma StoredIsWhole(c: Column, v: Datum)
    requires DatumOk(v)
    ensures Whole(c, Canonical(c.ctype, v))
  {
    match (c.ctype, v)
    case (CharType(max), TextValue(s)) =>
      if |s| <= max {
        var padded := s + Spaces(max - |s|);
        assert |padded| == max && padded + Spaces(0) == padded;
      }
    case _ =>
  }

  /** A row has a payload when its values encode. */
  lemma {:induction false} PayloadEncodes(row: Row, schema: seq<ColumnType>)
    requires |row| == |schema|
    ensures Payload(row, schema).Some? <==> forall c :: 0 <= c < |row| && row[c].Some? ==> Encode(schema[c], row[c].value).Some?
  {
    hide Encode;
    if row != [] {
      PayloadEncodes(row[..|row| - 1], schema[..|row| - 1]);
    }
  }

  /** A row as the pages hold it: as wide as the table, of values stored as they are. */
  predicate RowFits(columns: seq<Column>, row: Row) {
    |row| == |columns| && WholeRow(columns, row) && Payload(row, Types(columns)).Some?
  }

  lemma KeptFits(columns: seq<Column>, row: Row)
    requires |row| == |columns| && RowOk(row) && Payload(row, Types(columns)).Some?
    ensures RowFits(columns, Kept(columns, row))
  {
    hide Encode, Canonical, Payload;
    var kept := Kept(columns, row);
    PayloadEncodes(row, Types(columns));
    PayloadEncodes(kept, Types(columns));
    forall c | 0 <= c < |row| && row[c].Some?
      ensures Whole(columns[c], kept[c].value) && Encode(columns[c].ctype, kept[c].value).Some?
    {
      StoredIsWhole(columns[c], row[c].value);
      KeyOfStored(columns[c].ctype, row[c].value);
    }
  }

  lemma WholeIsKept(columns: seq<Column>, row: Row)
    requires |row| == |columns| && WholeRow(columns, row)
    ensures Kept(columns, row) == row
  {
    hide Canonical;
  }

  // ---- what the pages hold --------------------------------------------------

  type Pages = map<nat, PageView>
  type Rows = map<Ref, Row>

  predicate LiveAt(pages: Pages, r: Ref) {
    r.page in pages && r.slot < |pages[r.page].cells| && pages[r.page].cells[r.slot].row.Some?
  }

  function DecodedRow(b: Bytes, schema: seq<ColumnType>): Option<Row> {
    if BitmapLength(|schema|) > |b| then None
    else match DecodeSome(b, schema, |schema|)
      case None => None
      case Some((row, _)) => Some(row)
  }

  predicate StoredAs(columns: seq<Column>, pages: Pages, r: Ref, row: Row) {
    && LiveAt(pages, r) && RowFits(columns, row)
    && DecodedRow(pages[r.page].cells[r.slot].row.value, Types(columns)) == Some(row)
  }

  /** `rows` are the live rows, by where they are. */
  ghost predicate Holds(columns: seq<Column>, pages: Pages, rows: Rows) {
    && (forall r: Ref :: LiveAt(pages, r) ==> r in rows)
    && (forall r: Ref :: r in rows ==> StoredAs(columns, pages, r, rows[r]))
  }

  lemma HeldIsLive(columns: seq<Column>, pages: Pages, rows: Rows, r: Ref)
    requires Holds(columns, pages, rows)
    ensures r in rows ==> LiveAt(pages, r) && StoredAs(columns, pages, r, rows[r])
  {
  }

  /** The bytes of an accepted row are read as what is kept of it. */
  lemma EncodedDecodes(columns: seq<Column>, b: Bytes, row: Row)
    requires IsRow(b, row, Types(columns)) && RowOk(row) && |row| == |columns|
    ensures DecodedRow(b, Types(columns)) == Some(Kept(columns, row))
  {
    hide IsRow, Canonical, DecodeSome;
    var schema := Types(columns);
    RowShape(b, row, schema);
    RowRoundTrip(b, [], row, schema, |row|);
    assert b + [] == b;
    var canonical := CanonicalRow(row, schema);
    assert canonical[..|row|] == canonical;
  }

  lemma RowShape(b: Bytes, row: Row, schema: seq<ColumnType>)
    requires IsRow(b, row, schema)
    ensures |row| == |schema| && BitmapLength(|schema|) <= |b|
  {
  }

  lemma RowPut(columns: seq<Column>, pages: Pages, rows: Rows, pid: nat, sid: nat, b: Bytes, row: Row)
    requires Holds(columns, pages, rows) && pid in pages && SlotFor(pages[pid], |b|) == Some(sid)
    requires RowFits(columns, row) && DecodedRow(b, Types(columns)) == Some(row)
    ensures Ref(pid, sid) !in rows
    ensures Holds(columns, pages[pid := Put(pages[pid], sid, b)], rows[Ref(pid, sid) := row])
  {
    hide DecodedRow, RowFits, Reusable;
    var ref, after := Ref(pid, sid), pages[pid := Put(pages[pid], sid, b)];
    HeldIsLive(columns, pages, rows, ref);
    forall r: Ref | r in rows ensures StoredAs(columns, after, r, rows[r]) {
      assert StoredAs(columns, pages, r, rows[r]);
    }
    assert StoredAs(columns, after, ref, row);
    forall r: Ref | LiveAt(after, r) ensures r in rows || r == ref {
      assert r != ref ==> LiveAt(pages, r);
    }
  }

  lemma PageAdded(columns: seq<Column>, pages: Pages, rows: Rows, pid: nat)
    requires Holds(columns, pages, rows) && pid !in pages
    ensures Holds(columns, pages[pid := Data.EmptyPage()], rows)
  {
    hide DecodedRow, RowFits;
    var after := pages[pid := Data.EmptyPage()];
    forall r: Ref | r in rows ensures StoredAs(columns, after, r, rows[r]) {
      assert StoredAs(columns, pages, r, rows[r]);
    }
    forall r: Ref | LiveAt(after, r) ensures r in rows {
      assert LiveAt(pages, r);
    }
  }

  lemma RowRemoved(columns: seq<Column>, pages: Pages, rows: Rows, r: Ref)
    requires Holds(columns, pages, rows) && r in rows
    ensures LiveAt(pages, r)
    ensures Holds(columns, pages[r.page := Step(pages[r.page], DeleteSlot(r.slot))], rows - {r})
  {
    hide DecodedRow, RowFits;
    assert StoredAs(columns, pages, r, rows[r]);
    var after, left := pages[r.page := Step(pages[r.page], DeleteSlot(r.slot))], rows - {r};
    forall s: Ref | s in left ensures StoredAs(columns, after, s, left[s]) {
      assert StoredAs(columns, pages, s, rows[s]);
    }
    forall s: Ref | LiveAt(after, s) ensures s in left {
      assert s != r && LiveAt(pages, s);
    }
  }

  // ---- what an index holds --------------------------------------------------

  type Index = map<Bytes, Ref>

  function KeyAt(columns: seq<Column>, row: Row, c: nat): Option<Bytes>
    requires c < |columns|
  {
    if c < |row| && row[c].Some? then Encode(columns[c].ctype, row[c].value) else None
  }

  predicate Points(index: Index, key: Option<Bytes>, r: Ref) {
    key.Some? && key.value in index && index[key.value] == r
  }

  /** The index of column `c` holds exactly the keys of the live rows that are not NULL there. */
  ghost predicate Exact(columns: seq<Column>, c: nat, index: Index, rows: Rows)
    requires c < |columns|
  {
    && (forall r: Ref :: r in rows && c < |rows[r]| && rows[r][c].Some? ==> Points(index, KeyAt(columns, rows[r], c), r))
    && (forall k :: k in index ==> index[k] in rows && KeyAt(columns, rows[index[k]], c) == Some(k))
  }

  ghost predicate AllExact(columns: seq<Column>, indexes: seq<Index>, rows: Rows) {
    && |indexes| == |columns|
    && forall c :: 0 <= c < |columns| && Indexed(columns[c]) ==> Exact(columns, c, indexes[c], rows)
  }

  ghost predicate AllFit(columns: seq<Column>, rows: Rows) {
    forall r: Ref :: r in rows ==> RowFits(columns, rows[r])
  }

  lemma HeldFit(columns: seq<Column>, pages: Pages, rows: Rows)
    requires Holds(columns, pages, rows)
    ensures AllFit(columns, rows)
  {
    hide RowFits;
    forall r: Ref | r in rows ensures RowFits(columns, rows[r]) {
      HeldIsLive(columns, pages, rows, r);
    }
  }

  /** No two live rows share a value of a UNIQUE column or the primary key. */
  lemma NoTwoShareAKey(columns: seq<Column>, indexes: seq<Index>, rows: Rows, c: nat, r: Ref, s: Ref)
    requires AllExact(columns, indexes, rows) && c < |columns| && (columns[c].unique || columns[c].primaryKey)
    requires r in rows && s in rows && c < |rows[r]| && c < |rows[s]| && rows[r][c].Some? && rows[r][c] == rows[s][c]
    ensures r == s
  {
    assert Points(indexes[c], KeyAt(columns, rows[r], c), r) && Points(indexes[c], KeyAt(columns, rows[s], c), s);
  }

  /** `_index_row`, one column: the key is set, whether or not it was there. */
  function EnteredAt(columns: seq<Column>, c: nat, index: Index, row: Row, ref: Ref): Index
    requires c < |columns|
  {
    if Indexed(columns[c]) && KeyAt(columns, row, c).Some? then index[KeyAt(columns, row, c).value := ref] else index
  }

  /** The first `n` columns of a row are indexed. */
  function Entered(columns: seq<Column>, maps: seq<Index>, row: Row, ref: Ref, n: nat): (r: seq<Index>)
    requires |maps| == |columns|
    ensures |r| == |maps|
  {
    seq(|maps|, c requires 0 <= c < |maps| => if c < n then EnteredAt(columns, c, maps[c], row, ref) else maps[c])
  }

  /** `_unindex_row`, one column. */
  function RemovedAt(columns: seq<Column>, c: nat, index: Index, row: Row): Index
    requires c < |columns|
  {
    if Indexed(columns[c]) && KeyAt(columns, row, c).Some? then index - {KeyAt(columns, row, c).value} else index
  }

  function Removed(columns: seq<Column>, maps: seq<Index>, row: Row, n: nat): (r: seq<Index>)
    requires |maps| == |columns|
    ensures |r| == |maps|
  {
    seq(|maps|, c requires 0 <= c < |maps| => if c < n then RemovedAt(columns, c, maps[c], row) else maps[c])
  }

  lemma NothingEntered(columns: seq<Column>, maps: seq<Index>, row: Row, ref: Ref)
    requires |maps| == |columns|
    ensures Entered(columns, maps, row, ref, 0) == maps && Removed(columns, maps, row, 0) == maps
  {
  }

  lemma OneColumnEntered(columns: seq<Column>, maps: seq<Index>, row: Row, ref: Ref, c: nat)
    requires c < |columns| == |maps|
    ensures var now := Entered(columns, maps, row, ref, c);
      Entered(columns, maps, row, ref, c + 1) == now[c := EnteredAt(columns, c, now[c], row, ref)]
  {
    hide EnteredAt;
  }

  lemma OneColumnRemoved(columns: seq<Column>, maps: seq<Index>, row: Row, c: nat)
    requires c < |columns| == |maps|
    ensures var now := Removed(columns, maps, row, c);
      Removed(columns, maps, row, c + 1) == now[c := RemovedAt(columns, c, now[c], row)]
  {
    hide RemovedAt;
  }

  /** The row has the value of some other row in an indexed column. */
  predicate Clashes(columns: seq<Column>, row: Row, other: Row) {
    exists c :: 0 <= c < |columns| && Indexed(columns[c]) && c < |row| && c < |other| && row[c].Some? && row[c] == other[c]
  }

  ghost predicate ClashFree(columns: seq<Column>, row: Row, rows: Rows) {
    forall r: Ref :: r in rows ==> !Clashes(columns, row, rows[r])
  }

  /** A value and what is stored of it have one key. */
  lemma KeptKey(columns: seq<Column>, row: Row, c: nat)
    requires c < |columns| == |row| && RowOk(row) && Payload(row, Types(columns)).Some?
    ensures KeyAt(columns, Kept(columns, row), c) == KeyAt(columns, row, c)
  {
    hide Encode, Canonical, Payload;
    PayloadEncodes(row, Types(columns));
    if row[c].Some? {
      KeyOfStored(columns[c].ctype, row[c].value);
    }
  }

  lemma KeptEntries(columns: seq<Column>, maps: seq<Index>, row: Row, ref: Ref)
    requires |maps| == |columns| == |row| && RowOk(row) && Payload(row, Types(columns)).Some?
    ensures Entered(columns, maps, Kept(columns, row), ref, |columns|) == Entered(columns, maps, row, ref, |columns|)
  {
    hide KeyAt, Kept, Payload;
    forall c | 0 <= c < |columns| ensures KeyAt(columns, Kept(columns, row), c) == KeyAt(columns, row, c) {
      KeptKey(columns, row, c);
    }
  }

  lemma RowIndexed(columns: seq<Column>, c: nat, index: Index, rows: Rows, ref: Ref, row: Row)
    requires c < |columns| && Indexed(columns[c]) && Exact(columns, c, index, rows) && ref !in rows
    requires RowFits(columns, row) && AllFit(columns, rows) && ClashFree(columns, row, rows)
    ensures Exact(columns, c, EnteredAt(columns, c, index, row, ref), rows[ref := row])
  {
    hide Encode, Canonical, Payload;
    PayloadEncodes(row, Types(columns));
    if row[c].Some? {
      var k := KeyAt(columns, row, c).value;
      if k in index {
        var other := rows[index[k]];
        assert RowFits(columns, other) && !Clashes(columns, row, other);
        KeyDecides(columns[c].ctype, row[c].value, other[c].value);
      }
    }
  }

  /** Indexes that were exact are exact for the table with the row, exactly when no other live row
      has what is stored in an indexed column. */
  lemma EnteredIsExact(columns: seq<Column>, maps: seq<Index>, rows: Rows, ref: Ref, row: Row)
    requires AllExact(columns, maps, rows) && ref !in rows && RowFits(columns, row) && AllFit(columns, rows)
    ensures AllExact(columns, Entered(columns, maps, row, ref, |columns|), rows[ref := row]) <==> ClashFree(columns, row, rows)
  {
    hide Exact, RowFits;
    var after, more := Entered(columns, maps, row, ref, |columns|), rows[ref := row];
    if ClashFree(columns, row, rows) {
      forall c | 0 <= c < |columns| && Indexed(columns[c]) ensures Exact(columns, c, after[c], more) {
        RowIndexed(columns, c, maps[c], rows, ref, row);
      }
    } else {
      var r: Ref :| r in rows && Clashes(columns, row, rows[r]);
      ClashBreaks(columns, after, more, ref, r);
    }
  }

  /** Indexes are not exact when two rows share a value. */
  lemma ClashBreaks(columns: seq<Column>, maps: seq<Index>, rows: Rows, r: Ref, s: Ref)
    requires r in rows && s in rows && r != s && Clashes(columns, rows[r], rows[s])
    ensures !AllExact(columns, maps, rows)
  {
    var c :| 0 <= c < |columns| && Indexed(columns[c]) && c < |rows[r]| && c < |rows[s]| && rows[r][c].Some? && rows[r][c] == rows[s][c];
    if AllExact(columns, maps, rows) {
      NoTwoShareAKey(columns, maps, rows, c, r, s);
    }
  }

  lemma RowUnindexed(columns: seq<Column>, c: nat, index: Index, rows: Rows, ref: Ref)
    requires c < |columns| && Indexed(columns[c]) && Exact(columns, c, index, rows) && ref in rows && |rows[ref]| == |columns|
    ensures Exact(columns, c, RemovedAt(columns, c, index, rows[ref]), rows - {ref})
  {
    hide Encode;
    var row, after := rows[ref], RemovedAt(columns, c, index, rows[ref]);
    if row[c].Some? {
      assert Points(index, KeyAt(columns, row, c), ref);
    }
    forall r: Ref | r in rows - {ref} && c < |rows[r]| && rows[r][c].Some? ensures Points(after, KeyAt(columns, rows[r], c), r) {
      assert Points(index, KeyAt(columns, rows[r], c), r);
    }
  }

  lemma RemovedIsExact(columns: seq<Column>, maps: seq<Index>, rows: Rows, ref: Ref)
    requires AllExact(columns, maps, rows) && ref in rows && |rows[ref]| == |columns|
    ensures AllExact(columns, Removed(columns, maps, rows[ref], |columns|), rows - {ref})
  {
    hide Exact;
    var after := Removed(columns, maps, rows[ref], |columns|);
    forall c | 0 <= c < |columns| && Indexed(columns[c]) ensures Exact(columns, c, after[c], rows - {ref}) {
      RowUnindexed(columns, c, maps[c], rows, ref);
    }
  }

  // ---- the constraints pipeline ---------------------------------------------

  predicate NullRejected(columns: seq<Column>, row: Row)
    requires |row| == |columns|
  {
    exists c :: 0 <= c < |columns| && row[c].None? && (!columns[c].nullable || columns[c].primaryKey)
  }

  predicate ShapeOk(columns: seq<Column>, row: Row) {
    |row| == |columns| && !NullRejected(columns, row) && Payload(row, Types(columns)).Some?
  }

  ghost predicate HasValue(rows: Rows, c: nat, v: Datum) {
    exists r: Ref :: r in rows && c < |rows[r]| && rows[r][c] == Some(v)
  }

  predicate ClearOf(columns: seq<Column>, row: Row, earlier: seq<Row>) {
    forall j :: 0 <= j < |earlier| ==> !Clashes(columns, row, earlier[j])
  }

  /** What the pipeline asks of a row: its shape, and that it has no value of a unique column that
      is in the table, or was given in an earlier row of the statement. */
  ghost predicate Acceptable(columns: seq<Column>, row: Row, rows: Rows, earlier: seq<Row>) {
    ShapeOk(columns, row) && ClashFree(columns, row, rows) && ClearOf(columns, row, earlier)
  }

  /** Row `i` of a statement on the table `rows`: earlier rows count as they were given, and as
      they were stored. */
  ghost predicate Accepted(columns: seq<Column>, values: seq<Row>, i: nat, rows: Rows)
    requires i < |values|
  {
    Acceptable(columns, values[i], rows, values[..i]) && ClearOf(columns, values[i], KeptAll(columns, values[..i]))
  }

  ghost predicate AllAcceptable(columns: seq<Column>, values: seq<Row>, rows: Rows) {
    forall i :: 0 <= i < |values| ==> Accepted(columns, values, i, rows)
  }

  /** No row is stored with a key that is in the table or in an earlier row. */
  ghost predicate KeysFree(columns: seq<Column>, values: seq<Row>, rows: Rows) {
    forall i :: 0 <= i < |values| ==> KeyFree(columns, values, i, rows)
  }

  ghost predicate KeyFree(columns: seq<Column>, values: seq<Row>, i: nat, rows: Rows)
    requires i < |values|
  {
    ClashFree(columns, Kept(columns, values[i]), rows) && ClearOf(columns, Kept(columns, values[i]), KeptAll(columns, values[..i]))
  }

  // ---- the same, by the flags of the columns --------------------------------

  /** The row has a value in every NOT NULL column and in the primary key. */
  predicate HasNeeded(columns: seq<Column>, row: Row) {
    forall c :: 0 <= c < |columns| && c < |row| && (!columns[c].nullable || columns[c].primaryKey) ==> row[c].Some?
  }

  /** The rows have the same value in a UNIQUE column or in the primary key. */
  predicate Repeats(columns: seq<Column>, row: Row, other: Row) {
    exists c :: 0 <= c < |columns| && (columns[c].unique || columns[c].primaryKey) && c < |row| && c < |other|
      && row[c].Some? && other[c] == row[c]
  }

  /** Row `i` of a statement may be inserted into `rows`: it has all columns and what it needs, its
      columns take its values, and it repeats no row of the table and no earlier one of the statement,
      as that was given and as it is stored. */
  ghost predicate MayInsert(columns: seq<Column>, values: seq<Row>, i: nat, rows: Rows)
    requires i < |values|
  {
    && HasNeeded(columns, values[i]) && RowTaken(values[i], Types(columns))
    && (forall r: Ref :: r in rows ==> !Repeats(columns, values[i], rows[r]))
    && forall j :: 0 <= j < i ==> !Repeats(columns, values[i], values[j]) && !Repeats(columns, values[i], Kept(columns, values[j]))
  }

  ghost predicate MayInsertAll(columns: seq<Column>, values: seq<Row>, rows: Rows) {
    forall i :: 0 <= i < |values| ==> MayInsert(columns, values, i, rows)
  }

  lemma RepeatsIsClash(columns: seq<Column>)
    ensures forall row, other :: Repeats(columns, row, other) <==> Clashes(columns, row, other)
  {
  }

  lemma NeededIsNotRejected(columns: seq<Column>, row: Row)
    requires |row| == |columns|
    ensures HasNeeded(columns, row) <==> !NullRejected(columns, row)
  {
  }

  lemma AcceptedMayInsert(columns: seq<Column>, values: seq<Row>, i: nat, rows: Rows)
    requires i < |values| && RowOk(values[i])
    ensures Accepted(columns, values, i, rows) <==> MayInsert(columns, values, i, rows)
  {
    hide Clashes, Repeats, Payload, Takes, HasNeeded, NullRejected, Kept, RowOk;
    RepeatsIsClash(columns);
    var row := values[i];
    if |row| == |columns| {
      NeededIsNotRejected(columns, row);
      PayloadTakes(row, Types(columns));
    }
    assert forall j :: 0 <= j < i ==> values[..i][j] == values[j] && KeptAll(columns, values[..i])[j] == Kept(columns, values[j]);
    assert ClearOf(columns, row, values[..i]) <==> forall j :: 0 <= j < i ==> !Clashes(columns, row, values[j]);
    assert ClearOf(columns, row, KeptAll(columns, values[..i])) <==> forall j :: 0 <= j < i ==> !Clashes(columns, row, Kept(columns, values[j]));
  }

  lemma AcceptableMeans(columns: seq<Column>, row: Row, rows: Rows, earlier: seq<Row>)
    requires RowOk(row)
    ensures ClashFree(columns, row, rows) <==> forall r: Ref :: r in rows ==> !Repeats(columns, row, rows[r])
    ensures ClearOf(columns, row, earlier) <==> forall j :: 0 <= j < |earlier| ==> !Repeats(columns, row, earlier[j])
    ensures ShapeOk(columns, row) <==> HasNeeded(columns, row) && RowTaken(row, Types(columns))
  {
    hide Clashes, Repeats, Payload, Takes, HasNeeded, NullRejected, RowOk;
    RepeatsIsClash(columns);
    if |row| == |columns| {
      NeededIsNotRejected(columns, row);
      PayloadTakes(row, Types(columns));
    }
  }

  /** A statement with a NULL where a value is needed does not get past that row. */
  lemma NullStops(columns: seq<Column>, values: seq<Row>, rows: Rows)
    ensures MayInsertAll(columns, values, rows) ==> forall i :: 0 <= i < |values| ==> HasNeeded(columns, values[i])
    ensures forall k :: 0 < k <= |values| && MayInsertAll(columns, values[..k], rows) ==> HasNeeded(columns, values[0])
  {
    hide HasNeeded, RowTaken, Repeats;
    if MayInsertAll(columns, values, rows) {
      forall i | 0 <= i < |values| ensures HasNeeded(columns, values[i]) {
        assert MayInsert(columns, values, i, rows);
      }
    }
    forall k | 0 < k <= |values| && MayInsertAll(columns, values[..k], rows) ensures HasNeeded(columns, values[0]) {
      assert MayInsert(columns, values[..k], 0, rows);
    }
  }

  lemma AllAcceptedMayInsert(columns: seq<Column>, values: seq<Row>, rows: Rows)
    requires forall i :: 0 <= i < |values| ==> RowOk(values[i])
    ensures AllAcceptable(columns, values, rows) <==> MayInsertAll(columns, values, rows)
  {
    hide Accepted, MayInsert, RowOk;
    forall i | 0 <= i < |values| ensures Accepted(columns, values, i, rows) <==> MayInsert(columns, values, i, rows) {
      AcceptedMayInsert(columns, values, i, rows);
    }
  }

  /** Every row of the table has a value in every NOT NULL column and in the primary key. */
  ghost predicate Filled(columns: seq<Column>, rows: Rows) {
    forall r: Ref :: r in rows ==> HasNeeded(columns, rows[r])
  }

  lemma FewerFilled(columns: seq<Column>, was: Rows, now: Rows)
    requires Filled(columns, was) && forall r: Ref :: r in now ==> r in was && now[r] == was[r]
    ensures Filled(columns, now)
  {
    hide HasNeeded;
  }

  lemma KeptHasNeeded(columns: seq<Column>, row: Row)
    requires HasNeeded(columns, row)
    ensures HasNeeded(columns, Kept(columns, row))
  {
    hide Canonical;
  }

  /** A statement that goes through keeps it. */
  lemma StaysFilled(columns: seq<Column>, was: Rows, now: Rows, values: seq<Row>, refs: seq<Ref>)
    requires Filled(columns, was) && MayInsertAll(columns, values, was) && Added(was, now, refs, KeptAll(columns, values))
    ensures Filled(columns, now)
  {
    hide HasNeeded, Repeats, RowTaken, Kept;
    forall r: Ref | r in now ensures HasNeeded(columns, now[r]) {
      if r !in was {
        var i :| 0 <= i < |refs| && refs[i] == r;
        assert MayInsert(columns, values, i, was);
        KeptHasNeeded(columns, values[i]);
      }
    }
  }

  ghost predicate HasKey(columns: seq<Column>, rows: Rows, c: nat, k: Bytes)
    requires c < |columns|
  {
    exists r: Ref :: r in rows && KeyAt(columns, rows[r], c) == Some(k)
  }

  /** A key is in the table exactly when the value it stands for is. */
  lemma KeyIsStoredValue(columns: seq<Column>, rows: Rows, c: nat, v: Datum)
    requires AllFit(columns, rows) && c < |columns| && DatumOk(v) && Encode(columns[c].ctype, v).Some?
    ensures HasKey(columns, rows, c, Encode(columns[c].ctype, v).value) <==> HasValue(rows, c, Canonical(columns[c].ctype, v))
  {
    hide Encode, Canonical, Payload;
    var t := columns[c].ctype;
    KeyOfStored(t, v);
    if HasKey(columns, rows, c, Encode(t, v).value) {
      var r: Ref :| r in rows && KeyAt(columns, rows[r], c) == Some(Encode(t, v).value);
      assert RowFits(columns, rows[r]) && Whole(columns[c], rows[r][c].value);
      KeyDecides(t, v, rows[r][c].value);
    }
    if HasValue(rows, c, Canonical(t, v)) {
      var r: Ref :| r in rows && c < |rows[r]| && rows[r][c] == Some(Canonical(t, v));
      assert KeyAt(columns, rows[r], c) == Some(Encode(t, v).value);
    }
  }

  /** Values not stored as they are are not in the table. */
  lemma NotStored(columns: seq<Column>, rows: Rows, c: nat, v: Datum)
    requires AllFit(columns, rows) && c < |columns| && DatumOk(v) && !Whole(columns[c], v)
    ensures !HasValue(rows, c, v)
  {
    hide Canonical, Payload;
    forall r: Ref | r in rows ensures rows[r][c] != Some(v) {
      assert RowFits(columns, rows[r]);
    }
  }

  /** The duplicate check asks for the value, the index for its key: they agree exactly when the
      value is stored as it is, or what is stored of it is not in the table. */
  lemma DuplicateCheckIsKeyCheck(columns: seq<Column>, rows: Rows, c: nat, v: Datum)
    requires AllFit(columns, rows) && c < |columns| && DatumOk(v) && Encode(columns[c].ctype, v).Some?
    ensures (HasValue(rows, c, v) <==> HasKey(columns, rows, c, Encode(columns[c].ctype, v).value)) <==>
            Whole(columns[c], v) || !HasValue(rows, c, Canonical(columns[c].ctype, v))
  {
    hide Encode, Canonical, AllFit, HasKey, HasValue;
    KeyIsStoredValue(columns, rows, c, v);
    if !Whole(columns[c], v) {
      NotStored(columns, rows, c, v);
    }
  }

  // ---- the values a statement has accepted ----------------------------------

  /** The unique values of the rows given so far. */
  ghost predicate SessionOf(columns: seq<Column>, session: seq<set<Datum>>, earlier: seq<Row>) {
    && |session| == |columns|
    && forall c, v :: 0 <= c < |columns| && Indexed(columns[c]) ==> (v in session[c] <==> Given(earlier, c, v))
  }

  predicate Given(earlier: seq<Row>, c: nat, v: Datum) {
    exists j :: 0 <= j < |earlier| && c < |earlier[j]| && earlier[j][c] == Some(v)
  }

  lemma NothingGiven(columns: seq<Column>)
    ensures SessionOf(columns, seq(|columns|, _ => {}), [])
  {
  }

  lemma GivenMore(earlier: seq<Row>, row: Row, c: nat, v: Datum)
    ensures Given(earlier + [row], c, v) <==> Given(earlier, c, v) || (c < |row| && row[c] == Some(v))
  {
    var more := earlier + [row];
    if c < |row| && row[c] == Some(v) {
      assert more[|earlier|] == row;
    }
    if Given(earlier, c, v) {
      var j :| 0 <= j < |earlier| && c < |earlier[j]| && earlier[j][c] == Some(v);
      assert more[j] == earlier[j];
    }
  }

  lemma ClashOn(columns: seq<Column>, row: Row, rows: Rows, earlier: seq<Row>, c: nat)
    requires c < |columns| == |row| && Indexed(columns[c]) && row[c].Some?
    requires HasValue(rows, c, row[c].value) || Given(earlier, c, row[c].value)
    ensures !(ClashFree(columns, row, rows) && ClearOf(columns, row, earlier))
  {
    if HasValue(rows, c, row[c].value) {
      var r: Ref :| r in rows && c < |rows[r]| && rows[r][c] == row[c];
      assert Clashes(columns, row, rows[r]);
    } else {
      var j :| 0 <= j < |earlier| && c < |earlier[j]| && earlier[j][c] == row[c];
      assert Clashes(columns, row, earlier[j]);
    }
  }

  lemma NoClash(columns: seq<Column>, row: Row, rows: Rows, earlier: seq<Row>)
    requires |row| == |columns|
    requires forall k :: 0 <= k < |columns| && Indexed(columns[k]) && row[k].Some? ==>
               !HasValue(rows, k, row[k].value) && !Given(earlier, k, row[k].value)
    ensures ClashFree(columns, row, rows) && ClearOf(columns, row, earlier)
  {
  }

  lemma SessionGrows(columns: seq<Column>, session: seq<set<Datum>>, after: seq<set<Datum>>, earlier: seq<Row>, row: Row)
    requires SessionOf(columns, session, earlier) && |after| == |columns| == |row|
    requires forall c :: 0 <= c < |columns| && Indexed(columns[c]) ==>
               after[c] == if row[c].Some? then session[c] + {row[c].value} else session[c]
    ensures SessionOf(columns, after, earlier + [row])
  {
    hide Given;
    forall c, v | 0 <= c < |columns| && Indexed(columns[c]) ensures v in after[c] <==> Given(earlier + [row], c, v) {
      GivenMore(earlier, row, c, v);
    }
  }

  // ---- what a statement does ------------------------------------------------

  /** Rows, indexes and pages of a table. */
  datatype Content = Content(rows: Rows, maps: seq<Index>, chain: Chain)

  /** The rows of a statement are in the table, in new places, beside those that were there. */
  ghost predicate Added(was: Rows, rows: Rows, refs: seq<Ref>, values: seq<Row>) {
    && |refs| == |values|
    && (forall r: Ref :: r in rows <==> r in was || r in refs)
    && (forall r: Ref :: r in was ==> rows[r] == was[r] && r !in refs)
    && (forall i :: 0 <= i < |refs| ==> rows[refs[i]] == values[i])
    && forall i, j :: 0 <= i < j < |refs| ==> refs[i] != refs[j]
  }

  lemma OneMoreAdded(was: Rows, mid: Rows, refs: seq<Ref>, values: seq<Row>, ref: Ref, row: Row)
    requires Added(was, mid, refs, values) && ref !in mid
    ensures Added(was, mid[ref := row], refs + [ref], values + [row])
  {
  }

  function EnteredAll(columns: seq<Column>, maps: seq<Index>, values: seq<Row>, refs: seq<Ref>): (r: seq<Index>)
    requires |maps| == |columns| && |refs| == |values|
    ensures |r| == |maps|
    decreases |values|
  {
    if values == [] then maps else
      var k := |values| - 1;
      Entered(columns, EnteredAll(columns, maps, values[..k], refs[..k]), values[k], refs[k], |columns|)
  }

  lemma LastEntered(columns: seq<Column>, maps: seq<Index>, values: seq<Row>, refs: seq<Ref>)
    requires |maps| == |columns| && |refs| == |values| > 0
    ensures var k := |values| - 1;
      EnteredAll(columns, maps, values, refs)
         == Entered(columns, EnteredAll(columns, maps, values[..k], refs[..k]), values[k], refs[k], |columns|)
  {
    hide Entered;
  }

  lemma OneMoreEntered(columns: seq<Column>, maps: seq<Index>, values: seq<Row>, refs: seq<Ref>, row: Row, ref: Ref)
    requires |maps| == |columns| && |refs| == |values|
    ensures EnteredAll(columns, maps, values + [row], refs + [ref])
         == Entered(columns, EnteredAll(columns, maps, values, refs), row, ref, |columns|)
  {
    hide Entered, EnteredAll;
    LastEntered(columns, maps, values + [row], refs + [ref]);
    assert (values + [row])[..|values|] == values && (refs + [ref])[..|refs|] == refs;
  }

  lemma KeptAllMore(columns: seq<Column>, values: seq<Row>, row: Row)
    ensures KeptAll(columns, values + [row]) == KeptAll(columns, values) + [Kept(columns, row)]
  {
  }

  /** The row a cell holds. */
  function RowOf(columns: seq<Column>, cell: Cell): Option<Row> {
    if cell.row.None? then None else DecodedRow(cell.row.value, Types(columns))
  }

  ghost predicate ClearOn(columns: seq<Column>, row: Row, chain: Chain) {
    forall i, s :: 0 <= i < |chain| && 0 <= s < |chain[i].cells| && RowOf(columns, chain[i].cells[s]).Some? ==>
      !Clashes(columns, row, RowOf(columns, chain[i].cells[s]).value)
  }

  /** The same acceptance, read off the pages. */
  ghost predicate AcceptableOn(columns: seq<Column>, row: Row, chain: Chain, earlier: seq<Row>) {
    ShapeOk(columns, row) && ClearOn(columns, row, chain) && ClearOf(columns, row, earlier)
  }

  lemma CellIsRow(columns: seq<Column>, ids: seq<nat>, views: Pages, rows: Rows, i: nat, s: nat)
    requires Holds(columns, views, rows) && (forall p :: p in views <==> p in ids)
    requires i < |ids| && s < |ChainOf(ids, views)[i].cells|
    ensures var r, cell := Ref(ids[i], s), ChainOf(ids, views)[i].cells[s];
      (r in rows <==> cell.row.Some?) && RowOf(columns, cell) == if r in rows then Some(rows[r]) else None
  {
    hide DecodedRow, RowFits;
    assert ids[i] in ids;
    HeldIsLive(columns, views, rows, Ref(ids[i], s));
  }

  lemma RowHasCell(columns: seq<Column>, ids: seq<nat>, views: Pages, rows: Rows, r: Ref) returns (i: nat)
    requires Holds(columns, views, rows) && (forall p :: p in views <==> p in ids) && r in rows
    ensures i < |ids| && ids[i] == r.page && r.slot < |ChainOf(ids, views)[i].cells|
    ensures RowOf(columns, ChainOf(ids, views)[i].cells[r.slot]) == Some(rows[r])
  {
    HeldIsLive(columns, views, rows, r);
    assert r.page in ids;
    i :| 0 <= i < |ids| && ids[i] == r.page;
    hide DecodedRow, RowFits;
    CellIsRow(columns, ids, views, rows, i, r.slot);
  }

  lemma ClearOnIs(columns: seq<Column>, row: Row, ids: seq<nat>, views: Pages, rows: Rows)
    requires Holds(columns, views, rows) && (forall p :: p in views <==> p in ids)
    ensures ClearOn(columns, row, ChainOf(ids, views)) <==> ClashFree(columns, row, rows)
  {
    hide Clashes, RowOf, Holds;
    var chain := ChainOf(ids, views);
    if ClashFree(columns, row, rows) {
      forall i, s | 0 <= i < |chain| && 0 <= s < |chain[i].cells| && RowOf(columns, chain[i].cells[s]).Some?
        ensures !Clashes(columns, row, RowOf(columns, chain[i].cells[s]).value)
      {
        CellIsRow(columns, ids, views, rows, i, s);
      }
    }
    if ClearOn(columns, row, chain) {
      forall r: Ref | r in rows ensures !Clashes(columns, row, rows[r]) {
        var i := RowHasCell(columns, ids, views, rows, r);
      }
    }
  }

  /** How far an INSERT gets: the pages so far, a row that is refused, or one that overruns a page. */
  datatype Stage = At(chain: Chain) | Refused | Overrun

  ghost function Progress(columns: seq<Column>, chain: Chain, values: seq<Row>): Stage {
    if values == [] then At(chain) else
      var k := |values| - 1;
      match Progress(columns, chain, values[..k])
      case At(now) =>
        if !AcceptableOn(columns, values[k], now, values[..k]) then Refused
        else (match Placed(now, RowImage(values[k], Types(columns)).value)
              case None => Overrun
              case Some(next) => At(next))
      case Refused => Refused
      case Overrun => Overrun
  }

  lemma ProgressMore(columns: seq<Column>, chain: Chain, values: seq<Row>, row: Row)
    requires Progress(columns, chain, values).At?
    ensures var now := Progress(columns, chain, values).chain;
      Progress(columns, chain, values + [row]) ==
        if !AcceptableOn(columns, row, now, values) then Refused
        else match Placed(now, RowImage(row, Types(columns)).value) case None => Overrun case Some(next) => At(next)
  {
    hide AcceptableOn, Placed, RowImage;
    assert (values + [row])[..|values|] == values;
  }

  /** What stopped a statement has stopped it. */
  lemma {:induction false} ProgressStops(columns: seq<Column>, chain: Chain, values: seq<Row>, i: nat)
    requires i <= |values| && !Progress(columns, chain, values[..i]).At?
    ensures Progress(columns, chain, values) == Progress(columns, chain, values[..i])
    decreases |values|
  {
    hide AcceptableOn, Placed, RowImage;
    if i == |values| {
      assert values[..i] == values;
    } else {
      var k := |values| - 1;
      assert values[..k][..i] == values[..i];
      ProgressStops(columns, chain, values[..k], i);
    }
  }

  // ---- keys taken twice, read off the pages ---------------------------------

  /** `KeysFree`, read off the pages. */
  ghost predicate KeysFreeOn(columns: seq<Column>, values: seq<Row>, chain: Chain) {
    forall i :: 0 <= i < |values| ==> KeyFreeOn(columns, values, i, chain)
  }

  ghost predicate KeyFreeOn(columns: seq<Column>, values: seq<Row>, i: nat, chain: Chain)
    requires i < |values|
  {
    ClearOn(columns, Kept(columns, values[i]), chain) && ClearOf(columns, Kept(columns, values[i]), KeptAll(columns, values[..i]))
  }

  lemma KeysFreeOnIs(columns: seq<Column>, values: seq<Row>, ids: seq<nat>, views: Pages, rows: Rows)
    requires Holds(columns, views, rows) && (forall p :: p in views <==> p in ids)
    ensures KeysFreeOn(columns, values, ChainOf(ids, views)) <==> KeysFree(columns, values, rows)
  {
    hide Holds, ClearOn, ClashFree, ClearOf, Kept, ChainOf;
    forall i | 0 <= i < |values|
      ensures KeyFreeOn(columns, values, i, ChainOf(ids, views)) <==> KeyFree(columns, values, i, rows)
    {
      ClearOnIs(columns, Kept(columns, values[i]), ids, views, rows);
    }
  }

  lemma ClearBefore(columns: seq<Column>, row: Row, was: Chain, now: Chain)
    requires RowsStay(was, now) && ClearOn(columns, row, now)
    ensures ClearOn(columns, row, was)
  {
    hide Clashes, DecodedRow;
  }

  /** Every row that got through was clear of the pages the statement began with. */
  lemma {:induction false} ThroughIsClear(columns: seq<Column>, chain: Chain, values: seq<Row>)
    requires Progress(columns, chain, values).At?
    ensures RowsStay(chain, Progress(columns, chain, values).chain)
    ensures forall i :: 0 <= i < |values| ==> |values[i]| == |columns| && ClearOn(columns, values[i], chain) && ClearOf(columns, values[i], values[..i])
  {
    hide Placed, RowImage, ClearOn, ClearOf, NullRejected, Payload, RowsStay;
    if values == [] {
      StayPut(chain);
    } else {
      var k := |values| - 1;
      var before := values[..k];
      ThroughIsClear(columns, chain, before);
      var now := Progress(columns, chain, before).chain;
      var image := RowImage(values[k], Types(columns)).value;
      PlacedSpares(now, image);
      StayOn(chain, now, Placed(now, image).value);
      ClearBefore(columns, values[k], chain, now);
      forall i | 0 <= i < |values| ensures |values[i]| == |columns| && ClearOn(columns, values[i], chain) && ClearOf(columns, values[i], values[..i]) {
        assert i < k ==> before[i] == values[i] && before[..i] == values[..i];
      }
    }
  }

  lemma StayPut(chain: Chain)
    ensures RowsStay(chain, chain)
  {
  }

  lemma StayOn(was: Chain, mid: Chain, now: Chain)
    requires RowsStay(was, mid) && RowsStay(mid, now)
    ensures RowsStay(was, now)
  {
  }

  lemma {:induction false} WholeAreKept(columns: seq<Column>, values: seq<Row>)
    requires forall i :: 0 <= i < |values| ==> |values[i]| == |columns| && WholeRow(columns, values[i])
    ensures KeptAll(columns, values) == values
  {
    hide WholeRow, Kept;
    forall i | 0 <= i < |values| ensures Kept(columns, values[i]) == values[i] {
      WholeIsKept(columns, values[i]);
    }
  }

  /** For rows that are stored as they are the pipeline's check is enough. */
  lemma WholeKeepsKeys(columns: seq<Column>, chain: Chain, values: seq<Row>)
    requires Progress(columns, chain, values).At? && forall i :: 0 <= i < |values| ==> WholeRow(columns, values[i])
    ensures KeysFreeOn(columns, values, chain)
  {
    hide WholeRow, Kept, ClearOn, ClearOf, Progress;
    ThroughIsClear(columns, chain, values);
    forall i | 0 <= i < |values| ensures KeyFreeOn(columns, values, i, chain) {
      WholeIsKept(columns, values[i]);
      WholeAreKept(columns, values[..i]);
    }
  }

  /** One row taken. */
  ghost predicate TookRow(columns: seq<Column>, was: Content, now: Content, row: Row, ref: Ref) {
    && |was.maps| == |columns| && RowImage(row, Types(columns)).Some?
    && ref !in was.rows && now.rows == was.rows[ref := Kept(columns, row)]
    && now.maps == Entered(columns, was.maps, Kept(columns, row), ref, |columns|)
    && Placed(was.chain, RowImage(row, Types(columns)).value) == Some(now.chain)
  }

  /** The rows of a statement taken: each in a new place, in the indexes, and on the first page
      with room. Indexes that were exact are exact unless a key was taken twice. */
  ghost predicate Took(columns: seq<Column>, was: Content, now: Content, values: seq<Row>, refs: seq<Ref>) {
    && AllAcceptable(columns, values, was.rows)
    && Added(was.rows, now.rows, refs, KeptAll(columns, values))
    && |was.maps| == |columns| && now.maps == EnteredAll(columns, was.maps, KeptAll(columns, values), refs)
    && Progress(columns, was.chain, values) == At(now.chain)
    && (AllExact(columns, was.maps, was.rows) ==> (AllExact(columns, now.maps, now.rows) <==> KeysFree(columns, values, was.rows)))
  }

  lemma NothingTaken(columns: seq<Column>, was: Content)
    requires |was.maps| == |columns|
    ensures Took(columns, was, was, [], [])
  {
    hide AllExact;
    assert KeptAll(columns, []) == [];
  }

  /** A row is clear of the table now when it was clear of it and is clear of what was added. */
  lemma ClearNow(columns: seq<Column>, row: Row, was: Rows, rows: Rows, refs: seq<Ref>, added: seq<Row>)
    requires Added(was, rows, refs, added)
    ensures ClashFree(columns, row, rows) <==> ClashFree(columns, row, was) && ClearOf(columns, row, added)
  {
    hide Clashes;
    if ClashFree(columns, row, rows) {
      forall j | 0 <= j < |added| ensures !Clashes(columns, row, added[j]) {
        assert refs[j] in refs && rows[refs[j]] == added[j];
      }
      forall r: Ref | r in was ensures !Clashes(columns, row, was[r]) {
        assert rows[r] == was[r];
      }
    }
    if ClashFree(columns, row, was) && ClearOf(columns, row, added) {
      forall r: Ref | r in rows ensures !Clashes(columns, row, rows[r]) {
        if r in refs {
          var j :| 0 <= j < |refs| && refs[j] == r;
          assert rows[refs[j]] == added[j];
        }
      }
    }
  }

  lemma AcceptedNow(columns: seq<Column>, values: seq<Row>, row: Row, was: Rows, rows: Rows, refs: seq<Ref>)
    requires Added(was, rows, refs, KeptAll(columns, values))
    ensures Acceptable(columns, row, rows, values) <==> Accepted(columns, values + [row], |values|, was)
    ensures ClashFree(columns, Kept(columns, row), rows) <==> KeyFree(columns, values + [row], |values|, was)
  {
    hide Clashes, ShapeOk, ClashFree, ClearOf, Kept;
    assert (values + [row])[..|values|] == values;
    ClearNow(columns, row, was, rows, refs, KeptAll(columns, values));
    ClearNow(columns, Kept(columns, row), was, rows, refs, KeptAll(columns, values));
  }

  lemma PrefixAccepted(columns: seq<Column>, values: seq<Row>, row: Row, rows: Rows)
    ensures AllAcceptable(columns, values + [row], rows) <==>
              AllAcceptable(columns, values, rows) && Accepted(columns, values + [row], |values|, rows)
    ensures KeysFree(columns, values + [row], rows) <==>
              KeysFree(columns, values, rows) && KeyFree(columns, values + [row], |values|, rows)
  {
    hide Acceptable, ClearOf, ClashFree, Kept;
    var more := values + [row];
    forall i | 0 <= i < |values|
      ensures Accepted(columns, more, i, rows) <==> Accepted(columns, values, i, rows)
      ensures KeyFree(columns, more, i, rows) <==> KeyFree(columns, values, i, rows)
    {
      assert more[..i] == values[..i];
    }
  }

  /** A key taken twice leaves two rows that share a value. */
  lemma TakenTwice(columns: seq<Column>, was: Rows, rows: Rows, values: seq<Row>, refs: seq<Ref>) returns (r: Ref, s: Ref)
    requires Added(was, rows, refs, KeptAll(columns, values)) && !KeysFree(columns, values, was)
    ensures r in rows && s in rows && r != s && Clashes(columns, rows[r], rows[s])
  {
    hide Clashes, Kept;
    var i :| 0 <= i < |values| && !KeyFree(columns, values, i, was);
    r := refs[i];
    assert r in refs;
    if !ClashFree(columns, Kept(columns, values[i]), was) {
      s :| s in was && Clashes(columns, Kept(columns, values[i]), was[s]);
    } else {
      var kept := KeptAll(columns, values[..i]);
      var j :| 0 <= j < |kept| && Clashes(columns, Kept(columns, values[i]), kept[j]);
      s := refs[j];
      assert s in refs;
    }
  }

  lemma ExactWithMore(columns: seq<Column>, was: Content, mid: Content, now: Content, values: seq<Row>, refs: seq<Ref>, row: Row, ref: Ref)
    requires Took(columns, was, mid, values, refs) && TookRow(columns, mid, now, row, ref)
    requires AllFit(columns, mid.rows) && RowFits(columns, Kept(columns, row)) && AllExact(columns, was.maps, was.rows)
    requires Added(was.rows, now.rows, refs + [ref], KeptAll(columns, values + [row]))
    ensures AllExact(columns, now.maps, now.rows) <==> KeysFree(columns, values + [row], was.rows)
  {
    hide AllExact, Kept, RowFits, AllFit, Progress, Placed, RowImage, KeyFree, ClashFree, Accepted, AllAcceptable, Entered, EnteredAll;
    PrefixAccepted(columns, values, row, was.rows);
    AcceptedNow(columns, values, row, was.rows, mid.rows, refs);
    hide KeysFree, Added;
    if KeysFree(columns, values, was.rows) {
      EnteredIsExact(columns, mid.maps, mid.rows, ref, Kept(columns, row));
    } else {
      var r, s := TakenTwice(columns, was.rows, now.rows, values + [row], refs + [ref]);
      ClashBreaks(columns, now.maps, now.rows, r, s);
    }
  }

  lemma TookMore(columns: seq<Column>, was: Content, mid: Content, now: Content, values: seq<Row>, refs: seq<Ref>, row: Row, ref: Ref)
    requires Took(columns, was, mid, values, refs) && TookRow(columns, mid, now, row, ref)
    requires AllFit(columns, mid.rows) && RowFits(columns, Kept(columns, row))
    requires Acceptable(columns, row, mid.rows, values) && AcceptableOn(columns, row, mid.chain, values)
    ensures Took(columns, was, now, values + [row], refs + [ref])
  {
    hide AllExact, Kept, RowFits, AllFit, Placed, RowImage, KeysFree, ClashFree, AllAcceptable, Acceptable, AcceptableOn, Entered, Progress;
    KeptAllMore(columns, values, row);
    OneMoreAdded(was.rows, mid.rows, refs, KeptAll(columns, values), ref, Kept(columns, row));
    OneMoreEntered(columns, was.maps, KeptAll(columns, values), refs, Kept(columns, row), ref);
    PrefixAccepted(columns, values, row, was.rows);
    AcceptedNow(columns, values, row, was.rows, mid.rows, refs);
    ProgressMore(columns, was.chain, values, row);
    if AllExact(columns, was.maps, was.rows) {
      ExactWithMore(columns, was, mid, now, values, refs, row, ref);
    }
  }

  // ---- rows gone ------------------------------------------------------------

  /** The condition of a DELETE, on the bytes of a row. */
  function Chosen(columns: seq<Column>, where: Row -> Option<bool>): Bytes -> bool {
    (b: Bytes) =>
      match DecodedRow(b, Types(columns))
      case None => false
      case Some(row) => where(row) == Some(true)
  }

  ghost predicate RaisesOn(columns: seq<Column>, chain: Chain, where: Row -> Option<bool>) {
    exists i, s :: 0 <= i < |chain| && 0 <= s < |chain[i].cells| && RowOf(columns, chain[i].cells[s]).Some?
      && where(RowOf(columns, chain[i].cells[s]).value).None?
  }

  lemma RaisesOnIs(columns: seq<Column>, ids: seq<nat>, views: Pages, rows: Rows, where: Row -> Option<bool>)
    requires Holds(columns, views, rows) && (forall p :: p in views <==> p in ids)
    ensures RaisesOn(columns, ChainOf(ids, views), where) <==> exists r: Ref :: r in rows && where(rows[r]).None?
  {
    hide RowOf, Holds;
    var chain := ChainOf(ids, views);
    if RaisesOn(columns, chain, where) {
      var i, s :| 0 <= i < |chain| && 0 <= s < |chain[i].cells| && RowOf(columns, chain[i].cells[s]).Some?
                  && where(RowOf(columns, chain[i].cells[s]).value).None?;
      CellIsRow(columns, ids, views, rows, i, s);
      assert where(rows[Ref(ids[i], s)]).None?;
    }
    if r: Ref :| r in rows && where(rows[r]).None? {
      var i := RowHasCell(columns, ids, views, rows, r);
      assert RowOf(columns, chain[i].cells[r.slot]).Some?;
    }
  }

  /** The first `k` of a list are tombstones, nothing else has changed. */
  ghost predicate Cut(was: Pages, now: Pages, out: seq<(Ref, Row)>, k: nat) {
    && k <= |out| && now.Keys == was.Keys
    && forall p :: p in was ==> CutPage(was[p], now[p], out[..k], p)
  }

  ghost predicate CutPage(was: PageView, now: PageView, gone: seq<(Ref, Row)>, p: nat) {
    && now.space == was.space && |now.cells| == |was.cells|
    && forall s :: 0 <= s < |was.cells| ==> now.cells[s] == if Seen(gone, Ref(p, s)) then Cell(None, was.cells[s].room) else was.cells[s]
  }

  lemma NothingCut(was: Pages, out: seq<(Ref, Row)>)
    ensures Cut(was, was, out, 0)
  {
    assert forall r: Ref :: !Seen(out[..0], r);
  }

  lemma OneMoreCut(was: Pages, mid: Pages, out: seq<(Ref, Row)>, k: nat)
    requires Cut(was, mid, out, k) && k < |out| && LiveAt(mid, out[k].0)
    ensures var ref := out[k].0;
      Cut(was, mid[ref.page := Step(mid[ref.page], DeleteSlot(ref.slot))], out, k + 1)
  {
    hide Seen;
    var ref := out[k].0;
    var after := mid[ref.page := Step(mid[ref.page], DeleteSlot(ref.slot))];
    assert out[..k + 1] == out[..k] + [out[k]];
    SeenMore(out[..k], ref, out[k].1);
    forall p | p in was ensures CutPage(was[p], after[p], out[..k + 1], p) {
      assert CutPage(was[p], mid[p], out[..k], p);
    }
  }

  /** When exactly the chosen rows are gone, the pages are the swept ones. */
  lemma CutIsSwept(columns: seq<Column>, ids: seq<nat>, was: Pages, now: Pages, rows: Rows, out: seq<(Ref, Row)>, where: Row -> Option<bool>)
    requires Holds(columns, was, rows) && (forall p :: p in was <==> p in ids) && Cut(was, now, out, |out|)
    requires PartOf(out, rows) && forall r: Ref :: r in rows ==> (Seen(out, r) <==> where(rows[r]) == Some(true))
    ensures ChainOf(ids, now) == Swept(ChainOf(ids, was), Chosen(columns, where))
  {
    hide Holds, DecodedRow;
    var a, b := ChainOf(ids, now), Swept(ChainOf(ids, was), Chosen(columns, where));
    assert out[..|out|] == out;
    forall i | 0 <= i < |ids| ensures a[i] == b[i] {
      var p := ids[i];
      assert p in ids && CutPage(was[p], now[p], out, p);
      forall s | 0 <= s < |was[p].cells| ensures now[p].cells[s] == SweptCell(was[p].cells[s], Chosen(columns, where)) {
        CellIsRow(columns, ids, was, rows, i, s);
      }
      SamePage(now[p], SweptPage(was[p], Chosen(columns, where)));
    }
  }

  lemma SamePage(a: PageView, b: PageView)
    requires a.space == b.space && |a.cells| == |b.cells| && forall s :: 0 <= s < |a.cells| ==> a.cells[s] == b.cells[s]
    ensures a == b
  {
  }

  // ---- whole runs -----------------------------------------------------------

  datatype Statement = InsertInto(values: seq<Row>) | DeleteFrom(where: Row -> Option<bool>)

  /** The pages after a run of statements, failed ones undone; `None` when a row overruns a page. */
  ghost function After(columns: seq<Column>, chain: Chain, statements: seq<Statement>): Option<Chain> {
    if statements == [] then Some(chain) else
      var k := |statements| - 1;
      match After(columns, chain, statements[..k])
      case None => None
      case Some(now) => AfterOne(columns, now, statements[k])
  }

  ghost function AfterOne(columns: seq<Column>, now: Chain, statement: Statement): Option<Chain> {
    match statement
    case InsertInto(values) =>
      (match Progress(columns, now, values)
       case At(next) => Some(next)
       case Refused => Some(now)
       case Overrun => None)
    case DeleteFrom(where) => Some(if RaisesOn(columns, now, where) then now else Swept(now, Chosen(columns, where)))
  }

  lemma AfterMore(columns: seq<Column>, chain: Chain, statements: seq<Statement>, i: nat)
    requires i < |statements| && After(columns, chain, statements[..i]).Some?
    ensures After(columns, chain, statements[..i + 1]) == AfterOne(columns, After(columns, chain, statements[..i]).value, statements[i])
  {
    hide AfterOne;
    assert statements[..i + 1][..i] == statements[..i];
  }

  /** The INSERT statements that get through store no key that is taken. */
  ghost predicate KeepsKeys(columns: seq<Column>, chain: Chain, statements: seq<Statement>) {
    forall i :: 0 <= i < |statements| && After(columns, chain, statements[..i]).Some? ==>
      KeepsOne(columns, After(columns, chain, statements[..i]).value, statements[i])
  }

  ghost predicate KeepsOne(columns: seq<Column>, now: Chain, statement: Statement) {
    statement.InsertInto? && Progress(columns, now, statement.values).At? ==> KeysFreeOn(columns, statement.values, now)
  }

  /** A run that has left the model has left it. */
  lemma {:induction false} AfterStops(columns: seq<Column>, chain: Chain, statements: seq<Statement>, i: nat)
    requires i <= |statements| && After(columns, chain, statements[..i]).None?
    ensures After(columns, chain, statements).None?
    decreases |statements|
  {
    hide AfterOne;
    if i == |statements| {
      assert statements[..i] == statements;
    } else {
      var k := |statements| - 1;
      assert statements[..k][..i] == statements[..i];
      AfterStops(columns, chain, statements[..k], i);
    }
  }

  // ---- selections -----------------------------------------------------------

  /** Exactly the rows with this value in column `c`. */
  ghost predicate Selects(out: seq<(Ref, Row)>, rows: Rows, c: nat, v: Datum) {
    && PartOf(out, rows)
    && forall r: Ref :: r in rows ==> (Seen(out, r) <==> c < |rows[r]| && rows[r][c] == Some(v))
  }

  // ---- the order of a scan --------------------------------------------------

  /** Where a page is in the list. */
  function PlaceOf(ids: seq<nat>, p: nat): (i: nat)
    ensures i <= |ids| && (i < |ids| ==> ids[i] == p) && forall j :: 0 <= j < i ==> ids[j] != p
  {
    if ids == [] || ids[0] == p then 0 else 1 + PlaceOf(ids[1..], p)
  }

  /** Earlier in the list of pages, or on the same page in an earlier slot. */
  predicate Precedes(ids: seq<nat>, r: Ref, s: Ref) {
    PlaceOf(ids, r.page) < PlaceOf(ids, s.page) || (r.page == s.page && r.slot < s.slot)
  }

  ghost predicate InPageOrder(ids: seq<nat>, out: seq<(Ref, Row)>) {
    forall i, j :: 0 <= i < j < |out| ==> Precedes(ids, out[i].0, out[j].0)
  }

  /** All that is listed is on the first `n` pages, or on page `n` before slot `s`. */
  ghost predicate ListedBefore(ids: seq<nat>, out: seq<(Ref, Row)>, n: nat, s: nat) {
    forall i :: 0 <= i < |out| ==>
      PlaceOf(ids, out[i].0.page) < n || (PlaceOf(ids, out[i].0.page) == n < |ids| && out[i].0.slot < s)
  }

  lemma ListedMore(ids: seq<nat>, out: seq<(Ref, Row)>, n: nat, ref: Ref, row: Row)
    requires InPageOrder(ids, out) && ListedBefore(ids, out, n, ref.slot) && n < |ids| && PlaceOf(ids, ref.page) == n
    ensures InPageOrder(ids, out + [(ref, row)]) && ListedBefore(ids, out + [(ref, row)], n, ref.slot + 1)
  {
    hide PlaceOf, Precedes;
    forall i | 0 <= i < |out| ensures Precedes(ids, out[i].0, ref) {
      ListedPrecedes(ids, out, n, i, ref);
    }
  }

  lemma ListedPrecedes(ids: seq<nat>, out: seq<(Ref, Row)>, n: nat, i: nat, ref: Ref)
    requires ListedBefore(ids, out, n, ref.slot) && i < |out| && n < |ids| && PlaceOf(ids, ref.page) == n
    ensures Precedes(ids, out[i].0, ref)
  {
    hide PlaceOf;
    if PlaceOf(ids, out[i].0.page) == n {
      SamePlace(ids, out[i].0.page, ref.page);
    }
  }

  lemma SamePlace(ids: seq<nat>, p: nat, q: nat)
    requires PlaceOf(ids, p) == PlaceOf(ids, q) < |ids|
    ensures p == q
  {
  }

  lemma ListedPast(ids: seq<nat>, out: seq<(Ref, Row)>, n: nat, s: nat)
    requires ListedBefore(ids, out, n, s)
    ensures ListedBefore(ids, out, n, s + 1) && ListedBefore(ids, out, n + 1, 0)
  {
    hide PlaceOf;
  }

  lemma NotEarlier(ids: seq<nat>, n: nat, i: nat)
    requires n < |ids| && ids[n] !in ids[..n] && i < |ids| && ids[i] == ids[n]
    ensures i >= n
  {
  }

  lemma PlaceIs(ids: seq<nat>, n: nat)
    requires n < |ids| && ids[n] !in ids[..n]
    ensures PlaceOf(ids, ids[n]) == n
  {
    NotEarlier(ids, n, PlaceOf(ids, ids[n]));
  }

  /** Those of the first `n` scanned rows that `where` selects, in order. */
  function Picked(scanned: seq<(Ref, Row)>, where: Row -> Option<bool>, n: nat): seq<(Ref, Row)>
    requires n <= |scanned|
  {
    if n == 0 then []
    else Picked(scanned, where, n - 1) + if where(scanned[n - 1].1) == Some(true) then [scanned[n - 1]] else []
  }

  lemma {:induction false} PickedAre(scanned: seq<(Ref, Row)>, rows: Rows, where: Row -> Option<bool>, n: nat)
    requires PartOf(scanned, rows) && n <= |scanned|
    ensures var out := Picked(scanned, where, n);
      && PartOf(out, rows)
      && forall r: Ref :: Seen(out, r) <==> Seen(scanned[..n], r) && r in rows && where(rows[r]) == Some(true)
  {
    if n > 0 {
      PickedAre(scanned, rows, where, n - 1);
      assert scanned[n - 1].0 in rows && rows[scanned[n - 1].0] == scanned[n - 1].1;
      var x, before := scanned[n - 1], Picked(scanned, where, n - 1);
      assert scanned[..n] == scanned[..n - 1] + [x];
      SeenMore(scanned[..n - 1], x.0, x.1);
      SeenMore(before, x.0, x.1);
      NotSeenBefore(scanned, rows, n - 1);
      if where(x.1) == Some(true) {
        PartOfMore(before, rows, x);
      } else {
        assert Picked(scanned, where, n) == before;
      }
    }
  }

  /** Selecting keeps the order. */
  lemma {:induction false} PickedInOrder(ids: seq<nat>, scanned: seq<(Ref, Row)>, where: Row -> Option<bool>, n: nat)
    requires InPageOrder(ids, scanned) && n <= |scanned|
    ensures InPageOrder(ids, Picked(scanned, where, n))
    ensures forall x :: x in Picked(scanned, where, n) ==> x in scanned[..n]
  {
    hide Precedes;
    if n > 0 {
      var before := Picked(scanned, where, n - 1);
      PickedInOrder(ids, scanned, where, n - 1);
      forall i | 0 <= i < |before| ensures Precedes(ids, before[i].0, scanned[n - 1].0) {
        assert before[i] in before;
        var j :| 0 <= j < n - 1 && scanned[j] == before[i];
      }
    }
  }

  lemma NotSeenBefore(out: seq<(Ref, Row)>, rows: Rows, k: nat)
    requires PartOf(out, rows) && k < |out|
    ensures !Seen(out[..k], out[k].0)
  {
  }

  lemma PartOfMore(out: seq<(Ref, Row)>, rows: Rows, x: (Ref, Row))
    requires PartOf(out, rows) && x.0 in rows && rows[x.0] == x.1 && !Seen(out, x.0)
    ensures PartOf(out + [x], rows)
  {
    forall i | 0 <= i < |out| ensures out[i].0 != x.0 {
    }
  }

  /** Of a whole scan: exactly the rows selected. */
  lemma PickedAll(scanned: seq<(Ref, Row)>, rows: Rows, where: Row -> Option<bool>)
    requires Enumerates(scanned, rows)
    ensures var out := Picked(scanned, where, |scanned|);
      PartOf(out, rows) && forall r: Ref :: r in rows ==> (Seen(out, r) <==> where(rows[r]) == Some(true))
  {
    PickedAre(scanned, rows, where, |scanned|);
    assert scanned[..|scanned|] == scanned;
  }

  /** `None` when the condition raises on a row. */
  method PickWhere(scanned: seq<(Ref, Row)>, where: Row -> Option<bool>) returns (out: Option<seq<(Ref, Row)>>)
    ensures out.None? <==> exists j :: 0 <= j < |scanned| && where(scanned[j].1).None?
    ensures out.Some? ==> out.value == Picked(scanned, where, |scanned|)
  {
    var picked: seq<(Ref, Row)> := [];
    for i := 0 to |scanned|
      invariant picked == Picked(scanned, where, i)
      invariant forall j :: 0 <= j < i ==> where(scanned[j].1).Some?
    {
      var verdict := where(scanned[i].1);
      if verdict.None? {
        return None;
      }
      if verdict.value {
        picked := picked + [scanned[i]];
      }
    }
    return Some(picked);
  }

  /** The type `infer_literal_type` gives a literal. */
  function LiteralType(lit: Datum): ColumnType {
    match lit
    case IntValue(_) => IntType(4)
    case BoolValue(_) => BoolType
    case TextValue(_) => TextType
    case DateValue(_) => DateType
    case TimeValue(_, _, _, _) => TimeType
  }

  /** `codec.validate`. */
  predicate Validates(t: ColumnType, v: Datum) {
    match (t, v)
    case (IntType(w), IntValue(i)) => FitsSigned(i, w)
    case (BoolType, BoolValue(_)) => true
    case (TextType, TextValue(_)) => true
    case (VarcharType(max), TextValue(s)) => |s| <= max
    case (CharType(max), TextValue(s)) => |s| <= max
    case (DateType, DateValue(_)) => true
    case (TimeType, TimeValue(_, _, _, _)) => true
    case _ => false
  }

  /** A scan may compare the column with the literal; otherwise the first row raises TypeError. */
  predicate Comparable(t: ColumnType, lit: Datum) {
    LiteralType(lit) == t && Validates(t, lit)
  }

  /** A literal is compared with a column of its own type only: INT, BOOL, TEXT, DATE or TIME. */
  predicate OwnType(t: ColumnType, lit: Datum) {
    match t
    case IntType(w) => w == 4 && lit.IntValue?
    case BoolType => lit.BoolValue?
    case TextType => lit.TextValue?
    case DateType => lit.DateValue?
    case TimeType => lit.TimeValue?
    case VarcharType(_) => false
    case CharType(_) => false
  }

  /** ... and an integer must be in range. */
  lemma ComparableMeans(t: ColumnType, lit: Datum)
    ensures LiteralType(lit) == t <==> OwnType(t, lit)
    ensures Comparable(t, lit) <==> OwnType(t, lit) && (lit.IntValue? ==> -0x8000_0000 <= lit.i < 0x8000_0000)
  {
    Pow256Values();
  }

  /** On the type of a key, a literal is comparable when it has the type and a key. */
  lemma ComparableOnKeys(t: ColumnType, lit: Datum)
    requires KeyWidth(t).Some? && DatumOk(lit)
    ensures Comparable(t, lit) <==> LiteralType(lit) == t && Encode(t, lit).Some?
  {
    Pow256Values();
  }

  /** `eval_expr` on `column = literal`; `None` is the TypeError. */
  function EqualAt(t: ColumnType, c: nat, lit: Datum): Row -> Option<bool> {
    (row: Row) => if !Comparable(t, lit) then None else Some(c < |row| && row[c] == Some(lit))
  }

  /** Scanning for a value: it raises if there is a row to raise on. */
  lemma EqualByScan(t: ColumnType, c: nat, lit: Datum, scanned: seq<(Ref, Row)>, rows: Rows)
    requires Enumerates(scanned, rows)
    ensures var where := EqualAt(t, c, lit);
      && ((exists j :: 0 <= j < |scanned| && where(scanned[j].1).None?) <==> rows != map[] && !Comparable(t, lit))
      && (!(rows != map[] && !Comparable(t, lit)) ==> Selects(Picked(scanned, where, |scanned|), rows, c, lit))
  {
    hide Comparable;
    var where := EqualAt(t, c, lit);
    PickedAll(scanned, rows, where);
    if rows != map[] {
      var r: Ref :| r in rows;
      assert Seen(scanned, r);
      assert where(scanned[0].1).None? <==> !Comparable(t, lit);
    } else {
      SomeRow(scanned, rows);
    }
  }

  lemma SomeRow(out: seq<(Ref, Row)>, rows: Rows)
    requires PartOf(out, rows)
    ensures out != [] ==> exists r: Ref :: r in rows
  {
    if out != [] {
      assert out[0].0 in rows;
    }
  }

  lemma SomeRaises(scanned: seq<(Ref, Row)>, rows: Rows, where: Row -> Option<bool>)
    requires PartOf(scanned, rows) && exists j :: 0 <= j < |scanned| && where(scanned[j].1).None?
    ensures exists r: Ref :: r in rows && where(rows[r]).None?
  {
    var j :| 0 <= j < |scanned| && where(scanned[j].1).None?;
    SomethingRaises(scanned, rows, where, j);
  }

  lemma NothingRaises(scanned: seq<(Ref, Row)>, rows: Rows, where: Row -> Option<bool>)
    requires Enumerates(scanned, rows) && forall j :: 0 <= j < |scanned| ==> where(scanned[j].1).Some?
    ensures forall r: Ref :: r in rows ==> where(rows[r]).Some?
  {
    forall r: Ref | r in rows ensures where(rows[r]).Some? {
      assert Seen(scanned, r);
    }
  }

  lemma SomethingRaises(scanned: seq<(Ref, Row)>, rows: Rows, where: Row -> Option<bool>, j: nat)
    requires PartOf(scanned, rows) && j < |scanned| && where(scanned[j].1).None?
    ensures exists r: Ref :: r in rows && where(rows[r]).None?
  {
    assert where(rows[scanned[j].0]).None?;
  }

  /** `rows` without the first `k` of a list. */
  ghost predicate Without(was: Rows, rows: Rows, out: seq<(Ref, Row)>, k: nat) {
    && k <= |out|
    && (forall r: Ref :: r in rows ==> r in was && rows[r] == was[r])
    && (forall r: Ref :: r in was ==> (r in rows <==> !Seen(out[..k], r)))
  }

  lemma SelectedAreGone(was: Rows, rows: Rows, out: seq<(Ref, Row)>, where: Row -> Option<bool>)
    requires Without(was, rows, out, |out|)
    requires forall r: Ref :: r in was ==> where(was[r]).Some? && (Seen(out, r) <==> where(was[r]) == Some(true))
    ensures forall r: Ref :: r in rows ==> r in was && rows[r] == was[r]
    ensures forall r: Ref :: r in was ==> (r in rows <==> where(was[r]) == Some(false))
  {
    assert out[..|out|] == out;
    forall r: Ref | r in was ensures r in rows <==> where(was[r]) == Some(false) {
      var selected := where(was[r]).value;
      assert where(was[r]) == Some(selected);
    }
  }

  lemma NothingGone(rows: Rows, out: seq<(Ref, Row)>)
    ensures Without(rows, rows, out, 0)
  {
    assert forall r: Ref :: !Seen(out[..0], r);
  }

  lemma StillThere(was: Rows, rows: Rows, out: seq<(Ref, Row)>, k: nat)
    requires PartOf(out, was) && Without(was, rows, out, k) && k < |out|
    ensures out[k].0 in rows && rows[out[k].0] == out[k].1
    ensures Without(was, rows - {out[k].0}, out, k + 1)
  {
    NotSeenBefore(out, was, k);
    assert out[..k + 1] == out[..k] + [out[k]];
    SeenMore(out[..k], out[k].0, out[k].1);
  }

  lemma ExactColumn(columns: seq<Column>, indexes: seq<Index>, rows: Rows, c: nat)
    requires AllExact(columns, indexes, rows) && c < |columns| && Indexed(columns[c])
    ensures |indexes| == |columns| && Exact(columns, c, indexes[c], rows)
  {
  }

  lemma KeyAbsent(columns: seq<Column>, c: nat, index: Index, rows: Rows, lit: Datum)
    requires c < |columns| && Exact(columns, c, index, rows) && DatumOk(lit)
    requires Encode(columns[c].ctype, lit).Some? && Encode(columns[c].ctype, lit).value !in index
    ensures Selects([], rows, c, Canonical(columns[c].ctype, lit))
  {
    hide Encode, Canonical;
    KeyOfStored(columns[c].ctype, lit);
    forall r: Ref | r in rows && c < |rows[r]| && rows[r][c].Some? ensures rows[r][c].value != Canonical(columns[c].ctype, lit) {
      assert Points(index, KeyAt(columns, rows[r], c), r);
    }
  }

  lemma KeyPresent(columns: seq<Column>, c: nat, index: Index, rows: Rows, lit: Datum)
    requires c < |columns| && Exact(columns, c, index, rows) && DatumOk(lit)
    requires AllFit(columns, rows)
    requires Encode(columns[c].ctype, lit).Some? && Encode(columns[c].ctype, lit).value in index
    ensures var ref := index[Encode(columns[c].ctype, lit).value];
      ref in rows && Selects([(ref, rows[ref])], rows, c, Canonical(columns[c].ctype, lit))
  {
    hide Encode, Canonical;
    var t := columns[c].ctype;
    var ref := index[Encode(t, lit).value];
    var out := [(ref, rows[ref])];
    KeyOfStored(t, lit);
    assert RowFits(columns, rows[ref]) && Whole(columns[c], rows[ref][c].value);
    KeyDecides(t, lit, rows[ref][c].value);
    assert out[0].0 == ref;
    forall r: Ref | r in rows ensures Seen(out, r) <==> rows[r][c] == Some(Canonical(t, lit)) {
      if rows[r][c] == Some(Canonical(t, lit)) {
        assert Points(index, KeyAt(columns, rows[r], c), r);
      }
    }
  }

  /** A selection on an indexed column has one row at most. */
  lemma OneAtMost(columns: seq<Column>, indexes: seq<Index>, rows: Rows, c: nat, v: Datum, out: seq<(Ref, Row)>)
    requires AllExact(columns, indexes, rows) && c < |columns| && Indexed(columns[c]) && Selects(out, rows, c, v)
    ensures |out| <= 1 && (|out| == 1 <==> HasValue(rows, c, v))
  {
    hide AllExact;
    if |out| > 1 {
      FirstTwo(out, rows);
      assert Seen(out, out[0].0) && Seen(out, out[1].0);
      NoTwoShareAKey(columns, indexes, rows, c, out[0].0, out[1].0);
    }
    if |out| == 1 {
      assert Seen(out, out[0].0);
    }
    if HasValue(rows, c, v) {
      var r: Ref :| r in rows && c < |rows[r]| && rows[r][c] == Some(v);
      assert Seen(out, r);
    }
  }

  lemma FirstTwo(out: seq<(Ref, Row)>, rows: Rows)
    requires PartOf(out, rows) && |out| > 1
    ensures out[0].0 != out[1].0 && out[0].0 in rows && out[1].0 in rows
  {
  }

  lemma SameSelection(columns: seq<Column>, indexes: seq<Index>, rows: Rows, c: nat, lit: Datum,
                      fast: seq<(Ref, Row)>, scan: seq<(Ref, Row)>)
    requires AllExact(columns, indexes, rows) && c < |columns| && Indexed(columns[c]) && DatumOk(lit)
    requires AllFit(columns, rows)
    requires Encode(columns[c].ctype, lit).Some?
    requires Selects(fast, rows, c, Canonical(columns[c].ctype, lit)) && Selects(scan, rows, c, lit)
    ensures fast == scan <==> Whole(columns[c], lit) || !HasValue(rows, c, Canonical(columns[c].ctype, lit))
  {
    hide AllExact, Encode, Canonical, Selects;
    var stored := Canonical(columns[c].ctype, lit);
    OneAtMost(columns, indexes, rows, c, stored, fast);
    OneAtMost(columns, indexes, rows, c, lit, scan);
    if stored == lit {
      SameRow(columns, indexes, rows, c, lit, fast, scan);
    } else {
      NotStored(columns, rows, c, lit);
    }
  }

  /** When index and scan answer a lookup alike. On an empty table, unless the index refuses the
      literal. Otherwise when both refuse it, or the literal has the column's own type and is
      stored as it is, or what it is stored as is not in the table. */
  ghost predicate SameAnswer(column: Column, rows: Rows, c: nat, lit: Datum) {
    if rows == map[] then Encode(column.ctype, lit).Some?
    else
      || Encode(column.ctype, lit).None?
      || (LiteralType(lit) == column.ctype && (Whole(column, lit) || !HasValue(rows, c, Canonical(column.ctype, lit))))
  }

  /** On an empty table index and scan agree on the literals the column takes. On a table with rows
      they agree on those it does not take, which both refuse, and otherwise exactly when the column
      has one of the types INT, BOOL, DATE and TIME, the literal is of that type, and it is not a time
      with a fraction of a second whose whole second is in the table. */
  lemma SameAnswerMeans(column: Column, rows: Rows, c: nat, lit: Datum)
    requires KeyWidth(column.ctype).Some? && DatumOk(lit)
    ensures SameAnswer(column, rows, c, lit) <==>
      if rows == map[] then Takes(column.ctype, lit)
      else
        || !Takes(column.ctype, lit)
        || (OwnType(column.ctype, lit)
            && (lit.TimeValue? && lit.micro != 0 ==> !HasValue(rows, c, TimeValue(lit.hour, lit.minute, lit.second, 0))))
  {
    hide Encode, HasValue, Takes;
    ComparableMeans(column.ctype, lit);
    EncodesExactly(column.ctype, lit);
    if column.ctype == LiteralType(lit) && Takes(column.ctype, lit) {
      WholeMeans(column, lit);
    }
  }

  lemma BothAnswers(columns: seq<Column>, indexes: seq<Index>, rows: Rows, c: nat, lit: Datum,
                    fast: Option<seq<(Ref, Row)>>, scan: Option<seq<(Ref, Row)>>)
    requires AllExact(columns, indexes, rows) && c < |columns| && Indexed(columns[c]) && DatumOk(lit) && AllFit(columns, rows) && SchemaOk(columns)
    requires fast.Some? <==> Encode(columns[c].ctype, lit).Some?
    requires fast.Some? ==> Selects(fast.value, rows, c, Canonical(columns[c].ctype, lit))
    requires scan.None? <==> rows != map[] && !Comparable(columns[c].ctype, lit)
    requires scan.Some? ==> Selects(scan.value, rows, c, lit)
    ensures fast == scan <==> SameAnswer(columns[c], rows, c, lit)
  {
    hide AllExact, Encode, Canonical, Selects, AllFit, HasValue, LiteralType, Whole, SchemaOk;
    var t := columns[c].ctype;
    assert KeyWidth(t).Some? by { IndexedHasWidth(columns, c); }
    ComparableOnKeys(t, lit);
    if rows == map[] {
      NothingSelected(rows, c, lit, scan.value);
      if fast.Some? {
        NothingSelected(rows, c, Canonical(t, lit), fast.value);
      }
    } else if fast.Some? && scan.Some? {
      assert fast == scan <==> fast.value == scan.value;
      SameSelection(columns, indexes, rows, c, lit, fast.value, scan.value);
    }
  }

  lemma IndexedHasWidth(columns: seq<Column>, c: nat)
    requires SchemaOk(columns) && c < |columns| && Indexed(columns[c])
    ensures KeyWidth(columns[c].ctype).Some?
  {
  }

  lemma NothingSelected(rows: Rows, c: nat, v: Datum, out: seq<(Ref, Row)>)
    requires rows == map[] && Selects(out, rows, c, v)
    ensures out == []
  {
    SomeRow(out, rows);
  }

  lemma SameRow(columns: seq<Column>, indexes: seq<Index>, rows: Rows, c: nat, v: Datum, a: seq<(Ref, Row)>, b: seq<(Ref, Row)>)
    requires AllExact(columns, indexes, rows) && c < |columns| && Indexed(columns[c])
    requires Selects(a, rows, c, v) && Selects(b, rows, c, v) && |a| == |b| <= 1
    ensures a == b
  {
    hide AllExact;
    if |a| == 1 {
      assert Seen(a, a[0].0);
      assert Seen(b, a[0].0);
      assert b[0].0 == a[0].0;
    }
  }

  predicate Seen(out: seq<(Ref, Row)>, r: Ref) {
    exists i :: 0 <= i < |out| && out[i].0 == r
  }

  /** Rows of the table, none twice. */
  ghost predicate PartOf(out: seq<(Ref, Row)>, rows: Rows) {
    && (forall i :: 0 <= i < |out| ==> out[i].0 in rows && rows[out[i].0] == out[i].1)
    && forall i, j :: 0 <= i < j < |out| ==> out[i].0 != out[j].0
  }

  /** Every row of the table, once. */
  ghost predicate Enumerates(out: seq<(Ref, Row)>, rows: Rows) {
    PartOf(out, rows) && forall r: Ref :: r in rows ==> Seen(out, r)
  }

  lemma SeenMore(out: seq<(Ref, Row)>, ref: Ref, row: Row)
    ensures forall r: Ref :: Seen(out + [(ref, row)], r) <==> Seen(out, r) || r == ref
  {
    var more := out + [(ref, row)];
    assert more[|out|].0 == ref;
    forall r: Ref | Seen(out, r) ensures Seen(more, r) {
      var i :| 0 <= i < |out| && out[i].0 == r;
      assert more[i].0 == r;
    }
  }

  lemma NotYet(dataPages: seq<nat>, i: nat)
    requires Data.DistinctIds(dataPages) && i < |dataPages|
    ensures dataPages[i] !in dataPages[..i]
  {
  }

  lemma PageDone(columns: seq<Column>, pages: Pages, rows: Rows, pid: nat, n: nat)
    requires Holds(columns, pages, rows) && pid in pages && n == |pages[pid].cells|
    ensures forall r: Ref :: r in rows && r.page == pid ==> r.slot < n
  {
    forall r: Ref | r in rows && r.page == pid ensures r.slot < n {
      HeldIsLive(columns, pages, rows, r);
    }
  }

  lemma AllSeen(columns: seq<Column>, dataPages: seq<nat>, pages: Pages, rows: Rows)
    requires Holds(columns, pages, rows) && forall p :: p in pages <==> p in dataPages
    ensures forall r: Ref :: r in rows ==> r.page in dataPages
  {
    forall r: Ref | r in rows ensures r.page in dataPages {
      HeldIsLive(columns, pages, rows, r);
    }
  }

  lemma ScannedValue(scanned: seq<(Ref, Row)>, rows: Rows, c: nat, v: Datum)
    requires Enumerates(scanned, rows) && forall r: Ref :: r in rows ==> c < |rows[r]|
    ensures (exists j :: 0 <= j < |scanned| && scanned[j].1[c] == Some(v)) <==> HasValue(rows, c, v)
  {
    if j :| 0 <= j < |scanned| && scanned[j].1[c] == Some(v) {
      assert rows[scanned[j].0][c] == Some(v);
    }
    if HasValue(rows, c, v) {
      var r: Ref :| r in rows && c < |rows[r]| && rows[r][c] == Some(v);
      assert Seen(scanned, r);
      var i :| 0 <= i < |scanned| && scanned[i].0 == r;
      assert scanned[i].1[c] == Some(v);
    }
  }
}
