/** Packing the catalog into JSON segments that fit a page each, and merging them back
    (src/tinydb/catalog.py). Column objects and table names stand as their own JSON texts. */
module CatalogPacking {
  import opened ByteStrings
  import opened Wrappers
  import opened PageStore

  const CHAIN_SEG_HEADER: nat := 16
  const CHAIN_BODY_SIZE: nat := PAGE_SIZE - CHAIN_SEG_HEADER
  const CHAIN_THRESHOLD: nat := CHAIN_BODY_SIZE - 64

  datatype CatalogTable = CatalogTable(name: Bytes, columns: seq<Bytes>, rootPageId: nat, nextPageId: nat)

  /** `meta` holds the two page ids; continuation segments leave them out. */
  datatype Entry = Entry(schema: seq<Bytes>, meta: Option<(nat, nat)>)

  type Member = (Bytes, Entry)
  type Segment = seq<Member>

  function Metadata(t: CatalogTable): Option<(nat, nat)> {
    Some((t.rootPageId, t.nextPageId))
  }

  function EntryOf(t: CatalogTable): Member {
    (t.name, Entry(t.columns, Metadata(t)))
  }

  function EntriesOf(tables: seq<CatalogTable>): (r: Segment)
    ensures |r| == |tables|
  {
    seq(|tables|, i requires 0 <= i < |tables| => EntryOf(tables[i]))
  }

  // ---- JSON text ------------------------------------------------------------

  function Ascii(s: string): (b: Bytes)
    requires forall i :: 0 <= i < |s| ==> s[i] < 128 as char
    ensures |b| == |s| && forall i :: 0 <= i < |s| ==> b[i] == s[i] as int
  {
    seq(|s|, i requires 0 <= i < |s| => s[i] as Byte)
  }

  // The fixed parts of a text.

  function Comma(): (b: Bytes)
    ensures b == [44]
  {
    Ascii(",")
  }

  function Quote(): (b: Bytes)
    ensures b == [34]
  {
    Ascii("\"")
  }

  function EndOfEntry(): (b: Bytes)
    ensures b == [125]
  {
    Ascii("}")
  }

  function EndOfSchema(): (b: Bytes)
    ensures b == [93]
  {
    Ascii("]")
  }

  function EndOfTables(): (b: Bytes)
    ensures b == [125, 125]
  {
    Ascii("}}")
  }

  function NoTables(): (b: Bytes)
    ensures b == [123, 125]
  {
    Ascii("{}")
  }

  function StartOfTables(): (b: Bytes)
    ensures |b| == 11 && b[1] == 34
  {
    Ascii("{\"tables\":{")
  }

  function StartOfSchema(): (b: Bytes)
    ensures |b| == 12
  {
    Ascii(":{\"schema\":[")
  }

  function RootField(): (b: Bytes)
    ensures |b| == 17 && b[0] == 44
    ensures forall i :: 0 <= i < 12 ==> b[2 + i] == "root_page_id"[i] as int
  {
    Ascii(",\"root_page_id\":\"")
  }

  function NextField(): (b: Bytes)
    ensures |b| == 18 && b[0] == 34
    ensures forall i :: 0 <= i < 12 ==> b[3 + i] == "next_page_id"[i] as int
  {
    Ascii("\",\"next_page_id\":\"")
  }

  function Decimal(n: nat): (b: Bytes)
    ensures b != []
  {
    var last: Bytes := [(48 + n % 10) as Byte];
    if n < 10 then last else Decimal(n / 10) + last
  }

  function Join(parts: seq<Bytes>): Bytes {
    if parts == [] then []
    else if |parts| == 1 then parts[0]
    else Join(parts[..|parts| - 1]) + Comma() + parts[|parts| - 1]
  }

  function MetaText(meta: Option<(nat, nat)>): Bytes {
    match meta
    case None => []
    case Some((root, next)) =>
      RootField() + Decimal(root) + NextField() + Decimal(next) + Quote()
  }

  function MemberText(m: Member): Bytes {
    m.0 + StartOfSchema() + Join(m.1.schema) + EndOfSchema() + MetaText(m.1.meta) + EndOfEntry()
  }

  function MemberTexts(seg: Segment): (r: seq<Bytes>)
    ensures |r| == |seg| && forall i :: 0 <= i < |seg| ==> r[i] == MemberText(seg[i])
  {
    seq(|seg|, i requires 0 <= i < |seg| => MemberText(seg[i]))
  }

  /** The text of a segment; a bare pair of braces when there are no tables. */
  function Dumps(seg: Segment): Bytes {
    if seg == [] then NoTables() else StartOfTables() + Join(MemberTexts(seg)) + EndOfTables()
  }

  predicate Fits(seg: Segment) {
    |Dumps(seg)| <= CHAIN_BODY_SIZE
  }

  lemma {:induction false} PartInJoin(parts: seq<Bytes>, i: nat)
    requires i < |parts|
    ensures |parts[i]| <= |Join(parts)|
  {
    if i < |parts| - 1 {
      PartInJoin(parts[..|parts| - 1], i);
    }
  }

  /** A table takes no more room alone than among others. */
  lemma AloneIsSmaller(seg: Segment, i: nat)
    requires i < |seg|
    ensures |Dumps([seg[i]])| <= |Dumps(seg)|
  {
    hide Join, MemberText;
    PartInJoin(MemberTexts(seg), i);
    SingleText(seg[i]);
  }

  lemma SingleText(m: Member)
    ensures Dumps([m]) == StartOfTables() + MemberText(m) + EndOfTables()
  {
    hide MemberText;
    assert MemberTexts([m]) == [MemberText(m)];
  }

  /** A slice of the columns of a table. */
  function Fragment(name: Bytes, columns: seq<Bytes>, meta: Option<(nat, nat)>): Segment {
    [(name, Entry(columns, meta))]
  }

  /** One column without metadata takes no more room than a fragment that has it. */
  lemma ColumnIsSmaller(name: Bytes, columns: seq<Bytes>, meta: Option<(nat, nat)>, k: nat)
    requires k < |columns|
    ensures |Dumps(Fragment(name, [columns[k]], None))| <= |Dumps(Fragment(name, columns, meta))|
  {
    hide MetaText, Ascii;
    PartInJoin(columns, k);
    SingleText((name, Entry([columns[k]], None)));
    SingleText((name, Entry(columns, meta)));
    NoMeta();
  }

  lemma NoMeta()
    ensures MetaText(None) == []
  {
  }

  // ---- what can be packed ---------------------------------------------------

  /** A table fits a segment, or its first column does together with the page ids and every
      other column does alone. */
  predicate Packable(t: CatalogTable) {
    || Fits([EntryOf(t)])
    || (&& t.columns != [] && Fits(Fragment(t.name, t.columns[..1], Metadata(t)))
        && forall k :: 1 <= k < |t.columns| ==> Fits(Fragment(t.name, [t.columns[k]], None)))
  }

  predicate DistinctNames(tables: seq<CatalogTable>) {
    forall i, j :: 0 <= i < j < |tables| ==> tables[i].name != tables[j].name
  }

  // ---- merging segments -----------------------------------------------------

  /** `_merge_table_entry`: columns are appended, later page ids win. */
  function MergeEntry(tables: Segment, m: Member): Segment {
    if tables == [] then [m]
    else if tables[0].0 == m.0 then
      var was := tables[0].1;
      [(m.0, Entry(was.schema + m.1.schema, if m.1.meta.Some? then m.1.meta else was.meta))] + tables[1..]
    else [tables[0]] + MergeEntry(tables[1..], m)
  }

  function MergeSegment(tables: Segment, seg: Segment): Segment {
    if seg == [] then tables else MergeEntry(MergeSegment(tables, seg[..|seg| - 1]), seg[|seg| - 1])
  }

  function MergeAll(segs: seq<Segment>): Segment {
    if segs == [] then [] else MergeSegment(MergeAll(segs[..|segs| - 1]), segs[|segs| - 1])
  }

  /** The tables of merged entries; `None` when page ids are missing. */
  function Materialize(tables: Segment): Option<seq<CatalogTable>> {
    if tables == [] then Some([]) else
      var rest, m := Materialize(tables[..|tables| - 1]), tables[|tables| - 1];
      if rest.None? || m.1.meta.None? then None
      else Some(rest.value + [CatalogTable(m.0, m.1.schema, m.1.meta.value.0, m.1.meta.value.1)])
  }

  predicate Fresh(tables: Segment, name: Bytes) {
    forall i :: 0 <= i < |tables| ==> tables[i].0 != name
  }

  lemma {:induction false} MergeFresh(tables: Segment, m: Member)
    requires Fresh(tables, m.0)
    ensures MergeEntry(tables, m) == tables + [m]
  {
    if tables != [] {
      MergeFresh(tables[1..], m);
      assert tables == [tables[0]] + tables[1..];
    } else {
      assert tables + [m] == [m];
    }
  }

  lemma {:induction false} MergeLast(tables: Segment, was: Entry, m: Member)
    requires Fresh(tables, m.0) && m.1.meta.None?
    ensures MergeEntry(tables + [(m.0, was)], m) == tables + [(m.0, Entry(was.schema + m.1.schema, was.meta))]
  {
    if tables == [] {
      assert tables + [(m.0, was)] == [(m.0, was)];
    } else {
      MergeLast(tables[1..], was, m);
      assert (tables + [(m.0, was)])[1..] == tables[1..] + [(m.0, was)];
    }
  }

  /** Merging an entry for a table that is there appends its columns and takes its page ids, if it
      has any; the other tables stay. */
  lemma {:induction false} MergeKnown(tables: Segment, m: Member, i: nat)
    requires i < |tables| && tables[i].0 == m.0 && Fresh(tables[..i], m.0)
    ensures var merged := MergeEntry(tables, m);
      && |merged| == |tables| && (forall j :: 0 <= j < |tables| && j != i ==> merged[j] == tables[j])
      && merged[i].0 == m.0 && merged[i].1.schema == tables[i].1.schema + m.1.schema
      && (m.1.meta.Some? ==> merged[i].1.meta == m.1.meta) && (m.1.meta.None? ==> merged[i].1.meta == tables[i].1.meta)
  {
    if i > 0 {
      var rest := tables[1..];
      assert tables[..i][0] == tables[0];
      assert rest[..i - 1] == tables[..i][1..];
      MergeKnown(rest, m, i - 1);
      assert forall j :: 1 <= j < |tables| ==> tables[j] == rest[j - 1];
    }
  }

  lemma {:induction false} MergeNewTables(tables: Segment, seg: Segment)
    requires forall i :: 0 <= i < |seg| ==> Fresh(tables, seg[i].0)
    requires DistinctMembers(seg)
    ensures MergeSegment(tables, seg) == tables + seg
  {
    if seg != [] {
      var before, m := seg[..|seg| - 1], seg[|seg| - 1];
      MergeNewTables(tables, before);
      MergeFresh(tables + before, m);
      assert seg == before + [m];
    }
  }

  lemma MergeOne(tables: Segment, m: Member)
    ensures MergeSegment(tables, [m]) == MergeEntry(tables, m)
  {
    assert [m][..0] == [];
    assert MergeSegment(tables, []) == tables;
  }

  lemma MergeAllSnoc(segs: seq<Segment>, seg: Segment)
    ensures MergeAll(segs + [seg]) == MergeSegment(MergeAll(segs), seg)
  {
    assert (segs + [seg])[..|segs|] == segs;
  }

  lemma {:induction false} MaterializeEntries(tables: seq<CatalogTable>)
    ensures Materialize(EntriesOf(tables)) == Some(tables)
  {
    if tables != [] {
      var before := tables[..|tables| - 1];
      MaterializeEntries(before);
      assert EntriesOf(tables)[..|tables| - 1] == EntriesOf(before);
      assert tables == before + [tables[|tables| - 1]];
    }
  }

  // ---- how much a segment adds ----------------------------------------------

  function ColumnsWeight(columns: seq<Bytes>): nat {
    if columns == [] then 0 else ColumnsWeight(columns[..|columns| - 1]) + 1 + |columns[|columns| - 1]|
  }

  /** Tables, columns and the bytes of the columns, counted together. */
  function Weight(tables: Segment): nat {
    if tables == [] then 0 else 1 + ColumnsWeight(tables[0].1.schema) + Weight(tables[1..])
  }

  lemma {:induction false} ColumnsWeightSum(a: seq<Bytes>, b: seq<Bytes>)
    ensures ColumnsWeight(a + b) == ColumnsWeight(a) + ColumnsWeight(b)
  {
    if b == [] {
      assert a + b == a;
    } else {
      ColumnsWeightSum(a, b[..|b| - 1]);
      assert (a + b)[..|a + b| - 1] == a + b[..|b| - 1];
    }
  }

  lemma {:induction false} WeightSum(a: Segment, b: Segment)
    ensures Weight(a + b) == Weight(a) + Weight(b)
  {
    if a == [] {
      assert a + b == b;
    } else {
      WeightSum(a[1..], b);
      assert (a + b)[1..] == a[1..] + b;
    }
  }

  lemma NoWeight()
    ensures Weight([]) == 0
  {
  }

  lemma SingleWeight(m: Member)
    ensures Weight([m]) == 1 + ColumnsWeight(m.1.schema)
  {
    var rest: Segment := [m][1..];
    assert rest == [];
  }

  /** Merging adds the weight of the columns, and one for a new table. */
  lemma {:induction false} MergeEntryWeight(tables: Segment, m: Member)
    ensures var more := Weight(MergeEntry(tables, m)) - Weight(tables) - ColumnsWeight(m.1.schema);
      more == 0 || (more == 1 && Fresh(tables, m.0))
  {
    if tables != [] {
      if tables[0].0 == m.0 {
        ColumnsWeightSum(tables[0].1.schema, m.1.schema);
        assert MergeEntry(tables, m)[1..] == tables[1..];
      } else {
        MergeEntryWeight(tables[1..], m);
        assert MergeEntry(tables, m)[1..] == MergeEntry(tables[1..], m);
      }
    }
  }

  lemma {:induction false} MergeSegmentWeight(tables: Segment, seg: Segment)
    ensures Weight(tables) <= Weight(MergeSegment(tables, seg)) <= Weight(tables) + Weight(seg)
  {
    if seg != [] {
      var before, m := seg[..|seg| - 1], seg[|seg| - 1];
      MergeSegmentWeight(tables, before);
      MergeEntryWeight(MergeSegment(tables, before), m);
      WeightSum(before, [m]);
      assert seg == before + [m];
      SingleWeight(m);
    }
  }

  lemma {:induction false} JoinWeight(parts: seq<Bytes>)
    ensures ColumnsWeight(parts) <= |Join(parts)| + 1
  {
    if |parts| > 1 {
      JoinWeight(parts[..|parts| - 1]);
    }
  }

  lemma MemberWeight(m: Member)
    ensures 1 + ColumnsWeight(m.1.schema) < |MemberText(m)|
  {
    hide MetaText, Ascii;
    JoinWeight(m.1.schema);
  }

  /** A text is longer than what it describes is heavy. */
  lemma {:induction false} TextsWeight(seg: Segment)
    requires seg != []
    ensures Weight(seg) <= |Join(MemberTexts(seg))|
    decreases |seg|
  {
    hide MemberText, ColumnsWeight, Weight;
    var before, m := seg[..|seg| - 1], seg[|seg| - 1];
    NoWeight();
    MemberWeight(m);
    WeightSum(before, [m]);
    assert seg == before + [m];
    SingleWeight(m);
    assert MemberTexts(seg)[..|seg| - 1] == MemberTexts(before);
    if before != [] {
      TextsWeight(before);
    }
  }

  lemma DumpsWeight(seg: Segment)
    ensures Weight(seg) <= |Dumps(seg)|
  {
    hide Join, MemberText;
    if seg != [] {
      TextsWeight(seg);
    }
  }

  /** Every segment behind the first adds to what was there. */
  ghost predicate Growing(segs: seq<Segment>) {
    forall k :: 1 <= k < |segs| ==> Weight(MergeAll(segs[..k])) < Weight(MergeSegment(MergeAll(segs[..k]), segs[k]))
  }

  /** What packing promises of its segments. Names in a segment are distinct, as JSON wants. */
  ghost predicate WellPacked(segs: seq<Segment>) {
    && AllFit(segs) && Growing(segs)
    && forall i :: 0 <= i < |segs| ==> DistinctMembers(segs[i])
  }

  /** There are no more segments than the catalog is heavy, but one. */
  lemma {:induction false} FewSegments(segs: seq<Segment>, n: nat)
    requires Growing(segs) && n <= |segs|
    ensures n <= Weight(MergeAll(segs[..n])) + 1
  {
    hide MergeSegment, Weight;
    if n > 1 {
      FewSegments(segs, n - 1);
      assert segs[..n][..n - 1] == segs[..n - 1] && segs[..n][n - 1] == segs[n - 1];
      assert MergeAll(segs[..n]) == MergeSegment(MergeAll(segs[..n - 1]), segs[n - 1]);
    }
  }

  lemma GrowOne(segs: seq<Segment>, seg: Segment)
    requires WellPacked(segs) && Fits(seg) && DistinctMembers(seg)
    requires Weight(MergeAll(segs)) < Weight(MergeSegment(MergeAll(segs), seg))
    ensures WellPacked(segs + [seg])
  {
    hide MergeAll, MergeSegment, Dumps, DistinctMembers;
    var all := segs + [seg];
    assert all[..|segs|] == segs;
    forall k | 1 <= k < |segs| ensures all[..k] == segs[..k] {
    }
  }

  lemma OneWellPacked(seg: Segment)
    requires Fits(seg) && DistinctMembers(seg)
    ensures WellPacked([seg])
  {
    hide Dumps, MergeAll, MergeSegment, Weight;
  }

  /** The first segments of several hold less than all. */
  lemma {:induction false} LessInFirst(segs: seq<Segment>, k: nat)
    requires Growing(segs) && 1 <= k < |segs|
    ensures Weight(MergeAll(segs[..k])) < Weight(MergeAll(segs))
    decreases |segs| - k
  {
    hide MergeSegment, Weight;
    assert segs[..k + 1] == segs[..k] + [segs[k]];
    MergeAllSnoc(segs[..k], segs[k]);
    if k + 1 == |segs| {
      assert segs[..k + 1] == segs;
    } else {
      LessInFirst(segs, k + 1);
    }
  }

  /** Tables come from their entries only. */
  lemma {:induction false} MaterializedAre(entries: Segment, tables: seq<CatalogTable>)
    requires Materialize(entries) == Some(tables)
    ensures entries == EntriesOf(tables)
    decreases |entries|
  {
    if entries != [] {
      var before, t := tables[..|tables| - 1], tables[|tables| - 1];
      MaterializedAre(entries[..|entries| - 1], before);
      assert tables == before + [t] && EntryOf(t) == entries[|entries| - 1];
      assert EntriesOf(tables) == EntriesOf(before) + [EntryOf(t)];
    }
  }

  // ---- splitting one table --------------------------------------------------

  function Flatten(segs: seq<Segment>): seq<Bytes>
    requires forall s :: s in segs ==> |s| == 1
  {
    if segs == [] then [] else
      assert segs[|segs| - 1] in segs;
      Flatten(segs[..|segs| - 1]) + segs[|segs| - 1][0].1.schema
  }

  /** Fragments of a table: the page ids are on the first one only. */
  predicate FragmentsOf(segs: seq<Segment>, t: CatalogTable, columns: seq<Bytes>) {
    && (forall i :: 0 <= i < |segs| ==> IsFragment(segs[i], t, i == 0))
    && (forall s :: s in segs ==> |s| == 1)
    && Flatten(segs) == columns
  }

  predicate IsFragment(seg: Segment, t: CatalogTable, first: bool) {
    |seg| == 1 && seg[0].0 == t.name && seg[0].1.meta == if first then Metadata(t) else None
  }

  /** Every fragment has a column. */
  predicate AllSolid(segs: seq<Segment>) {
    forall i :: 0 <= i < |segs| ==> |segs[i]| == 1 && segs[i][0].1.schema != []
  }

  lemma {:induction false} GrowFragments(segs: seq<Segment>, more: seq<Segment>)
    requires WellPacked(segs) && AllFit(more) && AllSolid(more)
    ensures WellPacked(segs + more)
  {
    hide Fits, MergeSegment, MergeAll, WellPacked;
    if more == [] {
      assert segs + more == segs;
    } else {
      var before, last := more[..|more| - 1], more[|more| - 1];
      GrowFragments(segs, before);
      MergeOne(MergeAll(segs + before), last[0]);
      MergeEntryWeight(MergeAll(segs + before), last[0]);
      assert last == [last[0]];
      assert segs + more == (segs + before) + [last];
      GrowOne(segs + before, last);
    }
  }

  lemma NextFragment(segs: seq<Segment>, t: CatalogTable, columns: seq<Bytes>, chunk: seq<Bytes>)
    requires FragmentsOf(segs, t, columns)
    ensures FragmentsOf(segs + [Fragment(t.name, chunk, HeldBy(segs, t))], t, columns + chunk)
  {
    var f := Fragment(t.name, chunk, HeldBy(segs, t));
    assert (segs + [f])[..|segs|] == segs;
  }

  lemma {:induction false} MergeFragments(tables: Segment, segs: seq<Segment>, more: seq<Segment>, t: CatalogTable, columns: seq<Bytes>)
    requires MergeAll(segs) == tables && Fresh(tables, t.name)
    requires FragmentsOf(more, t, columns) && more != []
    ensures MergeAll(segs + more) == tables + [(t.name, Entry(columns, Metadata(t)))]
  {
    hide MergeEntry;
    var k := |more| - 1;
    var before, last := more[..k], more[k];
    assert more[k] in more;
    assert last == [last[0]];
    assert segs + more == (segs + before) + [last];
    MergeAllSnoc(segs + before, last);
    MergeOne(MergeAll(segs + before), last[0]);
    if k == 0 {
      assert segs + before == segs;
      assert Flatten(before) == [] && columns == [] + last[0].1.schema == last[0].1.schema;
      assert last[0] == (t.name, Entry(columns, Metadata(t)));
      MergeFresh(tables, last[0]);
    } else {
      MergeFragments(tables, segs, before, t, Flatten(before));
      MergeLast(tables, Entry(Flatten(before), Metadata(t)), last[0]);
    }
  }

  /** Every column is in a fragment. */
  lemma {:induction false} ColumnInFragment(segs: seq<Segment>, t: CatalogTable, columns: seq<Bytes>, k: nat) returns (i: nat, j: nat)
    requires FragmentsOf(segs, t, columns) && k < |columns|
    ensures i < |segs| && IsFragment(segs[i], t, i == 0) && j < |segs[i][0].1.schema| && segs[i][0].1.schema[j] == columns[k]
  {
    var n := |segs| - 1;
    var before := Flatten(segs[..n]);
    assert segs[n] in segs && columns == before + segs[n][0].1.schema;
    if k < |before| {
      i, j := ColumnInFragment(segs[..n], t, before, k);
    } else {
      i, j := n, k - |before|;
    }
  }

  lemma AllFitIsPackable(segs: seq<Segment>, t: CatalogTable)
    requires FragmentsOf(segs, t, t.columns) && t.columns != []
    requires Fits(Fragment(t.name, t.columns[..1], Metadata(t)))
    requires AllFit(segs)
    ensures Packable(t)
  {
    hide Dumps;
    forall k | 1 <= k < |t.columns| ensures Fits(Fragment(t.name, [t.columns[k]], None)) {
      var i, j := ColumnInFragment(segs, t, t.columns, k);
      var m := segs[i][0];
      assert segs[i] == Fragment(t.name, m.1.schema, m.1.meta);
      ColumnIsSmaller(t.name, m.1.schema, m.1.meta, j);
    }
  }

  /** `_split_single_table`; `None` is the CatalogCorrupt it raises itself. */
  method SplitSingleTable(t: CatalogTable) returns (r: Option<seq<Segment>>)
    requires !Fits([EntryOf(t)])
    ensures r.None? ==> !Packable(t)
    ensures r.Some? ==> r.value != [] && FragmentsOf(r.value, t, t.columns)
    ensures r.Some? ==> AllSolid(r.value) && (Packable(t) <==> AllFit(r.value))
  {
    hide Dumps, FragmentsOf, Splitting;
    if t.columns == [] {
      return None;
    }
    assert t.columns[..1] == [t.columns[0]];
    if |Dumps(Fragment(t.name, [t.columns[0]], Metadata(t)))| > CHAIN_BODY_SIZE {
      return None;
    }
    var segments: seq<Segment> := [];
    var chunk: seq<Bytes> := [];
    ghost var done: seq<Bytes> := [];
    StartSplitting(t);
    for i := 0 to |t.columns|
      invariant Splitting(segments, chunk, t, done, i)
    {
      var col := t.columns[i];
      var trial := chunk + [col];
      if |Dumps(Fragment(t.name, trial, HeldBy(segments, t)))| <= CHAIN_BODY_SIZE {
        ColumnAdded(segments, chunk, t, done, i);
        chunk := trial;
      } else {
        ChunkEmitted(segments, chunk, t, done, i);
        segments := segments + [Fragment(t.name, chunk, HeldBy(segments, t))];
        done := done + chunk;
        chunk := [col];
      }
    }
    SplitDone(segments, chunk, t, done);
    return Some(segments + [Fragment(t.name, chunk, HeldBy(segments, t))]);
  }

  /** The page ids go on the first fragment. */
  function HeldBy(segs: seq<Segment>, t: CatalogTable): Option<(nat, nat)> {
    if segs == [] then Metadata(t) else None
  }

  /** The state of the splitting loop after `i` columns, `done` of them emitted. */
  ghost predicate Splitting(segs: seq<Segment>, chunk: seq<Bytes>, t: CatalogTable, done: seq<Bytes>, i: nat) {
    && i <= |t.columns| && FragmentsOf(segs, t, done) && done + chunk == t.columns[..i]
    && AllSolid(segs) && (segs == [] ==> done == []) && (i > 0 ==> chunk != []) && (i == 0 ==> segs == [])
    && (Packable(t) ==> AllFit(segs) && (chunk != [] ==> Fits(Fragment(t.name, chunk, HeldBy(segs, t)))))
  }

  predicate AllFit(segs: seq<Segment>) {
    forall i :: 0 <= i < |segs| ==> Fits(segs[i])
  }

  lemma ColumnAdded(segs: seq<Segment>, chunk: seq<Bytes>, t: CatalogTable, done: seq<Bytes>, i: nat)
    requires Splitting(segs, chunk, t, done, i) && i < |t.columns|
    requires Fits(Fragment(t.name, chunk + [t.columns[i]], HeldBy(segs, t)))
    ensures Splitting(segs, chunk + [t.columns[i]], t, done, i + 1)
  {
    hide Fits, FragmentsOf, Packable;
    assert t.columns[..i + 1] == t.columns[..i] + [t.columns[i]];
    assert done + (chunk + [t.columns[i]]) == (done + chunk) + [t.columns[i]];
  }

  /** A column that does not fit starts a new fragment; never the first one. */
  lemma ChunkEmitted(segs: seq<Segment>, chunk: seq<Bytes>, t: CatalogTable, done: seq<Bytes>, i: nat)
    requires Splitting(segs, chunk, t, done, i) && i < |t.columns| && !Fits([EntryOf(t)])
    requires Fits(Fragment(t.name, t.columns[..1], Metadata(t)))
    requires !Fits(Fragment(t.name, chunk + [t.columns[i]], HeldBy(segs, t)))
    ensures Splitting(segs + [Fragment(t.name, chunk, HeldBy(segs, t))], [t.columns[i]], t, done + chunk, i + 1)
  {
    hide Fits, FragmentsOf;
    NotTheFirst(chunk, t, done, i);
    NextFragment(segs, t, done, chunk);
    assert t.columns[..i + 1] == t.columns[..i] + [t.columns[i]];
    assert (done + chunk) + [t.columns[i]] == t.columns[..i + 1];
  }

  lemma NotTheFirst(chunk: seq<Bytes>, t: CatalogTable, done: seq<Bytes>, i: nat)
    requires i < |t.columns| && done + chunk == t.columns[..i]
    ensures i == 0 ==> chunk + [t.columns[i]] == t.columns[..1]
  {
    assert |done + chunk| == i;
  }

  lemma SplitDone(segs: seq<Segment>, chunk: seq<Bytes>, t: CatalogTable, done: seq<Bytes>)
    requires Splitting(segs, chunk, t, done, |t.columns|) && t.columns != []
    requires Fits(Fragment(t.name, t.columns[..1], Metadata(t)))
    ensures var all := segs + [Fragment(t.name, chunk, HeldBy(segs, t))];
      FragmentsOf(all, t, t.columns) && AllSolid(all) && (Packable(t) <==> AllFit(all))
  {
    hide Fits, FragmentsOf, Packable;
    NextFragment(segs, t, done, chunk);
    assert t.columns[..|t.columns|] == t.columns;
    var all := segs + [Fragment(t.name, chunk, HeldBy(segs, t))];
    if AllFit(all) {
      AllFitIsPackable(all, t);
    }
  }

  lemma StartSplitting(t: CatalogTable)
    ensures Splitting([], [], t, [], 0)
  {
    assert t.columns[..0] == [];
  }

  // ---- the whole catalog ----------------------------------------------------

  /** Segments and the open one hold the tables so far. */
  ghost predicate Packed(segs: seq<Segment>, cur: Segment, tables: seq<CatalogTable>) {
    && MergeAll(segs) + cur == EntriesOf(tables)
    && WellPacked(segs)
    && (cur != [] ==> Fits(cur))
  }

  predicate DistinctMembers(seg: Segment) {
    forall i, j :: 0 <= i < j < |seg| ==> seg[i].0 != seg[j].0
  }

  lemma DistinctParts(a: Segment, b: Segment)
    requires DistinctMembers(a + b)
    ensures DistinctMembers(b) && forall i :: 0 <= i < |b| ==> Fresh(a, b[i].0)
  {
    var all := a + b;
    assert forall i :: 0 <= i < |a| ==> all[i] == a[i];
    forall j | 0 <= j < |b| ensures b[j] == all[|a| + j] {
    }
  }

  lemma DistinctEntries(tables: seq<CatalogTable>)
    requires DistinctNames(tables)
    ensures DistinctMembers(EntriesOf(tables))
  {
  }

  lemma FlushKeeps(segs: seq<Segment>, cur: Segment, tables: seq<CatalogTable>)
    requires Packed(segs, cur, tables) && DistinctNames(tables)
    ensures Packed(if cur == [] then segs else segs + [cur], [], tables)
  {
    hide Dumps, MergeAll, MergeSegment, EntriesOf, Fresh;
    DistinctEntries(tables);
    if cur != [] {
      DistinctParts(MergeAll(segs), cur);
      MergeNewTables(MergeAll(segs), cur);
      MergeAllSnoc(segs, cur);
      WeightSum(MergeAll(segs), cur);
      GrowOne(segs, cur);
      assert MergeAll(segs + [cur]) + [] == MergeAll(segs) + cur;
    }
  }

  lemma TableIsNew(tables: seq<CatalogTable>, t: CatalogTable)
    requires DistinctNames(tables + [t])
    ensures DistinctNames(tables) && Fresh(EntriesOf(tables), t.name)
    ensures EntriesOf(tables + [t]) == EntriesOf(tables) + [EntryOf(t)]
  {
    var all := tables + [t];
    assert forall i :: 0 <= i < |tables| ==> all[i] == tables[i];
    assert all[|tables|] == t;
  }

  lemma SplitKeeps(segs: seq<Segment>, more: seq<Segment>, tables: seq<CatalogTable>, t: CatalogTable)
    requires Packed(segs, [], tables) && DistinctNames(tables + [t])
    requires FragmentsOf(more, t, t.columns) && more != [] && AllFit(more) && AllSolid(more)
    ensures Packed(segs + more, [], tables + [t])
  {
    hide Dumps, FragmentsOf;
    GrowFragments(segs, more);
    TableIsNew(tables, t);
    assert MergeAll(segs) + [] == MergeAll(segs);
    MergeFragments(MergeAll(segs), segs, more, t, t.columns);
    assert MergeAll(segs + more) + [] == MergeAll(segs + more);
  }

  lemma AddKeeps(segs: seq<Segment>, cur: Segment, tables: seq<CatalogTable>, t: CatalogTable)
    requires Packed(segs, cur, tables) && DistinctNames(tables + [t]) && Fits(cur + [EntryOf(t)])
    ensures Packed(segs, cur + [EntryOf(t)], tables + [t])
  {
    hide Dumps;
    TableIsNew(tables, t);
    assert MergeAll(segs) + (cur + [EntryOf(t)]) == (MergeAll(segs) + cur) + [EntryOf(t)];
  }

  lemma NothingMergedYet()
    ensures MergeAll([]) == []
  {
  }

  lemma WholeIsPacked(tables: seq<CatalogTable>)
    requires DistinctNames(tables) && Fits(EntriesOf(tables))
    ensures Packed([EntriesOf(tables)], [], tables)
    ensures forall i :: 0 <= i < |tables| ==> Packable(tables[i])
  {
    hide Dumps, WellPacked, DistinctMembers, MergeSegment, MergeAll;
    var all := EntriesOf(tables);
    DistinctEntries(tables);
    OneWellPacked(all);
    NothingMergedYet();
    MergeNewTables([], all);
    MergeAllSnoc([], all);
    assert [] + [all] == [all] && MergeAll([]) == [];
    assert [] + all == all && all + [] == all;
    forall i | 0 <= i < |tables| ensures Packable(tables[i]) {
      AloneIsSmaller(all, i);
    }
  }

  lemma NothingPacked()
    ensures Packed([], [], []) && Fits([])
  {
  }

  /** `_serialize_segments`; `None` is CatalogCorrupt. It is raised exactly when a table is not
      packable; otherwise every segment fits a page and merging gives the tables back. */
  method SerializeSegments(tables: seq<CatalogTable>) returns (r: Option<seq<Segment>>)
    requires DistinctNames(tables)
    ensures r.Some? <==> forall i :: 0 <= i < |tables| ==> Packable(tables[i])
    ensures r.Some? ==> r.value != [] && MergeAll(r.value) == EntriesOf(tables)
    ensures r.Some? ==> WellPacked(r.value)
    ensures |Dumps(EntriesOf(tables))| <= CHAIN_THRESHOLD ==> r == Some([EntriesOf(tables)])
  {
    hide Dumps, Packable, FragmentsOf, MergeAll, WellPacked;
    NothingPacked();
    if tables == [] {
      WholeIsPacked(tables);
      assert MergeAll([[]]) + [] == MergeAll([[]]);
      return Some([[]]);
    }
    if |Dumps(EntriesOf(tables))| <= CHAIN_THRESHOLD {
      WholeIsPacked(tables);
      assert MergeAll([EntriesOf(tables)]) + [] == MergeAll([EntriesOf(tables)]);
      return Some([EntriesOf(tables)]);
    }
    var segments: seq<Segment> := [];
    var cur: Segment := [];
    assert tables[..0] == [];
    for i := 0 to |tables|
      invariant Packed(segments, cur, tables[..i])
      invariant forall k :: 0 <= k < i ==> Packable(tables[k])
    {
      var t := tables[i];
      assert tables[..i + 1] == tables[..i] + [t];
      var added, grown, open := AddTable(segments, cur, t, tables[..i]);
      if !added {
        return None;
      }
      segments, cur := grown, open;
    }
    assert tables[..|tables|] == tables;
    FlushKeeps(segments, cur, tables);
    if cur != [] {
      segments := segments + [cur];
    }
    assert MergeAll(segments) + [] == MergeAll(segments);
    SomeSegment(segments, tables);
    return Some(segments);
  }

  lemma SomeSegment(segs: seq<Segment>, tables: seq<CatalogTable>)
    requires MergeAll(segs) == EntriesOf(tables) && tables != []
    ensures segs != []
  {
    assert |EntriesOf(tables)| != 0;
  }

  /** One turn of the packing loop. */
  method AddTable(segs: seq<Segment>, cur: Segment, t: CatalogTable, ghost tables: seq<CatalogTable>)
      returns (ok: bool, segments: seq<Segment>, open: Segment)
    requires Packed(segs, cur, tables) && DistinctNames(tables + [t])
    ensures ok <==> Packable(t)
    ensures ok ==> Packed(segments, open, tables + [t])
  {
    hide Dumps, FragmentsOf, MergeAll, WellPacked;
    segments, open := segs, cur;
    var entry := EntryOf(t);
    TableIsNew(tables, t);
    FlushKeeps(segs, cur, tables);
    if |Dumps([entry])| > CHAIN_BODY_SIZE {
      if cur != [] {
        segments := segments + [cur];
      }
      var subs := SplitSingleTable(t);
      if subs.None? {
        return false, segments, [];
      }
      for k := 0 to |subs.value|
        invariant forall j :: 0 <= j < k ==> Fits(subs.value[j])
      {
        if |Dumps(subs.value[k])| > CHAIN_BODY_SIZE {
          return false, segments, [];
        }
      }
      SplitKeeps(segments, subs.value, tables, t);
      return true, segments + subs.value, [];
    }
    if |Dumps(cur + [entry])| <= CHAIN_THRESHOLD {
      AddKeeps(segs, cur, tables, t);
      return true, segs, cur + [entry];
    }
    if cur != [] {
      segments := segments + [cur];
    }
    assert [] + [entry] == [entry];
    AddKeeps(segments, [], tables, t);
    return true, segments, [entry];
  }

  // ---- pages ----------------------------------------------------------------

  /** JSON reading, trusted to invert writing for the texts at hand. */
  datatype Json = Json(isText: Bytes -> bool, loads: Bytes -> Segment)

  predicate ReadableMember(json: Json, m: Member) {
    json.isText(m.0) && forall c :: c in m.1.schema ==> json.isText(c)
  }

  predicate Readable(json: Json, seg: Segment) {
    forall i :: 0 <= i < |seg| ==> ReadableMember(json, seg[i])
  }

  /** Names in a text are distinct, or reading keeps one of the members only. */
  ghost predicate Faithful(json: Json) {
    forall seg: Segment :: Readable(json, seg) && DistinctMembers(seg) ==> json.loads(Dumps(seg)) == seg
  }

  function StripZeros(b: Bytes): Bytes {
    if b != [] && b[|b| - 1] == 0 then StripZeros(b[..|b| - 1]) else b
  }

  function PageOf(seg: Segment): (page: Bytes)
    requires Fits(seg)
    ensures |page| == PAGE_SIZE
  {
    Zeros(CHAIN_SEG_HEADER) + Dumps(seg) + Zeros(CHAIN_BODY_SIZE - |Dumps(seg)|)
  }

  function BodyOf(page: Bytes): Bytes
    requires |page| == PAGE_SIZE
  {
    StripZeros(page[CHAIN_SEG_HEADER..])
  }

  /** `_unpack_chain`, the part that does not depend on where the pages are. An empty body is
      skipped. */
  function MergePages(json: Json, pages: seq<Bytes>): Segment
    requires forall p :: p in pages ==> |p| == PAGE_SIZE
  {
    if pages == [] then [] else
      var tables, page := MergePages(json, pages[..|pages| - 1]), pages[|pages| - 1];
      assert page in pages;
      var body := BodyOf(page);
      if body == [] then tables else MergeSegment(tables, json.loads(body))
  }

  lemma DumpsEnd(seg: Segment)
    ensures Dumps(seg) != [] && Dumps(seg)[|Dumps(seg)| - 1] == 125
  {
    hide Join;
  }

  lemma {:induction false} StripPadding(b: Bytes, n: nat)
    requires b != [] && b[|b| - 1] != 0
    ensures StripZeros(b + Zeros(n)) == b
  {
    if n == 0 {
      assert b + Zeros(0) == b;
    } else {
      StripPadding(b, n - 1);
      assert (b + Zeros(n))[..|b| + n - 1] == b + Zeros(n - 1);
    }
  }

  /** Overwriting the link leaves the body. */
  lemma BodyOfPage(seg: Segment, page: Bytes)
    requires Fits(seg) && |page| == PAGE_SIZE
    requires page[CHAIN_SEG_HEADER..] == PageOf(seg)[CHAIN_SEG_HEADER..]
    ensures BodyOf(page) == Dumps(seg) && Dumps(seg) != []
  {
    hide Dumps, StripZeros;
    DumpsEnd(seg);
    StripPadding(Dumps(seg), CHAIN_BODY_SIZE - |Dumps(seg)|);
    assert PageOf(seg)[CHAIN_SEG_HEADER..] == Dumps(seg) + Zeros(CHAIN_BODY_SIZE - |Dumps(seg)|);
  }

  /** Pages that carry the segments read back as their merge. */
  lemma {:induction false} MergePagesOf(json: Json, segs: seq<Segment>, pages: seq<Bytes>)
    requires Faithful(json) && |pages| == |segs|
    requires forall p :: p in pages ==> |p| == PAGE_SIZE
    requires forall i :: 0 <= i < |segs| ==> Fits(segs[i]) && DistinctMembers(segs[i]) && Readable(json, segs[i])
    requires forall i :: 0 <= i < |segs| ==> pages[i][CHAIN_SEG_HEADER..] == PageOf(segs[i])[CHAIN_SEG_HEADER..]
    ensures MergePages(json, pages) == MergeAll(segs)
  {
    hide Dumps, PageOf, BodyOf, Readable;
    if segs != [] {
      var k := |segs| - 1;
      MergePagesOf(json, segs[..k], pages[..k]);
      assert pages[k] in pages;
      BodyOfPage(segs[k], pages[k]);
    }
  }

  // ---- texts ----------------------------------------------------------------

  lemma ReadableTail(json: Json, seg: Segment)
    requires seg != []
    ensures Readable(json, seg) <==> ReadableMember(json, seg[0]) && Readable(json, seg[1..])
  {
    var rest := seg[1..];
    assert forall i :: 1 <= i < |seg| ==> seg[i] == rest[i - 1];
    assert forall i {:trigger rest[i]} :: 0 <= i < |rest| ==> (var k := i + 1; rest[i] == seg[k]);
  }

  lemma {:induction false} MergedTexts(json: Json, tables: Segment, m: Member)
    requires Readable(json, MergeEntry(tables, m))
    ensures Readable(json, tables) && ReadableMember(json, m)
  {
    var merged := MergeEntry(tables, m);
    assert ReadableMember(json, merged[0]);
    if tables != [] && tables[0].0 == m.0 {
      assert merged[0].1.schema == tables[0].1.schema + m.1.schema;
      assert forall i :: 1 <= i < |tables| ==> tables[i] == merged[i];
    } else if tables != [] {
      var rest := MergeEntry(tables[1..], m);
      ReadableTail(json, merged);
      assert merged[1..] == rest;
      MergedTexts(json, tables[1..], m);
      ReadableTail(json, tables);
    }
  }

  lemma {:induction false} MergedSegmentTexts(json: Json, tables: Segment, seg: Segment)
    requires Readable(json, MergeSegment(tables, seg))
    ensures Readable(json, tables) && Readable(json, seg)
  {
    hide MergeEntry, ReadableMember;
    if seg != [] {
      MergedTexts(json, MergeSegment(tables, seg[..|seg| - 1]), seg[|seg| - 1]);
      MergedSegmentTexts(json, tables, seg[..|seg| - 1]);
    }
  }

  /** Segments hold no text that is not in the merged tables. */
  lemma {:induction false} MergedAllTexts(json: Json, segs: seq<Segment>)
    requires Readable(json, MergeAll(segs))
    ensures forall i :: 0 <= i < |segs| ==> Readable(json, segs[i])
  {
    hide MergeEntry, ReadableMember;
    if segs != [] {
      MergedSegmentTexts(json, MergeAll(segs[..|segs| - 1]), segs[|segs| - 1]);
      MergedAllTexts(json, segs[..|segs| - 1]);
    }
  }
}
