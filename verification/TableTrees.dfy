/** The indexes of one table: a B+tree for each indexed column, all on one pager, with what a
    statement's rollback restores (src/tinydb/index_manager.py, src/tinydb/_executor_snapshot.py). */
module TableTrees {
  import opened ByteStrings
  import opened PageStore
  import opened Wrappers
  import opened NodeCodec
  import opened TreeShape
  import opened TreeContents
  import opened PagedBTree
  import opened Indexing

  predicate DistinctNames(names: seq<string>) {
    forall i, j :: 0 <= i < j < |names| ==> names[i] != names[j]
  }

  /** What the trees of the columns hold; nothing where a column has none. */
  function MapsAt(table: string, names: seq<string>, maps: map<IndexName, Contents>): (r: seq<Contents>)
    ensures |r| == |names|
    ensures forall c :: 0 <= c < |names| ==> r[c] == if (table, names[c]) in maps then maps[(table, names[c])] else map[]
  {
    seq(|names|, c requires 0 <= c < |names| => if (table, names[c]) in maps then maps[(table, names[c])] else map[])
  }

  lemma OneColumnChanged(table: string, names: seq<string>, maps: map<IndexName, Contents>, c: nat, m: Contents)
    requires DistinctNames(names) && c < |names|
    ensures MapsAt(table, names, maps[(table, names[c]) := m]) == MapsAt(table, names, maps)[c := m]
  {
    var after := MapsAt(table, names, maps[(table, names[c]) := m]);
    forall k | 0 <= k < |names| ensures after[k] == MapsAt(table, names, maps)[c := m][k] {
      assert k != c ==> names[k] != names[c];
    }
  }

  ghost function ShapesOf(indexes: Indexes): map<IndexName, Shape>
    reads indexes.Values
  {
    map k | k in indexes :: indexes[k].shape
  }

  /** Column `c` has a tree if it has a key width; its keys have that width. */
  ghost predicate Regular(shapes: map<IndexName, Shape>, table: string, names: seq<string>, widths: seq<Option<nat>>) {
    && |widths| == |names|
    && forall c :: 0 <= c < |names| && widths[c].Some? ==>
         && (table, names[c]) in shapes && GoodWidth(widths[c].value) && AllUniform(shapes[(table, names[c])], widths[c].value)
  }

  /** The page belongs to a tree of one of these shapes. */
  ghost predicate OwnedBy(shapes: map<IndexName, Shape>, p: nat) {
    exists k :: k in shapes && p in shapes[k].node
  }

  lemma OwnedIsOwnedBy(manager: IndexManager, p: nat)
    ensures manager.Owned(p) <==> OwnedBy(ShapesOf(manager.indexes), p)
  {
    var shapes := ShapesOf(manager.indexes);
    if manager.Owned(p) {
      var k :| k in manager.indexes && p in manager.indexes[k].shape.node;
      assert k in shapes && p in shapes[k].node;
    }
    if OwnedBy(shapes, p) {
      var k :| k in shapes && p in shapes[k].node;
      assert k in manager.indexes && p in manager.indexes[k].shape.node;
    }
  }

  lemma OwnedAre(manager: IndexManager)
    ensures forall p :: manager.Owned(p) <==> OwnedBy(ShapesOf(manager.indexes), p)
  {
    hide OwnedBy, ShapesOf;
    forall p ensures manager.Owned(p) <==> OwnedBy(ShapesOf(manager.indexes), p) {
      OwnedIsOwnedBy(manager, p);
    }
  }

  lemma OwnedIsLive(manager: IndexManager)
    requires manager.Valid()
    ensures forall p :: OwnedBy(ShapesOf(manager.indexes), p) ==> p in manager.pager.live
  {
    hide Holding, Consistent;
    var shapes := ShapesOf(manager.indexes);
    forall p | OwnedBy(shapes, p) ensures p in manager.pager.live {
      var k :| k in shapes && p in shapes[k].node;
      assert manager.indexes[k].Valid();
    }
  }

  class TableTrees {
    const manager: IndexManager
    const table: string
    const names: seq<string>
    const widths: seq<Option<nat>>

    ghost predicate Valid()
      reads this, manager, manager.pager, manager.indexes.Values
    {
      manager.Valid() && DistinctNames(names) && Regular(ShapesOf(manager.indexes), table, names, widths)
    }

    ghost function Maps(): (r: seq<Contents>)
      reads this, manager, manager.indexes.Values
      ensures |r| == |names|
    {
      MapsAt(table, names, manager.Maps())
    }

    /** CREATE TABLE: empty trees. */
    constructor (manager: IndexManager, table: string, names: seq<string>, widths: seq<Option<nat>>)
      requires manager.Valid() && DistinctNames(names) && |widths| == |names|
      requires forall c :: 0 <= c < |names| && widths[c].Some? ==> GoodWidth(widths[c].value)
      modifies manager`indexes
      ensures Valid() && this.manager == manager && this.table == table && this.names == names && this.widths == widths
      ensures forall c :: 0 <= c < |names| && widths[c].Some? ==> Maps()[c] == map[]
      ensures Tallest(manager.indexes) <= old(Tallest(manager.indexes))
      ensures forall p :: OwnedBy(ShapesOf(manager.indexes), p) ==> old(OwnedBy(ShapesOf(manager.indexes), p))
      ensures forall k :: k in manager.indexes ==> fresh(manager.indexes[k]) || manager.indexes[k] in old(manager.indexes.Values)
    {
      hide Standing, AllUniform, GoodWidth, Regular, Tallest, OwnedBy, EmptyTrees, MapsOf;
      RegisterAll(manager, table, names, widths);
      EmptyTreesAreRegular(manager.indexes, table, names, widths);
      this.manager, this.table, this.names, this.widths := manager, table, names, widths;
    }

    /** Set an entry in the tree of one column. `false` when half of all page ids are gone: what
        happens then is not followed. */
    method Put(c: nat, key: Bytes, value: Ref) returns (ok: bool)
      requires Valid() && c < |names| && widths[c] == Some(|key|) && RefFits(value)
      modifies manager.pager, manager.indexes.Values
      ensures manager.indexes == old(manager.indexes)
      ensures ok <==> 2 * old(manager.pager.nextPageId) <= U32_LIMIT
      ensures !ok ==> manager.pager.nextPageId == old(manager.pager.nextPageId)
      ensures ok ==> Valid() && Maps() == old(Maps())[c := old(Maps())[c][key := value]]
      ensures ok ==> old(manager.pager.live) <= manager.pager.live
      ensures Tallest(manager.indexes) <= old(Tallest(manager.indexes)) + 1
      ensures manager.pager.nextPageId <= old(manager.pager.nextPageId + Tallest(manager.indexes)) + 2
      ensures forall p :: p in old(manager.pager.live) && !old(OwnedBy(ShapesOf(manager.indexes), p)) ==>
                manager.pager.Read(p) == old(manager.pager.Read(p)) && (ok ==> !OwnedBy(ShapesOf(manager.indexes), p))
    {
      hide Standing, AllUniform, GoodWidth, RefFits, MapsAt, OwnedBy, Tallest;
      OwnedAre(manager);
      if 2 * manager.pager.nextPageId > U32_LIMIT {
        return false;
      }
      var column := (table, names[c]);
      RoomForInsert(manager, column);
      ghost var maps, shapes := manager.Maps(), ShapesOf(manager.indexes);
      var o := manager.Insert(column, key, value, Some(|key|));
      OneColumnChanged(table, names, maps, c, maps[column][key := value]);
      StillRegular(shapes, manager.indexes, table, names, widths, c);
      OwnedAre(manager);
      return true;
    }

    method Remove(c: nat, key: Bytes)
      requires Valid() && c < |names| && widths[c].Some?
      modifies manager.pager, manager.indexes.Values
      ensures Valid() && manager.indexes == old(manager.indexes)
      ensures Maps() == old(Maps())[c := old(Maps())[c] - {key}]
      ensures manager.pager.live == old(manager.pager.live)
      ensures manager.pager.nextPageId == old(manager.pager.nextPageId) && Tallest(manager.indexes) <= old(Tallest(manager.indexes))
      ensures forall p :: p in manager.pager.live && !old(OwnedBy(ShapesOf(manager.indexes), p)) ==>
                manager.pager.Read(p) == old(manager.pager.Read(p)) && !OwnedBy(ShapesOf(manager.indexes), p)
    {
      hide Standing, AllUniform, GoodWidth, MapsAt, OwnedBy, Tallest;
      ghost var maps := manager.Maps();
      OwnedAre(manager);
      manager.Delete((table, names[c]), key);
      OwnedAre(manager);
      OneColumnChanged(table, names, maps, c, maps[(table, names[c])] - {key});
      assert Regular(ShapesOf(manager.indexes), table, names, widths);
    }

    method Get(c: nat, key: Bytes) returns (r: Option<Ref>)
      requires Valid() && c < |names| && widths[c].Some?
      ensures r == if key in Maps()[c] then Some(Maps()[c][key]) else None
    {
      hide Standing, AllUniform, GoodWidth;
      r := manager.LookupKey((table, names[c]), key);
    }

    /** Data pages were written: the trees stand and hold what they held. */
    lemma DataWritten(pages: map<nat, Bytes>, live: set<nat>)
      requires manager.pager.Valid() && live <= manager.pager.live
      requires DistinctNames(names) && Regular(ShapesOf(manager.indexes), table, names, widths)
      requires Remembered(manager.indexes, manager.pager, pages, live)
      requires forall p :: OwnedBy(ShapesOf(manager.indexes), p) ==> manager.pager.Read(p) == if p in pages then pages[p] else Zeros(PAGE_SIZE)
      ensures Valid()
    {
      hide Remembered, Standing, Regular;
      TreesStand(manager, pages, live);
    }

    // -- rollback --

    /** The copies stand on the remembered pages and hold `maps`. */
    ghost predicate CanRestore(copies: Indexes, pages: map<nat, Bytes>, next: nat, live: set<nat>, free: seq<nat>, maps: seq<Contents>)
      reads copies.Values
    {
      && Remembered(copies, manager.pager, pages, live) && Consistent(pages, next, live, free)
      && Regular(ShapesOf(copies), table, names, widths) && DistinctNames(names) && MapsAt(table, names, MapsOf(copies)) == maps
    }

    method Snapshot() returns (copies: Indexes)
      requires Valid()
      ensures (forall k :: k in copies ==> fresh(copies[k])) && ShapesOf(copies) == ShapesOf(manager.indexes)
      ensures Tallest(copies) == Tallest(manager.indexes)
      ensures CanRestore(copies, manager.pager.pages, manager.pager.nextPageId, manager.pager.live, manager.pager.free, Maps())
    {
      hide Standing, AllUniform, GoodWidth, MapsAt, Remembered, Consistent, Tallest;
      copies := manager.Snapshot();
      CopiesAreRegular(manager.indexes, copies, table, names, widths);
      assert manager.pager.Valid();
      ConsistentPager(manager.pager);
    }

    method Restore(copies: Indexes, pages: map<nat, Bytes>, nextPageId: nat, ghost live: set<nat>, ghost free: seq<nat>,
                   ghost maps: seq<Contents>)
      requires CanRestore(copies, pages, nextPageId, live, free, maps)
      modifies manager`indexes, manager.pager
      ensures Valid() && manager.indexes == copies && Maps() == maps
      ensures manager.pager.Valid() && manager.pager.pages == pages && manager.pager.live == live
      ensures manager.pager.nextPageId == nextPageId
    {
      hide Standing, AllUniform, GoodWidth, MapsAt, Remembered, Consistent, Regular;
      manager.Restore(copies, pages, nextPageId, live, free);
    }
  }

  lemma ConsistentPager(pager: Pager)
    requires pager.Valid()
    ensures Consistent(pager.pages, pager.nextPageId, pager.live, pager.free)
  {
    hide Consistent;
  }

  /** The first `n` columns with a width have an empty tree. */
  ghost predicate EmptyTrees(indexes: Indexes, table: string, names: seq<string>, widths: seq<Option<nat>>, n: nat)
    reads indexes.Values
  {
    n <= |names| == |widths| && forall c :: 0 <= c < n && widths[c].Some? ==>
      (table, names[c]) in indexes && indexes[(table, names[c])].shape.node == map[] && indexes[(table, names[c])].contents == map[]
  }

  method RegisterAll(manager: IndexManager, table: string, names: seq<string>, widths: seq<Option<nat>>)
    requires manager.Valid() && |widths| == |names|
    modifies manager`indexes
    ensures manager.Valid() && EmptyTrees(manager.indexes, table, names, widths, |names|)
    ensures Tallest(manager.indexes) <= old(Tallest(manager.indexes))
    ensures forall p :: OwnedBy(ShapesOf(manager.indexes), p) ==> old(OwnedBy(ShapesOf(manager.indexes), p))
    ensures forall k :: k in manager.indexes ==> fresh(manager.indexes[k]) || manager.indexes[k] in old(manager.indexes.Values)
  {
    hide Standing, Tallest;
    for c := 0 to |names|
      invariant manager.Valid() && EmptyTrees(manager.indexes, table, names, widths, c) && Tallest(manager.indexes) <= old(Tallest(manager.indexes))
      invariant forall p :: OwnedBy(ShapesOf(manager.indexes), p) ==> old(OwnedBy(ShapesOf(manager.indexes), p))
      invariant forall k :: k in manager.indexes ==> fresh(manager.indexes[k]) || manager.indexes[k] in old(manager.indexes.Values)
    {
      if widths[c].Some? {
        RegisterOne(manager, table, names, widths, c);
      }
    }
  }

  method RegisterOne(manager: IndexManager, table: string, names: seq<string>, widths: seq<Option<nat>>, c: nat)
    requires manager.Valid() && EmptyTrees(manager.indexes, table, names, widths, c) && c < |names|
    modifies manager`indexes
    ensures manager.Valid() && EmptyTrees(manager.indexes, table, names, widths, c + 1)
    ensures Tallest(manager.indexes) <= old(Tallest(manager.indexes))
    ensures forall p :: OwnedBy(ShapesOf(manager.indexes), p) ==> old(OwnedBy(ShapesOf(manager.indexes), p))
    ensures forall k :: k in manager.indexes ==> fresh(manager.indexes[k]) || manager.indexes[k] in old(manager.indexes.Values)
  {
    hide Standing, Tallest;
    var column := (table, names[c]);
    manager.Register(column);
    assert manager.Maps()[column] == map[];
  }

  /** Something else was written: the trees stand. */
  lemma TreesStand(manager: IndexManager, pages: map<nat, Bytes>, live: set<nat>)
    requires manager.pager.Valid() && live <= manager.pager.live
    requires Remembered(manager.indexes, manager.pager, pages, live)
    requires forall p :: OwnedBy(ShapesOf(manager.indexes), p) ==>
      manager.pager.Read(p) == if p in pages then pages[p] else Zeros(PAGE_SIZE)
    ensures manager.Valid()
  {
    hide Remembered, Standing;
    forall k, p | k in manager.indexes && p in manager.indexes[k].shape.node
      ensures manager.pager.Read(p) == if p in pages then pages[p] else Zeros(PAGE_SIZE)
    {
      assert ShapesOf(manager.indexes)[k] == manager.indexes[k].shape;
      assert OwnedBy(ShapesOf(manager.indexes), p);
    }
    OthersWrote(manager.indexes, manager.pager, pages, live);
  }

  lemma EmptyTreesAreRegular(indexes: Indexes, table: string, names: seq<string>, widths: seq<Option<nat>>)
    requires EmptyTrees(indexes, table, names, widths, |names|)
    requires forall c :: 0 <= c < |names| && widths[c].Some? ==> GoodWidth(widths[c].value)
    ensures Regular(ShapesOf(indexes), table, names, widths)
    ensures forall c :: 0 <= c < |names| && widths[c].Some? ==> MapsAt(table, names, MapsOf(indexes))[c] == map[]
  {
  }

  lemma CopiesAreRegular(indexes: Indexes, copies: Indexes, table: string, names: seq<string>, widths: seq<Option<nat>>)
    requires Regular(ShapesOf(indexes), table, names, widths) && copies.Keys == indexes.Keys
    requires forall k :: k in copies ==> SameTree(copies[k], indexes[k])
    ensures Regular(ShapesOf(copies), table, names, widths)
  {
    hide AllUniform, GoodWidth;
  }

  /** Only one tree has changed shape, and it is regular. */
  lemma StillRegular(was: map<IndexName, Shape>, indexes: Indexes, table: string, names: seq<string>, widths: seq<Option<nat>>, c: nat)
    requires Regular(was, table, names, widths) && DistinctNames(names) && c < |names| && widths[c].Some?
    requires indexes.Keys == was.Keys && AllUniform(indexes[(table, names[c])].shape, widths[c].value)
    requires forall k :: k in indexes && k != (table, names[c]) ==> indexes[k].shape == was[k]
    ensures Regular(ShapesOf(indexes), table, names, widths)
  {
    hide AllUniform, GoodWidth;
    forall k | 0 <= k < |names| && widths[k].Some? && k != c ensures AllUniform(indexes[(table, names[k])].shape, widths[k].value) {
      assert names[k] != names[c];
    }
  }

  lemma RoomForInsert(manager: IndexManager, column: IndexName)
    requires manager.Valid() && column in manager.indexes && 2 * manager.pager.nextPageId <= U32_LIMIT
    ensures manager.pager.nextPageId + Height(manager.indexes[column].shape) + 2 <= U32_LIMIT
  {
    hide Holding, Consistent;
    var t, pager := manager.indexes[column], manager.pager;
    assert t.Valid();
    LivePages(pager.pages, pager.nextPageId, pager.live, pager.free);
    HeightBelowPages(pager.pages, t.shape, t.contents, pager.nextPageId, pager.live);
  }
}
