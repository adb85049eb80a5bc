/** Several B+trees on one pager, by table and column (src/tinydb/index_manager.py): each keeps
    its own map, and none touches the pages of another or of anything else. */
module Indexing {
  import opened ByteStrings
  import opened PageStore
  import opened Wrappers
  import opened NodeCodec
  import opened TreeShape
  import opened TreeContents
  import opened PagedBTree

  type IndexName = (string, string)    // table name, column name

  lemma ImageHasType(n: Node)
    requires Storable(n)
    ensures ImageOf(n) != Zeros(PAGE_SIZE)
  {
    hide LeafBody, InnerBody, U16, U32, LeafSize, InnerSize, FieldsFit;
    assert ImageOf(n)[0] != Zeros(PAGE_SIZE)[0];
  }

  /** A tree whose pages read the same as before still stands. */
  lemma StillHolding(before: map<nat, Bytes>, after: map<nat, Bytes>, s: Shape, c: Contents)
    requires Holding(before, s, c, None)
    requires forall p :: p in s.node ==>
      (if p in before then before[p] else Zeros(PAGE_SIZE)) == (if p in after then after[p] else Zeros(PAGE_SIZE))
    ensures Holding(after, s, c, None)
  {
    hide Storable, ImageOf, WellFormed, Agrees;
    forall p | p in s.node ensures StoredAt(after, p, s.node[p]) {
      ImageHasType(s.node[p]);
    }
  }

  /** Different trees on different pages. */
  ghost predicate Separate(a: BTree, b: BTree)
    reads a, b
  {
    a != b && a.shape.node.Keys !! b.shape.node.Keys
  }

  /** A tree stands when others have been at work on its pager. */
  lemma OtherTree(t: BTree, before: map<nat, Bytes>, live: set<nat>)
    requires t.pager.Valid() && t.root == t.shape.root && Holding(before, t.shape, t.contents, None)
    requires t.shape.node.Keys <= live <= t.pager.live
    requires forall p :: p in t.shape.node ==> t.pager.Read(p) == if p in before then before[p] else Zeros(PAGE_SIZE)
    ensures t.Valid()
  {
    hide Holding, Consistent;
    StillHolding(before, t.pager.pages, t.shape, t.contents);
  }

  type Indexes = map<IndexName, BTree>

  ghost predicate Standing(pager: Pager, indexes: Indexes)
    reads pager, indexes.Values
  {
    && (forall k :: k in indexes ==> indexes[k].pager == pager && indexes[k].Valid())
    && forall j, k :: j in indexes && k in indexes && j != k ==> Separate(indexes[j], indexes[k])
  }

  ghost function MapsOf(indexes: Indexes): map<IndexName, Contents>
    reads indexes.Values
  {
    map k | k in indexes :: indexes[k].contents
  }

  lemma TreeAdded(pager: Pager, indexes: Indexes, column: IndexName, tree: BTree)
    requires Standing(pager, indexes) && tree !in indexes.Values
    requires tree.pager == pager && tree.Valid() && tree.shape.node == map[]
    ensures Standing(pager, indexes[column := tree]) && MapsOf(indexes[column := tree]) == MapsOf(indexes)[column := tree.contents]
  {
    hide Holding, Consistent;
    var after := indexes[column := tree];
    forall k | k in after ensures after[k].pager == pager && after[k].Valid() {
      assert k != column ==> indexes[k].Valid();
    }
    forall j, k | j in after && k in after && j != k ensures Separate(after[j], after[k]) {
      assert j != column && k != column ==> Separate(indexes[j], indexes[k]);
    }
  }

  function Without(indexes: Indexes, table: string): Indexes {
    map k | k in indexes && k.0 != table :: indexes[k]
  }

  lemma TreesForgotten(pager: Pager, indexes: Indexes, table: string)
    requires Standing(pager, indexes)
    ensures Standing(pager, Without(indexes, table))
    ensures MapsOf(Without(indexes, table)) == map k | k in MapsOf(indexes) && k.0 != table :: MapsOf(indexes)[k]
  {
    hide Holding, Consistent;
    var after := Without(indexes, table);
    forall k | k in after ensures after[k].pager == pager && after[k].Valid() {
      assert indexes[k].Valid();
    }
    forall j, k | j in after && k in after && j != k ensures Separate(after[j], after[k]) {
      assert Separate(indexes[j], indexes[k]);
    }
  }

  function OtherTrees(indexes: Indexes, column: IndexName): set<BTree> {
    set k | k in indexes && k != column :: indexes[k]
  }

  /** All trees but one stand on these pages, away from the pages of that one. */
  ghost predicate OthersOn(pager: Pager, indexes: Indexes, column: IndexName, pages: map<nat, Bytes>, live: set<nat>, nodes: set<nat>)
    reads OtherTrees(indexes, column)
  {
    forall k :: k in indexes && k != column ==>
      var t := indexes[k];
      && t.pager == pager && t.root == t.shape.root && Holding(pages, t.shape, t.contents, None)
      && t.shape.node.Keys <= live && t.shape.node.Keys !! nodes
      && forall j :: j in indexes && j != column && j != k ==> Separate(indexes[j], t)
  }

  lemma TreeStands(pager: Pager, indexes: Indexes, column: IndexName)
    requires Standing(pager, indexes) && column in indexes
    ensures indexes[column].pager == pager && indexes[column].Valid()
    ensures forall k :: k in indexes && k != column ==> indexes[k] != indexes[column]
  {
    forall k | k in indexes && k != column ensures indexes[k] != indexes[column] {
      assert Separate(indexes[k], indexes[column]);
    }
  }

  lemma OthersStandOn(pager: Pager, indexes: Indexes, column: IndexName)
    requires pager.Valid() && Standing(pager, indexes) && column in indexes
    ensures OthersOn(pager, indexes, column, pager.pages, pager.live, indexes[column].shape.node.Keys)
  {
    hide Holding, Consistent;
    forall k | k in indexes && k != column ensures indexes[k].Valid() && Separate(indexes[k], indexes[column]) {
    }
  }

  /** One tree has been at work: the others stand. */
  lemma OneTreeMoved(pager: Pager, indexes: Indexes, column: IndexName, pages: map<nat, Bytes>, live: set<nat>, nodes: set<nat>)
    requires pager.Valid() && column in indexes && indexes[column].pager == pager && indexes[column].Valid()
    requires OthersOn(pager, indexes, column, pages, live, nodes) && live <= pager.live
    requires (indexes[column].shape.node.Keys - nodes) !! live
    requires forall k :: k in indexes && k != column ==> indexes[k] != indexes[column]
    requires forall p :: p in live && p !in nodes ==> pager.Read(p) == if p in pages then pages[p] else Zeros(PAGE_SIZE)
    ensures Standing(pager, indexes)
  {
    hide Holding, Consistent;
    var tree := indexes[column];
    forall k | k in indexes && k != column ensures indexes[k].Valid() && Separate(indexes[k], tree) && Separate(tree, indexes[k]) {
      OtherTree(indexes[k], pages, live);
    }
  }

  lemma OneMapChanged(was: map<IndexName, Contents>, indexes: Indexes, column: IndexName, c: Contents)
    requires was.Keys == indexes.Keys && column in indexes && indexes[column].contents == c
    requires forall k :: k in indexes && k != column ==> indexes[k].contents == was[k]
    ensures MapsOf(indexes) == was[column := c]
  {
  }

  /** Trees that stand on remembered pages, whatever the pager holds now. */
  ghost predicate Remembered(copies: Indexes, pager: Pager, pages: map<nat, Bytes>, live: set<nat>)
    reads copies.Values
  {
    && (forall k :: k in copies ==>
          var t := copies[k];
          t.pager == pager && t.root == t.shape.root && t.shape.node.Keys <= live && Holding(pages, t.shape, t.contents, None))
    && forall j, k :: j in copies && k in copies && j != k ==> Separate(copies[j], copies[k])
  }

  lemma RememberedStands(copies: Indexes, pager: Pager)
    requires pager.Valid() && Remembered(copies, pager, pager.pages, pager.live)
    ensures Standing(pager, copies)
  {
    hide Holding, Consistent;
  }

  lemma StandingIsRemembered(indexes: Indexes, pager: Pager)
    requires pager.Valid() && Standing(pager, indexes)
    ensures Remembered(indexes, pager, pager.pages, pager.live)
  {
    hide Holding, Consistent;
    forall k | k in indexes ensures indexes[k].Valid() {
    }
  }

  /** Trees stand when something else has been at work on pages that are not theirs. */
  lemma OthersWrote(indexes: Indexes, pager: Pager, pages: map<nat, Bytes>, live: set<nat>)
    requires pager.Valid() && Remembered(indexes, pager, pages, live) && live <= pager.live
    requires forall k, p :: k in indexes && p in indexes[k].shape.node ==>
      pager.Read(p) == if p in pages then pages[p] else Zeros(PAGE_SIZE)
    ensures Standing(pager, indexes)
  {
    hide Holding, Consistent;
    forall k | k in indexes ensures indexes[k].Valid() {
      OtherTree(indexes[k], pages, live);
    }
  }

  /** The same root, nodes and entries. */
  ghost predicate SameTree(a: BTree, b: BTree)
    reads a, b
  {
    a.pager == b.pager && a.root == b.root && a.shape == b.shape && a.contents == b.contents
  }

  lemma CopiesAreRemembered(indexes: Indexes, copies: Indexes, pager: Pager)
    requires pager.Valid() && Standing(pager, indexes) && copies.Keys == indexes.Keys
    requires forall k :: k in copies ==> SameTree(copies[k], indexes[k])
    requires forall j, k :: j in copies && k in copies && j != k ==> copies[j] != copies[k]
    ensures Remembered(copies, pager, pager.pages, pager.live) && MapsOf(copies) == MapsOf(indexes)
  {
    hide Holding, Consistent;
    forall k | k in copies ensures indexes[k].Valid() {
    }
    forall j, k | j in copies && k in copies && j != k ensures Separate(copies[j], copies[k]) {
      assert Separate(indexes[j], indexes[k]);
    }
  }

  // ---- how high trees are ---------------------------------------------------

  ghost function Heights(indexes: Indexes): set<nat>
    reads indexes.Values
  {
    set k | k in indexes :: Height(indexes[k].shape)
  }

  ghost function Largest(s: set<nat>): (r: nat)
    ensures forall x :: x in s ==> x <= r
    ensures s == {} ==> r == 0
    ensures s != {} ==> r in s
  {
    if s == {} then 0 else
      var x :| x in s;
      var others := s - {x};
      assert forall y :: y in s ==> y == x || y in others;
      var rest := Largest(others);
      if rest > x then rest else x
  }

  /** The height of the highest tree. */
  ghost function Tallest(indexes: Indexes): nat
    reads indexes.Values
  {
    Largest(Heights(indexes))
  }

  lemma TallestIs(indexes: Indexes)
    ensures forall k :: k in indexes ==> Height(indexes[k].shape) <= Tallest(indexes)
  {
    hide Height;
    forall k | k in indexes ensures Height(indexes[k].shape) <= Tallest(indexes) {
      assert Height(indexes[k].shape) in Heights(indexes);
    }
  }

  lemma SameHeights(indexes: Indexes, copies: Indexes)
    requires copies.Keys == indexes.Keys && forall k :: k in copies ==> SameTree(copies[k], indexes[k])
    ensures Tallest(copies) == Tallest(indexes)
  {
    hide Height;
    assert forall k :: k in copies ==> Height(copies[k].shape) == Height(indexes[k].shape);
    assert Heights(copies) == Heights(indexes);
  }

  lemma NoneTaller(indexes: Indexes, h: nat)
    requires forall k :: k in indexes ==> Height(indexes[k].shape) <= h
    ensures Tallest(indexes) <= h
  {
    hide Height;
  }

  class IndexManager {
    const pager: Pager
    var indexes: Indexes

    ghost predicate Valid()
      reads this, pager, indexes.Values
    {
      pager.Valid() && Standing(pager, indexes)
    }

    /** What each index holds. */
    ghost function Maps(): map<IndexName, Contents>
      reads this, indexes.Values
    {
      MapsOf(indexes)
    }

    /** The page belongs to one of the trees. */
    ghost predicate Owned(p: nat)
      reads this, indexes.Values
    {
      exists k :: k in indexes && p in indexes[k].shape.node
    }

    constructor (pager: Pager)
      requires pager.Valid()
      ensures Valid() && this.pager == pager && Maps() == map[]
    {
      this.pager := pager;
      indexes := map[];
    }

    /** `rebuild_for_table` without rows, one column: an empty tree, any older one forgotten. */
    method Register(column: IndexName)
      requires Valid()
      modifies this`indexes
      ensures Valid() && Maps() == old(Maps())[column := map[]]
      ensures Tallest(indexes) <= old(Tallest(indexes))
      ensures column in indexes && fresh(indexes[column]) && indexes[column].shape.node == map[]
      ensures indexes == old(indexes)[column := indexes[column]]
    {
      hide Holding, Consistent, MapsOf, Tallest;
      ghost var most := Tallest(indexes);
      TallestIs(indexes);
      var tree := new BTree(pager);
      hide Standing;
      TreeAdded(pager, indexes, column, tree);
      indexes := indexes[column := tree];
      NoneTaller(indexes, most);
    }

    /** `forget_table`. */
    method ForgetTable(table: string)
      requires Valid()
      modifies this`indexes
      ensures Valid() && Maps() == map k | k in old(Maps()) && k.0 != table :: old(Maps())[k]
    {
      hide Standing, MapsOf;
      TreesForgotten(pager, indexes, table);
      indexes := Without(indexes, table);
    }

    /** The entry is set in that index and no other; pages no tree owns keep their bytes. A
        missing index is a KeyError. With one good key width in the tree it does not raise. */
    method Insert(column: IndexName, key: Bytes, value: Ref, ghost w: Option<nat>) returns (o: Outcome)
      requires Valid()
      requires w.Some? && column in indexes ==>
        && AllUniform(indexes[column].shape, w.value) && |key| == w.value && GoodWidth(w.value) && RefFits(value)
        && pager.nextPageId + Height(indexes[column].shape) + 2 <= U32_LIMIT
      modifies pager, indexes.Values
      ensures column !in indexes ==> o.Raised? && Maps() == old(Maps()) && Valid()
      ensures w.Some? && column in indexes ==> o.Done? && AllUniform(indexes[column].shape, w.value)
      ensures o.Done? ==> Valid() && column in old(Maps()) && Maps() == old(Maps())[column := old(Maps())[column][key := value]]
      ensures forall p :: p in old(pager.live) && !old(Owned(p)) ==> pager.Read(p) == old(pager.Read(p))
      ensures o.Done? ==> forall p :: p in old(pager.live) && !old(Owned(p)) ==> !Owned(p)
      ensures o.Done? ==> Tallest(indexes) <= old(Tallest(indexes)) + 1
      ensures pager.nextPageId <= old(pager.nextPageId + Tallest(indexes)) + 2
      ensures o.Done? ==> old(pager.live) <= pager.live
      ensures indexes == old(indexes) && forall k :: k in indexes && k != column ==> indexes[k].shape == old(indexes[k].shape)
    {
      hide Holding, Consistent, GoodWidth, AllUniform, RefFits, Height, Tallest;
      if column !in indexes {
        return Raised;
      }
      ghost var most := Tallest(indexes);
      TallestIs(indexes);
      var tree := indexes[column];
      ghost var live, nodes, was := pager.live, tree.shape.node.Keys, Maps();
      ghost var pages: map<nat, Bytes> := pager.pages;
      TreeStands(pager, indexes, column);
      OthersStandOn(pager, indexes, column);
      hide OthersOn, MapsOf, Standing;
      o := tree.Insert(key, value, w);
      if o.Done? {
        OneTreeMoved(pager, indexes, column, pages, live, nodes);
        OneMapChanged(was, indexes, column, was[column][key := value]);
        NoneTaller(indexes, most + 1);
      }
    }

    /** The entry is gone from that index and no other; a missing index is ignored. */
    method Delete(column: IndexName, key: Bytes)
      requires Valid()
      modifies pager, indexes.Values
      ensures Valid()
      ensures Maps() == if column in old(Maps()) then old(Maps())[column := old(Maps())[column] - {key}] else old(Maps())
      ensures forall p :: p in old(pager.live) && !old(Owned(p)) ==> pager.Read(p) == old(pager.Read(p))
      ensures pager.live == old(pager.live) && forall p :: Owned(p) <==> old(Owned(p))
      ensures pager.nextPageId == old(pager.nextPageId) && Tallest(indexes) <= old(Tallest(indexes))
      ensures indexes == old(indexes) && forall k, w :: k in indexes && old(AllUniform(indexes[k].shape, w)) ==> AllUniform(indexes[k].shape, w)
    {
      hide Standing, Tallest;
      if column in indexes {
        DeleteEntry(column, key);
      }
    }

    method DeleteEntry(column: IndexName, key: Bytes)
      requires Valid() && column in indexes
      modifies pager, indexes.Values
      ensures Valid() && Maps() == old(Maps())[column := old(Maps())[column] - {key}]
      ensures forall p :: p in old(pager.live) && !old(Owned(p)) ==> pager.Read(p) == old(pager.Read(p))
      ensures pager.live == old(pager.live) && forall p :: Owned(p) <==> old(Owned(p))
      ensures pager.nextPageId == old(pager.nextPageId) && Tallest(indexes) <= old(Tallest(indexes))
      ensures indexes == old(indexes) && forall k, w :: k in indexes && old(AllUniform(indexes[k].shape, w)) ==> AllUniform(indexes[k].shape, w)
    {
      hide Holding, Consistent, AllUniform, Height, Tallest;
      var tree := indexes[column];
      ghost var most := Tallest(indexes);
      TallestIs(indexes);
      ghost var live, nodes, was := pager.live, tree.shape.node.Keys, Maps();
      ghost var pages: map<nat, Bytes> := pager.pages;
      TreeStands(pager, indexes, column);
      OthersStandOn(pager, indexes, column);
      hide OthersOn, MapsOf, Standing;
      DeleteKey(tree, key);
      OneTreeMoved(pager, indexes, column, pages, live, nodes);
      OneMapChanged(was, indexes, column, was[column] - {key});
      NoneTaller(indexes, most);
    }

    /** What matters of a tree's delete to the others. */
    method DeleteKey(tree: BTree, key: Bytes)
      requires tree.Valid()
      modifies tree, tree.pager
      ensures tree.Valid() && tree.contents == old(tree.contents) - {key}
      ensures tree.shape.node.Keys == old(tree.shape.node.Keys) && tree.pager.live == old(tree.pager.live)
      ensures tree.pager.nextPageId == old(tree.pager.nextPageId) && Height(tree.shape) == old(Height(tree.shape))
      ensures forall w :: old(AllUniform(tree.shape, w)) ==> AllUniform(tree.shape, w)
      ensures forall p :: p in tree.pager.live && p !in old(tree.shape.node) ==> tree.pager.Read(p) == old(tree.pager.Read(p))
    {
      hide Holding, Consistent, AllUniform, Height;
      tree.Delete(key);
    }

    /** What `snapshot_state` keeps of the indexes. */
    method Snapshot() returns (copies: Indexes)
      requires Valid()
      ensures copies.Keys == indexes.Keys && (forall k :: k in copies ==> fresh(copies[k]) && SameTree(copies[k], indexes[k]))
      ensures Remembered(copies, pager, pager.pages, pager.live) && MapsOf(copies) == Maps() && Tallest(copies) == Tallest(indexes)
    {
      hide Standing, Holding, Consistent, Remembered, MapsOf;
      copies := map[];
      var left := indexes.Keys;
      while left != {}
        invariant left <= indexes.Keys && copies.Keys == indexes.Keys - left
        invariant forall k :: k in copies ==> fresh(copies[k]) && SameTree(copies[k], indexes[k])
        invariant forall j, k :: j in copies && k in copies && j != k ==> copies[j] != copies[k]
        decreases left
      {
        var k :| k in left;
        var copy := new BTree.CopyOf(indexes[k]);
        copies, left := copies[k := copy], left - {k};
      }
      CopiesAreRemembered(indexes, copies, pager);
      SameHeights(indexes, copies);
    }

    /** `restore_state`: the copies become the indexes. The pages are back as they were. */
    method Restore(copies: Indexes, pages: map<nat, Bytes>, nextPageId: nat, ghost live: set<nat>, ghost free: seq<nat>)
      requires Remembered(copies, pager, pages, live) && Consistent(pages, nextPageId, live, free)
      modifies this`indexes, pager
      ensures Valid() && indexes == copies && Maps() == MapsOf(copies)
      ensures pager.pages == pages && pager.nextPageId == nextPageId && pager.live == live && pager.free == free
    {
      hide Standing, Holding, Consistent, Remembered, MapsOf;
      pager.pages, pager.nextPageId := pages, nextPageId;
      pager.live, pager.free := live, free;
      indexes := copies;
      RememberedStands(copies, pager);
    }

    method LookupKey(column: IndexName, key: Bytes) returns (r: Option<Ref>)
      requires Valid()
      ensures r == if column in Maps() then Lookup(Maps()[column], key) else None
    {
      hide Holding, Consistent;
      if column !in indexes {
        return None;
      }
      r := indexes[column].Search(key);
    }
  }
}
