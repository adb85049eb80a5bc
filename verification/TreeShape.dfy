/** The logical shape of the paged B+tree: which nodes it has, and for every node the
    key interval and the height it stands for.

    Everything the descents of src/tinydb/btree.py rely on is a fact about one node and
    its children or its right neighbour: the separators cut the node's interval into the
    intervals of the children, all children are one level lower, and the next pointer of
    a leaf names the leaf whose interval starts where its own ends.  Intervals are over
    `Rank`, so that [0, 1) is every key. */
module TreeShape {
  import opened ByteStrings
  import opened Wrappers
  import opened NodeCodec

  datatype Place = Place(lo: real, hi: real, ht: nat)

  datatype Shape = Shape(root: Option<nat>, node: map<nat, Node>, place: map<nat, Place>)

  predicate SortedKeys(keys: seq<Bytes>) {
    forall i, j :: 0 <= i < j < |keys| ==> Rank(keys[i]) < Rank(keys[j])
  }

  predicate Holds(pl: Place, r: real) {
    pl.lo <= r < pl.hi
  }

  function FenceLo(keys: seq<Bytes>, pl: Place, i: nat): real
    requires i <= |keys|
  {
    if i == 0 then pl.lo else Rank(keys[i - 1])
  }

  function FenceHi(keys: seq<Bytes>, pl: Place, i: nat): real
    requires i <= |keys|
  {
    if i == |keys| then pl.hi else Rank(keys[i])
  }

  ghost predicate LeafOk(n: Node, pl: Place, place: map<nat, Place>)
    requires n.Leaf?
  {
    && pl.ht == 0
    && Shaped(n)
    && n.keys != []
    && SortedKeys(n.keys)
    && (forall i :: 0 <= i < |n.keys| ==> Holds(pl, Rank(n.keys[i])))
    && (if pl.hi == 1.0 then n.next == 0
        else n.next != 0 && n.next in place && place[n.next].ht == 0 && place[n.next].lo == pl.hi)
  }

  ghost predicate InnerOk(n: Node, pl: Place, place: map<nat, Place>)
    requires n.Inner?
  {
    && pl.ht > 0
    && Shaped(n)
    && SortedKeys(n.keys)
    && (forall i :: 0 <= i < |n.keys| ==> pl.lo < Rank(n.keys[i]) < pl.hi)
    && (forall i :: 0 <= i < |n.children| ==>
          n.children[i] in place && place[n.children[i]] == Place(FenceLo(n.keys, pl, i), FenceHi(n.keys, pl, i), pl.ht - 1))
  }

  ghost predicate NodeOk(n: Node, pl: Place, place: map<nat, Place>) {
    && 0.0 <= pl.lo < pl.hi <= 1.0
    && match n
       case Leaf(_, _, _, _) => LeafOk(n, pl, place)
       case Inner(_, _) => InnerOk(n, pl, place)
  }

  predicate Apart(a: Place, b: Place) {
    a.hi <= b.lo || b.hi <= a.lo
  }

  /** No two nodes of one level share a key. */
  ghost predicate LevelsDisjoint(place: map<nat, Place>) {
    forall p, q :: p in place && q in place && p != q && place[p].ht == place[q].ht ==> Apart(place[p], place[q])
  }

  /** Every node but `x` is as it should be. */
  ghost predicate NodesOkExcept(s: Shape, x: Option<nat>) {
    forall p :: p in s.node && p in s.place && Some(p) != x ==> NodeOk(s.node[p], s.place[p], s.place)
  }

  ghost predicate Frame(s: Shape) {
    && s.node.Keys == s.place.Keys
    && 0 !in s.node
    && LevelsDisjoint(s.place)
  }

  /** A whole tree. */
  ghost predicate WellFormed(s: Shape) {
    && Frame(s)
    && NodesOkExcept(s, None)
    && match s.root
       case None => s.node == map[]
       case Some(r) => r in s.node && s.place[r].lo == 0.0 && s.place[r].hi == 1.0
                       && forall p :: p in s.place ==> s.place[p].ht <= s.place[r].ht
  }

  function InsertAt<T>(s: seq<T>, i: nat, x: T): (r: seq<T>)
    requires i <= |s|
    ensures |r| == |s| + 1
  {
    s[..i] + [x] + s[i..]
  }

  /** A parent once the separator `key` and the new right neighbour of child `i` are in. */
  function Adopt(n: Node, i: nat, key: Bytes, right: nat): Node
    requires n.Inner? && Shaped(n) && i <= |n.keys|
  {
    Inner(InsertAt<Bytes>(n.keys, i, key), InsertAt<nat>(n.children, i + 1, right))
  }

  /** The state between a split and the update of the parent: `left` has given the keys
      from `key` on to `right`, and only the parent `up` still shows the old fence. */
  ghost predicate Dangling(s: Shape, left: nat, key: Bytes, right: nat, up: nat, i: nat) {
    && Frame(s) && s.root.Some?
    && left in s.place && right in s.place && left != right
    && s.place[left].ht == s.place[right].ht
    && s.place[left].hi == Rank(key) == s.place[right].lo
    && s.root.value in s.place
    && (forall p :: p in s.place ==> s.place[p].ht <= s.place[s.root.value].ht)
    && if left == s.root.value then
         NodesOkExcept(s, None) && s.place[left].lo == 0.0 && s.place[right].hi == 1.0
       else
         && NodesOkExcept(s, Some(up))
         && s.place[s.root.value].lo == 0.0 && s.place[s.root.value].hi == 1.0
         && up in s.place && s.node[up].Inner? && Shaped(s.node[up]) && i <= |s.node[up].keys|
         && s.place[up].ht == s.place[left].ht + 1
         && s.node[up].children[i] == left
         && NodeOk(Adopt(s.node[up], i, key, right), s.place[up], s.place)
  }

  // ---- descents -----------------------------------------------------------

  /** The child an exact `bisect_right` picks holds the key, one level down. */
  lemma ChildHolds(s: Shape, p: nat, r: real, i: nat)
    requires p in s.node && p in s.place && s.node[p].Inner? && NodeOk(s.node[p], s.place[p], s.place)
    requires Holds(s.place[p], r) && i <= |s.node[p].keys|
    requires forall j :: 0 <= j < i ==> Rank(s.node[p].keys[j]) <= r
    requires i < |s.node[p].keys| ==> r < Rank(s.node[p].keys[i])
    ensures s.node[p].children[i] in s.place
    ensures Holds(s.place[s.node[p].children[i]], r) && s.place[s.node[p].children[i]].ht == s.place[p].ht - 1
  {
  }

  lemma SameNode(s: Shape, p: nat, q: nat, r: real)
    requires LevelsDisjoint(s.place) && p in s.place && q in s.place
    requires s.place[p].ht == s.place[q].ht && Holds(s.place[p], r) && Holds(s.place[q], r)
    ensures p == q
  {
    assert p != q ==> Apart(s.place[p], s.place[q]);
  }

  /** How many separators are at most `r`: what `bisect_right` returns. */
  function CountUpTo(keys: seq<Bytes>, r: real): (i: nat)
    ensures i <= |keys|
    ensures SortedKeys(keys) ==> forall j :: 0 <= j < i ==> Rank(keys[j]) <= r
    ensures i < |keys| ==> r < Rank(keys[i])
  {
    if keys == [] || r < Rank(keys[0]) then 0
    else
      var i := 1 + CountUpTo(keys[1..], r);
      assert forall j :: 1 <= j < |keys| ==> keys[j] == keys[1..][j - 1];
      i
  }

  /** The parent of a node below the top, found by descending on a key the node holds. */
  lemma {:induction false} ParentOf(s: Shape, p: nat, child: nat, r: real) returns (up: nat, i: nat)
    requires WellFormed(s) && p in s.node && child in s.node
    requires Holds(s.place[p], r) && Holds(s.place[child], r) && s.place[child].ht < s.place[p].ht
    ensures up in s.node && s.node[up].Inner? && s.place[up].ht == s.place[child].ht + 1
    ensures i <= |s.node[up].keys| && Shaped(s.node[up]) && s.node[up].children[i] == child
    ensures Holds(s.place[up], r)
    decreases s.place[p].ht
  {
    assert NodeOk(s.node[p], s.place[p], s.place);
    i := CountUpTo(s.node[p].keys, r);
    ChildHolds(s, p, r, i);
    var c := s.node[p].children[i];
    if s.place[p].ht == s.place[child].ht + 1 {
      SameNode(s, c, child, r);
      up := p;
    } else {
      up, i := ParentOf(s, c, child, r);
    }
  }

  // ---- steps --------------------------------------------------------------

  /** Rewriting one leaf in place. */
  lemma RewriteLeaf(s: Shape, p: nat, n: Node)
    requires WellFormed(s) && p in s.node && n.Leaf? && NodeOk(n, s.place[p], s.place)
    ensures WellFormed(s.(node := s.node[p := n]))
  {
  }

  function Split(s: Shape, p: nat, l: Node, key: Bytes, right: nat, r: Node): Shape
    requires p in s.place
  {
    var pl := s.place[p];
    s.(node := s.node[p := l][right := r],
       place := s.place[p := pl.(hi := Rank(key))][right := pl.(lo := Rank(key))])
  }

  lemma SplitKeepsLevels(s: Shape, p: nat, l: Node, key: Bytes, right: nat, r: Node)
    requires LevelsDisjoint(s.place) && p in s.place && right !in s.place
    requires s.place[p].lo < Rank(key) < s.place[p].hi
    ensures LevelsDisjoint(Split(s, p, l, key, right, r).place)
  {
    var t := Split(s, p, l, key, right, r);
    forall a, b | a in t.place && b in t.place && a != b && t.place[a].ht == t.place[b].ht
      ensures Apart(t.place[a], t.place[b])
    {
      var a' := if a == right then p else a;
      var b' := if b == right then p else b;
      if a' != b' {
        assert Apart(s.place[a'], s.place[b']);
      }
    }
  }

  /** The chosen parent is the only one whose children change their interval. */
  lemma OthersKeepTheirChildren(s: Shape, q: nat, p: nat, up: nat)
    requires WellFormed(s) && p in s.node && q in s.node && up in s.node && q != up
    requires s.place[up].ht == s.place[p].ht + 1
    requires exists r :: Holds(s.place[up], r) && Holds(s.place[p], r)
    requires s.node[q].Inner?
    ensures forall i :: 0 <= i < |s.node[q].children| ==> s.node[q].children[i] != p
  {
    var r :| Holds(s.place[up], r) && Holds(s.place[p], r);
    assert NodeOk(s.node[q], s.place[q], s.place);
    forall i | 0 <= i < |s.node[q].children|
      ensures s.node[q].children[i] != p
    {
      if s.node[q].children[i] == p {
        ChildInsideParent(s.node[q], s.place[q], s.place, i);
        SameNode(s, q, up, r);
      }
    }
  }

  lemma ChildInsideParent(n: Node, pl: Place, place: map<nat, Place>, i: nat)
    requires n.Inner? && NodeOk(n, pl, place) && i < |n.children|
    ensures n.children[i] in place
    ensures pl.lo <= place[n.children[i]].lo && place[n.children[i]].hi <= pl.hi && place[n.children[i]].ht == pl.ht - 1
  {
  }

  lemma ChildrenDistinct(n: Node, pl: Place, place: map<nat, Place>, i: nat, j: nat)
    requires n.Inner? && NodeOk(n, pl, place) && i < j < |n.children|
    ensures n.children[i] != n.children[j]
  {
    assert place[n.children[i]].lo < place[n.children[j]].lo;
  }

  lemma InsertAtIndex<T>(s: seq<T>, i: nat, x: T, j: nat)
    requires i <= |s| && j <= |s|
    ensures InsertAt(s, i, x)[j] == if j < i then s[j] else if j == i then x else s[j - 1]
  {
  }

  lemma InsertKeepsOrder(keys: seq<Bytes>, i: nat, key: Bytes)
    requires SortedKeys(keys) && i <= |keys|
    requires forall j :: 0 <= j < i ==> Rank(keys[j]) < Rank(key)
    requires forall j :: i <= j < |keys| ==> Rank(key) < Rank(keys[j])
    ensures SortedKeys(InsertAt(keys, i, key))
  {
    hide Rank, InsertAt;
    var m := InsertAt(keys, i, key);
    forall a, b | 0 <= a < b < |m|
      ensures Rank(m[a]) < Rank(m[b])
    {
      InsertAtIndex(keys, i, key, a);
      InsertAtIndex(keys, i, key, b);
    }
  }

  /** Where a key strictly between two fences goes. */
  lemma BetweenFences(n: Node, pl: Place, place: map<nat, Place>, i: nat, r: real)
    requires n.Inner? && NodeOk(n, pl, place) && i <= |n.keys|
    requires FenceLo(n.keys, pl, i) < r < FenceHi(n.keys, pl, i)
    ensures pl.lo < r < pl.hi
    ensures forall j :: 0 <= j < i ==> Rank(n.keys[j]) < r
    ensures forall j :: i <= j < |n.keys| ==> r < Rank(n.keys[j])
  {
    assert forall j :: 0 <= j < i - 1 ==> Rank(n.keys[j]) < Rank(n.keys[i - 1]);
    assert forall j :: i < j < |n.keys| ==> Rank(n.keys[i]) < Rank(n.keys[j]);
  }

  /** Adopting keeps the parent in order when child `i` has just been split at `key`. */
  lemma AdoptIsOk(n: Node, pl: Place, before: map<nat, Place>, after: map<nat, Place>, i: nat, key: Bytes, right: nat)
    requires n.Inner? && NodeOk(n, pl, before) && i < |n.children|
    requires right !in before && right in after
    requires forall p :: p in before ==> p in after && (p != n.children[i] ==> after[p] == before[p])
    requires FenceLo(n.keys, pl, i) < Rank(key) < FenceHi(n.keys, pl, i)
    requires after[n.children[i]] == before[n.children[i]].(hi := Rank(key))
    requires after[right] == before[n.children[i]].(lo := Rank(key))
    ensures NodeOk(Adopt(n, i, key, right), pl, after)
  {
    hide InsertAt, Rank;
    var m := Adopt(n, i, key, right);
    BetweenFences(n, pl, before, i, Rank(key));
    InsertKeepsOrder(n.keys, i, key);
    forall j | 0 <= j < |m.keys|
      ensures pl.lo < Rank(m.keys[j]) < pl.hi
    {
      InsertAtIndex(n.keys, i, key, j);
    }
    forall j | 0 <= j < |m.children|
      ensures m.children[j] in after
      ensures after[m.children[j]] == Place(FenceLo(m.keys, pl, j), FenceHi(m.keys, pl, j), pl.ht - 1)
    {
      AdoptedChild(n, pl, before, after, i, key, right, j);
    }
  }

  lemma AdoptedChild(n: Node, pl: Place, before: map<nat, Place>, after: map<nat, Place>, i: nat, key: Bytes, right: nat, j: nat)
    requires n.Inner? && NodeOk(n, pl, before) && i < |n.children| && j <= |n.children|
    requires right !in before && right in after
    requires forall p :: p in before ==> p in after && (p != n.children[i] ==> after[p] == before[p])
    requires after[n.children[i]] == before[n.children[i]].(hi := Rank(key))
    requires after[right] == before[n.children[i]].(lo := Rank(key))
    ensures var m := Adopt(n, i, key, right);
      m.children[j] in after && after[m.children[j]] == Place(FenceLo(m.keys, pl, j), FenceHi(m.keys, pl, j), pl.ht - 1)
  {
    hide Rank, InsertAt;
    var m := Adopt(n, i, key, right);
    var c := if j <= i then j else j - 1;
    InsertAtIndex(n.children, i + 1, right, j);
    if j > 0 {
      InsertAtIndex(n.keys, i, key, j - 1);
    }
    if j < |m.keys| {
      InsertAtIndex(n.keys, i, key, j);
    }
    if c < i {
      ChildrenDistinct(n, pl, before, c, i);
    } else if c > i {
      ChildrenDistinct(n, pl, before, i, c);
    }
  }

  /** `l` and `r` are in order for the two halves of node `p`, cut at `key`. */
  ghost predicate Halves(s: Shape, p: nat, l: Node, key: Bytes, right: nat, r: Node) {
    && p in s.node && p in s.place && right !in s.node && right != 0
    && s.place[p].lo < Rank(key) < s.place[p].hi
    && NodeOk(l, s.place[p].(hi := Rank(key)), Split(s, p, l, key, right, r).place)
    && NodeOk(r, s.place[p].(lo := Rank(key)), Split(s, p, l, key, right, r).place)
  }

  /** The halves of a leaf: the left one points to the right one, which takes over the old next. */
  lemma LeafHalves(s: Shape, p: nat, mid: nat, right: nat, n: Node)
    requires WellFormed(s) && p in s.node && right !in s.node && right != 0
    requires n.Leaf? && NodeOk(n, s.place[p], s.place) && 0 < mid < |n.keys|
    ensures Halves(s, p, Leaf(n.keys[..mid], n.values[..mid], right, n.tombs[..mid]), n.keys[mid], right,
                   Leaf(n.keys[mid..], n.values[mid..], n.next, n.tombs[mid..]))
  {
    hide LevelsDisjoint, NodesOkExcept, Rank;
    var l := Leaf(n.keys[..mid], n.values[..mid], right, n.tombs[..mid]);
    var r := Leaf(n.keys[mid..], n.values[mid..], n.next, n.tombs[mid..]);
    LeafHalvesOk(n, s.place[p], s.place, Split(s, p, l, n.keys[mid], right, r).place, mid, p, right);
  }

  lemma LeafHalvesOk(n: Node, pl: Place, before: map<nat, Place>, after: map<nat, Place>, mid: nat, p: nat, right: nat)
    requires n.Leaf? && NodeOk(n, pl, before) && 0 < mid < |n.keys|
    requires p in before && before[p] == pl && right !in before && right != 0
    requires after == before[p := pl.(hi := Rank(n.keys[mid]))][right := pl.(lo := Rank(n.keys[mid]))]
    ensures pl.lo < Rank(n.keys[mid]) < pl.hi
    ensures NodeOk(Leaf(n.keys[..mid], n.values[..mid], right, n.tombs[..mid]), pl.(hi := Rank(n.keys[mid])), after)
    ensures NodeOk(Leaf(n.keys[mid..], n.values[mid..], n.next, n.tombs[mid..]), pl.(lo := Rank(n.keys[mid])), after)
  {
    assert pl.lo <= Rank(n.keys[0]) < Rank(n.keys[mid]) < pl.hi;
    var cut := Rank(n.keys[mid]);
    hide Rank;
    assert LeafOk(Leaf(n.keys[..mid], n.values[..mid], right, n.tombs[..mid]), pl.(hi := cut), after);
    assert LeafOk(Leaf(n.keys[mid..], n.values[mid..], n.next, n.tombs[mid..]), pl.(lo := cut), after);
  }

  /** Splitting an inner node around its key `mid`. */
  lemma SplitInnerDangles(s: Shape, p: nat, mid: nat, right: nat) returns (up: nat, i: nat)
    requires WellFormed(s) && p in s.node && s.node[p].Inner? && right !in s.node && right != 0
    requires mid < |s.node[p].keys|
    ensures Shaped(s.node[p]) && |s.node[p].children| == |s.node[p].keys| + 1
    ensures var n := s.node[p];
      Dangling(Split(s, p, Inner(n.keys[..mid], n.children[..mid + 1]), n.keys[mid], right,
                     Inner(n.keys[mid + 1..], n.children[mid + 1..])), p, n.keys[mid], right, up, i)
  {
    var n, pl := s.node[p], s.place[p];
    assert NodeOk(n, pl, s.place);
    var key := n.keys[mid];
    var l, r := Inner(n.keys[..mid], n.children[..mid + 1]), Inner(n.keys[mid + 1..], n.children[mid + 1..]);
    InnerHalvesOk(n, pl, s.place, Split(s, p, l, key, right, r).place, mid, p, right);
    up, i := SplitDangles(s, p, l, key, right, r);
  }

  lemma InnerHalvesOk(n: Node, pl: Place, before: map<nat, Place>, after: map<nat, Place>, mid: nat, p: nat, right: nat)
    requires n.Inner? && NodeOk(n, pl, before) && mid < |n.keys|
    requires p in before && before[p] == pl && right !in before
    requires forall q :: q in before && q != p ==> q in after && after[q] == before[q]
    ensures NodeOk(Inner(n.keys[..mid], n.children[..mid + 1]), pl.(hi := Rank(n.keys[mid])), after)
    ensures NodeOk(Inner(n.keys[mid + 1..], n.children[mid + 1..]), pl.(lo := Rank(n.keys[mid])), after)
  {
    forall j | 0 <= j < |n.children|
      ensures n.children[j] != p
    {
      ChildInsideParent(n, pl, before, j);
    }
  }

  /** A split leaves one gap: the fence in the parent, if there is a parent. */
  lemma SplitDangles(s: Shape, p: nat, l: Node, key: Bytes, right: nat, r: Node) returns (up: nat, i: nat)
    requires WellFormed(s) && Halves(s, p, l, key, right, r)
    ensures Dangling(Split(s, p, l, key, right, r), p, key, right, up, i)
  {
    hide NodeOk, NodesOkExcept, LevelsDisjoint, Rank, Shaped;
    var root := s.root.value;
    SplitKeepsLevels(s, p, l, key, right, r);
    if p == root {
      up, i := p, 0;
      OthersOk(s, p, l, key, right, r, p);
    } else {
      up, i := ParentOfSplit(s, p, key);
      ParentAdopts(s, p, l, key, right, r, up, i);
      OthersOk(s, p, l, key, right, r, up);
    }
  }

  lemma ParentOfSplit(s: Shape, p: nat, key: Bytes) returns (up: nat, i: nat)
    requires WellFormed(s) && p in s.node && Holds(s.place[p], Rank(key)) && p != s.root.value
    ensures up in s.node && s.node[up].Inner? && s.place[up].ht == s.place[p].ht + 1
    ensures i <= |s.node[up].keys| && Shaped(s.node[up]) && s.node[up].children[i] == p
    ensures Holds(s.place[up], Rank(key))
  {
    hide NodeOk;
    if s.place[p].ht == s.place[s.root.value].ht {
      SameNode(s, p, s.root.value, Rank(key));
    }
    up, i := ParentOf(s, s.root.value, p, Rank(key));
  }

  lemma OthersOk(s: Shape, p: nat, l: Node, key: Bytes, right: nat, r: Node, up: nat)
    requires WellFormed(s) && Halves(s, p, l, key, right, r)
    requires up in s.node && Holds(s.place[up], Rank(key))
    requires if p == s.root.value then up == p else s.place[up].ht == s.place[p].ht + 1
    ensures NodesOkExcept(Split(s, p, l, key, right, r), if p == s.root.value then None else Some(up))
  {
    hide NodeOk, Rank, LevelsDisjoint;
    var t := Split(s, p, l, key, right, r);
    forall q | q in t.node && q in t.place && (p == s.root.value || q != up) ensures NodeOk(t.node[q], t.place[q], t.place) {
      if q != p && q != right {
        if s.node[q].Inner? {
          NotAChild(s, p, key, q, up);
        }
        StillOk(s.node[q], s.place[q], s.place, t.place, p);
      }
    }
  }

  lemma ParentAdopts(s: Shape, p: nat, l: Node, key: Bytes, right: nat, r: Node, up: nat, i: nat)
    requires WellFormed(s) && Halves(s, p, l, key, right, r)
    requires up in s.node && s.node[up].Inner? && s.place[up].ht == s.place[p].ht + 1
    requires i <= |s.node[up].keys| && Shaped(s.node[up]) && s.node[up].children[i] == p
    ensures NodeOk(Adopt(s.node[up], i, key, right), s.place[up], Split(s, p, l, key, right, r).place)
  {
    hide Rank;
    assert NodeOk(s.node[up], s.place[up], s.place);
    AdoptIsOk(s.node[up], s.place[up], s.place, Split(s, p, l, key, right, r).place, i, key, right);
  }

  /** A node is not affected when the places it refers to stay, but for a new upper fence
      or lower neighbour of `p`. */
  lemma StillOk(n: Node, pl: Place, before: map<nat, Place>, after: map<nat, Place>, p: nat)
    requires NodeOk(n, pl, before)
    requires forall q :: q in before ==> q in after && after[q].lo == before[q].lo && after[q].ht == before[q].ht
    requires forall q :: q in before && q != p ==> after[q] == before[q]
    requires n.Inner? && p in before ==> forall i :: 0 <= i < |n.children| ==> n.children[i] != p
    ensures NodeOk(n, pl, after)
  {
  }

  lemma NotAChild(s: Shape, p: nat, key: Bytes, q: nat, up: nat)
    requires WellFormed(s) && p in s.node && q in s.node && q != p && s.node[q].Inner?
    requires Holds(s.place[p], Rank(key)) && up in s.node && Holds(s.place[up], Rank(key))
    requires if p == s.root.value then up == p else q != up && s.place[up].ht == s.place[p].ht + 1
    ensures forall i :: 0 <= i < |s.node[q].children| ==> s.node[q].children[i] != p
  {
    assert NodeOk(s.node[q], s.place[q], s.place);
    if p == s.root.value {
      forall i | 0 <= i < |s.node[q].children| ensures s.node[q].children[i] != p {
        ChildInsideParent(s.node[q], s.place[q], s.place, i);
      }
    } else {
      OthersKeepTheirChildren(s, q, p, up);
    }
  }

  /** Writing the parent closes the gap. */
  lemma FillGap(s: Shape, left: nat, key: Bytes, right: nat, up: nat, i: nat)
    requires Dangling(s, left, key, right, up, i) && left != s.root.value
    ensures WellFormed(s.(node := s.node[up := Adopt(s.node[up], i, key, right)]))
  {
  }

  lemma RemoveKeepsOrder(keys: seq<Bytes>, i: nat, key: Bytes)
    requires i <= |keys| && SortedKeys(InsertAt(keys, i, key))
    ensures SortedKeys(keys)
    ensures forall j :: 0 <= j < i ==> Rank(keys[j]) < Rank(key)
    ensures forall j :: i <= j < |keys| ==> Rank(key) < Rank(keys[j])
  {
    hide InsertAt, Rank;
    var m := InsertAt(keys, i, key);
    InsertAtIndex(keys, i, key, i);
    forall j | 0 <= j < |keys|
      ensures m[if j < i then j else j + 1] == keys[j]
    {
      InsertAtIndex(keys, i, key, if j < i then j else j + 1);
    }
  }

  /** The separator is new in the parent, and it goes just where the split child is. */
  lemma GapFound(s: Shape, left: nat, key: Bytes, right: nat, up: nat, i: nat)
    requires Dangling(s, left, key, right, up, i) && left != s.root.value
    ensures var n := s.node[up];
      && Holds(s.place[up], Rank(key))
      && SortedKeys(n.keys)
      && (forall j :: 0 <= j < |n.keys| ==> n.keys[j] != key)
      && (forall j :: 0 <= j < i ==> Rank(n.keys[j]) < Rank(key))
      && (forall j :: i <= j < |n.keys| ==> Rank(key) < Rank(n.keys[j]))
  {
    RemoveKeepsOrder(s.node[up].keys, i, key);
    assert Adopt(s.node[up], i, key, right).keys[i] == key;
  }

  /** A new root over the two halves of the old one. */
  function NewRoot(s: Shape, left: nat, key: Bytes, right: nat, top: nat): Shape
    requires left in s.place
  {
    Shape(Some(top), s.node[top := Inner([key], [left, right])],
          s.place[top := Place(0.0, 1.0, s.place[left].ht + 1)])
  }

  lemma NewRootIsWhole(s: Shape, left: nat, key: Bytes, right: nat, up: nat, i: nat, top: nat)
    requires Dangling(s, left, key, right, up, i) && left == s.root.value && top !in s.node && top != 0
    ensures WellFormed(NewRoot(s, left, key, right, top))
  {
    hide NodeOk, Rank, LevelsDisjoint;
    NonEmpty(s.node[left], s.place[left], s.place);
    NonEmpty(s.node[right], s.place[right], s.place);
    var t := NewRoot(s, left, key, right, top);
    NewRootOk(s.place, t.place, left, key, right, top);
    NewTopLevel(s.place, top, t.place[top]);
    forall p | p in t.node && p in t.place && p != top ensures NodeOk(t.node[p], t.place[p], t.place) {
      StillOk(s.node[p], s.place[p], s.place, t.place, top);
    }
  }

  lemma NonEmpty(n: Node, pl: Place, place: map<nat, Place>)
    requires NodeOk(n, pl, place)
    ensures 0.0 <= pl.lo < pl.hi <= 1.0
  {
  }

  lemma NewTopLevel(place: map<nat, Place>, top: nat, pl: Place)
    requires LevelsDisjoint(place) && forall p :: p in place ==> place[p].ht < pl.ht
    ensures LevelsDisjoint(place[top := pl])
  {
  }

  lemma NewRootOk(before: map<nat, Place>, after: map<nat, Place>, left: nat, key: Bytes, right: nat, top: nat)
    requires left in before && right in before && left != right && top !in before
    requires before[left].lo == 0.0 && before[left].hi == Rank(key) == before[right].lo && before[right].hi == 1.0
    requires before[left].lo < before[left].hi && before[right].lo < before[right].hi
    requires before[left].ht == before[right].ht && after == before[top := Place(0.0, 1.0, before[left].ht + 1)]
    ensures NodeOk(Inner([key], [left, right]), after[top], after)
  {
    hide Rank;
    var n := Inner([key], [left, right]);
    assert n.children[0] == left && n.children[1] == right;
  }

  /** The first leaf of an empty tree. */
  lemma SingleLeafIsWhole(p: nat, n: Node)
    requires p != 0 && n.Leaf? && Shaped(n) && |n.keys| == 1 && n.next == 0
    ensures WellFormed(Shape(Some(p), map[p := n], map[p := Place(0.0, 1.0, 0)]))
  {
  }
}
