/** The paged B+tree (src/tinydb/btree.py): every node lives in a page image and is read
    back from it.  A ghost `Shape` says what the pages mean, a ghost map what the tree holds. */
module PagedBTree {
  import opened ByteStrings
  import opened PageStore
  import opened Wrappers
  import opened NodeCodec
  import opened TreeShape
  import opened TreeContents

  /** How a call ends: normally, or with an exception that leaves it. */
  datatype Outcome = Done | Raised

  /** What storing a node ends in; `Overfull` is the ValueError that asks for a split. */
  datatype Storing = Stowed | Overfull | Failed

  predicate Storable(n: Node) {
    Shaped(n) && FieldsFit(n)
    && match n
       case Leaf(keys, _, _, _) => LeafSize(keys) <= PAYLOAD_SIZE
       case Inner(keys, _) => InnerSize(keys) + 4 <= PAYLOAD_SIZE
  }

  function ImageOf(n: Node): (r: Bytes)
    requires Storable(n)
    ensures |r| == PAGE_SIZE
  {
    match n
    case Leaf(_, _, _, _) => LeafPage(n)
    case Inner(_, _) => InnerPage(n)
  }

  ghost predicate StoredAt(pages: map<nat, Bytes>, p: nat, n: Node) {
    p in pages && Storable(n) && pages[p] == ImageOf(n)
  }

  /** The pages hold every node of the shape, but for `x`. */
  ghost predicate Mirrors(pages: map<nat, Bytes>, s: Shape, x: Option<nat>) {
    forall p :: p in s.node && Some(p) != x ==> StoredAt(pages, p, s.node[p])
  }

  ghost predicate AllUniform(s: Shape, w: nat) {
    forall p :: p in s.node ==> p < U32_LIMIT && Uniform(s.node[p].keys, w)
  }

  /** Keys of width `w` never overflow a half, and the unchecked child pointer always fits. */
  predicate GoodWidth(w: nat) {
    11 + w <= PAYLOAD_SIZE && PAYLOAD_SIZE % (6 + w) >= 4
  }

  ghost function Height(s: Shape): nat {
    if s.root.Some? && s.root.value in s.place then s.place[s.root.value].ht else 0
  }

  /** The tree's pages are live, and those it has gained were not. */
  ghost predicate Grown(live: set<nat>, after: set<nat>, nodes: set<nat>, nodesAfter: set<nat>) {
    after == live + nodesAfter && nodes <= nodesAfter && (nodesAfter - nodes) !! live
  }

  lemma MirrorsElsewhere(pages: map<nat, Bytes>, after: map<nat, Bytes>, s: Shape, x: Option<nat>)
    requires Mirrors(pages, s, x)
    requires forall p :: p in s.node && Some(p) != x ==> p in after && (p in pages ==> after[p] == pages[p])
    ensures Mirrors(after, s, x)
  {
    hide Storable, ImageOf;
  }

  // ---- keys of one width --------------------------------------------------

  lemma NewRootStorable(key: Bytes, left: nat, right: nat, w: nat)
    requires GoodWidth(w) && |key| == w && left < U32_LIMIT && right < U32_LIMIT
    ensures Storable(Inner([key], [left, right])) && Uniform([key], w)
  {
    UniformSizes([key], w);
  }

  lemma FewKeys(n: nat, w: nat)
    requires n * (6 + w) <= PAYLOAD_SIZE
    ensures n <= 681
  {
    if n >= 682 {
      MulMonotone(682, n, 6 + w);
    }
  }

  lemma AdoptFieldsFit(n: Node, at: nat, key: Bytes, right: nat, w: nat)
    requires n.Inner? && Storable(n) && Uniform(n.keys, w) && |key| == w && right < U32_LIMIT && at <= |n.keys|
    ensures var m := Adopt(n, at, key, right); FieldsFit(m) && Uniform(m.keys, w)
    ensures |n.keys| * (6 + w) + 4 <= PAYLOAD_SIZE
  {
    hide InnerSize, InsertAt, LeafSize, Uniform;
    UniformSizes(n.keys, w);
    FewKeys(|n.keys|, w);
    UniformInsert(n.keys, at, key, w);
    SmallInsert(n.children, at + 1, right);
  }

  lemma SmallInsert(ids: seq<nat>, i: nat, id: nat)
    requires i <= |ids| && id < U32_LIMIT && forall c :: c in ids ==> c < U32_LIMIT
    ensures forall c :: c in InsertAt<nat>(ids, i, id) ==> c < U32_LIMIT
  {
    hide InsertAt;
    forall c | c in InsertAt<nat>(ids, i, id) ensures c < U32_LIMIT {
      InsertedElement<nat>(ids, i, id, c);
    }
  }

  lemma UniformInsert(keys: seq<Bytes>, i: nat, key: Bytes, w: nat)
    requires Uniform(keys, w) && i <= |keys| && |key| == w
    ensures Uniform(InsertAt(keys, i, key), w)
  {
    hide InsertAt;
    forall k | k in InsertAt(keys, i, key) ensures |k| == w {
      InsertedElement(keys, i, key, k);
    }
  }

  lemma InsertedElement<T>(s: seq<T>, i: nat, x: T, e: T)
    requires i <= |s| && e in InsertAt(s, i, x)
    ensures e == x || e in s
  {
  }

  lemma UniformGuardSuffices(keys: seq<Bytes>, w: nat)
    requires Uniform(keys, w) && GoodWidth(w)
    ensures InnerSize(keys) <= PAYLOAD_SIZE ==> InnerSize(keys) + 4 <= PAYLOAD_SIZE
  {
    if InnerSize(keys) <= PAYLOAD_SIZE {
      RoomForLastChild(keys, w);
    }
  }

  lemma HalvesStorable(n: Node, mid: nat, w: nat)
    requires n.Inner? && Shaped(n) && FieldsFit(n) && Uniform(n.keys, w) && mid < |n.keys|
    requires (|n.keys| - 1) * (6 + w) + 4 <= PAYLOAD_SIZE
    ensures Storable(Inner(n.keys[..mid], n.children[..mid + 1])) && Uniform(n.keys[..mid], w)
    ensures Storable(Inner(n.keys[mid + 1..], n.children[mid + 1..])) && Uniform(n.keys[mid + 1..], w)
    ensures |n.keys[mid]| == w
  {
    hide Storable, FieldsFit;
    PartStorable(n, 0, mid, w);
    PartStorable(n, mid + 1, |n.keys|, w);
    assert n.keys[0..mid] == n.keys[..mid] && n.children[0..mid + 1] == n.children[..mid + 1];
    assert n.keys[mid + 1..|n.keys|] == n.keys[mid + 1..] && n.children[mid + 1..|n.keys| + 1] == n.children[mid + 1..];
    assert n.keys[mid] in n.keys;
  }

  lemma ShapedInner(pages: map<nat, Bytes>, s: Shape, c: Contents, x: Option<nat>, p: nat)
    requires Holding(pages, s, c, x) && p in s.node
    ensures Shaped(s.node[p]) && 0 !in s.node && p in s.place && s.place[p].ht <= Height(s)
  {
    hide Storable, ImageOf, Rank;
    assert NodeOk(s.node[p], s.place[p], s.place);
  }

  /** Above the split node, a node that holds the separator is the parent or still whole. */
  lemma OnTheWay(s: Shape, left: nat, key: Bytes, right: nat, up: nat, at: nat, p: nat)
    requires Dangling(s, left, key, right, up, at) && left != s.root.value
    requires p in s.place && Holds(s.place[p], Rank(key)) && s.place[p].ht > s.place[left].ht
    ensures s.node[p].Inner? && Shaped(s.node[p]) && SortedKeys(s.node[p].keys)
    ensures p != up ==> NodeOk(s.node[p], s.place[p], s.place) && s.place[p].ht > s.place[up].ht
  {
    hide Rank, InsertAt;
    GapFound(s, left, key, right, up, at);
    if p != up && s.place[p].ht == s.place[up].ht {
      SameNode(s, p, up, Rank(key));
    }
  }

  lemma SameCut(keys: seq<Bytes>, key: Bytes, i: nat, at: nat)
    requires i <= |keys| && at <= |keys|
    requires forall j :: 0 <= j < i ==> Rank(keys[j]) <= Rank(key)
    requires forall j :: i <= j < |keys| ==> Rank(key) <= Rank(keys[j])
    requires forall j :: 0 <= j < at ==> Rank(keys[j]) < Rank(key)
    requires forall j :: at <= j < |keys| ==> Rank(key) < Rank(keys[j])
    ensures i == at
  {
    hide Rank;
    if i < |keys| {
      CutNotPast(keys, Rank(key), i, at);
    }
    if at < |keys| {
      CutNotShort(keys, Rank(key), i, at);
    }
  }

  lemma CutNotPast(keys: seq<Bytes>, r: real, i: nat, at: nat)
    requires i < |keys| && at <= |keys| && r <= Rank(keys[i])
    requires forall j :: 0 <= j < at ==> Rank(keys[j]) < r
    ensures at <= i
  {
  }

  lemma CutNotShort(keys: seq<Bytes>, r: real, i: nat, at: nat)
    requires at < |keys| && i <= |keys| && r < Rank(keys[at])
    requires forall j :: 0 <= j < i ==> Rank(keys[j]) <= r
    ensures i <= at
  {
  }

  /** The child `bisect_right` picks is the split node just under the parent, and above it
      another node that holds the separator. */
  lemma NextOnTheWay(s: Shape, left: nat, key: Bytes, right: nat, up: nat, at: nat, p: nat, i: nat)
    requires Dangling(s, left, key, right, up, at) && left != s.root.value
    requires p in s.place && Holds(s.place[p], Rank(key)) && s.place[p].ht > s.place[left].ht
    requires s.node[p].Inner? && Shaped(s.node[p]) && i <= |s.node[p].keys|
    requires forall j :: 0 <= j < i ==> Rank(s.node[p].keys[j]) <= Rank(key)
    requires forall j :: i <= j < |s.node[p].keys| ==> Rank(key) < Rank(s.node[p].keys[j])
    ensures var child := s.node[p].children[i];
      child in s.node && child in s.place && s.place[child].ht < s.place[p].ht
      && (child == left <==> p == up)
      && (p != up ==> Holds(s.place[child], Rank(key)) && s.place[child].ht > s.place[left].ht)
  {
    hide Rank, InsertAt, LevelsDisjoint, NodeOk;
    GapFound(s, left, key, right, up, at);
    if p != up {
      OnTheWay(s, left, key, right, up, at, p);
      ChildHolds(s, p, Rank(key), i);
    } else {
      SameCut(s.node[p].keys, key, i, at);
    }
  }

  lemma DanglingFacts(s: Shape, left: nat, key: Bytes, right: nat, up: nat, at: nat)
    requires Dangling(s, left, key, right, up, at)
    ensures s.root.Some? && 0 !in s.node && s.node.Keys == s.place.Keys
    ensures left in s.node && right in s.node && s.place[left].ht <= Height(s)
    ensures left != s.root.value ==>
      && up in s.node && s.place[up].ht == s.place[left].ht + 1 <= Height(s)
      && s.node[up].Inner? && Shaped(s.node[up]) && at <= |s.node[up].keys|
  {
    hide NodeOk, LevelsDisjoint, Rank;
  }

  lemma StoredIsStorable(pages: map<nat, Bytes>, s: Shape, x: Option<nat>, p: nat)
    requires Mirrors(pages, s, x) && p in s.node && Some(p) != x
    ensures Storable(s.node[p])
  {
    hide Storable, ImageOf;
  }

  lemma DanglingRoot(s: Shape, left: nat, key: Bytes, right: nat, up: nat, at: nat)
    requires Dangling(s, left, key, right, up, at) && left != s.root.value
    ensures s.root.Some? && s.root.value in s.node && left in s.place && s.node.Keys == s.place.Keys
    ensures Holds(s.place[s.root.value], Rank(key)) && s.place[s.root.value].ht > s.place[left].ht
  {
    hide NodeOk;
  }

  /** Storing the two halves makes the pages mirror the split shape. */
  lemma SplitMirrors(pages: map<nat, Bytes>, after: map<nat, Bytes>, s: Shape, p: nat, l: Node, key: Bytes, right: nat, r: Node)
    requires p in s.place && p in s.node && right !in s.node && Mirrors(pages, s, Some(p))
    requires StoredAt(after, p, l) && StoredAt(after, right, r)
    requires forall q :: q in s.node && q != p && q in pages ==> q in after && after[q] == pages[q]
    ensures Mirrors(after, Split(s, p, l, key, right, r), None)
  {
    hide Storable, ImageOf, Rank;
  }

  lemma OverfullHasKeys(keys: seq<Bytes>)
    ensures InnerSize(keys) > PAYLOAD_SIZE ==> keys != []
    ensures LeafSize(keys) > PAYLOAD_SIZE ==> keys != []
  {
  }

  lemma UniformPart(keys: seq<Bytes>, a: nat, b: nat, w: nat)
    requires Uniform(keys, w) && a <= b <= |keys|
    ensures Uniform(keys[a..b], w)
  {
    forall k | k in keys[a..b] ensures |k| == w {
      var j :| a <= j < b && keys[j] == k;
      assert k in keys;
    }
  }

  lemma PartStorable(n: Node, a: nat, b: nat, w: nat)
    requires n.Inner? && Shaped(n) && FieldsFit(n) && Uniform(n.keys, w) && a <= b <= |n.keys|
    requires (|n.keys| - 1) * (6 + w) + 4 <= PAYLOAD_SIZE && b - a < |n.keys|
    ensures Storable(Inner(n.keys[a..b], n.children[a..b + 1])) && Uniform(n.keys[a..b], w)
  {
    hide InnerSize, LeafSize;
    MulMonotone(b - a, |n.keys| - 1, 6 + w);
    UniformPart(n.keys, a, b, w);
    var part := n.children[a..b + 1];
    forall c | c in part ensures c < U32_LIMIT {
      assert c in n.children;
    }
    UniformSizes(n.keys[a..b], w);
  }

  /** What a split needs so that no call below it raises. */
  ghost predicate CarefulSplit(s: Shape, left: nat, key: Bytes, right: nat, w: nat, next: nat)
    requires left in s.place
  {
    && AllUniform(s, w) && |key| == w && GoodWidth(w)
    && left < U32_LIMIT && right < U32_LIMIT
    && next + (Height(s) - s.place[left].ht) + 1 <= U32_LIMIT
  }

  // ---- one step of an insert, pages and shape together ---------------------

  /** A shape, the pages that hold it and the map it stands for; `x` is not stored yet. */
  ghost predicate Holding(pages: map<nat, Bytes>, s: Shape, c: Contents, x: Option<nat>) {
    WellFormed(s) && Agrees(s, c) && Mirrors(pages, s, x)
  }

  lemma TopIsHeld(pages: map<nat, Bytes>, after: map<nat, Bytes>, s: Shape, c: Contents,
                  left: nat, key: Bytes, right: nat, up: nat, at: nat, top: nat)
    requires Dangling(s, left, key, right, up, at) && left == s.root.value && Agrees(s, c) && Mirrors(pages, s, None)
    requires top !in s.node && top != 0 && StoredAt(after, top, Inner([key], [left, right]))
    requires forall p :: p in s.node && p in pages ==> p in after && after[p] == pages[p]
    ensures var t := NewRoot(s, left, key, right, top);
      Holding(after, t, c, None) && t.node.Keys == s.node.Keys + {top} && t.root == Some(top)
  {
    hide Rank, Storable, ImageOf, LevelsDisjoint, NodeOk, LeafAgrees;
    var t := NewRoot(s, left, key, right, top);
    NewRootIsWhole(s, left, key, right, up, at, top);
    SameLeavesAgree(s, t, c);
    MirrorsElsewhere(pages, after, s, None);
  }

  lemma GapIsFilled(pages: map<nat, Bytes>, s: Shape, c: Contents,
                    left: nat, key: Bytes, right: nat, up: nat, at: nat, n: Node)
    requires Dangling(s, left, key, right, up, at) && left != s.root.value && Agrees(s, c) && Mirrors(pages, s, None)
    requires n == Adopt(s.node[up], at, key, right)
    ensures var t := s.(node := s.node[up := n]);
      Holding(pages, t, c, Some(up)) && t.node.Keys == s.node.Keys && up in s.place && Height(t) == Height(s)
  {
    hide Rank, Storable, ImageOf, LevelsDisjoint, NodeOk, LeafAgrees;
    var t := s.(node := s.node[up := n]);
    FillGap(s, left, key, right, up, at);
    SameLeavesAgree(s, t, c);
  }

  /** Storing the last missing node. */
  lemma NowHeld(pages: map<nat, Bytes>, s: Shape, c: Contents, p: nat, n: Node)
    requires Holding(pages, s, c, Some(p)) && p in s.node && s.node[p] == n && Storable(n)
    ensures Holding(pages[p := ImageOf(n)], s, c, None)
  {
    hide Rank, Storable, ImageOf, WellFormed, Agrees;
  }

  lemma CutIsHeld(pages: map<nat, Bytes>, after: map<nat, Bytes>, s: Shape, c: Contents,
                  p: nat, mid: nat, right: nat) returns (up: nat, at: nat)
    requires Holding(pages, s, c, Some(p)) && p in s.node && s.node[p].Inner? && Shaped(s.node[p])
    requires mid < |s.node[p].keys| && right !in s.node && right != 0
    requires StoredAt(after, p, Inner(s.node[p].keys[..mid], s.node[p].children[..mid + 1]))
    requires StoredAt(after, right, Inner(s.node[p].keys[mid + 1..], s.node[p].children[mid + 1..]))
    requires forall q :: q in s.node && q != p && q in pages ==> q in after && after[q] == pages[q]
    ensures p in s.place
    ensures var n := s.node[p];
      var t := Split(s, p, Inner(n.keys[..mid], n.children[..mid + 1]), n.keys[mid], right,
                     Inner(n.keys[mid + 1..], n.children[mid + 1..]));
      && Dangling(t, p, n.keys[mid], right, up, at) && Agrees(t, c) && Mirrors(after, t, None)
      && t.node.Keys == s.node.Keys + {right} && t.root == s.root && Height(t) == Height(s)
      && p in t.place && t.place[p].ht == s.place[p].ht
  {
    hide Rank, Storable, ImageOf, LevelsDisjoint, NodeOk, LeafAgrees, Dangling;
    var n := s.node[p];
    var l, r := Inner(n.keys[..mid], n.children[..mid + 1]), Inner(n.keys[mid + 1..], n.children[mid + 1..]);
    up, at := SplitInnerDangles(s, p, mid, right);
    SplitMirrors(pages, after, s, p, l, n.keys[mid], right, r);
    SameLeavesAgree(s, Split(s, p, l, n.keys[mid], right, r), c);
  }

  lemma RegularTop(s: Shape, left: nat, key: Bytes, right: nat, top: nat, w: nat)
    requires AllUniform(s, w) && left in s.place && top < U32_LIMIT && Uniform([key], w)
    ensures AllUniform(NewRoot(s, left, key, right, top), w)
  {
    hide Uniform, Rank;
  }

  lemma NewRootIsHigher(s: Shape, left: nat, key: Bytes, right: nat, top: nat)
    requires left in s.place && s.root == Some(left)
    ensures Height(NewRoot(s, left, key, right, top)) == Height(s) + 1
  {
    hide Rank;
  }

  lemma RegularAt(s: Shape, p: nat, w: nat)
    requires AllUniform(s, w) && p in s.node
    ensures p < U32_LIMIT && Uniform(s.node[p].keys, w)
  {
    hide Uniform;
  }

  lemma RegularFill(s: Shape, up: nat, n: Node, w: nat)
    requires AllUniform(s, w) && up in s.node && Uniform(n.keys, w)
    ensures AllUniform(s.(node := s.node[up := n]), w)
  {
    hide Uniform, Rank;
  }

  lemma RegularCut(s: Shape, p: nat, l: Node, key: Bytes, right: nat, r: Node, w: nat, next: nat)
    requires AllUniform(s, w) && GoodWidth(w) && p in s.node && p in s.place && right !in s.node && right < U32_LIMIT
    requires Uniform(l.keys, w) && Uniform(r.keys, w) && |key| == w
    requires next + (Height(s) - s.place[p].ht) + 1 <= U32_LIMIT
    requires Height(Split(s, p, l, key, right, r)) == Height(s)
    ensures var t := Split(s, p, l, key, right, r);
      p in t.place && (p != right ==> CarefulSplit(t, p, key, right, w, next))
  {
    hide Uniform, Rank, GoodWidth;
  }

  // ---- one step of an insert or delete at a leaf ----------------------------

  lemma FirstLeafIsHeld(pages: map<nat, Bytes>, p: nat, n: Node, key: Bytes, v: Ref)
    requires p != 0 && n == Leaf([key], [v], 0, [false]) && StoredAt(pages, p, n)
    ensures Holding(pages, Shape(Some(p), map[p := n], map[p := Place(0.0, 1.0, 0)]), map[key := v], None)
  {
    hide Storable, ImageOf, Rank;
    SingleLeafIsWhole(p, n);
  }

  lemma LeafFacts(pages: map<nat, Bytes>, s: Shape, c: Contents, p: nat)
    requires Holding(pages, s, c, None) && p in s.node && s.node[p].Leaf?
    ensures p in s.place && NodeOk(s.node[p], s.place[p], s.place) && Shaped(s.node[p]) && SortedKeys(s.node[p].keys)
    ensures LeafAgrees(s.node[p], s.place[p], c) && Storable(s.node[p]) && s.node[p].keys != [] && s.root.Some? && p != 0
  {
    hide Storable, ImageOf, Rank, LevelsDisjoint;
    assert NodeOk(s.node[p], s.place[p], s.place);
    assert StoredAt(pages, p, s.node[p]);
  }

  /** Any rewrite of one leaf that agrees with the map changed at one key. */
  lemma LeafIsRewritten(pages: map<nat, Bytes>, s: Shape, c: Contents, p: nat, n: Node, key: Bytes, d: Contents)
    requires Holding(pages, s, c, None) && p in s.node && p in s.place && s.node[p].Leaf? && Holds(s.place[p], Rank(key))
    requires n.Leaf? && NodeOk(n, s.place[p], s.place) && Shaped(n) && LeafAgrees(n, s.place[p], d)
    requires d - {key} == c - {key}
    ensures var t := s.(node := s.node[p := n]);
      Holding(pages, t, d, Some(p)) && t.node.Keys == s.node.Keys && Height(t) == Height(s)
  {
    hide Storable, ImageOf, Rank, LevelsDisjoint, NodeOk, LeafAgrees;
    RewriteLeaf(s, p, n);
    RewriteAgrees(s, p, n, key, c, d);
  }

  /** Only a new key can overflow a leaf that fitted. */
  lemma OverflowByInsert(n: Node, i: nat, key: Bytes, v: Ref)
    requires n.Leaf? && Storable(n) && n.keys != [] && i <= |n.keys|
    requires LeafSize(Upserted(n, i, key, v).keys) > PAYLOAD_SIZE
    ensures |Upserted(n, i, key, v).keys| == |n.keys| + 1 >= 2
  {
    hide LeafSize, InsertAt;
    ReplaceKeepsKeys(n, i, key, v);
  }

  lemma ReplaceKeepsKeys(n: Node, i: nat, key: Bytes, v: Ref)
    requires n.Leaf? && Shaped(n) && i <= |n.keys|
    ensures i < |n.keys| && n.keys[i] == key ==> Upserted(n, i, key, v).keys == n.keys
  {
  }

  lemma CutLeafIsHeld(pages: map<nat, Bytes>, after: map<nat, Bytes>, s: Shape, c: Contents, p: nat, mid: nat, right: nat)
    returns (up: nat, at: nat)
    requires Holding(pages, s, c, Some(p)) && p in s.node && s.node[p].Leaf? && Shaped(s.node[p])
    requires 0 < mid < |s.node[p].keys| && right !in s.node && right != 0
    requires StoredAt(after, p, Leaf(s.node[p].keys[..mid], s.node[p].values[..mid], right, s.node[p].tombs[..mid]))
    requires StoredAt(after, right,
                      Leaf(s.node[p].keys[mid..], s.node[p].values[mid..], s.node[p].next, s.node[p].tombs[mid..]))
    requires forall q :: q in s.node && q != p && q in pages ==> q in after && after[q] == pages[q]
    ensures p in s.place
    ensures var n := s.node[p];
      var t := Split(s, p, Leaf(n.keys[..mid], n.values[..mid], right, n.tombs[..mid]), n.keys[mid], right,
                     Leaf(n.keys[mid..], n.values[mid..], n.next, n.tombs[mid..]));
      && Dangling(t, p, n.keys[mid], right, up, at) && Agrees(t, c) && Mirrors(after, t, None)
      && t.node.Keys == s.node.Keys + {right} && t.root == s.root && Height(t) == Height(s)
      && p in t.place && t.place[p].ht == s.place[p].ht
  {
    hide Rank, Storable, ImageOf, LevelsDisjoint, NodeOk, LeafAgrees, Dangling, Halves;
    var n := s.node[p];
    var l := Leaf(n.keys[..mid], n.values[..mid], right, n.tombs[..mid]);
    var r := Leaf(n.keys[mid..], n.values[mid..], n.next, n.tombs[mid..]);
    assert NodeOk(s.node[p], s.place[p], s.place);
    LeafHalves(s, p, mid, right, n);
    up, at := SplitDangles(s, p, l, n.keys[mid], right, r);
    SplitMirrors(pages, after, s, p, l, n.keys[mid], right, r);
    SplitAgrees(s, p, mid, right, c);
  }

  predicate RefFits(v: Ref) {
    v.page < U32_LIMIT && v.slot < U32_LIMIT
  }

  lemma UpsertFieldsFit(n: Node, i: nat, key: Bytes, v: Ref, w: nat)
    requires n.Leaf? && Storable(n) && Uniform(n.keys, w) && |key| == w && RefFits(v) && i <= |n.keys|
    ensures var m := Upserted(n, i, key, v); Shaped(m) && FieldsFit(m) && Uniform(m.keys, w)
    ensures |n.keys| * (11 + w) <= PAYLOAD_SIZE
  {
    hide LeafSize, InnerSize, InsertAt;
    UniformSizes(n.keys, w);
    MulMonotone(6 + w, 11 + w, |n.keys|);
    FewKeys(|n.keys|, w);
    if i < |n.keys| && n.keys[i] == key {
      assert n.keys[i := key] == n.keys;
      forall u | u in n.values[i := v] ensures RefFits(u) {
        assert u == v || u in n.values;
      }
    } else {
      UniformInsert(n.keys, i, key, w);
      forall u | u in InsertAt<Ref>(n.values, i, v) ensures RefFits(u) {
        InsertedElement<Ref>(n.values, i, v, u);
      }
    }
  }

  /** The leaf the key belongs to has room for it, whatever the widths of its keys. */
  ghost predicate LeafTakes(s: Shape, key: Bytes) {
    if s.root.None? then 11 + |key| <= PAYLOAD_SIZE
    else forall p :: p in s.node && p in s.place && s.node[p].Leaf? && Holds(s.place[p], Rank(key)) ==>
           LeafSize(s.node[p].keys) + (if key in s.node[p].keys then 0 else 11 + |key|) <= PAYLOAD_SIZE
  }

  lemma {:induction false} InsertedSize(keys: seq<Bytes>, i: nat, key: Bytes)
    requires i <= |keys|
    ensures LeafSize(InsertAt(keys, i, key)) == LeafSize(keys) + 11 + |key|
  {
    var more := InsertAt(keys, i, key);
    var k := |keys|;
    if i == k {
      assert more[..k] == keys;
    } else {
      assert more[..k] == InsertAt(keys[..k - 1], i, key) && more[k] == keys[k - 1];
      InsertedSize(keys[..k - 1], i, key);
    }
  }

  lemma {:induction false} SizeCounts(keys: seq<Bytes>)
    ensures |keys| <= LeafSize(keys)
  {
    if keys != [] {
      SizeCounts(keys[..|keys| - 1]);
    }
  }

  lemma BehindIsAbove(keys: seq<Bytes>, key: Bytes, i: nat, j: nat)
    requires SortedKeys(keys) && InsertionPoint(keys, key, i) && i < j < |keys|
    ensures Rank(key) < Rank(keys[j])
  {
    hide Rank;
    assert Rank(keys[i]) < Rank(keys[j]);
  }

  lemma KeyIsAt(keys: seq<Bytes>, key: Bytes, i: nat)
    requires SortedKeys(keys) && InsertionPoint(keys, key, i) && key in keys
    ensures i < |keys| && keys[i] == key
  {
    hide Rank;
    var j :| 0 <= j < |keys| && keys[j] == key;
    if i < j {
      BehindIsAbove(keys, key, i, j);
    }
  }

  /** The leaf with the entry can be stored if there is room for it. */
  lemma TakenIsStorable(n: Node, key: Bytes, i: nat, v: Ref)
    requires n.Leaf? && Storable(n) && SortedKeys(n.keys) && InsertionPoint(n.keys, key, i) && RefFits(v)
    requires LeafSize(n.keys) + (if key in n.keys then 0 else 11 + |key|) <= PAYLOAD_SIZE
    ensures Storable(Upserted(n, i, key, v))
  {
    hide LeafSize, SortedKeys, Rank, InsertAt;
    if key in n.keys {
      KeyIsAt(n.keys, key, i);
      ReplaceKeepsKeys(n, i, key, v);
      forall u | u in n.values[i := v] ensures RefFits(u) {
        assert u == v || u in n.values;
      }
    } else {
      InsertedSize(n.keys, i, key);
      SizeCounts(InsertAt(n.keys, i, key));
      forall u | u in InsertAt<Ref>(n.values, i, v) ensures RefFits(u) {
        InsertedElement<Ref>(n.values, i, v, u);
      }
    }
  }

  lemma FirstIsStorable(key: Bytes, v: Ref)
    requires 11 + |key| <= PAYLOAD_SIZE && RefFits(v)
    ensures Storable(Leaf([key], [v], 0, [false]))
  {
    assert [key][..0] == [];
  }

  lemma LeafPartStorable(n: Node, a: nat, b: nat, next: nat, w: nat)
    requires n.Leaf? && Shaped(n) && FieldsFit(n) && Uniform(n.keys, w) && a <= b <= |n.keys| && next < U32_LIMIT
    requires (|n.keys| - 1) * (11 + w) <= PAYLOAD_SIZE && b - a < |n.keys|
    ensures Storable(Leaf(n.keys[a..b], n.values[a..b], next, n.tombs[a..b])) && Uniform(n.keys[a..b], w)
  {
    hide InnerSize, LeafSize;
    MulMonotone(b - a, |n.keys| - 1, 11 + w);
    UniformPart(n.keys, a, b, w);
    var part := n.values[a..b];
    forall u | u in part ensures RefFits(u) {
      assert u in n.values;
    }
    UniformSizes(n.keys[a..b], w);
  }

  lemma LeafHalvesStorable(n: Node, mid: nat, right: nat, w: nat)
    requires n.Leaf? && Shaped(n) && FieldsFit(n) && Uniform(n.keys, w) && 0 < mid < |n.keys| && right < U32_LIMIT
    requires (|n.keys| - 1) * (11 + w) <= PAYLOAD_SIZE
    ensures Storable(Leaf(n.keys[..mid], n.values[..mid], right, n.tombs[..mid])) && Uniform(n.keys[..mid], w)
    ensures Storable(Leaf(n.keys[mid..], n.values[mid..], n.next, n.tombs[mid..])) && Uniform(n.keys[mid..], w)
    ensures |n.keys[mid]| == w
  {
    hide Storable, FieldsFit;
    LeafPartStorable(n, 0, mid, right, w);
    LeafNextFits(n);
    LeafPartStorable(n, mid, |n.keys|, n.next, w);
    assert n.keys[0..mid] == n.keys[..mid] && n.values[0..mid] == n.values[..mid] && n.tombs[0..mid] == n.tombs[..mid];
    assert n.keys[mid..|n.keys|] == n.keys[mid..] && n.values[mid..|n.keys|] == n.values[mid..];
    assert n.tombs[mid..|n.keys|] == n.tombs[mid..];
    assert n.keys[mid] in n.keys;
  }

  lemma LeafNextFits(n: Node)
    requires n.Leaf? && FieldsFit(n)
    ensures n.next < U32_LIMIT
  {
  }

  class BTree {
    const pager: Pager
    var root: Option<nat>
    ghost var shape: Shape
    ghost var contents: Contents

    ghost predicate Valid()
      reads this, pager
    {
      && pager.Valid()
      && root == shape.root
      && shape.node.Keys <= pager.live
      && Holding(pager.pages, shape, contents, None)
    }

    constructor (pager: Pager)
      requires pager.Valid()
      ensures Valid() && this.pager == pager && root == None && contents == map[] && shape.node == map[]
    {
      this.pager := pager;
      root := None;
      shape := Shape(None, map[], map[]);
      contents := map[];
    }

    /** `__deepcopy__`: a tree of its own with the same root. */
    constructor CopyOf(t: BTree)
      ensures pager == t.pager && root == t.root && shape == t.shape && contents == t.contents
    {
      pager, root := t.pager, t.root;
      shape, contents := t.shape, t.contents;
    }

    method ReadNode(pid: nat, ghost n: Node) returns (r: Node)
      requires StoredAt(pager.pages, pid, n)
      ensures r == n
    {
      hide Storable, LeafPage, InnerPage;
      var page := pager.Read(pid);
      StoredDecodes(n);
      if page[0] == NODE_TYPE_INTERNAL {
        var d := DeserializeInner(page);
        r := d.value;
      } else {
        var d := DeserializeLeaf(page);
        r := d.value;
      }
    }

    static lemma StoredDecodes(n: Node)
      requires Storable(n)
      ensures if n.Leaf? then LeafOf(ImageOf(n)) == Some(n) else InnerOf(ImageOf(n)) == Some(n)
    {
      hide LeafPage, InnerPage, LeafOf, InnerOf;
      if n.Leaf? {
        LeafRoundTrip(n);
      } else {
        InnerRoundTrip(n);
      }
    }

    /** `serialize` followed by `write_page`. */
    method StoreNode(pid: nat, n: Node) returns (r: Storing)
      requires pager.Valid() && pid in pager.live && Shaped(n)
      modifies pager
      ensures pager.Valid() && pager.live == old(pager.live) && pager.nextPageId == old(pager.nextPageId)
      ensures r.Stowed? ==> Storable(n) && pager.pages == old(pager.pages)[pid := ImageOf(n)]
      ensures !r.Stowed? ==> pager.pages == old(pager.pages)
      ensures r.Overfull? ==> (if n.Leaf? then LeafSize(n.keys) else InnerSize(n.keys)) > PAYLOAD_SIZE
      ensures r.Failed? && FieldsFit(n) ==> n.Inner? && InnerSize(n.keys) <= PAYLOAD_SIZE < InnerSize(n.keys) + 4
    {
      hide LeafPage, InnerPage, LeafSize, InnerSize, FieldsFit, Consistent;
      var image: Image;
      if n.Leaf? {
        image := SerializeLeaf(n);
      } else {
        image := SerializeInner(n);
      }
      match image
      case Overflow => return Overfull;
      case BadField => return Failed;
      case Page(data) =>
        var ok := pager.WritePage(pid, data);
        return if ok then Stowed else Failed;
    }

    static method BisectLeft(keys: seq<Bytes>, key: Bytes) returns (lo: nat)
      requires SortedKeys(keys)
      ensures InsertionPoint(keys, key, lo)
    {
      hide Rank;
      lo := 0;
      var hi := |keys|;
      while lo < hi
        invariant lo <= hi <= |keys|
        invariant forall j :: 0 <= j < lo ==> Rank(keys[j]) < Rank(key)
        invariant forall j :: hi <= j < |keys| ==> Rank(key) <= Rank(keys[j])
      {
        var mid := (lo + hi) / 2;
        if LexLess(keys[mid], key) {
          lo := mid + 1;
        } else {
          hi := mid;
        }
      }
    }

    static method BisectRight(keys: seq<Bytes>, key: Bytes) returns (lo: nat)
      requires SortedKeys(keys)
      ensures lo <= |keys|
      ensures forall j :: 0 <= j < lo ==> Rank(keys[j]) <= Rank(key)
      ensures forall j :: lo <= j < |keys| ==> Rank(key) < Rank(keys[j])
    {
      hide Rank;
      lo := 0;
      var hi := |keys|;
      while lo < hi
        invariant lo <= hi <= |keys|
        invariant forall j :: 0 <= j < lo ==> Rank(keys[j]) <= Rank(key)
        invariant forall j :: hi <= j < |keys| ==> Rank(key) < Rank(keys[j])
      {
        var mid := (lo + hi) / 2;
        if !LexLess(key, keys[mid]) {
          lo := mid + 1;
        } else {
          hi := mid;
        }
      }
    }

    /** The one leaf whose interval holds the key. */
    method DescendToLeaf(key: Bytes) returns (pid: nat, leaf: Node)
      requires Valid() && root.Some?
      ensures pid in shape.node && leaf == shape.node[pid] && leaf.Leaf? && Holds(shape.place[pid], Rank(key))
    {
      hide Rank, Storable, ImageOf, LevelsDisjoint, Agrees, Consistent;
      assert Holding(pager.pages, shape, contents, None);
      pid := root.value;
      var node := ReadNode(pid, shape.node[pid]);
      while node.Inner?
        invariant pid in shape.node && pid in shape.place && node == shape.node[pid] && Holds(shape.place[pid], Rank(key))
        decreases shape.place[pid].ht
      {
        assert NodeOk(node, shape.place[pid], shape.place);
        var i := BisectRight(node.keys, key);
        ChildHolds(shape, pid, Rank(key), i);
        pid := node.children[i];
        node := ReadNode(pid, shape.node[pid]);
      }
      leaf := node;
    }

    /** The live value of the key. */
    method Search(key: Bytes) returns (r: Option<Ref>)
      requires Valid()
      ensures r == Lookup(contents, key)
    {
      hide Rank, Storable, ImageOf, LevelsDisjoint, Consistent;
      if root.None? {
        return None;
      }
      var pid, leaf := DescendToLeaf(key);
      assert NodeOk(leaf, shape.place[pid], shape.place);
      var i := BisectLeft(leaf.keys, key);
      if i < |leaf.keys| && leaf.keys[i] == key && !leaf.tombs[i] {
        return Some(leaf.values[i]);
      }
      if !(i < |leaf.keys| && leaf.keys[i] == key) {
        AbsentHere(leaf, shape.place[pid], shape.place, i, key, contents);
      }
      return None;
    }

    /** Add the separator of a split to the parent, splitting upwards as long as needed.
        `up` and `at` name the parent and the child index the search will find. */
    method InsertIntoParent(left: nat, key: Bytes, right: nat, ghost up: nat, ghost at: nat, ghost w: Option<nat>)
      returns (o: Outcome)
      requires pager.Valid() && root == shape.root
      requires Dangling(shape, left, key, right, up, at) && Agrees(shape, contents)
      requires shape.node.Keys <= pager.live && Mirrors(pager.pages, shape, None)
      requires w.Some? ==> CarefulSplit(shape, left, key, right, w.value, pager.nextPageId)
      modifies this, pager
      ensures pager.Valid() && old(pager.live) <= pager.live && old(pager.nextPageId) <= pager.nextPageId
      ensures forall p :: p in old(pager.live) && p !in old(shape.node) ==> pager.Read(p) == old(pager.Read(p))
      ensures pager.nextPageId <= old(pager.nextPageId + (Height(shape) - shape.place[left].ht) + 1)
      ensures o.Done? ==> Height(shape) <= old(Height(shape)) + 1
      ensures o.Done? ==> Valid() && contents == old(contents) && old(shape.node).Keys <= shape.node.Keys
      ensures o.Done? ==> Grown(old(pager.live), pager.live, old(shape.node.Keys), shape.node.Keys)
      ensures w.Some? ==> o.Done? && AllUniform(shape, w.value)
      decreases Height(shape) - shape.place[left].ht, 0
    {
      hide Rank, Storable, ImageOf, Consistent, Agrees, Mirrors, Holding, InsertAt, GoodWidth, Uniform, Dangling,
        NewRoot, AllUniform;
      DanglingFacts(shape, left, key, right, up, at);
      if root == Some(left) {
        o := GrowRoot(left, key, right, up, at, w);
        return;
      }
      var pid, parent := FindParent(left, key, right, up, at);
      GapFound(shape, left, key, right, up, at);
      var i := BisectLeft(parent.keys, key);
      SameCut(parent.keys, key, i, at);
      var adopted := Inner(InsertAt<Bytes>(parent.keys, i, key), InsertAt<nat>(parent.children, i + 1, right));
      GapIsFilled(pager.pages, shape, contents, left, key, right, up, at, adopted);
      if w.Some? {
        StoredIsStorable(pager.pages, shape, None, up);
        RegularAt(shape, up, w.value);
        AdoptFieldsFit(parent, at, key, right, w.value);
        UniformGuardSuffices(adopted.keys, w.value);
        RegularFill(shape, up, adopted, w.value);
      }
      shape := shape.(node := shape.node[up := adopted]);
      var r := StoreNode(pid, adopted);
      match r {
        case Failed =>
          return Raised;
        case Stowed =>
          NowHeld(old(pager.pages), shape, contents, up, adopted);
          return Done;
        case Overfull =>
          OverfullHasKeys(adopted.keys);
          o := SplitInner(pid, adopted, w);
      }
    }

    /** The split node was the root: a new root takes both halves. */
    method GrowRoot(left: nat, key: Bytes, right: nat, ghost up: nat, ghost at: nat, ghost w: Option<nat>)
      returns (o: Outcome)
      requires pager.Valid() && root == shape.root
      requires Dangling(shape, left, key, right, up, at) && Agrees(shape, contents) && root == Some(left)
      requires shape.node.Keys <= pager.live && Mirrors(pager.pages, shape, None)
      requires w.Some? ==> CarefulSplit(shape, left, key, right, w.value, pager.nextPageId)
      modifies this, pager
      ensures pager.Valid() && old(pager.live) <= pager.live && old(pager.nextPageId) <= pager.nextPageId
      ensures forall p :: p in old(pager.live) && p !in old(shape.node) ==> pager.Read(p) == old(pager.Read(p))
      ensures pager.nextPageId <= old(pager.nextPageId) + 1
      ensures o.Done? ==> Height(shape) <= old(Height(shape)) + 1
      ensures o.Done? ==> Valid() && contents == old(contents) && old(shape.node).Keys <= shape.node.Keys
      ensures o.Done? ==> Grown(old(pager.live), pager.live, old(shape.node.Keys), shape.node.Keys)
      ensures w.Some? ==> o.Done? && AllUniform(shape, w.value)
    {
      hide Rank, Storable, ImageOf, Consistent, Agrees, Mirrors, Holding, GoodWidth, Uniform, Dangling, AllUniform, NewRoot;
      DanglingFacts(shape, left, key, right, up, at);
      var top := pager.AllocPage();
      var internal := Inner([key], [left, right]);
      if w.Some? {
        NewRootStorable(key, left, right, w.value);
      }
      var r := StoreNode(top, internal);
      if !r.Stowed? {
        return Raised;
      }
      TopIsHeld(old(pager.pages), pager.pages, shape, contents, left, key, right, up, at, top);
      if w.Some? {
        RegularTop(shape, left, key, right, top, w.value);
      }
      NewRootIsHigher(shape, left, key, right, top);
      shape := NewRoot(shape, left, key, right, top);
      root := Some(top);
      return Done;
    }

    /** Descend on the separator until the split node is the next child: this is always its parent. */
    method FindParent(left: nat, key: Bytes, right: nat, ghost up: nat, ghost at: nat) returns (pid: nat, parent: Node)
      requires root == shape.root && Dangling(shape, left, key, right, up, at) && left != root.value
      requires Mirrors(pager.pages, shape, None)
      ensures pid == up && parent == shape.node[up]
    {
      hide Rank, Storable, ImageOf, LevelsDisjoint, InsertAt, NodeOk, SortedKeys, Dangling;
      DanglingRoot(shape, left, key, right, up, at);
      pid := root.value;
      var node := ReadNode(pid, shape.node[pid]);
      while node.Inner?
        invariant pid in shape.node && pid in shape.place && node == shape.node[pid]
        invariant Holds(shape.place[pid], Rank(key)) && shape.place[pid].ht > shape.place[left].ht
        decreases shape.place[pid].ht
      {
        OnTheWay(shape, left, key, right, up, at, pid);
        var i := BisectRight(node.keys, key);
        NextOnTheWay(shape, left, key, right, up, at, pid, i);
        var child := node.children[i];
        if child == left {
          return pid, node;
        }
        pid := child;
        node := ReadNode(pid, shape.node[pid]);
      }
      OnTheWay(shape, left, key, right, up, at, pid);
      assert false;
    }

    /** The left half stays in its page, the right one goes to a new page. */
    method StoreInnerHalves(pid: nat, l: Node, r: Node) returns (ok: bool, rightPid: nat)
      requires pager.Valid() && pid in pager.live && l.Inner? && r.Inner? && Shaped(l) && Shaped(r)
      modifies pager
      ensures pager.Valid() && old(pager.live) <= pager.live && old(pager.nextPageId) <= pager.nextPageId
      ensures forall p :: p in old(pager.live) && p != pid ==> pager.Read(p) == old(pager.Read(p))
      ensures ok ==> StoredAt(pager.pages, pid, l) && StoredAt(pager.pages, rightPid, r)
      ensures ok ==> rightPid !in old(pager.live) && rightPid >= 2 && pager.live == old(pager.live) + {rightPid}
      ensures forall p :: p in old(pager.live) && p != pid && p in old(pager.pages) ==>
        p in pager.pages && pager.pages[p] == old(pager.pages)[p]
      ensures Storable(l) && Storable(r) ==> ok
      ensures pager.nextPageId <= old(pager.nextPageId) + 1
      ensures ok ==> rightPid < U32_LIMIT || rightPid == old(pager.nextPageId)
    {
      hide ImageOf, Consistent;
      rightPid := 0;
      var done := StoreNode(pid, l);
      if !done.Stowed? {
        return false, 0;
      }
      var pages1 := pager.pages;
      rightPid := pager.AllocPage();
      var pages2 := pager.pages;
      assert forall p :: p in old(pager.live) && p in pages1 ==> p in pages2 && pages2[p] == pages1[p] by {
        assert forall p :: p in old(pager.live) ==> pager.Read(p) == if p in pages1 then pages1[p] else Zeros(PAGE_SIZE);
      }
      done := StoreNode(rightPid, r);
      ok := done.Stowed?;
    }

    /** Cut an overfull inner node around its median key, which moves up. */
    method SplitInner(pid: nat, n: Node, ghost w: Option<nat>) returns (o: Outcome)
      requires pager.Valid() && root == shape.root
      requires pid in shape.node && pid in shape.place && shape.node[pid] == n && n.Inner? && n.keys != []
      requires shape.node.Keys <= pager.live && Holding(pager.pages, shape, contents, Some(pid))
      requires w.Some? ==>
        && AllUniform(shape, w.value) && GoodWidth(w.value) && FieldsFit(n) && pid < U32_LIMIT
        && (|n.keys| - 1) * (6 + w.value) + 4 <= PAYLOAD_SIZE
        && pager.nextPageId + (Height(shape) - shape.place[pid].ht) + 2 <= U32_LIMIT
      modifies this, pager
      ensures pager.Valid() && old(pager.live) <= pager.live && old(pager.nextPageId) <= pager.nextPageId
      ensures forall p :: p in old(pager.live) && p !in old(shape.node) ==> pager.Read(p) == old(pager.Read(p))
      ensures pager.nextPageId <= old(pager.nextPageId + (Height(shape) - shape.place[pid].ht) + 2)
      ensures o.Done? ==> Height(shape) <= old(Height(shape)) + 1
      ensures o.Done? ==> Valid() && contents == old(contents) && old(shape.node).Keys <= shape.node.Keys
      ensures o.Done? ==> Grown(old(pager.live), pager.live, old(shape.node.Keys), shape.node.Keys)
      ensures w.Some? ==> o.Done? && AllUniform(shape, w.value)
      decreases Height(shape) - shape.place[pid].ht, 1
    {
      hide Rank, Storable, ImageOf, Consistent, Agrees, Mirrors, Holding, GoodWidth, Uniform, Dangling, AllUniform,
        CarefulSplit, Split, Height;
      ShapedInner(pager.pages, shape, contents, Some(pid), pid);
      var mid := |n.keys| / 2;
      var promoted := n.keys[mid];
      var l, r := Inner(n.keys[..mid], n.children[..mid + 1]), Inner(n.keys[mid + 1..], n.children[mid + 1..]);
      if w.Some? {
        RegularAt(shape, pid, w.value);
        HalvesStorable(n, mid, w.value);
      }
      var ok, rightPid := StoreInnerHalves(pid, l, r);
      if !ok {
        return Raised;
      }
      ghost var up, at := CutIsHeld(old(pager.pages), pager.pages, shape, contents, pid, mid, rightPid);
      if w.Some? {
        RegularCut(shape, pid, l, promoted, rightPid, r, w.value, pager.nextPageId);
      }
      shape := Split(shape, pid, l, promoted, rightPid, r);
      o := InsertIntoParent(pid, promoted, rightPid, up, at, w);
    }

    /** Upsert.  When it returns normally the tree holds the old map with `key` set to
        `value`, whatever the keys, and has taken two pages more than its height at most. It does so
        when the leaf has room, and, with keys of one good width, 32-bit references and page ids
        left, always.  Pages that are not the tree's keep their bytes. */
    method Insert(key: Bytes, value: Ref, ghost w: Option<nat>) returns (o: Outcome)
      requires Valid()
      requires w.Some? ==>
        && AllUniform(shape, w.value) && |key| == w.value && GoodWidth(w.value) && RefFits(value)
        && pager.nextPageId + Height(shape) + 2 <= U32_LIMIT
      modifies this, pager
      ensures pager.Valid() && old(pager.live) <= pager.live && old(pager.nextPageId) <= pager.nextPageId
      ensures forall p :: p in old(pager.live) && p !in old(shape.node) ==> pager.Read(p) == old(pager.Read(p))
      ensures pager.nextPageId <= old(pager.nextPageId + Height(shape)) + 2
      ensures o.Done? ==> Height(shape) <= old(Height(shape)) + 1
      ensures o.Done? ==> Valid() && contents == old(contents)[key := value] && old(shape.node).Keys <= shape.node.Keys
      ensures o.Done? ==> Grown(old(pager.live), pager.live, old(shape.node.Keys), shape.node.Keys)
      ensures w.Some? ==> o.Done? && AllUniform(shape, w.value)
      ensures RefFits(value) && old(LeafTakes(shape, key)) ==> o.Done?
    {
      hide Rank, Storable, ImageOf, Consistent, NodeOk, LeafAgrees, Uniform, InsertAt, GoodWidth, Holding, Upserted, LeafTakes, LeafSize, RefFits;
      ghost var takes := RefFits(value) && LeafTakes(shape, key);
      if root.None? {
        EmptyTakes(shape, key);
        o := InsertFirst(key, value, w);
        return;
      }
      var pid, leaf := DescendToLeaf(key);
      LeafFacts(pager.pages, shape, contents, pid);
      var i := BisectLeft(leaf.keys, key);
      var next := leaf;
      if i < |leaf.keys| && leaf.keys[i] == key {
        next := Leaf(leaf.keys[i := key], leaf.values[i := value], leaf.next, leaf.tombs[i := false]);
      } else {
        next := Leaf(InsertAt(leaf.keys, i, key), InsertAt(leaf.values, i, value), leaf.next, InsertAt(leaf.tombs, i, false));
      }
      UpsertIs(leaf, i, key, value, next);
      UpsertedOk(leaf, shape.place[pid], shape.place, i, key, value);
      UpsertedAgrees(leaf, shape.place[pid], shape.place, i, key, value, contents);
      LeafIsRewritten(pager.pages, shape, contents, pid, next, key, contents[key := value]);
      if takes {
        LeafHasRoom(shape, pid, key);
        TakenIsStorable(leaf, key, i, value);
        StorableMeans(next);
      }
      if w.Some? {
        RegularAt(shape, pid, w.value);
        UpsertFieldsFit(leaf, i, key, value, w.value);
        RegularFill(shape, pid, next, w.value);
      }
      shape, contents := shape.(node := shape.node[pid := next]), contents[key := value];
      var r := StoreNode(pid, next);
      match r {
        case Failed => return Raised;
        case Stowed =>
          NowHeld(old(pager.pages), shape, contents, pid, next);
          return Done;
        case Overfull =>
          OverflowByInsert(leaf, i, key, value);
          o := SplitLeaf(pid, next, w);
      }
    }

    static lemma EmptyTakes(s: Shape, key: Bytes)
      requires s.root.None?
      ensures LeafTakes(s, key) <==> 11 + |key| <= PAYLOAD_SIZE
    {
    }

    static lemma LeafHasRoom(s: Shape, p: nat, key: Bytes)
      requires LeafTakes(s, key) && s.root.Some? && p in s.node && p in s.place && s.node[p].Leaf? && Holds(s.place[p], Rank(key))
      ensures LeafSize(s.node[p].keys) + (if key in s.node[p].keys then 0 else 11 + |key|) <= PAYLOAD_SIZE
    {
    }

    static lemma UpsertIs(leaf: Node, i: nat, key: Bytes, value: Ref, next: Node)
      requires leaf.Leaf? && Shaped(leaf) && i <= |leaf.keys|
      requires next == if i < |leaf.keys| && leaf.keys[i] == key then
        Leaf(leaf.keys[i := key], leaf.values[i := value], leaf.next, leaf.tombs[i := false])
        else Leaf(InsertAt(leaf.keys, i, key), InsertAt(leaf.values, i, value), leaf.next, InsertAt(leaf.tombs, i, false))
      ensures next == Upserted(leaf, i, key, value)
    {
    }

    /** The tree was empty: one leaf with one entry. */
    method InsertFirst(key: Bytes, value: Ref, ghost w: Option<nat>) returns (o: Outcome)
      requires Valid() && root.None?
      requires w.Some? ==> |key| == w.value && GoodWidth(w.value) && RefFits(value) && pager.nextPageId < U32_LIMIT
      modifies this, pager
      ensures pager.Valid() && old(pager.live) <= pager.live && old(pager.nextPageId) <= pager.nextPageId
      ensures forall p :: p in old(pager.live) && p !in old(shape.node) ==> pager.Read(p) == old(pager.Read(p))
      ensures pager.nextPageId <= old(pager.nextPageId) + 1
      ensures o.Done? ==> Height(shape) <= 1
      ensures o.Done? ==> Valid() && contents == old(contents)[key := value] && old(shape.node).Keys <= shape.node.Keys
      ensures o.Done? ==> Grown(old(pager.live), pager.live, old(shape.node.Keys), shape.node.Keys)
      ensures w.Some? ==> o.Done? && AllUniform(shape, w.value)
      ensures RefFits(value) && 11 + |key| <= PAYLOAD_SIZE ==> o.Done?
    {
      hide Rank, Storable, ImageOf, Consistent, NodeOk, LeafAgrees, Uniform, GoodWidth, RefFits, LeafSize, FieldsFit, AllUniform, Holding;
      EmptyHolds(pager.pages, shape, contents, key);
      EmptyShape(pager.pages, shape, contents);
      assert shape.node == map[] && contents == map[];
      var pid := pager.AllocPage();
      var leaf := Leaf([key], [value], 0, [false]);
      if w.Some? {
        FirstLeafStorable(key, value, w.value);
      }
      if RefFits(value) && 11 + |key| <= PAYLOAD_SIZE {
        FirstIsStorable(key, value);
        StorableMeans(leaf);
      }
      var r := StoreNode(pid, leaf);
      if !r.Stowed? {
        return Raised;
      }
      FirstLeafIsHeld(pager.pages, pid, leaf, key, value);
      shape := Shape(Some(pid), map[pid := leaf], map[pid := Place(0.0, 1.0, 0)]);
      root, contents := Some(pid), map[key := value];
      if w.Some? {
        OneLeafUniform(shape, pid, w.value);
      }
      return Done;
    }

    static lemma OneLeafUniform(s: Shape, pid: nat, w: nat)
      requires s.node.Keys == {pid} && pid < U32_LIMIT && Uniform(s.node[pid].keys, w)
      ensures AllUniform(s, w)
    {
    }

    static lemma EmptyShape(pages: map<nat, Bytes>, s: Shape, c: Contents)
      requires Holding(pages, s, c, None) && s.root.None?
      ensures s.node == map[] && c == map[]
    {
    }

    static lemma FirstLeafStorable(key: Bytes, value: Ref, w: nat)
      requires |key| == w && GoodWidth(w) && RefFits(value)
      ensures Storable(Leaf([key], [value], 0, [false])) && Uniform([key], w)
    {
      UniformSizes([key], w);
    }

    /** Cut an overfull leaf in the middle and chain the right half after the left one. */
    method SplitLeaf(pid: nat, n: Node, ghost w: Option<nat>) returns (o: Outcome)
      requires pager.Valid() && root == shape.root
      requires pid in shape.node && pid in shape.place && shape.node[pid] == n && n.Leaf? && Shaped(n) && |n.keys| >= 2
      requires shape.node.Keys <= pager.live && Holding(pager.pages, shape, contents, Some(pid))
      requires w.Some? ==>
        && AllUniform(shape, w.value) && GoodWidth(w.value) && FieldsFit(n)
        && (|n.keys| - 1) * (11 + w.value) <= PAYLOAD_SIZE
        && pager.nextPageId + Height(shape) + 2 <= U32_LIMIT
      modifies this, pager
      ensures pager.Valid() && old(pager.live) <= pager.live && old(pager.nextPageId) <= pager.nextPageId
      ensures forall p :: p in old(pager.live) && p !in old(shape.node) ==> pager.Read(p) == old(pager.Read(p))
      ensures pager.nextPageId <= old(pager.nextPageId + Height(shape)) + 2
      ensures o.Done? ==> Height(shape) <= old(Height(shape)) + 1
      ensures o.Done? ==> Valid() && contents == old(contents) && old(shape.node).Keys <= shape.node.Keys
      ensures o.Done? ==> Grown(old(pager.live), pager.live, old(shape.node.Keys), shape.node.Keys)
      ensures w.Some? ==> o.Done? && AllUniform(shape, w.value)
    {
      hide Rank, Storable, ImageOf, Consistent, Agrees, Mirrors, Holding, GoodWidth, Uniform, Dangling, AllUniform,
        CarefulSplit, Split, Height, FieldsFit;
      var mid := |n.keys| / 2;
      ShapedInner(pager.pages, shape, contents, Some(pid), pid);
      if w.Some? {
        RegularAt(shape, pid, w.value);
      }
      var ok, rightPid := StoreLeafHalves(pid, n, mid, w);
      if !ok {
        return Raised;
      }
      var l := Leaf(n.keys[..mid], n.values[..mid], rightPid, n.tombs[..mid]);
      var r := Leaf(n.keys[mid..], n.values[mid..], n.next, n.tombs[mid..]);
      var promoted := n.keys[mid];
      assert promoted == r.keys[0];
      ghost var up, at := CutLeafIsHeld(old(pager.pages), pager.pages, shape, contents, pid, mid, rightPid);
      if w.Some? {
        LeafHalvesStorable(n, mid, rightPid, w.value);
        RegularCut(shape, pid, l, promoted, rightPid, r, w.value, pager.nextPageId);
      }
      shape := Split(shape, pid, l, promoted, rightPid, r);
      o := InsertIntoParent(pid, promoted, rightPid, up, at, w);
    }

    /** The new right page is allocated first, because the left half must point to it. */
    method StoreLeafHalves(pid: nat, n: Node, mid: nat, ghost w: Option<nat>) returns (ok: bool, rightPid: nat)
      requires pager.Valid() && pid in pager.live && n.Leaf? && Shaped(n) && 0 < mid < |n.keys|
      requires w.Some? ==> Uniform(n.keys, w.value) && FieldsFit(n) && pager.nextPageId < U32_LIMIT
                           && (|n.keys| - 1) * (11 + w.value) <= PAYLOAD_SIZE
      modifies pager
      ensures pager.Valid() && old(pager.live) <= pager.live && old(pager.nextPageId) <= pager.nextPageId
      ensures forall p :: p in old(pager.live) && p != pid ==> pager.Read(p) == old(pager.Read(p))
      ensures ok ==> StoredAt(pager.pages, pid, Leaf(n.keys[..mid], n.values[..mid], rightPid, n.tombs[..mid]))
      ensures ok ==> StoredAt(pager.pages, rightPid, Leaf(n.keys[mid..], n.values[mid..], n.next, n.tombs[mid..]))
      ensures ok ==> rightPid !in old(pager.live) && rightPid >= 2 && pager.live == old(pager.live) + {rightPid}
      ensures forall p :: p in old(pager.live) && p != pid && p in old(pager.pages) ==>
        p in pager.pages && pager.pages[p] == old(pager.pages)[p]
      ensures w.Some? ==> ok && rightPid < U32_LIMIT
      ensures pager.nextPageId <= old(pager.nextPageId) + 1
    {
      hide Storable, ImageOf, Consistent, FieldsFit, Uniform;
      var originalNext := n.next;
      rightPid := pager.AllocPage();
      var pages1 := pager.pages;
      assert forall p :: p in old(pager.live) && p in old(pager.pages) ==> p in pages1 && pages1[p] == old(pager.pages)[p] by {
        assert forall p :: p in old(pager.live) ==> pager.Read(p) == if p in pages1 then pages1[p] else Zeros(PAGE_SIZE);
      }
      if w.Some? {
        LeafHalvesStorable(n, mid, rightPid, w.value);
      }
      var done := StoreNode(pid, Leaf(n.keys[..mid], n.values[..mid], rightPid, n.tombs[..mid]));
      if !done.Stowed? {
        if w.Some? { StorableMeans(Leaf(n.keys[..mid], n.values[..mid], rightPid, n.tombs[..mid])); }
        return false, rightPid;
      }
      done := StoreNode(rightPid, Leaf(n.keys[mid..], n.values[mid..], originalNext, n.tombs[mid..]));
      if w.Some? {
        StorableMeans(Leaf(n.keys[mid..], n.values[mid..], n.next, n.tombs[mid..]));
      }
      ok := done.Stowed?;
    }

    static lemma StorableMeans(n: Node)
      requires Storable(n)
      ensures FieldsFit(n)
      ensures n.Leaf? ==> LeafSize(n.keys) <= PAYLOAD_SIZE
    {
    }

    /** Tombstone the entry, if there is one; the space is not reclaimed. */
    method Delete(key: Bytes)
      requires Valid()
      modifies this, pager
      ensures Valid() && contents == old(contents) - {key}
      ensures shape.node.Keys == old(shape.node.Keys) && pager.live == old(pager.live)
      ensures forall w :: old(AllUniform(shape, w)) ==> AllUniform(shape, w)
      ensures pager.nextPageId == old(pager.nextPageId) && Height(shape) == old(Height(shape))
      ensures forall p :: p in pager.live && p !in old(shape.node) ==> pager.Read(p) == old(pager.Read(p))
    {
      hide Rank, Storable, ImageOf, Consistent, NodeOk, LeafAgrees, Uniform, Holding, AllUniform;
      if root.None? {
        EmptyHolds(pager.pages, shape, contents, key);
        return;
      }
      var pid, leaf := DescendToLeaf(key);
      LeafFacts(pager.pages, shape, contents, pid);
      var i := BisectLeft(leaf.keys, key);
      if i < |leaf.keys| && leaf.keys[i] == key {
        var next := leaf.(tombs := leaf.tombs[i := true]);
        TombstoneAgrees(leaf, shape.place[pid], shape.place, i, contents);
        TombstoneKeeps(leaf, shape.place[pid], shape.place, i);
        LeafIsRewritten(pager.pages, shape, contents, pid, next, key, contents - {key});
        StorableMeans(next);
        forall w | AllUniform(shape, w) ensures AllUniform(shape.(node := shape.node[pid := next]), w) {
          RegularAt(shape, pid, w);
          RegularFill(shape, pid, next, w);
        }
        shape, contents := shape.(node := shape.node[pid := next]), contents - {key};
        var r := StoreNode(pid, next);
        NowHeld(old(pager.pages), shape, contents, pid, next);
      } else {
        AbsentHere(leaf, shape.place[pid], shape.place, i, key, contents);
        assert contents - {key} == contents;
      }
    }

    static lemma EmptyHolds(pages: map<nat, Bytes>, s: Shape, c: Contents, key: Bytes)
      requires Holding(pages, s, c, None) && s.root.None?
      ensures c - {key} == c == map[]
    {
    }

    static lemma TombstoneKeeps(n: Node, pl: Place, place: map<nat, Place>, i: nat)
      requires n.Leaf? && NodeOk(n, pl, place) && Storable(n) && i < |n.keys|
      ensures var m := n.(tombs := n.tombs[i := true]); NodeOk(m, pl, place) && Storable(m)
    {
      hide Rank, LeafSize;
    }

    /** The values of the live keys in [start, end), in key order. */
    method Range(start: Bytes, end: Bytes) returns (results: seq<Ref>)
      requires Valid()
      ensures IsRange(contents, start, end, results)
    {
      ghost var ks;
      results, ks := RangeWithKeys(start, end);
      RankedIsListed(contents, start, end, ks, results);
    }

    method RangeWithKeys(start: Bytes, end: Bytes) returns (results: seq<Ref>, ghost ks: seq<Bytes>)
      requires Valid()
      ensures ListsRanked(contents, start, end, ks, results)
    {
      hide Rank, Storable, ImageOf, Consistent, NodeOk, LeafAgrees, Holding;
      results, ks := [], [];
      if root.None? {
        EmptyHolds(pager.pages, shape, contents, start);
        return;
      }
      var leafPid, leaf := DescendToLeaf(start);
      LeafFacts(pager.pages, shape, contents, leafPid);
      ghost var bound := shape.place[leafPid].lo;
      ghost var rest := LeavesFrom(shape, bound);
      var pid := leafPid;
      NothingCollected(contents, Rank(start), Rank(end), bound);
      while pid != 0
        invariant pid != 0 ==> pid in shape.node && pid in shape.place && shape.node[pid].Leaf? && shape.place[pid].lo == bound
        invariant pid == 0 ==> bound == 1.0
        invariant Collected(contents, Rank(start), Rank(end), bound, ks)
        invariant |results| == |ks| && forall i :: 0 <= i < |ks| ==> ks[i] in contents && results[i] == contents[ks[i]]
        invariant rest == LeavesFrom(shape, bound)
        decreases rest
      {
        var node := ReadLeaf(pid);
        LeafFacts(pager.pages, shape, contents, pid);
        ghost var pl := shape.place[pid];
        var i := 0;
        while i < |node.keys|
          invariant i <= |node.keys|
          invariant Collected(contents, Rank(start), Rank(end), PrefixBound(node.keys, pl, i), ks)
          invariant |results| == |ks| && forall i :: 0 <= i < |ks| ==> ks[i] in contents && results[i] == contents[ks[i]]
        {
          var k, v, t := node.keys[i], node.values[i], node.tombs[i];
          if !LexLess(k, end) {
            CollectedAll(node, pl, shape.place, contents, Rank(start), Rank(end), i, ks);
            return;
          }
          CollectOne(node, pl, shape.place, contents, Rank(start), Rank(end), i, ks);
          if !LexLess(k, start) && !t {
            results := results + [v];
            ks := ks + [k];
          }
          i := i + 1;
        }
        NextLeafFacts(pager.pages, shape, contents, pid);
        bound := pl.hi;
        rest := LeavesFrom(shape, bound);
        pid := node.next;
      }
    }

    method ReadLeaf(pid: nat) returns (n: Node)
      requires Valid() && pid in shape.node && shape.node[pid].Leaf?
      ensures n == shape.node[pid]
    {
      hide Storable, ImageOf, Rank, WellFormed, Agrees, Consistent;
      n := ReadNode(pid, shape.node[pid]);
    }
  }

  // ---- range scans --------------------------------------------------------

  /** `ks` are the keys of `c` in [start, end), ascending, and `results` their values. */
  ghost predicate ListsRange(c: Contents, start: Bytes, end: Bytes, ks: seq<Bytes>, results: seq<Ref>) {
    && (forall i, j :: 0 <= i < j < |ks| ==> Below(ks[i], ks[j]))
    && (forall k :: k in ks <==> k in c && !Below(k, start) && Below(k, end))
    && |results| == |ks| && forall i :: 0 <= i < |ks| ==> ks[i] in c && results[i] == c[ks[i]]
  }

  /** The same by ranks. */
  ghost predicate ListsRanked(c: Contents, start: Bytes, end: Bytes, ks: seq<Bytes>, results: seq<Ref>) {
    && SortedKeys(ks) && (forall k :: k in ks <==> k in c && Rank(start) <= Rank(k) < Rank(end))
    && |results| == |ks| && forall i :: 0 <= i < |ks| ==> ks[i] in c && results[i] == c[ks[i]]
  }

  lemma RankIsOrder(a: Bytes, b: Bytes)
    ensures Rank(a) < Rank(b) <==> Below(a, b)
  {
    hide Rank;
    LexLessIsBelow(a, b);
    assert LexLess(a, b) <==> Rank(a) < Rank(b);
  }

  lemma RankedIsListed(c: Contents, start: Bytes, end: Bytes, ks: seq<Bytes>, results: seq<Ref>)
    requires ListsRanked(c, start, end, ks, results)
    ensures ListsRange(c, start, end, ks, results)
  {
    hide Rank, Below;
    forall i, j | 0 <= i < j < |ks| ensures Below(ks[i], ks[j]) {
      RankIsOrder(ks[i], ks[j]);
    }
    forall k ensures k in ks <==> k in c && !Below(k, start) && Below(k, end) {
      RankIsOrder(k, start);
      RankIsOrder(k, end);
    }
  }

  /** The values of the keys in [start, end), in the order of `bytes`. */
  ghost predicate IsRange(c: Contents, start: Bytes, end: Bytes, results: seq<Ref>) {
    exists ks :: ListsRange(c, start, end, ks, results)
  }

  /** `ks` are, in order, the keys of `c` in [lo, hi) below `bound`. */
  ghost predicate Collected(c: Contents, lo: real, hi: real, bound: real, ks: seq<Bytes>) {
    SortedKeys(ks) && forall k :: k in ks <==> k in c && lo <= Rank(k) < hi && Rank(k) < bound
  }

  /** Everything of the leaf below its `i`-th key has been looked at. */
  function PrefixBound(keys: seq<Bytes>, pl: Place, i: nat): real
    requires i <= |keys|
  {
    if i == 0 then pl.lo else if i == |keys| then pl.hi else Rank(keys[i])
  }

  ghost function LeavesFrom(s: Shape, r: real): set<nat> {
    set p | p in s.place && s.place[p].ht == 0 && s.place[p].lo >= r
  }

  /** Keys of the map inside a leaf's interval are entries of the leaf. */
  lemma OnlyEntries(n: Node, pl: Place, place: map<nat, Place>, c: Contents, i: nat, k: Bytes)
    requires n.Leaf? && NodeOk(n, pl, place) && LeafAgrees(n, pl, c) && i < |n.keys|
    requires k in c && PrefixBound(n.keys, pl, i) <= Rank(k) < PrefixBound(n.keys, pl, i + 1)
    ensures k == n.keys[i] && !n.tombs[i]
  {
    hide Rank;
    assert pl.lo <= PrefixBound(n.keys, pl, i) && PrefixBound(n.keys, pl, i + 1) <= pl.hi;
    var j :| 0 <= j < |n.keys| && n.keys[j] == k;
    KeysInOrder(n.keys, i, j);
  }

  lemma KeysInOrder(keys: seq<Bytes>, i: nat, j: nat)
    requires SortedKeys(keys) && i < |keys| && j < |keys|
    ensures j < i ==> Rank(keys[j]) < Rank(keys[i])
    ensures j > i ==> i + 1 < |keys| && Rank(keys[i + 1]) <= Rank(keys[j])
  {
    hide Rank;
  }

  lemma NothingCollected(c: Contents, lo: real, hi: real, bound: real)
    requires bound <= lo
    ensures Collected(c, lo, hi, bound, [])
  {
    hide Rank;
  }

  lemma CollectOne(n: Node, pl: Place, place: map<nat, Place>, c: Contents, lo: real, hi: real, i: nat, ks: seq<Bytes>)
    requires n.Leaf? && NodeOk(n, pl, place) && LeafAgrees(n, pl, c) && i < |n.keys|
    requires Collected(c, lo, hi, PrefixBound(n.keys, pl, i), ks) && Rank(n.keys[i]) < hi
    ensures Collected(c, lo, hi, PrefixBound(n.keys, pl, i + 1),
                      if lo <= Rank(n.keys[i]) && !n.tombs[i] then ks + [n.keys[i]] else ks)
    ensures !n.tombs[i] ==> n.keys[i] in c && c[n.keys[i]] == n.values[i]
  {
    hide Rank, NodeOk, LeafAgrees;
    var k := n.keys[i];
    BoundsGrow(n, pl, place, c, i);
    var more := if lo <= Rank(k) && !n.tombs[i] then ks + [k] else ks;
    forall x | x in c && lo <= Rank(x) < hi && Rank(x) < PrefixBound(n.keys, pl, i + 1)
      ensures x in more
    {
      if Rank(x) >= PrefixBound(n.keys, pl, i) {
        OnlyEntries(n, pl, place, c, i, x);
      }
    }
    forall a, b | 0 <= a < b < |more| ensures Rank(more[a]) < Rank(more[b]) {
      assert a < |ks| ==> ks[a] in ks;
    }
  }

  lemma BoundsGrow(n: Node, pl: Place, place: map<nat, Place>, c: Contents, i: nat)
    requires n.Leaf? && NodeOk(n, pl, place) && LeafAgrees(n, pl, c) && i < |n.keys|
    ensures PrefixBound(n.keys, pl, i) <= Rank(n.keys[i]) < PrefixBound(n.keys, pl, i + 1)
    ensures Shaped(n) && (n.tombs[i] ==> n.keys[i] !in c) && (!n.tombs[i] ==> n.keys[i] in c && c[n.keys[i]] == n.values[i])
  {
    hide Rank;
  }

  /** At the first key not below the end, nothing further is in the range. */
  lemma CollectedAll(n: Node, pl: Place, place: map<nat, Place>, c: Contents, lo: real, hi: real, i: nat, ks: seq<Bytes>)
    requires n.Leaf? && NodeOk(n, pl, place) && LeafAgrees(n, pl, c) && i < |n.keys|
    requires Collected(c, lo, hi, PrefixBound(n.keys, pl, i), ks) && Rank(n.keys[i]) >= hi
    ensures Collected(c, lo, hi, 1.0, ks)
  {
    hide Rank, NodeOk, LeafAgrees;
    BoundsGrow(n, pl, place, c, i);
    forall x | x in c && lo <= Rank(x) < hi ensures x in ks {
      if Rank(x) >= PrefixBound(n.keys, pl, i) {
        OnlyEntries(n, pl, place, c, i, x);
      }
    }
  }

  lemma NextLeafFacts(pages: map<nat, Bytes>, s: Shape, c: Contents, p: nat)
    requires Holding(pages, s, c, None) && p in s.node && p in s.place && s.node[p].Leaf?
    ensures var pl, next := s.place[p], s.node[p].next;
      && LeavesFrom(s, pl.hi) < LeavesFrom(s, pl.lo)
      && (next == 0 ==> pl.hi == 1.0)
      && (next != 0 ==> next in s.node && next in s.place && s.node[next].Leaf? && s.place[next].lo == pl.hi)
  {
    hide Rank, Storable, ImageOf, LevelsDisjoint, LeafAgrees;
    assert NodeOk(s.node[p], s.place[p], s.place);
    var next := s.node[p].next;
    if next != 0 {
      assert NodeOk(s.node[next], s.place[next], s.place);
    }
    assert p in LeavesFrom(s, s.place[p].lo) && p !in LeavesFrom(s, s.place[p].hi);
  }

  // ---- histories ----------------------------------------------------------

  lemma {:induction false} NodeAtHeight(s: Shape, p: nat, h: nat) returns (q: nat)
    requires WellFormed(s) && p in s.node && h <= s.place[p].ht
    ensures q in s.node && s.place[q].ht == h
    decreases s.place[p].ht
  {
    hide Rank;
    assert NodeOk(s.node[p], s.place[p], s.place);
    if s.place[p].ht == h {
      q := p;
    } else {
      q := NodeAtHeight(s, s.node[p].children[0], h);
    }
  }

  ghost function NodesUpTo(s: Shape, h: nat): set<nat> {
    set p | p in s.node && p in s.place && s.place[p].ht <= h
  }

  /** There is a node on every level, so the tree is no higher than it has nodes. */
  lemma {:induction false} LevelsAreInhabited(s: Shape, h: nat)
    requires WellFormed(s) && s.root.Some? && h <= Height(s)
    ensures h < |NodesUpTo(s, h)|
  {
    hide NodesOkExcept, LevelsDisjoint;
    var q := NodeAtHeight(s, s.root.value, h);
    var upTo := NodesUpTo(s, h);
    assert q in upTo;
    if h > 0 {
      LevelsAreInhabited(s, h - 1);
      var below := NodesUpTo(s, h - 1);
      assert below <= upTo - {q};
      SubsetSize(below, upTo - {q});
    } else {
      assert {q} <= upTo;
      SubsetSize({q}, upTo);
    }
  }

  lemma {:induction false} SubsetSize<T>(a: set<T>, b: set<T>)
    requires a <= b
    ensures |a| <= |b|
  {
    if x :| x in a {
      SubsetSize(a - {x}, b - {x});
    }
  }

  lemma {:induction false} RangeSize(a: set<nat>, n: nat)
    requires forall x :: x in a ==> 2 <= x < n + 2
    ensures |a| <= n
  {
    if n == 0 {
      assert a == {};
    } else {
      RangeSize(a - {n + 1}, n - 1);
    }
  }

  lemma HeightBelowPages(pages: map<nat, Bytes>, s: Shape, c: Contents, next: nat, live: set<nat>)
    requires Holding(pages, s, c, None) && s.node.Keys <= live && next >= 2
    requires forall p :: p in live ==> 2 <= p < next
    ensures Height(s) + 2 <= next
  {
    hide Mirrors, Agrees, NodesOkExcept, LevelsDisjoint;
    if s.root.Some? {
      LevelsAreInhabited(s, Height(s));
      SubsetSize(NodesUpTo(s, Height(s)), live);
      RangeSize(live, next - 2);
    }
  }

  /** Run a history of inserts and deletes on an empty tree and search.  When no call raises,
      the answer is the last insert of the key that no delete of it follows.  With keys of
      one good width no call raises unless page ids, of which `n` calls take n * (n + 2) at most,
      come to 2^31. */
  method RunHistory(tree: BTree, ops: seq<Op>, probe: Bytes, ghost w: nat) returns (ok: bool, r: Option<Ref>)
    requires tree.Valid() && tree.root.None?
    modifies tree, tree.pager
    ensures ok ==> tree.Valid() && tree.contents == Run(map[], ops) && r == LastPut(ops, probe)
    ensures GoodWidth(w) && (forall op :: op in ops ==> |op.key| == w && (op.Put? ==> RefFits(op.value))) ==>
      ok || 2 * (old(tree.pager.nextPageId) + |ops| * (|ops| + 2)) > U32_LIMIT
  {
    hide Holding, WellFormed, Consistent, RefFits, GoodWidth, AllUniform, Lookup, LastPut, LeafTakes, Run, Height;
    r := None;
    ghost var most, next := |ops| + 2, tree.pager.nextPageId;
    assert tree.contents == map[] && Height(tree.shape) == 0 by { EmptyIsFlat(tree.pager.pages, tree.shape, tree.contents); }
    NothingRun();
    ghost var regular := GoodWidth(w) && forall op :: op in ops ==> |op.key| == w && (op.Put? ==> RefFits(op.value));
    EmptyIsRegular(tree.pager.pages, tree.shape, tree.contents, w);
    for i := 0 to |ops|
      invariant tree.Valid() && tree.contents == Run(map[], ops[..i])
      invariant regular && 2 * tree.pager.nextPageId <= U32_LIMIT ==> AllUniform(tree.shape, w)
      invariant Height(tree.shape) <= i && tree.pager.nextPageId <= next + i * most
    {
      OneMoreOp(i, |ops|, most);
      RunMore(ops, i);
      assert ops[i] in ops;
      ghost var room := regular && 2 * tree.pager.nextPageId <= U32_LIMIT;
      LivePages(tree.pager.pages, tree.pager.nextPageId, tree.pager.live, tree.pager.free);
      HeightBelowPages(tree.pager.pages, tree.shape, tree.contents, tree.pager.nextPageId, tree.pager.live);
      match ops[i] {
        case Put(k, v) =>
          var o := tree.Insert(k, v, if room then Some(w) else None);
          if o.Raised? {
            return false, None;
          }
        case Remove(k) =>
          tree.Delete(k);
      }
    }
    assert ops[..|ops|] == ops;
    r := tree.Search(probe);
    RunIsLastPut(ops, probe);
    return true, r;
  }

  lemma OneMoreOp(i: nat, n: nat, most: nat)
    requires i < n && most == n + 2
    ensures (i + 1) * most == i * most + most && i + 2 <= most && (i + 1) * most <= n * most
  {
    MulMonotone(i + 1, n, most);
  }

  lemma RunMore(ops: seq<Op>, i: nat)
    requires i < |ops|
    ensures Run(map[], ops[..i + 1]) == Step(Run(map[], ops[..i]), ops[i])
  {
    assert ops[..i + 1][..i] == ops[..i];
  }

  lemma NothingRun()
    ensures Run(map[], []) == map[]
  {
  }

  lemma EmptyIsFlat(pages: map<nat, Bytes>, s: Shape, c: Contents)
    requires Holding(pages, s, c, None) && s.root.None?
    ensures c == map[] && Height(s) == 0
  {
  }

  lemma LivePages(pages: map<nat, Bytes>, next: nat, live: set<nat>, free: seq<nat>)
    requires Consistent(pages, next, live, free)
    ensures next >= 2 && forall p :: p in live ==> 2 <= p < next
  {
  }

  lemma EmptyIsRegular(pages: map<nat, Bytes>, s: Shape, c: Contents, w: nat)
    requires Holding(pages, s, c, None) && s.root.None?
    ensures c == map[] && AllUniform(s, w)
  {
  }
}
