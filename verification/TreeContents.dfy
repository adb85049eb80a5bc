/** The finite map a B+tree stands for, and the leaf chain. */
module TreeContents {
  import opened ByteStrings
  import opened Wrappers
  import opened NodeCodec
  import opened PageStore
  import opened TreeShape

  type Contents = map<Bytes, Ref>

  /** The live entries of a leaf are what `c` says about the leaf's interval. */
  ghost predicate LeafAgrees(n: Node, pl: Place, c: Contents)
    requires n.Leaf? && Shaped(n)
  {
    && (forall i :: 0 <= i < |n.keys| && n.tombs[i] ==> n.keys[i] !in c)
    && (forall i :: 0 <= i < |n.keys| && !n.tombs[i] ==> n.keys[i] in c && c[n.keys[i]] == n.values[i])
    && (forall k :: k in c && Holds(pl, Rank(k)) ==> k in n.keys)
  }

  ghost predicate Agrees(s: Shape, c: Contents) {
    && (s.root.None? ==> c == map[])
    && (forall p :: p in s.node && p in s.place && s.node[p].Leaf? ==>
          Shaped(s.node[p]) && LeafAgrees(s.node[p], s.place[p], c))
  }

  // ---- entry updates ------------------------------------------------------

  /** The leaf after the upsert of `insert`; `i` is what `bisect_left` returns. */
  function Upserted(n: Node, i: nat, key: Bytes, v: Ref): Node
    requires n.Leaf? && Shaped(n) && i <= |n.keys|
  {
    if i < |n.keys| && n.keys[i] == key then
      n.(keys := n.keys[i := key], values := n.values[i := v], tombs := n.tombs[i := false])
    else
      n.(keys := InsertAt(n.keys, i, key), values := InsertAt(n.values, i, v), tombs := InsertAt(n.tombs, i, false))
  }

  predicate InsertionPoint(keys: seq<Bytes>, key: Bytes, i: nat) {
    && i <= |keys|
    && (forall j :: 0 <= j < i ==> Rank(keys[j]) < Rank(key))
    && (forall j :: i <= j < |keys| ==> Rank(key) <= Rank(keys[j]))
  }

  /** The key is not in the leaf, so it goes strictly between its neighbours. */
  lemma InsertionIsStrict(n: Node, pl: Place, place: map<nat, Place>, i: nat, key: Bytes)
    requires n.Leaf? && NodeOk(n, pl, place) && InsertionPoint(n.keys, key, i)
    requires !(i < |n.keys| && n.keys[i] == key)
    ensures forall j :: i <= j < |n.keys| ==> Rank(key) < Rank(n.keys[j])
  {
    if i < |n.keys| && Rank(n.keys[i]) == Rank(key) {
      RankInjective(n.keys[i], key);
    }
    hide Rank;
    assert forall j :: i < j < |n.keys| ==> Rank(n.keys[i]) < Rank(n.keys[j]);
  }

  lemma UpsertedOk(n: Node, pl: Place, place: map<nat, Place>, i: nat, key: Bytes, v: Ref)
    requires n.Leaf? && NodeOk(n, pl, place) && InsertionPoint(n.keys, key, i) && Holds(pl, Rank(key))
    ensures NodeOk(Upserted(n, i, key, v), pl, place)
  {
    hide Rank, InsertAt;
    if i < |n.keys| && n.keys[i] == key {
      assert Upserted(n, i, key, v).keys == n.keys;
    } else {
      InsertionIsStrict(n, pl, place, i, key);
      InsertKeepsOrder(n.keys, i, key);
      InsertStaysInside(n, pl, place, i, key);
    }
  }

  lemma InsertStaysInside(n: Node, pl: Place, place: map<nat, Place>, i: nat, key: Bytes)
    requires n.Leaf? && NodeOk(n, pl, place) && i <= |n.keys| && Holds(pl, Rank(key))
    ensures forall j :: 0 <= j <= |n.keys| ==> Holds(pl, Rank(InsertAt(n.keys, i, key)[j]))
  {
    hide Rank, InsertAt;
    forall j | 0 <= j <= |n.keys| ensures Holds(pl, Rank(InsertAt(n.keys, i, key)[j])) {
      InsertAtIndex(n.keys, i, key, j);
    }
  }

  lemma UpsertedAgrees(n: Node, pl: Place, place: map<nat, Place>, i: nat, key: Bytes, v: Ref, c: Contents)
    requires n.Leaf? && NodeOk(n, pl, place) && InsertionPoint(n.keys, key, i) && Holds(pl, Rank(key))
    requires LeafAgrees(n, pl, c)
    ensures Shaped(Upserted(n, i, key, v)) && LeafAgrees(Upserted(n, i, key, v), pl, c[key := v])
  {
    hide Rank, InsertAt, LeafAgrees;
    if i < |n.keys| && n.keys[i] == key {
      forall j | 0 <= j < |n.keys| && j != i ensures n.keys[j] != key {
        OtherKey(n, pl, place, i, key, j);
      }
      ReplacedAgrees(n, pl, i, v, c);
    } else {
      InsertedAgrees(n, pl, place, i, key, v, c);
    }
  }

  lemma ReplacedAgrees(n: Node, pl: Place, i: nat, v: Ref, c: Contents)
    requires n.Leaf? && Shaped(n) && LeafAgrees(n, pl, c) && i < |n.keys|
    requires forall j :: 0 <= j < |n.keys| && j != i ==> n.keys[j] != n.keys[i]
    ensures var m := Upserted(n, i, n.keys[i], v); Shaped(m) && LeafAgrees(m, pl, c[n.keys[i] := v])
  {
    hide Rank, InsertAt;
    assert n.keys[i := n.keys[i]] == n.keys;
  }

  lemma InsertedAgrees(n: Node, pl: Place, place: map<nat, Place>, i: nat, key: Bytes, v: Ref, c: Contents)
    requires n.Leaf? && NodeOk(n, pl, place) && InsertionPoint(n.keys, key, i) && Holds(pl, Rank(key))
    requires LeafAgrees(n, pl, c) && !(i < |n.keys| && n.keys[i] == key)
    ensures Shaped(Upserted(n, i, key, v)) && LeafAgrees(Upserted(n, i, key, v), pl, c[key := v])
  {
    hide Rank, InsertAt;
    var m, d := Upserted(n, i, key, v), c[key := v];
    assert Shaped(m);
    hide NodeOk;
    forall j | 0 <= j < |m.keys|
      ensures m.tombs[j] ==> m.keys[j] !in d
      ensures !m.tombs[j] ==> m.keys[j] in d && d[m.keys[j]] == m.values[j]
    {
      InsertedEntry(n, pl, place, i, key, v, c, j);
    }
    InsertedKeys(n.keys, i, key);
  }

  lemma InsertedEntry(n: Node, pl: Place, place: map<nat, Place>, i: nat, key: Bytes, v: Ref, c: Contents, j: nat)
    requires n.Leaf? && NodeOk(n, pl, place) && InsertionPoint(n.keys, key, i) && j <= |n.keys|
    requires LeafAgrees(n, pl, c) && !(i < |n.keys| && n.keys[i] == key)
    ensures var m, d := Upserted(n, i, key, v), c[key := v];
      && Shaped(m) && (m.tombs[j] ==> m.keys[j] !in d)
      && (!m.tombs[j] ==> m.keys[j] in d && d[m.keys[j]] == m.values[j])
  {
    hide Rank, InsertAt;
    InsertAtIndex(n.keys, i, key, j);
    InsertAtIndex(n.values, i, v, j);
    InsertAtIndex(n.tombs, i, false, j);
    if j != i {
      OtherKey(n, pl, place, i, key, if j < i then j else j - 1);
    }
  }

  lemma InsertedKeys(keys: seq<Bytes>, i: nat, key: Bytes)
    requires i <= |keys|
    ensures forall k :: k in keys || k == key ==> k in InsertAt(keys, i, key)
  {
    hide InsertAt;
    var m := InsertAt(keys, i, key);
    InsertAtIndex(keys, i, key, i);
    forall k | k in keys ensures k in m {
      var j :| 0 <= j < |keys| && keys[j] == k;
      InsertAtIndex(keys, i, key, if j < i then j else j + 1);
    }
  }

  lemma OtherKey(n: Node, pl: Place, place: map<nat, Place>, i: nat, key: Bytes, j: nat)
    requires n.Leaf? && NodeOk(n, pl, place) && InsertionPoint(n.keys, key, i) && j < |n.keys|
    requires i < |n.keys| && n.keys[i] == key ==> j != i
    ensures n.keys[j] != key
  {
    hide Rank;
    if j > i {
      assert Rank(n.keys[i]) < Rank(n.keys[j]);
    }
  }

  /** Keys of one leaf lie in no other leaf. */
  lemma ElsewhereAgrees(s: Shape, p: nat, q: nat, key: Bytes, c: Contents, d: Contents)
    requires WellFormed(s) && p in s.node && q in s.node && p != q && s.node[p].Leaf? && s.node[q].Leaf?
    requires Holds(s.place[p], Rank(key))
    requires Shaped(s.node[q]) && LeafAgrees(s.node[q], s.place[q], c)
    requires d - {key} == c - {key}
    ensures LeafAgrees(s.node[q], s.place[q], d)
  {
    hide Rank, LeafAgrees;
    OutsideLeaf(s, p, q, key);
    SameElsewhere(c, d, key);
    AgreesWithoutKey(s.node[q], s.place[q], key, c, d);
  }

  lemma OutsideLeaf(s: Shape, p: nat, q: nat, key: Bytes)
    requires WellFormed(s) && p in s.node && q in s.node && p != q && s.node[p].Leaf? && s.node[q].Leaf?
    requires Holds(s.place[p], Rank(key))
    ensures !Holds(s.place[q], Rank(key)) && forall i :: 0 <= i < |s.node[q].keys| ==> s.node[q].keys[i] != key
  {
    hide Rank;
    assert NodeOk(s.node[p], s.place[p], s.place) && NodeOk(s.node[q], s.place[q], s.place);
    assert Apart(s.place[p], s.place[q]);
  }

  lemma AgreesWithoutKey(n: Node, pl: Place, key: Bytes, c: Contents, d: Contents)
    requires n.Leaf? && Shaped(n) && LeafAgrees(n, pl, c) && !Holds(pl, Rank(key))
    requires forall i :: 0 <= i < |n.keys| ==> n.keys[i] != key
    requires forall k :: k != key ==> (k in c <==> k in d) && (k in c ==> c[k] == d[k])
    ensures LeafAgrees(n, pl, d)
  {
    hide Rank;
  }

  lemma SameElsewhere(c: Contents, d: Contents, key: Bytes)
    requires d - {key} == c - {key}
    ensures forall k :: k != key ==> (k in c <==> k in d) && (k in c ==> c[k] == d[k])
  {
    assert forall k :: k != key ==> (k in c <==> k in c - {key}) && (k in d <==> k in d - {key});
    assert forall k :: k in c - {key} ==> (c - {key})[k] == c[k];
    assert forall k :: k in d - {key} ==> (d - {key})[k] == d[k];
  }

  /** Rewriting a leaf for one key updates the map at that key. */
  lemma RewriteAgrees(s: Shape, p: nat, n: Node, key: Bytes, c: Contents, d: Contents)
    requires WellFormed(s) && Agrees(s, c) && p in s.node && s.node[p].Leaf? && Holds(s.place[p], Rank(key))
    requires n.Leaf? && Shaped(n) && LeafAgrees(n, s.place[p], d) && d - {key} == c - {key}
    ensures Agrees(s.(node := s.node[p := n]), d)
  {
    hide Rank, NodeOk, LeafAgrees;
    var t := s.(node := s.node[p := n]);
    forall q | q in t.node && q in t.place && t.node[q].Leaf?
      ensures Shaped(t.node[q]) && LeafAgrees(t.node[q], t.place[q], d)
    {
      if q != p {
        ElsewhereAgrees(s, p, q, key, c, d);
      }
    }
  }

  /** The tombstone `delete` sets. */
  lemma TombstoneAgrees(n: Node, pl: Place, place: map<nat, Place>, i: nat, c: Contents)
    requires n.Leaf? && NodeOk(n, pl, place) && i < |n.keys| && LeafAgrees(n, pl, c)
    ensures LeafAgrees(n.(tombs := n.tombs[i := true]), pl, c - {n.keys[i]})
  {
    hide Rank;
    assert forall j :: 0 <= j < |n.keys| && j != i ==> n.keys[j] != n.keys[i];
  }

  /** A leaf with no entry for a key of its interval means the key is not in the map. */
  lemma AbsentHere(n: Node, pl: Place, place: map<nat, Place>, i: nat, key: Bytes, c: Contents)
    requires n.Leaf? && NodeOk(n, pl, place) && InsertionPoint(n.keys, key, i) && Holds(pl, Rank(key))
    requires LeafAgrees(n, pl, c) && !(i < |n.keys| && n.keys[i] == key)
    ensures key !in c
  {
    if key in c {
      var j :| 0 <= j < |n.keys| && n.keys[j] == key;
      OtherKey(n, pl, place, i, key, j);
    }
  }

  lemma SplitAgrees(s: Shape, p: nat, mid: nat, right: nat, c: Contents)
    requires WellFormed(s) && Agrees(s, c) && p in s.node && s.node[p].Leaf? && right !in s.node
    requires Shaped(s.node[p]) && 0 < mid < |s.node[p].keys|
    ensures var n := s.node[p];
      Agrees(Split(s, p, Leaf(n.keys[..mid], n.values[..mid], right, n.tombs[..mid]), n.keys[mid], right,
                   Leaf(n.keys[mid..], n.values[mid..], n.next, n.tombs[mid..])), c)
  {
    var n := s.node[p];
    assert NodeOk(n, s.place[p], s.place);
    LeafHalvesAgree(n, s.place[p], s.place, mid, right, c);
    hide Rank, NodeOk, LeafAgrees;
  }

  lemma LeafHalvesAgree(n: Node, pl: Place, place: map<nat, Place>, mid: nat, right: nat, c: Contents)
    requires n.Leaf? && NodeOk(n, pl, place) && LeafAgrees(n, pl, c) && 0 < mid < |n.keys|
    ensures LeafAgrees(Leaf(n.keys[..mid], n.values[..mid], right, n.tombs[..mid]), pl.(hi := Rank(n.keys[mid])), c)
    ensures LeafAgrees(Leaf(n.keys[mid..], n.values[mid..], n.next, n.tombs[mid..]), pl.(lo := Rank(n.keys[mid])), c)
  {
    hide Rank, LeafAgrees, NodeOk, SortedKeys;
    MidInside(n, pl, place, mid);
    forall k | k in c && Holds(pl, Rank(k))
      ensures if Rank(k) < Rank(n.keys[mid]) then k in n.keys[..mid] else k in n.keys[mid..]
    {
      HeldKeys(n, pl, c, k);
      KeysCut(n.keys, mid, k);
    }
    PartAgrees(n, pl, 0, mid, right, pl.(hi := Rank(n.keys[mid])), c);
    PartAgrees(n, pl, mid, |n.keys|, n.next, pl.(lo := Rank(n.keys[mid])), c);
    assert n.keys[0..mid] == n.keys[..mid] && n.keys[mid..|n.keys|] == n.keys[mid..];
    assert n.values[0..mid] == n.values[..mid] && n.values[mid..|n.keys|] == n.values[mid..];
    assert n.tombs[0..mid] == n.tombs[..mid] && n.tombs[mid..|n.keys|] == n.tombs[mid..];
  }

  lemma MidInside(n: Node, pl: Place, place: map<nat, Place>, mid: nat)
    requires n.Leaf? && NodeOk(n, pl, place) && 0 < mid < |n.keys|
    ensures Shaped(n) && SortedKeys(n.keys) && pl.lo < Rank(n.keys[mid]) < pl.hi
  {
    hide Rank;
    assert pl.lo <= Rank(n.keys[0]) < Rank(n.keys[mid]) < pl.hi;
  }

  lemma HeldKeys(n: Node, pl: Place, c: Contents, k: Bytes)
    requires n.Leaf? && Shaped(n) && LeafAgrees(n, pl, c) && k in c && Holds(pl, Rank(k))
    ensures k in n.keys
  {
    hide Rank;
  }

  /** A slice of a leaf's entries, for the interval whose keys it has. */
  lemma PartAgrees(n: Node, pl: Place, a: nat, b: nat, next: nat, part: Place, c: Contents)
    requires n.Leaf? && Shaped(n) && LeafAgrees(n, pl, c) && a <= b <= |n.keys|
    requires forall k :: k in c && Holds(part, Rank(k)) ==> k in n.keys[a..b]
    ensures LeafAgrees(Leaf(n.keys[a..b], n.values[a..b], next, n.tombs[a..b]), part, c)
  {
    hide Rank;
  }

  lemma KeysCut(keys: seq<Bytes>, mid: nat, k: Bytes)
    requires SortedKeys(keys) && mid < |keys| && k in keys
    ensures if Rank(k) < Rank(keys[mid]) then k in keys[..mid] else k in keys[mid..]
  {
    hide Rank;
    var j :| 0 <= j < |keys| && keys[j] == k;
    if j < mid {
      assert keys[..mid][j] == k;
    } else {
      assert keys[mid..][j - mid] == k;
    }
  }

  /** Only inner nodes changed. */
  lemma SameLeavesAgree(s: Shape, t: Shape, c: Contents)
    requires Agrees(s, c) && s.root.Some? && t.root.Some?
    requires forall p :: p in t.node && p in t.place && t.node[p].Leaf? ==>
      p in s.node && p in s.place && s.node[p] == t.node[p] && s.place[p] == t.place[p]
    ensures Agrees(t, c)
  {
    hide LeafAgrees, Shaped, Rank;
  }

  // ---- the leaf chain -----------------------------------------------------

  /** The leaves under the first `i` children of `p`, left to right. */
  ghost function LeavesUnder(s: Shape, p: nat, i: nat): seq<nat>
    requires WellFormed(s) && p in s.node && s.node[p].Inner? && i <= |s.node[p].children|
    decreases s.place[p].ht, i
  {
    assert NodeOk(s.node[p], s.place[p], s.place);
    if i == 0 then [] else LeavesUnder(s, p, i - 1) + Leaves(s, s.node[p].children[i - 1])
  }

  /** The leaves of the subtree at `p` in order. */
  ghost function Leaves(s: Shape, p: nat): seq<nat>
    requires WellFormed(s) && p in s.node
    decreases s.place[p].ht, |s.node[p].keys| + 2
  {
    if s.node[p].Leaf? then [p] else
      assert NodeOk(s.node[p], s.place[p], s.place);
      LeavesUnder(s, p, |s.node[p].children|)
  }

  /** `ls` are leaves chained by their next pointers, covering [lo, hi). */
  ghost predicate Chained(s: Shape, ls: seq<nat>, lo: real, hi: real)
    requires WellFormed(s)
  {
    && ls != []
    && (forall j :: 0 <= j < |ls| ==> ls[j] in s.node && s.node[ls[j]].Leaf?)
    && s.place[ls[0]].lo == lo && s.place[ls[|ls| - 1]].hi == hi
    && forall j :: 0 <= j < |ls| - 1 ==> s.node[ls[j]].next == ls[j + 1]
  }

  lemma ChainJoins(s: Shape, a: seq<nat>, b: seq<nat>, lo: real, mid: real, hi: real)
    requires WellFormed(s) && Chained(s, a, lo, mid) && Chained(s, b, mid, hi) && mid < 1.0
    ensures Chained(s, a + b, lo, hi)
  {
    hide WellFormed, Rank;
    NextLeaf(s, a[|a| - 1], b[0]);
    var c := a + b;
    forall j | 0 <= j < |c| - 1
      ensures s.node[c[j]].next == c[j + 1]
    {
      assert j >= |a| ==> c[j] == b[j - |a|] && c[j + 1] == b[j - |a| + 1];
    }
  }

  /** The next pointer names the one leaf that starts where this one ends. */
  lemma NextLeaf(s: Shape, l: nat, r: nat)
    requires WellFormed(s) && l in s.node && r in s.node && s.node[l].Leaf? && s.node[r].Leaf?
    requires s.place[l].hi == s.place[r].lo < 1.0
    ensures s.node[l].next == r
  {
    hide Rank;
    assert NodeOk(s.node[l], s.place[l], s.place) && NodeOk(s.node[r], s.place[r], s.place);
    var nx := s.node[l].next;
    assert NodeOk(s.node[nx], s.place[nx], s.place);
    SameNode(s, nx, r, s.place[r].lo);
  }

  lemma {:induction false} ChainUnder(s: Shape, p: nat, i: nat)
    requires WellFormed(s) && p in s.node && s.node[p].Inner? && 0 < i <= |s.node[p].children|
    ensures i - 1 <= |s.node[p].keys| && Chained(s, LeavesUnder(s, p, i), s.place[p].lo, FenceHi(s.node[p].keys, s.place[p], i - 1))
    decreases s.place[p].ht, i
  {
    hide Rank, Chained;
    assert NodeOk(s.node[p], s.place[p], s.place);
    var n, pl := s.node[p], s.place[p];
    var c := n.children[i - 1];
    ChainBelow(s, c);
    assert s.place[c] == Place(FenceLo(n.keys, pl, i - 1), FenceHi(n.keys, pl, i - 1), pl.ht - 1);
    if i == 1 {
      assert LeavesUnder(s, p, 0) == [];
      assert [] + Leaves(s, c) == Leaves(s, c);
    } else {
      ChainUnder(s, p, i - 1);
      NonEmpty(s.node[c], s.place[c], s.place);
      ChainJoins(s, LeavesUnder(s, p, i - 1), Leaves(s, c), pl.lo, Rank(n.keys[i - 2]), s.place[c].hi);
    }
  }

  /** The next pointers below `p` run through its leaves in order. */
  lemma {:induction false} ChainBelow(s: Shape, p: nat)
    requires WellFormed(s) && p in s.node
    ensures Chained(s, Leaves(s, p), s.place[p].lo, s.place[p].hi)
    decreases s.place[p].ht, |s.node[p].keys| + 2
  {
    assert NodeOk(s.node[p], s.place[p], s.place);
    if s.node[p].Inner? {
      ChainUnder(s, p, |s.node[p].children|);
    }
  }

  /** From the leftmost leaf, the chain is exactly the leaves of the tree in order. */
  lemma ChainIsInOrder(s: Shape)
    requires WellFormed(s) && s.root.Some?
    ensures var ls := Leaves(s, s.root.value);
      ls != [] && forall j :: 0 <= j < |ls| ==> ls[j] in s.node && s.node[ls[j]].Leaf? && s.node[ls[j]].next == At(ls, j + 1)
  {
    ChainBelow(s, s.root.value);
    var ls := Leaves(s, s.root.value);
    var last := ls[|ls| - 1];
    assert NodeOk(s.node[last], s.place[last], s.place);
  }

  // ---- histories ----------------------------------------------------------

  datatype Op = Put(key: Bytes, value: Ref) | Remove(key: Bytes)

  function Step(c: Contents, op: Op): Contents {
    match op
    case Put(k, v) => c[k := v]
    case Remove(k) => c - {k}
  }

  function Run(c: Contents, ops: seq<Op>): Contents {
    if ops == [] then c else Step(Run(c, ops[..|ops| - 1]), ops[|ops| - 1])
  }

  /** The value of the last Put of `key` that no later Remove of it follows. */
  function LastPut(ops: seq<Op>, key: Bytes): Option<Ref> {
    if ops == [] then None
    else if ops[|ops| - 1].key == key then
      (match ops[|ops| - 1] case Put(_, v) => Some(v) case Remove(_) => None)
    else LastPut(ops[..|ops| - 1], key)
  }

  function Lookup(c: Contents, key: Bytes): Option<Ref> {
    if key in c then Some(c[key]) else None
  }

  lemma {:induction false} RunIsLastPut(ops: seq<Op>, key: Bytes)
    ensures Lookup(Run(map[], ops), key) == LastPut(ops, key)
  {
    if ops != [] {
      RunIsLastPut(ops[..|ops| - 1], key);
    }
  }
}
