/** Rows, values, and the nested loops of the join executor (src/tinydb/_join_executor.py). */
module JoinRows {
  import opened Wrappers
  import opened JoinAlgebra

  datatype Value = Null | Int(n: int) | Text(s: string)
  type Row = seq<Value>

  function Nulls(n: nat): (r: Row)
    ensures |r| == n && forall i :: 0 <= i < n ==> r[i] == Null
  {
    seq(n, _ => Null)
  }

  /** The outcome of a predicate; Python may raise a TypeError or KeyError instead. */
  datatype Verdict = Yes | No | Raises

  // ---- merging two rows -----------------------------------------------------

  /** A USING/NATURAL key: column positions on either side. */
  datatype JoinKey = JoinKey(leftCol: nat, rightCol: nat)

  /** The dict `{k.right_col: k.left_col}`. */
  function LeftColOf(keys: seq<JoinKey>, ri: nat): (r: Option<nat>)
    ensures r.Some? ==> JoinKey(r.value, ri) in keys
    ensures r.None? ==> forall k :: k in keys ==> k.rightCol != ri
  {
    if keys == [] then None else
      var k, rest := keys[|keys| - 1], keys[..|keys| - 1];
      assert keys == rest + [k];
      if k.rightCol == ri then Some(k.leftCol) else LeftColOf(rest, ri)
  }

  predicate KeysFit(keys: seq<JoinKey>, lw: nat, rw: nat) {
    && (forall k :: k in keys ==> k.leftCol < lw && k.rightCol < rw)
    && (forall j, k :: j in keys && k in keys && j.leftCol == k.leftCol ==> j == k)
    && (forall j, k :: j in keys && k in keys && j.rightCol == k.rightCol ==> j == k)
  }

  /** How many of the first `n` right columns are kept. */
  function KeptBefore(keys: seq<JoinKey>, n: nat): (m: nat)
    ensures m <= n
  {
    if n == 0 then 0 else KeptBefore(keys, n - 1) + if LeftColOf(keys, n - 1).Some? then 0 else 1
  }

  /** The output row after `n` right columns: key columns are coalesced into the left ones. */
  function Coalesced(keys: seq<JoinKey>, l: Row, r: Row, n: nat): (out: Row)
    requires KeysFit(keys, |l|, |r|) && n <= |r|
    ensures |out| == |l| + KeptBefore(keys, n)
  {
    if n == 0 then l else
      var out := Coalesced(keys, l, r, n - 1);
      match LeftColOf(keys, n - 1)
      case Some(li) => if out[li] == Null && r[n - 1] != Null then out[li := r[n - 1]] else out
      case None => out + [r[n - 1]]
  }

  /** Left columns keep their value; a NULL in a key column takes the right one. */
  lemma {:induction false} CoalescedLeft(keys: seq<JoinKey>, l: Row, r: Row, n: nat, c: nat)
    requires KeysFit(keys, |l|, |r|) && n <= |r| && c < |l|
    ensures forall ri: nat :: JoinKey(c, ri) in keys && ri < n ==>
              Coalesced(keys, l, r, n)[c] == if l[c] == Null then r[ri] else l[c]
    ensures (forall ri: nat :: JoinKey(c, ri) in keys ==> ri >= n) ==> Coalesced(keys, l, r, n)[c] == l[c]
  {
    if n > 0 {
      CoalescedLeft(keys, l, r, n - 1, c);
    }
  }

  /** Right columns that are no keys follow in order. */
  lemma {:induction false} CoalescedRight(keys: seq<JoinKey>, l: Row, r: Row, n: nat, ri: nat)
    requires KeysFit(keys, |l|, |r|) && n <= |r| && ri < n && LeftColOf(keys, ri).None?
    ensures KeptBefore(keys, ri) < KeptBefore(keys, n)
    ensures Coalesced(keys, l, r, n)[|l| + KeptBefore(keys, ri)] == r[ri]
  {
    if ri < n - 1 {
      CoalescedRight(keys, l, r, n - 1, ri);
    }
  }

  lemma {:induction false} NoKeys(l: Row, r: Row, n: nat)
    requires n <= |r|
    ensures KeysFit([], |l|, |r|) && KeptBefore([], n) == n
    ensures Coalesced([], l, r, n) == l + r[..n]
  {
    if n > 0 {
      NoKeys(l, r, n - 1);
      assert r[..n] == r[..n - 1] + [r[n - 1]];
    }
  }

  lemma {:induction false} NullsCoalesced(keys: seq<JoinKey>, lw: nat, rw: nat, n: nat)
    requires KeysFit(keys, lw, rw) && n <= rw
    ensures Coalesced(keys, Nulls(lw), Nulls(rw), n) == Nulls(lw + KeptBefore(keys, n))
  {
    if n > 0 {
      NullsCoalesced(keys, lw, rw, n - 1);
    }
  }

  /** The row of a pair: a missing side counts as a row of NULLs. */
  function Merge(keys: seq<JoinKey>, lw: nat, rw: nat, p: Pair<Row, Row>): Row {
    var l := if p.OnlyRight? then Nulls(lw) else p.a;
    var r := if p.OnlyLeft? then Nulls(rw) else p.b;
    if KeysFit(keys, |l|, |r|) then Coalesced(keys, l, r, |r|) else []
  }

  method CoalesceRow(keys: seq<JoinKey>, l: Row, r: Row) returns (out: Row)
    requires KeysFit(keys, |l|, |r|)
    ensures out == Merge(keys, |l|, |r|, Both(l, r))
  {
    out := l;
    for ri := 0 to |r|
      invariant out == Coalesced(keys, l, r, ri)
    {
      match LeftColOf(keys, ri)
      case Some(li) =>
        if out[li] == Null && r[ri] != Null {
          out := out[li := r[ri]];
        }
      case None => out := out + [r[ri]];
    }
  }

  method NullPadRight(keys: seq<JoinKey>, l: Row, rw: nat) returns (out: Row)
    requires KeysFit(keys, |l|, rw)
    ensures out == Merge(keys, |l|, rw, OnlyLeft(l))
  {
    if keys == [] {
      NoKeys(l, Nulls(rw), rw);
      assert Nulls(rw)[..rw] == Nulls(rw);
      return l + Nulls(rw);
    }
    out := l;
    for ri := 0 to rw
      invariant out == Coalesced(keys, l, Nulls(rw), ri)
    {
      if LeftColOf(keys, ri).None? {
        out := out + [Null];
      }
    }
  }

  method NullPadLeft(keys: seq<JoinKey>, r: Row, lw: nat) returns (out: Row)
    requires KeysFit(keys, lw, |r|)
    ensures out == Merge(keys, lw, |r|, OnlyRight(r))
  {
    if keys == [] {
      NoKeys(Nulls(lw), r, |r|);
      assert r[..|r|] == r;
      return Nulls(lw) + r;
    }
    out := Nulls(lw);
    for ri := 0 to |r|
      invariant out == Coalesced(keys, Nulls(lw), r, ri)
    {
      match LeftColOf(keys, ri)
      case Some(li) =>
        CoalescedLeft(keys, Nulls(lw), r, ri, li);
        assert out[li] == Null;
        out := out[li := r[ri]];
      case None => out := out + [r[ri]];
    }
  }

  // ---- the nested loops -----------------------------------------------------

  /** What the loops of one join node need to know of it. */
  datatype Shape = Shape(keys: seq<JoinKey>, lw: nat, rw: nat, matches: (Row, Row) -> Verdict)

  predicate ShapeFits(node: Shape, ls: seq<Row>, rs: seq<Row>) {
    && KeysFit(node.keys, node.lw, node.rw)
    && (forall i :: 0 <= i < |ls| ==> |ls[i]| == node.lw)
    && (forall j :: 0 <= j < |rs| ==> |rs[j]| == node.rw)
  }

  function Holds(node: Shape): (Row, Row) -> bool {
    (l, r) => node.matches(l, r) == Yes
  }

  function Merger(node: Shape): Pair<Row, Row> -> Row {
    p => Merge(node.keys, node.lw, node.rw, p)
  }

  ghost predicate AnyRaises(node: Shape, ls: seq<Row>, rs: seq<Row>) {
    exists i, j :: 0 <= i < |ls| && 0 <= j < |rs| && node.matches(ls[i], rs[j]) == Raises
  }

  /** The rows of a join, or `None` when some pair of rows makes the predicate raise. */
  ghost function Joined(kind: Kind, node: Shape, ls: seq<Row>, rs: seq<Row>): Option<seq<Row>> {
    if AnyRaises(node, ls, rs) then None else Some(Map(Merger(node), Join(kind, ls, rs, Holds(node))))
  }

  lemma HitsStep<A, B>(a: A, rs: seq<B>, m: (A, B) -> bool, j: nat)
    requires j < |rs|
    ensures Hits(a, rs[..j + 1], m) == Hits(a, rs[..j], m) + if m(a, rs[j]) then [Both(a, rs[j])] else []
  {
    assert rs[..j + 1][..j] == rs[..j];
  }

  lemma HitsOfRightStep<A, B>(ls: seq<A>, b: B, m: (A, B) -> bool, i: nat)
    requires i < |ls|
    ensures HitsOfRight(ls[..i + 1], b, m) == HitsOfRight(ls[..i], b, m) + if m(ls[i], b) then [Both(ls[i], b)] else []
  {
    assert ls[..i + 1][..i] == ls[..i];
  }



  function OneIf<A>(b: bool, x: A): seq<A> {
    if b then [x] else []
  }

  /** The output grows by the rows of the pairs found. */
  lemma RowsGrow(node: Shape, pairs: seq<Pair<Row, Row>>, found: bool, p: Pair<Row, Row>)
    ensures Map(Merger(node), pairs + OneIf(found, p)) ==
            Map(Merger(node), pairs) + OneIf(found, Merge(node.keys, node.lw, node.rw, p))
  {
  }

  /** No pair seen so far raises. */
  ghost predicate Quiet(node: Shape, ls: seq<Row>, rs: seq<Row>, i: nat, j: nat) {
    && i <= |ls| && j <= |rs|
    && (forall a, b :: 0 <= a < i && 0 <= b < |rs| ==> node.matches(ls[a], rs[b]) != Raises)
    && (i < |ls| ==> forall b :: 0 <= b < j ==> node.matches(ls[i], rs[b]) != Raises)
  }

  /** Pairs found by one left row among the first `j` right rows. */
  function Found(node: Shape, l: Row, rs: seq<Row>, j: nat): seq<Pair<Row, Row>>
    requires j <= |rs|
  {
    Hits(l, rs[..j], Holds(node))
  }

  lemma FoundStep(node: Shape, pairs: seq<Pair<Row, Row>>, l: Row, rs: seq<Row>, j: nat)
    requires j < |rs|
    ensures var hit := node.matches(l, rs[j]) == Yes;
      && Found(node, l, rs, j + 1) == Found(node, l, rs, j) + OneIf(hit, Both(l, rs[j]))
      && Map(Merger(node), pairs + Found(node, l, rs, j + 1)) == Map(Merger(node), pairs + Found(node, l, rs, j))
           + OneIf(hit, Merge(node.keys, node.lw, node.rw, Both(l, rs[j])))
  {
    hide Merge, Map;
    var hit := node.matches(l, rs[j]) == Yes;
    HitsStep(l, rs, Holds(node), j);
    RowsGrow(node, pairs + Found(node, l, rs, j), hit, Both(l, rs[j]));
    assert pairs + (Found(node, l, rs, j) + OneIf(hit, Both(l, rs[j])))
        == (pairs + Found(node, l, rs, j)) + OneIf(hit, Both(l, rs[j]));
  }

  lemma FoundNone(node: Shape, pairs: seq<Pair<Row, Row>>, l: Row, rs: seq<Row>)
    ensures Found(node, l, rs, 0) == [] && pairs + Found(node, l, rs, 0) == pairs
    ensures Found(node, l, rs, |rs|) == Hits(l, rs, Holds(node))
  {
    assert rs[..0] == [] && rs[..|rs|] == rs;
  }

  lemma InnerStep<A, B>(ls: seq<A>, rs: seq<B>, m: (A, B) -> bool, i: nat)
    requires i < |ls|
    ensures Inner(ls[..i + 1], rs, m) == Inner(ls[..i], rs, m) + Hits(ls[i], rs, m)
    ensures LeftJoin(ls[..i + 1], rs, m) == LeftJoin(ls[..i], rs, m) + OrAlone(Hits(ls[i], rs, m), OnlyLeft(ls[i]))
  {
    assert ls[..i + 1][..i] == ls[..i];
  }

  method NestedLoopInner(node: Shape, ls: seq<Row>, rs: seq<Row>) returns (rows: Option<seq<Row>>)
    requires ShapeFits(node, ls, rs)
    ensures rows == Joined(INNER, node, ls, rs)
  {
    hide Merge, Map, Hits, Inner, Found, KeysFit;
    var out: seq<Row> := [];
    NoRows(node, rs);
    assert ls[..0] == [];
    for i := 0 to |ls|
      invariant Quiet(node, ls, rs, i, 0)
      invariant out == Map(Merger(node), Inner(ls[..i], rs, Holds(node)))
    {
      ghost var before := Inner(ls[..i], rs, Holds(node));
      FoundNone(node, before, ls[i], rs);
      for j := 0 to |rs|
        invariant Quiet(node, ls, rs, i, j)
        invariant out == Map(Merger(node), before + Found(node, ls[i], rs, j))
      {
        FoundStep(node, before, ls[i], rs, j);
        var verdict := node.matches(ls[i], rs[j]);
        if verdict == Raises {
          return None;
        }
        if verdict == Yes {
          var row := CoalesceRow(node.keys, ls[i], rs[j]);
          out := out + [row];
        }
      }
      InnerStep(ls, rs, Holds(node), i);
    }
    assert ls[..|ls|] == ls;
    return Some(out);
  }

  lemma NoRows(node: Shape, rs: seq<Row>)
    ensures Map(Merger(node), Inner([], rs, Holds(node))) == []
    ensures Map(Merger(node), LeftJoin([], rs, Holds(node))) == []
  {
  }

  method NestedLoopLeft(node: Shape, ls: seq<Row>, rs: seq<Row>) returns (rows: Option<seq<Row>>)
    requires ShapeFits(node, ls, rs)
    ensures rows == Joined(LEFT, node, ls, rs)
  {
    hide Merge, Map, Hits, LeftJoin, Found, KeysFit;
    var out: seq<Row> := [];
    NoRows(node, rs);
    assert ls[..0] == [];
    for i := 0 to |ls|
      invariant Quiet(node, ls, rs, i, 0)
      invariant out == Map(Merger(node), LeftJoin(ls[..i], rs, Holds(node)))
    {
      ghost var before := LeftJoin(ls[..i], rs, Holds(node));
      FoundNone(node, before, ls[i], rs);
      var matched := false;
      for j := 0 to |rs|
        invariant Quiet(node, ls, rs, i, j)
        invariant matched <==> Found(node, ls[i], rs, j) != []
        invariant out == Map(Merger(node), before + Found(node, ls[i], rs, j))
      {
        FoundStep(node, before, ls[i], rs, j);
        var verdict := node.matches(ls[i], rs[j]);
        if verdict == Raises {
          return None;
        }
        if verdict == Yes {
          var row := CoalesceRow(node.keys, ls[i], rs[j]);
          out := out + [row];
          matched := true;
        }
      }
      RowsGrow(node, before, !matched, OnlyLeft(ls[i]));
      if !matched {
        var row := NullPadRight(node.keys, ls[i], node.rw);
        out := out + [row];
      }
      InnerStep(ls, rs, Holds(node), i);
    }
    assert ls[..|ls|] == ls;
    return Some(out);
  }

  // The same from the right.

  function FoundOfRight(node: Shape, ls: seq<Row>, r: Row, i: nat): seq<Pair<Row, Row>>
    requires i <= |ls|
  {
    HitsOfRight(ls[..i], r, Holds(node))
  }

  lemma FoundOfRightStep(node: Shape, pairs: seq<Pair<Row, Row>>, ls: seq<Row>, r: Row, i: nat)
    requires i < |ls|
    ensures var hit := node.matches(ls[i], r) == Yes;
      && FoundOfRight(node, ls, r, i + 1) == FoundOfRight(node, ls, r, i) + OneIf(hit, Both(ls[i], r))
      && Map(Merger(node), pairs + FoundOfRight(node, ls, r, i + 1)) == Map(Merger(node), pairs + FoundOfRight(node, ls, r, i))
           + OneIf(hit, Merge(node.keys, node.lw, node.rw, Both(ls[i], r)))
  {
    hide Merge, Map;
    var hit := node.matches(ls[i], r) == Yes;
    HitsOfRightStep(ls, r, Holds(node), i);
    RowsGrow(node, pairs + FoundOfRight(node, ls, r, i), hit, Both(ls[i], r));
    assert pairs + (FoundOfRight(node, ls, r, i) + OneIf(hit, Both(ls[i], r)))
        == (pairs + FoundOfRight(node, ls, r, i)) + OneIf(hit, Both(ls[i], r));
  }

  lemma FoundOfRightNone(node: Shape, pairs: seq<Pair<Row, Row>>, ls: seq<Row>, r: Row)
    ensures FoundOfRight(node, ls, r, 0) == [] && pairs + FoundOfRight(node, ls, r, 0) == pairs
    ensures FoundOfRight(node, ls, r, |ls|) == HitsOfRight(ls, r, Holds(node))
  {
    assert ls[..0] == [] && ls[..|ls|] == ls;
  }

  lemma RightStep<A, B>(ls: seq<A>, rs: seq<B>, m: (A, B) -> bool, j: nat)
    requires j < |rs|
    ensures RightJoin(ls, rs[..j + 1], m) == RightJoin(ls, rs[..j], m) + OrAlone(HitsOfRight(ls, rs[j], m), OnlyRight(rs[j]))
    ensures UnmatchedRight(ls, rs[..j + 1], m) ==
            UnmatchedRight(ls, rs[..j], m) + OneIf(HitsOfRight(ls, rs[j], m) == [], OnlyRight(rs[j]))
  {
    assert rs[..j + 1][..j] == rs[..j];
  }

  lemma NoRightRows(node: Shape, ls: seq<Row>)
    ensures Map(Merger(node), RightJoin(ls, [], Holds(node))) == []
    ensures UnmatchedRight(ls, [], Holds(node)) == []
  {
  }

  /** No pair seen so far raises, right rows first. */
  ghost predicate QuietByRight(node: Shape, ls: seq<Row>, rs: seq<Row>, j: nat, i: nat) {
    && i <= |ls| && j <= |rs|
    && (forall a, b :: 0 <= b < j && 0 <= a < |ls| ==> node.matches(ls[a], rs[b]) != Raises)
    && (j < |rs| ==> forall a :: 0 <= a < i ==> node.matches(ls[a], rs[j]) != Raises)
  }

  method NestedLoopRight(node: Shape, ls: seq<Row>, rs: seq<Row>) returns (rows: Option<seq<Row>>)
    requires ShapeFits(node, ls, rs)
    ensures rows == Joined(RIGHT, node, ls, rs)
  {
    hide Merge, Map, HitsOfRight, RightJoin, FoundOfRight, KeysFit;
    var out: seq<Row> := [];
    NoRightRows(node, ls);
    assert rs[..0] == [];
    for j := 0 to |rs|
      invariant QuietByRight(node, ls, rs, j, 0)
      invariant out == Map(Merger(node), RightJoin(ls, rs[..j], Holds(node)))
    {
      ghost var before := RightJoin(ls, rs[..j], Holds(node));
      FoundOfRightNone(node, before, ls, rs[j]);
      var matched := false;
      for i := 0 to |ls|
        invariant QuietByRight(node, ls, rs, j, i)
        invariant matched <==> FoundOfRight(node, ls, rs[j], i) != []
        invariant out == Map(Merger(node), before + FoundOfRight(node, ls, rs[j], i))
      {
        FoundOfRightStep(node, before, ls, rs[j], i);
        var verdict := node.matches(ls[i], rs[j]);
        if verdict == Raises {
          return None;
        }
        if verdict == Yes {
          var row := CoalesceRow(node.keys, ls[i], rs[j]);
          out := out + [row];
          matched := true;
        }
      }
      RowsGrow(node, before, !matched, OnlyRight(rs[j]));
      if !matched {
        var row := NullPadLeft(node.keys, rs[j], node.lw);
        out := out + [row];
      }
      RightStep(ls, rs, Holds(node), j);
    }
    assert rs[..|rs|] == rs;
    return Some(out);
  }

  /** The indices of right rows matched by one of the first `i` left rows, or by left row `i`
      and among the first `j`. */
  ghost predicate MatchedIndices(node: Shape, ls: seq<Row>, rs: seq<Row>, i: nat, j: nat, seen: set<nat>) {
    && (forall b :: b in seen ==> b < |rs|)
    && forall b :: 0 <= b < |rs| ==> (b in seen <==> SeenBy(node, ls, rs[b], i) || (i < |ls| && b < j && node.matches(ls[i], rs[b]) == Yes))
  }

  ghost predicate SeenBy(node: Shape, ls: seq<Row>, r: Row, i: nat) {
    exists a :: 0 <= a < i && a < |ls| && node.matches(ls[a], r) == Yes
  }

  lemma SeenIsMatched(node: Shape, ls: seq<Row>, rs: seq<Row>, seen: set<nat>, b: nat)
    requires MatchedIndices(node, ls, rs, |ls|, 0, seen) && b < |rs|
    ensures b in seen <==> HitsOfRight(ls, rs[b], Holds(node)) != []
  {
    HitsOfRightEmpty(ls, rs[b], Holds(node));
    if b !in seen {
      assert forall a :: 0 <= a < |ls| ==> node.matches(ls[a], rs[b]) != Yes;
    }
  }

  lemma RowDone(node: Shape, ls: seq<Row>, rs: seq<Row>, i: nat, seen: set<nat>)
    requires i < |ls| && MatchedIndices(node, ls, rs, i, |rs|, seen)
    ensures MatchedIndices(node, ls, rs, i + 1, 0, seen)
  {
    forall b | 0 <= b < |rs| ensures b in seen <==> SeenBy(node, ls, rs[b], i + 1) {
    }
  }

  method NestedLoopFull(node: Shape, ls: seq<Row>, rs: seq<Row>) returns (rows: Option<seq<Row>>)
    requires ShapeFits(node, ls, rs)
    ensures rows == Joined(FULL, node, ls, rs)
  {
    hide Merge, Map, Hits, HitsOfRight, LeftJoin, Found, KeysFit, MatchedIndices, UnmatchedRight;
    var out: seq<Row> := [];
    var rightMatched: set<nat> := {};
    NoRows(node, rs);
    NoneSeen(node, ls, rs);
    assert ls[..0] == [];
    for i := 0 to |ls|
      invariant Quiet(node, ls, rs, i, 0) && MatchedIndices(node, ls, rs, i, 0, rightMatched)
      invariant out == Map(Merger(node), LeftJoin(ls[..i], rs, Holds(node)))
    {
      ghost var before := LeftJoin(ls[..i], rs, Holds(node));
      FoundNone(node, before, ls[i], rs);
      var matched := false;
      for j := 0 to |rs|
        invariant Quiet(node, ls, rs, i, j) && MatchedIndices(node, ls, rs, i, j, rightMatched)
        invariant matched <==> Found(node, ls[i], rs, j) != []
        invariant out == Map(Merger(node), before + Found(node, ls[i], rs, j))
      {
        FoundStep(node, before, ls[i], rs, j);
        SeenStep(node, ls, rs, i, j, rightMatched);
        var verdict := node.matches(ls[i], rs[j]);
        if verdict == Raises {
          return None;
        }
        if verdict == Yes {
          var row := CoalesceRow(node.keys, ls[i], rs[j]);
          out := out + [row];
          rightMatched := rightMatched + {j};
          matched := true;
        }
      }
      RowDone(node, ls, rs, i, rightMatched);
      RowsGrow(node, before, !matched, OnlyLeft(ls[i]));
      if !matched {
        var row := NullPadRight(node.keys, ls[i], node.rw);
        out := out + [row];
      }
      InnerStep(ls, rs, Holds(node), i);
    }
    assert ls[..|ls|] == ls;
    out := AppendUnmatched(node, ls, rs, out, rightMatched);
    return Some(out);
  }

  lemma NoneSeen(node: Shape, ls: seq<Row>, rs: seq<Row>)
    ensures MatchedIndices(node, ls, rs, 0, 0, {})
  {
  }

  lemma SeenStep(node: Shape, ls: seq<Row>, rs: seq<Row>, i: nat, j: nat, seen: set<nat>)
    requires MatchedIndices(node, ls, rs, i, j, seen) && i < |ls| && j < |rs|
    ensures MatchedIndices(node, ls, rs, i, j + 1, if node.matches(ls[i], rs[j]) == Yes then seen + {j} else seen)
  {
  }

  /** The second phase of a full join. */
  method AppendUnmatched(node: Shape, ls: seq<Row>, rs: seq<Row>, rows: seq<Row>, rightMatched: set<nat>) returns (out: seq<Row>)
    requires ShapeFits(node, ls, rs) && MatchedIndices(node, ls, rs, |ls|, 0, rightMatched)
    requires rows == Map(Merger(node), LeftJoin(ls, rs, Holds(node)))
    ensures out == Map(Merger(node), FullJoin(ls, rs, Holds(node)))
  {
    hide Merge, Map, HitsOfRight, LeftJoin, KeysFit, MatchedIndices, UnmatchedRight;
    out := rows;
    ghost var left := LeftJoin(ls, rs, Holds(node));
    NoRightRows(node, ls);
    assert rs[..0] == [] && left + [] == left;
    for j := 0 to |rs|
      invariant out == Map(Merger(node), left + UnmatchedRight(ls, rs[..j], Holds(node)))
    {
      ghost var before := UnmatchedRight(ls, rs[..j], Holds(node));
      SeenIsMatched(node, ls, rs, rightMatched, j);
      RightStep(ls, rs, Holds(node), j);
      RowsGrow(node, left + before, j !in rightMatched, OnlyRight(rs[j]));
      assert left + (before + OneIf(j !in rightMatched, OnlyRight(rs[j])))
          == (left + before) + OneIf(j !in rightMatched, OnlyRight(rs[j]));
      if j !in rightMatched {
        var row := NullPadLeft(node.keys, rs[j], node.lw);
        out := out + [row];
      }
    }
    assert rs[..|rs|] == rs;
  }

  /** A cross join looks at neither keys nor predicate. */
  function CrossShape(lw: nat, rw: nat): Shape {
    Shape([], lw, rw, (l, r) => Yes)
  }

  method NestedLoopCross(ls: seq<Row>, rs: seq<Row>, ghost lw: nat, ghost rw: nat) returns (out: seq<Row>)
    requires ShapeFits(CrossShape(lw, rw), ls, rs)
    ensures Some(out) == Joined(CROSS, CrossShape(lw, rw), ls, rs)
  {
    ghost var node := CrossShape(lw, rw);
    hide Merge, Map, Hits, Inner, Found, KeysFit;
    out := [];
    NoRows(node, rs);
    assert ls[..0] == [];
    for i := 0 to |ls|
      invariant out == Map(Merger(node), Inner(ls[..i], rs, Holds(node)))
    {
      ghost var before := Inner(ls[..i], rs, Holds(node));
      FoundNone(node, before, ls[i], rs);
      for j := 0 to |rs|
        invariant out == Map(Merger(node), before + Found(node, ls[i], rs, j))
      {
        FoundStep(node, before, ls[i], rs, j);
        CrossPair(lw, rw, ls[i], rs[j]);
        out := out + [ls[i] + rs[j]];
      }
      InnerStep(ls, rs, Holds(node), i);
    }
    assert ls[..|ls|] == ls;
    CrossNeverRaises(lw, rw, ls, rs);
  }

  lemma CrossPair(lw: nat, rw: nat, l: Row, r: Row)
    requires |l| == lw && |r| == rw
    ensures CrossShape(lw, rw).matches(l, r) == Yes
    ensures var node := CrossShape(lw, rw); Merge(node.keys, node.lw, node.rw, Both(l, r)) == l + r
  {
    NoKeys(l, r, |r|);
    assert r[..|r|] == r;
  }

  lemma CrossNeverRaises(lw: nat, rw: nat, ls: seq<Row>, rs: seq<Row>)
    ensures !AnyRaises(CrossShape(lw, rw), ls, rs)
    ensures Join(CROSS, ls, rs, Holds(CrossShape(lw, rw))) == Inner(ls, rs, Holds(CrossShape(lw, rw)))
  {
    var m: (Row, Row) -> bool := (a, b) => true;
    InnerSame(ls, rs, m, Holds(CrossShape(lw, rw)));
  }

  lemma {:induction false} InnerSame(ls: seq<Row>, rs: seq<Row>, m: (Row, Row) -> bool, n: (Row, Row) -> bool)
    requires forall l, r :: m(l, r) <==> n(l, r)
    ensures Inner(ls, rs, m) == Inner(ls, rs, n)
  {
    if ls != [] {
      InnerSame(ls[..|ls| - 1], rs, m, n);
      HitsSame(ls[|ls| - 1], rs, m, n);
    }
  }

  lemma {:induction false} HitsSame(l: Row, rs: seq<Row>, m: (Row, Row) -> bool, n: (Row, Row) -> bool)
    requires forall a, b :: m(a, b) <==> n(a, b)
    ensures Hits(l, rs, m) == Hits(l, rs, n)
  {
    if rs != [] {
      HitsSame(l, rs[..|rs| - 1], m, n);
    }
  }
}
