/** Compiling a join query keeps its meaning: the rows the compiled plan produces are the rows
    the query denotes when every column is looked up by name. */
module JoinMeaning {
  import opened Wrappers
  import opened JoinAlgebra
  import opened JoinRows
  import opened JoinQueries

  datatype JoinSpec = JoinSpec(kind: Kind, right: Source, on: Option<Expr<OnAtom>>, natural: bool, using: seq<string>)

  datatype Query = Query(from: Source, joins: seq<JoinSpec>, condition: Option<Expr<WhereAtom>>)

  /** `joins[i]` joins `Sources(q)[i + 1]` to everything before it. */
  function Sources(q: Query): (r: seq<Source>)
    ensures |r| == |q.joins| + 1
  {
    [q.from] + seq(|q.joins|, i requires 0 <= i < |q.joins| => q.joins[i].right)
  }

  function CommonColumns(l: seq<string>, r: seq<string>): seq<string> {
    if l == [] then [] else
      var k := |l| - 1;
      CommonColumns(l[..k], r) + if l[k] in r then [l[k]] else []
  }

  /** NATURAL keys are the columns of the left schema that the right one has, in left order. */
  lemma {:induction false} CommonAre(l: seq<string>, r: seq<string>) returns (at: seq<nat>)
    ensures |at| == |CommonColumns(l, r)| && forall i :: 0 <= i < |at| ==> at[i] < |l| && CommonColumns(l, r)[i] == l[at[i]]
    ensures forall i, j :: 0 <= i < j < |at| ==> at[i] < at[j]
    ensures forall p: nat :: p in at <==> p < |l| && l[p] in r
  {
    at := [];
    if l != [] {
      var k := |l| - 1;
      var before := CommonAre(l[..k], r);
      assert forall i :: 0 <= i < |before| ==> before[i] in before;
      at := before + if l[k] in r then [k] else [];
      forall p: nat ensures p in at <==> p < |l| && l[p] in r {
        assert p < k ==> l[..k][p] == l[p];
      }
    }
  }

  /** The key columns of a join. */
  function KeyNames(q: Query, i: nat): seq<string>
    requires i < |q.joins|
  {
    if q.joins[i].natural then CommonColumns(Sources(q)[i].schema, Sources(q)[i + 1].schema) else q.joins[i].using
  }

  /** Keys join two tables only, and never on CROSS. */
  predicate QueryOk(q: Query) {
    && SourcesOk(Sources(q))
    && forall i :: 0 <= i < |q.joins| && KeyNames(q, i) != [] ==> |q.joins| == 1 && q.joins[i].kind != CROSS
  }

  // ---- compiling ------------------------------------------------------------

  /** `_resolve_using_or_natural`; `None` is MissingUsingKey. */
  function KeysFor(names: seq<string>, l: seq<string>, r: seq<string>): Option<seq<JoinKey>> {
    if names == [] then Some([]) else
      var k := |names| - 1;
      var rest, lp, rp := KeysFor(names[..k], l, r), PositionOf(l, names[k]), PositionOf(r, names[k]);
      if rest.None? || lp.None? || rp.None? then None else Some(rest.value + [JoinKey(lp.value, rp.value)])
  }

  function CompileKeys(q: Query, i: nat): Option<seq<JoinKey>>
    requires i < |q.joins|
  {
    KeysFor(KeyNames(q, i), Sources(q)[i].schema, Sources(q)[i + 1].schema)
  }

  /** The folded ON of a join, if it has one; the outer `None` is a resolution error. */
  function CompileOn(q: Query, i: nat): Option<Option<Expr<OnFolded>>>
    requires i < |q.joins|
  {
    match q.joins[i].on
    case None => Some(None)
    case Some(e) => match Fold(e, FoldOn(Sources(q))) case None => None case Some(f) => Some(Some(f))
  }

  /** The left-deep chain of the first `n` joins. */
  function CompileJoins(q: Query, n: nat): Option<Plan>
    requires n <= |q.joins|
  {
    if n == 0 then Some(Scan(Sources(q)[0])) else
      var left, keys, on := CompileJoins(q, n - 1), CompileKeys(q, n - 1), CompileOn(q, n - 1);
      if left.None? || keys.None? || on.None? then None
      else Some(JoinNode(q.joins[n - 1].kind, left.value, Scan(Sources(q)[n]), keys.value, on.value))
  }

  /** `build_plan`, join part. */
  method BuildJoins(q: Query) returns (plan: Option<Plan>)
    ensures plan == CompileJoins(q, |q.joins|)
  {
    hide CompileKeys, CompileOn;
    plan := Some(Scan(Sources(q)[0]));
    for i := 0 to |q.joins|
      invariant plan == CompileJoins(q, i)
    {
      var keys, on := CompileKeys(q, i), CompileOn(q, i);
      plan := if plan.None? || keys.None? || on.None? then None
              else Some(JoinNode(q.joins[i].kind, plan.value, Scan(Sources(q)[i + 1]), keys.value, on.value));
    }
  }

  // ---- the meaning by name --------------------------------------------------

  /** For each source so far its scanned row, or nothing where an outer join padded it. */
  type Tuple = seq<Option<Row>>

  function Padded(o: Option<Row>, w: nat): Row {
    if o.Some? then o.value else Nulls(w)
  }

  /** Column `p` of source `k`. */
  function Lookup(q: Query, t: Tuple, k: nat, p: nat): Value
    requires k < |t|
  {
    if t[k].Some? && p < |t[k].value| then t[k].value[p] else Null
  }

  /** Both sides have the same non-NULL value under every key name. */
  predicate SameKeys(q: Query, i: nat, t: Tuple, r: Row)
    requires i < |q.joins| && |t| == i + 1
  {
    forall name :: name in KeyNames(q, i) ==> SameUnder(q, i, t, r, name)
  }

  predicate SameUnder(q: Query, i: nat, t: Tuple, r: Row, name: string)
    requires i < |q.joins| && |t| == i + 1
  {
    var l, rp := PositionOf(Sources(q)[i].schema, name), PositionOf(Sources(q)[i + 1].schema, name);
    l.Some? && rp.Some? && rp.value < |r| && Lookup(q, t, i, l.value) != Null && Lookup(q, t, i, l.value) == r[rp.value]
  }

  /** One ON comparison: left operand from the sources before `n`, right operand from `n`. */
  function NamedOn(q: Query, n: nat, t: Tuple, r: Row): OnAtom -> Verdict
    requires n < |Sources(q)| && |t| == n
  {
    (a: OnAtom) =>
      var l, rr := Resolve(Sources(q), a.left), Resolve(Sources(q), a.right);
      if l.None? || rr.None? || l.value.0 >= n || rr.value.0 != n || rr.value.1 >= |r| then Raises
      else Compare(a.op, Lookup(q, t, l.value.0, l.value.1), r[rr.value.1])
  }

  function NamedMatch(q: Query, i: nat): (Tuple, Row) -> Verdict
    requires i < |q.joins|
  {
    (t: Tuple, r: Row) =>
      if |t| != i + 1 then Raises
      else if KeyNames(q, i) != [] then Truth(SameKeys(q, i, t, r))
      else match q.joins[i].on
        case None => Yes
        case Some(e) => Eval(e, NamedOn(q, i + 1, t, r))
  }

  function NamedHolds(q: Query, i: nat): (Tuple, Row) -> bool
    requires i < |q.joins|
  {
    (t, r) => NamedMatch(q, i)(t, r) == Yes
  }

  function NoRows(n: nat): (t: Tuple)
    ensures |t| == n && forall i :: 0 <= i < n ==> t[i] == None
  {
    seq(n, _ => None)
  }

  /** What a pair stands for, `n` sources on the left. */
  function ToTuple(n: nat): Pair<Tuple, Row> -> Tuple {
    (p: Pair<Tuple, Row>) =>
      match p
      case Both(t, r) => t + [Some(r)]
      case OnlyLeft(t) => t + [None]
      case OnlyRight(r) => NoRows(n) + [Some(r)]
  }

  function Single(): Row -> Tuple {
    (r: Row) => [Some(r)]
  }

  ghost predicate NamedRaises(q: Query, i: nat, ts: seq<Tuple>, rs: seq<Row>)
    requires i < |q.joins|
  {
    exists a, b :: 0 <= a < |ts| && 0 <= b < |rs| && NamedMatch(q, i)(ts[a], rs[b]) == Raises
  }

  /** One more join; CROSS looks at no predicate. */
  ghost function NamedJoin(q: Query, n: nat, ts: seq<Tuple>, rs: seq<Row>): Option<seq<Tuple>>
    requires 1 <= n <= |q.joins|
  {
    if q.joins[n - 1].kind != CROSS && NamedRaises(q, n - 1, ts, rs) then None
    else Some(Map(ToTuple(n), Join(q.joins[n - 1].kind, ts, rs, NamedHolds(q, n - 1))))
  }

  /** The tuples of the first `n` joins; `None` when a predicate raises. */
  ghost function Named(q: Query, tables: Tables, n: nat): Option<seq<Tuple>>
    requires n <= |q.joins|
  {
    if n == 0 then Some(Map(Single(), tables(Sources(q)[0].table))) else
      var ts := Named(q, tables, n - 1);
      if ts.None? then None else NamedJoin(q, n, ts.value, tables(Sources(q)[n].table))
  }

  /** A tuple and a row that matches, on CROSS any row. */
  ghost predicate TuplePaired(q: Query, n: nat, ts: seq<Tuple>, rs: seq<Row>, t: Tuple)
    requires 1 <= n <= |q.joins|
  {
    exists u, r :: u in ts && r in rs && (q.joins[n - 1].kind == CROSS || NamedMatch(q, n - 1)(u, r) == Yes) && t == u + [Some(r)]
  }

  /** A tuple that matches nothing, padded. */
  ghost predicate TupleAlone(q: Query, n: nat, ts: seq<Tuple>, rs: seq<Row>, t: Tuple)
    requires 1 <= n <= |q.joins|
  {
    exists u :: u in ts && (forall r :: r in rs ==> NamedMatch(q, n - 1)(u, r) != Yes) && t == u + [None]
  }

  /** A row that matches nothing, behind padding. */
  ghost predicate RowAlone(q: Query, n: nat, ts: seq<Tuple>, rs: seq<Row>, t: Tuple)
    requires 1 <= n <= |q.joins|
  {
    exists r :: r in rs && (forall u :: u in ts ==> NamedMatch(q, n - 1)(u, r) != Yes) && t == NoRows(n) + [Some(r)]
  }

  /** What one more join is made of: the matching pairs; for LEFT and FULL the tuples that match
      nothing; for RIGHT and FULL the rows that match nothing. */
  ghost predicate InNamedJoin(q: Query, n: nat, ts: seq<Tuple>, rs: seq<Row>, t: Tuple)
    requires 1 <= n <= |q.joins|
  {
    var kind := q.joins[n - 1].kind;
    || TuplePaired(q, n, ts, rs, t)
    || ((kind == LEFT || kind == FULL) && TupleAlone(q, n, ts, rs, t))
    || ((kind == RIGHT || kind == FULL) && RowAlone(q, n, ts, rs, t))
  }

  lemma NamedMember(q: Query, n: nat, ts: seq<Tuple>, rs: seq<Row>, t: Tuple)
    requires 1 <= n <= |q.joins| && NamedJoin(q, n, ts, rs).Some?
    ensures t in NamedJoin(q, n, ts, rs).value <==> InNamedJoin(q, n, ts, rs, t)
  {
    hide Join, NamedMatch, NamedHolds, InJoin, InNamedJoin, ToTuple, NamedRaises;
    var kind, m := q.joins[n - 1].kind, NamedHolds(q, n - 1);
    var pairs, all := Join(kind, ts, rs, m), NamedJoin(q, n, ts, rs).value;
    if t in all {
      var i :| 0 <= i < |all| && all[i] == t;
      JoinMember(kind, ts, rs, m, pairs[i]);
      PairStands(q, n, ts, rs, pairs[i]);
    }
    if InNamedJoin(q, n, ts, rs, t) {
      var p := PairOf(q, n, ts, rs, t);
      JoinMember(kind, ts, rs, m, p);
      var i :| 0 <= i < |pairs| && pairs[i] == p;
      assert all[i] == t;
    }
  }

  lemma PairStands(q: Query, n: nat, ts: seq<Tuple>, rs: seq<Row>, p: Pair<Tuple, Row>)
    requires 1 <= n <= |q.joins| && InJoin(q.joins[n - 1].kind, ts, rs, NamedHolds(q, n - 1), p)
    ensures InNamedJoin(q, n, ts, rs, ToTuple(n)(p))
  {
    hide NamedMatch;
  }

  lemma PairOf(q: Query, n: nat, ts: seq<Tuple>, rs: seq<Row>, t: Tuple) returns (p: Pair<Tuple, Row>)
    requires 1 <= n <= |q.joins| && InNamedJoin(q, n, ts, rs, t)
    ensures InJoin(q.joins[n - 1].kind, ts, rs, NamedHolds(q, n - 1), p) && ToTuple(n)(p) == t
  {
    hide NamedMatch;
    var kind, m := q.joins[n - 1].kind, NamedMatch(q, n - 1);
    if TuplePaired(q, n, ts, rs, t) {
      var u, r :| u in ts && r in rs && (kind == CROSS || m(u, r) == Yes) && t == u + [Some(r)];
      p := Both(u, r);
    } else if (kind == LEFT || kind == FULL) && TupleAlone(q, n, ts, rs, t) {
      var u :| u in ts && (forall r :: r in rs ==> m(u, r) != Yes) && t == u + [None];
      p := OnlyLeft(u);
    } else {
      var r :| r in rs && (forall u :: u in ts ==> m(u, r) != Yes) && t == NoRows(n) + [Some(r)];
      p := OnlyRight(r);
    }
  }

  // ---- the joined row of a tuple --------------------------------------------

  predicate TupleOk(q: Query, t: Tuple) {
    && 1 <= |t| <= |Sources(q)|
    && forall k :: 0 <= k < |t| ==> t[k].None? || |t[k].value| == |Sources(q)[k].schema|
  }

  function KeyList(q: Query, i: nat): seq<JoinKey>
    requires i < |q.joins|
  {
    var keys := CompileKeys(q, i);
    if keys.None? || q.joins[i].kind == CROSS then [] else keys.value
  }

  /** How wide the row of `n + 1` sources is. */
  function RowWidth(q: Query, n: nat): nat
    requires n <= |q.joins|
  {
    if n == 0 then |Sources(q)[0].schema| else RowWidth(q, n - 1) + KeptBefore(KeyList(q, n - 1), |Sources(q)[n].schema|)
  }

  /** Columns of all sources in order, key columns coalesced. */
  function Flat(q: Query, t: Tuple): Row
    requires 1 <= |t| <= |Sources(q)|
  {
    var n := |t| - 1;
    var r := Padded(t[n], |Sources(q)[n].schema|);
    if n == 0 then r else Merge(KeyList(q, n - 1), RowWidth(q, n - 1), |Sources(q)[n].schema|, Both(Flat(q, t[..n]), r))
  }

  function Flatten(q: Query): Tuple -> Row {
    (t: Tuple) => if 1 <= |t| <= |Sources(q)| then Flat(q, t) else []
  }

  // ---- keys -----------------------------------------------------------------

  lemma {:induction false} KeysForAre(names: seq<string>, l: seq<string>, r: seq<string>)
    requires KeysFor(names, l, r).Some?
    ensures forall k :: k in KeysFor(names, l, r).value ==>
              k.leftCol < |l| && k.rightCol < |r| && l[k.leftCol] == r[k.rightCol] && l[k.leftCol] in names
    ensures forall name :: name in names ==>
              && PositionOf(l, name).Some? && PositionOf(r, name).Some?
              && JoinKey(PositionOf(l, name).value, PositionOf(r, name).value) in KeysFor(names, l, r).value
    ensures KeysFor(names, l, r).value == [] <==> names == []
  {
    if names != [] {
      var k := |names| - 1;
      KeysForAre(names[..k], l, r);
      assert names == names[..k] + [names[k]];
    }
  }

  lemma UniquePosition(schema: seq<string>, i: nat, j: nat)
    requires i < |schema| && j < |schema| && schema[i] == schema[j]
    requires forall a, b :: 0 <= a < b < |schema| ==> schema[a] != schema[b]
    ensures i == j
  {
  }

  lemma KeysForFit(names: seq<string>, l: Source, r: Source)
    requires KeysFor(names, l.schema, r.schema).Some? && DistinctColumns(l) && DistinctColumns(r)
    ensures KeysFit(KeysFor(names, l.schema, r.schema).value, |l.schema|, |r.schema|)
  {
    KeysForAre(names, l.schema, r.schema);
    var keys := KeysFor(names, l.schema, r.schema).value;
    forall j, k | j in keys && k in keys && (j.leftCol == k.leftCol || j.rightCol == k.rightCol) ensures j == k {
      UniquePosition(l.schema, j.leftCol, k.leftCol);
      UniquePosition(r.schema, j.rightCol, k.rightCol);
    }
  }

  /** Keys fit the left row: there are none, or the left row is that of the first table. */
  lemma KeyListFits(q: Query, i: nat)
    requires QueryOk(q) && i < |q.joins|
    ensures KeysFit(KeyList(q, i), RowWidth(q, i), |Sources(q)[i + 1].schema|)
  {
    if KeyNames(q, i) != [] && CompileKeys(q, i).Some? {
      KeysForFit(KeyNames(q, i), Sources(q)[i], Sources(q)[i + 1]);
    } else {
      NoKeys([], [], 0);
    }
  }

  // ---- widths and padding ---------------------------------------------------

  lemma BothWide(keys: seq<JoinKey>, l: Row, r: Row)
    requires KeysFit(keys, |l|, |r|)
    ensures |Merge(keys, |l|, |r|, Both(l, r))| == |l| + KeptBefore(keys, |r|)
  {
  }

  lemma BothNulls(keys: seq<JoinKey>, lw: nat, rw: nat)
    requires KeysFit(keys, lw, rw)
    ensures Merge(keys, lw, rw, Both(Nulls(lw), Nulls(rw))) == Nulls(lw + KeptBefore(keys, rw))
  {
    NullsCoalesced(keys, lw, rw, rw);
  }

  /** A padded row is a row of NULLs. */
  lemma PaddingIsNulls(keys: seq<JoinKey>, lw: nat, rw: nat, l: Row, r: Row)
    ensures Merge(keys, lw, rw, OnlyLeft(l)) == Merge(keys, lw, rw, Both(l, Nulls(rw)))
    ensures Merge(keys, lw, rw, OnlyRight(r)) == Merge(keys, lw, rw, Both(Nulls(lw), r))
  {
  }

  lemma FlatUnfold(q: Query, t: Tuple)
    requires 1 <= |t| <= |Sources(q)|
    ensures var n := |t| - 1;
      var r := Padded(t[n], |Sources(q)[n].schema|);
      Flat(q, t) == if n == 0 then r
                    else Merge(KeyList(q, n - 1), RowWidth(q, n - 1), |Sources(q)[n].schema|, Both(Flat(q, t[..n]), r))
  {
    hide Merge, KeyList, Sources;
  }

  lemma {:induction false} FlatWide(q: Query, t: Tuple)
    requires QueryOk(q) && TupleOk(q, t)
    ensures |Flat(q, t)| == RowWidth(q, |t| - 1)
    decreases |t|
  {
    hide KeyList, KeysFit, Merge, QueryOk, Flat, Sources;
    var n := |t| - 1;
    FlatUnfold(q, t);
    if n > 0 {
      FlatWide(q, t[..n]);
      KeyListFits(q, n - 1);
      BothWide(KeyList(q, n - 1), Flat(q, t[..n]), Padded(t[n], |Sources(q)[n].schema|));
    }
  }

  /** A side that matched nothing is a row of NULLs. */
  lemma {:induction false} FlatPadding(q: Query, n: nat)
    requires QueryOk(q) && 1 <= n <= |Sources(q)|
    ensures Flat(q, NoRows(n)) == Nulls(RowWidth(q, n - 1))
  {
    hide KeyList, KeysFit, Merge, QueryOk, Flat, Sources;
    FlatUnfold(q, NoRows(n));
    if n > 1 {
      FlatPadding(q, n - 1);
      assert NoRows(n)[..n - 1] == NoRows(n - 1);
      KeyListFits(q, n - 2);
      BothNulls(KeyList(q, n - 2), RowWidth(q, n - 2), |Sources(q)[n - 1].schema|);
    }
  }

  /** Merging rows is flattening the tuple of the pair. */
  lemma MergeIsFlat(q: Query, n: nat, p: Pair<Tuple, Row>)
    requires QueryOk(q) && 1 <= n < |Sources(q)|
    requires p.OnlyRight? || (|p.a| == n && TupleOk(q, p.a))
    requires p.OnlyLeft? || |p.b| == |Sources(q)[n].schema|
    ensures TupleOk(q, ToTuple(n)(p)) && |ToTuple(n)(p)| == n + 1
    ensures Merge(KeyList(q, n - 1), RowWidth(q, n - 1), |Sources(q)[n].schema|, MapPair(Flatten(q), Same(), p))
         == Flat(q, ToTuple(n)(p))
  {
    hide KeyList, Merge, QueryOk, RowWidth;
    var t := ToTuple(n)(p);
    FlatPadding(q, n);
    assert t[..n] == if p.OnlyRight? then NoRows(n) else p.a;
    assert t[n] == if p.OnlyLeft? then None else Some(p.b);
    PaddingIsNulls(KeyList(q, n - 1), RowWidth(q, n - 1), |Sources(q)[n].schema|,
                   if p.OnlyRight? then [] else Flat(q, p.a), if p.OnlyLeft? then [] else p.b);
  }

  function Same(): Row -> Row {
    (r: Row) => r
  }

  // ---- positions ------------------------------------------------------------

  predicate Keyless(q: Query)
  {
    forall i :: 0 <= i < |q.joins| ==> KeyNames(q, i) == []
  }

  lemma KeylessList(q: Query, i: nat)
    requires QueryOk(q) && i < |q.joins| && KeyNames(q, i) == []
    ensures KeyList(q, i) == []
  {
  }

  lemma {:induction false} KeylessWidth(q: Query, n: nat)
    requires QueryOk(q) && Keyless(q) && n <= |q.joins|
    ensures RowWidth(q, n) == Offset(Sources(q), n + 1)
  {
    hide KeyList;
    if n > 0 {
      KeylessWidth(q, n - 1);
      KeylessList(q, n - 1);
      NoKeys([], Nulls(|Sources(q)[n].schema|), |Sources(q)[n].schema|);
    } else {
      assert Offset(Sources(q), 1) == Offset(Sources(q), 0) + |Sources(q)[0].schema|;
    }
  }

  /** Without keys the joined row is the padded rows side by side. */
  lemma FlatStep(q: Query, t: Tuple)
    requires QueryOk(q) && Keyless(q) && TupleOk(q, t) && |t| > 1
    ensures Flat(q, t) == Flat(q, t[..|t| - 1]) + Padded(t[|t| - 1], |Sources(q)[|t| - 1].schema|)
  {
    var n := |t| - 1;
    var r := Padded(t[n], |Sources(q)[n].schema|);
    KeylessList(q, n - 1);
    NoKeys(Flat(q, t[..n]), r, |r|);
    assert r[..|r|] == r;
  }

  /** The column of a source is at its offset in the joined row of any number of joins. */
  lemma {:induction false} ColumnAtOffset(q: Query, t: Tuple, k: nat, p: nat)
    requires QueryOk(q) && Keyless(q) && TupleOk(q, t) && k < |t| && p < |Sources(q)[k].schema|
    ensures Offset(Sources(q), k) + p < |Flat(q, t)|
    ensures Flat(q, t)[Offset(Sources(q), k) + p] == Lookup(q, t, k, p)
    decreases |t|
  {
    hide Keyless, QueryOk, Flat, RowWidth, Sources;
    var n := |t| - 1;
    if n == 0 {
      FlatOne(q, t);
    } else {
      FlatStep(q, t);
      FlatWide(q, t[..n]);
      KeylessWidth(q, n - 1);
      if k < n {
        ColumnAtOffset(q, t[..n], k, p);
      }
    }
  }

  lemma FlatOne(q: Query, t: Tuple)
    requires QueryOk(q) && TupleOk(q, t) && |t| == 1
    ensures Flat(q, t) == Padded(t[0], |Sources(q)[0].schema|)
  {
  }

  // ---- the compiled match ---------------------------------------------------

  lemma {:induction false} SourcesOfChain(q: Query, n: nat)
    requires QueryOk(q) && n <= |q.joins| && CompileJoins(q, n).Some?
    ensures SourcesOf(CompileJoins(q, n).value) == Sources(q)[..n + 1]
  {
    hide QueryOk, CompileKeys, CompileOn;
    if n > 0 {
      SourcesOfChain(q, n - 1);
    }
  }

  /** An id is in the offset map of the first `n` sources if it is one of theirs. */
  lemma OffsetOfSource(q: Query, n: nat, i: nat)
    requires QueryOk(q) && i < |Sources(q)| && n <= |Sources(q)|
    ensures var m, id := Offsets(Sources(q)[..n]), Sources(q)[i].id;
      (id in m <==> i < n) && (i < n ==> m[id] == Offset(Sources(q), i))
  {
    var first, id := Sources(q)[..n], Sources(q)[i].id;
    assert i < n ==> first[i] == Sources(q)[i];
    OffsetsAt(first, id);
    if SourceOf(first, id).Some? {
      var j := SourceOf(first, id).value;
      assert Sources(q)[j].id == id;
      SameSource(Sources(q), i, j);
      OffsetPrefix(Sources(q), n, j);
    }
  }

  lemma SameSource(sources: seq<Source>, i: nat, j: nat)
    requires DistinctSources(sources) && i < |sources| && j < |sources| && sources[i].id == sources[j].id
    ensures i == j
  {
  }

  /** The map of the right side has the one source, at offset 0. */
  lemma OffsetOfRight(q: Query, n: nat, j: nat)
    requires QueryOk(q) && j < |Sources(q)| && n < |Sources(q)|
    ensures var m, id := Offsets([Sources(q)[n]]), Sources(q)[j].id;
      (id in m <==> j == n) && (id in m ==> m[id] == 0)
  {
    var one := [Sources(q)[n]];
    assert one[..0] == [];
    assert Offsets(one[..0]) == map[];
    assert Offset(one, 0) == 0;
    if Sources(q)[j].id == Sources(q)[n].id {
      SameSource(Sources(q), j, n);
    }
  }

  /** A folded comparison evaluated on the joined left row and the right row. */
  lemma OnAtomKept(q: Query, n: nat, t: Tuple, r: Row, a: OnAtom)
    requires QueryOk(q) && Keyless(q) && TupleOk(q, t) && |t| == n < |Sources(q)| && |r| == |Sources(q)[n].schema|
    requires FoldOn(Sources(q))(a).Some?
    ensures OnVerdict(Offsets(Sources(q)[..n]), Offsets([Sources(q)[n]]), Flat(q, t), r)(FoldOn(Sources(q))(a).value)
         == NamedOn(q, n, t, r)(a)
  {
    hide QueryOk, Keyless, TupleOk, Flat, Offsets, Offset, Lookup, Compare;
    var (i, p) := Resolve(Sources(q), a.left).value;
    var j := Resolve(Sources(q), a.right).value.0;
    OffsetOfSource(q, n, i);
    OffsetOfRight(q, n, j);
    if i < n {
      ColumnAtOffset(q, t, i, p);
    }
  }

  lemma OnKept(q: Query, n: nat, t: Tuple, r: Row, e: Expr<OnAtom>)
    requires QueryOk(q) && Keyless(q) && TupleOk(q, t) && |t| == n < |Sources(q)| && |r| == |Sources(q)[n].schema|
    requires Fold(e, FoldOn(Sources(q))).Some?
    ensures Eval(Fold(e, FoldOn(Sources(q))).value, OnVerdict(Offsets(Sources(q)[..n]), Offsets([Sources(q)[n]]), Flat(q, t), r))
         == Eval(e, NamedOn(q, n, t, r))
  {
    hide QueryOk, Keyless, FoldOn, OnVerdict, NamedOn;
    var v, w := NamedOn(q, n, t, r), OnVerdict(Offsets(Sources(q)[..n]), Offsets([Sources(q)[n]]), Flat(q, t), r);
    forall a | FoldOn(Sources(q))(a).Some? ensures w(FoldOn(Sources(q))(a).value) == v(a) {
      OnAtomKept(q, n, t, r, a);
    }
    var any: OnAtom -> bool := a => true;
    EveryAtomTrue(e, any);
    FoldKeeps(e, FoldOn(Sources(q)), any, v, w);
  }

  lemma KeylessIf(q: Query, i: nat)
    requires QueryOk(q) && i < |q.joins| && KeyNames(q, i) == []
    ensures Keyless(q)
  {
  }

  lemma KeysKept(q: Query, t: Tuple, r: Row)
    requires QueryOk(q) && TupleOk(q, t) && |t| == 1 && |q.joins| == 1 && |r| == |Sources(q)[1].schema|
    requires KeyNames(q, 0) != [] && CompileKeys(q, 0).Some?
    ensures CompileKeys(q, 0).value != []
    ensures KeysMatch(CompileKeys(q, 0).value, Flat(q, t), r) <==> SameKeys(q, 0, t, r)
  {
    hide Sources, KeyNames, PositionOf;
    var l, rr, names := Sources(q)[0], Sources(q)[1], KeyNames(q, 0);
    var keys := CompileKeys(q, 0).value;
    KeysForAre(names, l.schema, rr.schema);
    FlatOne(q, t);
    hide Flat;
    if SameKeys(q, 0, t, r) {
      forall k | k in keys ensures KeyHolds(k, Flat(q, t), r) {
        KeyOfName(l, rr, names, k);
      }
    }
    if KeysMatch(keys, Flat(q, t), r) {
      forall name | name in names ensures SameUnder(q, 0, t, r, name) {
        var k := JoinKey(PositionOf(l.schema, name).value, PositionOf(rr.schema, name).value);
        assert KeyHolds(k, Flat(q, t), r);
      }
    }
  }

  lemma KeyOfName(l: Source, r: Source, names: seq<string>, k: JoinKey)
    requires DistinctColumns(l) && DistinctColumns(r)
    requires KeysFor(names, l.schema, r.schema).Some? && k in KeysFor(names, l.schema, r.schema).value
    ensures k.leftCol < |l.schema| && k.rightCol < |r.schema| && l.schema[k.leftCol] in names
    ensures PositionOf(l.schema, l.schema[k.leftCol]) == Some(k.leftCol)
    ensures PositionOf(r.schema, l.schema[k.leftCol]) == Some(k.rightCol)
  {
    KeysForAre(names, l.schema, r.schema);
    var name := l.schema[k.leftCol];
    UniquePosition(l.schema, k.leftCol, PositionOf(l.schema, name).value);
    UniquePosition(r.schema, k.rightCol, PositionOf(r.schema, name).value);
  }

  /** What the node of join `n - 1` matches with. */
  function CompiledMatch(q: Query, n: nat): (Row, Row) -> Verdict
    requires 1 <= n <= |q.joins| && CompileKeys(q, n - 1).Some? && CompileOn(q, n - 1).Some?
  {
    Matches(CompileKeys(q, n - 1).value, CompileOn(q, n - 1).value, Offsets(Sources(q)[..n]), Offsets([Sources(q)[n]]))
  }

  /** The compiled match predicate decides what the named one does. */
  lemma MatchKept(q: Query, n: nat, t: Tuple, r: Row)
    requires QueryOk(q) && TupleOk(q, t) && |t| == n && 1 <= n <= |q.joins| && |r| == |Sources(q)[n].schema|
    requires CompileKeys(q, n - 1).Some? && CompileOn(q, n - 1).Some?
    ensures CompiledMatch(q, n)(Flat(q, t), r) == NamedMatch(q, n - 1)(t, r)
  {
    hide Sources, KeyNames, Offsets, OnVerdict, NamedOn, KeysMatch, SameKeys, Flat;
    KeysForAre(KeyNames(q, n - 1), Sources(q)[n - 1].schema, Sources(q)[n].schema);
    if KeyNames(q, n - 1) != [] {
      KeysKept(q, t, r);
    } else if q.joins[n - 1].on.Some? {
      KeylessIf(q, n - 1);
      OnKept(q, n, t, r, q.joins[n - 1].on.value);
    }
  }

  // ---- the whole chain ------------------------------------------------------

  predicate TablesFit(q: Query, tables: Tables) {
    forall k :: 0 <= k < |Sources(q)| ==> AllWide(tables(Sources(q)[k].table), |Sources(q)[k].schema|)
  }

  lemma CompiledKeys(q: Query, i: nat)
    requires QueryOk(q) && i < |q.joins| && CompileKeys(q, i).Some?
    ensures CompileKeys(q, i).value == KeyList(q, i)
  {
  }

  lemma {:induction false} ChainFits(q: Query, tables: Tables, n: nat)
    requires QueryOk(q) && TablesFit(q, tables) && n <= |q.joins| && CompileJoins(q, n).Some?
    ensures PlanFits(CompileJoins(q, n).value, tables) && Width(CompileJoins(q, n).value) == RowWidth(q, n)
  {
    hide QueryOk, CompileKeys, CompileOn, KeysFit, KeyList;
    if n > 0 {
      ChainFits(q, tables, n - 1);
      CompiledKeys(q, n - 1);
      KeyListFits(q, n - 1);
      CrossHasNoKeys(q, n - 1);
    }
  }

  lemma CrossHasNoKeys(q: Query, i: nat)
    requires QueryOk(q) && i < |q.joins|
    ensures var w := |Sources(q)[i + 1].schema|; q.joins[i].kind == CROSS ==> KeptBefore(KeyList(q, i), w) == w && KeyList(q, i) == []
  {
    var w := |Sources(q)[i + 1].schema|;
    NoKeys([], Nulls(w), w);
  }

  ghost predicate TuplesOk(q: Query, ts: seq<Tuple>, n: nat) {
    forall i :: 0 <= i < |ts| ==> |ts[i]| == n && TupleOk(q, ts[i])
  }

  /** The node of one join, as the loops see it. */
  ghost predicate NodeFor(q: Query, n: nat, node: Shape)
    requires 1 <= n <= |q.joins|
  {
    && CompileKeys(q, n - 1).Some? && CompileOn(q, n - 1).Some?
    && node.keys == KeyList(q, n - 1) && node.lw == RowWidth(q, n - 1) && node.rw == |Sources(q)[n].schema|
    && if q.joins[n - 1].kind == CROSS then forall l, r :: node.matches(l, r) == Yes else node.matches == CompiledMatch(q, n)
  }

  lemma NodeOf(q: Query, tables: Tables, n: nat)
    requires QueryOk(q) && TablesFit(q, tables) && 1 <= n <= |q.joins| && CompileJoins(q, n).Some?
    ensures CompileJoins(q, n).value.JoinNode? && NodeFor(q, n, ShapeOf(CompileJoins(q, n).value))
  {
    hide QueryOk, TablesFit, CompileJoins, CompileKeys, CompileOn, KeyList, RowWidth, Offsets, Matches, Sources, Width, SourcesOf;
    ChainUnfold(q, n);
    CompiledKeys(q, n - 1);
    CrossHasNoKeys(q, n - 1);
    SourcesOfChain(q, n - 1);
    ChainFits(q, tables, n - 1);
    NodeShape(CompileJoins(q, n).value, Sources(q)[n]);
  }

  lemma ChainUnfold(q: Query, n: nat)
    requires 1 <= n <= |q.joins| && CompileJoins(q, n).Some?
    ensures CompileJoins(q, n - 1).Some? && CompileKeys(q, n - 1).Some? && CompileOn(q, n - 1).Some?
    ensures CompileJoins(q, n).value == JoinNode(q.joins[n - 1].kind, CompileJoins(q, n - 1).value, Scan(Sources(q)[n]),
                                                 CompileKeys(q, n - 1).value, CompileOn(q, n - 1).value)
  {
    hide CompileKeys, CompileOn, Sources;
  }

  lemma NodeShape(plan: Plan, s: Source)
    requires plan.JoinNode? && plan.right == Scan(s)
    ensures ShapeOf(plan) ==
      if plan.kind == CROSS then CrossShape(Width(plan.left), |s.schema|)
      else Shape(plan.keys, Width(plan.left), |s.schema|, Matches(plan.keys, plan.on, Offsets(SourcesOf(plan.left)), Offsets([s])))
  {
  }

  /** Raising and matching agree row by row. */
  lemma LoopsAgree(q: Query, n: nat, node: Shape, ts: seq<Tuple>, rs: seq<Row>)
    requires QueryOk(q) && 1 <= n <= |q.joins| && CompileKeys(q, n - 1).Some? && CompileOn(q, n - 1).Some?
    requires node.matches == CompiledMatch(q, n)
    requires TuplesOk(q, ts, n) && AllWide(rs, |Sources(q)[n].schema|)
    ensures AnyRaises(node, Map(Flatten(q), ts), rs) <==> NamedRaises(q, n - 1, ts, rs)
    ensures Agree(ts, rs, NamedHolds(q, n - 1), Flatten(q), Same(), Holds(node))
  {
    hide QueryOk, CompileKeys, CompileOn, CompiledMatch, NamedMatch, Sources, TupleOk, Flat;
    var ls := Map(Flatten(q), ts);
    forall i, j | 0 <= i < |ts| && 0 <= j < |rs| ensures node.matches(ls[i], rs[j]) == NamedMatch(q, n - 1)(ts[i], rs[j]) {
      FlattenIsFlat(q, ts[i]);
      MatchKept(q, n, ts[i], rs[j]);
    }
    forall t, r | t in ts && r in rs ensures NamedHolds(q, n - 1)(t, r) <==> Holds(node)(Flatten(q)(t), Same()(r)) {
      var i :| 0 <= i < |ts| && ts[i] == t;
      var j :| 0 <= j < |rs| && rs[j] == r;
    }
    if NamedRaises(q, n - 1, ts, rs) {
      var a, b :| 0 <= a < |ts| && 0 <= b < |rs| && NamedMatch(q, n - 1)(ts[a], rs[b]) == Raises;
      assert node.matches(ls[a], rs[b]) == Raises;
    }
    if AnyRaises(node, ls, rs) {
      var a, b :| 0 <= a < |ls| && 0 <= b < |rs| && node.matches(ls[a], rs[b]) == Raises;
      assert NamedMatch(q, n - 1)(ts[a], rs[b]) == Raises;
    }
  }

  lemma FlattenIsFlat(q: Query, t: Tuple)
    requires TupleOk(q, t)
    ensures Flatten(q)(t) == Flat(q, t)
  {
  }

  /** Merging the pairs of rows is flattening the pairs of tuples. */
  lemma PairsMerge(q: Query, n: nat, node: Shape, kind: Kind, ts: seq<Tuple>, rs: seq<Row>, m: (Tuple, Row) -> bool)
    requires QueryOk(q) && 1 <= n <= |q.joins|
    requires node.keys == KeyList(q, n - 1) && node.lw == RowWidth(q, n - 1) && node.rw == |Sources(q)[n].schema|
    requires TuplesOk(q, ts, n) && AllWide(rs, |Sources(q)[n].schema|)
    ensures var pairs := Join(kind, ts, rs, m);
      && Map(Merger(node), MapPairs(Flatten(q), Same(), pairs)) == Map(Flatten(q), Map(ToTuple(n), pairs))
      && TuplesOk(q, Map(ToTuple(n), pairs), n + 1)
  {
    hide QueryOk, Join, Merge, Flat, TupleOk, KeyList, RowWidth, Sources;
    var pairs := Join(kind, ts, rs, m);
    JoinFrom(kind, ts, rs, m);
    forall i | 0 <= i < |pairs|
      ensures |ToTuple(n)(pairs[i])| == n + 1 && TupleOk(q, ToTuple(n)(pairs[i]))
      ensures Merger(node)(MapPair(Flatten(q), Same(), pairs[i])) == Flatten(q)(ToTuple(n)(pairs[i]))
    {
      assert From(ts, rs, pairs[i]);
      MergeIsFlat(q, n, pairs[i]);
      FlattenIsFlat(q, ToTuple(n)(pairs[i]));
    }
  }

  lemma MapSame(rs: seq<Row>)
    ensures Map(Same(), rs) == rs
  {
  }

  function Flattened(q: Query, ts: Option<seq<Tuple>>): Option<seq<Row>> {
    if ts.None? then None else Some(Map(Flatten(q), ts.value))
  }

  /** The rows of a join of flattened tuples are the flattened tuples of the join. */
  lemma RowsOfPairs(q: Query, n: nat, node: Shape, kind: Kind, ts: seq<Tuple>, rs: seq<Row>)
    requires QueryOk(q) && 1 <= n <= |q.joins|
    requires node.keys == KeyList(q, n - 1) && node.lw == RowWidth(q, n - 1) && node.rw == |Sources(q)[n].schema|
    requires TuplesOk(q, ts, n) && AllWide(rs, |Sources(q)[n].schema|)
    requires kind == CROSS || Agree(ts, rs, NamedHolds(q, n - 1), Flatten(q), Same(), Holds(node))
    ensures Map(Merger(node), Join(kind, Map(Flatten(q), ts), rs, Holds(node)))
         == Map(Flatten(q), Map(ToTuple(n), Join(kind, ts, rs, NamedHolds(q, n - 1))))
    ensures TuplesOk(q, Map(ToTuple(n), Join(kind, ts, rs, NamedHolds(q, n - 1))), n + 1)
  {
    hide QueryOk, Join, KeyList, RowWidth, Sources, TuplesOk, AllWide, Agree, Map, Flatten, ToTuple, Merger, MapPairs, Same;
    MapSame(rs);
    JoinMapped(kind, ts, rs, NamedHolds(q, n - 1), Flatten(q), Same(), Holds(node));
    PairsMerge(q, n, node, kind, ts, rs, NamedHolds(q, n - 1));
  }

  lemma RowsStep(q: Query, tables: Tables, n: nat)
    requires 1 <= n <= |q.joins| && CompileJoins(q, n).Some? && CompileJoins(q, n).value.JoinNode?
    ensures CompileJoins(q, n - 1).Some?
    ensures var plan, ls := CompileJoins(q, n).value, RowsOf(CompileJoins(q, n - 1).value, tables);
      RowsOf(plan, tables) == if ls.None? then None
                              else Joined(q.joins[n - 1].kind, ShapeOf(plan), ls.value, tables(Sources(q)[n].table))
  {
    hide CompileKeys, CompileOn, Sources, Joined, ShapeOf;
  }

  lemma JoinStep(q: Query, n: nat, node: Shape, ts: seq<Tuple>, rs: seq<Row>)
    requires QueryOk(q) && 1 <= n <= |q.joins| && NodeFor(q, n, node)
    requires TuplesOk(q, ts, n) && AllWide(rs, |Sources(q)[n].schema|)
    ensures Joined(q.joins[n - 1].kind, node, Map(Flatten(q), ts), rs) == Flattened(q, NamedJoin(q, n, ts, rs))
    ensures NamedJoin(q, n, ts, rs).Some? ==> TuplesOk(q, NamedJoin(q, n, ts, rs).value, n + 1)
  {
    hide QueryOk, CompileKeys, CompileOn, Join, CompiledMatch, KeyList, RowWidth, Sources, Map, Flatten, ToTuple, Merger,
         NamedHolds, Holds, Agree, NamedRaises, TuplesOk, AllWide;
    if q.joins[n - 1].kind != CROSS {
      LoopsAgree(q, n, node, ts, rs);
    }
    RowsOfPairs(q, n, node, q.joins[n - 1].kind, ts, rs);
  }

  lemma NamedStep(q: Query, tables: Tables, n: nat)
    requires 1 <= n <= |q.joins|
    ensures var ts := Named(q, tables, n - 1);
      Named(q, tables, n) == if ts.None? then None else NamedJoin(q, n, ts.value, tables(Sources(q)[n].table))
  {
    hide Sources, NamedJoin;
  }

  lemma OneMoreJoin(q: Query, tables: Tables, n: nat, before: Plan, ts: Option<seq<Tuple>>)
    requires QueryOk(q) && TablesFit(q, tables) && 1 <= n <= |q.joins| && CompileJoins(q, n).Some?
    requires CompileJoins(q, n - 1) == Some(before) && ts == Named(q, tables, n - 1)
    requires RowsOf(before, tables) == Flattened(q, ts) && (ts.Some? ==> TuplesOk(q, ts.value, n))
    ensures RowsOf(CompileJoins(q, n).value, tables) == Flattened(q, Named(q, tables, n))
    ensures Named(q, tables, n).Some? ==> TuplesOk(q, Named(q, tables, n).value, n + 1)
  {
    assert AllWide(tables(Sources(q)[n].table), |Sources(q)[n].schema|);
    hide QueryOk, CompileJoins, ShapeOf, TablesFit, Joined, TuplesOk, NamedJoin, Named, Flatten, RowsOf, Sources, Map, NodeFor, AllWide;
    NodeOf(q, tables, n);
    RowsStep(q, tables, n);
    NamedStep(q, tables, n);
    if ts.Some? {
      JoinStep(q, n, ShapeOf(CompileJoins(q, n).value), ts.value, tables(Sources(q)[n].table));
    }
  }

  lemma ChainPrefix(q: Query, n: nat)
    requires 1 <= n <= |q.joins| && CompileJoins(q, n).Some?
    ensures CompileJoins(q, n - 1).Some?
  {
  }

  /** For any chain of joins of any kinds: the compiled plan yields the rows of exactly the named
      tuples, in order, and raises exactly when a named predicate does. */
  lemma {:induction false} CompiledJoinsMean(q: Query, tables: Tables, n: nat)
    requires QueryOk(q) && TablesFit(q, tables) && n <= |q.joins| && CompileJoins(q, n).Some?
    ensures RowsOf(CompileJoins(q, n).value, tables) == Flattened(q, Named(q, tables, n))
    ensures Named(q, tables, n).Some? ==> TuplesOk(q, Named(q, tables, n).value, n + 1)
  {
    hide QueryOk, CompileJoins, TablesFit, TuplesOk, Named, Flattened, RowsOf;
    if n == 0 {
      FirstTable(q, tables);
    } else {
      ChainPrefix(q, n);
      CompiledJoinsMean(q, tables, n - 1);
      OneMoreJoin(q, tables, n, CompileJoins(q, n - 1).value, Named(q, tables, n - 1));
    }
  }

  lemma FirstTable(q: Query, tables: Tables)
    requires QueryOk(q) && TablesFit(q, tables)
    ensures CompileJoins(q, 0).Some? && Named(q, tables, 0).Some?
    ensures RowsOf(CompileJoins(q, 0).value, tables) == Flattened(q, Named(q, tables, 0))
    ensures TuplesOk(q, Named(q, tables, 0).value, 1)
  {
    hide Sources, QueryOk;
    var rows := tables(Sources(q)[0].table);
    assert AllWide(rows, |Sources(q)[0].schema|);
    forall i | 0 <= i < |rows| ensures TupleOk(q, [Some(rows[i])]) && Flatten(q)([Some(rows[i])]) == rows[i] {
      FlatOne(q, [Some(rows[i])]);
    }
    assert Map(Flatten(q), Map(Single(), rows)) == rows;
  }
}
