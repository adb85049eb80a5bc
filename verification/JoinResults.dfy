/** What comes out of a join query, row by row: the tuples a chain of joins is made of, and for two
    tables the rows themselves, by the values in their columns (src/tinydb/_join_executor.py). */
module JoinResults {
  import opened Wrappers
  import opened JoinAlgebra
  import opened JoinRows
  import opened JoinQueries
  import opened JoinMeaning
  import opened JoinWhere

  // ---- the condition --------------------------------------------------------

  /** The column an atom names has the value it asks for. */
  predicate HasAsked(q: Query, t: Tuple, a: WhereAtom)
    requires |t| == |Sources(q)|
  {
    var c := Resolve(Sources(q), a.column);
    c.Some? && NamedValue(q, t, c.value.0, c.value.1) == a.value
  }

  lemma {:induction false} FilteredMember<A>(s: seq<A>, keep: A -> bool, x: A)
    ensures x in Filtered(s, keep) <==> x in s && keep(x)
  {
    if s != [] {
      FilteredMember(s[..|s| - 1], keep, x);
      assert s == s[..|s| - 1] + [s[|s| - 1]];
    }
  }

  lemma {:induction false} ConditionIsSat(q: Query, t: Tuple, e: Expr<WhereAtom>)
    requires SourcesOk(Sources(q)) && |t| == |Sources(q)| && EveryAtom(e, WhereFound(Sources(q)))
    ensures Eval(e, NamedWhere(q, t)) == if Sat(e, (a: WhereAtom) => |t| == |Sources(q)| && HasAsked(q, t, a)) then Yes else No
  {
    hide Sources, SourcesOk, Resolve, Provided, NamedValue;
    var found, v, p := WhereFound(Sources(q)), NamedWhere(q, t), (a: WhereAtom) => |t| == |Sources(q)| && HasAsked(q, t, a);
    forall a | found(a) ensures v(a) == if p(a) then Yes else No {
      ResolveFails(Sources(q), a.column);
    }
    EvalIsSat(e, v, found, p);
  }

  /** A query denotes the tuples of its joins on which the condition is true as a formula. */
  lemma DenotesMember(q: Query, tables: Tables, t: Tuple)
    requires QueryOk(q) && NamesFound(q) && Denotes(q, tables).Some? && |t| == |Sources(q)|
    ensures Named(q, tables, |q.joins|).Some?
    ensures t in Denotes(q, tables).value <==>
      && t in Named(q, tables, |q.joins|).value
      && (q.condition.Some? ==> Sat(q.condition.value, (a: WhereAtom) => |t| == |Sources(q)| && HasAsked(q, t, a)))
  {
    hide Named, Sources, SourcesOk, JoinFound, HasAsked, NamedWhere;
    if q.condition.Some? {
      var e := q.condition.value;
      ConditionIsSat(q, t, e);
      FilteredMember(Named(q, tables, |q.joins|).value, NamedKeeps(q, e), t);
    }
  }

  // ---- two tables -----------------------------------------------------------

  /** What the query gives: `RunQuery` returns it when all names are found. */
  ghost function Answer(q: Query, tables: Tables): Option<seq<Row>> {
    Flattened(q, Denotes(q, tables))
  }

  predicate TwoTables(q: Query) {
    |q.joins| == 1 && q.condition.None?
  }

  function LeftRows(q: Query, tables: Tables): seq<Row> {
    tables(q.from.table)
  }

  function RightRows(q: Query, tables: Tables): seq<Row>
    requires TwoTables(q)
  {
    tables(q.joins[0].right.table)
  }

  lemma SourcesOfTwo(q: Query)
    requires TwoTables(q)
    ensures Sources(q) == [q.from, q.joins[0].right]
  {
  }

  /** The tuples of one join. */
  lemma OneJoin(q: Query, tables: Tables)
    requires TwoTables(q)
    ensures Denotes(q, tables) == NamedJoin(q, 1, Map(Single(), LeftRows(q, tables)), RightRows(q, tables))
  {
    hide NamedJoin;
    SourcesOfTwo(q);
    assert Named(q, tables, 0) == Some(Map(Single(), LeftRows(q, tables)));
    NamedStep(q, tables, 1);
  }

  function MatchOf(q: Query): (Row, Row) -> Verdict
    requires TwoTables(q)
  {
    (l: Row, r: Row) => NamedMatch(q, 0)([Some(l)], r)
  }

  /** A row of either table, matching, or any two on CROSS. */
  ghost predicate Paired(q: Query, ls: seq<Row>, rs: seq<Row>, row: Row)
    requires TwoTables(q)
  {
    exists l, r :: l in ls && r in rs && (q.joins[0].kind == CROSS || MatchOf(q)(l, r) == Yes) && row == Flatten(q)([Some(l), Some(r)])
  }

  /** A left row that matches nothing, padded. */
  ghost predicate LeftAlone(q: Query, ls: seq<Row>, rs: seq<Row>, row: Row)
    requires TwoTables(q)
  {
    exists l :: l in ls && (forall r :: r in rs ==> MatchOf(q)(l, r) != Yes) && row == Flatten(q)([Some(l), None])
  }

  ghost predicate RightAlone(q: Query, ls: seq<Row>, rs: seq<Row>, row: Row)
    requires TwoTables(q)
  {
    exists r :: r in rs && (forall l :: l in ls ==> MatchOf(q)(l, r) != Yes) && row == Flatten(q)([None, Some(r)])
  }

  ghost predicate IsRowOf(q: Query, ls: seq<Row>, rs: seq<Row>, row: Row)
    requires TwoTables(q)
  {
    var kind := q.joins[0].kind;
    || Paired(q, ls, rs, row)
    || ((kind == LEFT || kind == FULL) && LeftAlone(q, ls, rs, row))
    || ((kind == RIGHT || kind == FULL) && RightAlone(q, ls, rs, row))
  }

  lemma NoRowsOfOne()
    ensures JoinMeaning.NoRows(1) == [None]
  {
  }

  lemma SingleMember(ls: seq<Row>, t: Tuple)
    ensures t in Map(Single(), ls) <==> |t| == 1 && t[0].Some? && t[0].value in ls
  {
    var ts := Map(Single(), ls);
    if |t| == 1 && t[0].Some? && t[0].value in ls {
      var i :| 0 <= i < |ls| && ls[i] == t[0].value;
      assert ts[i] == t;
    }
  }

  lemma SinglesOnly(ls: seq<Row>)
    ensures forall l :: l in ls ==> [Some(l)] in Map(Single(), ls)
    ensures forall u: Tuple :: u in Map(Single(), ls) ==> |u| == 1 && u[0].Some? && u[0].value in ls && u == [Some(u[0].value)]
  {
    hide Map;
    forall u: Tuple ensures u in Map(Single(), ls) <==> |u| == 1 && u[0].Some? && u[0].value in ls {
      SingleMember(ls, u);
    }
  }

  lemma TupleIsRow(q: Query, ls: seq<Row>, rs: seq<Row>, t: Tuple)
    requires TwoTables(q) && InNamedJoin(q, 1, Map(Single(), ls), rs, t)
    ensures IsRowOf(q, ls, rs, Flatten(q)(t))
  {
    hide Map, Flatten, Paired, LeftAlone, RightAlone, TuplePaired, TupleAlone, RowAlone;
    if TuplePaired(q, 1, Map(Single(), ls), rs, t) {
      PairIsRow(q, ls, rs, t);
    } else if TupleAlone(q, 1, Map(Single(), ls), rs, t) {
      AloneIsRow(q, ls, rs, t);
    }
    if RowAlone(q, 1, Map(Single(), ls), rs, t) {
      RightIsRow(q, ls, rs, t);
    }
  }

  lemma PairIsRow(q: Query, ls: seq<Row>, rs: seq<Row>, t: Tuple)
    requires TwoTables(q) && TuplePaired(q, 1, Map(Single(), ls), rs, t)
    ensures Paired(q, ls, rs, Flatten(q)(t))
  {
    hide NamedMatch, Map, Flatten;
    SinglesOnly(ls);
    var u: Tuple, r: Row :| u in Map(Single(), ls) && r in rs && (q.joins[0].kind == CROSS || NamedMatch(q, 0)(u, r) == Yes) && t == u + [Some(r)];
    assert t == [Some(u[0].value), Some(r)];
    assert NamedMatch(q, 0)(u, r) == MatchOf(q)(u[0].value, r);
  }

  lemma AloneIsRow(q: Query, ls: seq<Row>, rs: seq<Row>, t: Tuple)
    requires TwoTables(q) && TupleAlone(q, 1, Map(Single(), ls), rs, t)
    ensures LeftAlone(q, ls, rs, Flatten(q)(t))
  {
    hide NamedMatch, Map, Flatten;
    SinglesOnly(ls);
    var u: Tuple :| u in Map(Single(), ls) && (forall r :: r in rs ==> NamedMatch(q, 0)(u, r) != Yes) && t == u + [None];
    assert t == [Some(u[0].value), None];
  }

  lemma RightIsRow(q: Query, ls: seq<Row>, rs: seq<Row>, t: Tuple)
    requires TwoTables(q) && RowAlone(q, 1, Map(Single(), ls), rs, t)
    ensures RightAlone(q, ls, rs, Flatten(q)(t))
  {
    hide NamedMatch, Map, Flatten;
    SinglesOnly(ls);
    NoRowsOfOne();
    var r :| r in rs && (forall u :: u in Map(Single(), ls) ==> NamedMatch(q, 0)(u, r) != Yes) && t == JoinMeaning.NoRows(1) + [Some(r)];
    assert t == [None, Some(r)];
  }

  lemma RowIsTuple(q: Query, ls: seq<Row>, rs: seq<Row>, row: Row) returns (t: Tuple)
    requires TwoTables(q) && IsRowOf(q, ls, rs, row)
    ensures InNamedJoin(q, 1, Map(Single(), ls), rs, t) && row == Flatten(q)(t)
  {
    hide NamedMatch, Map, Flatten;
    SinglesOnly(ls);
    NoRowsOfOne();
    var ts, kind, m := Map(Single(), ls), q.joins[0].kind, MatchOf(q);
    if Paired(q, ls, rs, row) {
      var l, r :| l in ls && r in rs && (kind == CROSS || m(l, r) == Yes) && row == Flatten(q)([Some(l), Some(r)]);
      t := [Some(l), Some(r)];
      assert [Some(l)] in ts && t == [Some(l)] + [Some(r)];
    } else if (kind == LEFT || kind == FULL) && LeftAlone(q, ls, rs, row) {
      var l :| l in ls && (forall r :: r in rs ==> m(l, r) != Yes) && row == Flatten(q)([Some(l), None]);
      t := [Some(l), None];
      assert [Some(l)] in ts && t == [Some(l)] + [None];
      forall r | r in rs ensures NamedMatch(q, 0)([Some(l)], r) != Yes {
        assert m(l, r) != Yes;
      }
    } else {
      var r :| r in rs && (forall l :: l in ls ==> m(l, r) != Yes) && row == Flatten(q)([None, Some(r)]);
      t := [None, Some(r)];
      assert t == JoinMeaning.NoRows(1) + [Some(r)];
      forall u: Tuple | u in ts ensures NamedMatch(q, 0)(u, r) != Yes {
        assert m(u[0].value, r) != Yes;
      }
    }
  }

  lemma AnswerMember(q: Query, tables: Tables, row: Row)
    requires TwoTables(q) && Answer(q, tables).Some?
    ensures row in Answer(q, tables).value <==> IsRowOf(q, LeftRows(q, tables), RightRows(q, tables), row)
  {
    hide NamedJoin, InNamedJoin, IsRowOf, Flatten, Denotes;
    OneJoin(q, tables);
    var ls, rs := LeftRows(q, tables), RightRows(q, tables);
    var ts, rows := Denotes(q, tables).value, Answer(q, tables).value;
    if row in rows {
      var i :| 0 <= i < |rows| && rows[i] == row;
      NamedMember(q, 1, Map(Single(), ls), rs, ts[i]);
      TupleIsRow(q, ls, rs, ts[i]);
    }
    if IsRowOf(q, ls, rs, row) {
      var t := RowIsTuple(q, ls, rs, row);
      NamedMember(q, 1, Map(Single(), ls), rs, t);
      var i :| 0 <= i < |ts| && ts[i] == t;
      assert rows[i] == row;
    }
  }

  /** The query raises exactly when matching some pair of rows does. */
  lemma AnswerRaises(q: Query, tables: Tables)
    requires TwoTables(q)
    ensures Answer(q, tables).None? <==>
      q.joins[0].kind != CROSS && exists l, r :: l in LeftRows(q, tables) && r in RightRows(q, tables) && MatchOf(q)(l, r) == Raises
  {
    hide NamedMatch;
    OneJoin(q, tables);
    var ls, rs := LeftRows(q, tables), RightRows(q, tables);
    var ts, m := Map(Single(), ls), NamedMatch(q, 0);
    if a, b :| 0 <= a < |ts| && 0 <= b < |rs| && m(ts[a], rs[b]) == Raises {
      assert ls[a] in ls && rs[b] in rs && MatchOf(q)(ls[a], rs[b]) == Raises;
    }
    if l, r :| l in ls && r in rs && MatchOf(q)(l, r) == Raises {
      var a :| 0 <= a < |ls| && ls[a] == l;
      var b :| 0 <= b < |rs| && rs[b] == r;
      assert m(ts[a], rs[b]) == Raises;
    }
  }

  // ---- one comparison as ON -------------------------------------------------

  /** `FROM l <kind> JOIN r ON l.a op r.b`, where `a` and `b` are columns `p` and `c`. */
  predicate ComparesColumns(q: Query, op: Op, p: nat, c: nat) {
    && TwoTables(q) && !q.joins[0].natural && q.joins[0].using == []
    && p < |q.from.schema| && c < |q.joins[0].right.schema|
    && q.joins[0].on == Some(Atom(OnAtom(op, ColumnRef(Some(q.from.id), q.from.schema[p]),
                                         ColumnRef(Some(q.joins[0].right.id), q.joins[0].right.schema[c]))))
  }

  lemma ComparesWithoutKeys(q: Query, op: Op, p: nat, c: nat)
    requires ComparesColumns(q, op, p, c)
    ensures KeyNames(q, 0) == []
  {
  }

  lemma QualifiedResolves(q: Query, k: nat, p: nat)
    requires QueryOk(q) && k < |Sources(q)| && p < |Sources(q)[k].schema|
    ensures Resolve(Sources(q), ColumnRef(Some(Sources(q)[k].id), Sources(q)[k].schema[p])) == Some((k, p))
    ensures Provided(Sources(q), ColumnRef(Some(Sources(q)[k].id), Sources(q)[k].schema[p]))
  {
    hide Sources;
    var ref := ColumnRef(Some(Sources(q)[k].id), Sources(q)[k].schema[p]);
    ResolveFails(Sources(q), ref);
    var (i, j) := Resolve(Sources(q), ref).value;
    SameSource(Sources(q), i, k);
    UniquePosition(Sources(q)[k].schema, j, p);
  }

  lemma ComparisonFound(q: Query, op: Op, p: nat, c: nat)
    requires QueryOk(q) && ComparesColumns(q, op, p, c)
    ensures NamesFound(q)
  {
    hide Resolve, Provided, QueryOk, SourcesOk;
    SourcesOfTwo(q);
    QualifiedResolves(q, 0, p);
    QualifiedResolves(q, 1, c);
  }

  lemma ComparisonMatches(q: Query, op: Op, p: nat, c: nat, l: Row, r: Row)
    requires QueryOk(q) && ComparesColumns(q, op, p, c) && |l| == |q.from.schema| && |r| == |q.joins[0].right.schema|
    ensures MatchOf(q)(l, r) == Compare(op, l[p], r[c])
  {
    hide Resolve, Provided, QueryOk, Compare, KeyNames, Sources;
    ComparesWithoutKeys(q, op, p, c);
    SourcesOfTwo(q);
    QualifiedResolves(q, 0, p);
    QualifiedResolves(q, 1, c);
    var a := q.joins[0].on.value.a;
    assert Lookup(q, [Some(l)], 0, p) == l[p];
    assert NamedOn(q, 1, [Some(l)], r)(a) == Compare(op, l[p], r[c]);
    assert NamedMatch(q, 0)([Some(l)], r) == Eval(Atom(a), NamedOn(q, 1, [Some(l)], r));
  }

  /** Without keys the row of two is the rows side by side, NULLs for a missing one. */
  lemma SideBySide(q: Query, t: Tuple)
    requires QueryOk(q) && TwoTables(q) && KeyNames(q, 0) == [] && TupleOk(q, t) && |t| == 2
    ensures Flatten(q)(t) == Padded(t[0], |q.from.schema|) + Padded(t[1], |q.joins[0].right.schema|)
  {
    hide QueryOk, Flat, Sources, KeyNames;
    SourcesOfTwo(q);
    FlattenIsFlat(q, t);
    NoKeysAtAll(q);
    FlatStep(q, t);
    var first := t[..1];
    assert |first| == 1 && first[0] == t[0];
    FlatOne(q, first);
    assert Flatten(q)(t) == Flat(q, t);
    assert Flat(q, first) == Padded(t[0], |q.from.schema|);
    assert Flat(q, t) == Flat(q, first) + Padded(t[1], |Sources(q)[1].schema|);
    assert Sources(q)[1].schema == q.joins[0].right.schema;
  }

  lemma NoKeysAtAll(q: Query)
    requires TwoTables(q) && KeyNames(q, 0) == []
    ensures Keyless(q)
  {
  }

  ghost predicate RelatesAt(op: Op, p: nat, c: nat, l: Row, r: Row) {
    p < |l| && c < |r| && Relates(op, l[p], r[c])
  }

  /** Two rows whose values stand in the relation, side by side. */
  ghost predicate RelatedPair(all: bool, op: Op, p: nat, c: nat, ls: seq<Row>, rs: seq<Row>, row: Row) {
    exists l, r :: l in ls && r in rs && (all || RelatesAt(op, p, c, l, r)) && row == l + r
  }

  /** A left row without a partner, and NULLs. */
  ghost predicate UnrelatedLeft(op: Op, p: nat, c: nat, rw: nat, ls: seq<Row>, rs: seq<Row>, row: Row) {
    exists l :: l in ls && (forall r :: r in rs ==> !RelatesAt(op, p, c, l, r)) && row == l + Nulls(rw)
  }

  ghost predicate UnrelatedRight(op: Op, p: nat, c: nat, lw: nat, ls: seq<Row>, rs: seq<Row>, row: Row) {
    exists r :: r in rs && (forall l :: l in ls ==> !RelatesAt(op, p, c, l, r)) && row == Nulls(lw) + r
  }

  /** The row of a join by one comparison. */
  ghost predicate IsComparedRow(kind: Kind, op: Op, p: nat, c: nat, lw: nat, rw: nat, ls: seq<Row>, rs: seq<Row>, row: Row) {
    || RelatedPair(kind == CROSS, op, p, c, ls, rs, row)
    || ((kind == LEFT || kind == FULL) && UnrelatedLeft(op, p, c, rw, ls, rs, row))
    || ((kind == RIGHT || kind == FULL) && UnrelatedRight(op, p, c, lw, ls, rs, row))
  }

  predicate DecidesAt(op: Op, p: nat, c: nat, l: Row, r: Row) {
    p < |l| && c < |r| && Decides(op, l[p], r[c])
  }

  /** Whether a pair of rows matches, by the two values. */
  lemma MatchIsRelation(q: Query, tables: Tables, op: Op, p: nat, c: nat)
    requires QueryOk(q) && TablesFit(q, tables) && ComparesColumns(q, op, p, c)
    ensures forall l, r :: l in LeftRows(q, tables) && r in RightRows(q, tables) ==>
      && |l| == |q.from.schema| && |r| == |q.joins[0].right.schema|
      && (MatchOf(q)(l, r) == Raises <==> !DecidesAt(op, p, c, l, r))
      && (DecidesAt(op, p, c, l, r) ==> (MatchOf(q)(l, r) == Yes <==> RelatesAt(op, p, c, l, r)))
  {
    hide QueryOk, KeyNames, MatchOf, Relates, Decides, Compare;
    RowsAsWide(q, tables);
    forall l, r | l in LeftRows(q, tables) && r in RightRows(q, tables)
      ensures MatchOf(q)(l, r) == Raises <==> !DecidesAt(op, p, c, l, r)
      ensures DecidesAt(op, p, c, l, r) ==> (MatchOf(q)(l, r) == Yes <==> RelatesAt(op, p, c, l, r))
    {
      ComparisonMatches(q, op, p, c, l, r);
      CompareMeans(op, l[p], r[c]);
    }
  }

  lemma RowsAsWide(q: Query, tables: Tables)
    requires TwoTables(q) && TablesFit(q, tables)
    ensures forall l :: l in LeftRows(q, tables) ==> |l| == |q.from.schema|
    ensures forall r :: r in RightRows(q, tables) ==> |r| == |q.joins[0].right.schema|
  {
    SourcesOfTwo(q);
    assert AllWide(LeftRows(q, tables), |Sources(q)[0].schema|) && AllWide(RightRows(q, tables), |Sources(q)[1].schema|);
  }

  /** A query of two tables joined ON one comparison. It raises exactly when the comparison is an
      order and has a NULL or two types to compare. Otherwise its rows are those of the two tables,
      side by side, whose values stand in the relation; with NULLs for the other side those that
      have no partner, where the kind of join keeps them. */
  lemma ComparisonRows(q: Query, tables: Tables, op: Op, p: nat, c: nat, row: Row)
    requires QueryOk(q) && TablesFit(q, tables) && ComparesColumns(q, op, p, c)
    ensures NamesFound(q)
    ensures Answer(q, tables).None? <==>
      q.joins[0].kind != CROSS && exists l, r :: l in LeftRows(q, tables) && r in RightRows(q, tables) && !DecidesAt(op, p, c, l, r)
    ensures Answer(q, tables).Some? ==>
      (row in Answer(q, tables).value <==>
        IsComparedRow(q.joins[0].kind, op, p, c, |q.from.schema|, |q.joins[0].right.schema|, LeftRows(q, tables), RightRows(q, tables), row))
  {
    ComparisonFound(q, op, p, c);
    hide QueryOk, TablesFit, KeyNames, NamesFound, MatchOf, RelatesAt, DecidesAt, Answer, IsRowOf, IsComparedRow, LeftRows, RightRows;
    MatchIsRelation(q, tables, op, p, c);
    AnswerRaises(q, tables);
    if Answer(q, tables).Some? {
      AnswerMember(q, tables, row);
      RowsAsWide(q, tables);
      ComparedRow(q, LeftRows(q, tables), RightRows(q, tables), op, p, c, row);
    }
  }

  ghost predicate MatchesByValue(q: Query, ls: seq<Row>, rs: seq<Row>, op: Op, p: nat, c: nat)
    requires TwoTables(q)
  {
    && (forall l :: l in ls ==> |l| == |q.from.schema|) && (forall r :: r in rs ==> |r| == |q.joins[0].right.schema|)
    && (q.joins[0].kind != CROSS ==>
          forall l, r :: l in ls && r in rs ==> (MatchOf(q)(l, r) == Yes <==> RelatesAt(op, p, c, l, r)))
  }

  lemma ComparedRow(q: Query, ls: seq<Row>, rs: seq<Row>, op: Op, p: nat, c: nat, row: Row)
    requires QueryOk(q) && ComparesColumns(q, op, p, c) && MatchesByValue(q, ls, rs, op, p, c)
    ensures IsRowOf(q, ls, rs, row) <==>
      IsComparedRow(q.joins[0].kind, op, p, c, |q.from.schema|, |q.joins[0].right.schema|, ls, rs, row)
  {
    hide QueryOk, KeyNames, Paired, LeftAlone, RightAlone, RelatedPair, UnrelatedLeft, UnrelatedRight, MatchesByValue;
    ComparedPair(q, ls, rs, op, p, c, row);
    if q.joins[0].kind != CROSS {
      ComparedLeft(q, ls, rs, op, p, c, row);
      ComparedRight(q, ls, rs, op, p, c, row);
    }
  }

  lemma ComparedPair(q: Query, ls: seq<Row>, rs: seq<Row>, op: Op, p: nat, c: nat, row: Row)
    requires QueryOk(q) && ComparesColumns(q, op, p, c) && MatchesByValue(q, ls, rs, op, p, c)
    ensures Paired(q, ls, rs, row) <==> RelatedPair(q.joins[0].kind == CROSS, op, p, c, ls, rs, row)
  {
    hide QueryOk, KeyNames, MatchOf, RelatesAt, Flatten;
    ComparesWithoutKeys(q, op, p, c);
    forall l, r | l in ls && r in rs ensures Flatten(q)([Some(l), Some(r)]) == l + r {
      RowsSideBySide(q, Some(l), Some(r));
    }
  }

  lemma ComparedLeft(q: Query, ls: seq<Row>, rs: seq<Row>, op: Op, p: nat, c: nat, row: Row)
    requires QueryOk(q) && ComparesColumns(q, op, p, c) && MatchesByValue(q, ls, rs, op, p, c) && q.joins[0].kind != CROSS
    ensures LeftAlone(q, ls, rs, row) <==> UnrelatedLeft(op, p, c, |q.joins[0].right.schema|, ls, rs, row)
  {
    hide QueryOk, KeyNames, MatchOf, RelatesAt, Flatten;
    ComparesWithoutKeys(q, op, p, c);
    forall l | l in ls ensures Flatten(q)([Some(l), None]) == l + Nulls(|q.joins[0].right.schema|) {
      RowsSideBySide(q, Some(l), None);
    }
  }

  lemma ComparedRight(q: Query, ls: seq<Row>, rs: seq<Row>, op: Op, p: nat, c: nat, row: Row)
    requires QueryOk(q) && ComparesColumns(q, op, p, c) && MatchesByValue(q, ls, rs, op, p, c) && q.joins[0].kind != CROSS
    ensures RightAlone(q, ls, rs, row) <==> UnrelatedRight(op, p, c, |q.from.schema|, ls, rs, row)
  {
    hide QueryOk, KeyNames, MatchOf, RelatesAt, Flatten;
    ComparesWithoutKeys(q, op, p, c);
    forall r | r in rs ensures Flatten(q)([None, Some(r)]) == Nulls(|q.from.schema|) + r {
      RowsSideBySide(q, None, Some(r));
    }
  }

  lemma RowsSideBySide(q: Query, l: Option<Row>, r: Option<Row>)
    requires QueryOk(q) && TwoTables(q) && KeyNames(q, 0) == []
    requires (l.Some? ==> |l.value| == |q.from.schema|) && (r.Some? ==> |r.value| == |q.joins[0].right.schema|)
    ensures Flatten(q)([l, r]) == Padded(l, |q.from.schema|) + Padded(r, |q.joins[0].right.schema|)
  {
    hide QueryOk, KeyNames;
    SourcesOfTwo(q);
    SideBySide(q, [l, r]);
  }

  // ---- one key ---------------------------------------------------------------

  /** `l <kind> JOIN r USING (k)`, or NATURAL with one common column: `k` is column `p` of the left
      table and `c` of the right one. */
  predicate JoinsOnKey(q: Query, p: nat, c: nat) {
    && TwoTables(q) && p < |q.from.schema| && c < |q.joins[0].right.schema|
    && q.from.schema[p] == q.joins[0].right.schema[c]
    && (if q.joins[0].natural then OnlyCommon(q.from.schema, q.joins[0].right.schema, p, c) else q.joins[0].using == [q.from.schema[p]])
    && (q.joins[0].on.Some? ==> EveryAtom(q.joins[0].on.value, OnFound(Sources(q))))
  }

  predicate OnlyCommon(l: seq<string>, r: seq<string>, p: nat, c: nat) {
    forall i, j :: 0 <= i < |l| && 0 <= j < |r| && l[i] == r[j] ==> i == p && j == c
  }

  lemma KeyIsName(q: Query, p: nat, c: nat)
    requires JoinsOnKey(q, p, c)
    ensures KeyNames(q, 0) == [q.from.schema[p]]
  {
    hide CommonColumns;
    SourcesOfTwo(q);
    if q.joins[0].natural {
      OneCommon(q.from.schema, q.joins[0].right.schema, p, c);
    }
  }

  lemma OneCommon(l: seq<string>, r: seq<string>, p: nat, c: nat)
    requires OnlyCommon(l, r, p, c) && p < |l| && c < |r| && l[p] == r[c]
    ensures CommonColumns(l, r) == [l[p]]
  {
    hide CommonColumns;
    var at := CommonAre(l, r);
    assert l[p] in r && p in at;
    forall k | k in at ensures k == p {
      var j :| 0 <= j < |r| && r[j] == l[k];
    }
    assert forall i :: 0 <= i < |at| ==> at[i] in at;
    JustOne(at, p);
  }

  lemma JustOne(at: seq<nat>, p: nat)
    requires p in at && (forall i :: 0 <= i < |at| ==> at[i] == p) && forall i, j :: 0 <= i < j < |at| ==> at[i] < at[j]
    ensures at == [p]
  {
    FirstTwoRise(at);
  }

  lemma FirstTwoRise(at: seq<nat>)
    requires forall i, j :: 0 <= i < j < |at| ==> at[i] < at[j]
    ensures |at| > 1 ==> at[0] < at[1]
  {
  }

  function Drop(r: Row, c: nat): Row
    requires c < |r|
  {
    r[..c] + r[c + 1..]
  }

  /** Merging by one key: a NULL takes the right value, the right column goes. */
  lemma {:induction false} MergedByKey(l: Row, r: Row, p: nat, c: nat, n: nat)
    requires p < |l| && c < |r| && n <= |r| && KeysFit([JoinKey(p, c)], |l|, |r|)
    ensures Coalesced([JoinKey(p, c)], l, r, n) ==
      if n <= c then l + r[..n]
      else (if l[p] == Null then l[p := r[c]] else l) + (r[..c] + r[c + 1..n])
  {
    var keys := [JoinKey(p, c)];
    if n > 0 {
      MergedByKey(l, r, p, c, n - 1);
      OnlyKey(p, c, n - 1);
    }
  }

  lemma OnlyKey(p: nat, c: nat, ri: nat)
    ensures LeftColOf([JoinKey(p, c)], ri) == if ri == c then Some(p) else None
  {
    assert [JoinKey(p, c)][..0] == [];
  }

  lemma KeyListOf(q: Query, p: nat, c: nat)
    requires QueryOk(q) && JoinsOnKey(q, p, c)
    ensures KeyList(q, 0) == [JoinKey(p, c)] && NamesFound(q)
    ensures PositionOf(Sources(q)[0].schema, q.from.schema[p]) == Some(p) && PositionOf(Sources(q)[1].schema, q.from.schema[p]) == Some(c)
  {
    hide OnFound, PositionOf;
    SourcesOfTwo(q);
    KeyIsName(q, p, c);
    hide KeyNames;
    var name := q.from.schema[p];
    UniquePosition(Sources(q)[0].schema, PositionOf(Sources(q)[0].schema, name).value, p);
    UniquePosition(Sources(q)[1].schema, PositionOf(Sources(q)[1].schema, name).value, c);
    assert [name][..0] == [];
    assert KeysFor([], Sources(q)[0].schema, Sources(q)[1].schema) == Some([]);
  }

  predicate SameKey(p: nat, c: nat, l: Row, r: Row) {
    p < |l| && c < |r| && l[p] == r[c] && l[p] != Null
  }

  lemma KeyMatches(q: Query, p: nat, c: nat, l: Row, r: Row)
    requires QueryOk(q) && JoinsOnKey(q, p, c) && |l| == |q.from.schema| && |r| == |q.joins[0].right.schema|
    ensures MatchOf(q)(l, r) == if SameKey(p, c, l, r) then Yes else No
  {
    hide QueryOk, Sources, PositionOf, KeyList;
    KeyListOf(q, p, c);
    KeyIsName(q, p, c);
    var name := q.from.schema[p];
    assert KeyNames(q, 0) == [name];
    hide KeyNames;
    assert Lookup(q, [Some(l)], 0, p) == l[p];
    assert SameUnder(q, 0, [Some(l)], r, name) <==> SameKey(p, c, l, r);
    assert SameKeys(q, 0, [Some(l)], r) <==> SameUnder(q, 0, [Some(l)], r, name) by { assert name in KeyNames(q, 0); }
    assert NamedMatch(q, 0)([Some(l)], r) == Truth(SameKeys(q, 0, [Some(l)], r));
  }

  lemma RowsByKey(q: Query, p: nat, c: nat, l: Option<Row>, r: Option<Row>)
    requires QueryOk(q) && JoinsOnKey(q, p, c)
    requires (l.Some? ==> |l.value| == |q.from.schema|) && (r.Some? ==> |r.value| == |q.joins[0].right.schema|)
    ensures var lr, rr := Padded(l, |q.from.schema|), Padded(r, |q.joins[0].right.schema|);
      Flatten(q)([l, r]) == (if lr[p] == Null then lr[p := rr[c]] else lr) + Drop(rr, c)
  {
    hide QueryOk, KeyList, Sources, KeyNames;
    SourcesOfTwo(q);
    KeyListOf(q, p, c);
    var t := [l, r];
    assert TupleOk(q, t);
    FlattenIsFlat(q, t);
    TwoTableRow(q, t);
    var lr, rr := Padded(l, |q.from.schema|), Padded(r, |q.joins[0].right.schema|);
    MergedByKey(lr, rr, p, c, |rr|);
    assert rr[c + 1..|rr|] == rr[c + 1..];
  }

  ghost predicate KeyedPair(p: nat, c: nat, ls: seq<Row>, rs: seq<Row>, row: Row) {
    exists l, r :: l in ls && r in rs && SameKey(p, c, l, r) && row == l + Drop(r, c)
  }

  ghost predicate UnkeyedLeft(p: nat, c: nat, rw: nat, ls: seq<Row>, rs: seq<Row>, row: Row) {
    exists l :: l in ls && (forall r :: r in rs ==> !SameKey(p, c, l, r)) && row == l + Nulls(if rw > 0 then rw - 1 else 0)
  }

  ghost predicate UnkeyedRight(p: nat, c: nat, lw: nat, ls: seq<Row>, rs: seq<Row>, row: Row) {
    exists r :: r in rs && p < lw && c < |r| && (forall l :: l in ls ==> !SameKey(p, c, l, r)) && row == Nulls(lw)[p := r[c]] + Drop(r, c)
  }

  /** The row of a join by one key: the key once, and never a NULL as a match. */
  ghost predicate IsKeyedRow(kind: Kind, p: nat, c: nat, lw: nat, rw: nat, ls: seq<Row>, rs: seq<Row>, row: Row) {
    || KeyedPair(p, c, ls, rs, row)
    || ((kind == LEFT || kind == FULL) && UnkeyedLeft(p, c, rw, ls, rs, row))
    || ((kind == RIGHT || kind == FULL) && UnkeyedRight(p, c, lw, ls, rs, row))
  }

  ghost predicate MatchesByKey(q: Query, ls: seq<Row>, rs: seq<Row>, p: nat, c: nat)
    requires TwoTables(q)
  {
    && (forall l :: l in ls ==> |l| == |q.from.schema|) && (forall r :: r in rs ==> |r| == |q.joins[0].right.schema|)
    && forall l, r :: l in ls && r in rs ==> MatchOf(q)(l, r) == if SameKey(p, c, l, r) then Yes else No
  }

  lemma PairsByKey(q: Query, ls: seq<Row>, rs: seq<Row>, p: nat, c: nat, row: Row)
    requires QueryOk(q) && JoinsOnKey(q, p, c) && MatchesByKey(q, ls, rs, p, c) && q.joins[0].kind != CROSS
    ensures Paired(q, ls, rs, row) <==> KeyedPair(p, c, ls, rs, row)
  {
    hide QueryOk, KeyNames, MatchOf, Flatten, Drop, Sources;
    forall l, r | l in ls && r in rs && SameKey(p, c, l, r) ensures Flatten(q)([Some(l), Some(r)]) == l + Drop(r, c) {
      RowsByKey(q, p, c, Some(l), Some(r));
    }
  }

  lemma LeftByKey(q: Query, ls: seq<Row>, rs: seq<Row>, p: nat, c: nat, row: Row)
    requires QueryOk(q) && JoinsOnKey(q, p, c) && MatchesByKey(q, ls, rs, p, c)
    ensures LeftAlone(q, ls, rs, row) <==> UnkeyedLeft(p, c, |q.joins[0].right.schema|, ls, rs, row)
  {
    hide QueryOk, KeyNames, MatchOf, Flatten, Sources;
    var rw := |q.joins[0].right.schema|;
    forall l | l in ls ensures Flatten(q)([Some(l), None]) == l + Nulls(rw - 1) {
      RowsByKey(q, p, c, Some(l), None);
      assert Drop(Nulls(rw), c) == Nulls(rw - 1);
      assert l[p] == Null ==> l[p := Null] == l;
    }
  }

  lemma RightByKey(q: Query, ls: seq<Row>, rs: seq<Row>, p: nat, c: nat, row: Row)
    requires QueryOk(q) && JoinsOnKey(q, p, c) && MatchesByKey(q, ls, rs, p, c)
    ensures RightAlone(q, ls, rs, row) <==> UnkeyedRight(p, c, |q.from.schema|, ls, rs, row)
  {
    hide QueryOk, KeyNames, MatchOf, Flatten, Drop, Sources;
    var lw := |q.from.schema|;
    forall r | r in rs ensures Flatten(q)([None, Some(r)]) == Nulls(lw)[p := r[c]] + Drop(r, c) {
      RowsByKey(q, p, c, None, Some(r));
    }
  }

  /** A query of two tables joined by one key. It never raises; its rows are those of the two tables
      with the same key, which is not NULL, the key once; where the kind of join keeps them, those
      without a partner, whose key is their own whichever side they are of. */
  lemma KeyedRows(q: Query, tables: Tables, p: nat, c: nat, row: Row)
    requires QueryOk(q) && TablesFit(q, tables) && JoinsOnKey(q, p, c)
    ensures NamesFound(q) && Answer(q, tables).Some?
    ensures row in Answer(q, tables).value <==>
      IsKeyedRow(q.joins[0].kind, p, c, |q.from.schema|, |q.joins[0].right.schema|, LeftRows(q, tables), RightRows(q, tables), row)
  {
    assert q.joins[0].kind != CROSS by { KeyIsName(q, p, c); KeyIsNoCross(q); }
    KeyListOf(q, p, c);
    hide QueryOk, TablesFit, KeyNames, NamesFound, MatchOf, Answer, LeftRows, RightRows, Sources,
         Paired, LeftAlone, RightAlone, KeyedPair, UnkeyedLeft, UnkeyedRight, SameKey, JoinsOnKey;
    var ls, rs := LeftRows(q, tables), RightRows(q, tables);
    RowsAsWide(q, tables);
    forall l, r | l in ls && r in rs ensures MatchOf(q)(l, r) == if SameKey(p, c, l, r) then Yes else No {
      KeyMatches(q, p, c, l, r);
    }
    AnswerRaises(q, tables);
    AnswerMember(q, tables, row);
    PairsByKey(q, ls, rs, p, c, row);
    LeftByKey(q, ls, rs, p, c, row);
    RightByKey(q, ls, rs, p, c, row);
  }

  lemma KeyIsNoCross(q: Query)
    requires QueryOk(q) && |q.joins| == 1 && KeyNames(q, 0) != []
    ensures q.joins[0].kind != CROSS
  {
  }
}
