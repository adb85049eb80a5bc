/** WHERE over joined rows: names resolved to a source and position, then remapped to a position
    of the joined row (src/tinydb/resolver.py). */
module JoinWhere {
  import opened Wrappers
  import opened JoinAlgebra
  import opened JoinRows
  import opened JoinQueries
  import opened JoinMeaning

  // ---- the output position map ----------------------------------------------

  /** The keys of the join that brings in source `k`. */
  function KeysInto(q: Query, k: nat): seq<JoinKey>
    requires k < |Sources(q)|
  {
    if k == 0 then [] else KeyList(q, k - 1)
  }

  /** Column `p` of source `k` is a merged key and has no place of its own. */
  predicate Dropped(q: Query, k: nat, p: nat)
    requires k < |Sources(q)|
  {
    LeftColOf(KeysInto(q, k), p).Some?
  }

  /** Where the columns of source `k` begin in the joined row. */
  function StartOf(q: Query, k: nat): nat
    requires k < |Sources(q)|
  {
    if k == 0 then 0 else RowWidth(q, k - 1)
  }

  function OutputPosition(q: Query, k: nat, p: nat): nat
    requires k < |Sources(q)|
  {
    StartOf(q, k) + KeptBefore(KeysInto(q, k), p)
  }

  type PositionMap = map<(string, string), nat>

  /** The map holds every kept column of the first `k` sources and of the first `p` columns of
      source `k`, and nothing else. */
  ghost predicate MapsColumns(q: Query, m: PositionMap, k: nat, p: nat)
    requires k <= |Sources(q)|
  {
    forall i: nat, c: nat :: i < |Sources(q)| && c < |Sources(q)[i].schema| ==>
      Mapped(q, m, k, p, i, c)
  }

  ghost predicate Mapped(q: Query, m: PositionMap, k: nat, p: nat, i: nat, c: nat)
    requires i < |Sources(q)| && c < |Sources(q)[i].schema|
  {
    var key, present := (Sources(q)[i].id, Sources(q)[i].schema[c]), (i < k || (i == k && c < p)) && !Dropped(q, i, c);
    (key in m <==> present) && (present ==> m[key] == OutputPosition(q, i, c))
  }

  lemma SameColumn(q: Query, i: nat, c: nat, k: nat, p: nat)
    requires QueryOk(q) && i < |Sources(q)| && c < |Sources(q)[i].schema| && k < |Sources(q)| && p < |Sources(q)[k].schema|
    requires Sources(q)[i].id == Sources(q)[k].id && Sources(q)[i].schema[c] == Sources(q)[k].schema[p]
    ensures i == k && c == p
  {
    SameSource(Sources(q), i, k);
    UniquePosition(Sources(q)[k].schema, c, p);
  }

  lemma OneMoreColumn(q: Query, m: PositionMap, k: nat, p: nat)
    requires QueryOk(q) && k < |Sources(q)| && p < |Sources(q)[k].schema| && MapsColumns(q, m, k, p)
    ensures var key := (Sources(q)[k].id, Sources(q)[k].schema[p]);
      MapsColumns(q, if Dropped(q, k, p) then m else m[key := OutputPosition(q, k, p)], k, p + 1)
  {
    hide QueryOk, Sources, Dropped, OutputPosition;
    var key := (Sources(q)[k].id, Sources(q)[k].schema[p]);
    var after := if Dropped(q, k, p) then m else m[key := OutputPosition(q, k, p)];
    var next := p + 1;
    forall i: nat, c: nat | i < |Sources(q)| && c < |Sources(q)[i].schema|
      ensures Mapped(q, after, k, next, i, c)
    {
      assert Mapped(q, m, k, p, i, c);
      if Sources(q)[i].id == key.0 && Sources(q)[i].schema[c] == key.1 {
        SameColumn(q, i, c, k, p);
      }
    }
  }

  lemma NextSource(q: Query, m: PositionMap, k: nat)
    requires QueryOk(q) && k < |Sources(q)| && MapsColumns(q, m, k, |Sources(q)[k].schema|)
    ensures MapsColumns(q, m, k + 1, 0)
    ensures k + 1 < |Sources(q)| ==> OutputPosition(q, k, |Sources(q)[k].schema|) == OutputPosition(q, k + 1, 0)
  {
    hide QueryOk, Sources, Dropped, KeyList;
    NoKeys([], Nulls(|Sources(q)[0].schema|), |Sources(q)[0].schema|);
    var next := k + 1;
    forall i: nat, c: nat | i < |Sources(q)| && c < |Sources(q)[i].schema|
      ensures Mapped(q, m, next, 0, i, c)
    {
      assert Mapped(q, m, k, |Sources(q)[k].schema|, i, c);
    }
  }

  /** The loop of `resolve` that numbers the output columns. */
  method BuildPositionMap(q: Query) returns (m: PositionMap)
    requires QueryOk(q)
    ensures MapsColumns(q, m, |Sources(q)|, 0)
  {
    hide QueryOk, MapsColumns, Dropped, OutputPosition;
    m := map[];
    var next := 0;
    NothingMapped(q);
    for k := 0 to |Sources(q)|
      invariant MapsColumns(q, m, k, 0) && (k < |Sources(q)| ==> next == OutputPosition(q, k, 0))
    {
      var source := Sources(q)[k];
      for p := 0 to |source.schema|
        invariant MapsColumns(q, m, k, p) && next == OutputPosition(q, k, p)
      {
        OneMoreColumn(q, m, k, p);
        NextPosition(q, k, p);
        if !Dropped(q, k, p) {
          m := m[(source.id, source.schema[p]) := next];
          next := next + 1;
        }
      }
      NextSource(q, m, k);
    }
  }

  lemma NothingMapped(q: Query)
    ensures MapsColumns(q, map[], 0, 0) && OutputPosition(q, 0, 0) == 0
  {
  }

  lemma NextPosition(q: Query, k: nat, p: nat)
    requires k < |Sources(q)|
    ensures OutputPosition(q, k, p + 1) == OutputPosition(q, k, p) + if Dropped(q, k, p) then 0 else 1
  {
  }

  // ---- remapping ------------------------------------------------------------

  /** `output_position_map.get(qualified, pos)`: a dropped column keeps its own position. */
  function Remapped(q: Query, k: nat, p: nat): nat
    requires k < |Sources(q)|
  {
    if Dropped(q, k, p) then p else OutputPosition(q, k, p)
  }

  function RemapWhere(q: Query): WhereFolded -> Option<WherePos> {
    (a: WhereFolded) =>
      match SourceOf(Sources(q), a.src)
      case None => Some(WherePos(a.pos, a.value))
      case Some(k) => Some(WherePos(Remapped(q, k, a.pos), a.value))
  }

  /** The map answers every remapping. */
  lemma MapRemaps(q: Query, m: PositionMap, k: nat, p: nat)
    requires MapsColumns(q, m, |Sources(q)|, 0) && k < |Sources(q)| && p < |Sources(q)[k].schema|
    ensures var key := (Sources(q)[k].id, Sources(q)[k].schema[p]); Remapped(q, k, p) == if key in m then m[key] else p
  {
    hide Dropped, OutputPosition, Sources;
    assert Mapped(q, m, |Sources(q)|, 0, k, p);
  }

  /** The compiled condition: folded, then remapped; `None` is a resolution error. */
  function CompileWhere(q: Query, e: Expr<WhereAtom>): Option<Expr<WherePos>> {
    match Fold(e, FoldWhere(Sources(q)))
    case None => None
    case Some(f) => Fold(f, RemapWhere(q))
  }

  // ---- what a column means --------------------------------------------------

  /** The value of a column by name: a key column of the left table stands for the merged key. */
  function NamedValue(q: Query, t: Tuple, k: nat, p: nat): Value
    requires |t| == |Sources(q)| && k < |t|
  {
    var own := Lookup(q, t, k, p);
    if own == Null && k == 0 && |t| == 2 && KeyOn(q, p).Some? then Lookup(q, t, 1, KeyOn(q, p).value) else own
  }

  /** The right column merged into left column `p` of a two-table join. */
  function KeyOn(q: Query, p: nat): (r: Option<nat>)
    requires |Sources(q)| == 2
    ensures r.Some? ==> JoinKey(p, r.value) in KeyList(q, 0)
    ensures r.None? ==> forall ri :: JoinKey(p, ri) !in KeyList(q, 0)
  {
    RightColOf(KeyList(q, 0), p)
  }

  function RightColOf(keys: seq<JoinKey>, p: nat): (r: Option<nat>)
    ensures r.Some? ==> JoinKey(p, r.value) in keys
    ensures r.None? ==> forall ri :: JoinKey(p, ri) !in keys
  {
    if keys == [] then None else
      var k := |keys| - 1;
      assert keys == keys[..k] + [keys[k]];
      if keys[k].leftCol == p then Some(keys[k].rightCol) else RightColOf(keys[..k], p)
  }

  lemma {:induction false} StartIsOffset(q: Query, k: nat, p: nat)
    requires QueryOk(q) && Keyless(q) && k < |Sources(q)|
    ensures OutputPosition(q, k, p) == Offset(Sources(q), k) + p && !Dropped(q, k, p)
  {
    NoKeys([], Nulls(p), p);
    if k > 0 {
      KeylessWidth(q, k - 1);
      KeylessList(q, k - 1);
    }
  }

  /** The row of two tables joined by keys. */
  lemma TwoTableRow(q: Query, t: Tuple)
    requires QueryOk(q) && TupleOk(q, t) && |t| == |Sources(q)| == 2
    ensures var l, r := Padded(t[0], |Sources(q)[0].schema|), Padded(t[1], |Sources(q)[1].schema|);
      && |l| == |Sources(q)[0].schema| && |r| == |Sources(q)[1].schema| && KeysFit(KeyList(q, 0), |l|, |r|)
      && RowWidth(q, 0) == |l| && Flat(q, t) == Coalesced(KeyList(q, 0), l, r, |r|)
  {
    hide QueryOk, KeyList, KeysFit, Sources, Flat, RowWidth;
    FlatUnfold(q, t);
    FlatOne(q, t[..1]);
    KeyListFits(q, 0);
    FlatWide(q, t[..1]);
  }

  lemma TwoTableColumn(q: Query, t: Tuple, k: nat, p: nat)
    requires QueryOk(q) && TupleOk(q, t) && |t| == |Sources(q)| == 2
    requires k < 2 && p < |Sources(q)[k].schema| && !Dropped(q, k, p)
    ensures OutputPosition(q, k, p) < |Flat(q, t)| && Flat(q, t)[OutputPosition(q, k, p)] == NamedValue(q, t, k, p)
  {
    TwoTableRow(q, t);
    if k == 0 {
      LeftColumn(q, t, Padded(t[0], |Sources(q)[0].schema|), Padded(t[1], |Sources(q)[1].schema|), p);
    } else {
      hide QueryOk, TupleOk, KeyList, KeysFit, Sources, Flat, RowWidth, Coalesced;
      CoalescedRight(KeyList(q, 0), Padded(t[0], |Sources(q)[0].schema|), Padded(t[1], |Sources(q)[1].schema|),
                     |Sources(q)[1].schema|, p);
    }
  }

  lemma LeftColumn(q: Query, t: Tuple, l: Row, r: Row, p: nat)
    requires |t| == |Sources(q)| == 2 && p < |l| == |Sources(q)[0].schema| && |r| == |Sources(q)[1].schema| && TupleOk(q, t)
    requires l == Padded(t[0], |Sources(q)[0].schema|) && r == Padded(t[1], |Sources(q)[1].schema|)
    requires KeysFit(KeyList(q, 0), |l|, |r|) && Flat(q, t) == Coalesced(KeyList(q, 0), l, r, |r|)
    ensures OutputPosition(q, 0, p) < |Flat(q, t)| && Flat(q, t)[OutputPosition(q, 0, p)] == NamedValue(q, t, 0, p)
  {
    hide KeyList, KeysFit, Sources, Flat, Coalesced;
    NoKeys([], Nulls(p), p);
    CoalescedLeft(KeyList(q, 0), l, r, |r|, p);
    KeyInRange(q, l, r, p);
  }

  lemma KeyInRange(q: Query, l: Row, r: Row, p: nat)
    requires |Sources(q)| == 2 && KeysFit(KeyList(q, 0), |l|, |r|)
    ensures KeyOn(q, p).Some? ==> KeyOn(q, p).value < |r|
  {
  }

  /** The remapped position holds the value the name stands for: the scanned value, the padding
      NULL, or the merged key. */
  lemma WherePositionKept(q: Query, t: Tuple, k: nat, p: nat)
    requires QueryOk(q) && TupleOk(q, t) && |t| == |Sources(q)| && k < |t| && p < |Sources(q)[k].schema|
    requires !Dropped(q, k, p)
    ensures Remapped(q, k, p) < |Flat(q, t)| && Flat(q, t)[Remapped(q, k, p)] == NamedValue(q, t, k, p)
  {
    hide TupleOk, Flat, Sources, SourcesOk, KeyNames;
    if KeylessOrTwo(q) {
      StartIsOffset(q, k, p);
      ColumnAtOffset(q, t, k, p);
      KeylessValue(q, t, k, p);
    } else {
      TwoTableColumn(q, t, k, p);
    }
  }

  predicate KeylessOrTwo(q: Query)
    requires QueryOk(q)
    ensures KeylessOrTwo(q) ==> Keyless(q)
    ensures !KeylessOrTwo(q) ==> |Sources(q)| == 2
  {
    Keyless(q)
  }

  lemma KeylessValue(q: Query, t: Tuple, k: nat, p: nat)
    requires QueryOk(q) && Keyless(q) && |t| == |Sources(q)| && k < |t|
    ensures NamedValue(q, t, k, p) == Lookup(q, t, k, p)
  {
    if |t| == 2 {
      KeylessList(q, 0);
    }
  }

  // ---- the condition --------------------------------------------------------

  /** One WHERE atom on a tuple, by name. */
  function NamedWhere(q: Query, t: Tuple): WhereAtom -> Verdict
    requires |t| == |Sources(q)|
  {
    (a: WhereAtom) =>
      match Resolve(Sources(q), a.column)
      case None => Raises
      case Some((k, p)) => Truth(NamedValue(q, t, k, p) == a.value)
  }

  /** The same on the folded atom. */
  function FoldedWhere(q: Query, t: Tuple): WhereFolded -> Verdict
    requires |t| == |Sources(q)|
  {
    (a: WhereFolded) =>
      match SourceOf(Sources(q), a.src)
      case None => Raises
      case Some(k) => Truth(NamedValue(q, t, k, a.pos) == a.value)
  }

  /** The atom names a column that has a place of its own in the output: not the merged key of a
      USING join through the right table. */
  function Placed(q: Query): WhereAtom -> bool {
    (a: WhereAtom) =>
      var c := Resolve(Sources(q), a.column);
      c.Some? ==> !Dropped(q, c.value.0, c.value.1)
  }

  function FoldedPlaced(q: Query): WhereFolded -> bool {
    (a: WhereFolded) =>
      match SourceOf(Sources(q), a.src)
      case None => false
      case Some(k) => a.pos < |Sources(q)[k].schema| && !Dropped(q, k, a.pos)
  }

  lemma {:induction false} FoldedAtoms<A, B>(e: Expr<A>, f: A -> Option<B>, p: A -> bool, r: B -> bool)
    requires Fold(e, f).Some? && EveryAtom(e, p)
    requires forall a :: p(a) && f(a).Some? ==> r(f(a).value)
    ensures EveryAtom(Fold(e, f).value, r)
  {
    match e
    case Atom(a) =>
    case And(x, y) => FoldedAtoms(x, f, p, r); FoldedAtoms(y, f, p, r);
    case Or(x, y) => FoldedAtoms(x, f, p, r); FoldedAtoms(y, f, p, r);
    case Not(x) => FoldedAtoms(x, f, p, r);
  }

  lemma FoldedSource(q: Query, a: WhereAtom)
    requires QueryOk(q) && FoldWhere(Sources(q))(a).Some?
    ensures var f, c := FoldWhere(Sources(q))(a).value, Resolve(Sources(q), a.column);
      c.Some? && SourceOf(Sources(q), f.src) == Some(c.value.0) && f.pos == c.value.1 && f.value == a.value
  {
    var (k, p) := Resolve(Sources(q), a.column).value;
    var s := SourceOf(Sources(q), Sources(q)[k].id);
    SameSource(Sources(q), k, s.value);
  }

  /** The compiled condition decides on the joined row what the named one does on the tuple. */
  lemma WhereKept(q: Query, t: Tuple, e: Expr<WhereAtom>)
    requires QueryOk(q) && TupleOk(q, t) && |t| == |Sources(q)|
    requires EveryAtom(e, Placed(q)) && CompileWhere(q, e).Some?
    ensures Eval(CompileWhere(q, e).value, WhereVerdict(Flat(q, t))) == Eval(e, NamedWhere(q, t))
  {
    hide QueryOk, TupleOk, Sources, Flat, Dropped, NamedValue, Remapped, Resolve;
    var f := Fold(e, FoldWhere(Sources(q))).value;
    forall a | FoldWhere(Sources(q))(a).Some?
      ensures FoldedWhere(q, t)(FoldWhere(Sources(q))(a).value) == NamedWhere(q, t)(a)
      ensures Placed(q)(a) ==> FoldedPlaced(q)(FoldWhere(Sources(q))(a).value)
    {
      FoldedSource(q, a);
    }
    FoldKeeps(e, FoldWhere(Sources(q)), Placed(q), NamedWhere(q, t), FoldedWhere(q, t));
    FoldedAtoms(e, FoldWhere(Sources(q)), Placed(q), FoldedPlaced(q));
    forall a | FoldedPlaced(q)(a)
      ensures RemapWhere(q)(a).Some? && WhereVerdict(Flat(q, t))(RemapWhere(q)(a).value) == FoldedWhere(q, t)(a)
    {
      WherePositionKept(q, t, SourceOf(Sources(q), a.src).value, a.pos);
    }
    FoldKeeps(f, RemapWhere(q), FoldedPlaced(q), FoldedWhere(q, t), WhereVerdict(Flat(q, t)));
  }

  // ---- whole queries --------------------------------------------------------

  function CompileQuery(q: Query): Option<Plan> {
    var joins := CompileJoins(q, |q.joins|);
    match q.condition
    case None => joins
    case Some(e) =>
      var pred := CompileWhere(q, e);
      if joins.None? || pred.None? then None else Some(Filter(joins.value, pred.value))
  }

  function NamedKeeps(q: Query, e: Expr<WhereAtom>): Tuple -> bool {
    (t: Tuple) => |t| == |Sources(q)| && Eval(e, NamedWhere(q, t)) == Yes
  }

  /** What the query denotes. */
  ghost function Denotes(q: Query, tables: Tables): Option<seq<Tuple>> {
    var ts := Named(q, tables, |q.joins|);
    if ts.None? || q.condition.None? then ts else Some(Filtered(ts.value, NamedKeeps(q, q.condition.value)))
  }

  predicate ConditionPlaced(q: Query) {
    q.condition.Some? ==> EveryAtom(q.condition.value, Placed(q))
  }

  lemma {:induction false} FilterMapped(ts: seq<Tuple>, f: Tuple -> Row, keep: Tuple -> bool, keepRow: Row -> bool)
    requires forall i :: 0 <= i < |ts| ==> keepRow(f(ts[i])) == keep(ts[i])
    ensures Filtered(Map(f, ts), keepRow) == Map(f, Filtered(ts, keep))
  {
    if ts != [] {
      MapSnoc(f, ts);
      FilterMapped(ts[..|ts| - 1], f, keep, keepRow);
    }
  }

  lemma {:induction false} NamedNeverRaises(sources: seq<Source>, q: Query, t: Tuple, e: Expr<WhereAtom>)
    requires sources == Sources(q) && |t| == |sources| && Fold(e, FoldWhere(sources)).Some?
    ensures Eval(e, NamedWhere(q, t)) != Raises
  {
    hide NamedValue, Sources, Resolve;
    match e
    case Atom(a) =>
    case And(x, y) => NamedNeverRaises(sources, q, t, x); NamedNeverRaises(sources, q, t, y);
    case Or(x, y) => NamedNeverRaises(sources, q, t, x); NamedNeverRaises(sources, q, t, y);
    case Not(x) => NamedNeverRaises(sources, q, t, x);
  }

  lemma FilterKept(q: Query, ts: seq<Tuple>, e: Expr<WhereAtom>)
    requires QueryOk(q) && TuplesOk(q, ts, |Sources(q)|) && EveryAtom(e, Placed(q)) && CompileWhere(q, e).Some?
    ensures var pred, rows := CompileWhere(q, e).value, Map(Flatten(q), ts);
      && (forall i :: 0 <= i < |rows| ==> Eval(pred, WhereVerdict(rows[i])) != Raises)
      && Filtered(rows, Keeps(pred)) == Map(Flatten(q), Filtered(ts, NamedKeeps(q, e)))
  {
    var pred, rows := CompileWhere(q, e).value, Map(Flatten(q), ts);
    hide QueryOk, TupleOk, Sources, Flat, NamedWhere, WhereVerdict, Placed;
    forall i | 0 <= i < |ts| ensures Eval(pred, WhereVerdict(rows[i])) == Eval(e, NamedWhere(q, ts[i])) != Raises {
      FlattenIsFlat(q, ts[i]);
      WhereKept(q, ts[i], e);
      NamedNeverRaises(Sources(q), q, ts[i], e);
    }
    FilterMapped(ts, Flatten(q), NamedKeeps(q, e), Keeps(pred));
  }

  /** Compiling keeps the meaning: the plan of a query produces the joined rows of exactly the
      tuples the query denotes by name, in the same order, and raises exactly when it does. */
  lemma CompiledQueryMeans(q: Query, tables: Tables)
    requires QueryOk(q) && TablesFit(q, tables) && ConditionPlaced(q) && CompileQuery(q).Some?
    ensures PlanFits(CompileQuery(q).value, tables)
    ensures RowsOf(CompileQuery(q).value, tables) == Flattened(q, Denotes(q, tables))
  {
    var n := |q.joins|;
    hide QueryOk, TablesFit, CompileJoins, CompileWhere, Sources, Named, TupleOk, Placed, Flatten, Keeps, NamedKeeps;
    ChainFits(q, tables, n);
    CompiledJoinsMean(q, tables, n);
    var ts := Named(q, tables, n);
    if q.condition.Some? && ts.Some? {
      FilterKept(q, ts.value, q.condition.value);
    }
  }

  // ---- refused queries ------------------------------------------------------

  function OnFound(sources: seq<Source>): OnAtom -> bool {
    (a: OnAtom) => Provided(sources, a.left) && Provided(sources, a.right)
  }

  function WhereFound(sources: seq<Source>): WhereAtom -> bool {
    (a: WhereAtom) => Provided(sources, a.column)
  }

  /** Both sides of the join have its key columns, and its ON names columns there are. */
  predicate JoinFound(q: Query, i: nat)
    requires i < |q.joins|
  {
    && (forall name :: name in KeyNames(q, i) ==> name in Sources(q)[i].schema && name in Sources(q)[i + 1].schema)
    && (q.joins[i].on.Some? ==> EveryAtom(q.joins[i].on.value, OnFound(Sources(q))))
  }

  /** Every name in the query is that of one column. */
  predicate NamesFound(q: Query) {
    && (forall i :: 0 <= i < |q.joins| ==> JoinFound(q, i))
    && (q.condition.Some? ==> EveryAtom(q.condition.value, WhereFound(Sources(q))))
  }

  lemma {:induction false} KeysForFails(names: seq<string>, l: seq<string>, r: seq<string>)
    ensures KeysFor(names, l, r).Some? <==> forall name :: name in names ==> name in l && name in r
  {
    if names != [] {
      var k := |names| - 1;
      KeysForFails(names[..k], l, r);
      assert names == names[..k] + [names[k]];
    }
  }

  lemma OnFails(q: Query, i: nat)
    requires SourcesOk(Sources(q)) && i < |q.joins|
    ensures CompileOn(q, i).Some? <==> q.joins[i].on.Some? ==> EveryAtom(q.joins[i].on.value, OnFound(Sources(q)))
  {
    hide Sources, Resolve, Provided, SourcesOk;
    if q.joins[i].on.Some? {
      var e, f := q.joins[i].on.value, FoldOn(Sources(q));
      forall a ensures f(a).Some? <==> OnFound(Sources(q))(a) {
        ResolveFails(Sources(q), a.left);
        ResolveFails(Sources(q), a.right);
      }
      FoldFails(e, f, OnFound(Sources(q)));
    }
  }

  lemma WhereFails(q: Query, e: Expr<WhereAtom>)
    requires SourcesOk(Sources(q))
    ensures CompileWhere(q, e).Some? <==> EveryAtom(e, WhereFound(Sources(q)))
  {
    hide Sources, Resolve, Provided, SourcesOk, Dropped, OutputPosition, SourceOf;
    var f := FoldWhere(Sources(q));
    forall a ensures f(a).Some? <==> WhereFound(Sources(q))(a) {
      ResolveFails(Sources(q), a.column);
    }
    FoldFails(e, f, WhereFound(Sources(q)));
    if Fold(e, f).Some? {
      var always := (a: WhereFolded) => true;
      FoldFails(Fold(e, f).value, RemapWhere(q), always);
      EveryAtomTrue(Fold(e, f).value, always);
    }
  }

  lemma JoinFails(q: Query, i: nat)
    requires SourcesOk(Sources(q)) && i < |q.joins|
    ensures CompileKeys(q, i).Some? && CompileOn(q, i).Some? <==> JoinFound(q, i)
  {
    hide Sources, SourcesOk, KeysFor, CompileOn, KeyNames;
    OnFails(q, i);
    KeysForFails(KeyNames(q, i), Sources(q)[i].schema, Sources(q)[i + 1].schema);
  }

  lemma {:induction false} JoinsFail(q: Query, n: nat)
    requires SourcesOk(Sources(q)) && n <= |q.joins|
    ensures CompileJoins(q, n).Some? <==> forall i :: 0 <= i < n ==> JoinFound(q, i)
  {
    hide Sources, SourcesOk, KeysFor, CompileOn, KeyNames;
    if n > 0 {
      var k := n - 1;
      JoinsFail(q, k);
      JoinFails(q, k);
      hide JoinFound, CompileKeys;
      assert CompileJoins(q, n).Some? <==> CompileJoins(q, k).Some? && JoinFound(q, k);
    }
  }

  /** A query is refused exactly when it names something that is not there, or is there twice. */
  lemma RefusedForNames(q: Query)
    requires SourcesOk(Sources(q))
    ensures CompileQuery(q).Some? <==> NamesFound(q)
  {
    hide Sources, SourcesOk, CompileJoins, CompileWhere, JoinFound;
    JoinsFail(q, |q.joins|);
    if q.condition.Some? {
      WhereFails(q, q.condition.value);
    }
  }

  /** `None` is a name that does not resolve; then the plan's rows, if nothing raises. */
  method RunQuery(q: Query, tables: Tables) returns (rows: Option<Option<seq<Row>>>)
    requires QueryOk(q) && TablesFit(q, tables) && ConditionPlaced(q)
    ensures rows.Some? <==> NamesFound(q)
    ensures rows.Some? ==> rows.value == Flattened(q, Denotes(q, tables))
  {
    RefusedForNames(q);
    hide NamesFound, QueryOk, TablesFit, ConditionPlaced, CompileJoins, CompileWhere, Denotes, RowsOf;
    var plan := BuildJoins(q);
    if q.condition.Some? && plan.Some? {
      var pred := CompileWhere(q, q.condition.value);
      plan := if pred.None? then None else Some(Filter(plan.value, pred.value));
    }
    if plan.None? {
      return None;
    }
    CompiledQueryMeans(q, tables);
    var out := EvalPlan(plan.value, tables);
    return Some(out);
  }

  // ---- the merged key through the right table -------------------------------

  /** A row from each table, matching: what an INNER join is made of. */
  predicate Matched(q: Query, t: Tuple)
    requires |q.joins| == 1
  {
    |t| == 2 && TupleOk(q, t) && t[0].Some? && t[1].Some? && NamedMatch(q, 0)(t[..1], t[1].value) == Yes
  }

  /** The remapped position of a merged key holds it. */
  predicate ReadsKey(q: Query, t: Tuple, p: nat, left: nat)
    requires |t| == |Sources(q)| == 2
  {
    Remapped(q, 1, p) < |Flat(q, t)| && Flat(q, t)[Remapped(q, 1, p)] == NamedValue(q, t, 0, left)
  }

  /** `o.id` with `USING (id)` is remapped to its position in the right table: that holds the
      merged key, in all rows of whatever join, exactly when the key has the same position in the
      left table. Where it has not, matching rows already show it. */
  lemma MergedKeyThroughRight(q: Query, p: nat)
    requires QueryOk(q) && |Sources(q)| == 2 && Dropped(q, 1, p)
    ensures var left := LeftColOf(KeyList(q, 0), p).value;
      && (p == left ==> forall t: Tuple :: TupleOk(q, t) && |t| == 2 ==> ReadsKey(q, t, p, left))
      && (p == left <==> forall t: Tuple :: Matched(q, t) ==> ReadsKey(q, t, p, left))
  {
    hide Sources, QueryOk, KeyList, Flat, TupleOk, Remapped, NamedValue, NamedMatch;
    var left := LeftColOf(KeyList(q, 0), p).value;
    assert Remapped(q, 1, p) == p by { DroppedStays(q, 1, p); }
    LeftKeyInRange(q, p);
    if p == left {
      forall t: Tuple | TupleOk(q, t) && |t| == 2 ensures ReadsKey(q, t, p, left) {
        LeftIsItself(q, t, left);
      }
    } else {
      WrongColumn(q, p, left);
    }
  }

  lemma DroppedStays(q: Query, k: nat, p: nat)
    requires k < |Sources(q)| && Dropped(q, k, p)
    ensures Remapped(q, k, p) == p
  {
  }

  lemma LeftKeyInRange(q: Query, p: nat)
    requires QueryOk(q) && |Sources(q)| == 2 && Dropped(q, 1, p)
    ensures LeftColOf(KeyList(q, 0), p).value < |Sources(q)[0].schema|
  {
    hide Sources, QueryOk, KeyList;
    KeyListFits(q, 0);
    assert RowWidth(q, 0) == |Sources(q)[0].schema|;
  }

  lemma LeftIsItself(q: Query, t: Tuple, p: nat)
    requires QueryOk(q) && TupleOk(q, t) && |t| == |Sources(q)| == 2 && p < |Sources(q)[0].schema|
    ensures p < |Flat(q, t)| && Flat(q, t)[p] == NamedValue(q, t, 0, p)
  {
    hide Sources, QueryOk, KeyList, Flat, TupleOk, NamedValue;
    NoKeys([], Nulls(p), p);
    assert !Dropped(q, 0, p) && OutputPosition(q, 0, p) == p;
    TwoTableColumn(q, t, 0, p);
  }

  /** One where the key in question is, zeros elsewhere, and equal keys on the right. */
  function Marked(w: nat, left: nat): (l: Row)
    ensures |l| == w && forall i :: 0 <= i < w ==> l[i] == Int(if i == left then 1 else 0)
  {
    seq(w, i => Int(if i == left then 1 else 0))
  }

  function MatchingRow(keys: seq<JoinKey>, left: nat, w: nat): (r: Row)
    ensures |r| == w && forall j :: 0 <= j < w ==> r[j] == Int(if LeftColOf(keys, j) == Some(left) then 1 else 0)
  {
    seq(w, j requires 0 <= j < w => Int(if LeftColOf(keys, j) == Some(left) then 1 else 0))
  }

  function Witness(q: Query, left: nat): (t: Tuple)
    requires |Sources(q)| == 2
    ensures |t| == 2
  {
    [Some(Marked(|Sources(q)[0].schema|, left)), Some(MatchingRow(KeyList(q, 0), left, |Sources(q)[1].schema|))]
  }

  /** The key in the right table that a name joins. */
  lemma KeyOfName(q: Query, name: string)
    requires QueryOk(q) && |Sources(q)| == 2 && KeyList(q, 0) != [] && name in KeyNames(q, 0)
    ensures var l, r := PositionOf(Sources(q)[0].schema, name), PositionOf(Sources(q)[1].schema, name);
      l.Some? && r.Some? && LeftColOf(KeyList(q, 0), r.value) == l
  {
    hide KeysFor, Sources, KeyNames;
    KeysForAre(KeyNames(q, 0), Sources(q)[0].schema, Sources(q)[1].schema);
    SourceIsOk(q, 0);
    var l, r := PositionOf(Sources(q)[0].schema, name).value, PositionOf(Sources(q)[1].schema, name).value;
    var c := LeftColOf(KeyList(q, 0), r);
    if c.Some? {
      UniquePosition(Sources(q)[0].schema, c.value, l);
    }
  }

  lemma SourceIsOk(q: Query, k: nat)
    requires QueryOk(q) && k < |Sources(q)|
    ensures forall i, j :: 0 <= i < j < |Sources(q)[k].schema| ==> Sources(q)[k].schema[i] != Sources(q)[k].schema[j]
  {
  }

  lemma KeysMeanNames(q: Query)
    requires |Sources(q)| == 2 && KeyList(q, 0) != []
    ensures KeyNames(q, 0) != []
  {
  }

  lemma WitnessMatches(q: Query, left: nat)
    requires QueryOk(q) && |Sources(q)| == 2 && KeyList(q, 0) != [] && left < |Sources(q)[0].schema|
    ensures Matched(q, Witness(q, left))
  {
    hide QueryOk, KeyList, Sources, KeyNames;
    var t := Witness(q, left);
    KeysMeanNames(q);
    forall name | name in KeyNames(q, 0) ensures SameUnder(q, 0, t[..1], t[1].value, name) {
      KeyOfName(q, name);
    }
    assert SameKeys(q, 0, t[..1], t[1].value);
  }

  lemma WrongColumn(q: Query, p: nat, left: nat)
    requires QueryOk(q) && |Sources(q)| == 2 && Dropped(q, 1, p) && p != left && left < |Sources(q)[0].schema|
    requires Remapped(q, 1, p) == p
    ensures exists t: Tuple :: Matched(q, t) && !ReadsKey(q, t, p, left)
  {
    hide QueryOk, KeyList, Flat, Sources, Remapped, NamedMatch, Dropped;
    var t, w := Witness(q, left), |Sources(q)[0].schema|;
    SomeKey(q, p);
    WitnessMatches(q, left);
    assert NamedValue(q, t, 0, left) == Int(1);
    if p < w {
      LeftIsItself(q, t, p);
    } else if p < |Flat(q, t)| {
      ZeroBehind(q, t, p, left);
    }
    assert !ReadsKey(q, t, p, left);
  }

  lemma SomeKey(q: Query, p: nat)
    requires |Sources(q)| == 2 && Dropped(q, 1, p)
    ensures KeyList(q, 0) != []
  {
  }

  /** Behind the left columns there are right columns that are no keys. */
  lemma ZeroBehind(q: Query, t: Tuple, p: nat, left: nat)
    requires QueryOk(q) && |Sources(q)| == 2 && t == Witness(q, left) && TupleOk(q, t)
    requires |Sources(q)[0].schema| <= p < |Flat(q, t)|
    ensures Flat(q, t)[p] == Int(0)
  {
    hide QueryOk, KeyList, Flat, Sources, KeysFit;
    TwoTableRow(q, t);
    var w := |Sources(q)[1].schema|;
    ZerosBehind(KeyList(q, 0), t[0].value, t[1].value, w, p);
  }

  lemma {:induction false} ZerosBehind(keys: seq<JoinKey>, l: Row, r: Row, n: nat, p: nat)
    requires KeysFit(keys, |l|, |r|) && n <= |r| && |l| <= p < |Coalesced(keys, l, r, n)|
    requires forall j :: 0 <= j < |r| && LeftColOf(keys, j).None? ==> r[j] == Int(0)
    ensures Coalesced(keys, l, r, n)[p] == Int(0)
  {
    if p < |Coalesced(keys, l, r, n - 1)| {
      ZerosBehind(keys, l, r, n - 1, p);
    }
  }
}
