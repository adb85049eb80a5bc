/** Names compiled to positions: the resolver, the left-deep plan, its evaluation, and what the
    query means by name (src/tinydb/resolver.py, src/tinydb/plan.py, src/tinydb/_join_executor.py). */
module JoinQueries {
  import opened Wrappers
  import opened JoinAlgebra
  import opened JoinRows

  // ---- predicates -----------------------------------------------------------

  datatype Op = EQ | NE | LT | GT | LE | GE

  datatype Expr<A> = Atom(a: A) | And(left: Expr<A>, right: Expr<A>) | Or(left: Expr<A>, right: Expr<A>) | Not(operand: Expr<A>)

  /** Python's `and`, `or` and `not`: the right operand is looked at only if it matters. */
  function Eval<A>(e: Expr<A>, v: A -> Verdict): Verdict {
    match e
    case Atom(a) => v(a)
    case And(l, r) => var x := Eval(l, v); if x == Yes then Eval(r, v) else x
    case Or(l, r) => var x := Eval(l, v); if x == No then Eval(r, v) else x
    case Not(x) =>
      match Eval(x, v)
      case Yes => No
      case No => Yes
      case Raises => Raises
  }

  /** Rewrite every atom; `None` when one cannot be. */
  function Fold<A, B>(e: Expr<A>, f: A -> Option<B>): Option<Expr<B>> {
    match e
    case Atom(a) => (match f(a) case None => None case Some(b) => Some(Atom(b)))
    case And(l, r) =>
      var x, y := Fold(l, f), Fold(r, f);
      if x.None? || y.None? then None else Some(And(x.value, y.value))
    case Or(l, r) =>
      var x, y := Fold(l, f), Fold(r, f);
      if x.None? || y.None? then None else Some(Or(x.value, y.value))
    case Not(o) =>
      var x := Fold(o, f);
      if x.None? then None else Some(Not(x.value))
  }

  predicate EveryAtom<A>(e: Expr<A>, p: A -> bool) {
    match e
    case Atom(a) => p(a)
    case And(l, r) => EveryAtom(l, p) && EveryAtom(r, p)
    case Or(l, r) => EveryAtom(l, p) && EveryAtom(r, p)
    case Not(x) => EveryAtom(x, p)
  }

  lemma {:induction false} EveryAtomTrue<A>(e: Expr<A>, p: A -> bool)
    requires forall a :: p(a)
    ensures EveryAtom(e, p)
  {
    match e
    case Atom(a) =>
    case And(l, r) => EveryAtomTrue(l, p); EveryAtomTrue(r, p);
    case Or(l, r) => EveryAtomTrue(l, p); EveryAtomTrue(r, p);
    case Not(x) => EveryAtomTrue(x, p);
  }

  /** Folding fails exactly when an atom does. */
  lemma {:induction false} FoldFails<A, B>(e: Expr<A>, f: A -> Option<B>, p: A -> bool)
    requires forall a :: p(a) <==> f(a).Some?
    ensures Fold(e, f).Some? <==> EveryAtom(e, p)
  {
    match e
    case Atom(a) =>
    case And(l, r) => FoldFails(l, f, p); FoldFails(r, f, p);
    case Or(l, r) => FoldFails(l, f, p); FoldFails(r, f, p);
    case Not(x) => FoldFails(x, f, p);
  }

  /** Folding keeps the truth value, and whether evaluation raises. */
  lemma {:induction false} FoldKeeps<A, B>(e: Expr<A>, f: A -> Option<B>, p: A -> bool, v: A -> Verdict, w: B -> Verdict)
    requires Fold(e, f).Some? && EveryAtom(e, p)
    requires forall a :: p(a) && f(a).Some? ==> w(f(a).value) == v(a)
    ensures Eval(Fold(e, f).value, w) == Eval(e, v)
  {
    match e
    case Atom(a) =>
    case And(l, r) => FoldKeeps(l, f, p, v, w); FoldKeeps(r, f, p, v, w);
    case Or(l, r) => FoldKeeps(l, f, p, v, w); FoldKeeps(r, f, p, v, w);
    case Not(x) => FoldKeeps(x, f, p, v, w);
  }

  predicate TextLess(a: string, b: string) {
    b != [] && (a == [] || a[0] < b[0] || (a[0] == b[0] && TextLess(a[1..], b[1..])))
  }

  /** The comparison table; an order between NULL or different types is a TypeError. */
  function Compare(op: Op, a: Value, b: Value): Verdict {
    match op
    case EQ => Truth(a == b)
    case NE => Truth(a != b)
    case LT => Order(a, b)
    case GE => Negated(Order(a, b))
    case GT => Order(b, a)
    case LE => Negated(Order(b, a))
  }

  function Truth(b: bool): Verdict {
    if b then Yes else No
  }

  function Negated(v: Verdict): Verdict {
    match v
    case Yes => No
    case No => Yes
    case Raises => Raises
  }

  function Order(a: Value, b: Value): Verdict {
    match (a, b)
    case (Int(x), Int(y)) => Truth(x < y)
    case (Text(x), Text(y)) => Truth(TextLess(x, y))
    case _ => Raises
  }

  lemma {:induction false} TextOneWay(a: string, b: string)
    ensures !(TextLess(a, b) && TextLess(b, a))
  {
    if a != [] && b != [] && a[0] == b[0] {
      TextOneWay(a[1..], b[1..]);
    }
  }

  lemma {:induction false} TextTotal(a: string, b: string)
    ensures TextLess(a, b) || TextLess(b, a) || a == b
  {
    if a != [] && b != [] && a[0] == b[0] {
      TextTotal(a[1..], b[1..]);
      assert a == [a[0]] + a[1..] && b == [b[0]] + b[1..];
    }
  }

  lemma {:induction false} TextTransitive(a: string, b: string, c: string)
    requires TextLess(a, b) && TextLess(b, c)
    ensures TextLess(a, c)
  {
    if a != [] && a[0] == b[0] && b[0] == c[0] {
      TextTransitive(a[1..], b[1..], c[1..]);
    }
  }

  /** The texts are the same up to `n`; there `a` ends, or has the smaller character. */
  predicate TextPartsAt(a: string, b: string, n: nat) {
    n <= |a| && n < |b| && a[..n] == b[..n] && (n < |a| ==> a[n] < b[n])
  }

  lemma {:induction false} TextLessParts(a: string, b: string) returns (n: nat)
    requires TextLess(a, b)
    ensures TextPartsAt(a, b, n)
  {
    n := 0;
    if a != [] && a[0] == b[0] {
      var k := TextLessParts(a[1..], b[1..]);
      n := k + 1;
      assert a[..n] == [a[0]] + a[1..][..k] && b[..n] == [b[0]] + b[1..][..k];
    }
  }

  lemma {:induction false} PartsIsTextLess(a: string, b: string, n: nat)
    requires TextPartsAt(a, b, n)
    ensures TextLess(a, b)
  {
    if n > 0 {
      assert a[0] == a[..n][0] && b[0] == b[..n][0];
      assert a[1..][..n - 1] == a[..n][1..] && b[1..][..n - 1] == b[..n][1..];
      PartsIsTextLess(a[1..], b[1..], n - 1);
    }
  }

  // ---- what a comparison decides --------------------------------------------

  /** Two integers or two texts. */
  predicate SameType(x: Value, y: Value) {
    (x.Int? && y.Int?) || (x.Text? && y.Text?)
  }

  /** The smaller integer; or the text that is a proper prefix, or has the smaller character where
      they first differ. */
  ghost predicate Smaller(x: Value, y: Value) {
    match (x, y)
    case (Int(i), Int(j)) => i < j
    case (Text(s), Text(u)) => exists n :: TextPartsAt(s, u, n)
    case _ => false
  }

  /** The relation an operator stands for. */
  ghost predicate Relates(op: Op, x: Value, y: Value) {
    match op
    case EQ => x == y
    case NE => x != y
    case LT => Smaller(x, y)
    case GT => Smaller(y, x)
    case LE => Smaller(x, y) || x == y
    case GE => Smaller(y, x) || x == y
  }

  /** An order asks for two values of one type, neither of them NULL. */
  predicate Decides(op: Op, x: Value, y: Value) {
    op == EQ || op == NE || SameType(x, y)
  }

  lemma SmallerIsOrder(x: Value, y: Value)
    requires SameType(x, y)
    ensures Order(x, y) == Truth(Smaller(x, y))
    ensures !Smaller(x, y) <==> Smaller(y, x) || x == y
  {
    if x.Text? {
      TextIsSmaller(x.s, y.s);
      TextIsSmaller(y.s, x.s);
      TextOneWay(x.s, y.s);
      TextTotal(x.s, y.s);
      if x.s == y.s {
        TextOneWay(x.s, x.s);
      }
    }
  }

  lemma TextIsSmaller(a: string, b: string)
    ensures TextLess(a, b) <==> exists n :: TextPartsAt(a, b, n)
  {
    if TextLess(a, b) {
      var n := TextLessParts(a, b);
    }
    if n :| TextPartsAt(a, b, n) {
      PartsIsTextLess(a, b, n);
    }
  }

  /** A comparison is true exactly when its relation holds of the values; an order with a NULL or
      with two types raises. */
  lemma CompareMeans(op: Op, x: Value, y: Value)
    ensures Compare(op, x, y) == Raises <==> !Decides(op, x, y)
    ensures Decides(op, x, y) ==> (Compare(op, x, y) == Yes <==> Relates(op, x, y))
  {
    hide Smaller;
    if SameType(x, y) {
      SmallerIsOrder(x, y);
      SmallerIsOrder(y, x);
    }
  }

  // ---- what a condition decides ---------------------------------------------

  /** The truth tables: the right operand counts when the left one leaves it open. */
  lemma EvalTables<A>(l: Expr<A>, r: Expr<A>, v: A -> Verdict)
    ensures var x, y := Eval(l, v), Eval(r, v);
      && (Eval(And(l, r), v) == Yes <==> x == Yes && y == Yes)
      && (Eval(And(l, r), v) == Raises <==> x == Raises || (x == Yes && y == Raises))
      && (Eval(Or(l, r), v) == Yes <==> x == Yes || (x == No && y == Yes))
      && (Eval(Or(l, r), v) == Raises <==> x == Raises || (x == No && y == Raises))
      && (Eval(Not(l), v) == Yes <==> x == No)
      && (Eval(Not(l), v) == Raises <==> x == Raises)
  {
  }

  /** The condition as a formula over its atoms. */
  predicate Sat<A>(e: Expr<A>, p: A -> bool) {
    match e
    case Atom(a) => p(a)
    case And(l, r) => Sat(l, p) && Sat(r, p)
    case Or(l, r) => Sat(l, p) || Sat(r, p)
    case Not(x) => !Sat(x, p)
  }

  /** Where no atom raises, evaluation is that of the formula. */
  lemma {:induction false} EvalIsSat<A>(e: Expr<A>, v: A -> Verdict, ok: A -> bool, p: A -> bool)
    requires EveryAtom(e, ok) && forall a :: ok(a) ==> v(a) == if p(a) then Yes else No
    ensures Eval(e, v) == if Sat(e, p) then Yes else No
  {
    match e
    case Atom(a) =>
    case And(l, r) => EvalIsSat(l, v, ok, p); EvalIsSat(r, v, ok, p);
    case Or(l, r) => EvalIsSat(l, v, ok, p); EvalIsSat(r, v, ok, p);
    case Not(x) => EvalIsSat(x, v, ok, p);
  }

  // ---- the resolver ---------------------------------------------------------

  datatype Source = Source(id: string, table: string, schema: seq<string>)
  datatype ColumnRef = ColumnRef(qualifier: Option<string>, name: string)
  datatype OnAtom = OnAtom(op: Op, left: ColumnRef, right: ColumnRef)
  datatype WhereAtom = WhereAtom(column: ColumnRef, value: Value)

  /** Folded forms: positions within a source, and its id. */
  datatype OnFolded = OnFolded(op: Op, lpos: nat, rpos: nat, lsrc: string, rsrc: string)
  datatype WhereFolded = WhereFolded(pos: nat, value: Value, src: string)
  /** A WHERE atom remapped to a position of the joined row. */
  datatype WherePos = WherePos(pos: nat, value: Value)

  predicate DistinctSources(sources: seq<Source>) {
    forall i, j :: 0 <= i < j < |sources| ==> sources[i].id != sources[j].id
  }

  predicate DistinctColumns(s: Source) {
    forall i, j :: 0 <= i < j < |s.schema| ==> s.schema[i] != s.schema[j]
  }

  /** Source ids are distinct (DuplicateAlias otherwise) and so are the columns of a table. */
  predicate SourcesOk(sources: seq<Source>) {
    DistinctSources(sources) && forall i :: 0 <= i < |sources| ==> DistinctColumns(sources[i])
  }

  /** `{n: i for i, n in enumerate(schema)}[name]`. */
  function PositionOf(schema: seq<string>, name: string): (r: Option<nat>)
    ensures r.Some? ==> r.value < |schema| && schema[r.value] == name
    ensures r.None? ==> name !in schema
  {
    if schema == [] then None else
      var k := |schema| - 1;
      assert schema == schema[..k] + [schema[k]];
      if schema[k] == name then Some(k) else PositionOf(schema[..k], name)
  }

  function SourceOf(sources: seq<Source>, id: string): (r: Option<nat>)
    ensures r.Some? ==> r.value < |sources| && sources[r.value].id == id
    ensures r.None? ==> forall i :: 0 <= i < |sources| ==> sources[i].id != id
  {
    if sources == [] then None else
      var k := |sources| - 1;
      if sources[k].id == id then Some(k) else SourceOf(sources[..k], id)
  }

  /** The sources that have a column of that name. */
  function Providers(sources: seq<Source>, name: string): (r: seq<nat>)
    ensures forall i :: i in r ==> i < |sources|
  {
    if sources == [] then [] else
      var k := |sources| - 1;
      Providers(sources[..k], name) + if name in sources[k].schema then [k] else []
  }

  lemma {:induction false} ProvidersAre(sources: seq<Source>, name: string)
    ensures forall i: nat :: i in Providers(sources, name) <==> i < |sources| && name in sources[i].schema
    ensures var r := Providers(sources, name);
      (forall a, b :: 0 <= a < b < |r| ==> r[a] != r[b]) && (|r| > 1 ==> r[0] in r && r[1] in r && r[0] != r[1])
  {
    if sources != [] {
      var k := |sources| - 1;
      var before := Providers(sources[..k], name);
      ProvidersAre(sources[..k], name);
      assert forall a :: 0 <= a < |before| ==> before[a] in before;
      forall i: nat ensures i in Providers(sources, name) <==> i < |sources| && name in sources[i].schema {
        assert i < k ==> sources[..k][i] == sources[i];
      }
    }
  }

  /** The source and the position in it; `None` is UnknownQualifiedColumn or AmbiguousColumn. */
  function Resolve(sources: seq<Source>, ref: ColumnRef): (r: Option<(nat, nat)>)
    ensures r.Some? ==> var (i, p) := r.value;
      i < |sources| && p < |sources[i].schema| && sources[i].schema[p] == ref.name
      && (ref.qualifier.Some? ==> sources[i].id == ref.qualifier.value)
      && (ref.qualifier.None? ==> forall j :: 0 <= j < |sources| && ref.name in sources[j].schema ==> j == i)
  {
    match ref.qualifier
    case Some(q) =>
      (match SourceOf(sources, q)
       case None => None
       case Some(i) => match PositionOf(sources[i].schema, ref.name) case None => None case Some(p) => Some((i, p)))
    case None =>
      var hits := Providers(sources, ref.name);
      if |hits| != 1 then None else
        assert hits[0] in hits;
        ProvidersAre(sources, ref.name);
        assert forall j :: j in hits ==> j == hits[0];
        match PositionOf(sources[hits[0]].schema, ref.name) case None => None case Some(p) => Some((hits[0], p))
  }

  /** Its source has the column; for a bare name, just one source does. */
  predicate Provided(sources: seq<Source>, ref: ColumnRef) {
    if ref.qualifier.Some? then
      exists i :: 0 <= i < |sources| && sources[i].id == ref.qualifier.value && ref.name in sources[i].schema
    else
      exists i :: 0 <= i < |sources| && ref.name in sources[i].schema
        && forall j :: 0 <= j < |sources| && ref.name in sources[j].schema ==> j == i
  }

  /** Resolution fails exactly when no source, or for a bare name more than one, has the column. */
  lemma ResolveFails(sources: seq<Source>, ref: ColumnRef)
    requires SourcesOk(sources)
    ensures Resolve(sources, ref).Some? <==> Provided(sources, ref)
  {
    ProvidersAre(sources, ref.name);
    if ref.qualifier.Some? {
      if i :| 0 <= i < |sources| && sources[i].id == ref.qualifier.value && ref.name in sources[i].schema {
        assert SourceOf(sources, ref.qualifier.value) == Some(i);
      }
    }
  }

  function FoldOn(sources: seq<Source>): OnAtom -> Option<OnFolded> {
    (a: OnAtom) =>
      var l, r := Resolve(sources, a.left), Resolve(sources, a.right);
      if l.None? || r.None? then None
      else Some(OnFolded(a.op, l.value.1, r.value.1, sources[l.value.0].id, sources[r.value.0].id))
  }

  function FoldWhere(sources: seq<Source>): WhereAtom -> Option<WhereFolded> {
    (a: WhereAtom) =>
      var c := Resolve(sources, a.column);
      if c.None? then None else Some(WhereFolded(c.value.1, a.value, sources[c.value.0].id))
  }

  // ---- positions in the joined row ------------------------------------------

  /** Where the columns of source `k` begin when none is dropped. */
  function Offset(sources: seq<Source>, k: nat): nat
    requires k <= |sources|
  {
    if k == 0 then 0 else Offset(sources, k - 1) + |sources[k - 1].schema|
  }

  /** `_build_source_position_map`, offsets only. */
  function Offsets(sources: seq<Source>): map<string, nat> {
    if sources == [] then map[] else
      Offsets(sources[..|sources| - 1])[sources[|sources| - 1].id := Offset(sources, |sources| - 1)]
  }

  lemma {:induction false} OffsetPrefix(sources: seq<Source>, n: nat, k: nat)
    requires k <= n <= |sources|
    ensures Offset(sources[..n], k) == Offset(sources, k)
  {
    if k > 0 {
      OffsetPrefix(sources, n, k - 1);
    }
  }

  lemma {:induction false} OffsetsAt(sources: seq<Source>, id: string)
    requires DistinctSources(sources)
    ensures id in Offsets(sources) <==> SourceOf(sources, id).Some?
    ensures id in Offsets(sources) ==> Offsets(sources)[id] == Offset(sources, SourceOf(sources, id).value)
  {
    if sources != [] {
      var k := |sources| - 1;
      OffsetsAt(sources[..k], id);
      if sources[k].id != id && SourceOf(sources[..k], id).Some? {
        OffsetPrefix(sources, k, SourceOf(sources[..k], id).value);
      }
    }
  }

  method BuildOffsets(sources: seq<Source>) returns (m: map<string, nat>)
    ensures m == Offsets(sources)
  {
    m := map[];
    var offset := 0;
    assert sources[..0] == [];
    for k := 0 to |sources|
      invariant m == Offsets(sources[..k]) && offset == Offset(sources, k)
    {
      assert sources[..k + 1][..k] == sources[..k];
      OffsetPrefix(sources, k + 1, k);
      m := m[sources[k].id := offset];
      offset := offset + |sources[k].schema|;
    }
    assert sources[..|sources|] == sources;
  }

  // ---- plans ----------------------------------------------------------------

  datatype Plan =
    | Scan(source: Source)
    | JoinNode(kind: Kind, left: Plan, right: Plan, keys: seq<JoinKey>, on: Option<Expr<OnFolded>>)
    | Filter(input: Plan, pred: Expr<WherePos>)

  function SourcesOf(plan: Plan): seq<Source> {
    match plan
    case Scan(s) => [s]
    case JoinNode(_, l, r, _, _) => SourcesOf(l) + SourcesOf(r)
    case Filter(input, _) => SourcesOf(input)
  }

  /** How many columns the output schema has. */
  function Width(plan: Plan): nat {
    match plan
    case Scan(s) => |s.schema|
    case JoinNode(kind, l, r, keys, _) =>
      Width(l) + if kind == CROSS then Width(r) else KeptBefore(keys, Width(r))
    case Filter(input, _) => Width(input)
  }

  /** The tables: rows by table name. */
  type Tables = string -> seq<Row>

  predicate KeysMatch(keys: seq<JoinKey>, l: Row, r: Row) {
    forall k :: k in keys ==> KeyHolds(k, l, r)
  }

  predicate KeyHolds(k: JoinKey, l: Row, r: Row) {
    k.leftCol < |l| && k.rightCol < |r| && l[k.leftCol] != Null && l[k.leftCol] == r[k.rightCol]
  }

  /** One folded ON atom; an id outside its side's map is a KeyError. */
  function OnVerdict(lmap: map<string, nat>, rmap: map<string, nat>, l: Row, r: Row): OnFolded -> Verdict {
    (a: OnFolded) =>
      if a.lsrc !in lmap || a.rsrc !in rmap then Raises
      else
        var i, j := lmap[a.lsrc] + a.lpos, rmap[a.rsrc] + a.rpos;
        if i < |l| && j < |r| then Compare(a.op, l[i], r[j]) else Raises
  }

  /** `_matches`: by keys if there are any, else by the ON predicate. */
  function Matches(keys: seq<JoinKey>, on: Option<Expr<OnFolded>>, lmap: map<string, nat>, rmap: map<string, nat>): (Row, Row) -> Verdict {
    (l: Row, r: Row) =>
      if keys != [] then Truth(KeysMatch(keys, l, r))
      else match on
        case None => Yes
        case Some(e) => Eval(e, OnVerdict(lmap, rmap, l, r))
  }

  function ShapeOf(plan: Plan): Shape
    requires plan.JoinNode?
  {
    if plan.kind == CROSS then CrossShape(Width(plan.left), Width(plan.right))
    else Shape(plan.keys, Width(plan.left), Width(plan.right),
               Matches(plan.keys, plan.on, Offsets(SourcesOf(plan.left)), Offsets(SourcesOf(plan.right))))
  }

  function WhereVerdict(row: Row): WherePos -> Verdict {
    (a: WherePos) => if a.pos < |row| then Truth(row[a.pos] == a.value) else Raises
  }

  function Filtered<A>(rows: seq<A>, keep: A -> bool): seq<A> {
    if rows == [] then [] else
      Filtered(rows[..|rows| - 1], keep) + if keep(rows[|rows| - 1]) then [rows[|rows| - 1]] else []
  }

  function Keeps(pred: Expr<WherePos>): Row -> bool {
    (row: Row) => Eval(pred, WhereVerdict(row)) == Yes
  }

  /** The rows of a plan; `None` when evaluating it raises. */
  ghost function RowsOf(plan: Plan, tables: Tables): Option<seq<Row>> {
    match plan
    case Scan(s) => Some(tables(s.table))
    case JoinNode(kind, l, r, keys, on) =>
      var ls, rs := RowsOf(l, tables), RowsOf(r, tables);
      if ls.None? || rs.None? then None else Joined(kind, ShapeOf(plan), ls.value, rs.value)
    case Filter(input, pred) =>
      var rows := RowsOf(input, tables);
      if rows.None? || exists i :: 0 <= i < |rows.value| && Eval(pred, WhereVerdict(rows.value[i])) == Raises then None
      else Some(Filtered(rows.value, Keeps(pred)))
  }

  /** Table rows are as wide as their schema, and key positions are in range. */
  predicate PlanFits(plan: Plan, tables: Tables) {
    match plan
    case Scan(s) => forall i :: 0 <= i < |tables(s.table)| ==> |tables(s.table)[i]| == |s.schema|
    case JoinNode(kind, l, r, keys, _) => PlanFits(l, tables) && PlanFits(r, tables) && KeysFit(keys, Width(l), Width(r))
    case Filter(input, _) => PlanFits(input, tables)
  }

  predicate AllWide(rows: seq<Row>, w: nat) {
    forall i :: 0 <= i < |rows| ==> |rows[i]| == w
  }

  lemma MergeWide(node: Shape, p: Pair<Row, Row>)
    requires KeysFit(node.keys, node.lw, node.rw)
    requires p.OnlyRight? || |p.a| == node.lw
    requires p.OnlyLeft? || |p.b| == node.rw
    ensures |Merge(node.keys, node.lw, node.rw, p)| == node.lw + KeptBefore(node.keys, node.rw)
  {
  }

  /** Every row of a plan is as wide as its output schema. */
  lemma {:induction false} RowsAreWide(plan: Plan, tables: Tables)
    requires PlanFits(plan, tables) && RowsOf(plan, tables).Some?
    ensures AllWide(RowsOf(plan, tables).value, Width(plan))
  {
    hide Merge, Join;
    match plan
    case Scan(s) =>
    case JoinNode(kind, l, r, keys, on) =>
      RowsAreWide(l, tables);
      RowsAreWide(r, tables);
      NodeFits(plan);
      JoinedWide(kind, ShapeOf(plan), RowsOf(l, tables).value, RowsOf(r, tables).value);
    case Filter(input, pred) =>
      RowsAreWide(input, tables);
      FilteredWide(RowsOf(input, tables).value, Keeps(pred), Width(input));
  }

  lemma NodeFits(plan: Plan)
    requires plan.JoinNode? && KeysFit(plan.keys, Width(plan.left), Width(plan.right))
    ensures var node := ShapeOf(plan);
      && KeysFit(node.keys, node.lw, node.rw) && node.lw == Width(plan.left) && node.rw == Width(plan.right)
      && Width(plan) == node.lw + KeptBefore(node.keys, node.rw)
  {
    NoKeys([], Nulls(Width(plan.right)), Width(plan.right));
  }

  lemma JoinedWide(kind: Kind, node: Shape, ls: seq<Row>, rs: seq<Row>)
    requires ShapeFits(node, ls, rs) && Joined(kind, node, ls, rs).Some?
    ensures AllWide(Joined(kind, node, ls, rs).value, node.lw + KeptBefore(node.keys, node.rw))
  {
    hide Merge, Join, KeysFit, AnyRaises;
    JoinFrom(kind, ls, rs, Holds(node));
    var pairs := Join(kind, ls, rs, Holds(node));
    forall i | 0 <= i < |pairs|
      ensures |Merge(node.keys, node.lw, node.rw, pairs[i])| == node.lw + KeptBefore(node.keys, node.rw)
    {
      assert From(ls, rs, pairs[i]);
      MergeWide(node, pairs[i]);
    }
  }

  lemma {:induction false} FilteredWide(rows: seq<Row>, keep: Row -> bool, w: nat)
    requires AllWide(rows, w)
    ensures AllWide(Filtered(rows, keep), w)
  {
    if rows != [] {
      FilteredWide(rows[..|rows| - 1], keep, w);
    }
  }

  // ---- evaluation -----------------------------------------------------------

  method EvalPlan(plan: Plan, tables: Tables) returns (rows: Option<seq<Row>>)
    requires PlanFits(plan, tables)
    ensures rows == RowsOf(plan, tables)
  {
    match plan
    case Scan(s) => rows := Some(tables(s.table));
    case JoinNode(kind, l, r, keys, on) =>
      var ls := EvalPlan(l, tables);
      var rs := EvalPlan(r, tables);
      if ls.None? || rs.None? {
        return None;
      }
      RowsAreWide(l, tables);
      RowsAreWide(r, tables);
      rows := EvalJoin(plan, ls.value, rs.value);
    case Filter(input, pred) =>
      rows := EvalPlan(input, tables);
      if rows.Some? {
        rows := EvalFilter(pred, rows.value);
      }
  }

  method EvalJoin(plan: Plan, ls: seq<Row>, rs: seq<Row>) returns (rows: Option<seq<Row>>)
    requires plan.JoinNode? && KeysFit(plan.keys, Width(plan.left), Width(plan.right))
    requires AllWide(ls, Width(plan.left)) && AllWide(rs, Width(plan.right))
    ensures rows == Joined(plan.kind, ShapeOf(plan), ls, rs)
  {
    hide Merge, Join, KeysFit, AnyRaises;
    NodeFits(plan);
    assert ShapeFits(ShapeOf(plan), ls, rs);
    if plan.kind == CROSS {
      var out := NestedLoopCross(ls, rs, Width(plan.left), Width(plan.right));
      return Some(out);
    }
    var lmap := BuildOffsets(SourcesOf(plan.left));
    var rmap := BuildOffsets(SourcesOf(plan.right));
    var node := Shape(plan.keys, Width(plan.left), Width(plan.right), Matches(plan.keys, plan.on, lmap, rmap));
    match plan.kind
    case INNER => rows := NestedLoopInner(node, ls, rs);
    case LEFT => rows := NestedLoopLeft(node, ls, rs);
    case RIGHT => rows := NestedLoopRight(node, ls, rs);
    case FULL => rows := NestedLoopFull(node, ls, rs);
  }

  method EvalFilter(pred: Expr<WherePos>, rows: seq<Row>) returns (out: Option<seq<Row>>)
    ensures out.None? <==> exists i :: 0 <= i < |rows| && Eval(pred, WhereVerdict(rows[i])) == Raises
    ensures out.Some? ==> out.value == Filtered(rows, Keeps(pred))
  {
    var kept: seq<Row> := [];
    assert rows[..0] == [];
    for i := 0 to |rows|
      invariant kept == Filtered(rows[..i], Keeps(pred))
      invariant forall j :: 0 <= j < i ==> Eval(pred, WhereVerdict(rows[j])) != Raises
    {
      assert rows[..i + 1][..i] == rows[..i];
      var verdict := Eval(pred, WhereVerdict(rows[i]));
      if verdict == Raises {
        return None;
      }
      if verdict == Yes {
        kept := kept + [rows[i]];
      }
    }
    assert rows[..|rows|] == rows;
    return Some(kept);
  }
}
