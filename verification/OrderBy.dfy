/** ORDER BY: successive stable passes over the reversed key list, as the join executor sorts
    (src/tinydb/_join_executor.py), against one stable sort by a comparator, as the scan path
    does (src/tinydb/_executor_sort.py). */
module OrderBy {
  import opened Wrappers
  import opened JoinRows
  import opened JoinQueries

  datatype SortKey = SortKey(pos: nat, descending: bool)

  type Comparator = (Row, Row) -> int

  // ---- orders ---------------------------------------------------------------

  /** Negative, zero or positive. NULL comes last; values of different types cannot meet in a
      column and get an arbitrary order. */
  function CompareValue(a: Value, b: Value): int {
    match (a, b)
    case (Null, Null) => 0
    case (Null, _) => 1
    case (_, Null) => -1
    case (Int(x), Int(y)) => if x < y then -1 else if x > y then 1 else 0
    case (Text(x), Text(y)) => if TextLess(x, y) then -1 else if TextLess(y, x) then 1 else 0
    case (Int(_), Text(_)) => -1
    case (Text(_), Int(_)) => 1
  }

  lemma ValuesTransitive(x: Value, y: Value, z: Value)
    requires CompareValue(x, y) <= 0 && CompareValue(y, z) <= 0
    ensures CompareValue(x, z) <= 0
    ensures CompareValue(x, y) < 0 || CompareValue(y, z) < 0 ==> CompareValue(x, z) < 0
  {
    if x.Text? && y.Text? && z.Text? {
      TextTotal(x.s, y.s);
      TextTotal(y.s, z.s);
      if TextLess(x.s, y.s) && TextLess(y.s, z.s) {
        TextTransitive(x.s, y.s, z.s);
      }
    }
  }

  function ValueAt(row: Row, pos: nat): Value {
    if pos < |row| then row[pos] else Null
  }

  function Compare1(k: SortKey, a: Row, b: Row): int {
    var x := CompareValue(ValueAt(a, k.pos), ValueAt(b, k.pos));
    if k.descending then -x else x
  }

  /** One key decides, unless it is equal; then the next. */
  function CompareAll(keys: seq<SortKey>, a: Row, b: Row): int {
    if keys == [] then 0 else
      var x := Compare1(keys[0], a, b);
      if x != 0 then x else CompareAll(keys[1..], a, b)
  }

  function ByKey(k: SortKey): Comparator {
    (a, b) => Compare1(k, a, b)
  }

  function ByKeys(keys: seq<SortKey>): Comparator {
    (a, b) => CompareAll(keys, a, b)
  }

  ghost predicate Transitive(c: Comparator) {
    forall x, y, z :: c(x, y) <= 0 && c(y, z) <= 0 ==> c(x, z) <= 0 && (c(x, y) < 0 || c(y, z) < 0 ==> c(x, z) < 0)
  }

  ghost predicate TwoSided(c: Comparator) {
    forall a, b :: c(a, b) < 0 <==> c(b, a) > 0
  }

  lemma KeyIsTwoSided(k: SortKey)
    ensures TwoSided(ByKey(k))
  {
    forall a: Row, b: Row ensures Compare1(k, a, b) < 0 <==> Compare1(k, b, a) > 0 {
      var x, y := ValueAt(a, k.pos), ValueAt(b, k.pos);
      if x.Text? && y.Text? {
        TextOneWay(x.s, y.s);
      }
    }
  }

  lemma {:induction false} KeysAreTwoSided(keys: seq<SortKey>)
    ensures TwoSided(ByKeys(keys))
  {
    if keys != [] {
      KeyIsTwoSided(keys[0]);
      KeysAreTwoSided(keys[1..]);
      forall a: Row, b: Row ensures ByKeys(keys)(a, b) < 0 <==> ByKeys(keys)(b, a) > 0 {
        assert ByKey(keys[0])(a, b) < 0 <==> ByKey(keys[0])(b, a) > 0;
        assert ByKey(keys[0])(b, a) < 0 <==> ByKey(keys[0])(a, b) > 0;
        assert ByKeys(keys[1..])(a, b) < 0 <==> ByKeys(keys[1..])(b, a) > 0;
      }
    }
  }

  lemma OneKeyTransitive(k: SortKey, x: Row, y: Row, z: Row)
    requires Compare1(k, x, y) <= 0 && Compare1(k, y, z) <= 0
    ensures Compare1(k, x, z) <= 0 && (Compare1(k, x, y) < 0 || Compare1(k, y, z) < 0 ==> Compare1(k, x, z) < 0)
  {
    hide CompareValue;
    var a, b, c := ValueAt(x, k.pos), ValueAt(y, k.pos), ValueAt(z, k.pos);
    if k.descending {
      ValueIsTwoSided(a, b);
      ValueIsTwoSided(b, c);
      ValueIsTwoSided(a, c);
      ValuesTransitive(c, b, a);
    } else {
      ValuesTransitive(a, b, c);
    }
  }

  lemma ValueIsTwoSided(x: Value, y: Value)
    ensures CompareValue(x, y) == -CompareValue(y, x)
  {
    if x.Text? && y.Text? {
      TextOneWay(x.s, y.s);
    }
  }

  lemma {:induction false} KeysTransitive(keys: seq<SortKey>, x: Row, y: Row, z: Row)
    requires CompareAll(keys, x, y) <= 0 && CompareAll(keys, y, z) <= 0
    ensures CompareAll(keys, x, z) <= 0
    ensures CompareAll(keys, x, y) < 0 || CompareAll(keys, y, z) < 0 ==> CompareAll(keys, x, z) < 0
  {
    hide Compare1;
    if keys != [] {
      OneKeyTransitive(keys[0], x, y, z);
      if Compare1(keys[0], x, y) == 0 && Compare1(keys[0], y, z) == 0 {
        EqualIsTransitive(keys[0], x, y, z);
        KeysTransitive(keys[1..], x, y, z);
      }
    }
  }

  lemma EqualIsTransitive(k: SortKey, x: Row, y: Row, z: Row)
    requires Compare1(k, x, y) == 0 && Compare1(k, y, z) == 0
    ensures Compare1(k, x, z) == 0
  {
    hide CompareValue;
    var a, b, c := ValueAt(x, k.pos), ValueAt(y, k.pos), ValueAt(z, k.pos);
    ValueIsTwoSided(a, b);
    ValueIsTwoSided(b, c);
    ValueIsTwoSided(a, c);
    ValuesTransitive(a, b, c);
    ValuesTransitive(c, b, a);
  }

  lemma Orders(k: SortKey, keys: seq<SortKey>)
    ensures TwoSided(ByKey(k)) && Transitive(ByKey(k)) && TwoSided(ByKeys(keys)) && Transitive(ByKeys(keys))
  {
    hide Compare1, CompareAll;
    KeyIsTwoSided(k);
    KeysAreTwoSided(keys);
    forall x: Row, y: Row, z: Row | Compare1(k, x, y) <= 0 && Compare1(k, y, z) <= 0
      ensures Compare1(k, x, z) <= 0 && (Compare1(k, x, y) < 0 || Compare1(k, y, z) < 0 ==> Compare1(k, x, z) < 0)
    {
      OneKeyTransitive(k, x, y, z);
    }
    forall x: Row, y: Row, z: Row | CompareAll(keys, x, y) <= 0 && CompareAll(keys, y, z) <= 0
      ensures CompareAll(keys, x, z) <= 0 && (CompareAll(keys, x, y) < 0 || CompareAll(keys, y, z) < 0 ==> CompareAll(keys, x, z) < 0)
    {
      KeysTransitive(keys, x, y, z);
    }
  }

  // ---- stable sorts ---------------------------------------------------------

  predicate Permutes(p: seq<nat>, n: nat) {
    && |p| == n
    && (forall i :: 0 <= i < n ==> p[i] < n)
    && (forall i, j :: 0 <= i < j < n ==> p[i] != p[j])
    && (forall x :: 0 <= x < n ==> x in p)
  }

  /** `out` is `rows` in the order `p`: by `c`, and by position where `c` does not decide. */
  ghost predicate StablySorted(rows: seq<Row>, out: seq<Row>, c: Comparator, p: seq<nat>) {
    && Permutes(p, |rows|) && |out| == |rows|
    && (forall i :: 0 <= i < |rows| ==> out[i] == rows[p[i]])
    && forall i, j :: 0 <= i < j < |rows| ==> InOrder(rows, c, p[i], p[j])
  }

  /** `out` is the result of a stable sort of `rows` by `c`. */
  ghost predicate IsStableSort(rows: seq<Row>, out: seq<Row>, c: Comparator) {
    exists p :: StablySorted(rows, out, c, p)
  }

  predicate InOrder(rows: seq<Row>, c: Comparator, x: nat, y: nat)
    requires x < |rows| && y < |rows|
  {
    c(rows[x], rows[y]) < 0 || (c(rows[x], rows[y]) == 0 && x < y)
  }

  /** There is only one way to sort stably. */
  lemma StableSortIsUnique(rows: seq<Row>, c: Comparator, a: seq<Row>, b: seq<Row>)
    requires TwoSided(c) && IsStableSort(rows, a, c) && IsStableSort(rows, b, c)
    ensures a == b
  {
    var p :| StablySorted(rows, a, c, p);
    var q :| StablySorted(rows, b, c, q);
    SameOrder(rows, c, a, p, b, q, |rows|);
  }

  lemma {:induction false} SameOrder(rows: seq<Row>, c: Comparator, a: seq<Row>, p: seq<nat>, b: seq<Row>, q: seq<nat>, n: nat)
    requires TwoSided(c) && StablySorted(rows, a, c, p) && StablySorted(rows, b, c, q) && n <= |rows|
    ensures forall i :: 0 <= i < n ==> p[i] == q[i]
  {
    if n > 0 {
      var k := n - 1;
      SameOrder(rows, c, a, p, b, q, k);
      Later(rows, c, b, p, q, k);
      Later(rows, c, a, q, p, k);
      BothWays(rows, c, p[k], q[k]);
    }
  }

  /** What `p` has at `k`, `q` has there or later, if they agree before. */
  lemma Later(rows: seq<Row>, c: Comparator, b: seq<Row>, p: seq<nat>, q: seq<nat>, k: nat)
    requires Permutes(p, |rows|) && StablySorted(rows, b, c, q) && k < |rows| && forall j :: 0 <= j < k ==> p[j] == q[j]
    ensures p[k] == q[k] || InOrder(rows, c, q[k], p[k])
  {
    assert p[k] in q;
    var i :| 0 <= i < |q| && q[i] == p[k];
    assert i >= k;
  }

  lemma BothWays(rows: seq<Row>, c: Comparator, x: nat, y: nat)
    requires TwoSided(c) && x < |rows| && y < |rows|
    ensures !(InOrder(rows, c, x, y) && InOrder(rows, c, y, x))
  {
    assert c(rows[x], rows[y]) < 0 <==> c(rows[y], rows[x]) > 0;
    assert c(rows[y], rows[x]) < 0 <==> c(rows[x], rows[y]) > 0;
  }

  function Compose(p: seq<nat>, q: seq<nat>): (r: seq<nat>)
    requires forall i :: 0 <= i < |q| ==> q[i] < |p|
    ensures |r| == |q| && forall i :: 0 <= i < |q| ==> r[i] == p[q[i]]
  {
    seq(|q|, i requires 0 <= i < |q| => p[q[i]])
  }

  lemma ComposePermutes(p: seq<nat>, q: seq<nat>, n: nat)
    requires Permutes(p, n) && Permutes(q, n)
    ensures Permutes(Compose(p, q), n)
  {
    var r := Compose(p, q);
    forall x | 0 <= x < n ensures x in r {
      assert x in p;
      var y :| 0 <= y < n && p[y] == x;
      assert y in q;
      var z :| 0 <= z < n && q[z] == y;
      assert r[z] == x;
    }
    forall i, j | 0 <= i < j < n ensures r[i] != r[j] {
      assert q[i] != q[j];
    }
  }

  /** Sorting what is sorted by the later keys, by one more key in front, sorts by all of them. */
  lemma OneMorePass(rows: seq<Row>, mid: seq<Row>, out: seq<Row>, keys: seq<SortKey>, p: seq<nat>, q: seq<nat>)
    requires keys != []
    requires StablySorted(rows, mid, ByKeys(keys[1..]), p) && StablySorted(mid, out, ByKey(keys[0]), q)
    ensures StablySorted(rows, out, ByKeys(keys), Compose(p, q))
  {
    ComposePermutes(p, q, |rows|);
    var r := Compose(p, q);
    forall i, j | 0 <= i < j < |rows| ensures InOrder(rows, ByKeys(keys), r[i], r[j]) {
      assert InOrder(mid, ByKey(keys[0]), q[i], q[j]);
      assert mid[q[i]] == rows[r[i]] && mid[q[j]] == rows[r[j]];
      if Compare1(keys[0], mid[q[i]], mid[q[j]]) == 0 {
        assert InOrder(rows, ByKeys(keys[1..]), p[q[i]], p[q[j]]);
      }
    }
  }

  function Identity(n: nat): (p: seq<nat>)
    ensures Permutes(p, n) && forall i :: 0 <= i < n ==> p[i] == i
  {
    var p := seq(n, i requires 0 <= i < n => i);
    assert Permutes(p, n) by {
      forall x | 0 <= x < n ensures x in p {
        assert p[x] == x;
      }
    }
    p
  }

  lemma NoPass(rows: seq<Row>)
    ensures StablySorted(rows, rows, ByKeys([]), Identity(|rows|))
  {
    var p := Identity(|rows|);
    forall i, j | 0 <= i < j < |rows| ensures InOrder(rows, ByKeys([]), p[i], p[j]) {
      assert CompareAll([], rows[i], rows[j]) == 0;
    }
  }

  // ---- a stable sort --------------------------------------------------------

  /** Sorted by `c`, equal rows by position. */
  ghost predicate Ordered(rows: seq<Row>, c: Comparator, p: seq<nat>) {
    && (forall i :: 0 <= i < |p| ==> p[i] < |rows|)
    && forall i, j :: 0 <= i < j < |p| ==> InOrder(rows, c, p[i], p[j])
  }

  /** The comparator is an order as far as these rows go. */
  ghost predicate OrdersRows(rows: seq<Row>, c: Comparator) {
    && (forall i, j :: 0 <= i < |rows| && 0 <= j < |rows| ==> (c(rows[i], rows[j]) < 0 <==> c(rows[j], rows[i]) > 0))
    && forall i, j, k :: 0 <= i < |rows| && 0 <= j < |rows| && 0 <= k < |rows| && c(rows[i], rows[j]) <= 0 && c(rows[j], rows[k]) <= 0 ==>
         c(rows[i], rows[k]) <= 0 && (c(rows[i], rows[j]) < 0 || c(rows[j], rows[k]) < 0 ==> c(rows[i], rows[k]) < 0)
  }

  /** Python's sort, here by insertion: any stable sort does the same. */
  method StableSort(rows: seq<Row>, c: Comparator) returns (out: seq<Row>)
    requires OrdersRows(rows, c)
    ensures IsStableSort(rows, out, c)
  {
    var order: seq<nat> := [];
    for n := 0 to |rows|
      invariant Permutes(order, n) && Ordered(rows, c, order)
    {
      order := Insert(rows, c, order, n);
    }
    out := Reordered(rows, order);
    assert StablySorted(rows, out, c, order);
  }

  function Reordered(rows: seq<Row>, p: seq<nat>): (out: seq<Row>)
    requires forall i :: 0 <= i < |p| ==> p[i] < |rows|
    ensures |out| == |p| && forall i :: 0 <= i < |p| ==> out[i] == rows[p[i]]
  {
    seq(|p|, i requires 0 <= i < |p| => rows[p[i]])
  }

  /** Put row `n` behind the last row that is not greater. */
  method Insert(rows: seq<Row>, c: Comparator, order: seq<nat>, n: nat) returns (after: seq<nat>)
    requires OrdersRows(rows, c) && n < |rows| && Permutes(order, n) && Ordered(rows, c, order)
    ensures Permutes(after, n + 1) && Ordered(rows, c, after)
  {
    var i := n;
    while i > 0 && c(rows[order[i - 1]], rows[n]) > 0
      invariant 0 <= i <= n && forall j :: i <= j < n ==> c(rows[order[j]], rows[n]) > 0
    {
      i := i - 1;
    }
    after := order[..i] + [n] + order[i..];
    InsertPermutes(order, n, i);
    InsertOrders(rows, c, order, n, i);
  }

  lemma InsertPermutes(order: seq<nat>, n: nat, i: nat)
    requires Permutes(order, n) && i <= n
    ensures Permutes(order[..i] + [n] + order[i..], n + 1)
  {
    var after := order[..i] + [n] + order[i..];
    forall x | 0 <= x < n + 1 ensures x in after {
      if x < n {
        assert x in order;
        assert order == order[..i] + order[i..];
      }
    }
  }

  lemma InsertOrders(rows: seq<Row>, c: Comparator, order: seq<nat>, n: nat, i: nat)
    requires OrdersRows(rows, c) && n < |rows| && Permutes(order, n) && Ordered(rows, c, order) && i <= n
    requires forall j :: i <= j < n ==> c(rows[order[j]], rows[n]) > 0
    requires i > 0 ==> c(rows[order[i - 1]], rows[n]) <= 0
    ensures Ordered(rows, c, order[..i] + [n] + order[i..])
  {
    hide OrdersRows, InOrder;
    var after := order[..i] + [n] + order[i..];
    forall x, y | 0 <= x < y < n + 1 ensures InOrder(rows, c, after[x], after[y]) {
      if y == i {
        BehindEarlier(rows, c, order, n, i, x);
      } else if x == i {
        BeforeLater(rows, c, order, n, i, y - 1);
      }
    }
  }

  lemma BeforeLater(rows: seq<Row>, c: Comparator, order: seq<nat>, n: nat, i: nat, j: nat)
    requires OrdersRows(rows, c) && n < |rows| && Permutes(order, n) && i <= j < n && c(rows[order[j]], rows[n]) > 0
    ensures InOrder(rows, c, n, order[j])
  {
    assert c(rows[n], rows[order[j]]) < 0 <==> c(rows[order[j]], rows[n]) > 0;
  }

  lemma BehindEarlier(rows: seq<Row>, c: Comparator, order: seq<nat>, n: nat, i: nat, j: nat)
    requires OrdersRows(rows, c) && n < |rows| && Permutes(order, n) && Ordered(rows, c, order) && j < i <= n
    requires c(rows[order[i - 1]], rows[n]) <= 0
    ensures InOrder(rows, c, order[j], n)
  {
    if j < i - 1 {
      assert InOrder(rows, c, order[j], order[i - 1]);
    }
  }

  // ---- the order that is asked for ------------------------------------------

  /** Ascending: smaller integers and texts first, NULL last. Integers and texts do not meet in a
      column. */
  ghost predicate Before(x: Value, y: Value) {
    (x != Null && y == Null) || Smaller(x, y) || (x.Int? && y.Text?)
  }

  /** Key `k` is the first in which the rows differ. */
  predicate DifferFirst(keys: seq<SortKey>, a: Row, b: Row, k: nat) {
    && k < |keys| && ValueAt(a, keys[k].pos) != ValueAt(b, keys[k].pos)
    && forall m :: 0 <= m < k ==> ValueAt(a, keys[m].pos) == ValueAt(b, keys[m].pos)
  }

  predicate SameInAll(keys: seq<SortKey>, a: Row, b: Row) {
    forall m :: 0 <= m < |keys| ==> ValueAt(a, keys[m].pos) == ValueAt(b, keys[m].pos)
  }

  /** In the first key in which they differ, `a` comes first, the other way round if descending. */
  ghost predicate GoesBefore(keys: seq<SortKey>, a: Row, b: Row) {
    exists k: nat :: DifferFirst(keys, a, b, k) && InKeyOrder(keys[k], a, b)
  }

  ghost predicate InKeyOrder(k: SortKey, a: Row, b: Row) {
    var x, y := ValueAt(a, k.pos), ValueAt(b, k.pos);
    if k.descending then Before(y, x) else Before(x, y)
  }

  /** `out` is `rows` in the order `p`: as the keys ask, and rows equal in all keys as they came. */
  ghost predicate AsAskedBy(rows: seq<Row>, out: seq<Row>, keys: seq<SortKey>, p: seq<nat>) {
    && Permutes(p, |rows|) && |out| == |rows|
    && (forall i :: 0 <= i < |rows| ==> out[i] == rows[p[i]])
    && forall i, j :: 0 <= i < j < |rows| ==> GoesBefore(keys, out[i], out[j]) || (SameInAll(keys, out[i], out[j]) && p[i] < p[j])
  }

  ghost predicate AsAsked(rows: seq<Row>, out: seq<Row>, keys: seq<SortKey>) {
    exists p :: AsAskedBy(rows, out, keys, p)
  }

  lemma BeforeIsLess(x: Value, y: Value)
    ensures CompareValue(x, y) < 0 <==> Before(x, y)
    ensures CompareValue(x, y) > 0 <==> Before(y, x)
    ensures CompareValue(x, y) == 0 <==> x == y
  {
    hide Smaller;
    if SameType(x, y) {
      SmallerIsOrder(x, y);
      SmallerIsOrder(y, x);
    } else {
      assert !Smaller(x, y) && !Smaller(y, x) by { NotSmaller(x, y); NotSmaller(y, x); }
    }
  }

  lemma NotSmaller(x: Value, y: Value)
    requires !SameType(x, y)
    ensures !Smaller(x, y)
  {
  }

  lemma KeyDecides(k: SortKey, a: Row, b: Row)
    ensures Compare1(k, a, b) < 0 <==> InKeyOrder(k, a, b)
    ensures Compare1(k, a, b) == 0 <==> ValueAt(a, k.pos) == ValueAt(b, k.pos)
  {
    hide CompareValue, Before;
    BeforeIsLess(ValueAt(a, k.pos), ValueAt(b, k.pos));
  }

  lemma {:induction false} FirstKeyDecides(keys: seq<SortKey>, a: Row, b: Row)
    ensures CompareAll(keys, a, b) < 0 <==> GoesBefore(keys, a, b)
    ensures CompareAll(keys, a, b) == 0 <==> SameInAll(keys, a, b)
  {
    hide Compare1, InKeyOrder;
    if keys != [] {
      var rest := keys[1..];
      KeyDecides(keys[0], a, b);
      FirstKeyDecides(rest, a, b);
      if Compare1(keys[0], a, b) != 0 {
        assert DifferFirst(keys, a, b, 0);
      } else {
        RestDecides(keys, a, b);
      }
    }
  }

  lemma RestDecides(keys: seq<SortKey>, a: Row, b: Row)
    requires keys != [] && ValueAt(a, keys[0].pos) == ValueAt(b, keys[0].pos)
    ensures GoesBefore(keys, a, b) <==> GoesBefore(keys[1..], a, b)
    ensures SameInAll(keys, a, b) <==> SameInAll(keys[1..], a, b)
  {
    hide InKeyOrder, ValueAt;
    var rest := keys[1..];
    if k: nat :| DifferFirst(keys, a, b, k) && InKeyOrder(keys[k], a, b) {
      assert k > 0 && DifferFirst(rest, a, b, k - 1) && rest[k - 1] == keys[k];
    }
    if k: nat :| DifferFirst(rest, a, b, k) && InKeyOrder(rest[k], a, b) {
      assert DifferFirst(keys, a, b, k + 1) by { NotBefore(keys, a, b, k); }
      assert keys[k + 1] == rest[k];
    }
    if SameInAll(rest, a, b) {
      forall m | 0 <= m < |keys| ensures ValueAt(a, keys[m].pos) == ValueAt(b, keys[m].pos) {
        assert m > 0 ==> rest[m - 1] == keys[m];
      }
    }
  }

  lemma NotBefore(keys: seq<SortKey>, a: Row, b: Row, k: nat)
    requires keys != [] && ValueAt(a, keys[0].pos) == ValueAt(b, keys[0].pos) && DifferFirst(keys[1..], a, b, k)
    ensures DifferFirst(keys, a, b, k + 1)
  {
    hide ValueAt;
    var rest := keys[1..];
    forall m | 0 <= m < k + 1 ensures ValueAt(a, keys[m].pos) == ValueAt(b, keys[m].pos) {
      assert m > 0 ==> rest[m - 1] == keys[m];
    }
  }

  /** A stable sort by the keys is the order asked for. */
  lemma SortIsAsAsked(rows: seq<Row>, out: seq<Row>, keys: seq<SortKey>)
    ensures IsStableSort(rows, out, ByKeys(keys)) <==> AsAsked(rows, out, keys)
  {
    hide CompareAll, GoesBefore, SameInAll;
    forall a: Row, b: Row
      ensures ByKeys(keys)(a, b) < 0 <==> GoesBefore(keys, a, b)
      ensures ByKeys(keys)(a, b) == 0 <==> SameInAll(keys, a, b)
    {
      FirstKeyDecides(keys, a, b);
    }
    if p :| StablySorted(rows, out, ByKeys(keys), p) {
      forall i, j | 0 <= i < j < |rows| ensures GoesBefore(keys, out[i], out[j]) || (SameInAll(keys, out[i], out[j]) && p[i] < p[j]) {
        assert InOrder(rows, ByKeys(keys), p[i], p[j]);
      }
      assert AsAskedBy(rows, out, keys, p);
    }
    if p :| AsAskedBy(rows, out, keys, p) {
      assert StablySorted(rows, out, ByKeys(keys), p);
    }
  }

  // ---- the two ways to sort -------------------------------------------------

  /** `_eval_sort`: one stable pass per key, the last key first. */
  method SortByPasses(rows: seq<Row>, keys: seq<SortKey>) returns (out: seq<Row>)
    ensures IsStableSort(rows, out, ByKeys(keys)) && AsAsked(rows, out, keys)
  {
    hide StablySorted, TwoSided, Transitive, AsAsked;
    out := rows;
    ghost var p := Identity(|rows|);
    NoPass(rows);
    var n := |keys|;
    assert keys[n..] == [];
    while n > 0
      invariant n <= |keys| && StablySorted(rows, out, ByKeys(keys[n..]), p)
    {
      n := n - 1;
      Orders(keys[n], []);
      OrdersAll(out, ByKey(keys[n]));
      var sorted := StableSort(out, ByKey(keys[n]));
      ghost var q :| StablySorted(out, sorted, ByKey(keys[n]), q);
      assert keys[n..][1..] == keys[n + 1..] && keys[n..][0] == keys[n];
      OneMorePass(rows, out, sorted, keys[n..], p, q);
      SameLength(rows, out, ByKeys(keys[n + 1..]), p, sorted, ByKey(keys[n]), q);
      out, p := sorted, Compose(p, q);
    }
    assert keys[0..] == keys;
    SortIsAsAsked(rows, out, keys);
  }

  lemma SameLength(rows: seq<Row>, mid: seq<Row>, c: Comparator, p: seq<nat>, out: seq<Row>, d: Comparator, q: seq<nat>)
    requires StablySorted(rows, mid, c, p) && StablySorted(mid, out, d, q)
    ensures forall i :: 0 <= i < |q| ==> q[i] < |p|
  {
  }

  /** The comparator of the scan path: the first key that differs decides; `None` is the error
      that a NULL in a sort column is. */
  function ScanCompare(keys: seq<SortKey>, a: Row, b: Row): Option<int> {
    if keys == [] then Some(0) else
      var k := keys[0];
      var x, y := ValueAt(a, k.pos), ValueAt(b, k.pos);
      if x == Null || y == Null then None
      else if ValueLess(x, y) then Some(if k.descending then 1 else -1)
      else if ValueLess(y, x) then Some(if k.descending then -1 else 1)
      else ScanCompare(keys[1..], a, b)
  }

  function ValueLess(x: Value, y: Value): bool {
    match (x, y)
    case (Int(i), Int(j)) => i < j
    case (Text(s), Text(u)) => TextLess(s, u)
    case _ => false
  }

  /** Every sort column has values of one type, none of them NULL. */
  ghost predicate Sortable(keys: seq<SortKey>, rows: seq<Row>) {
    forall n, i, j :: 0 <= n < |keys| && 0 <= i < |rows| && 0 <= j < |rows| ==>
      SameType(ValueAt(rows[i], keys[n].pos), ValueAt(rows[j], keys[n].pos))
  }

  /** On such rows the scan path's comparator is the order of the passes. */
  lemma {:induction false} ScanCompareIsLexicographic(keys: seq<SortKey>, a: Row, b: Row)
    requires forall n :: 0 <= n < |keys| ==> SameType(ValueAt(a, keys[n].pos), ValueAt(b, keys[n].pos))
    ensures ScanCompare(keys, a, b) == Some(CompareAll(keys, a, b))
  {
    if keys != [] {
      assert SameType(ValueAt(a, keys[0].pos), ValueAt(b, keys[0].pos));
      var rest := keys[1..];
      forall n | 0 <= n < |rest| ensures SameType(ValueAt(a, rest[n].pos), ValueAt(b, rest[n].pos)) {
        assert rest[n] == keys[n + 1];
      }
      ScanCompareIsLexicographic(rest, a, b);
    }
  }

  lemma OrdersAll(rows: seq<Row>, c: Comparator)
    requires TwoSided(c) && Transitive(c)
    ensures OrdersRows(rows, c)
  {
  }

  /** The scan path's comparator is an order on rows where it never raises. */
  lemma ScanOrdersRows(rows: seq<Row>, keys: seq<SortKey>)
    requires Sortable(keys, rows)
    ensures OrdersRows(rows, ScanOrder(keys))
  {
    hide ScanCompare, CompareAll, TwoSided, Transitive;
    Orders(SortKey(0, false), keys);
    OrdersAll(rows, ByKeys(keys));
    forall i, j | 0 <= i < |rows| && 0 <= j < |rows| ensures ScanOrder(keys)(rows[i], rows[j]) == ByKeys(keys)(rows[i], rows[j]) {
      forall n | 0 <= n < |keys| ensures SameType(ValueAt(rows[i], keys[n].pos), ValueAt(rows[j], keys[n].pos)) {
      }
      ScanCompareIsLexicographic(keys, rows[i], rows[j]);
    }
  }

  /** `stable_sort` of the scan path: one sort by its comparator. */
  method SortByComparator(rows: seq<Row>, keys: seq<SortKey>) returns (out: seq<Row>)
    requires Sortable(keys, rows)
    ensures IsStableSort(rows, out, ScanOrder(keys)) && AsAsked(rows, out, keys)
  {
    hide StablySorted, TwoSided, Transitive, AsAsked, Sortable;
    ScanOrdersRows(rows, keys);
    out := StableSort(rows, ScanOrder(keys));
    ghost var p :| StablySorted(rows, out, ScanOrder(keys), p);
    ScanOrderAgrees(rows, keys, out, p);
    SortIsAsAsked(rows, out, keys);
  }

  /** The comparator as `cmp_to_key` uses it, on rows where it does not raise. */
  function ScanOrder(keys: seq<SortKey>): Comparator {
    (a, b) => if ScanCompare(keys, a, b).Some? then ScanCompare(keys, a, b).value else 0
  }

  lemma ScanOrderAgrees(rows: seq<Row>, keys: seq<SortKey>, out: seq<Row>, p: seq<nat>)
    requires Sortable(keys, rows)
    ensures StablySorted(rows, out, ByKeys(keys), p) <==> StablySorted(rows, out, ScanOrder(keys), p)
  {
    hide ScanCompare, CompareAll;
    forall i, j | 0 <= i < |rows| && 0 <= j < |rows| ensures ScanOrder(keys)(rows[i], rows[j]) == ByKeys(keys)(rows[i], rows[j]) {
      forall n | 0 <= n < |keys| ensures SameType(ValueAt(rows[i], keys[n].pos), ValueAt(rows[j], keys[n].pos)) {
      }
      ScanCompareIsLexicographic(keys, rows[i], rows[j]);
    }
    if StablySorted(rows, out, ByKeys(keys), p) {
      forall i, j | 0 <= i < j < |rows| ensures InOrder(rows, ScanOrder(keys), p[i], p[j]) {
        assert InOrder(rows, ByKeys(keys), p[i], p[j]);
      }
    }
    if StablySorted(rows, out, ScanOrder(keys), p) {
      forall i, j | 0 <= i < j < |rows| ensures InOrder(rows, ByKeys(keys), p[i], p[j]) {
        assert InOrder(rows, ScanOrder(keys), p[i], p[j]);
      }
    }
  }

  /** Both ways of sorting give the same rows in the same order, for any mix of ASC and DESC:
      whatever stable sort is used. */
  lemma PassesAreOneSort(rows: seq<Row>, keys: seq<SortKey>, a: seq<Row>, b: seq<Row>)
    requires Sortable(keys, rows)
    requires IsStableSort(rows, a, ByKeys(keys)) && IsStableSort(rows, b, ScanOrder(keys))
    ensures a == b
  {
    hide StablySorted, Sortable, TwoSided, Transitive;
    Orders(SortKey(0, false), keys);
    var q :| StablySorted(rows, b, ScanOrder(keys), q);
    ScanOrderAgrees(rows, keys, b, q);
    StableSortIsUnique(rows, ByKeys(keys), a, b);
  }

  method SortBothWays(rows: seq<Row>, keys: seq<SortKey>) returns (joined: seq<Row>, scanned: seq<Row>)
    requires Sortable(keys, rows)
    ensures joined == scanned && IsStableSort(rows, joined, ByKeys(keys)) && AsAsked(rows, joined, keys)
  {
    joined := SortByPasses(rows, keys);
    scanned := SortByComparator(rows, keys);
    PassesAreOneSort(rows, keys, joined, scanned);
  }
}
