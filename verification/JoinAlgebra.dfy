/** What the five kinds of join produce, as sequences of matched and unmatched rows
    (src/tinydb/_join_executor.py), for any match predicate. */
module JoinAlgebra {

  datatype Kind = INNER | LEFT | RIGHT | FULL | CROSS

  /** A result row before padding. */
  datatype Pair<A, B> = Both(a: A, b: B) | OnlyLeft(a: A) | OnlyRight(b: B)

  function Hits<A, B>(a: A, rs: seq<B>, m: (A, B) -> bool): seq<Pair<A, B>> {
    if rs == [] then [] else
      var b := rs[|rs| - 1];
      Hits(a, rs[..|rs| - 1], m) + if m(a, b) then [Both(a, b)] else []
  }

  function HitsOfRight<A, B>(ls: seq<A>, b: B, m: (A, B) -> bool): seq<Pair<A, B>> {
    if ls == [] then [] else
      var a := ls[|ls| - 1];
      HitsOfRight(ls[..|ls| - 1], b, m) + if m(a, b) then [Both(a, b)] else []
  }

  function Inner<A, B>(ls: seq<A>, rs: seq<B>, m: (A, B) -> bool): seq<Pair<A, B>> {
    if ls == [] then [] else Inner(ls[..|ls| - 1], rs, m) + Hits(ls[|ls| - 1], rs, m)
  }

  function OrAlone<A, B>(hits: seq<Pair<A, B>>, alone: Pair<A, B>): seq<Pair<A, B>> {
    if hits == [] then [alone] else hits
  }

  /** Per left row, in order: its matches in right order, or the row alone. */
  function LeftJoin<A, B>(ls: seq<A>, rs: seq<B>, m: (A, B) -> bool): seq<Pair<A, B>> {
    if ls == [] then [] else
      var a := ls[|ls| - 1];
      LeftJoin(ls[..|ls| - 1], rs, m) + OrAlone(Hits(a, rs, m), OnlyLeft(a))
  }

  /** Per right row, in order: its matches in left order, or the row alone. */
  function RightJoin<A, B>(ls: seq<A>, rs: seq<B>, m: (A, B) -> bool): seq<Pair<A, B>> {
    if rs == [] then [] else
      var b := rs[|rs| - 1];
      RightJoin(ls, rs[..|rs| - 1], m) + OrAlone(HitsOfRight(ls, b, m), OnlyRight(b))
  }

  function UnmatchedRight<A, B>(ls: seq<A>, rs: seq<B>, m: (A, B) -> bool): seq<Pair<A, B>> {
    if rs == [] then [] else
      var b := rs[|rs| - 1];
      UnmatchedRight(ls, rs[..|rs| - 1], m) + if HitsOfRight(ls, b, m) == [] then [OnlyRight(b)] else []
  }

  function UnmatchedLeft<A, B>(ls: seq<A>, rs: seq<B>, m: (A, B) -> bool): seq<Pair<A, B>> {
    if ls == [] then [] else
      var a := ls[|ls| - 1];
      UnmatchedLeft(ls[..|ls| - 1], rs, m) + if Hits(a, rs, m) == [] then [OnlyLeft(a)] else []
  }

  function FullJoin<A, B>(ls: seq<A>, rs: seq<B>, m: (A, B) -> bool): seq<Pair<A, B>> {
    LeftJoin(ls, rs, m) + UnmatchedRight(ls, rs, m)
  }

  function Join<A, B>(kind: Kind, ls: seq<A>, rs: seq<B>, m: (A, B) -> bool): seq<Pair<A, B>> {
    match kind
    case INNER => Inner(ls, rs, m)
    case CROSS => Inner(ls, rs, (a, b) => true)
    case LEFT => LeftJoin(ls, rs, m)
    case RIGHT => RightJoin(ls, rs, m)
    case FULL => FullJoin(ls, rs, m)
  }

  // ---- which rows are matched ----------------------------------------------

  lemma {:induction false} HitsEmpty<A, B>(a: A, rs: seq<B>, m: (A, B) -> bool)
    ensures Hits(a, rs, m) == [] <==> forall i :: 0 <= i < |rs| ==> !m(a, rs[i])
  {
    if rs != [] {
      HitsEmpty(a, rs[..|rs| - 1], m);
    }
  }

  lemma {:induction false} HitsOfRightEmpty<A, B>(ls: seq<A>, b: B, m: (A, B) -> bool)
    ensures HitsOfRight(ls, b, m) == [] <==> forall i :: 0 <= i < |ls| ==> !m(ls[i], b)
  {
    if ls != [] {
      HitsOfRightEmpty(ls[..|ls| - 1], b, m);
    }
  }

  lemma {:induction false} HitsMember<A, B>(a: A, rs: seq<B>, m: (A, B) -> bool, p: Pair<A, B>)
    ensures p in Hits(a, rs, m) <==> p.Both? && p.a == a && p.b in rs && m(a, p.b)
  {
    if rs != [] {
      HitsMember(a, rs[..|rs| - 1], m, p);
      assert rs == rs[..|rs| - 1] + [rs[|rs| - 1]];
    }
  }

  predicate InLeftJoin<A(==), B(==)>(ls: seq<A>, rs: seq<B>, m: (A, B) -> bool, p: Pair<A, B>) {
    || (p.Both? && p.a in ls && p.b in rs && m(p.a, p.b))
    || (p.OnlyLeft? && p.a in ls && forall i :: 0 <= i < |rs| ==> !m(p.a, rs[i]))
  }

  lemma LastRow<A, B>(ls: seq<A>, rs: seq<B>, m: (A, B) -> bool, p: Pair<A, B>)
    requires ls != []
    ensures InLeftJoin(ls, rs, m, p) <==> InLeftJoin(ls[..|ls| - 1], rs, m, p) || InLeftJoin([ls[|ls| - 1]], rs, m, p)
  {
    assert ls == ls[..|ls| - 1] + [ls[|ls| - 1]];
  }

  lemma OneLeftMember<A, B>(a: A, rs: seq<B>, m: (A, B) -> bool, p: Pair<A, B>)
    ensures p in OrAlone(Hits(a, rs, m), OnlyLeft(a)) <==> InLeftJoin([a], rs, m, p)
  {
    assert a in [a];
    HitsMember(a, rs, m, p);
    HitsEmpty(a, rs, m);

  }

  /** Exactly the pairs that match and, alone, the left rows that match nothing. */
  lemma {:induction false} LeftJoinMember<A, B>(ls: seq<A>, rs: seq<B>, m: (A, B) -> bool, p: Pair<A, B>)
    ensures p in LeftJoin(ls, rs, m) <==> InLeftJoin(ls, rs, m, p)
  {
    if ls != [] {
      var a := ls[|ls| - 1];
      LeftJoinMember(ls[..|ls| - 1], rs, m, p);
      OneLeftMember(a, rs, m, p);
      LastRow(ls, rs, m, p);
      hide Hits, OrAlone, InLeftJoin;
    }
  }

  predicate InRightJoin<A(==), B(==)>(ls: seq<A>, rs: seq<B>, m: (A, B) -> bool, p: Pair<A, B>) {
    || (p.Both? && p.a in ls && p.b in rs && m(p.a, p.b))
    || (p.OnlyRight? && p.b in rs && forall i :: 0 <= i < |ls| ==> !m(ls[i], p.b))
  }

  lemma {:induction false} HitsOfRightMember<A, B>(ls: seq<A>, b: B, m: (A, B) -> bool, p: Pair<A, B>)
    ensures p in HitsOfRight(ls, b, m) <==> p.Both? && p.b == b && p.a in ls && m(p.a, b)
  {
    if ls != [] {
      HitsOfRightMember(ls[..|ls| - 1], b, m, p);
      assert ls == ls[..|ls| - 1] + [ls[|ls| - 1]];
    }
  }

  lemma LastRightRow<A, B>(ls: seq<A>, rs: seq<B>, m: (A, B) -> bool, p: Pair<A, B>)
    requires rs != []
    ensures InRightJoin(ls, rs, m, p) <==> InRightJoin(ls, rs[..|rs| - 1], m, p) || InRightJoin(ls, [rs[|rs| - 1]], m, p)
  {
    assert rs == rs[..|rs| - 1] + [rs[|rs| - 1]];
  }

  lemma OneRightMember<A, B>(ls: seq<A>, b: B, m: (A, B) -> bool, p: Pair<A, B>)
    ensures p in OrAlone(HitsOfRight(ls, b, m), OnlyRight(b)) <==> InRightJoin(ls, [b], m, p)
    ensures p in (if HitsOfRight(ls, b, m) == [] then [OnlyRight(b)] else []) <==> p.OnlyRight? && InRightJoin(ls, [b], m, p)
  {
    assert b in [b];
    HitsOfRightMember(ls, b, m, p);
    HitsOfRightEmpty(ls, b, m);
  }

  /** Exactly the pairs that match and, alone, the right rows that match nothing. */
  lemma {:induction false} RightJoinMember<A, B>(ls: seq<A>, rs: seq<B>, m: (A, B) -> bool, p: Pair<A, B>)
    ensures p in RightJoin(ls, rs, m) <==> InRightJoin(ls, rs, m, p)
    ensures p in UnmatchedRight(ls, rs, m) <==> p.OnlyRight? && InRightJoin(ls, rs, m, p)
  {
    if rs != [] {
      var b := rs[|rs| - 1];
      RightJoinMember(ls, rs[..|rs| - 1], m, p);
      OneRightMember(ls, b, m, p);
      LastRightRow(ls, rs, m, p);
      hide HitsOfRight, OrAlone, InRightJoin;
    }
  }

  lemma {:induction false} InnerMember<A, B>(ls: seq<A>, rs: seq<B>, m: (A, B) -> bool, p: Pair<A, B>)
    ensures p in Inner(ls, rs, m) <==> p.Both? && p.a in ls && p.b in rs && m(p.a, p.b)
  {
    if ls != [] {
      InnerMember(ls[..|ls| - 1], rs, m, p);
      HitsMember(ls[|ls| - 1], rs, m, p);
      assert ls == ls[..|ls| - 1] + [ls[|ls| - 1]];
    }
  }

  /** What each kind of join is made of: matching pairs, for CROSS all pairs; for LEFT and FULL the
      left rows that match nothing, for RIGHT and FULL the right ones. */
  predicate InJoin<A(==), B(==)>(kind: Kind, ls: seq<A>, rs: seq<B>, m: (A, B) -> bool, p: Pair<A, B>) {
    match p
    case Both(a, b) => a in ls && b in rs && (kind == CROSS || m(a, b))
    case OnlyLeft(a) => (kind == LEFT || kind == FULL) && a in ls && forall b :: b in rs ==> !m(a, b)
    case OnlyRight(b) => (kind == RIGHT || kind == FULL) && b in rs && forall a :: a in ls ==> !m(a, b)
  }

  lemma JoinMember<A, B>(kind: Kind, ls: seq<A>, rs: seq<B>, m: (A, B) -> bool, p: Pair<A, B>)
    ensures p in Join(kind, ls, rs, m) <==> InJoin(kind, ls, rs, m, p)
  {
    hide Inner, LeftJoin, RightJoin, UnmatchedRight;
    InnerMember(ls, rs, m, p);
    InnerMember(ls, rs, (a, b) => true, p);
    LeftJoinMember(ls, rs, m, p);
    RightJoinMember(ls, rs, m, p);
  }

  // ---- sizes ----------------------------------------------------------------

  lemma {:induction false} LeftSize<A, B>(ls: seq<A>, rs: seq<B>, m: (A, B) -> bool)
    ensures |LeftJoin(ls, rs, m)| == |Inner(ls, rs, m)| + |UnmatchedLeft(ls, rs, m)|
  {
    if ls != [] {
      LeftSize(ls[..|ls| - 1], rs, m);
    }
  }

  lemma FullSize<A, B>(ls: seq<A>, rs: seq<B>, m: (A, B) -> bool)
    ensures |FullJoin(ls, rs, m)| == |Inner(ls, rs, m)| + |UnmatchedLeft(ls, rs, m)| + |UnmatchedRight(ls, rs, m)|
  {
    LeftSize(ls, rs, m);
  }

  // ---- RIGHT is LEFT with the sides swapped ---------------------------------

  function Flip<A, B>(m: (A, B) -> bool): (B, A) -> bool {
    (b, a) => m(a, b)
  }

  function SwapPair<A, B>(p: Pair<A, B>): Pair<B, A> {
    match p
    case Both(a, b) => Both(b, a)
    case OnlyLeft(a) => OnlyRight(a)
    case OnlyRight(b) => OnlyLeft(b)
  }

  function Swap<A, B>(ps: seq<Pair<A, B>>): (r: seq<Pair<B, A>>)
    ensures |r| == |ps|
  {
    seq(|ps|, i requires 0 <= i < |ps| => SwapPair(ps[i]))
  }

  lemma SwapConcat<A, B>(p: seq<Pair<A, B>>, q: seq<Pair<A, B>>)
    ensures Swap(p + q) == Swap(p) + Swap(q)
  {
  }

  lemma {:induction false} HitsFlipped<A, B>(ls: seq<A>, b: B, m: (A, B) -> bool)
    ensures HitsOfRight(ls, b, m) == Swap(Hits(b, ls, Flip(m)))
  {
    if ls != [] {
      var a := ls[|ls| - 1];
      HitsFlipped(ls[..|ls| - 1], b, m);
      SwapConcat(Hits(b, ls[..|ls| - 1], Flip(m)), if m(a, b) then [Both(b, a)] else []);
    }
  }

  /** Row for row, in the same order. */
  lemma {:induction false} RightIsLeftSwapped<A, B>(ls: seq<A>, rs: seq<B>, m: (A, B) -> bool)
    ensures RightJoin(ls, rs, m) == Swap(LeftJoin(rs, ls, Flip(m)))
  {
    if rs != [] {
      var b := rs[|rs| - 1];
      RightIsLeftSwapped(ls, rs[..|rs| - 1], m);
      HitsFlipped(ls, b, m);
      SwapConcat(LeftJoin(rs[..|rs| - 1], ls, Flip(m)), OrAlone(Hits(b, ls, Flip(m)), OnlyLeft(b)));
    }
  }

  // ---- the kinds as multisets of rows ---------------------------------------

  function InnerByRight<A, B>(ls: seq<A>, rs: seq<B>, m: (A, B) -> bool): seq<Pair<A, B>> {
    if rs == [] then [] else InnerByRight(ls, rs[..|rs| - 1], m) + HitsOfRight(ls, rs[|rs| - 1], m)
  }

  /** One more right row adds its matches. */
  lemma {:induction false} InnerOneMoreRight<A, B>(ls: seq<A>, rs: seq<B>, m: (A, B) -> bool)
    requires rs != []
    ensures multiset(Inner(ls, rs, m)) == multiset(Inner(ls, rs[..|rs| - 1], m)) + multiset(HitsOfRight(ls, rs[|rs| - 1], m))
  {
    if ls != [] {
      InnerOneMoreRight(ls[..|ls| - 1], rs, m);
    }
  }

  /** The order of the loops does not matter up to the order of rows. */
  lemma {:induction false} InnerEitherWay<A, B>(ls: seq<A>, rs: seq<B>, m: (A, B) -> bool)
    ensures multiset(InnerByRight(ls, rs, m)) == multiset(Inner(ls, rs, m))
  {
    if rs == [] {
      NoRight(ls, rs, m);
    } else {
      InnerEitherWay(ls, rs[..|rs| - 1], m);
      InnerOneMoreRight(ls, rs, m);
    }
  }

  lemma {:induction false} NoRight<A, B>(ls: seq<A>, rs: seq<B>, m: (A, B) -> bool)
    requires rs == []
    ensures Inner(ls, rs, m) == []
  {
    if ls != [] {
      NoRight(ls[..|ls| - 1], rs, m);
    }
  }

  lemma {:induction false} LeftIsInnerAndAlone<A, B>(ls: seq<A>, rs: seq<B>, m: (A, B) -> bool)
    ensures multiset(LeftJoin(ls, rs, m)) == multiset(Inner(ls, rs, m)) + multiset(UnmatchedLeft(ls, rs, m))
  {
    if ls != [] {
      LeftIsInnerAndAlone(ls[..|ls| - 1], rs, m);
    }
  }

  lemma {:induction false} RightByLoops<A, B>(ls: seq<A>, rs: seq<B>, m: (A, B) -> bool)
    ensures multiset(RightJoin(ls, rs, m)) == multiset(InnerByRight(ls, rs, m)) + multiset(UnmatchedRight(ls, rs, m))
  {
    if rs != [] {
      RightByLoops(ls, rs[..|rs| - 1], m);
    }
  }

  /** FULL has every row of LEFT and of RIGHT, the matched ones once. */
  lemma FullIsLeftAndRight<A, B>(ls: seq<A>, rs: seq<B>, m: (A, B) -> bool)
    ensures multiset(RightJoin(ls, rs, m)) == multiset(Inner(ls, rs, m)) + multiset(UnmatchedRight(ls, rs, m))
    ensures multiset(FullJoin(ls, rs, m)) + multiset(Inner(ls, rs, m))
         == multiset(LeftJoin(ls, rs, m)) + multiset(RightJoin(ls, rs, m))
  {
    LeftIsInnerAndAlone(ls, rs, m);
    RightByLoops(ls, rs, m);
    InnerEitherWay(ls, rs, m);
  }

  // ---- joins commute with any change of representation ----------------------

  function Map<A, C>(f: A -> C, s: seq<A>): (r: seq<C>)
    ensures |r| == |s| && forall i :: 0 <= i < |s| ==> r[i] == f(s[i])
  {
    seq(|s|, i requires 0 <= i < |s| => f(s[i]))
  }

  function MapPair<A, B, C, D>(f: A -> C, g: B -> D, p: Pair<A, B>): Pair<C, D> {
    match p
    case Both(a, b) => Both(f(a), g(b))
    case OnlyLeft(a) => OnlyLeft(f(a))
    case OnlyRight(b) => OnlyRight(g(b))
  }

  function MapPairs<A, B, C, D>(f: A -> C, g: B -> D, ps: seq<Pair<A, B>>): (r: seq<Pair<C, D>>)
    ensures |r| == |ps| && forall i :: 0 <= i < |ps| ==> r[i] == MapPair(f, g, ps[i])
  {
    seq(|ps|, i requires 0 <= i < |ps| => MapPair(f, g, ps[i]))
  }

  ghost predicate Agree<A, B, C, D>(ls: seq<A>, rs: seq<B>, m: (A, B) -> bool, f: A -> C, g: B -> D, n: (C, D) -> bool) {
    forall a, b :: a in ls && b in rs ==> (m(a, b) <==> n(f(a), g(b)))
  }

  lemma MapSnoc<A, C>(f: A -> C, s: seq<A>)
    requires s != []
    ensures Map(f, s)[..|s| - 1] == Map(f, s[..|s| - 1]) && Map(f, s)[|s| - 1] == f(s[|s| - 1])
    ensures s[|s| - 1] in s && forall x :: x in s[..|s| - 1] ==> x in s
  {
  }

  lemma {:induction false} HitsMapped<A, B, C, D>(a: A, rs: seq<B>, m: (A, B) -> bool, f: A -> C, g: B -> D, n: (C, D) -> bool)
    requires Agree([a], rs, m, f, g, n)
    ensures MapPairs(f, g, Hits(a, rs, m)) == Hits(f(a), Map(g, rs), n)
  {
    if rs != [] {
      MapSnoc(g, rs);
      HitsMapped(a, rs[..|rs| - 1], m, f, g, n);
      assert a in [a];
    }
  }

  lemma {:induction false} HitsOfRightMapped<A, B, C, D>(ls: seq<A>, b: B, m: (A, B) -> bool, f: A -> C, g: B -> D, n: (C, D) -> bool)
    requires Agree(ls, [b], m, f, g, n)
    ensures MapPairs(f, g, HitsOfRight(ls, b, m)) == HitsOfRight(Map(f, ls), g(b), n)
  {
    if ls != [] {
      MapSnoc(f, ls);
      HitsOfRightMapped(ls[..|ls| - 1], b, m, f, g, n);
      assert b in [b];
    }
  }

  lemma {:induction false} InnerMapped<A, B, C, D>(ls: seq<A>, rs: seq<B>, m: (A, B) -> bool, f: A -> C, g: B -> D, n: (C, D) -> bool)
    requires Agree(ls, rs, m, f, g, n)
    ensures MapPairs(f, g, Inner(ls, rs, m)) == Inner(Map(f, ls), Map(g, rs), n)
  {
    if ls != [] {
      MapSnoc(f, ls);
      InnerMapped(ls[..|ls| - 1], rs, m, f, g, n);
      HitsMapped(ls[|ls| - 1], rs, m, f, g, n);
    }
  }

  lemma MappedConcat<A, B, C, D>(f: A -> C, g: B -> D, p: seq<Pair<A, B>>, q: seq<Pair<A, B>>)
    ensures MapPairs(f, g, p + q) == MapPairs(f, g, p) + MapPairs(f, g, q)
  {
  }

  lemma OrAloneMapped<A, B, C, D>(f: A -> C, g: B -> D, hits: seq<Pair<A, B>>, alone: Pair<A, B>)
    ensures MapPairs(f, g, OrAlone(hits, alone)) == OrAlone(MapPairs(f, g, hits), MapPair(f, g, alone))
    ensures MapPairs(f, g, if hits == [] then [alone] else [])
         == if MapPairs(f, g, hits) == [] then [MapPair(f, g, alone)] else []
  {
  }

  lemma {:induction false} LeftMapped<A, B, C, D>(ls: seq<A>, rs: seq<B>, m: (A, B) -> bool, f: A -> C, g: B -> D, n: (C, D) -> bool)
    requires Agree(ls, rs, m, f, g, n)
    ensures MapPairs(f, g, LeftJoin(ls, rs, m)) == LeftJoin(Map(f, ls), Map(g, rs), n)
  {
    if ls != [] {
      var a, before := ls[|ls| - 1], ls[..|ls| - 1];
      MapSnoc(f, ls);
      LeftMapped(before, rs, m, f, g, n);
      HitsMapped(a, rs, m, f, g, n);
      hide MapPairs, OrAlone, Hits, Map;
      OrAloneMapped(f, g, Hits(a, rs, m), OnlyLeft(a));
      MappedConcat(f, g, LeftJoin(before, rs, m), OrAlone(Hits(a, rs, m), OnlyLeft(a)));
    }
  }

  lemma {:induction false} RightMapped<A, B, C, D>(ls: seq<A>, rs: seq<B>, m: (A, B) -> bool, f: A -> C, g: B -> D, n: (C, D) -> bool)
    requires Agree(ls, rs, m, f, g, n)
    ensures MapPairs(f, g, RightJoin(ls, rs, m)) == RightJoin(Map(f, ls), Map(g, rs), n)
    ensures MapPairs(f, g, UnmatchedRight(ls, rs, m)) == UnmatchedRight(Map(f, ls), Map(g, rs), n)
  {
    if rs != [] {
      var b, before := rs[|rs| - 1], rs[..|rs| - 1];
      MapSnoc(g, rs);
      RightMapped(ls, before, m, f, g, n);
      HitsOfRightMapped(ls, b, m, f, g, n);
      hide MapPairs, OrAlone, HitsOfRight, Map;
      var hits := HitsOfRight(ls, b, m);
      OrAloneMapped(f, g, hits, OnlyRight(b));
      MappedConcat(f, g, RightJoin(ls, before, m), OrAlone(hits, OnlyRight(b)));
      MappedConcat(f, g, UnmatchedRight(ls, before, m), if hits == [] then [OnlyRight(b)] else []);
    }
  }

  lemma JoinMapped<A, B, C, D>(kind: Kind, ls: seq<A>, rs: seq<B>, m: (A, B) -> bool, f: A -> C, g: B -> D, n: (C, D) -> bool)
    requires kind.CROSS? || Agree(ls, rs, m, f, g, n)
    ensures MapPairs(f, g, Join(kind, ls, rs, m)) == Join(kind, Map(f, ls), Map(g, rs), n)
  {
    match kind
    case INNER => InnerMapped(ls, rs, m, f, g, n);
    case CROSS => InnerMapped(ls, rs, (a, b) => true, f, g, (c, d) => true);
    case LEFT => LeftMapped(ls, rs, m, f, g, n);
    case RIGHT => RightMapped(ls, rs, m, f, g, n);
    case FULL =>
      LeftMapped(ls, rs, m, f, g, n);
      RightMapped(ls, rs, m, f, g, n);
  }

  // ---- nothing is invented --------------------------------------------------

  /** The sides of a pair are rows of the two inputs. */
  predicate From<A(==), B(==)>(ls: seq<A>, rs: seq<B>, p: Pair<A, B>) {
    (p.OnlyRight? || p.a in ls) && (p.OnlyLeft? || p.b in rs)
  }

  ghost predicate AllFrom<A, B>(ls: seq<A>, rs: seq<B>, ps: seq<Pair<A, B>>) {
    forall i :: 0 <= i < |ps| ==> From(ls, rs, ps[i])
  }

  lemma AllFromMore<A, B>(ls: seq<A>, rs: seq<B>, ps: seq<Pair<A, B>>, qs: seq<Pair<A, B>>, allLs: seq<A>, allRs: seq<B>)
    requires AllFrom(ls, rs, ps) && AllFrom(allLs, allRs, qs)
    requires (forall a :: a in ls ==> a in allLs) && (forall b :: b in rs ==> b in allRs)
    ensures AllFrom(allLs, allRs, ps + qs)
  {
  }

  lemma {:induction false} HitsFrom<A, B>(a: A, ls: seq<A>, rs: seq<B>, m: (A, B) -> bool)
    requires a in ls
    ensures AllFrom(ls, rs, Hits(a, rs, m))
  {
    if rs != [] {
      var before, b := rs[..|rs| - 1], rs[|rs| - 1];
      HitsFrom(a, ls, before, m);
      assert rs == before + [b];
      AllFromMore(ls, before, Hits(a, before, m), if m(a, b) then [Both(a, b)] else [], ls, rs);
    }
  }

  lemma {:induction false} HitsOfRightFrom<A, B>(ls: seq<A>, b: B, rs: seq<B>, m: (A, B) -> bool)
    requires b in rs
    ensures AllFrom(ls, rs, HitsOfRight(ls, b, m))
  {
    if ls != [] {
      var before, a := ls[..|ls| - 1], ls[|ls| - 1];
      HitsOfRightFrom(before, b, rs, m);
      assert ls == before + [a];
      AllFromMore(before, rs, HitsOfRight(before, b, m), if m(a, b) then [Both(a, b)] else [], ls, rs);
    }
  }

  lemma {:induction false} ByLeftFrom<A, B>(ls: seq<A>, rs: seq<B>, m: (A, B) -> bool)
    ensures AllFrom(ls, rs, Inner(ls, rs, m)) && AllFrom(ls, rs, LeftJoin(ls, rs, m))
  {
    if ls != [] {
      var before, a := ls[..|ls| - 1], ls[|ls| - 1];
      ByLeftFrom(before, rs, m);
      assert ls == before + [a];
      HitsFrom(a, ls, rs, m);
      AllFromMore(before, rs, Inner(before, rs, m), Hits(a, rs, m), ls, rs);
      AllFromMore(before, rs, LeftJoin(before, rs, m), OrAlone(Hits(a, rs, m), OnlyLeft(a)), ls, rs);
    }
  }

  lemma {:induction false} ByRightFrom<A, B>(ls: seq<A>, rs: seq<B>, m: (A, B) -> bool)
    ensures AllFrom(ls, rs, RightJoin(ls, rs, m)) && AllFrom(ls, rs, UnmatchedRight(ls, rs, m))
  {
    if rs != [] {
      var before, b := rs[..|rs| - 1], rs[|rs| - 1];
      ByRightFrom(ls, before, m);
      assert rs == before + [b];
      HitsOfRightFrom(ls, b, rs, m);
      var alone: seq<Pair<A, B>> := if HitsOfRight(ls, b, m) == [] then [OnlyRight(b)] else [];
      AllFromMore(ls, before, RightJoin(ls, before, m), OrAlone(HitsOfRight(ls, b, m), OnlyRight(b)), ls, rs);
      AllFromMore(ls, before, UnmatchedRight(ls, before, m), alone, ls, rs);
    }
  }

  lemma JoinFrom<A, B>(kind: Kind, ls: seq<A>, rs: seq<B>, m: (A, B) -> bool)
    ensures AllFrom(ls, rs, Join(kind, ls, rs, m))
  {
    ByLeftFrom(ls, rs, m);
    ByLeftFrom(ls, rs, (a, b) => true);
    ByRightFrom(ls, rs, m);
    if kind == FULL {
      AllFromMore(ls, rs, LeftJoin(ls, rs, m), UnmatchedRight(ls, rs, m), ls, rs);
    }
  }
}
