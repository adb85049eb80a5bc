/** The JSON text of a catalog segment says what the segment is: no other segment has the same text,
    so a reader that inverts writing exists (src/tinydb/catalog.py). */
module CatalogTexts {
  import opened ByteStrings
  import opened Wrappers
  import opened CatalogPacking

  // ---- numbers --------------------------------------------------------------

  predicate Digits(b: Bytes) {
    forall i :: 0 <= i < |b| ==> 48 <= b[i] <= 57
  }

  /** The number that decimal digits stand for. */
  function NumberOf(b: Bytes): int {
    if b == [] then 0 else 10 * NumberOf(b[..|b| - 1]) + (b[|b| - 1] as int - 48)
  }

  lemma {:induction false} DecimalReads(n: nat)
    ensures Digits(Decimal(n)) && NumberOf(Decimal(n)) == n
  {
    var d, last := Decimal(n), [(48 + n % 10) as Byte];
    if n >= 10 {
      DecimalReads(n / 10);
      assert d == Decimal(n / 10) + last && d[..|d| - 1] == Decimal(n / 10);
    } else {
      assert d[..0] == [];
      assert NumberOf(d[..0]) == 0;
    }
  }

  /** The text of a table: its name, its columns, and its page ids, each by its own field. */
  lemma TableText(t: CatalogTable)
    ensures Dumps([EntryOf(t)]) ==
      StartOfTables() + (t.name + StartOfSchema() + Join(t.columns) + EndOfSchema()
        + (RootField() + Decimal(t.rootPageId) + NextField() + Decimal(t.nextPageId) + Quote()) + EndOfEntry()) + EndOfTables()
    ensures NumberOf(Decimal(t.rootPageId)) == t.rootPageId && NumberOf(Decimal(t.nextPageId)) == t.nextPageId
  {
    hide Join, Decimal, NumberOf, Ascii, Dumps;
    SingleText(EntryOf(t));
    DecimalReads(t.rootPageId);
    DecimalReads(t.nextPageId);
  }

  // ---- cutting texts apart --------------------------------------------------

  /** Names and columns are JSON strings and objects: none begins another, and none is empty or
      begins with a bracket that closes. */
  ghost predicate SelfDelimiting(isText: Bytes -> bool) {
    && (forall x :: isText(x) ==> x != [] && x[0] != 93)
    && forall x, y :: isText(x) && isText(y) && x <= y ==> x == y
  }

  predicate MadeOf(isText: Bytes -> bool, m: Member) {
    isText(m.0) && forall c :: c in m.1.schema ==> isText(c)
  }

  lemma SameToken(isText: Bytes -> bool, x: Bytes, y: Bytes, s: Bytes, t: Bytes)
    requires SelfDelimiting(isText) && isText(x) && isText(y) && x + s == y + t
    ensures x == y && s == t
  {
    OneBegins(x, y, s, t);
    assert x <= y ==> x == y;
    assert y <= x ==> y == x;
    SameLead(x, s, t);
  }

  lemma OneBegins(x: Bytes, y: Bytes, s: Bytes, t: Bytes)
    requires x + s == y + t
    ensures x <= y || y <= x
  {
    if |x| <= |y| {
      assert x == (x + s)[..|x|] == y[..|x|];
    } else {
      assert y == (y + t)[..|y|] == x[..|y|];
    }
  }

  lemma SameLead(a: Bytes, s: Bytes, t: Bytes)
    requires a + s == a + t
    ensures s == t
  {
    assert s == (a + s)[|a|..] && t == (a + t)[|a|..];
  }

  lemma SameNumber(m: nat, n: nat, s: Bytes, t: Bytes)
    requires Decimal(m) + s == Decimal(n) + t && s != [] && t != [] && s[0] == 34 == t[0]
    ensures m == n && s == t
  {
    hide Decimal, NumberOf;
    DecimalReads(m);
    DecimalReads(n);
    var x, y := Decimal(m), Decimal(n);
    NoLonger(x, y, s, t);
    NoLonger(y, x, t, s);
    OneBegins(x, y, s, t);
    assert x == y;
    SameLead(x, s, t);
  }

  /** Digits end where a quote follows. */
  lemma NoLonger(x: Bytes, y: Bytes, s: Bytes, t: Bytes)
    requires x + s == y + t && Digits(y) && s != [] && s[0] == 34
    ensures |y| <= |x|
  {
    Behind(x, s);
    if |x| < |y| {
      Inside(y, t, x);
    }
  }

  lemma Behind(x: Bytes, s: Bytes)
    requires s != []
    ensures (x + s)[|x|] == s[0]
  {
  }

  lemma Inside(y: Bytes, t: Bytes, x: Bytes)
    requires |x| < |y|
    ensures (y + t)[|x|] == y[|x|]
  {
  }

  function AfterFirst(parts: seq<Bytes>): Bytes {
    if parts == [] then [] else Comma() + Join(parts)
  }

  lemma {:induction false} JoinFirst(parts: seq<Bytes>)
    requires parts != []
    ensures Join(parts) == parts[0] + AfterFirst(parts[1..])
  {
    hide Ascii, Comma, Join;
    var k := |parts| - 1;
    JoinOne(parts);
    if k > 0 {
      var before, rest := parts[..k], parts[1..];
      JoinFirst(before);
      JoinLast(parts);
      assert before[1..] == rest[..k - 1] && rest[k - 1] == parts[k];
      if k > 1 {
        JoinLast(rest);
        assert AfterFirst(rest) == AfterFirst(before[1..]) + Comma() + parts[k];
      } else {
        JoinOne(rest);
        assert before[1..] == [] && before[0] + [] == before[0];
      }
    }
  }

  lemma JoinOne(parts: seq<Bytes>)
    ensures |parts| == 1 ==> Join(parts) == parts[0] && AfterFirst(parts[1..]) == [] && parts[0] + [] == parts[0]
  {
  }

  lemma JoinLast(parts: seq<Bytes>)
    requires |parts| > 1
    ensures var k := |parts| - 1; Join(parts) == Join(parts[..k]) + Comma() + parts[k]
  {
    hide Ascii;
  }

  lemma {:induction false} SameColumns(isText: Bytes -> bool, a: seq<Bytes>, b: seq<Bytes>, s: Bytes, t: Bytes)
    requires SelfDelimiting(isText) && (forall c :: c in a ==> isText(c)) && (forall c :: c in b ==> isText(c))
    requires Join(a) + s == Join(b) + t && s != [] && t != [] && s[0] == 93 == t[0]
    ensures a == b && s == t
  {
    hide Join, AfterFirst, Ascii, SelfDelimiting;
    BothEmpty(isText, a, b, s, t);
    if a != [] && b != [] {
      FirstColumn(isText, a, b, s, t);
      RestOfList(a[1..], b[1..], s, t);
      if a[1..] != [] {
        SameColumns(isText, a[1..], b[1..], s, t);
      }
      assert a == [a[0]] + a[1..] && b == [b[0]] + b[1..];
    }
  }

  lemma FirstColumn(isText: Bytes -> bool, a: seq<Bytes>, b: seq<Bytes>, s: Bytes, t: Bytes)
    requires SelfDelimiting(isText) && a != [] && b != [] && isText(a[0]) && isText(b[0]) && Join(a) + s == Join(b) + t
    ensures a[0] == b[0] && AfterFirst(a[1..]) + s == AfterFirst(b[1..]) + t
  {
    hide Join, AfterFirst, Ascii, SelfDelimiting;
    JoinFirst(a);
    JoinFirst(b);
    assert a[0] + (AfterFirst(a[1..]) + s) == Join(a) + s;
    assert b[0] + (AfterFirst(b[1..]) + t) == Join(b) + t;
    SameToken(isText, a[0], b[0], AfterFirst(a[1..]) + s, AfterFirst(b[1..]) + t);
  }

  lemma BothEmpty(isText: Bytes -> bool, a: seq<Bytes>, b: seq<Bytes>, s: Bytes, t: Bytes)
    requires SelfDelimiting(isText) && (forall c :: c in a ==> isText(c)) && (forall c :: c in b ==> isText(c))
    requires Join(a) + s == Join(b) + t && s != [] && t != [] && s[0] == 93 == t[0]
    ensures a == [] <==> b == []
    ensures a == [] ==> s == t
  {
    hide Ascii, AfterFirst;
    NotABracket(isText, a, s);
    NotABracket(isText, b, t);
    if a == [] && b == [] {
      assert [] + s == s && [] + t == t;
    }
  }

  /** A list begins with a bracket that closes only if it is empty. */
  lemma NotABracket(isText: Bytes -> bool, a: seq<Bytes>, s: Bytes)
    requires SelfDelimiting(isText) && (forall c :: c in a ==> isText(c)) && s != [] && s[0] == 93
    ensures Join(a) + s != [] && ((Join(a) + s)[0] == 93 <==> a == [])
  {
    hide Ascii, AfterFirst;
    if a != [] {
      JoinFirst(a);
      assert a[0] in a;
      assert (Join(a) + s)[0] == a[0][0];
    } else {
      assert [] + s == s;
    }
  }

  /** After a part comes a comma, or what follows the list. */
  lemma RestOfList(a: seq<Bytes>, b: seq<Bytes>, s: Bytes, t: Bytes)
    requires AfterFirst(a) + s == AfterFirst(b) + t && s != [] && t != [] && s[0] != 44 && t[0] != 44
    ensures a == [] <==> b == []
    ensures a == [] ==> s == t
    ensures a != [] ==> Join(a) + s == Join(b) + t
  {
    hide Join, Ascii;
    CommaAfter(a, s);
    CommaAfter(b, t);
    if a != [] && b != [] {
      SameLead(Comma(), Join(a) + s, Join(b) + t);
    }
  }

  lemma CommaAfter(a: seq<Bytes>, s: Bytes)
    requires s != [] && s[0] != 44
    ensures AfterFirst(a) + s == if a == [] then s else Comma() + (Join(a) + s)
    ensures (AfterFirst(a) + s)[0] == 44 <==> a != []
  {
    hide Join, Ascii;
    if a == [] {
      assert [] + s == s;
    } else {
      assert AfterFirst(a) + s == Comma() + (Join(a) + s);
    }
  }

  /** The text of page ids and all that follows. */
  lemma MetaParts(m: Option<(nat, nat)>, s: Bytes)
    ensures var end := EndOfEntry() + s;
      MetaText(m) + end ==
        if m.None? then end
        else RootField() + (Decimal(m.value.0) + (NextField() + (Decimal(m.value.1) + (Quote() + end))))
  {
    hide Decimal, Ascii;
    var end := EndOfEntry() + s;
    if m.None? {
      assert [] + end == end;
    }
  }

  /** They begin with a comma if there are any. */
  lemma MetaHead(m: Option<(nat, nat)>, s: Bytes)
    ensures MetaText(m) + (EndOfEntry() + s) != [] && ((MetaText(m) + (EndOfEntry() + s))[0] == 44 <==> m.Some?)
  {
    hide Decimal, Ascii, MetaText;
    MetaParts(m, s);
  }

  lemma SameMeta(m: Option<(nat, nat)>, n: Option<(nat, nat)>, s: Bytes, t: Bytes)
    requires MetaText(m) + (EndOfEntry() + s) == MetaText(n) + (EndOfEntry() + t)
    ensures m == n && s == t
  {
    hide Decimal, Ascii, MetaText;
    MetaParts(m, s);
    MetaParts(n, t);
    MetaHead(m, s);
    MetaHead(n, t);
    if m.Some? && n.Some? {
      SameIds(m.value.0, m.value.1, n.value.0, n.value.1, EndOfEntry() + s, EndOfEntry() + t);
      SameLead(EndOfEntry(), s, t);
    } else if m.None? && n.None? {
      SameLead(EndOfEntry(), s, t);
    }
  }

  lemma SameIds(a: nat, b: nat, c: nat, d: nat, s: Bytes, t: Bytes)
    requires RootField() + (Decimal(a) + (NextField() + (Decimal(b) + (Quote() + s))))
          == RootField() + (Decimal(c) + (NextField() + (Decimal(d) + (Quote() + t))))
    ensures a == c && b == d && s == t
  {
    hide Decimal, Ascii;
    var x, y := NextField() + (Decimal(b) + (Quote() + s)), NextField() + (Decimal(d) + (Quote() + t));
    SameLead(RootField(), Decimal(a) + x, Decimal(c) + y);
    SameNumber(a, c, x, y);
    SameLead(NextField(), Decimal(b) + (Quote() + s), Decimal(d) + (Quote() + t));
    SameNumber(b, d, Quote() + s, Quote() + t);
    SameLead(Quote(), s, t);
  }

  lemma MemberParts(m: Member, s: Bytes)
    ensures MemberText(m) + s ==
      m.0 + (StartOfSchema() + (Join(m.1.schema) + (EndOfSchema() + (MetaText(m.1.meta) + (EndOfEntry() + s)))))
  {
    hide Join, MetaText, Ascii;
  }

  lemma SameMember(isText: Bytes -> bool, m: Member, n: Member, s: Bytes, t: Bytes)
    requires SelfDelimiting(isText) && MadeOf(isText, m) && MadeOf(isText, n) && MemberText(m) + s == MemberText(n) + t
    ensures m == n && s == t
  {
    hide Join, MetaText, MemberText, SelfDelimiting, Ascii;
    MemberParts(m, s);
    MemberParts(n, t);
    var u, v := MetaText(m.1.meta) + (EndOfEntry() + s), MetaText(n.1.meta) + (EndOfEntry() + t);
    var x, y := Join(m.1.schema) + (EndOfSchema() + u), Join(n.1.schema) + (EndOfSchema() + v);
    SameToken(isText, m.0, n.0, StartOfSchema() + x, StartOfSchema() + y);
    SameLead(StartOfSchema(), x, y);
    SameColumns(isText, m.1.schema, n.1.schema, EndOfSchema() + u, EndOfSchema() + v);
    SameLead(EndOfSchema(), u, v);
    SameMeta(m.1.meta, n.1.meta, s, t);
  }

  lemma {:induction false} SameMembers(isText: Bytes -> bool, a: Segment, b: Segment, s: Bytes, t: Bytes)
    requires SelfDelimiting(isText) && a != [] && b != []
    requires (forall i :: 0 <= i < |a| ==> MadeOf(isText, a[i])) && (forall i :: 0 <= i < |b| ==> MadeOf(isText, b[i]))
    requires Join(MemberTexts(a)) + s == Join(MemberTexts(b)) + t && s != [] && t != [] && s[0] != 44 && t[0] != 44
    ensures a == b && s == t
  {
    hide Join, MemberText, SelfDelimiting, MadeOf, AfterFirst, Ascii;
    var x, y := MemberTexts(a), MemberTexts(b);
    var ra, rb := a[1..], b[1..];
    assert x[1..] == MemberTexts(ra) && y[1..] == MemberTexts(rb);
    JoinFirst(x);
    JoinFirst(y);
    assert Join(x) + s == MemberText(a[0]) + (AfterFirst(x[1..]) + s);
    assert Join(y) + t == MemberText(b[0]) + (AfterFirst(y[1..]) + t);
    SameMember(isText, a[0], b[0], AfterFirst(x[1..]) + s, AfterFirst(y[1..]) + t);
    RestOfList(x[1..], y[1..], s, t);
    if ra != [] {
      SameMembers(isText, ra, rb, s, t);
    }
    assert a == [a[0]] + ra && b == [b[0]] + rb;
  }

  /** Segments with the same text are the same. */
  lemma DumpsInjective(isText: Bytes -> bool, a: Segment, b: Segment)
    requires SelfDelimiting(isText) && Dumps(a) == Dumps(b)
    requires (forall i :: 0 <= i < |a| ==> MadeOf(isText, a[i])) && (forall i :: 0 <= i < |b| ==> MadeOf(isText, b[i]))
    ensures a == b
  {
    hide Join, MemberText, SelfDelimiting, MadeOf, MemberTexts, Ascii, Dumps;
    TextParts(a);
    TextParts(b);
    if a != [] && b != [] {
      var x, y := Join(MemberTexts(a)) + EndOfTables(), Join(MemberTexts(b)) + EndOfTables();
      SameLead(StartOfTables(), x, y);
      SameMembers(isText, a, b, EndOfTables(), EndOfTables());
    }
  }

  lemma TextParts(a: Segment)
    ensures a != [] ==> Dumps(a) == StartOfTables() + (Join(MemberTexts(a)) + EndOfTables())
    ensures |Dumps(a)| > 1 && (Dumps(a)[1] == 125 <==> a == [])
  {
    hide Join, Ascii, MemberTexts;
  }

  /** So there is a faithful reader for texts of that kind. */
  lemma FaithfulReader(isText: Bytes -> bool) returns (json: Json)
    requires SelfDelimiting(isText)
    ensures json.isText == isText && Faithful(json)
  {
    hide Dumps, SelfDelimiting;
    json := Json(isText, (b: Bytes) => ReadBack(isText, b));
    forall seg: Segment | Readable(json, seg) && DistinctMembers(seg) ensures json.loads(Dumps(seg)) == seg {
      assert IsTextOf(isText, seg, Dumps(seg));
      var read := ReadBack(isText, Dumps(seg));
      DumpsInjective(isText, seg, read);
    }
  }

  ghost predicate IsTextOf(isText: Bytes -> bool, seg: Segment, b: Bytes) {
    Dumps(seg) == b && forall i :: 0 <= i < |seg| ==> MadeOf(isText, seg[i])
  }

  ghost function ReadBack(isText: Bytes -> bool, b: Bytes): (seg: Segment)
    ensures (exists s :: IsTextOf(isText, s, b)) ==> IsTextOf(isText, seg, b)
  {
    if exists s :: IsTextOf(isText, s, b) then var s :| IsTextOf(isText, s, b); s else []
  }
}
