/** The write-ahead log as bytes (src/tinydb/wal.py).  The CRC is any function of the record
    body: nothing below assumes it detects anything. */
module WalBytes {
  import opened ByteStrings
  import opened Wrappers

  const HEADER_BYTES: nat := 16
  const RECORD_HEADER: nat := 17
  const CRC_SIZE: nat := 4

  type Word = n: nat | n < U32_LIMIT
  type Crc = Bytes -> Word

  /** One log record; `kind` is BEGIN, PAGE_WRITE, COMMIT, ROLLBACK or CHECKPOINT. */
  datatype Record = Record(txn: nat, kind: Byte, page: nat, data: Bytes)

  const BEGIN: Byte := 0
  const PAGE_WRITE: Byte := 1
  const COMMIT: Byte := 2
  const ROLLBACK: Byte := 3

  predicate RecordFits(r: Record) {
    r.txn < U64_LIMIT && r.page < U32_LIMIT && |r.data| < U32_LIMIT
  }

  function FileHeader(): (r: Bytes)
    ensures |r| == HEADER_BYTES
  {
    [84, 73, 78, 89, 87, 65, 76, 0, 1, 0, 0, 0, 0, 0, 0, 0]
  }

  function Body(r: Record): (b: Bytes)
    ensures |b| == RECORD_HEADER + |r.data|
  {
    U64(r.txn) + [r.kind] + U32(r.page) + U32(|r.data|) + r.data
  }

  function EncodeRecord(crc: Crc, r: Record): (b: Bytes)
    ensures |b| == RECORD_HEADER + |r.data| + CRC_SIZE
  {
    Body(r) + U32(crc(Body(r)))
  }

  function EncodeAll(crc: Crc, rs: seq<Record>): Bytes {
    if rs == [] then [] else EncodeAll(crc, rs[..|rs| - 1]) + EncodeRecord(crc, rs[|rs| - 1])
  }

  /** A whole log file. */
  function LogFile(crc: Crc, rs: seq<Record>): (b: Bytes)
    ensures |b| >= HEADER_BYTES
  {
    FileHeader() + EncodeAll(crc, rs)
  }

  /** What reading a log gives: the records, and where it stops if it is not clean. */
  datatype Parsed = Parsed(records: seq<Record>, bad: Option<nat>)

  /** The outcome at one position: the end, a bad record, or a record and where the next begins. */
  datatype Item = End | Bad | Item(record: Record, next: nat)

  function ItemAt(crc: Crc, buf: Bytes, pos: nat): (r: Item)
    ensures r.Item? ==> pos < r.next <= |buf|
  {
    if pos >= |buf| then End
    else if |buf| - pos < RECORD_HEADER + CRC_SIZE then Bad
    else
      var payloadEnd := pos + RECORD_HEADER + FieldAt(buf, pos + 13, 4);
      if payloadEnd + CRC_SIZE > |buf| then Bad
      else if FieldAt(buf, payloadEnd, 4) != crc(buf[pos..payloadEnd]) then Bad
      else Item(Record(FieldAt(buf, pos, 8), buf[pos + 8], FieldAt(buf, pos + 9, 4), buf[pos + RECORD_HEADER..payloadEnd]),
                payloadEnd + CRC_SIZE)
  }

  function ParseFrom(crc: Crc, buf: Bytes, pos: nat): Parsed
    decreases if pos < |buf| then |buf| - pos else 0
  {
    match ItemAt(crc, buf, pos)
    case End => Parsed([], None)
    case Bad => Parsed([], Some(pos))
    case Item(r, next) =>
      var rest := ParseFrom(crc, buf, next);
      Parsed([r] + rest.records, rest.bad)
  }

  function Parse(crc: Crc, buf: Bytes): Parsed {
    ParseFrom(crc, buf, HEADER_BYTES)
  }

  // ---- reading back what was written ---------------------------------------

  lemma BodyFields(r: Record)
    requires RecordFits(r)
    ensures var b := Body(r);
      && FieldAt(b, 0, 8) == r.txn && b[8] == r.kind && FieldAt(b, 9, 4) == r.page
      && FieldAt(b, 13, 4) == |r.data| && b[RECORD_HEADER..] == r.data
  {
    hide U64, U32, UnpackBE;
    var b := Body(r);
    FivePartsOf(b, U64(r.txn), [r.kind], U32(r.page), U32(|r.data|), r.data);
    assert b[8] == b[8..9][0];
  }

  /** A record written at `pos` is read back, whatever follows it. */
  lemma ItemOfRecord(crc: Crc, buf: Bytes, pos: nat, r: Record)
    requires RecordFits(r) && pos + |EncodeRecord(crc, r)| <= |buf|
    requires buf[pos..pos + |EncodeRecord(crc, r)|] == EncodeRecord(crc, r)
    ensures ItemAt(crc, buf, pos) == Item(r, pos + |EncodeRecord(crc, r)|)
  {
    hide UnpackBE, U32, Body;
    var b, n := Body(r), RECORD_HEADER + |r.data|;
    var e := EncodeRecord(crc, r);
    BodyFields(r);
    PartsOf(e, [], b, U32(crc(b)));
    PartsOf(e, b, U32(crc(b)), []);
    SubSlice(buf, pos, n + 4, 0, n);
    SubSlice(buf, pos, n + 4, n, n + 4);
    assert buf[pos..pos + n] == b;
    SubSlice(buf, pos, n, 0, 8);
    SubSlice(buf, pos, n, 9, 13);
    SubSlice(buf, pos, n, 13, 17);
    SubSlice(buf, pos, n, 17, n);
    assert buf[pos + 8] == b[8];
  }

  /** A record cut short is reported where it begins. */
  lemma ItemOfTornRecord(crc: Crc, buf: Bytes, pos: nat, r: Record)
    requires RecordFits(r) && pos < |buf| < pos + |EncodeRecord(crc, r)|
    requires buf[pos..] == EncodeRecord(crc, r)[..|buf| - pos]
    ensures ItemAt(crc, buf, pos) == Bad
  {
    hide UnpackBE, U32, Body;
    if |buf| - pos >= RECORD_HEADER + CRC_SIZE {
      var e := EncodeRecord(crc, r);
      BodyFields(r);
      PartsOf(e, [], Body(r), U32(crc(Body(r))));
      SubSlice(e, 0, |Body(r)|, 13, 17);
      var torn := e[..|buf| - pos];
      SubSlice(e, 0, |buf| - pos, 13, 17);
      SubSlice(buf, pos, |buf| - pos, 13, 17);
      assert buf[pos..|buf|] == buf[pos..] == torn;
      assert buf[pos + 13..pos + 17] == torn[13..17] == e[13..17];
      assert FieldAt(buf, pos + 13, 4) == |r.data|;
    }
  }

  lemma {:induction false} EncodeAllPrefix(crc: Crc, rs: seq<Record>, n: nat)
    requires n <= |rs|
    ensures EncodeAll(crc, rs[..n]) <= EncodeAll(crc, rs)
    ensures n < |rs| ==> EncodeAll(crc, rs[..n + 1]) == EncodeAll(crc, rs[..n]) + EncodeRecord(crc, rs[n])
  {
    hide EncodeRecord;
    if n == |rs| {
      assert rs[..n] == rs;
    } else {
      assert rs[..n + 1][..n] == rs[..n];
      EncodeAllPrefix(crc, rs[..|rs| - 1], n);
      assert rs[..|rs| - 1][..n] == rs[..n];
    }
  }

  /** Where the record after the first `n` begins. */
  function Boundary(crc: Crc, rs: seq<Record>, n: nat): nat
    requires n <= |rs|
  {
    HEADER_BYTES + |EncodeAll(crc, rs[..n])|
  }

  lemma FirstBoundary(crc: Crc, rs: seq<Record>)
    ensures Boundary(crc, rs, 0) == HEADER_BYTES
  {
    assert rs[..0] == [];
  }

  /** How many of the first `m` records lie wholly before the cut. */
  function WholeAmong(crc: Crc, rs: seq<Record>, cut: nat, m: nat): (n: nat)
    requires cut >= HEADER_BYTES && m <= |rs|
    ensures n <= m && Boundary(crc, rs, n) <= cut
    ensures n < m ==> cut < Boundary(crc, rs, n + 1)
  {
    hide Boundary, EncodeAll, EncodeRecord;
    FirstBoundary(crc, rs);
    if m == 0 then 0
    else if Boundary(crc, rs, m) <= cut then m
    else WholeAmong(crc, rs, cut, m - 1)
  }

  /** How many records lie wholly before the cut. */
  function WholeBefore(crc: Crc, rs: seq<Record>, cut: nat): (n: nat)
    requires cut >= HEADER_BYTES
    ensures n <= |rs| && Boundary(crc, rs, n) <= cut
    ensures n < |rs| ==> cut < Boundary(crc, rs, n + 1)
  {
    WholeAmong(crc, rs, cut, |rs|)
  }

  /** The bytes of record `n` in the log. */
  lemma RecordBytes(crc: Crc, rs: seq<Record>, n: nat)
    requires n < |rs|
    ensures var pos, e := Boundary(crc, rs, n), EncodeRecord(crc, rs[n]);
      && Boundary(crc, rs, n + 1) == pos + |e| <= |LogFile(crc, rs)|
      && LogFile(crc, rs)[pos..pos + |e|] == e
  {
    hide EncodeRecord, FileHeader;
    EncodeAllPrefix(crc, rs, n);
    EncodeAllPrefix(crc, rs, n + 1);
    var pre, e := EncodeAll(crc, rs[..n]), EncodeRecord(crc, rs[n]);
    var post := EncodeAll(crc, rs)[|pre| + |e|..];
    assert EncodeAll(crc, rs) == pre + e + post;
    assert LogFile(crc, rs) == (FileHeader() + pre) + e + post;
    PartsOf(LogFile(crc, rs), FileHeader() + pre, e, post);
  }

  lemma {:induction false} ParseCutFrom(crc: Crc, rs: seq<Record>, cut: nat, n: nat)
    requires forall r :: r in rs ==> RecordFits(r)
    requires HEADER_BYTES <= cut <= |LogFile(crc, rs)| && n <= WholeBefore(crc, rs, cut)
    ensures Boundary(crc, rs, n) <= cut
    ensures var whole := WholeBefore(crc, rs, cut);
      ParseFrom(crc, LogFile(crc, rs)[..cut], Boundary(crc, rs, n))
        == Parsed(rs[n..whole], if cut == Boundary(crc, rs, whole) then None else Some(Boundary(crc, rs, whole)))
    decreases |rs| - n
  {
    hide EncodeRecord, FileHeader, ItemAt, LogFile, EncodeAll;
    var whole := WholeBefore(crc, rs, cut);
    var file, pos := LogFile(crc, rs), Boundary(crc, rs, n);
    if n < whole {
      assert rs[n] in rs;
      BoundaryGrows(crc, rs, n + 1, whole);
      RecordBytes(crc, rs, n);
      assert file[..cut][pos..pos + |EncodeRecord(crc, rs[n])|] == file[pos..pos + |EncodeRecord(crc, rs[n])|];
      ItemOfRecord(crc, file[..cut], pos, rs[n]);
      ParseCutFrom(crc, rs, cut, n + 1);
      assert rs[n..whole] == [rs[n]] + rs[n + 1..whole];
    } else {
      assert rs[n..whole] == [];
      StopsAtCut(crc, rs, cut);
    }
  }

  lemma {:induction false} BoundaryGrows(crc: Crc, rs: seq<Record>, a: nat, b: nat)
    requires a <= b <= |rs|
    ensures Boundary(crc, rs, a) <= Boundary(crc, rs, b)
  {
    hide EncodeRecord;
    EncodeAllPrefix(crc, rs[..b], a);
    assert rs[..b][..a] == rs[..a];
  }

  lemma StopsAtCut(crc: Crc, rs: seq<Record>, cut: nat)
    requires forall r :: r in rs ==> RecordFits(r)
    requires HEADER_BYTES <= cut <= |LogFile(crc, rs)|
    ensures var pos := Boundary(crc, rs, WholeBefore(crc, rs, cut));
      ItemAt(crc, LogFile(crc, rs)[..cut], pos) == if cut == pos then End else Bad
  {
    hide EncodeRecord, FileHeader, UnpackBE, FieldAt, Boundary, LogFile;
    var n := WholeBefore(crc, rs, cut);
    var pos, file := Boundary(crc, rs, n), LogFile(crc, rs);
    if cut != pos {
      LastBoundary(crc, rs);
      assert n < |rs|;
      assert rs[n] in rs;
      RecordBytes(crc, rs, n);
      var e := EncodeRecord(crc, rs[n]);
      assert file[..cut][pos..] == file[pos..pos + |e|][..cut - pos];
      ItemOfTornRecord(crc, file[..cut], pos, rs[n]);
    }
  }

  lemma LastBoundary(crc: Crc, rs: seq<Record>)
    ensures Boundary(crc, rs, |rs|) == |LogFile(crc, rs)|
  {
    assert rs[..|rs|] == rs;
  }

  /** A log cut anywhere after its header gives exactly the records that are whole, and the
      offset where the torn one begins. */
  lemma TornTail(crc: Crc, rs: seq<Record>, cut: nat)
    requires forall r :: r in rs ==> RecordFits(r)
    requires HEADER_BYTES <= cut <= |LogFile(crc, rs)|
    ensures var n := WholeBefore(crc, rs, cut);
      Parse(crc, LogFile(crc, rs)[..cut])
        == Parsed(rs[..n], if cut == Boundary(crc, rs, n) then None else Some(Boundary(crc, rs, n)))
  {
    hide EncodeRecord, ItemAt, LogFile;
    assert rs[..0] == [];
    assert rs[0..WholeBefore(crc, rs, cut)] == rs[..WholeBefore(crc, rs, cut)];
    ParseCutFrom(crc, rs, cut, 0);
  }

  lemma ParseLogFile(crc: Crc, rs: seq<Record>)
    requires forall r :: r in rs ==> RecordFits(r)
    ensures Parse(crc, LogFile(crc, rs)) == Parsed(rs, None)
  {
    hide EncodeRecord, ItemAt, LogFile, ParseFrom;
    var file := LogFile(crc, rs);
    LastBoundary(crc, rs);
    TornTail(crc, rs, |file|);
    assert file[..|file|] == file && rs[..|rs|] == rs;
  }

  // ---- a log that turned bad, for whatever reason ---------------------------

  /** Items do not depend on what lies behind them. */
  lemma ItemInPrefix(crc: Crc, buf: Bytes, pos: nat, keep: nat)
    requires keep <= |buf| && ItemAt(crc, buf, pos).Item? && ItemAt(crc, buf, pos).next <= keep
    ensures ItemAt(crc, buf[..keep], pos) == ItemAt(crc, buf, pos)
  {
    hide UnpackBE;
    var payloadEnd := pos + RECORD_HEADER + FieldAt(buf, pos + 13, 4);
    var p := buf[..keep];
    assert p[pos + 13..pos + 13 + 4] == buf[pos + 13..pos + 13 + 4];
    assert p[pos..pos + 8] == buf[pos..pos + 8] && p[pos + 9..pos + 9 + 4] == buf[pos + 9..pos + 9 + 4];
    assert p[pos..payloadEnd] == buf[pos..payloadEnd];
    assert p[payloadEnd..payloadEnd + 4] == buf[payloadEnd..payloadEnd + 4];
    assert p[pos + RECORD_HEADER..payloadEnd] == buf[pos + RECORD_HEADER..payloadEnd];
  }

  lemma {:induction false} CutAtBadFrom(crc: Crc, buf: Bytes, pos: nat)
    requires ParseFrom(crc, buf, pos).bad.Some?
    ensures var p := ParseFrom(crc, buf, pos);
      pos <= p.bad.value <= |buf| && ParseFrom(crc, buf[..p.bad.value], pos) == Parsed(p.records, None)
    decreases |buf| - pos
  {
    hide UnpackBE, FieldAt;
    var p := ParseFrom(crc, buf, pos);
    match ItemAt(crc, buf, pos) {
      case Bad =>
      case Item(r, next) =>
        CutAtBadFrom(crc, buf, next);
        ItemInPrefix(crc, buf, pos, p.bad.value);
    }
  }

  /** Cutting any unreadable log at the reported offset leaves a clean log of the same records. */
  lemma CutAtBad(crc: Crc, buf: Bytes)
    requires Parse(crc, buf).bad.Some?
    ensures var p := Parse(crc, buf);
      HEADER_BYTES <= p.bad.value <= |buf| && Parse(crc, buf[..p.bad.value]) == Parsed(p.records, None)
  {
    CutAtBadFrom(crc, buf, HEADER_BYTES);
  }

  lemma {:induction false} ParsedFits(crc: Crc, buf: Bytes, pos: nat)
    ensures forall r :: r in ParseFrom(crc, buf, pos).records ==> RecordFits(r)
    decreases if pos < |buf| then |buf| - pos else 0
  {
    hide UnpackBE;
    Pow256Values();
    match ItemAt(crc, buf, pos) {
      case End =>
      case Bad =>
      case Item(r, next) => ParsedFits(crc, buf, next);
    }
  }

  // ---- nothing but written records is read ----------------------------------

  /** Whatever is read as a record is that record as it is written, CRC included. */
  lemma ItemIsRecord(crc: Crc, buf: Bytes, pos: nat)
    requires ItemAt(crc, buf, pos).Item?
    ensures var i := ItemAt(crc, buf, pos);
      RecordFits(i.record) && i.next == pos + |EncodeRecord(crc, i.record)| && buf[pos..i.next] == EncodeRecord(crc, i.record)
  {
    hide UnpackBE, U64, U32;
    var i := ItemAt(crc, buf, pos);
    var payloadEnd := pos + RECORD_HEADER + FieldAt(buf, pos + 13, 4);
    FieldWritten(buf, pos);
    WordWritten(buf, pos + 9);
    WordWritten(buf, pos + 13);
    WordWritten(buf, payloadEnd);
    assert [buf[pos + 8]] == buf[pos + 8..pos + 9];
    Joined5(buf, pos, pos + 8, pos + 9, pos + 13, pos + RECORD_HEADER, payloadEnd);
    assert buf[pos..payloadEnd] == Body(i.record);
    assert buf[pos..i.next] == buf[pos..payloadEnd] + buf[payloadEnd..i.next];
  }

  lemma FieldWritten(buf: Bytes, off: nat)
    requires off + 8 <= |buf|
    ensures FieldAt(buf, off, 8) < U64_LIMIT && U64(FieldAt(buf, off, 8)) == buf[off..off + 8]
  {
    Pow256Values();
    UnpackPack(buf[off..off + 8]);
  }

  lemma WordWritten(buf: Bytes, off: nat)
    requires off + 4 <= |buf|
    ensures FieldAt(buf, off, 4) < U32_LIMIT && U32(FieldAt(buf, off, 4)) == buf[off..off + 4]
  {
    Pow256Values();
    UnpackPack(buf[off..off + 4]);
  }

  lemma Joined5(buf: Bytes, a: nat, b: nat, c: nat, d: nat, e: nat, f: nat)
    requires a <= b <= c <= d <= e <= f <= |buf|
    ensures buf[a..f] == buf[a..b] + buf[b..c] + buf[c..d] + buf[d..e] + buf[e..f]
  {
    assert buf[a..c] == buf[a..b] + buf[b..c];
    assert buf[a..d] == buf[a..c] + buf[c..d];
    assert buf[a..e] == buf[a..d] + buf[d..e];
    assert buf[a..f] == buf[a..e] + buf[e..f];
  }

  /** No record begins there. */
  ghost predicate StartsNoRecord(crc: Crc, tail: Bytes) {
    forall r: Record :: RecordFits(r) ==> !(EncodeRecord(crc, r) <= tail)
  }

  lemma BadStartsNone(crc: Crc, buf: Bytes, pos: nat)
    requires pos < |buf|
    ensures ItemAt(crc, buf, pos) == Bad <==> StartsNoRecord(crc, buf[pos..])
  {
    hide EncodeRecord, ItemAt;
    var item := ItemAt(crc, buf, pos);
    if item.Item? {
      ItemIsRecord(crc, buf, pos);
      assert buf[pos..item.next] <= buf[pos..];
    }
    if r: Record :| RecordFits(r) && EncodeRecord(crc, r) <= buf[pos..] {
      var n := |EncodeRecord(crc, r)|;
      assert buf[pos..pos + n] == buf[pos..][..n];
      ItemOfRecord(crc, buf, pos, r);
    }
    NotAtEnd(crc, buf, pos);
  }

  lemma NotAtEnd(crc: Crc, buf: Bytes, pos: nat)
    requires pos < |buf|
    ensures !ItemAt(crc, buf, pos).End?
  {
  }

  /** From `pos` the file is these records, as written, and then ends, or goes on with no record. */
  ghost predicate ReadsFrom(crc: Crc, buf: Bytes, pos: nat, p: Parsed) {
    && (forall r :: r in p.records ==> RecordFits(r))
    && var end := if p.bad.Some? then p.bad.value else |buf|;
       && pos <= end <= |buf| && buf[pos..end] == EncodeAll(crc, p.records)
       && (p.bad.Some? ==> end < |buf| && StartsNoRecord(crc, buf[end..]))
  }

  lemma {:induction false} EncodeFirst(crc: Crc, r: Record, rs: seq<Record>)
    ensures EncodeAll(crc, [r] + rs) == EncodeRecord(crc, r) + EncodeAll(crc, rs)
  {
    hide EncodeRecord;
    var k := |rs|;
    if k == 0 {
      assert ([r] + rs)[..0] == [];
      assert [r] + rs == [r];
    } else {
      assert ([r] + rs)[..k] == [r] + rs[..k - 1];
      EncodeFirst(crc, r, rs[..k - 1]);
    }
  }

  lemma {:induction false} ParseReads(crc: Crc, buf: Bytes, pos: nat)
    requires pos <= |buf|
    ensures ReadsFrom(crc, buf, pos, ParseFrom(crc, buf, pos))
    decreases |buf| - pos
  {
    hide EncodeRecord, ItemAt, StartsNoRecord;
    var p, item := ParseFrom(crc, buf, pos), ItemAt(crc, buf, pos);
    if pos < |buf| {
      BadStartsNone(crc, buf, pos);
      NotAtEnd(crc, buf, pos);
      if item.Item? {
        ItemIsRecord(crc, buf, pos);
        ParseReads(crc, buf, item.next);
        var rest := ParseFrom(crc, buf, item.next);
        EncodeFirst(crc, item.record, rest.records);
        var end := if p.bad.Some? then p.bad.value else |buf|;
        assert buf[pos..end] == buf[pos..item.next] + buf[item.next..end];
      }
    } else {
      EndIsEnd(crc, buf, pos);
    }
  }

  lemma EndIsEnd(crc: Crc, buf: Bytes, pos: nat)
    requires pos >= |buf|
    ensures ItemAt(crc, buf, pos) == End
  {
  }

  lemma NothingEncoded(crc: Crc)
    ensures EncodeAll(crc, []) == []
  {
  }

  /** There is only one way to read a file. */
  lemma {:induction false} ReadsIsParse(crc: Crc, buf: Bytes, pos: nat, p: Parsed)
    requires ReadsFrom(crc, buf, pos, p)
    ensures p == ParseFrom(crc, buf, pos)
    decreases |p.records|
  {
    hide EncodeRecord, ItemAt, StartsNoRecord, EncodeAll;
    var end := if p.bad.Some? then p.bad.value else |buf|;
    if p.records == [] {
      NothingEncoded(crc);
      assert pos == end;
      if end < |buf| {
        BadStartsNone(crc, buf, pos);
      } else {
        EndIsEnd(crc, buf, pos);
      }
    } else {
      var r, rest := p.records[0], p.records[1..];
      var e := EncodeRecord(crc, r);
      assert p.records == [r] + rest;
      EncodeFirst(crc, r, rest);
      assert buf[pos..end] == e + EncodeAll(crc, rest);
      assert buf[pos..pos + |e|] == buf[pos..end][..|e|] == e;
      assert buf[pos + |e|..end] == buf[pos..end][|e|..] == EncodeAll(crc, rest);
      ItemOfRecord(crc, buf, pos, r);
      ReadsIsParse(crc, buf, pos + |e|, Parsed(rest, p.bad));
    }
  }

  /** What a log file holds, without a reader: the bytes behind the header are these records, each
      as `EncodeRecord` writes it; behind them is the end of the file, or no record. */
  ghost predicate Reads(crc: Crc, buf: Bytes, records: seq<Record>, bad: Option<nat>) {
    ReadsFrom(crc, buf, HEADER_BYTES, Parsed(records, bad))
  }

  lemma ReadsOne(crc: Crc, buf: Bytes, records: seq<Record>, bad: Option<nat>)
    requires HEADER_BYTES <= |buf|
    ensures Reads(crc, buf, records, bad) <==> Parse(crc, buf) == Parsed(records, bad)
  {
    hide EncodeRecord, ItemAt, StartsNoRecord, ParseFrom, ReadsFrom;
    ParseReads(crc, buf, HEADER_BYTES);
    if Reads(crc, buf, records, bad) {
      ReadsIsParse(crc, buf, HEADER_BYTES, Parsed(records, bad));
    }
  }

  /** A record whose stored CRC is not that of its body. */
  lemma ItemOfDamaged(crc: Crc, buf: Bytes, pos: nat, r: Record, stored: Word)
    requires RecordFits(r) && stored != crc(Body(r)) && pos + |Body(r)| + CRC_SIZE <= |buf|
    requires buf[pos..pos + |Body(r)|] == Body(r) && buf[pos + |Body(r)|..pos + |Body(r)| + CRC_SIZE] == U32(stored)
    ensures ItemAt(crc, buf, pos) == Bad
  {
    hide UnpackBE, U32, Body;
    var b, n := Body(r), |Body(r)|;
    BodyFields(r);
    SubSlice(buf, pos, n, 13, 17);
    assert FieldAt(buf, pos + 13, 4) == FieldAt(b, 13, 4);
    assert UnpackBE(U32(stored)) == stored;
  }

  /** It is reported at its own offset, with the records before it, whatever follows. */
  lemma DamageIsReported(crc: Crc, rs: seq<Record>, r: Record, stored: Word, tail: Bytes)
    requires RecordFits(r) && stored != crc(Body(r)) && forall x :: x in rs ==> RecordFits(x)
    ensures Parse(crc, LogFile(crc, rs) + Body(r) + U32(stored) + tail) == Parsed(rs, Some(|LogFile(crc, rs)|))
  {
    hide UnpackBE, U32, Body, ItemAt, EncodeRecord, ParseFrom, StartsNoRecord, FileHeader;
    var file := LogFile(crc, rs);
    var buf, pos, n := file + Body(r) + U32(stored) + tail, |file|, |Body(r)|;
    assert buf[pos..pos + n] == Body(r);
    assert buf[pos + n..pos + n + CRC_SIZE] == U32(stored);
    ItemOfDamaged(crc, buf, pos, r, stored);
    BadStartsNone(crc, buf, pos);
    assert buf[HEADER_BYTES..pos] == file[HEADER_BYTES..] == EncodeAll(crc, rs);
    ReadsOne(crc, buf, rs, Some(pos));
  }

  // ---- the log object -------------------------------------------------------

  function AtLeast(rs: seq<Record>, txn: nat): seq<Record> {
    if rs == [] then []
    else AtLeast(rs[..|rs| - 1], txn) + if rs[|rs| - 1].txn >= txn then [rs[|rs| - 1]] else []
  }

  /** Exactly the records of transactions from `txn` on, in log order. */
  lemma {:induction false} AtLeastAre(rs: seq<Record>, txn: nat) returns (at: seq<nat>)
    ensures |at| == |AtLeast(rs, txn)| && forall i :: 0 <= i < |at| ==> at[i] < |rs| && AtLeast(rs, txn)[i] == rs[at[i]]
    ensures forall i, j :: 0 <= i < j < |at| ==> at[i] < at[j]
    ensures forall k: nat :: k in at <==> k < |rs| && rs[k].txn >= txn
  {
    at := [];
    if rs != [] {
      var k := |rs| - 1;
      var before := AtLeastAre(rs[..k], txn);
      assert forall i :: 0 <= i < |before| ==> before[i] in before;
      at := before + if rs[k].txn >= txn then [k] else [];
      forall p: nat ensures p in at <==> p < |rs| && rs[p].txn >= txn {
        assert p < k ==> rs[..k][p] == rs[p];
      }
    }
  }

  class Wal {
    const crc: Crc
    var buf: Bytes

    constructor (crc: Crc)
      ensures this.crc == crc && buf == LogFile(crc, [])
    {
      this.crc := crc;
      buf := FileHeader();
    }

    method Append(r: Record)
      requires RecordFits(r)
      modifies this
      ensures buf == old(buf) + EncodeRecord(crc, r)
      ensures forall rs :: old(buf) == LogFile(crc, rs) ==> buf == LogFile(crc, rs + [r])
    {
      hide EncodeRecord;
      buf := buf + EncodeRecord(crc, r);
      forall rs | old(buf) == LogFile(crc, rs) ensures buf == LogFile(crc, rs + [r]) {
        assert (rs + [r])[..|rs|] == rs;
      }
    }

    /** Exactly the records the file is made of, as written, and the offset behind them if anything
        else follows. */
    method IterRecords() returns (records: seq<Record>, bad: Option<nat>)
      ensures Parsed(records, bad) == Parse(crc, buf)
      ensures HEADER_BYTES <= |buf| ==> Reads(crc, buf, records, bad)
    {
      hide ItemAt, ReadsFrom;
      if HEADER_BYTES <= |buf| {
        ParseReads(crc, buf, HEADER_BYTES);
      }
      records, bad := [], None;
      var pos: nat := HEADER_BYTES;
      ghost var all := Parse(crc, buf);
      assert [] + all.records == all.records;
      while pos < |buf|
        invariant all == Parsed(records + ParseFrom(crc, buf, pos).records, ParseFrom(crc, buf, pos).bad)
        decreases if pos < |buf| then |buf| - pos else 0
      {
        var item := ReadItem(pos);
        if item.Bad? {
          assert records + [] == records;
          return records, Some(pos);
        }
        ghost var rest := ParseFrom(crc, buf, item.next).records;
        assert records + ([item.record] + rest) == (records + [item.record]) + rest;
        records := records + [item.record];
        pos := item.next;
      }
      NothingBehind(crc, buf, pos);
      assert records + [] == records;
    }

    static lemma NothingBehind(crc: Crc, buf: Bytes, pos: nat)
      requires pos >= |buf|
      ensures ParseFrom(crc, buf, pos) == Parsed([], None)
    {
    }

    method ReadItem(pos: nat) returns (item: Item)
      requires pos < |buf|
      ensures item == ItemAt(crc, buf, pos) && !item.End?
    {
      hide UnpackBE;
      if |buf| - pos < RECORD_HEADER + CRC_SIZE {
        return Bad;
      }
      var payloadEnd := pos + RECORD_HEADER + FieldAt(buf, pos + 13, 4);
      if payloadEnd + CRC_SIZE > |buf| {
        return Bad;
      }
      if FieldAt(buf, payloadEnd, 4) != crc(buf[pos..payloadEnd]) {
        return Bad;
      }
      return Item(Record(FieldAt(buf, pos, 8), buf[pos + 8], FieldAt(buf, pos + 9, 4), buf[pos + RECORD_HEADER..payloadEnd]),
                  payloadEnd + CRC_SIZE);
    }

    /** Rewrite the log with the records of transactions `txn` and later; a log that cannot
        be read is left alone (`false`, the WalCorruption). */
    method TruncateBefore(txn: nat) returns (ok: bool)
      modifies this
      ensures ok <==> Parse(crc, old(buf)).bad.None?
      ensures buf == if ok then LogFile(crc, AtLeast(Parse(crc, old(buf)).records, txn)) else old(buf)
    {
      hide EncodeRecord, ItemAt, ParseFrom;
      var records, bad := IterRecords();
      if bad.Some? {
        return false;
      }
      var out := FileHeader();
      ghost var kept := [];
      assert LogFile(crc, kept) == FileHeader();
      for i := 0 to |records|
        invariant kept == AtLeast(records[..i], txn) && out == LogFile(crc, kept)
      {
        assert records[..i + 1][..i] == records[..i];
        if records[i].txn >= txn {
          assert (kept + [records[i]])[..|kept|] == kept;
          out := out + EncodeRecord(crc, records[i]);
          kept := kept + [records[i]];
        }
      }
      assert records[..|records|] == records;
      buf := out;
      return true;
    }

    /** `_truncate_wal_to`: drop the torn tail. */
    method TruncateTo(offset: nat)
      requires offset <= |buf| && HEADER_BYTES <= |buf|
      modifies this
      ensures buf == old(buf)[..if offset < HEADER_BYTES then HEADER_BYTES else offset]
      ensures Parse(crc, old(buf)).bad == Some(offset) ==> Parse(crc, buf) == Parsed(Parse(crc, old(buf)).records, None)
    {
      hide ParseFrom;
      if Parse(crc, buf).bad == Some(offset) {
        CutAtBad(crc, buf);
      }
      buf := buf[..if offset < HEADER_BYTES then HEADER_BYTES else offset];
    }
  }
}
