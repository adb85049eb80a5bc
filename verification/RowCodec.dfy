/** Rows as bytes: a null bitmap, least significant bit first, then the values
    (src/tinydb/row_codec.py, src/tinydb/type_system.py). Text stands as its UTF-8 bytes. */
module RowCodec {
  import opened ByteStrings
  import opened Wrappers

  datatype ColumnType =
    | IntType(width: nat)           // 2, 4 or 8: SMALLINT, INT, BIGINT
    | BoolType
    | TextType
    | VarcharType(max: nat)
    | CharType(max: nat)
    | DateType
    | TimeType

  datatype Datum =
    | IntValue(i: int)
    | BoolValue(b: bool)
    | TextValue(utf8: Bytes)
    | DateValue(days: int)          // since 1970-01-01
    | TimeValue(hour: nat, minute: nat, second: nat, micro: nat)

  /** NULL is `None`. */
  type Row = seq<Option<Datum>>

  /** Python's `date` runs from 0001-01-01 to 9999-12-31, `time` within one day. */
  const MIN_DAY: int := -719162
  const MAX_DAY: int := 2932896

  predicate DatumOk(v: Datum) {
    match v
    case DateValue(d) => MIN_DAY <= d <= MAX_DAY
    case TimeValue(h, m, s, us) => h < 24 && m < 60 && s < 60 && us < 1_000_000
    case _ => true
  }

  // ---- one value ------------------------------------------------------------

  predicate FitsSigned(i: int, w: nat) {
    2 * i + Pow256(w) >= 0 && 2 * i < Pow256(w)
  }

  /** Two's complement in `w` bytes. */
  function Signed(i: int, w: nat): nat
    requires i + Pow256(w) >= 0
  {
    if i < 0 then i + Pow256(w) else i
  }

  function Unsigned(n: nat, w: nat): int {
    if 2 * n < Pow256(w) then n else n - Pow256(w)
  }

  function Spaces(n: nat): (b: Bytes)
    ensures |b| == n
  {
    seq(n, _ => 32)
  }

  /** The bytes of a value; `None` is the CodecError or struct.error. */
  function Encode(t: ColumnType, v: Datum): Option<Bytes> {
    match (t, v)
    case (IntType(w), IntValue(i)) =>
      if FitsSigned(i, w) then Some(PackBE(Signed(i, w), w)) else None
    case (BoolType, BoolValue(b)) => Some([if b then 1 else 0])
    case (TextType, TextValue(s)) => if |s| < U16_LIMIT then Some(U16(|s|) + s) else None
    case (VarcharType(max), TextValue(s)) => if |s| <= max && |s| < U16_LIMIT then Some(U16(|s|) + s) else None
    case (CharType(max), TextValue(s)) =>
      if |s| <= max < U16_LIMIT then Some(U16(max) + (s + Spaces(max - |s|))) else None
    case (DateType, DateValue(d)) => if FitsSigned(d, 4) then Some(PackBE(Signed(d, 4), 4)) else None
    case (TimeType, TimeValue(h, m, s, _)) => Some(U32(h * 3600 + m * 60 + s))
    case _ => None
  }

  function DecodeText(buf: Bytes, off: nat, max: Option<nat>): Option<(Datum, nat)> {
    if off + 2 > |buf| then None else
      var n := FieldAt(buf, off, 2);
      if off + 2 + n > |buf| || (max.Some? && n > max.value) then None
      else Some((TextValue(buf[off + 2..off + 2 + n]), off + 2 + n))
  }

  /** The value at `off` and where the next one begins; `None` is the ValueError. */
  function Decode(t: ColumnType, buf: Bytes, off: nat): Option<(Datum, nat)> {
    match t
    case IntType(w) =>
      if off + w > |buf| then None else Some((IntValue(Unsigned(FieldAt(buf, off, w), w)), off + w))
    case BoolType => if off + 1 > |buf| then None else Some((BoolValue(buf[off] != 0), off + 1))
    case TextType => DecodeText(buf, off, None)
    case VarcharType(max) => DecodeText(buf, off, Some(max))
    case CharType(max) => DecodeText(buf, off, Some(max))
    case DateType =>
      if off + 4 > |buf| then None else
        var d := Unsigned(FieldAt(buf, off, 4), 4);
        if MIN_DAY <= d <= MAX_DAY then Some((DateValue(d), off + 4)) else None
    case TimeType =>
      if off + 4 > |buf| then None else
        var s := FieldAt(buf, off, 4);
        if s >= 86400 then None else Some((TimeValue(s / 3600, s % 3600 / 60, s % 60, 0), off + 4))
  }

  /** What comes back: CHAR is padded to its length, TIME loses its fraction. */
  function Canonical(t: ColumnType, v: Datum): Datum {
    match (t, v)
    case (CharType(max), TextValue(s)) => if |s| <= max then TextValue(s + Spaces(max - |s|)) else v
    case (TimeType, TimeValue(h, m, s, _)) => TimeValue(h, m, s, 0)
    case _ => v
  }

  lemma SignedRoundTrip(i: int, w: nat)
    requires FitsSigned(i, w)
    ensures Signed(i, w) < Pow256(w) && Unsigned(Signed(i, w), w) == i
  {
  }

  lemma TimeParts(h: nat, m: nat, s: nat)
    requires h < 24 && m < 60 && s < 60
    ensures var n := h * 3600 + m * 60 + s;
      n < 86400 && n / 3600 == h && n % 3600 / 60 == m && n % 60 == s
  {
    var n, r := h * 3600 + m * 60 + s, m * 60 + s;
    assert n / 3600 == h && n % 3600 == r;
    assert n % 60 == s by { assert n == 60 * (h * 60 + m) + s; }
  }

  lemma TextRoundTrip(text: Bytes, max: Option<nat>, buf: Bytes, off: nat)
    requires |text| < U16_LIMIT && (max.Some? ==> |text| <= max.value)
    requires off + 2 + |text| <= |buf| && buf[off..off + 2 + |text|] == U16(|text|) + text
    ensures DecodeText(buf, off, max) == Some((TextValue(text), off + 2 + |text|))
  {
    hide UnpackBE, U16;
    var e := U16(|text|) + text;
    SubSlice(buf, off, 2 + |text|, 0, 2);
    SubSlice(buf, off, 2 + |text|, 2, 2 + |text|);
    assert e[0..2] == U16(|text|) && e[2..2 + |text|] == text;
  }

  lemma NumberRoundTrip(n: nat, w: nat, buf: Bytes, off: nat)
    requires n < Pow256(w) && off + w <= |buf| && buf[off..off + w] == PackBE(n, w)
    ensures FieldAt(buf, off, w) == n
  {
  }

  /** A value written at `off` is read back whatever surrounds it. */
  lemma DecodesBack(t: ColumnType, v: Datum, buf: Bytes, off: nat)
    requires DatumOk(v) && Encode(t, v).Some?
    requires off + |Encode(t, v).value| <= |buf| && buf[off..off + |Encode(t, v).value|] == Encode(t, v).value
    ensures Decode(t, buf, off) == Some((Canonical(t, v), off + |Encode(t, v).value|))
  {
    hide UnpackBE, U16, U32, PackBE, DecodeText, FieldAt, Pow256, Signed, Unsigned;
    match (t, v)
    case (IntType(w), IntValue(i)) =>
      SignedRoundTrip(i, w);
      NumberRoundTrip(Signed(i, w), w, buf, off);
    case (BoolType, BoolValue(b)) => assert buf[off] == buf[off..off + 1][0];
    case (TextType, TextValue(s)) => TextRoundTrip(s, None, buf, off);
    case (VarcharType(max), TextValue(s)) => TextRoundTrip(s, Some(max), buf, off);
    case (CharType(max), TextValue(s)) => TextRoundTrip(s + Spaces(max - |s|), Some(max), buf, off);
    case (DateType, DateValue(d)) =>
      SignedRoundTrip(d, 4);
      NumberRoundTrip(Signed(d, 4), 4, buf, off);
    case (TimeType, TimeValue(h, m, s, us)) =>
      TimeParts(h, m, s);
      U32RoundTrip(h * 3600 + m * 60 + s, buf, off);
  }

  lemma U32RoundTrip(n: nat, buf: Bytes, off: nat)
    requires n < U32_LIMIT && off + 4 <= |buf| && buf[off..off + 4] == U32(n)
    ensures FieldAt(buf, off, 4) == n
  {
  }

  // ---- bits -----------------------------------------------------------------

  function Bit(b: nat, k: nat): bool {
    if k == 0 then b % 2 == 1 else Bit(b / 2, k - 1)
  }

  function Pow2(k: nat): (r: nat)
    ensures r >= 1
  {
    if k == 0 then 1 else 2 * Pow2(k - 1)
  }

  /** `b | 1 << k`. */
  function SetBit(b: nat, k: nat): nat {
    if k == 0 then (if b % 2 == 1 then b else b + 1) else 2 * SetBit(b / 2, k - 1) + b % 2
  }

  lemma {:induction false} SetBitFits(b: nat, k: nat, n: nat)
    requires k < n && b < Pow2(n)
    ensures SetBit(b, k) < Pow2(n)
  {
    var h := b / 2;
    assert b == 2 * h + b % 2 && Pow2(n) == 2 * Pow2(n - 1) && h < Pow2(n - 1);
    if k > 0 {
      SetBitFits(h, k - 1, n - 1);
      assert SetBit(b, k) == 2 * SetBit(h, k - 1) + b % 2;
    }
  }

  lemma {:induction false} SetBitSets(b: nat, k: nat, j: nat)
    ensures Bit(SetBit(b, k), j) <==> j == k || Bit(b, j)
  {
    if k > 0 && j > 0 {
      SetBitSets(b / 2, k - 1, j - 1);
    }
  }

  lemma {:induction false} NoBits(k: nat)
    ensures !Bit(0, k)
  {
    if k > 0 {
      NoBits(k - 1);
    }
  }

  /** Bit `k` has the weight 2^k. */
  lemma {:induction false} BitMeans(b: nat, k: nat)
    ensures Bit(b, k) <==> (b / Pow2(k)) % 2 == 1
  {
    if k > 0 {
      BitMeans(b / 2, k - 1);
      HalvedTwice(b, Pow2(k - 1));
    }
  }

  lemma HalvedTwice(b: nat, p: nat)
    requires p > 0
    ensures b / (2 * p) == (b / 2) / p
  {
    var q, r := (b / 2) / p, (b / 2) % p;
    assert b / 2 == q * p + r;
    var low := 2 * r + b % 2;
    assert b == q * (2 * p) + low && 0 <= low < 2 * p;
    QuotientIs(b, 2 * p, q, low);
  }

  lemma QuotientIs(b: nat, d: nat, q: nat, low: nat)
    requires d > 0 && b == q * d + low && low < d
    ensures b / d == q
  {
    var other, rest := b / d, b % d;
    assert b == other * d + rest && rest < d;
    AtLeastOne(q - other, d);
    AtLeastOne(other - q, d);
  }

  lemma AtLeastOne(k: int, d: nat)
    ensures k >= 1 ==> k * d >= d
  {
  }

  function BitmapLength(n: nat): nat {
    (n + 7) / 8
  }

  predicate NullBit(bitmap: Bytes, i: nat)
    requires i / 8 < |bitmap|
  {
    Bit(bitmap[i / 8], i % 8)
  }

  /** Column `i` is the bit of weight 2^(i mod 8) in byte i div 8. */
  lemma NullBitMeans(bitmap: Bytes, i: nat)
    requires i / 8 < |bitmap|
    ensures NullBit(bitmap, i) <==> (bitmap[i / 8] / Pow2(i % 8)) % 2 == 1
  {
    BitMeans(bitmap[i / 8], i % 8);
  }

  /** The bit of each of the first `n` columns is set if its value is NULL; no other bit is. */
  ghost predicate IsBitmap(bitmap: Bytes, values: Row, n: nat)
    requires n <= |values|
  {
    && |bitmap| == BitmapLength(|values|)
    && forall i: nat :: i < 8 * |bitmap| ==> (NullBit(bitmap, i) <==> i < n && values[i].None?)
  }

  // ---- rows -----------------------------------------------------------------

  function Payload(values: Row, schema: seq<ColumnType>): Option<Bytes>
    requires |values| == |schema|
  {
    if values == [] then Some([]) else
      var k := |values| - 1;
      var rest := Payload(values[..k], schema[..k]);
      if rest.None? then None
      else if values[k].None? then rest
      else match Encode(schema[k], values[k].value)
        case None => None
        case Some(b) => Some(rest.value + b)
  }

  /** A row image: bitmap, then the values that are not NULL. */
  ghost predicate IsRow(b: Bytes, values: Row, schema: seq<ColumnType>) {
    && |values| == |schema| && BitmapLength(|schema|) <= |b|
    && IsBitmap(b[..BitmapLength(|schema|)], values, |values|)
    && Payload(values, schema) == Some(b[BitmapLength(|schema|)..])
  }

  lemma OneMoreBit(bitmap: Bytes, values: Row, n: nat)
    requires n < |values| && IsBitmap(bitmap, values, n) && n / 8 < |bitmap|
    ensures SetBit(bitmap[n / 8], n % 8) < 256
    ensures var after := if values[n].None? then bitmap[n / 8 := SetBit(bitmap[n / 8], n % 8)] else bitmap;
      IsBitmap(after, values, n + 1)
  {
    var byte := n / 8;
    assert Pow2(8) == 256 by { EightBits(); }
    SetBitFits(bitmap[byte], n % 8, 8);
    var marked := SetBit(bitmap[byte], n % 8);
    var after: Bytes := if values[n].None? then bitmap[byte := marked] else bitmap;
    forall i: nat | i < 8 * |bitmap| ensures NullBit(after, i) <==> i < n + 1 && values[i].None? {
      assert NullBit(bitmap, i) <==> i < n && values[i].None?;
      if i / 8 == byte {
        SetBitSets(bitmap[byte], n % 8, i % 8);
        assert i % 8 == n % 8 <==> i == n;
      }
    }
  }

  lemma EightBits()
    ensures Pow2(8) == 256
  {
    assert Pow2(4) == 16 && Pow2(6) == 64;
  }

  lemma EmptyBitmap(values: Row)
    ensures IsBitmap(Zeros(BitmapLength(|values|)), values, 0)
  {
    forall k: nat ensures !Bit(0, k) {
      NoBits(k);
    }
  }

  lemma PayloadStep(values: Row, schema: seq<ColumnType>, i: nat)
    requires |values| == |schema| && i < |values|
    ensures var before := Payload(values[..i], schema[..i]);
      Payload(values[..i + 1], schema[..i + 1]) ==
        if before.None? then None
        else if values[i].None? then before
        else if Encode(schema[i], values[i].value).None? then None
        else Some(before.value + Encode(schema[i], values[i].value).value)
  {
    hide Encode;
    assert values[..i + 1][..i] == values[..i] && schema[..i + 1][..i] == schema[..i];
  }

  lemma {:induction false} PayloadStops(values: Row, schema: seq<ColumnType>, i: nat)
    requires |values| == |schema| && i <= |values| && Payload(values[..i], schema[..i]).None?
    ensures Payload(values, schema).None?
    decreases |values| - i
  {
    hide Encode;
    if i == |values| {
      assert values[..i] == values && schema[..i] == schema;
    } else {
      PayloadStep(values, schema, i);
      PayloadStops(values, schema, i + 1);
    }
  }

  /** The bitmap of the first `n` values. */
  function BitmapOf(values: Row, n: nat): (b: Bytes)
    requires n <= |values|
    ensures IsBitmap(b, values, n)
  {
    if n == 0 then
      EmptyBitmap(values);
      Zeros(BitmapLength(|values|))
    else
      var before := BitmapOf(values, n - 1);
      OneMoreBit(before, values, n - 1);
      if values[n - 1].None? then before[(n - 1) / 8 := SetBit(before[(n - 1) / 8], (n - 1) % 8)] else before
  }

  /** The bytes of a row; `None` when the lengths differ or a value does not encode. */
  function RowImage(values: Row, schema: seq<ColumnType>): (r: Option<Bytes>)
    ensures r.None? <==> |values| != |schema| || Payload(values, schema).None?
    ensures r.Some? ==> IsRow(r.value, values, schema)
  {
    if |values| != |schema| then None else
      var payload := Payload(values, schema);
      if payload.None? then None else
        var bitmap := BitmapOf(values, |values|);
        assert (bitmap + payload.value)[..|bitmap|] == bitmap && (bitmap + payload.value)[|bitmap|..] == payload.value;
        Some(bitmap + payload.value)
  }

  /** `encode_row`. */
  method EncodeRow(values: Row, schema: seq<ColumnType>) returns (r: Option<Bytes>)
    ensures r == RowImage(values, schema)
    ensures r.None? <==> |values| != |schema| || Payload(values, schema).None?
    ensures r.Some? ==> IsRow(r.value, values, schema)
  {
    hide Encode, Payload, IsBitmap, SetBit;
    if |values| != |schema| {
      return None;
    }
    var bitmap := Zeros(BitmapLength(|schema|));
    var parts: Bytes := [];
    NoPayload(values, schema);
    for i := 0 to |values|
      invariant bitmap == BitmapOf(values, i) && |bitmap| == BitmapLength(|values|)
      invariant Payload(values[..i], schema[..i]) == Some(parts)
    {
      OneMoreBit(bitmap, values, i);
      PayloadStep(values, schema, i);
      match values[i]
      case None => bitmap := bitmap[i / 8 := SetBit(bitmap[i / 8], i % 8)];
      case Some(v) =>
        var b := Encode(schema[i], v);
        if b.None? {
          PayloadStops(values, schema, i + 1);
          return None;
        }
        parts := parts + b.value;
    }
    assert values[..|values|] == values && schema[..|schema|] == schema;
    r := Some(bitmap + parts);
  }

  lemma NoPayload(values: Row, schema: seq<ColumnType>)
    requires |values| == |schema|
    ensures Payload(values[..0], schema[..0]) == Some([])
  {
  }

  /** Where decoding stands after `i` columns. */
  function DecodeSome(buf: Bytes, schema: seq<ColumnType>, i: nat): (r: Option<(Row, nat)>)
    requires i <= |schema| && BitmapLength(|schema|) <= |buf|
  {
    if i == 0 then Some(([], BitmapLength(|schema|))) else
      var before := DecodeSome(buf, schema, i - 1);
      if before.None? then None
      else if NullBit(buf, i - 1) then Some((before.value.0 + [None], before.value.1))
      else match Decode(schema[i - 1], buf, before.value.1)
        case None => None
        case Some((v, next)) => Some((before.value.0 + [Some(v)], next))
  }

  lemma {:induction false} DecodeStops(buf: Bytes, schema: seq<ColumnType>, i: nat, n: nat)
    requires i <= n <= |schema| && BitmapLength(|schema|) <= |buf| && DecodeSome(buf, schema, i).None?
    ensures DecodeSome(buf, schema, n).None?
  {
    hide Decode;
    if i < n {
      DecodeStops(buf, schema, i, n - 1);
    }
  }

  /** `decode_row`; `None` is the ValueError. Also where it stopped reading. */
  method DecodeRow(buf: Bytes, schema: seq<ColumnType>) returns (r: Option<(Row, nat)>)
    ensures r == if BitmapLength(|schema|) > |buf| then None else DecodeSome(buf, schema, |schema|)
  {
    hide Decode;
    var length := BitmapLength(|schema|);
    if |buf| < length {
      return None;
    }
    var bitmap := buf[..length];
    var out: Row := [];
    var off := length;
    for i := 0 to |schema|
      invariant DecodeSome(buf, schema, i) == Some((out, off))
    {
      if NullBit(bitmap, i) {
        out := out + [None];
      } else {
        match Decode(schema[i], buf, off)
        case None =>
          DecodeStops(buf, schema, i + 1, |schema|);
          return None;
        case Some((v, next)) => out, off := out + [Some(v)], next;
      }
    }
    return Some((out, off));
  }

  function CanonicalRow(values: Row, schema: seq<ColumnType>): (r: Row)
    requires |values| == |schema|
    ensures |r| == |values|
  {
    seq(|values|, i requires 0 <= i < |values| =>
      if values[i].None? then None else Some(Canonical(schema[i], values[i].value)))
  }

  predicate RowOk(values: Row) {
    forall i :: 0 <= i < |values| && values[i].Some? ==> DatumOk(values[i].value)
  }

  lemma {:induction false} PayloadPrefix(values: Row, schema: seq<ColumnType>, i: nat)
    requires |values| == |schema| && i <= |values| && Payload(values, schema).Some?
    ensures Payload(values[..i], schema[..i]).Some?
    ensures Payload(values[..i], schema[..i]).value <= Payload(values, schema).value
    decreases |values| - i
  {
    hide Encode;
    if i == |values| {
      assert values[..i] == values && schema[..i] == schema;
    } else {
      PayloadPrefix(values, schema, i + 1);
      PayloadStep(values, schema, i);
    }
  }

  /** Decoding the image of a row, whatever follows it, reads exactly the image and gives the
      row back, CHAR padded and TIME in whole seconds. */
  lemma {:induction false} RowRoundTrip(b: Bytes, tail: Bytes, values: Row, schema: seq<ColumnType>, i: nat)
    requires IsRow(b, values, schema) && RowOk(values) && i <= |values|
    ensures Payload(values[..i], schema[..i]).Some?
    ensures DecodeSome(b + tail, schema, i) ==
            Some((CanonicalRow(values, schema)[..i], BitmapLength(|schema|) + |Payload(values[..i], schema[..i]).value|))
  {
    hide Encode, Decode, Payload, IsBitmap, NullBit, Canonical;
    var start := BitmapLength(|schema|);
    PayloadPrefix(values, schema, i);
    if i == 0 {
      NoPayload(values, schema);
    } else {
      var k := i - 1;
      RowRoundTrip(b, tail, values, schema, k);
      PayloadStep(values, schema, k);
      SameBit(b, tail, values, k);
      var canonical := CanonicalRow(values, schema);
      assert canonical[..i] == canonical[..k] + [canonical[k]];
      if values[k].Some? {
        ValueInRow(b, tail, values, schema, k);
      }
    }
  }

  lemma SameBit(b: Bytes, tail: Bytes, values: Row, k: nat)
    requires k < |values| && BitmapLength(|values|) <= |b| && IsBitmap(b[..BitmapLength(|values|)], values, |values|)
    ensures NullBit(b + tail, k) <==> values[k].None?
  {
    hide Bit;
    var length := BitmapLength(|values|);
    assert k < 8 * length;
    assert (b + tail)[k / 8] == b[..length][k / 8];
    assert NullBit(b[..length], k) <==> values[k].None?;
  }

  lemma ValueInRow(b: Bytes, tail: Bytes, values: Row, schema: seq<ColumnType>, k: nat)
    requires IsRow(b, values, schema) && RowOk(values) && k < |values| && values[k].Some?
    requires Payload(values[..k], schema[..k]).Some? && Encode(schema[k], values[k].value).Some?
    ensures var e := Encode(schema[k], values[k].value).value;
      var off := BitmapLength(|schema|) + |Payload(values[..k], schema[..k]).value|;
      Decode(schema[k], b + tail, off) == Some((Canonical(schema[k], values[k].value), off + |e|))
  {
    hide Encode, Decode, Payload, IsBitmap, Canonical;
    var start := BitmapLength(|schema|);
    var e, before := Encode(schema[k], values[k].value).value, Payload(values[..k], schema[..k]).value;
    PayloadStep(values, schema, k);
    PayloadPrefix(values, schema, k + 1);
    var off := start + |before|;
    InsidePayload(b, tail, start, before, e);
    DecodesBack(schema[k], values[k].value, b + tail, off);
  }

  lemma InsidePayload(b: Bytes, tail: Bytes, start: nat, before: Bytes, e: Bytes)
    requires start <= |b| && before + e <= b[start..]
    ensures var off := start + |before|; off + |e| <= |b + tail| && (b + tail)[off..off + |e|] == e
  {
    var off := start + |before|;
    var rest := b[start..];
    assert rest[..|before| + |e|] == before + e;
    assert rest[|before|..|before| + |e|] == e;
    assert (b + tail)[off..off + |e|] == b[off..off + |e|] == rest[|before|..|before| + |e|];
  }

  // ---- which values a column takes ------------------------------------------

  predicate Takes(t: ColumnType, v: Datum) {
    match (t, v)
    case (IntType(w), IntValue(i)) =>
      if w == 2 then -0x8000 <= i < 0x8000
      else if w == 4 then -0x8000_0000 <= i < 0x8000_0000
      else if w == 8 then -0x8000_0000_0000_0000 <= i < 0x8000_0000_0000_0000
      else FitsSigned(i, w)
    case (BoolType, BoolValue(_)) => true
    case (TextType, TextValue(s)) => |s| <= 65535
    case (VarcharType(max), TextValue(s)) => |s| <= max && |s| <= 65535
    case (CharType(max), TextValue(s)) => |s| <= max <= 65535
    case (DateType, DateValue(_)) => true
    case (TimeType, TimeValue(_, _, _, _)) => true
    case _ => false
  }

  /** The integers of each width, text up to its length, every date and time. */
  lemma EncodesExactly(t: ColumnType, v: Datum)
    requires DatumOk(v)
    ensures Encode(t, v).Some? <==> Takes(t, v)
  {
    Pow256Values();
  }

  predicate RowTaken(values: Row, schema: seq<ColumnType>) {
    && |values| == |schema|
    && forall i :: 0 <= i < |values| && values[i].Some? ==> Takes(schema[i], values[i].value)
  }

  lemma {:induction false} PayloadTakes(values: Row, schema: seq<ColumnType>)
    requires |values| == |schema| && RowOk(values)
    ensures Payload(values, schema).Some? <==> RowTaken(values, schema)
  {
    hide Encode, Takes;
    if values != [] {
      var k := |values| - 1;
      PayloadTakes(values[..k], schema[..k]);
      if values[k].Some? {
        EncodesExactly(schema[k], values[k].value);
      }
    }
  }

  /** `w` is what is stored of `v`: CHAR with spaces behind it up to its length, TIME without its
      fraction, anything else as it is. */
  predicate StoredFrom(t: ColumnType, v: Datum, w: Datum) {
    match (t, v)
    case (CharType(max), TextValue(s)) =>
      w.TextValue? && |w.utf8| == max && s <= w.utf8 && forall k :: |s| <= k < |w.utf8| ==> w.utf8[k] == 32
    case (TimeType, TimeValue(h, m, s, _)) => w == TimeValue(h, m, s, 0)
    case _ => w == v
  }

  lemma CanonicalIsStored(t: ColumnType, v: Datum)
    requires Encode(t, v).Some?
    ensures StoredFrom(t, v, Canonical(t, v))
  {
  }

  predicate RowStoredFrom(values: Row, schema: seq<ColumnType>, out: Row)
    requires |values| == |schema|
  {
    && |out| == |values|
    && forall i :: 0 <= i < |values| ==>
         if values[i].None? then out[i].None? else out[i].Some? && StoredFrom(schema[i], values[i].value, out[i].value)
  }

  lemma CanonicalRowIsStored(values: Row, schema: seq<ColumnType>)
    requires |values| == |schema| && RowOk(values) && RowTaken(values, schema)
    ensures RowStoredFrom(values, schema, CanonicalRow(values, schema))
    ensures CanonicalRow(values, schema) == values <==> forall i :: 0 <= i < |values| && values[i].Some? ==> Intact(schema[i], values[i].value)
  {
    hide Encode, Takes, StoredFrom, Canonical, Intact;
    forall i | 0 <= i < |values| && values[i].Some?
      ensures StoredFrom(schema[i], values[i].value, Canonical(schema[i], values[i].value))
      ensures Canonical(schema[i], values[i].value) == values[i].value <==> Intact(schema[i], values[i].value)
    {
      EncodesExactly(schema[i], values[i].value);
      CanonicalIsStored(schema[i], values[i].value);
      CanonicalIsSame(schema[i], values[i].value);
    }
    var canonical := CanonicalRow(values, schema);
    if canonical == values {
      forall i | 0 <= i < |values| && values[i].Some? ensures Intact(schema[i], values[i].value) {
        assert canonical[i] == values[i];
      }
    }
  }

  /** No CHAR shorter than its column, no TIME with a fraction of a second. */
  predicate Intact(t: ColumnType, v: Datum) {
    match (t, v)
    case (CharType(max), TextValue(s)) => |s| == max
    case (TimeType, TimeValue(_, _, _, micro)) => micro == 0
    case _ => true
  }

  /** Encode, then decode with anything behind. It raises exactly when a value is not one its column
      takes; what comes back is what is stored of the row, which is the row itself exactly when every
      value is intact. */
  method RoundTrip(values: Row, schema: seq<ColumnType>, tail: Bytes) returns (b: Option<Bytes>, r: Option<(Row, nat)>)
    requires RowOk(values)
    ensures b.Some? <==> RowTaken(values, schema)
    ensures b.Some? ==> IsRow(b.value, values, schema)
    ensures b.Some? ==> r == Some((CanonicalRow(values, schema), |b.value|)) && RowStoredFrom(values, schema, r.value.0)
    ensures b.Some? ==> (r.value.0 == values <==>
      forall i :: 0 <= i < |values| && values[i].Some? ==> Intact(schema[i], values[i].value))
  {
    hide Encode, Decode, IsBitmap, Canonical, Payload, Takes, StoredFrom, Intact;
    b := EncodeRow(values, schema);
    if |values| == |schema| {
      PayloadTakes(values, schema);
    }
    if b.None? {
      return b, None;
    }
    r := DecodeRow(b.value + tail, schema);
    RowRoundTrip(b.value, tail, values, schema, |values|);
    assert values[..|values|] == values && schema[..|schema|] == schema;
    var canonical := CanonicalRow(values, schema);
    assert canonical[..|values|] == canonical;
    CanonicalRowIsStored(values, schema);
  }

  /** When a value comes back unchanged. */
  lemma CanonicalIsSame(t: ColumnType, v: Datum)
    requires Encode(t, v).Some?
    ensures Canonical(t, v) == v <==> Intact(t, v)
  {
  }
}
