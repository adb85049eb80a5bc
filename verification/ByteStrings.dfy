/** Byte strings, the big-endian fields of `struct.pack`, and the order Python
    gives to `bytes`.

    `Rank` embeds byte strings into the reals so that the lexicographic order of
    `bytes` becomes `<` on numbers.  Key intervals of the B+tree are stated with it. */
module ByteStrings {

  type Byte = b: int | 0 <= b < 256
  type Bytes = seq<Byte>

  const U16_LIMIT: nat := 0x1_0000
  const U32_LIMIT: nat := 0x1_0000_0000
  const U64_LIMIT: nat := 0x1_0000_0000_0000_0000

  function Pow256(w: nat): (r: nat)
    ensures r > 0
  {
    if w == 0 then 1 else 256 * Pow256(w - 1)
  }

  lemma Pow256Values()
    ensures Pow256(1) == 256 && Pow256(2) == U16_LIMIT && Pow256(4) == U32_LIMIT && Pow256(8) == U64_LIMIT
  {
    assert Pow256(3) == 0x100_0000;
    assert Pow256(6) == 0x1_0000_0000_0000;
  }

  /** `int.from_bytes(s, "big")`. */
  function UnpackBE(s: Bytes): (n: nat)
    ensures n < Pow256(|s|)
  {
    if s == [] then 0 else UnpackBE(s[..|s| - 1]) * 256 + s[|s| - 1]
  }

  /** `n.to_bytes(w, "big")`; a number that fits comes back unchanged. */
  function PackBE(n: nat, w: nat): (r: Bytes)
    ensures |r| == w
    ensures n < Pow256(w) ==> UnpackBE(r) == n
  {
    if w == 0 then [] else
      var r := PackBE(n / 256, w - 1) + [n % 256];
      assert r[..w - 1] == PackBE(n / 256, w - 1);
      r
  }

  lemma {:induction false} UnpackPack(s: Bytes)
    ensures PackBE(UnpackBE(s), |s|) == s
  {
    if s != [] {
      var k := |s| - 1;
      UnpackPack(s[..k]);
      PackMore(UnpackBE(s[..k]), s[k], k);
      UnpackLast(s);
      hide PackBE, UnpackBE;
      assert s == s[..k] + [s[k]];
    }
  }

  lemma PackMore(n: nat, b: Byte, w: nat)
    ensures PackBE(n * 256 + b, w + 1) == PackBE(n, w) + [b]
  {
    hide UnpackBE, Pow256;
    assert (n * 256 + b) / 256 == n && (n * 256 + b) % 256 == b;
  }

  lemma UnpackLast(s: Bytes)
    requires s != []
    ensures UnpackBE(s) == UnpackBE(s[..|s| - 1]) * 256 + s[|s| - 1]
  {
  }

  function U16(n: nat): (r: Bytes)
    ensures |r| == 2
    ensures n < U16_LIMIT ==> UnpackBE(r) == n
  {
    Pow256Values();
    PackBE(n, 2)
  }

  function U32(n: nat): (r: Bytes)
    ensures |r| == 4
    ensures n < U32_LIMIT ==> UnpackBE(r) == n
  {
    Pow256Values();
    PackBE(n, 4)
  }

  function U64(n: nat): (r: Bytes)
    ensures |r| == 8
    ensures n < U64_LIMIT ==> UnpackBE(r) == n
  {
    Pow256Values();
    PackBE(n, 8)
  }

  /** The big-endian number in `s[off..off+w]`. */
  function FieldAt(s: Bytes, off: nat, w: nat): nat
    requires off + w <= |s|
  {
    UnpackBE(s[off..off + w])
  }

  function Zeros(n: nat): (r: Bytes)
    ensures |r| == n
  {
    seq(n, _ => 0)
  }

  /** Python's `buf[off:off+len(part)] = part`, inside the buffer. */
  function Patch(buf: Bytes, off: nat, part: Bytes): (r: Bytes)
    requires off + |part| <= |buf|
    ensures |r| == |buf|
  {
    buf[..off] + part + buf[off + |part|..]
  }

  lemma PatchAt(buf: Bytes, off: nat, part: Bytes)
    requires off + |part| <= |buf|
    ensures Patch(buf, off, part)[off..off + |part|] == part
    ensures forall a, b :: 0 <= a <= b <= off ==> Patch(buf, off, part)[a..b] == buf[a..b]
    ensures forall a, b :: off + |part| <= a <= b <= |buf| ==> Patch(buf, off, part)[a..b] == buf[a..b]
  {
  }

  /** One slice of a patched buffer, before or behind the patch. */
  lemma PatchBeside(buf: Bytes, off: nat, part: Bytes, a: nat, b: nat)
    requires off + |part| <= |buf| && a <= b <= |buf| && (b <= off || off + |part| <= a)
    ensures Patch(buf, off, part)[a..b] == buf[a..b]
  {
    PatchAt(buf, off, part);
  }

  lemma PatchInside(buf: Bytes, off: nat, part: Bytes)
    requires off + |part| <= |buf|
    ensures Patch(buf, off, part)[off..off + |part|] == part
  {
  }

  /** Writing at the end of the used part of a zero-filled buffer. */
  lemma PatchPadding(used: Bytes, room: nat, part: Bytes)
    requires |part| <= room
    ensures Patch(used + Zeros(room), |used|, part) == used + part + Zeros(room - |part|)
  {
    var buf := used + Zeros(room);
    assert buf[..|used|] == used;
    assert buf[|used| + |part|..] == Zeros(room - |part|);
  }

  lemma SliceOfConcat(a: Bytes, b: Bytes, c: Bytes)
    ensures (a + b + c)[|a|..|a| + |b|] == b
  {
  }

  /** The parts of a concatenation, cut out again. */
  lemma PartsOf<T>(w: seq<T>, a: seq<T>, b: seq<T>, c: seq<T>)
    requires w == a + b + c
    ensures w[..|a|] == a
    ensures w[|a|..|a| + |b|] == b
    ensures w[|a| + |b|..] == c
  {
  }

  lemma FivePartsOf<T>(w: seq<T>, a: seq<T>, b: seq<T>, c: seq<T>, d: seq<T>, e: seq<T>)
    requires w == a + b + c + d + e
    ensures |w| == |a| + |b| + |c| + |d| + |e|
    ensures w[..|a|] == a
    ensures w[|a|..|a| + |b|] == b
    ensures w[|a| + |b|..|a| + |b| + |c|] == c
    ensures w[|a| + |b| + |c|..|a| + |b| + |c| + |d|] == d
    ensures w[|a| + |b| + |c| + |d|..] == e
  {
  }

  lemma SubSlice<T>(s: seq<T>, off: nat, n: nat, i: nat, j: nat)
    requires off + n <= |s| && i <= j <= n
    ensures s[off..off + n][i..j] == s[off + i..off + j]
  {
    var m := s[off..off + n];
    forall k | 0 <= k < j - i
      ensures m[i..j][k] == s[off + i..off + j][k]
    {
      assert m[i..j][k] == m[i + k] == s[off + i + k];
    }
  }

  lemma DropFirst<T>(s: seq<T>, i: nat)
    requires i < |s|
    ensures s[i..] == [s[i]] + s[i + 1..]
  {
  }

  // ---- order --------------------------------------------------------------

  function Rank(s: Bytes): (r: real)
    ensures 0.0 <= r < 1.0
    ensures s != [] ==> r > 0.0
  {
    if s == [] then 0.0 else (s[0] as real + 1.0 + Rank(s[1..])) / 257.0
  }

  /** `a < b` on Python `bytes`. */
  predicate LexLess(a: Bytes, b: Bytes)
    ensures LexLess(a, b) <==> Rank(a) < Rank(b)
  {
    if b == [] then false
    else if a == [] then true
    else if a[0] != b[0] then a[0] < b[0]
    else LexLess(a[1..], b[1..])
  }

  lemma {:induction false} RankInjective(a: Bytes, b: Bytes)
    requires Rank(a) == Rank(b)
    ensures a == b
  {
    if a != [] && b != [] {
      assert a[0] == b[0];
      RankInjective(a[1..], b[1..]);
      assert a == [a[0]] + a[1..] && b == [b[0]] + b[1..];
    }
  }

  /** `a` and `b` are the same up to `n`; there `a` ends, or has the smaller byte. */
  predicate PartsAt(a: Bytes, b: Bytes, n: nat) {
    n <= |a| && n < |b| && a[..n] == b[..n] && (n < |a| ==> a[n] < b[n])
  }

  /** A proper prefix, or smaller in the first byte that differs. */
  ghost predicate Below(a: Bytes, b: Bytes) {
    exists n :: PartsAt(a, b, n)
  }

  lemma {:induction false} LexLessParts(a: Bytes, b: Bytes) returns (n: nat)
    requires LexLess(a, b)
    ensures PartsAt(a, b, n)
  {
    n := 0;
    if a != [] && a[0] == b[0] {
      var k := LexLessParts(a[1..], b[1..]);
      n := k + 1;
      assert a[..n] == [a[0]] + a[1..][..k] && b[..n] == [b[0]] + b[1..][..k];
    }
  }

  lemma {:induction false} PartsIsLexLess(a: Bytes, b: Bytes, n: nat)
    requires PartsAt(a, b, n)
    ensures LexLess(a, b)
  {
    if n > 0 {
      assert a[0] == a[..n][0] && b[0] == b[..n][0];
      assert a[1..][..n - 1] == a[..n][1..] && b[1..][..n - 1] == b[..n][1..];
      PartsIsLexLess(a[1..], b[1..], n - 1);
    }
  }

  /** The order is that of `bytes`. */
  lemma LexLessIsBelow(a: Bytes, b: Bytes)
    ensures LexLess(a, b) <==> Below(a, b)
  {
    if LexLess(a, b) {
      var n := LexLessParts(a, b);
    }
    if n :| PartsAt(a, b, n) {
      PartsIsLexLess(a, b, n);
    }
  }

  /** Packed numbers of one width are ordered as the numbers are. */
  lemma {:induction false} PackedInOrder(i: nat, j: nat, w: nat)
    requires i < j < Pow256(w)
    ensures Below(PackBE(i, w), PackBE(j, w))
  {
    hide UnpackBE;
    var a, b := PackBE(i / 256, w - 1), PackBE(j / 256, w - 1);
    if i / 256 < j / 256 {
      PackedInOrder(i / 256, j / 256, w - 1);
      var n :| PartsAt(a, b, n);
      assert PartsAt(a + [i % 256], b + [j % 256], n);
    } else {
      assert PartsAt(a + [i % 256], b + [j % 256], w - 1);
    }
  }
}
