/** B+tree nodes and their page images (src/tinydb/btree.py, LeafNode and InternalNode). */
module NodeCodec {
  import opened ByteStrings
  import opened Wrappers
  import opened PageStore

  const NODE_TYPE_LEAF: Byte := 1
  const NODE_TYPE_INTERNAL: Byte := 2
  const HEADER_SIZE: nat := 10
  const PAYLOAD_SIZE: nat := PAGE_SIZE - HEADER_SIZE
  const TOMBSTONE_FLAG: Byte := 0x80

  /** A row reference: page id and slot id. */
  datatype Ref = Ref(page: nat, slot: nat)

  datatype Node =
    | Leaf(keys: seq<Bytes>, values: seq<Ref>, next: nat, tombs: seq<bool>)
    | Inner(keys: seq<Bytes>, children: seq<nat>)

  /** What `serialize` ends in: the bytes, the ValueError that asks for a split,
      or the struct.error of a field that does not fit its width. */
  datatype Image = Page(data: Bytes) | Overflow | BadField

  predicate Shaped(n: Node) {
    match n
    case Leaf(keys, values, _, tombs) => |values| == |keys| && |tombs| == |keys|
    case Inner(keys, children) => |children| == |keys| + 1
  }

  // ---- leaves -------------------------------------------------------------

  function LeafEntry(key: Bytes, v: Ref, tomb: bool): (r: Bytes)
    ensures |r| == 11 + |key|
  {
    [if tomb then TOMBSTONE_FLAG else 0] + U16(|key|) + key + U32(v.page) + U32(v.slot)
  }

  /** The bytes of the first `i` entries. */
  function LeafBody(n: Node, i: nat): (r: Bytes)
    requires n.Leaf? && Shaped(n) && i <= |n.keys|
  {
    if i == 0 then [] else LeafBody(n, i - 1) + LeafEntry(n.keys[i - 1], n.values[i - 1], n.tombs[i - 1])
  }

  function LeafHeader(n: Node): (r: Bytes)
    requires n.Leaf?
    ensures |r| == HEADER_SIZE
  {
    [NODE_TYPE_LEAF, 0] + U16(|n.keys|) + [0, 0] + U32(n.next)
  }

  /** Payload bytes of a leaf with these keys. */
  function LeafSize(keys: seq<Bytes>): nat {
    if keys == [] then 0 else LeafSize(keys[..|keys| - 1]) + 11 + |keys[|keys| - 1]|
  }

  predicate FieldsFit(n: Node) {
    && |n.keys| < U16_LIMIT
    && match n
       case Leaf(_, values, next, _) => next < U32_LIMIT && forall v :: v in values ==> v.page < U32_LIMIT && v.slot < U32_LIMIT
       case Inner(_, children) => forall c :: c in children ==> c < U32_LIMIT
  }

  /** The page once `serialize` has written the first `i` entries. */
  function LeafImage(n: Node, i: nat): (r: Bytes)
    requires n.Leaf? && Shaped(n) && i <= |n.keys| && HEADER_SIZE + |LeafBody(n, i)| <= PAGE_SIZE
    ensures |r| == PAGE_SIZE
  {
    LeafHeader(n) + LeafBody(n, i) + Zeros(PAGE_SIZE - HEADER_SIZE - |LeafBody(n, i)|)
  }

  /** The page image of a leaf whose entries fit. */
  function LeafPage(n: Node): (r: Bytes)
    requires n.Leaf? && Shaped(n) && LeafSize(n.keys) <= PAYLOAD_SIZE
    ensures |r| == PAGE_SIZE
  {
    LeafBodySize(n, |n.keys|);
    LeafImage(n, |n.keys|)
  }

  lemma {:induction false} LeafBodySize(n: Node, i: nat)
    requires n.Leaf? && Shaped(n) && i <= |n.keys|
    ensures |LeafBody(n, i)| == LeafSize(n.keys[..i])
    ensures i == |n.keys| ==> |LeafBody(n, i)| == LeafSize(n.keys)
  {
    if i > 0 {
      LeafBodySize(n, i - 1);
      assert n.keys[..i][..i - 1] == n.keys[..i - 1];
    }
    assert i == |n.keys| ==> n.keys[..i] == n.keys;
  }

  lemma {:induction false} LeafBodyPrefix(n: Node, i: nat, j: nat)
    requires n.Leaf? && Shaped(n) && i <= j <= |n.keys|
    ensures LeafBody(n, i) <= LeafBody(n, j)
    ensures i < |n.keys| ==> LeafBody(n, i + 1) == LeafBody(n, i) + LeafEntry(n.keys[i], n.values[i], n.tombs[i])
  {
    if i < j {
      LeafBodyPrefix(n, i, j - 1);
    }
  }

  lemma LeafImageStep(n: Node, i: nat)
    requires n.Leaf? && Shaped(n) && i < |n.keys|
    ensures |LeafBody(n, i + 1)| == |LeafBody(n, i)| + 11 + |n.keys[i]|
    ensures HEADER_SIZE + |LeafBody(n, i + 1)| <= PAGE_SIZE ==>
      LeafImage(n, i + 1) == Patch(LeafImage(n, i), HEADER_SIZE + |LeafBody(n, i)|,
                                   LeafEntry(n.keys[i], n.values[i], n.tombs[i]))
  {
    hide LeafEntry, LeafHeader, Patch;
    if HEADER_SIZE + |LeafBody(n, i + 1)| <= PAGE_SIZE {
      var e := LeafEntry(n.keys[i], n.values[i], n.tombs[i]);
      PatchPadding(LeafHeader(n) + LeafBody(n, i), PAYLOAD_SIZE - |LeafBody(n, i)|, e);
      assert LeafHeader(n) + LeafBody(n, i) + e == LeafHeader(n) + LeafBody(n, i + 1);
    }
  }

  /** `LeafNode.serialize`. */
  method SerializeLeaf(n: Node) returns (r: Image)
    requires n.Leaf? && Shaped(n)
    ensures r.Page? ==> FieldsFit(n) && LeafSize(n.keys) <= PAYLOAD_SIZE && r.data == LeafPage(n)
    ensures r.Overflow? ==> LeafSize(n.keys) > PAYLOAD_SIZE
    ensures FieldsFit(n) ==> !r.BadField?
  {
    hide LeafEntry, LeafHeader, LeafImage, LeafSize, Patch;
    if |n.keys| >= U16_LIMIT || n.next >= U32_LIMIT {
      return BadField;
    }
    var page := EmptyLeafImage(n);
    var off := HEADER_SIZE;
    for i := 0 to |n.keys|
      invariant off == HEADER_SIZE + |LeafBody(n, i)| <= PAGE_SIZE && page == LeafImage(n, i)
      invariant forall j :: 0 <= j < i ==> n.values[j].page < U32_LIMIT && n.values[j].slot < U32_LIMIT
    {
      hide LeafBody;
      var key := n.keys[i];
      LeafImageStep(n, i);
      if off + 1 + 2 + |key| + 8 > PAGE_SIZE {
        LeafBodySize(n, |n.keys|);
        LeafBodyPrefix(n, i + 1, |n.keys|);
        return Overflow;
      }
      if n.values[i].page >= U32_LIMIT || n.values[i].slot >= U32_LIMIT {
        assert n.values[i] in n.values;
        return BadField;
      }
      page := Patch(page, off, LeafEntry(key, n.values[i], n.tombs[i]));
      off := off + 3 + |key| + 8;
    }
    LeafBodySize(n, |n.keys|);
    return Page(page);
  }

  method EmptyLeafImage(n: Node) returns (page: Bytes)
    requires n.Leaf? && Shaped(n)
    ensures page == LeafImage(n, 0)
  {
    page := LeafHeader(n) + Zeros(PAGE_SIZE - HEADER_SIZE);
    assert LeafHeader(n) + [] == LeafHeader(n);
  }

  datatype Entries = Entries(keys: seq<Bytes>, values: seq<Ref>, tombs: seq<bool>)

  /** The `count` entries found from `off` on; None where a field lies outside the page. */
  function LeafEntriesFrom(page: Bytes, off: nat, count: nat): Option<Entries>
    decreases count
  {
    if count == 0 then Some(Entries([], [], []))
    else if off + 3 > |page| then None
    else
      var len := FieldAt(page, off + 1, 2);
      if off + 11 + len > |page| then None
      else
        match LeafEntriesFrom(page, off + 11 + len, count - 1)
        case None => None
        case Some(rest) =>
          Some(Entries([page[off + 3..off + 3 + len]] + rest.keys,
                       [Ref(FieldAt(page, off + 3 + len, 4), FieldAt(page, off + 7 + len, 4))] + rest.values,
                       [page[off] >= TOMBSTONE_FLAG] + rest.tombs))
  }

  /** `LeafNode.deserialize` as a function of the page. */
  function LeafOf(page: Bytes): Option<Node> {
    if |page| < HEADER_SIZE || page[0] != NODE_TYPE_LEAF then None else
    match LeafEntriesFrom(page, HEADER_SIZE, FieldAt(page, 2, 2))
    case None => None
    case Some(es) => Some(Leaf(es.keys, es.values, FieldAt(page, 6, 4), es.tombs))
  }

  /** `LeafNode.deserialize`. */
  method DeserializeLeaf(page: Bytes) returns (r: Option<Node>)
    ensures r == LeafOf(page)
  {
    hide UnpackBE, FieldAt;
    if |page| < HEADER_SIZE || page[0] != NODE_TYPE_LEAF {
      return None;
    }
    var count := FieldAt(page, 2, 2);
    var keys: seq<Bytes>, values: seq<Ref>, tombs: seq<bool> := [], [], [];
    var off: nat := HEADER_SIZE;
    ghost var all := LeafEntriesFrom(page, off, count);
    if all.Some? {
      assert keys + all.value.keys == all.value.keys;
      assert values + all.value.values == all.value.values;
      assert tombs + all.value.tombs == all.value.tombs;
    }
    for i := 0 to count
      invariant |keys| == i
      invariant LeafEntriesFrom(page, HEADER_SIZE, count) ==
        (match LeafEntriesFrom(page, off, count - i)
         case None => None
         case Some(rest) => Some(Entries(keys + rest.keys, values + rest.values, tombs + rest.tombs)))
    {
      if off + 3 > |page| {
        return None;
      }
      var tomb := page[off];
      var len := FieldAt(page, off + 1, 2);
      if off + 11 + len > |page| {
        return None;
      }
      ghost var rest := LeafEntriesFrom(page, off + 11 + len, count - i - 1);
      var key, v := page[off + 3..off + 3 + len], Ref(FieldAt(page, off + 3 + len, 4), FieldAt(page, off + 7 + len, 4));
      ghost var k0, v0, t0 := keys, values, tombs;
      keys := keys + [key];
      values := values + [v];
      tombs := tombs + [tomb >= TOMBSTONE_FLAG];
      off := off + 3 + len + 8;
      if rest.Some? {
        assert k0 + ([key] + rest.value.keys) == keys + rest.value.keys;
        assert v0 + ([v] + rest.value.values) == values + rest.value.values;
        assert t0 + ([tomb >= TOMBSTONE_FLAG] + rest.value.tombs) == tombs + rest.value.tombs;
      }
    }
    assert keys + [] == keys && values + [] == values && tombs + [] == tombs;
    return Some(Leaf(keys, values, FieldAt(page, 6, 4), tombs));
  }

  lemma LeafEntryFields(key: Bytes, v: Ref, tomb: bool)
    requires |key| < U16_LIMIT && v.page < U32_LIMIT && v.slot < U32_LIMIT
    ensures var e, n := LeafEntry(key, v, tomb), |key|;
      && (e[0] >= TOMBSTONE_FLAG <==> tomb)
      && FieldAt(e, 1, 2) == n && e[3..3 + n] == key
      && FieldAt(e, 3 + n, 4) == v.page && FieldAt(e, 7 + n, 4) == v.slot
  {
    hide U32, U16, UnpackBE;
    var e, n := LeafEntry(key, v, tomb), |key|;
    PartsOf(e, [e[0]] + U16(n), key, U32(v.page) + U32(v.slot));
    PartsOf(e, [e[0]], U16(n), key + U32(v.page) + U32(v.slot));
    PartsOf(e, [e[0]] + U16(n) + key, U32(v.page), U32(v.slot));
    PartsOf(e, [e[0]] + U16(n) + key + U32(v.page), U32(v.slot), []);
  }

  /** One entry in front of entries that decode to `rest`. */
  lemma LeafEntryDecodes(page: Bytes, off: nat, count: nat, key: Bytes, v: Ref, tomb: bool, rest: Entries)
    requires off + 11 + |key| <= |page| && |key| < U16_LIMIT && count > 0
    requires page[off..off + 11 + |key|] == LeafEntry(key, v, tomb)
    requires v.page < U32_LIMIT && v.slot < U32_LIMIT
    requires LeafEntriesFrom(page, off + 11 + |key|, count - 1) == Some(rest)
    ensures LeafEntriesFrom(page, off, count)
         == Some(Entries([key] + rest.keys, [v] + rest.values, [tomb] + rest.tombs))
  {
    hide LeafEntry, UnpackBE;
    var n := |key|;
    LeafEntryFields(key, v, tomb);
    assert page[off] == page[off..off + 11 + n][0];
    SubSlice(page, off, 11 + n, 1, 3);
    SubSlice(page, off, 11 + n, 3, 3 + n);
    SubSlice(page, off, 11 + n, 3 + n, 7 + n);
    SubSlice(page, off, 11 + n, 7 + n, 11 + n);
    assert FieldAt(page, off + 1, 2) == n;
    assert FieldAt(page, off + 3 + n, 4) == v.page && FieldAt(page, off + 7 + n, 4) == v.slot;
  }

  lemma LeafEntryInPage(n: Node, i: nat)
    requires n.Leaf? && Shaped(n) && LeafSize(n.keys) <= PAYLOAD_SIZE && i < |n.keys|
    ensures HEADER_SIZE + |LeafBody(n, i)| + 11 + |n.keys[i]| == HEADER_SIZE + |LeafBody(n, i + 1)| <= PAGE_SIZE
    ensures LeafPage(n)[HEADER_SIZE + |LeafBody(n, i)|..HEADER_SIZE + |LeafBody(n, i)| + 11 + |n.keys[i]|]
         == LeafEntry(n.keys[i], n.values[i], n.tombs[i])
  {
    hide LeafEntry, LeafHeader, LeafBody;
    var full := LeafBody(n, |n.keys|);
    var upTo, e := LeafBody(n, i), LeafEntry(n.keys[i], n.values[i], n.tombs[i]);
    LeafBodyPrefix(n, i, |n.keys|);
    LeafBodyPrefix(n, i + 1, |n.keys|);
    LeafBodySize(n, |n.keys|);
    var rest := full[|upTo| + |e|..] + Zeros(PAYLOAD_SIZE - |full|);
    assert LeafPage(n) == (LeafHeader(n) + upTo) + e + rest;
    SliceOfConcat(LeafHeader(n) + upTo, e, rest);
  }

  function EntriesAfter(n: Node, i: nat): Entries
    requires n.Leaf? && Shaped(n) && i <= |n.keys|
  {
    Entries(n.keys[i..], n.values[i..], n.tombs[i..])
  }

  lemma EntriesAfterStep(n: Node, i: nat)
    requires n.Leaf? && Shaped(n) && i < |n.keys|
    ensures var rest := EntriesAfter(n, i + 1);
      EntriesAfter(n, i) == Entries([n.keys[i]] + rest.keys, [n.values[i]] + rest.values, [n.tombs[i]] + rest.tombs)
  {
    DropFirst(n.keys, i);
    DropFirst(n.values, i);
    DropFirst(n.tombs, i);
  }

  lemma LeafValueFits(n: Node, i: nat)
    requires n.Leaf? && Shaped(n) && FieldsFit(n) && i < |n.keys|
    ensures n.values[i].page < U32_LIMIT && n.values[i].slot < U32_LIMIT
  {
    assert n.values[i] in n.values;
  }

  lemma {:induction false} LeafEntriesRoundTrip(n: Node, i: nat)
    requires n.Leaf? && Shaped(n) && FieldsFit(n) && LeafSize(n.keys) <= PAYLOAD_SIZE && i <= |n.keys|
    ensures LeafEntriesFrom(LeafPage(n), HEADER_SIZE + |LeafBody(n, i)|, |n.keys| - i) == Some(EntriesAfter(n, i))
    decreases |n.keys| - i
  {
    hide LeafEntry, LeafHeader, LeafPage, LeafBody, LeafSize, UnpackBE, FieldAt;
    if i < |n.keys| {
      hide LeafEntriesFrom, EntriesAfter;
      LeafEntriesRoundTrip(n, i + 1);
      LeafEntryInPage(n, i);
      LeafValueFits(n, i);
      hide FieldsFit;
      LeafEntryDecodes(LeafPage(n), HEADER_SIZE + |LeafBody(n, i)|, |n.keys| - i, n.keys[i], n.values[i], n.tombs[i],
                       EntriesAfter(n, i + 1));
      EntriesAfterStep(n, i);
    } else {
      assert EntriesAfter(n, i) == Entries([], [], []);
    }
  }

  lemma LeafRoundTrip(n: Node)
    requires n.Leaf? && Shaped(n) && FieldsFit(n) && LeafSize(n.keys) <= PAYLOAD_SIZE
    ensures LeafOf(LeafPage(n)) == Some(n)
  {
    var page := LeafPage(n);
    assert page[..HEADER_SIZE] == LeafHeader(n);
    assert page[2..4] == LeafHeader(n)[2..4] == U16(|n.keys|);
    assert page[6..10] == LeafHeader(n)[6..10] == U32(n.next);
    LeafEntriesRoundTrip(n, 0);
    assert n.keys[0..] == n.keys && n.values[0..] == n.values && n.tombs[0..] == n.tombs;
  }

  // ---- internal nodes -----------------------------------------------------

  function InnerEntry(child: nat, key: Bytes): (r: Bytes)
    ensures |r| == 6 + |key|
  {
    U32(child) + U16(|key|) + key
  }

  function InnerBody(n: Node, i: nat): (r: Bytes)
    requires n.Inner? && Shaped(n) && i <= |n.keys|
  {
    if i == 0 then [] else InnerBody(n, i - 1) + InnerEntry(n.children[i - 1], n.keys[i - 1])
  }

  function InnerHeader(n: Node): (r: Bytes)
    requires n.Inner?
    ensures |r| == HEADER_SIZE
  {
    [NODE_TYPE_INTERNAL, 0] + U16(|n.keys|) + [0, 0, 0, 0, 0, 0]
  }

  /** Payload bytes of the key entries, without the trailing child. */
  function InnerSize(keys: seq<Bytes>): nat {
    if keys == [] then 0 else InnerSize(keys[..|keys| - 1]) + 6 + |keys[|keys| - 1]|
  }

  function InnerImage(n: Node, i: nat): (r: Bytes)
    requires n.Inner? && Shaped(n) && i <= |n.keys| && HEADER_SIZE + |InnerBody(n, i)| <= PAGE_SIZE
    ensures |r| == PAGE_SIZE
  {
    InnerHeader(n) + InnerBody(n, i) + Zeros(PAGE_SIZE - HEADER_SIZE - |InnerBody(n, i)|)
  }

  /** What `serialize` returns once its guard has passed: the trailing child pointer is
      written without a check, so the image grows past a page when it does not fit. */
  function InnerPage(n: Node): (r: Bytes)
    requires n.Inner? && Shaped(n)
    ensures |r| == if InnerSize(n.keys) + 4 <= PAYLOAD_SIZE then PAGE_SIZE else HEADER_SIZE + InnerSize(n.keys) + 4
  {
    InnerBodySize(n, |n.keys|);
    var used := InnerHeader(n) + InnerBody(n, |n.keys|) + U32(n.children[|n.keys|]);
    used + Zeros(if |used| <= PAGE_SIZE then PAGE_SIZE - |used| else 0)
  }

  lemma {:induction false} InnerBodySize(n: Node, i: nat)
    requires n.Inner? && Shaped(n) && i <= |n.keys|
    ensures |InnerBody(n, i)| == InnerSize(n.keys[..i])
    ensures i == |n.keys| ==> |InnerBody(n, i)| == InnerSize(n.keys)
  {
    if i > 0 {
      InnerBodySize(n, i - 1);
      assert n.keys[..i][..i - 1] == n.keys[..i - 1];
    }
    assert i == |n.keys| ==> n.keys[..i] == n.keys;
  }

  lemma {:induction false} InnerBodyPrefix(n: Node, i: nat, j: nat)
    requires n.Inner? && Shaped(n) && i <= j <= |n.keys|
    ensures InnerBody(n, i) <= InnerBody(n, j)
    ensures i < |n.keys| ==> InnerBody(n, i + 1) == InnerBody(n, i) + InnerEntry(n.children[i], n.keys[i])
  {
    if i < j {
      InnerBodyPrefix(n, i, j - 1);
    }
  }

  lemma InnerImageStep(n: Node, i: nat)
    requires n.Inner? && Shaped(n) && i < |n.keys|
    ensures |InnerBody(n, i + 1)| == |InnerBody(n, i)| + 6 + |n.keys[i]|
    ensures HEADER_SIZE + |InnerBody(n, i + 1)| <= PAGE_SIZE ==>
      InnerImage(n, i + 1) == Patch(InnerImage(n, i), HEADER_SIZE + |InnerBody(n, i)|, InnerEntry(n.children[i], n.keys[i]))
  {
    hide InnerEntry, InnerHeader, Patch;
    if HEADER_SIZE + |InnerBody(n, i + 1)| <= PAGE_SIZE {
      var e := InnerEntry(n.children[i], n.keys[i]);
      PatchPadding(InnerHeader(n) + InnerBody(n, i), PAYLOAD_SIZE - |InnerBody(n, i)|, e);
      assert InnerHeader(n) + InnerBody(n, i) + e == InnerHeader(n) + InnerBody(n, i + 1);
    }
  }

  /** `InternalNode.serialize`. */
  method SerializeInner(n: Node) returns (r: Image)
    requires n.Inner? && Shaped(n)
    ensures r.Page? ==> FieldsFit(n) && InnerSize(n.keys) <= PAYLOAD_SIZE && r.data == InnerPage(n)
    ensures r.Overflow? ==> InnerSize(n.keys) > PAYLOAD_SIZE
    ensures FieldsFit(n) ==> !r.BadField?
  {
    hide InnerEntry, InnerHeader, InnerImage, InnerPage, InnerSize, Patch;
    if |n.keys| >= U16_LIMIT {
      return BadField;
    }
    var page := EmptyInnerImage(n);
    var off := HEADER_SIZE;
    for i := 0 to |n.keys|
      invariant off == HEADER_SIZE + |InnerBody(n, i)| <= PAGE_SIZE && page == InnerImage(n, i)
      invariant forall j :: 0 <= j < i ==> n.children[j] < U32_LIMIT
    {
      hide InnerBody;
      var key := n.keys[i];
      InnerImageStep(n, i);
      if off + 4 + 2 + |key| > PAGE_SIZE {
        InnerBodySize(n, |n.keys|);
        InnerBodyPrefix(n, i + 1, |n.keys|);
        return Overflow;
      }
      if n.children[i] >= U32_LIMIT {
        assert n.children[i] in n.children;
        return BadField;
      }
      page := Patch(page, off, InnerEntry(n.children[i], key));
      off := off + 6 + |key|;
    }
    InnerBodySize(n, |n.keys|);
    var last := n.children[|n.children| - 1];
    if last >= U32_LIMIT {
      assert last in n.children;
      return BadField;
    }
    LastChildImage(n);
    // A slice assignment that reaches past the end lengthens the bytearray.
    return Page(page[..off] + U32(last) + (if off + 4 <= PAGE_SIZE then page[off + 4..] else []));
  }

  lemma LastChildImage(n: Node)
    requires n.Inner? && Shaped(n) && HEADER_SIZE + |InnerBody(n, |n.keys|)| <= PAGE_SIZE
    ensures var page, off := InnerImage(n, |n.keys|), HEADER_SIZE + |InnerBody(n, |n.keys|)|;
      InnerPage(n) == page[..off] + U32(n.children[|n.keys|]) + (if off + 4 <= PAGE_SIZE then page[off + 4..] else [])
  {
    hide InnerHeader, InnerBody, U32;
    var page, off := InnerImage(n, |n.keys|), HEADER_SIZE + |InnerBody(n, |n.keys|)|;
    assert page[..off] == InnerHeader(n) + InnerBody(n, |n.keys|);
    assert off + 4 <= PAGE_SIZE ==> page[off + 4..] == Zeros(PAGE_SIZE - off - 4);
  }

  method EmptyInnerImage(n: Node) returns (page: Bytes)
    requires n.Inner? && Shaped(n)
    ensures page == InnerImage(n, 0)
  {
    page := InnerHeader(n) + Zeros(PAGE_SIZE - HEADER_SIZE);
    assert InnerHeader(n) + [] == InnerHeader(n);
  }

  datatype Fences = Fences(keys: seq<Bytes>, children: seq<nat>)

  function InnerEntriesFrom(page: Bytes, off: nat, count: nat): Option<Fences>
    decreases count
  {
    if count == 0 then (if off + 4 > |page| then None else Some(Fences([], [FieldAt(page, off, 4)])))
    else if off + 6 > |page| then None
    else
      var len := FieldAt(page, off + 4, 2);
      if off + 6 + len > |page| then None
      else
        match InnerEntriesFrom(page, off + 6 + len, count - 1)
        case None => None
        case Some(rest) =>
          Some(Fences([page[off + 6..off + 6 + len]] + rest.keys, [FieldAt(page, off, 4)] + rest.children))
  }

  /** `InternalNode.deserialize` as a function of the page. */
  function InnerOf(page: Bytes): Option<Node> {
    if |page| < HEADER_SIZE || page[0] != NODE_TYPE_INTERNAL then None else
    match InnerEntriesFrom(page, HEADER_SIZE, FieldAt(page, 2, 2))
    case None => None
    case Some(fs) => Some(Inner(fs.keys, fs.children))
  }

  /** `InternalNode.deserialize`. */
  method DeserializeInner(page: Bytes) returns (r: Option<Node>)
    ensures r == InnerOf(page)
  {
    hide UnpackBE, FieldAt;
    if |page| < HEADER_SIZE || page[0] != NODE_TYPE_INTERNAL {
      return None;
    }
    var count := FieldAt(page, 2, 2);
    var keys: seq<Bytes>, children: seq<nat> := [], [];
    var off: nat := HEADER_SIZE;
    ghost var all := InnerEntriesFrom(page, off, count);
    if all.Some? {
      assert keys + all.value.keys == all.value.keys;
      assert children + all.value.children == all.value.children;
    }
    for i := 0 to count
      invariant |keys| == i
      invariant InnerEntriesFrom(page, HEADER_SIZE, count) ==
        (match InnerEntriesFrom(page, off, count - i)
         case None => None
         case Some(rest) => Some(Fences(keys + rest.keys, children + rest.children)))
    {
      if off + 6 > |page| {
        return None;
      }
      var child := FieldAt(page, off, 4);
      var len := FieldAt(page, off + 4, 2);
      if off + 6 + len > |page| {
        return None;
      }
      ghost var rest := InnerEntriesFrom(page, off + 6 + len, count - i - 1);
      var key := page[off + 6..off + 6 + len];
      ghost var k0, c0 := keys, children;
      keys := keys + [key];
      children := children + [child];
      off := off + 6 + len;
      if rest.Some? {
        assert k0 + ([key] + rest.value.keys) == keys + rest.value.keys;
        assert c0 + ([child] + rest.value.children) == children + rest.value.children;
      }
    }
    if off + 4 > |page| {
      return None;
    }
    assert keys + [] == keys;
    return Some(Inner(keys, children + [FieldAt(page, off, 4)]));
  }

  lemma InnerEntryFields(page: Bytes, off: nat, child: nat, key: Bytes)
    requires off + 6 + |key| <= |page| && |key| < U16_LIMIT && child < U32_LIMIT
    requires page[off..off + 6 + |key|] == InnerEntry(child, key)
    ensures FieldAt(page, off, 4) == child
    ensures FieldAt(page, off + 4, 2) == |key|
    ensures page[off + 6..off + 6 + |key|] == key
  {
    hide U32, U16, UnpackBE;
    var e := page[off..off + 6 + |key|];
    assert e == U32(child) + (U16(|key|) + key);
    assert page[off..off + 4] == e[..4] == U32(child);
    assert e[4..] == U16(|key|) + key;
    assert page[off + 4..off + 6] == e[4..][..2] == U16(|key|);
    assert page[off + 6..off + 6 + |key|] == e[6..] == key;
  }

  lemma InnerEntryInPage(n: Node, i: nat)
    requires n.Inner? && Shaped(n) && i < |n.keys|
    ensures HEADER_SIZE + |InnerBody(n, i)| + 6 + |n.keys[i]| == HEADER_SIZE + |InnerBody(n, i + 1)| <= |InnerPage(n)|
    ensures InnerPage(n)[HEADER_SIZE + |InnerBody(n, i)|..HEADER_SIZE + |InnerBody(n, i)| + 6 + |n.keys[i]|]
         == InnerEntry(n.children[i], n.keys[i])
  {
    hide InnerEntry, InnerHeader, InnerBody, U32;
    var full := InnerBody(n, |n.keys|);
    var upTo, e := InnerBody(n, i), InnerEntry(n.children[i], n.keys[i]);
    InnerBodyPrefix(n, i, |n.keys|);
    InnerBodyPrefix(n, i + 1, |n.keys|);
    var last := U32(n.children[|n.keys|]);
    var used := InnerHeader(n) + full + last;
    var pad := Zeros(if |used| <= PAGE_SIZE then PAGE_SIZE - |used| else 0);
    var rest := full[|upTo| + |e|..] + last + pad;
    assert InnerPage(n) == (InnerHeader(n) + upTo) + e + rest;
    SliceOfConcat(InnerHeader(n) + upTo, e, rest);
  }

  lemma LastChildInPage(n: Node)
    requires n.Inner? && Shaped(n)
    ensures var off := HEADER_SIZE + |InnerBody(n, |n.keys|)|;
      off + 4 <= |InnerPage(n)| && InnerPage(n)[off..off + 4] == U32(n.children[|n.keys|])
  {
    hide InnerHeader, InnerBody, U32;
  }

  lemma {:induction false} InnerEntriesRoundTrip(n: Node, i: nat)
    requires n.Inner? && Shaped(n) && FieldsFit(n) && InnerSize(n.keys) <= PAYLOAD_SIZE && i <= |n.keys|
    ensures InnerEntriesFrom(InnerPage(n), HEADER_SIZE + |InnerBody(n, i)|, |n.keys| - i)
         == Some(Fences(n.keys[i..], n.children[i..]))
    decreases |n.keys| - i
  {
    hide InnerEntry, InnerHeader, InnerPage, InnerBody, UnpackBE, U32;
    var page, off := InnerPage(n), HEADER_SIZE + |InnerBody(n, i)|;
    assert n.children[i] in n.children;
    if i < |n.keys| {
      var key := n.keys[i];
      InnerEntriesRoundTrip(n, i + 1);
      InnerEntryInPage(n, i);
      InnerEntryFields(page, off, n.children[i], key);
      DropFirst(n.keys, i);
      DropFirst(n.children, i);
    } else {
      var used := InnerHeader(n) + InnerBody(n, i);
      LastChildInPage(n);
      assert n.keys[i..] == [];
      assert n.children[i..] == [n.children[i]];
    }
  }

  /** Reading back needs the guard only, so a grown image still decodes ... */
  lemma InnerRoundTrip(n: Node)
    requires n.Inner? && Shaped(n) && FieldsFit(n) && InnerSize(n.keys) <= PAYLOAD_SIZE
    ensures InnerOf(InnerPage(n)) == Some(n)
  {
    var page := InnerPage(n);
    assert page[..HEADER_SIZE] == InnerHeader(n);
    assert page[2..4] == InnerHeader(n)[2..4] == U16(|n.keys|);
    InnerEntriesRoundTrip(n, 0);
    assert n.keys[0..] == n.keys && n.children[0..] == n.children;
  }

  predicate Uniform(keys: seq<Bytes>, w: nat) {
    forall k :: k in keys ==> |k| == w
  }

  lemma {:induction false} UniformSizes(keys: seq<Bytes>, w: nat)
    requires Uniform(keys, w)
    ensures LeafSize(keys) == |keys| * (11 + w)
    ensures InnerSize(keys) == |keys| * (6 + w)
  {
    if keys != [] {
      UniformSizes(keys[..|keys| - 1], w);
    }
  }

  /** ... but it is a page image exactly when the four bytes of the last child fit, and
      for keys of one width the guard sees to that exactly when `(4086 mod (6+w)) >= 4`. */
  lemma GuardSufficesForWidth(w: nat)
    ensures PAYLOAD_SIZE % (6 + w) >= 4 <==>
      forall keys: seq<Bytes>, children: seq<nat> ::
        |children| == |keys| + 1 && Uniform(keys, w) && InnerSize(keys) <= PAYLOAD_SIZE ==>
          |InnerPage(Inner(keys, children))| == PAGE_SIZE
  {
    hide InnerPage;
    if PAYLOAD_SIZE % (6 + w) >= 4 {
      forall keys: seq<Bytes>, children: seq<nat>
        | |children| == |keys| + 1 && Uniform(keys, w) && InnerSize(keys) <= PAYLOAD_SIZE
        ensures |InnerPage(Inner(keys, children))| == PAGE_SIZE
      {
        RoomForLastChild(keys, w);
      }
    } else {
      var keys := FullestInner(w);
      var children: seq<nat> := seq(|keys| + 1, _ => 2);
      assert |InnerPage(Inner(keys, children))| != PAGE_SIZE;
    }
  }

  lemma RoomForLastChild(keys: seq<Bytes>, w: nat)
    requires PAYLOAD_SIZE % (6 + w) >= 4 && Uniform(keys, w) && InnerSize(keys) <= PAYLOAD_SIZE
    ensures InnerSize(keys) + 4 <= PAYLOAD_SIZE
  {
    UniformSizes(keys, w);
    MultipleLeavesRemainder(PAYLOAD_SIZE, |keys|, 6 + w);
  }

  /** As many keys of width `w` as the guard lets through. */
  lemma FullestInner(w: nat) returns (keys: seq<Bytes>)
    requires PAYLOAD_SIZE % (6 + w) < 4
    ensures Uniform(keys, w) && InnerSize(keys) <= PAYLOAD_SIZE < InnerSize(keys) + 4
  {
    var m := PAYLOAD_SIZE / (6 + w);
    keys := seq(m, _ => Zeros(w));
    UniformSizes(keys, w);
    assert m * (6 + w) + PAYLOAD_SIZE % (6 + w) == PAYLOAD_SIZE;
  }

  lemma MultipleLeavesRemainder(p: nat, n: nat, u: nat)
    requires u > 0 && n * u <= p
    ensures p - n * u >= p % u
  {
    if n <= p / u {
      MulMonotone(n, p / u, u);
    } else {
      PastTheQuotient(p, n, u);
    }
  }

  lemma MulMonotone(a: int, b: int, u: nat)
    requires a <= b
    ensures a * u <= b * u
  {
    assert (b - a) * u >= 0;
  }

  lemma PastTheQuotient(p: nat, n: nat, u: nat)
    requires u > 0 && n > p / u
    ensures n * u > p
  {
    MulMonotone(p / u + 1, n, u);
    assert (p / u + 1) * u == (p / u) * u + u;
  }
}
