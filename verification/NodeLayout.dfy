/** The inverse of `node_entries`: a node laid out as the image builders do it, with a TOC, keys growing
    forwards after it and values growing backwards from the value base. */
module NodeLayout {
  import opened Prelude
  import opened LittleEndian
  import opened Object
  import opened BlockReader
  import opened NodeGraph
  import opened BTreeNode

  /** Everything in the block that is not determined by the records. */
  datatype Frame = Frame(objHeader: Bytes, flags: nat, level: nat, gap: Bytes, footer: Bytes)

  function KeyBytes(rs: seq<Entry>): Bytes {
    if rs == [] then [] else rs[0].key + KeyBytes(rs[1..])
  }

  function ValueBytes(rs: seq<Entry>): Bytes {
    if rs == [] then [] else ValueBytes(rs[1..]) + rs[0].value
  }

  predicate FixedFlag(flags: nat) {
    flags / 4 % 2 == 1
  }

  predicate LeafFlag(flags: nat, level: nat) {
    flags / 2 % 2 == 1 || level == 0
  }

  /** Four bytes a record in a fixed-size node, eight otherwise. */
  function TableLen(fixed: bool, n: nat): nat {
    if fixed then 4 * n else 8 * n
  }

  ghost predicate SizesMatch(rs: seq<Entry>, sub: Subtype, leaf: bool) {
    forall i :: 0 <= i < |rs| ==>
      && |rs[i].key| == (if sub.Omap? then 16 else 0)
      && |rs[i].value| == (if !leaf then 8 else if sub.Omap? then 16 else 0)
  }

  /** The records fit a node: the TOC and every offset and length fit their 16-bit fields, and a fixed-size
      node holds records of its subtype's sizes. */
  ghost predicate Fits(f: Frame, rs: seq<Entry>, sub: Subtype) {
    && |f.objHeader| == 32 && f.flags < U16_SIZE && f.level < U16_SIZE
    && |f.footer| == (if f.flags % 2 == 1 then 40 else 0)
    && TableLen(FixedFlag(f.flags), |rs|) < U16_SIZE
    && |KeyBytes(rs)| < U16_SIZE && |ValueBytes(rs)| < U16_SIZE
    && (FixedFlag(f.flags) ==> SizesMatch(rs, sub, LeafFlag(f.flags, f.level)))
  }

  /** The slot of record i: keys before it push its key forwards, values up to and including it push its
      value backwards. */
  function SlotOf(rs: seq<Entry>, i: nat): Slot
    requires i < |rs|
  {
    Slot(|KeyBytes(rs[..i])|, |rs[i].key|, |ValueBytes(rs[..i + 1])|, |rs[i].value|)
  }

  predicate SlotFits(s: Slot) {
    s.koff < U16_SIZE && s.klen < U16_SIZE && s.voff < U16_SIZE && s.vlen < U16_SIZE
  }

  function SlotBytes(s: Slot, fixed: bool): (b: Bytes)
    requires SlotFits(s)
    ensures |b| == if fixed then 4 else 8
  {
    if fixed then U16Bytes(s.koff) + U16Bytes(s.voff)
    else U16Bytes(s.koff) + U16Bytes(s.klen) + U16Bytes(s.voff) + U16Bytes(s.vlen)
  }

  ghost predicate SlotsFit(rs: seq<Entry>) {
    forall i :: 0 <= i < |rs| ==> SlotFits(SlotOf(rs, i))
  }

  /** The TOC of the records from i on. */
  ghost function TocFrom(rs: seq<Entry>, fixed: bool, i: nat): (b: Bytes)
    requires i <= |rs| && SlotsFit(rs)
    ensures |b| == TableLen(fixed, |rs| - i)
    decreases |rs| - i
  {
    if i == |rs| then [] else SlotBytes(SlotOf(rs, i), fixed) + TocFrom(rs, fixed, i + 1)
  }

  lemma {:induction false} KeyBytesConcat(a: seq<Entry>, b: seq<Entry>)
    ensures KeyBytes(a + b) == KeyBytes(a) + KeyBytes(b)
  {
    if a == [] {
      assert a + b == b;
    } else {
      assert (a + b)[1..] == a[1..] + b;
      KeyBytesConcat(a[1..], b);
      assert a[0].key + (KeyBytes(a[1..]) + KeyBytes(b)) == KeyBytes(a) + KeyBytes(b);
    }
  }

  lemma {:induction false} ValueBytesConcat(a: seq<Entry>, b: seq<Entry>)
    ensures ValueBytes(a + b) == ValueBytes(b) + ValueBytes(a)
  {
    if a == [] {
      assert a + b == b;
    } else {
      assert (a + b)[1..] == a[1..] + b;
      ValueBytesConcat(a[1..], b);
      assert (ValueBytes(b) + ValueBytes(a[1..])) + a[0].value == ValueBytes(b) + ValueBytes(a);
    }
  }

  /** Where record i's key and value lie among all keys and all values. */
  lemma RecordInPlace(rs: seq<Entry>, i: nat)
    requires i < |rs|
    ensures KeyBytes(rs) == KeyBytes(rs[..i]) + rs[i].key + KeyBytes(rs[i + 1..])
    ensures ValueBytes(rs) == ValueBytes(rs[i + 1..]) + rs[i].value + ValueBytes(rs[..i])
    ensures |ValueBytes(rs[..i + 1])| == |rs[i].value| + |ValueBytes(rs[..i])|
  {
    assert rs == rs[..i] + rs[i..] && rs[i..] == [rs[i]] + rs[i + 1..];
    KeyBytesConcat(rs[..i], rs[i..]);
    ValueBytesConcat(rs[..i], rs[i..]);
    assert rs[..i + 1] == rs[..i] + [rs[i]];
    ValueBytesConcat(rs[..i], [rs[i]]);
    assert ValueBytes([rs[i]]) == rs[i].value;
  }

  lemma AllSlotsFit(f: Frame, rs: seq<Entry>, sub: Subtype)
    requires Fits(f, rs, sub)
    ensures SlotsFit(rs)
  {
    forall i | 0 <= i < |rs| ensures SlotFits(SlotOf(rs, i)) {
      RecordInPlace(rs, i);
    }
  }

  ghost function Head(f: Frame, count: nat, tocLen: nat): (h: Bytes)
    requires |f.objHeader| == 32 && f.flags < U16_SIZE && f.level < U16_SIZE
    requires count < U32_SIZE && tocLen < U16_SIZE
    ensures |h| == 56
  {
    f.objHeader + U16Bytes(f.flags) + U16Bytes(f.level) + U32Bytes(count) + U16Bytes(0) + U16Bytes(tocLen) + Zeros(12)
  }

  /** The whole block. */
  ghost function NodeBlock(f: Frame, rs: seq<Entry>, sub: Subtype): Bytes
    requires Fits(f, rs, sub)
  {
    AllSlotsFit(f, rs, sub);
    var fixed := FixedFlag(f.flags);
    Head(f, |rs|, TableLen(fixed, |rs|)) + TocFrom(rs, fixed, 0) + KeyBytes(rs) + f.gap + ValueBytes(rs) + f.footer
  }

  lemma HeadFields(f: Frame, count: nat, tocLen: nat, rest: Bytes)
    requires |f.objHeader| == 32 && f.flags < U16_SIZE && f.level < U16_SIZE
    requires count < U32_SIZE && tocLen < U16_SIZE
    ensures var block := Head(f, count, tocLen) + rest;
            && LeU16(block, OFF_FLAGS) == f.flags && LeU16(block, OFF_LEVEL) == f.level
            && LeU32(block, OFF_NKEYS) == count
            && LeU16(block, OFF_TABLE_SPACE) == 0 && LeU16(block, OFF_TABLE_SPACE + 2) == tocLen
  {
    var block := Head(f, count, tocLen) + rest;
    var p0 := f.objHeader;
    var p1 := p0 + U16Bytes(f.flags);
    var p2 := p1 + U16Bytes(f.level);
    var p3 := p2 + U32Bytes(count);
    var p4 := p3 + U16Bytes(0);
    var p5 := p4 + U16Bytes(tocLen);
    var r5 := Zeros(12) + rest;
    var r4 := U16Bytes(tocLen) + r5;
    var r3 := U16Bytes(0) + r4;
    var r2 := U32Bytes(count) + r3;
    var r1 := U16Bytes(f.level) + r2;
    assert block == p5 + r5;
    assert block == p4 + r4;
    assert block == p3 + r3;
    assert block == p2 + r2;
    assert block == p1 + r1;
    FieldU16(p4, tocLen, r5);
    FieldU16(p3, 0, r4);
    FieldU32(p2, count, r3);
    FieldU16(p1, f.level, r2);
    FieldU16(p0, f.flags, r1);
  }

  lemma SlotReadsBack(block: Bytes, lay: Layout, sub: Subtype, i: nat, a: Bytes, s: Slot, b: Bytes)
    requires SlotFits(s) && block == a + SlotBytes(s, lay.fixed) + b && |a| == TocAt(lay, i)
    requires lay.fixed ==> s.klen == FixedKeyLen(sub) && s.vlen == FixedValLen(sub, lay.leaf)
    ensures SlotAt(block, lay, sub, i) == s
  {
    var k, v, kl, vl := U16Bytes(s.koff), U16Bytes(s.voff), U16Bytes(s.klen), U16Bytes(s.vlen);
    if lay.fixed {
      assert block == a + k + (v + b);
      FieldU16(a, s.koff, v + b);
      assert block == (a + k) + v + b;
      FieldU16(a + k, s.voff, b);
    } else {
      assert block == a + k + (kl + v + vl + b);
      FieldU16(a, s.koff, kl + v + vl + b);
      assert block == (a + k) + kl + (v + vl + b);
      FieldU16(a + k, s.klen, v + vl + b);
      assert block == (a + k + kl) + v + (vl + b);
      FieldU16(a + k + kl, s.voff, vl + b);
      assert block == (a + k + kl + v) + vl + b;
      FieldU16(a + k + kl + v, s.vlen, b);
    }
  }

  lemma RegroupNode(head: Bytes, toc: Bytes, keys: Bytes, gap: Bytes, values: Bytes, footer: Bytes)
    ensures var block := head + toc + keys + gap + values + footer;
            && block == head + (toc + (keys + gap + values + footer))
            && block == head + toc + (keys + gap + values + footer)
            && block == (head + toc) + keys + (gap + values + footer)
            && block == (head + toc + keys + gap) + values + footer
  {
  }

  lemma CutMiddle(block: Bytes, a: Bytes, m: Bytes, b: Bytes)
    requires block == a + m + b
    ensures Slice(block, |a|, |m|) == Some(m)
  {
    assert block[|a|..|a| + |m|] == m;
  }

  lemma KeyIsCut(block: Bytes, rs: seq<Entry>, i: nat, l: Bytes, r: Bytes)
    requires i < |rs| && block == l + KeyBytes(rs) + r
    ensures Slice(block, |l| + SlotOf(rs, i).koff, SlotOf(rs, i).klen) == Some(rs[i].key)
  {
    RecordInPlace(rs, i);
    var k0, k1 := KeyBytes(rs[..i]), KeyBytes(rs[i + 1..]);
    RegroupMiddle(l, k0, rs[i].key, k1, r);
    CutMiddle(block, l + k0, rs[i].key, k1 + r);
  }

  lemma ValueIsCut(block: Bytes, rs: seq<Entry>, i: nat, l: Bytes, r: Bytes)
    requires i < |rs| && block == l + ValueBytes(rs) + r
    ensures SlotOf(rs, i).voff <= |block| - |r|
    ensures Slice(block, |block| - |r| - SlotOf(rs, i).voff, SlotOf(rs, i).vlen) == Some(rs[i].value)
  {
    RecordInPlace(rs, i);
    var v0, v1 := ValueBytes(rs[i + 1..]), ValueBytes(rs[..i]);
    RegroupMiddle(l, v0, rs[i].value, v1, r);
    CutMiddle(block, l + v0, rs[i].value, v1 + r);
  }

  /** Every slot describes its own record. */
  ghost predicate RecordsAreCut(block: Bytes, lay: Layout, rs: seq<Entry>) {
    forall i :: 0 <= i < |rs| ==> EntryIn(block, lay, SlotOf(rs, i)) == Some(rs[i])
  }

  lemma EntryFromSlices(block: Bytes, lay: Layout, s: Slot, r: Entry)
    requires s.voff <= lay.valBase
    requires Slice(block, lay.keyArea + s.koff, s.klen) == Some(r.key)
    requires Slice(block, lay.valBase - s.voff, s.vlen) == Some(r.value)
    ensures EntryIn(block, lay, s) == Some(r)
  {
  }

  lemma RecordsInBlock(block: Bytes, lay: Layout, rs: seq<Entry>, front: Bytes, back: Bytes, front': Bytes,
                       footer: Bytes)
    requires block == front + KeyBytes(rs) + back
    requires block == front' + ValueBytes(rs) + footer
    requires |front| == lay.keyArea && lay.valBase == |block| - |footer|
    ensures RecordsAreCut(block, lay, rs)
  {
    forall i | 0 <= i < |rs| ensures EntryIn(block, lay, SlotOf(rs, i)) == Some(rs[i]) {
      KeyIsCut(block, rs, i, front, back);
      ValueIsCut(block, rs, i, front', footer);
      EntryFromSlices(block, lay, SlotOf(rs, i), rs[i]);
    }
  }

  /** From slot i on, decoding returns exactly the records from i on. */
  lemma {:induction false} DecodesFrom(block: Bytes, lay: Layout, sub: Subtype, rs: seq<Entry>, i: nat,
                                        before: Bytes, tail: Bytes)
    requires i <= |rs| == lay.count && SlotsFit(rs) && RecordsAreCut(block, lay, rs)
    requires lay.fixed ==> SizesMatch(rs, sub, lay.leaf)
    requires |before| == TocAt(lay, i) && lay.keyArea == TocAt(lay, |rs|)
    requires block == before + TocFrom(rs, lay.fixed, i) + tail
    ensures EntriesFrom(block, lay, sub, i) == rs[i..]
    decreases |rs| - i
  {
    hide EntryIn, SlotAt, EntriesFrom, KeyBytes, ValueBytes, SlotBytes, RecordsAreCut;
    if i == |rs| {
      NothingLeft(block, lay, sub, rs);
    } else {
      RecordIsCut(block, lay, rs, i);
      var slot, after := SlotBytes(SlotOf(rs, i), lay.fixed), TocFrom(rs, lay.fixed, i + 1);
      Regroup(before, slot, after, tail);
      SlotReadsBack(block, lay, sub, i, before, SlotOf(rs, i), after + tail);
      DecodesFrom(block, lay, sub, rs, i + 1, before + slot, tail);
      TakeRecord(block, lay, sub, rs, i);
    }
  }

  lemma NothingLeft(block: Bytes, lay: Layout, sub: Subtype, rs: seq<Entry>)
    requires lay.count == |rs|
    ensures EntriesFrom(block, lay, sub, |rs|) == rs[|rs|..]
  {
  }

  lemma RecordIsCut(block: Bytes, lay: Layout, rs: seq<Entry>, i: nat)
    requires i < |rs| && RecordsAreCut(block, lay, rs)
    ensures EntryIn(block, lay, SlotOf(rs, i)) == Some(rs[i])
  {
  }

  lemma TakeRecord(block: Bytes, lay: Layout, sub: Subtype, rs: seq<Entry>, i: nat)
    requires i < |rs| == lay.count && TocFits(block, lay, i)
    requires EntryIn(block, lay, SlotAt(block, lay, sub, i)) == Some(rs[i])
    requires EntriesFrom(block, lay, sub, i + 1) == rs[i + 1..]
    ensures EntriesFrom(block, lay, sub, i) == rs[i..]
  {
    hide EntryIn, SlotAt, TocFits, EntriesFrom;
    EntriesFromStep(block, lay, sub, i, []);
    assert [] + EntriesFrom(block, lay, sub, i) == EntriesFrom(block, lay, sub, i);
    assert Pushed([], Some(rs[i])) == [rs[i]];
    assert rs[i..] == [rs[i]] + rs[i + 1..];
  }

  /** The layout read back from a block with this head. */
  lemma LayoutReadsBack(block: Bytes, f: Frame, rs: seq<Entry>, sub: Subtype, tocLen: nat, rest: Bytes)
    requires Fits(f, rs, sub) && tocLen == TableLen(FixedFlag(f.flags), |rs|)
    requires block == Head(f, |rs|, tocLen) + rest && |rest| >= |f.footer|
    ensures LayoutOf(block) == Layout(|rs|, DATA_OFF, DATA_OFF + tocLen, |block| - |f.footer|,
                                      FixedFlag(f.flags), LeafFlag(f.flags, f.level))
  {
    HeadFields(f, |rs|, tocLen, rest);
  }

  /** Laying out any record list that fits, fixed or variable, root or not, and decoding returns it. */
  lemma NodeRoundTrip(f: Frame, rs: seq<Entry>, sub: Subtype)
    requires Fits(f, rs, sub)
    ensures Entries(NodeBlock(f, rs, sub), sub) == rs
  {
    AllSlotsFit(f, rs, sub);
    var fixed := FixedFlag(f.flags);
    BlockDecodes(f, rs, sub, Head(f, |rs|, TableLen(fixed, |rs|)), TocFrom(rs, fixed, 0));
  }

  lemma BlockDecodes(f: Frame, rs: seq<Entry>, sub: Subtype, head: Bytes, toc: Bytes)
    requires Fits(f, rs, sub) && SlotsFit(rs)
    requires head == Head(f, |rs|, TableLen(FixedFlag(f.flags), |rs|)) && toc == TocFrom(rs, FixedFlag(f.flags), 0)
    ensures Entries(head + toc + KeyBytes(rs) + f.gap + ValueBytes(rs) + f.footer, sub) == rs
  {
    var tail := KeyBytes(rs) + f.gap + ValueBytes(rs) + f.footer;
    var block := head + toc + KeyBytes(rs) + f.gap + ValueBytes(rs) + f.footer;
    RegroupNode(head, toc, KeyBytes(rs), f.gap, ValueBytes(rs), f.footer);
    LayoutReadsBack(block, f, rs, sub, |toc|, toc + tail);
    var lay := LayoutOf(block);
    RecordsInBlock(block, lay, rs, head + toc, f.gap + ValueBytes(rs) + f.footer,
                   head + toc + KeyBytes(rs) + f.gap, f.footer);
    DecodesFrom(block, lay, sub, rs, 0, head, tail);
  }

  /** Everything after the header. */
  ghost function Body(f: Frame, rs: seq<Entry>): Bytes
    requires SlotsFit(rs)
  {
    TocFrom(rs, FixedFlag(f.flags), 0) + (KeyBytes(rs) + f.gap + ValueBytes(rs) + f.footer)
  }

  ghost function HeadOf(f: Frame, rs: seq<Entry>, sub: Subtype): (h: Bytes)
    requires Fits(f, rs, sub)
    ensures |h| == 56
  {
    Head(f, |rs|, TableLen(FixedFlag(f.flags), |rs|))
  }

  lemma HeadAndBody(f: Frame, rs: seq<Entry>, sub: Subtype)
    requires Fits(f, rs, sub)
    ensures SlotsFit(rs) && NodeBlock(f, rs, sub) == HeadOf(f, rs, sub) + Body(f, rs)
  {
    hide Head, TocFrom, KeyBytes, ValueBytes;
    AllSlotsFit(f, rs, sub);
    RegroupNode(HeadOf(f, rs, sub), TocFrom(rs, FixedFlag(f.flags), 0), KeyBytes(rs), f.gap, ValueBytes(rs), f.footer);
  }

  /** A laid-out node holds a whole header, which says whether it is a leaf. */
  lemma NodeIsLong(f: Frame, rs: seq<Entry>, sub: Subtype)
    requires Fits(f, rs, sub)
    ensures |NodeBlock(f, rs, sub)| >= DATA_OFF
    ensures IsLeaf(NodeBlock(f, rs, sub)) == LeafFlag(f.flags, f.level)
  {
    hide LeU16, LeU32, Head, Body, NodeBlock;
    HeadAndBody(f, rs, sub);
    HeadFields(f, |rs|, TableLen(FixedFlag(f.flags), |rs|), Body(f, rs));
  }

  /** Sealing a node rewrites only its checksum field, so it is still a laid-out node. */
  lemma SealedNodeIsNode(f: Frame, rs: seq<Entry>, sub: Subtype) returns (f': Frame)
    requires Fits(f, rs, sub)
    ensures Fits(f', rs, sub) && f'.flags == f.flags && f'.level == f.level
    ensures |NodeBlock(f, rs, sub)| >= DATA_OFF && Sealed(NodeBlock(f, rs, sub)) == NodeBlock(f', rs, sub)
  {
    hide Fletcher64, Head, NodeBlock, U64Bytes, TocFrom, KeyBytes, ValueBytes;
    NodeIsLong(f, rs, sub);
    var block := NodeBlock(f, rs, sub);
    ChecksumFits(block);
    var cksum := U64Bytes(Fletcher64(block));
    f' := f.(objHeader := cksum + f.objHeader[8..]);
    HeadAndBody(f, rs, sub);
    HeadAndBody(f', rs, sub);
    ResealHead(f, |rs|, TableLen(FixedFlag(f.flags), |rs|), cksum);
    ResealBlock(HeadOf(f, rs, sub), Body(f, rs), cksum);
  }

  lemma ResealHead(f: Frame, count: nat, tocLen: nat, cksum: Bytes)
    requires |f.objHeader| == 32 && f.flags < U16_SIZE && f.level < U16_SIZE
    requires count < U32_SIZE && tocLen < U16_SIZE && |cksum| == 8
    ensures Head(f.(objHeader := cksum + f.objHeader[8..]), count, tocLen) == cksum + Head(f, count, tocLen)[8..]
  {
    hide U16Bytes, U32Bytes, Zeros;
  }

  lemma ResealBlock(head: Bytes, body: Bytes, cksum: Bytes)
    requires |head| >= 8
    ensures cksum + (head + body)[8..] == cksum + head[8..] + body
  {
    assert (head + body)[8..] == head[8..] + body;
  }

  ghost function SealedNode(f: Frame, rs: seq<Entry>, sub: Subtype): Bytes
    requires Fits(f, rs, sub)
  {
    NodeIsLong(f, rs, sub);
    Sealed(NodeBlock(f, rs, sub))
  }

  /** An index record as written: the separator, and the child's address in eight bytes. */
  ghost predicate IsIndexRecord(r: Entry, kid: Kid) {
    kid.child < U64_SIZE && exists rest :: r == Entry(kid.key, U64Bytes(kid.child) + rest)
  }

  ghost predicate IsIndexOf(rs: seq<Entry>, kids: seq<Kid>) {
    |rs| == |kids| && forall i :: 0 <= i < |rs| ==> IsIndexRecord(rs[i], kids[i])
  }

  /** Index records give back the separators and children they were written for. */
  lemma KidsReadBack(rs: seq<Entry>, kids: seq<Kid>)
    requires IsIndexOf(rs, kids)
    ensures Kids(rs) == kids
  {
    hide LeU64, U64Bytes;
    forall i | 0 <= i < |rs| ensures Kids(rs)[i] == kids[i] {
      assert IsIndexRecord(rs[i], kids[i]);
      var rest :| rs[i] == Entry(kids[i].key, U64Bytes(kids[i].child) + rest);
      FieldU64([], kids[i].child, rest);
      assert [] + U64Bytes(kids[i].child) + rest == rs[i].value;
    }
  }

  /** A sealed node passes the checksum gate and decodes to the leaf or index node of its records. */
  lemma SealedNodeDecodes(f: Frame, rs: seq<Entry>, sub: Subtype)
    requires Fits(f, rs, sub)
    ensures ChecksumValid(SealedNode(f, rs, sub))
    ensures LeafFlag(f.flags, f.level) ==> DecodeNode(SealedNode(f, rs, sub), sub) == Leaf(rs)
    ensures forall kids :: !LeafFlag(f.flags, f.level) && IsIndexOf(rs, kids) ==>
              DecodeNode(SealedNode(f, rs, sub), sub) == Index(kids)
  {
    hide Entries, Sealed, Stored, Fletcher64, NodeBlock, Fits, IsLeaf, LeafFlag;
    NodeIsLong(f, rs, sub);
    var f' := SealedNodeIsNode(f, rs, sub);
    NodeIsLong(f', rs, sub);
    SealedIsValid(NodeBlock(f, rs, sub));
    NodeRoundTrip(f', rs, sub);
    forall kids | IsIndexOf(rs, kids) ensures Kids(rs) == kids {
      KidsReadBack(rs, kids);
    }
  }

  /** A sealed node stored in the image is, to every walk, the leaf or index node of its records. */
  lemma StoredNodeReadsBack(img: Image, sub: Subtype, paddr: nat, off: nat, f: Frame, rs: seq<Entry>)
    requires CheckedMul(paddr, img.blockSize) == Some(off) && Fits(f, rs, sub)
    requires ReadExact(img, off, img.blockSize) == Ok(SealedNode(f, rs, sub))
    ensures LeafFlag(f.flags, f.level) ==> PhysicalGraph(img, sub)(paddr) == Leaf(rs)
    ensures forall kids :: !LeafFlag(f.flags, f.level) && IsIndexOf(rs, kids) ==>
              PhysicalGraph(img, sub)(paddr) == Index(kids)
  {
    hide DecodeNode, ReadExact, CheckedMul, SealedNode, ChecksumValid, Fits, LeafFlag, IsIndexOf;
    SealedNodeDecodes(f, rs, sub);
  }
}
