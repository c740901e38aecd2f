/** src/btree.rs: decoding one node block into its entries. */
module BTreeNode {
  import opened Prelude
  import opened LittleEndian
  import opened Object
  import opened BlockReader
  import opened NodeGraph

  datatype Subtype = Omap | FsTree

  const OFF_FLAGS: nat := 32
  const OFF_LEVEL: nat := 34
  const OFF_NKEYS: nat := 36
  const OFF_TABLE_SPACE: nat := 40
  const DATA_OFF: nat := 56
  const INFO_LEN: nat := 40
  const MAX_NKEYS: nat := 0x10_0000

  const FLAG_ROOT: nat := 1
  const FLAG_LEAF: nat := 2
  const FLAG_FIXED: nat := 4

  function Flags(block: Bytes): nat {
    LeU16(block, OFF_FLAGS)
  }

  predicate IsRoot(block: Bytes) {
    Flags(block) % 2 == 1
  }

  predicate IsLeaf(block: Bytes) {
    Flags(block) / FLAG_LEAF % 2 == 1 || LeU16(block, OFF_LEVEL) == 0
  }

  predicate IsFixed(block: Bytes) {
    Flags(block) / FLAG_FIXED % 2 == 1
  }

  /** Entry sizes a fixed-size node does not store. */
  function FixedKeyLen(sub: Subtype): nat {
    if sub.Omap? then 16 else 0
  }

  function FixedValLen(sub: Subtype, leaf: bool): nat {
    if !leaf then 8 else if sub.Omap? then 16 else 0
  }

  function TocEntryLen(fixed: bool): nat {
    if fixed then 4 else 8
  }

  /** The layout one node header describes. Values are addressed backwards from valBase: the start of the
      footer on a root node, the end of the block otherwise. */
  datatype Layout = Layout(count: nat, tocStart: nat, keyArea: nat, valBase: nat, fixed: bool, leaf: bool)

  function LayoutOf(block: Bytes): Layout {
    var tocStart := DATA_OFF + LeU16(block, OFF_TABLE_SPACE);
    Layout(Min(LeU32(block, OFF_NKEYS), MAX_NKEYS), tocStart, tocStart + LeU16(block, OFF_TABLE_SPACE + 2),
           ValBase(block), IsFixed(block), IsLeaf(block))
  }

  function ValBase(block: Bytes): nat {
    if IsRoot(block) then (if |block| < INFO_LEN then 0 else |block| - INFO_LEN) else |block|
  }

  /** `i * entry_len`. */
  function SlotOffset(fixed: bool, i: nat): nat {
    if fixed then 4 * i else 8 * i
  }

  function TocAt(lay: Layout, i: nat): nat {
    lay.tocStart + SlotOffset(lay.fixed, i)
  }

  /** The TOC entry lies before the keys and inside the node. */
  predicate TocFits(block: Bytes, lay: Layout, i: nat) {
    TocAt(lay, i) + TocEntryLen(lay.fixed) <= Min(lay.keyArea, |block|)
  }

  /** `get(from..from + len)`. */
  function Slice(block: Bytes, from: nat, len: nat): Option<Bytes> {
    if from + len <= |block| then Some(block[from..from + len]) else None
  }

  /** A TOC entry: where its key and value are, the sizes taken from the subtype in a fixed-size node. */
  datatype Slot = Slot(koff: nat, klen: nat, voff: nat, vlen: nat)

  function SlotAt(block: Bytes, lay: Layout, sub: Subtype, i: nat): Slot {
    var e := TocAt(lay, i);
    if lay.fixed then Slot(LeU16(block, e), FixedKeyLen(sub), LeU16(block, e + 2), FixedValLen(sub, lay.leaf))
    else Slot(LeU16(block, e), LeU16(block, e + 2), LeU16(block, e + 4), LeU16(block, e + 6))
  }

  /** The entry a slot describes, or None if its key or value would leave the node. */
  function EntryIn(block: Bytes, lay: Layout, slot: Slot): Option<Entry> {
    if lay.valBase < slot.voff then None
    else
      var key := Slice(block, lay.keyArea + slot.koff, slot.klen);
      var value := Slice(block, lay.valBase - slot.voff, slot.vlen);
      if key.Some? && value.Some? then Some(Entry(key.value, value.value)) else None
  }

  function Pushed(out: seq<Entry>, e: Option<Entry>): seq<Entry> {
    if e.Some? then out + [e.value] else out
  }

  /** Slots from i on: stop at the first that leaves the TOC, skip those whose entry leaves the node. */
  function EntriesFrom(block: Bytes, lay: Layout, sub: Subtype, i: nat): seq<Entry>
    decreases lay.count - i
  {
    if i >= lay.count || !TocFits(block, lay, i) then []
    else Pushed([], EntryIn(block, lay, SlotAt(block, lay, sub, i))) + EntriesFrom(block, lay, sub, i + 1)
  }

  function Entries(block: Bytes, sub: Subtype): seq<Entry> {
    if |block| < DATA_OFF then [] else EntriesFrom(block, LayoutOf(block), sub, 0)
  }

  /** `node_entries`. */
  method NodeEntries(block: Bytes, sub: Subtype) returns (out: seq<Entry>)
    ensures out == Entries(block, sub)
  {
    if |block| < DATA_OFF {
      return [];
    }
    var lay := LayoutOf(block);
    out := CollectEntries(block, lay, sub);
  }

  method CollectEntries(block: Bytes, lay: Layout, sub: Subtype) returns (out: seq<Entry>)
    ensures out == EntriesFrom(block, lay, sub, 0)
  {
    ghost var all := EntriesFrom(block, lay, sub, 0);
    out := [];
    var i := 0;
    while i < lay.count
      invariant 0 <= i <= lay.count
      invariant out + EntriesFrom(block, lay, sub, i) == all
    {
      if !TocFits(block, lay, i) {
        break;
      }
      var entry := EntryIn(block, lay, SlotAt(block, lay, sub, i));
      EntriesFromStep(block, lay, sub, i, out);
      if entry.Some? {
        out := out + [entry.value];
      }
      i := i + 1;
    }
  }

  lemma EntriesFromStep(block: Bytes, lay: Layout, sub: Subtype, i: nat, out: seq<Entry>)
    requires i < lay.count && TocFits(block, lay, i)
    ensures out + EntriesFrom(block, lay, sub, i)
         == Pushed(out, EntryIn(block, lay, SlotAt(block, lay, sub, i))) + EntriesFrom(block, lay, sub, i + 1)
  {
    PushedConcat(out, EntryIn(block, lay, SlotAt(block, lay, sub, i)), EntriesFrom(block, lay, sub, i + 1));
  }

  lemma PushedConcat(out: seq<Entry>, e: Option<Entry>, rest: seq<Entry>)
    ensures out + (Pushed([], e) + rest) == Pushed(out, e) + rest
  {
  }

  ghost predicate SliceOf(part: Bytes, block: Bytes) {
    exists i, j :: 0 <= i <= j <= |block| && part == block[i..j]
  }

  /** On any bytes at all, every key and value is a slice of the block, and there are no more entries than
      the key count or the TOC allows. */
  lemma EntriesStayInsideTheBlock(block: Bytes, sub: Subtype)
    ensures forall e :: e in Entries(block, sub) ==> SliceOf(e.key, block) && SliceOf(e.value, block)
    ensures |Entries(block, sub)| <= Min(LeU32(block, OFF_NKEYS), MAX_NKEYS)
    ensures |Entries(block, sub)| * TocEntryLen(IsFixed(block)) <= LeU16(block, OFF_TABLE_SPACE + 2)
  {
    if |block| >= DATA_OFF {
      var lay := LayoutOf(block);
      EntriesAreSlices(block, lay, sub, 0);
      EntriesFitTheToc(block, lay, sub, 0);
    }
  }

  lemma EntryStaysInside(block: Bytes, lay: Layout, slot: Slot)
    ensures var e := EntryIn(block, lay, slot);
            e.Some? ==> SliceOf(e.value.key, block) && SliceOf(e.value.value, block)
  {
  }

  lemma {:induction false} EntriesAreSlices(block: Bytes, lay: Layout, sub: Subtype, i: nat)
    ensures forall e :: e in EntriesFrom(block, lay, sub, i) ==> SliceOf(e.key, block) && SliceOf(e.value, block)
    decreases lay.count - i
  {
    if i < lay.count && TocFits(block, lay, i) {
      EntriesAreSlices(block, lay, sub, i + 1);
      EntryStaysInside(block, lay, SlotAt(block, lay, sub, i));
      EntriesFromStep(block, lay, sub, i, []);
    }
  }

  lemma {:induction false} EntriesFitTheToc(block: Bytes, lay: Layout, sub: Subtype, i: nat)
    ensures i <= lay.count ==> i + |EntriesFrom(block, lay, sub, i)| <= lay.count
    ensures TocAt(lay, i) <= lay.keyArea ==> TocAt(lay, i + |EntriesFrom(block, lay, sub, i)|) <= lay.keyArea
    decreases lay.count - i
  {
    hide EntryIn, SlotAt;
    if i < lay.count && TocFits(block, lay, i) {
      EntriesFitTheToc(block, lay, sub, i + 1);
      EntriesFromStep(block, lay, sub, i, []);
    }
  }

  // ---- the decoder in terms of the block's bytes ----

  /** Where slot i of the table is: the table starts past the 56-byte header, at the offset the header names. */
  function SlotStart(block: Bytes, i: nat): nat {
    56 + LeU16(block, 40) + (if LeU16(block, 32) / 4 % 2 == 1 then 4 * i else 8 * i)
  }

  /** The keys start where the table ends. */
  function TableEnd(block: Bytes): nat {
    56 + LeU16(block, 40) + LeU16(block, 42)
  }

  predicate InTable(block: Bytes, i: nat) {
    && i < LeU32(block, 36) && i < 0x10_0000
    && SlotStart(block, i + 1) <= TableEnd(block) && SlotStart(block, i + 1) <= |block|
  }

  /** Values are found backwards from the end of the block, or from its 40-byte footer if it is a root. */
  function ValueEnd(block: Bytes): nat {
    if LeU16(block, 32) % 2 == 0 then |block| else if |block| < 40 then 0 else |block| - 40
  }

  /** The key and the value slot i describes lie in the block, and are these. */
  ghost predicate Describes(block: Bytes, sub: Subtype, i: nat, e: Entry) {
    var s := SlotStart(block, i);
    var fixed := LeU16(block, 32) / 4 % 2 == 1;
    var leaf := LeU16(block, 32) / 2 % 2 == 1 || LeU16(block, 34) == 0;
    var key := TableEnd(block) + LeU16(block, s);
    var keyLen := if !fixed then LeU16(block, s + 2) else if sub.Omap? then 16 else 0;
    var back := LeU16(block, if fixed then s + 2 else s + 4);
    var valueLen := if !fixed then LeU16(block, s + 6) else if !leaf then 8 else if sub.Omap? then 16 else 0;
    && key + keyLen <= |block| && e.key == block[key..key + keyLen]
    && back <= ValueEnd(block) && ValueEnd(block) - back + valueLen <= |block|
    && e.value == block[ValueEnd(block) - back..ValueEnd(block) - back + valueLen]
  }

  lemma DescribesIff(block: Bytes, sub: Subtype, i: nat, e: Entry)
    ensures Describes(block, sub, i, e) <==>
              EntryIn(block, LayoutOf(block), SlotAt(block, LayoutOf(block), sub, i)) == Some(e)
  {
    hide LeU16, LeU32;
  }

  /** Slots, in increasing order, are the ones these entries come from. */
  ghost predicate ComeFrom(block: Bytes, sub: Subtype, slots: seq<nat>, es: seq<Entry>) {
    && |slots| == |es|
    && (forall k :: 0 <= k < |slots| ==> InTable(block, slots[k]) && Describes(block, sub, slots[k], es[k]))
    && (forall j, k :: 0 <= j < k < |slots| ==> slots[j] < slots[k])
  }

  lemma InTableIff(block: Bytes, i: nat)
    ensures InTable(block, i) <==> i < LayoutOf(block).count && TocFits(block, LayoutOf(block), i)
  {
    hide LeU16, LeU32;
  }

  lemma InTableFromTheFirst(block: Bytes, i: nat, j: nat)
    requires i <= j && InTable(block, j)
    ensures InTable(block, i)
  {
    hide LeU16, LeU32;
  }

  lemma PrependSlot(block: Bytes, sub: Subtype, i: nat, e: Entry, slots: seq<nat>, es: seq<Entry>)
    requires InTable(block, i) && Describes(block, sub, i, e) && ComeFrom(block, sub, slots, es)
    requires forall k :: 0 <= k < |slots| ==> i < slots[k]
    ensures ComeFrom(block, sub, [i] + slots, [e] + es)
  {
    hide InTable, Describes;
  }

  lemma {:induction false} SlotsFrom(block: Bytes, sub: Subtype, i: nat) returns (slots: seq<nat>)
    ensures ComeFrom(block, sub, slots, EntriesFrom(block, LayoutOf(block), sub, i))
    ensures forall k :: 0 <= k < |slots| ==> i <= slots[k]
    ensures forall j: nat, e :: i <= j && InTable(block, j) && Describes(block, sub, j, e) ==> j in slots
    decreases LayoutOf(block).count - i
  {
    hide Describes, EntryIn, SlotAt, InTable, LayoutOf, TocFits, ComeFrom;
    var lay := LayoutOf(block);
    InTableIff(block, i);
    if InTable(block, i) {
      var rest := SlotsFrom(block, sub, i + 1);
      var es := EntriesFrom(block, lay, sub, i + 1);
      var entry := EntryIn(block, lay, SlotAt(block, lay, sub, i));
      forall e ensures Describes(block, sub, i, e) <==> entry == Some(e) {
        DescribesIff(block, sub, i, e);
      }
      if entry.Some? {
        slots := [i] + rest;
        PrependSlot(block, sub, i, entry.value, rest, es);
        assert EntriesFrom(block, lay, sub, i) == [entry.value] + es;
      } else {
        slots := rest;
        assert EntriesFrom(block, lay, sub, i) == es;
      }
    } else {
      slots := [];
      NoSlots(block, sub);
      forall j: nat | i <= j ensures !InTable(block, j) {
        if InTable(block, j) {
          InTableFromTheFirst(block, i, j);
        }
      }
    }
  }

  lemma NoSlots(block: Bytes, sub: Subtype)
    ensures ComeFrom(block, sub, [], [])
  {
  }

  /** On any bytes at all the result is, in order, what those slots of the table describe whose key and value lie
      in the block, and nothing else. */
  lemma EntriesAreTheGoodSlots(block: Bytes, sub: Subtype) returns (slots: seq<nat>)
    ensures |block| < 56 ==> Entries(block, sub) == []
    ensures |block| >= 56 ==> ComeFrom(block, sub, slots, Entries(block, sub))
    ensures |block| >= 56 ==> forall j: nat, e :: InTable(block, j) && Describes(block, sub, j, e) ==> j in slots
  {
    slots := SlotsFrom(block, sub, 0);
  }

  /** What a verified node block is to a walk. */
  function DecodeNode(block: Bytes, sub: Subtype): Node {
    if |block| < DATA_OFF then Leaf([])
    else if IsLeaf(block) then Leaf(Entries(block, sub))
    else Index(Kids(Entries(block, sub)))
  }

  function Kids(es: seq<Entry>): (kids: seq<Kid>)
    ensures |kids| == |es|
  {
    seq(|es|, i requires 0 <= i < |es| => Kid(es[i].key, LeU64(es[i].value, 0)))
  }

  /** `read_verified_node`: Ok(None) for an address whose byte offset does not fit 64 bits. */
  function VerifiedRead(img: Image, paddr: nat): Result<Option<Bytes>> {
    match CheckedMul(paddr, img.blockSize)
    case None => Ok(None)
    case Some(off) =>
      var block :- ReadExact(img, off, img.blockSize);
      if ChecksumValid(block) then Ok(Some(block)) else Err(ChecksumMismatch)
  }

  function ReadNode(img: Image, sub: Subtype, paddr: nat): Node {
    match VerifiedRead(img, paddr)
    case Err(e) => Bad(e)
    case Ok(None) => Leaf([])
    case Ok(Some(block)) => DecodeNode(block, sub)
  }

  /** The graph of a physically stored tree: an address is a block number. */
  function PhysicalGraph(img: Image, sub: Subtype): Graph {
    (paddr: nat) => ReadNode(img, sub, paddr)
  }

  /** A child is the number the first eight bytes of its value write, or 0 if there are fewer. */
  lemma KidsAreDigits(es: seq<Entry>)
    ensures forall i :: 0 <= i < |es| ==>
              Kids(es)[i] == Kid(es[i].key, if |es[i].value| >= 8 then Digits(es[i].value[..8]) else 0)
  {
    hide LeU64, Digits;
    forall i | 0 <= i < |es|
      ensures LeU64(es[i].value, 0) == if |es[i].value| >= 8 then Digits(es[i].value[..8]) else 0
    {
      ReadsAreDigits(es[i].value, 0);
      assert |es[i].value| >= 8 ==> es[i].value[0..8] == es[i].value[..8];
    }
  }

  /** Which addresses fail, and how: a block beyond the image is an I/O error, an invalid one a checksum mismatch,
      and nothing else is; an address whose offset overflows is skipped. */
  lemma PhysicalNodeFailsIff(img: Image, sub: Subtype, paddr: nat)
    requires img.blockSize > 0
    ensures var node, off := PhysicalGraph(img, sub)(paddr), paddr * img.blockSize;
            if off >= 0x1_0000_0000_0000_0000 then node == Leaf([])
            else if off + img.blockSize > |img.bytes| then node == Bad(Io)
            else if !ChecksumValid(img.bytes[off..off + img.blockSize]) then node == Bad(ChecksumMismatch)
            else !node.Bad?
  {
    hide ChecksumValid;
  }

  lemma PhysicalNodesNeverReportCycles(img: Image, sub: Subtype)
    ensures forall a: nat :: PhysicalGraph(img, sub)(a) != Bad(CycleGuard)
  {
  }
}
