/** An image whose object map is sorted and has bounding separators, and on which `resolve` still misses a mapping:
    an index node and two leaves, one mapping each, sealed and stored in blocks 0, 1 and 2. */
module OmapCounterexample {
  import opened Prelude
  import opened LittleEndian
  import opened Object
  import opened BlockReader
  import opened NodeGraph
  import opened BTreeNode
  import opened NodeLayout
  import opened Walk
  import opened Route
  import opened Omap
  import opened OmapLimits
  import opened StoredTree

  const BLOCK_SIZE: nat := 4096

  /** Object 1 at transactions 0 and 10; the second leaf's separator says 5. */
  const FIRST: Bytes := U64Bytes(1) + U64Bytes(0)
  const SEPARATOR: Bytes := U64Bytes(1) + U64Bytes(5)
  const SECOND: Bytes := U64Bytes(1) + U64Bytes(10)

  lemma KeysRead()
    ensures KeyOf(FIRST) == OmapKey(1, 0) && KeyOf(SEPARATOR) == OmapKey(1, 5) && KeyOf(SECOND) == OmapKey(1, 10)
  {
    hide KeyOf, U64Bytes;
    KeyReadsBack(1, 0);
    KeyReadsBack(1, 5);
    KeyReadsBack(1, 10);
  }

  // ---- the tree ----

  function Mapping(key: Bytes): Entry {
    Entry(key, Zeros(16))
  }

  function LeafAt(addr: nat, key: Bytes): Tree {
    TLeaf(addr, [Mapping(key)])
  }

  function TwoLeaves(): Tree {
    TIndex(0, [Branch(FIRST, LeafAt(1, FIRST)), Branch(SEPARATOR, LeafAt(2, SECOND))])
  }

  lemma OneLeaf(b: Branch)
    requires b.tree.TLeaf?
    ensures VisitsOf([b], None) == b.tree.entries && ReadsOf([b], None) == [b.tree.addr] && HeightOf([b]) == 1
  {
    assert [b][1..] == [];
    assert Visits(b.tree, None) == b.tree.entries;
    assert Reads(b.tree, None) == [b.tree.addr];
    assert VisitsOf([], None) == [] && ReadsOf([], None) == [];
  }

  lemma TwoLeavesShape()
    ensures var t := TwoLeaves();
            && Height(t) == 2 && NoDup(Addrs(t)) && Leaves(t) == [Mapping(FIRST), Mapping(SECOND)]
            && LeavesOf(t.branches[..0]) == [] && LeavesOf(t.branches[..1]) == [Mapping(FIRST)]
  {
    hide U64Bytes, Zeros;
    var t := TwoLeaves();
    var b0, b1 := t.branches[0], t.branches[1];
    OneLeaf(b0);
    OneLeaf(b1);
    assert t.branches[..0] == [] && t.branches[..1] == [b0] && t.branches[1..] == [b1];
    assert Visits(b0.tree, None) == b0.tree.entries && Reads(b0.tree, None) == [1];
    assert VisitsOf(t.branches, None) == b0.tree.entries + b1.tree.entries;
    assert ReadsOf(t.branches, None) == [1, 2];
    assert Addrs(t) == [0, 1, 2];
  }

  lemma TwoLeavesBounded()
    ensures Sorted(Leaves(TwoLeaves())) && SeparatorsBound(TwoLeaves())
  {
    hide KeyOf, U64Bytes, Zeros, Leaves, LeavesOf;
    KeysRead();
    TwoLeavesShape();
    var bs := TwoLeaves().branches;
    LeafEntries(1, FIRST);
    LeafEntries(2, SECOND);
    assert bs[0].tree == LeafAt(1, FIRST) && bs[1].tree == LeafAt(2, SECOND);
  }

  lemma LeafEntries(addr: nat, key: Bytes)
    ensures Leaves(LeafAt(addr, key)) == [Mapping(key)]
  {
  }

  /** A lookup of object 1 at transaction 7 lands on the second leaf. */
  lemma TwoLeavesMislead()
    ensures Misleads(TwoLeaves(), OmapKey(1, 7)) && Matches(Mapping(FIRST), OmapKey(1, 7))
  {
    hide KeyOf, U64Bytes, Zeros;
    KeysRead();
    TwoLeavesShape();
    var t, target := TwoLeaves(), OmapKey(1, 7);
    var kids := KidsOf(t.branches);
    assert kids == [Kid(FIRST, 1), Kid(SEPARATOR, 2)];
    assert Leading(kids, CompareTo(target)) == 2;
    assert LandingRun(t, CompareTo(target)) == [Mapping(SECOND)];
    assert Mapping(FIRST) in Leaves(t) && Matches(Mapping(FIRST), target);
    assert Mapping(SECOND) in Leaves(t) && target.Lt(KeyOf(Mapping(SECOND).key));
  }

  // ---- the blocks ----

  function FrameOf(leaf: bool, gap: nat): Frame {
    Frame(Zeros(32), if leaf then 6 else 4, if leaf then 0 else 1, Zeros(gap), [])
  }

  function IndexRecords(): seq<Entry> {
    [Entry(FIRST, U64Bytes(1)), Entry(SEPARATOR, U64Bytes(2))]
  }

  lemma LeafFits(key: Bytes)
    requires |key| == 16
    ensures var f, rs := FrameOf(true, 4004), [Mapping(key)];
            && Fits(f, rs, Subtype.Omap) && LeafFlag(f.flags, f.level) && |NodeBlock(f, rs, Subtype.Omap)| == BLOCK_SIZE
  {
    var f, rs := FrameOf(true, 4004), [Mapping(key)];
    assert KeyBytes(rs) == key + KeyBytes([]) && ValueBytes(rs) == ValueBytes([]) + Zeros(16);
    AllSlotsFit(f, rs, Subtype.Omap);
  }

  lemma TwoRecords(a: Entry, b: Entry)
    ensures KeyBytes([a, b]) == a.key + b.key && ValueBytes([a, b]) == b.value + a.value
  {
    assert [a, b][1..] == [b] && [b][1..] == [];
    assert KeyBytes([]) == [] && ValueBytes([]) == [];
    assert KeyBytes([b]) == b.key && ValueBytes([b]) == b.value;
  }

  lemma IndexKids()
    ensures IsIndexOf(IndexRecords(), KidsOf(TwoLeaves().branches))
  {
    hide U64Bytes, Zeros;
    var rs, kids := IndexRecords(), KidsOf(TwoLeaves().branches);
    forall i | 0 <= i < 2 ensures IsIndexRecord(rs[i], kids[i]) {
      assert rs[i] == Entry(kids[i].key, U64Bytes(kids[i].child) + []);
    }
  }

  lemma IndexFits()
    ensures var f, rs := FrameOf(false, 3984), IndexRecords();
            && Fits(f, rs, Subtype.Omap) && !LeafFlag(f.flags, f.level)
            && |NodeBlock(f, rs, Subtype.Omap)| == BLOCK_SIZE
  {
    hide U64Bytes, KeyBytes, ValueBytes, Kids, KidsOf;
    var f, rs := FrameOf(false, 3984), IndexRecords();
    TwoRecords(rs[0], rs[1]);
    AllSlotsFit(f, rs, Subtype.Omap);
  }

  ghost function LeafBlock(key: Bytes): (b: Bytes)
    requires |key| == 16
    ensures |b| == BLOCK_SIZE
  {
    LeafFits(key);
    SealedNode(FrameOf(true, 4004), [Mapping(key)], Subtype.Omap)
  }

  ghost function IndexBlock(): (b: Bytes)
    ensures |b| == BLOCK_SIZE
  {
    IndexFits();
    SealedNode(FrameOf(false, 3984), IndexRecords(), Subtype.Omap)
  }

  ghost function ThreeBlocks(): Image {
    Image(IndexBlock() + LeafBlock(FIRST) + LeafBlock(SECOND), BLOCK_SIZE)
  }

  lemma BlocksAreStored()
    ensures BlockAt(ThreeBlocks(), 0, IndexBlock())
    ensures BlockAt(ThreeBlocks(), 1, LeafBlock(FIRST)) && BlockAt(ThreeBlocks(), 2, LeafBlock(SECOND))
  {
    hide IndexBlock, LeafBlock, U64Bytes;
    var b0, b1, b2 := IndexBlock(), LeafBlock(FIRST), LeafBlock(SECOND);
    var bytes := b0 + b1 + b2;
    assert bytes[0..4096] == b0 && bytes[4096..8192] == b1 && bytes[8192..12288] == b2;
  }

  lemma LeafIsStored(addr: nat, key: Bytes)
    requires |key| == 16 && BlockAt(ThreeBlocks(), addr, LeafBlock(key))
    ensures TreeStored(ThreeBlocks(), Subtype.Omap, LeafAt(addr, key))
  {
    hide Fits, SealedNode, LeafFlag, BlockAt, ThreeBlocks, NodeBlock;
    LeafFits(key);
    assert IsStoredNode(ThreeBlocks(), Subtype.Omap, addr, Leaf([Mapping(key)]), FrameOf(true, 4004), [Mapping(key)]);
  }

  lemma TreeIsStored()
    ensures IsStoredTree(ThreeBlocks(), Subtype.Omap, 0, TwoLeaves())
  {
    hide Fits, SealedNode, LeafFlag, BlockAt, ThreeBlocks, NodeBlock, IndexRecords, U64Bytes, Height, Addrs;
    BlocksAreStored();
    LeafIsStored(1, FIRST);
    LeafIsStored(2, SECOND);
    IndexFits();
    IndexKids();
    TwoLeavesShape();
    assert IsStoredNode(ThreeBlocks(), Subtype.Omap, 0, NodeOf(TwoLeaves()), FrameOf(false, 3984), IndexRecords());
  }

  /** With a separator that is only a lower bound the lookup reports OmapUnresolved although the full walk of the
      same image visits a mapping for the object no newer than the requested transaction. */
  lemma LowerBoundsAreNotEnough()
    ensures exists img: Image, t: Tree, target: OmapKey, e: Entry ::
              && IsStoredTree(img, Subtype.Omap, 0, t) && Sorted(Leaves(t)) && SeparatorsBound(t)
              && ResolveOnDisk(img, ObjectMap(0), target.oid, target.xid)
                 == Err(OmapUnresolved(target.oid, target.xid))
              && e in WalkNode(PhysicalGraph(img, Subtype.Omap), 0, 0, None, {}).visits && Matches(e, target)
  {
    hide IsStoredTree, ThreeBlocks, TwoLeaves, Sorted, SeparatorsBound, Misleads, ResolveIn, WalkNode, PhysicalGraph;
    hide KeyOf, U64Bytes, Leaves;
    var img, t, target := ThreeBlocks(), TwoLeaves(), OmapKey(1, 7);
    TreeIsStored();
    TwoLeavesBounded();
    TwoLeavesMislead();
    TwoLeavesShape();
    StoredTreeIsWalked(img, Subtype.Omap, 0, t);
    TreeFacts(PhysicalGraph(img, Subtype.Omap), 0, t);
    MisledLookup(PhysicalGraph(img, Subtype.Omap), t, target);
    assert Leaves(t)[0] == Mapping(FIRST);
  }

  lemma TreeFacts(g: Graph, root: nat, t: Tree)
    requires IsTreeAt(g, root, t)
    ensures t.addr == root && Unfolds(g, t) && Height(t) <= MAX_DEPTH
  {
  }
}
