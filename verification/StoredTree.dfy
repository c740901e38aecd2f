/** Trees stored in an image, block by block: what lies on the disk, whatever reads it, and the graph it gives. */
module StoredTree {
  import opened Prelude
  import opened LittleEndian
  import opened Object
  import opened BlockReader
  import opened NodeGraph
  import opened BTreeNode
  import opened NodeLayout
  import opened Walk
  import opened Omap
  import opened Dir
  import opened KeyedWalk
  import opened Snapshot
  import opened Navigation

  /** The image holds a sealed node at this address, laid out from some records. */
  ghost predicate NodeStored(img: Image, sub: Subtype, paddr: nat, node: Node) {
    exists f, rs :: IsStoredNode(img, sub, paddr, node, f, rs)
  }

  ghost predicate IsStoredNode(img: Image, sub: Subtype, paddr: nat, node: Node, f: Frame, rs: seq<Entry>) {
    && Fits(f, rs, sub) && BlockAt(img, paddr, SealedNode(f, rs, sub))
    && if LeafFlag(f.flags, f.level) then node == Leaf(rs) else node.Index? && IsIndexOf(rs, node.kids)
  }

  lemma StoredNodeIs(img: Image, sub: Subtype, paddr: nat, node: Node)
    requires NodeStored(img, sub, paddr, node)
    ensures PhysicalGraph(img, sub)(paddr) == node
    ensures ReadObjBlock(img, paddr).Ok? && DecodeNode(ReadObjBlock(img, paddr).value, sub) == node
  {
    hide Fits, SealedNode, DecodeNode, ChecksumValid, LeafFlag, ReadExact, ReadRawBlock, CheckedMul, BlockAt, IsIndexOf;
    var f, rs :| IsStoredNode(img, sub, paddr, node, f, rs);
    BlockIsRead(img, paddr, SealedNode(f, rs, sub));
    SealedNodeDecodes(f, rs, sub);
    StoredNodeReadsBack(img, sub, paddr, paddr * img.blockSize, f, rs);
  }

  function NodeOf(t: Tree): Node {
    match t
    case TLeaf(_, es) => Leaf(es)
    case TIndex(_, bs) => Index(KidsOf(bs))
  }

  /** Every node of the tree is stored at its address. */
  ghost predicate TreeStored(img: Image, sub: Subtype, t: Tree) {
    && NodeStored(img, sub, t.addr, NodeOf(t))
    && (t.TIndex? ==> forall i :: 0 <= i < |t.branches| ==> TreeStored(img, sub, t.branches[i].tree))
  }

  lemma {:induction false} StoredTreeUnfolds(img: Image, sub: Subtype, t: Tree)
    requires TreeStored(img, sub, t)
    ensures Unfolds(PhysicalGraph(img, sub), t)
    decreases t
  {
    hide NodeStored, PhysicalGraph, KidsOf;
    StoredNodeIs(img, sub, t.addr, NodeOf(t));
    if t.TIndex? {
      forall i | 0 <= i < |t.branches| ensures Unfolds(PhysicalGraph(img, sub), t.branches[i].tree) {
        StoredTreeUnfolds(img, sub, t.branches[i].tree);
      }
    }
  }

  /** A stored tree that is neither too high nor uses a block twice. */
  ghost predicate IsStoredTree(img: Image, sub: Subtype, root: nat, t: Tree) {
    t.addr == root && TreeStored(img, sub, t) && Height(t) <= 64 && NoDup(Addrs(t))
  }

  /** Storing a tree node by node and walking it visits its leaves' records. */
  lemma StoredTreeIsWalked(img: Image, sub: Subtype, root: nat, t: Tree)
    requires IsStoredTree(img, sub, root, t)
    ensures IsTreeAt(PhysicalGraph(img, sub), root, t)
    ensures WalkNode(PhysicalGraph(img, sub), root, 0, None, {}) == Walked(Ok(Unit), Addrs(t), Leaves(t))
  {
    hide TreeStored, PhysicalGraph, WalkNode;
    StoredTreeUnfolds(img, sub, t);
    FullWalkSucceedsExactlyOnTrees(PhysicalGraph(img, sub), root);
  }

  // ---- virtual trees ----

  /** The newest mapping of this object not beyond the transaction, as written, leads to this node. */
  ghost predicate VirtualNodeStored(img: Image, maps: seq<Entry>, xid: nat, oid: nat, node: Node) {
    exists e, m ::
      Pinned(maps, xid, e) && IsMapping(e, m) && m.oid == oid && NodeStored(img, FsTree, m.paddr, node)
  }

  ghost predicate VirtualTreeStored(img: Image, maps: seq<Entry>, xid: nat, t: Tree) {
    && VirtualNodeStored(img, maps, xid, t.addr, NodeOf(t))
    && (t.TIndex? ==> forall i :: 0 <= i < |t.branches| ==> VirtualTreeStored(img, maps, xid, t.branches[i].tree))
  }

  /** On a stored, ordered object map a lookup returns the newest mapping of the object as it was written. */
  lemma MappingIsResolved(img: Image, omap: ObjectMap, tm: Tree, xid: nat, e: Entry, m: OmapEntry)
    requires IsStoredTree(img, Subtype.Omap, omap.treeOid, tm) && Ordered(tm)
    requires Pinned(Leaves(tm), xid, e) && IsMapping(e, m)
    ensures ResolveOnDisk(img, omap, m.oid, xid) == Ok(m)
  {
    hide IsStoredTree, Ordered, KeyOf, DecodeEntry, PhysicalGraph, WalkNode, ResolveIn, IsMapping;
    MappingReadsBack(e, m);
    var target := OmapKey(m.oid, xid);
    StoredTreeIsWalked(img, Subtype.Omap, omap.treeOid, tm);
    ResolveIsFloorOfFullWalk(PhysicalGraph(img, Subtype.Omap), omap.treeOid, tm, target);
    var r := ResolveOnDisk(img, omap, target.oid, xid);
    FloorIsPinned(Leaves(tm), target, e, r.value, tm);
  }

  lemma FloorIsPinned(es: seq<Entry>, target: OmapKey, e: Entry, r: OmapEntry, tm: Tree)
    requires es == Leaves(tm) && Ordered(tm) && Pinned(es, target.xid, e) && KeyOf(e.key).oid == target.oid
    requires IsFloor(es, target, r)
    ensures r == DecodeEntry(e)
  {
    hide Leaves, SeparatorsExact;
    assert IsFloor(es, target, DecodeEntry(e));
    UniqueFloor(es, target, r, DecodeEntry(e));
  }

  lemma {:induction false} StoredVirtualTreeUnfolds(img: Image, omap: ObjectMap, tm: Tree, xid: nat, t: Tree)
    requires IsStoredTree(img, Subtype.Omap, omap.treeOid, tm) && Ordered(tm)
    requires VirtualTreeStored(img, Leaves(tm), xid, t)
    ensures Unfolds(VirtualGraph(img, omap, xid), t)
    decreases t
  {
    hide IsStoredTree, Ordered, VirtualNodeStored, VirtualNode, KidsOf, Leaves;
    VirtualNodeIs(img, omap, tm, xid, t.addr, NodeOf(t));
    if t.TIndex? {
      forall i | 0 <= i < |t.branches| ensures Unfolds(VirtualGraph(img, omap, xid), t.branches[i].tree) {
        StoredVirtualTreeUnfolds(img, omap, tm, xid, t.branches[i].tree);
      }
    }
  }

  lemma VirtualNodeIs(img: Image, omap: ObjectMap, tm: Tree, xid: nat, oid: nat, node: Node)
    requires IsStoredTree(img, Subtype.Omap, omap.treeOid, tm) && Ordered(tm)
    requires VirtualNodeStored(img, Leaves(tm), xid, oid, node)
    ensures VirtualNode(img, omap, xid, oid) == node
  {
    hide IsStoredTree, Ordered, Leaves, Pinned, NodeStored, IsMapping, DecodeNode, ReadObjBlock, ResolveOnDisk;
    var e, m :|
      Pinned(Leaves(tm), xid, e) && IsMapping(e, m) && m.oid == oid && NodeStored(img, FsTree, m.paddr, node);
    MappingIsResolved(img, omap, tm, xid, e, m);
    StoredNodeIs(img, FsTree, m.paddr, node);
  }

  // ---- volumes ----

  /** A valid object map header that names the tree's root. */
  ghost predicate OmapStored(img: Image, omapOid: nat, treeOid: nat) {
    exists block :: IsStoredOmap(img, omapOid, treeOid, block)
  }

  ghost predicate IsStoredOmap(img: Image, omapOid: nat, treeOid: nat, block: Bytes) {
    && BlockAt(img, omapOid, block) && ChecksumValid(block)
    && |block| >= 56 && block[24] == 0xb && block[25] == 0 && HasU64(block, 48, treeOid)
  }

  lemma StoredOmapParses(img: Image, vol: Volume, treeOid: nat)
    requires OmapStored(img, vol.omapOid, treeOid)
    ensures VolumeOmap(img, vol) == Ok(ObjectMap(treeOid))
  {
    hide ChecksumValid, HasU64, ReadRawBlock, BlockAt, ParseObjectMap;
    var block :| IsStoredOmap(img, vol.omapOid, treeOid, block);
    BlockIsRead(img, vol.omapOid, block);
    ObjectMapReadsBack(block, treeOid);
  }

  /** A volume on the disk: its object map's header, the blocks of the map's tree, and the blocks of the fs-tree
      where the map's newest entries up to the volume's transaction lead. */
  ghost predicate VolumeStored(img: Image, vol: Volume, tm: Tree, t: Tree) {
    && OmapStored(img, vol.omapOid, tm.addr) && IsStoredTree(img, Subtype.Omap, tm.addr, tm) && Ordered(tm)
    && VirtualTreeStored(img, Leaves(tm), vol.xid, t)
    && t.addr == vol.rootTreeOid && Height(t) <= 64 && NoDup(Addrs(t)) && OidOrdered(t)
  }

  /** A stored volume is navigated as the fs-tree it stores. */
  lemma StoredVolumeIsNavigated(img: Image, vol: Volume, tm: Tree, t: Tree)
    requires VolumeStored(img, vol, tm, t)
    ensures FsTreeOrdered(img, vol, t)
    ensures FsWalk(img, vol, None) == Visited(Ok(Unit), Leaves(t))
  {
    hide OmapStored, IsStoredTree, Ordered, VirtualTreeStored, OidOrdered, WalkNode, VirtualGraph, VolumeOmap;
    StoredOmapParses(img, vol, tm.addr);
    StoredVirtualTreeUnfolds(img, ObjectMap(tm.addr), tm, vol.xid, t);
    FullWalkSucceedsExactlyOnTrees(VirtualGraph(img, ObjectMap(tm.addr), vol.xid), t.addr);
  }

  /** Mounting a stored superblock takes its transaction and root, and the live volume's object map. */
  lemma StoredSnapshotIsMounted(img: Image, live: Volume, sblockOid: nat, block: Bytes, frozen: Volume)
    requires BlockAt(img, sblockOid, block) && ChecksumValid(block) && IsVolumeBlock(block, frozen)
    ensures MountSnapshot(img, live, sblockOid) == Ok(Volume(frozen.xid, live.omapOid, frozen.rootTreeOid))
  {
    hide ChecksumValid, IsVolumeBlock, ReadRawBlock, BlockAt, ParseVolume;
    BlockIsRead(img, sblockOid, block);
    VolumeReadsBack(block, frozen);
  }
}
