/** src/dir.rs: the fs-tree walk, pruned to one object id. */
module Dir {
  import opened Prelude
  import opened LittleEndian
  import opened FsRecord
  import opened Object
  import opened BlockReader
  import opened NodeGraph
  import opened BTreeNode
  import opened Walk
  import opened Omap
  import BTree

  /** The fields of a volume superblock that navigation uses. */
  datatype Volume = Volume(xid: nat, omapOid: nat, rootTreeOid: nat)

  /** The node a virtual object id stands for at a transaction: mapped, read, verified, decoded. */
  function VirtualNode(img: Image, omap: ObjectMap, xid: nat, oid: nat): Node {
    match ResolveOnDisk(img, omap, oid, xid)
    case Err(e) => Bad(e)
    case Ok(entry) =>
      match ReadObjBlock(img, entry.paddr)
      case Err(e) => Bad(e)
      case Ok(block) => DecodeNode(block, FsTree)
  }

  /** The graph of a virtual tree: an address is an object id. */
  function VirtualGraph(img: Image, omap: ObjectMap, xid: nat): Graph {
    (oid: nat) => VirtualNode(img, omap, xid, oid)
  }

  /** What a navigation entry point sees: how the walk ended and what it visited. */
  datatype Visited = Visited(result: Result<Unit>, visits: seq<Entry>)

  /** The volume's object map, read at its physical address. */
  function VolumeOmap(img: Image, vol: Volume): Result<ObjectMap> {
    var block :- ReadRawBlock(img, vol.omapOid);
    ParseObjectMap(block)
  }

  /** `walk_fs_tree`. */
  function FsWalk(img: Image, vol: Volume, target: Option<nat>): Visited {
    match VolumeOmap(img, vol)
    case Err(e) => Visited(Err(e), [])
    case Ok(omap) =>
      var w := WalkNode(VirtualGraph(img, omap, vol.xid), vol.rootTreeOid, 0, target, {});
      Visited(w.result, w.visits)
  }

  /** Which object ids fail, and how: one that is not resolved fails as the lookup does, one whose block lies beyond
      the image is an I/O error, one whose block is invalid a checksum mismatch; nothing else fails. */
  lemma VirtualNodeFailsIff(img: Image, omap: ObjectMap, xid: nat, oid: nat)
    requires img.blockSize > 0 && |img.bytes| < 0x1_0000_0000_0000_0000
    ensures var node, r := VirtualGraph(img, omap, xid)(oid), ResolveOnDisk(img, omap, oid, xid);
            match r
            case Err(e) => node == Bad(e)
            case Ok(entry) =>
              var off := entry.paddr * img.blockSize;
              if off >= 0x1_0000_0000_0000_0000 || off + img.blockSize > |img.bytes| then node == Bad(Io)
              else if !ChecksumValid(img.bytes[off..off + img.blockSize]) then node == Bad(ChecksumMismatch)
              else !node.Bad?
  {
    hide ChecksumValid, ResolveOnDisk;
  }

  method LoadVirtualNode(img: Image, omap: ObjectMap, xid: nat, oid: nat) returns (node: Node)
    ensures node == VirtualGraph(img, omap, xid)(oid)
  {
    var entry := Resolve(img, omap, oid, xid);
    if entry.Err? {
      return Bad(entry.error);
    }
    var block := ReadObjBlockInto(img, entry.value.paddr);
    if block.Err? {
      return Bad(block.error);
    }
    if |block.value| < DATA_OFF {
      return Leaf([]);
    }
    var entries := BTreeNode.NodeEntries(block.value, FsTree);
    if IsLeaf(block.value) {
      return Leaf(entries);
    }
    return Index(Kids(entries));
  }

  /** `descend_virtual` with its shared visited set. */
  class VirtualWalker {
    const img: Image
    const omap: ObjectMap
    const xid: nat
    const target: Option<nat>
    var visited: set<nat>
    var visits: seq<Entry>

    constructor (img: Image, omap: ObjectMap, xid: nat, target: Option<nat>)
      ensures this.img == img && this.omap == omap && this.xid == xid && this.target == target
      ensures visited == {} && visits == []
    {
      this.img, this.omap, this.xid, this.target, visited, visits := img, omap, xid, target, {}, [];
    }

    method DescendVirtual(oid: nat, depth: nat) returns (r: Result<Unit>)
      requires depth <= MAX_DEPTH
      modifies this
      ensures State(r, visited, visits)
           == Then(old(visited), old(visits),
                   WalkNode(VirtualGraph(img, omap, xid), oid, depth, target, old(visited)))
      decreases MAX_DEPTH - depth, 0
    {
      ghost var g := VirtualGraph(img, omap, xid);
      hide *;
      WalkEnds(g, oid, depth, target, visited, visits);
      if depth >= MAX_DEPTH || oid in visited {
        return Err(CycleGuard);
      }
      visited := visited + {oid};
      var node := LoadVirtualNode(img, omap, xid, oid);
      match node
      case Bad(e) =>
        return Err(e);
      case Leaf(es) =>
        visits := visits + es;
        return Ok(Unit);
      case Index(kids) =>
        EnterIndex(g, oid, depth, target, old(visited), visits);
        r := DescendCovering(kids, depth + 1);
    }

    /** The loop over an index node's children, skipping those whose key range cannot cover the target. */
    method DescendCovering(kids: seq<Kid>, depth: nat) returns (r: Result<Unit>)
      requires depth <= MAX_DEPTH
      modifies this
      ensures State(r, visited, visits)
           == Then(old(visited), old(visits),
                   WalkKids(VirtualGraph(img, omap, xid), kids, depth, target, old(visited)))
      decreases MAX_DEPTH - depth, 1
    {
      ghost var g := VirtualGraph(img, omap, xid);
      assert kids[0..] == kids;
      for i := 0 to |kids|
        invariant Then(visited, visits, WalkKids(g, kids[i..], depth, target, visited))
               == Then(old(visited), old(visits), WalkKids(g, kids, depth, target, old(visited)))
      {
        KidsRound(g, kids, i, depth, target, visited, visits);
        var next := if i + 1 < |kids| then Some(kids[i + 1].key) else None;
        if !Descends(kids[i].key, next, target) {
          continue;
        }
        var done :- DescendVirtual(kids[i].child, depth);
      }
      return Ok(Unit);
    }
  }

  method WalkFsTree(img: Image, vol: Volume, target: Option<nat>) returns (r: Visited)
    ensures r == FsWalk(img, vol, target)
  {
    var buf := ReadRawBlock(img, vol.omapOid);
    if buf.Err? {
      return Visited(Err(buf.error), []);
    }
    var omap := ParseObjectMap(buf.value);
    if omap.Err? {
      return Visited(Err(omap.error), []);
    }
    var walker := new VirtualWalker(img, omap.value, vol.xid, target);
    var result := walker.DescendVirtual(vol.rootTreeOid, 0);
    return Visited(result, walker.visits);
  }
}
