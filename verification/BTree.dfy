/** src/btree.rs: the two walks over a physically stored tree, as they run. */
module BTree {
  import opened Prelude
  import opened LittleEndian
  import opened Object
  import opened BlockReader
  import opened NodeGraph
  import opened BTreeNode
  import opened Walk
  import opened Route

  method ReadVerifiedNode(img: Image, paddr: nat) returns (r: Result<Option<Bytes>>)
    ensures r == VerifiedRead(img, paddr)
  {
    var offset := CheckedMul(paddr, img.blockSize);
    if offset == None {
      return Ok(None);
    }
    var buf :- ReadExact(img, offset.value, img.blockSize);
    var computed := Fletcher64Checksum(buf);
    if LeU64(buf, 0) != computed {
      return Err(ChecksumMismatch);
    }
    return Ok(Some(buf));
  }

  /** The node at an address: read, verified, its header parsed and its entries cut. */
  method LoadNode(img: Image, sub: Subtype, paddr: nat) returns (node: Node)
    ensures node == PhysicalGraph(img, sub)(paddr)
  {
    var read := ReadVerifiedNode(img, paddr);
    if read.Err? {
      return Bad(read.error);
    }
    if read.value == None || |read.value.value| < DATA_OFF {
      return Leaf([]);
    }
    var block := read.value.value;
    var entries := NodeEntries(block, sub);
    if IsLeaf(block) {
      return Leaf(entries);
    }
    return Index(Kids(entries));
  }

  /** `descend` with its shared visited set, and `for_each_leaf_entry` that starts it. */
  class FullWalker {
    const img: Image
    const sub: Subtype
    var visited: set<nat>
    var visits: seq<Entry>

    constructor (img: Image, sub: Subtype)
      ensures this.img == img && this.sub == sub && visited == {} && visits == []
    {
      this.img, this.sub, visited, visits := img, sub, {}, [];
    }

    method Descend(paddr: nat, depth: nat) returns (r: Result<Unit>)
      requires depth <= MAX_DEPTH
      modifies this
      ensures State(r, visited, visits)
           == Then(old(visited), old(visits), WalkNode(PhysicalGraph(img, sub), paddr, depth, None, old(visited)))
      decreases MAX_DEPTH - depth, 0
    {
      ghost var g := PhysicalGraph(img, sub);
      hide *;
      WalkEnds(g, paddr, depth, None, visited, visits);
      if depth >= MAX_DEPTH || paddr in visited {
        return Err(CycleGuard);
      }
      visited := visited + {paddr};
      var node := LoadNode(img, sub, paddr);
      match node
      case Bad(e) =>
        return Err(e);
      case Leaf(es) =>
        visits := visits + es;
        return Ok(Unit);
      case Index(kids) =>
        EnterIndex(g, paddr, depth, None, old(visited), visits);
        r := DescendAll(kids, depth + 1);
    }

    /** The loop over an index node's children. */
    method DescendAll(kids: seq<Kid>, depth: nat) returns (r: Result<Unit>)
      requires depth <= MAX_DEPTH
      modifies this
      ensures State(r, visited, visits)
           == Then(old(visited), old(visits), WalkKids(PhysicalGraph(img, sub), kids, depth, None, old(visited)))
      decreases MAX_DEPTH - depth, 1
    {
      ghost var g := PhysicalGraph(img, sub);
      assert kids[0..] == kids;
      for i := 0 to |kids|
        invariant Then(visited, visits, WalkKids(g, kids[i..], depth, None, visited))
               == Then(old(visited), old(visits), WalkKids(g, kids, depth, None, old(visited)))
      {
        KidsRound(g, kids, i, depth, None, visited, visits);
        var done :- Descend(kids[i].child, depth);
      }
      return Ok(Unit);
    }
  }

  method ForEachLeafEntry(img: Image, root: nat, sub: Subtype) returns (r: Result<Unit>, visits: seq<Entry>)
    ensures var w := WalkNode(PhysicalGraph(img, sub), root, 0, None, {});
            r == w.result && visits == w.visits
  {
    var walker := new FullWalker(img, sub);
    r := walker.Descend(root, 0);
    visits := walker.visits;
  }

  /** The loop over the separators: the last child before the first separator greater than the target. */
  method ChooseChild(kids: seq<Kid>, cmp: Comparator) returns (child: nat)
    requires kids != []
    ensures child == ChosenIndex(kids, cmp)
  {
    child := 0;
    assert kids[0..] == kids;
    for i := 0 to |kids|
      invariant Leading(kids, cmp) == i + Leading(kids[i..], cmp)
      invariant child == if i == 0 then 0 else i - 1
    {
      assert kids[i..][1..] == kids[i + 1..];
      if cmp(kids[i].key) == Greater {
        break;
      }
      child := i;
    }
  }

  /** `find_leaf` with its visited set and 64-node limit: what it visits, or how it fails. */
  method FindLeaf(img: Image, root: nat, sub: Subtype, cmp: Comparator) returns (r: Result<seq<Entry>>)
    ensures r == FindLeafResult(PhysicalGraph(img, sub), cmp, root)
  {
    ghost var g := PhysicalGraph(img, sub);
    var visited, paddr := {}, root;
    ghost var trail: seq<nat> := [root];
    for i := 0 to MAX_DEPTH
      invariant |trail| == i + 1 && trail[i] == paddr
      invariant OnRoute(g, cmp, root, trail) && visited == Left(trail)
    {
      if paddr in visited {
        RouteRevisits(g, cmp, root, trail);
        return Err(CycleGuard);
      }
      visited := visited + {paddr};
      var node := LoadNode(img, sub, paddr);
      if !node.Index? || node.kids == [] {
        RouteEnds(g, cmp, root, trail);
        return Landing(node);
      }
      var c := ChooseChild(node.kids, cmp);
      RouteExtends(g, cmp, root, trail, node.kids[c].child);
      paddr := node.kids[c].child;
      trail := trail + [paddr];
    }
    RouteEnds(g, cmp, root, trail);
    return Err(CycleGuard);
  }

  /** On any image at all, `find_leaf` reports CycleGuard exactly when the unguarded descent does not end
      within 64 nodes. */
  lemma FindLeafGuardIsExact(img: Image, sub: Subtype, cmp: Comparator, root: nat)
    ensures var g := PhysicalGraph(img, sub);
            FindLeafResult(g, cmp, root) == Err(CycleGuard) <==> !EndsWithin(g, cmp, root, 64)
  {
    hide EndsWithin, Descent;
    PhysicalNodesNeverReportCycles(img, sub);
    CycleGuardIsExact(PhysicalGraph(img, sub), cmp, root, MAX_DEPTH);
  }
}
