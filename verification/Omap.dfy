/** src/omap.rs: resolving a virtual object id at a transaction id. */
module Omap {
  import opened Prelude
  import opened LittleEndian
  import opened Object
  import opened BlockReader
  import opened NodeGraph
  import opened BTreeNode
  import opened Walk
  import opened Route
  import BTree

  const OBJECT_TYPE_OMAP: nat := 0xb
  const OFF_TREE_OID: nat := 48

  datatype ObjectMap = ObjectMap(treeOid: nat)

  /** `ObjectMap::parse`: length, then type, then checksum. */
  function ParseObjectMap(block: Bytes): Result<ObjectMap> {
    if |block| < OFF_TREE_OID + 8 || ObjectType(block) != OBJECT_TYPE_OMAP then Err(UnexpectedObjectType)
    else if !ChecksumValid(block) then Err(ChecksumMismatch)
    else Ok(ObjectMap(LeU64(block, OFF_TREE_OID)))
  }

  /** What is an object map: at least 56 bytes, of type 11, with a valid checksum. */
  lemma ObjectMapParsesIff(block: Bytes)
    ensures var typed := |block| >= 56 && block[24] == 0xb && block[25] == 0;
            && (ParseObjectMap(block).Ok? <==> typed && ChecksumValid(block))
            && (!typed ==> ParseObjectMap(block) == Err(UnexpectedObjectType))
            && (typed && !ChecksumValid(block) ==> ParseObjectMap(block) == Err(ChecksumMismatch))
  {
    hide ChecksumValid, LeU32;
    ObjectTypeIs(block);
  }

  /** An object map header as written names its tree's root. */
  lemma ObjectMapReadsBack(block: Bytes, treeOid: nat)
    requires ChecksumValid(block) && |block| >= 56 && block[24] == 0xb && block[25] == 0 && HasU64(block, 48, treeOid)
    ensures ParseObjectMap(block) == Ok(ObjectMap(treeOid))
  {
    hide ChecksumValid, LeU64, HasU64, ObjectType;
    ObjectMapParsesIff(block);
    FieldReadsBack(block, 48, treeOid);
  }

  datatype OmapEntry = OmapEntry(oid: nat, xid: nat, paddr: nat, size: nat, flags: nat)

  /** `omap_key_t`: object id, then transaction id; ordered lexicographically. */
  datatype OmapKey = OmapKey(oid: nat, xid: nat) {
    predicate Lt(other: OmapKey) {
      oid < other.oid || (oid == other.oid && xid < other.xid)
    }
  }

  function KeyOf(key: Bytes): OmapKey {
    OmapKey(LeU64(key, 0), LeU64(key, 8))
  }

  function Compare(a: OmapKey, b: OmapKey): Ordering {
    if a.Lt(b) then Less else if a == b then Equal else Greater
  }

  function CompareTo(target: OmapKey): Comparator {
    key => Compare(KeyOf(key), target)
  }

  function DecodeEntry(e: Entry): OmapEntry {
    OmapEntry(KeyOf(e.key).oid, KeyOf(e.key).xid, LeU64(e.value, 8), LeU32(e.value, 4), LeU32(e.value, 0))
  }

  /** A mapping as written: object and transaction in the key; flags, size and block address in the value. */
  function MappingRecord(m: OmapEntry, rest: Bytes): Entry
    requires MappingFits(m)
  {
    Entry(U64Bytes(m.oid) + U64Bytes(m.xid), U32Bytes(m.flags) + U32Bytes(m.size) + U64Bytes(m.paddr) + rest)
  }

  predicate MappingFits(m: OmapEntry) {
    m.oid < U64_SIZE && m.xid < U64_SIZE && m.paddr < U64_SIZE && m.size < U32_SIZE && m.flags < U32_SIZE
  }

  ghost predicate IsMapping(e: Entry, m: OmapEntry) {
    MappingFits(m) && exists rest :: e == MappingRecord(m, rest)
  }

  lemma KeyReadsBack(oid: nat, xid: nat)
    requires oid < U64_SIZE && xid < U64_SIZE
    ensures KeyOf(U64Bytes(oid) + U64Bytes(xid)) == OmapKey(oid, xid)
  {
    hide U64Bytes, LeU64;
    var a, b := U64Bytes(oid), U64Bytes(xid);
    FieldU64([], oid, b);
    FieldU64(a, xid, []);
    assert [] + a + b == a + b && a + b + [] == a + b;
  }

  /** A mapping record gives back the object, transaction, address, size and flags it was written for. */
  lemma MappingReadsBack(e: Entry, m: OmapEntry)
    requires IsMapping(e, m)
    ensures KeyOf(e.key) == OmapKey(m.oid, m.xid) && DecodeEntry(e) == m
  {
    hide U32Bytes, U64Bytes, LeU32, LeU64, KeyOf;
    var rest :| e == MappingRecord(m, rest);
    var f, s, p := U32Bytes(m.flags), U32Bytes(m.size), U64Bytes(m.paddr);
    KeyReadsBack(m.oid, m.xid);
    FieldU32([], m.flags, s + p + rest);
    assert [] + f + (s + p + rest) == e.value;
    FieldU32(f, m.size, p + rest);
    assert f + s + (p + rest) == e.value;
    FieldU64(f + s, m.paddr, rest);
  }

  /** A mapping for this object no newer than the transaction. */
  predicate Matches(e: Entry, target: OmapKey) {
    KeyOf(e.key).oid == target.oid && KeyOf(e.key).xid <= target.xid
  }

  /** The visit callback: keep the newest matching mapping seen so far. */
  function Keep(best: Option<OmapEntry>, e: Entry, target: OmapKey): Option<OmapEntry> {
    if Matches(e, target) && (best.None? || KeyOf(e.key).xid > best.value.xid) then Some(DecodeEntry(e)) else best
  }

  function Scan(best: Option<OmapEntry>, es: seq<Entry>, target: OmapKey): Option<OmapEntry>
    decreases es
  {
    if es == [] then best else Scan(Keep(best, es[0], target), es[1..], target)
  }

  function Found(best: Option<OmapEntry>, target: OmapKey): Result<OmapEntry> {
    match best
    case Some(e) => Ok(e)
    case None => Err(OmapUnresolved(target.oid, target.xid))
  }

  /** `resolve` over any graph. */
  function ResolveIn(g: Graph, root: nat, target: OmapKey): Result<OmapEntry> {
    var es :- FindLeafResult(g, CompareTo(target), root);
    Found(Scan(None, es, target), target)
  }

  function ResolveOnDisk(img: Image, omap: ObjectMap, oid: nat, xid: nat): Result<OmapEntry> {
    ResolveIn(PhysicalGraph(img, Subtype.Omap), omap.treeOid, OmapKey(oid, xid))
  }

  method Resolve(img: Image, omap: ObjectMap, oid: nat, xid: nat) returns (r: Result<OmapEntry>)
    ensures r == ResolveOnDisk(img, omap, oid, xid)
  {
    var target := OmapKey(oid, xid);
    var visits :- BTree.FindLeaf(img, omap.treeOid, Subtype.Omap, CompareTo(target));
    var best: Option<OmapEntry> := None;
    assert visits[0..] == visits;
    for i := 0 to |visits|
      invariant Scan(best, visits[i..], target) == Scan(None, visits, target)
    {
      assert visits[i..][1..] == visits[i + 1..];
      var key, value := visits[i].key, visits[i].value;
      var kOid, kXid := LeU64(key, 0), LeU64(key, 8);
      if kOid != oid || kXid > xid {
        continue;
      }
      if best == None || kXid > best.value.xid {
        best := Some(OmapEntry(kOid, kXid, LeU64(value, 8), LeU32(value, 4), LeU32(value, 0)));
      }
    }
    return Found(best, target);
  }

  /** The floor: the mapping with the largest transaction id among all that match. */
  ghost predicate IsFloor(es: seq<Entry>, target: OmapKey, r: OmapEntry) {
    && (exists e :: e in es && Matches(e, target) && DecodeEntry(e) == r)
    && forall e :: e in es && Matches(e, target) ==> KeyOf(e.key).xid <= r.xid
  }

  /** A scan yields the floor of what it scanned, and nothing exactly when nothing matches. */
  lemma {:induction false} ScanFindsFloor(es: seq<Entry>, target: OmapKey)
    ensures var best := Scan(None, es, target);
            if best.Some? then IsFloor(es, target, best.value) else forall e :: e in es ==> !Matches(e, target)
  {
    ScanInvariant([], es, None, target);
    assert [] + es == es;
  }

  lemma {:induction false} ScanInvariant(done: seq<Entry>, es: seq<Entry>, best: Option<OmapEntry>, target: OmapKey)
    requires if best.Some? then IsFloor(done, target, best.value) else forall e :: e in done ==> !Matches(e, target)
    ensures var last := Scan(best, es, target);
            if last.Some? then IsFloor(done + es, target, last.value)
            else forall e :: e in done + es ==> !Matches(e, target)
    decreases es
  {
    if es == [] {
      assert done + es == done;
    } else {
      var done' := done + [es[0]];
      assert done' + es[1..] == done + es;
      assert es[0] in done';
      ScanInvariant(done', es[1..], Keep(best, es[0], target), target);
    }
  }

  ghost predicate Sorted(es: seq<Entry>) {
    forall i, j :: 0 <= i < j < |es| ==> KeyOf(es[i].key).Lt(KeyOf(es[j].key))
  }

  function FirstKey(t: Tree): OmapKey
    requires Leaves(t) != []
  {
    KeyOf(Leaves(t)[0].key)
  }

  function LastKey(t: Tree): OmapKey
    requires Leaves(t) != []
  {
    KeyOf(Leaves(t)[|Leaves(t)| - 1].key)
  }

  /** Every separator is the exact minimum key of its child's subtree: the first key of a sorted one. */
  ghost predicate SeparatorsExact(t: Tree) {
    t.TLeaf? || forall i :: 0 <= i < |t.branches| ==>
      && Leaves(t.branches[i].tree) != []
      && FirstKey(t.branches[i].tree) == KeyOf(t.branches[i].key)
      && SeparatorsExact(t.branches[i].tree)
  }

  ghost predicate Ordered(t: Tree) {
    Sorted(Leaves(t)) && SeparatorsExact(t)
  }

  /** Separators that are only bounds: not above anything in their child's subtree, above everything to the
      left of it. */
  ghost predicate SeparatorsBound(t: Tree) {
    t.TLeaf? || forall i :: 0 <= i < |t.branches| ==>
      && Leaves(t.branches[i].tree) != []
      && (forall e :: e in Leaves(t.branches[i].tree) ==> !KeyOf(e.key).Lt(KeyOf(t.branches[i].key)))
      && (forall e :: e in LeavesOf(t.branches[..i]) ==> KeyOf(e.key).Lt(KeyOf(t.branches[i].key)))
      && SeparatorsBound(t.branches[i].tree)
  }

  /** Every separator but a node's first either is exact or belongs to another object than the mapping just
      before it. */
  ghost predicate SeparatorsTell(t: Tree)
    requires SeparatorsBound(t)
  {
    t.TLeaf? || forall i :: 0 <= i < |t.branches| ==>
      && SeparatorsTell(t.branches[i].tree)
      && (i > 0 ==> Tells(t.branches[i - 1].tree, t.branches[i].key, t.branches[i].tree))
  }

  predicate Tells(before: Tree, key: Bytes, after: Tree)
    requires Leaves(before) != [] && Leaves(after) != []
  {
    FirstKey(after) == KeyOf(key) || LastKey(before).oid != KeyOf(key).oid
  }

  /** The mappings of a sorted node's child, and where they stand among the node's. */
  lemma BranchIsSorted(t: Tree, i: nat)
    requires Sorted(Leaves(t)) && t.TIndex? && i < |t.branches|
    ensures Sorted(Leaves(t.branches[i].tree))
    ensures forall e, e' :: e in LeavesOf(t.branches[..i]) && e' in Leaves(t.branches[i].tree) ==>
              KeyOf(e.key).Lt(KeyOf(e'.key))
    ensures forall e, e' :: e in Leaves(t.branches[i].tree) && e' in LeavesOf(t.branches[i + 1..]) ==>
              KeyOf(e.key).Lt(KeyOf(e'.key))
  {
    var left, here, right :=
      LeavesOf(t.branches[..i]), Leaves(t.branches[i].tree), LeavesOf(t.branches[i + 1..]);
    LeavesAround(t.branches, i);
    SortedPart(left, here, right);
    assert [] + left + (here + right) == left + here + right;
    SortedPart([], left, here + right);
  }

  lemma {:induction false} ExactSeparatorsTell(t: Tree)
    requires Ordered(t)
    ensures SeparatorsBound(t) && SeparatorsTell(t)
    decreases t
  {
    if t.TIndex? {
      forall i | 0 <= i < |t.branches|
        ensures var here := t.branches[i].tree;
                && SeparatorsBound(here) && SeparatorsTell(here)
                && (forall e :: e in Leaves(here) ==> !KeyOf(e.key).Lt(KeyOf(t.branches[i].key)))
                && (forall e :: e in LeavesOf(t.branches[..i]) ==> KeyOf(e.key).Lt(KeyOf(t.branches[i].key)))
      {
        BranchIsSorted(t, i);
        ExactSeparatorsTell(t.branches[i].tree);
      }
    }
  }

  /** Where the descent lands: everything left of the landing leaf is before the target, everything right of
      it beyond; and if its own first key is beyond the target too, nothing left of it is of the target's
      object. */
  ghost predicate LandsAtTarget(left: seq<Entry>, run: seq<Entry>, right: seq<Entry>, target: OmapKey) {
    && (forall e :: e in left ==> KeyOf(e.key).Lt(target))
    && (forall e :: e in right ==> target.Lt(KeyOf(e.key)))
    && (left + right != [] ==> run != [])
    && (left != [] && target.Lt(KeyOf(run[0].key)) ==> KeyOf(left[|left| - 1].key).oid != target.oid)
  }

  lemma SortedPart(a: seq<Entry>, m: seq<Entry>, b: seq<Entry>)
    requires Sorted(a + m + b)
    ensures Sorted(m)
    ensures forall e, e' :: e in m && e' in b ==> KeyOf(e.key).Lt(KeyOf(e'.key))
  {
    var s := a + m + b;
    assert forall i :: 0 <= i < |m| ==> s[|a| + i] == m[i];
    assert forall i :: 0 <= i < |b| ==> s[|a| + |m| + i] == b[i];
  }

  lemma {:induction false} LandingSplits(t: Tree, target: OmapKey)
    requires Sorted(Leaves(t)) && SeparatorsBound(t) && SeparatorsTell(t)
    ensures var cmp := CompareTo(target);
            LandsAtTarget(LeftOfRun(t, cmp), LandingRun(t, cmp), RightOfRun(t, cmp), target)
    decreases t
  {
    hide ChosenIndex, LeavesOf, KidsOf, Sorted, LandsAtTarget;
    if t.TLeaf? || t.branches == [] {
      LeafLands(LandingRun(t, CompareTo(target)), target);
    } else {
      var cmp, bs := CompareTo(target), t.branches;
      var c := ChosenIndex(KidsOf(bs), cmp);
      var child := bs[c].tree;
      BranchIsSorted(t, c);
      LandingSplits(child, target);
      RunIsContiguous(child, cmp);
      BeyondTheChosenChild(t, target, c);
      BeforeTheChosenChild(t, target, c);
      WidenLanding(LeavesOf(bs[..c]), LeftOfRun(child, cmp), LandingRun(child, cmp), RightOfRun(child, cmp),
                   LeavesOf(bs[c + 1..]), target);
    }
  }

  lemma LeafLands(run: seq<Entry>, target: OmapKey)
    ensures LandsAtTarget([], run, [], target)
  {
  }

  lemma WidenLanding(outerLeft: seq<Entry>, left: seq<Entry>, run: seq<Entry>, right: seq<Entry>,
                     outerRight: seq<Entry>, target: OmapKey)
    requires LandsAtTarget(left, run, right, target) && left + run + right != []
    requires forall e :: e in outerLeft ==> KeyOf(e.key).Lt(target)
    requires forall e :: e in outerRight ==> target.Lt(KeyOf(e.key))
    requires outerLeft != [] && target.Lt(KeyOf((left + run + right)[0].key)) ==>
               KeyOf(outerLeft[|outerLeft| - 1].key).oid != target.oid
    ensures LandsAtTarget(outerLeft + left, run, right + outerRight, target)
  {
    assert left == [] ==> (left + run + right)[0] == run[0] && outerLeft + left == outerLeft;
    assert left != [] ==> (outerLeft + left)[|outerLeft + left| - 1] == left[|left| - 1];
  }

  /** Everything in the children left of the chosen one is before the target, and of another object if all
      of the chosen child is beyond it. */
  lemma BeforeTheChosenChild(t: Tree, target: OmapKey, c: nat)
    requires SeparatorsBound(t) && SeparatorsTell(t) && t.TIndex? && c < |t.branches|
    requires c == ChosenIndex(KidsOf(t.branches), CompareTo(target))
    ensures var left := LeavesOf(t.branches[..c]);
            && (forall e :: e in left ==> KeyOf(e.key).Lt(target))
            && (left != [] && target.Lt(FirstKey(t.branches[c].tree)) ==>
                  KeyOf(left[|left| - 1].key).oid != target.oid)
  {
    var bs := t.branches;
    if c == 0 {
      assert bs[..c] == [];
    } else {
      assert KidsOf(bs)[c].key == bs[c].key;
      LastOfForest(bs, c);
      assert Tells(bs[c - 1].tree, bs[c].key, bs[c].tree);
    }
  }

  lemma LastOfForest(bs: seq<Branch>, c: nat)
    requires 0 < c <= |bs| && Leaves(bs[c - 1].tree) != []
    ensures var left := LeavesOf(bs[..c]);
            left != [] && KeyOf(left[|left| - 1].key) == LastKey(bs[c - 1].tree)
  {
    LeavesAround(bs[..c], c - 1);
    assert bs[..c][c..] == [];
  }

  /** Nothing in the children right of the chosen one is at or below the target. */
  lemma BeyondTheChosenChild(t: Tree, target: OmapKey, c: nat)
    requires Sorted(Leaves(t)) && SeparatorsBound(t) && t.TIndex? && t.branches != []
    requires c == ChosenIndex(KidsOf(t.branches), CompareTo(target))
    ensures forall e :: e in LeavesOf(t.branches[c + 1..]) ==> target.Lt(KeyOf(e.key))
  {
    hide Leaves, Leading, Sorted, SeparatorsBound;
    var bs := t.branches;
    var n := Leading(KidsOf(bs), CompareTo(target));
    if n < |bs| {
      BeyondTheSeparator(t, target, n);
      LeavesFrom(bs, n);
    } else {
      assert bs[c + 1..] == [];
    }
  }

  /** With a separator beyond the target, so is everything from its child on. */
  lemma BeyondTheSeparator(t: Tree, target: OmapKey, n: nat)
    requires Sorted(Leaves(t)) && SeparatorsBound(t) && t.TIndex? && n < |t.branches|
    requires CompareTo(target)(KidsOf(t.branches)[n].key) == Greater
    ensures forall e :: e in Leaves(t.branches[n].tree) + LeavesOf(t.branches[n + 1..]) ==> target.Lt(KeyOf(e.key))
  {
    hide Leaves, LeavesOf, Sorted;
    assert KidsOf(t.branches)[n].key == t.branches[n].key;
    assert Leaves(t.branches[n].tree)[0] in Leaves(t.branches[n].tree);
    BranchIsSorted(t, n);
  }

  lemma LeavesFrom(bs: seq<Branch>, n: nat)
    requires n < |bs|
    ensures LeavesOf(bs[n..]) == Leaves(bs[n].tree) + LeavesOf(bs[n + 1..])
  {
    assert bs[n..][0] == bs[n] && bs[n..][1..] == bs[n + 1..];
  }

  /** The target's floor among all leaves is the floor of the landing leaf. */
  lemma FloorIsInLandingLeaf(left: seq<Entry>, run: seq<Entry>, right: seq<Entry>, target: OmapKey)
    requires Sorted(left + run + right) && LandsAtTarget(left, run, right, target)
    ensures Scan(None, run, target) == Scan(None, left + run + right, target)
  {
    var all := left + run + right;
    ScanFindsFloor(run, target);
    ScanFindsFloor(all, target);
    forall e | e in left && Matches(e, target)
      ensures Matches(run[0], target) && KeyOf(e.key).xid <= KeyOf(run[0].key).xid
    {
      LeftBeforeRun(left, run, right, e);
    }
    var inRun, inAll := Scan(None, run, target), Scan(None, all, target);
    assert forall e :: e in all <==> e in left || e in run || e in right;
    assert inAll.Some? ==> inRun.Some?;
    if inRun.Some? {
      assert IsFloor(all, target, inRun.value);
      UniqueFloor(all, target, inRun.value, inAll.value);
    }
  }

  lemma LeftBeforeRun(left: seq<Entry>, run: seq<Entry>, right: seq<Entry>, e: Entry)
    requires Sorted(left + run + right) && e in left && run != []
    ensures KeyOf(e.key).Lt(KeyOf(run[0].key))
    ensures !KeyOf(left[|left| - 1].key).Lt(KeyOf(e.key))
  {
    SortedPart([], left, run + right);
    assert [] + left + (run + right) == left + run + right;
    assert run[0] in run + right;
  }

  lemma UniqueFloor(es: seq<Entry>, target: OmapKey, r: OmapEntry, r': OmapEntry)
    requires Sorted(es) && IsFloor(es, target, r) && IsFloor(es, target, r')
    ensures r == r'
  {
    var e :| e in es && Matches(e, target) && DecodeEntry(e) == r;
    var e' :| e' in es && Matches(e', target) && DecodeEntry(e') == r';
    var i :| 0 <= i < |es| && es[i] == e;
    var j :| 0 <= j < |es| && es[j] == e';
    assert KeyOf(e.key) == KeyOf(e'.key);
    assert i == j;
  }

  /** On a sorted tree whose separators tell, the one-path lookup returns what the same scan over all the
      leaves would. */
  lemma ResolveScansAll(g: Graph, t: Tree, target: OmapKey)
    requires Unfolds(g, t) && Height(t) <= MAX_DEPTH
    requires Sorted(Leaves(t)) && SeparatorsBound(t) && SeparatorsTell(t)
    ensures ResolveIn(g, t.addr, target) == Found(Scan(None, Leaves(t), target), target)
  {
    var cmp := CompareTo(target);
    DescentOnTree(g, t, cmp, MAX_DEPTH);
    RunIsContiguous(t, cmp);
    LandingSplits(t, target);
    FloorIsInLandingLeaf(LeftOfRun(t, cmp), LandingRun(t, cmp), RightOfRun(t, cmp), target);
  }

  /** On an ordered tree with exact separators, the one-path lookup returns what the same scan over every
      entry of the full walk would: the mapping with the largest transaction id not beyond the requested
      one, and OmapUnresolved exactly when there is none. */
  lemma ResolveIsFloorOfFullWalk(g: Graph, root: nat, t: Tree, target: OmapKey)
    requires IsTreeAt(g, root, t) && Ordered(t)
    ensures var all := WalkNode(g, root, 0, None, {}).visits;
            var r := ResolveIn(g, root, target);
            && r == Found(Scan(None, all, target), target)
            && (r.Ok? ==> IsFloor(all, target, r.value))
            && (r.Err? ==> r.error == OmapUnresolved(target.oid, target.xid))
            && (r.Err? <==> forall e :: e in all ==> !Matches(e, target))
  {
    FullWalkSucceedsExactlyOnTrees(g, root);
    ExactSeparatorsTell(t);
    ResolveScansAll(g, t, target);
    ScanFindsFloor(Leaves(t), target);
  }

  /** The mappings a lookup at transaction s can see are the same. */
  ghost predicate AgreeUpTo(es: seq<Entry>, es': seq<Entry>, s: nat) {
    forall e: Entry :: KeyOf(e.key).xid <= s ==> (e in es <==> e in es')
  }

  /** A lookup at transaction s gives the same answer on any two ordered trees, of any shapes, whose
      mappings up to s agree. */
  lemma ResolveIsStable(g: Graph, t: Tree, g': Graph, t': Tree, target: OmapKey, s: nat)
    requires IsTreeAt(g, t.addr, t) && Ordered(t) && IsTreeAt(g', t'.addr, t') && Ordered(t')
    requires AgreeUpTo(Leaves(t), Leaves(t'), s) && target.xid <= s
    ensures ResolveIn(g, t.addr, target) == ResolveIn(g', t'.addr, target)
  {
    FullWalkSucceedsExactlyOnTrees(g, t.addr);
    FullWalkSucceedsExactlyOnTrees(g', t'.addr);
    ResolveIsFloorOfFullWalk(g, t.addr, t, target);
    ResolveIsFloorOfFullWalk(g', t'.addr, t', target);
    var r, r' := ResolveIn(g, t.addr, target), ResolveIn(g', t'.addr, target);
    assert forall e: Entry :: Matches(e, target) ==> (e in Leaves(t) <==> e in Leaves(t'));
    if r.Ok? {
      assert IsFloor(Leaves(t'), target, r.value);
      UniqueFloor(Leaves(t'), target, r.value, r'.value);
    }
  }
}
