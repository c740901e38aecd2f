/** src/snapshot.rs: mounting a snapshot by grafting the live object map onto the frozen superblock, and
    why later transactions do not disturb what the mounted snapshot reads. */
module Snapshot {
  import opened Prelude
  import opened LittleEndian
  import opened Object
  import opened BlockReader
  import opened NodeGraph
  import opened BTreeNode
  import opened Walk
  import opened Omap
  import opened Dir

  const OBJECT_TYPE_FS: nat := 0xd
  const APFS_MAGIC: nat := 0x4253_5041
  const APSB_MIN_LEN: nat := 960

  /** src/volume.rs `ApfsVolume::parse`: length, type, signature, checksum, then the fields. */
  function ParseVolume(block: Bytes): Result<Volume> {
    if |block| < APSB_MIN_LEN || ObjectType(block) != OBJECT_TYPE_FS || LeU32(block, 32) != APFS_MAGIC then
      Err(UnexpectedObjectType)
    else if !ChecksumValid(block) then Err(ChecksumMismatch)
    else Ok(Volume(LeU64(block, 16), LeU64(block, 128), LeU64(block, 136)))
  }

  /** The type and signature of a volume superblock, by their bytes: type 13, "APSB". */
  predicate IsVolumeTyped(block: Bytes) {
    && |block| >= 960 && block[24] == 0xd && block[25] == 0
    && block[32] == 0x41 && block[33] == 0x50 && block[34] == 0x53 && block[35] == 0x42
  }

  /** What is a volume superblock. */
  lemma VolumeParsesIff(block: Bytes)
    ensures ParseVolume(block).Ok? <==> IsVolumeTyped(block) && ChecksumValid(block)
    ensures !IsVolumeTyped(block) ==> ParseVolume(block) == Err(UnexpectedObjectType)
    ensures IsVolumeTyped(block) && !ChecksumValid(block) ==> ParseVolume(block) == Err(ChecksumMismatch)
  {
    hide ChecksumValid, LeU32, LeU64, ObjectType;
    ObjectTypeIs(block);
    FourBytesAre(block, 32);
  }

  /** A volume superblock as written. */
  predicate IsVolumeBlock(block: Bytes, vol: Volume) {
    && IsVolumeTyped(block)
    && HasU64(block, 16, vol.xid) && HasU64(block, 128, vol.omapOid) && HasU64(block, 136, vol.rootTreeOid)
  }

  lemma VolumeReadsBack(block: Bytes, vol: Volume)
    requires ChecksumValid(block) && IsVolumeBlock(block, vol)
    ensures ParseVolume(block) == Ok(vol)
  {
    hide ChecksumValid, LeU32, LeU64, HasU64, IsVolumeTyped, ObjectType;
    VolumeParsesIff(block);
    FieldReadsBack(block, 16, vol.xid);
    FieldReadsBack(block, 128, vol.omapOid);
    FieldReadsBack(block, 136, vol.rootTreeOid);
  }

  /** `mount_snapshot`: the frozen superblock with the live volume's object map. */
  function MountSnapshot(img: Image, live: Volume, sblockOid: nat): Result<Volume> {
    var block :- ReadRawBlock(img, sblockOid);
    var frozen :- ParseVolume(block);
    Ok(frozen.(omapOid := live.omapOid))
  }

  /** What a walk of the mounted snapshot sees. */
  function SnapshotWalk(img: Image, live: Volume, sblockOid: nat, target: Option<nat>): Visited {
    match MountSnapshot(img, live, sblockOid)
    case Err(e) => Visited(Err(e), [])
    case Ok(vol) => FsWalk(img, vol, target)
  }

  /** The container as one transaction left it. */
  datatype Disk = Disk(img: Image, live: Volume)

  ghost predicate OmapTree(d: Disk, t: Tree) {
    && VolumeOmap(d.img, d.live).Ok?
    && IsTreeAt(PhysicalGraph(d.img, Subtype.Omap), VolumeOmap(d.img, d.live).value.treeOid, t)
    && Ordered(t)
  }

  /** The live volume's object map can be read and is an ordered tree. */
  ghost predicate Healthy(d: Disk) {
    exists t :: OmapTree(d, t)
  }

  /** Every mapping the object map holds: what its full walk visits. */
  function Mappings(d: Disk): seq<Entry> {
    match VolumeOmap(d.img, d.live)
    case Err(_) => []
    case Ok(omap) => WalkNode(PhysicalGraph(d.img, Subtype.Omap), omap.treeOid, 0, None, {}).visits
  }

  /** A mapping a snapshot at s pins: the newest of its object not beyond s. */
  ghost predicate Pinned(es: seq<Entry>, s: nat, e: Entry) {
    && e in es && Matches(e, OmapKey(KeyOf(e.key).oid, s))
    && forall e' :: e' in es && Matches(e', OmapKey(KeyOf(e.key).oid, s)) ==> KeyOf(e'.key).xid <= KeyOf(e.key).xid
  }

  /** A copy-on-write transaction later than s: it adds only mappings newer than s, drops none that a
      snapshot at s pins, and rewrites neither the blocks those point to nor the frozen superblock. The
      omap tree may take any other shape, anywhere, and every other block may change. */
  ghost predicate Commit(d: Disk, d': Disk, s: nat, sblockOid: nat) {
    && Healthy(d')
    && (forall e :: e in Mappings(d') ==> e in Mappings(d) || KeyOf(e.key).xid > s)
    && (forall e :: Pinned(Mappings(d), s, e) ==> e in Mappings(d'))
    && (forall e :: Pinned(Mappings(d), s, e) ==>
          ReadRawBlock(d'.img, DecodeEntry(e).paddr) == ReadRawBlock(d.img, DecodeEntry(e).paddr))
    && ReadRawBlock(d'.img, sblockOid) == ReadRawBlock(d.img, sblockOid)
  }

  /** On a healthy disk a lookup at s returns exactly the pinned mapping of the object. */
  lemma LookupReturnsPinned(d: Disk, oid: nat, s: nat)
    requires Healthy(d)
    ensures var r := ResolveOnDisk(d.img, VolumeOmap(d.img, d.live).value, oid, s);
            match r
            case Ok(entry) =>
              exists e :: Pinned(Mappings(d), s, e) && DecodeEntry(e) == entry && KeyOf(e.key).oid == oid
            case Err(x) => x == OmapUnresolved(oid, s) && forall e :: e in Mappings(d) ==> !Matches(e, OmapKey(oid, s))
  {
    var t :| OmapTree(d, t);
    ResolveIsFloorOfFullWalk(PhysicalGraph(d.img, Subtype.Omap), VolumeOmap(d.img, d.live).value.treeOid, t,
                             OmapKey(oid, s));
  }

  lemma PinnedIsUnique(d: Disk, s: nat, e: Entry, e': Entry)
    requires Healthy(d) && Pinned(Mappings(d), s, e) && Pinned(Mappings(d), s, e')
    requires KeyOf(e.key).oid == KeyOf(e'.key).oid
    ensures e == e'
  {
    var t :| OmapTree(d, t);
    var es := Mappings(d);
    FullWalkSucceedsExactlyOnTrees(PhysicalGraph(d.img, Subtype.Omap), VolumeOmap(d.img, d.live).value.treeOid);
    assert Sorted(es);
    var i :| 0 <= i < |es| && es[i] == e;
    var j :| 0 <= j < |es| && es[j] == e';
    assert i == j;
  }

  /** A transaction keeps the set of pinned mappings as it is. */
  lemma PinnedIsKept(d: Disk, d': Disk, s: nat, sblockOid: nat, e: Entry)
    requires Healthy(d) && Commit(d, d', s, sblockOid)
    ensures Pinned(Mappings(d), s, e) <==> Pinned(Mappings(d'), s, e)
  {
    if Pinned(Mappings(d'), s, e) {
      LookupReturnsPinned(d, KeyOf(e.key).oid, s);
      assert e in Mappings(d);
    }
  }

  /** A lookup at s is the same before and after the transaction. */
  lemma LookupIsKept(d: Disk, d': Disk, s: nat, sblockOid: nat, oid: nat)
    requires Healthy(d) && Commit(d, d', s, sblockOid)
    ensures ResolveOnDisk(d.img, VolumeOmap(d.img, d.live).value, oid, s)
         == ResolveOnDisk(d'.img, VolumeOmap(d'.img, d'.live).value, oid, s)
  {
    LookupReturnsPinned(d, oid, s);
    LookupReturnsPinned(d', oid, s);
    var r := ResolveOnDisk(d.img, VolumeOmap(d.img, d.live).value, oid, s);
    var r' := ResolveOnDisk(d'.img, VolumeOmap(d'.img, d'.live).value, oid, s);
    if r.Ok? {
      var e :| Pinned(Mappings(d), s, e) && DecodeEntry(e) == r.value && KeyOf(e.key).oid == oid;
      PinnedIsKept(d, d', s, sblockOid, e);
      var e' :| Pinned(Mappings(d'), s, e') && DecodeEntry(e') == r'.value && KeyOf(e'.key).oid == oid;
      PinnedIsUnique(d', s, e, e');
    } else {
      assert forall e :: e in Mappings(d') ==> !Matches(e, OmapKey(oid, s));
    }
  }

  /** So the snapshot's virtual tree is the same graph, node for node. */
  lemma NodesAreKept(d: Disk, d': Disk, s: nat, sblockOid: nat, oid: nat)
    requires Healthy(d) && Commit(d, d', s, sblockOid)
    ensures VirtualNode(d.img, VolumeOmap(d.img, d.live).value, s, oid)
         == VirtualNode(d'.img, VolumeOmap(d'.img, d'.live).value, s, oid)
  {
    LookupIsKept(d, d', s, sblockOid, oid);
    LookupReturnsPinned(d, oid, s);
  }

  /** If the frozen superblock can be read at all, it was written at transaction s. */
  predicate FrozenAt(img: Image, sblockOid: nat, s: nat) {
    match ReadRawBlock(img, sblockOid)
    case Err(_) => true
    case Ok(block) => ParseVolume(block).Ok? ==> ParseVolume(block).value.xid == s
  }

  /** One transaction leaves the mounted snapshot's walk as it was, for every target. */
  lemma CommitKeepsSnapshotWalk(d: Disk, d': Disk, s: nat, sblockOid: nat, target: Option<nat>)
    requires Healthy(d) && FrozenAt(d.img, sblockOid, s) && Commit(d, d', s, sblockOid)
    ensures SnapshotWalk(d'.img, d'.live, sblockOid, target) == SnapshotWalk(d.img, d.live, sblockOid, target)
    ensures FrozenAt(d'.img, sblockOid, s)
  {
    var mounted := MountSnapshot(d.img, d.live, sblockOid);
    if mounted.Ok? {
      var omap, omap' := VolumeOmap(d.img, d.live).value, VolumeOmap(d'.img, d'.live).value;
      forall oid: nat ensures VirtualNode(d.img, omap, s, oid) == VirtualNode(d'.img, omap', s, oid) {
        NodesAreKept(d, d', s, sblockOid, oid);
      }
      SameGraphSameWalk(VirtualGraph(d.img, omap, s), VirtualGraph(d'.img, omap', s), mounted.value.rootTreeOid, 0,
                        target, {});
    }
  }

  /** Any run of later transactions leaves the mounted snapshot's walk as it was: the point-in-time read. */
  lemma {:induction false} SnapshotIsStable(run: seq<Disk>, i: nat, s: nat, sblockOid: nat, target: Option<nat>)
    requires i < |run| && Healthy(run[0]) && FrozenAt(run[0].img, sblockOid, s)
    requires forall k :: 0 <= k < |run| - 1 ==> Commit(run[k], run[k + 1], s, sblockOid)
    ensures Healthy(run[i]) && FrozenAt(run[i].img, sblockOid, s)
    ensures SnapshotWalk(run[i].img, run[i].live, sblockOid, target)
         == SnapshotWalk(run[0].img, run[0].live, sblockOid, target)
    decreases i
  {
    hide SnapshotWalk, FrozenAt, Healthy;
    if i > 0 {
      SnapshotIsStable(run, i - 1, s, sblockOid, target);
      assert Commit(run[i - 1], run[i - 1 + 1], s, sblockOid);
      CommitKeepsSnapshotWalk(run[i - 1], run[i], s, sblockOid, target);
    }
  }
}
