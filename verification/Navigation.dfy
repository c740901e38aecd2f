/** src/dir.rs: path navigation over the keyed walk, and its agreement with scanning the whole fs-tree. */
module Navigation {
  import opened Prelude
  import opened LittleEndian
  import opened FsRecord
  import opened BlockReader
  import opened NodeGraph
  import opened Walk
  import opened KeyedWalk
  import opened Dir
  import Streams = Extent

  const ROOT_DIR: nat := 2

  /** Bytes up to the first NUL. */
  function CString(data: Bytes): Bytes {
    if data == [] || data[0] == 0 then [] else [data[0]] + CString(data[1..])
  }

  /** The name in a directory record's key: the hashed form if its length fits, else the unhashed form. */
  function DrecName(key: Bytes): Option<Bytes> {
    var hashed := LeU32(key, 8) % 0x400;
    var plain := LeU16(key, 8);
    if hashed > 0 && 12 + hashed <= |key| then Some(CString(key[12..12 + hashed]))
    else if plain > 0 && 10 + plain <= |key| then Some(CString(key[10..10 + plain]))
    else None
  }

  predicate IsEntryFor(e: Entry, parent: nat, name: Bytes) {
    KeyType(e.key) == Some(RecordType.DirRec) && KeyOid(e.key) == parent && DrecName(e.key) == Some(name)
  }

  predicate IsInode(e: Entry, oid: nat) {
    KeyType(e.key) == Some(RecordType.Inode) && KeyOid(e.key) == oid
  }

  /** `lookup_child` over a list of visited records: the first match wins. */
  function ChildIn(es: seq<Entry>, parent: nat, name: Bytes): Option<nat> {
    if es == [] then None
    else if IsEntryFor(es[0], parent, name) then Some(LeU64(es[0].value, 0))
    else ChildIn(es[1..], parent, name)
  }

  /** `load_inode` over a list of visited records: the first match wins. */
  function InodeIn(es: seq<Entry>, oid: nat): Option<Bytes> {
    if es == [] then None
    else if IsInode(es[0], oid) then Some(es[0].value)
    else InodeIn(es[1..], oid)
  }

  /** The inode a path leads to: its number and its record. */
  datatype Located = Located(oid: nat, record: Bytes)

  /** The records a step for one object sees: those of the pruned walk, or of the whole tree. */
  function StepVisits(img: Image, vol: Volume, oid: nat, pruned: bool): Visited {
    FsWalk(img, vol, if pruned then Some(oid) else None)
  }

  function ChildOf(img: Image, vol: Volume, parent: nat, name: Bytes, pruned: bool): Result<Option<nat>> {
    var walk := StepVisits(img, vol, parent, pruned);
    if walk.result.Err? then Err(walk.result.error) else Ok(ChildIn(walk.visits, parent, name))
  }

  function InodeOf(img: Image, vol: Volume, oid: nat, pruned: bool): Result<Located> {
    var walk := StepVisits(img, vol, oid, pruned);
    if walk.result.Err? then Err(walk.result.error)
    else match InodeIn(walk.visits, oid)
      case None => Err(OmapUnresolved(oid, vol.xid))
      case Some(record) => Ok(Located(oid, record))
  }

  /** The descent through the path's components; empty ones are skipped. */
  function PathFrom(img: Image, vol: Volume, current: nat, path: seq<Bytes>, pruned: bool): Result<Located>
    decreases path
  {
    if path == [] then InodeOf(img, vol, current, pruned)
    else if path[0] == [] then PathFrom(img, vol, current, path[1..], pruned)
    else
      var child :- ChildOf(img, vol, current, path[0], pruned);
      match child
      case None => Err(OmapUnresolved(current, vol.xid))
      case Some(next) => PathFrom(img, vol, next, path[1..], pruned)
  }

  method LookupChild(img: Image, vol: Volume, parent: nat, name: Bytes) returns (r: Result<Option<nat>>)
    ensures r == ChildOf(img, vol, parent, name, true)
  {
    hide FsWalk;
    var walk := WalkFsTree(img, vol, Some(parent));
    if walk.result.Err? {
      return Err(walk.result.error);
    }
    var found := FindChild(walk.visits, parent, name);
    return Ok(found);
  }

  /** The visit callback: once something is found, further records are ignored. */
  method FindChild(es: seq<Entry>, parent: nat, name: Bytes) returns (found: Option<nat>)
    ensures found == ChildIn(es, parent, name)
  {
    hide IsEntryFor;
    found := None;
    assert es[0..] == es;
    for i := 0 to |es|
      invariant found.None? ==> ChildIn(es, parent, name) == ChildIn(es[i..], parent, name)
      invariant found.Some? ==> found == ChildIn(es, parent, name)
    {
      assert es[i..][1..] == es[i + 1..];
      if found.None? && IsEntryFor(es[i], parent, name) {
        found := Some(LeU64(es[i].value, 0));
      }
    }
  }

  method LoadInode(img: Image, vol: Volume, oid: nat) returns (r: Result<Located>)
    ensures r == InodeOf(img, vol, oid, true)
  {
    hide FsWalk, IsInode;
    var walk := WalkFsTree(img, vol, Some(oid));
    if walk.result.Err? {
      return Err(walk.result.error);
    }
    var es := walk.visits;
    var i := 0;
    assert es[0..] == es;
    while i < |es| && !IsInode(es[i], oid)
      invariant 0 <= i <= |es| && InodeIn(es, oid) == InodeIn(es[i..], oid)
    {
      assert es[i..][1..] == es[i + 1..];
      i := i + 1;
    }
    if i == |es| {
      return Err(OmapUnresolved(oid, vol.xid));
    }
    return Ok(Located(oid, es[i].value));
  }

  /** `open_path`. */
  method OpenPath(img: Image, vol: Volume, path: seq<Bytes>) returns (r: Result<Located>)
    ensures r == PathFrom(img, vol, ROOT_DIR, path, true)
  {
    hide ChildOf, InodeOf;
    var current := ROOT_DIR;
    assert path[0..] == path;
    for i := 0 to |path|
      invariant PathFrom(img, vol, ROOT_DIR, path, true) == PathFrom(img, vol, current, path[i..], true)
    {
      assert path[i..][1..] == path[i + 1..];
      if path[i] == [] {
        continue;
      }
      var child :- LookupChild(img, vol, current, path[i]);
      if child == None {
        return Err(OmapUnresolved(current, vol.xid));
      }
      current := child.value;
    }
    r := LoadInode(img, vol, current);
  }

  // ---- agreement with whole-tree scans ----

  /** Each client depends only on the records of its object. */
  lemma {:induction false} ChildSeesOwnRecords(es: seq<Entry>, oid: nat, name: Bytes)
    ensures ChildIn(es, oid, name) == ChildIn(RecordsOf(es, oid), oid, name)
    decreases es
  {
    hide DrecName, KeyType, KeyOid;
    if es != [] {
      FirstRecord(es, oid);
      ChildSeesOwnRecords(es[1..], oid, name);
    }
  }

  lemma {:induction false} InodeSeesOwnRecords(es: seq<Entry>, oid: nat)
    ensures InodeIn(es, oid) == InodeIn(RecordsOf(es, oid), oid)
    decreases es
  {
    hide KeyType, KeyOid;
    if es != [] {
      FirstRecord(es, oid);
      InodeSeesOwnRecords(es[1..], oid);
    }
  }

  lemma {:induction false} StreamSeesOwnRecords(es: seq<Entry>, oid: nat)
    ensures Streams.ExtentsOf(es, oid) == Streams.ExtentsOf(RecordsOf(es, oid), oid)
    decreases es
  {
    hide KeyType, KeyOid, Streams.DecodeExtent;
    if es != [] {
      FirstRecord(es, oid);
      StreamSeesOwnRecords(es[1..], oid);
    }
  }

  lemma FirstRecord(es: seq<Entry>, oid: nat)
    requires es != []
    ensures KeyOid(es[0].key) == oid ==>
              && RecordsOf(es, oid) == [es[0]] + RecordsOf(es[1..], oid)
              && RecordsOf(es, oid)[1..] == RecordsOf(es[1..], oid)
    ensures KeyOid(es[0].key) != oid ==> RecordsOf(es, oid) == RecordsOf(es[1..], oid)
  {
  }

  /** The volume's fs-tree: readable, a tree, ordered by object id. */
  ghost predicate FsTreeOrdered(img: Image, vol: Volume, t: Tree) {
    && VolumeOmap(img, vol).Ok?
    && IsTreeAt(VirtualGraph(img, VolumeOmap(img, vol).value, vol.xid), vol.rootTreeOid, t)
    && OidOrdered(t)
  }

  /** One step gives the same answer over the pruned walk as over the whole tree. */
  lemma StepsAgree(img: Image, vol: Volume, t: Tree, oid: nat, name: Bytes)
    requires FsTreeOrdered(img, vol, t)
    ensures StepVisits(img, vol, oid, true).result.Ok? && StepVisits(img, vol, oid, false).result.Ok?
    ensures ChildOf(img, vol, oid, name, true) == ChildOf(img, vol, oid, name, false)
    ensures InodeOf(img, vol, oid, true) == InodeOf(img, vol, oid, false)
    ensures Streams.ExtentsOf(StepVisits(img, vol, oid, true).visits, oid)
         == Streams.ExtentsOf(StepVisits(img, vol, oid, false).visits, oid)
  {
    hide ChildIn, InodeIn, Streams.ExtentsOf, RecordsOf, VirtualGraph, VolumeOmap, IsTreeAt, OidOrdered;
    var g := VirtualGraph(img, VolumeOmap(img, vol).value, vol.xid);
    KeyedWalkAgreesWithFullWalk(g, vol.rootTreeOid, t, oid);
    var keyed, full := StepVisits(img, vol, oid, true).visits, StepVisits(img, vol, oid, false).visits;
    ChildSeesOwnRecords(keyed, oid, name);
    ChildSeesOwnRecords(full, oid, name);
    InodeSeesOwnRecords(keyed, oid);
    InodeSeesOwnRecords(full, oid);
    StreamSeesOwnRecords(keyed, oid);
    StreamSeesOwnRecords(full, oid);
  }

  /** Resolving any path by keyed navigation gives exactly what scanning the whole tree at every step would. */
  lemma {:induction false} KeyedNavigationIsExact(img: Image, vol: Volume, t: Tree, current: nat, path: seq<Bytes>)
    requires FsTreeOrdered(img, vol, t)
    ensures PathFrom(img, vol, current, path, true) == PathFrom(img, vol, current, path, false)
    decreases path
  {
    hide ChildOf, InodeOf, FsTreeOrdered;
    if path == [] {
      StepsAgree(img, vol, t, current, []);
    } else if path[0] == [] {
      KeyedNavigationIsExact(img, vol, t, current, path[1..]);
    } else {
      StepsAgree(img, vol, t, current, path[0]);
      var child := ChildOf(img, vol, current, path[0], true);
      if child.Ok? && child.value.Some? {
        KeyedNavigationIsExact(img, vol, t, child.value.value, path[1..]);
      }
    }
  }

  /** Content cut into extents and holes whose records are in the fs-tree, in any order and among any others,
      is what the keyed stream read returns. */
  lemma StoredContentIsRead(img: Image, vol: Volume, t: Tree, stream: nat, pieces: seq<Streams.Piece>, content: Bytes)
    requires FsTreeOrdered(img, vol, t) && |content| <= 0x4_0000_0000
    requires Streams.Stored(img, pieces, content, 0)
    requires forall e :: e in Streams.ExtentsOf(Leaves(t), stream) <==> e in Streams.Cut(pieces, 0)
    ensures Streams.StreamBytes(img, vol, stream, |content|) == Ok(content)
  {
    hide Streams.ExtentsOf, Streams.Stored, Streams.Cut, Streams.Fill, Streams.SortByOffset;
    hide VirtualGraph, VolumeOmap, OidOrdered, WalkNode;
    StepsAgree(img, vol, t, stream, []);
    FullWalkSucceedsExactlyOnTrees(VirtualGraph(img, VolumeOmap(img, vol).value, vol.xid), vol.rootTreeOid);
    assert StepVisits(img, vol, stream, false).visits == Leaves(t);
    Streams.CutContentReadsBack(img, pieces, content, Streams.ExtentsOf(FsWalk(img, vol, Some(stream)).visits, stream));
  }
}
