/** What was stored is what a path reads: blocks, nodes, records, extents and compressed chunks together. */
module StoredFile {
  import opened Prelude
  import opened Object
  import opened FsRecord
  import opened BlockReader
  import opened NodeGraph
  import opened Walk
  import opened KeyedWalk
  import opened Dir
  import opened Navigation
  import opened Compression
  import opened FileData
  import opened ForkLayout
  import opened Payload
  import opened ZlibForkLayout
  import opened Snapshot
  import opened Records
  import opened XFields
  import opened StoredTree
  import Streams = Extent

  lemma {:induction false} XattrSeesOwnRecords(es: seq<Entry>, oid: nat, name: Bytes)
    ensures XattrIn(es, oid, name) == XattrIn(RecordsOf(es, oid), oid, name)
    decreases es
  {
    hide KeyType, KeyOid, XattrName, DecodeXattr;
    if es != [] {
      FirstRecord(es, oid);
      XattrSeesOwnRecords(es[1..], oid, name);
    }
  }

  /** An attribute lookup finds what a scan of every record would. */
  lemma XattrIsFound(img: Image, vol: Volume, t: Tree, oid: nat, name: Bytes)
    requires FsTreeOrdered(img, vol, t)
    ensures GetXattr(img, vol, oid, name) == Ok(XattrIn(Leaves(t), oid, name))
  {
    hide XattrIn, RecordsOf, VirtualGraph, VolumeOmap, OidOrdered, WalkNode;
    var g := VirtualGraph(img, VolumeOmap(img, vol).value, vol.xid);
    KeyedWalkAgreesWithFullWalk(g, vol.rootTreeOid, t, oid);
    FullWalkSucceedsExactlyOnTrees(g, vol.rootTreeOid);
    XattrSeesOwnRecords(FsWalk(img, vol, Some(oid)).visits, oid, name);
    XattrSeesOwnRecords(Leaves(t), oid, name);
  }

  /** The stream's records among these are content cut into extents and holes, each record as it is written. */
  ghost predicate StreamStored(img: Image, es: seq<Entry>, stream: nat, content: Bytes) {
    |content| <= 0x4_0000_0000 && exists pieces :: IsStoredAs(img, es, stream, pieces, content)
  }

  ghost predicate IsStoredAs(img: Image, es: seq<Entry>, stream: nat, pieces: seq<Streams.Piece>, content: Bytes) {
    && Streams.Stored(img, pieces, content, 0)
    && (forall x :: x in Streams.Cut(pieces, 0) ==> exists e :: e in es && IsExtentRecord(e, stream, x))
    && (forall e :: e in es && Streams.IsExtentOf(e, stream) ==>
          exists x :: x in Streams.Cut(pieces, 0) && IsExtentRecord(e, stream, x))
  }

  lemma StoredExtentsAreListed(img: Image, es: seq<Entry>, stream: nat, pieces: seq<Streams.Piece>, content: Bytes)
    requires IsStoredAs(img, es, stream, pieces, content)
    ensures forall x :: x in Streams.ExtentsOf(es, stream) <==> x in Streams.Cut(pieces, 0)
  {
    hide IsExtentRecord, Streams.IsExtentOf, Streams.DecodeExtent, Streams.ExtentsOf, Streams.Cut, Streams.Stored;
    forall x ensures x in Streams.ExtentsOf(es, stream) <==> x in Streams.Cut(pieces, 0) {
      ExtentsAreDecoded(es, stream, x);
      if x in Streams.Cut(pieces, 0) {
        var e :| e in es && IsExtentRecord(e, stream, x);
        ExtentRecordReadsBack(e, stream, x);
      }
      if x in Streams.ExtentsOf(es, stream) {
        var e :| e in es && Streams.IsExtentOf(e, stream) && Streams.DecodeExtent(e) == x;
        var y :| y in Streams.Cut(pieces, 0) && IsExtentRecord(e, stream, y);
        ExtentRecordReadsBack(e, stream, y);
      }
    }
  }

  lemma StreamIsRead(img: Image, vol: Volume, t: Tree, stream: nat, content: Bytes)
    requires FsTreeOrdered(img, vol, t) && StreamStored(img, Leaves(t), stream, content)
    ensures Streams.StreamBytes(img, vol, stream, |content|) == Ok(content)
  {
    hide FsTreeOrdered, Streams.StreamBytes, Streams.Stored, Streams.ExtentsOf, Streams.Cut;
    var pieces :| IsStoredAs(img, Leaves(t), stream, pieces, content);
    StoredExtentsAreListed(img, Leaves(t), stream, pieces, content);
    StoredContentIsRead(img, vol, t, stream, pieces, content);
  }

  // ---- paths ----

  /** Directory records lead along the path's components from one object to another; empty components stay. */
  ghost predicate RecordsLead(es: seq<Entry>, current: nat, path: seq<Bytes>, oid: nat)
    decreases path
  {
    if path == [] then current == oid
    else if path[0] == [] then RecordsLead(es, current, path[1..], oid)
    else exists i: nat, child: nat ::
        IsFirstEntry(es, i, current, path[0], child) && RecordsLead(es, child, path[1..], oid)
  }

  /** The path leads from the root directory, object 2, to this inode's record. */
  ghost predicate FileAt(es: seq<Entry>, path: seq<Bytes>, si: StoredInode) {
    RecordsLead(es, 2, path, si.oid) && exists i: nat :: IsFirstInode(es, i, si)
  }

  lemma {:induction false} RecordsAreFollowed(img: Image, vol: Volume, t: Tree, current: nat, path: seq<Bytes>,
                                               oid: nat)
    requires FsTreeOrdered(img, vol, t) && RecordsLead(Leaves(t), current, path, oid)
    ensures PathFrom(img, vol, current, path, false) == InodeOf(img, vol, oid, false)
    decreases path
  {
    hide FsTreeOrdered, InodeOf, ChildIn, FsWalk, IsFirstEntry, Leaves;
    if path == [] {
    } else if path[0] == [] {
      RecordsAreFollowed(img, vol, t, current, path[1..], oid);
    } else {
      var i: nat, child: nat :|
        IsFirstEntry(Leaves(t), i, current, path[0], child) && RecordsLead(Leaves(t), child, path[1..], oid);
      FirstEntryIsFound(Leaves(t), i, current, path[0], child);
      WholeTreeIsVisited(img, vol, t);
      RecordsAreFollowed(img, vol, t, child, path[1..], oid);
    }
  }

  lemma WholeTreeIsVisited(img: Image, vol: Volume, t: Tree)
    requires FsTreeOrdered(img, vol, t)
    ensures FsWalk(img, vol, None) == Visited(Ok(Unit), Leaves(t))
  {
    hide VirtualGraph, VolumeOmap, WalkNode, OidOrdered;
    FullWalkSucceedsExactlyOnTrees(VirtualGraph(img, VolumeOmap(img, vol).value, vol.xid), vol.rootTreeOid);
  }

  /** Resolving a path whose records are stored finds the inode record stored. */
  lemma StoredPathIsOpened(img: Image, vol: Volume, t: Tree, path: seq<Bytes>, si: StoredInode)
    requires FsTreeOrdered(img, vol, t) && FileAt(Leaves(t), path, si)
    ensures InodeFits(si) && PathFrom(img, vol, ROOT_DIR, path, true) == Ok(Located(si.oid, InodeBytes(si)))
  {
    hide FsTreeOrdered, PathFrom, RecordsLead, IsFirstInode, InodeBytes, InodeFits, InodeIn, Leaves;
    var i: nat :| IsFirstInode(Leaves(t), i, si);
    InodesFit(Leaves(t), i, si);
    FirstInodeIsFound(Leaves(t), i, si);
    KeyedNavigationIsExact(img, vol, t, ROOT_DIR, path);
    RecordsAreFollowed(img, vol, t, ROOT_DIR, path, si.oid);
    WholeTreeIsVisited(img, vol, t);
  }

  lemma InodesFit(es: seq<Entry>, i: nat, si: StoredInode)
    requires IsFirstInode(es, i, si)
    ensures InodeFits(si)
  {
  }

  /** The records lead along the path to an object that has no entry for the component that comes next. */
  ghost predicate RecordsStop(es: seq<Entry>, current: nat, path: seq<Bytes>, at: nat)
    decreases path
  {
    if path == [] then false
    else if path[0] == [] then RecordsStop(es, current, path[1..], at)
    else
      || (at == current && forall e :: e in es ==> !IsEntryFor(e, current, path[0]))
      || exists i: nat, child: nat ::
           IsFirstEntry(es, i, current, path[0], child) && RecordsStop(es, child, path[1..], at)
  }

  lemma {:induction false} NoEntryIsFound(es: seq<Entry>, parent: nat, name: Bytes)
    requires forall e :: e in es ==> !IsEntryFor(e, parent, name)
    ensures ChildIn(es, parent, name) == None
    decreases es
  {
    hide IsEntryFor;
    if es != [] {
      NoEntryIsFound(es[1..], parent, name);
    }
  }

  lemma {:induction false} MissingComponent(img: Image, vol: Volume, t: Tree, current: nat, path: seq<Bytes>, at: nat)
    requires FsTreeOrdered(img, vol, t) && RecordsStop(Leaves(t), current, path, at)
    ensures PathFrom(img, vol, current, path, false) == Err(OmapUnresolved(at, vol.xid))
    decreases path
  {
    hide FsTreeOrdered, InodeOf, ChildIn, FsWalk, IsFirstEntry, Leaves, IsEntryFor;
    WholeTreeIsVisited(img, vol, t);
    if path[0] == [] {
      MissingComponent(img, vol, t, current, path[1..], at);
    } else if at == current && forall e :: e in Leaves(t) ==> !IsEntryFor(e, current, path[0]) {
      NoEntryIsFound(Leaves(t), current, path[0]);
    } else {
      var i: nat, child: nat :|
        IsFirstEntry(Leaves(t), i, current, path[0], child) && RecordsStop(Leaves(t), child, path[1..], at);
      FirstEntryIsFound(Leaves(t), i, current, path[0], child);
      MissingComponent(img, vol, t, child, path[1..], at);
    }
  }

  /** A path with a component that is not there is unresolved at the directory it was missed in. */
  lemma MissingPathIsUnresolved(img: Image, vol: Volume, t: Tree, path: seq<Bytes>, at: nat)
    requires FsTreeOrdered(img, vol, t) && RecordsStop(Leaves(t), 2, path, at)
    ensures PathFrom(img, vol, ROOT_DIR, path, true) == Err(OmapUnresolved(at, vol.xid))
  {
    hide FsTreeOrdered, PathFrom, RecordsStop;
    KeyedNavigationIsExact(img, vol, t, ROOT_DIR, path);
    MissingComponent(img, vol, t, ROOT_DIR, path, at);
  }

  /** A path whose last component has no inode record is unresolved at that object. */
  lemma MissingInodeIsUnresolved(img: Image, vol: Volume, t: Tree, path: seq<Bytes>, oid: nat)
    requires FsTreeOrdered(img, vol, t) && RecordsLead(Leaves(t), 2, path, oid)
    requires forall e :: e in Leaves(t) ==> !IsInode(e, oid)
    ensures PathFrom(img, vol, ROOT_DIR, path, true) == Err(OmapUnresolved(oid, vol.xid))
  {
    hide FsTreeOrdered, PathFrom, RecordsLead, IsInode, Leaves;
    KeyedNavigationIsExact(img, vol, t, ROOT_DIR, path);
    RecordsAreFollowed(img, vol, t, ROOT_DIR, path, oid);
    WholeTreeIsVisited(img, vol, t);
    NoInodeIsFound(Leaves(t), oid);
  }

  lemma {:induction false} NoInodeIsFound(es: seq<Entry>, oid: nat)
    requires forall e :: e in es ==> !IsInode(e, oid)
    ensures InodeIn(es, oid) == None
    decreases es
  {
    hide IsInode;
    if es != [] {
      NoInodeIsFound(es[1..], oid);
    }
  }

  /** A walk that fails is never taken for an absence: whatever was to be found fails with the walk's error. */
  lemma FailedWalksAreReported(img: Image, vol: Volume, c: Codecs, inode: Inode, name: Bytes, size: nat, e: Error)
    requires FsWalk(img, vol, Some(inode.oid)).result == Err(e)
    ensures ChildOf(img, vol, inode.oid, name, true) == Err(e) && InodeOf(img, vol, inode.oid, true) == Err(e)
    ensures GetXattr(img, vol, inode.oid, name) == Err(e)
    ensures size <= 0x4_0000_0000 ==> Streams.StreamBytes(img, vol, inode.oid, size) == Err(e)
    ensures ReadData(img, vol, c, inode) == Err(e) && DataSize(img, vol, inode) == Err(e)
  {
    hide FsWalk, ReadCompressed;
  }

  /** And an object map that cannot be read or is none fails every walk. */
  lemma FailedMapsAreReported(img: Image, vol: Volume, target: Option<nat>, e: Error)
    requires VolumeOmap(img, vol) == Err(e)
    ensures FsWalk(img, vol, target) == Visited(Err(e), [])
  {
  }

  // ---- files ----

  /** An ordinary file: its inode declares the size, or none for an empty file; its stream holds the content; and it
      has no compression attribute. */
  ghost predicate StoredPlain(img: Image, es: seq<Entry>, si: StoredInode, content: Bytes) {
    && (DeclaresSize(si.fields, |content|) || (DeclaresNone(si.fields) && content == []))
    && StreamStored(img, es, si.privateId, content)
    && forall e :: e in es ==> !IsXattr(e, si.oid, DECMPFS)
  }

  /** The attribute names "com.apple.decmpfs" and "com.apple.ResourceFork". */
  const DECMPFS: Bytes :=
    [0x63, 0x6f, 0x6d, 0x2e, 0x61, 0x70, 0x70, 0x6c, 0x65, 0x2e, 0x64, 0x65, 0x63, 0x6d, 0x70, 0x66, 0x73]
  const RESOURCE_FORK: Bytes :=
    [0x63, 0x6f, 0x6d, 0x2e, 0x61, 0x70, 0x70, 0x6c, 0x65, 0x2e, 0x52, 0x65, 0x73, 0x6f, 0x75, 0x72, 0x63, 0x65,
     0x46, 0x6f, 0x72, 0x6b]

  lemma NamesAreBytes()
    ensures NAME_DECMPFS == DECMPFS && NAME_FORK == RESOURCE_FORK
  {
  }

  /** An attribute's value, embedded in its record or spilled to a stream. */
  ghost predicate AttrStored(img: Image, es: seq<Entry>, oid: nat, name: Bytes, bytes: Bytes) {
    exists i: nat, v: XattrValue :: IsFirstXattr(es, i, oid, name, v) && ValueStored(img, es, v, bytes)
  }

  ghost predicate ValueStored(img: Image, es: seq<Entry>, v: XattrValue, bytes: Bytes) {
    match v
    case Embedded(b) => b == bytes
    case Stream(stream, size) => size == |bytes| && StreamStored(img, es, stream, bytes)
  }

  /** A compressed file: the header in its attribute, as written, and for a type of the fork the packed content in
      its resource fork. */
  ghost predicate StoredCompressed(img: Image, es: seq<Entry>, c: Codecs, oid: nat, content: Bytes,
                                   compressionType: nat, packing: Packing, payload: Bytes, fork: Option<Bytes>) {
    && compressionType < U32_SIZE && |content| < U64_SIZE && 16 + |payload| <= 0x10_0000
    && IsPacked(c, compressionType, packing, content, payload, fork)
    && AttrStored(img, es, oid, DECMPFS, HeaderBytes(compressionType, |content|, payload))
    && (packing.Chunked? || packing.Blocks? ==>
          fork.Some? && AttrStored(img, es, oid, RESOURCE_FORK, fork.value))
  }

  /** Reading by path, once it is known where the path leads. */
  lemma PathReads(img: Image, vol: Volume, t: Tree, c: Codecs, path: seq<Bytes>, si: StoredInode)
    requires FsTreeOrdered(img, vol, t) && FileAt(Leaves(t), path, si)
    ensures InodeFits(si) && ReadPath(img, vol, c, path) == ReadData(img, vol, c, InodeFrom(si.oid, InodeBytes(si)))
  {
    hide FsTreeOrdered, InodeFrom, PathFrom, ReadData, FileAt, InodeBytes, InodeFits;
    StoredPathIsOpened(img, vol, t, path, si);
  }

  lemma PlainData(img: Image, vol: Volume, c: Codecs, inode: Inode, content: Bytes)
    requires GetXattr(img, vol, inode.oid, NAME_DECMPFS) == Ok(None)
    requires inode.size == Some(|content|) || (inode.size == None && content == [])
    requires Streams.StreamBytes(img, vol, inode.privateId, |content|) == Ok(content)
    ensures ReadData(img, vol, c, inode) == Ok(content) && DataSize(img, vol, inode) == Ok(|content|)
  {
    hide GetXattr, Streams.StreamBytes, AsciiBytes;
  }

  lemma AttrIsRead(img: Image, vol: Volume, t: Tree, oid: nat, name: Bytes, bytes: Bytes)
    requires FsTreeOrdered(img, vol, t) && AttrStored(img, Leaves(t), oid, name, bytes)
    ensures var v := XattrIn(Leaves(t), oid, name);
            && v.Some? && GetXattr(img, vol, oid, name) == Ok(v)
            && StreamValue(img, vol, v.value) == Ok(Some(bytes)) && (v.value.Stream? ==> v.value.size == |bytes|)
  {
    hide FsTreeOrdered, StreamStored, XattrIn, GetXattr, Streams.StreamBytes, IsFirstXattr, Leaves;
    XattrIsFound(img, vol, t, oid, name);
    var i: nat, v: XattrValue :| IsFirstXattr(Leaves(t), i, oid, name, v) && ValueStored(img, Leaves(t), v, bytes);
    FirstXattrIsFound(Leaves(t), i, oid, name, v);
    if v.Stream? {
      StreamIsRead(img, vol, t, v.stream, bytes);
    }
  }

  lemma HeaderIsRead(img: Image, vol: Volume, t: Tree, oid: nat, header: Bytes)
    requires FsTreeOrdered(img, vol, t)
    requires |header| <= 0x10_0000 && AttrStored(img, Leaves(t), oid, NAME_DECMPFS, header)
    ensures DecmpfsHeader(img, vol, oid) == Ok(Some(header))
  {
    hide FsTreeOrdered, AttrStored, XattrIn, GetXattr, StreamValue, AsciiBytes;
    AttrIsRead(img, vol, t, oid, NAME_DECMPFS, header);
  }

  lemma ForkIsRead(img: Image, vol: Volume, t: Tree, oid: nat, fork: Bytes)
    requires FsTreeOrdered(img, vol, t) && AttrStored(img, Leaves(t), oid, NAME_FORK, fork)
    ensures ResourceForkOf(img, vol, oid) == Ok(Some(fork))
  {
    hide FsTreeOrdered, AttrStored, XattrIn, GetXattr, StreamValue, AsciiBytes;
    AttrIsRead(img, vol, t, oid, NAME_FORK, fork);
  }

  /** A header spilled to a stream of more than 1 MiB is refused, and so is its file. */
  lemma LargeHeaderIsRefused(img: Image, vol: Volume, t: Tree, c: Codecs, inode: Inode, i: nat, stream: nat, size: nat)
    requires FsTreeOrdered(img, vol, t) && size > 0x10_0000
    requires IsFirstXattr(Leaves(t), i, inode.oid, DECMPFS, XattrValue.Stream(stream, size))
    ensures ReadData(img, vol, c, inode) == Err(FieldOutOfRange) && DataSize(img, vol, inode) == Err(FieldOutOfRange)
  {
    hide FsTreeOrdered, XattrIn, GetXattr, AsciiBytes, IsFirstXattr, Leaves, ReadCompressed, Streams.StreamBytes;
    NamesAreBytes();
    XattrIsFound(img, vol, t, inode.oid, NAME_DECMPFS);
    FirstXattrIsFound(Leaves(t), i, inode.oid, DECMPFS, XattrValue.Stream(stream, size));
  }

  lemma CompressedData(img: Image, vol: Volume, c: Codecs, inode: Inode, content: Bytes, compressionType: nat,
                       payload: Bytes, fork: Option<Bytes>)
    requires compressionType < U32_SIZE && |content| < U64_SIZE
    requires DecmpfsHeader(img, vol, inode.oid) == Ok(Some(HeaderBytes(compressionType, |content|, payload)))
    requires NeedsFork(compressionType) ==> ResourceForkOf(img, vol, inode.oid) == Ok(fork)
    requires Decompress(c, HeaderBytes(compressionType, |content|, payload),
                        if NeedsFork(compressionType) then fork else None) == Ok(content)
    ensures ReadData(img, vol, c, inode) == Ok(content) && DataSize(img, vol, inode) == Ok(|content|)
  {
    hide DecmpfsHeader, ResourceForkOf, Decompress, UncompressedSize, ReadLe32, NeedsFork, HeaderBytes;
    HeaderReadsBack(compressionType, |content|, payload);
    assert ReadCompressed(img, vol, c, inode.oid, HeaderBytes(compressionType, |content|, payload)) == Ok(content);
  }

  /** The packing says whether the fork is fetched. */
  lemma ForkIsNeededIff(c: Codecs, compressionType: nat, packing: Packing, content: Bytes, payload: Bytes,
                        fork: Option<Bytes>)
    requires IsPacked(c, compressionType, packing, content, payload, fork)
    ensures NeedsFork(compressionType) <==> packing.Chunked? || packing.Blocks?
    ensures !NeedsFork(compressionType) ==> IsPacked(c, compressionType, packing, content, payload, None)
  {
    hide Fork, ZlibForkBytes, Fits, ZlibFits, Chunks, Joined, Decodes;
  }

  /** Reading an ordinary file by its path, on a volume stored block by block, returns the content stored; and
      its reported size is the content's. */
  lemma StoredFileIsRead(img: Image, vol: Volume, tm: Tree, t: Tree, c: Codecs, path: seq<Bytes>, si: StoredInode,
                         content: Bytes)
    requires VolumeStored(img, vol, tm, t) && FileAt(Leaves(t), path, si)
    requires StoredPlain(img, Leaves(t), si, content)
    ensures ReadPath(img, vol, c, path) == Ok(content)
    ensures InodeFits(si) && DataSize(img, vol, InodeFrom(si.oid, InodeBytes(si))) == Ok(|content|)
  {
    hide FsTreeOrdered, VolumeStored, FileAt, StreamStored, XattrIn, IsXattr, GetXattr, Streams.StreamBytes, AsciiBytes,
      ReadPath, ReadData, DataSize, InodeBytes, InodeFits, InodeFrom, DeclaresSize, DeclaresNone, Leaves;
    StoredVolumeIsNavigated(img, vol, tm, t);
    PathReads(img, vol, t, c, path, si);
    if DeclaresSize(si.fields, |content|) {
      InodeReadsBack(si, |content|);
    } else {
      InodeWithoutSizeReadsBack(si);
    }
    NamesAreBytes();
    XattrIsFound(img, vol, t, si.oid, NAME_DECMPFS);
    NoXattrIsFound(Leaves(t), si.oid, NAME_DECMPFS);
    StreamIsRead(img, vol, t, si.privateId, content);
    PlainData(img, vol, c, InodeFrom(si.oid, InodeBytes(si)), content);
  }

  /** Reading a compressed file by its path returns the content that was packed, in every form of the format. */
  lemma StoredCompressedFileIsRead(img: Image, vol: Volume, tm: Tree, t: Tree, c: Codecs, path: seq<Bytes>,
                                   si: StoredInode, content: Bytes, compressionType: nat, packing: Packing,
                                   payload: Bytes, fork: Option<Bytes>)
    requires VolumeStored(img, vol, tm, t) && FileAt(Leaves(t), path, si)
    requires StoredCompressed(img, Leaves(t), c, si.oid, content, compressionType, packing, payload, fork)
    ensures ReadPath(img, vol, c, path) == Ok(content)
    ensures InodeFits(si) && DataSize(img, vol, InodeFrom(si.oid, InodeBytes(si))) == Ok(|content|)
  {
    hide FsTreeOrdered, VolumeStored, FileAt, AttrStored, DecmpfsHeader, ResourceForkOf, AsciiBytes, ReadPath, ReadData,
      DataSize, InodeBytes, InodeFits, Parsed, IsPacked, Decompress, NeedsFork, HeaderBytes, Leaves;
    StoredVolumeIsNavigated(img, vol, tm, t);
    PathReads(img, vol, t, c, path, si);
    NamesAreBytes();
    HeaderLength(compressionType, |content|, payload);
    HeaderIsRead(img, vol, t, si.oid, HeaderBytes(compressionType, |content|, payload));
    ForkIsNeededIff(c, compressionType, packing, content, payload, fork);
    if NeedsFork(compressionType) {
      ForkIsRead(img, vol, t, si.oid, fork.value);
      PackedIsDecoded(c, compressionType, packing, content, payload, fork);
    } else {
      PackedIsDecoded(c, compressionType, packing, content, payload, None);
    }
    CompressedData(img, vol, c, InodeFrom(si.oid, InodeBytes(si)), content, compressionType, payload, fork);
  }

  lemma HeaderLength(compressionType: nat, size: nat, payload: Bytes)
    requires compressionType < U32_SIZE && size < U64_SIZE
    ensures |HeaderBytes(compressionType, size, payload)| == 16 + |payload|
  {
  }

  /** The same through a snapshot: on its stored superblock, mounted with the live volume's object map, reading a
      stored file by its path returns the content. */
  lemma StoredSnapshotFileIsRead(img: Image, live: Volume, sblockOid: nat, block: Bytes, frozen: Volume, tm: Tree,
                                 t: Tree, c: Codecs, path: seq<Bytes>, si: StoredInode, content: Bytes)
    requires BlockAt(img, sblockOid, block) && ChecksumValid(block) && IsVolumeBlock(block, frozen)
    requires VolumeStored(img, Volume(frozen.xid, live.omapOid, frozen.rootTreeOid), tm, t)
    requires FileAt(Leaves(t), path, si) && StoredPlain(img, Leaves(t), si, content)
    ensures var mounted := MountSnapshot(img, live, sblockOid);
            mounted.Ok? && ReadPath(img, mounted.value, c, path) == Ok(content)
  {
    hide BlockAt, ChecksumValid, IsVolumeBlock, VolumeStored, FileAt, StoredPlain, MountSnapshot, ReadPath, Leaves;
    StoredSnapshotIsMounted(img, live, sblockOid, block, frozen);
    StoredFileIsRead(img, Volume(frozen.xid, live.omapOid, frozen.rootTreeOid), tm, t, c, path, si, content);
  }
}
