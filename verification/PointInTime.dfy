/** A mounted snapshot resolves every path, and reads every file, as it did when it was taken. */
module PointInTime {
  import opened Prelude
  import opened BlockReader
  import opened Dir
  import opened Snapshot
  import opened Navigation
  import opened Compression
  import opened FileData
  import Streams = Extent

  /** Path resolution depends on the volume only through its walks and its transaction id. */
  lemma {:induction false} SameWalksSamePath(img: Image, vol: Volume, img': Image, vol': Volume, current: nat,
                                              path: seq<Bytes>)
    requires vol.xid == vol'.xid && forall oid: nat :: FsWalk(img, vol, Some(oid)) == FsWalk(img', vol', Some(oid))
    ensures PathFrom(img, vol, current, path, true) == PathFrom(img', vol', current, path, true)
    decreases path
  {
    hide FsWalk, ChildIn, InodeIn;
    assert StepVisits(img, vol, current, true) == StepVisits(img', vol', current, true);
    if path != [] {
      var child := if path[0] == [] then Ok(Some(current)) else ChildOf(img, vol, current, path[0], true);
      if child.Ok? && child.value.Some? {
        SameWalksSamePath(img, vol, img', vol', child.value.value, path[1..]);
      }
    }
  }

  /** After any run of later transactions, a snapshot that could be mounted still can be, and every path
      resolves in it to the same inode record, or fails in the same way. */
  lemma PathsAreStable(run: seq<Disk>, i: nat, s: nat, sblockOid: nat, path: seq<Bytes>)
    requires i < |run| && Healthy(run[0]) && FrozenAt(run[0].img, sblockOid, s)
    requires forall k :: 0 <= k < |run| - 1 ==> Commit(run[k], run[k + 1], s, sblockOid)
    requires MountSnapshot(run[0].img, run[0].live, sblockOid).Ok?
    ensures var first := MountSnapshot(run[0].img, run[0].live, sblockOid);
            var now := MountSnapshot(run[i].img, run[i].live, sblockOid);
            now.Ok? && PathFrom(run[i].img, now.value, ROOT_DIR, path, true)
                       == PathFrom(run[0].img, first.value, ROOT_DIR, path, true)
  {
    hide Healthy, Commit, FsWalk, PathFrom;
    FrozenBlockIsKept(run, i, s, sblockOid);
    var first := MountSnapshot(run[0].img, run[0].live, sblockOid);
    var now := MountSnapshot(run[i].img, run[i].live, sblockOid);
    forall oid: nat ensures FsWalk(run[i].img, now.value, Some(oid)) == FsWalk(run[0].img, first.value, Some(oid)) {
      SnapshotIsStable(run, i, s, sblockOid, Some(oid));
    }
    SameWalksSamePath(run[i].img, now.value, run[0].img, first.value, ROOT_DIR, path);
  }

  lemma {:induction false} FrozenBlockIsKept(run: seq<Disk>, i: nat, s: nat, sblockOid: nat)
    requires i < |run|
    requires forall k :: 0 <= k < |run| - 1 ==> Commit(run[k], run[k + 1], s, sblockOid)
    ensures ReadRawBlock(run[i].img, sblockOid) == ReadRawBlock(run[0].img, sblockOid)
    decreases i
  {
    if i > 0 {
      FrozenBlockIsKept(run, i - 1, s, sblockOid);
      assert Commit(run[i - 1], run[i - 1 + 1], s, sblockOid);
    }
  }

  // ---- file content ----

  /** The blocks of an extent read the same. */
  ghost predicate SpanKept(img: Image, img': Image, e: Streams.FileExtent) {
    && img'.blockSize == img.blockSize
    && forall n: nat :: n <= e.len ==>
         ReadExact(img', e.phys * img.blockSize, n) == ReadExact(img, e.phys * img.blockSize, n)
  }

  /** Every extent the volume's records name reads the same. */
  ghost predicate DataKept(img: Image, vol: Volume, img': Image) {
    forall stream: nat, e ::
      e in Streams.ExtentsOf(FsWalk(img, vol, Some(stream)).visits, stream) && e.phys != 0 ==> SpanKept(img, img', e)
  }

  /** A transaction that rewrites no data block the snapshot's files use. */
  ghost predicate KeepsData(d: Disk, d': Disk, sblockOid: nat) {
    match MountSnapshot(d.img, d.live, sblockOid)
    case Err(_) => true
    case Ok(vol) => DataKept(d.img, vol, d'.img)
  }

  lemma {:induction false} SameSpansSameFill(img: Image, img': Image, out: Bytes, exts: seq<Streams.FileExtent>)
    requires forall e :: e in exts && e.phys != 0 ==> SpanKept(img, img', e)
    ensures Streams.Fill(img', out, exts) == Streams.Fill(img, out, exts)
    decreases exts
  {
    hide ReadExact;
    if exts != [] {
      assert Streams.Copy(img', out, exts[0]) == Streams.Copy(img, out, exts[0]);
      var next := Streams.Copy(img, out, exts[0]);
      if next.Ok? {
        SameSpansSameFill(img, img', next.value, exts[1..]);
      }
    }
  }

  lemma SameWalksSameStream(img: Image, vol: Volume, img': Image, vol': Volume, stream: nat, size: nat)
    requires FsWalk(img, vol, Some(stream)) == FsWalk(img', vol', Some(stream)) && DataKept(img, vol, img')
    ensures Streams.StreamBytes(img', vol', stream, size) == Streams.StreamBytes(img, vol, stream, size)
  {
    hide FsWalk, Streams.ExtentsOf, Streams.SortByOffset, Streams.Fill, SpanKept;
    var exts := Streams.ExtentList(img, vol, stream);
    if exts.Ok? {
      Streams.SortKeepsMembers(Streams.ExtentsOf(FsWalk(img, vol, Some(stream)).visits, stream));
      SameSpansSameFill(img, img', Zeros(size), exts.value);
    }
  }

  /** A file's data depends on the volume only through its walks and its extents' blocks. */
  lemma SameWalksSameData(img: Image, vol: Volume, img': Image, vol': Volume, c: Codecs, inode: Inode)
    requires forall oid: nat :: FsWalk(img, vol, Some(oid)) == FsWalk(img', vol', Some(oid))
    requires DataKept(img, vol, img')
    ensures ReadData(img', vol', c, inode) == ReadData(img, vol, c, inode)
  {
    hide FsWalk, XattrIn, Decompress, Streams.StreamBytes, DataKept, AsciiBytes;
    forall stream: nat, size: nat
      ensures Streams.StreamBytes(img', vol', stream, size) == Streams.StreamBytes(img, vol, stream, size)
    {
      SameWalksSameStream(img, vol, img', vol', stream, size);
    }
    forall oid: nat, name ensures GetXattr(img', vol', oid, name) == GetXattr(img, vol, oid, name) {
    }
  }

  /** What one run keeps of the data, its last transaction keeps too. */
  lemma DataKeptOnward(img: Image, vol: Volume, img': Image, vol': Volume, img'': Image)
    requires DataKept(img, vol, img') && DataKept(img', vol', img'')
    requires forall oid: nat :: FsWalk(img, vol, Some(oid)) == FsWalk(img', vol', Some(oid))
    ensures DataKept(img, vol, img'')
  {
    hide FsWalk, Streams.ExtentsOf, ReadExact;
    forall stream: nat, e |
      e in Streams.ExtentsOf(FsWalk(img, vol, Some(stream)).visits, stream) && e.phys != 0
      ensures SpanKept(img, img'', e)
    {
      assert SpanKept(img, img', e) && SpanKept(img', img'', e);
    }
  }

  lemma {:induction false} DataKeptOverRun(run: seq<Disk>, i: nat, s: nat, sblockOid: nat)
    requires i < |run| && Healthy(run[0]) && FrozenAt(run[0].img, sblockOid, s)
    requires forall k :: 0 <= k < |run| - 1 ==> Commit(run[k], run[k + 1], s, sblockOid)
    requires forall k :: 0 <= k < |run| - 1 ==> KeepsData(run[k], run[k + 1], sblockOid)
    requires MountSnapshot(run[0].img, run[0].live, sblockOid).Ok?
    ensures DataKept(run[0].img, MountSnapshot(run[0].img, run[0].live, sblockOid).value, run[i].img)
    decreases i
  {
    hide Healthy, Commit, FsWalk, DataKept, FrozenAt, ParseVolume, ReadRawBlock;
    var first := MountSnapshot(run[0].img, run[0].live, sblockOid).value;
    if i == 0 {
      DataKeptHere(run[0].img, first);
    } else {
      DataKeptOverRun(run, i - 1, s, sblockOid);
      var before := MountSnapshot(run[i - 1].img, run[i - 1].live, sblockOid);
      FrozenBlockIsKept(run, i - 1, s, sblockOid);
      forall oid: nat
        ensures FsWalk(run[0].img, first, Some(oid)) == FsWalk(run[i - 1].img, before.value, Some(oid))
      {
        SnapshotIsStable(run, i - 1, s, sblockOid, Some(oid));
      }
      assert KeepsData(run[i - 1], run[i - 1 + 1], sblockOid);
      DataKeptOnward(run[0].img, first, run[i - 1].img, before.value, run[i].img);
    }
  }

  lemma DataKeptHere(img: Image, vol: Volume)
    ensures DataKept(img, vol, img)
  {
  }

  /** After any run of later transactions that leave its data blocks alone, every path in the snapshot reads
      the same bytes, or fails in the same way, whatever the codecs do. */
  lemma FilesAreStable(run: seq<Disk>, i: nat, s: nat, sblockOid: nat, c: Codecs, path: seq<Bytes>)
    requires i < |run| && Healthy(run[0]) && FrozenAt(run[0].img, sblockOid, s)
    requires forall k :: 0 <= k < |run| - 1 ==> Commit(run[k], run[k + 1], s, sblockOid)
    requires forall k :: 0 <= k < |run| - 1 ==> KeepsData(run[k], run[k + 1], sblockOid)
    requires MountSnapshot(run[0].img, run[0].live, sblockOid).Ok?
    ensures var first := MountSnapshot(run[0].img, run[0].live, sblockOid);
            var now := MountSnapshot(run[i].img, run[i].live, sblockOid);
            now.Ok? && ReadPath(run[i].img, now.value, c, path) == ReadPath(run[0].img, first.value, c, path)
  {
    hide Healthy, Commit, FsWalk, PathFrom, KeepsData, DataKept, ReadData, InodeFrom, FrozenAt;
    var first := MountSnapshot(run[0].img, run[0].live, sblockOid).value;
    PathsAreStable(run, i, s, sblockOid, path);
    var now := MountSnapshot(run[i].img, run[i].live, sblockOid).value;
    DataKeptOverRun(run, i, s, sblockOid);
    forall oid: nat ensures FsWalk(run[0].img, first, Some(oid)) == FsWalk(run[i].img, now, Some(oid)) {
      SnapshotIsStable(run, i, s, sblockOid, Some(oid));
    }
    var at := PathFrom(run[0].img, first, ROOT_DIR, path, true);
    if at.Ok? {
      SameWalksSameData(run[0].img, first, run[i].img, now, c, InodeFrom(at.value.oid, at.value.record));
    }
  }
}
