/** src/extent.rs `read_data` and `data_size`, with the parts of src/inode.rs and src/xattr.rs they need. */
module FileData {
  import opened Prelude
  import opened LittleEndian
  import opened FsRecord
  import opened BlockReader
  import opened NodeGraph
  import opened Dir
  import opened Compression
  import opened XFields
  import Streams = Extent
  import Navigation

  const MAX_DECMPFS_XATTR: nat := 0x10_0000

  const NAME_DECMPFS: Bytes := AsciiBytes("com.apple.decmpfs")
  const NAME_FORK: Bytes := AsciiBytes("com.apple.ResourceFork")

  function AsciiBytes(s: string): Bytes {
    seq(|s|, i requires 0 <= i < |s| => if s[i] as int < 0x80 then s[i] as int else 0)
  }

  datatype XattrValue = Embedded(bytes: Bytes) | Stream(stream: nat, size: nat)

  const OFF_XFIELDS: nat := 92
  const EXT_DSTREAM: nat := 8

  /** The fields of an inode its data depends on. */
  datatype Inode = Inode(oid: nat, privateId: nat, size: Option<nat>)

  /** The logical size: that of the last data-stream field. */
  function StreamSize(fs: seq<XField>): Option<nat> {
    if fs == [] then None
    else
      var last := fs[|fs| - 1];
      if last.kind == EXT_DSTREAM then Some(LeU64(last.value, 0)) else StreamSize(fs[..|fs| - 1])
  }

  function InodeFrom(oid: nat, record: Bytes): Inode {
    Inode.Inode(oid, LeU64(record, 8),
                if |record| > OFF_XFIELDS then StreamSize(Parsed(record[OFF_XFIELDS..])) else None)
  }

  /** `Inode::parse`. */
  method ParseInode(oid: nat, record: Bytes) returns (inode: Inode)
    ensures inode == InodeFrom(oid, record)
  {
    hide Parsed, LeU64;
    var size: Option<nat> := None;
    if |record| > OFF_XFIELDS {
      var fields := ParseXFields(record[OFF_XFIELDS..]);
      for i := 0 to |fields|
        invariant size == StreamSize(fields[..i])
      {
        assert fields[..i + 1][..i] == fields[..i];
        if fields[i].kind == EXT_DSTREAM {
          size := Some(LeU64(fields[i].value, 0));
        }
      }
      assert fields[..|fields|] == fields;
    }
    return Inode.Inode(oid, LeU64(record, 8), size);
  }

  function XattrName(key: Bytes): Option<Bytes> {
    var len := LeU16(key, 8);
    if len == 0 || 10 + len > |key| then None else Some(Navigation.CString(key[10..10 + len]))
  }

  function XattrData(value: Bytes): Bytes {
    var len := LeU16(value, 2);
    if 4 + len <= |value| then value[4..4 + len] else []
  }

  function DecodeXattr(value: Bytes): XattrValue {
    var data := XattrData(value);
    if LeU16(value, 0) % 2 == 1 then Stream(LeU64(data, 0), LeU64(data, 8)) else Embedded(data)
  }

  predicate IsXattr(e: Entry, oid: nat, name: Bytes) {
    KeyType(e.key) == Some(RecordType.Xattr) && KeyOid(e.key) == oid && XattrName(e.key) == Some(name)
  }

  /** The first attribute of this object with this name. */
  function XattrIn(es: seq<Entry>, oid: nat, name: Bytes): Option<XattrValue> {
    if es == [] then None
    else if IsXattr(es[0], oid, name) then Some(DecodeXattr(es[0].value))
    else XattrIn(es[1..], oid, name)
  }

  /** `get_xattr`. */
  function GetXattr(img: Image, vol: Volume, oid: nat, name: Bytes): Result<Option<XattrValue>> {
    var walk := FsWalk(img, vol, Some(oid));
    if walk.result.Err? then Err(walk.result.error) else Ok(XattrIn(walk.visits, oid, name))
  }

  function StreamValue(img: Image, vol: Volume, v: XattrValue): Result<Option<Bytes>> {
    match v
    case Embedded(bytes) => Ok(Some(bytes))
    case Stream(stream, size) =>
      var bytes :- Streams.StreamBytes(img, vol, stream, size);
      Ok(Some(bytes))
  }

  /** `decmpfs_header`: present exactly for a transparently compressed file. */
  function DecmpfsHeader(img: Image, vol: Volume, oid: nat): Result<Option<Bytes>> {
    var found :- GetXattr(img, vol, oid, NAME_DECMPFS);
    match found
    case None => Ok(None)
    case Some(v) => if v.Stream? && v.size > MAX_DECMPFS_XATTR then Err(FieldOutOfRange) else StreamValue(img, vol, v)
  }

  function ResourceForkOf(img: Image, vol: Volume, oid: nat): Result<Option<Bytes>> {
    var found :- GetXattr(img, vol, oid, NAME_FORK);
    match found
    case None => Ok(None)
    case Some(v) => StreamValue(img, vol, v)
  }

  predicate NeedsFork(compressionType: nat) {
    var kind := Classify(compressionType);
    kind.Some? && kind.value.storage == ResourceFork
  }

  /** `read_compressed`: the fork is fetched only for the types that keep their payload there. */
  function ReadCompressed(img: Image, vol: Volume, c: Codecs, oid: nat, header: Bytes): Result<Bytes> {
    var compressionType :- ReadLe32(header, 4);
    var fork :- (if NeedsFork(compressionType) then ResourceForkOf(img, vol, oid) else Ok(None));
    Decompress(c, header, fork)
  }

  function ReadData(img: Image, vol: Volume, c: Codecs, inode: Inode): Result<Bytes> {
    var header :- DecmpfsHeader(img, vol, inode.oid);
    match header
    case Some(h) => ReadCompressed(img, vol, c, inode.oid, h)
    case None => Streams.StreamBytes(img, vol, inode.privateId, if inode.size.Some? then inode.size.value else 0)
  }

  function DataSize(img: Image, vol: Volume, inode: Inode): Result<nat> {
    var header :- DecmpfsHeader(img, vol, inode.oid);
    match header
    case Some(h) => UncompressedSize(h)
    case None => Ok(if inode.size.Some? then inode.size.value else 0)
  }

  /** `open_path` followed by `read_data`. */
  function ReadPath(img: Image, vol: Volume, c: Codecs, path: seq<Bytes>): Result<Bytes> {
    var at :- Navigation.PathFrom(img, vol, Navigation.ROOT_DIR, path, true);
    ReadData(img, vol, c, InodeFrom(at.oid, at.record))
  }

  /** Whenever a file's data can be read, for any codec behaviour, its reported size is the length read. */
  lemma SizeAgreesWithData(img: Image, vol: Volume, c: Codecs, inode: Inode)
    ensures var data := ReadData(img, vol, c, inode);
            data.Ok? ==> DataSize(img, vol, inode) == Ok(|data.value|)
  {
    hide DecmpfsHeader, UncompressedSize, ResourceForkOf, Decompress, Streams.ExtentList;
    var header := DecmpfsHeader(img, vol, inode.oid);
    if header.Ok? && header.value.Some? {
      forall fork ensures Decompress(c, header.value.value, fork).Ok? ==>
                            UncompressedSize(header.value.value) == Ok(|Decompress(c, header.value.value, fork).value|)
      {
        DecompressedLength(c, header.value.value, fork);
      }
    }
  }
}
