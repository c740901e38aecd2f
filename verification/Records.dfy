/** File-system records as they are written, and what the readers of src/dir.rs, src/inode.rs, src/extent.rs and
    src/xattr.rs make of them. */
module Records {
  import opened Prelude
  import opened LittleEndian
  import opened FsRecord
  import opened NodeGraph
  import opened XFields
  import opened Navigation
  import opened FileData
  import Streams = Extent

  const ID_SIZE: nat := 0x1000_0000_0000_0000
  const KIND_INODE: nat := 3
  const KIND_XATTR: nat := 4
  const KIND_FILE_EXTENT: nat := 8
  const KIND_DIR_REC: nat := 9

  /** The word a record key begins with. */
  function KeyWord(kind: nat, oid: nat): (b: Bytes)
    requires kind < 16 && oid < ID_SIZE
    ensures |b| == 8
  {
    U64Bytes(kind * ID_SIZE + oid)
  }

  lemma KeyWordDecodes(kind: nat, oid: nat, rest: Bytes)
    requires kind < 16 && oid < ID_SIZE
    ensures KeyOid(KeyWord(kind, oid) + rest) == oid && KeyType(KeyWord(kind, oid) + rest) == FromU4(kind)
  {
    hide U64Bytes, LeU64, FromU4;
    var word := kind * ID_SIZE + oid;
    FieldU64([], word, rest);
    assert [] + U64Bytes(word) + rest == KeyWord(kind, oid) + rest;
    WordSplits(kind, oid);
  }

  lemma WordSplits(kind: nat, oid: nat)
    requires kind < 16 && oid < ID_SIZE
    ensures DecodeJkey(kind * ID_SIZE + oid) == (oid, FromU4(kind))
  {
    hide FromU4;
    var word := kind * ID_SIZE + oid;
    assert word / ID_SIZE == kind && word % ID_SIZE == oid;
  }

  // ---- names ----

  lemma {:induction false} CStringEnds(name: Bytes, rest: Bytes)
    requires 0 !in name
    ensures CString(name + [0] + rest) == name
    decreases name
  {
    var data := name + [0] + rest;
    if name != [] {
      assert data[0] == name[0] && data[1..] == name[1..] + [0] + rest;
      assert 0 !in name[1..];
      CStringEnds(name[1..], rest);
    }
  }

  lemma {:induction false} CStringIsShort(data: Bytes)
    ensures |CString(data)| <= |data|
    decreases data
  {
    if data != [] && data[0] != 0 {
      CStringIsShort(data[1..]);
    }
  }

  lemma NameEnds(name: Bytes)
    requires 0 !in name
    ensures CString(name + [0]) == name
  {
    CStringEnds(name, []);
    assert name + [0] + [] == name + [0];
  }

  /** How a directory record's key holds its name: after a word of hash and length on a volume with hashed keys,
      after the length alone otherwise. The length counts the final NUL. */
  datatype NameForm = Hashed(hash: nat) | Plain

  predicate NameFits(name: Bytes, form: NameForm) {
    0 !in name && match form
    case Hashed(hash) => |name| + 1 < 0x400 && hash < 0x40_0000
    case Plain => |name| + 1 < U16_SIZE
  }

  function NameBytes(name: Bytes, form: NameForm): Bytes
    requires NameFits(name, form)
  {
    match form
    case Hashed(hash) => U32Bytes(0x400 * hash + (|name| + 1)) + (name + [0])
    case Plain => U16Bytes(|name| + 1) + (name + [0])
  }

  lemma HashedNameReadsBack(word: Bytes, name: Bytes, hash: nat)
    requires |word| == 8 && NameFits(name, Hashed(hash))
    ensures DrecName(word + NameBytes(name, Hashed(hash))) == Some(name)
  {
    hide U32Bytes, LeU32, LeU16, CString;
    var len := |name| + 1;
    var n := 0x400 * hash + len;
    var key := word + NameBytes(name, Hashed(hash));
    FieldU32(word, n, name + [0]);
    assert key == word + U32Bytes(n) + (name + [0]);
    assert n % 0x400 == len;
    assert key[12..12 + len] == name + [0];
    NameEnds(name);
  }

  /** The unhashed form is told from the hashed one by length alone, so its name reads back exactly when its
      length is at most 1024, or a multiple of that. */
  lemma PlainNameReadsBackIff(word: Bytes, name: Bytes)
    requires |word| == 8 && NameFits(name, Plain)
    ensures DrecName(word + NameBytes(name, Plain)) == Some(name) <==> |name| + 1 <= 0x400 || (|name| + 1) % 0x400 == 0
  {
    hide U16Bytes, LeU16, LeU32, CString;
    var n := |name| + 1;
    var key := word + NameBytes(name, Plain);
    PlainLength(word, n, name + [0]);
    assert key == word + U16Bytes(n) + (name + [0]) && |key| == 10 + n;
    var hashed := LeU32(key, 8) % 0x400;
    if hashed > 0 && 12 + hashed <= |key| {
      CStringIsShort(key[12..12 + hashed]);
    } else {
      assert key[10..10 + n] == name + [0];
      NameEnds(name);
    }
  }

  lemma PlainLength(word: Bytes, n: nat, rest: Bytes)
    requires |word| == 8 && n < U16_SIZE && rest != []
    ensures var key := word + U16Bytes(n) + rest;
            LeU16(key, 8) == n && LeU32(key, 8) % 0x400 == if |rest| > 1 then n % 0x400 else 0
  {
    hide U16Bytes, LeU16;
    var key := word + U16Bytes(n) + rest;
    FieldU16(word, n, rest);
    LowBits(n, LeU16(key, 10));
  }

  lemma LowBits(n: nat, high: nat)
    ensures (n + U16_SIZE * high) % 0x400 == n % 0x400
  {
    assert n + U16_SIZE * high == n + 0x400 * (0x40 * high);
  }

  predicate NameReadsBack(name: Bytes, form: NameForm) {
    NameFits(name, form) && (form.Plain? ==> |name| + 1 <= 0x400)
  }

  // ---- directory records ----

  function DirRecord(parent: nat, name: Bytes, form: NameForm, child: nat, rest: Bytes): Entry
    requires parent < ID_SIZE && child < U64_SIZE && NameFits(name, form)
  {
    Entry(KeyWord(KIND_DIR_REC, parent) + NameBytes(name, form), U64Bytes(child) + rest)
  }

  ghost predicate IsDirRecord(e: Entry, parent: nat, name: Bytes, child: nat) {
    && parent < ID_SIZE && child < U64_SIZE
    && exists form, rest :: NameReadsBack(name, form) && e == DirRecord(parent, name, form, child, rest)
  }

  /** A directory record reads back as an entry of its parent under its name, leading to its child. */
  lemma DirRecordReadsBack(e: Entry, parent: nat, name: Bytes, child: nat)
    requires IsDirRecord(e, parent, name, child)
    ensures IsEntryFor(e, parent, name) && LeU64(e.value, 0) == child
  {
    hide LeU64, U64Bytes, KeyOid, KeyType, DrecName, KeyWord, NameBytes;
    var form, rest :| NameReadsBack(name, form) && e == DirRecord(parent, name, form, child, rest);
    var word := KeyWord(KIND_DIR_REC, parent);
    KeyWordDecodes(KIND_DIR_REC, parent, NameBytes(name, form));
    FieldU64([], child, rest);
    assert [] + U64Bytes(child) + rest == e.value;
    match form
    case Hashed(hash) => HashedNameReadsBack(word, name, hash);
    case Plain => PlainNameReadsBackIff(word, name);
  }

  /** Record i is the first directory record of its parent and name. */
  ghost predicate IsFirstEntry(es: seq<Entry>, i: nat, parent: nat, name: Bytes, child: nat) {
    && i < |es| && IsDirRecord(es[i], parent, name, child)
    && forall j :: 0 <= j < i ==> !IsEntryFor(es[j], parent, name)
  }

  lemma {:induction false} FirstEntryIsFound(es: seq<Entry>, i: nat, parent: nat, name: Bytes, child: nat)
    requires IsFirstEntry(es, i, parent, name, child)
    ensures ChildIn(es, parent, name) == Some(child)
    decreases es
  {
    hide IsEntryFor, IsDirRecord, LeU64;
    DirRecordReadsBack(es[i], parent, name, child);
    if i > 0 {
      assert es[1..][i - 1] == es[i];
      FirstEntryIsFound(es[1..], i - 1, parent, name, child);
    }
  }

  // ---- inode records ----

  /** An inode record: parent id, stream id, the rest of the fixed prefix, and the extended fields. */
  datatype StoredInode = StoredInode(oid: nat, parent: nat, privateId: nat, fixed: Bytes, fields: seq<Described>,
                                     used: nat, tail: Bytes)

  ghost predicate InodeFits(si: StoredInode) {
    && si.oid < ID_SIZE && si.parent < U64_SIZE && si.privateId < U64_SIZE && |si.fixed| == 76
    && Encodable(si.fields) && si.used < U16_SIZE
  }

  ghost function InodeBytes(si: StoredInode): Bytes
    requires InodeFits(si)
  {
    U64Bytes(si.parent) + U64Bytes(si.privateId) + si.fixed + Encoded(si.fields, si.used, si.tail)
  }

  ghost function InodeRecord(si: StoredInode): Entry
    requires InodeFits(si)
  {
    Entry(KeyWord(KIND_INODE, si.oid), InodeBytes(si))
  }

  /** The last data-stream field names this size. */
  ghost predicate DeclaresSize(fields: seq<Described>, size: nat) {
    exists k :: SizeIsAt(fields, k, size)
  }

  ghost predicate SizeIsAt(fields: seq<Described>, k: int, size: nat) {
    && 0 <= k < |fields| && size < U64_SIZE && fields[k].kind == 8
    && |fields[k].value| >= 8 && fields[k].value[..8] == U64Bytes(size)
    && forall j :: k < j < |fields| ==> fields[j].kind != 8
  }

  lemma {:induction false} SizeIsLast(fields: seq<Described>, k: int, size: nat)
    requires SizeIsAt(fields, k, size)
    ensures StreamSize(Returned(fields)) == Some(size)
    decreases |fields|
  {
    hide U64Bytes, LeU64;
    var last := fields[|fields| - 1];
    assert Returned(fields)[..|fields| - 1] == Returned(fields[..|fields| - 1]);
    if k == |fields| - 1 {
      FieldU64([], size, last.value[8..]);
      assert [] + U64Bytes(size) + last.value[8..] == last.value;
    } else {
      SizeIsLast(fields[..|fields| - 1], k, size);
    }
  }

  /** An inode record reads back with its stream id and declared size. */
  lemma InodeReadsBack(si: StoredInode, size: nat)
    requires InodeFits(si) && DeclaresSize(si.fields, size)
    ensures InodeFrom(si.oid, InodeBytes(si)) == FileData.Inode.Inode(si.oid, si.privateId, Some(size))
  {
    hide U64Bytes, LeU64, Encoded, Encodable, Parsed, StreamSize, Returned, SizeIsAt;
    var fields := Encoded(si.fields, si.used, si.tail);
    var k :| SizeIsAt(si.fields, k, size);
    SizeIsLast(si.fields, k, size);
    XFieldRoundTrip(si.fields, si.used, si.tail);
    EncodedIsLong(si.fields, si.used, si.tail);
    InodeParts(U64Bytes(si.parent), U64Bytes(si.privateId), si.fixed, fields);
    FieldU64(U64Bytes(si.parent), si.privateId, si.fixed + fields);
  }

  /** Without a data-stream field there is no size. */
  lemma {:induction false} NoSizeDeclared(fields: seq<Described>)
    requires DeclaresNone(fields)
    ensures StreamSize(Returned(fields)) == None
    decreases |fields|
  {
    if fields != [] {
      assert Returned(fields)[..|fields| - 1] == Returned(fields[..|fields| - 1]);
      NoSizeDeclared(fields[..|fields| - 1]);
    }
  }

  predicate DeclaresNone(fields: seq<Described>) {
    forall k :: 0 <= k < |fields| ==> fields[k].kind != 8
  }

  lemma InodeWithoutSizeReadsBack(si: StoredInode)
    requires InodeFits(si) && DeclaresNone(si.fields)
    ensures InodeFrom(si.oid, InodeBytes(si)) == FileData.Inode.Inode(si.oid, si.privateId, None)
  {
    hide U64Bytes, LeU64, Encoded, Encodable, Parsed, StreamSize, Returned, DeclaresNone;
    var fields := Encoded(si.fields, si.used, si.tail);
    NoSizeDeclared(si.fields);
    XFieldRoundTrip(si.fields, si.used, si.tail);
    EncodedIsLong(si.fields, si.used, si.tail);
    InodeParts(U64Bytes(si.parent), U64Bytes(si.privateId), si.fixed, fields);
    FieldU64(U64Bytes(si.parent), si.privateId, si.fixed + fields);
  }

  lemma EncodedIsLong(fields: seq<Described>, used: nat, tail: Bytes)
    requires Encodable(fields) && used < U16_SIZE
    ensures |Encoded(fields, used, tail)| >= 4
  {
  }

  lemma InodeParts(parent: Bytes, privateId: Bytes, fixed: Bytes, fields: Bytes)
    requires |parent| == 8 && |privateId| == 8 && |fixed| == 76
    ensures (parent + privateId + fixed + fields)[92..] == fields
    ensures parent + privateId + fixed + fields == parent + privateId + (fixed + fields)
  {
  }

  ghost predicate IsFirstInode(es: seq<Entry>, i: nat, si: StoredInode) {
    && InodeFits(si) && i < |es| && es[i] == InodeRecord(si)
    && forall j :: 0 <= j < i ==> !IsInode(es[j], si.oid)
  }

  lemma {:induction false} FirstInodeIsFound(es: seq<Entry>, i: nat, si: StoredInode)
    requires IsFirstInode(es, i, si)
    ensures InodeIn(es, si.oid) == Some(InodeBytes(si))
    decreases es
  {
    hide KeyOid, KeyType, KeyWord, InodeBytes, InodeFits;
    if i == 0 {
      InodeRecordIsInode(si);
    } else {
      assert es[1..][i - 1] == es[i];
      FirstInodeIsFound(es[1..], i - 1, si);
    }
  }

  lemma InodeRecordIsInode(si: StoredInode)
    requires InodeFits(si)
    ensures IsInode(InodeRecord(si), si.oid)
  {
    hide KeyOid, KeyType, InodeBytes;
    KeyWordDecodes(KIND_INODE, si.oid, []);
    assert KeyWord(KIND_INODE, si.oid) + [] == KeyWord(KIND_INODE, si.oid);
  }

  // ---- extent records ----

  predicate ExtentFits(stream: nat, x: Streams.FileExtent, flags: nat) {
    stream < ID_SIZE && x.offset < U64_SIZE && x.len < 0x100_0000_0000_0000 && x.phys < U64_SIZE && flags < 0x100
  }

  /** The length shares its word with flags; whatever follows the block number is not read. */
  function ExtentRecord(stream: nat, x: Streams.FileExtent, flags: nat, rest: Bytes): Entry
    requires ExtentFits(stream, x, flags)
  {
    Entry(KeyWord(KIND_FILE_EXTENT, stream) + U64Bytes(x.offset),
          U64Bytes(flags * 0x100_0000_0000_0000 + x.len) + U64Bytes(x.phys) + rest)
  }

  ghost predicate IsExtentRecord(e: Entry, stream: nat, x: Streams.FileExtent) {
    exists flags: nat, rest :: ExtentFits(stream, x, flags) && e == ExtentRecord(stream, x, flags, rest)
  }

  lemma ExtentRecordReadsBack(e: Entry, stream: nat, x: Streams.FileExtent)
    requires IsExtentRecord(e, stream, x)
    ensures Streams.IsExtentOf(e, stream) && Streams.DecodeExtent(e) == x
  {
    hide LeU64, U64Bytes, KeyOid, KeyType;
    var flags: nat, rest :| ExtentFits(stream, x, flags) && e == ExtentRecord(stream, x, flags, rest);
    var word, offset := KeyWord(KIND_FILE_EXTENT, stream), U64Bytes(x.offset);
    var len, phys := flags * 0x100_0000_0000_0000 + x.len, U64Bytes(x.phys);
    KeyWordDecodes(KIND_FILE_EXTENT, stream, offset);
    FieldU64(word, x.offset, []);
    assert word + offset + [] == e.key;
    FieldU64([], len, phys + rest);
    assert [] + U64Bytes(len) + (phys + rest) == e.value;
    FieldU64(U64Bytes(len), x.phys, rest);
  }

  lemma {:induction false} ExtentsAreDecoded(es: seq<Entry>, stream: nat, x: Streams.FileExtent)
    ensures x in Streams.ExtentsOf(es, stream) <==>
              exists e :: e in es && Streams.IsExtentOf(e, stream) && Streams.DecodeExtent(e) == x
    decreases es
  {
    hide Streams.IsExtentOf, Streams.DecodeExtent;
    if es != [] {
      ExtentsAreDecoded(es[1..], stream, x);
      assert forall e :: e in es <==> e == es[0] || e in es[1..];
    }
  }

  // ---- attribute records ----

  /** An attribute's value: embedded, or a reference to the stream that holds it. Flag bit 0 says which. */
  function XattrBytes(v: XattrValue, flags: nat, rest: Bytes): Bytes
    requires XattrFits(v, flags, rest)
  {
    match v
    case Embedded(bytes) => U16Bytes(2 * flags) + U16Bytes(|bytes|) + bytes + rest
    case Stream(stream, size) =>
      U16Bytes(2 * flags + 1) + U16Bytes(16 + |rest|) + (U64Bytes(stream) + U64Bytes(size) + rest)
  }

  predicate XattrFits(v: XattrValue, flags: nat, rest: Bytes) {
    flags < 0x8000 && match v
    case Embedded(bytes) => |bytes| < U16_SIZE
    case Stream(stream, size) => stream < U64_SIZE && size < U64_SIZE && 16 + |rest| < U16_SIZE
  }

  function XattrRecord(oid: nat, name: Bytes, v: XattrValue, flags: nat, rest: Bytes): Entry
    requires oid < ID_SIZE && NameFits(name, Plain) && XattrFits(v, flags, rest)
  {
    Entry(KeyWord(KIND_XATTR, oid) + NameBytes(name, Plain), XattrBytes(v, flags, rest))
  }

  ghost predicate IsXattrRecord(e: Entry, oid: nat, name: Bytes, v: XattrValue) {
    && oid < ID_SIZE && NameFits(name, Plain)
    && exists flags: nat, rest :: XattrFits(v, flags, rest) && e == XattrRecord(oid, name, v, flags, rest)
  }

  lemma XattrNameReadsBack(word: Bytes, name: Bytes)
    requires |word| == 8 && NameFits(name, Plain)
    ensures XattrName(word + NameBytes(name, Plain)) == Some(name)
  {
    var n := |name| + 1;
    var key := word + NameBytes(name, Plain);
    FieldU16(word, n, name + [0]);
    assert key == word + U16Bytes(n) + (name + [0]) && key[10..10 + n] == name + [0];
    NameEnds(name);
  }

  lemma XattrValueReadsBack(v: XattrValue, flags: nat, rest: Bytes)
    requires XattrFits(v, flags, rest)
    ensures DecodeXattr(XattrBytes(v, flags, rest)) == v
  {
    hide U16Bytes, U64Bytes, LeU16, LeU64;
    match v
    case Embedded(bytes) => XattrParts(2 * flags, bytes, rest);
    case Stream(stream, size) =>
      var ref := U64Bytes(stream) + U64Bytes(size) + rest;
      XattrParts(2 * flags + 1, ref, []);
      assert U16Bytes(2 * flags + 1) + U16Bytes(|ref|) + ref + [] == XattrBytes(v, flags, rest);
      FieldU64([], stream, U64Bytes(size) + rest);
      assert [] + U64Bytes(stream) + (U64Bytes(size) + rest) == ref;
      FieldU64(U64Bytes(stream), size, rest);
  }

  lemma XattrParts(flags: nat, data: Bytes, rest: Bytes)
    requires flags < U16_SIZE && |data| < U16_SIZE
    ensures var value := U16Bytes(flags) + U16Bytes(|data|) + data + rest;
            LeU16(value, 0) == flags && XattrData(value) == data
  {
    hide U16Bytes, LeU16;
    var f, n := U16Bytes(flags), U16Bytes(|data|);
    var value := f + n + data + rest;
    FieldU16([], flags, n + data + rest);
    assert [] + f + (n + data + rest) == value;
    FieldU16(f, |data|, data + rest);
    assert f + n + (data + rest) == value;
    assert value[4..4 + |data|] == data;
  }

  ghost predicate IsFirstXattr(es: seq<Entry>, i: nat, oid: nat, name: Bytes, v: XattrValue) {
    && i < |es| && IsXattrRecord(es[i], oid, name, v)
    && forall j :: 0 <= j < i ==> !IsXattr(es[j], oid, name)
  }

  lemma {:induction false} FirstXattrIsFound(es: seq<Entry>, i: nat, oid: nat, name: Bytes, v: XattrValue)
    requires IsFirstXattr(es, i, oid, name, v)
    ensures XattrIn(es, oid, name) == Some(v)
    decreases es
  {
    hide IsXattr, IsXattrRecord, DecodeXattr;
    if i == 0 {
      XattrRecordReadsBack(es[0], oid, name, v);
    } else {
      assert es[1..][i - 1] == es[i];
      FirstXattrIsFound(es[1..], i - 1, oid, name, v);
    }
  }

  lemma XattrRecordReadsBack(e: Entry, oid: nat, name: Bytes, v: XattrValue)
    requires IsXattrRecord(e, oid, name, v)
    ensures IsXattr(e, oid, name) && DecodeXattr(e.value) == v
  {
    hide KeyOid, KeyType, KeyWord, NameBytes, XattrName, XattrBytes, DecodeXattr;
    var flags: nat, rest :| XattrFits(v, flags, rest) && e == XattrRecord(oid, name, v, flags, rest);
    KeyWordDecodes(KIND_XATTR, oid, NameBytes(name, Plain));
    XattrNameReadsBack(KeyWord(KIND_XATTR, oid), name);
    XattrValueReadsBack(v, flags, rest);
  }

  lemma {:induction false} NoXattrIsFound(es: seq<Entry>, oid: nat, name: Bytes)
    requires forall e :: e in es ==> !IsXattr(e, oid, name)
    ensures XattrIn(es, oid, name) == None
    decreases es
  {
    hide IsXattr, DecodeXattr;
    if es != [] {
      NoXattrIsFound(es[1..], oid, name);
    }
  }
}
