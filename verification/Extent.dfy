/** src/extent.rs: a data stream assembled from its extents. */
module Extent {
  import opened Prelude
  import opened LittleEndian
  import FsRecord
  import opened BlockReader
  import opened NodeGraph
  import Dir

  const LEN_SIZE: nat := 0x100_0000_0000_0000
  const MAX_FILE_BYTES: nat := 0x4_0000_0000

  /** phys 0 is a sparse hole. */
  datatype FileExtent = FileExtent(offset: nat, len: nat, phys: nat)

  function DecodeExtent(e: Entry): FileExtent {
    FileExtent(LeU64(e.key, 8), LeU64(e.value, 0) % LEN_SIZE, LeU64(e.value, 8))
  }

  predicate IsExtentOf(e: Entry, stream: nat) {
    FsRecord.KeyType(e.key) == Some(FsRecord.RecordType.FileExtent) && FsRecord.KeyOid(e.key) == stream
  }

  /** The stream's extents among the visited records, in visiting order. */
  function ExtentsOf(es: seq<Entry>, stream: nat): seq<FileExtent> {
    if es == [] then []
    else (if IsExtentOf(es[0], stream) then [DecodeExtent(es[0])] else []) + ExtentsOf(es[1..], stream)
  }

  /** `sort_by_key` on the logical offset: a stable sort. */
  function Insert(x: FileExtent, s: seq<FileExtent>): seq<FileExtent> {
    if s == [] || x.offset <= s[0].offset then [x] + s else [s[0]] + Insert(x, s[1..])
  }

  function SortByOffset(s: seq<FileExtent>): seq<FileExtent> {
    if s == [] then [] else Insert(s[0], SortByOffset(s[1..]))
  }

  function ExtentList(img: Image, vol: Dir.Volume, stream: nat): Result<seq<FileExtent>> {
    var walk := Dir.FsWalk(img, vol, Some(stream));
    match walk.result
    case Err(e) => Err(e)
    case Ok(_) => Ok(SortByOffset(ExtentsOf(walk.visits, stream)))
  }

  method ListExtents(img: Image, vol: Dir.Volume, stream: nat) returns (r: Result<seq<FileExtent>>)
    ensures r == ExtentList(img, vol, stream)
  {
    var walk := Dir.WalkFsTree(img, vol, Some(stream));
    if walk.result.Err? {
      return Err(walk.result.error);
    }
    var es := walk.visits;
    var out := CollectExtents(es, stream);
    return Ok(SortByOffset(out));
  }

  /** The visit callback's pushes. */
  method CollectExtents(es: seq<Entry>, stream: nat) returns (out: seq<FileExtent>)
    ensures out == ExtentsOf(es, stream)
  {
    hide IsExtentOf, DecodeExtent, ExtentsOf;
    out := [];
    assert es[0..] == es && [] + ExtentsOf(es, stream) == ExtentsOf(es, stream);
    for i := 0 to |es|
      invariant out + ExtentsOf(es[i..], stream) == ExtentsOf(es, stream)
    {
      ExtentsStep(es, i, stream, out);
      if !IsExtentOf(es[i], stream) {
        continue;
      }
      out := out + [DecodeExtent(es[i])];
    }
    NoExtents(es, stream, out);
  }

  lemma ExtentsStep(es: seq<Entry>, i: nat, stream: nat, out: seq<FileExtent>)
    requires i < |es|
    ensures out + ExtentsOf(es[i..], stream)
         == (if IsExtentOf(es[i], stream) then out + [DecodeExtent(es[i])] else out) + ExtentsOf(es[i + 1..], stream)
  {
    hide IsExtentOf, DecodeExtent;
    var rest := ExtentsOf(es[i + 1..], stream);
    assert es[i..][1..] == es[i + 1..];
    Assoc(out, if IsExtentOf(es[i], stream) then [DecodeExtent(es[i])] else [], rest);
    assert out + [] == out;
  }

  lemma NoExtents(es: seq<Entry>, stream: nat, out: seq<FileExtent>)
    ensures out + ExtentsOf(es[|es|..], stream) == out
  {
  }

  /** One extent copied into the buffer: only below the logical size, nothing for a hole. */
  function Copy(img: Image, out: Bytes, ext: FileExtent): (r: Result<Bytes>)
    ensures r.Ok? ==> |r.value| == |out|
  {
    if ext.offset >= |out| || ext.phys == 0 then Ok(out)
    else
      var n := Min(ext.len, |out| - ext.offset);
      match CheckedMul(ext.phys, img.blockSize)
      case None => Err(FieldOutOfRange)
      case Some(from) =>
        var data :- ReadExact(img, from, n);
        Ok(out[..ext.offset] + data + out[ext.offset + n..])
  }

  function Fill(img: Image, out: Bytes, exts: seq<FileExtent>): (r: Result<Bytes>)
    ensures r.Ok? ==> |r.value| == |out|
    decreases exts
  {
    if exts == [] then Ok(out)
    else
      var next :- Copy(img, out, exts[0]);
      Fill(img, next, exts[1..])
  }

  /** A zeroed buffer of the logical size filled from the extents in offset order. */
  function Assemble(img: Image, records: seq<FileExtent>, size: nat): Result<Bytes> {
    Fill(img, Zeros(size), SortByOffset(records))
  }

  /** `read_stream`. */
  function StreamBytes(img: Image, vol: Dir.Volume, stream: nat, size: nat): Result<Bytes> {
    if size > MAX_FILE_BYTES then Err(FieldOutOfRange)
    else
      var exts :- ExtentList(img, vol, stream);
      Fill(img, Zeros(size), exts)
  }

  /** A stream of more than 16 GiB is refused before anything is read. */
  lemma LargeStreamIsRefused(img: Image, vol: Dir.Volume, stream: nat, size: nat)
    requires size > 0x4_0000_0000
    ensures StreamBytes(img, vol, stream, size) == Err(FieldOutOfRange)
  {
  }

  method ReadStream(img: Image, vol: Dir.Volume, stream: nat, size: nat) returns (r: Result<Bytes>)
    ensures r == StreamBytes(img, vol, stream, size)
  {
    if size > MAX_FILE_BYTES {
      return Err(FieldOutOfRange);
    }
    var exts :- ListExtents(img, vol, stream);
    var out := new byte[size](_ => 0);
    assert out[..] == Zeros(size);
    assert exts[0..] == exts;
    for i := 0 to |exts|
      invariant out.Length == size
      invariant Fill(img, out[..], exts[i..]) == Fill(img, Zeros(size), exts)
    {
      assert exts[i..][1..] == exts[i + 1..];
      var done := CopyInto(img, out, exts[i]);
      if done.Err? {
        return Err(done.error);
      }
    }
    assert exts[|exts|..] == [];
    return Ok(out[..]);
  }

  /** The same copy in place. */
  method CopyInto(img: Image, out: array<byte>, ext: FileExtent) returns (r: Result<Unit>)
    modifies out
    ensures match Copy(img, old(out[..]), ext)
            case Err(e) => r == Err(e)
            case Ok(bytes) => r == Ok(Unit) && out[..] == bytes
  {
    if ext.offset >= out.Length || ext.phys == 0 {
      return Ok(Unit);
    }
    var n := Min(ext.len, out.Length - ext.offset);
    var from := CheckedMul(ext.phys, img.blockSize);
    if from == None {
      return Err(FieldOutOfRange);
    }
    var data :- ReadExact(img, from.value, n);
    WriteAt(out, ext.offset, data);
    return Ok(Unit);
  }

  method WriteAt(out: array<byte>, at: nat, data: Bytes)
    requires at + |data| <= out.Length
    modifies out
    ensures out[..] == old(out[..])[..at] + data + old(out[..])[at + |data|..]
  {
    forall k | 0 <= k < |data| {
      out[at + k] := data[k];
    }
  }

  // ---- what assembly computes ----

  predicate Covers(e: FileExtent, i: nat) {
    e.phys != 0 && e.offset <= i < e.offset + e.len
  }

  /** The last extent in the list that covers byte i and is not a hole. */
  function LastCover(exts: seq<FileExtent>, i: nat): Option<FileExtent> {
    if exts == [] then None
    else match LastCover(exts[1..], i)
      case Some(e) => Some(e)
      case None => if Covers(exts[0], i) then Some(exts[0]) else None
  }

  function ImageByte(img: Image, pos: nat): byte {
    if pos < |img.bytes| then img.bytes[pos] else 0
  }

  function ExtentByte(img: Image, e: FileExtent, i: nat): byte
    requires Covers(e, i)
  {
    ImageByte(img, e.phys * img.blockSize + (i - e.offset))
  }

  lemma {:induction false} LastCoverCovers(exts: seq<FileExtent>, i: nat)
    ensures LastCover(exts, i).Some? ==> Covers(LastCover(exts, i).value, i) && LastCover(exts, i).value in exts
    ensures LastCover(exts, i).None? ==> forall e :: e in exts ==> !Covers(e, i)
    decreases exts
  {
    if exts != [] {
      LastCoverCovers(exts[1..], i);
      assert forall e :: e in exts <==> e == exts[0] || e in exts[1..];
    }
  }

  /** The byte assembly puts at i, given what was there. */
  function AssembledByte(img: Image, exts: seq<FileExtent>, i: nat, was: byte): byte {
    LastCoverCovers(exts, i);
    match LastCover(exts, i)
    case None => was
    case Some(e) => ExtentByte(img, e, i)
  }

  lemma CopyPointwise(img: Image, out: Bytes, ext: FileExtent)
    requires Copy(img, out, ext).Ok?
    ensures forall i :: 0 <= i < |out| ==>
              Copy(img, out, ext).value[i] == if Covers(ext, i) then ExtentByte(img, ext, i) else out[i]
  {
    if ext.offset < |out| && ext.phys != 0 {
      var n, from := Min(ext.len, |out| - ext.offset), ext.phys * img.blockSize;
      var data := ReadExact(img, from, n).value;
      assert forall k :: 0 <= k < n ==> data[k] == ImageByte(img, from + k);
      forall i | 0 <= i < |out|
        ensures Copy(img, out, ext).value[i] == if Covers(ext, i) then ExtentByte(img, ext, i) else out[i]
      {
        if Covers(ext, i) {
          assert ExtentByte(img, ext, i) == data[i - ext.offset];
        }
      }
    }
  }

  lemma {:induction false} FillPointwise(img: Image, out: Bytes, exts: seq<FileExtent>, i: nat)
    requires Fill(img, out, exts).Ok? && i < |out|
    ensures Fill(img, out, exts).value[i] == AssembledByte(img, exts, i, out[i])
    decreases exts
  {
    if exts != [] {
      var next := Copy(img, out, exts[0]).value;
      CopyPointwise(img, out, exts[0]);
      FillPointwise(img, next, exts[1..], i);
    }
  }

  /** An extent the assembly does not fail on. */
  predicate Readable(img: Image, e: FileExtent, size: nat) {
    e.offset >= size || e.phys == 0 ||
    (e.phys * img.blockSize < U64_SIZE &&
     (Min(e.len, size - e.offset) == 0 ||
      e.phys * img.blockSize + Min(e.len, size - e.offset) <= |img.bytes|))
  }

  lemma {:induction false} FillSucceedsIff(img: Image, out: Bytes, exts: seq<FileExtent>)
    ensures Fill(img, out, exts).Ok? <==> forall e :: e in exts ==> Readable(img, e, |out|)
    decreases exts
  {
    if exts != [] {
      assert Copy(img, out, exts[0]).Ok? <==> Readable(img, exts[0], |out|);
      assert forall e :: e in exts <==> e == exts[0] || e in exts[1..];
      if Copy(img, out, exts[0]).Ok? {
        FillSucceedsIff(img, Copy(img, out, exts[0]).value, exts[1..]);
      }
    }
  }

  /** The first extent that cannot be read fails the assembly: as out of range if its offset overflows, otherwise
      as an I/O error. */
  lemma {:induction false} FirstFailureIsReported(img: Image, out: Bytes, exts: seq<FileExtent>, i: nat)
    requires i < |exts| && !Readable(img, exts[i], |out|)
    requires forall j :: 0 <= j < i ==> Readable(img, exts[j], |out|)
    ensures Fill(img, out, exts)
         == Err(if exts[i].phys * img.blockSize >= 0x1_0000_0000_0000_0000 then FieldOutOfRange else Io)
    decreases exts
  {
    if i > 0 {
      assert Copy(img, out, exts[0]).Ok?;
      FirstFailureIsReported(img, Copy(img, out, exts[0]).value, exts[1..], i - 1);
    }
  }

  // ---- sorting ----

  ghost predicate SortedByOffset(s: seq<FileExtent>) {
    forall i, j :: 0 <= i < j < |s| ==> s[i].offset <= s[j].offset
  }

  function AtOffset(s: seq<FileExtent>, off: nat): seq<FileExtent> {
    if s == [] then [] else (if s[0].offset == off then [s[0]] else []) + AtOffset(s[1..], off)
  }

  lemma {:induction false} InsertPermutes(x: FileExtent, s: seq<FileExtent>)
    ensures multiset(Insert(x, s)) == multiset{x} + multiset(s)
    decreases s
  {
    if s != [] && x.offset > s[0].offset {
      InsertPermutes(x, s[1..]);
      assert s == [s[0]] + s[1..];
    }
  }

  lemma {:induction false} InsertKeepsTies(x: FileExtent, s: seq<FileExtent>, off: nat)
    ensures AtOffset(Insert(x, s), off) == AtOffset([x] + s, off)
    decreases s
  {
    assert ([x] + s)[1..] == s;
    if s != [] && x.offset > s[0].offset {
      var rest := Insert(x, s[1..]);
      InsertKeepsTies(x, s[1..], off);
      assert ([x] + s[1..])[1..] == s[1..];
      assert ([s[0]] + rest)[1..] == rest;
    }
  }

  lemma {:induction false} InsertSorts(x: FileExtent, s: seq<FileExtent>)
    requires SortedByOffset(s)
    ensures SortedByOffset(Insert(x, s))
    decreases s
  {
    if s != [] && x.offset > s[0].offset {
      var rest := Insert(x, s[1..]);
      InsertSorts(x, s[1..]);
      InsertPermutes(x, s[1..]);
      forall e | e in rest ensures s[0].offset <= e.offset {
        assert e in multiset(rest);
      }
    }
  }

  /** The sort orders by offset, permutes, and keeps records of equal offset in their order. */
  lemma {:induction false} SortIsStable(s: seq<FileExtent>, off: nat)
    ensures SortedByOffset(SortByOffset(s)) && multiset(SortByOffset(s)) == multiset(s)
    ensures AtOffset(SortByOffset(s), off) == AtOffset(s, off)
    decreases s
  {
    if s != [] {
      SortIsStable(s[1..], off);
      var rest := SortByOffset(s[1..]);
      InsertSorts(s[0], rest);
      InsertPermutes(s[0], rest);
      InsertKeepsTies(s[0], rest, off);
      assert s == [s[0]] + s[1..];
      assert ([s[0]] + rest)[1..] == rest;
    }
  }

  lemma SortKeepsMembers(s: seq<FileExtent>)
    ensures forall e :: e in SortByOffset(s) <==> e in s
  {
    SortIsStable(s, 0);
    assert forall e :: e in SortByOffset(s) <==> e in multiset(SortByOffset(s));
    assert forall e :: e in s <==> e in multiset(s);
  }

  /** On success the buffer has exactly the logical size and each byte is the image byte of the last non-hole
      extent in offset order that covers it, or zero; and success depends only on every extent that reaches
      into the file being readable. */
  lemma AssembleIsPointwise(img: Image, records: seq<FileExtent>, size: nat)
    ensures Assemble(img, records, size).Ok? <==> forall e :: e in records ==> Readable(img, e, size)
    ensures var r := Assemble(img, records, size);
            r.Ok? ==> |r.value| == size &&
                      forall i :: 0 <= i < size ==> r.value[i] == AssembledByte(img, SortByOffset(records), i, 0)
  {
    var exts := SortByOffset(records);
    FillSucceedsIff(img, Zeros(size), exts);
    SortKeepsMembers(records);
    if Assemble(img, records, size).Ok? {
      forall i | 0 <= i < size ensures Assemble(img, records, size).value[i] == AssembledByte(img, exts, i, 0) {
        FillPointwise(img, Zeros(size), exts, i);
      }
    }
  }

  /** No two different extents cover a byte in common. */
  ghost predicate Disjoint(exts: seq<FileExtent>) {
    forall e, e', i: nat :: e in exts && e' in exts && Covers(e, i) && Covers(e', i) ==> e == e'
  }

  lemma OneCover(s: seq<FileExtent>, s': seq<FileExtent>, i: nat)
    requires Disjoint(s) && forall e :: e in s <==> e in s'
    ensures LastCover(s, i) == LastCover(s', i)
  {
    LastCoverCovers(s, i);
    LastCoverCovers(s', i);
  }

  /** When extents are disjoint, the order (and repetition) of the records does not matter. */
  lemma OrderDoesNotMatter(img: Image, records: seq<FileExtent>, records': seq<FileExtent>, size: nat)
    requires Disjoint(records) && forall e :: e in records <==> e in records'
    ensures Assemble(img, records, size).Ok? <==> Assemble(img, records', size).Ok?
    ensures Assemble(img, records, size).Ok? ==> Assemble(img, records, size) == Assemble(img, records', size)
  {
    AssembleIsPointwise(img, records, size);
    AssembleIsPointwise(img, records', size);
    SortKeepsMembers(records);
    SortKeepsMembers(records');
    if Assemble(img, records, size).Ok? {
      var r, r' := Assemble(img, records, size).value, Assemble(img, records', size).value;
      forall i | 0 <= i < size ensures r[i] == r'[i] {
        OneCover(SortByOffset(records), SortByOffset(records'), i);
      }
      assert r == r';
    }
  }

  // ---- cutting content into extents ----

  /** A stretch of content: stored at a block, or a hole. */
  datatype Piece = Data(phys: nat, len: nat) | Hole(len: nat)

  function Cut(pieces: seq<Piece>, off: nat): seq<FileExtent> {
    if pieces == [] then []
    else [FileExtent(off, pieces[0].len, if pieces[0].Data? then pieces[0].phys else 0)]
         + Cut(pieces[1..], off + pieces[0].len)
  }

  /** The piece at this offset holds the content: on the image if stored, by being zero if a hole. A piece
      may run past the end of the content, whole blocks being allocated. */
  ghost predicate Holds(img: Image, p: Piece, content: Bytes, off: nat) {
    match p
    case Hole(len) => forall i :: off <= i < Min(off + len, |content|) ==> content[i] == 0
    case Data(phys, len) =>
      && phys != 0 && Readable(img, FileExtent(off, len, phys), |content|)
      && forall i :: off <= i < Min(off + len, |content|) ==>
           content[i] == ImageByte(img, phys * img.blockSize + (i - off))
  }

  /** The pieces, laid end to end from off, hold all the content from off on. */
  ghost predicate Stored(img: Image, pieces: seq<Piece>, content: Bytes, off: nat)
    decreases pieces
  {
    if pieces == [] then off >= |content|
    else Holds(img, pieces[0], content, off) && Stored(img, pieces[1..], content, off + pieces[0].len)
  }

  lemma {:induction false} CutStartsAt(pieces: seq<Piece>, off: nat)
    ensures forall e :: e in Cut(pieces, off) ==> off <= e.offset
    decreases pieces
  {
    if pieces != [] {
      CutStartsAt(pieces[1..], off + pieces[0].len);
    }
  }

  lemma {:induction false} CutIsDisjoint(pieces: seq<Piece>, off: nat)
    ensures Disjoint(Cut(pieces, off))
    decreases pieces
  {
    if pieces != [] {
      CutStartsAt(pieces[1..], off + pieces[0].len);
      CutIsDisjoint(pieces[1..], off + pieces[0].len);
    }
  }

  lemma {:induction false} CutReadsContent(img: Image, pieces: seq<Piece>, content: Bytes, off: nat)
    requires Stored(img, pieces, content, off)
    ensures forall e :: e in Cut(pieces, off) ==> Readable(img, e, |content|)
    ensures forall i :: off <= i < |content| ==> AssembledByte(img, Cut(pieces, off), i, 0) == content[i]
    decreases pieces
  {
    if pieces != [] {
      var next := off + pieces[0].len;
      CutReadsContent(img, pieces[1..], content, next);
      CutStartsAt(pieces[1..], next);
      var here := Cut(pieces, off)[0];
      assert Cut(pieces, off)[1..] == Cut(pieces[1..], next);
      forall i | off <= i < |content| ensures AssembledByte(img, Cut(pieces, off), i, 0) == content[i] {
        LastCoverCovers(Cut(pieces[1..], next), i);
      }
    }
  }

  /** Content cut into extents and holes in any way, the records found in any order, reads back. */
  lemma CutContentReadsBack(img: Image, pieces: seq<Piece>, content: Bytes, records: seq<FileExtent>)
    requires Stored(img, pieces, content, 0)
    requires forall e :: e in records <==> e in Cut(pieces, 0)
    ensures Assemble(img, records, |content|) == Ok(content)
  {
    CutIsDisjoint(pieces, 0);
    CutReadsContent(img, pieces, content, 0);
    AssembleIsPointwise(img, records, |content|);
    SortKeepsMembers(records);
    var r := Assemble(img, records, |content|);
    forall i | 0 <= i < |content| ensures r.value[i] == content[i] {
      OneCover(Cut(pieces, 0), SortByOffset(records), i);
    }
    assert r.value == content;
  }
}
