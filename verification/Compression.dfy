/** src/compression.rs and src/decmpfs.rs: the framing of transparently compressed files. The codecs are
    foreign code and enter as partial functions. */
module Compression {
  import opened Prelude
  import opened LittleEndian

  const MAGIC: nat := 0x636d_7066
  const HEADER_LEN: nat := 16
  const CHUNK_SIZE: nat := 65536

  datatype Algorithm = Uncompressed | Zlib | Lzvn | Lzfse | LzBitmap
  datatype Storage = Inline | ResourceFork
  datatype Kind = Kind(algorithm: Algorithm, storage: Storage)

  /** What the foreign codecs make of their input, or None where they reject it. */
  datatype Codecs = Codecs(inflate: Bytes -> Option<Bytes>, lzvn: (Bytes, nat) -> Option<Bytes>,
                           lzfse: Bytes -> Option<Bytes>)

  function Classify(compressionType: nat): Option<Kind> {
    match compressionType
    case 1 => Some(Kind(Uncompressed, Inline))
    case 9 => Some(Kind(Uncompressed, Inline))
    case 10 => Some(Kind(Uncompressed, ResourceFork))
    case 3 => Some(Kind(Zlib, Inline))
    case 4 => Some(Kind(Zlib, ResourceFork))
    case 7 => Some(Kind(Lzvn, Inline))
    case 8 => Some(Kind(Lzvn, ResourceFork))
    case 11 => Some(Kind(Lzfse, Inline))
    case 12 => Some(Kind(Lzfse, ResourceFork))
    case 13 => Some(Kind(LzBitmap, Inline))
    case 14 => Some(Kind(LzBitmap, ResourceFork))
    case _ => None
  }

  /** This file's integer readers fail out of range instead of yielding 0. */
  function ReadLe32(d: Bytes, off: nat): Result<nat> {
    if off + 4 <= |d| then Ok(LeU32(d, off)) else Err(Decmpfs)
  }

  function ReadBe32(d: Bytes, off: nat): Result<nat> {
    if off + 4 <= |d| then
      Ok(((d[off] as nat * 0x100 + d[off + 1]) * 0x100 + d[off + 2]) * 0x100 + d[off + 3])
    else Err(Decmpfs)
  }

  function ReadLe64(d: Bytes, off: nat): Result<nat> {
    if off + 8 <= |d| then Ok(LeU64(d, off)) else Err(Decmpfs)
  }

  /** `uncompressed_size`: header length, then magic, then the field. */
  function UncompressedSize(header: Bytes): Result<nat> {
    if |header| < HEADER_LEN then Err(Decmpfs)
    else
      var magic :- ReadLe32(header, 0);
      if magic != MAGIC then Err(Decmpfs) else ReadLe64(header, 8)
  }

  function Coded(r: Option<Bytes>): Result<Bytes> {
    match r
    case Some(b) => Ok(b)
    case None => Err(Decmpfs)
  }

  /** The payload after a marker byte. */
  function AfterMarker(payload: Bytes): Bytes {
    if payload == [] then [] else payload[1..]
  }

  function DecodeInline(c: Codecs, alg: Algorithm, payload: Bytes, size: nat, compressionType: nat): Result<Bytes> {
    match alg
    case Uncompressed => Ok(if compressionType == 9 then AfterMarker(payload) else payload)
    case Zlib => if payload != [] && payload[0] == 0xff then Ok(AfterMarker(payload)) else Coded(c.inflate(payload))
    case Lzvn => if payload != [] && payload[0] == 0x06 then Ok(AfterMarker(payload)) else Coded(c.lzvn(payload, size))
    case Lzfse => Coded(c.lzfse(payload))
    case LzBitmap => Err(Decmpfs)
  }

  /** One chunk of a chunked fork. */
  function DecodeChunk(c: Codecs, alg: Algorithm, chunk: Bytes, size: nat): Result<Bytes> {
    match alg
    case Lzvn => Coded(c.lzvn(chunk, size))
    case Lzfse => Coded(c.lzfse(chunk))
    case Uncompressed => Ok(chunk)
    case _ => Err(Decmpfs)
  }

  /** The chunk loop from slot i on: chunk i runs from src to the end offset in slot i; the loop stops when
      the slots or the missing bytes run out. */
  function ChunksFrom(c: Codecs, alg: Algorithm, fork: Bytes, size: nat, slots: nat, i: nat, src: nat, out: Bytes)
    : Result<Bytes>
    decreases slots - i
  {
    if i >= slots || |out| >= size then Ok(out)
    else
      var end :- ReadLe32(fork, 4 + 4 * i);
      if end < src || end > |fork| then Err(Decmpfs)
      else
        var decoded :- DecodeChunk(c, alg, fork[src..end], Min(size - |out|, CHUNK_SIZE));
        ChunksFrom(c, alg, fork, size, slots, i + 1, end, out + decoded)
  }

  function ChunkedFork(c: Codecs, alg: Algorithm, fork: Bytes, size: nat): Result<Bytes> {
    var headerSize :- ReadLe32(fork, 0);
    if headerSize / 4 < 1 then Err(Decmpfs)
    else ChunksFrom(c, alg, fork, size, headerSize / 4 - 1, 0, headerSize, [])
  }

  method DecodeChunkedResourceFork(c: Codecs, alg: Algorithm, fork: Bytes, size: nat) returns (r: Result<Bytes>)
    ensures r == ChunkedFork(c, alg, fork, size)
  {
    hide ReadLe32, DecodeChunk;
    var headerSize :- ReadLe32(fork, 0);
    if headerSize / 4 < 1 {
      return Err(Decmpfs);
    }
    var slots := headerSize / 4 - 1;
    var out: Bytes, src: nat := [], headerSize;
    for i := 0 to slots
      invariant ChunksFrom(c, alg, fork, size, slots, i, src, out) == ChunkedFork(c, alg, fork, size)
    {
      if |out| >= size {
        break;
      }
      var end :- ReadLe32(fork, 4 + 4 * i);
      if end < src {
        return Err(Decmpfs);
      }
      if end > |fork| {
        return Err(Decmpfs);
      }
      var decoded :- DecodeChunk(c, alg, fork[src..end], Min(size - |out|, CHUNK_SIZE));
      out := out + decoded;
      src := end;
    }
    return Ok(out);
  }

  /** The block loop of a zlib fork from block i on. */
  function BlocksFrom(c: Codecs, fork: Bytes, table: nat, count: nat, i: nat, out: Bytes): Result<Bytes>
    decreases count - i
  {
    if i >= count then Ok(out)
    else
      var offset :- ReadLe32(fork, table + 4 + 8 * i);
      var size :- ReadLe32(fork, table + 4 + 8 * i + 4);
      if table + offset + size > |fork| then Err(Decmpfs)
      else
        var block :- Coded(c.inflate(fork[table + offset..table + offset + size]));
        BlocksFrom(c, fork, table, count, i + 1, out + block)
  }

  function ZlibFork(c: Codecs, fork: Bytes): Result<Bytes> {
    var headerSize :- ReadBe32(fork, 0);
    var count :- ReadLe32(fork, headerSize + 4);
    BlocksFrom(c, fork, headerSize + 4, count, 0, [])
  }

  method DecodeZlibResourceFork(c: Codecs, fork: Bytes) returns (r: Result<Bytes>)
    ensures r == ZlibFork(c, fork)
  {
    hide ReadLe32, ReadBe32, Coded;
    var headerSize :- ReadBe32(fork, 0);
    var table := headerSize + 4;
    var count :- ReadLe32(fork, table);
    var out: Bytes := [];
    for i := 0 to count
      invariant BlocksFrom(c, fork, table, count, i, out) == ZlibFork(c, fork)
    {
      var entry := table + 4 + 8 * i;
      var offset :- ReadLe32(fork, entry);
      var size :- ReadLe32(fork, entry + 4);
      var start := table + offset;
      if start + size > |fork| {
        return Err(Decmpfs);
      }
      var block :- Coded(c.inflate(fork[start..start + size]));
      out := out + block;
    }
    return Ok(out);
  }

  /** `decompress_decmpfs`: nothing but a decode of exactly the declared length succeeds. */
  function Decompress(c: Codecs, header: Bytes, fork: Option<Bytes>): Result<Bytes> {
    var size :- UncompressedSize(header);
    var compressionType :- ReadLe32(header, 4);
    match Classify(compressionType)
    case None => Err(Decmpfs)
    case Some(kind) =>
      if kind.algorithm == LzBitmap then Err(Decmpfs)
      else
        var out :- (match kind.storage
                    case Inline => DecodeInline(c, kind.algorithm, header[HEADER_LEN..], size, compressionType)
                    case ResourceFork =>
                      if fork.None? then Err(Decmpfs)
                      else if kind.algorithm == Zlib then ZlibFork(c, fork.value)
                      else ChunkedFork(c, kind.algorithm, fork.value, size));
        if |out| != size then Err(Decmpfs) else Ok(out)
  }

  /** The length gate: for any codec behaviour, success is a decode of exactly the declared size. */
  lemma DecompressedLength(c: Codecs, header: Bytes, fork: Option<Bytes>)
    ensures Decompress(c, header, fork).Ok? ==>
              UncompressedSize(header) == Ok(|Decompress(c, header, fork).value|)
  {
  }
}
