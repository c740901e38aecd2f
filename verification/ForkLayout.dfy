/** The inverse of the chunked resource-fork decoder: content cut into 65536-byte chunks, each encoded, with
    a table of end offsets that may have unused slots after it. */
module ForkLayout {
  import opened Prelude
  import opened LittleEndian
  import opened Compression

  type Encoder = Bytes -> Bytes

  function FirstChunk(content: Bytes): Bytes {
    content[..Min(|content|, 65536)]
  }

  function LaterChunks(content: Bytes): Bytes {
    content[Min(|content|, 65536)..]
  }

  function Chunks(content: Bytes): seq<Bytes> {
    if content == [] then [] else [FirstChunk(content)] + Chunks(LaterChunks(content))
  }

  /** The encoded chunks end to end. */
  function EncodedData(content: Bytes, enc: Encoder): Bytes {
    if content == [] then [] else enc(FirstChunk(content)) + EncodedData(LaterChunks(content), enc)
  }

  /** The end offsets of the encoded chunks, the first starting at src. */
  function EndOffsets(content: Bytes, enc: Encoder, src: nat): (b: Bytes)
    requires src + |EncodedData(content, enc)| < U32_SIZE
    ensures |b| == 4 * |Chunks(content)|
  {
    if content == [] then []
    else
      var end := src + |enc(FirstChunk(content))|;
      U32Bytes(end) + EndOffsets(LaterChunks(content), enc, end)
  }

  function HeaderSize(content: Bytes, padding: Bytes): nat {
    4 + 4 * |Chunks(content)| + |padding|
  }

  ghost predicate Fits(content: Bytes, enc: Encoder, padding: Bytes) {
    |padding| % 4 == 0 && HeaderSize(content, padding) + |EncodedData(content, enc)| < U32_SIZE
  }

  /** Header size, end offsets, unused slots (whatever they hold), chunk data. */
  function Fork(content: Bytes, enc: Encoder, padding: Bytes): Bytes
    requires Fits(content, enc, padding)
  {
    var headerSize := HeaderSize(content, padding);
    U32Bytes(headerSize) + EndOffsets(content, enc, headerSize) + padding + EncodedData(content, enc)
  }

  /** The codec's decode inverts the encoder on every chunk. */
  ghost predicate Inverts(c: Codecs, alg: Algorithm, enc: Encoder, content: Bytes) {
    forall chunk :: chunk in Chunks(content) ==> DecodeChunk(c, alg, enc(chunk), |chunk|) == Ok(chunk)
  }

  /** From slot i and data offset src on, the fork holds the encoded chunks of this content. */
  ghost predicate Laid(fork: Bytes, enc: Encoder, content: Bytes, i: nat, src: nat)
    decreases |content|
  {
    content != [] ==>
      var e := enc(FirstChunk(content));
      && Holds(fork, e, src)
      && ReadLe32(fork, 4 + 4 * i) == Ok(src + |e|)
      && Laid(fork, enc, LaterChunks(content), i + 1, src + |e|)
  }

  ghost predicate Holds(fork: Bytes, part: Bytes, at: nat) {
    at + |part| <= |fork| && fork[at..at + |part|] == part
  }

  /** With some chunks decoded, the loop decodes the rest. */
  lemma {:induction false} DecodesRest(c: Codecs, alg: Algorithm, enc: Encoder, fork: Bytes, slots: nat, i: nat,
                                        src: nat, done: Bytes, rest: Bytes)
    requires Inverts(c, alg, enc, rest) && i + |Chunks(rest)| <= slots && Laid(fork, enc, rest, i, src)
    ensures ChunksFrom(c, alg, fork, |done| + |rest|, slots, i, src, done) == Ok(done + rest)
    decreases |rest|
  {
    hide *;
    if rest == [] {
      LoopEnds(c, alg, fork, |done|, slots, i, src, done);
      assert done + rest == done;
    } else {
      var chunk, later := FirstChunk(rest), LaterChunks(rest);
      FirstAndRest(c, alg, enc, fork, rest, i, src);
      LoopStep(c, alg, fork, |done| + |rest|, slots, i, src, enc(chunk), done, chunk);
      DecodesRest(c, alg, enc, fork, slots, i + 1, src + |enc(chunk)|, done + chunk, later);
      Assoc(done, chunk, later);
    }
  }

  lemma FirstAndRest(c: Codecs, alg: Algorithm, enc: Encoder, fork: Bytes, content: Bytes, i: nat, src: nat)
    requires content != [] && Inverts(c, alg, enc, content) && Laid(fork, enc, content, i, src)
    ensures var chunk, later := FirstChunk(content), LaterChunks(content);
            && content == chunk + later && |chunk| == Min(|content|, CHUNK_SIZE) > 0
            && |Chunks(content)| == 1 + |Chunks(later)|
            && Inverts(c, alg, enc, later) && DecodeChunk(c, alg, enc(chunk), |chunk|) == Ok(chunk)
            && Holds(fork, enc(chunk), src) && ReadLe32(fork, 4 + 4 * i) == Ok(src + |enc(chunk)|)
            && Laid(fork, enc, later, i + 1, src + |enc(chunk)|)
  {
    hide ReadLe32, DecodeChunk, Holds, Chunks;
    ChunksOf(content);
  }

  lemma ChunksOf(content: Bytes)
    requires content != []
    ensures Chunks(content) == [FirstChunk(content)] + Chunks(LaterChunks(content))
    ensures FirstChunk(content) in Chunks(content)
    ensures forall x :: x in Chunks(LaterChunks(content)) ==> x in Chunks(content)
  {
  }

  lemma LoopEnds(c: Codecs, alg: Algorithm, fork: Bytes, size: nat, slots: nat, i: nat, src: nat, out: Bytes)
    requires size <= |out|
    ensures ChunksFrom(c, alg, fork, size, slots, i, src, out) == Ok(out)
  {
  }

  lemma LoopStep(c: Codecs, alg: Algorithm, fork: Bytes, size: nat, slots: nat, i: nat, src: nat, e: Bytes,
                 done: Bytes, chunk: Bytes)
    requires i < slots && |done| < size && |chunk| == Min(size - |done|, CHUNK_SIZE)
    requires Holds(fork, e, src) && ReadLe32(fork, 4 + 4 * i) == Ok(src + |e|)
    requires DecodeChunk(c, alg, e, |chunk|) == Ok(chunk)
    ensures ChunksFrom(c, alg, fork, size, slots, i, src, done)
         == ChunksFrom(c, alg, fork, size, slots, i + 1, src + |e|, done + chunk)
  {
    hide ReadLe32, DecodeChunk;
  }

  /** The laid-out fork, seen from any chunk on: the table entry and the chunk are in place. */
  lemma {:induction false} ForkIsLaid(fork: Bytes, enc: Encoder, rest: Bytes, i: nat, before: Bytes, after: Bytes,
                                       left: Bytes)
    requires fork == left + EncodedData(rest, enc) && |fork| < U32_SIZE
    requires fork == before + EndOffsets(rest, enc, |left|) + after && |before| == 4 + 4 * i
    ensures Laid(fork, enc, rest, i, |left|)
    decreases |rest|
  {
    hide ReadLe32, EndOffsets, EncodedData, Chunks, FirstChunk, LaterChunks;
    if rest != [] {
      var later, e := LaterChunks(rest), enc(FirstChunk(rest));
      var end := |left| + |e|;
      CutFirst(rest, enc, |left|);
      Assoc(left, e, EncodedData(later, enc));
      Regroup(before, U32Bytes(end), EndOffsets(later, enc, end), after);
      EndReadsBack(fork, before, end, EndOffsets(later, enc, end) + after);
      HoldsMiddle(left, e, EncodedData(later, enc));
      ForkIsLaid(fork, enc, later, i + 1, before + U32Bytes(end), after, left + e);
    }
  }

  lemma HoldsMiddle(a: Bytes, m: Bytes, b: Bytes)
    ensures Holds(a + m + b, m, |a|)
  {
  }

  lemma CutFirst(content: Bytes, enc: Encoder, src: nat)
    requires content != [] && src + |EncodedData(content, enc)| < U32_SIZE
    ensures var chunk, later := FirstChunk(content), LaterChunks(content);
            var end := src + |enc(chunk)|;
            && |later| < |content|
            && EncodedData(content, enc) == enc(chunk) + EncodedData(later, enc)
            && EndOffsets(content, enc, src) == U32Bytes(end) + EndOffsets(later, enc, end)
  {
  }

  lemma RegroupFork(head: Bytes, ends: Bytes, padding: Bytes, data: Bytes)
    ensures head + ends + padding + data == [] + head + (ends + padding + data)
    ensures head + ends + padding + data == head + ends + (padding + data)
  {
  }

  lemma EndReadsBack(fork: Bytes, before: Bytes, end: nat, after: Bytes)
    requires end < U32_SIZE && fork == before + U32Bytes(end) + after
    ensures ReadLe32(fork, |before|) == Ok(end)
  {
    U32RoundTrip(end);
    ReadsInPlace(before, U32Bytes(end), after, 0);
  }

  /** Any content, any encoder the codec inverts, any padding slots: the fork decodes to the content, and
      what the padding slots hold does not matter. */
  lemma ChunkedForkRoundTrip(c: Codecs, alg: Algorithm, enc: Encoder, content: Bytes, padding: Bytes)
    requires Fits(content, enc, padding) && Inverts(c, alg, enc, content)
    ensures ChunkedFork(c, alg, Fork(content, enc, padding), |content|) == Ok(content)
  {
    hide ChunksFrom, ReadLe32, EndOffsets, EncodedData, Chunks, Laid, Inverts;
    var headerSize := HeaderSize(content, padding);
    var head, ends, data := U32Bytes(headerSize), EndOffsets(content, enc, headerSize), EncodedData(content, enc);
    var fork := Fork(content, enc, padding);
    RegroupFork(head, ends, padding, data);
    EndReadsBack(fork, [], headerSize, ends + padding + data);
    var left := head + ends + padding;
    assert |left| == headerSize && headerSize / 4 == 1 + |Chunks(content)| + |padding| / 4;
    ForkIsLaid(fork, enc, content, 0, head, padding + data, left);
    DecodesRest(c, alg, enc, fork, headerSize / 4 - 1, 0, headerSize, [], content);
    assert [] + content == content;
  }

  /** The same at the level of the whole payload: header, type, fork and length gate. */
  lemma CompressedFileRoundTrip(c: Codecs, header: Bytes, compressionType: nat, alg: Algorithm, enc: Encoder,
                                content: Bytes, padding: Bytes)
    requires Fits(content, enc, padding) && Inverts(c, alg, enc, content)
    requires UncompressedSize(header) == Ok(|content|) && ReadLe32(header, 4) == Ok(compressionType)
    requires alg.Lzvn? || alg.Lzfse? || alg.Uncompressed?
    requires Classify(compressionType) == Some(Kind(alg, ResourceFork))
    ensures Decompress(c, header, Some(Fork(content, enc, padding))) == Ok(content)
  {
    hide ChunkedFork, Fork, Inverts, UncompressedSize, ReadLe32, Classify;
    ChunkedForkRoundTrip(c, alg, enc, content, padding);
  }

  /** The marker byte that says an inline payload is stored raw: none for type 1, any byte for type 9, 0xff
      for zlib, the LZVN end-of-stream opcode for LZVN. */
  predicate IsRawMarker(compressionType: nat, marker: Bytes) {
    || (compressionType == 1 && marker == [])
    || (compressionType == 9 && |marker| == 1)
    || (compressionType == 3 && marker == [0xff])
    || (compressionType == 7 && marker == [0x06])
  }

  /** Content stored raw inline reads back whatever the codecs do. */
  lemma RawInlineRoundTrip(c: Codecs, header: Bytes, compressionType: nat, marker: Bytes, content: Bytes,
                           fork: Option<Bytes>)
    requires |header| == HEADER_LEN && UncompressedSize(header) == Ok(|content|)
    requires ReadLe32(header, 4) == Ok(compressionType) && IsRawMarker(compressionType, marker)
    ensures Decompress(c, header + marker + content, fork) == Ok(content)
  {
    var whole, payload := header + marker + content, marker + content;
    HeaderInPlace(header, payload);
    Assoc(header, marker, content);
    assert whole[HEADER_LEN..] == payload;
    assert marker != [] ==> payload[1..] == content;
    hide UncompressedSize, ReadLe32;
  }

  lemma HeaderInPlace(header: Bytes, payload: Bytes)
    requires |header| == HEADER_LEN
    ensures UncompressedSize(header + payload) == UncompressedSize(header)
    ensures ReadLe32(header + payload, 4) == ReadLe32(header, 4)
  {
    hide LeU32, LeU64;
    assert [] + header + payload == header + payload;
    ReadsInPlace([], header, payload, 0);
    ReadsInPlace([], header, payload, 4);
    ReadsInPlace([], header, payload, 8);
  }
}
