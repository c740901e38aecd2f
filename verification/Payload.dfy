/** A compressed file's payload as written, in every form the decoder accepts, and what it refuses. */
module Payload {
  import opened Prelude
  import opened LittleEndian
  import opened Compression
  import opened ForkLayout
  import opened ZlibForkLayout

  /** A header as written: "fpmc", type, size, and the inline payload if there is one. */
  function HeaderBytes(compressionType: nat, size: nat, payload: Bytes): Bytes
    requires compressionType < U32_SIZE && size < U64_SIZE
  {
    [0x66, 0x70, 0x6d, 0x63] + U32Bytes(compressionType) + U64Bytes(size) + payload
  }

  lemma HeaderReadsBack(compressionType: nat, size: nat, payload: Bytes)
    requires compressionType < U32_SIZE && size < U64_SIZE
    ensures var header := HeaderBytes(compressionType, size, payload);
            && UncompressedSize(header) == Ok(size) && ReadLe32(header, 4) == Ok(compressionType)
            && |header| >= HEADER_LEN && header[HEADER_LEN..] == payload
  {
    hide U32Bytes, U64Bytes, LeU64;
    var m, t, n := [0x66, 0x70, 0x6d, 0x63], U32Bytes(compressionType), U64Bytes(size);
    var header := HeaderBytes(compressionType, size, payload);
    MagicReads(header);
    FieldU32(m, compressionType, n + payload);
    assert m + t + (n + payload) == header;
    FieldU64(m + t, size, payload);
    hide LeU32;
  }

  lemma MagicReads(header: Bytes)
    requires |header| >= 4
    ensures LeU32(header, 0) == MAGIC <==> header[..4] == [0x66, 0x70, 0x6d, 0x63]
  {
  }

  /** How the content is packed: raw after a marker, or one coded payload, inline; coded in chunks, or in blocks
      behind a table, in the resource fork. */
  datatype Packing =
    | RawInline(marker: Bytes)
    | CodedInline(coded: Bytes)
    | Chunked(encode: Encoder, padding: Bytes)
    | Blocks(front: Bytes, parts: seq<Bytes>, deflate: Encoder)

  /** The codec of a type decodes these bytes to that content. */
  predicate Decodes(c: Codecs, compressionType: nat, coded: Bytes, content: Bytes) {
    match compressionType
    case 3 => c.inflate(coded) == Some(content)
    case 4 => c.inflate(coded) == Some(content)
    case 7 => c.lzvn(coded, |content|) == Some(content)
    case 8 => c.lzvn(coded, |content|) == Some(content)
    case 11 => c.lzfse(coded) == Some(content)
    case 12 => c.lzfse(coded) == Some(content)
    case 10 => coded == content
    case _ => false
  }

  /** The bytes the inline form begins with do not mark it as raw. */
  predicate NotMarked(compressionType: nat, coded: Bytes) {
    coded == [] || (compressionType == 3 && coded[0] != 0xff) || (compressionType == 7 && coded[0] != 0x06)
    || compressionType == 11
  }

  /** The payload and fork hold the content in this packing; the types are those of the format. */
  ghost predicate IsPacked(c: Codecs, compressionType: nat, packing: Packing, content: Bytes, payload: Bytes,
                           fork: Option<Bytes>) {
    match packing
    case RawInline(marker) => IsRawMarker(compressionType, marker) && payload == marker + content
    case CodedInline(coded) =>
      && compressionType in {3, 7, 11} && NotMarked(compressionType, coded)
      && Decodes(c, compressionType, coded, content) && payload == coded
    case Chunked(encode, padding) =>
      && compressionType in {8, 10, 12} && Fits(content, encode, padding)
      && (forall chunk :: chunk in Chunks(content) ==> Decodes(c, compressionType, encode(chunk), chunk))
      && fork == Some(Fork(content, encode, padding))
    case Blocks(front, parts, deflate) =>
      && compressionType == 4 && ZlibFits(front, parts, deflate) && content == Joined(parts)
      && (forall part :: part in parts ==> Decodes(c, 4, deflate(part), part))
      && fork == Some(ZlibForkBytes(front, parts, deflate))
  }

  lemma ChunksInvert(c: Codecs, compressionType: nat, alg: Algorithm, encode: Encoder, content: Bytes)
    requires compressionType in {8, 10, 12} && Classify(compressionType) == Some(Kind(alg, ResourceFork))
    requires forall chunk :: chunk in Chunks(content) ==> Decodes(c, compressionType, encode(chunk), chunk)
    ensures Inverts(c, alg, encode, content)
  {
    hide Chunks;
  }

  /** Every packing of any content is decoded, for any codecs that invert the encoders used, to the content. */
  lemma PackedIsDecoded(c: Codecs, compressionType: nat, packing: Packing, content: Bytes, payload: Bytes,
                        fork: Option<Bytes>)
    requires compressionType < U32_SIZE && |content| < U64_SIZE
    requires IsPacked(c, compressionType, packing, content, payload, fork)
    ensures Decompress(c, HeaderBytes(compressionType, |content|, payload), fork) == Ok(content)
  {
    hide HeaderBytes, UncompressedSize, ReadLe32, ChunkedFork, ZlibFork, Fork, ZlibForkBytes, Chunks, Joined, Inverts;
    var header := HeaderBytes(compressionType, |content|, payload);
    HeaderReadsBack(compressionType, |content|, payload);
    match packing
    case RawInline(marker) =>
      assert marker != [] ==> payload[1..] == content;
      assert marker == [] ==> payload == content;
    case CodedInline(coded) =>
    case Chunked(encode, padding) =>
      var alg := if compressionType == 8 then Lzvn else if compressionType == 12 then Lzfse else Uncompressed;
      ChunksInvert(c, compressionType, alg, encode, content);
      ChunkedForkRoundTrip(c, alg, encode, content, padding);
    case Blocks(front, parts, deflate) =>
      assert Inflates(c, deflate, parts);
      ZlibForkRoundTrip(c, deflate, front, parts);
  }

  /** The types the decoder knows; those with an even number keep their payload in the fork. */
  predicate IsKnownType(compressionType: nat) {
    compressionType in {1, 3, 4, 7, 8, 9, 10, 11, 12}
  }

  /** What is refused whatever the codecs do: a short header, other magic, an unknown type, a type of the fork
      without one, and a chunked fork too short for its own header. */
  lemma OthersAreRefused(c: Codecs, header: Bytes, fork: Option<Bytes>)
    requires |header| < 16 || header[..4] != [0x66, 0x70, 0x6d, 0x63] || !IsKnownType(Digits(header[4..8])) ||
             (Digits(header[4..8]) % 2 == 0 && fork == None) ||
             (Digits(header[4..8]) in {8, 10, 12} && |fork.value| < 4)
    ensures Decompress(c, header, fork) == Err(Decmpfs)
  {
    hide LeU32, LeU64, Digits, ChunksFrom, ZlibFork, DecodeInline;
    if |header| >= 16 {
      MagicReads(header);
      ReadsAreDigits(header, 4);
    }
  }

  /** An inline coded payload is accepted exactly when its codec decodes it to the declared size, even for an empty
      file; anything else is refused. */
  lemma CodedInlineSucceedsIff(c: Codecs, compressionType: nat, size: nat, coded: Bytes, fork: Option<Bytes>)
    requires compressionType in {3, 7, 11} && size < U64_SIZE && NotMarked(compressionType, coded)
    ensures var r := Decompress(c, HeaderBytes(compressionType, size, coded), fork);
            && (forall content :: r == Ok(content) <==>
                  |content| == size && Decodes(c, compressionType, coded, content))
            && (r.Err? ==> r.error == Decmpfs)
  {
    hide HeaderBytes, UncompressedSize, ReadLe32;
    HeaderReadsBack(compressionType, size, coded);
  }
}
