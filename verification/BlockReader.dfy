/** The reader: an unchanging byte image, read a block at a time. */
module BlockReader {
  import opened Prelude
  import opened LittleEndian
  import opened Object

  datatype Image = Image(bytes: Bytes, blockSize: nat)

  /** `seek` then `read_exact`: running past the end is an error, reading nothing never is. */
  function ReadExact(img: Image, off: nat, n: nat): (r: Result<Bytes>)
    ensures r.Ok? <==> n == 0 || off + n <= |img.bytes|
    ensures r.Ok? ==> |r.value| == n && (n > 0 ==> r.value == img.bytes[off..off + n])
    ensures r.Err? ==> r.error == Io
  {
    if n == 0 then Ok([])
    else if off + n <= |img.bytes| then Ok(img.bytes[off..off + n])
    else Err(Io)
  }

  /** `checked_mul` of two u64 values. */
  function CheckedMul(a: nat, b: nat): Option<nat> {
    if a * b < U64_SIZE then Some(a * b) else None
  }

  /** `saturating_mul` of two u64 values. */
  function SaturatingMul(a: nat, b: nat): nat {
    if a * b < U64_SIZE then a * b else U64_SIZE - 1
  }

  /** A raw block by address. */
  function ReadRawBlock(img: Image, paddr: nat): Result<Bytes> {
    ReadExact(img, SaturatingMul(paddr, img.blockSize), img.blockSize)
  }

  function Verified(block: Bytes): (r: Result<Bytes>)
    ensures r.Ok? ==> r.value == block && ChecksumValid(block)
    ensures r.Err? ==> r.error == ChecksumMismatch && !ChecksumValid(block)
  {
    if ChecksumValid(block) then Ok(block) else Err(ChecksumMismatch)
  }

  /** src/spaceman.rs `read_obj_block`: a block whose checksum is verified before it is trusted. */
  function ReadObjBlock(img: Image, paddr: nat): Result<Bytes> {
    var block :- ReadRawBlock(img, paddr);
    Verified(block)
  }

  /** The same read step by step: the buffer is filled, then the stored and computed checksums compared. */
  method ReadObjBlockInto(img: Image, paddr: nat) returns (r: Result<Bytes>)
    ensures r == ReadObjBlock(img, paddr)
  {
    var buf :- ReadRawBlock(img, paddr);
    var stored := LeU64(buf, 0);
    var computed := Fletcher64Checksum(buf);
    if stored != computed {
      return Err(ChecksumMismatch);
    }
    return Ok(buf);
  }

  /** The image holds this block at this address. */
  ghost predicate BlockAt(img: Image, paddr: nat, block: Bytes) {
    var off := paddr * img.blockSize;
    off < U64_SIZE && off + img.blockSize <= |img.bytes| && img.bytes[off..off + img.blockSize] == block
  }

  lemma BlockIsRead(img: Image, paddr: nat, block: Bytes)
    requires BlockAt(img, paddr, block)
    ensures CheckedMul(paddr, img.blockSize) == Some(paddr * img.blockSize)
    ensures ReadExact(img, paddr * img.blockSize, img.blockSize) == Ok(block) == ReadRawBlock(img, paddr)
    ensures ReadObjBlock(img, paddr) == if ChecksumValid(block) then Ok(block) else Err(ChecksumMismatch)
  {
    hide ChecksumValid;
  }

  /** An address that does not lie in the image cannot be read; the saturated offset of one that overflows lies
      beyond any image shorter than 2^64 bytes. */
  lemma NoBlockIsRead(img: Image, paddr: nat)
    requires img.blockSize > 0 && |img.bytes| < 0x1_0000_0000_0000_0000
    requires forall block :: !BlockAt(img, paddr, block)
    ensures ReadRawBlock(img, paddr) == Err(Io) == ReadObjBlock(img, paddr)
  {
    var off := paddr * img.blockSize;
    if off < U64_SIZE && off + img.blockSize <= |img.bytes| {
      assert BlockAt(img, paddr, img.bytes[off..off + img.blockSize]);
    }
  }

  /** Checksum before trust: a valid block whose copy has eight aligned bytes past the checksum field changed is
      read back only if each of the two words is unchanged or went between 0 and 0xffffffff. */
  lemma CorruptionIsCaught(img: Image, paddr: nat, block: Bytes, block': Bytes, i: nat)
    requires ChecksumValid(block) && BlockAt(img, paddr, block')
    requires i >= 2 && 4 * i + 8 <= |block| && SameOutside(block, block', 4 * i, 8)
    ensures ReadObjBlock(img, paddr)
         == if Congruent(WordAt(block, 4 * i), WordAt(block', 4 * i)) &&
               Congruent(WordAt(block, 4 * i + 4), WordAt(block', 4 * i + 4))
            then Ok(block') else Err(ChecksumMismatch)
  {
    hide ChecksumValid, Congruent, ReadObjBlock, BlockAt, SameOutside, WordAt;
    BlockIsRead(img, paddr, block');
    ChangedBytesAreCaught(block, block', i);
  }

  /** A valid block of whole words with any one byte changed past the checksum field is never read back. */
  lemma ByteCorruptionIsCaught(img: Image, paddr: nat, block: Bytes, block': Bytes, k: nat)
    requires ChecksumValid(block) && BlockAt(img, paddr, block')
    requires |block| % 4 == 0 && 8 <= k < |block| && SameOutside(block, block', k, 1) && block[k] != block'[k]
    ensures ReadObjBlock(img, paddr) == Err(ChecksumMismatch)
  {
    hide ChecksumValid, ReadObjBlock, BlockAt;
    BlockIsRead(img, paddr, block');
    AnyByteIsCaught(block, block', k);
  }
}
