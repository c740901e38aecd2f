/** src/spaceman.rs: is a block free according to the allocation bitmaps? */
module Spaceman {
  import opened Prelude
  import opened LittleEndian
  import opened Object
  import opened BlockReader

  /** The main device's fields of a space manager block. */
  datatype Device = Device(blocksPerChunk: nat, chunksPerCib: nat, blockCount: nat, chunkCount: nat, cibCount: nat,
                           cabCount: nat, addrOffset: nat)

  function DeviceOf(sm: Bytes): Device {
    Device(LeU32(sm, 36), LeU32(sm, 40), LeU64(sm, 48), LeU64(sm, 56), LeU32(sm, 64), LeU32(sm, 68), LeU32(sm, 80))
  }

  /** Where a block's allocation bit is: chunk-info block, chunk within it, bit within the chunk. */
  datatype Address = Address(cib: nat, within: nat, bit: nat)

  function AddressOf(d: Device, block: nat): Address
    requires d.blocksPerChunk > 0 && d.chunksPerCib > 0
  {
    var chunk := block / d.blocksPerChunk;
    Address(chunk / d.chunksPerCib, chunk % d.chunksPerCib, block % d.blocksPerChunk)
  }

  /** Bit k of a bitmap, least significant first; past its end no bit is set. */
  predicate BitSet(bitmap: Bytes, k: nat) {
    k / 8 < |bitmap| && ByteBit(bitmap[k / 8], k % 8)
  }

  predicate ByteBit(b: nat, i: nat) {
    if i == 0 then b % 2 == 1 else ByteBit(b / 2, i - 1)
  }

  /** The bitmap address a chunk-info block holds for one of its chunks. */
  function BitmapAddr(img: Image, sm: Bytes, d: Device, cib: nat, within: nat): Result<nat> {
    var block :- ReadObjBlock(img, LeU64(sm, d.addrOffset + cib * 8));
    if within >= LeU32(block, 36) then Err(FieldOutOfRange) else Ok(LeU64(block, 40 + within * 32 + 24))
  }

  /** A chunk with no bitmap is all free, like an empty bitmap. The bitmap block carries no checksum. */
  function Bitmap(img: Image, addr: nat): Result<Bytes> {
    if addr == 0 then Ok([]) else ReadRawBlock(img, addr)
  }

  function ChunkBitmap(img: Image, sm: Bytes, d: Device, cib: nat, within: nat): Result<Bytes> {
    var addr :- BitmapAddr(img, sm, d, cib, within);
    Bitmap(img, addr)
  }

  /** The checks and the lookup, given the space manager block and its device fields. */
  function FreeOn(img: Image, sm: Bytes, d: Device, block: nat): Result<bool> {
    if d.blocksPerChunk == 0 || d.chunksPerCib == 0 then Err(FieldOutOfRange)
    else if block >= d.blockCount then Err(FieldOutOfRange)
    else if d.cabCount != 0 then Err(UnsupportedSpacemanCab(d.cabCount))
    else if block / d.blocksPerChunk >= d.chunkCount then Err(FieldOutOfRange)
    else
      var a := AddressOf(d, block);
      if a.cib >= d.cibCount then Err(FieldOutOfRange)
      else
        var bitmap :- ChunkBitmap(img, sm, d, a.cib, a.within);
        Ok(!BitSet(bitmap, a.bit))
  }

  /** `is_block_free`. */
  function BlockFree(img: Image, spaceman: nat, block: nat): Result<bool> {
    var sm :- ReadObjBlock(img, spaceman);
    FreeOn(img, sm, DeviceOf(sm), block)
  }

  method IsBlockFree(img: Image, spaceman: nat, block: nat) returns (r: Result<bool>)
    ensures r == BlockFree(img, spaceman, block)
  {
    hide DeviceOf, FreeOn;
    var sm :- ReadObjBlockInto(img, spaceman);
    r := QueryDevice(img, sm, DeviceOf(sm), block);
  }

  method QueryDevice(img: Image, sm: Bytes, d: Device, block: nat) returns (r: Result<bool>)
    ensures r == FreeOn(img, sm, d, block)
  {
    hide ReadObjBlock, ReadRawBlock, BitSet;
    if d.blocksPerChunk == 0 || d.chunksPerCib == 0 || block >= d.blockCount {
      return Err(FieldOutOfRange);
    }
    if d.cabCount != 0 {
      return Err(UnsupportedSpacemanCab(d.cabCount));
    }
    if block / d.blocksPerChunk >= d.chunkCount {
      return Err(FieldOutOfRange);
    }
    var a := AddressOf(d, block);
    if a.cib >= d.cibCount {
      return Err(FieldOutOfRange);
    }
    var cib :- ReadObjBlockInto(img, LeU64(sm, d.addrOffset + a.cib * 8));
    if a.within >= LeU32(cib, 36) {
      return Err(FieldOutOfRange);
    }
    var bitmapAddr := LeU64(cib, 40 + a.within * 32 + 24);
    if bitmapAddr == 0 {
      NoBitInEmpty(a.bit);
      return Ok(true);
    }
    var bitmap :- ReadRawBlock(img, bitmapAddr);
    return Ok(!BitSet(bitmap, a.bit));
  }

  lemma NoBitInEmpty(k: nat)
    ensures !BitSet([], k)
  {
  }

  // ---- addressing ----

  lemma DivMod(x: nat, m: nat)
    requires m > 0
    ensures x == x / m * m + x % m && x % m < m
  {
  }

  /** Addresses are in range and one-to-one: the block is recovered from its address. */
  lemma AddressRecoversBlock(d: Device, block: nat)
    requires d.blocksPerChunk > 0 && d.chunksPerCib > 0
    ensures var a := AddressOf(d, block);
            && a.within < d.chunksPerCib && a.bit < d.blocksPerChunk
            && block == (a.cib * d.chunksPerCib + a.within) * d.blocksPerChunk + a.bit
  {
    DivMod(block, d.blocksPerChunk);
    DivMod(block / d.blocksPerChunk, d.chunksPerCib);
  }

  lemma AddressOneToOne(d: Device, block: nat, block': nat)
    requires d.blocksPerChunk > 0 && d.chunksPerCib > 0 && AddressOf(d, block) == AddressOf(d, block')
    ensures block == block'
  {
    AddressRecoversBlock(d, block);
    AddressRecoversBlock(d, block');
  }

  lemma LessFromProducts(a: nat, b: nat, m: nat)
    requires a * m < b * m
    ensures a < b
  {
    assert b * m - a * m == (b - a) * m;
  }

  lemma QuotientBelow(x: nat, m: nat, n: nat)
    requires m > 0 && x < n * m
    ensures x / m < n
  {
    DivMod(x, m);
    LessFromProducts(x / m, n, m);
  }

  // ---- the device as a set of allocated blocks ----

  /** The bitmap of a chunk, by its number in the device. */
  function NthBitmap(img: Image, sm: Bytes, d: Device, chunk: nat): Result<Bytes>
    requires d.chunksPerCib > 0
  {
    ChunkBitmap(img, sm, d, chunk / d.chunksPerCib, chunk % d.chunksPerCib)
  }

  /** No CAB tier, a block-sized bitmap per chunk, enough chunks and chunk-info blocks, and all of them
      readable. */
  ghost predicate WellFormed(img: Image, sm: Bytes, d: Device) {
    && d.cabCount == 0 && d.chunksPerCib > 0
    && d.blocksPerChunk == 8 * img.blockSize > 0
    && d.blockCount <= d.chunkCount * d.blocksPerChunk && d.chunkCount <= d.cibCount * d.chunksPerCib
    && forall c: nat :: c < d.chunkCount ==> NthBitmap(img, sm, d, c).Ok?
  }

  /** A block's bit in its chunk's bitmap. */
  predicate Marked(img: Image, sm: Bytes, d: Device, block: nat)
    requires d.chunksPerCib > 0 && d.blocksPerChunk > 0
  {
    var bitmap := NthBitmap(img, sm, d, block / d.blocksPerChunk);
    bitmap.Ok? && BitSet(bitmap.value, block % d.blocksPerChunk)
  }

  ghost function AllocatedSet(img: Image, sm: Bytes, d: Device): set<nat>
    requires WellFormed(img, sm, d)
  {
    set b: nat | 0 <= b < d.blockCount && Marked(img, sm, d, b)
  }

  lemma AddressExists(img: Image, sm: Bytes, d: Device, block: nat)
    requires WellFormed(img, sm, d) && block < d.blockCount
    ensures d.cabCount == 0 && d.chunksPerCib > 0 && d.blocksPerChunk > 0
    ensures block / d.blocksPerChunk < d.chunkCount && AddressOf(d, block).cib < d.cibCount
    ensures NthBitmap(img, sm, d, block / d.blocksPerChunk).Ok?
  {
    hide NthBitmap;
    QuotientsBelow(block, d.blocksPerChunk, d.chunkCount, d.chunksPerCib, d.cibCount);
  }

  lemma QuotientsBelow(block: nat, perChunk: nat, chunks: nat, perCib: nat, cibs: nat)
    requires perChunk > 0 && perCib > 0 && block < chunks * perChunk && chunks <= cibs * perCib
    ensures block / perChunk < chunks && block / perChunk / perCib < cibs
  {
    QuotientBelow(block, perChunk, chunks);
    var chunk := block / perChunk;
    QuotientBelow(chunk, perCib, cibs);
  }

  /** On a well-formed device the query answers for every block of it, and answers non-membership in the
      allocated set; past the device it is an error. */
  lemma FreeIsNotAllocated(img: Image, sm: Bytes, d: Device, block: nat)
    requires WellFormed(img, sm, d)
    ensures FreeOn(img, sm, d, block)
         == if block < d.blockCount then Ok(block !in AllocatedSet(img, sm, d)) else Err(FieldOutOfRange)
  {
    hide BitSet, ChunkBitmap, WellFormed;
    if block < d.blockCount {
      AddressExists(img, sm, d, block);
    }
  }

  // ---- counting ----

  function Count(f: nat -> bool, n: nat): nat {
    if n == 0 then 0 else Count(f, n - 1) + if f(n - 1) then 1 else 0
  }

  /** Number of set bits of a byte, and of a bitmap. */
  function PopByte(b: nat): nat {
    if b == 0 then 0 else b % 2 + PopByte(b / 2)
  }

  function Popcount(bitmap: Bytes): nat {
    if bitmap == [] then 0 else PopByte(bitmap[0]) + Popcount(bitmap[1..])
  }

  /** Summed over the first n chunks; a chunk with no bitmap contributes nothing. */
  function SummedPopcount(img: Image, sm: Bytes, d: Device, n: nat): nat
    requires d.chunksPerCib > 0
  {
    if n == 0 then 0
    else SummedPopcount(img, sm, d, n - 1)
         + match NthBitmap(img, sm, d, n - 1) case Ok(bitmap) => Popcount(bitmap) case Err(_) => 0
  }

  lemma {:induction false} CountSame(f: nat -> bool, g: nat -> bool, n: nat)
    requires forall k: nat :: k < n ==> f(k) == g(k)
    ensures Count(f, n) == Count(g, n)
  {
    if n > 0 {
      CountSame(f, g, n - 1);
    }
  }

  lemma {:induction false} CountSplit(f: nat -> bool, g: nat -> bool, a: nat, n: nat)
    requires forall k: nat :: k < n ==> f(a + k) == g(k)
    ensures Count(f, a + n) == Count(f, a) + Count(g, n)
  {
    if n > 0 {
      CountSplit(f, g, a, n - 1);
    }
  }

  /** A count grows exactly when something is counted. */
  lemma {:induction false} CountNone(f: nat -> bool, a: nat, n: nat)
    requires a <= n
    ensures Count(f, a) <= Count(f, n)
    ensures Count(f, n) == Count(f, a) <==> forall k: nat :: a <= k < n ==> !f(k)
    decreases n - a
  {
    if a < n {
      CountNone(f, a, n - 1);
    }
  }

  lemma {:induction false} PopByteCounts(b: nat, width: nat)
    requires b < Pow2(width)
    ensures PopByte(b) == Count((i: nat) => ByteBit(b, i), width)
    decreases width
  {
    if width == 0 {
    } else {
      var f, g := (i: nat) => ByteBit(b, i), (i: nat) => ByteBit(b / 2, i);
      PopByteCounts(b / 2, width - 1);
      CountSplit(f, g, 1, width - 1);
      assert Count(f, 1) == Count(f, 0) + if f(0) then 1 else 0;
      assert PopByte(b) == b % 2 + PopByte(b / 2);
    }
  }

  function Pow2(n: nat): (p: nat)
    ensures p > 0
  {
    if n == 0 then 1 else 2 * Pow2(n - 1)
  }

  lemma BytePop(b: byte)
    ensures PopByte(b) == Count((i: nat) => ByteBit(b, i), 8)
  {
    assert Pow2(8) == 256;
    PopByteCounts(b, 8);
  }

  lemma {:induction false} PopcountCounts(bitmap: Bytes)
    ensures Popcount(bitmap) == Count((k: nat) => BitSet(bitmap, k), 8 * |bitmap|)
    decreases bitmap
  {
    hide BitSet, ByteBit, PopByte;
    if bitmap != [] {
      var f, rest := (k: nat) => BitSet(bitmap, k), bitmap[1..];
      var g, h := (i: nat) => ByteBit(bitmap[0], i), (k: nat) => BitSet(rest, k);
      BitsOfFirstAndRest(bitmap);
      BytePop(bitmap[0]);
      PopcountCounts(rest);
      CountSame(f, g, 8);
      CountSplit(f, h, 8, 8 * |rest|);
    }
  }

  lemma BitsOfFirstAndRest(bitmap: Bytes)
    requires bitmap != []
    ensures forall k: nat :: k < 8 ==> BitSet(bitmap, k) == ByteBit(bitmap[0], k)
    ensures forall k: nat :: BitSet(bitmap, 8 + k) == BitSet(bitmap[1..], k)
  {
    forall k: nat ensures BitSet(bitmap, 8 + k) == BitSet(bitmap[1..], k) {
      assert (8 + k) / 8 == 1 + k / 8 && (8 + k) % 8 == k % 8;
    }
  }

  lemma {:induction false} MarkedInChunks(img: Image, sm: Bytes, d: Device, n: nat)
    requires WellFormed(img, sm, d) && n <= d.chunkCount
    ensures Count((b: nat) => Marked(img, sm, d, b), n * d.blocksPerChunk) == SummedPopcount(img, sm, d, n)
    decreases n
  {
    hide Marked, NthBitmap, BitSet, Popcount;
    if n > 0 {
      var f := (b: nat) => Marked(img, sm, d, b);
      MarkedInChunks(img, sm, d, n - 1);
      MarkedInOneChunk(img, sm, d, n - 1);
      assert (n - 1) * d.blocksPerChunk + d.blocksPerChunk == n * d.blocksPerChunk;
    }
  }

  lemma MarkedInOneChunk(img: Image, sm: Bytes, d: Device, chunk: nat)
    requires WellFormed(img, sm, d) && chunk < d.chunkCount
    ensures var f := (b: nat) => Marked(img, sm, d, b);
            var before := Count(f, chunk * d.blocksPerChunk);
            Count(f, chunk * d.blocksPerChunk + d.blocksPerChunk)
            == before + Popcount(NthBitmap(img, sm, d, chunk).value)
  {
    hide NthBitmap, BitSet, Popcount;
    var size, bitmap := d.blocksPerChunk, NthBitmap(img, sm, d, chunk).value;
    var f, g := (b: nat) => Marked(img, sm, d, b), (k: nat) => BitSet(bitmap, k);
    forall k: nat | k < size ensures f(chunk * size + k) == g(k) {
      OffsetInChunk(chunk, size, k);
    }
    CountSplit(f, g, chunk * size, size);
    PopcountCounts(bitmap);
    BitmapSize(img, sm, d, chunk);
    if bitmap == [] {
      NoBits(size);
    }
  }

  lemma OffsetInChunk(c: nat, size: nat, k: nat)
    requires k < size
    ensures (c * size + k) / size == c && (c * size + k) % size == k
  {
    DivMod(c * size + k, size);
    var q := (c * size + k) / size;
    LessFromProducts(q, c + 1, size);
    LessFromProducts(c, q + 1, size);
  }

  lemma BitmapSize(img: Image, sm: Bytes, d: Device, chunk: nat)
    requires d.chunksPerCib > 0 && NthBitmap(img, sm, d, chunk).Ok?
    ensures NthBitmap(img, sm, d, chunk).value == [] || |NthBitmap(img, sm, d, chunk).value| == img.blockSize
  {
  }

  lemma NoBits(n: nat)
    ensures Count((k: nat) => BitSet([], k), n) == 0 == Count((k: nat) => BitSet([], k), 0)
  {
    CountNone((k: nat) => BitSet([], k), 0, n);
  }

  /** The bits past the device's last block are clear. */
  ghost predicate TailClear(img: Image, sm: Bytes, d: Device)
    requires WellFormed(img, sm, d)
  {
    forall b: nat :: d.blockCount <= b < d.chunkCount * d.blocksPerChunk ==> !Marked(img, sm, d, b)
  }

  lemma DeviceInChunks(img: Image, sm: Bytes, d: Device)
    requires WellFormed(img, sm, d)
    ensures d.chunksPerCib > 0 && d.blocksPerChunk > 0 && d.blockCount <= d.chunkCount * d.blocksPerChunk
  {
  }

  lemma AllocatedCount(img: Image, sm: Bytes, d: Device)
    requires WellFormed(img, sm, d)
    ensures var notFree := Count((b: nat) => FreeOn(img, sm, d, b) == Ok(false), d.blockCount);
            && notFree <= SummedPopcount(img, sm, d, d.chunkCount)
            && (notFree == SummedPopcount(img, sm, d, d.chunkCount) <==> TailClear(img, sm, d))
  {
    hide Marked, FreeOn, WellFormed, Count, SummedPopcount;
    DeviceInChunks(img, sm, d);
    var marked, taken := (b: nat) => Marked(img, sm, d, b), (b: nat) => FreeOn(img, sm, d, b) == Ok(false);
    var end := d.chunkCount * d.blocksPerChunk;
    MarkedInChunks(img, sm, d, d.chunkCount);
    CountNone(marked, d.blockCount, end);
    assert forall k: nat :: marked(k) == Marked(img, sm, d, k);
    assert TailClear(img, sm, d) <==> forall k: nat :: d.blockCount <= k < end ==> !marked(k);
    forall b: nat | b < d.blockCount ensures marked(b) == taken(b) {
      FreeIsNotAllocated(img, sm, d, b);
    }
    CountSame(marked, taken, d.blockCount);
  }

  /** How many of the first n blocks the query reports as not free. */
  function NotFree(img: Image, spaceman: nat, n: nat): nat {
    Count((block: nat) => BlockFree(img, spaceman, block) == Ok(false), n)
  }

  /** The query as a whole: on a well-formed device it answers non-membership in the allocated set for every
      block, and is an error past the device. */
  lemma QueryAnswersMembership(img: Image, spaceman: nat, sm: Bytes, d: Device, block: nat)
    requires ReadObjBlock(img, spaceman) == Ok(sm) && d == DeviceOf(sm) && WellFormed(img, sm, d)
    ensures block < d.blockCount ==>
              (BlockFree(img, spaceman, block) == Ok(true) <==> block !in AllocatedSet(img, sm, d)) &&
              (BlockFree(img, spaceman, block) == Ok(false) <==> block in AllocatedSet(img, sm, d))
    ensures block >= d.blockCount ==> BlockFree(img, spaceman, block) == Err(FieldOutOfRange)
  {
    hide FreeOn, WellFormed, AllocatedSet;
    FreeIsNotAllocated(img, sm, d, block);
  }

  /** And the blocks it reports as not free never outnumber the summed popcount of the chunk bitmaps, and are
      that many exactly when no bit past the device's last block is set. */
  lemma QueryCountsPopcount(img: Image, spaceman: nat, sm: Bytes, d: Device)
    requires ReadObjBlock(img, spaceman) == Ok(sm) && d == DeviceOf(sm) && WellFormed(img, sm, d)
    ensures NotFree(img, spaceman, d.blockCount) <= SummedPopcount(img, sm, d, d.chunkCount)
    ensures NotFree(img, spaceman, d.blockCount) == SummedPopcount(img, sm, d, d.chunkCount)
            <==> TailClear(img, sm, d)
  {
    hide WellFormed, FreeOn, TailClear;
    AllocatedCount(img, sm, d);
    CountSame((block: nat) => BlockFree(img, spaceman, block) == Ok(false),
              (block: nat) => FreeOn(img, sm, d, block) == Ok(false), d.blockCount);
  }

  // ---- a device as written ----

  lemma {:induction false} ByteBitIs(b: nat, i: nat)
    ensures ByteBit(b, i) <==> b / Pow2(i) % 2 == 1
    decreases i
  {
    if i > 0 {
      ByteBitIs(b / 2, i - 1);
      DivTwice(b, Pow2(i - 1));
    }
  }

  lemma DivTwice(b: nat, p: nat)
    requires p > 0
    ensures b / 2 / p == b / (2 * p)
  {
    DivMod(b, 2);
    DivMod(b / 2, p);
    var q, r := b / 2 / p, b / 2 % p * 2 + b % 2;
    assert b == (2 * p) * q + r;
    QuotientIs(b, 2 * p, q, r);
  }

  lemma QuotientIs(x: nat, m: nat, q: nat, r: nat)
    requires m > 0 && x == m * q + r && r < m
    ensures x / m == q
  {
    var p := x / m;
    DivMod(x, m);
    Commute(m, q);
    OneMore(q, m);
    OneMore(p, m);
    LessFromProducts(q, p + 1, m);
    LessFromProducts(p, q + 1, m);
  }

  lemma Commute(a: nat, b: nat)
    ensures a * b == b * a
  {
  }

  lemma OneMore(a: nat, m: nat)
    ensures (a + 1) * m == a * m + m
  {
  }

  /** Bit k, least significant first, of the byte that holds it. */
  predicate BitIsSet(bitmap: Bytes, k: nat) {
    k / 8 < |bitmap| && bitmap[k / 8] as nat / Pow2(k % 8) % 2 == 1
  }

  /** The main device's fields of a space manager block as written. */
  predicate IsSpaceman(sm: Bytes, d: Device) {
    && HasU32(sm, 36, d.blocksPerChunk) && HasU32(sm, 40, d.chunksPerCib) && HasU64(sm, 48, d.blockCount)
    && HasU64(sm, 56, d.chunkCount) && HasU32(sm, 64, d.cibCount) && HasU32(sm, 68, d.cabCount)
    && HasU32(sm, 80, d.addrOffset)
  }

  lemma SpacemanReadsBack(sm: Bytes, d: Device)
    requires IsSpaceman(sm, d)
    ensures DeviceOf(sm) == d
  {
    hide LeU32, LeU64, HasU32, HasU64;
    FieldReadsBack(sm, 36, d.blocksPerChunk);
    FieldReadsBack(sm, 40, d.chunksPerCib);
    FieldReadsBack(sm, 48, d.blockCount);
    FieldReadsBack(sm, 56, d.chunkCount);
    FieldReadsBack(sm, 64, d.cibCount);
    FieldReadsBack(sm, 68, d.cabCount);
    FieldReadsBack(sm, 80, d.addrOffset);
  }

  /** A chunk's bitmap as stored: the space manager names the chunk-info block, which names the bitmap's block, or
      0 for a chunk that is all free. */
  ghost predicate BitmapStored(img: Image, sm: Bytes, d: Device, cib: nat, within: nat, bitmap: Option<Bytes>) {
    exists cibAddr, block, count, addr :: IsBitmapAt(img, sm, d, cib, within, bitmap, cibAddr, block, count, addr)
  }

  ghost predicate IsBitmapAt(img: Image, sm: Bytes, d: Device, cib: nat, within: nat, bitmap: Option<Bytes>,
                             cibAddr: nat, block: Bytes, count: nat, addr: nat) {
    && HasU64(sm, d.addrOffset + 8 * cib, cibAddr) && BlockAt(img, cibAddr, block) && ChecksumValid(block)
    && HasU32(block, 36, count) && within < count && HasU64(block, 40 + 32 * within + 24, addr)
    && match bitmap
       case None => addr == 0
       case Some(bits) => addr != 0 && BlockAt(img, addr, bits)
  }

  lemma BitmapReadsBack(img: Image, sm: Bytes, d: Device, cib: nat, within: nat, bitmap: Option<Bytes>)
    requires BitmapStored(img, sm, d, cib, within, bitmap)
    ensures ChunkBitmap(img, sm, d, cib, within) == Ok(if bitmap.Some? then bitmap.value else [])
  {
    hide LeU32, LeU64, HasU32, HasU64, ReadObjBlock, ReadRawBlock, BlockAt, ChecksumValid;
    var cibAddr, block, count, addr :| IsBitmapAt(img, sm, d, cib, within, bitmap, cibAddr, block, count, addr);
    FieldReadsBack(sm, d.addrOffset + 8 * cib, cibAddr);
    BlockIsRead(img, cibAddr, block);
    FieldReadsBack(block, 36, count);
    FieldReadsBack(block, 40 + 32 * within + 24, addr);
    if bitmap.Some? {
      BlockIsRead(img, addr, bitmap.value);
    }
  }

  /** A chunk its chunk-info block does not count is out of range. */
  lemma UncountedChunkIsRefused(img: Image, sm: Bytes, d: Device, cib: nat, within: nat, cibAddr: nat, block: Bytes,
                                count: nat)
    requires HasU64(sm, d.addrOffset + 8 * cib, cibAddr) && BlockAt(img, cibAddr, block) && ChecksumValid(block)
    requires HasU32(block, 36, count) && within >= count
    ensures ChunkBitmap(img, sm, d, cib, within) == Err(FieldOutOfRange)
  {
    hide LeU32, LeU64, HasU32, HasU64, ReadObjBlock, BlockAt, ChecksumValid;
    FieldReadsBack(sm, d.addrOffset + 8 * cib, cibAddr);
    BlockIsRead(img, cibAddr, block);
    FieldReadsBack(block, 36, count);
  }

  /** What the query refuses before it looks at any bitmap, and as what: a device without chunks, a block past the
      device, then the CAB tier, then a chunk or chunk-info block past their counts. */
  lemma RefusedQueries(img: Image, spaceman: nat, sm: Bytes, d: Device, block: nat)
    requires BlockAt(img, spaceman, sm) && ChecksumValid(sm) && IsSpaceman(sm, d)
    ensures d.blocksPerChunk == 0 || d.chunksPerCib == 0 || block >= d.blockCount ==>
              BlockFree(img, spaceman, block) == Err(FieldOutOfRange)
    ensures d.blocksPerChunk > 0 && d.chunksPerCib > 0 && block < d.blockCount && d.cabCount != 0 ==>
              BlockFree(img, spaceman, block) == Err(UnsupportedSpacemanCab(d.cabCount))
    ensures forall a :: IsAddress(d, block, a) && block < d.blockCount && d.cabCount == 0 &&
                        (a.cib * d.chunksPerCib + a.within >= d.chunkCount || a.cib >= d.cibCount) ==>
              BlockFree(img, spaceman, block) == Err(FieldOutOfRange)
  {
    hide ReadObjBlock, BlockAt, ChecksumValid, DeviceOf, IsSpaceman, ChunkBitmap, AddressOf, IsAddress;
    BlockIsRead(img, spaceman, sm);
    SpacemanReadsBack(sm, d);
    forall a | IsAddress(d, block, a) && block < d.blockCount && d.cabCount == 0 &&
               (a.cib * d.chunksPerCib + a.within >= d.chunkCount || a.cib >= d.cibCount)
      ensures BlockFree(img, spaceman, block) == Err(FieldOutOfRange)
    {
      AddressIsFound(d, block, a);
    }
  }

  /** Block number, chunk and bit fit together, without division. */
  predicate IsAddress(d: Device, block: nat, a: Address) {
    && a.bit < d.blocksPerChunk && a.within < d.chunksPerCib
    && block == (a.cib * d.chunksPerCib + a.within) * d.blocksPerChunk + a.bit
  }

  lemma AddressIsFound(d: Device, block: nat, a: Address)
    requires IsAddress(d, block, a)
    ensures AddressOf(d, block) == a && block / d.blocksPerChunk == a.cib * d.chunksPerCib + a.within
  {
    var chunk := a.cib * d.chunksPerCib + a.within;
    assert chunk * d.blocksPerChunk == d.blocksPerChunk * chunk;
    assert a.cib * d.chunksPerCib == d.chunksPerCib * a.cib;
    QuotientIs(block, d.blocksPerChunk, chunk, a.bit);
    QuotientIs(chunk, d.chunksPerCib, a.cib, a.within);
    DivMod(block, d.blocksPerChunk);
    DivMod(chunk, d.chunksPerCib);
  }

  /** On a device stored block by block, without a CAB tier, the query answers what the block's bit says. */
  lemma StoredBitIsAnswered(img: Image, spaceman: nat, sm: Bytes, d: Device, block: nat, a: Address,
                            bitmap: Option<Bytes>)
    requires BlockAt(img, spaceman, sm) && ChecksumValid(sm) && IsSpaceman(sm, d)
    requires d.cabCount == 0 && block < d.blockCount && IsAddress(d, block, a)
    requires a.cib * d.chunksPerCib + a.within < d.chunkCount && a.cib < d.cibCount
    requires BitmapStored(img, sm, d, a.cib, a.within, bitmap)
    ensures BlockFree(img, spaceman, block) == Ok(!(bitmap.Some? && BitIsSet(bitmap.value, a.bit)))
  {
    hide ReadObjBlock, BlockAt, ChecksumValid, DeviceOf, IsSpaceman, ChunkBitmap, BitmapStored, ByteBit, Pow2;
    hide AddressOf;
    BlockIsRead(img, spaceman, sm);
    SpacemanReadsBack(sm, d);
    AddressIsFound(d, block, a);
    BitmapReadsBack(img, sm, d, a.cib, a.within, bitmap);
    var bits := if bitmap.Some? then bitmap.value else [];
    if a.bit / 8 < |bits| {
      ByteBitIs(bits[a.bit / 8] as nat, a.bit % 8);
    }
  }
}
