/** src/checkpoint.rs: choosing the live superblock from the checkpoint descriptor ring. */
module Checkpoint {
  import opened Prelude
  import opened LittleEndian
  import opened Object
  import opened BlockReader

  const TYPE_NX_SUPERBLOCK: nat := 0x1
  const TYPE_CHECKPOINT_MAP: nat := 0xc
  const NX_MAGIC: nat := 0x4253_584e
  const MIN_BLOCK_SIZE: nat := 4096
  const MAX_BLOCK_SIZE: nat := 65536
  const MAX_MAPPINGS: nat := 4096

  datatype Mapping = Mapping(oid: nat, paddr: nat, objType: nat, subtype: nat)

  /** The fields of the bootstrap superblock the scan uses. */
  datatype Superblock = Superblock(xid: nat, blockSize: nat, descBase: nat, descBlocks: nat, descIsTree: bool)

  datatype LiveCheckpoint = LiveCheckpoint(superblockPaddr: nat, xid: nat, mappings: seq<Mapping>)

  /** src/container.rs `NxSuperblock::parse`: magic, then checksum, then the fields. */
  function ParseSuperblock(block: Bytes): Result<Superblock> {
    if |block| < 36 then Err(NoValidSuperblock(1, 0))
    else if LeU32(block, 32) != NX_MAGIC then Err(NoValidSuperblock(1, LeU32(block, 32)))
    else if !ChecksumValid(block) then Err(ChecksumMismatch)
    else
      var blocks := LeU32(block, 104);
      Ok(Superblock(LeU64(block, 16), LeU32(block, 36), LeU64(block, 112), blocks % 0x8000_0000,
                    blocks >= 0x8000_0000))
  }

  /** `read_block`: a block past the end of the source is a miss, not an error. */
  function RingBlock(img: Image, paddr: nat): Option<Bytes> {
    match CheckedMul(paddr, img.blockSize)
    case None => None
    case Some(off) =>
      match ReadExact(img, off, img.blockSize)
      case Err(_) => None
      case Ok(block) => Some(block)
  }

  function Xid(block: Bytes): nat {
    LeU64(block, 16)
  }

  predicate IsSuperblockTyped(block: Option<Bytes>) {
    block.Some? && ObjectType(block.value) == TYPE_NX_SUPERBLOCK
  }

  /** A readable superblock with the right magic and a valid checksum. */
  predicate IsCandidate(block: Option<Bytes>) {
    IsSuperblockTyped(block) && LeU32(block.value, 32) == NX_MAGIC && ChecksumValid(block.value)
  }

  predicate IsMapOf(block: Option<Bytes>, xid: nat) {
    block.Some? && ObjectType(block.value) == TYPE_CHECKPOINT_MAP && Xid(block.value) == xid
    && ChecksumValid(block.value)
  }

  function MappingAt(block: Bytes, m: nat): Mapping {
    var off := 40 + m * 40;
    Mapping(LeU64(block, off + 24), LeU64(block, off + 32), LeU32(block, off), LeU32(block, off + 4))
  }

  function MappingsOf(block: Bytes): (ms: seq<Mapping>)
    ensures |ms| == Min(LeU32(block, 36), MAX_MAPPINGS)
  {
    seq(Min(LeU32(block, 36), MAX_MAPPINGS), m requires 0 <= m => MappingAt(block, m))
  }

  /** The ring-order concatenation of the mappings of the first n blocks' valid maps of this transaction. */
  function RingMappings(img: Image, base: nat, n: nat, xid: nat): seq<Mapping> {
    if n == 0 then []
    else
      var block := RingBlock(img, base + n - 1);
      RingMappings(img, base, n - 1, xid) + if IsMapOf(block, xid) then MappingsOf(block.value) else []
  }

  /** How many of the first n ring blocks are readable, and the magic of the last superblock-typed one. */
  function Readable(img: Image, base: nat, n: nat): nat {
    if n == 0 then 0 else Readable(img, base, n - 1) + if RingBlock(img, base + n - 1).Some? then 1 else 0
  }

  function LastMagic(img: Image, base: nat, n: nat): nat {
    if n == 0 then 0
    else
      var block := RingBlock(img, base + n - 1);
      if IsSuperblockTyped(block) then LeU32(block.value, 32) else LastMagic(img, base, n - 1)
  }

  /** paddr is the first of the n ring blocks whose transaction is the highest among the candidates. */
  ghost predicate IsLive(img: Image, base: nat, n: nat, paddr: nat) {
    && base <= paddr < base + n && IsCandidate(RingBlock(img, paddr))
    && (forall p: nat :: base <= p < base + n && IsCandidate(RingBlock(img, p)) ==>
          Xid(RingBlock(img, p).value) <= Xid(RingBlock(img, paddr).value))
    && (forall p: nat :: base <= p < paddr && IsCandidate(RingBlock(img, p)) ==>
          Xid(RingBlock(img, p).value) < Xid(RingBlock(img, paddr).value))
  }

  ghost predicate NoCandidate(img: Image, base: nat, n: nat) {
    forall p: nat :: base <= p < base + n ==> !IsCandidate(RingBlock(img, p))
  }

  /** What the scan must return: the first candidate of highest transaction and the mappings of that
      transaction, or NoValidSuperblock exactly when there is no candidate. */
  ghost predicate IsLiveCheckpoint(img: Image, base: nat, n: nat, r: Result<LiveCheckpoint>) {
    match r
    case Ok(live) =>
      && IsLive(img, base, n, live.superblockPaddr)
      && live.xid == Xid(RingBlock(img, live.superblockPaddr).value)
      && live.mappings == RingMappings(img, base, n, live.xid)
    case Err(e) =>
      NoCandidate(img, base, n) && e == NoValidSuperblock(Readable(img, base, n), LastMagic(img, base, n))
  }

  /** The scan runs: a contiguous descriptor area and a block size within the format's range. */
  predicate Scans(bootstrap: Superblock) {
    !bootstrap.descIsTree && 4096 <= bootstrap.blockSize <= 65536
  }

  /** `resolve_live_checkpoint`. The addresses it scans, `desc_base + i`, must fit 64 bits. */
  method ResolveLiveCheckpoint(disk: Bytes, bootstrap: Superblock) returns (r: Result<LiveCheckpoint>)
    requires Scans(bootstrap) ==> bootstrap.descBase + bootstrap.descBlocks <= U64_SIZE
    ensures bootstrap.descIsTree ==> r == Err(CheckpointTreeUnsupported)
    ensures !bootstrap.descIsTree && !Scans(bootstrap) ==> r == Err(FieldOutOfRange)
    ensures Scans(bootstrap) ==>
              IsLiveCheckpoint(Image(disk, bootstrap.blockSize), bootstrap.descBase, bootstrap.descBlocks, r)
  {
    if bootstrap.descIsTree {
      return Err(CheckpointTreeUnsupported);
    }
    if !(MIN_BLOCK_SIZE <= bootstrap.blockSize <= MAX_BLOCK_SIZE) {
      return Err(FieldOutOfRange);
    }
    var img := Image(disk, bootstrap.blockSize);
    var best, checked, lastMagic := ScanSuperblocks(img, bootstrap.descBase, bootstrap.descBlocks);
    match best
    case None =>
      return Err(NoValidSuperblock(checked, lastMagic));
    case Some(paddr) =>
      var xid := Xid(RingBlock(img, paddr).value);
      var mappings := CollectMappings(img, bootstrap.descBase, bootstrap.descBlocks, xid);
      return Ok(LiveCheckpoint(paddr, xid, mappings));
  }

  /** The first pass. */
  method ScanSuperblocks(img: Image, base: nat, n: nat)
    returns (best: Option<nat>, checked: nat, lastMagic: nat)
    ensures match best case Some(paddr) => IsLive(img, base, n, paddr) case None => NoCandidate(img, base, n)
    ensures checked == Readable(img, base, n) && lastMagic == LastMagic(img, base, n)
  {
    hide RingBlock, LeU32, LeU64, ChecksumValid, ObjectType;
    best, checked, lastMagic := None, 0, 0;
    var bestXid := 0;
    for i := 0 to n
      invariant match best case Some(paddr) => IsLive(img, base, i, paddr) case None => NoCandidate(img, base, i)
      invariant best.Some? ==> bestXid == Xid(RingBlock(img, best.value).value)
      invariant checked == Readable(img, base, i) && lastMagic == LastMagic(img, base, i)
    {
      var paddr := base + i;
      var block := RingBlock(img, paddr);
      if block == None {
        continue;
      }
      checked := checked + 1;
      if !IsSuperblockTyped(block) {
        continue;
      }
      var magic := LeU32(block.value, 32);
      lastMagic := magic;
      if magic != NX_MAGIC {
        continue;
      }
      if !ChecksumValid(block.value) {
        continue;
      }
      var xid := Xid(block.value);
      if best == None || xid > bestXid {
        best, bestXid := Some(paddr), xid;
      }
    }
  }

  /** The second pass. */
  method CollectMappings(img: Image, base: nat, n: nat, xid: nat) returns (mappings: seq<Mapping>)
    ensures mappings == RingMappings(img, base, n, xid)
  {
    hide RingBlock, MappingAt, MappingsOf, ChecksumValid, ObjectType, LeU64;
    mappings := [];
    for i := 0 to n
      invariant mappings == RingMappings(img, base, i, xid)
    {
      var block := RingBlock(img, base + i);
      if !IsMapOf(block, xid) {
        continue;
      }
      var read := ReadMappings(block.value);
      mappings := mappings + read;
    }
  }

  method ReadMappings(block: Bytes) returns (ms: seq<Mapping>)
    ensures ms == MappingsOf(block)
  {
    hide MappingAt;
    var count := Min(LeU32(block, 36), MAX_MAPPINGS);
    ms := [];
    for m := 0 to count
      invariant ms == MappingsOf(block)[..m]
    {
      ms := ms + [MappingAt(block, m)];
    }
  }

  /** Two results that satisfy the same specification are the same. */
  lemma LiveCheckpointIsUnique(img: Image, base: nat, n: nat, r: Result<LiveCheckpoint>, r': Result<LiveCheckpoint>)
    requires IsLiveCheckpoint(img, base, n, r) && IsLiveCheckpoint(img, base, n, r')
    ensures r == r'
  {
    hide RingMappings, RingBlock, Readable, LastMagic, LeU32, LeU64, ChecksumValid, ObjectType;
  }

  /** src/lib.rs `open`: re-reading the chosen superblock always parses, with the transaction the scan saw. */
  lemma ReopenParses(img: Image, base: nat, n: nat, paddr: nat)
    requires 4096 <= img.blockSize && IsLive(img, base, n, paddr)
    ensures ReadRawBlock(img, paddr) == Ok(RingBlock(img, paddr).value)
    ensures var again := ParseSuperblock(ReadRawBlock(img, paddr).value);
            again.Ok? && again.value.xid == Xid(RingBlock(img, paddr).value)
  {
  }

  // ---- superblocks and map blocks as written ----

  /** A superblock by its bytes: type 1, "NXSB". */
  predicate IsNxTyped(block: Bytes) {
    && |block| >= 36 && block[24] == 0x1 && block[25] == 0
    && block[32] == 0x4e && block[33] == 0x58 && block[34] == 0x53 && block[35] == 0x42
  }

  /** A ring block is what the image holds there, or a miss. */
  lemma RingBlockIff(img: Image, paddr: nat)
    requires img.blockSize > 0
    ensures forall block :: RingBlock(img, paddr) == Some(block) <==> BlockAt(img, paddr, block)
  {
  }

  lemma CandidateIff(block: Bytes)
    ensures IsCandidate(Some(block)) <==> IsNxTyped(block) && ChecksumValid(block)
  {
    hide ChecksumValid, LeU32, ObjectType;
    ObjectTypeIs(block);
    FourBytesAre(block, 32);
  }

  /** The magic reported is the one the last superblock-typed ring block carries, or 0 if there is none. */
  lemma {:induction false} LastMagicIsReported(img: Image, base: nat, n: nat, k: nat, block: Bytes)
    requires k < n && BlockAt(img, base + k, block) && |block| >= 36 && block[24] == 0x1 && block[25] == 0
    requires forall p: nat :: base + k < p < base + n ==> !IsSuperblockTyped(RingBlock(img, p))
    ensures LastMagic(img, base, n) == Digits(block[32..36])
    decreases n
  {
    hide LeU32, Digits, RingBlock, ObjectType;
    if k == n - 1 {
      RingBlockIff(img, base + k);
      ObjectTypeIs(block);
      ReadsAreDigits(block, 32);
    } else {
      LastMagicIsReported(img, base, n - 1, k, block);
    }
  }

  lemma {:induction false} NoMagicIsReported(img: Image, base: nat, n: nat)
    requires forall p: nat :: base <= p < base + n ==> !IsSuperblockTyped(RingBlock(img, p))
    ensures LastMagic(img, base, n) == 0
  {
    hide RingBlock, LeU32, ObjectType;
    if n > 0 {
      NoMagicIsReported(img, base, n - 1);
    }
  }

  /** A map block of a transaction by its bytes: type 12 and the transaction at byte 16. */
  lemma MapBlockIff(block: Bytes, xid: nat)
    requires |block| >= 28
    ensures IsMapOf(Some(block), xid) <==>
              block[24] == 0xc && block[25] == 0 && Digits(block[16..24]) == xid && ChecksumValid(block)
  {
    hide ChecksumValid, LeU32, LeU64, ObjectType, Digits;
    ObjectTypeIs(block);
    ReadsAreDigits(block, 16);
  }

  /** Mapping m of a map block as written. */
  predicate HasMapping(block: Bytes, m: nat, mapping: Mapping) {
    && HasU32(block, 40 + 40 * m, mapping.objType) && HasU32(block, 40 + 40 * m + 4, mapping.subtype)
    && HasU64(block, 40 + 40 * m + 24, mapping.oid) && HasU64(block, 40 + 40 * m + 32, mapping.paddr)
  }

  /** A map block gives back the mappings it was written with, at most 4096 of them. */
  lemma MappingsReadBack(block: Bytes, count: nat, ms: seq<Mapping>)
    requires HasU32(block, 36, count) && |ms| == Min(count, 4096)
    requires forall m :: 0 <= m < |ms| ==> HasMapping(block, m, ms[m])
    ensures MappingsOf(block) == ms
  {
    hide LeU32, LeU64, HasU32, HasU64;
    FieldReadsBack(block, 36, count);
    forall m | 0 <= m < |ms| ensures MappingsOf(block)[m] == ms[m] {
      assert HasMapping(block, m, ms[m]);
      FieldReadsBack(block, 40 + 40 * m, ms[m].objType);
      FieldReadsBack(block, 40 + 40 * m + 4, ms[m].subtype);
      FieldReadsBack(block, 40 + 40 * m + 24, ms[m].oid);
      FieldReadsBack(block, 40 + 40 * m + 32, ms[m].paddr);
    }
  }

  /** A container superblock as written; the top bit of the block count says the area is a tree. */
  predicate IsSuperblock(block: Bytes, sb: Superblock) {
    && IsNxTyped(block) && sb.descBlocks < 0x8000_0000
    && HasU64(block, 16, sb.xid) && HasU32(block, 36, sb.blockSize) && HasU64(block, 112, sb.descBase)
    && HasU32(block, 104, sb.descBlocks + if sb.descIsTree then 0x8000_0000 else 0)
  }

  lemma SuperblockReadsBack(block: Bytes, sb: Superblock)
    requires ChecksumValid(block) && IsSuperblock(block, sb)
    ensures ParseSuperblock(block) == Ok(sb)
  {
    hide ChecksumValid, LeU32, LeU64, HasU32, HasU64;
    FourBytesAre(block, 32);
    FieldReadsBack(block, 16, sb.xid);
    FieldReadsBack(block, 36, sb.blockSize);
    FieldReadsBack(block, 112, sb.descBase);
    FieldReadsBack(block, 104, sb.descBlocks + if sb.descIsTree then 0x8000_0000 else 0);
  }

  /** What is a container superblock: the signature first, then the checksum; the type is not looked at. */
  lemma SuperblockParsesIff(block: Bytes)
    ensures var signed := |block| >= 36 && block[32..36] == [0x4e, 0x58, 0x53, 0x42];
            && (ParseSuperblock(block).Ok? <==> signed && ChecksumValid(block))
            && (signed && !ChecksumValid(block) ==> ParseSuperblock(block) == Err(ChecksumMismatch))
            && (!signed ==> ParseSuperblock(block)
                            == Err(NoValidSuperblock(1, if |block| < 36 then 0 else Digits(block[32..36]))))
  {
    hide ChecksumValid, LeU32, LeU64, Digits;
    FourBytesAre(block, 32);
    ReadsAreDigits(block, 32);
  }
}
