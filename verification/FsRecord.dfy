/** src/fsrecord.rs: record keys (`j_key_t`) and extended fields. */
module FsRecord {
  import opened Prelude
  import opened LittleEndian

  datatype RecordType =
    | SnapMetadata | Extent | Inode | Xattr | SiblingLink | DstreamId | CryptoState
    | FileExtent | DirRec | DirStats | SnapName | SiblingMap | FileInfo

  const OBJ_ID_SIZE := 0x1000_0000_0000_0000

  function FromU4(value: nat): Option<RecordType> {
    match value
    case 1 => Some(SnapMetadata)
    case 2 => Some(Extent)
    case 3 => Some(Inode)
    case 4 => Some(Xattr)
    case 5 => Some(SiblingLink)
    case 6 => Some(DstreamId)
    case 7 => Some(CryptoState)
    case 8 => Some(FileExtent)
    case 9 => Some(DirRec)
    case 10 => Some(DirStats)
    case 11 => Some(SnapName)
    case 12 => Some(SiblingMap)
    case 13 => Some(FileInfo)
    case _ => None
  }

  /** Low 60 bits: object id. Top 4 bits: record type. */
  function DecodeJkey(word: nat): (nat, Option<RecordType>) {
    (word % OBJ_ID_SIZE, FromU4(word / OBJ_ID_SIZE % 16))
  }

  function KeyOid(key: Bytes): nat {
    DecodeJkey(LeU64(key, 0)).0
  }

  function KeyType(key: Bytes): Option<RecordType> {
    DecodeJkey(LeU64(key, 0)).1
  }
}
