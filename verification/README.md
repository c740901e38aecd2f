# Verified model of the APFS reader

A Dafny model of the navigation engine of an APFS file-system reader and of the arithmetic and framing it rests
on. The image is an unchanging byte sequence read a block at a time; everything a read returns is a function of it.

The model has two layers. In the first a block graph says what each address decodes to (a leaf, an index node, or
a failure) and may be cyclic or broken in any way. The recursive walks and the one-path descent are functions of
such a graph, and a tree is what a well-formed part of a graph unfolds to. In the second layer nodes are bytes:
decoding a checksummed block gives the graph of a physically stored tree (an address is a block number) or of a
virtual one (an address is an object id, resolved through the object map). The code that changes state is written
as methods and classes with loops, arrays and a shared visited set, each proved equal to its function; what the
source promises is proved about the functions.

What the main results say, hardest first:

- **One-path lookup against whole-tree scan.** The full walk succeeds exactly on trees of at most 64 levels, stated
  both on trees and, without them, on the paths of an arbitrary graph. The descent's cycle guard is exact, and what
  the descent visits is one contiguous run of the full walk. An object-map lookup is the floor over the whole tree
  when separators are exact minima; more precisely, when separators are only bounds, the lookup is right for every
  target if and only if each separator after a node's first is exact or belongs to another object than the mapping
  just before it.
- **Pruned walk against full walk.** The keyed walk agrees with the filtered full walk for every object if and only
  if the tree is ordered by object id. It reads every node that leads to a record of the target; the nodes it reads
  that lead to none lie on one path from the root and are at most as many as the tree is high.
- **Point-in-time reads.** Any run of later copy-on-write transactions leaves a mounted snapshot's walks, paths and
  file contents as they were.
- **What was stored is what is read.** Node, record, extended-field, extent and fork layouts each have an inverse
  proved, and these combine from the blocks up: on an image that holds a volume's object map and tree nodes block by
  block, with mapping, index, directory, inode, attribute and extent records as they are written, reading a path
  returns the file's content, plain or in any compressed form, and the same through a mounted snapshot's stored
  superblock. What is written is stated in bytes and literal offsets, not through the decoder.
- **Checksum algebra.** Validity in terms of the block's bytes alone, cancellation, injectivity, and the exact set of
  adjacent-word changes and swaps that Fletcher-64 misses; no single changed byte past the field is missed.
- **Failures are exact too.** Which addresses, object ids, blocks, payloads and queries are refused, and as what; a
  walk that fails is never taken for an absence.
- **Space manager, reaper, checkpoint ring.** Block addressing is one-to-one, the free query is non-membership in
  the allocated set, and its count is the summed popcount exactly when no bit past the device is set; the reap walk
  is the chain; the checkpoint chosen is
  unique and always parses again.

`dafny verify dfyconfig.toml` checks the whole project.

## Where the code and its own documentation differ

The model follows the code.

- `src/btree.rs:166-170` says a malformed node yields no entries. The code stops at the first table entry that
  leaves the table, skips an entry whose key or value leaves the node, and returns the others.
- `src/btree.rs:371-373` and `src/omap.rs:175-178` rest on separators being exact minima. `OmapLimits` proves the
  weaker condition that is exactly enough, and `OmapCounterexample` exhibits an image on which mere bounds are not.
- `src/dir.rs:165-166` describes a child's key range as half-open. The code keeps the upper boundary, as the rest
  of that comment requires.
- `src/dir.rs:62-67` says the hashed key form is told from the plain one by its structure. Only the length tells, so
  a plain name longer than 1024 bytes with its NUL is misread unless that length is a multiple of 1024.
- `src/dir.rs:197-199` says the visited set makes the depth cap unreachable. A chain of 65 nodes without any repeated
  address reaches it (`Walk.ChainFailsBeyondTheLimit`), so the exact success condition names both.
- `src/extent.rs:97-99` and `src/extent.rs:128` say an extent beyond the image is out of range. The code refuses
  only a byte offset that overflows; an extent beyond the image fails as a read error.
- An overflowing block address is skipped as an empty leaf by the physical walks (`src/btree.rs:291-301`) but
  saturates, and so fails to read, elsewhere (`src/spaceman.rs:42`, `src/dir.rs:211`).

## Model

| member | source | states |
|---|---|---|
| GraphPaths.FullWalkSucceedsIffPathsSound | src/btree.rs:392-449 | on an arbitrary block graph the full walk succeeds if and only if no block is reached by two paths, no path from the root has more than 64 nodes, and every reached block is readable with a valid checksum |
| Walk.FullWalkSucceedsExactlyOnTrees | src/btree.rs:392-449 | the same on trees: success if and only if the root unfolds to a tree of at most 64 levels with distinct addresses; then the visits are the leaves' entries left to right and the reads are every address once |
| Walk.WalkSucceedsExactlyOnTrees | src/dir.rs:179-266 | for any target a walk succeeds if and only if the part of the graph it descends is a tree of at most 64 levels with distinct addresses, whatever hangs below the children it skips; then its reads and visits are that part's |
| Walk.ChainFailsBeyondTheLimit | src/btree.rs:405-409 | a chain of nodes without any repeated address is walked if and only if it has at most 64 of them, and is otherwise a CycleGuard |
| Walk.ReadsAtMostOnce | src/btree.rs:410-415 | whatever the graph, and whether or not the walk succeeds or is pruned, no address is read twice nor one already in the visited set |
| Walk.WalkOnTree | src/dir.rs:179-266 | where the graph unfolds to a tree along the children a walk may descend, the walk succeeds and visits exactly the entries, and reads exactly the addresses, of those children |
| Walk.SuccessYieldsTree | src/dir.rs:179-266 | a walk that succeeds has unfolded, wherever it went, a tree whose descended addresses in preorder are its reads |
| Walk.SameGraphSameWalk | src/dir.rs:179-266 | a walk depends on nothing but what each address decodes to |
| Route.Leading | src/btree.rs:378-384 | the separators before the first one greater than the target, none of them greater |
| Route.CycleGuardIsExact | src/btree.rs:348-389 | the limited descent returns what the unguarded descent finds where it ends, and CycleGuard if and only if that does not end within the limit |
| Route.LoopingDescentNeverEnds | src/btree.rs:351-356 | a descent that returns to a node fails within any limit, so rejecting a revisit rejects nothing the depth limit would accept |
| Route.DescentVisitsARunOfTheWalk | src/btree.rs:335-390 | whenever the full walk succeeds, the descent succeeds for every comparator and its visits are one contiguous run of the full walk's |
| BTree.ReadVerifiedNode | src/btree.rs:293-317 | nothing is returned whose stored checksum differs from the computed one; an address whose offset overflows is a clean skip |
| BTree.LoadNode | src/btree.rs:417-441 | reading, verifying and decoding a block in steps gives the node the physical graph holds at that address |
| BTree.FullWalker.constructor | src/btree.rs:278 | a walk starts with an empty visited set and no visits |
| BTree.FullWalker.Descend | src/btree.rs:392-449 | the recursion over a shared visited set leaves exactly the result, visited set and visits of the full walk's function, also when it fails half way |
| BTree.FullWalker.DescendAll | src/btree.rs:432-448 | the same for the loop over an index node's children |
| BTree.ForEachLeafEntry | src/btree.rs:267-288 | the public entry point is the full walk from the root with nothing visited |
| BTree.ChooseChild | src/btree.rs:371-385 | the separator loop picks the last child whose separator, and all before it, are not greater than the target, or the first child |
| BTree.FindLeaf | src/btree.rs:335-390 | the loop with its visited set equals the descent limited to 64 nodes that remembers nothing |
| BTree.FindLeafGuardIsExact | src/btree.rs:348-389 | on any image the lookup reports CycleGuard if and only if the unguarded descent does not end within 64 nodes |
| BTreeNode.NodeEntries | src/btree.rs:174-250 | the decoder returns the entries of the table slots in order, stopping and skipping where the specification does |
| BTreeNode.CollectEntries | src/btree.rs:207-249 | the loop over the table, with its early stop and its skips, yields exactly the entries of the slots from the first on |
| BTreeNode.EntriesStayInsideTheBlock | src/btree.rs:207-249 | on arbitrary bytes every key and value is a slice of the block and the number of entries is bounded by the key count, its cap and the table's length |
| BTreeNode.EntriesAreTheGoodSlots | src/btree.rs:174-250 | on any bytes, the result is in order what those slots inside the table describe whose key and value lie in the block, and every such slot is among them; offsets, lengths, the footer and the sizes of fixed records are stated on the bytes |
| BTreeNode.KidsAreDigits | src/btree.rs:433-436 | a child is the number the first eight bytes of an index value write, or 0 if there are fewer |
| BTreeNode.PhysicalNodeFailsIff | src/btree.rs:290-317 | an address fails as an I/O error if and only if its block lies beyond the image, as a checksum mismatch if and only if the block is invalid, in no other way, and is skipped if its offset overflows |
| NodeLayout.NodeRoundTrip | src/btree.rs:174-250 | for every record list that fits, laid out with a table, forward keys and backward values, fixed or variable, root or not, decoding returns exactly that list |
| NodeLayout.StoredNodeReadsBack | src/btree.rs:293-317 | a laid-out node, sealed and stored in the image, is to every walk the leaf of its records, or the index node of the separators and child addresses they were written for |
| NodeLayout.KidsReadBack | src/btree.rs:433-436 | index records written with a separator and an eight-byte child address give back exactly those |
| NodeLayout.SealedNodeIsNode | src/snapshot.rs:536-578 | sealing changes only the header's checksum field, so the block is still a laid-out node with the same flags and level |
| NodeLayout.BlockDecodes | tests/btree_descend.rs:67-97 | the builder's block, whatever lies in the gap between keys and values, decodes to its records |
| Object.ValidIffSumsVanish | src/object.rs:85-113 | a block is valid if and only if carrying two sums over its little-endian words at offsets 8, 12, ... and then over the stored low and high word brings both to 0 modulo 2^32 - 1, neither stored word being 0 |
| Object.ChangedBytesAreCaught | src/object.rs:85-113 | changing eight aligned bytes past the checksum field of a valid block leaves it valid if and only if each of the two words is unchanged or went between 0 and 0xffffffff |
| Object.AnyByteIsCaught | src/object.rs:85-113 | changing any single byte past the checksum field, within the whole words, makes a valid block invalid |
| Object.Fletcher64Checksum | src/object.rs:85-113 | the loop's running sums are the plain and the position-weighted sum of the words modulo 2^32 - 1, folded into the two check words |
| Object.CheckWordsCancel | src/object.rs:110-112 | both check words are non-zero and fit 32 bits, and continuing the sums over them, low then high, brings both to zero |
| Object.FoldInjective | src/object.rs:110-112 | the checksum determines the final pair of running sums |
| Object.SameChecksumIffSameSums | src/object.rs:85-113 | two blocks have the same checksum if and only if both sums agree modulo 2^32 - 1 |
| Object.AdjacentChangeDetected | src/object.rs:85-113 | a change confined to two adjacent words is missed if and only if each of them is unchanged or went between 0 and 0xffffffff |
| Object.SwapDetected | src/object.rs:85-113 | swapping two words is missed if and only if distance times difference is 0 modulo 2^32 - 1 |
| Object.ChecksumFits | src/object.rs:112 | a checksum is never zero and fits 64 bits, so a block whose checksum field is zero, an all-zero one for instance, never passes |
| Object.SealedIsValid | src/snapshot.rs:517-521 | writing the checksum into the first 8 bytes makes the block pass the gate and changes nothing else; a block shorter than the field never passes |
| BlockReader.ReadExact | src/btree.rs:302-303 | a read succeeds if and only if the bytes lie in the image or none are asked for, returns exactly the image's bytes, and otherwise fails as an I/O error |
| BlockReader.BlockIsRead | src/spaceman.rs:36-55 | a block the image holds is read raw as it is, and as an object if and only if its checksum is valid |
| BlockReader.NoBlockIsRead | src/spaceman.rs:42-44 | an address that lies in no block of the image, overflowing ones included, fails as an I/O error |
| BlockReader.CorruptionIsCaught | src/spaceman.rs:36-55 | a copy of a valid block with eight aligned bytes past the checksum field changed is refused unless each of the two words is unchanged or went between 0 and 0xffffffff |
| BlockReader.ByteCorruptionIsCaught | src/spaceman.rs:36-55 | a copy of a valid block of whole words with any one byte past the checksum field changed is refused |
| BlockReader.ReadObjBlockInto | src/spaceman.rs:36-55 | reading into a buffer and comparing stored with computed checksum is reading a block whose checksum is valid |
| LittleEndian.ReadsInPlace | src/bytes.rs:11-36 | a 16, 32 or 64-bit read depends only on the bytes it covers, wherever they lie |
| LittleEndian.ReadsAreDigits | src/bytes.rs:11-36 | a 16, 32 or 64-bit read is the number its bytes write, least significant first, or 0 if it runs past the data |
| LittleEndian.FieldReadsBack | src/bytes.rs:20-36 | a number held at an offset in four or eight bytes is what a read there yields |
| LittleEndian.U16RoundTrip | src/bytes.rs:12-18 | reading what was written gives the 16-bit number back |
| LittleEndian.U32RoundTrip | src/bytes.rs:21-27 | reading what was written gives the 32-bit number back |
| LittleEndian.U64RoundTrip | src/bytes.rs:30-36 | reading what was written gives the 64-bit number back |
| Omap.Resolve | src/omap.rs:167-211 | the descent and the callback that keeps the newest match equal the lookup's function on the image's physical graph |
| Omap.MappingReadsBack | src/omap.rs:191-203 | a mapping record as written gives back its object, transaction, address, size and flags |
| Omap.ObjectMapParsesIff | src/omap.rs:84-116 | a block is an object map if and only if it has at least 56 bytes, type bytes 11 and 0 and a valid checksum; the type is refused before the checksum |
| Omap.ObjectMapReadsBack | src/omap.rs:118-124 | an object map header as written names its tree's root |
| Omap.ScanFindsFloor | src/omap.rs:190-208 | scanning any entries keeps the matching mapping with the largest transaction id, and nothing if and only if none matches |
| Omap.ResolveIsFloorOfFullWalk | src/omap.rs:167-211 | on an ordered tree with exact separators the lookup returns the mapping with the largest transaction id not beyond the requested one among all entries of the full walk, and OmapUnresolved if and only if there is none |
| Omap.ResolveScansAll | src/omap.rs:175-178 | scanning the single landing leaf gives what scanning every leaf would, already when separators are bounds that tell |
| Omap.LandingSplits | src/btree.rs:371-385 | everything left of the landing leaf is before the target and everything right of it beyond; if the landing leaf starts beyond the target, what precedes it belongs to another object |
| Omap.ExactSeparatorsTell | src/btree.rs:371-373 | exact minima on a sorted tree are bounds that tell |
| Omap.ResolveIsStable | src/omap.rs:190-210 | a lookup at transaction s gives the same answer on any two ordered trees, of any shapes, whose mappings up to s agree |
| OmapLimits.ResolveIsFloorIffSeparatorsTell | src/omap.rs:175-178 | with separators that are bounds, the lookup is right for every target if and only if each separator after a node's first is exact or belongs to another object than the mapping just before it |
| OmapLimits.MisledTarget | src/btree.rs:371-373 | a tree with a separator that does not tell has a target between a matching mapping and everything the descent sees |
| OmapLimits.MisledLookup | src/omap.rs:167-211 | on such a target the lookup reports OmapUnresolved although the scan finds a mapping |
| OmapCounterexample.LowerBoundsAreNotEnough | src/btree.rs:371-373 | an image of three sealed blocks, an index node and two leaves, sorted and with bounding separators, on which the lookup reports OmapUnresolved although the full walk of the same image visits a match |
| Dir.LoadVirtualNode | src/dir.rs:207-241 | resolving, reading, verifying and decoding in steps gives the node the virtual graph holds for that object id |
| Dir.VirtualNodeFailsIff | src/dir.rs:207-225 | an object id fails as its lookup does, as an I/O error if and only if its block lies beyond the image, as a checksum mismatch if and only if the block is invalid, and in no other way |
| Dir.VirtualWalker.constructor | src/dir.rs:150-151 | a virtual walk starts with an empty visited set and no visits |
| Dir.VirtualWalker.DescendVirtual | src/dir.rs:179-266 | the recursion over a shared visited set leaves exactly the result, visited set and visits of the pruned walk's function, also when it fails half way |
| Dir.VirtualWalker.DescendCovering | src/dir.rs:241-264 | the same for the loop that skips children whose key range cannot cover the target |
| Dir.WalkFsTree | src/dir.rs:132-163 | the entry point is that walk from the volume's root over the volume's object map, or the object map's own error |
| KeyedWalk.KeyedWalkAgreesIffOrdered | src/dir.rs:165-176 | where the full walk succeeds, the keyed walk succeeds and agrees with it for every object if and only if the tree is ordered by object id |
| KeyedWalk.KeyedWalkAgreesWithFullWalk | src/dir.rs:118-266 | on a tree ordered by object id both walks succeed, filtering both to the object gives the same records in the same order, and the keyed walk reads only addresses the full walk reads |
| KeyedWalk.PruningKeepsRecords | src/dir.rs:165-176 | pruning loses no record of the target and keeps their order |
| KeyedWalk.DisorderLosesARecord | src/dir.rs:165-176 | a tree not ordered by object id has an object whose keyed walk loses a record |
| KeyedWalk.PruningWasteIsBounded | src/dir.rs:98-107 | with separators whose object ids occur below them, every node whose subtree holds a record of the target is read; the nodes read whose subtree holds none number at most the tree's height and lie on one path from the root |
| KeyedWalk.HoldingNodesAreRead | src/dir.rs:174-176 | on a tree ordered by object id, a node whose subtree holds a record of the target is descended, wherever it is |
| KeyedWalk.ReadsAreDescended | src/dir.rs:241-264 | a walk's reads are the addresses of the nodes it descends, in order |
| KeyedWalk.WasteIsOneSpine | src/dir.rs:241-264 | the useless nodes that are read all lie on the path that always takes the first child descended, so no node has two of them as children; a subtree whose records start at the target has none |
| KeyedWalk.SpineIsAPath | src/dir.rs:241-264 | that path leads from the root down, each node a child of the one before |
| Snapshot.LookupReturnsPinned | src/snapshot.rs:156-164 | a lookup at transaction s returns exactly the mapping a snapshot at s pins for the object, and fails if and only if there is none |
| Snapshot.PinnedIsKept | src/snapshot.rs:156-164 | a later transaction neither adds to nor takes from the mappings pinned at s |
| Snapshot.LookupIsKept | src/snapshot.rs:156-164 | so a lookup at s is the same before and after it, whatever shape the object map's tree took |
| Snapshot.CommitKeepsSnapshotWalk | src/snapshot.rs:170-181 | one such transaction leaves the mounted snapshot's walk, full or keyed, exactly as it was, its failure included |
| Snapshot.SnapshotIsStable | src/snapshot.rs:152-181 | so does any run of them: the mounted snapshot is a point-in-time view |
| Snapshot.VolumeParsesIff | src/volume.rs:93-136 | a block is a volume superblock if and only if it has at least 960 bytes, type 13, the bytes APSB and a valid checksum; type and signature are refused before the checksum |
| Snapshot.VolumeReadsBack | src/volume.rs:141-156 | a superblock as written gives back its transaction, object map and root tree |
| PointInTime.PathsAreStable | src/snapshot.rs:156-181 | after any run of later transactions every path in the snapshot resolves to the same inode record or fails in the same way |
| PointInTime.SameWalksSamePath | src/dir.rs:366-385 | path resolution depends on a volume only through its keyed walks and transaction id |
| PointInTime.SameWalksSameData | src/extent.rs:156-169 | a file's data depends on a volume only through its keyed walks and its extents' blocks, for ordinary and compressed files |
| PointInTime.FilesAreStable | src/snapshot.rs:156-181 | if those transactions leave the snapshot's data blocks alone, every path in it reads the same bytes, or fails in the same way, for any codec behaviour |
| Navigation.LookupChild | src/dir.rs:301-328 | the callback finds the first directory record of that parent and name the keyed walk visits |
| Navigation.FindChild | src/dir.rs:308-326 | once something is found later records change nothing |
| Navigation.LoadInode | src/dir.rs:335-356 | the first inode record of that object, or OmapUnresolved with the volume's transaction if there is none |
| Navigation.OpenPath | src/dir.rs:366-385 | the loop over path components equals the recursive resolution from the root directory, empty components skipped |
| Navigation.StepsAgree | src/dir.rs:109-112 | a child lookup, an inode load and an extent listing give the same over the pruned walk as over the whole tree |
| Navigation.KeyedNavigationIsExact | src/dir.rs:366-385 | resolving any path by keyed walks gives exactly what scanning the whole tree at every step would, errors included |
| Navigation.StoredContentIsRead | src/extent.rs:100-141 | content cut into extents and holes whose records lie anywhere in the tree, among any others, is what the keyed stream read returns |
| Extent.ListExtents | src/extent.rs:65-88 | the stream's extents in stable order of logical offset, or the walk's error |
| Extent.CollectExtents | src/extent.rs:71-85 | the pushes collect exactly the stream's extent records in visiting order |
| Extent.ReadStream | src/extent.rs:100-141 | filling a zeroed buffer in place equals filling a value extent by extent, and stops at the first extent that cannot be read |
| Extent.CopyInto | src/extent.rs:119-139 | one extent changes only the buffer bytes it covers below the logical size; a hole changes none |
| Extent.SortIsStable | src/extent.rs:86 | the sort orders by offset, permutes, and keeps extents of equal offset in their order |
| Extent.AssembleIsPointwise | src/extent.rs:115-140 | success if and only if every extent reaching into the file is readable; then byte i is the image byte of the last non-hole extent in sorted order covering i, or zero, and there are exactly the logical size of them |
| Extent.FirstFailureIsReported | src/extent.rs:128-138 | assembly fails at the first extent that cannot be read, as out of range if and only if its byte offset overflows and otherwise as an I/O error |
| Extent.LargeStreamIsRefused | src/extent.rs:107-114 | a stream of more than 16 GiB is refused whatever its records say |
| Extent.OrderDoesNotMatter | src/extent.rs:119-139 | when extents are disjoint, neither the order of the records nor repetition changes whether assembly succeeds or what it returns when it does |
| Extent.CutContentReadsBack | src/extent.rs:100-141 | any content cut into extents and holes in any way reads back |
| FileData.ParseInode | src/inode.rs:108-141 | the loop over the extended fields takes the logical size from the last data-stream field, if there is one |
| FileData.SizeAgreesWithData | src/extent.rs:156-194 | whenever a file's data can be read its reported size is the length read, for ordinary and compressed files and any codec behaviour |
| StoredTree.StoredTreeUnfolds | src/btree.rs:392-449 | where every node of a tree is stored sealed at its address, the image's physical graph unfolds to that tree |
| StoredTree.StoredTreeIsWalked | src/btree.rs:267-288 | walking a stored tree with distinct blocks and at most 64 levels visits its leaves' records in order and reads each block once |
| StoredTree.MappingIsResolved | src/omap.rs:152-159 | on a stored, ordered object map a lookup returns the newest mapping of the object up to the transaction exactly as it was written |
| StoredTree.StoredVirtualTreeUnfolds | src/dir.rs:207-241 | where every node of a tree is stored at the block its object id's newest mapping names, the virtual graph unfolds to that tree |
| StoredTree.StoredOmapParses | src/omap.rs:84-124 | a valid object map header stored at the volume's address gives the tree root it names |
| StoredTree.StoredVolumeIsNavigated | src/dir.rs:132-163 | on a volume stored block by block the unpruned walk visits the records of the fs-tree stored, in order |
| StoredTree.StoredSnapshotIsMounted | src/snapshot.rs:170-181 | mounting a stored superblock gives its transaction and root tree with the live volume's object map |
| Records.KeyWordDecodes | src/fsrecord.rs:76-81 | a key word built from a type and an object id decodes to them, whatever follows |
| Records.HashedNameReadsBack | src/dir.rs:68-75 | a hashed directory key holds the name it was built from |
| Records.PlainNameReadsBackIff | src/dir.rs:68-84 | an unhashed directory key gives back its name if and only if the stored length is at most 1024 or a multiple of it |
| Records.DirRecordReadsBack | src/dir.rs:88-96 | a directory record as written is an entry of its parent under its name and leads to its child |
| Records.InodeReadsBack | src/inode.rs:108-141 | an inode record with its extended-field blob gives back its stream id and the size its last data-stream field declares |
| Records.InodeWithoutSizeReadsBack | src/inode.rs:108-141 | an inode record without a data-stream field has no size |
| Records.ExtentRecordReadsBack | src/extent.rs:72-85 | an extent record as written, whatever its flag bits and trailing bytes, gives back its offset, length and block |
| Records.XattrRecordReadsBack | src/xattr.rs:80-107 | an attribute record as written gives back its object, name and value, embedded or a stream reference |
| Payload.HeaderReadsBack | src/compression.rs:80-90 | a compression header as written gives back its type, declared size and inline payload |
| StoredFile.XattrIsFound | src/xattr.rs:116-148 | an attribute lookup over the keyed walk finds what a scan of every record would |
| StoredFile.StreamIsRead | src/extent.rs:100-141 | a stream whose records are written among any others, in any order, reads back as the content they cut up |
| StoredFile.AttrIsRead | src/xattr.rs:172-225 | an attribute's value reads back whether it is embedded in its record or spilled to a stream |
| StoredFile.StoredPathIsOpened | src/dir.rs:366-385 | a path whose directory records are stored opens to the inode record stored at its end |
| StoredFile.MissingPathIsUnresolved | src/dir.rs:372-383 | a path with a component that has no directory record is OmapUnresolved at the directory it was missed in |
| StoredFile.MissingInodeIsUnresolved | src/dir.rs:351-354 | a path that leads to an object without an inode record is OmapUnresolved at that object |
| StoredFile.FailedWalksAreReported | src/dir.rs:301-356 | a failed walk is the error of the child lookup, inode load, attribute, stream, data and size queries, never an absence |
| StoredFile.LargeHeaderIsRefused | src/xattr.rs:180-188 | a compression header spilled to a stream of more than 1 MiB is refused by both the data and the size query |
| StoredFile.StoredFileIsRead | src/extent.rs:156-169 | on a volume stored block by block, reading an uncompressed file by its path returns the content its extents store, nothing if it declares no size, and its reported size is the content's |
| StoredFile.StoredCompressedFileIsRead | src/compression.rs:46-66 | the same for a compressed file whose header and resource fork, embedded or spilled to streams, hold the content raw or coded inline, in chunks, or in zlib blocks |
| StoredFile.StoredSnapshotFileIsRead | src/snapshot.rs:152-181 | through a snapshot mounted from its stored superblock, reading an uncompressed file by its path returns the content its extents store |
| Compression.DecodeChunkedResourceFork | src/compression.rs:234-279 | the loop that advances through the end-offset table equals the recursion over its slots, every refusal included |
| Compression.DecodeZlibResourceFork | src/compression.rs:198-230 | the loop over the block table equals the recursion over its blocks, every refusal included |
| Compression.DecompressedLength | src/compression.rs:132-137 | for any codec behaviour, success is a decode of exactly the declared size |
| ForkLayout.ChunkedForkRoundTrip | src/compression.rs:234-279 | for any content and any codec that inverts the encoder on each 65536-byte chunk, the laid-out fork decodes to the content whatever its unused slots hold |
| ForkLayout.ForkIsLaid | tests/compression.rs:164-177 | the builder's table entry and data for every chunk lie where the decoder looks |
| ForkLayout.CompressedFileRoundTrip | src/compression.rs:102-138 | the same for the whole payload: header, type dispatch, fork and length gate |
| ForkLayout.RawInlineRoundTrip | src/compression.rs:147-171 | content stored raw inline, for each type that allows it and with its marker, reads back whatever the codecs do |
| Payload.PackedIsDecoded | src/compression.rs:102-186 | for each compression type of the format, given by its number, content packed raw or coded inline, in chunks or in zlib blocks is decoded to that content by any codecs that invert the encoders |
| Payload.CodedInlineSucceedsIff | src/compression.rs:147-171 | an inline coded payload decodes if and only if its codec decodes it to the declared size, and is refused otherwise |
| Payload.OthersAreRefused | src/compression.rs:80-137 | a short header, another magic, an unknown type, a fork type without a fork and a chunked fork too short for its header are refused whatever the codecs do |
| ZlibForkLayout.ZlibForkRoundTrip | src/compression.rs:198-230 | any split of the content into blocks whose encoding inflate inverts is decoded to the content |
| ZlibForkLayout.ZlibForkDecodesIff | src/compression.rs:198-230 | any fork at all decodes to given bytes if and only if it has a table, every block of the table lies in the fork and inflates, and the bytes are those blocks end to end |
| XFields.ParseXFields | src/fsrecord.rs:103-148 | the walk equals the recursion over the descriptors, none of them read if the table does not fit |
| XFields.CollectFields | src/fsrecord.rs:123-147 | the loop that advances the value offset stops at the first value that leaves the data |
| XFields.ParsedFieldsAreSlices | src/fsrecord.rs:103-148 | on arbitrary bytes the result is the longest prefix of the described fields, at most 4096, that fits, value i being the slice of its size at 4 + 4n + the earlier sizes, each taken up to the least multiple of 8 |
| XFields.RoundedUpIsAMultiple | src/fsrecord.rs:140-145 | a size is taken up to a multiple of 8, less than 8 above it |
| XFields.OffsetsGrow | src/fsrecord.rs:140-145 | values are in order and never overlap |
| XFields.XFieldRoundTrip | src/fsrecord.rs:96-148 | encoding any field list, padding each value to a multiple of 8, and walking it returns the list |
| Spaceman.IsBlockFree | src/spaceman.rs:77-152 | the query is the function on the verified space manager block |
| Spaceman.QueryDevice | src/spaceman.rs:99-151 | the early returns and the two-step lookup equal the specification, the error of each inconsistent field included |
| Spaceman.AddressRecoversBlock | src/spaceman.rs:111-116 | the position within a chunk-info block and the bit are in range, and the block is recovered from its address |
| Spaceman.AddressOneToOne | src/spaceman.rs:111-147 | no two blocks share a chunk-info block, chunk and bit |
| Spaceman.AddressExists | src/spaceman.rs:111-119 | on a well-formed device every block's chunk and chunk-info block exist and its bitmap can be read |
| Spaceman.QueryAnswersMembership | src/spaceman.rs:77-152 | on a well-formed device the query answers free if and only if the block is not in the allocated set, and is an error for every block past the device |
| Spaceman.StoredBitIsAnswered | src/spaceman.rs:83-151 | on a space manager, chunk-info block and bitmap as written, the query answers the complement of the block's bit, least significant first; a chunk without a bitmap is free |
| Spaceman.RefusedQueries | src/spaceman.rs:99-119 | what is refused before any bitmap is read and as what: no chunks, a block past the device, then the CAB tier, then a chunk or chunk-info block past its count |
| Spaceman.UncountedChunkIsRefused | src/spaceman.rs:125-132 | a chunk past the count of its chunk-info block is out of range |
| Spaceman.PopcountCounts | src/spaceman.rs:147-151 | a bitmap's popcount is the number of its set bits, least significant first |
| Spaceman.QueryCountsPopcount | src/spaceman.rs:60-66 | on every well-formed device the blocks reported as not free never outnumber the summed popcount of the chunk bitmaps, chunks without one counting zero, and equal it if and only if no bit past the device's last block is set |
| Checkpoint.ResolveLiveCheckpoint | src/checkpoint.rs:62-161 | provided the ring's addresses fit 64 bits, the result is the first ring block of highest transaction among the readable, well-typed, checksum-valid superblocks, with the mappings of that transaction; NoValidSuperblock if and only if there is none |
| Checkpoint.ScanSuperblocks | src/checkpoint.rs:91-118 | the scan ends on the first block of highest transaction, with the number of readable blocks and the last superblock-typed magic |
| Checkpoint.CollectMappings | src/checkpoint.rs:127-154 | the second pass is the ring-order concatenation of the valid map blocks of exactly that transaction |
| Checkpoint.ReadMappings | src/checkpoint.rs:144-153 | one map block's mappings in order, at most 4096 |
| Checkpoint.MappingsReadBack | src/checkpoint.rs:144-153 | a map block gives back the mappings it was written with |
| Checkpoint.CandidateIff | src/checkpoint.rs:101-114 | a candidate is a block of type 1 with the bytes NXSB and a valid checksum |
| Checkpoint.MapBlockIff | src/checkpoint.rs:135-143 | a map of a transaction is a block of type 12 with that transaction at byte 16 and a valid checksum |
| Checkpoint.RingBlockIff | src/checkpoint.rs:166-181 | a ring block is what the image holds at its address, or a miss |
| Checkpoint.LastMagicIsReported | src/checkpoint.rs:107-125 | the magic reported is that of the last superblock-typed ring block |
| Checkpoint.SuperblockReadsBack | src/container.rs:137-181 | a container superblock as written gives back its transaction, block size and descriptor area |
| Checkpoint.SuperblockParsesIff | src/container.rs:105-135 | a block parses if and only if it carries NXSB and a valid checksum, the signature being refused first and reported |
| Checkpoint.LiveCheckpointIsUnique | src/checkpoint.rs:57-61 | nothing else satisfies what the scan must return |
| Checkpoint.ReopenParses | src/lib.rs:209-218 | re-reading the chosen superblock always succeeds and parses with the transaction the scan saw |
| Reaper.PendingObjects | src/reaper.rs:26-94 | the loop with its seen set equals the guarded recursion along the chain, every error included |
| Reaper.ReadList | src/reaper.rs:71-79 | the first mapping of the list's object id decides which block is read and verified |
| Reaper.CollectEntries | src/reaper.rs:80-90 | the non-zero entries among as many as the list names and a block can hold, in order |
| Reaper.ChainIsDistinct | src/reaper.rs:63-70 | a chain that reaches 0 passes no list twice, so the seen set rejects nothing the limit would accept |
| Reaper.FollowIsTheChain | src/reaper.rs:61-93 | the walk succeeds if and only if the chain reaches 0 through at most 4096 mapped, valid lists, and returns their entries in chain order |
| Reaper.BrokenChainIsReported | src/reaper.rs:65-79 | past lists it could read, the walk fails as a cycle if the next is one of them or they are already 4096, as unresolved if the next is not mapped, and otherwise as its block does |
| Reaper.PendingIsTheChain | src/reaper.rs:49-93 | the whole query succeeds if and only if the reaper block is valid and its chain is, and returns the object in progress followed by the chain's entries |
| Reaper.ReapListReadsBack | src/reaper.rs:80-91 | a reap list as written gives back the next list and its entries that name an object |
| Reaper.StoredChainIsPending | src/reaper.rs:49-93 | on a stored reaper and a stored chain of at most 4096 lists the query returns the object in progress and then every list's named entries in order |

## Left out

- The reader beyond "read n bytes at an offset or fail": no partial reads, interrupts or a source that changes.
- Visit callbacks run as the walk goes; the model collects the visited entries in order and folds over them, which
  is the same because no callback stops a walk or reads the image.
- The zlib, LZVN and LZFSE codecs are foreign libraries: partial functions with arbitrary behaviour, assumed to
  invert an encoder only where a round trip says so.
- Lossy UTF-8 decoding of names: names are bytes up to the first NUL, so two invalid names that decode to the same
  replacement characters are told apart here.
- The library's stable sort is an insertion sort on a sequence, so the in-place exchange of elements is not captured.
- Error payloads that only serve the message text (block, stored and computed checksums, caps, field names) and
  capacity hints.
- A usize is 64 bits wide.
- Checkpoint.ResolveLiveCheckpoint: requires that `desc_base + i` fits 64 bits; where it does not, the source panics
  or wraps depending on how it is built.
- Spaceman.QueryAnswersMembership: the CAB tier is refused by the source, so a well-formed device has none.
- Snapshot.SnapshotIsStable: says nothing of transactions that drop pinned mappings, as deleting the snapshot would.
- StoredFile.StoredFileIsRead: the first record that matches a name, inode or attribute is the one stored; earlier
  matches would hide it, as they do in the source.
- Extent.OrderDoesNotMatter: which error a failing assembly reports can depend on the order.
- FileData.SizeAgreesWithData: inode fields other than the object id, stream id and size play no part in it.
- Listing snapshots and resolving a snapshot name (`src/snapshot.rs:107-150`, `src/snapshot.rs:224-330`): the walk
  mirrors the virtual walk but mixes a block number into its set of object ids.
- Directory listing, attribute listing and symlink targets (`src/dir.rs:275`, `src/xattr.rs:233`): filters over the
  keyed walk whose agreement follows as for the clients modelled here.
- Superblock, volume and inode fields that navigation does not use, timestamps, and tree-backed checkpoint areas
  and Fusion containers, which the source refuses.
- Encryption, sealed volumes and the virtual file-system adapter (`src/encryption.rs`, `src/sealed.rs`,
  `src/vfs.rs`).
