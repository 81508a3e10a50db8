# A verified model of the CS4348 disk simulator

The simulator keeps a 256-block disk of 512-byte blocks in memory. Block 0
holds the file allocation table (FAT). Block 1 holds the bitmap: byte `b`
of block 1 is 1 when block `b` is in use. Blocks 2 to 255 hold file data.
A disk is built for one of three allocation kinds:

- **chained** files are spread over randomly drawn blocks, and the last
  byte of each block links to the next one;
- **indexed** files are spread over randomly drawn blocks listed in a
  randomly drawn index block;
- **contiguous** files occupy the first run of free blocks that is long
  enough.

This project models the disk itself (`Disk.java`), the file records
(`FileRecord.java`), the disk operations (`DiskInterfaceUtils.java`) and
the constructor and copy dispatch of `DiskInterface.java`. Everything is
modelled as pure functions over immutable values. A Java runtime failure
(an index out of range, a null record, taking from an empty list) becomes
an `Err(Fault)`, and the state reached before it is discarded.

Modules, in dependency order:

| file | module | what it holds |
|---|---|---|
| common.dfy | Common | bytes, `Result`, zero stripping, cutting content into pieces |
| block_store.dfy | BlockStore | `Disk`, `read`, `write` with its bitmap side effect, and the `Agree` frame relation |
| geometry.dfy | Geometry | the constants, the constructor's record sizing, copyToDisk's block count |
| records.dfy | Records | `FileRecord`: its constructors, `equals` and `compareTo` |
| names.dfy | Names | `trim`, `equalsIgnoreCase`, `compareTo` on strings, and decimal text |
| free_space.dfy | FreeSpace | isBlockEmpty, getNumFreeBlocks, getRandomBlock, getNextContigSpace, clearBlock, updateBitmap |
| fat.dfy | Fat | the slot layout, getFAT, getFileRecord, isValidFile, getFileRecordIndex, writeFileToFAT, sortFAT |
| allocation.dfy | Allocation | the random byte loop shared by the chained and indexed writers, and whole-block reads |
| chained.dfy | ChainedFiles | writeChained and the chained read |
| indexed.dfy | IndexedFiles | writeIndexed and the indexed read |
| contiguous.dfy | ContiguousFiles | writeContiguous and the contiguous read |
| files.dfy | FileOperations | getFileBytesFromDisk, deleteFile, and copyToDisk's dispatch and sort |
| roundtrip.dfy | RoundTrips | write-then-read round trips, and the lengths the block count cuts short |

How some parts of the source are modelled:

- **Bytes.** Java bytes are signed, but every test in the source is
  `!= 0` or masks with `& 0xFF`. So bytes are modelled as the integers
  0..255. A `(byte)` cast of an int is `ToByte`, which keeps the low
  eight bits.
- **Randomness.** `getRandomBlock` samples `Math.random()` until it hits a
  free block. The model replaces the sampling with an oracle
  `draws: nat -> nat`: the k-th call of one write uses `draws(k)` to pick
  from the free data blocks. `RandomBlock` is proved sound: it always
  gives a free data block. It is also proved complete: every free data
  block is some draw's answer.
- **Names.** File names are byte strings, one byte per character. `trim`
  removes characters at or below the space character, and
  `equalsIgnoreCase` folds ASCII letters.

Behaviour of the source that the model keeps as written and proves:

- The block count of a copy is `length / payload`, rounded down. A
  chained file of 512 to 1021 bytes therefore gets a record of one block.
  When its first 511 bytes are not all zero and at least two blocks are
  free, reading it back gives those 511 bytes followed by the link byte
  (`ChainedFloorTruncates`). Without those conditions the source does not
  get that far. An all-zero first piece leaves its block empty, so the
  second draw can pick the same block again. With a single free block the
  check for one block passes, and the second draw answers -1, on which
  `disk.write` throws. A contiguous file of 513 to 1023 bytes, written
  where a free run of two blocks exists, reads back as its first 512
  bytes, without trailing zeros (`ContiguousFloorTruncates`). An indexed
  file of 5121 to 5631 bytes is counted as ten blocks, so the copy
  accepts it. writeIndexed stores and lists all eleven pieces, but the
  read takes only the first ten entries of the index block, and the last
  piece is lost (`IndexedFloorTruncates`).
- In writeIndexed, the index block is flagged but stays empty. The next
  draw can therefore return the same block. The first data piece then
  lands in the index block, and the list entry overwrites its first byte
  (`IndexBlockCanBeDrawnAgain`).
- `getNextContigSpace(0)`, asked for an empty file, answers the first
  free block `f` when block `f + 1` is free too, and `f + 2` otherwise
  (`NextContigSpace`).
- sortFAT breaks a tie between equal names by comparing the block numbers
  as decimal text, so "10" sorts before "9" (`DecimalOrderIsTextual`).
- getFileRecordIndex does not trim the name it is given. A name with a
  blank character at either end is found by getFileRecord but gets index
  -1, and the delete then fails (`IndexAgreesWithRecord`).
- A piece of content that is all zero leaves its block empty.
  getRandomBlock judges a block free by its content, not by the bitmap,
  so a later draw can pick that block again. The random round trips therefore
  require every piece but the last to hold a nonzero byte
  (`NonzeroPieces`). The indexed read takes at most
  ten entries from the index block, so the indexed round trip requires at
  most ten pieces.

## Model

| member | source | states |
|---|---|---|
| BlockStore.New | Disk.java:23-37 | a new disk has the requested numbers of blocks and bytes, and every byte is zero |
| BlockStore.Write | Disk.java:63-71 | a write keeps the disk's number of blocks and block size (what it stores is stated by `WriteEffect` and `ReadAfterWrite`) |
| BlockStore.ReadAfterWrite | Disk.java:49-71 | after `write(block, location, value)`, `read` gives `value` at that position (unless it is offset 1 of block 1), gives 1 at the block's flag when the block now holds a nonzero byte and the old flag otherwise, and gives the old byte everywhere else |
| BlockStore.ScanEmptyMeansAllZero | Disk.java:65-70 | the scan in `write` finds a nonzero byte exactly when the rest of the block holds one |
| BlockStore.WriteEffect | Disk.java:63-71 | `write` stores the byte and changes no other byte except the block's bitmap flag; the flag becomes 1 when the block now holds a nonzero byte and is untouched when the block is all zero |
| BlockStore.FlagOverridesStore | Disk.java:63-71 | a byte stored at offset 1 of block 1 reads back as 1 when block 1 holds other data, because that byte is also block 1's own flag |
| BlockStore.WriteAtFlagOfBlockOne | Disk.java:63-71 | the byte read back at offset 1 of block 1 is the stored value only when block 1 is otherwise zero, and 1 otherwise |
| BlockStore.WriteRunContent | Disk.java:63-64 | a run of `write` calls at consecutive offsets splices the bytes into the block and keeps the block's other bytes |
| BlockStore.WriteRunFlags | Disk.java:65-70 | a run of writes to a data block sets that block's flag when the block ends up nonzero and leaves every other flag alone |
| BlockStore.WriteRun | Disk.java:63-71 | a run of writes into one block keeps the geometry and changes no other block except the bitmap |
| BlockStore.WriteAgrees | Disk.java:63-71 | a write to a data block changes no other block except bitmap flags |
| Geometry.Construct | DiskInterface.java:41-62 | construction fails exactly when the block size is below the number of blocks; otherwise the record size is 10 (chained, contiguous) or 9 (indexed), the records fit in a block, and the disk is zeroed |
| Geometry.DefaultConstruction | DiskInterface.java:16-20 | the 256 x 512 geometry passes the check, giving 51 records of 10 bytes or 56 of 9 |
| Geometry.MaxRecordsIsFloor | DiskInterface.java:48-58 | maxRecords is the largest number of whole records that fit in 512 bytes |
| Geometry.RequiredBlocks | DiskInterface.java:547 | the block count is 0 for empty content and otherwise the length divided by the payload (511 chained, 512 otherwise), rounded down |
| Geometry.RequiredBlocksUndercounts | DiskInterface.java:547 | the count covers the content exactly when the length is a multiple of the payload; otherwise it is one block short |
| Geometry.RequiredBlocksOfMultiple | DiskInterface.java:547 | a length of exactly m payloads needs exactly m blocks |
| RoundTrips.OneRequiredBlock | DiskInterface.java:547 | a length strictly between one and two payloads is counted as one block |
| Records.EmptyRecord | FileRecord.java:14-18 | the default record has an empty name, block -1 and length 0 |
| Records.ChainedRecord | FileRecord.java:33-37 | the getters give back the name, start block and length |
| Records.IndexedRecord | FileRecord.java:49-53 | the getters give back the name and index block, and the length is 0 |
| Records.CopyRecord | FileRecord.java:62-66 | the copy has the same name, block and length, equals the original and compares as 0 |
| Records.Equals | FileRecord.java:88-101 | two records are equal exactly when their names are |
| Records.CompareTo | FileRecord.java:125-128 | compareTo is 0 exactly when the names are equal |
| Records.CompareToOrdersByName | FileRecord.java:125-128 | compareTo is antisymmetric and transitive, and is negative exactly when the first name precedes the second lexicographically |
| Records.EqualsIgnoresBlocks | FileRecord.java:88-101 | records with one name but different blocks or lengths, chained or indexed, are equal |
| Common.ToByte | DiskInterfaceUtils.java:180 | the `(byte)` cast keeps a value below 256 and otherwise gives the value modulo 256 |
| Common.Chunks | DiskInterfaceUtils.java:162-173 | the byte loop's pieces concatenate back to the content; none is empty, each holds at most one payload, every piece but the last is full, and there is a piece exactly when the content is nonempty |
| Common.StripTrailingZeros | DiskInterfaceUtils.java:486-490 | the result is a prefix of the input that does not end in a zero byte, and everything removed is zero |
| Names.Trim | DiskInterfaceUtils.java:40 | the trimmed name is no longer than the original, starts and ends with non-blank characters, and is empty exactly when the name is all blank |
| Names.TrimIsInfix | DiskInterfaceUtils.java:40 | the trimmed name is a contiguous slice of the original |
| Names.TrimBetween | DiskInterfaceUtils.java:40 | trim keeps exactly the slice between the first and the last non-blank character |
| Names.TrimIdempotent | DiskInterfaceUtils.java:106 | trimming a trimmed name changes nothing |
| Names.TrimIgnoresBlankSuffix | DiskInterfaceUtils.java:80 | blank characters appended to a name, like the zero padding of the 8-byte name buffer, vanish under trim |
| Names.EqualsIgnoreCase | DiskInterfaceUtils.java:106 | two names match exactly when they have the same length and agree character by character after ASCII case folding |
| Names.Fold | DiskInterfaceUtils.java:106 | a folded character is never an upper-case ASCII letter, and a character that folding changes becomes its own lower-case form |
| Names.FoldIdempotent | DiskInterfaceUtils.java:106 | folding a folded character changes nothing |
| Names.FoldAlike | DiskInterfaceUtils.java:106 | two characters fold alike exactly when they are equal or are the upper- and lower-case forms of one ASCII letter |
| Names.EqualsIgnoreCaseIsEquivalence | DiskInterfaceUtils.java:106 | the case-insensitive match is reflexive, symmetric and transitive |
| Names.BlankEndNeverMatchesTrimmed | DiskInterfaceUtils.java:128 | a name with a blank first or last character never matches a trimmed table name |
| Names.Compare | DiskInterfaceUtils.java:676 | the string comparison is 0 exactly when the strings are equal |
| Names.CompareIsLexicographic | DiskInterfaceUtils.java:676 | the comparison is negative exactly when the first string precedes the second lexicographically |
| Names.CompareAntisymmetric | DiskInterfaceUtils.java:676 | swapping the arguments negates the comparison |
| Names.CompareTransitive | DiskInterfaceUtils.java:672-681 | the comparison is transitive, as the sort needs |
| Names.Decimal | DiskInterfaceUtils.java:664 | Integer.toString of a block number is a nonempty string of digits with no leading zero |
| Names.ParseDecimalInvertsDecimal | DiskInterfaceUtils.java:664-698 | parsing the decimal text of a number gives the number back |
| Names.DecimalOrderIsTextual | DiskInterfaceUtils.java:678 | block numbers compared as text are not in numeric order: "10" sorts before "9" and "100" before "20" |
| FreeSpace.IsBlockEmpty | DiskInterfaceUtils.java:389-393 | a block is empty exactly when every one of its bytes is zero |
| FreeSpace.FreeFrom | DiskInterfaceUtils.java:330-336 | the listed blocks are exactly the free ones from block `i` on, in increasing order |
| FreeSpace.CountFree | DiskInterfaceUtils.java:332-334 | the counting loop from block `i` counts the free blocks from `i` on |
| FreeSpace.NumFreeBlocks | DiskInterfaceUtils.java:330-336 | getNumFreeBlocks counts the free blocks among 2..255, at most 254 |
| FreeSpace.CountFreeIsCardinality | DiskInterfaceUtils.java:332-334 | the counting loop from block `i` gives the size of the set of free blocks from `i` on |
| FreeSpace.NumFreeIsCardinality | DiskInterfaceUtils.java:330-336 | getNumFreeBlocks is the size of the set of free data blocks |
| FreeSpace.AgreeKeepsFree | DiskInterfaceUtils.java:330-336 | disks with the same data blocks have the same free blocks and free count, whatever their bitmaps say |
| FreeSpace.StoreLosesAtMostOneFree | DiskInterfaceUtils.java:330-336 | a change to one block lowers the free count by at most one |
| FreeSpace.RandomBlock | DiskInterfaceUtils.java:343-352 | the answer is -1 exactly when no data block is free, and otherwise a free data block |
| FreeSpace.RandomBlockAtIndex | DiskInterfaceUtils.java:343-352 | a draw below the number of free blocks picks the free block at that position |
| FreeSpace.RandomBlockReachesEveryFreeBlock | DiskInterfaceUtils.java:343-352 | every free data block is the answer for some draw |
| FreeSpace.RunEnding | DiskInterfaceUtils.java:369-372 | the counter measures the run of free blocks ending at the block scanned, and the block before that run is used |
| FreeSpace.RunEndingIsMaximal | DiskInterfaceUtils.java:369-372 | the counter is at least the length of every free run ending at the block scanned |
| FreeSpace.FirstRun | DiskInterfaceUtils.java:366-377 | the reference answer is the lowest block from `s` that starts a run of `w` free blocks, or -1 when there is none |
| FreeSpace.FirstEmpty | DiskInterfaceUtils.java:366-377 | the reference answer is the lowest free block from `i` before the last block, or -1 when there is none |
| FreeSpace.ContigScanZero | DiskInterfaceUtils.java:368-376 | for needed <= 0, the scan answers the first free block f when block f + 1 is free, and f + 2 otherwise |
| FreeSpace.ContigScanFindsFirstRun | DiskInterfaceUtils.java:368-376 | the scan from iteration `i` answers the lowest start of a free run of max(needed, 2) blocks, or -1 when there is none |
| FreeSpace.NextContigSpace | DiskInterfaceUtils.java:366-377 | the answer is -1 or a block from 2 to 256; for needed >= 1 it is the lowest start of a run of max(needed, 2) free blocks, or -1 when there is none; for needed <= 0 it is the first free block f when block f + 1 is free and f + 2 otherwise |
| FreeSpace.ClearBlock | DiskInterfaceUtils.java:615-619 | clearing a data block zeroes it and changes no other block except flags; whatever block it is given, every block but the bitmap either keeps its bytes or becomes zero |
| FreeSpace.MarkFrom | DiskInterfaceUtils.java:712-719 | the flag loop from block `i` sets each flag from its block's content, keeps the earlier flags, and counts a block exactly when some block from `i` on holds data |
| FreeSpace.SetReservedFlags | DiskInterfaceUtils.java:721-728 | the closing writes set block 0's flag and block 1's own flag, and the latter reads 1 whenever block 1 holds data |
| FreeSpace.UpdateBitmap | DiskInterfaceUtils.java:710-729 | after updateBitmap each data block's flag says whether it holds data; the flags of blocks 0 and 1 say whether any data block is used, block 1's flag also reads 1 when block 1's spare bytes are nonzero, and no other block changes |
| FreeSpace.UpdateBitmapConsistent | DiskInterfaceUtils.java:710-729 | with block 1's spare bytes zero, the rebuilt bitmap agrees with the disk content |
| FreeSpace.UpdateBitmapDependsOnlyOnData | DiskInterfaceUtils.java:710-729 | the rebuild ignores the old flags: disks with the same data blocks rebuild to the same disk |
| FreeSpace.UpdateBitmapIdempotent | DiskInterfaceUtils.java:710-729 | rebuilding twice is the same as rebuilding once |
| Fat.SlotFits | DiskInterfaceUtils.java:64-68 | every slot below maxRecords, byte 9 included, lies inside block 0 |
| Fat.UntilZero | DiskInterfaceUtils.java:74-78 | the name loop keeps the bytes before the first zero |
| Fat.NameField | DiskInterfaceUtils.java:73-78 | the 8-byte name buffer: each nonzero byte is the raw byte at its place, a zero in the raw name is zero in the buffer, a zero in the buffer has a raw zero at or before it, and zeros only pad the end |
| Fat.StoredNameIsItsField | DiskInterfaceUtils.java:73-78 | a name stored as 8 bytes with only zeros after its end reads back as itself |
| Fat.GetFAT | DiskInterfaceUtils.java:51-86 | the count is at most maxRecords + 1, because the counting loop also reads the partial slot at the end of block 0; the table holds no more records than the count, and each record has a stored-form name and a block and length between 0 and 255 |
| Fat.ScanWithinCount | DiskInterfaceUtils.java:57-83 | from any slot on, the table loop builds no more records than the counting loop counts |
| Fat.CountBound | DiskInterfaceUtils.java:57-58 | the counting loop from slot `i` on counts at most maxRecords + 1 - `i` slots |
| Fat.ScanShape | DiskInterfaceUtils.java:71-81 | every record getFAT builds has an 8-byte name that starts with a nonzero byte, is not all blank and is zero after its end, and a block and length between 0 and 255 |
| Fat.ScanLayout | DiskInterfaceUtils.java:64-83 | getFAT's scan of a packed table of valid entries gives exactly their records, in slot order |
| Fat.CountLayout | DiskInterfaceUtils.java:57-58 | getFAT's count over a packed table is the number of entries |
| Fat.GetFATOfLayout | DiskInterfaceUtils.java:51-86 | on a packed table, getFAT returns the number of entries and their records |
| Fat.RebuiltAgrees | DiskInterfaceUtils.java:306-321 | a table update followed by updateBitmap changes no data block |
| Fat.WriteFileToFAT | DiskInterfaceUtils.java:306-321 | the write fails with a bad address exactly when getFAT already counts maxRecords records or the name runs past block 0; otherwise it stores the record in the slot after the counted ones and rebuilds the bitmap |
| Fat.WriteFileToFATAppends | DiskInterfaceUtils.java:306-321 | on a packed table, writeFileToFAT appends the new entry, and fails exactly when the table is full |
| Fat.StoredRecordOnLayout | DiskInterfaceUtils.java:306-321 | storing a record in the slot after a packed table gives the packed table with the new entry appended |
| Fat.FindAppended | DiskInterfaceUtils.java:105-110 | when no record of the table matches the new name, the lookup finds the appended record |
| Fat.LookupAfterAppend | DiskInterfaceUtils.java:99-113 | after a new name is appended to a table that did not hold it, getFileRecord finds it, with the block and length cast to a byte |
| RoundTrips.AppendAfterStores | DiskInterfaceUtils.java:306-321 | data stores that leave block 0 alone do not disturb the append: getFileRecord then finds the new record with its block and length |
| Fat.LiveSlots | DiskInterfaceUtils.java:630-631 | sortFAT counts at most maxRecords used slots |
| Fat.LastLive | DiskInterfaceUtils.java:639 | the search answers the last used slot from `i` on, or the index it started with when none is used |
| Fat.MoveSlotContent | DiskInterfaceUtils.java:641-645 | the move loop copies the slot's bytes to the top and zeroes them behind |
| Fat.MovedSlotMovesToTop | DiskInterfaceUtils.java:641-645 | moving slot `index` puts its bytes at the top of block 0, zeroes its old place when it was not already the top slot, and keeps every other byte past the first slot |
| Fat.RowCompareIsOrder | DiskInterfaceUtils.java:672-681 | the row comparator is antisymmetric and transitive |
| Fat.Insert | DiskInterfaceUtils.java:672-681 | inserting a row adds exactly that row |
| Fat.InsertSorted | DiskInterfaceUtils.java:672-681 | inserting into sorted rows keeps them sorted |
| Fat.SortRows | DiskInterfaceUtils.java:672-681 | the sorted rows are a permutation of the collected rows |
| Fat.SortRowsSorted | DiskInterfaceUtils.java:672-681 | the sorted rows are in comparator order |
| Fat.CollectRows | DiskInterfaceUtils.java:651-668 | the rows collected number at most the used slots |
| Fat.CollectRowsSized | DiskInterfaceUtils.java:656-661 | every collected row holds an 8-byte name |
| Fat.CollectStopsAtBlank | DiskInterfaceUtils.java:651-668 | fewer rows than used slots are collected exactly when some used slot has a blank name |
| Fat.CollectZeroed | DiskInterfaceUtils.java:651-668 | on a packed table with one slot zeroed, the rows collected are the other entries in slot order, and the used slots are as many |
| Fat.RowBytesAreSlotBytes | DiskInterfaceUtils.java:692-698 | writing a row back through decimal text gives exactly the slot's bytes |
| Fat.WriteRowsPacks | DiskInterfaceUtils.java:688-699 | writing the rows into slots 0, 1, ... of a cleared block packs them |
| Fat.SortFAT | DiskInterfaceUtils.java:626-704 | sortFAT fails exactly when two or more slots are used and fewer rows are collected; otherwise it rewrites block 0 and rebuilds the bitmap |
| Fat.SortMany | DiskInterfaceUtils.java:648-703 | the branch for none or several used slots fails exactly when fewer rows are collected than slots are used; otherwise it writes the sorted rows into block 0 and rebuilds the bitmap |
| Fat.SortFATFailsOnBlankName | DiskInterfaceUtils.java:633-668 | sortFAT fails exactly when two or more slots are used and one has a blank name; the unfilled row is dereferenced |
| Fat.SortFATOrdersTable | DiskInterfaceUtils.java:648-703 | with none or several used slots, sortFAT packs a sorted permutation of the collected rows into block 0 and changes no data block |
| Fat.SortFATMovesSingleToTop | DiskInterfaceUtils.java:636-646 | with exactly one used slot, sortFAT goes through, that slot's bytes end up at the top of block 0, its old place is zeroed when it was not the top slot, every other byte of block 0 stays, and no data block changes |
| Fat.FirstMatch | DiskInterfaceUtils.java:105-110 | the position found is the first record whose trimmed name matches, ignoring case |
| Fat.FindRecord | DiskInterfaceUtils.java:105-110 | a record is found exactly when some record matches, and the record found matches |
| Fat.GetFileRecord | DiskInterfaceUtils.java:99-113 | a record found is one of the rescanned table's and its trimmed name matches the trimmed name ignoring case; nothing is found exactly when no record of the table matches |
| Fat.ValidFrom | DiskInterfaceUtils.java:39-41 | the loop answers true exactly when some record from position i on matches the trimmed name, ignoring case |
| Fat.IsValidFile | DiskInterfaceUtils.java:37-42 | isValidFile holds exactly when some record of the rescanned table matches the name |
| Fat.IsValidFileIffRecordFound | DiskInterfaceUtils.java:37-42 | isValidFile holds exactly when getFileRecord finds a record |
| Fat.IndexFrom | DiskInterfaceUtils.java:125-131 | the index is that of the first record whose trimmed name matches the untrimmed name, or -1 |
| Fat.GetFileRecordIndex | DiskInterfaceUtils.java:125-131 | the answer is -1 or the position of a record whose trimmed name matches the untrimmed name ignoring case, and no record before it (none at all for -1) matches |
| Fat.IndexAgreesWithRecord | DiskInterfaceUtils.java:125-131 | for a name without blank ends, the index is the position of the record getFileRecord finds; for a name with a blank end, it is -1 |
| Fat.IndexIsFirstMatch | DiskInterfaceUtils.java:125-131 | for a name without blank ends, both lookups find the same position |
| Allocation.PlaceRandom | DiskInterfaceUtils.java:162-173 | a successful run of the random byte loop lists one data block per remaining piece, starting with the block it was given; a failure is the bad address of a -1 draw |
| Allocation.FlagDrawn | DiskInterfaceUtils.java:152-159 | the drawn first block is a data block, and flagging it in the bitmap keeps it free and keeps the free count |
| Allocation.PlaceContent | DiskInterfaceUtils.java:162-173 | a successful byte loop lists data blocks starting with the first block drawn |
| Allocation.PlaceRandomSucceeds | DiskInterfaceUtils.java:162-173 | with as many free blocks as pieces left, every draw finds a free block |
| Allocation.PlaceRandomFrame | DiskInterfaceUtils.java:222-233 | the loop stores only into the blocks it lists, each free before it was drawn |
| Allocation.PlaceRandomContent | DiskInterfaceUtils.java:222-233 | when each piece but the last holds data, no block is drawn twice and each listed block holds its piece, padded with zeros |
| Allocation.PlaceOnFree | DiskInterfaceUtils.java:150-173 | with enough free blocks and nonzero pieces, the loop succeeds, lists one distinct block per piece, and changes no other block |
| Allocation.ReadBlocksOfHeld | DiskInterfaceUtils.java:447-460 | reading in order the blocks that hold the pieces gives the content followed by the last block's padding |
| Allocation.ReadAllHeld | DiskInterfaceUtils.java:447-460 | reading every block that holds a piece of the content gives the content followed by the last block's padding |
| ChainedFiles.LinkTurnEffect | DiskInterfaceUtils.java:178-182 | one turn of the link loop writes the next block's number into the last byte of the previous block and changes nothing else |
| ChainedFiles.LinkFrame | DiskInterfaceUtils.java:178-182 | the link loop stores only into the listed blocks |
| ChainedFiles.LinkAt | DiskInterfaceUtils.java:178-182 | after the link loop, each listed block holds its piece and, except for the last, the number of the next block |
| ChainedFiles.LinkMakesChain | DiskInterfaceUtils.java:162-182 | the byte loop then the link loop leave the chain of the pieces on the listed blocks |
| ChainedFiles.StoreChained | DiskInterfaceUtils.java:150-182 | a failed first draw fails with a bad address, and every failure is a bad address; a success lists one data block per piece (at least one), starting with the first draw |
| ChainedFiles.ReadChain | DiskInterfaceUtils.java:413-433 | the chained read gives 511 bytes per block before the last and 512 for the last |
| ChainedFiles.ReadChainOfLinked | DiskInterfaceUtils.java:419-431 | following a chain from position `k` gives the remaining pieces and the last block's padding |
| ChainedFiles.WriteChained | DiskInterfaceUtils.java:148-187 | with fewer free blocks than the block count, writeChained changes nothing |
| ChainedFiles.StoreChainedOnFree | DiskInterfaceUtils.java:150-182 | with enough free blocks and nonzero pieces, the stores leave the chain on distinct blocks starting at the first draw, and change no other block |
| ChainedFiles.WriteChainedOf | DiskInterfaceUtils.java:150-186 | once the count check passes and the stores succeed, writeChained records the start block and the block count |
| IndexedFiles.IndexTurnEffect | DiskInterfaceUtils.java:236-240 | one turn of the index loop stores one entry into the index block and changes nothing else |
| IndexedFiles.IndexLoop | DiskInterfaceUtils.java:236-240 | the index loop changes no block except the index block and the bitmap |
| IndexedFiles.IndexLoopBlock | DiskInterfaceUtils.java:236-240 | after `n` turns the index block starts with the first `n` block numbers and keeps its other bytes |
| IndexedFiles.Entries | DiskInterfaceUtils.java:238 | each index entry is its block number cast to a byte, so a list of data blocks is stored unchanged and holds no zero entry |
| IndexedFiles.ListFacts | DiskInterfaceUtils.java:236-240 | after the byte loop, the index loop writes the data blocks' numbers at the head of the index block and changes no block but the index block and the data blocks; when the index block is not a data block, the data blocks keep their pieces |
| IndexedFiles.ListBlocks | DiskInterfaceUtils.java:236-240 | the index loop fails, with a bad address, exactly when more blocks are listed than the index block has bytes; otherwise it keeps the index block and the list and changes no block but the index block and the bitmap |
| IndexedFiles.StoreIndexed | DiskInterfaceUtils.java:206-240 | when the stores succeed, the index block is a data block and at least one data block is listed |
| IndexedFiles.WriteIndexed | DiskInterfaceUtils.java:204-244 | with fewer free blocks than the block count, writeIndexed changes nothing |
| IndexedFiles.IndexList | DiskInterfaceUtils.java:439-444 | the read takes at most ten entries from the index block, stopping at a zero |
| IndexedFiles.IndexListOfEntries | DiskInterfaceUtils.java:439-444 | an index block written for at most ten data blocks, with zeros after them, lists exactly those blocks |
| IndexedFiles.IndexListOfLongEntries | DiskInterfaceUtils.java:439-444 | an index block that starts with ten or more data-block entries lists only the first ten |
| IndexedFiles.ReadIndexed | DiskInterfaceUtils.java:434-462 | the indexed read fails exactly when the list is empty, and otherwise reads each listed block whole |
| IndexedFiles.StoreIndexedOnFree | DiskInterfaceUtils.java:206-240 | with enough free blocks and nonzero pieces, the stores succeed; the index block is the first draw and lists the data blocks; when it is not itself a data block, each data block holds its piece and the index block is zero past the list |
| IndexedFiles.IndexBlockCanBeDrawnAgain | DiskInterfaceUtils.java:210-217 | the second draw can pick the index block again; the first data block is then the index block, and its first byte holds its own number |
| IndexedFiles.WriteIndexedOf | DiskInterfaceUtils.java:206-243 | once the count check passes and the stores succeed, writeIndexed records the index block |
| ContiguousFiles.PlaceRun | DiskInterfaceUtils.java:270-281 | the contiguous byte loop fails exactly when the pieces run past the last block |
| ContiguousFiles.PlaceAll | DiskInterfaceUtils.java:270-281 | the whole byte loop stores nothing for empty content and fails exactly when the pieces run past the last block |
| ContiguousFiles.FlagRun | DiskInterfaceUtils.java:284-287 | the flag loop changes no block but the bitmap |
| ContiguousFiles.StoreContiguous | DiskInterfaceUtils.java:265-287 | the stores fail, with a bad address, exactly when there is at least one piece and the pieces run past the last block |
| ContiguousFiles.FlagRunEffect | DiskInterfaceUtils.java:284-287 | the flag loop sets the flags of the counted blocks and changes no data block |
| ContiguousFiles.PlaceRunContent | DiskInterfaceUtils.java:270-281 | on a free run as long as the pieces, the loop stores piece `k` in block start + k and changes no other block |
| ContiguousFiles.PlaceOnRun | DiskInterfaceUtils.java:266-281 | flagging the start block and running the byte loop on a free run places the pieces on the run |
| ContiguousFiles.StoreContiguousOnRun | DiskInterfaceUtils.java:265-287 | on a free run, the stores and the flag loop leave the pieces on the run and change no other block |
| ContiguousFiles.WriteContiguous | DiskInterfaceUtils.java:261-291 | when getNextContigSpace finds no start, writeContiguous changes nothing |
| ContiguousFiles.WriteContiguousAt | DiskInterfaceUtils.java:261-291 | when the run found is free for all the pieces, writeContiguous stores them on it and records its start and the block count |
| ContiguousFiles.ReadContiguous | DiskInterfaceUtils.java:463-483 | the contiguous read fails exactly when the blocks run past the disk, and otherwise gives 512 bytes per counted block, at least one |
| ContiguousFiles.ReadContiguousOfRun | DiskInterfaceUtils.java:469-481 | reading a run that holds the pieces gives the content and the last block's padding |
| ContiguousFiles.ReadOfRun | DiskInterfaceUtils.java:469-481 | the contiguous read of `n` blocks gives the `n` consecutive blocks from the start, each read whole |
| FileOperations.ReadRecord | DiskInterfaceUtils.java:412-484 | the kind's read fails exactly for an indexed record whose index block lists nothing (an empty index block) and for a contiguous record whose blocks run past the disk (a bad address); a read that goes through gives at least one whole block |
| FileOperations.GetFileBytes | DiskInterfaceUtils.java:402-498 | the read fails with no record exactly when the name is not found, and its result never ends in a zero byte |
| FileOperations.ClearChain | DiskInterfaceUtils.java:522-546 | the chained branch of deleteFile stores nothing but zeros: every block but the bitmap keeps its bytes or becomes zero |
| FileOperations.ClearList | DiskInterfaceUtils.java:562-575 | clearing the listed blocks stores nothing but zeros: every block but the bitmap keeps its bytes or becomes zero |
| FileOperations.ClearIndexed | DiskInterfaceUtils.java:553-578 | the indexed delete fails exactly when the index block lists nothing |
| FileOperations.ClearRun | DiskInterfaceUtils.java:594-595 | the contiguous delete fails exactly when the counted blocks run past the disk |
| FileOperations.ZeroRecord | DiskInterfaceUtils.java:598-599 | zeroing the slot fails exactly when the index is -1 or the slot runs past block 0 |
| FileOperations.ZeroRecordEffect | DiskInterfaceUtils.java:541-542 | the slot's bytes become zero and no other byte of block 0, nor any data block, changes |
| FileOperations.ClearFile | DiskInterfaceUtils.java:515-596 | the kind's branch of deleteFile fails exactly for an indexed record whose index block lists nothing (an empty index block) and for a contiguous record whose counted blocks run past the disk (a bad address); otherwise it stores nothing but zeros |
| FileOperations.ClearRunEffect | DiskInterfaceUtils.java:594-595 | on data blocks, the contiguous delete zeroes the run and changes no other block |
| FileOperations.ClearListEffect | DiskInterfaceUtils.java:562-575 | the listed data blocks become zero and no other block changes |
| FileOperations.ClearChainEffect | DiskInterfaceUtils.java:522-546 | walking a linked chain of distinct data blocks zeroes each block and changes no other |
| FileOperations.DeleteFile | DiskInterfaceUtils.java:506-606 | deleting a name that is not found fails |
| FileOperations.DeleteRemovesRecord | DiskInterfaceUtils.java:506-606 | deleting the one entry of a packed table that a name without blank ends matches: getFileRecord finds that entry, the delete goes through exactly when the kind's branch can clear the file's blocks, and then the name is no longer found and block 0 holds the other entries, each as often as before, packed from slot 0 and read back by getFAT |
| FileOperations.ContiguousClearKeepsTable | DiskInterfaceUtils.java:588-596 | a contiguous run that starts on a data block is cleared without touching block 0 |
| FileOperations.ChainedClearKeepsTable | DiskInterfaceUtils.java:522-546 | a linked chain of distinct data blocks is cleared without touching block 0 |
| FileOperations.IndexedClearKeepsTable | DiskInterfaceUtils.java:553-578 | an index block on a data block that lists only data blocks is cleared, with its list, without touching block 0 |
| FileOperations.DeleteSteps | DiskInterfaceUtils.java:506-606 | a successful delete clears the record's blocks, then zeroes the slot, then sorts the table |
| FileOperations.DeleteAfterClear | DiskInterfaceUtils.java:540-605 | after the blocks are cleared, the rest of the delete changes only block 0 and the bitmap |
| FileOperations.DeleteContiguousEffect | DiskInterfaceUtils.java:588-605 | a successful contiguous delete zeroes the record's run and changes no other data block |
| FileOperations.DeleteChainedEffect | DiskInterfaceUtils.java:516-548 | a successful chained delete zeroes every block of the chain and changes no other data block |
| FileOperations.DeleteIndexedEffect | DiskInterfaceUtils.java:549-587 | a successful indexed delete zeroes the listed blocks and the index block, and changes no other data block |
| FileOperations.ClearIndexedEffect | DiskInterfaceUtils.java:553-578 | the indexed branch zeroes the listed blocks and the index block and changes no other block |
| FileOperations.CopyToDisk | DiskInterface.java:547-551 | a file needing more than ten blocks is refused and the disk is unchanged |
| FileOperations.WriteFile | DiskInterface.java:554-564 | the dispatch leaves the disk unchanged when a chained or indexed write finds fewer free blocks than the count, or a contiguous write finds no run; every failure is a bad address |
| FileOperations.CopyToDiskSortsTable | DiskInterface.java:554-567 | a copy that goes through runs the kind's writer, then sortFAT: the data blocks stay as written and, unless one slot is used, block 0 holds the sorted rows |
| RoundTrips.ContiguousStored | DiskInterfaceUtils.java:261-291 | when the run getNextContigSpace finds is free for all the pieces, the write stores them on it and getFileRecord finds its start and count |
| RoundTrips.ContiguousRaw | DiskInterfaceUtils.java:463-490 | the run read for the record's count strips to the content without its trailing zeros |
| RoundTrips.ContiguousReadsBack | DiskInterfaceUtils.java:463-490 | when the record found has the run's start and count and the run holds the pieces, the read by name gives the content without its trailing zeros |
| RoundTrips.ContiguousRoundTrip | DiskInterfaceUtils.java:261-291 | a nonempty contiguous file whose pieces fill the counted blocks reads back by name as its content without trailing zeros |
| RoundTrips.ChainedStored | DiskInterfaceUtils.java:148-187 | with enough free blocks and every piece but the last holding data, the write leaves the chain on the disk, starting at the first draw, and getFileRecord finds its start and count |
| RoundTrips.ChainedRaw | DiskInterfaceUtils.java:413-433 | the chain read for the record's count strips to the content without its trailing zeros |
| RoundTrips.ChainedReadsBack | DiskInterfaceUtils.java:413-433 | when the record found has the chain's start and count, the read by name gives the content without its trailing zeros |
| RoundTrips.ChainedRoundTrip | DiskInterfaceUtils.java:148-187 | a nonempty chained file whose pieces fill the counted blocks, each but the last holding data, reads back by name as its content without trailing zeros |
| RoundTrips.IndexedStored | DiskInterfaceUtils.java:204-244 | with enough free blocks and every piece but the last holding data, getFileRecord finds the index block and, when it was not drawn again, the index block lists the blocks holding the pieces |
| RoundTrips.IndexedRaw | DiskInterfaceUtils.java:434-462 | the indexed read of an index block listing the pieces' blocks strips to the content without its trailing zeros |
| RoundTrips.IndexedRoundTrip | DiskInterfaceUtils.java:204-244 | a nonempty indexed file of at most ten pieces, each but the last holding data, reads back by name as its content without trailing zeros, unless the index block was drawn again |
| RoundTrips.ChainedFloorTruncates | DiskInterface.java:547 | a chained file of 512 to 1021 bytes whose first 511 bytes are not all zero, written under a new name with at least two free blocks, is counted as one block and reads back as its first 511 bytes followed by the link byte |
| RoundTrips.ContiguousFloorTruncates | DiskInterface.java:547 | a contiguous file of 513 to 1023 bytes, written under a new name when a free run of two blocks exists, is counted as one block and reads back as its first 512 bytes without trailing zeros |
| RoundTrips.IndexedFloorTruncates | DiskInterface.java:547-551 | an indexed file of 5121 to 5631 bytes, written under a new name with at least eleven free blocks and no all-zero piece before the last, is counted as ten blocks and accepted; eleven blocks are stored and listed, and unless the index block was drawn again it reads back as its first 5120 bytes without trailing zeros |

## Left out

- The menu, the prompts and the console output of `DiskInterface.java`
  and `Project3.java` are user interface and are not modelled. This
  includes `optionChooser`, `runSimulation`, `toString` and the debug
  printing.
- Reading a host file (`Files.readAllBytes`) and writing one back are host
  I/O. The content is a parameter of `CopyToDisk`, and `GetFileBytes`
  returns the bytes.
- The overwrite prompt of copyToDisk (DiskInterface.java:530-540) is a
  user decision. A caller can model it by calling `DeleteFile` before
  `CopyToDisk`.
- `Math.random()` and getRandomBlock's sampling loop are replaced by the
  draw oracle. The loop ends with probability 1 but need not end on a
  given sequence of samples, and that is not modelled.
- A Java exception ends the operation in the model, and the stores made
  before it are dropped. In the program, those stores stay on the disk.
- The static table `fileAllocationTable` is not a separate state. Every
  lookup rescans block 0, as getFileRecord and isValidFile do.
  getFileRecordIndex reads the table left by the last scan, which in
  deleteFile is the one getFileRecord has just made.
- FileOperations.DeleteFile: its own contract gives only the failure for
  an unknown name. `DeleteRemovesRecord` states the removal of the record
  for a packed table, the form copyToDisk's sortFAT leaves, whose one
  matching entry is looked up by a name without blank ends. A name with a
  blank end makes the delete fail (`IndexAgreesWithRecord`). A name that
  matches two entries is not covered. That a write followed by a delete
  gives back the free count from before the write is not proved as one
  lemma. The pieces are there: the write stores only into blocks that were
  free (`PlaceRandomFrame`, `StoreContiguousOnRun`), and the delete zeroes
  the blocks the record reaches (`DeleteContiguousEffect`,
  `DeleteChainedEffect`, `DeleteIndexedEffect`). Joining them needs the
  chain or list that the delete follows to be the one the write laid down,
  and for Indexed this fails on the index-block collision.
- FileOperations.DeleteRemovesRecord: it assumes that the kind's branch
  leaves block 0 alone (`ClearKeepsTable`). The three `*ClearKeepsTable`
  lemmas show this for records on data blocks. A record whose blocks
  include block 0 would wipe the table while clearing, which is not
  modelled further.
- BlockStore.Write: its own contract keeps only the geometry. The store,
  the flag and the frame are stated by `WriteEffect`, `ReadAfterWrite` and
  `WriteAgrees`. Every store of the model goes through `Write`, and a
  larger contract there would weigh on every proof.
- Names are byte strings, and each byte is treated as one ASCII
  character. Three places in the source behave differently for bytes
  outside ASCII, and the model does not follow them. `new String(tempName)`
  in getFAT (DiskInterfaceUtils.java:80-81) decodes bytes of 0x80 and above
  through the platform character set. writeFileToFAT loops over
  `fileName.length()` characters but indexes the `getBytes()` array
  (DiskInterfaceUtils.java:310-311), and the two lengths differ for such
  names. `equalsIgnoreCase` folds non-ASCII letters too.
- ChainedFiles.WriteChained, IndexedFiles.WriteIndexed and
  ContiguousFiles.WriteContiguous: their own contracts give only the
  refusal case. What a write stores is stated by the `*Of`, `*At` and
  `*Stored` lemmas and the round trips.
- RoundTrips.IndexedRoundTrip: the read-back is proved only when the index
  block was not drawn again as a data block. The other case is the
  collision `IndexBlockCanBeDrawnAgain` exhibits.
