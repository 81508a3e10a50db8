/** The fixed device geometry of DiskInterface.java, the allocation kinds,
    the record sizing chosen by the constructor, and the block count that
    copyToDisk computes before dispatching a write. */
module Geometry {
  import opened Common
  import opened BlockStore

  const NUM_BLOCKS: nat := 256
  const BLOCK_SIZE: nat := 512
  /** Payload bytes per chained block; the last byte holds the link. */
  const CHAINED_BLOCK_SIZE: nat := BLOCK_SIZE - 1
  /** copyToDisk refuses a file needing more blocks than this. */
  const MAX_FILE_BLOCKS: nat := 10
  /** Entries an index block can list. */
  const INDEX_SLOTS: nat := 10

  datatype AllocationType = Chained | Indexed | Contiguous

  /** Bytes per FAT record: the name (8), the start or index block (1) and,
      except for indexed files, the length (1). */
  function RecordSize(kind: AllocationType): (rs: nat)
    ensures rs == 8 + 1 + (if kind == Indexed then 0 else 1)
  {
    match kind
    case Chained => 10
    case Indexed => 9
    case Contiguous => 10
  }

  /** Records the FAT block can hold, as each case of the constructor's
      switch computes it. */
  function MaxRecords(kind: AllocationType): (n: nat)
    ensures n == if kind == Indexed then 56 else 51
  {
    match kind
    case Chained => BLOCK_SIZE / 10
    case Indexed => BLOCK_SIZE / 9
    case Contiguous => BLOCK_SIZE / 10
  }

  /** The count is the largest number of whole records that fit in a block. */
  lemma MaxRecordsIsFloor(kind: AllocationType)
    ensures MaxRecords(kind) * RecordSize(kind) <= BLOCK_SIZE < (MaxRecords(kind) + 1) * RecordSize(kind)
  {
  }

  /** Payload bytes a data block carries under each kind. */
  function Capacity(kind: AllocationType): (c: nat)
    ensures c == if kind == Chained then BLOCK_SIZE - 1 else BLOCK_SIZE
  {
    if kind == Chained then CHAINED_BLOCK_SIZE else BLOCK_SIZE
  }

  /** A disk with the simulator's own geometry. */
  predicate Formatted(d: Disk) {
    d.Valid() && d.numBlocks == NUM_BLOCKS && d.blockSize == BLOCK_SIZE
  }

  lemma FormattedIsWellShaped(d: Disk)
    requires Formatted(d)
    ensures WellShaped(d)
  {
  }

  /** The state the DiskInterface constructor sets up. */
  datatype Config = Config(kind: AllocationType, recordSize: nat, maxRecords: nat, disk: Disk)

  /** The constructor's geometry check and record sizing; `None` stands for
      the exception it throws when blocks are smaller than the block count
      (a block index would then not fit as an offset of the bitmap block). */
  function Construct(kind: AllocationType, numBlocks: nat, blockSize: nat): (r: Option<Config>)
    ensures r.None? <==> blockSize < numBlocks
    ensures r.Some? ==> r.value.kind == kind && r.value.recordSize == RecordSize(kind)
    ensures r.Some? ==> r.value.maxRecords * r.value.recordSize <= blockSize
                        < (r.value.maxRecords + 1) * r.value.recordSize
    ensures r.Some? ==> r.value.disk.Valid() && r.value.disk.numBlocks == numBlocks
                        && r.value.disk.blockSize == blockSize
    ensures r.Some? ==> forall b, l :: InRange(r.value.disk, b, l) ==> r.value.disk.blocks[b][l] == 0
  {
    if blockSize < numBlocks then None
    else
      var rs := RecordSize(kind);
      Some(Config(kind, rs, blockSize / rs, New(numBlocks, blockSize)))
  }

  /** The simulator's own geometry passes the check, with a zeroed disk
      on which every block index fits inside the bitmap block. */
  lemma DefaultConstruction(kind: AllocationType)
    ensures Construct(kind, NUM_BLOCKS, BLOCK_SIZE).Some?
    ensures Construct(kind, NUM_BLOCKS, BLOCK_SIZE).value.maxRecords == MaxRecords(kind)
    ensures Formatted(Construct(kind, NUM_BLOCKS, BLOCK_SIZE).value.disk)
    ensures WellShaped(Construct(kind, NUM_BLOCKS, BLOCK_SIZE).value.disk)
  {
  }

  /** copyToDisk's block count: the content length divided by the payload
      per block, rounded DOWN, and zero for empty content. */
  function RequiredBlocks(kind: AllocationType, len: nat): (r: nat)
    ensures len == 0 ==> r == 0
    ensures len > 0 ==> r * Capacity(kind) <= len < (r + 1) * Capacity(kind)
  {
    if len > 0 then len / Capacity(kind) else 0
  }

  /** The count is exact only for whole multiples of the payload size; any
      other length is undercounted by one block. */
  lemma RequiredBlocksUndercounts(kind: AllocationType, len: nat)
    ensures (RequiredBlocks(kind, len) * Capacity(kind) == len) <==> len % Capacity(kind) == 0
    ensures len % Capacity(kind) != 0 ==>
              (RequiredBlocks(kind, len) + 1) * Capacity(kind) > len > RequiredBlocks(kind, len) * Capacity(kind)
  {
  }

  lemma RequiredBlocksOfMultiple(kind: AllocationType, m: nat)
    ensures RequiredBlocks(kind, m * Capacity(kind)) == m
  {
  }
}
