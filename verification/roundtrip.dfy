/** Round trips through the disk: a file written with the allocation kind's
    write operation, under a name the table does not hold yet, reads back
    by that name as the content it was given, without its trailing zero
    bytes. */
module RoundTrips {
  import opened Common
  import opened BlockStore
  import opened Geometry
  import opened FreeSpace
  import opened Fat
  import opened Allocation
  import opened ChainedFiles
  import opened IndexedFiles
  import opened ContiguousFiles
  import opened FileOperations

  /** The table of `kind` on block 0 lays out the entries `es`, has room
      for one more, and holds no entry the name matches. */
  predicate CanAppend(d: Disk, kind: AllocationType, es: seq<Entry>, name: seq<Byte>) {
    && Formatted(d) && ValidEntries(kind, es) && |es| < MaxRecords(kind)
    && d.blocks[0] == Layout(kind, es)
    && GoodName(name) && forall k :: 0 <= k < |es| ==> !NameMatches(name, RecordOf(kind, es, k))
  }

  /** Rewriting the table keeps every data block. */
  lemma HoldsAfterFat(p: Placement, e: Disk, pieces: seq<seq<Byte>>)
    requires HoldsPieces(p, pieces, 0) && Formatted(e) && Agree(p.disk, e, {0})
    ensures HoldsPieces(Placement(e, p.used), pieces, 0)
  {
    forall k | 0 <= k < |p.used|
      ensures e.blocks[p.used[k]] == Padded(pieces[k])
    {
      assert p.disk.blocks[p.used[k]] == Padded(pieces[0 + k]);
    }
  }

  /** writeFileToFAT on a disk whose table is still the one `CanAppend`
      describes: the record is found by name afterwards with the block and
      (but for indexed files) the length given, and only the table
      changed. */
  lemma AppendAfterStores(d: Disk, dq: Disk, kind: AllocationType, es: seq<Entry>, name: seq<Byte>, block: int, length: int)
    returns (e: Disk)
    requires CanAppend(d, kind, es, name) && Formatted(dq) && dq.blocks[0] == d.blocks[0]
    requires 0 <= block < NUM_BLOCKS && (kind == Indexed || 0 <= length < NUM_BLOCKS)
    ensures WriteFileToFAT(dq, kind, name, block, length) == Ok(e) && Formatted(e) && Agree(dq, e, {0})
    ensures GetFileRecord(e, kind, name).Some? && GetFileRecord(e, kind, name).value.block == block
    ensures kind != Indexed ==> GetFileRecord(e, kind, name).value.length == length
  {
    assert ToByte(block) == block && (kind != Indexed ==> ToByte(length) == length);
    e := LookupAfterAppend(dq, kind, es, name, block, length);
    var off := SlotOffset(kind, GetFAT(dq, kind).0);
    RebuiltAgrees(dq, StoredRecord(dq.blocks[0], kind, off, name, block, length));
  }

  // ---------------------------------------------------------------------
  // Contiguous

  /** The store of a contiguous file onto a free run as long as its pieces,
      followed by the record append. */
  lemma ContiguousStored(d: Disk, es: seq<Entry>, name: seq<Byte>, content: seq<Byte>, required: int)
    returns (e: Disk, start: int)
    requires CanAppend(d, Contiguous, es, name) && |content| > 0
    requires 0 <= required <= |Chunks(content, BLOCK_SIZE)|
    requires NextContigSpace(d, required) >= 2
    requires EmptyRun(d, NextContigSpace(d, required), |Chunks(content, BLOCK_SIZE)|)
    ensures start == NextContigSpace(d, required) && 2 <= start < NUM_BLOCKS
    ensures WriteContiguous(d, name, content, required) == Ok(e) && Formatted(e)
    ensures GetFileRecord(e, Contiguous, name).Some?
    ensures GetFileRecord(e, Contiguous, name).value.block == start
    ensures GetFileRecord(e, Contiguous, name).value.length == required
    ensures HoldsPieces(Placement(e, RunBlocks(start, |Chunks(content, BLOCK_SIZE)|)), Chunks(content, BLOCK_SIZE), 0)
  {
    var d3;
    start, d3 := WriteContiguousAt(d, name, content, required);
    var pieces := Chunks(content, BLOCK_SIZE);
    var run := RunBlocks(start, |pieces|);
    RunBlocksAreData(start, |pieces|);
    assert 0 !in Blocks(run);
    assert d3.blocks[0] == d.blocks[0];
    e := AppendAfterStores(d, d3, Contiguous, es, name, start, required);
    HoldsAfterFat(Placement(d3, run), e, pieces);
  }


  /** A run that holds the pieces holds piece `k` at `start + k`. */
  lemma RunHolds(d: Disk, start: int, pieces: seq<seq<Byte>>)
    requires 0 <= start && start + |pieces| <= NUM_BLOCKS
    requires HoldsPieces(Placement(d, RunBlocks(start, |pieces|)), pieces, 0)
    ensures forall k :: 0 <= k < |pieces| ==> d.blocks[start + k] == Padded(pieces[k])
  {
    var run := RunBlocks(start, |pieces|);
    forall k | 0 <= k < |pieces|
      ensures d.blocks[start + k] == Padded(pieces[k])
    {
      assert run[k] == start + k;
      assert d.blocks[run[k]] == Padded(pieces[0 + k]);
    }
  }

  /** A contiguous file whose pieces fill the blocks its record counts,
      stored on a free run, reads back as its content without its trailing zeros. */
  lemma ContiguousRoundTrip(d: Disk, es: seq<Entry>, name: seq<Byte>, content: seq<Byte>, required: int)
    returns (e: Disk)
    requires CanAppend(d, Contiguous, es, name) && |content| > 0 && required >= 0
    requires Max(required, 1) == |Chunks(content, BLOCK_SIZE)|
    requires NextContigSpace(d, required) >= 2
    requires EmptyRun(d, NextContigSpace(d, required), |Chunks(content, BLOCK_SIZE)|)
    ensures WriteContiguous(d, name, content, required) == Ok(e)
    ensures GetFileBytes(e, Contiguous, name) == Ok(StripTrailingZeros(content))
  {
    var start;
    e, start := ContiguousStored(d, es, name, content, required);
    ContiguousReadsBack(e, name, content, start, required);
  }

  /** Reading by name a contiguous record whose run holds the pieces. */
  lemma ContiguousReadsBack(e: Disk, name: seq<Byte>, content: seq<Byte>, start: int, required: int)
    requires Formatted(e) && |content| > 0 && 2 <= start < NUM_BLOCKS
    requires Max(required, 1) == |Chunks(content, BLOCK_SIZE)|
    requires GetFileRecord(e, Contiguous, name).Some?
    requires GetFileRecord(e, Contiguous, name).value.block == start
    requires GetFileRecord(e, Contiguous, name).value.length == required
    requires HoldsPieces(Placement(e, RunBlocks(start, |Chunks(content, BLOCK_SIZE)|)), Chunks(content, BLOCK_SIZE), 0)
    ensures GetFileBytes(e, Contiguous, name) == Ok(StripTrailingZeros(content))
  {
    var raw := ContiguousRaw(e, content, start, required);
    GetFileBytesOfRecord(e, Contiguous, name, raw);
  }

  /** The run read for the record's length is the content, padded. */
  lemma ContiguousRaw(e: Disk, content: seq<Byte>, start: int, required: int) returns (raw: seq<Byte>)
    requires Formatted(e) && |content| > 0 && 2 <= start < NUM_BLOCKS
    requires Max(required, 1) == |Chunks(content, BLOCK_SIZE)|
    requires HoldsPieces(Placement(e, RunBlocks(start, |Chunks(content, BLOCK_SIZE)|)), Chunks(content, BLOCK_SIZE), 0)
    ensures ReadContiguous(e, start, required) == Ok(raw) && StripTrailingZeros(raw) == StripTrailingZeros(content)
  {
    var pieces := Chunks(content, BLOCK_SIZE);
    assert RunBlocks(start, |pieces|)[|pieces| - 1] == start + |pieces| - 1;
    RunHolds(e, start, pieces);
    raw := ContiguousRawOfRun(e, content, start, required);
  }

  /** The contiguous read of a run whose blocks hold the pieces strips to
      the content. */
  lemma ContiguousRawOfRun(e: Disk, content: seq<Byte>, start: int, required: int) returns (raw: seq<Byte>)
    requires Formatted(e) && |content| > 0 && 2 <= start
    requires start + |Chunks(content, BLOCK_SIZE)| <= NUM_BLOCKS
    requires Max(required, 1) == |Chunks(content, BLOCK_SIZE)|
    requires forall k :: 0 <= k < |Chunks(content, BLOCK_SIZE)| ==>
               e.blocks[start + k] == Padded(Chunks(content, BLOCK_SIZE)[k])
    ensures ReadContiguous(e, start, required) == Ok(raw) && StripTrailingZeros(raw) == StripTrailingZeros(content)
  {
    var pieces := Chunks(content, BLOCK_SIZE);
    ReadContiguousOfRun(e, start, content);
    raw := content + Zeros(BLOCK_SIZE - |pieces[|pieces| - 1]|);
    SameBlockCount(e, start, required, |pieces|);
    StripPaddedContent(content);
  }

  /** The contiguous read counts at least one block. */
  lemma SameBlockCount(e: Disk, start: Byte, a: int, b: int)
    requires Formatted(e) && Max(a, 1) == Max(b, 1)
    ensures ReadContiguous(e, start, a) == ReadContiguous(e, start, b)
  {
  }

  // ---------------------------------------------------------------------
  // Chained

  /** Rewriting the table keeps a chain. */
  lemma ChainAfterFat(d: Disk, e: Disk, used: seq<int>, pieces: seq<seq<Byte>>)
    requires ChainOn(d, used, pieces) && Formatted(e) && Agree(d, e, {0})
    ensures ChainOn(e, used, pieces)
  {
    forall k | 0 <= k < |used|
      ensures e.blocks[used[k]] == LinkedBlock(pieces, used, k)
    {
      assert d.blocks[used[k]] == LinkedBlock(pieces, used, k);
    }
  }

  /** The stores of a chained file on enough free blocks, followed by the
      record append. */
  lemma ChainedStored(d: Disk, es: seq<Entry>, name: seq<Byte>, content: seq<Byte>, required: int, draws: nat -> nat)
    returns (e: Disk, used: seq<int>)
    requires CanAppend(d, Chained, es, name) && |content| > 0
    requires 0 <= required <= |Chunks(content, CHAINED_BLOCK_SIZE)|
    requires NonzeroPieces(Chunks(content, CHAINED_BLOCK_SIZE), 0)
    requires NumFreeBlocks(d) >= |Chunks(content, CHAINED_BLOCK_SIZE)|
    ensures WriteChained(d, name, content, required, draws) == Ok(e) && Formatted(e)
    ensures ChainOn(e, used, Chunks(content, CHAINED_BLOCK_SIZE)) && used[0] == RandomBlock(d, draws(0))
    ensures GetFileRecord(e, Chained, name).Some?
    ensures GetFileRecord(e, Chained, name).value.block == used[0]
    ensures GetFileRecord(e, Chained, name).value.length == required
  {
    var q := StoreChainedOnFree(d, content, draws);
    WriteChainedOf(d, name, content, required, draws, q);
    used := q.used;
    DataBlocksAvoidTables(used);
    assert q.disk.blocks[0] == d.blocks[0];
    e := AppendAfterStores(d, q.disk, Chained, es, name, used[0], required);
    ChainAfterFat(q.disk, e, used, Chunks(content, CHAINED_BLOCK_SIZE));
  }

  /** The chain read for the record's length is the content, padded. */
  lemma ChainedRaw(e: Disk, content: seq<Byte>, used: seq<int>, required: int) returns (raw: seq<Byte>)
    requires |content| > 0 && ChainOn(e, used, Chunks(content, CHAINED_BLOCK_SIZE))
    requires Max(required, 1) == |used|
    ensures ReadChain(e, used[0], required) == raw && StripTrailingZeros(raw) == StripTrailingZeros(content)
  {
    var pieces := Chunks(content, CHAINED_BLOCK_SIZE);
    ReadChainOfLinked(e, used, pieces, 0);
    assert used[0..] == used && pieces[0..] == pieces;
    raw := content + Zeros(BLOCK_SIZE - |pieces[|pieces| - 1]|);
    assert ReadChain(e, used[0], required) == ReadChain(e, used[0], |used|);
    StripIgnoresZeroSuffix(content, Zeros(BLOCK_SIZE - |pieces[|pieces| - 1]|));
  }

  /** Reading by name a chained record whose blocks hold the chain. */
  lemma ChainedReadsBack(e: Disk, name: seq<Byte>, content: seq<Byte>, used: seq<int>, required: int)
    requires |content| > 0 && ChainOn(e, used, Chunks(content, CHAINED_BLOCK_SIZE))
    requires Max(required, 1) == |used|
    requires GetFileRecord(e, Chained, name).Some?
    requires GetFileRecord(e, Chained, name).value.block == used[0]
    requires GetFileRecord(e, Chained, name).value.length == required
    ensures GetFileBytes(e, Chained, name) == Ok(StripTrailingZeros(content))
  {
    var raw := ChainedRaw(e, content, used, required);
    GetFileBytesOfRecord(e, Chained, name, raw);
  }

  /** A chained file whose pieces fill the blocks its record counts, each
      but the last holding a nonzero byte, written with enough free blocks,
      reads back as its content without its trailing zeros, whatever the
      draws. */
  lemma ChainedRoundTrip(d: Disk, es: seq<Entry>, name: seq<Byte>, content: seq<Byte>, required: int, draws: nat -> nat)
    returns (e: Disk)
    requires CanAppend(d, Chained, es, name) && |content| > 0 && required >= 0
    requires Max(required, 1) == |Chunks(content, CHAINED_BLOCK_SIZE)|
    requires NonzeroPieces(Chunks(content, CHAINED_BLOCK_SIZE), 0)
    requires NumFreeBlocks(d) >= |Chunks(content, CHAINED_BLOCK_SIZE)|
    ensures WriteChained(d, name, content, required, draws) == Ok(e)
    ensures GetFileBytes(e, Chained, name) == Ok(StripTrailingZeros(content))
  {
    var used;
    e, used := ChainedStored(d, es, name, content, required, draws);
    ChainedReadsBack(e, name, content, used, required);
  }

  // ---------------------------------------------------------------------
  // Indexed

  /** Rewriting the table keeps the index block and the pieces. */
  lemma IndexedAfterFat(s: IndexedStore, e: Disk, pieces: seq<seq<Byte>>)
    requires IndexedHolds(s, pieces) && Formatted(e) && Agree(s.placed.disk, e, {0})
    ensures IndexedHolds(IndexedStore(s.index, Placement(e, s.placed.used)), pieces)
  {
    HoldsAfterFat(s.placed, e, pieces);
  }

  /** The stores of an indexed file on enough free blocks, followed by the
      record append. */
  lemma IndexedStored(d: Disk, es: seq<Entry>, name: seq<Byte>, content: seq<Byte>, required: int, draws: nat -> nat)
    returns (e: Disk, s: IndexedStore)
    requires CanAppend(d, Indexed, es, name) && |content| > 0
    requires NonzeroPieces(Chunks(content, BLOCK_SIZE), 0)
    requires NumFreeBlocks(d) >= |Chunks(content, BLOCK_SIZE)| && NumFreeBlocks(d) >= required
    ensures StoreIndexed(d, content, draws) == Ok(s)
    ensures WriteIndexed(d, name, content, required, draws) == Ok(e) && Formatted(e)
    ensures GetFileRecord(e, Indexed, name).Some? && GetFileRecord(e, Indexed, name).value.block == s.index
    ensures s.index !in Blocks(s.placed.used) ==>
              IndexedHolds(IndexedStore(s.index, Placement(e, s.placed.used)), Chunks(content, BLOCK_SIZE))
  {
    s := StoreIndexedOnFree(d, content, draws);
    WriteIndexedOf(d, name, content, required, draws, s);
    DataBlocksAvoidTables(s.placed.used);
    assert s.placed.disk.blocks[0] == d.blocks[0];
    e := AppendAfterStores(d, s.placed.disk, Indexed, es, name, s.index, required);
    if s.index !in Blocks(s.placed.used) {
      IndexedAfterFat(s, e, Chunks(content, BLOCK_SIZE));
    }
  }

  /** A placement holding the pieces from the first one on holds piece `j`
      in block `j` of its list. */
  lemma HeldFromZero(p: Placement, pieces: seq<seq<Byte>>)
    requires HoldsPieces(p, pieces, 0)
    ensures forall j :: 0 <= j < |p.used| ==> p.disk.blocks[p.used[j]] == Padded(pieces[j])
  {
    forall j | 0 <= j < |p.used|
      ensures p.disk.blocks[p.used[j]] == Padded(pieces[j])
    {
      assert p.disk.blocks[p.used[j]] == Padded(pieces[0 + j]);
    }
  }

  /** The index block lists the blocks used. */
  lemma IndexedList(e: Disk, pieces: seq<seq<Byte>>, index: int, used: seq<int>)
    requires |used| <= INDEX_SLOTS && IndexedHolds(IndexedStore(index, Placement(e, used)), pieces)
    ensures IndexList(e.blocks[index]) == used
  {
    var blk := e.blocks[index];
    assert blk[..|used|] == Entries(used) && blk[|used|..] == Zeros(BLOCK_SIZE - |used|);
    IndexListOfEntries(blk, used);
  }

  /** The blocks used, read whole in list order, are the content,
      padded. */
  lemma IndexedBlocks(e: Disk, content: seq<Byte>, used: seq<int>) returns (raw: seq<Byte>)
    requires |content| > 0 && |used| == |Chunks(content, BLOCK_SIZE)|
    requires HoldsPieces(Placement(e, used), Chunks(content, BLOCK_SIZE), 0)
    ensures ReadBlocks(e, used) == raw && StripTrailingZeros(raw) == StripTrailingZeros(content)
  {
    HeldFromZero(Placement(e, used), Chunks(content, BLOCK_SIZE));
    ReadAllHeld(e, content, used);
    raw := ReadBlocks(e, used);
    StripPaddedContent(content);
  }

  /** Content padded to a whole block strips to what the content itself
      strips to. */
  lemma StripPaddedContent(content: seq<Byte>)
    requires |content| > 0
    ensures var pieces := Chunks(content, BLOCK_SIZE);
            StripTrailingZeros(content + Zeros(BLOCK_SIZE - |pieces[|pieces| - 1]|)) == StripTrailingZeros(content)
  {
    var pieces := Chunks(content, BLOCK_SIZE);
    StripIgnoresZeroSuffix(content, Zeros(BLOCK_SIZE - |pieces[|pieces| - 1]|));
  }

  /** The indexed read of a file whose index block lists its pieces' blocks
      is the content, padded. */
  lemma IndexedRaw(e: Disk, content: seq<Byte>, index: int, used: seq<int>) returns (raw: seq<Byte>)
    requires |content| > 0 && |used| <= INDEX_SLOTS
    requires IndexedHolds(IndexedStore(index, Placement(e, used)), Chunks(content, BLOCK_SIZE))
    ensures ReadIndexed(e, index) == Ok(raw) && StripTrailingZeros(raw) == StripTrailingZeros(content)
  {
    IndexedList(e, Chunks(content, BLOCK_SIZE), index, used);
    raw := IndexedBlocks(e, content, used);
  }

  /** An indexed file written with enough free blocks, at most ten pieces
      and each but the last holding a nonzero byte, reads back as its
      content without its trailing zeros, unless the random placement drew
      the index block itself for one of the pieces. */
  lemma IndexedRoundTrip(d: Disk, es: seq<Entry>, name: seq<Byte>, content: seq<Byte>, required: int, draws: nat -> nat)
    returns (e: Disk)
    requires CanAppend(d, Indexed, es, name) && |content| > 0
    requires |Chunks(content, BLOCK_SIZE)| <= INDEX_SLOTS
    requires NonzeroPieces(Chunks(content, BLOCK_SIZE), 0)
    requires NumFreeBlocks(d) >= |Chunks(content, BLOCK_SIZE)| && NumFreeBlocks(d) >= required
    ensures WriteIndexed(d, name, content, required, draws) == Ok(e)
    ensures StoreIndexed(d, content, draws).Ok?
    ensures var s := StoreIndexed(d, content, draws).value;
            s.index !in Blocks(s.placed.used) ==> GetFileBytes(e, Indexed, name) == Ok(StripTrailingZeros(content))
  {
    var s;
    e, s := IndexedStored(d, es, name, content, required, draws);
    if s.index !in Blocks(s.placed.used) {
      var raw := IndexedRaw(e, content, s.index, s.placed.used);
      GetFileBytesOfRecord(e, Indexed, name, raw);
    }
  }
  // ---------------------------------------------------------------------
  // Lengths the block count floors

  /** Between one and two pieces' worth of content the copy command counts
      one block. */
  lemma OneRequiredBlock(kind: AllocationType, len: nat)
    requires Capacity(kind) < len < 2 * Capacity(kind)
    ensures RequiredBlocks(kind, len) == 1
  {
  }

  /** Content of one full chained piece and a second, shorter one. */
  lemma TwoChainedPieces(content: seq<Byte>)
    requires CHAINED_BLOCK_SIZE < |content| < 2 * CHAINED_BLOCK_SIZE
    ensures Chunks(content, CHAINED_BLOCK_SIZE) == [content[..CHAINED_BLOCK_SIZE], content[CHAINED_BLOCK_SIZE..]]
  {
  }

  /** An indexed file longer than ten blocks but shorter than eleven gets
      a count of ten, which the copy command accepts. All eleven pieces
      are stored and listed, but the read takes only the first ten
      entries of the index block, so the last piece is lost. */
  lemma IndexedFloorTruncates(d: Disk, es: seq<Entry>, name: seq<Byte>, content: seq<Byte>, draws: nat -> nat)
    returns (e: Disk, s: IndexedStore)
    requires CanAppend(d, Indexed, es, name)
    requires INDEX_SLOTS * BLOCK_SIZE < |content| < (INDEX_SLOTS + 1) * BLOCK_SIZE
    requires NonzeroPieces(Chunks(content, BLOCK_SIZE), 0) && NumFreeBlocks(d) >= INDEX_SLOTS + 1
    ensures RequiredBlocks(Indexed, |content|) == INDEX_SLOTS
    ensures WriteIndexed(d, name, content, INDEX_SLOTS, draws) == Ok(e)
    ensures StoreIndexed(d, content, draws) == Ok(s) && |s.placed.used| == INDEX_SLOTS + 1
    ensures s.index !in Blocks(s.placed.used) ==>
              GetFileBytes(e, Indexed, name) == Ok(StripTrailingZeros(content[..INDEX_SLOTS * BLOCK_SIZE]))
  {
    TenRequiredBlocks(|content|);
    ChunkCount(content, BLOCK_SIZE, INDEX_SLOTS);
    var stored := StoreIndexedOnFree(d, content, draws);
    e, s := IndexedStored(d, es, name, content, INDEX_SLOTS, draws);
    assert stored == s;
    if s.index !in Blocks(s.placed.used) {
      IndexedReadsFirstTen(e, name, content, s.index, s.placed.used);
    }
  }

  /** Between ten and eleven blocks' worth of content the copy command
      counts ten blocks. */
  lemma TenRequiredBlocks(len: nat)
    requires INDEX_SLOTS * BLOCK_SIZE < len < (INDEX_SLOTS + 1) * BLOCK_SIZE
    ensures RequiredBlocks(Indexed, len) == INDEX_SLOTS
  {
    assert Capacity(Indexed) == BLOCK_SIZE;
  }

  /** Reading an indexed file back by name when its index block lists
      eleven blocks that hold its pieces. */
  lemma IndexedReadsFirstTen(e: Disk, name: seq<Byte>, content: seq<Byte>, index: int, used: seq<int>)
    requires Formatted(e) && |content| > INDEX_SLOTS * BLOCK_SIZE
    requires |used| == |Chunks(content, BLOCK_SIZE)| == INDEX_SLOTS + 1
    requires IndexedHolds(IndexedStore(index, Placement(e, used)), Chunks(content, BLOCK_SIZE))
    requires GetFileRecord(e, Indexed, name).Some? && GetFileRecord(e, Indexed, name).value.block == index
    ensures GetFileBytes(e, Indexed, name) == Ok(StripTrailingZeros(content[..INDEX_SLOTS * BLOCK_SIZE]))
  {
    IndexListOfLongEntries(e.blocks[index], used);
    var raw := IndexedFirstTen(e, content, used);
    GetFileBytesOfRecord(e, Indexed, name, raw);
  }

  /** The first ten of eleven held blocks, read whole, are the first ten
      blocks' worth of the content. */
  lemma IndexedFirstTen(e: Disk, content: seq<Byte>, used: seq<int>) returns (raw: seq<Byte>)
    requires |content| > INDEX_SLOTS * BLOCK_SIZE && |used| == |Chunks(content, BLOCK_SIZE)| == INDEX_SLOTS + 1
    requires HoldsPieces(Placement(e, used), Chunks(content, BLOCK_SIZE), 0)
    ensures raw == content[..INDEX_SLOTS * BLOCK_SIZE]
    ensures ReadBlocks(e, used[..INDEX_SLOTS]) == raw
  {
    var pieces := Chunks(content, BLOCK_SIZE);
    var head, tail := pieces[..INDEX_SLOTS], pieces[INDEX_SLOTS..];
    HeldFromZero(Placement(e, used), pieces);
    ReadBlocksOfHeld(e, used[..INDEX_SLOTS], head, 0);
    assert used[..INDEX_SLOTS][0..] == used[..INDEX_SLOTS] && head[0..] == head;
    assert head + tail == pieces;
    ConcatAppend(head, tail);
    raw := content[..INDEX_SLOTS * BLOCK_SIZE];
  }

  /** A chained file longer than one 511-byte piece but shorter than two
      gets a record of length 1 from the copy command's block count, so
      reading it back gives the first piece and the link byte after it,
      and the second piece is lost. */
  lemma ChainedFloorTruncates(d: Disk, es: seq<Entry>, name: seq<Byte>, content: seq<Byte>, draws: nat -> nat)
    returns (e: Disk, link: int)
    requires CanAppend(d, Chained, es, name)
    requires CHAINED_BLOCK_SIZE < |content| < 2 * CHAINED_BLOCK_SIZE
    requires !AllZero(content[..CHAINED_BLOCK_SIZE]) && NumFreeBlocks(d) >= 2
    ensures RequiredBlocks(Chained, |content|) == 1
    ensures WriteChained(d, name, content, RequiredBlocks(Chained, |content|), draws) == Ok(e)
    ensures 2 <= link < NUM_BLOCKS
    ensures GetFileBytes(e, Chained, name) == Ok(content[..CHAINED_BLOCK_SIZE] + [link])
  {
    OneRequiredBlock(Chained, |content|);
    TwoChainedPieces(content);
    var pieces := Chunks(content, CHAINED_BLOCK_SIZE);
    assert NonzeroPieces(pieces, 0);
    var used;
    e, used := ChainedStored(d, es, name, content, 1, draws);
    link := used[1];
    var raw := ChainedFirstBlock(e, content, used);
    GetFileBytesOfRecord(e, Chained, name, raw);
  }

  /** The first block of a two-block chain is its first piece and the
      link. */
  lemma ChainedFirstBlock(e: Disk, content: seq<Byte>, used: seq<int>) returns (raw: seq<Byte>)
    requires CHAINED_BLOCK_SIZE < |content| < 2 * CHAINED_BLOCK_SIZE
    requires ChainOn(e, used, Chunks(content, CHAINED_BLOCK_SIZE))
    ensures raw == content[..CHAINED_BLOCK_SIZE] + [used[1]]
    ensures ReadChain(e, used[0], 1) == raw && StripTrailingZeros(raw) == raw
  {
    TwoChainedPieces(content);
    var pieces := Chunks(content, CHAINED_BLOCK_SIZE);
    raw := content[..CHAINED_BLOCK_SIZE] + [used[1]];
    assert e.blocks[used[0]] == LinkedBlock(pieces, used, 0);
    assert LinkedBlock(pieces, used, 0) == raw;
  }

  /** Content of one full contiguous piece and a second, shorter one. */
  lemma TwoContiguousPieces(content: seq<Byte>)
    requires BLOCK_SIZE < |content| < 2 * BLOCK_SIZE
    ensures Chunks(content, BLOCK_SIZE) == [content[..BLOCK_SIZE], content[BLOCK_SIZE..]]
  {
  }

  /** A contiguous file longer than one block but shorter than two gets a
      record of length 1 from the copy command's block count; both blocks
      are written on the free run found for two blocks, but reading it
      back gives only the first block. */
  lemma ContiguousFloorTruncates(d: Disk, es: seq<Entry>, name: seq<Byte>, content: seq<Byte>)
    returns (e: Disk)
    requires CanAppend(d, Contiguous, es, name)
    requires BLOCK_SIZE < |content| < 2 * BLOCK_SIZE
    requires NextContigSpace(d, 1) != -1
    ensures RequiredBlocks(Contiguous, |content|) == 1
    ensures WriteContiguous(d, name, content, RequiredBlocks(Contiguous, |content|)) == Ok(e)
    ensures GetFileBytes(e, Contiguous, name) == Ok(StripTrailingZeros(content[..BLOCK_SIZE]))
  {
    OneRequiredBlock(Contiguous, |content|);
    TwoContiguousPieces(content);
    var start;
    e, start := ContiguousStored(d, es, name, content, 1);
    var raw := ContiguousFirstBlock(e, content, start);
    GetFileBytesOfRecord(e, Contiguous, name, raw);
  }

  /** The first block of a two-block run is its first piece. */
  lemma ContiguousFirstBlock(e: Disk, content: seq<Byte>, start: int) returns (raw: seq<Byte>)
    requires BLOCK_SIZE < |content| < 2 * BLOCK_SIZE && Formatted(e) && 2 <= start < NUM_BLOCKS
    requires HoldsPieces(Placement(e, RunBlocks(start, |Chunks(content, BLOCK_SIZE)|)), Chunks(content, BLOCK_SIZE), 0)
    ensures ReadContiguous(e, start, 1) == Ok(raw) && raw == content[..BLOCK_SIZE]
  {
    TwoContiguousPieces(content);
    var run := RunBlocks(start, 2);
    assert run[0] == start;
    assert e.blocks[run[0]] == Padded(Chunks(content, BLOCK_SIZE)[0 + 0]);
    raw := content[..BLOCK_SIZE];
    assert RunBlocks(start, 1) == [start];
    assert ReadBlocks(e, [start]) == e.blocks[start];
  }
}
