/** Indexed allocation: writeIndexed, and the index-block walk of the indexed
    branch of getFileBytesFromDisk. A randomly drawn index block lists, one
    byte each, the blocks holding the file; each of those holds 512 bytes of
    content. */
module IndexedFiles {
  import opened Common
  import opened BlockStore
  import opened Geometry
  import opened FreeSpace
  import opened Fat
  import opened Allocation

  // ---------------------------------------------------------------------
  // The index loop

  /** One turn of writeIndexed's index loop: the number of block `i` of the
      list goes into byte `i` of the index block, then block `i` is
      flagged. */
  function IndexTurn(d: Disk, index: int, used: seq<int>, i: nat): (e: Disk)
    requires Formatted(d) && 2 <= index < NUM_BLOCKS && DataBlocks(used) && i < |used| && i < BLOCK_SIZE
    ensures Formatted(e)
  {
    Write(Write(d, index, i, ToByte(used[i])), 1, used[i], 1)
  }

  /** The first `n` turns of the index loop, defined from the end so that
      each unfolding adds one turn on top of the earlier ones. */
  function IndexLoop(d: Disk, index: int, used: seq<int>, n: nat): (e: Disk)
    requires Formatted(d) && 2 <= index < NUM_BLOCKS && DataBlocks(used) && n <= |used| <= BLOCK_SIZE
    ensures Formatted(e) && Agree(d, e, {index})
    decreases n
  {
    if n == 0 then
      AgreeRefl(d);
      AgreeWiden(d, d, {}, {index});
      d
    else
      var e := IndexLoop(d, index, used, n - 1);
      IndexTurnEffect(e, index, used, n - 1);
      AgreeTrans(d, e, IndexTurn(e, index, used, n - 1), {index}, {index});
      assert {index} + {index} == {index};
      IndexTurn(e, index, used, n - 1)
  }

  /** One turn stores one entry into the index block and changes no other
      block but the bitmap. */
  lemma IndexTurnEffect(d: Disk, index: int, used: seq<int>, i: nat)
    requires Formatted(d) && 2 <= index < NUM_BLOCKS && DataBlocks(used) && i < |used| && i < BLOCK_SIZE
    ensures Agree(d, IndexTurn(d, index, used, i), {index})
    ensures IndexTurn(d, index, used, i).blocks[index] == Poke(d.blocks[index], i, ToByte(used[i]))
  {
    var d1 := Write(d, index, i, ToByte(used[i]));
    WriteAgrees(d, index, i, ToByte(used[i]));
    WriteEffect(d, index, i, ToByte(used[i]));
    FlagWriteAgrees(d1, used[i], 1);
    AgreeTrans(d, d1, IndexTurn(d, index, used, i), {index}, {});
    assert {index} + {} == {index};
  }

  /** The bytes of an index block that lists `used`. Data block numbers
      fit a byte, so a list of data blocks is stored as it is, and none of
      its entries is the zero that ends the list on reading. */
  function Entries(used: seq<int>): (r: seq<Byte>)
    ensures |r| == |used| && forall k :: 0 <= k < |used| ==> r[k] == ToByte(used[k])
    ensures DataBlocks(used) ==> r == used && forall k :: 0 <= k < |r| ==> r[k] != 0
  {
    seq(|used|, k requires 0 <= k < |used| => ToByte(used[k]))
  }

  /** After `n` turns the index block starts with the first `n` entries and
      keeps its old bytes after them. */
  lemma {:induction false} IndexLoopBlock(d: Disk, index: int, used: seq<int>, n: nat)
    requires Formatted(d) && 2 <= index < NUM_BLOCKS && DataBlocks(used) && n <= |used| <= BLOCK_SIZE
    ensures IndexLoop(d, index, used, n).blocks[index] == Entries(used[..n]) + d.blocks[index][n..]
    decreases n
  {
    if n == 0 {
      assert d.blocks[index][0..] == d.blocks[index];
    } else {
      IndexLoopBlock(d, index, used, n - 1);
      IndexLoopBlockStep(d, index, used, n);
    }
  }

  /** The turn that stores entry `n - 1` extends the listed prefix by one. */
  lemma IndexLoopBlockStep(d: Disk, index: int, used: seq<int>, n: nat)
    requires Formatted(d) && 2 <= index < NUM_BLOCKS && DataBlocks(used) && 0 < n <= |used| <= BLOCK_SIZE
    requires IndexLoop(d, index, used, n - 1).blocks[index] == Entries(used[..n - 1]) + d.blocks[index][n - 1..]
    ensures IndexLoop(d, index, used, n).blocks[index] == Entries(used[..n]) + d.blocks[index][n..]
  {
    var e := IndexLoop(d, index, used, n - 1);
    assert IndexLoop(d, index, used, n) == IndexTurn(e, index, used, n - 1);
    IndexTurnEffect(e, index, used, n - 1);
    EntriesStep(used, n, d.blocks[index]);
  }

  /** Storing entry `n - 1` after the first `n - 1` extends the listed
      prefix by one. */
  lemma EntriesStep(used: seq<int>, n: nat, blk: seq<Byte>)
    requires 0 < n <= |used| && n <= |blk|
    ensures Poke(Entries(used[..n - 1]) + blk[n - 1..], n - 1, ToByte(used[n - 1])) == Entries(used[..n]) + blk[n..]
  {
    var a := Poke(Entries(used[..n - 1]) + blk[n - 1..], n - 1, ToByte(used[n - 1]));
    var b := Entries(used[..n]) + blk[n..];
    forall j | 0 <= j < |blk|
      ensures a[j] == b[j]
    {
      if j < n - 1 {
        assert used[..n][j] == used[..n - 1][j];
      }
    }
  }

  // ---------------------------------------------------------------------
  // writeIndexed

  /** What writeIndexed leaves before the FAT update: the index block, and
      the disk with the blocks used listed in the order of the content. */
  datatype IndexedStore = IndexedStore(index: int, placed: Placement)

  /** writeIndexed up to the FAT update. The index block is drawn with
      `draws(0)` and flagged, but stays empty until the index loop, so the
      start block drawn next with `draws(1)`, and any later draw, can be the
      index block itself. The byte loop stores 512-byte pieces with draws
      from 2 on; the index loop then lists the blocks used, and fails past
      the end of the index block. */
  function StoreIndexed(d: Disk, content: seq<Byte>, draws: nat -> nat): (r: Result<IndexedStore>)
    requires Formatted(d)
    ensures r.Ok? ==> 2 <= r.value.index < NUM_BLOCKS && Formatted(r.value.placed.disk)
    ensures r.Ok? ==> |r.value.placed.used| > 0 && DataBlocks(r.value.placed.used)
    ensures r.Err? ==> r.fault == BadAddress
  {
    var index := RandomBlock(d, draws(0));
    if index == -1 then Err(BadAddress)
    else
      var d1 := Write(d, 1, index, 1);
      var start := RandomBlock(d1, draws(1));
      if start == -1 then Err(BadAddress)
      else
        match PlaceContent(d1, Chunks(content, BLOCK_SIZE), start, draws, 2)
        case Err(f) => Err(f)
        case Ok(p) => ListBlocks(p, index)
  }

  /** The index loop over the blocks of a placement; a list longer than the
      index block fails. */
  function ListBlocks(p: Placement, index: int): (r: Result<IndexedStore>)
    requires Formatted(p.disk) && DataBlocks(p.used) && |p.used| > 0 && 2 <= index < NUM_BLOCKS
    ensures r.Err? <==> |p.used| > BLOCK_SIZE
    ensures r.Err? ==> r.fault == BadAddress
    ensures r.Ok? ==> r.value.index == index && r.value.placed.used == p.used && Formatted(r.value.placed.disk)
    ensures r.Ok? ==> Agree(p.disk, r.value.placed.disk, {index})
  {
    if |p.used| > BLOCK_SIZE then Err(BadAddress)
    else Ok(IndexedStore(index, Placement(IndexLoop(p.disk, index, p.used, |p.used|), p.used)))
  }

  /** writeIndexed: nothing happens unless there are at least `required`
      free blocks; otherwise the file is stored and its record appended to
      the FAT with the index block. */
  function WriteIndexed(d: Disk, name: seq<Byte>, content: seq<Byte>, required: int, draws: nat -> nat)
    : (r: Result<Disk>)
    requires Formatted(d)
    ensures NumFreeBlocks(d) < required ==> r == Ok(d)
    ensures r.Err? ==> r.fault == BadAddress
    ensures r.Ok? ==> Formatted(r.value)
  {
    if NumFreeBlocks(d) < required then Ok(d)
    else
      match StoreIndexed(d, content, draws)
      case Err(f) => Err(f)
      case Ok(s) => WriteFileToFAT(s.placed.disk, Indexed, name, s.index, required)
  }

  // ---------------------------------------------------------------------
  // Reading through the index block

  /** The list the indexed read takes from an index block: its first ten
      bytes up to the first zero. */
  function IndexList(blk: seq<Byte>): (r: seq<Byte>)
    requires |blk| == BLOCK_SIZE
    ensures |r| <= INDEX_SLOTS
  {
    UntilZero(blk[..INDEX_SLOTS])
  }

  /** The indexed branch of getFileBytesFromDisk: every listed block, whole,
      in list order. An empty list fails, as taking its first entry does. */
  function ReadIndexed(d: Disk, index: Byte): (r: Result<seq<Byte>>)
    requires Formatted(d)
    ensures r.Err? <==> |IndexList(d.blocks[index])| == 0
    ensures r.Err? ==> r.fault == EmptyIndexBlock
    ensures r.Ok? ==> |r.value| == |IndexList(d.blocks[index])| * BLOCK_SIZE
  {
    var list := IndexList(d.blocks[index]);
    if |list| == 0 then Err(EmptyIndexBlock) else Ok(ReadBlocks(d, list))
  }

  /** An index block written for at most ten blocks, which stays zero after
      the entries, lists exactly those blocks. */
  lemma IndexListOfEntries(blk: seq<Byte>, used: seq<int>)
    requires |blk| == BLOCK_SIZE && DataBlocks(used) && |used| <= INDEX_SLOTS
    requires blk[..|used|] == Entries(used) && AllZero(blk[|used|..])
    ensures IndexList(blk) == used
  {
    var head := blk[..INDEX_SLOTS];
    assert head == Entries(used) + Zeros(INDEX_SLOTS - |used|) by {
      forall j | 0 <= j < INDEX_SLOTS
        ensures head[j] == (Entries(used) + Zeros(INDEX_SLOTS - |used|))[j]
      {
        if j >= |used| {
          assert head[j] == blk[|used|..][j - |used|];
        } else {
          assert head[j] == blk[..|used|][j];
        }
      }
    }
    UntilZeroOfPadded(Entries(used), INDEX_SLOTS - |used|);
    assert Entries(used) == used;
  }

  /** An index block that starts with the entries of ten or more data
      blocks lists only the first ten of them. */
  lemma IndexListOfLongEntries(blk: seq<Byte>, used: seq<int>)
    requires |blk| == BLOCK_SIZE && DataBlocks(used) && INDEX_SLOTS <= |used| <= BLOCK_SIZE
    requires blk[..|used|] == Entries(used)
    ensures IndexList(blk) == used[..INDEX_SLOTS]
  {
    var head := blk[..INDEX_SLOTS];
    assert head == used[..INDEX_SLOTS] by {
      forall j | 0 <= j < INDEX_SLOTS
        ensures head[j] == used[j]
      {
        assert head[j] == blk[..|used|][j];
      }
    }
  }

  // ---------------------------------------------------------------------
  // What writeIndexed leaves

  /** The index block holds the list of the blocks used, zeros after it,
      and the blocks used hold the pieces. */
  predicate IndexedHolds(s: IndexedStore, pieces: seq<seq<Byte>>) {
    && HoldsPieces(s.placed, pieces, 0) && 2 <= s.index < NUM_BLOCKS
    && |s.placed.used| == |pieces| <= BLOCK_SIZE
    && s.placed.disk.blocks[s.index] == Entries(s.placed.used) + Zeros(BLOCK_SIZE - |s.placed.used|)
  }

  /** The index loop over a placement made on a copy of `d` with the free
      index block flagged. Unless the placement drew the index block
      itself, the index block ends up listing the blocks used and the
      pieces stay where they are. */
  lemma ListFacts(d: Disk, d1: Disk, p: Placement, index: int, pieces: seq<seq<Byte>>) returns (s: IndexedStore)
    requires Formatted(d) && Formatted(d1) && Agree(d, d1, {}) && 2 <= index < NUM_BLOCKS && IsBlockEmpty(d, index)
    requires Agree(d1, p.disk, Blocks(p.used)) && HoldsPieces(p, pieces, 0) && 0 < |p.used| == |pieces| <= BLOCK_SIZE
    ensures ListBlocks(p, index) == Ok(s) && s.index == index && s.placed.used == p.used
    ensures Agree(d, s.placed.disk, {index} + Blocks(p.used))
    ensures s.placed.disk.blocks[index][..|p.used|] == Entries(p.used)
    ensures index !in Blocks(p.used) ==> IndexedHolds(s, pieces)
  {
    var n := |p.used|;
    var list := IndexLoop(p.disk, index, p.used, n);
    IndexLoopBlock(p.disk, index, p.used, n);
    assert p.used[..n] == p.used;
    s := IndexedStore(index, Placement(list, p.used));
    AgreeTrans(d, d1, p.disk, {}, Blocks(p.used));
    AgreeTrans(d, p.disk, list, {} + Blocks(p.used), {index});
    assert {} + Blocks(p.used) + {index} == {index} + Blocks(p.used);
    if index !in Blocks(p.used) {
      assert p.disk.blocks[index] == d.blocks[index];
      assert p.used[..n] == p.used;
      assert p.disk.blocks[index][n..] == Zeros(BLOCK_SIZE - n);
      forall k | 0 <= k < n
        ensures list.blocks[p.used[k]] == Padded(pieces[k])
      {
        assert p.used[k] in Blocks(p.used);
        assert p.disk.blocks[p.used[k]] == Padded(pieces[0 + k]);
      }
    }
  }

  /** With enough free blocks and each piece but the last holding a nonzero
      byte, writeIndexed's stores succeed: the index block is the first
      draw, the start block the second, only the index block and the blocks
      used change, and unless the placement drew the index block, the index
      block lists the blocks that hold the pieces. */
  lemma StoreIndexedOnFree(d: Disk, content: seq<Byte>, draws: nat -> nat) returns (s: IndexedStore)
    requires Formatted(d) && |content| > 0
    requires NonzeroPieces(Chunks(content, BLOCK_SIZE), 0)
    requires NumFreeBlocks(d) >= |Chunks(content, BLOCK_SIZE)|
    ensures StoreIndexed(d, content, draws) == Ok(s)
    ensures s.index == RandomBlock(d, draws(0)) && 2 <= s.index < NUM_BLOCKS
    ensures s.placed.used[0] == RandomBlock(Write(d, 1, s.index, 1), draws(1))
    ensures |s.placed.used| == |Chunks(content, BLOCK_SIZE)| && DataBlocks(s.placed.used)
    ensures Formatted(s.placed.disk) && Agree(d, s.placed.disk, {s.index} + Blocks(s.placed.used))
    ensures s.placed.disk.blocks[s.index][..|s.placed.used|] == Entries(s.placed.used)
    ensures s.index !in Blocks(s.placed.used) ==> IndexedHolds(s, Chunks(content, BLOCK_SIZE))
  {
    var pieces := Chunks(content, BLOCK_SIZE);
    var index, d1 := FlagDrawn(d, draws(0));
    var start := RandomBlock(d1, draws(1));
    var p := PlaceOnFree(d1, pieces, start, draws, 2);
    s := ListFacts(d, d1, p, index, pieces);
  }

  /** The index block stays empty after it is flagged, so the draw for the
      start block can pick it again: for any draws, replacing only the
      second one gives a store whose first piece lands on the index block,
      which the index loop then overwrites with the list. */
  lemma IndexBlockCanBeDrawnAgain(d: Disk, content: seq<Byte>, draws: nat -> nat)
    returns (again: nat -> nat, s: IndexedStore)
    requires Formatted(d) && |content| > 0
    requires NonzeroPieces(Chunks(content, BLOCK_SIZE), 0)
    requires NumFreeBlocks(d) >= |Chunks(content, BLOCK_SIZE)|
    ensures again(0) == draws(0) && forall k :: k >= 2 ==> again(k) == draws(k)
    ensures StoreIndexed(d, content, again) == Ok(s)
    ensures s.placed.used[0] == s.index && s.placed.disk.blocks[s.index][0] == s.index
  {
    var index, d1 := FlagDrawn(d, draws(0));
    var draw1 := RedrawOf(d1, index);
    again := SecondDraw(draws, draw1);
    s := CollidingStore(d, content, again, index);
  }

  /** The draws with the second one replaced. */
  function SecondDraw(draws: nat -> nat, draw1: nat): (again: nat -> nat)
    ensures again(1) == draw1 && forall k :: k != 1 ==> again(k) == draws(k)
  {
    k => if k == 1 then draw1 else draws(k)
  }

  /** A store whose second draw picks the index block again. */
  lemma CollidingStore(d: Disk, content: seq<Byte>, draws: nat -> nat, index: int) returns (s: IndexedStore)
    requires Formatted(d) && |content| > 0
    requires NonzeroPieces(Chunks(content, BLOCK_SIZE), 0)
    requires NumFreeBlocks(d) >= |Chunks(content, BLOCK_SIZE)|
    requires RandomBlock(d, draws(0)) == index && 2 <= index < NUM_BLOCKS
    requires RandomBlock(Write(d, 1, index, 1), draws(1)) == index
    ensures StoreIndexed(d, content, draws) == Ok(s)
    ensures s.index == index && s.placed.used[0] == index && s.placed.disk.blocks[index][0] == index
  {
    s := StoreIndexedOnFree(d, content, draws);
    EntryOfFirst(s.placed.disk.blocks[s.index], s.placed.used);
  }

  /** A draw that picks the given free block. */
  lemma RedrawOf(d: Disk, b: int) returns (draw: nat)
    requires Formatted(d) && 2 <= b < NUM_BLOCKS && IsBlockEmpty(d, b)
    ensures RandomBlock(d, draw) == b
  {
    RandomBlockReachesEveryFreeBlock(d, b);
    draw :| RandomBlock(d, draw) == b;
  }

  /** A block that starts with the entries of `used` holds the first block
      number at byte 0. */
  lemma EntryOfFirst(blk: seq<Byte>, used: seq<int>)
    requires 0 < |used| <= |blk| && blk[..|used|] == Entries(used) && 0 <= used[0] < NUM_BLOCKS
    ensures blk[0] == used[0]
  {
    assert blk[..|used|][0] == blk[0];
  }

  /** Once the count check passes and the stores succeed, writeIndexed
      appends the record with the index block to the disk the stores
      leave. */
  lemma WriteIndexedOf(d: Disk, name: seq<Byte>, content: seq<Byte>, required: int, draws: nat -> nat, s: IndexedStore)
    requires Formatted(d) && NumFreeBlocks(d) >= required && StoreIndexed(d, content, draws) == Ok(s)
    ensures Formatted(s.placed.disk)
    ensures WriteIndexed(d, name, content, required, draws) == WriteFileToFAT(s.placed.disk, Indexed, name, s.index, required)
  {
  }
}
