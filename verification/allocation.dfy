/** The three allocation strategies of DiskInterfaceUtils.java: writing a
    file's content block by block, reading it back, and deleting it.

    getRandomBlock's sampling loop is replaced by an oracle: during one
    write, `draws(k)` is the draw behind the k-th call (counted from 0), and
    RandomBlock turns it into a free block. */
module Allocation {
  import opened Common
  import opened BlockStore
  import opened Geometry
  import opened FreeSpace
  import opened Names
  import opened Records
  import opened Fat

  /** The blocks of a list, as a set. */
  function Blocks(used: seq<int>): set<int> {
    set k | 0 <= k < |used| :: used[k]
  }

  /** Every block of the list is a data block. */
  predicate DataBlocks(used: seq<int>) {
    forall k :: 0 <= k < |used| ==> 2 <= used[k] < NUM_BLOCKS
  }

  /** Content cut into the pieces the byte loops store one per block. */
  predicate FitPieces(pieces: seq<seq<Byte>>) {
    forall k :: 0 <= k < |pieces| ==> |pieces[k]| <= BLOCK_SIZE
  }

  // ---------------------------------------------------------------------
  // The byte loops

  /** The disk after a byte loop, and the blocks the loop stored to. */
  datatype Placement = Placement(disk: Disk, used: seq<int>)

  /** The byte loop of writeChained and writeIndexed from piece `i` on.
      Piece `i` goes to offset 0 of `block`; the first byte of each later
      piece draws a fresh block on the disk as it then is, with draws
      `next`, `next + 1`, ... Gives the disk and the blocks used, in order.
      A draw that finds no free block yields -1, and the next store into
      block -1 fails. */
  function PlaceRandom(d: Disk, pieces: seq<seq<Byte>>, i: nat, block: int, draws: nat -> nat, next: nat)
    : (r: Result<Placement>)
    requires Formatted(d) && 2 <= block < NUM_BLOCKS && i < |pieces| && FitPieces(pieces)
    ensures r.Err? ==> r.fault == BadAddress
    ensures r.Ok? ==> Formatted(r.value.disk) && |r.value.used| == |pieces| - i && r.value.used[0] == block
    ensures r.Ok? ==> DataBlocks(r.value.used)
    decreases |pieces| - i
  {
    var d1 := WriteRun(d, block, 0, pieces[i]);
    if i + 1 == |pieces| then Ok(Placement(d1, [block]))
    else
      var b := RandomBlock(d1, draws(next));
      if b == -1 then Err(BadAddress)
      else
        var rest := PlaceRandom(d1, pieces, i + 1, b, draws, next + 1);
        if rest.Err? then rest
        else
          DataBlocksCons(block, rest.value.used);
          Ok(Placement(rest.value.disk, [block] + rest.value.used))
  }

  /** The byte loop over the whole content, cut into `pieces`, from the
      start block on; empty content stores nothing and lists the start
      block alone. */
  function PlaceContent(d: Disk, pieces: seq<seq<Byte>>, start: int, draws: nat -> nat, next: nat)
    : (r: Result<Placement>)
    requires Formatted(d) && 2 <= start < NUM_BLOCKS && FitPieces(pieces)
    ensures r.Ok? ==> Formatted(r.value.disk) && |r.value.used| > 0 && DataBlocks(r.value.used)
    ensures r.Ok? ==> r.value.used[0] == start && |r.value.used| == Max(|pieces|, 1)
    ensures r.Err? ==> r.fault == BadAddress
  {
    if |pieces| == 0 then
      assert DataBlocks([start]);
      Ok(Placement(d, [start]))
    else PlaceRandom(d, pieces, 0, start, draws, next)
  }

  /** With as many free blocks as pieces still to store, every draw finds
      a free block and the loop completes. */
  lemma {:induction false} PlaceRandomSucceeds(d: Disk, pieces: seq<seq<Byte>>, i: nat, block: int, draws: nat -> nat, next: nat)
    requires Formatted(d) && 2 <= block < NUM_BLOCKS && i < |pieces| && FitPieces(pieces)
    requires NumFreeBlocks(d) >= |pieces| - i
    ensures PlaceRandom(d, pieces, i, block, draws, next).Ok?
    decreases |pieces| - i
  {
    if i + 1 < |pieces| {
      var d1 := WriteRun(d, block, 0, pieces[i]);
      WriteRunAgrees(d, block, 0, pieces[i]);
      StoreLosesAtMostOneFree(d, d1, block);
      PlaceRandomSucceeds(d1, pieces, i + 1, RandomBlock(d1, draws(next)), draws, next + 1);
    }
  }

  lemma DataBlocksCons(block: int, used: seq<int>)
    requires 2 <= block < NUM_BLOCKS && DataBlocks(used)
    ensures DataBlocks([block] + used)
    ensures Blocks([block] + used) == {block} + Blocks(used)
  {
    var s := [block] + used;
    forall k | 0 <= k < |s|
      ensures 2 <= s[k] < NUM_BLOCKS
    {
      if k > 0 {
        assert s[k] == used[k - 1];
      }
    }
    forall x | x in Blocks(used)
      ensures x in Blocks(s)
    {
      var k :| 0 <= k < |used| && used[k] == x;
      assert s[k + 1] == x;
    }
    assert s[0] == block;
  }

  /** Data blocks leave the FAT and the bitmap alone. */
  lemma DataBlocksAvoidTables(used: seq<int>)
    requires DataBlocks(used)
    ensures 0 !in Blocks(used) && 1 !in Blocks(used)
  {
  }

  /** No block appears twice in the list. */
  predicate Distinct(used: seq<int>) {
    forall p, q :: 0 <= p < q < |used| ==> used[p] != used[q]
  }

  /** Every piece but the last holds a nonzero byte, so that the block it
      lands in is no longer free when the next block is drawn. */
  predicate NonzeroPieces(pieces: seq<seq<Byte>>, i: nat) {
    forall k :: i <= k < |pieces| - 1 ==> !AllZero(pieces[k])
  }

  /** A free block after `piece` is stored at its start: the piece, then zeros. */
  function Padded(piece: seq<Byte>): (b: seq<Byte>)
    requires |piece| <= BLOCK_SIZE
    ensures |b| == BLOCK_SIZE && b[..|piece|] == piece && AllZero(b[|piece|..])
  {
    piece + Zeros(BLOCK_SIZE - |piece|)
  }

  /** One turn of the random byte loop, unfolded: the store of piece `i`,
      the draw, and the rest of the loop. */
  lemma PlaceRandomStep(d: Disk, pieces: seq<seq<Byte>>, i: nat, block: int, draws: nat -> nat, next: nat)
    returns (d1: Disk, b: int, rest: Placement)
    requires Formatted(d) && 2 <= block < NUM_BLOCKS && i < |pieces| && FitPieces(pieces)
    requires IsBlockEmpty(d, block) && PlaceRandom(d, pieces, i, block, draws, next).Ok?
    ensures Formatted(d1) && Agree(d, d1, {block}) && d1.blocks[block] == Padded(pieces[i])
    ensures i + 1 == |pieces| ==> PlaceRandom(d, pieces, i, block, draws, next).value == Placement(d1, [block])
    ensures i + 1 < |pieces| ==>
              && 2 <= b < NUM_BLOCKS && IsBlockEmpty(d1, b)
              && PlaceRandom(d1, pieces, i + 1, b, draws, next + 1).Ok?
              && rest == PlaceRandom(d1, pieces, i + 1, b, draws, next + 1).value
              && PlaceRandom(d, pieces, i, block, draws, next).value == Placement(rest.disk, [block] + rest.used)
  {
    d1 := WriteRun(d, block, 0, pieces[i]);
    WriteRunAgrees(d, block, 0, pieces[i]);
    WriteRunContent(d, block, 0, pieces[i]);
    StoreIntoFree(d.blocks[block], pieces[i]);
    b := RandomBlock(d1, draws(next));
    if i + 1 < |pieces| {
      rest := PlaceRandom(d1, pieces, i + 1, b, draws, next + 1).value;
    } else {
      rest := Placement(d1, [block]);
    }
  }

  /** A piece stored at the start of an all-zero block leaves the padded piece. */
  lemma StoreIntoFree(blk: seq<Byte>, piece: seq<Byte>)
    requires |blk| == BLOCK_SIZE && AllZero(blk) && |piece| <= BLOCK_SIZE
    ensures blk[..0] + piece + blk[|piece|..] == Padded(piece)
  {
    assert blk[|piece|..] == Zeros(BLOCK_SIZE - |piece|);
  }

  /** What the random byte loop does: it only stores into the blocks it
      lists, and every one of them was free beforehand. */
  lemma {:induction false} PlaceRandomFrame(d: Disk, pieces: seq<seq<Byte>>, i: nat, block: int, draws: nat -> nat, next: nat)
    requires Formatted(d) && 2 <= block < NUM_BLOCKS && i < |pieces| && FitPieces(pieces)
    requires IsBlockEmpty(d, block) && PlaceRandom(d, pieces, i, block, draws, next).Ok?
    ensures var p := PlaceRandom(d, pieces, i, block, draws, next).value;
            && Agree(d, p.disk, Blocks(p.used))
            && (forall k :: 0 <= k < |p.used| ==> IsBlockEmpty(d, p.used[k]))
    decreases |pieces| - i
  {
    var d1, b, rest := PlaceRandomStep(d, pieces, i, block, draws, next);
    if i + 1 == |pieces| {
      assert Blocks([block]) == {block};
    } else {
      PlaceRandomFrame(d1, pieces, i + 1, b, draws, next + 1);
      FrameStep(d, d1, block, pieces[i], rest);
    }
  }

  lemma FrameStep(d: Disk, d1: Disk, block: int, piece: seq<Byte>, rest: Placement)
    requires Formatted(d) && Formatted(d1) && Formatted(rest.disk) && 2 <= block < NUM_BLOCKS && |piece| <= BLOCK_SIZE
    requires Agree(d, d1, {block}) && d1.blocks[block] == Padded(piece) && IsBlockEmpty(d, block)
    requires DataBlocks(rest.used) && (forall k :: 0 <= k < |rest.used| ==> IsBlockEmpty(d1, rest.used[k]))
    requires Agree(d1, rest.disk, Blocks(rest.used))
    ensures Agree(d, rest.disk, Blocks([block] + rest.used))
    ensures forall k :: 0 <= k < |[block] + rest.used| ==> IsBlockEmpty(d, ([block] + rest.used)[k])
  {
    DataBlocksCons(block, rest.used);
    StepFacts(d, d1, rest.disk, block, piece, rest.used);
    AgreeTrans(d, d1, rest.disk, {block}, Blocks(rest.used));
  }

  /** The placement lists distinct blocks, the k-th of which holds piece
      `i + k` padded with zeros. */
  predicate HoldsPieces(p: Placement, pieces: seq<seq<Byte>>, i: nat) {
    && Formatted(p.disk) && DataBlocks(p.used) && FitPieces(pieces)
    && i + |p.used| <= |pieces| && Distinct(p.used)
    && forall k :: 0 <= k < |p.used| ==> p.disk.blocks[p.used[k]] == Padded(pieces[i + k])
  }

  /** When each piece but the last holds data, no block is drawn twice and
      each listed block ends up holding its piece padded with zeros. */
  lemma {:induction false} PlaceRandomContent(d: Disk, pieces: seq<seq<Byte>>, i: nat, block: int, draws: nat -> nat, next: nat)
    requires Formatted(d) && 2 <= block < NUM_BLOCKS && i < |pieces| && FitPieces(pieces)
    requires IsBlockEmpty(d, block) && PlaceRandom(d, pieces, i, block, draws, next).Ok?
    requires NonzeroPieces(pieces, i)
    ensures HoldsPieces(PlaceRandom(d, pieces, i, block, draws, next).value, pieces, i)
    decreases |pieces| - i
  {
    var d1, b, rest := PlaceRandomStep(d, pieces, i, block, draws, next);
    if i + 1 < |pieces| {
      PlaceRandomFrame(d1, pieces, i + 1, b, draws, next + 1);
      PlaceRandomContent(d1, pieces, i + 1, b, draws, next + 1);
      StepFacts(d, d1, rest.disk, block, pieces[i], rest.used);
      ConsFacts(rest, block, pieces, i);
    } else {
      assert Placement(d1, [block]).used[0] == block;
    }
  }

  /** One step of the loop seen from the disk before it: the blocks drawn
      later were free then too, and a piece with data keeps its block from
      being drawn again. */
  lemma StepFacts(d: Disk, d1: Disk, e: Disk, block: int, piece: seq<Byte>, used: seq<int>)
    requires Formatted(d) && Formatted(d1) && Formatted(e) && 2 <= block < NUM_BLOCKS && |piece| <= BLOCK_SIZE
    requires Agree(d, d1, {block}) && d1.blocks[block] == Padded(piece) && IsBlockEmpty(d, block)
    requires DataBlocks(used) && (forall k :: 0 <= k < |used| ==> IsBlockEmpty(d1, used[k]))
    requires Agree(d1, e, Blocks(used))
    ensures forall k :: 0 <= k < |[block] + used| ==> IsBlockEmpty(d, ([block] + used)[k])
    ensures !AllZero(piece) ==> block !in Blocks(used) && e.blocks[block] == Padded(piece)
  {
    forall k | 0 <= k < |[block] + used|
      ensures IsBlockEmpty(d, ([block] + used)[k])
    {
      if k > 0 {
        var u := used[k - 1];
        assert ([block] + used)[k] == u;
        if u != block {
          assert d1.blocks[u] == d.blocks[u];
        }
      }
    }
    if !AllZero(piece) {
      assert !AllZero(d1.blocks[block]) by {
        var j :| 0 <= j < |piece| && piece[j] != 0;
        assert d1.blocks[block][j] == piece[j];
      }
    }
  }

  /** Gluing the first block onto the rest of the list. */
  lemma ConsFacts(rest: Placement, block: int, pieces: seq<seq<Byte>>, i: nat)
    requires 2 <= block < NUM_BLOCKS && HoldsPieces(rest, pieces, i + 1)
    requires rest.disk.blocks[block] == Padded(pieces[i]) && block !in Blocks(rest.used)
    ensures HoldsPieces(Placement(rest.disk, [block] + rest.used), pieces, i)
  {
    var used := rest.used;
    var s := [block] + used;
    DataBlocksCons(block, used);
    forall p, q | 0 <= p < q < |s|
      ensures s[p] != s[q]
    {
      if p == 0 {
        assert s[q] == used[q - 1];
      } else {
        assert s[p] == used[p - 1] && s[q] == used[q - 1];
      }
    }
    forall k | 0 <= k < |s|
      ensures rest.disk.blocks[s[k]] == Padded(pieces[i + k])
    {
      if k > 0 {
        assert s[k] == used[k - 1];
      }
    }
  }

  // ---------------------------------------------------------------------
  // Reading whole blocks

  /** Whole blocks read one after the other, as the indexed and contiguous
      branches of getFileBytesFromDisk read them. */
  function ReadBlocks(d: Disk, list: seq<int>): (r: seq<Byte>)
    requires Formatted(d) && forall k :: 0 <= k < |list| ==> 0 <= list[k] < NUM_BLOCKS
    ensures |r| == |list| * BLOCK_SIZE
    decreases |list|
  {
    if |list| == 0 then [] else d.blocks[list[0]] + ReadBlocks(d, list[1..])
  }

  /** The pieces of content cut into whole blocks: every one but the last
      fills its block. */
  predicate BlockPieces(pieces: seq<seq<Byte>>) {
    && |pieces| > 0 && FitPieces(pieces)
    && forall k :: 0 <= k < |pieces| - 1 ==> |pieces[k]| == BLOCK_SIZE
  }

  /** Reading back the blocks that hold the pieces gives the content from
      piece `k` on, then the zeros that pad the last block. */
  lemma {:induction false} ReadBlocksOfHeld(d: Disk, used: seq<int>, pieces: seq<seq<Byte>>, k: nat)
    requires Formatted(d) && DataBlocks(used) && |used| == |pieces| && BlockPieces(pieces) && k < |used|
    requires forall j :: 0 <= j < |used| ==> d.blocks[used[j]] == Padded(pieces[j])
    ensures ReadBlocks(d, used[k..]) == Concat(pieces[k..]) + Zeros(BLOCK_SIZE - |pieces[|pieces| - 1]|)
    decreases |used| - k
  {
    assert used[k..][1..] == used[k + 1..] && pieces[k..][1..] == pieces[k + 1..];
    if k + 1 == |used| {
      assert Concat(pieces[k..]) == pieces[k] + Concat([]);
    } else {
      ReadBlocksOfHeld(d, used, pieces, k + 1);
      assert Padded(pieces[k]) == pieces[k];
    }
  }

  /** Reading back, in order, blocks that hold the 512-byte pieces of
      `content` gives the content and the zeros that pad its last block. */
  lemma ReadAllHeld(d: Disk, content: seq<Byte>, used: seq<int>)
    requires Formatted(d) && DataBlocks(used) && |content| > 0
    requires |used| == |Chunks(content, BLOCK_SIZE)|
    requires forall j :: 0 <= j < |used| ==> d.blocks[used[j]] == Padded(Chunks(content, BLOCK_SIZE)[j])
    ensures var pieces := Chunks(content, BLOCK_SIZE);
            ReadBlocks(d, used) == content + Zeros(BLOCK_SIZE - |pieces[|pieces| - 1]|)
  {
    var pieces := Chunks(content, BLOCK_SIZE);
    assert BlockPieces(pieces);
    ReadBlocksOfHeld(d, used, pieces, 0);
    assert used[0..] == used && pieces[0..] == pieces;
  }

  // ---------------------------------------------------------------------
  // Placement on enough free blocks

  /** The first block drawn from a disk with a free block, and the disk
      after it is flagged, which has the same free blocks. */
  lemma FlagDrawn(d: Disk, draw: nat) returns (start: int, d1: Disk)
    requires Formatted(d) && NumFreeBlocks(d) > 0
    ensures start == RandomBlock(d, draw) && 2 <= start < NUM_BLOCKS
    ensures d1 == Write(d, 1, start, 1) && Formatted(d1) && Agree(d, d1, {})
    ensures NumFreeBlocks(d1) == NumFreeBlocks(d) && IsBlockEmpty(d1, start)
  {
    start := RandomBlock(d, draw);
    d1 := Write(d, 1, start, 1);
    FlagWriteAgrees(d, start, 1);
    AgreeKeepsFree(d, d1);
  }

  /** With as many free blocks as pieces, each piece but the last holding a
      nonzero byte, the random placement succeeds on distinct blocks that
      were free, each holding its piece, and changes no other block. */
  lemma PlaceOnFree(d: Disk, pieces: seq<seq<Byte>>, start: int, draws: nat -> nat, next: nat)
    returns (p: Placement)
    requires Formatted(d) && 2 <= start < NUM_BLOCKS && IsBlockEmpty(d, start) && |pieces| > 0
    requires FitPieces(pieces) && NonzeroPieces(pieces, 0) && NumFreeBlocks(d) >= |pieces|
    ensures PlaceContent(d, pieces, start, draws, next) == Ok(p)
    ensures |p.used| == |pieces| && HoldsPieces(p, pieces, 0) && Agree(d, p.disk, Blocks(p.used))
  {
    PlaceRandomSucceeds(d, pieces, 0, start, draws, next);
    p := PlaceRandom(d, pieces, 0, start, draws, next).value;
    PlaceRandomContent(d, pieces, 0, start, draws, next);
    PlaceRandomFrame(d, pieces, 0, start, draws, next);
  }
}
