/** Contiguous allocation: writeContiguous, and the contiguous branch of
    getFileBytesFromDisk. A file occupies consecutive blocks from the start
    block getNextContigSpace picks; the record holds the start block and
    the count copyToDisk computed. */
module ContiguousFiles {
  import opened Common
  import opened BlockStore
  import opened Geometry
  import opened FreeSpace
  import opened Fat
  import opened Allocation

  /** The blocks start, start + 1, ..., start + n - 1. */
  function RunBlocks(start: int, n: nat): (r: seq<int>)
    ensures |r| == n && forall k :: 0 <= k < n ==> r[k] == start + k
  {
    seq(n, k requires 0 <= k < n => start + k)
  }

  /** A run inside the data blocks lists data blocks, each once. */
  lemma RunBlocksAreData(start: int, n: nat)
    requires 2 <= start && start + n <= NUM_BLOCKS
    ensures DataBlocks(RunBlocks(start, n)) && Distinct(RunBlocks(start, n))
    ensures forall x :: x in Blocks(RunBlocks(start, n)) <==> start <= x < start + n
  {
    var r := RunBlocks(start, n);
    forall x | start <= x < start + n
      ensures x in Blocks(r)
    {
      assert r[x - start] == x;
    }
  }

  /** A run is its first block followed by the rest of the run. */
  lemma RunBlocksCons(start: int, n: nat)
    requires n > 0
    ensures RunBlocks(start, n) == [start] + RunBlocks(start + 1, n - 1)
  {
  }

  // ---------------------------------------------------------------------
  // The byte loop and the flag loop

  /** The byte loop of writeContiguous from piece `i` on. Piece `i` goes to
      offset 0 of `block`; the first byte of each later piece moves on to
      the next block and flags it first. Storing into a block past the last
      one fails. */
  function PlaceRun(d: Disk, pieces: seq<seq<Byte>>, i: nat, block: int): (r: Result<Disk>)
    requires Formatted(d) && 2 <= block && i < |pieces| && FitPieces(pieces)
    ensures r.Err? <==> block + |pieces| - i > NUM_BLOCKS
    ensures r.Err? ==> r.fault == BadAddress
    ensures r.Ok? ==> Formatted(r.value)
    decreases |pieces| - i
  {
    if block >= NUM_BLOCKS then Err(BadAddress)
    else
      var d1 := WriteRun(d, block, 0, pieces[i]);
      if i + 1 == |pieces| then Ok(d1)
      else PlaceRun(Write(d1, 1, block + 1, 1), pieces, i + 1, block + 1)
  }

  /** The whole byte loop: empty content stores nothing. */
  function PlaceAll(d: Disk, pieces: seq<seq<Byte>>, start: int): (r: Result<Disk>)
    requires Formatted(d) && 2 <= start && FitPieces(pieces)
    ensures r.Err? <==> |pieces| > 0 && start + |pieces| > NUM_BLOCKS
    ensures r.Err? ==> r.fault == BadAddress
    ensures r.Ok? ==> Formatted(r.value)
  {
    if |pieces| == 0 then Ok(d) else PlaceRun(d, pieces, 0, start)
  }

  /** The first `n` turns of the flag loop: the flags of blocks start,
      ..., start + n - 1 set. */
  function FlagRun(d: Disk, start: int, n: int): (e: Disk)
    requires Formatted(d) && 0 <= start && (n <= 0 || start + n <= BLOCK_SIZE)
    ensures Formatted(e)
    ensures forall x :: 0 <= x < NUM_BLOCKS && x != 1 ==> e.blocks[x] == d.blocks[x]
    decreases n
  {
    if n <= 0 then d
    else
      var e := FlagRun(d, start, n - 1);
      WriteEffect(e, 1, start + n - 1, 1);
      Write(e, 1, start + n - 1, 1)
  }

  /** Within the block count the flag loop changes no block but the
      bitmap, and leaves every flag of the run set. */
  lemma {:induction false} FlagRunEffect(d: Disk, start: int, n: int)
    requires Formatted(d) && 2 <= start && (n <= 0 || start + n <= NUM_BLOCKS)
    ensures Agree(d, FlagRun(d, start, n), {})
    ensures forall k :: start <= k < start + n ==> FlagRun(d, start, n).blocks[1][k] == 1
    decreases n
  {
    if n <= 0 {
      AgreeRefl(d);
    } else {
      var e := FlagRun(d, start, n - 1);
      FlagRunEffect(d, start, n - 1);
      FlagWriteAgrees(e, start + n - 1, 1);
      WriteEffect(e, 1, start + n - 1, 1);
      AgreeTrans(d, e, FlagRun(d, start, n), {}, {});
    }
  }

  // ---------------------------------------------------------------------
  // writeContiguous

  /** writeContiguous from the start block on, up to the FAT update: the
      start block flagged, the byte loop over 512-byte pieces, and the flag
      loop over `required` blocks from the start. */
  function StoreContiguous(d: Disk, start: int, content: seq<Byte>, required: int): (r: Result<Disk>)
    requires Formatted(d) && 2 <= start <= NUM_BLOCKS && (required <= 0 || start + required <= NUM_BLOCKS)
    ensures r.Err? <==> |Chunks(content, BLOCK_SIZE)| > 0 && start + |Chunks(content, BLOCK_SIZE)| > NUM_BLOCKS
    ensures r.Err? ==> r.fault == BadAddress
    ensures r.Ok? ==> Formatted(r.value)
  {
    match PlaceAll(Write(d, 1, start, 1), Chunks(content, BLOCK_SIZE), start)
    case Err(f) => Err(f)
    case Ok(d2) => Ok(FlagRun(d2, start, required))
  }

  /** writeContiguous: nothing happens when getNextContigSpace finds no
      start; otherwise the file is stored from there and its record
      appended to the FAT with the start block and `required` as the
      length. */
  function WriteContiguous(d: Disk, name: seq<Byte>, content: seq<Byte>, required: int): (r: Result<Disk>)
    requires Formatted(d)
    ensures NextContigSpace(d, required) < 2 ==> r == Ok(d)
    ensures r.Err? ==> r.fault == BadAddress
    ensures r.Ok? ==> Formatted(r.value)
  {
    var start := NextContigSpace(d, required);
    if start < 2 then Ok(d)
    else
      match StoreContiguous(d, start, content, required)
      case Err(f) => Err(f)
      case Ok(d3) => WriteFileToFAT(d3, Contiguous, name, start, required)
  }

  // ---------------------------------------------------------------------
  // What the byte loop leaves on a free run

  /** One turn of the byte loop at the start of a free run: the store. */
  lemma PlaceRunStore(d: Disk, pieces: seq<seq<Byte>>, i: nat, block: int) returns (d1: Disk)
    requires Formatted(d) && 2 <= block && i < |pieces| && FitPieces(pieces)
    requires EmptyRun(d, block, |pieces| - i)
    ensures d1 == WriteRun(d, block, 0, pieces[i])
    ensures Formatted(d1) && Agree(d, d1, {block}) && d1.blocks[block] == Padded(pieces[i])
  {
    assert IsBlockEmpty(d, block);
    d1 := WriteRun(d, block, 0, pieces[i]);
    WriteRunAgrees(d, block, 0, pieces[i]);
    WriteRunContent(d, block, 0, pieces[i]);
    StoreIntoFree(d.blocks[block], pieces[i]);
  }

  /** The turn that stores the last piece ends the loop. */
  lemma PlaceRunStepLast(d: Disk, pieces: seq<seq<Byte>>, i: nat, block: int) returns (d1: Disk)
    requires Formatted(d) && 2 <= block && i + 1 == |pieces| && FitPieces(pieces)
    requires EmptyRun(d, block, |pieces| - i)
    ensures Formatted(d1) && Agree(d, d1, {block}) && d1.blocks[block] == Padded(pieces[i])
    ensures PlaceRun(d, pieces, i, block) == Ok(d1)
  {
    d1 := PlaceRunStore(d, pieces, i, block);
  }

  /** Any other turn stores its piece, flags the next block and goes on with
      the rest of the run, still free. */
  lemma PlaceRunStepMore(d: Disk, pieces: seq<seq<Byte>>, i: nat, block: int) returns (d2: Disk)
    requires Formatted(d) && 2 <= block && i + 1 < |pieces| && FitPieces(pieces)
    requires EmptyRun(d, block, |pieces| - i)
    ensures Formatted(d2) && EmptyRun(d2, block + 1, |pieces| - i - 1)
    ensures RunStepped(d, d2, pieces, i, block)
  {
    var d1 := PlaceRunStore(d, pieces, i, block);
    d2 := Write(d1, 1, block + 1, 1);
    FlagWriteAgrees(d1, block + 1, 1);
    AgreeTrans(d, d1, d2, {block}, {});
    assert {block} + {} == {block};
    RestOfRunFree(d, d2, block, |pieces| - i);
    assert IsBlockEmpty(d, block);
  }

  /** What one turn of the byte loop leaves before the rest of the run. */
  predicate RunStepped(d: Disk, d2: Disk, pieces: seq<seq<Byte>>, i: nat, block: int) {
    && Formatted(d) && Formatted(d2) && 2 <= block < NUM_BLOCKS && i + 1 < |pieces| && FitPieces(pieces)
    && IsBlockEmpty(d, block) && Agree(d, d2, {block}) && d2.blocks[block] == Padded(pieces[i])
    && PlaceRun(d, pieces, i, block) == PlaceRun(d2, pieces, i + 1, block + 1)
  }

  /** What the byte loop leaves from piece `i` on, started at `block`. */
  predicate RunPlaced(d: Disk, pieces: seq<seq<Byte>>, i: nat, block: int, p: Placement) {
    && Formatted(d) && 2 <= block && i < |pieces| && FitPieces(pieces)
    && PlaceRun(d, pieces, i, block) == Ok(p.disk) && p.used == RunBlocks(block, |pieces| - i)
    && Agree(d, p.disk, Blocks(p.used)) && HoldsPieces(p, pieces, i)
  }

  /** On a run of free blocks long enough for the pieces, the byte loop
      completes, stores only into the run, and leaves the k-th block of the
      run holding piece `i + k` padded with zeros. */
  lemma {:induction false} PlaceRunContent(d: Disk, pieces: seq<seq<Byte>>, i: nat, block: int)
    returns (p: Placement)
    requires Formatted(d) && 2 <= block && i < |pieces| && FitPieces(pieces)
    requires EmptyRun(d, block, |pieces| - i)
    ensures RunPlaced(d, pieces, i, block, p)
    decreases |pieces| - i, 1
  {
    if i + 1 == |pieces| {
      var d1 := PlaceRunStepLast(d, pieces, i, block);
      p := PlaceRunLast(d, d1, block, pieces, i);
    } else {
      p := PlaceRunMore(d, pieces, i, block);
    }
  }

  /** PlaceRunContent when more than one piece is left. */
  lemma {:induction false} PlaceRunMore(d: Disk, pieces: seq<seq<Byte>>, i: nat, block: int)
    returns (p: Placement)
    requires Formatted(d) && 2 <= block && i + 1 < |pieces| && FitPieces(pieces)
    requires EmptyRun(d, block, |pieces| - i)
    ensures RunPlaced(d, pieces, i, block, p)
    decreases |pieces| - i, 0
  {
    var d2 := PlaceRunStepMore(d, pieces, i, block);
    var rest := PlaceRunContent(d2, pieces, i + 1, block + 1);
    p := PlaceRunCons(d, d2, block, pieces, i, rest);
  }

  /** The last piece alone. */
  lemma PlaceRunLast(d: Disk, d1: Disk, block: int, pieces: seq<seq<Byte>>, i: nat) returns (p: Placement)
    requires Formatted(d) && Formatted(d1) && 2 <= block < NUM_BLOCKS && i + 1 == |pieces| && FitPieces(pieces)
    requires Agree(d, d1, {block}) && d1.blocks[block] == Padded(pieces[i])
    ensures p.disk == d1 && p.used == RunBlocks(block, 1)
    ensures Agree(d, p.disk, Blocks(p.used)) && HoldsPieces(p, pieces, i)
  {
    assert RunBlocks(block, 1) == [block];
    assert [block][0] == block;
    assert Blocks([block]) == {block};
    SingleHolds(d1, block, pieces, i);
    p := Placement(d1, [block]);
  }

  /** Gluing the block just stored onto what the rest of the loop placed. */
  lemma PlaceRunCons(d: Disk, d2: Disk, block: int, pieces: seq<seq<Byte>>, i: nat, rest: Placement)
    returns (p: Placement)
    requires RunStepped(d, d2, pieces, i, block) && EmptyRun(d2, block + 1, |pieces| - i - 1)
    requires RunPlaced(d2, pieces, i + 1, block + 1, rest)
    ensures RunPlaced(d, pieces, i, block, p)
  {
    p := PlaceRunGlue(d, d2, block, pieces, i, rest);
  }

  lemma PlaceRunGlue(d: Disk, d2: Disk, block: int, pieces: seq<seq<Byte>>, i: nat, rest: Placement)
    returns (p: Placement)
    requires Formatted(d) && Formatted(d2) && 2 <= block < NUM_BLOCKS && i + 1 < |pieces| && FitPieces(pieces)
    requires IsBlockEmpty(d, block) && Agree(d, d2, {block}) && d2.blocks[block] == Padded(pieces[i])
    requires EmptyRun(d2, block + 1, |pieces| - i - 1)
    requires rest.used == RunBlocks(block + 1, |pieces| - i - 1)
    requires Agree(d2, rest.disk, Blocks(rest.used)) && HoldsPieces(rest, pieces, i + 1)
    ensures p.disk == rest.disk && p.used == RunBlocks(block, |pieces| - i)
    ensures Agree(d, p.disk, Blocks(p.used)) && HoldsPieces(p, pieces, i)
  {
    var n := |pieces| - i;
    RunBlocksCons(block, n);
    RunBlocksAreData(block + 1, n - 1);
    forall k | 0 <= k < |rest.used|
      ensures IsBlockEmpty(d2, rest.used[k])
    {
      assert rest.used[k] == block + 1 + k;
    }
    FrameStep(d, d2, block, pieces[i], rest);
    assert block !in Blocks(rest.used);
    assert rest.disk.blocks[block] == d2.blocks[block];
    ConsFacts(rest, block, pieces, i);
    p := Placement(rest.disk, [block] + rest.used);
  }

  lemma SingleHolds(d: Disk, block: int, pieces: seq<seq<Byte>>, i: nat)
    requires Formatted(d) && 2 <= block < NUM_BLOCKS && i + 1 == |pieces| && FitPieces(pieces)
    requires d.blocks[block] == Padded(pieces[i])
    ensures HoldsPieces(Placement(d, [block]), pieces, i)
  {
    assert [block][0] == block;
  }

  /** Storing into the first block of a free run leaves the rest of the run free. */
  lemma RestOfRunFree(d: Disk, d2: Disk, block: int, n: nat)
    requires Formatted(d) && Formatted(d2) && EmptyRun(d, block, n) && n > 1 && Agree(d, d2, {block})
    ensures EmptyRun(d2, block + 1, n - 1)
  {
    forall k | block + 1 <= k < block + n
      ensures IsBlockEmpty(d2, k)
    {
      assert IsBlockEmpty(d, k);
      assert d2.blocks[k] == d.blocks[k];
    }
  }

  /** The start block's flag, then the byte loop, on a free run as long as
      the pieces. */
  lemma PlaceOnRun(d: Disk, start: int, pieces: seq<seq<Byte>>) returns (p: Placement)
    requires Formatted(d) && 2 <= start && |pieces| > 0 && FitPieces(pieces) && EmptyRun(d, start, |pieces|)
    ensures PlaceAll(Write(d, 1, start, 1), pieces, start) == Ok(p.disk)
    ensures p.used == RunBlocks(start, |pieces|)
    ensures Agree(d, p.disk, Blocks(p.used)) && HoldsPieces(p, pieces, 0)
  {
    var d1 := FlagKeepsRunFree(d, start, |pieces|);
    p := PlaceRunContent(d1, pieces, 0, start);
    AgreeTrans(d, d1, p.disk, {}, Blocks(p.used));
    assert {} + Blocks(p.used) == Blocks(p.used);
  }

  /** Flagging a block leaves every free run free. */
  lemma FlagKeepsRunFree(d: Disk, start: int, n: nat) returns (d1: Disk)
    requires Formatted(d) && EmptyRun(d, start, n) && n > 0
    ensures d1 == Write(d, 1, start, 1) && Formatted(d1) && Agree(d, d1, {}) && EmptyRun(d1, start, n)
  {
    d1 := Write(d, 1, start, 1);
    FlagWriteAgrees(d, start, 1);
    AgreeKeepsFree(d, d1);
  }

  /** A change to nothing but the bitmap keeps the pieces where they are. */
  lemma HoldsAfterFlags(p: Placement, e: Disk, pieces: seq<seq<Byte>>)
    requires HoldsPieces(p, pieces, 0) && Formatted(e) && Agree(p.disk, e, {})
    ensures HoldsPieces(Placement(e, p.used), pieces, 0)
  {
    forall k | 0 <= k < |p.used|
      ensures e.blocks[p.used[k]] == Padded(pieces[k])
    {
      assert p.disk.blocks[p.used[k]] == Padded(pieces[0 + k]);
    }
  }

  /** On a free run as long as the content's pieces, writeContiguous's
      stores leave the pieces in the run, padded with zeros, and change no
      other block. */
  lemma StoreContiguousOnRun(d: Disk, start: int, content: seq<Byte>, required: int)
    returns (e: Disk, pieces: seq<seq<Byte>>)
    requires Formatted(d) && 2 <= start && (required <= 0 || start + required <= NUM_BLOCKS)
    requires |content| > 0 && EmptyRun(d, start, |Chunks(content, BLOCK_SIZE)|)
    ensures pieces == Chunks(content, BLOCK_SIZE)
    ensures StoreContiguous(d, start, content, required) == Ok(e)
    ensures Agree(d, e, Blocks(RunBlocks(start, |pieces|)))
    ensures HoldsPieces(Placement(e, RunBlocks(start, |pieces|)), pieces, 0)
  {
    pieces := Chunks(content, BLOCK_SIZE);
    var placed := PlaceOnRun(d, start, pieces);
    FlagRunEffect(placed.disk, start, required);
    e := FlagRun(placed.disk, start, required);
    AgreeTrans(d, placed.disk, e, Blocks(placed.used), {});
    assert Blocks(placed.used) + {} == Blocks(placed.used);
    HoldsAfterFlags(placed, e, pieces);
  }

  /** When getNextContigSpace finds a start whose run is free for all the
      pieces, writeContiguous stores them there and appends the record to
      the disk that holds them. */
  lemma WriteContiguousAt(d: Disk, name: seq<Byte>, content: seq<Byte>, required: int)
    returns (start: int, e: Disk)
    requires Formatted(d) && |content| > 0 && NextContigSpace(d, required) >= 2
    requires EmptyRun(d, NextContigSpace(d, required), |Chunks(content, BLOCK_SIZE)|)
    ensures start == NextContigSpace(d, required) && 2 <= start < NUM_BLOCKS && Formatted(e)
    ensures WriteContiguous(d, name, content, required) == WriteFileToFAT(e, Contiguous, name, start, required)
    ensures Agree(d, e, Blocks(RunBlocks(start, |Chunks(content, BLOCK_SIZE)|)))
    ensures HoldsPieces(Placement(e, RunBlocks(start, |Chunks(content, BLOCK_SIZE)|)), Chunks(content, BLOCK_SIZE), 0)
  {
    start := NextContigSpace(d, required);
    var pieces;
    e, pieces := StoreContiguousOnRun(d, start, content, required);
  }

  // ---------------------------------------------------------------------
  // Reading a contiguous file

  /** The contiguous branch of getFileBytesFromDisk: `length` whole blocks
      from the start block on, at least one. Reading past the last block
      fails. */
  function ReadContiguous(d: Disk, block: Byte, length: int): (r: Result<seq<Byte>>)
    requires Formatted(d)
    ensures r.Err? <==> block + Max(length, 1) > NUM_BLOCKS
    ensures r.Err? ==> r.fault == BadAddress
    ensures r.Ok? ==> |r.value| == Max(length, 1) * BLOCK_SIZE
  {
    var n := Max(length, 1);
    if block + n > NUM_BLOCKS then Err(BadAddress) else Ok(ReadBlocks(d, RunBlocks(block, n)))
  }

  /** Reading back a run that holds the pieces of `content` gives the
      content, then the zeros that pad the last block. */
  lemma ReadContiguousOfRun(d: Disk, start: Byte, content: seq<Byte>)
    requires Formatted(d) && 2 <= start && |content| > 0
    requires start + |Chunks(content, BLOCK_SIZE)| <= NUM_BLOCKS
    requires forall k :: 0 <= k < |Chunks(content, BLOCK_SIZE)| ==>
               d.blocks[start + k] == Padded(Chunks(content, BLOCK_SIZE)[k])
    ensures var pieces := Chunks(content, BLOCK_SIZE);
            ReadContiguous(d, start, |pieces|)
              == Ok(content + Zeros(BLOCK_SIZE - |pieces[|pieces| - 1]|))
  {
    var pieces := Chunks(content, BLOCK_SIZE);
    var used := RunBlocks(start, |pieces|);
    RunBlocksAreData(start, |pieces|);
    forall j | 0 <= j < |used|
      ensures d.blocks[used[j]] == Padded(pieces[j])
    {
      assert used[j] == start + j;
    }
    ReadAllHeld(d, content, used);
    ReadOfRun(d, start, |pieces|);
  }

  /** A run that fits is read block by block. */
  lemma ReadOfRun(d: Disk, start: Byte, n: nat)
    requires Formatted(d) && 0 < n && start + n <= NUM_BLOCKS
    ensures ReadContiguous(d, start, n) == Ok(ReadBlocks(d, RunBlocks(start, n)))
  {
  }
}
