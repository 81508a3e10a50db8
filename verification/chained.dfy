/** Chained allocation: writeChained, and the block walk of the chained
    branch of getFileBytesFromDisk. Each block of a chained file keeps 511
    bytes of content and, in its last byte, the number of the next block. */
module ChainedFiles {
  import opened Common
  import opened BlockStore
  import opened Geometry
  import opened FreeSpace
  import opened Fat
  import opened Allocation

  // ---------------------------------------------------------------------
  // The linking loop

  /** The first `n - 1` turns of writeChained's linking loop: turn `i` stores
      the number of block `i` of the list into the last byte of block
      `i - 1`, then flags block `i`. Defined turn by turn from the end so
      that each unfolding adds one turn on top of the earlier ones. */
  function Link(d: Disk, used: seq<int>, n: nat): (e: Disk)
    requires Formatted(d) && DataBlocks(used) && n <= |used|
    ensures Formatted(e)
    decreases n
  {
    if n <= 1 then d
    else
      LinkTurn(Link(d, used, n - 1), used, n - 1)
  }

  /** The disk after one turn of the linking loop. */
  function LinkTurn(d: Disk, used: seq<int>, i: nat): (e: Disk)
    requires Formatted(d) && DataBlocks(used) && 1 <= i < |used|
    ensures Formatted(e)
  {
    Write(Write(d, used[i - 1], CHAINED_BLOCK_SIZE, ToByte(used[i])), 1, used[i], 1)
  }

  /** One turn stores the link into block `i - 1` and into no other block
      but the bitmap. */
  lemma LinkTurnEffect(d: Disk, used: seq<int>, i: nat)
    requires Formatted(d) && DataBlocks(used) && 1 <= i < |used|
    ensures Agree(d, LinkTurn(d, used, i), {used[i - 1]})
    ensures LinkTurn(d, used, i).blocks[used[i - 1]]
              == Poke(d.blocks[used[i - 1]], CHAINED_BLOCK_SIZE, ToByte(used[i]))
  {
    var d1 := Write(d, used[i - 1], CHAINED_BLOCK_SIZE, ToByte(used[i]));
    WriteAgrees(d, used[i - 1], CHAINED_BLOCK_SIZE, ToByte(used[i]));
    FlagWriteAgrees(d1, used[i], 1);
    AgreeTrans(d, d1, LinkTurn(d, used, i), {used[i - 1]}, {});
    assert {used[i - 1]} + {} == {used[i - 1]};
  }

  /** After the first `n - 1` turns, the listed block at position `k`
      holds the number of the next listed block in its last byte if
      `k < n - 1`, and is unchanged otherwise. */
  lemma {:induction false} LinkAt(d: Disk, used: seq<int>, n: nat, k: nat)
    requires Formatted(d) && DataBlocks(used) && n <= |used| && Distinct(used) && k < |used|
    ensures Link(d, used, n).blocks[used[k]]
              == if k < n - 1
                 then Poke(d.blocks[used[k]], CHAINED_BLOCK_SIZE, ToByte(used[k + 1]))
                 else d.blocks[used[k]]
    decreases n
  {
    if n > 1 {
      var e := Link(d, used, n - 1);
      LinkAt(d, used, n - 1, k);
      LinkTurnEffect(e, used, n - 1);
      if k != n - 2 {
        assert used[k] != used[n - 2];
        AgreeAt(e, LinkTurn(e, used, n - 1), {used[n - 2]}, used[k]);
      }
    }
  }

  /** The linking loop stores only into the listed blocks. */
  lemma {:induction false} LinkFrame(d: Disk, used: seq<int>, n: nat)
    requires Formatted(d) && DataBlocks(used) && n <= |used|
    ensures Agree(d, Link(d, used, n), Blocks(used))
    decreases n
  {
    if n > 1 {
      var e := Link(d, used, n - 1);
      LinkFrame(d, used, n - 1);
      LinkTurnEffect(e, used, n - 1);
      AgreeTrans(d, e, LinkTurn(e, used, n - 1), Blocks(used), {used[n - 2]});
      assert used[n - 2] in Blocks(used);
      assert Blocks(used) + {used[n - 2]} == Blocks(used);
    } else {
      AgreeRefl(d);
      AgreeWiden(d, d, {}, Blocks(used));
    }
  }

  // ---------------------------------------------------------------------
  // The chain on disk

  /** The block the linking loop leaves at position `k` of the list: its
      piece padded with zeros and, in every block but the last, the number
      of the next block in the last byte. */
  function LinkedBlock(pieces: seq<seq<Byte>>, used: seq<int>, k: nat): (b: seq<Byte>)
    requires |pieces| == |used| && k < |used| && FitPieces(pieces)
    ensures |b| == BLOCK_SIZE
  {
    if k + 1 < |used| then Poke(Padded(pieces[k]), CHAINED_BLOCK_SIZE, ToByte(used[k + 1]))
    else Padded(pieces[k])
  }

  /** The pieces a chained file's content is cut into: 511 bytes each, the
      last one possibly shorter. */
  predicate ChainPieces(pieces: seq<seq<Byte>>) {
    && |pieces| > 0 && FitPieces(pieces)
    && (forall k :: 0 <= k < |pieces| - 1 ==> |pieces[k]| == CHAINED_BLOCK_SIZE)
    && |pieces[|pieces| - 1]| <= CHAINED_BLOCK_SIZE
  }

  /** The disk holds the chain of `pieces` along the blocks `used`. */
  predicate ChainOn(d: Disk, used: seq<int>, pieces: seq<seq<Byte>>) {
    && Formatted(d) && DataBlocks(used) && |pieces| == |used| && ChainPieces(pieces)
    && forall k :: 0 <= k < |used| ==> d.blocks[used[k]] == LinkedBlock(pieces, used, k)
  }

  /** After the linking loop over a placement of the pieces, the disk holds
      the chain. */
  lemma LinkMakesChain(p: Placement, pieces: seq<seq<Byte>>)
    requires HoldsPieces(p, pieces, 0) && |p.used| == |pieces| && ChainPieces(pieces)
    ensures ChainOn(Link(p.disk, p.used, |p.used|), p.used, pieces)
    ensures Agree(p.disk, Link(p.disk, p.used, |p.used|), Blocks(p.used))
  {
    var e := Link(p.disk, p.used, |p.used|);
    forall k | 0 <= k < |p.used|
      ensures e.blocks[p.used[k]] == LinkedBlock(pieces, p.used, k)
    {
      LinkAt(p.disk, p.used, |p.used|, k);
    }
    LinkFrame(p.disk, p.used, |p.used|);
  }

  /** The chained branch of getFileBytesFromDisk from `block` on, with
      `length` blocks to go: the first 511 bytes of each block followed by
      the block its last byte names, until the last block, which is read
      whole. */
  function ReadChain(d: Disk, block: Byte, length: int): (r: seq<Byte>)
    requires Formatted(d)
    ensures |r| == (if length > 1 then (length - 1) * CHAINED_BLOCK_SIZE else 0) + BLOCK_SIZE
    decreases length
  {
    if length > 1 then
      d.blocks[block][..CHAINED_BLOCK_SIZE] + ReadChain(d, d.blocks[block][CHAINED_BLOCK_SIZE], length - 1)
    else d.blocks[block]
  }

  /** Following a chain from position `k` gives the rest of the content,
      then the zeros that pad the last block. */
  lemma {:induction false} ReadChainOfLinked(d: Disk, used: seq<int>, pieces: seq<seq<Byte>>, k: nat)
    requires ChainOn(d, used, pieces) && k < |used|
    ensures ReadChain(d, used[k], |used| - k)
              == Concat(pieces[k..]) + Zeros(BLOCK_SIZE - |pieces[|pieces| - 1]|)
    decreases |used| - k
  {
    var z := Zeros(BLOCK_SIZE - |pieces[|pieces| - 1]|);
    if k + 1 == |used| {
      assert pieces[k..] == [pieces[k]];
      assert Concat([pieces[k]]) == pieces[k] + Concat([]);
    } else {
      ReadChainOfLinked(d, used, pieces, k + 1);
      var blk := d.blocks[used[k]];
      assert blk == Poke(Padded(pieces[k]), CHAINED_BLOCK_SIZE, ToByte(used[k + 1]));
      assert blk[..CHAINED_BLOCK_SIZE] == pieces[k];
      assert blk[CHAINED_BLOCK_SIZE] == used[k + 1];
      assert pieces[k..][1..] == pieces[k + 1..];
    }
  }

  // ---------------------------------------------------------------------
  // writeChained

  /** A placement with the linking loop run over its blocks. */
  function Chain(p: Placement): (q: Placement)
    requires Formatted(p.disk) && DataBlocks(p.used) && |p.used| > 0
    ensures Formatted(q.disk) && q.used == p.used
  {
    Placement(Link(p.disk, p.used, |p.used|), p.used)
  }

  /** writeChained up to the FAT update: the start block drawn with
      `draws(0)` and flagged, the byte loop over 511-byte pieces, and the
      linking loop. Gives the disk and the blocks used, start block first.
      Empty content leaves the start block alone in the list. */
  function StoreChained(d: Disk, content: seq<Byte>, draws: nat -> nat): (r: Result<Placement>)
    requires Formatted(d)
    ensures r.Ok? ==> Formatted(r.value.disk) && |r.value.used| > 0 && DataBlocks(r.value.used)
    ensures RandomBlock(d, draws(0)) == -1 ==> r == Err(BadAddress)
    ensures r.Err? ==> r.fault == BadAddress
    ensures r.Ok? ==>
              && r.value.used[0] == RandomBlock(d, draws(0))
              && |r.value.used| == Max(|Chunks(content, CHAINED_BLOCK_SIZE)|, 1)
  {
    var start := RandomBlock(d, draws(0));
    if start == -1 then Err(BadAddress)
    else
      match PlaceContent(Write(d, 1, start, 1), Chunks(content, CHAINED_BLOCK_SIZE), start, draws, 1)
      case Err(f) => Err(f)
      case Ok(p) => Ok(Chain(p))
  }

  /** writeChained: nothing happens unless there are at least `required`
      free blocks; otherwise the file is stored and its record appended to
      the FAT with the start block and `required` as the length. */
  function WriteChained(d: Disk, name: seq<Byte>, content: seq<Byte>, required: int, draws: nat -> nat)
    : (r: Result<Disk>)
    requires Formatted(d)
    ensures NumFreeBlocks(d) < required ==> r == Ok(d)
    ensures r.Err? ==> r.fault == BadAddress
    ensures r.Ok? ==> Formatted(r.value)
  {
    if NumFreeBlocks(d) < required then Ok(d)
    else
      var s := StoreChained(d, content, draws);
      if s.Err? then Err(s.fault)
      else WriteFileToFAT(s.value.disk, Chained, name, s.value.used[0], required)
  }

  // ---------------------------------------------------------------------
  // What writeChained leaves

  /** Content cut for a chained file makes chain pieces. */
  lemma ChunksMakeChainPieces(content: seq<Byte>)
    requires |content| > 0
    ensures ChainPieces(Chunks(content, CHAINED_BLOCK_SIZE))
  {
  }

  /** With enough free blocks and nonzero pieces, writeChained's stores
      leave the chain of the content's pieces on distinct blocks, starting
      at the first draw, and change no other block. */
  lemma StoreChainedOnFree(d: Disk, content: seq<Byte>, draws: nat -> nat) returns (q: Placement)
    requires Formatted(d) && |content| > 0
    requires NonzeroPieces(Chunks(content, CHAINED_BLOCK_SIZE), 0)
    requires NumFreeBlocks(d) >= |Chunks(content, CHAINED_BLOCK_SIZE)|
    ensures StoreChained(d, content, draws) == Ok(q) && q.used[0] == RandomBlock(d, draws(0))
    ensures ChainOn(q.disk, q.used, Chunks(content, CHAINED_BLOCK_SIZE)) && Distinct(q.used)
    ensures Agree(d, q.disk, Blocks(q.used))
  {
    var pieces := Chunks(content, CHAINED_BLOCK_SIZE);
    var start, d1 := FlagDrawn(d, draws(0));
    ChunksMakeChainPieces(content);
    var p := PlaceOnFree(d1, pieces, start, draws, 1);
    q := ChainFacts(d, d1, p, pieces);
  }

  /** The linking loop over a placement of chain pieces made on a flagged
      copy of `d`. */
  lemma ChainFacts(d: Disk, d1: Disk, p: Placement, pieces: seq<seq<Byte>>) returns (q: Placement)
    requires Formatted(d) && Formatted(d1) && Agree(d, d1, {}) && Agree(d1, p.disk, Blocks(p.used))
    requires HoldsPieces(p, pieces, 0) && |p.used| == |pieces| && ChainPieces(pieces)
    ensures q == Chain(p) && ChainOn(q.disk, q.used, pieces) && Distinct(q.used)
    ensures Agree(d, q.disk, Blocks(q.used))
  {
    LinkMakesChain(p, pieces);
    q := Chain(p);
    AgreeTrans(d, d1, p.disk, {}, Blocks(p.used));
    AgreeTrans(d, p.disk, q.disk, {} + Blocks(p.used), Blocks(p.used));
    assert {} + Blocks(p.used) + Blocks(p.used) == Blocks(q.used);
  }

  /** Once the count check passes and the stores succeed, writeChained
      appends the record to the disk the stores leave, with the start
      block. */
  lemma WriteChainedOf(d: Disk, name: seq<Byte>, content: seq<Byte>, required: int, draws: nat -> nat, q: Placement)
    requires Formatted(d) && NumFreeBlocks(d) >= required && StoreChained(d, content, draws) == Ok(q)
    ensures Formatted(q.disk) && |q.used| > 0
    ensures WriteChained(d, name, content, required, draws) == WriteFileToFAT(q.disk, Chained, name, q.used[0], required)
  {
  }
}
