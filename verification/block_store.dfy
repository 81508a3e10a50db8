/** The simulated device of Disk.java: a `numBlocks x blockSize` byte matrix
    whose byte writes also keep a "used" flag per block in block 1. */
module BlockStore {
  import opened Common

  datatype Disk = Disk(numBlocks: nat, blockSize: nat, blocks: seq<seq<Byte>>) {
    /** The matrix really has the geometry the disk was built with. */
    predicate Valid() {
      && |blocks| == numBlocks
      && forall b :: 0 <= b < |blocks| ==> |blocks[b]| == blockSize
    }
  }

  /** A disk on which every block index is also a byte offset inside block 1,
      which is what the flag write of `Write` relies on. */
  predicate WellShaped(d: Disk) {
    d.Valid() && 2 <= d.numBlocks <= d.blockSize
  }

  predicate InRange(d: Disk, block: int, location: int) {
    0 <= block < d.numBlocks && 0 <= location < d.blockSize
  }

  /** The constructor together with setupDisk: every byte starts at zero. */
  function New(numBlocks: nat, blockSize: nat): (d: Disk)
    ensures d.Valid() && d.numBlocks == numBlocks && d.blockSize == blockSize
    ensures forall b, l :: InRange(d, b, l) ==> d.blocks[b][l] == 0
  {
    Disk(numBlocks, blockSize, seq(numBlocks, _ => Zeros(blockSize)))
  }

  function Read(d: Disk, block: int, location: int): (v: Byte)
    requires d.Valid() && InRange(d, block, location)
  {
    d.blocks[block][location]
  }

  /** What `write` asks of its caller: both array accesses in range, the
      second one being the flag at offset `block` of block 1. */
  predicate CanWrite(d: Disk, block: int, location: int) {
    d.Valid() && InRange(d, block, location) && d.numBlocks >= 2 && block < d.blockSize
  }

  /** `s` with byte `i` replaced by `v`. */
  function Poke(s: seq<Byte>, i: int, v: Byte): (r: seq<Byte>)
    requires 0 <= i < |s|
    ensures |r| == |s| && r[i] == v
    ensures forall j :: 0 <= j < |s| && j != i ==> r[j] == s[j]
  {
    var r: seq<Byte> := s[i := v];
    r
  }

  /** The scan of `write` (and of isBlockEmpty) from byte `i` on: true
      when no byte there is nonzero. */
  function ScanEmpty(blk: seq<Byte>, i: nat): bool
    requires i <= |blk|
    decreases |blk| - i
  {
    if i == |blk| then true else if blk[i] != 0 then false else ScanEmpty(blk, i + 1)
  }

  /** The scan finds a nonzero byte exactly when there is one. */
  lemma {:induction false} ScanEmptyMeansAllZero(blk: seq<Byte>, i: nat)
    requires i <= |blk|
    ensures ScanEmpty(blk, i) <==> AllZero(blk[i..])
    decreases |blk| - i
  {
    if i < |blk| {
      ScanEmptyMeansAllZero(blk, i + 1);
      assert forall k :: 0 <= k < |blk[i..]| ==> blk[i..][k] == if k == 0 then blk[i] else blk[i + 1..][k - 1];
    }
  }

  /** Stores `value`, then scans the block: if any byte of it is nonzero the
      block's flag in block 1 is set. The flag is never cleared here. */
  function Write(d: Disk, block: int, location: int, value: Byte): (e: Disk)
    requires CanWrite(d, block, location)
    ensures e.Valid() && e.numBlocks == d.numBlocks && e.blockSize == d.blockSize
  {
    var stored := d.blocks[block := Poke(d.blocks[block], location, value)];
    if ScanEmpty(stored[block], 0) then d.(blocks := stored)
    else d.(blocks := stored[1 := Poke(stored[1], block, 1)])
  }

  /** What a store changes: the byte written and, when the block then holds
      data, the block's flag; nothing else. */
  lemma WriteEffect(d: Disk, block: int, location: int, value: Byte)
    requires CanWrite(d, block, location)
    ensures var e := Write(d, block, location, value);
            && (forall x, j :: InRange(d, x, j) && (x, j) != (block, location) && (x, j) != (1, block)
                  ==> e.blocks[x][j] == d.blocks[x][j])
            && (forall x :: 0 <= x < d.numBlocks && x != block && x != 1 ==> e.blocks[x] == d.blocks[x])
            && (block != 1 ==> e.blocks[block] == Poke(d.blocks[block], location, value))
            && ((block, location) != (1, 1) ==> Read(e, block, location) == value)
            && (!AllZero(e.blocks[block]) ==> e.blocks[1][block] == 1)
            && (AllZero(Poke(d.blocks[block], location, value)) ==>
                  e.blocks == d.blocks[block := Poke(d.blocks[block], location, value)])
  {
    var stored := d.blocks[block := Poke(d.blocks[block], location, value)];
    ScanEmptyMeansAllZero(stored[block], 0);
    assert stored[block][0..] == stored[block];
  }

  /** Reading after a store: the stored byte at its place, the stored
      block's flag set when the block then holds data, and every other byte
      as before. The one place left out is offset 1 of block 1, where the
      stored byte and block 1's own flag collide (WriteAtFlagOfBlockOne). */
  lemma ReadAfterWrite(d: Disk, block: int, location: int, value: Byte, x: int, j: int)
    requires CanWrite(d, block, location) && InRange(d, x, j)
    ensures (x, j) == (block, location) && (x, j) != (1, 1) ==> Read(Write(d, block, location, value), x, j) == value
    ensures (x, j) != (block, location) && (x, j) != (1, block) ==> Read(Write(d, block, location, value), x, j) == Read(d, x, j)
    ensures (x, j) == (1, block) && (x, j) != (block, location) ==>
              Read(Write(d, block, location, value), x, j) == if AllZero(Poke(d.blocks[block], location, value)) then Read(d, x, j) else 1
  {
    var stored := d.blocks[block := Poke(d.blocks[block], location, value)];
    ScanEmptyMeansAllZero(stored[block], 0);
    assert stored[block][0..] == stored[block];
  }

  /** Reading back what was just written gives the written byte, except at
      (1, 1) when block 1 holds another nonzero byte: the flag wins there. */
  lemma FlagOverridesStore(d: Disk, value: Byte)
    requires CanWrite(d, 1, 1)
    requires exists j :: 0 <= j < d.blockSize && j != 1 && d.blocks[1][j] != 0
    ensures Read(Write(d, 1, 1, value), 1, 1) == 1
  {
    var j :| 0 <= j < d.blockSize && j != 1 && d.blocks[1][j] != 0;
    var e := Write(d, 1, 1, value);
    WriteEffect(d, 1, 1, value);
    assert e.blocks[1][j] != 0;
  }

  /** The byte at offset 1 of block 1 is both a stored byte and the flag of
      block 1: after a store there it ends up 1 whenever block 1 is not all
      zero. */
  lemma WriteAtFlagOfBlockOne(d: Disk, value: Byte)
    requires CanWrite(d, 1, 1)
    ensures Read(Write(d, 1, 1, value), 1, 1) == if AllZero(Poke(d.blocks[1], 1, value)) then value else 1
  {
    WriteEffect(d, 1, 1, value);
  }

  /** Writes `bytes` one after the other at `offset`, `offset + 1`, ... of
      `block`, each through `Write`, as the simulator's byte loops do. */
  function WriteRun(d: Disk, block: int, offset: nat, bytes: seq<Byte>): (e: Disk)
    requires d.Valid() && d.numBlocks >= 2 && 0 <= block < d.numBlocks && block < d.blockSize
    requires offset + |bytes| <= d.blockSize
    ensures e.Valid() && e.numBlocks == d.numBlocks && e.blockSize == d.blockSize
    ensures forall x :: 0 <= x < d.numBlocks && x != block && x != 1 ==> e.blocks[x] == d.blocks[x]
    decreases |bytes|
  {
    if |bytes| == 0 then d
    else
      WriteEffect(d, block, offset, bytes[0]);
      WriteRun(Write(d, block, offset, bytes[0]), block, offset + 1, bytes[1..])
  }

  /** After the run the block holds `bytes` at `offset` and its old bytes
      elsewhere. */
  lemma {:induction false} WriteRunContent(d: Disk, block: int, offset: nat, bytes: seq<Byte>)
    requires d.Valid() && d.numBlocks >= 2 && 0 <= block < d.numBlocks && block < d.blockSize && block != 1
    requires offset + |bytes| <= d.blockSize
    ensures WriteRun(d, block, offset, bytes).blocks[block] == d.blocks[block][..offset] + bytes + d.blocks[block][offset + |bytes|..]
    decreases |bytes|
  {
    if |bytes| > 0 {
      var d1 := Write(d, block, offset, bytes[0]);
      WriteRunContent(d1, block, offset + 1, bytes[1..]);
      SpliceStep(d.blocks[block], offset, bytes);
    }
  }

  /** Storing the first byte and then splicing in the rest splices in all. */
  lemma SpliceStep(s: seq<Byte>, offset: nat, bytes: seq<Byte>)
    requires 0 < |bytes| && offset + |bytes| <= |s|
    ensures var s1 := Poke(s, offset, bytes[0]);
            s1[..offset + 1] + bytes[1..] + s1[offset + |bytes|..] == s[..offset] + bytes + s[offset + |bytes|..]
  {
    var s1 := Poke(s, offset, bytes[0]);
    assert s1[..offset + 1] == s[..offset] + [bytes[0]];
    assert s1[offset + |bytes|..] == s[offset + |bytes|..];
    assert bytes == [bytes[0]] + bytes[1..];
  }

  /** A run of writes leaves the other flags alone and, when the block ends
      up holding data, leaves its own flag set. */
  lemma {:induction false} WriteRunFlags(d: Disk, block: int, offset: nat, bytes: seq<Byte>)
    requires d.Valid() && d.numBlocks >= 2 && 0 <= block < d.numBlocks && block < d.blockSize && block != 1
    requires offset + |bytes| <= d.blockSize
    ensures forall j :: 0 <= j < d.blockSize && j != block ==> WriteRun(d, block, offset, bytes).blocks[1][j] == d.blocks[1][j]
    ensures |bytes| > 0 && !AllZero(WriteRun(d, block, offset, bytes).blocks[block]) ==> WriteRun(d, block, offset, bytes).blocks[1][block] == 1
    decreases |bytes|
  {
    if |bytes| > 0 {
      var d1 := Write(d, block, offset, bytes[0]);
      WriteEffect(d, block, offset, bytes[0]);
      WriteRunFlags(d1, block, offset + 1, bytes[1..]);
      if |bytes| == 1 {
        assert WriteRun(d1, block, offset + 1, bytes[1..]) == d1;
      }
    }
  }

  /** The bytes of block 1 past the per-block flags; nothing but an
      out-of-range block index ever writes there. */
  function Spare(d: Disk): seq<Byte>
    requires WellShaped(d)
  {
    d.blocks[1][d.numBlocks..]
  }

  /** `e` has the same bytes as `d` everywhere except in block 1's flags and
      in the blocks of `touched`. */
  predicate Agree(d: Disk, e: Disk, touched: set<int>) {
    && WellShaped(d) && WellShaped(e)
    && e.numBlocks == d.numBlocks && e.blockSize == d.blockSize
    && (forall x :: 0 <= x < d.numBlocks && x != 1 && x !in touched ==> e.blocks[x] == d.blocks[x])
    && Spare(e) == Spare(d)
  }

  lemma AgreeTrans(d: Disk, e: Disk, f: Disk, s: set<int>, t: set<int>)
    requires Agree(d, e, s) && Agree(e, f, t)
    ensures Agree(d, f, s + t)
  {
  }

  /** Changing only flags after a change keeps every block the change
      left. */
  lemma AgreeThenFlags(d: Disk, e: Disk, f: Disk, s: set<int>)
    requires Agree(d, e, s) && Agree(e, f, {})
    ensures Agree(d, f, s)
    ensures forall x :: 0 <= x < e.numBlocks && x != 1 ==> f.blocks[x] == e.blocks[x]
  {
  }

  /** A block outside the touched ones keeps its bytes. */
  lemma AgreeAt(d: Disk, e: Disk, s: set<int>, x: int)
    requires Agree(d, e, s) && 0 <= x < d.numBlocks && x != 1 && x !in s
    ensures e.blocks[x] == d.blocks[x]
  {
  }

  lemma AgreeWiden(d: Disk, e: Disk, s: set<int>, t: set<int>)
    requires Agree(d, e, s) && s <= t
    ensures Agree(d, e, t)
  {
  }

  lemma AgreeRefl(d: Disk)
    requires WellShaped(d)
    ensures Agree(d, d, {})
  {
  }

  /** A data write (any block but 1) only disturbs its own block and flags. */
  lemma WriteAgrees(d: Disk, block: int, location: int, value: Byte)
    requires WellShaped(d) && InRange(d, block, location) && block != 1
    ensures Agree(d, Write(d, block, location, value), {block})
  {
    var e := Write(d, block, location, value);
    assert Spare(e) == Spare(d) by {
      forall j | d.numBlocks <= j < d.blockSize
        ensures e.blocks[1][j] == d.blocks[1][j]
      {
        assert (1, j) != (block, location) && (1, j) != (1, block);
      }
    }
  }

  /** A flag write (block 1, offset below numBlocks) leaves every other
      block and the spare bytes of block 1 alone. */
  lemma FlagWriteAgrees(d: Disk, location: int, value: Byte)
    requires WellShaped(d) && 0 <= location < d.numBlocks
    ensures Agree(d, Write(d, 1, location, value), {})
  {
    var e := Write(d, 1, location, value);
    assert Spare(e) == Spare(d) by {
      forall j | d.numBlocks <= j < d.blockSize
        ensures e.blocks[1][j] == d.blocks[1][j]
      {
        assert (1, j) != (1, location);
      }
    }
  }

  lemma WriteRunAgrees(d: Disk, block: int, offset: nat, bytes: seq<Byte>)
    requires WellShaped(d) && 0 <= block < d.numBlocks && block != 1
    requires offset + |bytes| <= d.blockSize
    ensures Agree(d, WriteRun(d, block, offset, bytes), {block})
  {
    var e := WriteRun(d, block, offset, bytes);
    WriteRunFlags(d, block, offset, bytes);
    assert Spare(e) == Spare(d) by {
      forall j | d.numBlocks <= j < d.blockSize
        ensures e.blocks[1][j] == d.blocks[1][j]
      {
      }
    }
  }
}
