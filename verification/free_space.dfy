/** Free-space tracking of DiskInterfaceUtils.java: the emptiness test, the
    free-block count, the random free-block choice, the first-fit run finder,
    clearBlock, and the full rebuild of the bitmap in block 1. */
module FreeSpace {
  import opened Common
  import opened BlockStore
  import opened Geometry

  /** isBlockEmpty: the scan for a nonzero byte. A block is free exactly
      when every one of its bytes is zero. */
  predicate IsBlockEmpty(d: Disk, block: int): (empty: bool)
    requires Formatted(d) && 0 <= block < NUM_BLOCKS
    ensures empty <==> AllZero(d.blocks[block])
  {
    ScanEmptyMeansAllZero(d.blocks[block], 0);
    assert d.blocks[block][0..] == d.blocks[block];
    ScanEmpty(d.blocks[block], 0)
  }

  /** The free data blocks from `i` on, in increasing order. */
  function FreeFrom(d: Disk, i: nat): (r: seq<int>)
    requires Formatted(d) && i <= NUM_BLOCKS
    ensures forall b :: b in r <==> i <= b < NUM_BLOCKS && IsBlockEmpty(d, b)
    ensures forall p, q :: 0 <= p < q < |r| ==> r[p] < r[q]
    decreases NUM_BLOCKS - i
  {
    if i == NUM_BLOCKS then []
    else if IsBlockEmpty(d, i) then
      var rest := FreeFrom(d, i + 1);
      assert forall q :: 0 <= q < |rest| ==> rest[q] in rest;
      [i] + rest
    else FreeFrom(d, i + 1)
  }

  /** Every free block outside the two reserved ones. */
  function FreeBlocks(d: Disk): seq<int>
    requires Formatted(d)
  {
    FreeFrom(d, 2)
  }

  /** The set of free data blocks, the reference for the counting loop. */
  function FreeSet(d: Disk, i: nat): set<int>
    requires Formatted(d)
  {
    set b | i <= b < NUM_BLOCKS && IsBlockEmpty(d, b)
  }

  /** getNumFreeBlocks' loop from block `i` on. */
  function CountFree(d: Disk, i: nat): (n: nat)
    requires Formatted(d) && i <= NUM_BLOCKS
    ensures n == |FreeFrom(d, i)|
    ensures n <= NUM_BLOCKS - i
    decreases NUM_BLOCKS - i
  {
    if i == NUM_BLOCKS then 0
    else
      var rest := CountFree(d, i + 1);
      if IsBlockEmpty(d, i) then rest + 1 else rest
  }

  lemma FreeSetStep(d: Disk, i: nat)
    requires Formatted(d) && i <= NUM_BLOCKS
    ensures i == NUM_BLOCKS ==> FreeSet(d, i) == {}
    ensures i < NUM_BLOCKS && IsBlockEmpty(d, i) ==> FreeSet(d, i) == {i} + FreeSet(d, i + 1) && i !in FreeSet(d, i + 1)
    ensures i < NUM_BLOCKS && !IsBlockEmpty(d, i) ==> FreeSet(d, i) == FreeSet(d, i + 1)
  {
  }

  /** The counting loop counts the set of free blocks from `i` on. */
  lemma {:induction false} CountFreeIsCardinality(d: Disk, i: nat)
    requires Formatted(d) && i <= NUM_BLOCKS
    ensures CountFree(d, i) == |FreeSet(d, i)|
    decreases NUM_BLOCKS - i
  {
    FreeSetStep(d, i);
    if i < NUM_BLOCKS {
      CountFreeIsCardinality(d, i + 1);
    }
  }

  /** getNumFreeBlocks: the empty blocks among 2 .. NUM_BLOCKS-1. */
  function NumFreeBlocks(d: Disk): (n: nat)
    requires Formatted(d)
    ensures n == |FreeBlocks(d)|
    ensures n <= NUM_BLOCKS - 2
  {
    CountFree(d, 2)
  }

  /** getNumFreeBlocks counts exactly the set of free data blocks. */
  lemma NumFreeIsCardinality(d: Disk)
    requires Formatted(d)
    ensures NumFreeBlocks(d) == |FreeSet(d, 2)|
  {
    CountFreeIsCardinality(d, 2);
  }

  lemma SubsetCard(a: set<int>, b: set<int>)
    requires a <= b
    ensures |a| <= |b|
  {
    assert b == a + (b - a);
  }

  /** Disks with the same data blocks have the same free blocks. */
  lemma AgreeKeepsFree(d: Disk, e: Disk)
    requires Formatted(d) && Formatted(e) && Agree(d, e, {})
    ensures NumFreeBlocks(e) == NumFreeBlocks(d)
    ensures forall b :: 2 <= b < NUM_BLOCKS ==> (IsBlockEmpty(e, b) <==> IsBlockEmpty(d, b))
  {
    assert forall b :: 2 <= b < NUM_BLOCKS ==> e.blocks[b] == d.blocks[b];
    assert FreeSet(e, 2) == FreeSet(d, 2);
    NumFreeIsCardinality(d);
    NumFreeIsCardinality(e);
  }

  /** Storing into one block costs at most that block from the free count. */
  lemma StoreLosesAtMostOneFree(d: Disk, e: Disk, block: int)
    requires Formatted(d) && Formatted(e) && Agree(d, e, {block})
    ensures NumFreeBlocks(e) >= NumFreeBlocks(d) - 1
  {
    NumFreeIsCardinality(d);
    NumFreeIsCardinality(e);
    var a := FreeSet(d, 2);
    var b := FreeSet(e, 2);
    forall x | x in a - {block}
      ensures x in b
    {
      assert e.blocks[x] == d.blocks[x];
    }
    DropOneCard(a, b, block);
  }

  /** A set that loses at most one element on the way into `b`. */
  lemma DropOneCard(a: set<int>, b: set<int>, block: int)
    requires a - {block} <= b
    ensures |b| >= |a| - 1
  {
    SubsetCard(a - {block}, b);
    if block in a {
      assert a == (a - {block}) + {block};
    } else {
      assert a == a - {block};
    }
  }

  /** getRandomBlock with its sampling loop replaced by an oracle draw:
      -1 when nothing is free, otherwise the free block the draw selects. */
  function RandomBlock(d: Disk, draw: nat): (b: int)
    requires Formatted(d)
    ensures b == -1 <==> NumFreeBlocks(d) == 0
    ensures b != -1 ==> 2 <= b < NUM_BLOCKS && IsBlockEmpty(d, b)
  {
    if NumFreeBlocks(d) <= 0 then -1
    else
      var free := FreeBlocks(d);
      assert free[draw % |free|] in free;
      free[draw % |free|]
  }

  lemma RandomBlockAtIndex(d: Disk, p: nat)
    requires Formatted(d) && p < |FreeBlocks(d)|
    ensures RandomBlock(d, p) == FreeBlocks(d)[p]
  {
    ModOfSmaller(p, |FreeBlocks(d)|);
  }

  /** The oracle does not narrow the choice: every free data block is the
      answer to some draw. */
  lemma RandomBlockReachesEveryFreeBlock(d: Disk, b: int)
    requires Formatted(d) && 2 <= b < NUM_BLOCKS && IsBlockEmpty(d, b)
    ensures exists draw: nat :: RandomBlock(d, draw) == b
  {
    var free := FreeBlocks(d);
    assert b in free;
    var p :| 0 <= p < |free| && free[p] == b;
    RandomBlockAtIndex(d, p);
  }

  // ---------------------------------------------------------------------
  // getNextContigSpace

  /** Blocks s .. s+n-1 are all free data blocks. */
  predicate EmptyRun(d: Disk, s: int, n: nat)
    requires Formatted(d)
  {
    2 <= s && s + n <= NUM_BLOCKS && forall k :: s <= k < s + n ==> IsBlockEmpty(d, k)
  }

  /** Length of the run of free blocks that ends at `j` (0 if `j` is used). */
  function RunEnding(d: Disk, j: int): (n: nat)
    requires Formatted(d) && 2 <= j < NUM_BLOCKS
    ensures n <= j - 1
    ensures forall k :: j - n < k <= j ==> IsBlockEmpty(d, k)
    ensures j - n >= 2 ==> !IsBlockEmpty(d, j - n)
    decreases j
  {
    if !IsBlockEmpty(d, j) then 0
    else if j == 2 then 1
    else RunEnding(d, j - 1) + 1
  }

  /** Any all-free stretch ending at `j` lies inside the run ending at `j`. */
  lemma {:induction false} RunEndingIsMaximal(d: Disk, s: int, j: int)
    requires Formatted(d) && 2 <= s <= j < NUM_BLOCKS
    requires forall k :: s <= k <= j ==> IsBlockEmpty(d, k)
    ensures RunEnding(d, j) >= j - s + 1
    decreases j
  {
    if j > s {
      RunEndingIsMaximal(d, s, j - 1);
    }
  }

  /** The counter the scan carries into iteration `i`. */
  function Carry(d: Disk, i: int): nat
    requires Formatted(d) && 2 <= i < NUM_BLOCKS
  {
    if i > 2 && IsBlockEmpty(d, i - 1) && IsBlockEmpty(d, i) then RunEnding(d, i) else 0
  }

  /** The loop of getNextContigSpace from iteration `i` with counter `freeBlocks`. */
  function ContigScan(d: Disk, needed: int, i: int, freeBlocks: int): (s: int)
    requires Formatted(d) && 2 <= i <= NUM_BLOCKS - 1
    decreases NUM_BLOCKS - 1 - i
  {
    if i >= NUM_BLOCKS - 1 then -1
    else if IsBlockEmpty(d, i) then
      var f1 := if freeBlocks == 0 then freeBlocks + 1 else freeBlocks;
      var f2 := if IsBlockEmpty(d, i + 1) then f1 + 1 else 0;
      if f2 >= needed then i - f2 + 2 else ContigScan(d, needed, i + 1, f2)
    else ContigScan(d, needed, i + 1, freeBlocks)
  }

  /** getNextContigSpace: a start block, or -1. For needed >= 1 it is the
      lowest start of max(needed, 2) free blocks, so a lone free block (one
      followed by a used block, or the last block of the disk) is never
      reported; with nothing needed it is the first free block f below the
      last one, or f+2 when f+1 is used, whatever block f+2 is. */
  function NextContigSpace(d: Disk, needed: int): (s: int)
    requires Formatted(d)
    ensures s == -1 || 2 <= s <= NUM_BLOCKS
    ensures needed >= 1 ==> s == FirstRun(d, Max(needed, 2), 2)
    ensures needed <= 0 ==>
              var f := FirstEmpty(d, 2);
              s == if f == -1 then -1 else if IsBlockEmpty(d, f + 1) then f else f + 2
  {
    assert Carry(d, 2) == 0;
    if needed >= 1 then
      ContigScanFindsFirstRun(d, needed, 2);
      ContigScan(d, needed, 2, 0)
    else
      ContigScanZero(d, needed, 2);
      ContigScan(d, needed, 2, 0)
  }

  /** Reference search: the lowest start >= s of a free run of length w. */
  function FirstRun(d: Disk, w: nat, s: int): (r: int)
    requires Formatted(d) && 2 <= s
    ensures r == -1 || (s <= r && EmptyRun(d, r, w))
    ensures forall t :: s <= t && (r == -1 || t < r) ==> !EmptyRun(d, t, w)
    decreases NUM_BLOCKS - s
  {
    if s + w > NUM_BLOCKS then -1
    else if EmptyRun(d, s, w) then s
    else FirstRun(d, w, s + 1)
  }

  /** Reference search: the lowest free block among i .. NUM_BLOCKS-2. */
  function FirstEmpty(d: Disk, i: int): (r: int)
    requires Formatted(d) && 2 <= i
    ensures r == -1 || (i <= r < NUM_BLOCKS - 1 && IsBlockEmpty(d, r))
    ensures forall k :: i <= k < NUM_BLOCKS - 1 && (r == -1 || k < r) ==> !IsBlockEmpty(d, k)
    decreases NUM_BLOCKS - i
  {
    if i >= NUM_BLOCKS - 1 then -1
    else if IsBlockEmpty(d, i) then i
    else FirstEmpty(d, i + 1)
  }

  function Max(a: int, b: int): int { if a < b then b else a }

  /** No free run of length `w` is complete before iteration `i`. */
  predicate NoRunBefore(d: Disk, w: nat, i: int)
    requires Formatted(d)
  {
    forall s :: 2 <= s && s + w - 2 < i ==> !EmptyRun(d, s, w)
  }

  lemma FirstRunIs(d: Disk, w: nat, s0: int)
    requires Formatted(d) && EmptyRun(d, s0, w)
    requires forall t :: 2 <= t < s0 ==> !EmptyRun(d, t, w)
    ensures FirstRun(d, w, 2) == s0
  {
  }

  /** Iteration `i` at a used block, or at a free block the scan moves past,
      completes no run. */
  lemma NoRunEndsAt(d: Disk, needed: int, i: int)
    requires Formatted(d) && needed >= 1 && 2 <= i < NUM_BLOCKS - 1
    requires NoRunBefore(d, Max(needed, 2), i)
    requires !IsBlockEmpty(d, i) || !IsBlockEmpty(d, i + 1) || RunEnding(d, i + 1) < needed
    ensures NoRunBefore(d, Max(needed, 2), i + 1)
  {
    var w := Max(needed, 2);
    forall s | 2 <= s && s + w - 2 < i + 1
      ensures !EmptyRun(d, s, w)
    {
      if s + w - 2 == i && EmptyRun(d, s, w) {
        RunEndingIsMaximal(d, s, i + 1);
      }
    }
  }

  /** One iteration of the scan, with the counter it carries: the counter
      is the length of the free run ending at the current block whenever
      the previous block is free too. */
  lemma ContigScanStep(d: Disk, needed: int, i: int)
    requires Formatted(d) && needed >= 1 && 2 <= i < NUM_BLOCKS - 1
    ensures ContigScan(d, needed, i, Carry(d, i))
            == if IsBlockEmpty(d, i) && IsBlockEmpty(d, i + 1) && RunEnding(d, i + 1) >= needed
               then i - RunEnding(d, i + 1) + 2
               else ContigScan(d, needed, i + 1, Carry(d, i + 1))
  {
    var fb := Carry(d, i);
    if IsBlockEmpty(d, i) {
      var f1 := if fb == 0 then fb + 1 else fb;
      assert f1 == RunEnding(d, i);
      if IsBlockEmpty(d, i + 1) {
        assert f1 + 1 == RunEnding(d, i + 1) == Carry(d, i + 1);
      }
    }
  }

  /** The scan from iteration `i` (runs finished before `i` having been
      ruled out) finds the lowest run of max(needed, 2) free blocks. */
  lemma {:induction false} ContigScanFindsFirstRun(d: Disk, needed: int, i: int)
    requires Formatted(d) && needed >= 1 && 2 <= i <= NUM_BLOCKS - 1
    requires NoRunBefore(d, Max(needed, 2), i)
    ensures i < NUM_BLOCKS - 1 ==> ContigScan(d, needed, i, Carry(d, i)) == FirstRun(d, Max(needed, 2), 2)
    ensures i == NUM_BLOCKS - 1 ==> FirstRun(d, Max(needed, 2), 2) == -1
    decreases NUM_BLOCKS - 1 - i
  {
    var w := Max(needed, 2);
    if i == NUM_BLOCKS - 1 {
      return;
    }
    ContigScanStep(d, needed, i);
    if IsBlockEmpty(d, i) && IsBlockEmpty(d, i + 1) && RunEnding(d, i + 1) >= needed {
      FirstRunIs(d, w, i - RunEnding(d, i + 1) + 2);
    } else {
      NoRunEndsAt(d, needed, i);
      ContigScanFindsFirstRun(d, needed, i + 1);
      if i + 1 == NUM_BLOCKS - 1 {
        assert ContigScan(d, needed, i + 1, Carry(d, i + 1)) == -1;
      }
    }
  }

  /** With nothing needed, the scan stops at the first free block i and
      answers i when i+1 is free too, and i+2 otherwise. */
  lemma {:induction false} ContigScanZero(d: Disk, needed: int, i: int)
    requires Formatted(d) && needed <= 0 && 2 <= i <= NUM_BLOCKS - 1
    requires forall k :: 2 <= k < i ==> !IsBlockEmpty(d, k)
    ensures var f := FirstEmpty(d, i);
            ContigScan(d, needed, i, Carry(d, i))
              == if f == -1 then -1 else if IsBlockEmpty(d, f + 1) then f else f + 2
    decreases NUM_BLOCKS - 1 - i
  {
    if i < NUM_BLOCKS - 1 && !IsBlockEmpty(d, i) {
      ContigScanZero(d, needed, i + 1);
    }
  }

  // ---------------------------------------------------------------------
  // clearBlock and updateBitmap

  /** Block `x` either keeps its bytes or is all zero. */
  predicate KeptOrZeroed(d: Disk, e: Disk, x: int)
    requires Formatted(d) && Formatted(e) && 0 <= x < NUM_BLOCKS
  {
    e.blocks[x] == d.blocks[x] || e.blocks[x] == Zeros(BLOCK_SIZE)
  }

  /** Every block but the bitmap either keeps its bytes or is all zero:
      nothing but zeros was stored. */
  predicate OnlyZeroed(d: Disk, e: Disk)
    requires Formatted(d) && Formatted(e)
  {
    forall x :: 0 <= x < NUM_BLOCKS && x != 1 ==> KeptOrZeroed(d, e, x)
  }

  lemma OnlyZeroedTrans(d: Disk, e: Disk, f: Disk)
    requires Formatted(d) && Formatted(e) && Formatted(f)
    requires OnlyZeroed(d, e) && OnlyZeroed(e, f)
    ensures OnlyZeroed(d, f)
  {
    forall x | 0 <= x < NUM_BLOCKS && x != 1
      ensures KeptOrZeroed(d, f, x)
    {
      assert KeptOrZeroed(d, e, x) && KeptOrZeroed(e, f, x);
    }
  }

  /** clearBlock: clears the block's flag, then writes zero to every byte. */
  function ClearBlock(d: Disk, block: int): (e: Disk)
    requires Formatted(d) && 0 <= block < NUM_BLOCKS
    ensures Formatted(e)
    ensures block != 1 ==> e.blocks[block] == Zeros(BLOCK_SIZE) && Agree(d, e, {block})
    ensures OnlyZeroed(d, e)
  {
    var d1 := Write(d, 1, block, 0);
    var e := WriteRun(d1, block, 0, Zeros(BLOCK_SIZE));
    if block == 1 then
      WriteEffect(d, 1, block, 0);
      e
    else
      FlagWriteAgrees(d, block, 0);
      WriteRunAgrees(d1, block, 0, Zeros(BLOCK_SIZE));
      WriteRunContent(d1, block, 0, Zeros(BLOCK_SIZE));
      AgreeTrans(d, d1, e, {}, {block});
      assert {} + {block} == {block};
      e
  }

  /** Some data block holds a nonzero byte. */
  predicate AnyData(d: Disk)
    requires Formatted(d)
  {
    exists j :: 2 <= j < NUM_BLOCKS && !IsBlockEmpty(d, j)
  }

  function Flag(d: Disk, j: int): Byte
    requires Formatted(d) && 0 <= j < NUM_BLOCKS
  {
    if IsBlockEmpty(d, j) then 0 else 1
  }

  /** updateBitmap's loop from block `i`: writes each block's flag and
      counts the used blocks. */
  function MarkFrom(d: Disk, i: int): (r: (Disk, nat))
    requires Formatted(d) && 2 <= i <= NUM_BLOCKS
    ensures Formatted(r.0) && Agree(d, r.0, {})
    ensures forall j :: i <= j < NUM_BLOCKS ==> r.0.blocks[1][j] == Flag(d, j)
    ensures forall j :: 2 <= j < i ==> r.0.blocks[1][j] == d.blocks[1][j]
    ensures r.0.blocks[1][0] == d.blocks[1][0]
    ensures r.1 > 0 <==> exists j :: i <= j < NUM_BLOCKS && !IsBlockEmpty(d, j)
    decreases NUM_BLOCKS - i
  {
    if i == NUM_BLOCKS then (d, 0)
    else
      var empty := IsBlockEmpty(d, i);
      var d1 := Write(d, 1, i, if empty then 0 else 1);
      FlagWriteAgrees(d, i, if empty then 0 else 1);
      var r := MarkFrom(d1, i + 1);
      AgreeTrans(d, d1, r.0, {}, {});
      assert forall j :: i + 1 <= j < NUM_BLOCKS ==> IsBlockEmpty(d1, j) == IsBlockEmpty(d, j);
      (r.0, if empty then r.1 else r.1 + 1)
  }

  /** The two closing writes of updateBitmap: the flags of blocks 0 and 1.
      The flag of block 1 ends up set when any byte of block 1 from offset 2
      on is nonzero, even when `flag` is 0. */
  function SetReservedFlags(d: Disk, flag: Byte): (e: Disk)
    requires Formatted(d) && (flag == 0 || flag == 1)
    ensures Formatted(e) && Agree(d, e, {})
    ensures forall j :: 2 <= j < BLOCK_SIZE ==> e.blocks[1][j] == d.blocks[1][j]
    ensures e.blocks[1][0] == flag
    ensures e.blocks[1][1] == if flag == 1 || !AllZero(d.blocks[1][2..]) then 1 else 0
  {
    var d2 := Write(d, 1, 0, flag);
    var e := Write(d2, 1, 1, flag);
    FlagWriteAgrees(d, 0, flag);
    FlagWriteAgrees(d2, 1, flag);
    AgreeTrans(d, d2, e, {}, {});
    WriteAtFlagOfBlockOne(d2, flag);
    var p := Poke(d2.blocks[1], 1, flag);
    assert p[2..] == d.blocks[1][2..];
    AllZeroSplit(p, 2);
    assert AllZero(p[..2]) <==> flag == 0;
    e
  }

  /** updateBitmap: rewrites the flags of blocks 2.. from their content, and
      sets the flags of the two reserved blocks to "some data block is used".
      The flag write of the last store also sets the flag of block 1 when
      block 1 still holds a nonzero spare byte. */
  function UpdateBitmap(d: Disk): (e: Disk)
    requires Formatted(d)
    ensures Formatted(e) && Agree(d, e, {})
    ensures forall j :: 2 <= j < NUM_BLOCKS ==> e.blocks[1][j] == Flag(d, j)
    ensures e.blocks[1][0] == (if AnyData(d) then 1 else 0)
    ensures e.blocks[1][1] == (if AnyData(d) || !AllZero(Spare(d)) then 1 else 0)
  {
    var r := MarkFrom(d, 2);
    var flag: Byte := if r.1 > 0 then 1 else 0;
    var e := SetReservedFlags(r.0, flag);
    AgreeTrans(d, r.0, e, {}, {});
    FlagsAllZero(d, r.0);
    e
  }

  /** After the flag loop, the bytes of block 1 from offset 2 on are all zero
      exactly when no data block is used and the spare bytes are zero. */
  lemma FlagsAllZero(d: Disk, m: Disk)
    requires Formatted(d) && Formatted(m) && Agree(d, m, {})
    requires forall j :: 2 <= j < NUM_BLOCKS ==> m.blocks[1][j] == Flag(d, j)
    ensures AllZero(m.blocks[1][2..]) <==> !AnyData(d) && AllZero(Spare(d))
  {
    var s := m.blocks[1][2..];
    AllZeroSplit(s, NUM_BLOCKS - 2);
    assert s[NUM_BLOCKS - 2..] == Spare(m);
    if AllZero(s[..NUM_BLOCKS - 2]) {
      forall j | 2 <= j < NUM_BLOCKS
        ensures IsBlockEmpty(d, j)
      {
        assert s[..NUM_BLOCKS - 2][j - 2] == 0;
      }
    }
  }

  /** The bitmap block agrees with the content of the disk. */
  predicate BitmapConsistent(d: Disk)
    requires Formatted(d)
  {
    && (forall j :: 2 <= j < NUM_BLOCKS ==> d.blocks[1][j] == Flag(d, j))
    && d.blocks[1][0] == d.blocks[1][1] == (if AnyData(d) then 1 else 0)
  }

  /** A rebuild on a disk whose spare bitmap bytes are zero leaves a
      consistent bitmap: a block is flagged exactly when it holds data, and
      both reserved flags say whether any data block does. */
  lemma UpdateBitmapConsistent(d: Disk)
    requires Formatted(d) && AllZero(Spare(d))
    ensures BitmapConsistent(UpdateBitmap(d))
  {
    var e := UpdateBitmap(d);
    SameDataSameFlags(d, e);
  }

  /** Disks that agree on their data blocks have the same flags. */
  lemma SameDataSameFlags(d: Disk, e: Disk)
    requires Formatted(d) && Formatted(e) && Agree(d, e, {})
    ensures forall j :: 2 <= j < NUM_BLOCKS ==> Flag(e, j) == Flag(d, j)
    ensures AnyData(e) == AnyData(d)
  {
    assert forall j :: 2 <= j < NUM_BLOCKS ==> e.blocks[j] == d.blocks[j];
    if AnyData(d) {
      var j :| 2 <= j < NUM_BLOCKS && !IsBlockEmpty(d, j);
      assert !IsBlockEmpty(e, j);
    }
    if AnyData(e) {
      var j :| 2 <= j < NUM_BLOCKS && !IsBlockEmpty(e, j);
      assert !IsBlockEmpty(d, j);
    }
  }

  /** The rebuild reads nothing but the data blocks and the spare bytes of
      block 1, so two disks that agree there rebuild to the same disk. */
  lemma {:induction false} UpdateBitmapDependsOnlyOnData(d: Disk, d': Disk)
    requires Formatted(d) && Formatted(d') && Agree(d, d', {})
    ensures UpdateBitmap(d) == UpdateBitmap(d')
  {
    var e, e' := UpdateBitmap(d), UpdateBitmap(d');
    SameDataSameFlags(d, d');
    SameBitmapBlock(d, d', e, e');
    SameBlocks(d, d', e, e');
  }

  lemma SameBlocks(d: Disk, d': Disk, e: Disk, e': Disk)
    requires Formatted(d) && Formatted(d') && Formatted(e) && Formatted(e')
    requires Agree(d, e, {}) && Agree(d', e', {}) && Agree(d, d', {})
    requires e.blocks[1] == e'.blocks[1]
    ensures e == e'
  {
    assert forall x :: 0 <= x < NUM_BLOCKS ==> e.blocks[x] == e'.blocks[x];
  }

  lemma SameBitmapBlock(d: Disk, d': Disk, e: Disk, e': Disk)
    requires Formatted(d) && Formatted(d') && Formatted(e) && Formatted(e')
    requires Agree(d, e, {}) && Agree(d', e', {}) && Spare(d) == Spare(d')
    requires forall j :: 2 <= j < NUM_BLOCKS ==> e.blocks[1][j] == e'.blocks[1][j]
    requires e.blocks[1][0] == e'.blocks[1][0] && e.blocks[1][1] == e'.blocks[1][1]
    ensures e.blocks[1] == e'.blocks[1]
  {
    assert e.blocks[1] == e.blocks[1][..NUM_BLOCKS] + Spare(e);
    assert e'.blocks[1] == e'.blocks[1][..NUM_BLOCKS] + Spare(e');
    assert e.blocks[1][..NUM_BLOCKS] == e'.blocks[1][..NUM_BLOCKS];
  }

  /** Rebuilding twice is rebuilding once. */
  lemma UpdateBitmapIdempotent(d: Disk)
    requires Formatted(d)
    ensures UpdateBitmap(UpdateBitmap(d)) == UpdateBitmap(d)
  {
    UpdateBitmapDependsOnlyOnData(d, UpdateBitmap(d));
  }
}
