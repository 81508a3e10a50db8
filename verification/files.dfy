/** The file-level operations of DiskInterfaceUtils.java and the copy
    dispatch of DiskInterface.java: reading a file back by name, deleting
    it, and copying content onto the disk under the allocation kind the
    disk was built with. */
module FileOperations {
  import opened Common
  import opened BlockStore
  import opened Geometry
  import opened FreeSpace
  import opened Records
  import opened Names
  import opened Fat
  import opened Allocation
  import opened ChainedFiles
  import opened IndexedFiles
  import opened ContiguousFiles

  // ---------------------------------------------------------------------
  // getFileBytesFromDisk

  /** The bytes the blocks of a record give, before trailing zeros are
      stripped, following the branch of the allocation kind. */
  function ReadRecord(d: Disk, kind: AllocationType, rec: FileRecord): (r: Result<seq<Byte>>)
    requires Formatted(d) && ScannedShape(rec)
    ensures r.Err? <==> || (kind == Indexed && |IndexList(d.blocks[rec.block])| == 0)
                        || (kind == Contiguous && rec.block + Max(rec.length, 1) > NUM_BLOCKS)
    ensures r.Err? ==> r.fault == if kind == Indexed then EmptyIndexBlock else BadAddress
    ensures r.Ok? ==> |r.value| >= BLOCK_SIZE
  {
    match kind
    case Chained => Ok(ReadChain(d, rec.block, rec.length))
    case Indexed => ReadIndexed(d, rec.block)
    case Contiguous => ReadContiguous(d, rec.block, rec.length)
  }

  /** getFileBytesFromDisk: looks the name up, reads the record's blocks
      and drops every trailing zero byte. An unknown name fails, as the
      null record it looks up is dereferenced. */
  function GetFileBytes(d: Disk, kind: AllocationType, name: seq<Byte>): (r: Result<seq<Byte>>)
    requires Formatted(d)
    ensures r == Err(NoRecord) <==> GetFileRecord(d, kind, name).None?
    ensures r.Ok? ==> NoTrailingZero(r.value)
  {
    var found := GetFileRecord(d, kind, name);
    if found.None? then Err(NoRecord)
    else
      assert found.value in GetFAT(d, kind).1;
      ReadTrimmed(d, kind, found.value)
  }

  /** The found record's bytes without their trailing zeros. */
  function ReadTrimmed(d: Disk, kind: AllocationType, rec: FileRecord): (r: Result<seq<Byte>>)
    requires Formatted(d) && ScannedShape(rec)
    ensures r.Err? ==> r.fault != NoRecord
    ensures r.Ok? ==> NoTrailingZero(r.value)
  {
    var raw := ReadRecord(d, kind, rec);
    if raw.Err? then Err(raw.fault) else Ok(StripTrailingZeros(raw.value))
  }

  /** A record found by name whose blocks read as `raw` gives `raw`
      without its trailing zeros. */
  lemma GetFileBytesOfRecord(d: Disk, kind: AllocationType, name: seq<Byte>, raw: seq<Byte>)
    requires Formatted(d) && GetFileRecord(d, kind, name).Some?
    ensures ScannedShape(GetFileRecord(d, kind, name).value)
    ensures ReadRecord(d, kind, GetFileRecord(d, kind, name).value) == Ok(raw) ==>
              GetFileBytes(d, kind, name) == Ok(StripTrailingZeros(raw))
  {
  }

  // ---------------------------------------------------------------------
  // deleteFile

  /** The chained branch of deleteFile from `block` on, with `length`
      blocks to go: the link is read before the block is cleared, and the
      last block (or the only one) is cleared without following it. */
  function ClearChain(d: Disk, block: Byte, length: int): (e: Disk)
    requires Formatted(d)
    ensures Formatted(e) && OnlyZeroed(d, e)
    decreases length
  {
    if length > 1 then
      var d1 := ClearBlock(d, block);
      var e := ClearChain(d1, d.blocks[block][CHAINED_BLOCK_SIZE], length - 1);
      OnlyZeroedTrans(d, d1, e);
      e
    else ClearBlock(d, block)
  }

  /** Clears the listed blocks one after the other. */
  function ClearList(d: Disk, list: seq<Byte>): (e: Disk)
    requires Formatted(d)
    ensures Formatted(e) && OnlyZeroed(d, e)
    decreases |list|
  {
    if |list| == 0 then d
    else
      var d1 := ClearBlock(d, list[0]);
      var e := ClearList(d1, list[1..]);
      OnlyZeroedTrans(d, d1, e);
      e
  }

  /** The indexed branch of deleteFile: the list is taken from the index
      block first, the listed blocks are cleared, then the index block. An
      empty list fails, as taking its first entry does. */
  function ClearIndexed(d: Disk, index: Byte): (r: Result<Disk>)
    requires Formatted(d)
    ensures r.Err? <==> |IndexList(d.blocks[index])| == 0
    ensures r.Err? ==> r.fault == EmptyIndexBlock
    ensures r.Ok? ==> Formatted(r.value) && OnlyZeroed(d, r.value)
  {
    var list := IndexList(d.blocks[index]);
    if |list| == 0 then Err(EmptyIndexBlock)
    else
      var d1 := ClearList(d, list);
      OnlyZeroedTrans(d, d1, ClearBlock(d1, index));
      Ok(ClearBlock(d1, index))
  }

  /** The contiguous branch of deleteFile from `block` on, `n` blocks to
      go. Clearing a block past the last one fails. */
  function ClearRun(d: Disk, block: int, n: int): (r: Result<Disk>)
    requires Formatted(d) && 0 <= block
    ensures r.Err? <==> n > 0 && block + n > NUM_BLOCKS
    ensures r.Err? ==> r.fault == BadAddress
    ensures r.Ok? ==> Formatted(r.value) && OnlyZeroed(d, r.value)
    decreases n
  {
    if n <= 0 then Ok(d)
    else if block >= NUM_BLOCKS then Err(BadAddress)
    else
      var d1 := ClearBlock(d, block);
      var r := ClearRun(d1, block + 1, n - 1);
      if r.Ok? then OnlyZeroedTrans(d, d1, r.value); r else r
  }

  /** deleteFile's removal of the record: zero bytes over slot `index`. An
      index of -1 (name not found by getFileRecordIndex) fails on the first
      store, before block 0. */
  function ZeroRecord(d: Disk, kind: AllocationType, index: int): (r: Result<Disk>)
    requires Formatted(d)
    ensures r.Err? <==> index < 0 || (index + 1) * RecordSize(kind) > BLOCK_SIZE
    ensures r.Err? ==> r.fault == BadAddress
    ensures r.Ok? ==> Formatted(r.value)
  {
    var rs := RecordSize(kind);
    if index < 0 || index * rs + rs > BLOCK_SIZE then Err(BadAddress)
    else Ok(WriteRun(d, 0, index * rs, Zeros(rs)))
  }

  /** The blocks the kind's branch of deleteFile clears. */
  function ClearFile(d: Disk, kind: AllocationType, rec: FileRecord): (r: Result<Disk>)
    requires Formatted(d) && ScannedShape(rec)
    ensures r.Err? <==> || (kind == Indexed && |IndexList(d.blocks[rec.block])| == 0)
                        || (kind == Contiguous && rec.length > 0 && rec.block + rec.length > NUM_BLOCKS)
    ensures r.Err? ==> r.fault == if kind == Indexed then EmptyIndexBlock else BadAddress
    ensures r.Ok? ==> Formatted(r.value) && OnlyZeroed(d, r.value)
  {
    match kind
    case Chained => Ok(ClearChain(d, rec.block, rec.length))
    case Indexed => ClearIndexed(d, rec.block)
    case Contiguous => ClearRun(d, rec.block, rec.length)
  }

  /** deleteFile: looks the record up by name (trimmed) and its slot by
      name (untrimmed), clears the file's blocks, zeroes the slot, and
      sorts the table. An unknown name fails. */
  function DeleteFile(d: Disk, kind: AllocationType, name: seq<Byte>): (r: Result<Disk>)
    requires Formatted(d)
    ensures GetFileRecord(d, kind, name).None? ==> r == Err(NoRecord)
    ensures r.Ok? ==> Formatted(r.value)
  {
    match GetFileRecord(d, kind, name)
    case None => Err(NoRecord)
    case Some(rec) =>
      var index := GetFileRecordIndex(GetFAT(d, kind).1, name);
      match ClearFile(d, kind, rec)
      case Err(f) => Err(f)
      case Ok(d1) =>
        match ZeroRecord(d1, kind, index)
        case Err(f) => Err(f)
        case Ok(d2) => SortFAT(d2, kind)
  }

  /** On data blocks, the contiguous branch zeroes the run and changes no
      other block. */
  lemma ClearRunEffect(d: Disk, block: int, n: nat)
    requires Formatted(d) && 2 <= block && block + n <= NUM_BLOCKS
    ensures ClearRun(d, block, n).Ok?
    ensures Agree(d, ClearRun(d, block, n).value, Blocks(RunBlocks(block, n)))
    ensures forall k :: 0 <= k < n ==> ClearRun(d, block, n).value.blocks[RunBlocks(block, n)[k]] == Zeros(BLOCK_SIZE)
  {
    var e := ClearRunZeroes(d, block, n);
    RunBlocksAreData(block, n);
    assert Blocks(RunBlocks(block, n)) == Span(block, n);
  }

  /** Membership in a run of block numbers, named so that the set below
      has a term to trigger on. */
  predicate InSpan(block: int, n: nat, x: int) {
    block <= x < block + n
  }

  /** The block numbers `block`, ..., `block + n - 1`. */
  function Span(block: int, n: nat): set<int> {
    set x | block <= x < block + n && InSpan(block, n, x)
  }

  /** The disk the contiguous branch leaves on a run of data blocks. */
  lemma {:induction false} ClearRunZeroes(d: Disk, block: int, n: nat) returns (e: Disk)
    requires Formatted(d) && 2 <= block && block + n <= NUM_BLOCKS
    ensures ClearRun(d, block, n) == Ok(e)
    ensures Agree(d, e, Span(block, n))
    ensures forall x :: block <= x < block + n ==> e.blocks[x] == Zeros(BLOCK_SIZE)
    decreases n
  {
    if n == 0 {
      e := d;
      AgreeRefl(d);
      AgreeWiden(d, d, {}, Span(block, n));
    } else {
      var d1 := ClearBlock(d, block);
      e := ClearRunZeroes(d1, block + 1, n - 1);
      ClearRunZeroesStep(d, d1, e, block, n);
    }
  }

  /** Clearing `block` in front of a cleared run of `n - 1` blocks clears
      the run of `n`. */
  lemma ClearRunZeroesStep(d: Disk, d1: Disk, e: Disk, block: int, n: nat)
    requires Formatted(d) && 2 <= block && 0 < n && block + n <= NUM_BLOCKS
    requires d1 == ClearBlock(d, block)
    requires Agree(d1, e, Span(block + 1, n - 1))
    requires forall x :: block + 1 <= x < block + n ==> e.blocks[x] == Zeros(BLOCK_SIZE)
    ensures Agree(d, e, Span(block, n))
    ensures forall x :: block <= x < block + n ==> e.blocks[x] == Zeros(BLOCK_SIZE)
  {
    AgreeTrans(d, d1, e, {block}, Span(block + 1, n - 1));
    assert {block} + Span(block + 1, n - 1) == Span(block, n);
    assert e.blocks[block] == d1.blocks[block];
  }

  /** On data blocks, the listed blocks end up zero and no other block
      changes. */
  lemma {:induction false} ClearListEffect(d: Disk, list: seq<Byte>)
    requires Formatted(d) && forall k :: 0 <= k < |list| ==> 2 <= list[k]
    ensures Agree(d, ClearList(d, list), set k | 0 <= k < |list| :: list[k])
    ensures forall k :: 0 <= k < |list| ==> ClearList(d, list).blocks[list[k]] == Zeros(BLOCK_SIZE)
    decreases |list|
  {
    var listed := set k | 0 <= k < |list| :: list[k];
    if |list| == 0 {
      AgreeRefl(d);
    } else {
      var d1 := ClearBlock(d, list[0]);
      ClearListEffect(d1, list[1..]);
      var e := ClearList(d1, list[1..]);
      var rest := set k | 0 <= k < |list[1..]| :: list[1..][k];
      assert rest <= listed by {
        forall x | x in rest
          ensures x in listed
        {
          var k :| 0 <= k < |list[1..]| && list[1..][k] == x;
          assert list[k + 1] == x;
        }
      }
      assert list[0] in listed;
      AgreeTrans(d, d1, e, {list[0]}, rest);
      AgreeWiden(d, e, {list[0]} + rest, listed);
      forall k | 0 <= k < |list|
        ensures e.blocks[list[k]] == Zeros(BLOCK_SIZE)
      {
        if k > 0 {
          assert list[k] == list[1..][k - 1];
        } else if list[0] !in rest {
          assert e.blocks[list[0]] == d1.blocks[list[0]];
        } else {
          var j :| 0 <= j < |list[1..]| && list[1..][j] == list[0];
        }
      }
    }
  }

  /** The links a chain of distinct data blocks carries from position `k`
      on: each block's last byte names the next block. */
  predicate LinkedFrom(d: Disk, used: seq<int>, k: nat)
    requires Formatted(d) && DataBlocks(used)
  {
    forall j :: k <= j < |used| - 1 ==> d.blocks[used[j]][CHAINED_BLOCK_SIZE] == used[j + 1]
  }

  /** Walking a linked chain of distinct data blocks from position `k`, the
      chained branch of deleteFile zeroes exactly the rest of the chain. */
  lemma {:induction false} ClearChainEffect(d: Disk, used: seq<int>, k: nat)
    requires Formatted(d) && DataBlocks(used) && Distinct(used) && k < |used| && LinkedFrom(d, used, k)
    ensures Agree(d, ClearChain(d, used[k], |used| - k), Blocks(used[k..]))
    ensures forall j :: k <= j < |used| ==> ClearChain(d, used[k], |used| - k).blocks[used[j]] == Zeros(BLOCK_SIZE)
    decreases |used| - k
  {
    var d1 := ClearBlock(d, used[k]);
    HeadOfTail(used, k);
    if k + 1 == |used| {
      AgreeWiden(d, d1, {used[k]}, Blocks(used[k..]));
    } else {
      ClearChainStep(d, used, k);
      ClearChainEffect(d1, used, k + 1);
      var e := ClearChain(d1, used[k + 1], |used| - k - 1);
      assert ClearChain(d, used[k], |used| - k) == e;
      AgreeTrans(d, d1, e, {used[k]}, Blocks(used[k + 1..]));
      AgreeWiden(d, e, {used[k]} + Blocks(used[k + 1..]), Blocks(used[k..]));
    }
  }

  /** The block at position `k` and the blocks after it make up the tail
      from `k`; with distinct blocks, the one at `k` is not among the later
      ones. */
  lemma HeadOfTail(used: seq<int>, k: nat)
    requires k < |used|
    ensures used[k] in Blocks(used[k..]) && Blocks(used[k + 1..]) <= Blocks(used[k..])
    ensures Distinct(used) ==> used[k] !in Blocks(used[k + 1..])
  {
    assert used[k..][0] == used[k];
    forall x | x in Blocks(used[k + 1..])
      ensures x in Blocks(used[k..]) && (Distinct(used) ==> x != used[k])
    {
      var i :| 0 <= i < |used[k + 1..]| && used[k + 1..][i] == x;
      assert used[k..][i + 1] == x;
      assert used[k + 1 + i] == x;
    }
  }

  /** Clearing the block at position `k` keeps the later links. */
  lemma ClearChainStep(d: Disk, used: seq<int>, k: nat)
    requires Formatted(d) && DataBlocks(used) && Distinct(used) && k < |used| && LinkedFrom(d, used, k)
    ensures LinkedFrom(ClearBlock(d, used[k]), used, k + 1)
  {
    var d1 := ClearBlock(d, used[k]);
    forall j | k + 1 <= j < |used| - 1
      ensures d1.blocks[used[j]][CHAINED_BLOCK_SIZE] == used[j + 1]
    {
      assert used[j] != used[k];
    }
  }

  /** The slot removal stores zeros over the slot and changes no other byte
      of the table and no data block. */
  lemma ZeroRecordEffect(d: Disk, kind: AllocationType, index: int)
    requires Formatted(d) && ZeroRecord(d, kind, index).Ok?
    ensures var rs := RecordSize(kind);
            && Agree(d, ZeroRecord(d, kind, index).value, {0})
            && ZeroRecord(d, kind, index).value.blocks[0]
                 == d.blocks[0][..index * rs] + Zeros(rs) + d.blocks[0][index * rs + rs..]
  {
    var rs := RecordSize(kind);
    WriteRunAgrees(d, 0, index * rs, Zeros(rs));
    WriteRunContent(d, 0, index * rs, Zeros(rs));
  }

  /** The steps of a successful deleteFile: the record found, the blocks
      cleared, the slot zeroed (which changes only the table), then the
      sort. */
  lemma DeleteSteps(d: Disk, kind: AllocationType, name: seq<Byte>) returns (d1: Disk, d2: Disk)
    requires Formatted(d) && DeleteFile(d, kind, name).Ok?
    ensures GetFileRecord(d, kind, name).Some? && ScannedShape(GetFileRecord(d, kind, name).value)
    ensures ClearFile(d, kind, GetFileRecord(d, kind, name).value) == Ok(d1)
    ensures Formatted(d1) && Formatted(d2) && Agree(d1, d2, {0})
    ensures SortFAT(d2, kind) == DeleteFile(d, kind, name)
  {
    var rec := GetFileRecord(d, kind, name).value;
    d1 := ClearFile(d, kind, rec).value;
    var index := GetFileRecordIndex(GetFAT(d, kind).1, name);
    d2 := ZeroRecord(d1, kind, index).value;
    ZeroRecordEffect(d1, kind, index);
  }

  /** After the kind's branch has cleared the file's blocks, the rest of
      deleteFile (the slot removal and the sort) changes only the table. */
  lemma DeleteAfterClear(d: Disk, kind: AllocationType, name: seq<Byte>) returns (d1: Disk)
    requires Formatted(d) && DeleteFile(d, kind, name).Ok?
    ensures GetFileRecord(d, kind, name).Some? && ScannedShape(GetFileRecord(d, kind, name).value)
    ensures ClearFile(d, kind, GetFileRecord(d, kind, name).value) == Ok(d1)
    ensures Agree(d1, DeleteFile(d, kind, name).value, {0})
  {
    var d2;
    d1, d2 := DeleteSteps(d, kind, name);
    var e := DeleteFile(d, kind, name).value;
    RebuiltAgrees(d2, SortedFat(d2.blocks[0], kind));
    AgreeTrans(d1, d2, e, {0}, {0});
    assert {0} + {0} == {0};
  }

  /** Blocks zeroed by the clearing stay zero through the table update. */
  lemma ClearedKept(d: Disk, d1: Disk, e: Disk, touched: set<int>, cleared: seq<int>)
    requires Formatted(d1) && Formatted(e)
    requires Agree(d, d1, touched) && Agree(d1, e, {0}) && DataBlocks(cleared)
    requires forall k :: 0 <= k < |cleared| ==> d1.blocks[cleared[k]] == Zeros(BLOCK_SIZE)
    ensures Agree(d, e, {0} + touched)
    ensures forall k :: 0 <= k < |cleared| ==> e.blocks[cleared[k]] == Zeros(BLOCK_SIZE)
  {
    AgreeTrans(d, d1, e, touched, {0});
    assert touched + {0} == {0} + touched;
  }

  /** Deleting a contiguous file whose record lies on data blocks zeroes
      the blocks its record counts and changes no other block but the
      table. A record of length 0, which writeContiguous leaves for content
      shorter than a block, clears nothing: the content stays on disk. */
  lemma DeleteContiguousEffect(d: Disk, name: seq<Byte>, start: int, n: nat) returns (e: Disk)
    requires Formatted(d) && GetFileRecord(d, Contiguous, name).Some?
    requires GetFileRecord(d, Contiguous, name).value.block == start
    requires GetFileRecord(d, Contiguous, name).value.length == n
    requires 2 <= start && start + n <= NUM_BLOCKS
    ensures DeleteFile(d, Contiguous, name).Ok? ==>
              DeleteFile(d, Contiguous, name) == Ok(e) && Agree(d, e, {0} + Blocks(RunBlocks(start, n)))
    ensures DeleteFile(d, Contiguous, name).Ok? ==>
              forall k :: 0 <= k < n ==> e.blocks[RunBlocks(start, n)[k]] == Zeros(BLOCK_SIZE)
  {
    e := d;
    if DeleteFile(d, Contiguous, name).Ok? {
      var d1 := DeleteAfterClear(d, Contiguous, name);
      e := DeleteFile(d, Contiguous, name).value;
      ClearRunEffect(d, start, n);
      RunBlocksAreData(start, n);
      ClearedKept(d, d1, e, Blocks(RunBlocks(start, n)), RunBlocks(start, n));
    }
  }

  /** Deleting a chained file whose record starts a linked chain of
      distinct data blocks, with the length the chain has, zeroes the
      chain and changes no other block but the table. */
  lemma DeleteChainedEffect(d: Disk, name: seq<Byte>, used: seq<int>) returns (e: Disk)
    requires Formatted(d) && GetFileRecord(d, Chained, name).Some?
    requires DataBlocks(used) && Distinct(used) && |used| > 0 && LinkedFrom(d, used, 0)
    requires GetFileRecord(d, Chained, name).value.block == used[0]
    requires Max(GetFileRecord(d, Chained, name).value.length, 1) == |used|
    ensures DeleteFile(d, Chained, name).Ok? ==>
              DeleteFile(d, Chained, name) == Ok(e) && Agree(d, e, {0} + Blocks(used))
    ensures DeleteFile(d, Chained, name).Ok? ==>
              forall k :: 0 <= k < |used| ==> e.blocks[used[k]] == Zeros(BLOCK_SIZE)
  {
    e := d;
    if DeleteFile(d, Chained, name).Ok? {
      var rec := GetFileRecord(d, Chained, name).value;
      var d1 := DeleteAfterClear(d, Chained, name);
      e := DeleteFile(d, Chained, name).value;
      ClearChainEffect(d, used, 0);
      assert used[0..] == used;
      assert d1 == ClearChain(d, used[0], |used|);
      ClearedKept(d, d1, e, Blocks(used), used);
    }
  }

  /** The blocks an index block lists, as a set. */
  function Listed(list: seq<Byte>): set<int> {
    set k | 0 <= k < |list| :: list[k] as int
  }

  /** Deleting an indexed file whose index block and listed blocks are
      data blocks zeroes them all and changes no other block but the
      table. */
  lemma DeleteIndexedEffect(d: Disk, name: seq<Byte>, index: int) returns (e: Disk)
    requires Formatted(d) && GetFileRecord(d, Indexed, name).Some?
    requires GetFileRecord(d, Indexed, name).value.block == index && 2 <= index < NUM_BLOCKS
    requires forall k :: 0 <= k < |IndexList(d.blocks[index])| ==> 2 <= IndexList(d.blocks[index])[k]
    ensures DeleteFile(d, Indexed, name).Ok? ==>
              DeleteFile(d, Indexed, name) == Ok(e)
              && Agree(d, e, {0} + ({index} + Listed(IndexList(d.blocks[index]))))
              && e.blocks[index] == Zeros(BLOCK_SIZE)
    ensures DeleteFile(d, Indexed, name).Ok? ==>
              forall k :: 0 <= k < |IndexList(d.blocks[index])| ==>
                e.blocks[IndexList(d.blocks[index])[k]] == Zeros(BLOCK_SIZE)
  {
    e := d;
    if DeleteFile(d, Indexed, name).Ok? {
      var d1 := DeleteAfterClear(d, Indexed, name);
      e := DeleteFile(d, Indexed, name).value;
      var c := ClearIndexedEffect(d, index);
      IndexedKept(d, c, e, index);
    }
  }

  /** The table update after clearing an indexed file's blocks keeps them
      zero. */
  lemma IndexedKept(d: Disk, c: Disk, e: Disk, index: int)
    requires Formatted(d) && Formatted(c) && Formatted(e) && 2 <= index < NUM_BLOCKS
    requires forall k :: 0 <= k < |IndexList(d.blocks[index])| ==> 2 <= IndexList(d.blocks[index])[k]
    requires Agree(d, c, {index} + Listed(IndexList(d.blocks[index]))) && Agree(c, e, {0})
    requires c.blocks[index] == Zeros(BLOCK_SIZE)
    requires forall k :: 0 <= k < |IndexList(d.blocks[index])| ==> c.blocks[IndexList(d.blocks[index])[k]] == Zeros(BLOCK_SIZE)
    ensures Agree(d, e, {0} + ({index} + Listed(IndexList(d.blocks[index]))))
    ensures e.blocks[index] == Zeros(BLOCK_SIZE)
    ensures forall k :: 0 <= k < |IndexList(d.blocks[index])| ==> e.blocks[IndexList(d.blocks[index])[k]] == Zeros(BLOCK_SIZE)
  {
    var list := IndexList(d.blocks[index]);
    var touched := {index} + Listed(list);
    AgreeTrans(d, c, e, touched, {0});
    assert touched + {0} == {0} + touched;
    forall k | 0 <= k < |list|
      ensures e.blocks[list[k]] == Zeros(BLOCK_SIZE)
    {
      assert list[k] as int != 0 && list[k] as int != 1;
    }
  }

  /** The indexed branch on data blocks: the listed blocks and the index
      block end up zero, and no other block changes. */
  lemma ClearIndexedEffect(d: Disk, index: int) returns (c: Disk)
    requires Formatted(d) && 2 <= index < NUM_BLOCKS
    requires forall k :: 0 <= k < |IndexList(d.blocks[index])| ==> 2 <= IndexList(d.blocks[index])[k]
    ensures ClearIndexed(d, index).Ok? ==>
              && ClearIndexed(d, index) == Ok(c)
              && Agree(d, c, {index} + Listed(IndexList(d.blocks[index])))
              && c.blocks[index] == Zeros(BLOCK_SIZE)
              && forall k :: 0 <= k < |IndexList(d.blocks[index])| ==> c.blocks[IndexList(d.blocks[index])[k]] == Zeros(BLOCK_SIZE)
  {
    c := d;
    var list := IndexList(d.blocks[index]);
    if ClearIndexed(d, index).Ok? {
      ClearListEffect(d, list);
      var l := ClearList(d, list);
      c := ClearBlock(l, index);
      assert (set k | 0 <= k < |list| :: list[k]) == Listed(list);
      AgreeTrans(d, l, c, Listed(list), {index});
      assert Listed(list) + {index} == {index} + Listed(list);
      forall k | 0 <= k < |list|
        ensures c.blocks[list[k]] == Zeros(BLOCK_SIZE)
      {
        if list[k] != index {
          assert c.blocks[list[k]] == l.blocks[list[k]];
        }
      }
    }
  }

  /** The kind's branch of deleteFile, when it goes through, leaves the
      table as it was: none of the blocks it clears is block 0. */
  predicate ClearKeepsTable(d: Disk, kind: AllocationType, rec: FileRecord)
    requires Formatted(d)
  {
    ScannedShape(rec) && (ClearFile(d, kind, rec).Ok? ==> ClearFile(d, kind, rec).value.blocks[0] == d.blocks[0])
  }

  /** A contiguous run starting on a data block is cleared without
      touching the table. */
  lemma ContiguousClearKeepsTable(d: Disk, rec: FileRecord)
    requires Formatted(d) && ScannedShape(rec) && 2 <= rec.block
    ensures ClearKeepsTable(d, Contiguous, rec)
  {
    if rec.length > 0 && rec.block + rec.length <= NUM_BLOCKS {
      ClearRunEffect(d, rec.block, rec.length);
      RunBlocksAreData(rec.block, rec.length);
    }
  }

  /** A linked chain of distinct data blocks is cleared without touching
      the table. */
  lemma ChainedClearKeepsTable(d: Disk, rec: FileRecord, used: seq<int>)
    requires Formatted(d) && ScannedShape(rec)
    requires DataBlocks(used) && Distinct(used) && |used| > 0 && LinkedFrom(d, used, 0)
    requires rec.block == used[0] && Max(rec.length, 1) == |used|
    ensures ClearKeepsTable(d, Chained, rec)
  {
    ClearChainEffect(d, used, 0);
    assert used[0..] == used;
    assert ClearFile(d, Chained, rec).value == ClearChain(d, used[0], |used|);
    assert 0 !in Blocks(used);
  }

  /** An index block on a data block that lists only data blocks is
      cleared, with its list, without touching the table. */
  lemma IndexedClearKeepsTable(d: Disk, rec: FileRecord)
    requires Formatted(d) && ScannedShape(rec) && 2 <= rec.block
    requires forall k :: 0 <= k < |IndexList(d.blocks[rec.block])| ==> 2 <= IndexList(d.blocks[rec.block])[k]
    ensures ClearKeepsTable(d, Indexed, rec)
  {
    var c := ClearIndexedEffect(d, rec.block);
    assert 0 !in Listed(IndexList(d.blocks[rec.block]));
  }

  /** Deleting, by a name without blank ends, the one entry of a packed
      table that the name matches: the delete goes through exactly when
      the kind's branch can clear the file's blocks, and then the name is
      no longer found and the table holds the other entries, each as often
      as before, packed from slot 0. */
  lemma DeleteRemovesRecord(d: Disk, kind: AllocationType, es: seq<Entry>, k: nat, name: seq<Byte>)
    returns (e: Disk, rows: seq<Entry>)
    requires Formatted(d) && ValidEntries(kind, es) && |es| <= MaxRecords(kind) && d.blocks[0] == Layout(kind, es)
    requires k < |es| && NameMatches(name, RecordOf(kind, es, k)) && Trim(name) == name
    requires forall j :: 0 <= j < |es| && j != k ==> !NameMatches(name, RecordOf(kind, es, j))
    requires ClearKeepsTable(d, kind, RecordOf(kind, es, k))
    ensures GetFileRecord(d, kind, name) == Some(RecordOf(kind, es, k))
    ensures DeleteFile(d, kind, name).Ok? <==> ClearFile(d, kind, RecordOf(kind, es, k)).Ok?
    ensures DeleteFile(d, kind, name).Ok? ==>
              && DeleteFile(d, kind, name) == Ok(e)
              && ValidEntries(kind, rows) && |rows| == |es| - 1
              && multiset(rows) == multiset(es) - multiset{es[k]}
              && e.blocks[0] == Layout(kind, rows)
              && GetFAT(e, kind) == (|rows|, RecordsFrom(kind, rows, 0))
              && GetFileRecord(e, kind, name).None?
  {
    e, rows := d, [];
    var rec := RecordOf(kind, es, k);
    var table := LookupInLayout(d, kind, es, k, name);
    if ClearFile(d, kind, rec).Ok? {
      var d1 := ClearFile(d, kind, rec).value;
      var d2 := ZeroRecordOnLayout(d1, kind, es, k);
      assert DeleteFile(d, kind, name) == SortFAT(d2, kind);
      e, rows := SortZeroed(d2, kind, es, k);
      RowsLeft(e, kind, es, k, rows, name);
    }
  }

  /** The slot removal on a packed table zeroes the entry's slot. */
  lemma ZeroRecordOnLayout(d1: Disk, kind: AllocationType, es: seq<Entry>, k: nat) returns (d2: Disk)
    requires Formatted(d1) && Sized(es) && |es| <= MaxRecords(kind) && k < |es| && d1.blocks[0] == Layout(kind, es)
    ensures ZeroRecord(d1, kind, k) == Ok(d2) && Formatted(d2)
    ensures d2.blocks[0] == ZeroedLayout(kind, es, k)
  {
    SlotFits(kind, k);
    SlotOffsetIsProduct(kind, k);
    d2 := ZeroRecord(d1, kind, k).value;
    ZeroRecordEffect(d1, kind, k);
  }

  /** What the table holds once the rows are written back: the other
      entries, and none the name matches. */
  lemma RowsLeft(e: Disk, kind: AllocationType, es: seq<Entry>, k: nat, rows: seq<Entry>, name: seq<Byte>)
    requires Formatted(e) && ValidEntries(kind, es) && k < |es|
    requires forall j :: 0 <= j < |es| && j != k ==> !NameMatches(name, RecordOf(kind, es, j))
    requires Sized(rows) && |rows| <= MaxRecords(kind) && e.blocks[0] == Layout(kind, rows)
    requires multiset(rows) == multiset(Without(es, k, 0))
    ensures ValidEntries(kind, rows) && |rows| == |es| - 1
    ensures multiset(rows) == multiset(es) - multiset{es[k]}
    ensures GetFAT(e, kind) == (|rows|, RecordsFrom(kind, rows, 0))
    ensures GetFileRecord(e, kind, name).None?
  {
    WithoutMultiset(es, k);
    ValidRows(kind, es, k, rows);
    GetFATOfLayout(e, kind, rows);
    NoneLeftMatches(kind, es, k, rows, name);
  }

  /** The lookups of deleteFile on a packed table: the record lookup finds
      entry `k`'s record, and the index lookup its slot. */
  lemma LookupInLayout(d: Disk, kind: AllocationType, es: seq<Entry>, k: nat, name: seq<Byte>)
    returns (table: seq<FileRecord>)
    requires Formatted(d) && ValidEntries(kind, es) && |es| <= MaxRecords(kind) && d.blocks[0] == Layout(kind, es)
    requires k < |es| && NameMatches(name, RecordOf(kind, es, k)) && Trim(name) == name
    requires forall j :: 0 <= j < |es| && j != k ==> !NameMatches(name, RecordOf(kind, es, j))
    ensures table == GetFAT(d, kind).1 && GetFileRecord(d, kind, name) == Some(RecordOf(kind, es, k))
    ensures GetFileRecordIndex(table, name) == k
  {
    GetFATOfLayout(d, kind, es);
    table := GetFAT(d, kind).1;
    assert table[k] == RecordOf(kind, es, k);
    var i := FirstMatch(table, name, 0);
    assert i == k;
    assert CopyRecord(table[k]) == table[k];
    IndexAgreesWithRecord(table, name);
    var idx := GetFileRecordIndex(table, name);
    assert NameMatches(name, table[idx]);
  }

  /** The rows left after the sort of the zeroed table, in both of
      sortFAT's branches. */
  lemma SortZeroed(d2: Disk, kind: AllocationType, es: seq<Entry>, k: nat) returns (e: Disk, rows: seq<Entry>)
    requires Formatted(d2) && ValidEntries(kind, es) && |es| <= MaxRecords(kind) && k < |es|
    requires d2.blocks[0] == ZeroedLayout(kind, es, k)
    ensures SortFAT(d2, kind) == Ok(e)
    ensures Sized(rows) && |rows| <= MaxRecords(kind) && e.blocks[0] == Layout(kind, rows)
    ensures multiset(rows) == multiset(Without(es, k, 0))
  {
    if |es| != 2 {
      e, rows := SortZeroedMany(d2, kind, es, k);
    } else {
      OneSlotLeft(kind, es, k);
      var index;
      e, index := SortFATMovesSingleToTop(d2, kind);
      SingleMovedIsLayout(kind, es, k, index, e.blocks[0]);
      rows := [es[1 - k]];
      WithoutOfPair(es, k);
    }
  }

  /** With none or several entries left, the rewriting branch packs them. */
  lemma SortZeroedMany(d2: Disk, kind: AllocationType, es: seq<Entry>, k: nat) returns (e: Disk, rows: seq<Entry>)
    requires Formatted(d2) && ValidEntries(kind, es) && |es| <= MaxRecords(kind) && k < |es| && |es| != 2
    requires d2.blocks[0] == ZeroedLayout(kind, es, k)
    ensures SortFAT(d2, kind) == Ok(e)
    ensures Sized(rows) && |rows| <= MaxRecords(kind) && e.blocks[0] == Layout(kind, rows)
    ensures multiset(rows) == multiset(Without(es, k, 0))
  {
    CollectZeroed(kind, es, k, 0);
    WithoutLength(es, k, 0);
    e, rows := SortFATOrdersTable(d2, kind);
  }

  /** With one entry left, the slot the single-record branch moves to the
      top holds it, and the table is that entry packed alone. */
  lemma SingleMovedIsLayout(kind: AllocationType, es: seq<Entry>, k: nat, index: nat, top: seq<Byte>)
    requires Sized(es) && |es| <= MaxRecords(kind) && k < |es| && |es| == 2
    requires Live(ZeroedLayout(kind, es, k), kind, index) && |top| == BLOCK_SIZE
    requires MovedToTop(ZeroedLayout(kind, es, k), top, kind, index)
    ensures Sized([es[1 - k]]) && top == Layout(kind, [es[1 - k]])
  {
    OnlyLiveSlot(kind, es, k, index);
    SingleLeftPacked(kind, es, k);
  }

  /** Of two entries, one zeroed leaves one slot in use. */
  lemma OneSlotLeft(kind: AllocationType, es: seq<Entry>, k: nat)
    requires ValidEntries(kind, es) && |es| <= MaxRecords(kind) && k < |es| && |es| == 2
    ensures LiveSlots(ZeroedLayout(kind, es, k), kind, 0) == 1
  {
    CollectZeroed(kind, es, k, 0);
    WithoutOfPair(es, k);
  }

  /** The slot in use is the other entry's. */
  lemma OnlyLiveSlot(kind: AllocationType, es: seq<Entry>, k: nat, index: nat)
    requires Sized(es) && |es| <= MaxRecords(kind) && k < |es| && |es| == 2
    requires Live(ZeroedLayout(kind, es, k), kind, index)
    ensures index == 1 - k
  {
    ZeroedSlot(kind, es, k, index);
  }

  /** Rows that are the entries but one, reordered, are valid entries. */
  lemma ValidRows(kind: AllocationType, es: seq<Entry>, k: nat, rows: seq<Entry>)
    requires ValidEntries(kind, es) && k < |es|
    requires multiset(rows) == multiset(Without(es, k, 0))
    ensures ValidEntries(kind, rows) && |rows| == |es| - 1
  {
    WithoutMultiset(es, k);
    forall x | x in rows
      ensures x in es
    {
      assert x in multiset(rows);
      WithoutFrom(es, k, 0, x);
    }
    assert |multiset(rows)| == |rows|;
  }

  // ---------------------------------------------------------------------
  // copyToDisk

  /** The write of copyToDisk's switch for the disk's allocation kind. */
  function WriteFile(d: Disk, kind: AllocationType, name: seq<Byte>, content: seq<Byte>, required: int,
                     draws: nat -> nat): (r: Result<Disk>)
    requires Formatted(d)
    ensures kind != Contiguous && NumFreeBlocks(d) < required ==> r == Ok(d)
    ensures kind == Contiguous && NextContigSpace(d, required) < 2 ==> r == Ok(d)
    ensures r.Err? ==> r.fault == BadAddress
    ensures r.Ok? ==> Formatted(r.value)
  {
    match kind
    case Chained => WriteChained(d, name, content, required, draws)
    case Indexed => WriteIndexed(d, name, content, required, draws)
    case Contiguous => WriteContiguous(d, name, content, required)
  }

  /** copyToDisk once the content is read: the block count is the length
      divided by the payload per block (rounded down); a file needing more
      than ten blocks is refused and nothing changes; otherwise the file is
      written and the table sorted. */
  function CopyToDisk(d: Disk, kind: AllocationType, name: seq<Byte>, content: seq<Byte>, draws: nat -> nat)
    : (r: Result<Disk>)
    requires Formatted(d)
    ensures RequiredBlocks(kind, |content|) > MAX_FILE_BLOCKS ==> r == Ok(d)
    ensures r.Ok? ==> Formatted(r.value)
  {
    var required := RequiredBlocks(kind, |content|);
    if required > MAX_FILE_BLOCKS then Ok(d)
    else
      match WriteFile(d, kind, name, content, required, draws)
      case Err(f) => Err(f)
      case Ok(d1) => SortFAT(d1, kind)
  }
  /** A copy that goes through writes the file and then sorts the table:
      no data block changes after the write, and unless exactly one slot
      is in use, block 0 ends up holding the written table's rows in
      comparator order. */
  lemma CopyToDiskSortsTable(d: Disk, kind: AllocationType, name: seq<Byte>, content: seq<Byte>, draws: nat -> nat)
    returns (written: Disk, e: Disk, rows: seq<Entry>)
    requires Formatted(d) && RequiredBlocks(kind, |content|) <= MAX_FILE_BLOCKS
    requires CopyToDisk(d, kind, name, content, draws).Ok?
    ensures WriteFile(d, kind, name, content, RequiredBlocks(kind, |content|), draws) == Ok(written)
    ensures CopyToDisk(d, kind, name, content, draws) == Ok(e) && Agree(written, e, {0})
    ensures Sized(rows) && |rows| <= MaxRecords(kind)
    ensures LiveSlots(written.blocks[0], kind, 0) != 1 ==>
              && Sorted(rows) && multiset(rows) == multiset(CollectRows(written.blocks[0], kind, 0))
              && e.blocks[0] == Layout(kind, rows)
  {
    written := WriteFile(d, kind, name, content, RequiredBlocks(kind, |content|), draws).value;
    rows := [];
    if LiveSlots(written.blocks[0], kind, 0) != 1 {
      e, rows := SortFATOrdersTable(written, kind);
    } else {
      var index;
      e, index := SortFATMovesSingleToTop(written, kind);
    }
  }
}
