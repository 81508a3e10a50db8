/** The file allocation table held in block 0 (DiskInterfaceUtils.java):
    its slot layout, getFAT's scan, the lookups over the scanned table,
    writeFileToFAT and sortFAT.

    Slot `i` starts at byte `i * recordSize`: an 8-byte name (zero padded),
    the start or index block, and for chained and contiguous files the
    block count. A slot is in use when its first byte is nonzero. */
module Fat {
  import opened Common
  import opened BlockStore
  import opened Geometry
  import opened FreeSpace
  import opened Names
  import opened Records

  const NAME_SIZE: nat := 8

  /** Where slot `i` starts: `i` records of the kind's size in. */
  function SlotOffset(kind: AllocationType, i: nat): (off: nat)
    ensures kind == Indexed ==> off == 9 * i
    ensures kind != Indexed ==> off == 10 * i
  {
    if kind == Indexed then 9 * i else 10 * i
  }

  /** Slot `i` starts `i` record sizes in. */
  lemma SlotOffsetIsProduct(kind: AllocationType, i: nat)
    ensures SlotOffset(kind, i) == i * RecordSize(kind)
  {
  }

  /** Every slot below maxRecords lies inside block 0, byte 9 included. */
  lemma SlotFits(kind: AllocationType, i: nat)
    requires i < MaxRecords(kind)
    ensures SlotOffset(kind, i) + 10 <= BLOCK_SIZE
    ensures SlotOffset(kind, i) + RecordSize(kind) <= SlotOffset(kind, MaxRecords(kind)) <= BLOCK_SIZE
  {
  }

  // ---------------------------------------------------------------------
  // getFAT

  /** getFAT's counting loop: the slots at offsets off, off + recordSize, ...
      below BLOCK_SIZE whose first byte is nonzero. This walks one slot
      more than maxRecords holds (52 for chained and contiguous, 57 for
      indexed). */
  function CountFrom(fat: seq<Byte>, kind: AllocationType, off: nat): (n: nat)
    requires |fat| == BLOCK_SIZE
    decreases BLOCK_SIZE - off
  {
    if off >= BLOCK_SIZE then 0
    else (if fat[off] != 0 then 1 else 0) + CountFrom(fat, kind, off + RecordSize(kind))
  }

  /** The bytes before the first zero. */
  function UntilZero(s: seq<Byte>): (r: seq<Byte>)
    ensures |r| <= |s| && r == s[..|r|]
    ensures forall k :: 0 <= k < |r| ==> r[k] != 0
    ensures |r| < |s| ==> s[|r|] == 0
    decreases |s|
  {
    if |s| == 0 || s[0] == 0 then []
    else
      var r := [s[0]] + UntilZero(s[1..]);
      assert r[1..] == UntilZero(s[1..]);
      r
  }

  /** The name buffer getFAT fills: bytes up to the first zero, then the
      zeros the fresh buffer started with. */
  function NameField(raw: seq<Byte>): (n: seq<Byte>)
    requires |raw| == NAME_SIZE
    ensures |n| == NAME_SIZE
    ensures forall k :: 0 <= k < NAME_SIZE && n[k] != 0 ==> n[k] == raw[k]
    ensures forall k :: 0 <= k < NAME_SIZE && raw[k] == 0 ==> n[k] == 0
    ensures forall k :: 0 <= k < NAME_SIZE && n[k] == 0 ==> exists j :: 0 <= j <= k && raw[j] == 0
    ensures forall j, k :: 0 <= j < k < NAME_SIZE && n[j] == 0 ==> n[k] == 0
  {
    var u := UntilZero(raw);
    var n := u + Zeros(NAME_SIZE - |u|);
    assert forall k :: 0 <= k < |u| ==> n[k] == raw[k] != 0;
    assert forall k :: |u| <= k < NAME_SIZE ==> n[k] == 0;
    assert |u| < NAME_SIZE ==> raw[|u|] == 0;
    n
  }

  /** A name as the table stores it: 8 bytes, nonzero first byte, zeros only
      as padding at the end, and not blank throughout. */
  predicate StoredName(n: seq<Byte>) {
    && |n| == NAME_SIZE && n[0] != 0 && !AllBlank(n)
    && forall j, k :: 0 <= j < k < |n| && n[j] == 0 ==> n[k] == 0
  }

  /** A stored name reads back as itself. */
  lemma StoredNameIsItsField(n: seq<Byte>)
    requires StoredName(n)
    ensures NameField(n) == n
  {
    var u := UntilZero(n);
    if |u| < NAME_SIZE {
      assert n[|u|] == 0;
      assert n == u + Zeros(NAME_SIZE - |u|);
    } else {
      assert n == u;
    }
  }

  /** What every record the scan builds looks like. */
  predicate ScannedShape(r: FileRecord) {
    StoredName(r.fileName) && 0 <= r.block < 256 && 0 <= r.length < 256
  }

  /** The records getFAT builds from slot `i` on. A used slot whose name is
      blank ends the scan. The source tests `trim().equals("")`, which by
      Trim's contract holds exactly when every character is blank. */
  function ScanFrom(fat: seq<Byte>, kind: AllocationType, i: nat): (t: seq<FileRecord>)
    requires |fat| == BLOCK_SIZE
    ensures i + |t| <= MaxRecords(kind) || |t| == 0
    decreases MaxRecords(kind) - i
  {
    if i >= MaxRecords(kind) then []
    else
      SlotFits(kind, i);
      var off := SlotOffset(kind, i);
      if fat[off] == 0 then ScanFrom(fat, kind, i + 1)
      else
        if AllBlank(NameField(fat[off..off + NAME_SIZE])) then []
        else [SlotRecord(fat, off)] + ScanFrom(fat, kind, i + 1)
  }

  /** The record getFAT builds from the slot at `off`. Byte 9 is read for
      indexed files too, where it is the first name byte of the next slot. */
  function SlotRecord(fat: seq<Byte>, off: nat): FileRecord
    requires off + 10 <= |fat|
  {
    FileRecord(NameField(fat[off..off + NAME_SIZE]), fat[off + 8], fat[off + 9])
  }

  /** Every record the scan builds has a stored-form name and byte-sized
      numbers. */
  lemma {:induction false} ScanShape(fat: seq<Byte>, kind: AllocationType, i: nat)
    requires |fat| == BLOCK_SIZE
    ensures forall r :: r in ScanFrom(fat, kind, i) ==> ScannedShape(r)
    decreases MaxRecords(kind) - i
  {
    if i < MaxRecords(kind) {
      SlotFits(kind, i);
      var off := SlotOffset(kind, i);
      ScanShape(fat, kind, i + 1);
      if fat[off] != 0 && !AllBlank(NameField(fat[off..off + NAME_SIZE])) {
        SlotRecordShape(fat, off);
      }
    }
  }

  lemma SlotRecordShape(fat: seq<Byte>, off: nat)
    requires off + 10 <= |fat| && fat[off] != 0 && !AllBlank(NameField(fat[off..off + NAME_SIZE]))
    ensures ScannedShape(SlotRecord(fat, off))
  {
    NameFieldStored(fat[off..off + NAME_SIZE]);
  }

  lemma NameFieldStored(raw: seq<Byte>)
    requires |raw| == NAME_SIZE && raw[0] != 0 && !AllBlank(NameField(raw))
    ensures StoredName(NameField(raw))
  {
    var u := UntilZero(raw);
    assert u[0] == raw[0];
  }

  lemma {:induction false} UntilZeroOfPadded(u: seq<Byte>, m: nat)
    requires forall k :: 0 <= k < |u| ==> u[k] != 0
    ensures UntilZero(u + Zeros(m)) == u
    decreases |u|
  {
    var s := u + Zeros(m);
    if |u| > 0 {
      assert s[0] == u[0] && s[1..] == u[1..] + Zeros(m);
      UntilZeroOfPadded(u[1..], m);
      assert u == [u[0]] + u[1..];
    } else if m > 0 {
      assert s[0] == 0;
    }
  }

  /** getFAT: the number of used slots and the rebuilt table. The count
      may exceed maxRecords by the partial slot at the end of the block;
      the table never holds more records than the count. */
  function GetFAT(d: Disk, kind: AllocationType): (r: (nat, seq<FileRecord>))
    requires Formatted(d)
    ensures r.0 <= MaxRecords(kind) + 1 && |r.1| <= r.0
    ensures forall t :: t in r.1 ==> ScannedShape(t)
  {
    ScanShape(d.blocks[0], kind, 0);
    ScanWithinCount(d.blocks[0], kind, 0);
    CountBound(d.blocks[0], kind, 0);
    (CountFrom(d.blocks[0], kind, 0), ScanFrom(d.blocks[0], kind, 0))
  }

  /** The scan builds at most one record per slot the count counts. */
  lemma {:induction false} ScanWithinCount(fat: seq<Byte>, kind: AllocationType, i: nat)
    requires |fat| == BLOCK_SIZE
    ensures |ScanFrom(fat, kind, i)| <= CountFrom(fat, kind, SlotOffset(kind, i))
    decreases MaxRecords(kind) - i
  {
    if i < MaxRecords(kind) {
      ScanWithinCount(fat, kind, i + 1);
      ScanStep(fat, kind, i);
      CountStep(fat, kind, i);
    }
  }

  /** One slot adds at most one record, and none when its first byte is 0. */
  lemma ScanStep(fat: seq<Byte>, kind: AllocationType, i: nat)
    requires |fat| == BLOCK_SIZE && i < MaxRecords(kind)
    ensures SlotOffset(kind, i) < BLOCK_SIZE
    ensures |ScanFrom(fat, kind, i)| <= (if fat[SlotOffset(kind, i)] != 0 then 1 else 0) + |ScanFrom(fat, kind, i + 1)|
  {
    SlotFits(kind, i);
  }

  /** One slot adds one to the count exactly when its first byte is not 0. */
  lemma CountStep(fat: seq<Byte>, kind: AllocationType, i: nat)
    requires |fat| == BLOCK_SIZE && i < MaxRecords(kind)
    ensures SlotOffset(kind, i) < BLOCK_SIZE
    ensures CountFrom(fat, kind, SlotOffset(kind, i))
            == (if fat[SlotOffset(kind, i)] != 0 then 1 else 0) + CountFrom(fat, kind, SlotOffset(kind, i + 1))
  {
    SlotFits(kind, i);
    assert SlotOffset(kind, i + 1) == SlotOffset(kind, i) + RecordSize(kind);
  }

  /** The count walks the maxRecords whole slots and one partial slot. */
  lemma {:induction false} CountBound(fat: seq<Byte>, kind: AllocationType, i: nat)
    requires |fat| == BLOCK_SIZE && i <= MaxRecords(kind) + 1
    ensures CountFrom(fat, kind, SlotOffset(kind, i)) <= MaxRecords(kind) + 1 - i
    decreases MaxRecords(kind) + 1 - i
  {
    if i <= MaxRecords(kind) {
      CountBound(fat, kind, i + 1);
      assert SlotOffset(kind, i + 1) == SlotOffset(kind, i) + RecordSize(kind);
    }
  }

  // ---------------------------------------------------------------------
  // Packed tables: the block-0 image of a list of entries

  /** The content of one slot: the name, the start or index block, and the
      block count (always 0 for indexed files, whose slots have no count). */
  datatype Entry = Entry(name: seq<Byte>, block: Byte, count: Byte)

  predicate ValidEntry(kind: AllocationType, e: Entry) {
    StoredName(e.name) && (kind == Indexed ==> e.count == 0)
  }

  predicate Sized(es: seq<Entry>) {
    forall e :: e in es ==> |e.name| == NAME_SIZE
  }

  predicate ValidEntries(kind: AllocationType, es: seq<Entry>) {
    Sized(es) && forall e :: e in es ==> ValidEntry(kind, e)
  }

  function SlotBytes(kind: AllocationType, e: Entry): (b: seq<Byte>)
    requires |e.name| == NAME_SIZE
    ensures |b| == RecordSize(kind)
  {
    e.name + [e.block] + (if kind == Indexed then [] else [e.count])
  }

  /** The slots of `es`, one after the other from offset 0. */
  function Slots(kind: AllocationType, es: seq<Entry>): (b: seq<Byte>)
    requires Sized(es)
    ensures |b| == SlotOffset(kind, |es|)
    decreases |es|
  {
    if |es| == 0 then []
    else Slots(kind, es[..|es| - 1]) + SlotBytes(kind, es[|es| - 1])
  }

  /** Block 0 holding exactly the entries `es` in slots 0, 1, ..., and zeros
      after them. */
  function Layout(kind: AllocationType, es: seq<Entry>): (fat: seq<Byte>)
    requires Sized(es) && |es| <= MaxRecords(kind)
    ensures |fat| == BLOCK_SIZE
  {
    Slots(kind, es) + Zeros(BLOCK_SIZE - SlotOffset(kind, |es|))
  }

  lemma {:induction false} SlotsAt(kind: AllocationType, es: seq<Entry>, i: nat, j: nat)
    requires Sized(es) && i < |es| && j < RecordSize(kind)
    ensures SlotOffset(kind, i) + j < |Slots(kind, es)|
    ensures Slots(kind, es)[SlotOffset(kind, i) + j] == SlotBytes(kind, es[i])[j]
    decreases |es|
  {
    var n := |es| - 1;
    if i < n {
      assert es[..n][i] == es[i];
      SlotsAt(kind, es[..n], i, j);
    }
  }

  /** Byte `j` of slot `i` of a packed table is byte `j` of entry `i`. */
  lemma LayoutAt(kind: AllocationType, es: seq<Entry>, i: nat, j: nat)
    requires Sized(es) && |es| <= MaxRecords(kind) && i < |es| && j < RecordSize(kind)
    ensures SlotOffset(kind, i) + j < BLOCK_SIZE
    ensures Layout(kind, es)[SlotOffset(kind, i) + j] == SlotBytes(kind, es[i])[j]
  {
    SlotsAt(kind, es, i, j);
  }

  /** Past the last entry, a packed table is zero. */
  lemma LayoutTail(kind: AllocationType, es: seq<Entry>, p: nat)
    requires Sized(es) && |es| <= MaxRecords(kind) && SlotOffset(kind, |es|) <= p < BLOCK_SIZE
    ensures Layout(kind, es)[p] == 0
  {
  }

  /** The name bytes of slot `i` of a packed table are entry `i`'s name. */
  lemma LayoutName(kind: AllocationType, es: seq<Entry>, i: nat)
    requires Sized(es) && |es| <= MaxRecords(kind) && i < |es|
    ensures SlotOffset(kind, i) + NAME_SIZE <= BLOCK_SIZE
    ensures Layout(kind, es)[SlotOffset(kind, i)..SlotOffset(kind, i) + NAME_SIZE] == es[i].name
  {
    var off := SlotOffset(kind, i);
    LayoutAt(kind, es, i, NAME_SIZE - 1);
    forall k | 0 <= k < NAME_SIZE
      ensures Layout(kind, es)[off + k] == es[i].name[k]
    {
      LayoutAt(kind, es, i, k);
    }
  }

  /** Storing one more slot right after the last entry of a packed table
      packs one more entry. */
  lemma LayoutAppend(kind: AllocationType, es: seq<Entry>, e: Entry)
    requires Sized(es) && |es| < MaxRecords(kind) && |e.name| == NAME_SIZE
    ensures Sized(es + [e])
    ensures SlotOffset(kind, |es|) + RecordSize(kind) <= BLOCK_SIZE
    ensures var off := SlotOffset(kind, |es|);
            Layout(kind, es + [e])
              == Layout(kind, es)[..off] + SlotBytes(kind, e) + Layout(kind, es)[off + RecordSize(kind)..]
  {
    assert (es + [e])[..|es|] == es;
    SlotFits(kind, |es|);
  }

  /** The record getFAT rebuilds from slot `i` of a packed table. For an
      indexed file the length is the byte after the block, which is the
      first name byte of the next entry, or 0 after the last one. */
  function RecordOf(kind: AllocationType, es: seq<Entry>, i: nat): FileRecord
    requires Sized(es) && i < |es|
  {
    FileRecord(es[i].name, es[i].block,
               if kind != Indexed then es[i].count
               else if i + 1 < |es| then es[i + 1].name[0] else 0)
  }

  function RecordsFrom(kind: AllocationType, es: seq<Entry>, i: nat): (t: seq<FileRecord>)
    requires Sized(es)
    ensures |t| == if i <= |es| then |es| - i else 0
    ensures forall k :: 0 <= k < |t| ==> t[k] == RecordOf(kind, es, i + k)
    decreases |es| - i
  {
    if i >= |es| then [] else [RecordOf(kind, es, i)] + RecordsFrom(kind, es, i + 1)
  }

  /** The scan stops finding records once every slot from `i` on is zero. */
  lemma {:induction false} ScanOfZeros(fat: seq<Byte>, kind: AllocationType, i: nat)
    requires |fat| == BLOCK_SIZE
    requires forall p :: SlotOffset(kind, i) <= p < BLOCK_SIZE ==> fat[p] == 0
    ensures ScanFrom(fat, kind, i) == []
    decreases MaxRecords(kind) - i
  {
    if i < MaxRecords(kind) {
      SlotFits(kind, i);
      ScanOfZeros(fat, kind, i + 1);
    }
  }

  /** Slot `i` of a packed table of valid entries is in use, its name is
      not blank, and the scan rebuilds entry `i`'s record from it. */
  lemma LayoutSlotRecord(kind: AllocationType, es: seq<Entry>, i: nat)
    requires |es| <= MaxRecords(kind) && ValidEntries(kind, es) && i < |es|
    ensures SlotOffset(kind, i) + 10 <= BLOCK_SIZE
    ensures Layout(kind, es)[SlotOffset(kind, i)] != 0
    ensures !AllBlank(NameField(Layout(kind, es)[SlotOffset(kind, i)..SlotOffset(kind, i) + NAME_SIZE]))
    ensures SlotRecord(Layout(kind, es), SlotOffset(kind, i)) == RecordOf(kind, es, i)
  {
    SlotFits(kind, i);
    assert ValidEntry(kind, es[i]);
    LayoutName(kind, es, i);
    StoredNameIsItsField(es[i].name);
    LayoutAt(kind, es, i, 0);
    LayoutSecondByte(kind, es, i);
  }

  /** Bytes 8 and 9 of slot `i` of a packed table. */
  lemma LayoutSecondByte(kind: AllocationType, es: seq<Entry>, i: nat)
    requires |es| <= MaxRecords(kind) && Sized(es) && i < |es|
    ensures SlotOffset(kind, i) + 10 <= BLOCK_SIZE
    ensures Layout(kind, es)[SlotOffset(kind, i) + 8] == es[i].block
    ensures Layout(kind, es)[SlotOffset(kind, i) + 9] == RecordOf(kind, es, i).length
  {
    SlotFits(kind, i);
    LayoutAt(kind, es, i, 8);
    if kind != Indexed {
      LayoutAt(kind, es, i, 9);
    } else if i + 1 < |es| {
      LayoutAt(kind, es, i + 1, 0);
    }
  }

  /** The scan of a packed table of valid entries rebuilds their records. */
  lemma {:induction false} ScanLayout(kind: AllocationType, es: seq<Entry>, i: nat)
    requires |es| <= MaxRecords(kind) && ValidEntries(kind, es) && i <= |es|
    ensures ScanFrom(Layout(kind, es), kind, i) == RecordsFrom(kind, es, i)
    decreases |es| - i
  {
    if i == |es| {
      ScanLayoutEnd(kind, es);
    } else {
      ScanLayoutStep(kind, es, i);
      ScanLayout(kind, es, i + 1);
    }
  }

  /** Past the entries the scan of a packed table finds nothing. */
  lemma ScanLayoutEnd(kind: AllocationType, es: seq<Entry>)
    requires |es| <= MaxRecords(kind) && Sized(es)
    ensures ScanFrom(Layout(kind, es), kind, |es|) == []
  {
    forall p | SlotOffset(kind, |es|) <= p < BLOCK_SIZE
      ensures Layout(kind, es)[p] == 0
    {
      LayoutTail(kind, es, p);
    }
    ScanOfZeros(Layout(kind, es), kind, |es|);
  }

  /** Slot `i` of a packed table of valid entries gives entry `i`'s record
      and the scan goes on with the next slot. */
  lemma ScanLayoutStep(kind: AllocationType, es: seq<Entry>, i: nat)
    requires |es| <= MaxRecords(kind) && ValidEntries(kind, es) && i < |es|
    ensures ScanFrom(Layout(kind, es), kind, i) == [RecordOf(kind, es, i)] + ScanFrom(Layout(kind, es), kind, i + 1)
  {
    LayoutSlotRecord(kind, es, i);
  }

  /** getFAT's count over a packed table, from slot `i` on. */
  lemma {:induction false} CountLayout(kind: AllocationType, es: seq<Entry>, i: nat)
    requires Sized(es) && |es| <= MaxRecords(kind) && forall e :: e in es ==> e.name[0] != 0
    requires i <= |es|
    ensures CountFrom(Layout(kind, es), kind, SlotOffset(kind, i)) == |es| - i
    decreases |es| - i
  {
    if i == |es| {
      CountOfZeros(Layout(kind, es), kind, SlotOffset(kind, i));
    } else {
      LayoutAt(kind, es, i, 0);
      CountLayout(kind, es, i + 1);
    }
  }

  lemma {:induction false} CountOfZeros(fat: seq<Byte>, kind: AllocationType, off: nat)
    requires |fat| == BLOCK_SIZE && forall p :: off <= p < BLOCK_SIZE ==> fat[p] == 0
    ensures CountFrom(fat, kind, off) == 0
    decreases BLOCK_SIZE - off
  {
    if off < BLOCK_SIZE {
      CountOfZeros(fat, kind, off + RecordSize(kind));
    }
  }

  /** getFAT on a packed table of valid entries: as many records as entries,
      in slot order. */
  lemma GetFATOfLayout(d: Disk, kind: AllocationType, es: seq<Entry>)
    requires Formatted(d) && |es| <= MaxRecords(kind) && ValidEntries(kind, es)
    requires d.blocks[0] == Layout(kind, es)
    ensures GetFAT(d, kind) == (|es|, RecordsFrom(kind, es, 0))
  {
    CountLayout(kind, es, 0);
    ScanLayout(kind, es, 0);
  }

  // ---------------------------------------------------------------------
  // writeFileToFAT

  /** `d` with block 0 replaced by `fat`. */
  function WithFat(d: Disk, fat: seq<Byte>): (e: Disk)
    requires Formatted(d) && |fat| == BLOCK_SIZE
    ensures Formatted(e) && Agree(d, e, {0}) && e.blocks[0] == fat
  {
    d.(blocks := d.blocks[0 := fat])
  }

  /** `d` with block 0 replaced by `fat` and the bitmap then rebuilt: what
      every table update of the simulator leaves behind. */
  function Rebuilt(d: Disk, fat: seq<Byte>): (e: Disk)
    requires Formatted(d) && |fat| == BLOCK_SIZE
    ensures Formatted(e)
  {
    UpdateBitmap(WithFat(d, fat))
  }

  /** A table update changes no data block. */
  lemma RebuiltAgrees(d: Disk, fat: seq<Byte>)
    requires Formatted(d) && |fat| == BLOCK_SIZE
    ensures Agree(d, Rebuilt(d, fat), {0}) && Rebuilt(d, fat).blocks[0] == fat
  {
    var w := WithFat(d, fat);
    AgreeThenFlags(d, w, UpdateBitmap(w), {0});
  }

  /** Block 0 after writeFileToFAT's stores into the slot at `off`: the
      name's bytes from `off`, then the block (cut to a byte) at `off + 8`
      and, except for indexed files, the length (cut to a byte) at
      `off + 9`. These later stores win over a name longer than eight
      characters, whose further bytes run on into the next slot. Name bytes
      past the name's end keep their old value. */
  function StoredRecord(fat: seq<Byte>, kind: AllocationType, off: nat, name: seq<Byte>,
                        block: int, length: int): (r: seq<Byte>)
    requires |fat| == BLOCK_SIZE
    ensures |r| == BLOCK_SIZE
  {
    seq(BLOCK_SIZE, p requires 0 <= p < BLOCK_SIZE => StoredByte(fat, kind, off, name, block, length, p))
  }

  function StoredByte(fat: seq<Byte>, kind: AllocationType, off: nat, name: seq<Byte>,
                      block: int, length: int, p: nat): Byte
    requires p < |fat|
  {
    if p == off + 8 then ToByte(block)
    else if p == off + 9 && kind != Indexed then ToByte(length)
    else if off <= p < off + |name| then name[p - off]
    else fat[p]
  }

  /** The next free slot lies past the table exactly when the count has
      reached the table's size. */
  lemma SlotPastTable(kind: AllocationType, count: nat)
    ensures SlotOffset(kind, count) + RecordSize(kind) > BLOCK_SIZE <==> count >= MaxRecords(kind)
  {
  }

  /** writeFileToFAT: stores the record in the slot after the `count` used
      ones getFAT reports, then rebuilds the bitmap. When that slot does not
      fit in block 0 the last store runs off the end of the block. */
  function WriteFileToFAT(d: Disk, kind: AllocationType, name: seq<Byte>, block: int, length: int): (r: Result<Disk>)
    requires Formatted(d)
    ensures r.Err? <==> GetFAT(d, kind).0 >= MaxRecords(kind)
                        || SlotOffset(kind, GetFAT(d, kind).0) + |name| > BLOCK_SIZE
    ensures r.Err? ==> r.fault == BadAddress
    ensures r.Ok? ==>
              var off := SlotOffset(kind, GetFAT(d, kind).0);
              r.value == Rebuilt(d, StoredRecord(d.blocks[0], kind, off, name, block, length))
  {
    var count := GetFAT(d, kind).0;
    var off := SlotOffset(kind, count);
    var last := if kind == Indexed then off + 8 else off + 9;
    SlotPastTable(kind, count);
    if off + |name| > BLOCK_SIZE || last >= BLOCK_SIZE then Err(BadAddress)
    else
      var d1 := WriteRun(d, 0, off, name);
      var d2 := Write(d1, 0, off + 8, ToByte(block));
      var d3 := if kind == Indexed then d2 else Write(d2, 0, off + 9, ToByte(length));
      StoreRecordEffect(d, kind, off, name, block, length, d1, d2, d3);
      Ok(UpdateBitmap(d3))
  }

  lemma StoreRecordEffect(d: Disk, kind: AllocationType, off: nat, name: seq<Byte>, block: int, length: int,
                          d1: Disk, d2: Disk, d3: Disk)
    requires Formatted(d) && off + |name| <= BLOCK_SIZE && off + RecordSize(kind) <= BLOCK_SIZE
    requires d1 == WriteRun(d, 0, off, name)
    requires CanWrite(d1, 0, off + 8) && d2 == Write(d1, 0, off + 8, ToByte(block))
    requires kind == Indexed ==> d3 == d2
    requires kind != Indexed ==> CanWrite(d2, 0, off + 9) && d3 == Write(d2, 0, off + 9, ToByte(length))
    ensures Formatted(d3)
    ensures UpdateBitmap(d3) == Rebuilt(d, StoredRecord(d.blocks[0], kind, off, name, block, length))
  {
    WriteRunAgrees(d, 0, off, name);
    WriteAgrees(d1, 0, off + 8, ToByte(block));
    AgreeTrans(d, d1, d2, {0}, {0});
    if kind != Indexed {
      WriteAgrees(d2, 0, off + 9, ToByte(length));
      AgreeTrans(d, d2, d3, {0}, {0});
    }
    StoreRecordBlock(d, kind, off, name, block, length, d1, d2, d3);
    RebuiltFromFat(d, d3);
  }

  /** Once the bitmap is rebuilt, a run of stores into block 0 leaves the
      same disk as putting its final block 0 in place at once. */
  lemma RebuiltFromFat(d: Disk, x: Disk)
    requires Formatted(d) && Formatted(x) && Agree(d, x, {0})
    ensures UpdateBitmap(x) == Rebuilt(d, x.blocks[0])
  {
    var w := WithFat(d, x.blocks[0]);
    assert Agree(w, x, {});
    UpdateBitmapDependsOnlyOnData(w, x);
  }

  lemma StoreRecordBlock(d: Disk, kind: AllocationType, off: nat, name: seq<Byte>, block: int, length: int,
                         d1: Disk, d2: Disk, d3: Disk)
    requires Formatted(d) && off + |name| <= BLOCK_SIZE && off + RecordSize(kind) <= BLOCK_SIZE
    requires d1 == WriteRun(d, 0, off, name)
    requires CanWrite(d1, 0, off + 8) && d2 == Write(d1, 0, off + 8, ToByte(block))
    requires kind == Indexed ==> d3 == d2
    requires kind != Indexed ==> CanWrite(d2, 0, off + 9) && d3 == Write(d2, 0, off + 9, ToByte(length))
    ensures d3.blocks[0] == StoredRecord(d.blocks[0], kind, off, name, block, length)
  {
    var fat := d.blocks[0];
    var s := StoredRecord(fat, kind, off, name, block, length);
    var s1 := d1.blocks[0];
    WriteRunContent(d, 0, off, name);
    assert d2.blocks[0] == Poke(s1, off + 8, ToByte(block));
    forall p | 0 <= p < BLOCK_SIZE
      ensures d3.blocks[0][p] == s[p]
    {
      SpliceAt(fat, off, name, p);
    }
  }

  lemma SpliceAt(fat: seq<Byte>, off: nat, name: seq<Byte>, p: nat)
    requires off + |name| <= |fat| && p < |fat|
    ensures (fat[..off] + name + fat[off + |name|..])[p] == if off <= p < off + |name| then name[p - off] else fat[p]
  {
  }

  /** A name as the callers of writeFileToFAT pass it: one to eight
      characters, none of them zero, not all blank. */
  predicate GoodName(name: seq<Byte>) {
    && 0 < |name| <= NAME_SIZE && !AllBlank(name)
    && forall k :: 0 <= k < |name| ==> name[k] != 0
  }

  /** The entry writeFileToFAT packs for a new file. */
  function NewEntry(kind: AllocationType, name: seq<Byte>, block: int, length: int): (e: Entry)
    requires |name| <= NAME_SIZE
    ensures GoodName(name) ==> ValidEntry(kind, e)
  {
    var padded := name + Zeros(NAME_SIZE - |name|);
    assert forall k :: 0 <= k < |name| ==> padded[k] == name[k];
    Entry(padded, ToByte(block), if kind == Indexed then 0 else ToByte(length))
  }

  /** writeFileToFAT on a packed table appends the new entry to it, unless
      the table is already full. */
  lemma WriteFileToFATAppends(d: Disk, kind: AllocationType, es: seq<Entry>, name: seq<Byte>, block: int, length: int)
    requires Formatted(d) && ValidEntries(kind, es) && |es| <= MaxRecords(kind)
    requires d.blocks[0] == Layout(kind, es) && GoodName(name)
    ensures ValidEntries(kind, es + [NewEntry(kind, name, block, length)])
    ensures WriteFileToFAT(d, kind, name, block, length).Err? <==> |es| == MaxRecords(kind)
    ensures |es| < MaxRecords(kind) ==>
              WriteFileToFAT(d, kind, name, block, length).value
                == Rebuilt(d, Layout(kind, es + [NewEntry(kind, name, block, length)]))
  {
    var e := NewEntry(kind, name, block, length);
    GetFATOfLayout(d, kind, es);
    if |es| < MaxRecords(kind) {
      StoredRecordOnLayout(kind, es, name, block, length);
    }
  }

  lemma StoredRecordOnLayout(kind: AllocationType, es: seq<Entry>, name: seq<Byte>, block: int, length: int)
    requires ValidEntries(kind, es) && |es| < MaxRecords(kind) && GoodName(name)
    ensures Sized(es + [NewEntry(kind, name, block, length)])
    ensures StoredRecord(Layout(kind, es), kind, SlotOffset(kind, |es|), name, block, length)
              == Layout(kind, es + [NewEntry(kind, name, block, length)])
  {
    var e := NewEntry(kind, name, block, length);
    LayoutAppend(kind, es, e);
    var off := SlotOffset(kind, |es|);
    var fat := Layout(kind, es);
    var rs := RecordSize(kind);
    var s := StoredRecord(fat, kind, off, name, block, length);
    var t := Layout(kind, es + [e]);
    assert t == fat[..off] + SlotBytes(kind, e) + fat[off + rs..];
    forall p | 0 <= p < BLOCK_SIZE
      ensures s[p] == t[p]
    {
      if off <= p < off + rs {
        LayoutTail(kind, es, p);
      }
    }
  }

  // ---------------------------------------------------------------------
  // sortFAT

  /** sortFAT's first loop: the slots from `i` on, among the first
      maxRecords, whose first byte is nonzero. Unlike getFAT's count it
      never looks at the partial slot after them. */
  function LiveSlots(fat: seq<Byte>, kind: AllocationType, i: nat): (n: nat)
    requires |fat| == BLOCK_SIZE
    ensures i <= MaxRecords(kind) ==> n <= MaxRecords(kind) - i
    decreases MaxRecords(kind) - i
  {
    if i >= MaxRecords(kind) then 0
    else
      SlotFits(kind, i);
      (if fat[SlotOffset(kind, i)] != 0 then 1 else 0) + LiveSlots(fat, kind, i + 1)
  }

  predicate Live(fat: seq<Byte>, kind: AllocationType, i: nat)
    requires |fat| == BLOCK_SIZE
  {
    i < MaxRecords(kind) && fat[SlotOffset(kind, i)] != 0
  }

  /** The single-record branch's search from slot `i` on: the last slot in
      use, or `index` when there is none. */
  function LastLive(fat: seq<Byte>, kind: AllocationType, i: nat, index: nat): (r: nat)
    requires |fat| == BLOCK_SIZE && index < MaxRecords(kind)
    ensures r < MaxRecords(kind)
    ensures r == index || (i <= r && Live(fat, kind, r))
    ensures forall k :: Max(i, r + 1) <= k < MaxRecords(kind) ==> !Live(fat, kind, k)
    ensures r == index && index < i ==> forall k :: i <= k < MaxRecords(kind) ==> !Live(fat, kind, k)
    decreases MaxRecords(kind) - i
  {
    if i >= MaxRecords(kind) then index
    else LastLive(fat, kind, i + 1, if Live(fat, kind, i) then i else index)
  }

  /** The byte at `p` once bytes `j .. rs - 1` of the slot at `src` have
      been moved to the front of the block and zeroed where they were. */
  function MovedByte(fat: seq<Byte>, src: nat, rs: nat, j: nat, p: nat): Byte
    requires src + rs <= |fat| && p < |fat|
  {
    if j <= p < rs then fat[src + p]
    else if src + j <= p < src + rs then 0
    else fat[p]
  }

  /** Block 0 once the slot at `src` has moved to the top. With `src == 0`
      nothing moves. */
  function MovedSlot(fat: seq<Byte>, src: nat, rs: nat): (r: seq<Byte>)
    requires |fat| == BLOCK_SIZE && src + rs <= BLOCK_SIZE
    ensures |r| == BLOCK_SIZE
  {
    seq(BLOCK_SIZE, p requires 0 <= p < BLOCK_SIZE => MovedByte(fat, src, rs, 0, p))
  }

  /** The single-record branch's byte loop: for each `j`, copy byte `j` of
      the slot at `src` to offset `j`, then zero it at its old place. */
  function MoveSlot(d: Disk, src: nat, rs: nat, j: nat): (e: Disk)
    requires Formatted(d) && rs <= src && src + rs <= BLOCK_SIZE && j <= rs
    ensures Formatted(e) && Agree(d, e, {0})
    decreases rs - j
  {
    if j == rs then d
    else
      var d1 := Write(d, 0, j, Read(d, 0, src + j));
      var d2 := Write(d1, 0, src + j, 0);
      WriteAgrees(d, 0, j, Read(d, 0, src + j));
      WriteAgrees(d1, 0, src + j, 0);
      AgreeTrans(d, d1, d2, {0}, {0});
      var e := MoveSlot(d2, src, rs, j + 1);
      AgreeTrans(d, d2, e, {0}, {0});
      e
  }

  /** After the loop has run from `j` on, every byte of block 0 is where
      MovedByte says. */
  lemma {:induction false} MoveSlotContent(d: Disk, src: nat, rs: nat, j: nat)
    requires Formatted(d) && rs <= src && src + rs <= BLOCK_SIZE && j <= rs
    ensures forall p :: 0 <= p < BLOCK_SIZE ==> MoveSlot(d, src, rs, j).blocks[0][p] == MovedByte(d.blocks[0], src, rs, j, p)
    decreases rs - j
  {
    if j < rs {
      var d1 := Write(d, 0, j, Read(d, 0, src + j));
      var d2 := Write(d1, 0, src + j, 0);
      MoveSlotContent(d2, src, rs, j + 1);
      MoveStep(d.blocks[0], src, rs, j);
    }
  }

  /** One turn of the loop: copy byte `j` forward, zero it behind. */
  lemma MoveStep(b: seq<Byte>, src: nat, rs: nat, j: nat)
    requires |b| == BLOCK_SIZE && rs <= src && src + rs <= BLOCK_SIZE && j < rs
    ensures var b2 := Poke(Poke(b, j, b[src + j]), src + j, 0);
            forall p :: 0 <= p < BLOCK_SIZE ==> MovedByte(b2, src, rs, j + 1, p) == MovedByte(b, src, rs, j, p)
  {
  }

  /** sortFAT's comparator: by name, then by the block number written out
      in decimal, so that block 10 sorts before block 9. */
  function RowCompare(a: Entry, b: Entry): int {
    var c := Compare(a.name, b.name);
    if c == 0 then Compare(Decimal(a.block), Decimal(b.block)) else c
  }

  /** The comparator is antisymmetric and transitive, as a sort needs. */
  lemma RowCompareIsOrder(a: Entry, b: Entry, c: Entry)
    ensures RowCompare(a, b) == -RowCompare(b, a)
    ensures RowCompare(a, b) <= 0 && RowCompare(b, c) <= 0 ==> RowCompare(a, c) <= 0
  {
    CompareAntisymmetric(a.name, b.name);
    CompareAntisymmetric(Decimal(a.block), Decimal(b.block));
    if RowCompare(a, b) <= 0 && RowCompare(b, c) <= 0 {
      var ab := Compare(a.name, b.name);
      var bc := Compare(b.name, c.name);
      if ab == 0 && bc == 0 {
        CompareTransitive(Decimal(a.block), Decimal(b.block), Decimal(c.block));
      } else if ab != 0 && bc != 0 {
        CompareTransitive(a.name, b.name, c.name);
        CompareAntisymmetric(a.name, c.name);
      }
    }
  }

  predicate Sorted(s: seq<Entry>) {
    forall i, j :: 0 <= i < j < |s| ==> RowCompare(s[i], s[j]) <= 0
  }

  /** Places `x` before the first entry that sorts strictly after it, so that
      entries that compare equal keep their order. */
  function Insert(x: Entry, s: seq<Entry>): (r: seq<Entry>)
    ensures multiset(r) == multiset(s) + multiset{x}
    ensures |r| == |s| + 1
    ensures Sized(s) && |x.name| == NAME_SIZE ==> Sized(r)
    decreases |s|
  {
    if |s| == 0 then [x]
    else if RowCompare(x, s[0]) < 0 then [x] + s
    else
      assert s == [s[0]] + s[1..];
      [s[0]] + Insert(x, s[1..])
  }

  /** The stable sort sortFAT applies to the rows it collected. */
  function SortRows(rows: seq<Entry>): (r: seq<Entry>)
    ensures multiset(r) == multiset(rows)
    ensures |r| == |rows|
    ensures Sized(rows) ==> Sized(r)
    decreases |rows|
  {
    if |rows| == 0 then []
    else
      assert rows == rows[..|rows| - 1] + [rows[|rows| - 1]];
      Insert(rows[|rows| - 1], SortRows(rows[..|rows| - 1]))
  }

  lemma {:induction false} InsertSorted(x: Entry, s: seq<Entry>)
    requires Sorted(s)
    ensures Sorted(Insert(x, s))
    decreases |s|
  {
    if |s| > 0 {
      if RowCompare(x, s[0]) < 0 {
        forall j | 0 <= j < |s|
          ensures RowCompare(x, s[j]) <= 0
        {
          RowCompareIsOrder(x, s[0], s[j]);
        }
      } else {
        var t := Insert(x, s[1..]);
        InsertSorted(x, s[1..]);
        RowCompareIsOrder(x, s[0], x);
        forall k | 0 <= k < |t|
          ensures RowCompare(s[0], t[k]) <= 0
        {
          assert t[k] in multiset(t);
          if t[k] != x {
            assert t[k] in multiset(s[1..]);
            var j :| 0 <= j < |s[1..]| && s[1..][j] == t[k];
            assert s[j + 1] == t[k];
          }
        }
      }
    }
  }

  /** The sorted rows are in comparator order. */
  lemma {:induction false} SortRowsSorted(rows: seq<Entry>)
    ensures Sorted(SortRows(rows))
    decreases |rows|
  {
    if |rows| > 0 {
      SortRowsSorted(rows[..|rows| - 1]);
      InsertSorted(rows[|rows| - 1], SortRows(rows[..|rows| - 1]));
    }
  }

  /** sortFAT's second loop from slot `i` on: a row per used slot, holding
      the name as getFAT reads it, the block, and (not indexed) the count.
      A used slot whose name is blank stops the loop. */
  function CollectRows(fat: seq<Byte>, kind: AllocationType, i: nat): (rows: seq<Entry>)
    requires |fat| == BLOCK_SIZE
    ensures |rows| <= LiveSlots(fat, kind, i)
    decreases MaxRecords(kind) - i
  {
    if i >= MaxRecords(kind) then []
    else
      SlotFits(kind, i);
      var off := SlotOffset(kind, i);
      if fat[off] == 0 then CollectRows(fat, kind, i + 1)
      else
        var name := NameField(fat[off..off + NAME_SIZE]);
        if AllBlank(name) then []
        else [Entry(name, fat[off + 8], if kind == Indexed then 0 else fat[off + 9])] + CollectRows(fat, kind, i + 1)
  }

  /** Every collected row holds an 8-byte name. */
  lemma {:induction false} CollectRowsSized(fat: seq<Byte>, kind: AllocationType, i: nat)
    requires |fat| == BLOCK_SIZE
    ensures Sized(CollectRows(fat, kind, i))
    decreases MaxRecords(kind) - i
  {
    if i < MaxRecords(kind) {
      CollectRowsSized(fat, kind, i + 1);
      SlotFits(kind, i);
      var off := SlotOffset(kind, i);
      assert |NameField(fat[off..off + NAME_SIZE])| == NAME_SIZE;
    }
  }

  /** Slot `i` is in use and its name is blank. */
  predicate BlankSlot(fat: seq<Byte>, kind: AllocationType, i: nat)
    requires |fat| == BLOCK_SIZE
  {
    Live(fat, kind, i) && AllBlank(NameField(fat[SlotOffset(kind, i)..SlotOffset(kind, i) + NAME_SIZE]))
  }

  /** Some used slot from `i` on has a blank name. */
  predicate HasBlankSlot(fat: seq<Byte>, kind: AllocationType, i: nat)
    requires |fat| == BLOCK_SIZE
  {
    exists k: nat :: i <= k < MaxRecords(kind) && BlankSlot(fat, kind, k)
  }

  /** The rows fall short of the used slots exactly when a used slot has a
      blank name. */
  lemma {:induction false} CollectStopsAtBlank(fat: seq<Byte>, kind: AllocationType, i: nat)
    requires |fat| == BLOCK_SIZE
    ensures |CollectRows(fat, kind, i)| < LiveSlots(fat, kind, i) <==> HasBlankSlot(fat, kind, i)
    decreases MaxRecords(kind) - i
  {
    if i < MaxRecords(kind) {
      CollectStopsAtBlank(fat, kind, i + 1);
      CollectStopsStep(fat, kind, i);
    } else {
      CollectStopsAtEnd(fat, kind, i);
    }
  }

  lemma CollectStopsAtEnd(fat: seq<Byte>, kind: AllocationType, i: nat)
    requires |fat| == BLOCK_SIZE && MaxRecords(kind) <= i
    ensures |CollectRows(fat, kind, i)| == LiveSlots(fat, kind, i) == 0 && !HasBlankSlot(fat, kind, i)
  {
  }

  lemma CollectStopsStep(fat: seq<Byte>, kind: AllocationType, i: nat)
    requires |fat| == BLOCK_SIZE && i < MaxRecords(kind)
    requires |CollectRows(fat, kind, i + 1)| < LiveSlots(fat, kind, i + 1) <==> HasBlankSlot(fat, kind, i + 1)
    ensures |CollectRows(fat, kind, i)| < LiveSlots(fat, kind, i) <==> HasBlankSlot(fat, kind, i)
  {
    CollectStep(fat, kind, i);
    HasBlankStep(fat, kind, i);
    if !Live(fat, kind, i) {
      assert !BlankSlot(fat, kind, i);
    } else if BlankSlot(fat, kind, i) {
    } else {
    }
  }

  lemma HasBlankStep(fat: seq<Byte>, kind: AllocationType, i: nat)
    requires |fat| == BLOCK_SIZE && i < MaxRecords(kind)
    ensures HasBlankSlot(fat, kind, i) <==> BlankSlot(fat, kind, i) || HasBlankSlot(fat, kind, i + 1)
  {
    if k: nat :| i <= k < MaxRecords(kind) && BlankSlot(fat, kind, k) {
      if k != i {
        assert i + 1 <= k;
      }
    }
  }

  /** One step of the collecting loop, in terms of counts. */
  lemma CollectStep(fat: seq<Byte>, kind: AllocationType, i: nat)
    requires |fat| == BLOCK_SIZE && i < MaxRecords(kind)
    ensures !Live(fat, kind, i) ==>
              |CollectRows(fat, kind, i)| == |CollectRows(fat, kind, i + 1)| && LiveSlots(fat, kind, i) == LiveSlots(fat, kind, i + 1)
    ensures BlankSlot(fat, kind, i) ==>
              |CollectRows(fat, kind, i)| == 0 && LiveSlots(fat, kind, i) == LiveSlots(fat, kind, i + 1) + 1
    ensures Live(fat, kind, i) && !BlankSlot(fat, kind, i) ==>
              |CollectRows(fat, kind, i)| == |CollectRows(fat, kind, i + 1)| + 1 && LiveSlots(fat, kind, i) == LiveSlots(fat, kind, i + 1) + 1
  {
    SlotFits(kind, i);
  }

  /** A block number through Integer.toString, Integer.parseInt and the
      (byte) cast, as sortFAT writes it back. */
  function Reparse(b: Byte): Byte {
    ToByte(ParseDecimal(Decimal(b)))
  }

  /** The bytes sortFAT writes for one row: eight name bytes, the block and,
      except for indexed files, the count. */
  function RowBytes(kind: AllocationType, e: Entry): seq<Byte>
    requires |e.name| == NAME_SIZE
  {
    e.name + [Reparse(e.block)] + (if kind == Indexed then [] else [Reparse(e.count)])
  }

  /** The detour through decimal text loses nothing: a row is written back
      as the slot it was read from. */
  lemma RowBytesAreSlotBytes(kind: AllocationType, e: Entry)
    requires |e.name| == NAME_SIZE
    ensures RowBytes(kind, e) == SlotBytes(kind, e)
  {
    ParseDecimalInvertsDecimal(e.block);
    ParseDecimalInvertsDecimal(e.count);
  }

  /** sortFAT's last loop from row `i` on: row `i` goes to slot `i`. */
  function WriteRows(d: Disk, kind: AllocationType, rows: seq<Entry>, i: nat): (e: Disk)
    requires Formatted(d) && Sized(rows) && |rows| <= MaxRecords(kind) && i <= |rows|
    ensures Formatted(e) && Agree(d, e, {0})
    decreases |rows| - i
  {
    if i == |rows| then d
    else
      SlotFits(kind, i);
      assert rows[i] in rows;
      var off := SlotOffset(kind, i);
      var d1 := WriteRun(d, 0, off, RowBytes(kind, rows[i]));
      WriteRunAgrees(d, 0, off, RowBytes(kind, rows[i]));
      var e := WriteRows(d1, kind, rows, i + 1);
      AgreeTrans(d, d1, e, {0}, {0});
      e
  }

  /** Writing the rows from `i` on into a block that holds the first `i`
      of them packed leaves all of them packed. */
  lemma {:induction false} WriteRowsPacks(d: Disk, kind: AllocationType, rows: seq<Entry>, i: nat)
    requires Formatted(d) && Sized(rows) && |rows| <= MaxRecords(kind) && i <= |rows|
    requires Sized(rows[..i]) && d.blocks[0] == Layout(kind, rows[..i])
    ensures WriteRows(d, kind, rows, i).blocks[0] == Layout(kind, rows)
    decreases |rows| - i
  {
    if i == |rows| {
      assert rows[..i] == rows;
    } else {
      var d1 := WriteRowsNext(d, kind, rows, i);
      WriteRowsPacks(d1, kind, rows, i + 1);
    }
  }

  /** The first turn of the last loop: row `i` stored in slot `i`, after
      which the loop goes on from row `i + 1`. */
  lemma WriteRowsNext(d: Disk, kind: AllocationType, rows: seq<Entry>, i: nat) returns (d1: Disk)
    requires Formatted(d) && Sized(rows) && |rows| <= MaxRecords(kind) && i < |rows|
    requires Sized(rows[..i]) && d.blocks[0] == Layout(kind, rows[..i])
    ensures Formatted(d1) && Sized(rows[..i + 1]) && d1.blocks[0] == Layout(kind, rows[..i + 1])
    ensures WriteRows(d, kind, rows, i) == WriteRows(d1, kind, rows, i + 1)
  {
    WriteRowStep(d, kind, rows, i);
    d1 := WriteRun(d, 0, SlotOffset(kind, i), RowBytes(kind, rows[i]));
  }

  lemma WriteRowStep(d: Disk, kind: AllocationType, rows: seq<Entry>, i: nat)
    requires Formatted(d) && Sized(rows) && |rows| <= MaxRecords(kind) && i < |rows|
    requires Sized(rows[..i]) && d.blocks[0] == Layout(kind, rows[..i])
    ensures SlotOffset(kind, i) + RecordSize(kind) <= BLOCK_SIZE
    ensures Sized(rows[..i + 1])
    ensures WriteRun(d, 0, SlotOffset(kind, i), RowBytes(kind, rows[i])).blocks[0] == Layout(kind, rows[..i + 1])
  {
    SlotFits(kind, i);
    var e := rows[i];
    assert e in rows;
    var before := rows[..i];
    assert before + [e] == rows[..i + 1];
    RowBytesAreSlotBytes(kind, e);
    LayoutAppend(kind, before, e);
    WriteRunContent(d, 0, SlotOffset(kind, i), RowBytes(kind, e));
  }

  /** sortFAT. With exactly one used slot, that slot moves to the top. With
      none or several, the rows are collected, sorted when there are
      several, and written back packed into a cleared block 0. Either way
      the bitmap is rebuilt. A blank name among several used slots leaves a
      row empty, which the sort then fails on. */
  function SortFAT(d: Disk, kind: AllocationType): (r: Result<Disk>)
    requires Formatted(d)
    ensures r.Err? <==> LiveSlots(d.blocks[0], kind, 0) >= 2 && |CollectRows(d.blocks[0], kind, 0)| < LiveSlots(d.blocks[0], kind, 0)
    ensures r.Err? ==> r.fault == BlankName
    ensures r.Ok? ==> r.value == Rebuilt(d, SortedFat(d.blocks[0], kind))
  {
    if LiveSlots(d.blocks[0], kind, 0) == 1 then Ok(MoveToTop(d, kind))
    else SortMany(d, kind)
  }

  /** The branch for zero or several used slots: the rows are collected,
      sorted and written back, unless a blank name cut the collection short. */
  function SortMany(d: Disk, kind: AllocationType): (r: Result<Disk>)
    requires Formatted(d) && LiveSlots(d.blocks[0], kind, 0) != 1
    ensures r.Err? <==> |CollectRows(d.blocks[0], kind, 0)| < LiveSlots(d.blocks[0], kind, 0)
    ensures r.Err? ==> r.fault == BlankName
    ensures r.Ok? ==> r.value == Rebuilt(d, SortedTable(d.blocks[0], kind))
  {
    var fat := d.blocks[0];
    var rows := CollectRows(fat, kind, 0);
    if |rows| < LiveSlots(fat, kind, 0) then Err(BlankName)
    else
      CollectRowsSized(fat, kind, 0);
      Ok(RewriteSorted(d, kind, SortRows(rows)))
  }

  /** sortFAT fails exactly when several slots are in use and one of them
      has a blank name. */
  lemma SortFATFailsOnBlankName(d: Disk, kind: AllocationType)
    requires Formatted(d)
    ensures SortFAT(d, kind).Err? <==> LiveSlots(d.blocks[0], kind, 0) >= 2 && HasBlankSlot(d.blocks[0], kind, 0)
  {
    CollectStopsAtBlank(d.blocks[0], kind, 0);
  }

  /** With none or several used slots and no blank name, sortFAT leaves
      block 0 holding the collected rows, reordered and none lost or
      added, in comparator order, packed from slot 0, and changes no data
      block. */
  lemma SortFATOrdersTable(d: Disk, kind: AllocationType) returns (e: Disk, rows: seq<Entry>)
    requires Formatted(d) && LiveSlots(d.blocks[0], kind, 0) != 1 && SortFAT(d, kind).Ok?
    ensures SortFAT(d, kind) == Ok(e) && Agree(d, e, {0})
    ensures Sized(rows) && |rows| <= MaxRecords(kind)
    ensures multiset(rows) == multiset(CollectRows(d.blocks[0], kind, 0)) && Sorted(rows)
    ensures e.blocks[0] == Layout(kind, rows)
  {
    var collected := CollectRows(d.blocks[0], kind, 0);
    CollectRowsSized(d.blocks[0], kind, 0);
    rows := SortRows(collected);
    SortRowsSorted(collected);
    e := SortFAT(d, kind).value;
    RebuiltAgrees(d, SortedTable(d.blocks[0], kind));
  }

  /** No slot in use from `i` on means none is counted. */
  lemma {:induction false} NoLiveSlots(fat: seq<Byte>, kind: AllocationType, i: nat)
    requires |fat| == BLOCK_SIZE
    requires forall k :: i <= k < MaxRecords(kind) ==> !Live(fat, kind, k)
    ensures LiveSlots(fat, kind, i) == 0
    decreases MaxRecords(kind) - i
  {
    if i < MaxRecords(kind) {
      assert !Live(fat, kind, i);
      NoLiveSlots(fat, kind, i + 1);
    }
  }

  /** With exactly one used slot, sortFAT leaves that slot's bytes at the
      top of block 0, zeroes the slot where it was (unless it already was
      the top one), keeps every other byte of the table and changes no data
      block. */
  lemma SortFATMovesSingleToTop(d: Disk, kind: AllocationType) returns (e: Disk, index: nat)
    requires Formatted(d) && LiveSlots(d.blocks[0], kind, 0) == 1
    ensures SortFAT(d, kind) == Ok(e) && Formatted(e) && Agree(d, e, {0})
    ensures index < MaxRecords(kind) && Live(d.blocks[0], kind, index)
    ensures MovedToTop(d.blocks[0], e.blocks[0], kind, index)
  {
    e := SortFAT(d, kind).value;
    RebuiltAgrees(d, SortedFat(d.blocks[0], kind));
    index := SingleSlotTop(d.blocks[0], kind);
  }

  /** `t` is `fat` with slot `index` moved to the top: the slot's bytes
      at the top, zeros where it was (unless it already was the top one),
      and every other byte kept. */
  predicate MovedToTop(fat: seq<Byte>, t: seq<Byte>, kind: AllocationType, index: nat)
    requires |fat| == BLOCK_SIZE && |t| == BLOCK_SIZE && index < MaxRecords(kind)
  {
    SlotFits(kind, index);
    var src, rs := SlotOffset(kind, index), RecordSize(kind);
    && t == MovedSlot(fat, src, rs)
    && t[..rs] == fat[src..src + rs]
    && (index > 0 ==> t[src..src + rs] == Zeros(rs))
    && forall p :: rs <= p < BLOCK_SIZE && !(src <= p < src + rs) ==> t[p] == fat[p]
  }

  /** The single used slot is the one the search finds, and the table
      sortFAT leaves is that slot moved to the top. */
  lemma SingleSlotTop(fat: seq<Byte>, kind: AllocationType) returns (index: nat)
    requires |fat| == BLOCK_SIZE && LiveSlots(fat, kind, 0) == 1
    ensures index < MaxRecords(kind) && Live(fat, kind, index)
    ensures MovedToTop(fat, SortedFat(fat, kind), kind, index)
  {
    index := LastLive(fat, kind, 0, 0);
    LastLiveIsLive(fat, kind);
    SlotFits(kind, index);
    assert SortedFat(fat, kind) == MovedSlot(fat, SlotOffset(kind, index), RecordSize(kind));
    MovedSlotMovesToTop(fat, kind, index);
  }

  lemma MovedSlotMovesToTop(fat: seq<Byte>, kind: AllocationType, index: nat)
    requires |fat| == BLOCK_SIZE && index < MaxRecords(kind)
    requires SlotOffset(kind, index) + RecordSize(kind) <= BLOCK_SIZE
    ensures MovedToTop(fat, MovedSlot(fat, SlotOffset(kind, index), RecordSize(kind)), kind, index)
  {
    SlotFits(kind, index);
    var src, rs := SlotOffset(kind, index), RecordSize(kind);
    assert src == 0 || rs <= src;
    MovedSlotTop(fat, src, rs);
    MovedSlotRest(fat, src, rs);
  }

  /** With a slot in use, the search for the last one finds one. */
  lemma LastLiveIsLive(fat: seq<Byte>, kind: AllocationType)
    requires |fat| == BLOCK_SIZE && LiveSlots(fat, kind, 0) > 0
    ensures Live(fat, kind, LastLive(fat, kind, 0, 0))
  {
    var r := LastLive(fat, kind, 0, 0);
    if !Live(fat, kind, r) {
      forall k | 0 <= k < MaxRecords(kind)
        ensures !Live(fat, kind, k)
      {
        if k == 0 {
          assert r == 0;
        }
      }
      NoLiveSlots(fat, kind, 0);
      assert false;
    }
  }

  /** The moved slot's bytes are at the top of the block. */
  lemma MovedSlotTop(fat: seq<Byte>, src: nat, rs: nat)
    requires |fat| == BLOCK_SIZE && src + rs <= BLOCK_SIZE
    ensures MovedSlot(fat, src, rs)[..rs] == fat[src..src + rs]
  {
    var m := MovedSlot(fat, src, rs);
    forall p | 0 <= p < rs
      ensures m[p] == fat[src + p]
    {
      assert m[p] == MovedByte(fat, src, rs, 0, p);
    }
  }

  /** Where the moved slot was (when it was not already at the top) the
      block is zero; past the top slot and outside the moved one, nothing
      changes. */
  lemma MovedSlotRest(fat: seq<Byte>, src: nat, rs: nat)
    requires |fat| == BLOCK_SIZE && src + rs <= BLOCK_SIZE && (src == 0 || rs <= src)
    ensures src > 0 ==> MovedSlot(fat, src, rs)[src..src + rs] == Zeros(rs)
    ensures forall p :: rs <= p < BLOCK_SIZE && !(src <= p < src + rs) ==> MovedSlot(fat, src, rs)[p] == fat[p]
  {
    var m := MovedSlot(fat, src, rs);
    if src > 0 {
      forall p | src <= p < src + rs
        ensures m[p] == 0
      {
        assert m[p] == MovedByte(fat, src, rs, 0, p);
      }
    }
    forall p | rs <= p < BLOCK_SIZE && !(src <= p < src + rs)
      ensures m[p] == fat[p]
    {
      assert m[p] == MovedByte(fat, src, rs, 0, p);
    }
  }

  /** Block 0 as sortFAT leaves it: with exactly one used slot, that slot
      moved to the top; otherwise the collected rows, sorted, packed from
      slot 0. */
  function SortedFat(fat: seq<Byte>, kind: AllocationType): (t: seq<Byte>)
    requires |fat| == BLOCK_SIZE
    ensures |t| == BLOCK_SIZE
  {
    if LiveSlots(fat, kind, 0) == 1 then
      var index := LastLive(fat, kind, 0, 0);
      MovedSlot(fat, SlotOffset(kind, index), RecordSize(kind))
    else SortedTable(fat, kind)
  }

  /** The table the rewriting branch leaves: the collected rows, sorted,
      packed from slot 0. */
  function SortedTable(fat: seq<Byte>, kind: AllocationType): (t: seq<Byte>)
    requires |fat| == BLOCK_SIZE
    ensures |t| == BLOCK_SIZE
  {
    var rows := CollectRows(fat, kind, 0);
    CollectRowsSized(fat, kind, 0);
    Layout(kind, SortRows(rows))
  }

  /** The single-record branch: the last used slot moves to the top unless
      it is already there; then the bitmap is rebuilt. */
  function MoveToTop(d: Disk, kind: AllocationType): (e: Disk)
    requires Formatted(d)
    requires LiveSlots(d.blocks[0], kind, 0) == 1
    ensures e == Rebuilt(d, SortedFat(d.blocks[0], kind))
  {
    var index := LastLive(d.blocks[0], kind, 0, 0);
    SlotFits(kind, index);
    var src := SlotOffset(kind, index);
    var rs := RecordSize(kind);
    if index > 0 then
      var moved := MoveSlot(d, src, rs, 0);
      MoveSlotContent(d, src, rs, 0);
      MovedSlotEffect(d, moved, src, rs);
      UpdateBitmap(moved)
    else
      MovedSlotEffect(d, d, src, rs);
      UpdateBitmap(d)
  }

  /** The other branch's ending: block 0 cleared, the rows written from
      slot 0 on, the bitmap rebuilt. */
  function RewriteSorted(d: Disk, kind: AllocationType, rows: seq<Entry>): (e: Disk)
    requires Formatted(d) && Sized(rows) && |rows| <= MaxRecords(kind)
    ensures e == Rebuilt(d, Layout(kind, rows))
  {
    var cleared := ClearBlock(d, 0);
    assert Zeros(BLOCK_SIZE) == Layout(kind, rows[..0]);
    WriteRowsPacks(cleared, kind, rows, 0);
    var written := WriteRows(cleared, kind, rows, 0);
    AgreeTrans(d, cleared, written, {0}, {0});
    RebuiltFromFat(d, written);
    UpdateBitmap(written)
  }

  lemma MovedSlotEffect(d: Disk, moved: Disk, src: nat, rs: nat)
    requires Formatted(d) && Formatted(moved) && Agree(d, moved, {0}) && src + rs <= BLOCK_SIZE
    requires forall p :: 0 <= p < BLOCK_SIZE ==> moved.blocks[0][p] == MovedByte(d.blocks[0], src, rs, 0, p)
    ensures UpdateBitmap(moved) == Rebuilt(d, MovedSlot(d.blocks[0], src, rs))
  {
    assert moved.blocks[0] == MovedSlot(d.blocks[0], src, rs);
    RebuiltFromFat(d, moved);
  }

  // ---------------------------------------------------------------------
  // Lookups over the scanned table

  predicate NameMatches(name: seq<Byte>, r: FileRecord) {
    EqualsIgnoreCase(Trim(name), Trim(r.fileName))
  }

  /** Position of the first record from `i` on whose trimmed name matches
      the trimmed `name` without regard to case, or -1. */
  function FirstMatch(table: seq<FileRecord>, name: seq<Byte>, i: nat): (r: int)
    requires i <= |table|
    ensures r == -1 || (i <= r < |table| && NameMatches(name, table[r]))
    ensures forall k :: i <= k < |table| && (r == -1 || k < r) ==> !NameMatches(name, table[k])
    decreases |table| - i
  {
    if i == |table| then -1
    else if NameMatches(name, table[i]) then i
    else FirstMatch(table, name, i + 1)
  }

  /** getFileRecord's loop: a copy of the first matching record. */
  function FindRecord(table: seq<FileRecord>, name: seq<Byte>): (r: Option<FileRecord>)
    ensures r.Some? ==> r.value in table && NameMatches(name, r.value)
    ensures r.None? <==> forall k :: 0 <= k < |table| ==> !NameMatches(name, table[k])
  {
    var i := FirstMatch(table, name, 0);
    if i < 0 then None else Some(CopyRecord(table[i]))
  }

  /** getFileRecord: rescans the table, then looks the name up. */
  function GetFileRecord(d: Disk, kind: AllocationType, name: seq<Byte>): (r: Option<FileRecord>)
    requires Formatted(d)
    ensures r.Some? ==> r.value in GetFAT(d, kind).1 && NameMatches(name, r.value)
    ensures r.None? <==> forall k :: 0 <= k < |GetFAT(d, kind).1| ==> !NameMatches(name, GetFAT(d, kind).1[k])
  {
    FindRecord(GetFAT(d, kind).1, name)
  }

  /** isValidFile's loop from position `i`: true on the first match. */
  function ValidFrom(table: seq<FileRecord>, name: seq<Byte>, i: nat): (b: bool)
    requires i <= |table|
    ensures b <==> exists k :: i <= k < |table| && NameMatches(name, table[k])
    decreases |table| - i
  {
    if i == |table| then false
    else if NameMatches(name, table[i]) then true
    else ValidFrom(table, name, i + 1)
  }

  /** isValidFile: rescans the table and reports whether the name is in it. */
  function IsValidFile(d: Disk, kind: AllocationType, name: seq<Byte>): (b: bool)
    requires Formatted(d)
    ensures b <==> exists k :: 0 <= k < |GetFAT(d, kind).1| && NameMatches(name, GetFAT(d, kind).1[k])
  {
    ValidFrom(GetFAT(d, kind).1, name, 0)
  }

  /** The two lookups agree. */
  lemma IsValidFileIffRecordFound(d: Disk, kind: AllocationType, name: seq<Byte>)
    requires Formatted(d)
    ensures IsValidFile(d, kind, name) <==> GetFileRecord(d, kind, name).Some?
  {
  }

  /** getFileRecordIndex, from position `i` of the table on. Unlike the
      record lookup, the name it is given is NOT trimmed. -1 when absent. */
  function IndexFrom(table: seq<FileRecord>, name: seq<Byte>, i: nat): (r: int)
    requires i <= |table|
    ensures r == -1 || (i <= r < |table| && EqualsIgnoreCase(name, Trim(table[r].fileName)))
    ensures forall k :: i <= k < |table| && (r == -1 || k < r) ==> !EqualsIgnoreCase(name, Trim(table[k].fileName))
    decreases |table| - i
  {
    if i == |table| then -1
    else if EqualsIgnoreCase(name, Trim(table[i].fileName)) then i
    else IndexFrom(table, name, i + 1)
  }

  function GetFileRecordIndex(table: seq<FileRecord>, name: seq<Byte>): (r: int)
    ensures r == -1 || (0 <= r < |table| && EqualsIgnoreCase(name, Trim(table[r].fileName)))
    ensures forall k :: 0 <= k < |table| && (r == -1 || k < r) ==> !EqualsIgnoreCase(name, Trim(table[k].fileName))
  {
    IndexFrom(table, name, 0)
  }

  /** For a name without blank ends, the index lookup finds the position of
      the record the record lookup returns; a name with a blank end is found
      by the record lookup but never by the index lookup. */
  lemma IndexAgreesWithRecord(table: seq<FileRecord>, name: seq<Byte>)
    ensures Trim(name) == name ==>
              (GetFileRecordIndex(table, name) == -1 <==> FindRecord(table, name).None?)
    ensures Trim(name) == name && FindRecord(table, name).Some? ==>
              table[GetFileRecordIndex(table, name)] == FindRecord(table, name).value
    ensures |name| > 0 && Trim(name) != name ==> GetFileRecordIndex(table, name) == -1
  {
    var idx := GetFileRecordIndex(table, name);
    if Trim(name) == name {
      IndexIsFirstMatch(table, name, 0);
      var i := FirstMatch(table, name, 0);
      if i != -1 {
        assert CopyRecord(table[i]) == table[i];
      }
    }
    if |name| > 0 && Trim(name) != name && idx != -1 {
      TrimOfBoundary(name);
      BlankEndNeverMatchesTrimmed(name, table[idx].fileName);
    }
  }

  /** For an untrimmable name, both lookups find the same position. */
  lemma {:induction false} IndexIsFirstMatch(table: seq<FileRecord>, name: seq<Byte>, i: nat)
    requires Trim(name) == name && i <= |table|
    ensures IndexFrom(table, name, i) == FirstMatch(table, name, i)
    decreases |table| - i
  {
    if i < |table| {
      assert NameMatches(name, table[i]) == EqualsIgnoreCase(name, Trim(table[i].fileName));
      IndexIsFirstMatch(table, name, i + 1);
    }
  }

  /** A name that trimming changes has a blank character at one end. */
  lemma TrimOfBoundary(s: seq<Byte>)
    requires |s| > 0 && Trim(s) != s
    ensures IsBlank(s[0]) || IsBlank(s[|s| - 1])
  {
  }

  /** The record lookup on the records of a packed table to which a new
      name was appended, when no earlier record has that name, finds the
      appended record. */
  lemma FindAppended(kind: AllocationType, es: seq<Entry>, name: seq<Byte>, block: int, length: int)
    requires Sized(es) && |name| <= NAME_SIZE
    requires forall k :: 0 <= k < |es| ==> !NameMatches(name, RecordOf(kind, es, k))
    ensures var es' := es + [NewEntry(kind, name, block, length)];
            FindRecord(RecordsFrom(kind, es', 0), name) == Some(RecordOf(kind, es', |es|))
  {
    var es' := es + [NewEntry(kind, name, block, length)];
    var table := RecordsFrom(kind, es', 0);
    forall k | 0 <= k < |es|
      ensures !NameMatches(name, table[k])
    {
      assert table[k].fileName == es[k].name == RecordOf(kind, es, k).fileName;
    }
    assert table[|es|].fileName == name + Zeros(NAME_SIZE - |name|);
    TrimIgnoresBlankSuffix(name, Zeros(NAME_SIZE - |name|));
    EqualsIgnoreCaseIsEquivalence(Trim(name), Trim(name), Trim(name));
    assert NameMatches(name, table[|es|]);
    assert FirstMatch(table, name, 0) == |es|;
  }

  /** After writeFileToFAT appends a name to a packed table that holds no
      record under that name, the record lookup finds the new record, with
      the block and (for chained and contiguous files) the length stored as
      bytes. */
  lemma LookupAfterAppend(d: Disk, kind: AllocationType, es: seq<Entry>, name: seq<Byte>, block: int, length: int)
    returns (e: Disk)
    requires Formatted(d) && ValidEntries(kind, es) && |es| < MaxRecords(kind) && d.blocks[0] == Layout(kind, es)
    requires GoodName(name) && forall k :: 0 <= k < |es| ==> !NameMatches(name, RecordOf(kind, es, k))
    ensures WriteFileToFAT(d, kind, name, block, length) == Ok(e) && Formatted(e)
    ensures GetFileRecord(e, kind, name).Some?
    ensures GetFileRecord(e, kind, name).value.block == ToByte(block)
    ensures kind != Indexed ==> GetFileRecord(e, kind, name).value.length == ToByte(length)
  {
    var es' := es + [NewEntry(kind, name, block, length)];
    WriteFileToFATAppends(d, kind, es, name, block, length);
    e := WriteFileToFAT(d, kind, name, block, length).value;
    assert e.blocks[0] == Layout(kind, es');
    GetFATOfLayout(e, kind, es');
    FindAppended(kind, es, name, block, length);
  }

  // ---------------------------------------------------------------------
  // A packed table with one slot zeroed, as deleteFile leaves it before the sort

  /** A packed table with slot `k` overwritten by zeros. */
  function ZeroedLayout(kind: AllocationType, es: seq<Entry>, k: nat): (fat: seq<Byte>)
    requires Sized(es) && |es| <= MaxRecords(kind) && k < |es|
    ensures |fat| == BLOCK_SIZE
  {
    SlotFits(kind, k);
    var off := SlotOffset(kind, k);
    Layout(kind, es)[..off] + Zeros(RecordSize(kind)) + Layout(kind, es)[off + RecordSize(kind)..]
  }

  /** The entries from position `i` on, entry `k` left out. */
  function Without(es: seq<Entry>, k: nat, i: nat): (r: seq<Entry>)
    decreases |es| - i
  {
    if i >= |es| then []
    else if i == k then Without(es, k, i + 1)
    else [es[i]] + Without(es, k, i + 1)
  }

  /** Leaving entry `k` out of the entries from `i` on is cutting it out of
      the sequence. */
  lemma {:induction false} WithoutIsRemoval(es: seq<Entry>, k: nat, i: nat)
    requires i <= |es| && k < |es|
    ensures Without(es, k, i) == if i <= k then es[i..k] + es[k + 1..] else es[i..]
    decreases |es| - i
  {
    if i < |es| {
      var rest := Without(es, k, i + 1);
      WithoutIsRemoval(es, k, i + 1);
      if i < k {
        assert rest == es[i + 1..k] + es[k + 1..];
        assert es[i..k] + es[k + 1..] == [es[i]] + rest;
      } else if i == k {
        assert rest == es[k + 1..] && es[i..k] == [];
      } else {
        assert rest == es[i + 1..];
        assert es[i..] == [es[i]] + rest;
      }
    }
  }

  /** Cutting entry `k` out removes one copy of it and keeps every other
      entry as often as it was there. */
  lemma WithoutMultiset(es: seq<Entry>, k: nat)
    requires k < |es|
    ensures multiset(Without(es, k, 0)) == multiset(es) - multiset{es[k]}
  {
    var a, b := es[..k], es[k + 1..];
    WithoutIsRemoval(es, k, 0);
    assert es[0..k] == a;
    SplitAround(es, k);
    var ma, mb := multiset(a), multiset(b);
    assert multiset(Without(es, k, 0)) == ma + mb;
    assert multiset(es) == ma + multiset{es[k]} + mb;
  }

  lemma {:induction false} WithoutLength(es: seq<Entry>, k: nat, i: nat)
    requires i <= |es| && k < |es|
    ensures |Without(es, k, i)| == if i <= k then |es| - i - 1 else |es| - i
    decreases |es| - i
  {
    if i < |es| {
      WithoutLength(es, k, i + 1);
    }
  }

  /** Of two entries, leaving one out leaves the other. */
  lemma WithoutOfPair(es: seq<Entry>, k: nat)
    requires |es| == 2 && k < 2
    ensures Without(es, k, 0) == [es[1 - k]]
  {
    assert Without(es, k, 2) == [];
  }

  lemma SplitAround(es: seq<Entry>, k: nat)
    requires k < |es|
    ensures es == es[..k] + [es[k]] + es[k + 1..]
  {
  }

  /** Every entry left is one of the others. */
  lemma {:induction false} WithoutFrom(es: seq<Entry>, k: nat, i: nat, x: Entry)
    requires x in Without(es, k, i)
    ensures exists j :: i <= j < |es| && j != k && es[j] == x
    decreases |es| - i
  {
    if i < |es| && !(i != k && x == es[i]) {
      WithoutFrom(es, k, i + 1, x);
    }
  }

  /** Byte `p` of the zeroed table: zero inside slot `k`, the packed
      table's byte elsewhere. */
  lemma ZeroedByte(kind: AllocationType, es: seq<Entry>, k: nat, p: nat)
    requires Sized(es) && |es| <= MaxRecords(kind) && k < |es| && p < BLOCK_SIZE
    ensures ZeroedLayout(kind, es, k)[p]
              == if SlotOffset(kind, k) <= p < SlotOffset(kind, k) + RecordSize(kind) then 0 else Layout(kind, es)[p]
  {
    SlotFits(kind, k);
  }

  /** Slot `i` of the zeroed table: the bytes of entry `i` for every entry
      but `k`, and a zero first byte for slot `k` and past the entries. */
  lemma ZeroedSlot(kind: AllocationType, es: seq<Entry>, k: nat, i: nat)
    requires Sized(es) && |es| <= MaxRecords(kind) && k < |es| && i < MaxRecords(kind)
    ensures SlotOffset(kind, i) + 10 <= BLOCK_SIZE
    ensures i >= |es| || i == k ==> ZeroedLayout(kind, es, k)[SlotOffset(kind, i)] == 0
    ensures i < |es| && i != k ==>
              forall j :: 0 <= j < RecordSize(kind) ==>
                ZeroedLayout(kind, es, k)[SlotOffset(kind, i) + j] == SlotBytes(kind, es[i])[j]
  {
    SlotFits(kind, i);
    var off := SlotOffset(kind, i);
    ZeroedByte(kind, es, k, off);
    if i >= |es| {
      SlotFits(kind, |es| - 1);
      LayoutTail(kind, es, off);
    } else if i != k {
      forall j | 0 <= j < RecordSize(kind)
        ensures ZeroedLayout(kind, es, k)[off + j] == SlotBytes(kind, es[i])[j]
      {
        ZeroedByte(kind, es, k, off + j);
        LayoutAt(kind, es, i, j);
      }
    }
  }

  /** The name, block and count fields of a slot holding an entry's bytes. */
  lemma SlotFields(kind: AllocationType, fat: seq<Byte>, off: nat, e: Entry)
    requires |fat| == BLOCK_SIZE && off + 10 <= BLOCK_SIZE && |e.name| == NAME_SIZE
    requires forall j :: 0 <= j < RecordSize(kind) ==> fat[off + j] == SlotBytes(kind, e)[j]
    ensures fat[off..off + NAME_SIZE] == e.name && fat[off + 8] == e.block
    ensures kind != Indexed ==> fat[off + 9] == e.count
  {
    assert SlotBytes(kind, e)[8] == e.block;
    forall j | 0 <= j < NAME_SIZE
      ensures fat[off + j] == e.name[j]
    {
      assert SlotBytes(kind, e)[j] == e.name[j];
    }
    if kind != Indexed {
      assert SlotBytes(kind, e)[9] == e.count;
    }
  }

  /** sortFAT's two counting loops over the zeroed table from slot `i` on:
      every slot but slot `k` is collected as the entry it holds, in slot
      order, and counted. */
  predicate ZeroedCollected(kind: AllocationType, es: seq<Entry>, k: nat, i: nat)
    requires Sized(es) && |es| <= MaxRecords(kind) && k < |es|
  {
    && CollectRows(ZeroedLayout(kind, es, k), kind, i) == Without(es, k, i)
    && LiveSlots(ZeroedLayout(kind, es, k), kind, i) == |Without(es, k, i)|
  }

  lemma {:induction false} CollectZeroed(kind: AllocationType, es: seq<Entry>, k: nat, i: nat)
    requires ValidEntries(kind, es) && |es| <= MaxRecords(kind) && k < |es|
    ensures ZeroedCollected(kind, es, k, i)
    ensures CollectRows(ZeroedLayout(kind, es, k), kind, i) == Without(es, k, i)
    ensures LiveSlots(ZeroedLayout(kind, es, k), kind, i) == |Without(es, k, i)|
    decreases MaxRecords(kind) - i
  {
    if i < MaxRecords(kind) {
      CollectZeroed(kind, es, k, i + 1);
      if i < |es| && i != k {
        ZeroedHeldStep(kind, es, k, i);
      } else {
        ZeroedSkipStep(kind, es, k, i);
      }
    } else {
      assert CollectRows(ZeroedLayout(kind, es, k), kind, i) == [] && Without(es, k, i) == [];
    }
  }

  lemma ZeroedHeldStep(kind: AllocationType, es: seq<Entry>, k: nat, i: nat)
    requires ValidEntries(kind, es) && |es| <= MaxRecords(kind) && k < |es| && i < |es| && i != k
    requires ZeroedCollected(kind, es, k, i + 1)
    ensures ZeroedCollected(kind, es, k, i)
  {
    ZeroedSlot(kind, es, k, i);
    CollectHeld(kind, ZeroedLayout(kind, es, k), i, es[i]);
    assert Without(es, k, i) == [es[i]] + Without(es, k, i + 1);
  }

  lemma ZeroedSkipStep(kind: AllocationType, es: seq<Entry>, k: nat, i: nat)
    requires Sized(es) && |es| <= MaxRecords(kind) && k < |es| && i < MaxRecords(kind) && (i >= |es| || i == k)
    requires ZeroedCollected(kind, es, k, i + 1)
    ensures ZeroedCollected(kind, es, k, i)
  {
    ZeroedGap(kind, es, k, i);
    CollectSkipsZero(kind, ZeroedLayout(kind, es, k), i);
    WithoutSkips(es, k, i);
  }

  /** Slot `k` and the slots past the entries start with a zero byte. */
  lemma ZeroedGap(kind: AllocationType, es: seq<Entry>, k: nat, i: nat)
    requires Sized(es) && |es| <= MaxRecords(kind) && k < |es| && i < MaxRecords(kind) && (i >= |es| || i == k)
    ensures SlotOffset(kind, i) < BLOCK_SIZE && ZeroedLayout(kind, es, k)[SlotOffset(kind, i)] == 0
  {
    ZeroedSlot(kind, es, k, i);
  }

  lemma WithoutSkips(es: seq<Entry>, k: nat, i: nat)
    requires i >= |es| || i == k
    ensures Without(es, k, i) == Without(es, k, i + 1)
  {
  }

  /** A slot whose first byte is zero is passed over. */
  lemma CollectSkipsZero(kind: AllocationType, fat: seq<Byte>, i: nat)
    requires |fat| == BLOCK_SIZE && i < MaxRecords(kind) && SlotOffset(kind, i) < BLOCK_SIZE && fat[SlotOffset(kind, i)] == 0
    ensures CollectRows(fat, kind, i) == CollectRows(fat, kind, i + 1)
    ensures LiveSlots(fat, kind, i) == LiveSlots(fat, kind, i + 1)
  {
  }

  /** A slot holding a valid entry is collected as that entry. */
  lemma CollectHeld(kind: AllocationType, fat: seq<Byte>, i: nat, e: Entry)
    requires |fat| == BLOCK_SIZE && i < MaxRecords(kind) && ValidEntry(kind, e) && SlotOffset(kind, i) + 10 <= BLOCK_SIZE
    requires forall j :: 0 <= j < RecordSize(kind) ==> fat[SlotOffset(kind, i) + j] == SlotBytes(kind, e)[j]
    ensures CollectRows(fat, kind, i) == [e] + CollectRows(fat, kind, i + 1)
    ensures LiveSlots(fat, kind, i) == 1 + LiveSlots(fat, kind, i + 1)
  {
    var off := SlotOffset(kind, i);
    SlotFields(kind, fat, off, e);
    StoredNameIsItsField(e.name);
    assert fat[off] == e.name[0] != 0;
  }

  /** With entry `k` gone, no row left that the entries became matches a
      name only entry `k` matched. */
  lemma NoneLeftMatches(kind: AllocationType, es: seq<Entry>, k: nat, rows: seq<Entry>, name: seq<Byte>)
    requires Sized(es) && k < |es| && Sized(rows)
    requires forall j :: 0 <= j < |es| && j != k ==> !NameMatches(name, RecordOf(kind, es, j))
    requires multiset(rows) == multiset(Without(es, k, 0))
    ensures forall i :: 0 <= i < |rows| ==> !NameMatches(name, RecordOf(kind, rows, i))
  {
    forall i | 0 <= i < |rows|
      ensures !NameMatches(name, RecordOf(kind, rows, i))
    {
      assert rows[i] in multiset(rows);
      WithoutFrom(es, k, 0, rows[i]);
      var j :| 0 <= j < |es| && j != k && es[j] == rows[i];
      assert RecordOf(kind, rows, i).fileName == RecordOf(kind, es, j).fileName;
    }
  }

  /** With slot `k` of a two-entry table zeroed, moving the other slot to
      the top leaves the other entry packed alone. */
  lemma SingleLeftPacked(kind: AllocationType, es: seq<Entry>, k: nat)
    requires Sized(es) && |es| == 2 && |es| <= MaxRecords(kind) && k < 2
    ensures SlotOffset(kind, 1 - k) + RecordSize(kind) <= BLOCK_SIZE
    ensures Sized([es[1 - k]])
    ensures MovedSlot(ZeroedLayout(kind, es, k), SlotOffset(kind, 1 - k), RecordSize(kind)) == Layout(kind, [es[1 - k]])
  {
    var z := ZeroedLayout(kind, es, k);
    var rs := RecordSize(kind);
    var src := SlotOffset(kind, 1 - k);
    var x := es[1 - k];
    assert x in es;
    var m := MovedSlot(z, src, rs);
    forall p | 0 <= p < BLOCK_SIZE
      ensures m[p] == Layout(kind, [x])[p]
    {
      assert m[p] == MovedByte(z, src, rs, 0, p);
      if p < rs {
        ZeroedSlot(kind, es, k, 1 - k);
        LayoutAt(kind, [x], 0, p);
      } else {
        LayoutTail(kind, [x], p);
        ZeroedByte(kind, es, k, p);
        if p >= SlotOffset(kind, 2) {
          LayoutTail(kind, es, p);
        }
      }
    }
  }
}
