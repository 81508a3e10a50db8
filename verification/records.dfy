/** FileRecord.java: one row of the in-memory copy of the file table. */
module Records {
  import opened Common
  import opened Names

  /** `block` is the start block (chained, contiguous) or the index block
      (indexed); `length` is the stored block count, 0 for indexed files. */
  datatype FileRecord = FileRecord(fileName: seq<Byte>, block: int, length: int)

  /** The no-argument constructor: empty name, block -1, length 0. */
  function EmptyRecord(): (r: FileRecord)
    ensures r.fileName == [] && r.block == -1 && r.length == 0
  {
    FileRecord([], -1, 0)
  }

  /** The constructor for chained and contiguous files. */
  function ChainedRecord(fileName: seq<Byte>, startBlock: int, length: int): (r: FileRecord)
    ensures GetFileName(r) == fileName && GetStartBlock(r) == startBlock && GetLength(r) == length
  {
    FileRecord(fileName, startBlock, length)
  }

  /** The constructor for indexed files: the length is fixed at 0. */
  function IndexedRecord(fileName: seq<Byte>, indexBlock: int): (r: FileRecord)
    ensures GetFileName(r) == fileName && GetIndexBlock(r) == indexBlock && GetLength(r) == 0
  {
    FileRecord(fileName, indexBlock, 0)
  }

  /** The copy constructor: a record indistinguishable from the original. */
  function CopyRecord(f: FileRecord): (r: FileRecord)
    ensures GetFileName(r) == GetFileName(f) && GetStartBlock(r) == GetStartBlock(f)
    ensures GetLength(r) == GetLength(f)
    ensures Equals(r, f) && CompareTo(r, f) == 0
  {
    FileRecord(GetFileName(f), GetStartBlock(f), GetLength(f))
  }

  function GetFileName(r: FileRecord): seq<Byte> { r.fileName }
  function GetStartBlock(r: FileRecord): int { r.block }
  /** The same field as the start block, read under its indexed meaning. */
  function GetIndexBlock(r: FileRecord): int { r.block }
  function GetLength(r: FileRecord): int { r.length }

  /** `equals`: two records are equal when their names are, whatever their
      blocks and lengths. */
  function Equals(a: FileRecord, b: FileRecord): (r: bool)
    ensures r <==> a.fileName == b.fileName
  {
    Compare(a.fileName, b.fileName) == 0
  }

  /** `compareTo`: 0 for equal records, otherwise the name comparison. */
  function CompareTo(a: FileRecord, b: FileRecord): (r: int)
    ensures r == 0 <==> a.fileName == b.fileName
  {
    if Equals(a, b) then 0 else Compare(a.fileName, b.fileName)
  }

  /** Records are ordered by name alone, consistently with `equals`:
      antisymmetric, lexicographic, and transitive. */
  lemma CompareToOrdersByName(a: FileRecord, b: FileRecord, c: FileRecord)
    ensures CompareTo(a, b) == -CompareTo(b, a)
    ensures CompareTo(a, b) < 0 <==> LexLess(a.fileName, b.fileName)
    ensures CompareTo(a, b) <= 0 && CompareTo(b, c) <= 0 ==> CompareTo(a, c) <= 0
  {
    CompareAntisymmetric(a.fileName, b.fileName);
    CompareIsLexicographic(a.fileName, b.fileName);
    if CompareTo(a, b) <= 0 && CompareTo(b, c) <= 0 {
      CompareTransitive(a.fileName, b.fileName, c.fileName);
    }
  }

  /** `equals` is not structural equality: records of one name but
      different blocks are equal. */
  lemma EqualsIgnoresBlocks(name: seq<Byte>, b1: int, b2: int, l1: int, l2: int)
    ensures Equals(ChainedRecord(name, b1, l1), ChainedRecord(name, b2, l2))
    ensures Equals(ChainedRecord(name, b1, l1), IndexedRecord(name, b2))
  {
  }
}
