/** Shared vocabulary: bytes, outcomes, and small sequence helpers used by
    every other module of the disk model. */
module Common {

  /** A byte as the simulator stores it. Java bytes are signed, but every
      place the simulator inspects one either compares it with zero or masks
      it with 0xFF, so the unsigned view is the faithful one. */
  type Byte = x: int | 0 <= x < 256

  /** The Java runtime failures the simulator can run into. None of them is
      caught by the simulator itself, so each ends the program. */
  datatype Fault =
    | BadAddress       // an array index outside the disk (ArrayIndexOutOfBoundsException)
    | NoRecord         // a FileRecord lookup returned null and was dereferenced
    | EmptyIndexBlock  // remove(0) on the empty list of index-block entries
    | BlankName        // sortFAT left a null row after a blank name and sorted or wrote it

  datatype Result<T> = Ok(value: T) | Err(fault: Fault) {
    predicate IsFailure() { Err? }
    function PropagateFailure<U>(): Result<U>
      requires Err?
    {
      Err(fault)
    }
    function Extract(): T
      requires Ok?
    {
      value
    }
  }

  datatype Option<T> = None | Some(value: T)

  /** The low eight bits of an int, as a Java (byte) cast keeps them. */
  function ToByte(x: int): (b: Byte)
    ensures 0 <= x < 256 ==> b == x
    ensures (b - x) % 256 == 0
  {
    x % 256
  }

  lemma ModOfSmaller(p: nat, n: nat)
    requires p < n
    ensures p % n == p
  {
  }

  predicate AllZero(s: seq<Byte>) {
    forall i :: 0 <= i < |s| ==> s[i] == 0
  }

  lemma AllZeroSplit(s: seq<Byte>, k: nat)
    requires k <= |s|
    ensures AllZero(s) <==> AllZero(s[..k]) && AllZero(s[k..])
  {
    assert forall i :: k <= i < |s| ==> s[i] == s[k..][i - k];
  }

  function Zeros(n: nat): (z: seq<Byte>)
    ensures |z| == n && AllZero(z)
  {
    seq(n, _ => 0)
  }

  /** Bytes that do not end in a zero byte. */
  predicate NoTrailingZero(s: seq<Byte>) {
    |s| == 0 || s[|s| - 1] != 0
  }

  /** Removes every trailing zero byte, as the read path does before it
      hands the file content back. */
  function StripTrailingZeros(s: seq<Byte>): (r: seq<Byte>)
    ensures |r| <= |s| && r == s[..|r|]
    ensures |r| > 0 ==> r[|r| - 1] != 0
    ensures AllZero(s[|r|..])
    decreases |s|
  {
    if |s| == 0 then []
    else if s[|s| - 1] == 0 then StripTrailingZeros(s[..|s| - 1])
    else s
  }

  /** Stripping only looks at the zeros at the end: appending zeros changes nothing. */
  lemma {:induction false} StripIgnoresZeroSuffix(s: seq<Byte>, z: seq<Byte>)
    requires AllZero(z)
    ensures StripTrailingZeros(s + z) == StripTrailingZeros(s)
    decreases |z|
  {
    if |z| > 0 {
      var t := s + z[..|z| - 1];
      assert (s + z)[..|s + z| - 1] == t;
      StripIgnoresZeroSuffix(s, z[..|z| - 1]);
    } else {
      assert s + z == s;
    }
  }

  /** A sequence that does not end in zero is its own stripped form. */
  lemma StripKeepsNonzeroEnd(s: seq<Byte>)
    requires |s| > 0 && s[|s| - 1] != 0
    ensures StripTrailingZeros(s) == s
  {
  }

  /** Content that is empty or ends in a nonzero byte comes back from the
      stripping unchanged, however many zeros pad it. */
  lemma StripPadding(s: seq<Byte>, n: nat)
    requires |s| == 0 || s[|s| - 1] != 0
    ensures StripTrailingZeros(s + Zeros(n)) == s
  {
    StripIgnoresZeroSuffix(s, Zeros(n));
    if |s| > 0 {
      StripKeepsNonzeroEnd(s);
    }
  }

  function Concat(chunks: seq<seq<Byte>>): (r: seq<Byte>)
    decreases |chunks|
  {
    if |chunks| == 0 then [] else chunks[0] + Concat(chunks[1..])
  }

  lemma {:induction false} ConcatAppend(a: seq<seq<Byte>>, b: seq<seq<Byte>>)
    ensures Concat(a + b) == Concat(a) + Concat(b)
    decreases |a|
  {
    if |a| == 0 {
      assert a + b == b;
    } else {
      assert (a + b)[1..] == a[1..] + b;
      ConcatAppend(a[1..], b);
    }
  }

  /** Splits `s` into pieces of `cap` bytes; the last piece may be shorter.
      Empty content gives no pieces at all. */
  function Chunks(s: seq<Byte>, cap: nat): (r: seq<seq<Byte>>)
    requires cap > 0
    ensures Concat(r) == s
    ensures forall i :: 0 <= i < |r| ==> 0 < |r[i]| <= cap
    ensures forall i :: 0 <= i < |r| - 1 ==> |r[i]| == cap
    ensures |s| > 0 <==> |r| > 0
    decreases |s|
  {
    if |s| == 0 then []
    else if |s| <= cap then [s]
    else [s[..cap]] + Chunks(s[cap..], cap)
  }

  /** Content of exactly `m` full pieces splits into `m` full pieces. */
  lemma {:induction false} ChunksOfMultiple(s: seq<Byte>, cap: nat, m: nat)
    requires cap > 0 && |s| == m * cap
    ensures |Chunks(s, cap)| == m
    ensures forall i :: 0 <= i < m ==> |Chunks(s, cap)[i]| == cap
    decreases m
  {
    if m > 0 {
      MultipleSplits(m, cap);
      if m > 1 {
        ChunksOfMultiple(s[cap..], cap, m - 1);
      }
    }
  }

  /** Content longer than `m` pieces but no longer than `m + 1` splits
      into `m + 1` pieces. */
  lemma {:induction false} ChunkCount(s: seq<Byte>, cap: nat, m: nat)
    requires cap > 0 && m * cap < |s| <= m * cap + cap
    ensures |Chunks(s, cap)| == m + 1
    decreases m
  {
    if m > 0 {
      MultipleSplits(m, cap);
      ChunkCount(s[cap..], cap, m - 1);
    }
  }

  lemma MultipleSplits(m: nat, cap: nat)
    requires m > 0 && cap > 0
    ensures m * cap == (m - 1) * cap + cap
    ensures m > 1 <==> m * cap > cap
  {
    if m > 1 {
      assert (m - 1) * cap >= cap;
    }
  }
}
