/** The Java string operations the file table relies on, on names held as
    byte strings (one byte per character): `trim`, `equalsIgnoreCase`,
    `compareTo`, and the decimal `Integer.toString` / `Integer.parseInt`
    pair that sortFAT passes block numbers through. */
module Names {
  import opened Common

  /** `trim` drops every character at or below the space character. */
  predicate IsBlank(c: Byte) { c <= 32 }

  predicate AllBlank(s: seq<Byte>) {
    forall k :: 0 <= k < |s| ==> IsBlank(s[k])
  }

  /** The first index at or after `i` holding a non-blank character, as the
      front scan of `trim` finds it. */
  function SkipFront(s: seq<Byte>, i: nat): (a: nat)
    requires i <= |s|
    ensures i <= a <= |s|
    ensures forall k :: i <= k < a ==> IsBlank(s[k])
    ensures a < |s| ==> !IsBlank(s[a])
    decreases |s| - i
  {
    if i < |s| && IsBlank(s[i]) then SkipFront(s, i + 1) else i
  }

  /** The back scan of `trim`: moves the end `j` down over blank characters,
      never below `lo`. */
  function SkipBack(s: seq<Byte>, lo: nat, j: nat): (b: nat)
    requires lo <= j <= |s|
    ensures lo <= b <= j
    ensures forall k :: b <= k < j ==> IsBlank(s[k])
    ensures b > lo ==> !IsBlank(s[b - 1])
    decreases j
  {
    if j > lo && IsBlank(s[j - 1]) then SkipBack(s, lo, j - 1) else j
  }

  /** `String.trim`: drops the blank characters at both ends. */
  function Trim(s: seq<Byte>): (r: seq<Byte>)
    ensures |r| <= |s|
    ensures |r| > 0 ==> !IsBlank(r[0]) && !IsBlank(r[|r| - 1])
    ensures |r| == 0 <==> AllBlank(s)
  {
    var a := SkipFront(s, 0);
    var b := SkipBack(s, a, |s|);
    s[a..b]
  }

  /** What `trim` leaves is the infix of `s` between a blank prefix and a
      blank suffix. */
  lemma TrimIsInfix(s: seq<Byte>)
    ensures exists a :: 0 <= a && a + |Trim(s)| <= |s| && Trim(s) == s[a..a + |Trim(s)|]
                        && AllBlank(s[..a]) && AllBlank(s[a + |Trim(s)|..])
  {
    var a := SkipFront(s, 0);
    var b := SkipBack(s, a, |s|);
    assert Trim(s) == s[a..b];
    assert AllBlank(s[..a]) && AllBlank(s[b..]);
  }

  /** Trimming a trimmed name changes nothing. */
  lemma TrimIdempotent(s: seq<Byte>)
    ensures Trim(Trim(s)) == Trim(s)
  {
    var r := Trim(s);
    if |r| > 0 {
      assert SkipFront(r, 0) == 0;
      assert SkipBack(r, 0, |r|) == |r|;
    }
  }

  /** `trim` is determined by where the first and the last non-blank
      characters sit. */
  lemma TrimBetween(s: seq<Byte>, a: nat, b: nat)
    requires a < b <= |s| && !IsBlank(s[a]) && !IsBlank(s[b - 1])
    requires AllBlank(s[..a]) && AllBlank(s[b..])
    ensures Trim(s) == s[a..b]
  {
    assert forall k :: 0 <= k < a ==> IsBlank(s[..a][k]);
    assert forall k :: b <= k < |s| ==> s[k] == s[b..][k - b];
    var a' := SkipFront(s, 0);
    assert a' == a;
    var b' := SkipBack(s, a, |s|);
    assert b' == b;
  }

  /** Blank characters appended to a name vanish under `trim`; this is how
      the zero bytes that pad a stored name disappear. */
  lemma TrimIgnoresBlankSuffix(s: seq<Byte>, z: seq<Byte>)
    requires AllBlank(z)
    ensures Trim(s + z) == Trim(s)
  {
    var t := s + z;
    if AllBlank(s) {
      assert AllBlank(t) by {
        forall k | 0 <= k < |t|
          ensures IsBlank(t[k])
        {
          if k >= |s| {
            assert t[k] == z[k - |s|];
          }
        }
      }
    } else {
      var a := SkipFront(s, 0);
      var b := SkipBack(s, a, |s|);
      assert Trim(s) == s[a..b];
      assert b > a;
      assert AllBlank(t[b..]) by {
        forall k | 0 <= k < |t[b..]|
          ensures IsBlank(t[b..][k])
        {
          if b + k >= |s| {
            assert t[b..][k] == z[b + k - |s|];
          } else {
            assert t[b..][k] == s[b + k];
          }
        }
      }
      assert AllBlank(t[..a]) by {
        assert t[..a] == s[..a];
      }
      TrimBetween(t, a, b);
      assert t[a..b] == s[a..b];
    }
  }

  /** ASCII case folding, as `equalsIgnoreCase` applies it to letters. The
      result is never an upper-case letter, and a character that changes
      becomes the lower-case form of itself. */
  function Fold(c: Byte): (f: Byte)
    ensures !IsUpper(f)
    ensures f == c || LowerOf(c, f)
  {
    if 65 <= c <= 90 then c + 32 else c
  }

  /** An upper-case ASCII letter. */
  predicate IsUpper(c: Byte) { 65 <= c <= 90 }

  /** `lower` is the lower-case form of the upper-case letter `upper`. */
  predicate LowerOf(upper: Byte, lower: Byte) { IsUpper(upper) && lower == upper + 32 }

  /** Folding a folded character changes nothing. */
  lemma FoldIdempotent(c: Byte)
    ensures Fold(Fold(c)) == Fold(c)
  {
  }

  /** Two characters fold alike exactly when they are equal or are the two
      cases of one ASCII letter. */
  lemma FoldAlike(a: Byte, b: Byte)
    ensures Fold(a) == Fold(b) <==> a == b || LowerOf(a, b) || LowerOf(b, a)
  {
  }

  /** `equalsIgnoreCase`, scanned character by character like
      `regionMatches`: equal length and equal after folding. */
  function EqualsIgnoreCase(a: seq<Byte>, b: seq<Byte>): (r: bool)
    ensures r <==> |a| == |b| && forall k :: 0 <= k < |a| ==> Fold(a[k]) == Fold(b[k])
    decreases |a|
  {
    if |a| != |b| then false
    else if |a| == 0 then true
    else if Fold(a[0]) != Fold(b[0]) then false
    else
      var r := EqualsIgnoreCase(a[1..], b[1..]);
      assert forall k :: 0 < k < |a| ==> a[k] == a[1..][k - 1] && b[k] == b[1..][k - 1];
      r
  }

  /** Folding never changes whether a character is blank, so a name with a
      blank character at one end never matches a trimmed name. */
  lemma BlankEndNeverMatchesTrimmed(name: seq<Byte>, other: seq<Byte>)
    requires |name| > 0 && (IsBlank(name[0]) || IsBlank(name[|name| - 1]))
    ensures !EqualsIgnoreCase(name, Trim(other))
  {
  }

  lemma EqualsIgnoreCaseIsEquivalence(a: seq<Byte>, b: seq<Byte>, c: seq<Byte>)
    ensures EqualsIgnoreCase(a, a)
    ensures EqualsIgnoreCase(a, b) ==> EqualsIgnoreCase(b, a)
    ensures EqualsIgnoreCase(a, b) && EqualsIgnoreCase(b, c) ==> EqualsIgnoreCase(a, c)
  {
  }

  /** `String.compareTo`: the difference of the first differing characters,
      or else the difference of the lengths. */
  function Compare(a: seq<Byte>, b: seq<Byte>): (r: int)
    ensures r == 0 <==> a == b
    decreases |a|
  {
    if |a| == 0 || |b| == 0 then |a| - |b|
    else if a[0] != b[0] then a[0] - b[0]
    else
      var r := Compare(a[1..], b[1..]);
      assert a == [a[0]] + a[1..] && b == [b[0]] + b[1..];
      r
  }

  /** Lexicographic order, stated without reference to the scan. */
  predicate LexLess(a: seq<Byte>, b: seq<Byte>) {
    || (exists k :: 0 <= k < |a| && k < |b| && a[..k] == b[..k] && a[k] < b[k])
    || (|a| < |b| && a == b[..|a|])
  }

  lemma {:induction false} CompareAntisymmetric(a: seq<Byte>, b: seq<Byte>)
    ensures Compare(a, b) == -Compare(b, a)
    decreases |a|
  {
    if |a| > 0 && |b| > 0 && a[0] == b[0] {
      CompareAntisymmetric(a[1..], b[1..]);
    }
  }

  /** A negative comparison means exactly that `a` precedes `b`. */
  lemma {:induction false} CompareIsLexicographic(a: seq<Byte>, b: seq<Byte>)
    ensures Compare(a, b) < 0 <==> LexLess(a, b)
    decreases |a|
  {
    if |a| == 0 || |b| == 0 {
      if |a| > 0 {
        assert !LexLess(a, b);
      }
    } else if a[0] != b[0] {
      if a[0] < b[0] {
        assert a[..0] == b[..0];
      } else {
        if LexLess(a, b) {
          var k :| 0 <= k < |a| && k < |b| && a[..k] == b[..k] && a[k] < b[k];
          if k > 0 {
            assert a[..k][0] == b[..k][0];
          }
        }
      }
    } else {
      CompareIsLexicographic(a[1..], b[1..]);
      LexLessTail(a, b);
    }
  }

  lemma LexLessTail(a: seq<Byte>, b: seq<Byte>)
    requires |a| > 0 && |b| > 0 && a[0] == b[0]
    ensures LexLess(a, b) <==> LexLess(a[1..], b[1..])
  {
    if LexLess(a[1..], b[1..]) {
      if k :| 0 <= k < |a[1..]| && k < |b[1..]| && a[1..][..k] == b[1..][..k] && a[1..][k] < b[1..][k] {
        assert a[..k + 1] == [a[0]] + a[1..][..k];
        assert b[..k + 1] == [b[0]] + b[1..][..k];
      } else {
        assert a == [a[0]] + a[1..] && b[..|a|] == [b[0]] + b[1..][..|a[1..]|];
      }
    }
    if LexLess(a, b) {
      if k :| 0 <= k < |a| && k < |b| && a[..k] == b[..k] && a[k] < b[k] {
        assert k > 0;
        assert a[1..][..k - 1] == a[..k][1..] && b[1..][..k - 1] == b[..k][1..];
      } else {
        assert b[1..][..|a[1..]|] == b[..|a|][1..];
      }
    }
  }

  /** The comparison orders names totally: it is transitive. */
  lemma {:induction false} CompareTransitive(a: seq<Byte>, b: seq<Byte>, c: seq<Byte>)
    requires Compare(a, b) <= 0 && Compare(b, c) <= 0
    ensures Compare(a, c) <= 0
    decreases |a|
  {
    if |a| > 0 && |b| > 0 && |c| > 0 && a[0] == b[0] && b[0] == c[0] {
      CompareTransitive(a[1..], b[1..], c[1..]);
    }
  }

  function Digit(n: nat): (c: Byte)
    requires n < 10
  {
    48 + n
  }

  /** `Integer.toString` of a non-negative number. */
  function Decimal(n: nat): (s: seq<Byte>)
    ensures |s| > 0 && forall k :: 0 <= k < |s| ==> 48 <= s[k] <= 57
    ensures |s| > 1 ==> s[0] != 48
    decreases n
  {
    if n < 10 then [Digit(n)] else Decimal(n / 10) + [Digit(n % 10)]
  }

  /** `Integer.parseInt` of a string of decimal digits. */
  function ParseDecimal(s: seq<Byte>): nat
    requires forall k :: 0 <= k < |s| ==> 48 <= s[k] <= 57
    decreases |s|
  {
    if |s| == 0 then 0 else ParseDecimal(s[..|s| - 1]) * 10 + (s[|s| - 1] - 48)
  }

  /** sortFAT's detour through decimal strings gives the block number back. */
  lemma {:induction false} ParseDecimalInvertsDecimal(n: nat)
    ensures ParseDecimal(Decimal(n)) == n
    decreases n
  {
    if n >= 10 {
      var s := Decimal(n);
      assert s[..|s| - 1] == Decimal(n / 10);
      ParseDecimalInvertsDecimal(n / 10);
    }
  }

  /** Decimal strings compare as text, not as numbers: "10" sorts before "9". */
  lemma DecimalOrderIsTextual()
    ensures Compare(Decimal(10), Decimal(9)) < 0
    ensures Compare(Decimal(100), Decimal(20)) < 0
  {
    assert Decimal(10) == [49, 48];
    assert Decimal(9) == [57];
    assert Decimal(100) == [49, 48, 48];
    assert Decimal(20) == [50, 48];
  }
}
