/** The Python `str` operations the helpers are built from, on `seq<char>`:
    `sep.join(parts)`, `s.split(sep)`, `s.replace(old, new)`, `s.partition(sep)`
    and `str(n)` for a non-negative integer. */
module Strings {
  import opened Wrappers
  import Ascii

  // ---------------------------------------------------------------------
  // join and split
  // ---------------------------------------------------------------------

  /** `sep.join(parts)`. */
  function Join(parts: seq<string>, sep: string): string
    decreases |parts|
  {
    if |parts| == 0 then ""
    else if |parts| == 1 then parts[0]
    else parts[0] + sep + Join(parts[1..], sep)
  }

  /** `s.split(sep)` for a one-character separator: the pieces between
      separators, always at least one, none containing `sep`. */
  function Split(s: string, sep: char): (r: seq<string>)
    ensures |r| >= 1
    ensures forall i :: 0 <= i < |r| ==> sep !in r[i]
    decreases |s|
  {
    if |s| == 0 then [""]
    else
      var rest := Split(s[1..], sep);
      if s[0] == sep then [""] + rest
      else [[s[0]] + rest[0]] + rest[1..]
  }

  /** Joining the pieces of a split gives back the string. */
  lemma {:induction false} JoinSplit(s: string, sep: char)
    ensures Join(Split(s, sep), [sep]) == s
    decreases |s|
  {
    if |s| > 0 {
      var rest := Split(s[1..], sep);
      JoinSplit(s[1..], sep);
      if s[0] == sep {
        assert ([""] + rest)[1..] == rest;
      } else if |rest| > 1 {
        var r := [[s[0]] + rest[0]] + rest[1..];
        assert r[1..] == rest[1..];
      }
    }
  }

  lemma {:induction false} SplitNoSeparator(s: string, sep: char)
    requires sep !in s
    ensures Split(s, sep) == [s]
    decreases |s|
  {
    if |s| > 0 {
      SplitNoSeparator(s[1..], sep);
      assert [s[0]] + s[1..] == s;
    }
  }

  lemma {:induction false} SplitAfterPiece(a: string, sep: char, b: string)
    requires sep !in a
    ensures Split(a + [sep] + b, sep) == [a] + Split(b, sep)
    decreases |a|
  {
    var s := a + [sep] + b;
    if |a| == 0 {
      assert s[1..] == b;
    } else {
      assert s[1..] == a[1..] + [sep] + b;
      SplitAfterPiece(a[1..], sep, b);
      assert [a[0]] + a[1..] == a;
    }
  }

  /** Splitting a join of separator-free pieces gives back the pieces. */
  lemma {:induction false} SplitJoin(parts: seq<string>, sep: char)
    requires |parts| >= 1
    requires forall i :: 0 <= i < |parts| ==> sep !in parts[i]
    ensures Split(Join(parts, [sep]), sep) == parts
    decreases |parts|
  {
    if |parts| == 1 {
      SplitNoSeparator(parts[0], sep);
    } else {
      SplitJoin(parts[1..], sep);
      SplitAfterPiece(parts[0], sep, Join(parts[1..], [sep]));
      assert [parts[0]] + parts[1..] == parts;
    }
  }

  // ---------------------------------------------------------------------
  // occurrences, find, partition
  // ---------------------------------------------------------------------

  /** `pat` occurs in `s` starting at index `i`. */
  predicate OccursAt(s: string, pat: string, i: int)
  {
    0 <= i && i + |pat| <= |s| && s[i..i + |pat|] == pat
  }

  /** `pat in s`. */
  predicate Occurs(s: string, pat: string)
  {
    exists i :: 0 <= i <= |s| && OccursAt(s, pat, i)
  }

  lemma ShiftOccurrences(s: string, pat: string)
    requires |s| > 0
    ensures forall k :: 0 <= k ==> (OccursAt(s[1..], pat, k) <==> OccursAt(s, pat, k + 1))
    ensures forall k :: 1 <= k ==> (OccursAt(s, pat, k) <==> OccursAt(s[1..], pat, k - 1))
  {
    forall k | 0 <= k
      ensures OccursAt(s[1..], pat, k) <==> OccursAt(s, pat, k + 1)
    {
      if k + |pat| <= |s| - 1 {
        assert s[1..][k..k + |pat|] == s[k + 1..k + 1 + |pat|];
      }
    }
    forall k | 1 <= k
      ensures OccursAt(s, pat, k) <==> OccursAt(s[1..], pat, k - 1)
    {
      assert OccursAt(s[1..], pat, k - 1) <==> OccursAt(s, pat, k - 1 + 1);
    }
  }

  /** The first index from `i` on at which `pat` occurs, if any. */
  function FindFrom(s: string, pat: string, i: nat): (r: Option<nat>)
    requires |pat| > 0
    ensures r.Some? ==> i <= r.value && OccursAt(s, pat, r.value)
    ensures r.Some? ==> forall k :: i <= k < r.value ==> !OccursAt(s, pat, k)
    ensures r.None? ==> forall k :: i <= k ==> !OccursAt(s, pat, k)
    decreases |s| - i
  {
    if i + |pat| > |s| then None
    else if s[i..i + |pat|] == pat then Some(i)
    else FindFrom(s, pat, i + 1)
  }

  /** `s.find(pat)`: the first index at which `pat` occurs, if any. */
  function FindFirst(s: string, pat: string): (r: Option<nat>)
    requires |pat| > 0
    ensures r.Some? ==> OccursAt(s, pat, r.value)
    ensures r.Some? ==> forall k :: 0 <= k < r.value ==> !OccursAt(s, pat, k)
    ensures r.None? <==> !Occurs(s, pat)
  {
    FindFrom(s, pat, 0)
  }

  /** The first occurrence is the one with no occurrence before it. */
  lemma FindFirstIs(s: string, pat: string, i: nat)
    requires |pat| > 0
    requires OccursAt(s, pat, i)
    requires forall k :: 0 <= k < i ==> !OccursAt(s, pat, k)
    ensures FindFirst(s, pat) == Some(i)
  {
    assert Occurs(s, pat);
  }

  /** `s.partition(sep)`: the text before the first `sep`, `sep` itself and the
      text after it; `(s, "", "")` when `sep` does not occur. */
  function Partition(s: string, sep: string): (r: (string, string, string))
    requires |sep| > 0
    ensures r.0 + r.1 + r.2 == s
    ensures r.1 == sep || r.1 == ""
    ensures r.1 == "" <==> !Occurs(s, sep)
    ensures r.1 == "" ==> r.0 == s && r.2 == ""
    ensures r.1 == sep ==> OccursAt(s, sep, |r.0|)
    ensures r.1 == sep ==> forall k :: 0 <= k < |r.0| ==> !OccursAt(s, sep, k)
  {
    match FindFirst(s, sep)
    case None => (s, "", "")
    case Some(i) =>
      assert s[..i] + sep + s[i + |sep|..] == s[..i] + s[i..i + |sep|] + s[i + |sep|..] == s;
      (s[..i], sep, s[i + |sep|..])
  }

  /** `sep` and what follows: the text from the first `sep` on. */
  lemma PartitionFromFirst(s: string, sep: string)
    requires |sep| > 0
    ensures var (_, m, t) := Partition(s, sep);
            m + t == match FindFirst(s, sep) { case None => "" case Some(i) => s[i..] }
  {
    match FindFirst(s, sep) {
      case None =>
      case Some(i) =>
        assert s[i..] == s[i..i + |sep|] + s[i + |sep|..];
    }
  }

  /** What precedes `sep` and `sep`: the text up to the end of the first
      `sep`. */
  lemma PartitionThroughFirst(s: string, sep: string)
    requires |sep| > 0
    ensures var (h, m, _) := Partition(s, sep);
            h + m == match FindFirst(s, sep) { case None => s case Some(i) => s[..i + |sep|] }
  {
    match FindFirst(s, sep) {
      case None =>
      case Some(i) =>
        assert s[..i + |sep|] == s[..i] + s[i..i + |sep|];
    }
  }

  // ---------------------------------------------------------------------
  // replace
  // ---------------------------------------------------------------------

  /** `s.replace(pat, rep)`: every non-overlapping occurrence of `pat`, found
      from left to right, replaced by `rep`. */
  function Replace(s: string, pat: string, rep: string): string
    requires |pat| > 0
    decreases |s|
  {
    if |s| < |pat| then s
    else if s[..|pat|] == pat then rep + Replace(s[|pat|..], pat, rep)
    else [s[0]] + Replace(s[1..], pat, rep)
  }

  /** Text without the pattern is left untouched. */
  lemma {:induction false} ReplaceAbsent(s: string, pat: string, rep: string)
    requires |pat| > 0
    requires !Occurs(s, pat)
    ensures Replace(s, pat, rep) == s
    decreases |s|
  {
    if |s| >= |pat| {
      assert !OccursAt(s, pat, 0);
      ShiftOccurrences(s, pat);
      assert !Occurs(s[1..], pat);
      ReplaceAbsent(s[1..], pat, rep);
      assert [s[0]] + s[1..] == s;
    }
  }

  /** Everything before the first occurrence is copied, the occurrence is
      replaced, and replacing continues after it. */
  lemma ReplaceAtFirst(s: string, pat: string, rep: string, i: nat)
    requires |pat| > 0
    requires FindFirst(s, pat) == Some(i)
    ensures Replace(s, pat, rep) == s[..i] + rep + Replace(s[i + |pat|..], pat, rep)
  {
    ReplaceAtEarliest(s, pat, rep, i);
  }

  lemma ReplaceAtEarliest(s: string, pat: string, rep: string, i: nat)
    requires |pat| > 0
    requires OccursAt(s, pat, i)
    requires forall k :: 0 <= k < i ==> !OccursAt(s, pat, k)
    ensures Replace(s, pat, rep) == s[..i] + rep + Replace(s[i + |pat|..], pat, rep)
  {
    ReplaceUpTo(s, pat, rep, i);
    ReplaceAtOccurrence(s, pat, rep, i);
    var x, y := s[..i], Replace(s[i + |pat|..], pat, rep);
    assert x + (rep + y) == x + rep + y;
  }

  /** Replacing from an occurrence replaces that occurrence first. */
  lemma ReplaceAtOccurrence(s: string, pat: string, rep: string, i: nat)
    requires |pat| > 0
    requires OccursAt(s, pat, i)
    ensures Replace(s[i..], pat, rep) == rep + Replace(s[i + |pat|..], pat, rep)
  {
    var b := s[i..];
    assert b[..|pat|] == s[i..i + |pat|];
    ReplaceAtStart(b, pat, rep);
    assert b[|pat|..] == s[i + |pat|..];
  }

  /** An occurrence at the very start is replaced. */
  lemma ReplaceAtStart(s: string, pat: string, rep: string)
    requires |pat| > 0
    requires OccursAt(s, pat, 0)
    ensures Replace(s, pat, rep) == rep + Replace(s[|pat|..], pat, rep)
  {
    assert s[..|pat|] == pat;
  }

  /** The text before index `i`, where no occurrence starts, is copied. */
  lemma ReplaceUpTo(s: string, pat: string, rep: string, i: nat)
    requires |pat| > 0
    requires i <= |s|
    requires forall k :: 0 <= k < i ==> !OccursAt(s, pat, k)
    ensures Replace(s, pat, rep) == s[..i] + Replace(s[i..], pat, rep)
  {
    var a := s[..i];
    var b := s[i..];
    assert a + b == s;
    ReplaceSkipPrefix(a, b, pat, rep);
  }

  /** A prefix in which no occurrence starts is copied unchanged. */
  lemma {:induction false} ReplaceSkipPrefix(a: string, b: string, pat: string, rep: string)
    requires |pat| > 0
    requires forall k :: 0 <= k < |a| ==> !OccursAt(a + b, pat, k)
    ensures Replace(a + b, pat, rep) == a + Replace(b, pat, rep)
    decreases |a|
  {
    if |a| == 0 {
      assert a + b == b;
    } else {
      var s := a + b;
      if |s| < |pat| {
        assert Replace(b, pat, rep) == b;
      } else {
        assert !OccursAt(s, pat, 0);
        assert s[1..] == a[1..] + b;
        ShiftOccurrences(s, pat);
        forall k | 0 <= k < |a[1..]|
          ensures !OccursAt(a[1..] + b, pat, k)
        {
          assert !OccursAt(s, pat, k + 1);
        }
        ReplaceSkipPrefix(a[1..], b, pat, rep);
        assert a == [a[0]] + a[1..];
      }
    }
  }


  /** Replace agrees with the reference "partition at the first occurrence,
      substitute, continue after it". */
  lemma ReplaceByPartition(s: string, pat: string, rep: string)
    requires |pat| > 0
    ensures var (h, m, t) := Partition(s, pat);
            Replace(s, pat, rep) == if m == "" then s else h + rep + Replace(t, pat, rep)
  {
    match FindFirst(s, pat)
    case None => ReplaceAbsent(s, pat, rep);
    case Some(i) => ReplaceAtFirst(s, pat, rep, i);
  }

  /** Replacing a pattern by itself changes nothing. */
  lemma {:induction false} ReplaceSelf(s: string, pat: string)
    requires |pat| > 0
    ensures Replace(s, pat, pat) == s
    decreases |s|
  {
    if |s| >= |pat| {
      if s[..|pat|] == pat {
        ReplaceSelf(s[|pat|..], pat);
        assert s[..|pat|] + s[|pat|..] == s;
      } else {
        ReplaceSelf(s[1..], pat);
        assert [s[0]] + s[1..] == s;
      }
    }
  }

  /** A one-character pattern cannot straddle a boundary, so its replacement
      distributes over concatenation. */
  lemma {:induction false} ReplaceCharConcat(a: string, b: string, c: char, rep: string)
    ensures Replace(a + b, [c], rep) == Replace(a, [c], rep) + Replace(b, [c], rep)
    decreases |a|
  {
    if |a| == 0 {
      assert a + b == b;
    } else {
      assert (a + b)[..1] == a[..1] == [a[0]];
      assert (a + b)[1..] == a[1..] + b;
      ReplaceCharConcat(a[1..], b, c, rep);
    }
  }

  // ---------------------------------------------------------------------
  // str(n)
  // ---------------------------------------------------------------------

  function DigitChar(d: nat): (c: char)
    requires d < 10
    ensures Ascii.IsDigit(c) && c as int - '0' as int == d
  {
    ('0' as int + d) as char
  }

  /** `str(n)` for a non-negative integer: decimal digits, no leading zero. */
  function NatToString(n: nat): (r: string)
    ensures |r| >= 1
    ensures forall i :: 0 <= i < |r| ==> Ascii.IsDigit(r[i])
    ensures r[0] == '0' ==> n == 0 && r == "0"
    decreases n
  {
    if n < 10 then [DigitChar(n)]
    else NatToString(n / 10) + [DigitChar(n % 10)]
  }

  /** `int(s)` for a string of decimal digits. */
  function ParseNat(s: string): nat
    requires forall i :: 0 <= i < |s| ==> Ascii.IsDigit(s[i])
    decreases |s|
  {
    if |s| == 0 then 0
    else
      assert Ascii.IsDigit(s[|s| - 1]);
      ParseNat(s[..|s| - 1]) * 10 + (s[|s| - 1] as int - '0' as int)
  }

  /** The decimal rendering is read back as the same number. */
  lemma {:induction false} ParseNatToString(n: nat)
    ensures ParseNat(NatToString(n)) == n
    decreases n
  {
    var r := NatToString(n);
    if n < 10 {
      assert r[..0] == [];
    } else {
      ParseNatToString(n / 10);
      assert r[..|r| - 1] == NatToString(n / 10);
    }
  }

  /** Different numbers have different renderings. */
  lemma NatToStringInjective(m: nat, n: nat)
    requires NatToString(m) == NatToString(n)
    ensures m == n
  {
    ParseNatToString(m);
    ParseNatToString(n);
  }
}
