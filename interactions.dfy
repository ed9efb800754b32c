/** `generate_lower_order_interactions`: for each position of an interaction
    term, the term with that one variable left out, followed by the lower-order
    terms of that reduced term. */
module Interactions {
  import opened Strings

  /** The term with the variable at position `i` left out:
      `vars[:i] + vars[(i+1):]`. */
  function Omit(vs: seq<string>, i: nat): (r: seq<string>)
    requires i < |vs|
    ensures |r| == |vs| - 1
  {
    vs[..i] + vs[i + 1..]
  }

  /** What the loop has emitted, as lists of variables, after handling the
      positions `0 .. k-1`: for each position its reduced term when that is
      non-empty, then, when the reduced term still has more than one variable,
      the reduced term's own lower-order terms. */
  function Emitted(vs: seq<string>, k: nat): seq<seq<string>>
    requires k <= |vs|
    decreases |vs|, k, 1
  {
    if k == 0 then [] else Emitted(vs, k - 1) + Block(vs, k - 1)
  }

  /** What position `k` adds. */
  function Block(vs: seq<string>, k: nat): seq<seq<string>>
    requires k < |vs|
    decreases |vs|, k, 0
  {
    var lo := Omit(vs, k);
    (if |lo| > 0 then [lo] else [])
    + (if |lo| > 1 then Emitted(lo, |lo|) else [])
  }

  /** Every lower-order term `generate_lower_order_interactions` emits, in order, as lists of variables. */
  function LowerOrderTerms(vs: seq<string>): seq<seq<string>>
  {
    Emitted(vs, |vs|)
  }

  /** `':'.join(t)` for each term `t`. */
  function JoinAll(ts: seq<seq<string>>): (r: seq<string>)
    ensures |r| == |ts|
    ensures forall i :: 0 <= i < |ts| ==> r[i] == Join(ts[i], ":")
  {
    seq(|ts|, i requires 0 <= i < |ts| => Join(ts[i], ":"))
  }

  /** The list `generate_lower_order_interactions(vars)` returns. */
  function LowerOrderInteractions(vs: seq<string>): seq<string>
  {
    JoinAll(LowerOrderTerms(vs))
  }

  /** The number of terms emitted for a term of `n` variables:
      f(n) = 0 for n < 2 and f(n) = n * (1 + f(n - 1)) otherwise. */
  function InteractionCount(n: nat): nat
  {
    if n < 2 then 0 else n * (1 + InteractionCount(n - 1))
  }

  lemma JoinAllConcat(a: seq<seq<string>>, b: seq<seq<string>>)
    ensures JoinAll(a + b) == JoinAll(a) + JoinAll(b)
  {
    var l := JoinAll(a + b);
    var r := JoinAll(a) + JoinAll(b);
    assert |l| == |r|;
    forall i | 0 <= i < |l|
      ensures l[i] == r[i]
    {
      if i < |a| {
        assert (a + b)[i] == a[i];
      } else {
        assert (a + b)[i] == b[i - |a|];
      }
    }
  }

  /** `JoinAll` of a list built from a prefix, one optional term and an
      optional tail. */
  lemma JoinAllStep(e: seq<seq<string>>, lo: seq<string>, here: seq<seq<string>>, below: seq<seq<string>>)
    requires here == (if |lo| > 0 then [lo] else [])
    ensures JoinAll(e + here + below)
            == JoinAll(e) + (if |lo| > 0 then [Join(lo, ":")] else []) + JoinAll(below)
  {
    JoinAllConcat(e + here, below);
    JoinAllConcat(e, here);
    if |lo| > 0 {
      assert JoinAll(here) == [Join(lo, ":")];
    } else {
      assert JoinAll(here) == [];
    }
  }

  /** One step of the loop: position `k` adds its reduced term (when
      non-empty) and that term's own lower-order terms (when it has more than
      one variable). */
  lemma EmittedStep(vs: seq<string>, k: nat)
    requires k < |vs|
    ensures var lo := Omit(vs, k);
            JoinAll(Emitted(vs, k + 1))
            == JoinAll(Emitted(vs, k))
               + (if |lo| > 0 then [Join(lo, ":")] else [])
               + (if |lo| > 1 then LowerOrderInteractions(lo) else [])
  {
    var lo := Omit(vs, k);
    var here := if |lo| > 0 then [lo] else [];
    var below := if |lo| > 1 then LowerOrderTerms(lo) else [];
    assert Emitted(vs, k + 1) == Emitted(vs, k) + here + below;
    JoinAllStep(Emitted(vs, k), lo, here, below);
  }

  /** The Python loop: append the reduced term, then extend the list with
      the reduced term's own lower-order terms. */
  method GenerateLowerOrderInteractions(vs: seq<string>) returns (r: seq<string>)
    ensures r == LowerOrderInteractions(vs)
    ensures |r| == InteractionCount(|vs|)
    decreases |vs|
  {
    r := [];
    for i := 0 to |vs|
      invariant r == JoinAll(Emitted(vs, i))
    {
      var lowerOrder := vs[..i] + vs[i + 1..];
      EmittedStep(vs, i);
      if |lowerOrder| > 0 {
        r := r + [Join(lowerOrder, ":")];
      }
      if |lowerOrder| > 1 {
        var sub := GenerateLowerOrderInteractions(lowerOrder);
        r := r + sub;
      }
    }
    LowerOrderCount(vs);
  }

  // ---------------------------------------------------------------------
  // count and layout
  // ---------------------------------------------------------------------

  /** After `k` positions, `k` blocks of `1 + f(n - 1)` terms each. */
  lemma {:induction false} EmittedLength(vs: seq<string>, k: nat)
    requires 2 <= |vs| && k <= |vs|
    ensures |Emitted(vs, k)| == k * (1 + InteractionCount(|vs| - 1))
    decreases |vs|, k
  {
    if k > 0 {
      EmittedLength(vs, k - 1);
      var lo := Omit(vs, k - 1);
      if |lo| > 1 {
        LowerOrderCount(lo);
      }
    }
  }

  /** `generate_lower_order_interactions` emits f(n) terms for a term of n variables. */
  lemma {:induction false} LowerOrderCount(vs: seq<string>)
    ensures |LowerOrderTerms(vs)| == InteractionCount(|vs|)
    decreases |vs|, |vs| + 1
  {
    if |vs| >= 2 {
      EmittedLength(vs, |vs|);
    } else if |vs| == 1 {
      assert |Omit(vs, 0)| == 0;
      assert LowerOrderTerms(vs) == Emitted(vs, 1) == Emitted(vs, 0);
    }
  }

  /** A term of fewer than two variables has no lower-order terms. */
  lemma LowerOrderTermsShort(vs: seq<string>)
    requires |vs| <= 1
    ensures LowerOrderTerms(vs) == []
  {
    LowerOrderCount(vs);
  }

  lemma {:induction false} EmittedPrefix(vs: seq<string>, j: nat, k: nat)
    requires j <= k <= |vs|
    ensures |Emitted(vs, j)| <= |Emitted(vs, k)|
    ensures Emitted(vs, k)[..|Emitted(vs, j)|] == Emitted(vs, j)
    decreases k
  {
    if j < k {
      EmittedPrefix(vs, j, k - 1);
      PrefixOfConcat(Emitted(vs, k - 1), Block(vs, k - 1), Emitted(vs, j));
    }
  }

  lemma PrefixOfConcat(a: seq<seq<string>>, b: seq<seq<string>>, p: seq<seq<string>>)
    requires |p| <= |a| && a[..|p|] == p
    ensures (a + b)[..|p|] == p
  {
    assert (a + b)[..|p|] == a[..|p|];
  }

  /** Block `k` of a term of at least two variables: the reduced term,
      then its own lower-order terms. */
  lemma EmittedBlock(vs: seq<string>, k: nat)
    requires 2 <= |vs| && k < |vs|
    ensures Emitted(vs, k + 1) == Emitted(vs, k) + [Omit(vs, k)] + LowerOrderTerms(Omit(vs, k))
  {
    var lo := Omit(vs, k);
    if |lo| <= 1 {
      LowerOrderTermsShort(lo);
    }
  }

  /** Reading one block back out of a list that starts with it. */
  lemma BlockAt(ts: seq<seq<string>>, before: seq<seq<string>>, lo: seq<string>, rest: seq<seq<string>>)
    requires |before + [lo] + rest| <= |ts|
    requires ts[..|before + [lo] + rest|] == before + [lo] + rest
    ensures ts[|before|] == lo
    ensures ts[|before| + 1..|before| + 1 + |rest|] == rest
  {
    var upto := before + [lo] + rest;
    assert ts[|before|] == ts[..|upto|][|before|] == upto[|before|];
    assert ts[|before| + 1..|upto|] == ts[..|upto|][|before| + 1..] == upto[|before| + 1..];
  }

  /** The terms for position `i` sit in block `i`: first the reduced term,
      then, immediately after it, the reduced term's own lower-order terms. */
  lemma LowerOrderLayout(vs: seq<string>, i: nat)
    requires 2 <= |vs| && i < |vs|
    ensures var w := 1 + InteractionCount(|vs| - 1);
            (i + 1) * w == i * w + w <= |vs| * w
    ensures var w := 1 + InteractionCount(|vs| - 1);
            var ts := LowerOrderTerms(vs);
            |ts| == |vs| * w
            && ts[i * w] == Omit(vs, i)
            && ts[i * w + 1..(i + 1) * w] == LowerOrderTerms(Omit(vs, i))
  {
    var w := 1 + InteractionCount(|vs| - 1);
    var lo := Omit(vs, i);
    var ts := LowerOrderTerms(vs);
    EmittedLength(vs, i);
    EmittedLength(vs, i + 1);
    EmittedLength(vs, |vs|);
    EmittedPrefix(vs, i + 1, |vs|);
    EmittedBlock(vs, i);
    BlockAt(ts, Emitted(vs, i), lo, LowerOrderTerms(lo));
    assert (i + 1) * w == i * w + w;
    assert |vs| * w == (i + 1) * w + (|vs| - i - 1) * w;
  }

  // ---------------------------------------------------------------------
  // subsequences
  // ---------------------------------------------------------------------

  /** `t` is `s` with some variables left out, order kept. */
  predicate IsSubsequence(t: seq<string>, s: seq<string>)
    decreases |s|
  {
    if |t| == 0 then true
    else if |s| == 0 then false
    else (t[0] == s[0] && IsSubsequence(t[1..], s[1..])) || IsSubsequence(t, s[1..])
  }

  /** A lower-order term of `vs`: a non-empty proper subsequence. */
  predicate IsLowerOrderTerm(t: seq<string>, vs: seq<string>)
  {
    IsSubsequence(t, vs) && 0 < |t| < |vs|
  }

  lemma {:induction false} SubsequenceLength(t: seq<string>, s: seq<string>)
    requires IsSubsequence(t, s)
    ensures |t| <= |s|
    ensures |t| == |s| ==> t == s
    decreases |s|
  {
    if |t| > 0 {
      if t[0] == s[0] && IsSubsequence(t[1..], s[1..]) {
        SubsequenceLength(t[1..], s[1..]);
        if |t| == |s| {
          assert t == [t[0]] + t[1..] && s == [s[0]] + s[1..];
        }
      } else {
        SubsequenceLength(t, s[1..]);
      }
    }
  }

  lemma {:induction false} SubsequenceReflexive(s: seq<string>)
    ensures IsSubsequence(s, s)
    decreases |s|
  {
    if |s| > 0 {
      SubsequenceReflexive(s[1..]);
    }
  }

  lemma {:induction false} SubsequenceTransitive(a: seq<string>, b: seq<string>, c: seq<string>)
    requires IsSubsequence(a, b) && IsSubsequence(b, c)
    ensures IsSubsequence(a, c)
    decreases |c|
  {
    if |a| > 0 {
      SubsequenceLength(a, b);
      if IsSubsequence(b, c[1..]) {
        SubsequenceTransitive(a, b, c[1..]);
      } else if a[0] == b[0] && IsSubsequence(a[1..], b[1..]) {
        SubsequenceTransitive(a[1..], b[1..], c[1..]);
      } else {
        SubsequenceTransitive(a, b[1..], c[1..]);
      }
    }
  }

  /** Leaving out one variable gives a subsequence. */
  lemma {:induction false} OmitIsSubsequence(vs: seq<string>, i: nat)
    requires i < |vs|
    ensures IsSubsequence(Omit(vs, i), vs)
    decreases i
  {
    if i == 0 {
      assert Omit(vs, 0) == vs[1..];
      SubsequenceReflexive(vs[1..]);
    } else {
      assert Omit(vs, i)[0] == vs[0];
      assert Omit(vs, i)[1..] == Omit(vs[1..], i - 1);
      OmitIsSubsequence(vs[1..], i - 1);
    }
  }

  /** A proper subsequence misses at least one position, so it is a
      subsequence of the term with that position left out. */
  lemma {:induction false} ProperSubsequenceOmits(t: seq<string>, s: seq<string>) returns (i: nat)
    requires IsSubsequence(t, s) && |t| < |s|
    ensures i < |s| && IsSubsequence(t, Omit(s, i))
    decreases |s|
  {
    if |t| == 0 {
      i := 0;
    } else if t[0] == s[0] && IsSubsequence(t[1..], s[1..]) {
      var j := ProperSubsequenceOmits(t[1..], s[1..]);
      i := j + 1;
      assert Omit(s, i) == [s[0]] + Omit(s[1..], j);
    } else {
      i := 0;
      assert Omit(s, 0) == s[1..];
    }
  }

  // ---------------------------------------------------------------------
  // what is emitted
  // ---------------------------------------------------------------------

  /** Every emitted term is a non-empty proper subsequence. */
  lemma {:induction false} EmittedAreLowerOrder(vs: seq<string>, k: nat, t: seq<string>)
    requires k <= |vs| && t in Emitted(vs, k)
    ensures IsLowerOrderTerm(t, vs)
    decreases |vs|, k
  {
    var lo := Omit(vs, k - 1);
    OmitIsSubsequence(vs, k - 1);
    if t in Emitted(vs, k - 1) {
      EmittedAreLowerOrder(vs, k - 1, t);
    } else if t != lo {
      assert |lo| > 1 && t in Emitted(lo, |lo|);
      EmittedAreLowerOrder(lo, |lo|, t);
      SubsequenceTransitive(t, lo, vs);
    }
  }

  lemma {:induction false} EmittedGrows(vs: seq<string>, j: nat, k: nat, t: seq<string>)
    requires j <= k <= |vs| && t in Emitted(vs, j)
    ensures t in Emitted(vs, k)
  {
    EmittedPrefix(vs, j, k);
    var m := |Emitted(vs, j)|;
    var n :| 0 <= n < m && Emitted(vs, j)[n] == t;
    assert Emitted(vs, k)[..m][n] == t;
  }

  /** Every non-empty proper subsequence is emitted. */
  lemma {:induction false} LowerOrderTermsComplete(vs: seq<string>, t: seq<string>)
    requires IsLowerOrderTerm(t, vs)
    ensures t in LowerOrderTerms(vs)
    decreases |vs|
  {
    var i := ProperSubsequenceOmits(t, vs);
    var lo := Omit(vs, i);
    SubsequenceLength(t, lo);
    assert |lo| > 0;
    if t == lo {
      assert t in Emitted(vs, i + 1);
    } else {
      LowerOrderTermsComplete(lo, t);
      assert t in Emitted(vs, i + 1);
    }
    EmittedGrows(vs, i + 1, |vs|, t);
  }

  /** The emitted terms are exactly the non-empty proper subsequences. */
  lemma LowerOrderTermsIff(vs: seq<string>, t: seq<string>)
    ensures t in LowerOrderTerms(vs) <==> IsLowerOrderTerm(t, vs)
  {
    if t in LowerOrderTerms(vs) {
      EmittedAreLowerOrder(vs, |vs|, t);
    }
    if IsLowerOrderTerm(t, vs) {
      LowerOrderTermsComplete(vs, t);
    }
  }

  /** The emitted strings are exactly the `':'`-joins of the non-empty proper
      subsequences. */
  lemma LowerOrderInteractionsIff(vs: seq<string>, x: string)
    ensures x in LowerOrderInteractions(vs)
            <==> exists t :: IsLowerOrderTerm(t, vs) && Join(t, ":") == x
  {
    var ts := LowerOrderTerms(vs);
    if x in LowerOrderInteractions(vs) {
      var n :| 0 <= n < |ts| && Join(ts[n], ":") == x;
      LowerOrderTermsIff(vs, ts[n]);
    }
    if exists t :: IsLowerOrderTerm(t, vs) && Join(t, ":") == x {
      var t :| IsLowerOrderTerm(t, vs) && Join(t, ":") == x;
      LowerOrderTermsIff(vs, t);
      var n :| 0 <= n < |ts| && ts[n] == t;
      assert LowerOrderInteractions(vs)[n] == x;
    }
  }
  /** `LowerOrderInteractionsIff` for every name at once. */
  lemma LowerOrderInteractionsAll(vs: seq<string>)
    ensures forall x :: x in LowerOrderInteractions(vs)
                        <==> exists t :: IsLowerOrderTerm(t, vs) && Join(t, ":") == x
  {
    forall x
      ensures x in LowerOrderInteractions(vs)
              <==> exists t :: IsLowerOrderTerm(t, vs) && Join(t, ":") == x
    {
      LowerOrderInteractionsIff(vs, x);
    }
  }

}
