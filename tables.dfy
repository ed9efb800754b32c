/** The string post-processing `savereg` applies to the LaTeX that stargazer
    renders: the width decision, deleting `nan`, the `\cline` rewrite, the
    adjustbox wrap and the extraction of the bare tabular. */
module TablePostprocess {
  import opened Wrappers
  import opened Strings

  const BeginTabular: string := "\\begin{tabular}"
  const EndTabular: string := "\\end{tabular}"
  const BeginBox: string := "\\begin{adjustbox}{width=\\linewidth}"
  const EndBox: string := "\\end{adjustbox}"

  // ---------------------------------------------------------------------
  // the width decision
  // ---------------------------------------------------------------------

  /** The `adjustwidth` argument: `'auto'`, or a value used for its truth. */
  datatype AdjustWidth = Auto | Fixed(on: bool)

  /** Whether the table is wrapped, given the number of models. */
  function AdjustOn(policy: AdjustWidth, nModels: nat): (r: bool)
    ensures policy.Auto? ==> (r <==> nModels > 4)
    ensures policy.Fixed? ==> r == policy.on
  {
    match policy
      case Auto => nModels > 4
      case Fixed(on) => on
  }

  // ---------------------------------------------------------------------
  // the three rewrites
  // ---------------------------------------------------------------------

  /** `latex.replace('nan', '')`. */
  function RemoveNan(s: string): string
  {
    Replace(s, "nan", "")
  }

  /** `\cline{N-N+1}` for `N` columns of models. */
  function ClinePattern(n: nat): (r: string)
    ensures |r| > 0
  {
    "\\cline{" + NatToString(n) + "-" + NatToString(n + 1) + "}"
  }

  /** `\cline{2-N+1}`: the same rule, started at the first model column. */
  function ClineReplacement(n: nat): string
  {
    "\\cline{2-" + NatToString(n + 1) + "}"
  }

  /** Widen the last `\cline` rule so that it spans every model column. */
  function FixCline(s: string, n: nat): string
  {
    Replace(s, ClinePattern(n), ClineReplacement(n))
  }

  /** Put every tabular inside an adjustbox of the line width. */
  function WrapAdjustbox(s: string): string
  {
    var boxed := Replace(s, BeginTabular, BeginBox + BeginTabular);
    Replace(boxed, EndTabular, EndTabular + EndBox)
  }

  // ---------------------------------------------------------------------
  // extracting the tabular
  // ---------------------------------------------------------------------

  /** `t = s.partition(open)[1] + s.partition(open)[2]` followed by
      `t.partition(close)[0] + t.partition(close)[1]`. */
  function PartitionSpan(s: string, open: string, close: string): string
    requires |open| > 0 && |close| > 0
  {
    var (_, b, t) := Partition(s, open);
    var (h, e, _) := Partition(b + t, close);
    h + e
  }

  /** The span runs from the first `open` through the first `close` after
      it; it is empty without an `open`, and runs to the end of the text
      without a `close` after the `open`. */
  lemma PartitionSpanFirst(s: string, open: string, close: string)
    requires |open| > 0 && |close| > 0
    ensures FindFirst(s, open).None? ==> PartitionSpan(s, open, close) == ""
    ensures FindFirst(s, open).Some? ==>
              var u := s[FindFirst(s, open).value..];
              (FindFirst(u, close).None? ==> PartitionSpan(s, open, close) == u)
              && (FindFirst(u, close).Some? ==>
                    PartitionSpan(s, open, close) == u[..FindFirst(u, close).value + |close|])
  {
    PartitionFromFirst(s, open);
    var (_, b, t) := Partition(s, open);
    PartitionThroughFirst(b + t, close);
  }

  /** A prefix of `u`, which starts with `open`, through the first `close`
      in `u`: it starts with `open`, ends with `close` and holds no earlier
      `close`. */
  lemma ClosedSpanShape(u: string, open: string, close: string, j: nat)
    requires |open| >= 2 && |close| >= 2
    requires open[1] != close[1]
    requires forall k :: 1 <= k < |open| ==> open[k] != close[0]
    requires |u| >= |open| && u[..|open|] == open
    requires FindFirst(u, close) == Some(j)
    ensures var r := u[..j + |close|];
            |r| >= |open| && r[..|open|] == open
            && r[|r| - |close|..] == close
            && forall k :: 0 <= k < |r| - |close| ==> !OccursAt(r, close, k)
  {
    var n := j + |close|;
    var r := u[..n];
    assert u[j..n] == close;
    // `close` cannot start inside `open`.
    forall k | 0 <= k < |open| && k + |close| <= |u|
      ensures !OccursAt(u, close, k)
    {
      if k == 0 {
        assert u[..|close|][1] == u[..|open|][1];
      } else {
        assert u[k..k + |close|][0] == u[..|open|][k];
      }
    }
    assert j >= |open|;
    assert r[..|open|] == u[..|open|];
    assert r[j..] == u[j..n];
    forall k | 0 <= k < |r| - |close|
      ensures !OccursAt(r, close, k)
    {
      assert !OccursAt(u, close, k);
      assert r[k..k + |close|] == u[k..k + |close|];
    }
  }

  /** `r` is the text of `s` cut at an `open` that starts at `i`: the slice
      of `s` from `i` that starts with `open` and either ends with the first
      `close` after `i`, holding no earlier one, or, when there is none, runs
      to the end of `s`. */
  predicate SpanAt(s: string, i: nat, open: string, close: string, r: string)
    requires |close| > 0
  {
    i + |r| <= |s| && r == s[i..i + |r|]
    && |r| >= |open| && r[..|open|] == open
    && (FindFirst(s[i..], close).None? ==> r == s[i..])
    && (FindFirst(s[i..], close).Some? ==>
          |r| >= |close| && r[|r| - |close|..] == close
          && forall k :: 0 <= k < |r| - |close| ==> !OccursAt(r, close, k))
  }

  /** The span is empty without an `open`, and is otherwise the text cut at
      the first `open`. */
  lemma PartitionSpanShape(s: string, open: string, close: string)
    requires |open| >= 2 && |close| >= 2
    requires open[1] != close[1]
    requires forall k :: 1 <= k < |open| ==> open[k] != close[0]
    ensures FindFirst(s, open).None? ==> PartitionSpan(s, open, close) == ""
    ensures FindFirst(s, open).Some? ==>
              SpanAt(s, FindFirst(s, open).value, open, close, PartitionSpan(s, open, close))
  {
    PartitionSpanFirst(s, open, close);
    if FindFirst(s, open).Some? {
      SpanShapeIn(s, FindFirst(s, open).value, open, close, PartitionSpan(s, open, close));
    }
  }

  /** `PartitionSpanShape` for a span `r` cut from the text at an `open`
      that starts at `i`. */
  lemma SpanShapeIn(s: string, i: nat, open: string, close: string, r: string)
    requires |open| >= 2 && |close| >= 2
    requires open[1] != close[1]
    requires forall k :: 1 <= k < |open| ==> open[k] != close[0]
    requires OccursAt(s, open, i)
    requires FindFirst(s[i..], close).None? ==> r == s[i..]
    requires FindFirst(s[i..], close).Some? ==> r == s[i..][..FindFirst(s[i..], close).value + |close|]
    ensures SpanAt(s, i, open, close, r)
  {
    var u := s[i..];
    assert u[..|open|] == s[i..i + |open|];
    if FindFirst(u, close).Some? {
      var j := FindFirst(u, close).value;
      ClosedSpanShape(u, open, close, j);
      SliceOfSuffix(s, i, j + |close|);
    } else {
      assert s[i..i + |r|] == u;
    }
  }

  lemma SliceOfSuffix(s: string, i: nat, n: nat)
    requires i + n <= |s|
    ensures s[i..][..n] == s[i..i + n]
  {
  }

  /** The tabular markers meet the conditions of `PartitionSpanShape`. */
  lemma TabularMarkersDistinct()
    ensures |BeginTabular| >= 2 && |EndTabular| >= 2
    ensures BeginTabular[1] != EndTabular[1]
    ensures forall k :: 1 <= k < |BeginTabular| ==> BeginTabular[k] != EndTabular[0]
  {
  }

  /** The text of the tabular file: from the first `\begin{tabular}` through
      the first `\end{tabular}` after it, so that the adjustbox commands,
      which sit outside those markers, are not part of it. */
  function ExtractTabular(s: string): string
  {
    PartitionSpan(s, BeginTabular, EndTabular)
  }

  /** Empty without a tabular; otherwise the text that starts at the first
      `\begin{tabular}` and ends with the first `\end{tabular}` after it, or
      runs to the end of the text when there is none. */
  lemma ExtractTabularShape(s: string)
    ensures FindFirst(s, BeginTabular).None? ==> ExtractTabular(s) == ""
    ensures FindFirst(s, BeginTabular).Some? ==>
              SpanAt(s, FindFirst(s, BeginTabular).value, BeginTabular, EndTabular, ExtractTabular(s))
  {
    TabularMarkersDistinct();
    PartitionSpanShape(s, BeginTabular, EndTabular);
  }

  // ---------------------------------------------------------------------
  // the whole post-processing
  // ---------------------------------------------------------------------

  /** The full table written to `<name>.tex` and the bare tabular written to
      `<name>_tabular.tex`. */
  datatype TexOutput = TexOutput(table: string, tabular: string)

  /** What `savereg` does to the rendered LaTeX, for `numModels` model
      columns and `nModels` models. */
  function PostProcess(latex: string, numModels: nat, nModels: nat, policy: AdjustWidth): TexOutput
  {
    var cleaned := FixCline(RemoveNan(latex), numModels);
    var table := if AdjustOn(policy, nModels) then WrapAdjustbox(cleaned) else cleaned;
    TexOutput(table, ExtractTabular(table))
  }

  // ---------------------------------------------------------------------
  // what each step leaves alone
  // ---------------------------------------------------------------------

  /** Text without `nan` is not changed by its deletion. */
  lemma RemoveNanAbsent(s: string)
    requires !Occurs(s, "nan")
    ensures RemoveNan(s) == s
  {
    ReplaceAbsent(s, "nan", "");
  }

  /** The deletion is one left-to-right pass: a `nan` that only appears once
      an inner one is deleted survives. */
  lemma RemoveNanSinglePass()
    ensures RemoveNan("nnanan") == "nan"
  {
    assert "nnanan"[1..] == "nanan";
    assert "nanan"[3..] == "an";
  }

  /** The deletion does not respect word boundaries. */
  lemma RemoveNanInsideWords()
    ensures RemoveNan("Finance") == "Fice"
  {
    assert "Finance"[1..] == "inance";
    assert "inance"[1..] == "nance";
    assert "nance"[3..] == "ce";
  }

  /** Only the exact `\cline{N-N+1}` text is rewritten: text without it is
      left as it is. */
  lemma FixClineAbsent(s: string, n: nat)
    requires !Occurs(s, ClinePattern(n))
    ensures FixCline(s, n) == s
  {
    ReplaceAbsent(s, ClinePattern(n), ClineReplacement(n));
  }

  /** With two model columns the rule already starts at column 2, and the
      rewrite changes nothing. */
  lemma FixClineTwoColumns(s: string)
    ensures FixCline(s, 2) == s
  {
    assert NatToString(2) == "2";
    assert NatToString(3) == "3";
    assert ClinePattern(2) == ClineReplacement(2);
    ReplaceSelf(s, ClinePattern(2));
  }

  /** The first `\cline{N-N+1}` is rewritten, and rewriting continues after
      it. */
  lemma FixClineFirst(s: string, n: nat, i: nat)
    requires FindFirst(s, ClinePattern(n)) == Some(i)
    ensures FixCline(s, n)
            == s[..i] + ClineReplacement(n) + FixCline(s[i + |ClinePattern(n)|..], n)
  {
    ReplaceAtFirst(s, ClinePattern(n), ClineReplacement(n), i);
  }

  /** Text without tabular markers is not wrapped. */
  lemma WrapAdjustboxAbsent(s: string)
    requires !Occurs(s, BeginTabular) && !Occurs(s, EndTabular)
    ensures WrapAdjustbox(s) == s
  {
    ReplaceAbsent(s, BeginTabular, BeginBox + BeginTabular);
    ReplaceAbsent(s, EndTabular, EndTabular + EndBox);
  }

  /** LaTeX with nothing to delete, no rule to widen and no wrapping asked
      for is written as it is. */
  lemma PostProcessUntouched(latex: string, numModels: nat, nModels: nat, policy: AdjustWidth)
    requires !Occurs(latex, "nan") && !Occurs(latex, ClinePattern(numModels))
    requires !AdjustOn(policy, nModels)
    ensures PostProcess(latex, numModels, nModels, policy).table == latex
  {
    RemoveNanAbsent(latex);
    FixClineAbsent(latex, numModels);
  }

  /** The tabular file holds the first tabular of the full table, in the
      shape `ExtractTabularShape` describes. */
  lemma PostProcessTabular(latex: string, numModels: nat, nModels: nat, policy: AdjustWidth)
    ensures var out := PostProcess(latex, numModels, nModels, policy);
            (FindFirst(out.table, BeginTabular).None? ==> out.tabular == "")
            && (FindFirst(out.table, BeginTabular).Some? ==>
                  SpanAt(out.table, FindFirst(out.table, BeginTabular).value, BeginTabular, EndTabular, out.tabular))
  {
    var out := PostProcess(latex, numModels, nModels, policy);
    ExtractTabularShape(out.table);
  }

  // ---------------------------------------------------------------------
  // one tabular
  // ---------------------------------------------------------------------

  /** Where the backslashes of the markers are. */
  lemma MarkerBackslashes()
    ensures forall k :: 0 <= k < |BeginBox| && BeginBox[k] == '\\' ==> k == 0 || k == 24
    ensures BeginBox[1] == 'b' && BeginBox[7] == 'a' && BeginBox[25] == 'l'
    ensures |BeginBox| == 35 && |BeginTabular| == 15 && |EndTabular| == 13
    ensures BeginTabular[0] == '\\' && BeginTabular[1] == 'b' && BeginTabular[7] == 't'
    ensures EndTabular[0] == '\\' && EndTabular[1] == 'e'
    ensures OnlyLeadingBackslash(BeginTabular) && OnlyLeadingBackslash(EndTabular)
  {
  }

  /** A command marker whose only backslash is its first character. */
  predicate OnlyLeadingBackslash(pat: string)
  {
    |pat| >= 2 && pat[0] == '\\' && forall k :: 1 <= k < |pat| ==> pat[k] != '\\'
  }

  /** In `x + rest`, no occurrence of a marker `pat` starts inside `x` when
      every backslash of `x` is followed, inside `x`, by a character other
      than the one that follows the backslash in `pat`. */
  lemma NoMarkerStartsIn(x: string, rest: string, pat: string)
    requires |pat| >= 2 && pat[0] == '\\'
    requires forall k :: 0 <= k < |x| && x[k] == '\\' ==> k + 1 < |x| && x[k + 1] != pat[1]
    ensures forall k :: 0 <= k < |x| ==> !OccursAt(x + rest, pat, k)
  {
    forall k | 0 <= k < |x|
      ensures !OccursAt(x + rest, pat, k)
    {
      if k + |pat| <= |x + rest| {
        if x[k] == '\\' {
          assert (x + rest)[k..k + |pat|][1] == x[k + 1];
        } else {
          assert (x + rest)[k..k + |pat|][0] == x[k];
        }
      }
    }
  }

  /** A marker whose only backslash leads it cannot straddle the start of a
      text that begins with a backslash: in `x + y` it can only start inside
      `x` if it occurs in `x` alone. */
  lemma NoMarkerStraddles(x: string, y: string, pat: string)
    requires OnlyLeadingBackslash(pat)
    requires |y| > 0 && y[0] == '\\'
    requires !Occurs(x, pat)
    ensures forall k :: 0 <= k < |x| ==> !OccursAt(x + y, pat, k)
  {
    forall k | 0 <= k < |x|
      ensures !OccursAt(x + y, pat, k)
    {
      if k + |pat| <= |x| {
        assert (x + y)[k..k + |pat|] == x[k..k + |pat|];
        assert !OccursAt(x, pat, k);
      } else if k + |pat| <= |x + y| {
        assert (x + y)[k..k + |pat|][|x| - k] == y[0];
      }
    }
  }

  /** A marker that starts in neither a prefix `x` (by its backslashes) nor
      in `body` (by assumption) does not occur in `x + body`. */
  lemma NoMarkerAfterPrefix(x: string, body: string, pat: string)
    requires |pat| >= 2 && pat[0] == '\\'
    requires forall k :: 0 <= k < |x| && x[k] == '\\' ==> k + 1 < |x| && x[k + 1] != pat[1]
    requires !Occurs(body, pat)
    ensures !Occurs(x + body, pat)
  {
    NoMarkerStartsIn(x, body, pat);
    var s := x + body;
    forall k | |x| <= k <= |s|
      ensures !OccursAt(s, pat, k)
    {
      if k + |pat| <= |s| {
        assert s[k..k + |pat|] == body[k - |x|..k - |x| + |pat|];
        assert !OccursAt(body, pat, k - |x|);
      }
    }
  }

  /** Every backslash of the opening markers is followed by a `b` or an
      `l`, never by the `e` of `\end`. */
  lemma OpeningBackslashes()
    ensures forall k :: 0 <= k < |BeginTabular| && BeginTabular[k] == '\\'
                        ==> k + 1 < |BeginTabular| && BeginTabular[k + 1] != EndTabular[1]
    ensures var x := BeginBox + BeginTabular;
            forall k :: 0 <= k < |x| && x[k] == '\\' ==> k + 1 < |x| && x[k + 1] != EndTabular[1]
  {
    MarkerBackslashes();
    var x := BeginBox + BeginTabular;
    forall k | 0 <= k < |x| && x[k] == '\\'
      ensures k + 1 < |x| && x[k + 1] != EndTabular[1]
    {
      if k < |BeginBox| {
        assert x[k] == BeginBox[k];
        assert x[k + 1] == BeginBox[k + 1];
      } else {
        assert x[k] == BeginTabular[k - |BeginBox|];
        assert x[k + 1] == BeginTabular[1];
      }
    }
  }

  /** A marker whose only backslash leads it, in a text where it does not
      occur before the point where it does occur. */
  lemma FirstMarkerAfter(x: string, tail: string, pat: string)
    requires OnlyLeadingBackslash(pat)
    requires !Occurs(x, pat)
    requires |tail| >= |pat| && tail[..|pat|] == pat
    ensures FindFirst(x + tail, pat) == Some(|x|)
  {
    NoMarkerStraddles(x, tail, pat);
    assert (x + tail)[|x|..|x| + |pat|] == tail[..|pat|];
    FindFirstIs(x + tail, pat, |x|);
  }

  /** No `\begin{tabular}` starts inside the adjustbox opening. */
  lemma NoTabularInBoxOpening(rest: string)
    ensures forall k :: 0 <= k < |BeginBox| ==> !OccursAt(BeginBox + rest, BeginTabular, k)
  {
    MarkerBackslashes();
    var w := BeginBox + rest;
    forall k | 0 <= k < |BeginBox|
      ensures !OccursAt(w, BeginTabular, k)
    {
      if k + |BeginTabular| <= |w| {
        var slice := w[k..k + |BeginTabular|];
        if k == 0 {
          assert slice[7] == BeginBox[7];
        } else if k == 24 {
          assert slice[1] == BeginBox[25];
        } else {
          assert slice[0] == BeginBox[k];
        }
      }
    }
  }

  /** The span, once its two first occurrences are known. */
  lemma PartitionSpanAt(w: string, open: string, close: string, i: nat, j: nat)
    requires |open| > 0 && |close| > 0
    requires FindFirst(w, open) == Some(i)
    requires FindFirst(w[i..], close) == Some(j)
    ensures i + j + |close| <= |w|
    ensures PartitionSpan(w, open, close) == w[i..i + j + |close|]
  {
    PartitionSpanFirst(w, open, close);
    assert OccursAt(w[i..], close, j);
    assert w[i..][..j + |close|] == w[i..i + j + |close|];
  }

  /** A marker whose only backslash leads it occurs in `x + y`, where `y`
      starts with a backslash, only if it occurs in `x` or in `y`. */
  lemma NoMarkerInConcat(x: string, y: string, pat: string)
    requires OnlyLeadingBackslash(pat)
    requires |y| > 0 && y[0] == '\\'
    requires !Occurs(x, pat) && !Occurs(y, pat)
    ensures !Occurs(x + y, pat)
  {
    NoMarkerStraddles(x, y, pat);
    var s := x + y;
    forall k | |x| <= k <= |s|
      ensures !OccursAt(s, pat, k)
    {
      if k + |pat| <= |s| {
        assert s[k..k + |pat|] == y[k - |x|..k - |x| + |pat|];
        assert !OccursAt(y, pat, k - |x|);
      }
    }
  }

  /** The backslash of `\end{tabular}` is followed by an `e`, never by the
      `b` of `\begin`. */
  lemma ClosingBackslashes()
    ensures forall k :: 0 <= k < |EndTabular| && EndTabular[k] == '\\'
                        ==> k + 1 < |EndTabular| && EndTabular[k + 1] != BeginTabular[1]
  {
    MarkerBackslashes();
  }

  /** The adjustbox opening holds no `\begin{tabular}` of its own. */
  lemma NoTabularInBox()
    ensures !Occurs(BeginBox, BeginTabular)
  {
    NoTabularInBoxOpening("");
    assert BeginBox + "" == BeginBox;
  }

  /** A marker whose only backslash leads it, occurring once between two
      texts that do not hold it, is replaced there and nowhere else. */
  lemma ReplaceOnlyAt(x: string, pat: string, y: string, rep: string)
    requires OnlyLeadingBackslash(pat)
    requires !Occurs(x, pat) && !Occurs(y, pat)
    ensures Replace(x + pat + y, pat, rep) == x + rep + y
  {
    var tail := pat + y;
    var s := x + tail;
    assert s == x + pat + y;
    assert tail[..|pat|] == pat;
    FirstMarkerAfter(x, tail, pat);
    ReplaceAtFirst(s, pat, rep, |x|);
    assert s[..|x|] == x;
    assert s[|x| + |pat|..] == y;
    ReplaceAbsent(y, pat, rep);
  }

  lemma OpenPieces(pre: string, box: string, open: string, body: string, close: string, post: string)
    ensures pre + open + body + close + post == pre + open + (body + (close + post))
    ensures pre + (box + open) + (body + (close + post)) == pre + box + open + body + close + post
  {
  }

  lemma ClosePieces(pre: string, box: string, open: string, body: string, close: string,
                    boxEnd: string, post: string)
    ensures pre + box + open + body + close + post == pre + (box + open + body) + close + post
    ensures pre + (box + open + body) + (close + boxEnd) + post
            == pre + box + open + body + close + boxEnd + post
  {
  }

  /** The first replacement of the wrap, for any markers: `box` goes in front
      of the only `open`. */
  lemma OpenBoxAround(pre: string, body: string, post: string, box: string, open: string, close: string)
    requires OnlyLeadingBackslash(open)
    requires |close| > 0 && close[0] == '\\'
    requires forall k :: 0 <= k < |close| && close[k] == '\\' ==> k + 1 < |close| && close[k + 1] != open[1]
    requires !Occurs(pre, open) && !Occurs(body, open) && !Occurs(post, open)
    ensures Replace(pre + open + body + close + post, open, box + open)
            == pre + box + open + body + close + post
  {
    var y := body + (close + post);
    NoMarkerAfterPrefix(close, post, open);
    NoMarkerInConcat(body, close + post, open);
    ReplaceOnlyAt(pre, open, y, box + open);
    OpenPieces(pre, box, open, body, close, post);
  }

  /** The second replacement of the wrap, for any markers: `boxEnd` goes
      after the only `close`. */
  lemma CloseBoxAround(pre: string, body: string, post: string,
                       box: string, open: string, close: string, boxEnd: string)
    requires OnlyLeadingBackslash(close)
    requires |box| > 0 && box[0] == '\\'
    requires !Occurs(pre, close) && !Occurs(box + open + body, close) && !Occurs(post, close)
    ensures Replace(pre + box + open + body + close + post, close, close + boxEnd)
            == pre + box + open + body + close + boxEnd + post
  {
    var inner := box + open + body;
    NoMarkerInConcat(pre, inner, close);
    ReplaceOnlyAt(pre + inner, close, post, close + boxEnd);
    ClosePieces(pre, box, open, body, close, boxEnd, post);
  }

  /** The span of `pre + rest`, once its first `open` is known to start
      `rest` and its first `close` in `rest` is known. */
  lemma SpanAfterPrefix(pre: string, rest: string, open: string, close: string, j: nat)
    requires |open| > 0 && |close| > 0
    requires FindFirst(pre + rest, open) == Some(|pre|)
    requires FindFirst(rest, close) == Some(j)
    ensures j + |close| <= |rest|
    ensures PartitionSpan(pre + rest, open, close) == rest[..j + |close|]
  {
    assert (pre + rest)[|pre|..] == rest;
    PartitionSpanAt(pre + rest, open, close, |pre|, j);
    assert (pre + rest)[|pre|..|pre| + j + |close|] == rest[..j + |close|];
  }

  /** The pieces of `pre + open + body + close + post`, regrouped. */
  lemma SpanPieces(pre: string, open: string, body: string, close: string, post: string)
    ensures var rest := open + body + (close + post);
            pre + rest == pre + open + body + close + post
            && rest[..|open|] == open
            && rest[..|open| + |body| + |close|] == open + body + close
            && (close + post)[..|close|] == close
  {
    var rest := open + body + (close + post);
    assert rest[..|open|] == open;
    assert rest[..|open| + |body| + |close|] == open + body + close;
    assert (close + post)[..|close|] == close;
  }

  /** The span, for any markers, of a text holding `open + body + close`
      with no `open` before it and no `close` inside it. */
  lemma SpanAround(pre: string, body: string, post: string, open: string, close: string)
    requires OnlyLeadingBackslash(open) && OnlyLeadingBackslash(close)
    requires !Occurs(pre, open) && !Occurs(open + body, close)
    ensures PartitionSpan(pre + open + body + close + post, open, close) == open + body + close
  {
    SpanPieces(pre, open, body, close, post);
    SpanInPieces(pre, body, close + post, open, close);
  }

  lemma SpanInPieces(pre: string, body: string, tail: string, open: string, close: string)
    requires OnlyLeadingBackslash(open) && OnlyLeadingBackslash(close)
    requires !Occurs(pre, open) && !Occurs(open + body, close)
    requires |tail| >= |close| && tail[..|close|] == close
    requires (open + body + tail)[..|open|] == open
    ensures PartitionSpan(pre + (open + body + tail), open, close)
            == (open + body + tail)[..|open| + |body| + |close|]
  {
    var rest := open + body + tail;
    FirstMarkerAfter(pre, rest, open);
    FirstMarkerAfter(open + body, tail, close);
    SpanAfterPrefix(pre, rest, open, close, |open| + |body|);
  }

  lemma RegroupWrapped(a: string, b: string, c: string, d: string, e: string, f: string, g: string)
    ensures a + b + c + d + e + (f + g) == a + b + c + d + e + f + g
  {
  }

  // ---------------------------------------------------------------------
  // one tabular inside a table
  // ---------------------------------------------------------------------

  /** The first replacement of the wrap: the adjustbox opening goes in
      front of the tabular and nowhere else, when the text around the tabular
      and its body hold no `\begin{tabular}`. */
  lemma OpenBoxIn(pre: string, body: string, post: string)
    requires !Occurs(pre, BeginTabular) && !Occurs(body, BeginTabular) && !Occurs(post, BeginTabular)
    ensures Replace(pre + BeginTabular + body + EndTabular + post, BeginTabular, BeginBox + BeginTabular)
            == pre + BeginBox + BeginTabular + body + EndTabular + post
  {
    MarkerBackslashes();
    ClosingBackslashes();
    OpenBoxAround(pre, body, post, BeginBox, BeginTabular, EndTabular);
  }

  /** The second replacement of the wrap: the adjustbox closing goes after
      the tabular and nowhere else, when the text around the tabular and its
      body hold no `\end{tabular}`. */
  lemma CloseBoxIn(pre: string, body: string, post: string)
    requires !Occurs(pre, EndTabular) && !Occurs(body, EndTabular) && !Occurs(post, EndTabular)
    ensures Replace(pre + BeginBox + BeginTabular + body + EndTabular + post, EndTabular, EndTabular + EndBox)
            == pre + BeginBox + BeginTabular + body + EndTabular + EndBox + post
  {
    MarkerBackslashes();
    OpeningBackslashes();
    NoMarkerAfterPrefix(BeginBox + BeginTabular, body, EndTabular);
    CloseBoxAround(pre, body, post, BeginBox, BeginTabular, EndTabular, EndBox);
  }

  /** Wrapping a table that holds one tabular puts the adjustbox right
      around the tabular and leaves the text before and after it alone. */
  lemma WrapIn(pre: string, body: string, post: string)
    requires !Occurs(pre, BeginTabular) && !Occurs(pre, EndTabular)
    requires !Occurs(body, BeginTabular) && !Occurs(body, EndTabular)
    requires !Occurs(post, BeginTabular) && !Occurs(post, EndTabular)
    ensures WrapAdjustbox(pre + BeginTabular + body + EndTabular + post)
            == pre + BeginBox + BeginTabular + body + EndTabular + EndBox + post
  {
    OpenBoxIn(pre, body, post);
    CloseBoxIn(pre, body, post);
  }

  /** The tabular file of a table whose first tabular holds no
      `\end{tabular}` of its own is that tabular, whatever surrounds it. */
  lemma ExtractIn(pre: string, body: string, post: string)
    requires !Occurs(pre, BeginTabular) && !Occurs(body, EndTabular)
    ensures ExtractTabular(pre + BeginTabular + body + EndTabular + post)
            == BeginTabular + body + EndTabular
  {
    MarkerBackslashes();
    OpeningBackslashes();
    NoMarkerAfterPrefix(BeginTabular, body, EndTabular);
    SpanAround(pre, body, post, BeginTabular, EndTabular);
  }

  /** The tabular file of a wrapped table is the tabular without its
      adjustbox. */
  lemma ExtractWrappedIn(pre: string, body: string, post: string)
    requires !Occurs(pre, BeginTabular) && !Occurs(body, EndTabular)
    ensures ExtractTabular(pre + BeginBox + BeginTabular + body + EndTabular + EndBox + post)
            == BeginTabular + body + EndTabular
  {
    MarkerBackslashes();
    NoTabularInBox();
    NoMarkerInConcat(pre, BeginBox, BeginTabular);
    ExtractIn(pre + BeginBox, body, EndBox + post);
    RegroupWrapped(pre, BeginBox, BeginTabular, body, EndTabular, EndBox, post);
  }

  /** End to end, for a table whose cleaned LaTeX (after deleting `nan` and
      widening the `\cline` rule) holds one tabular: the full table is that
      text, wrapped in an adjustbox around the tabular when wrapping is on,
      and the tabular file is the tabular alone. */
  lemma PostProcessIn(latex: string, numModels: nat, nModels: nat, policy: AdjustWidth,
                      pre: string, body: string, post: string)
    requires FixCline(RemoveNan(latex), numModels) == pre + BeginTabular + body + EndTabular + post
    requires !Occurs(pre, BeginTabular) && !Occurs(pre, EndTabular)
    requires !Occurs(body, BeginTabular) && !Occurs(body, EndTabular)
    requires !Occurs(post, BeginTabular) && !Occurs(post, EndTabular)
    ensures var out := PostProcess(latex, numModels, nModels, policy);
            (AdjustOn(policy, nModels) ==>
               out.table == pre + BeginBox + BeginTabular + body + EndTabular + EndBox + post)
            && (!AdjustOn(policy, nModels) ==>
                  out.table == pre + BeginTabular + body + EndTabular + post)
            && out.tabular == BeginTabular + body + EndTabular
  {
    if AdjustOn(policy, nModels) {
      WrapIn(pre, body, post);
      ExtractWrappedIn(pre, body, post);
    } else {
      ExtractIn(pre, body, post);
    }
  }
}
