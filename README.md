# Regression-table helpers, modelled in Dafny

This project models the string and list logic in `helpers.py`. That file is a
small module of helpers for publishing regression tables made with stargazer.
The model covers:

- `Capitalize`: upper-cases the first letter of a string.
- `clean_filename`: lower-cases, writes spaces as `_` and `/` as `_over_`,
  deletes every character that is not a word character, and collapses runs
  of `_`.
- `generate_lower_order_interactions`: for an interaction term given as a
  list of variables, lists every lower-order term that one-left-out
  recursion reaches, as `:`-joined names.
- `generate_covariate_latexdict`: checks each interaction covariate. Every
  lower-order term must be among the covariates, and the variables must
  follow the order that the `latexdict` key order prescribes. If both hold,
  it maps every covariate to its display name, joined with ` $\times$ `. A
  failed `assert` becomes an error value.
- The pure string post-processing of `savereg`:
  - the `adjustwidth='auto'` decision;
  - deleting `nan`;
  - the `\cline{N-N+1}` → `\cline{2-N+1}` rewrite;
  - the adjustbox wrap;
  - extracting the bare tabular with two `partition` calls.

Modules, one per concern:

| file | module | models |
|---|---|---|
| `wrappers.dfy` | `Wrappers` | `Option`, `Result` |
| `ascii.dfy` | `Ascii` | character classes, `lower`/`upper` on ASCII |
| `strings.dfy` | `Strings` | Python's `str.join`, `str.split`, `str.find`, `str.partition`, `str.replace`, `str(int)` |
| `capitalization.dfy` | `Capitalization` | `Capitalize` |
| `filenames.dfy` | `Filenames` | `clean_filename` |
| `interactions.dfy` | `Interactions` | `generate_lower_order_interactions` |
| `covariates.dfy` | `CovariateNames` | `generate_covariate_latexdict` |
| `tables.dfy` | `TablePostprocess` | the string steps of `savereg` |
| `examples.dfy` | `Examples` | concrete worked examples |

Python's `replace` is modelled as a left-to-right, non-overlapping scan, and
`partition` returns `(s, "", "")` when the separator is absent. `sorted` with
the key `-index` (or `np.inf`) is modelled as a stable insertion sort on
`SortKey = Rank(-index) | Unranked`, where `Unranked` sorts after every rank.

The model follows the code in two places where the surrounding text
suggests otherwise:

- The comment on `helpers.py:63` says the recursion happens when "more than
  two variables" are left. The code tests `len(lower_order) > 1`, so the
  two-variable terms recurse too. The single variables are therefore emitted
  (with repeats), and `["A","B","C"]` yields nine terms
  (`Examples.LowerOrderExample`).
- The sort key is minus the key index. The required order is therefore
  descending key position, with names that are not keys last. With keys
  `[A, B]`, the interaction `B:A` is accepted and `A:B` is rejected
  (`Examples.InOrderExample`, `Examples.WrongOrderExample`).

## Model

| member | source | states |
|---|---|---|
| `Ascii.ToLower` | helpers.py:37 | `lower()` on one character: an upper-case letter becomes its lower-case partner (upper-casing restores it); every other character stays the same; word characters stay word characters |
| `Ascii.ToUpper` | helpers.py:20 | upper-casing on one character: a lower-case letter becomes the letter 32 code points lower; every other character stays the same |
| `Ascii.Lower` | helpers.py:37 | `filename.lower()`: same length, each character lower-cased, no upper-case letter left |
| `Capitalization.Capitalize` | helpers.py:20 | `None` exactly for the empty string (IndexError); otherwise the same length and the same tail; the first character is not lower-case; a lower-case first letter becomes its upper-case partner; otherwise the string is unchanged |
| `Capitalization.CapitalizeIdempotent` | helpers.py:20 | capitalizing a capitalized string gives it back |
| `Filenames.StripNonWord` | helpers.py:39 | `re.sub(r'\W+', '', s)`: only word characters remain, every remaining character was in the input, and an all-word input is unchanged |
| `Filenames.CollapseUnderscores` | helpers.py:40 | `re.sub('_+', '_', s)`: no `__` remains, the first character is kept, no new characters appear, and a text without `__` is unchanged; `CollapseDoubleUnderscore` states that a run of `_` of any length collapses like a single one |
| `Filenames.CollapseDoubleUnderscore` | helpers.py:40 | shortening a run of `_` by one, anywhere in the text, does not change the result: every run collapses to one `_` |
| `Filenames.CleanFilename` | helpers.py:22-41 | `clean_filename`, the four steps in order (`LowerAndUnderscore`, `SlashToOver`, the `\W` deletion and the `_` collapse); its contract is carried by `CleanFilenameByChar`, `CleanFilenameSlash`, `CleanFilenameIsClean`, `CleanFilenameFixesClean` and `CleanFilenameIdempotent` |
| `Filenames.CleanFilenameByChar` | helpers.py:37-41 | the four-step pipeline equals an independent per-character definition (each character expanded, then runs of `_` collapsed) |
| `Filenames.CleanFilenameSlash` | helpers.py:38 | a `/` becomes `_over_` between the expansions of the text on either side |
| `Filenames.CleanFilenameIsClean` | helpers.py:37-41 | the result uses only lower-case letters, digits and `_`, and never `__` |
| `Filenames.CleanFilenameFixesClean` | helpers.py:37-41 | an already clean name is returned unchanged |
| `Filenames.CleanFilenameIdempotent` | helpers.py:37-41 | cleaning twice is cleaning once |
| `Filenames.StripNonWordConcat` | helpers.py:39 | deleting non-word characters works piecewise over a concatenation |
| `Filenames.ExpandAllConcat` | helpers.py:37-39 | the per-character expansion works piecewise over a concatenation |
| `Strings.Join` | helpers.py:61 | `sep.join(parts)`; its contract is carried by `JoinSplit` and `SplitJoin` |
| `Strings.Split` | helpers.py:87 | `cov_name.split(':')`: at least one piece, and no piece contains the separator |
| `Strings.JoinSplit` | helpers.py:87 | joining the pieces of a split with the separator restores the text |
| `Strings.SplitJoin` | helpers.py:87 | splitting a join of separator-free pieces (at least one) restores the pieces |
| `Strings.FindFirst` | helpers.py:169-170 | the first occurrence: it occurs there and nowhere earlier, and `None` exactly when the pattern does not occur |
| `Strings.Partition` | helpers.py:169-170 | `s.partition(sep)`: the three parts concatenate to `s`; the middle part is `sep` exactly when `sep` occurs, and then the first part ends just before the first occurrence; otherwise the result is `(s, "", "")` |
| `Strings.Replace` | helpers.py:156-160 | `s.replace(pat, rep)`; its contract is carried by `ReplaceAbsent`, `ReplaceAtFirst`, `ReplaceByPartition` and `ReplaceSelf` |
| `Strings.ReplaceAbsent` | helpers.py:156 | `replace` changes nothing when the pattern does not occur |
| `Strings.ReplaceAtFirst` | helpers.py:156-160 | `replace` copies the text before the first occurrence, substitutes for it, and continues after it |
| `Strings.ReplaceByPartition` | helpers.py:156-160 | `replace` states as a recursion on `partition` |
| `Strings.ReplaceSelf` | helpers.py:157 | replacing a pattern by itself changes nothing |
| `Strings.ReplaceCharConcat` | helpers.py:37-38 | replacing one character works piecewise over a concatenation |
| `Strings.NatToString` | helpers.py:157 | `str(n)`: a non-empty string of digits, with a leading `0` only for `"0"` |
| `Strings.ParseNatToString` | helpers.py:157 | reading back the digits of `str(n)` gives `n` |
| `Strings.NatToStringInjective` | helpers.py:157 | different numbers print differently |
| `Interactions.Omit` | helpers.py:57 | `vars[:i] + vars[(i+1):]` has one variable fewer |
| `Interactions.EmittedStep` | helpers.py:56-65 | one loop iteration appends the reduced term when it is non-empty, then the terms of the recursive call when it has more than one variable |
| `Interactions.GenerateLowerOrderInteractions` | helpers.py:43-67 | the loop returns the list the recursive specification defines, of length f(n) with f(n) = n·(1 + f(n−1)) for n ≥ 2 and f(n) = 0 otherwise |
| `Interactions.LowerOrderCount` | helpers.py:53-67 | the number of terms is f(n) |
| `Interactions.LowerOrderTermsShort` | helpers.py:56-65 | a term of at most one variable has no lower-order terms |
| `Interactions.EmittedPrefix` | helpers.py:56-65 | the list only grows: what the first j positions emit is a prefix of what the first k positions emit |
| `Interactions.EmittedBlock` | helpers.py:56-65 | position k adds its reduced term followed by that term's own lower-order terms |
| `Interactions.LowerOrderLayout` | helpers.py:56-65 | the output has blocks of 1 + f(n−1) terms; block i starts with the term without variable i, followed at once by that term's lower-order terms |
| `Interactions.SubsequenceTransitive` | helpers.py:57 | leaving variables out in two rounds is leaving them out in one |
| `Interactions.OmitIsSubsequence` | helpers.py:57 | leaving one variable out keeps the order of the rest |
| `Interactions.ProperSubsequenceOmits` | helpers.py:57 | every proper subsequence lies inside some one-left-out term |
| `Interactions.EmittedAreLowerOrder` | helpers.py:56-65 | every emitted term is a non-empty proper subsequence of the variables |
| `Interactions.LowerOrderTermsComplete` | helpers.py:56-65 | every non-empty proper subsequence of the variables is emitted |
| `Interactions.LowerOrderTermsIff` | helpers.py:43-67 | a list of variables is emitted exactly when it is a non-empty proper subsequence of the term |
| `Interactions.LowerOrderInteractions` | helpers.py:43-67 | the list the function returns: each emitted term joined with `':'` (line 61); its contract is carried by `GenerateLowerOrderInteractions`, `LowerOrderCount`, `LowerOrderLayout`, `LowerOrderInteractionsIff` and `LowerOrderInteractionsAll` |
| `Interactions.LowerOrderInteractionsIff` | helpers.py:43-67 | a name is in the result exactly when it is `':'.join` (line 61) of a non-empty proper subsequence |
| `Interactions.LowerOrderInteractionsAll` | helpers.py:43-67 | the same, for every name at once |
| `CovariateNames.KeyIndex` | helpers.py:98 | `list(latexdict.keys()).index(v)`: the first key equal to `v`, and `None` exactly when `v` is not a key |
| `CovariateNames.Lookup` | helpers.py:105 | `latexdict.get(v, v)`; its contract is `LookupMeaning` |
| `CovariateNames.LookupMeaning` | helpers.py:105 | the value of the first entry whose key is `v`, and `v` itself when no entry has that key |
| `CovariateNames.DisplayName` | helpers.py:105-107 | the display name of one covariate; its contract is carried by `DisplayNamePlain` and `DisplayNameInteraction` |
| `CovariateNames.DisplayNamePlain` | helpers.py:105-107 | a name without `:` is displayed as its `latexdict` entry, or as itself |
| `CovariateNames.DisplayNameInteraction` | helpers.py:105-107 | an interaction is displayed as the display names of its variables, in order, joined by ` $\times$ ` |
| `CovariateNames.KeyLeMeaning` | helpers.py:98 | variable a may precede b under the sort key exactly when b is not a key, or both are keys and a's key position is at or after b's |
| `CovariateNames.Insert` | helpers.py:98 | one insertion step adds exactly the inserted variable (as a multiset) |
| `CovariateNames.SortByKey` | helpers.py:98 | `sorted(...)` is a permutation of its input |
| `CovariateNames.InsertInOrder` | helpers.py:98 | an insertion into a correctly ordered list keeps it ordered |
| `CovariateNames.SortByKeyInOrder` | helpers.py:98 | `sorted(...)` is ordered by the key |
| `CovariateNames.SortByKeyOrdered` | helpers.py:98 | a list that is already ordered is returned unchanged |
| `CovariateNames.SortByKeyFixedIff` | helpers.py:98-100 | the order assertion passes exactly when the variables are already in key order |
| `CovariateNames.WithKey` | helpers.py:98 | the elements with one given key, in their order |
| `CovariateNames.InsertStable` | helpers.py:98 | insertion keeps the relative order of equal keys |
| `CovariateNames.SortByKeyStable` | helpers.py:98 | `sorted` is stable: the variables sharing a key keep their relative order |
| `CovariateNames.MissingTerms` | helpers.py:94-96 | `set(lower) - set(cov_names)`: a name is reported exactly when it is `':'.join` of a non-empty proper subsequence of the variables and is not a covariate |
| `CovariateNames.LowerOrderPresentIff` | helpers.py:92-94 | the subset assertion passes exactly when every non-empty proper subsequence, joined by `:`, is a covariate |
| `CovariateNames.CheckCovariate` | helpers.py:87-102 | the two assertions on one covariate; its contract is carried by `CheckCovariateIff`, `MissingLowerOrderFails`, `OutOfOrderFails` and `CheckInteraction` |
| `CovariateNames.CheckCovariateIff` | helpers.py:87-102 | a covariate passes both assertions exactly when it is a single name, or all its lower-order terms are present and its variables are in key order |
| `CovariateNames.MissingLowerOrderFails` | helpers.py:94-96 | a missing lower-order term fails with the missing-terms error, and that term is in the reported set |
| `CovariateNames.OutOfOrderFails` | helpers.py:98-102 | with every lower-order term present and the variables out of key order, the order error reports the current and the sorted order |
| `CovariateNames.CheckInteraction` | helpers.py:87-102 | the loop body's two assertions, computed with the loop generator, agree with the check's definition |
| `CovariateNames.FirstFailure` | helpers.py:85-102 | no failure exactly when every covariate passes |
| `CovariateNames.FirstFailureAt` | helpers.py:85-102 | the error raised is that of the first failing covariate |
| `CovariateNames.FirstFailureAppend` | helpers.py:85-102 | the first failure of a concatenation is that of the first part, or else that of the second |
| `CovariateNames.DisplayNamesSnoc` | helpers.py:110 | one loop iteration adds the covariate's display name to the map |
| `CovariateNames.CovariateLatexDict` | helpers.py:70-112 | `generate_covariate_latexdict`; its contract is carried by `CovariateLatexDictOkIff`, `FirstFailureAt` and `GenerateCovariateLatexDict` |
| `CovariateNames.CovariateLatexDictOkIff` | helpers.py:70-112 | a map is returned exactly when every covariate passes; it then maps every covariate, and only those, to its display name (lines 104-110) |
| `CovariateNames.GenerateCovariateLatexDict` | helpers.py:82-112 | the loop returns the first assertion failure, or the complete map, as the specification function says |
| `TablePostprocess.AdjustOn` | helpers.py:131-132 | `'auto'` wraps exactly when there are more than four models; any other value is used for its truth |
| `TablePostprocess.ClinePattern` | helpers.py:157 | the searched `\cline` rule is never empty |
| `TablePostprocess.PartitionSpanFirst` | helpers.py:169-170 | the two partitions give "" without an opening marker; otherwise the text from the first opening marker through the first closing marker after it, or to the end of the text if none follows |
| `TablePostprocess.PartitionSpanShape` | helpers.py:169-170 | for markers that cannot overlap, the span is "" without an opening marker; otherwise it is the slice of the text that starts at the first opening marker (`SpanAt`): it begins with that marker, and ends at the first closing marker after it, holding no earlier one, or runs to the end when none follows |
| `TablePostprocess.ClosedSpanShape` | helpers.py:170 | a prefix through the first closing marker starts with the opening marker, ends with the closing one, and holds no other closing marker |
| `TablePostprocess.SpanShapeIn` | helpers.py:169-170 | the span cut at a given opening marker is the slice of the text described by `SpanAt` |
| `TablePostprocess.SliceOfSuffix` | helpers.py:169 | cutting the text after `partition` and then taking a prefix is one slice of the text |
| `TablePostprocess.TabularMarkersDistinct` | helpers.py:169-170 | `\begin{tabular}` and `\end{tabular}` cannot overlap |
| `TablePostprocess.ExtractTabular` | helpers.py:169-170 | the text of `_tabular.tex`; its contract is carried by `PartitionSpanFirst`, `ExtractTabularShape`, `ExtractIn` and `ExtractWrappedIn` |
| `TablePostprocess.ExtractTabularShape` | helpers.py:169-170 | the `_tabular.tex` text is "" without `\begin{tabular}`; otherwise it is the slice of the LaTeX starting at the first `\begin{tabular}` and ending with the first `\end{tabular}` after it, or running to the end |
| `TablePostprocess.RemoveNan` | helpers.py:156 | deleting `nan`; its contract is carried by `RemoveNanAbsent`, `RemoveNanSinglePass` and `RemoveNanInsideWords` |
| `TablePostprocess.RemoveNanAbsent` | helpers.py:156 | LaTeX without `nan` is unchanged |
| `TablePostprocess.RemoveNanSinglePass` | helpers.py:156 | deletion is a single pass: `nnanan` becomes `nan` |
| `TablePostprocess.RemoveNanInsideWords` | helpers.py:156 | deletion also cuts `nan` out of words: `Finance` becomes `Fice` |
| `TablePostprocess.FixCline` | helpers.py:157 | the `\cline` rewrite; its contract is carried by `FixClineAbsent`, `FixClineTwoColumns` and `FixClineFirst` |
| `TablePostprocess.FixClineAbsent` | helpers.py:157 | without `\cline{N-N+1}` the rewrite changes nothing |
| `TablePostprocess.FixClineTwoColumns` | helpers.py:157 | with two model columns the pattern and its replacement coincide |
| `TablePostprocess.FixClineFirst` | helpers.py:157 | the first `\cline{N-N+1}` becomes `\cline{2-N+1}` and rewriting continues after it |
| `TablePostprocess.WrapAdjustbox` | helpers.py:158-160 | the two adjustbox replacements; its contract is carried by `WrapAdjustboxAbsent`, `OpenBoxIn`, `CloseBoxIn` and `WrapIn` |
| `TablePostprocess.WrapAdjustboxAbsent` | helpers.py:158-160 | without tabular markers the wrap changes nothing |
| `TablePostprocess.NoMarkerStraddles` | helpers.py:159-160 | a marker whose only backslash is its first character cannot start inside a text and end inside a following text that begins with a backslash |
| `TablePostprocess.FirstMarkerAfter` | helpers.py:169-170 | such a marker is first found right after a prefix that does not contain it |
| `TablePostprocess.PartitionSpanAt` | helpers.py:169-170 | once both first occurrences are known, the span is the slice between them |
| `TablePostprocess.NoMarkerInConcat` | helpers.py:159-160 | a marker whose only backslash is its first character is absent from `x + y` when it is absent from both and `y` begins with a backslash |
| `TablePostprocess.NoTabularInBox` | helpers.py:159 | the adjustbox opening holds no `\begin{tabular}` |
| `TablePostprocess.ReplaceOnlyAt` | helpers.py:156-160 | replacing a marker that occurs exactly once, between texts that hold none, changes only that occurrence |
| `TablePostprocess.OpenBoxAround` | helpers.py:159 | for any markers of this kind: the first replacement puts the box opening before the one opening marker and changes nothing else |
| `TablePostprocess.CloseBoxAround` | helpers.py:160 | for any markers of this kind: the second replacement puts the box closing after the one closing marker and changes nothing else |
| `TablePostprocess.SpanAfterPrefix` | helpers.py:169-170 | when the opening marker is first found right after a prefix, the span is the rest of the text through its first closing marker |
| `TablePostprocess.SpanAround` | helpers.py:169-170 | for any markers of this kind: the span of `pre + open + body + close + post` is `open + body + close` when `pre` holds no opening marker and the body no closing one |
| `TablePostprocess.OpenBoxIn` | helpers.py:159 | for one tabular with no tabular marker before, inside or after it, the first replacement puts `\begin{adjustbox}{width=\linewidth}` right before `\begin{tabular}` and changes nothing else |
| `TablePostprocess.CloseBoxIn` | helpers.py:160 | for such a text the second replacement puts `\end{adjustbox}` right after `\end{tabular}` and changes nothing else |
| `TablePostprocess.WrapIn` | helpers.py:158-160 | a tabular with any text before and after it, none of the three holding a tabular marker, is wrapped in exactly one adjustbox, the text around it unchanged |
| `TablePostprocess.ExtractIn` | helpers.py:169-170 | when the text before the tabular holds no `\begin{tabular}` and its body no `\end{tabular}`, the tabular file is exactly the tabular, whatever follows |
| `TablePostprocess.ExtractWrappedIn` | helpers.py:158-170 | the same for the wrapped table: the tabular file is the tabular without the adjustbox or the surrounding text |
| `TablePostprocess.PostProcessIn` | helpers.py:155-170 | end to end, for any rendered LaTeX, any model counts and any width policy: when the text after the `nan` deletion and the `\cline` rewrite is one tabular among text holding no tabular marker, the table is that text wrapped in one adjustbox exactly when the policy says so and is otherwise unchanged, and the tabular file is the tabular itself |
| `TablePostprocess.PostProcess` | helpers.py:155-170 | the post-processing of the rendered LaTeX into the two file texts; its contract is carried by `PostProcessUntouched`, `PostProcessTabular` and `PostProcessIn` |
| `TablePostprocess.PostProcessUntouched` | helpers.py:155-160 | LaTeX without `nan` or the `\cline` pattern, not wrapped, is written unchanged |
| `TablePostprocess.PostProcessTabular` | helpers.py:155-170 | the tabular file is "" when the table has no `\begin{tabular}`, and otherwise is the slice of the written table that starts at its first `\begin{tabular}` and ends with the first `\end{tabular}` after it, or runs to the end |
| `Examples.CapitalizeExample` | helpers.py:20 | `"hello world"` → `"Hello world"`, `"1st"` unchanged, `""` fails |
| `Examples.CleanFilenameExample` | helpers.py:37-41 | `"My Plot/V2!!"` → `"my_plot_over_v2"` |
| `Examples.TermsOfPair` | helpers.py:56-65 | `[a, b]` gives `[[b], [a]]` |
| `Examples.TermsOfTriple` | helpers.py:56-65 | `[a, b, c]` gives the nine terms in emission order |
| `Examples.LowerOrderExample` | helpers.py:43-67 | `["A","B","C"]` → `["B:C","C","B","A:C","C","A","A:B","B","A"]`, nine = f(3) |
| `Examples.MissingExample` | helpers.py:94-96 | `["A:B"]` alone fails, missing `{"A","B"}` |
| `Examples.SortsOfAB` | helpers.py:98 | with keys `[A, B]`, both orders of the pair sort to `[B, A]` |
| `Examples.DisplayNameBA` | helpers.py:105-107 | `"B:A"` is displayed as `Beta $\times$ Alpha` |
| `Examples.InOrderExample` | helpers.py:70-112 | keys `[A, B]`, covariates `A, B, B:A`: the full map |
| `Examples.WrongOrderExample` | helpers.py:98-102 | keys `[A, B]`, covariates `A, B, A:B`: the order error, with `B:A` as the correct order |

## Left out

- `savefig` (`helpers.py:174` on): it calls matplotlib, `clean_filename` and
  `print`, and writes files. Of these only `clean_filename` is pure, and it is
  modelled.
- The file writes and the `debug` print in `savereg` (lines 163-166 and
  171-172), and the clean file name they use. `clean_filename` itself is
  modelled.
- The stargazer calls in `savereg` (lines 135-152): the display flags, the
  renaming, the pseudo-R² substitution and `render_latex`. `PostProcess`
  takes the rendered LaTeX, `stargazer.num_models` and `len(stargazer.models)`
  as separate inputs.
- Characters beyond ASCII. `lower`, `capitalize` and the regular-expression
  class `\w` are modelled on ASCII only.
- `np.inf` is modelled by the `Unranked` sort key. The comparison is the
  only use `generate_covariate_latexdict` makes of it.
- `latexdict` is modelled as ordered (key, value) entries. A duplicate key
  resolves to its first entry, as a Python dict cannot hold two.
- Running with Python's `-O` flag, which removes the `assert` statements.
- `WrapAdjustbox`: its exact result is proved (`WrapIn`) for one tabular
  with text before and after it, when neither that text nor the tabular's
  body holds `\begin{tabular}` or `\end{tabular}`. Other LaTeX, such as a
  `\begin{table}` environment around the tabular, is allowed. Texts with several tabulars or a nested one are covered only by
  `WrapAdjustboxAbsent` and the general replace lemmas.
- `PostProcess`: its end-to-end result is proved (`PostProcessIn`) under the
  same condition on the text after the `nan` deletion and the `\cline`
  rewrite. For texts with several tabulars only `PostProcessTabular` is
  proved. The condition is needed, because with a nested tabular the round
  trip does not hold. Wrapping
  `\begin{tabular}a\begin{tabular}b\end{tabular}c\end{tabular}` gives two
  adjustboxes, and the extracted text then runs from the first
  `\begin{tabular}` to the first `\end{tabular}`. That text contains the
  inner `\begin{adjustbox}` and not the outer closing.
- `TablePostprocess.PartitionSpanShape`: the first closing marker is
  characterized for markers that cannot overlap each other, as the two
  tabular markers cannot.
