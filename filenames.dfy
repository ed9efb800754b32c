/** `clean_filename`: lower-case, spaces to `_`, `/` to `_over_`, non-word
    characters deleted, runs of `_` collapsed to one. */
module Filenames {
  import opened Ascii
  import opened Strings

  /** The two characters at `i` and `i + 1` are both underscores. */
  predicate DoubleUnderscoreAt(s: string, i: int)
  {
    0 <= i < |s| - 1 && s[i] == '_' && s[i + 1] == '_'
  }

  predicate NoDoubleUnderscore(s: string)
  {
    forall i :: 0 <= i < |s| ==> !DoubleUnderscoreAt(s, i)
  }

  /** The characters a cleaned filename may contain: `[a-z0-9_]`. */
  predicate IsCleanChar(c: char)
  {
    IsLower(c) || IsDigit(c) || c == '_'
  }

  /** What `clean_filename` always returns: only `[a-z0-9_]`, never `__`. */
  predicate IsCleanName(s: string)
  {
    (forall c :: c in s ==> IsCleanChar(c)) && NoDoubleUnderscore(s)
  }

  // ---------------------------------------------------------------------
  // the four steps
  // ---------------------------------------------------------------------

  /** Step 1: `filename.lower().replace(' ', '_')`. */
  function LowerAndUnderscore(s: string): string
  {
    Replace(Lower(s), " ", "_")
  }

  /** Step 2: `filename.replace('/', '_over_')`. */
  function SlashToOver(s: string): string
  {
    Replace(s, "/", "_over_")
  }

  /** Step 3: `re.sub(r'\W+', '', filename)`; deleting each run of non-word
      characters is deleting each non-word character. */
  function StripNonWord(s: string): (r: string)
    ensures forall c :: c in r ==> IsWordChar(c)
    ensures forall c :: c in r ==> c in s
    ensures (forall c :: c in s ==> IsWordChar(c)) ==> r == s
    decreases |s|
  {
    if |s| == 0 then ""
    else
      assert s == [s[0]] + s[1..];
      (if IsWordChar(s[0]) then [s[0]] else "") + StripNonWord(s[1..])
  }

  /** Step 4: `re.sub('_+', '_', filename)`. A run of underscores keeps its
      last underscore. */
  function CollapseUnderscores(s: string): (r: string)
    ensures |s| > 0 ==> |r| > 0 && r[0] == s[0]
    ensures NoDoubleUnderscore(r)
    ensures forall c :: c in r ==> c in s
    ensures NoDoubleUnderscore(s) ==> r == s
    decreases |s|
  {
    if |s| <= 1 then s
    else if s[0] == '_' && s[1] == '_' then
      assert DoubleUnderscoreAt(s, 0);
      CollapseUnderscores(s[1..])
    else
      var rest := CollapseUnderscores(s[1..]);
      assert s == [s[0]] + s[1..];
      assert forall i :: 1 <= i < |s| - 1 ==> (DoubleUnderscoreAt(s, i) <==> DoubleUnderscoreAt(s[1..], i - 1));
      assert forall j :: 0 <= j < |s| - 2 ==> (DoubleUnderscoreAt(s[1..], j) <==> DoubleUnderscoreAt(s, j + 1));
      assert forall i :: 1 <= i < |rest| ==> (DoubleUnderscoreAt([s[0]] + rest, i) <==> DoubleUnderscoreAt(rest, i - 1));
      [s[0]] + rest
  }

  /** Collapsing treats `__` as `_`: together with the fixed point for text
      without `__`, this pins the collapse down, keeping every other
      character in order and one underscore of each run. */
  lemma {:induction false} CollapseDoubleUnderscore(a: string, b: string)
    ensures CollapseUnderscores(a + "__" + b) == CollapseUnderscores(a + "_" + b)
    decreases |a|
  {
    var s := a + "__" + b;
    var t := a + "_" + b;
    if |a| == 0 {
      assert s[1..] == t;
    } else {
      assert s[0] == t[0] == a[0];
      assert s[1] == t[1];
      assert s[1..] == a[1..] + "__" + b;
      assert t[1..] == a[1..] + "_" + b;
      CollapseDoubleUnderscore(a[1..], b);
    }
  }

  /** Two pieces without `__` join without `__` unless an underscore ends the
      first and another begins the second. */
  lemma NoDoubleUnderscoreConcat(a: string, b: string)
    requires NoDoubleUnderscore(a) && NoDoubleUnderscore(b)
    requires |a| > 0 && |b| > 0 ==> !(a[|a| - 1] == '_' && b[0] == '_')
    ensures NoDoubleUnderscore(a + b)
  {
    var s := a + b;
    forall i | 0 <= i < |s| ensures !DoubleUnderscoreAt(s, i) {
      if i < |a| - 1 {
        assert DoubleUnderscoreAt(s, i) ==> DoubleUnderscoreAt(a, i);
      } else if i >= |a| {
        assert DoubleUnderscoreAt(s, i) ==> DoubleUnderscoreAt(b, i - |a|);
      }
    }
  }

  /** `clean_filename(filename)`. */
  function CleanFilename(s: string): string
  {
    CollapseUnderscores(StripNonWord(SlashToOver(LowerAndUnderscore(s))))
  }

  // ---------------------------------------------------------------------
  // a per-character reference definition
  // ---------------------------------------------------------------------

  /** What the first three steps make of one character. */
  function ExpandChar(c: char): string
  {
    if c == ' ' then "_"
    else if c == '/' then "_over_"
    else if IsWordChar(c) then [ToLower(c)]
    else ""
  }

  function ExpandAll(s: string): (r: string)
    decreases |s|
  {
    if |s| == 0 then "" else ExpandChar(s[0]) + ExpandAll(s[1..])
  }

  lemma {:induction false} StripNonWordConcat(a: string, b: string)
    ensures StripNonWord(a + b) == StripNonWord(a) + StripNonWord(b)
    decreases |a|
  {
    if |a| == 0 {
      assert a + b == b;
    } else {
      assert (a + b)[0] == a[0];
      assert (a + b)[1..] == a[1..] + b;
      StripNonWordConcat(a[1..], b);
    }
  }

  /** The first three steps, which act character by character. */
  function FirstSteps(s: string): string
  {
    StripNonWord(SlashToOver(LowerAndUnderscore(s)))
  }

  lemma FirstStepsConcat(a: string, b: string)
    ensures FirstSteps(a + b) == FirstSteps(a) + FirstSteps(b)
  {
    assert Lower(a + b) == Lower(a) + Lower(b);
    ReplaceCharConcat(Lower(a), Lower(b), ' ', "_");
    ReplaceCharConcat(LowerAndUnderscore(a), LowerAndUnderscore(b), '/', "_over_");
    StripNonWordConcat(SlashToOver(LowerAndUnderscore(a)), SlashToOver(LowerAndUnderscore(b)));
  }

  lemma FirstStepsChar(c: char)
    ensures FirstSteps([c]) == ExpandChar(c)
  {
    var x := ToLower(c);
    assert Lower([c]) == [x];
    assert x == ' ' <==> c == ' ';
    assert x == '/' <==> c == '/';
    assert [x][..1] == [x] && [x][1..] == [];
    assert Replace([], " ", "_") == [] && Replace([], "/", "_over_") == [];
    var one := Replace([x], " ", "_");
    assert one == if c == ' ' then "_" else [ToLower(c)];
    var two := Replace(one, "/", "_over_");
    assert two == if c == '/' then "_over_" else one;
  }

  lemma {:induction false} FirstStepsByChar(s: string)
    ensures FirstSteps(s) == ExpandAll(s)
    decreases |s|
  {
    if |s| > 0 {
      assert s == [s[0]] + s[1..];
      FirstStepsConcat([s[0]], s[1..]);
      FirstStepsChar(s[0]);
      FirstStepsByChar(s[1..]);
    }
  }

  /** `clean_filename` is the collapse of the per-character expansion. */
  lemma CleanFilenameByChar(s: string)
    ensures CleanFilename(s) == CollapseUnderscores(ExpandAll(s))
  {
    FirstStepsByChar(s);
  }

  lemma {:induction false} ExpandAllConcat(a: string, b: string)
    ensures ExpandAll(a + b) == ExpandAll(a) + ExpandAll(b)
    decreases |a|
  {
    if |a| == 0 {
      assert a + b == b;
    } else {
      assert (a + b)[0] == a[0];
      assert (a + b)[1..] == a[1..] + b;
      ExpandAllConcat(a[1..], b);
    }
  }

  /** A `/` in the input becomes `_over_` (before underscores are collapsed). */
  lemma CleanFilenameSlash(a: string, b: string)
    ensures CleanFilename(a + "/" + b) == CollapseUnderscores(ExpandAll(a) + "_over_" + ExpandAll(b))
  {
    CleanFilenameByChar(a + "/" + b);
    ExpandAllConcat(a + "/", b);
    ExpandAllConcat(a, "/");
    assert ExpandAll("/") == "_over_";
  }

  lemma {:induction false} ExpandAllIsClean(s: string)
    ensures forall c :: c in ExpandAll(s) ==> IsCleanChar(c)
    decreases |s|
  {
    if |s| > 0 {
      ExpandAllIsClean(s[1..]);
    }
  }

  lemma {:induction false} ExpandAllFixesClean(s: string)
    requires forall c :: c in s ==> IsCleanChar(c)
    ensures ExpandAll(s) == s
    decreases |s|
  {
    if |s| > 0 {
      assert IsCleanChar(s[0]);
      ExpandAllFixesClean(s[1..]);
      assert [s[0]] + s[1..] == s;
    }
  }

  // ---------------------------------------------------------------------
  // properties
  // ---------------------------------------------------------------------

  /** The output has only `[a-z0-9_]` and never two `_` in a row. */
  lemma CleanFilenameIsClean(s: string)
    ensures IsCleanName(CleanFilename(s))
  {
    CleanFilenameByChar(s);
    ExpandAllIsClean(s);
  }

  /** A name that is already clean is returned unchanged. */
  lemma CleanFilenameFixesClean(s: string)
    requires IsCleanName(s)
    ensures CleanFilename(s) == s
  {
    CleanFilenameByChar(s);
    ExpandAllFixesClean(s);
  }

  /** Cleaning twice is cleaning once. */
  lemma CleanFilenameIdempotent(s: string)
    ensures CleanFilename(CleanFilename(s)) == CleanFilename(s)
  {
    CleanFilenameIsClean(s);
    CleanFilenameFixesClean(CleanFilename(s));
  }
}
