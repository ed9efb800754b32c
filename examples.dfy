/** Worked examples: the helpers evaluated on concrete inputs against the
    definitions of the other modules. */
module Examples {
  import opened Wrappers
  import opened Strings
  import opened Capitalization
  import opened Filenames
  import opened Interactions
  import opened CovariateNames

  // ---------------------------------------------------------------------
  // capitalizing
  // ---------------------------------------------------------------------

  /** Only the first letter changes; the empty string has no first letter. */
  lemma CapitalizeExample()
    ensures Capitalize("hello world") == Some("Hello world")
    ensures Capitalize("1st") == Some("1st")
    ensures Capitalize("") == None
  {
    assert Ascii.ToUpper('h') == 'H';
    assert "hello world"[1..] == "ello world";
    assert ['H'] + "ello world" == "Hello world";
    assert "1st"[1..] == "st";
  }

  // ---------------------------------------------------------------------
  // the worked example, evaluated piece by piece
  // ---------------------------------------------------------------------

  lemma ExpandPieces(a: string, b: string, c: string, d: string, x: string, y: string, z: string, w: string)
    requires ExpandAll(a) == x && ExpandAll(b) == y && ExpandAll(c) == z && ExpandAll(d) == w
    ensures ExpandAll(a + b + c + d) == x + y + z + w
  {
    ExpandAllConcat(a, b);
    ExpandAllConcat(a + b, c);
    ExpandAllConcat(a + b + c, d);
  }

  lemma ExpandFirstPiece() ensures ExpandAll("My ") == "my_" { }
  lemma ExpandSecondPiece() ensures ExpandAll("Plot") == "plot" { }
  lemma ExpandThirdPiece() ensures ExpandAll("/V2") == "_over_v2" { }
  lemma ExpandLastPiece() ensures ExpandAll("!!") == "" { }
  lemma ExampleInPieces() ensures "My " + "Plot" + "/V2" + "!!" == "My Plot/V2!!" { }
  lemma ExpectedInPieces() ensures "my_" + "plot" + "_over_v2" + "" == "my_plot_over_v2" { }

  lemma ExpandExample()
    ensures ExpandAll("My Plot/V2!!") == "my_plot_over_v2"
  {
    ExpandFirstPiece();
    ExpandSecondPiece();
    ExpandThirdPiece();
    ExpandLastPiece();
    ExampleInPieces();
    ExpandPieces("My ", "Plot", "/V2", "!!", "my_", "plot", "_over_v2", "");
    ExpectedInPieces();
  }

  lemma CollapsePieces(a: string, b: string, c: string, d: string)
    requires NoDoubleUnderscore(a) && NoDoubleUnderscore(b)
    requires NoDoubleUnderscore(c) && NoDoubleUnderscore(d)
    requires a == "my_" && b == "plot" && c == "_over_" && d == "v2"
    ensures CollapseUnderscores(a + b + c + d) == a + b + c + d
  {
    NoDoubleUnderscoreConcat(a, b);
    NoDoubleUnderscoreConcat(a + b, c);
    NoDoubleUnderscoreConcat(a + b + c, d);
  }

  lemma NoDoubleInPieces()
    ensures NoDoubleUnderscore("my_") && NoDoubleUnderscore("plot")
    ensures NoDoubleUnderscore("_over_") && NoDoubleUnderscore("v2")
  {
  }

  lemma CleanNameInPieces() ensures "my_" + "plot" + "_over_" + "v2" == "my_plot_over_v2" { }

  lemma CollapseExample()
    ensures CollapseUnderscores("my_plot_over_v2") == "my_plot_over_v2"
  {
    NoDoubleInPieces();
    CleanNameInPieces();
    CollapsePieces("my_", "plot", "_over_", "v2");
  }

  /** `clean_filename("My Plot/V2!!")` is `"my_plot_over_v2"`. */
  lemma CleanFilenameExample()
    ensures CleanFilename("My Plot/V2!!") == "my_plot_over_v2"
  {
    CleanFilenameByChar("My Plot/V2!!");
    ExpandExample();
    CollapseExample();
  }

  // ---------------------------------------------------------------------
  // lower-order terms of a three-way interaction
  // ---------------------------------------------------------------------

  lemma TermsOfPair(a: string, b: string)
    ensures LowerOrderTerms([a, b]) == [[b], [a]]
  {
    assert Omit([a, b], 0) == [b];
    assert Omit([a, b], 1) == [a];
    assert Block([a, b], 0) == [[b]];
    assert Block([a, b], 1) == [[a]];
    assert Emitted([a, b], 1) == [[b]];
  }

  lemma TermsOfTriple(a: string, b: string, c: string)
    ensures LowerOrderTerms([a, b, c])
            == [[b, c], [c], [b], [a, c], [c], [a], [a, b], [b], [a]]
  {
    var vs := [a, b, c];
    assert Omit(vs, 0) == [b, c];
    assert Omit(vs, 1) == [a, c];
    assert Omit(vs, 2) == [a, b];
    TermsOfPair(b, c);
    TermsOfPair(a, c);
    TermsOfPair(a, b);
    EmittedBlock(vs, 0);
    EmittedBlock(vs, 1);
    EmittedBlock(vs, 2);
    assert Emitted(vs, 1) == [[b, c], [c], [b]];
    assert Emitted(vs, 2) == [[b, c], [c], [b], [a, c], [c], [a]];
  }

  lemma JoinPairWith(a: string, b: string, sep: string)
    ensures Join([a, b], sep) == a + sep + b
  {
    assert [a, b][1..] == [b];
  }

  lemma InteractionsOfTriple(a: string, b: string, c: string)
    ensures LowerOrderInteractions([a, b, c])
            == [b + ":" + c, c, b, a + ":" + c, c, a, a + ":" + b, b, a]
  {
    TermsOfTriple(a, b, c);
    JoinPairWith(b, c, ":");
    JoinPairWith(a, c, ":");
    JoinPairWith(a, b, ":");
    assert Join([a], ":") == a && Join([b], ":") == b && Join([c], ":") == c;
  }

  /** `["A","B","C"]` gives the nine terms in the order the loop emits them,
      singletons and duplicates included. */
  lemma LowerOrderExample()
    ensures LowerOrderInteractions(["A", "B", "C"])
            == ["B:C", "C", "B", "A:C", "C", "A", "A:B", "B", "A"]
    ensures InteractionCount(3) == 9
  {
    InteractionsOfTriple("A", "B", "C");
    assert "B" + ":" + "C" == "B:C";
    assert "A" + ":" + "C" == "A:C";
    assert "A" + ":" + "B" == "A:B";
  }

  // ---------------------------------------------------------------------
  // display names for the keys [A, B]
  // ---------------------------------------------------------------------

  const AB: LatexDict := [("A", "Alpha"), ("B", "Beta")]

  lemma SplitPair(a: string, b: string)
    requires ':' !in a && ':' !in b
    ensures Split(a + ":" + b, ':') == [a, b]
  {
    JoinPairWith(a, b, ":");
    SplitJoin([a, b], ':');
  }

  lemma PairTerms(a: string, b: string)
    ensures LowerOrderInteractions([a, b]) == [b, a]
  {
    TermsOfPair(a, b);
    assert Join([b], ":") == b;
  }

  lemma SplitAB()
    ensures Split("A:B", ':') == ["A", "B"] && Split("B:A", ':') == ["B", "A"]
  {
    assert "A:B" == "A" + ":" + "B";
    assert "B:A" == "B" + ":" + "A";
    SplitPair("A", "B");
    SplitPair("B", "A");
  }

  /** `"A:B"` without its lower-order terms fails on both of them. */
  lemma MissingExample()
    ensures CovariateLatexDict(AB, ["A:B"]) == Err(MissingLowerOrder("A:B", {"A", "B"}))
  {
    SplitAB();
    PairTerms("A", "B");
    assert MissingTerms(["A:B"], ["A", "B"]) == {"A", "B"};
  }

  lemma KeysOfAB()
    ensures KeyOf(AB, "A") == Rank(0) && KeyOf(AB, "B") == Rank(-1)
  {
  }

  lemma SortsOfAB()
    ensures SortByKey(AB, ["B", "A"]) == ["B", "A"]
    ensures SortByKey(AB, ["A", "B"]) == ["B", "A"]
  {
    KeysOfAB();
    assert SortByKey(AB, ["A"]) == ["A"];
    assert SortByKey(AB, ["B"]) == ["B"];
  }

  lemma PlainNamesPass(covs: seq<string>)
    ensures CheckCovariate(AB, covs, "A") == None
    ensures CheckCovariate(AB, covs, "B") == None
    ensures DisplayName(AB, "A") == "Alpha" && DisplayName(AB, "B") == "Beta"
  {
    SplitNoSeparator("A", ':');
    SplitNoSeparator("B", ':');
    DisplayNamePlain(AB, "A");
    DisplayNamePlain(AB, "B");
  }

  lemma FirstFailureOfThree(d: LatexDict, covs: seq<string>, x: string, y: string, z: string)
    requires CheckCovariate(d, covs, x) == None && CheckCovariate(d, covs, y) == None
    ensures FirstFailure(d, covs, [x, y, z]) == CheckCovariate(d, covs, z)
  {
    assert [x, y, z][1..] == [y, z] && [y, z][1..] == [z];
    assert FirstFailure(d, covs, [z][1..]) == None;
    assert FirstFailure(d, covs, [z]) == CheckCovariate(d, covs, z);
    assert FirstFailure(d, covs, [y, z]) == FirstFailure(d, covs, [z]);
  }

  lemma DisplayNamesOfThree(d: LatexDict, x: string, y: string, z: string)
    ensures DisplayNames(d, [x, y, z])
            == map[x := DisplayName(d, x), y := DisplayName(d, y), z := DisplayName(d, z)]
  {
  }

  lemma InteractionBAPasses()
    ensures CheckCovariate(AB, ["A", "B", "B:A"], "B:A") == None
  {
    SplitAB();
    PairTerms("B", "A");
    SortsOfAB();
    assert MissingTerms(["A", "B", "B:A"], ["B", "A"]) == {};
  }

  /** Both keys of `AB` are found with their display names. */
  lemma LookupAB()
    ensures Lookup(AB, "A") == "Alpha" && Lookup(AB, "B") == "Beta"
  {
    LookupMeaning(AB, "A");
    LookupMeaning(AB, "B");
    assert AB[0].0 == "A" && AB[1].0 == "B";
    assert "A" != "B";
  }

  /** A two-variable interaction is displayed as its two display names. */
  lemma DisplayPair(d: LatexDict, a: string, b: string, c: string)
    requires ':' !in a && ':' !in b && c == a + ":" + b
    ensures DisplayName(d, c) == Lookup(d, a) + Times + Lookup(d, b)
  {
    var parts := [a, b];
    JoinPairWith(a, b, ":");
    DisplayNameInteraction(d, parts);
    var names := seq(|parts|, i requires 0 <= i < |parts| => Lookup(d, parts[i]));
    assert names == [Lookup(d, a), Lookup(d, b)];
    JoinPairWith(Lookup(d, a), Lookup(d, b), Times);
  }

  lemma NameBA() ensures "B:A" == "B" + ":" + "A" { }
  lemma DisplayBA() ensures "Beta" + Times + "Alpha" == "Beta $\\times$ Alpha" { }

  lemma DisplayNameBA()
    ensures DisplayName(AB, "B:A") == "Beta $\\times$ Alpha"
  {
    NameBA();
    DisplayPair(AB, "B", "A", "B:A");
    LookupAB();
    DisplayBA();
  }

  /** With keys `[A, B]`, `"B:A"` is in order and is displayed as
      `Beta $\times$ Alpha`. */
  lemma InOrderExample()
    ensures CovariateLatexDict(AB, ["A", "B", "B:A"])
            == Ok(map["A" := "Alpha", "B" := "Beta", "B:A" := "Beta $\\times$ Alpha"])
  {
    var covs := ["A", "B", "B:A"];
    PlainNamesPass(covs);
    InteractionBAPasses();
    FirstFailureOfThree(AB, covs, "A", "B", "B:A");
    DisplayNamesOfThree(AB, "A", "B", "B:A");
    DisplayNameBA();
  }

  /** With keys `[A, B]`, `"A:B"` is out of order; the message gives
      `B:A` as the order to use. */
  lemma WrongOrderExample()
    ensures CovariateLatexDict(AB, ["A", "B", "A:B"])
            == Err(WrongOrder("A:B", ["A", "B"], ["B", "A"]))
  {
    var covs := ["A", "B", "A:B"];
    SplitAB();
    PairTerms("A", "B");
    SortsOfAB();
    PlainNamesPass(covs);
    assert MissingTerms(covs, ["A", "B"]) == {};
    assert CheckCovariate(AB, covs, "A:B") == Some(WrongOrder("A:B", ["A", "B"], ["B", "A"]));
    FirstFailureOfThree(AB, covs, "A", "B", "A:B");
  }
}
