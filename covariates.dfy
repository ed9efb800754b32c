/** `generate_covariate_latexdict`: the map from each covariate name to its
    display name, after checking every interaction term for its lower-order
    terms and for the order of its variables. */
module CovariateNames {
  import opened Wrappers
  import opened Strings
  import opened Interactions

  /** The `latexdict` argument: an ordered dictionary, as its list of
      (name, display name) entries in key order. */
  type LatexDict = seq<(string, string)>

  /** The separator of rendered interaction terms, ` $\times$ `. */
  const Times: string := " $\\times$ "

  // ---------------------------------------------------------------------
  // looking names up
  // ---------------------------------------------------------------------

  /** `list(latexdict.keys()).index(v)`, or `None` when `v` is not a key. */
  function KeyIndex(d: LatexDict, v: string): (r: Option<nat>)
    ensures r.Some? ==> r.value < |d| && d[r.value].0 == v
    ensures r.Some? ==> forall j :: 0 <= j < r.value ==> d[j].0 != v
    ensures r.None? <==> forall j :: 0 <= j < |d| ==> d[j].0 != v
  {
    if |d| == 0 then None
    else if d[0].0 == v then Some(0)
    else match KeyIndex(d[1..], v)
      case None => None
      case Some(i) => Some(i + 1)
  }

  /** `latexdict.get(v, v)`. */
  function Lookup(d: LatexDict, v: string): string
  {
    match KeyIndex(d, v)
      case None => v
      case Some(i) => d[i].1
  }

  /** What `get` finds: the value of the first entry for `v`, or `v` itself
      when no entry has that key. */
  lemma LookupMeaning(d: LatexDict, v: string)
    ensures forall j :: 0 <= j < |d| && d[j].0 == v && (forall i :: 0 <= i < j ==> d[i].0 != v)
                        ==> Lookup(d, v) == d[j].1
    ensures (forall j :: 0 <= j < |d| ==> d[j].0 != v) ==> Lookup(d, v) == v
  {
  }

  /** `' $\times$ '.join(latexdict.get(v, v) for v in c.split(':'))`. */
  function DisplayName(d: LatexDict, c: string): string
  {
    var vs := Split(c, ':');
    Join(seq(|vs|, i requires 0 <= i < |vs| => Lookup(d, vs[i])), Times)
  }

  /** A plain name is displayed as its own entry, or as itself. */
  lemma DisplayNamePlain(d: LatexDict, c: string)
    requires ':' !in c
    ensures DisplayName(d, c) == Lookup(d, c)
  {
    SplitNoSeparator(c, ':');
  }

  /** An interaction of variables `parts` is displayed as the display names
      of its variables, in the same order, separated by ` $\times$ `. */
  lemma DisplayNameInteraction(d: LatexDict, parts: seq<string>)
    requires |parts| >= 1
    requires forall i :: 0 <= i < |parts| ==> ':' !in parts[i]
    ensures DisplayName(d, Join(parts, ":"))
            == Join(seq(|parts|, i requires 0 <= i < |parts| => Lookup(d, parts[i])), Times)
  {
    SplitJoin(parts, ':');
  }

  // ---------------------------------------------------------------------
  // the required order of the variables of an interaction
  // ---------------------------------------------------------------------

  /** The sort key of a variable: minus its position among the keys, or the
      infinity that sorts after every position when it is not a key. */
  datatype SortKey = Rank(r: int) | Unranked

  function KeyOf(d: LatexDict, v: string): SortKey
  {
    match KeyIndex(d, v)
      case None => Unranked
      case Some(i) => Rank(-(i as int))
  }

  predicate KeyLe(a: SortKey, b: SortKey)
  {
    match (a, b)
      case (Rank(x), Rank(y)) => x <= y
      case (Rank(_), Unranked) => true
      case (Unranked, Unranked) => true
      case (Unranked, Rank(_)) => false
  }

  /** What the sort key says about two variables: `a` may precede `b` exactly
      when `b` is not a key, or both are keys and `a` comes later (or at the
      same place) in the key order. */
  lemma KeyLeMeaning(d: LatexDict, a: string, b: string)
    ensures KeyLe(KeyOf(d, a), KeyOf(d, b))
            <==> KeyIndex(d, b).None?
                 || (KeyIndex(d, a).Some? && KeyIndex(d, b).Some?
                     && KeyIndex(d, a).value >= KeyIndex(d, b).value)
  {
  }

  /** The variables already appear in the order the sort key asks for. */
  predicate InLatexOrder(d: LatexDict, vs: seq<string>)
  {
    forall i, j :: 0 <= i < j < |vs| ==> KeyLe(KeyOf(d, vs[i]), KeyOf(d, vs[j]))
  }

  /** One step of a stable insertion sort: `v` goes before the first element
      whose key is not smaller than its own. */
  function Insert(d: LatexDict, v: string, s: seq<string>): (r: seq<string>)
    ensures multiset(r) == multiset(s) + multiset{v}
  {
    if |s| == 0 then [v]
    else if KeyLe(KeyOf(d, v), KeyOf(d, s[0])) then [v] + s
    else
      assert s == [s[0]] + s[1..];
      [s[0]] + Insert(d, v, s[1..])
  }

  /** `sorted(vs, key=...)`: Python's sort is stable, and so is this one. */
  function SortByKey(d: LatexDict, vs: seq<string>): (r: seq<string>)
    ensures multiset(r) == multiset(vs)
  {
    if |vs| == 0 then []
    else
      assert vs == [vs[0]] + vs[1..];
      Insert(d, vs[0], SortByKey(d, vs[1..]))
  }

  /** Every element of `Insert(d, v, s)` is `v` or an element of `s`. */
  lemma InsertElements(d: LatexDict, v: string, s: seq<string>, x: string)
    requires x in Insert(d, v, s)
    ensures x == v || x in s
  {
    assert x in multiset(Insert(d, v, s));
  }

  lemma {:induction false} InsertInOrder(d: LatexDict, v: string, s: seq<string>)
    requires InLatexOrder(d, s)
    ensures InLatexOrder(d, Insert(d, v, s))
    decreases |s|
  {
    if |s| > 0 && !KeyLe(KeyOf(d, v), KeyOf(d, s[0])) {
      assert InLatexOrder(d, s[1..]);
      InsertInOrder(d, v, s[1..]);
      var t := Insert(d, v, s[1..]);
      forall k | 0 <= k < |t|
        ensures KeyLe(KeyOf(d, s[0]), KeyOf(d, t[k]))
      {
        InsertElements(d, v, s[1..], t[k]);
        if t[k] != v {
          var n :| 0 <= n < |s[1..]| && s[1..][n] == t[k];
          assert s[n + 1] == t[k];
        }
      }
      var r := [s[0]] + t;
      assert Insert(d, v, s) == r;
      forall i, j | 0 <= i < j < |r|
        ensures KeyLe(KeyOf(d, r[i]), KeyOf(d, r[j]))
      {
        if i > 0 {
          assert r[i] == t[i - 1] && r[j] == t[j - 1];
        } else {
          assert r[j] == t[j - 1];
        }
      }
    }
  }

  /** The sorted list is in the required order. */
  lemma {:induction false} SortByKeyInOrder(d: LatexDict, vs: seq<string>)
    ensures InLatexOrder(d, SortByKey(d, vs))
    decreases |vs|
  {
    if |vs| > 0 {
      SortByKeyInOrder(d, vs[1..]);
      InsertInOrder(d, vs[0], SortByKey(d, vs[1..]));
    }
  }

  /** Sorting a list that is already in the required order leaves it as it
      is, ties included. */
  lemma {:induction false} SortByKeyOrdered(d: LatexDict, vs: seq<string>)
    requires InLatexOrder(d, vs)
    ensures SortByKey(d, vs) == vs
    decreases |vs|
  {
    if |vs| > 0 {
      assert InLatexOrder(d, vs[1..]);
      SortByKeyOrdered(d, vs[1..]);
      if |vs| > 1 {
        assert KeyLe(KeyOf(d, vs[0]), KeyOf(d, vs[1]));
      }
      assert vs == [vs[0]] + vs[1..];
    }
  }

  /** The order check of `generate_covariate_latexdict` passes exactly when the variables are in
      the required order. */
  lemma SortByKeyFixedIff(d: LatexDict, vs: seq<string>)
    ensures SortByKey(d, vs) == vs <==> InLatexOrder(d, vs)
  {
    SortByKeyInOrder(d, vs);
    if InLatexOrder(d, vs) {
      SortByKeyOrdered(d, vs);
    }
  }

  /** The variables of `vs` whose sort key is `k`, in their order in `vs`. */
  function WithKey(d: LatexDict, vs: seq<string>, k: SortKey): (r: seq<string>)
    ensures forall i :: 0 <= i < |r| ==> KeyOf(d, r[i]) == k
  {
    if |vs| == 0 then []
    else (if KeyOf(d, vs[0]) == k then [vs[0]] else []) + WithKey(d, vs[1..], k)
  }

  /** `WithKey` of a list with a known first element. */
  lemma WithKeyCons(d: LatexDict, x: string, rest: seq<string>, k: SortKey)
    ensures WithKey(d, [x] + rest, k) == (if KeyOf(d, x) == k then [x] else []) + WithKey(d, rest, k)
  {
    assert ([x] + rest)[1..] == rest;
  }

  lemma KeyLeReflexive(a: SortKey)
    ensures KeyLe(a, a)
  {
  }

  /** Two lists of which at least one is empty commute in front of a third. */
  lemma SwapEmpty(a: seq<string>, m: seq<string>, w: seq<string>)
    requires |a| == 0 || |m| == 0
    ensures a + (m + w) == m + (a + w)
  {
    if |a| == 0 {
      assert a + (m + w) == m + w == m + (a + w);
    } else {
      assert a + (m + w) == a + w == m + (a + w);
    }
  }

  /** The step of `InsertStable` where `v` moves past a first element `x`
      whose key is smaller than its own. */
  lemma InsertPastStable(d: LatexDict, v: string, x: string, rest: seq<string>, k: SortKey)
    requires !KeyLe(KeyOf(d, v), KeyOf(d, x))
    requires WithKey(d, Insert(d, v, rest), k)
             == (if KeyOf(d, v) == k then [v] else []) + WithKey(d, rest, k)
    ensures WithKey(d, [x] + Insert(d, v, rest), k)
            == (if KeyOf(d, v) == k then [v] else []) + WithKey(d, [x] + rest, k)
  {
    var w := WithKey(d, rest, k);
    var a: seq<string> := if KeyOf(d, x) == k then [x] else [];
    var m: seq<string> := if KeyOf(d, v) == k then [v] else [];
    WithKeyCons(d, x, Insert(d, v, rest), k);
    WithKeyCons(d, x, rest, k);
    KeyLeReflexive(k);
    SwapEmpty(a, m, w);
  }

  lemma {:induction false} InsertStable(d: LatexDict, v: string, s: seq<string>, k: SortKey)
    ensures WithKey(d, Insert(d, v, s), k)
            == (if KeyOf(d, v) == k then [v] else []) + WithKey(d, s, k)
    decreases |s|
  {
    if |s| > 0 {
      var x, rest := s[0], s[1..];
      assert s == [x] + rest;
      if KeyLe(KeyOf(d, v), KeyOf(d, x)) {
        assert Insert(d, v, s) == [v] + s;
        WithKeyCons(d, v, s, k);
      } else {
        assert Insert(d, v, s) == [x] + Insert(d, v, rest);
        InsertStable(d, v, rest, k);
        InsertPastStable(d, v, x, rest, k);
      }
    }
  }

  /** Stability: variables with equal keys (in particular the variables that
      are not keys at all) keep their relative order. */
  lemma {:induction false} SortByKeyStable(d: LatexDict, vs: seq<string>, k: SortKey)
    ensures WithKey(d, SortByKey(d, vs), k) == WithKey(d, vs, k)
    decreases |vs|
  {
    if |vs| > 0 {
      SortByKeyStable(d, vs[1..], k);
      InsertStable(d, vs[0], SortByKey(d, vs[1..]), k);
    }
  }

  // ---------------------------------------------------------------------
  // checking one covariate
  // ---------------------------------------------------------------------

  /** The two assertions of `generate_covariate_latexdict`, as data: the lower-order terms that
      are missing, or the current and the required variable order. */
  datatype CovariateError =
    | MissingLowerOrder(cov: string, missing: set<string>)
    | WrongOrder(cov: string, current: seq<string>, correct: seq<string>)

  /** The lower-order terms of `vs` that are not among the covariates. */
  function MissingTerms(covs: seq<string>, vs: seq<string>): (r: set<string>)
    ensures forall x :: x in r <==>
              (exists t :: IsLowerOrderTerm(t, vs) && Join(t, ":") == x) && x !in covs
  {
    var lower := LowerOrderInteractions(vs);
    LowerOrderInteractionsAll(vs);
    set x | x in lower && x !in covs
  }

  /** What the loop body does to covariate `c` before it is renamed: `None`
      when both assertions hold (or `c` is not an interaction). */
  function CheckCovariate(d: LatexDict, covs: seq<string>, c: string): Option<CovariateError>
  {
    var vs := Split(c, ':');
    if |vs| <= 1 then None
    else
      var missing := MissingTerms(covs, vs);
      if missing != {} then Some(MissingLowerOrder(c, missing))
      else
        var correct := SortByKey(d, vs);
        if vs != correct then Some(WrongOrder(c, vs, correct))
        else None
  }

  /** What `generate_covariate_latexdict` demands of a covariate, stated without its
      algorithm: an interaction has every non-empty proper subsequence of its
      variables among the covariates, and its variables in the required
      order. */
  ghost predicate ValidCovariate(d: LatexDict, covs: seq<string>, c: string)
  {
    var vs := Split(c, ':');
    |vs| > 1 ==>
      (forall t :: IsLowerOrderTerm(t, vs) ==> Join(t, ":") in covs)
      && InLatexOrder(d, vs)
  }

  lemma LowerOrderPresentIff(covs: seq<string>, vs: seq<string>)
    ensures MissingTerms(covs, vs) == {}
            <==> forall t :: IsLowerOrderTerm(t, vs) ==> Join(t, ":") in covs
  {
    if MissingTerms(covs, vs) == {} {
      forall t | IsLowerOrderTerm(t, vs)
        ensures Join(t, ":") in covs
      {
        LowerOrderInteractionsIff(vs, Join(t, ":"));
      }
    } else {
      var x :| x in MissingTerms(covs, vs);
      LowerOrderInteractionsIff(vs, x);
      var t :| IsLowerOrderTerm(t, vs) && Join(t, ":") == x;
      assert Join(t, ":") !in covs;
    }
  }

  /** The check passes exactly for the covariates `generate_covariate_latexdict` accepts. */
  lemma CheckCovariateIff(d: LatexDict, covs: seq<string>, c: string)
    ensures CheckCovariate(d, covs, c).None? <==> ValidCovariate(d, covs, c)
  {
    var vs := Split(c, ':');
    LowerOrderPresentIff(covs, vs);
    SortByKeyFixedIff(d, vs);
  }

  /** A missing lower-order term is reported before the order is looked at. */
  lemma MissingLowerOrderFails(d: LatexDict, covs: seq<string>, c: string, t: seq<string>)
    requires IsLowerOrderTerm(t, Split(c, ':')) && Join(t, ":") !in covs
    ensures CheckCovariate(d, covs, c).Some?
    ensures CheckCovariate(d, covs, c).value.MissingLowerOrder?
    ensures Join(t, ":") in CheckCovariate(d, covs, c).value.missing
  {
    var vs := Split(c, ':');
    LowerOrderInteractionsIff(vs, Join(t, ":"));
  }

  /** With every lower-order term present, an interaction whose variables
      are out of order is reported with the order it should have had. */
  lemma OutOfOrderFails(d: LatexDict, covs: seq<string>, c: string)
    requires |Split(c, ':')| > 1
    requires forall t :: IsLowerOrderTerm(t, Split(c, ':')) ==> Join(t, ":") in covs
    requires !InLatexOrder(d, Split(c, ':'))
    ensures CheckCovariate(d, covs, c)
            == Some(WrongOrder(c, Split(c, ':'), SortByKey(d, Split(c, ':'))))
  {
    var vs := Split(c, ':');
    LowerOrderPresentIff(covs, vs);
    SortByKeyFixedIff(d, vs);
  }

  // ---------------------------------------------------------------------
  // the whole map
  // ---------------------------------------------------------------------

  /** The failure of the first covariate of `cs` that fails its check. */
  function FirstFailure(d: LatexDict, covs: seq<string>, cs: seq<string>): (r: Option<CovariateError>)
    ensures r.None? <==> forall i :: 0 <= i < |cs| ==> CheckCovariate(d, covs, cs[i]).None?
  {
    if |cs| == 0 then None
    else match CheckCovariate(d, covs, cs[0])
      case Some(e) => Some(e)
      case None =>
        var r := FirstFailure(d, covs, cs[1..]);
        assert forall i :: 1 <= i < |cs| ==> cs[i] == cs[1..][i - 1];
        r
  }

  /** The first failure is the failure of the first covariate that fails. */
  lemma {:induction false} FirstFailureAt(d: LatexDict, covs: seq<string>, cs: seq<string>, i: nat)
    requires i < |cs| && CheckCovariate(d, covs, cs[i]).Some?
    requires forall j :: 0 <= j < i ==> CheckCovariate(d, covs, cs[j]).None?
    ensures FirstFailure(d, covs, cs) == CheckCovariate(d, covs, cs[i])
    decreases i
  {
    if i > 0 {
      var t := cs[1..];
      forall j | 0 <= j < i - 1
        ensures CheckCovariate(d, covs, t[j]).None?
      {
        assert t[j] == cs[j + 1];
      }
      FirstFailureAt(d, covs, t, i - 1);
      assert t[i - 1] == cs[i];
      assert CheckCovariate(d, covs, cs[0]).None?;
    }
  }

  lemma {:induction false} FirstFailureAppend(d: LatexDict, covs: seq<string>, a: seq<string>, b: seq<string>)
    ensures FirstFailure(d, covs, a + b)
            == if FirstFailure(d, covs, a).Some? then FirstFailure(d, covs, a) else FirstFailure(d, covs, b)
    decreases |a|
  {
    if |a| > 0 {
      assert (a + b)[0] == a[0] && (a + b)[1..] == a[1..] + b;
      FirstFailureAppend(d, covs, a[1..], b);
    } else {
      assert a + b == b;
    }
  }

  /** The display names of the covariates of `cs`. */
  function DisplayNames(d: LatexDict, cs: seq<string>): (m: map<string, string>)
    ensures m.Keys == set c | c in cs
    ensures forall c :: c in m ==> m[c] == DisplayName(d, c)
  {
    map c | c in cs :: DisplayName(d, c)
  }

  lemma DisplayNamesSnoc(d: LatexDict, cs: seq<string>, c: string)
    ensures DisplayNames(d, cs + [c]) == DisplayNames(d, cs)[c := DisplayName(d, c)]
  {
  }

  /** `generate_covariate_latexdict(latexdict, cov_names)`: the first failing
      assertion, or the map from every covariate to its display name. */
  function CovariateLatexDict(d: LatexDict, covs: seq<string>): Result<map<string, string>, CovariateError>
  {
    match FirstFailure(d, covs, covs)
      case Some(e) => Err(e)
      case None => Ok(DisplayNames(d, covs))
  }

  /** The map is built exactly when every covariate is one the Python code
      accepts; it then has every covariate as a key, with its display name. */
  lemma CovariateLatexDictOkIff(d: LatexDict, covs: seq<string>)
    ensures CovariateLatexDict(d, covs).Ok?
            <==> forall i :: 0 <= i < |covs| ==> ValidCovariate(d, covs, covs[i])
    ensures CovariateLatexDict(d, covs).Ok? ==>
              CovariateLatexDict(d, covs).value.Keys == (set c | c in covs)
              && forall c :: c in covs ==> CovariateLatexDict(d, covs).value[c] == DisplayName(d, c)
  {
    forall i | 0 <= i < |covs| {
      CheckCovariateIff(d, covs, covs[i]);
    }
  }

  /** The body of the Python loop up to the renaming: the two assertions
      on an interaction term. */
  method CheckInteraction(d: LatexDict, covs: seq<string>, c: string)
    returns (e: Option<CovariateError>)
    ensures e == CheckCovariate(d, covs, c)
  {
    var vs := Split(c, ':');
    if |vs| > 1 {
      var lower := GenerateLowerOrderInteractions(vs);
      var missing := set x | x in lower && x !in covs;
      if missing != {} {
        return Some(MissingLowerOrder(c, missing));
      }
      var correct := SortByKey(d, vs);
      if vs != correct {
        return Some(WrongOrder(c, vs, correct));
      }
    }
    return None;
  }

  /** The Python loop over the covariates: check each covariate in turn, giving up at the
      first failed assertion, and record its display name. */
  method GenerateCovariateLatexDict(d: LatexDict, covs: seq<string>)
    returns (r: Result<map<string, string>, CovariateError>)
    ensures r == CovariateLatexDict(d, covs)
  {
    var m: map<string, string> := map[];
    for i := 0 to |covs|
      invariant FirstFailure(d, covs, covs[..i]) == None
      invariant m == DisplayNames(d, covs[..i])
    {
      var c := covs[i];
      var e := CheckInteraction(d, covs, c);
      assert FirstFailure(d, covs, [c]) == e;
      assert covs[..i + 1] == covs[..i] + [c];
      FirstFailureAppend(d, covs, covs[..i], [c]);
      if e.Some? {
        assert covs == covs[..i + 1] + covs[i + 1..];
        FirstFailureAppend(d, covs, covs[..i + 1], covs[i + 1..]);
        return Err(e.value);
      }
      DisplayNamesSnoc(d, covs[..i], c);
      m := m[c := DisplayName(d, c)];
    }
    assert covs[..|covs|] == covs;
    r := Ok(m);
  }
}
