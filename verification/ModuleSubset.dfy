/**
 From the value of --module-subset to the list of submodules: expanding the terms, including and
 excluding what they name, resolving dependencies, and removing what was excluded again.
 */
module ModuleSubset {
  import opened CMakeList
  import opened DependencyGraph
  import opened ModuleResolver
  import opened Results

  /** What was parsed from .gitmodules. */
  datatype Known = Known(submodules: seq<Repo>,
                         statuses: seq<string>,
                         ofStatus: map<string, seq<Repo>>,
                         paths: map<Repo, string>,
                         toRemove: seq<string>,
                         depends: map<Repo, seq<Repo>>,
                         recommends: map<Repo, seq<Repo>>)

  /** What the parser of .gitmodules makes sure of: no name in it is empty, and what is to be removed has a dash. */
  predicate ValidKnown(k: Known) {
    && "" !in k.submodules && "" !in k.statuses && "" !in k.paths
    && (forall v | v in k.toRemove :: HasDash(v))
    && forall s | s in k.ofStatus :: "" !in k.ofStatus[s]
  }

  /** And that there is a module, for every status too. */
  predicate HasModules(k: Known) {
    k.submodules != [] && forall s | s in k.statuses :: s in k.ofStatus && k.ofStatus[s] != []
  }

  predicate HasDash(term: string) {
    term != "" && term[0] == '-'
  }

  function NameOf(term: string): string {
    if HasDash(term) then term[1..] else term
  }

  const DEFAULT_STATUSES: seq<string> := ["preview", "essential", "addon", "deprecated"]

  function WithDashes(names: seq<string>): (r: seq<string>)
    ensures |r| == |names| && forall i | 0 <= i < |names| :: r[i] == "-" + names[i]
  {
    seq(|names|, i requires 0 <= i < |names| => "-" + names[i])
  }

  // ----- expanding the keywords -----

  /** What one term of the subset is replaced by. */
  function Replacement(term: string, already: seq<Repo>): Result<seq<string>> {
    var names := if NameOf(term) == "default" then DEFAULT_STATUSES
                 else if NameOf(term) == "existing" then already
                 else Canonical([NameOf(term)]);
    if NameOf(term) == "existing" && HasDash(term) then Fatal("Excluding existing submodules is not supported")
    else Ok(if HasDash(term) then WithDashes(names) else names)
  }

  function Expanded(terms: seq<string>, already: seq<Repo>): Result<seq<string>> {
    if terms == [] then Ok([])
    else
      var init := Expanded(terms[..|terms| - 1], already);
      var last := Replacement(terms[|terms| - 1], already);
      if init.Fatal? then init
      else if last.Fatal? then last
      else Ok(AppendQuoted(init.value, last.value))
  }

  method ExpandTerms(terms: seq<string>, already: seq<Repo>) returns (r: Result<seq<string>>)
    ensures r == Expanded(terms, already)
  {
    var expanded := [];
    var i := 0;
    while i < |terms|
      invariant 0 <= i <= |terms|
      invariant Expanded(terms[..i], already) == Ok(expanded)
    {
      assert terms[..i + 1][..i] == terms[..i];
      var replacement := Replacement(terms[i], already);
      if replacement.Fatal? {
        ExpandedStaysFatal(terms, already, i + 1);
        return replacement;
      }
      expanded := AppendQuoted(expanded, replacement.value);
      i := i + 1;
    }
    assert terms[..i] == terms;
    return Ok(expanded);
  }

  lemma {:induction false} ExpandedStaysFatal(terms: seq<string>, already: seq<Repo>, i: nat)
    requires i <= |terms| && Expanded(terms[..i], already).Fatal?
    ensures Expanded(terms, already) == Expanded(terms[..i], already)
    decreases |terms|
  {
    if i == |terms| {
      assert terms[..i] == terms;
    } else {
      var init := terms[..|terms| - 1];
      assert init[..i] == terms[..i];
      ExpandedStaysFatal(init, already, i);
    }
  }

  // ----- including and excluding -----

  /** The modules a name stands for; none when it is not known. */
  function MembersOf(k: Known, name: string): Option<seq<Repo>> {
    if name == "all" then Some(k.submodules)
    else if name in k.statuses then Some(Listed(k.ofStatus, name))
    else if name in k.paths && k.paths[name] != "" then Some([name])
    else None
  }

  /** The include list and the exclude list. */
  datatype Lists = Lists(included: seq<Repo>, excluded: seq<Repo>)

  /** The lists after one more value. */
  function Handle(k: Known, l: Lists, term: string): Result<Lists> {
    match MembersOf(k, NameOf(term))
    case None => if HasDash(term) then Ok(l) else Fatal("Invalid module subset specified")
    case Some(ms) =>
      if HasDash(term) then Ok(Lists(RemoveQuoted(l.included, ms), AppendQuoted(l.excluded, ms)))
      else Ok(l.(included := AppendQuoted(l.included, ms)))
  }

  function HandleAll(k: Known, l: Lists, terms: seq<string>): Result<Lists> {
    if terms == [] then Ok(l)
    else
      var init := HandleAll(k, l, terms[..|terms| - 1]);
      if init.Fatal? then init else Handle(k, init.value, terms[|terms| - 1])
  }

  lemma {:induction false} HandleStaysFatal(k: Known, l: Lists, terms: seq<string>, i: nat)
    requires i <= |terms| && HandleAll(k, l, terms[..i]).Fatal?
    ensures HandleAll(k, l, terms) == HandleAll(k, l, terms[..i])
    decreases |terms|
  {
    if i == |terms| {
      assert terms[..i] == terms;
    } else {
      var init := terms[..|terms| - 1];
      assert init[..i] == terms[..i];
      HandleStaysFatal(k, l, init, i);
    }
  }

  lemma HandleAllUnfolds(k: Known, l: Lists, init: seq<string>, last: string)
    ensures HandleAll(k, l, []) == Ok(l)
    ensures HandleAll(k, l, init).Ok? ==> HandleAll(k, l, init + [last]) == Handle(k, HandleAll(k, l, init).value, last)
  {
    assert (init + [last])[..|init|] == init;
  }

  /** The subset to use when none was given. */
  function TermsOf(subset: string, initializedBefore: bool, already: seq<Repo>): seq<string> {
    if !FalsyList(Split(subset, ',')) then Split(subset, ',')
    else if initializedBefore && !FalsyList(already) then ["existing"]
    else ["default"]
  }

  function Processed(k: Known, subset: string, initializedBefore: bool, already: seq<Repo>, extra: seq<Repo>): Result<Lists> {
    var expanded := Expanded(TermsOf(subset, initializedBefore, already), already);
    if expanded.Fatal? then Fatal(expanded.message)
    else HandleAll(k, Lists(if FalsyList(extra) then [] else extra, []), expanded.value + k.toRemove)
  }

  method ProcessSubset(k: Known, subset: string, initializedBefore: bool, already: seq<Repo>, extra: seq<Repo>)
    returns (r: Result<Lists>)
    ensures r == Processed(k, subset, initializedBefore, already, extra)
  {
    var terms := Split(subset, ',');
    if FalsyList(terms) {
      terms := if initializedBefore && !FalsyList(already) then ["existing"] else ["default"];
    }
    var expanded := ExpandTerms(terms, already);
    if expanded.Fatal? {
      return Fatal(expanded.message);
    }
    var included := [];
    if !FalsyList(extra) {
      included := extra;
    }
    r := HandleValues(k, included, expanded.value + k.toRemove);
  }

  /** The loop over the values: includes, and excludes, what each of them means. */
  method HandleValues(k: Known, start: seq<Repo>, values: seq<string>) returns (r: Result<Lists>)
    ensures r == HandleAll(k, Lists(start, []), values)
  {
    var included, excluded, i := start, [], 0;
    HandleAllUnfolds(k, Lists(start, []), [], "");
    hide HandleAll, MembersOf, AppendQuoted, RemoveQuoted;
    while i < |values|
      invariant 0 <= i <= |values|
      invariant HandleAll(k, Lists(start, []), values[..i]) == Ok(Lists(included, excluded))
    {
      HandleAllUnfolds(k, Lists(start, []), values[..i], values[i]);
      assert values[..i] + [values[i]] == values[..i + 1];
      var remove, ms := HasDash(values[i]), MembersOf(k, NameOf(values[i]));
      if ms.None? && !remove {
        HandleStaysFatal(k, Lists(start, []), values, i + 1);
        return Fatal("Invalid module subset specified");
      } else if ms.Some? && remove {
        included := RemoveQuoted(included, ms.value);
        excluded := AppendQuoted(excluded, ms.value);
      } else if ms.Some? {
        included := AppendQuoted(included, ms.value);
      }
      i := i + 1;
    }
    assert values[..i] == values;
    return Ok(Lists(included, excluded));
  }

  // ----- the final list -----

  /** Removes what was excluded, and then the repeated modules. */
  function Final(modules: seq<Repo>, excluded: seq<Repo>): seq<Repo> {
    RemoveDuplicates(if FalsyList(excluded) then modules else RemoveItems(modules, excluded))
  }

  /** The graph of the .gitmodules dependencies in which the included modules are resolved. */
  function SubsetGraph(k: Known, optionalDeps: bool, dirs: set<Repo>, included: seq<Repo>): Graph {
    GraphOf(Gitmodules(k.depends, k.recommends), Options(!optionalDeps, true, dirs), ALL, Some(Selected(included)))
  }

  function WithDeps(g: Graph): seq<Repo> {
    Names(Walk(g, {}, {ALL}, Out(g, ALL)).ordered)
  }

  /** Its edges, from .gitmodules: what a module depends on, and what it recommends if optional dependencies count. */
  lemma SubsetEdges(k: Known, optionalDeps: bool, dirs: set<Repo>, included: seq<Repo>, m: Repo, v: Repo)
    requires m != ALL
    ensures HasEdge(SubsetGraph(k, optionalDeps, dirs, included), m, v) <==>
            || (m in k.depends && exists n | n in k.depends[m] :: !Falsy(n) && StandsFor(dirs, n, v))
            || (optionalDeps && m in k.recommends && exists n | n in k.recommends[m] :: !Falsy(n) && StandsFor(dirs, n, v))
  {
    var o, out := Options(!optionalDeps, true, dirs), Out(SubsetGraph(k, optionalDeps, dirs, included), m);
    GitmodulesEdges(k.depends, k.recommends, o, ALL, Selected(included), m, Dep(v, "HEAD", true));
    GitmodulesEdges(k.depends, k.recommends, o, ALL, Selected(included), m, Dep(v, "HEAD", false));
    hide GraphOf, StandsFor, Falsy;
    if d :| d in out && d.name == v {
      GitmodulesEdges(k.depends, k.recommends, o, ALL, Selected(included), m, d);
    }
  }

  /** The submodules of the top-level repository. */
  method GetSubmodules(k: Known, subset: string, initializedBefore: bool, already: seq<Repo>, extra: seq<Repo>,
                       resolveDeps: bool, optionalDeps: bool, dirs: set<Repo>)
    returns (r: Result<seq<Repo>>)
    ensures var lists := Processed(k, subset, initializedBefore, already, extra);
            r == if lists.Fatal? then Fatal(lists.message)
                 else Ok(Final(if resolveDeps then WithDeps(SubsetGraph(k, optionalDeps, dirs, lists.value.included))
                               else lists.value.included, lists.value.excluded))
  {
    var lists := ProcessSubset(k, subset, initializedBefore, already, extra);
    if lists.Fatal? {
      return Fatal(lists.message);
    }
    var modules := lists.value.included;
    if resolveDeps {
      ghost var g := SubsetGraph(k, optionalDeps, dirs, modules);
      var resolver := new Resolver(Gitmodules(k.depends, k.recommends), Options(!optionalDeps, true, dirs), {});
      var sorted := resolver.Sort(modules, g);
      modules := sorted.value;
    }
    if !FalsyList(lists.value.excluded) {
      modules := RemoveItems(modules, lists.value.excluded);
    }
    return Ok(RemoveDuplicates(modules));
  }

  // ----- exclusion holds, whatever the order -----

  lemma {:induction false} ExclusionIsKept(k: Known, l: Lists, terms: seq<string>, i: nat, m: Repo)
    requires HandleAll(k, l, terms).Ok? && i < |terms| && HasDash(terms[i]) && m != ""
    requires MembersOf(k, NameOf(terms[i])).Some? && m in MembersOf(k, NameOf(terms[i])).value
    ensures m in HandleAll(k, l, terms).value.excluded
    decreases |terms|
  {
    var last := |terms| - 1;
    var before := HandleAll(k, l, terms[..last]).value;
    if i < last {
      assert terms[..last][i] == terms[i];
      ExclusionIsKept(k, l, terms[..last], i, m);
    }
    if MembersOf(k, NameOf(terms[last])).Some? {
      InAppendQuoted(before.excluded, MembersOf(k, NameOf(terms[last])).value, m);
    }
  }

  lemma ExpandedUnfolds(init: seq<string>, last: string, already: seq<Repo>)
    ensures Expanded([], already) == Ok([])
    ensures Expanded(init + [last], already).Ok? ==>
              && Expanded(init, already).Ok? && Replacement(last, already).Ok?
              && Expanded(init + [last], already).value ==
                 AppendQuoted(Expanded(init, already).value, Replacement(last, already).value)
  {
    assert (init + [last])[..|init|] == init;
  }

  /** What a term of the subset expands to ends up among the values. */
  lemma {:induction false} ExpansionIsKept(terms: seq<string>, already: seq<Repo>, i: nat, x: string)
    requires Expanded(terms, already).Ok? && i < |terms|
    ensures Replacement(terms[i], already).Ok?
    ensures x != "" && x in Replacement(terms[i], already).value ==> x in Expanded(terms, already).value
    decreases |terms|
  {
    hide Expanded, Replacement, AppendQuoted;
    var last := |terms| - 1;
    var init := terms[..last];
    assert init + [terms[last]] == terms;
    ExpandedUnfolds(init, terms[last], already);
    if i < last {
      assert init[i] == terms[i];
      ExpansionIsKept(init, already, i, x);
    }
    if x != "" {
      InAppendQuoted(Expanded(init, already).value, Replacement(terms[last], already).value, x);
    }
  }

  /** An exclusion is replaced by exclusions. */
  lemma ReplacementExcludes(term: string, already: seq<Repo>, name: string)
    requires HasDash(term) && Replacement(term, already).Ok? && name != ""
    requires if NameOf(term) == "default" then name in DEFAULT_STATUSES else name == NameOf(term)
    ensures "-" + name in Replacement(term, already).value
  {
    var names := if NameOf(term) == "default" then DEFAULT_STATUSES else [name];
    var j :| 0 <= j < |names| && names[j] == name;
    assert WithDashes(names)[j] == "-" + name;
  }

  /** `m` is named, or implied, by the exclusion of `name`. */
  predicate Excludes(k: Known, name: string, m: Repo) {
    if name == "default" then exists s | s in DEFAULT_STATUSES :: Means(k, s, m) else Means(k, name, m)
  }

  predicate Means(k: Known, name: string, m: Repo) {
    MembersOf(k, name).Some? && m in MembersOf(k, name).value
  }

  lemma NoEmptyNames(k: Known, name: string, m: Repo)
    requires ValidKnown(k) && Means(k, name, m)
    ensures name != "" && m != ""
  {
  }

  /** A module excluded by any term, wherever it stands, is in the exclude list. */
  lemma TermExcludes(k: Known, subset: string, initializedBefore: bool, already: seq<Repo>, extra: seq<Repo>,
                     i: nat, m: Repo)
    requires ValidKnown(k) && Processed(k, subset, initializedBefore, already, extra).Ok?
    requires var terms := TermsOf(subset, initializedBefore, already);
             i < |terms| && HasDash(terms[i]) && Excludes(k, NameOf(terms[i]), m)
    ensures m in Processed(k, subset, initializedBefore, already, extra).value.excluded
  {
    var terms := TermsOf(subset, initializedBefore, already);
    var expanded := Expanded(terms, already).value;
    var name := NameOf(terms[i]);
    if name == "default" {
      name :| name in DEFAULT_STATUSES && Means(k, name, m);
    }
    NoEmptyNames(k, name, m);
    ExpansionIsKept(terms, already, i, "-" + name);
    ReplacementExcludes(terms[i], already, name);
    ValueExcludes(k, Lists(if FalsyList(extra) then [] else extra, []), expanded + k.toRemove, name, m);
  }

  lemma ValueExcludes(k: Known, start: Lists, values: seq<string>, name: string, m: Repo)
    requires HandleAll(k, start, values).Ok? && "-" + name in values && m != "" && Means(k, name, m)
    ensures m in HandleAll(k, start, values).value.excluded
  {
    var v :| 0 <= v < |values| && values[v] == "-" + name;
    assert NameOf(values[v]) == name;
    ExclusionIsKept(k, start, values, v, m);
  }

  /** So is a module whose .gitmodules entry says `update = none`. */
  lemma UpdateNoneExcludes(k: Known, subset: string, initializedBefore: bool, already: seq<Repo>, extra: seq<Repo>, m: Repo)
    requires ValidKnown(k) && Processed(k, subset, initializedBefore, already, extra).Ok?
    requires "-" + m in k.toRemove && Means(k, m, m)
    ensures m in Processed(k, subset, initializedBefore, already, extra).value.excluded
  {
    NoEmptyNames(k, m, m);
    var expanded := Expanded(TermsOf(subset, initializedBefore, already), already).value;
    ValueExcludes(k, Lists(if FalsyList(extra) then [] else extra, []), expanded + k.toRemove, m, m);
  }

  // ----- what is included, exactly -----

  /** One of `values` includes, or one excludes, `m`. */
  predicate SomeIncludes(k: Known, values: seq<string>, m: Repo) {
    exists v | v in values :: !HasDash(v) && Means(k, v, m)
  }

  predicate SomeExcludes(k: Known, values: seq<string>, m: Repo) {
    exists v | v in values :: HasDash(v) && Means(k, NameOf(v), m)
  }

  /** Removing a quoted list leaves what is not in it. */
  lemma RemoveQuotedKeeps(l: seq<string>, items: seq<string>, x: string)
    requires x != "" && x !in items
    ensures x in RemoveQuoted(l, items) <==> x in l
  {
    if |items| < 2 { InRemoveItems(l, if items == [] then [""] else items, x); }
  }

  lemma SomeOfMore(k: Known, init: seq<string>, last: string, m: Repo)
    ensures SomeIncludes(k, init + [last], m) <==> SomeIncludes(k, init, m) || (!HasDash(last) && Means(k, last, m))
    ensures SomeExcludes(k, init + [last], m) <==> SomeExcludes(k, init, m) || (HasDash(last) && Means(k, NameOf(last), m))
  {
    hide HasDash, Means, NameOf;
    assert forall v :: v in init + [last] <==> v in init || v == last;
  }

  /** The two lists after the loop: excluded is what some value excludes, and of the rest included is what some value includes. */
  lemma {:induction false} ListsExactly(k: Known, start: seq<Repo>, values: seq<string>, m: Repo)
    requires m != "" && HandleAll(k, Lists(start, []), values).Ok?
    ensures var r := HandleAll(k, Lists(start, []), values).value;
            && (m in r.excluded <==> SomeExcludes(k, values, m))
            && (m !in r.excluded ==> (m in r.included <==> m in start || SomeIncludes(k, values, m)))
    decreases |values|
  {
    var l := Lists(start, []);
    if values == [] {
      HandleAllUnfolds(k, l, [], "");
    } else {
      var init, last := values[..|values| - 1], values[|values| - 1];
      assert values == init + [last];
      SomeOfMore(k, init, last, m);
      ListsExactly(k, start, init, m);
      HandleAllUnfolds(k, l, init, last);
      var before, members := HandleAll(k, l, init).value, MembersOf(k, NameOf(last));
      hide HandleAll, SomeIncludes, SomeExcludes, MembersOf, AppendQuoted, RemoveQuoted;
      if members.Some? {
        InAppendQuoted(before.excluded, members.value, m);
        InAppendQuoted(before.included, members.value, m);
        if m !in members.value { RemoveQuotedKeeps(before.included, members.value, m); }
      }
    }
  }

  /** `m` is named, or implied, by the including term `name`. */
  predicate Includes(k: Known, already: seq<Repo>, name: string, m: Repo) {
    if name == "default" then exists s | s in DEFAULT_STATUSES :: Means(k, s, m)
    else if name == "existing" then exists a | a in already :: Means(k, a, m)
    else Means(k, name, m)
  }

  /** A term expands to values that include, or exclude, what it does. */
  lemma ReplacementMeans(k: Known, term: string, already: seq<Repo>, m: Repo)
    requires ValidKnown(k) && Replacement(term, already).Ok? && forall a | a in already :: !HasDash(a)
    ensures var values := Replacement(term, already).value;
            && (SomeIncludes(k, values, m) <==> !HasDash(term) && Includes(k, already, term, m))
            && (SomeExcludes(k, values, m) <==> HasDash(term) && Excludes(k, NameOf(term), m))
  {
    var name := NameOf(term);
    var names := if name == "default" then DEFAULT_STATUSES else if name == "existing" then already else Canonical([name]);
    if name == "" { NothingMeansNothing(k, m); }
    if HasDash(term) {
      DashedNames(k, names, m);
    } else {
      assert forall n | n in names :: !HasDash(n);
    }
  }

  lemma NothingMeansNothing(k: Known, m: Repo)
    requires ValidKnown(k)
    ensures !Means(k, "", m)
  {
  }

  lemma DashedNames(k: Known, names: seq<string>, m: Repo)
    ensures SomeExcludes(k, WithDashes(names), m) <==> exists n | n in names :: Means(k, n, m)
    ensures !SomeIncludes(k, WithDashes(names), m)
  {
    hide Means;
    var dashed := WithDashes(names);
    forall i | 0 <= i < |names|
      ensures dashed[i] in dashed && HasDash(dashed[i]) && NameOf(dashed[i]) == names[i]
    {
    }
  }

  lemma SomeOfQuoted(k: Known, init: seq<string>, last: seq<string>, m: Repo)
    requires ValidKnown(k)
    ensures SomeIncludes(k, AppendQuoted(init, last), m) <==> SomeIncludes(k, init, m) || SomeIncludes(k, last, m)
    ensures SomeExcludes(k, AppendQuoted(init, last), m) <==> SomeExcludes(k, init, m) || SomeExcludes(k, last, m)
  {
    NothingMeansNothing(k, m);
    hide Means, NameOf, AppendQuoted;
    forall v | v != ""
      ensures v in AppendQuoted(init, last) <==> v in init || v in last
    {
      InAppendQuoted(init, last, v);
    }
  }

  /** So do all terms together. */
  lemma {:induction false} ExpandedMeans(k: Known, terms: seq<string>, already: seq<Repo>, m: Repo)
    requires ValidKnown(k) && Expanded(terms, already).Ok? && forall a | a in already :: !HasDash(a)
    ensures var values := Expanded(terms, already).value;
            && (SomeIncludes(k, values, m) <==> exists t | t in terms :: !HasDash(t) && Includes(k, already, t, m))
            && (SomeExcludes(k, values, m) <==> exists t | t in terms :: HasDash(t) && Excludes(k, NameOf(t), m))
    decreases |terms|
  {
    hide Expanded, SomeIncludes, SomeExcludes, Includes, Excludes, Replacement, ValidKnown;
    if terms == [] {
      ExpandedUnfolds([], "", already);
      NoneOfNothing(k, m);
    } else {
      var init, last := terms[..|terms| - 1], terms[|terms| - 1];
      assert terms == init + [last];
      ExpandedUnfolds(init, last, already);
      ExpandedMeans(k, init, already, m);
      ReplacementMeans(k, last, already, m);
      SomeOfQuoted(k, Expanded(init, already).value, Replacement(last, already).value, m);
      assert forall t :: t in terms <==> t in init || t == last;
    }
  }

  lemma NoneOfNothing(k: Known, m: Repo)
    ensures !SomeIncludes(k, [], m) && !SomeExcludes(k, [], m)
  {
  }

  /**
   What a subset means, whatever the order of its terms: excluded is exactly what some excluding term
   or an `update = none` names or implies; of everything else, included is exactly what is included
   implicitly or by some including term.
   */
  lemma SubsetExactly(k: Known, subset: string, initializedBefore: bool, already: seq<Repo>, extra: seq<Repo>, m: Repo)
    requires ValidKnown(k) && m != "" && (forall a | a in already :: !HasDash(a))
    requires Processed(k, subset, initializedBefore, already, extra).Ok?
    ensures var terms := TermsOf(subset, initializedBefore, already);
            var r := Processed(k, subset, initializedBefore, already, extra).value;
            && (m in r.excluded <==>
                || (exists t | t in terms :: HasDash(t) && Excludes(k, NameOf(t), m))
                || SomeExcludes(k, k.toRemove, m))
            && (m !in r.excluded ==>
                (m in r.included <==>
                 || (!FalsyList(extra) && m in extra)
                 || exists t | t in terms :: !HasDash(t) && Includes(k, already, t, m)))
  {
    var terms := TermsOf(subset, initializedBefore, already);
    var expanded, start := Expanded(terms, already).value, if FalsyList(extra) then [] else extra;
    ExpandedMeans(k, terms, already, m);
    ListsExactly(k, start, expanded + k.toRemove, m);
    SomeOfBoth(k, expanded, m);
    hide Expanded, SomeIncludes, SomeExcludes, Includes, Excludes, HandleAll, FalsyList, TermsOf;
  }

  /** The evaluation fails exactly when a value that includes is not known. */
  lemma {:induction false} FailsExactly(k: Known, l: Lists, values: seq<string>)
    ensures HandleAll(k, l, values).Fatal? <==> exists v | v in values :: !HasDash(v) && MembersOf(k, v).None?
    decreases |values|
  {
    hide MembersOf, AppendQuoted, RemoveQuoted;
    if values != [] {
      var init, last := values[..|values| - 1], values[|values| - 1];
      assert values == init + [last];
      FailsExactly(k, l, init);
      assert forall v :: v in values <==> v in init || v == last;
    }
  }

  /** The term expands to nothing. */
  predicate Vanishes(already: seq<Repo>, term: string) {
    term == "" || term == "-" || (term == "existing" && already == [])
  }

  /** A term that expands to nothing stands behind one that does not. */
  predicate LeavesEmpty(already: seq<Repo>, terms: seq<string>) {
    exists i, j | 0 <= i < j < |terms| :: !Vanishes(already, terms[i]) && Vanishes(already, terms[j])
  }

  lemma ReplacementEmpty(term: string, already: seq<Repo>)
    requires "" !in already && Replacement(term, already).Ok?
    ensures Replacement(term, already).value == [] <==> Vanishes(already, term)
    ensures "" !in Replacement(term, already).value
  {
    var name := NameOf(term);
    assert term == name || term == "-" + name;
    var names := if name == "default" then DEFAULT_STATUSES else if name == "existing" then already else Canonical([name]);
    assert "" !in names;
    assert "" !in WithDashes(names);
  }

  lemma LeavesEmptyUnfolds(already: seq<Repo>, init: seq<string>, last: string)
    ensures LeavesEmpty(already, init + [last]) <==>
      LeavesEmpty(already, init) || (Vanishes(already, last) && exists i | 0 <= i < |init| :: !Vanishes(already, init[i]))
  {
    hide Vanishes;
    var terms := init + [last];
    assert forall i | 0 <= i < |init| :: terms[i] == init[i];
    assert terms[|init|] == last;
  }

  /** The expansion fails on `-existing` alone, and has an empty element exactly if a term vanishes behind one that does not. */
  lemma {:induction false} EmptyElementExactly(terms: seq<string>, already: seq<Repo>)
    requires "" !in already
    ensures Expanded(terms, already).Fatal? <==> "-existing" in terms
    ensures Expanded(terms, already).Ok? ==>
              && (Expanded(terms, already).value == [] <==> forall i | 0 <= i < |terms| :: Vanishes(already, terms[i]))
              && ("" in Expanded(terms, already).value <==> LeavesEmpty(already, terms))
    decreases |terms|
  {
    if terms != [] {
      var init, last := terms[..|terms| - 1], terms[|terms| - 1];
      assert terms == init + [last];
      EmptyElementExactly(init, already);
      OnlyExisting(last, already);
      assert "-existing" in terms <==> "-existing" in init || last == "-existing";
      if "-existing" !in terms {
        ReplacementEmpty(last, already);
        hide Vanishes, Replacement;
        LeavesEmptyUnfolds(already, init, last);
        AppendEmpty(Expanded(init, already).value, Replacement(last, already).value);
        assert forall i | 0 <= i < |init| :: terms[i] == init[i];
      }
    }
  }

  lemma OnlyExisting(term: string, already: seq<Repo>)
    ensures Replacement(term, already).Fatal? <==> term == "-existing"
  {
    assert HasDash(term) ==> term == "-" + NameOf(term);
  }

  lemma AppendEmpty(l: seq<string>, more: seq<string>)
    requires "" !in more
    ensures AppendQuoted(l, more) == [] <==> l == [] && more == []
    ensures "" in AppendQuoted(l, more) <==> ("" in l && l + more != [""]) || (l != [] && more == [])
  {
    var r := l + if more == [] then [""] else more;
    assert "" in r <==> "" in l || more == [];
    assert more != [] ==> r == l + more && more[0] in r;
  }

  /** An including term, or one of the names it stands for, is not known. */
  predicate IncludesUnknown(k: Known, already: seq<Repo>, term: string) {
    && !HasDash(term) && term != ""
    && if term == "default" then exists s | s in DEFAULT_STATUSES :: MembersOf(k, s).None?
       else if term == "existing" then exists a | a in already :: MembersOf(k, a).None?
       else MembersOf(k, term).None?
  }

  predicate SomeUnknown(k: Known, values: seq<string>) {
    exists v | v in values :: v != "" && !HasDash(v) && MembersOf(k, v).None?
  }

  lemma ReplacementUnknown(k: Known, term: string, already: seq<Repo>)
    requires Replacement(term, already).Ok? && "" !in already && forall a | a in already :: !HasDash(a)
    ensures SomeUnknown(k, Replacement(term, already).value) <==> IncludesUnknown(k, already, term)
  {
    var values := Replacement(term, already).value;
    hide MembersOf;
    if HasDash(term) {
      assert forall v | v in values :: HasDash(v);
    }
  }

  lemma SomeUnknownOfQuoted(k: Known, init: seq<string>, last: seq<string>)
    ensures SomeUnknown(k, AppendQuoted(init, last)) <==> SomeUnknown(k, init) || SomeUnknown(k, last)
  {
    hide MembersOf, HasDash, AppendQuoted;
    forall v | v != ""
      ensures v in AppendQuoted(init, last) <==> v in init || v in last
    {
      InAppendQuoted(init, last, v);
    }
  }

  lemma {:induction false} ExpandedUnknown(k: Known, terms: seq<string>, already: seq<Repo>)
    requires Expanded(terms, already).Ok? && "" !in already && forall a | a in already :: !HasDash(a)
    ensures SomeUnknown(k, Expanded(terms, already).value) <==> exists t | t in terms :: IncludesUnknown(k, already, t)
    decreases |terms|
  {
    hide Expanded, SomeUnknown, IncludesUnknown, Replacement;
    if terms == [] {
      ExpandedUnfolds([], "", already);
      NoneUnknown(k);
    } else {
      var init, last := terms[..|terms| - 1], terms[|terms| - 1];
      assert terms == init + [last];
      ExpandedUnfolds(init, last, already);
      ExpandedUnknown(k, init, already);
      ReplacementUnknown(k, last, already);
      SomeUnknownOfQuoted(k, Expanded(init, already).value, Replacement(last, already).value);
      assert forall t :: t in terms <==> t in init || t == last;
    }
  }

  lemma NoneUnknown(k: Known)
    ensures !SomeUnknown(k, [])
  {
  }

  /**
   When a subset is an error: exactly if it excludes `existing`, includes a name that is not known, or
   has a term that expands to nothing, like `existing` when nothing was initialized before, behind a
   term that does not.
   */
  lemma SubsetFailsExactly(k: Known, subset: string, initializedBefore: bool, already: seq<Repo>, extra: seq<Repo>)
    requires ValidKnown(k) && "" !in already && forall a | a in already :: !HasDash(a)
    ensures var terms := TermsOf(subset, initializedBefore, already);
            Processed(k, subset, initializedBefore, already, extra).Fatal? <==>
            || "-existing" in terms
            || LeavesEmpty(already, terms)
            || exists t | t in terms :: IncludesUnknown(k, already, t)
  {
    var terms := TermsOf(subset, initializedBefore, already);
    EmptyElementExactly(terms, already);
    hide TermsOf, Expanded, LeavesEmpty, IncludesUnknown, HandleAll;
    if "-existing" !in terms {
      var values := Expanded(terms, already).value;
      ExpandedUnknown(k, terms, already);
      FailsExactly(k, Lists(if FalsyList(extra) then [] else extra, []), values + k.toRemove);
      UnknownOrEmpty(k, values);
    }
  }

  lemma UnknownOrEmpty(k: Known, values: seq<string>)
    requires ValidKnown(k)
    ensures (exists v | v in values + k.toRemove :: !HasDash(v) && MembersOf(k, v).None?)
            <==> "" in values || SomeUnknown(k, values)
  {
    assert MembersOf(k, "").None? && !HasDash("");
    hide MembersOf, HasDash;
    assert forall v :: v in values + k.toRemove <==> v in values || v in k.toRemove;
  }

  lemma SomeOfBoth(k: Known, values: seq<string>, m: Repo)
    requires ValidKnown(k)
    ensures SomeIncludes(k, values + k.toRemove, m) <==> SomeIncludes(k, values, m)
    ensures SomeExcludes(k, values + k.toRemove, m) <==> SomeExcludes(k, values, m) || SomeExcludes(k, k.toRemove, m)
  {
    hide HasDash, Means, NameOf;
    assert forall v :: v in values + k.toRemove <==> v in values || v in k.toRemove;
  }

  // ----- what stays included, exactly -----

  /** An exclusion takes out of the include list only what is the one module it stands for. */
  predicate Removes(k: Known, value: string, m: Repo) {
    HasDash(value) && MembersOf(k, NameOf(value)) == Some([m])
  }

  /** Whether `m` is in the include list after these values, if it was there or not at the start. */
  predicate Stays(k: Known, had: bool, values: seq<string>, m: Repo) {
    if values == [] then had
    else
      var last := values[|values| - 1];
      !Removes(k, last, m) && ((!HasDash(last) && Means(k, last, m)) || Stays(k, had, values[..|values| - 1], m))
  }

  lemma RemoveQuotedExact(l: seq<string>, items: seq<string>, m: string)
    requires m != ""
    ensures m in RemoveQuoted(l, items) <==> m in l && items != [m]
  {
    if |items| < 2 { InRemoveItems(l, if items == [] then [""] else items, m); }
  }

  lemma {:induction false} IncludedStays(k: Known, start: seq<Repo>, values: seq<string>, m: Repo)
    requires m != "" && HandleAll(k, Lists(start, []), values).Ok?
    ensures m in HandleAll(k, Lists(start, []), values).value.included <==> Stays(k, m in start, values, m)
    decreases |values|
  {
    var l := Lists(start, []);
    if values == [] {
      HandleAllUnfolds(k, l, [], "");
    } else {
      var init, last := values[..|values| - 1], values[|values| - 1];
      assert values == init + [last];
      IncludedStays(k, start, init, m);
      HandleAllUnfolds(k, l, init, last);
      var before, members := HandleAll(k, l, init).value, MembersOf(k, NameOf(last));
      hide HandleAll, MembersOf, AppendQuoted, RemoveQuoted;
      if members.Some? {
        InAppendQuoted(before.included, members.value, m);
        RemoveQuotedExact(before.included, members.value, m);
      }
    }
  }

  /** One of the first entries, or of the including values, gives `m`, and nothing behind it removes it. */
  predicate GivenLast(k: Known, had: bool, values: seq<string>, m: Repo) {
    || (had && forall j | 0 <= j < |values| :: !Removes(k, values[j], m))
    || exists i | 0 <= i < |values| ::
         !HasDash(values[i]) && Means(k, values[i], m) && forall j | i < j < |values| :: !Removes(k, values[j], m)
  }

  lemma {:induction false} StaysExactly(k: Known, had: bool, values: seq<string>, m: Repo)
    ensures Stays(k, had, values, m) <==> GivenLast(k, had, values, m)
    decreases |values|
  {
    hide Removes, Means, HasDash;
    if values != [] {
      var n := |values| - 1;
      var init := values[..n];
      StaysExactly(k, had, init, m);
      assert forall j | 0 <= j < n :: init[j] == values[j];
      assert !HasDash(values[n]) ==> !Removes(k, values[n], m) by { DashRemoves(k, values[n], m); }
      if GivenLast(k, had, init, m) && !Removes(k, values[n], m) {
        if !had || exists j | 0 <= j < n :: Removes(k, init[j], m) {
          var i :| 0 <= i < n && !HasDash(init[i]) && Means(k, init[i], m) && forall j | i < j < n :: !Removes(k, init[j], m);
          assert !HasDash(values[i]) && Means(k, values[i], m);
        }
      }
    }
  }

  lemma DashRemoves(k: Known, value: string, m: Repo)
    ensures Removes(k, value, m) ==> HasDash(value)
  {
  }

  /**
   The include list, exactly: a module is in it if and only if something gives it, and no exclusion
   behind that stands for it alone. So the order of the terms matters.
   */
  lemma IncludedExactly(k: Known, start: seq<Repo>, values: seq<string>, m: Repo)
    requires m != "" && HandleAll(k, Lists(start, []), values).Ok?
    ensures m in HandleAll(k, Lists(start, []), values).value.included <==> GivenLast(k, m in start, values, m)
  {
    IncludedStays(k, start, values, m);
    StaysExactly(k, m in start, values, m);
  }

  /** Excluding a module before its status leaves it in the include list; excluding it afterwards does not. */
  lemma OrderMatters(k: Known, m: Repo, status: string)
    requires m != "" && MembersOf(k, m) == Some([m]) && !HasDash(status) && Means(k, status, m)
    ensures var before := HandleAll(k, Lists([], []), ["-" + m, status]);
            && before.Ok? && m in before.value.included && m in before.value.excluded
    ensures var after := HandleAll(k, Lists([], []), [status, "-" + m]);
            && after.Ok? && m !in after.value.included && m in after.value.excluded
  {
    var dashed, l := "-" + m, Lists([], []);
    assert NameOf(dashed) == m && HasDash(dashed) && NameOf(status) == status;
    assert Removes(k, dashed, m) && !Removes(k, status, m);
    FailsExactly(k, l, [dashed, status]);
    FailsExactly(k, l, [status, dashed]);
    hide MembersOf, HasDash, NameOf, Means, Removes;
    IncludedExactly(k, [], [dashed, status], m);
    IncludedExactly(k, [], [status, dashed], m);
    ListsExactly(k, [], [dashed, status], m);
    ListsExactly(k, [], [status, dashed], m);
    assert [dashed, status][1] == status && [status, dashed][1] == dashed && [status, dashed][0] == status;
    assert dashed in [dashed, status] && dashed in [status, dashed];
  }

  lemma {:induction false} StaysConcat(k: Known, had: bool, a: seq<string>, b: seq<string>, m: Repo)
    ensures Stays(k, had, a + b, m) == Stays(k, Stays(k, had, a, m), b, m)
    decreases |b|
  {
    hide Removes, Means, HasDash;
    if b == [] {
      assert a + b == a;
    } else {
      assert (a + b)[..|a + b| - 1] == a + b[..|b| - 1];
      StaysConcat(k, had, a, b[..|b| - 1], m);
    }
  }

  lemma StaysQuoted(k: Known, had: bool, a: seq<string>, b: seq<string>, m: Repo)
    requires ValidKnown(k)
    ensures Stays(k, had, AppendQuoted(a, b), m) == Stays(k, Stays(k, had, a, m), b, m)
  {
    NothingStays(k, had, m);
    NothingStays(k, Stays(k, had, a, m), m);
    StaysConcat(k, had, a, if b == [] then [""] else b, m);
    hide Stays;
    var r := a + if b == [] then [""] else b;
    if r == [""] {
      assert a == [] || b == [];
      assert a == [] ==> [] + b == b;
    }
  }

  lemma NothingStays(k: Known, had: bool, m: Repo)
    requires ValidKnown(k)
    ensures Stays(k, had, [], m) == had && Stays(k, had, [""], m) == had
  {
    NothingMeansNothing(k, m);
    assert !Removes(k, "", m);
    hide Removes, Means;
    assert [""][..0] == [];
  }

  /** Values that all exclude, or all include. */
  lemma OneSign(k: Known, had: bool, values: seq<string>, m: Repo)
    ensures (forall v | v in values :: HasDash(v)) ==>
              (Stays(k, had, values, m) <==> had && forall v | v in values :: !Removes(k, v, m))
    ensures (forall v | v in values :: !HasDash(v)) ==> (Stays(k, had, values, m) <==> had || SomeIncludes(k, values, m))
  {
    hide Means, Stays;
    StaysExactly(k, had, values, m);
    if forall v | v in values :: HasDash(v) {
      assert forall j | 0 <= j < |values| :: values[j] in values;
    }
    if forall v | v in values :: !HasDash(v) {
      assert forall j | 0 <= j < |values| :: values[j] in values && !Removes(k, values[j], m);
      if SomeIncludes(k, values, m) {
        var v :| v in values && !HasDash(v) && Means(k, v, m);
        var i :| 0 <= i < |values| && values[i] == v;
      }
    }
  }

  /** An excluding term that takes `m` out of the include list, and an including one that gives it. */
  predicate TermRemoves(k: Known, term: string, m: Repo) {
    && HasDash(term)
    && if NameOf(term) == "default" then exists s | s in DEFAULT_STATUSES :: MembersOf(k, s) == Some([m])
       else MembersOf(k, NameOf(term)) == Some([m])
  }

  predicate TermGives(k: Known, already: seq<Repo>, term: string, m: Repo) {
    !HasDash(term) && Includes(k, already, term, m)
  }

  lemma ReplacementStays(k: Known, term: string, already: seq<Repo>, had: bool, m: Repo)
    requires ValidKnown(k) && Replacement(term, already).Ok? && forall a | a in already :: !HasDash(a)
    ensures Stays(k, had, Replacement(term, already).value, m) <==>
            !TermRemoves(k, term, m) && (TermGives(k, already, term, m) || had)
  {
    if HasDash(term) {
      DashedStays(k, term, already, had, m);
    } else {
      var values := Replacement(term, already).value;
      assert forall v | v in values :: !HasDash(v);
      ReplacementMeans(k, term, already, m);
      hide Stays, Includes, Excludes, SomeIncludes, SomeExcludes, Replacement, HasDash;
      OneSign(k, had, values, m);
    }
  }

  lemma DashedStays(k: Known, term: string, already: seq<Repo>, had: bool, m: Repo)
    requires ValidKnown(k) && HasDash(term) && Replacement(term, already).Ok?
    ensures Stays(k, had, Replacement(term, already).value, m) <==> !TermRemoves(k, term, m) && had
  {
    var name := NameOf(term);
    var names := if name == "default" then DEFAULT_STATUSES else Canonical([name]);
    assert Replacement(term, already).value == WithDashes(names);
    NothingKnown(k);
    DashedRemoves(k, names, m);
    assert forall v | v in WithDashes(names) :: HasDash(v);
    hide Stays, MembersOf, Removes, Replacement, HasDash, SomeIncludes;
    OneSign(k, had, WithDashes(names), m);
  }

  lemma NothingKnown(k: Known)
    requires ValidKnown(k)
    ensures MembersOf(k, "").None?
  {
  }

  lemma DashedRemoves(k: Known, names: seq<string>, m: Repo)
    ensures (exists v | v in WithDashes(names) :: Removes(k, v, m)) <==> exists n | n in names :: MembersOf(k, n) == Some([m])
  {
    hide MembersOf;
    var dashed := WithDashes(names);
    forall i | 0 <= i < |names|
      ensures dashed[i] in dashed && HasDash(dashed[i]) && NameOf(dashed[i]) == names[i]
    {
    }
    if n :| n in names && MembersOf(k, n) == Some([m]) {
      var i :| 0 <= i < |names| && names[i] == n;
      assert Removes(k, dashed[i], m);
    }
  }

  predicate TermsStay(k: Known, already: seq<Repo>, had: bool, terms: seq<string>, m: Repo) {
    if terms == [] then had
    else
      var last := terms[|terms| - 1];
      !TermRemoves(k, last, m) && (TermGives(k, already, last, m) || TermsStay(k, already, had, terms[..|terms| - 1], m))
  }

  lemma {:induction false} ExpandedStays(k: Known, terms: seq<string>, already: seq<Repo>, had: bool, m: Repo)
    requires ValidKnown(k) && Expanded(terms, already).Ok? && forall a | a in already :: !HasDash(a)
    ensures Stays(k, had, Expanded(terms, already).value, m) == TermsStay(k, already, had, terms, m)
    decreases |terms|
  {
    hide Expanded, TermRemoves, TermGives, Replacement, Stays, ValidKnown;
    if terms == [] {
      ExpandedUnfolds([], "", already);
      NothingStays(k, had, m);
    } else {
      var init, last := terms[..|terms| - 1], terms[|terms| - 1];
      assert terms == init + [last];
      ExpandedUnfolds(init, last, already);
      ExpandedStays(k, init, already, had, m);
      var before := Expanded(init, already).value;
      StaysQuoted(k, had, before, Replacement(last, already).value, m);
      ReplacementStays(k, last, already, Stays(k, had, before, m), m);
    }
  }

  /** `m` was there at the start, or some term gives it, and no term behind that removes it. */
  predicate TermsGiveLast(k: Known, already: seq<Repo>, had: bool, terms: seq<string>, m: Repo) {
    || (had && forall j | 0 <= j < |terms| :: !TermRemoves(k, terms[j], m))
    || exists i | 0 <= i < |terms| ::
         TermGives(k, already, terms[i], m) && forall j | i < j < |terms| :: !TermRemoves(k, terms[j], m)
  }

  lemma {:induction false} TermsStayExactly(k: Known, already: seq<Repo>, had: bool, terms: seq<string>, m: Repo)
    ensures TermsStay(k, already, had, terms, m) <==> TermsGiveLast(k, already, had, terms, m)
    decreases |terms|
  {
    hide TermRemoves, TermGives, TermsGiveLast;
    if terms == [] {
      GiveLastOfNone(k, already, had, m);
    } else {
      var init, last := terms[..|terms| - 1], terms[|terms| - 1];
      assert terms == init + [last];
      TermsStayExactly(k, already, had, init, m);
      GiveLastOfMore(k, already, had, init, last, m);
    }
  }

  lemma GiveLastOfNone(k: Known, already: seq<Repo>, had: bool, m: Repo)
    ensures TermsGiveLast(k, already, had, [], m) == had
  {
  }

  lemma GiveLastOfMore(k: Known, already: seq<Repo>, had: bool, init: seq<string>, last: string, m: Repo)
    ensures TermsGiveLast(k, already, had, init + [last], m) <==>
            !TermRemoves(k, last, m) && (TermGives(k, already, last, m) || TermsGiveLast(k, already, had, init, m))
  {
    assert TermGives(k, already, last, m) ==> !TermRemoves(k, last, m);
    hide TermRemoves, TermGives;
    var terms, n := init + [last], |init|;
    assert terms[n] == last && forall j | 0 <= j < n :: terms[j] == init[j];
    if i :| 0 <= i < n && TermGives(k, already, init[i], m) && forall j | i < j < n :: !TermRemoves(k, init[j], m) {
      assert TermGives(k, already, terms[i], m);
    }
  }

  /** What a subset includes: what is implicit, or given by a term, and not removed by a term behind it, or by `update = none`. */
  predicate IncludedBy(k: Known, already: seq<Repo>, extra: seq<Repo>, terms: seq<string>, m: Repo) {
    && TermsGiveLast(k, already, !FalsyList(extra) && m in extra, terms, m)
    && forall v | v in k.toRemove :: !Removes(k, v, m)
  }

  /** What it excludes. */
  predicate ExcludedBy(k: Known, terms: seq<string>, m: Repo) {
    (exists t | t in terms :: HasDash(t) && Excludes(k, NameOf(t), m)) || SomeExcludes(k, k.toRemove, m)
  }

  /** The include list, exactly, from the terms. */
  lemma SubsetIncludesExactly(k: Known, subset: string, initializedBefore: bool, already: seq<Repo>, extra: seq<Repo>, m: Repo)
    requires ValidKnown(k) && m != "" && (forall a | a in already :: !HasDash(a))
    requires Processed(k, subset, initializedBefore, already, extra).Ok?
    ensures m in Processed(k, subset, initializedBefore, already, extra).value.included
            <==> IncludedBy(k, already, extra, TermsOf(subset, initializedBefore, already), m)
  {
    var terms, start := TermsOf(subset, initializedBefore, already), if FalsyList(extra) then [] else extra;
    var expanded := Expanded(terms, already).value;
    IncludedStays(k, start, expanded + k.toRemove, m);
    StaysConcat(k, m in start, expanded, k.toRemove, m);
    ExpandedStays(k, terms, already, m in start, m);
    TermsStayExactly(k, already, m in start, terms, m);
    OneSign(k, TermsStay(k, already, m in start, terms, m), k.toRemove, m);
    hide Expanded, HandleAll, Stays, TermsStay, TermsGiveLast, TermsOf, FalsyList, Removes;
  }

  // ----- from the data of .gitmodules, without the terms -----

  /** What .gitmodules says: `m` is one of the modules, has the status, or is the module with a path. */
  predicate Gives(k: Known, name: string, m: Repo) {
    if name == "all" then m in k.submodules
    else if name in k.statuses then name in k.ofStatus && m in k.ofStatus[name]
    else m == name && name in k.paths && k.paths[name] != ""
  }

  /** `m` is the only one that it says so of. */
  predicate GivesAlone(k: Known, name: string, m: Repo) {
    if name == "all" then k.submodules == [m]
    else if name in k.statuses then name in k.ofStatus && k.ofStatus[name] == [m]
    else m == name && name in k.paths && k.paths[name] != ""
  }

  /** It knows the name. */
  predicate Knows(k: Known, name: string) {
    name == "all" || name in k.statuses || (name in k.paths && k.paths[name] != "")
  }

  lemma MembersFromData(k: Known, name: string, m: Repo)
    ensures Means(k, name, m) <==> Gives(k, name, m)
    ensures MembersOf(k, name) == Some([m]) <==> GivesAlone(k, name, m)
    ensures MembersOf(k, name).Some? <==> Knows(k, name)
  {
  }

  /** What a term of the subset gives, excludes, and takes out of the include list, in the same terms. */
  lemma TermFromData(k: Known, already: seq<Repo>, name: string, m: Repo)
    requires !HasDash(name)
    ensures TermGives(k, already, name, m) <==>
            if name == "default" then
              Gives(k, "preview", m) || Gives(k, "essential", m) || Gives(k, "addon", m) || Gives(k, "deprecated", m)
            else if name == "existing" then exists a | a in already :: Gives(k, a, m)
            else Gives(k, name, m)
    ensures Excludes(k, name, m) <==>
            if name == "default" then
              Gives(k, "preview", m) || Gives(k, "essential", m) || Gives(k, "addon", m) || Gives(k, "deprecated", m)
            else Gives(k, name, m)
    ensures TermRemoves(k, "-" + name, m) <==>
            if name == "default" then
              || GivesAlone(k, "preview", m) || GivesAlone(k, "essential", m)
              || GivesAlone(k, "addon", m) || GivesAlone(k, "deprecated", m)
            else GivesAlone(k, name, m)
  {
    assert NameOf("-" + name) == name && HasDash("-" + name);
    forall s
      ensures Means(k, s, m) <==> Gives(k, s, m)
      ensures MembersOf(k, s) == Some([m]) <==> GivesAlone(k, s, m)
    {
      MembersFromData(k, s, m);
    }
    hide Means, Gives, MembersOf, GivesAlone, NameOf, HasDash;
    var names := DEFAULT_STATUSES;
    assert names[0] == "preview" && names[1] == "essential" && names[2] == "addon" && names[3] == "deprecated";
  }

  /** No `update = none` takes `m` alone out of the include list. */
  ghost predicate Kept(k: Known, m: Repo) {
    forall name | "-" + name in k.toRemove :: !GivesAlone(k, name, m)
  }

  /** An `update = none` excludes `m`. */
  ghost predicate Barred(k: Known, m: Repo) {
    exists name :: "-" + name in k.toRemove && Gives(k, name, m)
  }

  lemma KeptAndBarred(k: Known, m: Repo)
    requires ValidKnown(k)
    ensures Kept(k, m) <==> forall v | v in k.toRemove :: !Removes(k, v, m)
    ensures Barred(k, m) <==> SomeExcludes(k, k.toRemove, m)
  {
    forall name
      ensures HasDash("-" + name) && NameOf("-" + name) == name
      ensures Means(k, name, m) <==> Gives(k, name, m)
      ensures MembersOf(k, name) == Some([m]) <==> GivesAlone(k, name, m)
    {
      MembersFromData(k, name, m);
    }
    assert forall v | v in k.toRemove :: v == "-" + NameOf(v);
    hide MembersOf, Means, Gives, GivesAlone, HasDash, NameOf;
  }

  /** One term includes what it gives, and nothing else is given. */
  lemma OneTermStays(k: Known, already: seq<Repo>, had: bool, term: string, m: Repo)
    requires !HasDash(term)
    ensures TermsGiveLast(k, already, had, [term], m) <==> had || Includes(k, already, term, m)
  {
    hide Includes;
    assert !TermRemoves(k, term, m);
    assert [term][0] == term;
    if Includes(k, already, term, m) { assert TermGives(k, already, [term][0], m); }
  }

  /**
   No subset given, or one that reads as false, on a first run, or on a later one with nothing
   initialized: included is what is implicit and every module of one of the four default statuses.
   */
  lemma DefaultSubset(k: Known, subset: string, initializedBefore: bool, already: seq<Repo>, extra: seq<Repo>, m: Repo)
    requires ValidKnown(k) && m != "" && (forall a | a in already :: !HasDash(a))
    requires subset == "" || FalsyList(Split(subset, ','))
    requires !initializedBefore || already == [] || FalsyList(already)
    requires Processed(k, subset, initializedBefore, already, extra).Ok?
    ensures var r := Processed(k, subset, initializedBefore, already, extra).value;
            && (m in r.included <==>
                && Kept(k, m)
                && ((!FalsyList(extra) && m in extra)
                    || Gives(k, "preview", m) || Gives(k, "essential", m) || Gives(k, "addon", m) || Gives(k, "deprecated", m)))
            && (m in r.excluded <==> Barred(k, m))
  {
    assert TermsOf(subset, initializedBefore, already) == ["default"];
    assert forall t | t in ["default"] :: !HasDash(t);
    SubsetExactly(k, subset, initializedBefore, already, extra, m);
    SubsetIncludesExactly(k, subset, initializedBefore, already, extra, m);
    KeptAndBarred(k, m);
    OneTermStays(k, already, !FalsyList(extra) && m in extra, "default", m);
    TermFromData(k, already, "default", m);
    assert Includes(k, already, "default", m) <==> TermGives(k, already, "default", m);
    hide Processed, TermsOf, TermsGiveLast, Kept, Barred, Removes, SomeExcludes, Gives, Includes, FalsyList;
  }

  /** None given on a later run: included is what is implicit, and what is given by a module initialized before. */
  lemma ExistingSubset(k: Known, subset: string, already: seq<Repo>, extra: seq<Repo>, m: Repo)
    requires ValidKnown(k) && m != "" && (forall a | a in already :: !HasDash(a))
    requires (subset == "" || FalsyList(Split(subset, ','))) && already != [] && !FalsyList(already)
    requires Processed(k, subset, true, already, extra).Ok?
    ensures var r := Processed(k, subset, true, already, extra).value;
            && (m in r.included <==>
                Kept(k, m) && ((!FalsyList(extra) && m in extra) || exists a | a in already :: Gives(k, a, m)))
            && (m in r.excluded <==> Barred(k, m))
  {
    assert TermsOf(subset, true, already) == ["existing"];
    assert forall t | t in ["existing"] :: !HasDash(t);
    SubsetExactly(k, subset, true, already, extra, m);
    SubsetIncludesExactly(k, subset, true, already, extra, m);
    KeptAndBarred(k, m);
    OneTermStays(k, already, !FalsyList(extra) && m in extra, "existing", m);
    forall a
      ensures Means(k, a, m) <==> Gives(k, a, m)
    {
      MembersFromData(k, a, m);
    }
    assert Includes(k, already, "existing", m) <==> exists a | a in already :: Means(k, a, m);
    hide Processed, TermsOf, TermsGiveLast, Kept, Barred, Removes, SomeExcludes, Gives, Means, Includes, FalsyList;
  }

  /** A subset that does not read as false is read as its comma-separated terms. */
  lemma GivenSubset(terms: seq<string>, initializedBefore: bool, already: seq<Repo>)
    requires terms != [] && terms != [""] && !FalsyList(terms) && forall t | t in terms :: ',' !in t
    ensures TermsOf(Join(terms, ','), initializedBefore, already) == terms
  {
    var last := |terms| - 1;
    assert terms == terms[..last] + [terms[last]];
    SplitJoin(terms[..last], terms[last], ',');
    SplitWhole(terms[last], ',');
    hide SplitRest, FalsyList;
    SplitWhole("", ',');
  }

  /** One plain name: included is what is implicit, and what .gitmodules gives for the name. */
  lemma NamedSubset(k: Known, name: string, initializedBefore: bool, already: seq<Repo>, extra: seq<Repo>, m: Repo)
    requires ValidKnown(k) && m != "" && (forall a | a in already :: !HasDash(a))
    requires name != "" && ',' !in name && !Falsy(name) && !HasDash(name) && name != "default" && name != "existing"
    ensures var r := Processed(k, name, initializedBefore, already, extra);
            && (r.Fatal? <==> !Knows(k, name))
            && (r.Ok? ==>
                && (m in r.value.included <==> Kept(k, m) && ((!FalsyList(extra) && m in extra) || Gives(k, name, m)))
                && (m in r.value.excluded <==> Barred(k, m)))
  {
    OneGivenTerm(k, name, initializedBefore, already, extra, m);
    MembersFromData(k, name, m);
    assert Expanded([name], already) == Ok([name]) by { NameStays(name, already); }
    FailsExactly(k, Lists(if FalsyList(extra) then [] else extra, []), [name] + k.toRemove);
    assert Processed(k, name, initializedBefore, already, extra).Fatal? <==> MembersOf(k, name).None? by {
      hide MembersOf, Expanded, FalsyList, HandleAll;
      assert forall v :: v in [name] + k.toRemove <==> v == name || v in k.toRemove;
    }
    hide Processed, Kept, Barred, Gives, HasDash;
  }

  lemma NameStays(name: string, already: seq<Repo>)
    requires name != "" && !HasDash(name) && name != "default" && name != "existing"
    ensures Expanded([name], already) == Ok([name])
  {
    var terms := [name];
    assert terms[..|terms| - 1] == [];
    assert Expanded([], already) == Ok([]);
    assert Replacement(terms[0], already) == Ok([name]);
    assert AppendQuoted([], [name]) == [name] by { assert [] + [name] == [name]; }
  }

  lemma OneGivenTerm(k: Known, term: string, initializedBefore: bool, already: seq<Repo>, extra: seq<Repo>, m: Repo)
    requires ValidKnown(k) && m != "" && (forall a | a in already :: !HasDash(a))
    requires term != "" && ',' !in term && !Falsy(term) && !HasDash(term)
    ensures TermsOf(term, initializedBefore, already) == [term]
    ensures var r := Processed(k, term, initializedBefore, already, extra);
            r.Ok? ==>
              && (m in r.value.included <==>
                  Kept(k, m) && ((!FalsyList(extra) && m in extra) || Includes(k, already, term, m)))
              && (m in r.value.excluded <==> Barred(k, m))
  {
    GivenSubset([term], initializedBefore, already);
    assert Join([term], ',') == term;
    if Processed(k, term, initializedBefore, already, extra).Ok? {
      assert forall t | t in [term] :: !HasDash(t);
      SubsetExactly(k, term, initializedBefore, already, extra, m);
      SubsetIncludesExactly(k, term, initializedBefore, already, extra, m);
      KeptAndBarred(k, m);
      OneTermStays(k, already, !FalsyList(extra) && m in extra, term, m);
      hide Processed, TermsOf, TermsGiveLast, Kept, Barred, Removes, SomeExcludes, Includes, FalsyList;
    }
  }

  /** The final list: each module once, and none that was excluded. */
  lemma FinalExcludes(modules: seq<Repo>, excluded: seq<Repo>)
    ensures forall i, j | 0 <= i < j < |Final(modules, excluded)| :: Final(modules, excluded)[i] != Final(modules, excluded)[j]
    ensures forall m :: m in Final(modules, excluded) <==> m in modules && (FalsyList(excluded) || m !in excluded)
  {
    forall m
      ensures m in Final(modules, excluded) <==> m in modules && (FalsyList(excluded) || m !in excluded)
    {
      InRemoveItems(modules, excluded, m);
    }
  }

  // ----- with dependencies -----

  /** Removing elements keeps the order of the others. */
  lemma {:induction false} RemovalKeepsOrder(l: seq<string>, xs: seq<string>, i: nat) returns (j: nat)
    requires i < |RemoveItems(l, xs)|
    ensures j < |l| && l[j] == RemoveItems(l, xs)[i]
    ensures RemoveItems(l[..j], xs) == RemoveItems(l, xs)[..i]
    decreases |l|
  {
    if l[0] in xs {
      j := RemovalKeepsOrder(l[1..], xs, i);
      assert l[..j + 1] == [l[0]] + l[1..][..j];
      j := j + 1;
    } else if i == 0 {
      j := 0;
    } else {
      j := RemovalKeepsOrder(l[1..], xs, i - 1);
      assert l[..j + 1] == [l[0]] + l[1..][..j];
      j := j + 1;
    }
  }

  predicate Dropped(lists: Lists, m: Repo) {
    !FalsyList(lists.excluded) && m in lists.excluded
  }

  /** With dependency resolution, the final list is exactly what can be reached from the included modules and was not excluded. */
  lemma FinalIsReachable(k: Known, optionalDeps: bool, dirs: set<Repo>, lists: Lists)
    ensures var g := SubsetGraph(k, optionalDeps, dirs, lists.included);
            var final := Final(WithDeps(g), lists.excluded);
            && Distinct(final)
            && forall m :: m in final <==> Reachable(g, {ALL}, Out(g, ALL), m) && !Dropped(lists, m)
  {
    var g := SubsetGraph(k, optionalDeps, dirs, lists.included);
    assert {} + {ALL} == {ALL};
    SortMeaning(g, {}, WithDeps(g));
    FinalExcludes(WithDeps(g), lists.excluded);
    hide Walk, GraphOf, Final, Reachable;
  }

  lemma ReachableFromOne(g: Graph, avoid: set<Repo>, deps: seq<Dep>, m: Repo)
    ensures Reachable(g, avoid, deps, m) <==> exists d | d in deps :: Reachable(g, avoid, [d], m)
  {
    if p :| Connects(g, avoid, deps, m, p) {
      var d :| d in deps && d.name == p[0];
      assert d in [d];
      assert Connects(g, avoid, [d], m, p);
      assert Reachable(g, avoid, [d], m);
    }
    if d :| d in deps && Reachable(g, avoid, [d], m) {
      var p :| Connects(g, avoid, [d], m, p);
      assert Connects(g, avoid, deps, m, p);
    }
  }

  lemma {:induction false} IncludedHasNoEmpty(k: Known, l: Lists, values: seq<string>)
    requires ValidKnown(k) && HasModules(k) && "" !in l.included && HandleAll(k, l, values).Ok?
    ensures "" !in HandleAll(k, l, values).value.included
    decreases |values|
  {
    if values == [] {
      HandleAllUnfolds(k, l, [], "");
    } else {
      var init, last := values[..|values| - 1], values[|values| - 1];
      assert values == init + [last];
      IncludedHasNoEmpty(k, l, init);
      HandleAllUnfolds(k, l, init, last);
      var before, members := HandleAll(k, l, init).value, MembersOf(k, NameOf(last));
      assert members.Some? ==> members.value != [] && "" !in members.value;
      hide HandleAll, MembersOf;
      if members.Some? {
        InRemoveItems(before.included, if members.value == [] then [""] else members.value, "");
      }
    }
  }

  /** A starting point of the resolution. */
  function StartAt(dirs: set<Repo>, optionalDeps: bool, x: Repo): Dep {
    Dep(Normalized(Options(!optionalDeps, true, dirs), x), "HEAD", false)
  }

  lemma StartsAreIncluded(k: Known, optionalDeps: bool, dirs: set<Repo>, included: seq<Repo>, d: Dep)
    ensures d in Out(SubsetGraph(k, optionalDeps, dirs, included), ALL) <==>
            exists x | x in included :: d == StartAt(dirs, optionalDeps, x)
  {
    var o := Options(!optionalDeps, true, dirs);
    var starts := WithNames(o, Selected(included));
    assert |starts| == |included|;
    assert Out(SubsetGraph(k, optionalDeps, dirs, included), ALL) == starts;
    hide Normalized;
    if d in starts {
      var i :| 0 <= i < |starts| && starts[i] == d;
      assert included[i] in included && d == StartAt(dirs, optionalDeps, included[i]);
    }
    if x :| x in included && d == StartAt(dirs, optionalDeps, x) {
      var i :| 0 <= i < |included| && included[i] == x;
      assert starts[i] == d;
    }
  }

  /**
   From the terms of the subset to the final list: with dependency resolution it holds exactly what can
   be reached from a module that the terms include, and that they do not exclude.
   */
  lemma FinalFromTerms(k: Known, subset: string, initializedBefore: bool, already: seq<Repo>, extra: seq<Repo>,
                       optionalDeps: bool, dirs: set<Repo>, m: Repo)
    requires ValidKnown(k) && HasModules(k) && "" !in extra && m != "" && (forall a | a in already :: !HasDash(a))
    requires Processed(k, subset, initializedBefore, already, extra).Ok?
    ensures var terms, r := TermsOf(subset, initializedBefore, already),
                            Processed(k, subset, initializedBefore, already, extra).value;
            var g := SubsetGraph(k, optionalDeps, dirs, r.included);
            m in Final(WithDeps(g), r.excluded) <==>
            && (exists x :: x != "" && IncludedBy(k, already, extra, terms, x)
                            && Reachable(g, {ALL}, [StartAt(dirs, optionalDeps, x)], m))
            && (FalsyList(r.excluded) || !ExcludedBy(k, terms, m))
  {
    var terms, r := TermsOf(subset, initializedBefore, already),
                    Processed(k, subset, initializedBefore, already, extra).value;
    var g := SubsetGraph(k, optionalDeps, dirs, r.included);
    var start, values := if FalsyList(extra) then [] else extra, Expanded(terms, already).value + k.toRemove;
    IncludedHasNoEmpty(k, Lists(start, []), values);
    FinalIsReachable(k, optionalDeps, dirs, r);
    SubsetExactly(k, subset, initializedBefore, already, extra, m);
    ReachableFromOne(g, {ALL}, Out(g, ALL), m);
    hide Processed, SubsetGraph, Final, WithDeps, Reachable, IncludedBy, TermsOf, FalsyList, StartAt, HandleAll, Expanded;
    forall x | x != ""
      ensures x in r.included <==> IncludedBy(k, already, extra, terms, x)
    {
      SubsetIncludesExactly(k, subset, initializedBefore, already, extra, x);
    }
    forall d
      ensures d in Out(g, ALL) <==> exists x | x in r.included :: d == StartAt(dirs, optionalDeps, x)
    {
      StartsAreIncluded(k, optionalDeps, dirs, r.included, d);
    }
  }

  /** On a graph without cycles it has every dependency that was not excluded before what depends on it. */
  lemma FinalIsSorted(k: Known, optionalDeps: bool, dirs: set<Repo>, lists: Lists)
    ensures var g := SubsetGraph(k, optionalDeps, dirs, lists.included);
            var final := Final(WithDeps(g), lists.excluded);
            NoCycle(g, {ALL}, WithDeps(g)) ==>
              forall i, v | 0 <= i < |final| && HasEdge(g, final[i], v) && v != ALL && !Dropped(lists, v) :: v in final[..i]
  {
    var g := SubsetGraph(k, optionalDeps, dirs, lists.included);
    assert {} + {ALL} == {ALL};
    SortMeaning(g, {}, WithDeps(g));
    var final := Final(WithDeps(g), lists.excluded);
    hide Walk, GraphOf, Final, NoCycle, HasEdge;
    if NoCycle(g, {ALL}, WithDeps(g)) {
      forall i, v | 0 <= i < |final| && HasEdge(g, final[i], v) && v != ALL && !Dropped(lists, v)
        ensures v in final[..i]
      {
        FinalKeepsOrder(g, WithDeps(g), lists.excluded, i, v);
      }
    }
  }

  lemma SortedBefore(g: Graph, modules: seq<Repo>, j: nat, v: Repo)
    requires TopoSorted(g, {ALL}, modules) && j < |modules| && HasEdge(g, modules[j], v) && v != ALL
    ensures v in modules[..j]
  {
    var skip := {ALL};
    assert v !in skip;
  }

  lemma FinalKeepsOrder(g: Graph, modules: seq<Repo>, excluded: seq<Repo>, i: nat, v: Repo)
    requires Distinct(modules) && TopoSorted(g, {ALL}, modules)
    requires i < |Final(modules, excluded)| && HasEdge(g, Final(modules, excluded)[i], v)
    requires v != ALL && (FalsyList(excluded) || v !in excluded)
    ensures v in Final(modules, excluded)[..i]
  {
    if FalsyList(excluded) {
      DistinctStays(modules);
      SortedBefore(g, modules, i, v);
    } else {
      var kept := RemoveItems(modules, excluded);
      RemovedIsDistinct(modules, excluded);
      DistinctStays(kept);
      var j := RemovalKeepsOrder(modules, excluded, i);
      hide RemoveItems;
      assert Final(modules, excluded) == kept;
      assert modules[j] == kept[i];
      SortedBefore(g, modules, j, v);
      InRemoveItems(modules[..j], excluded, v);
    }
  }

  lemma {:induction false} RemovedIsDistinct(l: seq<string>, xs: seq<string>)
    requires Distinct(l)
    ensures Distinct(RemoveItems(l, xs))
  {
    if l != [] {
      RemovedIsDistinct(l[1..], xs);
      InRemoveItems(l[1..], xs, l[0]);
    }
  }

  // ----- -skip -----

  function SkipTerms(values: seq<string>): (r: seq<string>)
    ensures |r| == |values| && forall i | 0 <= i < |values| :: r[i] == "-" + Strip(values[i])
  {
    seq(|values|, i requires 0 <= i < |values| => "-" + Strip(values[i]))
  }

  /** The value of --module-subset once configure's -skip values are put in front of it as exclusions. */
  function MergedSubset(skip: string, subset: string): string {
    if Falsy(skip) then subset
    else
      var existing := if Falsy(subset) then "default" else subset;
      Join(RemoveDuplicates(SkipTerms(Split(skip, ',')) + [existing]), ',')
  }

  method MergeSkip(skip: string, subset: string) returns (merged: string)
    ensures merged == MergedSubset(skip, subset)
  {
    if Falsy(skip) {
      return subset;
    }
    var values := Split(skip, ',');
    var skipModules, i := [], 0;
    while i < |values|
      invariant 0 <= i <= |values| && skipModules == SkipTerms(values[..i])
    {
      skipModules := skipModules + ["-" + Strip(values[i])];
      i := i + 1;
    }
    assert values[..i] == values;
    var existing := if Falsy(subset) then "default" else subset;
    skipModules := RemoveDuplicates(skipModules + [existing]);
    merged := Join(skipModules, ',');
  }

  /** The merged value: a dashed term for every -skip value, in their order, and behind them the subset, or `default`. */
  lemma MergeExactly(values: seq<string>, subset: string)
    requires values != [] && values != [""] && !Falsy(Join(values, ',')) && forall v | v in values :: ',' !in v
    requires var terms := SkipTerms(values) + [if Falsy(subset) then "default" else subset];
             forall i, j | 0 <= i < j < |terms| :: terms[i] != terms[j]
    ensures MergedSubset(Join(values, ','), subset) ==
            Join(SkipTerms(values) + [if Falsy(subset) then "default" else subset], ',')
  {
    var last := |values| - 1;
    assert values == values[..last] + [values[last]];
    SplitJoin(values[..last], values[last], ',');
    SplitWhole(values[last], ',');
    SplitWhole("", ',');
    hide SplitRest, Join, Falsy;
    assert Split(Join(values, ','), ',') == values;
    DistinctStays(SkipTerms(values) + [if Falsy(subset) then "default" else subset]);
  }

  lemma SkipTermsHaveNoComma(skip: string)
    ensures forall t | t in SkipTerms(Split(skip, ',')) :: ',' !in t
  {
    SplitHasNoSeparator(skip, ',');
    var values := Split(skip, ',');
    forall i | 0 <= i < |values|
      ensures ',' !in SkipTerms(values)[i]
    {
      assert values[i] in SplitRest(skip, ',');
      StripKeepsOut(values[i], ',');
    }
  }

  /** No -skip value is lost in the merge, and neither is a term of the subset. */
  lemma MergeKeepsTerms(skip: string, subset: string)
    requires !Falsy(skip)
    ensures forall t | t in SkipTerms(Split(skip, ',')) :: t in SplitRest(MergedSubset(skip, subset), ',')
    ensures forall t | t in SplitRest(if Falsy(subset) then "default" else subset, ',') ::
              t in SplitRest(MergedSubset(skip, subset), ',')
  {
    var existing := if Falsy(subset) then "default" else subset;
    var terms := SkipTerms(Split(skip, ','));
    SkipTermsHaveNoComma(skip);
    assert (terms + [existing])[..|terms|] == terms;
    hide Join, Split, SplitRest, SkipTerms;
    JoinedTerms(RemoveDuplicates(terms), existing);
  }

  /** Joining distinct terms and the subset, without repeating it, loses neither. */
  lemma JoinedTerms(terms: seq<string>, existing: string)
    requires forall t | t in terms :: ',' !in t
    ensures var merged := Join(if existing in terms then terms else terms + [existing], ',');
            && (forall t | t in terms :: t in SplitRest(merged, ','))
            && (forall t | t in SplitRest(existing, ',') :: t in SplitRest(merged, ','))
  {
    hide Join, SplitRest;
    if existing in terms {
      var last := |terms| - 1;
      assert terms == terms[..last] + [terms[last]];
      SplitJoin(terms[..last], terms[last], ',');
      SplitWhole(terms[last], ',');
      SplitWhole(existing, ',');
    } else {
      SplitJoin(terms, existing, ',');
    }
  }

  lemma SplitWhole(s: string, sep: char)
    requires sep !in s
    ensures SplitRest(s, sep) == [s]
  {
    SplitRestOfPrefix(s, "", sep);
  }

  /** A module that -skip names is in no final list, whatever subset it is combined with. */
  lemma SkippedIsExcluded(k: Known, skip: string, subset: string, initializedBefore: bool, already: seq<Repo>,
                          extra: seq<Repo>, value: string, m: Repo, modules: seq<Repo>)
    requires ValidKnown(k) && !Falsy(skip) && value in Split(skip, ',') && Excludes(k, Strip(value), m)
    requires !FalsyList(Split(MergedSubset(skip, subset), ','))
    requires Processed(k, MergedSubset(skip, subset), initializedBefore, already, extra).Ok?
    ensures var excluded := Processed(k, MergedSubset(skip, subset), initializedBefore, already, extra).value.excluded;
            m in excluded && (!FalsyList(excluded) ==> m !in Final(modules, excluded))
  {
    var values, merged := Split(skip, ','), MergedSubset(skip, subset);
    var i :| 0 <= i < |values| && values[i] == value;
    var term := SkipTerms(values)[i];
    MergeKeepsTerms(skip, subset);
    assert NameOf(term) == Strip(value);
    var terms := TermsOf(merged, initializedBefore, already);
    assert term in SkipTerms(values);
    var j :| 0 <= j < |terms| && terms[j] == term;
    TermExcludes(k, merged, initializedBefore, already, extra, j, m);
    FinalExcludes(modules, Processed(k, merged, initializedBefore, already, extra).value.excluded);
  }
}
