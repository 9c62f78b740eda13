/**
 Dropping the modules that cannot be built because of a disabled one: the single pass of
 `qt_internal_collect_modules_only` over the sorted list.
 */
module BuildSelection {
  import opened CMakeList
  import opened DependencyGraph
  import opened ModuleResolver
  import opened Results

  /** The `BUILD_<module>` variables that are defined. */
  type Flags = map<Repo, bool>

  /** `BUILD_<m>` is defined and false. */
  predicate Disabled(build: Flags, m: Repo) {
    m in build && !build[m]
  }

  /** `m` requires `v`. */
  predicate Requires(g: Graph, m: Repo, v: Repo) {
    exists d | d in Out(g, m) :: d.name == v && d.required
  }

  /** The flags after one module was looked at. */
  function MarkOne(g: Graph, build: Flags, m: Repo): Flags {
    if !Disabled(build, m) && exists d | d in Out(g, m) :: d.required && Disabled(build, d.name)
    then build[m := false] else build
  }

  /** The flags after the pass. */
  function MarkAll(g: Graph, build: Flags, modules: seq<Repo>): Flags {
    if modules == [] then build
    else MarkOne(g, MarkAll(g, build, modules[..|modules| - 1]), modules[|modules| - 1])
  }

  /** The modules, in order, that are not disabled. */
  function Enabled(build: Flags, modules: seq<Repo>): seq<Repo> {
    if modules == [] then []
    else
      var init, last := modules[..|modules| - 1], modules[|modules| - 1];
      Enabled(build, init) + if Disabled(build, last) then [] else [last]
  }

  // ----- what the pass computes -----

  ghost predicate RequiringPath(g: Graph, p: seq<Repo>) {
    p != [] && forall i | 0 <= i < |p| - 1 :: Requires(g, p[i], p[i + 1])
  }

  /** A disabled module can be reached from `m` by required dependencies. */
  ghost predicate Blocked(g: Graph, build: Flags, m: Repo) {
    exists p :: RequiringPath(g, p) && p[0] == m && Disabled(build, p[|p| - 1])
  }

  lemma BlockedUnfolds(g: Graph, build: Flags, m: Repo)
    ensures Blocked(g, build, m) <==> Disabled(build, m) || exists v :: Requires(g, m, v) && Blocked(g, build, v)
  {
    hide Requires, Disabled;
    if Blocked(g, build, m) {
      var p :| RequiringPath(g, p) && p[0] == m && Disabled(build, p[|p| - 1]);
      if |p| > 1 {
        assert Requires(g, p[0], p[1]);
        assert forall i | 0 <= i < |p[1..]| - 1 :: Requires(g, p[1..][i], p[1..][i + 1]);
        assert RequiringPath(g, p[1..]);
        assert Blocked(g, build, p[1]);
      }
    }
    if Disabled(build, m) {
      assert RequiringPath(g, [m]);
    }
    if v :| Requires(g, m, v) && Blocked(g, build, v) {
      BlockedBefore(g, build, m, v);
    }
  }

  lemma BlockedBefore(g: Graph, build: Flags, m: Repo, v: Repo)
    requires Requires(g, m, v) && Blocked(g, build, v)
    ensures Blocked(g, build, m)
  {
    hide Requires, Disabled;
    var p :| RequiringPath(g, p) && p[0] == v && Disabled(build, p[|p| - 1]);
    var q := [m] + p;
    assert forall i | 0 <= i < |q| - 1 :: Requires(g, q[i], q[i + 1]);
    assert RequiringPath(g, q) && q[0] == m && Disabled(build, q[|q| - 1]);
  }

  /** Only the modules of the list are marked, and only for a reason: on every graph, whatever the pass drops is blocked. */
  lemma {:induction false} MarkingIsSound(g: Graph, build: Flags, modules: seq<Repo>, m: Repo)
    ensures Disabled(build, m) ==> Disabled(MarkAll(g, build, modules), m)
    ensures Disabled(MarkAll(g, build, modules), m) ==> Blocked(g, build, m)
    ensures m !in modules ==> Disabled(MarkAll(g, build, modules), m) == Disabled(build, m)
  {
    BlockedUnfolds(g, build, m);
    if modules != [] {
      var init, last := modules[..|modules| - 1], modules[|modules| - 1];
      MarkingIsSound(g, build, init, m);
      var b := MarkAll(g, build, init);
      if m == last && !Disabled(b, m) && Disabled(MarkOne(g, b, m), m) {
        var d :| d in Out(g, m) && d.required && Disabled(b, d.name);
        MarkingIsSound(g, build, init, d.name);
        assert Requires(g, m, d.name);
      }
    }
  }

  // ----- what the pass computes, exactly -----

  /** A required path whose elements before the last stand in the list at positions `at`, each further up than the one before. */
  ghost predicate DescendingPath(g: Graph, modules: seq<Repo>, p: seq<Repo>, at: seq<nat>) {
    && RequiringPath(g, p) && |at| == |p| - 1
    && (forall i | 0 <= i < |at| :: at[i] < |modules| && modules[at[i]] == p[i])
    && forall i | 0 <= i < |at| - 1 :: at[i + 1] < at[i]
  }

  ghost predicate Descends(g: Graph, modules: seq<Repo>, m: Repo, v: Repo) {
    exists p, at :: DescendingPath(g, modules, p, at) && p[0] == m && p[|p| - 1] == v
  }

  lemma {:induction false} MarkedIsDescending(g: Graph, build: Flags, modules: seq<Repo>, m: Repo)
    returns (p: seq<Repo>, at: seq<nat>)
    requires Disabled(MarkAll(g, build, modules), m)
    ensures DescendingPath(g, modules, p, at) && p[0] == m && Disabled(build, p[|p| - 1])
    ensures forall i | 0 <= i < |at| :: at[i] < |modules|
  {
    if Disabled(build, m) {
      p, at := [m], [];
    } else {
      assert modules != [];
      var init, last := modules[..|modules| - 1], modules[|modules| - 1];
      var b := MarkAll(g, build, init);
      if Disabled(b, m) {
        p, at := MarkedIsDescending(g, build, init, m);
      } else {
        var d :| d in Out(g, m) && d.required && Disabled(b, d.name);
        var rest, below := MarkedIsDescending(g, build, init, d.name);
        p, at := [m] + rest, [|init|] + below;
        DescendingOnTop(g, modules, rest, below, m);
      }
    }
  }

  lemma DescendingOnTop(g: Graph, modules: seq<Repo>, p: seq<Repo>, at: seq<nat>, m: Repo)
    requires modules != [] && modules[|modules| - 1] == m && p != [] && Requires(g, m, p[0])
    requires DescendingPath(g, modules[..|modules| - 1], p, at)
    ensures DescendingPath(g, modules, [m] + p, [|modules| - 1] + at)
  {
    hide Requires;
    var q, under := [m] + p, [|modules| - 1] + at;
    assert forall i | 0 < i < |q| :: q[i] == p[i - 1];
    assert forall i | 0 < i < |under| :: under[i] == at[i - 1] < |modules| - 1;
    assert forall i | 0 <= i < |q| - 1 :: Requires(g, q[i], q[i + 1]);
  }

  lemma {:induction false} DescendingIsMarked(g: Graph, build: Flags, modules: seq<Repo>, p: seq<Repo>, at: seq<nat>)
    requires DescendingPath(g, modules, p, at) && Disabled(build, p[|p| - 1])
    ensures Disabled(MarkAll(g, build, modules), p[0])
    decreases |modules|
  {
    hide MarkAll, Requires, Disabled;
    if |p| == 1 {
      MarkingIsSound(g, build, modules, p[0]);
    } else {
      assert |at| > 0 && at[0] < |modules|;
      var n := |modules| - 1;
      var init := modules[..n];
      assert modules == init + [modules[n]];
      MarkAllUnfolds(g, build, init, modules[n]);
      Decreasing(at);
      assert Requires(g, p[0], p[1]);
      if at[0] < n {
        DescendingIsMarked(g, build, init, p, at);
        MarkOneMarks(g, MarkAll(g, build, init), modules[n], p[0], p[1]);
      } else {
        DescendingBelow(g, modules, p, at);
        DescendingIsMarked(g, build, init, p[1..], at[1..]);
        MarkOneMarks(g, MarkAll(g, build, init), modules[n], p[0], p[1]);
      }
    }
  }

  /** A mark stays, and a module that requires a marked one gets one. */
  lemma MarkOneMarks(g: Graph, b: Flags, last: Repo, m: Repo, v: Repo)
    ensures Disabled(b, m) ==> Disabled(MarkOne(g, b, last), m)
    ensures m == last && Requires(g, m, v) && Disabled(b, v) ==> Disabled(MarkOne(g, b, last), m)
  {
  }

  /** A path that starts at the end of the list goes on above it. */
  lemma DescendingBelow(g: Graph, modules: seq<Repo>, p: seq<Repo>, at: seq<nat>)
    requires modules != [] && |p| > 1 && DescendingPath(g, modules, p, at) && at[0] == |modules| - 1
    ensures DescendingPath(g, modules[..|modules| - 1], p[1..], at[1..])
  {
    hide Requires;
    Decreasing(at);
    PathTail(g, p);
    assert forall i | 0 <= i < |at[1..]| :: at[1..][i] == at[i + 1] && p[1..][i] == p[i + 1];
  }

  lemma PathTail(g: Graph, p: seq<Repo>)
    requires RequiringPath(g, p) && |p| > 1
    ensures RequiringPath(g, p[1..])
  {
    hide Requires;
    assert forall i | 0 <= i < |p[1..]| :: p[1..][i] == p[i + 1];
  }

  ghost predicate RequiresNothing(g: Graph, m: Repo) {
    forall v :: !Requires(g, m, v)
  }

  lemma PathEnds(g: Graph, p: seq<Repo>)
    requires RequiringPath(g, p)
    ensures |p| == 1 || !RequiresNothing(g, p[0])
  {
    if |p| > 1 { assert Requires(g, p[0], p[1]); }
  }

  lemma {:induction false} Decreasing(at: seq<nat>)
    requires forall i | 0 <= i < |at| - 1 :: at[i + 1] < at[i]
    ensures forall i | 0 < i < |at| :: at[i] < at[0]
  {
    if |at| > 1 {
      var last := |at| - 1;
      Decreasing(at[..last]);
      assert at[last - 1 + 1] < at[last - 1];
      assert at[last - 1] == at[..last][last - 1] && at[0] == at[..last][0];
    }
  }

  /**
   What the pass computes, on every graph and every list: a module is off at the end if and only if a
   disabled one can be reached by a required path that only goes up the list.
   */
  lemma PassExactly(g: Graph, build: Flags, modules: seq<Repo>, m: Repo)
    ensures Disabled(MarkAll(g, build, modules), m) <==> exists v :: Descends(g, modules, m, v) && Disabled(build, v)
  {
    if Disabled(MarkAll(g, build, modules), m) {
      var p, at := MarkedIsDescending(g, build, modules, m);
      assert Descends(g, modules, m, p[|p| - 1]);
    }
    if v :| Descends(g, modules, m, v) && Disabled(build, v) {
      var p, at :| DescendingPath(g, modules, p, at) && p[0] == m && p[|p| - 1] == v;
      DescendingIsMarked(g, build, modules, p, at);
    }
  }

  /** `v` can be reached from `m` by required dependencies. */
  ghost predicate NeedsInTheEnd(g: Graph, m: Repo, v: Repo) {
    exists p :: RequiringPath(g, p) && p[0] == m && p[|p| - 1] == v
  }

  ghost predicate Closes(g: Graph, build: Flags, modules: seq<Repo>) {
    forall m | m in modules :: Disabled(MarkAll(g, build, modules), m) <==> Blocked(g, build, m)
  }

  /**
   When one pass is the transitive closure, whatever is disabled: exactly if every module reaches
   whatever it needs also by a path that only goes up the list. Cycles do not matter by themselves.
   */
  lemma ClosesExactly(g: Graph, modules: seq<Repo>)
    ensures (forall build :: Closes(g, build, modules))
            <==> forall m, v | m in modules && NeedsInTheEnd(g, m, v) :: Descends(g, modules, m, v)
  {
    hide MarkAll, Descends, Requires, Disabled;
    if forall build :: Closes(g, build, modules) {
      forall m, v | m in modules && NeedsInTheEnd(g, m, v)
        ensures Descends(g, modules, m, v)
      {
        var build: Flags := map[v := false];
        OnlyDisabled(build, v);
        assert Closes(g, build, modules);
        var p :| RequiringPath(g, p) && p[0] == m && p[|p| - 1] == v;
        assert Blocked(g, build, m);
        PassExactly(g, build, modules, m);
      }
    }
    if forall m, v | m in modules && NeedsInTheEnd(g, m, v) :: Descends(g, modules, m, v) {
      forall build, m | m in modules
        ensures Disabled(MarkAll(g, build, modules), m) <==> Blocked(g, build, m)
      {
        MarkingIsSound(g, build, modules, m);
        if Blocked(g, build, m) {
          var p :| RequiringPath(g, p) && p[0] == m && Disabled(build, p[|p| - 1]);
          assert NeedsInTheEnd(g, m, p[|p| - 1]);
          PassExactly(g, build, modules, m);
        }
      }
    }
  }

  lemma OnlyDisabled(build: Flags, v: Repo)
    requires build == map[v := false]
    ensures forall x :: Disabled(build, x) <==> x == v
  {
  }

  /** Whatever a module requires stands before it, or is `outside`. */
  ghost predicate RequiredFirst(g: Graph, outside: set<Repo>, modules: seq<Repo>) {
    forall i, v | 0 <= i < |modules| && Requires(g, modules[i], v) && v !in outside :: v in modules[..i]
  }

  /** In such a list every required path goes up. */
  lemma {:induction false} PathGoesUp(g: Graph, modules: seq<Repo>, outside: set<Repo>, p: seq<Repo>, k: nat)
    returns (at: seq<nat>)
    requires RequiredFirst(g, outside, modules) && RequiringPath(g, p) && k < |modules| && modules[k] == p[0]
    requires forall x | x in outside :: RequiresNothing(g, x)
    ensures DescendingPath(g, modules, p, at) && (at != [] ==> at[0] == k)
    decreases |p|
  {
    if |p| == 1 {
      at := [];
    } else {
      assert Requires(g, p[0], p[1]);
      PathTail(g, p);
      if p[1] in outside {
        PathEnds(g, p[1..]);
        at := [k];
      } else {
        var j :| 0 <= j < k && modules[j] == p[1];
        var rest := PathGoesUp(g, modules, outside, p[1..], j);
        at := [k] + rest;
        assert forall i | 0 < i < |at| :: at[i] == rest[i - 1] && p[i] == p[1..][i - 1];
      }
    }
  }

  /** Over a list in which required dependencies come first, one pass computes the transitive closure. */
  lemma OnePassCloses(g: Graph, build: Flags, modules: seq<Repo>, outside: set<Repo>, m: Repo)
    requires RequiredFirst(g, outside, modules)
    requires forall x | x in outside :: RequiresNothing(g, x)
    requires m in modules || m in outside
    ensures Disabled(MarkAll(g, build, modules), m) <==> Blocked(g, build, m)
  {
    hide MarkAll, Requires;
    MarkingIsSound(g, build, modules, m);
    if Blocked(g, build, m) {
      var p :| RequiringPath(g, p) && p[0] == m && Disabled(build, p[|p| - 1]);
      if m in modules {
        var k :| 0 <= k < |modules| && modules[k] == m;
        var at := PathGoesUp(g, modules, outside, p, k);
        DescendingIsMarked(g, build, modules, p, at);
      } else {
        PathEnds(g, p);
      }
    }
  }

  lemma InitSorted(g: Graph, outside: set<Repo>, modules: seq<Repo>)
    requires modules != [] && SortedAfter(g, outside, {}, modules) && Distinct(modules)
    ensures var init := modules[..|modules| - 1];
            && SortedAfter(g, outside, {}, init) && Distinct(init)
            && modules[|modules| - 1] !in init
            && forall v | HasEdge(g, modules[|modules| - 1], v) && v !in outside :: v in init
  {
    var init := modules[..|modules| - 1];
    assert forall i | 0 <= i <= |init| :: init[..i] == modules[..i];
  }

  lemma {:induction false} EnabledIsFilter(build: Flags, modules: seq<Repo>)
    ensures forall m :: m in Enabled(build, modules) <==> m in modules && !Disabled(build, m)
  {
    if modules != [] {
      var init, last := modules[..|modules| - 1], modules[|modules| - 1];
      EnabledIsFilter(build, init);
      assert modules == init + [last];
    }
  }

  /** What is kept is still in topological order. */
  lemma {:induction false} EnabledStaysSorted(g: Graph, build: Flags, modules: seq<Repo>, outside: set<Repo>, i: nat, v: Repo)
    requires SortedAfter(g, outside, {}, modules) && Distinct(modules)
    requires i < |Enabled(build, modules)| && HasEdge(g, Enabled(build, modules)[i], v)
    requires v !in outside && !Disabled(build, v)
    ensures v in Enabled(build, modules)[..i]
  {
    var init, last := modules[..|modules| - 1], modules[|modules| - 1];
    InitSorted(g, outside, modules);
    EnabledIsFilter(build, init);
    var kept := Enabled(build, init);
    if i < |kept| {
      EnabledStaysSorted(g, build, init, outside, i, v);
      assert Enabled(build, modules)[..i] == kept[..i];
    } else {
      assert Enabled(build, modules)[..i] == kept;
    }
  }

  /** What `CollectModules` returns for the modules sorted as `sorted`. */
  function Collected(g: Graph, build: Flags, sorted: seq<Repo>): seq<Repo> {
    Enabled(MarkAll(g, build, sorted), sorted)
  }

  lemma CollectedExactly(g: Graph, build: Flags, sorted: seq<Repo>)
    requires sorted == Names(Walk(g, {}, {ALL}, Out(g, ALL)).ordered) && NoCycle(g, {ALL}, sorted)
    requires RequiresNothing(g, ALL)
    ensures forall m :: m in Collected(g, build, sorted) <==> m in sorted && !Blocked(g, build, m)
    ensures forall i, v | 0 <= i < |Collected(g, build, sorted)| && Requires(g, Collected(g, build, sorted)[i], v) && v != ALL ::
              v in Collected(g, build, sorted)[..i]
  {
    var kept, marks := Collected(g, build, sorted), MarkAll(g, build, sorted);
    assert {} + {ALL} == {ALL};
    SortMeaning(g, {}, sorted);
    EnabledIsFilter(marks, sorted);
    forall m | m in sorted
      ensures Disabled(marks, m) <==> Blocked(g, build, m)
    {
      OnePassCloses(g, build, sorted, {ALL}, m);
    }
    forall i, v | 0 <= i < |kept| && Requires(g, kept[i], v) && v != ALL
      ensures v in kept[..i]
    {
      assert kept[i] in kept;
      BlockedUnfolds(g, build, kept[i]);
      assert HasEdge(g, kept[i], v);
      MarkingIsSound(g, build, sorted, v);
      EnabledStaysSorted(g, marks, sorted, {ALL}, i, v);
    }
  }

  /**
   The modules collected for `modules`: on a graph without cycles exactly those from which no disabled
   module can be reached by required dependencies, each after the modules it requires.
   */
  lemma BuildsExactly(source: Source, dirs: set<Repo>, modules: seq<Repo>, build: Flags)
    ensures var g := GraphOf(source, Options(false, true, dirs), ALL, Some(Selected(modules)));
            var sorted := Names(Walk(g, {}, {ALL}, Out(g, ALL)).ordered);
            var kept := Collected(g, build, sorted);
            NoCycle(g, {ALL}, sorted) ==>
              && (forall m :: m in kept <==> Reachable(g, {ALL}, Out(g, ALL), m) && !Blocked(g, build, m))
              && (forall i, v | 0 <= i < |kept| && Requires(g, kept[i], v) && v != ALL :: v in kept[..i])
  {
    hide Walk, Collected, Blocked, NoCycle;
    var g := GraphOf(source, Options(false, true, dirs), ALL, Some(Selected(modules)));
    var sorted := Names(Walk(g, {}, {ALL}, Out(g, ALL)).ordered);
    assert {} + {ALL} == {ALL};
    SortMeaning(g, {}, sorted);
    if NoCycle(g, {ALL}, sorted) {
      CollectedExactly(g, build, sorted);
    }
  }

  /** Two modules that require each other, one of which also requires `c`. */
  const CYCLIC: Graph := map["a" := [Dep("b", "", true), Dep("c", "", true)], "b" := [Dep("a", "", true)]]

  lemma CyclicSorts()
    ensures Names(Walk(CYCLIC, {}, {ALL}, [Dep("a", "HEAD", false)]).ordered) == ["b", "c", "a"]
  {
    var b, c := Dep("b", "", true), Dep("c", "", true);
    var start := {ALL} + {"a"};
    WalkOne(CYCLIC, {}, {ALL}, Dep("a", "HEAD", false));
    WalkConcat(CYCLIC, {}, start, [b], [c]);
    assert [b] + [c] == [b, c] == Out(CYCLIC, "a");
    WalkOne(CYCLIC, {}, start, b);
    WalkOne(CYCLIC, {}, start + {"b"}, Dep("a", "", true));
    assert Out(CYCLIC, "b") == [Dep("a", "", true)];
    WalkOne(CYCLIC, {}, start + {"b"}, c);
    UnfoldEmpty(CYCLIC, {}, start + {"b"} + {"c"});
    assert Out(CYCLIC, "c") == [];
  }

  lemma MarkAllUnfolds(g: Graph, build: Flags, init: seq<Repo>, last: Repo)
    ensures MarkAll(g, build, init + [last]) == MarkOne(g, MarkAll(g, build, init), last)
  {
    assert (init + [last])[..|init|] == init;
  }

  lemma CyclicMarks(build: Flags)
    requires build == map["c" := false]
    ensures !Disabled(MarkAll(CYCLIC, build, ["b", "c", "a"]), "b")
  {
    hide MarkAll;
    MarkAllIsBuild(CYCLIC, build);
    assert [] + ["b"] == ["b"] && ["b"] + ["c"] == ["b", "c"] && ["b", "c"] + ["a"] == ["b", "c", "a"];
    MarkAllUnfolds(CYCLIC, build, [], "b");
    MarkAllUnfolds(CYCLIC, build, ["b"], "c");
    MarkAllUnfolds(CYCLIC, build, ["b", "c"], "a");
    assert Out(CYCLIC, "b") == [Dep("a", "", true)];
  }

  lemma MarkAllIsBuild(g: Graph, build: Flags)
    ensures MarkAll(g, build, []) == build
  {
  }

  lemma CyclicBlocks(build: Flags)
    requires build == map["c" := false]
    ensures Blocked(CYCLIC, build, "b")
  {
    assert Requires(CYCLIC, "b", "a") by { assert Out(CYCLIC, "b")[0] == Dep("a", "", true); }
    assert Requires(CYCLIC, "a", "c") by { assert Out(CYCLIC, "a")[1] == Dep("c", "", true); }
    BlockedUnfolds(CYCLIC, build, "c");
    BlockedUnfolds(CYCLIC, build, "a");
    BlockedUnfolds(CYCLIC, build, "b");
  }

  /** With a cycle the pass can look too early: `b` is kept although it requires `a`, which requires the disabled `c`. */
  lemma CycleKeepsBlocked()
    ensures var build, sorted := map["c" := false], ["b", "c", "a"];
            && sorted == Names(Walk(CYCLIC, {}, {ALL}, [Dep("a", "HEAD", false)]).ordered)
            && "b" in Collected(CYCLIC, build, sorted) && Blocked(CYCLIC, build, "b")
  {
    hide MarkAll, Walk, Blocked, Enabled, CYCLIC;
    var build: Flags, sorted := map["c" := false], ["b", "c", "a"];
    CyclicSorts();
    CyclicMarks(build);
    CyclicBlocks(build);
    EnabledIsFilter(MarkAll(CYCLIC, build, sorted), sorted);
  }

  // ----- the loop -----

  /** One of `dependencies` is required and disabled. */
  method HasUnmet(dependencies: seq<Repo>, requiredDeps: seq<Repo>, build: Flags) returns (unmet: bool)
    ensures unmet <==> exists v | v in dependencies :: v in requiredDeps && Disabled(build, v)
  {
    var i := 0;
    while i < |dependencies|
      invariant 0 <= i <= |dependencies|
      invariant forall v | v in dependencies[..i] :: !(v in requiredDeps && Disabled(build, v))
    {
      if dependencies[i] in requiredDeps && Disabled(build, dependencies[i]) {
        return true;
      }
      i := i + 1;
    }
    assert dependencies[..i] == dependencies;
    return false;
  }

  /** What was recorded for a module tells whether a dependency is unmet. */
  lemma UnmetMeans(g: Graph, m: Repo, build: Flags)
    ensures (exists v | v in NamesOf(Out(g, m), false) :: v in NamesOf(Out(g, m), true) && Disabled(build, v))
            <==> exists d | d in Out(g, m) :: d.required && Disabled(build, d.name)
  {
    var all, required := NamesOf(Out(g, m), false), NamesOf(Out(g, m), true);
    if v :| v in all && v in required && Disabled(build, v) {
      var i :| 0 <= i < |required| && required[i] == v;
      RequiredOnlyHas(Out(g, m), RequiredOnly(Out(g, m))[i]);
    }
    if d :| d in Out(g, m) && d.required && Disabled(build, d.name) {
      RequiredOnlyHas(Out(g, m), d);
      var i :| 0 <= i < |Out(g, m)| && Out(g, m)[i] == d;
      assert all[i] == d.name;
      var j :| 0 <= j < |RequiredOnly(Out(g, m))| && RequiredOnly(Out(g, m))[j] == d;
      assert required[j] == d.name;
    }
  }

  /** The list while the loop is at `i`: what it has kept, and what it has not looked at. */
  function Remaining(g: Graph, flags: Flags, all: seq<Repo>, i: nat): seq<Repo>
    requires i <= |all|
  {
    Enabled(MarkAll(g, flags, all[..i]), all[..i]) + all[i..]
  }

  /** A module's mark does not change once it has been looked at. */
  lemma {:induction false} EnabledKeeps(g: Graph, build: Flags, modules: seq<Repo>, m: Repo)
    requires m !in modules
    ensures Enabled(MarkOne(g, build, m), modules) == Enabled(build, modules)
  {
    if modules != [] { EnabledKeeps(g, build, modules[..|modules| - 1], m); }
  }

  lemma RemainingStep(g: Graph, flags: Flags, all: seq<Repo>, i: nat)
    requires i < |all| && Distinct(all)
    ensures MarkAll(g, flags, all[..i + 1]) == MarkOne(g, MarkAll(g, flags, all[..i]), all[i])
    ensures Remaining(g, flags, all, i + 1) ==
            if Disabled(MarkAll(g, flags, all[..i + 1]), all[i]) then RemoveItems(Remaining(g, flags, all, i), [all[i]])
            else Remaining(g, flags, all, i)
  {
    var b, m := MarkAll(g, flags, all[..i]), all[i];
    assert all[..i + 1] == all[..i] + [m];
    MarkAllUnfolds(g, flags, all[..i], m);
    EnabledKeeps(g, b, all[..i], m);
    EnabledIsFilter(b, all[..i]);
    var kept := Enabled(b, all[..i]);
    assert all[i..] == [m] + all[i + 1..];
    assert Remaining(g, flags, all, i) == kept + [m] + all[i + 1..];
    RemoveTheOne(kept, m, all[i + 1..]);
  }

  /**
   The modules to build among `modules` and what they depend on, in a process that has resolved
   nothing before: disabled modules are dropped, and then those that require a dropped one.
   */
  method CollectModules(source: Source, dirs: set<Repo>, modules: seq<Repo>, flags: Flags, ghost g: Graph)
    returns (out: seq<Repo>)
    requires g == GraphOf(source, Options(false, true, dirs), ALL, Some(Selected(modules)))
    ensures out == Collected(g, flags, Names(Walk(g, {}, {ALL}, Out(g, ALL)).ordered))
  {
    hide *;
    var resolver := new Resolver(source, Options(false, true, dirs), {});
    var sorted := resolver.Sort(modules, g);
    var all, build := sorted.value, flags;
    SortMeaning(g, {}, all);
    out := all;
    LoopEnds(g, flags, all);
    var depsFor, requiredDepsFor := resolver.depsFor, resolver.requiredDepsFor;
    var i := 0;
    while i < |all|
      invariant 0 <= i <= |all|
      invariant build == MarkAll(g, flags, all[..i])
      invariant out == Remaining(g, flags, all, i)
    {
      var m := all[i];
      RemainingStep(g, flags, all, i);
      MarkOneMeans(g, build, m);
      if Disabled(build, m) {
        out := RemoveItems(out, [m]);
        i := i + 1;
        continue;
      }
      var dependencies, requiredDeps := Listed(depsFor, m), Listed(requiredDepsFor, m);
      assert m in all + [ALL];
      RecordedFirst(depsFor, g, all + [ALL], m, false);
      RecordedFirst(requiredDepsFor, g, all + [ALL], m, true);
      UnmetMeans(g, m, build);
      var unmet := HasUnmet(dependencies, requiredDeps, build);
      if unmet {
        build := build[m := false];
        out := RemoveItems(out, [m]);
      }
      i := i + 1;
    }
  }

  /** What a new process has recorded for a module it listed. */
  lemma RecordedFirst(prop: map<Repo, seq<Repo>>, g: Graph, listed: seq<Repo>, m: Repo, requiredOnly: bool)
    requires Recorded(prop, map[], g, listed, requiredOnly) && m in listed
    ensures Listed(prop, m) == NamesOf(Out(g, m), requiredOnly)
  {
    hide NamesOf, Out;
    assert Key(m);
    assert Gained(prop, map[], m, Out(g, m), requiredOnly);
  }

  /** The first and the last state of the loop. */
  lemma LoopEnds(g: Graph, flags: Flags, all: seq<Repo>)
    ensures MarkAll(g, flags, all[..0]) == flags && Remaining(g, flags, all, 0) == all
    ensures Remaining(g, flags, all, |all|) == Collected(g, flags, all)
  {
    assert all[..0] == [] && all[..|all|] == all && all[|all|..] == [];
  }

  lemma MarkOneMeans(g: Graph, build: Flags, m: Repo)
    ensures MarkOne(g, build, m) ==
            if !Disabled(build, m) && exists d | d in Out(g, m) :: d.required && Disabled(build, d.name)
            then build[m := false] else build
    ensures Disabled(build[m := false], m)
  {
  }
}
