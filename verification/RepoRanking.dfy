/**
 Repositories with one order for all their commits, in which every dependencies.yaml lists only lower
 ones. It is a special case of `RepoSync.Scoped`, in which the revision wanted of a repository depends
 only on the higher ones, and the sync loop can be followed by rank.
 */
module RepoRanking {
  import opened DependencyGraph
  import opened RepoSync
  import opened Results

  // ----- what a revision depends on -----

  /** The revision a plan has for `m`. */
  function Wanted(plan: seq<Visit>, m: Repo): Option<string> {
    if plan == [] then None
    else if plan[0].name == m then Some(plan[0].revision)
    else Wanted(plan[1..], m)
  }

  lemma {:induction false} WantedIs(plan: seq<Visit>, j: nat)
    requires j < |plan| && Distinct(Names(plan))
    ensures Wanted(plan, plan[j].name) == Some(plan[j].revision)
  {
    if j > 0 {
      assert Names(plan)[0] != Names(plan)[j];
      TailDistinct(plan);
      WantedIs(plan[1..], j - 1);
    }
  }

  lemma TailDistinct(plan: seq<Visit>)
    requires plan != [] && Distinct(Names(plan))
    ensures Distinct(Names(plan[1..]))
  {
    assert Names(plan[1..]) == Names(plan)[1..];
  }

  lemma {:induction false} WantedIn(plan: seq<Visit>, m: Repo)
    requires Wanted(plan, m).Some?
    ensures exists j | 0 <= j < |plan| :: plan[j] == Visit(m, Wanted(plan, m).value)
  {
    if plan[0].name == m {
      assert plan[0] == Visit(m, Wanted(plan, m).value);
    } else {
      WantedIn(plan[1..], m);
      var j :| 0 <= j < |plan[1..]| && plan[1..][j] == Visit(m, Wanted(plan, m).value);
      assert plan[j + 1] == Visit(m, Wanted(plan, m).value);
    }
  }

  /** The entries of a plan, or of a file, that name one of `hi`. */
  function Visits(vs: seq<Visit>, hi: set<Repo>): seq<Visit> {
    if vs == [] then []
    else if vs[0].name in hi then [vs[0]] + Visits(vs[1..], hi)
    else Visits(vs[1..], hi)
  }

  function Entries(ds: seq<Dep>, hi: set<Repo>): seq<Dep> {
    if ds == [] then []
    else if ds[0].name in hi then [ds[0]] + Entries(ds[1..], hi)
    else Entries(ds[1..], hi)
  }

  lemma {:induction false} VisitsConcat(a: seq<Visit>, b: seq<Visit>, hi: set<Repo>)
    ensures Visits(a + b, hi) == Visits(a, hi) + Visits(b, hi)
  {
    if a == [] {
      assert a + b == b;
    } else {
      assert (a + b)[1..] == a[1..] + b;
      VisitsConcat(a[1..], b, hi);
    }
  }

  lemma {:induction false} NoEntries(ds: seq<Dep>, hi: set<Repo>)
    requires forall d | d in ds :: d.name !in hi
    ensures Entries(ds, hi) == []
  {
    if ds != [] { NoEntries(ds[1..], hi); }
  }

  lemma {:induction false} WantedVisits(vs: seq<Visit>, hi: set<Repo>, m: Repo)
    requires m in hi
    ensures Wanted(Visits(vs, hi), m) == Wanted(vs, m)
  {
    if vs != [] {
      WantedVisits(vs[1..], hi, m);
      if vs[0].name in hi {
        assert Visits(vs, hi)[1..] == Visits(vs[1..], hi);
      }
    }
  }

  /** The graph cut down to `hi`: its modules, and their entries that name one of them. */
  function Cut(g: Graph, hi: set<Repo>): Graph {
    map m | m in g && m in hi :: Entries(g[m], hi)
  }

  /** Within `scope`, which no dependency leaves, no module outside `hi` depends on one inside. */
  ghost predicate UpperSet(g: Graph, scope: set<Repo>, hi: set<Repo>) {
    forall m, d: Dep | m in g && m in scope && d in g[m] :: d.name in scope && (m !in hi ==> d.name !in hi)
  }

  ghost predicate SameWalk(hi: set<Repo>, r: Walked, cut: Walked) {
    cut.ordered == Visits(r.ordered, hi) && cut.seen == r.seen * hi
  }

  lemma JoinedSameWalk(hi: set<Repo>, d: Dep, inner: Walked, after: Walked, cutInner: Walked, cutAfter: Walked)
    requires SameWalk(hi, inner, cutInner) && SameWalk(hi, after, cutAfter) && d.name in hi
    ensures SameWalk(hi, Joined(d, inner, after), Joined(d, cutInner, cutAfter))
  {
    var v := Visit(d.name, RevisionOf(d));
    assert inner.ordered + [v] + after.ordered == inner.ordered + ([v] + after.ordered);
    VisitsConcat(inner.ordered, [v] + after.ordered, hi);
    VisitsConcat([v], after.ordered, hi);
    assert Visits([v], hi) == [v];
  }

  lemma JoinedLowWalk(hi: set<Repo>, d: Dep, inner: Walked, after: Walked, cutAfter: Walked)
    requires Visits(inner.ordered, hi) == [] && SameWalk(hi, after, cutAfter) && d.name !in hi
    ensures SameWalk(hi, Joined(d, inner, after), cutAfter)
  {
    var v := Visit(d.name, RevisionOf(d));
    assert inner.ordered + [v] + after.ordered == inner.ordered + ([v] + after.ordered);
    VisitsConcat(inner.ordered, [v] + after.ordered, hi);
    VisitsConcat([v], after.ordered, hi);
    assert Visits([v], hi) == [];
  }

  /** What a walk lists of an upper set it would list in the graph cut down to it, at the same revisions. */
  lemma {:induction false} WalkCut(g: Graph, scope: set<Repo>, hi: set<Repo>, seen: set<Repo>, deps: seq<Dep>)
    requires UpperSet(g, scope, hi) && forall d | d in deps :: d.name in scope
    ensures SameWalk(hi, Walk(g, {}, seen, deps), Walk(Cut(g, hi), {}, seen * hi, Entries(deps, hi)))
    decreases |g.Keys - seen|, |deps|
  {
    hide Walk;
    var cut, low := Cut(g, hi), Entries(deps, hi);
    if deps == [] {
      UnfoldEmpty(g, {}, seen);
      UnfoldEmpty(cut, {}, seen * hi);
    } else {
      var d, rest := deps[0], deps[1..];
      if d.name in hi {
        assert low[0] == d && low[1..] == Entries(rest, hi);
      }
      if d.name in seen {
        WalkCut(g, scope, hi, seen, rest);
        UnfoldPassed(g, {}, seen, deps);
        if d.name in hi { UnfoldPassed(cut, {}, seen * hi, low); }
      } else {
        KeysLeft(g, seen, d.name);
        var inner := Walk(g, {}, seen + {d.name}, Out(g, d.name));
        KeysLeftShrink(g, seen, inner.seen);
        WalkCut(g, scope, hi, seen + {d.name}, Out(g, d.name));
        WalkCut(g, scope, hi, inner.seen, rest);
        UnfoldVisit(g, {}, seen, deps, inner);
        WalkCutVisit(g, scope, hi, seen, deps, inner);
      }
    }
  }

  lemma WalkCutVisit(g: Graph, scope: set<Repo>, hi: set<Repo>, seen: set<Repo>, deps: seq<Dep>, inner: Walked)
    requires UpperSet(g, scope, hi) && deps != [] && deps[0].name in scope && deps[0].name !in seen
    requires SameWalk(hi, inner, Walk(Cut(g, hi), {}, (seen + {deps[0].name}) * hi, Entries(Out(g, deps[0].name), hi)))
    requires SameWalk(hi, Walk(g, {}, inner.seen, deps[1..]),
                      Walk(Cut(g, hi), {}, inner.seen * hi, Entries(deps[1..], hi)))
    ensures SameWalk(hi, Joined(deps[0], inner, Walk(g, {}, inner.seen, deps[1..])),
                     Walk(Cut(g, hi), {}, seen * hi, Entries(deps, hi)))
  {
    hide Walk;
    var d, rest, cut, low := deps[0], deps[1..], Cut(g, hi), Entries(deps, hi);
    var after := Walk(g, {}, inner.seen, rest);
    if d.name in hi {
      assert low[0] == d && low[1..] == Entries(rest, hi);
      assert Entries(Out(g, d.name), hi) == Out(cut, d.name);
      assert (seen + {d.name}) * hi == seen * hi + {d.name};
      var cutInner := Walk(cut, {}, seen * hi + {d.name}, Out(cut, d.name));
      UnfoldVisit(cut, {}, seen * hi, low, cutInner);
      JoinedSameWalk(hi, d, inner, after, cutInner, Walk(cut, {}, cutInner.seen, low[1..]));
    } else {
      assert forall e | e in Out(g, d.name) :: e.name !in hi;
      NoEntries(Out(g, d.name), hi);
      assert (seen + {d.name}) * hi == seen * hi;
      UnfoldEmpty(cut, {}, seen * hi);
      JoinedLowWalk(hi, d, inner, after, Walk(cut, {}, inner.seen * hi, Entries(rest, hi)));
    }
  }

  // ----- the ranking -----

  /**
   One order of repositories, whatever their revisions, in which every dependencies.yaml of a
   repository at `k` lists only repositories after it; the highest come first.
   */
  ghost predicate Ranked(w: World, order: seq<Repo>) {
    && Distinct(order)
    && forall k, c, d | 0 <= k < |order| && d in w.yaml(order[k], c) :: d.name in order[k + 1..]
  }

  /** The repositories ranked `k` or higher. */
  function Above(order: seq<Repo>, k: nat): set<Repo>
    requires k < |order|
  {
    set j | 0 <= j <= k :: order[j]
  }

  function Scope(order: seq<Repo>): set<Repo> {
    set m | m in order
  }

  lemma RankedUpperSet(w: World, t: Tree, order: seq<Repo>, k: nat)
    requires Ranked(w, order) && k < |order|
    ensures UpperSet(GraphOf(w, t), Scope(order), Above(order, k))
  {
    var g := GraphOf(w, t);
    forall m, d: Dep | m in g && m in Scope(order) && d in g[m]
      ensures d.name in Scope(order) && (m !in Above(order, k) ==> d.name !in Above(order, k))
    {
      var i :| 0 <= i < |order| && order[i] == m;
      assert d in w.yaml(order[i], t[m]);
      assert d.name in order[i + 1..];
      var j :| i + 1 <= j < |order| && order[j] == d.name;
    }
  }

  /** Two trees that have the repositories ranked above `k` alike. */
  ghost predicate AgreeAbove(t: Tree, u: Tree, order: seq<Repo>, k: nat)
    requires k < |order|
  {
    forall j | 0 <= j < k :: Lookup(t, order[j]) == Lookup(u, order[j])
  }

  lemma SameCut(w: World, t: Tree, u: Tree, order: seq<Repo>, k: nat)
    requires Ranked(w, order) && k < |order| && AgreeAbove(t, u, order, k)
    ensures forall m :: Out(Cut(GraphOf(w, t), Above(order, k)), m) == Out(Cut(GraphOf(w, u), Above(order, k)), m)
  {
    var hi := Above(order, k);
    forall m
      ensures Out(Cut(GraphOf(w, t), hi), m) == Out(Cut(GraphOf(w, u), hi), m)
    {
      if m in hi {
        var j :| 0 <= j <= k && order[j] == m;
        if j < k {
          assert Lookup(t, order[j]) == Lookup(u, order[j]);
        } else {
          LastHasNoEntries(w, t, order, k);
          LastHasNoEntries(w, u, order, k);
        }
      }
    }
  }

  /** The lowest repository of an upper set has no dependencies in it. */
  lemma LastHasNoEntries(w: World, t: Tree, order: seq<Repo>, k: nat)
    requires Ranked(w, order) && k < |order|
    ensures Out(Cut(GraphOf(w, t), Above(order, k)), order[k]) == []
  {
    var m, hi := order[k], Above(order, k);
    if m in t {
      forall d | d in w.yaml(m, t[m])
        ensures d.name !in hi
      {
        var j :| 0 <= j < |order[k + 1..]| && order[k + 1..][j] == d.name;
        assert order[k + 1 + j] == d.name;
      }
      NoEntries(w.yaml(m, t[m]), hi);
    }
  }

  /** A walk only looks at what modules depend on, not at which of them have an entry in the graph. */
  lemma {:induction false} WalkSameOut(g: Graph, h: Graph, seen: set<Repo>, deps: seq<Dep>)
    requires forall m :: Out(g, m) == Out(h, m)
    ensures Walk(g, {}, seen, deps) == Walk(h, {}, seen, deps)
    decreases |g.Keys - seen|, |deps|
  {
    if deps == [] {
    } else if deps[0].name in seen {
      WalkSameOut(g, h, seen, deps[1..]);
    } else {
      KeysLeft(g, seen, deps[0].name);
      var inner := Walk(g, {}, seen + {deps[0].name}, Out(g, deps[0].name));
      KeysLeftShrink(g, seen, inner.seen);
      WalkSameOut(g, h, seen + {deps[0].name}, Out(g, deps[0].name));
      WalkSameOut(g, h, inner.seen, deps[1..]);
    }
  }

  /** The key to termination: the revision wanted of a repository depends only on higher-ranked ones. */
  lemma WantedDependsOnHigher(w: World, t: Tree, u: Tree, root: Repo, order: seq<Repo>, k: nat)
    requires Ranked(w, order) && root in order && k < |order| && AgreeAbove(t, u, order, k)
    ensures Wanted(Plan(w, t, root), order[k]) == Wanted(Plan(w, u, root), order[k])
  {
    var hi, none: set<Repo>, deps := Above(order, k), {}, [Dep(root, "", true)];
    var gt, gu := GraphOf(w, t), GraphOf(w, u);
    RankedUpperSet(w, t, order, k);
    RankedUpperSet(w, u, order, k);
    WalkCut(gt, Scope(order), hi, none, deps);
    WalkCut(gu, Scope(order), hi, none, deps);
    SameCut(w, t, u, order, k);
    WalkSameOut(Cut(gt, hi), Cut(gu, hi), none * hi, Entries(deps, hi));
    assert order[k] in hi;
    WantedVisits(Plan(w, t, root), hi, order[k]);
    WantedVisits(Plan(w, u, root), hi, order[k]);
  }

  lemma RankedIsScoped(w: World, order: seq<Repo>)
    requires Ranked(w, order)
    ensures Scoped(w, Scope(order))
  {
    forall m, c, d | m in Scope(order) && d in w.yaml(m, c)
      ensures d.name in Scope(order)
    {
      var k :| 0 <= k < |order| && order[k] == m;
      var j := RankedBelow(w, order, k, c, d);
    }
  }

  /** The reverse does not hold: `a` at one commit depends on `b`, and `b` at another one on `a`. */
  const FLIP: World := World((m, c) => if m == "a" && c == "1" then [Dep("b", "2", true)]
                                       else if m == "b" && c == "2" then [Dep("a", "1", true)] else [],
                             (m, r) => Some(r), (m, r) => Some(r))

  lemma FlipIsNotRanked(order: seq<Repo>)
    requires "a" in order
    ensures Scoped(FLIP, {"a", "b"}) && CommitIds(FLIP, {"a", "b"}) && !Ranked(FLIP, order)
  {
    var a, b := Dep("a", "1", true), Dep("b", "2", true);
    if Ranked(FLIP, order) {
      var i :| 0 <= i < |order| && order[i] == "a";
      var j := RankedBelow(FLIP, order, i, "1", b);
      var k := RankedBelow(FLIP, order, j, "2", a);
    }
  }

  /** What a file names is ranked lower. */
  lemma RankedBelow(w: World, order: seq<Repo>, k: nat, c: Commit, d: Dep) returns (j: nat)
    requires Ranked(w, order) && k < |order| && d in w.yaml(order[k], c)
    ensures k < j < |order| && order[j] == d.name
  {
    var rest := order[k + 1..];
    assert d.name in rest;
    var i :| 0 <= i < |rest| && rest[i] == d.name;
    j := k + 1 + i;
    assert order[j] == d.name;
  }

  // ----- the bit vector by rank -----

  /** `m` is wanted at a revision that its work tree is not at. */
  predicate WantsChange(w: World, t: Tree, root: Repo, m: Repo) {
    var r := Wanted(Plan(w, t, root), m);
    r.Some? && !Settled(t, Visit(m, r.value))
  }

  /** The unsettled repositories as a bit vector, the highest rank first. */
  function RankBits(w: World, t: Tree, root: Repo, order: seq<Repo>): (bits: seq<bool>)
    ensures |bits| == |order| && forall k | 0 <= k < |order| :: bits[k] == WantsChange(w, t, root, order[k])
  {
    seq(|order|, k requires 0 <= k < |order| => WantsChange(w, t, root, order[k]))
  }

  /** The highest-ranked repository that a pass changed. */
  lemma HighestChanged(t: Tree, u: Tree, order: seq<Repo>, i: nat) returns (h: nat)
    requires i < |order| && Lookup(t, order[i]) != Lookup(u, order[i])
    ensures h < |order| && Lookup(t, order[h]) != Lookup(u, order[h]) && AgreeAbove(t, u, order, h)
  {
    h := 0;
    while Lookup(t, order[h]) == Lookup(u, order[h])
      invariant h <= i && AgreeAbove(t, u, order, h)
      decreases i - h
    {
      h := h + 1;
    }
  }

  /**
   A pass that asks for another one lowers the bit vector: the highest repository it changed becomes
   settled and nothing above it changes, even though the plan was not refreshed between its checkouts.
   */
  lemma RankedPassLowers(w: World, t: Tree, root: Repo, order: seq<Repo>)
    requires Ranked(w, order) && root in order && CommitIds(w, Scope(order))
    requires Pass(w, t, root).Done? && Pass(w, t, root).again
    ensures Value(RankBits(w, Pass(w, t, root).tree, root, order)) < Value(RankBits(w, t, root, order))
  {
    var plan, u := Plan(w, t, root), Pass(w, t, root).tree;
    var h := HighestOfPass(w, t, root, order);
    ChangedSettles(w, t, u, root, order, h, plan);
    forall k | 0 <= k < h
      ensures RankBits(w, t, root, order)[k] == RankBits(w, u, root, order)[k]
    {
      WantedDependsOnHigher(w, t, u, root, order, k);
    }
    ClearingLowers(RankBits(w, t, root, order), RankBits(w, u, root, order), h);
  }

  lemma HighestOfPass(w: World, t: Tree, root: Repo, order: seq<Repo>) returns (h: nat)
    requires Ranked(w, order) && root in order && CommitIds(w, Scope(order))
    requires Pass(w, t, root).Done? && Pass(w, t, root).again
    ensures h < |order| && AgreeAbove(t, Pass(w, t, root).tree, order, h)
    ensures var plan := Plan(w, t, root);
            && Distinct(Names(plan))
            && exists j | 0 <= j < |plan| ::
                 plan[j].name == order[h] && !Settled(t, plan[j]) && Settled(Pass(w, t, root).tree, plan[j])
  {
    var plan, u := Plan(w, t, root), Pass(w, t, root).tree;
    RankedIsScoped(w, order);
    PlanDistinct(w, t, root);
    PlanPinned(w, t, root, Scope(order));
    PassFromChanges(w, t, plan, |plan|, false);
    var m :| Lookup(u, m) != Lookup(t, m);
    var j :| 0 <= j < |plan| && plan[j].name == m;
    assert Names(plan)[j] == m;
    PlanInScope(w, t, root, Scope(order), m);
    var i :| 0 <= i < |order| && order[i] == m;
    h := HighestChanged(t, u, order, i);
  }

  lemma ChangedSettles(w: World, t: Tree, u: Tree, root: Repo, order: seq<Repo>, h: nat, plan: seq<Visit>)
    requires Ranked(w, order) && root in order && h < |order| && AgreeAbove(t, u, order, h)
    requires plan == Plan(w, t, root) && Distinct(Names(plan))
    requires exists j | 0 <= j < |plan| :: plan[j].name == order[h] && !Settled(t, plan[j]) && Settled(u, plan[j])
    ensures WantsChange(w, t, root, order[h]) && !WantsChange(w, u, root, order[h])
  {
    var j :| 0 <= j < |plan| && plan[j].name == order[h] && !Settled(t, plan[j]) && Settled(u, plan[j]);
    WantedIs(plan, j);
    WantedDependsOnHigher(w, t, u, root, order, h);
  }
}
