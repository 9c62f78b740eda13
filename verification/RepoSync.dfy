/**
 Checking out a module and its dependencies to a consistent set: the loop of `qt_internal_sync_to`.
 Every checkout may change the graph, because it brings in another dependencies.yaml.
 */
module RepoSync {
  import opened DependencyGraph
  import opened FirstVisits
  import opened Results
  import ModuleResolver

  type Commit = string

  /** The repositories that have a work tree, and the commit each is at. */
  type Tree = map<Repo, Commit>

  /**
   What git answers: the dependencies.yaml of a repository at a commit; where HEAD is after a
   repository was acquired, or checked out to a revision; None when that fails, which ends the run.
   */
  datatype World = World(yaml: (Repo, Commit) -> seq<Dep>,
                         acquire: (Repo, string) -> Option<Commit>,
                         checkout: (Repo, string) -> Option<Commit>)

  function GraphOf(w: World, t: Tree): Graph {
    map m | m in t :: w.yaml(m, t[m])
  }

  /** The modules to visit with their revisions, dependencies first. */
  function Plan(w: World, t: Tree, root: Repo): seq<Visit> {
    Resolve(GraphOf(w, t), {}, root, "").ordered
  }

  datatype Outcome = Aborted | Done(tree: Tree, again: bool)

  /** The rest of a pass, down from entry `i - 1` of the plan; the plan is not refreshed on the way. */
  function PassFrom(w: World, t: Tree, plan: seq<Visit>, i: nat, again: bool): Outcome
    requires i <= |plan|
    decreases i
  {
    if i == 0 then Done(t, again)
    else if plan[i - 1].revision == "HEAD" then PassFrom(w, t, plan, i - 1, again)
    else
      var v := plan[i - 1];
      var head := if v.name in t then Some(t[v.name]) else w.acquire(v.name, v.revision);
      if head.None? then Aborted
      else if head.value == v.revision then
        PassFrom(w, t[v.name := head.value], plan, i - 1, again || v.name !in t)
      else
        var c := w.checkout(v.name, v.revision);
        if c.None? then Aborted else Done(t[v.name := c.value], true)
  }

  function Pass(w: World, t: Tree, root: Repo): Outcome {
    PassFrom(w, t, Plan(w, t, root), |Plan(w, t, root)|, false)
  }

  // ----- when the loop exits -----

  /** The work tree of an entry is where the entry wants it. */
  predicate Settled(t: Tree, v: Visit) {
    v.revision == "HEAD" || (v.name in t && t[v.name] == v.revision)
  }

  predicate AllSettled(t: Tree, plan: seq<Visit>) {
    forall v | v in plan :: Settled(t, v)
  }

  lemma {:induction false} PassFromExits(w: World, t: Tree, plan: seq<Visit>, i: nat)
    requires i <= |plan|
    ensures PassFrom(w, t, plan, i, true) != Done(t, false)
    ensures PassFrom(w, t, plan, i, true).Done? ==> PassFrom(w, t, plan, i, true).again
    ensures var r := PassFrom(w, t, plan, i, false);
            r.Done? && !r.again <==> forall j | 0 <= j < i :: Settled(t, plan[j])
    ensures (forall j | 0 <= j < i :: Settled(t, plan[j])) ==> PassFrom(w, t, plan, i, false) == Done(t, false)
    decreases i
  {
    if i > 0 {
      var v := plan[i - 1];
      PassFromExits(w, t, plan, i - 1);
      if v.name in t {
        assert t[v.name := t[v.name]] == t;
      } else if w.acquire(v.name, v.revision).Some? {
        PassFromExits(w, t[v.name := w.acquire(v.name, v.revision).value], plan, i - 1);
      }
    }
  }

  /**
   Exit consistency, for any starting work tree and any graph: a pass ends the loop if and only if
   every module of a fresh resolution is present at its resolved revision, except those resolved as
   HEAD; and then it has changed nothing.
   */
  lemma ExitsExactlyWhenSettled(w: World, t: Tree, root: Repo)
    ensures var r := Pass(w, t, root);
            && (r.Done? && !r.again <==> AllSettled(t, Plan(w, t, root)))
            && (r.Done? && !r.again ==> r.tree == t)
  {
    var plan := Plan(w, t, root);
    PassFromExits(w, t, plan, |plan|);
    if forall j | 0 <= j < |plan| :: Settled(t, plan[j]) {
      assert AllSettled(t, plan);
    }
  }

  // ----- what a pass does -----

  /** Where HEAD of an entry is when the pass gets to it; a missing one is acquired first. */
  function HeadAt(w: World, t: Tree, v: Visit): Option<Commit> {
    if v.name in t then Some(t[v.name]) else w.acquire(v.name, v.revision)
  }

  /** The pass goes no further down than this entry. */
  predicate Stops(w: World, t: Tree, v: Visit) {
    v.revision != "HEAD" && HeadAt(w, t, v) != Some(v.revision)
  }

  /** What the work tree `t` becomes: the entry `q` is checked out, the missing ones behind it are acquired. */
  ghost predicate Moved(w: World, t: Tree, plan: seq<Visit>, i: nat, q: int, u: Tree)
    requires -1 <= q < i <= |plan|
  {
    && (q >= 0 ==> Lookup(u, plan[q].name) == w.checkout(plan[q].name, plan[q].revision))
    && (forall j | q < j < i && plan[j].revision != "HEAD" :: Lookup(u, plan[j].name) == Some(plan[j].revision))
    && forall m | !Wants(plan, i, q, m) :: Lookup(u, m) == Lookup(t, m)
  }

  /** An entry of the plan from `q` on wants `m` at a revision. */
  predicate Wants(plan: seq<Visit>, i: nat, q: int, m: Repo)
    requires i <= |plan|
  {
    exists j | 0 <= j < i :: q <= j && plan[j].name == m && plan[j].revision != "HEAD"
  }

  /**
   A pass, entry by entry: it stops at the last entry `q` of the plan that is neither where it is wanted
   nor brought there by acquiring it (-1: there is none), and checks it out; it aborts exactly if that
   entry cannot be acquired or checked out. Missing entries behind it are acquired, and nothing else
   changes; there is another pass exactly if anything was acquired or checked out.
   */
  lemma {:induction false} PassExactly(w: World, t: Tree, plan: seq<Visit>, i: nat, q: int, again: bool)
    requires -1 <= q < i <= |plan| && Distinct(Names(plan))
    requires (q >= 0 ==> Stops(w, t, plan[q])) && forall j | q < j < i :: !Stops(w, t, plan[j])
    ensures var r := PassFrom(w, t, plan, i, again);
            && (r.Aborted? <==>
                q >= 0 && (HeadAt(w, t, plan[q]).None? || w.checkout(plan[q].name, plan[q].revision).None?))
            && (r.Done? ==> Moved(w, t, plan, i, q, r.tree) && (r.again <==> again || q >= 0 || Lacks(t, plan, i)))
    decreases i
  {
    if i > 0 {
      var v := plan[i - 1];
      if i - 1 == q {
        assert Wants(plan, i, q, v.name);
      } else {
        var t1 := if v.revision == "HEAD" then t else t[v.name := v.revision];
        var more := again || (v.revision != "HEAD" && v.name !in t);
        PassGoesOn(w, t, plan, i, again, t1, more);
        hide PassFrom, Moved, Lacks, Stops, HeadAt, Distinct;
        PassExactly(w, t1, plan, i - 1, q, more);
        var u := PassFrom(w, t1, plan, i - 1, more);
        if u.Done? { MovedMore(w, t, t1, plan, i, q, u.tree); }
      }
    }
  }

  /** Some entry wants a revision of a repository without a work tree. */
  predicate Lacks(t: Tree, plan: seq<Visit>, i: nat)
    requires i <= |plan|
  {
    exists j | 0 <= j < i :: plan[j].revision != "HEAD" && plan[j].name !in t
  }

  lemma PassGoesOn(w: World, t: Tree, plan: seq<Visit>, i: nat, again: bool, t1: Tree, more: bool)
    requires 0 < i <= |plan| && Distinct(Names(plan)) && !Stops(w, t, plan[i - 1])
    requires t1 == if plan[i - 1].revision == "HEAD" then t else t[plan[i - 1].name := plan[i - 1].revision]
    requires more == (again || (plan[i - 1].revision != "HEAD" && plan[i - 1].name !in t))
    ensures PassFrom(w, t, plan, i, again) == PassFrom(w, t1, plan, i - 1, more)
    ensures forall j | 0 <= j < i - 1 ::
              Stops(w, t1, plan[j]) == Stops(w, t, plan[j]) && HeadAt(w, t1, plan[j]) == HeadAt(w, t, plan[j])
    ensures more || Lacks(t1, plan, i - 1) <==> again || Lacks(t, plan, i)
  {
    var v := plan[i - 1];
    forall j | 0 <= j < i - 1
      ensures plan[j].name != v.name && HeadAt(w, t1, plan[j]) == HeadAt(w, t, plan[j])
    {
      assert Names(plan)[j] != Names(plan)[i - 1];
    }
  }

  lemma MovedMore(w: World, t: Tree, t1: Tree, plan: seq<Visit>, i: nat, q: int, u: Tree)
    requires -1 <= q < i - 1 < |plan| && Distinct(Names(plan)) && Moved(w, t1, plan, i - 1, q, u)
    requires t1 == if plan[i - 1].revision == "HEAD" then t else t[plan[i - 1].name := plan[i - 1].revision]
    ensures Moved(w, t, plan, i, q, u)
  {
    var v := plan[i - 1];
    forall j | 0 <= j < i - 1
      ensures plan[j].name != v.name
    {
      assert Names(plan)[j] != Names(plan)[i - 1];
    }
    forall m
      ensures Wants(plan, i, q, m) <==> Wants(plan, i - 1, q, m) || (v.name == m && v.revision != "HEAD")
    {
      if v.name == m && v.revision != "HEAD" { assert plan[i - 1].name == m; }
    }
  }

  /** Every acquire and checkout in `scope` succeeds. */
  ghost predicate Succeeds(w: World, scope: set<Repo>) {
    && (forall m, r | m in scope :: w.acquire(m, r).Some?)
    && forall m, r | m in scope :: w.checkout(m, r).Some?
  }

  lemma {:induction false} PassFromSucceeds(w: World, t: Tree, plan: seq<Visit>, i: nat, again: bool, scope: set<Repo>)
    requires i <= |plan| && Succeeds(w, scope) && forall v | v in plan :: v.name in scope
    ensures PassFrom(w, t, plan, i, again).Done?
    decreases i
  {
    if i > 0 {
      var v := plan[i - 1];
      assert v in plan;
      PassFromSucceeds(w, t, plan, i - 1, again, scope);
      var head := HeadAt(w, t, v);
      PassFromSucceeds(w, t[v.name := head.value], plan, i - 1, again || v.name !in t, scope);
    }
  }

  // ----- what a pass changes -----

  /** The revision names a commit: a checkout, when it succeeds, puts HEAD at the revision itself. */
  predicate Pins(w: World, name: Repo, revision: string) {
    revision == "HEAD" || w.checkout(name, revision).None? || w.checkout(name, revision) == Some(revision)
  }

  ghost predicate PlanPins(w: World, plan: seq<Visit>) {
    forall v | v in plan :: Pins(w, v.name, v.revision)
  }

  /** Everything a pass changes was unsettled in the plan and is then where the plan wants it. */
  lemma {:induction false} PassFromChanges(w: World, t: Tree, plan: seq<Visit>, i: nat, again: bool)
    requires i <= |plan| && Distinct(Names(plan)) && PlanPins(w, plan)
    requires PassFrom(w, t, plan, i, again).Done?
    ensures var r := PassFrom(w, t, plan, i, again);
            && (forall m | Lookup(r.tree, m) != Lookup(t, m) ::
                  exists j | 0 <= j < i :: plan[j].name == m && !Settled(t, plan[j]) && Settled(r.tree, plan[j]))
            && (r.again && !again ==> exists m :: Lookup(r.tree, m) != Lookup(t, m))
    decreases i
  {
    if i > 0 {
      var v := plan[i - 1];
      var r := PassFrom(w, t, plan, i, again);
      if v.revision == "HEAD" || (v.name in t && t[v.name] == v.revision) {
        if v.revision != "HEAD" { assert t[v.name := t[v.name]] == t; }
        PassFromChanges(w, t, plan, i - 1, again);
      } else {
        assert Names(plan)[i - 1] == v.name;
        if v.name !in t && w.acquire(v.name, v.revision) == Some(v.revision) {
          var t1 := t[v.name := v.revision];
          PassFromChanges(w, t1, plan, i - 1, true);
          assert forall j | 0 <= j < i - 1 :: Names(plan)[j] != v.name;
          forall m | Lookup(r.tree, m) != Lookup(t, m)
            ensures exists j | 0 <= j < i :: plan[j].name == m && !Settled(t, plan[j]) && Settled(r.tree, plan[j])
          {
            if m == v.name {
              assert plan[i - 1].name == m;
            } else {
              var j :| 0 <= j < i - 1 && plan[j].name == m && !Settled(t1, plan[j]) && Settled(r.tree, plan[j]);
              assert !Settled(t, plan[j]);
            }
          }
          assert Lookup(r.tree, v.name) != Lookup(t, v.name);
        } else {
          assert Lookup(r.tree, v.name) == Some(v.revision) != Lookup(t, v.name);
          assert plan[i - 1].name == v.name;
        }
      }
    }
  }

  function Lookup(t: Tree, m: Repo): Option<Commit> {
    if m in t then Some(t[m]) else None
  }

  // ----- first visits -----

  /** The plan in the order of first visit, the root first. */
  function FirstPlan(w: World, t: Tree, root: Repo): seq<Visit> {
    PreWalk(GraphOf(w, t), {}, [Dep(root, "", true)])
  }

  /** The work trees of the first `n` modules visited are the same. */
  ghost predicate SameTrees(t: Tree, u: Tree, visits: seq<Visit>, n: nat) {
    forall j | 0 <= j < n && j < |visits| :: Lookup(t, visits[j].name) == Lookup(u, visits[j].name)
  }

  /**
   The key to termination: which module is visited next, and at which revision it is wanted, depends
   only on the work trees of the modules visited before it.
   */
  lemma NextDependsOnVisited(w: World, t: Tree, u: Tree, root: Repo, n: nat)
    requires SameTrees(t, u, FirstPlan(w, t, root), n)
    ensures Take(FirstPlan(w, t, root), n + 1) == Take(FirstPlan(w, u, root), n + 1)
  {
    hide PreWalk;
    SameOuts(w, t, u, FirstPlan(w, t, root), n);
    PreAgree(GraphOf(w, t), GraphOf(w, u), {}, [Dep(root, "", true)], n);
  }

  lemma SameOuts(w: World, t: Tree, u: Tree, visits: seq<Visit>, n: nat)
    requires SameTrees(t, u, visits, n)
    ensures AgreeOn(GraphOf(w, t), GraphOf(w, u), visits, n)
  {
  }

  lemma InFirstPlan(w: World, t: Tree, root: Repo, v: Visit)
    ensures v in FirstPlan(w, t, root) <==> v in Plan(w, t, root)
    ensures |FirstPlan(w, t, root)| == |Plan(w, t, root)|
    ensures Distinct(Names(FirstPlan(w, t, root))) && Distinct(Names(Plan(w, t, root)))
  {
    hide PreWalk, Walk, Distinct;
    VisitIn(GraphOf(w, t), {}, [Dep(root, "", true)], v);
    FirstVisitsDistinct(GraphOf(w, t), {}, [Dep(root, "", true)]);
    PlanDistinct(w, t, root);
  }

  lemma PlanDistinct(w: World, t: Tree, root: Repo)
    ensures Distinct(Names(Plan(w, t, root)))
  {
    WalkListsNew(GraphOf(w, t), {}, {}, [Dep(root, "", true)]);
  }

  /** Where a module stands in the order of first visit. */
  lemma FirstIndex(w: World, t: Tree, root: Repo, v: Visit) returns (k: nat)
    requires v in Plan(w, t, root)
    ensures k < |FirstPlan(w, t, root)| && FirstPlan(w, t, root)[k] == v
  {
    InFirstPlan(w, t, root, v);
    hide FirstPlan;
    var first := FirstPlan(w, t, root);
    k :| 0 <= k < |first| && first[k] == v;
  }

  // ----- the repositories that there are -----

  /** No file of a repository in `scope`, at whatever commit, names one outside. */
  ghost predicate Scoped(w: World, scope: set<Repo>) {
    forall m, c, d | m in scope && d in w.yaml(m, c) :: d.name in scope
  }

  lemma {:induction false} PathInScope(w: World, t: Tree, scope: set<Repo>, p: seq<Repo>, i: nat)
    requires Scoped(w, scope) && IsPath(GraphOf(w, t), {}, p) && p[0] in scope && i < |p|
    ensures p[i] in scope
  {
    if i > 0 {
      PathInScope(w, t, scope, p, i - 1);
      assert HasEdge(GraphOf(w, t), p[i - 1], p[i]);
      var d :| d in Out(GraphOf(w, t), p[i - 1]) && d.name == p[i];
      assert d in w.yaml(p[i - 1], t[p[i - 1]]);
    }
  }

  lemma PlanInScope(w: World, t: Tree, root: Repo, scope: set<Repo>, m: Repo)
    requires Scoped(w, scope) && root in scope && m in Names(Plan(w, t, root))
    ensures m in scope
  {
    var deps, g := [Dep(root, "", true)], GraphOf(w, t);
    ListsExactlyReachable(g, {}, {}, deps, m);
    var p :| Connects(g, {} + {}, deps, m, p);
    PathInScope(w, t, scope, p, |p| - 1);
  }

  lemma {:induction false} DistinctFits(ns: seq<Repo>, scope: set<Repo>)
    requires Distinct(ns) && forall n | n in ns :: n in scope
    ensures |ns| <= |scope|
  {
    if ns != [] {
      var last := |ns| - 1;
      assert ns[last] in ns;
      DistinctFits(ns[..last], scope - {ns[last]});
    }
  }

  lemma PlanFits(w: World, t: Tree, root: Repo, scope: set<Repo>)
    requires Scoped(w, scope) && root in scope
    ensures |FirstPlan(w, t, root)| <= |scope|
  {
    InFirstPlan(w, t, root, Visit(root, ""));
    forall m | m in Names(Plan(w, t, root))
      ensures m in scope
    {
      PlanInScope(w, t, root, scope, m);
    }
    hide Plan, FirstPlan, Scoped;
    DistinctFits(Names(Plan(w, t, root)), scope);
  }

  /** No entry before `i` names the same repository: a later one is never looked at. */
  predicate FirstNamed(ds: seq<Dep>, i: int) {
    0 <= i < |ds| && forall j | 0 <= j < i :: ds[j].name != ds[i].name
  }

  /** Every dependencies.yaml names commits, but for entries that are never visited. */
  ghost predicate CommitIds(w: World, scope: set<Repo>) {
    forall m, c | m in scope :: FilePins(w, m, w.yaml(m, c))
  }

  ghost predicate FilePins(w: World, m: Repo, ds: seq<Dep>) {
    forall i | FirstNamed(ds, i) && ds[i].name != m :: Pins(w, ds[i].name, RevisionOf(ds[i]))
  }

  /** The entries that a walk can still visit name commits. */
  ghost predicate RestPins(w: World, seen: set<Repo>, ds: seq<Dep>) {
    forall i | FirstNamed(ds, i) && ds[i].name !in seen :: Pins(w, ds[i].name, RevisionOf(ds[i]))
  }

  lemma TailPins(w: World, seen: set<Repo>, more: set<Repo>, ds: seq<Dep>)
    requires ds != [] && RestPins(w, seen, ds) && seen <= more && ds[0].name in more
    ensures RestPins(w, more, ds[1..])
  {
    hide Pins;
    forall i | FirstNamed(ds[1..], i) && ds[1..][i].name !in more
      ensures Pins(w, ds[1..][i].name, RevisionOf(ds[1..][i]))
    {
      assert forall j | 0 < j <= i :: ds[j] == ds[1..][j - 1];
      assert ds[i + 1] == ds[1..][i];
      assert FirstNamed(ds, i + 1);
    }
  }

  /** Then a plan names commits. */
  lemma {:induction false} WalkPins(w: World, t: Tree, scope: set<Repo>, seen: set<Repo>, deps: seq<Dep>)
    requires Scoped(w, scope) && CommitIds(w, scope) && RestPins(w, seen, deps)
    requires forall d | d in deps :: d.name in scope
    ensures PlanPins(w, Walk(GraphOf(w, t), {}, seen, deps).ordered)
    decreases |GraphOf(w, t).Keys - seen|, |deps|
  {
    var g := GraphOf(w, t);
    hide Walk, Pins, CommitIds, Joined, RestPins, Scoped;
    if deps == [] {
      UnfoldEmpty(g, {}, seen);
    } else if deps[0].name in seen {
      UnfoldPassed(g, {}, seen, deps);
      TailPins(w, seen, seen, deps);
      WalkPins(w, t, scope, seen, deps[1..]);
    } else {
      KeysLeft(g, seen, deps[0].name);
      var inner := Walk(g, {}, seen + {deps[0].name}, Out(g, deps[0].name));
      KeysLeftShrink(g, seen, inner.seen);
      UnfoldVisit(g, {}, seen, deps, inner);
      OutPins(w, t, scope, deps[0].name, seen + {deps[0].name});
      TailPins(w, seen, inner.seen, deps);
      HeadPins(w, seen, deps);
      WalkPins(w, t, scope, seen + {deps[0].name}, Out(g, deps[0].name));
      WalkPins(w, t, scope, inner.seen, deps[1..]);
      JoinedPins(w, deps[0], inner, Walk(g, {}, inner.seen, deps[1..]));
    }
  }

  lemma HeadPins(w: World, seen: set<Repo>, ds: seq<Dep>)
    requires ds != [] && RestPins(w, seen, ds) && ds[0].name !in seen
    ensures Pins(w, ds[0].name, RevisionOf(ds[0]))
  {
    hide Pins;
    assert FirstNamed(ds, 0);
  }

  lemma OutPins(w: World, t: Tree, scope: set<Repo>, m: Repo, seen: set<Repo>)
    requires Scoped(w, scope) && CommitIds(w, scope) && m in scope && m in seen
    ensures RestPins(w, seen, Out(GraphOf(w, t), m))
    ensures forall d | d in Out(GraphOf(w, t), m) :: d.name in scope
  {
    hide Pins;
    if m in t {
      assert FilePins(w, m, w.yaml(m, t[m]));
    }
  }

  lemma JoinedPins(w: World, d: Dep, inner: Walked, after: Walked)
    requires Pins(w, d.name, RevisionOf(d)) && PlanPins(w, inner.ordered) && PlanPins(w, after.ordered)
    ensures PlanPins(w, Joined(d, inner, after).ordered)
  {
  }

  lemma PlanPinned(w: World, t: Tree, root: Repo, scope: set<Repo>)
    requires Scoped(w, scope) && CommitIds(w, scope) && root in scope
    ensures PlanPins(w, Plan(w, t, root))
  {
    WalkPins(w, t, scope, {}, [Dep(root, "", true)]);
  }

  // ----- termination -----

  /** The `k`-th module visited is not where it is wanted. */
  predicate Unsettled(t: Tree, visits: seq<Visit>, k: nat) {
    k < |visits| && !Settled(t, visits[k])
  }

  /** The unsettled modules as a bit vector, in the order of first visit. */
  function Bits(w: World, t: Tree, root: Repo, n: nat): (bits: seq<bool>)
    ensures |bits| == n && forall k | 0 <= k < n :: bits[k] == Unsettled(t, FirstPlan(w, t, root), k)
  {
    seq(n, k requires 0 <= k < n => Unsettled(t, FirstPlan(w, t, root), k))
  }

  function Pow2(n: nat): nat {
    if n == 0 then 1 else 2 * Pow2(n - 1)
  }

  /** The bit vector read as a number. */
  function Value(bits: seq<bool>): (v: nat)
    ensures v < Pow2(|bits|)
  {
    if bits == [] then 0 else (if bits[0] then Pow2(|bits| - 1) else 0) + Value(bits[1..])
  }

  /** Clearing a bit lowers the number, whatever happens to the bits after it. */
  lemma {:induction false} ClearingLowers(a: seq<bool>, b: seq<bool>, h: nat)
    requires |a| == |b| && h < |a| && a[..h] == b[..h] && a[h] && !b[h]
    ensures Value(b) < Value(a)
  {
    if h > 0 {
      assert a[0] == a[..h][0] && b[0] == b[..h][0];
      assert a[1..][..h - 1] == a[..h][1..] && b[1..][..h - 1] == b[..h][1..];
      ClearingLowers(a[1..], b[1..], h - 1);
    }
  }

  /** The first module in the order of first visit whose work tree changed. */
  lemma FirstChanged(t: Tree, u: Tree, visits: seq<Visit>, i: nat) returns (h: nat)
    requires i < |visits| && Lookup(t, visits[i].name) != Lookup(u, visits[i].name)
    ensures h < |visits| && Lookup(t, visits[h].name) != Lookup(u, visits[h].name) && SameTrees(t, u, visits, h)
  {
    h := 0;
    while Lookup(t, visits[h].name) == Lookup(u, visits[h].name)
      invariant h <= i && SameTrees(t, u, visits, h)
      decreases i - h
    {
      h := h + 1;
    }
  }

  /** The first change of a pass settles a module that was not settled. */
  lemma FirstSettled(w: World, t: Tree, root: Repo, scope: set<Repo>) returns (h: nat)
    requires Scoped(w, scope) && root in scope && CommitIds(w, scope)
    requires Pass(w, t, root).Done? && Pass(w, t, root).again
    ensures var first, u := FirstPlan(w, t, root), Pass(w, t, root).tree;
            h < |first| && SameTrees(t, u, first, h) && !Settled(t, first[h]) && Settled(u, first[h])
  {
    var plan, u, first := Plan(w, t, root), Pass(w, t, root).tree, FirstPlan(w, t, root);
    PlanDistinct(w, t, root);
    PlanPinned(w, t, root, scope);
    PassFromChanges(w, t, plan, |plan|, false);
    hide Plan, FirstPlan, PassFrom, Scoped, CommitIds;
    var m :| Lookup(u, m) != Lookup(t, m);
    var j :| 0 <= j < |plan| && plan[j].name == m;
    assert plan[j] in plan;
    var i := FirstIndex(w, t, root, plan[j]);
    h := FirstChanged(t, u, first, i);
    var l :| 0 <= l < |plan| && plan[l].name == first[h].name && !Settled(t, plan[l]) && Settled(u, plan[l]);
    assert first[h] in first;
    InFirstPlan(w, t, root, first[h]);
    SameNameSameVisit(plan, l, first[h]);
  }

  lemma SameNameSameVisit(plan: seq<Visit>, l: nat, v: Visit)
    requires Distinct(Names(plan)) && l < |plan| && v in plan && plan[l].name == v.name
    ensures plan[l] == v
  {
    var k :| 0 <= k < |plan| && plan[k] == v;
    assert Names(plan)[k] == Names(plan)[l];
  }

  /**
   A pass that asks for another one lowers the bit vector: of the modules it changed, the one visited
   first becomes settled, and nothing visited before it changes, even though the plan was not
   refreshed between the checkouts of the pass, and whatever the checkouts do to the graph.
   */
  lemma PassLowers(w: World, t: Tree, root: Repo, scope: set<Repo>)
    requires Scoped(w, scope) && root in scope && CommitIds(w, scope)
    requires Pass(w, t, root).Done? && Pass(w, t, root).again
    ensures Value(Bits(w, Pass(w, t, root).tree, root, |scope|)) < Value(Bits(w, t, root, |scope|))
  {
    var u, n := Pass(w, t, root).tree, |scope|;
    var first, next := FirstPlan(w, t, root), FirstPlan(w, u, root);
    var h := FirstSettled(w, t, root, scope);
    PlanFits(w, t, root, scope);
    NextDependsOnVisited(w, t, u, root, h);
    hide FirstPlan, Pass, Scoped, CommitIds, Settled;
    assert forall k | 0 <= k <= h :: k < |next| && next[k] == first[k] by { SameUpTo(first, next, h); }
    BitsClear(t, u, first, next, h, Bits(w, t, root, n), Bits(w, u, root, n));
  }

  lemma SameUpTo(a: seq<Visit>, b: seq<Visit>, h: nat)
    requires h < |a| && Take(a, h + 1) == Take(b, h + 1)
    ensures forall k | 0 <= k <= h :: k < |b| && b[k] == a[k]
  {
    var s, t := Take(a, h + 1), Take(b, h + 1);
    assert |t| == h + 1;
    forall k | 0 <= k <= h
      ensures k < |b| && b[k] == a[k]
    {
      assert s[k] == a[k] && t[k] == b[k];
    }
  }

  lemma BitsClear(t: Tree, u: Tree, first: seq<Visit>, next: seq<Visit>, h: nat, a: seq<bool>, b: seq<bool>)
    requires |a| == |b| && h < |a| && h < |first| && SameTrees(t, u, first, h)
    requires forall k | 0 <= k <= h :: k < |next| && next[k] == first[k]
    requires forall k | 0 <= k < |a| :: a[k] == Unsettled(t, first, k) && b[k] == Unsettled(u, next, k)
    requires !Settled(t, first[h]) && Settled(u, first[h])
    ensures Value(b) < Value(a)
  {
    hide Value;
    forall k | 0 <= k < h
      ensures a[k] == b[k]
    {
      assert Lookup(t, first[k].name) == Lookup(u, first[k].name);
    }
    ClearingLowers(a, b, h);
  }

  /** A pass touches only modules of the plan that are not at HEAD. */
  lemma {:induction false} PassFromTouches(w: World, t: Tree, plan: seq<Visit>, i: nat, again: bool)
    requires i <= |plan| && PassFrom(w, t, plan, i, again).Done?
    ensures forall m | Lookup(PassFrom(w, t, plan, i, again).tree, m) != Lookup(t, m) ::
              exists j | 0 <= j < i :: plan[j].name == m && plan[j].revision != "HEAD"
    decreases i
  {
    if i > 0 && plan[i - 1].revision == "HEAD" {
      PassFromTouches(w, t, plan, i - 1, again);
    } else if i > 0 {
      var v := plan[i - 1];
      var head := if v.name in t then Some(t[v.name]) else w.acquire(v.name, v.revision);
      assert plan[i - 1].name == v.name;
      if head.value == v.revision {
        PassFromTouches(w, t[v.name := head.value], plan, i - 1, again || v.name !in t);
      }
    }
  }

  lemma PlanEndsWithRoot(w: World, t: Tree, root: Repo)
    ensures var plan := Plan(w, t, root);
            && plan != [] && plan[|plan| - 1] == Visit(root, "HEAD")
            && forall v | v in plan && v.name == root :: v.revision == "HEAD"
  {
    var plan, none: set<Repo> := Plan(w, t, root), {};
    RootIsLast(GraphOf(w, t), none, root, "");
    PlanDistinct(w, t, root);
    assert plan == Resolve(GraphOf(w, t), none, root, "").ordered;
    assert root !in none;
    hide Plan, Resolve;
    forall v | v in plan && v.name == root
      ensures v.revision == "HEAD"
    {
      var j :| 0 <= j < |plan| && plan[j] == v;
      assert Names(plan)[j] == Names(plan)[|plan| - 1];
    }
  }

  /** The root is wanted at HEAD: no pass touches it. */
  lemma RootIsKept(w: World, t: Tree, root: Repo)
    requires Pass(w, t, root).Done?
    ensures Lookup(Pass(w, t, root).tree, root) == Lookup(t, root)
  {
    PassFromTouches(w, t, Plan(w, t, root), |Plan(w, t, root)|, false);
    PlanEndsWithRoot(w, t, root);
  }

  // ----- refs that are not commits -----

  /** `n` passes in a row, stopping when one aborts or asks for no other. */
  function Passes(w: World, t: Tree, root: Repo, n: nat): Outcome {
    if n == 0 then Done(t, true)
    else
      var r := Passes(w, t, root, n - 1);
      if r.Done? && r.again then Pass(w, r.tree, root) else r
  }

  /** Nothing git does to the work tree of `v`, as it stands, takes it to where it is wanted. */
  predicate Stuck(w: World, t: Tree, v: Visit) {
    && v.revision != "HEAD" && Lookup(t, v.name) != Some(v.revision)
    && (v.name !in t ==> w.acquire(v.name, v.revision) != Some(v.revision))
    && w.checkout(v.name, v.revision) != Some(v.revision)
  }

  /** A pass does not get past a stuck entry, leaves it stuck, and asks for another pass. */
  lemma {:induction false} PassStopsAt(w: World, t: Tree, plan: seq<Visit>, i: nat, again: bool, q: nat)
    requires q < i <= |plan| && Distinct(Names(plan)) && Stuck(w, t, plan[q])
    ensures var r := PassFrom(w, t, plan, i, again);
            r.Done? ==>
              && r.again && Stuck(w, r.tree, plan[q])
              && forall m | Lookup(r.tree, m) != Lookup(t, m) ::
                   exists j | q <= j < i :: plan[j].name == m && plan[j].revision != "HEAD"
    decreases i
  {
    var v, r := plan[i - 1], PassFrom(w, t, plan, i, again);
    assert plan[i - 1].name == v.name;
    if i - 1 > q {
      assert Names(plan)[i - 1] != Names(plan)[q];
      if v.revision == "HEAD" {
        PassStopsAt(w, t, plan, i - 1, again, q);
      } else {
        var head := if v.name in t then Some(t[v.name]) else w.acquire(v.name, v.revision);
        if head == Some(v.revision) {
          PassStopsAt(w, t[v.name := head.value], plan, i - 1, again || v.name !in t, q);
        }
      }
    }
  }

  /** Walking entries without a work tree lists nothing else. */
  lemma {:induction false} WalkAbsent(g: Graph, seen: set<Repo>, deps: seq<Dep>)
    requires forall d | d in deps :: d.name in seen || d.name !in g
    ensures var r := Walk(g, {}, seen, deps);
            && (forall m :: m in r.seen <==> m in seen || exists d | d in deps :: d.name == m)
            && forall d | d in deps && d.name !in seen :: d.name in Names(r.ordered)
    decreases |deps|
  {
    if deps != [] {
      var init, last := deps[..|deps| - 1], deps[|deps| - 1];
      assert deps == init + [last];
      WalkAbsent(g, seen, init);
      hide Walk;
      ModuleResolver.WalkConcat(g, {}, seen, init, [last]);
      var first := Walk(g, {}, seen, init);
      ModuleResolver.WalkOne(g, {}, first.seen, last);
      var second := Walk(g, {}, first.seen, [last]);
      UnfoldEmpty(g, {}, first.seen + {last.name});
      ModuleResolver.NamesAdd(first.ordered, second.ordered);
      assert last.name !in first.seen ==> second.ordered == [Visit(last.name, RevisionOf(last))];
      assert last.name !in first.seen ==> Names(second.ordered)[0] == last.name;
    } else {
      UnfoldEmpty(g, {}, seen);
    }
  }

  /** Where the plan has the `i`-th entry of the root's file: behind all entries before it. */
  lemma EntryInPlan(w: World, t: Tree, root: Repo, ys: seq<Dep>, i: nat) returns (q: nat)
    requires root in t && w.yaml(root, t[root]) == ys && i < |ys| && ys[i].name != root
    requires forall j | 0 <= j < i :: (ys[j].name == root || ys[j].name !in t) && ys[j].name != ys[i].name
    ensures q < |Plan(w, t, root)| && Plan(w, t, root)[q] == Visit(ys[i].name, RevisionOf(ys[i]))
    ensures forall j | 0 <= j < i :: ys[j].name == root || ys[j].name in Names(Plan(w, t, root))[..q]
  {
    var g, front, start := GraphOf(w, t), ys[..i], {} + {root};
    hide Walk;
    assert ys == front + ys[i..];
    ModuleResolver.WalkOne(g, {}, {}, Dep(root, "", true));
    ModuleResolver.WalkConcat(g, {}, start, front, ys[i..]);
    forall d | d in front
      ensures (d.name in start || d.name !in g) && d.name != ys[i].name
    {
      var j :| 0 <= j < i && ys[j] == d;
    }
    WalkAbsent(g, start, front);
    var first := Walk(g, {}, start, front);
    var inner := Walk(g, {}, first.seen + {ys[i].name}, Out(g, ys[i].name));
    UnfoldVisit(g, {}, first.seen, ys[i..], inner);
    var v, rest := Visit(ys[i].name, RevisionOf(ys[i])), Walk(g, {}, inner.seen, ys[i..][1..]).ordered;
    hide *;
    q := VisitInMiddle(first.ordered, inner.ordered, v, rest, Visit(root, "HEAD"), Plan(w, t, root));
    assert forall j | 0 <= j < i :: ys[j] in front;
  }

  lemma VisitInMiddle(a: seq<Visit>, b: seq<Visit>, v: Visit, c: seq<Visit>, last: Visit, plan: seq<Visit>) returns (q: nat)
    requires plan == a + (b + [v] + c) + [last]
    ensures q < |plan| && plan[q] == v && forall n | n in Names(a) :: n in Names(plan)[..q]
  {
    q := |a| + |b|;
    assert plan[q] == v;
    assert Names(plan)[..q][..|a|] == Names(a);
  }

  /**
   A ref that git does not spell the way the file does never settles: for any file of the root and
   any entry in it, if nothing takes its work tree to the ref, and the entries before it have no work
   tree, then no number of passes ends the loop.
   */
  lemma {:induction false} RefNeverSettles(w: World, t: Tree, root: Repo, ys: seq<Dep>, i: nat, n: nat)
    requires root in t && w.yaml(root, t[root]) == ys && i < |ys| && ys[i].name != root
    requires forall j | 0 <= j < i :: (ys[j].name == root || ys[j].name !in t) && ys[j].name != ys[i].name
    requires Stuck(w, t, Visit(ys[i].name, RevisionOf(ys[i])))
    ensures var r := Passes(w, t, root, n);
            r.Done? ==>
              && r.again && Lookup(r.tree, root) == Lookup(t, root)
              && (forall j | 0 <= j < i :: ys[j].name == root || ys[j].name !in r.tree)
              && Stuck(w, r.tree, Visit(ys[i].name, RevisionOf(ys[i])))
  {
    hide Stuck;
    if n > 0 {
      RefNeverSettles(w, t, root, ys, i, n - 1);
      var r := Passes(w, t, root, n - 1);
      if r.Done? { StuckOnce(w, r.tree, root, ys, i); }
    }
  }

  lemma StuckOnce(w: World, t: Tree, root: Repo, ys: seq<Dep>, i: nat)
    requires root in t && w.yaml(root, t[root]) == ys && i < |ys| && ys[i].name != root
    requires forall j | 0 <= j < i :: (ys[j].name == root || ys[j].name !in t) && ys[j].name != ys[i].name
    requires Stuck(w, t, Visit(ys[i].name, RevisionOf(ys[i])))
    ensures var r := Pass(w, t, root);
            r.Done? ==>
              && r.again && Lookup(r.tree, root) == Lookup(t, root)
              && (forall j | 0 <= j < i :: ys[j].name == root || ys[j].name !in r.tree)
              && Stuck(w, r.tree, Visit(ys[i].name, RevisionOf(ys[i])))
  {
    var plan := Plan(w, t, root);
    var q := EntryInPlan(w, t, root, ys, i);
    PlanDistinct(w, t, root);
    PassStopsAt(w, t, plan, |plan|, false, q);
    if Pass(w, t, root).Done? {
      RootIsKept(w, t, root);
      hide Plan, Stuck, PassFrom;
      var u := Pass(w, t, root).tree;
      forall j | 0 <= j < i && ys[j].name != root
        ensures ys[j].name !in u
      {
        var front := Names(plan)[..q];
        assert ys[j].name in front;
        var a :| 0 <= a < |front| && front[a] == ys[j].name;
        assert forall b | q <= b < |plan| :: Names(plan)[b] != Names(plan)[a];
        assert Lookup(u, ys[j].name) == Lookup(t, ys[j].name);
      }
    }
  }

  /** The plainest case: the only dependency is a branch. */
  lemma BranchNeverSettles(w: World, t: Tree, root: Repo, m: Repo, branch: string, n: nat)
    requires m != root && branch != "HEAD" && branch != ""
    requires root in t && w.yaml(root, t[root]) == [Dep(m, branch, true)] && Lookup(t, m) != Some(branch)
    requires w.acquire(m, branch) != Some(branch) && w.checkout(m, branch) != Some(branch)
    ensures Passes(w, t, root, n).Done? ==> Passes(w, t, root, n).again
  {
    RefNeverSettles(w, t, root, [Dep(m, branch, true)], 0, n);
  }

  // ----- when the loop ends -----

  /** The loop settles or aborts. */
  ghost predicate Ends(w: World, t: Tree, root: Repo) {
    exists n :: !Goes(w, t, root, n)
  }

  /** After `n` passes it still asks for another one. */
  predicate Goes(w: World, t: Tree, root: Repo, n: nat) {
    Passes(w, t, root, n).Done? && Passes(w, t, root, n).again
  }

  /** Some pass aborts; or, in another case, the passes end with the work tree `u`. */
  ghost predicate Aborts(w: World, t: Tree, root: Repo) {
    exists n :: Passes(w, t, root, n).Aborted?
  }

  ghost predicate EndsAt(w: World, t: Tree, root: Repo, u: Tree) {
    exists n :: Passes(w, t, root, n) == Done(u, false)
  }

  /** Passes after an abort, or after one that asked for no other, are not made. */
  lemma {:induction false} PassesStay(w: World, t: Tree, root: Repo, p: nat, n: nat)
    requires p <= n && !Goes(w, t, root, p)
    ensures Passes(w, t, root, n) == Passes(w, t, root, p)
  {
    hide Pass;
    if p < n { PassesStay(w, t, root, p, n - 1); }
  }

  /** When git does what it is asked for, no number of passes aborts. */
  lemma {:induction false} PassesSucceed(w: World, t: Tree, root: Repo, scope: set<Repo>, n: nat)
    requires Scoped(w, scope) && root in scope && Succeeds(w, scope)
    ensures Passes(w, t, root, n).Done?
  {
    hide Plan, Scoped, Succeeds;
    if n > 0 {
      PassesSucceed(w, t, root, scope, n - 1);
      var u := Passes(w, t, root, n - 1).tree;
      var plan := Plan(w, u, root);
      forall v | v in plan
        ensures v.name in scope
      {
        var j :| 0 <= j < |plan| && plan[j] == v;
        assert Names(plan)[j] == v.name;
        PlanInScope(w, u, root, scope, v.name);
      }
      PassFromSucceeds(w, u, plan, |plan|, false, scope);
    }
  }

  lemma {:induction false} PassesLower(w: World, t: Tree, root: Repo, scope: set<Repo>, n: nat)
    requires Scoped(w, scope) && root in scope && CommitIds(w, scope) && Goes(w, t, root, n)
    ensures Value(Bits(w, Passes(w, t, root, n).tree, root, |scope|)) + n <= Value(Bits(w, t, root, |scope|))
  {
    hide Bits, Value, Scoped, CommitIds, Pass;
    if n > 0 {
      PassesLower(w, t, root, scope, n - 1);
      PassLowers(w, Passes(w, t, root, n - 1).tree, root, scope);
    }
  }

  lemma PinnedEnds(w: World, t: Tree, root: Repo, scope: set<Repo>)
    requires Scoped(w, scope) && root in scope && CommitIds(w, scope)
    ensures Ends(w, t, root)
  {
    var n := Value(Bits(w, t, root, |scope|)) + 1;
    hide Bits, Value, Passes;
    if Goes(w, t, root, n) {
      PassesLower(w, t, root, scope, n);
    } else {
      assert Ends(w, t, root);
    }
  }

  /** The work trees of the first `n` modules visited put where they are wanted, one by one, but for those in `keep`. */
  function Arranged(w: World, t: Tree, root: Repo, keep: set<Repo>, n: nat): (u: Tree)
    ensures forall m | m in keep :: Lookup(u, m) == Lookup(t, m)
  {
    if n == 0 then t
    else
      var above := Arranged(w, t, root, keep, n - 1);
      var first := FirstPlan(w, above, root);
      if n <= |first| && first[n - 1].name !in keep then above[first[n - 1].name := first[n - 1].revision] else above
  }

  /** Since what is visited next depends only on what was visited before, each stays settled. */
  lemma {:induction false} ArrangedSettles(w: World, t: Tree, root: Repo, keep: set<Repo>, n: nat)
    ensures var u := Arranged(w, t, root, keep, n);
            var first := FirstPlan(w, u, root);
            forall j | 0 <= j < n && j < |first| :: first[j].name in keep || Settled(u, first[j])
  {
    if n > 0 {
      var above, u := Arranged(w, t, root, keep, n - 1), Arranged(w, t, root, keep, n);
      var before, first := FirstPlan(w, above, root), FirstPlan(w, u, root);
      ArrangedSettles(w, t, root, keep, n - 1);
      InFirstPlan(w, above, root, Visit(root, ""));
      hide FirstPlan, Arranged, Settled, SameTrees, Take, Distinct;
      ArrangedOnce(w, t, root, keep, n);
      NextDependsOnVisited(w, above, u, root, n - 1);
      StaySettled(above, u, before, first, keep, n);
    }
  }

  lemma ArrangedOnce(w: World, t: Tree, root: Repo, keep: set<Repo>, n: nat)
    requires n > 0
    requires Distinct(Names(FirstPlan(w, Arranged(w, t, root, keep, n - 1), root)))
    ensures var above, u := Arranged(w, t, root, keep, n - 1), Arranged(w, t, root, keep, n);
            var before := FirstPlan(w, above, root);
            && SameTrees(above, u, before, n - 1)
            && (n <= |before| && before[n - 1].name !in keep ==> Settled(u, before[n - 1]))
  {
    hide FirstPlan;
    var before := FirstPlan(w, Arranged(w, t, root, keep, n - 1), root);
    if n <= |before| {
      assert forall j | 0 <= j < n - 1 :: Names(before)[j] != Names(before)[n - 1];
    }
  }

  lemma StaySettled(t: Tree, u: Tree, before: seq<Visit>, first: seq<Visit>, keep: set<Repo>, n: nat)
    requires n > 0 && Take(before, n) == Take(first, n) && SameTrees(t, u, before, n - 1)
    requires forall j | 0 <= j < n - 1 && j < |before| :: before[j].name in keep || Settled(t, before[j])
    requires n <= |before| && before[n - 1].name !in keep ==> Settled(u, before[n - 1])
    ensures forall j | 0 <= j < n && j < |first| :: first[j].name in keep || Settled(u, first[j])
  {
    forall j | 0 <= j < n && j < |first|
      ensures first[j].name in keep || Settled(u, first[j])
    {
      var a, b := Take(before, n), Take(first, n);
      assert a[j] == before[j] && b[j] == first[j];
      if j < n - 1 { assert Lookup(t, before[j].name) == Lookup(u, before[j].name); }
    }
  }

  /** A pass over a plan that is settled behind `q` gets to `q` without a change. */
  lemma {:induction false} PassReaches(w: World, t: Tree, plan: seq<Visit>, i: nat, q: nat)
    requires q < i <= |plan| && forall j | q < j < i :: Settled(t, plan[j])
    ensures PassFrom(w, t, plan, i, false) == PassFrom(w, t, plan, q + 1, false)
    decreases i
  {
    if i > q + 1 {
      var v := plan[i - 1];
      PassReaches(w, t, plan, i - 1, q);
      assert v.name in t ==> t[v.name := t[v.name]] == t;
    }
  }

  /** The root at `c`, the stuck entry where a checkout takes it, and the entries before it without a work tree. */
  function Start(root: Repo, c: Commit, name: Repo, x: Commit): Tree {
    map[root := c, name := x]
  }

  function Special(root: Repo, front: seq<Dep>, name: Repo): set<Repo> {
    (set e | e in front :: e.name) + {root, name}
  }

  lemma ArrangedSpecial(w: World, root: Repo, c: Commit, front: seq<Dep>, name: Repo, x: Commit, n: nat)
    requires name != root && forall e | e in front :: e.name != name
    ensures var t := Arranged(w, Start(root, c, name, x), root, Special(root, front, name), n);
            && Lookup(t, root) == Some(c) && Lookup(t, name) == Some(x)
            && forall e | e in front :: e.name == root || e.name !in t
  {
    var keep, start := Special(root, front, name), Start(root, c, name, x);
    var t := Arranged(w, start, root, keep, n);
    assert forall m | m in keep :: Lookup(t, m) == Lookup(start, m);
    hide Arranged;
    forall e | e in front && e.name != root
      ensures e.name !in t
    {
      assert e.name in keep;
      assert Lookup(t, e.name) == Lookup(start, e.name) == None;
    }
  }

  /** A pass that gets to an entry which is already where its checkout takes it changes nothing and goes on. */
  lemma PassStays(w: World, t: Tree, plan: seq<Visit>, q: nat)
    requires q < |plan| && forall j | q < j < |plan| :: Settled(t, plan[j])
    requires !Settled(t, plan[q]) && plan[q].name in t && w.checkout(plan[q].name, plan[q].revision) == Some(t[plan[q].name])
    ensures PassFrom(w, t, plan, |plan|, false) == Done(t, true)
  {
    PassReaches(w, t, plan, |plan|, q);
    assert t[plan[q].name := t[plan[q].name]] == t;
  }

  /**
   If some file names a ref that a checkout spells differently, there is a work tree that every pass
   leaves as it is and asks for another one.
   */
  lemma LoopsForever(w: World, scope: set<Repo>, root: Repo, c: Commit, i: nat) returns (t: Tree)
    requires Scoped(w, scope) && root in scope && FirstNamed(w.yaml(root, c), i) && w.yaml(root, c)[i].name != root
    requires !Pins(w, w.yaml(root, c)[i].name, RevisionOf(w.yaml(root, c)[i]))
    ensures root in t && Pass(w, t, root) == Done(t, true)
  {
    var ys := w.yaml(root, c);
    var name, revision, front := ys[i].name, RevisionOf(ys[i]), ys[..i];
    var x := w.checkout(name, revision).value;
    assert x != revision && revision != "HEAD";
    hide Arranged, Start, Special, Scoped, Settled, RevisionOf, Plan;
    assert forall e | e in front :: e.name != name;
    t := Arranged(w, Start(root, c, name, x), root, Special(root, front, name), |scope|);
    ArrangedSpecial(w, root, c, front, name, x, |scope|);
    assert forall j | 0 <= j < i :: ys[j] in front;
    var q := EntryInPlan(w, t, root, ys, i);
    PlanStays(w, scope, root, c, front, name, x, q, t);
  }

  lemma PlanStays(w: World, scope: set<Repo>, root: Repo, c: Commit, front: seq<Dep>, name: Repo, x: Commit, q: nat, t: Tree)
    requires Scoped(w, scope) && root in scope
    requires t == Arranged(w, Start(root, c, name, x), root, Special(root, front, name), |scope|)
    requires q < |Plan(w, t, root)| && Plan(w, t, root)[q].name == name && Lookup(t, name) == Some(x)
    requires var revision := Plan(w, t, root)[q].revision;
             revision != "HEAD" && x != revision && w.checkout(name, revision) == Some(x)
    requires forall e | e in front :: e.name == root || e.name in Names(Plan(w, t, root))[..q]
    ensures Pass(w, t, root) == Done(t, true)
  {
    var plan, keep := Plan(w, t, root), Special(root, front, name);
    PlanDistinct(w, t, root);
    PlanEndsWithRoot(w, t, root);
    PlanFits(w, t, root, scope);
    ArrangedSettles(w, Start(root, c, name, x), root, keep, |scope|);
    hide Plan, FirstPlan, Arranged, Start, Scoped, PassFrom, Special;
    forall j | q < j < |plan|
      ensures Settled(t, plan[j])
    {
      assert plan[j] in plan;
      var k := FirstIndex(w, t, root, plan[j]);
      if plan[j].name in keep { SpecialBehind(root, front, name, plan, q, j); }
    }
    PassStays(w, t, plan, q);
  }

  /** Of the special modules only the root comes behind the stuck entry. */
  lemma SpecialBehind(root: Repo, front: seq<Dep>, name: Repo, plan: seq<Visit>, q: nat, j: nat)
    requires Distinct(Names(plan)) && q < j < |plan| && plan[q].name == name && plan[j].name in Special(root, front, name)
    requires forall e | e in front :: e.name == root || e.name in Names(plan)[..q]
    requires forall v | v in plan && v.name == root :: v.revision == "HEAD"
    ensures plan[j].revision == "HEAD"
  {
    assert Names(plan)[j] == plan[j].name && Names(plan)[q] == name;
    var ahead := Names(plan)[..q];
    forall e | e in front && e.name != root
      ensures e.name != plan[j].name
    {
      assert e.name in ahead;
      var a :| 0 <= a < |ahead| && ahead[a] == e.name;
      assert Names(plan)[a] == e.name;
    }
    assert plan[j] in plan;
  }

  lemma {:induction false} GoesForever(w: World, t: Tree, root: Repo, n: nat)
    requires Pass(w, t, root) == Done(t, true)
    ensures Passes(w, t, root, n) == Done(t, true)
  {
    if n > 0 { GoesForever(w, t, root, n - 1); }
  }

  /**
   When the sync loop ends: it settles or aborts, from every work tree and for every root, if and only
   if every ref that a dependencies.yaml names is spelled as git spells HEAD after checking it out,
   that is, names a commit, or its checkout fails. Files may name each other in cycles, and which ones
   do may change from commit to commit.
   */
  lemma EndsExactly(w: World, scope: set<Repo>)
    requires Scoped(w, scope)
    ensures CommitIds(w, scope) <==> forall t, root | root in scope && root in t :: Ends(w, t, root)
  {
    if CommitIds(w, scope) {
      forall t, root | root in scope && root in t
        ensures Ends(w, t, root)
      {
        PinnedEnds(w, t, root, scope);
      }
    } else {
      var m, c :| m in scope && !FilePins(w, m, w.yaml(m, c));
      var ds := w.yaml(m, c);
      var i :| FirstNamed(ds, i) && ds[i].name != m && !Pins(w, ds[i].name, RevisionOf(ds[i]));
      var t := LoopsForever(w, scope, m, c, i);
      forall n
        ensures Goes(w, t, m, n)
      {
        GoesForever(w, t, m, n);
      }
      assert !Ends(w, t, m);
    }
  }

  // ----- one result -----

  predicate OnlyRootAtHead(plan: seq<Visit>, root: Repo) {
    forall v | v in plan && v.revision == "HEAD" :: v.name == root
  }

  /** Settled, and no dependency resolved as HEAD. */
  predicate Fixed(w: World, t: Tree, root: Repo) {
    AllSettled(t, Plan(w, t, root)) && OnlyRootAtHead(Plan(w, t, root), root)
  }

  lemma {:induction false} SameVisited(w: World, t: Tree, u: Tree, root: Repo, n: nat)
    requires Lookup(t, root) == Lookup(u, root) && Fixed(w, t, root) && Fixed(w, u, root)
    ensures SameTrees(t, u, FirstPlan(w, t, root), n)
  {
    hide FirstPlan, Fixed;
    if n > 0 {
      SameVisited(w, t, u, root, n - 1);
      NextDependsOnVisited(w, t, u, root, n - 1);
      var first, other := FirstPlan(w, t, root), FirstPlan(w, u, root);
      if n <= |first| {
        SameUpTo(first, other, n - 1);
        var v := first[n - 1];
        assert v in first && v in other;
        InFirstPlan(w, t, root, v);
        InFirstPlan(w, u, root, v);
        FixedAt(w, t, root, v);
        FixedAt(w, u, root, v);
      }
    }
  }

  lemma FixedAt(w: World, t: Tree, root: Repo, v: Visit)
    requires Fixed(w, t, root) && v in Plan(w, t, root)
    ensures v.name == root || Lookup(t, v.name) == Some(v.revision)
  {
    hide Plan;
  }

  /**
   There is one result: two work trees that are settled, with the same commit of the root and no
   dependency resolved as HEAD, have the same plan, and the same commit of every module in it.
   */
  lemma OneResult(w: World, t: Tree, u: Tree, root: Repo)
    requires Lookup(t, root) == Lookup(u, root) && Fixed(w, t, root) && Fixed(w, u, root)
    ensures Plan(w, t, root) == Plan(w, u, root)
    ensures forall v | v in Plan(w, t, root) :: Lookup(t, v.name) == Lookup(u, v.name)
  {
    var first, none: set<Repo> := FirstPlan(w, t, root), {};
    var n := |first|;
    SameVisited(w, t, u, root, n);
    SameOuts(w, t, u, first, n);
    AgreedWalk(GraphOf(w, t), GraphOf(w, u), none, [Dep(root, "", true)], n);
    assert Plan(w, t, root) == Plan(w, u, root);
    hide Plan, FirstPlan, Fixed;
    forall v | v in Plan(w, t, root)
      ensures Lookup(t, v.name) == Lookup(u, v.name)
    {
      var k := FirstIndex(w, t, root, v);
    }
  }

  /** After passes that end without aborting, the work tree is settled and the root is where it was. */
  lemma {:induction false} PassesSettle(w: World, t: Tree, root: Repo, n: nat)
    requires Passes(w, t, root, n).Done?
    ensures var r := Passes(w, t, root, n);
            Lookup(r.tree, root) == Lookup(t, root) && (!r.again ==> AllSettled(r.tree, Plan(w, r.tree, root)))
  {
    hide Plan, Pass, AllSettled;
    if n > 0 {
      PassesSettle(w, t, root, n - 1);
      var r := Passes(w, t, root, n - 1);
      if r.again {
        RootIsKept(w, r.tree, root);
        ExitsExactlyWhenSettled(w, r.tree, root);
      }
    }
  }

  /** So what a sync ends with does not depend on the work trees it starts from. */
  lemma StartDoesNotMatter(w: World, t: Tree, u: Tree, root: Repo, n: nat, m: nat)
    requires Lookup(t, root) == Lookup(u, root)
    requires Passes(w, t, root, n).Done? && !Passes(w, t, root, n).again
    requires Passes(w, u, root, m).Done? && !Passes(w, u, root, m).again
    requires OnlyRootAtHead(Plan(w, Passes(w, t, root, n).tree, root), root)
    requires OnlyRootAtHead(Plan(w, Passes(w, u, root, m).tree, root), root)
    ensures var endOfT, endOfU := Passes(w, t, root, n).tree, Passes(w, u, root, m).tree;
            && Plan(w, endOfT, root) == Plan(w, endOfU, root)
            && forall v | v in Plan(w, endOfT, root) :: Lookup(endOfT, v.name) == Lookup(endOfU, v.name)
  {
    PassesSettle(w, t, root, n);
    PassesSettle(w, u, root, m);
    hide Plan, Passes, AllSettled, OnlyRootAtHead;
    OneResult(w, Passes(w, t, root, n).tree, Passes(w, u, root, m).tree, root);
  }

  // ----- the loop -----

  lemma TreeServes(w: World, t: Tree, root: Repo)
    ensures ModuleResolver.Serves(ModuleResolver.Files(GraphOf(w, t)), ModuleResolver.Options(false, false, {}),
                                  GraphOf(w, t), root, None, {})
  {
    var o := ModuleResolver.Options(false, false, {});
    forall m
      ensures Out(GraphOf(w, t), m) == ModuleResolver.WithNames(o, Out(GraphOf(w, t), m))
    {
      var deps := Out(GraphOf(w, t), m);
      assert forall i | 0 <= i < |deps| :: ModuleResolver.WithNames(o, deps)[i] == deps[i];
    }
  }

  class Session {
    const world: World
    /** The work trees on disk. */
    var tree: Tree

    constructor (world: World, tree: Tree)
      ensures this.world == world && this.tree == tree
    {
      this.world, this.tree := world, tree;
    }

    /** A fresh resolution of the work tree. */
    method ResolveAgain(root: Repo) returns (dependencies: seq<Repo>, revisions: seq<string>)
      ensures |dependencies| == |revisions| == |Plan(world, tree, root)|
      ensures forall i | 0 <= i < |dependencies| :: Plan(world, tree, root)[i] == Visit(dependencies[i], revisions[i])
    {
      var files := map m | m in tree :: world.yaml(m, tree[m]);
      TreeServes(world, tree, root);
      var resolver := new ModuleResolver.Resolver(ModuleResolver.Files(files), ModuleResolver.Options(false, false, {}), {});
      var _, ordered, revs := resolver.Resolve(root, "", None, false, GraphOf(world, tree));
      PlanLists(world, tree, root, ModuleResolver.SetOf(resolver.seen), ordered, revs);
      return ordered, revs;
    }

    /** One round of the loop: a fresh resolution, then acquires and at most one checkout, the root first. */
    method SyncPass(root: Repo) returns (aborted: bool, again: bool)
      modifies this
      ensures aborted <==> Pass(world, old(tree), root).Aborted?
      ensures !aborted ==> Pass(world, old(tree), root) == Done(tree, again)
    {
      ghost var start, plan := tree, Plan(world, tree, root);
      var dependencies, revisions := ResolveAgain(root);
      hide Plan;
      aborted, again := false, false;
      var i := |dependencies|;
      while i > 0
        invariant 0 <= i <= |plan|
        invariant PassFrom(world, start, plan, |plan|, false) == PassFrom(world, tree, plan, i, again)
      {
        i := i - 1;
        var dependency, revision := dependencies[i], revisions[i];
        assert plan[i] == Visit(dependency, revision);
        if revision == "HEAD" {
          continue;
        }
        if dependency !in tree {
          var acquired := world.acquire(dependency, revision);
          if acquired.None? {
            aborted := true;
            return;
          }
          tree := tree[dependency := acquired.value];
          again := true;
        }
        assert tree[dependency := tree[dependency]] == tree;
        if tree[dependency] == revision {
          continue;
        }
        var head := world.checkout(dependency, revision);
        if head.None? {
          aborted := true;
          return;
        }
        tree := tree[dependency := head.value];
        again := true;
        return;
      }
    }

    /**
     Syncs the dependencies of a root that is checked out; at most 2^n passes when there are n repositories.
     It makes passes until one aborts or asks for no other, and reports exactly the former.
     */
    method SyncDependencies(root: Repo, ghost scope: set<Repo>) returns (aborted: bool, passes: nat)
      requires Scoped(world, scope) && root in scope && CommitIds(world, scope)
      modifies this
      ensures aborted <==> Passes(world, old(tree), root, passes).Aborted?
      ensures !aborted ==> Passes(world, old(tree), root, passes) == Done(tree, false)
      ensures forall n | 0 <= n < passes :: Goes(world, old(tree), root, n)
      ensures Succeeds(world, scope) ==> !aborted
      ensures !aborted ==> AllSettled(tree, Plan(world, tree, root)) && Lookup(tree, root) == old(Lookup(tree, root))
      ensures passes <= Pow2(|scope|)
    {
      hide Plan, AllSettled, Bits, Value, Scoped, CommitIds, Pass, Succeeds, Lookup, Pow2;
      var again := true;
      aborted, passes := false, 0;
      while again
        invariant !aborted && Passes(world, old(tree), root, passes) == Done(tree, again)
        invariant forall n | 0 <= n < passes :: Goes(world, old(tree), root, n)
        invariant Lookup(tree, root) == old(Lookup(tree, root))
        invariant !again ==> AllSettled(tree, Plan(world, tree, root))
        invariant passes + (if again then Value(Bits(world, tree, root, |scope|)) + 1 else 0) <= Pow2(|scope|)
        decreases again, Value(Bits(world, tree, root, |scope|))
      {
        ghost var before := tree;
        aborted, again := SyncPass(root);
        passes := passes + 1;
        PassesSucceedIf(world, old(tree), root, scope, passes);
        if aborted {
          return;
        }
        RootIsKept(world, before, root);
        if again {
          PassLowers(world, before, root, scope);
        } else {
          ExitsExactlyWhenSettled(world, before, root);
        }
      }
    }

    /**
     Checks `root` out to `revision`, acquiring it first if it is missing, and syncs its dependencies.
     It aborts exactly if the root cannot be acquired or checked out, or a pass over its dependencies aborts.
     */
    method SyncTo(root: Repo, revision: string, ghost scope: set<Repo>) returns (aborted: bool)
      requires Scoped(world, scope) && root in scope && CommitIds(world, scope)
      modifies this
      ensures var wanted := if revision == "" then "HEAD" else revision;
              var head := world.checkout(root, wanted);
              && (aborted <==>
                  || (root !in old(tree) && world.acquire(root, wanted).None?)
                  || head.None?
                  || Aborts(world, old(tree)[root := head.value], root))
              && (!aborted ==>
                  && EndsAt(world, old(tree)[root := head.value], root, tree)
                  && AllSettled(tree, Plan(world, tree, root))
                  && Lookup(tree, root) == head)
      ensures Succeeds(world, scope) ==> !aborted
    {
      hide Plan, AllSettled, Scoped, CommitIds, Passes;
      var wanted := if revision == "" then "HEAD" else revision;
      if root !in tree && world.acquire(root, wanted).None? {
        return true;
      }
      var head := world.checkout(root, wanted);
      if head.None? {
        return true;
      }
      tree := tree[root := head.value];
      ghost var start := tree;
      var passes;
      aborted, passes := SyncDependencies(root, scope);
      if !aborted { NeverAborts(world, start, root, passes); }
    }
  }

  lemma PassesSucceedIf(w: World, t: Tree, root: Repo, scope: set<Repo>, n: nat)
    requires Scoped(w, scope) && root in scope
    ensures Succeeds(w, scope) ==> Passes(w, t, root, n).Done?
  {
    if Succeeds(w, scope) { PassesSucceed(w, t, root, scope, n); }
  }

  lemma NeverAborts(w: World, t: Tree, root: Repo, p: nat)
    requires Passes(w, t, root, p).Done? && !Passes(w, t, root, p).again
    ensures forall n :: Passes(w, t, root, n).Done?
  {
    forall n
      ensures Passes(w, t, root, n).Done?
    {
      if p <= n { PassesStay(w, t, root, p, n); } else if Passes(w, t, root, n).Aborted? { PassesStay(w, t, root, n, p); }
    }
  }

  /** The resolver's two lists are the plan, entry by entry. */
  lemma PlanLists(w: World, t: Tree, root: Repo, seen: set<Repo>, names: seq<Repo>, revisions: seq<string>)
    requires ModuleResolver.Resolved(GraphOf(w, t), {}, {}, root, "", seen, names, revisions)
    ensures var plan := Plan(w, t, root);
            && |names| == |revisions| == |plan|
            && forall i | 0 <= i < |plan| :: plan[i] == Visit(names[i], revisions[i])
  {
  }
}
