/**
 Resolving a graph of repositories depth first: what `qt_internal_resolve_module_dependencies`
 computes, and what its two lists mean.
 */
module DependencyGraph {

  type Repo = string

  /** An entry of a dependencies.yaml: a repository, its pinned revision, and whether it is required. */
  datatype Dep = Dep(name: Repo, revision: string, required: bool)

  /** A module and the revision it is wanted at. */
  datatype Visit = Visit(name: Repo, revision: string)

  /** The dependencies of every module that names any, in the order of its file. */
  type Graph = map<Repo, seq<Dep>>

  function Out(g: Graph, m: Repo): seq<Dep> {
    if m in g then g[m] else []
  }

  /** The result of a walk: everything seen, the modules in order, and every entry that was looked at. */
  datatype Walked = Walked(seen: set<Repo>, ordered: seq<Visit>, looked: seq<Dep>)

  function RevisionOf(d: Dep): string {
    if d.revision == "" then "HEAD" else d.revision
  }

  /** An entry that is passed over adds nothing to what follows. */
  function Passed(d: Dep, after: Walked): Walked {
    Walked(after.seen, after.ordered, [d] + after.looked)
  }

  /** A visited module is listed after what its own dependencies list. */
  function Joined(d: Dep, inner: Walked, after: Walked): Walked {
    Walked(after.seen, inner.ordered + [Visit(d.name, RevisionOf(d))] + after.ordered,
           [d] + inner.looked + after.looked)
  }

  /**
   Visits `deps` from left to right; a module that was seen, or is to be skipped, is passed over;
   any other one is listed after everything it depends on.
   */
  function Walk(g: Graph, skip: set<Repo>, seen: set<Repo>, deps: seq<Dep>): (r: Walked)
    ensures seen <= r.seen
    decreases |g.Keys - seen|, |deps|
  {
    if deps == [] then Walked(seen, [], [])
    else if deps[0].name in seen || deps[0].name in skip then
      Passed(deps[0], Walk(g, skip, seen, deps[1..]))
    else
      KeysLeft(g, seen, deps[0].name);
      var inner := Walk(g, skip, seen + {deps[0].name}, Out(g, deps[0].name));
      KeysLeftShrink(g, seen, inner.seen);
      Joined(deps[0], inner, Walk(g, skip, inner.seen, deps[1..]))
  }

  lemma KeysLeft(g: Graph, seen: set<Repo>, m: Repo)
    requires m !in seen
    ensures m in g ==> |g.Keys - (seen + {m})| < |g.Keys - seen|
    ensures m !in g ==> g.Keys - (seen + {m}) == g.Keys - seen
  {
    if m in g {
      assert g.Keys - seen == (g.Keys - (seen + {m})) + {m};
    }
  }

  lemma KeysLeftShrink(g: Graph, seen: set<Repo>, more: set<Repo>)
    requires seen <= more
    ensures |g.Keys - more| <= |g.Keys - seen|
  {
    assert g.Keys - seen == (g.Keys - more) + ((g.Keys - seen) * more);
  }

  // The three cases of `Walk`, for proofs that hide its body.

  lemma UnfoldEmpty(g: Graph, skip: set<Repo>, seen: set<Repo>)
    ensures Walk(g, skip, seen, []) == Walked(seen, [], [])
  {
  }

  lemma UnfoldPassed(g: Graph, skip: set<Repo>, seen: set<Repo>, deps: seq<Dep>)
    requires deps != [] && (deps[0].name in seen || deps[0].name in skip)
    ensures Walk(g, skip, seen, deps) == Passed(deps[0], Walk(g, skip, seen, deps[1..]))
  {
  }

  lemma UnfoldVisit(g: Graph, skip: set<Repo>, seen: set<Repo>, deps: seq<Dep>, inner: Walked)
    requires deps != [] && deps[0].name !in seen && deps[0].name !in skip
    requires inner == Walk(g, skip, seen + {deps[0].name}, Out(g, deps[0].name))
    ensures Walk(g, skip, seen, deps) == Joined(deps[0], inner, Walk(g, skip, inner.seen, deps[1..]))
  {
    KeysLeft(g, seen, deps[0].name);
    KeysLeftShrink(g, seen, inner.seen);
  }

  /** The call for the root: nothing is seen yet. */
  function Resolve(g: Graph, skip: set<Repo>, root: Repo, revision: string): Walked {
    Walk(g, skip, {}, [Dep(root, revision, true)])
  }

  function Names(vs: seq<Visit>): (ns: seq<Repo>)
    ensures |ns| == |vs| && forall i | 0 <= i < |vs| :: ns[i] == vs[i].name
  {
    seq(|vs|, i requires 0 <= i < |vs| => vs[i].name)
  }

  predicate Distinct<T(==)>(s: seq<T>) {
    forall i, j | 0 <= i < j < |s| :: s[i] != s[j]
  }

  predicate HasEdge(g: Graph, u: Repo, v: Repo) {
    exists d | d in Out(g, u) :: d.name == v
  }

  // ----- each module once -----

  /** What a walk lists is what it newly saw: each module once, none that was seen or skipped. */
  ghost predicate ListsNew(skip: set<Repo>, seen: set<Repo>, r: Walked) {
    && Distinct(Names(r.ordered))
    && (forall m :: m in r.seen <==> m in seen || m in Names(r.ordered))
    && (forall m | m in Names(r.ordered) :: m !in seen && m !in skip)
  }

  lemma JoinedNames(d: Dep, inner: Walked, after: Walked)
    ensures Names(Joined(d, inner, after).ordered) == Names(inner.ordered) + [d.name] + Names(after.ordered)
  {
  }

  lemma JoinedListsNew(skip: set<Repo>, seen: set<Repo>, d: Dep, inner: Walked, after: Walked)
    requires d.name !in seen && d.name !in skip
    requires ListsNew(skip, seen + {d.name}, inner) && ListsNew(skip, inner.seen, after)
    ensures ListsNew(skip, seen, Joined(d, inner, after))
  {
    JoinedNames(d, inner, after);
    DistinctAround(Names(inner.ordered), d.name, Names(after.ordered));
  }

  lemma DistinctAround<T>(a: seq<T>, x: T, b: seq<T>)
    requires Distinct(a) && Distinct(b) && x !in a && x !in b
    requires forall y | y in b :: y !in a
    ensures Distinct(a + [x] + b)
  {
    var s := a + [x] + b;
    forall i, j | 0 <= i < j < |s|
      ensures s[i] != s[j]
    {
      assert s[i] == if i < |a| then a[i] else if i == |a| then x else b[i - |a| - 1];
      assert s[j] == if j < |a| then a[j] else if j == |a| then x else b[j - |a| - 1];
      assert j > |a| ==> b[j - |a| - 1] in b;
      assert i < |a| ==> a[i] in a;
    }
  }

  lemma {:induction false} WalkListsNew(g: Graph, skip: set<Repo>, seen: set<Repo>, deps: seq<Dep>)
    ensures ListsNew(skip, seen, Walk(g, skip, seen, deps))
    decreases |g.Keys - seen|, |deps|
  {
    if deps == [] {
    } else if deps[0].name in seen || deps[0].name in skip {
      WalkListsNew(g, skip, seen, deps[1..]);
    } else {
      KeysLeft(g, seen, deps[0].name);
      var inner := Walk(g, skip, seen + {deps[0].name}, Out(g, deps[0].name));
      KeysLeftShrink(g, seen, inner.seen);
      WalkListsNew(g, skip, seen + {deps[0].name}, Out(g, deps[0].name));
      WalkListsNew(g, skip, inner.seen, deps[1..]);
      JoinedListsNew(skip, seen, deps[0], inner, Walk(g, skip, inner.seen, deps[1..]));
    }
  }

  // ----- exactly the reachable modules -----

  ghost predicate IsPath(g: Graph, avoid: set<Repo>, p: seq<Repo>) {
    && p != []
    && (forall i | 0 <= i < |p| :: p[i] !in avoid)
    && (forall i | 0 <= i < |p| - 1 :: HasEdge(g, p[i], p[i + 1]))
  }

  predicate Named(deps: seq<Dep>, m: Repo) {
    exists d | d in deps :: d.name == m
  }

  ghost predicate Connects(g: Graph, avoid: set<Repo>, deps: seq<Dep>, m: Repo, p: seq<Repo>) {
    IsPath(g, avoid, p) && Named(deps, p[0]) && p[|p| - 1] == m
  }

  /** `m` can be reached from `deps` without passing through `avoid`. */
  ghost predicate Reachable(g: Graph, avoid: set<Repo>, deps: seq<Dep>, m: Repo) {
    exists p :: Connects(g, avoid, deps, m, p)
  }

  /** Everything listed can be reached without passing through what was seen or skipped. */
  ghost predicate ListsReachable(g: Graph, avoid: set<Repo>, deps: seq<Dep>, r: Walked) {
    forall m | m in Names(r.ordered) :: Reachable(g, avoid, deps, m)
  }

  lemma ReachableFromMore(g: Graph, avoid: set<Repo>, less: set<Repo>, deps: seq<Dep>, more: seq<Dep>, m: Repo)
    requires less <= avoid && (forall d | d in deps :: d in more)
    requires Reachable(g, avoid, deps, m)
    ensures Reachable(g, less, more, m)
  {
    var p :| Connects(g, avoid, deps, m, p);
    assert Connects(g, less, more, m, p);
  }

  lemma ReachableThrough(g: Graph, avoid: set<Repo>, deps: seq<Dep>, d: Dep, m: Repo)
    requires d in deps && d.name !in avoid
    requires Reachable(g, avoid + {d.name}, Out(g, d.name), m)
    ensures Reachable(g, avoid, deps, m)
  {
    var p :| Connects(g, avoid + {d.name}, Out(g, d.name), m, p);
    var q := [d.name] + p;
    assert HasEdge(g, q[0], q[1]);
    assert forall i | 1 <= i < |q| - 1 :: q[i] == p[i - 1] && q[i + 1] == p[i];
    assert Connects(g, avoid, deps, m, q);
  }

  lemma JoinedListsReachable(g: Graph, skip: set<Repo>, seen: set<Repo>, deps: seq<Dep>, inner: Walked, after: Walked)
    requires deps != [] && deps[0].name !in skip + seen && seen <= inner.seen
    requires ListsReachable(g, skip + (seen + {deps[0].name}), Out(g, deps[0].name), inner)
    requires ListsReachable(g, skip + inner.seen, deps[1..], after)
    ensures ListsReachable(g, skip + seen, deps, Joined(deps[0], inner, after))
  {
    var avoid, later, d := skip + seen, skip + inner.seen, deps[0];
    assert skip + (seen + {d.name}) == avoid + {d.name};
    JoinedNames(d, inner, after);
    forall m | m in Names(Joined(d, inner, after).ordered)
      ensures Reachable(g, avoid, deps, m)
    {
      if m in Names(inner.ordered) {
        ReachableThrough(g, avoid, deps, d, m);
      } else if m in Names(after.ordered) {
        ReachableFromMore(g, later, avoid, deps[1..], deps, m);
      } else {
        assert Connects(g, avoid, deps, m, [m]);
      }
    }
  }

  lemma PassedListsReachable(g: Graph, avoid: set<Repo>, deps: seq<Dep>, after: Walked)
    requires deps != [] && ListsReachable(g, avoid, deps[1..], after)
    ensures ListsReachable(g, avoid, deps, Passed(deps[0], after))
  {
    forall m | m in Names(after.ordered)
      ensures Reachable(g, avoid, deps, m)
    {
      ReachableFromMore(g, avoid, avoid, deps[1..], deps, m);
    }
  }

  lemma {:induction false} WalkReaches(g: Graph, skip: set<Repo>, seen: set<Repo>, deps: seq<Dep>)
    ensures ListsReachable(g, skip + seen, deps, Walk(g, skip, seen, deps))
    decreases |g.Keys - seen|, |deps|
  {
    if deps == [] {
    } else if deps[0].name in seen || deps[0].name in skip {
      WalkReaches(g, skip, seen, deps[1..]);
      PassedListsReachable(g, skip + seen, deps, Walk(g, skip, seen, deps[1..]));
    } else {
      KeysLeft(g, seen, deps[0].name);
      var inner := Walk(g, skip, seen + {deps[0].name}, Out(g, deps[0].name));
      KeysLeftShrink(g, seen, inner.seen);
      var after := Walk(g, skip, inner.seen, deps[1..]);
      WalkReaches(g, skip, seen + {deps[0].name}, Out(g, deps[0].name));
      WalkReaches(g, skip, inner.seen, deps[1..]);
      JoinedListsReachable(g, skip, seen, deps, inner, after);
    }
  }

  /** Nothing is left out: what a listed module depends on was seen or skipped, and so were the `deps`. */
  ghost predicate Closed(g: Graph, skip: set<Repo>, deps: seq<Dep>, r: Walked) {
    && (forall d | d in deps :: d.name in r.seen || d.name in skip)
    && (forall u, d | u in Names(r.ordered) && d in Out(g, u) :: d.name in r.seen || d.name in skip)
  }

  lemma JoinedCloses(g: Graph, skip: set<Repo>, deps: seq<Dep>, inner: Walked, after: Walked)
    requires deps != [] && inner.seen <= after.seen && deps[0].name in inner.seen
    requires Closed(g, skip, Out(g, deps[0].name), inner) && Closed(g, skip, deps[1..], after)
    ensures Closed(g, skip, deps, Joined(deps[0], inner, after))
  {
    JoinedNames(deps[0], inner, after);
  }

  lemma {:induction false} WalkCloses(g: Graph, skip: set<Repo>, seen: set<Repo>, deps: seq<Dep>)
    ensures Closed(g, skip, deps, Walk(g, skip, seen, deps))
    decreases |g.Keys - seen|, |deps|
  {
    if deps == [] {
    } else if deps[0].name in seen || deps[0].name in skip {
      WalkCloses(g, skip, seen, deps[1..]);
    } else {
      KeysLeft(g, seen, deps[0].name);
      var inner := Walk(g, skip, seen + {deps[0].name}, Out(g, deps[0].name));
      KeysLeftShrink(g, seen, inner.seen);
      WalkCloses(g, skip, seen + {deps[0].name}, Out(g, deps[0].name));
      WalkCloses(g, skip, inner.seen, deps[1..]);
      JoinedCloses(g, skip, deps, inner, Walk(g, skip, inner.seen, deps[1..]));
    }
  }

  lemma {:induction false} PathIsListed(g: Graph, skip: set<Repo>, seen: set<Repo>, deps: seq<Dep>, p: seq<Repo>, i: nat)
    requires IsPath(g, skip + seen, p) && Named(deps, p[0]) && i < |p|
    ensures p[i] in Names(Walk(g, skip, seen, deps).ordered)
  {
    WalkListsNew(g, skip, seen, deps);
    WalkCloses(g, skip, seen, deps);
    if i > 0 {
      PathIsListed(g, skip, seen, deps, p, i - 1);
      assert HasEdge(g, p[i - 1], p[i]);
    }
  }

  /** On every graph, cyclic or not, a walk lists exactly the modules reachable without passing through a seen or skipped one. */
  lemma ListsExactlyReachable(g: Graph, skip: set<Repo>, seen: set<Repo>, deps: seq<Dep>, m: Repo)
    ensures m in Names(Walk(g, skip, seen, deps).ordered) <==> Reachable(g, skip + seen, deps, m)
  {
    WalkReaches(g, skip, seen, deps);
    if Reachable(g, skip + seen, deps, m) {
      var p :| Connects(g, skip + seen, deps, m, p);
      PathIsListed(g, skip, seen, deps, p, |p| - 1);
    }
  }

  // ----- topological order -----

  /** Each dependency that is not skipped is finished already (`done`) or comes earlier in the list. */
  ghost predicate SortedAfter(g: Graph, skip: set<Repo>, done: set<Repo>, ns: seq<Repo>) {
    forall i, v | 0 <= i < |ns| && HasEdge(g, ns[i], v) && v !in skip :: v in done || v in ns[..i]
  }

  /** Every dependency that is not skipped comes before what depends on it. */
  ghost predicate TopoSorted(g: Graph, skip: set<Repo>, ns: seq<Repo>) {
    SortedAfter(g, skip, {}, ns)
  }

  /** A path of at least one edge from `u` to `v`. */
  ghost predicate Leads(g: Graph, avoid: set<Repo>, u: Repo, v: Repo) {
    exists p :: IsPath(g, avoid, p) && |p| >= 2 && p[0] == u && p[|p| - 1] == v
  }

  lemma LeadsStep(g: Graph, avoid: set<Repo>, u: Repo, v: Repo, w: Repo)
    requires u == v || Leads(g, avoid, u, v)
    requires HasEdge(g, v, w) && v !in avoid && w !in avoid
    ensures Leads(g, avoid, u, w)
  {
    if u == v {
      assert IsPath(g, avoid, [u, w]);
    } else {
      var p :| IsPath(g, avoid, p) && |p| >= 2 && p[0] == u && p[|p| - 1] == v;
      var q := p + [w];
      assert forall i | 0 <= i < |q| - 1 :: HasEdge(g, q[i], q[i + 1]);
      assert IsPath(g, avoid, q);
    }
  }

  ghost predicate NoCycle(g: Graph, skip: set<Repo>, ns: seq<Repo>) {
    forall m | m in ns :: !Leads(g, skip, m, m)
  }

  ghost predicate AllLead(g: Graph, skip: set<Repo>, stack: set<Repo>, deps: seq<Dep>) {
    forall s, d | s in stack && d in deps && d.name !in skip :: Leads(g, skip, s, d.name)
  }

  /**
   The walk below a stack of modules being resolved, every one of which leads to each of `deps`. When
   nothing listed is on a cycle, each dependency was finished before the stack was entered or comes earlier.
   */
  lemma {:induction false} WalkSorts(g: Graph, skip: set<Repo>, seen: set<Repo>, deps: seq<Dep>, stack: set<Repo>)
    requires stack <= seen && AllLead(g, skip, stack, deps)
    requires NoCycle(g, skip, Names(Walk(g, skip, seen, deps).ordered))
    ensures SortedAfter(g, skip, seen - stack, Names(Walk(g, skip, seen, deps).ordered))
    decreases |g.Keys - seen|, |deps|
  {
    if deps == [] {
    } else if deps[0].name in seen || deps[0].name in skip {
      WalkSorts(g, skip, seen, deps[1..], stack);
    } else {
      KeysLeft(g, seen, deps[0].name);
      var inner := Walk(g, skip, seen + {deps[0].name}, Out(g, deps[0].name));
      KeysLeftShrink(g, seen, inner.seen);
      var after := Walk(g, skip, inner.seen, deps[1..]);
      SplitNoCycle(g, skip, deps[0], inner, after);
      StackLeads(g, skip, deps[0], stack);
      WalkSorts(g, skip, seen + {deps[0].name}, Out(g, deps[0].name), stack + {deps[0].name});
      WalkSorts(g, skip, inner.seen, deps[1..], stack);
      WalkListsNew(g, skip, seen + {deps[0].name}, Out(g, deps[0].name));
      WalkCloses(g, skip, seen + {deps[0].name}, Out(g, deps[0].name));
      JoinedSorts(g, skip, seen, deps[0], stack, inner, after);
    }
  }

  lemma SplitNoCycle(g: Graph, skip: set<Repo>, d: Dep, inner: Walked, after: Walked)
    requires NoCycle(g, skip, Names(Joined(d, inner, after).ordered))
    ensures NoCycle(g, skip, Names(inner.ordered)) && NoCycle(g, skip, Names(after.ordered))
    ensures !Leads(g, skip, d.name, d.name)
  {
    JoinedNames(d, inner, after);
    var ns := Names(inner.ordered) + [d.name] + Names(after.ordered);
    assert ns[|inner.ordered|] == d.name;
    assert forall m | m in Names(inner.ordered) :: m in ns;
    assert forall m | m in Names(after.ordered) :: m in ns;
  }

  lemma JoinedSorts(g: Graph, skip: set<Repo>, seen: set<Repo>, d: Dep, stack: set<Repo>, inner: Walked, after: Walked)
    requires d.name !in skip && d.name !in seen && !Leads(g, skip, d.name, d.name)
    requires forall s | s in stack :: Leads(g, skip, s, d.name)
    requires ListsNew(skip, seen + {d.name}, inner) && Closed(g, skip, Out(g, d.name), inner)
    requires SortedAfter(g, skip, (seen + {d.name}) - (stack + {d.name}), Names(inner.ordered))
    requires SortedAfter(g, skip, inner.seen - stack, Names(after.ordered))
    ensures SortedAfter(g, skip, seen - stack, Names(Joined(d, inner, after).ordered))
  {
    JoinedNames(d, inner, after);
    OutIsDone(g, skip, seen, d, stack, inner);
    assert (seen + {d.name}) - (stack + {d.name}) == seen - stack;
    JoinSorted(g, skip, seen - stack, Names(inner.ordered), d.name, Names(after.ordered), inner.seen - stack);
  }

  /** What a module that is on no cycle depends on is finished when its own turn comes. */
  lemma OutIsDone(g: Graph, skip: set<Repo>, seen: set<Repo>, d: Dep, stack: set<Repo>, inner: Walked)
    requires d.name !in skip && !Leads(g, skip, d.name, d.name)
    requires forall s | s in stack :: Leads(g, skip, s, d.name)
    requires ListsNew(skip, seen + {d.name}, inner) && Closed(g, skip, Out(g, d.name), inner)
    ensures forall v | HasEdge(g, d.name, v) && v !in skip :: v in seen - stack || v in Names(inner.ordered)
  {
    forall v | HasEdge(g, d.name, v) && v !in skip
      ensures v in seen - stack || v in Names(inner.ordered)
    {
      if v in stack || v == d.name {
        CycleThrough(g, skip, d.name, v, stack);
      }
    }
  }

  lemma StackLeads(g: Graph, skip: set<Repo>, d: Dep, stack: set<Repo>)
    requires d.name !in skip
    requires forall s | s in stack :: Leads(g, skip, s, d.name)
    ensures AllLead(g, skip, stack + {d.name}, Out(g, d.name))
  {
    forall s, e | s in stack + {d.name} && e in Out(g, d.name) && e.name !in skip
      ensures Leads(g, skip, s, e.name)
    {
      assert HasEdge(g, d.name, e.name);
      LeadsStep(g, skip, s, d.name, e.name);
    }
  }

  /** An edge back to the stack closes a cycle. */
  lemma CycleThrough(g: Graph, skip: set<Repo>, u: Repo, v: Repo, stack: set<Repo>)
    requires HasEdge(g, u, v) && u !in skip && v !in skip
    requires v in stack || v == u
    requires forall s | s in stack :: Leads(g, skip, s, u)
    ensures Leads(g, skip, u, u)
  {
    if v == u {
      LeadsStep(g, skip, u, u, u);
    } else {
      var p :| IsPath(g, skip, p) && |p| >= 2 && p[0] == v && p[|p| - 1] == u;
      var q := [u] + p;
      assert forall i | 0 <= i < |q| - 1 :: HasEdge(g, q[i], q[i + 1]);
      assert IsPath(g, skip, q);
    }
  }

  /** Joining the two halves of a walk around the module between them. */
  lemma JoinSorted(g: Graph, skip: set<Repo>, done: set<Repo>, a: seq<Repo>, m: Repo, b: seq<Repo>, later: set<Repo>)
    requires SortedAfter(g, skip, done, a) && SortedAfter(g, skip, later, b)
    requires forall v | HasEdge(g, m, v) && v !in skip :: v in done || v in a
    requires forall v | v in later :: v in done || v in a || v == m
    ensures SortedAfter(g, skip, done, a + [m] + b)
  {
    var ns := a + [m] + b;
    forall i, v | 0 <= i < |ns| && HasEdge(g, ns[i], v) && v !in skip
      ensures v in done || v in ns[..i]
    {
      if i < |a| {
        assert ns[i] == a[i] && ns[..i] == a[..i];
      } else if i == |a| {
        assert ns[..i] == a;
      } else {
        var k := i - |a| - 1;
        assert ns[i] == b[k] && ns[..i] == a + [m] + b[..k];
      }
    }
  }

  /** In a sorted list of distinct names a path runs backwards. */
  lemma {:induction false} PathRunsBack(g: Graph, skip: set<Repo>, names: seq<Repo>, p: seq<Repo>, from: nat) returns (end: nat)
    requires TopoSorted(g, skip, names) && IsPath(g, skip, p)
    requires from < |names| && names[from] == p[0]
    ensures end <= from && names[end] == p[|p| - 1] && (|p| >= 2 ==> end < from)
    decreases |p|
  {
    if |p| == 1 {
      end := from;
    } else {
      assert HasEdge(g, p[0], p[1]);
      var k :| 0 <= k < from && names[..from][k] == p[1];
      assert forall i | 0 <= i < |p[1..]| - 1 :: HasEdge(g, p[1..][i], p[1..][i + 1]);
      end := PathRunsBack(g, skip, names, p[1..], k);
    }
  }

  lemma SortedHasNoCycle(g: Graph, skip: set<Repo>, ns: seq<Repo>)
    requires TopoSorted(g, skip, ns) && Distinct(ns)
    ensures NoCycle(g, skip, ns)
  {
    forall m | m in ns
      ensures !Leads(g, skip, m, m)
    {
      if Leads(g, skip, m, m) {
        var p :| IsPath(g, skip, p) && |p| >= 2 && p[0] == m && p[|p| - 1] == m;
        var from :| 0 <= from < |ns| && ns[from] == m;
        var _ := PathRunsBack(g, skip, ns, p, from);
        assert false;
      }
    }
  }

  /**
   The list is topologically sorted if and only if no listed module depends on itself, directly or
   through others that are not skipped.
   */
  lemma SortedExactlyWhenAcyclic(g: Graph, skip: set<Repo>, deps: seq<Dep>)
    ensures var ns := Names(Walk(g, skip, {}, deps).ordered);
            TopoSorted(g, skip, ns) <==> NoCycle(g, skip, ns)
  {
    var ns := Names(Walk(g, skip, {}, deps).ordered);
    WalkListsNew(g, skip, {}, deps);
    if NoCycle(g, skip, ns) {
      var none: set<Repo> := {};
      WalkSorts(g, skip, none, deps, none);
      assert none - none == none;
    }
    if TopoSorted(g, skip, ns) {
      SortedHasNoCycle(g, skip, ns);
    }
  }

  /** A module that was seen before the walk is passed over like one that is skipped. */
  lemma {:induction false} SeenIsSkipped(g: Graph, skip: set<Repo>, seen: set<Repo>, extra: set<Repo>, deps: seq<Dep>)
    ensures var a, b := Walk(g, skip, seen + extra, deps), Walk(g, skip + extra, seen, deps);
            a.ordered == b.ordered && a.seen == b.seen + extra
    decreases |g.Keys - seen|, |deps|
  {
    hide Walk;
    if deps == [] {
      UnfoldEmpty(g, skip, seen + extra);
      UnfoldEmpty(g, skip + extra, seen);
    } else if deps[0].name in seen + extra || deps[0].name in skip {
      UnfoldPassed(g, skip, seen + extra, deps);
      UnfoldPassed(g, skip + extra, seen, deps);
      SeenIsSkipped(g, skip, seen, extra, deps[1..]);
    } else {
      var d := deps[0];
      KeysLeft(g, seen, d.name);
      SeenIsSkipped(g, skip, seen + {d.name}, extra, Out(g, d.name));
      assert (seen + {d.name}) + extra == (seen + extra) + {d.name};
      var inner := Walk(g, skip + extra, seen + {d.name}, Out(g, d.name));
      var innerA := Walk(g, skip, (seen + extra) + {d.name}, Out(g, d.name));
      KeysLeftShrink(g, seen, inner.seen);
      SeenIsSkipped(g, skip, inner.seen, extra, deps[1..]);
      UnfoldVisit(g, skip, seen + extra, deps, innerA);
      UnfoldVisit(g, skip + extra, seen, deps, inner);
    }
  }

  // ----- the root and the revisions -----

  /** The root comes last, at the revision asked for, HEAD when none was. */
  lemma RootIsLast(g: Graph, skip: set<Repo>, root: Repo, revision: string)
    ensures var vs := Resolve(g, skip, root, revision).ordered;
            if root in skip then vs == []
            else vs != [] && vs[|vs| - 1] == Visit(root, if revision == "" then "HEAD" else revision)
  {
    hide Walk, Out;
    var deps, none: set<Repo> := [Dep(root, revision, true)], {};
    assert deps[1..] == [] && root !in none;
    if root in skip {
      UnfoldEmpty(g, skip, none);
      UnfoldPassed(g, skip, none, deps);
    } else {
      var inner := Walk(g, skip, none + {root}, Out(g, root));
      UnfoldEmpty(g, skip, inner.seen);
      UnfoldVisit(g, skip, none, deps, inner);
    }
  }

  /** The first entry that names `m`. */
  function FirstLook(looked: seq<Dep>, m: Repo): Dep
    requires Named(looked, m)
  {
    if looked[0].name == m then looked[0] else FirstLook(looked[1..], m)
  }

  lemma {:induction false} FirstLookConcat(a: seq<Dep>, b: seq<Dep>, m: Repo)
    ensures Named(a, m) ==> Named(a + b, m) && FirstLook(a + b, m) == FirstLook(a, m)
    ensures !Named(a, m) && Named(b, m) ==> Named(a + b, m) && FirstLook(a + b, m) == FirstLook(b, m)
  {
    if a == [] {
      assert a + b == b;
    } else {
      assert (a + b)[1..] == a[1..] + b && (a + b)[0] == a[0];
      assert forall d | d in a :: d in a + b;
      assert forall d | d in b :: d in a + b;
      FirstLookConcat(a[1..], b, m);
      if Named(a, m) && a[0].name != m {
        assert Named(a[1..], m);
      }
    }
  }

  /** Each module is listed at the revision of the first entry that named it; all that was looked at is seen or skipped. */
  ghost predicate FirstLooks(skip: set<Repo>, r: Walked) {
    && (forall d | d in r.looked :: d.name in r.seen || d.name in skip)
    && (forall i | 0 <= i < |r.ordered| ::
          Named(r.looked, r.ordered[i].name) && r.ordered[i].revision == RevisionOf(FirstLook(r.looked, r.ordered[i].name)))
  }

  lemma PassedFirstLooks(skip: set<Repo>, seen: set<Repo>, d: Dep, after: Walked)
    requires d.name in seen || d.name in skip
    requires ListsNew(skip, seen, after) && FirstLooks(skip, after)
    ensures FirstLooks(skip, Passed(d, after))
  {
    forall i | 0 <= i < |after.ordered|
      ensures Named([d] + after.looked, after.ordered[i].name)
      ensures after.ordered[i].revision == RevisionOf(FirstLook([d] + after.looked, after.ordered[i].name))
    {
      assert after.ordered[i].name == Names(after.ordered)[i];
      FirstLookConcat([d], after.looked, after.ordered[i].name);
    }
  }

  lemma JoinedFirstLooks(skip: set<Repo>, seen: set<Repo>, d: Dep, inner: Walked, after: Walked)
    requires d.name !in seen && d.name !in skip
    requires ListsNew(skip, seen + {d.name}, inner) && FirstLooks(skip, inner)
    requires ListsNew(skip, inner.seen, after) && FirstLooks(skip, after)
    ensures FirstLooks(skip, Joined(d, inner, after))
  {
    var r := Joined(d, inner, after);
    forall i | 0 <= i < |r.ordered|
      ensures Named(r.looked, r.ordered[i].name)
      ensures r.ordered[i].revision == RevisionOf(FirstLook(r.looked, r.ordered[i].name))
    {
      var m := r.ordered[i].name;
      FirstLookConcat([d] + inner.looked, after.looked, m);
      FirstLookConcat([d], inner.looked, m);
      if i < |inner.ordered| {
        assert r.ordered[i] == inner.ordered[i] && m == Names(inner.ordered)[i];
      } else if i > |inner.ordered| {
        var k := i - |inner.ordered| - 1;
        assert r.ordered[i] == after.ordered[k] && m == Names(after.ordered)[k];
        assert !Named([d] + inner.looked, m);
      } else {
        assert d in [d];
      }
    }
  }

  lemma {:induction false} RevisionIsFirstLook(g: Graph, skip: set<Repo>, seen: set<Repo>, deps: seq<Dep>)
    ensures FirstLooks(skip, Walk(g, skip, seen, deps))
    decreases |g.Keys - seen|, |deps|
  {
    if deps == [] {
    } else if deps[0].name in seen || deps[0].name in skip {
      RevisionIsFirstLook(g, skip, seen, deps[1..]);
      WalkListsNew(g, skip, seen, deps[1..]);
      PassedFirstLooks(skip, seen, deps[0], Walk(g, skip, seen, deps[1..]));
    } else {
      KeysLeft(g, seen, deps[0].name);
      var inner := Walk(g, skip, seen + {deps[0].name}, Out(g, deps[0].name));
      KeysLeftShrink(g, seen, inner.seen);
      WalkListsNew(g, skip, seen + {deps[0].name}, Out(g, deps[0].name));
      WalkListsNew(g, skip, inner.seen, deps[1..]);
      RevisionIsFirstLook(g, skip, seen + {deps[0].name}, Out(g, deps[0].name));
      RevisionIsFirstLook(g, skip, inner.seen, deps[1..]);
      JoinedFirstLooks(skip, seen, deps[0], inner, Walk(g, skip, inner.seen, deps[1..]));
    }
  }
}
