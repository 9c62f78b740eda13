/**
 The walk in the order of first visit. A module is listed after everything it depends on, but which
 revision it is listed at is settled when it is first visited, before its own dependencies are read.
 */
module FirstVisits {
  import opened DependencyGraph
  import opened ModuleResolver

  /** The visits of a walk, each module before what its own dependencies list. */
  function PreWalk(g: Graph, seen: set<Repo>, deps: seq<Dep>): seq<Visit>
    decreases |g.Keys - seen|, |deps|
  {
    if deps == [] then []
    else if deps[0].name in seen then PreWalk(g, seen, deps[1..])
    else
      var d := deps[0];
      KeysLeft(g, seen, d.name);
      var inner := Walk(g, {}, seen + {d.name}, Out(g, d.name));
      KeysLeftShrink(g, seen, inner.seen);
      [Visit(d.name, RevisionOf(d))]
      + (if d.name in g then PreWalk(g, seen + {d.name}, g[d.name]) else [])
      + PreWalk(g, inner.seen, deps[1..])
  }

  lemma PreEmpty(g: Graph, seen: set<Repo>)
    ensures PreWalk(g, seen, []) == []
  {
  }

  lemma PrePassed(g: Graph, seen: set<Repo>, deps: seq<Dep>)
    requires deps != [] && deps[0].name in seen
    ensures PreWalk(g, seen, deps) == PreWalk(g, seen, deps[1..])
  {
  }

  lemma PreVisited(g: Graph, seen: set<Repo>, deps: seq<Dep>, inner: Walked)
    requires deps != [] && deps[0].name !in seen
    requires inner == Walk(g, {}, seen + {deps[0].name}, Out(g, deps[0].name))
    ensures PreWalk(g, seen, deps) ==
            [Visit(deps[0].name, RevisionOf(deps[0]))] + PreWalk(g, seen + {deps[0].name}, Out(g, deps[0].name))
            + PreWalk(g, inner.seen, deps[1..])
  {
    hide Walk;
    if deps[0].name !in g { PreEmpty(g, seen + {deps[0].name}); }
  }

  /** The same visits as those of the walk, in another order. */
  lemma {:induction false} SameVisits(g: Graph, seen: set<Repo>, deps: seq<Dep>)
    ensures multiset(PreWalk(g, seen, deps)) == multiset(Walk(g, {}, seen, deps).ordered)
    decreases |g.Keys - seen|, |deps|
  {
    hide Walk, PreWalk;
    if deps == [] {
      UnfoldEmpty(g, {}, seen);
      PreEmpty(g, seen);
    } else if deps[0].name in seen {
      UnfoldPassed(g, {}, seen, deps);
      PrePassed(g, seen, deps);
      SameVisits(g, seen, deps[1..]);
    } else {
      KeysLeft(g, seen, deps[0].name);
      var inner := Walk(g, {}, seen + {deps[0].name}, Out(g, deps[0].name));
      KeysLeftShrink(g, seen, inner.seen);
      UnfoldVisit(g, {}, seen, deps, inner);
      PreVisited(g, seen, deps, inner);
      SameVisits(g, seen + {deps[0].name}, Out(g, deps[0].name));
      SameVisits(g, inner.seen, deps[1..]);
    }
  }

  lemma VisitIn(g: Graph, seen: set<Repo>, deps: seq<Dep>, v: Visit)
    ensures v in PreWalk(g, seen, deps) <==> v in Walk(g, {}, seen, deps).ordered
    ensures |PreWalk(g, seen, deps)| == |Walk(g, {}, seen, deps).ordered|
  {
    hide Walk, PreWalk;
    SameVisits(g, seen, deps);
    var a, b := PreWalk(g, seen, deps), Walk(g, {}, seen, deps).ordered;
    assert v in multiset(a) <==> v in a;
    assert v in multiset(b) <==> v in b;
    assert |multiset(a)| == |a| && |multiset(b)| == |b|;
  }

  lemma NameIn(g: Graph, seen: set<Repo>, deps: seq<Dep>, m: Repo)
    ensures m in Names(PreWalk(g, seen, deps)) <==> m in Names(Walk(g, {}, seen, deps).ordered)
  {
    hide Walk, PreWalk;
    var a, b := PreWalk(g, seen, deps), Walk(g, {}, seen, deps).ordered;
    if m in Names(a) {
      var i :| 0 <= i < |a| && Names(a)[i] == m;
      VisitIn(g, seen, deps, a[i]);
      var j :| 0 <= j < |b| && b[j] == a[i];
      assert Names(b)[j] == m;
    }
    if m in Names(b) {
      var i :| 0 <= i < |b| && Names(b)[i] == m;
      VisitIn(g, seen, deps, b[i]);
      var j :| 0 <= j < |a| && a[j] == b[i];
      assert Names(a)[j] == m;
    }
  }

  /** Each module is first visited once. */
  lemma {:induction false} FirstVisitsDistinct(g: Graph, seen: set<Repo>, deps: seq<Dep>)
    ensures Distinct(Names(PreWalk(g, seen, deps)))
    decreases |g.Keys - seen|, |deps|
  {
    hide Walk, PreWalk;
    if deps == [] {
      PreEmpty(g, seen);
    } else if deps[0].name in seen {
      PrePassed(g, seen, deps);
      FirstVisitsDistinct(g, seen, deps[1..]);
    } else {
      var d := deps[0];
      KeysLeft(g, seen, d.name);
      var inner := Walk(g, {}, seen + {d.name}, Out(g, d.name));
      KeysLeftShrink(g, seen, inner.seen);
      PreVisited(g, seen, deps, inner);
      FirstVisitsDistinct(g, seen + {d.name}, Out(g, d.name));
      FirstVisitsDistinct(g, inner.seen, deps[1..]);
      var below, after := PreWalk(g, seen + {d.name}, Out(g, d.name)), PreWalk(g, inner.seen, deps[1..]);
      NewNames(g, seen + {d.name}, Out(g, d.name));
      NewNames(g, inner.seen, deps[1..]);
      WalkSees(g, seen + {d.name}, Out(g, d.name));
      hide Distinct, Names, Out;
      DistinctParts(d.name, Names(below), Names(after));
      NamesOfVisited(Visit(d.name, RevisionOf(d)), below, after);
    }
  }

  lemma WalkSees(g: Graph, seen: set<Repo>, deps: seq<Dep>)
    ensures seen <= Walk(g, {}, seen, deps).seen
  {
  }

  lemma NamesOfVisited(v: Visit, below: seq<Visit>, after: seq<Visit>)
    ensures Names([v] + below + after) == [v.name] + Names(below) + Names(after)
  {
    NamesAdd([v] + below, after);
    NamesAdd([v], below);
    assert Names([v]) == [v.name];
  }

  lemma NewNames(g: Graph, seen: set<Repo>, deps: seq<Dep>)
    ensures forall m | m in Names(PreWalk(g, seen, deps)) :: m !in seen && m in Walk(g, {}, seen, deps).seen
  {
    hide Walk, PreWalk;
    WalkListsNew(g, {}, seen, deps);
    forall m | m in Names(PreWalk(g, seen, deps))
      ensures m !in seen && m in Walk(g, {}, seen, deps).seen
    {
      NameIn(g, seen, deps, m);
    }
  }

  lemma DistinctParts(x: Repo, a: seq<Repo>, b: seq<Repo>)
    requires Distinct(a) && Distinct(b) && x !in a && x !in b && forall y | y in b :: y !in a
    ensures Distinct([x] + a + b)
  {
    var s := [x] + a + b;
    forall i, j | 0 <= i < j < |s|
      ensures s[i] != s[j]
    {
      if i > |a| {
        assert s[i] == b[i - 1 - |a|] && s[j] == b[j - 1 - |a|];
      } else if i > 0 && j <= |a| {
        assert s[i] == a[i - 1] && s[j] == a[j - 1];
      } else if i > 0 {
        assert s[i] == a[i - 1] && s[j] == b[j - 1 - |a|];
        assert s[i] in a && s[j] in b;
      } else if j <= |a| {
        assert s[j] == a[j - 1];
      } else {
        assert s[j] == b[j - 1 - |a|];
      }
    }
  }

  /** A walk only looks at what the modules that it lists depend on. */
  lemma {:induction false} WalkSameListed(g: Graph, h: Graph, seen: set<Repo>, deps: seq<Dep>)
    requires forall m | m in Names(Walk(g, {}, seen, deps).ordered) :: Out(g, m) == Out(h, m)
    ensures Walk(g, {}, seen, deps) == Walk(h, {}, seen, deps)
    decreases |g.Keys - seen|, |deps|
  {
    hide Walk;
    if deps == [] {
      UnfoldEmpty(g, {}, seen);
      UnfoldEmpty(h, {}, seen);
    } else if deps[0].name in seen {
      UnfoldPassed(g, {}, seen, deps);
      UnfoldPassed(h, {}, seen, deps);
      WalkSameListed(g, h, seen, deps[1..]);
    } else {
      KeysLeft(g, seen, deps[0].name);
      var inner := Walk(g, {}, seen + {deps[0].name}, Out(g, deps[0].name));
      var after := Walk(g, {}, inner.seen, deps[1..]);
      KeysLeftShrink(g, seen, inner.seen);
      UnfoldVisit(g, {}, seen, deps, inner);
      JoinedNames(deps[0], inner, after);
      hide Joined;
      assert Names(Walk(g, {}, seen, deps).ordered)[|inner.ordered|] == deps[0].name;
      WalkSameListed(g, h, seen + {deps[0].name}, Out(g, deps[0].name));
      WalkSameListed(g, h, inner.seen, deps[1..]);
      UnfoldVisit(h, {}, seen, deps, inner);
    }
  }

  function Take<T>(s: seq<T>, n: nat): seq<T> {
    if n <= |s| then s[..n] else s
  }

  /** The two graphs give the first `n` visited modules the same dependencies. */
  ghost predicate AgreeOn(g: Graph, h: Graph, visits: seq<Visit>, n: nat) {
    forall j | 0 <= j < n && j < |visits| :: Out(g, visits[j].name) == Out(h, visits[j].name)
  }

  lemma TakeAll<T>(a: seq<T>, b: seq<T>, n: nat)
    requires Take(a, n + 1) == Take(b, n + 1) && |a| <= n
    ensures a == b
  {
  }

  lemma TakeJoined<T>(x: T, a: seq<T>, b: seq<T>, c: seq<T>, d: seq<T>, n: nat)
    requires n > 0 && Take(a, n) == Take(c, n)
    requires |a| < n ==> a == c && Take(b, n - |a|) == Take(d, n - |a|)
    ensures Take([x] + a + b, n + 1) == Take([x] + c + d, n + 1)
  {
    var s, t := [x] + a + b, [x] + c + d;
    if |a| < n {
      assert Take(s, n + 1) == [x] + a + Take(b, n - |a|);
      assert Take(t, n + 1) == [x] + c + Take(d, n - |c|);
    } else {
      assert |c| >= n;
      assert Take(s, n + 1) == [x] + Take(a, n);
      assert Take(t, n + 1) == [x] + Take(c, n);
    }
  }

  /** The first `k` visits are the same in both graphs. */
  ghost predicate SameStart(g: Graph, h: Graph, seen: set<Repo>, deps: seq<Dep>, k: nat) {
    Take(PreWalk(g, seen, deps), k) == Take(PreWalk(h, seen, deps), k)
  }

  /** The first `n + 1` visits, with their revisions, depend only on the files of the first `n` modules visited. */
  lemma {:induction false} PreAgree(g: Graph, h: Graph, seen: set<Repo>, deps: seq<Dep>, n: nat)
    requires AgreeOn(g, h, PreWalk(g, seen, deps), n)
    ensures SameStart(g, h, seen, deps, n + 1)
    decreases |g.Keys - seen|, |deps|, 2
  {
    hide Walk, PreWalk, Take, AgreeOn, Out;
    if deps == [] {
      PreEmpty(g, seen);
      PreEmpty(h, seen);
    } else if deps[0].name in seen {
      PrePassed(g, seen, deps);
      PrePassed(h, seen, deps);
      PreAgree(g, h, seen, deps[1..], n);
    } else {
      PreAgreeVisit(g, h, seen, deps, n);
    }
  }

  lemma {:induction false} PreAgreeVisit(g: Graph, h: Graph, seen: set<Repo>, deps: seq<Dep>, n: nat)
    requires deps != [] && deps[0].name !in seen && AgreeOn(g, h, PreWalk(g, seen, deps), n)
    ensures SameStart(g, h, seen, deps, n + 1)
    decreases |g.Keys - seen|, |deps|, 1
  {
    hide *;
    var d := deps[0];
    var inner := Walk(g, {}, seen + {d.name}, Out(g, d.name));
    if n > 0 {
      AgreeBelow(g, h, seen, deps, n, inner);
      var below := |PreWalk(g, seen + {d.name}, Out(g, d.name))|;
      PreAgreeBelow(g, h, seen, deps, d, n - 1);
      if below < n { PreAgreeAfter(g, h, seen, deps, d, inner.seen, n - 1 - below); }
    }
    PreAgreeVisited(g, h, seen, deps, n, inner);
  }

  lemma {:induction false} PreAgreeBelow(g: Graph, h: Graph, seen: set<Repo>, deps: seq<Dep>, d: Dep, n: nat)
    requires deps != [] && d.name !in seen && AgreeOn(g, h, PreWalk(g, seen + {d.name}, Out(g, d.name)), n)
    ensures SameStart(g, h, seen + {d.name}, Out(g, d.name), n + 1)
    decreases |g.Keys - seen|, |deps|, 0
  {
    hide *;
    VisitDecreases(g, seen, d.name);
    if Out(g, d.name) == [] {
      StartOfNothing(g, h, seen + {d.name}, n + 1);
    } else {
      PreAgree(g, h, seen + {d.name}, Out(g, d.name), n);
    }
  }

  lemma {:induction false} PreAgreeAfter(g: Graph, h: Graph, seen: set<Repo>, deps: seq<Dep>, d: Dep, after: set<Repo>, n: nat)
    requires deps != [] && d.name !in seen && after == Walk(g, {}, seen + {d.name}, Out(g, d.name)).seen
    requires AgreeOn(g, h, PreWalk(g, after, deps[1..]), n)
    ensures SameStart(g, h, after, deps[1..], n + 1)
    decreases |g.Keys - seen|, |deps|, 0
  {
    hide *;
    VisitDecreases(g, seen, d.name);
    PreAgree(g, h, after, deps[1..], n);
  }

  lemma StartOfNothing(g: Graph, h: Graph, seen: set<Repo>, k: nat)
    ensures SameStart(g, h, seen, [], k)
  {
    PreEmpty(g, seen);
    PreEmpty(h, seen);
  }

  /** What justifies the recursive calls of a walk. */
  lemma VisitDecreases(g: Graph, seen: set<Repo>, m: Repo)
    requires m !in seen
    ensures Out(g, m) != [] ==> |g.Keys - (seen + {m})| < |g.Keys - seen|
    ensures |g.Keys - Walk(g, {}, seen + {m}, Out(g, m)).seen| <= |g.Keys - seen|
  {
    hide Walk;
    KeysLeft(g, seen, m);
    WalkSees(g, seen + {m}, Out(g, m));
    KeysLeftShrink(g, seen, Walk(g, {}, seen + {m}, Out(g, m)).seen);
  }

  lemma AgreeBelow(g: Graph, h: Graph, seen: set<Repo>, deps: seq<Dep>, n: nat, inner: Walked)
    requires n > 0 && deps != [] && deps[0].name !in seen
    requires inner == Walk(g, {}, seen + {deps[0].name}, Out(g, deps[0].name))
    requires AgreeOn(g, h, PreWalk(g, seen, deps), n)
    ensures var below := PreWalk(g, seen + {deps[0].name}, Out(g, deps[0].name));
            && AgreeOn(g, h, below, n - 1)
            && (|below| < n ==> AgreeOn(g, h, PreWalk(g, inner.seen, deps[1..]), n - 1 - |below|))
  {
    hide *;
    var d := deps[0];
    PreVisited(g, seen, deps, inner);
    AgreeOnParts(g, h, Visit(d.name, RevisionOf(d)), PreWalk(g, seen + {d.name}, Out(g, d.name)),
                 PreWalk(g, inner.seen, deps[1..]), n);
  }

  /** The case of a first visit: what is below it agrees, and if it agrees to its end, what comes after it. */
  lemma PreAgreeVisited(g: Graph, h: Graph, seen: set<Repo>, deps: seq<Dep>, n: nat, inner: Walked)
    requires deps != [] && deps[0].name !in seen
    requires inner == Walk(g, {}, seen + {deps[0].name}, Out(g, deps[0].name))
    requires AgreeOn(g, h, PreWalk(g, seen, deps), n)
    requires var start, out := seen + {deps[0].name}, Out(g, deps[0].name);
             n > 0 ==>
               && SameStart(g, h, start, out, n)
               && (|PreWalk(g, start, out)| < n ==> SameStart(g, h, inner.seen, deps[1..], n - |PreWalk(g, start, out)|))
    ensures SameStart(g, h, seen, deps, n + 1)
  {
    hide Walk, PreWalk, Take, AgreeOn, Out;
    var d, start := deps[0], seen + {deps[0].name};
    var innerOfH := Walk(h, {}, start, Out(h, d.name));
    PreVisited(g, seen, deps, inner);
    PreVisited(h, seen, deps, innerOfH);
    var v, below, after := Visit(d.name, RevisionOf(d)), PreWalk(g, start, Out(g, d.name)), PreWalk(g, inner.seen, deps[1..]);
    var belowInH, afterInH := PreWalk(h, start, Out(h, d.name)), PreWalk(h, innerOfH.seen, deps[1..]);
    if n == 0 {
      Grouped(v, below, after);
      Grouped(v, belowInH, afterInH);
      TakeFirst(v, below + after, belowInH + afterInH);
    } else {
      AgreeOnParts(g, h, v, below, after, n);
      if |below| < n { AgreedWalk(g, h, start, Out(g, d.name), n - 1); }
      TakeJoined(v, below, after, belowInH, afterInH, n);
    }
  }

  lemma Grouped(v: Visit, a: seq<Visit>, b: seq<Visit>)
    ensures [v] + a + b == [v] + (a + b)
  {
  }

  lemma TakeFirst(v: Visit, a: seq<Visit>, b: seq<Visit>)
    ensures Take([v] + a, 1) == Take([v] + b, 1)
  {
  }

  lemma AgreeOnParts(g: Graph, h: Graph, v: Visit, a: seq<Visit>, b: seq<Visit>, n: nat)
    requires n > 0 && AgreeOn(g, h, [v] + a + b, n)
    ensures Out(g, v.name) == Out(h, v.name) && AgreeOn(g, h, a, n - 1)
    ensures |a| < n ==> AgreeOn(g, h, b, n - 1 - |a|)
  {
    hide Out;
    var s := [v] + a + b;
    assert s[0] == v;
    assert forall j | 0 <= j < |a| :: a[j] == s[j + 1];
    assert forall j | 0 <= j < |b| :: b[j] == s[j + 1 + |a|];
  }

  /** When all that is visited agrees, so do the walks. */
  lemma AgreedWalk(g: Graph, h: Graph, seen: set<Repo>, deps: seq<Dep>, n: nat)
    requires AgreeOn(g, h, PreWalk(g, seen, deps), n) && |PreWalk(g, seen, deps)| <= n
    ensures Walk(g, {}, seen, deps) == Walk(h, {}, seen, deps)
    ensures Take(PreWalk(g, seen, deps), n + 1) == Take(PreWalk(h, seen, deps), n + 1) ==>
              PreWalk(g, seen, deps) == PreWalk(h, seen, deps)
  {
    hide Walk, PreWalk, Out, Take;
    if Take(PreWalk(g, seen, deps), n + 1) == Take(PreWalk(h, seen, deps), n + 1) {
      TakeAll(PreWalk(g, seen, deps), PreWalk(h, seen, deps), n);
    }
    var visits := PreWalk(g, seen, deps);
    forall m | m in Names(Walk(g, {}, seen, deps).ordered)
      ensures Out(g, m) == Out(h, m)
    {
      NameIn(g, seen, deps, m);
      var j :| 0 <= j < |visits| && Names(visits)[j] == m;
    }
    WalkSameListed(g, h, seen, deps);
  }
}
