/**
 The recursive resolver with its global properties: the list of repositories seen, and the direct
 dependencies recorded for every module it visits. Proved against the walk of `DependencyGraph`.
 */
module ModuleResolver {
  import opened CMakeList
  import opened DependencyGraph
  import opened Results

  /** Where dependencies are read from: a dependencies.yaml per repository, or one .gitmodules for all. */
  datatype Source =
    | Files(files: map<Repo, seq<Dep>>)
    | Gitmodules(depends: map<Repo, seq<Repo>>, recommends: map<Repo, seq<Repo>>)

  /** `dirs` are the directories that exist, for the names that may carry a tqtc- prefix. */
  datatype Options = Options(excludeOptional: bool, normalize: bool, dirs: set<Repo>)

  function StripTqtc(name: Repo): Repo {
    if "tqtc-" <= name then name[5..] else name
  }

  function Normalized(o: Options, name: Repo): Repo {
    if !o.normalize || name in o.dirs then name else StripTqtc(name)
  }

  function RequiredOnly(deps: seq<Dep>): seq<Dep> {
    if deps == [] then []
    else (if deps[0].required then [deps[0]] else []) + RequiredOnly(deps[1..])
  }

  function FromNames(names: seq<Repo>, required: bool): seq<Dep> {
    if names == [] then []
    else (if Falsy(names[0]) then [] else [Dep(names[0], "HEAD", required)]) + FromNames(names[1..], required)
  }

  function Listed<T>(m: map<Repo, seq<T>>, k: Repo): seq<T> {
    if k in m then m[k] else []
  }

  /** The dependencies a module's own data gives it. */
  function Retrieve(s: Source, o: Options, m: Repo): seq<Dep> {
    match s
    case Files(files) => if o.excludeOptional then RequiredOnly(Listed(files, m)) else Listed(files, m)
    case Gitmodules(depends, recommends) =>
      FromNames(Listed(depends, m), true) + if o.excludeOptional then [] else FromNames(Listed(recommends, m), false)
  }

  function WithNames(o: Options, deps: seq<Dep>): (r: seq<Dep>)
    ensures |r| == |deps|
    ensures forall i | 0 <= i < |deps| :: r[i] == Dep(Normalized(o, deps[i].name), deps[i].revision, deps[i].required)
  {
    seq(|deps|, i requires 0 <= i < |deps| => Dep(Normalized(o, deps[i].name), deps[i].revision, deps[i].required))
  }

  /** Modules that may have dependencies. */
  function Sources(s: Source): set<Repo> {
    match s
    case Files(files) => files.Keys
    case Gitmodules(depends, recommends) => depends.Keys + recommends.Keys
  }

  /** The graph that is resolved when the root's dependencies are handed in as `parsed`. */
  function GraphOf(s: Source, o: Options, root: Repo, parsed: Option<seq<Dep>>): Graph {
    var g := map m | m in Sources(s) :: WithNames(o, Retrieve(s, o, m));
    if parsed.None? then g else g[root := WithNames(o, parsed.value)]
  }

  // ----- which edges the data gives -----

  /** `v` is what `name` stands for: a name with a directory stays, any other one loses its tqtc-. */
  predicate StandsFor(dirs: set<Repo>, name: Repo, v: Repo) {
    if name in dirs then v == name else name == "tqtc-" + v || (v == name && !("tqtc-" <= name))
  }

  lemma NormalizedExactly(o: Options, name: Repo, v: Repo)
    ensures Normalized(o, name) == v <==> if o.normalize then StandsFor(o.dirs, name, v) else v == name
  {
    if "tqtc-" <= name { assert name == "tqtc-" + name[5..]; }
    if name == "tqtc-" + v { assert name[5..] == v; }
  }

  lemma {:induction false} RequiredOnlyHas(deps: seq<Dep>, d: Dep)
    ensures d in RequiredOnly(deps) <==> d in deps && d.required
  {
    if deps != [] { RequiredOnlyHas(deps[1..], d); }
  }

  lemma {:induction false} FromNamesHas(names: seq<Repo>, required: bool, d: Dep)
    ensures d in FromNames(names, required) <==>
            d.name in names && !Falsy(d.name) && d.revision == "HEAD" && d.required == required
  {
    if names != [] {
      hide Falsy;
      FromNamesHas(names[1..], required, d);
      assert d.name in names <==> d.name == names[0] || d.name in names[1..];
    }
  }

  lemma InWithNames(o: Options, deps: seq<Dep>, d: Dep)
    ensures d in WithNames(o, deps) <==>
            exists e | e in deps :: d == Dep(Normalized(o, e.name), e.revision, e.required)
  {
    hide Normalized;
    var r := WithNames(o, deps);
    if d in r {
      var i :| 0 <= i < |r| && r[i] == d;
      assert deps[i] in deps;
    }
    if e :| e in deps && d == Dep(Normalized(o, e.name), e.revision, e.required) {
      var i :| 0 <= i < |deps| && deps[i] == e;
      assert r[i] == d;
    }
  }

  /** The edges a dependencies.yaml gives: its entries, under the names they stand for; or the required ones alone. */
  lemma FileEdges(files: map<Repo, seq<Dep>>, o: Options, root: Repo, parsed: Option<seq<Dep>>, m: Repo, d: Dep)
    requires parsed.None? || m != root
    ensures d in Out(GraphOf(Files(files), o, root, parsed), m) <==>
            m in files && exists e | e in files[m] ::
              && (e.required || !o.excludeOptional)
              && e.revision == d.revision && e.required == d.required
              && if o.normalize then StandsFor(o.dirs, e.name, d.name) else d.name == e.name
  {
    var deps := Retrieve(Files(files), o, m);
    InWithNames(o, deps, d);
    hide Normalized, RequiredOnly, StandsFor;
    forall e
      ensures e in deps <==> m in files && e in files[m] && (e.required || !o.excludeOptional)
      ensures Normalized(o, e.name) == d.name <==>
              if o.normalize then StandsFor(o.dirs, e.name, d.name) else d.name == e.name
    {
      RequiredOnlyHas(Listed(files, m), e);
      NormalizedExactly(o, e.name, d.name);
    }
    if m in files {
      if e :| e in files[m] && (e.required || !o.excludeOptional) && e.revision == d.revision && e.required == d.required
              && Normalized(o, e.name) == d.name {
        assert e in deps && d == Dep(Normalized(o, e.name), e.revision, e.required);
      }
    }
  }

  /** Some name that is not falsy stands for `v`. */
  predicate SomeStandsFor(dirs: set<Repo>, names: seq<Repo>, v: Repo) {
    exists n | n in names :: !Falsy(n) && StandsFor(dirs, n, v)
  }

  lemma RetrievedNames(depends: map<Repo, seq<Repo>>, recommends: map<Repo, seq<Repo>>, o: Options, m: Repo, e: Dep)
    ensures e in Retrieve(Gitmodules(depends, recommends), o, m) <==>
            && e.revision == "HEAD" && !Falsy(e.name)
            && if e.required then m in depends && e.name in depends[m]
               else !o.excludeOptional && m in recommends && e.name in recommends[m]
  {
    FromNamesHas(Listed(depends, m), true, e);
    FromNamesHas(Listed(recommends, m), false, e);
    hide FromNames, Falsy;
  }

  /**
   The edges that .gitmodules gives: a required one for every name in `depends`, an optional one for
   every name in `recommends` unless these are left out; names that read as false do not count.
   */
  lemma GitmodulesEdges(depends: map<Repo, seq<Repo>>, recommends: map<Repo, seq<Repo>>, o: Options,
                        root: Repo, parsed: seq<Dep>, m: Repo, d: Dep)
    requires m != root && o.normalize
    ensures d in Out(GraphOf(Gitmodules(depends, recommends), o, root, Some(parsed)), m) <==>
            && d.revision == "HEAD"
            && if d.required then m in depends && SomeStandsFor(o.dirs, depends[m], d.name)
               else !o.excludeOptional && m in recommends && SomeStandsFor(o.dirs, recommends[m], d.name)
  {
    var s := Gitmodules(depends, recommends);
    var deps := Retrieve(s, o, m);
    assert Out(GraphOf(s, o, root, Some(parsed)), m) == WithNames(o, deps);
    InWithNames(o, deps, d);
    hide Normalized, Retrieve, StandsFor, Falsy, WithNames, GraphOf;
    if e :| e in deps && d == Dep(Normalized(o, e.name), e.revision, e.required) {
      RetrievedNames(depends, recommends, o, m, e);
      NormalizedExactly(o, e.name, d.name);
    }
    var names := Listed(if d.required then depends else recommends, m);
    if n :| n in names && !Falsy(n) && StandsFor(o.dirs, n, d.name) {
      RetrievedNames(depends, recommends, o, m, Dep(n, "HEAD", d.required));
      NormalizedExactly(o, n, d.name);
      if d.revision == "HEAD" && (d.required || !o.excludeOptional) { assert Dep(n, "HEAD", d.required) in deps; }
    }
  }

  lemma {:induction false} FromNamesConcat(a: seq<Repo>, b: seq<Repo>, required: bool)
    ensures FromNames(a + b, required) == FromNames(a, required) + FromNames(b, required)
  {
    hide Falsy;
    if a == [] {
      assert a + b == b;
    } else {
      assert (a + b)[0] == a[0] && (a + b)[1..] == a[1..] + b;
      FromNamesConcat(a[1..], b, required);
    }
  }

  /** A name that is not falsy comes out behind what the names before it give. */
  lemma FromNamesAt(names: seq<Repo>, required: bool, p: nat)
    requires p < |names| && !Falsy(names[p])
    ensures var r, i := FromNames(names, required), |FromNames(names[..p], required)|;
            i < |r| && r[i] == Dep(names[p], "HEAD", required) && |FromNames(names[..p + 1], required)| == i + 1
  {
    assert FromNames([names[p]], required) == [Dep(names[p], "HEAD", required)];
    hide Falsy, FromNames;
    assert names == names[..p + 1] + names[p + 1..] && names[..p + 1] == names[..p] + [names[p]];
    FromNamesConcat(names[..p + 1], names[p + 1..], required);
    FromNamesConcat(names[..p], [names[p]], required);
  }

  /** Names come out in their order. */
  lemma FromNamesKeepsOrder(names: seq<Repo>, required: bool, p: nat, q: nat) returns (i: nat, j: nat)
    requires p < q < |names| && !Falsy(names[p]) && !Falsy(names[q])
    ensures i < j < |FromNames(names, required)|
    ensures FromNames(names, required)[i].name == names[p] && FromNames(names, required)[j].name == names[q]
  {
    hide Falsy, FromNames;
    FromNamesAt(names, required, p);
    FromNamesAt(names, required, q);
    i, j := |FromNames(names[..p], required)|, |FromNames(names[..q], required)|;
    assert names[..q] == names[..p + 1] + names[p + 1..q];
    FromNamesConcat(names[..p + 1], names[p + 1..q], required);
  }

  /** What a module of .gitmodules requires comes before what it recommends. */
  lemma RequiredFirst(depends: map<Repo, seq<Repo>>, recommends: map<Repo, seq<Repo>>, o: Options,
                      root: Repo, parsed: seq<Dep>, m: Repo)
    requires m != root
    ensures var out := Out(GraphOf(Gitmodules(depends, recommends), o, root, Some(parsed)), m);
            forall i, j | 0 <= i < j < |out| && out[j].required :: out[i].required
  {
    var s := Gitmodules(depends, recommends);
    assert Out(GraphOf(s, o, root, Some(parsed)), m) == WithNames(o, Retrieve(s, o, m));
    var a, b := FromNames(Listed(depends, m), true), FromNames(Listed(recommends, m), false);
    AllOfKind(Listed(depends, m), true);
    AllOfKind(Listed(recommends, m), false);
    hide FromNames, Normalized, GraphOf;
    KindsInOrder(a, if o.excludeOptional then [] else b);
  }

  lemma KindsInOrder(a: seq<Dep>, b: seq<Dep>)
    requires (forall k | 0 <= k < |a| :: a[k].required) && forall k | 0 <= k < |b| :: !b[k].required
    ensures forall i, j | 0 <= i < j < |a + b| && (a + b)[j].required :: (a + b)[i].required
  {
  }

  lemma RetrievedOrder(depends: map<Repo, seq<Repo>>, recommends: map<Repo, seq<Repo>>, o: Options,
                       m: Repo, listed: seq<Repo>, required: bool, p: nat, q: nat)
    returns (i: nat, j: nat)
    requires required || !o.excludeOptional
    requires listed == Listed(if required then depends else recommends, m)
    requires p < q < |listed| && !Falsy(listed[p]) && !Falsy(listed[q])
    ensures var deps := Retrieve(Gitmodules(depends, recommends), o, m);
            && i < j < |deps| && deps[i].required == deps[j].required == required
            && deps[i].name == listed[p] && deps[j].name == listed[q]
  {
    hide Falsy, FromNames;
    i, j := FromNamesKeepsOrder(listed, required, p, q);
    AllOfKind(listed, required);
    if !required { i, j := |FromNames(Listed(depends, m), true)| + i, |FromNames(Listed(depends, m), true)| + j; }
  }

  /** And both in the order of the file. */
  lemma GitmodulesOrder(depends: map<Repo, seq<Repo>>, recommends: map<Repo, seq<Repo>>, o: Options,
                        root: Repo, parsed: seq<Dep>, m: Repo, listed: seq<Repo>, required: bool, p: nat, q: nat)
    returns (i: nat, j: nat)
    requires m != root && o.normalize && (required || !o.excludeOptional)
    requires m in (if required then depends else recommends) && listed == (if required then depends else recommends)[m]
    requires p < q < |listed| && !Falsy(listed[p]) && !Falsy(listed[q])
    ensures var out := Out(GraphOf(Gitmodules(depends, recommends), o, root, Some(parsed)), m);
            && i < j < |out| && out[i].required == out[j].required == required
            && StandsFor(o.dirs, listed[p], out[i].name) && StandsFor(o.dirs, listed[q], out[j].name)
  {
    var s := Gitmodules(depends, recommends);
    assert Out(GraphOf(s, o, root, Some(parsed)), m) == WithNames(o, Retrieve(s, o, m));
    hide Falsy, FromNames, Normalized, StandsFor, GraphOf, Retrieve;
    i, j := RetrievedOrder(depends, recommends, o, m, listed, required, p, q);
    NormalizedExactly(o, listed[p], Normalized(o, listed[p]));
    NormalizedExactly(o, listed[q], Normalized(o, listed[q]));
  }

  lemma AllOfKind(names: seq<Repo>, required: bool)
    ensures forall i | 0 <= i < |FromNames(names, required)| :: FromNames(names, required)[i].required == required
  {
    forall i | 0 <= i < |FromNames(names, required)|
      ensures FromNames(names, required)[i].required == required
    {
      FromNamesHas(names, required, FromNames(names, required)[i]);
    }
  }

  function Revisions(vs: seq<Visit>): (rs: seq<string>)
    ensures |rs| == |vs| && forall i | 0 <= i < |vs| :: rs[i] == vs[i].revision
  {
    seq(|vs|, i requires 0 <= i < |vs| => vs[i].revision)
  }

  function DepNames(deps: seq<Dep>): seq<Repo> {
    seq(|deps|, i requires 0 <= i < |deps| => deps[i].name)
  }

  /** Walking a list in two parts. */
  lemma {:induction false} WalkConcat(g: Graph, skip: set<Repo>, seen: set<Repo>, a: seq<Dep>, b: seq<Dep>)
    ensures var first := Walk(g, skip, seen, a);
            var second := Walk(g, skip, first.seen, b);
            var r := Walk(g, skip, seen, a + b);
            r.seen == second.seen && r.ordered == first.ordered + second.ordered
    decreases |g.Keys - seen|, |a|
  {
    hide Walk;
    if a == [] {
      assert a + b == b;
      UnfoldEmpty(g, skip, seen);
    } else {
      assert (a + b)[0] == a[0] && (a + b)[1..] == a[1..] + b;
      if a[0].name in seen || a[0].name in skip {
        UnfoldPassed(g, skip, seen, a);
        UnfoldPassed(g, skip, seen, a + b);
        WalkConcat(g, skip, seen, a[1..], b);
      } else {
        KeysLeft(g, seen, a[0].name);
        var inner := Walk(g, skip, seen + {a[0].name}, Out(g, a[0].name));
        KeysLeftShrink(g, seen, inner.seen);
        WalkConcat(g, skip, inner.seen, a[1..], b);
        UnfoldVisit(g, skip, seen, a, inner);
        UnfoldVisit(g, skip, seen, a + b, inner);
        var tail := Walk(g, skip, inner.seen, a[1..]);
        JoinedConcat(a[0], inner, tail, Walk(g, skip, inner.seen, a[1..] + b), Walk(g, skip, tail.seen, b).ordered);
      }
    }
  }

  lemma JoinedConcat(d: Dep, inner: Walked, tail: Walked, whole: Walked, more: seq<Visit>)
    requires whole.ordered == tail.ordered + more
    ensures Joined(d, inner, whole).ordered == Joined(d, inner, tail).ordered + more
  {
    var front := inner.ordered + [Visit(d.name, RevisionOf(d))];
    assert front + (tail.ordered + more) == (front + tail.ordered) + more;
  }

  /** Walking one entry, unfolded. */
  lemma WalkOne(g: Graph, skip: set<Repo>, seen: set<Repo>, d: Dep)
    ensures var r := Walk(g, skip, seen, [d]);
            if d.name in seen || d.name in skip then r.seen == seen && r.ordered == []
            else
              var inner := Walk(g, skip, seen + {d.name}, Out(g, d.name));
              r.seen == inner.seen && r.ordered == inner.ordered + [Visit(d.name, RevisionOf(d))]
  {
    var deps := [d];
    assert deps[1..] == [];
    if d.name in seen || d.name in skip {
      assert Walk(g, skip, seen, deps[1..]) == Walked(seen, [], []);
    } else {
      KeysLeft(g, seen, d.name);
      var inner := Walk(g, skip, seen + {d.name}, Out(g, d.name));
      KeysLeftShrink(g, seen, inner.seen);
      assert Walk(g, skip, inner.seen, deps[1..]) == Walked(inner.seen, [], []);
      assert Walk(g, skip, seen, deps) == Joined(d, inner, Walked(inner.seen, [], []));
    }
  }

  lemma {:induction false} RequiredOnlyConcat(a: seq<Dep>, b: seq<Dep>)
    ensures RequiredOnly(a + b) == RequiredOnly(a) + RequiredOnly(b)
  {
    hide RequiredOnly;
    if a == [] {
      assert a + b == b;
      RequiredOnlyUnfold(a);
    } else {
      assert (a + b)[0] == a[0] && (a + b)[1..] == a[1..] + b;
      RequiredOnlyUnfold(a);
      RequiredOnlyUnfold(a + b);
      RequiredOnlyConcat(a[1..], b);
    }
  }

  lemma RequiredOnlyUnfold(a: seq<Dep>)
    ensures RequiredOnly(a) ==
            if a == [] then [] else if a[0].required then [a[0]] + RequiredOnly(a[1..]) else RequiredOnly(a[1..])
  {
  }

  /** The names recorded for a module whose dependencies, so far, are `deps`. */
  function NamesOf(deps: seq<Dep>, requiredOnly: bool): seq<Repo> {
    DepNames(if requiredOnly then RequiredOnly(deps) else deps)
  }

  /** Always true: names the modules that the quantifiers below are to be instantiated with. */
  ghost predicate Key(m: Repo) { true }

  /** What `prop` holds of `m`: the names `before` held, and then those of `more`. */
  ghost predicate Gained(prop: map<Repo, seq<Repo>>, before: map<Repo, seq<Repo>>, m: Repo, more: seq<Dep>, requiredOnly: bool) {
    Listed(prop, m) == Listed(before, m) + NamesOf(more, requiredOnly)
  }

  /** The entries `prop` gained since `before`: the dependencies of every module in `listed`. */
  ghost predicate Recorded(prop: map<Repo, seq<Repo>>, before: map<Repo, seq<Repo>>, g: Graph, listed: seq<Repo>,
                           requiredOnly: bool)
  {
    forall m {:trigger Key(m)} :: Key(m) ==> Gained(prop, before, m, if m in listed then Out(g, m) else [], requiredOnly)
  }

  /** The same while `module'` is still recording: it has got to `part`. */
  ghost predicate Recording(prop: map<Repo, seq<Repo>>, before: map<Repo, seq<Repo>>, g: Graph, module': Repo,
                            part: seq<Dep>, listed: seq<Repo>, requiredOnly: bool)
  {
    && module' !in listed
    && Gained(prop, before, module', part, requiredOnly)
    && forall m {:trigger Key(m)} :: Key(m) && m != module' ==>
         Gained(prop, before, m, if m in listed then Out(g, m) else [], requiredOnly)
  }

  function Append(prop: map<Repo, seq<Repo>>, m: Repo, name: Repo): map<Repo, seq<Repo>> {
    prop[m := Listed(prop, m) + [name]]
  }

  lemma NamesOfConcat(a: seq<Dep>, d: Dep, requiredOnly: bool)
    ensures NamesOf(a + [d], requiredOnly) ==
            NamesOf(a, requiredOnly) + if d.required || !requiredOnly then [d.name] else []
    ensures NamesOf([], requiredOnly) == []
  {
    RequiredOnlyConcat(a, [d]);
    assert RequiredOnly([d]) == if d.required then [d] else [];
  }

  lemma RecordingStarts(prop: map<Repo, seq<Repo>>, g: Graph, module': Repo, requiredOnly: bool)
    ensures Recording(prop, prop, g, module', [], [], requiredOnly)
  {
    NamesOfConcat([], Dep("", "", true), requiredOnly);
  }

  /** Recording one more dependency. */
  lemma RecordingOne(prop: map<Repo, seq<Repo>>, before: map<Repo, seq<Repo>>, g: Graph,
                     module': Repo, part: seq<Dep>, d: Dep, listed: seq<Repo>, requiredOnly: bool)
    requires Recording(prop, before, g, module', part, listed, requiredOnly)
    ensures Recording(if d.required || !requiredOnly then Append(prop, module', d.name) else prop,
                      before, g, module', part + [d], listed, requiredOnly)
  {
    NamesOfConcat(part, d, requiredOnly);
    hide NamesOf, Out;
  }

  lemma GainedBoth(next: map<Repo, seq<Repo>>, prop: map<Repo, seq<Repo>>, before: map<Repo, seq<Repo>>, m: Repo,
                   some: seq<Dep>, more: seq<Dep>, requiredOnly: bool)
    requires Gained(prop, before, m, some, requiredOnly) && Gained(next, prop, m, more, requiredOnly)
    requires some == [] || more == []
    ensures Gained(next, before, m, some + more, requiredOnly)
  {
    NamesOfConcat([], Dep("", "", true), requiredOnly);
    hide NamesOf;
    assert some + more == if more == [] then some else more;
  }

  /** Recording, in the recursion, everything below a dependency. */
  lemma RecordingMore(prop: map<Repo, seq<Repo>>, next: map<Repo, seq<Repo>>, before: map<Repo, seq<Repo>>, g: Graph,
                      module': Repo, part: seq<Dep>, listed: seq<Repo>, more: seq<Repo>, requiredOnly: bool)
    requires Recording(prop, before, g, module', part, listed, requiredOnly)
    requires Recorded(next, prop, g, more, requiredOnly)
    requires module' !in more && forall m | m in more :: m !in listed
    ensures Recording(next, before, g, module', part, listed + more, requiredOnly)
  {
    hide Gained, Out;
    assert Key(module');
    GainedBoth(next, prop, before, module', part, [], requiredOnly);
    assert part + [] == part;
    forall m | Key(m) && m != module'
      ensures Gained(next, before, m, if m in listed + more then Out(g, m) else [], requiredOnly)
    {
      var some, rest := if m in listed then Out(g, m) else [], if m in more then Out(g, m) else [];
      GainedBoth(next, prop, before, m, some, rest, requiredOnly);
      assert some + rest == if m in listed + more then Out(g, m) else [];
    }
  }

  lemma RecordingDone(prop: map<Repo, seq<Repo>>, before: map<Repo, seq<Repo>>, g: Graph, module': Repo,
                      listed: seq<Repo>, requiredOnly: bool)
    requires Recording(prop, before, g, module', Out(g, module'), listed, requiredOnly)
    ensures Recorded(prop, before, g, listed + [module'], requiredOnly)
  {
    hide Gained, Out;
    assert forall m :: m in listed + [module'] <==> m in listed || m == module';
    forall m | Key(m)
      ensures Gained(prop, before, m, if m in listed + [module'] then Out(g, m) else [], requiredOnly)
    {
    }
  }

  lemma NothingRecorded(prop: map<Repo, seq<Repo>>, g: Graph, requiredOnly: bool)
    ensures Recorded(prop, prop, g, [], requiredOnly)
  {
    NamesOfConcat([], Dep("", "", true), requiredOnly);
  }

  /** What a call finds in the graph `g`: the data of the source for everything not visited yet. */
  ghost predicate Serves(s: Source, o: Options, g: Graph, module': Repo, parsed: Option<seq<Dep>>, visited: set<Repo>) {
    forall m {:trigger Key(m)} :: Key(m) && m !in visited ==>
      Out(g, m) == WithNames(o, if parsed.Some? && m == module' then parsed.value else Retrieve(s, o, m))
  }

  lemma ServesHere(s: Source, o: Options, g: Graph, module': Repo, parsed: Option<seq<Dep>>, visited: set<Repo>)
    requires Serves(s, o, g, module', parsed, visited) && module' !in visited
    ensures Out(g, module') == WithNames(o, if parsed.Some? then parsed.value else Retrieve(s, o, module'))
    ensures module' !in g ==> Out(g, module') == []
  {
    assert Key(module');
  }

  lemma ServesBelow(s: Source, o: Options, g: Graph, module': Repo, parsed: Option<seq<Dep>>, visited: set<Repo>,
                    other: Repo, more: set<Repo>)
    requires Serves(s, o, g, module', parsed, visited) && visited + {module'} <= more
    ensures Serves(s, o, g, other, None, more)
  {
  }

  function SetOf(s: seq<Repo>): set<Repo> {
    set m | m in s
  }

  lemma SetOfFacts(s: seq<Repo>, name: Repo)
    ensures SetOf([]) == {}
    ensures name in SetOf(s) <==> name in s
    ensures SetOf(s + [name]) == SetOf(s) + {name}
  {
  }

  /** The lists a call returns, and the repositories seen after it. */
  ghost predicate Resolved(g: Graph, skip: set<Repo>, start: set<Repo>, name: Repo, revision: string,
                           seen: set<Repo>, ordered: seq<Repo>, revisions: seq<string>)
  {
    var w := Walk(g, skip, start, [Dep(name, revision, true)]);
    seen == w.seen && ordered == Names(w.ordered) && revisions == Revisions(w.ordered)
  }

  /** The lists built when the first `i` of the dependencies `out` have been resolved. */
  ghost predicate Walking(g: Graph, skip: set<Repo>, start: set<Repo>, out: seq<Dep>, i: nat,
                          seen: set<Repo>, ordered: seq<Repo>, revisions: seq<string>)
  {
    && i <= |out|
    && var w := Walk(g, skip, start, out[..i]);
       seen == w.seen && ordered == Names(w.ordered) && revisions == Revisions(w.ordered)
  }

  lemma ResolvedAtOnce(g: Graph, skip: set<Repo>, start: set<Repo>, name: Repo, revision: string)
    requires name in start || name in skip
    ensures Resolved(g, skip, start, name, revision, start, [], [])
  {
    WalkOne(g, skip, start, Dep(name, revision, true));
  }

  lemma WalkingStarts(g: Graph, skip: set<Repo>, start: set<Repo>, out: seq<Dep>)
    ensures Walking(g, skip, start, out, 0, start, [], [])
  {
  }

  lemma WalkingSees(g: Graph, skip: set<Repo>, start: set<Repo>, out: seq<Dep>, i: nat,
                    seen: set<Repo>, ordered: seq<Repo>, revisions: seq<string>)
    requires Walking(g, skip, start, out, i, seen, ordered, revisions)
    ensures start <= seen && |g.Keys - seen| <= |g.Keys - start|
  {
    KeysLeftShrink(g, start, seen);
  }

  /** One more recursive call. */
  lemma WalkingStep(g: Graph, skip: set<Repo>, start: set<Repo>, out: seq<Dep>, i: nat,
                    seen: set<Repo>, ordered: seq<Repo>, revisions: seq<string>,
                    seen': set<Repo>, more: seq<Repo>, moreRevisions: seq<string>)
    requires Walking(g, skip, start, out, i, seen, ordered, revisions) && i < |out|
    requires Resolved(g, skip, seen, out[i].name, out[i].revision, seen', more, moreRevisions)
    ensures Walking(g, skip, start, out, i + 1, seen', ordered + more, revisions + moreRevisions)
    ensures forall m | m in more :: m !in ordered && m !in start
  {
    var w, d := Walk(g, skip, start, out[..i]), Dep(out[i].name, out[i].revision, true);
    assert out[..i + 1] == out[..i] + [out[i]];
    WalkConcat(g, skip, start, out[..i], [out[i]]);
    WalkOne(g, skip, w.seen, out[i]);
    WalkOne(g, skip, w.seen, d);
    WalkListsNew(g, skip, start, out[..i]);
    WalkListsNew(g, skip, w.seen, [d]);
    NamesAdd(w.ordered, Walk(g, skip, w.seen, [d]).ordered);
  }

  lemma NamesAdd(a: seq<Visit>, b: seq<Visit>)
    ensures Names(a + b) == Names(a) + Names(b)
    ensures Revisions(a + b) == Revisions(a) + Revisions(b)
  {
  }

  lemma WalkingEnds(g: Graph, skip: set<Repo>, start: set<Repo>, name: Repo, revision: string,
                    seen: set<Repo>, ordered: seq<Repo>, revisions: seq<string>)
    requires name !in start && name !in skip
    requires Walking(g, skip, start + {name}, Out(g, name), |Out(g, name)|, seen, ordered, revisions)
    ensures Resolved(g, skip, start, name, revision, seen, ordered + [name],
                     revisions + [if revision == "" then "HEAD" else revision])
  {
    assert Out(g, name)[..|Out(g, name)|] == Out(g, name);
    WalkOne(g, skip, start, Dep(name, revision, true));
    NamesAdd(Walk(g, skip, start + {name}, Out(g, name)).ordered, [Visit(name, RevisionOf(Dep(name, revision, true)))]);
  }

  /** The loop over the dependencies `out` of `name`, entered with these seen repositories and recorded properties. */
  datatype Loop = Loop(g: Graph, skip: set<Repo>, start: set<Repo>, name: Repo, out: seq<Dep>,
                       deps: map<Repo, seq<Repo>>, required: map<Repo, seq<Repo>>)

  /** What the loop has built. */
  datatype Built = Built(seen: set<Repo>, ordered: seq<Repo>, revisions: seq<string>,
                         deps: map<Repo, seq<Repo>>, required: map<Repo, seq<Repo>>)

  /** The loop has resolved `i` dependencies and recorded `part` of them. */
  ghost predicate Progress(l: Loop, i: nat, part: nat, b: Built) {
    && Walking(l.g, l.skip, l.start + {l.name}, l.out, i, b.seen, b.ordered, b.revisions)
    && part <= |l.out|
    && Recording(b.deps, l.deps, l.g, l.name, l.out[..part], b.ordered, false)
    && Recording(b.required, l.required, l.g, l.name, l.out[..part], b.ordered, true)
  }

  lemma ProgressStarts(l: Loop)
    ensures Progress(l, 0, 0, Built(l.start + {l.name}, [], [], l.deps, l.required))
  {
    WalkingStarts(l.g, l.skip, l.start + {l.name}, l.out);
    RecordingStarts(l.deps, l.g, l.name, false);
    RecordingStarts(l.required, l.g, l.name, true);
    assert l.out[..0] == [];
  }

  /** The next dependency has been recorded; the recursive call for it is still to come. */
  lemma ProgressRecords(l: Loop, i: nat, b: Built)
    requires i < |l.out| && Progress(l, i, i, b)
    ensures var d := l.out[i];
            Progress(l, i, i + 1, Built(b.seen, b.ordered, b.revisions, Append(b.deps, l.name, d.name),
                                        if d.required then Append(b.required, l.name, d.name) else b.required))
  {
    assert l.out[..i + 1] == l.out[..i] + [l.out[i]];
    RecordingOne(b.deps, l.deps, l.g, l.name, l.out[..i], l.out[i], b.ordered, false);
    RecordingOne(b.required, l.required, l.g, l.name, l.out[..i], l.out[i], b.ordered, true);
  }

  lemma ProgressSees(l: Loop, i: nat, part: nat, b: Built)
    requires Progress(l, i, part, b)
    ensures l.start + {l.name} <= b.seen
    ensures l.name in l.g && l.name !in l.start ==> |l.g.Keys - b.seen| < |l.g.Keys - l.start|
  {
    WalkingSees(l.g, l.skip, l.start + {l.name}, l.out, i, b.seen, b.ordered, b.revisions);
    if l.name !in l.start { KeysLeft(l.g, l.start, l.name); }
  }

  /** A recursive call: what it returns, and the state it leaves, given the state it finds. */
  ghost predicate Called(g: Graph, skip: set<Repo>, d: Dep, before: Built, more: Built) {
    && Resolved(g, skip, before.seen, d.name, d.revision, more.seen, more.ordered, more.revisions)
    && Recorded(more.deps, before.deps, g, more.ordered, false)
    && Recorded(more.required, before.required, g, more.ordered, true)
  }

  /** The recursive call has returned and its lists are appended. */
  lemma ProgressStep(l: Loop, i: nat, b: Built, more: Built)
    requires i < |l.out| && Progress(l, i, i + 1, b) && Called(l.g, l.skip, l.out[i], b, more)
    ensures Progress(l, i + 1, i + 1, more.(ordered := b.ordered + more.ordered, revisions := b.revisions + more.revisions))
  {
    WalkingStep(l.g, l.skip, l.start + {l.name}, l.out, i, b.seen, b.ordered, b.revisions,
                more.seen, more.ordered, more.revisions);
    RecordingMore(b.deps, more.deps, l.deps, l.g, l.name, l.out[..i + 1], b.ordered, more.ordered, false);
    RecordingMore(b.required, more.required, l.required, l.g, l.name, l.out[..i + 1], b.ordered, more.ordered, true);
  }

  lemma ProgressEnds(l: Loop, revision: string, b: Built)
    requires l.name !in l.start && l.name !in l.skip && l.out == Out(l.g, l.name)
    requires Progress(l, |l.out|, |l.out|, b)
    ensures Called(l.g, l.skip, Dep(l.name, revision, true), Built(l.start, [], [], l.deps, l.required),
                   b.(ordered := b.ordered + [l.name],
                      revisions := b.revisions + [if revision == "" then "HEAD" else revision]))
  {
    assert l.out[..|l.out|] == l.out;
    WalkingEnds(l.g, l.skip, l.start, l.name, revision, b.seen, b.ordered, b.revisions);
    RecordingDone(b.deps, l.deps, l.g, l.name, b.ordered, false);
    RecordingDone(b.required, l.required, l.g, l.name, b.ordered, true);
  }

  /** The lists a caller has built, and whether the entry is required, do not matter to a call. */
  lemma CalledFrom(g: Graph, skip: set<Repo>, d: Dep, e: Dep, before: Built, more: Built)
    requires Called(g, skip, d, before.(ordered := [], revisions := []), more)
    requires d.name == e.name && d.revision == e.revision
    ensures Called(g, skip, e, before, more)
  {
  }

  lemma CalledAtOnce(g: Graph, skip: set<Repo>, d: Dep, b: Built)
    requires d.name in b.seen || d.name in skip
    ensures Called(g, skip, d, b, b.(ordered := [], revisions := []))
  {
    ResolvedAtOnce(g, skip, b.seen, d.name, d.revision);
    NothingRecorded(b.deps, g, false);
    NothingRecorded(b.required, g, true);
  }

  /** What the lists of a call at the top mean. */
  lemma ResolvedLists(g: Graph, skip: set<Repo>, root: Repo, revision: string,
                      seen: set<Repo>, ordered: seq<Repo>, revisions: seq<string>)
    requires Resolved(g, skip, {}, root, revision, seen, ordered, revisions) && root !in skip
    ensures |revisions| == |ordered| > 0 && Distinct(ordered)
    ensures ordered[|ordered| - 1] == root && revisions[|ordered| - 1] == if revision == "" then "HEAD" else revision
    ensures forall m :: m in ordered <==> Reachable(g, skip, [Dep(root, revision, true)], m)
    ensures TopoSorted(g, skip, ordered) <==> NoCycle(g, skip, ordered)
    ensures var looked := DependencyGraph.Resolve(g, skip, root, revision).looked;
            forall i | 0 <= i < |ordered| ::
              Named(looked, ordered[i]) && revisions[i] == RevisionOf(FirstLook(looked, ordered[i]))
  {
    var deps := [Dep(root, revision, true)];
    var w := Walk(g, skip, {}, deps);
    WalkListsNew(g, skip, {}, deps);
    RootIsLast(g, skip, root, revision);
    forall m
      ensures m in ordered <==> Reachable(g, skip, deps, m)
    {
      ListsExactlyReachable(g, skip, {}, deps, m);
      assert skip + {} == skip;
    }
    SortedExactlyWhenAcyclic(g, skip, deps);
    RevisionIsFirstLook(g, skip, {}, deps);
  }

  /** The made-up module that depends on everything that is to be sorted. */
  const ALL: Repo := "all_selected_repos"

  function Selected(modules: seq<Repo>): (deps: seq<Dep>)
    ensures |deps| == |modules| && forall i | 0 <= i < |deps| :: deps[i] == Dep(modules[i], "HEAD", false)
  {
    seq(|modules|, i requires 0 <= i < |modules| => Dep(modules[i], "HEAD", false))
  }

  lemma SortServes(s: Source, o: Options, modules: seq<Repo>)
    ensures Serves(s, o, GraphOf(s, o, ALL, Some(Selected(modules))), ALL, Some(Selected(modules)), {})
  {
    var g := GraphOf(s, o, ALL, Some(Selected(modules)));
    forall m | Key(m) && m != ALL
      ensures Out(g, m) == WithNames(o, Retrieve(s, o, m))
    {
      if m !in Sources(s) {
        assert Retrieve(s, o, m) == [];
      }
    }
  }

  lemma SortedList(g: Graph, skip: set<Repo>, seen: set<Repo>, ordered: seq<Repo>, revisions: seq<string>)
    requires Resolved(g, skip, {}, ALL, "", seen, ordered, revisions)
    ensures ordered == if ALL in skip then [] else Names(Walk(g, skip, {ALL}, Out(g, ALL)).ordered) + [ALL]
  {
    WalkOne(g, skip, {}, Dep(ALL, "", true));
    assert {} + {ALL} == {ALL};
  }

  /**
   What a sorted list means: each module once, exactly those reachable from the selected ones without
   passing through a skipped one, dependencies first if and only if there is no cycle.
   */
  lemma SortMeaning(g: Graph, skip: set<Repo>, ordered: seq<Repo>)
    requires ordered == Names(Walk(g, skip, {ALL}, Out(g, ALL)).ordered)
    ensures Distinct(ordered) && ALL !in ordered && forall m | m in ordered :: m !in skip
    ensures forall m :: m in ordered <==> Reachable(g, skip + {ALL}, Out(g, ALL), m)
    ensures TopoSorted(g, skip + {ALL}, ordered) <==> NoCycle(g, skip + {ALL}, ordered)
  {
    var none: set<Repo> := {};
    assert none + {ALL} == {ALL};
    SeenIsSkipped(g, skip, none, {ALL}, Out(g, ALL));
    WalkListsNew(g, skip, {ALL}, Out(g, ALL));
    forall m
      ensures m in ordered <==> Reachable(g, skip + {ALL}, Out(g, ALL), m)
    {
      ListsExactlyReachable(g, skip, {ALL}, Out(g, ALL), m);
    }
    SortedExactlyWhenAcyclic(g, skip + {ALL}, Out(g, ALL));
  }

  class Resolver {
    const source: Source
    const options: Options
    const skip: set<Repo>

    /** The property `_qt_internal_seen_repos`. */
    var seen: seq<Repo>
    /** The properties `QT_DEPS_FOR_<module>` and `QT_REQUIRED_DEPS_FOR_<module>`. */
    var depsFor: map<Repo, seq<Repo>>
    var requiredDepsFor: map<Repo, seq<Repo>>

    constructor (source: Source, options: Options, skip: set<Repo>)
      ensures this.source == source && this.options == options && this.skip == skip
      ensures seen == [] && depsFor == map[] && requiredDepsFor == map[]
    {
      this.source, this.options, this.skip := source, options, skip;
      seen, depsFor, requiredDepsFor := [], map[], map[];
    }

    /**
     Resolves `name`; at the top (not in recursion) the list of seen repositories is cleared first.
     `g` is the graph that is found on the way.
     */
    method Resolve(name: Repo, revision: string, parsed: Option<seq<Dep>>, inRecursion: bool, ghost g: Graph)
      returns (skipped: bool, ordered: seq<Repo>, revisions: seq<string>)
      requires Serves(source, options, g, name, parsed, if inRecursion then SetOf(seen) else {})
      modifies `seen, `depsFor, `requiredDepsFor
      ensures skipped <==> (inRecursion && name in old(seen)) || name in skip
      ensures skipped ==> ordered == [] && revisions == []
      ensures Called(g, skip, Dep(name, revision, true),
                     Built(if inRecursion then SetOf(old(seen)) else {}, [], [], old(depsFor), old(requiredDepsFor)),
                     Built(SetOf(seen), ordered, revisions, depsFor, requiredDepsFor))
      decreases if inRecursion then |g.Keys - SetOf(seen)| else |g.Keys| + 1, 0
    {
      hide *;
      if !inRecursion {
        seen := [];
      }
      ghost var start := SetOf(seen);
      SetOfFacts(seen, name);
      skipped, ordered, revisions := false, [], [];
      if name in seen || name in skip {
        skipped := true;
        CalledAtOnce(g, skip, Dep(name, revision, true), Built(start, [], [], depsFor, requiredDepsFor));
        return;
      }
      seen := seen + [name];
      var rev := if revision == "" then "HEAD" else revision;
      var dependencies := if parsed.Some? then parsed.value else Retrieve(source, options, name);
      ghost var l := Loop(g, skip, start, name, WithNames(options, dependencies), depsFor, requiredDepsFor);
      ServesHere(source, options, g, name, parsed, start);
      ServesBelow(source, options, g, name, parsed, start, name, start + {name});
      ProgressStarts(l);
      KeysLeftShrink(g, {}, start);
      var i := 0;
      while i < |dependencies|
        invariant 0 <= i <= |dependencies|
        invariant Progress(l, i, i, Built(SetOf(seen), ordered, revisions, depsFor, requiredDepsFor))
      {
        ProgressSees(l, i, i, Built(SetOf(seen), ordered, revisions, depsFor, requiredDepsFor));
        ordered, revisions := Follow(name, dependencies[i], ordered, revisions, l, i);
        i := i + 1;
      }
      ProgressEnds(l, revision, Built(SetOf(seen), ordered, revisions, depsFor, requiredDepsFor));
      ordered := ordered + [name];
      revisions := revisions + [rev];
    }

    /** One round of the loop: records the dependency of `module'`, resolves it, and appends what that lists. */
    method Follow(module': Repo, dep: Dep, ordered0: seq<Repo>, revisions0: seq<string>, ghost l: Loop, ghost i: nat)
      returns (ordered: seq<Repo>, revisions: seq<string>)
      requires l.name == module' && l.skip == skip
      requires i < |l.out| && l.out[i] == Dep(Normalized(options, dep.name), dep.revision, dep.required)
      requires Serves(source, options, l.g, module', None, l.start + {module'})
      requires Progress(l, i, i, Built(SetOf(seen), ordered0, revisions0, depsFor, requiredDepsFor))
      modifies `seen, `depsFor, `requiredDepsFor
      ensures Progress(l, i + 1, i + 1, Built(SetOf(seen), ordered, revisions, depsFor, requiredDepsFor))
      decreases |l.g.Keys - SetOf(seen)|, 1
    {
      hide *;
      ghost var b := Built(SetOf(seen), ordered0, revisions0, depsFor, requiredDepsFor);
      ProgressRecords(l, i, b);
      ProgressSees(l, i, i, b);
      var dependency := Normalized(options, dep.name);
      depsFor := Append(depsFor, module', dependency);
      if dep.required {
        requiredDepsFor := Append(requiredDepsFor, module', dependency);
      }
      ghost var recorded := Built(SetOf(seen), ordered0, revisions0, depsFor, requiredDepsFor);
      ServesBelow(source, options, l.g, module', None, l.start + {module'}, dependency, SetOf(seen));
      var skipped, depOrdered, depRevisions := Resolve(dependency, dep.revision, None, true, l.g);
      ghost var more := Built(SetOf(seen), depOrdered, depRevisions, depsFor, requiredDepsFor);
      CalledFrom(l.g, skip, Dep(dependency, dep.revision, true), l.out[i], recorded, more);
      ProgressStep(l, i, recorded, more);
      ordered, revisions := ordered0, revisions0;
      if !skipped {
        ordered := ordered + depOrdered;
        revisions := revisions + depRevisions;
      } else {
        assert ordered + depOrdered == ordered && revisions + depRevisions == revisions;
      }
    }

    /**
     Sorts `modules` and their dependencies, by resolving a made-up module that depends on all of
     them and dropping it from the result. None stands for the error when that module is skipped.
     */
    method Sort(modules: seq<Repo>, ghost g: Graph) returns (r: Option<seq<Repo>>)
      requires options.normalize && g == GraphOf(source, options, ALL, Some(Selected(modules)))
      modifies `seen, `depsFor, `requiredDepsFor
      ensures r.None? <==> "all_selected_repos" in skip
      ensures r.Some? ==>
                && r.value == Names(Walk(g, skip, {ALL}, Out(g, ALL)).ordered)
                && Recorded(depsFor, old(depsFor), g, r.value + [ALL], false)
                && Recorded(requiredDepsFor, old(requiredDepsFor), g, r.value + [ALL], true)
    {
      SortServes(source, options, modules);
      var skipped, ordered, revisions := Resolve(ALL, "", Some(Selected(modules)), false, g);
      SortedList(g, skip, SetOf(seen), ordered, revisions);
      if |ordered| == 0 {
        return None;
      }
      r := Some(ordered[..|ordered| - 1]);
      assert ordered == r.value + [ALL];
    }
  }
}
