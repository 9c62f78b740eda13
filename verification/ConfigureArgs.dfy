/** The arguments that init-repository hands on to configure. */
module ConfigureArgs {
  import opened CMakeList
  import opened ArgsMerge

  // ----- an explicit -skip among the arguments -----

  /** Whether there is a `-skip` with a value. */
  predicate HasSkip(args: seq<string>) {
    0 <= Find(args, "-skip") && Find(args, "-skip") + 1 < |args|
  }

  function WithoutSkip(args: seq<string>): seq<string>
    requires HasSkip(args)
  {
    var i := Find(args, "-skip");
    args[..i] + args[i + 2..]
  }

  function MergedSkip(value: string, excluded: string): string {
    Join(RemoveDuplicates(Split(value, ',') + [excluded]), ',')
  }

  predicate Names(l: seq<string>) {
    forall e | e in l :: e != "" && ',' !in e
  }

  lemma SplitOfPlain(s: string)
    requires ',' !in s
    ensures SplitRest(s, ',') == [s]
  {
    SplitRestOfPrefix(s, "", ',');
  }

  lemma SplitOfJoined(l: seq<string>)
    requires l != [] && forall e | e in l :: ',' !in e
    ensures SplitRest(Join(l, ','), ',') == l
  {
    hide Join, SplitRest;
    var n := |l| - 1;
    assert l[..n] + [l[n]] == l;
    SplitJoin(l[..n], l[n], ',');
    SplitOfPlain(l[n]);
  }

  /** The merged value names exactly what was skipped before or is excluded now. */
  lemma MergedSkipNames(value: string, excluded: seq<string>, name: string)
    requires excluded != [] && Names(excluded)
    ensures name in Split(MergedSkip(value, Join(excluded, ',')), ',') <==> name in Split(value, ',') || name in excluded
  {
    var skipped, joined := Split(value, ','), Join(excluded, ',');
    SplitHasNoSeparator(value, ',');
    SplitOfJoined(excluded);
    var distinct := RemoveDuplicates(skipped);
    assert (skipped + [joined])[..|skipped|] == skipped;
    assert RemoveDuplicates(skipped + [joined]) == if joined in distinct then distinct else distinct + [joined];
    hide Join, RemoveDuplicates, SplitRest;
    if joined in distinct {
      SplitOfJoined(distinct);
      SplitOfPlain(joined);
    } else {
      SplitJoin(distinct, joined, ',');
    }
    SplitRestOfNothing();
    assert excluded[0] in excluded;
  }

  lemma SplitRestOfNothing()
    ensures SplitRest("", ',') == [""]
  {
  }

  lemma BeforeAtLeast<T>(front: seq<T>, back: seq<T>, x: T)
    requires x !in front
    ensures |Before(front + back, x)| >= |front|
  {
    var l := front + back;
    assert forall k | 0 <= k < |front| :: l[k] == front[k];
  }

  /** Taking two elements out of the part before the first `x`, with a part `c` from `x` on. */
  lemma RemovedBefore<T>(a: seq<T>, pair: seq<T>, b: seq<T>, x: T, c: seq<T>)
    requires x !in a + pair + b && (c == [] || c[0] == x)
    ensures Before(a + b + c, x) == a + b
    ensures After(a + b + c, x) == After(a + pair + b + c, x)
    ensures |Before(a + pair + b + c, x)| == |a| + |pair| + |b|
  {
    hide Before, After;
    assert x !in a + b by { assert forall e | e in a + b :: e in a + pair + b; }
    if c == [] {
      Parts(a + b, x, []);
      Parts(a + pair + b, x, []);
      assert a + b + c == a + b && a + pair + b + c == a + pair + b;
    } else {
      Parts(a + b, x, c[1..]);
      Parts(a + pair + b, x, c[1..]);
      assert c == [x] + c[1..];
      assert a + b + c == a + b + [x] + c[1..] && a + pair + b + c == a + pair + b + [x] + c[1..];
    }
  }

  /** The pair is taken from the configure arguments, and nothing else changes, exactly when its value stands before the `--`. */
  lemma SkipRemovalExactly(args: seq<string>)
    requires HasSkip(args)
    ensures var i, d := Find(args, "-skip"), Find(args, "--");
            && ForCMake(WithoutSkip(args)) == ForCMake(args)
            && |Config(WithoutSkip(args))| + 2 == |Config(args)|
            <==> d == -1 || i + 1 < d
  {
    var i, d := Find(args, "-skip"), Find(args, "--");
    if d == -1 || i + 1 < d {
      RemovedPair(args, i, if d == -1 then |args| else d, "--");
    } else if d < i {
      RemovedBehind(args, i, d, "--");
    } else {
      assert "--" !in args[..i];
      BeforeAtLeast(args[..i], args[i + 2..], "--");
    }
  }

  lemma RemovedPair<T>(l: seq<T>, i: nat, d: nat, x: T)
    requires i + 1 < d <= |l| && x !in l[..d] && (d < |l| ==> l[d] == x)
    ensures After(l[..i] + l[i + 2..], x) == After(l, x)
    ensures |Before(l[..i] + l[i + 2..], x)| + 2 == |Before(l, x)|
  {
    hide Before, After;
    var a, pair, b, c := l[..i], l[i..i + 2], l[i + 2..d], l[d..];
    assert a + pair + b == l[..d];
    assert l == a + pair + b + c;
    assert a + l[i + 2..] == a + b + c;
    RemovedBefore(a, pair, b, x, c);
  }

  lemma RemovedBehind<T>(l: seq<T>, i: nat, d: nat, x: T)
    requires d < i && i + 2 <= |l| && x !in l[..d] && l[d] == x
    ensures Before(l[..i] + l[i + 2..], x) == Before(l, x)
  {
    hide Before, After;
    var rest := l[d + 1..i] + l[i + 2..];
    assert l[..i] + l[i + 2..] == l[..d] + [x] + rest;
    assert l == l[..d] + [x] + l[d + 1..];
    Parts(l[..d], x, rest);
    Parts(l[..d], x, l[d + 1..]);
  }

  // ----- where the extra arguments go -----

  /** `config` at the end of the configure arguments, and `cmake` in front of the CMake arguments. */
  function Around(args: seq<string>, config: seq<string>, cmake: seq<string>): seq<string> {
    Config(args) + config + if "--" in args || cmake != [] then ["--"] + (cmake + ForCMake(args)) else []
  }

  lemma PartsOfAround(args: seq<string>, config: seq<string>, cmake: seq<string>)
    requires "--" !in config
    ensures Config(Around(args, config, cmake)) == Config(args) + config
    ensures ForCMake(Around(args, config, cmake)) == cmake + ForCMake(args)
  {
    hide Before, After;
    var front, back := Config(args) + config, cmake + ForCMake(args);
    Parts(front, "--", back);
    if "--" in args || cmake != [] {
      assert Around(args, config, cmake) == front + ["--"] + back;
    } else {
      assert Around(args, config, cmake) == front && back == [];
    }
  }

  /** What the two insertions make of the arguments. */
  function Placed(args: seq<string>, config: seq<string>, cmake: seq<string>): seq<string> {
    var configured := if FalsyList(config) then args else Joined(args, "--", config, []);
    if FalsyList(cmake) then configured
    else if "--" in args then
      var d := Find(configured, "--");
      if d == -1 then configured else Insert(configured, d + 1, cmake)
    else configured + ["--"] + cmake
  }

  lemma PlacedIsAround(args: seq<string>, config: seq<string>, cmake: seq<string>)
    requires "--" !in config
    ensures Placed(args, config, cmake) ==
            Around(args, if FalsyList(config) then [] else config, if FalsyList(cmake) then [] else cmake)
  {
    hide FalsyList, Find, Before, After, Insert, Joined, Around;
    EmptyIsFalsy();
    JoinedNothing(args, "--");
    if "--" in args {
      PlacedInside(args, if FalsyList(config) then [] else config, cmake);
    } else {
      PlacedAtEnd(args, if FalsyList(config) then [] else config, cmake);
    }
  }

  lemma PlacedInside(args: seq<string>, added: seq<string>, cmake: seq<string>)
    requires "--" in args && "--" !in added
    ensures var configured := Joined(args, "--", added, []);
            var d := Find(configured, "--");
            && configured == Around(args, added, [])
            && d != -1
            && Insert(configured, d + 1, cmake) == Around(args, added, cmake)
  {
    hide Find, Before, After, Insert, Joined;
    JoinedAtDash(args, "--", added);
    var front, back := Config(args) + added, ForCMake(args);
    var configured := front + (["--"] + back);
    FindDash(front, "--", back);
    assert configured == (front + ["--"]) + back;
    InsertSplit(front + ["--"], back, cmake);
    assert [] + back == back;
    assert (front + ["--"]) + cmake + back == front + (["--"] + (cmake + back));
  }

  lemma PlacedAtEnd(args: seq<string>, added: seq<string>, cmake: seq<string>)
    requires "--" !in args
    ensures Joined(args, "--", added, []) == Around(args, added, [])
    ensures cmake != [] ==> Joined(args, "--", added, []) + ["--"] + cmake == Around(args, added, cmake)
  {
    hide Find, Before, After, Joined;
    JoinedAtEnd(args, "--", added);
    DashSplits(args, "--");
    assert args + added + [] == args + added;
    assert ["--"] + (cmake + []) == ["--"] + cmake;
    assert (args + added) + ["--"] + cmake == (args + added) + (["--"] + cmake);
  }

  lemma FindDash<T>(front: seq<T>, x: T, back: seq<T>)
    requires x !in front
    ensures Find(front + ([x] + back), x) == |front|
  {
    hide Find, Before, After;
    var l := front + ([x] + back);
    assert front + [x] + back == l;
    Parts(front, x, back);
    DashSplits(l, x);
    assert l[|front|] == x;
    var i := Find(l, x);
    assert |Before(l, x)| == |front|;
    assert |l[..i]| == i;
  }

  /** The extra arguments end up where they belong exactly when no list of them is misread and none of them is `--`. */
  lemma PlacedExactly(args: seq<string>, config: seq<string>, cmake: seq<string>)
    ensures && Config(Placed(args, config, cmake)) == Config(args) + config
            && ForCMake(Placed(args, config, cmake)) == cmake + ForCMake(args)
            <==>
            && "--" !in config
            && (config != [] ==> !FalsyList(config))
            && (cmake != [] ==> !FalsyList(cmake))
  {
    hide FalsyList, Find, After, Around, Placed;
    EmptyIsFalsy();
    if "--" in config {
      assert "--" in Config(args) + config;
      assert "--" !in Config(Placed(args, config, cmake));
    } else {
      PlacedIsAround(args, config, cmake);
      var someConfig, someCMake := if FalsyList(config) then [] else config, if FalsyList(cmake) then [] else cmake;
      PartsOfAround(args, someConfig, someCMake);
      assert |Config(args) + someConfig| == |Config(args)| + |someConfig|;
      assert |someCMake + ForCMake(args)| == |ForCMake(args)| + |someCMake|;
    }
  }

  // ----- the whole filter -----

  /** What init-repository has parsed: unknown arguments, the value of -submodules, and what that selects and rules out. */
  datatype Request = Request(unknown: seq<string>, submodules: string, selected: seq<string>, excluded: seq<string>,
                             alreadyInitialized: bool, help: bool)

  function BuildFlags(modules: seq<string>): (r: seq<string>)
    ensures |r| == |modules| && forall i | 0 <= i < |r| :: r[i] == "-DBUILD_" + modules[i] + "=ON"
  {
    seq(|modules|, i requires 0 <= i < |modules| => "-DBUILD_" + modules[i] + "=ON")
  }

  /** The modules that are asked for; qtrepotools has nothing to build. */
  function Modules(q: Request): seq<string> {
    RemoveItems(if FalsyList(q.selected) && q.alreadyInitialized then Split(q.submodules, ',') else q.selected,
                ["qtrepotools"])
  }

  function Given(q: Request): seq<string> {
    RemoveItems(q.unknown, [""])
  }

  /** The given arguments that stay. */
  function Kept(q: Request): seq<string> {
    if !Falsy(q.submodules) && !Falsy(Join(q.excluded, ',')) && HasSkip(Given(q)) then WithoutSkip(Given(q)) else Given(q)
  }

  function SkipValue(q: Request): string {
    if !Falsy(Join(q.excluded, ',')) && HasSkip(Given(q)) then
      MergedSkip(Given(q)[Find(Given(q), "-skip") + 1], Join(q.excluded, ','))
    else Join(q.excluded, ',')
  }

  function OptionWith(name: string, value: string): seq<string> {
    if Falsy(value) then [] else [name, value]
  }

  function ExtraConfigure(q: Request): seq<string> {
    if Falsy(q.submodules) then [] else OptionWith("-submodules", Join(Modules(q), ',')) + OptionWith("-skip", SkipValue(q))
  }

  function ExtraCMake(q: Request): seq<string> {
    if Falsy(q.submodules) || FalsyList(Modules(q)) then [] else BuildFlags(Modules(q))
  }

  /** The flags made from module names are never misread. */
  lemma ExtrasAreTruthy(q: Request)
    ensures ExtraConfigure(q) != [] ==> !FalsyList(ExtraConfigure(q))
    ensures ExtraCMake(q) != [] ==> !FalsyList(ExtraCMake(q))
  {
    hide Modules, SkipValue;
    var flags := ExtraCMake(q);
    if flags != [] {
      var last := flags[|flags| - 1];
      assert last[|last| - 1] == 'N' && last[0] == '-' && ToUpper(last)[0] == '-';
      assert !EndsWith(last, "-NOTFOUND");
    }
  }

  /** What stays of the given arguments, and what is added. */
  method Collect(q: Request) returns (filtered: seq<string>, extraConfigure: seq<string>, extraCMake: seq<string>)
    ensures filtered == Kept(q) && extraConfigure == ExtraConfigure(q) && extraCMake == ExtraCMake(q)
  {
    hide FalsyList, Falsy, MergedSkip, Join, Split, RemoveItems, BuildFlags;
    filtered, extraConfigure, extraCMake := RemoveItems(q.unknown, [""]), [], [];
    if !Falsy(q.submodules) {
      var modules := q.selected;
      if FalsyList(modules) && q.alreadyInitialized {
        modules := Split(q.submodules, ',');
      }
      modules := RemoveItems(modules, ["qtrepotools"]);
      if !FalsyList(modules) {
        extraCMake := BuildFlags(modules);
      }
      var selected, excluded := Join(modules, ','), Join(q.excluded, ',');
      var skipIndex := Find(filtered, "-skip");
      if !Falsy(excluded) && skipIndex > -1 {
        if skipIndex + 1 < |filtered| {
          excluded := MergedSkip(filtered[skipIndex + 1], excluded);
          RemoveBoth(filtered, skipIndex);
          filtered := RemoveAt(filtered, skipIndex + 1);
          filtered := RemoveAt(filtered, skipIndex);
        }
      }
      if !Falsy(selected) {
        extraConfigure := ["-submodules", selected];
      }
      if !Falsy(excluded) {
        extraConfigure := extraConfigure + ["-skip", excluded];
      }
    }
  }

  function RemoveAt(l: seq<string>, i: nat): seq<string>
    requires i < |l|
  {
    l[..i] + l[i + 1..]
  }

  lemma RemoveBoth(l: seq<string>, i: nat)
    requires i + 1 < |l|
    ensures RemoveAt(RemoveAt(l, i + 1), i) == l[..i] + l[i + 2..]
  {
    var first := RemoveAt(l, i + 1);
    assert first[..i] == l[..i] && first[i + 1..] == l[i + 2..];
  }

  /** The insertion around `--`, step by step. */
  method Place(args: seq<string>, extraConfigure: seq<string>, extraCMake: seq<string>) returns (filtered: seq<string>)
    ensures filtered == Placed(args, extraConfigure, extraCMake)
  {
    hide FalsyList, Joined, Before, After;
    JoinedBefore(args, "--", extraConfigure);
    filtered := args;
    var index := Find(filtered, "--");
    if index == -1 {
      JoinedAtEnd(args, "--", extraConfigure);
      if !FalsyList(extraConfigure) {
        filtered := filtered + extraConfigure;
      }
      if !FalsyList(extraCMake) {
        filtered := filtered + ["--"];
        filtered := filtered + extraCMake;
      }
    } else {
      if !FalsyList(extraConfigure) {
        filtered := Insert(filtered, index, extraConfigure);
        assert filtered[index + |extraConfigure|] == "--";
      }
      index := Find(filtered, "--") + 1;
      if !FalsyList(extraCMake) {
        filtered := Insert(filtered, index, extraCMake);
      }
    }
  }

  method Filter(q: Request) returns (filtered: seq<string>)
    ensures filtered == Placed(Kept(q), ExtraConfigure(q), ExtraCMake(q)) + if q.help then ["-help"] else []
  {
    hide Placed, Kept, ExtraConfigure, ExtraCMake;
    var kept, extraConfigure, extraCMake := Collect(q);
    filtered := Place(kept, extraConfigure, extraCMake);
    if q.help {
      filtered := filtered + ["-help"];
    }
  }

  /**
   Unless help is asked for, configure is handed the kept configure arguments with the extra ones
   behind, and CMake the extra ones with its kept ones behind, exactly when no added value is `--`.
   */
  lemma FilterExactly(q: Request)
    ensures var r := Placed(Kept(q), ExtraConfigure(q), ExtraCMake(q));
            && Config(r) == Config(Kept(q)) + ExtraConfigure(q)
            && ForCMake(r) == ExtraCMake(q) + ForCMake(Kept(q))
            <==> Falsy(q.submodules) || (Join(Modules(q), ',') != "--" && SkipValue(q) != "--")
  {
    ExtrasAreTruthy(q);
    PlacedExactly(Kept(q), ExtraConfigure(q), ExtraCMake(q));
    DashIsTruthy();
    hide Placed, Kept, Falsy, Join, Modules, SkipValue, ExtraCMake, FalsyList;
  }

  /** What configure reads from -submodules is the list of modules; qtrepotools is not one of them. */
  lemma SubmodulesReadBack(q: Request)
    requires !Falsy(q.submodules) && Modules(q) != [] && Names(Modules(q)) && !Falsy(Join(Modules(q), ','))
    ensures var r := ExtraConfigure(q);
            |r| >= 2 && r[0] == "-submodules" && Split(r[1], ',') == Modules(q) && "qtrepotools" !in Modules(q)
  {
    hide Join, SkipValue;
    NamesSplit(Modules(q));
    InRemoveItems(if FalsyList(q.selected) && q.alreadyInitialized then Split(q.submodules, ',') else q.selected,
                  ["qtrepotools"], "qtrepotools");
  }

  /** And from -skip, the excluded modules, and those of an explicit -skip that was merged with them. */
  lemma SkipReadsBack(q: Request, name: string)
    requires !Falsy(q.submodules) && q.excluded != [] && Names(q.excluded)
    requires !Falsy(Join(q.excluded, ',')) && !Falsy(SkipValue(q))
    ensures var r := ExtraConfigure(q);
            && |r| >= 2 && r[|r| - 2] == "-skip"
            && (name in Split(r[|r| - 1], ',') <==>
                || name in q.excluded
                || (HasSkip(Given(q)) && name in Split(Given(q)[Find(Given(q), "-skip") + 1], ',')))
  {
    hide Join, Falsy, Modules, MergedSkip, Names;
    if HasSkip(Given(q)) {
      MergedSkipNames(Given(q)[Find(Given(q), "-skip") + 1], q.excluded, name);
    } else {
      NamesSplit(q.excluded);
    }
  }

  /** Modules are taken in order; qtrepotools goes, wherever it stands. */
  lemma ModulesExactly(q: Request, front: seq<string>, back: seq<string>)
    requires "qtrepotools" !in front + back && !(FalsyList(q.selected) && q.alreadyInitialized)
    ensures q.selected == front + back ==> Modules(q) == front + back
    ensures q.selected == front + ["qtrepotools"] + back ==> Modules(q) == front + back
  {
    hide RemoveItems;
    var x := "qtrepotools";
    if q.selected == front + back { RemoveNothing(front + back, [x]); }
    if q.selected == front + [x] + back { RemoveTheOne(front, x, back); }
  }

  /** Empty given arguments go. */
  lemma GivenExactly(q: Request, front: seq<string>, back: seq<string>)
    requires "" !in front + back
    ensures q.unknown == front + back ==> Given(q) == front + back
    ensures q.unknown == front + [""] + back ==> Given(q) == front + back
  {
    hide RemoveItems;
    if q.unknown == front + back { RemoveNothing(front + back, [""]); }
    if q.unknown == front + [""] + back { RemoveTheOne(front, "", back); }
  }

  /** A given -skip, the first one with a value, goes together with it if modules are excluded. */
  lemma KeptExactly(q: Request, front: seq<string>, value: string, back: seq<string>)
    requires "" !in q.unknown && q.unknown == front + ["-skip", value] + back && "-skip" !in front
    requires !Falsy(q.submodules)
    ensures Kept(q) == if Falsy(Join(q.excluded, ',')) then q.unknown else front + back
  {
    RemoveNothing(q.unknown, [""]);
    assert q.unknown == front + (["-skip"] + ([value] + back));
    FindDash(front, "-skip", [value] + back);
    assert q.unknown[..|front|] == front && q.unknown[|front| + 2..] == back;
    hide Falsy, Join, RemoveItems, Find;
  }

  /** Without a selection, in a repository that was initialized before, they are what -submodules names. */
  lemma ModulesAsNamed(q: Request, names: seq<string>)
    requires q.selected == [] && q.alreadyInitialized && q.submodules == Join(names, ',')
    requires names != [] && names != [""] && "qtrepotools" !in names && forall n | n in names :: ',' !in n
    ensures Modules(q) == names
  {
    hide Join, SplitRest;
    SplitOfJoined(names);
    SplitRestOfNothing();
    assert FalsyList([]);
    hide RemoveItems;
    RemoveNothing(names, ["qtrepotools"]);
  }

  /**
   The usual call, in full: modules are selected, others excluded, no -skip is given. Configure gets the
   given arguments, then the modules and the excluded ones; CMake gets a flag for every module, in
   order, and then its own arguments.
   */
  lemma UsualCall(q: Request, front: seq<string>, back: seq<string>)
    requires q.selected == front + ["qtrepotools"] + back && "qtrepotools" !in front + back && front + back != []
    requires "" !in q.unknown && "-skip" !in q.unknown
    requires !Falsy(q.submodules) && !FalsyList(q.selected) && !FalsyList(front + back)
    requires !Falsy(Join(front + back, ',')) && Join(front + back, ',') != "--"
    requires q.excluded != [] && !Falsy(Join(q.excluded, ',')) && Join(q.excluded, ',') != "--"
    ensures var modules, r := front + back, Placed(Kept(q), ExtraConfigure(q), ExtraCMake(q));
            && Config(r) ==
               Config(q.unknown) + ["-submodules", Join(modules, ','), "-skip", Join(q.excluded, ',')]
            && |ForCMake(r)| == |modules| + |ForCMake(q.unknown)|
            && (forall i | 0 <= i < |modules| :: ForCMake(r)[i] == "-DBUILD_" + modules[i] + "=ON")
            && ForCMake(r)[|modules|..] == ForCMake(q.unknown)
  {
    ModulesExactly(q, front, back);
    RemoveNothing(q.unknown, [""]);
    assert !HasSkip(q.unknown);
    assert Kept(q) == q.unknown && SkipValue(q) == Join(q.excluded, ',');
    assert ExtraConfigure(q) == ["-submodules", Join(front + back, ','), "-skip", Join(q.excluded, ',')];
    assert ExtraCMake(q) == BuildFlags(front + back);
    hide Kept, ExtraConfigure, ExtraCMake, Modules, SkipValue, Join, Falsy, FalsyList, Placed, RemoveItems;
    FilterExactly(q);
  }

  /** Without a value of -submodules the given arguments are handed on as they are. */
  lemma NothingAsked(q: Request)
    requires "" !in q.unknown && Falsy(q.submodules)
    ensures Placed(Kept(q), ExtraConfigure(q), ExtraCMake(q)) == q.unknown
  {
    RemoveNothing(q.unknown, [""]);
    assert Kept(q) == q.unknown && ExtraConfigure(q) == [] && ExtraCMake(q) == [];
    hide Kept, ExtraConfigure, ExtraCMake, RemoveItems;
    EmptyIsFalsy();
    hide FalsyList;
    PlacedNothing(q.unknown);
  }

  /** When nothing but qtrepotools is selected, there is no -submodules and no flag, only the -skip. */
  lemma NothingSelected(q: Request)
    requires "" !in q.unknown && "-skip" !in q.unknown && !Falsy(q.submodules) && q.selected == ["qtrepotools"]
    requires Join(q.excluded, ',') != "--"
    ensures var r := Placed(Kept(q), ExtraConfigure(q), ExtraCMake(q));
            && ForCMake(r) == ForCMake(q.unknown)
            && Config(r) == Config(q.unknown) +
                 if Falsy(Join(q.excluded, ',')) then [] else ["-skip", Join(q.excluded, ',')]
  {
    RemoveNothing(q.unknown, [""]);
    assert !Falsy("qtrepotools") by { assert ToUpper("qtrepotools")[0] == 'Q'; }
    ModulesExactly(q, [], []);
    assert !HasSkip(q.unknown);
    assert Kept(q) == q.unknown && SkipValue(q) == Join(q.excluded, ',') && Modules(q) == [];
    assert Join([], ',') == "" && Falsy("") by { assert ToUpper("") == ""; }
    assert ExtraConfigure(q) == if Falsy(Join(q.excluded, ',')) then [] else ["-skip", Join(q.excluded, ',')];
    assert ExtraCMake(q) == [];
    hide Kept, ExtraConfigure, ExtraCMake, Modules, SkipValue, Join, Falsy, FalsyList, Placed, RemoveItems;
    FilterExactly(q);
    assert [] + ForCMake(q.unknown) == ForCMake(q.unknown);
  }

  lemma PlacedNothing(args: seq<string>)
    ensures Placed(args, [], []) == args
  {
  }

  lemma NamesSplit(l: seq<string>)
    requires l != [] && Names(l)
    ensures Split(Join(l, ','), ',') == l
  {
    hide Join;
    SplitOfJoined(l);
    SplitRestOfNothing();
    assert l[0] in l;
  }

  lemma DashIsTruthy()
    ensures !Falsy("--")
  {
    assert ToUpper("--")[0] == '-';
  }

  /** The final -help is for configure exactly when there is no `--`. */
  lemma HelpExactly(args: seq<string>)
    ensures Config(args + ["-help"]) == Config(args) + ["-help"] <==> "--" !in args
  {
    hide Find, Before, After;
    if "--" in args {
      Parts(Config(args), "--", ForCMake(args) + ["-help"]);
      assert args + ["-help"] == Config(args) + ["--"] + (ForCMake(args) + ["-help"]);
      assert |Config(args) + ["-help"]| > |Config(args)|;
    } else {
      DashSplits(args, "--");
      Parts(args + ["-help"], "--", []);
    }
  }
}
