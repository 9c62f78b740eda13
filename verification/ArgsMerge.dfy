/** Merging of command lines around `--`: configure arguments before it, CMake arguments after it. */
module ArgsMerge {
  import opened CMakeList

  /** What comes before the first `x`: all of the list if there is none. */
  function Before<T(==)>(l: seq<T>, x: T): (r: seq<T>)
    ensures x !in r && r <= l
  {
    var i := Find(l, x);
    if i == -1 then l else l[..i]
  }

  /** What comes after it. */
  function After<T(==)>(l: seq<T>, x: T): (r: seq<T>)
    ensures x in l ==> l == Before(l, x) + [x] + r
    ensures x !in l ==> r == [] && l == Before(l, x)
  {
    var i := Find(l, x);
    if i == -1 then [] else l[i + 1..]
  }

  /** A list is determined by its two parts and whether it has an `x`. */
  lemma Parts<T>(front: seq<T>, x: T, back: seq<T>)
    requires x !in front
    ensures Before(front + [x] + back, x) == front && After(front + [x] + back, x) == back
    ensures Before(front, x) == front && After(front, x) == []
  {
    var l := front + [x] + back;
    assert l[|front|] == x && front == l[..|front|] && back == l[|front| + 1..];
    assert forall k | 0 <= k < |front| :: l[k] == front[k];
  }

  function Insert<T>(l: seq<T>, i: nat, more: seq<T>): seq<T>
    requires i <= |l|
  {
    l[..i] + more + l[i..]
  }

  /** `front` put behind the part before the first `x`, and `back` at the end, behind an `x`. */
  function Joined<T(==)>(l: seq<T>, x: T, front: seq<T>, back: seq<T>): seq<T> {
    Before(l, x) + front + if x in l || back != [] then [x] + After(l, x) + back else []
  }

  lemma PartsOfJoined<T>(l: seq<T>, x: T, front: seq<T>, back: seq<T>)
    requires x !in front
    ensures Before(Joined(l, x, front, back), x) == Before(l, x) + front
    ensures After(Joined(l, x, front, back), x) == After(l, x) + back
  {
    hide Before, After;
    var first, last := Before(l, x) + front, After(l, x) + back;
    Parts(first, x, last);
    if x in l || back != [] {
      assert Joined(l, x, front, back) == first + [x] + last;
    } else {
      assert Joined(l, x, front, back) == first && last == [];
    }
  }

  /** Inserting before the `x`, or at the end. */
  lemma JoinedBefore<T>(l: seq<T>, x: T, front: seq<T>)
    ensures var i := Find(l, x);
            Joined(l, x, front, []) == Insert(l, if i == -1 then |l| else i, front)
  {
    hide *;
    DashSplits(l, x);
    if x in l {
      JoinedAtDash(l, x, front);
      InsertSplit(Before(l, x), [x] + After(l, x), front);
    } else {
      JoinedAtEnd(l, x, front);
      InsertAtEnd(l, front);
    }
  }

  lemma JoinedAtDash<T>(l: seq<T>, x: T, front: seq<T>)
    requires x in l
    ensures Joined(l, x, front, []) == Before(l, x) + front + ([x] + After(l, x))
    ensures l == Before(l, x) + ([x] + After(l, x))
  {
    hide Find, Before, After;
    assert [x] + After(l, x) + [] == [x] + After(l, x);
  }

  lemma JoinedAtEnd<T>(l: seq<T>, x: T, front: seq<T>)
    requires x !in l
    ensures Joined(l, x, front, []) == l + front
  {
    hide Find, Before, After;
    assert After(l, x) == [];
  }

  lemma InsertSplit<T>(a: seq<T>, b: seq<T>, front: seq<T>)
    ensures Insert(a + b, |a|, front) == a + front + b
  {
    assert (a + b)[..|a|] == a && (a + b)[|a|..] == b;
  }

  lemma JoinedNothing<T>(l: seq<T>, x: T)
    ensures Joined(l, x, [], []) == l
  {
    hide Before, After;
    assert After(l, x) + [] == After(l, x);
    assert Before(l, x) + [] == Before(l, x);
    if x in l {
      assert [x] + After(l, x) + [] == [x] + After(l, x);
      assert Before(l, x) + ([x] + After(l, x)) == Before(l, x) + [x] + After(l, x);
    }
  }

  /** Appending to it afterwards. */
  lemma JoinedAfter<T>(l: seq<T>, x: T, front: seq<T>, back: seq<T>)
    requires back != []
    ensures Joined(l, x, front, back) == Joined(l, x, front, []) + (if x in l then [] else [x]) + back
  {
    hide Before, After;
  }

  // ----- -redo -----

  /** The configure arguments of a command line, and its CMake arguments. */
  function Config(args: seq<string>): seq<string> {
    Before(args, "--")
  }

  function ForCMake(args: seq<string>): seq<string> {
    After(args, "--")
  }

  /** Configure arguments go with configure arguments, and CMake arguments with CMake arguments. */
  predicate Merges(r: seq<string>, args: seq<string>, redo: seq<string>) {
    && Config(r) == Config(args) + Config(redo)
    && ForCMake(r) == ForCMake(args) + ForCMake(redo)
  }

  /** The inputs that one of the truth tests on whole lists takes for false although they are not empty. */
  predicate Misread(args: seq<string>, redo: seq<string>) {
    if FalsyList(args) then args != [] && (redo == [] || "--" in args)
    else "--" in redo && Config(redo) != [] && FalsyList(Config(redo))
  }

  /** What becomes of the recorded arguments. */
  function Redone(args: seq<string>, redo: seq<string>): seq<string> {
    if FalsyList(args) then AppendQuoted(args, redo)
    else Joined(args, "--", if "--" in redo && FalsyList(Config(redo)) then [] else Config(redo), ForCMake(redo))
  }

  /** The arguments of -redo merged into the recorded ones. */
  method RedoMerge(recorded: seq<string>, redo: seq<string>) returns (args: seq<string>)
    requires Canonical(recorded) == recorded && Canonical(redo) == redo
    ensures args == Redone(recorded, redo)
  {
    hide *;
    RedoneUnfold(recorded, redo);
    if !FalsyList(recorded) {
      EmptyIsFalsy();
      var argsDash, redoDash := Find(recorded, "--"), Find(redo, "--");
      DashSplits(redo, "--");
      if redoDash == -1 {
        args := RedoConfigOnly(recorded, argsDash, redo);
      } else {
        args := RedoConfig(recorded, argsDash, redo[..redoDash]);
        if redoDash + 1 != |redo| {
          args := RedoCMake(recorded, argsDash, if FalsyList(redo[..redoDash]) then [] else redo[..redoDash], args,
                            redo[redoDash + 1..]);
        }
      }
    } else {
      args := AppendQuoted(recorded, redo);
    }
  }

  /** No `--` in the arguments of -redo: all of them are for configure. */
  method RedoConfigOnly(recorded: seq<string>, dash: int, redo: seq<string>) returns (args: seq<string>)
    requires dash == Find(recorded, "--")
    ensures args == Joined(recorded, "--", redo, [])
  {
    hide *;
    var argsDash := dash;
    if argsDash == -1 {
      argsDash := |recorded|;
    }
    JoinedBefore(recorded, "--", redo);
    JoinedNothing(recorded, "--");
    args := recorded;
    if redo != [] {
      args := Insert(args, argsDash, redo);
    }
  }

  /** The part of -redo before its `--`. */
  method RedoConfig(recorded: seq<string>, dash: int, redoConfig: seq<string>) returns (args: seq<string>)
    requires dash == Find(recorded, "--") && recorded != []
    ensures args == Joined(recorded, "--", if FalsyList(redoConfig) then [] else redoConfig, [])
  {
    hide *;
    JoinedBefore(recorded, "--", redoConfig);
    JoinedNothing(recorded, "--");
    EmptyIsFalsy();
    args := recorded;
    if !FalsyList(redoConfig) {
      if dash == -1 {
        AppendToMany(recorded, redoConfig);
        InsertAtEnd(recorded, redoConfig);
        args := AppendQuoted(args, redoConfig);
      } else {
        args := Insert(args, dash, redoConfig);
      }
    }
  }

  /** The part behind it. */
  method RedoCMake(recorded: seq<string>, dash: int, ghost added: seq<string>, merged: seq<string>, redoCMake: seq<string>)
    returns (args: seq<string>)
    requires dash == Find(recorded, "--") && recorded != [] && redoCMake != []
    requires merged == Joined(recorded, "--", added, [])
    ensures args == Joined(recorded, "--", added, redoCMake)
  {
    hide *;
    JoinedAfter(recorded, "--", added, redoCMake);
    JoinedIsLong(recorded, "--", added);
    args := merged;
    if dash == -1 {
      args := args + ["--"];
    }
    AppendToMany(args, redoCMake);
    args := AppendQuoted(args, redoCMake);
  }

  lemma RedoneUnfold(args: seq<string>, redo: seq<string>)
    ensures FalsyList(args) ==> Redone(args, redo) == AppendQuoted(args, redo)
    ensures !FalsyList(args) ==>
      Redone(args, redo) == Joined(args, "--", if "--" in redo && FalsyList(Before(redo, "--")) then [] else Before(redo, "--"),
                                   After(redo, "--"))
  {
    hide FalsyList, Before, After, AppendQuoted, Joined;
  }

  lemma InsertAtEnd<T>(l: seq<T>, front: seq<T>)
    ensures Insert(l, |l|, front) == l + front
  {
    assert l[..|l|] == l && l[|l|..] == [];
  }

  lemma DashSplits<T>(l: seq<T>, x: T)
    ensures var i := Find(l, x);
            if i == -1 then Before(l, x) == l && After(l, x) == []
            else Before(l, x) == l[..i] && After(l, x) == l[i + 1..]
  {
  }

  lemma JoinedIsLong<T>(l: seq<T>, x: T, front: seq<T>)
    ensures |Joined(l, x, front, [])| == |l| + |front|
  {
  }

  lemma EmptyIsFalsy()
    ensures FalsyList([])
  {
  }

  /** Appending to a list that is not empty. */
  lemma AppendToMany(l: seq<string>, more: seq<string>)
    requires l != []
    ensures AppendQuoted(l, more) == l + if more == [] then [""] else more
  {
  }

  /** Configure goes with configure and CMake with CMake, in order, exactly when nothing is misread. */
  lemma RedoMergesExactly(args: seq<string>, redo: seq<string>)
    requires Canonical(args) == args && Canonical(redo) == redo
    ensures Merges(Redone(args, redo), args, redo) <==> !Misread(args, redo)
  {
    hide FalsyList, Before, After, AppendQuoted, Joined;
    EmptyIsFalsy();
    if !FalsyList(args) {
      var added := if "--" in redo && FalsyList(Config(redo)) then [] else Config(redo);
      PartsOfJoined(args, "--", added, ForCMake(redo));
      if |added| != |Config(redo)| {
        assert |Config(args) + added| != |Config(args) + Config(redo)|;
      }
    } else if args == [] {
      assert AppendQuoted(args, redo) == redo by { AppendToNone(redo); }
      assert [] + Config(redo) == Config(redo) && [] + ForCMake(redo) == ForCMake(redo);
      assert Before(args, "--") == [] && After(args, "--") == [];
    } else {
      AppendToMany(args, redo);
      if "--" in args {
        AppendAfterDash(args, if redo == [] then [""] else redo, redo);
      } else if redo != [] {
        AppendBeforeDash(args, redo);
      } else {
        DashSplits(args + [""], "--");
        DashSplits(args, "--");
      }
    }
  }

  lemma AppendToNone(redo: seq<string>)
    requires Canonical(redo) == redo
    ensures AppendQuoted([], redo) == redo
  {
    assert [] + redo == redo;
  }

  lemma AppendBeforeDash(args: seq<string>, redo: seq<string>)
    requires "--" !in args
    ensures Merges(args + redo, args, redo)
  {
    hide Before, After;
    DashSplits(args, "--");
    DashSplits(redo, "--");
    Parts(args + Config(redo), "--", ForCMake(redo));
    if "--" in redo {
      assert args + redo == (args + Config(redo)) + ["--"] + ForCMake(redo);
    } else {
      Parts(args + redo, "--", []);
    }
    assert [] + ForCMake(redo) == ForCMake(redo);
  }

  lemma AppendAfterDash(args: seq<string>, more: seq<string>, redo: seq<string>)
    requires "--" in args && more != [] && (redo == [] || redo == more)
    ensures !Merges(args + more, args, redo)
  {
    hide Before, After;
    Parts(Config(args), "--", ForCMake(args) + more);
    assert args + more == Config(args) + ["--"] + (ForCMake(args) + more);
    assert |ForCMake(args + more)| == |ForCMake(args)| + |more|;
    if redo != [] && "--" !in redo {
      DashSplits(redo, "--");
      assert |Config(args) + Config(redo)| > |Config(args)|;
    }
  }
}
