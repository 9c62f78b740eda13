/** The line-by-line reader of dependencies.yaml, and the `dependency/revision/required` entries it makes. */
module DependenciesYaml {
  import opened CMakeList
  import opened DependencyGraph
  import opened Results

  const EOF_MARKER := "---EOF---"
  const NO_REVISION := "dependency does not specify revision"

  predicate StartsWith(s: string, prefix: string) {
    prefix <= s
  }

  /** `^  (.+):$` */
  predicate IsRepoLine(line: string) {
    |line| >= 4 && StartsWith(line, "  ") && line[|line| - 1] == ':'
  }

  /** `^    ref: (.+)$` */
  predicate IsRefLine(line: string) {
    |line| > 9 && StartsWith(line, "    ref: ")
  }

  /** `^    required: (.+)$` */
  predicate IsRequiredLine(line: string) {
    |line| > 14 && StartsWith(line, "    required: ")
  }

  /** Dependencies are given relative to the module: every `../` goes. */
  function WithoutUp(s: string): string {
    if |s| < 3 then s
    else if s[..3] == "../" then WithoutUp(s[3..])
    else [s[0]] + WithoutUp(s[1..])
  }

  /** The lines that the three patterns match, and what their groups are. */
  lemma PatternsExactly(line: string, group: string)
    requires group != ""
    ensures IsRepoLine(line) && line[2..|line| - 1] == group <==> line == "  " + group + ":"
    ensures IsRefLine(line) && line[9..] == group <==> line == "    ref: " + group
    ensures IsRequiredLine(line) && line[14..] == group <==> line == "    required: " + group
    ensures !IsRepoLine("  :") && !IsRefLine("    ref: ") && !IsRequiredLine("    required: ")
  {
    if IsRepoLine(line) { assert line == line[..2] + line[2..|line| - 1] + [line[|line| - 1]]; }
    if IsRefLine(line) { assert line == line[..9] + line[9..]; }
    if IsRequiredLine(line) { assert line == line[..14] + line[14..]; }
    if line == "  " + group + ":" { assert line[..2] == "  " && line[2..|line| - 1] == group; }
    if line == "    ref: " + group { assert line[..9] == "    ref: "; }
    if line == "    required: " + group { assert line[..14] == "    required: "; }
  }

  predicate UpAt(s: string, i: nat) {
    i + 3 <= |s| && s[i..i + 3] == "../"
  }

  lemma UpBehind(s: string, j: nat)
    requires s != ""
    ensures UpAt(s[1..], j) == UpAt(s, j + 1)
  {
    if j + 4 <= |s| { assert s[1..][j..j + 3] == s[j + 1..j + 4]; }
  }

  lemma WithoutUpUnfold(s: string)
    requires s != ""
    ensures WithoutUp(s) == if UpAt(s, 0) then WithoutUp(s[3..]) else [s[0]] + WithoutUp(s[1..])
  {
    if |s| >= 3 { assert s[0..3] == s[..3]; } else { assert s == [s[0]] + s[1..]; }
  }

  /** The first `../` goes, wherever it is, and then those in the rest. */
  lemma {:induction false} WithoutUpExactly(front: string, back: string)
    requires forall j | 0 <= j < |front| :: !UpAt(front + "../" + back, j)
    ensures WithoutUp(front + "../" + back) == front + WithoutUp(back)
    decreases |front|
  {
    var s := front + "../" + back;
    WithoutUpUnfold(s);
    if front == "" {
      assert s[0..3] == "../" && s[3..] == back;
    } else {
      hide WithoutUp, UpAt;
      var t := front[1..] + "../" + back;
      assert s[1..] == t && s[0] == front[0];
      forall j | 0 <= j < |front| - 1
        ensures !UpAt(t, j)
      {
        UpBehind(s, j);
        assert !UpAt(s, j + 1);
      }
      WithoutUpExactly(front[1..], back);
      assert !UpAt(s, 0);
      PutInFront(front, WithoutUp(back));
    }
  }

  lemma PutInFront(front: string, rest: string)
    requires front != ""
    ensures [front[0]] + (front[1..] + rest) == front + rest
  {
  }

  /** A name without one stays. */
  lemma {:induction false} NoUpStays(s: string)
    requires forall j | 0 <= j < |s| :: !UpAt(s, j)
    ensures WithoutUp(s) == s
  {
    if s != "" {
      WithoutUpUnfold(s);
      hide WithoutUp, UpAt;
      forall j | 0 <= j < |s| - 1
        ensures !UpAt(s[1..], j)
      {
        UpBehind(s, j);
        assert !UpAt(s, j + 1);
      }
      NoUpStays(s[1..]);
      assert [s[0]] + s[1..] == s;
    }
  }

  function Triple(name: string, revision: string, required: string): string {
    name + "/" + revision + "/" + required
  }

  /** What the reader carries from line to line. */
  datatype State = State(dependencies: seq<string>, dependency: string, revision: string, required: string)

  const START := State([], "", "", "TRUE")

  /** The entry that is complete once the next one starts, or the file ends. */
  function Flushed(s: State): Result<seq<string>> {
    if s.dependency == "" then Ok(s.dependencies)
    else if s.revision == "" then Fatal(NO_REVISION)
    else Ok(s.dependencies + [Triple(s.dependency, s.revision, s.required)])
  }

  function Step(s: State, line: string): Result<State> {
    if IsRepoLine(line) || line == EOF_MARKER then
      var flushed := Flushed(s);
      if flushed.Fatal? then Fatal(flushed.message)
      else if line == EOF_MARKER then Ok(s.(dependencies := flushed.value))
      else Ok(State(flushed.value, WithoutUp(line[2..|line| - 1]), "", "TRUE"))
    else if IsRefLine(line) then Ok(s.(revision := line[9..]))
    else if IsRequiredLine(line) then Ok(s.(required := ToUpper(line[14..])))
    else Ok(s)
  }

  function Steps(s: State, lines: seq<string>): Result<State>
    decreases |lines|
  {
    if lines == [] then Ok(s)
    else
      var next := Step(s, lines[0]);
      if next.Fatal? then next else Steps(next.value, lines[1..])
  }

  lemma {:induction false} StepsConcat(s: State, a: seq<string>, b: seq<string>)
    ensures Steps(s, a + b) == if Steps(s, a).Fatal? then Steps(s, a) else Steps(Steps(s, a).value, b)
    decreases |a|
  {
    hide Step;
    if a == [] {
      assert a + b == b;
    } else {
      assert (a + b)[0] == a[0] && (a + b)[1..] == a[1..] + b;
      if Step(s, a[0]).Ok? {
        StepsConcat(Step(s, a[0]).value, a[1..], b);
      }
    }
  }

  /** The entries of a file; reading stops with an error at a dependency without a revision. */
  function Parsed(lines: seq<string>): Result<seq<string>> {
    var r := Steps(START, lines + [EOF_MARKER]);
    if r.Fatal? then Fatal(r.message) else Ok(r.value.dependencies)
  }

  method Parse(lines: seq<string>) returns (r: Result<seq<string>>)
    ensures r == Parsed(lines)
  {
    var all := lines + [EOF_MARKER];
    var dependencies, dependency, revision, required := [], "", "", "TRUE";
    var i := 0;
    while i < |all|
      invariant 0 <= i <= |all|
      invariant Steps(START, all[..i]) == Ok(State(dependencies, dependency, revision, required))
    {
      var line := all[i];
      StepsOneMore(all, i);
      if IsRepoLine(line) || line == EOF_MARKER {
        if dependency != "" {
          if revision == "" {
            return Fatal(NO_REVISION);
          }
          dependencies := dependencies + [Triple(dependency, revision, required)];
        }
        if line != EOF_MARKER {
          dependency, revision, required := WithoutUp(line[2..|line| - 1]), "", "TRUE";
        }
      } else if IsRefLine(line) {
        revision := line[9..];
      } else if IsRequiredLine(line) {
        required := ToUpper(line[14..]);
      }
      i := i + 1;
    }
    assert all[..i] == all;
    return Ok(dependencies);
  }

  lemma StepsOneMore(all: seq<string>, i: nat)
    requires i < |all| && Steps(START, all[..i]).Ok?
    ensures Steps(START, all[..i + 1]) == Step(Steps(START, all[..i]).value, all[i])
    ensures Step(Steps(START, all[..i]).value, all[i]).Fatal? ==> Steps(START, all) == Step(Steps(START, all[..i]).value, all[i])
  {
    hide Step, Steps;
    var s := Steps(START, all[..i]).value;
    assert all[..i + 1] == all[..i] + [all[i]];
    StepsConcat(START, all[..i], [all[i]]);
    StepsOfOne(s, all[i]);
    assert all == all[..i + 1] + all[i + 1..];
    StepsConcat(START, all[..i + 1], all[i + 1..]);
  }

  lemma StepsOfOne(s: State, line: string)
    ensures Steps(s, [line]) == Step(s, line)
  {
    hide Step;
    assert [line][1..] == [];
  }

  // ----- reading back what is printed -----

  /** An entry as a file states it; `required` may be left out. */
  datatype Entry = Entry(name: string, revision: string, required: Option<string>)

  function Printed(e: Entry): seq<string> {
    ["  ../" + e.name + ":", "    ref: " + e.revision]
    + if e.required.None? then [] else ["    required: " + e.required.value]
  }

  function PrintedAll(es: seq<Entry>): seq<string> {
    if es == [] then [] else Printed(es[0]) + PrintedAll(es[1..])
  }

  function TripleOf(e: Entry): string {
    Triple(e.name, e.revision, if e.required.None? then "TRUE" else ToUpper(e.required.value))
  }

  function TriplesOf(es: seq<Entry>): (r: seq<string>)
    ensures |r| == |es| && forall i | 0 <= i < |es| :: r[i] == TripleOf(es[i])
  {
    seq(|es|, i requires 0 <= i < |es| => TripleOf(es[i]))
  }

  /** A value that the patterns of the reader can take in: not empty, and not ending like a repository line. */
  predicate Readable(value: string) {
    value != "" && value[|value| - 1] != ':'
  }

  /** A name without `../`, and values that are not empty and do not end in a colon. */
  predicate Printable(e: Entry) {
    && e.name != "" && WithoutUp(e.name) == e.name
    && Readable(e.revision) && (e.required.Some? ==> Readable(e.required.value))
  }

  /** What becomes of one printed entry. */
  datatype Reading = Unreadable | Dropped | Listed(triple: string)

  function ReadingOf(e: Entry): Reading {
    if e.required.Some? && e.required.value != "" && !Readable(e.required.value) then Unreadable
    else if e.revision != "" && !Readable(e.revision) then Unreadable
    else if WithoutUp(e.name) == "" then Dropped
    else if e.revision == "" then Unreadable
    else Listed(Triple(WithoutUp(e.name), e.revision, RequiredOf(e)))
  }

  function RequiredOf(e: Entry): string {
    if e.required.None? || e.required.value == "" then "TRUE" else ToUpper(e.required.value)
  }

  /** What becomes of a whole file. */
  function ReadAll(es: seq<Entry>): Result<seq<string>>
    decreases |es|
  {
    if es == [] then Ok([])
    else
      var rest := ReadAll(es[1..]);
      if ReadingOf(es[0]).Unreadable? || rest.Fatal? then Fatal(NO_REVISION)
      else if ReadingOf(es[0]).Dropped? then rest
      else Ok([ReadingOf(es[0]).triple] + rest.value)
  }

  lemma {:induction false} WithoutUpShortens(s: string)
    ensures |WithoutUp(s)| <= |s| && (WithoutUp(s) == s || |WithoutUp(s)| < |s|)
    decreases |s|
  {
    if |s| >= 3 {
      WithoutUpShortens(if s[..3] == "../" then s[3..] else s[1..]);
      assert s == [s[0]] + s[1..];
    }
  }

  /** An entry is listed as it was printed exactly when it is printable. */
  lemma ListedExactly(e: Entry)
    ensures ReadingOf(e) == Listed(TripleOf(e)) <==> Printable(e)
  {
    WithoutUpShortens(e.name);
    if ReadingOf(e).Listed? && e.required == Some("") {
      var t := ReadingOf(e).triple;
      assert TripleOf(e)[|TripleOf(e)| - 1] == '/' && t[|t| - 1] == 'E';
    } else if ReadingOf(e).Listed? {
      var ending := "/" + e.revision + "/" + RequiredOf(e);
      assert ReadingOf(e).triple == WithoutUp(e.name) + ending;
      assert TripleOf(e) == e.name + ending;
      if WithoutUp(e.name) + ending == e.name + ending {
        assert |WithoutUp(e.name)| == |e.name|;
      }
    }
  }

  lemma {:induction false} ReadAllExactly(es: seq<Entry>)
    ensures ReadAll(es).Ok? ==> |ReadAll(es).value| <= |es|
    ensures ReadAll(es) == Ok(TriplesOf(es)) <==> forall e | e in es :: Printable(e)
    decreases |es|
  {
    hide *;
    ReadAllUnfold(es);
    if es == [] {
      assert TriplesOf(es) == [];
    } else {
      var e, rest := es[0], es[1..];
      ReadAllExactly(rest);
      ListedExactly(e);
      assert es == [e] + rest;
      assert TriplesOf(es) == [TripleOf(e)] + TriplesOf(rest);
      if ReadAll(rest).Ok? && ReadingOf(e).Listed? {
        SameHeadAndTail(ReadingOf(e).triple, ReadAll(rest).value, TripleOf(e), TriplesOf(rest));
      }
    }
  }

  lemma SameHeadAndTail(x: string, xs: seq<string>, y: string, ys: seq<string>)
    ensures [x] + xs == [y] + ys <==> x == y && xs == ys
  {
    assert ([x] + xs)[0] == x && ([x] + xs)[1..] == xs;
    assert ([y] + ys)[0] == y && ([y] + ys)[1..] == ys;
  }

  // ----- the lines of one entry -----

  /** No entry can follow: a dependency is pending without a revision. */
  predicate Doomed(r: Result<State>) {
    r == Fatal(NO_REVISION) || (r.Ok? && Flushed(r.value).Fatal?)
  }

  lemma RepoLine(s: State, name: string)
    ensures Step(s, "  ../" + name + ":") == if Flushed(s).Fatal? then Fatal(NO_REVISION)
                                             else Ok(State(Flushed(s).value, WithoutUp(name), "", "TRUE"))
  {
    var line := "  ../" + name + ":";
    assert line[0] == ' ' && line[..2] == "  " && line[|line| - 1] == ':';
    assert line != EOF_MARKER by { assert line[0] != EOF_MARKER[0]; }
    var group := line[2..|line| - 1];
    assert group == "../" + name && group[..3] == "../" && group[3..] == name;
  }

  /** A value line that ends in a colon starts a dependency of that odd name. */
  lemma ColonLine(s: State, line: string)
    requires |line| > 5 && StartsWith(line, "    ") && line[4] == 'r' && line[|line| - 1] == ':'
    ensures Doomed(Step(s, line))
  {
    assert line[0] == ' ' && line[1] == ' ' && line[2] == ' ';
    assert line != EOF_MARKER by { assert line[0] != EOF_MARKER[0]; }
    var group := line[2..|line| - 1];
    assert group[0] == ' ' && |group| >= 3;
    assert group[..3] != "../" by { assert group[..3][0] == ' '; }
    assert WithoutUp(group) != "";
  }

  lemma RefLine(s: State, revision: string)
    requires s.revision == ""
    ensures var r := Step(s, "    ref: " + revision);
            && (Readable(revision) ==> r == Ok(s.(revision := revision)))
            && (revision == "" ==> r == Ok(s))
            && (revision != "" && !Readable(revision) ==> Doomed(r))
  {
    hide WithoutUp, ToUpper, Flushed;
    var line := "    ref: " + revision;
    assert line[0] == ' ' && line[..2] == "  " && line[4] == 'r';
    assert line != EOF_MARKER by { assert line[0] != EOF_MARKER[0]; }
    if revision == "" {
      assert line[|line| - 1] == ' ';
    } else {
      assert line[|line| - 1] == revision[|revision| - 1] && line[9..] == revision;
      if !Readable(revision) { ColonLine(s, line); }
    }
  }

  lemma RequiredLine(s: State, required: string)
    ensures var r := Step(s, "    required: " + required);
            && (Readable(required) ==> r == Ok(s.(required := ToUpper(required))))
            && (required == "" ==> r == Ok(s))
            && (required != "" && !Readable(required) ==> Doomed(r))
  {
    hide WithoutUp, ToUpper, Flushed;
    var line := "    required: " + required;
    assert line[0] == ' ' && line[..2] == "  " && line[4] == 'r';
    assert line != EOF_MARKER by { assert line[0] != EOF_MARKER[0]; }
    assert line[..9] != "    ref: " by { assert line[..9][6] != "    ref: "[6]; }
    if required == "" {
      assert line[|line| - 1] == ' ';
    } else {
      assert line[|line| - 1] == required[|required| - 1] && line[14..] == required;
      if !Readable(required) { ColonLine(s, line); }
    }
  }

  /** After the name and the ref of an entry. */
  lemma NameAndRef(s: State, e: Entry)
    requires Flushed(s).Ok?
    ensures var r := Steps(s, Printed(e)[..2]);
            var s1 := State(Flushed(s).value, WithoutUp(e.name), "", "TRUE");
            && (Readable(e.revision) || e.revision == "" ==> r == Ok(s1.(revision := e.revision)))
            && (e.revision != "" && !Readable(e.revision) ==> Doomed(r))
  {
    hide Step, WithoutUp, Flushed, Readable, ToUpper;
    RepoLine(s, e.name);
    var s1 := State(Flushed(s).value, WithoutUp(e.name), "", "TRUE");
    RefLine(s1, e.revision);
    var lines := Printed(e)[..2];
    StepsUnfold(s, lines);
    assert lines[1..] == ["    ref: " + e.revision];
    StepsOfOne(s1, "    ref: " + e.revision);
  }

  /** After a whole entry: what is flushed next is what `ReadingOf` says. */
  lemma EntrySteps(s: State, e: Entry)
    requires Flushed(s).Ok?
    ensures var r := Steps(s, Printed(e));
            match ReadingOf(e)
            case Unreadable => r == Fatal(NO_REVISION) || (r.Ok? && Flushed(r.value).Fatal?)
            case Dropped => r.Ok? && Flushed(r.value) == Flushed(s)
            case Listed(triple) => r.Ok? && Flushed(r.value) == Ok(Flushed(s).value + [triple])
  {
    hide Step, Steps, WithoutUp, Readable, ToUpper;
    NameAndRef(s, e);
    var lines := Printed(e);
    var r2 := Steps(s, lines[..2]);
    if e.required.None? {
      assert lines[..2] == lines;
    } else {
      var line := "    required: " + e.required.value;
      assert lines == lines[..2] + [line];
      StepsConcat(s, lines[..2], [line]);
      if r2.Ok? {
        StepsOfOne(r2.value, line);
        RequiredLine(r2.value, e.required.value);
      }
    }
  }

  lemma StepsUnfold(s: State, lines: seq<string>)
    ensures lines == [] ==> Steps(s, lines) == Ok(s)
    ensures lines != [] && Step(s, lines[0]).Ok? ==> Steps(s, lines) == Steps(Step(s, lines[0]).value, lines[1..])
  {
  }

  /** What the reader makes of any list of printed entries followed by the end of the file. */
  lemma {:induction false} PrintedAllSteps(s: State, es: seq<Entry>)
    requires Flushed(s).Ok?
    ensures var r := Steps(s, PrintedAll(es) + [EOF_MARKER]);
            if ReadAll(es).Fatal? then r == Fatal(NO_REVISION)
            else r.Ok? && r.value.dependencies == Flushed(s).value + ReadAll(es).value
    decreases |es|
  {
    hide *;
    ReadAllUnfold(es);
    PrintedAllUnfold(es);
    if es == [] {
      assert PrintedAll(es) + [EOF_MARKER] == [EOF_MARKER];
      EndFlushes(s);
      assert Flushed(s).value + [] == Flushed(s).value;
    } else {
      var e, rest := es[0], PrintedAll(es[1..]) + [EOF_MARKER];
      assert PrintedAll(es) + [EOF_MARKER] == Printed(e) + rest;
      StepsConcat(s, Printed(e), rest);
      EntrySteps(s, e);
      var r := Steps(s, Printed(e));
      if ReadingOf(e).Unreadable? {
        if r.Ok? { DoomedEnds(r.value, es[1..]); }
      } else {
        PrintedAllSteps(r.value, es[1..]);
        if ReadingOf(e).Listed? && ReadAll(es[1..]).Ok? {
          var listed, more := [ReadingOf(e).triple], ReadAll(es[1..]).value;
          assert Flushed(s).value + (listed + more) == (Flushed(s).value + listed) + more;
        }
      }
    }
  }

  lemma ReadAllUnfold(es: seq<Entry>)
    ensures es == [] ==> ReadAll(es) == Ok([])
    ensures es != [] ==>
      ReadAll(es) == if ReadingOf(es[0]).Unreadable? || ReadAll(es[1..]).Fatal? then Fatal(NO_REVISION)
                     else if ReadingOf(es[0]).Dropped? then ReadAll(es[1..])
                     else Ok([ReadingOf(es[0]).triple] + ReadAll(es[1..]).value)
  {
    hide ReadingOf;
  }

  lemma PrintedAllUnfold(es: seq<Entry>)
    ensures es == [] ==> PrintedAll(es) == []
    ensures es != [] ==> PrintedAll(es) == Printed(es[0]) + PrintedAll(es[1..])
  {
    hide Printed;
  }

  /** The next entry, or the end of the file, finds the pending dependency without a revision. */
  lemma DoomedEnds(s: State, es: seq<Entry>)
    requires Flushed(s).Fatal?
    ensures Steps(s, PrintedAll(es) + [EOF_MARKER]) == Fatal(NO_REVISION)
  {
    var lines := PrintedAll(es) + [EOF_MARKER];
    if es != [] {
      RepoLine(s, es[0].name);
      assert lines[0] == "  ../" + es[0].name + ":";
    }
    hide PrintedAll, Step, Printed;
    StepsUnfoldFatal(s, lines);
  }

  lemma StepsUnfoldFatal(s: State, lines: seq<string>)
    requires lines != [] && Step(s, lines[0]).Fatal?
    ensures Steps(s, lines) == Step(s, lines[0])
  {
    hide Step;
  }

  lemma EndFlushes(s: State)
    requires Flushed(s).Ok?
    ensures Steps(s, [EOF_MARKER]) == Ok(s.(dependencies := Flushed(s).value))
  {
    StepsOfOne(s, EOF_MARKER);
  }

  /**
   What the reader makes of the printed form of any list of entries: an error if it cannot read
   one of them, and else their triples without the nameless ones.
   */
  lemma ParsedExactly(es: seq<Entry>)
    ensures Parsed(["dependencies:"] + PrintedAll(es)) == ReadAll(es)
  {
    var body := PrintedAll(es) + [EOF_MARKER];
    assert (["dependencies:"] + PrintedAll(es)) + [EOF_MARKER] == ["dependencies:"] + body;
    assert "dependencies:"[0] == 'd';
    assert Step(START, "dependencies:") == Ok(START);
    hide Step, Steps, PrintedAll, ReadAll;
    StepsUnfold(START, ["dependencies:"] + body);
    assert (["dependencies:"] + body)[1..] == body;
    PrintedAllSteps(START, es);
    assert ReadAll(es).Ok? ==> [] + ReadAll(es).value == ReadAll(es).value;
    ReadAllUnfold(es);
  }

  /**
   Round trip: reading the printed form gives back the list, with the last entry, which only the
   end of the file completes, and TRUE where `required` was left out, exactly when every entry is
   printable.
   */
  lemma ParseReadsBack(es: seq<Entry>)
    ensures Parsed(["dependencies:"] + PrintedAll(es)) == Ok(TriplesOf(es)) <==> forall e | e in es :: Printable(e)
  {
    hide *;
    ParsedExactly(es);
    ReadAllExactly(es);
  }

  // ----- taking an entry apart -----

  predicate Plain(s: string) {
    s != "" && '/' !in s
  }

  /** The text up to the first slash. */
  function UpTo(s: string): (r: string)
    ensures '/' !in r && r <= s
    ensures r == s || (|r| < |s| && s[|r|] == '/')
  {
    if s == "" || s[0] == '/' then "" else [s[0]] + UpTo(s[1..])
  }

  lemma {:induction false} UpToSlash(a: string, b: string)
    requires '/' !in a && (b == "" || b[0] == '/')
    ensures UpTo(a + b) == a
  {
    if a == "" {
      assert a + b == b;
    } else {
      assert (a + b)[1..] == a[1..] + b;
      UpToSlash(a[1..], b);
    }
  }

  /** What `/([^/]+)/([^/]+)` takes from a slash at `i`, if it matches there. */
  function GroupsAt(s: string, i: nat): (r: Option<(string, string)>)
    requires i < |s|
    ensures r.Some? ==> Plain(r.value.0) && Plain(r.value.1)
    ensures r.Some? ==> "/" + r.value.0 + "/" + r.value.1 <= s[i..]
  {
    var second := UpTo(s[i + 1..]);
    var k := i + 1 + |second|;
    if s[i] != '/' || second == "" || k == |s| then None
    else
      var third := UpTo(s[k + 1..]);
      assert s[i..] == "/" + second + "/" + s[k + 1..];
      if third == "" then None else Some((second, third))
  }

  /** `(.*)/([^/]+)/([^/]+)`: the first group takes as much as it can. */
  function SplitBefore(s: string, n: nat): (r: Option<(string, string, string)>)
    requires n <= |s|
    ensures r.Some? ==> Plain(r.value.1) && Plain(r.value.2)
  {
    if n == 0 then None
    else if GroupsAt(s, n - 1).Some? then
      Some((s[..n - 1], GroupsAt(s, n - 1).value.0, GroupsAt(s, n - 1).value.1))
    else SplitBefore(s, n - 1)
  }

  /** An entry as the resolver takes it apart, or its internal error. */
  function ToDep(entry: string): Result<Dep> {
    var groups := SplitBefore(entry, |entry|);
    if groups.None? then Fatal("wrong dependency format")
    else Ok(Dep(groups.value.0, groups.value.1, !Falsy(groups.value.2)))
  }

  lemma {:induction false} SplitSkips(s: string, n: nat, i: nat)
    requires i < n <= |s| && GroupsAt(s, i).Some?
    requires forall k | i < k < n :: GroupsAt(s, k).None?
    ensures SplitBefore(s, n) == Some((s[..i], GroupsAt(s, i).value.0, GroupsAt(s, i).value.1))
  {
    hide GroupsAt;
    if n > i + 1 { SplitSkips(s, n - 1, i); }
  }

  lemma GroupsOfTriple(name: string, revision: string, required: string, k: nat)
    requires Plain(revision) && Plain(required)
    requires |name| <= k < |Triple(name, revision, required)|
    ensures GroupsAt(Triple(name, revision, required), k) == if k == |name| then Some((revision, required)) else None
  {
    hide UpTo;
    var s := Triple(name, revision, required);
    var tail := "/" + required;
    assert s == name + "/" + revision + tail;
    if k == |name| {
      assert s[k + 1..] == revision + tail;
      UpToSlash(revision, tail);
      assert s[k + 1 + |revision| + 1..] == required == required + "";
      UpToSlash(required, "");
    } else if k < |name| + 1 + |revision| {
      assert s[k] == revision[k - |name| - 1];
    } else if k == |name| + 1 + |revision| {
      assert s[k + 1..] == required == required + "";
      UpToSlash(required, "");
    } else {
      assert s[k] == required[k - |name| - |revision| - 2];
    }
  }

  /**
   An entry is taken apart again into what it was made of exactly when revision and required are
   not empty and hold no slash, whatever the name.
   */
  lemma SplitTripleExactly(name: string, revision: string, required: string)
    ensures var s := Triple(name, revision, required);
            SplitBefore(s, |s|) == Some((name, revision, required)) <==> Plain(revision) && Plain(required)
  {
    var s := Triple(name, revision, required);
    if Plain(revision) && Plain(required) {
      forall k | |name| <= k < |s|
        ensures GroupsAt(s, k) == if k == |name| then Some((revision, required)) else None
      {
        GroupsOfTriple(name, revision, required, k);
      }
      SplitSkips(s, |s|, |name|);
      assert s[..|name|] == name;
    }
  }

  /**
   The filter for optional dependencies splits an entry at every slash and takes the third part for
   `required`. It is exactly when the name has no slash that there are three parts, the last of them
   `required`; with one slash the third part is the revision, and with more a part of the name.
   */
  lemma FilterReadsThirdPart(name: string, revision: string, required: string)
    requires Plain(revision) && Plain(required)
    ensures var parts, names := SplitRest(Triple(name, revision, required), '/'), SplitRest(name, '/');
            && parts == names + [revision, required]
            && (|parts| == 3 <==> '/' !in name)
            && parts[2] == if '/' !in name then required else if |names| == 2 then revision else names[2]
  {
    hide SplitRest;
    assert Triple(name, revision, required) == name + "/" + (revision + "/" + required);
    SplitRestConcat(name, revision + "/" + required, '/');
    assert SplitRest(required, '/') == [required] by { SplitRestOfPrefix(required, "", '/'); }
    SplitRestOfPrefix(revision, required, '/');
    OnePartExactly(name, '/');
  }

  lemma UpperStaysPlain(s: string)
    requires Plain(s)
    ensures Plain(ToUpper(s))
  {
  }

  /**
   From the file to the resolver: the dependencies of a printed file are taken apart into the
   entries that were printed, provided their refs and `required` values hold no slash.
   */
  lemma FileToDependencies(es: seq<Entry>, i: nat)
    requires i < |es| && forall e | e in es :: Printable(e)
    requires Plain(es[i].revision) && (es[i].required.Some? ==> Plain(es[i].required.value))
    ensures var r := Parsed(["dependencies:"] + PrintedAll(es));
            && r.Ok? && |r.value| == |es|
            && ToDep(r.value[i]) == Ok(Dep(es[i].name, es[i].revision,
                 es[i].required.None? || !Falsy(ToUpper(es[i].required.value))))
  {
    hide Parsed, PrintedAll, Printable;
    ParseReadsBack(es);
    var e := es[i];
    var required := if e.required.None? then "TRUE" else ToUpper(e.required.value);
    if e.required.Some? { UpperStaysPlain(e.required.value); }
    SplitTripleExactly(e.name, e.revision, required);
    assert !Falsy("TRUE") by { assert ToUpper("TRUE")[0] == 'T'; }
  }

  /** Which values of `required` make a dependency an optional one; they are put in capitals before they are tested. */
  lemma OptionalExactly(value: string)
    ensures Falsy(ToUpper(value)) <==>
            || value == "" || value == "0"
            || Spells(value, "OFF") || Spells(value, "NO") || Spells(value, "FALSE")
            || Spells(value, "N") || Spells(value, "IGNORE") || Spells(value, "NOTFOUND")
            || exists k | 0 <= k <= |value| :: Spells(value[k..], "-NOTFOUND")
  {
    var upper, end := ToUpper(value), "-NOTFOUND";
    FalsyExactly(upper);
    assert Spells(value, "") <==> value == "";
    assert Spells(value, "0") <==> value == "0";
    hide Falsy, Spells, ToUpper, EndsWith;
    SpelledInCapitals(value, "");
    SpelledInCapitals(value, "0");
    SpelledInCapitals(value, "OFF");
    SpelledInCapitals(value, "NO");
    SpelledInCapitals(value, "FALSE");
    SpelledInCapitals(value, "N");
    SpelledInCapitals(value, "IGNORE");
    SpelledInCapitals(value, "NOTFOUND");
    if front :| upper == front + end {
      assert upper[|front|..] == end;
      SpelledAtEnd(value, |front|);
    }
    if k :| 0 <= k <= |value| && Spells(value[k..], end) {
      SpelledAtEnd(value, k);
      assert upper == upper[..k] + end;
    }
  }

  lemma SpelledAtEnd(value: string, k: nat)
    requires k <= |value|
    ensures ToUpper(value)[k..] == "-NOTFOUND" <==> Spells(value[k..], "-NOTFOUND")
  {
    assert ToUpper(value)[k..] == ToUpper(value[k..]);
    SpelledExactly(value[k..], "-NOTFOUND");
  }

  lemma SpelledInCapitals(value: string, word: string)
    requires forall i | 0 <= i < |word| :: !('a' <= word[i] <= 'z')
    ensures Spells(ToUpper(value), word) <==> Spells(value, word)
    ensures ToUpper(value) == word <==> Spells(value, word)
  {
    SpelledExactly(value, word);
    SpelledExactly(ToUpper(value), word);
    assert ToUpper(ToUpper(value)) == ToUpper(value);
  }

  /** A line of the file that looks like the end marker completes the pending entry, which the end then lists again. */
  lemma MarkerRepeats(name: string, revision: string)
    requires Printable(Entry(name, revision, None))
    ensures Parsed(["dependencies:", "  ../" + name + ":", "    ref: " + revision, "---EOF---"]) ==
            Ok([name + "/" + revision + "/TRUE", name + "/" + revision + "/TRUE"])
  {
    var named, whole := State([], name, "", "TRUE"), State([], name, revision, "TRUE");
    var triple := name + "/" + revision + "/TRUE";
    assert Step(START, "dependencies:") == Ok(START) by { assert "dependencies:"[0] == 'd'; }
    RepoLine(START, name);
    RefLine(named, revision);
    assert Triple(name, revision, "TRUE") == triple;
    assert [] + [triple] == [triple] && [triple] + [triple] == [triple, triple];
    hide Step, Steps;
    MarkerStep(whole);
    MarkerStep(whole.(dependencies := [triple]));
    var lines := ["dependencies:", "  ../" + name + ":", "    ref: " + revision, "---EOF---"] + ["---EOF---"];
    FourSteps(START, lines, START, named, whole, whole.(dependencies := [triple]));
    StepsOfOne(whole.(dependencies := [triple]), "---EOF---");
    assert lines[4..] == ["---EOF---"];
  }

  lemma MarkerStep(s: State)
    requires s.dependency != "" && s.revision != ""
    ensures Step(s, "---EOF---") == Ok(s.(dependencies := s.dependencies + [Triple(s.dependency, s.revision, s.required)]))
  {
  }

  lemma FourSteps(s: State, lines: seq<string>, a: State, b: State, c: State, d: State)
    requires |lines| >= 4 && Step(s, lines[0]) == Ok(a) && Step(a, lines[1]) == Ok(b)
    requires Step(b, lines[2]) == Ok(c) && Step(c, lines[3]) == Ok(d)
    ensures Steps(s, lines) == Steps(d, lines[4..])
  {
    hide Step;
    assert lines[1..][1..] == lines[2..] && lines[2..][1..] == lines[3..] && lines[3..][1..] == lines[4..];
    assert Steps(b, lines[2..]) == Steps(c, lines[3..]);
    assert Steps(a, lines[1..]) == Steps(b, lines[2..]);
  }
}
