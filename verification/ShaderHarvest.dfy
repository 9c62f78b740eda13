/** Putting shader sources back together from the chunks that a driver logs. */
module ShaderHarvest {
  import opened CMakeList
  import opened LogLines
  import opened Results

  type Sha = string

  /** A line of the log, by its fields. */
  datatype Line =
    | Chunk(sha: Sha, line: nat, chunk: nat, text: string)
    | End(sha: Sha, lines: nat, bytes: nat)
    | Other

  datatype Key = Key(sha: Sha, line: nat, chunk: nat)

  /** The trailing carriage returns go, and nothing else. */
  function WithoutCr(s: string): (r: string)
    ensures r <= s && (forall i | |r| <= i < |s| :: s[i] == '\r') && (r == "" || r[|r| - 1] != '\r')
    ensures r == s <==> s == "" || s[|s| - 1] != '\r'
  {
    if s != "" && s[|s| - 1] == '\r' then WithoutCr(s[..|s| - 1]) else s
  }

  // ----- collecting -----

  function ChunkEntry(line: Line): Option<(Key, string)> {
    if line.Chunk? then Some((Key(line.sha, line.line, line.chunk), WithoutCr(line.text))) else None
  }

  function EndEntry(line: Line): Option<(Sha, (nat, nat))> {
    if line.End? then Some((line.sha, (line.lines, line.bytes))) else None
  }

  function ChunkEntries(log: seq<Line>): (r: seq<Option<(Key, string)>>)
    ensures |r| == |log| && forall i | 0 <= i < |log| :: r[i] == ChunkEntry(log[i])
  {
    seq(|log|, i requires 0 <= i < |log| => ChunkEntry(log[i]))
  }

  function EndEntries(log: seq<Line>): (r: seq<Option<(Sha, (nat, nat))>>)
    ensures |r| == |log| && forall i | 0 <= i < |log| :: r[i] == EndEntry(log[i])
  {
    seq(|log|, i requires 0 <= i < |log| => EndEntry(log[i]))
  }

  method Collect(log: seq<Line>) returns (chunks: map<Key, string>, ends: map<Sha, (nat, nat)>)
    ensures chunks == Collected(ChunkEntries(log)) && ends == Collected(EndEntries(log))
  {
    chunks, ends := map[], map[];
    var i := 0;
    while i < |log|
      invariant 0 <= i <= |log|
      invariant chunks == Collected(ChunkEntries(log[..i])) && ends == Collected(EndEntries(log[..i]))
    {
      assert ChunkEntries(log[..i + 1])[..i] == ChunkEntries(log[..i]);
      assert EndEntries(log[..i + 1])[..i] == EndEntries(log[..i]);
      match log[i] {
        case Chunk(sha, line, chunk, text) => chunks := chunks[Key(sha, line, chunk) := WithoutCr(text)];
        case End(sha, lines, bytes) => ends := ends[sha := (lines, bytes)];
        case Other =>
      }
      i := i + 1;
    }
    assert log[..i] == log;
  }

  // ----- reassembling -----

  /** The numbers of the chunks of a line. */
  function Numbers(chunks: map<Key, string>, sha: Sha, line: nat): set<nat> {
    set key | key in chunks && key.sha == sha && key.line == line :: key.chunk
  }

  function UpTo(n: nat): (s: set<nat>)
    ensures |s| == n
    ensures forall i: nat :: i in s <==> i < n
  {
    if n == 0 then {} else UpTo(n - 1) + {n - 1}
  }

  /** The chunks are numbered from zero on without a gap, and there is one. */
  predicate Complete(chunks: map<Key, string>, sha: Sha, line: nat) {
    var numbers := Numbers(chunks, sha, line);
    numbers != {} && numbers == UpTo(|numbers|)
  }

  /** Chunks `0..n` of a line, joined. */
  function Glued(chunks: map<Key, string>, sha: Sha, line: nat, n: nat): string
    requires forall i | 0 <= i < n :: Key(sha, line, i) in chunks
  {
    if n == 0 then "" else Glued(chunks, sha, line, n - 1) + chunks[Key(sha, line, n - 1)]
  }

  lemma CompleteHolds(chunks: map<Key, string>, sha: Sha, line: nat)
    requires Complete(chunks, sha, line)
    ensures forall i | 0 <= i < |Numbers(chunks, sha, line)| :: Key(sha, line, i) in chunks
  {
    var numbers := Numbers(chunks, sha, line);
    forall i | 0 <= i < |numbers|
      ensures Key(sha, line, i) in chunks
    {
      assert i in UpTo(|numbers|);
      assert i in numbers;
    }
  }

  /** The text of a line, if its chunks are complete. */
  function LineText(chunks: map<Key, string>, sha: Sha, line: nat): Option<string> {
    if !Complete(chunks, sha, line) then None
    else
      CompleteHolds(chunks, sha, line);
      Some(Glued(chunks, sha, line, |Numbers(chunks, sha, line)|))
  }

  /** The first `n` lines, or nothing if one of them is not complete. */
  function Lines(chunks: map<Key, string>, sha: Sha, n: nat): Option<seq<string>> {
    if n == 0 then Some([])
    else
      var earlier, last := Lines(chunks, sha, n - 1), LineText(chunks, sha, n - 1);
      if earlier.None? || last.None? then None else Some(earlier.value + [last.value])
  }

  function Body(lines: seq<string>): string {
    Join(lines, '\n')
  }

  /** The rebuilt source: of the two candidates the one with the logged length, if its hash is right. */
  function Candidate(body: string, bytes: nat, full: string, hash: string -> string): Option<string> {
    if |body + "\n"| == bytes && hash(body + "\n") == full then Some(body + "\n")
    else if |body| == bytes && hash(body) == full then Some(body)
    else None
  }

  function Harvested(log: seq<Line>, sha: Sha, full: string, hash: string -> string): Option<string> {
    var chunks, ends := Collected(ChunkEntries(log)), Collected(EndEntries(log));
    if sha !in ends then None
    else
      var lines := Lines(chunks, sha, ends[sha].0);
      if lines.None? then None else Candidate(Body(lines.value), ends[sha].1, full, hash)
  }

  method Glue(chunks: map<Key, string>, sha: Sha, line: nat) returns (text: Option<string>)
    ensures text == LineText(chunks, sha, line)
  {
    hide Complete, Numbers;
    if !Complete(chunks, sha, line) {
      return None;
    }
    CompleteHolds(chunks, sha, line);
    var numbers, t, i := Numbers(chunks, sha, line), "", 0;
    while i < |numbers|
      invariant 0 <= i <= |numbers| && t == Glued(chunks, sha, line, i)
    {
      t := t + chunks[Key(sha, line, i)];
      i := i + 1;
    }
    return Some(t);
  }

  method Harvest(log: seq<Line>, sha: Sha, full: string, hash: string -> string) returns (source: Option<string>)
    ensures source == Harvested(log, sha, full, hash)
  {
    hide LineText, Body, Collected;
    var chunks, ends := Collect(log);
    if sha !in ends {
      return None;
    }
    var nlines, nbytes := ends[sha].0, ends[sha].1;
    var textLines, ln := [], 0;
    while ln < nlines
      invariant 0 <= ln <= nlines && Lines(chunks, sha, ln) == Some(textLines)
    {
      var text := Glue(chunks, sha, ln);
      if text.None? {
        MissingStays(chunks, sha, ln, nlines);
        return None;
      }
      textLines := textLines + [text.value];
      ln := ln + 1;
    }
    var body := Body(textLines);
    if |body + "\n"| == nbytes && hash(body + "\n") == full {
      return Some(body + "\n");
    }
    if |body| == nbytes && hash(body) == full {
      return Some(body);
    }
    return None;
  }

  lemma {:induction false} MissingStays(chunks: map<Key, string>, sha: Sha, line: nat, n: nat)
    requires line < n && LineText(chunks, sha, line).None?
    ensures Lines(chunks, sha, n) == None
  {
    hide LineText;
    if n > line + 1 { MissingStays(chunks, sha, line, n - 1); }
  }

  /** A source is rebuilt exactly when every line has its chunks numbered without a gap. */
  lemma {:induction false} RebuiltExactly(chunks: map<Key, string>, sha: Sha, n: nat)
    ensures Lines(chunks, sha, n).Some? <==> forall line | 0 <= line < n :: Complete(chunks, sha, line)
    ensures Lines(chunks, sha, n).Some? ==> |Lines(chunks, sha, n).value| == n
  {
    hide Complete;
    if n > 0 { RebuiltExactly(chunks, sha, n - 1); }
  }

  // ----- what it guarantees -----

  /** Logs with the same chunk and end lines, in whatever order and with whatever between them, rebuild the same. */
  lemma InterleavingDoesNotMatter(a: seq<Line>, b: seq<Line>, sha: Sha, full: string, hash: string -> string)
    requires DistinctKeys(ChunkEntries(a)) && DistinctKeys(ChunkEntries(b))
    requires DistinctKeys(EndEntries(a)) && DistinctKeys(EndEntries(b))
    requires (forall l | l in a && !l.Other? :: l in b) && forall l | l in b && !l.Other? :: l in a
    ensures Harvested(a, sha, full, hash) == Harvested(b, sha, full, hash)
  {
    hide DistinctKeys, Collected;
    EntriesOf(a, b);
    EntriesOf(b, a);
    OrderDoesNotMatter(ChunkEntries(a), ChunkEntries(b));
    OrderDoesNotMatter(EndEntries(a), EndEntries(b));
  }

  lemma EntriesOf(a: seq<Line>, b: seq<Line>)
    requires forall l | l in a && !l.Other? :: l in b
    ensures forall e | e in ChunkEntries(a) && e.Some? :: e in ChunkEntries(b)
    ensures forall e | e in EndEntries(a) && e.Some? :: e in EndEntries(b)
  {
    var chunksOfA, endsOfA := ChunkEntries(a), EndEntries(a);
    forall e | e in chunksOfA && e.Some?
      ensures e in ChunkEntries(b)
    {
      var i :| 0 <= i < |chunksOfA| && chunksOfA[i] == e;
      assert a[i] in b;
      var j :| 0 <= j < |b| && b[j] == a[i];
      assert ChunkEntries(b)[j] == e;
    }
    forall e | e in endsOfA && e.Some?
      ensures e in EndEntries(b)
    {
      var i :| 0 <= i < |endsOfA| && endsOfA[i] == e;
      assert a[i] in b;
      var j :| 0 <= j < |b| && b[j] == a[i];
      assert EndEntries(b)[j] == e;
    }
  }

  /** The pieces of a line, joined. */
  function Concat(pieces: seq<string>): string {
    if pieces == [] then "" else Concat(pieces[..|pieces| - 1]) + pieces[|pieces| - 1]
  }

  function Texts(pieces: seq<seq<string>>): (r: seq<string>)
    ensures |r| == |pieces| && forall l | 0 <= l < |pieces| :: r[l] == Concat(pieces[l])
  {
    seq(|pieces|, l requires 0 <= l < |pieces| => Concat(pieces[l]))
  }

  function Trimmed(pieces: seq<string>): (r: seq<string>)
    ensures |r| == |pieces| && forall c | 0 <= c < |pieces| :: r[c] == WithoutCr(pieces[c])
  {
    seq(|pieces|, c requires 0 <= c < |pieces| => WithoutCr(pieces[c]))
  }

  function AllTrimmed(pieces: seq<seq<string>>): (r: seq<seq<string>>)
    ensures |r| == |pieces| && forall l | 0 <= l < |pieces| :: r[l] == Trimmed(pieces[l])
  {
    seq(|pieces|, l requires 0 <= l < |pieces| => Trimmed(pieces[l]))
  }

  /** The log shows line `l` of a source in these pieces, at least one, and no other chunk of the line. */
  ghost predicate Shows(log: seq<Line>, sha: Sha, l: nat, pieces: seq<string>) {
    && pieces != []
    && (forall c | 0 <= c < |pieces| :: Chunk(sha, l, c, pieces[c]) in log)
    && (forall line | line in log && line.Chunk? && line.sha == sha && line.line == l :: line.chunk < |pieces|)
  }

  /** And so for all lines of the source. */
  ghost predicate ShowsAll(log: seq<Line>, sha: Sha, pieces: seq<seq<string>>) {
    forall l | 0 <= l < |pieces| :: Shows(log, sha, l, pieces[l])
  }

  lemma ShownIsHeld(log: seq<Line>, sha: Sha, l: nat, pieces: seq<string>, c: nat)
    requires DistinctKeys(ChunkEntries(log)) && Shows(log, sha, l, pieces) && c < |pieces|
    ensures var chunks := Collected(ChunkEntries(log));
            Key(sha, l, c) in chunks && chunks[Key(sha, l, c)] == WithoutCr(pieces[c])
  {
    hide Collected, DistinctKeys, WithoutCr;
    var line := Chunk(sha, l, c, pieces[c]);
    assert line in log;
    var i :| 0 <= i < |log| && log[i] == line;
    assert ChunkEntries(log)[i] == ChunkEntry(line);
    HoldsExactly(ChunkEntries(log), Key(sha, l, c), WithoutCr(pieces[c]));
  }

  lemma HeldIsShown(log: seq<Line>, sha: Sha, l: nat, pieces: seq<string>, c: nat)
    requires DistinctKeys(ChunkEntries(log)) && Shows(log, sha, l, pieces)
    requires Key(sha, l, c) in Collected(ChunkEntries(log))
    ensures c < |pieces|
  {
    hide Collected, DistinctKeys, WithoutCr;
    var entries, key := ChunkEntries(log), Key(sha, l, c);
    HoldsExactly(entries, key, Collected(entries)[key]);
    var i :| 0 <= i < |entries| && entries[i] == Some((key, Collected(entries)[key]));
    assert log[i] in log;
  }

  /** A line that is shown is put together from its pieces. */
  lemma LineIsRebuilt(log: seq<Line>, sha: Sha, l: nat, pieces: seq<string>)
    requires DistinctKeys(ChunkEntries(log)) && Shows(log, sha, l, pieces)
    ensures LineText(Collected(ChunkEntries(log)), sha, l) == Some(Concat(Trimmed(pieces)))
  {
    hide Collected, DistinctKeys, WithoutCr;
    var chunks := Collected(ChunkEntries(log));
    forall c | 0 <= c < |pieces|
      ensures Key(sha, l, c) in chunks && chunks[Key(sha, l, c)] == Trimmed(pieces)[c]
    {
      ShownIsHeld(log, sha, l, pieces, c);
    }
    forall key | key in chunks && key.sha == sha && key.line == l
      ensures key.chunk < |pieces|
    {
      assert key == Key(sha, l, key.chunk);
      HeldIsShown(log, sha, l, pieces, key.chunk);
    }
    hide Shows;
    NumbersAre(chunks, sha, l, |pieces|);
    GluedIsConcat(chunks, sha, l, Trimmed(pieces), |pieces|);
    assert Trimmed(pieces)[..|pieces|] == Trimmed(pieces);
  }

  lemma NumbersAre(chunks: map<Key, string>, sha: Sha, l: nat, n: nat)
    requires forall c | 0 <= c < n :: Key(sha, l, c) in chunks
    requires forall key | key in chunks && key.sha == sha && key.line == l :: key.chunk < n
    ensures Numbers(chunks, sha, l) == UpTo(n) && |UpTo(n)| == n
  {
    forall c: nat
      ensures c in Numbers(chunks, sha, l) <==> c < n
    {
      if c < n { assert Key(sha, l, c) in chunks; }
    }
  }

  lemma {:induction false} GluedIsConcat(chunks: map<Key, string>, sha: Sha, l: nat, pieces: seq<string>, n: nat)
    requires n <= |pieces|
    requires forall c | 0 <= c < |pieces| :: Key(sha, l, c) in chunks && chunks[Key(sha, l, c)] == pieces[c]
    ensures Glued(chunks, sha, l, n) == Concat(pieces[..n])
  {
    if n > 0 {
      GluedIsConcat(chunks, sha, l, pieces, n - 1);
      assert pieces[..n][..n - 1] == pieces[..n - 1];
    }
  }

  lemma {:induction false} LinesAreRebuilt(log: seq<Line>, sha: Sha, pieces: seq<seq<string>>, n: nat)
    requires DistinctKeys(ChunkEntries(log)) && ShowsAll(log, sha, pieces) && n <= |pieces|
    ensures Lines(Collected(ChunkEntries(log)), sha, n) == Some(Texts(AllTrimmed(pieces))[..n])
  {
    hide Collected, DistinctKeys, Shows, LineText, Concat, Trimmed;
    if n > 0 {
      LinesAreRebuilt(log, sha, pieces, n - 1);
      LineIsRebuilt(log, sha, n - 1, pieces[n - 1]);
      assert Texts(AllTrimmed(pieces))[..n] == Texts(AllTrimmed(pieces))[..n - 1] + [Concat(Trimmed(pieces[n - 1]))];
    }
  }

  /** No piece ends in a carriage return. */
  predicate Unreturned(pieces: seq<string>) {
    forall c | 0 <= c < |pieces| :: pieces[c] == "" || pieces[c][|pieces[c]| - 1] != '\r'
  }

  lemma {:induction false} TrimmedKeepsExactly(pieces: seq<string>)
    ensures |Concat(Trimmed(pieces))| <= |Concat(pieces)|
    ensures Concat(Trimmed(pieces)) == Concat(pieces) <==> Unreturned(pieces)
  {
    hide WithoutCr;
    if pieces != [] {
      var n := |pieces| - 1;
      var earlier, last := pieces[..n], pieces[n];
      TrimmedKeepsExactly(earlier);
      assert Trimmed(pieces)[..n] == Trimmed(earlier);
      assert Unreturned(pieces) <==> Unreturned(earlier) && (last == "" || last[|last| - 1] != '\r');
      var a, b := Concat(Trimmed(earlier)), Concat(earlier);
      assert Concat(Trimmed(pieces)) == a + WithoutCr(last) && Concat(pieces) == b + last;
      if WithoutCr(last) == last {
        SameEnd(a, b, last);
      } else {
        assert |a + WithoutCr(last)| < |b + last|;
      }
    }
  }

  lemma SameEnd(a: string, b: string, end: string)
    ensures a + end == b + end <==> a == b
  {
    assert (a + end)[..|a|] == a && (b + end)[..|b|] == b;
    if a + end == b + end { assert |a| == |b|; }
  }

  /**
   However its lines are split into consecutively numbered chunks, and however those are interleaved
   with other output, the lines of a source come back exactly when no chunk ends in a carriage return.
   */
  lemma SplittingDoesNotMatter(log: seq<Line>, sha: Sha, pieces: seq<seq<string>>)
    requires DistinctKeys(ChunkEntries(log)) && ShowsAll(log, sha, pieces)
    ensures Lines(Collected(ChunkEntries(log)), sha, |pieces|) == Some(Texts(pieces))
            <==> forall l | 0 <= l < |pieces| :: Unreturned(pieces[l])
  {
    hide Collected, DistinctKeys, ShowsAll, Concat, Trimmed, Lines, Unreturned;
    LinesAreRebuilt(log, sha, pieces, |pieces|);
    forall l | 0 <= l < |pieces|
      ensures Texts(AllTrimmed(pieces))[l] == Texts(pieces)[l] <==> Unreturned(pieces[l])
    {
      TrimmedKeepsExactly(pieces[l]);
    }
    var rebuilt, texts := Texts(AllTrimmed(pieces)), Texts(pieces);
    assert rebuilt[..|pieces|] == rebuilt;
    assert rebuilt == texts <==> forall l | 0 <= l < |pieces| :: rebuilt[l] == texts[l];
    assert forall l | 0 <= l < |pieces| :: rebuilt[l] == texts[l] <==> Unreturned(pieces[l]);
  }

  /**
   What is harvested from a log that shows a source: exactly the text, with or without a newline at
   its end, that has the logged length and the wanted hash.
   */
  lemma HarvestedExactly(log: seq<Line>, sha: Sha, pieces: seq<seq<string>>, bytes: nat, source: string, full: string,
                         hash: string -> string)
    requires DistinctKeys(ChunkEntries(log)) && DistinctKeys(EndEntries(log)) && ShowsAll(log, sha, pieces)
    requires forall l | 0 <= l < |pieces| :: Unreturned(pieces[l])
    requires End(sha, |pieces|, bytes) in log
    ensures Harvested(log, sha, full, hash) == Some(source)
            <==>
            && (source == Body(Texts(pieces)) || source == Body(Texts(pieces)) + "\n")
            && |source| == bytes && hash(source) == full
  {
    hide Collected, DistinctKeys, ShowsAll, Unreturned, Lines, Body;
    SplittingDoesNotMatter(log, sha, pieces);
    var i :| 0 <= i < |log| && log[i] == End(sha, |pieces|, bytes);
    assert EndEntries(log)[i] == Some((sha, (|pieces|, bytes)));
    HoldsExactly(EndEntries(log), sha, (|pieces|, bytes));
  }

  /**
   From the source to the harvest: if the lines between the newlines of `text` are shown, harvested is
   `text` itself or `text` with a final newline, whichever has the logged length and the wanted hash.
   */
  lemma SourceIsHarvested(log: seq<Line>, sha: Sha, text: string, pieces: seq<seq<string>>, bytes: nat, source: string,
                          full: string, hash: string -> string)
    requires DistinctKeys(ChunkEntries(log)) && DistinctKeys(EndEntries(log)) && ShowsAll(log, sha, pieces)
    requires forall l | 0 <= l < |pieces| :: Unreturned(pieces[l])
    requires End(sha, |pieces|, bytes) in log
    requires Texts(pieces) == SplitRest(text, '\n')
    ensures Harvested(log, sha, full, hash) == Some(source)
            <==> (source == text || source == text + "\n") && |source| == bytes && hash(source) == full
  {
    JoinSplit(text, '\n');
    assert Body(Texts(pieces)) == text;
    hide Harvested, DistinctKeys, ShowsAll, Unreturned, Body;
    HarvestedExactly(log, sha, pieces, bytes, source, full, hash);
  }

  /** Nothing is harvested from a log that lacks a chunk of some line, whatever the hash. */
  lemma GapsHarvestNothing(log: seq<Line>, sha: Sha, full: string, hash: string -> string, line: nat)
    requires sha in Collected(EndEntries(log)) && line < Collected(EndEntries(log))[sha].0
    requires !Complete(Collected(ChunkEntries(log)), sha, line)
    ensures Harvested(log, sha, full, hash) == None
  {
    hide Collected, Lines, Complete, Body;
    RebuiltExactly(Collected(ChunkEntries(log)), sha, Collected(EndEntries(log))[sha].0);
  }
}
