/** The CMake list commands and truth values that the scripts rely on. */
module CMakeList {
  /** list(FIND): the first index of `x`, or -1. */
  function Find<T(==)>(l: seq<T>, x: T): (i: int)
    ensures -1 <= i < |l|
    ensures i >= 0 ==> l[i] == x && x !in l[..i]
    ensures i == -1 <==> x !in l
  {
    if l == [] then -1
    else if l[0] == x then 0
    else
      var r := Find(l[1..], x);
      assert l == [l[0]] + l[1..];
      if r == -1 then -1 else
        assert l[..r + 1] == [l[0]] + l[1..][..r];
        r + 1
  }

  /** list(REMOVE_ITEM): every element that is one of `xs` goes. */
  function RemoveItems(l: seq<string>, xs: seq<string>): seq<string> {
    if l == [] then []
    else if l[0] in xs then RemoveItems(l[1..], xs)
    else [l[0]] + RemoveItems(l[1..], xs)
  }

  lemma {:induction false} InRemoveItems(l: seq<string>, xs: seq<string>, x: string)
    ensures x in RemoveItems(l, xs) <==> x in l && x !in xs
  {
    if l != [] { InRemoveItems(l[1..], xs, x); }
  }

  /** list(REMOVE_DUPLICATES): the first of equal elements stays. */
  function RemoveDuplicates(l: seq<string>): (r: seq<string>)
    ensures forall x :: x in r <==> x in l
    ensures forall i, j | 0 <= i < j < |r| :: r[i] != r[j]
  {
    if l == [] then []
    else
      var last, r := l[|l| - 1], RemoveDuplicates(l[..|l| - 1]);
      assert l == l[..|l| - 1] + [last];
      if last in r then r else r + [last]
  }

  lemma {:induction false} DistinctStays(l: seq<string>)
    requires forall i, j | 0 <= i < j < |l| :: l[i] != l[j]
    ensures RemoveDuplicates(l) == l
  {
    if l != [] {
      DistinctStays(l[..|l| - 1]);
      assert l == l[..|l| - 1] + [l[|l| - 1]];
    }
  }

  /** Whatever follows, what a prefix leaves is left in front: so it is the first of equal elements that stays. */
  lemma {:induction false} FirstStays(l: seq<string>, i: nat)
    requires i <= |l|
    ensures RemoveDuplicates(l[..i]) <= RemoveDuplicates(l)
    decreases |l|
  {
    if i == |l| {
      assert l[..i] == l;
    } else {
      assert l[..|l| - 1][..i] == l[..i];
      FirstStays(l[..|l| - 1], i);
    }
  }

  lemma {:induction false} RemoveItemsConcat(a: seq<string>, b: seq<string>, xs: seq<string>)
    ensures RemoveItems(a + b, xs) == RemoveItems(a, xs) + RemoveItems(b, xs)
  {
    if a == [] {
      assert a + b == b;
    } else {
      assert (a + b)[1..] == a[1..] + b;
      RemoveItemsConcat(a[1..], b, xs);
    }
  }

  lemma {:induction false} RemoveNothing(l: seq<string>, xs: seq<string>)
    requires forall x | x in l :: x !in xs
    ensures RemoveItems(l, xs) == l
  {
    if l != [] { RemoveNothing(l[1..], xs); }
  }

  /** Removing an element that occurs once. */
  lemma RemoveTheOne(a: seq<string>, x: string, b: seq<string>)
    requires x !in a && x !in b
    ensures RemoveItems(a + [x] + b, [x]) == a + b
  {
    RemoveSingle(x);
    hide RemoveItems;
    RemoveItemsConcat(a + [x], b, [x]);
    RemoveItemsConcat(a, [x], [x]);
    RemoveNothing(a, [x]);
    RemoveNothing(b, [x]);
  }

  lemma RemoveSingle(x: string)
    ensures RemoveItems([x], [x]) == []
  {
  }

  function ToUpperChar(c: char): char {
    if 'a' <= c <= 'z' then ((c as int) - 32) as char else c
  }

  /** string(TOUPPER), for ASCII. */
  function ToUpper(s: string): (r: string)
    ensures |r| == |s|
  {
    seq(|s|, i requires 0 <= i < |s| => ToUpperChar(s[i]))
  }

  /** The values that `if(<variable>)` takes for false. */
  predicate Falsy(value: string) {
    || ToUpper(value) in ["", "0", "OFF", "NO", "FALSE", "N", "IGNORE"]
    || value == "NOTFOUND" || EndsWith(value, "-NOTFOUND")
  }

  /** The same for a list, whose value is its elements joined by semicolons. */
  predicate FalsyList(l: seq<string>) {
    if |l| <= 1 then l == [] || Falsy(l[0]) else EndsWith(l[|l| - 1], "-NOTFOUND")
  }

  predicate EndsWith(s: string, suffix: string) {
    |suffix| <= |s| && s[|s| - |suffix|..] == suffix
  }

  /** `value` is the upper-case word `word`, in any mixture of cases. */
  predicate Spells(value: string, word: string) {
    && |value| == |word|
    && forall i | 0 <= i < |word| :: value[i] == word[i] || ('A' <= word[i] <= 'Z' && value[i] as int == word[i] as int + 32)
  }

  lemma SpelledExactly(value: string, word: string)
    requires forall i | 0 <= i < |word| :: !('a' <= word[i] <= 'z')
    ensures ToUpper(value) == word <==> Spells(value, word)
  {
    if |value| == |word| {
      assert ToUpper(value) == word <==> forall i | 0 <= i < |word| :: ToUpper(value)[i] == word[i];
      forall i | 0 <= i < |word|
        ensures ToUpper(value)[i] == word[i] <==>
                value[i] == word[i] || ('A' <= word[i] <= 'Z' && value[i] as int == word[i] as int + 32)
      {
      }
    }
  }

  /** The false values: nothing, 0, five words in any case, and NOTFOUND, alone or behind a dash, in capitals. */
  lemma FalsyExactly(value: string)
    ensures Falsy(value) <==>
            || value == "" || value == "0"
            || Spells(value, "OFF") || Spells(value, "NO") || Spells(value, "FALSE")
            || Spells(value, "N") || Spells(value, "IGNORE")
            || value == "NOTFOUND" || exists front :: value == front + "-NOTFOUND"
  {
    SpelledExactly(value, "");
    SpelledExactly(value, "0");
    SpelledExactly(value, "OFF");
    SpelledExactly(value, "NO");
    SpelledExactly(value, "FALSE");
    SpelledExactly(value, "N");
    SpelledExactly(value, "IGNORE");
    EndsExactly(value, "-NOTFOUND");
    hide ToUpper, EndsWith;
  }

  lemma EndsExactly(s: string, suffix: string)
    ensures EndsWith(s, suffix) <==> exists front :: s == front + suffix
  {
    if EndsWith(s, suffix) { assert s == s[..|s| - |suffix|] + suffix; }
  }

  /** A list reads as false when it is empty, when its one element does, or when the last of several ends in -NOTFOUND. */
  lemma FalsyListExactly(init: seq<string>, last: string)
    ensures FalsyList([])
    ensures FalsyList([last]) <==> Falsy(last)
    ensures init != [] ==> (FalsyList(init + [last]) <==> exists front :: last == front + "-NOTFOUND")
  {
    EndsExactly(last, "-NOTFOUND");
    hide Falsy, EndsWith;
  }

  /** A list with one empty element is the empty list. */
  function Canonical(l: seq<string>): seq<string> {
    if l == [""] then [] else l
  }

  /** list(APPEND) with a quoted list: an empty one adds an empty element, unless there is nothing yet. */
  function AppendQuoted(l: seq<string>, more: seq<string>): seq<string> {
    Canonical(l + if more == [] then [""] else more)
  }

  lemma InAppendQuoted(l: seq<string>, more: seq<string>, x: string)
    requires x != ""
    ensures x in AppendQuoted(l, more) <==> x in l || x in more
  {
    var r := l + if more == [] then [""] else more;
    assert x in r <==> x in l || x in more;
    assert r == [""] ==> x !in r;
  }

  /** list(REMOVE_ITEM) with a quoted list: it is one value, equal to no element when it has several. */
  function RemoveQuoted(l: seq<string>, items: seq<string>): seq<string> {
    if |items| >= 2 then l else RemoveItems(l, if items == [] then [""] else items)
  }

  /** Quoting makes a difference exactly when a list of several items names something in the list. */
  lemma RemoveQuotedExactly(l: seq<string>, items: seq<string>)
    requires "" !in l && items != []
    ensures RemoveQuoted(l, items) == RemoveItems(l, items) <==> |items| == 1 || forall x | x in l :: x !in items
  {
    if |items| >= 2 {
      if forall x | x in l :: x !in items {
        RemoveNothing(l, items);
      } else {
        var x :| x in l && x in items;
        InRemoveItems(l, items, x);
      }
    }
  }

  /** Splitting at a separator; the empty string has no parts. */
  function Split(s: string, sep: char): (parts: seq<string>)
    ensures s == "" <==> parts == []
  {
    if s == "" then [] else SplitRest(s, sep)
  }

  function SplitRest(s: string, sep: char): (parts: seq<string>)
    ensures parts != []
  {
    if s == "" then [""]
    else
      var rest := SplitRest(s[1..], sep);
      if s[0] == sep then [""] + rest else [[s[0]] + rest[0]] + rest[1..]
  }

  function Join(parts: seq<string>, sep: char): string {
    if parts == [] then ""
    else if |parts| == 1 then parts[0]
    else parts[0] + [sep] + Join(parts[1..], sep)
  }

  lemma {:induction false} SplitRestOfPrefix(a: string, s: string, sep: char)
    requires sep !in a
    ensures SplitRest(a + [sep] + s, sep) == [a] + SplitRest(s, sep)
    ensures SplitRest(a, sep) == [a]
  {
    if a == "" {
      assert a + [sep] + s == [sep] + s;
      assert ([sep] + s)[1..] == s;
    } else {
      var t := a + [sep] + s;
      assert t[1..] == a[1..] + [sep] + s && t[0] == a[0];
      SplitRestOfPrefix(a[1..], s, sep);
      assert [a[0]] + a[1..] == a;
    }
  }

  /** Splitting around a separator, wherever it stands. */
  lemma {:induction false} SplitRestConcat(a: string, b: string, sep: char)
    ensures SplitRest(a + [sep] + b, sep) == SplitRest(a, sep) + SplitRest(b, sep)
  {
    var s := a + [sep] + b;
    if a == "" {
      assert s == [sep] + b && s[1..] == b;
    } else {
      assert s[0] == a[0] && s[1..] == a[1..] + [sep] + b;
      SplitRestConcat(a[1..], b, sep);
    }
  }

  lemma {:induction false} OnePartExactly(s: string, sep: char)
    ensures |SplitRest(s, sep)| == 1 <==> sep !in s
  {
    if s != "" {
      OnePartExactly(s[1..], sep);
      assert s == [s[0]] + s[1..];
    }
  }

  lemma JoinUnfolds(part: string, rest: seq<string>, sep: char)
    ensures rest != [] ==> Join([part] + rest, sep) == part + [sep] + Join(rest, sep)
    ensures Join([part], sep) == part
  {
    assert ([part] + rest)[1..] == rest;
  }

  /** A joined part that holds separators itself is split along with the rest. */
  lemma {:induction false} SplitJoin(parts: seq<string>, last: string, sep: char)
    requires forall p | p in parts :: sep !in p
    ensures SplitRest(Join(parts + [last], sep), sep) == parts + SplitRest(last, sep)
  {
    hide Join, SplitRest;
    if parts == [] {
      assert parts + [last] == [last];
      JoinUnfolds(last, [], sep);
    } else {
      var rest := parts[1..] + [last];
      SplitJoin(parts[1..], last, sep);
      assert parts + [last] == [parts[0]] + rest;
      JoinUnfolds(parts[0], rest, sep);
      SplitRestOfPrefix(parts[0], Join(rest, sep), sep);
      assert parts + SplitRest(last, sep) == [parts[0]] + (parts[1..] + SplitRest(last, sep));
    }
  }

  /** Joining what was split gives the text back. */
  lemma {:induction false} JoinSplit(s: string, sep: char)
    ensures Join(SplitRest(s, sep), sep) == s
  {
    if s != "" {
      JoinSplit(s[1..], sep);
      var rest := SplitRest(s[1..], sep);
      hide SplitRest;
      assert s == [s[0]] + s[1..] && rest == [rest[0]] + rest[1..];
      if s[0] == sep {
        JoinUnfolds("", rest, sep);
      } else {
        JoinUnfolds(rest[0], rest[1..], sep);
        JoinUnfolds([s[0]] + rest[0], rest[1..], sep);
      }
    }
  }

  predicate IsSpace(c: char) {
    c == ' ' || '\t' <= c <= '\r'
  }

  /** string(STRIP). */
  function Strip(s: string): string {
    if s == "" then ""
    else if IsSpace(s[0]) then Strip(s[1..])
    else if IsSpace(s[|s| - 1]) then Strip(s[..|s| - 1])
    else s
  }

  lemma SpacesAre()
    ensures forall c :: IsSpace(c) <==> c in " \t\n\r\U{0B}\U{0C}"
  {
    var spaces := " \t\n\r\U{0B}\U{0C}";
    forall c
      ensures IsSpace(c) <==> c in spaces
    {
      assert spaces[0] == ' ' && spaces[1] as int == 9 && spaces[2] as int == 10;
      assert spaces[3] as int == 13 && spaces[4] as int == 11 && spaces[5] as int == 12;
      if '\t' <= c <= '\r' { assert c as int in {9, 10, 11, 12, 13}; }
    }
  }

  /** It takes the white space off both ends. */
  lemma {:induction false} StripExactly(front: string, s: string, back: string)
    requires forall c | c in front || c in back :: c in " \t\n\r\U{0B}\U{0C}"
    requires s != "" ==> s[0] !in " \t\n\r\U{0B}\U{0C}" && s[|s| - 1] !in " \t\n\r\U{0B}\U{0C}"
    ensures Strip(front + s + back) == s
    decreases |front| + |back|
  {
    var t := front + s + back;
    SpacesAre();
    hide IsSpace;
    if front != "" {
      assert t[0] == front[0] && t[1..] == front[1..] + s + back;
      StripExactly(front[1..], s, back);
    } else if back != "" {
      if s != "" {
        assert t[0] == s[0] && t[|t| - 1] == back[|back| - 1] && t[..|t| - 1] == front + s + back[..|back| - 1];
        StripExactly(front, s, back[..|back| - 1]);
      } else {
        assert t[0] == back[0] && t[1..] == front + s + back[1..];
        StripExactly(front, s, back[1..]);
      }
    } else {
      assert t == s;
    }
  }

  lemma {:induction false} StripKeepsOut(s: string, c: char)
    requires c !in s
    ensures c !in Strip(s)
  {
    if s == "" {
    } else if IsSpace(s[0]) {
      StripKeepsOut(s[1..], c);
    } else if IsSpace(s[|s| - 1]) {
      StripKeepsOut(s[..|s| - 1], c);
    }
  }

  lemma {:induction false} SplitHasNoSeparator(s: string, sep: char)
    ensures forall p | p in SplitRest(s, sep) :: sep !in p
  {
    if s != "" {
      SplitHasNoSeparator(s[1..], sep);
      var rest := SplitRest(s[1..], sep);
      assert rest[0] in rest && forall p | p in rest[1..] :: p in rest;
    }
  }
}
