/** The start-up measurement: the median of up to 16 intervals, sorted in place. */
module Calibration {

  ghost predicate Sorted(s: seq<nat>) {
    forall i, j | 0 <= i < j < |s| :: s[i] <= s[j]
  }

  ghost predicate SortedPermutation(sorted: seq<nat>, s: seq<nat>) {
    Sorted(sorted) && multiset(sorted) == multiset(s)
  }

  lemma PrefixPermutes(a: seq<nat>, b: seq<nat>, n: nat)
    requires n <= |a| == |b| && multiset(a) == multiset(b) && a[n..] == b[n..]
    ensures multiset(a[..n]) == multiset(b[..n])
  {
    assert a == a[..n] + a[n..] && b == b[..n] + b[n..];
    assert multiset(a[..n]) == multiset(a) - multiset(a[n..]);
    assert multiset(b[..n]) == multiset(b) - multiset(b[n..]);
  }

  /** `r` is `s` with element `i` moved down to position `at`, element by element. */
  ghost predicate Moved(s: seq<nat>, i: nat, at: nat, r: seq<nat>) {
    && at <= i < |s| == |r|
    && (forall m | 0 <= m < at :: r[m] == s[m])
    && r[at] == s[i]
    && (forall m | at < m <= i :: r[m] == s[m - 1])
    && (forall m | i < m < |s| :: r[m] == s[m])
  }

  lemma MovedSorts(s: seq<nat>, i: nat, at: nat, r: seq<nat>)
    requires Moved(s, i, at, r)
    requires forall x, y | 0 <= x < y < i :: s[x] <= s[y]
    requires at > 0 ==> s[at - 1] <= s[i]
    requires at < i ==> s[at] > s[i]
    ensures forall x, y | 0 <= x < y <= i :: r[x] <= r[y]
  {
    forall x, y | 0 <= x < y <= i
      ensures r[x] <= r[y]
    {
      if x < at && y == at {
        assert s[x] <= s[at - 1];
      } else if x == at {
        assert s[at] <= s[y - 1];
      }
    }
  }

  lemma SwappedParts(a: seq<nat>, b: seq<nat>, c: seq<nat>, d: seq<nat>)
    ensures multiset(a + b + c + d) == multiset(a + c + b + d)
  {
  }

  lemma MovedPermutes(s: seq<nat>, i: nat, at: nat, r: seq<nat>)
    requires Moved(s, i, at, r)
    ensures multiset(r) == multiset(s)
  {
    SwappedParts(s[..at], s[at..i], [s[i]], s[i + 1..]);
    assert s == s[..at] + s[at..i] + [s[i]] + s[i + 1..];
    assert r == s[..at] + [s[i]] + s[at..i] + s[i + 1..];
  }

  /** What one round of the sort achieves when `at` is the right place. */
  lemma MovedIntoPlace(s: seq<nat>, i: nat, at: nat, r: seq<nat>)
    requires at <= i < |s| == |r| && Moved(s, i, at, r) && Sorted(s[..i])
    requires at > 0 ==> s[at - 1] <= s[i]
    requires at < i ==> s[at] > s[i]
    ensures Sorted(r[..i + 1]) && multiset(r) == multiset(s) && r[i + 1..] == s[i + 1..]
  {
    assert forall m | 0 <= m < i :: s[..i][m] == s[m];
    MovedSorts(s, i, at, r);
    MovedPermutes(s, i, at, r);
  }

  /** The inner loop: element `i` is moved down past the greater ones before it. */
  method MoveDown(iv: array<nat>, i: nat) returns (ghost at: nat)
    requires i < iv.Length
    modifies iv
    ensures at <= i && Moved(old(iv[..]), i, at, iv[..])
    ensures at > 0 ==> old(iv[..])[at - 1] <= old(iv[..])[i]
    ensures at < i ==> old(iv[..])[at] > old(iv[..])[i]
  {
    ghost var before := iv[..];
    var v := iv[i];
    var j := i - 1;
    while j >= 0 && iv[j] > v
      invariant -1 <= j < i
      invariant forall m | 0 <= m <= j :: iv[m] == before[m]
      invariant forall m | j + 1 < m <= i :: iv[m] == before[m - 1]
      invariant forall m | i < m < iv.Length :: iv[m] == before[m]
      invariant j + 1 < i ==> before[j + 1] > v
    {
      iv[j + 1] := iv[j];
      j := j - 1;
    }
    iv[j + 1] := v;
    at := j + 1;
  }

  /** One round of the sort. */
  method MoveIntoPlace(iv: array<nat>, i: nat)
    requires i < iv.Length && Sorted(iv[..i])
    modifies iv
    ensures Sorted(iv[..i + 1])
    ensures multiset(iv[..]) == multiset(old(iv[..])) && iv[i + 1..] == old(iv[i + 1..])
  {
    hide Sorted, Moved;
    ghost var before := iv[..];
    assert before[..i] == iv[..i] && before[i + 1..] == iv[i + 1..];
    ghost var at := MoveDown(iv, i);
    ghost var after := iv[..];
    MovedIntoPlace(before, i, at, after);
    assert iv[..i + 1] == after[..i + 1] && iv[i + 1..] == after[i + 1..];
  }

  /** Sorts the first `n` elements; the rest of the buffer is not touched. */
  method InsertionSort(iv: array<nat>, n: nat)
    requires n <= iv.Length
    modifies iv
    ensures SortedPermutation(iv[..n], old(iv[..n]))
    ensures iv[n..] == old(iv[n..])
  {
    var i := 1;
    while i < n
      invariant 1 <= i && (i <= n || n <= 1)
      invariant i <= n ==> Sorted(iv[..i])
      invariant multiset(iv[..]) == multiset(old(iv[..]))
      invariant iv[n..] == old(iv[n..])
    {
      ghost var before := iv[..];
      MoveIntoPlace(iv, i);
      assert iv[n..] == iv[i + 1..][n - i - 1..] && before[n..] == before[i + 1..][n - i - 1..];
      i := i + 1;
    }
    PrefixPermutes(iv[..], old(iv[..]), n);
    assert iv[..][..n] == iv[..n] && old(iv[..])[..n] == old(iv[..n]);
  }

  /** How many of the intervals lie in [lo, hi]. */
  function CountIn(s: seq<nat>, lo: nat, hi: nat): (c: nat)
    ensures c <= |s|
  {
    if s == [] then 0 else (if lo <= s[0] <= hi then 1 else 0) + CountIn(s[1..], lo, hi)
  }

  lemma {:induction false} CountInConcat(a: seq<nat>, b: seq<nat>, lo: nat, hi: nat)
    ensures CountIn(a + b, lo, hi) == CountIn(a, lo, hi) + CountIn(b, lo, hi)
  {
    if a == [] {
      assert a + b == b;
    } else {
      assert (a + b)[1..] == a[1..] + b;
      CountInConcat(a[1..], b, lo, hi);
    }
  }

  /** `s` without its element `k`. */
  function Without(s: seq<nat>, k: nat): seq<nat>
    requires k < |s|
  {
    s[..k] + s[k + 1..]
  }

  lemma WithoutPermutes(s: seq<nat>, k: nat)
    requires k < |s|
    ensures multiset(Without(s, k)) == multiset(s) - multiset{s[k]}
  {
    assert s == s[..k] + [s[k]] + s[k + 1..];
  }

  lemma WithoutCounts(s: seq<nat>, k: nat, lo: nat, hi: nat)
    requires k < |s|
    ensures CountIn(s, lo, hi) == CountIn(Without(s, k), lo, hi) + if lo <= s[k] <= hi then 1 else 0
  {
    assert s == s[..k] + s[k..] && s[k..][1..] == s[k + 1..];
    CountInConcat(s[..k], s[k..], lo, hi);
    CountInConcat(s[..k], s[k + 1..], lo, hi);
  }

  lemma {:induction false} CountInPermutation(a: seq<nat>, b: seq<nat>, lo: nat, hi: nat)
    requires multiset(a) == multiset(b)
    ensures CountIn(a, lo, hi) == CountIn(b, lo, hi)
    decreases |a|
  {
    if a == [] {
      assert |multiset(b)| == 0;
    } else {
      assert a[0] in multiset(b);
      var k :| 0 <= k < |b| && b[k] == a[0];
      WithoutPermutes(a, 0);
      WithoutPermutes(b, k);
      CountInPermutation(Without(a, 0), Without(b, k), lo, hi);
      WithoutCounts(a, 0, lo, hi);
      WithoutCounts(b, k, lo, hi);
    }
  }

  lemma {:induction false} NoneIn(s: seq<nat>, lo: nat, hi: nat)
    requires forall i | 0 <= i < |s| :: s[i] < lo || s[i] > hi
    ensures CountIn(s, lo, hi) == 0
  {
    if s != [] { NoneIn(s[1..], lo, hi); }
  }

  /** Skipped edges cannot move the median: it lies in any range that holds more than half of the intervals. */
  lemma MedianInMajority(sorted: seq<nat>, iv: seq<nat>, lo: nat, hi: nat)
    requires SortedPermutation(sorted, iv)
    requires 2 * CountIn(iv, lo, hi) > |iv|
    ensures |sorted| == |iv| > 0 && lo <= sorted[|iv| / 2] <= hi
  {
    assert |sorted| == |multiset(sorted)| == |multiset(iv)| == |iv|;
    CountInPermutation(sorted, iv, lo, hi);
    MedianInRange(sorted, lo, hi);
  }

  lemma MedianInRange(s: seq<nat>, lo: nat, hi: nat)
    requires Sorted(s) && 2 * CountIn(s, lo, hi) > |s|
    ensures lo <= s[|s| / 2] <= hi
  {
    var m := |s| / 2;
    if s[m] < lo {
      LowHalfOut(s, m, lo, hi);
    } else if s[m] > hi {
      HighHalfOut(s, m, lo, hi);
    }
  }

  lemma LowHalfOut(s: seq<nat>, m: nat, lo: nat, hi: nat)
    requires Sorted(s) && m < |s| && s[m] < lo
    ensures CountIn(s, lo, hi) < |s| - m
  {
    assert forall i | 0 <= i <= m :: s[i] <= s[m];
    CountInSplit(s, m + 1, lo, hi);
    NoneIn(s[..m + 1], lo, hi);
  }

  lemma HighHalfOut(s: seq<nat>, m: nat, lo: nat, hi: nat)
    requires Sorted(s) && m < |s| && s[m] > hi
    ensures CountIn(s, lo, hi) <= m
  {
    assert forall i | m <= i < |s| :: s[i] >= s[m];
    CountInSplit(s, m, lo, hi);
    NoneIn(s[m..], lo, hi);
  }

  lemma CountInSplit(s: seq<nat>, k: nat, lo: nat, hi: nat)
    requires k <= |s|
    ensures CountIn(s, lo, hi) == CountIn(s[..k], lo, hi) + CountIn(s[k..], lo, hi)
  {
    assert s == s[..k] + s[k..];
    CountInConcat(s[..k], s[k..], lo, hi);
  }

  lemma FirstIsLeast(a: seq<nat>, b: seq<nat>)
    requires a != [] && b != [] && Sorted(a) && multiset(a) == multiset(b)
    ensures a[0] <= b[0]
  {
    assert b[0] in multiset(a);
  }

  lemma TailPermutes(a: seq<nat>, b: seq<nat>)
    requires a != [] && b != [] && a[0] == b[0] && multiset(a) == multiset(b)
    ensures multiset(a[1..]) == multiset(b[1..])
  {
    WithoutPermutes(a, 0);
    WithoutPermutes(b, 0);
    assert Without(a, 0) == a[1..] && Without(b, 0) == b[1..];
  }

  /** The median does not depend on which sorted permutation was computed. */
  lemma {:induction false} SortedIsUnique(a: seq<nat>, b: seq<nat>)
    requires Sorted(a) && Sorted(b) && multiset(a) == multiset(b)
    ensures a == b
  {
    assert |a| == |multiset(a)| == |multiset(b)| == |b|;
    if a != [] {
      FirstIsLeast(a, b);
      FirstIsLeast(b, a);
      TailPermutes(a, b);
      SortedIsUnique(a[1..], b[1..]);
      assert a == [a[0]] + a[1..] && b == [b[0]] + b[1..];
    }
  }
}
