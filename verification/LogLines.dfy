/** What a tool collects from the lines of a console log into a dictionary. */
module LogLines {
  import opened Results

  /** The dictionary after all lines: of entries with the same key the last one stays. */
  function Collected<K, V>(entries: seq<Option<(K, V)>>): map<K, V> {
    if entries == [] then map[]
    else
      var earlier, last := Collected(entries[..|entries| - 1]), entries[|entries| - 1];
      if last.None? then earlier else earlier[last.value.0 := last.value.1]
  }

  /** The last entry of a key is the one that stays. */
  lemma {:induction false} LastStays<K, V>(entries: seq<Option<(K, V)>>, i: nat)
    requires i < |entries| && entries[i].Some?
    requires forall j | i < j < |entries| && entries[j].Some? :: entries[j].value.0 != entries[i].value.0
    ensures entries[i].value.0 in Collected(entries) && Collected(entries)[entries[i].value.0] == entries[i].value.1
  {
    if i < |entries| - 1 {
      LastStays(entries[..|entries| - 1], i);
    }
  }

  ghost predicate DistinctKeys<K, V>(entries: seq<Option<(K, V)>>) {
    forall i, j | 0 <= i < j < |entries| && entries[i].Some? && entries[j].Some? ::
      entries[i].value.0 != entries[j].value.0
  }

  /** With distinct keys the dictionary holds exactly the entries. */
  lemma {:induction false} HoldsExactly<K, V>(entries: seq<Option<(K, V)>>, k: K, v: V)
    requires DistinctKeys(entries)
    ensures k in Collected(entries) && Collected(entries)[k] == v <==> Some((k, v)) in entries
    ensures k in Collected(entries) ==> Some((k, Collected(entries)[k])) in entries
  {
    if entries != [] {
      var earlier, last := entries[..|entries| - 1], entries[|entries| - 1];
      assert entries == earlier + [last];
      HoldsExactly(earlier, k, v);
      if last.Some? && last.value.0 == k {
        assert entries[|entries| - 1] == last;
        assert Some((k, v)) !in earlier;
      }
    }
  }

  lemma Included<K, V>(a: seq<Option<(K, V)>>, b: seq<Option<(K, V)>>)
    requires DistinctKeys(a) && DistinctKeys(b)
    requires forall e | e in a && e.Some? :: e in b
    ensures forall k | k in Collected(a) :: k in Collected(b) && Collected(b)[k] == Collected(a)[k]
  {
    forall k | k in Collected(a)
      ensures k in Collected(b) && Collected(b)[k] == Collected(a)[k]
    {
      HoldsExactly(a, k, Collected(a)[k]);
      HoldsExactly(b, k, Collected(a)[k]);
    }
  }

  /** So neither the order of the lines nor what stands between them matters. */
  lemma OrderDoesNotMatter<K, V>(a: seq<Option<(K, V)>>, b: seq<Option<(K, V)>>)
    requires DistinctKeys(a) && DistinctKeys(b)
    requires (forall e | e in a && e.Some? :: e in b) && forall e | e in b && e.Some? :: e in a
    ensures Collected(a) == Collected(b)
  {
    Included(a, b);
    Included(b, a);
    hide Collected, DistinctKeys;
    assert Collected(a).Keys == Collected(b).Keys;
  }
}
