/** The map both in-memory heaps keep beside their slice: from each
    element's key (a job ID, a tube name) to the slot holding it. The heap
    interface's `Swap`, `Push` and `Pop` re-point it. */
module SlotIndex {

  /** The element in slot `k` is indexed at `k`. */
  ghost predicate SlotIndexed<K, V>(s: seq<V>, key: V -> K, index: map<K, int>, k: int)
    requires 0 <= k < |s|
  {
    key(s[k]) in index && index[key(s[k])] == k
  }

  /** The entry for `id` names a slot whose element has that key. */
  ghost predicate KeyIndexed<K, V>(s: seq<V>, key: V -> K, index: map<K, int>, id: K)
    requires id in index
  {
    0 <= index[id] < |s| && key(s[index[id]]) == id
  }

  /** The index names exactly the elements of `s`, each at its slot. */
  ghost predicate Matches<K, V>(s: seq<V>, key: V -> K, index: map<K, int>) {
    && (forall k :: 0 <= k < |s| ==> SlotIndexed(s, key, index, k))
    && (forall id :: id in index ==> KeyIndexed(s, key, index, id))
  }

  /** The index seen slot by slot and key by key. */
  lemma BothWays<K, V>(s: seq<V>, key: V -> K, index: map<K, int>)
    requires Matches(s, key, index)
    ensures forall k :: 0 <= k < |s| ==> key(s[k]) in index && index[key(s[k])] == k
    ensures forall id :: id in index ==> 0 <= index[id] < |s| && key(s[index[id]]) == id
  {
    forall k | 0 <= k < |s|
      ensures key(s[k]) in index && index[key(s[k])] == k
    {
      assert SlotIndexed(s, key, index, k);
    }
    forall id | id in index
      ensures 0 <= index[id] < |s| && key(s[index[id]]) == id
    {
      assert KeyIndexed(s, key, index, id);
    }
  }

  /** The keys in the index are the keys of the elements. */
  lemma KeysAreElementKeys<K, V>(s: seq<V>, key: V -> K, index: map<K, int>, id: K)
    requires Matches(s, key, index)
    ensures id in index <==> exists k :: 0 <= k < |s| && key(s[k]) == id
  {
    BothWays(s, key, index);
  }

  /** `Swap`: exchanging two slots and re-pointing the index at both keeps
      it exact. */
  lemma SwapKeeps<K, V>(s: seq<V>, key: V -> K, index: map<K, int>, i: nat, j: nat)
    requires Matches(s, key, index) && i < |s| && j < |s|
    ensures var t := s[i := s[j]][j := s[i]];
      var index' := index[key(t[i]) := i][key(t[j]) := j];
      Matches(t, key, index') && index'.Keys == index.Keys
  {
    var t := s[i := s[j]][j := s[i]];
    var index' := index[key(t[i]) := i][key(t[j]) := j];
    BothWays(s, key, index);
    forall k | 0 <= k < |t|
      ensures SlotIndexed(t, key, index', k)
    {
    }
    forall id | id in index'
      ensures KeyIndexed(t, key, index', id)
    {
    }
  }

  /** Replacing an element by one with the same key. */
  lemma ReplaceKeeps<K, V>(s: seq<V>, key: V -> K, index: map<K, int>, k: nat, x: V)
    requires Matches(s, key, index) && k < |s| && key(x) == key(s[k])
    ensures Matches(s[k := x], key, index)
  {
    var t := s[k := x];
    BothWays(s, key, index);
    forall m | 0 <= m < |t|
      ensures SlotIndexed(t, key, index, m)
    {
    }
    forall id | id in index
      ensures KeyIndexed(t, key, index, id)
    {
    }
  }

  /** `Push`: appending an element with a new key, indexed at the new
      slot. */
  lemma AppendKeeps<K, V>(s: seq<V>, key: V -> K, index: map<K, int>, x: V)
    requires Matches(s, key, index) && key(x) !in index
    ensures Matches(s + [x], key, index[key(x) := |s|])
  {
    var t := s + [x];
    var index' := index[key(x) := |s|];
    BothWays(s, key, index);
    forall k | 0 <= k < |t|
      ensures SlotIndexed(t, key, index', k)
    {
    }
    forall id | id in index'
      ensures KeyIndexed(t, key, index', id)
    {
    }
  }

  /** `Pop`: dropping the last slot and its index entry. */
  lemma DropLastKeeps<K, V>(s: seq<V>, key: V -> K, index: map<K, int>)
    requires Matches(s, key, index) && |s| > 0
    ensures Matches(s[..|s| - 1], key, index - {key(s[|s| - 1])})
  {
    var t := s[..|s| - 1];
    var index' := index - {key(s[|s| - 1])};
    BothWays(s, key, index);
    forall k | 0 <= k < |t|
      ensures SlotIndexed(t, key, index', k)
    {
    }
    forall id | id in index'
      ensures KeyIndexed(t, key, index', id)
    {
    }
  }
}
