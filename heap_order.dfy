/** Order facts for binary min-heaps laid out in a sequence, as Go's
    `container/heap` lays them out: the children of slot `k` are `2k+1` and
    `2k+2`. The ordering is a parameter `lt`; the heap lemmas need it to be
    a strict weak order. */
module HeapOrder {

  function Parent(k: nat): (p: nat)
    requires 0 < k
    ensures p < k && (k == 2 * p + 1 || k == 2 * p + 2)
  {
    (k - 1) / 2
  }

  /** `lt` is asymmetric, and "not less" (`!lt(b, a)`, read "a <= b") is
      transitive. */
  ghost predicate StrictWeakOrder<T(!new)>(lt: (T, T) -> bool) {
    && (forall a, b :: lt(a, b) ==> !lt(b, a))
    && (forall a, b, c :: !lt(b, a) && !lt(c, b) ==> !lt(c, a))
  }

  /** The edge into slot `k` holds: `s[k]` is not less than its parent. */
  ghost predicate EdgeHolds<T>(s: seq<T>, k: nat, lt: (T, T) -> bool)
    requires 0 < k < |s|
  {
    !lt(s[k], s[Parent(k)])
  }

  /** `s[k]` is not less than its grandparent. */
  ghost predicate SkipEdgeHolds<T>(s: seq<T>, k: nat, lt: (T, T) -> bool)
    requires 0 < k < |s| && 0 < Parent(k)
  {
    !lt(s[k], s[Parent(Parent(k))])
  }

  /** No element of the prefix `s[..n]` is less than its parent. */
  ghost predicate Ordered<T>(s: seq<T>, n: nat, lt: (T, T) -> bool)
    requires n <= |s|
  {
    forall k :: 0 < k < n ==> EdgeHolds(s, k, lt)
  }

  /** Every parent-child edge of `s[..n]` holds except the edges out of
      `hole`, and the edge into `hole` when `skipIn` is set. */
  ghost predicate OrderedExcept<T>(s: seq<T>, n: nat, hole: nat, skipIn: bool, lt: (T, T) -> bool)
    requires n <= |s|
  {
    forall k :: 0 < k < n && Parent(k) != hole && !(skipIn && k == hole) ==> EdgeHolds(s, k, lt)
  }

  /** The parent of `hole` is no greater than the children of `hole`. */
  ghost predicate Bridged<T>(s: seq<T>, n: nat, hole: nat, lt: (T, T) -> bool)
    requires n <= |s|
  {
    0 < hole < n ==> forall k :: 0 < k < n && Parent(k) == hole ==> SkipEdgeHolds(s, k, lt)
  }

  /** Neither child of slot `i` within `s[..n]` is less than `x`. */
  ghost predicate ChildrenNotLess<T>(s: seq<T>, n: nat, i: nat, x: T, lt: (T, T) -> bool)
    requires n <= |s|
  {
    && (2 * i + 1 < n ==> !lt(s[2 * i + 1], x))
    && (2 * i + 2 < n ==> !lt(s[2 * i + 2], x))
  }

  /** The invariant of the sift-down loop, and of a heap one of whose slots
      was overwritten (hole == start, edge into the hole not yet fixed). */
  ghost predicate DownInvariant<T>(s: seq<T>, n: nat, hole: nat, start: nat, lt: (T, T) -> bool)
    requires n <= |s|
  {
    OrderedExcept(s, n, hole, hole == start, lt) && Bridged(s, n, hole, lt)
  }

  /** The invariant of the sift-up loop: only the edge into `hole` may be
      broken, and the parent of `hole` is no greater than its children. */
  ghost predicate UpInvariant<T>(s: seq<T>, n: nat, hole: nat, lt: (T, T) -> bool)
    requires n <= |s|
  {
    && (forall k :: 0 < k < n && k != hole ==> EdgeHolds(s, k, lt))
    && Bridged(s, n, hole, lt)
  }

  function Swap<T>(s: seq<T>, i: nat, j: nat): (r: seq<T>)
    requires i < |s| && j < |s|
    ensures |r| == |s| && r[i] == s[j] && r[j] == s[i]
    ensures forall k :: 0 <= k < |s| && k != i && k != j ==> r[k] == s[k]
    ensures multiset(r) == multiset(s)
  {
    s[i := s[j]][j := s[i]]
  }

  /** In a heap-ordered prefix the root is no greater than any element. */
  lemma {:induction false} RootIsMinimal<T(!new)>(s: seq<T>, n: nat, lt: (T, T) -> bool, k: nat)
    requires StrictWeakOrder(lt)
    requires n <= |s| && Ordered(s, n, lt) && k < n
    ensures !lt(s[k], s[0])
  {
    if k > 0 {
      assert EdgeHolds(s, k, lt);
      RootIsMinimal(s, n, lt, Parent(k));
    }
  }

  /** A heap-ordered sequence whose slot `i` is overwritten is ready to be
      fixed at `i`: this is the state `Fix` and `Remove` start from. */
  lemma OverwriteIsDownReady<T(!new)>(s: seq<T>, n: nat, i: nat, x: T, lt: (T, T) -> bool)
    requires StrictWeakOrder(lt)
    requires n <= |s| && i < n && Ordered(s, n, lt)
    ensures DownInvariant(s[i := x], n, i, i, lt)
  {
    var t := s[i := x];
    forall k | 0 < k < n && Parent(k) != i && k != i
      ensures EdgeHolds(t, k, lt)
    {
      assert EdgeHolds(s, k, lt);
    }
    if 0 < i {
      forall k | 0 < k < n && Parent(k) == i
        ensures SkipEdgeHolds(t, k, lt)
      {
        assert EdgeHolds(s, k, lt) && EdgeHolds(s, i, lt);
      }
    }
  }

  /** One step of sift-down: `j` is the smaller child of `i` and is less
      than `i`; swapping them moves the hole to `j`. */
  lemma DownStep<T(!new)>(s: seq<T>, n: nat, i: nat, start: nat, j: nat, lt: (T, T) -> bool)
    requires StrictWeakOrder(lt)
    requires n <= |s| && start <= i && j < n && 0 < j && Parent(j) == i
    requires DownInvariant(s, n, i, start, lt)
    requires ChildrenNotLess(s, n, i, s[j], lt)
    requires lt(s[j], s[i])
    ensures DownInvariant(Swap(s, i, j), n, j, start, lt)
  {
    var t := Swap(s, i, j);
    forall k | 0 < k < n && Parent(k) != j && !(j == start && k == j)
      ensures EdgeHolds(t, k, lt)
    {
      if k == j {
        assert !lt(s[i], s[j]);
      } else if Parent(k) == i {
        assert !lt(s[k], s[j]);
      } else if k == i {
        assert SkipEdgeHolds(s, j, lt);
      } else {
        assert EdgeHolds(s, k, lt);
      }
    }
    forall k | 0 < k < n && Parent(k) == j
      ensures SkipEdgeHolds(t, k, lt)
    {
      assert EdgeHolds(s, k, lt);
    }
  }

  /** Sift-down stops when no child is less than the hole: if the hole has
      moved, the prefix is a heap, and in any case only the edge into the
      hole may be broken. */
  lemma DownDone<T>(s: seq<T>, n: nat, i: nat, start: nat, lt: (T, T) -> bool)
    requires n <= |s| && i < |s| && DownInvariant(s, n, i, start, lt)
    requires ChildrenNotLess(s, n, i, s[i], lt)
    ensures i != start ==> Ordered(s, n, lt)
    ensures UpInvariant(s, n, i, lt)
  {
    forall k | 0 < k < n && (k != i || i != start)
      ensures EdgeHolds(s, k, lt)
    {
      if Parent(k) == i {
        assert !lt(s[k], s[i]);
      }
    }
  }

  /** One step of sift-up: the hole is less than its parent; swapping them
      moves the hole to the parent. */
  lemma UpStep<T(!new)>(s: seq<T>, n: nat, j: nat, lt: (T, T) -> bool)
    requires StrictWeakOrder(lt)
    requires n <= |s| && 0 < j < n && UpInvariant(s, n, j, lt)
    requires lt(s[j], s[Parent(j)])
    ensures UpInvariant(Swap(s, Parent(j), j), n, Parent(j), lt)
  {
    var p := Parent(j);
    var t := Swap(s, p, j);
    forall k | 0 < k < n && k != p
      ensures EdgeHolds(t, k, lt)
    {
      if k == j {
        assert !lt(s[p], s[j]);
      } else if Parent(k) == j {
        assert SkipEdgeHolds(s, k, lt);
      } else if Parent(k) == p {
        assert EdgeHolds(s, k, lt);
        assert !lt(s[p], s[j]);
      } else {
        assert EdgeHolds(s, k, lt);
      }
    }
    if 0 < p {
      forall k | 0 < k < n && Parent(k) == p
        ensures SkipEdgeHolds(t, k, lt)
      {
        assert EdgeHolds(s, p, lt);
        if k != j {
          assert EdgeHolds(s, k, lt);
        }
      }
    }
  }

  /** Sift-up stops at the root or when the hole is not less than its
      parent: the prefix is a heap. */
  lemma UpDone<T>(s: seq<T>, n: nat, j: nat, lt: (T, T) -> bool)
    requires n <= |s| && UpInvariant(s, n, j, lt)
    requires 0 < j < n ==> !lt(s[j], s[Parent(j)])
    ensures Ordered(s, n, lt)
  {
    forall k | 0 < k < n
      ensures EdgeHolds(s, k, lt)
    {
    }
  }

  /** Appending to a heap leaves only the edge into the new slot to fix. */
  lemma AppendIsUpReady<T>(s: seq<T>, x: T, lt: (T, T) -> bool)
    requires Ordered(s, |s|, lt)
    ensures UpInvariant(s + [x], |s| + 1, |s|, lt)
  {
    var t := s + [x];
    forall k | 0 < k < |t| && k != |s|
      ensures EdgeHolds(t, k, lt)
    {
      assert EdgeHolds(s, k, lt);
    }
  }

  /** Cutting a heap-ordered sequence to its heap-ordered prefix. */
  lemma PrefixOrdered<T>(s: seq<T>, n: nat, lt: (T, T) -> bool)
    requires n <= |s| && Ordered(s, n, lt)
    ensures Ordered(s[..n], n, lt)
  {
    forall k | 0 < k < n
      ensures EdgeHolds(s[..n], k, lt)
    {
      assert EdgeHolds(s, k, lt);
    }
  }

  /** Statements about the first `n` slots depend on those slots only. */
  lemma PrefixDownInvariant<T>(s: seq<T>, n: nat, hole: nat, start: nat, lt: (T, T) -> bool)
    requires n <= |s| && DownInvariant(s[..n], n, hole, start, lt)
    ensures DownInvariant(s, n, hole, start, lt)
  {
    forall k | 0 < k < n && Parent(k) != hole && !(hole == start && k == hole)
      ensures EdgeHolds(s, k, lt)
    {
      assert EdgeHolds(s[..n], k, lt);
    }
    if 0 < hole < n {
      forall k | 0 < k < n && Parent(k) == hole
        ensures SkipEdgeHolds(s, k, lt)
      {
        assert SkipEdgeHolds(s[..n], k, lt);
      }
    }
  }

  /** Moving the last element of a heap into slot `i` (`i` below the last
      slot) leaves the other slots ready to be fixed at `i`: the state
      `Pop` and `Remove` start from. */
  lemma SwapLastIsDownReady<T(!new)>(s: seq<T>, i: nat, lt: (T, T) -> bool)
    requires StrictWeakOrder(lt)
    requires Ordered(s, |s|, lt) && i < |s|
    ensures DownInvariant(Swap(s, i, |s| - 1), |s| - 1, i, i, lt)
  {
    var n := |s| - 1;
    if i == n {
      forall k | 0 < k < n
        ensures EdgeHolds(Swap(s, i, n), k, lt)
      {
        assert EdgeHolds(s, k, lt);
      }
      return;
    }
    forall k | 0 < k < n
      ensures EdgeHolds(s[..n], k, lt)
    {
      assert EdgeHolds(s, k, lt);
    }
    OverwriteIsDownReady(s[..n], n, i, s[n], lt);
    assert s[..n][i := s[n]] == Swap(s, i, n)[..n];
    PrefixDownInvariant(Swap(s, i, n), n, i, i, lt);
  }
}
