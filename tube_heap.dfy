/** The in-memory tube priority queue (inmemory/tube_heap.go): a binary
    min-heap of named job queues, ordered by each queue's head job, plus an
    index from tube name to heap slot. The queues are shared objects: a
    caller pushes to a queue and then calls `FixByTube` to move its tube to
    the right place. The heap is ordered by `heads`, the head of each queue
    as the heap last saw it; `Current` says those are still the heads. */
module TubeHeap {
  import opened Entity
  import opened Sort
  import HeapOrder
  import SlotIndex
  import JobHeap

  /** `tubeHeapItem`: a job queue and the name of its tube. */
  datatype TubeItem = TubeItem(item: JobHeap.JobHeapPriorityQueue, name: Tube)

  /** The key of the heap's index. */
  function TubeKey(t: TubeItem): Tube {
    t.name
  }

  class TubeHeapPriorityQueue {
    var items: seq<TubeItem>
    var indexByTube: map<Tube, int>
    /** The head of each slot's queue when the heap last compared it. */
    ghost var heads: seq<Option<Job>>

    /** The index names exactly the tubes in the heap, each at its slot. */
    ghost predicate Indexed()
      reads this
    {
      SlotIndex.Matches(items, TubeKey, indexByTube) && |heads| == |items|
    }

    ghost predicate Valid()
      reads this
    {
      Indexed() && HeapOrder.Ordered(heads, |heads|, HeadPrecedes)
    }

    /** The tube names in the heap. */
    ghost function Names(): set<Tube>
      reads this
    {
      indexByTube.Keys
    }

    /** The tube with the given name. */
    ghost function Find(name: Tube): (t: TubeItem)
      reads this
      requires Indexed() && name in Names()
      ensures t in items && t.name == name
    {
      assert SlotIndex.KeyIndexed(items, TubeKey, indexByTube, name);
      items[indexByTube[name]]
    }

    /** The queues the heap holds. */
    ghost function Queues(): set<JobHeap.JobHeapPriorityQueue>
      reads this
    {
      set k | 0 <= k < |items| :: items[k].item
    }

    /** The head recorded for slot `k` is its queue's head now. */
    ghost predicate HeadIsCurrent(k: nat)
      reads this, Queues()
      requires k < |items| && |heads| == |items|
    {
      heads[k] == items[k].item.Head()
    }

    /** The head of each slot's queue now. */
    ghost function CurrentHeads(): (r: seq<Option<Job>>)
      reads this, Queues()
      ensures |r| == |items|
      ensures forall k :: 0 <= k < |items| ==> r[k] == items[k].item.Head()
    {
      seq(|items|, (k: int) reads this, Queues() requires 0 <= k < |items| => items[k].item.Head())
    }

    /** Every recorded head is its queue's head now. */
    ghost predicate Current()
      reads this, Queues()
    {
      |heads| == |items| && forall k :: 0 <= k < |items| ==> HeadIsCurrent(k)
    }

    /** `NewTubeHeapPriorityQueue`: an empty queue. */
    constructor ()
      ensures Valid() && Current() && items == [] && Names() == {}
    {
      items := [];
      indexByTube := map[];
      heads := [];
    }

    /** `HasID`: whether a tube with this name is in the heap. */
    function HasID(name: Tube): (r: bool)
      reads this
      requires Indexed()
      ensures r <==> exists k :: 0 <= k < |items| && items[k].name == name
    {
      SlotIndex.BothWays(items, TubeKey, indexByTube);
      name in indexByTube
    }

    /** The heap interface's `Less`: peeks both queues; an empty queue is
        never less, a non-empty one is less than an empty one, and two heads
        compare by the job ordering. It agrees with the recorded heads. */
    predicate LessAt(i: nat, j: nat)
      reads this, Queues()
      requires Current() && i < |items| && j < |items|
      ensures LessAt(i, j) <==> HeadPrecedes(heads[i], heads[j])
    {
      assert HeadIsCurrent(i) && HeadIsCurrent(j);
      HeadPrecedes(items[i].item.Head(), items[j].item.Head())
    }

    /** The heap interface's `Swap`: exchanges two slots and re-points the
        index at both. */
    method Swap(i: nat, j: nat, ghost n: nat)
      requires Indexed() && Current() && i < n && j < n && n <= |items|
      modifies this
      ensures Indexed() && Current() && Names() == old(Names())
      ensures items == HeapOrder.Swap(old(items), i, j) && heads == HeapOrder.Swap(old(heads), i, j)
      ensures multiset(items) == old(multiset(items)) && items[n..] == old(items[n..])
    {
      SlotIndex.SwapKeeps(items, TubeKey, indexByTube, i, j);
      assert HeadIsCurrent(i) && HeadIsCurrent(j);
      items := items[i := items[j]][j := items[i]];
      heads := heads[i := heads[j]][j := heads[i]];
      indexByTube := indexByTube[items[i].name := i];
      indexByTube := indexByTube[items[j].name := j];
      forall k | 0 <= k < |items|
        ensures HeadIsCurrent(k)
      {
        assert old(HeadIsCurrent(k));
      }
    }

    /** The heap interface's `Push`: indexes the tube at the end and
        appends it. */
    method PushItem(t: TubeItem)
      requires Indexed() && Current() && t.name !in Names()
      modifies this
      ensures Indexed() && Current() && Names() == old(Names()) + {t.name}
      ensures items == old(items) + [t] && heads == old(heads) + [t.item.Head()]
    {
      SlotIndex.AppendKeeps(items, TubeKey, indexByTube, t);
      indexByTube := indexByTube[t.name := |items|];
      items := items + [t];
      heads := heads + [t.item.Head()];
      forall k | 0 <= k < |items|
        ensures HeadIsCurrent(k)
      {
        if k < |items| - 1 {
          assert old(HeadIsCurrent(k));
        }
      }
    }

    /** The heap interface's `Pop`: drops the last slot and its index
        entry. */
    method PopItem() returns (t: TubeItem)
      requires Indexed() && Current() && |items| > 0
      modifies this
      ensures Indexed() && Current() && Names() == old(Names()) - {t.name}
      ensures t == old(items[|items| - 1]) && items == old(items[..|items| - 1])
      ensures heads == old(heads[..|heads| - 1])
      ensures multiset(items) == old(multiset(items)) - multiset{t}
    {
      var n := |items|;
      t := items[n - 1];
      SlotIndex.DropLastKeeps(items, TubeKey, indexByTube);
      indexByTube := indexByTube - {t.name};
      assert items == items[..n - 1] + [t];
      items := items[..n - 1];
      heads := heads[..n - 1];
      forall k | 0 <= k < |items|
        ensures HeadIsCurrent(k)
      {
        assert old(HeadIsCurrent(k));
      }
    }

    /** `container/heap`'s `up` over the tubes. It sifts by the heads of
        the queues as they are now; when `tracked`, the heads were heap
        ordered except at `j0` and are so everywhere afterwards. */
    method Up(j0: nat, ghost n: nat, ghost tracked: bool)
      requires Indexed() && Current() && j0 < n <= |items|
      requires tracked ==> HeapOrder.UpInvariant(heads, n, j0, HeadPrecedes)
      modifies this
      ensures Indexed() && Current() && Names() == old(Names())
      ensures |items| == old(|items|) && items[n..] == old(items[n..])
      ensures multiset(items) == old(multiset(items))
      ensures tracked ==> HeapOrder.Ordered(heads, n, HeadPrecedes)
    {
      var j: nat := j0;
      while 0 < j && LessAt(j, HeapOrder.Parent(j))
        invariant Indexed() && Current() && Names() == old(Names())
        invariant j < n && |items| == old(|items|) && items[n..] == old(items[n..])
        invariant multiset(items) == old(multiset(items))
        invariant tracked ==> HeapOrder.UpInvariant(heads, n, j, HeadPrecedes)
        decreases j
      {
        var p := HeapOrder.Parent(j);
        if tracked {
          UpStepTubes(heads, n, j);
        }
        Swap(p, j, n);
        j := p;
      }
      if tracked {
        HeapOrder.UpDone(heads, n, j, HeadPrecedes);
      }
    }

    /** One round of `container/heap`'s `down` loop at hole `i`. */
    method DownRound(i0: nat, i: nat, n: nat, ghost tracked: bool) returns (next: nat)
      requires Indexed() && Current() && i0 <= i <= n <= |items| && i < |items|
      requires tracked ==> HeapOrder.DownInvariant(heads, n, i, i0, HeadPrecedes)
      modifies this
      ensures Indexed() && Current() && Names() == old(Names())
      ensures |items| == old(|items|) && items[n..] == old(items[n..])
      ensures multiset(items) == old(multiset(items))
      ensures next == i ==> items == old(items) && heads == old(heads)
      ensures next == i ==> HeapOrder.ChildrenNotLess(heads, n, i, heads[i], HeadPrecedes)
      ensures next != i ==> i < next < n
      ensures next != i && tracked ==> HeapOrder.DownInvariant(heads, n, next, i0, HeadPrecedes)
    {
      var j1 := 2 * i + 1;
      if j1 >= n {
        return i;
      }
      var j := j1;
      ghost var second := j1 + 1 < n && LessAt(j1 + 1, j1);
      if j1 + 1 < n && LessAt(j1 + 1, j1) {
        j := j1 + 1;
      }
      SmallerChildTube(heads, n, i, j1, second);
      if !LessAt(j, i) {
        return i;
      }
      if tracked {
        DownStepTubes(heads, n, i, i0, j);
      }
      Swap(i, j, n);
      next := j;
    }

    /** `container/heap`'s `down` over the tubes; reports whether the tube
        at `i0` moved. The order it restores is promised when `tracked`. */
    method Down(i0: nat, n: nat, ghost tracked: bool) returns (moved: bool)
      requires Indexed() && Current() && i0 <= n <= |items| && i0 < |items|
      requires tracked ==> HeapOrder.DownInvariant(heads, n, i0, i0, HeadPrecedes)
      modifies this
      ensures Indexed() && Current() && Names() == old(Names())
      ensures |items| == old(|items|) && items[n..] == old(items[n..])
      ensures multiset(items) == old(multiset(items))
      ensures moved && tracked ==> HeapOrder.Ordered(heads, n, HeadPrecedes)
      ensures !moved && tracked ==> HeapOrder.UpInvariant(heads, n, i0, HeadPrecedes)
    {
      var i := i0;
      var next := DownRound(i0, i, n, tracked);
      while next != i
        invariant Indexed() && Current() && Names() == old(Names())
        invariant i0 <= i <= next <= n && i < |items| && |items| == old(|items|) && items[n..] == old(items[n..])
        invariant multiset(items) == old(multiset(items))
        invariant next == i ==> HeapOrder.ChildrenNotLess(heads, n, i, heads[i], HeadPrecedes)
        invariant next == i && tracked ==> HeapOrder.DownInvariant(heads, n, i, i0, HeadPrecedes)
        invariant next != i ==> next < n
        invariant next != i && tracked ==> HeapOrder.DownInvariant(heads, n, next, i0, HeadPrecedes)
        decreases n - i
      {
        i := next;
        next := DownRound(i0, i, n, tracked);
      }
      if tracked {
        HeapOrder.DownDone(heads, n, i, i0, HeadPrecedes);
      }
      moved := i > i0;
    }

    // The heap lemmas instantiated with the tube ordering.

    static lemma UpStepTubes(s: seq<Option<Job>>, n: nat, j: nat)
      requires n <= |s| && 0 < j < n && HeapOrder.UpInvariant(s, n, j, HeadPrecedes)
      requires HeadPrecedes(s[j], s[HeapOrder.Parent(j)])
      ensures HeapOrder.UpInvariant(HeapOrder.Swap(s, HeapOrder.Parent(j), j), n, HeapOrder.Parent(j), HeadPrecedes)
    {
      HeadPrecedesIsStrictWeakOrder();
      HeapOrder.UpStep(s, n, j, HeadPrecedes);
    }

    static lemma DownStepTubes(s: seq<Option<Job>>, n: nat, i: nat, start: nat, j: nat)
      requires n <= |s| && start <= i && j < n && 0 < j && HeapOrder.Parent(j) == i
      requires HeapOrder.DownInvariant(s, n, i, start, HeadPrecedes)
      requires HeapOrder.ChildrenNotLess(s, n, i, s[j], HeadPrecedes)
      requires HeadPrecedes(s[j], s[i])
      ensures HeapOrder.DownInvariant(HeapOrder.Swap(s, i, j), n, j, start, HeadPrecedes)
    {
      HeadPrecedesIsStrictWeakOrder();
      HeapOrder.DownStep(s, n, i, start, j, HeadPrecedes);
    }

    /** The child `down` picks precedes neither child; if it does not
        precede the hole, no child does. */
    static lemma SmallerChildTube(s: seq<Option<Job>>, n: nat, i: nat, j1: nat, second: bool)
      requires n <= |s| && j1 == 2 * i + 1 < n
      requires second <==> j1 + 1 < n && HeadPrecedes(s[j1 + 1], s[j1])
      ensures var j := if second then j1 + 1 else j1;
        && HeapOrder.ChildrenNotLess(s, n, i, s[j], HeadPrecedes)
        && (!HeadPrecedes(s[j], s[i]) ==> HeapOrder.ChildrenNotLess(s, n, i, s[i], HeadPrecedes))
    {
      HeadPrecedesIsStrictWeakOrder();
    }

    static lemma OverwriteTubes(s: seq<Option<Job>>, n: nat, i: nat, x: Option<Job>)
      requires n <= |s| && i < n && HeapOrder.Ordered(s, n, HeadPrecedes)
      ensures HeapOrder.DownInvariant(s[i := x], n, i, i, HeadPrecedes)
    {
      HeadPrecedesIsStrictWeakOrder();
      HeapOrder.OverwriteIsDownReady(s, n, i, x, HeadPrecedes);
    }

    static lemma SwapLastTubes(s: seq<Option<Job>>, i: nat)
      requires HeapOrder.Ordered(s, |s|, HeadPrecedes) && i < |s|
      ensures HeapOrder.DownInvariant(HeapOrder.Swap(s, i, |s| - 1), |s| - 1, i, i, HeadPrecedes)
    {
      HeadPrecedesIsStrictWeakOrder();
      HeapOrder.SwapLastIsDownReady(s, i, HeadPrecedes);
    }

    /** The first head of a heap-ordered sequence is preceded by none. */
    static lemma RootHeadIsMinimal(s: seq<Option<Job>>)
      requires HeapOrder.Ordered(s, |s|, HeadPrecedes)
      ensures forall k :: 0 <= k < |s| ==> !HeadPrecedes(s[k], s[0])
    {
      HeadPrecedesIsStrictWeakOrder();
      forall k | 0 <= k < |s|
        ensures !HeadPrecedes(s[k], s[0])
      {
        HeapOrder.RootIsMinimal(s, |s|, HeadPrecedes, k);
      }
    }

    /** `heap.Fix`: sifts the tube at `i` down or up by the heads as they
        are now. When `tracked`, only slot `i` was out of place, and the
        heap is ordered afterwards. */
    method Fix(i: nat, ghost tracked: bool)
      requires Indexed() && Current() && i < |items|
      requires tracked ==> HeapOrder.DownInvariant(heads, |heads|, i, i, HeadPrecedes)
      modifies this
      ensures Indexed() && Current() && Names() == old(Names())
      ensures tracked ==> Valid()
      ensures multiset(items) == old(multiset(items))
    {
      var moved := Down(i, |items|, tracked);
      if !moved {
        Up(i, |items|, tracked);
      }
    }

    /** `heap.Push`: appends the tube and sifts it up. */
    method HeapPush(t: TubeItem)
      requires Valid() && Current() && t.name !in Names()
      modifies this
      ensures Valid() && Current() && Names() == old(Names()) + {t.name}
      ensures multiset(items) == old(multiset(items)) + multiset{t}
    {
      HeapOrder.AppendIsUpReady(heads, t.item.Head(), HeadPrecedes);
      PushItem(t);
      Up(|items| - 1, |items|, true);
    }

    /** The first half of `heap.Remove` for a slot below the last: swaps it
        with the last slot and restores heap order over the others. */
    method SwapOut(i: nat)
      requires Valid() && Current() && i < |items| - 1
      modifies this
      ensures Indexed() && Current() && Names() == old(Names())
      ensures |items| == old(|items|) && items[|items| - 1] == old(items[i])
      ensures multiset(items) == old(multiset(items))
      ensures HeapOrder.Ordered(heads, |heads| - 1, HeadPrecedes)
    {
      var n := |items| - 1;
      ghost var before := items;
      SwapLastTubes(heads, i);
      Swap(i, n, n + 1);
      ghost var swapped := items;
      var moved := Down(i, n, true);
      if !moved {
        Up(i, n, true);
      }
      assert items[n] == swapped[n] == before[i];
    }

    /** `heap.Remove`: moves slot `i` to the end, restores order over the
        other slots, and drops the last slot. */
    method HeapRemove(i: nat) returns (t: TubeItem)
      requires Valid() && Current() && i < |items|
      modifies this
      ensures Valid() && Current() && Names() == old(Names()) - {t.name}
      ensures t == old(items[i])
      ensures multiset(items) == old(multiset(items)) - multiset{t}
    {
      var n := |items| - 1;
      if n != i {
        SwapOut(i);
      }
      HeapOrder.PrefixOrdered(heads, n, HeadPrecedes);
      t := PopItem();
    }

    /** `FixByTube`: the queue of `tube` has changed; sifts its tube by
        the heads of the queues as they are now, whatever else has changed,
        and from then on remembers those heads. The heap is ordered
        afterwards when only this tube was out of place, in particular when
        every other queue is as the heap last saw it. `QueueMissing` and no
        change when no such tube is in the heap. */
    method FixByTube(tube: Tube) returns (r: Outcome)
      requires Indexed()
      modifies this
      ensures Indexed() && Names() == old(Names())
      ensures r == Ok <==> tube in old(Names())
      ensures r != Ok ==> r == Fail(QueueMissing) && items == old(items) && heads == old(heads)
      ensures r == Ok ==> Current()
      ensures multiset(items) == old(multiset(items))
      ensures old(tube in indexByTube && indexByTube[tube] < |items|
        && HeapOrder.DownInvariant(CurrentHeads(), |items|, indexByTube[tube], indexByTube[tube], HeadPrecedes))
        ==> Valid()
      ensures old(Valid() && forall k :: 0 <= k < |items| && items[k].name != tube ==> HeadIsCurrent(k))
        ==> Valid() && Current()
    {
      SlotIndex.BothWays(items, TubeKey, indexByTube);
      if tube !in indexByTube {
        if Valid() && forall k :: 0 <= k < |items| && items[k].name != tube ==> HeadIsCurrent(k) {
          forall k | 0 <= k < |items|
            ensures HeadIsCurrent(k)
          {
            assert items[k].name != tube by {
              assert SlotIndex.KeyIndexed(items, TubeKey, indexByTube, items[k].name);
            }
          }
        }
        return Fail(QueueMissing);
      }
      var index := indexByTube[tube];
      ghost var now := CurrentHeads();
      ghost var tracked := HeapOrder.DownInvariant(now, |items|, index, index, HeadPrecedes);
      if Valid() && forall k :: 0 <= k < |items| && items[k].name != tube ==> HeadIsCurrent(k) {
        OverwriteTubes(heads, |heads|, index, now[index]);
        assert heads[index := now[index]] == now by {
          forall k | 0 <= k < |items| && k != index
            ensures heads[k] == now[k]
          {
            assert items[k].name != tube by {
              assert SlotIndex.KeyIndexed(items, TubeKey, indexByTube, tube);
            }
          }
        }
      }
      heads := now;
      Fix(index, tracked);
      r := Ok;
    }

    /** `Peek`: the root's queue; `EmptyQueue` when the heap holds no tube.
        When the heap is ordered and every head is current, no other
        queue's head precedes the root's. */
    method Peek() returns (r: Result<JobHeap.JobHeapPriorityQueue>)
      requires Indexed()
      ensures r.Failure? <==> |items| == 0
      ensures r.Failure? ==> r.error == EmptyQueue
      ensures r.Success? ==> r.value == items[0].item
      ensures r.Success? && Valid() && Current() ==>
        forall k :: 0 <= k < |items| ==> !HeadPrecedes(items[k].item.Head(), r.value.Head())
      ensures r.Success? && Valid() && Current() && (exists k :: 0 <= k < |items| && items[k].item.Head().Some?) ==>
        r.value.Head().Some?
    {
      if |items| == 0 {
        return Failure(EmptyQueue);
      }
      if Valid() && Current() {
        RootHeadIsMinimal(heads);
        forall k | 0 <= k < |items|
          ensures !HeadPrecedes(items[k].item.Head(), items[0].item.Head())
        {
          assert HeadIsCurrent(k) && HeadIsCurrent(0);
        }
      }
      r := Success(items[0].item);
    }

    /** `Push`: adds a tube and its queue; `QueueAlreadyExist` and no
        change when a tube with that name is in the heap. */
    method Push(name: Tube, queue: JobHeap.JobHeapPriorityQueue) returns (r: Outcome)
      requires Valid() && Current()
      modifies this
      ensures Valid() && Current()
      ensures r == Ok <==> name !in old(Names())
      ensures r != Ok ==> r == Fail(QueueAlreadyExist) && items == old(items) && Names() == old(Names())
      ensures r == Ok ==>
        && multiset(items) == old(multiset(items)) + multiset{TubeItem(queue, name)}
        && Names() == old(Names()) + {name}
    {
      if HasID(name) {
        SlotIndex.BothWays(items, TubeKey, indexByTube);
        return Fail(QueueAlreadyExist);
      }
      SlotIndex.BothWays(items, TubeKey, indexByTube);
      HeapPush(TubeItem(queue, name));
      r := Ok;
    }

    /** `RemoveByTube`: removes the tube with this name; `QueueMissing` and
        no change when there is none. */
    method RemoveByTube(name: Tube) returns (r: Outcome)
      requires Valid() && Current()
      modifies this
      ensures Valid() && Current()
      ensures r == Ok <==> name in old(Names())
      ensures r != Ok ==> r == Fail(QueueMissing) && items == old(items) && Names() == old(Names())
      ensures r == Ok ==>
        && multiset(items) == old(multiset(items)) - multiset{old(Find(name))}
        && Names() == old(Names()) - {name}
    {
      if name !in indexByTube {
        return Fail(QueueMissing);
      }
      var index := indexByTube[name];
      SlotIndex.BothWays(items, TubeKey, indexByTube);
      assert SlotIndex.KeyIndexed(items, TubeKey, indexByTube, name);
      var t := HeapRemove(index);
      ghost var kept := indexByTube;
      label removed:
      indexByTube := indexByTube - {name};
      assert indexByTube == kept;
      forall k | 0 <= k < |items|
        ensures HeadIsCurrent(k)
      {
        assert old@removed(HeadIsCurrent(k));
      }
      r := Ok;
    }
  }

  /** In a valid two-tube heap whose heads are current, a tube with a job
      sits above a tube without one. */
  lemma NonEmptyTubeAtRoot(tubes: TubeHeapPriorityQueue, a: TubeItem, b: TubeItem)
    requires tubes.Valid() && tubes.Current()
    requires multiset(tubes.items) == multiset{a, b}
    requires a.item.Head().Some? && b.item.Head() == None
    ensures tubes.items == [a, b]
  {
    var s := tubes.items;
    assert |s| == 2 by {
      assert |multiset(s)| == |s|;
    }
    assert s == [s[0], s[1]];
    assert multiset{s[0], s[1]} == multiset{a, b};
    assert s[0] in multiset{a, b} && s[1] in multiset{a, b};
    assert tubes.HeadIsCurrent(0) && tubes.HeadIsCurrent(1);
    assert HeapOrder.EdgeHolds(tubes.heads, 1, HeadPrecedes);
    assert a != b;
    assert s[0] == a;
    assert s[1] == b by {
      assert multiset{a, s[1]} == multiset{a, b};
      assert b in multiset{a, s[1]};
    }
  }

  /** Sifting the last of two slots may leave both edges of a two-slot
      heap open. */
  lemma TwoSlotsDownReady<T>(s: seq<T>, lt: (T, T) -> bool)
    requires |s| == 2
    ensures HeapOrder.DownInvariant(s, 2, 1, 1, lt)
  {
  }

  /** The set-up of inmemory/tube_heap_test.go:41-80: a queue holding
      job 42 under "default", then an empty queue under "testTube". The
      first tube is at the root. */
  method TwoTubes() returns (tubes: TubeHeapPriorityQueue, queue: JobHeap.JobHeapPriorityQueue, low: JobHeap.JobHeapPriorityQueue)
    ensures fresh(tubes) && fresh(queue) && fresh(low) && queue != low
    ensures tubes.Valid() && tubes.Current() && queue.Valid() && low.Valid()
    ensures tubes.items == [TubeItem(queue, "default"), TubeItem(low, "testTube")]
    ensures tubes.Names() == {"default", "testTube"}
    ensures queue.Head().Some? && low.Head() == None
  {
    queue := new JobHeap.JobHeapPriorityQueue();
    low := new JobHeap.JobHeapPriorityQueue();
    tubes := new TubeHeapPriorityQueue();
    var r := queue.Push(Job(42, None, 0, [], 0));
    r := tubes.Push("default", queue);
    r := tubes.Push("testTube", low);
    NonEmptyTubeAtRoot(tubes, TubeItem(queue, "default"), TubeItem(low, "testTube"));
  }

  /** The scenario of inmemory/tube_heap_test.go:83-98, after `TwoTubes`:
      job 41 is pushed to the first queue and "testTube" is fixed,
      not "default". Only the first queue changed, and its tube already
      sits at the root, so `Peek` still returns it. */
  method FixOtherTubeThenPeek() returns (queue: JobHeap.JobHeapPriorityQueue, peeked: Result<JobHeap.JobHeapPriorityQueue>)
    ensures peeked == Success(queue)
  {
    var tubes, low;
    tubes, queue, low := TwoTubes();
    var r := queue.Push(Job(41, None, 0, [], 0));
    assert tubes.indexByTube["testTube"] == 1 by {
      assert SlotIndex.KeyIndexed(tubes.items, TubeKey, tubes.indexByTube, "testTube");
    }
    TwoSlotsDownReady(tubes.CurrentHeads(), HeadPrecedes);
    r := tubes.FixByTube("testTube");
    NonEmptyTubeAtRoot(tubes, TubeItem(queue, "default"), TubeItem(low, "testTube"));
    peeked := tubes.Peek();
  }
}
