/** The in-memory job priority queue (inmemory/job_heap.go): a binary
    min-heap of jobs plus an index from job ID to heap slot, kept in sync by
    every swap, push and pop. The heap algorithms of Go's `container/heap`
    (up, down, Fix, Push, Pop, Remove) are written out as methods. The
    interface contracts of behaviour.go are stated on this class. */
module JobHeap {
  import opened Entity
  import opened Sort
  import HeapOrder
  import SlotIndex

  /** The key of the heap's index. */
  function JobKey(j: Job): JobID {
    j.id
  }

  class JobHeapPriorityQueue {
    var jobs: seq<Job>
    var indexByJobID: map<JobID, int>

    /** The index names exactly the jobs in the heap, each at its slot. */
    ghost predicate Indexed()
      reads this
    {
      SlotIndex.Matches(jobs, JobKey, indexByJobID)
    }

    ghost predicate Valid()
      reads this
    {
      Indexed() && HeapOrder.Ordered(jobs, |jobs|, Precedes)
    }

    /** The IDs of the queued jobs. */
    ghost function Ids(): set<JobID>
      reads this
    {
      indexByJobID.Keys
    }

    /** The queued jobs, as a multiset. */
    ghost function Contents(): multiset<Job>
      reads this
    {
      multiset(jobs)
    }

    /** The queued job with the given ID. */
    ghost function Find(id: JobID): (j: Job)
      reads this
      requires Indexed() && id in Ids()
      ensures j in jobs && j.id == id
    {
      assert SlotIndex.KeyIndexed(jobs, JobKey, indexByJobID, id);
      jobs[indexByJobID[id]]
    }

    /** `NewJobHeapPriorityQueue`: an empty queue. */
    constructor ()
      ensures Valid() && jobs == [] && Ids() == {}
    {
      jobs := [];
      indexByJobID := map[];
    }

    /** `HasID`: whether a job with this ID is queued. */
    function HasID(id: JobID): (r: bool)
      reads this
      requires Indexed()
      ensures r <==> exists k :: 0 <= k < |jobs| && jobs[k].id == id
    {
      SlotIndex.BothWays(jobs, JobKey, indexByJobID);
      id in indexByJobID
    }

    /** The job at the root, as `Peek` reports it. */
    function Head(): Option<Job>
      reads this
    {
      if |jobs| == 0 then None else Some(jobs[0])
    }

    /** The heap interface's `Less`: compares two slots. */
    predicate LessAt(i: nat, j: nat)
      reads this
      requires i < |jobs| && j < |jobs|
    {
      Precedes(jobs[i], jobs[j])
    }

    /** The heap interface's `Swap`: exchanges two slots and re-points the
        index at both. */
    method Swap(i: nat, j: nat, ghost n: nat)
      requires Indexed() && i < n && j < n && n <= |jobs|
      modifies this
      ensures Indexed() && Ids() == old(Ids())
      ensures jobs == HeapOrder.Swap(old(jobs), i, j)
      ensures multiset(jobs) == old(multiset(jobs)) && jobs[n..] == old(jobs[n..])
    {
      SlotIndex.SwapKeeps(jobs, JobKey, indexByJobID, i, j);
      jobs := jobs[i := jobs[j]][j := jobs[i]];
      indexByJobID := indexByJobID[jobs[i].id := i];
      indexByJobID := indexByJobID[jobs[j].id := j];
    }

    /** The heap interface's `Push`: indexes the job at the end and appends
        it. */
    method PushItem(j: Job)
      requires Indexed() && j.id !in Ids()
      modifies this
      ensures Indexed() && Ids() == old(Ids()) + {j.id}
      ensures jobs == old(jobs) + [j]
    {
      SlotIndex.AppendKeeps(jobs, JobKey, indexByJobID, j);
      indexByJobID := indexByJobID[j.id := |jobs|];
      jobs := jobs + [j];
    }

    /** The heap interface's `Pop`: drops the last slot and its index
        entry. */
    method PopItem() returns (j: Job)
      requires Indexed() && |jobs| > 0
      modifies this
      ensures Indexed() && Ids() == old(Ids()) - {j.id}
      ensures j == old(jobs[|jobs| - 1]) && jobs == old(jobs[..|jobs| - 1])
      ensures multiset(jobs) == old(multiset(jobs)) - multiset{j}
    {
      var n := |jobs|;
      j := jobs[n - 1];
      SlotIndex.DropLastKeeps(jobs, JobKey, indexByJobID);
      indexByJobID := indexByJobID - {j.id};
      assert jobs == jobs[..n - 1] + [j];
      jobs := jobs[..n - 1];
    }

    /** `container/heap`'s `up`: moves the job at `j0` towards the root
        while it is less than its parent. */
    method Up(j0: nat, ghost n: nat)
      requires Indexed() && j0 < n <= |jobs|
      requires HeapOrder.UpInvariant(jobs, n, j0, Precedes)
      modifies this
      ensures Indexed() && Ids() == old(Ids())
      ensures |jobs| == old(|jobs|) && jobs[n..] == old(jobs[n..])
      ensures multiset(jobs) == old(multiset(jobs))
      ensures HeapOrder.Ordered(jobs, n, Precedes)
    {
      var j: nat := j0;
      while 0 < j && LessAt(j, HeapOrder.Parent(j))
        invariant Indexed() && Ids() == old(Ids())
        invariant j < n && |jobs| == old(|jobs|) && jobs[n..] == old(jobs[n..])
        invariant multiset(jobs) == old(multiset(jobs))
        invariant HeapOrder.UpInvariant(jobs, n, j, Precedes)
        decreases j
      {
        var p := HeapOrder.Parent(j);
        UpStepJobs(jobs, n, j);
        Swap(p, j, n);
        j := p;
      }
      HeapOrder.UpDone(jobs, n, j, Precedes);
    }

    /** One round of `container/heap`'s `down` loop at hole `i`. */
    method DownRound(i0: nat, i: nat, n: nat) returns (next: nat)
      requires Indexed() && i0 <= i <= n <= |jobs| && i < |jobs|
      requires HeapOrder.DownInvariant(jobs, n, i, i0, Precedes)
      modifies this
      ensures Indexed() && Ids() == old(Ids())
      ensures |jobs| == old(|jobs|) && jobs[n..] == old(jobs[n..])
      ensures multiset(jobs) == old(multiset(jobs))
      ensures next == i ==> jobs == old(jobs) && HeapOrder.ChildrenNotLess(jobs, n, i, jobs[i], Precedes)
      ensures next != i ==> i < next < n && HeapOrder.DownInvariant(jobs, n, next, i0, Precedes)
    {
      var j1 := 2 * i + 1;
      if j1 >= n {
        return i;
      }
      var j := j1;
      ghost var second := j1 + 1 < n && LessAt(j1 + 1, j1);
      if j1 + 1 < n && LessAt(j1 + 1, j1) {
        j := j1 + 1;
      }
      SmallerChild(jobs, n, i, j1, second);
      if !LessAt(j, i) {
        return i;
      }
      DownStepJobs(jobs, n, i, i0, j);
      Swap(i, j, n);
      next := j;
    }

    /** `container/heap`'s `down`: moves the job at `i0` away from the root,
        within the first `n` slots, while a child is less than it. Reports
        whether the job moved. */
    method Down(i0: nat, n: nat) returns (moved: bool)
      requires Indexed() && i0 <= n <= |jobs| && i0 < |jobs|
      requires HeapOrder.DownInvariant(jobs, n, i0, i0, Precedes)
      modifies this
      ensures Indexed() && Ids() == old(Ids())
      ensures |jobs| == old(|jobs|) && jobs[n..] == old(jobs[n..])
      ensures multiset(jobs) == old(multiset(jobs))
      ensures moved ==> HeapOrder.Ordered(jobs, n, Precedes)
      ensures !moved ==> jobs == old(jobs) && HeapOrder.UpInvariant(jobs, n, i0, Precedes)
    {
      var i := i0;
      var next := DownRound(i0, i, n);
      while next != i
        invariant Indexed() && Ids() == old(Ids())
        invariant i0 <= i <= next <= n && i < |jobs| && |jobs| == old(|jobs|) && jobs[n..] == old(jobs[n..])
        invariant multiset(jobs) == old(multiset(jobs))
        invariant next == i0 ==> jobs == old(jobs)
        invariant next == i ==> HeapOrder.DownInvariant(jobs, n, i, i0, Precedes) && HeapOrder.ChildrenNotLess(jobs, n, i, jobs[i], Precedes)
        invariant next != i ==> next < n && HeapOrder.DownInvariant(jobs, n, next, i0, Precedes)
        decreases n - i
      {
        i := next;
        next := DownRound(i0, i, n);
      }
      HeapOrder.DownDone(jobs, n, i, i0, Precedes);
      moved := i > i0;
    }

    // The heap lemmas instantiated with the job ordering; each keeps the
    // strict-weak-order fact out of the callers' proof context.

    static lemma UpStepJobs(s: seq<Job>, n: nat, j: nat)
      requires n <= |s| && 0 < j < n && HeapOrder.UpInvariant(s, n, j, Precedes)
      requires Precedes(s[j], s[HeapOrder.Parent(j)])
      ensures HeapOrder.UpInvariant(HeapOrder.Swap(s, HeapOrder.Parent(j), j), n, HeapOrder.Parent(j), Precedes)
    {
      PrecedesIsStrictWeakOrder();
      HeapOrder.UpStep(s, n, j, Precedes);
    }

    static lemma DownStepJobs(s: seq<Job>, n: nat, i: nat, start: nat, j: nat)
      requires n <= |s| && start <= i && j < n && 0 < j && HeapOrder.Parent(j) == i
      requires HeapOrder.DownInvariant(s, n, i, start, Precedes)
      requires HeapOrder.ChildrenNotLess(s, n, i, s[j], Precedes)
      requires Precedes(s[j], s[i])
      ensures HeapOrder.DownInvariant(HeapOrder.Swap(s, i, j), n, j, start, Precedes)
    {
      PrecedesIsStrictWeakOrder();
      HeapOrder.DownStep(s, n, i, start, j, Precedes);
    }

    /** The child `down` picks precedes neither child; if it does not
        precede the hole, no child does. */
    static lemma SmallerChild(s: seq<Job>, n: nat, i: nat, j1: nat, second: bool)
      requires n <= |s| && j1 == 2 * i + 1 < n
      requires second <==> j1 + 1 < n && Precedes(s[j1 + 1], s[j1])
      ensures var j := if second then j1 + 1 else j1;
        && HeapOrder.ChildrenNotLess(s, n, i, s[j], Precedes)
        && (!Precedes(s[j], s[i]) ==> HeapOrder.ChildrenNotLess(s, n, i, s[i], Precedes))
    {
      var j := if second then j1 + 1 else j1;
      if !Precedes(s[j], s[i]) && j1 + 1 < n {
        PrecedesNegTransitive(s[i], s[j], s[j1]);
        PrecedesNegTransitive(s[i], s[j], s[j1 + 1]);
      }
    }

    static lemma OverwriteJobs(s: seq<Job>, n: nat, i: nat, x: Job)
      requires n <= |s| && i < n && HeapOrder.Ordered(s, n, Precedes)
      ensures HeapOrder.DownInvariant(s[i := x], n, i, i, Precedes)
    {
      PrecedesIsStrictWeakOrder();
      HeapOrder.OverwriteIsDownReady(s, n, i, x, Precedes);
    }

    static lemma SwapLastJobs(s: seq<Job>, i: nat)
      requires HeapOrder.Ordered(s, |s|, Precedes) && i < |s|
      ensures HeapOrder.DownInvariant(HeapOrder.Swap(s, i, |s| - 1), |s| - 1, i, i, Precedes)
    {
      PrecedesIsStrictWeakOrder();
      HeapOrder.SwapLastIsDownReady(s, i, Precedes);
    }

    /** The first job of a heap-ordered sequence is preceded by none. */
    static lemma RootJobIsMinimal(s: seq<Job>)
      requires HeapOrder.Ordered(s, |s|, Precedes)
      ensures forall k :: 0 <= k < |s| ==> !Precedes(s[k], s[0])
    {
      PrecedesIsStrictWeakOrder();
      forall k | 0 <= k < |s|
        ensures !Precedes(s[k], s[0])
      {
        HeapOrder.RootIsMinimal(s, |s|, Precedes, k);
      }
    }

    /** `heap.Fix`: restores heap order after the job at `i` was replaced. */
    method Fix(i: nat)
      requires Indexed() && i < |jobs|
      requires HeapOrder.DownInvariant(jobs, |jobs|, i, i, Precedes)
      modifies this
      ensures Valid() && Ids() == old(Ids())
      ensures multiset(jobs) == old(multiset(jobs))
    {
      var moved := Down(i, |jobs|);
      if !moved {
        Up(i, |jobs|);
      }
    }

    /** `heap.Push`: appends the job and sifts it up. */
    method HeapPush(j: Job)
      requires Valid() && j.id !in Ids()
      modifies this
      ensures Valid() && Ids() == old(Ids()) + {j.id}
      ensures multiset(jobs) == old(multiset(jobs)) + multiset{j}
    {
      HeapOrder.AppendIsUpReady(jobs, j, Precedes);
      PushItem(j);
      Up(|jobs| - 1, |jobs|);
    }

    /** The first half of `heap.Pop`: swaps the root with the last slot
        and sifts the new root down over the others. */
    method SwapOutRoot()
      requires Valid() && |jobs| > 0
      modifies this
      ensures Indexed() && Ids() == old(Ids())
      ensures |jobs| == old(|jobs|) && jobs[|jobs| - 1] == old(jobs[0])
      ensures multiset(jobs) == old(multiset(jobs))
      ensures HeapOrder.Ordered(jobs, |jobs| - 1, Precedes)
    {
      var n := |jobs| - 1;
      ghost var before := jobs;
      SwapLastJobs(jobs, 0);
      Swap(0, n, n + 1);
      ghost var swapped := jobs;
      var moved := Down(0, n);
      if !moved {
        HeapOrder.UpDone(jobs, n, 0, Precedes);
      }
      assert jobs[n] == swapped[n] == before[0];
    }

    /** `heap.Pop`: moves the root to the last slot, sifts the new root
        down over the others, and drops the last slot. */
    method HeapPop() returns (j: Job)
      requires Valid() && |jobs| > 0
      modifies this
      ensures Valid() && Ids() == old(Ids()) - {j.id}
      ensures j == old(jobs[0])
      ensures multiset(jobs) == old(multiset(jobs)) - multiset{j}
    {
      SwapOutRoot();
      HeapOrder.PrefixOrdered(jobs, |jobs| - 1, Precedes);
      j := PopItem();
    }

    /** The first half of `heap.Remove` for a slot below the last: swaps
        it with the last slot and restores heap order over the others. */
    method SwapOut(i: nat)
      requires Valid() && i < |jobs| - 1
      modifies this
      ensures Indexed() && Ids() == old(Ids())
      ensures |jobs| == old(|jobs|) && jobs[|jobs| - 1] == old(jobs[i])
      ensures multiset(jobs) == old(multiset(jobs))
      ensures HeapOrder.Ordered(jobs, |jobs| - 1, Precedes)
    {
      var n := |jobs| - 1;
      ghost var before := jobs;
      SwapLastJobs(jobs, i);
      Swap(i, n, n + 1);
      ghost var swapped := jobs;
      var moved := Down(i, n);
      if !moved {
        Up(i, n);
      }
      assert jobs[n] == swapped[n] == before[i];
    }

    /** `heap.Remove`: moves slot `i` to the end, restores order over the
        other slots, and drops the last slot. */
    method HeapRemove(i: nat) returns (j: Job)
      requires Valid() && i < |jobs|
      modifies this
      ensures Valid() && Ids() == old(Ids()) - {j.id}
      ensures j == old(jobs[i])
      ensures multiset(jobs) == old(multiset(jobs)) - multiset{j}
    {
      var n := |jobs| - 1;
      if n != i {
        SwapOut(i);
      }
      HeapOrder.PrefixOrdered(jobs, n, Precedes);
      j := PopItem();
    }

    /** `Update`: replaces the queued job with the same ID and restores
        heap order; `JobMissing` and no change when no such job is queued. */
    method Update(j: Job) returns (r: Outcome)
      requires Valid()
      modifies this
      ensures Valid() && Ids() == old(Ids())
      ensures r == Ok <==> j.id in old(Ids())
      ensures r != Ok ==> r == Fail(JobMissing) && jobs == old(jobs)
      ensures r == Ok ==> multiset(jobs) == old(multiset(jobs)) - multiset{old(Find(j.id))} + multiset{j}
    {
      if j.id !in indexByJobID {
        return Fail(JobMissing);
      }
      var index := indexByJobID[j.id];
      SlotIndex.BothWays(jobs, JobKey, indexByJobID);
      SlotIndex.ReplaceKeeps(jobs, JobKey, indexByJobID, index, j);
      OverwriteJobs(jobs, |jobs|, index, j);
      jobs := jobs[index := j];
      Fix(index);
      r := Ok;
    }

    /** `Pop`: removes and returns a job no other queued job precedes;
        `EmptyQueue` on an empty queue. */
    method Pop() returns (r: Result<Job>)
      requires Valid()
      modifies this
      ensures Valid()
      ensures r.Failure? <==> old(|jobs|) == 0
      ensures r.Failure? ==> r.error == EmptyQueue && jobs == old(jobs)
      ensures r.Success? ==>
        && r.value in old(jobs)
        && (forall k :: 0 <= k < old(|jobs|) ==> !Precedes(old(jobs[k]), r.value))
        && multiset(jobs) == old(multiset(jobs)) - multiset{r.value}
        && Ids() == old(Ids()) - {r.value.id}
      ensures r.Success? ==> old(Head()) == Some(r.value)
    {
      if |jobs| == 0 {
        return Failure(EmptyQueue);
      }
      RootJobIsMinimal(jobs);
      var j := HeapPop();
      r := Success(j);
    }

    /** `Peek`: the job `Pop` would return, without removing it;
        `EmptyQueue` on an empty queue. */
    method Peek() returns (r: Result<Job>)
      requires Valid()
      ensures r.Failure? <==> |jobs| == 0
      ensures r.Failure? ==> r.error == EmptyQueue
      ensures r.Success? ==>
        r.value in jobs && forall k :: 0 <= k < |jobs| ==> !Precedes(jobs[k], r.value)
      ensures r.Success? ==> Head() == Some(r.value)
      ensures r.Failure? ==> Head() == None
    {
      if |jobs| == 0 {
        return Failure(EmptyQueue);
      }
      RootJobIsMinimal(jobs);
      r := Success(jobs[0]);
    }

    /** `Push`: queues a job; `JobAlreadyExist` and no change when a job
        with that ID is already queued. */
    method Push(j: Job) returns (r: Outcome)
      requires Valid()
      modifies this
      ensures Valid()
      ensures r == Ok <==> j.id !in old(Ids())
      ensures r != Ok ==> r == Fail(JobAlreadyExist) && jobs == old(jobs) && Ids() == old(Ids())
      ensures r == Ok ==> multiset(jobs) == old(multiset(jobs)) + multiset{j} && Ids() == old(Ids()) + {j.id}
    {
      if HasID(j.id) {
        return Fail(JobAlreadyExist);
      }
      HeapPush(j);
      r := Ok;
    }

    /** `RemoveByID`: removes the queued job with this ID; `JobMissing` and
        no change when there is none. */
    method RemoveByID(id: JobID) returns (r: Outcome)
      requires Valid()
      modifies this
      ensures Valid()
      ensures r == Ok <==> id in old(Ids())
      ensures r != Ok ==> r == Fail(JobMissing) && jobs == old(jobs) && Ids() == old(Ids())
      ensures r == Ok ==> multiset(jobs) == old(multiset(jobs)) - multiset{old(Find(id))} && Ids() == old(Ids()) - {id}
    {
      if id !in indexByJobID {
        return Fail(JobMissing);
      }
      var index := indexByJobID[id];
      var _ := HeapRemove(index);
      r := Ok;
    }
  }
}
