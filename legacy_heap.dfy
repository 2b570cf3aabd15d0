/** The heap element types of the older `package main` snapshot
    (entities.go, job_heap.go, tube_heap.go). Jobs and tubes are shared
    objects that carry their own position in the heap slice, `Index`,
    which `Swap`, `Push` and `Pop` keep up to date. These files give only
    the element comparison and the slice operations that Go's
    `container/heap` calls. */
module LegacyHeap {
  import opened Entity

  /** The two numbers the comparisons read: priority, then ID. */
  datatype Key = Key(priority: Priority, id: JobID)

  /** `Less` of job_heap.go on the keys of two jobs, as written: a lower
      priority wins, and failing that a lower ID wins, even when the
      priority is higher. */
  predicate KeyLess(left: Key, right: Key) {
    if left.priority < right.priority then true
    else if left.id < right.id then true
    else false
  }

  /** The ordering the comparison evidently intends: by priority, and by
      ID between equal priorities. */
  predicate KeyPrecedes(left: Key, right: Key) {
    left.priority < right.priority || (left.priority == right.priority && left.id < right.id)
  }

  /** No key is less than itself. */
  lemma KeyLessIrreflexive(k: Key)
    ensures !KeyLess(k, k)
  {
  }

  /** As written, two keys can each be less than the other: a higher
      priority with a lower ID. */
  lemma KeyLessBothWays()
    ensures KeyLess(Key(1, 2), Key(2, 1)) && KeyLess(Key(2, 1), Key(1, 2))
  {
  }

  /** The written comparison accepts every pair the intended one orders,
      and adds exactly the pairs of a higher priority with a lower ID. */
  lemma KeyLessExtendsPrecedes(a: Key, b: Key)
    ensures KeyPrecedes(a, b) ==> KeyLess(a, b)
    ensures KeyLess(a, b) && !KeyPrecedes(a, b) <==> a.priority > b.priority && a.id < b.id
  {
  }

  /** The intended ordering is a strict total order on keys. */
  lemma KeyPrecedesIsStrictTotalOrder(a: Key, b: Key, c: Key)
    ensures !KeyPrecedes(a, a)
    ensures KeyPrecedes(a, b) ==> !KeyPrecedes(b, a)
    ensures KeyPrecedes(a, b) && KeyPrecedes(b, c) ==> KeyPrecedes(a, c)
    ensures a != b ==> KeyPrecedes(a, b) || KeyPrecedes(b, a)
  {
  }

  /** entities.go's `job`: the fields are set when the job is made and
      only `Index` changes afterwards. */
  class LegacyJob {
    const id: JobID
    const runnableAt: Time
    const timeToRun: Duration
    const body: seq<byte>
    const priority: Priority
    /** The position in the job heap. */
    var index: int

    constructor (id: JobID, runnableAt: Time, timeToRun: Duration, body: seq<byte>, priority: Priority)
      ensures this.id == id && this.runnableAt == runnableAt && this.timeToRun == timeToRun
      ensures this.body == body && this.priority == priority && index == 0
    {
      this.id := id;
      this.runnableAt := runnableAt;
      this.timeToRun := timeToRun;
      this.body := body;
      this.priority := priority;
      index := 0;
    }

    function OrderKey(): Key {
      Key(priority, id)
    }
  }

  /** `runnableAtJobHeap.Less`: the keys compared as written. The run
      time is never read. */
  predicate JobLess(left: LegacyJob, right: LegacyJob) {
    KeyLess(left.OrderKey(), right.OrderKey())
  }

  /** Two jobs with equal keys compare alike whatever their run times. */
  lemma JobLessReadsOnlyKeys(a: LegacyJob, b: LegacyJob, c: LegacyJob)
    requires a.OrderKey() == b.OrderKey()
    ensures JobLess(a, c) == JobLess(b, c) && JobLess(c, a) == JobLess(c, b)
  {
  }

  /** entities.go's `tube`: its job heap and its position in the tube
      heap. */
  class LegacyTube {
    var jobs: seq<LegacyJob>
    /** The position in the tube heap. */
    var index: int

    constructor (jobs: seq<LegacyJob>)
      ensures this.jobs == jobs && index == 0
    {
      this.jobs := jobs;
      index := 0;
    }
  }

  /** `tubeHeap.Less` as written: true whenever the right tube has no
      jobs; false when only the left one has none; otherwise the first
      jobs compared as job_heap.go does. */
  predicate TubeLess(left: LegacyTube, right: LegacyTube)
    reads left, right
  {
    if |right.jobs| == 0 then true
    else if |left.jobs| == 0 then false
    else JobLess(left.jobs[0], right.jobs[0])
  }

  /** The tube ordering evidently intended: tubes with jobs by their
      first jobs' keys, empty tubes after every other. */
  predicate TubePrecedes(left: LegacyTube, right: LegacyTube)
    reads left, right
  {
    |left.jobs| > 0 && (|right.jobs| == 0 || KeyPrecedes(left.jobs[0].OrderKey(), right.jobs[0].OrderKey()))
  }

  /** As written, a tube without jobs is less than itself. */
  lemma EmptyTubeLessThanItself(t: LegacyTube)
    requires |t.jobs| == 0
    ensures TubeLess(t, t)
  {
  }

  /** The three cases of `tubeHeap.Less`. */
  lemma TubeLessCases(left: LegacyTube, right: LegacyTube)
    ensures |right.jobs| == 0 ==> TubeLess(left, right)
    ensures |left.jobs| == 0 && |right.jobs| > 0 ==> !TubeLess(left, right)
    ensures |left.jobs| > 0 && |right.jobs| > 0 ==>
      (TubeLess(left, right) <==> KeyLess(left.jobs[0].OrderKey(), right.jobs[0].OrderKey()))
  {
  }

  /** The intended tube ordering never puts a tube before itself or two
      tubes before each other, and agrees with the written one wherever
      both tubes have jobs whose keys the written comparison orders one
      way only. */
  lemma TubePrecedesIsStrict(a: LegacyTube, b: LegacyTube)
    ensures !TubePrecedes(a, a)
    ensures TubePrecedes(a, b) ==> !TubePrecedes(b, a)
    ensures TubePrecedes(a, b) ==> TubeLess(a, b)
  {
    if |a.jobs| > 0 && |b.jobs| > 0 {
      KeyPrecedesIsStrictTotalOrder(a.jobs[0].OrderKey(), b.jobs[0].OrderKey(), a.jobs[0].OrderKey());
      KeyLessExtendsPrecedes(a.jobs[0].OrderKey(), b.jobs[0].OrderKey());
    }
  }

  /** job_heap.go's `runnableAtJobHeap`: a slice of shared jobs. */
  class RunnableAtJobHeap {
    var items: seq<LegacyJob>

    /** Every job records its own position. */
    ghost predicate Valid()
      reads this, items
    {
      forall k :: 0 <= k < |items| ==> items[k].index == k
    }

    constructor ()
      ensures items == [] && Valid()
    {
      items := [];
    }

    /** With the positions recorded, a job's `Index` finds it, and no job
        is in the slice twice. */
    lemma IndexFinds(j: LegacyJob)
      requires Valid() && j in items
      ensures 0 <= j.index < |items| && items[j.index] == j
      ensures forall k :: 0 <= k < |items| && items[k] == j ==> k == j.index
    {
    }

    predicate Less(i: nat, j: nat)
      reads this
      requires i < |items| && j < |items|
    {
      JobLess(items[i], items[j])
    }

    /** `Swap`: exchanges two slots and records both new positions (the
        second one wins when one object fills both slots). */
    method Swap(i: nat, j: nat)
      requires i < |items| && j < |items|
      modifies this, items[i], items[j]
      ensures items == old(items)[i := old(items[j])][j := old(items[i])]
      ensures items[j].index == j
      ensures i == j || old(items[i]) != old(items[j]) ==> items[i].index == i
      ensures old(Valid()) ==> Valid()
    {
      items := items[i := items[j]][j := items[i]];
      items[i].index := i;
      items[j].index := j;
    }

    /** `Push`: records the old length as the job's position and appends
        it; a job not yet in the slice keeps every position right. */
    method Push(x: LegacyJob)
      modifies this, x
      ensures items == old(items) + [x] && x.index == old(|items|)
      ensures old(Valid()) && x !in old(items) ==> Valid()
    {
      var n := |items|;
      x.index := n;
      items := items + [x];
    }

    /** `Pop`: removes the last job, marks it with position -1 and
        returns it. */
    method Pop() returns (item: LegacyJob)
      requires |items| > 0
      modifies this, items[|items| - 1]
      ensures item == old(items[|items| - 1]) && items == old(items[..|items| - 1])
      ensures item.index == -1
      ensures old(Valid()) ==> item !in items && Valid()
    {
      var n := |items|;
      item := items[n - 1];
      item.index := -1;
      items := items[..n - 1];
    }
  }

  /** tube_heap.go's `tubeHeap`: a slice of shared tubes. */
  class TubeHeap {
    var items: seq<LegacyTube>

    /** Every tube records its own position. */
    ghost predicate Valid()
      reads this, items
    {
      forall k :: 0 <= k < |items| ==> items[k].index == k
    }

    constructor ()
      ensures items == [] && Valid()
    {
      items := [];
    }

    predicate Less(i: nat, j: nat)
      reads this, items
      requires i < |items| && j < |items|
    {
      TubeLess(items[i], items[j])
    }

    /** `Swap`: exchanges two slots and records both new positions (the
        second one wins when one object fills both slots). */
    method Swap(i: nat, j: nat)
      requires i < |items| && j < |items|
      modifies this, items[i], items[j]
      ensures items == old(items)[i := old(items[j])][j := old(items[i])]
      ensures items[j].index == j
      ensures i == j || old(items[i]) != old(items[j]) ==> items[i].index == i
      ensures old(Valid()) ==> Valid()
    {
      items := items[i := items[j]][j := items[i]];
      items[i].index := i;
      items[j].index := j;
    }

    /** `Push`: records the old length as the tube's position and appends
        it. */
    method Push(x: LegacyTube)
      modifies this, x
      ensures items == old(items) + [x] && x.index == old(|items|)
      ensures old(Valid()) && x !in old(items) ==> Valid()
    {
      var n := |items|;
      x.index := n;
      items := items + [x];
    }

    /** `Pop`: removes the last tube, marks it with position -1 and
        returns it. */
    method Pop() returns (item: LegacyTube)
      requires |items| > 0
      modifies this, items[|items| - 1]
      ensures item == old(items[|items| - 1]) && items == old(items[..|items| - 1])
      ensures item.index == -1
      ensures old(Valid()) ==> item !in items && Valid()
    {
      var n := |items|;
      item := items[n - 1];
      item.index := -1;
      items := items[..n - 1];
    }
  }
}
