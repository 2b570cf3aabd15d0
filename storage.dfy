/** The storage service (storage.go): a job registry plus a ready queue and
    a delay queue. Jobs are added to the registry and routed to one queue;
    updates and deletes go to the registry first and then, ignoring their
    errors, to both queues. The clock is the parameter `now`. */
module Storage {
  import opened Entity
  import opened Sort
  import JobRegistry
  import JobHeap

  /** `Add`'s routing rule: a job is ready when it has a RunnableAt and
      the clock is strictly after it; every other job, including one
      without RunnableAt, is delayed. */
  predicate IsReady(j: Job, now: Time) {
    j.runnableAt.Some? && now > j.runnableAt.value
  }

  /** The effect of a queue `Push` whose error is ignored: the job is
      added, unless a job with its ID is already queued. */
  ghost predicate PushedOrKept(before: multiset<Job>, beforeIds: set<JobID>, after: multiset<Job>, afterIds: set<JobID>, j: Job) {
    && afterIds == beforeIds + {j.id}
    && after == if j.id in beforeIds then before else before + multiset{j}
  }

  class StorageService {
    const jobs: JobRegistry.BTreeJobRegistry
    const readyQueue: JobHeap.JobHeapPriorityQueue
    const delayQueue: JobHeap.JobHeapPriorityQueue

    /** The registry and two different queues, each well formed. */
    ghost predicate Valid()
      reads this, jobs, readyQueue, delayQueue
    {
      readyQueue != delayQueue && jobs.Valid() && readyQueue.Valid() && delayQueue.Valid()
    }

    /** Every queued job is registered, and no job is in both queues. This
        is what `Add`, `Update`, `DeleteByID` and `PopNextReady` keep. */
    ghost predicate Consistent()
      reads this, jobs, readyQueue, delayQueue
    {
      && readyQueue.Ids() <= jobs.jobs.Keys
      && delayQueue.Ids() <= jobs.jobs.Keys
      && readyQueue.Ids() !! delayQueue.Ids()
    }

    /** The service over a registry and two queues. */
    constructor (registry: JobRegistry.BTreeJobRegistry, ready: JobHeap.JobHeapPriorityQueue, delay: JobHeap.JobHeapPriorityQueue)
      requires ready != delay && registry.Valid() && ready.Valid() && delay.Valid()
      ensures Valid() && jobs == registry && readyQueue == ready && delayQueue == delay
    {
      jobs := registry;
      readyQueue := ready;
      delayQueue := delay;
    }

    /** `Add`: registers the job, then pushes it to the ready queue when it
        is ready and to the delay queue otherwise. The registry's
        `JobAlreadyExist` is returned with nothing changed. */
    method Add(j: Job, now: Time) returns (r: Outcome)
      requires Valid()
      modifies jobs, readyQueue, delayQueue
      ensures Valid()
      ensures r == Ok <==> j.id !in old(jobs.jobs)
      ensures r != Ok ==>
        && r == Fail(JobAlreadyExist) && jobs.jobs == old(jobs.jobs)
        && readyQueue.jobs == old(readyQueue.jobs) && delayQueue.jobs == old(delayQueue.jobs)
        && readyQueue.Ids() == old(readyQueue.Ids()) && delayQueue.Ids() == old(delayQueue.Ids())
      ensures r == Ok ==> jobs.jobs == old(jobs.jobs)[j.id := j]
      ensures r == Ok && IsReady(j, now) ==>
        && PushedOrKept(old(readyQueue.Contents()), old(readyQueue.Ids()), readyQueue.Contents(), readyQueue.Ids(), j)
        && delayQueue.jobs == old(delayQueue.jobs) && delayQueue.Ids() == old(delayQueue.Ids())
      ensures r == Ok && !IsReady(j, now) ==>
        && PushedOrKept(old(delayQueue.Contents()), old(delayQueue.Ids()), delayQueue.Contents(), delayQueue.Ids(), j)
        && readyQueue.jobs == old(readyQueue.jobs) && readyQueue.Ids() == old(readyQueue.Ids())
      ensures old(Consistent()) ==> Consistent()
      ensures r == Ok && old(Consistent()) ==>
        && j.id in jobs.jobs
        && (j.id in readyQueue.Ids() <==> IsReady(j, now))
        && (j.id in delayQueue.Ids() <==> !IsReady(j, now))
    {
      r := jobs.Insert(j);
      if r != Ok {
        return;
      }
      if j.runnableAt.Some? && now > j.runnableAt.value {
        PushIgnoringError(readyQueue, j);
      } else {
        PushIgnoringError(delayQueue, j);
      }
    }

    /** A queue `Push` whose error is dropped. */
    static method PushIgnoringError(q: JobHeap.JobHeapPriorityQueue, j: Job)
      requires q.Valid()
      modifies q
      ensures q.Valid()
      ensures PushedOrKept(old(q.Contents()), old(q.Ids()), q.Contents(), q.Ids(), j)
    {
      var _ := q.Push(j);
    }

    /** `Update`: replaces the registered job with the same ID, then the
        queued one in each queue that holds it; the queues' `JobMissing` is
        ignored. The registry's `JobMissing` is returned with nothing
        changed. */
    method Update(j: Job) returns (r: Outcome)
      requires Valid()
      modifies jobs, readyQueue, delayQueue
      ensures Valid()
      ensures r == Ok <==> j.id in old(jobs.jobs)
      ensures r != Ok ==>
        && r == Fail(JobMissing) && jobs.jobs == old(jobs.jobs)
        && readyQueue.jobs == old(readyQueue.jobs) && delayQueue.jobs == old(delayQueue.jobs)
      ensures r == Ok ==> jobs.jobs == old(jobs.jobs)[j.id := j]
      ensures readyQueue.Ids() == old(readyQueue.Ids()) && delayQueue.Ids() == old(delayQueue.Ids())
      ensures r == Ok && j.id in old(readyQueue.Ids()) ==>
        readyQueue.Contents() == old(readyQueue.Contents()) - multiset{old(readyQueue.Find(j.id))} + multiset{j}
      ensures r == Ok && j.id in old(delayQueue.Ids()) ==>
        delayQueue.Contents() == old(delayQueue.Contents()) - multiset{old(delayQueue.Find(j.id))} + multiset{j}
      ensures j.id !in old(readyQueue.Ids()) ==> readyQueue.jobs == old(readyQueue.jobs)
      ensures j.id !in old(delayQueue.Ids()) ==> delayQueue.jobs == old(delayQueue.jobs)
      ensures old(Consistent()) ==> Consistent()
    {
      r := jobs.Update(j);
      if r != Ok {
        return;
      }
      var _ := readyQueue.Update(j);
      var _ := delayQueue.Update(j);
    }

    /** `DeleteByID`: unregisters the job, then removes it from each queue
        that holds it; the queues' `JobMissing` is ignored. The registry's
        `JobMissing` is returned with nothing changed. */
    method DeleteByID(id: JobID) returns (r: Outcome)
      requires Valid()
      modifies jobs, readyQueue, delayQueue
      ensures Valid()
      ensures r == Ok <==> id in old(jobs.jobs)
      ensures r != Ok ==>
        && r == Fail(JobMissing) && jobs.jobs == old(jobs.jobs)
        && readyQueue.jobs == old(readyQueue.jobs) && delayQueue.jobs == old(delayQueue.jobs)
        && readyQueue.Ids() == old(readyQueue.Ids()) && delayQueue.Ids() == old(delayQueue.Ids())
      ensures r == Ok ==>
        && jobs.jobs == old(jobs.jobs) - {id}
        && readyQueue.Ids() == old(readyQueue.Ids()) - {id}
        && delayQueue.Ids() == old(delayQueue.Ids()) - {id}
        && id !in jobs.jobs && id !in readyQueue.Ids() && id !in delayQueue.Ids()
      ensures r == Ok && id in old(readyQueue.Ids()) ==>
        readyQueue.Contents() == old(readyQueue.Contents()) - multiset{old(readyQueue.Find(id))}
      ensures r == Ok && id in old(delayQueue.Ids()) ==>
        delayQueue.Contents() == old(delayQueue.Contents()) - multiset{old(delayQueue.Find(id))}
      ensures id !in old(readyQueue.Ids()) ==> readyQueue.jobs == old(readyQueue.jobs)
      ensures id !in old(delayQueue.Ids()) ==> delayQueue.jobs == old(delayQueue.jobs)
      ensures old(Consistent()) ==> Consistent()
    {
      r := jobs.DeleteByID(id);
      if r != Ok {
        return;
      }
      var _ := readyQueue.RemoveByID(id);
      var _ := delayQueue.RemoveByID(id);
    }

    /** `Read`: the registry's `GetByID`. */
    function Read(id: JobID): (r: Result<Job>)
      reads this, jobs
      requires jobs.Valid()
      ensures r.Success? <==> id in jobs.jobs
      ensures r.Success? ==> r.value == jobs.jobs[id] && r.value.id == id
      ensures r.Failure? ==> r.error == JobMissing
    {
      jobs.GetByID(id)
    }

    /** `PeekNextDelayed`: the delayed job no other delayed job precedes,
        without removing it; the delay queue's `EmptyQueue` becomes
        `NoJobDelayed`. */
    method PeekNextDelayed() returns (r: Result<Job>)
      requires Valid()
      ensures r.Failure? <==> |delayQueue.jobs| == 0
      ensures r.Failure? ==> r.error == NoJobDelayed
      ensures r.Success? ==>
        && delayQueue.Head() == Some(r.value)
        && forall k :: 0 <= k < |delayQueue.jobs| ==> !Precedes(delayQueue.jobs[k], r.value)
    {
      r := delayQueue.Peek();
      if r.Failure? && r.error == EmptyQueue {
        r := Failure(NoJobDelayed);
      }
    }

    /** `PopNextReady`: removes and returns the ready job no other ready
        job precedes; the ready queue's `EmptyQueue` becomes `NoJobReady`.
        The job stays registered. */
    method PopNextReady() returns (r: Result<Job>)
      requires Valid()
      modifies readyQueue
      ensures Valid()
      ensures r.Failure? <==> old(|readyQueue.jobs|) == 0
      ensures r.Failure? ==> r.error == NoJobReady && readyQueue.jobs == old(readyQueue.jobs)
      ensures r.Success? ==>
        && r.value in old(readyQueue.jobs)
        && (forall k :: 0 <= k < old(|readyQueue.jobs|) ==> !Precedes(old(readyQueue.jobs[k]), r.value))
        && readyQueue.Contents() == old(readyQueue.Contents()) - multiset{r.value}
        && readyQueue.Ids() == old(readyQueue.Ids()) - {r.value.id}
      ensures old(Consistent()) ==> Consistent()
    {
      r := readyQueue.Pop();
      if r.Failure? && r.error == EmptyQueue {
        r := Failure(NoJobReady);
      }
    }
  }
}
