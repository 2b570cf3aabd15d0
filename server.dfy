/** The server facade (server.go): builds jobs with fresh IDs and passes
    additions and deletions on to the storage service. The ID channel fed
    by `GenerateIds` (utils.go) is modelled by the value it yields next,
    starting at 1 and going up by one, as a `uint64` does. */
module Server {
  import opened Entity
  import opened Sort
  import Storage

  /** The value the ID generator yields after `id`: `nextID++` on a
      `uint64`, which wraps to 0 after the largest value. */
  function NextID(id: JobID): (r: JobID)
    ensures id < MaxUint64 ==> r == id + 1 && r > id
    ensures id == MaxUint64 ==> r == 0
  {
    if id == MaxUint64 then 0 else id + 1
  }

  /** The job `BuildJob` makes when it receives `id`: RunnableAt is always
      set, to `at`; priority, time to run and body are copied unchanged. */
  function BuiltJob(id: JobID, pri: Priority, at: Time, ttr: Duration, body: seq<byte>): (j: Job)
    ensures j.id == id && j.runnableAt == Some(at)
    ensures j.priority == pri && j.timeToRun == ttr && j.body == body
  {
    Job(id, Some(at), ttr, body, pri)
  }

  /** Built jobs compare by their times alone, and on them the job ordering
      as written and as corrected agree: earlier comes first, and two
      built jobs never precede each other both ways. */
  lemma BuiltJobsOrderByTime(a: Job, b: Job, idA: JobID, idB: JobID, priA: Priority, priB: Priority,
                             atA: Time, atB: Time, ttrA: Duration, ttrB: Duration, bodyA: seq<byte>, bodyB: seq<byte>)
    requires a == BuiltJob(idA, priA, atA, ttrA, bodyA) && b == BuiltJob(idB, priB, atB, ttrB, bodyB)
    ensures Less(a, b) <==> atA < atB
    ensures Less(a, b) == Precedes(a, b)
    ensures !(Less(a, b) && Less(b, a))
  {
    TimedComparesByTime(a, b);
    LessAgreesOnTimedJobs(a, b);
  }

  class Server {
    const storage: Storage.StorageService
    /** The value the `Ids` channel yields next. */
    var nextID: JobID

    ghost predicate Valid()
      reads this, storage, storage.jobs, storage.readyQueue, storage.delayQueue
    {
      storage.Valid()
    }

    /** A server over a storage service, with a fresh ID generator. */
    constructor (s: Storage.StorageService)
      requires s.Valid()
      ensures Valid() && storage == s && nextID == 1
    {
      storage := s;
      nextID := 1;
    }

    /** `BuildJob`: takes the next ID from the generator. */
    method BuildJob(pri: Priority, at: Time, ttr: Duration, body: seq<byte>) returns (j: Job)
      modifies this
      ensures j == BuiltJob(old(nextID), pri, at, ttr, body)
      ensures nextID == NextID(old(nextID))
    {
      j := BuiltJob(nextID, pri, at, ttr, body);
      nextID := NextID(nextID);
    }

    /** `Add`: the storage service's `Add`, at time `now`. */
    method Add(j: Job, now: Time) returns (r: Outcome)
      requires Valid()
      modifies storage.jobs, storage.readyQueue, storage.delayQueue
      ensures Valid()
      ensures r == Ok <==> j.id !in old(storage.jobs.jobs)
      ensures r != Ok ==>
        && r == Fail(JobAlreadyExist) && storage.jobs.jobs == old(storage.jobs.jobs)
        && storage.readyQueue.Ids() == old(storage.readyQueue.Ids())
        && storage.delayQueue.Ids() == old(storage.delayQueue.Ids())
      ensures r == Ok ==> storage.jobs.jobs == old(storage.jobs.jobs)[j.id := j]
      ensures r == Ok && Storage.IsReady(j, now) ==>
        && storage.readyQueue.Ids() == old(storage.readyQueue.Ids()) + {j.id}
        && storage.delayQueue.Ids() == old(storage.delayQueue.Ids())
      ensures r == Ok && !Storage.IsReady(j, now) ==>
        && storage.delayQueue.Ids() == old(storage.delayQueue.Ids()) + {j.id}
        && storage.readyQueue.Ids() == old(storage.readyQueue.Ids())
      ensures old(storage.Consistent()) ==> storage.Consistent()
    {
      r := storage.Add(j, now);
    }

    /** `DeleteByID`: the storage service's `DeleteByID`. */
    method DeleteByID(id: JobID) returns (r: Outcome)
      requires Valid()
      modifies storage.jobs, storage.readyQueue, storage.delayQueue
      ensures Valid()
      ensures r == Ok <==> id in old(storage.jobs.jobs)
      ensures r != Ok ==>
        && r == Fail(JobMissing) && storage.jobs.jobs == old(storage.jobs.jobs)
        && storage.readyQueue.Ids() == old(storage.readyQueue.Ids())
        && storage.delayQueue.Ids() == old(storage.delayQueue.Ids())
      ensures r == Ok ==>
        && storage.jobs.jobs == old(storage.jobs.jobs) - {id}
        && storage.readyQueue.Ids() == old(storage.readyQueue.Ids()) - {id}
        && storage.delayQueue.Ids() == old(storage.delayQueue.Ids()) - {id}
      ensures old(storage.Consistent()) ==> storage.Consistent()
    {
      r := storage.DeleteByID(id);
    }
  }
}
