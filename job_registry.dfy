/** The in-memory job registry (inmemory/job_btree.go): jobs stored by ID.
    The B-tree orders its items by job ID alone, so it is a map from ID to
    job here; `Has`, `ReplaceOrInsert`, `Get`, `Delete` and `Max` are the
    map's membership, update, lookup, removal and largest key. */
module JobRegistry {
  import opened Entity

  /** Every finite non-empty set of IDs has a largest element. */
  lemma {:induction false} LargestExists(s: set<JobID>)
    requires s != {}
    ensures exists m :: m in s && forall x :: x in s ==> x <= m
  {
    var y :| y in s;
    var rest := s - {y};
    var top := y;
    if rest != {} {
      LargestExists(rest);
      var m :| m in rest && forall x :: x in rest ==> x <= m;
      top := if m < y then y else m;
    }
    forall x | x in s
      ensures x <= top
    {
      if x != y {
        assert x in rest;
      }
    }
    assert top in s;
  }

  /** The largest ID of a non-empty set, as the B-tree's `Max` finds it. */
  function Largest(s: set<JobID>): (m: JobID)
    requires s != {}
    ensures m in s && forall x :: x in s ==> x <= m
  {
    LargestExists(s);
    var m :| m in s && forall x :: x in s ==> x <= m;
    m
  }

  /** An item of the B-tree: `Insert` and `Update` store the job itself
      as a value; a pointer to it is what `itemToJob` expects. */
  datatype Item = ValueItem(job: Job) | PointerItem(job: Job)

  /** A call that either returns a value or panics. */
  datatype Call<+T> = Returns(value: T) | Panics

  /** `itemToJob` as written: its type assertion to a pointer item panics
      on every value item. */
  function ItemToJob(item: Item): (r: Call<Job>)
    ensures r.Returns? <==> item.PointerItem?
    ensures r.Returns? ==> r.value == item.job
  {
    match item
    case PointerItem(j) => Returns(j)
    case ValueItem(_) => Panics
  }

  /** What a call makes of the value it returns; a panic stays a panic. */
  function MapCall<T, U>(c: Call<T>, f: T -> U): Call<U> {
    match c
    case Returns(v) => Returns(f(v))
    case Panics => Panics
  }

  class BTreeJobRegistry {
    var jobs: map<JobID, Job>

    /** Each job is stored under its own ID. */
    ghost predicate Valid()
      reads this
    {
      forall id :: id in jobs ==> jobs[id].id == id
    }

    /** `NewBTreeJobRegistry`: an empty registry. */
    constructor ()
      ensures Valid() && jobs == map[]
    {
      jobs := map[];
    }

    /** `Insert`: stores a job under its ID; `JobAlreadyExist` and no change
        when a job with that ID is stored, whatever its other fields. */
    method Insert(j: Job) returns (r: Outcome)
      requires Valid()
      modifies this
      ensures Valid()
      ensures r == Ok <==> j.id !in old(jobs)
      ensures r != Ok ==> r == Fail(JobAlreadyExist) && jobs == old(jobs)
      ensures r == Ok ==> jobs == old(jobs)[j.id := j]
    {
      if j.id in jobs {
        return Fail(JobAlreadyExist);
      }
      jobs := jobs[j.id := j];
      r := Ok;
    }

    /** `Update`: replaces the whole stored record with the same ID;
        `JobMissing` and no change when there is none. */
    method Update(j: Job) returns (r: Outcome)
      requires Valid()
      modifies this
      ensures Valid()
      ensures r == Ok <==> j.id in old(jobs)
      ensures r != Ok ==> r == Fail(JobMissing) && jobs == old(jobs)
      ensures r == Ok ==> jobs == old(jobs)[j.id := j] && jobs.Keys == old(jobs.Keys)
    {
      if j.id !in jobs {
        return Fail(JobMissing);
      }
      jobs := jobs[j.id := j];
      r := Ok;
    }

    /** `GetByID`: the stored job with this ID; `JobMissing` when there is
        none. */
    function GetByID(id: JobID): (r: Result<Job>)
      reads this
      requires Valid()
      ensures r.Success? <==> id in jobs
      ensures r.Success? ==> r.value.id == id && r.value == jobs[id]
      ensures r.Failure? ==> r.error == JobMissing
    {
      if id in jobs then Success(jobs[id]) else Failure(JobMissing)
    }

    /** `DeleteByID`: removes the job with this ID; `JobMissing` and no
        change when there is none. */
    method DeleteByID(id: JobID) returns (r: Outcome)
      requires Valid()
      modifies this
      ensures Valid()
      ensures r == Ok <==> id in old(jobs)
      ensures r != Ok ==> r == Fail(JobMissing) && jobs == old(jobs)
      ensures r == Ok ==> jobs == old(jobs) - {id}
    {
      if id !in jobs {
        return Fail(JobMissing);
      }
      jobs := jobs - {id};
      r := Ok;
    }

    /** `GetLargestID`: the highest stored ID; `EmptyRegistry` when nothing
        is stored. */
    function GetLargestID(): (r: Result<JobID>)
      reads this
      ensures r.Failure? <==> jobs == map[]
      ensures r.Failure? ==> r.error == EmptyRegistry
      ensures r.Success? ==> r.value in jobs && forall id :: id in jobs ==> id <= r.value
    {
      if jobs.Keys == {} then Failure(EmptyRegistry) else Success(Largest(jobs.Keys))
    }

    /** `GetByID` as written: the stored item goes through `itemToJob`. */
    function GetByIDAsWritten(id: JobID): (r: Call<Result<Job>>)
      reads this
      ensures id in jobs ==> r == Panics
      ensures id !in jobs ==> r == Returns(Failure(JobMissing))
    {
      if id !in jobs then Returns(Failure(JobMissing))
      else MapCall(ItemToJob(ValueItem(jobs[id])), (j: Job) => Success(j))
    }

    /** `GetLargestID` as written: the largest item goes through
        `itemToJob`. */
    function GetLargestIDAsWritten(): (r: Call<Result<JobID>>)
      reads this
      ensures jobs != map[] ==> r == Panics
      ensures jobs == map[] ==> r == Returns(Failure(EmptyRegistry))
    {
      if jobs.Keys == {} then Returns(Failure(EmptyRegistry))
      else MapCall(ItemToJob(ValueItem(jobs[Largest(jobs.Keys)])), (j: Job) => Success(j.id))
    }

    /** As written, looking up any registered ID panics, exactly where the
        corrected `GetByID` finds the job. */
    lemma LookupPanicsAsWritten(id: JobID)
      requires Valid()
      ensures GetByIDAsWritten(id).Panics? <==> GetByID(id).Success?
      ensures GetByIDAsWritten(id).Returns? ==> GetByIDAsWritten(id).value == GetByID(id)
    {
    }

    /** As written, asking a non-empty registry for its largest ID panics,
        exactly where the corrected `GetLargestID` answers. */
    lemma LargestPanicsAsWritten()
      ensures GetLargestIDAsWritten().Panics? <==> GetLargestID().Success?
      ensures GetLargestIDAsWritten().Returns? ==> GetLargestIDAsWritten().value == GetLargestID()
    {
    }
  }
}
