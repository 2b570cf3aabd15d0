/** The job ordering (sort.go) and the derived ordering of tubes by their
    head job (inmemory/tube_heap.go). */
module Sort {
  import opened Entity
  import HeapOrder

  /** `Less` exactly as written: a job with a RunnableAt comes first, two such
      jobs compare by time alone; otherwise the lower priority wins, and when
      it does not, the lower ID wins. That last step is also taken when the
      left priority is greater. */
  predicate Less(left: Job, right: Job) {
    if left.runnableAt.Some? || right.runnableAt.Some? then
      if left.runnableAt.Some? && right.runnableAt.Some? then
        left.runnableAt.value < right.runnableAt.value
      else
        left.runnableAt.Some?
    else if left.priority < right.priority then
      true
    else
      left.id < right.id
  }

  /** `Less` with IDs compared only between equal priorities. Jobs with
      a RunnableAt come first and are ordered by it alone, as in `Less`,
      so equal times tie; the others go by lower priority and then, only
      among equal priorities, by lower ID. The queues of this model use
      it. */
  predicate Precedes(left: Job, right: Job) {
    if left.runnableAt.Some? || right.runnableAt.Some? then
      if left.runnableAt.Some? && right.runnableAt.Some? then
        left.runnableAt.value < right.runnableAt.value
      else
        left.runnableAt.Some?
    else if left.priority != right.priority then
      left.priority < right.priority
    else
      left.id < right.id
  }

  /** A job with RunnableAt set comes before one without, never after. */
  lemma RunnableFirst(a: Job, b: Job)
    requires a.runnableAt.Some? && b.runnableAt.None?
    ensures Less(a, b) && !Less(b, a)
    ensures Precedes(a, b) && !Precedes(b, a)
  {
  }

  /** Two jobs that both have RunnableAt compare by time alone. */
  lemma TimedComparesByTime(a: Job, b: Job)
    requires a.runnableAt.Some? && b.runnableAt.Some?
    ensures Less(a, b) <==> a.runnableAt.value < b.runnableAt.value
  {
  }

  /** Without RunnableAt, a lower priority wins; at equal priorities the
      lower ID wins. */
  lemma UntimedByPriorityThenID(a: Job, b: Job)
    requires a.runnableAt.None? && b.runnableAt.None?
    ensures a.priority < b.priority ==> Less(a, b)
    ensures a.priority == b.priority ==> (Less(a, b) <==> a.id < b.id)
  {
  }

  lemma LessIrreflexive(j: Job)
    ensures !Less(j, j) && !Precedes(j, j)
  {
  }

  /** As written, `Less` holds in both directions for two jobs without
      RunnableAt when the one with the greater priority has the lower ID. */
  lemma LessNotAsymmetric()
    ensures var a := Job(40, None, 0, [], 1);
            var b := Job(42, None, 0, [], 0);
            Less(a, b) && Less(b, a)
  {
  }

  /** `Less` and `Precedes` differ exactly on pairs without RunnableAt whose
      left job has the greater priority and the lower ID. */
  lemma LessDiffersFromPrecedes(a: Job, b: Job)
    ensures Less(a, b) != Precedes(a, b) <==>
      (a.runnableAt.None? && b.runnableAt.None? && a.priority > b.priority && a.id < b.id)
  {
  }

  /** Every job built by the server has RunnableAt set; on such jobs the
      written `Less` and the corrected `Precedes` agree. */
  lemma LessAgreesOnTimedJobs(a: Job, b: Job)
    requires a.runnableAt.Some? && b.runnableAt.Some?
    ensures Less(a, b) == Precedes(a, b)
  {
  }

  /** `Precedes` is a strict weak order, so heaps ordered by it have their
      minimum at the root. */
  lemma PrecedesIsStrictWeakOrder()
    ensures HeapOrder.StrictWeakOrder(Precedes)
  {
    forall a, b, c | !Precedes(b, a) && !Precedes(c, b)
      ensures !Precedes(c, a)
    {
      PrecedesNegTransitive(a, b, c);
    }
  }

  lemma PrecedesNegTransitive(a: Job, b: Job, c: Job)
    requires !Precedes(b, a) && !Precedes(c, b)
    ensures !Precedes(c, a)
  {
  }

  /** The order of the queue behaviour tests: early time, later time, then
      no time with priority 0, then priority 1 with ID 40, then priority 1
      with ID 42. Each job precedes the next, under both orderings. */
  lemma TestOrderHolds(early: Time, later: Time)
    requires early < later
    ensures var jobs := [
              Job(42, Some(early), 0, [], 0),
              Job(41, Some(later), 0, [], 0),
              Job(39, None, 0, [], 0),
              Job(40, None, 0, [], 1),
              Job(42, None, 0, [], 1)];
            forall i :: 0 <= i < |jobs| - 1 ==>
              Less(jobs[i], jobs[i + 1]) && !Less(jobs[i + 1], jobs[i]) &&
              Precedes(jobs[i], jobs[i + 1]) && !Precedes(jobs[i + 1], jobs[i])
  {
  }

  /** The tube comparison as written: a tube whose queue is empty is never
      less; a non-empty one is less than an empty one; otherwise the heads
      compare with `Less`. */
  predicate TubeLess(left: Option<Job>, right: Option<Job>) {
    if left.None? then false
    else if right.None? then true
    else Less(left.value, right.value)
  }

  /** The tube comparison the tube queue of this model uses: the same rule
      with the corrected job ordering. */
  predicate HeadPrecedes(left: Option<Job>, right: Option<Job>) {
    if left.None? then false
    else if right.None? then true
    else Precedes(left.value, right.value)
  }

  /** Empty tubes are never less, and sort after non-empty ones. */
  lemma EmptyTubesLast(head: Option<Job>, job: Job)
    ensures !TubeLess(None, head) && !HeadPrecedes(None, head)
    ensures TubeLess(Some(job), None) && HeadPrecedes(Some(job), None)
  {
  }

  /** On tubes whose heads are empty or have RunnableAt set, as every job
      the server builds has, the written tube comparison and the one the
      tube queue uses agree. */
  lemma TubeLessAgreesOnTimedHeads(left: Option<Job>, right: Option<Job>)
    requires left.None? || left.value.runnableAt.Some?
    requires right.None? || right.value.runnableAt.Some?
    ensures TubeLess(left, right) == HeadPrecedes(left, right)
  {
  }

  lemma HeadPrecedesIsStrictWeakOrder()
    ensures HeapOrder.StrictWeakOrder(HeadPrecedes)
  {
    PrecedesIsStrictWeakOrder();
    forall a, b, c | !HeadPrecedes(b, a) && !HeadPrecedes(c, b)
      ensures !HeadPrecedes(c, a)
    {
      if c.Some? && b.Some? && a.Some? {
        PrecedesNegTransitive(a.value, b.value, c.value);
      }
    }
  }
}
