/** The job entity, its numeric types and the error values shared by the
    store (entity.go, error.go, storage.go, server.go). */
module Entity {

  /** Go's `uint64`. */
  type uint64 = x: int | 0 <= x < 0x1_0000_0000_0000_0000

  /** Go's `int64`. */
  type int64 = x: int | -0x8000_0000_0000_0000 <= x < 0x8000_0000_0000_0000

  type byte = x: int | 0 <= x < 256

  const MaxUint64: uint64 := 0xFFFF_FFFF_FFFF_FFFF

  /** Every new job gets a fresh identifier. */
  type JobID = uint64

  /** A smaller value means higher precedence. */
  type Priority = uint64

  /** A point in time, in nanoseconds; the clock itself is a parameter of
      the operations that read it. */
  type Time = int

  /** The name of a tube, a named queue of jobs. */
  type Tube = string

  /** `time.Duration`: a signed 64-bit count of nanoseconds. */
  type Duration = int64

  datatype Option<+T> = None | Some(value: T)

  /** The metadata of one unit of work. `runnableAt == None` is Go's nil
      `*time.Time`. */
  datatype Job = Job(
    id: JobID,
    runnableAt: Option<Time>,
    timeToRun: Duration,
    body: seq<byte>,
    priority: Priority)
  {
    /** `Job.Copy`: a shallow copy. Jobs are values here, so the copy is
        the receiver itself, field for field. */
    function Copy(): (r: Job)
      ensures r.id == id && r.runnableAt == runnableAt && r.timeToRun == timeToRun
      ensures r.body == body && r.priority == priority
    {
      this
    }
  }

  /** The error values of the store and the server. */
  datatype Error =
    | JobAlreadyExist
    | JobMissing
    | QueueMissing
    | EmptyRegistry
    | EmptyQueue
    | QueueAlreadyExist
    | NoJobReady
    | NoJobDelayed
    | Draining

  /** An `error` result: nil or one error value. */
  datatype Outcome = Ok | Fail(error: Error)

  /** A `(value, error)` result pair. */
  datatype Result<+T> = Success(value: T) | Failure(error: Error)

  /** Reinterprets the low 64 bits of `x` as a two's-complement `int64`,
      as Go's conversions and multiplications on `int64` do. */
  function WrapInt64(x: int): (r: int64)
    ensures (r - x) % 0x1_0000_0000_0000_0000 == 0
    ensures -0x8000_0000_0000_0000 <= x < 0x8000_0000_0000_0000 ==> r == x
  {
    var m := x % 0x1_0000_0000_0000_0000;
    if m < 0x8000_0000_0000_0000 then m else m - 0x1_0000_0000_0000_0000
  }

  /** Wrapping `n` and then wrapping its product with 10^9 is congruent
      to the product of `n` itself, modulo 2^64. */
  lemma WrapTwice(n: int, w: int, d: int)
    requires (w - n) % 0x1_0000_0000_0000_0000 == 0
    requires (d - w * 1_000_000_000) % 0x1_0000_0000_0000_0000 == 0
    ensures (d - n * 1_000_000_000) % 0x1_0000_0000_0000_0000 == 0
  {
    var a := (w - n) / 0x1_0000_0000_0000_0000;
    var b := (d - w * 1_000_000_000) / 0x1_0000_0000_0000_0000;
    assert w - n == a * 0x1_0000_0000_0000_0000;
    assert d - w * 1_000_000_000 == b * 0x1_0000_0000_0000_0000;
    assert d - n * 1_000_000_000 == (b + a * 1_000_000_000) * 0x1_0000_0000_0000_0000;
  }

  /** `time.Duration(n) * time.Second` for an unsigned count of seconds:
      `n` seconds in nanoseconds, wrapped to 64 bits, so exactly that
      below about 292 years. */
  function Seconds(n: uint64): (r: Duration)
    ensures (r - n * 1_000_000_000) % 0x1_0000_0000_0000_0000 == 0
    ensures n < 9_223_372_036 ==> r == n * 1_000_000_000
  {
    var w := WrapInt64(n);
    var d := WrapInt64(w * 1_000_000_000);
    WrapTwice(n, w, d);
    d
  }
}
