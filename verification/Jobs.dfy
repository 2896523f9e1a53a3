/** domain/indexing.py, `IndexingJob`: the life of one indexing job. */
module Jobs {
  import opened Ids
  import opened Wrappers

  const MAXIMUM_ATTEMPTS := 5
  const MAXIMUM_DELAY_SECONDS := 16

  datatype JobStatus = Waiting | Processing | RetryWait | Failed | Completed

  datatype JobError = NotClaimable | NotProcessing

  datatype Job = Job(
    id: Uuid, noteId: Uuid, userId: Uuid, noteVersion: nat, status: JobStatus, attempts: int,
    availableAt: Time, claimedAt: Option<Time>, leaseExpiresAt: Option<Time>, lastErrorCode: Option<string>,
    createdAt: Time, completedAt: Option<Time>)

  /** `IndexingJob.pending` */
  function NewJob(id: Uuid, noteId: Uuid, userId: Uuid, noteVersion: nat, now: Time): Job {
    Job(id, noteId, userId, noteVersion, Waiting, 0, now, None, None, None, now, None)
  }

  predicate IsClaimable(job: Job, now: Time) {
    || (job.status in {Waiting, RetryWait} && job.availableAt <= now)
    || (job.status == Processing && job.leaseExpiresAt.Some? && job.leaseExpiresAt.value <= now)
  }

  function Claim(job: Job, now: Time, leaseSeconds: int): Result<Job, JobError> {
    if !IsClaimable(job, now) then Failure(NotClaimable)
    else Success(job.(status := Processing, attempts := job.attempts + 1, claimedAt := Some(now),
                      leaseExpiresAt := Some(now + leaseSeconds * SECOND)))
  }

  function Pow2(n: nat): (r: nat)
    ensures r >= 1
  {
    if n == 0 then 1 else 2 * Pow2(n - 1)
  }

  /** `min(2 ** max(attempt_count - 1, 0), 16)` */
  function DelaySeconds(attempts: int): int {
    var delay := Pow2(if attempts - 1 > 0 then attempts - 1 else 0);
    if delay < MAXIMUM_DELAY_SECONDS then delay else MAXIMUM_DELAY_SECONDS
  }

  function FailTransient(job: Job, code: string, now: Time): Result<Job, JobError> {
    if job.status != Processing then Failure(NotProcessing)
    else Success(job.(status := if job.attempts >= MAXIMUM_ATTEMPTS then Failed else RetryWait,
                      availableAt := now + DelaySeconds(job.attempts) * SECOND,
                      leaseExpiresAt := None, lastErrorCode := Some(code)))
  }

  function Complete(job: Job, now: Time): Result<Job, JobError> {
    if job.status != Processing then Failure(NotProcessing)
    else Success(job.(status := Completed, completedAt := Some(now), leaseExpiresAt := None, lastErrorCode := None))
  }

  predicate Open(job: Job) {
    job.status == Waiting || job.status == RetryWait
  }

  /** The attempt counts a committed job can show. */
  predicate AttemptsOk(job: Job) {
    match job.status
    case Waiting => job.attempts == 0
    case RetryWait => 1 <= job.attempts <= 4
    case Failed => job.attempts == 5
    case Completed => 1 <= job.attempts <= 5
    case Processing => false
  }

  /** The claim order `ORDER BY available_at, created_at`. */
  predicate Before(a: Job, b: Job) {
    a.availableAt < b.availableAt || (a.availableAt == b.availableAt && a.createdAt <= b.createdAt)
  }

  /** The seconds that have passed, by the backoff alone, between the first failure and the n-th retry. */
  function BackoffSeconds(failures: nat): nat {
    Pow2(failures) - 1
  }

  /** Up to the fifth attempt the cap of sixteen seconds cuts nothing off the doubling delay. */
  lemma DelayDoubles(attempts: nat)
    requires 1 <= attempts <= MAXIMUM_ATTEMPTS
    ensures DelaySeconds(attempts) == Pow2(attempts - 1)
    ensures BackoffSeconds(attempts - 1) + DelaySeconds(attempts) == BackoffSeconds(attempts)
  {
    assert Pow2(1) == 2 && Pow2(2) == 4 && Pow2(3) == 8 && Pow2(4) == 16;
  }
}
