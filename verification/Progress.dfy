/** The queue drains, a job is attempted at most five times, and nobody cuts in ahead of a claimable job. */
module Progress {
  import opened Ids
  import opened Wrappers
  import opened Chunker
  import opened Notes
  import opened Store
  import opened Queue
  import Jobs

  type JobTable = map<Uuid, Jobs.Job>

  /** The attempts an open job has left. */
  function Left(job: Jobs.Job): nat {
    if Jobs.Open(job) && job.attempts <= Jobs.MAXIMUM_ATTEMPTS then Jobs.MAXIMUM_ATTEMPTS - job.attempts else 0
  }

  /** The attempts left to all open jobs together. */
  ghost function Potential(jobs: JobTable): nat
    decreases |jobs|
  {
    if jobs == map[] then 0
    else
      var j :| j in jobs;
      Left(jobs[j]) + Potential(jobs - {j})
  }

  lemma {:induction false} PotentialOf(jobs: JobTable, j: Uuid)
    requires j in jobs
    ensures Potential(jobs) == Left(jobs[j]) + Potential(jobs - {j})
    decreases |jobs|
  {
    hide Left;
    var k :| k in jobs && Potential(jobs) == Left(jobs[k]) + Potential(jobs - {k});
    if k != j {
      PotentialOf(jobs - {k}, j);
      PotentialOf(jobs - {j}, k);
      assert jobs - {k} - {j} == jobs - {j} - {k};
    }
  }

  lemma PotentialUpdate(jobs: JobTable, j: Uuid, job: Jobs.Job)
    requires j in jobs
    ensures Potential(jobs[j := job]) == Potential(jobs) - Left(jobs[j]) + Left(job)
  {
    PotentialOf(jobs, j);
    PotentialOf(jobs[j := job], j);
    assert jobs[j := job] - {j} == jobs - {j};
  }

  /** A worker transaction that commits rewrites its own job and no other, spending one attempt or closing the job. */
  lemma WorkSpends(s: State, j: Uuid, claimedAt: Time, lease: int, answer: Answer, model: string, now: Time)
    requires Inv(s) && j in s.db.jobs && claimedAt <= now
    requires Work(s.db, j, claimedAt, lease, answer, model, now).Success?
    ensures var jobs := Work(s.db, j, claimedAt, lease, answer, model, now).value.0.jobs;
            && j in jobs && jobs == s.db.jobs[j := jobs[j]] && jobs[j].attempts == s.db.jobs[j].attempts + 1
            && SameKey(s.db.jobs[j], jobs[j])
            && Left(jobs[j]) < Left(s.db.jobs[j])
            && (Jobs.Open(jobs[j]) ==> jobs[j].availableAt >= now + SECOND)
  {
    hide ChunkNote, NoteLocal, Rows, MarkReady, MarkFailed, RightShape;
    var c, chunks := WorkerOutcome(s, j, claimedAt, lease, answer, model, now);
    assert NoteLocal(s, c.noteId);
    OpenJobIsCurrent(s, j);
    Jobs.DelayDoubles(c.attempts);
  }

  predicate WorkerStep(step: Step) {
    step.RunWorker? || step.Tick?
  }

  /** How many steps of the run changed the database. */
  function Commits(s: State, steps: seq<Step>): nat
    decreases |steps|
  {
    if steps == [] then 0
    else (if Apply(s, steps[0]).db != s.db then 1 else 0) + Commits(Apply(s, steps[0]), steps[1..])
  }

  /**
   Without user steps only finitely many worker transactions do anything: each one that commits
   spends at least one of the attempts left, whatever the model answered.
   */
  lemma {:induction false} QueueTerminates(s: State, steps: seq<Step>)
    requires Inv(s) && forall i :: 0 <= i < |steps| ==> WorkerStep(steps[i])
    ensures Commits(s, steps) + Potential(Run(s, steps).db.jobs) <= Potential(s.db.jobs)
    decreases |steps|
  {
    hide Potential, Work, NoteLocal;
    if steps != [] {
      var step, s' := steps[0], Apply(s, steps[0]);
      StepKeepsInv(s, step);
      QueueTerminates(s', steps[1..]);
      if s'.db != s.db {
        WorkSpends(s, step.jobId, step.claimedAt, step.lease, step.answer, step.model, step.now);
        PotentialUpdate(s.db.jobs, step.jobId, s'.db.jobs[step.jobId]);
      }
    }
  }

  /** When nothing is open any more, every note is ready or failed. */
  lemma DrainedIsSettled(s: State, n: Uuid)
    requires Inv(s) && n in s.db.notes && forall j :: j in s.db.jobs ==> !Jobs.Open(s.db.jobs[j])
    ensures s.db.notes[n].status in {Ready, Notes.Failed}
  {
    hide Indexes, WellFormed;
    assert NoteLocal(s, n);
    var j :| IsCurrent(s.db, j, n);
    assert IsJobOf(s.db, j, n);
  }

  lemma {:induction false} SomeJobIsFirst(jobs: JobTable, candidates: set<Uuid>) returns (first: Uuid)
    requires candidates != {} && candidates <= jobs.Keys
    ensures first in candidates && forall k :: k in candidates ==> Jobs.Before(jobs[first], jobs[k])
    decreases |candidates|
  {
    var some :| some in candidates;
    first := some;
    assert forall k :: k in candidates ==> k == some || k in candidates - {some};
    if candidates - {some} != {} {
      var other := SomeJobIsFirst(jobs, candidates - {some});
      if Jobs.Before(jobs[other], jobs[some]) {
        first := other;
      }
    }
  }

  /** The claim finds a row whenever an unlocked job is claimable. */
  lemma WorkerFindsWork(db: Db, locked: set<Uuid>, now: Time, j: Uuid) returns (next: Uuid)
    requires Free(db, locked, now, j)
    ensures IsNext(db, locked, now, next)
    ensures forall k :: Free(db, locked, now, k) ==>
              db.jobs[next].availableAt <= db.jobs[k].availableAt
              && (db.jobs[next].availableAt == db.jobs[k].availableAt ==> db.jobs[next].createdAt <= db.jobs[k].createdAt)
  {
    var candidates := set k | k in db.jobs && Free(db, locked, now, k);
    assert j in candidates;
    next := SomeJobIsFirst(db.jobs, candidates);
    forall k | k in db.jobs && Free(db, locked, now, k) ensures Jobs.Before(db.jobs[next], db.jobs[k]) {
      assert k in candidates;
    }
  }

  /** An open job can always be worked off, once its time has come, unless the model crashes. */
  lemma OpenJobsCanBeWorked(s: State, j: Uuid, now: Time, lease: int, answer: Answer, model: string) returns (next: Uuid)
    requires Inv(s) && j in s.db.jobs && Jobs.Open(s.db.jobs[j]) && s.db.jobs[j].availableAt <= now && !answer.Crash?
    ensures IsNext(s.db, {}, now, next) && Work(s.db, next, now, lease, answer, model, now).Success?
  {
    hide NoteLocal, ChunkNote, Rows;
    next := WorkerFindsWork(s.db, {}, now, j);
    var c, chunks := WorkerOutcome(s, next, now, lease, answer, model, now);
  }

  /** Every step of the run is a worker transaction on the row the claim's query returns, with the next of these answers. */
  ghost predicate WorksInOrder(s: State, steps: seq<Step>, answers: nat -> Answer)
    decreases |steps|
  {
    steps != [] ==>
      && steps[0].RunWorker? && steps[0].answer == answers(0) && Enabled(s, steps[0])
      && IsNext(s.db, {}, steps[0].claimedAt, steps[0].jobId)
      && WorksInOrder(Apply(s, steps[0]), steps[1..], (i: nat) => answers(i + 1))
  }

  /** Nothing is left to do, and every note is ready or failed. */
  predicate Drained(db: Db) {
    && (forall j :: j in db.jobs ==> !Jobs.Open(db.jobs[j]))
    && (forall n :: n in db.notes ==> db.notes[n].status in {Ready, Notes.Failed})
  }

  /**
   The queue can always be drained: from any state one worker reaches a state without open jobs in at
   most as many transactions as there are attempts left, whatever the model answers, unless it crashes.
   */
  lemma {:induction false} QueueDrains(s: State, lease: int, model: string, answers: nat -> Answer) returns (steps: seq<Step>)
    requires Inv(s) && forall i: nat :: !answers(i).Crash?
    ensures WorksInOrder(s, steps, answers) && |steps| <= Potential(s.db.jobs)
    ensures Drained(Run(s, steps).db)
    decreases Potential(s.db.jobs)
  {
    hide Potential, Inv, Work, IsNext;
    if j :| j in s.db.jobs && Jobs.Open(s.db.jobs[j]) {
      var now := if s.clock > s.db.jobs[j].availableAt then s.clock else s.db.jobs[j].availableAt;
      var next := OpenJobsCanBeWorked(s, j, now, lease, answers(0), model);
      var step := RunWorker(next, now, lease, answers(0), model, now, now);
      assert next in s.db.jobs by { NextIsThere(s.db, now, next); }
      WorkSpends(s, next, now, lease, answers(0), model, now);
      StepKeepsInv(s, step);
      var s' := Apply(s, step);
      PotentialUpdate(s.db.jobs, next, s'.db.jobs[next]);
      var rest := QueueDrains(s', lease, model, (i: nat) => answers(i + 1));
      steps := [step] + rest;
      assert steps[0] == step && steps[1..] == rest;
      assert Run(s, steps) == Run(s', rest);
    } else {
      steps := [];
      forall n | n in s.db.notes ensures s.db.notes[n].status in {Ready, Notes.Failed} { DrainedIsSettled(s, n); }
      assert Drained(s.db);
    }
  }

  lemma NextIsThere(db: Db, now: Time, next: Uuid)
    requires IsNext(db, {}, now, next)
    ensures next in db.jobs
  {
  }

  // ---- the attempts of one job ----

  /** The step makes a job of this identifier, or gives it back all its attempts. */
  predicate Renews(step: Step, j: Uuid) {
    (step.CreateNote? || step.UpdateNote? || step.RetryFailed?) && step.jobId == j
  }

  /** The step is a worker transaction on job j, and it commits. */
  predicate Attempts(s: State, step: Step, j: Uuid) {
    step.RunWorker? && step.jobId == j && Apply(s, step).db != s.db
  }

  function AttemptsMade(s: State, steps: seq<Step>, j: Uuid): nat
    decreases |steps|
  {
    if steps == [] then 0 else (if Attempts(s, steps[0], j) then 1 else 0) + AttemptsMade(Apply(s, steps[0]), steps[1..], j)
  }

  function LeftOf(jobs: JobTable, j: Uuid): nat {
    if j in jobs then Left(jobs[j]) else 0
  }

  /**
   Between its creation or its reopening and its end a job is attempted at most five times, whatever
   users do meanwhile, and the count it carries is exactly the number of attempts that committed.
   */
  lemma {:induction false} AtMostFiveAttempts(s: State, steps: seq<Step>, j: Uuid)
    requires Inv(s) && forall i :: 0 <= i < |steps| ==> !Renews(steps[i], j)
    ensures AttemptsMade(s, steps, j) + LeftOf(Run(s, steps).db.jobs, j) <= LeftOf(s.db.jobs, j) <= 5
    ensures var jobs := Run(s, steps).db.jobs;
            j in jobs ==> j in s.db.jobs && jobs[j].attempts == s.db.jobs[j].attempts + AttemptsMade(s, steps, j)
    decreases |steps|
  {
    hide Apply, NoteLocal, LeftOf, Renews, Attempts;
    LeftAtMostFive(s, j);
    if steps != [] {
      StepKeepsInv(s, steps[0]);
      StepAttempts(s, steps[0], j);
      AtMostFiveAttempts(Apply(s, steps[0]), steps[1..], j);
    }
  }

  lemma LeftAtMostFive(s: State, j: Uuid)
    requires Inv(s)
    ensures LeftOf(s.db.jobs, j) <= 5
  {
    hide NoteInv;
    if j in s.db.jobs { assert NoteLocal(s, s.db.jobs[j].noteId); }
  }

  lemma StepAttempts(s: State, step: Step, j: Uuid)
    requires Inv(s) && !Renews(step, j)
    ensures var made, jobs := (if Attempts(s, step, j) then 1 else 0), Apply(s, step).db.jobs;
            && LeftOf(jobs, j) + made <= LeftOf(s.db.jobs, j)
            && (j in jobs ==> j in s.db.jobs && jobs[j].attempts == s.db.jobs[j].attempts + made)
  {
    hide NoteLocal, AfterCreate, AfterUpdate, Work, Store.Delete, Reopen, Retryable;
    if Enabled(s, step) {
      if step.CreateNote? {
        CreateMakesOneJob(s, step, j);
      } else if step.UpdateNote? {
        UpdateMakesOneJob(s, step, j);
      } else if step.DeleteNote? {
        DeleteMakesNone(s, step, j);
      } else if step.RetryFailed? {
        RetryRenewsOne(s, step, j);
      } else if step.RunWorker? && Apply(s, step).db != s.db {
        WorkSpends(s, step.jobId, step.claimedAt, step.lease, step.answer, step.model, step.now);
      }
    }
  }

  predicate NotMade(jobs: JobTable, jobs': JobTable, j: Uuid) {
    j in jobs' ==> j in jobs && jobs'[j] == jobs[j]
  }

  lemma CreateMakesOneJob(s: State, step: Step, j: Uuid)
    requires step.CreateNote? && step.jobId != j
    ensures NotMade(s.db.jobs, AfterCreate(s, step).db.jobs, j)
  {
    hide ValidateText;
  }

  lemma UpdateMakesOneJob(s: State, step: Step, j: Uuid)
    requires step.UpdateNote? && step.jobId != j
    ensures NotMade(s.db.jobs, AfterUpdate(s, step).db.jobs, j)
  {
    hide ValidateText, Overwrite;
  }

  lemma DeleteMakesNone(s: State, step: Step, j: Uuid)
    requires step.DeleteNote?
    ensures NotMade(s.db.jobs, Store.Delete(s.db, step.user, step.noteId).0.jobs, j)
  {
  }

  lemma RetryRenewsOne(s: State, step: Step, j: Uuid)
    requires step.RetryFailed? && Enabled(s, step) && step.jobId != j
    ensures NotMade(s.db.jobs, Reopen(s.db, step.noteId, step.jobId, step.now).jobs, j)
  {
  }

  // ---- no starvation ----

  /** The open jobs the claim order puts at or before job j. */
  function Ahead(db: Db, j: Uuid): set<Uuid>
    requires j in db.jobs
  {
    set k | k in db.jobs && k != j && Jobs.Open(db.jobs[k]) && Jobs.Before(db.jobs[k], db.jobs[j])
  }

  /** Job j is open, and the step leaves it as it is. */
  predicate StillWaiting(s: State, step: Step, j: Uuid) {
    && j in s.db.jobs && Jobs.Open(s.db.jobs[j])
    && j in Apply(s, step).db.jobs && Apply(s, step).db.jobs[j] == s.db.jobs[j]
  }

  /** The clock was read so early before the commit that the job it opens may be available at that time already. */
  predicate CutsIn(step: Step, at: Time) {
    || ((step.CreateNote? || step.UpdateNote? || step.RetryFailed?) && step.now <= at)
    || (step.RunWorker? && step.now + SECOND <= at)
  }

  /**
   Jobs that are new, retried or failed come after job j in the claim order, unless the step's clock was
   read when j was not yet available; then the step's own job comes in, and no other.
   */
  lemma NobodyCutsIn(s: State, step: Step, j: Uuid)
    requires Inv(s) && StillWaiting(s, step, j)
    ensures Ahead(Apply(s, step).db, j)
            <= Ahead(s.db, j) + if CutsIn(step, s.db.jobs[j].availableAt) then {step.jobId} else {}
  {
    hide NoteLocal, AfterCreate, AfterUpdate, AfterWork, Store.Delete, Reopen, Retryable;
    if Enabled(s, step) {
      if step.CreateNote? {
        CreateOpensOne(s, step);
      } else if step.UpdateNote? {
        UpdateOpensOne(s, step);
      } else if step.DeleteNote? {
        DeleteOpensNone(s, step, j, 0);
      } else if step.RetryFailed? {
        RetryOpensOne(s, step);
      } else if step.RunWorker? && AfterWork(s, step) != s {
        WorkOpensOne(s, step);
      }
    }
  }

  /** The jobs that a request's transaction opens, if it commits, do cut in if its clock was read before j was available, and never after. */
  lemma EarlyStampCutsIn(s: State, step: Step, j: Uuid)
    requires Inv(s) && StillWaiting(s, step, j) && (step.CreateNote? || step.UpdateNote? || step.RetryFailed?)
    requires Apply(s, step).db != s.db
    ensures var at, db := s.db.jobs[j].availableAt, Apply(s, step).db;
            && step.jobId in db.jobs
            && (step.now < at ==> step.jobId in Ahead(db, j))
            && (step.now > at ==> step.jobId !in Ahead(db, j))
  {
    hide NoteLocal, AfterCreate, AfterUpdate, Reopen;
    if step.CreateNote? {
      CreateOpensOne(s, step);
    } else if step.UpdateNote? {
      UpdateOpensOne(s, step);
    } else {
      RetryOpensOne(s, step);
    }
  }

  /** Every open job is as it was, or is job k, available from the given time. */
  predicate OpensOne(jobs: JobTable, jobs': JobTable, k: Uuid, at: Time) {
    forall i :: i in jobs' && Jobs.Open(jobs'[i]) ==> (i in jobs && jobs'[i] == jobs[i]) || (i == k && jobs'[i].availableAt >= at)
  }

  /** Job k was opened at that time. */
  predicate Opened(jobs': JobTable, k: Uuid, at: Time) {
    k in jobs' && Jobs.Open(jobs'[k]) && jobs'[k].availableAt == at
  }

  lemma CreateOpensOne(s: State, step: Step)
    requires step.CreateNote?
    ensures OpensOne(s.db.jobs, AfterCreate(s, step).db.jobs, step.jobId, step.now)
    ensures AfterCreate(s, step).db != s.db ==> Opened(AfterCreate(s, step).db.jobs, step.jobId, step.now)
  {
    hide ValidateText;
  }

  lemma UpdateOpensOne(s: State, step: Step)
    requires step.UpdateNote?
    ensures OpensOne(s.db.jobs, AfterUpdate(s, step).db.jobs, step.jobId, step.now)
    ensures AfterUpdate(s, step).db != s.db ==> Opened(AfterUpdate(s, step).db.jobs, step.jobId, step.now)
  {
    hide ValidateText, Overwrite;
  }

  lemma DeleteOpensNone(s: State, step: Step, k: Uuid, at: Time)
    requires step.DeleteNote?
    ensures OpensOne(s.db.jobs, Store.Delete(s.db, step.user, step.noteId).0.jobs, k, at)
  {
  }

  lemma RetryOpensOne(s: State, step: Step)
    requires step.RetryFailed? && Enabled(s, step)
    ensures OpensOne(s.db.jobs, Reopen(s.db, step.noteId, step.jobId, step.now).jobs, step.jobId, step.now)
    ensures Opened(Reopen(s.db, step.noteId, step.jobId, step.now).jobs, step.jobId, step.now)
  {
  }

  lemma WorkOpensOne(s: State, step: Step)
    requires Inv(s) && step.RunWorker? && Enabled(s, step)
    ensures OpensOne(s.db.jobs, AfterWork(s, step).db.jobs, step.jobId, step.now + SECOND)
  {
    hide Inv, Work;
    if AfterWork(s, step) != s {
      WorkSpends(s, step.jobId, step.claimedAt, step.lease, step.answer, step.model, step.now);
    }
  }

  lemma {:induction false} SubsetSizeOf<T>(a: set<T>, b: set<T>)
    requires a <= b
    ensures |a| <= |b|
    decreases |a|
  {
    if a != {} {
      var x :| x in a;
      SubsetSizeOf(a - {x}, b - {x});
    }
  }

  lemma SmallerSet(a: set<Uuid>, b: set<Uuid>, x: Uuid)
    requires a <= b && x in b && x !in a
    ensures |a| < |b|
  {
    SubsetSizeOf(a, b - {x});
  }
}
