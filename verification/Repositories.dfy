/**
 The repositories, services and worker as the code has them: objects whose methods change the tables
 in place, statement by statement. Each method is one transaction, or a part of the worker's, and is
 proved to leave the tables as the transaction's function says; one that raises is rolled back.
 */
module Repositories {
  import opened Ids
  import opened Wrappers
  import opened Chunker
  import opened Notes
  import opened Store
  import opened Queue
  import opened QueueLaws
  import Jobs
  import Progress
  import LateSave

  class Database {
    var notes: map<Uuid, Note>
    var jobs: map<Uuid, Jobs.Job>
    var chunks: map<Uuid, seq<ChunkRow>>

    constructor ()
      ensures Tables() == EMPTY
    {
      notes, jobs, chunks := map[], map[], map[];
    }

    function Tables(): Db
      reads this
    {
      Db(notes, jobs, chunks)
    }

    /** The tables are set to another state of the database: back, when an exception leaves `session.begin()`, or on, when others commit. */
    method Become(to: Db)
      modifies this
      ensures Tables() == to
    {
      notes, jobs, chunks := to.notes, to.jobs, to.chunks;
    }
  }

  /** The tables after a transaction with this result: as it says, or as before if it raised. */
  function Committed<T>(before: Db, r: Result<(Db, T), StoreError>): Db {
    if r.Success? then r.value.0 else before
  }

  function Answered<T>(r: Result<(Db, T), StoreError>): Result<T, StoreError> {
    match r
    case Success((_, value)) => Success(value)
    case Failure(e) => Failure(e)
  }

  function WithUnit(r: Result<Db, StoreError>): Result<(Db, ()), StoreError> {
    match r
    case Success(db) => Success((db, ()))
    case Failure(e) => Failure(e)
  }

  class NoteRepository {
    const db: Database
    const user: Uuid

    constructor (db: Database, user: Uuid)
      ensures this.db == db && this.user == user
    {
      this.db := db;
      this.user := user;
    }

    method Add(note: Note, jobId: Uuid) returns (r: Result<(), StoreError>)
      modifies db
      ensures var result := WithUnit(Store.Add(old(db.Tables()), user, note, jobId));
              db.Tables() == Committed(old(db.Tables()), result) && r == Answered(result)
    {
      if note.userId != user {
        return Failure(OwnerMismatch);
      }
      var before := db.Tables();
      if note.id in db.notes {
        return Failure(IntegrityError);
      }
      db.notes := db.notes[note.id := note];
      var job := Jobs.NewJob(jobId, note.id, note.userId, note.version, note.createdAt);
      if job.id in db.jobs || HasJobFor(db.jobs, job.noteId, job.noteVersion) {
        db.Become(before);
        return Failure(IntegrityError);
      }
      db.jobs := db.jobs[job.id := job];
      return Success(());
    }

    method Get(noteId: Uuid) returns (r: Option<Note>)
      ensures r == Owned(db.Tables(), user, noteId)
    {
      r := if noteId in db.notes && db.notes[noteId].userId == user then Some(db.notes[noteId]) else None;
    }

    method Save(note: Note, expected: int, jobId: Uuid) returns (r: Result<bool, StoreError>)
      modifies db
      ensures var result := Store.Save(old(db.Tables()), user, note, expected, jobId);
              db.Tables() == Committed(old(db.Tables()), result) && r == Answered(result)
    {
      if note.id !in db.notes || db.notes[note.id].userId != user || db.notes[note.id].version != expected {
        return Success(false);
      }
      var before := db.Tables();
      db.notes := db.notes[note.id := Overwrite(db.notes[note.id], note)];
      db.jobs := map j | j in db.jobs && (db.jobs[j].noteId != note.id || db.jobs[j].status == Jobs.Completed) :: db.jobs[j];
      var job := Jobs.NewJob(jobId, note.id, note.userId, note.version, note.updatedAt);
      if job.id in db.jobs || HasJobFor(db.jobs, job.noteId, job.noteVersion) {
        db.Become(before);
        return Failure(IntegrityError);
      }
      db.jobs := db.jobs[job.id := job];
      return Success(true);
    }

    method Delete(noteId: Uuid) returns (deleted: bool)
      modifies db
      ensures (db.Tables(), deleted) == Store.Delete(old(db.Tables()), user, noteId)
    {
      if noteId !in db.notes || db.notes[noteId].userId != user {
        return false;
      }
      db.notes := db.notes - {noteId};
      db.jobs := map j | j in db.jobs && db.jobs[j].noteId != noteId :: db.jobs[j];
      db.chunks := db.chunks - {noteId};
      return true;
    }
  }

  datatype ServiceError = NoteNotFound | Conflict | Invalid(note: NoteError) | Store(store: StoreError)

  class NoteService {
    const store: NoteRepository

    constructor (store: NoteRepository)
      ensures this.store == store
    {
      this.store := store;
    }

    /** The step of the queue a creation is. */
    method Create(noteId: Uuid, title: string, content: string, jobId: Uuid, now: Time, ghost s: State)
      returns (r: Result<Note, ServiceError>)
      requires s.db == store.db.Tables()
      modifies store.db
      ensures store.db.Tables() == AfterCreate(s, CreateNote(store.user, noteId, jobId, title, content, now, now)).db
      ensures r.Success? ==> Notes.Create(noteId, store.user, title, content, now) == Success(r.value)
      ensures r.Failure? ==> store.db.Tables() == s.db
    {
      match Notes.Create(noteId, store.user, title, content, now)
      case Failure(e) => return Failure(Invalid(e));
      case Success(note) =>
        var added := store.Add(note, jobId);
        match added
        case Failure(e) => return Failure(Store(e));
        case Success(_) => return Success(note);
    }

    method Delete(noteId: Uuid) returns (r: Result<(), ServiceError>)
      modifies store.db
      ensures var (db, deleted) := Store.Delete(old(store.db.Tables()), store.user, noteId);
              store.db.Tables() == db && r == if deleted then Success(()) else Failure(NoteNotFound)
    {
      var deleted := store.Delete(noteId);
      if !deleted {
        return Failure(NoteNotFound);
      }
      return Success(());
    }

    /**
     `get` and `save` are two transactions; `others` are the transactions committed between them, and
     `between` the tables they leave. The effect is the step of the queue an update is at that later
     time, and a conflict is raised exactly if the note is gone or has moved on meanwhile.
     */
    method Update(noteId: Uuid, title: Option<string>, content: Option<string>, expected: int, jobId: Uuid, now: Time,
                  between: Db, ghost s: State, ghost others: seq<Step>)
      returns (r: Result<Note, ServiceError>)
      requires Inv(s) && s.db == store.db.Tables() && between == Queue.Run(s, others).db
      modifies store.db
      ensures var read, later := Owned(s.db, store.user, noteId), Queue.Run(s, others);
              && (r == Failure(NoteNotFound) <==> read.None?)
              && (read.None? ==> store.db.Tables() == s.db)
              && (read.Some? ==>
                match Notes.Update(read.value, title, content, Some(expected), now)
                case Failure(e) => r == Failure(Invalid(e)) && store.db.Tables() == s.db
                case Success(updated) =>
                  && store.db.Tables() == AfterUpdate(later, UpdateNote(store.user, noteId, title, content, expected, jobId, now, now)).db
                  && (r == Failure(Conflict) <==> Owned(later.db, store.user, noteId).None? || later.db.notes[noteId].version > expected)
                  && (r.Success? ==> r.value == updated && noteId in store.db.Tables().notes
                                     && TextOf(store.db.Tables().notes[noteId]) == TextOf(updated))
                  && (r.Failure? ==> store.db.Tables() == later.db))
    {
      hide Inv, Queue.Run, AfterUpdate, Store.Save;
      var current := store.Get(noteId);
      if current.None? {
        return Failure(NoteNotFound);
      }
      match Notes.Update(current.value, title, content, Some(expected), now)
      case Failure(e) => return Failure(Invalid(e));
      case Success(updated) =>
        store.db.Become(between);
        SplitUpdateIsOneStep(s, others, store.user, noteId, title, content, expected, jobId, now, now);
        StoredIsRecorded(s, noteId);
        var saved := store.Save(updated, expected, jobId);
        SaveOutcome(between, store.user, updated, expected, jobId);
        match saved
        case Failure(e) => return Failure(Store(e));
        case Success(found) =>
          if !found {
            return Failure(Conflict);
          }
          return Success(updated);
    }
  }

  class IndexingRepository {
    const db: Database

    constructor (db: Database)
      ensures this.db == db
    {
      this.db := db;
    }

    /** `claim_indexing_job`: mark the first claimable row that no other transaction has locked, if its attempts pass the check. */
    method ClaimNext(now: Time, lease: int, locked: set<Uuid>) returns (r: Result<Option<Jobs.Job>, StoreError>, ghost first: Option<Uuid>)
      requires forall j :: j in db.jobs ==> db.jobs[j].id == j
      modifies db
      ensures var before := old(db.Tables());
              match first
              case None => r == Success(None) && db.Tables() == before && forall j :: !Free(before, locked, now, j)
              case Some(j) =>
                && IsNext(before, locked, now, j)
                && Jobs.Claim(before.jobs[j], now, lease).Success?
                && var job := Jobs.Claim(before.jobs[j], now, lease).value;
                if AttemptsChecked(job) then r == Success(Some(job)) && db.Tables() == WriteJob(before, job)
                else r == Failure(IntegrityError) && db.Tables() == before
    {
      ghost var before := db.Tables();
      if j :| j in db.jobs && j !in locked && Jobs.IsClaimable(db.jobs[j], now) {
        ghost var some := Progress.WorkerFindsWork(before, locked, now, j);
        var next :| next in db.jobs && IsNext(db.Tables(), locked, now, next);
        var job := db.jobs[next];
        var claimed := job.(status := Jobs.Processing, attempts := job.attempts + 1, claimedAt := Some(now),
                            leaseExpiresAt := Some(now + lease * SECOND));
        if !AttemptsChecked(claimed) {
          return Failure(IntegrityError), Some(next);
        }
        db.jobs := db.jobs[next := claimed];
        return Success(Some(claimed)), Some(next);
      }
      return Success(None), None;
    }

    method Publish(job: Jobs.Job, chunks: seq<TextChunk>, embeddings: seq<Vector>, model: string, now: Time)
      returns (r: Result<bool, StoreError>)
      modifies db
      ensures var result := Store.Publish(old(db.Tables()), job, chunks, embeddings, model, now);
              db.Tables() == Committed(old(db.Tables()), result) && r == Answered(result)
    {
      var before := db.Tables();
      var n := job.noteId;
      if n !in db.notes || db.notes[n].userId != job.userId || db.notes[n].version != job.noteVersion || job.id !in db.jobs {
        return Success(false);
      }
      db.chunks := db.chunks[n := []];
      var size := if |chunks| <= |embeddings| then |chunks| else |embeddings|;
      for i := 0 to size
        invariant db.notes == before.notes && db.jobs == before.jobs && n in db.chunks && db.chunks == before.chunks[n := db.chunks[n]]
        invariant |db.chunks[n]| == i && forall k :: 0 <= k < i ==> db.chunks[n][k] == Row(job, chunks[k], embeddings[k], model, now)
      {
        db.chunks := db.chunks[n := db.chunks[n] + [Row(job, chunks[i], embeddings[i], model, now)]];
      }
      if |chunks| != |embeddings| {
        db.Become(before);
        return Failure(UnequalLengths);
      }
      assert db.chunks[n] == Rows(job, chunks, embeddings, model, now);
      db.notes := db.notes[n := MarkReady(db.notes[n], now)];
      match Jobs.Complete(job, now)
      case Failure(e) =>
        db.Become(before);
        return Failure(JobFault(e));
      case Success(done) =>
        db.jobs := db.jobs[job.id := done];
        return Success(true);
    }

    method Fail(job: Jobs.Job, code: string, now: Time) returns (r: Result<(), StoreError>)
      modifies db
      ensures var result := WithUnit(Store.Fail(old(db.Tables()), job, code, now));
              db.Tables() == Committed(old(db.Tables()), result) && r == Answered(result)
    {
      if job.id !in db.jobs {
        return Failure(JobNotFound);
      }
      match Jobs.FailTransient(job, code, now)
      case Failure(e) => return Failure(JobFault(e));
      case Success(failed) =>
        db.jobs := db.jobs[job.id := failed];
        var n := job.noteId;
        if failed.status == Jobs.Failed && n in db.notes && db.notes[n].version == job.noteVersion {
          db.notes := db.notes[n := MarkFailed(db.notes[n], code, now)];
        }
        return Success(());
    }

    method RetryFailed(noteId: Uuid, user: Uuid, now: Time) returns (retried: bool)
      modifies db
      ensures retried <==> exists j :: Retryable(old(db.Tables()), user, noteId, j)
      ensures retried ==> exists j :: Retryable(old(db.Tables()), user, noteId, j)
                                      && db.Tables() == Reopen(old(db.Tables()), noteId, j, now)
      ensures !retried ==> db.Tables() == old(db.Tables())
    {
      if noteId !in db.notes || db.notes[noteId].userId != user || db.notes[noteId].status != Notes.Failed {
        return false;
      }
      if j :| j in db.jobs && db.jobs[j].noteId == noteId && db.jobs[j].userId == user
              && db.jobs[j].noteVersion == db.notes[noteId].version && db.jobs[j].status == Jobs.Failed {
        assert Retryable(old(db.Tables()), user, noteId, j);
        db.notes := db.notes[noteId := db.notes[noteId].(status := Pending, errorCode := None)];
        db.jobs := db.jobs[j := Reopened(db.jobs[j], now)];
        return true;
      }
      return false;
    }
  }

  class IndexingService {
    const store: IndexingRepository

    constructor (store: IndexingRepository)
      ensures this.store == store
    {
      this.store := store;
    }

    /** `process`, given what the model answers for the chunks of the note. */
    method Process(job: Jobs.Job, answer: Answer, model: string, now: Time) returns (r: Result<bool, StoreError>)
      modifies store.db
      ensures var result := Store.Process(old(store.db.Tables()), job, answer, model, now);
              store.db.Tables() == Committed(old(store.db.Tables()), result) && r == Answered(result)
    {
      hide ChunkNote, Store.Publish, Store.Fail;
      var note := NoteForJob(store.db.Tables(), job);
      if note.None? || note.value.version != job.noteVersion {
        return Success(false);
      }
      var cut := ComputeChunks(note.value.title, note.value.content);
      match cut
      case Failure(e) => return Failure(ChunkFault(e));
      case Success(chunks) =>
        if answer.Crash? {
          return Failure(ModelFault);
        }
        if answer.Unavailable? || !RightShape(answer.vectors, |chunks|) {
          var failed := store.Fail(job, EMBEDDING_UNAVAILABLE, now);
          match failed {
            case Failure(e) => return Failure(e);
            case Success(_) => return Success(false);
          }
        }
        r := store.Publish(job, chunks, answer.vectors, model, now);
    }
  }

  /** The step of the queue a round of the poll loop is in this state: idle if nothing is claimable, else a worker transaction. */
  predicate RoundIs(s: State, poll: Poll, step: Step, lease: int, model: string) {
    if step.RunWorker? then
      && IsNext(s.db, poll.locked, poll.claimedAt, step.jobId)
      && step == RunWorker(step.jobId, poll.claimedAt, lease, poll.answer, model, poll.finishedAt, poll.committedAt)
    else step == Tick(poll.committedAt) && forall j :: !Free(s.db, poll.locked, poll.claimedAt, j)
  }

  /** An exception leaves the worker transaction. */
  predicate Raises(s: State, step: Step) {
    step.RunWorker? && step.jobId in s.db.jobs
    && Work(s.db, step.jobId, step.claimedAt, step.lease, step.answer, step.model, step.now).Failure?
  }

  /** What one round of the poll loop meets: clock readings, the model's answer, rows others have locked. */
  datatype Poll = Poll(claimedAt: Time, finishedAt: Time, committedAt: Time, answer: Answer, locked: set<Uuid>)

  class IndexWorker {
    const db: Database
    const lease: int
    const model: string

    constructor (db: Database, lease: int, model: string)
      ensures this.db == db && this.lease == lease && this.model == model
    {
      this.db := db;
      this.lease := lease;
      this.model := model;
    }

    /** `run_once`: claim and process in one transaction, rolled back as a whole if anything raises. */
    method RunOnce(poll: Poll) returns (r: Result<bool, StoreError>, ghost claimed: Option<Uuid>)
      requires forall j :: j in db.jobs ==> db.jobs[j].id == j
      modifies db
      ensures var before := old(db.Tables());
              match claimed
              case None => r == Success(false) && db.Tables() == before && forall j :: !Free(before, poll.locked, poll.claimedAt, j)
              case Some(j) =>
                && IsNext(before, poll.locked, poll.claimedAt, j)
                && var result := Work(before, j, poll.claimedAt, lease, poll.answer, model, poll.finishedAt);
                && db.Tables() == Committed(before, result) && r == Answered(result)
    {
      hide Store.Process, IsNext;
      var before := db.Tables();
      var repository := new IndexingRepository(db);
      var claim, first := repository.ClaimNext(poll.claimedAt, lease, poll.locked);
      claimed := first;
      if claimed.Some? { NextIsJob(before, poll.locked, poll.claimedAt, claimed.value); }
      match claim
      case Failure(e) => return Failure(e), claimed;
      case Success(None) => return Success(false), claimed;
      case Success(Some(job)) =>
        var service := new IndexingService(repository);
        r := service.Process(job, poll.answer, model, poll.finishedAt);
        if r.Failure? {
          db.Become(before);
        }
    }

    /**
     `run`, for as many rounds as it makes before it is stopped or an exception ends it: each round is
     one step of the queue, idle or a transaction on a first row, and only the last one may have raised.
     */
    method Run(polls: seq<Poll>, ghost s: State) returns (stopped: bool, ghost steps: seq<Step>)
      requires Inv(s) && s.db == db.Tables()
      requires forall i :: 0 <= i < |polls| ==> s.clock <= polls[i].committedAt && polls[i].claimedAt <= polls[i].finishedAt <= polls[i].committedAt
      requires forall i, j :: 0 <= i < j < |polls| ==> polls[i].committedAt <= polls[j].committedAt
      modifies db
      ensures db.Tables() == Queue.Run(s, steps).db && Inv(Queue.Run(s, steps))
      ensures |steps| <= |polls| && forall i :: 0 <= i < |steps| ==> RoundIs(Queue.Run(s, steps[..i]), polls[i], steps[i], lease, model)
      ensures if stopped then |steps| == |polls| else steps != []
      ensures forall i :: 0 <= i < |steps| ==> (Raises(Queue.Run(s, steps[..i]), steps[i]) <==> !stopped && i == |steps| - 1)
    {
      hide Inv, Work, Apply, IsNext, Free, RoundIs, Raises;
      steps := [];
      ghost var now := s;
      for i := 0 to |polls|
        invariant |steps| == i && now == Queue.Run(s, steps) && Inv(now) && now.db == db.Tables()
        invariant i < |polls| ==> now.clock <= polls[i].committedAt
        invariant forall k :: 0 <= k < i ==>
                    RoundIs(Queue.Run(s, steps[..k]), polls[k], steps[k], lease, model) && !Raises(Queue.Run(s, steps[..k]), steps[k])
      {
        IdsAreKeys(now);
        var r, claimed := RunOnce(polls[i]);
        ghost var step := StepOf(polls[i], claimed, lease, model);
        RoundIsStep(now, polls[i], claimed, lease, model, r, db.Tables());
        RunSnoc(s, steps, step);
        StepKeepsInv(now, step);
        ghost var before := steps;
        steps, now := steps + [step], Apply(now, step);
        assert forall k :: 0 <= k <= i ==> steps[..k] == before[..k];
        assert before[..i] == before;
        if r.Failure? {
          return false, steps;
        }
      }
      return true, steps;
    }
  }

  /** A job left beyond its note that has used up its attempts ends every worker that claims it. */
  lemma AdriftStopsWorker(s: State, poll: Poll, step: Step, lease: int, model: string, n: Uuid)
    requires RoundIs(s, poll, step, lease, model) && step.RunWorker?
    requires LateSave.Adrift(s.db, n, step.jobId) && s.db.jobs[step.jobId].attempts == Jobs.MAXIMUM_ATTEMPTS
    ensures Raises(s, step)
  {
    hide Work;
    LateSave.AdriftIsClaimedBare(s.db, n, step.jobId, step.claimedAt, step.lease, step.answer, step.model, step.now);
  }

  function StepOf(poll: Poll, claimed: Option<Uuid>, lease: int, model: string): Step {
    match claimed
    case None => Tick(poll.committedAt)
    case Some(j) => RunWorker(j, poll.claimedAt, lease, poll.answer, model, poll.finishedAt, poll.committedAt)
  }

  lemma RoundIsStep(s: State, poll: Poll, claimed: Option<Uuid>, lease: int, model: string, r: Result<bool, StoreError>, after: Db)
    requires Inv(s) && s.clock <= poll.committedAt && poll.claimedAt <= poll.finishedAt <= poll.committedAt
    requires match claimed
             case None => r == Success(false) && after == s.db && forall j :: !Free(s.db, poll.locked, poll.claimedAt, j)
             case Some(j) =>
               && IsNext(s.db, poll.locked, poll.claimedAt, j)
               && var result := Work(s.db, j, poll.claimedAt, lease, poll.answer, model, poll.finishedAt);
               && after == Committed(s.db, result) && r == Answered(result)
    ensures var step := StepOf(poll, claimed, lease, model);
            && RoundIs(s, poll, step, lease, model) && (Raises(s, step) <==> r.Failure?)
            && Apply(s, step).db == after && Apply(s, step).clock == poll.committedAt
  {
    hide Work, Inv;
  }

  lemma NextIsJob(db: Db, locked: set<Uuid>, now: Time, j: Uuid)
    requires IsNext(db, locked, now, j)
    ensures j in db.jobs
  {
  }

  lemma IdsAreKeys(s: State)
    requires Inv(s)
    ensures forall j :: j in s.db.jobs ==> s.db.jobs[j].id == j
  {
    hide JobInv, NoteInv;
    forall j | j in s.db.jobs ensures s.db.jobs[j].id == j {
      assert NoteLocal(s, s.db.jobs[j].noteId);
    }
  }

  lemma {:induction false} RunSnoc(s: State, steps: seq<Step>, step: Step)
    ensures Queue.Run(s, steps + [step]) == Apply(Queue.Run(s, steps), step)
    decreases |steps|
  {
    hide Apply;
    if steps == [] {
      assert Queue.Run(s, [step]) == Queue.Run(Apply(s, step), []) by { assert [step][1..] == []; }
    } else {
      RunSnoc(Apply(s, steps[0]), steps[1..], step);
      assert (steps + [step])[1..] == steps[1..] + [step];
    }
  }
}
