/**
 What each committed step leaves in the database, row by row and field by field, in any state of the
 queue; and exactly when it leaves everything as it was.
 */
module Effects {
  import opened Ids
  import opened Wrappers
  import opened Text
  import opened Chunker
  import opened ChunkLaws
  import opened Notes
  import opened Store
  import opened Queue
  import opened QueueLaws
  import Jobs

  predicate ValidTitle(title: string) {
    Strip(title) != "" && |Strip(title)| <= 200
  }

  predicate ValidContent(content: string) {
    Strip(content) != "" && |Strip(content)| <= 100_000
  }

  /** A job as a creation or a save puts it into the queue. */
  predicate Queued(job: Jobs.Job, id: Uuid, noteId: Uuid, user: Uuid, version: nat, now: Time) {
    job == Jobs.Job(id, noteId, user, version, Jobs.Waiting, 0, now, None, None, None, now, None)
  }

  /** A creation adds the stripped note and its job, or nothing. */
  lemma CreationAdds(s: State, step: Step)
    requires Inv(s) && Enabled(s, step) && step.CreateNote?
    ensures var db, n, j := Apply(s, step).db, step.noteId, step.jobId;
            if ValidTitle(step.title) && ValidContent(step.content) && j !in s.db.jobs then
              && n !in s.db.notes && db.chunks == s.db.chunks
              && db.notes == s.db.notes[n := Note(n, step.user, Strip(step.title), Strip(step.content), 1,
                                                  Pending, None, Some(step.now), step.now, step.now)]
              && j in db.jobs && db.jobs == s.db.jobs[j := db.jobs[j]] && Queued(db.jobs[j], j, n, step.user, 1, step.now)
            else db == s.db
  {
    hide Inv, Strip, Tokens;
    NotThere(s, step.noteId);
    if HasJobFor(s.db.jobs, step.noteId, 1) {
      var i :| i in s.db.jobs && s.db.jobs[i].noteId == step.noteId && s.db.jobs[i].noteVersion == 1;
      JobsHaveNotes(s, i);
    }
  }

  lemma NotThere(s: State, n: Uuid)
    requires Inv(s) && Fresh(s, n)
    ensures n !in s.db.notes
  {
    hide IndexInv, JobInv, WellFormed;
    assert NoteLocal(s, n);
  }

  lemma JobsHaveNotes(s: State, i: Uuid)
    requires Inv(s) && i in s.db.jobs
    ensures s.db.jobs[i].noteId in s.db.notes && s.db.jobs[i].userId == s.db.notes[s.db.jobs[i].noteId].userId
    ensures s.db.jobs[i].noteVersion <= s.db.notes[s.db.jobs[i].noteId].version && s.db.jobs[i].id == i
  {
    hide NoteInv;
    assert NoteLocal(s, s.db.jobs[i].noteId);
  }

  /** An insertion succeeds exactly for a note of the user's own with a new identifier whose job collides with none. */
  lemma AddExactlyIf(db: Db, user: Uuid, note: Note, j: Uuid)
    ensures var r := Add(db, user, note, j);
            && (r.Success? <==>
              && note.userId == user && note.id !in db.notes && j !in db.jobs
              && forall i :: i in db.jobs ==> !(db.jobs[i].noteId == note.id && db.jobs[i].noteVersion == note.version))
            && (r == Failure(OwnerMismatch) <==> note.userId != user)
  {
  }

  /** The update is of the user's own note at the version named, gives a text, and gives none that is not valid. */
  predicate Accepted(db: Db, step: Step)
    requires step.UpdateNote?
  {
    && step.noteId in db.notes && db.notes[step.noteId].userId == step.user && db.notes[step.noteId].version == step.expected
    && (step.title'.Some? || step.content'.Some?)
    && (step.title'.Some? ==> ValidTitle(step.title'.value)) && (step.content'.Some? ==> ValidContent(step.content'.value))
  }

  /** The job is one the save removes. */
  predicate Superseded(jobs: map<Uuid, Jobs.Job>, j: Uuid, n: Uuid) {
    j in jobs && jobs[j].noteId == n && jobs[j].status != Jobs.Completed
  }

  /** An update rewrites its note and puts one new job in the place of the note's unfinished ones, or changes nothing. */
  lemma UpdateRewrites(s: State, step: Step)
    requires Inv(s) && Enabled(s, step) && step.UpdateNote?
    ensures var db, n, j := Apply(s, step).db, step.noteId, step.jobId;
            if Accepted(s.db, step) && (j in s.db.jobs ==> Superseded(s.db.jobs, j, n)) then
              var row := s.db.notes[n];
              && db.chunks == s.db.chunks
              && db.notes == s.db.notes[n := row.(
                   title := if step.title'.Some? then Strip(step.title'.value) else row.title,
                   content := if step.content'.Some? then Strip(step.content'.value) else row.content,
                   version := row.version + 1, status := Pending, errorCode := None,
                   statusAt := Some(step.now), updatedAt := step.now)]
              && (forall i :: i in db.jobs <==> i == j || (i in s.db.jobs && !Superseded(s.db.jobs, i, n)))
              && (forall i :: i in db.jobs && i != j ==> db.jobs[i] == s.db.jobs[i])
              && Queued(db.jobs[j], j, n, step.user, row.version + 1, step.now)
            else db == s.db
  {
    hide Inv, SaveWrites, Strip, Tokens, Notes.Update;
    var n, j := step.noteId, step.jobId;
    if n in s.db.notes {
      StoredIsRecorded(s, n);
      var updated := Notes.Update(s.db.notes[n], step.title', step.content', Some(step.expected), step.now);
      if updated.Success? {
        NoneNewer(s, n);
        SaveReplaces(s.db, updated.value, j);
        NoChangeOfIdentity(s.db.notes[n], updated.value);
      }
    }
  }

  /** `Overwrite` leaves a row that differs from the new version only in what a version can change. */
  lemma NoChangeOfIdentity(row: Note, note: Note)
    requires note.id == row.id && note.userId == row.userId && note.createdAt == row.createdAt
    ensures Overwrite(row, note) == note
  {
  }

  lemma SaveReplaces(db: Db, note: Note, j: Uuid)
    requires note.id in db.notes && !HasJobFor(WithoutOpenJobs(db.jobs, note.id), note.id, note.version)
    ensures var r, n := SaveWrites(db, note, j), note.id;
            if j in db.jobs && !Superseded(db.jobs, j, n) then r.Failure?
            else
              && r.Success? && r.value.chunks == db.chunks && r.value.notes == db.notes[n := Overwrite(db.notes[n], note)]
              && (forall i :: i in r.value.jobs <==> i == j || (i in db.jobs && !Superseded(db.jobs, i, n)))
              && (forall i :: i in r.value.jobs && i != j ==> r.value.jobs[i] == db.jobs[i])
              && Queued(r.value.jobs[j], j, n, note.userId, note.version, note.updatedAt)
  {
    hide Overwrite;
  }

  lemma NoneNewer(s: State, n: Uuid)
    requires Inv(s) && n in s.db.notes
    ensures !HasJobFor(WithoutOpenJobs(s.db.jobs, n), n, s.db.notes[n].version + 1)
  {
    hide Inv;
    var jobs := WithoutOpenJobs(s.db.jobs, n);
    if HasJobFor(jobs, n, s.db.notes[n].version + 1) {
      var i :| i in jobs && jobs[i].noteId == n && jobs[i].noteVersion == s.db.notes[n].version + 1;
      JobsHaveNotes(s, i);
    }
  }

  /** A deletion answers True exactly for a note of the user's own; then the note, its jobs and its chunks are gone, and nothing else. */
  lemma DeletionRemoves(db: Db, user: Uuid, n: Uuid)
    ensures var (after, deleted) := Store.Delete(db, user, n);
            && (deleted <==> n in db.notes && db.notes[n].userId == user)
            && (!deleted ==> after == db)
            && (deleted ==>
              && (forall m :: m in after.notes <==> m in db.notes && m != n) && (forall m :: m in after.notes ==> after.notes[m] == db.notes[m])
              && (forall m :: m in after.chunks <==> m in db.chunks && m != n) && (forall m :: m in after.chunks ==> after.chunks[m] == db.chunks[m])
              && (forall j :: j in after.jobs <==> j in db.jobs && db.jobs[j].noteId != n) && (forall j :: j in after.jobs ==> after.jobs[j] == db.jobs[j]))
  {
  }

  /** And so it stays, in any run after it: a deleted note is never listed, indexed or retrieved again. */
  lemma DeletedForGood(s: State, step: Step, steps: seq<Step>)
    requires Inv(s) && Enabled(s, step) && step.DeleteNote?
    requires step.noteId in s.db.notes && s.db.notes[step.noteId].userId == step.user
    ensures var db := Run(Apply(s, step), steps).db;
            && step.noteId !in db.notes && step.noteId !in db.chunks
            && forall j :: j in db.jobs ==> db.jobs[j].noteId != step.noteId
  {
    hide Inv, Run;
    var n, after := step.noteId, Apply(s, step);
    StoredIsRecorded(s, n);
    DeletionRemoves(s.db, step.user, n);
    StepKeepsInv(s, step);
    GoneForGood(after, steps, n, (n, s.db.notes[n].version));
    RunKeepsInv(after, steps);
    var later := Run(after, steps);
    forall j | j in later.db.jobs ensures later.db.jobs[j].noteId != n { JobsHaveNotes(later, j); }
    ChunksHaveNotes(later, n);
  }

  lemma ChunksHaveNotes(s: State, n: Uuid)
    requires Inv(s)
    ensures n in s.db.chunks ==> n in s.db.notes
  {
    hide NoteInv, JobInv;
    assert NoteLocal(s, n);
  }

  /** In any state of the queue a retry finds its job exactly if the user's note has failed. */
  lemma RetryableExactlyIf(s: State, user: Uuid, n: Uuid)
    requires Inv(s)
    ensures (exists j :: Retryable(s.db, user, n, j)) <==> n in s.db.notes && s.db.notes[n].userId == user && s.db.notes[n].status == Failed
  {
    hide IndexInv, WellFormed, BackedOff;
    assert NoteLocal(s, n);
    if n in s.db.notes && s.db.notes[n].userId == user && s.db.notes[n].status == Failed {
      var j :| IsCurrent(s.db, j, n);
      assert Retryable(s.db, user, n, j);
    }
  }

  /** A retry puts the note and its job back to waiting, without attempts or errors. */
  lemma RetryReopens(s: State, step: Step)
    requires Enabled(s, step) && step.RetryFailed?
    ensures var db, n, j := Apply(s, step).db, step.noteId, step.jobId;
            var note, job := s.db.notes[n], s.db.jobs[j];
            && db.chunks == s.db.chunks && db.notes == s.db.notes[n := note.(status := Pending, errorCode := None)]
            && db.jobs == s.db.jobs[j := Jobs.Job(job.id, n, note.userId, note.version, Jobs.Waiting, 0, step.now, None, None, None, job.createdAt, None)]
  {
  }

  // ---- the worker ----

  /** In any state of the queue a job can be claimed exactly if it is waiting, or waiting for a retry, and its time has come. */
  lemma ClaimableExactlyIf(s: State, j: Uuid, t: Time)
    requires Inv(s) && j in s.db.jobs
    ensures Jobs.IsClaimable(s.db.jobs[j], t) <==>
            (s.db.jobs[j].status == Jobs.Waiting || s.db.jobs[j].status == Jobs.RetryWait) && s.db.jobs[j].availableAt <= t
  {
    hide NoteInv;
    assert NoteLocal(s, s.db.jobs[j].noteId);
  }

  /** The model answered with one vector of 768 numbers for each chunk. */
  predicate Answers(answer: Answer, count: nat) {
    answer.Vectors? && |answer.vectors| == count && forall i :: 0 <= i < count ==> |answer.vectors[i]| == 768
  }

  /** Seconds to the next attempt after so many. */
  const DELAYS: seq<int> := [0, 1, 2, 4, 8, 16]

  /** The rows of the chunks, in order, each with its own vector. */
  predicate RowsOfChunks(rows: seq<ChunkRow>, note: Note, chunks: seq<TextChunk>, vectors: seq<Vector>, model: string, now: Time) {
    && |rows| == |chunks| == |vectors|
    && forall i :: 0 <= i < |rows| ==>
         rows[i] == ChunkRow(note.id, note.userId, note.version, i, chunks[i].text, chunks[i].tokenCount, vectors[i], model, now)
  }

  predicate Published(db: Db, db': Db, j: Uuid, n: Uuid, chunks: seq<TextChunk>, step: Step)
    requires step.RunWorker? && step.answer.Vectors? && j in db.jobs && n in db.notes
  {
    && db'.notes == db.notes[n := db.notes[n].(status := Ready, errorCode := None, statusAt := Some(step.now))]
    && db'.jobs == db.jobs[j := db.jobs[j].(status := Jobs.Completed, attempts := db.jobs[j].attempts + 1, claimedAt := Some(step.claimedAt),
                                            leaseExpiresAt := None, lastErrorCode := None, completedAt := Some(step.now))]
    && n in db'.chunks && db'.chunks == db.chunks[n := db'.chunks[n]]
    && RowsOfChunks(db'.chunks[n], db.notes[n], chunks, step.answer.vectors, step.model, step.now)
  }

  predicate FailedOnce(db: Db, db': Db, j: Uuid, n: Uuid, step: Step)
    requires step.RunWorker? && j in db.jobs && n in db.notes && 0 <= db.jobs[j].attempts <= 4
  {
    var made := db.jobs[j].attempts + 1;
    && db'.chunks == db.chunks
    && db'.jobs == db.jobs[j := db.jobs[j].(status := if made == 5 then Jobs.Failed else Jobs.RetryWait, attempts := made,
                                            availableAt := step.now + DELAYS[made] * 1_000_000, claimedAt := Some(step.claimedAt),
                                            leaseExpiresAt := None, lastErrorCode := Some("embedding_unavailable"))]
    && db'.notes == if made < 5 then db.notes
                    else db.notes[n := db.notes[n].(status := Failed, errorCode := Some("embedding_unavailable"), statusAt := Some(step.now))]
  }

  /**
   A worker transaction on any job: nothing, if the job cannot be claimed or the model raises something
   else; the chunks of the note's text with the vectors given, if there is one of 768 numbers for each;
   otherwise a failure, after which the job waits the longer the more attempts were made, or is closed.
   */
  lemma WorkerEffect(s: State, step: Step) returns (chunks: seq<TextChunk>)
    requires Inv(s) && Enabled(s, step) && step.RunWorker?
    ensures var db, j := Apply(s, step).db, step.jobId;
            var job, n := s.db.jobs[j], s.db.jobs[j].noteId;
            if !((job.status == Jobs.Waiting || job.status == Jobs.RetryWait) && job.availableAt <= step.claimedAt) || step.answer.Crash? then db == s.db
            else
              && IsCurrent(s.db, j, n) && ChunkNote(s.db.notes[n].title, s.db.notes[n].content) == Success(chunks)
              && 0 <= job.attempts <= 4
              && if Answers(step.answer, |chunks|) then Published(s.db, db, j, n, chunks, step) else FailedOnce(s.db, db, j, n, step)
  {
    hide Inv, ChunkNote, Work, Settle, Published, FailedOnce;
    var j := step.jobId;
    chunks := [];
    ClaimableExactlyIf(s, j, step.claimedAt);
    if Jobs.IsClaimable(s.db.jobs[j], step.claimedAt) {
      var c: Jobs.Job;
      c, chunks := WorkerOutcome(s, j, step.claimedAt, step.lease, step.answer, step.model, step.now);
      CurrentFacts(s, j, c.noteId);
      SettleEffect(s.db, j, c, chunks, step);
    } else {
      NotClaimed(s.db, step);
    }
  }

  lemma CurrentFacts(s: State, j: Uuid, n: Uuid)
    requires Inv(s) && IsCurrent(s.db, j, n) && Jobs.Open(s.db.jobs[j])
    ensures s.db.notes[n].id == n && s.db.notes[n].userId == s.db.jobs[j].userId && s.db.jobs[j].id == j && 0 <= s.db.jobs[j].attempts <= 4
  {
    hide IndexInv, WellFormed;
    assert NoteLocal(s, n);
  }

  lemma NotClaimed(db: Db, step: Step)
    requires step.RunWorker? && step.jobId in db.jobs && !Jobs.IsClaimable(db.jobs[step.jobId], step.claimedAt)
    ensures Work(db, step.jobId, step.claimedAt, step.lease, step.answer, step.model, step.now).Failure?
  {
    hide Process;
  }

  lemma SettleEffect(db: Db, j: Uuid, c: Jobs.Job, chunks: seq<TextChunk>, step: Step)
    requires step.RunWorker? && j in db.jobs && ClaimOf(db, j, c, step.claimedAt, step.lease) && IsCurrent(db, j, c.noteId)
    requires db.jobs[j].id == j && 0 <= db.jobs[j].attempts <= 4
    requires db.notes[c.noteId].id == c.noteId && db.notes[c.noteId].userId == c.userId
    requires ChunkNote(db.notes[c.noteId].title, db.notes[c.noteId].content) == Success(chunks)
    ensures var r := Settle(WriteJob(db, c), c, chunks, step.answer, step.model, step.now);
            if step.answer.Crash? then r.Failure?
            else r.Success? && if Answers(step.answer, |chunks|) then Published(db, r.value.0, j, c.noteId, chunks, step)
                               else FailedOnce(db, r.value.0, j, c.noteId, step)
  {
    hide ChunkNote;
    if step.answer.Vectors? && Answers(step.answer, |chunks|) {
      OrdinalsInOrder(db.notes[c.noteId], chunks);
      PublishEffect(db, j, c, chunks, step);
    } else if !step.answer.Crash? {
      FailEffect(db, j, c, step);
    }
  }

  lemma OrdinalsInOrder(note: Note, chunks: seq<TextChunk>)
    requires ChunkNote(note.title, note.content) == Success(chunks)
    ensures forall i :: 0 <= i < |chunks| ==> chunks[i].ordinal == i
  {
    hide ChunkNote;
    ChunksWellShaped(note.title, note.content, TARGET_TOKENS, OVERLAP_TOKENS);
  }

  lemma PublishEffect(db: Db, j: Uuid, c: Jobs.Job, chunks: seq<TextChunk>, step: Step)
    requires step.RunWorker? && j in db.jobs && ClaimOf(db, j, c, step.claimedAt, step.lease) && IsCurrent(db, j, c.noteId)
    requires db.jobs[j].id == j && db.notes[c.noteId].id == c.noteId && db.notes[c.noteId].userId == c.userId
    requires Answers(step.answer, |chunks|) && forall i :: 0 <= i < |chunks| ==> chunks[i].ordinal == i
    ensures var r := Publish(WriteJob(db, c), c, chunks, step.answer.vectors, step.model, step.now);
            r.Success? && Published(db, r.value.0, j, c.noteId, chunks, step)
  {
  }

  lemma FailEffect(db: Db, j: Uuid, c: Jobs.Job, step: Step)
    requires step.RunWorker? && j in db.jobs && ClaimOf(db, j, c, step.claimedAt, step.lease) && IsCurrent(db, j, c.noteId)
    requires db.jobs[j].id == j && 0 <= db.jobs[j].attempts <= 4
    ensures var r := Fail(WriteJob(db, c), c, EMBEDDING_UNAVAILABLE, step.now);
            r.Success? && FailedOnce(db, r.value, j, c.noteId, step)
  {
    Jobs.DelayDoubles(c.attempts);
    assert Jobs.Pow2(0) == 1 && Jobs.Pow2(1) == 2 && Jobs.Pow2(2) == 4 && Jobs.Pow2(3) == 8 && Jobs.Pow2(4) == 16;
  }

  /** `publish` publishes exactly for a claimed job that is there, at its note's version, with as many vectors as chunks; for another version, or none, it refuses. */
  lemma PublishesExactlyIf(db: Db, job: Jobs.Job, chunks: seq<TextChunk>, embeddings: seq<Vector>, model: string, now: Time)
    ensures var r := Publish(db, job, chunks, embeddings, model, now);
            var there := job.noteId in db.notes && db.notes[job.noteId].userId == job.userId
                         && db.notes[job.noteId].version == job.noteVersion && job.id in db.jobs;
            && (r.Success? && r.value.1 <==> there && |chunks| == |embeddings| && job.status == Jobs.Processing)
            && (r == Success((db, false)) <== !there)
            && (r.Failure? <==> there && (|chunks| != |embeddings| || job.status != Jobs.Processing))
  {
  }

  /** `fail` raises exactly for a job that is gone or was not claimed, and closes a note only at the job's version. */
  lemma FailsExactlyIf(db: Db, job: Jobs.Job, code: string, now: Time)
    ensures var r := Fail(db, job, code, now);
            && (r.Success? <==> job.id in db.jobs && job.status == Jobs.Processing)
            && (r.Success? && !(job.noteId in db.notes && db.notes[job.noteId].version == job.noteVersion) ==> r.value.notes == db.notes)
  {
    hide Jobs.DelaySeconds;
  }

  /** After the a-th failure, up to the fourth, the job can be claimed exactly from 2^(a-1) seconds after it on. */
  lemma FailedIsClaimableFrom(s: State, step: Step, t: Time)
    requires Inv(s) && Enabled(s, step) && step.RunWorker? && Jobs.IsClaimable(s.db.jobs[step.jobId], step.claimedAt)
    requires step.answer.Unavailable? && s.db.jobs[step.jobId].attempts < 4
    ensures var db, j := Apply(s, step).db, step.jobId;
            && j in db.jobs && db.jobs[j].attempts == s.db.jobs[j].attempts + 1
            && 1 <= db.jobs[j].attempts <= 4
            && (Jobs.IsClaimable(db.jobs[j], t) <==> t >= step.now + [1, 2, 4, 8][db.jobs[j].attempts - 1] * 1_000_000)
  {
    hide Inv, Apply, ChunkNote, Jobs.IsClaimable;
    ClaimableExactlyIf(s, step.jobId, step.claimedAt);
    var chunks := WorkerEffect(s, step);
    StepKeepsInv(s, step);
    ClaimableExactlyIf(Apply(s, step), step.jobId, t);
  }
}
