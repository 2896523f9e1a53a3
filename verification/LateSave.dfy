/**
 What a save that commits late does to the queue: exactly when the queue invariant survives it, and how
 a save that others have overtaken takes a note back to a version from which it can never be edited again.
 */
module LateSave {
  import opened Ids
  import opened Wrappers
  import Chunker
  import opened Notes
  import opened Store
  import opened Queue
  import opened QueueLaws
  import opened SplitSave
  import Jobs
  import Progress

  /** The state a save leaves, with the text it has saved on record. */
  function Flushed(s: State, read: Note, note: Note, seen: set<Uuid>, jobId: Uuid, now: Time): State
    requires Flush(s.db, read, note, seen, jobId).Success?
  {
    var db := Flush(s.db, read, note, seen, jobId).value;
    s.(db := db, texts := s.texts[(note.id, note.version) := TextOf(db.notes[note.id])], clock := now)
  }

  /** What `update` hands to `save`, and the version it was made from. */
  predicate MadeFrom(read: Note, note: Note, now: Time) {
    NextVersion(read, note, now) && WellFormed(read)
  }

  /**
   A save that commits breaks nothing of the queue invariant exactly if the note has not gone beyond the
   version it writes, its DELETE saw every open job, and the row ends pending without an error code.
   */
  lemma FlushKeepsInvExactlyIf(s: State, read: Note, note: Note, seen: set<Uuid>, jobId: Uuid, now: Time)
    requires Inv(s) && jobId !in s.db.jobs && s.clock <= now
    requires MadeFrom(read, note, now) && note.id in s.db.notes && s.db.notes[note.id].userId == note.userId
    requires Flush(s.db, read, note, seen, jobId).Success?
    ensures var row := Flush(s.db, read, note, seen, jobId).value.notes[note.id];
            Inv(Flushed(s, read, note, seen, jobId, now)) <==>
              && s.db.notes[note.id].version <= note.version
              && OpenJobs(s.db, note.id) <= seen && row.status == Pending && row.errorCode == None
  {
    hide NoteLocal, Flush, Written, MadeFrom;
    var n, s' := note.id, Flushed(s, read, note, seen, jobId, now);
    FlushedJobs(s.db, read, note, seen, jobId);
    var row := Flush(s.db, read, note, seen, jobId).value.notes[n];
    if s.db.notes[n].version <= note.version && OpenJobs(s.db, n) <= seen && row.status == Pending && row.errorCode == None {
      FlushLocal(s, read, note, seen, jobId, now);
      forall m | m != n ensures SameAt(s, s', m) { FlushElsewhere(s, read, note, seen, jobId, now, m); }
      FrameKeepsInv(s, s', n);
    }
    if Inv(s') {
      assert NoteLocal(s', n) && NoteLocal(s, n);
      BrokenOtherwise(s, read, note, seen, jobId, now);
    }
  }

  lemma FlushElsewhere(s: State, read: Note, note: Note, seen: set<Uuid>, jobId: Uuid, now: Time, m: Uuid)
    requires jobId !in s.db.jobs && m != note.id && Flush(s.db, read, note, seen, jobId).Success?
    ensures SameAt(s, Flushed(s, read, note, seen, jobId, now), m)
  {
    hide Written;
  }

  lemma FlushLocal(s: State, read: Note, note: Note, seen: set<Uuid>, jobId: Uuid, now: Time)
    requires NoteLocal(s, note.id) && jobId !in s.db.jobs && s.clock <= now
    requires MadeFrom(read, note, now) && note.id in s.db.notes && s.db.notes[note.id].userId == note.userId
    requires Flush(s.db, read, note, seen, jobId).Success?
    requires s.db.notes[note.id].version <= note.version && OpenJobs(s.db, note.id) <= seen
    requires var row := Flush(s.db, read, note, seen, jobId).value.notes[note.id]; row.status == Pending && row.errorCode == None
    ensures NoteLocal(Flushed(s, read, note, seen, jobId, now), note.id)
  {
    hide NoteInv, JobInv, Written, Flush;
    var n, s' := note.id, Flushed(s, read, note, seen, jobId, now);
    FlushRefusedExactlyIf(s.db, read, note, seen, jobId);
    FlushNoteInv(s, read, note, seen, jobId, now);
    FlushedJobs(s.db, read, note, seen, jobId);
    forall i | IsJobOf(s'.db, i, n) ensures s'.db.jobs[i].id == i && JobInv(s', i) {
      if i != jobId {
        assert IsJobOf(s.db, i, n);
        OldJobStays(s, read, note, seen, jobId, now, i);
      } else {
        NewJobInv(s, read, note, seen, jobId, now);
      }
    }
    forall i, k | IsJobOf(s'.db, i, n) && IsJobOf(s'.db, k, n) && SameKey(s'.db.jobs[i], s'.db.jobs[k]) ensures i == k {
      assert i != jobId && k != jobId ==> IsJobOf(s.db, i, n) && IsJobOf(s.db, k, n);
      assert i != k && i != jobId && k == jobId ==> StandsAt(s.db, n, note.version, seen, i);
      assert i != k && i == jobId && k != jobId ==> StandsAt(s.db, n, note.version, seen, k);
    }
  }

  lemma FlushNoteInv(s: State, read: Note, note: Note, seen: set<Uuid>, jobId: Uuid, now: Time)
    requires NoteLocal(s, note.id) && jobId !in s.db.jobs && s.clock <= now
    requires MadeFrom(read, note, now) && note.id in s.db.notes && s.db.notes[note.id].version <= note.version
    requires Flush(s.db, read, note, seen, jobId).Success?
    ensures NoteInv(Flushed(s, read, note, seen, jobId, now), note.id)
  {
    hide Indexes, JobInv, Flush;
    var n, s' := note.id, Flushed(s, read, note, seen, jobId, now);
    FlushRefusedExactlyIf(s.db, read, note, seen, jobId);
    FlushedJobs(s.db, read, note, seen, jobId);
    assert IsCurrent(s'.db, jobId, n);
    var rows := RowsOf(s.db, n);
    if rows != [] {
      var i :| IsCompleted(s.db, i, n, rows[0].noteVersion);
      assert rows[0].noteVersion == note.version ==> StandsAt(s.db, n, note.version, seen, i);
      assert i !in OpenJobs(s.db, n) && IsCompleted(s'.db, i, n, rows[0].noteVersion);
    }
  }

  lemma OldJobStays(s: State, read: Note, note: Note, seen: set<Uuid>, jobId: Uuid, now: Time, i: Uuid)
    requires NoteLocal(s, note.id) && jobId !in s.db.jobs && MadeFrom(read, note, now)
    requires Flush(s.db, read, note, seen, jobId).Success?
    requires s.db.notes[note.id].version <= note.version && OpenJobs(s.db, note.id) <= seen
    requires i != jobId && IsJobOf(s.db, i, note.id) && i in Flush(s.db, read, note, seen, jobId).value.jobs
    ensures var s' := Flushed(s, read, note, seen, jobId, now);
            s'.db.jobs[i] == s.db.jobs[i] && s.db.jobs[i].id == i && JobInv(s', i)
  {
    hide NoteInv, Jobs.AttemptsOk, Agrees, Flush;
    FlushRefusedExactlyIf(s.db, read, note, seen, jobId);
    FlushedJobs(s.db, read, note, seen, jobId);
    assert s.db.jobs[i].status == Jobs.Completed;
    assert s.db.jobs[i].noteVersion == note.version ==> StandsAt(s.db, note.id, note.version, seen, i);
  }

  lemma NewJobInv(s: State, read: Note, note: Note, seen: set<Uuid>, jobId: Uuid, now: Time)
    requires jobId !in s.db.jobs && MadeFrom(read, note, now)
    requires Flush(s.db, read, note, seen, jobId).Success? && s.db.notes[note.id].userId == note.userId
    requires var row := Flush(s.db, read, note, seen, jobId).value.notes[note.id]; row.status == Pending && row.errorCode == None
    ensures var s' := Flushed(s, read, note, seen, jobId, now); s'.db.jobs[jobId].id == jobId && JobInv(s', jobId)
  {
    hide Flush, WellFormed;
    FlushedJobs(s.db, read, note, seen, jobId);
  }

  lemma BrokenOtherwise(s: State, read: Note, note: Note, seen: set<Uuid>, jobId: Uuid, now: Time)
    requires NoteLocal(s, note.id) && jobId !in s.db.jobs && MadeFrom(read, note, now)
    requires Flush(s.db, read, note, seen, jobId).Success?
    requires NoteLocal(Flushed(s, read, note, seen, jobId, now), note.id)
    ensures s.db.notes[note.id].version <= note.version && OpenJobs(s.db, note.id) <= seen
    ensures var row := Flush(s.db, read, note, seen, jobId).value.notes[note.id]; row.status == Pending && row.errorCode == None
  {
    hide IndexInv, WellFormed, Jobs.AttemptsOk, BackedOff, Flush;
    var n, s' := note.id, Flushed(s, read, note, seen, jobId, now);
    FlushRefusedExactlyIf(s.db, read, note, seen, jobId);
    FlushedJobs(s.db, read, note, seen, jobId);
    assert (n, s.db.notes[n].version) in s'.texts;
    assert JobInv(s', jobId);
    assert forall i :: i in OpenJobs(s.db, n) ==> s.db.jobs[i].noteVersion == s.db.notes[n].version;
  }

  /** The keys of the schema hold after any save that commits. */
  lemma FlushMeetsConstraints(db: Db, read: Note, note: Note, seen: set<Uuid>, jobId: Uuid)
    requires Constraints(db) && jobId !in db.jobs && Flush(db, read, note, seen, jobId).Success?
    ensures Constraints(Flush(db, read, note, seen, jobId).value)
  {
    hide Flush;
    FlushedJobs(db, read, note, seen, jobId);
    var db' := Flush(db, read, note, seen, jobId).value;
    forall i, j | i in db'.jobs && j in db'.jobs && SameKey(db'.jobs[i], db'.jobs[j]) ensures i == j {
      assert IsJobOf(db', i, db'.jobs[i].noteId) && IsJobOf(db', j, db'.jobs[i].noteId);
    }
  }

  /** The version after the note's own is already completed, so the note's next version can never be inserted. */
  predicate Stuck(s: State, n: Uuid) {
    && n in s.db.notes && VersionCompleted(s.db, n, s.db.notes[n].version + 1)
    && (n, s.db.notes[n].version) in s.texts
  }

  /**
   A save that two others have overtaken commits, unless its version is completed, and takes the note
   back behind versions that were shown to users. If the version after it had been completed, the note
   is stuck; an open job of the newest version that its DELETE had not seen is left beyond the note.
   */
  lemma OvertakenSaveGoesBack(s: State, read: Note, note: Note, seen: set<Uuid>, jobId: Uuid, now: Time)
    requires Inv(s) && jobId !in s.db.jobs && note.id == read.id && note.version == read.version + 1
    requires note.id in s.db.notes && note.version < s.db.notes[note.id].version && !VersionCompleted(s.db, note.id, note.version)
    ensures Flush(s.db, read, note, seen, jobId).Success?
    ensures var s' := Flushed(s, read, note, seen, jobId, now);
            && s'.db.notes[note.id].version == note.version && Constraints(s'.db)
            && (VersionCompleted(s.db, note.id, note.version + 1) ==> Stuck(s', note.id))
            && forall j :: IsCurrent(s.db, j, note.id) && Jobs.Open(s.db.jobs[j]) && j !in seen ==> Adrift(s'.db, note.id, j)
  {
    hide NoteLocal, Flush, Stands, Written, Adrift;
    var j := CurrentJob(s, note.id);
    StandsExactlyIf(s, note.id, note.version, seen, j);
    FlushRefusedExactlyIf(s.db, read, note, seen, jobId);
    FlushedJobs(s.db, read, note, seen, jobId);
    InvMeetsConstraints(s);
    FlushMeetsConstraints(s.db, read, note, seen, jobId);
    WrittenVersion(s.db.notes[note.id], read, note);
    forall i | IsCurrent(s.db, i, note.id) && Jobs.Open(s.db.jobs[i]) && i !in seen
      ensures Adrift(Flushed(s, read, note, seen, jobId, now).db, note.id, i)
    {
      LeftAdrift(s, read, note, seen, jobId, now, i);
    }
    var next := note.version + 1;
    if i :| IsCompleted(s.db, i, note.id, next) {
      assert i !in OpenJobs(s.db, note.id);
      assert IsCompleted(Flushed(s, read, note, seen, jobId, now).db, i, note.id, note.version + 1);
    }
  }

  lemma WrittenVersion(row: Note, read: Note, note: Note)
    requires note.version != read.version
    ensures Written(row, read, note).version == note.version
  {
  }

  /** Nobody can edit a stuck note any more: whatever is done, it keeps its version and its text until it is deleted. */
  lemma {:induction false} StuckForever(s: State, steps: seq<Step>, n: Uuid)
    requires Constraints(s.db) && Stuck(s, n)
    ensures var s' := Run(s, steps);
            n !in s'.db.notes || (s'.db.notes[n].version == s.db.notes[n].version && TextOf(s'.db.notes[n]) == TextOf(s.db.notes[n]))
    decreases |steps|
  {
    hide Apply, Constraints, VersionCompleted;
    if steps != [] {
      var s' := Apply(s, steps[0]);
      StepMeetsConstraints(s, steps[0]);
      StuckStays(s, steps[0], n);
      if n in s'.db.notes {
        StuckForever(s', steps[1..], n);
      } else {
        GoneForGood(s', steps[1..], n, (n, s.db.notes[n].version));
      }
    }
  }

  /** Every transaction keeps the keys of the schema, from any database that meets them. */
  lemma StepMeetsConstraints(s: State, step: Step)
    requires Constraints(s.db)
    ensures Constraints(Apply(s, step).db)
  {
    hide AfterCreate, AfterUpdate, Work, Store.Delete, Reopen, Constraints;
    if Enabled(s, step) {
      if step.CreateNote? {
        CreateMeetsConstraints(s, step);
      } else if step.UpdateNote? {
        UpdateMeetsConstraints(s, step);
      } else if step.DeleteNote? {
        DeleteMeetsConstraints(s, step);
      } else if step.RetryFailed? {
        RetryMeetsConstraints(s, step);
      } else if step.RunWorker? && Apply(s, step).db != s.db {
        WorkChangesOneJob(s, step);
        OneJobMeetsConstraints(s.db, Apply(s, step).db, step.jobId);
      }
    }
  }

  lemma InsertMeetsConstraints(jobs: map<Uuid, Jobs.Job>, job: Jobs.Job)
    requires forall j :: j in jobs ==> jobs[j].id == j && AttemptsChecked(jobs[j])
    requires AttemptsChecked(job)
    requires forall i, j :: i in jobs && j in jobs && SameKey(jobs[i], jobs[j]) ==> i == j
    requires InsertJob(jobs, job).Success?
    ensures var jobs' := InsertJob(jobs, job).value;
            && (forall j :: j in jobs' ==> jobs'[j].id == j && AttemptsChecked(jobs'[j]))
            && (forall i, j :: i in jobs' && j in jobs' && SameKey(jobs'[i], jobs'[j]) ==> i == j)
  {
  }

  lemma CreateMeetsConstraints(s: State, step: Step)
    requires Constraints(s.db) && step.CreateNote?
    ensures Constraints(AfterCreate(s, step).db)
  {
    hide Notes.Create, InsertJob;
    if AfterCreate(s, step) != s {
      var note := Notes.Create(step.noteId, step.user, step.title, step.content, step.now).value;
      InsertMeetsConstraints(s.db.jobs, Jobs.NewJob(step.jobId, note.id, note.userId, note.version, note.createdAt));
    }
  }

  lemma UpdateMeetsConstraints(s: State, step: Step)
    requires Constraints(s.db) && step.UpdateNote?
    ensures Constraints(AfterUpdate(s, step).db)
  {
    hide Notes.Update, InsertJob;
    if AfterUpdate(s, step) != s {
      var note := Notes.Update(s.db.notes[step.noteId], step.title', step.content', Some(step.expected), step.now).value;
      InsertMeetsConstraints(WithoutOpenJobs(s.db.jobs, note.id), Jobs.NewJob(step.jobId, note.id, note.userId, note.version, note.updatedAt));
    }
  }

  lemma DeleteMeetsConstraints(s: State, step: Step)
    requires Constraints(s.db) && step.DeleteNote?
    ensures Constraints(Store.Delete(s.db, step.user, step.noteId).0)
  {
  }

  lemma RetryMeetsConstraints(s: State, step: Step)
    requires Constraints(s.db) && step.RetryFailed? && Enabled(s, step)
    ensures Constraints(Reopen(s.db, step.noteId, step.jobId, step.now))
  {
    OneJobMeetsConstraints(s.db, Reopen(s.db, step.noteId, step.jobId, step.now), step.jobId);
  }

  /** The databases differ in one job, which keeps its note and version and passes the check, and in no identifier of a note. */
  predicate OneJobChanged(db: Db, db': Db, j: Uuid) {
    && j in db.jobs && j in db'.jobs && db'.jobs == db.jobs[j := db'.jobs[j]]
    && SameKey(db.jobs[j], db'.jobs[j]) && db'.jobs[j].id == db.jobs[j].id && AttemptsChecked(db'.jobs[j])
    && forall n :: n in db'.notes ==> n in db.notes && db'.notes[n].id == db.notes[n].id
  }

  lemma OneJobMeetsConstraints(db: Db, db': Db, j: Uuid)
    requires Constraints(db) && OneJobChanged(db, db', j)
    ensures Constraints(db')
  {
  }

  /** A worker transaction that changes anything has claimed a job that was not completed, and rewrites that one. */
  lemma WorkChangesOneJob(s: State, step: Step)
    requires Constraints(s.db) && step.RunWorker? && Enabled(s, step) && Apply(s, step).db != s.db
    ensures OneJobChanged(s.db, Apply(s, step).db, step.jobId) && s.db.jobs[step.jobId].status != Jobs.Completed
  {
    hide Process;
    var job := Jobs.Claim(s.db.jobs[step.jobId], step.claimedAt, step.lease).value;
    ProcessChangesOneJob(WriteJob(s.db, job), job, step.answer, step.model, step.now);
  }

  lemma ProcessChangesOneJob(db: Db, job: Jobs.Job, answer: Answer, model: string, now: Time)
    requires job.id in db.jobs && db.jobs[job.id] == job && AttemptsChecked(job) && Process(db, job, answer, model, now).Success?
    ensures var db' := Process(db, job, answer, model, now).value.0;
            && OneJobChanged(db, db', job.id)
  {
    hide Chunker.ChunkNote, Rows, Jobs.DelaySeconds;
  }

  lemma StuckStays(s: State, step: Step, n: Uuid)
    requires Constraints(s.db) && Stuck(s, n)
    ensures var s' := Apply(s, step);
            && (n, s.db.notes[n].version) in s'.texts
            && (n in s'.db.notes ==>
              Stuck(s', n) && s'.db.notes[n].version == s.db.notes[n].version && TextOf(s'.db.notes[n]) == TextOf(s.db.notes[n]))
  {
    hide AfterCreate, AfterUpdate, Work, Store.Delete, Constraints;
    var j :| IsCompleted(s.db, j, n, s.db.notes[n].version + 1);
    if Enabled(s, step) {
      if step.CreateNote? {
        CreateKeepsJobs(s, step, n, j);
        CreateKeepsTexts(s, step);
      } else if step.UpdateNote? {
        StuckUpdate(s, step, n, j);
      } else if step.DeleteNote? {
        if n in Store.Delete(s.db, step.user, step.noteId).0.notes { DeleteKeepsJobs(s, step, n, j); }
      } else if step.RunWorker? && Apply(s, step).db != s.db {
        WorkChangesOneJob(s, step);
        WorkKeepsTexts(s, step.jobId, step.claimedAt, step.lease, step.answer, step.model, step.now, n);
      }
      if n in Apply(s, step).db.notes {
        assert IsCompleted(Apply(s, step).db, j, n, s.db.notes[n].version + 1);
      }
    }
  }

  lemma CreateKeepsTexts(s: State, step: Step)
    requires step.CreateNote?
    ensures forall k :: k in s.texts ==> k in AfterCreate(s, step).texts
  {
    hide Notes.Create;
  }

  lemma StuckUpdate(s: State, step: Step, n: Uuid, j: Uuid)
    requires Constraints(s.db) && n in s.db.notes && IsCompleted(s.db, j, n, s.db.notes[n].version + 1) && step.UpdateNote?
    ensures KeepsRows(s.db, AfterUpdate(s, step).db, n, j)
    ensures forall k :: k in s.texts ==> k in AfterUpdate(s, step).texts
  {
    hide ValidateText;
    if step.noteId == n {
      assert j in WithoutOpenJobs(s.db.jobs, n) && HasJobFor(WithoutOpenJobs(s.db.jobs, n), n, s.db.notes[n].version + 1);
    }
  }

  // ---- a job left beyond its note ----

  /** Job j can still be claimed, but its note is behind its version. */
  predicate Adrift(db: Db, n: Uuid, j: Uuid) {
    && n in db.notes && j in db.jobs && db.jobs[j].noteId == n && db.jobs[j].id == j && AttemptsChecked(db.jobs[j])
    && db.notes[n].version < db.jobs[j].noteVersion && db.jobs[j].status in {Jobs.Waiting, Jobs.RetryWait, Jobs.Processing}
  }

  lemma LeftAdrift(s: State, read: Note, note: Note, seen: set<Uuid>, jobId: Uuid, now: Time, j: Uuid)
    requires Inv(s) && jobId !in s.db.jobs && Flush(s.db, read, note, seen, jobId).Success? && note.version != read.version
    requires IsCurrent(s.db, j, note.id) && note.version < s.db.notes[note.id].version && Jobs.Open(s.db.jobs[j]) && j !in seen
    ensures Adrift(Flushed(s, read, note, seen, jobId, now).db, note.id, j)
  {
    hide Inv, Flush, Written;
    FlushedJobs(s.db, read, note, seen, jobId);
    InvMeetsConstraints(s);
    WrittenVersion(s.db.notes[note.id], read, note);
  }

  /**
   A worker that claims such a job takes the stale branch of `process` and commits the bare claim: the job
   is committed as processing, one attempt poorer, and can be claimed again as soon as the lease is over.
   A sixth claim does not pass the check of the attempts, so from then on claiming the job raises.
   */
  lemma AdriftIsClaimedBare(db: Db, n: Uuid, j: Uuid, claimedAt: Time, lease: int, answer: Answer, model: string, now: Time)
    requires Adrift(db, n, j) && Jobs.IsClaimable(db.jobs[j], claimedAt)
    ensures var job := Jobs.Claim(db.jobs[j], claimedAt, lease).value;
            var r := Work(db, j, claimedAt, lease, answer, model, now);
            if db.jobs[j].attempts == Jobs.MAXIMUM_ATTEMPTS then r == Failure(IntegrityError)
            else
              && r == Success((WriteJob(db, job), false)) && Adrift(WriteJob(db, job), n, j)
              && job.status == Jobs.Processing && job.attempts == db.jobs[j].attempts + 1
              && forall t :: Jobs.IsClaimable(job, t) <==> claimedAt + lease * SECOND <= t
  {
    hide Chunker.ChunkNote, Settle;
  }

  /** The step saves the note or deletes it. */
  predicate Frees(s: State, step: Step, n: Uuid)
    requires n in s.db.notes
  {
    n !in Apply(s, step).db.notes || Apply(s, step).db.notes[n].version != s.db.notes[n].version
  }

  /** Nothing ends this, for any job beyond its note, but a save of the note that commits, or its deletion. */
  lemma AdriftUntilFreed(s: State, step: Step, n: Uuid, j: Uuid)
    requires Constraints(s.db) && Adrift(s.db, n, j)
    ensures Adrift(Apply(s, step).db, n, j) <==> !Frees(s, step, n)
    ensures Frees(s, step, n) ==> (step.UpdateNote? || step.DeleteNote?) && step.noteId == n
    ensures !Frees(s, step, n) ==>
              Apply(s, step).db.jobs[j].attempts == s.db.jobs[j].attempts + if Progress.Attempts(s, step, j) then 1 else 0
  {
    hide AfterCreate, AfterUpdate, AfterWork, Store.Delete, Constraints;
    if Enabled(s, step) {
      if step.CreateNote? {
        CreateKeepsJobs(s, step, n, j);
      } else if step.UpdateNote? {
        AdriftUpdate(s, step, n, j);
      } else if step.DeleteNote? {
        AdriftDelete(s, step, n, j);
      } else if step.RetryFailed? {
        AdriftRetry(s, step, n, j);
      } else if step.RunWorker? {
        AdriftWork(s, step, n, j);
      }
    }
  }

  lemma AdriftUpdate(s: State, step: Step, n: Uuid, j: Uuid)
    requires Constraints(s.db) && Adrift(s.db, n, j) && step.UpdateNote?
    ensures var db := AfterUpdate(s, step).db;
            || KeepsRows(s.db, db, n, j)
            || (step.noteId == n && n in db.notes && db.notes[n].version == s.db.notes[n].version + 1 && !Adrift(db, n, j))
  {
    hide ValidateText;
  }

  lemma AdriftDelete(s: State, step: Step, n: Uuid, j: Uuid)
    requires Adrift(s.db, n, j) && step.DeleteNote?
    ensures var db := Store.Delete(s.db, step.user, step.noteId).0;
            KeepsRows(s.db, db, n, j) || (step.noteId == n && n !in db.notes)
  {
  }

  lemma AdriftRetry(s: State, step: Step, n: Uuid, j: Uuid)
    requires Adrift(s.db, n, j) && step.RetryFailed? && Enabled(s, step)
    ensures var db := Reopen(s.db, step.noteId, step.jobId, step.now);
            n in db.notes && db.notes[n].version == s.db.notes[n].version && j in db.jobs && db.jobs[j] == s.db.jobs[j]
  {
  }

  lemma AdriftWork(s: State, step: Step, n: Uuid, j: Uuid)
    requires Constraints(s.db) && Adrift(s.db, n, j) && step.RunWorker? && Enabled(s, step)
    ensures var db := Apply(s, step).db;
            && Adrift(db, n, j) && db.notes[n].version == s.db.notes[n].version
            && db.jobs[j].attempts == s.db.jobs[j].attempts + if Progress.Attempts(s, step, j) then 1 else 0
  {
    hide Work, Constraints;
    if Apply(s, step).db != s.db {
      WorkKeepsTexts(s, step.jobId, step.claimedAt, step.lease, step.answer, step.model, step.now, n);
      if step.jobId == j {
        ClaimedToWork(s.db, j, step);
        AdriftIsClaimedBare(s.db, n, j, step.claimedAt, step.lease, step.answer, step.model, step.now);
      } else {
        WorkChangesOneJob(s, step);
      }
    }
  }

  lemma ClaimedToWork(db: Db, j: Uuid, step: Step)
    requires step.RunWorker? && j in db.jobs && Work(db, j, step.claimedAt, step.lease, step.answer, step.model, step.now).Success?
    ensures Jobs.IsClaimable(db.jobs[j], step.claimedAt)
  {
    hide Process;
  }

  /**
   While the note is neither saved nor deleted, whatever else is done, the job stays beyond it and every claim
   of it that commits takes an attempt, so at most those left commit: five in all.
   */
  lemma {:induction false} AdriftRun(s: State, steps: seq<Step>, n: Uuid, j: Uuid)
    requires Constraints(s.db) && Adrift(s.db, n, j)
    requires forall i :: 0 <= i < |steps| ==> !((steps[i].UpdateNote? || steps[i].DeleteNote?) && steps[i].noteId == n)
    ensures Adrift(Run(s, steps).db, n, j)
    ensures Run(s, steps).db.jobs[j].attempts == s.db.jobs[j].attempts + Progress.AttemptsMade(s, steps, j)
    ensures Progress.AttemptsMade(s, steps, j) <= Jobs.MAXIMUM_ATTEMPTS - s.db.jobs[j].attempts
    decreases |steps|
  {
    hide Apply, Constraints, Frees, Progress.Attempts;
    if steps != [] {
      AdriftUntilFreed(s, steps[0], n, j);
      StepMeetsConstraints(s, steps[0]);
      AdriftRun(Apply(s, steps[0]), steps[1..], n, j);
    }
  }
}
