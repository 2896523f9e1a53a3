/**
 A save statement by statement. `save` SELECTs the row at the expected version without locking it;
 then a DELETE removes the note's jobs that are not completed; last, the flush UPDATEs the row by its
 primary key and INSERTs the next version's job (the session does not flush earlier). Other
 transactions may be committed between these statements. The DELETE sees the jobs committed when it
 begins and waits for those that others have locked; the UPDATE writes only the columns whose new
 value differs from the one the SELECT loaded. The uniqueness of (note, version) is meant to stop a
 second save from the same version.
 */
module SplitSave {
  import opened Ids
  import opened Wrappers
  import opened Chunker
  import opened Notes
  import opened Store
  import opened Queue
  import opened QueueLaws
  import Jobs
  import Progress

  // ---- the statements ----

  /** The jobs the DELETE of a save sees when it begins at this database. */
  function OpenJobs(db: Db, n: Uuid): set<Uuid> {
    set j | j in db.jobs && db.jobs[j].noteId == n && db.jobs[j].status != Jobs.Completed
  }

  /** What the DELETE leaves: of the jobs it saw, those that are not completed by the time it holds their rows are gone. */
  function Remaining(jobs: map<Uuid, Jobs.Job>, n: Uuid, seen: set<Uuid>): map<Uuid, Jobs.Job> {
    map j | j in jobs && !(j in seen && jobs[j].noteId == n && jobs[j].status != Jobs.Completed) :: jobs[j]
  }

  /** The UPDATE of a row that was loaded as `read`. */
  function Written(row: Note, read: Note, note: Note): Note {
    row.(title := if note.title != read.title then note.title else row.title,
         content := if note.content != read.content then note.content else row.content,
         version := if note.version != read.version then note.version else row.version,
         status := if note.status != read.status then note.status else row.status,
         errorCode := if note.errorCode != read.errorCode then note.errorCode else row.errorCode,
         statusAt := if note.statusAt != read.statusAt then note.statusAt else row.statusAt,
         updatedAt := if note.updatedAt != read.updatedAt then note.updatedAt else row.updatedAt)
  }

  /** The flush, on the database committed by then; the UPDATE of a row that is gone raises. */
  function Flush(db: Db, read: Note, note: Note, seen: set<Uuid>, jobId: Uuid): Result<Db, StoreError> {
    if note.id !in db.notes then Failure(IntegrityError)
    else
      var jobs :- InsertJob(Remaining(db.jobs, note.id, seen), Jobs.NewJob(jobId, note.id, note.userId, note.version, note.updatedAt));
      Success(db.(notes := db.notes[note.id := Written(db.notes[note.id], read, note)], jobs := jobs))
  }

  /** With nothing in between, the statements are the writes of the atomic save. */
  lemma AtOnceIsAtomic(db: Db, note: Note, jobId: Uuid)
    requires note.id in db.notes
    ensures Flush(db, db.notes[note.id], note, OpenJobs(db, note.id), jobId) == SaveWrites(db, note, jobId)
  {
    assert Remaining(db.jobs, note.id, OpenJobs(db, note.id)) == WithoutOpenJobs(db.jobs, note.id);
  }

  // ---- when the constraint refuses a save, and when an update is lost ----

  predicate VersionCompleted(db: Db, n: Uuid, version: nat) {
    exists j :: IsCompleted(db, j, n, version)
  }

  /** Job j is of that version and the DELETE has not removed it. */
  predicate StandsAt(db: Db, n: Uuid, version: nat, seen: set<Uuid>, j: Uuid) {
    && j in db.jobs && db.jobs[j].noteId == n && db.jobs[j].noteVersion == version
    && (j !in seen || db.jobs[j].status == Jobs.Completed)
  }

  predicate Stands(db: Db, n: Uuid, version: nat, seen: set<Uuid>) {
    exists j :: StandsAt(db, n, version, seen, j)
  }

  /** A save is refused exactly if its note is gone or, at the INSERT, its version has a job. */
  lemma FlushRefusedExactlyIf(db: Db, read: Note, note: Note, seen: set<Uuid>, jobId: Uuid)
    requires jobId !in db.jobs
    ensures Flush(db, read, note, seen, jobId).Failure? <==>
            note.id !in db.notes || Stands(db, note.id, note.version, seen)
  {
    var left := Remaining(db.jobs, note.id, seen);
    if j :| StandsAt(db, note.id, note.version, seen, j) {
      assert j in left && left[j].noteId == note.id && left[j].noteVersion == note.version;
    }
    if HasJobFor(left, note.id, note.version) {
      var j :| j in left && left[j].noteId == note.id && left[j].noteVersion == note.version;
      assert StandsAt(db, note.id, note.version, seen, j);
    }
  }

  /** The jobs of the note after a save: those the DELETE left, and the new one. */
  lemma FlushedJobs(db: Db, read: Note, note: Note, seen: set<Uuid>, jobId: Uuid)
    requires jobId !in db.jobs && Flush(db, read, note, seen, jobId).Success?
    ensures var db' := Flush(db, read, note, seen, jobId).value;
            && jobId in db'.jobs && db'.jobs[jobId] == Jobs.NewJob(jobId, note.id, note.userId, note.version, note.updatedAt)
            && (forall i :: i in db'.jobs && i != jobId ==> i in db.jobs && db'.jobs[i] == db.jobs[i])
            && (forall i :: i in db.jobs && !(i in seen && i in OpenJobs(db, note.id)) ==> i in db'.jobs && i != jobId)
            && (forall i :: i in seen && i in OpenJobs(db, note.id) ==> i !in db'.jobs)
            && (forall i :: IsJobOf(db', i, note.id) && i != jobId ==> db'.jobs[i].noteVersion != note.version)
            && db'.chunks == db.chunks && note.id in db.notes
            && db'.notes == db.notes[note.id := Written(db.notes[note.id], read, note)]
  {
    hide Written;
  }

  /** Nothing is lost by this save: if it commits, the version it replaces is the one it read. */
  predicate LosesNothing(db: Db, read: Note, note: Note, seen: set<Uuid>, jobId: Uuid) {
    Flush(db, read, note, seen, jobId).Success? ==> read.id in db.notes && db.notes[read.id].version == read.version
  }

  /** So nobody's update is lost exactly if the note is still at the version read, or is gone, or the next one's job stands. */
  lemma NoLostUpdateExactlyIf(db: Db, read: Note, note: Note, seen: set<Uuid>, jobId: Uuid)
    requires jobId !in db.jobs && note.id == read.id && note.version == read.version + 1
    ensures LosesNothing(db, read, note, seen, jobId) <==>
            || read.id !in db.notes || db.notes[read.id].version == read.version
            || Stands(db, read.id, read.version + 1, seen)
  {
    FlushRefusedExactlyIf(db, read, note, seen, jobId);
  }

  /** In a state of the queue the next version's job stands exactly if it is completed, or current and unseen by the DELETE. */
  lemma StandsExactlyIf(s: State, n: Uuid, version: nat, seen: set<Uuid>, current: Uuid)
    requires Inv(s) && IsCurrent(s.db, current, n)
    ensures Stands(s.db, n, version, seen) <==>
            VersionCompleted(s.db, n, version) || (s.db.notes[n].version == version && current !in seen)
  {
    hide NoteInv, Jobs.AttemptsOk, Agrees, BackedOff;
    assert NoteLocal(s, n);
    if j :| StandsAt(s.db, n, version, seen, j) {
      assert IsJobOf(s.db, j, n) && IsJobOf(s.db, current, n);
      if s.db.jobs[j].status == Jobs.Completed {
        assert IsCompleted(s.db, j, n, version);
      }
    }
    if VersionCompleted(s.db, n, version) {
      var j :| IsCompleted(s.db, j, n, version);
      assert StandsAt(s.db, n, version, seen, j);
    }
    if s.db.notes[n].version == version && current !in seen {
      assert StandsAt(s.db, n, version, seen, current);
    }
  }

  /** None of the steps makes a job with one of these identifiers; `uuid4` never repeats one. */
  predicate MakesNone(steps: seq<Step>, ids: set<Uuid>) {
    forall i :: 0 <= i < |steps| ==> (steps[i].CreateNote? || steps[i].UpdateNote?) ==> steps[i].jobId !in ids
  }

  /**
   A save whose DELETE began while the note was still at the version it read, with any transactions
   committed from then to its flush: the constraint refuses it exactly if the note is gone, one other
   save has committed, or the next version has been completed. So of two overlapping saves one is
   refused; but one that two others overtake commits, and takes the note back.
   */
  lemma EarlyDeleteRefusedExactlyIf(s: State, steps: seq<Step>, n: Uuid, read: Note, note: Note, jobId: Uuid)
    requires Inv(s) && n in s.db.notes && s.db.notes[n].version == read.version && MakesNone(steps, OpenJobs(s.db, n))
    requires note.id == read.id == n && note.version == read.version + 1 && jobId !in Run(s, steps).db.jobs
    ensures var later := Run(s, steps).db;
            && (Flush(later, read, note, OpenJobs(s.db, n), jobId).Failure? <==>
                || n !in later.notes || later.notes[n].version == read.version + 1
                || VersionCompleted(later, n, read.version + 1))
            && (LosesNothing(later, read, note, OpenJobs(s.db, n), jobId) <==>
                || n !in later.notes || later.notes[n].version <= read.version + 1
                || VersionCompleted(later, n, read.version + 1))
  {
    hide NoteLocal, Run, Flush, Stands, VersionCompleted;
    var seen, later := OpenJobs(s.db, n), Run(s, steps);
    RunKeepsInv(s, steps);
    FlushRefusedExactlyIf(later.db, read, note, seen, jobId);
    NoLostUpdateExactlyIf(later.db, read, note, seen, jobId);
    if n in later.db.notes {
      var current := CurrentJob(later, n);
      StandsExactlyIf(later, n, read.version + 1, seen, current);
      VersionsRise(s, steps, n);
      if later.db.notes[n].version == read.version + 1 && current in seen {
        KeysStay(s, steps, current);
        OpenJobIsAtVersion(s, n, current);
      }
    }
  }

  lemma CurrentJob(s: State, n: Uuid) returns (j: Uuid)
    requires Inv(s) && n in s.db.notes
    ensures IsCurrent(s.db, j, n)
  {
    hide IndexInv, WellFormed, JobInv;
    assert NoteLocal(s, n);
    j :| IsCurrent(s.db, j, n);
  }

  lemma OpenJobIsAtVersion(s: State, n: Uuid, j: Uuid)
    requires Inv(s) && n in s.db.notes && j in OpenJobs(s.db, n)
    ensures s.db.jobs[j].noteVersion == s.db.notes[n].version
  {
    hide NoteInv, Jobs.AttemptsOk, Agrees, BackedOff;
    assert NoteLocal(s, n);
  }

  /** The rows these jobs have in the first database are locked until the second: nobody has changed them. */
  predicate Held(db: Db, db': Db, ids: set<Uuid>) {
    forall j :: j in ids && j in db.jobs ==> j in db'.jobs && db'.jobs[j] == db.jobs[j]
  }

  /**
   A save whose DELETE begins after another save from the same version has committed, and before a
   worker has completed that one: the DELETE locks the other's job, so the note stays as it is until the
   flush, the flush commits, and the other's job is gone with its update.
   */
  lemma LateDeleteCommits(s: State, later: State, n: Uuid, read: Note, note: Note, jobId: Uuid)
    requires Inv(s) && Inv(later) && n in s.db.notes && s.db.notes[n].version == read.version + 1
    requires !VersionCompleted(s.db, n, read.version + 1) && Held(s.db, later.db, OpenJobs(s.db, n))
    requires note.id == read.id == n && note.version == read.version + 1 && jobId !in later.db.jobs
    ensures n in later.db.notes && later.db.notes[n].version == read.version + 1
    ensures Flush(later.db, read, note, OpenJobs(s.db, n), jobId).Success?
    ensures !LosesNothing(later.db, read, note, OpenJobs(s.db, n), jobId)
  {
    hide NoteInv, Jobs.AttemptsOk, Agrees, BackedOff, Flush;
    var seen := OpenJobs(s.db, n);
    var j := CurrentJob(s, n);
    assert IsCompleted(s.db, j, n, read.version + 1) || j in seen;
    assert NoteLocal(later, n);
    StandsExactlyIf(later, n, read.version + 1, seen, j);
    FlushRefusedExactlyIf(later.db, read, note, seen, jobId);
    CompletedIsCurrent(later, n, j);
  }

  /** The current version is completed exactly if the current job is. */
  lemma CompletedIsCurrent(s: State, n: Uuid, j: Uuid)
    requires Inv(s) && IsCurrent(s.db, j, n)
    ensures VersionCompleted(s.db, n, s.db.notes[n].version) <==> s.db.jobs[j].status == Jobs.Completed
  {
    hide NoteInv, JobInv;
    assert NoteLocal(s, n);
    if VersionCompleted(s.db, n, s.db.notes[n].version) {
      var i :| IsCompleted(s.db, i, n, s.db.notes[n].version);
      assert IsJobOf(s.db, i, n) && IsJobOf(s.db, j, n);
    }
    if s.db.jobs[j].status == Jobs.Completed {
      assert IsCompleted(s.db, j, n, s.db.notes[n].version);
    }
  }

  /**
   For every note two saves from its version, one after the other but both having read it before, both
   commit: each column the second one changes replaces what the first one wrote, and the first one's job is gone.
   */
  lemma TwoSavesBothCommit(s: State, n: Uuid, first: Note, second: Note, jobs: (Uuid, Uuid))
    requires Inv(s) && n in s.db.notes && jobs.0 !in s.db.jobs && jobs.1 !in s.db.jobs && jobs.0 != jobs.1
    requires NextVersion(s.db.notes[n], first, first.updatedAt) && NextVersion(s.db.notes[n], second, second.updatedAt)
    ensures var read := s.db.notes[n];
            var once := Flush(s.db, read, first, OpenJobs(s.db, n), jobs.0);
            && once.Success?
            && var twice := Flush(once.value, read, second, OpenJobs(once.value, n), jobs.1);
            && twice.Success?
            && twice.value.notes[n].version == first.version == second.version
            && twice.value.notes[n].title == (if second.title != read.title then second.title else first.title)
            && twice.value.notes[n].content == (if second.content != read.content then second.content else first.content)
            && jobs.0 !in twice.value.jobs
  {
    hide IndexInv, WellFormed, Jobs.AttemptsOk, BackedOff, VersionCompleted;
    var read, seen := s.db.notes[n], OpenJobs(s.db, n);
    assert NoteLocal(s, n);
    FlushRefusedExactlyIf(s.db, read, first, seen, jobs.0);
    var once := Flush(s.db, read, first, seen, jobs.0).value;
    FlushRefusedExactlyIf(once, read, second, OpenJobs(once, n), jobs.1);
  }

  const ALICE: Uuid := 7
  const NOTE: Uuid := 1

  function Draft(title: string, version: nat): Note {
    Note(NOTE, ALICE, title, "body", version, Pending, None, Some(0), 0, 0)
  }

  /** A concrete pair of saves from version 1, of which the first is lost. */
  lemma LostUpdateExample()
    ensures var db := Db(map[NOTE := Draft("plan", 1)], map[2 := Jobs.NewJob(2, NOTE, ALICE, 1, 0)], map[]);
            var once := Flush(db, Draft("plan", 1), Draft("plan A", 2), OpenJobs(db, NOTE), 3);
            && once.Success?
            && var twice := Flush(once.value, Draft("plan", 1), Draft("plan B", 2), OpenJobs(once.value, NOTE), 4);
            && twice.Success?
            && twice.value.notes[NOTE].title == "plan B" && twice.value.notes[NOTE].version == 2
  {
  }

  // ---- runs between the statements ----

  /** Along a run of whole transactions a note's version never falls. */
  lemma VersionsRise(s: State, steps: seq<Step>, n: Uuid)
    requires Inv(s) && n in s.db.notes && n in Run(s, steps).db.notes
    ensures s.db.notes[n].version <= Run(s, steps).db.notes[n].version
  {
    hide Run, IndexInv, WellFormed, JobInv;
    StoredIsRecorded(s, n);
    TextsNeverChange(s, steps, (n, s.db.notes[n].version));
    RunKeepsInv(s, steps);
    assert NoteLocal(Run(s, steps), n);
  }

  /** A job stays that of its note and version as long as its identifier is not used again. */
  lemma {:induction false} KeysStay(s: State, steps: seq<Step>, j: Uuid)
    requires Inv(s) && j in s.db.jobs && j in Run(s, steps).db.jobs && MakesNone(steps, {j})
    ensures SameKey(s.db.jobs[j], Run(s, steps).db.jobs[j])
    decreases |steps|
  {
    hide Apply, Inv;
    if steps != [] {
      StepKeepsInv(s, steps[0]);
      JobStep(s, steps[0], j);
      if j in Apply(s, steps[0]).db.jobs {
        KeysStay(Apply(s, steps[0]), steps[1..], j);
      } else {
        NeverMade(Apply(s, steps[0]), steps[1..], j);
      }
    }
  }

  lemma {:induction false} NeverMade(s: State, steps: seq<Step>, j: Uuid)
    requires Inv(s) && j !in s.db.jobs && MakesNone(steps, {j})
    ensures j !in Run(s, steps).db.jobs
    decreases |steps|
  {
    hide Apply, Inv;
    if steps != [] {
      StepKeepsInv(s, steps[0]);
      JobStep(s, steps[0], j);
      NeverMade(Apply(s, steps[0]), steps[1..], j);
    }
  }

  lemma JobStep(s: State, step: Step, j: Uuid)
    requires Inv(s) && ((step.CreateNote? || step.UpdateNote?) ==> step.jobId != j)
    ensures var jobs := Apply(s, step).db.jobs; j in jobs ==> j in s.db.jobs && SameKey(s.db.jobs[j], jobs[j])
  {
    hide Inv, AfterCreate, AfterUpdate, Work, Store.Delete;
    if Enabled(s, step) {
      if step.CreateNote? {
        Progress.CreateMakesOneJob(s, step, j);
      } else if step.UpdateNote? {
        Progress.UpdateMakesOneJob(s, step, j);
      } else if step.DeleteNote? {
        Progress.DeleteMakesNone(s, step, j);
      } else if step.RunWorker? && Apply(s, step).db != s.db {
        Progress.WorkSpends(s, step.jobId, step.claimedAt, step.lease, step.answer, step.model, step.now);
      }
    }
  }

  // ---- an undisturbed save ----

  /** While its version stays, so does a note's current job; once completed it stays completed. */
  lemma {:induction false} CurrentJobStays(s: State, steps: seq<Step>, n: Uuid, j: Uuid)
    requires Inv(s) && IsCurrent(s.db, j, n)
    requires n in Run(s, steps).db.notes && Run(s, steps).db.notes[n].version == s.db.notes[n].version
    ensures IsCurrent(Run(s, steps).db, j, n)
    ensures s.db.jobs[j].status == Jobs.Completed ==> Run(s, steps).db.jobs[j].status == Jobs.Completed
    ensures var (row, row') := (s.db.notes[n], Run(s, steps).db.notes[n]); row'.updatedAt == row.updatedAt && row'.userId == row.userId
    decreases |steps|
  {
    hide Apply, Inv;
    if steps != [] {
      var s' := Apply(s, steps[0]);
      StepKeepsInv(s, steps[0]);
      StoredIsRecorded(s, n);
      if n !in s'.db.notes {
        TextKept(s, steps[0], (n, s.db.notes[n].version));
        GoneForGood(s', steps[1..], n, (n, s.db.notes[n].version));
      } else {
        assert Run(s, steps) == Run(s', steps[1..]);
        VersionsRise(s', steps[1..], n);
        VersionsRise(s, steps[..1], n) by { OneStep(s, steps); }
        OneStep(s, steps);
        CurrentJobKept(s, steps[0], n, j);
        CurrentJobStays(s', steps[1..], n, j);
      }
    }
  }

  lemma OneStep(s: State, steps: seq<Step>)
    requires steps != []
    ensures Run(s, steps[..1]) == Apply(s, steps[0])
  {
    hide Apply;
    assert Run(s, steps[..1]) == Run(Apply(s, steps[0]), []);
  }

  lemma CurrentJobKept(s: State, step: Step, n: Uuid, j: Uuid)
    requires Inv(s) && IsCurrent(s.db, j, n)
    requires n in Apply(s, step).db.notes && Apply(s, step).db.notes[n].version == s.db.notes[n].version
    ensures IsCurrent(Apply(s, step).db, j, n)
    ensures s.db.jobs[j].status == Jobs.Completed ==> Apply(s, step).db.jobs[j].status == Jobs.Completed
    ensures var (row, row') := (s.db.notes[n], Apply(s, step).db.notes[n]); row'.updatedAt == row.updatedAt && row'.userId == row.userId
  {
    hide NoteLocal, AfterCreate, AfterUpdate, Work, Store.Delete;
    if Enabled(s, step) {
      if step.CreateNote? {
        CreateKeepsJobs(s, step, n, j);
      } else if step.UpdateNote? {
        UpdateKeepsJobs(s, step, n, j);
      } else if step.DeleteNote? {
        DeleteKeepsJobs(s, step, n, j);
      } else if step.RunWorker? && Apply(s, step).db != s.db {
        Progress.WorkSpends(s, step.jobId, step.claimedAt, step.lease, step.answer, step.model, step.now);
        WorkKeepsTexts(s, step.jobId, step.claimedAt, step.lease, step.answer, step.model, step.now, n);
      }
    }
  }

  predicate KeepsRows(db: Db, db': Db, n: Uuid, j: Uuid) {
    && n in db.notes && n in db'.notes && db'.notes[n] == db.notes[n]
    && j in db.jobs && j in db'.jobs && db'.jobs[j] == db.jobs[j]
  }

  lemma CreateKeepsJobs(s: State, step: Step, n: Uuid, j: Uuid)
    requires step.CreateNote? && n in s.db.notes && j in s.db.jobs
    ensures KeepsRows(s.db, AfterCreate(s, step).db, n, j)
  {
    hide ValidateText;
  }

  lemma UpdateKeepsJobs(s: State, step: Step, n: Uuid, j: Uuid)
    requires step.UpdateNote? && Inv(s) && j in s.db.jobs && s.db.jobs[j].noteId == n && n in s.db.notes
    requires n in AfterUpdate(s, step).db.notes && AfterUpdate(s, step).db.notes[n].version == s.db.notes[n].version
    ensures KeepsRows(s.db, AfterUpdate(s, step).db, n, j)
  {
    hide ValidateText, IndexInv, JobInv;
    assert NoteLocal(s, step.noteId);
  }

  lemma DeleteKeepsJobs(s: State, step: Step, n: Uuid, j: Uuid)
    requires step.DeleteNote? && n in s.db.notes && j in s.db.jobs && s.db.jobs[j].noteId == n
    requires n in Store.Delete(s.db, step.user, step.noteId).0.notes
    ensures KeepsRows(s.db, Store.Delete(s.db, step.user, step.noteId).0, n, j)
  {
  }

  /** The columns a save leaves alone already have the values it would have written. */
  predicate StatusWritten(row: Note, read: Note, note: Note) {
    && !(read.status == Pending && row.status != Pending)
    && (note.statusAt == read.statusAt ==> row.statusAt == note.statusAt)
  }

  /**
   A save that no other save comes between: whatever workers and users do to the note's index between its
   SELECT, its DELETE and its flush, it is refused exactly if the atomic save at flush time is, it makes
   the same jobs and the same text, and it is that atomic save altogether exactly if the status it had
   no need to write is still the one it read.
   */
  lemma UndisturbedSaveIsAtomicExactlyIf(s: State, select: seq<Step>, delete: seq<Step>, n: Uuid, title: Option<string>,
                                         content: Option<string>, jobId: Uuid, now: Time)
    requires Inv(s) && n in s.db.notes
    requires var later := Run(Run(s, select), delete);
             n in later.db.notes && later.db.notes[n].version == s.db.notes[n].version
    requires Notes.Update(s.db.notes[n], title, content, Some(s.db.notes[n].version), now).Success?
    ensures var read, mid := s.db.notes[n], Run(s, select);
            var later := Run(mid, delete);
            var note := Notes.Update(read, title, content, Some(read.version), now).value;
            var r := Flush(later.db, read, note, OpenJobs(mid.db, n), jobId);
            var atomic := Save(later.db, read.userId, note, read.version, jobId);
            && (r.Failure? <==> atomic.Failure?)
            && (r.Success? ==>
                && atomic.Success? && atomic.value.1
                && r.value.jobs == atomic.value.0.jobs && r.value.chunks == atomic.value.0.chunks
                && n in r.value.notes && TextOf(r.value.notes[n]) == TextOf(atomic.value.0.notes[n])
                && (r.value == atomic.value.0 <==> StatusWritten(later.db.notes[n], read, note)))
  {
    hide Inv, Run, ValidateText, IsCurrent, Flush, Save, StatusWritten;
    var read, mid := s.db.notes[n], Run(s, select);
    var later := Run(mid, delete);
    var note := Notes.Update(read, title, content, Some(read.version), now).value;
    StoredIsRecorded(s, n);
    RunKeepsInv(s, select);
    RunKeepsInv(mid, delete);
    TextsNeverChange(s, select, (n, read.version));
    TextsNeverChange(mid, delete, (n, read.version));
    StoredIsRecorded(later, n);
    if n !in mid.db.notes {
      GoneForGood(mid, delete, n, (n, read.version));
    } else {
      VersionsRise(s, select, n);
      VersionsRise(mid, delete, n);
      var j := CurrentJob(s, n);
      CurrentJobStays(s, select, n, j);
      CurrentJobStays(mid, delete, n, j);
      SeenIsAll(mid, later, n, j);
      StatusFacts(s, n, j);
      StatusFacts(later, n, j);
      FlushAtVersion(later.db, read, note, OpenJobs(mid.db, n), jobId);
    }
  }

  lemma SeenIsAll(mid: State, later: State, n: Uuid, j: Uuid)
    requires Inv(mid) && Inv(later) && IsCurrent(mid.db, j, n) && IsCurrent(later.db, j, n)
    requires mid.db.jobs[j].status == Jobs.Completed ==> later.db.jobs[j].status == Jobs.Completed
    ensures OpenJobs(later.db, n) <= OpenJobs(mid.db, n)
  {
    hide NoteInv, Jobs.AttemptsOk, Agrees, BackedOff;
    assert NoteLocal(later, n);
    forall i | i in OpenJobs(later.db, n) ensures i in OpenJobs(mid.db, n) {
      assert IsJobOf(later.db, i, n) && IsJobOf(later.db, j, n);
    }
  }

  /** What the status of a note says about its error code. */
  lemma StatusFacts(s: State, n: Uuid, j: Uuid)
    requires Inv(s) && IsCurrent(s.db, j, n)
    ensures var note := s.db.notes[n];
            && (note.errorCode.Some? <==> note.status == Failed) && note.status != Processing
            && (note.status == Ready <==> s.db.jobs[j].status == Jobs.Completed)
  {
    hide NoteInv, BackedOff;
    assert NoteLocal(s, n);
  }

  lemma FlushAtVersion(db: Db, read: Note, note: Note, seen: set<Uuid>, jobId: Uuid)
    requires note.id in db.notes && OpenJobs(db, note.id) <= seen
    requires var row := db.notes[note.id];
             && row.userId == read.userId && row.version == read.version && TextOf(row) == TextOf(read) && row.updatedAt == read.updatedAt
             && (row.errorCode.Some? <==> row.status == Failed) && (read.errorCode.Some? <==> read.status == Failed)
             && (read.status == Ready ==> row.status == Ready) && read.status != Processing
    requires note.version == read.version + 1 && note.status == Pending && note.errorCode == None
    ensures var r := Flush(db, read, note, seen, jobId);
            var atomic := Save(db, read.userId, note, read.version, jobId);
            && (r.Failure? <==> atomic.Failure?)
            && (r.Success? ==>
                && atomic.Success? && atomic.value.1
                && r.value.jobs == atomic.value.0.jobs && r.value.chunks == atomic.value.0.chunks
                && note.id in r.value.notes && TextOf(r.value.notes[note.id]) == TextOf(atomic.value.0.notes[note.id])
                && (r.value == atomic.value.0 <==> StatusWritten(db.notes[note.id], read, note)))
  {
    hide InsertJob;
    var n := note.id;
    assert Remaining(db.jobs, n, seen) == WithoutOpenJobs(db.jobs, n) by {
      assert forall j :: j in db.jobs && db.jobs[j].noteId == n && db.jobs[j].status != Jobs.Completed ==> j in OpenJobs(db, n);
    }
    var r, atomic := Flush(db, read, note, seen, jobId), Save(db, read.userId, note, read.version, jobId);
    WrittenExactlyIf(db.notes[n], read, note);
    if r.Success? {
      assert r.value.notes[n] == Written(db.notes[n], read, note) && atomic.value.0.notes[n] == Overwrite(db.notes[n], note);
      assert r.value.notes == db.notes[n := r.value.notes[n]] && atomic.value.0.notes == db.notes[n := atomic.value.0.notes[n]];
    }
  }

  lemma WrittenExactlyIf(row: Note, read: Note, note: Note)
    requires row.version == read.version && TextOf(row) == TextOf(read) && row.updatedAt == read.updatedAt
    requires (row.errorCode.Some? <==> row.status == Failed) && (read.errorCode.Some? <==> read.status == Failed)
    requires (read.status == Ready ==> row.status == Ready) && read.status != Processing
    requires note.version == read.version + 1 && note.status == Pending && note.errorCode == None
    ensures TextOf(Written(row, read, note)) == TextOf(note)
    ensures Written(row, read, note) == Overwrite(row, note) <==> StatusWritten(row, read, note)
  {
  }

  /**
   The other half happens whenever a save waits out a worker: its SELECT reads a pending note, its DELETE
   waits for the job a worker has locked, the worker publishes, and the flush does not write the status.
   For every pending note, the new version is shown as ready although its job is waiting, and there is no
   chunk of that version.
   */
  lemma WaitingSaveShowsReady(s: State, work: Step, n: Uuid, j: Uuid, title: Option<string>, content: Option<string>,
                              jobId: Uuid, now: Time, chunks: seq<TextChunk>)
    requires Inv(s) && IsCurrent(s.db, j, n) && Jobs.Open(s.db.jobs[j]) && jobId !in s.db.jobs
    requires work.RunWorker? && Enabled(s, work) && work.jobId == j && Jobs.IsClaimable(s.db.jobs[j], work.claimedAt)
    requires ChunkNote(s.db.notes[n].title, s.db.notes[n].content) == Success(chunks)
    requires work.answer.Vectors? && RightShape(work.answer.vectors, |chunks|)
    requires Notes.Update(s.db.notes[n], title, content, Some(s.db.notes[n].version), now).Success?
    ensures var read := s.db.notes[n];
            var note := Notes.Update(read, title, content, Some(read.version), now).value;
            var r := Flush(Apply(s, work).db, read, note, OpenJobs(s.db, n), jobId);
            && r.Success? && n in r.value.notes && jobId in r.value.jobs
            && r.value.notes[n].version == read.version + 1 && r.value.notes[n].status == Ready
            && r.value.jobs[jobId].status == Jobs.Waiting && SameKey(r.value.jobs[jobId], Jobs.NewJob(jobId, n, read.userId, read.version + 1, now))
            && forall i :: 0 <= i < |RowsOf(r.value, n)| ==> RowsOf(r.value, n)[i].noteVersion == read.version
  {
    hide Inv, ChunkNote, ValidateText, Apply, Flush, Stands;
    var read := s.db.notes[n];
    var note := Notes.Update(read, title, content, Some(read.version), now).value;
    var s' := Apply(s, work);
    StoredIsRecorded(s, n);
    WorkerPublishes(s, work, n, j, chunks);
    NothingNewer(s', n, read.version + 1);
    FlushOverReady(s'.db, read, note, OpenJobs(s.db, n), jobId, work.now);
    var r := Flush(s'.db, read, note, OpenJobs(s.db, n), jobId);
    assert SameKey(r.value.jobs[jobId], Jobs.NewJob(jobId, n, read.userId, read.version + 1, now));
    assert RowsOf(r.value, n) == RowsOf(s'.db, n);
  }

  lemma WorkerPublishes(s: State, work: Step, n: Uuid, j: Uuid, chunks: seq<TextChunk>)
    requires Inv(s) && IsCurrent(s.db, j, n) && Jobs.Open(s.db.jobs[j])
    requires work.RunWorker? && Enabled(s, work) && work.jobId == j && Jobs.IsClaimable(s.db.jobs[j], work.claimedAt)
    requires ChunkNote(s.db.notes[n].title, s.db.notes[n].content) == Success(chunks)
    requires work.answer.Vectors? && RightShape(work.answer.vectors, |chunks|)
    ensures var db := Apply(s, work).db;
            && Inv(Apply(s, work)) && s.db.notes[n].status == Pending
            && n in db.notes && db.notes[n] == MarkReady(s.db.notes[n], work.now) && db.jobs.Keys == s.db.jobs.Keys
            && IsCompleted(db, j, n, s.db.notes[n].version)
            && forall i :: 0 <= i < |RowsOf(db, n)| ==> RowsOf(db, n)[i].noteVersion == s.db.notes[n].version
  {
    hide NoteLocal, ChunkNote, Settle, Work;
    assert NoteLocal(s, n);
    OpenJobIsCurrent(s, j);
    StepKeepsInv(s, work);
    var c, chunks' := WorkerOutcome(s, j, work.claimedAt, work.lease, work.answer, work.model, work.now);
    PublishedBy(WriteJob(s.db, c), c, chunks, work.answer, work.model, work.now);
    assert Apply(s, work).db == Settle(WriteJob(s.db, c), c, chunks, work.answer, work.model, work.now).value.0;
  }

  lemma FlushOverReady(db: Db, read: Note, note: Note, seen: set<Uuid>, jobId: Uuid, ready: Time)
    requires note.id in db.notes && db.notes[note.id] == MarkReady(read, ready) && jobId !in db.jobs
    requires note.version == read.version + 1 && read.status == note.status == Pending && !Stands(db, note.id, note.version, seen)
    ensures var r := Flush(db, read, note, seen, jobId);
            && r.Success? && note.id in r.value.notes && jobId in r.value.jobs
            && r.value.notes[note.id].version == note.version && r.value.notes[note.id].status == Ready
            && r.value.jobs[jobId] == Jobs.NewJob(jobId, note.id, note.userId, note.version, note.updatedAt)
            && r.value.chunks == db.chunks
  {
    hide Flush, Stands;
    FlushRefusedExactlyIf(db, read, note, seen, jobId);
    FlushedJobs(db, read, note, seen, jobId);
  }

  lemma PublishedBy(db: Db, c: Jobs.Job, chunks: seq<TextChunk>, answer: Answer, model: string, now: Time)
    requires c.status == Jobs.Processing && c.id in db.jobs && c.noteId in db.notes
    requires db.notes[c.noteId].userId == c.userId && db.notes[c.noteId].version == c.noteVersion
    requires answer.Vectors? && RightShape(answer.vectors, |chunks|)
    ensures var r := Settle(db, c, chunks, answer, model, now);
            && r.Success? && r.value.0.jobs.Keys == db.jobs.Keys
            && r.value.0.notes == db.notes[c.noteId := MarkReady(db.notes[c.noteId], now)]
            && r.value.0.jobs[c.id].status == Jobs.Completed && SameKey(r.value.0.jobs[c.id], c)
            && forall i :: 0 <= i < |RowsOf(r.value.0, c.noteId)| ==> RowsOf(r.value.0, c.noteId)[i].noteVersion == c.noteVersion
  {
  }

  /** No job of a note is of a version the note has not reached. */
  lemma NothingNewer(s: State, n: Uuid, version: nat)
    requires Inv(s) && n in s.db.notes && s.db.notes[n].version < version
    ensures forall seen :: !Stands(s.db, n, version, seen)
  {
    hide NoteInv, Jobs.AttemptsOk, Agrees, BackedOff;
    assert NoteLocal(s, n);
  }
}
