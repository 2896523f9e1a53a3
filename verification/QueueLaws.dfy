/** What the queue invariant means, in every state a run can reach. */
module QueueLaws {
  import opened Ids
  import opened Wrappers
  import opened Text
  import opened Chunker
  import opened Notes
  import opened Store
  import opened Queue
  import Jobs

  lemma ReachableInv(steps: seq<Step>)
    ensures Inv(Run(INITIAL, steps))
  {
    InitialInv();
    RunKeepsInv(INITIAL, steps);
  }

  /** The schema's keys hold in every state of the queue, so no insertion of a next version ever collides. */
  lemma InvMeetsConstraints(s: State)
    requires Inv(s)
    ensures Constraints(s.db)
  {
    hide IndexInv, WellFormed, Agrees, BackedOff;
    forall n | n in s.db.notes ensures s.db.notes[n].id == n { assert NoteLocal(s, n); }
    forall j | j in s.db.jobs ensures s.db.jobs[j].id == j && AttemptsChecked(s.db.jobs[j]) { assert NoteLocal(s, s.db.jobs[j].noteId); }
    forall i, j | i in s.db.jobs && j in s.db.jobs && SameKey(s.db.jobs[i], s.db.jobs[j]) ensures i == j {
      assert NoteLocal(s, s.db.jobs[i].noteId);
      assert IsJobOf(s.db, i, s.db.jobs[i].noteId) && IsJobOf(s.db, j, s.db.jobs[i].noteId);
    }
  }

  /** Job j is the one job of the note's current version; every other one is completed and older. */
  predicate OnlyOpenJob(db: Db, n: Uuid, j: Uuid)
    requires n in db.notes
  {
    && IsCurrent(db, j, n)
    && forall i :: IsJobOf(db, i, n) && i != j ==>
         db.jobs[i].status == Jobs.Completed && db.jobs[i].noteVersion < db.notes[n].version
  }

  /**
   The queue after any run: every note has exactly one job at its current version and only completed
   older ones, its status is that job's, and an error code is shown exactly by a failed note.
   */
  lemma QueueInvariant(steps: seq<Step>, n: Uuid) returns (j: Uuid)
    requires n in Run(INITIAL, steps).db.notes
    ensures var db := Run(INITIAL, steps).db;
            && OnlyOpenJob(db, n, j)
            && (db.notes[n].status == Ready <==> db.jobs[j].status == Jobs.Completed)
            && (db.notes[n].status == Notes.Failed <==> db.jobs[j].status == Jobs.Failed)
            && (db.notes[n].status == Pending <==> db.jobs[j].status in {Jobs.Waiting, Jobs.RetryWait})
            && (db.notes[n].errorCode.Some? <==> db.notes[n].status == Notes.Failed)
  {
    hide Indexes, WellFormed;
    var s := Run(INITIAL, steps);
    ReachableInv(steps);
    assert NoteLocal(s, n);
    j :| IsCurrent(s.db, j, n);
  }

  /** No job is ever committed as processing, and its attempts are those its status allows: never more than five. */
  lemma AttemptBounds(steps: seq<Step>, j: Uuid)
    requires j in Run(INITIAL, steps).db.jobs
    ensures var job := Run(INITIAL, steps).db.jobs[j];
            && Jobs.AttemptsOk(job) && job.status != Jobs.Processing && 0 <= job.attempts <= 5
            && (job.status == Jobs.Failed <==> job.attempts == 5 && job.status != Jobs.Completed)
  {
    hide Indexes, WellFormed;
    var s := Run(INITIAL, steps);
    ReachableInv(steps);
    assert NoteLocal(s, s.db.jobs[j].noteId);
  }

  /** The fifth attempt is claimed at least fifteen seconds after the first one failed. */
  lemma FifthClaimWaits(steps: seq<Step>, j: Uuid, now: Time)
    requires var s := Run(INITIAL, steps);
             j in s.db.jobs && s.db.jobs[j].attempts == 4 && Jobs.IsClaimable(s.db.jobs[j], now)
    ensures var s := Run(INITIAL, steps);
            j in s.firstFailure && now >= s.firstFailure[j] + 15 * SECOND
  {
    hide Indexes, WellFormed;
    var s := Run(INITIAL, steps);
    ReachableInv(steps);
    assert NoteLocal(s, s.db.jobs[j].noteId);
    assert Jobs.Pow2(1) == 2 && Jobs.Pow2(2) == 4 && Jobs.Pow2(3) == 8 && Jobs.Pow2(4) == 16;
  }

  /**
   The index after any run: a note has chunks exactly if a job of it was completed, they are the
   chunks of the text of its latest completed version, never a mix, and a ready note's are the
   chunks of its current text.
   */
  lemma IndexIsFresh(steps: seq<Step>, n: Uuid)
    requires n in Run(INITIAL, steps).db.notes
    ensures var s := Run(INITIAL, steps);
            var rows := RowsOf(s.db, n);
            && (rows != [] <==> exists j :: IsJobOf(s.db, j, n) && s.db.jobs[j].status == Jobs.Completed)
            && (rows != [] ==>
              var version := rows[0].noteVersion;
              && (forall j :: IsJobOf(s.db, j, n) && s.db.jobs[j].status == Jobs.Completed ==> s.db.jobs[j].noteVersion <= version)
              && (exists j :: IsCompleted(s.db, j, n, version))
              && (n, version) in s.texts
              && Indexes(rows, n, s.db.notes[n].userId, version, s.texts[(n, version)]))
            && (s.db.notes[n].status == Ready ==>
              rows != [] && Indexes(rows, n, s.db.notes[n].userId, s.db.notes[n].version, TextOf(s.db.notes[n])))
  {
    hide Indexes, WellFormed, Jobs.AttemptsOk;
    var s := Run(INITIAL, steps);
    ReachableInv(steps);
    assert NoteLocal(s, n);
    var rows := RowsOf(s.db, n);
    if rows != [] {
      var i :| IsCompleted(s.db, i, n, rows[0].noteVersion);
      assert IsJobOf(s.db, i, n);
    }
    var j :| IsCurrent(s.db, j, n);
    assert IsJobOf(s.db, j, n);
  }

  /** The text saved for a version never changes, whatever happens after. */
  lemma {:induction false} TextsNeverChange(s: State, steps: seq<Step>, k: (Uuid, nat))
    requires Inv(s) && k in s.texts
    ensures k in Run(s, steps).texts && Run(s, steps).texts[k] == s.texts[k]
    decreases |steps|
  {
    if steps != [] {
      StepKeepsInv(s, steps[0]);
      TextKept(s, steps[0], k);
      TextsNeverChange(Apply(s, steps[0]), steps[1..], k);
    }
  }

  lemma TextKept(s: State, step: Step, k: (Uuid, nat))
    requires Inv(s) && k in s.texts
    ensures k in Apply(s, step).texts && Apply(s, step).texts[k] == s.texts[k]
  {
    hide Indexes, WellFormed, IndexInv, Work, SaveWrites;
    assert NoteLocal(s, k.0);
  }

  lemma {:induction false} RunConcat(s: State, a: seq<Step>, b: seq<Step>)
    ensures Run(s, a + b) == Run(Run(s, a), b)
    decreases |a|
  {
    hide Apply;
    if a == [] {
      assert a + b == b;
    } else {
      RunConcat(Apply(s, a[0]), a[1..], b);
      assert (a + b)[1..] == a[1..] + b;
    }
  }

  /** A note that has been deleted never comes back. */
  lemma {:induction false} GoneForGood(s: State, steps: seq<Step>, n: Uuid, k: (Uuid, nat))
    requires n !in s.db.notes && k in s.texts && k.0 == n
    ensures n !in Run(s, steps).db.notes
    decreases |steps|
  {
    hide Apply;
    if steps != [] {
      GoneStays(s, steps[0], n, k);
      GoneForGood(Apply(s, steps[0]), steps[1..], n, k);
    }
  }

  lemma GoneStays(s: State, step: Step, n: Uuid, k: (Uuid, nat))
    requires n !in s.db.notes && k in s.texts && k.0 == n
    ensures n !in Apply(s, step).db.notes && k in Apply(s, step).texts
  {
    hide ChunkNote, ValidateText, InsertJob, Work;
    if step.RunWorker? && Enabled(s, step) && Work(s.db, step.jobId, step.claimedAt, step.lease, step.answer, step.model, step.now).Success? {
      WorkKeepsTexts(s, step.jobId, step.claimedAt, step.lease, step.answer, step.model, step.now, n);
    }
  }

  function Patched(text: NoteText, title: Option<string>, content: Option<string>): NoteText {
    NoteText(if title.None? then text.title else Strip(title.value), if content.None? then text.content else Strip(content.value))
  }

  /**
   No lost update between whole saves: a step that changes a note's text is an update that named the
   version it found, it makes the next version, and computes it from the text of that version.
   */
  lemma UpdatesChain(s: State, step: Step, n: Uuid)
    requires Inv(s) && n in s.db.notes && n in Apply(s, step).db.notes
    requires Apply(s, step).db.notes[n].version != s.db.notes[n].version || TextOf(Apply(s, step).db.notes[n]) != TextOf(s.db.notes[n])
    ensures var v := s.db.notes[n].version;
            && step.UpdateNote? && step.noteId == n && step.expected == v
            && Apply(s, step).db.notes[n].version == v + 1
            && (n, v) in s.texts && (n, v + 1) !in s.texts && (n, v + 1) in Apply(s, step).texts
            && Apply(s, step).texts[(n, v + 1)] == Patched(s.texts[(n, v)], step.title', step.content')
            && TextOf(Apply(s, step).db.notes[n]) == Apply(s, step).texts[(n, v + 1)]
            && Apply(s, step).db.notes[n].updatedAt == step.now <= step.commit == Apply(s, step).clock
  {
    hide NoteLocal, WellFormed, AfterUpdate, Work;
    if step.RunWorker? && Enabled(s, step) && AfterWork(s, step) != s {
      WorkKeepsTexts(s, step.jobId, step.claimedAt, step.lease, step.answer, step.model, step.now, n);
    }
    UpdateChains(s, step, n);
  }

  lemma UpdateChains(s: State, step: Step, n: Uuid)
    requires Inv(s) && n in s.db.notes && step.UpdateNote? && AfterUpdate(s, step).db.notes[n] != s.db.notes[n]
    requires n in AfterUpdate(s, step).db.notes
    ensures var v := s.db.notes[n].version;
            var s' := AfterUpdate(s, step);
            && step.noteId == n && step.expected == v && s'.db.notes[n].version == v + 1
            && (n, v) in s.texts && (n, v + 1) !in s.texts && (n, v + 1) in s'.texts
            && s'.texts[(n, v + 1)] == Patched(s.texts[(n, v)], step.title', step.content')
            && TextOf(s'.db.notes[n]) == s'.texts[(n, v + 1)]
            && s'.db.notes[n].updatedAt == step.now
  {
    hide IndexInv, WellFormed, Tokens, Strip, JobInv, InsertJob;
    assert NoteLocal(s, n);
    assert NoteLocal(s, step.noteId);
  }

  // ---- an update reads in one transaction and saves in another ----

  /** A note as a request has read it at some time: its text is the one saved for its version. */
  predicate Recorded(s: State, read: Note) {
    (read.id, read.version) in s.texts && s.texts[(read.id, read.version)] == TextOf(read)
  }

  lemma StoredIsRecorded(s: State, n: Uuid)
    requires Inv(s) && n in s.db.notes
    ensures Recorded(s, s.db.notes[n]) && s.db.notes[n].id == n
  {
    hide IndexInv, WellFormed;
    assert NoteLocal(s, n);
  }

  /** NoteService.update from the note it has read on: compute the next version of that note, then save it. */
  function AfterSave(s: State, read: Note, title: Option<string>, content: Option<string>, expected: int, jobId: Uuid, now: Time): State {
    match Notes.Update(read, title, content, Some(expected), now)
    case Failure(_) => s
    case Success(updated) =>
      match Save(s.db, read.userId, updated, expected, jobId)
      case Failure(_) => s
      case Success((db, found)) =>
        if found then s.(db := db, texts := s.texts[(updated.id, updated.version) := TextOf(updated)]) else s
  }

  /**
   The version check of `save` does its work: a save computed from a note that was read at any earlier
   time, whatever has been committed since, either leaves everything as it is, because the note is gone
   or has moved on from the version read, or does exactly what reading and saving in one step would.
   */
  lemma LateSaveIsUpdate(s: State, read: Note, title: Option<string>, content: Option<string>, expected: int, jobId: Uuid, now: Time, commit: Time)
    requires Inv(s) && Recorded(s, read)
    requires Notes.Update(read, title, content, Some(expected), now).Success?
    ensures var updated := Notes.Update(read, title, content, Some(expected), now).value;
            var r := Save(s.db, read.userId, updated, expected, jobId);
            && AfterSave(s, read, title, content, expected, jobId, now)
               == AfterUpdate(s, UpdateNote(read.userId, read.id, title, content, expected, jobId, now, commit))
            && (r.Success? && !r.value.1 <==>
                Owned(s.db, read.userId, read.id).None? || s.db.notes[read.id].version > read.version)
            && (r.Success? && !r.value.1 ==> r.value.0 == s.db)
            && (r.Success? && r.value.1 ==>
                TextOf(r.value.0.notes[read.id]) == Patched(TextOf(read), title, content)
                && r.value.0.notes[read.id].version == read.version + 1)
  {
    hide IndexInv, Acceptable, JobInv, Save;
    var updated := Notes.Update(read, title, content, Some(expected), now).value;
    SaveOutcome(s.db, read.userId, updated, expected, jobId);
    if Owned(s.db, read.userId, read.id).Some? {
      assert NoteLocal(s, read.id);
      var current := s.db.notes[read.id];
      if current.version == expected {
        SameUpdate(current, read, title, content, expected, now);
        SaveIgnoresCreation(s.db, read.userId, updated, expected, jobId, current.createdAt);
      }
    }
  }

  lemma SaveOutcome(db: Db, user: Uuid, note: Note, expected: int, jobId: Uuid)
    ensures var r := Save(db, user, note, expected, jobId);
            && (r.Success? && !r.value.1 <==> Owned(db, user, note.id).None? || db.notes[note.id].version != expected)
            && (r.Success? && !r.value.1 ==> r.value.0 == db)
            && (r.Success? && r.value.1 ==> note.id in r.value.0.notes && TextOf(r.value.0.notes[note.id]) == TextOf(note)
                                            && r.value.0.notes[note.id].version == note.version)
  {
  }

  lemma SaveIgnoresCreation(db: Db, user: Uuid, note: Note, expected: int, jobId: Uuid, t: Time)
    ensures Save(db, user, note.(createdAt := t), expected, jobId) == Save(db, user, note, expected, jobId)
  {
  }

  /** Two readings of one text at one version give the same update, but for when the note was created. */
  lemma SameUpdate(a: Note, b: Note, title: Option<string>, content: Option<string>, expected: int, now: Time)
    requires a.id == b.id && a.userId == b.userId && a.version == b.version && TextOf(a) == TextOf(b)
    requires Notes.Update(b, title, content, Some(expected), now).Success?
    ensures Notes.Update(a, title, content, Some(expected), now)
            == Success(Notes.Update(b, title, content, Some(expected), now).value.(createdAt := a.createdAt))
  {
    hide ValidateText;
  }

  /** So an update is one step of the queue, however many other transactions come between its reading and its saving. */
  lemma SplitUpdateIsOneStep(s: State, steps: seq<Step>, user: Uuid, n: Uuid, title: Option<string>, content: Option<string>,
                             expected: int, jobId: Uuid, now: Time, commit: Time)
    requires Inv(s) && Owned(s.db, user, n).Some?
    requires Notes.Update(s.db.notes[n], title, content, Some(expected), now).Success?
    ensures var later := Run(s, steps);
            var r := Save(later.db, user, Notes.Update(s.db.notes[n], title, content, Some(expected), now).value, expected, jobId);
            && AfterUpdate(later, UpdateNote(user, n, title, content, expected, jobId, now, commit)).db
               == (if r.Success? then r.value.0 else later.db)
            && (r.Success? && !r.value.1 <==> Owned(later.db, user, n).None? || later.db.notes[n].version > expected)
  {
    hide Inv, Run, AfterUpdate, Save;
    var read := s.db.notes[n];
    StoredIsRecorded(s, n);
    TextsNeverChange(s, steps, (n, read.version));
    RunKeepsInv(s, steps);
    LateSaveIsUpdate(Run(s, steps), read, title, content, expected, jobId, now, commit);
  }

  lemma WorkKeepsTexts(s: State, j: Uuid, claimedAt: Time, lease: int, answer: Answer, model: string, now: Time, n: Uuid)
    requires j in s.db.jobs && Work(s.db, j, claimedAt, lease, answer, model, now).Success?
    ensures var db := Work(s.db, j, claimedAt, lease, answer, model, now).value.0;
            && (n in db.notes <==> n in s.db.notes)
            && (n in s.db.notes ==>
              db.notes[n].version == s.db.notes[n].version && TextOf(db.notes[n]) == TextOf(s.db.notes[n])
              && db.notes[n].updatedAt == s.db.notes[n].updatedAt && db.notes[n].userId == s.db.notes[n].userId)
  {
    hide ChunkNote, Jobs.DelaySeconds, Rows;
  }
}
