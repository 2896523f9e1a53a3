/**
 The durable indexing queue as a state machine: every committed transaction, user's or worker's, is
 one step, and the queue invariant holds after any run of steps.
 */
module Queue {
  import opened Ids
  import opened Wrappers
  import opened Chunker
  import ChunkLaws
  import opened Notes
  import opened Store
  import Jobs

  datatype NoteText = NoteText(title: string, content: string)

  /**
   The committed database, with what a run has seen so far: the text of every version ever saved,
   when every job last failed for the first time, and the time of the latest commit.
   */
  datatype State = State(db: Db, texts: map<(Uuid, nat), NoteText>, firstFailure: map<Uuid, Time>, clock: Time)

  datatype Step =
    | CreateNote(user: Uuid, noteId: Uuid, jobId: Uuid, title: string, content: string, now: Time, commit: Time)
    | UpdateNote(user: Uuid, noteId: Uuid, title': Option<string>, content': Option<string>, expected: int, jobId: Uuid, now: Time, commit: Time)
    | DeleteNote(user: Uuid, noteId: Uuid, commit: Time)
    | RetryFailed(user: Uuid, noteId: Uuid, jobId: Uuid, now: Time, commit: Time)
    | RunWorker(jobId: Uuid, claimedAt: Time, lease: int, answer: Answer, model: string, now: Time, commit: Time)
    | Tick(commit: Time)

  const INITIAL := State(EMPTY, map[], map[], 0)

  function TextOf(note: Note): NoteText {
    NoteText(note.title, note.content)
  }

  /** `uuid4` never draws an identifier a note has had before. */
  predicate Fresh(s: State, noteId: Uuid) {
    forall k :: k in s.texts ==> k.0 != noteId
  }

  function AfterCreate(s: State, step: Step): State
    requires step.CreateNote?
  {
    match Notes.Create(step.noteId, step.user, step.title, step.content, step.now)
    case Failure(_) => s
    case Success(note) =>
      match Add(s.db, step.user, note, step.jobId)
      case Failure(_) => s
      case Success(db) => s.(db := db, texts := s.texts[(note.id, note.version) := TextOf(note)])
  }

  /** NoteService.update: read the note, compute the next version, save it at the expected one. */
  function AfterUpdate(s: State, step: Step): State
    requires step.UpdateNote?
  {
    match Owned(s.db, step.user, step.noteId)
    case None => s
    case Some(current) =>
      match Notes.Update(current, step.title', step.content', Some(step.expected), step.now)
      case Failure(_) => s
      case Success(updated) =>
        match Save(s.db, step.user, updated, step.expected, step.jobId)
        case Failure(_) => s
        case Success((db, found)) =>
          if found then s.(db := db, texts := s.texts[(updated.id, updated.version) := TextOf(updated)]) else s
  }

  function AfterWork(s: State, step: Step): State
    requires step.RunWorker? && step.jobId in s.db.jobs
  {
    match Work(s.db, step.jobId, step.claimedAt, step.lease, step.answer, step.model, step.now)
    case Failure(_) => s
    case Success((db, _)) =>
      var first := s.db.jobs[step.jobId].attempts == 0;
      s.(db := db, firstFailure := if first then s.firstFailure[step.jobId := step.now] else s.firstFailure)
  }

  /** A request reads its clock after the note it updates, which was written at an earlier reading. */
  predicate ReadBefore(db: Db, noteId: Uuid, expected: int, now: Time) {
    noteId in db.notes && db.notes[noteId].version == expected ==> db.notes[noteId].updatedAt <= now
  }

  predicate Enabled(s: State, step: Step) {
    && s.clock <= step.commit
    && (step.CreateNote? ==> step.now <= step.commit && Fresh(s, step.noteId))
    && (step.UpdateNote? ==> step.now <= step.commit && ReadBefore(s.db, step.noteId, step.expected, step.now))
    && (step.RetryFailed? ==> step.now <= step.commit)
    && (step.RunWorker? ==> step.jobId in s.db.jobs && step.claimedAt <= step.now <= step.commit)
    && (step.RetryFailed? ==> Retryable(s.db, step.user, step.noteId, step.jobId))
  }

  /** One step; a step that is not enabled does nothing, and one whose transaction raises changes only the clock. */
  function Apply(s: State, step: Step): State {
    if !Enabled(s, step) then s
    else
      var s' :=
        match step
        case CreateNote(_, _, _, _, _, _, _) => AfterCreate(s, step)
        case UpdateNote(_, _, _, _, _, _, _, _) => AfterUpdate(s, step)
        case DeleteNote(user, noteId, _) => s.(db := Delete(s.db, user, noteId).0)
        case RetryFailed(_, noteId, jobId, now, _) => s.(db := Reopen(s.db, noteId, jobId, now))
        case RunWorker(_, _, _, _, _, _, _) => AfterWork(s, step)
        case Tick(_) => s;
      s'.(clock := step.commit)
  }

  function Run(s: State, steps: seq<Step>): State
    decreases |steps|
  {
    if steps == [] then s else Run(Apply(s, steps[0]), steps[1..])
  }

  // ---- the invariant ----

  predicate IsCurrent(db: Db, j: Uuid, n: Uuid) {
    j in db.jobs && n in db.notes && db.jobs[j].noteId == n && db.jobs[j].noteVersion == db.notes[n].version
  }

  predicate IsCompleted(db: Db, j: Uuid, n: Uuid, version: nat) {
    j in db.jobs && db.jobs[j].noteId == n && db.jobs[j].noteVersion == version && db.jobs[j].status == Jobs.Completed
  }

  /** The status a note shows is the one of the job of its current version. */
  predicate Agrees(note: Note, job: Jobs.Job) {
    && (note.errorCode.Some? <==> note.status == Failed)
    && match job.status
       case Waiting => note.status == Pending
       case RetryWait => note.status == Pending
       case Failed => note.status == Notes.Failed
       case Completed => note.status == Ready
       case Processing => false
  }

  predicate BackedOff(s: State, j: Uuid)
    requires j in s.db.jobs && s.db.jobs[j].attempts >= 0
  {
    var job := s.db.jobs[j];
    job.status == Jobs.RetryWait ==>
      j in s.firstFailure && s.firstFailure[j] + Jobs.BackoffSeconds(job.attempts) * SECOND <= job.availableAt
  }

  predicate JobInv(s: State, j: Uuid)
    requires j in s.db.jobs
  {
    var job := s.db.jobs[j];
    && job.noteId in s.db.notes
    && var note := s.db.notes[job.noteId];
    && job.userId == note.userId
    && 1 <= job.noteVersion <= note.version
    && Jobs.AttemptsOk(job)
    && (job.noteVersion < note.version ==> job.status == Jobs.Completed)
    && (job.noteVersion == note.version ==> Agrees(note, job))
    && (job.status == Jobs.Completed ==>
      RowsOf(s.db, job.noteId) != [] && job.noteVersion <= RowsOf(s.db, job.noteId)[0].noteVersion)
    && BackedOff(s, j)
  }

  /** The rows are the chunks of that text, all of one version, with their owner's identity. */
  predicate Indexes(rows: seq<ChunkRow>, noteId: Uuid, userId: Uuid, version: nat, text: NoteText) {
    && ChunkNote(text.title, text.content).Success?
    && var chunks := ChunkNote(text.title, text.content).value;
    && |rows| == |chunks|
    && forall i :: 0 <= i < |rows| ==>
      && rows[i].noteId == noteId && rows[i].userId == userId && rows[i].noteVersion == version
      && rows[i].ordinal == chunks[i].ordinal && rows[i].text == chunks[i].text && rows[i].tokenCount == chunks[i].tokenCount
  }

  /** A note has no chunks, or exactly those of the version of its latest completed job. */
  predicate IndexInv(s: State, n: Uuid)
    requires n in s.db.notes
  {
    var rows := RowsOf(s.db, n);
    rows != [] ==>
      && var version := rows[0].noteVersion;
      && (n, version) in s.texts
      && Indexes(rows, n, s.db.notes[n].userId, version, s.texts[(n, version)])
      && exists j :: IsCompleted(s.db, j, n, version)
  }

  predicate NoteInv(s: State, n: Uuid)
    requires n in s.db.notes
  {
    var note := s.db.notes[n];
    && note.id == n
    && WellFormed(note)
    && note.updatedAt <= s.clock
    && (n, note.version) in s.texts && s.texts[(n, note.version)] == TextOf(note)
    && (forall k :: k in s.texts && k.0 == n ==> 1 <= k.1 <= note.version)
    && (exists j :: IsCurrent(s.db, j, n))
    && IndexInv(s, n)
  }

  /** Everything the invariant says about one note identifier. */
  predicate NoteLocal(s: State, n: Uuid) {
    && (n in s.db.notes ==> NoteInv(s, n))
    && (n in s.db.chunks ==> n in s.db.notes)
    && (forall j :: j in s.db.jobs && s.db.jobs[j].noteId == n ==> s.db.jobs[j].id == j && JobInv(s, j))
    && (forall i, j :: IsJobOf(s.db, i, n) && IsJobOf(s.db, j, n) && SameKey(s.db.jobs[i], s.db.jobs[j]) ==> i == j)
  }

  predicate IsJobOf(db: Db, j: Uuid, n: Uuid) {
    j in db.jobs && db.jobs[j].noteId == n
  }

  ghost predicate Inv(s: State) {
    forall n: Uuid :: NoteLocal(s, n)
  }

  // ---- a step touches one note ----

  /** Nothing about this note identifier differs between the two states. */
  ghost predicate SameAt(s: State, s': State, n: Uuid) {
    && (n in s.db.notes <==> n in s'.db.notes) && (n in s.db.notes ==> s.db.notes[n] == s'.db.notes[n])
    && (n in s.db.chunks <==> n in s'.db.chunks) && (n in s.db.chunks ==> s.db.chunks[n] == s'.db.chunks[n])
    && (forall j :: IsJobOf(s.db, j, n) <==> IsJobOf(s'.db, j, n))
    && (forall j :: IsJobOf(s.db, j, n) ==> SameJob(s, s', j))
    && (forall k :: k in s.texts && k.0 == n ==> k in s'.texts && s'.texts[k] == s.texts[k])
    && (forall k :: k in s'.texts && k.0 == n ==> k in s.texts)
  }

  predicate SameJob(s: State, s': State, j: Uuid) {
    && j in s.db.jobs && j in s'.db.jobs && s'.db.jobs[j] == s.db.jobs[j]
    && (j in s.firstFailure ==> j in s'.firstFailure && s'.firstFailure[j] == s.firstFailure[j])
  }

  lemma LocalFrame(s: State, s': State, n: Uuid)
    requires NoteLocal(s, n) && SameAt(s, s', n) && s.clock <= s'.clock
    ensures NoteLocal(s', n)
  {
    hide NoteInv, JobInv;
    if n in s.db.notes { NoteFrame(s, s', n); }
    forall j | j in s'.db.jobs && s'.db.jobs[j].noteId == n ensures s'.db.jobs[j].id == j && JobInv(s', j) {
      assert IsJobOf(s'.db, j, n) && IsJobOf(s.db, j, n) && SameJob(s, s', j);
      JobFrame(s, s', n, j);
    }
  }

  lemma NoteFrame(s: State, s': State, n: Uuid)
    requires n in s.db.notes && NoteInv(s, n) && SameAt(s, s', n) && s.clock <= s'.clock
    ensures NoteInv(s', n)
  {
    hide Indexes, WellFormed;
    var j :| IsCurrent(s.db, j, n);
    assert IsJobOf(s.db, j, n) && IsCurrent(s'.db, j, n);
    var rows := RowsOf(s.db, n);
    if rows != [] {
      var i :| IsCompleted(s.db, i, n, rows[0].noteVersion);
      assert IsJobOf(s.db, i, n) && IsCompleted(s'.db, i, n, rows[0].noteVersion);
    }
  }

  lemma JobFrame(s: State, s': State, n: Uuid, j: Uuid)
    requires IsJobOf(s.db, j, n) && JobInv(s, j) && SameAt(s, s', n) && SameJob(s, s', j)
    ensures JobInv(s', j)
  {
    hide Jobs.AttemptsOk, Agrees, Jobs.BackoffSeconds;
  }

  /** A step that touches one note and leaves that one in order keeps the invariant. */
  lemma FrameKeepsInv(s: State, s': State, n: Uuid)
    requires Inv(s) && s.clock <= s'.clock && NoteLocal(s', n)
    requires forall m :: m != n ==> SameAt(s, s', m)
    ensures Inv(s')
  {
    hide NoteLocal, SameAt;
    forall m: Uuid ensures NoteLocal(s', m) {
      if m != n { LocalFrame(s, s', m); }
    }
  }

  /** The two states differ, in what concerns note n, by its row, its chunks and its one current job. */
  predicate RewritesCurrent(s: State, s': State, n: Uuid, j: Uuid) {
    && IsCurrent(s.db, j, n) && j in s'.db.jobs && s'.db.jobs == s.db.jobs[j := s'.db.jobs[j]]
    && SameKey(s.db.jobs[j], s'.db.jobs[j]) && s'.db.jobs[j].id == j
    && n in s'.db.notes && s'.db.notes[n].version == s.db.notes[n].version && s'.db.notes[n].userId == s.db.notes[n].userId
    && (RowsOf(s'.db, n) == RowsOf(s.db, n) || (RowsOf(s'.db, n) != [] && RowsOf(s'.db, n)[0].noteVersion == s.db.notes[n].version))
    && (forall i :: i != j && i in s.firstFailure ==> i in s'.firstFailure && s'.firstFailure[i] == s.firstFailure[i])
  }

  /** If the note and the rewritten job are in order, so are the note's other jobs: they are older and completed. */
  lemma RewriteLocal(s: State, s': State, n: Uuid, j: Uuid)
    requires NoteLocal(s, n) && RewritesCurrent(s, s', n, j) && NoteInv(s', n) && JobInv(s', j)
    ensures NoteLocal(s', n)
  {
    hide NoteInv, Jobs.AttemptsOk, Agrees;
    forall i | i in s'.db.jobs && s'.db.jobs[i].noteId == n ensures s'.db.jobs[i].id == i && JobInv(s', i) {
      if i != j {
        OlderJob(s, n, i, j);
        OlderJobStays(s, s', n, i, j);
      }
    }
    forall i, k | IsJobOf(s'.db, i, n) && IsJobOf(s'.db, k, n) && SameKey(s'.db.jobs[i], s'.db.jobs[k]) ensures i == k {
      assert IsJobOf(s.db, i, n) && IsJobOf(s.db, k, n) && SameKey(s.db.jobs[i], s.db.jobs[k]);
    }
  }

  lemma OlderJob(s: State, n: Uuid, i: Uuid, j: Uuid)
    requires NoteLocal(s, n) && IsCurrent(s.db, j, n) && IsJobOf(s.db, i, n) && i != j
    ensures JobInv(s, i) && s.db.jobs[i].status == Jobs.Completed && s.db.jobs[i].noteVersion < s.db.notes[n].version
    ensures s.db.jobs[i].id == i
  {
    hide NoteInv, Jobs.AttemptsOk, Agrees;
    assert IsJobOf(s.db, j, n);
  }

  lemma OlderJobStays(s: State, s': State, n: Uuid, i: Uuid, j: Uuid)
    requires RewritesCurrent(s, s', n, j) && IsJobOf(s.db, i, n) && i != j
    requires JobInv(s, i) && s.db.jobs[i].status == Jobs.Completed && s.db.jobs[i].noteVersion < s.db.notes[n].version
    ensures JobInv(s', i)
  {
    hide Agrees;
  }

  /** What `add` is given: a first version, pending, read no later than now. */
  predicate FirstVersion(note: Note, now: Time) {
    && WellFormed(note) && note.version == 1 && note.status == Pending && note.errorCode == None && note.updatedAt <= now
  }

  lemma AddKeepsInv(s: State, note: Note, jobId: Uuid, s': State)
    requires Inv(s) && Fresh(s, note.id) && FirstVersion(note, s'.clock) && s.clock <= s'.clock
    requires Add(s.db, note.userId, note, jobId) == Success(s'.db)
    requires s'.texts == s.texts[(note.id, note.version) := TextOf(note)] && s'.firstFailure == s.firstFailure
    ensures Inv(s')
  {
    hide NoteLocal, FirstVersion;
    AddLocal(s, note, jobId, s');
    FrameKeepsInv(s, s', note.id);
  }

  lemma AddLocal(s: State, note: Note, jobId: Uuid, s': State)
    requires NoteLocal(s, note.id) && Fresh(s, note.id) && FirstVersion(note, s'.clock)
    requires Add(s.db, note.userId, note, jobId) == Success(s'.db)
    requires s'.texts == s.texts[(note.id, note.version) := TextOf(note)] && s'.firstFailure == s.firstFailure
    ensures NoteLocal(s', note.id)
  {
    hide Indexes, WellFormed;
    assert IsCurrent(s'.db, jobId, note.id);
  }

  /** What `save` is given for its row: the next version of it, pending again, read no later than now. */
  predicate NextVersion(row: Note, note: Note, now: Time) {
    && WellFormed(note) && note.id == row.id && note.userId == row.userId && note.version == row.version + 1
    && note.status == Pending && note.errorCode == None && note.updatedAt <= now
  }

  lemma SaveKeepsInv(s: State, note: Note, jobId: Uuid, s': State)
    requires Inv(s) && note.id in s.db.notes && s.clock <= s'.clock
    requires NextVersion(s.db.notes[note.id], note, s'.clock)
    requires SaveWrites(s.db, note, jobId) == Success(s'.db)
    requires s'.texts == s.texts[(note.id, note.version) := TextOf(note)] && s'.firstFailure == s.firstFailure
    ensures Inv(s')
  {
    hide NoteLocal, NextVersion, Overwrite;
    SaveLocal(s, note, jobId, s');
    FrameKeepsInv(s, s', note.id);
  }

  lemma SaveLocal(s: State, note: Note, jobId: Uuid, s': State)
    requires NoteLocal(s, note.id) && note.id in s.db.notes && s.clock <= s'.clock
    requires NextVersion(s.db.notes[note.id], note, s'.clock)
    requires SaveWrites(s.db, note, jobId) == Success(s'.db)
    requires s'.texts == s.texts[(note.id, note.version) := TextOf(note)] && s'.firstFailure == s.firstFailure
    ensures NoteLocal(s', note.id)
  {
    hide NoteInv, WellFormed, Jobs.BackoffSeconds;
    SaveNoteInv(s, note, jobId, s');
    var n := note.id;
    forall i | i in s'.db.jobs && s'.db.jobs[i].noteId == n ensures s'.db.jobs[i].id == i && JobInv(s', i) {
      if i != jobId {
        CompletedJobStays(s, s', i);
      }
    }
    forall i, k | IsJobOf(s'.db, i, n) && IsJobOf(s'.db, k, n) && SameKey(s'.db.jobs[i], s'.db.jobs[k]) ensures i == k {
      assert i != jobId && k != jobId ==> IsJobOf(s.db, i, n) && IsJobOf(s.db, k, n);
    }
  }

  /** A completed job stays in order when its note goes on to the next version. */
  lemma CompletedJobStays(s: State, s': State, i: Uuid)
    requires i in s.db.jobs && JobInv(s, i) && i in s'.db.jobs && s'.db.jobs[i] == s.db.jobs[i] && s.db.jobs[i].status == Jobs.Completed
    requires var n := s.db.jobs[i].noteId;
             && n in s'.db.notes && s'.db.notes[n].userId == s.db.notes[n].userId && s'.db.notes[n].version == s.db.notes[n].version + 1
             && RowsOf(s'.db, n) == RowsOf(s.db, n)
    ensures JobInv(s', i)
  {
    hide Agrees;
  }

  lemma SaveNoteInv(s: State, note: Note, jobId: Uuid, s': State)
    requires note.id in s.db.notes && NoteInv(s, note.id) && s.clock <= s'.clock
    requires NextVersion(s.db.notes[note.id], note, s'.clock)
    requires SaveWrites(s.db, note, jobId) == Success(s'.db)
    requires s'.texts == s.texts[(note.id, note.version) := TextOf(note)]
    ensures NoteInv(s', note.id)
  {
    hide Indexes, WellFormed;
    var n := note.id;
    assert WellFormed(s'.db.notes[n]) by { SameTextWellFormed(note, s'.db.notes[n]); }
    assert IsCurrent(s'.db, jobId, n);
    var rows := RowsOf(s.db, n);
    if rows != [] {
      var i :| IsCompleted(s.db, i, n, rows[0].noteVersion);
      assert IsCompleted(s'.db, i, n, rows[0].noteVersion);
    }
  }

  lemma SameTextWellFormed(a: Note, b: Note)
    requires WellFormed(a) && a.title == b.title && a.content == b.content && a.version == b.version
    ensures WellFormed(b)
  {
  }

  lemma DeleteKeepsInv(s: State, user: Uuid, noteId: Uuid, s': State)
    requires Inv(s) && s' == s.(db := Delete(s.db, user, noteId).0, clock := s'.clock) && s.clock <= s'.clock
    ensures Inv(s')
  {
    hide NoteLocal, SameAt, Store.Delete;
    DeleteLocal(s, user, noteId, s');
    forall m | m != noteId ensures SameAt(s, s', m) { DeleteElsewhere(s, user, noteId, s', m); }
    FrameKeepsInv(s, s', noteId);
  }

  lemma DeleteLocal(s: State, user: Uuid, noteId: Uuid, s': State)
    requires NoteLocal(s, noteId) && s' == s.(db := Delete(s.db, user, noteId).0, clock := s'.clock) && s.clock <= s'.clock
    ensures NoteLocal(s', noteId)
  {
    hide NoteInv, JobInv;
    if s'.db == s.db { LocalFrame(s, s', noteId); }
  }

  lemma DeleteElsewhere(s: State, user: Uuid, noteId: Uuid, s': State, m: Uuid)
    requires s' == s.(db := Delete(s.db, user, noteId).0, clock := s'.clock) && m != noteId
    ensures SameAt(s, s', m)
  {
  }

  lemma RetryKeepsInv(s: State, user: Uuid, n: Uuid, j: Uuid, now: Time, s': State)
    requires Inv(s) && Retryable(s.db, user, n, j)
    requires s' == s.(db := Reopen(s.db, n, j, now), clock := s'.clock) && s.clock <= s'.clock
    ensures Inv(s')
  {
    hide NoteLocal, Reopened;
    assert NoteLocal(s, n) ==> IsJobOf(s.db, j, n);
    RetryLocal(s, user, n, j, now, s');
    assert s'.db.jobs[j].noteId == n by { assert Reopened(s.db.jobs[j], now).noteId == n by { ReopenedKeepsNote(s.db.jobs[j], now); } }
    FrameKeepsInv(s, s', n);
  }

  lemma ReopenedKeepsNote(job: Jobs.Job, now: Time)
    ensures Reopened(job, now).noteId == job.noteId
  {
  }

  lemma RetryLocal(s: State, user: Uuid, n: Uuid, j: Uuid, now: Time, s': State)
    requires NoteLocal(s, n) && Retryable(s.db, user, n, j)
    requires s' == s.(db := Reopen(s.db, n, j, now), clock := s'.clock) && s.clock <= s'.clock
    ensures NoteLocal(s', n)
  {
    hide IndexInv, WellFormed;
    SameTextWellFormed(s.db.notes[n], s'.db.notes[n]);
    assert IsJobOf(s.db, j, n) && IsCurrent(s'.db, j, n);
    CompletedStays(s, s', n, j);
    RewriteLocal(s, s', n, j);
  }

  /** Changing a job that is not completed loses no completed job. */
  lemma CompletedStays(s: State, s': State, n: Uuid, j: Uuid)
    requires n in s.db.notes && IndexInv(s, n) && n in s'.db.notes && s'.db.notes[n].userId == s.db.notes[n].userId
    requires j in s.db.jobs && s.db.jobs[j].status != Jobs.Completed
    requires forall i :: i in s.db.jobs && i != j ==> i in s'.db.jobs && s'.db.jobs[i] == s.db.jobs[i]
    requires RowsOf(s'.db, n) == RowsOf(s.db, n) && s'.texts == s.texts
    ensures IndexInv(s', n)
  {
    hide Indexes;
    var rows := RowsOf(s.db, n);
    if rows != [] {
      var i :| IsCompleted(s.db, i, n, rows[0].noteVersion);
      assert IsCompleted(s'.db, i, n, rows[0].noteVersion);
    }
  }

  // ---- the worker ----

  /** An open job is the one of its note's current version, and the note is pending. */
  lemma OpenJobIsCurrent(s: State, j: Uuid)
    requires j in s.db.jobs && NoteLocal(s, s.db.jobs[j].noteId) && Jobs.Open(s.db.jobs[j])
    ensures IsCurrent(s.db, j, s.db.jobs[j].noteId) && s.db.jobs[j].id == j
    ensures var note := s.db.notes[s.db.jobs[j].noteId];
            && note.status == Pending && note.userId == s.db.jobs[j].userId && WellFormed(note)
            && 0 <= s.db.jobs[j].attempts <= 4
  {
    hide Indexes, WellFormed;
  }

  /** No committed job is left processing, so only an open job is ever claimed. */
  lemma ClaimableIsOpen(s: State, j: Uuid, now: Time)
    requires j in s.db.jobs && NoteLocal(s, s.db.jobs[j].noteId) && Jobs.IsClaimable(s.db.jobs[j], now)
    ensures Jobs.Open(s.db.jobs[j])
  {
    hide Indexes, WellFormed;
  }

  /** The claimed job `c` of the open job j, as the claim writes it into its own transaction. */
  predicate ClaimOf(db: Db, j: Uuid, c: Jobs.Job, claimedAt: Time, lease: int) {
    j in db.jobs && Jobs.Open(db.jobs[j]) && Jobs.Claim(db.jobs[j], claimedAt, lease) == Success(c)
  }

  predicate SameElsewhere(s: State, s': State, j: Uuid) {
    && s.clock <= s'.clock && s'.texts == s.texts
    && forall i :: i != j && i in s.firstFailure ==> i in s'.firstFailure && s'.firstFailure[i] == s.firstFailure[i]
  }

  lemma PublishKeepsInv(s: State, j: Uuid, c: Jobs.Job, claimedAt: Time, lease: int, chunks: seq<TextChunk>,
                        embeddings: seq<Vector>, model: string, now: Time, s': State)
    requires Inv(s) && ClaimOf(s.db, j, c, claimedAt, lease) && SameElsewhere(s, s', j)
    requires c.noteId in s.db.notes && ChunkNote(s.db.notes[c.noteId].title, s.db.notes[c.noteId].content) == Success(chunks)
    requires |chunks| == |embeddings|
    ensures Publish(WriteJob(s.db, c), c, chunks, embeddings, model, now).Success?
    ensures Publish(WriteJob(s.db, c), c, chunks, embeddings, model, now).value.1
    ensures s'.db == Publish(WriteJob(s.db, c), c, chunks, embeddings, model, now).value.0 ==> Inv(s')
  {
    hide ChunkNote, WellFormed, NoteLocal, Rows;
    assert NoteLocal(s, c.noteId);
    OpenJobIsCurrent(s, j);
    if s'.db == Publish(WriteJob(s.db, c), c, chunks, embeddings, model, now).value.0 {
      PublishLocal(s, j, c, chunks, Rows(c, chunks, embeddings, model, now), now, s');
      FrameKeepsInv(s, s', c.noteId);
    }
  }

  lemma PublishLocal(s: State, j: Uuid, c: Jobs.Job, chunks: seq<TextChunk>, rows: seq<ChunkRow>, now: Time, s': State)
    requires j in s.db.jobs && Jobs.Open(s.db.jobs[j]) && SameElsewhere(s, s', j)
    requires c.status == Jobs.Processing && c.id == j && c.attempts == s.db.jobs[j].attempts + 1
    requires SameKey(c, s.db.jobs[j]) && c.userId == s.db.jobs[j].userId
    requires c.noteId in s.db.notes && ChunkNote(s.db.notes[c.noteId].title, s.db.notes[c.noteId].content) == Success(chunks)
    requires Indexes(rows, c.noteId, c.userId, c.noteVersion, TextOf(s.db.notes[c.noteId]))
    requires NoteLocal(s, c.noteId)
    requires s'.db == Db(s.db.notes[c.noteId := MarkReady(s.db.notes[c.noteId], now)],
                         s.db.jobs[j := Jobs.Complete(c, now).value], s.db.chunks[c.noteId := rows])
    ensures NoteLocal(s', c.noteId)
  {
    hide ChunkNote, Indexes, WellFormed, Jobs.BackoffSeconds;
    OpenJobIsCurrent(s, j);
    var n := c.noteId;
    SameTextWellFormed(s.db.notes[n], s'.db.notes[n]);
    RowsNotEmpty(rows, s.db.notes[n], n, c.userId, c.noteVersion);
    assert IsCurrent(s'.db, j, n) && IsCompleted(s'.db, j, n, c.noteVersion);
    RewriteLocal(s, s', n, j);
  }

  lemma RowsNotEmpty(rows: seq<ChunkRow>, note: Note, n: Uuid, user: Uuid, version: nat)
    requires Indexes(rows, n, user, version, TextOf(note))
    ensures rows != [] && rows[0].noteVersion == version
  {
    hide ChunkNote;
    ChunkLaws.ChunksWellShaped(note.title, note.content, TARGET_TOKENS, OVERLAP_TOKENS);
  }

  lemma FailKeepsInv(s: State, j: Uuid, c: Jobs.Job, claimedAt: Time, lease: int, code: string, now: Time, s': State)
    requires Inv(s) && ClaimOf(s.db, j, c, claimedAt, lease) && SameElsewhere(s, s', j) && claimedAt <= now
    requires s'.firstFailure == if s.db.jobs[j].attempts == 0 then s.firstFailure[j := now] else s.firstFailure
    ensures Fail(WriteJob(s.db, c), c, code, now).Success?
    ensures s'.db == Fail(WriteJob(s.db, c), c, code, now).value ==> Inv(s')
  {
    hide ChunkNote, WellFormed, NoteLocal, Jobs.DelaySeconds;
    assert NoteLocal(s, c.noteId);
    OpenJobIsCurrent(s, j);
    if s'.db == Fail(WriteJob(s.db, c), c, code, now).value {
      FailLocal(s, j, c, claimedAt, lease, code, now, s');
      FrameKeepsInv(s, s', c.noteId);
    }
  }

  lemma FailLocal(s: State, j: Uuid, c: Jobs.Job, claimedAt: Time, lease: int, code: string, now: Time, s': State)
    requires ClaimOf(s.db, j, c, claimedAt, lease) && SameElsewhere(s, s', j) && claimedAt <= now
    requires NoteLocal(s, c.noteId)
    requires s'.firstFailure == if s.db.jobs[j].attempts == 0 then s.firstFailure[j := now] else s.firstFailure
    requires Fail(WriteJob(s.db, c), c, code, now) == Success(s'.db)
    ensures NoteLocal(s', c.noteId)
  {
    hide NoteInv, WellFormed, BackedOff, Jobs.DelaySeconds;
    OpenJobIsCurrent(s, j);
    FailNoteInv(s, j, c, claimedAt, lease, code, now, s');
    assert JobInv(s, j);
    FailBacksOff(s, j, c, claimedAt, lease, code, now, s');
    RewriteLocal(s, s', c.noteId, j);
  }

  lemma FailNoteInv(s: State, j: Uuid, c: Jobs.Job, claimedAt: Time, lease: int, code: string, now: Time, s': State)
    requires ClaimOf(s.db, j, c, claimedAt, lease) && s.clock <= s'.clock && s'.texts == s.texts
    requires IsCurrent(s.db, j, c.noteId) && s.db.jobs[j].id == j && NoteInv(s, c.noteId)
    requires Fail(WriteJob(s.db, c), c, code, now) == Success(s'.db)
    ensures NoteInv(s', c.noteId)
  {
    hide WellFormed, IndexInv, Jobs.DelaySeconds;
    var n := c.noteId;
    SameTextWellFormed(s.db.notes[n], s'.db.notes[n]);
    assert IsCurrent(s'.db, j, n);
    CompletedStays(s, s', n, j);
  }

  /** Each failure pushes the next claim at least the doubling backoff away from the first failure. */
  lemma FailBacksOff(s: State, j: Uuid, c: Jobs.Job, claimedAt: Time, lease: int, code: string, now: Time, s': State)
    requires ClaimOf(s.db, j, c, claimedAt, lease) && claimedAt <= now && c.id == j
    requires 0 <= s.db.jobs[j].attempts <= 4 && (s.db.jobs[j].status == Jobs.Waiting ==> s.db.jobs[j].attempts == 0)
    requires BackedOff(s, j)
    requires s'.firstFailure == if s.db.jobs[j].attempts == 0 then s.firstFailure[j := now] else s.firstFailure
    requires j in s'.db.jobs && Jobs.FailTransient(c, code, now) == Success(s'.db.jobs[j])
    ensures BackedOff(s', j)
  {
    Jobs.DelayDoubles(c.attempts);
  }

  /**
   What a worker transaction on a claimable job does, in any state of the queue: the job's note is
   there at the job's version and chunks without an error, so the model is always asked; a crash
   rolls back, a bad answer records a failure, and a good one publishes without fail.
   */
  lemma WorkerOutcome(s: State, j: Uuid, claimedAt: Time, lease: int, answer: Answer, model: string, now: Time)
    returns (c: Jobs.Job, chunks: seq<TextChunk>)
    requires Inv(s) && j in s.db.jobs && Jobs.IsClaimable(s.db.jobs[j], claimedAt)
    ensures ClaimOf(s.db, j, c, claimedAt, lease) && IsCurrent(s.db, j, c.noteId)
    ensures ChunkNote(s.db.notes[c.noteId].title, s.db.notes[c.noteId].content) == Success(chunks)
    ensures NoteForJob(WriteJob(s.db, c), c) == Some(s.db.notes[c.noteId])
    ensures Work(s.db, j, claimedAt, lease, answer, model, now) == Settle(WriteJob(s.db, c), c, chunks, answer, model, now)
  {
    hide ChunkNote, WellFormed, NoteLocal, Settle;
    assert NoteLocal(s, s.db.jobs[j].noteId);
    ClaimableIsOpen(s, j, claimedAt);
    OpenJobIsCurrent(s, j);
    c := Jobs.Claim(s.db.jobs[j], claimedAt, lease).value;
    var note := s.db.notes[c.noteId];
    WellFormedNotesChunk(note);
    chunks := ChunkNote(note.title, note.content).value;
  }

  lemma WorkKeepsInv(s: State, step: Step)
    requires Inv(s) && step.RunWorker? && Enabled(s, step)
    ensures Inv(AfterWork(s, step).(clock := step.commit))
  {
    hide ChunkNote, NoteLocal, Publish;
    var s' := AfterWork(s, step).(clock := step.commit);
    if Jobs.IsClaimable(s.db.jobs[step.jobId], step.claimedAt) {
      var j, now := step.jobId, step.now;
      var c, chunks := WorkerOutcome(s, j, step.claimedAt, step.lease, step.answer, step.model, now);
      if step.answer.Crash? {
        ClockKeepsInv(s, s');
      } else if step.answer.Unavailable? || !RightShape(step.answer.vectors, |chunks|) {
        FailKeepsInv(s, j, c, step.claimedAt, step.lease, EMBEDDING_UNAVAILABLE, now, s');
      } else {
        PublishKeepsInv(s, j, c, step.claimedAt, step.lease, chunks, step.answer.vectors, step.model, now, s');
      }
    } else {
      ClockKeepsInv(s, s');
    }
  }

  lemma ClockKeepsInv(s: State, s': State)
    requires Inv(s) && s' == s.(clock := s'.clock) && s.clock <= s'.clock
    ensures Inv(s')
  {
    hide NoteLocal;
    forall n: Uuid ensures NoteLocal(s', n) {
      assert NoteLocal(s, n);
      LocalFrame(s, s', n);
    }
  }

  /** Whatever the step and its arguments, the queue invariant is kept. */
  lemma StepKeepsInv(s: State, step: Step)
    requires Inv(s)
    ensures Inv(Apply(s, step))
  {
    hide NoteLocal, Work, WellFormed, SaveWrites, Reopen, Store.Delete, Retryable;
    var s' := Apply(s, step);
    if !Enabled(s, step) {
    } else if step.CreateNote? && AfterCreate(s, step) != s {
      var note := Notes.Create(step.noteId, step.user, step.title, step.content, step.now).value;
      AddKeepsInv(s, note, step.jobId, s');
    } else if step.UpdateNote? && AfterUpdate(s, step) != s {
      UpdateKeepsInv(s, step);
    } else if step.DeleteNote? {
      DeleteKeepsInv(s, step.user, step.noteId, s');
    } else if step.RetryFailed? {
      RetryKeepsInv(s, step.user, step.noteId, step.jobId, step.now, s');
    } else if step.RunWorker? {
      WorkKeepsInv(s, step);
    } else {
      ClockKeepsInv(s, s');
    }
  }

  lemma UpdateKeepsInv(s: State, step: Step)
    requires Inv(s) && step.UpdateNote? && Enabled(s, step) && AfterUpdate(s, step) != s
    ensures Inv(AfterUpdate(s, step).(clock := step.commit))
  {
    hide WellFormed, SaveWrites;
    assert NoteLocal(s, step.noteId);
    var updated := Notes.Update(s.db.notes[step.noteId], step.title', step.content', Some(step.expected), step.now).value;
    SaveKeepsInv(s, updated, step.jobId, AfterUpdate(s, step).(clock := step.commit));
  }

  lemma {:induction false} RunKeepsInv(s: State, steps: seq<Step>)
    requires Inv(s)
    ensures Inv(Run(s, steps))
    decreases |steps|
  {
    if steps != [] {
      StepKeepsInv(s, steps[0]);
      RunKeepsInv(Apply(s, steps[0]), steps[1..]);
    }
  }

  lemma InitialInv()
    ensures Inv(INITIAL)
  {
  }
}
