/**
 The committed database and what one transaction makes of it: the notes, their indexing jobs and
 their chunks (persistence/repositories.py, persistence/models.py, migrations 002 and 003).
 A transaction that raises is rolled back; its result is a Failure and the database stays as it was.
 */
module Store {
  import opened Ids
  import opened Wrappers
  import opened Chunker
  import opened Notes
  import Jobs

  type Vector = seq<real>

  const DIMENSIONS := 768
  const EMBEDDING_UNAVAILABLE := "embedding_unavailable"

  datatype ChunkRow = ChunkRow(
    noteId: Uuid, userId: Uuid, noteVersion: nat, ordinal: nat, text: string, tokenCount: nat,
    embedding: Vector, model: string, createdAt: Time)

  datatype Db = Db(notes: map<Uuid, Note>, jobs: map<Uuid, Jobs.Job>, chunks: map<Uuid, seq<ChunkRow>>)

  datatype StoreError =
    | OwnerMismatch | IntegrityError | JobNotFound | UnequalLengths
    | JobFault(job: Jobs.JobError) | ChunkFault(chunk: ChunkError) | ModelFault

  const EMPTY := Db(map[], map[], map[])

  function RowsOf(db: Db, noteId: Uuid): seq<ChunkRow> {
    if noteId in db.chunks then db.chunks[noteId] else []
  }

  // ---- constraints of the schema ----

  predicate HasJobFor(jobs: map<Uuid, Jobs.Job>, noteId: Uuid, version: nat) {
    exists j :: j in jobs && jobs[j].noteId == noteId && jobs[j].noteVersion == version
  }

  predicate SameKey(a: Jobs.Job, b: Jobs.Job) {
    a.noteId == b.noteId && a.noteVersion == b.noteVersion
  }

  /** `ck_jobs_attempt_count` */
  predicate AttemptsChecked(job: Jobs.Job) {
    0 <= job.attempts <= Jobs.MAXIMUM_ATTEMPTS
  }

  /** `uq_jobs_note_version`, the primary keys, and the check of the attempts. */
  predicate Constraints(db: Db) {
    && (forall n :: n in db.notes ==> db.notes[n].id == n)
    && (forall j :: j in db.jobs ==> db.jobs[j].id == j && AttemptsChecked(db.jobs[j]))
    && (forall i, j :: i in db.jobs && j in db.jobs && SameKey(db.jobs[i], db.jobs[j]) ==> i == j)
  }

  function InsertJob(jobs: map<Uuid, Jobs.Job>, job: Jobs.Job): Result<map<Uuid, Jobs.Job>, StoreError> {
    if job.id in jobs || HasJobFor(jobs, job.noteId, job.noteVersion) then Failure(IntegrityError)
    else Success(jobs[job.id := job])
  }

  // ---- NoteRepository ----

  function Owned(db: Db, user: Uuid, noteId: Uuid): Option<Note> {
    if noteId in db.notes && db.notes[noteId].userId == user then Some(db.notes[noteId]) else None
  }

  function Add(db: Db, user: Uuid, note: Note, jobId: Uuid): Result<Db, StoreError> {
    if note.userId != user then Failure(OwnerMismatch)
    else if note.id in db.notes then Failure(IntegrityError)
    else
      var jobs :- InsertJob(db.jobs, Jobs.NewJob(jobId, note.id, note.userId, note.version, note.createdAt));
      Success(db.(notes := db.notes[note.id := note], jobs := jobs))
  }

  function WithoutOpenJobs(jobs: map<Uuid, Jobs.Job>, noteId: Uuid): map<Uuid, Jobs.Job> {
    map j | j in jobs && (jobs[j].noteId != noteId || jobs[j].status == Jobs.Completed) :: jobs[j]
  }

  /** The fields `save` copies onto the row; id, owner and creation time stay. */
  function Overwrite(row: Note, note: Note): Note {
    row.(title := note.title, content := note.content, version := note.version, status := note.status,
         errorCode := note.errorCode, statusAt := note.statusAt, updatedAt := note.updatedAt)
  }

  /** The writes of `save`, made after its SELECT found the row at the expected version. */
  function SaveWrites(db: Db, note: Note, jobId: Uuid): Result<Db, StoreError>
    requires note.id in db.notes
  {
    var jobs :- InsertJob(WithoutOpenJobs(db.jobs, note.id),
                          Jobs.NewJob(jobId, note.id, note.userId, note.version, note.updatedAt));
    Success(db.(notes := db.notes[note.id := Overwrite(db.notes[note.id], note)], jobs := jobs))
  }

  /** `save`: the new database and whether the row was found. */
  function Save(db: Db, user: Uuid, note: Note, expected: int, jobId: Uuid): Result<(Db, bool), StoreError> {
    var row := Owned(db, user, note.id);
    if row.None? || row.value.version != expected then Success((db, false))
    else
      var saved :- SaveWrites(db, note, jobId);
      Success((saved, true))
  }

  /** `delete`, with the cascades to jobs and chunks. */
  function Delete(db: Db, user: Uuid, noteId: Uuid): (Db, bool) {
    if Owned(db, user, noteId).None? then (db, false)
    else
      (Db(db.notes - {noteId},
          map j | j in db.jobs && db.jobs[j].noteId != noteId :: db.jobs[j],
          db.chunks - {noteId}), true)
  }

  // ---- IndexingRepository ----

  predicate Free(db: Db, locked: set<Uuid>, now: Time, j: Uuid) {
    j in db.jobs && j !in locked && Jobs.IsClaimable(db.jobs[j], now)
  }

  /** A row the claim's SELECT may return: claimable, not locked, and before every other such row. */
  predicate IsNext(db: Db, locked: set<Uuid>, now: Time, j: Uuid) {
    Free(db, locked, now, j) && forall k :: k in db.jobs && Free(db, locked, now, k) ==> Jobs.Before(db.jobs[j], db.jobs[k])
  }

  function WriteJob(db: Db, job: Jobs.Job): Db {
    db.(jobs := db.jobs[job.id := job])
  }

  function NoteForJob(db: Db, job: Jobs.Job): Option<Note> {
    Owned(db, job.userId, job.noteId)
  }

  function Row(job: Jobs.Job, chunk: TextChunk, embedding: Vector, model: string, now: Time): ChunkRow {
    ChunkRow(job.noteId, job.userId, job.noteVersion, chunk.ordinal, chunk.text, chunk.tokenCount, embedding, model, now)
  }

  function Rows(job: Jobs.Job, chunks: seq<TextChunk>, embeddings: seq<Vector>, model: string, now: Time): (r: seq<ChunkRow>)
    requires |chunks| == |embeddings|
    ensures |r| == |chunks|
    ensures forall i :: 0 <= i < |r| ==> r[i] == Row(job, chunks[i], embeddings[i], model, now)
  {
    seq(|chunks|, i requires 0 <= i < |chunks| => Row(job, chunks[i], embeddings[i], model, now))
  }

  function MarkReady(note: Note, now: Time): Note {
    note.(status := Ready, errorCode := None, statusAt := Some(now))
  }

  function MarkFailed(note: Note, code: string, now: Time): Note {
    note.(status := Failed, errorCode := Some(code), statusAt := Some(now))
  }

  /** `publish`: replace the note's chunks, mark it ready and complete the job, if the version is still current. */
  function Publish(db: Db, job: Jobs.Job, chunks: seq<TextChunk>, embeddings: seq<Vector>, model: string, now: Time)
    : Result<(Db, bool), StoreError>
  {
    var note := NoteForJob(db, job);
    if note.None? || note.value.version != job.noteVersion || job.id !in db.jobs then Success((db, false))
    else if |chunks| != |embeddings| then Failure(UnequalLengths)
    else
      match Jobs.Complete(job, now)
      case Failure(e) => Failure(JobFault(e))
      case Success(done) =>
        Success((Db(db.notes[job.noteId := MarkReady(note.value, now)],
                    db.jobs[job.id := done],
                    db.chunks[job.noteId := Rows(job, chunks, embeddings, model, now)]), true))
  }

  /** `fail`: back off, or close the job as failed and mark the note, if the version is still current. */
  function Fail(db: Db, job: Jobs.Job, code: string, now: Time): Result<Db, StoreError> {
    if job.id !in db.jobs then Failure(JobNotFound)
    else
      match Jobs.FailTransient(job, code, now)
      case Failure(e) => Failure(JobFault(e))
      case Success(failed) =>
        var written := WriteJob(db, failed);
        if failed.status == Jobs.Failed && job.noteId in db.notes && db.notes[job.noteId].version == job.noteVersion then
          Success(written.(notes := db.notes[job.noteId := MarkFailed(db.notes[job.noteId], code, now)]))
        else Success(written)
  }

  /** The row `retry_failed` finds: the failed job of the failed note's current version. */
  predicate Retryable(db: Db, user: Uuid, noteId: Uuid, j: Uuid) {
    && Owned(db, user, noteId).Some? && db.notes[noteId].status == Failed
    && j in db.jobs && db.jobs[j].noteId == noteId && db.jobs[j].userId == user
    && db.jobs[j].noteVersion == db.notes[noteId].version && db.jobs[j].status == Jobs.Failed
  }

  function Reopened(job: Jobs.Job, now: Time): Jobs.Job {
    job.(status := Jobs.Waiting, attempts := 0, availableAt := now, claimedAt := None,
         leaseExpiresAt := None, lastErrorCode := None, completedAt := None)
  }

  function Reopen(db: Db, noteId: Uuid, j: Uuid, now: Time): Db
    requires noteId in db.notes && j in db.jobs
  {
    db.(notes := db.notes[noteId := db.notes[noteId].(status := Pending, errorCode := None)],
        jobs := db.jobs[j := Reopened(db.jobs[j], now)])
  }

  // ---- IndexingService and IndexWorker ----

  /** What the embedding model answers: vectors, a ModelUnavailableError, or any other exception. */
  datatype Answer = Vectors(vectors: seq<Vector>) | Unavailable | Crash

  predicate RightShape(vectors: seq<Vector>, count: nat) {
    |vectors| == count && forall i :: 0 <= i < |vectors| ==> |vectors[i]| == DIMENSIONS
  }

  /** The end of `process`, once the chunks of the note read have been sent to the model. */
  function Settle(db: Db, job: Jobs.Job, chunks: seq<TextChunk>, answer: Answer, model: string, now: Time)
    : Result<(Db, bool), StoreError>
  {
    if answer.Crash? then Failure(ModelFault)
    else if answer.Unavailable? || !RightShape(answer.vectors, |chunks|) then
      var failed :- Fail(db, job, EMBEDDING_UNAVAILABLE, now);
      Success((failed, false))
    else Publish(db, job, chunks, answer.vectors, model, now)
  }

  /** `IndexingService.process` */
  function Process(db: Db, job: Jobs.Job, answer: Answer, model: string, now: Time): Result<(Db, bool), StoreError> {
    var note := NoteForJob(db, job);
    if note.None? || note.value.version != job.noteVersion then Success((db, false))
    else
      match ChunkNote(note.value.title, note.value.content)
      case Failure(e) => Failure(ChunkFault(e))
      case Success(chunks) => Settle(db, job, chunks, answer, model, now)
  }

  /** One worker transaction on the job it claimed: claim, process, commit; a claim that fails the check of the attempts raises. */
  function Work(db: Db, j: Uuid, claimedAt: Time, lease: int, answer: Answer, model: string, finishedAt: Time)
    : Result<(Db, bool), StoreError>
    requires j in db.jobs
  {
    match Jobs.Claim(db.jobs[j], claimedAt, lease)
    case Failure(e) => Failure(JobFault(e))
    case Success(job) =>
      if !AttemptsChecked(job) then Failure(IntegrityError)
      else Process(WriteJob(db, job), job, answer, model, finishedAt)
  }
}
