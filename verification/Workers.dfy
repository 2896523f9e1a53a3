/**
 Several index workers and several requests at once. A request that updates a note reads it in one
 transaction and saves it in another, and anything may be committed in between. A worker's transaction claims a job and holds its row lock until it
 commits or rolls back; in between it reads the note, asks the model, and other transactions commit.
 Every commit of such an interleaving is one atomic step of the serial queue.
 */
module Workers {
  import opened Ids
  import opened Wrappers
  import opened Chunker
  import opened Notes
  import opened Store
  import opened Queue
  import opened QueueLaws
  import opened SplitSave
  import Jobs
  import Progress

  type WorkerId = nat

  /** How far `process` has come: job claimed, note read, model answered. */
  datatype Phase = Claimed | HasRead(read: Option<Note>) | Answered(note: Note, answer: Answer)

  /** A transaction in flight: the locked row as committed, and the claim it has written but not committed. */
  datatype Tx = Tx(row: Jobs.Job, claim: Jobs.Job, claimedAt: Time, lease: int, phase: Phase)

  type ClientId = nat

  /** A request that updates a note: the note it has read, and its clock reading once it has taken it. */
  datatype Request = Request(note: Note, now: Option<Time>)

  /** The committed state, the worker transactions in flight, and the requests between reading and saving. */
  datatype System = System(state: State, flight: map<WorkerId, Tx>, held: map<ClientId, Request>)

  datatype Action =
    | User(step: Step)
    | Get(c: ClientId, user: Uuid, noteId: Uuid)
    | ReadClock(c: ClientId, now: Time)
    | Put(c: ClientId, title: Option<string>, content: Option<string>, expected: int, putJob: Uuid, commit: Time)
    | Claim(w: WorkerId, jobId: Uuid, claimedAt: Time, lease: int, at: Time)
    | ReadNote(w: WorkerId)
    | Ask(w: WorkerId, answer: Answer)
    | Commit(w: WorkerId, model: string, now: Time, commit: Time)
    | Abort(w: WorkerId)

  const START := System(INITIAL, map[], map[])

  function LockedRows(sys: System): set<Uuid> {
    set w | w in sys.flight :: sys.flight[w].row.id
  }

  /** A save or delete waits while a worker holds the row of one of the note's open jobs. */
  predicate Unblocked(sys: System, noteId: Uuid) {
    forall w :: w in sys.flight ==> sys.flight[w].row.noteId != noteId
  }

  /** The note the transaction read is gone or has another version than the job. */
  predicate Stale(tx: Tx) {
    tx.phase.HasRead? && (tx.phase.read.None? || tx.phase.read.value.version != tx.claim.noteVersion)
  }

  predicate Enabled(sys: System, a: Action) {
    match a
    case User(step) => !step.RunWorker? && !step.UpdateNote? && (step.DeleteNote? ==> Unblocked(sys, step.noteId))
    case Get(_, _, _) => true
    case ReadClock(c, now) => c in sys.held && sys.state.clock <= now
    case Put(c, _, _, _, _, commit) => c in sys.held && sys.held[c].now.Some? && sys.state.clock <= commit && Unblocked(sys, sys.held[c].note.id)
    case Claim(w, j, claimedAt, _, at) =>
      w !in sys.flight && sys.state.clock <= at && claimedAt <= at && IsNext(sys.state.db, LockedRows(sys), claimedAt, j)
    case ReadNote(w) => w in sys.flight && sys.flight[w].phase.Claimed?
    case Ask(w, _) =>
      && w in sys.flight && sys.flight[w].phase.HasRead? && !Stale(sys.flight[w])
      && ChunkNote(sys.flight[w].phase.read.value.title, sys.flight[w].phase.read.value.content).Success?
    case Commit(w, _, now, commit) =>
      && w in sys.flight && sys.state.clock <= commit && sys.flight[w].claimedAt <= now <= commit
      && (Stale(sys.flight[w]) || sys.flight[w].phase.Answered?)
    case Abort(w) => w in sys.flight
  }

  function SetPhase(sys: System, w: WorkerId, phase: Phase): System
    requires w in sys.flight
  {
    sys.(flight := sys.flight[w := sys.flight[w].(phase := phase)])
  }

  /** What the transaction makes of the database as it is when it commits; a Failure rolls it back. */
  function CommitResult(db: Db, tx: Tx, model: string, now: Time): Result<(Db, bool), StoreError>
    requires Stale(tx) || tx.phase.Answered?
  {
    var own := WriteJob(db, tx.claim);
    if Stale(tx) then Success((own, false))
    else
      match ChunkNote(tx.phase.note.title, tx.phase.note.content)
      case Failure(e) => Failure(ChunkFault(e))
      case Success(chunks) => Settle(own, tx.claim, chunks, tx.phase.answer, model, now)
  }

  function AfterCommit(s: State, tx: Tx, model: string, now: Time, commit: Time): State
    requires Stale(tx) || tx.phase.Answered?
  {
    match CommitResult(s.db, tx, model, now)
    case Failure(_) => s.(clock := commit)
    case Success((db, _)) =>
      State(db, s.texts, if tx.row.attempts == 0 then s.firstFailure[tx.row.id := now] else s.firstFailure, commit)
  }

  function Act(sys: System, a: Action): System {
    if !Enabled(sys, a) then sys
    else
      match a
      case User(step) => sys.(state := Apply(sys.state, step))
      case Get(c, user, n) =>
        var found := Owned(sys.state.db, user, n);
        sys.(held := if found.Some? then sys.held[c := Request(found.value, None)] else sys.held - {c})
      case ReadClock(c, now) => sys.(state := sys.state.(clock := now), held := sys.held[c := sys.held[c].(now := Some(now))])
      case Put(c, title, content, expected, j, commit) =>
        var request := sys.held[c];
        sys.(state := AfterSave(sys.state, request.note, title, content, expected, j, request.now.value).(clock := commit), held := sys.held - {c})
      case Claim(w, j, claimedAt, lease, at) =>
        var row := sys.state.db.jobs[j];
        var claim := Jobs.Claim(row, claimedAt, lease).value;
        sys.(state := sys.state.(clock := at), flight := sys.flight[w := Tx(row, claim, claimedAt, lease, Claimed)])
      case ReadNote(w) => SetPhase(sys, w, HasRead(NoteForJob(sys.state.db, sys.flight[w].claim)))
      case Ask(w, answer) => SetPhase(sys, w, Answered(sys.flight[w].phase.read.value, answer))
      case Commit(w, model, now, commit) => sys.(state := AfterCommit(sys.state, sys.flight[w], model, now, commit), flight := sys.flight - {w})
      case Abort(w) => sys.(flight := sys.flight - {w})
  }

  function Interleave(sys: System, actions: seq<Action>): System
    decreases |actions|
  {
    if actions == [] then sys else Interleave(Act(sys, actions[0]), actions[1..])
  }

  /** The serial step an action amounts to; all but commits and user transactions only let time pass. */
  function SerialStep(sys: System, a: Action): Step {
    if !Enabled(sys, a) then Tick(sys.state.clock)
    else
      match a
      case User(step) => step
      case Get(_, _, _) => Tick(sys.state.clock)
      case ReadClock(_, now) => Tick(now)
      case Put(c, title, content, expected, j, commit) =>
        var read, now := sys.held[c].note, sys.held[c].now.value;
        if Notes.Update(read, title, content, Some(expected), now).Failure? then Tick(commit)
        else UpdateNote(read.userId, read.id, title, content, expected, j, now, commit)
      case Claim(_, _, _, _, at) => Tick(at)
      case Commit(w, model, now, commit) =>
        var tx := sys.flight[w];
        if tx.phase.Answered? then RunWorker(tx.row.id, tx.claimedAt, tx.lease, tx.phase.answer, model, now, commit) else Tick(commit)
      case ReadNote(_) => Tick(sys.state.clock)
      case Ask(_, _) => Tick(sys.state.clock)
      case Abort(_) => Tick(sys.state.clock)
  }

  function SerialSteps(sys: System, actions: seq<Action>): seq<Step>
    decreases |actions|
  {
    if actions == [] then [] else [SerialStep(sys, actions[0])] + SerialSteps(Act(sys, actions[0]), actions[1..])
  }

  // ---- the invariant of the transactions in flight ----

  /** The locked row is still as it was claimed, and what was read of the note is still so. */
  predicate TxInv(s: State, tx: Tx) {
    && tx.row.id in s.db.jobs && s.db.jobs[tx.row.id] == tx.row
    && Jobs.Open(tx.row) && Jobs.Claim(tx.row, tx.claimedAt, tx.lease) == Success(tx.claim) && tx.claimedAt <= s.clock
    && (tx.phase.HasRead? ==> tx.phase.read == NoteForJob(s.db, tx.claim))
    && (tx.phase.Answered? ==> NoteForJob(s.db, tx.claim) == Some(tx.phase.note))
  }

  /** A note that is still at the version read was not written since. */
  predicate Unwritten(db: Db, read: Note) {
    read.id in db.notes && db.notes[read.id].version == read.version ==> db.notes[read.id].updatedAt == read.updatedAt
  }

  /** The text read is on record, and the clock was read after the note. */
  predicate RequestInv(s: State, r: Request) {
    && Recorded(s, r.note) && Unwritten(s.db, r.note) && r.note.updatedAt <= s.clock
    && (r.now.Some? ==> r.note.updatedAt <= r.now.value <= s.clock)
  }

  ghost predicate SysInv(sys: System) {
    && Inv(sys.state)
    && (forall w :: w in sys.flight ==> TxInv(sys.state, sys.flight[w]))
    && (forall c :: c in sys.held ==> RequestInv(sys.state, sys.held[c]))
    && (forall v, w :: v in sys.flight && w in sys.flight && v != w ==> sys.flight[v].row.id != sys.flight[w].row.id)
  }

  /** Neither the job nor its note differs between the two states. */
  predicate Untouched(s: State, s': State, j: Uuid) {
    && j in s.db.jobs && j in s'.db.jobs && s'.db.jobs[j] == s.db.jobs[j] && s.clock <= s'.clock
    && var n := s.db.jobs[j].noteId;
    && (n in s.db.notes <==> n in s'.db.notes) && (n in s.db.notes ==> s'.db.notes[n] == s.db.notes[n])
  }

  lemma TxStays(s: State, s': State, tx: Tx)
    requires TxInv(s, tx) && Untouched(s, s', tx.row.id)
    ensures TxInv(s', tx)
  {
  }

  /** A user step that is not blocked touches neither a locked job nor its note. */
  lemma UserSpares(s: State, step: Step, j: Uuid)
    requires Inv(s) && j in s.db.jobs && Jobs.Open(s.db.jobs[j]) && !step.RunWorker?
    requires step.UpdateNote? || step.DeleteNote? ==> s.db.jobs[j].noteId != step.noteId
    ensures Untouched(s, Apply(s, step), j)
  {
    hide NoteLocal, AfterCreate, AfterUpdate, Store.Delete, Reopen;
    if Queue.Enabled(s, step) {
      ElsewhereThan(s, step, j);
      if step.CreateNote? {
        CreateSpares(s, step, j);
      } else if step.UpdateNote? {
        UpdateSpares(s, step, j);
      } else if step.DeleteNote? {
        DeleteSpares(s, step, j);
      } else if step.RetryFailed? {
        RetrySpares(s, step, j);
      }
    }
  }

  predicate SameRows(db: Db, db': Db, j: Uuid) {
    && j in db.jobs && j in db'.jobs && db'.jobs[j] == db.jobs[j]
    && var n := db.jobs[j].noteId;
    n in db.notes && n in db'.notes && db'.notes[n] == db.notes[n]
  }

  lemma CreateSpares(s: State, step: Step, j: Uuid)
    requires step.CreateNote? && j in s.db.jobs && s.db.jobs[j].noteId in s.db.notes && step.noteId != s.db.jobs[j].noteId
    ensures SameRows(s.db, AfterCreate(s, step).db, j)
  {
    hide ValidateText;
  }

  lemma UpdateSpares(s: State, step: Step, j: Uuid)
    requires step.UpdateNote? && j in s.db.jobs && s.db.jobs[j].noteId in s.db.notes && step.noteId != s.db.jobs[j].noteId
    requires step.noteId in s.db.notes ==> s.db.notes[step.noteId].id == step.noteId
    ensures SameRows(s.db, AfterUpdate(s, step).db, j)
  {
    hide ValidateText, Overwrite;
  }

  lemma DeleteSpares(s: State, step: Step, j: Uuid)
    requires step.DeleteNote? && j in s.db.jobs && s.db.jobs[j].noteId in s.db.notes && step.noteId != s.db.jobs[j].noteId
    ensures SameRows(s.db, Store.Delete(s.db, step.user, step.noteId).0, j)
  {
  }

  lemma RetrySpares(s: State, step: Step, j: Uuid)
    requires step.RetryFailed? && Queue.Enabled(s, step) && j in s.db.jobs && s.db.jobs[j].noteId in s.db.notes
    requires step.noteId != s.db.jobs[j].noteId && step.jobId != j
    ensures SameRows(s.db, Reopen(s.db, step.noteId, step.jobId, step.now), j)
  {
    hide Reopened;
  }

  /** A new note is another one, and so is one whose indexing can be retried. */
  lemma ElsewhereThan(s: State, step: Step, j: Uuid)
    requires Inv(s) && j in s.db.jobs && Jobs.Open(s.db.jobs[j]) && Queue.Enabled(s, step)
    ensures s.db.jobs[j].noteId in s.db.notes
    ensures step.CreateNote? || step.RetryFailed? ==> step.noteId != s.db.jobs[j].noteId
    ensures step.RetryFailed? ==> step.jobId != j
    ensures step.UpdateNote? && step.noteId in s.db.notes ==> s.db.notes[step.noteId].id == step.noteId
  {
    hide IndexInv, WellFormed, Jobs.AttemptsOk, BackedOff;
    var n := s.db.jobs[j].noteId;
    assert NoteLocal(s, n);
    OpenJobIsCurrent(s, j);
    if step.UpdateNote? {
      assert NoteLocal(s, step.noteId);
    }
  }

  /** A worker's commit touches neither another open job nor its note. */
  lemma WorkerSpares(s: State, step: Step, j: Uuid)
    requires Inv(s) && step.RunWorker? && j in s.db.jobs && Jobs.Open(s.db.jobs[j]) && j != step.jobId
    ensures Untouched(s, Apply(s, step), j)
  {
    hide ChunkNote, NoteLocal, Settle;
    if Queue.Enabled(s, step) && Apply(s, step).db != s.db {
      var c, chunks := WorkerOutcome(s, step.jobId, step.claimedAt, step.lease, step.answer, step.model, step.now);
      Progress.WorkSpends(s, step.jobId, step.claimedAt, step.lease, step.answer, step.model, step.now);
      OneOpenJob(s, step.jobId, j);
      SettleTouchesOneNote(WriteJob(s.db, c), c, chunks, step.answer, step.model, step.now);
    }
  }

  /** Two open jobs belong to two notes. */
  lemma OneOpenJob(s: State, i: Uuid, j: Uuid)
    requires Inv(s) && i in s.db.jobs && j in s.db.jobs && i != j && Jobs.Open(s.db.jobs[i]) && Jobs.Open(s.db.jobs[j])
    ensures s.db.jobs[i].noteId != s.db.jobs[j].noteId
  {
    hide NoteInv;
    assert NoteLocal(s, s.db.jobs[i].noteId) && NoteLocal(s, s.db.jobs[j].noteId);
    OpenJobIsCurrent(s, i);
    OpenJobIsCurrent(s, j);
    assert IsJobOf(s.db, i, s.db.jobs[i].noteId) && IsJobOf(s.db, j, s.db.jobs[j].noteId);
  }

  lemma SettleTouchesOneNote(db: Db, job: Jobs.Job, chunks: seq<TextChunk>, answer: Answer, model: string, now: Time)
    requires Settle(db, job, chunks, answer, model, now).Success?
    ensures var db' := Settle(db, job, chunks, answer, model, now).value.0;
            forall n :: n != job.noteId ==> (n in db.notes <==> n in db'.notes) && (n in db.notes ==> db'.notes[n] == db.notes[n])
  {
    hide Rows, RightShape, Jobs.DelaySeconds;
  }

  /**
   An in-flight transaction never finds its note gone or changed, so the stale branch of `process` is
   dead; and the attempt count it has written meets the schema's check before it commits.
   */
  lemma NeverStale(sys: System, w: WorkerId)
    requires SysInv(sys) && w in sys.flight
    ensures !Stale(sys.flight[w])
    ensures IsCurrent(sys.state.db, sys.flight[w].row.id, sys.flight[w].row.noteId)
    ensures 1 <= sys.flight[w].claim.attempts <= Jobs.MAXIMUM_ATTEMPTS
  {
    hide NoteLocal;
    var tx := sys.flight[w];
    assert NoteLocal(sys.state, tx.row.noteId);
    OpenJobIsCurrent(sys.state, tx.row.id);
  }

  /** What commits is what the serial worker step would have done at that moment. */
  lemma CommitIsSerial(sys: System, w: WorkerId, model: string, now: Time, commit: Time)
    requires SysInv(sys) && w in sys.flight && sys.flight[w].phase.Answered?
    requires sys.state.clock <= commit && sys.flight[w].claimedAt <= now <= commit
    ensures var tx := sys.flight[w];
            AfterCommit(sys.state, tx, model, now, commit)
            == Apply(sys.state, RunWorker(tx.row.id, tx.claimedAt, tx.lease, tx.phase.answer, model, now, commit))
  {
    hide ChunkNote, NoteLocal, Settle, Work;
    var tx := sys.flight[w];
    var c, chunks := WorkerOutcome(sys.state, tx.row.id, tx.claimedAt, tx.lease, tx.phase.answer, model, now);
  }

  /**
   Every action of the interleaved system changes the committed state exactly as one serial step
   does, and keeps each locked row, and the note its worker read, untouched until the lock is released.
   */
  lemma ActionRefines(sys: System, a: Action)
    requires SysInv(sys)
    ensures Act(sys, a).state == Apply(sys.state, SerialStep(sys, a))
    ensures SysInv(Act(sys, a))
  {
    hide Inv, TxInv, RequestInv, Untouched, Apply, AfterCommit, AfterSave, NoteForJob, Stale, Unblocked;
    StepKeepsInv(sys.state, SerialStep(sys, a));
    ActionIsSerial(sys, a);
    ActionKeepsFlight(sys, a);
    ActionKeepsReads(sys, a);
  }

  lemma ActionIsSerial(sys: System, a: Action)
    requires SysInv(sys)
    ensures Act(sys, a).state == Apply(sys.state, SerialStep(sys, a))
  {
    hide Inv, TxInv, RequestInv, AfterCommit, AfterUpdate, Save, IsNext, Unblocked;
    if a.Commit? && Enabled(sys, a) {
      NeverStale(sys, a.w);
      CommitIsSerial(sys, a.w, a.model, a.now, a.commit);
    } else if a.Put? && Enabled(sys, a) {
      PutIsSerial(sys, a);
    }
  }

  /** A save is the update step at its commit, stamped with the clock its request read before. */
  lemma PutIsSerial(sys: System, a: Action)
    requires SysInv(sys) && a.Put? && Enabled(sys, a)
    ensures Act(sys, a).state == Apply(sys.state, SerialStep(sys, a))
  {
    hide Inv, TxInv, Recorded, AfterUpdate, Save, Unblocked;
    var request := sys.held[a.c];
    if Notes.Update(request.note, a.title, a.content, Some(a.expected), request.now.value).Success? {
      LateSaveIsUpdate(sys.state, request.note, a.title, a.content, a.expected, a.putJob, request.now.value, a.commit);
    }
  }

  lemma ActionKeepsFlight(sys: System, a: Action)
    requires SysInv(sys) && Act(sys, a).state == Apply(sys.state, SerialStep(sys, a)) && Inv(Act(sys, a).state)
    ensures forall w :: w in Act(sys, a).flight ==> TxInv(Act(sys, a).state, Act(sys, a).flight[w])
    ensures var flight := Act(sys, a).flight;
            forall v, w :: v in flight && w in flight && v != w ==> flight[v].row.id != flight[w].row.id
  {
    hide Inv, RequestInv, Apply, TxInv, NoteForJob, AfterCommit, AfterSave;
    FlightStaysDistinct(sys, a);
    var sys' := Act(sys, a);
    forall w | w in sys'.flight ensures TxInv(sys'.state, sys'.flight[w]) {
      if w !in sys.flight {
        ClaimEntersFlight(sys, a);
      } else if a.ReadNote? || a.Ask? {
        PhaseKeepsTx(sys, a, w);
      } else {
        ActionKeepsTx(sys, a, w);
      }
    }
  }

  lemma PhaseKeepsTx(sys: System, a: Action, w: WorkerId)
    requires SysInv(sys) && w in sys.flight && (a.ReadNote? || a.Ask?)
    ensures w in Act(sys, a).flight && TxInv(Act(sys, a).state, Act(sys, a).flight[w])
  {
    hide Inv, RequestInv, NoteForJob;
  }

  lemma ActionKeepsTx(sys: System, a: Action, w: WorkerId)
    requires SysInv(sys) && Act(sys, a).state == Apply(sys.state, SerialStep(sys, a)) && w in sys.flight && w in Act(sys, a).flight
    requires !a.ReadNote? && !a.Ask?
    ensures TxInv(Act(sys, a).state, Act(sys, a).flight[w])
  {
    hide Inv, RequestInv, Apply, NoteForJob, AfterCommit, AfterSave;
    var s, sys' := sys.state, Act(sys, a);
    var j := sys.flight[w].row.id;
    if (a.User? || a.Put?) && Enabled(sys, a) {
      UserSpares(s, SerialStep(sys, a), j);
      TxStays(s, sys'.state, sys.flight[w]);
    } else if a.Commit? && Enabled(sys, a) {
      NeverStale(sys, a.w);
      WorkerSpares(s, SerialStep(sys, a), j);
      TxStays(s, sys'.state, sys.flight[w]);
    }
  }

  /** What a request has read stays on record, and its note stays unwritten while its version stays. */
  lemma ActionKeepsReads(sys: System, a: Action)
    requires SysInv(sys) && Act(sys, a).state == Apply(sys.state, SerialStep(sys, a)) && Inv(Act(sys, a).state)
    ensures forall c :: c in Act(sys, a).held ==> RequestInv(Act(sys, a).state, Act(sys, a).held[c])
  {
    hide Inv, TxInv, RequestInv, Apply, AfterCommit, AfterSave, NoteForJob, Stale, Unblocked;
    var s, sys' := sys.state, Act(sys, a);
    forall c | c in sys'.held ensures RequestInv(sys'.state, sys'.held[c]) {
      if c in sys.held && sys'.held[c] == sys.held[c] {
        RequestStays(s, SerialStep(sys, a), sys.held[c]);
      } else {
        RequestEnters(sys, a, c);
      }
    }
  }

  lemma RequestEnters(sys: System, a: Action, c: ClientId)
    requires SysInv(sys) && c in Act(sys, a).held && !(c in sys.held && Act(sys, a).held[c] == sys.held[c])
    ensures RequestInv(Act(sys, a).state, Act(sys, a).held[c])
  {
    hide Inv, TxInv, AfterCommit, AfterSave, NoteForJob, Stale, Unblocked;
    if a.Get? {
      StoredIsRecorded(sys.state, a.noteId);
      WrittenBefore(sys.state, a.noteId);
    }
  }

  lemma WrittenBefore(s: State, n: Uuid)
    requires Inv(s) && n in s.db.notes
    ensures s.db.notes[n].updatedAt <= s.clock
  {
    hide IndexInv, WellFormed, JobInv;
    assert NoteLocal(s, n);
  }

  lemma RequestStays(s: State, step: Step, r: Request)
    requires Inv(s) && RequestInv(s, r)
    ensures RequestInv(Apply(s, step), r)
  {
    hide Inv, Apply;
    var n, k := r.note.id, (r.note.id, r.note.version);
    TextKept(s, step, k);
    ClockRises(s, step);
    if n !in s.db.notes {
      GoneStays(s, step, n, k);
    } else if n in Apply(s, step).db.notes && Apply(s, step).db.notes[n].version == r.note.version {
      VersionsRiseByOne(s, step, n, r.note);
      var j := CurrentJob(s, n);
      CurrentJobKept(s, step, n, j);
    }
  }

  lemma ClockRises(s: State, step: Step)
    ensures s.clock <= Apply(s, step).clock
  {
    hide AfterCreate, AfterUpdate, AfterWork, Store.Delete, Reopen, Retryable;
    ClockUntouched(s, step);
  }

  lemma ClockUntouched(s: State, step: Step)
    ensures Queue.Enabled(s, step) ==> Apply(s, step).clock == step.commit
  {
    hide AfterCreate, AfterUpdate, AfterWork, Store.Delete, Reopen, Retryable;
  }

  /** A note that is back at the version read has not left it. */
  lemma VersionsRiseByOne(s: State, step: Step, n: Uuid, read: Note)
    requires Inv(s) && n in s.db.notes && n in Apply(s, step).db.notes && Recorded(s, read) && read.id == n
    requires Apply(s, step).db.notes[n].version == read.version
    ensures s.db.notes[n].version == read.version
  {
    hide Apply, IndexInv, WellFormed, JobInv;
    assert NoteLocal(s, n);
    if s.db.notes[n].version != read.version {
      UpdatesChain(s, step, n);
    }
  }

  lemma FlightStaysDistinct(sys: System, a: Action)
    requires SysInv(sys)
    ensures var flight := Act(sys, a).flight;
            forall v, w :: v in flight && w in flight && v != w ==> flight[v].row.id != flight[w].row.id
  {
    hide Inv, TxInv, RequestInv, Apply, AfterCommit, AfterSave, NoteForJob, Stale, Unblocked;
    if a.Claim? && Enabled(sys, a) {
      JobIdIsKey(sys.state, a.jobId);
      assert forall w :: w in sys.flight ==> sys.flight[w].row.id in LockedRows(sys);
    }
  }

  lemma JobIdIsKey(s: State, j: Uuid)
    requires Inv(s) && j in s.db.jobs
    ensures s.db.jobs[j].id == j
  {
    hide JobInv, NoteInv;
    assert NoteLocal(s, s.db.jobs[j].noteId);
  }

  lemma ClaimEntersFlight(sys: System, a: Action)
    requires SysInv(sys) && a.Claim? && Enabled(sys, a)
    ensures TxInv(Act(sys, a).state, Act(sys, a).flight[a.w])
  {
    hide NoteLocal;
    assert NoteLocal(sys.state, sys.state.db.jobs[a.jobId].noteId);
    ClaimableIsOpen(sys.state, a.jobId, a.claimedAt);
    OpenJobIsCurrent(sys.state, a.jobId);
  }

  /**
   Any number of workers, any interleaving with each other, with users and with crashes: the
   committed state is the one some serial run reaches, and no job is ever in flight twice.
   */
  lemma {:induction false} InterleavingRefinesQueue(sys: System, actions: seq<Action>)
    requires SysInv(sys)
    ensures Interleave(sys, actions).state == Run(sys.state, SerialSteps(sys, actions))
    ensures SysInv(Interleave(sys, actions))
    decreases |actions|
  {
    hide Inv, SysInv, Act, SerialStep, Apply;
    if actions != [] {
      var next := Act(sys, actions[0]);
      ActionRefines(sys, actions[0]);
      InterleavingRefinesQueue(next, actions[1..]);
      var steps := SerialSteps(sys, actions);
      assert steps[0] == SerialStep(sys, actions[0]) && steps[1..] == SerialSteps(next, actions[1..]);
    }
  }

  /** Whatever the interleaving, some serial run reaches the same committed state, so all its laws hold there. */
  lemma InterleavedStateIsReachable(actions: seq<Action>) returns (steps: seq<Step>)
    ensures Interleave(START, actions).state == Run(INITIAL, steps)
    ensures SysInv(Interleave(START, actions))
  {
    InitialInv();
    InterleavingRefinesQueue(START, actions);
    steps := SerialSteps(START, actions);
  }

  /**
   When a transaction that has its answer commits, only a crash of the model rolls it back, and the
   version check of `publish` never refuses: it reports success exactly for vectors of the right shape.
   */
  lemma PublicationNeverRefused(sys: System, w: WorkerId, model: string, now: Time) returns (chunks: seq<TextChunk>)
    requires SysInv(sys) && w in sys.flight && sys.flight[w].phase.Answered? && sys.flight[w].claimedAt <= now
    ensures var tx := sys.flight[w];
            var r := CommitResult(sys.state.db, tx, model, now);
            && ChunkNote(tx.phase.note.title, tx.phase.note.content) == Success(chunks)
            && (r.Failure? <==> tx.phase.answer.Crash?)
            && (r.Success? ==> (r.value.1 <==> tx.phase.answer.Vectors? && RightShape(tx.phase.answer.vectors, |chunks|)))
  {
    hide ChunkNote, NoteLocal, Rows;
    var tx := sys.flight[w];
    var c: Jobs.Job;
    c, chunks := WorkerOutcome(sys.state, tx.row.id, tx.claimedAt, tx.lease, tx.phase.answer, model, now);
  }

  /**
   No update is lost between its reading and its saving, in any interleaving: a note's text or version
   changes only when a request saves, the version it read is the one it replaces, and the new text is
   computed from the text of that version.
   */
  lemma OnlySavesChangeTexts(sys: System, a: Action, n: Uuid)
    requires SysInv(sys) && n in sys.state.db.notes && n in Act(sys, a).state.db.notes
    requires var before, after := sys.state.db.notes[n], Act(sys, a).state.db.notes[n];
             after.version != before.version || TextOf(after) != TextOf(before)
    ensures var before, after := sys.state.db.notes[n], Act(sys, a).state.db.notes[n];
            && a.Put? && a.c in sys.held
            && var read := sys.held[a.c].note;
            && read.id == n && read.version == before.version == a.expected && after.version == before.version + 1
            && TextOf(read) == TextOf(before) && TextOf(after) == Patched(TextOf(before), a.title, a.content)
            && sys.held[a.c].now == Some(after.updatedAt) && before.updatedAt <= after.updatedAt <= a.commit
  {
    hide Inv, TxInv, Apply, AfterSave, AfterCommit, Act, Save, Patched, Acceptable, Unblocked, IsNext;
    ActionRefines(sys, a);
    UpdatesChain(sys.state, SerialStep(sys, a), n);
    StoredIsRecorded(sys.state, n);
  }

  /** A save is answered with a conflict, and changes nothing, exactly if its note is gone or was saved since it was read. */
  lemma ConflictExactlyIf(sys: System, a: Action)
    requires SysInv(sys) && a.Put? && Enabled(sys, a)
    requires Notes.Update(sys.held[a.c].note, a.title, a.content, Some(a.expected), sys.held[a.c].now.value).Success?
    ensures var read := sys.held[a.c].note;
            var note := Notes.Update(read, a.title, a.content, Some(a.expected), sys.held[a.c].now.value).value;
            var r := Save(sys.state.db, read.userId, note, a.expected, a.putJob);
            && (r.Success? && !r.value.1 <==>
                Owned(sys.state.db, read.userId, read.id).None? || sys.state.db.notes[read.id].version > read.version)
            && (r.Success? && !r.value.1 ==> Act(sys, a).state.db == sys.state.db)
  {
    hide Inv, TxInv, Save, Owned, Unblocked;
    var request := sys.held[a.c];
    LateSaveIsUpdate(sys.state, request.note, a.title, a.content, a.expected, a.putJob, request.now.value, a.commit);
  }

  /** What each action does, to the committed state and to what is open. */
  lemma ActionEffect(sys: System, a: Action)
    requires SysInv(sys) && Enabled(sys, a)
    ensures var s, sys' := sys.state, Act(sys, a);
            match a
            case User(step) => sys' == sys.(state := Apply(s, step))
            case Get(c, user, n) =>
              && sys'.state == s && sys'.flight == sys.flight
              && (c in sys'.held <==> n in s.db.notes && s.db.notes[n].userId == user)
              && (c in sys'.held ==> sys'.held == sys.held[c := Request(s.db.notes[n], None)])
            case ReadClock(c, now) =>
              sys' == System(s.(clock := now), sys.flight, sys.held[c := Request(sys.held[c].note, Some(now))])
            case Put(c, title, content, expected, j, commit) =>
              var read, now := sys.held[c].note, sys.held[c].now.value;
              && sys'.flight == sys.flight && sys'.held == sys.held - {c}
              && sys'.state == if Notes.Update(read, title, content, Some(expected), now).Failure? then s.(clock := commit)
                               else Apply(s, UpdateNote(read.userId, read.id, title, content, expected, j, now, commit))
            case Claim(w, j, claimedAt, lease, at) =>
              && sys'.state == s.(clock := at) && sys'.held == sys.held && w in sys'.flight && sys'.flight == sys.flight[w := sys'.flight[w]]
              && var tx := sys'.flight[w];
              && tx.row == s.db.jobs[j] && tx.phase == Claimed && tx.claimedAt == claimedAt && tx.lease == lease
              && tx.claim == tx.row.(status := Jobs.Processing, attempts := tx.row.attempts + 1, claimedAt := Some(claimedAt),
                                     leaseExpiresAt := Some(claimedAt + lease * 1_000_000))
            case ReadNote(w) =>
              && sys'.state == s && sys'.held == sys.held
              && sys'.flight == sys.flight[w := sys.flight[w].(phase := HasRead(Owned(s.db, sys.flight[w].row.userId, sys.flight[w].row.noteId)))]
            case Ask(w, answer) =>
              && sys'.state == s && sys'.held == sys.held
              && sys'.flight == sys.flight[w := sys.flight[w].(phase := Answered(sys.flight[w].phase.read.value, answer))]
            case Commit(w, model, now, commit) =>
              var tx := sys.flight[w];
              && tx.phase.Answered? && sys'.flight == sys.flight - {w} && sys'.held == sys.held
              && sys'.state == Apply(s, RunWorker(tx.row.id, tx.claimedAt, tx.lease, tx.phase.answer, model, now, commit))
            case Abort(w) => sys' == sys.(flight := sys.flight - {w})
  {
    hide Inv, Apply, AfterCommit, Save, AfterUpdate, Notes.Update, RequestInv;
    if a.Commit? {
      NeverStale(sys, a.w);
      CommitIsSerial(sys, a.w, a.model, a.now, a.commit);
    } else if a.Put? {
      ActionRefines(sys, a);
    } else if a.Get? {
      GetIsOwned(sys, a);
    }
  }

  lemma GetIsOwned(sys: System, a: Action)
    requires a.Get?
    ensures Owned(sys.state.db, a.user, a.noteId).Some? <==> a.noteId in sys.state.db.notes && sys.state.db.notes[a.noteId].userId == a.user
  {
  }
}
