/**
 The interleaved system with saves taken apart: requests read a note, read the clock, and then the SELECT, the
 DELETE and the flush of their saving transactions interleave with everything else, with each other and
 with the workers in flight. As long as each flush that commits finds the note at the version its SELECT
 read, with the status it leaves out unchanged, this is still the serial queue.
 */
module Statements {
  import opened Ids
  import opened Wrappers
  import opened Notes
  import opened Store
  import opened Queue
  import opened QueueLaws
  import opened SplitSave
  import Jobs
  import Workers

  /**
   A save in its transaction: the row its SELECT loaded, the change its request makes of it, and the jobs its
   DELETE saw. The request computed the change from a note it had read before; at the same version it is the same.
   */
  datatype OpenSave = OpenSave(read: Note, title: Option<string>, content: Option<string>, now: Time, seen: Option<set<Uuid>>)

  datatype Sessions = Sessions(sys: Workers.System, saves: map<Workers.ClientId, OpenSave>)

  datatype Statement =
    | Whole(action: Workers.Action)
    | Select(c: Workers.ClientId, title: Option<string>, content: Option<string>, expected: int)
    | Delete(c: Workers.ClientId)
    | FlushSave(c: Workers.ClientId, jobId: Uuid, commit: Time)

  const START := Sessions(Workers.START, map[])

  /** The next version, as the save computes it. */
  function Change(o: OpenSave): Result<Note, NoteError> {
    Notes.Update(o.read, o.title, o.content, Some(o.read.version), o.now)
  }

  /** A flush has waited, in its DELETE, for the workers that held the jobs it saw; locks rule out more than is ruled out here. */
  predicate Enabled(st: Sessions, a: Statement) {
    match a
    case Whole(action) => !action.Put?
    case Select(c, title, content, expected) =>
      && c in st.sys.held && st.sys.held[c].now.Some?
      && var request := st.sys.held[c];
      && Notes.Update(request.note, title, content, Some(expected), request.now.value).Success?
      && var row := Owned(st.sys.state.db, request.note.userId, request.note.id);
      row.Some? && row.value.version == expected
    case Delete(c) => c in st.saves && st.saves[c].seen.None?
    case FlushSave(c, _, commit) =>
      && c in st.saves && st.saves[c].seen.Some? && Change(st.saves[c]).Success? && st.sys.state.clock <= commit
      && forall w :: w in st.sys.flight ==> st.sys.flight[w].row.id !in st.saves[c].seen.value
  }

  function FlushOf(s: State, o: OpenSave, jobId: Uuid): Result<Db, StoreError>
    requires o.seen.Some? && Change(o).Success?
  {
    Flush(s.db, o.read, Change(o).value, o.seen.value, jobId)
  }

  function AfterFlush(s: State, o: OpenSave, jobId: Uuid): State
    requires o.seen.Some? && Change(o).Success?
  {
    match FlushOf(s, o, jobId)
    case Failure(_) => s
    case Success(db) =>
      var note := Change(o).value;
      if note.id in db.notes then s.(db := db, texts := s.texts[(note.id, note.version) := TextOf(db.notes[note.id])]) else s
  }

  function Act(st: Sessions, a: Statement): Sessions {
    if !Enabled(st, a) then st
    else
      match a
      case Whole(action) => st.(sys := Workers.Act(st.sys, action))
      case Select(c, title, content, _) =>
        var request := st.sys.held[c];
        var row := Owned(st.sys.state.db, request.note.userId, request.note.id).value;
        Sessions(st.sys.(held := st.sys.held - {c}), st.saves[c := OpenSave(row, title, content, request.now.value, None)])
      case Delete(c) =>
        st.(saves := st.saves[c := st.saves[c].(seen := Some(OpenJobs(st.sys.state.db, st.saves[c].read.id)))])
      case FlushSave(c, jobId, commit) =>
        Sessions(st.sys.(state := AfterFlush(st.sys.state, st.saves[c], jobId).(clock := commit)), st.saves - {c})
  }

  function Interleave(st: Sessions, actions: seq<Statement>): Sessions
    decreases |actions|
  {
    if actions == [] then st else Interleave(Act(st, actions[0]), actions[1..])
  }

  /** A flush that commits finds the version its SELECT read, and the status it has no need to write. */
  predicate Undisturbed(st: Sessions, a: Statement) {
    a.FlushSave? && Enabled(st, a) && FlushOf(st.sys.state, st.saves[a.c], a.jobId).Success? ==>
      var o := st.saves[a.c];
      && o.read.id in st.sys.state.db.notes
      && var row := st.sys.state.db.notes[o.read.id];
      row.version == o.read.version && StatusWritten(row, o.read, Change(o).value)
  }

  predicate AllUndisturbed(st: Sessions, actions: seq<Statement>)
    decreases |actions|
  {
    actions != [] ==> Undisturbed(st, actions[0]) && AllUndisturbed(Act(st, actions[0]), actions[1..])
  }

  /** The serial step a statement amounts to. */
  function SerialStep(st: Sessions, a: Statement): Step {
    if !Enabled(st, a) then Tick(st.sys.state.clock)
    else
      match a
      case Whole(action) => Workers.SerialStep(st.sys, action)
      case Select(_, _, _, _) => Tick(st.sys.state.clock)
      case Delete(_) => Tick(st.sys.state.clock)
      case FlushSave(c, jobId, commit) =>
        var o := st.saves[c];
        if FlushOf(st.sys.state, o, jobId).Failure? then Tick(commit)
        else UpdateNote(o.read.userId, o.read.id, o.title, o.content, o.read.version, jobId, o.now, commit)
  }

  function SerialSteps(st: Sessions, actions: seq<Statement>): seq<Step>
    decreases |actions|
  {
    if actions == [] then [] else [SerialStep(st, actions[0])] + SerialSteps(Act(st, actions[0]), actions[1..])
  }

  // ---- the invariant of the open saves ----

  /** While the note stays at the version read, its DELETE has seen every job it has to remove. */
  predicate StillAsRead(db: Db, o: OpenSave) {
    var n := o.read.id;
    n in db.notes && db.notes[n].version == o.read.version ==>
      && db.notes[n].userId == o.read.userId && (o.read.status == Ready ==> db.notes[n].status == Ready)
      && (o.seen.Some? ==> OpenJobs(db, n) <= o.seen.value)
  }

  predicate SaveInv(s: State, o: OpenSave) {
    && Workers.RequestInv(s, Workers.Request(o.read, Some(o.now))) && Change(o).Success? && StillAsRead(s.db, o)
    && (o.read.errorCode.Some? <==> o.read.status == Failed) && o.read.status != Processing
  }

  ghost predicate SessionsInv(st: Sessions) {
    Workers.SysInv(st.sys) && forall c :: c in st.saves ==> SaveInv(st.sys.state, st.saves[c])
  }

  lemma SaveStays(s: State, step: Step, o: OpenSave)
    requires Inv(s) && SaveInv(s, o)
    ensures SaveInv(Apply(s, step), o)
  {
    hide Inv, Apply, Workers.RequestInv, OpenJobs;
    var n, s' := o.read.id, Apply(s, step);
    var request := Workers.Request(o.read, Some(o.now));
    Workers.RequestStays(s, step, request);
    StepKeepsInv(s, step);
    if n in s'.db.notes && s'.db.notes[n].version == o.read.version {
      WasAtVersion(s, step, request);
      var j := CurrentJob(s, n);
      CurrentJobKept(s, step, n, j);
      StatusFacts(s, n, j);
      StatusFacts(s', n, j);
      SeenIsAll(s, s', n, j);
    }
  }

  lemma WasAtVersion(s: State, step: Step, r: Workers.Request)
    requires Inv(s) && Workers.RequestInv(s, r)
    requires r.note.id in Apply(s, step).db.notes && Apply(s, step).db.notes[r.note.id].version == r.note.version
    ensures r.note.id in s.db.notes && s.db.notes[r.note.id].version == r.note.version
  {
    hide Inv, Apply;
    var n := r.note.id;
    if n !in s.db.notes {
      GoneStays(s, step, n, (n, r.note.version));
    } else {
      Workers.VersionsRiseByOne(s, step, n, r.note);
    }
  }

  lemma SelectEnters(st: Sessions, a: Statement)
    requires SessionsInv(st) && a.Select? && Enabled(st, a)
    ensures SaveInv(st.sys.state, Act(st, a).saves[a.c])
  {
    hide Inv, Workers.TxInv;
    var s, request := st.sys.state, st.sys.held[a.c];
    var n := request.note.id;
    StoredIsRecorded(s, n);
    Workers.WrittenBefore(s, n);
    var row := s.db.notes[n];
    SameUpdate(row, request.note, a.title, a.content, a.expected, request.now.value);
    var j := CurrentJob(s, n);
    StatusFacts(s, n, j);
  }

  // ---- the refinement ----

  lemma FlushIsAtomic(s: State, o: OpenSave, jobId: Uuid)
    requires Inv(s) && SaveInv(s, o) && o.seen.Some? && FlushOf(s, o, jobId).Success?
    requires var n := o.read.id;
             n in s.db.notes && s.db.notes[n].version == o.read.version && StatusWritten(s.db.notes[n], o.read, Change(o).value)
    ensures var note, db := Change(o).value, FlushOf(s, o, jobId).value;
            && Store.Save(s.db, o.read.userId, note, o.read.version, jobId) == Success((db, true))
            && note.id in db.notes && TextOf(db.notes[note.id]) == TextOf(note)
  {
    hide Inv, Recorded, Flush, Store.Save, StatusWritten, OpenJobs;
    var n, note := o.read.id, Change(o).value;
    var j := CurrentJob(s, n);
    StatusFacts(s, n, j);
    SameText(s, o.read);
    FlushAtVersion(s.db, o.read, note, o.seen.value, jobId);
    SaveOutcome(s.db, o.read.userId, note, o.read.version, jobId);
  }

  lemma FlushIsSerial(st: Sessions, a: Statement)
    requires SessionsInv(st) && a.FlushSave? && Enabled(st, a) && Undisturbed(st, a)
    ensures Act(st, a).sys.state == Apply(st.sys.state, SerialStep(st, a))
  {
    hide Inv, Workers.TxInv, Recorded, AfterUpdate, FlushOf, Store.Save, StatusWritten, OpenJobs;
    var s, o := st.sys.state, st.saves[a.c];
    if FlushOf(s, o, a.jobId).Success? {
      FlushIsAtomic(s, o, a.jobId);
      LateSaveIsUpdate(s, o.read, o.title, o.content, o.read.version, a.jobId, o.now, a.commit);
    }
  }

  lemma SameText(s: State, read: Note)
    requires Inv(s) && Recorded(s, read) && read.id in s.db.notes && s.db.notes[read.id].version == read.version
    ensures TextOf(s.db.notes[read.id]) == TextOf(read)
  {
    hide Inv;
    StoredIsRecorded(s, read.id);
  }

  /** The workers in flight hold none of the note's jobs, so the flush leaves theirs alone. */
  lemma FlushSpares(st: Sessions, a: Statement, w: Workers.WorkerId)
    requires SessionsInv(st) && a.FlushSave? && Enabled(st, a) && Undisturbed(st, a) && w in st.sys.flight
    ensures Workers.TxInv(Apply(st.sys.state, SerialStep(st, a)), st.sys.flight[w])
  {
    hide Inv, Recorded, Apply, Flush, Change, StatusWritten;
    var s, o, tx := st.sys.state, st.saves[a.c], st.sys.flight[w];
    assert tx.row.noteId == o.read.id ==> tx.row.id in OpenJobs(s.db, o.read.id);
    Workers.UserSpares(s, SerialStep(st, a), tx.row.id);
    Workers.TxStays(s, Apply(s, SerialStep(st, a)), tx);
  }

  lemma FlushKeepsSys(st: Sessions, a: Statement)
    requires SessionsInv(st) && a.FlushSave? && Enabled(st, a) && Undisturbed(st, a)
    ensures Workers.SysInv(Act(st, a).sys) && Act(st, a).sys.state == Apply(st.sys.state, SerialStep(st, a))
  {
    hide Inv, Workers.TxInv, Workers.RequestInv, SaveInv, Apply, SerialStep, AfterFlush, Undisturbed;
    FlushIsSerial(st, a);
    StepKeepsInv(st.sys.state, SerialStep(st, a));
    forall w | w in st.sys.flight ensures Workers.TxInv(Act(st, a).sys.state, st.sys.flight[w]) { FlushSpares(st, a, w); }
    forall c | c in st.sys.held ensures Workers.RequestInv(Act(st, a).sys.state, st.sys.held[c]) {
      Workers.RequestStays(st.sys.state, SerialStep(st, a), st.sys.held[c]);
    }
  }

  /** Every statement changes the committed state as one serial step does, and keeps all that is open. */
  lemma StatementRefines(st: Sessions, a: Statement)
    requires SessionsInv(st) && Undisturbed(st, a)
    ensures Act(st, a).sys.state == Apply(st.sys.state, SerialStep(st, a))
    ensures SessionsInv(Act(st, a))
  {
    hide Inv, Workers.SysInv, SaveInv, Apply, Undisturbed, Workers.Act, Workers.SerialStep, AfterFlush, FlushOf;
    var s, st' := st.sys.state, Act(st, a);
    SysRefines(st, a);
    forall c | c in st'.saves ensures SaveInv(st'.sys.state, st'.saves[c]) {
      if c in st.saves && st'.saves[c] == st.saves[c] {
        InvOf(st);
        SaveStays(s, SerialStep(st, a), st.saves[c]);
      } else if a.Select? {
        SelectEnters(st, a);
      } else {
        DeleteSees(st, a);
      }
    }
  }

  lemma InvOf(st: Sessions)
    requires SessionsInv(st)
    ensures Inv(st.sys.state)
  {
  }

  lemma DeleteSees(st: Sessions, a: Statement)
    requires SessionsInv(st) && a.Delete? && Enabled(st, a)
    ensures SaveInv(st.sys.state, Act(st, a).saves[a.c])
  {
    hide Workers.SysInv, Workers.RequestInv;
  }

  lemma SysRefines(st: Sessions, a: Statement)
    requires SessionsInv(st) && Undisturbed(st, a)
    ensures Act(st, a).sys.state == Apply(st.sys.state, SerialStep(st, a)) && Workers.SysInv(Act(st, a).sys)
  {
    hide Inv, Workers.TxInv, Workers.RequestInv, SaveInv, Undisturbed, Workers.Act, Workers.SerialStep, AfterFlush, FlushOf;
    if a.Whole? && Enabled(st, a) {
      Workers.ActionRefines(st.sys, a.action);
    } else if a.FlushSave? && Enabled(st, a) {
      FlushKeepsSys(st, a);
    }
  }

  /** What the statements of a save do: the SELECT loads the row as it is, the DELETE sees the jobs there are, the flush writes. */
  lemma StatementEffect(st: Sessions, a: Statement)
    requires Enabled(st, a)
    ensures var s, st' := st.sys.state, Act(st, a);
            match a
            case Whole(action) => st' == st.(sys := Workers.Act(st.sys, action))
            case Select(c, title, content, expected) =>
              && var request := st.sys.held[c];
              && request.note.id in s.db.notes && s.db.notes[request.note.id].version == expected
              && st'.saves == st.saves[c := OpenSave(s.db.notes[request.note.id], title, content, request.now.value, None)]
              && st'.sys == st.sys.(held := st.sys.held - {c})
            case Delete(c) =>
              && st'.sys == st.sys && st'.saves == st.saves[c := st.saves[c].(seen := st'.saves[c].seen)] && st'.saves[c].seen.Some?
              && forall j :: j in st'.saves[c].seen.value <==> j in s.db.jobs && s.db.jobs[j].noteId == st.saves[c].read.id && s.db.jobs[j].status != Jobs.Completed
            case FlushSave(c, jobId, commit) =>
              && st'.saves == st.saves - {c} && st'.sys == st.sys.(state := st'.sys.state) && st'.sys.state.clock == commit
              && st'.sys.state.db == match Flush(s.db, st.saves[c].read, Change(st.saves[c]).value, st.saves[c].seen.value, jobId)
                                     case Success(db) => db
                                     case Failure(_) => s.db
  {
    hide Workers.Act, Written, Notes.Update;
  }

  /**
   Any interleaving of the statements of saves with each other, with other requests and with workers in
   flight ends in the committed state of a serial run of whole transactions, as long as no flush that commits
   is disturbed.
   */
  lemma {:induction false} StatementsRefineQueue(st: Sessions, actions: seq<Statement>)
    requires SessionsInv(st) && AllUndisturbed(st, actions)
    ensures Interleave(st, actions).sys.state == Run(st.sys.state, SerialSteps(st, actions))
    ensures SessionsInv(Interleave(st, actions))
    decreases |actions|
  {
    hide SessionsInv, Act, SerialStep, Apply, Undisturbed;
    if actions != [] {
      var next := Act(st, actions[0]);
      StatementRefines(st, actions[0]);
      StatementsRefineQueue(next, actions[1..]);
      var steps := SerialSteps(st, actions);
      assert steps[0] == SerialStep(st, actions[0]) && steps[1..] == SerialSteps(next, actions[1..]);
    }
  }

  /** From the empty database, every such interleaving is in a state of the serial queue. */
  lemma UndisturbedStateIsReachable(actions: seq<Statement>) returns (steps: seq<Step>)
    requires AllUndisturbed(START, actions)
    ensures Interleave(START, actions).sys.state == Run(INITIAL, steps) && SessionsInv(Interleave(START, actions))
  {
    hide Inv, Act, SerialStep, AllUndisturbed;
    InitialInv();
    StatementsRefineQueue(START, actions);
    steps := SerialSteps(START, actions);
  }
}
