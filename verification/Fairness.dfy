/**
 No starvation, with any number of workers in flight: a claimable job that nobody has locked is
 overtaken only by jobs that were ahead of it in the claim order and by those already in flight.
 */
module Fairness {
  import opened Ids
  import opened Wrappers
  import opened Notes
  import opened Store
  import opened Queue
  import opened QueueLaws
  import opened Workers
  import Jobs
  import opened Progress

  /** Job j is open, and no worker holds its row. */
  predicate Waits(sys: System, j: Uuid) {
    j in sys.state.db.jobs && Jobs.Open(sys.state.db.jobs[j]) && j !in LockedRows(sys)
  }

  /** It waits before the action and after it, and the action leaves it as it is. */
  predicate StillWaits(sys: System, a: Action, j: Uuid) {
    Waits(sys, j) && Waits(Act(sys, a), j) && Act(sys, a).state.db.jobs[j] == sys.state.db.jobs[j]
  }

  /** The jobs that may still be worked off before j: those the claim order puts at or before it, and those in flight. */
  function Threats(sys: System, j: Uuid): set<Uuid>
    requires j in sys.state.db.jobs
  {
    Ahead(sys.state.db, j) + LockedRows(sys)
  }

  /** What a worker claims while j waits is j itself or an unlocked job ahead of it. */
  lemma ClaimTakesFirst(sys: System, a: Action, j: Uuid)
    requires SysInv(sys) && Waits(sys, j) && a.Claim? && Workers.Enabled(sys, a)
    ensures a.jobId == j || a.jobId in Ahead(sys.state.db, j) - LockedRows(sys)
  {
    hide NoteLocal, TxInv, RequestInv;
    var jobs := sys.state.db.jobs;
    assert NoteLocal(sys.state, jobs[a.jobId].noteId);
    ClaimableIsOpen(sys.state, a.jobId, a.claimedAt);
    assert jobs[j].availableAt <= a.claimedAt ==> Free(sys.state.db, LockedRows(sys), a.claimedAt, j);
  }

  /**
   The action commits a job that may come in before j, because its transaction's clock was read when j was
   not yet available: a user's at or before that time, a failing worker's a second before it.
   */
  predicate ComesIn(sys: System, a: Action, j: Uuid)
    requires j in sys.state.db.jobs
  {
    Act(sys, a).state.db != sys.state.db && CutsIn(SerialStep(sys, a), sys.state.db.jobs[j].availableAt)
  }

  /** The one job such an action adds to the threats; no other action adds any. */
  function Intruder(sys: System, a: Action, j: Uuid): set<Uuid>
    requires j in sys.state.db.jobs
  {
    if ComesIn(sys, a, j) then {SerialStep(sys, a).jobId} else {}
  }

  /** No action adds a threat, but for the job of a transaction whose clock was read when j was not yet available. */
  lemma NoNewThreat(sys: System, a: Action, j: Uuid)
    requires SysInv(sys) && StillWaits(sys, a, j)
    ensures Threats(Act(sys, a), j) <= Threats(sys, j) + Intruder(sys, a, j)
  {
    hide Inv, TxInv, RequestInv, Apply, AfterCommit, AfterSave, IsNext, NoteForJob, Stale, Unblocked, Ahead, CutsIn;
    ActionRefines(sys, a);
    NobodyCutsIn(sys.state, SerialStep(sys, a), j);
    if Act(sys, a).state.db == sys.state.db { SameAhead(sys.state.db, Act(sys, a).state.db, j); }
    if a.Claim? && Workers.Enabled(sys, a) {
      ClaimTakesFirst(sys, a, j);
      ClaimLocks(sys, a);
    }
  }

  lemma SameAhead(db: Db, db': Db, j: Uuid)
    requires db == db' && j in db.jobs
    ensures Ahead(db', j) == Ahead(db, j)
  {
  }

  lemma ClaimLocks(sys: System, a: Action)
    requires SysInv(sys) && a.Claim? && Workers.Enabled(sys, a)
    ensures LockedRows(Act(sys, a)) == LockedRows(sys) + {a.jobId}
  {
    hide Inv, TxInv, RequestInv;
    JobIdIsKey(sys.state, a.jobId);
    var flight := Act(sys, a).flight;
    assert flight[a.w].row.id == a.jobId;
    forall w | w in sys.flight ensures w in flight && flight[w] == sys.flight[w] {}
  }

  /** A job whose transaction commits was a threat, and is none afterwards, unless it fails and comes in again. */
  lemma WorkedOffIsNoThreat(sys: System, a: Action, j: Uuid)
    requires SysInv(sys) && StillWaits(sys, a, j) && IsWorkedOff(sys, a)
    ensures a.w in sys.flight && sys.flight[a.w].row.id in Threats(sys, j) && SerialStep(sys, a).RunWorker? && SerialStep(sys, a).jobId == sys.flight[a.w].row.id
    ensures !ComesIn(sys, a, j) ==> sys.flight[a.w].row.id !in Threats(Act(sys, a), j)
  {
    hide Inv, TxInv, RequestInv, Apply, AfterCommit, Work;
    ActionRefines(sys, a);
    NeverStale(sys, a.w);
    var step := SerialStep(sys, a);
    CommitSpends(sys.state, step);
  }

  lemma CommitSpends(s: State, step: Step)
    requires Inv(s) && step.RunWorker? && Apply(s, step).db != s.db
    ensures step.jobId in s.db.jobs && step.jobId in Apply(s, step).db.jobs
    ensures var job := Apply(s, step).db.jobs[step.jobId]; Jobs.Open(job) ==> job.availableAt >= step.now + SECOND
  {
    hide Inv, Work;
    WorkSpends(s, step.jobId, step.claimedAt, step.lease, step.answer, step.model, step.now);
  }

  ghost predicate WaitsThrough(sys: System, actions: seq<Action>, j: Uuid)
    decreases |actions|
  {
    actions != [] ==> StillWaits(sys, actions[0], j) && WaitsThrough(Act(sys, actions[0]), actions[1..], j)
  }

  /** How many worker transactions of the run change the database. */
  function WorkedOff(sys: System, actions: seq<Action>): nat
    decreases |actions|
  {
    if actions == [] then 0
    else (if IsWorkedOff(sys, actions[0]) then 1 else 0) + WorkedOff(Act(sys, actions[0]), actions[1..])
  }

  /** How many transactions of the run come in before j, because their clock was read when j was not yet available. */
  function CameIn(sys: System, actions: seq<Action>, j: Uuid): nat
    decreases |actions|
  {
    if actions == [] || j !in sys.state.db.jobs then 0
    else (if ComesIn(sys, actions[0], j) then 1 else 0) + CameIn(Act(sys, actions[0]), actions[1..], j)
  }

  /**
   No starvation: while an open job waits, in any interleaving of any number of workers with users,
   crashes and each other, no more worker transactions commit than there were open jobs ahead of it or
   transactions in flight when it began to wait, and transactions that read their clock before it was available.
   */
  lemma {:induction false} NoStarvation(sys: System, actions: seq<Action>, j: Uuid)
    requires SysInv(sys) && j in sys.state.db.jobs && WaitsThrough(sys, actions, j)
    ensures WorkedOff(sys, actions) <= |Threats(sys, j)| + CameIn(sys, actions, j)
    ensures |Threats(sys, j)| <= |Ahead(sys.state.db, j)| + |sys.flight|
    decreases |actions|
  {
    hide SysInv, Act, Threats, Waits, ComesIn, Ahead;
    ThreatCount(sys, j);
    if actions != [] {
      ActionRefines(sys, actions[0]);
      ActionCounts(sys, actions[0], j);
      NoStarvation(Act(sys, actions[0]), actions[1..], j);
    }
  }

  /** A worker transaction that commits and is counted. */
  predicate IsWorkedOff(sys: System, a: Action) {
    a.Commit? && Act(sys, a).state.db != sys.state.db
  }

  lemma ActionCounts(sys: System, a: Action, j: Uuid)
    requires SysInv(sys) && StillWaits(sys, a, j)
    ensures j in sys.state.db.jobs && j in Act(sys, a).state.db.jobs
    ensures (if IsWorkedOff(sys, a) then 1 else 0) + |Threats(Act(sys, a), j)| <= |Threats(sys, j)| + if ComesIn(sys, a, j) then 1 else 0
  {
    hide SysInv, Act, Threats, ComesIn, Ahead, SerialStep;
    NoNewThreat(sys, a, j);
    var k := j;
    if IsWorkedOff(sys, a) {
      WorkedOffIsNoThreat(sys, a, j);
      k := sys.flight[a.w].row.id;
    }
    ThreatsCounted(Threats(sys, j), Threats(Act(sys, a), j), Intruder(sys, a, j), ComesIn(sys, a, j), IsWorkedOff(sys, a), k);
  }

  /** The count of one action: a transaction worked off takes its job from the threats, one that comes in may add its own. */
  lemma ThreatsCounted(before: set<Uuid>, after: set<Uuid>, intruder: set<Uuid>, comesIn: bool, workedOff: bool, k: Uuid)
    requires after <= before + intruder && |intruder| == (if comesIn then 1 else 0)
    requires workedOff ==> k in before && (if comesIn then intruder == {k} else k !in after)
    ensures (if workedOff then 1 else 0) + |after| <= |before| + (if comesIn then 1 else 0)
  {
    if workedOff && comesIn {
      SubsetSizeOf(after, before);
    } else if workedOff {
      SmallerSet(after, before, k);
    } else {
      SubsetSizeOf(after, before + intruder);
      assert |before + intruder| <= |before| + |intruder|;
    }
  }

  lemma ThreatCount(sys: System, j: Uuid)
    requires j in sys.state.db.jobs
    ensures |Threats(sys, j)| <= |Ahead(sys.state.db, j)| + |sys.flight|
  {
    LockedCount(sys);
    var ahead, locked := Ahead(sys.state.db, j), LockedRows(sys);
    assert |ahead + locked| <= |ahead| + |locked|;
  }

  lemma {:induction false} LockedCount(sys: System)
    ensures |LockedRows(sys)| <= |sys.flight|
    decreases |sys.flight|
  {
    if sys.flight == map[] {
      assert LockedRows(sys) == {};
    } else {
      var w :| w in sys.flight;
      var rest := sys.(flight := sys.flight - {w});
      LockedCount(rest);
      forall j | j in LockedRows(sys) ensures j in LockedRows(rest) + {sys.flight[w].row.id} {
        var v :| v in sys.flight && sys.flight[v].row.id == j;
        assert v != w ==> v in rest.flight;
      }
      SubsetSizeOf(LockedRows(sys), LockedRows(rest) + {sys.flight[w].row.id});
    }
  }
}
