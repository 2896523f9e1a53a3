/** A state the queue reaches in which a save that two others have overtaken can commit, before and after the newest version is indexed. */
module OvertakenNote {
  import opened Ids
  import opened Wrappers
  import opened Text
  import opened Notes
  import opened Store
  import opened Queue
  import opened QueueLaws
  import opened SplitSave
  import opened LateSave
  import Chunker
  import Jobs

  const USER: Uuid := 100
  const DOC: Uuid := 1

  function Creation(): Step {
    CreateNote(USER, DOC, 11, "a", "text", 0, 0)
  }

  /** The save that makes this version's successor. */
  function Renaming(title: string, version: nat, jobId: Uuid): Step {
    UpdateNote(USER, DOC, Some(title), None, version, jobId, 0, 0)
  }

  /** The note is at this version and this time, and has this one job, which is open. */
  ghost predicate At(s: State, version: nat, jobId: Uuid) {
    && Inv(s) && s.clock == 0 && DOC in s.db.notes && s.db.notes[DOC].userId == USER
    && s.db.notes[DOC].version == version && s.db.notes[DOC].updatedAt == 0
    && s.db.jobs.Keys == {jobId} && IsCurrent(s.db, jobId, DOC) && Jobs.Open(s.db.jobs[jobId]) && s.db.jobs[jobId].availableAt == 0
  }

  lemma Word(w: string)
    requires IsWord(w) && |w| <= TITLE_MAXIMUM
    ensures Strip(w) == w && Acceptable(w, TITLE_MAXIMUM) && Acceptable(w, CONTENT_MAXIMUM)
  {
  }

  lemma CreatedAt()
    ensures At(Apply(INITIAL, Creation()), 1, 11)
  {
    hide Inv, Notes.Create, Fresh;
    DraftIsValid();
    InitialInv();
    StepKeepsInv(INITIAL, Creation());
    NothingSaved();
  }

  lemma DraftIsValid()
    ensures var r := Notes.Create(DOC, USER, "a", "text", 0);
            r.Success? && r.value.id == DOC && r.value.userId == USER && r.value.version == 1
            && r.value.updatedAt == 0 && r.value.createdAt == 0
  {
    hide ValidateText, Acceptable;
    Word("a");
    Word("text");
  }

  lemma NothingSaved()
    ensures Fresh(INITIAL, DOC)
  {
  }

  lemma RenamedAt(s: State, version: nat, jobId: Uuid, title: string, next: Uuid)
    requires At(s, version, jobId) && next != jobId && IsWord(title) && |title| <= TITLE_MAXIMUM
    ensures At(Apply(s, Renaming(title, version, next)), version + 1, next)
  {
    hide Inv, ValidateText, Acceptable, Jobs.IsClaimable;
    Word(title);
    StoredIsRecorded(s, DOC);
    StepKeepsInv(s, Renaming(title, version, next));
    assert WithoutOpenJobs(s.db.jobs, DOC) == map[];
  }

  /** Two saves after the first version, and nothing is left of the second but its text. */
  lemma ThirdVersion() returns (first: State, third: State)
    ensures first == Run(INITIAL, [Creation()]) && At(first, 1, 11)
    ensures third == Run(first, [Renaming("b", 1, 12), Renaming("c", 2, 13)]) && At(third, 3, 13)
  {
    hide Apply, At;
    first := Apply(INITIAL, Creation());
    CreatedAt();
    RunOne(INITIAL, Creation());
    RenamedAt(first, 1, 11, "b", 12);
    var second := Apply(first, Renaming("b", 1, 12));
    RenamedAt(second, 2, 12, "c", 13);
    third := Apply(second, Renaming("c", 2, 13));
    RunOne(second, Renaming("c", 2, 13));
    assert [Renaming("b", 1, 12), Renaming("c", 2, 13)][1..] == [Renaming("c", 2, 13)];
    assert Run(first, [Renaming("b", 1, 12), Renaming("c", 2, 13)]) == Run(second, [Renaming("c", 2, 13)]);
  }

  lemma AtFacts(s: State, version: nat, jobId: Uuid)
    requires At(s, version, jobId)
    ensures DOC in s.db.notes && s.db.notes[DOC].version == version && s.db.notes[DOC].id == DOC
  {
    hide Inv;
    StoredIsRecorded(s, DOC);
  }

  lemma RunOne(s: State, step: Step)
    ensures Run(s, [step]) == Apply(s, step)
  {
    hide Apply;
    assert [step][1..] == [];
    assert Run(s, [step]) == Run(Apply(s, step), []);
  }

  /** The save that a request computes from the note as it was then. */
  function SaveOf(s: State): Result<Note, NoteError>
    requires DOC in s.db.notes
  {
    Notes.Update(s.db.notes[DOC], Some("d"), None, Some(s.db.notes[DOC].version), 0)
  }

  lemma SaveIsValid(s: State)
    requires DOC in s.db.notes && s.db.notes[DOC].id == DOC
    ensures SaveOf(s).Success? && SaveOf(s).value.id == DOC && SaveOf(s).value.version == s.db.notes[DOC].version + 1
  {
    hide ValidateText, Acceptable;
    Word("d");
  }

  /**
   A save that SELECTs and DELETEs at the first version and flushes when two others have been saved commits,
   takes the note from the third version back to the second, and leaves the third one's job beyond it.
   */
  lemma AdriftIsReachable() returns (before: seq<Step>, since: seq<Step>)
    ensures var s0, s := Run(INITIAL, before), Run(Run(INITIAL, before), since);
            && DOC in s0.db.notes && SaveOf(s0).Success? && DOC in s.db.notes && s.db.notes[DOC].version == 3
            && var r := Flush(s.db, s0.db.notes[DOC], SaveOf(s0).value, OpenJobs(s0.db, DOC), 14);
            r.Success? && DOC in r.value.notes && r.value.notes[DOC].version == 2 && Adrift(r.value, DOC, 13)
  {
    hide Inv, Flush, Run, SaveOf;
    before, since := [Creation()], [Renaming("b", 1, 12), Renaming("c", 2, 13)];
    var first, third := ThirdVersion();
    AtFacts(first, 1, 11);
    AtFacts(third, 3, 13);
    SaveIsValid(first);
    OvertakenSaveGoesBack(third, first.db.notes[DOC], SaveOf(first).value, OpenJobs(first.db, DOC), 14, 0);
  }

  /** If a worker indexes the third version before the flush, the note is stuck at the second one. */
  lemma StuckIsReachable() returns (before: seq<Step>, since: seq<Step>)
    ensures var s0, s := Run(INITIAL, before), Run(Run(INITIAL, before), since);
            && DOC in s0.db.notes && SaveOf(s0).Success? && DOC in s.db.notes && s.db.notes[DOC].version == 3
            && var (read, note, seen) := (s0.db.notes[DOC], SaveOf(s0).value, OpenJobs(s0.db, DOC));
            Flush(s.db, read, note, seen, 14).Success? && Stuck(Flushed(s, read, note, seen, 14, 0), DOC)
  {
    hide Inv, Flush, Run, SaveOf, Adrift, Apply, Stuck;
    var first, third := ThirdVersion();
    AtFacts(first, 1, 11);
    AtFacts(third, 3, 13);
    SaveIsValid(first);
    var work := IndexThird(third);
    var s := Apply(third, work);
    before, since := [Creation()], [Renaming("b", 1, 12), Renaming("c", 2, 13)] + [work];
    RunConcat(first, [Renaming("b", 1, 12), Renaming("c", 2, 13)], [work]);
    RunOne(third, work);
    OvertakenSaveGoesBack(s, first.db.notes[DOC], SaveOf(first).value, OpenJobs(first.db, DOC), 14, 0);
  }

  lemma IndexThird(s: State) returns (work: Step)
    requires At(s, 3, 13)
    ensures var s' := Apply(s, work);
            && Inv(s') && s'.db.jobs.Keys == {13} && DOC in s'.db.notes && s'.db.notes[DOC].version == 3
            && VersionCompleted(s'.db, DOC, 3) && !VersionCompleted(s'.db, DOC, 2)
  {
    hide Inv, Apply, Chunker.ChunkNote, Work;
    var note := s.db.notes[DOC];
    IndexableNote(s);
    var chunks := Chunker.ChunkNote(note.title, note.content).value;
    work := RunWorker(13, 0, 60, Vectors(Points(|chunks|)), "model", 0, 0);
    WorkerPublishes(s, work, DOC, 13, chunks);
    assert IsCompleted(Apply(s, work).db, 13, DOC, 3);
  }

  function Points(count: nat): (r: seq<Vector>)
    ensures RightShape(r, count)
  {
    seq(count, _ => seq(DIMENSIONS, _ => 1.0))
  }

  lemma IndexableNote(s: State)
    requires Inv(s) && DOC in s.db.notes
    ensures Chunker.ChunkNote(s.db.notes[DOC].title, s.db.notes[DOC].content).Success?
  {
    hide IndexInv, JobInv, Chunker.ChunkNote;
    assert NoteLocal(s, DOC);
    WellFormedNotesChunk(s.db.notes[DOC]);
  }
}
