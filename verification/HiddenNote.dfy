/**
 A state the queue reaches in which the search misses a note: four notes of five chunks and a fifth note of
 one chunk, all of them wanted and eligible, for every way the database can rank the rows.
 */
module HiddenNote {
  import opened Ids
  import opened Wrappers
  import opened Text
  import opened Chunker
  import opened ChunkLaws
  import opened Notes
  import opened Store
  import opened Queue
  import opened QueueLaws
  import opened Retrieval
  import Jobs
  import Progress

  // ---- every database can be ranked ----

  /** The eligible chunks of all notes. */
  function AllEligible(db: Db, user: Uuid, minimum: real, distance: Vector -> real): set<(Uuid, nat)> {
    set n, i | n in db.notes && 0 <= i < |RowsOf(db, n)| && Eligible(db, user, minimum, distance, n, i) :: (n, i)
  }

  /** A farthest one of a set of chunks. */
  lemma {:induction false} Farthest(db: Db, distance: Vector -> real, chunks: set<(Uuid, nat)>) returns (far: (Uuid, nat))
    requires chunks != {} && forall c :: c in chunks ==> c.0 in db.notes && c.1 < |RowsOf(db, c.0)|
    ensures far in chunks
    ensures forall c :: c in chunks ==> distance(RowsOf(db, c.0)[c.1].embedding) <= distance(RowsOf(db, far.0)[far.1].embedding)
    decreases |chunks|
  {
    var some :| some in chunks;
    far := some;
    assert forall c :: c in chunks ==> c == some || c in chunks - {some};
    if chunks - {some} != {} {
      var other := Farthest(db, distance, chunks - {some});
      if distance(RowsOf(db, some.0)[some.1].embedding) < distance(RowsOf(db, other.0)[other.1].embedding) { far := other; }
    }
  }

  predicate Lists(db: Db, distance: Vector -> real, chunks: set<(Uuid, nat)>, refs: seq<(Uuid, nat)>, hits: seq<Hit>)
    requires forall c :: c in chunks ==> c.0 in db.notes && c.1 < |RowsOf(db, c.0)|
  {
    && |refs| == |hits| && Sorted(hits)
    && (forall a, b :: 0 <= a < b < |refs| ==> refs[a] != refs[b])
    && (forall a :: 0 <= a < |refs| ==> refs[a] in chunks && hits[a] == HitAt(db, refs[a].0, refs[a].1, distance))
    && (forall c :: c in chunks ==> c in refs)
  }

  lemma {:induction false} ListingExists(db: Db, distance: Vector -> real, chunks: set<(Uuid, nat)>)
    returns (refs: seq<(Uuid, nat)>, hits: seq<Hit>)
    requires forall c :: c in chunks ==> c.0 in db.notes && c.1 < |RowsOf(db, c.0)|
    ensures Lists(db, distance, chunks, refs, hits)
    decreases |chunks|
  {
    if chunks == {} {
      refs, hits := [], [];
    } else {
      var far := Farthest(db, distance, chunks);
      refs, hits := ListingExists(db, distance, chunks - {far});
      ListOneMore(db, distance, chunks, far, refs, hits);
      refs, hits := refs + [far], hits + [HitAt(db, far.0, far.1, distance)];
    }
  }

  lemma ListOneMore(db: Db, distance: Vector -> real, chunks: set<(Uuid, nat)>, far: (Uuid, nat), refs: seq<(Uuid, nat)>, hits: seq<Hit>)
    requires far in chunks && forall c :: c in chunks ==> c.0 in db.notes && c.1 < |RowsOf(db, c.0)|
    requires forall c :: c in chunks ==> distance(RowsOf(db, c.0)[c.1].embedding) <= distance(RowsOf(db, far.0)[far.1].embedding)
    requires Lists(db, distance, chunks - {far}, refs, hits)
    ensures Lists(db, distance, chunks, refs + [far], hits + [HitAt(db, far.0, far.1, distance)])
  {
    var refs' := refs + [far];
    forall c | c in chunks ensures c in refs' {
      assert c == far || c in chunks - {far};
    }
  }

  /** Whatever the database, the user and the distance, there is a ranking of the eligible chunks. */
  lemma RankingExists(db: Db, user: Uuid, minimum: real, distance: Vector -> real) returns (refs: seq<(Uuid, nat)>, hits: seq<Hit>)
    ensures Ranks(db, user, minimum, distance, refs, hits)
  {
    hide Eligible, Sorted;
    var chunks := AllEligible(db, user, minimum, distance);
    refs, hits := ListingExists(db, distance, chunks);
    forall n: Uuid, i: nat | Eligible(db, user, minimum, distance, n, i) ensures (n, i) in refs {
      InRange(db, user, minimum, distance, n, i);
      assert (n, i) in chunks;
    }
  }

  // ---- a long note ----

  /** "a a ... a", k words. */
  function Repeated(k: nat): (ws: Words)
    ensures |ws| == k && AreWords(ws)
  {
    seq(k, _ => "a")
  }

  lemma {:induction false} JoinedShape(k: nat)
    requires k >= 1
    ensures var s := Join(Repeated(k));
            |s| == 2 * k - 1 && s[0] == 'a' && s[|s| - 1] == 'a' && forall i :: 0 <= i < |s| ==> s[i] != '\n'
    decreases k
  {
    if k > 1 {
      JoinedShape(k - 1);
      assert Repeated(k)[1..] == Repeated(k - 1);
      assert Join(Repeated(k)) == "a" + " " + Join(Repeated(k - 1));
    }
  }

  lemma {:induction false} OneParagraph(s: string)
    requires forall i :: 0 <= i < |s| ==> s[i] != '\n'
    ensures SplitBlank(s) == [s]
    decreases |s|
  {
    if |s| >= 2 {
      OneParagraph(s[1..]);
      assert [s[0]] + s[1..] == s;
    }
  }

  /** A note of k words, with a title of one, has as many chunks as the window makes of one paragraph. */
  lemma LongNote(k: nat)
    requires 1 <= k <= 1400
    ensures Strip("t") == "t" && Strip(Join(Repeated(k))) == Join(Repeated(k)) && Join(Repeated(k)) != ""
    ensures |Join(Repeated(k))| <= CONTENT_MAXIMUM
    ensures ChunkNote("t", Join(Repeated(k))).Success?
    ensures |ChunkNote("t", Join(Repeated(k))).value| == if k <= 349 then 1 else 1 + (k - 349 + 298) / 299
  {
    hide ChunkNote, Join, Repeated;
    var content := Join(Repeated(k));
    JoinedShape(k);
    StripTrimmed(content);
    StripTrimmed("t");
    TokensOfUnspaced("t");
    TokensOfJoin(Repeated(k));
    OneParagraph(content);
    OneParagraphWords(content);
    ChunkNoteRaisesExactly("t", content, TARGET_TOKENS, OVERLAP_TOKENS);
    OversizedParagraphCount("t", content, TARGET_TOKENS, OVERLAP_TOKENS);
  }

  lemma OneParagraphWords(s: string)
    requires Strip(s) != ""
    ensures |ParagraphWords([s])| == 1
  {
    assert [s][1..] == [];
    assert ParagraphWords([]) == [];
  }

  // ---- a user with such notes, all indexed ----

  const USER: Uuid := 100

  function ChunkCount(k: nat): nat {
    if k <= 349 then 1 else 1 + (k - 349 + 298) / 299
  }

  function Copies(v: Vector, count: nat): (r: seq<Vector>)
    ensures |r| == count && forall i :: 0 <= i < count ==> r[i] == v
  {
    seq(count, _ => v)
  }

  function Creation(n: Uuid, j: Uuid, k: nat): Step {
    CreateNote(USER, n, j, "t", Join(Repeated(k)), 0, 0)
  }

  function Indexing(j: Uuid, k: nat, v: Vector): Step {
    RunWorker(j, 0, 60, Vectors(Copies(v, ChunkCount(k))), "model", 0, 0)
  }

  /** The note is the user's and ready, with so many chunks of its version, all at this point. */
  predicate Shelved(db: Db, n: Uuid, count: nat, v: Vector) {
    && n in db.notes && db.notes[n].userId == USER && db.notes[n].status == Ready
    && |RowsOf(db, n)| == count
    && forall i :: 0 <= i < count ==>
      var row := RowsOf(db, n)[i]; row.embedding == v && row.userId == USER && row.noteVersion == db.notes[n].version
  }

  /** Nothing but note n and job j was added. */
  ghost predicate OnlyAdds(s: State, s': State, n: Uuid, j: Uuid) {
    && s'.db.notes.Keys == s.db.notes.Keys + {n} && s'.db.jobs.Keys == s.db.jobs.Keys + {j} && s'.clock == 0
    && (forall m :: m != n && Fresh(s, m) ==> Fresh(s', m))
    && (forall m :: m != n && m in s.db.notes ==> s'.db.notes[m] == s.db.notes[m])
    && (forall m :: m != n ==> RowsOf(s'.db, m) == RowsOf(s.db, m))
  }

  lemma NoteIsValid(n: Uuid, k: nat)
    requires 1 <= k <= 1400
    ensures var r := Notes.Create(n, USER, "t", Join(Repeated(k)), 0);
            r.Success? && r.value.id == n && r.value.userId == USER && r.value.title == "t" && r.value.content == Join(Repeated(k))
            && r.value.version == 1 && r.value.createdAt == 0
  {
    hide Join, Repeated, Tokens, Strip;
    LongNote(k);
  }

  lemma CreatesNote(s: State, n: Uuid, j: Uuid, k: nat)
    requires Inv(s) && Fresh(s, n) && j !in s.db.jobs && s.clock == 0 && 1 <= k <= 1400
    ensures var s' := Apply(s, Creation(n, j, k));
            && Inv(s') && OnlyAdds(s, s', n, j)
            && s'.db.notes[n].title == "t" && s'.db.notes[n].content == Join(Repeated(k)) && s'.db.notes[n].userId == USER
            && s'.db.jobs[j] == Jobs.NewJob(j, n, USER, s'.db.notes[n].version, 0)
  {
    hide Inv, Join, Repeated, Notes.Create, Add, Fresh;
    NoteIsValid(n, k);
    StepKeepsInv(s, Creation(n, j, k));
    var note := Notes.Create(n, USER, "t", Join(Repeated(k)), 0).value;
    AddSucceeds(s, note, j);
    FreshAfter(s, note, Apply(s, Creation(n, j, k)));
  }

  lemma AddSucceeds(s: State, note: Note, j: Uuid)
    requires Inv(s) && Fresh(s, note.id) && j !in s.db.jobs
    ensures Add(s.db, note.userId, note, j)
            == Success(s.db.(notes := s.db.notes[note.id := note],
                             jobs := s.db.jobs[j := Jobs.NewJob(j, note.id, note.userId, note.version, note.createdAt)]))
    ensures note.id !in s.db.notes
  {
    hide Inv, Fresh;
    NotYetThere(s, note.id);
    if HasJobFor(s.db.jobs, note.id, note.version) {
      var i :| i in s.db.jobs && s.db.jobs[i].noteId == note.id && s.db.jobs[i].noteVersion == note.version;
      JobHasNote(s, note.id, i);
    }
  }

  lemma FreshAfter(s: State, note: Note, s': State)
    requires s'.texts == s.texts[(note.id, note.version) := TextOf(note)]
    ensures forall m :: m != note.id && Fresh(s, m) ==> Fresh(s', m)
  {
  }

  lemma JobHasNote(s: State, n: Uuid, i: Uuid)
    requires Inv(s) && i in s.db.jobs && s.db.jobs[i].noteId == n
    ensures n in s.db.notes
  {
    hide NoteInv;
    assert NoteLocal(s, n);
  }

  lemma NotYetThere(s: State, n: Uuid)
    requires Inv(s) && Fresh(s, n)
    ensures n !in s.db.notes
  {
    hide IndexInv, JobInv;
    assert NoteLocal(s, n);
  }

  lemma IndexesNote(s: State, n: Uuid, j: Uuid, k: nat, v: Vector)
    requires Inv(s) && n in s.db.notes && s.clock == 0 && 1 <= k <= 1400 && |v| == DIMENSIONS
    requires s.db.notes[n].title == "t" && s.db.notes[n].content == Join(Repeated(k)) && s.db.notes[n].userId == USER
    requires j in s.db.jobs && s.db.jobs[j] == Jobs.NewJob(j, n, USER, s.db.notes[n].version, 0)
    ensures var s' := Apply(s, Indexing(j, k, v));
            && Inv(s') && OnlyAdds(s, s', n, j) && Shelved(s'.db, n, ChunkCount(k), v)
  {
    hide NoteLocal, Join, Repeated, ChunkNote, Work, Settle;
    var step := Indexing(j, k, v);
    LongNote(k);
    StepKeepsInv(s, step);
    var c, chunks := WorkerOutcome(s, j, 0, 60, step.answer, "model", 0);
    SettleShelves(WriteJob(s.db, c), c, chunks, v);
    assert Apply(s, step).db == Settle(WriteJob(s.db, c), c, chunks, step.answer, "model", 0).value.0;
  }

  lemma SettleShelves(db: Db, c: Jobs.Job, chunks: seq<TextChunk>, v: Vector)
    requires c.status == Jobs.Processing && c.id in db.jobs && c.noteId in db.notes && |v| == DIMENSIONS
    requires db.notes[c.noteId].userId == c.userId == USER && db.notes[c.noteId].version == c.noteVersion
    ensures var r := Settle(db, c, chunks, Vectors(Copies(v, |chunks|)), "model", 0);
            && r.Success? && r.value.0.jobs.Keys == db.jobs.Keys && r.value.0.notes.Keys == db.notes.Keys
            && (forall m :: m != c.noteId && m in db.notes ==> r.value.0.notes[m] == db.notes[m])
            && (forall m :: m != c.noteId ==> RowsOf(r.value.0, m) == RowsOf(db, m))
            && Shelved(r.value.0, c.noteId, |chunks|, v)
  {
  }

  /** One more indexed note. */
  lemma Shelve(s: State, n: Uuid, j: Uuid, k: nat, v: Vector) returns (s': State)
    requires Inv(s) && Fresh(s, n) && j !in s.db.jobs && s.clock == 0 && 1 <= k <= 1400 && |v| == DIMENSIONS
    ensures s' == Run(s, [Creation(n, j, k), Indexing(j, k, v)])
    ensures Inv(s') && OnlyAdds(s, s', n, j) && Shelved(s'.db, n, ChunkCount(k), v)
  {
    hide Inv, Apply, Shelved;
    var created := Apply(s, Creation(n, j, k));
    CreatesNote(s, n, j, k);
    IndexesNote(created, n, j, k, v);
    s' := Apply(created, Indexing(j, k, v));
    var steps := [Creation(n, j, k), Indexing(j, k, v)];
    assert steps[1..] == [Indexing(j, k, v)] && steps[1..][1..] == [];
    assert Run(created, steps[1..]) == Run(s', []);
  }

  /** The notes 1 to m are indexed with five chunks each, and there is nothing else. */
  ghost predicate Filled(s: State, m: nat, near: Vector) {
    && Inv(s) && s.clock == 0
    && (forall n :: n in s.db.notes <==> 1 <= n <= m) && (forall j :: j in s.db.jobs <==> 11 <= j <= 10 + m)
    && (forall n: Uuid :: n > m ==> Fresh(s, n))
    && (forall n: Uuid :: 1 <= n <= m ==> Shelved(s.db, n, 5, near))
  }

  lemma {:induction false} FillUp(m: nat, near: Vector) returns (s: State, steps: seq<Step>)
    requires m <= 4 && |near| == DIMENSIONS
    ensures s == Run(INITIAL, steps) && Filled(s, m, near)
  {
    hide Inv, Shelved, Apply, Fresh;
    if m == 0 {
      InitialInv();
      s, steps := INITIAL, [];
      assert forall n: Uuid :: Fresh(s, n) by { NothingFresh(); }
    } else {
      var before, first := FillUp(m - 1, near);
      var next := [Creation(m, 10 + m, 1400), Indexing(10 + m, 1400, near)];
      s := FillOne(before, m, near);
      steps := first + next;
      RunConcat(INITIAL, first, next);
    }
  }

  lemma FillOne(before: State, m: nat, near: Vector) returns (s: State)
    requires 1 <= m <= 4 && |near| == DIMENSIONS && Filled(before, m - 1, near)
    ensures s == Run(before, [Creation(m, 10 + m, 1400), Indexing(10 + m, 1400, near)]) && Filled(s, m, near)
  {
    hide Inv, Shelved, Fresh, Run;
    s := Shelve(before, m, 10 + m, 1400, near);
    forall n: Uuid | 1 <= n <= m ensures Shelved(s.db, n, 5, near) {
      if n < m { ShelvedStays(before, s, m, 10 + m, n, 5, near); }
    }
  }

  lemma NothingFresh()
    ensures forall n: Uuid :: Fresh(INITIAL, n)
  {
  }

  lemma ShelvedStays(s: State, s': State, n: Uuid, j: Uuid, m: Uuid, count: nat, v: Vector)
    requires OnlyAdds(s, s', n, j) && m != n && Shelved(s.db, m, count, v)
    ensures Shelved(s'.db, m, count, v)
  {
    hide Fresh;
  }

  /** The distance tells the two points apart, and both are near enough for the search. */
  predicate Between(distance: Vector -> real, near: Vector, far: Vector, minimum: real) {
    distance(near) < distance(far) <= 1.0 - minimum
  }

  /** Four notes of five near chunks, and a fifth of one chunk that is farther away. */
  ghost predicate Crowded(db: Db, near: Vector, far: Vector) {
    && (forall n :: n in db.notes <==> 1 <= n <= 5)
    && (forall n: Uuid :: 1 <= n <= 4 ==> Shelved(db, n, 5, near))
    && Shelved(db, 5, 1, far)
  }

  lemma CrowdedIsReachable(near: Vector, far: Vector) returns (steps: seq<Step>)
    requires |near| == DIMENSIONS == |far|
    ensures Crowded(Run(INITIAL, steps).db, near, far)
  {
    hide Inv, Shelved, Apply, Fresh;
    var before, first := FillUp(4, near);
    var next := [Creation(5, 15, 1), Indexing(15, 1, far)];
    var s := Shelve(before, 5, 15, 1, far);
    steps := first + next;
    RunConcat(INITIAL, first, next);
    forall n: Uuid | 1 <= n <= 4 ensures Shelved(s.db, n, 5, near) {
      ShelvedStays(before, s, 5, 15, n, 5, near);
    }
  }

  // ---- what the search makes of it ----

  lemma FiveRowsEach(db: Db, near: Vector, far: Vector, distance: Vector -> real, minimum: real, refs: seq<(Uuid, nat)>, hits: seq<Hit>, n: Uuid)
    requires Crowded(db, near, far) && Between(distance, near, far, minimum) && Ranks(db, USER, minimum, distance, refs, hits) && 1 <= n <= 4
    ensures Count(hits, n) == 5
  {
    hide Ranks, Crowded, Eligible, Positions, Count;
    forall i: nat ensures i in Positions(refs, n) <==> i < 5 {
      RankedPositions(db, USER, minimum, distance, refs, hits, n, i);
      NearIsEligible(db, near, far, distance, minimum, n, i);
    }
    RankedPositions(db, USER, minimum, distance, refs, hits, n, 0);
    assert Positions(refs, n) == {0, 1, 2, 3, 4};
  }

  /** In a ranking a note has one row for each of its eligible chunks. */
  lemma RankedPositions(db: Db, user: Uuid, minimum: real, distance: Vector -> real, refs: seq<(Uuid, nat)>, hits: seq<Hit>, n: Uuid, i: nat)
    requires Ranks(db, user, minimum, distance, refs, hits)
    ensures Count(hits, n) == |Positions(refs, n)|
    ensures i in Positions(refs, n) <==> Eligible(db, user, minimum, distance, n, i)
  {
    hide Sorted, Eligible;
    CountIsPositions(refs, hits, n);
    if Eligible(db, user, minimum, distance, n, i) {
      assert (n, i) in refs;
    }
  }

  lemma NearIsEligible(db: Db, near: Vector, far: Vector, distance: Vector -> real, minimum: real, n: Uuid, i: nat)
    requires Crowded(db, near, far) && Between(distance, near, far, minimum) && 1 <= n <= 4
    ensures Eligible(db, USER, minimum, distance, n, i) <==> i < 5
  {
    assert Shelved(db, n, 5, near);
  }

  lemma {:induction false} SomeUnseen(rows: seq<Hit>, seen: set<Uuid>, p: nat)
    requires p < |rows| && rows[p].noteId !in seen
    ensures Unseen(rows, seen) >= 1
    decreases p
  {
    if p > 0 { SomeUnseen(rows[1..], seen, p - 1); }
  }

  /** In every ranking the fifth note's only row comes last, after twenty others. */
  lemma FifthIsLast(db: Db, near: Vector, far: Vector, distance: Vector -> real, minimum: real, refs: seq<(Uuid, nat)>, hits: seq<Hit>)
    requires Crowded(db, near, far) && Between(distance, near, far, minimum) && Ranks(db, USER, minimum, distance, refs, hits)
    ensures |hits| >= 21 && hits[|hits| - 1].noteId == 5
    ensures forall q :: 0 <= q < |hits| - 1 ==> 1 <= hits[q].noteId <= 4
  {
    hide Count, Unseen;
    assert Shelved(db, 5, 1, far);
    assert Eligible(db, USER, minimum, distance, 5, 0) && (5, 0) in refs;
    var p :| 0 <= p < |refs| && refs[p] == (5, 0);
    forall q | 0 <= q < |hits| && q != p ensures 1 <= hits[q].noteId <= 4 && q < p {
      RowsAreNear(db, near, far, distance, minimum, refs, hits, p, q);
    }
    NothingSeen(hits);
    forall n: Uuid | 1 <= n <= 4 ensures Count(hits, n) == 5 { FiveRowsEach(db, near, far, distance, minimum, refs, hits, n); }
    SeeOne(hits, {}, 1);
    SeeOne(hits, {} + {1}, 2);
    SeeOne(hits, {} + {1} + {2}, 3);
    SeeOne(hits, {} + {1} + {2} + {3}, 4);
    SomeUnseen(hits, {} + {1} + {2} + {3} + {4}, p);
  }

  lemma RowsAreNear(db: Db, near: Vector, far: Vector, distance: Vector -> real, minimum: real, refs: seq<(Uuid, nat)>, hits: seq<Hit>, p: nat, q: nat)
    requires Crowded(db, near, far) && Between(distance, near, far, minimum) && Ranks(db, USER, minimum, distance, refs, hits)
    requires p < |refs| && q < |refs| && refs[p] == (5, 0) && q != p
    ensures 1 <= hits[q].noteId <= 4 && q < p
  {
    assert Shelved(db, 5, 1, far);
    var n := refs[q].0;
    assert Eligible(db, USER, minimum, distance, n, refs[q].1);
    assert refs[q] != refs[p];
    assert n != 5;
    assert Shelved(db, n, 5, near);
    assert hits[q].distance == distance(near) && hits[p].distance == distance(far);
  }

  /**
   Four rows a note are not enough when notes have five: in a state the queue reaches, with the five
   results the settings ask for, the search returns four notes and misses the fifth, which is eligible and
   wanted, for any distance and any two points it tells apart, and however the database ranks the rows;
   and there is such a ranking.
   */
  lemma FiveChunksHideANote(near: Vector, far: Vector, distance: Vector -> real, minimum: real)
    returns (steps: seq<Step>, refs: seq<(Uuid, nat)>, hits: seq<Hit>)
    requires |near| == DIMENSIONS == |far| && Between(distance, near, far, minimum)
    ensures Ranks(Run(INITIAL, steps).db, USER, minimum, distance, refs, hits)
    ensures Eligible(Run(INITIAL, steps).db, USER, minimum, distance, 5, 0)
    ensures forall refs, hits :: Ranks(Run(INITIAL, steps).db, USER, minimum, distance, refs, hits) ==> MissesFifth(hits)
  {
    hide Run, Ranks, MissesFifth;
    steps := CrowdedIsReachable(near, far);
    var db := Run(INITIAL, steps).db;
    refs, hits := RankingExists(db, USER, minimum, distance);
    assert Shelved(db, 5, 1, far);
    forall refs, hits | Ranks(db, USER, minimum, distance, refs, hits) ensures MissesFifth(hits) {
      CrowdedMissesFifth(db, near, far, distance, minimum, refs, hits);
    }
  }

  predicate MissesFifth(hits: seq<Hit>) {
    && |NoteIds(hits)| == 5 && |Found(hits, 5)| <= 4 && !TopNotes(hits, 5, Found(hits, 5))
    && forall i :: 0 <= i < |Found(hits, 5)| ==> Found(hits, 5)[i].noteId != 5
  }

  lemma CrowdedMissesFifth(db: Db, near: Vector, far: Vector, distance: Vector -> real, minimum: real, refs: seq<(Uuid, nat)>, hits: seq<Hit>)
    requires Crowded(db, near, far) && Between(distance, near, far, minimum) && Ranks(db, USER, minimum, distance, refs, hits)
    ensures MissesFifth(hits)
  {
    hide Crowded, Ranks, Count, MissesFifth;
    FifthIsLast(db, near, far, distance, minimum, refs, hits);
    forall n: Uuid | 1 <= n <= 4 ensures n in NoteIds(hits) {
      FiveRowsEach(db, near, far, distance, minimum, refs, hits, n);
      CountedIsThere(hits, n);
    }
    RankedIsSorted(db, USER, minimum, distance, refs, hits);
    LastIsMissed(hits);
  }

  lemma LastIsMissed(hits: seq<Hit>)
    requires Sorted(hits) && |hits| >= 21 && hits[|hits| - 1].noteId == 5
    requires forall q :: 0 <= q < |hits| - 1 ==> 1 <= hits[q].noteId <= 4
    requires forall n: Uuid :: 1 <= n <= 4 ==> n in NoteIds(hits)
    ensures MissesFifth(hits)
  {
    hide Sorted, FirstOfEach, Nearest, DistinctNotes;
    var window := Retrieval.Window(hits, 5);
    assert window == hits[..20];
    assert hits[|hits| - 1] in hits;
    assert NoteIds(hits) == {1, 2, 3, 4, 5};
    Progress.SubsetSizeOf(NoteIds(window), {1, 2, 3, 4});
    FirstsAreRows(window, {});
    SearchCompleteExactlyIf(hits, 5);
  }

  lemma RankedIsSorted(db: Db, user: Uuid, minimum: real, distance: Vector -> real, refs: seq<(Uuid, nat)>, hits: seq<Hit>)
    requires Ranks(db, user, minimum, distance, refs, hits)
    ensures Sorted(hits)
  {
  }

  lemma {:induction false} CountedIsThere(rows: seq<Hit>, n: Uuid)
    requires Count(rows, n) > 0
    ensures n in NoteIds(rows)
  {
    assert rows[0] in rows;
    if rows[0].noteId != n {
      CountedIsThere(rows[1..], n);
      var h :| h in rows[1..] && h.noteId == n;
      assert h in rows;
    }
  }
}
