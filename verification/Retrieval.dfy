/** services/retrieval.py: the notes nearest to a query, by their best chunk, from a window of rows. */
module Retrieval {
  import opened Ids
  import opened Wrappers
  import opened Text
  import opened Chunker
  import opened Notes
  import opened Store
  import opened Queue
  import opened QueueLaws
  import Progress

  const EXCERPT_LENGTH := 500
  const ROWS_PER_RESULT := 4
  const WINDOW_RESULTS := 10

  /** A row of the query: a chunk with its note and its distance from the query. */
  datatype Hit = Hit(noteId: Uuid, title: string, text: string, distance: real)

  datatype RetrievalResult = RetrievalResult(noteId: Uuid, title: string, excerpt: string, similarity: real)

  datatype SearchError = EmptyQuery | InvalidQueryEmbedding | ModelUnavailable | ModelCrash

  function ResultOf(hit: Hit): RetrievalResult {
    RetrievalResult(hit.noteId, hit.title, if |hit.text| <= EXCERPT_LENGTH then hit.text else hit.text[..EXCERPT_LENGTH],
                    1.0 - hit.distance)
  }

  function ResultsOf(hits: seq<Hit>): (r: seq<RetrievalResult>)
    ensures |r| == |hits| && forall i :: 0 <= i < |r| ==> r[i] == ResultOf(hits[i])
  {
    seq(|hits|, i requires 0 <= i < |hits| => ResultOf(hits[i]))
  }

  // ---- the rows the query may see ----

  /** The chunk of note n at this position belongs to the user, is of the note's current version, and the note is ready. */
  predicate Current(db: Db, user: Uuid, n: Uuid, i: nat) {
    && n in db.notes && i < |RowsOf(db, n)|
    && RowsOf(db, n)[i].userId == user && db.notes[n].userId == user
    && RowsOf(db, n)[i].noteVersion == db.notes[n].version
    && db.notes[n].status == Ready
  }

  function HitAt(db: Db, n: Uuid, i: nat, distance: Vector -> real): Hit
    requires n in db.notes && i < |RowsOf(db, n)|
  {
    Hit(n, db.notes[n].title, RowsOf(db, n)[i].text, distance(RowsOf(db, n)[i].embedding))
  }

  predicate Eligible(db: Db, user: Uuid, minimum: real, distance: Vector -> real, n: Uuid, i: nat) {
    Current(db, user, n, i) && distance(RowsOf(db, n)[i].embedding) <= 1.0 - minimum
  }

  predicate Sorted(hits: seq<Hit>) {
    forall i, j :: 0 <= i < j < |hits| ==> hits[i].distance <= hits[j].distance
  }

  /** `hits` lists the eligible chunks, each once, in some order of non-decreasing distance. */
  ghost predicate Ranks(db: Db, user: Uuid, minimum: real, distance: Vector -> real, refs: seq<(Uuid, nat)>, hits: seq<Hit>) {
    && |refs| == |hits| && Sorted(hits)
    && (forall a, b :: 0 <= a < b < |refs| ==> refs[a] != refs[b])
    && (forall a :: 0 <= a < |refs| ==>
         Eligible(db, user, minimum, distance, refs[a].0, refs[a].1) && hits[a] == HitAt(db, refs[a].0, refs[a].1, distance))
    && (forall n: Uuid, i: nat :: Eligible(db, user, minimum, distance, n, i) ==> (n, i) in refs)
  }

  // ---- the search ----

  /** `limit or self.limit` */
  function Wanted(limit: Option<nat>, standard: nat): nat {
    if limit.None? || limit.value == 0 then standard else limit.value
  }

  /** The rows the query's LIMIT leaves of the ranked ones. */
  function Window(ranked: seq<Hit>, wanted: nat): seq<Hit> {
    if |ranked| <= WindowSize(wanted) then ranked else ranked[..WindowSize(wanted)]
  }

  /** `min(limit or self.limit, 10) * 4` */
  function WindowSize(wanted: nat): nat {
    (if wanted < WINDOW_RESULTS then wanted else WINDOW_RESULTS) * ROWS_PER_RESULT
  }

  /** The first row of every note not yet seen, in order. */
  function FirstOfEach(rows: seq<Hit>, seen: set<Uuid>): seq<Hit> {
    if rows == [] then []
    else if rows[0].noteId in seen then FirstOfEach(rows[1..], seen)
    else [rows[0]] + FirstOfEach(rows[1..], seen + {rows[0].noteId})
  }

  function Take(hits: seq<Hit>, n: nat): seq<Hit> {
    if |hits| <= n then hits else hits[..n]
  }

  /** The hits the search returns when its query ranks the eligible chunks like this. */
  function Found(ranked: seq<Hit>, wanted: nat): seq<Hit> {
    Take(FirstOfEach(Window(ranked, wanted), {}), wanted)
  }

  /** The deduplicating loop of `search`. */
  method Collect(rows: seq<Hit>, wanted: nat) returns (results: seq<RetrievalResult>)
    requires rows != [] ==> wanted >= 1
    ensures results == ResultsOf(Take(FirstOfEach(rows, {}), wanted))
  {
    hide FirstOfEach;
    results := [];
    var seen: set<Uuid> := {};
    ghost var hits: seq<Hit>, all := [], FirstOfEach(rows, {});
    assert rows[0..] == rows;
    if rows == [] {
      NoMoreRows(rows, {});
      assert rows[|rows|..] == rows;
    }
    for i := 0 to |rows|
      invariant hits + FirstOfEach(rows[i..], seen) == all && results == ResultsOf(hits)
      invariant |results| < wanted || rows == []
    {
      var row := rows[i];
      FirstOfEachStep(rows, i, seen, hits);
      if row.noteId in seen {
        continue;
      }
      seen := seen + {row.noteId};
      results := results + [ResultOf(row)];
      hits := hits + [row];
      if |results| >= wanted {
        assert all[..wanted] == hits && (|all| == wanted ==> all == all[..wanted]);
        break;
      }
    }
    NoMoreRows(rows, seen);
  }

  lemma FirstOfEachStep(rows: seq<Hit>, i: nat, seen: set<Uuid>, hits: seq<Hit>)
    requires i < |rows|
    ensures hits + FirstOfEach(rows[i..], seen)
            == if rows[i].noteId in seen then hits + FirstOfEach(rows[i + 1..], seen)
               else (hits + [rows[i]]) + FirstOfEach(rows[i + 1..], seen + {rows[i].noteId})
  {
    assert rows[i..][0] == rows[i] && rows[i..][1..] == rows[i + 1..];
  }

  lemma NoMoreRows(rows: seq<Hit>, seen: set<Uuid>)
    ensures FirstOfEach(rows[|rows|..], seen) == []
  {
  }

  /** `search`, given what the model answers for the query and how the database ranks the eligible chunks. */
  method Search(query: string, answer: Answer, ranked: seq<Hit>, limit: Option<nat>, standard: nat)
    returns (r: Result<seq<RetrievalResult>, SearchError>)
    ensures r == if Strip(query) == "" then Failure(EmptyQuery)
                 else if answer.Crash? then Failure(ModelCrash)
                 else if answer.Unavailable? then Failure(ModelUnavailable)
                 else if !RightShape(answer.vectors, 1) then Failure(InvalidQueryEmbedding)
                 else Success(ResultsOf(Found(ranked, Wanted(limit, standard))))
    ensures r.Success? && Sorted(ranked) ==>
              var wanted := if limit.Some? && limit.value > 0 then limit.value else standard;
              |r.value| == Least(wanted, |NoteIds(ranked[..Least(|ranked|, 4 * Least(wanted, 10))])|)
    ensures r.Success? && Sorted(ranked) && (forall n: Uuid :: Count(ranked, n) <= 4) ==>
              && (limit.None? && standard <= 10 ==> |r.value| == Least(standard, |NoteIds(ranked)|))
              && (limit.Some? && 0 < limit.value <= 10 ==> |r.value| == Least(limit.value, |NoteIds(ranked)|))
  {
    if Strip(query) == "" {
      return Failure(EmptyQuery);
    }
    match answer
    case Crash => return Failure(ModelCrash);
    case Unavailable => return Failure(ModelUnavailable);
    case Vectors(vectors) =>
      if |vectors| != 1 || |vectors[0]| != DIMENSIONS {
        return Failure(InvalidQueryEmbedding);
      }
      var wanted := Wanted(limit, standard);
      NumberFound(ranked, wanted);
      var results := Collect(Window(ranked, wanted), wanted);
      return Success(results);
  }

  function Least(a: nat, b: nat): nat {
    if a <= b then a else b
  }

  lemma NumberFound(ranked: seq<Hit>, wanted: nat)
    ensures Sorted(ranked) ==> |Found(ranked, wanted)| == Least(wanted, |NoteIds(ranked[..Least(|ranked|, 4 * Least(wanted, 10))])|)
    ensures Sorted(ranked) && (forall n: Uuid :: Count(ranked, n) <= 4) && wanted <= 10 ==>
              |Found(ranked, wanted)| == Least(wanted, |NoteIds(ranked)|)
  {
    hide Sorted, Found, NoteIds, Nearest, DistinctNotes, Count;
    if Sorted(ranked) {
      SearchCompleteExactlyIf(ranked, wanted);
      assert Window(ranked, wanted) == ranked[..Least(|ranked|, 4 * Least(wanted, 10))];
      if (forall n: Uuid :: Count(ranked, n) <= 4) && wanted <= 10 {
        WindowSuffices(ranked, wanted);
      }
    }
  }

  // ---- what the results are ----

  function NoteIds(hits: seq<Hit>): set<Uuid> {
    set h | h in hits :: h.noteId
  }

  predicate DistinctNotes(hits: seq<Hit>) {
    forall i, j :: 0 <= i < j < |hits| ==> hits[i].noteId != hits[j].noteId
  }

  /** `best` is a row of its note and no row of that note is nearer. */
  predicate Nearest(ranked: seq<Hit>, best: Hit) {
    best in ranked && forall h :: h in ranked && h.noteId == best.noteId ==> best.distance <= h.distance
  }

  /** The k best notes by their best chunk: nearest first, one row each, and nothing better left out. */
  predicate TopNotes(ranked: seq<Hit>, k: nat, r: seq<Hit>) {
    && DistinctNotes(r) && Sorted(r)
    && |r| == (if k < |NoteIds(ranked)| then k else |NoteIds(ranked)|)
    && (forall i :: 0 <= i < |r| ==> Nearest(ranked, r[i]))
    && (forall h, i :: h in ranked && h.noteId !in NoteIds(r) && 0 <= i < |r| ==> r[i].distance <= h.distance)
  }

  lemma {:induction false} FirstsAreRows(rows: seq<Hit>, seen: set<Uuid>)
    ensures var f := FirstOfEach(rows, seen);
            DistinctNotes(f) && forall i :: 0 <= i < |f| ==> f[i] in rows && f[i].noteId !in seen
    decreases |rows|
  {
    if rows != [] {
      FirstsAreRows(rows[1..], if rows[0].noteId in seen then seen else seen + {rows[0].noteId});
    }
  }

  lemma {:induction false} FirstsAreSorted(rows: seq<Hit>, seen: set<Uuid>)
    requires Sorted(rows)
    ensures Sorted(FirstOfEach(rows, seen))
    decreases |rows|
  {
    if rows != [] {
      var seen' := if rows[0].noteId in seen then seen else seen + {rows[0].noteId};
      FirstsAreSorted(rows[1..], seen');
      FirstsAreRows(rows[1..], seen');
    }
  }

  /** Every row of a note not seen before has a first row of its note at or before it. */
  lemma {:induction false} FirstIsFound(rows: seq<Hit>, seen: set<Uuid>, h: Hit) returns (i: nat)
    requires Sorted(rows) && h in rows && h.noteId !in seen
    ensures var f := FirstOfEach(rows, seen); i < |f| && f[i].noteId == h.noteId && f[i].distance <= h.distance
    decreases |rows|
  {
    var first, rest := rows[0], rows[1..];
    if first.noteId !in seen && h.noteId == first.noteId {
      i := 0;
    } else {
      i := FirstIsFound(rest, if first.noteId in seen then seen else seen + {first.noteId}, h);
      i := if first.noteId in seen then i else i + 1;
    }
  }

  /** Reading fewer rows only cuts the list of first rows short. */
  lemma {:induction false} FirstOfPrefix(rows: seq<Hit>, n: nat, seen: set<Uuid>)
    requires n <= |rows|
    ensures FirstOfEach(rows[..n], seen) <= FirstOfEach(rows, seen)
    decreases n
  {
    if n > 0 {
      assert rows[..n][0] == rows[0] && rows[..n][1..] == rows[1..][..n - 1];
      FirstOfPrefix(rows[1..], n - 1, if rows[0].noteId in seen then seen else seen + {rows[0].noteId});
    }
  }

  lemma {:induction false} DistinctIdCount(hits: seq<Hit>)
    requires DistinctNotes(hits)
    ensures |NoteIds(hits)| == |hits|
    decreases |hits|
  {
    if hits != [] {
      var rest := hits[1..];
      DistinctIdCount(rest);
      assert hits == [hits[0]] + rest;
      assert NoteIds(hits) == {hits[0].noteId} + NoteIds(rest);
      assert hits[0].noteId !in NoteIds(rest);
    }
  }

  lemma FirstsNameEveryNote(ranked: seq<Hit>)
    requires Sorted(ranked)
    ensures |NoteIds(ranked)| == |FirstOfEach(ranked, {})|
  {
    hide Sorted, FirstOfEach;
    var full := FirstOfEach(ranked, {});
    FirstsAreRows(ranked, {});
    forall n | n in NoteIds(ranked) ensures n in NoteIds(full) {
      var h :| h in ranked && h.noteId == n;
      var i := FirstIsFound(ranked, {}, h);
      assert full[i] in full;
    }
    assert NoteIds(full) == NoteIds(ranked);
    DistinctIdCount(full);
  }

  /** Any initial part of the list of first rows is the list of that many best notes. */
  lemma PrefixIsTopNotes(ranked: seq<Hit>, r: seq<Hit>)
    requires Sorted(ranked) && r <= FirstOfEach(ranked, {})
    ensures TopNotes(ranked, |r|, r)
    ensures |NoteIds(ranked)| == |FirstOfEach(ranked, {})|
  {
    hide FirstOfEach, NoteIds;
    var full := FirstOfEach(ranked, {});
    FirstsAreRows(ranked, {});
    FirstsAreSorted(ranked, {});
    FirstsNameEveryNote(ranked);
    assert forall i :: 0 <= i < |r| ==> r[i] == full[i];
    forall i, h | 0 <= i < |r| && h in ranked && h.noteId == r[i].noteId ensures r[i].distance <= h.distance {
      var k := FirstIsFound(ranked, {}, h);
      assert k == i;
    }
    forall h, i | h in ranked && h.noteId !in NoteIds(r) && 0 <= i < |r| ensures r[i].distance <= h.distance {
      var k := FirstIsFound(ranked, {}, h);
      if k < |r| { IdOfMember(r, k); }
    }
  }

  lemma IdOfMember(r: seq<Hit>, k: nat)
    requires k < |r|
    ensures r[k].noteId in NoteIds(r)
  {
    assert r[k] in r;
  }

  /**
   Whatever the window cuts off, the search returns the best notes there are, in order, each by its
   nearest eligible chunk: it may return too few, never a wrong one.
   */
  lemma FoundAreTheBest(ranked: seq<Hit>, wanted: nat)
    requires Sorted(ranked)
    ensures TopNotes(ranked, |Found(ranked, wanted)|, Found(ranked, wanted))
    ensures |Found(ranked, wanted)| <= wanted
  {
    hide TopNotes, Sorted, FirstOfEach;
    var window := Window(ranked, wanted);
    assert window == ranked[..|window|];
    FirstOfPrefix(ranked, |window|, {});
    PrefixIsTopNotes(ranked, Found(ranked, wanted));
  }

  function Count(rows: seq<Hit>, n: Uuid): nat {
    if rows == [] then 0 else (if rows[0].noteId == n then 1 else 0) + Count(rows[1..], n)
  }

  function Unseen(rows: seq<Hit>, seen: set<Uuid>): nat {
    if rows == [] then 0 else (if rows[0].noteId in seen then 0 else 1) + Unseen(rows[1..], seen)
  }

  lemma {:induction false} SeeOne(rows: seq<Hit>, seen: set<Uuid>, n: Uuid)
    requires n !in seen
    ensures Unseen(rows, seen) == Count(rows, n) + Unseen(rows, seen + {n})
  {
    if rows != [] { SeeOne(rows[1..], seen, n); }
  }

  /** With at most m rows a note, n distinct notes account for at most m * n rows. */
  lemma {:induction false} RowsPerNote(rows: seq<Hit>, seen: set<Uuid>, m: nat)
    requires forall n :: Count(rows, n) <= m
    ensures Unseen(rows, seen) <= m * |FirstOfEach(rows, seen)|
    decreases |rows|
  {
    if rows != [] {
      var n, rest := rows[0].noteId, rows[1..];
      forall k ensures Count(rest, k) <= m { assert Count(rest, k) <= Count(rows, k); }
      if n in seen {
        RowsPerNote(rest, seen, m);
      } else {
        SeeOne(rows, seen, n);
        RowsPerNote(rest, seen + {n}, m);
        assert m * (1 + |FirstOfEach(rest, seen + {n})|) == m + m * |FirstOfEach(rest, seen + {n})|;
      }
    }
  }

  lemma {:induction false} NothingSeen(rows: seq<Hit>)
    ensures Unseen(rows, {}) == |rows|
  {
    if rows != [] { NothingSeen(rows[1..]); }
  }

  lemma {:induction false} CountPrefix(rows: seq<Hit>, size: nat, n: Uuid)
    requires size <= |rows|
    ensures Count(rows[..size], n) <= Count(rows, n)
  {
    if size > 0 {
      assert rows[..size][1..] == rows[1..][..size - 1];
      CountPrefix(rows[1..], size - 1, n);
    }
  }

  /** The search finds all the best notes wanted when none of them has more than four eligible chunks. */
  lemma WindowSuffices(ranked: seq<Hit>, wanted: nat)
    requires Sorted(ranked) && wanted <= WINDOW_RESULTS && forall n :: Count(ranked, n) <= ROWS_PER_RESULT
    ensures TopNotes(ranked, wanted, Found(ranked, wanted))
  {
    hide Sorted, FirstOfEach, Nearest;
    var window := Window(ranked, wanted);
    assert window == ranked[..|window|];
    FirstOfPrefix(ranked, |window|, {});
    PrefixIsTopNotes(ranked, Found(ranked, wanted));
    if |window| < |ranked| {
      forall n ensures Count(window, n) <= ROWS_PER_RESULT { CountPrefix(ranked, |window|, n); }
      NothingSeen(window);
      RowsPerNote(window, {}, ROWS_PER_RESULT);
      assert |FirstOfEach(window, {})| >= wanted;
    }
  }

  /** How many of the ranked rows, from the first, it takes to meet m notes. */
  function RowsNeeded(rows: seq<Hit>, m: nat): (p: nat)
    requires m <= |NoteIds(rows)|
    ensures p <= |rows| && |NoteIds(rows[..p])| >= m
    ensures forall q :: 0 <= q < p ==> |NoteIds(rows[..q])| < m
    decreases |rows|
  {
    assert rows[..|rows|] == rows;
    assert m == 0 ==> rows[..0] == [];
    assert rows == [] ==> NoteIds(rows) == {};
    if m == 0 then 0
    else
      var shorter := rows[..|rows| - 1];
      FewerNotes(rows);
      if |NoteIds(shorter)| >= m then
        assert forall q :: 0 <= q <= |shorter| ==> shorter[..q] == rows[..q];
        RowsNeeded(shorter, m)
      else |rows|
  }

  /** Shorter prefixes of the rows hold fewer notes. */
  lemma FewerNotes(rows: seq<Hit>)
    ensures forall q, r :: 0 <= q <= r <= |rows| ==> |NoteIds(rows[..q])| <= |NoteIds(rows[..r])|
  {
    forall q, r | 0 <= q <= r <= |rows| ensures |NoteIds(rows[..q])| <= |NoteIds(rows[..r])| {
      assert rows[..q] == rows[..r][..q];
      assert forall h :: h in rows[..q] ==> h in rows[..r];
      Progress.SubsetSizeOf(NoteIds(rows[..q]), NoteIds(rows[..r]));
    }
  }

  /** How many notes a complete answer has. */
  function Complete(ranked: seq<Hit>, wanted: nat): nat {
    if wanted <= |NoteIds(ranked)| then wanted else |NoteIds(ranked)|
  }

  /**
   The search is complete exactly if the rows up to the first one of the last note wanted fit the
   window: four rows for each of at most ten results wanted.
   */
  lemma SearchCompleteExactlyIf(ranked: seq<Hit>, wanted: nat)
    requires Sorted(ranked)
    ensures TopNotes(ranked, wanted, Found(ranked, wanted)) <==> RowsNeeded(ranked, Complete(ranked, wanted)) <= 4 * Least(wanted, 10)
    ensures |Found(ranked, wanted)| == Complete(Window(ranked, wanted), wanted)
  {
    hide Sorted, FirstOfEach, NoteIds, Nearest, DistinctNotes, RowsNeeded;
    var window := Window(ranked, wanted);
    assert window == ranked[..|window|] && ranked[..|ranked|] == ranked;
    SortedPrefix(ranked, |window|);
    FirstsNameEveryNote(window);
    FirstOfPrefix(ranked, |window|, {});
    PrefixIsTopNotes(ranked, Found(ranked, wanted));
    FewerNotes(ranked);
    var needed := RowsNeeded(ranked, Complete(ranked, wanted));
    assert needed <= |window| <==> |NoteIds(window)| >= Complete(ranked, wanted);
    assert needed <= WindowSize(wanted) <==> needed <= |window|;
  }

  lemma SortedPrefix(rows: seq<Hit>, n: nat)
    requires Sorted(rows) && n <= |rows|
    ensures Sorted(rows[..n])
  {
  }

  /** Retrieval never shows old text: every chunk it may see is a chunk of its note's current text. */
  lemma RetrievesCurrentText(s: State, user: Uuid, n: Uuid, i: nat)
    requires Inv(s) && Current(s.db, user, n, i)
    ensures var note := s.db.notes[n];
            && ChunkNote(note.title, note.content).Success?
            && i < |ChunkNote(note.title, note.content).value|
            && RowsOf(s.db, n)[i].text == ChunkNote(note.title, note.content).value[i].text
  {
    hide ChunkNote, WellFormed;
    assert NoteLocal(s, n);
  }

  /**
   After any run the version condition of the query and its status condition say the same, so each
   of them alone would do: a note has chunks of its current version exactly if it is ready.
   */
  lemma VersionAndStatusAgree(steps: seq<Step>, n: Uuid)
    requires n in Run(INITIAL, steps).db.notes
    ensures var db := Run(INITIAL, steps).db;
            && (db.notes[n].status == Ready <==> exists i :: 0 <= i < |RowsOf(db, n)| && RowsOf(db, n)[i].noteVersion == db.notes[n].version)
            && (db.notes[n].status == Ready ==>
              forall i :: 0 <= i < |RowsOf(db, n)| ==> RowsOf(db, n)[i].noteVersion == db.notes[n].version)
  {
    hide ChunkNote, WellFormed;
    var s := Run(INITIAL, steps);
    ReachableInv(steps);
    assert NoteLocal(s, n);
    IndexIsFresh(steps, n);
    var rows := RowsOf(s.db, n);
    var j :| IsCurrent(s.db, j, n);
    assert IsJobOf(s.db, j, n);
    if i :| 0 <= i < |rows| && rows[i].noteVersion == s.db.notes[n].version {
      var done :| IsCompleted(s.db, done, n, rows[0].noteVersion);
      assert IsJobOf(s.db, done, n);
      assert SameKey(s.db.jobs[done], s.db.jobs[j]);
    }
  }

  /** The eligible chunks of a note. */
  function EligibleChunks(db: Db, user: Uuid, minimum: real, distance: Vector -> real, n: Uuid): set<nat> {
    set i: nat | i < |RowsOf(db, n)| && Eligible(db, user, minimum, distance, n, i)
  }

  function Positions(refs: seq<(Uuid, nat)>, n: Uuid): set<nat> {
    set a | 0 <= a < |refs| && refs[a].0 == n :: refs[a].1
  }

  lemma {:induction false} CountIsPositions(refs: seq<(Uuid, nat)>, hits: seq<Hit>, n: Uuid)
    requires |refs| == |hits| && forall a :: 0 <= a < |refs| ==> hits[a].noteId == refs[a].0
    requires forall a, b :: 0 <= a < b < |refs| ==> refs[a] != refs[b]
    ensures Count(hits, n) == |Positions(refs, n)|
    decreases |refs|
  {
    if refs != [] {
      var rest := refs[1..];
      CountIsPositions(rest, hits[1..], n);
      if refs[0].0 == n {
        assert refs[0].1 !in Positions(rest, n);
        assert Positions(refs, n) == {refs[0].1} + Positions(rest, n) by { PositionsOfCons(refs, n); }
      } else {
        assert Positions(refs, n) == Positions(rest, n) by { PositionsOfCons(refs, n); }
      }
    }
  }

  lemma PositionsOfCons(refs: seq<(Uuid, nat)>, n: Uuid)
    requires refs != []
    ensures Positions(refs, n) == (if refs[0].0 == n then {refs[0].1} else {}) + Positions(refs[1..], n)
  {
    var rest := refs[1..];
    forall i | i in Positions(refs, n) ensures i in (if refs[0].0 == n then {refs[0].1} else {}) + Positions(rest, n) {
      var a :| 0 <= a < |refs| && refs[a].0 == n && refs[a].1 == i;
      if a > 0 { assert rest[a - 1] == refs[a]; }
    }
    forall i | i in Positions(rest, n) ensures i in Positions(refs, n) {
      var a :| 0 <= a < |rest| && rest[a].0 == n && rest[a].1 == i;
      assert refs[a + 1] == rest[a];
    }
  }

  /**
   However the database ranks the eligible chunks, the search returns every best note wanted, up to
   ten, if no note has more than four eligible chunks.
   */
  lemma SearchIsComplete(db: Db, user: Uuid, minimum: real, distance: Vector -> real,
                         refs: seq<(Uuid, nat)>, hits: seq<Hit>, wanted: nat)
    requires Ranks(db, user, minimum, distance, refs, hits) && wanted <= WINDOW_RESULTS
    requires forall n :: n in db.notes ==> |EligibleChunks(db, user, minimum, distance, n)| <= ROWS_PER_RESULT
    ensures TopNotes(hits, wanted, Found(hits, wanted))
  {
    hide Sorted, Eligible, TopNotes;
    forall n ensures Count(hits, n) <= ROWS_PER_RESULT {
      CountIsPositions(refs, hits, n);
      var chunks := EligibleChunks(db, user, minimum, distance, n);
      forall i | i in Positions(refs, n) ensures i in chunks && n in db.notes {
        InRange(db, user, minimum, distance, n, i);
      }
      if n in db.notes {
        Progress.SubsetSizeOf(Positions(refs, n), chunks);
      } else {
        assert Positions(refs, n) == {};
      }
    }
    WindowSuffices(hits, wanted);
  }

  lemma InRange(db: Db, user: Uuid, minimum: real, distance: Vector -> real, n: Uuid, i: nat)
    requires Eligible(db, user, minimum, distance, n, i)
    ensures n in db.notes && i < |RowsOf(db, n)|
  {
  }

  lemma FoundIsRow(hits: seq<Hit>, wanted: nat, k: nat) returns (a: nat)
    requires k < |Found(hits, wanted)|
    ensures a < |hits| && hits[a] == Found(hits, wanted)[k]
  {
    hide FirstOfEach;
    var window := Window(hits, wanted);
    FirstsAreRows(window, {});
    var hit := Found(hits, wanted)[k];
    assert hit == FirstOfEach(window, {})[k] && hit in window;
    a :| 0 <= a < |window| && window[a] == hit;
    assert hits[a] == hit;
  }

  /** Every excerpt a search of a reachable queue returns is cut from a chunk of its note's current text. */
  lemma FoundTextIsCurrent(s: State, user: Uuid, minimum: real, distance: Vector -> real,
                           refs: seq<(Uuid, nat)>, hits: seq<Hit>, wanted: nat, k: nat) returns (chunk: TextChunk)
    requires Inv(s) && Ranks(s.db, user, minimum, distance, refs, hits) && k < |Found(hits, wanted)|
    ensures var hit := Found(hits, wanted)[k];
            && hit.noteId in s.db.notes
            && var note := s.db.notes[hit.noteId];
            && note.userId == user && note.status == Ready && hit.title == note.title
            && ChunkNote(note.title, note.content).Success?
            && chunk in ChunkNote(note.title, note.content).value && hit.text == chunk.text
            && var result := ResultsOf(Found(hits, wanted))[k];
            && result.noteId == hit.noteId && result.title == note.title
            && result.excerpt <= chunk.text && (result.excerpt == chunk.text || |result.excerpt| == EXCERPT_LENGTH)
  {
    hide NoteLocal, ChunkNote, Found;
    var a := FoundIsRow(hits, wanted, k);
    var n, i := refs[a].0, refs[a].1;
    RetrievesCurrentText(s, user, n, i);
    chunk := ChunkNote(s.db.notes[n].title, s.db.notes[n].content).value[i];
  }

  /** What the query ranks: every chunk of the current version of a ready note of the user's that is similar enough, and nothing else. */
  lemma RankedExactlyIf(db: Db, user: Uuid, minimum: real, distance: Vector -> real, refs: seq<(Uuid, nat)>, hits: seq<Hit>, n: Uuid, i: nat)
    requires Ranks(db, user, minimum, distance, refs, hits)
    ensures (n, i) in refs <==>
            && n in db.notes && db.notes[n].userId == user && db.notes[n].status == Ready
            && n in db.chunks && i < |db.chunks[n]| && db.chunks[n][i].userId == user && db.chunks[n][i].noteVersion == db.notes[n].version
            && 1.0 - distance(db.chunks[n][i].embedding) >= minimum
  {
    hide Sorted;
    if (n, i) in refs {
      var a :| 0 <= a < |refs| && refs[a] == (n, i);
      assert Eligible(db, user, minimum, distance, refs[a].0, refs[a].1);
    } else {
      assert !Eligible(db, user, minimum, distance, n, i);
    }
  }

  /** Each result is its note's most similar chunk: that similarity, that chunk's first 500 characters, and the note's title. */
  lemma ResultIsNearestChunk(db: Db, user: Uuid, minimum: real, distance: Vector -> real,
                             refs: seq<(Uuid, nat)>, hits: seq<Hit>, wanted: nat, k: nat) returns (i: nat)
    requires Ranks(db, user, minimum, distance, refs, hits) && k < |Found(hits, wanted)|
    ensures var result := ResultsOf(Found(hits, wanted))[k];
            && (result.noteId, i) in refs && result.noteId in db.notes && i < |RowsOf(db, result.noteId)|
            && var row := RowsOf(db, result.noteId)[i];
            && result.title == db.notes[result.noteId].title
            && result.excerpt == row.text[..Least(|row.text|, 500)] && result.similarity == 1.0 - distance(row.embedding)
            && forall m :: (result.noteId, m) in refs ==>
                 m < |RowsOf(db, result.noteId)| && 1.0 - distance(RowsOf(db, result.noteId)[m].embedding) <= result.similarity
  {
    hide Found, Eligible, Sorted, TopNotes;
    var a := FoundIsRow(hits, wanted, k);
    var n := refs[a].0;
    i := refs[a].1;
    InRange(db, user, minimum, distance, n, i);
    FoundIsNearest(hits, wanted, k);
    forall m | (n, m) in refs
      ensures m < |RowsOf(db, n)| && distance(RowsOf(db, n)[i].embedding) <= distance(RowsOf(db, n)[m].embedding)
    {
      var b :| 0 <= b < |refs| && refs[b] == (n, m);
      InRange(db, user, minimum, distance, n, m);
      assert hits[b] in hits && hits[b] == HitAt(db, n, m, distance);
    }
  }

  lemma FoundIsNearest(hits: seq<Hit>, wanted: nat, k: nat)
    requires Sorted(hits) && k < |Found(hits, wanted)|
    ensures Nearest(hits, Found(hits, wanted)[k])
  {
    hide Found, Sorted, Nearest;
    FoundAreTheBest(hits, wanted);
  }

  lemma RowIsNearEnough(db: Db, user: Uuid, minimum: real, distance: Vector -> real,
                        refs: seq<(Uuid, nat)>, hits: seq<Hit>, a: nat)
    requires Ranks(db, user, minimum, distance, refs, hits) && a < |hits|
    ensures hits[a].distance <= 1.0 - minimum && Sorted(hits)
  {
    hide Current, Sorted;
    assert Eligible(db, user, minimum, distance, refs[a].0, refs[a].1);
  }

  /** Every result is at least as similar as the minimum asks, and none is more similar than one before it. */
  lemma ResultsMeetMinimum(db: Db, user: Uuid, minimum: real, distance: Vector -> real,
                           refs: seq<(Uuid, nat)>, hits: seq<Hit>, wanted: nat, i: nat, j: nat)
    requires Ranks(db, user, minimum, distance, refs, hits) && i <= j < |Found(hits, wanted)|
    ensures var results := ResultsOf(Found(hits, wanted)); minimum <= results[j].similarity <= results[i].similarity
  {
    hide Ranks, Found;
    var a := FoundIsRow(hits, wanted, j);
    RowIsNearEnough(db, user, minimum, distance, refs, hits, a);
    FoundAreTheBest(hits, wanted);
  }
}
