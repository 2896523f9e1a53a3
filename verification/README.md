# Verification of the notes and retrieval service

A Dafny model of the part of `notes_rag` that has to stay right while users, index workers and a
language model act at the same time. It proves what the stored index, the queue behind it and the
answers built on it promise.

| file | subject |
|---|---|
| `Text.dfy` | `str.split`, `str.strip`, `" ".join`, splitting on blank lines |
| `Chunker.dfy`, `ChunkLaws.dfy`, `Placement.dfy` | `chunk_note`: its loops, what every list of chunks satisfies, and where every word goes |
| `Notes.dfy`, `Jobs.dfy` | the frozen values: notes and their validation, indexing jobs and their back-off |
| `Store.dfy` | the committed tables and what each transaction makes of them |
| `Queue.dfy`, `QueueLaws.dfy` | the queue as a state machine, its invariant, and its meaning in every reachable state |
| `Effects.dfy` | what each committed step leaves in the database, field by field |
| `Progress.dfy` | the queue drains; a job's attempts; nobody cuts in ahead of a claimable job |
| `Workers.dfy` | any number of workers in flight, holding row locks, and of requests between reading and saving: a refinement of the serial queue |
| `Fairness.dfy` | no claimable job is starved, however many workers overlap |
| `SplitSave.dfy` | a save statement by statement: when it is refused, when an update is lost, when it is atomic, exactly |
| `LateSave.dfy`, `OvertakenNote.dfy` | what a save that commits late does to the queue invariant, to the note and to the workers; runs that lead there |
| `Statements.dfy` | the interleaved system with every save taken apart: when it is still the serial queue |
| `Repositories.dfy` | the repositories, services and worker as objects that change the tables in place |
| `Pagination.dfy` | listing notes by cursor while they change |
| `Retrieval.dfy`, `HiddenNote.dfy` | the search window: exactly when it is complete, and a reachable state in which it misses a note |
| `Rag.dfy` | the token-budgeted prompt, citations and the published answer |
| `Throttle.dfy` | the login throttle against a complete log |

Conventions. Times are integers in microseconds and the clock never goes back along a run. A transaction that
stamps what it writes has read the clock at some time before it is committed, and may have waited for any
time since. Identifiers are numbers below 2^128; `uuid4` is taken never to repeat a note identifier. A token is a maximal run of
characters that are not whitespace. A raised exception is a `Failure` and rolls the transaction back.
The embedding model answers with vectors, with a `ModelUnavailableError`, or with any other exception;
vectors are opaque apart from their length, distances are reals.
Of the libraries it is taken that PostgreSQL runs at READ COMMITTED, its default, so that a statement sees
what was committed when it began and waits for rows that others have locked, and that the object mapper's
UPDATE writes only the columns whose value differs from the one it loaded. A flush is taken to UPDATE the note
before it INSERTs the job; nothing in the repository fixes that order.

## What the code turned out to do

* **`update` reads in one transaction and saves in another, and the version check between them works.**
  Whatever is committed in between, a save either reports a conflict, exactly if the note is gone or has
  moved on, or does what reading and saving in one step would (`QueueLaws.LateSaveIsUpdate`,
  `Workers.OnlySavesChangeTexts`). What follows is about the statements inside the saving transaction.
* **Two saves from one version can both commit.** `save` SELECTs the row at the expected version without
  locking it (`repositories.py:169-174`), then DELETEs the note's jobs that are not completed
  (`187-192`), and only the flush at its end (`202`; the session has no autoflush, `database.py:27`)
  UPDATEs the row by primary key and INSERTs the next version's job. The uniqueness of
  `(note_id, note_version)` stops the second save exactly if the first one's job is there at the INSERT
  (`SplitSave.FlushRefusedExactlyIf`): if the second DELETE began before the first save committed
  (`SplitSave.EarlyDeleteRefusedExactlyIf`), or a worker has completed the job. A DELETE that begins
  later removes that job, and the second save commits over the first
  (`SplitSave.LateDeleteCommits`, `SplitSave.TwoSavesBothCommit`, `SplitSave.LostUpdateExample`).
* **A save that two others overtake takes the note back** to a version behind the one users saw
  (`LateSave.OvertakenSaveGoesBack`). If the version after it had been completed, the note can never be
  edited again (`LateSave.StuckForever`): each later save collides with the completed job. If the newest
  version's job was still open it is left beyond its note: a worker that claims it commits the bare claim, so a
  job is then committed as `processing`, again after each lease, until a sixth claim fails the check of the
  attempts and every worker that comes to the job stops (`LateSave.AdriftIsClaimedBare`,
  `Repositories.AdriftStopsWorker`). Only a save of the note or its deletion ends it
  (`LateSave.AdriftUntilFreed`). `OvertakenNote.dfy` has runs that lead to both.
* **A clock reading older than its commit lets a job in before one that waits.** `update` and `create` read the
  clock before their saving transaction, which may wait for a worker. A job stamped before a waiting job
  was available comes in ahead of it when it is committed (`Progress.EarlyStampCutsIn`), and no other does;
  `Fairness.NoStarvation` bounds the wait by the threats at its start and the number of such commits. For the
  same reason a changed note need not be the newest (`Pagination.ChangedNoteIsNewestExactlyIf`). A note's own
  update time still never falls, because of the version check (`Pagination.RunsNeverGoBack`); if an update
  is lost as above, it can, and a walk returns the note twice (`Pagination.LostUpdateShowsTwice`).
* **A save that waits for a worker can leave a note ready whose new text is not indexed.** The SELECT reads
  a pending note, the DELETE waits for the job a worker has locked, the worker publishes, and the UPDATE does
  not mention the status, because the object mapper writes only columns whose value differs from the one it
  loaded. The note shows ready at its new version while that version's job waits
  (`SplitSave.WaitingSaveShowsReady`); it is the version condition of the search query that keeps the old
  chunks out. Apart from this an undisturbed save is the atomic one
  (`SplitSave.UndisturbedSaveIsAtomicExactlyIf`), and for atomic saves every law of the queue holds;
  `LateSave.FlushKeepsInvExactlyIf` says exactly which saves keep the queue invariant.
* **The search window is tight.** A search is complete exactly if the rows up to the first one of the last
  note wanted fit into four rows a result (`Retrieval.SearchCompleteExactlyIf`); that is so while no note
  has more than four eligible chunks (`Retrieval.SearchIsComplete`). In a state the queue reaches, with the
  default limit of five, four notes of five chunks hide a fifth (`HiddenNote.FiveChunksHideANote`).
* **The prompt can exceed its budget by one token**, the closing tag that is appended after counting: it does
  for every question and sources that fill the budget (`Rag.FullBudgetIsExceeded`), and stays within it
  exactly if room for that token is left (`Rag.PromptFitsExactlyIf`); with messages and notes of legal size
  it never comes near it.
* Where the design notes differ from the code, the code is modelled: `research.md` speaks of splitting
  by sentences, the chunker splits by blank lines and words only; `data-model.md` gives claims a lease for
  recovery and ends obsolete jobs, but as long as the queue invariant holds a claim is never committed by itself
  and no job is committed as `processing`; `SemanticStatus.PROCESSING` is never assigned and
  `IndexingJob.obsolete` is never called.

## Model

| member | source | states |
|---|---|---|
| Text.TokensAtMostHalf | app/src/notes_rag/domain/indexing.py:14-15 | A string of n characters has at most (n+1)/2 tokens |
| Text.TokensOfJoin | app/src/notes_rag/domain/indexing.py:54 | Words joined by single blanks split back into the same words |
| Text.SplitBlankKeepsTokens | app/src/notes_rag/domain/indexing.py:36-40 | Splitting on blank lines and then on whitespace yields the same tokens as splitting on whitespace |
| Text.SplitBlankIsExact | app/src/notes_rag/domain/indexing.py:36 | The parts joined by blank lines are the text again, no part has a blank line in it, and each ends at the first one |
| Text.StripTakesBlanks | app/src/notes_rag/domain/notes.py:15 | Stripping takes whitespace from the two ends and nothing else |
| Text.JoinConcat | app/src/notes_rag/domain/indexing.py:54 | Words are joined by exactly one blank, wherever the list is divided |
| ChunkLaws.ParagraphsAreParts | app/src/notes_rag/domain/indexing.py:36-40 | Each part that is not blank is one paragraph with its words, in order |
| Chunker.ComputeChunks | app/src/notes_rag/domain/indexing.py:18-60 | The statements of `chunk_note`, with its three error exits, compute the function the laws are about |
| Chunker.ComputePieces | app/src/notes_rag/domain/indexing.py:37-52 | The packing loop produces exactly the greedy packing of the paragraphs |
| Chunker.Window | app/src/notes_rag/domain/indexing.py:47-50 | The window loop appends the full cuts of a paragraph and hands back its tail |
| ChunkLaws.ChunkingLosesNothing | app/src/notes_rag/domain/indexing.py:36-52 | For every note and configuration there is a drop count per piece, zero or the overlap, after which the pieces concatenate to the words of the content; each nonzero drop repeats exactly the last words of the full piece before it |
| ChunkLaws.ChunksWellShaped | app/src/notes_rag/domain/indexing.py:53-60 | One chunk a piece, ordinals 0 to n-1, none filtered away; a chunk's text is the stripped title, a blank line and the words with single blanks, it splits into the title's tokens and its piece, and its token count is that number, positive and within the target |
| ChunkLaws.SlideBounds | app/src/notes_rag/domain/indexing.py:47-50 | Full cuts fit the limit; the tail of an oversized paragraph has more than overlap and at most limit words |
| ChunkLaws.ParagraphsKeptWhole | app/src/notes_rag/domain/indexing.py:39-43 | Every paragraph within the limit lies contiguously inside one piece |
| ChunkLaws.OversizedParagraphCount | app/src/notes_rag/domain/indexing.py:47-52 | A note of one paragraph of L words gives one chunk, or 1 + ceil((L - limit)/(limit - overlap)) if L exceeds the limit |
| Placement.SlideCuts | app/src/notes_rag/domain/indexing.py:47-50 | Cut i of the window is exactly the `limit` words from word i * (limit - overlap) on, the tail is the rest, and the window stops as soon as it fits |
| Placement.SeamsRepeatOverlap | app/src/notes_rag/domain/indexing.py:47-50 | Inside one oversized paragraph each piece after the first begins with exactly the last `overlap` words of the full piece before it |
| Placement.PackPlaces | app/src/notes_rag/domain/indexing.py:38-52 | Each paragraph joins the piece the one before it ends in exactly if it fits there, else it begins a new one, cut by the window; nothing else is in any piece |
| Placement.NoteIsPlaced | app/src/notes_rag/domain/indexing.py:36-52 | So are the paragraphs of every note that chunks; one without content has one empty piece |
| ChunkLaws.ChunkNoteRaisesExactly | app/src/notes_rag/domain/indexing.py:25-60 | `chunk_note` succeeds if and only if the note has a token and the overlap is non-negative and smaller than the room the title leaves; which of its errors it raises is decided by the note and the configuration |
| Notes.ValidateText | app/src/notes_rag/domain/notes.py:14-20 | Returns the stripped text exactly if it is not blank and within the maximum, and else tells which of the two it was |
| Notes.Create | app/src/notes_rag/domain/notes.py:36-56 | Succeeds exactly for an acceptable title and content; the note is well formed, at version 1, pending, with the words given and the time of its creation |
| Notes.Update | app/src/notes_rag/domain/notes.py:58-85 | Succeeds exactly at the expected version with at least one acceptable text and no unacceptable one; the next version is well formed, pending, keeps identity and the text not given, and conflicts are told from other refusals |
| Notes.WellFormedNotesChunk | app/src/notes_rag/domain/indexing.py:25-34 | No validated note makes `chunk_note` raise with its defaults; at least 250 words a chunk remain beside the title |
| Jobs.DelayDoubles | app/src/notes_rag/domain/indexing.py:131 | For the attempts a job can have, the capped delay is the doubling one, and delays add up to 2^n - 1 seconds |
| Queue.AddKeepsInv | app/src/notes_rag/persistence/repositories.py:128-142 | Adding a first version with its job keeps the whole queue invariant |
| Queue.SaveKeepsInv | app/src/notes_rag/persistence/repositories.py:168-203 | Saving the next version and replacing the open job keeps it |
| Queue.DeleteKeepsInv | app/src/notes_rag/persistence/repositories.py:205-212 | Deleting with its cascades keeps it (what a deletion removes is `Effects.DeletionRemoves`) |
| Queue.RetryKeepsInv | app/src/notes_rag/persistence/repositories.py:328-361 | Reopening the failed job keeps it |
| Queue.PublishKeepsInv | app/src/notes_rag/persistence/repositories.py:268-311 | Publishing the chunks of the current text succeeds and keeps it |
| Queue.FailKeepsInv | app/src/notes_rag/persistence/repositories.py:313-326 | Recording a failure succeeds and keeps it |
| Queue.FailBacksOff | app/src/notes_rag/domain/indexing.py:125-138 | After the n-th failure a job is not available before 2^n - 1 seconds have passed since the first (the exact time is `Effects.FailedIsClaimableFrom`) |
| Queue.WorkerOutcome | app/src/notes_rag/services/indexing.py:36-54 | In any state of the queue a claimed job's note is there at the job's version and chunks without error, so the model is always asked and the transaction ends in publish, fail or rollback |
| Queue.StepKeepsInv | app/src/notes_rag/persistence/repositories.py:128-361 | Every step, of a user or a worker, with any arguments, keeps the invariant |
| Queue.RunKeepsInv | app/src/notes_rag/worker.py:35-49 | So does every run of steps |
| Effects.CreationAdds | app/src/notes_rag/services/notes.py:31-34 | A creation adds the stripped note and its waiting job, field by field, exactly if both texts are valid and the job's identifier is new; else nothing changes |
| Effects.AddExactlyIf | app/src/notes_rag/persistence/repositories.py:128-142 | An insertion succeeds exactly for the user's own note with new identifiers and no job of its version |
| Effects.UpdateRewrites | app/src/notes_rag/services/notes.py:42-54 | An update rewrites exactly its note's texts, version, status and times and puts one waiting job in the place of the note's unfinished ones, exactly if it is of the user's own note at the version named with valid texts; else nothing changes |
| Effects.DeletionRemoves | app/src/notes_rag/persistence/repositories.py:205-212 | A deletion answers True exactly for an own note; then the note, its chunks and its jobs are gone and every other row stays; else nothing changes |
| Effects.DeletedForGood | app/src/notes_rag/persistence/repositories.py:205-212 | After a deletion no run brings the note, a chunk or a job of it back |
| Effects.RetryableExactlyIf | app/src/notes_rag/persistence/repositories.py:328-349 | In any state of the queue a retry finds its job exactly if the user's note has failed |
| Effects.RetryReopens | app/src/notes_rag/persistence/repositories.py:350-361 | A retry puts exactly that note and job back to waiting, without attempts and errors |
| Effects.ClaimableExactlyIf | app/migrations/versions/003_runtime_role.py:33-36 | In any state of the queue a job can be claimed exactly if it is open and its time has come |
| Effects.WorkerEffect | app/src/notes_rag/services/indexing.py:36-54 | A worker transaction on any job changes nothing, or publishes each chunk of the current text with its own vector if there is one of 768 numbers for each, or records the failure: every field of the note, the job and the rows |
| Effects.PublishesExactlyIf | app/src/notes_rag/persistence/repositories.py:276-311 | `publish` publishes exactly for a claimed job at its note's version with a vector a chunk, and refuses another version |
| Effects.FailsExactlyIf | app/src/notes_rag/persistence/repositories.py:313-326 | `fail` raises exactly for a job that is gone or not claimed, and touches no note of another version |
| Effects.FailedIsClaimableFrom | app/src/notes_rag/domain/indexing.py:125-138 | After the a-th failure, up to the fourth, the job can be claimed exactly from 2^(a-1) seconds after it on |
| QueueLaws.QueueInvariant | app/src/notes_rag/persistence/repositories.py:128-203 | After any run each note has exactly one job at its version and only older completed ones; its status is that job's, with an error code exactly when failed |
| QueueLaws.AttemptBounds | app/migrations/versions/002_semantic_indexing.py:80 | After any run of whole transactions no job is committed as processing and attempts are 0 waiting, 1 to 4 in retry, 5 failed, 1 to 5 completed |
| QueueLaws.FifthClaimWaits | app/src/notes_rag/domain/indexing.py:105-138 | The fifth attempt is claimed at least fifteen seconds after the first one failed |
| QueueLaws.IndexIsFresh | app/src/notes_rag/persistence/repositories.py:276-311 | After any run a note has chunks exactly if a job of it completed; they are the chunks of the text of its latest completed version, never a mix, and a ready note's are those of its current text |
| QueueLaws.TextsNeverChange | app/src/notes_rag/persistence/repositories.py:168-203 | The text saved under (note, version) is never replaced by another one, over any run |
| QueueLaws.InvMeetsConstraints | app/src/notes_rag/persistence/models.py:96-102 | The keys of the schema and the check of the attempts hold in every state of the queue |
| QueueLaws.UpdatesChain | app/src/notes_rag/persistence/repositories.py:168-203 | Of the steps of the queue only an update that names the note's version changes its text; it makes the next version from the text of that one and stamps it with its time |
| QueueLaws.LateSaveIsUpdate | app/src/notes_rag/services/notes.py:42-54 | A save computed from a note read at any earlier time either is one atomic update now, or changes nothing; it answers False exactly if the note is gone or has moved on from the version read |
| QueueLaws.SplitUpdateIsOneStep | app/src/notes_rag/runtime.py:70-82 | So with any run of transactions between the transaction of `get` and that of `save` |
| Progress.WorkSpends | app/src/notes_rag/domain/indexing.py:114-149 | A worker transaction that commits rewrites only its own job, spends at least one of its attempts, and a job left open is available only later |
| Progress.QueueTerminates | app/src/notes_rag/worker.py:35-49 | Along any run of worker steps the number of transactions that change anything is at most the attempts left to all open jobs at the start |
| Progress.DrainedIsSettled | app/src/notes_rag/services/indexing.py:36-54 | With no open job every note is ready or failed |
| Progress.WorkerFindsWork | app/migrations/versions/003_runtime_role.py:33-38 | If an unlocked job is claimable, the claim's query has a first row, and none was available earlier or, at the same time, created earlier |
| Progress.OpenJobsCanBeWorked | app/src/notes_rag/worker.py:35-41 | Once an open job's time has come some job is claimed and its transaction commits unless the model crashes |
| Progress.NobodyCutsIn | app/src/notes_rag/persistence/repositories.py:233-250 | A step puts ahead of an open job at most its own job, and only if its clock was read when that job was not yet available (a failing worker's a second before) |
| Progress.EarlyStampCutsIn | app/src/notes_rag/services/notes.py:31-34 | A creation, save or retry that commits does come in if its clock was read before the job was available, and never if read after |
| Progress.QueueDrains | app/src/notes_rag/worker.py:35-49 | From any state one worker claiming in order reaches a state without open jobs, every note ready or failed, in at most as many transactions as attempts are left, for any answers but crashes |
| Progress.AtMostFiveAttempts | app/src/notes_rag/domain/indexing.py:114-138 | Along any run with users in which a job is not made anew or reopened, the attempts that commit are at most those it had left, never more than five, and its count is exactly their number |
| Fairness.ClaimTakesFirst | app/migrations/versions/003_runtime_role.py:33-38 | While a job waits, a worker claims that job or an unlocked one ahead of it in the claim order, however old its clock reading |
| Fairness.NoNewThreat | app/migrations/versions/003_runtime_role.py:27-40 | No action, of users or of overlapping workers, adds to the jobs ahead of a waiting job or in flight, but for the one job of a commit whose clock was read when the waiting job was not yet available |
| Fairness.WorkedOffIsNoThreat | app/src/notes_rag/worker.py:35-41 | A transaction that commits had its job among them, and removes it for good unless it is such a commit itself |
| Fairness.NoStarvation | app/src/notes_rag/worker.py:35-49 | In any interleaving, while an open unlocked job waits, at most as many worker transactions commit as there were open jobs ahead of it or transactions in flight, and commits meanwhile whose clock was read when it was not yet available |
| Workers.UserSpares | app/src/notes_rag/persistence/repositories.py:168-212 | A user transaction that is not blocked touches neither a locked job nor its note |
| Workers.WorkerSpares | app/src/notes_rag/services/indexing.py:36-54 | A worker's commit touches neither another open job nor that job's note |
| Workers.NeverStale | app/src/notes_rag/services/indexing.py:37-39 | An in-flight transaction never sees its note gone or at another version, and its claim's attempt count is within 1 to 5 |
| Workers.CommitIsSerial | app/src/notes_rag/worker.py:35-41 | What a transaction commits from the note it read earlier is what the serial worker step would do at commit time |
| Workers.ActionRefines | app/src/notes_rag/worker.py:35-41 | Every action of the interleaved system, a save computed from a note read earlier among them, is one serial step on the committed state and keeps all in-flight transactions and read notes valid |
| Workers.ActionEffect | app/src/notes_rag/worker.py:35-41 | What each action of the interleaved system does to the committed state, the locks and the open requests |
| Workers.PublicationNeverRefused | app/src/notes_rag/persistence/repositories.py:276-287 | Only a crash of the model rolls an answered transaction back, and it reports success exactly for vectors of the right shape: the version check never refuses |
| Workers.InterleavingRefinesQueue | app/src/notes_rag/worker.py:35-49 | Any interleaving of workers, aborts and requests that read the note, read the clock and save at separate times ends in the committed state of a serial run, and no job is ever in flight twice |
| Workers.OnlySavesChangeTexts | app/src/notes_rag/services/notes.py:42-54 | In any interleaving a note's text changes only by a save, the version that request read is the one it replaces, the new text is computed from that version's text, and its stamp is the request's clock reading, after the old one |
| Workers.ConflictExactlyIf | app/src/notes_rag/services/notes.py:52-53 | A save is answered with a conflict, changing nothing, exactly if its note is gone or was saved since it was read |
| Workers.InterleavedStateIsReachable | app/src/notes_rag/worker.py:35-49 | From the empty database, every interleaved state is a state of the serial queue |
| Statements.StatementsRefineQueue | app/src/notes_rag/persistence/repositories.py:168-203 | With SELECT, DELETE and flush of every save interleaved with everything else, the committed state is that of a serial run, as long as each flush that commits finds the version its SELECT read and the status it leaves out |
| Statements.StatementEffect | app/src/notes_rag/persistence/repositories.py:168-203 | What SELECT, DELETE and flush of a save load, see and write |
| Statements.UndisturbedStateIsReachable | app/src/notes_rag/runtime.py:78-82 | From the empty database, every such interleaving is in a state of the serial queue |
| SplitSave.AtOnceIsAtomic | app/src/notes_rag/persistence/repositories.py:168-203 | With nothing between its statements a save's writes are those of the atomic save |
| SplitSave.FlushRefusedExactlyIf | app/src/notes_rag/persistence/models.py:98 | A save is refused exactly if its note is gone or, at the INSERT, a job of its version is there that its DELETE has not removed |
| SplitSave.NoLostUpdateExactlyIf | app/src/notes_rag/persistence/repositories.py:168-203 | A save replaces only the version it read exactly if the note is still at it, or is gone, or the next version's job stands |
| SplitSave.StandsExactlyIf | app/src/notes_rag/persistence/repositories.py:187-202 | In any state of the queue that job stands exactly if it is completed, or is the current one and was not seen by the DELETE |
| SplitSave.EarlyDeleteRefusedExactlyIf | app/src/notes_rag/persistence/repositories.py:187-202 | A save whose DELETE began before any other save committed is refused exactly if the note is gone, one other save has committed, or the next version was completed; its update loses another exactly if two or more have |
| SplitSave.LateDeleteCommits | app/src/notes_rag/persistence/repositories.py:187-202 | A save whose DELETE begins after another one from its version committed, and before a worker completed that, keeps the note where it is, commits, and loses the other |
| SplitSave.TwoSavesBothCommit | app/src/notes_rag/persistence/repositories.py:168-203 | For every note, of two saves from its version the second replaces every column it changes and the first one's job is gone |
| SplitSave.LostUpdateExample | app/src/notes_rag/persistence/repositories.py:168-203 | A concrete database and two saves of which the first is lost |
| SplitSave.UndisturbedSaveIsAtomicExactlyIf | app/src/notes_rag/persistence/repositories.py:168-203 | With any runs between SELECT, DELETE and flush that leave the version, a save is refused exactly if the atomic one is, makes the same jobs and text, and is the atomic save altogether exactly if the columns it leaves out already hold their values |
| SplitSave.WaitingSaveShowsReady | app/src/notes_rag/persistence/repositories.py:176-202 | For every pending note: if a worker publishes while a save waits for its job, the new version is shown ready with its job waiting and no chunk of it |
| LateSave.FlushKeepsInvExactlyIf | app/src/notes_rag/persistence/repositories.py:168-203 | A save that commits keeps the whole queue invariant exactly if the note is not beyond the version it writes, its DELETE saw every open job, and the row ends pending without an error |
| LateSave.OvertakenSaveGoesBack | app/src/notes_rag/persistence/repositories.py:168-203 | A save of a version the note has already passed commits unless that version is completed, takes the note back, makes it stuck if the version after is completed, and leaves the newest version's open job, if its DELETE did not see it, beyond the note; the schema's keys still hold |
| LateSave.AdriftIsClaimedBare | app/src/notes_rag/services/indexing.py:37-39 | A claim of a job beyond its note commits by itself, as processing and one attempt poorer, to be claimed again exactly when the lease is over; at five attempts it raises |
| LateSave.AdriftUntilFreed | app/src/notes_rag/persistence/repositories.py:187-192 | For any step, the job stays beyond its note exactly if the step neither saves nor deletes the note; only such a step of a user ends it |
| LateSave.AdriftRun | app/migrations/versions/002_semantic_indexing.py:80 | Over any run without these, every claim of it that commits takes an attempt and at most those left commit |
| Repositories.AdriftStopsWorker | app/src/notes_rag/worker.py:43-48 | A worker that comes to such a job with five attempts stops with an exception |
| OvertakenNote.AdriftIsReachable | app/src/notes_rag/persistence/repositories.py:168-203 | A run from the empty database and a save overtaken in it that leaves a job beyond its note |
| OvertakenNote.StuckIsReachable | app/src/notes_rag/persistence/repositories.py:168-203 | A run from the empty database and a save overtaken in it that leaves the note stuck |
| LateSave.StuckForever | app/src/notes_rag/persistence/repositories.py:168-203 | If the version after a note's own is completed, no run of transactions changes its version or text any more, short of deleting it |
| LateSave.StepMeetsConstraints | app/src/notes_rag/persistence/models.py:96-102 | Every transaction keeps the keys of the schema and the check of the attempts, from any database that meets them |
| Repositories.NoteRepository.Add | app/src/notes_rag/persistence/repositories.py:128-142 | Inserts the note and its job, or raises and leaves the tables as they were |
| Repositories.NoteRepository.Save | app/src/notes_rag/persistence/repositories.py:168-203 | Overwrites the row, drops the open jobs and inserts the next, or answers False, or raises with nothing changed |
| Repositories.NoteRepository.Delete | app/src/notes_rag/persistence/repositories.py:205-212 | Removes the owner's note with its jobs and chunks and nothing else |
| Repositories.NoteService.Create | app/src/notes_rag/services/notes.py:31-34 | Its effect is the queue's creation step |
| Repositories.NoteService.Update | app/src/notes_rag/services/notes.py:42-54 | With any transactions committed between its `get` and its `save`, its effect is the queue's update step at that later time; it raises a conflict exactly if the note is gone or moved on, and any exception leaves the tables as the others left them |
| Repositories.NoteService.Delete | app/src/notes_rag/services/notes.py:56-58 | Deletes, or reports that there is no such note |
| Repositories.IndexingRepository.ClaimNext | app/migrations/versions/003_runtime_role.py:27-40 | Claims a row that is first among the claimable unlocked ones, raises if its attempts are used up, or answers nothing exactly if there is none |
| Repositories.IndexingRepository.Publish | app/src/notes_rag/persistence/repositories.py:268-311 | Row by row, leaves exactly the chunks given, the note ready and the job completed, or refuses, or is undone |
| Repositories.IndexingRepository.Fail | app/src/notes_rag/persistence/repositories.py:313-326 | Writes the failed or waiting job, and marks the note only when the job is closed and the version current |
| Repositories.IndexingRepository.RetryFailed | app/src/notes_rag/persistence/repositories.py:328-361 | Answers True exactly if a failed job of the failed note's version exists, and reopens it |
| Repositories.IndexingService.Process | app/src/notes_rag/services/indexing.py:36-54 | The statements of `process` do to the tables what the worker transaction says, in every branch |
| Repositories.IndexWorker.RunOnce | app/src/notes_rag/worker.py:35-41 | One round is idle exactly if nothing is claimable; otherwise it is one whole worker transaction on a first row, undone as a whole if anything raises |
| Repositories.IndexWorker.Run | app/src/notes_rag/worker.py:43-48 | Each round is one step of the queue, idle exactly if nothing is claimable and else a transaction on a first row with that round's clock and answer; it ends early exactly at the first exception, and the invariant holds after it |
| Pagination.DescendingUnique | app/src/notes_rag/persistence/repositories.py:161-165 | There is one way to list a set of keys in descending order |
| Pagination.PageCovers | app/src/notes_rag/api/notes.py:100-114 | A page holds exactly the keys below its cursor that are not below the cursor it returns |
| Pagination.PageIsExact | app/src/notes_rag/persistence/repositories.py:148-166 | In terms of the rows, a page holds exactly the user's own notes whose update time and identifier lie below the cursor and not below the one returned, newest first, at most as many as asked for |
| Pagination.NoNoteTwice | app/src/notes_rag/api/notes.py:100-114 | Following the cursors through any states in which no note's update time goes back, no note is returned twice |
| Pagination.UntouchedIsReturned | app/src/notes_rag/api/notes.py:100-114 | A note untouched during a finished walk is on one of its pages |
| Pagination.StaticWalk | app/src/notes_rag/api/notes.py:100-114 | Over a store that stands still the pages concatenate to the whole descending list in exactly max(1, ceil(n/limit)) pages |
| Pagination.RunMovesForward | app/src/notes_rag/persistence/repositories.py:168-175 | Along any run a note's update time never falls: a save passes the version check only against the row its request read, and the clock was read after that |
| Pagination.RunsNeverGoBack | app/src/notes_rag/domain/notes.py:70-85 | So along any interleaving of requests and workers |
| Pagination.ChangedNoteIsNewestExactlyIf | app/src/notes_rag/services/notes.py:42-54 | After a step that changes a note's text no listed note is newer than it exactly if none of the user's other notes was stamped after the clock the request read |
| Pagination.LostUpdateShowsTwice | app/src/notes_rag/api/notes.py:100-114 | If the second of two saves from one version carries the earlier clock reading, a walk over the two states returns the note twice |
| Pagination.PagingDuringRuns | app/src/notes_rag/persistence/repositories.py:148-166 | Whatever requests and overlapping workers do between the pages, no note is returned twice |
| Retrieval.Collect | app/src/notes_rag/services/retrieval.py:64-80 | The loop returns the first row of each note, in order, up to the number wanted |
| Retrieval.Search | app/src/notes_rag/services/retrieval.py:37-80 | A blank query, a failing model and a wrong embedding are errors; otherwise there are min(wanted, notes in the first 4 * min(wanted, 10) rows) results, where wanted is the positive limit given or else the standard one; with at most four rows a note that is the number wanted, if there are so many notes |
| Retrieval.FoundAreTheBest | app/src/notes_rag/services/retrieval.py:46-80 | Whatever the window cuts off, the results are distinct notes, nearest first, each by its nearest eligible chunk, and no note left out is nearer |
| Retrieval.SearchCompleteExactlyIf | app/src/notes_rag/services/retrieval.py:46-80 | For every ranking and number wanted the search is complete if and only if the rows up to the first one of the last note wanted are at most four times the number wanted, ten at most |
| Retrieval.SearchIsComplete | app/src/notes_rag/services/retrieval.py:46-80 | Up to ten wanted, that is so, for every ranking, if no note has more than four eligible chunks |
| HiddenNote.RankingExists | app/src/notes_rag/services/retrieval.py:48-61 | Every database has a ranking of its eligible chunks, whatever the distance |
| HiddenNote.FiveChunksHideANote | app/src/notes_rag/services/retrieval.py:61 | For any distance and two embeddings it tells apart, a run of the queue reaches a state in which, with five results wanted, an eligible note that belongs to the answer is missing, however the database ranks the rows |
| Retrieval.ResultsMeetMinimum | app/src/notes_rag/services/retrieval.py:57-77 | Every result is at least as similar as the configured minimum, and they come in order of falling similarity |
| Retrieval.RankedExactlyIf | app/src/notes_rag/services/retrieval.py:48-59 | The query ranks exactly the chunks of current versions of the user's ready notes whose similarity reaches the minimum |
| Retrieval.ResultIsNearestChunk | app/src/notes_rag/services/retrieval.py:67-77 | Each result is its note's most similar ranked chunk: that similarity, the first 500 characters of that chunk, the note's title |
| Retrieval.VersionAndStatusAgree | app/src/notes_rag/services/retrieval.py:48-59 | After any run a note is ready exactly if it has chunks of its current version, and then all are of it: each of the query's two conditions implies the other |
| Retrieval.FoundTextIsCurrent | app/src/notes_rag/services/retrieval.py:48-77 | In any state of the queue every hit belongs to the user's own ready note, its text is a chunk of the note's current text, and the excerpt is that text or its first 500 characters |
| Rag.BuildPrompt | app/src/notes_rag/services/rag.py:29-48 | The prompt contains the question and after it, in order, the identifier, the title and the excerpt of each leading source that fits |
| Rag.UuidTextReadsBack | app/src/notes_rag/services/rag.py:40 | An identifier's text has four hyphens and between them the hexadecimal digits of its number |
| Rag.UuidTextInjective | app/src/notes_rag/services/rag.py:40 | So no two notes look the same to the model |
| Rag.ShowsWhatFits | app/src/notes_rag/services/rag.py:38-47 | m leading sources are shown if and only if their tokens together fit the budget |
| Rag.PromptTokens | app/src/notes_rag/services/rag.py:37-48 | The prompt has the tokens counted and one more, so it exceeds the budget by more than one exactly if the header alone exceeds it |
| Rag.PromptFitsExactlyIf | app/src/notes_rag/services/rag.py:37-48 | The whole prompt is within the budget exactly if what was counted is below it |
| Rag.FullBudgetIsExceeded | app/src/notes_rag/services/rag.py:37-48 | For every question and sources that fill the budget exactly, all are shown and the prompt is one token over |
| Rag.EverySourceIsShown | app/src/notes_rag/services/rag.py:29-48 | With a message and at most ten sources of legal length the budget cuts no source off |
| Rag.CitableSourcesWereShown | app/src/notes_rag/services/rag.py:103-118 | In any state of the queue, for any legal message and any search of at most ten results, identifier, title and excerpt of every result that can be cited stand in the prompt, after the message |
| Rag.VerifiedSources | app/src/notes_rag/domain/chat.py:39-51 | Nothing if one id was not retrieved, else the sources of the distinct ids in first-citation order |
| Rag.PublishedSources | app/src/notes_rag/domain/chat.py:39-51 | The sources name exactly the cited ids, each is the last available one of its id, and they stand in order of first citation |
| Rag.RespondFromNotes | app/src/notes_rag/services/rag.py:103-118 | For any reply the response passes its constructor's checks; it carries sources exactly if the reply claims support, answers, and cites only what was retrieved, each with its retrieved title and excerpt, otherwise the refusal; the prompt shows the question and the sources that fit |
| Throttle.LoginThrottle.CheckAndRecord | app/src/notes_rag/services/authentication.py:50-56 | Accepts if the pruned queue is below the maximum, records the attempt, and touches no other client |
| Throttle.LoginThrottle.Clear | app/src/notes_rag/services/authentication.py:58-59 | Forgets that client and no other |
| Throttle.ThrottleRefinesLog | app/src/notes_rag/services/authentication.py:44-59 | After any events with a clock that never goes back, an attempt is accepted if and only if fewer than the maximum accepted since the last clear lie in the window |
| Throttle.WindowsHoldAtMostMaximum | app/src/notes_rag/services/authentication.py:44-59 | No interval as long as the window holds more than the maximum of accepted attempts since the last clear |
| Throttle.QueueIsBounded | app/src/notes_rag/services/authentication.py:50-56 | The queue never holds more than the maximum |
| Throttle.RejectionLeavesNoTrace | app/src/notes_rag/services/authentication.py:52-55 | A rejected attempt does not change what later attempts find |

## Left out

- NoStarvation: counts the transactions that commit; a worker whose model crashes again and again can claim the same job without progress, in the model as in the code.
- OpenJobsCanBeWorked: says that work is possible, not that a scheduler gives a worker its turn.
- InterleavingRefinesQueue: takes the transaction of a save as one action that waits for the row lock of a claimed job; `Statements.dfy` takes it apart, and `SplitSave.dfy` and `LateSave.dfy` say what a disturbed flush does. Deadlocks appear as aborts.
- EarlyDeleteRefusedExactlyIf: the UPDATE and the INSERT of one flush are one moment, since the UPDATE comes first and locks the note's row until the commit.
- Repositories.IndexWorker.Run: no user's transaction comes between its rounds; `Workers.dfy` has them.
- FoundAreTheBest: distances are exact reals; the rounding of floating-point similarities is not modelled.
- SearchIsComplete: for more than ten wanted results the window stays that of ten.
- The other branches of `RagService.respond` and the intent classifier: the RAG branch is entered with the decision already made.
- Cursor bytes (base64 and JSON): a cursor is the pair it encodes.
- Row-level security: ownership is equality of the stored owner, kept by every step.
- HTTP routes, sessions, passwords, the web page, migrations other than the claim function and the constraints cited.
- Sleeping between polls and the stop event: the poll loop makes some number of rounds.
