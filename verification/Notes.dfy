/** domain/notes.py: a note, its validation, and its change of version. */
module Notes {
  import opened Ids
  import opened Wrappers
  import opened Text
  import opened Chunker
  import ChunkLaws

  const TITLE_MAXIMUM := 200
  const CONTENT_MAXIMUM := 100_000

  datatype SemanticStatus = Pending | Processing | Ready | Failed

  datatype Field = TitleField | ContentField

  datatype NoteError = Required(field: Field) | TooLong(field: Field) | VersionConflict | EmptyUpdate

  datatype Note = Note(
    id: Uuid, userId: Uuid, title: string, content: string, version: nat,
    status: SemanticStatus, errorCode: Option<string>, statusAt: Option<Time>,
    createdAt: Time, updatedAt: Time)

  /** `_validate_text`: what is kept is trimmed, not blank, and within the maximum. */
  function ValidateText(value: string, field: Field, maximum: nat): (r: Result<string, NoteError>)
    ensures r.Success? <==> Acceptable(value, maximum)
    ensures r.Success? ==> r.value == Strip(value) && ValidText(r.value, maximum) && Tokens(r.value) == Tokens(value)
    ensures r == Failure(Required(field)) <==> Tokens(value) == []
    ensures r == Failure(TooLong(field)) <==> |Strip(value)| > maximum
  {
    TokensOfStrip(value);
    var normalized := Strip(value);
    if normalized == "" then Failure(Required(field))
    else if |normalized| > maximum then Failure(TooLong(field))
    else Success(normalized)
  }

  /** What validation lets pass. */
  predicate Acceptable(value: string, maximum: nat) {
    Strip(value) != "" && |Strip(value)| <= maximum
  }

  predicate ValidText(s: string, maximum: nat) {
    s != "" && Trimmed(s) && |s| <= maximum
  }

  /** What validation establishes and every later operation keeps. */
  predicate WellFormed(note: Note) {
    ValidText(note.title, TITLE_MAXIMUM) && ValidText(note.content, CONTENT_MAXIMUM) && note.version >= 1
  }

  function Create(noteId: Uuid, userId: Uuid, title: string, content: string, now: Time): (r: Result<Note, NoteError>)
    ensures r.Success? <==> Acceptable(title, TITLE_MAXIMUM) && Acceptable(content, CONTENT_MAXIMUM)
    ensures r.Success? ==>
              && WellFormed(r.value) && r.value.id == noteId && r.value.userId == userId && r.value.version == 1
              && r.value.title == Strip(title) && r.value.content == Strip(content)
              && r.value.status == Pending && r.value.errorCode == None && r.value.statusAt == Some(now)
              && r.value.createdAt == now && r.value.updatedAt == now
  {
    var title' :- ValidateText(title, TitleField, TITLE_MAXIMUM);
    var content' :- ValidateText(content, ContentField, CONTENT_MAXIMUM);
    Success(Note(noteId, userId, title', content', 1, Pending, None, Some(now), now, now))
  }

  function Update(note: Note, title: Option<string>, content: Option<string>, expected: Option<int>, now: Time): (r: Result<Note, NoteError>)
    ensures r.Success? && WellFormed(note) ==> WellFormed(r.value)
    ensures r.Success? <==>
              && (expected.Some? ==> expected.value == note.version) && (title.Some? || content.Some?)
              && (title.Some? ==> Acceptable(title.value, TITLE_MAXIMUM))
              && (content.Some? ==> Acceptable(content.value, CONTENT_MAXIMUM))
    ensures r == Failure(VersionConflict) <==> expected.Some? && expected.value != note.version
    ensures r == Failure(EmptyUpdate) <==> (expected.Some? ==> expected.value == note.version) && title.None? && content.None?
    ensures r.Success? ==>
              && r.value.id == note.id && r.value.userId == note.userId && r.value.createdAt == note.createdAt
              && r.value.version == note.version + 1
              && (if title.Some? then r.value.title == Strip(title.value) else r.value.title == note.title)
              && (if content.Some? then r.value.content == Strip(content.value) else r.value.content == note.content)
              && r.value.status == Pending && r.value.errorCode == None
              && r.value.statusAt == Some(now) && r.value.updatedAt == now
  {
    if expected.Some? && expected.value != note.version then Failure(VersionConflict)
    else if title.None? && content.None? then Failure(EmptyUpdate)
    else
      var title' :- if title.None? then Success(note.title) else ValidateText(title.value, TitleField, TITLE_MAXIMUM);
      var content' :- if content.None? then Success(note.content) else ValidateText(content.value, ContentField, CONTENT_MAXIMUM);
      Success(note.(title := title', content := content', version := note.version + 1,
                    status := Pending, errorCode := None, statusAt := Some(now), updatedAt := now))
  }

  /** No note that passed validation makes `chunk_note` raise: its title leaves at least 250 words a chunk. */
  lemma WellFormedNotesChunk(note: Note)
    requires WellFormed(note)
    ensures ChunkNote(note.title, note.content).Success?
    ensures TARGET_TOKENS - |Tokens(Strip(note.title))| >= 250
  {
    hide Tokens, ChunkNote;
    TokensAtMostHalf(Strip(note.title));
    TokensOfStrip(note.title);
    ChunkLaws.ChunkNoteRaisesExactly(note.title, note.content, TARGET_TOKENS, OVERLAP_TOKENS);
  }
}
