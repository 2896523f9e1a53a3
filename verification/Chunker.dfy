/**
 domain/indexing.py, `chunk_note`: paragraphs are packed greedily into pieces of at most
 `target_tokens - len(title_tokens)` words, and a paragraph that is too long by itself is cut by
 a window that repeats the last `overlap_tokens` words of the piece before it.
 */
module Chunker {
  import opened Wrappers
  import opened Text

  type Words = seq<string>

  const TARGET_TOKENS := 350
  const OVERLAP_TOKENS := 50

  datatype TextChunk = TextChunk(ordinal: nat, text: string, tokenCount: nat)

  datatype ChunkError = EmptyNote | InvalidConfiguration | TitleTooLarge

  /** The non-blank parts between blank lines, each as its list of words. */
  function ParagraphWords(parts: seq<string>): (r: seq<Words>)
    ensures forall i :: 0 <= i < |r| ==> r[i] != [] && AreWords(r[i])
  {
    if parts == [] then []
    else if Strip(parts[0]) == "" then ParagraphWords(parts[1..])
    else
      TokensOfStrip(parts[0]);
      [Tokens(Strip(parts[0]))] + ParagraphWords(parts[1..])
  }

  /** What the window makes of one paragraph: full pieces, and the tail that stays open. */
  datatype Cut = Cut(full: seq<Words>, tail: Words)

  function Slide(words: Words, limit: nat, overlap: nat): Cut
    requires overlap < limit
    decreases |words|
  {
    if |words| <= limit then Cut([], words)
    else
      var rest := Slide(words[limit - overlap..], limit, overlap);
      Cut([words[..limit]] + rest.full, rest.tail)
  }

  function Flush(current: Words): seq<Words> {
    if current == [] then [] else [current]
  }

  /** The pieces made of the open piece `current` and the paragraphs still to come. */
  function Pack(current: Words, paragraphs: seq<Words>, limit: nat, overlap: nat): seq<Words>
    requires overlap < limit
    decreases |paragraphs|
  {
    if paragraphs == [] then Flush(current)
    else if current != [] && |current| + |paragraphs[0]| <= limit then
      Pack(current + paragraphs[0], paragraphs[1..], limit, overlap)
    else
      var cut := Slide(paragraphs[0], limit, overlap);
      Flush(current) + (cut.full + Pack(cut.tail, paragraphs[1..], limit, overlap))
  }

  /** The word lists of all chunks; a note without content still gets one, empty, piece. */
  function PackAll(paragraphs: seq<Words>, limit: nat, overlap: nat): (r: seq<Words>)
    requires overlap < limit
    ensures r != []
  {
    var packed := Pack([], paragraphs, limit, overlap);
    if packed == [] then [[]] else packed
  }

  function Pieces(content: string, limit: nat, overlap: nat): (r: seq<Words>)
    requires overlap < limit
    ensures r != []
  {
    PackAll(ParagraphWords(SplitBlank(content)), limit, overlap)
  }

  function Prefix(title: string): string {
    if title == "" then "" else title + "\n\n"
  }

  function ChunkText(title: string, piece: Words): string {
    Strip(Prefix(title) + Join(piece))
  }

  function Chunk(title: string, piece: Words, index: nat): TextChunk {
    TextChunk(index, ChunkText(title, piece), |Tokens(title)| + |piece|)
  }

  /** One chunk a piece, numbered in order. */
  function Numbered(title: string, pieces: seq<Words>): (r: seq<TextChunk>)
    ensures |r| == |pieces|
    ensures forall i :: 0 <= i < |r| ==> r[i] == Chunk(title, pieces[i], i)
  {
    seq(|pieces|, i requires 0 <= i < |pieces| => Chunk(title, pieces[i], i))
  }

  /** The filter of the comprehension: chunks with an empty text are dropped. */
  function NonBlank(chunks: seq<TextChunk>): seq<TextChunk> {
    if chunks == [] then []
    else
      var last := chunks[|chunks| - 1];
      NonBlank(chunks[..|chunks| - 1]) + if last.text == "" then [] else [last]
  }

  function Chunks(heading: string, body: string, limit: nat, overlap: nat): seq<TextChunk>
    requires overlap < limit
  {
    NonBlank(Numbered(heading, Pieces(body, limit, overlap)))
  }

  /** `chunk_note` */
  function ChunkNote(title: string, content: string, target: int := TARGET_TOKENS, overlap: int := OVERLAP_TOKENS)
    : Result<seq<TextChunk>, ChunkError>
  {
    var heading, body := Strip(title), Strip(content);
    var limit := target - |Tokens(heading)|;
    if |heading| == 0 && |body| == 0 then Failure(EmptyNote)
    else if target <= 0 || !(0 <= overlap < target) then Failure(InvalidConfiguration)
    else if limit <= overlap then Failure(TitleTooLarge)
    else
      var chunks := Chunks(heading, body, limit, overlap);
      if |chunks| == 0 then Failure(EmptyNote) else Success(chunks)
  }

  /** One round of the packing loop leaves the result unchanged. */
  lemma PackStep(pieces: seq<Words>, current: Words, words: Words, rest: seq<Words>, limit: nat, overlap: nat)
    requires overlap < limit
    ensures var all := pieces + Pack(current, [words] + rest, limit, overlap);
            if current != [] && |current| + |words| <= limit then
              pieces + Pack(current + words, rest, limit, overlap) == all
            else
              var cut := Slide(words, limit, overlap);
              var before := if current == [] then pieces else pieces + [current];
              before + cut.full + Pack(cut.tail, rest, limit, overlap) == all
  {
    hide Slide, Pack;
    PackFirst(current, words, rest, limit, overlap);
  }

  lemma PackFirst(current: Words, words: Words, rest: seq<Words>, limit: nat, overlap: nat)
    requires overlap < limit
    ensures Pack(current, [words] + rest, limit, overlap) ==
            if current != [] && |current| + |words| <= limit then Pack(current + words, rest, limit, overlap)
            else
              var cut := Slide(words, limit, overlap);
              Flush(current) + (cut.full + Pack(cut.tail, rest, limit, overlap))
  {
    hide Slide, Flush;
    assert ([words] + rest)[1..] == rest;
  }

  /** The packing loop of `chunk_note`, with the window loop inside it. */
  method ComputePieces(paragraphs: seq<Words>, limit: nat, overlap: nat) returns (pieces: seq<Words>)
    requires overlap < limit
    ensures pieces == PackAll(paragraphs, limit, overlap)
  {
    pieces := [];
    var current: Words := [];
    ghost var all := Pack([], paragraphs, limit, overlap);
    var todo := if paragraphs == [] then [[]] else paragraphs;
    assert todo[0..] == todo;
    for i := 0 to |todo|
      invariant pieces + Pack(current, todo[i..], limit, overlap) == all
    {
      var words := todo[i];
      ghost var rest := todo[i + 1..];
      assert todo[i..] == [words] + rest;
      PackStep(pieces, current, words, rest, limit, overlap);
      if current != [] && |current| + |words| <= limit {
        current := current + words;
        continue;
      }
      if current != [] {
        pieces := pieces + [current];
        current := [];
      }
      current, pieces := Window(pieces, words, limit, overlap);
    }
    assert todo[|todo|..] == [];
    if current != [] || pieces == [] {
      pieces := pieces + [current];
    }
  }

  /** The window loop: full pieces are appended while the words do not fit, the tail is handed back. */
  method Window(before: seq<Words>, paragraph: Words, limit: nat, overlap: nat) returns (words: Words, pieces: seq<Words>)
    requires overlap < limit
    ensures var cut := Slide(paragraph, limit, overlap); pieces == before + cut.full && words == cut.tail
  {
    words, pieces := paragraph, before;
    ghost var cut := Slide(paragraph, limit, overlap);
    while |words| > limit
      invariant var rest := Slide(words, limit, overlap);
                pieces + rest.full == before + cut.full && rest.tail == cut.tail
    {
      pieces := pieces + [words[..limit]];
      words := words[limit - overlap..];
    }
  }

  /** The enumerating comprehension of `chunk_note`. */
  method ComputeRender(title: string, pieces: seq<Words>) returns (chunks: seq<TextChunk>)
    ensures chunks == NonBlank(Numbered(title, pieces))
  {
    hide Chunk, NonBlank;
    chunks := [];
    ghost var all := Numbered(title, pieces);
    NonBlankStep(all, 0);
    for index := 0 to |pieces|
      invariant chunks == NonBlank(all[..index])
    {
      var chunk := Chunk(title, pieces[index], index);
      NonBlankStep(all, index);
      if chunk.text != "" {
        chunks := chunks + [chunk];
      }
    }
    assert all[..|all|] == all;
  }

  lemma NonBlankStep(all: seq<TextChunk>, index: nat)
    requires index <= |all|
    ensures NonBlank(all[..0]) == []
    ensures index < |all| ==>
              NonBlank(all[..index + 1]) == NonBlank(all[..index]) + if all[index].text == "" then [] else [all[index]]
  {
    assert index < |all| ==> all[..index + 1][..index] == all[..index];
  }

  method ComputeBody(heading: string, body: string, limit: nat, overlap: nat) returns (chunks: seq<TextChunk>)
    requires overlap < limit
    ensures chunks == Chunks(heading, body, limit, overlap)
  {
    var pieces := ComputePieces(ParagraphWords(SplitBlank(body)), limit, overlap);
    chunks := ComputeRender(heading, pieces);
  }

  /** The loops of `chunk_note` compute that function. */
  method ComputeChunks(title: string, content: string, target: int := TARGET_TOKENS, overlap: int := OVERLAP_TOKENS)
    returns (r: Result<seq<TextChunk>, ChunkError>)
    ensures r == ChunkNote(title, content, target, overlap)
  {
    hide Chunks;
    var heading, body := Strip(title), Strip(content);
    var limit := target - |Tokens(heading)|;
    if |heading| == 0 && |body| == 0 {
      return Failure(EmptyNote);
    }
    if target <= 0 || !(0 <= overlap < target) {
      return Failure(InvalidConfiguration);
    }
    if limit <= overlap {
      return Failure(TitleTooLarge);
    }
    var chunks := ComputeBody(heading, body, limit, overlap);
    r := if |chunks| == 0 then Failure(EmptyNote) else Success(chunks);
  }
}
