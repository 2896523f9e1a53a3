/** What `chunk_note` promises of its chunks, proved of the function its loops compute. */
module ChunkLaws {
  import opened Wrappers
  import opened Text
  import opened Chunker

  function Drop(piece: Words, n: nat): Words {
    if n <= |piece| then piece[n..] else []
  }

  /** The words left when the first `drops[i]` words of every piece i are dropped. */
  function Reassemble(pieces: seq<Words>, drops: seq<nat>): Words
    requires |pieces| == |drops|
  {
    if pieces == [] then [] else Drop(pieces[0], drops[0]) + Reassemble(pieces[1..], drops[1..])
  }

  /** `piece` repeats its first `drop` words from `prev`, the full piece before it, or repeats nothing. */
  predicate Repeats(prev: Words, piece: Words, drop: nat, limit: nat, overlap: nat)
    requires overlap < limit
  {
    drop == 0 ||
    (drop == overlap && |prev| == limit && overlap <= |piece| && piece[..overlap] == prev[limit - overlap..])
  }

  /** Every piece repeats nothing, or exactly the last `overlap` words of the full piece before it. */
  predicate ValidDrops(prev: Words, pieces: seq<Words>, drops: seq<nat>, limit: nat, overlap: nat)
    requires overlap < limit
    ensures ValidDrops(prev, pieces, drops, limit, overlap) ==> |pieces| == |drops|
    decreases |pieces|
  {
    && |pieces| == |drops|
    && (pieces != [] ==>
      && Repeats(prev, pieces[0], drops[0], limit, overlap)
      && ValidDrops(pieces[0], pieces[1..], drops[1..], limit, overlap))
  }

  function LastOr(prev: Words, pieces: seq<Words>): Words {
    if pieces == [] then prev else pieces[|pieces| - 1]
  }

  lemma {:induction false} ReassembleConcat(a: seq<Words>, da: seq<nat>, b: seq<Words>, db: seq<nat>)
    requires |a| == |da| && |b| == |db|
    ensures Reassemble(a + b, da + db) == Reassemble(a, da) + Reassemble(b, db)
    decreases |a|
  {
    hide Drop;
    if a == [] {
      assert a + b == b && da + db == db;
    } else {
      ReassembleConcat(a[1..], da[1..], b, db);
      assert (a + b)[1..] == a[1..] + b && (da + db)[1..] == da[1..] + db;
    }
  }

  lemma DropsCons(prev: Words, piece: Words, drop: nat, pieces: seq<Words>, drops: seq<nat>, limit: nat, overlap: nat)
    requires overlap < limit && Repeats(prev, piece, drop, limit, overlap)
    requires ValidDrops(piece, pieces, drops, limit, overlap)
    ensures ValidDrops(prev, [piece] + pieces, [drop] + drops, limit, overlap)
    ensures Reassemble([piece] + pieces, [drop] + drops) == Drop(piece, drop) + Reassemble(pieces, drops)
    ensures LastOr(prev, [piece] + pieces) == LastOr(piece, pieces)
  {
    hide Repeats, Drop;
    assert ([piece] + pieces)[1..] == pieces && ([drop] + drops)[1..] == drops;
  }

  lemma HeadFirst<T>(a: seq<T>, b: seq<T>)
    requires a != []
    ensures a + b == [a[0]] + (a[1..] + b)
  {
  }

  lemma DropsTail(prev: Words, pieces: seq<Words>, drops: seq<nat>, limit: nat, overlap: nat)
    requires overlap < limit && ValidDrops(prev, pieces, drops, limit, overlap)
    ensures pieces == [] ==> LastOr(prev, pieces) == prev
    ensures pieces != [] ==> Repeats(prev, pieces[0], drops[0], limit, overlap)
                             && ValidDrops(pieces[0], pieces[1..], drops[1..], limit, overlap)
                             && LastOr(prev, pieces) == LastOr(pieces[0], pieces[1..])
  {
    hide Repeats;
  }

  lemma {:induction false} DropsConcat(prev: Words, a: seq<Words>, da: seq<nat>, b: seq<Words>, db: seq<nat>, limit: nat, overlap: nat)
    requires overlap < limit
    requires ValidDrops(prev, a, da, limit, overlap) && ValidDrops(LastOr(prev, a), b, db, limit, overlap)
    ensures ValidDrops(prev, a + b, da + db, limit, overlap)
    decreases |a|
  {
    hide Repeats, ValidDrops, LastOr;
    DropsTail(prev, a, da, limit, overlap);
    if a == [] {
      assert a + b == b && da + db == db;
    } else {
      DropsConcat(a[0], a[1..], da[1..], b, db, limit, overlap);
      DropsCons(prev, a[0], da[0], a[1..] + b, da[1..] + db, limit, overlap);
      HeadFirst(a, b);
      HeadFirst(da, db);
    }
  }

  /** The window over one paragraph repeats exactly `overlap` words at every seam. */
  lemma {:induction false} SlideLosesNothing(prev: Words, drop: nat, words: Words, limit: nat, overlap: nat)
    returns (drops: seq<nat>, last: nat)
    requires overlap < limit && Repeats(prev, words, drop, limit, overlap)
    ensures var cut := Slide(words, limit, overlap);
            && ValidDrops(prev, cut.full, drops, limit, overlap)
            && Repeats(LastOr(prev, cut.full), cut.tail, last, limit, overlap)
            && Reassemble(cut.full, drops) + Drop(cut.tail, last) == Drop(words, drop)
    decreases |words|
  {
    hide ValidDrops, Drop, LastOr, Reassemble, Repeats;
    if |words| <= limit {
      drops, last := [], drop;
      NoPieces(prev, limit, overlap);
    } else {
      var full, rest := words[..limit], words[limit - overlap..];
      FullRepeats(prev, words, drop, limit, overlap);
      drops, last := SlideLosesNothing(full, overlap, rest, limit, overlap);
      DropsCons(prev, full, drop, Slide(rest, limit, overlap).full, drops, limit, overlap);
      drops := [drop] + drops;
      WindowSeam(words, drop, limit, overlap);
    }
  }

  lemma NoPieces(prev: Words, limit: nat, overlap: nat)
    requires overlap < limit
    ensures ValidDrops(prev, [], [], limit, overlap) && Reassemble([], []) == [] && LastOr(prev, []) == prev
  {
  }

  lemma FullRepeats(prev: Words, words: Words, drop: nat, limit: nat, overlap: nat)
    requires overlap < limit < |words| && Repeats(prev, words, drop, limit, overlap)
    ensures Repeats(prev, words[..limit], drop, limit, overlap) && drop <= overlap
    ensures Repeats(words[..limit], words[limit - overlap..], overlap, limit, overlap)
  {
    assert words[..limit][limit - overlap..] == words[limit - overlap..][..overlap];
    assert words[..limit][..overlap] == words[..overlap];
  }

  lemma WindowSeam(words: Words, drop: nat, limit: nat, overlap: nat)
    requires overlap < limit < |words| && drop <= overlap
    ensures Drop(words, drop) == Drop(words[..limit], drop) + Drop(words[limit - overlap..], overlap)
  {
  }

  /** Packing loses no word of the open piece or of the paragraphs to come. */
  lemma {:induction false} PackLosesNothing(prev: Words, drop: nat, current: Words, paragraphs: seq<Words>, limit: nat, overlap: nat)
    returns (drops: seq<nat>)
    requires overlap < limit && Repeats(prev, current, drop, limit, overlap)
    ensures var packed := Pack(current, paragraphs, limit, overlap);
            && ValidDrops(prev, packed, drops, limit, overlap)
            && Reassemble(packed, drops) == Drop(current, drop) + Flatten(paragraphs)
    decreases |paragraphs|
  {
    hide ValidDrops, Reassemble, LastOr, Repeats, Drop, Slide, Flush, Pack, Flatten;
    if paragraphs == [] {
      NoParagraphs(current, limit, overlap);
      drops := FlushLosesNothing(prev, drop, current, limit, overlap);
    } else {
      var words, rest := paragraphs[0], paragraphs[1..];
      FlattenFirst(paragraphs);
      PackFirst(current, words, rest, limit, overlap);
      if current != [] && |current| + |words| <= limit {
        ExtendPiece(prev, drop, current, words, limit, overlap);
        drops := PackLosesNothing(prev, drop, current + words, rest, limit, overlap);
      } else {
        var before := LastOr(prev, Flush(current));
        NoDrop(before, words, limit, overlap);
        var flushed := FlushLosesNothing(prev, drop, current, limit, overlap);
        var full, last := SlideLosesNothing(before, 0, words, limit, overlap);
        var cut := Slide(words, limit, overlap);
        var tail := PackLosesNothing(LastOr(before, cut.full), last, cut.tail, rest, limit, overlap);
        Regroup(Drop(current, drop), Reassemble(cut.full, full), Drop(cut.tail, last), Flatten(rest));
        JoinThree(prev, Flush(current), flushed, cut.full, full, Pack(cut.tail, rest, limit, overlap), tail, limit, overlap);
        drops := flushed + (full + tail);
      }
    }
  }

  lemma NoParagraphs(current: Words, limit: nat, overlap: nat)
    requires overlap < limit
    ensures Pack(current, [], limit, overlap) == Flush(current) && Flatten<string>([]) == []
  {
  }

  lemma FlattenFirst(paragraphs: seq<Words>)
    requires paragraphs != []
    ensures Flatten(paragraphs) == paragraphs[0] + Flatten(paragraphs[1..])
    ensures paragraphs == [paragraphs[0]] + paragraphs[1..]
  {
  }

  lemma Regroup(a: Words, b: Words, c: Words, d: Words)
    ensures a + b + (c + d) == a + ((b + c) + d)
  {
  }

  lemma NoDrop(prev: Words, words: Words, limit: nat, overlap: nat)
    requires overlap < limit
    ensures Repeats(prev, words, 0, limit, overlap) && Drop(words, 0) == words
  {
  }

  lemma ExtendPiece(prev: Words, drop: nat, current: Words, words: Words, limit: nat, overlap: nat)
    requires overlap < limit && Repeats(prev, current, drop, limit, overlap)
    ensures Repeats(prev, current + words, drop, limit, overlap)
    ensures Drop(current + words, drop) == Drop(current, drop) + words
  {
    if drop != 0 {
      assert (current + words)[..overlap] == current[..overlap];
    }
  }

  lemma JoinThree(prev: Words, a: seq<Words>, da: seq<nat>, b: seq<Words>, db: seq<nat>, c: seq<Words>, dc: seq<nat>, limit: nat, overlap: nat)
    requires overlap < limit
    requires ValidDrops(prev, a, da, limit, overlap) && ValidDrops(LastOr(prev, a), b, db, limit, overlap)
    requires ValidDrops(LastOr(LastOr(prev, a), b), c, dc, limit, overlap)
    ensures ValidDrops(prev, a + (b + c), da + (db + dc), limit, overlap)
    ensures Reassemble(a + (b + c), da + (db + dc)) == Reassemble(a, da) + Reassemble(b, db) + Reassemble(c, dc)
  {
    hide *;
    DropsConcat(LastOr(prev, a), b, db, c, dc, limit, overlap);
    DropsConcat(prev, a, da, b + c, db + dc, limit, overlap);
    ReassembleConcat(b, db, c, dc);
    ReassembleConcat(a, da, b + c, db + dc);
  }

  lemma FlushLosesNothing(prev: Words, drop: nat, current: Words, limit: nat, overlap: nat) returns (drops: seq<nat>)
    requires overlap < limit && Repeats(prev, current, drop, limit, overlap)
    ensures ValidDrops(prev, Flush(current), drops, limit, overlap)
    ensures Reassemble(Flush(current), drops) == Drop(current, drop)
  {
    drops := if current == [] then [] else [drop];
    DropsCons(prev, current, drop, [], [], limit, overlap);
    assert [current] + [] == [current] && [drop] + [] == [drop];
  }

  /** Each part that is not blank is one paragraph, with its words, in order; blank parts are none. */
  lemma {:induction false} ParagraphsAreParts(a: seq<string>, b: seq<string>)
    ensures ParagraphWords(a + b) == ParagraphWords(a) + ParagraphWords(b)
    ensures |a| == 1 ==> ParagraphWords(a) == if Tokens(a[0]) == [] then [] else [Tokens(a[0])]
    decreases |a|
  {
    hide Tokens, Strip;
    if a == [] {
      assert a + b == b;
    } else {
      TokensOfStrip(a[0]);
      ParagraphsAreParts(a[1..], b);
      assert (a + b)[1..] == a[1..] + b;
      assert |a| == 1 ==> a[1..] == [];
    }
  }

  lemma {:induction false} ParagraphsKeepTokens(parts: seq<string>)
    ensures Flatten(ParagraphWords(parts)) == Flatten(TokensOfEach(parts))
  {
    if parts != [] {
      ParagraphsKeepTokens(parts[1..]);
      TokensOfStrip(parts[0]);
      assert TokensOfEach(parts)[1..] == TokensOfEach(parts[1..]);
      if Strip(parts[0]) != "" {
        assert ParagraphWords(parts)[1..] == ParagraphWords(parts[1..]);
      }
    }
  }

  predicate GoodPiece(piece: Words, limit: nat) {
    AreWords(piece) && |piece| <= limit
  }

  predicate GoodPieces(pieces: seq<Words>, limit: nat) {
    forall i :: 0 <= i < |pieces| ==> GoodPiece(pieces[i], limit) && pieces[i] != []
  }

  lemma {:induction false} SlideBounds(words: Words, limit: nat, overlap: nat)
    requires overlap < limit && AreWords(words)
    ensures var cut := Slide(words, limit, overlap);
            && GoodPieces(cut.full, limit) && GoodPiece(cut.tail, limit)
            && (words != [] ==> cut.tail != [])
            && (|words| > limit ==> |cut.tail| > overlap)
    decreases |words|
  {
    if |words| > limit {
      SlideBounds(words[limit - overlap..], limit, overlap);
    }
  }

  lemma {:induction false} PackBounds(current: Words, paragraphs: seq<Words>, limit: nat, overlap: nat)
    requires overlap < limit && GoodPiece(current, limit)
    requires forall i :: 0 <= i < |paragraphs| ==> paragraphs[i] != [] && AreWords(paragraphs[i])
    ensures GoodPieces(Pack(current, paragraphs, limit, overlap), limit)
    ensures current != [] || paragraphs != [] ==> Pack(current, paragraphs, limit, overlap) != []
    decreases |paragraphs|
  {
    if paragraphs != [] {
      var words, rest := paragraphs[0], paragraphs[1..];
      if current != [] && |current| + |words| <= limit {
        PackBounds(current + words, rest, limit, overlap);
      } else {
        SlideBounds(words, limit, overlap);
        PackBounds(Slide(words, limit, overlap).tail, rest, limit, overlap);
      }
    }
  }

  lemma PrefixTokens(title: string)
    ensures Tokens(Prefix(title)) == Tokens(title)
    ensures Prefix(title) == "" || IsSpace(Prefix(title)[|Prefix(title)| - 1])
  {
    if title != "" {
      TokensConcat(title, "\n\n");
      assert Tokens("\n\n") == [];
    }
  }

  /** A chunk's text splits back into the title's tokens and the words of its piece. */
  lemma ChunkTextTokens(title: string, piece: Words)
    requires AreWords(piece)
    ensures Tokens(ChunkText(title, piece)) == Tokens(title) + piece
    ensures ChunkText(title, piece) == "" <==> Tokens(title) + piece == []
  {
    hide Strip, Join, Tokens;
    TokensOfStrip(Prefix(title) + Join(piece));
    TokensOfJoin(piece);
    PrefixTokens(title);
    TokensConcat(Prefix(title), Join(piece));
  }

  lemma {:induction false} NonBlankKeepsAll(chunks: seq<TextChunk>)
    requires forall i :: 0 <= i < |chunks| ==> chunks[i].text != ""
    ensures NonBlank(chunks) == chunks
  {
    hide NonBlank;
    if chunks == [] {
      NonBlankStep(chunks, 0);
    } else {
      var last := |chunks| - 1;
      NonBlankStep(chunks, last);
      NonBlankKeepsAll(chunks[..last]);
      assert chunks[..last + 1] == chunks;
    }
  }

  /** What success of `chunk_note` says about its arguments and its result. */
  lemma ChunkNoteSuccess(title: string, content: string, target: int, overlap: int)
    requires ChunkNote(title, content, target, overlap).Success?
    ensures 0 <= overlap < target - |Tokens(Strip(title))|
    ensures Strip(title) != "" || Strip(content) != ""
    ensures ChunkNote(title, content, target, overlap).value
            == Chunks(Strip(title), Strip(content), target - |Tokens(Strip(title))|, overlap) != []
  {
    hide Chunks, Strip, Tokens;
  }

  /** The pieces a note is cut into by `chunk_note`. */
  function NotePieces(title: string, content: string, target: int, overlap: int): seq<Words>
    requires ChunkNote(title, content, target, overlap).Success?
  {
    ChunkNoteSuccess(title, content, target, overlap);
    Pieces(Strip(content), target - |Tokens(Strip(title))|, overlap)
  }

  /** The shape of the chunks: one a piece, in order, none filtered away, within the target. */
  predicate WellShaped(chunks: seq<TextChunk>, pieces: seq<Words>, title: string, target: int) {
    && |chunks| == |pieces|
    && forall i :: 0 <= i < |chunks| ==> WellShapedChunk(chunks[i], i, pieces[i], title, target)
  }

  /** The stripped title, a blank line, and the words with single blanks between them. */
  function Rendered(title: string, piece: Words): string {
    if Strip(title) == "" then Join(piece)
    else if piece == [] then Strip(title)
    else Strip(title) + "\n\n" + Join(piece)
  }

  predicate WellShapedChunk(chunk: TextChunk, i: nat, piece: Words, title: string, target: int) {
    && chunk.ordinal == i
    && chunk.text != ""
    && chunk.text == Rendered(title, piece) && Tokens(chunk.text) == Tokens(title) + piece
    && chunk.tokenCount == |Tokens(chunk.text)|
    && 0 < chunk.tokenCount <= target
  }

  lemma ChunksWellShaped(title: string, content: string, target: int, overlap: int)
    requires ChunkNote(title, content, target, overlap).Success?
    ensures var chunks := ChunkNote(title, content, target, overlap).value;
            chunks != [] && WellShaped(chunks, NotePieces(title, content, target, overlap), title, target)
  {
    hide ChunkNote, Chunk, Strip, Tokens, Pieces, NonBlank, ChunkText, GoodPiece, AreWords;
    var heading, body := Strip(title), Strip(content);
    StripTrimmed(heading);
    ChunkNoteSuccess(title, content, target, overlap);
    TokensOfStrip(title);
    TokensOfStrip(content);
    var limit := target - |Tokens(heading)|;
    var pieces := Pieces(body, limit, overlap);
    PiecesBounds(body, limit, overlap);
    var numbered := Numbered(heading, pieces);
    forall i | 0 <= i < |pieces|
      ensures WellShapedChunk(numbered[i], i, pieces[i], heading, target)
    {
      ChunkWellShaped(heading, pieces[i], i, limit, target);
    }
    NonBlankKeepsAll(numbered);
  }

  lemma ChunkWellShaped(heading: string, piece: Words, i: nat, limit: nat, target: nat)
    requires GoodPiece(piece, limit) && limit + |Tokens(heading)| == target && Tokens(heading) + piece != []
    requires Trimmed(heading)
    ensures WellShapedChunk(Chunk(heading, piece, i), i, piece, heading, target)
  {
    hide Tokens, ChunkText;
    ChunkTextTokens(heading, piece);
    ChunkTextIsRendered(heading, piece);
  }

  lemma ChunkTextIsRendered(heading: string, piece: Words)
    requires Trimmed(heading) && AreWords(piece)
    ensures ChunkText(heading, piece) == Rendered(heading, piece)
  {
    hide Strip, Join, IsSpace;
    StripTrimmed(heading);
    JoinTrimmed(piece);
    if heading == "" {
      assert Prefix(heading) + Join(piece) == Join(piece);
      StripTrimmed(Join(piece));
    } else if piece == [] {
      assert heading + "\n\n" + Join(piece) == heading + "\n\n";
      StripBlankLine(heading);
    } else {
      StripTrimmed(heading + "\n\n" + Join(piece));
    }
  }

  lemma {:induction false} JoinTrimmed(piece: Words)
    requires AreWords(piece)
    ensures Trimmed(Join(piece)) && (piece != [] ==> Join(piece) != "") && (piece == [] ==> Join(piece) == "")
  {
    hide IsSpace;
    if |piece| > 1 {
      JoinTrimmed(piece[1..]);
      assert IsWord(piece[0]);
    }
  }

  lemma StripBlankLine(heading: string)
    requires Trimmed(heading) && heading != ""
    ensures Strip(heading + "\n\n") == heading
  {
    hide IsSpace;
    NewlineIsSpace();
    var s := heading + "\n\n";
    assert s[..|s| - 1] == heading + "\n" && (heading + "\n")[..|heading|] == heading;
    assert RStrip(s) == RStrip(heading + "\n") == RStrip(heading) == heading;
  }

  /** `chunk_note` raises exactly on a note without tokens, a bad configuration, or a title that leaves too little room. */
  lemma ChunkNoteRaisesExactly(title: string, content: string, target: int, overlap: int)
    ensures ChunkNote(title, content, target, overlap).Success? <==>
            && (Tokens(title) != [] || Tokens(content) != [])
            && 0 <= overlap < target - |Tokens(title)|
    ensures ChunkNote(title, content, target, overlap) == Failure(EmptyNote) <==> Tokens(title) == [] && Tokens(content) == []
    ensures ChunkNote(title, content, target, overlap) == Failure(InvalidConfiguration) <==>
            (Tokens(title) != [] || Tokens(content) != []) && !(0 <= overlap < target)
  {
    hide Tokens, Chunks, Strip;
    TokensOfStrip(title);
    TokensOfStrip(content);
    var heading, body := Strip(title), Strip(content);
    var limit := target - |Tokens(heading)|;
    if 0 <= overlap < limit && (Tokens(heading) != [] || Tokens(body) != []) {
      ChunksNeverEmpty(heading, body, limit, overlap);
    }
  }

  lemma ChunksNeverEmpty(heading: string, body: string, limit: nat, overlap: nat)
    requires overlap < limit && (Tokens(heading) != [] || Tokens(body) != [])
    ensures Chunks(heading, body, limit, overlap) != []
  {
    hide Tokens, ChunkText, Pieces, NonBlank;
    var pieces := Pieces(body, limit, overlap);
    PiecesBounds(body, limit, overlap);
    var numbered := Numbered(heading, pieces);
    forall i | 0 <= i < |pieces|
      ensures numbered[i].text != ""
    {
      ChunkTextTokens(heading, pieces[i]);
    }
    NonBlankKeepsAll(numbered);
  }

  lemma PiecesBounds(content: string, limit: nat, overlap: nat)
    requires overlap < limit
    ensures var pieces := Pieces(content, limit, overlap);
            forall i :: 0 <= i < |pieces| ==> GoodPiece(pieces[i], limit) && (Tokens(content) != [] ==> pieces[i] != [])
  {
    hide Tokens, SplitBlank, ParagraphWords;
    var paragraphs := ParagraphWords(SplitBlank(content));
    PackBounds([], paragraphs, limit, overlap);
    ParagraphsKeepTokens(SplitBlank(content));
    SplitBlankKeepsTokens(content);
  }

  lemma PiecesLoseNothing(body: string, limit: nat, overlap: nat) returns (drops: seq<nat>)
    requires overlap < limit
    ensures ValidDrops([], Pieces(body, limit, overlap), drops, limit, overlap)
    ensures Reassemble(Pieces(body, limit, overlap), drops) == Tokens(body)
  {
    hide Tokens, SplitBlank, ParagraphWords, Pack;
    var paragraphs := ParagraphWords(SplitBlank(body));
    ParagraphsKeepTokens(SplitBlank(body));
    SplitBlankKeepsTokens(body);
    drops := PackLosesNothing([], 0, [], paragraphs, limit, overlap);
    if Pack([], paragraphs, limit, overlap) == [] {
      drops := [0];
      assert Reassemble([[]], [0]) == [];
    }
  }

  /**
   Chunking loses nothing and repeats only overlaps: dropping from every chunk either nothing or
   exactly the last `overlap` words of the full chunk before it leaves the words of the content.
   */
  lemma ChunkingLosesNothing(title: string, content: string, target: int, overlap: int) returns (drops: seq<nat>)
    requires ChunkNote(title, content, target, overlap).Success?
    ensures var pieces := NotePieces(title, content, target, overlap);
            && ValidDrops([], pieces, drops, target - |Tokens(Strip(title))|, overlap)
            && Reassemble(pieces, drops) == Tokens(content)
  {
    hide ChunkNote, Strip, Tokens, Pieces, ValidDrops, Reassemble;
    ChunkNoteSuccess(title, content, target, overlap);
    TokensOfStrip(content);
    drops := PiecesLoseNothing(Strip(content), target - |Tokens(Strip(title))|, overlap);
  }

  /** The paragraph stands, in one stretch, at this place of this piece. */
  predicate LiesIn(paragraph: Words, pieces: seq<Words>, i: nat, at: nat) {
    i < |pieces| && at + |paragraph| <= |pieces[i]| && pieces[i][at..at + |paragraph|] == paragraph
  }

  /** A paragraph that fits into one chunk is never torn apart: it lies inside one piece. */
  lemma {:induction false} PackKeepsParagraph(current: Words, paragraphs: seq<Words>, k: nat, limit: nat, overlap: nat)
    returns (i: nat, at: nat)
    requires overlap < limit && k < |paragraphs| && 0 < |paragraphs[k]| <= limit
    ensures LiesIn(paragraphs[k], Pack(current, paragraphs, limit, overlap), i, at)
    decreases |paragraphs|
  {
    hide Pack, Slide, Flush, LiesIn;
    var words, rest := paragraphs[0], paragraphs[1..];
    FlattenFirst(paragraphs);
    PackFirst(current, words, rest, limit, overlap);
    if current != [] && |current| + |words| <= limit {
      if k == 0 {
        OpenPieceFirst(current + words, rest, limit, overlap);
        LiesInFirst(current, words, Pack(current, paragraphs, limit, overlap));
        i, at := 0, |current|;
      } else {
        i, at := PackKeepsParagraph(current + words, rest, k - 1, limit, overlap);
      }
    } else {
      var cut := Slide(words, limit, overlap);
      var after := Pack(cut.tail, rest, limit, overlap);
      if k == 0 {
        SlideShort(words, limit, overlap);
        OpenPieceFirst(words, rest, limit, overlap);
        LiesInFirst([], words, after);
        i, at := 0, 0;
      } else {
        i, at := PackKeepsParagraph(cut.tail, rest, k - 1, limit, overlap);
      }
      LiesInLater(paragraphs[k], cut.full, after, i, at);
      LiesInLater(paragraphs[k], Flush(current), cut.full + after, |cut.full| + i, at);
      i := |Flush(current)| + (|cut.full| + i);
    }
  }

  lemma SlideShort(words: Words, limit: nat, overlap: nat)
    requires overlap < limit && |words| <= limit
    ensures Slide(words, limit, overlap) == Cut([], words)
  {
  }

  lemma LiesInFirst(a: Words, b: Words, pieces: seq<Words>)
    requires pieces != [] && a + b <= pieces[0]
    ensures LiesIn(b, pieces, 0, |a|)
  {
    assert pieces[0][|a|..|a| + |b|] == (a + b)[|a|..];
  }

  lemma LiesInLater(paragraph: Words, before: seq<Words>, after: seq<Words>, i: nat, at: nat)
    requires LiesIn(paragraph, after, i, at)
    ensures LiesIn(paragraph, before + after, |before| + i, at)
  {
    assert (before + after)[|before| + i] == after[i];
  }

  lemma {:induction false} OpenPieceFirst(current: Words, paragraphs: seq<Words>, limit: nat, overlap: nat)
    requires overlap < limit && current != []
    ensures var packed := Pack(current, paragraphs, limit, overlap); packed != [] && current <= packed[0]
    decreases |paragraphs|
  {
    if paragraphs != [] && |current| + |paragraphs[0]| <= limit {
      OpenPieceFirst(current + paragraphs[0], paragraphs[1..], limit, overlap);
    }
  }

  lemma ParagraphsKeptWhole(title: string, content: string, target: int, overlap: int, k: nat) returns (i: nat, at: nat)
    requires ChunkNote(title, content, target, overlap).Success?
    requires k < |ParagraphWords(SplitBlank(Strip(content)))|
    requires |ParagraphWords(SplitBlank(Strip(content)))[k]| <= target - |Tokens(Strip(title))|
    ensures var words := ParagraphWords(SplitBlank(Strip(content)))[k];
            LiesIn(words, NotePieces(title, content, target, overlap), i, at)
  {
    hide ChunkNote, Strip, Tokens, SplitBlank, ParagraphWords, Pack;
    ChunkNoteSuccess(title, content, target, overlap);
    i, at := PackKeepsParagraph([], ParagraphWords(SplitBlank(Strip(content))), k, target - |Tokens(Strip(title))|, overlap);
  }

  lemma CeilStep(x: nat, step: nat)
    requires step > 0 && x > 0
    ensures (x + step + step - 1) / step == 1 + (x + step - 1) / step
  {
    DivModUnique(x + step + step - 1, step, 1 + (x + step - 1) / step, (x + step - 1) % step);
  }

  lemma DivModUnique(n: nat, d: nat, q: nat, r: nat)
    requires d > 0 && r < d && n == q * d + r
    ensures n / d == q
  {
    var e := n / d;
    assert n == e * d + n % d;
    if e < q {
      MulMonotone(e + 1, q, d);
    } else {
      MulMonotone(q, e, d);
      if q < e {
        MulMonotone(q + 1, e, d);
      }
    }
  }

  lemma MulMonotone(a: nat, b: nat, d: nat)
    requires a <= b
    ensures a * d <= b * d
  {
  }

  /** A paragraph of L > limit words is cut into exactly 1 + ceil((L - limit) / (limit - overlap)) pieces. */
  lemma {:induction false} SlideCount(words: Words, limit: nat, overlap: nat)
    requires overlap < limit < |words|
    ensures var step := limit - overlap;
            |Slide(words, limit, overlap).full| == (|words| - limit + step - 1) / step
    decreases |words|
  {
    var step := limit - overlap;
    var rest := words[step..];
    var x := |words| - limit;
    if |rest| <= limit {
      assert (x + step - 1) == 1 * step + (x - 1);
      assert (x + step - 1) / step == 1 by { DivIsOne(x, step); }
    } else {
      SlideCount(rest, limit, overlap);
      CeilStep(x - step, step);
    }
  }

  lemma DivIsOne(x: nat, step: nat)
    requires 0 < x <= step
    ensures (x + step - 1) / step == 1
  {
  }

  lemma OversizedParagraphCount(title: string, content: string, target: int, overlap: int)
    requires ChunkNote(title, content, target, overlap).Success?
    requires |ParagraphWords(SplitBlank(Strip(content)))| == 1
    ensures var words := |Tokens(content)|;
            var limit := target - |Tokens(Strip(title))|;
            |ChunkNote(title, content, target, overlap).value|
            == if words <= limit then 1 else 1 + (words - limit + (limit - overlap) - 1) / (limit - overlap)
  {
    hide ChunkNote, Strip, Tokens, SplitBlank, ParagraphWords, WellShapedChunk, AreWords, GoodPieces, GoodPiece, Slide;
    ChunkNoteSuccess(title, content, target, overlap);
    ChunksWellShaped(title, content, target, overlap);
    var paragraphs := ParagraphWords(SplitBlank(Strip(content)));
    var words := paragraphs[0];
    var limit := target - |Tokens(Strip(title))|;
    TokensOfStrip(content);
    ParagraphsKeepTokens(SplitBlank(Strip(content)));
    SplitBlankKeepsTokens(Strip(content));
    assert Flatten(paragraphs) == words + Flatten(paragraphs[1..]);
    SlideBounds(words, limit, overlap);
    SlideCounts(words, limit, overlap);
    var cut := Slide(words, limit, overlap);
    assert Pack([], paragraphs, limit, overlap) == Flush([]) + (cut.full + Pack(cut.tail, paragraphs[1..], limit, overlap));
  }

  lemma SlideCounts(words: Words, limit: nat, overlap: nat)
    requires overlap < limit
    ensures |words| <= limit ==> Slide(words, limit, overlap).full == []
    ensures |words| > limit ==> |Slide(words, limit, overlap).full| == (|words| - limit + (limit - overlap) - 1) / (limit - overlap)
  {
    if |words| > limit {
      SlideCount(words, limit, overlap);
    }
  }
}
