/**
 Where `chunk_note` puts every word, said without its loops: which paragraphs share a chunk, where a new
 chunk begins, and where the window cuts a paragraph that is too long. The pieces are determined by this.
 */
module Placement {
  import opened Wrappers
  import opened Text
  import opened Chunker
  import opened ChunkLaws

  /** Where a paragraph ends: the piece, and how many words of it are taken by then. */
  datatype Place = Place(piece: nat, words: nat)

  /** The i-th cut of the paragraph: exactly `limit` words, `limit - overlap` words after the cut before. */
  predicate CutAt(p: Words, first: nat, i: nat, pieces: seq<Words>, limit: nat, overlap: nat)
    requires overlap < limit
  {
    var from := i * (limit - overlap);
    first + i < |pieces| && 0 <= from <= from + limit <= |p| && pieces[first + i] == p[from..from + limit]
  }

  /**
   The window over one paragraph, from the first piece it has for itself: each cut has exactly `limit`
   words and begins `limit - overlap` words after the one before, the rest is the first that fits.
   */
  predicate Windowed(p: Words, first: nat, end: Place, pieces: seq<Words>, limit: nat, overlap: nat)
    requires overlap < limit
  {
    && first <= end.piece < |pieces|
    && var step, cuts := limit - overlap, end.piece - first;
    && (forall i :: 0 <= i < cuts ==> CutAt(p, first, i, pieces, limit, overlap))
    && 0 <= cuts * step <= |p| && end.words == |p| - cuts * step <= limit
    && end.words <= |pieces[end.piece]| && pieces[end.piece][..end.words] == p[cuts * step..]
    && (cuts > 0 ==> end.words + step > limit)
  }

  /** The paragraph joins the open piece exactly if it fits there; otherwise that piece is closed and the window begins a new one. */
  predicate PlacedAfter(before: Place, p: Words, end: Place, pieces: seq<Words>, limit: nat, overlap: nat)
    requires overlap < limit
  {
    if before.words > 0 && before.words + |p| <= limit then
      && end == Place(before.piece, before.words + |p|)
      && end.piece < |pieces| && end.words <= |pieces[end.piece]| && pieces[end.piece][before.words..end.words] == p
    else
      && (before.words > 0 ==> before.piece < |pieces| && |pieces[before.piece]| == before.words)
      && Windowed(p, if before.words > 0 then before.piece + 1 else before.piece, end, pieces, limit, overlap)
  }

  /** Every paragraph in its place after this one, and nothing after the last. */
  predicate Placed(before: Place, paragraphs: seq<Words>, ends: seq<Place>, pieces: seq<Words>, limit: nat, overlap: nat)
    requires overlap < limit
    decreases |paragraphs|
  {
    && |ends| == |paragraphs|
    && if paragraphs == [] then
         if before.words == 0 then pieces == [] else |pieces| == before.piece + 1 && |pieces[before.piece]| == before.words
       else
         PlacedAfter(before, paragraphs[0], ends[0], pieces, limit, overlap) && Placed(ends[0], paragraphs[1..], ends[1..], pieces, limit, overlap)
  }

  /** The window's cuts lie `limit - overlap` words apart, and it stops as soon as the rest fits. */
  lemma {:induction false} SlideCuts(words: Words, limit: nat, overlap: nat)
    requires overlap < limit
    ensures var cut, step := Slide(words, limit, overlap), limit - overlap;
            && (forall i :: 0 <= i < |cut.full| ==> CutAt(words, 0, i, cut.full, limit, overlap))
            && 0 <= |cut.full| * step <= |words| && cut.tail == words[|cut.full| * step..] && |cut.tail| <= limit
            && (cut.full != [] ==> |cut.tail| + step > limit)
    decreases |words|
  {
    if |words| > limit {
      var step := limit - overlap;
      var rest, cut, inner := words[step..], Slide(words, limit, overlap), Slide(words[step..], limit, overlap);
      SlideCuts(rest, limit, overlap);
      forall i | 0 <= i < |cut.full| ensures CutAt(words, 0, i, cut.full, limit, overlap) {
        if i > 0 {
          Shift(i, step);
          assert CutAt(rest, 0, i - 1, inner.full, limit, overlap) && cut.full[i] == inner.full[i - 1];
        }
      }
      Shift(|cut.full|, step);
    }
  }

  lemma Shift(i: nat, step: nat)
    requires i > 0
    ensures i * step == (i - 1) * step + step
  {
  }

  /** Each cut of a paragraph is followed by a piece that begins with its last `overlap` words. */
  lemma SeamsRepeatOverlap(p: Words, first: nat, end: Place, pieces: seq<Words>, limit: nat, overlap: nat, i: nat)
    requires overlap < limit && Windowed(p, first, end, pieces, limit, overlap) && i < end.piece - first
    ensures |pieces[first + i]| == limit && overlap <= |pieces[first + i + 1]|
    ensures pieces[first + i + 1][..overlap] == pieces[first + i][limit - overlap..]
  {
    var step := limit - overlap;
    Shift(i + 1, step);
    assert CutAt(p, first, i, pieces, limit, overlap);
    assert pieces[first + i][step..] == p[i * step + step..i * step + limit];
    if i + 1 < end.piece - first {
      assert CutAt(p, first, i + 1, pieces, limit, overlap);
    } else {
      assert pieces[end.piece][..end.words][..overlap] == pieces[end.piece][..overlap];
    }
  }

  function Moved(ends: seq<Place>, m: nat): (r: seq<Place>)
    ensures |r| == |ends| && forall k :: 0 <= k < |r| ==> r[k] == Later(ends[k], m)
  {
    seq(|ends|, k requires 0 <= k < |ends| => Later(ends[k], m))
  }

  function Later(place: Place, m: nat): Place {
    Place(place.piece + m, place.words)
  }

  /** Pieces put in front move every place. */
  lemma WindowedLater(p: Words, first: nat, end: Place, pieces: seq<Words>, front: seq<Words>, limit: nat, overlap: nat)
    requires overlap < limit && Windowed(p, first, end, pieces, limit, overlap)
    ensures Windowed(p, first + |front|, Later(end, |front|), front + pieces, limit, overlap)
  {
    hide CutAt;
    var later, all := first + |front|, front + pieces;
    forall i | 0 <= i < end.piece - first ensures CutAt(p, later, i, all, limit, overlap) {
      CutLater(p, first, i, pieces, front, limit, overlap);
    }
    assert (front + pieces)[|front| + end.piece] == pieces[end.piece];
  }

  lemma CutLater(p: Words, first: nat, i: nat, pieces: seq<Words>, front: seq<Words>, limit: nat, overlap: nat)
    requires overlap < limit && CutAt(p, first, i, pieces, limit, overlap)
    ensures CutAt(p, first + |front|, i, front + pieces, limit, overlap)
  {
    assert (front + pieces)[|front| + (first + i)] == pieces[first + i];
  }

  lemma PlacedLater(before: Place, p: Words, end: Place, pieces: seq<Words>, front: seq<Words>, limit: nat, overlap: nat)
    requires overlap < limit && before.words > 0 && p != [] && PlacedAfter(before, p, end, pieces, limit, overlap)
    ensures PlacedAfter(Later(before, |front|), p, Later(end, |front|), front + pieces, limit, overlap) && end.words > 0
  {
    hide Windowed;
    if before.words + |p| > limit {
      WindowedLater(p, before.piece + 1, end, pieces, front, limit, overlap);
      WindowedIsOpen(p, before.piece + 1, end, pieces, limit, overlap);
      assert (front + pieces)[|front| + before.piece] == pieces[before.piece];
    } else {
      assert (front + pieces)[|front| + end.piece] == pieces[end.piece];
    }
  }

  lemma WindowedIsOpen(p: Words, first: nat, end: Place, pieces: seq<Words>, limit: nat, overlap: nat)
    requires overlap < limit && p != [] && Windowed(p, first, end, pieces, limit, overlap)
    ensures end.words > 0
  {
  }

  lemma {:induction false} AllLater(before: Place, paragraphs: seq<Words>, ends: seq<Place>, pieces: seq<Words>, front: seq<Words>, limit: nat, overlap: nat)
    requires overlap < limit && before.words > 0 && forall k :: 0 <= k < |paragraphs| ==> paragraphs[k] != []
    requires Placed(before, paragraphs, ends, pieces, limit, overlap)
    ensures Placed(Later(before, |front|), paragraphs, Moved(ends, |front|), front + pieces, limit, overlap)
    decreases |paragraphs|
  {
    hide PlacedAfter;
    if paragraphs == [] {
      assert (front + pieces)[|front| + before.piece] == pieces[before.piece];
    } else {
      PlacedLater(before, paragraphs[0], ends[0], pieces, front, limit, overlap);
      AllLater(ends[0], paragraphs[1..], ends[1..], pieces, front, limit, overlap);
      assert Moved(ends, |front|)[1..] == Moved(ends[1..], |front|);
    }
  }

  lemma PlacedCons(before: Place, p: Words, rest: seq<Words>, end: Place, later: seq<Place>, pieces: seq<Words>, limit: nat, overlap: nat)
    requires overlap < limit && PlacedAfter(before, p, end, pieces, limit, overlap) && Placed(end, rest, later, pieces, limit, overlap)
    ensures Placed(before, [p] + rest, [end] + later, pieces, limit, overlap)
  {
    hide PlacedAfter;
    assert ([p] + rest)[1..] == rest && ([end] + later)[1..] == later;
  }

  /** The packing loop puts every paragraph in its place. */
  lemma {:induction false} PackPlaces(current: Words, paragraphs: seq<Words>, limit: nat, overlap: nat) returns (ends: seq<Place>)
    requires overlap < limit && forall k :: 0 <= k < |paragraphs| ==> paragraphs[k] != []
    ensures var pieces := Pack(current, paragraphs, limit, overlap);
            && Placed(Place(0, |current|), paragraphs, ends, pieces, limit, overlap)
            && (current != [] ==> pieces != [] && current <= pieces[0])
    decreases |paragraphs|
  {
    hide Pack, Slide, PlacedAfter;
    if paragraphs == [] {
      NoParagraphs(current, limit, overlap);
      ends := [];
    } else {
      var p, rest := paragraphs[0], paragraphs[1..];
      var packed := Pack(current, paragraphs, limit, overlap);
      FlattenFirst(paragraphs);
      PackFirst(current, p, rest, limit, overlap);
      if current != [] && |current| + |p| <= limit {
        var later := PackPlaces(current + p, rest, limit, overlap);
        var end := Place(0, |current| + |p|);
        JoinPlaced(current, p, packed, limit, overlap);
        PlacedCons(Place(0, |current|), p, rest, end, later, packed, limit, overlap);
        ends := [end] + later;
      } else {
        var cut := Slide(p, limit, overlap);
        TailIsThere(p, limit, overlap);
        var later := PackPlaces(cut.tail, rest, limit, overlap);
        var front, after := Flush(current) + cut.full, Pack(cut.tail, rest, limit, overlap);
        var end := Place(|front|, |cut.tail|);
        assert packed == front + after;
        WindowOpens(current, p, after, limit, overlap);
        AllLater(Place(0, |cut.tail|), rest, later, after, front, limit, overlap);
        PlacedCons(Place(0, |current|), p, rest, end, Moved(later, |front|), packed, limit, overlap);
        ends := [end] + Moved(later, |front|);
      }
    }
  }

  lemma {:induction false} TailIsThere(p: Words, limit: nat, overlap: nat)
    requires overlap < limit && p != []
    ensures Slide(p, limit, overlap).tail != []
    decreases |p|
  {
    if |p| > limit { TailIsThere(p[limit - overlap..], limit, overlap); }
  }

  lemma JoinPlaced(current: Words, p: Words, packed: seq<Words>, limit: nat, overlap: nat)
    requires overlap < limit && current != [] && |current| + |p| <= limit && packed != [] && current + p <= packed[0]
    ensures PlacedAfter(Place(0, |current|), p, Place(0, |current| + |p|), packed, limit, overlap) && current <= packed[0]
  {
    hide Windowed;
    assert packed[0][|current|..|current| + |p|] == (current + p)[|current|..];
  }

  lemma WindowOpens(current: Words, p: Words, after: seq<Words>, limit: nat, overlap: nat)
    requires overlap < limit && !(current != [] && |current| + |p| <= limit)
    requires after != [] && Slide(p, limit, overlap).tail <= after[0]
    ensures var cut := Slide(p, limit, overlap);
            var front := Flush(current) + cut.full;
            && PlacedAfter(Place(0, |current|), p, Place(|front|, |cut.tail|), front + after, limit, overlap)
            && (current != [] ==> current <= (front + after)[0])
  {
    hide Slide, Windowed;
    var cut := Slide(p, limit, overlap);
    WindowedFirst(p, after, limit, overlap);
    WindowedLater(p, 0, Place(|cut.full|, |cut.tail|), cut.full + after, Flush(current), limit, overlap);
    assert Flush(current) + (cut.full + after) == Flush(current) + cut.full + after;
  }

  lemma WindowedFirst(p: Words, after: seq<Words>, limit: nat, overlap: nat)
    requires overlap < limit && after != [] && Slide(p, limit, overlap).tail <= after[0]
    ensures var cut := Slide(p, limit, overlap);
            Windowed(p, 0, Place(|cut.full|, |cut.tail|), cut.full + after, limit, overlap)
  {
    hide Slide;
    var cut := Slide(p, limit, overlap);
    SlideCuts(p, limit, overlap);
    forall i | 0 <= i < |cut.full| ensures CutAt(p, 0, i, cut.full + after, limit, overlap) {
      assert CutAt(p, 0, i, cut.full, limit, overlap);
    }
  }

  /**
   The pieces of a note: each paragraph of its content joins the piece the one before it ends in exactly
   if it fits there, and else begins a new one, cut by the window if it is too long; a note without
   content has one empty piece.
   */
  lemma NoteIsPlaced(title: string, content: string, target: int, overlap: int) returns (ends: seq<Place>)
    requires ChunkNote(title, content, target, overlap).Success?
    ensures var pieces, paragraphs := NotePieces(title, content, target, overlap), ParagraphWords(SplitBlank(Strip(content)));
            var limit := target - |Tokens(Strip(title))|;
            && 0 <= overlap < limit
            && if paragraphs == [] then pieces == [[]] else Placed(Place(0, 0), paragraphs, ends, pieces, limit, overlap)
  {
    hide ChunkNote, Strip, Tokens, SplitBlank, ParagraphWords, Pack, Placed;
    ChunkNoteSuccess(title, content, target, overlap);
    var paragraphs := ParagraphWords(SplitBlank(Strip(content)));
    var limit := target - |Tokens(Strip(title))|;
    ends := PackPlaces([], paragraphs, limit, overlap);
    PackOfSome(paragraphs, limit, overlap);
  }

  lemma PackOfSome(paragraphs: seq<Words>, limit: nat, overlap: nat)
    requires overlap < limit && forall k :: 0 <= k < |paragraphs| ==> paragraphs[k] != [] && AreWords(paragraphs[k])
    ensures Pack([], paragraphs, limit, overlap) == [] <==> paragraphs == []
  {
    PackBounds([], paragraphs, limit, overlap);
  }
}
