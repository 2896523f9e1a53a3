/**
 Python string operations the indexing, prompt and validation code rests on:
 `str.isspace`, `str.strip`, `str.split()`, `str.split("\n\n")` and `" ".join`.
 A token is a maximal run of non-whitespace characters.
 */
module Text {

  /** The characters for which Python's `str.isspace` answers True. */
  predicate IsSpace(c: char) {
    || '\t' <= c <= '\r'
    || '\U{1C}' <= c <= ' '
    || c == '\U{85}' || c == '\U{A0}' || c == '\U{1680}'
    || '\U{2000}' <= c <= '\U{200A}'
    || c == '\U{2028}' || c == '\U{2029}' || c == '\U{202F}' || c == '\U{205F}' || c == '\U{3000}'
  }

  predicate IsWord(w: string) {
    w != [] && forall i :: 0 <= i < |w| ==> !IsSpace(w[i])
  }

  predicate AreWords(ws: seq<string>) {
    forall i :: 0 <= i < |ws| ==> IsWord(ws[i])
  }

  /** `s.split()` */
  function Tokens(s: string): (r: seq<string>)
    ensures s != [] && !IsSpace(s[0]) ==> r != []
    ensures AreWords(r)
  {
    if s == [] then []
    else if IsSpace(s[0]) then Tokens(s[1..])
    else if |s| == 1 || IsSpace(s[1]) then [[s[0]]] + Tokens(s[1..])
    else
      var r := Tokens(s[1..]);
      [[s[0]] + r[0]] + r[1..]
  }

  /** `" ".join(ws)` */
  function Join(ws: seq<string>): string {
    if ws == [] then ""
    else if |ws| == 1 then ws[0]
    else ws[0] + " " + Join(ws[1..])
  }

  function LStrip(s: string): (r: string)
    ensures |r| <= |s|
    ensures r == [] || !IsSpace(r[0])
  {
    if s == [] || !IsSpace(s[0]) then s else LStrip(s[1..])
  }

  function RStrip(s: string): (r: string)
    ensures r <= s
    ensures r == [] || !IsSpace(r[|r| - 1])
  {
    if s == [] || !IsSpace(s[|s| - 1]) then s else RStrip(s[..|s| - 1])
  }

  /** `s.strip()` */
  function Strip(s: string): (r: string)
    ensures |r| <= |s|
    ensures Trimmed(r)
  {
    RStrip(LStrip(s))
  }

  predicate Trimmed(s: string) {
    s == [] || (!IsSpace(s[0]) && !IsSpace(s[|s| - 1]))
  }

  /** `s.split("\n\n")`: leftmost, non-overlapping separators. */
  function SplitBlank(s: string): (r: seq<string>)
    ensures r != []
  {
    if |s| < 2 then [s]
    else if s[0] == '\n' && s[1] == '\n' then [""] + SplitBlank(s[2..])
    else
      var r := SplitBlank(s[1..]);
      [[s[0]] + r[0]] + r[1..]
  }

  function Flatten<T>(xs: seq<seq<T>>): seq<T> {
    if xs == [] then [] else xs[0] + Flatten(xs[1..])
  }

  /** The token lists of the parts, in order. */
  function TokensOfEach(parts: seq<string>): (r: seq<seq<string>>)
    ensures |r| == |parts|
    ensures forall i :: 0 <= i < |r| ==> r[i] == Tokens(parts[i])
  {
    if parts == [] then [] else [Tokens(parts[0])] + TokensOfEach(parts[1..])
  }

  /** Whitespace at the seam separates the tokens of two strings exactly. */
  lemma {:induction false} TokensConcat(a: string, b: string)
    requires a == [] || b == [] || IsSpace(a[|a| - 1]) || IsSpace(b[0])
    ensures Tokens(a + b) == Tokens(a) + Tokens(b)
  {
    hide IsSpace;
    if a == [] {
      assert a + b == b;
    } else if b == [] {
      assert a + b == a;
    } else {
      assert (a + b)[1..] == a[1..] + b;
      TokensConcat(a[1..], b);
    }
  }

  /** Joining two strings never creates tokens. */
  lemma {:induction false} TokensSubadditive(a: string, b: string)
    ensures |Tokens(a + b)| <= |Tokens(a)| + |Tokens(b)|
  {
    if a == [] {
      assert a + b == b;
    } else {
      assert (a + b)[1..] == a[1..] + b;
      TokensSubadditive(a[1..], b);
    }
  }

  /** Tokens need separators between them, so a string of n characters has at most (n+1)/2. */
  lemma {:induction false} TokensAtMostHalf(s: string)
    ensures |Tokens(s)| <= (|s| + 1) / 2
  {
    if |s| >= 2 {
      TokensAtMostHalf(s[1..]);
      if IsSpace(s[1]) {
        TokensAtMostHalf(s[2..]);
        assert s[1..][1..] == s[2..];
      }
    }
  }

  lemma {:induction false} TokensOfUnspaced(s: string)
    requires forall i :: 0 <= i < |s| ==> !IsSpace(s[i])
    ensures Tokens(s) == if s == [] then [] else [s]
  {
    hide IsSpace, Tokens;
    TokensStep(s);
    if |s| == 1 {
      TokensStep(s[1..]);
      assert s == [s[0]];
    } else if |s| > 1 {
      TokensOfUnspaced(s[1..]);
      assert s == [s[0]] + s[1..];
    }
  }

  /** The tokens of a string by those of the string without its first character. */
  lemma TokensStep(s: string)
    ensures s == [] ==> Tokens(s) == []
    ensures s != [] && IsSpace(s[0]) ==> Tokens(s) == Tokens(s[1..])
    ensures s != [] && !IsSpace(s[0]) && (|s| == 1 || IsSpace(s[1])) ==> Tokens(s) == [[s[0]]] + Tokens(s[1..])
    ensures |s| > 1 && !IsSpace(s[0]) && !IsSpace(s[1]) ==>
              Tokens(s[1..]) != [] && Tokens(s) == [[s[0]] + Tokens(s[1..])[0]] + Tokens(s[1..])[1..]
  {
    hide IsSpace;
  }

  /** `" ".join(ws).split() == ws` for every list of words. */
  lemma {:induction false} TokensOfJoin(ws: seq<string>)
    requires AreWords(ws)
    ensures Tokens(Join(ws)) == ws
  {
    if ws == [] {
    } else {
      TokensOfUnspaced(ws[0]);
      if |ws| > 1 {
        TokensOfJoin(ws[1..]);
        TokensConcat(ws[0] + " ", Join(ws[1..]));
        TokensConcat(ws[0], " ");
      }
    }
  }

  lemma {:induction false} TokensOfLStrip(s: string)
    ensures Tokens(LStrip(s)) == Tokens(s)
  {
    if s != [] && IsSpace(s[0]) {
      TokensOfLStrip(s[1..]);
    }
  }

  lemma {:induction false} TokensOfRStrip(s: string)
    ensures Tokens(RStrip(s)) == Tokens(s)
  {
    if s != [] && IsSpace(s[|s| - 1]) {
      var t, c := s[..|s| - 1], s[|s| - 1..];
      TokensOfRStrip(t);
      assert s == t + c;
      TokensConcat(t, c);
      assert Tokens(c) == [];
    }
  }

  /** Stripping changes no token, and leaves nothing exactly when there is no token. */
  lemma TokensOfStrip(s: string)
    ensures Tokens(Strip(s)) == Tokens(s)
    ensures Strip(s) == [] <==> Tokens(s) == []
  {
    TokensOfLStrip(s);
    TokensOfRStrip(LStrip(s));
  }

  /** Splitting on blank lines and then on whitespace is splitting on whitespace. */
  lemma {:induction false} SplitBlankKeepsTokens(s: string)
    ensures Flatten(TokensOfEach(SplitBlank(s))) == Tokens(s)
    decreases |s|
  {
    hide Tokens, IsSpace;
    if |s| < 2 {
      assert TokensOfEach([s])[1..] == [];
    } else if s[0] == '\n' && s[1] == '\n' {
      SplitBlankKeepsTokens(s[2..]);
      BlankLine(s);
    } else {
      SplitBlankKeepsTokens(s[1..]);
      var r := SplitBlank(s[1..]);
      SplitBlankHead(s[1..]);
      assert ([[s[0]] + r[0]] + r[1..])[1..] == r[1..];
      PrependChar(s[0], r[0], s[1..]);
      assert [s[0]] + s[1..] == s;
      assert TokensOfEach(r)[1..] == TokensOfEach(r[1..]);
    }
  }

  lemma BlankLine(s: string)
    requires |s| >= 2 && s[0] == '\n' && s[1] == '\n'
    ensures Tokens(s) == Tokens(s[2..]) && Tokens("") == []
  {
    assert s[1..][1..] == s[2..];
  }

  /** The first piece is a prefix, and the text goes on with whitespace or ends after it. */
  lemma {:induction false} SplitBlankHead(s: string)
    ensures var h := SplitBlank(s)[0]; h <= s && (h == s || IsSpace(s[|h|]))
  {
    hide IsSpace;
    NewlineIsSpace();
    if |s| >= 2 && !(s[0] == '\n' && s[1] == '\n') {
      SplitBlankHead(s[1..]);
      HeadExtends(s[0], SplitBlank(s[1..])[0], s[1..]);
      assert [s[0]] + s[1..] == s;
    }
  }

  lemma HeadExtends(c: char, h: string, s: string)
    requires h <= s && (h == s || IsSpace(s[|h|]))
    ensures [c] + h <= [c] + s && ([c] + h == [c] + s || IsSpace(([c] + s)[|h| + 1]))
  {
    hide IsSpace;
  }

  lemma NewlineIsSpace()
    ensures IsSpace('\n')
  {
  }

  /** Adding a character in front changes the tokens of a string and of its first piece alike. */
  lemma PrependChar(c: char, h: string, s: string)
    requires h <= s && (h == s || IsSpace(s[|h|]))
    ensures Tokens(h) <= Tokens(s)
    ensures Tokens([c] + s) == Tokens([c] + h) + Tokens(s)[|Tokens(h)|..]
  {
    var rest := s[|h|..];
    assert s == h + rest && [c] + s == ([c] + h) + rest;
    TokensConcat(h, rest);
    TokensConcat([c] + h, rest);
  }

  // ---- what determines the functions above ----

  predicate Blank(s: string) {
    forall i :: 0 <= i < |s| ==> IsSpace(s[i])
  }

  /** Stripping takes whitespace from both ends and nothing else. */
  lemma StripTakesBlanks(s: string) returns (left: string, right: string)
    ensures s == left + Strip(s) + right && Blank(left) && Blank(right) && Trimmed(Strip(s))
  {
    hide IsSpace;
    left := LStripTakesBlanks(s);
    right := RStripTakesBlanks(LStrip(s));
  }

  lemma {:induction false} LStripTakesBlanks(s: string) returns (left: string)
    ensures s == left + LStrip(s) && Blank(left)
  {
    hide IsSpace;
    left := "";
    if s != [] && IsSpace(s[0]) {
      var rest := LStripTakesBlanks(s[1..]);
      left := [s[0]] + rest;
    }
  }

  lemma {:induction false} RStripTakesBlanks(s: string) returns (right: string)
    ensures s == RStrip(s) + right && Blank(right)
  {
    hide IsSpace;
    right := "";
    if s != [] && IsSpace(s[|s| - 1]) {
      var rest := RStripTakesBlanks(s[..|s| - 1]);
      right := rest + [s[|s| - 1]];
    }
  }

  /** Nothing is taken from a text without whitespace at its ends. */
  lemma StripTrimmed(s: string)
    requires Trimmed(s)
    ensures Strip(s) == s
  {
  }

  /** Words are joined by one blank each, wherever the list is divided. */
  lemma {:induction false} JoinConcat(a: seq<string>, b: seq<string>)
    requires a != [] && b != []
    ensures Join(a + b) == Join(a) + " " + Join(b)
    ensures |a| == 1 ==> Join(a) == a[0]
    decreases |a|
  {
    assert (a + b)[1..] == a[1..] + b;
    if |a| > 1 {
      JoinConcat(a[1..], b);
      assert a[0] + " " + (Join(a[1..]) + " " + Join(b)) == a[0] + " " + Join(a[1..]) + " " + Join(b);
    }
  }

  /** `"\n\n".join(parts)` */
  function JoinBlank(parts: seq<string>): string {
    if parts == [] then ""
    else if |parts| == 1 then parts[0]
    else parts[0] + "\n\n" + JoinBlank(parts[1..])
  }

  /** A blank line begins at position i. */
  predicate BlankLineAt(s: string, i: nat) {
    i + 1 < |s| && s[i] == '\n' && s[i + 1] == '\n'
  }

  /** It has no blank line and, unless it is the last part, no newline before the blank line that ends it. */
  predicate GoodPart(part: string, last: bool) {
    (forall i :: 0 <= i < |part| ==> !BlankLineAt(part, i)) && (!last && part != [] ==> part[|part| - 1] != '\n')
  }

  /** The parts between blank lines: put together again they are the text, none has a blank line in it, and each ends at the first one. */
  lemma {:induction false} SplitBlankIsExact(s: string)
    ensures JoinBlank(SplitBlank(s)) == s
    ensures var parts := SplitBlank(s); forall k :: 0 <= k < |parts| ==> GoodPart(parts[k], k == |parts| - 1)
    decreases |s|
  {
    if |s| >= 2 {
      if s[0] == '\n' && s[1] == '\n' {
        SplitBlankIsExact(s[2..]);
        var parts, rest := SplitBlank(s), SplitBlank(s[2..]);
        assert parts[1..] == rest && s == "" + "\n\n" + s[2..];
        assert forall k :: 1 <= k < |parts| ==> parts[k] == rest[k - 1];
      } else {
        SplitBlankIsExact(s[1..]);
        var parts, rest := SplitBlank(s), SplitBlank(s[1..]);
        assert parts[1..] == rest[1..] && s == [s[0]] + s[1..];
        JoinBlankHead(s[0], rest);
        SplitBlankHead(s[1..]);
        GoodHead(s[0], rest, s[1..]);
        assert forall k :: 1 <= k < |parts| ==> parts[k] == rest[k];
      }
    }
  }

  lemma JoinBlankHead(c: char, parts: seq<string>)
    requires parts != []
    ensures JoinBlank([[c] + parts[0]] + parts[1..]) == [c] + JoinBlank(parts)
  {
    var all := [[c] + parts[0]] + parts[1..];
    assert all[1..] == parts[1..];
    if |parts| > 1 {
      assert ([c] + parts[0]) + "\n\n" + JoinBlank(parts[1..]) == [c] + (parts[0] + "\n\n" + JoinBlank(parts[1..]));
    }
  }

  lemma GoodHead(c: char, parts: seq<string>, rest: string)
    requires parts != [] && GoodPart(parts[0], |parts| == 1) && JoinBlank(parts) == rest && rest != ""
    requires !(c == '\n' && rest[0] == '\n')
    ensures GoodPart([c] + parts[0], |parts| == 1)
  {
    var head := [c] + parts[0];
    forall i | 0 <= i < |head| ensures !BlankLineAt(head, i) {
      if i > 0 {
        assert !BlankLineAt(parts[0], i - 1);
      } else if |head| > 1 {
        assert parts[0][0] == rest[0];
      }
    }
    if parts[0] == [] && |parts| > 1 {
      assert rest == "" + "\n\n" + JoinBlank(parts[1..]);
      assert rest[0] == '\n';
    }
  }
}
