/** Word and character counting over a text held as a sequence of Unicode
    scalar values (Dafny's `char`), as `str::split_whitespace` and
    `str::chars` see it. */
module Text {

  /** The 25 code points that have the Unicode White_Space property. */
  const WhiteSpace: set<char> := {
    '\t', '\n', '\U{000B}', '\U{000C}', '\r', ' ', '\U{0085}', '\U{00A0}',
    '\U{1680}', '\U{2000}', '\U{2001}', '\U{2002}', '\U{2003}', '\U{2004}',
    '\U{2005}', '\U{2006}', '\U{2007}', '\U{2008}', '\U{2009}', '\U{200A}',
    '\U{2028}', '\U{2029}', '\U{202F}', '\U{205F}', '\U{3000}'
  }

  /** `char::is_whitespace`, written as the ranges it tests: exactly the
      White_Space code points. */
  predicate IsWhitespace(c: char)
    ensures IsWhitespace(c) <==> c in WhiteSpace
  {
    var n := c as int;
    (0x09 <= n <= 0x0D) || n == 0x20 || n == 0x85 || n == 0xA0 || n == 0x1680
    || (0x2000 <= n <= 0x200A) || n == 0x2028 || n == 0x2029 || n == 0x202F
    || n == 0x205F || n == 0x3000
  }

  predicate AllWhitespace(s: string) {
    forall i :: 0 <= i < |s| ==> IsWhitespace(s[i])
  }

  predicate NoWhitespace(s: string) {
    forall i :: 0 <= i < |s| ==> !IsWhitespace(s[i])
  }

  /** Number of whitespace characters in `s`. */
  function WhitespaceCount(s: string): nat {
    if s == [] then 0
    else (if IsWhitespace(s[0]) then 1 else 0) + WhitespaceCount(s[1..])
  }

  /** Sum of the lengths of `pieces`. */
  function TotalLength(pieces: seq<string>): nat {
    if pieces == [] then 0 else |pieces[0]| + TotalLength(pieces[1..])
  }

  /** The pieces of `s` between whitespace characters, when `piece` is
      the part of the current piece already read. This is the scan
      `str::split(char::is_whitespace)` performs: a non-whitespace character
      extends the current piece, a whitespace character closes it and opens
      an empty one, and the end of the text closes the last one. */
  function SplitFrom(s: string, piece: string): (pieces: seq<string>)
    requires NoWhitespace(piece)
    ensures |pieces| == WhitespaceCount(s) + 1
    ensures TotalLength(pieces) + WhitespaceCount(s) == |piece| + |s|
    ensures forall k :: 0 <= k < |pieces| ==> NoWhitespace(pieces[k])
    decreases |s|
  {
    if s == [] then [piece]
    else if IsWhitespace(s[0]) then
      var rest := SplitFrom(s[1..], []);
      assert ([piece] + rest)[1..] == rest;
      [piece] + rest
    else SplitFrom(s[1..], piece + [s[0]])
  }

  /** `str::split(char::is_whitespace)`: the pieces between consecutive
      whitespace characters, empty pieces included. There is one more piece
      than there are separators, no piece holds whitespace, and the pieces
      and the separators together make up the whole text. */
  function Split(s: string): (pieces: seq<string>)
    ensures |pieces| == WhitespaceCount(s) + 1
    ensures TotalLength(pieces) + WhitespaceCount(s) == |s|
    ensures forall k :: 0 <= k < |pieces| ==> NoWhitespace(pieces[k])
  {
    SplitFrom(s, [])
  }

  /** `.filter(|s| !s.is_empty())`: the non-empty pieces, in order. */
  function NonEmptyPieces(pieces: seq<string>): (kept: seq<string>)
    ensures |kept| <= |pieces|
    ensures |kept| <= TotalLength(pieces)
    ensures forall k :: 0 <= k < |kept| ==> kept[k] != [] && kept[k] in pieces
  {
    if pieces == [] then []
    else if pieces[0] == [] then NonEmptyPieces(pieces[1..])
    else [pieces[0]] + NonEmptyPieces(pieces[1..])
  }

  /** `str::split_whitespace`: the words of `s`, each a non-empty stretch of
      non-whitespace characters. */
  function SplitWhitespace(s: string): (words: seq<string>)
    ensures forall k :: 0 <= k < |words| ==> words[k] != [] && NoWhitespace(words[k])
  {
    NonEmptyPieces(Split(s))
  }

  /** `text.split_whitespace().count()`: the number of maximal runs of
      non-whitespace characters, which is 0 exactly for a text of whitespace
      alone. */
  function WordCount(s: string): (r: nat)
    ensures r == RunCount(s)
    ensures r == 0 <==> AllWhitespace(s)
    ensures 2 * r <= |s| + 1
  {
    WordCountIsRunCount(s);
    NoWordsIffAllWhitespace(s);
    |SplitWhitespace(s)|
  }

  /** `text.chars().count()`: one per Unicode scalar value, not per byte of
      the UTF-8 encoding and not per grapheme cluster. Every character is
      either whitespace or part of exactly one word. */
  function CharCount(s: string): (r: nat)
    ensures r == WhitespaceCount(s) + TotalLength(SplitWhitespace(s))
  {
    NonEmptyPiecesTotalLength(Split(s));
    |s|
  }

  /** Dropping empty pieces loses no characters. */
  lemma {:induction false} NonEmptyPiecesTotalLength(pieces: seq<string>)
    ensures TotalLength(NonEmptyPieces(pieces)) == TotalLength(pieces)
  {
    if pieces != [] {
      NonEmptyPiecesTotalLength(pieces[1..]);
      if pieces[0] != [] {
        var kept := [pieces[0]] + NonEmptyPieces(pieces[1..]);
        assert kept[1..] == NonEmptyPieces(pieces[1..]);
      }
    }
  }

  // ---------------------------------------------------------------------
  // Splitting across a separator

  lemma {:induction false} SplitFromAcrossSeparator(a: string, w: char, b: string, piece: string)
    requires IsWhitespace(w) && NoWhitespace(piece)
    ensures SplitFrom(a + [w] + b, piece) == SplitFrom(a, piece) + Split(b)
  {
    var x := a + [w] + b;
    if a == [] {
      assert x[0] == w && x[1..] == b;
    } else {
      var t := a[1..];
      assert x[0] == a[0] && x[1..] == t + [w] + b;
      if IsWhitespace(a[0]) {
        SplitFromAcrossSeparator(t, w, b, []);
        assert [piece] + (SplitFrom(t, []) + Split(b)) == ([piece] + SplitFrom(t, [])) + Split(b);
      } else {
        assert NoWhitespace(piece + [a[0]]);
        SplitFromAcrossSeparator(t, w, b, piece + [a[0]]);
      }
    }
  }

  /** A whitespace character ends the pieces of what precedes it and starts
      those of what follows it. */
  lemma SplitAcrossSeparator(a: string, w: char, b: string)
    requires IsWhitespace(w)
    ensures Split(a + [w] + b) == Split(a) + Split(b)
  {
    SplitFromAcrossSeparator(a, w, b, []);
  }

  lemma {:induction false} NonEmptyPiecesAppend(p: seq<string>, q: seq<string>)
    ensures NonEmptyPieces(p + q) == NonEmptyPieces(p) + NonEmptyPieces(q)
  {
    if p == [] {
      assert p + q == q;
    } else {
      assert (p + q)[0] == p[0];
      assert (p + q)[1..] == p[1..] + q;
      NonEmptyPiecesAppend(p[1..], q);
    }
  }

  /** The words on either side of a whitespace character are split
      independently: the separator never joins or splits a word. */
  lemma WordsAcrossSeparator(a: string, w: char, b: string)
    requires IsWhitespace(w)
    ensures SplitWhitespace(a + [w] + b) == SplitWhitespace(a) + SplitWhitespace(b)
  {
    SplitAcrossSeparator(a, w, b);
    NonEmptyPiecesAppend(Split(a), Split(b));
  }

  /** Word counts add up across a whitespace character. */
  lemma WordCountAcrossSeparator(a: string, w: char, b: string)
    requires IsWhitespace(w)
    ensures WordCount(a + [w] + b) == WordCount(a) + WordCount(b)
  {
    WordsAcrossSeparator(a, w, b);
  }

  // ---------------------------------------------------------------------
  // Whitespace adds no words

  lemma NoWordsInEmpty()
    ensures Split([]) == [[]]
    ensures SplitWhitespace([]) == []
  {
  }

  lemma {:induction false} LeadingWhitespace(r: string, s: string)
    requires AllWhitespace(r)
    ensures SplitWhitespace(r + s) == SplitWhitespace(s)
  {
    if r != [] {
      assert AllWhitespace(r[1..]);
      var e: string := [];
      assert r + s == e + [r[0]] + (r[1..] + s);
      WordsAcrossSeparator(e, r[0], r[1..] + s);
      NoWordsInEmpty();
      assert SplitWhitespace(e) + SplitWhitespace(r[1..] + s) == SplitWhitespace(r[1..] + s);
      LeadingWhitespace(r[1..], s);
    } else {
      assert r + s == s;
    }
  }

  /** A text has no words exactly when it is made of whitespace only (the
      empty text included). */
  lemma {:induction false} NoWordsIffAllWhitespace(s: string)
    ensures SplitWhitespace(s) == [] <==> AllWhitespace(s)
  {
    if s == [] {
    } else if IsWhitespace(s[0]) {
      assert s == [s[0]] + s[1..];
      LeadingWhitespace([s[0]], s[1..]);
      NoWordsIffAllWhitespace(s[1..]);
      if AllWhitespace(s[1..]) {
        assert AllWhitespace(s);
      }
    } else {
      var e: string := [];
      assert e + [s[0]] == [s[0]];
      FirstPieceExtends(s[1..], [s[0]]);
      var p := Split(s);
      assert p[0] != [];
      assert NonEmptyPieces(p) == [p[0]] + NonEmptyPieces(p[1..]);
    }
  }

  lemma {:induction false} TrailingWhitespace(s: string, r: string)
    requires AllWhitespace(r)
    ensures SplitWhitespace(s + r) == SplitWhitespace(s)
  {
    if r != [] {
      assert AllWhitespace(r[1..]);
      assert s + r == s + [r[0]] + r[1..];
      WordsAcrossSeparator(s, r[0], r[1..]);
      NoWordsIffAllWhitespace(r[1..]);
      assert SplitWhitespace(s) + SplitWhitespace(r[1..]) == SplitWhitespace(s);
    } else {
      assert s + r == s;
    }
  }

  /** A text of whitespace only has no words, and every one of its
      characters is counted. */
  lemma WhitespaceOnlyCounts(s: string)
    requires AllWhitespace(s)
    ensures WordCount(s) == 0
    ensures CharCount(s) == WhitespaceCount(s) == |s|
  {
    NoWordsIffAllWhitespace(s);
    AllWhitespaceCount(s);
  }

  lemma {:induction false} AllWhitespaceCount(s: string)
    requires AllWhitespace(s)
    ensures WhitespaceCount(s) == |s|
  {
    if s != [] {
      AllWhitespaceCount(s[1..]);
    }
  }

  /** Leading and trailing whitespace add no words. */
  lemma SurroundingWhitespace(r1: string, s: string, r2: string)
    requires AllWhitespace(r1) && AllWhitespace(r2)
    ensures SplitWhitespace(r1 + s + r2) == SplitWhitespace(s)
  {
    LeadingWhitespace(r1, s + r2);
    assert r1 + s + r2 == r1 + (s + r2);
    TrailingWhitespace(s, r2);
  }

  /** Replacing a run of whitespace by a single space leaves the words, and
      so their count, as they were. */
  lemma CollapseWhitespaceRun(a: string, r: string, b: string)
    requires r != [] && AllWhitespace(r)
    ensures SplitWhitespace(a + r + b) == SplitWhitespace(a + " " + b)
    ensures WordCount(a + r + b) == WordCount(a + " " + b)
  {
    assert a + r + b == a + [r[0]] + (r[1..] + b);
    WordsAcrossSeparator(a, r[0], r[1..] + b);
    LeadingWhitespace(r[1..], b);
    assert a + " " + b == a + [' '] + b;
    WordsAcrossSeparator(a, ' ', b);
  }

  // ---------------------------------------------------------------------
  // Bounds

  /** Words are non-empty and need a separator between each two of them, so
      a text of n characters has at most (n + 1) / 2 words. */
  lemma WordCountBound(s: string)
    ensures 2 * WordCount(s) <= CharCount(s) + 1
    ensures WordCount(s) <= CharCount(s)
  {
    // Follows from WordCount's own bound.
  }

  /** The character count adds up over concatenation. */
  lemma CharCountAppend(a: string, b: string)
    ensures CharCount(a + b) == CharCount(a) + CharCount(b)
  {
  }

  // ---------------------------------------------------------------------
  // Words are the maximal runs of non-whitespace characters

  /** Position `i` starts a maximal run of non-whitespace characters. */
  predicate IsWordStart(s: string, i: nat)
    requires i < |s|
  {
    !IsWhitespace(s[i]) && (i == 0 || IsWhitespace(s[i - 1]))
  }

  /** Number of maximal runs of non-whitespace characters: each run has
      exactly one start. */
  function RunCount(s: string): nat {
    if s == [] then 0
    else RunCount(s[..|s| - 1]) + (if IsWordStart(s, |s| - 1) then 1 else 0)
  }

  /** `pieces` with `c` added to the end of its last piece. */
  function ExtendLast(pieces: seq<string>, c: char): (r: seq<string>)
    requires pieces != []
    ensures |r| == |pieces| && r[|r| - 1] == pieces[|pieces| - 1] + [c]
    ensures forall k :: 0 <= k < |r| - 1 ==> r[k] == pieces[k]
  {
    pieces[..|pieces| - 1] + [pieces[|pieces| - 1] + [c]]
  }

  lemma {:induction false} ExtendLastAppend(p: seq<string>, q: seq<string>, c: char)
    requires q != []
    ensures ExtendLast(p + q, c) == p + ExtendLast(q, c)
  {
    assert (p + q)[..|p + q| - 1] == p + q[..|q| - 1];
  }

  lemma {:induction false} SplitFromLastPiece(s: string, piece: string, c: char)
    requires !IsWhitespace(c) && NoWhitespace(piece)
    ensures SplitFrom(s + [c], piece) == ExtendLast(SplitFrom(s, piece), c)
  {
    var x := s + [c];
    assert NoWhitespace(piece + [c]);
    if s == [] {
      assert x[0] == c && x[1..] == [];
    } else {
      var t := s[1..];
      assert x[0] == s[0] && x[1..] == t + [c];
      if IsWhitespace(s[0]) {
        SplitFromLastPiece(t, [], c);
        ExtendLastAppend([piece], SplitFrom(t, []), c);
      } else {
        assert NoWhitespace(piece + [s[0]]);
        SplitFromLastPiece(t, piece + [s[0]], c);
      }
    }
  }

  /** A non-whitespace character at the end joins the last piece. */
  lemma SplitLastPiece(s: string, c: char)
    requires !IsWhitespace(c)
    ensures Split(s + [c]) == ExtendLast(Split(s), c)
  {
    SplitFromLastPiece(s, [], c);
  }

  /** The piece being read is never shortened: it begins the first piece. */
  lemma {:induction false} FirstPieceExtends(s: string, piece: string)
    requires NoWhitespace(piece)
    ensures |SplitFrom(s, piece)[0]| >= |piece|
  {
    if s != [] && !IsWhitespace(s[0]) {
      assert NoWhitespace(piece + [s[0]]);
      FirstPieceExtends(s[1..], piece + [s[0]]);
    }
  }

  /** Extending the last piece adds a word exactly when that piece was
      empty. */
  lemma {:induction false} NonEmptyPiecesExtendLast(p: seq<string>, c: char)
    requires p != []
    ensures |NonEmptyPieces(ExtendLast(p, c))|
      == |NonEmptyPieces(p)| + (if p[|p| - 1] == [] then 1 else 0)
  {
    var init := p[..|p| - 1];
    NonEmptyPiecesAppend(init, [p[|p| - 1] + [c]]);
    NonEmptyPiecesAppend(init, [p[|p| - 1]]);
    assert p == init + [p[|p| - 1]];
  }

  lemma {:induction false} SplitFromLastPieceEmpty(s: string, piece: string)
    requires NoWhitespace(piece)
    ensures var p := SplitFrom(s, piece);
      p[|p| - 1] == [] <==> if s == [] then piece == [] else IsWhitespace(s[|s| - 1])
  {
    if s != [] {
      var t := s[1..];
      if t != [] {
        assert t[|t| - 1] == s[|s| - 1];
      }
      if IsWhitespace(s[0]) {
        SplitFromLastPieceEmpty(t, []);
      } else {
        assert NoWhitespace(piece + [s[0]]);
        SplitFromLastPieceEmpty(t, piece + [s[0]]);
      }
    }
  }

  /** The last piece is empty exactly when the text is empty or ends in
      whitespace. */
  lemma LastPieceEmpty(s: string)
    ensures var p := Split(s);
      p[|p| - 1] == [] <==> s == [] || IsWhitespace(s[|s| - 1])
  {
    SplitFromLastPieceEmpty(s, []);
  }

  /** Appending a character adds a word exactly when it starts one. */
  lemma {:induction false} WordCountSnoc(t: string, c: char)
    ensures |SplitWhitespace(t + [c])|
      == |SplitWhitespace(t)| + (if IsWordStart(t + [c], |t|) then 1 else 0)
  {
    if IsWhitespace(c) {
      TrailingWhitespace(t, [c]);
    } else {
      SplitLastPiece(t, c);
      LastPieceEmpty(t);
      NonEmptyPiecesExtendLast(Split(t), c);
      if t != [] {
        assert (t + [c])[|t| - 1] == t[|t| - 1];
      }
    }
  }

  /** The words split off by `split_whitespace` are the maximal runs of
      non-whitespace characters, one word per run. */
  lemma {:induction false} WordCountIsRunCount(s: string)
    ensures |SplitWhitespace(s)| == RunCount(s)
  {
    if s != [] {
      var t := s[..|s| - 1];
      assert s == t + [s[|s| - 1]];
      WordCountIsRunCount(t);
      WordCountSnoc(t, s[|s| - 1]);
    }
  }

  /** An alternative one-pass count with an "inside a word" flag. */
  method CountWords(s: string) returns (n: nat)
    ensures n == WordCount(s)
  {
    n := 0;
    var inWord := false;
    var i := 0;
    while i < |s|
      invariant 0 <= i <= |s|
      invariant n == RunCount(s[..i])
      invariant inWord == (i > 0 && !IsWhitespace(s[i - 1]))
    {
      assert s[..i + 1][..i] == s[..i];
      if IsWhitespace(s[i]) {
        inWord := false;
      } else {
        if !inWord {
          n := n + 1;
        }
        inWord := true;
      }
      i := i + 1;
    }
    assert s[..|s|] == s;
    WordCountIsRunCount(s);
  }

  // ---------------------------------------------------------------------
  // Round trip through single-space joining

  /** The words laid out with one space between each two. */
  function JoinWords(words: seq<string>): string {
    if words == [] then []
    else if |words| == 1 then words[0]
    else words[0] + " " + JoinWords(words[1..])
  }

  lemma {:induction false} SplitFromWithoutWhitespace(s: string, piece: string)
    requires NoWhitespace(s) && NoWhitespace(piece)
    ensures SplitFrom(s, piece) == [piece + s]
  {
    if s == [] {
      assert piece + s == piece;
    } else {
      assert NoWhitespace(piece + [s[0]]);
      SplitFromWithoutWhitespace(s[1..], piece + [s[0]]);
      assert piece + [s[0]] + s[1..] == piece + s;
    }
  }

  /** A text without whitespace is a single piece. */
  lemma SplitWithoutWhitespace(w: string)
    requires NoWhitespace(w)
    ensures Split(w) == [w]
  {
    SplitFromWithoutWhitespace(w, []);
    assert [] + w == w;
  }

  /** A non-empty text without whitespace is one word. */
  lemma SingleWord(w: string)
    requires w != [] && NoWhitespace(w)
    ensures SplitWhitespace(w) == [w]
  {
    SplitWithoutWhitespace(w);
    var p: seq<string> := [w];
    assert p[1..] == [];
  }

  /** Splitting words joined by single spaces gives back the words, as long
      as each is non-empty and free of whitespace. */
  lemma {:induction false} SplitJoinWords(words: seq<string>)
    requires forall k :: 0 <= k < |words| ==> words[k] != [] && NoWhitespace(words[k])
    ensures SplitWhitespace(JoinWords(words)) == words
  {
    if |words| == 1 {
      SingleWord(words[0]);
    } else if words != [] {
      var rest := words[1..];
      assert forall k :: 0 <= k < |rest| ==> rest[k] == words[k + 1];
      calc {
        SplitWhitespace(JoinWords(words));
      == { assert JoinWords(words) == words[0] + [' '] + JoinWords(rest); }
        SplitWhitespace(words[0] + [' '] + JoinWords(rest));
      == { WordsAcrossSeparator(words[0], ' ', JoinWords(rest)); }
        SplitWhitespace(words[0]) + SplitWhitespace(JoinWords(rest));
      == { SingleWord(words[0]); SplitJoinWords(rest); }
        [words[0]] + rest;
      ==
        words;
      }
    }
  }

  /** Irregular spacing does not matter: a text and the same words separated
      by single spaces have the same words. */
  lemma NormalizeSpacing(s: string)
    ensures SplitWhitespace(JoinWords(SplitWhitespace(s))) == SplitWhitespace(s)
    ensures WordCount(JoinWords(SplitWhitespace(s))) == WordCount(s)
  {
    SplitJoinWords(SplitWhitespace(s));
  }
}
