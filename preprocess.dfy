/**
 * The Java preprocessing of a text before it is counted: the cleaning step
 * of loadAndPreprocessText (keep ASCII letters and whitespace, lowercase) and
 * tokenize (split at whitespace runs, drop empty pieces, stem each word).
 */
module Preprocess {
  import opened Text

  /** The regex class `\s` without UNICODE_CHARACTER_CLASS: [ \t\n\x0B\f\r]. */
  predicate IsJavaSpace(c: char)
  {
    c == ' ' || c == '\t' || c == '\n' || c == '\U{B}' || c == '\U{C}' || c == '\r'
  }

  /** The characters the class `[^a-zA-Z\s]` does not match, which replaceAll keeps. */
  predicate IsKept(c: char) { IsLetter(c) || IsJavaSpace(c) }

  predicate IsDropped(c: char) { !IsKept(c) }

  /** content.replaceAll("[^a-zA-Z\\s]", "").toLowerCase() */
  function Clean(content: string): (r: string)
    ensures |r| <= |content|
    ensures forall i :: 0 <= i < |r| ==> IsLowerLetter(r[i]) || IsJavaSpace(r[i])
  {
    Lower(RemoveChars(content, IsDropped))
  }

  /** Cleaning works character by character: it distributes over concatenation. */
  lemma CleanAppend(a: string, b: string)
    ensures Clean(a + b) == Clean(a) + Clean(b)
  {
    RemoveCharsAppend(a, b, IsDropped);
    LowerAppend(RemoveChars(a, IsDropped), RemoveChars(b, IsDropped));
  }

  /** A single character is lowercased if it is a letter or whitespace and deleted otherwise. */
  lemma CleanChar(c: char)
    ensures Clean([c]) == if IsKept(c) then [ToLower(c)] else []
  {
    assert [c][1..] == [];
  }

  /** Cleaning leaves a string unchanged exactly when it holds only a to z and whitespace. */
  lemma {:induction false} CleanFixpoint(s: string)
    ensures Clean(s) == s <==> forall i :: 0 <= i < |s| ==> IsLowerLetter(s[i]) || IsJavaSpace(s[i])
  {
    if s != [] {
      CleanFixpoint(s[1..]);
      assert s == [s[0]] + s[1..];
      CleanAppend([s[0]], s[1..]);
      CleanChar(s[0]);
      if Clean(s) == s {
        assert Clean(s[1..]) == Clean(s)[|Clean([s[0]])|..];
      }
    }
  }

  lemma CleanIdempotent(s: string)
    ensures Clean(Clean(s)) == Clean(s)
  {
    CleanFixpoint(Clean(s));
  }

  // ---------------------------------------------------------------------
  // text.split("\\s+")

  /** Drops the whitespace run at the front of `s`. */
  function SkipSpaces(s: string): (r: string)
    ensures |r| <= |s|
    ensures s != [] && IsJavaSpace(s[0]) ==> |r| < |s|
  {
    if s != [] && IsJavaSpace(s[0]) then SkipSpaces(s[1..]) else s
  }

  predicate NoSpace(s: string) { NoneOf(s, IsJavaSpace) }

  /**
   * The pieces of `s` between maximal whitespace runs, before String.split
   * removes trailing empty strings: a leading run yields a leading empty
   * piece, a trailing run a trailing one.
   */
  function SplitRuns(s: string): (pieces: seq<string>)
    ensures |pieces| >= 1
    ensures forall i :: 0 <= i < |pieces| ==> NoSpace(pieces[i])
    decreases |s|
  {
    if s == [] then [[]]
    else if IsJavaSpace(s[0]) then [[]] + SplitRuns(SkipSpaces(s))
    else
      var rest := SplitRuns(s[1..]);
      [[s[0]] + rest[0]] + rest[1..]
  }

  /** Drops the empty strings at the end of a list. */
  function StripTrailingEmpty(pieces: seq<string>): (r: seq<string>)
    ensures r <= pieces
    ensures r == [] || r[|r| - 1] != []
    ensures forall i :: |r| <= i < |pieces| ==> pieces[i] == []
  {
    if pieces == [] || pieces[|pieces| - 1] != [] then pieces
    else StripTrailingEmpty(pieces[..|pieces| - 1])
  }

  /**
   * String.split with the pattern \s+ and limit 0: a string in which the
   * pattern does not match is its own only piece; otherwise the pieces
   * between runs with trailing empty strings removed.
   */
  function JavaSplit(s: string): (pieces: seq<string>)
    ensures forall i :: 0 <= i < |pieces| ==> NoSpace(pieces[i])
  {
    if NoSpace(s) then [s] else StripTrailingEmpty(SplitRuns(s))
  }

  /** The words of a text: the non-empty pieces of the split, in order. */
  function Words(text: string): (words: seq<string>)
    ensures forall i :: 0 <= i < |words| ==> words[i] != [] && NoSpace(words[i])
  {
    var pieces := JavaSplit(text);
    assert forall w :: w in pieces ==> NoSpace(w);
    RemoveEmpty(pieces)
  }

  /** tokenize: one entry stem(w) per word w of the text, in the text's order. */
  function Tokenize(text: string, stem: string -> string): (tokens: seq<string>)
    ensures |tokens| == |Words(text)|
    ensures forall i :: 0 <= i < |tokens| ==> tokens[i] == stem(Words(text)[i])
  {
    var words := Words(text);
    seq(|words|, i requires 0 <= i < |words| => stem(words[i]))
  }

  // ---------------------------------------------------------------------
  // What the words of a text are.

  lemma {:induction false} RemoveSpacesOfSkip(s: string)
    ensures RemoveChars(SkipSpaces(s), IsJavaSpace) == RemoveChars(s, IsJavaSpace)
    decreases |s|
  {
    if s != [] && IsJavaSpace(s[0]) {
      RemoveSpacesOfSkip(s[1..]);
    }
  }

  lemma {:induction false} ConcatSplitRuns(s: string)
    ensures Concat(SplitRuns(s)) == RemoveChars(s, IsJavaSpace)
    decreases |s|
  {
    if s != [] {
      if IsJavaSpace(s[0]) {
        var t := SkipSpaces(s);
        ConcatSplitRuns(t);
        RemoveSpacesOfSkip(s);
        assert ([[]] + SplitRuns(t))[1..] == SplitRuns(t);
      } else {
        var rest := SplitRuns(s[1..]);
        ConcatSplitRuns(s[1..]);
        var pieces := [[s[0]] + rest[0]] + rest[1..];
        assert pieces[1..] == rest[1..];
        assert Concat(rest) == rest[0] + Concat(rest[1..]);
      }
    }
  }

  /** Removing trailing empty pieces does not change the concatenation. */
  lemma {:induction false} ConcatStripTrailingEmpty(pieces: seq<string>)
    ensures Concat(StripTrailingEmpty(pieces)) == Concat(pieces)
  {
    var r := StripTrailingEmpty(pieces);
    ConcatOfEmptyTail(pieces, |r|);
    assert pieces[..|r|] == r;
  }

  lemma {:induction false} ConcatOfEmptyTail(pieces: seq<string>, k: nat)
    requires k <= |pieces|
    requires forall i :: k <= i < |pieces| ==> pieces[i] == []
    ensures Concat(pieces) == Concat(pieces[..k])
  {
    if k > 0 {
      ConcatOfEmptyTail(pieces[1..], k - 1);
      assert pieces[1..][..k - 1] == pieces[..k][1..];
    } else if pieces != [] {
      ConcatOfEmptyTail(pieces[1..], 0);
    }
  }

  /** Laid end to end, the words are the text with its whitespace deleted. */
  lemma WordsContent(text: string)
    ensures Concat(Words(text)) == RemoveChars(text, IsJavaSpace)
  {
    ConcatRemoveEmpty(JavaSplit(text));
    if !NoSpace(text) {
      ConcatStripTrailingEmpty(SplitRuns(text));
      ConcatSplitRuns(text);
    } else {
      NoSpaceRemove(text);
      assert Concat([text]) == text + Concat([]);
    }
  }

  lemma {:induction false} NoSpaceRemove(s: string)
    requires NoSpace(s)
    ensures RemoveChars(s, IsJavaSpace) == s
  {
    if s != [] {
      assert NoSpace(s[1..]) by {
        forall i | 0 <= i < |s[1..]| ensures !IsJavaSpace(s[1..][i]) {
          assert s[1..][i] == s[i + 1];
        }
      }
      NoSpaceRemove(s[1..]);
    }
  }

  /** A non-space character in front of `s` joins the first piece of `s`. */
  lemma SplitRunsCons(c: char, s: string)
    requires !IsJavaSpace(c)
    ensures SplitRuns([c] + s) == [[c] + SplitRuns(s)[0]] + SplitRuns(s)[1..]
  {
    assert ([c] + s)[1..] == s;
  }

  /** A split of a space-free prefix glued to `t` extends the first piece of `t`. */
  lemma {:induction false} SplitRunsFreePrefix(p: string, t: string)
    requires NoSpace(p)
    ensures SplitRuns(p + t) == [p + SplitRuns(t)[0]] + SplitRuns(t)[1..]
  {
    var x := SplitRuns(t);
    if p == [] {
      assert p + t == t;
      assert x == [x[0]] + x[1..];
      assert p + x[0] == x[0];
    } else {
      var q := p[1..];
      assert NoSpace(q) by {
        forall i | 0 <= i < |q| ensures !IsJavaSpace(q[i]) {
          assert q[i] == p[i + 1];
        }
      }
      SplitRunsFreePrefix(q, t);
      assert p + t == [p[0]] + (q + t);
      SplitRunsCons(p[0], q + t);
      var y := SplitRuns(q + t);
      assert y == [q + x[0]] + x[1..];
      assert y[0] == q + x[0];
      assert y[1..] == x[1..];
      assert SplitRuns(p + t) == [[p[0]] + y[0]] + y[1..];
      assert [p[0]] + y[0] == p + x[0];
    }
  }

  /** Splitting words joined by single spaces gives the words back. */
  lemma {:induction false} SplitRunsJoin(words: seq<string>)
    requires |words| >= 1
    requires forall i :: 0 <= i < |words| ==> words[i] != [] && NoSpace(words[i])
    ensures SplitRuns(Join(' ', words)) == words
  {
    var w := words[0];
    if |words| == 1 {
      SplitRunsFreePrefix(w, []);
      assert w + [] == w;
    } else {
      var rest := words[1..];
      SplitRunsJoin(rest);
      var j := Join(' ', rest);
      JoinStartsWithWord(rest);
      SplitRunsFreePrefix(w, [' '] + j);
      assert p_sj: SkipSpaces([' '] + j) == j by {
        assert ([' '] + j)[1..] == j;
      }
      assert SplitRuns([' '] + j) == [[]] + rest;
      assert w + ([' '] + j) == w + [' '] + j;
      assert w + [] == w;
    }
  }

  lemma {:induction false} JoinStartsWithWord(words: seq<string>)
    requires |words| >= 1 && words[0] != []
    ensures |Join(' ', words)| > 0 && Join(' ', words)[0] == words[0][0]
  {
  }

  // ---------------------------------------------------------------------
  // Where the words of a text are cut.

  /** The non-empty pieces of the reference split are blind to a leading whitespace run. */
  lemma {:induction false} RemoveEmptySkipSpaces(s: string)
    ensures RemoveEmpty(Split(SkipSpaces(s), IsJavaSpace)) == RemoveEmpty(Split(s, IsJavaSpace))
    decreases |s|
  {
    if s != [] && IsJavaSpace(s[0]) {
      RemoveEmptySkipSpaces(s[1..]);
      assert ([[]] + Split(s[1..], IsJavaSpace))[1..] == Split(s[1..], IsJavaSpace);
    }
  }

  /**
   * The split at maximal runs and the reference split have the same first
   * piece and the same non-empty pieces after it.
   */
  lemma {:induction false} SplitRunsAgrees(s: string)
    ensures SplitRuns(s)[0] == Split(s, IsJavaSpace)[0]
    ensures RemoveEmpty(SplitRuns(s)[1..]) == RemoveEmpty(Split(s, IsJavaSpace)[1..])
    decreases |s|
  {
    if s != [] {
      if IsJavaSpace(s[0]) {
        var t := SkipSpaces(s);
        SplitRunsAgrees(t);
        var r, q := SplitRuns(t), Split(t, IsJavaSpace);
        assert r == [r[0]] + r[1..] && q == [q[0]] + q[1..];
        RemoveEmptyAppend([r[0]], r[1..]);
        RemoveEmptyAppend([q[0]], q[1..]);
        RemoveEmptySkipSpaces(s);
        assert ([[]] + Split(s[1..], IsJavaSpace))[1..] == Split(s[1..], IsJavaSpace);
        assert ([[]] + r)[1..] == r;
      } else {
        SplitRunsAgrees(s[1..]);
        var r, q := SplitRuns(s[1..]), Split(s[1..], IsJavaSpace);
        assert ([[s[0]] + r[0]] + r[1..])[1..] == r[1..];
        assert ([[s[0]] + q[0]] + q[1..])[1..] == q[1..];
      }
    }
  }

  /** After the leading run is skipped, the text is empty or starts with a non-whitespace character. */
  lemma {:induction false} SkipSpacesStops(s: string)
    ensures SkipSpaces(s) == [] || !IsJavaSpace(SkipSpaces(s)[0])
    decreases |s|
  {
    if s != [] && IsJavaSpace(s[0]) {
      SkipSpacesStops(s[1..]);
    }
  }

  /**
   * A whitespace run is a single cut: every piece strictly between the first
   * and the last is non-empty, so only a leading or a trailing run leaves an
   * empty piece.
   */
  lemma {:induction false} RunsInteriorNonEmpty(s: string)
    ensures forall i :: 0 < i < |SplitRuns(s)| - 1 ==> SplitRuns(s)[i] != []
    decreases |s|
  {
    if s != [] {
      if IsJavaSpace(s[0]) {
        var t := SkipSpaces(s);
        RunsInteriorNonEmpty(t);
        SkipSpacesStops(s);
        var r := SplitRuns(t);
        if t != [] {
          assert r == [[t[0]] + SplitRuns(t[1..])[0]] + SplitRuns(t[1..])[1..];
        }
        assert SplitRuns(s) == [[]] + r;
      } else {
        RunsInteriorNonEmpty(s[1..]);
        var r := SplitRuns(s[1..]);
        assert SplitRuns(s) == [[s[0]] + r[0]] + r[1..];
      }
    }
  }

  /**
   * Skipping the leading run keeps the last character, unless the whole text
   * was whitespace.
   */
  lemma {:induction false} SkipSpacesLast(s: string)
    ensures SkipSpaces(s) == [] ==> s == [] || IsJavaSpace(s[|s| - 1])
    ensures SkipSpaces(s) != [] ==> SkipSpaces(s)[|SkipSpaces(s)| - 1] == s[|s| - 1]
    decreases |s|
  {
    if s != [] && IsJavaSpace(s[0]) {
      SkipSpacesLast(s[1..]);
    }
  }

  /**
   * The run split ends in an empty piece exactly when the text ends in
   * whitespace: a trailing run leaves one "" for String.split to remove.
   */
  lemma {:induction false} LastPiece(s: string)
    ensures var r := SplitRuns(s);
            |r| >= 2 && r[|r| - 1] == [] <==> s != [] && IsJavaSpace(s[|s| - 1])
    decreases |s|
  {
    if s != [] {
      if IsJavaSpace(s[0]) {
        var t := SkipSpaces(s);
        LastPiece(t);
        SkipSpacesLast(s);
        SkipSpacesStops(s);
        var r := SplitRuns(t);
        if t != [] {
          assert r == [[t[0]] + SplitRuns(t[1..])[0]] + SplitRuns(t[1..])[1..];
        }
        assert SplitRuns(s) == [[]] + r;
      } else {
        var t := s[1..];
        LastPiece(t);
        var r := SplitRuns(t);
        assert SplitRuns(s) == [[s[0]] + r[0]] + r[1..];
        if t != [] {
          assert s[|s| - 1] == t[|t| - 1];
        }
      }
    }
  }

  /** A list whose pieces after the first are all non-empty loses at most its first piece to the filter. */
  lemma RemoveEmptyOfTail(p: seq<string>)
    requires forall i :: 0 < i < |p| ==> p[i] != []
    ensures RemoveEmpty(p) == if p != [] && p[0] == [] then p[1..] else p
  {
    if p != [] {
      var t := p[1..];
      forall i | 0 <= i < |t| ensures t[i] != [] {
        assert t[i] == p[i + 1];
      }
      RemoveEmptyOfNonEmpty(t);
    }
  }

  /** The run split and the reference split have the same non-empty pieces, in order. */
  lemma RemoveEmptySplitRuns(s: string)
    ensures RemoveEmpty(SplitRuns(s)) == RemoveEmpty(Split(s, IsJavaSpace))
  {
    var q := Split(s, IsJavaSpace);
    var r := SplitRuns(s);
    SplitRunsAgrees(s);
    assert r == [r[0]] + r[1..] && q == [q[0]] + q[1..];
    RemoveEmptyAppend([r[0]], r[1..]);
    RemoveEmptyAppend([q[0]], q[1..]);
  }

  /** A text without whitespace is its own only run piece. */
  lemma SplitRunsOfWord(w: string)
    requires NoSpace(w)
    ensures SplitRuns(w) == [w]
  {
    SplitRunsFreePrefix(w, []);
    assert w + [] == w;
  }

  /** Dropping trailing empty strings does not change the non-empty pieces. */
  lemma RemoveEmptyStrip(r: seq<string>)
    ensures RemoveEmpty(StripTrailingEmpty(r)) == RemoveEmpty(r)
  {
    var kept := StripTrailingEmpty(r);
    assert r == kept + r[|kept|..];
    RemoveEmptyAppend(kept, r[|kept|..]);
    RemoveEmptyOfEmpties(r[|kept|..]);
    assert RemoveEmpty(kept) + [] == RemoveEmpty(kept);
  }

  /** The words are exactly the non-empty pieces of the reference split, in order. */
  lemma WordsAreNonEmptyPieces(text: string)
    ensures Words(text) == RemoveEmpty(Split(text, IsJavaSpace))
  {
    RemoveEmptySplitRuns(text);
    if NoSpace(text) {
      SplitRunsOfWord(text);
    } else {
      RemoveEmptyStrip(SplitRuns(text));
    }
  }

  /** An empty text has no words. */
  lemma WordsOfEmpty()
    ensures Words([]) == []
  {
    assert JavaSplit([]) == [[]];
    RemoveEmptySingle([]);
  }

  /** A non-empty text without whitespace is one word. */
  lemma WordsOfWord(w: string)
    requires w != [] && NoSpace(w)
    ensures Words(w) == [w]
  {
    assert JavaSplit(w) == [w];
    RemoveEmptySingle(w);
  }

  /**
   * Any whitespace character separates words: the words of a text cut at a
   * whitespace character are the words of the left part followed by those of
   * the right part. With WordsOfEmpty and WordsOfWord this fixes the words of
   * every text, including tabs, line breaks, runs and edge whitespace.
   */
  lemma WordsSplitAtSpace(a: string, c: char, b: string)
    requires IsJavaSpace(c)
    ensures Words(a + [c] + b) == Words(a) + Words(b)
  {
    WordsAreNonEmptyPieces(a + [c] + b);
    WordsAreNonEmptyPieces(a);
    WordsAreNonEmptyPieces(b);
    SplitAppend(a, c, b, IsJavaSpace);
    RemoveEmptyAppend(Split(a, IsJavaSpace), Split(b, IsJavaSpace));
  }

  /**
   * split("\\s+") in full: a text without whitespace is its own only piece;
   * otherwise the pieces are the words, after one empty piece exactly when
   * the text starts with whitespace and holds a word.
   */
  lemma JavaSplitIsWords(s: string)
    ensures JavaSplit(s) ==
              if NoSpace(s) then [s]
              else if IsJavaSpace(s[0]) && Words(s) != [] then [[]] + Words(s)
              else Words(s)
  {
    if !NoSpace(s) {
      var r := SplitRuns(s);
      var kept := StripTrailingEmpty(r);
      RunsInteriorNonEmpty(s);
      forall i | 0 < i < |kept| ensures kept[i] != [] {
        assert kept[i] == r[i];
        if i < |kept| - 1 {
          assert i < |r| - 1;
        }
      }
      RemoveEmptyOfTail(kept);
      if IsJavaSpace(s[0]) {
        assert r == [[]] + SplitRuns(SkipSpaces(s));
      } else {
        assert r[0] == [s[0]] + SplitRuns(s[1..])[0];
      }
      if kept != [] {
        assert kept[0] == r[0];
      }
    }
  }

  /** Words are a left inverse of joining non-empty, space-free words with single spaces. */
  lemma {:induction false} WordsOfJoin(words: seq<string>)
    requires forall i :: 0 <= i < |words| ==> words[i] != [] && NoSpace(words[i])
    ensures Words(Join(' ', words)) == words
  {
    if |words| == 0 {
      WordsOfEmpty();
    } else if |words| == 1 {
      WordsOfWord(words[0]);
    } else {
      var rest := words[1..];
      WordsOfJoin(rest);
      WordsOfWord(words[0]);
      WordsSplitAtSpace(words[0], ' ', Join(' ', rest));
      assert words == [words[0]] + rest;
    }
  }

  /** Two spaces in a row make one cut, not an empty piece between the words. */
  lemma DoubleSpaceIsOneCut(a: string, b: string)
    requires a != [] && NoSpace(a) && b != [] && NoSpace(b)
    ensures JavaSplit(a + [' ', ' '] + b) == [a, b]
  {
    var s := a + [' ', ' '] + b;
    assert s == a + [' '] + ([] + [' '] + b);
    assert [] + [' '] + b == [' '] + b;
    WordsSplitAtSpace(a, ' ', [] + [' '] + b);
    WordsSplitAtSpace([], ' ', b);
    WordsOfEmpty();
    WordsOfWord(a);
    WordsOfWord(b);
    JavaSplitIsWords(s);
    assert s[0] == a[0] && s[|a|] == ' ';
  }

  /** A tab separates words just as a space does. */
  lemma TabSeparatesWords()
    ensures Words("a\tb") == ["a", "b"]
  {
    assert "a\tb" == "a" + ['\t'] + "b";
    WordsSplitAtSpace("a", '\t', "b");
    WordsOfWord("a");
    WordsOfWord("b");
  }

  /** Every token is non-empty, provided the stemmer never empties a non-empty word. */
  lemma TokensNonEmpty(text: string, stem: string -> string)
    requires forall w :: w != [] ==> stem(w) != []
    ensures forall i :: 0 <= i < |Tokenize(text, stem)| ==> Tokenize(text, stem)[i] != []
  {
  }

  /** After cleaning, every word is a non-empty run of the letters a to z. */
  lemma CleanWordsAreLetters(content: string)
    ensures forall i, k :: 0 <= i < |Words(Clean(content))| && 0 <= k < |Words(Clean(content))[i]| ==>
              IsLowerLetter(Words(Clean(content))[i][k])
  {
    var text := Clean(content);
    var words := Words(text);
    forall i, k | 0 <= i < |words| && 0 <= k < |words[i]| ensures IsLowerLetter(words[i][k]) {
      var c := words[i][k];
      assert !IsJavaSpace(c);
      ConcatMembership(words, i, k);
      WordsContent(text);
      RemoveCharsMembership(text, IsJavaSpace, c);
    }
  }

  lemma {:induction false} ConcatMembership(pieces: seq<string>, i: nat, k: nat)
    requires i < |pieces| && k < |pieces[i]|
    ensures pieces[i][k] in Concat(pieces)
  {
    if i > 0 {
      ConcatMembership(pieces[1..], i - 1, k);
    }
  }
}
