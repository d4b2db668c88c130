/**
 * The C# text normaliser applied to the reference transcription and to the
 * OCR output before they are compared: a null or blank string becomes empty;
 * any other string is split on the space character alone, empty pieces are
 * dropped, the rest are re-joined with one space and the result is lowercased.
 */
module Normalizer {
  import opened Text

  /** A C# `string` reference, which may be null. */
  datatype NullableString = Null | Str(value: string)

  const Space: char := ' '

  /** char.IsWhiteSpace: Unicode categories Zs, Zl and Zp, U+0009 to U+000D, and U+0085. */
  predicate IsWhiteSpace(c: char)
  {
    || c == ' ' || '\t' <= c <= '\r' || c == '\U{85}' || c == '\U{A0}' || c == '\U{1680}'
    || '\U{2000}' <= c <= '\U{200A}' || c == '\U{2028}' || c == '\U{2029}' || c == '\U{202F}'
    || c == '\U{205F}' || c == '\U{3000}'
  }

  /** string.IsNullOrWhiteSpace. */
  predicate IsNullOrWhiteSpace(text: NullableString)
  {
    match text
    case Null => true
    case Str(s) => forall i :: 0 <= i < |s| ==> IsWhiteSpace(s[i])
  }

  predicate IsSpace(c: char) { c == Space }

  /** The space-delimited tokens: text.Split(new[] { ' ' }, StringSplitOptions.RemoveEmptyEntries). */
  function Tokens(s: string): (tokens: seq<string>)
  {
    RemoveEmpty(Split(s, IsSpace))
  }

  function NormalizeText(text: NullableString): (r: string)
    ensures IsNullOrWhiteSpace(text) ==> r == []
    ensures NoUpper(r)
  {
    if IsNullOrWhiteSpace(text) then ""
    else Lower(Join(Space, Tokens(text.value)))
  }

  /** No leading or trailing space, and never two spaces in a row. */
  predicate WellSpaced(s: string)
  {
    && (|s| > 0 ==> s[0] != Space && s[|s| - 1] != Space)
    && forall i :: 0 < i < |s| ==> s[i - 1] != Space || s[i] != Space
  }

  // ---------------------------------------------------------------------
  // Split and Join are inverse to each other.

  /** Joining the pieces of a split with the separator restores the string. */
  lemma {:induction false} JoinSplit(s: string)
    ensures Join(Space, Split(s, IsSpace)) == s
  {
    if s != [] {
      var rest := Split(s[1..], IsSpace);
      JoinSplit(s[1..]);
      if s[0] == Space {
        assert ([[]] + rest)[1..] == rest;
      } else if |rest| > 1 {
        var pieces := [[s[0]] + rest[0]] + rest[1..];
        assert pieces[1..] == rest[1..];
        assert Join(Space, rest) == rest[0] + [Space] + Join(Space, rest[1..]);
      }
    }
  }

  /** Splitting a space-free prefix glued to `t` only extends the first piece of `t`. */
  lemma {:induction false} SplitFreePrefix(p: string, t: string)
    requires Space !in p
    ensures Split(p + t, IsSpace) == [p + Split(t, IsSpace)[0]] + Split(t, IsSpace)[1..]
  {
    var x := Split(t, IsSpace);
    if p == [] {
      assert p + t == t;
      assert x == [x[0]] + x[1..];
      assert p + x[0] == x[0];
    } else {
      SplitFreePrefix(p[1..], t);
      assert (p + t)[1..] == p[1..] + t;
      assert [p[0]] + (p[1..] + x[0]) == p + x[0];
    }
  }

  /** Splitting a join of space-free pieces gives back exactly those pieces. */
  lemma {:induction false} SplitJoin(pieces: seq<string>)
    requires |pieces| >= 1
    requires forall i :: 0 <= i < |pieces| ==> Space !in pieces[i]
    ensures Split(Join(Space, pieces), IsSpace) == pieces
  {
    var p := pieces[0];
    if |pieces| == 1 {
      SplitFreePrefix(p, []);
      assert p + [] == p;
    } else {
      var rest := pieces[1..];
      SplitJoin(rest);
      var j := Join(Space, rest);
      SplitFreePrefix(p, [Space] + j);
      assert ([Space] + j)[1..] == j;
      assert p + ([Space] + j) == p + [Space] + j;
      assert Split([Space] + j, IsSpace) == [[]] + rest;
      assert p + [] == p;
    }
  }

  // ---------------------------------------------------------------------
  // Shape of the normalised text.

  /** Joining non-empty space-free pieces with one space is well spaced. */
  lemma {:induction false} JoinWellSpaced(pieces: seq<string>)
    requires forall i :: 0 <= i < |pieces| ==> pieces[i] != [] && Space !in pieces[i]
    ensures WellSpaced(Join(Space, pieces))
    ensures |pieces| > 0 ==> |Join(Space, pieces)| > 0 && Join(Space, pieces)[0] == pieces[0][0]
  {
    if |pieces| > 1 {
      var p, j := pieces[0], Join(Space, pieces[1..]);
      JoinWellSpaced(pieces[1..]);
      var s := Join(Space, pieces);
      assert s == p + [Space] + j;
      forall i | 0 < i < |s| ensures s[i - 1] != Space || s[i] != Space {
        if i <= |p| {
          assert s[i - 1] == p[i - 1];
        } else if i == |p| + 1 {
          assert s[i] == j[0];
        } else {
          assert s[i] == j[i - |p| - 1] && s[i - 1] == j[i - |p| - 2];
        }
      }
      assert s[|s| - 1] == j[|j| - 1];
    }
  }

  /** Lowercasing keeps pieces non-empty and free of spaces. */
  lemma LowerAllTokens(pieces: seq<string>)
    requires forall i :: 0 <= i < |pieces| ==> pieces[i] != [] && Space !in pieces[i]
    ensures forall i :: 0 <= i < |pieces| ==> LowerAll(pieces)[i] != [] && Space !in LowerAll(pieces)[i]
  {
    forall i, k | 0 <= i < |pieces| && 0 <= k < |pieces[i]| ensures LowerAll(pieces)[i][k] != Space {
      assert pieces[i][k] != Space;
    }
  }

  /** The normalised text is the lowercased tokens of the input joined by single spaces. */
  lemma NormalizedIsJoinOfTokens(text: NullableString)
    requires !IsNullOrWhiteSpace(text)
    ensures NormalizeText(text) == Join(Space, LowerAll(Tokens(text.value)))
    ensures forall i :: 0 <= i < |Tokens(text.value)| ==>
              LowerAll(Tokens(text.value))[i] != [] && Space !in LowerAll(Tokens(text.value))[i]
  {
    var tokens := Tokens(text.value);
    forall i | 0 <= i < |tokens| ensures tokens[i] != [] && Space !in tokens[i] {
      assert tokens[i] in Split(text.value, IsSpace);
    }
    LowerJoin(Space, tokens);
    LowerAllTokens(tokens);
  }

  /** The result never starts or ends with a space and never holds two spaces in a row. */
  lemma NormalizedWellSpaced(text: NullableString)
    ensures WellSpaced(NormalizeText(text))
  {
    if !IsNullOrWhiteSpace(text) {
      NormalizedIsJoinOfTokens(text);
      JoinWellSpaced(LowerAll(Tokens(text.value)));
    }
  }

  /**
   * Only the space separates tokens: deleting every space from the result
   * gives the lowercase of the input with every space deleted, so tabs,
   * line breaks and every other character survive in their order.
   */
  lemma NormalizedKeepsNonSpaces(text: NullableString)
    requires !IsNullOrWhiteSpace(text)
    ensures RemoveChars(NormalizeText(text), IsSpace) == Lower(RemoveChars(text.value, IsSpace))
  {
    var s := text.value;
    var pieces := Split(s, IsSpace);
    var joined := Join(Space, RemoveEmpty(pieces));
    LowerRemoveChars(joined, IsSpace);
    RemoveCharsJoin(Space, RemoveEmpty(pieces), IsSpace);
    ConcatRemoveEmpty(pieces);
    RemoveCharsJoin(Space, pieces, IsSpace);
    JoinSplit(s);
  }

  /** Text that is not blank stays not blank: a non-white-space character survives, lowercased. */
  lemma NormalizedNotBlank(text: NullableString)
    requires !IsNullOrWhiteSpace(text)
    ensures !IsNullOrWhiteSpace(Str(NormalizeText(text)))
  {
    var s := text.value;
    var i :| 0 <= i < |s| && !IsWhiteSpace(s[i]);
    var c := s[i];
    RemoveCharsMembership(s, IsSpace, c);
    NormalizedKeepsNonSpaces(text);
    var kept := RemoveChars(s, IsSpace);
    var k :| 0 <= k < |kept| && kept[k] == c;
    assert Lower(kept)[k] == ToLower(c);
    RemoveCharsMembership(NormalizeText(text), IsSpace, ToLower(c));
    var r := NormalizeText(text);
    var j :| 0 <= j < |r| && r[j] == ToLower(c);
    assert !IsWhiteSpace(r[j]);
  }

  /** Splitting the result on the space gives the input's tokens, lowercased, in their order. */
  lemma NormalizedTokens(text: NullableString)
    requires !IsNullOrWhiteSpace(text)
    ensures Split(NormalizeText(text), IsSpace) == LowerAll(Tokens(text.value))
    ensures Tokens(NormalizeText(text)) == LowerAll(Tokens(text.value))
  {
    var lowered := LowerAll(Tokens(text.value));
    NormalizedIsJoinOfTokens(text);
    NormalizedNotBlank(text);
    assert |lowered| >= 1;
    SplitJoin(lowered);
    RemoveEmptyOfNonEmpty(lowered);
  }

  /** Normalising twice is the same as normalising once. */
  lemma NormalizeIdempotent(text: NullableString)
    ensures NormalizeText(Str(NormalizeText(text))) == NormalizeText(text)
  {
    var r := NormalizeText(text);
    if !IsNullOrWhiteSpace(text) {
      NormalizedNotBlank(text);
      NormalizedTokens(text);
      NormalizedIsJoinOfTokens(text);
      LowerOfNoUpper(r);
    }
  }

  /** The result is never longer than the input. */
  lemma NormalizedNotLonger(text: NullableString)
    requires text.Str?
    ensures |NormalizeText(text)| <= |text.value|
  {
    if !IsNullOrWhiteSpace(text) {
      JoinRemoveEmptyLength(Space, Split(text.value, IsSpace));
      JoinSplit(text.value);
    }
  }
}
