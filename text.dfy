/**
 * Character and string helpers shared by the C# normaliser and the Java
 * bag-of-words preprocessing: ASCII lowercasing, joining pieces with a
 * separator, concatenation, splitting at separators, dropping empty pieces
 * and deleting characters.
 */
module Text {

  predicate IsUpper(c: char) { 'A' <= c <= 'Z' }

  predicate IsLowerLetter(c: char) { 'a' <= c <= 'z' }

  predicate IsLetter(c: char) { IsUpper(c) || IsLowerLetter(c) }

  /** ASCII case folding of one character: upper-case letters map to their lower-case twin. */
  function ToLower(c: char): (r: char)
    ensures !IsUpper(r)
    ensures r == c <==> !IsUpper(c)
    ensures IsUpper(c) ==> IsLowerLetter(r) && r as int - 'a' as int == c as int - 'A' as int
  {
    if IsUpper(c) then (c as int - 'A' as int + 'a' as int) as char else c
  }

  /** Lowercases every character of `s`, keeping its length and positions. */
  function Lower(s: string): (r: string)
    ensures |r| == |s|
    ensures forall i :: 0 <= i < |s| ==> r[i] == ToLower(s[i])
  {
    seq(|s|, i requires 0 <= i < |s| => ToLower(s[i]))
  }

  predicate NoUpper(s: string) { forall i :: 0 <= i < |s| ==> !IsUpper(s[i]) }

  lemma LowerAppend(a: string, b: string)
    ensures Lower(a + b) == Lower(a) + Lower(b)
  {
    assert forall i :: 0 <= i < |a + b| ==> Lower(a + b)[i] == (Lower(a) + Lower(b))[i];
  }

  /** A string without upper-case letters is its own lowercase. */
  lemma LowerOfNoUpper(s: string)
    requires NoUpper(s)
    ensures Lower(s) == s
  {
  }

  /** Lowercases every piece of a list of strings. */
  function LowerAll(ps: seq<string>): (r: seq<string>)
    ensures |r| == |ps|
    ensures forall i :: 0 <= i < |ps| ==> r[i] == Lower(ps[i])
  {
    seq(|ps|, i requires 0 <= i < |ps| => Lower(ps[i]))
  }

  /** string.Join / String.join: the pieces with one separator between neighbours. */
  function Join(sep: char, pieces: seq<string>): string
  {
    if |pieces| == 0 then []
    else if |pieces| == 1 then pieces[0]
    else pieces[0] + [sep] + Join(sep, pieces[1..])
  }

  /** All pieces laid end to end. */
  function Concat(pieces: seq<string>): string
  {
    if pieces == [] then [] else pieces[0] + Concat(pieces[1..])
  }

  /** No character of `s` satisfies `p`. */
  predicate NoneOf(s: string, p: char -> bool)
  {
    forall k :: 0 <= k < |s| ==> !p(s[k])
  }

  /**
   * string.Split / a split at every separator character: the pieces between
   * separators, empty ones included. A string with k separators has k + 1
   * pieces, and no piece holds a separator.
   */
  function Split(s: string, isSep: char -> bool): (pieces: seq<string>)
    ensures |pieces| >= 1
    ensures forall i :: 0 <= i < |pieces| ==> NoneOf(pieces[i], isSep)
  {
    if s == [] then [[]]
    else
      var rest := Split(s[1..], isSep);
      if isSep(s[0]) then [[]] + rest
      else [[s[0]] + rest[0]] + rest[1..]
  }

  /** A new first piece in front commutes with appending pieces. */
  lemma ConsAppend(p: string, u: seq<string>, y: seq<string>)
    ensures [p] + (u + y) == ([p] + u) + y
  {
  }

  /** Extending the first piece commutes with appending pieces. */
  lemma ExtendFirstAppend(w: string, u: seq<string>, y: seq<string>)
    requires |u| >= 1
    ensures [w + (u + y)[0]] + (u + y)[1..] == ([w + u[0]] + u[1..]) + y
  {
    assert (u + y)[0] == u[0] && (u + y)[1..] == u[1..] + y;
  }

  /** Splitting `[x] + t`: a separator opens a new piece, any other character joins the first one. */
  lemma SplitCons(x: char, t: string, isSep: char -> bool)
    ensures Split([x] + t, isSep) ==
              if isSep(x) then [[]] + Split(t, isSep)
              else [[x] + Split(t, isSep)[0]] + Split(t, isSep)[1..]
  {
    assert ([x] + t)[0] == x && ([x] + t)[1..] == t;
  }

  /** A separator put in front of both a string and its split at a separator keeps the split additive. */
  lemma SplitAppendConsSep(x: char, a: string, c: char, b: string, isSep: char -> bool)
    requires isSep(x)
    requires Split(a + [c] + b, isSep) == Split(a, isSep) + Split(b, isSep)
    ensures Split([x] + (a + [c] + b), isSep) == Split([x] + a, isSep) + Split(b, isSep)
  {
    var u, y := Split(a, isSep), Split(b, isSep);
    SplitCons(x, a + [c] + b, isSep);
    SplitCons(x, a, isSep);
    ConsAppend([], u, y);
  }

  /** Any other character put in front of both a string and its split keeps the split additive. */
  lemma SplitAppendConsWord(x: char, a: string, c: char, b: string, isSep: char -> bool)
    requires !isSep(x)
    requires Split(a + [c] + b, isSep) == Split(a, isSep) + Split(b, isSep)
    ensures Split([x] + (a + [c] + b), isSep) == Split([x] + a, isSep) + Split(b, isSep)
  {
    var u, y := Split(a, isSep), Split(b, isSep);
    SplitCons(x, a + [c] + b, isSep);
    SplitCons(x, a, isSep);
    ExtendFirstAppend([x], u, y);
  }

  /** Every separator is a cut: splitting `a + [c] + b` at a separator `c` gives the splits of both sides. */
  lemma {:induction false} SplitAppend(a: string, c: char, b: string, isSep: char -> bool)
    requires isSep(c)
    ensures Split(a + [c] + b, isSep) == Split(a, isSep) + Split(b, isSep)
  {
    if a == [] {
      assert a + [c] + b == [c] + b;
      SplitCons(c, b, isSep);
    } else {
      SplitAppend(a[1..], c, b, isSep);
      if isSep(a[0]) {
        SplitAppendConsSep(a[0], a[1..], c, b, isSep);
      } else {
        SplitAppendConsWord(a[0], a[1..], c, b, isSep);
      }
      assert [a[0]] + a[1..] == a;
      assert a + [c] + b == [a[0]] + (a[1..] + [c] + b);
    }
  }

  /** The empty-piece filter: keeps the non-empty pieces in their order. */
  function RemoveEmpty(pieces: seq<string>): (r: seq<string>)
    ensures |r| <= |pieces|
    ensures forall i :: 0 <= i < |r| ==> r[i] != []
    ensures forall p :: p in r <==> p in pieces && p != []
  {
    if pieces == [] then []
    else if pieces[0] == [] then RemoveEmpty(pieces[1..])
    else [pieces[0]] + RemoveEmpty(pieces[1..])
  }

  /** Deletes every character for which `drop` holds, keeping the others in order. */
  function RemoveChars(s: string, drop: char -> bool): (r: string)
    ensures |r| <= |s|
    ensures forall i :: 0 <= i < |r| ==> !drop(r[i])
  {
    if s == [] then []
    else if drop(s[0]) then RemoveChars(s[1..], drop)
    else [s[0]] + RemoveChars(s[1..], drop)
  }

  lemma {:induction false} RemoveCharsAppend(a: string, b: string, drop: char -> bool)
    ensures RemoveChars(a + b, drop) == RemoveChars(a, drop) + RemoveChars(b, drop)
  {
    if a != [] {
      assert (a + b)[1..] == a[1..] + b;
      RemoveCharsAppend(a[1..], b, drop);
    } else {
      assert a + b == b;
    }
  }

  /** A kept character of `s` survives the deletion; a deleted one never appears. */
  lemma {:induction false} RemoveCharsMembership(s: string, drop: char -> bool, c: char)
    ensures c in RemoveChars(s, drop) <==> c in s && !drop(c)
  {
    if s != [] {
      RemoveCharsMembership(s[1..], drop, c);
      assert s == [s[0]] + s[1..];
    }
  }

  lemma {:induction false} ConcatRemoveEmpty(pieces: seq<string>)
    ensures Concat(RemoveEmpty(pieces)) == Concat(pieces)
  {
    if pieces != [] {
      ConcatRemoveEmpty(pieces[1..]);
    }
  }

  /** The filter works piece by piece: it distributes over concatenation, so order and repeats are kept. */
  lemma {:induction false} RemoveEmptyAppend(a: seq<string>, b: seq<string>)
    ensures RemoveEmpty(a + b) == RemoveEmpty(a) + RemoveEmpty(b)
  {
    if a == [] {
      assert a + b == b;
    } else {
      assert (a + b)[1..] == a[1..] + b;
      RemoveEmptyAppend(a[1..], b);
    }
  }

  /** One piece is kept if it is non-empty and dropped otherwise. */
  lemma RemoveEmptySingle(p: string)
    ensures RemoveEmpty([p]) == if p == [] then [] else [p]
  {
    assert [p][1..] == [];
  }

  /** A list of empty pieces filters to nothing. */
  lemma {:induction false} RemoveEmptyOfEmpties(pieces: seq<string>)
    requires forall i :: 0 <= i < |pieces| ==> pieces[i] == []
    ensures RemoveEmpty(pieces) == []
  {
    if pieces != [] {
      RemoveEmptyOfEmpties(pieces[1..]);
    }
  }

  /** Filtering a list that holds no empty piece changes nothing. */
  lemma {:induction false} RemoveEmptyOfNonEmpty(pieces: seq<string>)
    requires forall i :: 0 <= i < |pieces| ==> pieces[i] != []
    ensures RemoveEmpty(pieces) == pieces
  {
    if pieces != [] {
      RemoveEmptyOfNonEmpty(pieces[1..]);
    }
  }

  /** Deleting separators from a joined string leaves the concatenated pieces, minus separators. */
  lemma {:induction false} RemoveCharsJoin(sep: char, pieces: seq<string>, drop: char -> bool)
    requires drop(sep)
    ensures RemoveChars(Join(sep, pieces), drop) == RemoveChars(Concat(pieces), drop)
  {
    if |pieces| == 1 {
      assert Concat(pieces[1..]) == [];
      assert Concat(pieces) == pieces[0] + [] == pieces[0];
    } else if |pieces| > 1 {
      RemoveCharsJoin(sep, pieces[1..], drop);
      RemoveCharsAppend(pieces[0] + [sep], Join(sep, pieces[1..]), drop);
      RemoveCharsAppend(pieces[0], [sep], drop);
      RemoveCharsAppend(pieces[0], Concat(pieces[1..]), drop);
    }
  }

  /** Lowercasing commutes with joining when the separator has no case. */
  lemma {:induction false} LowerJoin(sep: char, pieces: seq<string>)
    requires !IsUpper(sep)
    ensures Lower(Join(sep, pieces)) == Join(sep, LowerAll(pieces))
  {
    if |pieces| > 1 {
      LowerJoin(sep, pieces[1..]);
      assert LowerAll(pieces)[1..] == LowerAll(pieces[1..]);
      LowerAppend(pieces[0] + [sep], Join(sep, pieces[1..]));
      LowerAppend(pieces[0], [sep]);
    }
  }

  /** Lowercasing commutes with deleting characters that lowercasing never produces or consumes. */
  lemma {:induction false} LowerRemoveChars(s: string, drop: char -> bool)
    requires forall c :: drop(ToLower(c)) == drop(c)
    ensures RemoveChars(Lower(s), drop) == Lower(RemoveChars(s, drop))
  {
    if s != [] {
      LowerRemoveChars(s[1..], drop);
      assert Lower(s) == [ToLower(s[0])] + Lower(s[1..]);
      assert Lower(s)[1..] == Lower(s[1..]);
      if !drop(s[0]) {
        LowerAppend([s[0]], RemoveChars(s[1..], drop));
      }
    }
  }

  /** Joining never gets longer when empty pieces are filtered out first. */
  lemma {:induction false} JoinRemoveEmptyLength(sep: char, pieces: seq<string>)
    ensures |Join(sep, RemoveEmpty(pieces))| <= |Join(sep, pieces)|
  {
    if pieces != [] {
      var rest := pieces[1..];
      JoinRemoveEmptyLength(sep, rest);
      if pieces[0] != [] {
        var kept := RemoveEmpty(rest);
        assert RemoveEmpty(pieces) == [pieces[0]] + kept;
        assert ([pieces[0]] + kept)[1..] == kept;
      }
    }
  }
}
