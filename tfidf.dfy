/**
 * The integer half of the Java TF-IDF comparison: the shared vocabulary,
 * the term-frequency maps and the document frequencies that feed the
 * logarithm. Each is built by a loop, as in the source.
 */
module TfIdf {
  import opened Preprocess

  // ---------------------------------------------------------------------
  // Specification functions.

  /** The number of documents whose word list contains `term`. */
  function DocumentCount(documents: seq<seq<string>>, term: string): nat
  {
    if documents == [] then 0
    else
      var last := documents[|documents| - 1];
      DocumentCount(documents[..|documents| - 1], term) + (if term in last then 1 else 0)
  }

  /** The sum of the values of a map, in no particular key order. */
  ghost function SumValues(m: map<string, nat>): nat
    decreases |m|
  {
    if m == map[] then 0
    else
      var k :| k in m;
      m[k] + SumValues(m - {k})
  }

  lemma {:induction false} SumValuesRemove(m: map<string, nat>, k: string)
    requires k in m
    ensures SumValues(m) == m[k] + SumValues(m - {k})
    decreases |m|
  {
    var k' :| k' in m && SumValues(m) == m[k'] + SumValues(m - {k'});
    if k' != k {
      var m1 := m - {k'};
      SumValuesRemove(m1, k);
      var m2 := m - {k};
      SumValuesRemove(m2, k');
      assert m1 - {k} == m2 - {k'};
    }
  }

  /** Setting one key moves the sum by the difference between the new and the old value. */
  lemma SumValuesUpdate(m: map<string, nat>, k: string, v: nat)
    ensures SumValues(m[k := v]) == SumValues(m) - (if k in m then m[k] else 0) + v
  {
    SumValuesRemove(m[k := v], k);
    assert m[k := v] - {k} == m - {k};
    if k in m {
      SumValuesRemove(m, k);
    } else {
      assert m - {k} == m;
    }
  }

  // ---------------------------------------------------------------------
  // Document frequency.

  /** A term is in between none and all of the documents. */
  lemma {:induction false} DocumentCountBounds(documents: seq<seq<string>>, term: string)
    ensures DocumentCount(documents, term) <= |documents|
    ensures DocumentCount(documents, term) > 0 <==> exists j :: 0 <= j < |documents| && term in documents[j]
    ensures DocumentCount(documents, term) == |documents| <==> forall j :: 0 <= j < |documents| ==> term in documents[j]
  {
    if documents != [] {
      var n := |documents| - 1;
      var init := documents[..n];
      DocumentCountBounds(init, term);
      assert forall j :: 0 <= j < n ==> init[j] == documents[j];
    }
  }

  /** Over the two documents of a comparison, a vocabulary term has a document frequency of 1 or 2. */
  lemma PairDocumentCount(words1: seq<string>, words2: seq<string>, term: string)
    requires term in words1 || term in words2
    ensures 1 <= DocumentCount([words1, words2], term) <= 2
    ensures DocumentCount([words1, words2], term) == 2 <==> term in words1 && term in words2
  {
    var b1, b2 := if term in words1 then 1 else 0, if term in words2 then 1 else 0;
    assert [words1, words2][..1] == [words1];
    assert [words1][..0] == [];
    assert DocumentCount([words1], term) == b1;
    assert DocumentCount([words1, words2], term) == b1 + b2;
  }

  // ---------------------------------------------------------------------
  // The loops of the source.

  /** Set.addAll: the set grown by every word of the list. */
  method AddAll(vocabulary: set<string>, words: seq<string>) returns (r: set<string>)
    ensures forall w :: w in r <==> w in vocabulary || w in words
  {
    r := vocabulary;
    for i := 0 to |words|
      invariant forall w :: w in r <==> w in vocabulary || w in words[..i]
    {
      assert words[..i + 1] == words[..i] + [words[i]];
      r := r + {words[i]};
    }
    assert words[..|words|] == words;
  }

  /** The vocabulary: every word of either list, and nothing else. */
  method BuildVocabulary(words1: seq<string>, words2: seq<string>) returns (vocabulary: set<string>)
    ensures forall w :: w in vocabulary <==> w in words1 || w in words2
  {
    vocabulary := {};
    vocabulary := AddAll(vocabulary, words1);
    vocabulary := AddAll(vocabulary, words2);
  }

  /**
   * computeTermFrequency: each distinct word mapped to its number of
   * occurrences, with no other key; the counts add up to the list length.
   */
  method ComputeTermFrequency(words: seq<string>) returns (tf: map<string, nat>)
    ensures forall w :: w in tf <==> w in words
    ensures forall w :: w in tf ==> tf[w] == multiset(words)[w]
    ensures SumValues(tf) == |words|
  {
    tf := map[];
    for i := 0 to |words|
      invariant forall w :: w in tf <==> w in words[..i]
      invariant forall w :: w in tf ==> tf[w] == multiset(words[..i])[w]
      invariant SumValues(tf) == i
    {
      var word := words[i];
      var count := if word in tf then tf[word] else 0;
      SumValuesUpdate(tf, word, count + 1);
      assert words[..i + 1] == words[..i] + [word];
      tf := tf[word := count + 1];
    }
    assert words[..|words|] == words;
  }

  /** The first loop of computeIDF: each vocabulary term mapped to the number of documents containing it. */
  method ComputeDocumentFrequency(documents: seq<seq<string>>, vocabulary: set<string>)
    returns (df: map<string, nat>)
    ensures df.Keys == vocabulary
    ensures forall t :: t in df ==> df[t] == DocumentCount(documents, t) && df[t] <= |documents|
  {
    df := map[];
    var remaining := vocabulary;
    while remaining != {}
      invariant remaining <= vocabulary
      invariant df.Keys == vocabulary - remaining
      invariant forall t :: t in df ==> df[t] == DocumentCount(documents, t) && df[t] <= |documents|
      decreases remaining
    {
      var term :| term in remaining;
      var count := 0;
      for j := 0 to |documents|
        invariant count == DocumentCount(documents[..j], term)
      {
        assert documents[..j + 1][..j] == documents[..j];
        if term in documents[j] {
          count := count + 1;
        }
      }
      assert documents[..|documents|] == documents;
      DocumentCountBounds(documents, term);
      df := df[term := count];
      remaining := remaining - {term};
    }
  }

  /**
   * The two integers of one IDF entry: the argument of Math.log is
   * totalDocuments / documentFrequency.
   */
  datatype IdfArgument = IdfArgument(totalDocuments: nat, documentFrequency: nat)

  /**
   * computeIDF without the logarithm: one entry per vocabulary term, holding
   * the document count and the term's document frequency.
   */
  method ComputeIdf(documents: seq<seq<string>>, vocabulary: set<string>)
    returns (idf: map<string, IdfArgument>)
    ensures idf.Keys == vocabulary
    ensures forall t :: t in idf ==> idf[t] == IdfArgument(|documents|, DocumentCount(documents, t))
  {
    var df := ComputeDocumentFrequency(documents, vocabulary);
    var totalDocuments := |documents|;
    idf := map[];
    var entries := df.Keys;
    while entries != {}
      invariant entries <= df.Keys
      invariant idf.Keys == df.Keys - entries
      invariant forall t :: t in idf ==> idf[t] == IdfArgument(totalDocuments, df[t])
      decreases entries
    {
      var term :| term in entries;
      idf := idf[term := IdfArgument(totalDocuments, df[term])];
      entries := entries - {term};
    }
  }

  /** Everything computeTFIDF counts before it turns to floating point. */
  datatype Counts = Counts(
    words1: seq<string>,
    words2: seq<string>,
    vocabulary: set<string>,
    termFrequency1: map<string, nat>,
    termFrequency2: map<string, nat>,
    idf: map<string, IdfArgument>)

  /**
   * computeTFIDF up to the score: clean and tokenize both texts, build the
   * vocabulary, both term-frequency maps and the IDF arguments. Every
   * vocabulary term has an IDF entry over two documents whose document
   * frequency is 1 or 2, so totalDocuments / df is always defined; it is 2
   * exactly for the terms the two texts share.
   */
  method ComputeCounts(content1: string, content2: string, stem: string -> string) returns (c: Counts)
    ensures c.words1 == Tokenize(Clean(content1), stem)
    ensures c.words2 == Tokenize(Clean(content2), stem)
    ensures forall w :: w in c.vocabulary <==> w in c.words1 || w in c.words2
    ensures forall w :: w in c.termFrequency1 <==> w in c.words1
    ensures forall w :: w in c.termFrequency1 ==> c.termFrequency1[w] == multiset(c.words1)[w]
    ensures forall w :: w in c.termFrequency2 <==> w in c.words2
    ensures forall w :: w in c.termFrequency2 ==> c.termFrequency2[w] == multiset(c.words2)[w]
    ensures c.idf.Keys == c.vocabulary
    ensures forall t :: t in c.idf ==>
              && c.idf[t].totalDocuments == 2
              && 1 <= c.idf[t].documentFrequency <= 2
              && (c.idf[t].documentFrequency == 2 <==> t in c.words1 && t in c.words2)
  {
    var text1 := Clean(content1);
    var text2 := Clean(content2);
    var words1 := Tokenize(text1, stem);
    var words2 := Tokenize(text2, stem);
    var vocabulary := BuildVocabulary(words1, words2);
    var termFrequency1 := ComputeTermFrequency(words1);
    var termFrequency2 := ComputeTermFrequency(words2);
    var idf := ComputeIdf([words1, words2], vocabulary);
    forall t | t in idf
      ensures 1 <= DocumentCount([words1, words2], t) <= 2
      ensures DocumentCount([words1, words2], t) == 2 <==> t in words1 && t in words2
    {
      PairDocumentCount(words1, words2, t);
    }
    c := Counts(words1, words2, vocabulary, termFrequency1, termFrequency2, idf);
  }
}
