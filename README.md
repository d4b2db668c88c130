# OCR text comparison: text preparation and counting

The repository runs an OCR engine over a few images and scores each result
against a reference transcription, once in C# and once in Java. This project
models the part of both programs that is integer and string logic, and proves
its properties in Dafny:

- **C# `NormalizeText`** (`Normalizer`). A null or blank string becomes empty.
  Any other string is split on the space character alone, its empty pieces are
  dropped, the remaining tokens are joined with single spaces, and the result is
  lowercased. "Blank" means .NET `char.IsWhiteSpace`. Only `' '` separates
  tokens: tabs and line breaks stay inside tokens.
- **Java bag-of-words preparation** (`Preprocess`):
  - the cleaning step of `loadAndPreprocessText`, which keeps ASCII letters and
    the `\s` whitespace characters and then lowercases;
  - `tokenize`, which splits at whitespace runs exactly as `String.split("\\s+")`
    does, drops empty pieces and stems every word. The stemmer is a function
    parameter.
- **Java counting** (`TfIdf`), written as loops as in the source:
  - the shared vocabulary, built with `addAll`;
  - `computeTermFrequency`;
  - the document-frequency loop of `computeIDF`;
  - the loop that pairs every term with `totalDocuments` and its df. These are
    the two integers whose quotient is passed to `Math.log`.
- **`ComputeCounts`** strings the Java steps together for two texts. It proves
  that every vocabulary term gets an IDF entry over 2 documents with df equal to
  1 or 2. So `totalDocuments / df` never divides by zero. It also proves that
  df is 2 exactly for the terms the two texts share.

`Text` holds the helpers both programs use: ASCII lowercasing, joining,
concatenation, the split at separator characters, the empty-piece filter and
character deletion.

The Java `computeTFIDF` sums `tf * log(totalDocuments / df)` over the
vocabulary for both texts. The model stops before that score: it computes the
token lists, the term frequencies and the integer pair `(totalDocuments, df)`
of every term, but no logarithm and no score. Counts are unbounded naturals.
This is exact: a Java `String` holds at most 2^31 - 1 characters, so a text has
fewer words than that and no `Integer` count can wrap.

## Model

| member | source | states |
|---|---|---|
| `Text.RemoveEmpty` | OCR_CSharp/Program.cs:30 | The result holds no empty piece and holds exactly the non-empty pieces of the input (`RemoveEmptyEntries`; also Java's `filter(!isEmpty)`) |
| `Text.RemoveEmptyAppend` | OCR_CSharp/Program.cs:30 | Filtering distributes over concatenation, so order and repeats of the kept pieces are preserved |
| `Text.RemoveEmptySingle` | OCR_Java/src/main/java/com/example/App.java:89 | A single piece is kept iff it is non-empty; with `RemoveEmptyAppend` this fixes the filter on every list |
| `Text.Split` | OCR_CSharp/Program.cs:30 | `Split(' ')`, and the reference cut at every `\s` character for Java: at least one piece, and no piece holds a separator |
| `Text.SplitAppend` | OCR_CSharp/Program.cs:30 | Every separator is a cut: the split of `a + [c] + b`, with `c` a separator, is the split of `a` followed by the split of `b` |
| `Normalizer.JoinSplit` | OCR_CSharp/Program.cs:30 | Joining the pieces of the split on `' '` with `' '` restores the string |
| `Normalizer.SplitJoin` | OCR_CSharp/Program.cs:30 | Splitting on `' '` a join of space-free pieces gives back exactly those pieces |
| `Normalizer.NormalizeText` | OCR_CSharp/Program.cs:26-31 | Null, empty or white-space-only input gives `""`; the result never holds an upper-case ASCII letter |
| `Normalizer.NormalizedIsJoinOfTokens` | OCR_CSharp/Program.cs:30 | For non-blank input the result is the lowercased space tokens joined by single spaces, each token non-empty and space-free |
| `Normalizer.NormalizedWellSpaced` | OCR_CSharp/Program.cs:30 | The result never starts or ends with a space and never has two spaces in a row |
| `Normalizer.NormalizedTokens` | OCR_CSharp/Program.cs:30 | For non-blank input, splitting the result on `' '` gives exactly the input's non-empty space tokens, lowercased, in order |
| `Normalizer.NormalizedKeepsNonSpaces` | OCR_CSharp/Program.cs:30 | For non-blank input, removing every space from the result equals the lowercase of the input with every space removed, so tabs and newlines survive |
| `Normalizer.NormalizedNotBlank` | OCR_CSharp/Program.cs:28-30 | Non-blank input never normalises to a blank string |
| `Normalizer.NormalizeIdempotent` | OCR_CSharp/Program.cs:26-31 | Normalising twice equals normalising once |
| `Normalizer.NormalizedNotLonger` | OCR_CSharp/Program.cs:30 | The result is never longer than the input |
| `Preprocess.Clean` | OCR_Java/src/main/java/com/example/App.java:79 | Cleaning never lengthens; every kept character is `a`-`z` or `\s` whitespace |
| `Preprocess.CleanAppend` | OCR_Java/src/main/java/com/example/App.java:79 | Cleaning distributes over concatenation (character-wise filter and case fold) |
| `Preprocess.CleanChar` | OCR_Java/src/main/java/com/example/App.java:79 | One character is lowercased when it is a letter or whitespace and deleted otherwise; with `CleanAppend` this fixes the result as the lowercase of the ordered subsequence of letters and whitespace |
| `Preprocess.CleanFixpoint` | OCR_Java/src/main/java/com/example/App.java:79 | Cleaning leaves a string unchanged if and only if it holds only `a`-`z` and whitespace |
| `Preprocess.CleanIdempotent` | OCR_Java/src/main/java/com/example/App.java:79 | Cleaning twice equals cleaning once |
| `Preprocess.SplitRuns` | OCR_Java/src/main/java/com/example/App.java:87 | Splitting at whitespace runs gives at least one piece and no piece holds whitespace; `SplitRunsAgrees`, `RunsInteriorNonEmpty` and `LastPiece` fix the pieces |
| `Preprocess.RunsInteriorNonEmpty` | OCR_Java/src/main/java/com/example/App.java:87 | A whitespace run is one cut: every piece strictly between the first and the last is non-empty |
| `Preprocess.LastPiece` | OCR_Java/src/main/java/com/example/App.java:87 | The run split ends in an empty piece (and has at least two) exactly when the text ends in whitespace, the piece that the limit-0 split then removes |
| `Preprocess.SplitRunsJoin` | OCR_Java/src/main/java/com/example/App.java:87 | Splitting at whitespace runs a single-space join of non-empty, whitespace-free words gives exactly those words |
| `Preprocess.SplitRunsAgrees` | OCR_Java/src/main/java/com/example/App.java:87 | The split at maximal runs has the same first piece, and the same non-empty later pieces in order, as a split at every single whitespace character |
| `Preprocess.StripTrailingEmpty` | OCR_Java/src/main/java/com/example/App.java:87 | `split` drops only trailing empty strings: the result is a prefix that does not end in `""` and everything cut off is `""` |
| `Preprocess.JavaSplit` | OCR_Java/src/main/java/com/example/App.java:87 | No piece of `split("\\s+")` contains whitespace; `JavaSplitIsWords` fixes the whole result |
| `Preprocess.JavaSplitIsWords` | OCR_Java/src/main/java/com/example/App.java:87 | `split("\\s+")` of a whitespace-free text is the text alone; otherwise it is the words, after one empty piece exactly when the text starts with whitespace and holds a word |
| `Preprocess.DoubleSpaceIsOneCut` | OCR_Java/src/main/java/com/example/App.java:87 | Two words separated by two spaces split into exactly those two words |
| `Preprocess.Words` | OCR_Java/src/main/java/com/example/App.java:87-89 | Every word is non-empty and whitespace-free |
| `Preprocess.WordsContent` | OCR_Java/src/main/java/com/example/App.java:87-89 | Laid end to end, the words are the text with its whitespace deleted, in order |
| `Preprocess.WordsAreNonEmptyPieces` | OCR_Java/src/main/java/com/example/App.java:87-89 | The words of every text are exactly the non-empty pieces, in order, of the cut at every whitespace character |
| `Preprocess.WordsOfEmpty` | OCR_Java/src/main/java/com/example/App.java:87-89 | The empty text has no words |
| `Preprocess.WordsOfWord` | OCR_Java/src/main/java/com/example/App.java:87-89 | A non-empty whitespace-free text is exactly one word |
| `Preprocess.WordsSplitAtSpace` | OCR_Java/src/main/java/com/example/App.java:87-89 | Any whitespace character (space, tab, newline, vertical tab, form feed, carriage return) separates words: `Words(a + [c] + b) == Words(a) + Words(b)`; with the two lemmas above this fixes the words of every text, including runs and edge whitespace |
| `Preprocess.TabSeparatesWords` | OCR_Java/src/main/java/com/example/App.java:87-89 | `"a\tb"` has the two words `"a"` and `"b"` |
| `Preprocess.WordsOfJoin` | OCR_Java/src/main/java/com/example/App.java:87-89 | Non-empty whitespace-free words joined by single spaces split back into exactly those words |
| `Preprocess.Tokenize` | OCR_Java/src/main/java/com/example/App.java:86-92 | One token `stem(w)` per word `w`, in the text's order |
| `Preprocess.TokensNonEmpty` | OCR_Java/src/main/java/com/example/App.java:87-90 | No token is empty when the stemmer keeps non-empty words non-empty |
| `Preprocess.CleanWordsAreLetters` | OCR_Java/src/main/java/com/example/App.java:79-89 | After cleaning, every word consists of the letters `a`-`z` only |
| `TfIdf.AddAll` | OCR_Java/src/main/java/com/example/App.java:43-44 | `addAll` yields exactly the old members plus every word of the list |
| `TfIdf.BuildVocabulary` | OCR_Java/src/main/java/com/example/App.java:42-44 | The vocabulary is exactly the words occurring in either list |
| `TfIdf.ComputeTermFrequency` | OCR_Java/src/main/java/com/example/App.java:97-103 | Keys are exactly the distinct words, each maps to its number of occurrences, and the counts sum to the list length |
| `TfIdf.SumValuesUpdate` | OCR_Java/src/main/java/com/example/App.java:100 | A `put` changes the sum of counts by the new value minus the old one |
| `TfIdf.DocumentCountBounds` | OCR_Java/src/main/java/com/example/App.java:110-118 | df is at most the number of documents; it is positive iff some document contains the term, and equals the number of documents iff all do |
| `TfIdf.ComputeDocumentFrequency` | OCR_Java/src/main/java/com/example/App.java:108-118 | The df map has exactly the vocabulary as keys; each df is the number of documents containing the term and is at most `documents.size()` |
| `TfIdf.ComputeIdf` | OCR_Java/src/main/java/com/example/App.java:108-127 | The IDF map has exactly the vocabulary as keys; each entry holds `totalDocuments` and that term's df |
| `TfIdf.PairDocumentCount` | OCR_Java/src/main/java/com/example/App.java:110-120 | Over two documents, a term from either one has df 1 or 2, and 2 iff both contain it |
| `TfIdf.ComputeCounts` | OCR_Java/src/main/java/com/example/App.java:31-51 | Tokens come from clean-then-tokenize, the vocabulary is their union, TF maps count occurrences, and every vocabulary term's IDF entry has `totalDocuments` 2 and df in 1..2 (2 iff shared), so the division before `Math.log` is always defined |

## Left out

- OCR engine calls and their file I/O (`OCRTesseract`, `OCRIronTesseract`, `extractTextAndSave`), and both `Main`/`main` drivers: engine and file-system plumbing.
- File reading in `loadAndPreprocessText`, and the `IOException` handler of `computeTFIDF` that returns 0.0. Texts are parameters here.
- `CalculateTFIDFSimilarity`, which relies on ML.NET's `FeaturizeText`, whose weighting is not visible, and `CalculateCosineSimilarity`, which is floating-point arithmetic. So similarity symmetry, identical texts scoring 100%, and the rounding before scaling by 100 are not modelled.
- The floating-point part of the Java score: `Math.log`, the `tfidfScore` sum, `getOrDefault` on the TF maps, and the rounding. The model stops at the integer arguments of the division.
- The Porter stemmer, an external library. It is the `stem` parameter of `Preprocess.Tokenize`.
- Normalizer.NormalizeText: lowercases ASCII letters only. .NET `ToLower` uses the current culture: it also lowercases non-ASCII letters, and under a Turkish (`tr`) or Azerbaijani (`az`) culture it maps `I` to a dotless `ı`. The no-upper-case guarantee is stated for ASCII.
- Preprocess.Clean: uses ASCII lowercasing. That is exact for the characters the filter keeps, except under a Turkish (`tr`) or Azerbaijani (`az`) default locale, where Java maps `I` to a dotless `ı`.
- Preprocess.TokensNonEmpty: assumes the stemmer maps non-empty words to non-empty words. The source filters empty pieces before stemming and does not check the stemmer's output.
- `HashSet`/`HashMap` iteration order is unspecified in the source. Loops over them pick an arbitrary remaining element. `List.contains` is sequence membership.
