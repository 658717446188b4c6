# duplicate-finder, modelled in Dafny

duplicate-finder estimates how similar the text documents of a corpus are. It uses shingling and MinHash.

The class `DuplicateFinder` keeps one `FileData` record per document, keyed by its relative path. It runs three passes over every record:

1. **canonicalizeTexts.** Each text is lower-cased, decomposed (NFD) and stripped of combining marks. Punctuation is blanked, the text is split on whitespace runs, stop words are dropped, and the rest is re-joined with single spaces and trimmed.
2. **buildShinglesForAllTexts.** Each text is split on single spaces. Every window of `shingleSize` consecutive words, joined by spaces, is one shingle.
3. **computeMinHashesForAllTexts.** Each shingle set becomes an `int[numHashes]` signature. Slot `i` holds the least MurmurHash3 value of any shingle under seed `i`, or `Integer.MAX_VALUE` when there is none.

`compareHashes` then visits every pair of keys `i < j` in the map's iteration order. For each pair it reports the share of signature positions at which the two agree.

The project has seven modules:

- **JavaLang.** Java's `int`, its exceptions, and the `String` operations the finder relies on: `split(" ")`, `split("\\s+")`, `trim()` and joining with single spaces. Each is written out with Java's edge cases:
  - no separator gives `[s]`;
  - trailing empty pieces are dropped;
  - a leading separator gives a leading empty piece.
- **Canonicalizer.** `canonicalize` as a pure function, and what a canonical text looks like.
- **Shingles.** `buildShingles` as a loop, proved against the set of windows.
- **MinHash.** `computeMinHash` as a nested loop over an array, proved against a characterisation of each slot.
- **Similarity.** `calculateSimilarity` as a counting loop, proved against a recursive match count.
- **Entities.** `FileData` as a class with three mutable fields and their getters and setters.
- **DuplicateFinder.** The orchestrator class, with `fileDataMap` and the map's iteration order as fields. It covers:
  - the three passes, each proved to touch only its own field of the records. On success each updates every record. `buildShinglesForAllTexts` can fail part-way, and then only the records before the failing one in iteration order are updated;
  - the pair enumeration of `compareHashes`, proved to visit every unordered pair once.

The Unicode tables, `String.getBytes` and MurmurHash3 are parameters: `CharModel` for the first, `HashFamily` for the other two. A similarity is the exact pair `Ratio(matches, total)` rather than a `double`.

Signatures of unequal length are not rejected. `calculateSimilarity` checks no lengths: it raises `ArrayIndexOutOfBoundsException` only when its second signature is shorter than its first, and when the second is longer it compares the first one's positions and ignores the rest. `Similarity.CalculateSimilarity` states exactly that.

## Model

| member | source | states |
|---|---|---|
| JavaLang.Min | src/main/java/DuplicateFinder/DuplicateFinder.java:104 | `Math.min` returns one of its two arguments, and it is at most both |
| JavaLang.Join | src/main/java/DuplicateFinder/DuplicateFinder.java:51-52 | joining one or more words gives as many characters as the words hold together, plus one space between each two neighbours |
| JavaLang.SplitOnSpace | src/main/java/DuplicateFinder/DuplicateFinder.java:77 | no piece of `split(" ")` holds a space, and when the text has a space the last piece is non-empty |
| JavaLang.SplitOnSpaceRuns | src/main/java/DuplicateFinder/DuplicateFinder.java:49 | no piece of `split("\\s+")` holds whitespace, and every piece but the first is non-empty; `SplitOnSpaceRunsSqueeze` pins the pieces themselves |
| JavaLang.Squeeze | src/main/java/DuplicateFinder/DuplicateFinder.java:49 | the reference text for `split("\\s+")`: every whitespace run becomes one space, so it holds no whitespace but single spaces |
| JavaLang.SqueezeUnspaced | src/main/java/DuplicateFinder/DuplicateFinder.java:49 | squeezing keeps every non-whitespace character of the text, in order |
| JavaLang.SqueezeHasSpace | src/main/java/DuplicateFinder/DuplicateFinder.java:49 | the squeezed text holds a space exactly when the text holds whitespace |
| JavaLang.SqueezeNoSpace | src/main/java/DuplicateFinder/DuplicateFinder.java:49 | a text without whitespace squeezes to itself |
| JavaLang.SpaceRunPiecesSqueeze | src/main/java/DuplicateFinder/DuplicateFinder.java:49 | for every text, the pieces between whitespace runs are the pieces between single spaces of the squeezed text |
| JavaLang.SplitOnSpaceRunsSqueeze | src/main/java/DuplicateFinder/DuplicateFinder.java:49 | for every text, `split("\\s+")` is `split(" ")` of the squeezed text: its pieces are the maximal non-whitespace runs, in order, with Java's leading-empty and dropped-trailing-empty rules |
| JavaLang.SpaceRunPiecesJoin | src/main/java/DuplicateFinder/DuplicateFinder.java:49-51 | the pieces between whitespace runs, joined by single spaces, give back the squeezed text |
| JavaLang.JoinSpacePieces | src/main/java/DuplicateFinder/DuplicateFinder.java:77-83 | re-joining the pieces between single spaces with single spaces gives back the text |
| JavaLang.JoinTrailingEmpty | src/main/java/DuplicateFinder/DuplicateFinder.java:77 | leaving out trailing empty pieces shortens the joined text to a prefix and drops only spaces |
| JavaLang.SplitOnSpaceJoin | src/main/java/DuplicateFinder/DuplicateFinder.java:77-83 | `split(" ")` re-joined with single spaces is a prefix of the text, and everything it leaves off is spaces |
| JavaLang.SplitJoin | src/main/java/DuplicateFinder/DuplicateFinder.java:77-83 | splitting on single spaces undoes joining non-empty, space-free words with single spaces |
| JavaLang.JoinAppend | src/main/java/DuplicateFinder/DuplicateFinder.java:51 | joining two non-empty lists of words is joining each and putting one space between them |
| JavaLang.JoinLeadingEmpty | src/main/java/DuplicateFinder/DuplicateFinder.java:49-51 | a leading empty token contributes exactly one leading space to the joined text |
| JavaLang.JoinShape | src/main/java/DuplicateFinder/DuplicateFinder.java:51 | joining non-empty, space-free words gives a text that starts with the first word's first character, ends with the last word's last character, and holds only their characters and single spaces |
| JavaLang.TrimTrimmed | src/main/java/DuplicateFinder/DuplicateFinder.java:53 | trim leaves a text whose ends lie above U+0020 unchanged, and strips exactly one added leading space from it |
| JavaLang.Trim | src/main/java/DuplicateFinder/DuplicateFinder.java:53 | the result of trim is the text after its leading characters up to U+0020, followed in the text only by characters up to U+0020, and it is empty or starts and ends with a character above U+0020 |
| JavaLang.LeadingBlanks | src/main/java/DuplicateFinder/DuplicateFinder.java:53 | the count of leading characters up to U+0020 is the longest such prefix |
| JavaLang.TrailingBlanks | src/main/java/DuplicateFinder/DuplicateFinder.java:53 | the count of trailing characters up to U+0020 is the longest such suffix |
| JavaLang.SpacePiecesJoin | src/main/java/DuplicateFinder/DuplicateFinder.java:77-83 | the pieces between single spaces of joined space-free words are those words |
| JavaLang.NoSpacePieces | src/main/java/DuplicateFinder/DuplicateFinder.java:77 | a text without spaces is a single piece |
| JavaLang.SpacePiecesAppend | src/main/java/DuplicateFinder/DuplicateFinder.java:77 | a space between two texts separates their pieces |
| JavaLang.DropTrailingEmpty | src/main/java/DuplicateFinder/DuplicateFinder.java:49 | split drops exactly the trailing empty pieces: the result is a prefix that does not end in an empty piece, and everything after it is empty |
| Canonicalizer.Canonicalize | src/main/java/DuplicateFinder/DuplicateFinder.java:42-45 | the empty text canonicalizes to the empty text |
| Canonicalizer.StripMarks | src/main/java/DuplicateFinder/DuplicateFinder.java:47 | a character occurs in the result exactly when it occurs in the input and is not a mark, and a text without marks is unchanged; `StripMarksAppend` adds that the other characters keep their order and repeats |
| Canonicalizer.BlankPunctuation | src/main/java/DuplicateFinder/DuplicateFinder.java:48 | the length is kept, each letter, digit or whitespace character stays at its position, and every other character becomes a space there |
| Canonicalizer.DropStopWords | src/main/java/DuplicateFinder/DuplicateFinder.java:50 | a word occurs in the result exactly when it occurs in the input and is not a stop word; `DropStopWordsAppend` adds that kept words keep their order and repeats |
| Canonicalizer.FlatMap | src/main/java/DuplicateFinder/DuplicateFinder.java:46 | a per-character mapping that sends every character of the text to itself leaves the text unchanged; `FlatMapAppend` adds that each character is replaced in place and in order |
| Canonicalizer.FlatMapAppend | src/main/java/DuplicateFinder/DuplicateFinder.java:46 | mapping a concatenation maps each part and keeps them in order, so the result is the mapped characters one after another |
| Canonicalizer.StripMarksAppend | src/main/java/DuplicateFinder/DuplicateFinder.java:47 | stripping the marks of a concatenation strips each part, so the other characters keep their order and their repeats |
| Canonicalizer.DropStopWordsAppend | src/main/java/DuplicateFinder/DuplicateFinder.java:50 | filtering a concatenation filters each part, so the kept words keep their order and their repeats |
| Canonicalizer.CanonicalizeWords | src/main/java/DuplicateFinder/DuplicateFinder.java:42-54 | for every text, the output is the surviving tokens (without a leading empty one) joined by single spaces, and, when at least one word survives, splitting it on spaces gives those words back |
| Canonicalizer.CanonicalizeJoins | src/main/java/DuplicateFinder/DuplicateFinder.java:42-54 | the output is the surviving tokens, without a leading empty one, joined by single spaces, also for the empty text |
| Canonicalizer.Tokens | src/main/java/DuplicateFinder/DuplicateFinder.java:46-50 | no token reaching the join is a stop word, and none holds whitespace |
| Canonicalizer.TokensOfCanonical | src/main/java/DuplicateFinder/DuplicateFinder.java:46-53 | the tokens of a canonical text whose characters canonicalization leaves alone are exactly its words split on single spaces |
| Canonicalizer.TokensShape | src/main/java/DuplicateFinder/DuplicateFinder.java:46-50 | the tokens before joining are made of letters and digits, none is a stop word, and only the first can be empty |
| Canonicalizer.KeptEmptyIsFirst | src/main/java/DuplicateFinder/DuplicateFinder.java:49-50 | filtering out stop words keeps an empty piece only in first place |
| Canonicalizer.SplitOnSpaceRunsShape | src/main/java/DuplicateFinder/DuplicateFinder.java:49 | the pieces of a whitespace split hold only characters that satisfy whatever every character of the text satisfies |
| Canonicalizer.SpaceRunPiecesShape | src/main/java/DuplicateFinder/DuplicateFinder.java:49 | the pieces between whitespace runs hold only characters that satisfy whatever every character of the text satisfies |
| Canonicalizer.TrimJoin | src/main/java/DuplicateFinder/DuplicateFinder.java:49-53 | trimming the joined tokens removes exactly the space that a leading empty token produces and nothing else |
| Canonicalizer.CanonicalJoin | src/main/java/DuplicateFinder/DuplicateFinder.java:51 | joining non-empty words made of letters and digits, none a stop word, gives a canonical text |
| Canonicalizer.DropLeadingEmptyShape | src/main/java/DuplicateFinder/DuplicateFinder.java:49-53 | without the leading empty token every token is a non-empty word of letters and digits and no stop word |
| Canonicalizer.CanonicalTokens | src/main/java/DuplicateFinder/DuplicateFinder.java:49-53 | joining and trimming tokens of the shape the filter leaves gives a canonical text |
| Canonicalizer.CanonicalizeIsCanonical | src/main/java/DuplicateFinder/DuplicateFinder.java:42-54 | every output has no whitespace at either end, only letters, digits and single spaces between words, no stop word among its words, and re-joins from its own words |
| Canonicalizer.CanonicalizeIdempotent | src/main/java/DuplicateFinder/DuplicateFinder.java:42-54 | canonicalizing a canonical text again changes nothing, when its characters are already lower-case, decomposed and mark-free |
| Canonicalizer.SplitOnSpaceRunsOfCanonical | src/main/java/DuplicateFinder/DuplicateFinder.java:49 | on a canonical text, splitting on whitespace runs and splitting on single spaces agree |
| Canonicalizer.RunPiecesAreSpacePieces | src/main/java/DuplicateFinder/DuplicateFinder.java:49 | with only single ' ' separators, the whitespace-run pieces are the single-space pieces |
| Shingles.BuildShingles | src/main/java/DuplicateFinder/DuplicateFinder.java:71-86 | fails with IllegalArgument exactly when the text is empty or the width is not positive; otherwise returns exactly the set of every window of that many words of `text.split(" ")` |
| Shingles.WindowsCount | src/main/java/DuplicateFinder/DuplicateFinder.java:78-85 | there are no shingles exactly when the text has fewer words than the width; otherwise there are between 1 and n - k + 1 |
| Shingles.WindowsBeforeCount | src/main/java/DuplicateFinder/DuplicateFinder.java:82-84 | the first m turns of the loop add at most m shingles |
| Shingles.ShingleWords | src/main/java/DuplicateFinder/DuplicateFinder.java:77-83 | a shingle of non-empty, space-free words splits back into exactly its words |
| MinHash.ComputeMinHash | src/main/java/DuplicateFinder/DuplicateFinder.java:96-108 | the array is new and has numHashes slots, and slot i is at most every seed-i hash of a shingle and is either one of them or Integer.MAX_VALUE, whatever order the set is visited in |
| MinHash.SlotMinInsert | src/main/java/DuplicateFinder/DuplicateFinder.java:104 | one more `Math.min` accounts for one more shingle |
| MinHash.SlotMinUnique | src/main/java/DuplicateFinder/DuplicateFinder.java:100-106 | a slot's value is determined by the shingle set alone |
| MinHash.SignatureUnique | src/main/java/DuplicateFinder/DuplicateFinder.java:96-108 | equal shingle sets give equal signatures, so the result does not depend on the HashSet's iteration order |
| MinHash.EmptySignature | src/main/java/DuplicateFinder/DuplicateFinder.java:97-98 | the signature of the empty shingle set is all Integer.MAX_VALUE, and nothing else is |
| MinHash.SlotMinMonotone | src/main/java/DuplicateFinder/DuplicateFinder.java:100-106 | adding shingles can only lower a slot |
| Similarity.CalculateSimilarity | src/main/java/DuplicateFinder/DuplicateFinder.java:128-136 | fails with IndexOutOfBounds exactly when the second signature is shorter than the first; otherwise the matching positions of the first signature's length, over that length |
| Similarity.MatchCount | src/main/java/DuplicateFinder/DuplicateFinder.java:129-134 | the count never exceeds the first signature's length |
| Similarity.Estimate | src/main/java/DuplicateFinder/DuplicateFinder.java:135 | the ratio's numerator is at most its denominator, which is the first signature's length, so the similarity lies in [0, 1] when the first signature is non-empty |
| Similarity.MatchCountIsPositions | src/main/java/DuplicateFinder/DuplicateFinder.java:129-134 | the count is the number of positions at which the signatures agree |
| Similarity.MatchCountSymmetric | src/main/java/DuplicateFinder/DuplicateFinder.java:130-131 | for equal-length signatures the count is symmetric in its arguments |
| Similarity.MatchCountPrefix | src/main/java/DuplicateFinder/DuplicateFinder.java:130-131 | only the first signature's length of the second signature is read |
| Similarity.MatchCountFull | src/main/java/DuplicateFinder/DuplicateFinder.java:128-135 | every position matches exactly when the first signature is a prefix of the second, so a signature scores 1 against itself |
| Entities.FileData.constructor | src/main/java/Entities/FileData.java:6-12 | the record holds the given text, and its shingles and signature are unset |
| Entities.FileData.SetText | src/main/java/Entities/FileData.java:14-20 | getText then returns the new text, and the shingles and signature are untouched |
| Entities.FileData.SetShingles | src/main/java/Entities/FileData.java:22-28 | getShingles then returns the new set, and the text and signature are untouched |
| Entities.FileData.SetMinHash | src/main/java/Entities/FileData.java:30-36 | getMinHash then returns the new array, and the text and shingles are untouched |
| DuplicateFinder.PairsBefore | src/main/java/DuplicateFinder/DuplicateFinder.java:113-117 | every pair the first rows visit is made of keys of the map |
| DuplicateFinder.AllPairsCount | src/main/java/DuplicateFinder/DuplicateFinder.java:113-117 | M keys give M * (M - 1) / 2 comparisons |
| DuplicateFinder.ReportCount | src/main/java/DuplicateFinder/DuplicateFinder.java:113-117 | the report over M keys holds M * (M - 1) / 2 comparisons |
| DuplicateFinder.CorpusReportCount | src/main/java/DuplicateFinder/DuplicateFinder.java:113-117 | a corpus of M documents, each listed once, gives M * (M - 1) / 2 comparisons |
| DuplicateFinder.KeysCount | src/main/java/DuplicateFinder/DuplicateFinder.java:113 | a map keyed by exactly the entries of a list without repeats has as many keys as the list has entries |
| DuplicateFinder.DistinctCard | src/main/java/DuplicateFinder/DuplicateFinder.java:113 | a list without repeats has as many distinct entries as entries |
| DuplicateFinder.PairsBeforeCount | src/main/java/DuplicateFinder/DuplicateFinder.java:113-117 | the first rows of the loop give the triangular count of pairs |
| DuplicateFinder.AllPairsExactlyOnce | src/main/java/DuplicateFinder/DuplicateFinder.java:113-117 | every pair of keys i < j is compared, only such pairs are, none twice, none in both orders, and no key with itself |
| DuplicateFinder.OrderedAntisymmetric | src/main/java/DuplicateFinder/DuplicateFinder.java:113-114 | with distinct keys, a pair in increasing position is never also in decreasing position, and is never a key with itself |
| DuplicateFinder.PairsBeforeSound | src/main/java/DuplicateFinder/DuplicateFinder.java:113-117 | every pair the first rows visit is two keys in increasing position |
| DuplicateFinder.PairsBeforeComplete | src/main/java/DuplicateFinder/DuplicateFinder.java:113-117 | every pair of keys in increasing position whose first key lies in the first rows is visited |
| DuplicateFinder.PairsBeforeNoDuplicates | src/main/java/DuplicateFinder/DuplicateFinder.java:113-117 | with distinct keys, the first rows visit no pair twice |
| DuplicateFinder.ReportIsPairs | src/main/java/DuplicateFinder/DuplicateFinder.java:111-126 | the report holds one comparison per visited pair, in visiting order, each carrying the similarity of the two signatures |
| DuplicateFinder.ReportBeforeIsPairs | src/main/java/DuplicateFinder/DuplicateFinder.java:113-126 | the first rows' report matches the first rows' pairs one for one |
| DuplicateFinder.SameShinglesScoreOne | src/main/java/DuplicateFinder/DuplicateFinder.java:96-135 | two documents with the same shingles score n out of n, even when both shingle sets are empty |
| DuplicateFinder.SharedMinimumMatches | src/main/java/DuplicateFinder/DuplicateFinder.java:100-106 | when the least hash over both shingle sets comes from a shared shingle, the two slots agree |
| DuplicateFinder.DuplicateFinder.DocumentCount | src/main/java/DuplicateFinder/DuplicateFinder.java:113 | the iteration order lists each document once, so it is as long as the map is large |
| DuplicateFinder.DuplicateFinder.constructor | src/main/java/DuplicateFinder/DuplicateFinder.java:17-35 | one new record per document, holding its raw text, with shingles and signature unset, and no record shared between keys |
| DuplicateFinder.DuplicateFinder.CanonicalizeTexts | src/main/java/DuplicateFinder/DuplicateFinder.java:56-61 | every record's text becomes the canonical form of its old text |
| DuplicateFinder.DuplicateFinder.BuildShinglesForAllTexts | src/main/java/DuplicateFinder/DuplicateFinder.java:64-69 | succeeds exactly when no record has an empty text and, if there is any record, the width is positive, and then every record holds the windows of its text; otherwise fails with IllegalArgument at some record, after the records before it in iteration order were set and with the rest untouched |
| DuplicateFinder.DuplicateFinder.ComputeMinHashesForAllTexts | src/main/java/DuplicateFinder/DuplicateFinder.java:89-94 | every record gets a new array holding the MinHash signature of its own shingles, of length numHashes, and no two records share an array |
| DuplicateFinder.DuplicateFinder.CompareFileHashes | src/main/java/DuplicateFinder/DuplicateFinder.java:120-126 | the comparison carries the two paths and the similarity of their records' signatures |
| DuplicateFinder.DuplicateFinder.CompareHashes | src/main/java/DuplicateFinder/DuplicateFinder.java:111-118 | the report is exactly the comparisons of every pair of keys i < j in iteration order, each with its similarity, and a corpus of M documents gives M * (M - 1) / 2 of them |
| DuplicateFinder.DuplicateFinder.CompareRow | src/main/java/DuplicateFinder/DuplicateFinder.java:114-116 | the inner loop reports key i against every later key, in order |
| DuplicateFinder.DuplicateFinder.FindDuplicates | src/main/java/DuplicateFinder/DuplicateFinder.java:139-141 | the same report as compareHashes, with M * (M - 1) / 2 comparisons for M documents |

## Left out

- File loading is left out: `loadTexts` and `readFileContent` (directory walk, file reads, logging). The constructor takes the map from relative path to text that they build. An I/O error that skips a file is not modelled.
- `Main` is CLI wiring with fixed constants and is not part of this model.
- Unicode is not modelled: `toLowerCase`, NFD normalisation, and the classes `\p{M}`, `\p{L}` and `\p{N}`. They are the per-character functions of `CharModel`. The only thing assumed of them is that no letter or digit lies at or below U+0020 (`WellFormed`).
- Canonicalizer.FlatMap: lower-casing is modelled one character at a time. Java's locale- and context-sensitive mappings, such as the Greek final sigma, are not captured.
- `String.getBytes` and `MurmurHash3.hash32x86` are the two functions of `HashFamily`, assumed only to be deterministic. Their bit-level behaviour is not modelled.
- The statistical claims of MinHash are not proved: the estimate approximates the Jaccard similarity, and it grows with it. They depend on the hash family behaving like random permutations.
- Floating point and printing are not modelled. `compareFileHashes` prints `similarity * 100` with `printf`; the model returns a `Comparison` with the exact `Ratio(matches, total)` instead. A `total` of 0, which is Java's 0.0 / 0 (NaN), is kept as `Ratio(0, 0)`.
- The null text that `canonicalize` guards against is left out: a Dafny string cannot be null.
- DuplicateFinder.DuplicateFinder.ComputeMinHashesForAllTexts requires `0 <= numHashes <= Integer.MAX_VALUE` and every record's shingles to be set. In Java a negative count throws NegativeArraySizeException, and unset shingles throw NullPointerException; both paths are left out.
- DuplicateFinder.DuplicateFinder.CompareHashes requires every signature to be set and all of them to have one length, as computeMinHashesForAllTexts leaves them. The exception Java throws partway through the report for a shorter second signature is not modelled.
- DuplicateFinder.DuplicateFinder.CompareFileHashes requires the first signature to be no longer than the second. The failing case is modelled in `Similarity.CalculateSimilarity`, not here.
- Canonicalizer.CanonicalizeIdempotent needs every character of the canonical text to be left alone by lower-casing, decomposition and mark stripping (`IsStable`). Whether the Unicode tables guarantee this is outside the model.
- HashMap iteration order is the field `order`, an arbitrary fixed listing of the keys. HashSet iteration order in `computeMinHash` is an arbitrary choice at each step.
- Concurrency is left out: the finder runs the passes sequentially, and so does the model.
