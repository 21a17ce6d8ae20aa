# Online TF-IDF state engine, modelled in Dafny

This project models the core of an online TF-IDF indexer. The indexer
receives one document at a time and does three things:

- It tokenizes the document's content.
- It stores the words and their per-document counts in three tables:
  - word name → id;
  - document title → id;
  - (document id, word id) → count.
- It recomputes every document of the corpus, each time:
  - its TF-IDF vector;
  - its list of "siblings": the other documents with a positive cosine
    similarity, ranked by similarity.

## Modules

| module | contents |
|---|---|
| `Model` (model.dfy) | the `Document` class: immutable id, title and vector, plus a mutable `siblings` list that starts empty; the `Sibling` datatype |
| `Tokenizer` (tokenizer.dfy) | the four-step tokenizer pipeline |
| `Similarity` (similarity.dfy) | dot product, norm and cosine similarity |
| `TfIdf` (tfidf.dfy) | document size, document frequency, IDF, TF, and the specification function of a document's vector |
| `Siblings` (siblings.dfy) | the sibling engine as imperative methods over the document objects, proved against specification functions |
| `Store` (store.dfy) | the tables as values: get-or-create (`Intern`), the counter upsert (`Bump`), ingestion as a fold (`IngestAll`), and the store invariant |
| `Engine` (engine.dfy) | the class `StateManager` |

The tokenizer pipeline in `Tokenizer`:

1. Punctuation becomes a space.
2. The string is split on each single whitespace character, and trailing empty pieces are removed.
3. Empty pieces are dropped.
4. Each piece is lowercased.

A reference definition, `Runs`, gives the maximal runs of non-separator
characters; the main lemma shows the pipeline yields exactly these runs,
lowercased.

In the sibling engine, the similarity function is a parameter.

`StateManager` holds the three tables as fields. Its methods do the following:

- look ids up, or get-or-create them;
- upsert counts;
- ingest a document;
- recompute the corpus, filling a `real` array per document and then running
  the sibling engine.

Each method that writes a table is proved to leave it as the matching `Store`
function says. The recomputation is proved to produce, for every row of the
document table, its TF-IDF vector and its final ranked sibling list.

The natural logarithm and the square root are parameters (`ln`, `sqrt`).
Everything is proved for any functions supplied, so no floating-point fact is
assumed. All arithmetic is on exact reals and unbounded integers.

Two behaviours of the code differ from the system's documented intent. The
model follows the code in both:

- **A title that is already stored is not ignored.** `createOrGetDocument`
  returns the existing id. `updateState` then tokenizes the new content and
  adds its counts under that id (`Engine.StateManager.UpdateState`).
- **Each upsert adds 2 to a count, not 1.** `createOrUpdateCounter` throws an
  `EmptyResultDataAccessException` right after the MERGE, on every call. Its
  own catch block then runs a second `UPDATE ... COUNT+1`. `Store.Bump` adds 2.
  `Store.DoubledCounts` proves the doubling changes no TF-IDF vector: term
  frequencies are ratios, and document frequencies count rows.

## Model

| member | source | states |
|---|---|---|
| Model.Document.constructor | src/main/java/com/hypercube/onlinetfidf/model/Document.java:8-23 | a new document has the given id, title and vector, and an empty sibling list |
| Engine.StateManager.constructor | src/main/java/com/hypercube/onlinetfidf/tfidf/StateManager.java:31-44 | the store starts with empty tables whose identities start at 1, and satisfies the store invariant |
| Engine.StateManager.GetWordId | src/main/java/com/hypercube/onlinetfidf/tfidf/StateManager.java:247-254 | an id is returned if and only if the word is stored, and it is the stored id |
| Engine.StateManager.GetDocumentId | src/main/java/com/hypercube/onlinetfidf/tfidf/StateManager.java:256-263 | an id is returned if and only if the title is stored, and it is the stored id |
| Engine.StateManager.CreateWord | src/main/java/com/hypercube/onlinetfidf/tfidf/StateManager.java:219-241 | the word table becomes get-or-create of the word: a duplicate falls back to the lookup; the id returned is the word's stored id; the other tables are unchanged; the store stays valid |
| Engine.StateManager.CreateDocument | src/main/java/com/hypercube/onlinetfidf/tfidf/StateManager.java:192-213 | a stored title returns no id and changes nothing; a new title gets an id no existing row holds and is added; the other tables are unchanged |
| Engine.StateManager.CreateOrGetWord | src/main/java/com/hypercube/onlinetfidf/tfidf/StateManager.java:243-245 | a known word returns its stored id and changes no table; a new word adds one row with an id different from every existing id; the store stays valid |
| Engine.StateManager.CreateOrGetDocument | src/main/java/com/hypercube/onlinetfidf/tfidf/StateManager.java:215-217 | a known title returns its stored id and changes no table; a new title adds one row with a fresh id; an id is always returned |
| Engine.StateManager.CreateOrUpdateCounter | src/main/java/com/hypercube/onlinetfidf/tfidf/StateManager.java:265-285 | when the document and the word exist, the counter becomes `Bump`: the pair's count rises by 2, a missing pair starting from 0, and every other pair is unchanged; otherwise the foreign keys reject it and nothing changes |
| Engine.StateManager.UpdateStateFromWord | src/main/java/com/hypercube/onlinetfidf/tfidf/StateManager.java:57-59 | for an existing document, the word and counter tables become `IngestWord` of their old value; the document table is unchanged |
| Engine.StateManager.IngestTokens | src/main/java/com/hypercube/onlinetfidf/tfidf/StateManager.java:50-51 | ingesting the tokens one by one leaves the word and counter tables equal to the fold `IngestAll` over the tokens, in order |
| Engine.StateManager.UpdateState | src/main/java/com/hypercube/onlinetfidf/tfidf/StateManager.java:46-55 | the document table becomes get-or-create of the title; the content's tokens are ingested under that id even when the title was known; every document returned is indexed and ranked |
| Engine.StateManager.ComputeTfIdf | src/main/java/com/hypercube/onlinetfidf/tfidf/StateManager.java:61-81 | one fresh document per row of the document table, each with its stored id and its TF-IDF vector of length MAX(ID); every sibling list is the final ranked list under cosine similarity |
| Engine.StateManager.ReadDocuments | src/main/java/com/hypercube/onlinetfidf/tfidf/StateManager.java:75-76 | one document per row of the document table, with distinct ids, each built from its own row's id and title |
| Engine.StateManager.ComputeTF | src/main/java/com/hypercube/onlinetfidf/tfidf/StateManager.java:149-171 | the document carries the given id and title, an empty sibling list, and the vector `TfIdfVector` of its id |
| Engine.StateManager.WordCount | src/main/java/com/hypercube/onlinetfidf/tfidf/StateManager.java:65-70 | the vector size is MAX(ID) of the word table: every word id lies in `1..WordCount()`, the largest id is held, and it is 0 exactly when the table is empty |
| Engine.Enumerate | src/main/java/com/hypercube/onlinetfidf/tfidf/StateManager.java:75 | the rows are listed once each: every key appears, and no key appears twice |
| Engine.FillStep | src/main/java/com/hypercube/onlinetfidf/tfidf/StateManager.java:158-164 | handling one counter row writes its weight at index `wordId - 1`, which is in bounds, and keeps every other entry |
| Engine.FilledAll | src/main/java/com/hypercube/onlinetfidf/tfidf/StateManager.java:151-164 | once every row of the document is handled, the vector equals `TfIdfVector` |
| Engine.TitlesToIds | src/main/java/com/hypercube/onlinetfidf/tfidf/StateManager.java:84-85 | documents with distinct titles have distinct ids, so the id-to-document map is well defined |
| Engine.SiblingsAreCosineNeighbours | src/main/java/com/hypercube/onlinetfidf/tfidf/StateManager.java:105-138 | document m is in document i's final list with score s if and only if m ≠ i, their cosine similarity is positive, and s is that similarity |
| Engine.NoSharedWordNotSiblings | src/main/java/com/hypercube/onlinetfidf/tfidf/StateManager.java:115-117 | two indexed documents with no word in common are never siblings |
| Store.Intern | src/main/java/com/hypercube/onlinetfidf/tfidf/StateManager.java:215-245 | after get-or-create the name is stored, exactly one name is added at most, and every existing name keeps its id |
| Store.InternValid | src/main/java/com/hypercube/onlinetfidf/tfidf/StateManager.java:219-233 | get-or-create keeps the table valid; a known name leaves it unchanged; a new name receives an id no row holds, and the table grows by exactly one row |
| Store.MaxId | src/main/java/com/hypercube/onlinetfidf/tfidf/StateManager.java:65-70 | MAX(ID) is null exactly when the table is empty; otherwise `next - 1` is an id and bounds every id |
| Store.Bump | src/main/java/com/hypercube/onlinetfidf/tfidf/StateManager.java:270-280 | the pair's count rises by exactly 2, the row is created if missing, and every other pair's count is unchanged |
| Store.IngestWord | src/main/java/com/hypercube/onlinetfidf/tfidf/StateManager.java:57-59 | one token: known words keep their ids, the token's word is stored and no other word is added; the count of (document, word) rises by 2 and every other count is unchanged |
| Store.IngestAll | src/main/java/com/hypercube/onlinetfidf/tfidf/StateManager.java:48-51 | ingesting the tokens in order keeps every known word's id, stores every token as a word, and adds no other word |
| Store.BumpKeepsStore | src/main/java/com/hypercube/onlinetfidf/tfidf/StateManager.java:265-285 | an upsert of an existing document and word keeps the store invariant (foreign keys; positive, even counts) |
| Store.IdOccurrencesStable | src/main/java/com/hypercube/onlinetfidf/tfidf/StateManager.java:57-59 | counting tokens by word id does not change when the word table only gains rows |
| Store.IngestAllCounts | src/main/java/com/hypercube/onlinetfidf/tfidf/StateManager.java:48-59 | ingestion changes only the counts of the document being ingested, each by twice the number of its tokens that carry that word id |
| Store.IdOccurrencesOfName | src/main/java/com/hypercube/onlinetfidf/tfidf/StateManager.java:247-254 | ids are unique, so the tokens carrying a word's id are exactly its occurrences |
| Store.CountsAfterIngest | src/main/java/com/hypercube/onlinetfidf/tfidf/StateManager.java:46-59 | after a document is ingested, the count of each of its words has grown by twice its number of occurrences among the tokens |
| Store.IngestAllValid | src/main/java/com/hypercube/onlinetfidf/tfidf/StateManager.java:57-59 | ingestion keeps the word table valid |
| Store.IngestWordKeepsStore | src/main/java/com/hypercube/onlinetfidf/tfidf/StateManager.java:57-59 | ingesting one token of an existing document keeps the store invariant |
| Store.IngestAllKeepsStore | src/main/java/com/hypercube/onlinetfidf/tfidf/StateManager.java:48-51 | ingesting all tokens of an existing document keeps the store invariant |
| Store.InternWordKeepsStore | src/main/java/com/hypercube/onlinetfidf/tfidf/StateManager.java:243-245 | get-or-create of a word keeps the store invariant |
| Store.InternDocumentKeepsStore | src/main/java/com/hypercube/onlinetfidf/tfidf/StateManager.java:215-217 | get-or-create of a document keeps the store invariant |
| Store.StoreWellFormed | src/main/java/com/hypercube/onlinetfidf/tfidf/StateManager.java:151-162 | every word id in the counter lies in `1..MAX(ID)`, so every index `wordId - 1` lies in `[0, wordCount)`, and every count is positive |
| Store.DoubledCounts | src/main/java/com/hypercube/onlinetfidf/tfidf/StateManager.java:276-280 | every count of a valid store is even, so the counter is exactly twice its halving; and halving every count changes no TF-IDF vector |
| TfIdf.DocSize | src/main/java/com/hypercube/onlinetfidf/tfidf/StateManager.java:154-155 | a document with no counter row among the word ids `1..n` has size 0 |
| TfIdf.DocFrequency | src/main/java/com/hypercube/onlinetfidf/tfidf/StateManager.java:186-187 | the document frequency of a word is positive exactly when some document holds the word |
| TfIdf.Idf | src/main/java/com/hypercube/onlinetfidf/tfidf/StateManager.java:188 | the IDF of a word every document holds is `1 + ln(1)`; whenever df does not exceed the document count, the IDF is one plus the logarithm of a ratio of at least 1 |
| Store.DocFrequencyBound | src/main/java/com/hypercube/onlinetfidf/tfidf/StateManager.java:185-188 | in a valid store a word is held by at most as many documents as the document table has rows, so the IDF of a held word is one plus the logarithm of a ratio of at least 1 |
| TfIdf.ComputeIdf | src/main/java/com/hypercube/onlinetfidf/tfidf/StateManager.java:185-190 | the IDF is `1 + ln(documentCount / df)`, where df is the number of counter rows for the word, and df > 0 |
| TfIdf.DocSizeBounds | src/main/java/com/hypercube/onlinetfidf/tfidf/StateManager.java:154-155 | with positive counts, a document's size is at least the count of each of its words |
| TfIdf.Tf | src/main/java/com/hypercube/onlinetfidf/tfidf/StateManager.java:160 | the term frequency of a word the document holds lies in `(0, 1]` |
| TfIdf.Weight | src/main/java/com/hypercube/onlinetfidf/tfidf/StateManager.java:158-164 | only a word the document holds has a non-zero entry, and that entry is its TF times the IDF of its document frequency |
| TfIdf.TfIdfVector | src/main/java/com/hypercube/onlinetfidf/tfidf/StateManager.java:151 | the vector has one entry per word id `1..MAX(ID)` |
| TfIdf.VectorSupport | src/main/java/com/hypercube/onlinetfidf/tfidf/StateManager.java:151-164 | only a word the document holds can have a non-zero entry; a document with no counter rows gets the all-zero vector |
| TfIdf.NoSharedWordNoSimilarity | src/main/java/com/hypercube/onlinetfidf/tfidf/StateManager.java:173-183 | two documents with no word in common have similarity exactly 0 |
| TfIdf.Scale | src/main/java/com/hypercube/onlinetfidf/tfidf/StateManager.java:276-280 | multiplying every count by a factor keeps the rows, and a positive factor keeps the table well-formed (positive counts, word ids in range) |
| TfIdf.DocSizeScale | src/main/java/com/hypercube/onlinetfidf/tfidf/StateManager.java:154-155 | scaling every count by c scales every document size by c |
| TfIdf.TfScale | src/main/java/com/hypercube/onlinetfidf/tfidf/StateManager.java:160 | scaling every count by the same positive factor leaves each term frequency unchanged |
| TfIdf.DocFrequencyScale | src/main/java/com/hypercube/onlinetfidf/tfidf/StateManager.java:186-187 | scaling every count leaves each document frequency unchanged |
| TfIdf.WeightScale | src/main/java/com/hypercube/onlinetfidf/tfidf/StateManager.java:160-163 | scaling every count by the same positive factor leaves each vector entry unchanged |
| TfIdf.ScaleInvariant | src/main/java/com/hypercube/onlinetfidf/tfidf/StateManager.java:154-164 | scaling every count by the same positive factor leaves every TF-IDF vector unchanged |
| Similarity.ComputeSimilarity | src/main/java/com/hypercube/onlinetfidf/tfidf/StateManager.java:173-183 | the similarity is exactly 0 when the product of the norms is 0, and also when the dot product is 0 |
| Similarity.Dot | src/main/java/com/hypercube/onlinetfidf/tfidf/StateManager.java:180-181 | vectors with no common non-zero dimension have dot product 0, and a vector's dot product with itself is never negative |
| Similarity.Norm | src/main/java/com/hypercube/onlinetfidf/tfidf/StateManager.java:174-177 | the norm is the square root of a quantity that is never negative, and the square root of 0 for a zero vector |
| Similarity.DotSymmetric | src/main/java/com/hypercube/onlinetfidf/tfidf/StateManager.java:180-181 | the dot product is symmetric |
| Similarity.SimilaritySymmetric | src/main/java/com/hypercube/onlinetfidf/tfidf/StateManager.java:173-183 | similarity(a, b) equals similarity(b, a) exactly, which justifies evaluating only the lower triangle |
| Similarity.DisjointSimilarityZero | src/main/java/com/hypercube/onlinetfidf/tfidf/StateManager.java:173-183 | vectors with no common non-zero dimension have similarity 0 |
| Similarity.ZeroVectorSimilarity | src/main/java/com/hypercube/onlinetfidf/tfidf/StateManager.java:178-179 | a zero vector has similarity 0 with every vector, in either order |
| Siblings.ComputeSiblings | src/main/java/com/hypercube/onlinetfidf/tfidf/StateManager.java:83-147 | every document's list becomes `FinalSiblings`, and similarity is evaluated exactly for the lower-triangle pairs, in order |
| Siblings.GatherSiblings | src/main/java/com/hypercube/onlinetfidf/tfidf/StateManager.java:105-126 | after the passes, every list holds its own entries for the lower documents followed by the entries mirrored from the higher documents (`Unsorted`) |
| Siblings.Pass | src/main/java/com/hypercube/onlinetfidf/tfidf/StateManager.java:106-125 | the pass of document i sets its own list, extends the lists of documents 0..i-1 and leaves the lists of the documents after i unchanged, keeping the gathered invariant |
| Siblings.SiblingsBelow | src/main/java/com/hypercube/onlinetfidf/tfidf/StateManager.java:107-125 | returns i's list of the positive entries for j < i, and appends each mirrored entry, with the same value, to the list of document j reached through the id map |
| Siblings.SortSiblingLists | src/main/java/com/hypercube/onlinetfidf/tfidf/StateManager.java:129-146 | every list is replaced by its stable descending sort |
| Siblings.ById | src/main/java/com/hypercube/onlinetfidf/tfidf/StateManager.java:84-85 | the id-to-document map sends each document's id to that document |
| Siblings.InsertDescendingPermutation | src/main/java/com/hypercube/onlinetfidf/tfidf/StateManager.java:134-138 | the inserted list holds the old entries plus exactly the new one, as a multiset |
| Siblings.InsertDescendingCorrect | src/main/java/com/hypercube/onlinetfidf/tfidf/StateManager.java:134-138 | inserting into a descending list keeps it descending and adds exactly the new entry |
| Siblings.InsertDescendingStable | src/main/java/com/hypercube/onlinetfidf/tfidf/StateManager.java:134-138 | for every similarity value, the inserted list's entries with that value are the old ones in their order, followed by the new entry if it has that value |
| Siblings.SortBySimilarity | src/main/java/com/hypercube/onlinetfidf/tfidf/StateManager.java:134-138 | the sort yields a descending permutation of its input, of the same length |
| Siblings.SortBySimilarityStable | src/main/java/com/hypercube/onlinetfidf/tfidf/StateManager.java:134-138 | the sort is stable: entries of equal similarity keep their relative order |
| Siblings.LowerMember | src/main/java/com/hypercube/onlinetfidf/tfidf/StateManager.java:108-117 | document m is among i's entries for the documents 0..j-1 exactly when m < j and sim(i, m) is positive, with that value |
| Siblings.MirroredMember | src/main/java/com/hypercube/onlinetfidf/tfidf/StateManager.java:118-124 | document m is among the entries mirrored into k's list by the documents below n exactly when k < m < n and sim(m, k) is positive, with that value |
| Siblings.LowerEntries | src/main/java/com/hypercube/onlinetfidf/tfidf/StateManager.java:115-117 | every entry of a document's own list has similarity > 0 and names another document |
| Siblings.MirroredEntries | src/main/java/com/hypercube/onlinetfidf/tfidf/StateManager.java:118-124 | every mirrored entry has similarity > 0 and names another document |
| Siblings.FinalSiblingsShape | src/main/java/com/hypercube/onlinetfidf/tfidf/StateManager.java:105-138 | every final entry has similarity > 0 and never names the document itself; the list is sorted descending and is a stable permutation of the unsorted list |
| Siblings.FinalSiblingsMember | src/main/java/com/hypercube/onlinetfidf/tfidf/StateManager.java:105-138 | document m is in i's final list with score s if and only if m ≠ i, the pair's similarity is positive, and s is that similarity |
| Siblings.SiblingsMirrored | src/main/java/com/hypercube/onlinetfidf/tfidf/StateManager.java:118-124 | `(j, s)` is in document i's final list if and only if `(i, s)` is in document j's final list, with the identical value |
| Siblings.IsolatedDocumentHasNoSiblings | src/main/java/com/hypercube/onlinetfidf/tfidf/StateManager.java:115-117 | a document whose similarity with every other document is not positive gets an empty list |
| Siblings.IsolatedEntry | src/main/java/com/hypercube/onlinetfidf/tfidf/StateManager.java:115-124 | every gathered entry names another document and carries that pair's similarity |
| Siblings.EntrySource | src/main/java/com/hypercube/onlinetfidf/tfidf/StateManager.java:115-124 | every entry of a partial own or mirrored list names another document and carries that pair's similarity |
| Siblings.PairsWithShape | src/main/java/com/hypercube/onlinetfidf/tfidf/StateManager.java:108 | pass i evaluates i pairs, each (i, j) with j < i |
| Siblings.LowerPairsStep | src/main/java/com/hypercube/onlinetfidf/tfidf/StateManager.java:105-108 | the pairs for i+1 documents are those for i documents followed by the pairs of pass i |
| Siblings.LowerPairsShape | src/main/java/com/hypercube/onlinetfidf/tfidf/StateManager.java:105-108 | exactly n(n-1)/2 pairs are evaluated, each (i, j) with j < i < n, so never a document with itself |
| Siblings.GatheredStep | src/main/java/com/hypercube/onlinetfidf/tfidf/StateManager.java:105-126 | pass i appends one pair's entry to each earlier list and starts i's own list |
| Siblings.GatheredAll | src/main/java/com/hypercube/onlinetfidf/tfidf/StateManager.java:105-126 | after all passes, every list is the unsorted list |
| Tokenizer.ReplacePunctuation | src/main/java/com/hypercube/onlinetfidf/tfidf/Tokenizer.java:12 | the length is kept, no punctuation of the replaced class is left, a character becomes whitespace exactly when it was a separator, and every other character is kept |
| Tokenizer.Pieces | src/main/java/com/hypercube/onlinetfidf/tfidf/Tokenizer.java:13 | splitting at every whitespace character gives one more piece than there are whitespace characters, and no piece holds whitespace |
| Tokenizer.TrimTrailingEmpty | src/main/java/com/hypercube/onlinetfidf/tfidf/Tokenizer.java:13 | removing trailing empty pieces leaves a prefix that is empty or ends with a non-empty piece, and removes only empty pieces |
| Tokenizer.TrimKeepsNonEmpty | src/main/java/com/hypercube/onlinetfidf/tfidf/Tokenizer.java:13-15 | removing trailing empty pieces does not change which non-empty pieces the filter keeps |
| Tokenizer.Split | src/main/java/com/hypercube/onlinetfidf/tfidf/Tokenizer.java:13 | a string without whitespace is its own single piece; otherwise the pieces are those of every whitespace split with the trailing empty pieces removed, and the non-empty pieces are those of `Pieces` |
| Tokenizer.DropEmpty | src/main/java/com/hypercube/onlinetfidf/tfidf/Tokenizer.java:15 | the result holds exactly the non-empty pieces |
| Tokenizer.ToLowerCase | src/main/java/com/hypercube/onlinetfidf/tfidf/Tokenizer.java:16 | lowercasing keeps the length, leaves no 'A'..'Z', keeps every separator a separator and every non-separator a non-separator, and changes nothing in a word without 'A'..'Z' |
| Tokenizer.LowerAll | src/main/java/com/hypercube/onlinetfidf/tfidf/Tokenizer.java:16 | every piece is lowercased, in order |
| Tokenizer.PiecesAreRuns | src/main/java/com/hypercube/onlinetfidf/tfidf/Tokenizer.java:12-15 | replacing punctuation, splitting and dropping empty pieces yields exactly the maximal runs of non-separator characters, in order |
| Tokenizer.Tokenize | src/main/java/com/hypercube/onlinetfidf/tfidf/Tokenizer.java:11-17 | the tokens are the maximal runs of non-separator characters of the content, in order, lowercased |
| Tokenizer.RunsWellFormed | src/main/java/com/hypercube/onlinetfidf/tfidf/Tokenizer.java:12-15 | every run is non-empty and holds no separator |
| Tokenizer.RunsEmptyIff | src/main/java/com/hypercube/onlinetfidf/tfidf/Tokenizer.java:12-15 | there are no runs exactly when every character is a separator |
| Tokenizer.RunsOfJoin | src/main/java/com/hypercube/onlinetfidf/tfidf/Tokenizer.java:12-15 | joining well-formed tokens with single spaces and taking the runs gives the tokens back |
| Tokenizer.LowerCharFacts | src/main/java/com/hypercube/onlinetfidf/tfidf/Tokenizer.java:16 | lowercasing never makes or unmakes a separator, never yields 'A'..'Z', and leaves other characters unchanged |
| Tokenizer.TokensWellFormed | src/main/java/com/hypercube/onlinetfidf/tfidf/Tokenizer.java:12-16 | every token is non-empty and holds no whitespace, no punctuation of the replaced class, and no 'A'..'Z' |
| Tokenizer.NoTokensIff | src/main/java/com/hypercube/onlinetfidf/tfidf/Tokenizer.java:12-15 | the content yields no token exactly when it consists only of whitespace and punctuation |
| Tokenizer.LowerAllIdentity | src/main/java/com/hypercube/onlinetfidf/tfidf/Tokenizer.java:16 | lowercasing tokens that are already lowercase changes nothing |
| Tokenizer.RetokenizeJoined | src/main/java/com/hypercube/onlinetfidf/tfidf/Tokenizer.java:12-16 | tokenizing the tokens joined by single spaces returns the same tokens |

## Left out

- Persistence mechanics are not modelled: connections, prepared statements, generated keys and Spring injection. The three tables are Dafny maps with an explicit next-id counter.
- The logged `SQLException` paths that return an empty `Optional` are not modelled, except for two outcomes of the schema's constraints:
  - a duplicate title is rejected, so `createDocument` returns no id;
  - a counter row whose document or word does not exist is rejected by the foreign keys.

  Without these paths, `createOrGetDocument` always yields an id, so the "Document ignored" branch of `updateState` cannot be reached.
- Concurrency is not modelled. This covers:
  - interleaved ingestion calls;
  - the non-atomic MERGE;
  - the retry after a concurrent duplicate insert.

  The model is sequential. In it, `createWord` on a stored word takes the lookup fallback directly.
- Whether a rejected insert consumes an identity value depends on the database. In the model it does not.
- `Engine.StateManager.ReadDocuments`: the order of `SELECT ID,NAME FROM DOCUMENT` is unspecified, so the model picks the rows in an arbitrary order (`Engine.Enumerate`). The sibling lists depend on that order only through equal-similarity ties.
- `Similarity.ComputeSimilarity`: floating-point `double` arithmetic is not modelled. `Math.log` and the square root of the L2 norm are parameters; every result is exact over the reals.
- `Similarity.Dot`: the vector library rejects vectors of different sizes, but the model pairs entries up to the shorter length. The engine only compares vectors of the same length.
- `TfIdf.DocSize` sums a document's counts over word ids `1..MAX(ID)` rather than over its rows. The two agree whenever every word id is in range, which `Store.StoreWellFormed` proves.
- `Engine.StateManager.ComputeTfIdf` requires a non-empty word table whenever documents exist. In the source, `MAX(ID)` is null in that case and `intValue()` fails; the model states a precondition instead of modelling the exception.
- The `Long` to `int` narrowing of `wordCount` and of word ids is not modelled: ids are unbounded integers.
- `Tokenizer.Split`: `String.split` takes a regular expression; the model fixes it to the single-character class `\s` used by the tokenizer. The removal of trailing empty pieces is modelled; the optional `limit` argument, which the tokenizer does not pass, is not.
- `Tokenizer.ToLowerCase`: the model maps only 'A'..'Z' to 'a'..'z'. `String.toLowerCase` also maps other Unicode letters, depending on the locale.
- Logging is not modelled. This covers the per-pair `peek` messages and the report loop around the sort.
- The HTTP endpoint that forwards a document to `updateState` (`ApplicationController.java`) is not part of this model.
- The `content` field and the id setter of the incoming `Document` are not modelled: they are transient. `updateState` takes the title and content directly.
