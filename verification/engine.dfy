/**
 * The state manager: the three tables of the store, the get-or-create and
 * upsert operations on them, ingestion of one document, and the full
 * recomputation of every document's TF-IDF vector and ranked siblings.
 *
 * Each operation that writes a table is proved to leave it as the matching
 * function of `Store` says (`Intern`, `Bump`, `IngestAll`); the lemmas of
 * `Store` then give id stability, the exact count increments and the store
 * invariant. The recomputation is proved to yield, for every document,
 * `TfIdfVector` and the `FinalSiblings` list under cosine similarity.
 */
module Engine {
  import opened Model
  import opened Tokenizer
  import opened Similarity
  import opened TfIdf
  import opened Siblings
  import opened Store

  /** The similarity documents are ranked by: the cosine of their vectors. */
  function Cosine(sqrt: real -> real): (Document, Document) -> real
  {
    (a: Document, b: Document) => ComputeSimilarity(a.vector, b.vector, sqrt)
  }

  /**
   * `docs` holds one document per row of the document table, each with its
   * stored id and the TF-IDF vector the counter table gives it.
   */
  ghost predicate Indexed(docs: seq<Document>, documents: Table, counter: Counter, wordCount: nat, ln: real -> real)
  {
    WellFormed(counter, wordCount)
    && |docs| == |documents.ids|
    && DistinctIds(docs)
    && (forall k :: 0 <= k < |docs| ==> Built(docs[k], documents, counter, wordCount, ln))
    && (forall t :: t in documents.ids ==> exists k :: 0 <= k < |docs| && docs[k].title == t)
  }

  /** `doc` is the row of the document table with its title, holding the TF-IDF vector of its id. */
  ghost predicate Built(doc: Document, documents: Table, counter: Counter, wordCount: nat, ln: real -> real)
  {
    WellFormed(counter, wordCount)
    && doc.title in documents.ids && doc.id == documents.ids[doc.title]
    && doc.vector == TfIdfVector(counter, doc.id, wordCount, |documents.ids|, ln)
  }

  /** Every document carries its final ranked sibling list under cosine similarity. */
  ghost predicate Ranked(docs: seq<Document>, sqrt: real -> real)
    reads set d | d in docs
  {
    forall k :: 0 <= k < |docs| ==> docs[k].siblings == FinalSiblings(docs, Cosine(sqrt), k)
  }

  class StateManager {
    var words: Table
    var documents: Table
    var counter: Counter

    ghost predicate Valid()
      reads this
    {
      StoreValid(words, documents, counter)
    }

    /**
     * The size of the vector space: MAX(ID) of the word table, 0 when it is
     * empty. Every word id lies in `1..WordCount()` and the largest is held.
     */
    function WordCount(): (r: nat)
      reads this
      requires Valid()
      ensures forall n :: n in words.ids ==> 1 <= words.ids[n] <= r
      ensures r == 0 <==> words.ids == map[]
      ensures r > 0 ==> r in words.ids.Values
    {
      words.next - 1
    }

    constructor ()
      ensures Valid()
      ensures words == Empty && documents == Empty && counter == map[]
    {
      words := Empty;
      documents := Empty;
      counter := map[];
    }

    method GetWordId(word: string) returns (r: Option<int>)
      ensures r.Some? <==> word in words.ids
      ensures r.Some? ==> r.value == words.ids[word]
    {
      if word in words.ids {
        r := Some(words.ids[word]);
      } else {
        r := None;
      }
    }

    method GetDocumentId(name: string) returns (r: Option<int>)
      ensures r.Some? <==> name in documents.ids
      ensures r.Some? ==> r.value == documents.ids[name]
    {
      if name in documents.ids {
        r := Some(documents.ids[name]);
      } else {
        r := None;
      }
    }

    /**
     * Inserts a word. When the name is already stored the unique constraint
     * rejects the insert and the existing id is looked up instead.
     */
    method CreateWord(word: string) returns (r: Option<int>)
      requires Valid()
      modifies this
      ensures Valid()
      ensures words == Intern(old(words), word)
      ensures documents == old(documents) && counter == old(counter)
      ensures r == Some(words.ids[word])
    {
      InternWordKeepsStore(words, documents, counter, word);
      if word in words.ids {
        r := GetWordId(word);
      } else {
        var id := words.next;
        words := Table(words.ids[word := id], id + 1);
        r := Some(id);
        assert words == Intern(old(words), word);
      }
    }

    /** Inserts a document. A title already stored violates the unique constraint: no id. */
    method CreateDocument(title: string) returns (r: Option<int>)
      requires Valid()
      modifies this
      ensures Valid()
      ensures title in old(documents.ids) ==> r == None && documents == old(documents)
      ensures title !in old(documents.ids) ==>
                documents == Intern(old(documents), title) && r == Some(documents.ids[title])
                && r.value !in old(documents.ids.Values)
      ensures words == old(words) && counter == old(counter)
    {
      InternDocumentKeepsStore(words, documents, counter, title);
      InternValid(documents, title);
      if title in documents.ids {
        r := None;
      } else {
        var id := documents.next;
        documents := Table(documents.ids[title := id], id + 1);
        r := Some(id);
        assert documents == Intern(old(documents), title);
      }
    }

    /** Returns the stored id of a word, creating the word when it is new. */
    method CreateOrGetWord(word: string) returns (r: Option<int>)
      requires Valid()
      modifies this
      ensures Valid()
      ensures words == Intern(old(words), word)
      ensures documents == old(documents) && counter == old(counter)
      ensures r == Some(words.ids[word])
      ensures word in old(words.ids) ==> words == old(words) && r.value == old(words.ids[word])
      ensures word !in old(words.ids) ==> r.value !in old(words.ids.Values)
    {
      InternValid(words, word);
      r := GetWordId(word);
      if r.None? {
        r := CreateWord(word);
      }
    }

    /** Returns the stored id of a document, creating the document when its title is new. */
    method CreateOrGetDocument(title: string) returns (r: Option<int>)
      requires Valid()
      modifies this
      ensures Valid()
      ensures documents == Intern(old(documents), title)
      ensures words == old(words) && counter == old(counter)
      ensures r == Some(documents.ids[title])
      ensures title in old(documents.ids) ==> documents == old(documents) && r.value == old(documents.ids[title])
      ensures title !in old(documents.ids) ==> r.value !in old(documents.ids.Values)
    {
      InternValid(documents, title);
      r := GetDocumentId(title);
      if r.None? {
        r := CreateDocument(title);
      }
    }

    /**
     * Upserts the count of `(d, w)`: the merge inserts 1 or adds 1, and the
     * exception raised right after it always leads to a second update adding
     * 1. A pair whose document or word does not exist violates a foreign key
     * and changes nothing.
     */
    method CreateOrUpdateCounter(d: int, w: int)
      requires Valid()
      modifies this
      ensures Valid()
      ensures counter == (if d in documents.ids.Values && w in words.ids.Values then Bump(old(counter), d, w)
                          else old(counter))
      ensures words == old(words) && documents == old(documents)
    {
      if d in documents.ids.Values && w in words.ids.Values {
        BumpKeepsStore(words, documents, counter, d, w);
        ghost var before := counter;
        counter := counter[(d, w) := if (d, w) in counter then counter[(d, w)] + 1 else 1];
        counter := counter[(d, w) := counter[(d, w)] + 1];
        assert counter == before[(d, w) := Count(before, d, w) + 2];
      }
    }

    /** Ingests one token of document `d`. */
    method UpdateStateFromWord(d: int, word: string)
      requires Valid()
      modifies this
      ensures Valid()
      ensures documents == old(documents)
      ensures d in documents.ids.Values ==> Ingested(words, counter) == IngestWord(Ingested(old(words), old(counter)), d, word)
      ensures d !in documents.ids.Values ==> words == Intern(old(words), word) && counter == old(counter)
    {
      var id := CreateOrGetWord(word);
      if id.Some? {
        CreateOrUpdateCounter(d, id.value);
      }
    }

    /**
     * Builds the document for row `(d, name)`: a zero vector of length
     * `wordCount`, then for each counter row of `d` the entry `wordId - 1`
     * set to the term frequency times the inverse document frequency.
     */
    method ComputeTF(d: int, name: string, wordCount: nat, documentCount: nat, ln: real -> real)
      returns (doc: Document)
      requires WellFormed(counter, wordCount)
      ensures fresh(doc)
      ensures doc.id == d && doc.title == name && doc.siblings == []
      ensures doc.vector == TfIdfVector(counter, d, wordCount, documentCount, ln)
    {
      var vector := new real[wordCount](i => 0.0);
      var docSize := DocSize(counter, d, wordCount) as real;
      var pending := set k | k in counter && k.0 == d;
      while pending != {}
        invariant pending <= counter.Keys
        invariant forall k :: k in pending ==> k.0 == d
        invariant Filled(vector[..], counter, d, pending, wordCount, documentCount, ln)
        decreases |pending|
      {
        var row :| row in pending;
        var w := row.1;
        DocSizeBounds(counter, d, wordCount, w);
        var tf := counter[row] as real / docSize;
        var weight := tf * ComputeIdf(counter, d, w, documentCount, ln);
        assert weight == Weight(counter, d, w, wordCount, documentCount, ln);
        FillStep(vector[..], counter, d, pending, row, wordCount, documentCount, ln);
        ghost var prev := vector[..];
        vector[w - 1] := weight;
        assert vector[..] == prev[w - 1 := weight];
        pending := pending - {row};
      }
      FilledAll(vector[..], counter, d, wordCount, documentCount, ln);
      doc := new Document(d, name, vector[..]);
    }

    /**
     * Recomputes every document: its vector from the current tables, then
     * the ranked sibling lists. The word table must not be empty while
     * documents exist: MAX(ID) has no value then.
     */
    method ComputeTfIdf(sqrt: real -> real, ln: real -> real) returns (docs: seq<Document>)
      requires Valid()
      requires documents.ids == map[] || words.ids != map[]
      ensures forall k :: 0 <= k < |docs| ==> fresh(docs[k])
      ensures Indexed(docs, documents, counter, WordCount(), ln)
      ensures Ranked(docs, sqrt)
    {
      StoreWellFormed(words, documents, counter);
      docs := ReadDocuments(WordCount(), |documents.ids|, ln);
      ghost var evaluated := ComputeSiblings(docs, Cosine(sqrt));
    }

    /**
     * One document per row of the document table, built by `ComputeTF`. The
     * rows come in no particular order.
     */
    method ReadDocuments(wordCount: nat, documentCount: nat, ln: real -> real) returns (docs: seq<Document>)
      requires WellFormed(counter, wordCount) && documentCount == |documents.ids|
      requires forall a, b :: a in documents.ids && b in documents.ids && documents.ids[a] == documents.ids[b] ==> a == b
      ensures forall k :: 0 <= k < |docs| ==> fresh(docs[k])
      ensures Indexed(docs, documents, counter, wordCount, ln)
    {
      var titles := Enumerate(documents.ids.Keys);
      docs := [];
      for i := 0 to |titles|
        invariant |docs| == i
        invariant forall k :: 0 <= k < i ==> fresh(docs[k]) && docs[k].title == titles[k]
        invariant forall k :: 0 <= k < i ==> Built(docs[k], documents, counter, wordCount, ln)
      {
        var doc := ComputeTF(documents.ids[titles[i]], titles[i], wordCount, documentCount, ln);
        docs := docs + [doc];
      }
      assert forall t :: t in documents.ids ==> exists k :: 0 <= k < |docs| && docs[k].title == t by {
        forall t | t in documents.ids ensures exists k :: 0 <= k < |docs| && docs[k].title == t {
          var k :| 0 <= k < |titles| && titles[k] == t;
          assert docs[k].title == t;
        }
      }
      TitlesToIds(docs, documents);
      assert Indexed(docs, documents, counter, wordCount, ln);
    }

    /** Ingests the tokens of document `d` one after the other, in order. */
    method IngestTokens(d: int, tokens: seq<string>)
      requires Valid() && d in documents.ids.Values
      modifies this
      ensures Valid()
      ensures documents == old(documents)
      ensures Ingested(words, counter) == IngestAll(Ingested(old(words), old(counter)), d, tokens)
    {
      ghost var start := Ingested(words, counter);
      var i := 0;
      while i < |tokens|
        invariant 0 <= i <= |tokens|
        invariant Valid()
        invariant documents == old(documents)
        invariant Ingested(words, counter) == IngestAll(start, d, tokens[..i])
      {
        ghost var before := Ingested(words, counter);
        UpdateStateFromWord(d, tokens[i]);
        assert Ingested(words, counter) == IngestWord(before, d, tokens[i]);
        IngestAllStep(start, d, tokens, i);
        i := i + 1;
      }
      assert tokens[..i] == tokens;
    }

    /**
     * Ingests one document: gets or creates its id, ingests every token of
     * its content under that id (also when the title was already known), and
     * recomputes the whole corpus.
     */
    method UpdateState(title: string, content: string, sqrt: real -> real, ln: real -> real)
      returns (docs: seq<Document>)
      requires Valid()
      requires words.ids != map[] || Tokenize(content) != []
      modifies this
      ensures Valid()
      ensures documents == Intern(old(documents), title)
      ensures Ingested(words, counter)
           == IngestAll(Ingested(old(words), old(counter)), documents.ids[title], Tokenize(content))
      ensures forall k :: 0 <= k < |docs| ==> fresh(docs[k])
      ensures Indexed(docs, documents, counter, WordCount(), ln)
      ensures Ranked(docs, sqrt)
    {
      var id := CreateOrGetDocument(title);
      var tokens := Tokenize(content);
      ghost var start := Ingested(words, counter);
      if id.Some? {
        IngestTokens(id.value, tokens);
      }
      assert words.ids != map[] by {
        if tokens != [] {
          assert tokens[0] in tokens;
        }
      }
      docs := ComputeTfIdf(sqrt, ln);
    }
  }

  /**
   * The vector being built for document `d`: the entry of every word whose
   * row is already handled holds its weight, every other entry is still 0.
   */
  ghost predicate Filled(v: seq<real>, counter: Counter, d: int, pending: set<(int, int)>,
                         wordCount: nat, documentCount: nat, ln: real -> real)
    requires WellFormed(counter, wordCount)
  {
    |v| == wordCount &&
    forall i :: 0 <= i < wordCount ==>
      v[i] == if (d, i + 1) in counter && (d, i + 1) !in pending
              then Weight(counter, d, i + 1, wordCount, documentCount, ln) else 0.0
  }

  /** Handling one more row of `d` writes its weight at entry `w - 1`. */
  lemma FillStep(v: seq<real>, counter: Counter, d: int, pending: set<(int, int)>, row: (int, int),
                 wordCount: nat, documentCount: nat, ln: real -> real)
    requires WellFormed(counter, wordCount) && Filled(v, counter, d, pending, wordCount, documentCount, ln)
    requires row in pending && row in counter && row.0 == d
    ensures 0 <= row.1 - 1 < |v|
    ensures Filled(v[row.1 - 1 := Weight(counter, d, row.1, wordCount, documentCount, ln)],
                   counter, d, pending - {row}, wordCount, documentCount, ln)
  {
  }

  /** Once every row is handled, the vector is the document's TF-IDF vector. */
  lemma FilledAll(v: seq<real>, counter: Counter, d: int, wordCount: nat, documentCount: nat, ln: real -> real)
    requires WellFormed(counter, wordCount) && Filled(v, counter, d, {}, wordCount, documentCount, ln)
    ensures v == TfIdfVector(counter, d, wordCount, documentCount, ln)
  {
  }

  /** The rows of a table, one per key, in an order the store chooses. */
  method Enumerate(keys: set<string>) returns (titles: seq<string>)
    ensures |titles| == |keys|
    ensures forall k :: 0 <= k < |titles| ==> titles[k] in keys
    ensures forall t :: t in keys ==> exists k :: 0 <= k < |titles| && titles[k] == t
    ensures forall a, b :: 0 <= a < b < |titles| ==> titles[a] != titles[b]
  {
    var pending := keys;
    titles := [];
    while pending != {}
      invariant pending <= keys
      invariant |titles| + |pending| == |keys|
      invariant forall k :: 0 <= k < |titles| ==> titles[k] in keys && titles[k] !in pending
      invariant forall t :: t in keys && t !in pending ==> exists k :: 0 <= k < |titles| && titles[k] == t
      invariant forall a, b :: 0 <= a < b < |titles| ==> titles[a] != titles[b]
      decreases |pending|
    {
      var title :| title in pending;
      ghost var before := titles;
      titles := titles + [title];
      pending := pending - {title};
      assert forall t :: t in keys && t !in pending ==> exists k :: 0 <= k < |titles| && titles[k] == t by {
        forall t | t in keys && t !in pending ensures exists k :: 0 <= k < |titles| && titles[k] == t {
          if t == title {
            assert titles[|before|] == t;
          } else {
            var k :| 0 <= k < |before| && before[k] == t;
            assert titles[k] == t;
          }
        }
      }
    }
  }

  /** Documents with distinct titles carry distinct ids, since the table gives each title its own id. */
  lemma TitlesToIds(docs: seq<Document>, documents: Table)
    requires forall a, b :: a in documents.ids && b in documents.ids && documents.ids[a] == documents.ids[b] ==> a == b
    requires forall k :: 0 <= k < |docs| ==> docs[k].title in documents.ids && docs[k].id == documents.ids[docs[k].title]
    requires forall a, b :: 0 <= a < b < |docs| ==> docs[a].title != docs[b].title
    ensures DistinctIds(docs)
  {
    forall a, b | 0 <= a < |docs| && 0 <= b < |docs| && docs[a].id == docs[b].id ensures a == b {
      assert docs[a].title == docs[b].title;
    }
  }

  // ---------------------------------------------------------------------------
  // What the recomputation promises about siblings
  // ---------------------------------------------------------------------------

  /**
   * Document `m` is in document `i`'s ranked list with score `s` exactly when
   * it is another document, their cosine similarity is positive and `s` is
   * that similarity, whichever of the two was evaluated first.
   */
  lemma SiblingsAreCosineNeighbours(docs: seq<Document>, sqrt: real -> real, i: nat, m: nat, s: real)
    requires DistinctIds(docs) && i < |docs| && m < |docs|
    ensures Sibling(docs[m].id, s) in FinalSiblings(docs, Cosine(sqrt), i)
        <==> m != i && ComputeSimilarity(docs[i].vector, docs[m].vector, sqrt) > 0.0
             && s == ComputeSimilarity(docs[i].vector, docs[m].vector, sqrt)
  {
    FinalSiblingsMember(docs, Cosine(sqrt), i, m, s);
    SimilaritySymmetric(docs[i].vector, docs[m].vector, sqrt);
  }

  /** Two indexed documents that share no word are never siblings of each other. */
  lemma NoSharedWordNotSiblings(docs: seq<Document>, documents: Table, counter: Counter, wordCount: nat,
                                ln: real -> real, sqrt: real -> real, i: nat, m: nat, s: real)
    requires Indexed(docs, documents, counter, wordCount, ln) && i < |docs| && m < |docs|
    requires forall w :: (docs[i].id, w) in counter ==> (docs[m].id, w) !in counter
    ensures Sibling(docs[m].id, s) !in FinalSiblings(docs, Cosine(sqrt), i)
  {
    SiblingsAreCosineNeighbours(docs, sqrt, i, m, s);
    NoSharedWordNoSimilarity(counter, docs[i].id, docs[m].id, wordCount, |documents.ids|, ln, sqrt);
  }
}
