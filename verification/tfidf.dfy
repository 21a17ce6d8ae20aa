/**
 * The vector builder's arithmetic over the counter table. The table maps a
 * (document id, word id) pair to its count. A document's vector has one entry
 * per word id `1..wordCount` (entry `w - 1` for word `w`): the term frequency
 * `count / docSize` times the inverse document frequency
 * `1 + ln(documentCount / df)`, and 0 for a word the document does not hold.
 * The natural logarithm is a parameter (`ln`) whose values the model does not fix.
 */
module TfIdf {
  import opened Similarity

  /** (document id, word id) to count. */
  type Counter = map<(int, int), int>

  /** Every count is positive and every word id lies in `1..wordCount`. */
  predicate WellFormed(counter: Counter, wordCount: nat)
  {
    forall k :: k in counter ==> counter[k] > 0 && 1 <= k.1 <= wordCount
  }

  /** The count of a pair, 0 when the pair has no row. */
  function Count(counter: Counter, d: int, w: int): int
  {
    if (d, w) in counter then counter[(d, w)] else 0
  }

  /**
   * The sum of the counts of document `d` over the word ids `1..n`: the total
   * number of its token occurrences when every word id is at most `n`.
   */
  function DocSize(counter: Counter, d: int, n: nat): (r: int)
    ensures (forall w :: 1 <= w <= n ==> (d, w) !in counter) ==> r == 0
  {
    if n == 0 then 0 else DocSize(counter, d, n - 1) + Count(counter, d, n)
  }

  /**
   * The number of documents holding word `w`: one counter row per such
   * document. It is positive exactly when some document holds the word, so
   * the IDF ratio is defined for every word a document holds.
   */
  function DocFrequency(counter: Counter, w: int): (r: nat)
    ensures r > 0 <==> exists d :: (d, w) in counter
  {
    var holders := set k | k in counter.Keys && k.1 == w;
    assert (exists d :: (d, w) in counter) ==> holders != {} by {
      if exists d :: (d, w) in counter {
        var d :| (d, w) in counter;
        assert (d, w) in holders;
      }
    }
    assert holders != {} ==> exists d :: (d, w) in counter by {
      if holders != {} {
        var k :| k in holders;
        assert (k.0, w) in counter;
      }
    }
    |holders|
  }

  /**
   * Inverse document frequency `1 + ln(documentCount / df)` of a word held by
   * `df` documents: `1 + ln(1)` for a word every document holds, and one plus
   * the logarithm of a ratio of at least 1 whenever `df` does not exceed the
   * document count.
   */
  function Idf(documentCount: nat, df: nat, ln: real -> real): (r: real)
    requires df > 0
    ensures df == documentCount ==> r == 1.0 + ln(1.0)
    ensures df <= documentCount ==> exists q: real :: q >= 1.0 && r == 1.0 + ln(q)
  {
    var q := documentCount as real / df as real;
    assert df <= documentCount ==> q >= 1.0 by {
      RatioAtLeastOne(documentCount as real, df as real);
    }
    assert df == documentCount ==> q == 1.0;
    1.0 + ln(q)
  }

  lemma RatioAtLeastOne(n: real, m: real)
    requires m > 0.0
    ensures m <= n ==> n / m >= 1.0
  {
  }

  /** The IDF of word `w` given the current counter table. */
  function ComputeIdf(counter: Counter, d: int, w: int, documentCount: nat, ln: real -> real): (r: real)
    requires (d, w) in counter
    ensures DocFrequency(counter, w) > 0 && r == Idf(documentCount, DocFrequency(counter, w), ln)
  {
    Idf(documentCount, DocFrequency(counter, w), ln)
  }

  /** With positive counts, the document size is at least the count of each of its words. */
  lemma {:induction false} DocSizeBounds(counter: Counter, d: int, n: nat, w: int)
    requires forall k :: k in counter ==> counter[k] > 0
    ensures DocSize(counter, d, n) >= 0
    ensures 1 <= w <= n ==> DocSize(counter, d, n) >= Count(counter, d, w)
  {
    if n > 0 {
      DocSizeBounds(counter, d, n - 1, w);
    }
  }

  /** Term frequency `count / docSize` of a word the document holds. */
  function Tf(counter: Counter, d: int, w: int, wordCount: nat): (r: real)
    requires WellFormed(counter, wordCount) && (d, w) in counter
    ensures 0.0 < r <= 1.0
  {
    DocSizeBounds(counter, d, wordCount, w);
    counter[(d, w)] as real / DocSize(counter, d, wordCount) as real
  }

  /**
   * The vector entry of word `w` in document `d`: TF times IDF for a word the
   * document holds, and 0 for any other word.
   */
  function Weight(counter: Counter, d: int, w: int, wordCount: nat, documentCount: nat, ln: real -> real): (r: real)
    requires WellFormed(counter, wordCount)
    ensures r != 0.0 ==> (d, w) in counter
    ensures (d, w) in counter ==>
              r == Tf(counter, d, w, wordCount) * Idf(documentCount, DocFrequency(counter, w), ln)
  {
    if (d, w) in counter
    then Tf(counter, d, w, wordCount) * ComputeIdf(counter, d, w, documentCount, ln)
    else 0.0
  }

  /** The TF-IDF vector of document `d`, of length `wordCount`. */
  function TfIdfVector(counter: Counter, d: int, wordCount: nat, documentCount: nat, ln: real -> real): (v: seq<real>)
    requires WellFormed(counter, wordCount)
    ensures |v| == wordCount
  {
    seq(wordCount, i requires 0 <= i < wordCount => Weight(counter, d, i + 1, wordCount, documentCount, ln))
  }

  /** Only a word the document holds can have a non-zero entry; a document without rows gets the zero vector. */
  lemma VectorSupport(counter: Counter, d: int, wordCount: nat, documentCount: nat, ln: real -> real)
    requires WellFormed(counter, wordCount)
    ensures forall i :: 0 <= i < wordCount && TfIdfVector(counter, d, wordCount, documentCount, ln)[i] != 0.0
              ==> (d, i + 1) in counter
    ensures (forall k :: k in counter ==> k.0 != d) ==> IsZero(TfIdfVector(counter, d, wordCount, documentCount, ln))
  {
  }

  /** Two documents that share no word have similarity exactly 0. */
  lemma NoSharedWordNoSimilarity(counter: Counter, d1: int, d2: int, wordCount: nat, documentCount: nat,
                                 ln: real -> real, sqrt: real -> real)
    requires WellFormed(counter, wordCount)
    requires forall w :: (d1, w) in counter ==> (d2, w) !in counter
    ensures ComputeSimilarity(TfIdfVector(counter, d1, wordCount, documentCount, ln),
                              TfIdfVector(counter, d2, wordCount, documentCount, ln), sqrt) == 0.0
  {
    var v1 := TfIdfVector(counter, d1, wordCount, documentCount, ln);
    var v2 := TfIdfVector(counter, d2, wordCount, documentCount, ln);
    VectorSupport(counter, d1, wordCount, documentCount, ln);
    VectorSupport(counter, d2, wordCount, documentCount, ln);
    assert DisjointSupport(v1, v2);
    DisjointSimilarityZero(v1, v2, sqrt);
  }

  // ---------------------------------------------------------------------------
  // Scaling every count by the same factor changes no vector
  // ---------------------------------------------------------------------------

  /**
   * Every count multiplied by `c`: the same rows, and for a positive factor
   * a well-formed table stays well-formed.
   */
  function Scale(counter: Counter, c: nat): (r: Counter)
    ensures r.Keys == counter.Keys
    ensures forall wordCount: nat :: c > 0 && WellFormed(counter, wordCount) ==> WellFormed(r, wordCount)
  {
    var r := map k | k in counter :: c * counter[k];
    assert forall wordCount: nat :: c > 0 && WellFormed(counter, wordCount) ==> WellFormed(r, wordCount) by {
      forall wordCount: nat | c > 0 && WellFormed(counter, wordCount) ensures WellFormed(r, wordCount) {
        forall k | k in r ensures r[k] > 0 {
          assert r[k] == c * counter[k] && counter[k] >= 1;
        }
      }
    }
    r
  }

  lemma {:induction false} DocSizeScale(counter: Counter, c: nat, d: int, n: nat)
    ensures DocSize(Scale(counter, c), d, n) == c * DocSize(counter, d, n)
  {
    if n > 0 {
      DocSizeScale(counter, c, d, n - 1);
      assert Count(Scale(counter, c), d, n) == c * Count(counter, d, n);
    }
  }

  lemma RatioScale(a: real, b: real, c: real)
    requires b != 0.0 && c != 0.0
    ensures (c * a) / (c * b) == a / b
  {
  }

  /** Scaling every count leaves each term frequency unchanged. */
  lemma TfScale(counter: Counter, c: nat, d: int, w: int, wordCount: nat)
    requires WellFormed(counter, wordCount) && c > 0 && (d, w) in counter
    ensures WellFormed(Scale(counter, c), wordCount)
    ensures Tf(Scale(counter, c), d, w, wordCount) == Tf(counter, d, w, wordCount)
  {
    DocSizeBounds(counter, d, wordCount, w);
    var count := counter[(d, w)];
    var size := DocSize(counter, d, wordCount);
    assert Tf(Scale(counter, c), d, w, wordCount) == (c * count) as real / (c * size) as real by {
      DocSizeScale(counter, c, d, wordCount);
    }
    RatioOfProducts(c, count, size);
  }

  /** A common positive factor cancels in a ratio of integers. */
  lemma RatioOfProducts(c: nat, n: int, s: int)
    requires c > 0 && s > 0
    ensures (c * n) as real / (c * s) as real == n as real / s as real
  {
    CastProduct(c, n);
    CastProduct(c, s);
    RatioScale(n as real, s as real, c as real);
  }

  lemma CastProduct(x: int, y: int)
    ensures (x * y) as real == x as real * y as real
  {
  }

  /** Scaling every count keeps the rows, so each document frequency. */
  lemma DocFrequencyScale(counter: Counter, c: nat, w: int)
    ensures DocFrequency(Scale(counter, c), w) == DocFrequency(counter, w)
  {
    assert (set k | k in Scale(counter, c).Keys && k.1 == w) == (set k | k in counter.Keys && k.1 == w);
  }

  /** Scaling every count leaves the entry of one word unchanged. */
  lemma WeightScale(counter: Counter, c: nat, d: int, w: int, wordCount: nat, documentCount: nat, ln: real -> real)
    requires WellFormed(counter, wordCount) && c > 0
    ensures WellFormed(Scale(counter, c), wordCount)
    ensures Weight(Scale(counter, c), d, w, wordCount, documentCount, ln)
         == Weight(counter, d, w, wordCount, documentCount, ln)
  {
    if (d, w) in counter {
      TfScale(counter, c, d, w, wordCount);
      DocFrequencyScale(counter, c, w);
    }
  }

  /**
   * Term frequencies are ratios, and document frequencies count rows, not
   * occurrences: multiplying every count by the same positive factor leaves
   * every TF-IDF vector unchanged.
   */
  lemma ScaleInvariant(counter: Counter, c: nat, d: int, wordCount: nat, documentCount: nat, ln: real -> real)
    requires WellFormed(counter, wordCount) && c > 0
    ensures WellFormed(Scale(counter, c), wordCount)
    ensures TfIdfVector(Scale(counter, c), d, wordCount, documentCount, ln)
         == TfIdfVector(counter, d, wordCount, documentCount, ln)
  {
    var v1 := TfIdfVector(Scale(counter, c), d, wordCount, documentCount, ln);
    var v2 := TfIdfVector(counter, d, wordCount, documentCount, ln);
    forall i | 0 <= i < wordCount ensures v1[i] == v2[i] {
      WeightScale(counter, c, d, i + 1, wordCount, documentCount, ln);
    }
  }
}
