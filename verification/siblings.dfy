/**
 * The sibling engine. Similarity is symmetric, so only the lower triangle of
 * the pair matrix is evaluated: document `i` is compared with every `j < i`.
 * A pair with similarity > 0 is recorded on both sides with the same value:
 * `(j, s)` goes into the list being built for `i`, and `(i, s)` is appended
 * to `j`'s list in place. Afterwards every list is stably sorted by
 * similarity, descending.
 *
 * The functions below state what the lists hold after each step; the method
 * `ComputeSiblings` is proved to produce `FinalSiblings`, and the lemmas give
 * its meaning: positive entries, no self entry, the mirrored relation with
 * identical values, and a stable descending order of the same entries.
 */
module Siblings {
  import opened Model

  /** Document ids are primary keys: no two documents share one. */
  predicate DistinctIds(ds: seq<Document>)
  {
    forall a, b :: 0 <= a < |ds| && 0 <= b < |ds| && ds[a].id == ds[b].id ==> a == b
  }

  /** The similarity computed for document `i` against document `j`. */
  function Sim(ds: seq<Document>, sim: (Document, Document) -> real, i: nat, j: nat): real
    requires i < |ds| && j < |ds|
  {
    sim(ds[i], ds[j])
  }

  /**
   * The value the engine attaches to the unordered pair {i, j}: it is
   * computed once, with the larger index first.
   */
  function PairSim(ds: seq<Document>, sim: (Document, Document) -> real, i: nat, j: nat): real
    requires i < |ds| && j < |ds|
  {
    if j < i then Sim(ds, sim, i, j) else Sim(ds, sim, j, i)
  }

  /**
   * What evaluating the pair (i, j) records for document `to` about document
   * `from`: nothing unless the similarity is positive.
   */
  function Entry(ds: seq<Document>, sim: (Document, Document) -> real, i: nat, j: nat, from: nat): seq<Sibling>
    requires i < |ds| && j < |ds| && from < |ds|
  {
    var s := Sim(ds, sim, i, j);
    if s > 0.0 then [Sibling(ds[from].id, s)] else []
  }

  /** The list built for document `i` from the documents `0..j-1` (`j <= i`). */
  function Lower(ds: seq<Document>, sim: (Document, Document) -> real, i: nat, j: nat): seq<Sibling>
    requires j <= i < |ds|
  {
    if j == 0 then [] else Lower(ds, sim, i, j - 1) + Entry(ds, sim, i, j - 1, j - 1)
  }

  /** The entries appended to document `k`'s list by the documents `k+1..m-1`. */
  function Mirrored(ds: seq<Document>, sim: (Document, Document) -> real, k: nat, m: nat): seq<Sibling>
    requires k < |ds| && m <= |ds|
  {
    if m <= k + 1 then [] else Mirrored(ds, sim, k, m - 1) + Entry(ds, sim, m - 1, k, m - 1)
  }

  /** Document `k`'s list once every pair has been processed, before sorting. */
  function Unsorted(ds: seq<Document>, sim: (Document, Document) -> real, k: nat): seq<Sibling>
    requires k < |ds|
  {
    Lower(ds, sim, k, k) + Mirrored(ds, sim, k, |ds|)
  }

  /** Document `k`'s final, ranked list. */
  function FinalSiblings(ds: seq<Document>, sim: (Document, Document) -> real, k: nat): seq<Sibling>
    requires k < |ds|
  {
    SortBySimilarity(Unsorted(ds, sim, k))
  }

  // ---------------------------------------------------------------------------
  // Stable sort by similarity, descending
  // ---------------------------------------------------------------------------

  predicate SortedDescending(s: seq<Sibling>)
  {
    forall a, b :: 0 <= a < b < |s| ==> s[a].similarity >= s[b].similarity
  }

  /** Insert `x` into a descending list after every entry at least as similar. */
  function InsertDescending(t: seq<Sibling>, x: Sibling): seq<Sibling>
  {
    if t == [] then [x]
    else if t[0].similarity >= x.similarity then [t[0]] + InsertDescending(t[1..], x)
    else [x] + t
  }

  /**
   * Stable insertion sort, descending by similarity: a descending permutation
   * of its input, of the same length.
   */
  function SortBySimilarity(s: seq<Sibling>): (r: seq<Sibling>)
    ensures SortedDescending(r)
    ensures multiset(r) == multiset(s)
    ensures |r| == |s|
  {
    if s == [] then []
    else
      var sorted := SortBySimilarity(s[..|s| - 1]);
      SortStep(s, sorted);
      InsertDescending(sorted, s[|s| - 1])
  }

  /** Inserting the last entry into a sorted permutation of the others sorts the whole sequence. */
  lemma SortStep(s: seq<Sibling>, sorted: seq<Sibling>)
    requires s != [] && SortedDescending(sorted) && multiset(sorted) == multiset(s[..|s| - 1])
    ensures SortedDescending(InsertDescending(sorted, s[|s| - 1]))
    ensures multiset(InsertDescending(sorted, s[|s| - 1])) == multiset(s)
    ensures |InsertDescending(sorted, s[|s| - 1])| == |s|
  {
    InsertDescendingCorrect(sorted, s[|s| - 1]);
    assert s == s[..|s| - 1] + [s[|s| - 1]];
    assert |multiset(InsertDescending(sorted, s[|s| - 1]))| == |multiset(s)|;
  }

  /** The entries of `s` with similarity exactly `v`, in their order. */
  function WithSimilarity(s: seq<Sibling>, v: real): seq<Sibling>
  {
    if s == [] then []
    else (if s[0].similarity == v then [s[0]] else []) + WithSimilarity(s[1..], v)
  }

  lemma {:induction false} InsertDescendingPermutation(t: seq<Sibling>, x: Sibling)
    ensures multiset(InsertDescending(t, x)) == multiset(t) + multiset{x}
  {
    if t != [] && t[0].similarity >= x.similarity {
      InsertDescendingPermutation(t[1..], x);
      assert t == [t[0]] + t[1..];
    }
  }

  lemma {:induction false} InsertDescendingCorrect(t: seq<Sibling>, x: Sibling)
    requires SortedDescending(t)
    ensures SortedDescending(InsertDescending(t, x))
    ensures multiset(InsertDescending(t, x)) == multiset(t) + multiset{x}
  {
    InsertDescendingPermutation(t, x);
    if t != [] && t[0].similarity >= x.similarity {
      var r := InsertDescending(t[1..], x);
      InsertDescendingCorrect(t[1..], x);
      forall b | 0 <= b < |r| ensures t[0].similarity >= r[b].similarity {
        assert r[b] in multiset(r);
        if r[b] != x {
          assert r[b] in multiset(t[1..]);
          var c :| 0 <= c < |t[1..]| && t[1..][c] == r[b];
          assert t[c + 1] == r[b];
        }
      }
      assert InsertDescending(t, x) == [t[0]] + r;
    }
  }

  lemma {:induction false} WithSimilarityAppend(a: seq<Sibling>, b: seq<Sibling>, v: real)
    ensures WithSimilarity(a + b, v) == WithSimilarity(a, v) + WithSimilarity(b, v)
  {
    if a != [] {
      assert (a + b)[1..] == a[1..] + b;
      WithSimilarityAppend(a[1..], b, v);
    } else {
      assert a + b == b;
    }
  }

  lemma {:induction false} WithSimilarityAbsent(t: seq<Sibling>, v: real)
    requires forall e :: e in t ==> e.similarity < v
    ensures WithSimilarity(t, v) == []
  {
    if t != [] {
      assert t[0] in t;
      WithSimilarityAbsent(t[1..], v);
    }
  }

  lemma {:induction false} InsertDescendingStable(t: seq<Sibling>, x: Sibling, v: real)
    requires SortedDescending(t)
    ensures WithSimilarity(InsertDescending(t, x), v)
         == WithSimilarity(t, v) + (if x.similarity == v then [x] else [])
  {
    if t == [] {
      assert WithSimilarity([x], v) == (if x.similarity == v then [x] else []);
    } else if t[0].similarity >= x.similarity {
      SortedTail(t);
      InsertDescendingStable(t[1..], x, v);
      InsertStablePast(t, x, v);
    } else {
      if x.similarity == v {
        SortedBelowHead(t, v);
        WithSimilarityAbsent(t, v);
      }
      InsertStableFront(t, x, v);
    }
  }

  /** Inserting past the head keeps the head in front of the filtered rest. */
  lemma InsertStablePast(t: seq<Sibling>, x: Sibling, v: real)
    requires t != [] && t[0].similarity >= x.similarity
    requires WithSimilarity(InsertDescending(t[1..], x), v)
          == WithSimilarity(t[1..], v) + (if x.similarity == v then [x] else [])
    ensures WithSimilarity(InsertDescending(t, x), v)
         == WithSimilarity(t, v) + (if x.similarity == v then [x] else [])
  {
    var u, rest := InsertDescending(t, x), InsertDescending(t[1..], x);
    var head := if t[0].similarity == v then [t[0]] else [];
    var tail := if x.similarity == v then [x] else [];
    assert u[0] == t[0] && u[1..] == rest;
    calc {
      WithSimilarity(u, v);
      head + WithSimilarity(rest, v);
      head + (WithSimilarity(t[1..], v) + tail);
      (head + WithSimilarity(t[1..], v)) + tail;
      WithSimilarity(t, v) + tail;
    }
  }

  /** Inserting at the front, before entries all less similar than `x`. */
  lemma InsertStableFront(t: seq<Sibling>, x: Sibling, v: real)
    requires t != [] && t[0].similarity < x.similarity
    requires x.similarity == v ==> WithSimilarity(t, v) == []
    ensures WithSimilarity(InsertDescending(t, x), v)
         == WithSimilarity(t, v) + (if x.similarity == v then [x] else [])
  {
    WithSimilarityAppend([x], t, v);
  }

  lemma SortedTail(t: seq<Sibling>)
    requires SortedDescending(t) && t != []
    ensures SortedDescending(t[1..])
  {
  }

  lemma SortedBelowHead(t: seq<Sibling>, v: real)
    requires SortedDescending(t) && t != [] && t[0].similarity < v
    ensures forall e :: e in t ==> e.similarity < v
  {
  }

  /** The sort is stable: entries of equal similarity keep their relative order. */
  lemma {:induction false} SortBySimilarityStable(s: seq<Sibling>, v: real)
    ensures WithSimilarity(SortBySimilarity(s), v) == WithSimilarity(s, v)
  {
    if s != [] {
      var init, last := s[..|s| - 1], s[|s| - 1];
      var sorted := SortBySimilarity(init);
      var tail := if last.similarity == v then [last] else [];
      assert SortBySimilarity(s) == InsertDescending(sorted, last);
      assert WithSimilarity(InsertDescending(sorted, last), v) == WithSimilarity(sorted, v) + tail by {
        assert SortedDescending(sorted);
        InsertDescendingStable(sorted, last, v);
      }
      assert WithSimilarity(sorted, v) == WithSimilarity(init, v) by {
        SortBySimilarityStable(init, v);
      }
      assert WithSimilarity(s, v) == WithSimilarity(init, v) + tail by {
        assert s == init + [last];
        WithSimilarityAppend(init, [last], v);
        assert WithSimilarity([last], v) == tail;
      }
    }
  }

  // ---------------------------------------------------------------------------
  // What the lists hold
  // ---------------------------------------------------------------------------

  lemma {:induction false} LowerMember(ds: seq<Document>, sim: (Document, Document) -> real, i: nat, j: nat, m: nat, s: real)
    requires DistinctIds(ds) && j <= i < |ds| && m < |ds|
    ensures Sibling(ds[m].id, s) in Lower(ds, sim, i, j)
        <==> m < j && Sim(ds, sim, i, m) > 0.0 && s == Sim(ds, sim, i, m)
  {
    if j > 0 {
      LowerMember(ds, sim, i, j - 1, m, s);
    }
  }

  lemma {:induction false} MirroredMember(ds: seq<Document>, sim: (Document, Document) -> real, k: nat, n: nat, m: nat, s: real)
    requires DistinctIds(ds) && k < |ds| && n <= |ds| && m < |ds|
    ensures Sibling(ds[m].id, s) in Mirrored(ds, sim, k, n)
        <==> k < m < n && Sim(ds, sim, m, k) > 0.0 && s == Sim(ds, sim, m, k)
  {
    if n > k + 1 {
      MirroredMember(ds, sim, k, n - 1, m, s);
    }
  }

  lemma {:induction false} LowerEntries(ds: seq<Document>, sim: (Document, Document) -> real, i: nat, j: nat)
    requires DistinctIds(ds) && j <= i < |ds|
    ensures forall e :: e in Lower(ds, sim, i, j) ==> e.similarity > 0.0 && e.id != ds[i].id
  {
    if j > 0 {
      LowerEntries(ds, sim, i, j - 1);
    }
  }

  lemma {:induction false} MirroredEntries(ds: seq<Document>, sim: (Document, Document) -> real, k: nat, n: nat)
    requires DistinctIds(ds) && k < |ds| && n <= |ds|
    ensures forall e :: e in Mirrored(ds, sim, k, n) ==> e.similarity > 0.0 && e.id != ds[k].id
  {
    if n > k + 1 {
      MirroredEntries(ds, sim, k, n - 1);
    }
  }

  /**
   * Every final entry has similarity > 0 and never names the document
   * itself; the list is sorted descending and holds exactly the entries
   * gathered for the document, stably ordered.
   */
  lemma FinalSiblingsShape(ds: seq<Document>, sim: (Document, Document) -> real, k: nat)
    requires DistinctIds(ds) && k < |ds|
    ensures forall e :: e in FinalSiblings(ds, sim, k) ==> e.similarity > 0.0 && e.id != ds[k].id
    ensures SortedDescending(FinalSiblings(ds, sim, k))
    ensures multiset(FinalSiblings(ds, sim, k)) == multiset(Unsorted(ds, sim, k))
    ensures forall v :: WithSimilarity(FinalSiblings(ds, sim, k), v) == WithSimilarity(Unsorted(ds, sim, k), v)
  {
    var u := Unsorted(ds, sim, k);
    LowerEntries(ds, sim, k, k);
    MirroredEntries(ds, sim, k, |ds|);
    forall e | e in FinalSiblings(ds, sim, k) ensures e in u {
      assert e in multiset(FinalSiblings(ds, sim, k));
    }
    forall v ensures WithSimilarity(FinalSiblings(ds, sim, k), v) == WithSimilarity(u, v) {
      SortBySimilarityStable(u, v);
    }
  }

  /**
   * Document `m` appears in document `i`'s final list with score `s` exactly
   * when `m` is another document, the pair's similarity is positive and `s`
   * is that similarity.
   */
  lemma FinalSiblingsMember(ds: seq<Document>, sim: (Document, Document) -> real, i: nat, m: nat, s: real)
    requires DistinctIds(ds) && i < |ds| && m < |ds|
    ensures Sibling(ds[m].id, s) in FinalSiblings(ds, sim, i)
        <==> m != i && PairSim(ds, sim, i, m) > 0.0 && s == PairSim(ds, sim, i, m)
  {
    var u := Unsorted(ds, sim, i);
    assert Sibling(ds[m].id, s) in FinalSiblings(ds, sim, i) <==> Sibling(ds[m].id, s) in multiset(u);
    LowerMember(ds, sim, i, i, m, s);
    MirroredMember(ds, sim, i, |ds|, m, s);
  }

  /**
   * The sibling relation is symmetric with identical values: `(j, s)` is in
   * document i's list exactly when `(i, s)` is in document j's list.
   */
  lemma SiblingsMirrored(ds: seq<Document>, sim: (Document, Document) -> real, i: nat, j: nat, s: real)
    requires DistinctIds(ds) && i < |ds| && j < |ds|
    ensures Sibling(ds[j].id, s) in FinalSiblings(ds, sim, i)
        <==> Sibling(ds[i].id, s) in FinalSiblings(ds, sim, j)
  {
    FinalSiblingsMember(ds, sim, i, j, s);
    FinalSiblingsMember(ds, sim, j, i, s);
  }

  /** A document whose similarity with every other document is not positive has no siblings. */
  lemma IsolatedDocumentHasNoSiblings(ds: seq<Document>, sim: (Document, Document) -> real, k: nat)
    requires DistinctIds(ds) && k < |ds|
    requires forall j :: 0 <= j < |ds| && j != k ==> sim(ds[k], ds[j]) <= 0.0 && sim(ds[j], ds[k]) <= 0.0
    ensures FinalSiblings(ds, sim, k) == []
  {
    var f := FinalSiblings(ds, sim, k);
    if f != [] {
      assert f[0] in multiset(Unsorted(ds, sim, k));
      IsolatedEntry(ds, sim, k, f[0]);
      var m :| 0 <= m < |ds| && m != k && f[0] == Sibling(ds[m].id, PairSim(ds, sim, k, m));
      LowerEntries(ds, sim, k, k);
      MirroredEntries(ds, sim, k, |ds|);
      assert false;
    }
  }

  /** Every gathered entry comes from another document, with that pair's value. */
  lemma IsolatedEntry(ds: seq<Document>, sim: (Document, Document) -> real, k: nat, e: Sibling)
    requires DistinctIds(ds) && k < |ds|
    requires e in Lower(ds, sim, k, k) || e in Mirrored(ds, sim, k, |ds|)
    ensures exists m :: 0 <= m < |ds| && m != k && e == Sibling(ds[m].id, PairSim(ds, sim, k, m))
  {
    EntrySource(ds, sim, k, k, |ds|, e);
  }

  lemma {:induction false} EntrySource(ds: seq<Document>, sim: (Document, Document) -> real, k: nat, j: nat, n: nat, e: Sibling)
    requires DistinctIds(ds) && j <= k < |ds| && n <= |ds|
    requires e in Lower(ds, sim, k, j) || e in Mirrored(ds, sim, k, n)
    ensures exists m :: 0 <= m < |ds| && m != k && e == Sibling(ds[m].id, PairSim(ds, sim, k, m))
    decreases j + n
  {
    if e in Lower(ds, sim, k, j) {
      assert j > 0;
      if e in Lower(ds, sim, k, j - 1) {
        EntrySource(ds, sim, k, j - 1, 0, e);
      } else {
        assert e == Sibling(ds[j - 1].id, PairSim(ds, sim, k, j - 1));
      }
    } else {
      assert n > k + 1;
      if e in Mirrored(ds, sim, k, n - 1) {
        EntrySource(ds, sim, k, 0, n - 1, e);
      } else {
        assert e == Sibling(ds[n - 1].id, PairSim(ds, sim, k, n - 1));
      }
    }
  }

  // ---------------------------------------------------------------------------
  // Which pairs are evaluated
  // ---------------------------------------------------------------------------

  /** The pairs `(i, 0), ..., (i, j-1)`. */
  function PairsWith(i: nat, j: nat): seq<(nat, nat)>
  {
    if j == 0 then [] else PairsWith(i, j - 1) + [(i, j - 1)]
  }

  /** The pairs `(i, j)` evaluated for `n` documents, in evaluation order. */
  function LowerPairs(n: nat): seq<(nat, nat)>
  {
    if n == 0 then [] else LowerPairs(n - 1) + PairsWith(n - 1, n - 1)
  }

  lemma {:induction false} PairsWithShape(i: nat, j: nat)
    ensures |PairsWith(i, j)| == j
    ensures forall p :: p in PairsWith(i, j) ==> p.0 == i && p.1 < j
  {
    if j > 0 {
      PairsWithShape(i, j - 1);
    }
  }

  lemma LowerPairsStep(i: nat)
    ensures LowerPairs(i + 1) == LowerPairs(i) + PairsWith(i, i)
  {
  }

  /** Only the strict lower triangle is evaluated: n(n-1)/2 pairs, never a document with itself. */
  lemma {:induction false} LowerPairsShape(n: nat)
    ensures 2 * |LowerPairs(n)| == n * (n - 1)
    ensures forall p :: p in LowerPairs(n) ==> p.1 < p.0 < n
  {
    if n > 0 {
      LowerPairsShape(n - 1);
      PairsWithShape(n - 1, n - 1);
      assert (n - 1) * (n - 2) + 2 * (n - 1) == n * (n - 1);
    }
  }

  // ---------------------------------------------------------------------------
  // The engine
  // ---------------------------------------------------------------------------

  /** Document `k`'s list after the passes of the documents `0..i-1` (`k < i`). */
  function Gathered(ds: seq<Document>, sim: (Document, Document) -> real, k: nat, i: nat): seq<Sibling>
    requires k < i <= |ds|
  {
    Lower(ds, sim, k, k) + Mirrored(ds, sim, k, i)
  }

  /** The pass of document `i` appends one pair's entry to each earlier list and starts i's own. */
  lemma GatheredStep(ds: seq<Document>, sim: (Document, Document) -> real, i: nat)
    requires i < |ds|
    ensures forall k :: 0 <= k < i ==> Gathered(ds, sim, k, i + 1) == Gathered(ds, sim, k, i) + Entry(ds, sim, i, k, i)
    ensures Gathered(ds, sim, i, i + 1) == Lower(ds, sim, i, i)
  {
  }

  lemma GatheredAll(ds: seq<Document>, sim: (Document, Document) -> real)
    ensures forall k :: 0 <= k < |ds| ==> Gathered(ds, sim, k, |ds|) == Unsorted(ds, sim, k)
  {
  }

  /** The id-to-document index the engine uses to reach a sibling's document. */
  function ById(ds: seq<Document>): (m: map<int, Document>)
    requires DistinctIds(ds)
    ensures forall k :: 0 <= k < |ds| ==> ds[k].id in m && m[ds[k].id] == ds[k]
  {
    if ds == [] then map[]
    else
      var init := ds[..|ds| - 1];
      assert DistinctIds(init);
      ById(init)[ds[|ds| - 1].id := ds[|ds| - 1]]
  }

  /**
   * Fills every document's sibling list. Returns, as ghost output, the index
   * pairs for which the similarity was evaluated.
   */
  method ComputeSiblings(docs: seq<Document>, sim: (Document, Document) -> real) returns (ghost evaluated: seq<(nat, nat)>)
    requires DistinctIds(docs)
    modifies set d | d in docs
    ensures forall k :: 0 <= k < |docs| ==> docs[k].siblings == FinalSiblings(docs, sim, k)
    ensures evaluated == LowerPairs(|docs|)
  {
    evaluated := GatherSiblings(docs, sim);
    SortSiblingLists(docs, sim);
  }

  /** The passes over the lower triangle, leaving every list unsorted. */
  method GatherSiblings(docs: seq<Document>, sim: (Document, Document) -> real) returns (ghost evaluated: seq<(nat, nat)>)
    requires DistinctIds(docs)
    modifies set d | d in docs
    ensures forall k :: 0 <= k < |docs| ==> docs[k].siblings == Unsorted(docs, sim, k)
    ensures evaluated == LowerPairs(|docs|)
  {
    var docMap := ById(docs);
    evaluated := [];
    var i := 0;
    while i < |docs|
      invariant 0 <= i <= |docs|
      invariant GatheredUpTo(docs, sim, i)
      invariant evaluated == LowerPairs(i)
    {
      ghost var pairs := Pass(docs, docMap, i, sim);
      LowerPairsStep(i);
      evaluated := evaluated + pairs;
      i := i + 1;
    }
    GatheredAll(docs, sim);
  }

  /** After the passes of the documents `0..i-1`, each of their lists is `Gathered`. */
  ghost predicate GatheredUpTo(docs: seq<Document>, sim: (Document, Document) -> real, i: nat)
    requires i <= |docs|
    reads set d | d in docs
  {
    forall k :: 0 <= k < i ==> docs[k].siblings == Gathered(docs, sim, k, i)
  }

  /**
   * The pass of document `i`: its new list holds the positive entries for the
   * documents before it, each of which receives the mirrored entry.
   */
  method Pass(docs: seq<Document>, docMap: map<int, Document>, i: nat, sim: (Document, Document) -> real)
    returns (ghost pairs: seq<(nat, nat)>)
    requires DistinctIds(docs) && i < |docs|
    requires forall k :: 0 <= k < |docs| ==> docs[k].id in docMap && docMap[docs[k].id] == docs[k]
    requires GatheredUpTo(docs, sim, i)
    modifies set d | d in docs
    ensures GatheredUpTo(docs, sim, i + 1)
    ensures forall k :: i < k < |docs| ==> docs[k].siblings == old(docs[k].siblings)
    ensures pairs == PairsWith(i, i)
  {
    var list;
    list, pairs := SiblingsBelow(docs, docMap, i, sim);
    GatheredStep(docs, sim, i);
    assert forall k :: 0 <= k < i ==> docs[k] != docs[i];
    docs[i].siblings := list;
  }

  /**
   * One pass of the engine: compares document `i` with every `j < i`,
   * returns i's new list and appends the mirrored entries to the lists of
   * the documents `0..i-1`, reached through the id-to-document map.
   */
  method SiblingsBelow(docs: seq<Document>, docMap: map<int, Document>, i: nat, sim: (Document, Document) -> real)
    returns (list: seq<Sibling>, ghost pairs: seq<(nat, nat)>)
    requires DistinctIds(docs) && i < |docs|
    requires forall k :: 0 <= k < |docs| ==> docs[k].id in docMap && docMap[docs[k].id] == docs[k]
    modifies set d | d in docs[..i]
    ensures list == Lower(docs, sim, i, i)
    ensures forall k :: 0 <= k < i ==> docs[k].siblings == old(docs[k].siblings) + Entry(docs, sim, i, k, i)
    ensures pairs == PairsWith(i, i)
  {
    var doc := docs[i];
    list := [];
    pairs := [];
    var j := 0;
    while j < i
      invariant 0 <= j <= i
      invariant list == Lower(docs, sim, i, j)
      invariant forall k :: 0 <= k < j ==> docs[k].siblings == old(docs[k].siblings) + Entry(docs, sim, i, k, i)
      invariant forall k :: j <= k < i ==> docs[k].siblings == old(docs[k].siblings)
      invariant pairs == PairsWith(i, j)
    {
      var similarity := sim(doc, docs[j]);
      pairs := pairs + [(i, j)];
      if similarity > 0.0 {
        list := list + [Sibling(docs[j].id, similarity)];
        var sibling := docMap[docs[j].id];
        assert forall k :: 0 <= k < i && k != j ==> docs[k] != sibling;
        sibling.siblings := sibling.siblings + [Sibling(doc.id, similarity)];
      }
      j := j + 1;
    }
  }

  /** Documents with distinct ids are distinct objects. */
  lemma OthersDiffer(docs: seq<Document>, i: nat)
    requires DistinctIds(docs) && i < |docs|
    ensures forall k :: 0 <= k < |docs| && k != i ==> docs[k] != docs[i]
  {
  }

  /** The final step: every non-empty list is replaced by its sorted copy. */
  method SortSiblingLists(docs: seq<Document>, sim: (Document, Document) -> real)
    requires DistinctIds(docs)
    requires forall k :: 0 <= k < |docs| ==> docs[k].siblings == Unsorted(docs, sim, k)
    modifies set d | d in docs
    ensures forall k :: 0 <= k < |docs| ==> docs[k].siblings == FinalSiblings(docs, sim, k)
  {
    ghost var unsorted := seq(|docs|, k requires 0 <= k < |docs| => Unsorted(docs, sim, k));
    ghost var finals := seq(|docs|, k requires 0 <= k < |docs| => SortBySimilarity(unsorted[k]));
    var i := 0;
    while i < |docs|
      invariant 0 <= i <= |docs|
      invariant forall k :: 0 <= k < i ==> docs[k].siblings == finals[k]
      invariant forall k :: i <= k < |docs| ==> docs[k].siblings == unsorted[k]
    {
      OthersDiffer(docs, i);
      if |docs[i].siblings| != 0 {
        docs[i].siblings := SortBySimilarity(docs[i].siblings);
      }
      i := i + 1;
    }
  }
}
