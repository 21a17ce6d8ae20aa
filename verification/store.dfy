/**
 * The three tables of the state store as values, and what each ingestion
 * step does to them.
 *
 * WORD and DOCUMENT each hold a unique name and an identity column: a map
 * from name to id plus the next value of the identity generator. COUNTER
 * maps a (document id, word id) pair to its count. Get-or-create (`Intern`)
 * returns the stored id of a known name and gives a new name the next id;
 * every counter upsert raises one pair's count by 2 (`Bump`); ingesting a
 * token sequence (`IngestAll`) does both for every token in order.
 */
module Store {
  import opened TfIdf

  datatype Option<T> = None | Some(value: T)

  /** A table with a unique name column and an identity column. */
  datatype Table = Table(ids: map<string, int>, next: int)

  /** A freshly created table: no rows, the identity starts at 1. */
  const Empty: Table := Table(map[], 1)

  /** Ids are issued from 1 upwards and never shared, and the last id issued is still present. */
  predicate TableValid(t: Table)
  {
    t.next >= 1
    && (forall n :: n in t.ids ==> 1 <= t.ids[n] < t.next)
    && (forall a, b :: a in t.ids && b in t.ids && t.ids[a] == t.ids[b] ==> a == b)
    && (t.next == 1 || t.next - 1 in t.ids.Values)
  }

  /**
   * The invariant of the whole store: both tables are valid, every counter
   * row references an existing document and an existing word, and every
   * count is a positive even number (each upsert adds 2).
   */
  predicate StoreValid(words: Table, documents: Table, counter: Counter)
  {
    TableValid(words) && TableValid(documents)
    && (forall k :: k in counter ==> k.0 in documents.ids.Values && k.1 in words.ids.Values)
    && (forall k :: k in counter ==> counter[k] >= 2 && counter[k] % 2 == 0)
  }

  /**
   * In a valid store a word is held by at most as many documents as the
   * document table has rows, so the IDF of a held word is one plus the
   * logarithm of a ratio of at least 1.
   */
  lemma DocFrequencyBound(words: Table, documents: Table, counter: Counter, w: int, ln: real -> real)
    requires StoreValid(words, documents, counter)
    ensures DocFrequency(counter, w) <= |documents.ids|
    ensures DocFrequency(counter, w) > 0 ==>
              exists q: real :: q >= 1.0 && Idf(|documents.ids|, DocFrequency(counter, w), ln) == 1.0 + ln(q)
  {
    var holders := set k | k in counter.Keys && k.1 == w;
    InjectionBound(holders, documents.ids.Values, (k: (int, int)) => k.0);
    ValuesBound(documents.ids);
    var df := DocFrequency(counter, w);
    assert df == |holders| && df <= |documents.ids|;
    if df > 0 {
      var idf := Idf(|documents.ids|, df, ln);
      assert exists q: real :: q >= 1.0 && idf == 1.0 + ln(q);
    }
  }

  /** A set mapped one-to-one into another is no larger than it. */
  lemma {:induction false} InjectionBound<T, U>(a: set<T>, b: set<U>, f: T -> U)
    requires forall x :: x in a ==> f(x) in b
    requires forall x, y :: x in a && y in a && f(x) == f(y) ==> x == y
    ensures |a| <= |b|
    decreases a
  {
    if a != {} {
      var x :| x in a;
      InjectionBound(a - {x}, b - {f(x)}, f);
    }
  }

  /** A map has no more distinct values than keys. */
  lemma {:induction false} ValuesBound<K, V>(m: map<K, V>)
    ensures |m.Values| <= |m.Keys|
    decreases m.Keys
  {
    if m.Keys != {} {
      var k :| k in m.Keys;
      var rest := m - {k};
      ValuesBound(rest);
      assert rest.Keys == m.Keys - {k};
      assert m.Values <= rest.Values + {m[k]} by {
        forall v | v in m.Values ensures v in rest.Values + {m[k]} {
          var j :| j in m && m[j] == v;
          if j != k {
            assert rest[j] == v;
          }
        }
      }
      InjectionBound(m.Values, rest.Values + {m[k]}, (v: V) => v);
    }
  }

  // ---------------------------------------------------------------------------
  // Get-or-create
  // ---------------------------------------------------------------------------

  /** Get-or-create of a name: a known name keeps its id, a new one takes the next id. */
  function Intern(t: Table, name: string): (r: Table)
    ensures name in r.ids && r.ids.Keys == t.ids.Keys + {name}
    ensures forall n :: n in t.ids ==> r.ids[n] == t.ids[n]
  {
    if name in t.ids then t else Table(t.ids[name := t.next], t.next + 1)
  }

  /**
   * Get-or-create keeps a table valid; a known name leaves it unchanged, and
   * a new name receives an id no existing row holds.
   */
  lemma InternValid(t: Table, name: string)
    requires TableValid(t)
    ensures TableValid(Intern(t, name))
    ensures name in t.ids ==> Intern(t, name) == t
    ensures name !in t.ids ==> (Intern(t, name).ids[name] !in t.ids.Values
                                && |Intern(t, name).ids| == |t.ids| + 1)
  {
    if name !in t.ids {
      var r := Intern(t, name);
      assert r.ids[name] == r.next - 1;
      forall v | v in t.ids.Values ensures v < t.next {
        var n :| n in t.ids && t.ids[n] == v;
      }
    }
  }

  /** MAX(ID): the ids of a valid table are bounded by `next - 1`, which is itself an id unless the table is empty. */
  lemma MaxId(t: Table)
    requires TableValid(t)
    ensures t.ids == map[] <==> t.next == 1
    ensures t.ids != map[] ==> t.next - 1 in t.ids.Values
    ensures forall n :: n in t.ids ==> t.ids[n] <= t.next - 1
  {
    if t.next != 1 {
      var n :| n in t.ids && t.ids[n] == t.next - 1;
    }
  }

  // ---------------------------------------------------------------------------
  // Counter upsert
  // ---------------------------------------------------------------------------

  /** One counter upsert of `(d, w)`: the count rises by 2, a missing row starting from 0. */
  function Bump(c: Counter, d: int, w: int): (r: Counter)
    ensures r.Keys == c.Keys + {(d, w)}
    ensures Count(r, d, w) == Count(c, d, w) + 2
    ensures forall d', w' :: (d', w') != (d, w) ==> Count(r, d', w') == Count(c, d', w')
  {
    c[(d, w) := Count(c, d, w) + 2]
  }

  /** An upsert of a pair whose document and word exist keeps the store valid. */
  lemma BumpKeepsStore(words: Table, documents: Table, c: Counter, d: int, w: int)
    requires StoreValid(words, documents, c) && d in documents.ids.Values && w in words.ids.Values
    ensures StoreValid(words, documents, Bump(c, d, w))
  {
    var r := Bump(c, d, w);
    forall k | k in r ensures r[k] >= 2 && r[k] % 2 == 0 {
      if k != (d, w) {
        assert r[k] == c[k];
      }
    }
  }

  // ---------------------------------------------------------------------------
  // Ingesting a token sequence
  // ---------------------------------------------------------------------------

  /** The word table and the counter table, the part of the store ingestion writes. */
  datatype Ingested = Ingested(words: Table, counter: Counter)

  /**
   * Ingesting one token for document `d`: get-or-create the word, then upsert
   * its counter. Known words keep their ids, the token's word is stored and no
   * other word is added; the count of the pair (d, word) rises by 2 and every
   * other count is unchanged.
   */
  function IngestWord(s: Ingested, d: int, name: string): (r: Ingested)
    ensures name in r.words.ids
    ensures forall n :: n in s.words.ids ==> n in r.words.ids && r.words.ids[n] == s.words.ids[n]
    ensures forall n :: n in r.words.ids ==> n in s.words.ids || n == name
    ensures Count(r.counter, d, r.words.ids[name]) == Count(s.counter, d, r.words.ids[name]) + 2
    ensures forall d', w' :: (d', w') != (d, r.words.ids[name]) ==> Count(r.counter, d', w') == Count(s.counter, d', w')
  {
    var words := Intern(s.words, name);
    Ingested(words, Bump(s.counter, d, words.ids[name]))
  }

  /**
   * Ingesting the tokens in order keeps every known word's id, stores every
   * token as a word, and adds no other word.
   */
  function IngestAll(s: Ingested, d: int, names: seq<string>): (r: Ingested)
    ensures forall n :: n in s.words.ids ==> n in r.words.ids && r.words.ids[n] == s.words.ids[n]
    ensures forall n :: n in names ==> n in r.words.ids
    ensures forall n :: n in r.words.ids ==> n in s.words.ids || n in names
  {
    if names == [] then s
    else
      var init := names[..|names| - 1];
      assert names == init + [names[|names| - 1]];
      IngestWord(IngestAll(s, d, init), d, names[|names| - 1])
  }

  /** Ingesting one more token of a prefix. */
  lemma IngestAllStep(s: Ingested, d: int, names: seq<string>, i: nat)
    requires i < |names|
    ensures IngestAll(s, d, names[..i + 1]) == IngestWord(IngestAll(s, d, names[..i]), d, names[i])
  {
    assert names[..i + 1][..i] == names[..i];
  }

  /** Occurrences of `name` in `names`. */
  function Occurrences(names: seq<string>, name: string): nat
  {
    if names == [] then 0
    else Occurrences(names[..|names| - 1], name) + (if names[|names| - 1] == name then 1 else 0)
  }

  /** How many tokens of `names` carry word id `w` in table `t`. */
  function IdOccurrences(t: Table, names: seq<string>, w: int): nat
    requires forall n :: n in names ==> n in t.ids
  {
    if names == [] then 0
    else IdOccurrences(t, names[..|names| - 1], w) + (if t.ids[names[|names| - 1]] == w then 1 else 0)
  }

  /** Token occurrences counted by id do not change when the table only gains rows. */
  lemma {:induction false} IdOccurrencesStable(t: Table, u: Table, names: seq<string>, w: int)
    requires forall n :: n in names ==> n in t.ids && n in u.ids && u.ids[n] == t.ids[n]
    ensures IdOccurrences(t, names, w) == IdOccurrences(u, names, w)
  {
    if names != [] {
      IdOccurrencesStable(t, u, names[..|names| - 1], w);
    }
  }

  /**
   * Ingestion changes only the counts of document `d`, and raises the count
   * of each word id by 2 for every token carrying it.
   */
  lemma {:induction false} IngestAllCounts(s: Ingested, d: int, names: seq<string>, d': int, w': int)
    ensures forall n :: n in names ==> n in IngestAll(s, d, names).words.ids
    ensures var r := IngestAll(s, d, names);
      Count(r.counter, d', w')
      == Count(s.counter, d', w') + (if d' == d then 2 * IdOccurrences(r.words, names, w') else 0)
  {
    if names != [] {
      var init, last := names[..|names| - 1], names[|names| - 1];
      var p := IngestAll(s, d, init);
      var r := IngestAll(s, d, names);
      IngestAllCounts(s, d, init, d', w');
      assert forall n :: n in init ==> n in names;
      IdOccurrencesStable(p.words, r.words, init, w');
    }
  }

  /** With unique ids, the tokens carrying the id of `name` are exactly its occurrences. */
  lemma {:induction false} IdOccurrencesOfName(t: Table, names: seq<string>, name: string)
    requires TableValid(t) && name in t.ids
    requires forall n :: n in names ==> n in t.ids
    ensures IdOccurrences(t, names, t.ids[name]) == Occurrences(names, name)
  {
    if names != [] {
      var init := names[..|names| - 1];
      assert forall n :: n in init ==> n in names;
      IdOccurrencesOfName(t, init, name);
    }
  }

  /**
   * After ingesting `names` for document `d`, the count of every word of
   * `names` in `d` has grown by twice its number of occurrences.
   */
  lemma CountsAfterIngest(s: Ingested, d: int, names: seq<string>, name: string)
    requires TableValid(s.words) && name in names
    ensures var r := IngestAll(s, d, names);
      name in r.words.ids
      && Count(r.counter, d, r.words.ids[name])
         == Count(s.counter, d, r.words.ids[name]) + 2 * Occurrences(names, name)
  {
    var r := IngestAll(s, d, names);
    IngestAllCounts(s, d, names, d, 0);
    IngestAllValid(s, d, names);
    IngestAllCounts(s, d, names, d, r.words.ids[name]);
    IdOccurrencesOfName(r.words, names, name);
  }

  /** Ingesting keeps the word table valid. */
  lemma {:induction false} IngestAllValid(s: Ingested, d: int, names: seq<string>)
    requires TableValid(s.words)
    ensures TableValid(IngestAll(s, d, names).words)
  {
    if names != [] {
      IngestAllValid(s, d, names[..|names| - 1]);
      InternValid(IngestAll(s, d, names[..|names| - 1]).words, names[|names| - 1]);
    }
  }

  /** One ingested token keeps the store valid when its document exists. */
  lemma IngestWordKeepsStore(s: Ingested, documents: Table, d: int, name: string)
    requires StoreValid(s.words, documents, s.counter) && d in documents.ids.Values
    ensures StoreValid(IngestWord(s, d, name).words, documents, IngestWord(s, d, name).counter)
  {
    var words := Intern(s.words, name);
    var w := words.ids[name];
    InternWordKeepsStore(s.words, documents, s.counter, name);
    assert w in words.ids.Values;
    BumpKeepsStore(words, documents, s.counter, d, w);
    assert IngestWord(s, d, name) == Ingested(words, Bump(s.counter, d, w));
  }

  /** Ingesting a token sequence keeps the store valid when its document exists. */
  lemma {:induction false} IngestAllKeepsStore(s: Ingested, documents: Table, d: int, names: seq<string>)
    requires StoreValid(s.words, documents, s.counter) && d in documents.ids.Values
    ensures StoreValid(IngestAll(s, d, names).words, documents, IngestAll(s, d, names).counter)
  {
    if names != [] {
      var init := names[..|names| - 1];
      IngestAllKeepsStore(s, documents, d, init);
      IngestWordKeepsStore(IngestAll(s, d, init), documents, d, names[|names| - 1]);
    }
  }

  /** Get-or-create of a word keeps the store valid. */
  lemma InternWordKeepsStore(words: Table, documents: Table, counter: Counter, name: string)
    requires StoreValid(words, documents, counter)
    ensures StoreValid(Intern(words, name), documents, counter)
  {
    var r := Intern(words, name);
    InternValid(words, name);
    forall k | k in counter ensures k.1 in r.ids.Values {
      var n :| n in words.ids && words.ids[n] == k.1;
      assert r.ids[n] == k.1;
    }
  }

  /** Get-or-create of a document keeps the store valid. */
  lemma InternDocumentKeepsStore(words: Table, documents: Table, counter: Counter, title: string)
    requires StoreValid(words, documents, counter)
    ensures StoreValid(words, Intern(documents, title), counter)
  {
    var r := Intern(documents, title);
    InternValid(documents, title);
    forall k | k in counter ensures k.0 in r.ids.Values {
      var n :| n in documents.ids && documents.ids[n] == k.0;
      assert r.ids[n] == k.0;
    }
  }

  // ---------------------------------------------------------------------------
  // Vector indices and doubled counts
  // ---------------------------------------------------------------------------

  /**
   * Every word id in the counter lies in `1..MAX(ID)`, so every vector index
   * `wordId - 1` lies in `[0, wordCount)`, and every count is positive.
   */
  lemma StoreWellFormed(words: Table, documents: Table, counter: Counter)
    requires StoreValid(words, documents, counter)
    ensures WellFormed(counter, words.next - 1)
    ensures forall k :: k in counter ==> 0 <= k.1 - 1 < words.next - 1
  {
    forall k | k in counter ensures 1 <= k.1 <= words.next - 1 {
      var n :| n in words.ids && words.ids[n] == k.1;
    }
  }

  /** Every count halved: what a single increment per token would have stored. */
  function Halve(c: Counter): (r: Counter)
    ensures r.Keys == c.Keys
    ensures forall k :: k in r ==> 2 * r[k] <= c[k] <= 2 * r[k] + 1
  {
    map k | k in c :: c[k] / 2
  }

  /**
   * The counter holds exactly twice the per-token counts, and the TF-IDF
   * vectors are those the per-token counts give: the doubling changes no
   * vector.
   */
  lemma DoubledCounts(words: Table, documents: Table, counter: Counter, d: int, documentCount: nat, ln: real -> real)
    requires StoreValid(words, documents, counter)
    ensures Scale(Halve(counter), 2) == counter
    ensures WellFormed(counter, words.next - 1) && WellFormed(Halve(counter), words.next - 1)
    ensures TfIdfVector(counter, d, words.next - 1, documentCount, ln)
         == TfIdfVector(Halve(counter), d, words.next - 1, documentCount, ln)
  {
    StoreWellFormed(words, documents, counter);
    var h := Halve(counter);
    assert Scale(h, 2) == counter;
    assert WellFormed(h, words.next - 1);
    ScaleInvariant(h, 2, d, words.next - 1, documentCount, ln);
  }
}
