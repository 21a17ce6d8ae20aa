/**
 * The two records of the model package: a sibling entry (a reference to
 * another document with a similarity score) and a document as the TF-IDF
 * engine builds it. A document's id, title and vector are set once when the
 * vector builder creates it; only its sibling list is updated afterwards.
 */
module Model {

  /** Another document, by id, deemed similar with the given score. */
  datatype Sibling = Sibling(id: int, similarity: real)

  class Document {
    const id: int
    const title: string
    /** The TF-IDF vector; entry `w - 1` belongs to the word with id `w`. */
    const vector: seq<real>
    /** Ranked similar documents; a new document starts with an empty list. */
    var siblings: seq<Sibling>

    constructor (id: int, title: string, vector: seq<real>)
      ensures this.id == id && this.title == title && this.vector == vector
      ensures siblings == []
    {
      this.id := id;
      this.title := title;
      this.vector := vector;
      siblings := [];
    }
  }
}
