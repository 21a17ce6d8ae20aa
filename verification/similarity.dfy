/**
 * Cosine similarity of two document vectors. The square root behind the
 * Euclidean norm is a parameter (`sqrt`): the model does not fix its values,
 * so every fact proved here holds whatever function is supplied.
 */
module Similarity {

  /**
   * Dot product. The vector library refuses vectors of different sizes; here
   * entries are paired up to the shorter length (all vectors the engine
   * compares have the same length). Vectors with no shared non-zero
   * dimension have dot product 0, and a vector's dot product with itself,
   * the square of its norm, is never negative.
   */
  function Dot(a: seq<real>, b: seq<real>): (r: real)
    ensures DisjointSupport(a, b) ==> r == 0.0
    ensures a == b ==> r >= 0.0
  {
    if a == [] || b == [] then 0.0
    else
      assert DisjointSupport(a, b) ==> DisjointSupport(a[1..], b[1..]) by {
        if DisjointSupport(a, b) {
          forall i | 0 <= i < |a[1..]| && i < |b[1..]| ensures a[1..][i] == 0.0 || b[1..][i] == 0.0 {
            assert a[1..][i] == a[i + 1] && b[1..][i] == b[i + 1];
          }
        }
      }
      a[0] * b[0] + Dot(a[1..], b[1..])
  }

  /**
   * The Euclidean norm, with the square root left abstract: the square root
   * of a value that is never negative, which is 0 for a zero vector.
   */
  function Norm(a: seq<real>, sqrt: real -> real): (r: real)
    ensures Dot(a, a) >= 0.0 && r == sqrt(Dot(a, a))
    ensures IsZero(a) ==> r == sqrt(0.0)
  {
    assert IsZero(a) ==> DisjointSupport(a, a);
    sqrt(Dot(a, a))
  }

  /**
   * Cosine similarity: the dot product divided by the product of the norms,
   * and exactly 0 when that product is 0.
   */
  function ComputeSimilarity(a: seq<real>, b: seq<real>, sqrt: real -> real): (r: real)
    ensures Norm(a, sqrt) * Norm(b, sqrt) == 0.0 ==> r == 0.0
    ensures Dot(a, b) == 0.0 ==> r == 0.0
  {
    var denom := Norm(a, sqrt) * Norm(b, sqrt);
    if denom == 0.0 then 0.0 else Dot(a, b) / denom
  }

  predicate IsZero(a: seq<real>) { forall i :: 0 <= i < |a| ==> a[i] == 0.0 }

  /** No dimension is non-zero in both vectors (no shared vocabulary). */
  predicate DisjointSupport(a: seq<real>, b: seq<real>)
  {
    forall i :: 0 <= i < |a| && i < |b| ==> a[i] == 0.0 || b[i] == 0.0
  }

  lemma {:induction false} DotSymmetric(a: seq<real>, b: seq<real>)
    ensures Dot(a, b) == Dot(b, a)
  {
    if a != [] && b != [] {
      DotSymmetric(a[1..], b[1..]);
    }
  }

  /** Similarity is symmetric, exactly. */
  lemma SimilaritySymmetric(a: seq<real>, b: seq<real>, sqrt: real -> real)
    ensures ComputeSimilarity(a, b, sqrt) == ComputeSimilarity(b, a, sqrt)
  {
    DotSymmetric(a, b);
  }

  /** Documents with no shared non-zero dimension have similarity exactly 0. */
  lemma DisjointSimilarityZero(a: seq<real>, b: seq<real>, sqrt: real -> real)
    requires DisjointSupport(a, b)
    ensures ComputeSimilarity(a, b, sqrt) == 0.0
  {
    assert Dot(a, b) == 0.0;
  }

  /** A zero vector is similarity-0 to every vector, itself included. */
  lemma ZeroVectorSimilarity(a: seq<real>, b: seq<real>, sqrt: real -> real)
    requires IsZero(a)
    ensures ComputeSimilarity(a, b, sqrt) == 0.0
    ensures ComputeSimilarity(b, a, sqrt) == 0.0
  {
    assert DisjointSupport(a, b);
    DotSymmetric(a, b);
  }
}
