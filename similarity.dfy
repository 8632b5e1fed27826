/**
  The similarity test between two critics' preference masks (`is_similar`),
  and the observation the engine rests on: similar masks have population
  counts that differ by exactly one, so the critics who like k novels can only
  be paired with critics who like k - 1 or k + 1 of them.
*/
module Similarity {
  import opened Bits

  /** `is_similar(a, b)`: equal masks are never similar; otherwise `c = a ^ b`
      must be 1 or satisfy `c & (c - 1) == 0`. The result is true exactly
      when the masks differ in one bit. */
  function IsSimilar(a: nat, b: nat): (similar: bool)
    ensures similar <==> HammingDistance(a, b) == 1
  {
    XorIsZeroIff(a, b);
    if a == b then false
    else
      var c := Xor(a, b);
      PowerOfTwoTest(c);
      c == 1 || And(c, c - 1) == 0
  }

  lemma IsSimilarIrreflexive(a: nat)
    ensures !IsSimilar(a, a)
  {
  }

  lemma IsSimilarSymmetric(a: nat, b: nat)
    ensures IsSimilar(a, b) <==> IsSimilar(b, a)
  {
    XorCommutes(a, b);
  }

  /** The `c == 1` disjunct is redundant: the power-of-two test alone, on a
      non-zero `a ^ b`, decides similarity. */
  lemma PowerOfTwoTestSuffices(a: nat, b: nat)
    ensures IsSimilar(a, b) <==> var c := Xor(a, b); c != 0 && And(c, c - 1) == 0
  {
    var c := Xor(a, b);
    if c != 0 {
      PowerOfTwoTest(c);
    } else {
      PopcountPositive(c);
    }
  }

  /** Similar masks are exactly those that one flipped bit turns into each other. */
  lemma SimilarIffOneBitFlipped(a: nat, b: nat)
    ensures IsSimilar(a, b) <==> exists k: nat :: b == Xor(a, Pow2(k))
  {
    if IsSimilar(a, b) {
      var k := SingleBitIsPow2(Xor(a, b));
      XorCancels(a, b);
      assert b == Xor(a, Pow2(k));
    }
    if exists k: nat :: b == Xor(a, Pow2(k)) {
      var k: nat :| b == Xor(a, Pow2(k));
      XorCancels(a, Pow2(k));
      PopcountOfPow2(k);
    }
  }

  /** Why the compatibility graph is bipartite: masks of equal population
      count, or of counts two or more apart, are never similar, so every
      similar pair has counts that differ by exactly one. */
  lemma SimilarMasksDifferInPopcountByOne(a: nat, b: nat)
    ensures IsSimilar(a, b) ==> Popcount(a) + 1 == Popcount(b) || Popcount(b) + 1 == Popcount(a)
    ensures Popcount(a) == Popcount(b) ==> !IsSimilar(a, b)
    ensures Popcount(a) >= Popcount(b) + 2 || Popcount(b) >= Popcount(a) + 2 ==> !IsSimilar(a, b)
  {
    PopcountDifferenceBound(a, b);
  }
}
