/**
 * The scores of `calculateSimilarity` on the strings its unit tests use,
 * derived from the general lemmas about `Similarity`.
 */
module SimilarityExamples {
  import opened ProductMatching

  /** Identical strings score 1.0. */
  lemma IdenticalStringsScoreOne(s: string)
    requires s == "test"
    ensures Similarity(s, s) == 1.0
  {
    SimilarityOneIff(s, s);
  }

  lemma AbcXyzDisjoint(a: string, b: string)
    requires a == "abc" && b == "xyz"
    ensures forall x :: 0 <= x < |a| ==> a[x] !in b
  {
  }

  /** Completely different strings score 0.0. */
  lemma DifferentStringsScoreZero(a: string, b: string)
    requires a == "abc" && b == "xyz"
    ensures Similarity(a, b) == 0.0
  {
    AbcXyzDisjoint(a, b);
    DisjointScoresZero(a, b);
  }

  /**
   * Two edits of aligned positions and one trailing insertion: a string of
   * six characters and one of seven that agree everywhere except at
   * positions 0 and 4 and in the extra last character are within distance 3.
   */
  lemma ThreeEditsApart(a: string, b: string)
    requires |a| == 6 && |b| == 7
    requires a[0] != b[0] && a[1] == b[1] && a[2] == b[2] && a[3] == b[3]
    requires a[4] != b[4] && a[5] == b[5] && a[5] != b[6]
    ensures Distance(a, b) <= 3
  {
    DistStep(a, b, 1, 1);
    DistStep(a, b, 2, 2);
    DistStep(a, b, 3, 3);
    DistStep(a, b, 4, 4);
    DistStep(a, b, 5, 5);
    DistStep(a, b, 6, 6);
    DistStep(a, b, 6, 7);
  }

  lemma KittenSittingShape(a: string, b: string)
    requires a == "kitten" && b == "sitting"
    ensures |a| == 6 && |b| == 7
    ensures a[0] != b[0] && a[1] == b[1] && a[2] == b[2] && a[3] == b[3]
    ensures a[4] != b[4] && a[5] == b[5] && a[5] != b[6]
  {
  }

  /** Similar strings score strictly between 0.5 and 1.0. */
  lemma SimilarStringsScoreBetween(a: string, b: string)
    requires a == "kitten" && b == "sitting"
    ensures 0.5 < Similarity(a, b) < 1.0
  {
    KittenSittingShape(a, b);
    ThreeEditsApart(a, b);
    CloseStringsScore(a, b);
  }
}
