/** `SequenceAligner`: Needleman–Wunsch global alignment of two nucleotide
    strings with match +1, mismatch -1 and gap -2, normalised to a similarity
    in [0, 1]. The score recurrence is `Score`; `CalculateSimilarity` fills the
    same matrix in an `array2` and is proved to return `Similarity`. */
module SequenceAligner {
  import opened Common

  const GapPenalty: int := -2
  const MatchScore: int := 1
  const MismatchScore: int := -1

  function Max(x: int, y: int): int { if x >= y then x else y }
  function Min(x: int, y: int): int { if x <= y then x else y }

  /** `s.replaceAll("[^ACGTN]", "").toUpperCase()`: every character outside
      the five upper-case bases is deleted, so upper-casing afterwards changes nothing. */
  function Clean(s: string): (r: string)
    ensures |r| <= |s|
    ensures forall k :: 0 <= k < |r| ==> IsNucleotide(r[k])
    ensures (forall k :: 0 <= k < |s| ==> IsNucleotide(s[k])) ==> r == s
    ensures (forall k :: 0 <= k < |s| ==> !IsNucleotide(s[k])) ==> r == []
    ensures |s| == 1 ==> r == (if IsNucleotide(s[0]) then s else [])
  {
    if s == [] then []
    else (if IsNucleotide(s[0]) then [s[0]] else []) + Clean(s[1..])
  }

  /** The filter works character by character: cleaning a concatenation
      cleans each part and keeps them in order. With the one-character case
      of `Clean`'s contract this fixes the result for every input. */
  lemma {:induction false} CleanAppend(x: string, y: string)
    ensures Clean(x + y) == Clean(x) + Clean(y)
  {
    if x == [] {
      assert x + y == y;
    } else {
      assert (x + y)[1..] == x[1..] + y;
      CleanAppend(x[1..], y);
    }
  }

  function Subst(x: char, y: char): int
  {
    if x == y then MatchScore else MismatchScore
  }

  /** The value `calculateSimilarity` stores in `dp[i][j]`: the best global alignment score
      of `a[..i]` against `b[..j]`. */
  function Score(a: string, b: string, i: nat, j: nat): int
    requires i <= |a| && j <= |b|
    decreases i + j
  {
    if i == 0 then j * GapPenalty
    else if j == 0 then i * GapPenalty
    else
      Best(Score(a, b, i - 1, j - 1), Score(a, b, i - 1, j), Score(a, b, i, j - 1), a[i - 1], b[j - 1])
  }

  /** One interior cell: the best of a diagonal step (match or mismatch), a
      step down and a step right (both a gap). */
  function Best(diagonal: int, up: int, left: int, x: char, y: char): int
  {
    Max(Max(diagonal + Subst(x, y), up + GapPenalty), left + GapPenalty)
  }

  /** The corner score corrected by the unavoidable gap cost of the length
      difference, divided by the length of the shorter sequence. */
  function Normalised(a: string, b: string): real
    requires |a| > 0 && |b| > 0
  {
    var n := |a|;
    var m := |b|;
    (Score(a, b, n, m) - (Max(n, m) - Min(n, m)) * GapPenalty) as real / (Min(n, m) * MatchScore) as real
  }

  function Clamp(x: real): (r: real)
    ensures 0.0 <= r <= 1.0
    ensures 0.0 <= x <= 1.0 ==> r == x
  {
    if x < 0.0 then 0.0 else if x > 1.0 then 1.0 else x
  }

  /** `calculateSimilarity(seq1, seq2)` computed with exact rationals. */
  function Similarity(seq1: string, seq2: string): (r: real)
    ensures 0.0 <= r <= 1.0
    ensures Clean(seq1) == [] || Clean(seq2) == [] ==> r == 0.0
  {
    var a := Clean(seq1);
    var b := Clean(seq2);
    if |a| == 0 || |b| == 0 then 0.0 else Clamp(Normalised(a, b))
  }

  /** The matrix computation of `calculateSimilarity`, proved to compute `Similarity`. */
  method CalculateSimilarity(seq1: string, seq2: string) returns (similarity: real)
    ensures similarity == Similarity(seq1, seq2)
    ensures 0.0 <= similarity <= 1.0
  {
    var a := Clean(seq1);
    var b := Clean(seq2);
    var n := |a|;
    var m := |b|;
    if n == 0 || m == 0 {
      return 0.0;
    }
    var dp := FillMatrix(a, b);
    var maxPossibleScore := Min(n, m) * MatchScore;
    var raw := (dp[n, m] - (Max(n, m) - Min(n, m)) * GapPenalty) as real / maxPossibleScore as real;
    assert raw == Normalised(a, b);
    similarity := Clamp(raw);
  }

  /** The two initialisation loops and the nested fill of `calculateSimilarity`. */
  method FillMatrix(a: string, b: string) returns (dp: array2<int>)
    ensures fresh(dp) && dp.Length0 == |a| + 1 && dp.Length1 == |b| + 1
    ensures forall p, q {:trigger dp[p, q]} :: 0 <= p <= |a| && 0 <= q <= |b| ==> dp[p, q] == Score(a, b, p, q)
  {
    var n := |a|;
    var m := |b|;
    dp := new int[n + 1, m + 1];
    for i := 0 to n + 1
      invariant forall p :: 0 <= p < i ==> dp[p, 0] == Score(a, b, p, 0)
    {
      dp[i, 0] := i * GapPenalty;
    }
    for j := 0 to m + 1
      invariant forall p :: 0 <= p <= n ==> dp[p, 0] == Score(a, b, p, 0)
      invariant forall q :: 0 <= q < j ==> dp[0, q] == Score(a, b, 0, q)
    {
      dp[0, j] := j * GapPenalty;
    }
    for i := 1 to n + 1
      invariant forall p, q {:trigger dp[p, q]} :: 0 <= p < i && 0 <= q <= m ==> dp[p, q] == Score(a, b, p, q)
      invariant forall p :: i <= p <= n ==> dp[p, 0] == Score(a, b, p, 0)
    {
      FillRow(dp, a, b, i);
    }
  }

  /** One pass of the inner loop: row `i` from the rows above it. */
  method FillRow(dp: array2<int>, a: string, b: string, i: nat)
    requires dp.Length0 == |a| + 1 && dp.Length1 == |b| + 1
    requires 0 < i <= |a|
    requires forall p, q {:trigger dp[p, q]} :: 0 <= p < i && 0 <= q <= |b| ==> dp[p, q] == Score(a, b, p, q)
    requires dp[i, 0] == Score(a, b, i, 0)
    modifies dp
    ensures forall q :: 0 <= q <= |b| ==> dp[i, q] == Score(a, b, i, q)
    ensures forall p, q :: 0 <= p < dp.Length0 && 0 <= q < dp.Length1 && p != i ==> dp[p, q] == old(dp[p, q])
  {
    for j := 1 to |b| + 1
      invariant forall q :: 0 <= q < j ==> dp[i, q] == Score(a, b, i, q)
      invariant forall p, q :: 0 <= p < dp.Length0 && 0 <= q < dp.Length1 && p != i ==> dp[p, q] == old(dp[p, q])
    {
      dp[i, j] := Best(dp[i - 1, j - 1], dp[i - 1, j], dp[i, j - 1], a[i - 1], b[j - 1]);
    }
  }

  /** `isPotentialMatch`: the raw lengths are compared first, and only a patient
      string at least half as long as the disease string is aligned. */
  method IsPotentialMatch(patientSeq: string, diseaseSeq: string, threshold: real) returns (r: bool)
    ensures r <==> 2 * |patientSeq| >= |diseaseSeq| && Similarity(patientSeq, diseaseSeq) >= threshold
  {
    if (|patientSeq| as real) < (|diseaseSeq| as real) * 0.5 {
      return false;
    }
    var similarity := CalculateSimilarity(patientSeq, diseaseSeq);
    r := similarity >= threshold;
  }

  // ---------------------------------------------------------------- properties

  /** No alignment beats the shorter length minus the gap cost of the length difference. */
  lemma {:induction false} ScoreUpperBound(a: string, b: string, i: nat, j: nat)
    requires i <= |a| && j <= |b|
    ensures Score(a, b, i, j) + 2 * (Max(i, j) - Min(i, j)) <= Min(i, j)
    decreases i + j
  {
    if i > 0 && j > 0 {
      ScoreUpperBound(a, b, i - 1, j - 1);
      ScoreUpperBound(a, b, i - 1, j);
      ScoreUpperBound(a, b, i, j - 1);
    }
  }

  /** So the normalised score never exceeds 1 and only the lower clamp can apply. */
  lemma NormalisedAtMostOne(a: string, b: string)
    requires |a| > 0 && |b| > 0
    ensures Normalised(a, b) <= 1.0
  {
    ScoreUpperBound(a, b, |a|, |b|);
    var n := |a|;
    var m := |b|;
    var num := Score(a, b, n, m) - (Max(n, m) - Min(n, m)) * GapPenalty;
    var den := Min(n, m) * MatchScore;
    RatioAtMostOne(num, den);
  }

  lemma RatioAtMostOne(x: int, y: int)
    requires 0 < y && x <= y
    ensures x as real / y as real <= 1.0
  {
    assert (x as real / y as real) * (y as real) == x as real;
  }

  /** Swapping the two sequences transposes the matrix. */
  lemma {:induction false} ScoreTranspose(a: string, b: string, i: nat, j: nat)
    requires i <= |a| && j <= |b|
    ensures Score(a, b, i, j) == Score(b, a, j, i)
    decreases i + j
  {
    if i > 0 && j > 0 {
      ScoreTranspose(a, b, i - 1, j - 1);
      ScoreTranspose(a, b, i - 1, j);
      ScoreTranspose(a, b, i, j - 1);
    }
  }

  /** The similarity does not depend on the order of its arguments. */
  lemma SimilaritySymmetric(seq1: string, seq2: string)
    ensures Similarity(seq1, seq2) == Similarity(seq2, seq1)
  {
    var a := Clean(seq1);
    var b := Clean(seq2);
    if |a| > 0 && |b| > 0 {
      ScoreTranspose(a, b, |a|, |b|);
    }
  }

  /** Aligning a sequence with itself gains one point per base. */
  lemma {:induction false} ScoreDiagonal(a: string, i: nat)
    requires i <= |a|
    ensures Score(a, a, i, i) == i
  {
    ScoreUpperBound(a, a, i, i);
    if i > 0 {
      ScoreDiagonal(a, i - 1);
    }
  }

  /** A non-empty sequence aligned with itself normalises to exactly 1. */
  lemma NormalisedSelf(a: string)
    requires |a| > 0
    ensures Normalised(a, a) == 1.0
  {
    var n := |a|;
    ScoreDiagonal(a, n);
    assert Max(n, n) - Min(n, n) == 0;
    assert Normalised(a, a) == n as real / n as real;
  }

  /** A non-empty cleaned sequence is a perfect match with itself. */
  lemma SimilarityIdentical(s: string)
    requires Clean(s) != []
    ensures Similarity(s, s) == 1.0
  {
    NormalisedSelf(Clean(s));
  }

  /** Lower-case bases are deleted, not upper-cased: such a string never matches. */
  lemma LowerCaseScoresZero(other: string)
    ensures Similarity("acgt", other) == 0.0
  {
    assert !IsNucleotide('a') && !IsNucleotide('c') && !IsNucleotide('g') && !IsNucleotide('t');
    assert Clean("acgt") == [];
  }
}
