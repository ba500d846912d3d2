/**
 * The fitness function of the 8-queens genetic algorithm (PopulationAssessor in
 * genetic_algorithm.py): the score of an individual is the number of pairs of
 * its first N positions that lie on a common diagonal, where N is the length
 * of the first individual of the population.
 */
module PopulationAssessor {
  import opened GaTypes

  function Abs(x: int): (r: nat)
    ensures r == x || r == -x
  {
    if x < 0 then -x else x
  }

  /** Rows i and j hold queens on a common diagonal: as far apart in column as in row. */
  predicate OnSameDiagonal(ind: Individual, i: nat, j: nat)
    requires i < |ind| && j < |ind|
  {
    Abs(i - j) == Abs(ind[i] - ind[j])
  }

  /**
   * The nested loops only index an individual when N >= 2, and then they
   * reach every position below N; so an individual is scored without an
   * IndexError exactly when it fits N in this sense.
   */
  predicate Fits(ind: Individual, n: nat)
  {
    n <= 1 || n <= |ind|
  }

  /** The population the evaluator accepts: non-empty, every individual fitting the first one's length. */
  predicate WellShaped(population: Population)
  {
    |population| > 0 && forall k :: 0 <= k < |population| ==> Fits(population[k], |population[0]|)
  }

  /** The pairs of positions below n that share a diagonal: the reference meaning of the score. */
  ghost function DiagonalPairs(ind: Individual, n: nat): (r: set<(int, int)>)
    requires Fits(ind, n)
    ensures forall p :: p in r ==> 0 <= p.0 < p.1 < n
    ensures forall p :: p in r ==> ind[p.0] != ind[p.1]
  {
    set i: nat, j: nat | i < j < n && OnSameDiagonal(ind, i, j) :: (i, j)
  }

  /** All positions below n pairwise off each other's diagonals. */
  ghost predicate NoSharedDiagonal(ind: Individual, n: nat)
    requires Fits(ind, n)
  {
    forall i: nat, j: nat :: i < j < n ==> !OnSameDiagonal(ind, i, j)
  }

  /** What the inner loop has counted for position i once it reaches m. */
  function Hits(ind: Individual, i: nat, m: nat): nat
    requires i < m && (m == i + 1 || m <= |ind|)
    decreases m
  {
    if m == i + 1 then 0
    else Hits(ind, i, m - 1) + (if OnSameDiagonal(ind, i, m - 1) then 1 else 0)
  }

  /** What the outer loop has counted once it reaches position a. */
  function Pairs(ind: Individual, n: nat, a: nat): nat
    requires a <= n && (a == 0 || Fits(ind, n))
  {
    if a == 0 then 0 else Pairs(ind, n, a - 1) + Hits(ind, a - 1, n)
  }

  /** The score the evaluator computes for one individual, with N == n. */
  function Collisions(ind: Individual, n: nat): nat
    requires Fits(ind, n)
  {
    Pairs(ind, n, n)
  }

  /**
   * The evaluator's result as a value: an IndexError when the population is
   * empty or an individual is too short to be indexed, otherwise one score
   * per individual, in population order.
   */
  function Evaluation(population: Population): (r: Outcome<seq<int>>)
    ensures r.Raised? ==> r.error == IndexError
  {
    if !WellShaped(population) then Raised(IndexError)
    else
      var n := |population[0]|;
      Ok(seq(|population|, k requires 0 <= k < |population| => Collisions(population[k], n)))
  }

  /** PopulationAssessor.evaluate_eight_queen_vector: nested loops counting collisions. */
  method Evaluate(population: Population) returns (r: Outcome<seq<int>>)
    ensures r == Evaluation(population)
  {
    if |population| == 0 {
      return Raised(IndexError);
    }
    var n := |population[0]|;
    var evaluates: seq<int> := [];
    for k := 0 to |population|
      invariant |evaluates| == k
      invariant forall q :: 0 <= q < k ==> Fits(population[q], n) && evaluates[q] == Collisions(population[q], n)
    {
      var individual := population[k];
      var collisions := 0;
      for first := 0 to n
        invariant first > 0 ==> Fits(individual, n)
        invariant collisions == Pairs(individual, n, first)
      {
        for second := first + 1 to n
          invariant second == first + 1 || second <= |individual|
          invariant collisions == Pairs(individual, n, first) + Hits(individual, first, second)
        {
          if second >= |individual| {
            assert !Fits(population[k], n);
            return Raised(IndexError);
          }
          if Abs(first - second) == Abs(individual[first] - individual[second]) {
            collisions := collisions + 1;
          }
        }
      }
      evaluates := evaluates + [collisions];
    }
    assert WellShaped(population);
    assert Evaluation(population).value == evaluates;
    return Ok(evaluates);
  }

  // ----- The count is the number of diagonal pairs -----

  ghost function RowPairs(ind: Individual, i: nat, m: nat): set<(int, int)>
    requires i < m && (m == i + 1 || m <= |ind|)
  {
    set j: nat | i < j < m && OnSameDiagonal(ind, i, j) :: (i, j)
  }

  ghost function PrefixPairs(ind: Individual, n: nat, a: nat): set<(int, int)>
    requires a <= n && (a == 0 || Fits(ind, n))
  {
    set i: nat, j: nat | i < a && i < j < n && OnSameDiagonal(ind, i, j) :: (i, j)
  }

  lemma {:induction false} HitsCountsRow(ind: Individual, i: nat, m: nat)
    requires i < m && (m == i + 1 || m <= |ind|)
    ensures |RowPairs(ind, i, m)| == Hits(ind, i, m)
    decreases m
  {
    if m == i + 1 {
      assert RowPairs(ind, i, m) == {};
    } else {
      HitsCountsRow(ind, i, m - 1);
      if OnSameDiagonal(ind, i, m - 1) {
        assert RowPairs(ind, i, m) == RowPairs(ind, i, m - 1) + {(i, m - 1)};
        assert (i, m - 1) !in RowPairs(ind, i, m - 1);
      } else {
        assert RowPairs(ind, i, m) == RowPairs(ind, i, m - 1);
      }
    }
  }

  lemma {:induction false} PairsCountsPrefix(ind: Individual, n: nat, a: nat)
    requires a <= n && (a == 0 || Fits(ind, n))
    ensures |PrefixPairs(ind, n, a)| == Pairs(ind, n, a)
  {
    if a == 0 {
      assert PrefixPairs(ind, n, a) == {};
    } else {
      PairsCountsPrefix(ind, n, a - 1);
      HitsCountsRow(ind, a - 1, n);
      var before, row := PrefixPairs(ind, n, a - 1), RowPairs(ind, a - 1, n);
      assert PrefixPairs(ind, n, a) == before + row;
      assert before * row == {} by {
        forall p | p in before ensures p !in row {
        }
      }
    }
  }

  /** The evaluator's count is exactly the number of pairs i < j < n on a common diagonal. */
  lemma CollisionsCountDiagonalPairs(ind: Individual, n: nat)
    requires Fits(ind, n)
    ensures Collisions(ind, n) == |DiagonalPairs(ind, n)|
  {
    PairsCountsPrefix(ind, n, n);
    assert DiagonalPairs(ind, n) == PrefixPairs(ind, n, n);
  }

  // ----- Bounds -----

  lemma {:induction false} HitsBound(ind: Individual, i: nat, m: nat)
    requires i < m && (m == i + 1 || m <= |ind|)
    ensures Hits(ind, i, m) <= m - i - 1
    decreases m
  {
    if m > i + 1 {
      HitsBound(ind, i, m - 1);
    }
  }

  lemma {:induction false} PairsBound(ind: Individual, n: nat, a: nat)
    requires a <= n && (a == 0 || Fits(ind, n))
    ensures 2 * Pairs(ind, n, a) <= a * (2 * n - a - 1)
  {
    if a > 0 {
      PairsBound(ind, n, a - 1);
      HitsBound(ind, a - 1, n);
      assert (a - 1) * (2 * n - a) + 2 * (n - a) == a * (2 * n - a - 1) by {
        assert (a - 1) * (2 * n - a) == a * (2 * n - a) - (2 * n - a);
        assert a * (2 * n - a) == a * (2 * n - a - 1) + a;
      }
    }
  }

  /** A score never exceeds the number of pairs of positions, N*(N-1)/2. */
  lemma CollisionsBounded(ind: Individual, n: nat)
    requires Fits(ind, n)
    ensures 0 <= Collisions(ind, n) <= n * (n - 1) / 2
  {
    PairsBound(ind, n, n);
    assert n * (2 * n - n - 1) == n * (n - 1);
  }

  // ----- Zero score -----

  /** A score is 0 exactly when no two of the first n positions share a diagonal. */
  lemma ZeroIffNoSharedDiagonal(ind: Individual, n: nat)
    requires Fits(ind, n)
    ensures Collisions(ind, n) == 0 <==> NoSharedDiagonal(ind, n)
  {
    CollisionsCountDiagonalPairs(ind, n);
    forall i: nat, j: nat | i < j < n && OnSameDiagonal(ind, i, j) ensures (i, j) in DiagonalPairs(ind, n) {
    }
    if Collisions(ind, n) != 0 {
      var p :| p in DiagonalPairs(ind, n);
      assert OnSameDiagonal(ind, p.0, p.1);
    }
  }

  /** A permutation of 0..N-1: one queen per row and per column. */
  predicate IsPermutation(ind: Individual)
  {
    && (forall k :: 0 <= k < |ind| ==> 0 <= ind[k] < |ind|)
    && (forall i, j :: 0 <= i < j < |ind| ==> ind[i] != ind[j])
  }

  /** A valid N-queens placement: no two queens share a row, a column or a diagonal. */
  predicate IsQueensSolution(ind: Individual)
  {
    forall i: nat, j: nat :: i < j < |ind| ==> ind[i] != ind[j] && !OnSameDiagonal(ind, i, j)
  }

  /** On a permutation, a score of 0 means a valid N-queens placement, and conversely. */
  lemma PermutationZeroIffSolution(ind: Individual)
    requires IsPermutation(ind)
    ensures Collisions(ind, |ind|) == 0 <==> IsQueensSolution(ind)
  {
    ZeroIffNoSharedDiagonal(ind, |ind|);
  }

  /**
   * Equal columns are invisible to the score: an individual that repeats one
   * column everywhere scores 0, yet with two or more rows it is no placement
   * of non-attacking queens.
   */
  lemma RepeatedColumnScoresZero(ind: Individual)
    requires |ind| >= 2
    requires forall k :: 0 <= k < |ind| ==> ind[k] == ind[0]
    ensures Collisions(ind, |ind|) == 0
    ensures !IsQueensSolution(ind)
  {
    CollisionsCountDiagonalPairs(ind, |ind|);
    assert DiagonalPairs(ind, |ind|) == {};
    assert ind[0] == ind[1];
  }

  /**
   * What the evaluator returns on a population it accepts: one score per
   * individual, in order; each the number of diagonal pairs of that individual,
   * between 0 and N*(N-1)/2, and 0 exactly when no two positions share a diagonal.
   */
  lemma EvaluationScores(population: Population)
    ensures Evaluation(population).Ok? <==> WellShaped(population)
    ensures Evaluation(population).Ok? ==>
      var scores, n := Evaluation(population).value, |population[0]|;
      && |scores| == |population|
      && forall k :: 0 <= k < |scores| ==>
        && Fits(population[k], n)
        && scores[k] == |DiagonalPairs(population[k], n)|
        && 0 <= scores[k] <= n * (n - 1) / 2
        && (scores[k] == 0 <==> NoSharedDiagonal(population[k], n))
  {
    if WellShaped(population) {
      var n := |population[0]|;
      forall k | 0 <= k < |population|
        ensures Collisions(population[k], n) == |DiagonalPairs(population[k], n)|
        ensures 0 <= Collisions(population[k], n) <= n * (n - 1) / 2
        ensures Collisions(population[k], n) == 0 <==> NoSharedDiagonal(population[k], n)
      {
        CollisionsCountDiagonalPairs(population[k], n);
        CollisionsBounded(population[k], n);
        ZeroIffNoSharedDiagonal(population[k], n);
      }
    }
  }
}
