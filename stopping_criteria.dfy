/**
 * The stopping test of the genetic algorithm (StoppingCriteria in
 * genetic_algorithm.py): stop as soon as some score equals the target value.
 */
module StoppingCriteria {

  /** StoppingCriteria.stop_eight_queen_vector_min: is the target score present? */
  function StopAtMin(evaluates: seq<int>, minValue: int): (r: bool)
    ensures r <==> exists k :: 0 <= k < |evaluates| && evaluates[k] == minValue
  {
    minValue in evaluates
  }

  /**
   * Only which scores occur matters: two score lists with the same elements,
   * in any order and with any multiplicities, get the same answer.
   */
  lemma StopSeesOnlyOccurrence(a: seq<int>, b: seq<int>, minValue: int)
    requires forall x :: x in a <==> x in b
    ensures StopAtMin(a, minValue) == StopAtMin(b, minValue)
  {
  }
}
