/**
 * The generational driver of the genetic algorithm (run and getBestIndividual
 * in activity_tasks_run.py). The driver is written against eight injected
 * strategies; each strategy is a function that returns a value or raises, and
 * an exception raised by a strategy ends the run with that exception.
 */
module Engine {
  import opened GaTypes
  import StoppingCriteria

  // ----- getBestIndividual -----

  /** The smallest score, as Python's min computes it. */
  function MinOf(scores: seq<int>): (m: int)
    requires |scores| > 0
    ensures m in scores
    ensures forall j :: 0 <= j < |scores| ==> m <= scores[j]
  {
    if |scores| == 1 then scores[0]
    else
      var rest := MinOf(scores[1..]);
      if scores[0] <= rest then scores[0] else rest
  }

  /** The first position holding x, as Python's list.index computes it. */
  function IndexOf(scores: seq<int>, x: int): (k: nat)
    requires x in scores
    ensures k < |scores| && scores[k] == x
    ensures forall j :: 0 <= j < k ==> scores[j] != x
  {
    if scores[0] == x then 0 else 1 + IndexOf(scores[1..], x)
  }

  /** k is the first position attaining the minimum score. */
  ghost predicate IsFirstMinimum(scores: seq<int>, k: int)
  {
    && 0 <= k < |scores|
    && (forall j :: 0 <= j < |scores| ==> scores[k] <= scores[j])
    && (forall j :: 0 <= j < k ==> scores[k] < scores[j])
  }

  /**
   * getBestIndividual: the individual and score at the first position of the
   * minimum score. min raises ValueError on no scores; indexing the
   * individuals raises IndexError when that position is not below their number.
   */
  function GetBestIndividual(individuals: Population, scores: seq<int>): (r: Outcome<(Individual, int)>)
    ensures |scores| == 0 <==> r == Raised(ValueError)
    ensures r.Ok? ==> exists k :: IsFirstMinimum(scores, k) && k < |individuals| && r.value == (individuals[k], scores[k])
    ensures r == Raised(IndexError) ==> exists k :: IsFirstMinimum(scores, k) && |individuals| <= k
  {
    if |scores| == 0 then Raised(ValueError)
    else
      var minValue := MinOf(scores);
      var minValueIndex := IndexOf(scores, minValue);
      assert IsFirstMinimum(scores, minValueIndex);
      if minValueIndex < |individuals| then Ok((individuals[minValueIndex], scores[minValueIndex]))
      else Raised(IndexError)
  }

  /** At most one position is the first minimum, so the picker's choice is the only one. */
  lemma FirstMinimumUnique(scores: seq<int>, k1: int, k2: int)
    requires IsFirstMinimum(scores, k1) && IsFirstMinimum(scores, k2)
    ensures k1 == k2
  {
    assert scores[k1] <= scores[k2] && scores[k2] <= scores[k1];
  }

  // ----- run -----

  /** The scalar arguments of run. The two rates only reach the strategies. */
  datatype Config = Config(
    populationSize: int,
    crossoverRate: real,
    mutationRate: real,
    generations: int,
    minValue: int,
    randomState: int)

  /** The strategy arguments of run, with the argument lists run passes them. */
  datatype Strategies = Strategies(
    generate: (int, int) -> Outcome<Population>,
    evaluate: Population -> Outcome<seq<int>>,
    stop: (seq<int>, int) -> Outcome<bool>,
    select: (Population, seq<int>, nat, int) -> Outcome<Population>,
    crossover: (Population, real, nat, int) -> Outcome<Population>,
    mutate: (Population, real, nat, int) -> Outcome<Population>,
    survive: (Population, Population, seq<int>, seq<int>, int, nat, int) -> Outcome<(Population, seq<int>)>,
    best: (Population, seq<int>) -> Outcome<(Individual, int)>)

  /** One invocation of a strategy, tagged with the loop index where there is one. */
  datatype Call =
    | Generate
    | EvaluateInitial
    | Stop(round: nat)
    | Select(round: nat)
    | Crossover(round: nat)
    | Mutate(round: nat)
    | EvaluateSons(round: nat)
    | Survive(round: nat)
    | PickBest

  /** The state the loop ends in, and whether the stopping test ended it. */
  datatype Final = Final(population: Population, evaluates: seq<int>, endRound: nat, stopped: bool)

  /** The end of the loop (or the exception that ended it) and the strategy calls made on the way. */
  datatype Execution = Execution(outcome: Outcome<Final>, calls: seq<Call>)

  /** The next (population, evaluates) of one breeding round, and the calls it made. */
  datatype Handover = Handover(next: Outcome<(Population, seq<int>)>, calls: seq<Call>)

  function Max0(x: int): nat
  {
    if x > 0 then x else 0
  }

  /** The strategy calls of a complete breeding round, in the order run makes them. */
  function BreedCalls(round: nat): seq<Call>
  {
    [Select(round), Crossover(round), Mutate(round), EvaluateSons(round), Survive(round)]
  }

  /** The calls of the rounds from..to-1, each a stopping test that failed followed by a full breeding round. */
  function Rounds(from: nat, to: nat): seq<Call>
    decreases (to as int) - (from as int)
  {
    if from >= to then [] else [Stop(from)] + BreedCalls(from) + Rounds(from + 1, to)
  }

  /** Selection, crossover, mutation, offspring evaluation and survivor selection of one round. */
  function Breed(c: Config, s: Strategies, round: nat, population: Population, evaluates: seq<int>): (h: Handover)
    ensures 1 <= |h.calls| <= 5 && h.calls == BreedCalls(round)[..|h.calls|]
    ensures h.next.Ok? ==> h.calls == BreedCalls(round)
  {
    var parents := s.select(population, evaluates, round, c.randomState);
    if parents.Raised? then Handover(Raised(parents.error), BreedCalls(round)[..1]) else
    var sons := s.crossover(parents.value, c.crossoverRate, round, c.randomState);
    if sons.Raised? then Handover(Raised(sons.error), BreedCalls(round)[..2]) else
    var mutateSons := s.mutate(sons.value, c.mutationRate, round, c.randomState);
    if mutateSons.Raised? then Handover(Raised(mutateSons.error), BreedCalls(round)[..3]) else
    var sonsEvaluates := s.evaluate(mutateSons.value);
    if sonsEvaluates.Raised? then Handover(Raised(sonsEvaluates.error), BreedCalls(round)[..4]) else
    var next := s.survive(population, mutateSons.value, evaluates, sonsEvaluates.value,
                          c.populationSize, round, c.randomState);
    Handover(next, BreedCalls(round))
  }

  /** The loop of run from loop index round on, with the population and scores carried into it. */
  function Loop(c: Config, s: Strategies, round: nat, population: Population, evaluates: seq<int>): Execution
    decreases c.generations - round
  {
    if round >= c.generations then Execution(Ok(Final(population, evaluates, round, false)), [])
    else if s.stop(evaluates, c.minValue).Raised? then Execution(Raised(s.stop(evaluates, c.minValue).error), [Stop(round)])
    else if s.stop(evaluates, c.minValue).value then Execution(Ok(Final(population, evaluates, round + 1, true)), [Stop(round)])
    else
      var h := Breed(c, s, round, population, evaluates);
      if h.next.Raised? then Execution(Raised(h.next.error), [Stop(round)] + h.calls)
      else
        var rest := Loop(c, s, round + 1, h.next.value.0, h.next.value.1);
        Execution(rest.outcome, [Stop(round)] + h.calls + rest.calls)
  }

  /** Generation, first evaluation, then the loop from index 0. */
  function Start(c: Config, s: Strategies): Execution
  {
    var population := s.generate(c.populationSize, c.randomState);
    if population.Raised? then Execution(Raised(population.error), [Generate]) else
    var evaluates := s.evaluate(population.value);
    if evaluates.Raised? then Execution(Raised(evaluates.error), [Generate, EvaluateInitial]) else
    var loop := Loop(c, s, 0, population.value, evaluates.value);
    Execution(loop.outcome, [Generate, EvaluateInitial] + loop.calls)
  }

  /** What run returns: (bestIndividual, bestScore, endRound), or the exception it raises. */
  function RunResult(c: Config, s: Strategies): Outcome<(Individual, int, nat)>
  {
    var e := Start(c, s);
    if e.outcome.Raised? then Raised(e.outcome.error) else
    var picked := s.best(e.outcome.value.population, e.outcome.value.evaluates);
    if picked.Raised? then Raised(picked.error) else Ok((picked.value.0, picked.value.1, e.outcome.value.endRound))
  }

  /** Every strategy call run makes, in order. */
  function RunCalls(c: Config, s: Strategies): seq<Call>
  {
    var e := Start(c, s);
    if e.outcome.Raised? then e.calls else e.calls + [PickBest]
  }

  /** Lines 50-55 of run: one breeding round, with the calls it makes. */
  method BreedRound(c: Config, s: Strategies, round: nat, population: Population, evaluates: seq<int>)
    returns (next: Outcome<(Population, seq<int>)>, ghost calls: seq<Call>)
    ensures next == Breed(c, s, round, population, evaluates).next
    ensures calls == Breed(c, s, round, population, evaluates).calls
  {
    var parents := s.select(population, evaluates, round, c.randomState);
    calls := [Select(round)];
    if parents.Raised? {
      return Raised(parents.error), calls;
    }
    var sons := s.crossover(parents.value, c.crossoverRate, round, c.randomState);
    calls := calls + [Crossover(round)];
    if sons.Raised? {
      return Raised(sons.error), calls;
    }
    var mutateSons := s.mutate(sons.value, c.mutationRate, round, c.randomState);
    calls := calls + [Mutate(round)];
    if mutateSons.Raised? {
      return Raised(mutateSons.error), calls;
    }
    var sonsEvaluates := s.evaluate(mutateSons.value);
    calls := calls + [EvaluateSons(round)];
    if sonsEvaluates.Raised? {
      return Raised(sonsEvaluates.error), calls;
    }
    next := s.survive(population, mutateSons.value, evaluates, sonsEvaluates.value,
                      c.populationSize, round, c.randomState);
    calls := calls + [Survive(round)];
  }

  /** run: the generational loop, with a ghost log of the strategy calls it makes. */
  method Run(c: Config, s: Strategies) returns (r: Outcome<(Individual, int, nat)>, ghost calls: seq<Call>)
    ensures r == RunResult(c, s) && calls == RunCalls(c, s)
    ensures r.Ok? ==> r.value.2 <= Max0(c.generations)
  {
    ghost var start := Start(c, s);
    var endRound: nat := 0;
    calls := [Generate];
    var generated := s.generate(c.populationSize, c.randomState);
    if generated.Raised? {
      return Raised(generated.error), calls;
    }
    var population := generated.value;
    calls := calls + [EvaluateInitial];
    var evaluated := s.evaluate(population);
    if evaluated.Raised? {
      return Raised(evaluated.error), calls;
    }
    var evaluates := evaluated.value;
    ghost var loop := Loop(c, s, 0, population, evaluates);
    assert start.outcome == loop.outcome && start.calls == calls + loop.calls;

    var round: nat := 0;
    var stopped := false;
    while round < c.generations
      invariant round <= Max0(c.generations) && endRound == round
      invariant start.outcome == Loop(c, s, round, population, evaluates).outcome
      invariant start.calls == calls + Loop(c, s, round, population, evaluates).calls
      decreases c.generations - round
    {
      ghost var here := Loop(c, s, round, population, evaluates);
      endRound := round + 1;
      var stopNow := s.stop(evaluates, c.minValue);
      if stopNow.Raised? {
        assert here == Execution(Raised(stopNow.error), [Stop(round)]);
        calls := calls + [Stop(round)];
        return Raised(stopNow.error), calls;
      }
      if stopNow.value {
        assert here == Execution(Ok(Final(population, evaluates, round + 1, true)), [Stop(round)]);
        calls := calls + [Stop(round)];
        stopped := true;
        break;
      }
      var next, breedCalls := BreedRound(c, s, round, population, evaluates);
      if next.Raised? {
        assert here == Execution(Raised(next.error), [Stop(round)] + breedCalls);
        calls := calls + ([Stop(round)] + breedCalls);
        return Raised(next.error), calls;
      }
      ghost var rest := Loop(c, s, round + 1, next.value.0, next.value.1);
      assert here == Execution(rest.outcome, [Stop(round)] + breedCalls + rest.calls);
      assert calls + here.calls == (calls + ([Stop(round)] + breedCalls)) + rest.calls;
      calls := calls + ([Stop(round)] + breedCalls);
      population, evaluates := next.value.0, next.value.1;
      round := round + 1;
    }
    assert start.outcome == Ok(Final(population, evaluates, endRound, stopped)) && start.calls == calls;
    var picked := s.best(population, evaluates);
    calls := calls + [PickBest];
    if picked.Raised? {
      return Raised(picked.error), calls;
    }
    r := Ok((picked.value.0, picked.value.1, endRound));
  }

  // ----- What the loop does, over all strategies -----

  /** The number of survivor-selection calls in a call log. */
  function Survivals(calls: seq<Call>): nat
  {
    if calls == [] then 0 else (if calls[0].Survive? then 1 else 0) + Survivals(calls[1..])
  }

  predicate IsBreeding(call: Call)
  {
    call.Select? || call.Crossover? || call.Mutate? || call.EvaluateSons? || call.Survive?
  }

  lemma {:induction false} SurvivalsAppend(a: seq<Call>, b: seq<Call>)
    ensures Survivals(a + b) == Survivals(a) + Survivals(b)
  {
    if a == [] {
      assert a + b == b;
    } else {
      assert (a + b)[1..] == a[1..] + b;
      SurvivalsAppend(a[1..], b);
    }
  }

  /** The rounds from..to-1 apply survivor selection exactly to - from times. */
  lemma {:induction false} RoundsSurvivals(from: nat, to: nat)
    requires from <= to
    ensures Survivals(Rounds(from, to)) == to - from
    decreases (to as int) - (from as int)
  {
    if from < to {
      var head := [Stop(from)] + BreedCalls(from);
      assert Survivals(head) == 1 by {
        var t5 := [Survive(from)];
        assert t5[1..] == [] && Survivals(t5) == 1;
        var t4 := [EvaluateSons(from)] + t5;
        assert t4[1..] == t5 && Survivals(t4) == 1;
        var t3 := [Mutate(from)] + t4;
        assert t3[1..] == t4 && Survivals(t3) == 1;
        var t2 := [Crossover(from)] + t3;
        assert t2[1..] == t3 && Survivals(t2) == 1;
        var t1 := [Select(from)] + t2;
        assert t1[1..] == t2 && Survivals(t1) == 1;
        assert head == [Stop(from)] + t1 && head[1..] == t1;
      }
      SurvivalsAppend(head, Rounds(from + 1, to));
      RoundsSurvivals(from + 1, to);
    }
  }

  /** Every call in the rounds from..to-1 is a stopping test or a breeding call of one of those rounds. */
  lemma {:induction false} RoundsStayInRange(from: nat, to: nat)
    ensures forall k :: 0 <= k < |Rounds(from, to)| ==>
      ((Rounds(from, to)[k].Stop? || IsBreeding(Rounds(from, to)[k])) && from <= Rounds(from, to)[k].round < to)
    decreases (to as int) - (from as int)
  {
    if from < to {
      RoundsStayInRange(from + 1, to);
      var head, tail := [Stop(from)] + BreedCalls(from), Rounds(from + 1, to);
      assert Rounds(from, to) == head + tail;
      forall k | 0 <= k < |Rounds(from, to)|
        ensures (Rounds(from, to)[k].Stop? || IsBreeding(Rounds(from, to)[k])) && from <= Rounds(from, to)[k].round < to
      {
        if k >= |head| {
          assert Rounds(from, to)[k] == tail[k - |head|];
        }
      }
    }
  }

  lemma {:induction false} LoopShape(c: Config, s: Strategies, round: nat, population: Population, evaluates: seq<int>)
    requires round <= Max0(c.generations)
    ensures var e := Loop(c, s, round, population, evaluates);
      e.outcome.Ok? ==>
        var f := e.outcome.value;
        && round <= f.endRound <= Max0(c.generations)
        && (f.stopped ==>
              && round + 1 <= f.endRound
              && s.stop(f.evaluates, c.minValue) == Ok(true)
              && e.calls == Rounds(round, f.endRound - 1) + [Stop(f.endRound - 1)])
        && (!f.stopped ==> f.endRound == Max0(c.generations) && e.calls == Rounds(round, f.endRound))
    decreases c.generations - round
  {
    if round >= c.generations {
    } else if s.stop(evaluates, c.minValue).Raised? {
    } else if s.stop(evaluates, c.minValue).value {
      assert Rounds(round, round) == [];
    } else {
      var h := Breed(c, s, round, population, evaluates);
      if h.next.Ok? {
        var rest := Loop(c, s, round + 1, h.next.value.0, h.next.value.1);
        LoopShape(c, s, round + 1, h.next.value.0, h.next.value.1);
        if rest.outcome.Ok? {
          var f := rest.outcome.value;
          var head := [Stop(round)] + BreedCalls(round);
          if f.stopped {
            assert Rounds(round, f.endRound - 1) == head + Rounds(round + 1, f.endRound - 1);
          } else {
            assert Rounds(round, f.endRound) == head + Rounds(round + 1, f.endRound);
          }
        }
      }
    }
  }

  /**
   * The round count run returns, and the exact sequence of strategy calls.
   * When the stopping test fires at loop index r, endRound is r + 1 and the
   * calls are those of the r full rounds before it, the test at r, and the
   * final pick: nothing is selected, crossed, mutated or replaced at r or
   * later. When it never fires, endRound is the number of generations and
   * every round ran in full.
   */
  lemma RunRoundCount(c: Config, s: Strategies)
    ensures RunResult(c, s).Ok? ==> Start(c, s).outcome.Ok? && RunResult(c, s).value.2 == Start(c, s).outcome.value.endRound
    ensures Start(c, s).outcome.Ok? ==>
      var f := Start(c, s).outcome.value;
      && f.endRound <= Max0(c.generations)
      && (f.stopped ==>
            && 1 <= f.endRound
            && s.stop(f.evaluates, c.minValue) == Ok(true)
            && RunCalls(c, s) == [Generate, EvaluateInitial] + Rounds(0, f.endRound - 1) + [Stop(f.endRound - 1), PickBest])
      && (!f.stopped ==>
            && f.endRound == Max0(c.generations)
            && RunCalls(c, s) == [Generate, EvaluateInitial] + Rounds(0, f.endRound) + [PickBest])
  {
    var population := s.generate(c.populationSize, c.randomState);
    if population.Ok? {
      var evaluates := s.evaluate(population.value);
      if evaluates.Ok? {
        LoopShape(c, s, 0, population.value, evaluates.value);
      }
    }
  }

  /**
   * Survivor selection is applied once per round that does not stop: exactly
   * NUMBER_OF_GENERATIONS times when the test never fires, and endRound - 1
   * times when it fires.
   */
  lemma SurvivorSelections(c: Config, s: Strategies)
    ensures Start(c, s).outcome.Ok? ==>
      var f := Start(c, s).outcome.value;
      Survivals(RunCalls(c, s)) == if f.stopped then f.endRound - 1 else Max0(c.generations)
  {
    RunRoundCount(c, s);
    if Start(c, s).outcome.Ok? {
      var f := Start(c, s).outcome.value;
      var n: nat := if f.stopped then f.endRound - 1 else f.endRound;
      var tail: seq<Call> := if f.stopped then [Stop(n), PickBest] else [PickBest];
      assert RunCalls(c, s) == [Generate, EvaluateInitial] + Rounds(0, n) + tail;
      RoundsSurvivals(0, n);
      SurvivalsAppend([Generate, EvaluateInitial], Rounds(0, n));
      SurvivalsAppend([Generate, EvaluateInitial] + Rounds(0, n), tail);
      assert Survivals(tail) == 0 by {
        assert tail[1..] == [] || tail[1..][1..] == [];
      }
      assert Survivals([Generate, EvaluateInitial]) == 0 by {
        assert [Generate, EvaluateInitial][1..][1..] == [];
      }
    }
  }

  /** With no generations the loop body never runs: endRound is 0 and the initial population is judged. */
  lemma NoGenerations(c: Config, s: Strategies)
    requires c.generations <= 0
    ensures Start(c, s).outcome.Ok? ==>
      var f := Start(c, s).outcome.value;
      && f.endRound == 0 && !f.stopped
      && s.generate(c.populationSize, c.randomState).Ok?
      && f.population == s.generate(c.populationSize, c.randomState).value
      && f.evaluates == s.evaluate(f.population).value
      && RunCalls(c, s) == [Generate, EvaluateInitial, PickBest]
  {
  }

  /**
   * A round that does not stop hands the next round exactly the pair the
   * survivor-selection strategy returned; the loop carries nothing else
   * (neither parents nor offspring) from one round to the next.
   */
  lemma NonStoppingRoundHandsOver(c: Config, s: Strategies, round: nat, population: Population, evaluates: seq<int>)
    requires round < c.generations && s.stop(evaluates, c.minValue) == Ok(false)
    requires Breed(c, s, round, population, evaluates).next.Ok?
    ensures
      var parents := s.select(population, evaluates, round, c.randomState).value;
      var sons := s.crossover(parents, c.crossoverRate, round, c.randomState).value;
      var mutateSons := s.mutate(sons, c.mutationRate, round, c.randomState).value;
      var sonsEvaluates := s.evaluate(mutateSons).value;
      var next := s.survive(population, mutateSons, evaluates, sonsEvaluates, c.populationSize, round, c.randomState);
      && next.Ok?
      && Loop(c, s, round, population, evaluates).outcome == Loop(c, s, round + 1, next.value.0, next.value.1).outcome
  {
  }

  // ----- With the repository's stopping test and picker -----

  /**
   * With stop_eight_queen_vector_min, MIN_VALUE 0 and getBestIndividual: a run
   * that stopped on the criterion with non-negative scores (the evaluator's
   * are) returns best score 0, and does not raise when there are at least as
   * many individuals as scores.
   */
  lemma StoppedRunReturnsZero(c: Config, s: Strategies)
    requires c.minValue == 0
    requires forall e, m :: s.stop(e, m) == Ok(StoppingCriteria.StopAtMin(e, m))
    requires forall p, sc :: s.best(p, sc) == GetBestIndividual(p, sc)
    requires Start(c, s).outcome.Ok? && Start(c, s).outcome.value.stopped
    requires forall k :: 0 <= k < |Start(c, s).outcome.value.evaluates| ==> Start(c, s).outcome.value.evaluates[k] >= 0
    ensures |Start(c, s).outcome.value.evaluates| <= |Start(c, s).outcome.value.population| ==> RunResult(c, s).Ok?
    ensures RunResult(c, s).Ok? ==> RunResult(c, s).value.1 == 0
  {
    RunRoundCount(c, s);
    var f := Start(c, s).outcome.value;
    assert StoppingCriteria.StopAtMin(f.evaluates, 0);
    var zero :| 0 <= zero < |f.evaluates| && f.evaluates[zero] == 0;
    var picked := GetBestIndividual(f.population, f.evaluates);
    if picked.Ok? {
      var k :| IsFirstMinimum(f.evaluates, k) && k < |f.population| && picked.value == (f.population[k], f.evaluates[k]);
      assert f.evaluates[k] <= f.evaluates[zero];
    }
  }
}
