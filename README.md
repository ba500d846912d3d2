# 8-queens genetic algorithm: a Dafny model of its core

This project models the deterministic core of a genetic algorithm for the
8-queens problem. An individual is a list of column indices, one per row. A
population is a list of individuals. The score of an individual is its number
of diagonal collisions: lower is better, and 0 is a solution when the
individual is a permutation (`PopulationAssessor.PermutationZeroIffSolution`).

The model covers four pieces of the Python code:

- **The fitness evaluator** (`PopulationAssessor.evaluate_eight_queen_vector`).
  Read N from the first individual. For each individual, count the pairs
  `i < j < N` with `|i - j| == |v[i] - v[j]|`. Return one count per individual.
- **The stopping test** (`StoppingCriteria.stop_eight_queen_vector_min`).
  It asks whether the target score occurs among the scores.
- **The best-of-population picker** (`getBestIndividual`). It returns the
  individual and score at the first position of the minimum score.
- **The generational driver** (`run`). It generates and evaluates a
  population. Each loop index first sets `endRound = round + 1`, then runs the
  stopping test. If the test does not fire, it runs selection, crossover,
  mutation, offspring evaluation and survivor selection. At the end it hands
  the last population to the picker.

Python exceptions are values here. `GaTypes.Outcome` is either `Ok(value)` or
`Raised(IndexError | ValueError)`, so every error path of the source is
modelled rather than ruled out by a precondition:

- The evaluator raises IndexError on an empty population (`population[0]`).
- When N >= 2, it also raises IndexError on an individual shorter than N. When
  N <= 1, the loops never index, so any individual is accepted.
- The picker raises ValueError when there are no scores (`min([])`).
- The picker raises IndexError when the index of the first minimum is not
  below the number of individuals.

`run` receives its eight strategies as Dafny function values
(`Engine.Strategies`). Each takes the arguments `run` passes it and returns an
`Outcome`; the stopping test returns `Outcome<bool>`. An exception raised by a
strategy, the stopping test included, ends the run with that exception, after
the call that raised it is logged.
`Engine.Run` also keeps a ghost log of every strategy call (`Engine.Call`).
The log is what shows that nothing is selected, crossed, mutated or replaced
once the stopping test fires, and that survivor selection runs once per
completed round.

Modules follow the source:

- `GaTypes` (`ga_types.dfy`): shared types.
- `PopulationAssessor` (`population_assessor.dfy`) and `StoppingCriteria`
  (`stopping_criteria.dfy`): from `genetic_algorithm.py`.
- `Engine` (`engine.dfy`): `run` and `getBestIndividual` from
  `activity_tasks_run.py`.

Two behaviours of the code are worth stating directly:

- `endRound` counts the round in which the stopping test fired, because the
  code sets `endRound = round + 1` before the test. So an immediate stop
  returns 1, and a stop at loop index r returns r + 1 (`Engine.RunRoundCount`).
- Two positions with equal columns are never counted as a collision, because
  their row distance is at least 1 and their column distance is 0. An
  individual that repeats one column everywhere scores 0 without being a
  solution (`PopulationAssessor.RepeatedColumnScoresZero`).

## Model

| member | source | states |
|---|---|---|
| `PopulationAssessor.Evaluate` | genetic_algorithm.py:28-49 | The nested loops return exactly `Evaluation(population)`. That is IndexError for an empty population, or for N >= 2 and an individual shorter than N. Otherwise it is one collision count per individual, in population order. |
| `PopulationAssessor.Evaluation` | genetic_algorithm.py:38-49 | The evaluator's only exception is IndexError. |
| `PopulationAssessor.EvaluationScores` | genetic_algorithm.py:38-49 | The evaluator succeeds exactly on a well-shaped population: non-empty, and every individual long enough for N. Then it returns as many scores as individuals. Score k is the number of diagonal pairs of individual k. It lies in `0..N*(N-1)/2`. It is 0 exactly when no two positions of that individual share a diagonal. |
| `PopulationAssessor.DiagonalPairs` | genetic_algorithm.py:43-46 | The reference meaning of a score: the set of pairs `i < j < N` on a common diagonal. No such pair holds two equal values. |
| `PopulationAssessor.CollisionsCountDiagonalPairs` | genetic_algorithm.py:42-46 | The loops' count equals the number of pairs `i < j < N` with `abs(i - j) == abs(v[i] - v[j])`. |
| `PopulationAssessor.CollisionsBounded` | genetic_algorithm.py:42-46 | Every score is between 0 and `N*(N-1)/2`. |
| `PopulationAssessor.ZeroIffNoSharedDiagonal` | genetic_algorithm.py:45 | A score is 0 if and only if no two of the first N positions lie on a common diagonal. |
| `PopulationAssessor.PermutationZeroIffSolution` | genetic_algorithm.py:42-47 | On a permutation of `0..N-1` (what the generator produces), score 0 holds if and only if the individual is a valid N-queens placement: no shared row, column or diagonal. |
| `PopulationAssessor.RepeatedColumnScoresZero` | genetic_algorithm.py:45 | Equal values are never counted. An individual of two or more rows that repeats one column scores 0, yet it is not an N-queens placement. |
| `StoppingCriteria.StopAtMin` | genetic_algorithm.py:56-66 | True if and only if some position holds `minValue`. |
| `StoppingCriteria.StopSeesOnlyOccurrence` | genetic_algorithm.py:66 | The answer depends only on which values occur. Position and multiplicity do not matter. |
| `Engine.MinOf` | activity_tasks_run.py:71 | `min(scores)`: a member of the scores that is no greater than any of them. |
| `Engine.IndexOf` | activity_tasks_run.py:72 | `scores.index(x)`: a position holding x, with no earlier position holding x. |
| `Engine.GetBestIndividual` | activity_tasks_run.py:70-73 | ValueError exactly when `scores` is empty. On success it returns `(individuals[k], scores[k])`, where k is the first index attaining the minimum, so `bestScore <= scores[j]` for every j. IndexError only when k is not a valid index into `individuals`. |
| `Engine.FirstMinimumUnique` | activity_tasks_run.py:70-73 | Only one index is the first minimum, so the picker's choice is determined. |
| `Engine.Breed` | activity_tasks_run.py:50-55 | One breeding round makes a non-empty prefix of the calls select, crossover, mutate, evaluate offspring, survive, in that order. It makes all five whenever it yields a next state. These hold by construction of `Breed`; they document the call order. |
| `Engine.BreedRound` | activity_tasks_run.py:50-55 | The round's statements compute exactly `Breed`: the next (population, evaluates) pair, or the first exception, and the calls made. |
| `Engine.Run` | activity_tasks_run.py:3-59 | `run` returns exactly `RunResult(c, s)` and makes exactly the calls `RunCalls(c, s)`. A successful run's `endRound` is at most `max(NUMBER_OF_GENERATIONS, 0)`. |
| `Engine.LoopShape` | activity_tasks_run.py:44-55 | From loop index r, the loop ends with `r <= endRound <= max(NUMBER_OF_GENERATIONS, 0)`. If the test fired, `endRound` is one past the index where it fired, and the test returned `Ok(true)` on the final scores. The calls are then the full earlier rounds followed by that test. If it never fired, `endRound == max(NUMBER_OF_GENERATIONS, 0)`, and every round ran in full. |
| `Engine.RunRoundCount` | activity_tasks_run.py:40-59 | The `endRound` that `run` returns satisfies `endRound <= max(NUMBER_OF_GENERATIONS, 0)`. When the test first fires at index r: `endRound == r + 1`, and the whole call sequence is generate, evaluate, r full rounds, the test at r, then the pick. When it never fires: `endRound == max(NUMBER_OF_GENERATIONS, 0)`. |
| `Engine.RoundsStayInRange` | activity_tasks_run.py:44-55 | Every call of the full rounds `a..b-1` is a stopping test or a breeding call tagged with a round in `a..b-1`. So after a stop at r, no selection, crossover, mutation or survivor call belongs to round r or later. |
| `Engine.RoundsSurvivals` | activity_tasks_run.py:55 | The full rounds `a..b-1` apply survivor selection exactly `b - a` times. |
| `Engine.SurvivorSelections` | activity_tasks_run.py:44-55 | Survivor selection runs exactly `NUMBER_OF_GENERATIONS` times (or 0 if that is negative) when the test never fires. It runs `endRound - 1` times when the test fires. |
| `Engine.NoGenerations` | activity_tasks_run.py:40-45 | With `NUMBER_OF_GENERATIONS <= 0`, `endRound` is 0. The final state is the generated population with its first scores, and the only calls are generate, evaluate and pick. |
| `Engine.NonStoppingRoundHandsOver` | activity_tasks_run.py:50-55 | A round that does not stop continues with exactly the pair that survivor selection returned. The pair comes from the old population, the mutated offspring, both score lists, POPULATION_SIZE, the round and the seed. Nothing else carries over. |
| `Engine.StoppedRunReturnsZero` | activity_tasks_run.py:44-59 | Take the repository's stopping test and picker, with MIN_VALUE 0. A run that stopped on the criterion with non-negative scores returns `bestScore == 0`. It does not raise when there are at least as many individuals as scores. |

## Left out

- `PopulationGenerator.generate_eight_queen_vector` (genetic_algorithm.py:8-21) is not modelled. It wraps numpy's seeded random permutations. It is the opaque `generate` strategy of `Engine.Strategies`.
- `ParentSelector.select_parent_roulette_eight_queen_vector` (genetic_algorithm.py:73-102) is the opaque `select` strategy. It needs numpy randomness and floating-point probabilities, and it divides by zero when all scores are 0. Its five-parameter signature also does not match the four positional arguments `run` passes: `crossoverRate` would receive the round and `round` the seed.
- Crossover, mutation and survivor selection (`CrossoverMethods`, `Modifier`, `SuvivorCriteria`) are not defined in the files of this model. They stay opaque strategies.
- The seed derivation `hash((randomState, round)) % 2**32` depends on Python's hash and numpy's generator.
- The crossover and mutation rates are floats that `run` only passes on. They are modelled as `real`.
- The batch harness (activity_tasks_run.py:61-142) is not modelled: constants, `randint` seeds, wall-clock timing, numpy mean and standard deviation, printing.
- analyze_data.py is not part of this model. It is JSON reading, Markdown writing, statistics and plotting.
- run.py repeats the loop of `run` with fixed strategies and prints the final population. `Engine.Run` covers the loop; the printing is left out.
- Strategies are total functions. A strategy that does not terminate, or returns a value of the wrong shape, is not modelled. An exception a strategy raises is modelled as a `Raised` result.
- Strategies are pure functions of their arguments. The model does not capture a strategy that updates in place a list it receives, or aliasing between lists: the repository's selector returns references into `population` (genetic_algorithm.py:102), and `run` passes `population` again to survivor selection (activity_tasks_run.py:55). It also does not capture a strategy drawing from an unseeded generator: the four-argument selector call (activity_tasks_run.py:50) leaves the selector's `randomState` at None (genetic_algorithm.py:73, 91), so that draw is not a function of the arguments.
- StoppedRunReturnsZero: takes non-negative final scores as a hypothesis rather than deriving it. The final scores come from the opaque survivor-selection strategy. The evaluator's scores are non-negative (`Evaluation`).
