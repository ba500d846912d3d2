/**
 * Shared vocabulary of the 8-queens genetic algorithm: individuals, populations,
 * and the Python exceptions the core can raise, carried as an Outcome.
 */
module GaTypes {

  /** One candidate placement: position i holds the column of the queen in row i. */
  type Individual = seq<int>

  /** The individuals of one generation, in order. */
  type Population = seq<Individual>

  /** The Python exceptions the modelled code can raise. */
  datatype PyError = IndexError | ValueError

  /** Either a value, or the exception raised while computing it. */
  datatype Outcome<+T> = Ok(value: T) | Raised(error: PyError)
}
