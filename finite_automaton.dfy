/** The per-state data of the automata of lexing/finite_automaton.rs. */
module FiniteAutomata {

  /** What a state reports when a run stops in it. */
  datatype ReturnValue<R> = NotAccepted | Accepted | Value(value: R)

  datatype FiniteAutomatonState<R, D> = FiniteAutomatonState(returnValue: ReturnValue<R>, data: D)
}
