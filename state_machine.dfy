/**
 * The run status shared by the machines of lexing/state_machine.rs. A
 * machine is ready before its first step, running while steps succeed and
 * finished once a step fails; the three default predicates read the status.
 */
module StateMachines {

  datatype RunInfo = Ready | Running | Finished

  predicate IsFinished(r: RunInfo)
  {
    r == Finished
  }

  predicate IsReady(r: RunInfo)
  {
    r == Ready
  }

  predicate IsRunning(r: RunInfo)
  {
    r == Running
  }

  /** At any time exactly one of the three predicates holds. */
  lemma ExactlyOne(r: RunInfo)
    ensures IsReady(r) || IsRunning(r) || IsFinished(r)
    ensures !(IsReady(r) && IsRunning(r)) && !(IsReady(r) && IsFinished(r)) && !(IsRunning(r) && IsFinished(r))
  {
  }
}
