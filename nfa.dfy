/**
 * The nondeterministic automaton of lexing/automatons/NFA.rs. State 0 is the
 * start state. The transition table has a row per state and a cell per
 * symbol; each cell is a bit set of size `nbr_states` holding the target
 * states. The model keeps the contents of those bit sets (the sets of
 * indices below `nbr_states` whose bit is set); their bit-level behaviour is
 * the model of bitset.rs.
 */
module Nfas {
  import opened StateMachines
  import opened FiniteAutomata

  datatype StateTransition = StateTransition(originStateId: nat, symbolReadId: nat, targetStateId: nat)

  datatype StateTransitionSet = StateTransitionSet(originStateId: nat, symbolReadId: nat, targetStatesId: set<nat>)

  /** The states of `current` below `q`: those the iterator has yielded before `q`. */
  ghost function Below(current: set<nat>, q: nat): set<nat>
  {
    set p | p in current && p < q
  }

  datatype Nfa<R, D> = Nfa(
    nbrSymbols: nat,
    nbrStates: nat,
    transitionTable: seq<seq<set<nat>>>,
    states: seq<FiniteAutomatonState<R, D>>)
  {
    /** A `nbr_states` by `nbr_symbols` table of sets of states, both dimensions non-zero. */
    ghost predicate Valid()
    {
      nbrSymbols >= 1 && nbrStates >= 1
      && |transitionTable| == nbrStates
      && (forall o :: 0 <= o < nbrStates ==> |transitionTable[o]| == nbrSymbols)
      && forall o, s :: 0 <= o < nbrStates && 0 <= s < nbrSymbols ==>
           forall t :: t in transitionTable[o][s] ==> t < nbrStates
    }

    /**
     * `next_state_ids`: the union, over the current states in increasing
     * order (as the bit set iterator yields them), of their cells for the
     * symbol. With no current state no cell is read, so any symbol is taken.
     */
    method NextStateIds(current: set<nat>, symbolReadId: nat) returns (next: set<nat>)
      requires Valid() && (current == {} || symbolReadId < nbrSymbols)
      requires forall q :: q in current ==> q < nbrStates
      ensures next == Successors(current, symbolReadId)
      ensures forall t :: t in next ==> t < nbrStates
    {
      next := {};
      var q := 0;
      while q < nbrStates
        invariant 0 <= q <= nbrStates
        invariant next == Successors(Below(current, q), symbolReadId)
      {
        SuccessorsStep(current, symbolReadId, q);
        if q in current {
          next := next + transitionTable[q][symbolReadId];
        }
        q := q + 1;
      }
      assert Below(current, q) == current;
    }

    /** The states reachable in one step on `symbol` from some state of `current`. */
    ghost function Successors(current: set<nat>, symbol: nat): (r: set<nat>)
      requires Valid() && (current == {} || symbol < nbrSymbols)
      requires forall q :: q in current ==> q < nbrStates
      ensures forall t :: t in r <==> exists q :: q in current && t in transitionTable[q][symbol]
    {
      set q, t | q in current && t in transitionTable[q][symbol] :: t
    }

    /** Adding state `q` to the states read so far adds its cell. */
    lemma SuccessorsStep(current: set<nat>, symbol: nat, q: nat)
      requires Valid() && (current == {} || symbol < nbrSymbols) && q < nbrStates
      requires forall p :: p in current ==> p < nbrStates
      ensures Successors(Below(current, q + 1), symbol)
        == Successors(Below(current, q), symbol) + (if q in current then transitionTable[q][symbol] else {})
    {
      assert Below(current, q + 1) == Below(current, q) + (if q in current then {q} else {});
    }

    function GetState(stateId: nat): (s: FiniteAutomatonState<R, D>)
      requires stateId < |states|
      ensures s in states
    {
      states[stateId]
    }
  }

  /** `from_table`: the dimensions are those of the table, which may be neither empty nor of empty rows. */
  function FromTable<R, D>(table: seq<seq<set<nat>>>, states: seq<FiniteAutomatonState<R, D>>): (n: Nfa<R, D>)
    requires |table| >= 1 && |table[0]| >= 1
    ensures n.nbrStates == |table| && n.nbrSymbols == |table[0]|
    ensures n.transitionTable == table && n.states == states
    ensures (forall o :: 0 <= o < |table| ==> |table[o]| == |table[0]|)
            && (forall o, s, t :: 0 <= o < |table| && 0 <= s < |table[o]| && t in table[o][s] ==> t < |table|)
            ==> n.Valid()
  {
    Nfa(|table[0]|, |table|, table, states)
  }

  /** A table of empty sets, `BitSet::new_filled(false, nbr_states)` in every cell. */
  function EmptyTable(nbrStates: nat, nbrSymbols: nat): (t: seq<seq<set<nat>>>)
    ensures |t| == nbrStates
    ensures forall o :: 0 <= o < nbrStates ==> |t[o]| == nbrSymbols
    ensures forall o, s :: 0 <= o < nbrStates && 0 <= s < nbrSymbols ==> t[o][s] == {}
  {
    seq(nbrStates, _ => seq(nbrSymbols, _ => {}))
  }

  /**
   * `from_transitions`: the state bit `target` is inserted in cell
   * `(origin, symbol)` for every transition, so duplicates merge. `get_mut`
   * and `insert` panic on an index out of range.
   */
  method FromTransitions<R, D>(nbrSymbols: nat, nbrStates: nat, transitions: seq<StateTransition>,
                               states: seq<FiniteAutomatonState<R, D>>)
    returns (n: Nfa<R, D>)
    requires nbrSymbols >= 1 && nbrStates >= 1
    requires forall k :: 0 <= k < |transitions| ==>
      transitions[k].originStateId < nbrStates && transitions[k].symbolReadId < nbrSymbols
      && transitions[k].targetStateId < nbrStates
    ensures n.Valid() && n.nbrSymbols == nbrSymbols && n.nbrStates == nbrStates && n.states == states
    ensures forall o, s, t :: 0 <= o < nbrStates && 0 <= s < nbrSymbols ==>
      (t in n.transitionTable[o][s] <==> StateTransition(o, s, t) in transitions)
  {
    var table := EmptyTable(nbrStates, nbrSymbols);
    var i := 0;
    while i < |transitions|
      invariant 0 <= i <= |transitions|
      invariant |table| == nbrStates && forall o :: 0 <= o < nbrStates ==> |table[o]| == nbrSymbols
      invariant forall o, s, t :: 0 <= o < nbrStates && 0 <= s < nbrSymbols ==>
        (t in table[o][s] <==> StateTransition(o, s, t) in transitions[..i])
    {
      var tr := transitions[i];
      assert transitions[..i + 1] == transitions[..i] + [tr];
      table := table[tr.originStateId := table[tr.originStateId][tr.symbolReadId := table[tr.originStateId][tr.symbolReadId] + {tr.targetStateId}]];
      i := i + 1;
    }
    assert transitions[..i] == transitions;
    n := Nfa(nbrSymbols, nbrStates, table, states);
  }

  /**
   * `from_transition_sets`: every set of targets is united into cell
   * `(origin, symbol)`; `update_union` demands sets of size `nbr_states`.
   */
  method FromTransitionSets<R, D>(nbrSymbols: nat, nbrStates: nat, transitionSets: seq<StateTransitionSet>,
                                  states: seq<FiniteAutomatonState<R, D>>)
    returns (n: Nfa<R, D>)
    requires nbrSymbols >= 1 && nbrStates >= 1
    requires forall k :: 0 <= k < |transitionSets| ==>
      transitionSets[k].originStateId < nbrStates && transitionSets[k].symbolReadId < nbrSymbols
      && forall t :: t in transitionSets[k].targetStatesId ==> t < nbrStates
    ensures n.Valid() && n.nbrSymbols == nbrSymbols && n.nbrStates == nbrStates && n.states == states
    ensures forall o, s, t :: 0 <= o < nbrStates && 0 <= s < nbrSymbols ==>
      (t in n.transitionTable[o][s] <==>
        exists k :: 0 <= k < |transitionSets| && transitionSets[k].originStateId == o
          && transitionSets[k].symbolReadId == s && t in transitionSets[k].targetStatesId)
  {
    var table := EmptyTable(nbrStates, nbrSymbols);
    var i := 0;
    while i < |transitionSets|
      invariant 0 <= i <= |transitionSets|
      invariant |table| == nbrStates && forall o :: 0 <= o < nbrStates ==> |table[o]| == nbrSymbols
      invariant forall o, s, t :: 0 <= o < nbrStates && 0 <= s < nbrSymbols ==>
        (t in table[o][s] <==>
          exists k :: 0 <= k < i && transitionSets[k].originStateId == o
            && transitionSets[k].symbolReadId == s && t in transitionSets[k].targetStatesId)
    {
      var ts := transitionSets[i];
      table := table[ts.originStateId := table[ts.originStateId][ts.symbolReadId := table[ts.originStateId][ts.symbolReadId] + ts.targetStatesId]];
      i := i + 1;
    }
    n := Nfa(nbrSymbols, nbrStates, table, states);
  }

  /** Running an NFA: the set of states it may be in after the symbols read so far. */
  class NfaRunner<R, D> {
    const nfa: Nfa<R, D>
    var currentStateIds: set<nat>
    var runInfo: RunInfo

    ghost predicate Valid()
      reads this
    {
      nfa.Valid() && forall q :: q in currentStateIds ==> q < nfa.nbrStates
    }

    /** The struct literal `NfaRunner { nfa, current_state_ids, run_info }`. */
    constructor (nfa: Nfa<R, D>, currentStateIds: set<nat>, runInfo: RunInfo)
      ensures this.nfa == nfa && this.currentStateIds == currentStateIds && this.runInfo == runInfo
    {
      this.nfa := nfa;
      this.currentStateIds := currentStateIds;
      this.runInfo := runInfo;
    }

    /** `clear`: back to the start state alone, ready; `insert(0)` panics when there is no state. */
    method Clear()
      requires nfa.nbrStates >= 1
      modifies this
      ensures currentStateIds == {0} && runInfo == Ready
      ensures nfa.Valid() ==> Valid()
    {
      currentStateIds := {};
      currentStateIds := currentStateIds + {0};
      runInfo := Ready;
    }

    function GetState(): (s: set<nat>)
      reads this
      requires Valid()
      ensures forall q :: q in s ==> q < nfa.nbrStates
    {
      currentStateIds
    }

    function IsFinished(): (b: bool)
      reads this
      ensures b <==> StateMachines.IsFinished(runInfo)
    {
      runInfo == Finished
    }

    /**
     * `update` panics once finished. With no successor the runner finishes
     * and keeps its last set of states; otherwise it moves to the successors.
     * The current set is never empty after `clear`, so the check the source
     * leaves commented out would never fire.
     */
    method Update(symbol: nat)
      requires Valid() && !IsFinished() && (currentStateIds == {} || symbol < nfa.nbrSymbols)
      modifies this
      ensures Valid()
      ensures var next := nfa.Successors(old(currentStateIds), symbol);
        if next == {} then runInfo == Finished && currentStateIds == old(currentStateIds)
        else runInfo == Running && currentStateIds == next
      ensures old(currentStateIds) != {} ==> currentStateIds != {}
    {
      var nextStateId := nfa.NextStateIds(currentStateIds, symbol);
      if |nextStateId| == 0 {
        runInfo := Finished;
      } else {
        currentStateIds := nextStateId;
        runInfo := Running;
      }
    }
  }
}
