/**
 * The lexer of lexing/lexers/dfa_lexer.rs. It feeds input symbols to a DFA
 * runner and cuts the input into lexemes where the DFA gets stuck: the lexeme
 * read so far, without the symbol the DFA could not take, becomes a token
 * typed by the state the DFA stopped in, and that symbol starts the next
 * lexeme (or is emitted alone as an error token when even a fresh DFA cannot
 * take it). There is no backtracking to an earlier accepting state.
 *
 * The DFA and its runner are not part of this model's source. The DFA is
 * abstracted to a partial transition function from the start state 0 and a
 * return value per state; its runner follows the contract of
 * lexing/state_machine.rs: a step the DFA cannot take finishes the run and
 * keeps the last state.
 */
module DfaLexers {
  import opened Wrappers
  import opened StateMachines
  import opened FiniteAutomata

  datatype Dfa<R> = Dfa(delta: (nat, nat) -> Option<nat>, returnValue: nat -> ReturnValue<R>)

  /** The state reached from state 0 on `w`, or `None` if the DFA gets stuck on the way. */
  function Run<R>(dfa: Dfa<R>, w: seq<nat>): Option<nat>
    decreases |w|
  {
    if w == [] then Some(0)
    else match Run(dfa, w[..|w| - 1])
      case None => None
      case Some(q) => dfa.delta(q, w[|w| - 1])
  }

  lemma RunSnoc<R>(dfa: Dfa<R>, w: seq<nat>, s: nat)
    ensures Run(dfa, w + [s]) == match Run(dfa, w) case None => None case Some(q) => dfa.delta(q, s)
  {
    assert (w + [s])[..|w|] == w;
  }

  /** `GeneralToken<usize, TOKEN_TYPE>`: a type, the symbols of the lexeme, the input index of its first symbol. */
  datatype GeneralToken<R> = GeneralToken(tokenType: R, lexeme: seq<nat>, position: nat)

  /** The symbols of the lexemes of `ts`, one after the other. */
  function Covered<R>(ts: seq<GeneralToken<R>>): seq<nat>
    decreases |ts|
  {
    if ts == [] then [] else Covered(ts[..|ts| - 1]) + ts[|ts| - 1].lexeme
  }

  /** The token positions count the symbols of the tokens before them, from `base`. */
  ghost predicate PositionsFrom<R>(ts: seq<GeneralToken<R>>, base: nat)
    decreases |ts|
  {
    ts == [] || (PositionsFrom(ts[..|ts| - 1], base) && ts[|ts| - 1].position == base + |Covered(ts[..|ts| - 1])|)
  }

  /** Appending a token appends its lexeme and keeps the positions of the tokens before it. */
  lemma PushToken<R>(ts: seq<GeneralToken<R>>, t: GeneralToken<R>, base: nat)
    requires PositionsFrom(ts, base) && t.position == base + |Covered(ts)|
    ensures Covered(ts + [t]) == Covered(ts) + t.lexeme
    ensures PositionsFrom(ts + [t], base)
  {
    assert (ts + [t])[..|ts|] == ts;
  }

  /** Each token of a positioned sequence sits after the lexemes before it. */
  lemma {:induction false} PositionAt<R>(ts: seq<GeneralToken<R>>, base: nat, i: nat)
    requires PositionsFrom(ts, base) && i < |ts|
    ensures ts[i].position == base + |Covered(ts[..i])|
    decreases |ts|
  {
    if i < |ts| - 1 {
      var front := ts[..|ts| - 1];
      PositionAt(front, base, i);
      assert front[..i] == ts[..i];
    }
  }

  /** The lexemes of a prefix of the tokens are a prefix of the lexemes of all of them. */
  lemma {:induction false} CoveredPrefix<R>(ts: seq<GeneralToken<R>>, j: nat)
    requires j <= |ts|
    ensures |Covered(ts[..j])| <= |Covered(ts)| && Covered(ts)[..|Covered(ts[..j])|] == Covered(ts[..j])
    decreases |ts|
  {
    if j < |ts| {
      var front := ts[..|ts| - 1];
      assert front[..j] == ts[..j];
      CoveredPrefix(front, j);
    } else {
      assert ts[..j] == ts;
    }
  }

  /** A piece found at offset `|pre|` of `c` is found at `base + |pre|` of an input holding `c` at `base`. */
  lemma SliceAt(input: seq<nat>, base: nat, c: seq<nat>, pre: seq<nat>, piece: seq<nat>)
    requires base + |c| <= |input| && input[base..base + |c|] == c
    requires |pre| + |piece| <= |c| && c[..|pre| + |piece|] == pre + piece
    ensures input[base + |pre|..base + |pre| + |piece|] == piece
  {
    var a := |pre|;
    forall k | 0 <= k < |piece| ensures input[base + a + k] == piece[k] {
      assert input[base + a + k] == input[base..base + |c|][a + k] == c[a + k];
      assert c[a + k] == c[..a + |piece|][a + k] == (pre + piece)[a + k];
    }
  }

  /** A token at position `p` stands for the input symbols from index `p` on. */
  lemma TokenAtPosition<R>(ts: seq<GeneralToken<R>>, base: nat, input: seq<nat>, i: nat)
    requires PositionsFrom(ts, base) && i < |ts|
    requires base + |Covered(ts)| <= |input|
    requires input[base..base + |Covered(ts)|] == Covered(ts)
    ensures ts[i].position + |ts[i].lexeme| <= |input|
    ensures input[ts[i].position..ts[i].position + |ts[i].lexeme|] == ts[i].lexeme
  {
    PositionAt(ts, base, i);
    CoveredPrefix(ts, i + 1);
    assert ts[..i + 1][..i] == ts[..i];
    SliceAt(input, base, Covered(ts), Covered(ts[..i]), ts[i].lexeme);
  }

  /** The lexemes of `tokens` are the input from `base` on, and each token sits where its lexeme starts. */
  ghost predicate Spelled<R>(input: seq<nat>, base: nat, tokens: seq<GeneralToken<R>>)
  {
    PositionsFrom(tokens, base)
    && base + |Covered(tokens)| <= |input|
    && input[base..base + |Covered(tokens)|] == Covered(tokens)
  }

  /** A tiling of the input spells out its tokens, whatever lexeme follows them. */
  lemma TilingSpelled<R>(input: seq<nat>, base: nat, tokens: seq<GeneralToken<R>>, lexeme: seq<nat>)
    requires Tiling(input, base, tokens, lexeme)
    ensures Spelled(input, base, tokens)
  {
    var c := Covered(tokens);
    assert input[base..][..|c|] == c;
    assert input[base..base + |c|] == input[base..][..|c|];
  }

  /** The token type of state `q`: its value, or the error output when it returns none. */
  function TypeOf<R>(dfa: Dfa<R>, errorOutput: R, q: nat): R
  {
    match dfa.returnValue(q)
    case Value(v) => v
    case _ => errorOutput
  }

  /** The type of a lexeme: that of the state the DFA reaches on it, the error output if it gets stuck. */
  function Classify<R>(dfa: Dfa<R>, errorOutput: R, lexeme: seq<nat>): R
  {
    match Run(dfa, lexeme)
    case None => errorOutput
    case Some(q) => TypeOf(dfa, errorOutput, q)
  }

  /**
   * The input from `base` on is the lexemes of `tokens` followed by `lexeme`,
   * and each token sits where its lexeme starts.
   */
  ghost predicate Tiling<R>(input: seq<nat>, base: nat, tokens: seq<GeneralToken<R>>, lexeme: seq<nat>)
  {
    base <= |input| && input[base..] == Covered(tokens) + lexeme && PositionsFrom(tokens, base)
  }

  /** Every token has the type of its lexeme. */
  ghost predicate Typed<R>(dfa: Dfa<R>, errorOutput: R, tokens: seq<GeneralToken<R>>)
    decreases |tokens|
  {
    tokens == []
    || (Typed(dfa, errorOutput, tokens[..|tokens| - 1])
        && tokens[|tokens| - 1].tokenType == Classify(dfa, errorOutput, tokens[|tokens| - 1].lexeme))
  }

  lemma {:induction false} TypedAt<R>(dfa: Dfa<R>, errorOutput: R, tokens: seq<GeneralToken<R>>, i: nat)
    requires Typed(dfa, errorOutput, tokens) && i < |tokens|
    ensures tokens[i].tokenType == Classify(dfa, errorOutput, tokens[i].lexeme)
    decreases |tokens|
  {
    if i < |tokens| - 1 {
      TypedAt(dfa, errorOutput, tokens[..|tokens| - 1], i);
    }
  }

  /**
   * The DFA runner is in the state the lexeme leads to, or, once finished,
   * in the state the lexeme without its last symbol leads to, with no
   * transition on that symbol.
   */
  ghost predicate DfaAgrees<R>(dfa: Dfa<R>, lexeme: seq<nat>, state: nat, info: RunInfo)
  {
    (info != Finished ==> Run(dfa, lexeme) == Some(state))
    && (info == Finished ==>
          |lexeme| >= 1 && Run(dfa, lexeme[..|lexeme| - 1]) == Some(state)
          && dfa.delta(state, lexeme[|lexeme| - 1]).None?)
  }

  /** Cutting the first `k` symbols of the lexeme off as a token keeps the tiling. */
  lemma EmitToken<R>(input: seq<nat>, base: nat, tokens: seq<GeneralToken<R>>, lexeme: seq<nat>, k: nat, ty: R)
    requires Tiling(input, base, tokens, lexeme) && k <= |lexeme|
    ensures Tiling(input, base, tokens + [GeneralToken(ty, lexeme[..k], |input| - |lexeme|)], lexeme[k..])
  {
    var t := GeneralToken(ty, lexeme[..k], |input| - |lexeme|);
    assert |input[base..]| == |Covered(tokens)| + |lexeme|;
    PushToken(tokens, t, base);
    assert lexeme == lexeme[..k] + lexeme[k..];
  }

  /** Reading one more symbol extends the lexeme. */
  lemma TilingExtend<R>(input: seq<nat>, base: nat, tokens: seq<GeneralToken<R>>, lexeme: seq<nat>, symbol: nat)
    requires Tiling(input, base, tokens, lexeme)
    ensures Tiling(input + [symbol], base, tokens, lexeme + [symbol])
  {
    assert (input + [symbol])[base..] == input[base..] + [symbol];
  }

  lemma TypedPush<R>(dfa: Dfa<R>, errorOutput: R, tokens: seq<GeneralToken<R>>, t: GeneralToken<R>)
    requires Typed(dfa, errorOutput, tokens) && t.tokenType == Classify(dfa, errorOutput, t.lexeme)
    ensures Typed(dfa, errorOutput, tokens + [t])
  {
    assert (tokens + [t])[..|tokens|] == tokens;
  }

  /**
   * What `handle_dfa_end` relies on when the DFA is stuck: the lexeme
   * without its last symbol is a correctly typed token, and the last symbol
   * either starts the next lexeme or, when a fresh DFA cannot take it
   * either, is a correctly typed error token of its own.
   */
  lemma StoppedStep<R>(dfa: Dfa<R>, errorOutput: R, input: seq<nat>, base: nat,
                       tokens: seq<GeneralToken<R>>, lexeme: seq<nat>, state: nat)
    requires Tiling(input, base, tokens, lexeme) && Typed(dfa, errorOutput, tokens)
    requires DfaAgrees(dfa, lexeme, state, Finished)
    ensures var n := |lexeme|;
      var token := GeneralToken(TypeOf(dfa, errorOutput, state), lexeme[..n - 1], |input| - n);
      Tiling(input, base, tokens + [token], [lexeme[n - 1]]) && Typed(dfa, errorOutput, tokens + [token])
      && Run(dfa, [lexeme[n - 1]]) == dfa.delta(0, lexeme[n - 1])
      && (dfa.delta(0, lexeme[n - 1]).None? ==>
            var error := GeneralToken(errorOutput, [lexeme[n - 1]], |input| - 1);
            Tiling(input, base, tokens + [token] + [error], []) && Typed(dfa, errorOutput, tokens + [token] + [error]))
  {
    var n := |lexeme|;
    var last := lexeme[n - 1];
    var token := GeneralToken(TypeOf(dfa, errorOutput, state), lexeme[..n - 1], |input| - n);
    EmitToken(input, base, tokens, lexeme, n - 1, token.tokenType);
    TypedPush(dfa, errorOutput, tokens, token);
    assert lexeme[n - 1..] == [last];
    RunSnoc(dfa, [], last);
    assert [] + [last] == [last];
    if dfa.delta(0, last).None? {
      var error := GeneralToken(errorOutput, [last], |input| - 1);
      EmitToken(input, base, tokens + [token], [last], 1, errorOutput);
      TypedPush(dfa, errorOutput, tokens + [token], error);
      assert [last][1..] == [];
    }
  }

  // ---------------------------------------------------------------------------
  // The runner's steps on its state as a value

  /** The fields of `DfaLexerRunner` and the state and run info of its DFA runner. */
  datatype Lexer<R> = Lexer(
    tokens: seq<GeneralToken<R>>,
    lexeme: seq<nat>,
    lexemePosition: nat,
    position: nat,
    dfaState: nat,
    dfaInfo: RunInfo)

  /** Nothing read, no token, the DFA at its start state. */
  function Initial<R>(): Lexer<R>
  {
    Lexer([], [], 0, 0, 0, Ready)
  }

  /** `input` is every symbol read, `base` the first one not dropped by `clear`. */
  ghost predicate Inv<R>(dfa: Dfa<R>, errorOutput: R, input: seq<nat>, base: nat, l: Lexer<R>)
  {
    |input| == l.position
    && l.lexemePosition + |l.lexeme| == l.position
    && Tiling(input, base, l.tokens, l.lexeme)
    && Typed(dfa, errorOutput, l.tokens)
    && DfaAgrees(dfa, l.lexeme, l.dfaState, l.dfaInfo)
  }

  /** What `handle_dfa_end` needs to pop the last symbol and to step back one position. */
  predicate CanHandleEnd<R>(l: Lexer<R>)
  {
    l.dfaInfo == Finished ==> l.lexeme != [] && l.position >= 1
  }

  /**
   * `handle_dfa_end`: when the DFA is stuck, the lexeme without its last
   * symbol becomes a token typed by the state the DFA stopped in, and the
   * DFA restarts on that symbol; if it is stuck again at once, that symbol
   * alone becomes an error token and the next lexeme starts empty.
   */
  function HandleEnd<R>(dfa: Dfa<R>, errorOutput: R, l: Lexer<R>): Lexer<R>
    requires CanHandleEnd(l)
  {
    if l.dfaInfo != Finished then l
    else
      var n := |l.lexeme|;
      var last := l.lexeme[n - 1];
      var token := GeneralToken(TypeOf(dfa, errorOutput, l.dfaState), l.lexeme[..n - 1], l.lexemePosition);
      match dfa.delta(0, last)
      case None =>
        Lexer(l.tokens + [token] + [GeneralToken(errorOutput, [last], l.position - 1)], [], l.position, l.position, 0, Ready)
      case Some(q) =>
        Lexer(l.tokens + [token], [last], l.position - 1, l.position, q, Running)
  }

  /** `update`: settle a pending stop, then step the DFA and extend the lexeme. */
  function Step<R>(dfa: Dfa<R>, errorOutput: R, l: Lexer<R>, symbol: nat): Lexer<R>
    requires CanHandleEnd(l)
  {
    var h := HandleEnd(dfa, errorOutput, l);
    var (state, info) := match dfa.delta(h.dfaState, symbol)
      case None => (h.dfaState, Finished)
      case Some(q) => (q, Running);
    Lexer(h.tokens, h.lexeme + [symbol], h.lexemePosition, h.position + 1, state, info)
  }

  /** `finish`: settle a pending stop, then emit the lexeme as a last token when it is not empty. */
  function AtEnd<R>(dfa: Dfa<R>, errorOutput: R, l: Lexer<R>): Lexer<R>
    requires CanHandleEnd(l)
  {
    var h := HandleEnd(dfa, errorOutput, l);
    if h.lexeme != [] then
      h.(tokens := h.tokens + [GeneralToken(TypeOf(dfa, errorOutput, h.dfaState), h.lexeme, h.lexemePosition)])
    else h
  }

  /** `clear` only empties the token list. */
  function ClearTokens<R>(l: Lexer<R>): Lexer<R>
  {
    l.(tokens := [])
  }

  /** `handle_dfa_end` keeps the invariant and leaves the DFA not finished. */
  lemma HandleEndKeeps<R>(dfa: Dfa<R>, errorOutput: R, input: seq<nat>, base: nat, l: Lexer<R>)
    requires Inv(dfa, errorOutput, input, base, l)
    ensures Inv(dfa, errorOutput, input, base, HandleEnd(dfa, errorOutput, l))
    ensures HandleEnd(dfa, errorOutput, l).dfaInfo != Finished
  {
    if l.dfaInfo == Finished {
      StoppedStep(dfa, errorOutput, input, base, l.tokens, l.lexeme, l.dfaState);
    }
  }

  /**
   * `update` keeps the invariant on the input extended by the symbol: the
   * tokens and the lexeme still spell out the input from `base` on, in
   * order, each token at its position and of the type of its lexeme.
   */
  lemma StepKeeps<R>(dfa: Dfa<R>, errorOutput: R, input: seq<nat>, base: nat, l: Lexer<R>, symbol: nat, next: seq<nat>)
    requires Inv(dfa, errorOutput, input, base, l) && next == input + [symbol]
    ensures Inv(dfa, errorOutput, next, base, Step(dfa, errorOutput, l, symbol))
  {
    HandleEndKeeps(dfa, errorOutput, input, base, l);
    var h := HandleEnd(dfa, errorOutput, l);
    TilingExtend(input, base, h.tokens, h.lexeme, symbol);
    RunSnoc(dfa, h.lexeme, symbol);
    assert (h.lexeme + [symbol])[..|h.lexeme|] == h.lexeme;
  }

  /** After `finish` the tokens spell out exactly the input from `base` on, each typed by its lexeme. */
  lemma AtEndCovers<R>(dfa: Dfa<R>, errorOutput: R, input: seq<nat>, base: nat, l: Lexer<R>)
    requires Inv(dfa, errorOutput, input, base, l)
    ensures Tiling(input, base, AtEnd(dfa, errorOutput, l).tokens, [])
    ensures Typed(dfa, errorOutput, AtEnd(dfa, errorOutput, l).tokens)
  {
    HandleEndKeeps(dfa, errorOutput, input, base, l);
    var h := HandleEnd(dfa, errorOutput, l);
    if h.lexeme != [] {
      var token := GeneralToken(TypeOf(dfa, errorOutput, h.dfaState), h.lexeme, h.lexemePosition);
      EmitToken(input, base, h.tokens, h.lexeme, |h.lexeme|, token.tokenType);
      TypedPush(dfa, errorOutput, h.tokens, token);
      assert h.lexeme[..|h.lexeme|] == h.lexeme && h.lexeme[|h.lexeme|..] == [];
    } else {
      assert Covered(h.tokens) + h.lexeme == Covered(h.tokens);
    }
  }

  /** After `clear` the lexeme being read is all that is left of the input from its position on. */
  lemma ClearKeeps<R>(dfa: Dfa<R>, errorOutput: R, input: seq<nat>, base: nat, l: Lexer<R>)
    requires Inv(dfa, errorOutput, input, base, l)
    ensures Inv(dfa, errorOutput, input, l.lexemePosition, ClearTokens(l))
  {
    assert input[l.lexemePosition..] == input[base..][|Covered(l.tokens)|..];
  }

  /** The state after reading `w` from the initial state. */
  function Lex<R>(dfa: Dfa<R>, errorOutput: R, w: seq<nat>): (l: Lexer<R>)
    ensures Inv(dfa, errorOutput, w, 0, l)
    decreases |w|
  {
    if w == [] then
      assert Tiling(w, 0, Initial<R>().tokens, Initial<R>().lexeme) by {
        assert w[0..] == [];
      }
      Initial()
    else
      var front := w[..|w| - 1];
      var l := Lex(dfa, errorOutput, front);
      StepKeeps(dfa, errorOutput, front, 0, l, w[|w| - 1], w);
      Step(dfa, errorOutput, l, w[|w| - 1])
  }

  /**
   * The tokens of `w`: every symbol fed to a fresh runner, then `finish`.
   * Lexing loses and repeats no symbol: the lexemes are `w` cut into
   * pieces, in order, each token at the index of its first symbol and of
   * the type the DFA gives its lexeme.
   */
  function Tokenize<R>(dfa: Dfa<R>, errorOutput: R, w: seq<nat>): (ts: seq<GeneralToken<R>>)
    ensures Covered(ts) == w && PositionsFrom(ts, 0) && Typed(dfa, errorOutput, ts)
  {
    var l := Lex(dfa, errorOutput, w);
    AtEndCovers(dfa, errorOutput, w, 0, l);
    assert w[0..] == w;
    AtEnd(dfa, errorOutput, l).tokens
  }

  /**
   * In tokens that spell out `w` from index 0, as those of `Tokenize` do,
   * token `i` is the piece of `w` at its position, typed by the DFA.
   */
  lemma SpelledTokenAt<R>(dfa: Dfa<R>, errorOutput: R, w: seq<nat>, ts: seq<GeneralToken<R>>, i: nat)
    requires Covered(ts) == w && PositionsFrom(ts, 0) && Typed(dfa, errorOutput, ts) && i < |ts|
    ensures ts[i].position + |ts[i].lexeme| <= |w| && w[ts[i].position..ts[i].position + |ts[i].lexeme|] == ts[i].lexeme
    ensures ts[i].tokenType == Classify(dfa, errorOutput, ts[i].lexeme)
  {
    assert w[0..|w|] == w;
    TokenAtPosition(ts, 0, w, i);
    TypedAt(dfa, errorOutput, ts, i);
  }

  /**
   * With a DFA that takes no symbol at all, one symbol gives two tokens at
   * position 0: one of empty lexeme, typed by the start state, and the
   * error token of the symbol. There is no backtracking and no check that
   * a token is not empty.
   */
  lemma EmptyLexemeExample()
    ensures Tokenize(StuckDfa(), -1, [5]) == [GeneralToken(-1, [], 0), GeneralToken(-1, [5], 0)]
  {
    StuckLex();
    StuckAtEnd();
  }

  /** A DFA that takes no symbol, every state returning nothing. */
  function StuckDfa(): Dfa<int>
  {
    Dfa((q: nat, s: nat) => None, (q: nat) => NotAccepted)
  }

  /** Reading 5 leaves the lexeme [5] with the DFA stuck in state 0. */
  lemma StuckLex()
    ensures Lex(StuckDfa(), -1, [5]) == Lexer([], [5], 0, 1, 0, Finished)
  {
    var w: seq<nat> := [5];
    assert w[..0] == [];
    assert Lex(StuckDfa(), -1, w[..0]) == Initial();
  }

  /** `finish` on that state emits the empty lexeme, then the error token of 5. */
  lemma StuckAtEnd()
    ensures AtEnd(StuckDfa(), -1, Lexer([], [5], 0, 1, 0, Finished))
            == Lexer([GeneralToken(-1, [], 0), GeneralToken(-1, [5], 0)], [], 1, 1, 0, Ready)
  {
    assert TypeOf(StuckDfa(), -1, 0) == -1;
  }

  // ---------------------------------------------------------------------------
  // The runners

  /** The runner of the DFA, as the lexer drives it. */
  class DfaRunner<R> {
    const dfa: Dfa<R>
    var state: nat
    var runInfo: RunInfo

    /** A cleared runner. */
    constructor (dfa: Dfa<R>)
      ensures this.dfa == dfa && state == 0 && runInfo == Ready
    {
      this.dfa := dfa;
      state := 0;
      runInfo := Ready;
    }

    method Clear()
      modifies this
      ensures state == 0 && runInfo == Ready
    {
      state := 0;
      runInfo := Ready;
    }

    /** One step: stuck means finished in the same state. */
    method Update(symbol: nat)
      modifies this
      ensures match dfa.delta(old(state), symbol)
        case None => state == old(state) && runInfo == Finished
        case Some(q) => state == q && runInfo == Running
    {
      match dfa.delta(state, symbol)
      case None =>
        runInfo := Finished;
      case Some(q) =>
        state := q;
        runInfo := Running;
    }

    function IsFinished(): (b: bool)
      reads this
      ensures b <==> StateMachines.IsFinished(runInfo)
    {
      runInfo == Finished
    }
  }

  class DfaLexerRunner<R> {
    const dfaRunner: DfaRunner<R>
    const errorOutput: R
    /** The tokens emitted so far (`current_state`). */
    var currentState: seq<GeneralToken<R>>
    var currentLexeme: seq<nat>
    var lexemePosition: nat
    var position: nat
    /** Never assigned by the runner's own methods. */
    var runInfo: RunInfo
    /** Every symbol read so far. */
    ghost var consumed: seq<nat>
    /** The index of the first symbol not covered by a token that `clear` dropped. */
    ghost var base: nat

    ghost function State(): Lexer<R>
      reads this, dfaRunner
    {
      Lexer(currentState, currentLexeme, lexemePosition, position, dfaRunner.state, dfaRunner.runInfo)
    }

    ghost predicate Valid()
      reads this, dfaRunner
    {
      Inv(dfaRunner.dfa, errorOutput, consumed, base, State())
    }

    /** The tokens can be read back: each is the piece of the input at its position. */
    ghost predicate Readable()
      reads this
    {
      Spelled(consumed, base, currentState)
    }

    /** A runner before any input. */
    constructor (dfa: Dfa<R>, errorOutput: R)
      ensures Valid() && fresh(dfaRunner) && dfaRunner.dfa == dfa && this.errorOutput == errorOutput
      ensures State() == Initial() && consumed == [] && base == 0 && runInfo == Ready
      ensures Readable()
    {
      dfaRunner := new DfaRunner(dfa);
      this.errorOutput := errorOutput;
      currentState := [];
      currentLexeme := [];
      lexemePosition := 0;
      position := 0;
      runInfo := Ready;
      consumed := [];
      base := 0;
      new;
      assert consumed[0..] == [];
      TilingSpelled(consumed, base, currentState, currentLexeme);
    }

    /** Panics, as the source does, when a finished DFA leaves no symbol to pop. */
    method HandleDfaEnd()
      requires CanHandleEnd(State())
      modifies this, dfaRunner
      ensures State() == HandleEnd(dfaRunner.dfa, errorOutput, old(State()))
      ensures consumed == old(consumed) && base == old(base) && runInfo == old(runInfo)
    {
      if dfaRunner.IsFinished() {
        var n := |currentLexeme|;
        var lastSymbol := currentLexeme[n - 1];
        currentLexeme := currentLexeme[..n - 1];
        var finalStateId := dfaRunner.state;
        var tokenTypeFound := TypeOf(dfaRunner.dfa, errorOutput, finalStateId);
        currentState := currentState + [GeneralToken(tokenTypeFound, currentLexeme, lexemePosition)];
        dfaRunner.Clear();
        dfaRunner.Update(lastSymbol);
        if dfaRunner.IsFinished() {
          currentState := currentState + [GeneralToken(errorOutput, [lastSymbol], position - 1)];
          dfaRunner.Clear();
          lexemePosition := position;
          currentLexeme := [];
        } else {
          lexemePosition := position - 1;
          currentLexeme := [lastSymbol];
        }
      }
    }

    method Update(symbol: nat)
      requires Valid()
      modifies this, dfaRunner
      ensures Valid() && State() == Step(dfaRunner.dfa, errorOutput, old(State()), symbol)
      ensures consumed == old(consumed) + [symbol] && base == old(base) && runInfo == old(runInfo)
      ensures Readable()
    {
      ghost var before := State();
      StepKeeps(dfaRunner.dfa, errorOutput, consumed, base, before, symbol, consumed + [symbol]);
      HandleDfaEnd();
      dfaRunner.Update(symbol);
      position := position + 1;
      currentLexeme := currentLexeme + [symbol];
      consumed := consumed + [symbol];
      TilingSpelled(consumed, base, currentState, currentLexeme);
    }

    /**
     * `finish` does not reset the lexeme, so the runner is no longer in its
     * invariant; its tokens then cover exactly the input read since the
     * last `clear`.
     */
    method Finish()
      requires Valid()
      modifies this, dfaRunner
      ensures State() == AtEnd(dfaRunner.dfa, errorOutput, old(State()))
      ensures Tiling(consumed, base, currentState, []) && Typed(dfaRunner.dfa, errorOutput, currentState)
      ensures consumed == old(consumed) && base == old(base) && runInfo == old(runInfo)
      ensures Readable()
    {
      ghost var before := State();
      AtEndCovers(dfaRunner.dfa, errorOutput, consumed, base, before);
      HandleDfaEnd();
      if |currentLexeme| != 0 {
        var finalStateId := dfaRunner.state;
        var tokenTypeFound := TypeOf(dfaRunner.dfa, errorOutput, finalStateId);
        currentState := currentState + [GeneralToken(tokenTypeFound, currentLexeme, lexemePosition)];
      }
      TilingSpelled(consumed, base, currentState, []);
    }

    method Clear()
      requires Valid()
      modifies this
      ensures Valid() && State() == ClearTokens(old(State()))
      ensures consumed == old(consumed) && base == old(lexemePosition) && runInfo == old(runInfo)
      ensures Readable()
    {
      ClearKeeps(dfaRunner.dfa, errorOutput, consumed, base, State());
      currentState := [];
      base := lexemePosition;
      TilingSpelled(consumed, base, currentState, currentLexeme);
    }

    /** The tokens, readable after `finish` as after every other step: each is the piece of the input at its position. */
    function GetState(): (ts: seq<GeneralToken<R>>)
      reads this
      requires Readable()
      ensures forall i :: 0 <= i < |ts| ==> ts[i].position + |ts[i].lexeme| <= |consumed|
      ensures forall i :: 0 <= i < |ts| ==> consumed[ts[i].position..ts[i].position + |ts[i].lexeme|] == ts[i].lexeme
    {
      forall i | 0 <= i < |currentState|
        ensures currentState[i].position + |currentState[i].lexeme| <= |consumed|
        ensures consumed[currentState[i].position..currentState[i].position + |currentState[i].lexeme|] == currentState[i].lexeme
      {
        TokenAtPosition(currentState, base, consumed, i);
      }
      currentState
    }

    function IsFinished(): (b: bool)
      reads this
      ensures b <==> StateMachines.IsFinished(runInfo)
    {
      runInfo == Finished
    }
  }
}
