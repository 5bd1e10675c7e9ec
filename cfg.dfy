/**
 * The symbol layout of CFG.rs. `CFG_Alphabet::new` numbers the symbols of a
 * grammar from 0 in the order it pushes them, with a printable representation
 * for each, and remembers where the terminals begin. Symbols are the
 * `{ id: u16 }` values of formal_language.rs.
 */
module Grammar {
  import opened Wrappers
  import opened FormalLanguage

  datatype CfgAlphabet = CfgAlphabet(symbols: seq<Symbol>, representations: seq<string>, indexBeginTerminals: nat)
  {
    /** The symbols from `index_begin_terminals` on. */
    function GetTerminals(): (r: seq<Symbol>)
      requires indexBeginTerminals <= |symbols|
      ensures |r| == |symbols| - indexBeginTerminals
      ensures symbols == GetNonTerminals() + r
    {
      symbols[indexBeginTerminals..]
    }

    /** The symbols before `index_begin_terminals`. */
    function GetNonTerminals(): (r: seq<Symbol>)
      requires indexBeginTerminals <= |symbols|
      ensures |r| == indexBeginTerminals
      ensures r == symbols[..indexBeginTerminals]
    {
      symbols[0..indexBeginTerminals]
    }

    function ErrNonTerm(): (s: Symbol)
      requires 1 <= |symbols|
      ensures s == symbols[0]
    {
      symbols[0]
    }

    function Start(): (s: Symbol)
      requires 2 <= |symbols|
      ensures s == symbols[1]
    {
      symbols[1]
    }

    /** `ERR_TERM` as written: the symbol at `index_begin_terminals`. */
    function ErrTerm(): (s: Symbol)
      requires indexBeginTerminals < |symbols|
      ensures s == symbols[indexBeginTerminals]
    {
      symbols[indexBeginTerminals]
    }

    /** `END` as written: the symbol after it. */
    function End(): (s: Symbol)
      requires indexBeginTerminals + 1 < |symbols|
      ensures s == symbols[indexBeginTerminals + 1]
    {
      symbols[indexBeginTerminals + 1]
    }
  }

  /** The ids `0 .. n` in order. */
  ghost predicate Numbered(symbols: seq<Symbol>)
  {
    forall i :: 0 <= i < |symbols| ==> symbols[i].id == i
  }

  /**
   * What `new(terminals, non_terminals)` builds: `ERR_NON_TERM`, `START`, the
   * non-terminals, the terminals, `ERR_TERM`, `END`, numbered in that order,
   * with the terminals beginning after the non-terminals.
   */
  ghost predicate Built(a: CfgAlphabet, terminals: seq<string>, nonTerminals: seq<string>)
  {
    |a.symbols| == |a.representations| == 4 + |terminals| + |nonTerminals|
    && Numbered(a.symbols)
    && a.representations == ["ERR_NON_TERM", "START"] + nonTerminals + terminals + ["ERR_TERM", "END"]
    && a.indexBeginTerminals == 2 + |nonTerminals|
  }

  /** The layout of the comment of `new`: `ERR_TERM` and `END` come before the terminals. */
  ghost predicate BuiltIntended(a: CfgAlphabet, terminals: seq<string>, nonTerminals: seq<string>)
  {
    |a.symbols| == |a.representations| == 4 + |terminals| + |nonTerminals|
    && Numbered(a.symbols)
    && a.representations == ["ERR_NON_TERM", "START"] + nonTerminals + ["ERR_TERM", "END"] + terminals
    && a.indexBeginTerminals == 2 + |nonTerminals|
  }

  /** One loop of `new`: every name is pushed with the next id. */
  method PushNames(symbols: seq<Symbol>, representations: seq<string>, currentId: U16, names: seq<string>)
    returns (symbols': seq<Symbol>, representations': seq<string>, currentId': U16)
    requires Numbered(symbols) && |symbols| == currentId
    requires currentId + |names| < 0x1_0000
    ensures Numbered(symbols') && |symbols'| == currentId' == currentId + |names|
    ensures representations' == representations + names
  {
    symbols', representations', currentId' := symbols, representations, currentId;
    var k := 0;
    while k < |names|
      invariant 0 <= k <= |names|
      invariant Numbered(symbols') && |symbols'| == currentId' == currentId + k
      invariant representations' == representations + names[..k]
    {
      assert names[..k + 1] == names[..k] + [names[k]];
      symbols' := symbols' + [Symbol(currentId')];
      representations' := representations' + [names[k]];
      currentId' := currentId' + 1;
      k := k + 1;
    }
    assert names[..k] == names;
  }

  /**
   * `CFG_Alphabet::new`. The id counter is a `u16` that ends at the number
   * of symbols, so there are at most 2^16 - 1 of them (the contract in the
   * comment: fewer than 2^16 - 4 names).
   */
  method New(terminals: seq<string>, nonTerminals: seq<string>) returns (a: CfgAlphabet)
    requires 4 + |terminals| + |nonTerminals| < 0x1_0000
    ensures Built(a, terminals, nonTerminals)
  {
    var symbols: seq<Symbol> := [];
    var representations: seq<string> := [];
    var currentId: U16 := 0;
    symbols := symbols + [Symbol(currentId)];
    representations := representations + ["ERR_NON_TERM"];
    currentId := currentId + 1;
    symbols := symbols + [Symbol(currentId)];
    representations := representations + ["START"];
    currentId := currentId + 1;
    symbols, representations, currentId := PushNames(symbols, representations, currentId, nonTerminals);
    var indexBeginTerminals := currentId;
    symbols, representations, currentId := PushNames(symbols, representations, currentId, terminals);
    symbols := symbols + [Symbol(currentId)];
    representations := representations + ["ERR_TERM"];
    currentId := currentId + 1;
    symbols := symbols + [Symbol(currentId)];
    representations := representations + ["END"];
    currentId := currentId + 1;
    a := CfgAlphabet(symbols, representations, indexBeginTerminals);
  }

  /** `new` with `ERR_TERM` and `END` pushed before the terminals, as its comment lays them out. */
  method NewIntended(terminals: seq<string>, nonTerminals: seq<string>) returns (a: CfgAlphabet)
    requires 4 + |terminals| + |nonTerminals| < 0x1_0000
    ensures BuiltIntended(a, terminals, nonTerminals)
  {
    var symbols: seq<Symbol> := [];
    var representations: seq<string> := [];
    var currentId: U16 := 0;
    symbols := symbols + [Symbol(currentId)];
    representations := representations + ["ERR_NON_TERM"];
    currentId := currentId + 1;
    symbols := symbols + [Symbol(currentId)];
    representations := representations + ["START"];
    currentId := currentId + 1;
    symbols, representations, currentId := PushNames(symbols, representations, currentId, nonTerminals);
    var indexBeginTerminals := currentId;
    symbols := symbols + [Symbol(currentId)];
    representations := representations + ["ERR_TERM"];
    currentId := currentId + 1;
    symbols := symbols + [Symbol(currentId)];
    representations := representations + ["END"];
    currentId := currentId + 1;
    symbols, representations, currentId := PushNames(symbols, representations, currentId, terminals);
    a := CfgAlphabet(symbols, representations, indexBeginTerminals);
  }

  /**
   * On a built alphabet the non-terminal part is `ERR_NON_TERM`, `START` and
   * the non-terminals, the terminal part is the rest, and `ERR_NON_TERM`
   * and `START` are printed as such.
   */
  lemma BuiltParts(a: CfgAlphabet, terminals: seq<string>, nonTerminals: seq<string>)
    requires Built(a, terminals, nonTerminals)
    ensures a.GetNonTerminals() + a.GetTerminals() == a.symbols
    ensures forall s :: s in a.GetNonTerminals() ==> s.id < 2 + |nonTerminals|
    ensures forall s :: s in a.GetTerminals() ==> 2 + |nonTerminals| <= s.id < |a.symbols|
    ensures a.representations[..a.indexBeginTerminals] == ["ERR_NON_TERM", "START"] + nonTerminals
    ensures a.ErrNonTerm().id == 0 && a.representations[a.ErrNonTerm().id] == "ERR_NON_TERM"
    ensures a.Start().id == 1 && a.representations[a.Start().id] == "START"
  {
    forall s | s in a.GetTerminals() ensures 2 + |nonTerminals| <= s.id < |a.symbols| {
      var k :| 0 <= k < |a.GetTerminals()| && a.GetTerminals()[k] == s;
      assert s == a.symbols[a.indexBeginTerminals + k];
    }
    assert a.representations[..a.indexBeginTerminals] == (["ERR_NON_TERM", "START"] + nonTerminals + terminals + ["ERR_TERM", "END"])[..2 + |nonTerminals|];
  }

  /** As written, `ERR_TERM` and `END` are the first two user terminals whenever there are two. */
  lemma ErrTermAsWritten(a: CfgAlphabet, terminals: seq<string>, nonTerminals: seq<string>)
    requires Built(a, terminals, nonTerminals) && |terminals| >= 2
    ensures a.representations[a.ErrTerm().id] == terminals[0]
    ensures a.representations[a.End().id] == terminals[1]
  {
    var r := a.representations;
    assert r[2 + |nonTerminals|] == (nonTerminals + terminals)[|nonTerminals|];
    assert r[3 + |nonTerminals|] == (nonTerminals + terminals)[|nonTerminals| + 1];
  }

  /** With the terminal "a" and no non-terminal, `ERR_TERM` names "a" and `END` names "ERR_TERM". */
  lemma ErrTermAsWrittenCounterexample(a: CfgAlphabet)
    requires Built(a, ["a"], [])
    ensures a.representations[a.ErrTerm().id] == "a"
    ensures a.representations[a.End().id] == "ERR_TERM"
  {
    assert a.representations == ["ERR_NON_TERM", "START", "a", "ERR_TERM", "END"];
  }

  /** In the intended layout the four markers name themselves. */
  lemma IntendedMarkers(a: CfgAlphabet, terminals: seq<string>, nonTerminals: seq<string>)
    requires BuiltIntended(a, terminals, nonTerminals)
    ensures a.representations[a.ErrNonTerm().id] == "ERR_NON_TERM"
    ensures a.representations[a.Start().id] == "START"
    ensures a.representations[a.ErrTerm().id] == "ERR_TERM"
    ensures a.representations[a.End().id] == "END"
    ensures a.representations[a.indexBeginTerminals + 2..] == terminals
  {
    var r := a.representations;
    var n := |nonTerminals|;
    assert r[2 + n] == (["ERR_NON_TERM", "START"] + nonTerminals + ["ERR_TERM", "END"])[2 + n];
    assert r[3 + n] == (["ERR_NON_TERM", "START"] + nonTerminals + ["ERR_TERM", "END"])[3 + n];
  }

  datatype CfgRule = CfgRule(origin: Symbol, replacement: seq<Symbol>)

  /** `CFG::new` only stores the alphabet and the rules. */
  datatype Cfg = Cfg(alphabet: CfgAlphabet, rules: seq<CfgRule>)
}
