/**
 * The symbol-level vocabulary of formal_language.rs: an alphabet of
 * characters kept sorted and without duplicates, consulted by binary search;
 * the line and column that follow a token; numbered symbols with their
 * printable representations; and the reserved markers of a context-free
 * grammar's symbol set, where the non-terminals come first and the
 * terminals start at `offset_terminals`.
 */
module FormalLanguage {
  import opened Wrappers

  // ---------------------------------------------------------------------------
  // Sorting and deduplication of characters (`slice::sort`, `Vec::dedup`)

  ghost predicate Sorted(s: seq<char>)
  {
    forall i, j :: 0 <= i < j < |s| ==> s[i] <= s[j]
  }

  ghost predicate StrictlySorted(s: seq<char>)
  {
    forall i, j :: 0 <= i < j < |s| ==> s[i] < s[j]
  }

  /** `x` put in front of the first element of the sorted `s` that is not smaller. */
  function InsertSorted(x: char, s: seq<char>): (r: seq<char>)
    requires Sorted(s)
    ensures Sorted(r) && multiset(r) == multiset(s) + multiset{x}
  {
    if s == [] || x <= s[0] then
      SortedCons(x, s);
      [x] + s
    else
      assert s == [s[0]] + s[1..];
      var t := InsertSorted(x, s[1..]);
      BoundedBelow(s[0], t, s[1..], x);
      SortedCons(s[0], t);
      [s[0]] + t
  }

  /** A character not above any element of a sorted sequence may be put in front of it. */
  lemma SortedCons(h: char, t: seq<char>)
    requires Sorted(t) && forall i :: 0 <= i < |t| ==> h <= t[i]
    ensures Sorted([h] + t)
  {
    forall i, j | 0 <= i < j < |[h] + t| ensures ([h] + t)[i] <= ([h] + t)[j] {
      assert ([h] + t)[j] == t[j - 1];
      if i > 0 {
        assert ([h] + t)[i] == t[i - 1];
      }
    }
  }

  /** A lower bound of `x` and of `u` bounds whatever holds `x` and `u`. */
  lemma BoundedBelow(lo: char, t: seq<char>, u: seq<char>, x: char)
    requires multiset(t) == multiset(u) + multiset{x}
    requires lo <= x && Sorted([lo] + u)
    ensures forall i :: 0 <= i < |t| ==> lo <= t[i]
  {
    forall i | 0 <= i < |t| ensures lo <= t[i] {
      assert t[i] in multiset(t);
      if t[i] != x {
        assert t[i] in multiset(u);
        var k :| 0 <= k < |u| && u[k] == t[i];
        assert ([lo] + u)[0] == lo && ([lo] + u)[k + 1] == u[k];
      }
    }
  }

  /** An ascending sort: the same characters, each as often, in order. */
  function Sort(s: seq<char>): (r: seq<char>)
    ensures Sorted(r) && multiset(r) == multiset(s)
  {
    if s == [] then []
    else
      assert s == [s[0]] + s[1..];
      InsertSorted(s[0], Sort(s[1..]))
  }

  /** `Vec::dedup`: every run of equal neighbours kept once. */
  function Dedup(s: seq<char>): (r: seq<char>)
    ensures Sorted(s) ==> StrictlySorted(r)
    ensures forall c :: c in r <==> c in s
    ensures |r| <= |s| && (|s| > 0 ==> |r| > 0 && r[0] == s[0])
  {
    if |s| <= 1 then s
    else if s[0] == s[1] then
      assert forall c :: c in s <==> c in s[1..];
      Dedup(s[1..])
    else
      assert forall c :: c in s <==> c == s[0] || c in s[1..];
      [s[0]] + Dedup(s[1..])
  }

  /** A strictly sorted sequence holds as many characters as its set does. */
  lemma {:induction false} StrictlySortedCard(s: seq<char>)
    requires StrictlySorted(s)
    ensures |set c | c in s| == |s|
  {
    if s != [] {
      StrictlySortedCard(s[1..]);
      var rest := set c | c in s[1..];
      assert s[0] !in rest;
      assert (set c | c in s) == {s[0]} + rest;
    }
  }

  // ---------------------------------------------------------------------------
  // Alphabet

  /** `chars` is sorted and holds no character twice. */
  datatype Alphabet = Alphabet(chars: seq<char>)
  {
    /** `new` clones the characters, then sorts and deduplicates them. */
    static function New(chars: seq<char>): (a: Alphabet)
      ensures StrictlySorted(a.chars)
      ensures forall c :: c in a.chars <==> c in chars
    {
      var sorted := Sort(chars);
      assert forall c :: c in sorted <==> c in multiset(sorted);
      Alphabet(Dedup(sorted))
    }

    /** `id` by `binary_search`: the index of `c` when it is in the alphabet. */
    function Id(c: char): (r: Option<nat>)
      requires StrictlySorted(chars)
      ensures r.Some? ==> r.value < |chars| && chars[r.value] == c
      ensures r.None? <==> c !in chars
    {
      Search(chars, c, 0, |chars|)
    }

    function Size(): (n: nat)
      requires StrictlySorted(chars)
      ensures n == |set c | c in chars|
    {
      StrictlySortedCard(chars);
      |chars|
    }
  }

  /** Binary search of `c` in `s[lo..hi]`, every element outside of which is known not to be `c`. */
  function Search(s: seq<char>, c: char, lo: nat, hi: nat): (r: Option<nat>)
    requires lo <= hi <= |s| && StrictlySorted(s)
    ensures r.Some? ==> lo <= r.value < hi && s[r.value] == c
    ensures r.None? ==> c !in s[lo..hi]
    decreases hi - lo
  {
    if lo == hi then None
    else
      var mid := lo + (hi - lo) / 2;
      if s[mid] == c then Some(mid)
      else if s[mid] < c then
        var r := Search(s, c, mid + 1, hi);
        assert r.None? ==> c !in s[lo..hi] by {
          if r.None? {
            forall k | lo <= k < hi ensures s[k] != c {
              if k <= mid {
                assert s[k] <= s[mid];
              } else {
                assert s[k] == s[mid + 1..hi][k - (mid + 1)];
              }
            }
          }
        }
        r
      else
        var r := Search(s, c, lo, mid);
        assert r.None? ==> c !in s[lo..hi] by {
          if r.None? {
            forall k | lo <= k < hi ensures s[k] != c {
              if k >= mid {
                assert s[mid] <= s[k];
              } else {
                assert s[k] == s[lo..mid][k - lo];
              }
            }
          }
        }
        r
  }

  /** Whatever order and repetitions the input has, the alphabet built from it finds exactly its characters. */
  lemma NewId(chars: seq<char>, c: char)
    ensures Alphabet.New(chars).Id(c).Some? <==> c in chars
    ensures Alphabet.New(chars).Size() == |set x | x in chars|
  {
    var a := Alphabet.New(chars);
    assert (set x | x in a.chars) == (set x | x in chars);
  }

  /** Two orderings of the same characters give the same alphabet. */
  lemma {:induction false} NewCanonical(s: seq<char>, t: seq<char>)
    requires forall c :: c in s <==> c in t
    ensures Alphabet.New(s) == Alphabet.New(t)
  {
    StrictlySortedUnique(Alphabet.New(s).chars, Alphabet.New(t).chars);
  }

  /** A strictly sorted sequence is determined by its set of characters. */
  lemma {:induction false} StrictlySortedUnique(a: seq<char>, b: seq<char>)
    requires StrictlySorted(a) && StrictlySorted(b)
    requires forall c :: c in a <==> c in b
    ensures a == b
    decreases |a|
  {
    if a == [] {
      // No character is in `b`, so it holds none.
      StrictlySortedCard(b);
      assert (set c | c in b) == {};
    } else {
      assert a[0] in b;
      // The first elements are both the least character of the set.
      LeastOfStrictlySorted(a, b[0]);
      LeastOfStrictlySorted(b, a[0]);
      forall c ensures c in a[1..] <==> c in b[1..] {
        TailOfStrictlySorted(a, c);
        TailOfStrictlySorted(b, c);
      }
      StrictlySortedUnique(a[1..], b[1..]);
      assert a == [a[0]] + a[1..] && b == [b[0]] + b[1..];
    }
  }

  /** The first element of a strictly sorted sequence is below every other one. */
  lemma LeastOfStrictlySorted(s: seq<char>, c: char)
    requires StrictlySorted(s) && c in s
    ensures s[0] <= c
  {
    var k :| 0 <= k < |s| && s[k] == c;
    assert k == 0 || s[0] < s[k];
  }

  /** Past its first element, a strictly sorted sequence holds what it holds above that element. */
  lemma TailOfStrictlySorted(s: seq<char>, c: char)
    requires StrictlySorted(s) && s != []
    ensures c in s[1..] <==> c in s && c != s[0]
  {
    if c in s[1..] {
      var k :| 0 <= k < |s[1..]| && s[1..][k] == c;
      assert s[k + 1] == c && s[0] < s[k + 1];
    }
    if c in s && c != s[0] {
      var k :| 0 <= k < |s| && s[k] == c;
      assert s[1..][k - 1] == c;
    }
  }

  // ---------------------------------------------------------------------------
  // Symbols and tokens

  /** A symbol is its `u16` id; `Symbol::from(u)` is `Symbol(u)`. */
  datatype Symbol = Symbol(id: U16)

  /** A token of a character stream: its type, its text and where the text starts. */
  datatype Token = Token(tokenType: Symbol, lexeme: string, line: nat, column: nat)
  {
    /**
     * `next_position`: the line and column after the lexeme. Every newline
     * moves to column 0 of the next line, every other character one column on.
     */
    method NextPosition() returns (line: nat, column: nat)
      ensures line == this.line + multiset(lexeme)['\n']
      ensures '\n' !in lexeme ==> column == this.column + |lexeme|
      ensures '\n' in lexeme ==> column < |lexeme| && lexeme[|lexeme| - 1 - column] == '\n'
      ensures '\n' in lexeme ==> forall j :: |lexeme| - column <= j < |lexeme| ==> lexeme[j] != '\n'
    {
      line := this.line;
      column := this.column;
      var i := 0;
      while i < |lexeme|
        invariant 0 <= i <= |lexeme|
        invariant line == this.line + multiset(lexeme[..i])['\n']
        invariant '\n' !in lexeme[..i] ==> column == this.column + i
        invariant '\n' in lexeme[..i] ==> column < i && lexeme[i - 1 - column] == '\n'
        invariant '\n' in lexeme[..i] ==> forall j :: i - column <= j < i ==> lexeme[j] != '\n'
      {
        assert lexeme[..i + 1] == lexeme[..i] + [lexeme[i]];
        if lexeme[i] == '\n' {
          line := line + 1;
          column := 0;
        } else {
          column := column + 1;
        }
        i := i + 1;
      }
      assert lexeme[..i] == lexeme;
    }
  }

  /** The symbols `0 .. size` and how each is printed. */
  datatype SymbolSet = SymbolSet(size: U16, representations: seq<string>)
  {
    /** `get_representation` indexes the representations by the symbol's id. */
    function GetRepresentation(s: Symbol): (r: string)
      requires s.id < |representations|
      ensures r in representations && r == representations[s.id]
    {
      representations[s.id]
    }
  }

  /**
   * The symbols of a grammar: the non-terminals take the ids below
   * `offset_terminals`, the terminals the ids from there.
   */
  datatype CfgSymbolSet = CfgSymbolSet(terminals: SymbolSet, nonTerminals: SymbolSet)
  {
    function OffsetTerminals(): (n: U16)
      ensures n == nonTerminals.size
    {
      nonTerminals.size
    }

    function ErrNonTerm(): (s: Symbol)
      ensures s.id == 0
    {
      Symbol(0)
    }

    function Start(): (s: Symbol)
      ensures s.id == 1
    {
      Symbol(1)
    }

    function ErrTerm(): (s: Symbol)
      ensures s.id == OffsetTerminals()
    {
      Symbol(OffsetTerminals())
    }

    /** `END` adds one to a `u16`, which overflows when there are 2^16 - 1 non-terminals. */
    function End(): (s: Symbol)
      requires nonTerminals.size < 0xFFFF
      ensures s.id == OffsetTerminals() + 1
    {
      Symbol(OffsetTerminals() + 1)
    }
  }

  /**
   * The four markers are distinct as soon as there are two non-terminals:
   * `ERR_NON_TERM` and `START` are non-terminal ids, `ERR_TERM` and `END`
   * the first two terminal ids.
   */
  lemma MarkersDistinct(symbolSet: CfgSymbolSet)
    requires 2 <= symbolSet.nonTerminals.size < 0xFFFF
    ensures symbolSet.ErrNonTerm().id < symbolSet.Start().id < symbolSet.OffsetTerminals()
    ensures symbolSet.OffsetTerminals() <= symbolSet.ErrTerm().id < symbolSet.End().id
    ensures symbolSet.terminals.size >= 2 ==> symbolSet.End().id < symbolSet.OffsetTerminals() + symbolSet.terminals.size
  {
  }

  datatype CfgRule = CfgRule(origin: Symbol, replacement: seq<Symbol>)

  /** `Cfg::new` only stores the symbol set and the rules, grouped by origin. */
  datatype Cfg = Cfg(symbolSet: CfgSymbolSet, rules: seq<seq<CfgRule>>)
}
