# A verified model of the data structures and lexing core of a Rust parser toolkit

This project models, in Dafny, the core of a Rust library of building blocks for lexers and parsers.

- **Packed bit sets.** The `BitSet` of `datastructures/bitset.rs` stores a set of indices below `size`, MSB first, in 8-bit words. Its abstraction is a `set<nat>`. Set algebra, in-place updates, the predicates, concatenation and the iterator are all modelled, on a class whose `data` field the methods update.
- **The older byte bit set.** The `BitSet` of `datastructures/bitset_nul.rs` is here `ByteBitSet`. It stores its bits LSB first and is indexed through a `ContiguousList` of values.
- **Storage tables.** The one- and two-dimensional tables of `table1d.rs` and `table2d.rs`, over a `seq` for the `Vec` implementations and an `array` for the fixed-size ones.
- **Flat tables.** The flat (row-offset) and rectangular tables of `flat_table.rs`.
- **Alphabets and symbols.** The sorted, deduplicated character alphabet, token positions and symbol sets of `formal_language.rs`. The symbol numbering of a grammar alphabet from `grammar/CFG.rs`.
- **The NFA.** Its transition table of state sets and its runner, from `lexing/automatons/NFA.rs`.
- **The DFA-driven lexer runner.** From `lexing/lexers/dfa_lexer.rs`, modelled both as a class with the source's fields and as a value-level step function. The designed invariant is proved about the step function: the emitted lexemes followed by the current lexeme spell out the input, and every token sits at the index of its first symbol and carries the type of its lexeme.
- **States.** The `RunInfo` state of `lexing/state_machine.rs`.

A Rust panic becomes a precondition. Anything that reads a clock, prints or calls code not shown here is abstracted.

Files:

- `wrappers.dfy`: `Option` and the concatenation of a sequence of rows.
- `words.dfy`: the bit layout of 8-bit words. It defines MSB-first and LSB-first bit order, members, popcount, masks, shifts and word-wise operations.
- `bitset.dfy`, `bitset_nul.dfy`, `table1d.dfy`, `table2d.dfy`, `flat_table.dfy`: the data structures.
- `formal_language.dfy`, `cfg.dfy`: alphabets and symbols.
- `state_machine.dfy`, `finite_automaton.dfy`, `nfa.dfy`, `dfa_lexer.dfy`: the automata and the lexer.

## Model

| member | source | states |
|---|---|---|
| Table1D.VecTable.NewFilled | src/datastructures/table1d.rs:35-37 | `size` copies of `value` |
| Table1D.VecTable.Get | src/datastructures/table1d.rs:19-21 | the element at `i`, which must be in range |
| Table1D.VecTable.Set | src/datastructures/table1d.rs:27-29 | `Get(i) == value` afterwards, every other slot and the length unchanged |
| Table1D.VecTable.Size | src/datastructures/table1d.rs:31-33 | the length, which must be non-zero |
| Table1D.ArrayTable.NewFilled | src/datastructures/table1d.rs:61-64 | a fresh array of `SIZE` copies; the requested size must equal `SIZE` |
| Table1D.ArrayTable.Get | src/datastructures/table1d.rs:45-47 | the element at `i` |
| Table1D.ArrayTable.Set | src/datastructures/table1d.rs:53-55 | `Get(i) == value`, every other slot unchanged |
| Table1D.ArrayTable.Size | src/datastructures/table1d.rs:57-59 | `SIZE`, non-zero |
| Table2D.VecTable2D.NewFilled | src/datastructures/table2d.rs:30-32 | `height` rows of `width` copies of `value` |
| Table2D.VecTable2D.Get | src/datastructures/table2d.rs:14-16 | the cell `(i, j)` |
| Table2D.VecTable2D.Assign | src/datastructures/table2d.rs:18-20 | a write through `get_mut`: that cell is `value`, every other cell and every row length unchanged |
| Table2D.VecTable2D.Height | src/datastructures/table2d.rs:22-24 | the number of rows, non-zero |
| Table2D.VecTable2D.Width | src/datastructures/table2d.rs:26-28 | the length of row 0, non-zero |
| Table2D.ArrayTable2D.NewFilled | src/datastructures/table2d.rs:56-60 | a fresh `HEIGHT` by `WIDTH` array of `value`; both dimensions must match |
| Table2D.ArrayTable2D.Get | src/datastructures/table2d.rs:40-42 | the cell `(i, j)` |
| Table2D.ArrayTable2D.Assign | src/datastructures/table2d.rs:44-46 | that cell written, every other cell unchanged |
| Table2D.ArrayTable2D.Height | src/datastructures/table2d.rs:48-50 | `HEIGHT`, non-zero |
| Table2D.ArrayTable2D.Width | src/datastructures/table2d.rs:52-54 | `WIDTH`, non-zero |
| BitSets.BitSet.NewFilled | src/datastructures/bitset.rs:38-48 | `ceil(size / 8)` words, all 0 or all 1; contents empty or all of `[0, size)`; tail clear when empty |
| BitSets.BitSet.New | src/datastructures/bitset.rs:50-58 | the table is kept, and it must have `ceil(size / 8)` words |
| BitSets.BitSet.Size | src/datastructures/bitset.rs:25-27 | every member is below the size |
| BitSets.BitSet.Contains | src/datastructures/bitset.rs:70-79 | true exactly when `n` is a member; `n < size` required |
| BitSets.BitSet.Insert | src/datastructures/bitset.rs:81-89 | contents gain exactly `n`; the words are those with bit `n` set; tail clear kept |
| BitSets.BitSet.Remove | src/datastructures/bitset.rs:91-99 | contents lose exactly `n` (the corrected mask, see Findings) |
| BitSets.BitSet.RemoveAsWritten | src/datastructures/bitset.rs:91-99 | the words as written: the word of `n` keeps only bit `n` |
| BitSets.RemoveAsWrittenKeeps | src/datastructures/bitset.rs:98 | as written, `n` stays a member exactly when it was one |
| BitSets.RemoveAsWrittenCounterexample | src/datastructures/bitset.rs:98 | removing 0 from {0, 1}: as written {0}, as intended {1} |
| BitSets.BitSet.SetValue | src/datastructures/bitset.rs:101-111 | contents gain or lose `n` by `value`, and `Contains(n) == value` after (intended form: it calls the corrected `remove`, see Findings) |
| BitSets.BitSet.SetValueAsWritten | src/datastructures/bitset.rs:101-111 | as written, with `remove` as at line 98: the words are those with bit `n` set, or those of `remove` as written; `n` is a member afterwards exactly when `value` holds or it already was one |
| BitSets.BitSet.Combine | src/datastructures/bitset.rs:114-169 | the loop shared by the four binary operations: a fresh set of the same size whose word `i` is `op` of the words `i` |
| BitSets.BitSet.Union | src/datastructures/bitset.rs:114-127 | a fresh set of the same size whose contents are the union; sizes must match |
| BitSets.BitSet.Intersection | src/datastructures/bitset.rs:129-141 | contents are the intersection |
| BitSets.BitSet.Difference | src/datastructures/bitset.rs:143-155 | contents are the difference |
| BitSets.BitSet.SymmetricDifference | src/datastructures/bitset.rs:157-169 | contents are the symmetric difference |
| BitSets.BitSet.Complement | src/datastructures/bitset.rs:171-179 | every word negated; contents are `[0, size)` minus the old ones |
| BitSets.BitSet.Concatenate | src/datastructures/bitset.rs:182-217 | size `m + n`; when the tail of `this` is clear, contents are `this` plus `other` shifted by `m` (intended form, see Findings) |
| BitSets.BitSet.ConcatenateAsWritten | src/datastructures/bitset.rs:182-217 | the words as written; needs a non-empty `other` (otherwise an index panic) and `size % 8 != 0` (otherwise `>> 8` overflows, a panic under overflow checks) |
| BitSets.ConcatenatedMembers | src/datastructures/bitset.rs:182-217 | the members of the intended words are `a`'s and `b`'s shifted by `m` |
| BitSets.ConcatenateAsWrittenDropsLastWord | src/datastructures/bitset.rs:210-214 | {} of size 4 with {7} of size 8: as written 11 is lost, as intended 11 is a member |
| BitSets.ConcatenateAsWrittenRereadsFirstWord | src/datastructures/bitset.rs:198-203 | {0} of size 4 with {} of size 24: as written 8 appears, as intended it does not |
| BitSets.BitSet.UpdateUnion | src/datastructures/bitset.rs:220-228 | contents become the union, in place |
| BitSets.BitSet.UpdateIntersection | src/datastructures/bitset.rs:230-238 | contents become the intersection |
| BitSets.BitSet.UpdateDifference | src/datastructures/bitset.rs:240-248 | contents become the difference |
| BitSets.BitSet.UpdateSymmetricDifference | src/datastructures/bitset.rs:250-258 | contents become the symmetric difference |
| BitSets.BitSet.UpdateCombine | src/datastructures/bitset.rs:220-258 | the loop shared by the in-place operations: word `i` becomes `op` of the old words `i` |
| BitSets.BitSet.UpdateComplement | src/datastructures/bitset.rs:260-264 | every word negated, contents complemented within `[0, size)` |
| BitSets.BitSet.Clear | src/datastructures/bitset.rs:267-271 | all words 0, contents empty, tail clear |
| BitSets.BitSet.Fill | src/datastructures/bitset.rs:273-277 | all words 0xFF, contents all of `[0, size)` |
| BitSets.BitSet.Len | src/datastructures/bitset.rs:60-67 | the number of one bits in the words; the number of members when the tail is clear |
| BitSets.BitSet.IsEmpty | src/datastructures/bitset.rs:293-301 | true exactly when every word is 0; this implies no member, and the converse holds when the tail is clear |
| BitSets.BitSet.IsDisjoint | src/datastructures/bitset.rs:280-291 | true exactly when no word pair shares a bit; this implies disjoint contents, and the converse holds when one tail is clear |
| BitSets.BitSet.IsSubset | src/datastructures/bitset.rs:303-310 | true exactly when no word of `this` has a bit outside `other`'s word; relation to content inclusion both ways |
| BitSets.BitSet.IsSuperset | src/datastructures/bitset.rs:312-319 | true exactly when no word of `other` has a bit outside the word of `this`; when `other.size <= size`, this puts `other`'s contents among those of `this`, and the converse holds when `other`'s tail is clear |
| BitSets.BitSet.Clone | src/datastructures/bitset.rs:351-360 | a fresh set with the same words and contents |
| BitSets.BitSetIter.constructor | src/datastructures/bitset.rs:388-398 | the pending indices are the contents of the set |
| BitSets.BitSetIter.Next | src/datastructures/bitset.rs:423-470 | `None` exactly when nothing is pending; otherwise the least pending index, which is then no longer pending |
| Words.ZipMembers | src/datastructures/bitset.rs:114-169 | the members of word-wise `op` are the matching set operation of the members |
| Words.ComplementedMembers | src/datastructures/bitset.rs:171-179 | the members of negated words are the complement within `[0, size)` |
| Words.MembersCount | src/datastructures/bitset.rs:60-67 | the members below `8 * j + p` are as many as the one bits of the first `j` words plus those among the first `p` positions of word `j` |
| ByteBitSets.Position | src/datastructures/bitset_nul.rs:32-35 | the first index of `x`, `None` exactly when absent |
| ByteBitSets.ContiguousList.GetValue | src/datastructures/bitset_nul.rs:24-26 | the value at `index`; without `value_id`, its index is found at or before `index` |
| ByteBitSets.ContiguousList.GetIndex | src/datastructures/bitset_nul.rs:28-38 | `f(value)` when `value_id` is `Some(f)`; otherwise the first position, `None` exactly when absent |
| ByteBitSets.ContiguousList.Len | src/datastructures/bitset_nul.rs:40-43 | the length truncated to `u16`, exact below 2^16 |
| ByteBitSets.ContiguousList.constructor | src/datastructures/bitset_nul.rs:20-22 | stores the values and the optional index function |
| ByteBitSets.ByteBitSet.Size | src/datastructures/bitset_nul.rs:96-98 | the list length as `u16`, at most the number of values |
| ByteBitSets.ByteBitSet.Of | src/datastructures/bitset_nul.rs:395-400 | the struct literal: bytes and list stored as given |
| ByteBitSets.IndexOfValue | src/datastructures/bitset_nul.rs:24-38 | on lists without repeats, `get_index(get_value(k)) == Some(k)` |
| ByteBitSets.ValueOfIndex | src/datastructures/bitset_nul.rs:24-38 | `get_value(get_index(v)) == v` when found |
| ByteBitSets.ByteBitSet.New | src/datastructures/bitset_nul.rs:105-115 | `ceil(len / 8)` zero bytes, empty contents |
| ByteBitSets.ByteBitSet.NewFull | src/datastructures/bitset_nul.rs:117-127 | `ceil(len / 8)` bytes 0xFF, contents all of `[0, len)` |
| ByteBitSets.ByteBitSet.NbrBytes | src/datastructures/bitset_nul.rs:100-102 | the number of bytes, fewer than `size / 8 + 1` |
| ByteBitSets.ByteBitSet.Contains | src/datastructures/bitset_nul.rs:130-138 | true exactly when `n` is a member, LSB-first layout |
| ByteBitSets.ByteBitSet.Insert | src/datastructures/bitset_nul.rs:140-149 | contents gain exactly `n` |
| ByteBitSets.ByteBitSet.Remove | src/datastructures/bitset_nul.rs:151-159 | contents lose exactly `n` |
| ByteBitSets.ByteBitSet.Set | src/datastructures/bitset_nul.rs:161-171 | contents gain or lose `n`, and `Contains(n) == value` after |
| ByteBitSets.ByteBitSet.SameList | src/datastructures/bitset_nul.rs:174-176 | true exactly when both sets index the same list object |
| ByteBitSets.ByteBitSet.Union | src/datastructures/bitset_nul.rs:178-195 | contents are the union; the lists must be the same |
| ByteBitSets.ByteBitSet.Intersection | src/datastructures/bitset_nul.rs:197-214 | contents are the intersection |
| ByteBitSets.ByteBitSet.Difference | src/datastructures/bitset_nul.rs:216-233 | contents are the difference |
| ByteBitSets.ByteBitSet.SymmetricDifference | src/datastructures/bitset_nul.rs:235-252 | contents are the symmetric difference |
| ByteBitSets.ByteBitSet.Combine | src/datastructures/bitset_nul.rs:178-252 | the shared loop: a fresh set on the same list whose byte `i` is `op` of the bytes `i` |
| ByteBitSets.ByteBitSet.UpdateUnion | src/datastructures/bitset_nul.rs:255-263 | contents become the union |
| ByteBitSets.ByteBitSet.UpdateIntersection | src/datastructures/bitset_nul.rs:265-273 | contents become the intersection |
| ByteBitSets.ByteBitSet.UpdateDifference | src/datastructures/bitset_nul.rs:275-283 | contents become the difference |
| ByteBitSets.ByteBitSet.UpdateSymmetricDifference | src/datastructures/bitset_nul.rs:285-293 | contents become the symmetric difference |
| ByteBitSets.ByteBitSet.UpdateCombine | src/datastructures/bitset_nul.rs:255-293 | the shared in-place loop: byte `i` becomes `op` of the old bytes `i` |
| ByteBitSets.ByteBitSet.Clear | src/datastructures/bitset_nul.rs:296-300 | all bytes 0, contents empty |
| ByteBitSets.ByteBitSet.Fill | src/datastructures/bitset_nul.rs:302-306 | all bytes 0xFF, contents all of `[0, size)` |
| ByteBitSets.ByteBitSet.IsDisjoint | src/datastructures/bitset_nul.rs:309-320 | true exactly when no byte pair shares a bit; relation to the contents both ways |
| ByteBitSets.ByteBitSet.IsEmpty | src/datastructures/bitset_nul.rs:322-329 | true exactly when every byte is 0 |
| ByteBitSets.ByteBitSet.IsSubset | src/datastructures/bitset_nul.rs:331-338 | byte-wise inclusion, related to content inclusion both ways |
| ByteBitSets.ByteBitSet.IsSuperset | src/datastructures/bitset_nul.rs:340-347 | true exactly when no byte of `other` has a bit outside the byte of `this`; when `other`'s size is at most this one's, this puts `other`'s contents among those of `this`, and the converse holds when `other`'s tail is clear |
| ByteBitSets.ByteBitSet.Len | src/datastructures/bitset_nul.rs:350-356 | the one bits of the bytes; the number of members when the tail is clear |
| ByteBitSets.ByteBitSet.Clone | src/datastructures/bitset_nul.rs:395-400 | a fresh set with the same bytes and list |
| FlatTables.FromVecVec | src/datastructures/flat_table.rs:29-40 | the table is the rows concatenated, `rows[i]` the total length of the rows before `i` |
| FlatTables.RowsOrdered | src/datastructures/flat_table.rs:34-37 | the row starts never decrease and stay within the table |
| FlatTables.Size | src/datastructures/flat_table.rs:42-44 | the table length, which must fit the index type |
| FlatTables.GetById | src/datastructures/flat_table.rs:46-48 | an element of the table |
| FlatTables.Index | src/datastructures/flat_table.rs:60-65 | the slice from the row's start to the next start, or to the end for the last row |
| FlatTables.IndexFlattened | src/datastructures/flat_table.rs:29-65 | round trip: row `i` of the flattened rows is `t[i]` |
| FlatTables.RectFromVecVec | src/datastructures/flat_table.rs:91-101 | height `|t|`, width of row 0 (0 when there is none), the rows concatenated |
| FlatTables.RectIndex | src/datastructures/flat_table.rs:113-115 | the intended slice `[i * w, (i + 1) * w)`, of `w` elements |
| FlatTables.RectIndexFlattened | src/datastructures/flat_table.rs:91-115 | round trip: on rows of one width, `RectIndex` of the flattened table gives `t[i]` |
| FlatTables.RectIndexAsWritten | src/datastructures/flat_table.rs:113-115 | the slice as written ends at `i * (w + 1)`, so it has `i` elements |
| FlatTables.RectIndexAsWrittenLength | src/datastructures/flat_table.rs:113-115 | as written agrees with the intended slice exactly when `i == w` |
| FlatTables.RectIndexAsWrittenCounterexample | src/datastructures/flat_table.rs:113-115 | on [[1, 2], [3, 4]], rows 0 and 1 as written are [] and [3] |
| FormalLanguage.InsertSorted | src/formal_language.rs:13 | sorted, with the multiset of the input plus `x` |
| FormalLanguage.Sort | src/formal_language.rs:13 | sorted, a permutation of the input |
| FormalLanguage.Dedup | src/formal_language.rs:14 | the same characters, strictly sorted when the input is sorted |
| FormalLanguage.Alphabet.New | src/formal_language.rs:11-16 | strictly increasing, with exactly the input's characters |
| FormalLanguage.Alphabet.Id | src/formal_language.rs:18-24 | `Some(k)` with `chars[k] == c`, and `None` exactly when `c` is absent |
| FormalLanguage.Alphabet.Size | src/formal_language.rs:26-28 | the number of distinct characters |
| FormalLanguage.Search | src/formal_language.rs:19 | binary search over a strictly sorted slice: found index or absence |
| FormalLanguage.NewId | src/formal_language.rs:11-28 | `id(c)` finds `c` exactly when it was in the input; `size` is the number of distinct input characters |
| FormalLanguage.NewCanonical | src/formal_language.rs:11-16 | inputs with the same characters give the same alphabet |
| FormalLanguage.StrictlySortedUnique | src/formal_language.rs:6 | a strictly sorted sequence is determined by its characters |
| FormalLanguage.Token.NextPosition | src/formal_language.rs:53-68 | line plus the number of newlines; the column grows by the length without newline, otherwise it counts the characters after the last newline |
| FormalLanguage.SymbolSet.GetRepresentation | src/formal_language.rs:84-86 | `representations[s.id]`, in range |
| FormalLanguage.CfgSymbolSet.OffsetTerminals | src/formal_language.rs:105-107 | the number of non-terminals |
| FormalLanguage.CfgSymbolSet.ErrNonTerm | src/formal_language.rs:125-127 | id 0 |
| FormalLanguage.CfgSymbolSet.Start | src/formal_language.rs:117-119 | id 1 |
| FormalLanguage.CfgSymbolSet.ErrTerm | src/formal_language.rs:129-131 | id `offset_terminals` |
| FormalLanguage.CfgSymbolSet.End | src/formal_language.rs:121-123 | id `offset_terminals + 1`, which must fit `u16` |
| FormalLanguage.MarkersDistinct | src/formal_language.rs:105-131 | with two or more non-terminals the four markers are distinct and on their sides of `offset_terminals` |
| Grammar.PushNames | src/grammar/CFG.rs:67-71 | every name pushed with the next consecutive id |
| Grammar.New | src/grammar/CFG.rs:42-96 | `4 + |T| + |N|` symbols numbered by position; representations in push order; terminals begin at `2 + |N|` |
| Grammar.BuiltParts | src/grammar/CFG.rs:98-116 | the non-terminal and terminal slices partition the symbols at `2 + |N|`; `ERR_NON_TERM` is 0 and `START` is 1 |
| Grammar.CfgAlphabet.GetTerminals | src/grammar/CFG.rs:98-100 | the symbols from `index_begin_terminals` on; the two slices make up the symbols |
| Grammar.CfgAlphabet.GetNonTerminals | src/grammar/CFG.rs:102-104 | the symbols before `index_begin_terminals` |
| Grammar.CfgAlphabet.Start | src/grammar/CFG.rs:106-108 | symbol 1 |
| Grammar.CfgAlphabet.End | src/grammar/CFG.rs:110-112 | the symbol after `index_begin_terminals` |
| Grammar.CfgAlphabet.ErrNonTerm | src/grammar/CFG.rs:114-116 | symbol 0 |
| Grammar.CfgAlphabet.ErrTerm | src/grammar/CFG.rs:118-120 | the symbol at `index_begin_terminals` |
| Grammar.ErrTermAsWritten | src/grammar/CFG.rs:75-120 | with two terminals, `ERR_TERM` and `END` name the first two user terminals |
| Grammar.ErrTermAsWrittenCounterexample | src/grammar/CFG.rs:75-120 | terminal "a", no non-terminal: `ERR_TERM` names "a", `END` names "ERR_TERM" |
| Grammar.NewIntended | src/grammar/CFG.rs:43-96 | the layout of the comment at line 43, markers before the terminals |
| Grammar.IntendedMarkers | src/grammar/CFG.rs:43-120 | in that layout each marker accessor names itself, and the terminals follow |
| StateMachines.ExactlyOne | src/lexing/state_machine.rs:1-27 | exactly one of `is_ready`, `is_running`, `is_finished` holds |
| Nfas.Nfa.NextStateIds | src/lexing/automatons/NFA.rs:124-134 | the union of the current states' cells for the symbol, all below `nbr_states`; with no current state, empty for any symbol |
| Nfas.Nfa.Successors | src/lexing/automatons/NFA.rs:124-134 | a state is a successor exactly when some current state's cell holds it |
| Nfas.Nfa.SuccessorsStep | src/lexing/automatons/NFA.rs:127-132 | reading one more current state adds exactly its cell to the successors |
| Nfas.Nfa.GetState | src/lexing/automatons/NFA.rs:136-138 | the state at `state_id`, which must be in range |
| Nfas.FromTable | src/lexing/automatons/NFA.rs:68-76 | `nbr_symbols` is the width, `nbr_states` the height; valid when every cell stays in range |
| Nfas.EmptyTable | src/lexing/automatons/NFA.rs:82-83 | `nbr_states` rows of `nbr_symbols` empty cells |
| Nfas.FromTransitions | src/lexing/automatons/NFA.rs:78-99 | cell `(o, s)` holds `t` exactly when `(o, s, t)` is a transition |
| Nfas.FromTransitionSets | src/lexing/automatons/NFA.rs:101-122 | cell `(o, s)` is the union of every target set given for `(o, s)` |
| Nfas.NfaRunner.constructor | src/lexing/automatons/NFA.rs:144-154 | the struct literal: automaton, current states and run info stored as given |
| Nfas.NfaRunner.Clear | src/lexing/automatons/NFA.rs:165-169 | current states `{0}`, ready, for any automaton with a state (`insert(0)` panics otherwise); the runner is valid afterwards when its automaton is |
| Nfas.NfaRunner.GetState | src/lexing/automatons/NFA.rs:203-205 | the current states, all below `nbr_states` |
| Nfas.NfaRunner.IsFinished | src/lexing/automatons/NFA.rs:175-177 | true exactly when finished |
| Nfas.NfaRunner.Update | src/lexing/automatons/NFA.rs:179-201 | no successor: finished, states kept; otherwise running on the successors. It panics once finished, and never empties the set; an out-of-range symbol is refused only when a cell would be read |
| DfaLexers.RunSnoc | src/lexing/lexers/dfa_lexer.rs:53 | running the DFA on one more symbol is one more step |
| DfaLexers.DfaRunner.constructor | src/lexing/lexers/dfa_lexer.rs:22 | a runner on `dfa` in state 0, ready |
| DfaLexers.DfaRunner.Clear | src/lexing/lexers/dfa_lexer.rs:95-109 | back to state 0, ready |
| DfaLexers.DfaRunner.Update | src/lexing/lexers/dfa_lexer.rs:53-96 | stuck: finished in the same state; otherwise running in the next state |
| DfaLexers.DfaRunner.IsFinished | src/lexing/state_machine.rs:19-21 | true exactly when finished |
| DfaLexers.StoppedStep | src/lexing/lexers/dfa_lexer.rs:72-119 | when the DFA stops, the token emitted, the optional error token and the new lexeme keep the input spelled out and typed |
| DfaLexers.HandleEndKeeps | src/lexing/lexers/dfa_lexer.rs:72-119 | `handle_dfa_end` keeps the invariant and leaves the DFA not finished |
| DfaLexers.StepKeeps | src/lexing/lexers/dfa_lexer.rs:48-57 | `update` keeps the invariant on the input extended by the symbol |
| DfaLexers.AtEndCovers | src/lexing/lexers/dfa_lexer.rs:121-147 | after `finish` the tokens alone spell out the input since the last clear, each typed by its lexeme |
| DfaLexers.ClearKeeps | src/lexing/lexers/dfa_lexer.rs:40-42 | after `clear` the invariant holds from the current lexeme's position |
| DfaLexers.TilingSpelled | src/lexing/lexers/dfa_lexer.rs:59-61 | whenever the input is tiled by the tokens and a lexeme, the tokens alone spell out the input from `base`, so they can be read back |
| DfaLexers.TokenAtPosition | src/lexing/lexers/dfa_lexer.rs:89-107 | each token is the piece of the input at its position |
| DfaLexers.Lex | src/lexing/lexers/dfa_lexer.rs:48-57 | a fresh runner fed `w` is in the invariant for `w` |
| DfaLexers.Tokenize | src/lexing/lexers/dfa_lexer.rs:48-147 | the lexemes concatenated are `w`, positions are consecutive from 0, every token typed by its lexeme |
| DfaLexers.SpelledTokenAt | src/lexing/lexers/dfa_lexer.rs:89-143 | token `i` is `w` sliced at its position and carries the DFA's type for its lexeme |
| DfaLexers.EmptyLexemeExample | src/lexing/lexers/dfa_lexer.rs:74-107 | a DFA stuck on the first symbol gives an empty-lexeme token and then an error token |
| DfaLexers.DfaLexerRunner.constructor | src/lexing/lexers/dfa_lexer.rs:17-30 | a runner with no input, in the invariant |
| DfaLexers.DfaLexerRunner.HandleDfaEnd | src/lexing/lexers/dfa_lexer.rs:72-119 | the new fields are `HandleEnd` of the old ones; panics when a finished DFA has no symbol to pop |
| DfaLexers.DfaLexerRunner.Update | src/lexing/lexers/dfa_lexer.rs:48-57 | the new fields are `Step` of the old ones, the invariant is kept, the symbol is consumed |
| DfaLexers.DfaLexerRunner.Finish | src/lexing/lexers/dfa_lexer.rs:121-147 | the new fields are `AtEnd` of the old ones; the tokens spell out the input since the last clear; the tokens stay readable |
| DfaLexers.DfaLexerRunner.Clear | src/lexing/lexers/dfa_lexer.rs:40-42 | only the token list is emptied; the invariant is kept |
| DfaLexers.DfaLexerRunner.GetState | src/lexing/lexers/dfa_lexer.rs:59-61 | every token returned is the piece of the consumed input at its position; it needs only that the tokens are readable, which every method, `Finish` included, ensures |
| DfaLexers.DfaLexerRunner.IsFinished | src/lexing/state_machine.rs:19-21 | true exactly when `run_info` is finished |

## Left out

- Word width: `BitSet` is generic over its unsigned word type. The model fixes it to 8 bits, the width the NFA uses, for which `nbr_used_uints` is an exact ceiling.
- `get_mut` in `table1d.rs` and `table2d.rs` returns a mutable reference. It is modelled by the write made through it (`Set`, `Assign`), not by the reference itself.
- `BitSet::print`, `ByteBitSet::print`, and the `println!` calls in `CFG_Alphabet::new`: output only.
- `BitSet::iter` and `into_iter`: these only build the `BitSetIter` the model has.
- `MutBitSetIter` (bitset.rs:477-592): the same algorithm as `BitSetIter` plus mutation through an alias while iterating.
- The iterators of `bitset_nul.rs`: its `BitSetIter`, with `iter` and `into_iter` on the set, never reloads its count of ones; `OwnedBitSetIter` and `BitSetCyclicIter` are commented out.
- `ContiguousList::iter` and `IntoIterator for &ContiguousList` (bitset_nul.rs:44-62): they only hand out the slice iterator over `values`, which the model holds as the sequence `values`.
- `datastructures/bitset_table.rs` is not part of this model (a revision superseded by `bitset.rs`). Neither is `lexing/automatons/DFA.rs`, which is commented out.
- The DFA and its runner are not shown in the source. The model takes a DFA as a partial transition function `delta` and a per-state return value, with 0 as the start state. `DfaRunner.Update` stays in its state and finishes when the step is undefined.
- `get_run_info` of both runners: it returns the field `runInfo`, which the model exposes directly. The lexer runner's `run_info` is never assigned by the code shown.
- The NFA's table cells and current states are modelled by their contents (`set<nat>`). They are not `BitSet` objects; the bit-level behaviour of those is the `BitSets` model.
- `Symbol::from`, `SymbolSet::size`, `CfgSymbolSet::new`, `CfgSymbolSet::get_terminals`/`get_non_terminals` and the marker forwarders of `CFG` (CFG.rs:176-190): struct literals, field reads and calls to the modelled accessors. They are the datatype constructors and fields of the model.
- `Cfg::new` and `CFG::new` only store their arguments, so they are the datatype constructors `Cfg`. The grammar analysis written as comments (nullable symbols, reverse indices, rule checks) has no code to model.
- Overflow: `usize` arithmetic is unbounded in the model. The model takes a Rust arithmetic overflow to panic, as a build with overflow checks (a debug build) does, and states it as a precondition: the `>> 8` of `BitSet.ConcatenateAsWritten` when `size % 8 == 0`, the `u16` counter of `Grammar.New` and the `u16` sum of `CfgSymbolSet.End`. In a release build these wrap silently instead; for `concatenate`, `{0}` of size 8 with `{1}` of size 8 then gives `{0, 1}` rather than `{0, 9}`. The `as u16` casts of `ContiguousList` (`get_index`, `len`) are truncations modulo 2^16; the flat table's `try_into().unwrap()` conversions are preconditions.
- `Alphabet::new` calls the library's in-place `sort` and `dedup`. The model specifies their results as functions, not the library's algorithm.
- `NfaRunner` and `DfaLexerRunner` have no constructor in the source; the model's constructors stand for struct literals.
- `FiniteAutomatonState.data` and the symbol types are opaque parameters.
- DfaLexers.DfaLexerRunner.Update: requires the runner's invariant, which `finish` does not restore when it emits a last lexeme, because the lexeme is not reset. The source allows `update` after `finish`; it then extends the stale lexeme, which may be emitted a second time. The model does not cover that use.
- DfaLexers.DfaLexerRunner.Clear: requires the same invariant, so `clear` after such a `finish` is not covered either. `GetState` after `Finish` is covered.
- BitSets.BitSetIter.Next: requires that the iterator is not done, so calling `next` again after it has returned `None` is outside the model.
- `DfaRunner.Update`: the model's step never panics, whereas the DFA runner in the source may panic when already finished (code not shown).

## Findings

| source | as written | input that shows it | evidently intended | confidence | as-written member | corrected member |
|---|---|---|---|---|---|---|
| src/datastructures/bitset.rs:98 | `remove` stores `bit_mask & word`, which keeps only bit `n` of its word; `set_value(n, false)` calls it (line 109), so `BitSet.SetValueAsWritten` never clears `n` either | {0, 1} of size 2, remove 0: gives {0} | `!bit_mask & word`, clearing only bit `n`, as bitset_nul.rs:158 does | high, not executed | BitSets.RemoveAsWrittenCounterexample | BitSets.BitSet.Remove |
| src/datastructures/bitset.rs:198-203 | step `k` of the split loop reads word `nu - 1` instead of word `nu + k - 1`, the word it completes | {0} of size 4 with {} of size 24: 8 becomes a member | each step completes word `nu + k - 1` with the low bits of the previous word of `other` | high, not executed | BitSets.ConcatenateAsWrittenRereadsFirstWord | BitSets.BitSet.Concatenate |
| src/datastructures/bitset.rs:210-214 | the `<< right` part of `other`'s last word is never stored | {} of size 4 with {7} of size 8: 11 is not a member | the last word of `other` shifted left by `right` ends the result | high, not executed | BitSets.ConcatenateAsWrittenDropsLastWord | BitSets.BitSet.Concatenate |
| src/datastructures/flat_table.rs:114 | the row slice ends at `index * (width + 1)` | rows [[1, 2], [3, 4]], row 0 gives [] | end at `(index + 1) * width` | high, not executed | FlatTables.RectIndexAsWrittenCounterexample | FlatTables.RectIndexFlattened |
| src/grammar/CFG.rs:75-91 | `ERR_TERM` and `END` are pushed after the terminals, but their accessors read `index_begin_terminals` and the next index | terminal "a", no non-terminal: `ERR_TERM()` names "a" | the layout of the comment at line 43, markers right after the non-terminals | medium, not executed | Grammar.ErrTermAsWrittenCounterexample | Grammar.IntendedMarkers |
