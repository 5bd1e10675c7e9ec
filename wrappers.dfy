/** Small value types shared by every module of the model. */
module Wrappers {

  /** Rust's `Option<T>`. */
  datatype Option<+T> = None | Some(value: T)

  /** Rust's `u16`: the width of symbol ids and of `ContiguousList` indices. */
  type U16 = x: nat | x < 0x1_0000

  /** The concatenation of a sequence of sequences, row after row. */
  function Concat<T>(rows: seq<seq<T>>): (r: seq<T>)
    decreases |rows|
  {
    if rows == [] then [] else Concat(rows[..|rows| - 1]) + rows[|rows| - 1]
  }

  /** `Concat` distributes over the split of its argument at any index. */
  lemma {:induction false} ConcatSplit<T>(rows: seq<seq<T>>, i: nat)
    requires i <= |rows|
    ensures Concat(rows) == Concat(rows[..i]) + Concat(rows[i..])
    decreases |rows|
  {
    if i == |rows| {
      assert rows[..i] == rows;
      assert rows[i..] == [];
    } else {
      var n := |rows| - 1;
      ConcatSplit(rows[..n], i);
      assert rows[..n][..i] == rows[..i];
      assert rows[i..][..|rows[i..]| - 1] == rows[..n][i..];
      assert rows[i..][|rows[i..]| - 1] == rows[n];
    }
  }
}
