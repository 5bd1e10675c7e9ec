/**
 * The one-dimensional storage of table1d.rs: a table of slots indexed from 0,
 * implemented by a growable `Vec` and by a fixed-size array `[T; SIZE]`.
 * Indexing out of range and `size` of an empty table (its `NonZeroUsize`
 * conversion fails) panic, so both are preconditions.
 */
module Table1D {

  /** `impl Table1D<T> for Vec<T>`: the slots are a sequence the methods reassign. */
  class VecTable<T> {
    var cells: seq<T>

    /** `vec![value; size]`. */
    constructor NewFilled(value: T, size: nat)
      ensures |cells| == size
      ensures forall i :: 0 <= i < size ==> cells[i] == value
    {
      cells := seq(size, _ => value);
    }

    function Get(i: nat): (v: T)
      reads this
      requires i < |cells|
      ensures v in cells
      ensures v == cells[i]
    {
      cells[i]
    }

    /** `self[i] = value`: slot `i` holds `value`, every other slot is unchanged. */
    method Set(value: T, i: nat)
      requires i < |cells|
      modifies this
      ensures |cells| == |old(cells)|
      ensures Get(i) == value
      ensures forall j :: 0 <= j < |cells| && j != i ==> Get(j) == old(Get(j))
    {
      cells := cells[i := value];
    }

    /** `self.len().try_into().unwrap()` into `NonZeroUsize`. */
    function Size(): (n: nat)
      reads this
      requires |cells| >= 1
      ensures n >= 1 && n == |cells|
    {
      |cells|
    }
  }

  /** `impl Table1D<T> for [T; SIZE]`: a fixed-size buffer of `SIZE` slots. */
  class ArrayTable<T> {
    const SIZE: nat
    const cells: array<T>

    ghost predicate Valid()
      reads this
    {
      cells.Length == SIZE
    }

    /** `new_filled` asserts that the requested size is `SIZE`. */
    constructor NewFilled(SIZE: nat, value: T, size: nat)
      requires SIZE == size
      ensures Valid() && fresh(cells) && cells.Length == SIZE
      ensures forall i :: 0 <= i < SIZE ==> cells[i] == value
    {
      this.SIZE := SIZE;
      cells := new T[SIZE](_ => value);
    }

    function Get(i: nat): (v: T)
      reads this, cells
      requires Valid() && i < SIZE
      ensures v == cells[i]
    {
      cells[i]
    }

    method Set(value: T, i: nat)
      requires Valid() && i < SIZE
      modifies cells
      ensures Valid() && Get(i) == value
      ensures forall j :: 0 <= j < SIZE && j != i ==> Get(j) == old(Get(j))
    {
      cells[i] := value;
    }

    /** `SIZE.try_into().unwrap()` into `NonZeroUsize`. */
    function Size(): (n: nat)
      reads this
      requires Valid() && SIZE >= 1
      ensures n >= 1 && n == cells.Length
    {
      SIZE
    }
  }
}
