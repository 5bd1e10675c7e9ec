/**
 * The two-dimensional storage of table2d.rs: cells indexed by row and column,
 * implemented by `Vec<Vec<T>>` and by a fixed-size array `[[T; WIDTH]; HEIGHT]`.
 * Indexing out of range and a zero height or width (the `NonZeroUsize`
 * conversion fails) panic, so both are preconditions.
 */
module Table2D {

  /** `impl Table2D<T> for Vec<Vec<T>>`: the rows are a sequence of sequences. */
  class VecTable2D<T> {
    var rows: seq<seq<T>>

    /** `vec![vec![value; width]; height]`. */
    constructor NewFilled(value: T, height: nat, width: nat)
      ensures |rows| == height
      ensures forall i :: 0 <= i < height ==> |rows[i]| == width
      ensures forall i, j :: 0 <= i < height && 0 <= j < width ==> rows[i][j] == value
    {
      rows := seq(height, _ => seq(width, _ => value));
    }

    function Get(i: nat, j: nat): (v: T)
      reads this
      requires i < |rows| && j < |rows[i]|
      ensures v in rows[i]
      ensures v == rows[i][j]
    {
      rows[i][j]
    }

    /** `*self.get_mut(i, j) = value`: cell `(i, j)` changes and no other cell does. */
    method Assign(i: nat, j: nat, value: T)
      requires i < |rows| && j < |rows[i]|
      modifies this
      ensures |rows| == |old(rows)|
      ensures forall k :: 0 <= k < |rows| ==> |rows[k]| == |old(rows[k])|
      ensures Get(i, j) == value
      ensures forall k, l :: 0 <= k < |rows| && 0 <= l < |rows[k]| && (k, l) != (i, j) ==> rows[k][l] == old(rows[k][l])
    {
      rows := rows[i := rows[i][j := value]];
    }

    /** The number of rows. */
    function Height(): (n: nat)
      reads this
      requires |rows| >= 1
      ensures n >= 1 && n == |rows|
    {
      |rows|
    }

    /** The length of row 0, taken as the width of every row. */
    function Width(): (n: nat)
      reads this
      requires |rows| >= 1 && |rows[0]| >= 1
      ensures n >= 1 && n == |rows[0]|
    {
      |rows[0]|
    }
  }

  /** `impl Table2D<T> for [[T; WIDTH]; HEIGHT]`. */
  class ArrayTable2D<T> {
    const HEIGHT: nat
    const WIDTH: nat
    const cells: array2<T>

    ghost predicate Valid()
      reads this
    {
      cells.Length0 == HEIGHT && cells.Length1 == WIDTH
    }

    /** `new_filled` asserts that the requested height and width are `HEIGHT` and `WIDTH`. */
    constructor NewFilled(HEIGHT: nat, WIDTH: nat, value: T, height: nat, width: nat)
      requires HEIGHT == height && WIDTH == width
      ensures Valid() && fresh(cells) && cells.Length0 == HEIGHT && cells.Length1 == WIDTH
      ensures forall i, j :: 0 <= i < HEIGHT && 0 <= j < WIDTH ==> cells[i, j] == value
    {
      this.HEIGHT := HEIGHT;
      this.WIDTH := WIDTH;
      cells := new T[HEIGHT, WIDTH]((_, _) => value);
    }

    function Get(i: nat, j: nat): (v: T)
      reads this, cells
      requires Valid() && i < HEIGHT && j < WIDTH
      ensures v == cells[i, j]
    {
      cells[i, j]
    }

    method Assign(i: nat, j: nat, value: T)
      requires Valid() && i < HEIGHT && j < WIDTH
      modifies cells
      ensures Valid() && Get(i, j) == value
      ensures forall k, l :: 0 <= k < HEIGHT && 0 <= l < WIDTH && (k, l) != (i, j) ==> cells[k, l] == old(cells[k, l])
    {
      cells[i, j] := value;
    }

    function Height(): (n: nat)
      reads this
      requires Valid() && HEIGHT >= 1
      ensures n >= 1 && n == cells.Length0
    {
      HEIGHT
    }

    function Width(): (n: nat)
      reads this
      requires Valid() && WIDTH >= 1
      ensures n >= 1 && n == cells.Length1
    {
      WIDTH
    }
  }
}
