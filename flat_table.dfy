/**
 * The flattened tables of flat_table.rs. `FlatTable` keeps the rows of a
 * list of lists one after another in `table`, with the start of every row in
 * `rows`; `RectFlatTable` does the same for rows of one common `width`. The
 * index type `Idxx` is an unsigned integer whose largest value is the
 * parameter `idxMax`; a conversion into it of a larger value panics.
 */
module FlatTables {
  import opened Wrappers

  datatype FlatTable<T> = FlatTable(table: seq<T>, rows: seq<nat>)

  datatype RectFlatTable<T> = RectFlatTable(table: seq<T>, height: nat, width: nat)

  /** Where each row starts: row `i` starts after the rows before it. */
  function Starts<T>(t: seq<seq<T>>): (r: seq<nat>)
    ensures |r| == |t|
  {
    seq(|t|, i requires 0 <= i < |t| => |Concat(t[..i])|)
  }

  /** What `FlatTable::from_vec_vec(t)` builds. */
  function Flattened<T>(t: seq<seq<T>>): FlatTable<T>
  {
    FlatTable(Concat(t), Starts(t))
  }

  /** The rows up to `i`, then row `i`, then the rest: the pieces of the flattened table. */
  lemma FlattenSplit<T>(t: seq<seq<T>>, i: nat)
    requires i < |t|
    ensures Concat(t) == Concat(t[..i]) + t[i] + Concat(t[i + 1..])
    ensures Concat(t[..i + 1]) == Concat(t[..i]) + t[i]
  {
    ConcatSplit(t, i + 1);
    assert t[..i + 1][..i] == t[..i];
  }

  /** One more row: its start is the length of the rows before it. */
  lemma StartsSnoc<T>(t: seq<seq<T>>, k: nat)
    requires k < |t|
    ensures Starts(t[..k + 1]) == Starts(t[..k]) + [|Concat(t[..k])|]
  {
    forall i | 0 <= i < k ensures t[..k + 1][..i] == t[..k][..i] {
    }
    assert t[..k + 1][..k] == t[..k];
  }

  /** Row starts never decrease and never pass the end of the table. */
  lemma StartsOrdered<T>(t: seq<seq<T>>, i: nat, j: nat)
    requires i <= j < |t|
    ensures Starts(t)[i] <= Starts(t)[j] <= |Concat(t)|
  {
    ConcatSplit(t[..j], i);
    assert t[..j][..i] == t[..i];
    FlattenSplit(t, j);
  }

  /** Row `i + 1` starts where row `i` ends; the last row ends at the end of the table. */
  lemma StartsNext<T>(t: seq<seq<T>>, i: nat)
    requires i < |t|
    ensures i + 1 < |t| ==> Starts(t)[i + 1] == Starts(t)[i] + |t[i]|
    ensures i + 1 == |t| ==> |Concat(t)| == Starts(t)[i] + |t[i]|
  {
    FlattenSplit(t, i);
    if i + 1 == |t| {
      assert t[i + 1..] == [];
    }
  }

  /**
   * `from_vec_vec`: every row pushes the current table length (converted to
   * `Idxx`, so it must not pass `idxMax`) and is appended to the table.
   */
  method FromVecVec<T>(t: seq<seq<T>>, idxMax: nat) returns (r: FlatTable<T>)
    requires forall i :: 0 <= i < |t| ==> |Concat(t[..i])| <= idxMax
    ensures r == Flattened(t)
    ensures |r.rows| == |t|
  {
    var table: seq<T> := [];
    var rows: seq<nat> := [];
    var k := 0;
    while k < |t|
      invariant 0 <= k <= |t|
      invariant table == Concat(t[..k])
      invariant rows == Starts(t[..k])
    {
      assert |table| <= idxMax;
      StartsSnoc(t, k);
      rows := rows + [|table|];
      FlattenSplit(t, k);
      table := table + t[k];
      k := k + 1;
    }
    assert t[..k] == t;
    r := FlatTable(table, rows);
  }

  /** `size` converts the table length to `Idxx`. */
  function Size<T>(f: FlatTable<T>, idxMax: nat): (n: nat)
    requires |f.table| <= idxMax
    ensures n == |f.table| && n <= idxMax
  {
    |f.table|
  }

  function GetById<T>(f: FlatTable<T>, id: nat): (v: T)
    requires id < |f.table|
    ensures v in f.table
  {
    f.table[id]
  }

  /**
   * `index(id)`: the slice from the start of row `id` to the start of the next
   * row, or to `size()` for the last row. `size()` is the default of
   * `unwrap_or`, so it is converted even when another row follows.
   */
  function Index<T>(f: FlatTable<T>, id: nat, idxMax: nat): (row: seq<T>)
    requires id < |f.rows| && |f.table| <= idxMax
    requires f.rows[id] <= (if id + 1 < |f.rows| then f.rows[id + 1] else |f.table|) <= |f.table|
    ensures |row| == (if id + 1 < |f.rows| then f.rows[id + 1] else |f.table|) - f.rows[id]
  {
    var start := f.rows[id];
    var end := if id + 1 < |f.rows| then f.rows[id + 1] else Size(f, idxMax);
    f.table[start..end]
  }

  /** `index` on what `from_vec_vec(t)` built gives back row `i` of `t`. */
  lemma IndexFlattened<T>(t: seq<seq<T>>, i: nat, idxMax: nat)
    requires i < |t| && |Concat(t)| <= idxMax
    ensures var f := Flattened(t);
      f.rows[i] <= (if i + 1 < |f.rows| then f.rows[i + 1] else |f.table|) <= |f.table|
      && Index(f, i, idxMax) == t[i]
  {
    var f := Flattened(t);
    StartsNext(t, i);
    FlattenSplit(t, i);
    if i + 1 < |t| {
      StartsOrdered(t, i + 1, i + 1);
    }
    assert f.table[f.rows[i]..f.rows[i] + |t[i]|] == t[i];
  }

  /** Row starts of a built table are in order and within the table. */
  lemma RowsOrdered<T>(t: seq<seq<T>>, i: nat, j: nat)
    requires i <= j < |t|
    ensures var f := Flattened(t); f.rows[i] <= f.rows[j] <= |f.table|
  {
    StartsOrdered(t, i, j);
  }

  // ---------------------------------------------------------------------------
  // RectFlatTable

  /** Every row of `t` has `width` elements. */
  ghost predicate Rectangular<T>(t: seq<seq<T>>, width: nat)
  {
    forall i :: 0 <= i < |t| ==> |t[i]| == width
  }

  /** What `RectFlatTable::from_vec_vec(t)` builds: the width of row 0, 0 when there is none. */
  function RectFlattened<T>(t: seq<seq<T>>): RectFlatTable<T>
  {
    RectFlatTable(Concat(t), |t|, if |t| == 0 then 0 else |t[0]|)
  }

  /** `RectFlatTable::from_vec_vec`: the height is converted to `Idxx`, then every row is appended. */
  method RectFromVecVec<T>(t: seq<seq<T>>, idxMax: nat) returns (r: RectFlatTable<T>)
    requires |t| <= idxMax
    ensures r == RectFlattened(t)
  {
    var height := |t|;
    var width := if height == 0 then 0 else |t[0]|;
    var table: seq<T> := [];
    var k := 0;
    while k < |t|
      invariant 0 <= k <= |t|
      invariant table == Concat(t[..k])
    {
      FlattenSplit(t, k);
      table := table + t[k];
      k := k + 1;
    }
    assert t[..k] == t;
    r := RectFlatTable(table, height, width);
  }

  /** With rows of one width `w`, the flattened rows hold `|t| * w` elements. */
  lemma {:induction false} RectLength<T>(t: seq<seq<T>>, w: nat)
    requires Rectangular(t, w)
    ensures |Concat(t)| == |t| * w
    decreases |t|
  {
    if t != [] {
      var n := |t| - 1;
      var p := t[..n];
      RectPrefix(t, w, n);
      RectLength(p, w);
      assert |Concat(t)| == |Concat(p)| + |t[n]|;
      MulMono(n, n, w);
    }
  }

  /** A prefix of rows of one width has rows of that width. */
  lemma RectPrefix<T>(t: seq<seq<T>>, w: nat, n: nat)
    requires Rectangular(t, w) && n <= |t|
    ensures Rectangular(t[..n], w)
  {
    forall i | 0 <= i < n ensures |t[..n][i]| == w {
      assert t[..n][i] == t[i];
    }
  }

  /** The middle part of a three-way concatenation, sliced back out. */
  lemma SliceMiddle<T>(a: seq<T>, m: seq<T>, b: seq<T>)
    ensures (a + m + b)[|a|..|a| + |m|] == m
  {
    var c := a + m + b;
    forall k | 0 <= k < |m| ensures c[|a|..|a| + |m|][k] == m[k] {
      assert c[|a| + k] == m[k];
    }
  }

  /** `index` as intended: the `width` elements from `index * width`. */
  function RectIndex<T>(r: RectFlatTable<T>, index: nat): (row: seq<T>)
    requires (index + 1) * r.width <= |r.table|
    ensures |row| == r.width
  {
    r.table[index * r.width..(index + 1) * r.width]
  }

  /** Row `i` of a rectangular table, flattened, is `[i * w, (i + 1) * w)` of the flat table. */
  lemma RectIndexFlattened<T>(t: seq<seq<T>>, i: nat)
    requires i < |t| && Rectangular(t, |t[0]|)
    ensures (i + 1) * RectFlattened(t).width <= |RectFlattened(t).table|
    ensures RectIndex(RectFlattened(t), i) == t[i]
  {
    var w := |t[0]|;
    assert RectFlattened(t).width == w;
    FlattenSplit(t, i);
    RectPrefix(t, w, i);
    RectLength(t[..i], w);
    RectLength(t, w);
    MulMono(i + 1, |t|, w);
    MulMono(i, i, w);
    SliceMiddle(Concat(t[..i]), t[i], Concat(t[i + 1..]));
  }

  lemma MulMono(a: nat, b: nat, w: nat)
    requires a <= b
    ensures a * w <= b * w && (a + 1) * w == a * w + w
  {
  }

  /** `index` as written: the slice ends at `index * (width + 1)`. */
  function RectIndexAsWritten<T>(r: RectFlatTable<T>, index: nat): (row: seq<T>)
    requires index * (r.width + 1) <= |r.table|
    ensures |row| == index
  {
    r.table[index * r.width..index * (r.width + 1)]
  }

  /** The two agree exactly when `index == width`: the slice as written has `index` elements, not `width`. */
  lemma RectIndexAsWrittenLength<T>(r: RectFlatTable<T>, index: nat)
    requires index * (r.width + 1) <= |r.table| && (index + 1) * r.width <= |r.table|
    ensures RectIndexAsWritten(r, index) == RectIndex(r, index) <==> index == r.width
  {
    if index != r.width {
      assert |RectIndexAsWritten(r, index)| != |RectIndex(r, index)|;
    }
  }

  /** On the rows [[1, 2], [3, 4]], row 0 as written is empty and row 1 is [3]. */
  lemma RectIndexAsWrittenCounterexample()
    ensures RectFlattened([[1, 2], [3, 4]]) == RectFlatTable([1, 2, 3, 4], 2, 2)
    ensures RectIndexAsWritten(RectFlatTable([1, 2, 3, 4], 2, 2), 0) == []
    ensures RectIndexAsWritten(RectFlatTable([1, 2, 3, 4], 2, 2), 1) == [3]
    ensures RectIndex(RectFlatTable([1, 2, 3, 4], 2, 2), 0) == [1, 2]
    ensures RectIndex(RectFlatTable([1, 2, 3, 4], 2, 2), 1) == [3, 4]
  {
    var t: seq<seq<int>> := [[1, 2], [3, 4]];
    assert t[..1] == [[1, 2]] && t[..1][..0] == [];
    assert Concat(t[..1]) == [1, 2];
    assert [1, 2, 3, 4][2..3] == [3];
  }
}
