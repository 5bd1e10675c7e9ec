/**
 * The packed bit set of bitset.rs with `u8` words: a set over [0, size) whose
 * index `n` is the bit `7 - n % 8` (MSB-first) of word `n / 8`, the words kept
 * in the `Vec` of the `Table1D` storage.
 */
module BitSets {
  import opened Words
  import opened Wrappers

  class BitSet {
    var data: seq<bv8>
    const size: nat

    /** The table holds `nbr_used_uints() = (size + 7) / 8` words. */
    ghost predicate Valid()
      reads this
    {
      |data| == WordsFor(size) && size <= 8 * |data|
    }

    /** The indices below `size` whose bit is set. */
    ghost function Contents(): set<nat>
      reads this
      requires Valid()
    {
      Members(MsbFirst, data, size)
    }

    /** No bit at or beyond `size` is set. */
    ghost predicate TailClear()
      reads this
    {
      Words.TailClear(MsbFirst, data, size)
    }

    constructor NewFilled(value: bool, size: nat)
      ensures Valid() && this.size == size
      ensures data == Filled(value, WordsFor(size))
      ensures Contents() == if value then Universe(size) else {}
      ensures !value ==> TailClear()
    {
      this.size := size;
      data := Filled(value, WordsFor(size));
      new;
      WordsForBounds(size);
      FilledMembers(MsbFirst, value, WordsFor(size), size);
    }

    /** `new` asserts the table length; the `Vec` storage cannot report a size of zero. */
    constructor New(table: seq<bv8>, size: nat)
      requires |table| == WordsFor(size) && |table| >= 1
      ensures Valid() && this.size == size && data == table
    {
      this.size := size;
      data := table;
      new;
      WordsForBounds(size);
    }

    function Size(): (n: nat)
      reads this
      requires Valid()
      ensures forall i :: i in Contents() ==> i < n
    {
      size
    }

    function Contains(n: nat): (b: bool)
      reads this
      requires Valid() && n < size
      ensures b <==> n in Contents()
    {
      var uintIndex := n / 8;
      var positionInUint := n - 8 * uintIndex;
      MaskTest(MsbFirst, data[uintIndex], positionInUint);
      MaskOf(MsbFirst, positionInUint) & data[uintIndex] != 0
    }

    method Insert(n: nat)
      requires Valid() && n < size
      modifies this
      ensures Valid() && data == WithBit(MsbFirst, old(data), n)
      ensures Contents() == old(Contents()) + {n}
      ensures old(TailClear()) ==> TailClear()
    {
      WithBitMembers(MsbFirst, data, size, n);
      var uintIndex := n / 8;
      var positionInUint := n - 8 * uintIndex;
      var bitMask := MaskOf(MsbFirst, positionInUint);
      data := data[uintIndex := bitMask | data[uintIndex]];
    }

    /** `remove` with the mask negated, as in bitset_nul.rs. */
    method Remove(n: nat)
      requires Valid() && n < size
      modifies this
      ensures Valid() && data == WithoutBit(MsbFirst, old(data), n)
      ensures Contents() == old(Contents()) - {n}
      ensures old(TailClear()) ==> TailClear()
    {
      WithoutBitMembers(MsbFirst, data, size, n);
      var uintIndex := n / 8;
      var positionInUint := n - 8 * uintIndex;
      var bitMask := MaskOf(MsbFirst, positionInUint);
      data := data[uintIndex := !bitMask & data[uintIndex]];
    }

    /** `remove` as written: the word is and-ed with the mask itself. */
    method RemoveAsWritten(n: nat)
      requires Valid() && n < size
      modifies this
      ensures Valid() && data == KeepOnlyBit(old(data), n)
    {
      var uintIndex := n / 8;
      var positionInUint := n - 8 * uintIndex;
      var bitMask := MaskOf(MsbFirst, positionInUint);
      data := data[uintIndex := bitMask & data[uintIndex]];
    }

    /** `set_value` calling the corrected `remove`. */
    method SetValue(n: nat, value: bool)
      requires Valid() && n < size
      modifies this
      ensures Valid()
      ensures Contents() == if value then old(Contents()) + {n} else old(Contents()) - {n}
      ensures n < size && Contains(n) == value
      ensures old(TailClear()) ==> TailClear()
    {
      if value {
        Insert(n);
      } else {
        Remove(n);
      }
    }

    /** `set_value` as written: the false branch calls `remove` as written, so `n` keeps its bit. */
    method SetValueAsWritten(n: nat, value: bool)
      requires Valid() && n < size
      modifies this
      ensures Valid()
      ensures data == if value then WithBit(MsbFirst, old(data), n) else KeepOnlyBit(old(data), n)
      ensures n < size && Contains(n) == (value || old(Contains(n)))
    {
      if value {
        Insert(n);
      } else {
        ghost var before := data;
        RemoveAsWritten(n);
        RemoveAsWrittenKeeps(before, size, n);
      }
    }

    /** The loop shared by the four binary operations: word `i` of a fresh set is `op` of words `i`. */
    method Combine(op: Op, other: BitSet) returns (r: BitSet)
      requires Valid() && other.Valid() && size == other.size
      ensures fresh(r) && r.Valid() && r.size == size
      ensures r.data == Zip(op, data, other.data)
    {
      r := new BitSet.NewFilled(false, size);
      var i := 0;
      while i < |data|
        invariant 0 <= i <= |data| && |r.data| == |data| && r.size == size && r.Valid()
        invariant forall k :: 0 <= k < i ==> r.data[k] == Apply(op, data[k], other.data[k])
      {
        r.data := r.data[i := Apply(op, data[i], other.data[i])];
        i := i + 1;
      }
    }

    method Union(other: BitSet) returns (r: BitSet)
      requires Valid() && other.Valid() && size == other.size
      ensures fresh(r) && r.Valid() && r.size == size
      ensures r.Contents() == Contents() + other.Contents()
      ensures TailClear() && other.TailClear() ==> r.TailClear()
    {
      r := Combine(Or, other);
      ZipMembers(MsbFirst, Or, data, other.data, size);
      if TailClear() && other.TailClear() {
        ZipTailClear(MsbFirst, Or, data, other.data, size);
      }
    }

    method Intersection(other: BitSet) returns (r: BitSet)
      requires Valid() && other.Valid() && size == other.size
      ensures fresh(r) && r.Valid() && r.size == size
      ensures r.Contents() == Contents() * other.Contents()
      ensures TailClear() || other.TailClear() ==> r.TailClear()
    {
      r := Combine(And, other);
      ZipMembers(MsbFirst, And, data, other.data, size);
      if TailClear() || other.TailClear() {
        ZipTailClear(MsbFirst, And, data, other.data, size);
      }
    }

    method Difference(other: BitSet) returns (r: BitSet)
      requires Valid() && other.Valid() && size == other.size
      ensures fresh(r) && r.Valid() && r.size == size
      ensures r.Contents() == Contents() - other.Contents()
      ensures TailClear() ==> r.TailClear()
    {
      r := Combine(AndNot, other);
      ZipMembers(MsbFirst, AndNot, data, other.data, size);
      if TailClear() {
        ZipTailClear(MsbFirst, AndNot, data, other.data, size);
      }
    }

    method SymmetricDifference(other: BitSet) returns (r: BitSet)
      requires Valid() && other.Valid() && size == other.size
      ensures fresh(r) && r.Valid() && r.size == size
      ensures r.Contents() == (Contents() - other.Contents()) + (other.Contents() - Contents())
      ensures TailClear() && other.TailClear() ==> r.TailClear()
    {
      r := Combine(Xor, other);
      ZipMembers(MsbFirst, Xor, data, other.data, size);
      if TailClear() && other.TailClear() {
        ZipTailClear(MsbFirst, Xor, data, other.data, size);
      }
    }

    method Complement() returns (r: BitSet)
      requires Valid()
      ensures fresh(r) && r.Valid() && r.size == size
      ensures r.data == Complemented(data)
      ensures r.Contents() == Universe(size) - Contents()
    {
      r := new BitSet.NewFilled(false, size);
      var i := 0;
      while i < |data|
        invariant 0 <= i <= |data| && |r.data| == |data| && r.size == size && r.Valid()
        invariant forall k :: 0 <= k < i ==> r.data[k] == !data[k]
      {
        r.data := r.data[i := !data[i]];
        i := i + 1;
      }
      ComplementedMembers(MsbFirst, data, size);
    }

    /**
     * The loop shared by the four in-place operations. Word `i` is read from
     * both sets before it is written, so the result is the same when `other`
     * is this very set.
     */
    method UpdateCombine(op: Op, other: BitSet)
      requires Valid() && other.Valid() && size == other.size
      modifies this
      ensures Valid() && data == Zip(op, old(data), old(other.data))
    {
      ghost var a, b := data, other.data;
      var i := 0;
      while i < |data|
        invariant 0 <= i <= |data| && |data| == |a| && Valid()
        invariant other.Valid() && other.size == size
        invariant forall k :: 0 <= k < i ==> data[k] == Apply(op, a[k], b[k])
        invariant forall k :: i <= k < |data| ==> data[k] == a[k] && other.data[k] == b[k]
      {
        data := data[i := Apply(op, data[i], other.data[i])];
        i := i + 1;
      }
    }

    method UpdateUnion(other: BitSet)
      requires Valid() && other.Valid() && size == other.size
      modifies this
      ensures Valid() && Contents() == old(Contents()) + old(other.Contents())
      ensures old(TailClear()) && old(other.TailClear()) ==> TailClear()
    {
      ZipMembers(MsbFirst, Or, data, other.data, size);
      if TailClear() && other.TailClear() {
        ZipTailClear(MsbFirst, Or, data, other.data, size);
      }
      UpdateCombine(Or, other);
    }

    method UpdateIntersection(other: BitSet)
      requires Valid() && other.Valid() && size == other.size
      modifies this
      ensures Valid() && Contents() == old(Contents()) * old(other.Contents())
      ensures old(TailClear()) || old(other.TailClear()) ==> TailClear()
    {
      ZipMembers(MsbFirst, And, data, other.data, size);
      if TailClear() || other.TailClear() {
        ZipTailClear(MsbFirst, And, data, other.data, size);
      }
      UpdateCombine(And, other);
    }

    method UpdateDifference(other: BitSet)
      requires Valid() && other.Valid() && size == other.size
      modifies this
      ensures Valid() && Contents() == old(Contents()) - old(other.Contents())
      ensures old(TailClear()) ==> TailClear()
    {
      ZipMembers(MsbFirst, AndNot, data, other.data, size);
      if TailClear() {
        ZipTailClear(MsbFirst, AndNot, data, other.data, size);
      }
      UpdateCombine(AndNot, other);
    }

    method UpdateSymmetricDifference(other: BitSet)
      requires Valid() && other.Valid() && size == other.size
      modifies this
      ensures Valid()
      ensures Contents() == (old(Contents()) - old(other.Contents())) + (old(other.Contents()) - old(Contents()))
      ensures old(TailClear()) && old(other.TailClear()) ==> TailClear()
    {
      ZipMembers(MsbFirst, Xor, data, other.data, size);
      if TailClear() && other.TailClear() {
        ZipTailClear(MsbFirst, Xor, data, other.data, size);
      }
      UpdateCombine(Xor, other);
    }

    method UpdateComplement()
      requires Valid()
      modifies this
      ensures Valid() && data == Complemented(old(data))
      ensures Contents() == Universe(size) - old(Contents())
    {
      ghost var a := data;
      var i := 0;
      while i < |data|
        invariant 0 <= i <= |data| && |data| == |a| && Valid()
        invariant forall k :: 0 <= k < i ==> data[k] == !a[k]
        invariant forall k :: i <= k < |data| ==> data[k] == a[k]
      {
        data := data[i := !data[i]];
        i := i + 1;
      }
      ComplementedMembers(MsbFirst, a, size);
    }

    /** `clear` walks `nbr_uints()`, which the `Vec` storage cannot report as zero. */
    method Clear()
      requires Valid() && |data| >= 1
      modifies this
      ensures Valid() && data == Filled(false, |old(data)|)
      ensures Contents() == {} && TailClear()
    {
      var i := 0;
      while i < |data|
        invariant 0 <= i <= |data| && Valid()
        invariant forall k :: 0 <= k < i ==> data[k] == 0x00
      {
        data := data[i := 0x00];
        i := i + 1;
      }
      FilledMembers(MsbFirst, false, |data|, size);
    }

    /** `fill` sets every bit of every word, the tail bits included. */
    method Fill()
      requires Valid() && |data| >= 1
      modifies this
      ensures Valid() && data == Filled(true, |old(data)|)
      ensures Contents() == Universe(size)
    {
      var i := 0;
      while i < |data|
        invariant 0 <= i <= |data| && Valid()
        invariant forall k :: 0 <= k < i ==> data[k] == 0xFF
      {
        data := data[i := 0xFF];
        i := i + 1;
      }
      FilledMembers(MsbFirst, true, |data|, size);
    }

    /** `len` adds up `count_ones` of every used word, so it counts set tail bits too. */
    method Len() returns (n: nat)
      requires Valid()
      ensures n == CountOnes(data)
      ensures TailClear() ==> n == |Contents()|
    {
      n := 0;
      var i := 0;
      while i < |data|
        invariant 0 <= i <= |data|
        invariant n == CountOnes(data[..i])
      {
        CountOnesPrefix(data, i + 1);
        n := n + PopCount(data[i]);
        i := i + 1;
      }
      assert data[..i] == data;
      if TailClear() {
        CountOnesIsCardinality(MsbFirst, data, size);
      }
    }

    method IsEmpty() returns (b: bool)
      requires Valid()
      ensures b <==> AllZero(data)
      ensures b ==> Contents() == {}
      ensures TailClear() && Contents() == {} ==> b
    {
      var i := 0;
      while i < |data|
        invariant 0 <= i <= |data|
        invariant forall k :: 0 <= k < i ==> data[k] == 0
      {
        if data[i] > 0 {
          NotEmpty(MsbFirst, data, size, i);
          return false;
        }
        i := i + 1;
      }
      AllZeroMembers(MsbFirst, data, size);
      return true;
    }

    method IsDisjoint(other: BitSet) returns (b: bool)
      requires Valid() && other.Valid() && size == other.size
      ensures b <==> ZipZero(And, data, other.data)
      ensures b ==> Contents() * other.Contents() == {}
      ensures (TailClear() || other.TailClear()) && Contents() * other.Contents() == {} ==> b
    {
      var i := 0;
      while i < |data|
        invariant 0 <= i <= |data|
        invariant forall k :: 0 <= k < i ==> data[k] & other.data[k] == 0
      {
        if data[i] & other.data[i] > 0 {
          NotDisjoint(MsbFirst, data, other.data, size, i);
          return false;
        }
        i := i + 1;
      }
      DisjointMembers(MsbFirst, data, other.data, size);
      return true;
    }

    /** `is_subset` scans `nbr_uints()` words of both sets and checks no size. */
    method IsSubset(other: BitSet) returns (b: bool)
      requires Valid() && other.Valid()
      requires 1 <= |data| <= |other.data|
      ensures b <==> ZipZero(AndNot, data, other.data)
      ensures b && size <= other.size ==> Contents() <= other.Contents()
      ensures TailClear() && size <= other.size && Contents() <= other.Contents() ==> b
    {
      var i := 0;
      while i < |data|
        invariant 0 <= i <= |data|
        invariant forall k :: 0 <= k < i ==> data[k] & !other.data[k] == 0
      {
        if data[i] & !other.data[i] > 0 {
          NotSubset(MsbFirst, data, other.data, size, other.size, i);
          return false;
        }
        i := i + 1;
      }
      if size <= other.size {
        SubsetMembers(MsbFirst, data, other.data, size, other.size);
      }
      return true;
    }

    /** `is_superset` tests `!self & other` over `nbr_uints()` words of both sets. */
    method IsSuperset(other: BitSet) returns (b: bool)
      requires Valid() && other.Valid()
      requires 1 <= |data| <= |other.data|
      ensures b <==> forall k :: 0 <= k < |data| ==> Apply(AndNot, other.data[k], data[k]) == 0
      ensures b && other.size <= size ==> other.Contents() <= Contents()
      ensures other.TailClear() && other.size <= size && other.Contents() <= Contents() ==> b
    {
      var i := 0;
      while i < |data|
        invariant 0 <= i <= |data|
        invariant forall k :: 0 <= k < i ==> Apply(AndNot, other.data[k], data[k]) == 0
      {
        if !data[i] & other.data[i] > 0 {
          assert Apply(AndNot, other.data[i], data[i]) != 0;
          if other.size <= size {
            NotSubset(MsbFirst, other.data, data, other.size, size, i);
          }
          return false;
        }
        assert Apply(AndNot, other.data[i], data[i]) == 0;
        i := i + 1;
      }
      if other.size <= size {
        SubsetMembers(MsbFirst, other.data, data, other.size, size);
      }
      return true;
    }

    method Clone() returns (r: BitSet)
      requires Valid()
      ensures fresh(r) && r.Valid() && r.size == size && r.data == data
      ensures r.Contents() == Contents()
    {
      r := new BitSet.NewFilled(false, size);
      var i := 0;
      while i < |data|
        invariant 0 <= i <= |data| && |r.data| == |data| && r.size == size && r.Valid()
        invariant forall k :: 0 <= k < i ==> r.data[k] == data[k]
      {
        r.data := r.data[i := data[i]];
        i := i + 1;
      }
    }

    /**
     * `concatenate` as intended: the words of this set, then every word of
     * `other` split around the `size % 8` bits used in this set's last word.
     */
    method Concatenate(other: BitSet) returns (r: BitSet)
      requires Valid() && other.Valid()
      ensures fresh(r) && r.Valid() && r.size == size + other.size
      ensures r.data == Concatenated(data, size, other.data, other.size)
      ensures TailClear() ==> r.Contents() == Contents() + Shifted(other.Contents(), size)
    {
      WordsForSum(size, other.size);
      r := new BitSet.NewFilled(false, size + other.size);
      r.CopyWords(data);
      r.AppendRest(data, size, other.data, other.size);
      if TailClear() {
        ConcatenatedMembers(data, size, other.data, other.size);
      }
    }

    /** The first loop of `concatenate`: the words of `a` copied into a set of zero words. */
    method CopyWords(a: seq<bv8>)
      requires Valid() && |a| <= |data| && AllZero(data)
      modifies this
      ensures Valid() && |data| == old(|data|)
      ensures forall q :: 0 <= q < |a| ==> data[q] == a[q]
      ensures forall q :: |a| <= q < |data| ==> data[q] == 0
    {
      var i := 0;
      while i < |a|
        invariant 0 <= i <= |a| && Valid() && |data| == old(|data|)
        invariant forall q :: 0 <= q < i ==> data[q] == a[q]
        invariant forall q :: i <= q < |data| ==> data[q] == 0
      {
        data := data[i := a[i]];
        i := i + 1;
      }
    }

    /**
     * The rest of `concatenate`, after the words of `a` (size `m`): with
     * `right = 8 * nu - m` unused bits in `a`'s last word, `b` is copied whole
     * when there are none, and split otherwise.
     */
    method AppendRest(a: seq<bv8>, m: nat, b: seq<bv8>, n: nat)
      requires |a| == WordsFor(m) && |b| == WordsFor(n)
      requires Valid() && size == m + n
      requires forall q :: 0 <= q < |a| ==> data[q] == a[q]
      requires forall q :: |a| <= q < |data| ==> data[q] == 0
      modifies this
      ensures Valid() && data == Concatenated(a, m, b, n)
    {
      WordsForBounds(m);
      var right := 8 * |a| - m;
      var left := 8 - right;
      if right == 0 {
        AppendWhole(a, m, b, n);
      } else if |b| > 0 {
        AppendSplit(a, m, b, n, right, left);
      } else {
        ConcatenatedEmpty(a, m, b, n);
        assert data == a;
      }
    }

    /**
     * `concatenate` as written. Its shift `>> left` overflows when `size` is a
     * multiple of 8 (`left` is then 8), which panics in a build with overflow
     * checks; `other.nbr_used_uints() - 1` underflows when `other` has no
     * words, which ends in an index panic in any build. Neither is allowed.
     * Every step of the split loop reads word `nu - 1` rather than the word it
     * overwrites, and the last bits of `other`'s last word are never written.
     */
    method ConcatenateAsWritten(other: BitSet) returns (r: BitSet)
      requires Valid() && other.Valid() && size % 8 != 0 && |other.data| > 0
      ensures fresh(r) && r.Valid() && r.size == size + other.size
      ensures r.data == ConcatenatedAsWritten(data, size, other.data, other.size)
    {
      WordsForSum(size, other.size);
      WordsForBounds(size);
      r := new BitSet.NewFilled(false, size + other.size);
      r.CopyWords(data);
      assert r.data == AsWrittenStart(data, size, other.size);
      r.SplitAsWritten(data, size, other.data, other.size);
    }

    /** The split loop of `concatenate` and its last step, as written. */
    method SplitAsWritten(a: seq<bv8>, m: nat, b: seq<bv8>, n: nat)
      requires |a| == WordsFor(m) && |b| == WordsFor(n) && m % 8 != 0 && |b| > 0
      requires Valid() && size == m + n && data == AsWrittenStart(a, m, n)
      modifies this
      ensures Valid() && data == ConcatenatedAsWritten(a, m, b, n)
    {
      data := SplitWordsAsWritten(a, m, b, n, data);
    }

    /** The words of `concatenate` as written, from the words `start` before its split loop. */
    static method SplitWordsAsWritten(a: seq<bv8>, m: nat, b: seq<bv8>, n: nat, start: seq<bv8>)
      returns (ws: seq<bv8>)
      requires |a| == WordsFor(m) && |b| == WordsFor(n) && m % 8 != 0 && |b| > 0
      requires start == AsWrittenStart(a, m, n)
      ensures ws == ConcatenatedAsWritten(a, m, b, n)
    {
      WordsForSum(m, n);
      WordsForBounds(m);
      var nu, nb := |a|, |b|;
      var right := 8 * nu - m;
      var left := 8 - right;
      var loop := SplitLoopAsWritten(start, nu, b, right, left);
      ConcatenatedAsWrittenLast(a, m, b, n, loop);
      ws := loop[nu + nb - 2 := loop[nu + nb - 2] | Shr(b[nb - 1], left)];
    }

    /** The `nbr_used_uints() - 1` first steps of the split loop, as written. */
    static method SplitLoopAsWritten(ws: seq<bv8>, nu: nat, b: seq<bv8>, right: nat, left: nat)
      returns (r: seq<bv8>)
      requires 1 <= nu && 1 <= |b| && nu + |b| - 1 <= |ws| && right <= 8 && left <= 8
      ensures r == AsWrittenLoop(ws, nu, b, right, left, |b| - 1)
    {
      r := ws;
      var k := 0;
      while k < |b| - 1
        invariant 0 <= k <= |b| - 1 && |r| == |ws|
        invariant r == AsWrittenLoop(ws, nu, b, right, left, k)
      {
        AsWrittenLoopStep(ws, nu, b, right, left, k);
        r := r[nu + k - 1 := r[nu - 1] | Shr(b[k], left)];
        r := r[nu + k := Shl(b[k], right)];
        k := k + 1;
      }
    }

    /** The words of `b` after those of `a` when `a` fills its last word. */
    method AppendWhole(a: seq<bv8>, m: nat, b: seq<bv8>, n: nat)
      requires |a| == WordsFor(m) && |b| == WordsFor(n) && m % 8 == 0
      requires Valid() && size == m + n
      requires forall q :: 0 <= q < |a| ==> data[q] == a[q]
      modifies this
      ensures Valid() && data == Concatenated(a, m, b, n)
    {
      WordsForSum(m, n);
      ghost var target := Concatenated(a, m, b, n);
      forall q | 0 <= q < |a| ensures target[q] == a[q] {
        KeptWordOfA(a, m, b, n, q);
      }
      var nu, nb := |a|, |b|;
      var k := 0;
      while k < nb
        invariant 0 <= k <= nb && Valid() && size == m + n
        invariant forall q :: 0 <= q < nu + k ==> data[q] == target[q]
      {
        WholeWordOfB(a, m, b, n, k);
        data := data[nu + k := b[k]];
        k := k + 1;
      }
    }

    /** The split part of `concatenate`, against the words of `Concatenated`. */
    method AppendSplit(a: seq<bv8>, m: nat, b: seq<bv8>, n: nat, right: nat, left: nat)
      requires |a| == WordsFor(m) && |b| == WordsFor(n) && m % 8 != 0 && |b| > 0
      requires left == m % 8 && right == 8 - left
      requires Valid() && size == m + n
      requires forall q :: 0 <= q < |a| ==> data[q] == a[q]
      requires forall q :: |a| <= q < |data| ==> data[q] == 0
      modifies this
      ensures Valid() && data == Concatenated(a, m, b, n)
    {
      ghost var target := Concatenated(a, m, b, n);
      ConcatenatedSplits(a, m, b, n, right, left);
      SplitInto(a, b, right, left, target);
    }

    /**
     * The split loop of `concatenate` with the word written at step `k` taken
     * from word `nu - 1 + k`, followed by the last word of `b` moved up.
     */
    method SplitInto(a: seq<bv8>, b: seq<bv8>, right: nat, left: nat, ghost target: seq<bv8>)
      requires SplitTarget(a, b, right, left, target) && |data| == |target|
      requires forall q :: 0 <= q < |a| ==> data[q] == a[q]
      requires forall q :: |a| <= q < |data| ==> data[q] == 0
      modifies this
      ensures data == target
    {
      var nu, nb := |a|, |b|;
      var k := 0;
      while k < nb - 1
        invariant 0 <= k <= nb - 1 && |data| == |target|
        invariant forall q :: 0 <= q < nu - 1 + k ==> data[q] == target[q]
        invariant data[nu - 1 + k] == OpenWord(a, b, right, k)
        invariant forall q :: nu + k <= q < |data| ==> data[q] == 0
      {
        SplitStep(a, b, right, left, k, target);
        k := k + 1;
      }
      assert target[nu + nb - 2] == Closed(a, b, right, left, nb - 1);
      data := data[nu + nb - 2 := data[nu + nb - 2] | Shr(b[nb - 1], left)];
      if nu + nb - 1 < |data| {
        data := data[nu + nb - 1 := Shl(b[nb - 1], right)];
      }
    }

    /** Step `k` of the split loop: word `nu - 1 + k` is closed, word `nu + k` opened. */
    method SplitStep(a: seq<bv8>, b: seq<bv8>, right: nat, left: nat, k: nat, ghost target: seq<bv8>)
      requires SplitTarget(a, b, right, left, target) && |data| == |target| && k + 1 < |b|
      requires forall q :: 0 <= q < |a| - 1 + k ==> data[q] == target[q]
      requires data[|a| - 1 + k] == OpenWord(a, b, right, k)
      requires forall q :: |a| + k <= q < |data| ==> data[q] == 0
      modifies this
      ensures |data| == |target|
      ensures forall q :: 0 <= q < |a| + k ==> data[q] == target[q]
      ensures data[|a| + k] == OpenWord(a, b, right, k + 1)
      ensures forall q :: |a| + k + 1 <= q < |data| ==> data[q] == 0
    {
      var nu := |a|;
      assert target[nu - 1 + k] == Closed(a, b, right, left, k);
      data := data[nu - 1 + k := data[nu - 1 + k] | Shr(b[k], left)];
      data := data[nu + k := Shl(b[k], right)];
    }
  }

  /** The words after `remove(n)` as written: the word of `n` keeps only the bit of `n`. */
  function KeepOnlyBit(ws: seq<bv8>, n: nat): (r: seq<bv8>)
    requires n < 8 * |ws|
    ensures |r| == |ws|
  {
    ws[n / 8 := MaskOf(MsbFirst, n % 8) & ws[n / 8]]
  }

  /** `remove(n)` as written never takes `n` out: the bit of `n` survives the mask. */
  lemma RemoveAsWrittenKeeps(ws: seq<bv8>, size: nat, n: nat)
    requires n < size <= 8 * |ws|
    ensures n in Members(MsbFirst, KeepOnlyBit(ws, n), size) <==> n in Members(MsbFirst, ws, size)
  {
    var j := n / 8;
    KeptBitOf(ws[j], KeepOnlyBit(ws, n)[j], n % 8);
  }

  lemma KeptBitOf(w: bv8, x: bv8, p: nat)
    requires p < 8 && x == MaskOf(MsbFirst, p) & w
    ensures Bit(MsbFirst, x, p) == Bit(MsbFirst, w, p)
  {
    MaskKeep(MsbFirst, w, p, p);
  }

  /** On the set {0, 1} of size 2, `remove(0)` as written leaves {0}; the intended result is {1}. */
  lemma RemoveAsWrittenCounterexample()
    ensures Members(MsbFirst, [0xC0], 2) == {0, 1}
    ensures Members(MsbFirst, KeepOnlyBit([0xC0], 0), 2) == {0}
    ensures Members(MsbFirst, WithoutBit(MsbFirst, [0xC0], 0), 2) == {1}
  {
    var ws: seq<bv8> := [0xC0];
    assert BitAt(MsbFirst, ws, 0) && BitAt(MsbFirst, ws, 1);
    assert KeepOnlyBit(ws, 0) == [0x80];
    assert BitAt(MsbFirst, [0x80], 0) && !BitAt(MsbFirst, [0x80], 1);
    assert WithoutBit(MsbFirst, ws, 0) == [0x40];
    assert !BitAt(MsbFirst, [0x40], 0) && BitAt(MsbFirst, [0x40], 1);
  }

  // ---------------------------------------------------------------------------
  // Concatenation

  lemma WordsForSum(m: nat, n: nat)
    ensures WordsFor(m + n) <= WordsFor(m) + WordsFor(n) <= WordsFor(m + n) + 1
    ensures m % 8 == 0 ==> WordsFor(m + n) == WordsFor(m) + WordsFor(n)
    ensures m % 8 != 0 && n > 0 ==> WordsFor(m) + WordsFor(n) - 1 <= WordsFor(m + n)
  {
  }

  /**
   * Word `q` of the concatenation of `a` (size `m`) and `b`: with `u = m % 8`
   * bits used in the last word of `a`, every word of `b` is split, its first
   * `8 - u` bits closing the previous word and its last `u` bits opening the next.
   */
  function ConcatWord(a: seq<bv8>, m: nat, b: seq<bv8>, q: nat): bv8
    requires |a| == WordsFor(m) && q < |a| + |b|
  {
    var u := m % 8;
    if q < |a| && (u == 0 || q + 1 < |a|) then a[q]
    else if u == 0 then b[q - |a|]
    else if q + 1 == |a| then a[q] | (if |b| > 0 then Shr(b[0], u) else 0)
    else Shl(b[q - |a|], 8 - u) | (if q - |a| + 1 < |b| then Shr(b[q - |a| + 1], u) else 0)
  }

  /** The words of `concatenate` as intended. */
  function Concatenated(a: seq<bv8>, m: nat, b: seq<bv8>, n: nat): (r: seq<bv8>)
    requires |a| == WordsFor(m) && |b| == WordsFor(n)
    ensures |r| == WordsFor(m + n)
  {
    WordsForSum(m, n);
    seq(WordsFor(m + n), q requires 0 <= q < WordsFor(m + n) => ConcatWord(a, m, b, q))
  }

  /** The words of `concatenate` before its split loop: those of `a`, then zero words. */
  function AsWrittenStart(a: seq<bv8>, m: nat, n: nat): (ws: seq<bv8>)
    requires |a| == WordsFor(m)
    ensures |ws| == WordsFor(m + n) && ws[..|a|] == a
  {
    WordsForSum(m, n);
    a + Filled(false, WordsFor(m + n) - |a|)
  }

  /** The first `k` steps of the split loop as written: step `j` reads word `nu - 1`. */
  function AsWrittenLoop(ws: seq<bv8>, nu: nat, b: seq<bv8>, right: nat, left: nat, k: nat): (r: seq<bv8>)
    requires 1 <= nu && k <= |b| && nu + k <= |ws| && right <= 8 && left <= 8
    ensures |r| == |ws|
  {
    if k == 0 then ws
    else
      var w := AsWrittenLoop(ws, nu, b, right, left, k - 1);
      w[nu + k - 2 := w[nu - 1] | Shr(b[k - 1], left)][nu + k - 1 := Shl(b[k - 1], right)]
  }

  lemma AsWrittenLoopStep(ws: seq<bv8>, nu: nat, b: seq<bv8>, right: nat, left: nat, k: nat)
    requires 1 <= nu && k < |b| && nu + k + 1 <= |ws| && right <= 8 && left <= 8
    ensures var w := AsWrittenLoop(ws, nu, b, right, left, k);
      AsWrittenLoop(ws, nu, b, right, left, k + 1)
      == w[nu + k - 1 := w[nu - 1] | Shr(b[k], left)][nu + k := Shl(b[k], right)]
  {
  }

  /** `ConcatenatedAsWritten` is the last step of `concatenate` applied to the words its split loop leaves. */
  lemma ConcatenatedAsWrittenLast(a: seq<bv8>, m: nat, b: seq<bv8>, n: nat, loop: seq<bv8>)
    requires |a| == WordsFor(m) && |b| == WordsFor(n) && m % 8 != 0 && |b| > 0
    requires 1 <= |a| && 8 * |a| - m <= 8
    requires loop == AsWrittenLoop(AsWrittenStart(a, m, n), |a|, b, 8 * |a| - m, 8 - (8 * |a| - m), |b| - 1)
    ensures |loop| == WordsFor(m + n) && |a| + |b| - 2 < |loop|
    ensures ConcatenatedAsWritten(a, m, b, n)
      == loop[|a| + |b| - 2 := loop[|a| + |b| - 2] | Shr(b[|b| - 1], 8 - (8 * |a| - m))]
  {
    WordsForSum(m, n);
    WordsForBounds(m);
  }

  /** The words `concatenate` produces as written. */
  function ConcatenatedAsWritten(a: seq<bv8>, m: nat, b: seq<bv8>, n: nat): (r: seq<bv8>)
    requires |a| == WordsFor(m) && |b| == WordsFor(n) && m % 8 != 0 && |b| > 0
    ensures |r| == WordsFor(m + n)
  {
    WordsForSum(m, n);
    WordsForBounds(m);
    var nu, nb := |a|, |b|;
    var right := 8 * nu - m;
    var ws := AsWrittenLoop(AsWrittenStart(a, m, n), nu, b, right, 8 - right, nb - 1);
    ws[nu + nb - 2 := ws[nu + nb - 2] | Shr(b[nb - 1], 8 - right)]
  }

  /**
   * Concatenating {} of size 4 and {7} of size 8: as written the result has
   * no member, because the word that should hold index 11 is never written;
   * the intended result is {11}.
   */
  lemma ConcatenateAsWrittenDropsLastWord()
    ensures ConcatenatedAsWritten([0x00], 4, [0x01], 8) == [0x00, 0x00]
    ensures Concatenated([0x00], 4, [0x01], 8) == [0x00, 0x10]
    ensures 7 in Members(MsbFirst, [0x01], 8)
    ensures 11 !in Members(MsbFirst, [0x00, 0x00], 12)
    ensures 11 in Members(MsbFirst, [0x00, 0x10], 12)
  {
    var b: seq<bv8> := [0x01];
    assert AsWrittenStart([0x00], 4, 8) == [0x00, 0x00];
    assert Shr(0x01, 4) == 0x00 && Shl(0x01, 4) == 0x10;
    var r := Concatenated([0x00], 4, b, 8);
    assert r[0] == ConcatWord([0x00], 4, b, 0) == 0x00;
    assert r[1] == ConcatWord([0x00], 4, b, 1) == 0x10;
    assert BitAt(MsbFirst, b, 7);
    assert !BitAt(MsbFirst, [0x00, 0x00], 11);
    assert BitAt(MsbFirst, [0x00, 0x10], 11);
  }

  /**
   * Concatenating {0} of size 4 and {} of size 24: as written the second step
   * of the split loop copies word 0 into word 1, adding index 8; the intended
   * result is {0}.
   */
  lemma ConcatenateAsWrittenRereadsFirstWord()
    ensures ConcatenatedAsWritten([0x80], 4, [0x00, 0x00, 0x00], 24) == [0x80, 0x80, 0x00, 0x00]
    ensures Concatenated([0x80], 4, [0x00, 0x00, 0x00], 24) == [0x80, 0x00, 0x00, 0x00]
    ensures 8 !in Members(MsbFirst, [0x00, 0x00, 0x00], 24)
    ensures 8 in Members(MsbFirst, [0x80, 0x80, 0x00, 0x00], 28)
    ensures 8 !in Members(MsbFirst, [0x80, 0x00, 0x00, 0x00], 28)
  {
    var a: seq<bv8> := [0x80];
    var b: seq<bv8> := [0x00, 0x00, 0x00];
    var start := AsWrittenStart(a, 4, 24);
    assert start == [0x80, 0x00, 0x00, 0x00];
    assert Shr(0x00, 4) == 0x00 && Shl(0x00, 4) == 0x00;
    assert AsWrittenLoop(start, 1, b, 4, 4, 1) == [0x80, 0x00, 0x00, 0x00];
    assert AsWrittenLoop(start, 1, b, 4, 4, 2) == [0x80, 0x80, 0x00, 0x00];
    var r := Concatenated(a, 4, b, 24);
    assert r[0] == ConcatWord(a, 4, b, 0) == 0x80;
    assert r[1] == ConcatWord(a, 4, b, 1) == 0x00;
    assert r[2] == ConcatWord(a, 4, b, 2) == 0x00;
    assert r[3] == ConcatWord(a, 4, b, 3) == 0x00;
    assert !BitAt(MsbFirst, b, 8);
    assert BitAt(MsbFirst, [0x80, 0x80, 0x00, 0x00], 8);
    assert !BitAt(MsbFirst, [0x80, 0x00, 0x00, 0x00], 8);
  }

  /** The indices of `s` moved up by `m`. */
  ghost function Shifted(s: set<nat>, m: nat): set<nat>
  {
    set j | j in s :: j + m
  }

  lemma ShiftedMember(s: set<nat>, m: nat, i: nat)
    ensures i in Shifted(s, m) <==> i >= m && i - m in s
  {
    if i >= m && i - m in s {
      assert (i - m) + m in Shifted(s, m);
    }
  }

  lemma ConcatBitAligned(a: seq<bv8>, m: nat, b: seq<bv8>, n: nat, i: nat)
    requires |a| == WordsFor(m) && |b| == WordsFor(n) && m % 8 == 0 && i < m + n
    ensures i < m ==> BitAt(MsbFirst, Concatenated(a, m, b, n), i) == BitAt(MsbFirst, a, i)
    ensures i >= m ==> BitAt(MsbFirst, Concatenated(a, m, b, n), i) == BitAt(MsbFirst, b, i - m)
  {
    WordsForSum(m, n);
    WordsForBounds(m);
    WordsForBounds(n);
    WordsForBounds(m + n);
    var q, p := i / 8, i % 8;
    IndexOf(q, p);
    if i >= m {
      IndexOf(q - |a|, p);
      assert i - m == 8 * (q - |a|) + p;
    }
  }

  /** The last word of `a` with the first bits of `b`'s first word moved in after its `u` used bits. */
  lemma CloseWordBit(w: bv8, y: bv8, u: nat, p: nat)
    requires 0 < u < 8 && p < 8
    ensures Bit(MsbFirst, w | Shr(y, u), p) == (Bit(MsbFirst, w, p) || (p >= u && Bit(MsbFirst, y, p - u)))
  {
    OrBit(MsbFirst, w, Shr(y, u), p);
    ShrFnBit(y, u, p);
  }

  /** A word of `b` moved up by `s = 8 - u` positions, and the next word's first bits after it. */
  lemma SplitWordBit(x: bv8, y: bv8, u: nat, s: nat, p: nat)
    requires 0 < u < 8 && s == 8 - u && p < 8
    ensures Bit(MsbFirst, Shl(x, s) | Shr(y, u), p)
            == if p < u then Bit(MsbFirst, x, p + s) else Bit(MsbFirst, y, p - u)
  {
    OrBit(MsbFirst, Shl(x, s), Shr(y, u), p);
    ShlFnBit(x, s, p);
    ShrFnBit(y, u, p);
  }

  lemma LastWordBit(x: bv8, u: nat, s: nat, p: nat)
    requires 0 < u < 8 && s == 8 - u && p < 8
    ensures Bit(MsbFirst, Shl(x, s) | 0, p) == (p < u && Bit(MsbFirst, x, p + s))
  {
    OrBit(MsbFirst, Shl(x, s), 0, p);
    ShlFnBit(x, s, p);
    ZeroBit(MsbFirst, p);
  }

  lemma ConcatBitLastOfA(a: seq<bv8>, m: nat, b: seq<bv8>, n: nat, i: nat)
    requires |a| == WordsFor(m) && |b| == WordsFor(n) && m % 8 != 0 && i < m + n
    requires i / 8 + 1 == |a| && TailClear(MsbFirst, a, m)
    ensures i < m ==> BitAt(MsbFirst, Concatenated(a, m, b, n), i) == BitAt(MsbFirst, a, i)
    ensures i >= m ==> BitAt(MsbFirst, Concatenated(a, m, b, n), i) == BitAt(MsbFirst, b, i - m)
  {
    WordsForSum(m, n);
    WordsForBounds(m);
    var r := Concatenated(a, m, b, n);
    var u, q, p := m % 8, i / 8, i % 8;
    assert m == 8 * q + u && i == 8 * q + p;
    assert r[q] == ConcatWord(a, m, b, q);
    if |b| > 0 {
      var w, y := a[q], b[0];
      assert ConcatWord(a, m, b, q) == w | Shr(y, u);
      CloseWordBit(w, y, u, p);
      if i >= m {
        IndexOf(0, p - u);
        assert !BitAt(MsbFirst, a, i);
      }
    } else {
      var w := a[q];
      assert ConcatWord(a, m, b, q) == w | 0;
      OrBit(MsbFirst, w, 0, p);
      ZeroBit(MsbFirst, p);
    }
  }

  /** Nothing to append: the intended words are those of `a`. */
  lemma ConcatenatedEmpty(a: seq<bv8>, m: nat, b: seq<bv8>, n: nat)
    requires |a| == WordsFor(m) && |b| == WordsFor(n) && |b| == 0
    ensures Concatenated(a, m, b, n) == a
  {
    WordsForSum(m, n);
    var r := Concatenated(a, m, b, n);
    forall q | 0 <= q < |a| ensures r[q] == a[q] {
      assert r[q] == ConcatWord(a, m, b, q);
      assert a[q] | 0 == a[q];
    }
  }

  /** Word `q >= |a|` of the concatenation, as the two words of `b` it is made of. */
  lemma ConcatWordOfB(a: seq<bv8>, m: nat, b: seq<bv8>, n: nat, q: nat)
    requires |a| == WordsFor(m) && |b| == WordsFor(n) && m % 8 != 0 && |a| <= q < WordsFor(m + n)
    ensures q - |a| < |b|
    ensures Concatenated(a, m, b, n)[q]
            == Shl(b[q - |a|], 8 - m % 8) | (if q - |a| + 1 < |b| then Shr(b[q - |a| + 1], m % 8) else 0)
  {
    WordsForSum(m, n);
    assert Concatenated(a, m, b, n)[q] == ConcatWord(a, m, b, q);
  }

  /** Position `p` of a word made from a word `x` of `b` and the first bits of the next word `y`, if any. */
  lemma SplitWordOf(x: bv8, y: bv8, last: bool, u: nat, s: nat, p: nat, w: bv8)
    requires 0 < u < 8 && s == 8 - u && p < 8
    requires w == Shl(x, s) | (if last then 0 else Shr(y, u))
    ensures p < u ==> Bit(MsbFirst, w, p) == Bit(MsbFirst, x, p + s)
    ensures p >= u ==> Bit(MsbFirst, w, p) == (!last && Bit(MsbFirst, y, p - u))
  {
    if last {
      LastWordBit(x, u, s, p);
    } else {
      SplitWordBit(x, y, u, s, p);
    }
  }

  lemma ConcatBitOfB(a: seq<bv8>, m: nat, b: seq<bv8>, n: nat, q: nat, p: nat)
    requires |a| == WordsFor(m) && |b| == WordsFor(n) && m % 8 != 0 && p < 8
    requires |a| <= q && 8 * q + p < m + n
    ensures BitAt(MsbFirst, Concatenated(a, m, b, n), 8 * q + p) == BitAt(MsbFirst, b, 8 * q + p - m)
  {
    WordsForSum(m, n);
    var u, k := m % 8, q - |a|;
    ConcatWordOfB(a, m, b, n, q);
    var r := Concatenated(a, m, b, n);
    var last := k + 1 >= |b|;
    var y: bv8 := if last then 0 else b[k + 1];
    SplitWordOf(b[k], y, last, u, 8 - u, p, r[q]);
    BitAtOf(MsbFirst, r, q, p);
    BitOfB(|a|, m, b, n, q, p);
    if p < u {
      assert BitAt(MsbFirst, r, 8 * q + p) == Bit(MsbFirst, b[k], p + (8 - u));
    } else {
      assert !last;
      assert BitAt(MsbFirst, r, 8 * q + p) == Bit(MsbFirst, b[k + 1], p - u);
    }
  }

  /** Index `8 * q + p - m` of `b`, as a position of the word of `b` that word `q` of the result takes it from. */
  lemma BitOfB(na: nat, m: nat, b: seq<bv8>, n: nat, q: nat, p: nat)
    requires na == WordsFor(m) && |b| == WordsFor(n) && m % 8 != 0 && p < 8
    requires na <= q && 8 * q + p < m + n
    ensures q - na < |b|
    ensures p < m % 8 ==> BitAt(MsbFirst, b, 8 * q + p - m) == Bit(MsbFirst, b[q - na], p + (8 - m % 8))
    ensures p >= m % 8 ==> q - na + 1 < |b| && BitAt(MsbFirst, b, 8 * q + p - m) == Bit(MsbFirst, b[q - na + 1], p - m % 8)
  {
    if p < m % 8 {
      OfBLow(na, m, b, n, q, p);
    } else {
      OfBHigh(na, m, b, n, q, p);
    }
  }

  /** Positions before `u = m % 8` of word `q` come from word `q - |a|` of `b`, moved up by `8 - u`. */
  lemma OfBLow(na: nat, m: nat, b: seq<bv8>, n: nat, q: nat, p: nat)
    requires na == WordsFor(m) && |b| == WordsFor(n) && m % 8 != 0 && p < m % 8
    requires na <= q && 8 * q + p < m + n
    ensures q - na < |b| && BitAt(MsbFirst, b, 8 * q + p - m) == Bit(MsbFirst, b[q - na], p + (8 - m % 8))
  {
    WordsForBounds(m);
    WordsForBounds(n);
    var k := q - na;
    assert 8 * q + p - m == 8 * k + (p + (8 - m % 8));
    BitAtOf(MsbFirst, b, k, p + (8 - m % 8));
  }

  /** Positions from `u = m % 8` on of word `q` come from the next word of `b`. */
  lemma OfBHigh(na: nat, m: nat, b: seq<bv8>, n: nat, q: nat, p: nat)
    requires na == WordsFor(m) && |b| == WordsFor(n) && m % 8 != 0 && m % 8 <= p < 8
    requires na <= q && 8 * q + p < m + n
    ensures q - na + 1 < |b| && BitAt(MsbFirst, b, 8 * q + p - m) == Bit(MsbFirst, b[q - na + 1], p - m % 8)
  {
    WordsForBounds(m);
    WordsForBounds(n);
    var k := q - na;
    assert 8 * q + p - m == 8 * (k + 1) + (p - m % 8);
    BitAtOf(MsbFirst, b, k + 1, p - m % 8);
  }

  /** The words of `a` before the one it shares with `b` are copied. */
  lemma KeptWordOfA(a: seq<bv8>, m: nat, b: seq<bv8>, n: nat, q: nat)
    requires |a| == WordsFor(m) && |b| == WordsFor(n) && q < |a| && (m % 8 == 0 || q + 1 < |a|)
    ensures q < |Concatenated(a, m, b, n)| && Concatenated(a, m, b, n)[q] == a[q]
  {
    WordsForSum(m, n);
    assert Concatenated(a, m, b, n)[q] == ConcatWord(a, m, b, q);
  }

  /** When `a` fills its last word, word `k` of `b` is copied whole. */
  lemma WholeWordOfB(a: seq<bv8>, m: nat, b: seq<bv8>, n: nat, k: nat)
    requires |a| == WordsFor(m) && |b| == WordsFor(n) && m % 8 == 0 && k < |b|
    ensures |a| + k < |Concatenated(a, m, b, n)| && Concatenated(a, m, b, n)[|a| + k] == b[k]
  {
    WordsForSum(m, n);
    assert Concatenated(a, m, b, n)[|a| + k] == ConcatWord(a, m, b, |a| + k);
  }

  /** The word written at step 0: the last word of `a` with the first bits of `b[0]`. */
  lemma CloseLastWordOfA(a: seq<bv8>, m: nat, b: seq<bv8>, n: nat, left: nat)
    requires |a| == WordsFor(m) && |b| == WordsFor(n) && m % 8 != 0 && |b| > 0 && left == m % 8
    ensures 1 <= |a| <= |Concatenated(a, m, b, n)|
    ensures Concatenated(a, m, b, n)[|a| - 1] == a[|a| - 1] | Shr(b[0], left)
  {
    WordsForSum(m, n);
    WordsForBounds(m);
    assert Concatenated(a, m, b, n)[|a| - 1] == ConcatWord(a, m, b, |a| - 1);
  }

  /** The word written at step `k > 0`: the rest of `b[k - 1]` with the first bits of `b[k]`. */
  lemma SplitWordOfB(a: seq<bv8>, m: nat, b: seq<bv8>, n: nat, k: nat, right: nat, left: nat)
    requires |a| == WordsFor(m) && |b| == WordsFor(n) && m % 8 != 0 && 0 < k < |b|
    requires left == m % 8 && right == 8 - left
    ensures |a| - 1 + k < |Concatenated(a, m, b, n)|
    ensures Concatenated(a, m, b, n)[|a| - 1 + k] == (Shl(b[k - 1], right)) | Shr(b[k], left)
  {
    WordsForSum(m, n);
    ConcatWordOfB(a, m, b, n, |a| - 1 + k);
  }

  /** The word after the one closed by `b`'s last word holds that word's last bits, if the result has it. */
  lemma LastWordOfB(a: seq<bv8>, m: nat, b: seq<bv8>, n: nat, right: nat)
    requires |a| == WordsFor(m) && |b| == WordsFor(n) && m % 8 != 0 && |b| > 0 && right == 8 - m % 8
    requires |a| + |b| - 1 < WordsFor(m + n)
    ensures Concatenated(a, m, b, n)[|a| + |b| - 1] == Shl(b[|b| - 1], right)
  {
    WordsForSum(m, n);
    assert Concatenated(a, m, b, n)[|a| + |b| - 1] == ConcatWord(a, m, b, |a| + |b| - 1);
    var x := Shl(b[|b| - 1], right);
    assert x | 0 == x;
  }

  /** The word the split loop finds at `nu - 1 + k` before step `k`. */
  function OpenWord(a: seq<bv8>, b: seq<bv8>, right: nat, k: nat): bv8
    requires 1 <= |a| && k < |b| && right <= 8
  {
    if k == 0 then a[|a| - 1] else Shl(b[k - 1], right)
  }

  /** The word step `k` of the split loop leaves at `nu - 1 + k`. */
  function Closed(a: seq<bv8>, b: seq<bv8>, right: nat, left: nat, k: nat): bv8
    requires 1 <= |a| && k < |b| && right <= 8 && left <= 8
  {
    OpenWord(a, b, right, k) | Shr(b[k], left)
  }

  /**
   * What the split loop needs to know of the words it must produce: the words
   * of `a` but the last, then each word closed by the first bits of a word of
   * `b`, and, when there is room, the last bits of `b`'s last word.
   */
  ghost predicate SplitTarget(a: seq<bv8>, b: seq<bv8>, right: nat, left: nat, target: seq<bv8>)
  {
    1 <= |a| && 1 <= |b| && right <= 8 && left <= 8 && |a| + |b| - 1 <= |target| <= |a| + |b|
    && (forall q :: 0 <= q < |a| - 1 ==> target[q] == a[q])
    && (forall k :: 0 <= k < |b| ==> target[|a| - 1 + k] == Closed(a, b, right, left, k))
    && (|target| == |a| + |b| ==> target[|a| + |b| - 1] == Shl(b[|b| - 1], right))
  }

  lemma ConcatenatedSplits(a: seq<bv8>, m: nat, b: seq<bv8>, n: nat, right: nat, left: nat)
    requires |a| == WordsFor(m) && |b| == WordsFor(n) && m % 8 != 0 && |b| > 0
    requires left == m % 8 && right == 8 - left
    ensures SplitTarget(a, b, right, left, Concatenated(a, m, b, n))
  {
    WordsForSum(m, n);
    WordsForBounds(m);
    var target := Concatenated(a, m, b, n);
    forall q | 0 <= q < |a| - 1 ensures target[q] == a[q] {
      KeptWordOfA(a, m, b, n, q);
    }
    forall k | 0 <= k < |b| ensures target[|a| - 1 + k] == Closed(a, b, right, left, k) {
      if k == 0 {
        CloseLastWordOfA(a, m, b, n, left);
      } else {
        SplitWordOfB(a, m, b, n, k, right, left);
      }
    }
    if |target| == |a| + |b| {
      LastWordOfB(a, m, b, n, right);
    }
  }

  /** Index `i` of the intended words: index `i` of `a` before `m`, index `i - m` of `b` after it. */
  lemma ConcatBitAt(a: seq<bv8>, m: nat, b: seq<bv8>, n: nat, i: nat)
    requires |a| == WordsFor(m) && |b| == WordsFor(n) && TailClear(MsbFirst, a, m) && i < m + n
    ensures i < m + n <= 8 * |Concatenated(a, m, b, n)|
    ensures BitAt(MsbFirst, Concatenated(a, m, b, n), i)
            == if i < m then BitAt(MsbFirst, a, i) else BitAt(MsbFirst, b, i - m)
  {
    WordsForBounds(m + n);
    if m % 8 == 0 {
      ConcatBitAligned(a, m, b, n, i);
    } else {
      var q, p := i / 8, i % 8;
      assert i == 8 * q + p;
      if q + 1 < |a| {
        ConcatBitKept(a, m, b, n, q, p);
      } else if q + 1 == |a| {
        ConcatBitLastOfA(a, m, b, n, i);
      } else {
        ConcatBitOfB(a, m, b, n, q, p);
      }
    }
  }

  /** An index in a word of `a` other than its last is copied. */
  lemma ConcatBitKept(a: seq<bv8>, m: nat, b: seq<bv8>, n: nat, q: nat, p: nat)
    requires |a| == WordsFor(m) && |b| == WordsFor(n) && m % 8 != 0 && q + 1 < |a| && p < 8
    ensures 8 * q + p < m && 8 * q + p < 8 * |Concatenated(a, m, b, n)|
    ensures BitAt(MsbFirst, Concatenated(a, m, b, n), 8 * q + p) == BitAt(MsbFirst, a, 8 * q + p)
  {
    WordsForBounds(m);
    KeptWordOfA(a, m, b, n, q);
    BitAtOf(MsbFirst, Concatenated(a, m, b, n), q, p);
    BitAtOf(MsbFirst, a, q, p);
  }

  /** Under a clear tail of `a`, the intended words hold the members of `a` followed by those of `b` moved up by `m`. */
  lemma ConcatenatedMembers(a: seq<bv8>, m: nat, b: seq<bv8>, n: nat)
    requires |a| == WordsFor(m) && |b| == WordsFor(n) && TailClear(MsbFirst, a, m)
    ensures m + n <= 8 * |Concatenated(a, m, b, n)|
    ensures Members(MsbFirst, Concatenated(a, m, b, n), m + n)
            == Members(MsbFirst, a, m) + Shifted(Members(MsbFirst, b, n), m)
  {
    WordsForSum(m, n);
    WordsForBounds(m);
    WordsForBounds(n);
    WordsForBounds(m + n);
    ConcatenatedMembersLeft(a, m, b, n);
    ConcatenatedMembersRight(a, m, b, n);
  }

  lemma ConcatenatedMembersLeft(a: seq<bv8>, m: nat, b: seq<bv8>, n: nat)
    requires |a| == WordsFor(m) && |b| == WordsFor(n) && TailClear(MsbFirst, a, m)
    requires m + n <= 8 * |Concatenated(a, m, b, n)|
    ensures Members(MsbFirst, Concatenated(a, m, b, n), m + n)
            <= Members(MsbFirst, a, m) + Shifted(Members(MsbFirst, b, n), m)
  {
    var sb := Members(MsbFirst, b, n);
    forall i: nat | i in Members(MsbFirst, Concatenated(a, m, b, n), m + n)
      ensures i in Members(MsbFirst, a, m) + Shifted(sb, m)
    {
      ConcatMember(a, m, b, n, i);
      ShiftedMember(sb, m, i);
    }
  }

  lemma ConcatenatedMembersRight(a: seq<bv8>, m: nat, b: seq<bv8>, n: nat)
    requires |a| == WordsFor(m) && |b| == WordsFor(n) && TailClear(MsbFirst, a, m)
    requires m + n <= 8 * |Concatenated(a, m, b, n)|
    ensures Members(MsbFirst, a, m) + Shifted(Members(MsbFirst, b, n), m)
            <= Members(MsbFirst, Concatenated(a, m, b, n), m + n)
  {
    var sb := Members(MsbFirst, b, n);
    forall i: nat | i in Members(MsbFirst, a, m) + Shifted(sb, m)
      ensures i in Members(MsbFirst, Concatenated(a, m, b, n), m + n)
    {
      ConcatMember(a, m, b, n, i);
      ShiftedMember(sb, m, i);
    }
  }

  /** Index `i` is a member of the intended words exactly when it is one of `a`, or `i - m` is one of `b`. */
  lemma ConcatMember(a: seq<bv8>, m: nat, b: seq<bv8>, n: nat, i: nat)
    requires |a| == WordsFor(m) && |b| == WordsFor(n) && TailClear(MsbFirst, a, m)
    requires m + n <= 8 * |Concatenated(a, m, b, n)|
    ensures i in Members(MsbFirst, Concatenated(a, m, b, n), m + n)
            <==> i in Members(MsbFirst, a, m) || (i >= m && i - m in Members(MsbFirst, b, n))
  {
    if i < m + n {
      ConcatBitAt(a, m, b, n, i);
    }
  }

  // ---------------------------------------------------------------------------
  // The ascending iterator

  /** The members at or beyond `c`. */
  ghost function PendingFrom(ws: seq<bv8>, size: nat, c: nat): set<nat>
    requires size <= 8 * |ws|
  {
    set i | i in Members(MsbFirst, ws, size) && c <= i
  }

  /** A zero word holds no member: the iterator may skip it. */
  lemma SkipZeroWord(ws: seq<bv8>, size: nat, k: nat)
    requires size <= 8 * |ws| && k < |ws| && ws[k] == 0
    ensures PendingFrom(ws, size, 8 * k) == PendingFrom(ws, size, 8 * k + 8)
  {
    forall i: nat | 8 * k <= i < 8 * k + 8 && i < size
      ensures !BitAt(MsbFirst, ws, i)
    {
      IndexOf(k, i - 8 * k);
      ZeroBit(MsbFirst, i - 8 * k);
    }
  }

  /** Position `s` of word `k` clear: the iterator may step over it. */
  lemma SkipClearBit(ws: seq<bv8>, size: nat, k: nat, s: nat)
    requires size <= 8 * |ws| && k < |ws| && s < 8 && !Bit(MsbFirst, ws[k], s)
    ensures PendingFrom(ws, size, 8 * k + s) == PendingFrom(ws, size, 8 * k + s + 1)
  {
    IndexOf(k, s);
  }

  /** No position after `s` of word `k` set: after the one at `s` the iterator may go to word `k + 1`. */
  lemma SkipRestOfWord(ws: seq<bv8>, size: nat, k: nat, s: nat)
    requires size <= 8 * |ws| && k < |ws| && s < 8
    requires forall q :: s < q < 8 ==> !Bit(MsbFirst, ws[k], q)
    ensures PendingFrom(ws, size, 8 * k + s + 1) == PendingFrom(ws, size, 8 * k + 8)
  {
    forall i: nat | 8 * k + s + 1 <= i < 8 * k + 8 && i < size
      ensures !BitAt(MsbFirst, ws, i)
    {
      IndexOf(k, i - 8 * k);
    }
  }

  /** Position `s` of word `k` set: its index is the least pending member, or there is none. */
  lemma HitBit(ws: seq<bv8>, size: nat, k: nat, s: nat)
    requires size <= 8 * |ws| && k < |ws| && s < 8 && Bit(MsbFirst, ws[k], s)
    ensures 8 * k + s < size ==>
              && 8 * k + s in PendingFrom(ws, size, 8 * k + s)
              && PendingFrom(ws, size, 8 * k + s) - {8 * k + s} == PendingFrom(ws, size, 8 * k + s + 1)
    ensures 8 * k + s >= size ==> PendingFrom(ws, size, 8 * k + s) == {}
  {
    IndexOf(k, s);
  }

  /** The facts about one step of the working word `w << s`. */
  lemma ShiftStep(w: bv8, s: nat)
    requires s < 8
    ensures ((w << s) & 0x80 == 0x80) == Bit(MsbFirst, w, s)
    ensures (w << s) << 1 == w << (s + 1)
    ensures Bit(MsbFirst, w, s) ==> PopCount(w << (s + 1)) + 1 == PopCount(w << s)
    ensures !Bit(MsbFirst, w, s) ==> PopCount(w << (s + 1)) == PopCount(w << s)
    ensures PopCount(w << (s + 1)) > 0 ==> s + 1 < 8
    ensures PopCount(w << (s + 1)) == 0 ==> forall q :: s < q < 8 ==> !Bit(MsbFirst, w, q)
  {
    ShlBit(w, s, 0);
    TopBit(w << s);
    ShlShl(w, s);
    PopCountShl(w << s);
    ShlAll(w);
    PopCountZero(w << 8);
    if PopCount(w << (s + 1)) == 0 {
      PopCountZero(w << (s + 1));
      ShlZeroAbove(w, s + 1);
    }
  }

  /** When `w << s` is zero, no position from `s` on is set in `w`. */
  lemma ShlZeroAbove(w: bv8, s: nat)
    requires s <= 8 && w << s == 0
    ensures forall q :: s <= q < 8 ==> !Bit(MsbFirst, w, q)
  {
    forall q | s <= q < 8 ensures !Bit(MsbFirst, w, q) {
      ShlBit(w, s, q - s);
      ZeroBit(MsbFirst, q - s);
    }
  }

  /**
   * The iterator's cursor invariant: the working word is word `ui` shifted
   * left by `ii` and holds `nbr` ones; a count of zero means word `ui` is done.
   */
  ghost predicate CursorOk(ws: seq<bv8>, ui: nat, ii: nat, working: bv8, nbr: nat)
  {
    && ui < |ws| && ii < 8
    && (nbr == 0 ==> ii == 0)
    && (nbr > 0 ==> working == ws[ui] << ii && PopCount(working) == nbr)
  }

  /** Stepping over a clear top bit keeps the cursor invariant. */
  lemma StepClear(ws: seq<bv8>, ui: nat, ii: nat, working: bv8, nbr: nat)
    requires CursorOk(ws, ui, ii, working, nbr) && nbr > 0 && working & 0x80 != 0x80
    ensures !Bit(MsbFirst, ws[ui], ii)
    ensures CursorOk(ws, ui, ii + 1, working << 1, nbr)
  {
    ShiftStep(ws[ui], ii);
  }

  /** Consuming a set top bit: word `ui` is done, or the cursor moves one position. */
  lemma StepSet(ws: seq<bv8>, ui: nat, ii: nat, working: bv8, nbr: nat)
    requires CursorOk(ws, ui, ii, working, nbr) && nbr > 0 && working & 0x80 == 0x80
    ensures Bit(MsbFirst, ws[ui], ii)
    ensures nbr - 1 == 0 ==> CursorOk(ws, ui, 0, working, 0)
                             && forall q :: ii < q < 8 ==> !Bit(MsbFirst, ws[ui], q)
    ensures nbr - 1 > 0 ==> CursorOk(ws, ui, ii + 1, working << 1, nbr - 1)
  {
    ShiftStep(ws[ui], ii);
  }

  /**
   * Consuming the set top bit at cursor `c = 8 * ui + ii`: beyond `size` nothing
   * is pending; otherwise `c` is the least pending member, and the cursor moves
   * to the next position, or to the next word when the count of ones runs out.
   */
  lemma TakeStep(ws: seq<bv8>, size: nat, ui: nat, ii: nat, working: bv8, nbr: nat)
    requires size <= 8 * |ws| && CursorOk(ws, ui, ii, working, nbr) && nbr > 0 && working & 0x80 == 0x80
    ensures 8 * ui + ii >= size ==> PendingFrom(ws, size, 8 * ui + ii) == {}
    ensures 8 * ui + ii < size ==> 8 * ui + ii in PendingFrom(ws, size, 8 * ui + ii)
    ensures nbr - 1 == 0 ==> && CursorOk(ws, ui, 0, working, 0)
                             && PendingFrom(ws, size, 8 * ui + ii) - {8 * ui + ii} == PendingFrom(ws, size, 8 * (ui + 1))
    ensures nbr - 1 > 0 ==> && CursorOk(ws, ui, ii + 1, working << 1, nbr - 1)
                            && PendingFrom(ws, size, 8 * ui + ii) - {8 * ui + ii} == PendingFrom(ws, size, 8 * ui + ii + 1)
  {
    StepSet(ws, ui, ii, working, nbr);
    HitBit(ws, size, ui, ii);
    if nbr - 1 == 0 {
      SkipRestOfWord(ws, size, ui, ii);
    }
  }

  /**
   * `BitSetIter`: word `uintIndex` shifted left by `indexInUint` is kept in
   * `workingUint`, whose top bit stands for index `8 * uintIndex + indexInUint`,
   * and `nbrOnesInUint` counts the ones left in it. `done` records that `next`
   * has returned `None`.
   */
  class BitSetIter {
    const words: seq<bv8>
    const size: nat
    var uintIndex: nat
    var indexInUint: nat
    var workingUint: bv8
    var nbrOnesInUint: nat
    ghost var done: bool

    ghost predicate Valid()
      reads this
    {
      && size <= 8 * |words| && |words| >= 1
      && (!done ==> CursorOk(words, uintIndex, indexInUint, workingUint, nbrOnesInUint))
    }

    /** The first index the iterator has not yet looked at. */
    ghost function Cursor(): nat
      reads this
    {
      if nbrOnesInUint == 0 then 8 * (uintIndex + 1) else 8 * uintIndex + indexInUint
    }

    /** The members still to be returned. */
    ghost function Pending(): set<nat>
      reads this
      requires Valid()
    {
      if done then {} else PendingFrom(words, size, Cursor())
    }

    /**
     * `BitSetIter::new` reads word 0, which a set of size 0 does not have. The
     * iterator borrows the set, so its words and size stay fixed while it lives.
     */
    constructor (bitset: BitSet)
      requires bitset.Valid() && |bitset.data| >= 1
      ensures Valid() && !done && words == bitset.data && size == bitset.size
      ensures Pending() == bitset.Contents()
    {
      words := bitset.data;
      size := bitset.size;
      uintIndex := 0;
      indexInUint := 0;
      workingUint := bitset.data[0];
      nbrOnesInUint := PopCount(bitset.data[0]);
      done := false;
      new;
      if nbrOnesInUint == 0 {
        PopCountZero(words[0]);
        SkipZeroWord(words, size, 0);
      }
    }

    /** The branch of `next` that finds the top bit of the working word set. */
    method TakeTopBit() returns (r: Option<nat>)
      requires Valid() && !done && nbrOnesInUint > 0 && workingUint & 0x80 == 0x80
      modifies this
      ensures Valid()
      ensures r.None? <==> old(Pending()) == {}
      ensures r.None? ==> done
      ensures r.Some? ==> && !done
                          && r.value in old(Pending())
                          && (forall i :: i in old(Pending()) ==> r.value <= i)
                          && Pending() == old(Pending()) - {r.value}
    {
      TakeStep(words, size, uintIndex, indexInUint, workingUint, nbrOnesInUint);
      var res := 8 * uintIndex + indexInUint;
      if res >= size {
        nbrOnesInUint := nbrOnesInUint - 1;
        done := true;
        return None;
      }
      MoveOn();
      return Some(res);
    }

    /** After a set top bit below `size`: the cursor moves one position, or to the next word when no one is left. */
    method MoveOn()
      requires Valid() && !done && nbrOnesInUint > 0 && workingUint & 0x80 == 0x80
      requires 8 * uintIndex + indexInUint < size
      modifies this
      ensures Valid() && !done
      ensures Pending() == old(Pending()) - {old(8 * uintIndex + indexInUint)}
    {
      if nbrOnesInUint == 1 {
        EndWord();
      } else {
        NextPosition();
      }
    }

    /** The last one of the working word taken: the cursor goes to the next word. */
    method EndWord()
      requires Valid() && !done && nbrOnesInUint == 1 && workingUint & 0x80 == 0x80
      modifies this
      ensures Valid() && !done
      ensures Pending() == old(Pending()) - {old(8 * uintIndex + indexInUint)}
    {
      TakeStep(words, size, uintIndex, indexInUint, workingUint, nbrOnesInUint);
      nbrOnesInUint := 0;
      indexInUint := 0;
    }

    /** A one taken with more left: the working word is shifted to the next position. */
    method NextPosition()
      requires Valid() && !done && nbrOnesInUint > 1 && workingUint & 0x80 == 0x80
      modifies this
      ensures Valid() && !done
      ensures Pending() == old(Pending()) - {old(8 * uintIndex + indexInUint)}
    {
      TakeStep(words, size, uintIndex, indexInUint, workingUint, nbrOnesInUint);
      nbrOnesInUint := nbrOnesInUint - 1;
      workingUint := workingUint << 1;
      indexInUint := indexInUint + 1;
    }

    /**
     * `next` skips words without ones, then shifts the working word until its
     * top bit is set. It returns the smallest pending member, or `None` when
     * none is left, including when the next set bit is a tail bit at or
     * beyond `size`.
     */
    method Next() returns (r: Option<nat>)
      requires Valid() && !done
      modifies this
      ensures Valid()
      ensures r.None? <==> old(Pending()) == {}
      ensures r.None? ==> done
      ensures r.Some? ==> && !done
                          && r.value in old(Pending())
                          && (forall i :: i in old(Pending()) ==> r.value <= i)
                          && Pending() == old(Pending()) - {r.value}
    {
      var found := SkipEmptyWords();
      if !found {
        return None;
      }
      r := ScanWord();
    }

    /** The first loop of `next`: words without ones are stepped over; `false` when the words run out. */
    method SkipEmptyWords() returns (found: bool)
      requires Valid() && !done
      modifies this
      ensures Valid() && Pending() == old(Pending())
      ensures found <==> !done
      ensures found ==> nbrOnesInUint > 0
    {
      ghost var pending := Pending();
      while nbrOnesInUint == 0
        invariant Valid() && !done && Pending() == pending
        decreases |words| - uintIndex
      {
        uintIndex := uintIndex + 1;
        if uintIndex == |words| {
          done := true;
          return false;
        }
        workingUint := words[uintIndex];
        nbrOnesInUint := PopCount(workingUint);
        if nbrOnesInUint == 0 {
          PopCountZero(workingUint);
          SkipZeroWord(words, size, uintIndex);
        }
      }
      return true;
    }

    /** The second loop of `next`: the working word is shifted until its top bit is set. */
    method ScanWord() returns (r: Option<nat>)
      requires Valid() && !done && nbrOnesInUint > 0
      modifies this
      ensures Valid()
      ensures r.None? <==> old(Pending()) == {}
      ensures r.None? ==> done
      ensures r.Some? ==> && !done
                          && r.value in old(Pending())
                          && (forall i :: i in old(Pending()) ==> r.value <= i)
                          && Pending() == old(Pending()) - {r.value}
    {
      ghost var pending := Pending();
      var oneLeft: bv8 := 1 << 7;
      while true
        invariant Valid() && !done && nbrOnesInUint > 0 && Pending() == pending
        decreases 8 - indexInUint
      {
        if workingUint & oneLeft == oneLeft {
          r := TakeTopBit();
          return r;
        } else {
          SkipTopBit();
        }
      }
    }

    /** The branch of `next` that finds the top bit of the working word clear. */
    method SkipTopBit()
      requires Valid() && !done && nbrOnesInUint > 0 && workingUint & 0x80 != 0x80
      modifies this
      ensures Valid() && !done && nbrOnesInUint > 0 && Pending() == old(Pending())
      ensures indexInUint == old(indexInUint) + 1 < 8
    {
      StepClear(words, uintIndex, indexInUint, workingUint, nbrOnesInUint);
      SkipClearBit(words, size, uintIndex, indexInUint);
      workingUint := workingUint << 1;
      indexInUint := indexInUint + 1;
    }
  }
}
