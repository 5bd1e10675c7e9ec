/**
 * The older byte bit set of bitset_nul.rs. A `ContiguousList` numbers the
 * values of a universe with `u16` indices; a `BitSet` over such a list holds
 * one bit per index, LSB-first: index `n` is the bit `n % 8` of byte `n / 8`.
 * The binary operations demand that both sets refer to the very same list
 * object, which the model compares by reference.
 */
module ByteBitSets {
  import opened Words
  import opened Wrappers

  /** The first index of `x` in `s`, as `Iterator::position` finds it. */
  function Position<T(==)>(s: seq<T>, x: T): (r: Option<nat>)
    ensures r.Some? ==> r.value < |s| && s[r.value] == x
    ensures r.Some? ==> forall j :: 0 <= j < r.value ==> s[j] != x
    ensures r.None? <==> x !in s
    decreases |s|
  {
    if s == [] then None
    else if s[0] == x then Some(0)
    else match Position(s[1..], x)
      case None => None
      case Some(k) => Some(k + 1)
  }

  class ContiguousList<T(==)> {
    const values: seq<T>
    /** An optional function that numbers a value directly, in place of a search. */
    const valueId: Option<T -> Option<U16>>

    constructor (values: seq<T>, valueId: Option<T -> Option<U16>>)
      ensures this.values == values && this.valueId == valueId
    {
      this.values := values;
      this.valueId := valueId;
    }

    function GetValue(index: U16): (v: T)
      requires index < |values|
      ensures v in values
      ensures valueId.None? && |values| <= 0x1_0000 ==> GetIndex(v).Some? && GetIndex(v).value <= index
    {
      var v := values[index];
      assert Position(values, v).Some?;
      v
    }

    /**
     * `get_index`: the numbering function when there is one, otherwise the
     * first position of `value`, cast to `u16` (so taken modulo 2^16).
     */
    function GetIndex(value: T): (r: Option<U16>)
      ensures valueId.Some? ==> r == valueId.value(value)
      ensures valueId.None? ==> (r.Some? <==> value in values)
      ensures valueId.None? && r.Some? && |values| <= 0x1_0000 ==>
        r.value < |values| && values[r.value] == value
        && forall j :: 0 <= j < r.value ==> values[j] != value
    {
      match valueId
      case Some(f) => f(value)
      case None =>
        match Position(values, value)
        case None => None
        case Some(k) => Some(k % 0x1_0000)
    }

    /** `len` casts the length to `u16`: the lists the sets use hold fewer than 2^16 values. */
    function Len(): (n: U16)
      ensures |values| < 0x1_0000 ==> n == |values|
      ensures n <= |values|
    {
      |values| % 0x1_0000
    }
  }

  /** Without a numbering function, `get_value` and `get_index` are inverse on the list. */
  lemma IndexOfValue<T>(list: ContiguousList<T>, index: U16)
    requires list.valueId.None? && |list.values| <= 0x1_0000 && index < |list.values|
    requires forall j :: 0 <= j < index ==> list.values[j] != list.values[index]
    ensures list.GetIndex(list.GetValue(index)) == Some(index)
  {
    var v := list.GetValue(index);
    assert list.GetIndex(v).Some?;
  }

  /** `get_value` after a successful search returns the value searched for. */
  lemma ValueOfIndex<T>(list: ContiguousList<T>, value: T)
    requires list.valueId.None? && |list.values| <= 0x1_0000 && list.GetIndex(value).Some?
    ensures list.GetIndex(value).value < |list.values|
    ensures list.GetValue(list.GetIndex(value).value) == value
  {
  }

  class ByteBitSet<T(==)> {
    var bytes: seq<bv8>
    const list: ContiguousList<T>

    /** `size` is the length of the list. */
    function Size(): (n: U16)
      ensures n <= |list.values|
    {
      list.Len()
    }

    /** The bytes hold `ceil(size / 8)` bytes. */
    ghost predicate Valid()
      reads this
    {
      |bytes| == WordsFor(Size()) && Size() <= 8 * |bytes|
    }

    /** The indices below `size` whose bit is set. */
    ghost function Contents(): set<nat>
      reads this
      requires Valid()
    {
      Members(LsbFirst, bytes, Size())
    }

    /** No bit at or beyond `size` is set. */
    ghost predicate TailClear()
      reads this
    {
      Words.TailClear(LsbFirst, bytes, Size())
    }

    /** The struct literal `BitSet { bytes, list }`. */
    constructor Of(bytes: seq<bv8>, list: ContiguousList<T>)
      ensures this.bytes == bytes && this.list == list
    {
      this.bytes := bytes;
      this.list := list;
    }

    /** `new`: `len / 8` bytes, one more when that leaves bits over, all `u8::MIN`. */
    constructor New(list: ContiguousList<T>)
      ensures this.list == list && Valid()
      ensures bytes == Filled(false, WordsFor(list.Len()))
      ensures Contents() == {} && TailClear()
    {
      var len := list.Len();
      var nbrBytes := len / 8;
      if 8 * nbrBytes < len {
        nbrBytes := nbrBytes + 1;
      }
      assert nbrBytes == WordsFor(len);
      bytes := Filled(false, nbrBytes);
      this.list := list;
      new;
      WordsForBounds(len);
      FilledMembers(LsbFirst, false, nbrBytes, len);
    }

    /** `new_full`: the same number of bytes, all `u8::MAX`, tail bits included. */
    constructor NewFull(list: ContiguousList<T>)
      ensures this.list == list && Valid()
      ensures bytes == Filled(true, WordsFor(list.Len()))
      ensures Contents() == Universe(list.Len())
    {
      var len := list.Len();
      var nbrBytes := len / 8;
      if 8 * nbrBytes < len {
        nbrBytes := nbrBytes + 1;
      }
      assert nbrBytes == WordsFor(len);
      bytes := Filled(true, nbrBytes);
      this.list := list;
      new;
      WordsForBounds(len);
      FilledMembers(LsbFirst, true, nbrBytes, len);
    }

    /** `nbr_bytes` casts the byte count to `u16`; it is below 2^13. */
    function NbrBytes(): (n: U16)
      reads this
      requires Valid()
      ensures n == |bytes| && 8 * n < Size() + 8
    {
      WordsForBounds(Size());
      |bytes|
    }

    function Contains(n: U16): (b: bool)
      reads this
      requires Valid() && n < Size()
      ensures b <==> n in Contents()
    {
      var byteIndex := n / 8;
      var positionInByte := n - 8 * byteIndex;
      MaskTest(LsbFirst, bytes[byteIndex], positionInByte);
      MaskOf(LsbFirst, positionInByte) & bytes[byteIndex] != 0
    }

    method Insert(n: U16)
      requires Valid() && n < Size()
      modifies this
      ensures Valid() && bytes == WithBit(LsbFirst, old(bytes), n)
      ensures Contents() == old(Contents()) + {n}
      ensures old(TailClear()) ==> TailClear()
    {
      WithBitMembers(LsbFirst, bytes, Size(), n);
      var byteIndex := n / 8;
      var positionInByte := n - 8 * byteIndex;
      var bitMask := MaskOf(LsbFirst, positionInByte);
      bytes := bytes[byteIndex := bitMask | bytes[byteIndex]];
    }

    /** `remove` and-s the byte with the negated mask. */
    method Remove(n: U16)
      requires Valid() && n < Size()
      modifies this
      ensures Valid() && bytes == WithoutBit(LsbFirst, old(bytes), n)
      ensures Contents() == old(Contents()) - {n}
      ensures old(TailClear()) ==> TailClear()
    {
      WithoutBitMembers(LsbFirst, bytes, Size(), n);
      var byteIndex := n / 8;
      var positionInByte := n - 8 * byteIndex;
      var bitMask := MaskOf(LsbFirst, positionInByte);
      bytes := bytes[byteIndex := !bitMask & bytes[byteIndex]];
    }

    method Set(n: U16, value: bool)
      requires Valid() && n < Size()
      modifies this
      ensures Valid()
      ensures Contents() == if value then old(Contents()) + {n} else old(Contents()) - {n}
      ensures Contains(n) == value
      ensures old(TailClear()) ==> TailClear()
    {
      if value {
        Insert(n);
      } else {
        Remove(n);
      }
    }

    /** `same_list`: both sets refer to the same list object, so they have the same size. */
    function SameList(other: ByteBitSet<T>): (b: bool)
      ensures b ==> Size() == other.Size()
      ensures b <==> list == other.list
    {
      list == other.list
    }

    /** The loop shared by the four binary operations: byte `i` of `op` pushed onto a new vector. */
    method Combine(op: Op, other: ByteBitSet<T>) returns (r: ByteBitSet<T>)
      requires Valid() && other.Valid() && SameList(other)
      ensures fresh(r) && r.Valid() && r.list == list
      ensures r.bytes == Zip(op, bytes, other.bytes)
    {
      var newBytes: seq<bv8> := [];
      var i := 0;
      while i < NbrBytes()
        invariant 0 <= i <= |bytes| && |newBytes| == i
        invariant forall k :: 0 <= k < i ==> newBytes[k] == Apply(op, bytes[k], other.bytes[k])
      {
        newBytes := newBytes + [Apply(op, bytes[i], other.bytes[i])];
        i := i + 1;
      }
      r := new ByteBitSet.Of(newBytes, list);
    }

    method Union(other: ByteBitSet<T>) returns (r: ByteBitSet<T>)
      requires Valid() && other.Valid() && SameList(other)
      ensures fresh(r) && r.Valid() && r.list == list
      ensures r.Contents() == Contents() + other.Contents()
      ensures TailClear() && other.TailClear() ==> r.TailClear()
    {
      r := Combine(Or, other);
      ZipMembers(LsbFirst, Or, bytes, other.bytes, Size());
      if TailClear() && other.TailClear() {
        ZipTailClear(LsbFirst, Or, bytes, other.bytes, Size());
      }
    }

    method Intersection(other: ByteBitSet<T>) returns (r: ByteBitSet<T>)
      requires Valid() && other.Valid() && SameList(other)
      ensures fresh(r) && r.Valid() && r.list == list
      ensures r.Contents() == Contents() * other.Contents()
      ensures TailClear() || other.TailClear() ==> r.TailClear()
    {
      r := Combine(And, other);
      ZipMembers(LsbFirst, And, bytes, other.bytes, Size());
      if TailClear() || other.TailClear() {
        ZipTailClear(LsbFirst, And, bytes, other.bytes, Size());
      }
    }

    method Difference(other: ByteBitSet<T>) returns (r: ByteBitSet<T>)
      requires Valid() && other.Valid() && SameList(other)
      ensures fresh(r) && r.Valid() && r.list == list
      ensures r.Contents() == Contents() - other.Contents()
      ensures TailClear() ==> r.TailClear()
    {
      r := Combine(AndNot, other);
      ZipMembers(LsbFirst, AndNot, bytes, other.bytes, Size());
      if TailClear() {
        ZipTailClear(LsbFirst, AndNot, bytes, other.bytes, Size());
      }
    }

    method SymmetricDifference(other: ByteBitSet<T>) returns (r: ByteBitSet<T>)
      requires Valid() && other.Valid() && SameList(other)
      ensures fresh(r) && r.Valid() && r.list == list
      ensures r.Contents() == (Contents() - other.Contents()) + (other.Contents() - Contents())
      ensures TailClear() && other.TailClear() ==> r.TailClear()
    {
      r := Combine(Xor, other);
      ZipMembers(LsbFirst, Xor, bytes, other.bytes, Size());
      if TailClear() && other.TailClear() {
        ZipTailClear(LsbFirst, Xor, bytes, other.bytes, Size());
      }
    }

    /**
     * The loop shared by the four in-place operations. Byte `i` is read from
     * both sets before it is written, so the result is the same when `other`
     * is this very set.
     */
    method UpdateCombine(op: Op, other: ByteBitSet<T>)
      requires Valid() && other.Valid() && SameList(other)
      modifies this
      ensures Valid() && bytes == Zip(op, old(bytes), old(other.bytes))
    {
      ghost var a, b := bytes, other.bytes;
      var i := 0;
      while i < NbrBytes()
        invariant 0 <= i <= |bytes| && |bytes| == |a| && Valid()
        invariant other.Valid() && |other.bytes| == |a|
        invariant forall k :: 0 <= k < i ==> bytes[k] == Apply(op, a[k], b[k])
        invariant forall k :: i <= k < |bytes| ==> bytes[k] == a[k] && other.bytes[k] == b[k]
      {
        bytes := bytes[i := Apply(op, bytes[i], other.bytes[i])];
        i := i + 1;
      }
    }

    method UpdateUnion(other: ByteBitSet<T>)
      requires Valid() && other.Valid() && SameList(other)
      modifies this
      ensures Valid() && Contents() == old(Contents()) + old(other.Contents())
      ensures old(TailClear()) && old(other.TailClear()) ==> TailClear()
    {
      ZipMembers(LsbFirst, Or, bytes, other.bytes, Size());
      if TailClear() && other.TailClear() {
        ZipTailClear(LsbFirst, Or, bytes, other.bytes, Size());
      }
      UpdateCombine(Or, other);
    }

    method UpdateIntersection(other: ByteBitSet<T>)
      requires Valid() && other.Valid() && SameList(other)
      modifies this
      ensures Valid() && Contents() == old(Contents()) * old(other.Contents())
      ensures old(TailClear()) || old(other.TailClear()) ==> TailClear()
    {
      ZipMembers(LsbFirst, And, bytes, other.bytes, Size());
      if TailClear() || other.TailClear() {
        ZipTailClear(LsbFirst, And, bytes, other.bytes, Size());
      }
      UpdateCombine(And, other);
    }

    method UpdateDifference(other: ByteBitSet<T>)
      requires Valid() && other.Valid() && SameList(other)
      modifies this
      ensures Valid() && Contents() == old(Contents()) - old(other.Contents())
      ensures old(TailClear()) ==> TailClear()
    {
      ZipMembers(LsbFirst, AndNot, bytes, other.bytes, Size());
      if TailClear() {
        ZipTailClear(LsbFirst, AndNot, bytes, other.bytes, Size());
      }
      UpdateCombine(AndNot, other);
    }

    method UpdateSymmetricDifference(other: ByteBitSet<T>)
      requires Valid() && other.Valid() && SameList(other)
      modifies this
      ensures Valid()
      ensures Contents() == (old(Contents()) - old(other.Contents())) + (old(other.Contents()) - old(Contents()))
      ensures old(TailClear()) && old(other.TailClear()) ==> TailClear()
    {
      ZipMembers(LsbFirst, Xor, bytes, other.bytes, Size());
      if TailClear() && other.TailClear() {
        ZipTailClear(LsbFirst, Xor, bytes, other.bytes, Size());
      }
      UpdateCombine(Xor, other);
    }

    method Clear()
      requires Valid()
      modifies this
      ensures Valid() && bytes == Filled(false, |old(bytes)|)
      ensures Contents() == {} && TailClear()
    {
      var i := 0;
      while i < NbrBytes()
        invariant 0 <= i <= |bytes| && Valid()
        invariant forall k :: 0 <= k < i ==> bytes[k] == 0x00
      {
        bytes := bytes[i := 0x00];
        i := i + 1;
      }
      FilledMembers(LsbFirst, false, |bytes|, Size());
    }

    /** `fill` sets every bit of every byte, the tail bits included. */
    method Fill()
      requires Valid()
      modifies this
      ensures Valid() && bytes == Filled(true, |old(bytes)|)
      ensures Contents() == Universe(Size())
    {
      var i := 0;
      while i < NbrBytes()
        invariant 0 <= i <= |bytes| && Valid()
        invariant forall k :: 0 <= k < i ==> bytes[k] == 0xFF
      {
        bytes := bytes[i := 0xFF];
        i := i + 1;
      }
      FilledMembers(LsbFirst, true, |bytes|, Size());
    }

    method IsDisjoint(other: ByteBitSet<T>) returns (b: bool)
      requires Valid() && other.Valid() && SameList(other)
      ensures b <==> ZipZero(And, bytes, other.bytes)
      ensures b ==> Contents() * other.Contents() == {}
      ensures (TailClear() || other.TailClear()) && Contents() * other.Contents() == {} ==> b
    {
      var i := 0;
      while i < NbrBytes()
        invariant 0 <= i <= |bytes|
        invariant forall k :: 0 <= k < i ==> bytes[k] & other.bytes[k] == 0
      {
        if bytes[i] & other.bytes[i] > 0 {
          NotDisjoint(LsbFirst, bytes, other.bytes, Size(), i);
          return false;
        }
        i := i + 1;
      }
      DisjointMembers(LsbFirst, bytes, other.bytes, Size());
      return true;
    }

    method IsEmpty() returns (b: bool)
      requires Valid()
      ensures b <==> AllZero(bytes)
      ensures b ==> Contents() == {}
      ensures TailClear() && Contents() == {} ==> b
    {
      var i := 0;
      while i < |bytes|
        invariant 0 <= i <= |bytes|
        invariant forall k :: 0 <= k < i ==> bytes[k] == 0
      {
        if bytes[i] > 0 {
          NotEmpty(LsbFirst, bytes, Size(), i);
          return false;
        }
        i := i + 1;
      }
      AllZeroMembers(LsbFirst, bytes, Size());
      return true;
    }

    /** `is_subset` checks no list and reads `nbr_bytes()` bytes of both sets. */
    method IsSubset(other: ByteBitSet<T>) returns (b: bool)
      requires Valid() && other.Valid() && |bytes| <= |other.bytes|
      ensures b <==> ZipZero(AndNot, bytes, other.bytes)
      ensures b && Size() <= other.Size() ==> Contents() <= other.Contents()
      ensures TailClear() && Size() <= other.Size() && Contents() <= other.Contents() ==> b
    {
      var i := 0;
      while i < NbrBytes()
        invariant 0 <= i <= |bytes|
        invariant forall k :: 0 <= k < i ==> bytes[k] & !other.bytes[k] == 0
      {
        if bytes[i] & !other.bytes[i] > 0 {
          NotSubset(LsbFirst, bytes, other.bytes, Size(), other.Size(), i);
          return false;
        }
        i := i + 1;
      }
      if Size() <= other.Size() {
        SubsetMembers(LsbFirst, bytes, other.bytes, Size(), other.Size());
      }
      return true;
    }

    /** `is_superset` tests `!self & other` over `nbr_bytes()` bytes of both sets. */
    method IsSuperset(other: ByteBitSet<T>) returns (b: bool)
      requires Valid() && other.Valid() && |bytes| <= |other.bytes|
      ensures b <==> forall k :: 0 <= k < |bytes| ==> Apply(AndNot, other.bytes[k], bytes[k]) == 0
      ensures b && other.Size() <= Size() ==> other.Contents() <= Contents()
      ensures other.TailClear() && other.Size() <= Size() && other.Contents() <= Contents() ==> b
    {
      var i := 0;
      while i < NbrBytes()
        invariant 0 <= i <= |bytes|
        invariant forall k :: 0 <= k < i ==> Apply(AndNot, other.bytes[k], bytes[k]) == 0
      {
        if !bytes[i] & other.bytes[i] > 0 {
          assert Apply(AndNot, other.bytes[i], bytes[i]) != 0;
          if other.Size() <= Size() {
            NotSubset(LsbFirst, other.bytes, bytes, other.Size(), Size(), i);
          }
          return false;
        }
        assert Apply(AndNot, other.bytes[i], bytes[i]) == 0;
        i := i + 1;
      }
      if other.Size() <= Size() {
        SubsetMembers(LsbFirst, other.bytes, bytes, other.Size(), Size());
      }
      return true;
    }

    /** `len` adds up `count_ones` of every byte, so it counts set tail bits too. */
    method Len() returns (n: nat)
      requires Valid()
      ensures n == CountOnes(bytes)
      ensures TailClear() ==> n == |Contents()|
    {
      n := 0;
      var i := 0;
      while i < |bytes|
        invariant 0 <= i <= |bytes|
        invariant n == CountOnes(bytes[..i])
      {
        CountOnesPrefix(bytes, i + 1);
        n := n + PopCount(bytes[i]);
        i := i + 1;
      }
      assert bytes[..i] == bytes;
      if TailClear() {
        CountOnesIsCardinality(LsbFirst, bytes, Size());
      }
    }

    method Clone() returns (r: ByteBitSet<T>)
      requires Valid()
      ensures fresh(r) && r.Valid() && r.list == list && r.bytes == bytes
      ensures r.Contents() == Contents()
    {
      r := new ByteBitSet.Of(bytes, list);
    }
  }
}
