/**
 * The bit-level model shared by both bit sets: a set over the indices
 * [0, size) packed into 8-bit words (`u8`). The bit of a word that stands for
 * an index depends on the layout: bitset.rs packs MSB-first (index 0 is the
 * most significant bit of word 0), bitset_nul.rs packs LSB-first.
 */
module Words {

  datatype Layout = MsbFirst | LsbFirst

  /** The bit number (0 = least significant) that holds position `p` under layout `l`. */
  function Shift(l: Layout, p: nat): (s: nat)
    requires p < 8
    ensures s < 8
  {
    match l
    case MsbFirst => 7 - p
    case LsbFirst => p
  }

  /** Whether position `p` (0 <= p < 8) of word `w` is set under layout `l`. */
  predicate Bit(l: Layout, w: bv8, p: nat)
    requires p < 8
  {
    w & MaskOf(l, p) != 0
  }

  /** `count_ones` of a word. */
  function PopCount(w: bv8): (n: nat)
    ensures n <= 8
  {
    (if w & 0x80 != 0 then 1 else 0) + (if w & 0x40 != 0 then 1 else 0)
    + (if w & 0x20 != 0 then 1 else 0) + (if w & 0x10 != 0 then 1 else 0)
    + (if w & 0x08 != 0 then 1 else 0) + (if w & 0x04 != 0 then 1 else 0)
    + (if w & 0x02 != 0 then 1 else 0) + (if w & 0x01 != 0 then 1 else 0)
  }

  /** The sum of `count_ones` over a sequence of words. */
  function CountOnes(ws: seq<bv8>): nat
    decreases |ws|
  {
    if ws == [] then 0 else CountOnes(ws[..|ws| - 1]) + PopCount(ws[|ws| - 1])
  }

  /** The number of words that hold `size` bits: `(size + 7) / 8`. */
  function WordsFor(size: nat): nat
  {
    (size + 7) / 8
  }

  lemma WordsForBounds(size: nat)
    ensures size <= 8 * WordsFor(size) < size + 8
    ensures size % 8 == 0 ==> 8 * WordsFor(size) == size
    ensures size % 8 != 0 ==> 8 * WordsFor(size) == size + 8 - size % 8
  {
  }

  /** Index `i` of the packed sequence `ws`: position `i % 8` of word `i / 8`. */
  predicate BitAt(l: Layout, ws: seq<bv8>, i: nat)
    requires i < 8 * |ws|
  {
    Bit(l, ws[i / 8], i % 8)
  }

  /** The abstraction of a packed set: the indices below `size` whose bit is set. */
  ghost function Members(l: Layout, ws: seq<bv8>, size: nat): (s: set<nat>)
    requires size <= 8 * |ws|
    ensures forall i :: i in s ==> i < size
  {
    set i: nat | i < size && BitAt(l, ws, i)
  }

  /** No bit at an index `>= size` is set (the "tail bits clear" invariant). */
  ghost predicate TailClear(l: Layout, ws: seq<bv8>, size: nat)
  {
    forall i: nat :: size <= i < 8 * |ws| ==> !BitAt(l, ws, i)
  }

  /** Every index below `size`. */
  ghost function Universe(size: nat): (s: set<nat>)
    ensures forall i: nat :: i in s <==> i < size
  {
    if size == 0 then {} else Universe(size - 1) + {size - 1}
  }

  // ---------------------------------------------------------------------------
  // Word-wise Boolean algebra

  /** The four binary word operations of both bit sets: `|`, `&`, `& !` and `^`. */
  datatype Op = Or | And | AndNot | Xor

  function Apply(op: Op, x: bv8, y: bv8): bv8
  {
    match op
    case Or => x | y
    case And => x & y
    case AndNot => x & !y
    case Xor => x ^ y
  }

  /** What `op` does to one pair of bits. */
  predicate Holds(op: Op, a: bool, b: bool)
  {
    match op
    case Or => a || b
    case And => a && b
    case AndNot => a && !b
    case Xor => a != b
  }

  /** What `op` does to two sets. */
  ghost function SetOp(op: Op, a: set<nat>, b: set<nat>): set<nat>
  {
    match op
    case Or => a + b
    case And => a * b
    case AndNot => a - b
    case Xor => (a - b) + (b - a)
  }

  /** `op` applied word by word. */
  function Zip(op: Op, a: seq<bv8>, b: seq<bv8>): (r: seq<bv8>)
    requires |a| == |b|
    ensures |r| == |a|
  {
    seq(|a|, k requires 0 <= k < |a| => Apply(op, a[k], b[k]))
  }

  /** `!` applied word by word. */
  function Complemented(a: seq<bv8>): (r: seq<bv8>)
    ensures |r| == |a|
  {
    seq(|a|, k requires 0 <= k < |a| => !a[k])
  }

  lemma ApplyBit(l: Layout, op: Op, x: bv8, y: bv8, p: nat)
    requires p < 8
    ensures Bit(l, Apply(op, x, y), p) == Holds(op, Bit(l, x, p), Bit(l, y, p))
  {
    OneHot(l, p);
    ApplyMask(op, x, y, Apply(op, x, y), MaskOf(l, p));
  }

  lemma ApplyMask(op: Op, x: bv8, y: bv8, z: bv8, m: bv8)
    requires m == 0x01 || m == 0x02 || m == 0x04 || m == 0x08 || m == 0x10 || m == 0x20 || m == 0x40 || m == 0x80
    requires z == Apply(op, x, y)
    ensures (z & m != 0) == Holds(op, x & m != 0, y & m != 0)
  {
    match op
    case Or => OrMask(x, y, m);
    case And => AndMask(x, y, m);
    case AndNot => AndNotMask(x, y, m);
    case Xor => XorMask(x, y, m);
  }

  lemma OrBit(l: Layout, x: bv8, y: bv8, p: nat)
    requires p < 8
    ensures Bit(l, x | y, p) == (Bit(l, x, p) || Bit(l, y, p))
  {
    OneHot(l, p);
    OrMask(x, y, MaskOf(l, p));
  }

  lemma AndBit(l: Layout, x: bv8, y: bv8, p: nat)
    requires p < 8
    ensures Bit(l, x & y, p) == (Bit(l, x, p) && Bit(l, y, p))
  {
    OneHot(l, p);
    AndMask(x, y, MaskOf(l, p));
  }

  lemma AndNotBit(l: Layout, x: bv8, y: bv8, p: nat)
    requires p < 8
    ensures Bit(l, x & !y, p) == (Bit(l, x, p) && !Bit(l, y, p))
  {
    OneHot(l, p);
    AndNotMask(x, y, MaskOf(l, p));
  }

  lemma XorBit(l: Layout, x: bv8, y: bv8, p: nat)
    requires p < 8
    ensures Bit(l, x ^ y, p) == (Bit(l, x, p) != Bit(l, y, p))
  {
    OneHot(l, p);
    XorMask(x, y, MaskOf(l, p));
  }

  // Each operation checked bit by bit through a one-hot mask.

  lemma OrMask(x: bv8, y: bv8, m: bv8)
    requires m == 0x01 || m == 0x02 || m == 0x04 || m == 0x08 || m == 0x10 || m == 0x20 || m == 0x40 || m == 0x80
    ensures ((x | y) & m != 0) == ((x & m != 0) || (y & m != 0))
  {
  }

  lemma AndMask(x: bv8, y: bv8, m: bv8)
    requires m == 0x01 || m == 0x02 || m == 0x04 || m == 0x08 || m == 0x10 || m == 0x20 || m == 0x40 || m == 0x80
    ensures ((x & y) & m != 0) == ((x & m != 0) && (y & m != 0))
  {
  }

  lemma AndNotMask(x: bv8, y: bv8, m: bv8)
    requires m == 0x01 || m == 0x02 || m == 0x04 || m == 0x08 || m == 0x10 || m == 0x20 || m == 0x40 || m == 0x80
    ensures ((x & !y) & m != 0) == ((x & m != 0) && !(y & m != 0))
  {
  }

  lemma NotMask(x: bv8, m: bv8)
    requires m == 0x01 || m == 0x02 || m == 0x04 || m == 0x08 || m == 0x10 || m == 0x20 || m == 0x40 || m == 0x80
    ensures (!x & m != 0) == (!(x & m != 0))
  {
  }

  lemma XorMask(x: bv8, y: bv8, m: bv8)
    requires m == 0x01 || m == 0x02 || m == 0x04 || m == 0x08 || m == 0x10 || m == 0x20 || m == 0x40 || m == 0x80
    ensures ((x ^ y) & m != 0) == ((x & m != 0) != (y & m != 0))
  {
  }

  /** Every mask has exactly one bit set. */
  lemma OneHot(l: Layout, p: nat)
    requires p < 8
    ensures var m := MaskOf(l, p);
      m == 0x01 || m == 0x02 || m == 0x04 || m == 0x08 || m == 0x10 || m == 0x20 || m == 0x40 || m == 0x80
  {
  }

  lemma NotBit(l: Layout, x: bv8, p: nat)
    requires p < 8
    ensures Bit(l, !x, p) == !Bit(l, x, p)
  {
    OneHot(l, p);
    NotMask(x, MaskOf(l, p));
  }

  lemma ZeroBit(l: Layout, p: nat)
    requires p < 8
    ensures !Bit(l, 0, p)
  {
  }

  lemma FullBit(l: Layout, p: nat)
    requires p < 8
    ensures Bit(l, 0xFF, p)
  {
  }

  /** A word is zero exactly when none of its positions is set. */
  lemma ZeroIffNoBit(l: Layout, w: bv8)
    ensures w == 0 <==> forall p :: 0 <= p < 8 ==> !Bit(l, w, p)
  {
    if w != 0 {
      var p :| 0 <= p < 8 && Bit(l, w, p) by {
        match l
        case MsbFirst =>
          if w & 0x80 != 0 { assert Bit(l, w, 0); }
          else if w & 0x40 != 0 { assert Bit(l, w, 1); }
          else if w & 0x20 != 0 { assert Bit(l, w, 2); }
          else if w & 0x10 != 0 { assert Bit(l, w, 3); }
          else if w & 0x08 != 0 { assert Bit(l, w, 4); }
          else if w & 0x04 != 0 { assert Bit(l, w, 5); }
          else if w & 0x02 != 0 { assert Bit(l, w, 6); }
          else { assert Bit(l, w, 7); }
        case LsbFirst =>
          if w & 0x01 != 0 { assert Bit(l, w, 0); }
          else if w & 0x02 != 0 { assert Bit(l, w, 1); }
          else if w & 0x04 != 0 { assert Bit(l, w, 2); }
          else if w & 0x08 != 0 { assert Bit(l, w, 3); }
          else if w & 0x10 != 0 { assert Bit(l, w, 4); }
          else if w & 0x20 != 0 { assert Bit(l, w, 5); }
          else if w & 0x40 != 0 { assert Bit(l, w, 6); }
          else { assert Bit(l, w, 7); }
      }
    }
  }

  lemma PopCountZero(w: bv8)
    ensures PopCount(w) == 0 <==> w == 0
  {
  }

  /** `op` on packed sequences is `op` on the bits they hold. */
  lemma ZipBitAt(l: Layout, op: Op, a: seq<bv8>, b: seq<bv8>, i: nat)
    requires |a| == |b| && i < 8 * |a|
    ensures BitAt(l, Zip(op, a, b), i) == Holds(op, BitAt(l, a, i), BitAt(l, b, i))
  {
    ApplyBit(l, op, a[i / 8], b[i / 8], i % 8);
  }

  /** Word-wise `op` on two packed sets of one size is `op` on their members. */
  lemma {:induction false} ZipMembers(l: Layout, op: Op, a: seq<bv8>, b: seq<bv8>, size: nat)
    requires |a| == |b| && size <= 8 * |a|
    ensures Members(l, Zip(op, a, b), size) == SetOp(op, Members(l, a, size), Members(l, b, size))
  {
    forall i: nat | i < size
      ensures BitAt(l, Zip(op, a, b), i) == Holds(op, BitAt(l, a, i), BitAt(l, b, i))
    {
      ZipBitAt(l, op, a, b, i);
    }
  }

  /** `op` keeps the tail clear when the operands' tails let it. */
  lemma {:induction false} ZipTailClear(l: Layout, op: Op, a: seq<bv8>, b: seq<bv8>, size: nat)
    requires |a| == |b|
    requires match op
             case Or => TailClear(l, a, size) && TailClear(l, b, size)
             case And => TailClear(l, a, size) || TailClear(l, b, size)
             case AndNot => TailClear(l, a, size)
             case Xor => TailClear(l, a, size) && TailClear(l, b, size)
    ensures TailClear(l, Zip(op, a, b), size)
  {
    forall i: nat | size <= i < 8 * |a|
      ensures !BitAt(l, Zip(op, a, b), i)
    {
      ZipBitAt(l, op, a, b, i);
    }
  }

  /** Word-wise `!` complements the members below `size`. */
  lemma {:induction false} ComplementedMembers(l: Layout, a: seq<bv8>, size: nat)
    requires size <= 8 * |a|
    ensures Members(l, Complemented(a), size) == Universe(size) - Members(l, a, size)
  {
    forall i: nat | i < size
      ensures BitAt(l, Complemented(a), i) == !BitAt(l, a, i)
    {
      NotBit(l, a[i / 8], i % 8);
    }
  }

  // ---------------------------------------------------------------------------
  // Cardinality: `count_ones` over the words counts the members

  /** The number of set positions among the first `p` positions of `w`. */
  function PrefixCount(l: Layout, w: bv8, p: nat): (n: nat)
    requires p <= 8
    ensures n <= p
  {
    if p == 0 then 0 else PrefixCount(l, w, p - 1) + (if Bit(l, w, p - 1) then 1 else 0)
  }

  lemma MsbMasks(w: bv8)
    ensures Bit(MsbFirst, w, 0) == (w & 0x80 != 0)
    ensures Bit(MsbFirst, w, 1) == (w & 0x40 != 0)
    ensures Bit(MsbFirst, w, 2) == (w & 0x20 != 0)
    ensures Bit(MsbFirst, w, 3) == (w & 0x10 != 0)
    ensures Bit(MsbFirst, w, 4) == (w & 0x08 != 0)
    ensures Bit(MsbFirst, w, 5) == (w & 0x04 != 0)
    ensures Bit(MsbFirst, w, 6) == (w & 0x02 != 0)
    ensures Bit(MsbFirst, w, 7) == (w & 0x01 != 0)
  {
    assert MaskOf(MsbFirst, 0) == 0x80 && MaskOf(MsbFirst, 1) == 0x40;
    assert MaskOf(MsbFirst, 2) == 0x20 && MaskOf(MsbFirst, 3) == 0x10;
    assert MaskOf(MsbFirst, 4) == 0x08 && MaskOf(MsbFirst, 5) == 0x04;
    assert MaskOf(MsbFirst, 6) == 0x02 && MaskOf(MsbFirst, 7) == 0x01;
  }

  lemma PrefixCountMsb(w: bv8)
    ensures PrefixCount(MsbFirst, w, 8) == PopCount(w)
  {
    MsbMasks(w);
    assert PrefixCount(MsbFirst, w, 1) == (if w & 0x80 != 0 then 1 else 0);
    assert PrefixCount(MsbFirst, w, 2) == PrefixCount(MsbFirst, w, 1) + (if w & 0x40 != 0 then 1 else 0);
    assert PrefixCount(MsbFirst, w, 3) == PrefixCount(MsbFirst, w, 2) + (if w & 0x20 != 0 then 1 else 0);
    assert PrefixCount(MsbFirst, w, 4) == PrefixCount(MsbFirst, w, 3) + (if w & 0x10 != 0 then 1 else 0);
    assert PrefixCount(MsbFirst, w, 5) == PrefixCount(MsbFirst, w, 4) + (if w & 0x08 != 0 then 1 else 0);
    assert PrefixCount(MsbFirst, w, 6) == PrefixCount(MsbFirst, w, 5) + (if w & 0x04 != 0 then 1 else 0);
    assert PrefixCount(MsbFirst, w, 7) == PrefixCount(MsbFirst, w, 6) + (if w & 0x02 != 0 then 1 else 0);
    assert PrefixCount(MsbFirst, w, 8) == PrefixCount(MsbFirst, w, 7) + (if w & 0x01 != 0 then 1 else 0);
  }

  lemma PrefixCountLsb(w: bv8)
    ensures PrefixCount(LsbFirst, w, 8) == PopCount(w)
  {
    assert MaskOf(LsbFirst, 0) == 0x01 && MaskOf(LsbFirst, 1) == 0x02;
    assert MaskOf(LsbFirst, 2) == 0x04 && MaskOf(LsbFirst, 3) == 0x08;
    assert MaskOf(LsbFirst, 4) == 0x10 && MaskOf(LsbFirst, 5) == 0x20;
    assert MaskOf(LsbFirst, 6) == 0x40 && MaskOf(LsbFirst, 7) == 0x80;
    assert PrefixCount(LsbFirst, w, 1) == (if w & 0x01 != 0 then 1 else 0);
    assert PrefixCount(LsbFirst, w, 2) == PrefixCount(LsbFirst, w, 1) + (if w & 0x02 != 0 then 1 else 0);
    assert PrefixCount(LsbFirst, w, 3) == PrefixCount(LsbFirst, w, 2) + (if w & 0x04 != 0 then 1 else 0);
    assert PrefixCount(LsbFirst, w, 4) == PrefixCount(LsbFirst, w, 3) + (if w & 0x08 != 0 then 1 else 0);
    assert PrefixCount(LsbFirst, w, 5) == PrefixCount(LsbFirst, w, 4) + (if w & 0x10 != 0 then 1 else 0);
    assert PrefixCount(LsbFirst, w, 6) == PrefixCount(LsbFirst, w, 5) + (if w & 0x20 != 0 then 1 else 0);
    assert PrefixCount(LsbFirst, w, 7) == PrefixCount(LsbFirst, w, 6) + (if w & 0x40 != 0 then 1 else 0);
    assert PrefixCount(LsbFirst, w, 8) == PrefixCount(LsbFirst, w, 7) + (if w & 0x80 != 0 then 1 else 0);
  }

  /** Adding index `k` to the range adds one member exactly when its bit is set. */
  lemma MembersStep(l: Layout, ws: seq<bv8>, k: nat)
    requires k < 8 * |ws|
    ensures |Members(l, ws, k + 1)| == |Members(l, ws, k)| + (if BitAt(l, ws, k) then 1 else 0)
  {
    var s0, s1 := Members(l, ws, k), Members(l, ws, k + 1);
    var b := BitAt(l, ws, k);
    forall i: nat ensures i in s1 <==> i in s0 || (i == k && b) {
    }
    SetStep(s0, s1, k, b);
  }

  lemma SetStep(s0: set<nat>, s1: set<nat>, k: nat, b: bool)
    requires k !in s0
    requires forall i: nat :: i in s1 <==> i in s0 || (i == k && b)
    ensures |s1| == |s0| + (if b then 1 else 0)
  {
    if b {
      assert s1 == s0 + {k};
    } else {
      assert s1 == s0;
    }
  }

  lemma CountOnesPrefix(ws: seq<bv8>, j: nat)
    requires 0 < j <= |ws|
    ensures CountOnes(ws[..j]) == CountOnes(ws[..j - 1]) + PopCount(ws[j - 1])
  {
    assert ws[..j][..j - 1] == ws[..j - 1];
  }

  lemma {:induction false} MembersCount(l: Layout, ws: seq<bv8>, j: nat, p: nat)
    requires j < |ws| && p <= 8
    ensures |Members(l, ws, 8 * j + p)| == CountOnes(ws[..j]) + PrefixCount(l, ws[j], p)
    decreases j, p
  {
    if p == 0 {
      if j == 0 {
        assert Members(l, ws, 0) == {};
      } else {
        MembersCount(l, ws, j - 1, 8);
        WordCount(l, ws[j - 1]);
        CountOnesPrefix(ws, j);
      }
    } else {
      MembersCount(l, ws, j, p - 1);
      MembersCountStep(l, ws, j, p);
    }
  }

  /** One more position of word `j`: the count grows with the bit at that position. */
  lemma MembersCountStep(l: Layout, ws: seq<bv8>, j: nat, p: nat)
    requires j < |ws| && 0 < p <= 8
    requires |Members(l, ws, 8 * j + p - 1)| == CountOnes(ws[..j]) + PrefixCount(l, ws[j], p - 1)
    ensures |Members(l, ws, 8 * j + p)| == CountOnes(ws[..j]) + PrefixCount(l, ws[j], p)
  {
    var b := Bit(l, ws[j], p - 1);
    assert PrefixCount(l, ws[j], p) == PrefixCount(l, ws[j], p - 1) + (if b then 1 else 0);
    CountStep(l, ws, j, p - 1);
  }

  /** The count of members grows by one at index `8 * j + t` exactly when position `t` of word `j` is set. */
  lemma CountStep(l: Layout, ws: seq<bv8>, j: nat, t: nat)
    requires j < |ws| && t < 8
    ensures |Members(l, ws, 8 * j + t + 1)| == |Members(l, ws, 8 * j + t)| + (if Bit(l, ws[j], t) then 1 else 0)
  {
    BitAtOf(l, ws, j, t);
    MembersStep(l, ws, 8 * j + t);
  }

  lemma WordCount(l: Layout, w: bv8)
    ensures PrefixCount(l, w, 8) == PopCount(w)
  {
    if l == MsbFirst { PrefixCountMsb(w); } else { PrefixCountLsb(w); }
  }

  /** With the tail bits clear, `count_ones` over all words is the number of members. */
  lemma {:induction false} CountOnesIsCardinality(l: Layout, ws: seq<bv8>, size: nat)
    requires size <= 8 * |ws| && TailClear(l, ws, size)
    ensures CountOnes(ws) == |Members(l, ws, size)|
  {
    assert Members(l, ws, size) == Members(l, ws, 8 * |ws|);
    if |ws| == 0 {
      assert Members(l, ws, 0) == {};
    } else {
      var j := |ws| - 1;
      MembersCount(l, ws, j, 8);
      WordCount(l, ws[j]);
      assert ws[..j] == ws[..|ws| - 1];
      assert ws[..|ws|] == ws;
    }
  }

  // ---------------------------------------------------------------------------
  // Single-bit masks and shifts

  /** The mask with only position `p` set: `1 << (8 - 1 - p)` MSB-first, `1 << p` LSB-first. */
  function MaskOf(l: Layout, p: nat): bv8
    requires p < 8
  {
    Pow2(Shift(l, p))
  }

  /** `1 << s`, one case per amount. */
  function Pow2(s: nat): bv8
    requires s < 8
  {
    match s
    case 0 => 0x01
    case 1 => 0x02
    case 2 => 0x04
    case 3 => 0x08
    case 4 => 0x10
    case 5 => 0x20
    case 6 => 0x40
    case _ => 0x80
  }

  lemma MaskBitOf(l: Layout, p: nat, q: nat)
    requires p < 8 && q < 8
    ensures Bit(l, MaskOf(l, p), q) == (q == p)
  {
    assert Shift(l, p) == Shift(l, q) <==> p == q;
  }

  lemma MaskTest(l: Layout, w: bv8, p: nat)
    requires p < 8
    ensures (MaskOf(l, p) & w != 0) == Bit(l, w, p)
  {
  }

  lemma MaskSet(l: Layout, w: bv8, p: nat, q: nat)
    requires p < 8 && q < 8
    ensures Bit(l, MaskOf(l, p) | w, q) == (q == p || Bit(l, w, q))
  {
    OrBit(l, MaskOf(l, p), w, q);
    MaskBitOf(l, p, q);
  }

  lemma MaskClear(l: Layout, w: bv8, p: nat, q: nat)
    requires p < 8 && q < 8
    ensures Bit(l, !MaskOf(l, p) & w, q) == (q != p && Bit(l, w, q))
  {
    AndBit(l, !MaskOf(l, p), w, q);
    NotBit(l, MaskOf(l, p), q);
    MaskBitOf(l, p, q);
  }

  lemma MaskKeep(l: Layout, w: bv8, p: nat, q: nat)
    requires p < 8 && q < 8
    ensures Bit(l, MaskOf(l, p) & w, q) == (q == p && Bit(l, w, q))
  {
    AndBit(l, MaskOf(l, p), w, q);
    MaskBitOf(l, p, q);
  }

  /** MSB-first, `<< s` moves position `p + s` to position `p`. */
  lemma ShlBit(w: bv8, s: nat, p: nat)
    requires s <= 8 && p < 8
    ensures Bit(MsbFirst, w << s, p) == (p + s < 8 && Bit(MsbFirst, w, p + s))
  {
  }

  /** MSB-first, `>> s` moves position `p - s` to position `p`. */
  lemma ShrBit(w: bv8, s: nat, p: nat)
    requires s <= 8 && p < 8
    ensures Bit(MsbFirst, w >> s, p) == (p >= s && Bit(MsbFirst, w, p - s))
  {
  }

  /**
   * `w << s` and `w >> s` written out for each amount, so that a word built
   * from shifts by a computed amount is compared without converting that amount.
   */
  function Shl(w: bv8, s: nat): bv8
    requires s <= 8
  {
    match s
    case 0 => w
    case 1 => w << 1
    case 2 => w << 2
    case 3 => w << 3
    case 4 => w << 4
    case 5 => w << 5
    case 6 => w << 6
    case 7 => w << 7
    case _ => 0
  }

  function Shr(w: bv8, s: nat): bv8
    requires s <= 8
  {
    match s
    case 0 => w
    case 1 => w >> 1
    case 2 => w >> 2
    case 3 => w >> 3
    case 4 => w >> 4
    case 5 => w >> 5
    case 6 => w >> 6
    case 7 => w >> 7
    case _ => 0
  }

  lemma ShlIs(w: bv8, s: nat)
    requires s <= 8
    ensures Shl(w, s) == w << s
  {
  }

  lemma ShrIs(w: bv8, s: nat)
    requires s <= 8
    ensures Shr(w, s) == w >> s
  {
  }

  lemma ShlFnBit(w: bv8, s: nat, p: nat)
    requires s <= 8 && p < 8
    ensures Bit(MsbFirst, Shl(w, s), p) == (p + s < 8 && Bit(MsbFirst, w, p + s))
  {
    ShlIs(w, s);
    ShlBit(w, s, p);
  }

  lemma ShrFnBit(w: bv8, s: nat, p: nat)
    requires s <= 8 && p < 8
    ensures Bit(MsbFirst, Shr(w, s), p) == (p >= s && Bit(MsbFirst, w, p - s))
  {
    ShrIs(w, s);
    ShrBit(w, s, p);
  }

  lemma ShlShl(w: bv8, s: nat)
    requires s < 8
    ensures (w << s) << 1 == w << (s + 1)
  {
  }

  lemma ShlAll(w: bv8)
    ensures w << 8 == 0
  {
  }

  /** The top-bit test of the iterator: `(w & (1 << 7)) == (1 << 7)`. */
  lemma TopBit(w: bv8)
    ensures (w & 0x80 == 0x80) == Bit(MsbFirst, w, 0)
  {
  }

  /** Shifting out the top bit removes one set bit when it was set, none otherwise. */
  lemma PopCountShl(w: bv8)
    ensures Bit(MsbFirst, w, 0) ==> PopCount(w << 1) + 1 == PopCount(w)
    ensures !Bit(MsbFirst, w, 0) ==> PopCount(w << 1) == PopCount(w)
  {
  }

  // ---------------------------------------------------------------------------
  // Packed sequences built or changed as a whole, and one index at a time

  /** `size` words, all `UINT::MAX` (0xFF) or all `UINT::MIN` (0x00). */
  function Filled(value: bool, k: nat): (ws: seq<bv8>)
    ensures |ws| == k
  {
    seq(k, _ => if value then 0xFF else 0x00)
  }

  lemma {:induction false} FilledMembers(l: Layout, value: bool, k: nat, size: nat)
    requires size <= 8 * k
    ensures Members(l, Filled(value, k), size) == if value then Universe(size) else {}
    ensures !value ==> TailClear(l, Filled(value, k), size)
  {
    forall i: nat | i < 8 * k
      ensures BitAt(l, Filled(value, k), i) == value
    {
      if value { FullBit(l, i % 8); } else { ZeroBit(l, i % 8); }
    }
  }

  /** The word of index `n` with the mask of `n` or-ed in (`insert`). */
  function WithBit(l: Layout, ws: seq<bv8>, n: nat): (r: seq<bv8>)
    requires n < 8 * |ws|
    ensures |r| == |ws|
  {
    ws[n / 8 := MaskOf(l, n % 8) | ws[n / 8]]
  }

  /** The word of index `n` and-ed with the negated mask of `n` (`remove`). */
  function WithoutBit(l: Layout, ws: seq<bv8>, n: nat): (r: seq<bv8>)
    requires n < 8 * |ws|
    ensures |r| == |ws|
  {
    ws[n / 8 := !MaskOf(l, n % 8) & ws[n / 8]]
  }

  lemma WithBitAt(l: Layout, ws: seq<bv8>, n: nat, i: nat)
    requires n < 8 * |ws| && i < 8 * |ws|
    ensures BitAt(l, WithBit(l, ws, n), i) == (i == n || BitAt(l, ws, i))
  {
    if i / 8 == n / 8 {
      WithBitSameWord(l, ws, n, i);
    }
  }

  lemma WithBitSameWord(l: Layout, ws: seq<bv8>, n: nat, i: nat)
    requires n < 8 * |ws| && i < 8 * |ws| && i / 8 == n / 8
    ensures BitAt(l, WithBit(l, ws, n), i) == (i == n || BitAt(l, ws, i))
  {
    var j := n / 8;
    SetBitOf(l, ws[j], WithBit(l, ws, n)[j], n % 8, i % 8);
    SameWord(i, n);
  }

  lemma SetBitOf(l: Layout, w: bv8, x: bv8, p: nat, q: nat)
    requires p < 8 && q < 8 && x == MaskOf(l, p) | w
    ensures Bit(l, x, q) == (q == p || Bit(l, w, q))
  {
    MaskSet(l, w, p, q);
  }

  lemma WithoutBitAt(l: Layout, ws: seq<bv8>, n: nat, i: nat)
    requires n < 8 * |ws| && i < 8 * |ws|
    ensures BitAt(l, WithoutBit(l, ws, n), i) == (i != n && BitAt(l, ws, i))
  {
    if i / 8 == n / 8 {
      WithoutBitSameWord(l, ws, n, i);
    }
  }

  lemma WithoutBitSameWord(l: Layout, ws: seq<bv8>, n: nat, i: nat)
    requires n < 8 * |ws| && i < 8 * |ws| && i / 8 == n / 8
    ensures BitAt(l, WithoutBit(l, ws, n), i) == (i != n && BitAt(l, ws, i))
  {
    var j := n / 8;
    ClearBitOf(l, ws[j], WithoutBit(l, ws, n)[j], n % 8, i % 8);
    SameWord(i, n);
  }

  lemma ClearBitOf(l: Layout, w: bv8, x: bv8, p: nat, q: nat)
    requires p < 8 && q < 8 && x == !MaskOf(l, p) & w
    ensures Bit(l, x, q) == (q != p && Bit(l, w, q))
  {
    MaskClear(l, w, p, q);
  }

  /** Two indices of the same word are equal exactly when their positions are. */
  lemma SameWord(i: nat, n: nat)
    requires i / 8 == n / 8
    ensures i == n <==> i % 8 == n % 8
  {
  }

  /** `insert(n)` adds exactly `n` and keeps a clear tail clear. */
  lemma {:induction false} WithBitMembers(l: Layout, ws: seq<bv8>, size: nat, n: nat)
    requires n < size <= 8 * |ws|
    ensures Members(l, WithBit(l, ws, n), size) == Members(l, ws, size) + {n}
    ensures TailClear(l, ws, size) ==> TailClear(l, WithBit(l, ws, n), size)
  {
    forall i: nat | i < 8 * |ws|
      ensures BitAt(l, WithBit(l, ws, n), i) == (i == n || BitAt(l, ws, i))
    {
      WithBitAt(l, ws, n, i);
    }
  }

  /** `remove(n)` (with `!mask`) takes out exactly `n` and keeps a clear tail clear. */
  lemma {:induction false} WithoutBitMembers(l: Layout, ws: seq<bv8>, size: nat, n: nat)
    requires n < size <= 8 * |ws|
    ensures Members(l, WithoutBit(l, ws, n), size) == Members(l, ws, size) - {n}
    ensures TailClear(l, ws, size) ==> TailClear(l, WithoutBit(l, ws, n), size)
  {
    forall i: nat | i < 8 * |ws|
      ensures BitAt(l, WithoutBit(l, ws, n), i) == (i != n && BitAt(l, ws, i))
    {
      WithoutBitAt(l, ws, n, i);
    }
  }

  // ---------------------------------------------------------------------------
  // The word-scanning predicates and what they say about the members

  /** Every word is zero: what `is_empty` scans for. */
  ghost predicate AllZero(ws: seq<bv8>)
  {
    forall k :: 0 <= k < |ws| ==> ws[k] == 0
  }

  /** Every word of `a` has `op` with the same word of `b` zero (`b` may be longer). */
  ghost predicate ZipZero(op: Op, a: seq<bv8>, b: seq<bv8>)
    requires |a| <= |b|
  {
    forall k :: 0 <= k < |a| ==> Apply(op, a[k], b[k]) == 0
  }

  /** Position `p` of word `k` is index `8 * k + p`. */
  lemma IndexOf(k: nat, p: nat)
    requires p < 8
    ensures (8 * k + p) / 8 == k && (8 * k + p) % 8 == p
  {
  }

  /** Index `8 * k + t` of a packed sequence is position `t` of word `k`. */
  lemma BitAtOf(l: Layout, ws: seq<bv8>, k: nat, t: nat)
    requires k < |ws| && t < 8
    ensures BitAt(l, ws, 8 * k + t) == Bit(l, ws[k], t)
  {
    IndexOf(k, t);
  }

  lemma {:induction false} AllZeroMembers(l: Layout, ws: seq<bv8>, size: nat)
    requires size <= 8 * |ws|
    ensures AllZero(ws) ==> Members(l, ws, size) == {}
  {
    if AllZero(ws) {
      forall i: nat | i < size ensures !BitAt(l, ws, i) {
        ZeroBit(l, i % 8);
      }
    }
  }

  lemma {:induction false} MembersAllZero(l: Layout, ws: seq<bv8>, size: nat)
    requires size <= 8 * |ws|
    requires TailClear(l, ws, size) && Members(l, ws, size) == {}
    ensures AllZero(ws)
  {
    forall k | 0 <= k < |ws| ensures ws[k] == 0 {
      var w := ws[k];
      forall p | 0 <= p < 8 ensures !Bit(l, w, p) {
        IndexOf(k, p);
        var i := 8 * k + p;
        if i < size {
          assert i !in Members(l, ws, size);
        } else {
          assert !BitAt(l, ws, i);
        }
      }
      ZeroIffNoBit(l, w);
    }
  }

  /** A nonzero word `i`: not all zero, and, with a clear tail, some member. */
  lemma NotEmpty(l: Layout, ws: seq<bv8>, size: nat, i: nat)
    requires size <= 8 * |ws| && i < |ws| && ws[i] != 0
    ensures !AllZero(ws)
    ensures TailClear(l, ws, size) ==> Members(l, ws, size) != {}
  {
    if TailClear(l, ws, size) && Members(l, ws, size) == {} {
      MembersAllZero(l, ws, size);
    }
  }

  lemma {:induction false} DisjointMembers(l: Layout, a: seq<bv8>, b: seq<bv8>, size: nat)
    requires |a| == |b| && size <= 8 * |a|
    ensures ZipZero(And, a, b) ==> Members(l, a, size) * Members(l, b, size) == {}
  {
    if ZipZero(And, a, b) {
      forall i: nat | i < size ensures !(BitAt(l, a, i) && BitAt(l, b, i)) {
        AndBit(l, a[i / 8], b[i / 8], i % 8);
        ZeroBit(l, i % 8);
        assert Apply(And, a[i / 8], b[i / 8]) == 0;
      }
    }
  }

  lemma {:induction false} MembersDisjoint(l: Layout, a: seq<bv8>, b: seq<bv8>, size: nat)
    requires |a| == |b| && size <= 8 * |a|
    requires TailClear(l, a, size) || TailClear(l, b, size)
    requires Members(l, a, size) * Members(l, b, size) == {}
    ensures ZipZero(And, a, b)
  {
    forall k | 0 <= k < |a| ensures Apply(And, a[k], b[k]) == 0 {
      var w := a[k] & b[k];
      forall p | 0 <= p < 8 ensures !Bit(l, w, p) {
        AndBit(l, a[k], b[k], p);
        DisjointPosition(l, a, b, size, k, p);
      }
      ZeroIffNoBit(l, w);
    }
  }

  /** Disjoint members and a clear tail leave no position set in both words `k`. */
  lemma DisjointPosition(l: Layout, a: seq<bv8>, b: seq<bv8>, size: nat, k: nat, p: nat)
    requires |a| == |b| && size <= 8 * |a| && k < |a| && p < 8
    requires TailClear(l, a, size) || TailClear(l, b, size)
    requires Members(l, a, size) * Members(l, b, size) == {}
    ensures !(Bit(l, a[k], p) && Bit(l, b[k], p))
  {
    BitAtOf(l, a, k, p);
    BitAtOf(l, b, k, p);
    var i := 8 * k + p;
    if i < size {
      assert i !in Members(l, a, size) * Members(l, b, size);
    } else if TailClear(l, a, size) {
      assert !BitAt(l, a, i);
    } else {
      assert !BitAt(l, b, i);
    }
  }

  /** A word `i` with a common bit: not disjoint word-wise, and, with a clear tail, not disjoint as sets. */
  lemma NotDisjoint(l: Layout, a: seq<bv8>, b: seq<bv8>, size: nat, i: nat)
    requires |a| == |b| && size <= 8 * |a| && i < |a| && a[i] & b[i] != 0
    ensures !ZipZero(And, a, b)
    ensures TailClear(l, a, size) || TailClear(l, b, size) ==> Members(l, a, size) * Members(l, b, size) != {}
  {
    assert Apply(And, a[i], b[i]) != 0;
    if (TailClear(l, a, size) || TailClear(l, b, size)) && Members(l, a, size) * Members(l, b, size) == {} {
      MembersDisjoint(l, a, b, size);
    }
  }

  /** `a & !b` zero in every word of `a` (what `is_subset` scans for) puts the members of `a` among those of `b`. */
  lemma {:induction false} SubsetMembers(l: Layout, a: seq<bv8>, b: seq<bv8>, sa: nat, sb: nat)
    requires |a| <= |b| && sa <= 8 * |a| && sb <= 8 * |b| && sa <= sb
    ensures ZipZero(AndNot, a, b) ==> Members(l, a, sa) <= Members(l, b, sb)
  {
    if ZipZero(AndNot, a, b) {
      forall i: nat | i < sa && BitAt(l, a, i) ensures BitAt(l, b, i) {
        AndNotBit(l, a[i / 8], b[i / 8], i % 8);
        ZeroBit(l, i % 8);
        assert Apply(AndNot, a[i / 8], b[i / 8]) == 0;
      }
    }
  }

  /** With `a`'s tail clear, inclusion of the members makes `a & !b` zero in every word of `a`. */
  lemma {:induction false} MembersSubset(l: Layout, a: seq<bv8>, b: seq<bv8>, sa: nat, sb: nat)
    requires |a| <= |b| && sa <= 8 * |a| && sb <= 8 * |b| && sa <= sb
    requires TailClear(l, a, sa) && Members(l, a, sa) <= Members(l, b, sb)
    ensures ZipZero(AndNot, a, b)
  {
    forall k | 0 <= k < |a| ensures Apply(AndNot, a[k], b[k]) == 0 {
      var w := a[k] & !b[k];
      forall p | 0 <= p < 8 ensures !Bit(l, w, p) {
        AndNotBit(l, a[k], b[k], p);
        SubsetPosition(l, a, b, sa, sb, k, p);
      }
      ZeroIffNoBit(l, w);
    }
  }

  /** Included members and a clear tail of `a` put every set position of `a[k]` in `b[k]`. */
  lemma SubsetPosition(l: Layout, a: seq<bv8>, b: seq<bv8>, sa: nat, sb: nat, k: nat, p: nat)
    requires |a| <= |b| && sa <= 8 * |a| && sb <= 8 * |b| && sa <= sb && k < |a| && p < 8
    requires TailClear(l, a, sa) && Members(l, a, sa) <= Members(l, b, sb)
    ensures Bit(l, a[k], p) ==> Bit(l, b[k], p)
  {
    BitAtOf(l, a, k, p);
    BitAtOf(l, b, k, p);
    var i := 8 * k + p;
    if BitAt(l, a, i) {
      assert i in Members(l, a, sa);
      assert i in Members(l, b, sb);
    }
  }

  /** A word `i` of `a` with a bit missing from `b`: not a subset word-wise, and, with a clear tail, not as sets. */
  lemma NotSubset(l: Layout, a: seq<bv8>, b: seq<bv8>, sa: nat, sb: nat, i: nat)
    requires |a| <= |b| && sa <= 8 * |a| && sb <= 8 * |b| && i < |a| && a[i] & !b[i] != 0
    ensures !ZipZero(AndNot, a, b)
    ensures TailClear(l, a, sa) && sa <= sb ==> !(Members(l, a, sa) <= Members(l, b, sb))
  {
    assert Apply(AndNot, a[i], b[i]) != 0;
    if TailClear(l, a, sa) && sa <= sb && Members(l, a, sa) <= Members(l, b, sb) {
      MembersSubset(l, a, b, sa, sb);
    }
  }
}
