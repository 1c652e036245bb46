/**
 * The constant mask tables of the truth-table engine and the "entry i is
 * bit i of the word" view that every other module states its contracts in.
 */
module Masks {

  /** The largest arity whose truth table fits in one 64-bit word. */
  const MaxVars: nat := 6

  /** An arity: a number of variables, 0 to 6. */
  type Arity = n: nat | n <= MaxVars

  /** An entry index, an unsigned byte as in the source; variable indices are `nat`s below `MaxVars`. */
  type Index = bv8

  /** The table `length_mask`: entry n keeps exactly the low 2^n bits. */
  const LengthMasks: seq<bv64> := [
    0x0000_0000_0000_0001, 0x0000_0000_0000_0003, 0x0000_0000_0000_000f,
    0x0000_0000_0000_00ff, 0x0000_0000_0000_ffff, 0x0000_0000_ffff_ffff,
    0xffff_ffff_ffff_ffff]

  /** The table `var_mask_pos`: entry v has the bits of the entries at which variable v is 1. */
  const VarMasksPos: seq<bv64> := [
    0xaaaa_aaaa_aaaa_aaaa, 0xcccc_cccc_cccc_cccc, 0xf0f0_f0f0_f0f0_f0f0,
    0xff00_ff00_ff00_ff00, 0xffff_0000_ffff_0000, 0xffff_ffff_0000_0000]

  /** The table `var_mask_neg`: entry v has the bits of the entries at which variable v is 0. */
  const VarMasksNeg: seq<bv64> := [
    0x5555_5555_5555_5555, 0x3333_3333_3333_3333, 0x0f0f_0f0f_0f0f_0f0f,
    0x00ff_00ff_00ff_00ff, 0x0000_ffff_0000_ffff, 0x0000_0000_ffff_ffff]

  /** `length_mask[n]`. */
  function LengthMask(n: Arity): bv64 {
    LengthMasks[n]
  }

  /** `var_mask_pos[v]`. */
  function VarMaskPos(v: nat): bv64
    requires v < MaxVars
  {
    VarMasksPos[v]
  }

  /** `var_mask_neg[v]`. */
  function VarMaskNeg(v: nat): bv64
    requires v < MaxVars
  {
    VarMasksNeg[v]
  }

  /** Reference view of a word: entry i is bit i; there are no entries from 64 on. */
  predicate Bit(w: bv64, i: Index) {
    i < 64 && (w >> i) & 1 == 1
  }

  /** `1 << n` for n = 0 .. 6, as a table (see `PowersOfTwo`). */
  const PowerOfTwo: seq<Index> := [1, 2, 4, 8, 16, 32, 64]

  /** The number of entries of a table of arity n, `1 << n`. */
  function Size(n: Arity): Index {
    PowerOfTwo[n]
  }

  /** `1 << v`: the bit of an entry index that holds the value of variable v. */
  function VarBit(v: nat): Index
    requires v < MaxVars
  {
    PowerOfTwo[v]
  }

  /**
   * Forcing variable v < n to 1, to 0, or flipping it, keeps an entry index
   * of arity n inside the table.
   */
  lemma VarIndexInRange(n: Arity, v: nat, i: Index)
    requires v < n && i < Size(n)
    ensures i | VarBit(v) < Size(n) && i & !VarBit(v) < Size(n) && i ^ VarBit(v) < Size(n)
  {
  }

  /** Every table has at most 64 entries. */
  lemma SizeAtMost64(n: Arity)
    ensures Size(n) <= 64
  {
  }

  /** Flipping variable v of an index and then forcing v gives the same index as forcing v directly. */
  lemma FlipThenForce(i: Index, v: nat)
    requires v < MaxVars
    ensures (i ^ VarBit(v)) | VarBit(v) == i | VarBit(v)
    ensures (i ^ VarBit(v)) & !VarBit(v) == i & !VarBit(v)
  {
  }

  /** Forcing variable v of an index gives either the index itself or the index with v flipped. */
  lemma ForceIsSelfOrFlip(i: Index, v: nat)
    requires v < MaxVars
    ensures i | VarBit(v) == i || i | VarBit(v) == i ^ VarBit(v)
    ensures i & !VarBit(v) == i || i & !VarBit(v) == i ^ VarBit(v)
  {
  }

  /** Whether variable v is 1 in the input assignment numbered i. */
  predicate HasVar(i: Index, v: nat)
    requires v < MaxVars
  {
    i & VarBit(v) != 0
  }

  function Pow2(n: nat): (r: nat)
    ensures r >= 1
  {
    if n == 0 then 1 else 2 * Pow2(n - 1)
  }

  /** The table `PowerOfTwo` holds the shifts `1 << n`. */
  lemma PowersOfTwo(n: Arity)
    ensures PowerOfTwo[n] == (1 as bv8) << n
  {
  }

  /** The bv8 entry count and the integer one agree. */
  lemma SizeIsPow2(n: Arity)
    ensures Size(n) as int == Pow2(n) && Pow2(n) <= 64
  {
    if n == 0 {
    } else if n == 1 {
    } else if n == 2 {
    } else if n == 3 {
    } else if n == 4 {
    } else if n == 5 {
    } else {
      assert Pow2(6) == 64;
    }
  }

  /** `LengthMask(n)` selects exactly the entries below 2^n. */
  lemma LengthMaskAt(n: Arity, i: Index)
    ensures Bit(LengthMask(n), i) <==> i < Size(n)
  {
    match n
    case 0 => LengthMaskAt0(n, i);
    case 1 => LengthMaskAt1(n, i);
    case 2 => LengthMaskAt2(n, i);
    case 3 => LengthMaskAt3(n, i);
    case 4 => LengthMaskAt4(n, i);
    case 5 => LengthMaskAt5(n, i);
    case 6 => LengthMaskAt6(n, i);
  }

  // One lemma per arity keeps each bit-vector query small; stating each one
  // for a symbolic n lets the dispatcher above use it as it stands.
  lemma LengthMaskAt0(n: Arity, i: Index) requires n == 0 ensures Bit(LengthMask(n), i) <==> i < Size(n) {}
  lemma LengthMaskAt1(n: Arity, i: Index) requires n == 1 ensures Bit(LengthMask(n), i) <==> i < Size(n) {}
  lemma LengthMaskAt2(n: Arity, i: Index) requires n == 2 ensures Bit(LengthMask(n), i) <==> i < Size(n) {}
  lemma LengthMaskAt3(n: Arity, i: Index) requires n == 3 ensures Bit(LengthMask(n), i) <==> i < Size(n) {}
  lemma LengthMaskAt4(n: Arity, i: Index) requires n == 4 ensures Bit(LengthMask(n), i) <==> i < Size(n) {}
  lemma LengthMaskAt5(n: Arity, i: Index) requires n == 5 ensures Bit(LengthMask(n), i) <==> i < Size(n) {}
  lemma LengthMaskAt6(n: Arity, i: Index) requires n == 6 ensures Bit(LengthMask(n), i) <==> i < Size(n) {}

  /** Masking a word with `LengthMask(n)` keeps its entries below 2^n and clears the rest. */
  lemma TruncateAt(n: Arity, w: bv64, i: Index)
    ensures Bit(w & LengthMask(n), i) <==> i < Size(n) && Bit(w, i)
  {
    AndBit(w, LengthMask(n), i);
    LengthMaskAt(n, i);
  }

  /** `VarMaskPos(v)` selects the entries where variable v is 1. */
  lemma VarMaskPosAt(v: nat, i: Index)
    requires v < MaxVars && i < 64
    ensures Bit(VarMaskPos(v), i) <==> HasVar(i, v)
  {
    match v
    case 0 => VarMaskPosAt0(v, i);
    case 1 => VarMaskPosAt1(v, i);
    case 2 => VarMaskPosAt2(v, i);
    case 3 => VarMaskPosAt3(v, i);
    case 4 => VarMaskPosAt4(v, i);
    case 5 => VarMaskPosAt5(v, i);
  }

  lemma VarMaskPosAt0(v: nat, i: Index) requires v == 0 && i < 64 ensures Bit(VarMaskPos(v), i) <==> HasVar(i, v) {}
  lemma VarMaskPosAt1(v: nat, i: Index) requires v == 1 && i < 64 ensures Bit(VarMaskPos(v), i) <==> HasVar(i, v) {}
  lemma VarMaskPosAt2(v: nat, i: Index) requires v == 2 && i < 64 ensures Bit(VarMaskPos(v), i) <==> HasVar(i, v) {}
  lemma VarMaskPosAt3(v: nat, i: Index) requires v == 3 && i < 64 ensures Bit(VarMaskPos(v), i) <==> HasVar(i, v) {}
  lemma VarMaskPosAt4(v: nat, i: Index) requires v == 4 && i < 64 ensures Bit(VarMaskPos(v), i) <==> HasVar(i, v) {}
  lemma VarMaskPosAt5(v: nat, i: Index) requires v == 5 && i < 64 ensures Bit(VarMaskPos(v), i) <==> HasVar(i, v) {}

  /** Each negative mask is the complement of the positive one. */
  lemma VarMaskNegIsNot(v: nat)
    requires v < MaxVars
    ensures VarMaskNeg(v) == !VarMaskPos(v)
  {
  }

  /**
   * The index of the lowest set bit of a nonzero word: bit v of the index is
   * set exactly when that bit lies inside `VarMaskPos(v)` (written out here).
   */
  ghost function LowestSetBit(d: bv64): Index {
    var low := d & (0 - d);
    (if low & 0xaaaa_aaaa_aaaa_aaaa != 0 then 1 else 0) |
    (if low & 0xcccc_cccc_cccc_cccc != 0 then 2 else 0) |
    (if low & 0xf0f0_f0f0_f0f0_f0f0 != 0 then 4 else 0) |
    (if low & 0xff00_ff00_ff00_ff00 != 0 then 8 else 0) |
    (if low & 0xffff_0000_ffff_0000 != 0 then 16 else 0) |
    (if low & 0xffff_ffff_0000_0000 != 0 then 32 else 0)
  }

  lemma LowestSetBitIsSet(d: bv64)
    requires d != 0
    ensures Bit(d, LowestSetBit(d))
  {
  }

  /** A nonzero word has a set entry. */
  lemma NonzeroHasBit(d: bv64)
    requires d != 0
    ensures exists i: Index :: Bit(d, i)
  {
    LowestSetBitIsSet(d);
  }

  lemma NotBit(a: bv64, i: Index)
    requires i < 64
    ensures Bit(!a, i) == !Bit(a, i)
  {
  }

  lemma AndBit(a: bv64, b: bv64, i: Index)
    ensures Bit(a & b, i) == (Bit(a, i) && Bit(b, i))
  {
  }

  lemma OrBit(a: bv64, b: bv64, i: Index)
    ensures Bit(a | b, i) == (Bit(a, i) || Bit(b, i))
  {
  }

  lemma XorBit(a: bv64, b: bv64, i: Index)
    ensures Bit(a ^ b, i) == (Bit(a, i) != Bit(b, i))
  {
  }

  /** `uint64_t(1) << p` has exactly entry p set. */
  lemma OneHotAt(p: Index, q: Index)
    requires p < 64
    ensures Bit((1 as bv64) << p, q) <==> q == p
  {
  }

  /** An entry number below 64 survives the conversion to an index and back. */
  lemma IntAsIndex(j: nat)
    requires j < 64
    ensures (j as Index) as int == j
  {
    assert j % 256 == j;
  }

  /** An entry whose integer value is below 64 is below 64. */
  lemma IndexBelow64(i: Index)
    requires i as int < 64
    ensures i < 64
  {
  }

  /** The entry below a nonzero entry q has integer value q - 1. */
  lemma PredecessorAsInt(q: Index)
    requires q != 0
    ensures (q - 1) as int == q as int - 1
  {
  }

  /** Switching on bit p of a word sets entry p and keeps the others. */
  lemma OrOneHotAt(x: bv64, p: Index, q: Index)
    requires p < 64
    ensures Bit(x | ((1 as bv64) << p), q) <==> q == p || Bit(x, q)
  {
    OrBit(x, (1 as bv64) << p, q);
    OneHotAt(p, q);
  }

  /** Shifting a word left by one and filling bit 0 moves entry q - 1 to q. */
  lemma ShiftInBit(w: bv64, d: bv64, q: Index)
    requires d <= 1 && q < 64
    ensures Bit((w << 1) | d, q) == if q == 0 then d == 1 else Bit(w, q - 1)
  {
  }

  /** Words are determined by their 64 entries. */
  lemma BitsExt(a: bv64, b: bv64)
    requires forall i: Index :: Bit(a, i) == Bit(b, i)
    ensures a == b
  {
    var d := a ^ b;
    if d != 0 {
      NonzeroHasBit(d);
      var i: Index :| Bit(d, i);
      XorBit(a, b, i);
    }
  }

  // Whole-word identities under a mask m, used where a result is truncated twice.

  lemma ClearedOutside(w: bv64, m: bv64)
    requires w & !m == 0
    ensures w & m == w
  {
  }

  lemma DoubleComplementInside(x: bv64, m: bv64)
    requires x & !m == 0
    ensures !(!x & m) & m == x
  {
  }
}
