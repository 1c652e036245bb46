/**
 * The word-level arithmetic of the two cofactors: each keeps the entries on
 * one side of variable v and copies them across, by a mask and one shift.
 */
module CofactorWords {
  import opened Masks

  /** The positive-cofactor word: the entries where v is 1, copied down onto those where v is 0. */
  function PositiveCofactorWord(w: bv64, v: nat): bv64
    requires v < MaxVars
  {
    (w & VarMaskPos(v)) | ((w & VarMaskPos(v)) >> VarBit(v))
  }

  /** The negative-cofactor word: the entries where v is 0, copied up onto those where v is 1. */
  function NegativeCofactorWord(w: bv64, v: nat): bv64
    requires v < MaxVars
  {
    (w & VarMaskNeg(v)) | ((w & VarMaskNeg(v)) << VarBit(v))
  }

  /** Entry i of the positive-cofactor word is entry i of the input with bit v of i forced to 1. */
  lemma PositiveCofactorWordAt(w: bv64, v: nat, i: Index)
    requires v < MaxVars
    ensures Bit(PositiveCofactorWord(w, v), i) == Bit(w, i | VarBit(v))
  {
    match v
    case 0 => PositiveCofactorWordAt0(w, v, i);
    case 1 => PositiveCofactorWordAt1(w, v, i);
    case 2 => PositiveCofactorWordAt2(w, v, i);
    case 3 => PositiveCofactorWordAt3(w, v, i);
    case 4 => PositiveCofactorWordAt4(w, v, i);
    case 5 => PositiveCofactorWordAt5(w, v, i);
  }

  /** Entry i of the negative-cofactor word is entry i of the input with bit v of i forced to 0. */
  lemma NegativeCofactorWordAt(w: bv64, v: nat, i: Index)
    requires v < MaxVars
    ensures Bit(NegativeCofactorWord(w, v), i) == Bit(w, i & !VarBit(v))
  {
    match v
    case 0 => NegativeCofactorWordAt0(w, v, i);
    case 1 => NegativeCofactorWordAt1(w, v, i);
    case 2 => NegativeCofactorWordAt2(w, v, i);
    case 3 => NegativeCofactorWordAt3(w, v, i);
    case 4 => NegativeCofactorWordAt4(w, v, i);
    case 5 => NegativeCofactorWordAt5(w, v, i);
  }

  /** Entry i of the positive-cofactor word does not change when bit v of i is flipped. */
  lemma PositiveCofactorWordIgnoresVar(w: bv64, v: nat, i: Index)
    requires v < MaxVars
    ensures Bit(PositiveCofactorWord(w, v), i) == Bit(PositiveCofactorWord(w, v), i ^ VarBit(v))
  {
    PositiveCofactorWordFlipUp(w, v, i);
    PositiveCofactorWordFlipDown(w, v, i);
  }

  /** Entry i of the negative-cofactor word does not change when bit v of i is flipped. */
  lemma NegativeCofactorWordIgnoresVar(w: bv64, v: nat, i: Index)
    requires v < MaxVars
    ensures Bit(NegativeCofactorWord(w, v), i) == Bit(NegativeCofactorWord(w, v), i ^ VarBit(v))
  {
    NegativeCofactorWordFlipUp(w, v, i);
    NegativeCofactorWordFlipDown(w, v, i);
  }

  // The two directions of each equality above are proved apart: each is
  // settled by propagation alone, where the equality makes the solver split
  // cases over the bits of the words.

  lemma PositiveCofactorWordFlipUp(w: bv64, v: nat, i: Index)
    requires v < MaxVars
    ensures Bit(PositiveCofactorWord(w, v), i) ==> Bit(PositiveCofactorWord(w, v), i ^ VarBit(v))
  {
    FlipThenForce(i, v);
    PositiveCofactorWordAt(w, v, i);
    PositiveCofactorWordAt(w, v, i ^ VarBit(v));
  }

  lemma PositiveCofactorWordFlipDown(w: bv64, v: nat, i: Index)
    requires v < MaxVars
    ensures Bit(PositiveCofactorWord(w, v), i ^ VarBit(v)) ==> Bit(PositiveCofactorWord(w, v), i)
  {
    FlipThenForce(i, v);
    PositiveCofactorWordAt(w, v, i);
    PositiveCofactorWordAt(w, v, i ^ VarBit(v));
  }

  lemma NegativeCofactorWordFlipUp(w: bv64, v: nat, i: Index)
    requires v < MaxVars
    ensures Bit(NegativeCofactorWord(w, v), i) ==> Bit(NegativeCofactorWord(w, v), i ^ VarBit(v))
  {
    FlipThenForce(i, v);
    NegativeCofactorWordAt(w, v, i);
    NegativeCofactorWordAt(w, v, i ^ VarBit(v));
  }

  lemma NegativeCofactorWordFlipDown(w: bv64, v: nat, i: Index)
    requires v < MaxVars
    ensures Bit(NegativeCofactorWord(w, v), i ^ VarBit(v)) ==> Bit(NegativeCofactorWord(w, v), i)
  {
    FlipThenForce(i, v);
    NegativeCofactorWordAt(w, v, i);
    NegativeCofactorWordAt(w, v, i ^ VarBit(v));
  }

  // For each variable k: the table entries and the shift pinned to literals,
  // the cofactor words rewritten with those literals, the entry property of
  // the literal words, and the three put together. Each step is a query the
  // solver settles on its own; asked in one go they are far more costly.

  lemma Pins0(v: nat)
    requires v == 0
    ensures VarMaskPos(v) == 0xaaaa_aaaa_aaaa_aaaa && VarMaskNeg(v) == 0x5555_5555_5555_5555 && VarBit(v) == 1
  {
  }

  lemma PositiveCofactorWordIs0(w: bv64, v: nat)
    requires v == 0
    ensures PositiveCofactorWord(w, v) == (w & 0xaaaa_aaaa_aaaa_aaaa) | ((w & 0xaaaa_aaaa_aaaa_aaaa) >> 1)
  {
    Pins0(v);
  }

  lemma NegativeCofactorWordIs0(w: bv64, v: nat)
    requires v == 0
    ensures NegativeCofactorWord(w, v) == (w & 0x5555_5555_5555_5555) | ((w & 0x5555_5555_5555_5555) << 1)
  {
    Pins0(v);
  }

  lemma PositiveCofactorLiteralAt0(w: bv64, i: Index)
    ensures Bit((w & 0xaaaa_aaaa_aaaa_aaaa) | ((w & 0xaaaa_aaaa_aaaa_aaaa) >> 1), i) == Bit(w, i | 1)
  {
  }

  lemma NegativeCofactorLiteralAt0(w: bv64, i: Index)
    ensures Bit((w & 0x5555_5555_5555_5555) | ((w & 0x5555_5555_5555_5555) << 1), i) == Bit(w, i & !1)
  {
  }

  lemma PositiveCofactorWordAt0(w: bv64, v: nat, i: Index)
    requires v == 0
    ensures Bit(PositiveCofactorWord(w, v), i) == Bit(w, i | VarBit(v))
  {
    Pins0(v);
    PositiveCofactorWordIs0(w, v);
    PositiveCofactorLiteralAt0(w, i);
  }

  lemma NegativeCofactorWordAt0(w: bv64, v: nat, i: Index)
    requires v == 0
    ensures Bit(NegativeCofactorWord(w, v), i) == Bit(w, i & !VarBit(v))
  {
    Pins0(v);
    NegativeCofactorWordIs0(w, v);
    NegativeCofactorLiteralAt0(w, i);
  }

  lemma Pins1(v: nat)
    requires v == 1
    ensures VarMaskPos(v) == 0xcccc_cccc_cccc_cccc && VarMaskNeg(v) == 0x3333_3333_3333_3333 && VarBit(v) == 2
  {
  }

  lemma PositiveCofactorWordIs1(w: bv64, v: nat)
    requires v == 1
    ensures PositiveCofactorWord(w, v) == (w & 0xcccc_cccc_cccc_cccc) | ((w & 0xcccc_cccc_cccc_cccc) >> 2)
  {
    Pins1(v);
  }

  lemma NegativeCofactorWordIs1(w: bv64, v: nat)
    requires v == 1
    ensures NegativeCofactorWord(w, v) == (w & 0x3333_3333_3333_3333) | ((w & 0x3333_3333_3333_3333) << 2)
  {
    Pins1(v);
  }

  lemma PositiveCofactorLiteralAt1(w: bv64, i: Index)
    ensures Bit((w & 0xcccc_cccc_cccc_cccc) | ((w & 0xcccc_cccc_cccc_cccc) >> 2), i) == Bit(w, i | 2)
  {
  }

  lemma NegativeCofactorLiteralAt1(w: bv64, i: Index)
    ensures Bit((w & 0x3333_3333_3333_3333) | ((w & 0x3333_3333_3333_3333) << 2), i) == Bit(w, i & !2)
  {
  }

  lemma PositiveCofactorWordAt1(w: bv64, v: nat, i: Index)
    requires v == 1
    ensures Bit(PositiveCofactorWord(w, v), i) == Bit(w, i | VarBit(v))
  {
    Pins1(v);
    PositiveCofactorWordIs1(w, v);
    PositiveCofactorLiteralAt1(w, i);
  }

  lemma NegativeCofactorWordAt1(w: bv64, v: nat, i: Index)
    requires v == 1
    ensures Bit(NegativeCofactorWord(w, v), i) == Bit(w, i & !VarBit(v))
  {
    Pins1(v);
    NegativeCofactorWordIs1(w, v);
    NegativeCofactorLiteralAt1(w, i);
  }

  lemma Pins2(v: nat)
    requires v == 2
    ensures VarMaskPos(v) == 0xf0f0_f0f0_f0f0_f0f0 && VarMaskNeg(v) == 0x0f0f_0f0f_0f0f_0f0f && VarBit(v) == 4
  {
  }

  lemma PositiveCofactorWordIs2(w: bv64, v: nat)
    requires v == 2
    ensures PositiveCofactorWord(w, v) == (w & 0xf0f0_f0f0_f0f0_f0f0) | ((w & 0xf0f0_f0f0_f0f0_f0f0) >> 4)
  {
    Pins2(v);
  }

  lemma NegativeCofactorWordIs2(w: bv64, v: nat)
    requires v == 2
    ensures NegativeCofactorWord(w, v) == (w & 0x0f0f_0f0f_0f0f_0f0f) | ((w & 0x0f0f_0f0f_0f0f_0f0f) << 4)
  {
    Pins2(v);
  }

  lemma PositiveCofactorLiteralAt2(w: bv64, i: Index)
    ensures Bit((w & 0xf0f0_f0f0_f0f0_f0f0) | ((w & 0xf0f0_f0f0_f0f0_f0f0) >> 4), i) == Bit(w, i | 4)
  {
  }

  lemma NegativeCofactorLiteralAt2(w: bv64, i: Index)
    ensures Bit((w & 0x0f0f_0f0f_0f0f_0f0f) | ((w & 0x0f0f_0f0f_0f0f_0f0f) << 4), i) == Bit(w, i & !4)
  {
  }

  lemma PositiveCofactorWordAt2(w: bv64, v: nat, i: Index)
    requires v == 2
    ensures Bit(PositiveCofactorWord(w, v), i) == Bit(w, i | VarBit(v))
  {
    Pins2(v);
    PositiveCofactorWordIs2(w, v);
    PositiveCofactorLiteralAt2(w, i);
  }

  lemma NegativeCofactorWordAt2(w: bv64, v: nat, i: Index)
    requires v == 2
    ensures Bit(NegativeCofactorWord(w, v), i) == Bit(w, i & !VarBit(v))
  {
    Pins2(v);
    NegativeCofactorWordIs2(w, v);
    NegativeCofactorLiteralAt2(w, i);
  }

  lemma Pins3(v: nat)
    requires v == 3
    ensures VarMaskPos(v) == 0xff00_ff00_ff00_ff00 && VarMaskNeg(v) == 0x00ff_00ff_00ff_00ff && VarBit(v) == 8
  {
  }

  lemma PositiveCofactorWordIs3(w: bv64, v: nat)
    requires v == 3
    ensures PositiveCofactorWord(w, v) == (w & 0xff00_ff00_ff00_ff00) | ((w & 0xff00_ff00_ff00_ff00) >> 8)
  {
    Pins3(v);
  }

  lemma NegativeCofactorWordIs3(w: bv64, v: nat)
    requires v == 3
    ensures NegativeCofactorWord(w, v) == (w & 0x00ff_00ff_00ff_00ff) | ((w & 0x00ff_00ff_00ff_00ff) << 8)
  {
    Pins3(v);
  }

  lemma PositiveCofactorLiteralAt3(w: bv64, i: Index)
    ensures Bit((w & 0xff00_ff00_ff00_ff00) | ((w & 0xff00_ff00_ff00_ff00) >> 8), i) == Bit(w, i | 8)
  {
  }

  lemma NegativeCofactorLiteralAt3(w: bv64, i: Index)
    ensures Bit((w & 0x00ff_00ff_00ff_00ff) | ((w & 0x00ff_00ff_00ff_00ff) << 8), i) == Bit(w, i & !8)
  {
  }

  lemma PositiveCofactorWordAt3(w: bv64, v: nat, i: Index)
    requires v == 3
    ensures Bit(PositiveCofactorWord(w, v), i) == Bit(w, i | VarBit(v))
  {
    Pins3(v);
    PositiveCofactorWordIs3(w, v);
    PositiveCofactorLiteralAt3(w, i);
  }

  lemma NegativeCofactorWordAt3(w: bv64, v: nat, i: Index)
    requires v == 3
    ensures Bit(NegativeCofactorWord(w, v), i) == Bit(w, i & !VarBit(v))
  {
    Pins3(v);
    NegativeCofactorWordIs3(w, v);
    NegativeCofactorLiteralAt3(w, i);
  }

  lemma Pins4(v: nat)
    requires v == 4
    ensures VarMaskPos(v) == 0xffff_0000_ffff_0000 && VarMaskNeg(v) == 0x0000_ffff_0000_ffff && VarBit(v) == 16
  {
  }

  lemma PositiveCofactorWordIs4(w: bv64, v: nat)
    requires v == 4
    ensures PositiveCofactorWord(w, v) == (w & 0xffff_0000_ffff_0000) | ((w & 0xffff_0000_ffff_0000) >> 16)
  {
    Pins4(v);
  }

  lemma NegativeCofactorWordIs4(w: bv64, v: nat)
    requires v == 4
    ensures NegativeCofactorWord(w, v) == (w & 0x0000_ffff_0000_ffff) | ((w & 0x0000_ffff_0000_ffff) << 16)
  {
    Pins4(v);
  }

  lemma PositiveCofactorLiteralAt4(w: bv64, i: Index)
    ensures Bit((w & 0xffff_0000_ffff_0000) | ((w & 0xffff_0000_ffff_0000) >> 16), i) == Bit(w, i | 16)
  {
  }

  lemma NegativeCofactorLiteralAt4(w: bv64, i: Index)
    ensures Bit((w & 0x0000_ffff_0000_ffff) | ((w & 0x0000_ffff_0000_ffff) << 16), i) == Bit(w, i & !16)
  {
  }

  lemma PositiveCofactorWordAt4(w: bv64, v: nat, i: Index)
    requires v == 4
    ensures Bit(PositiveCofactorWord(w, v), i) == Bit(w, i | VarBit(v))
  {
    Pins4(v);
    PositiveCofactorWordIs4(w, v);
    PositiveCofactorLiteralAt4(w, i);
  }

  lemma NegativeCofactorWordAt4(w: bv64, v: nat, i: Index)
    requires v == 4
    ensures Bit(NegativeCofactorWord(w, v), i) == Bit(w, i & !VarBit(v))
  {
    Pins4(v);
    NegativeCofactorWordIs4(w, v);
    NegativeCofactorLiteralAt4(w, i);
  }

  lemma Pins5(v: nat)
    requires v == 5
    ensures VarMaskPos(v) == 0xffff_ffff_0000_0000 && VarMaskNeg(v) == 0x0000_0000_ffff_ffff && VarBit(v) == 32
  {
  }

  lemma PositiveCofactorWordIs5(w: bv64, v: nat)
    requires v == 5
    ensures PositiveCofactorWord(w, v) == (w & 0xffff_ffff_0000_0000) | ((w & 0xffff_ffff_0000_0000) >> 32)
  {
    Pins5(v);
  }

  lemma NegativeCofactorWordIs5(w: bv64, v: nat)
    requires v == 5
    ensures NegativeCofactorWord(w, v) == (w & 0x0000_0000_ffff_ffff) | ((w & 0x0000_0000_ffff_ffff) << 32)
  {
    Pins5(v);
  }

  lemma PositiveCofactorLiteralAt5(w: bv64, i: Index)
    ensures Bit((w & 0xffff_ffff_0000_0000) | ((w & 0xffff_ffff_0000_0000) >> 32), i) == Bit(w, i | 32)
  {
  }

  lemma NegativeCofactorLiteralAt5(w: bv64, i: Index)
    ensures Bit((w & 0x0000_0000_ffff_ffff) | ((w & 0x0000_0000_ffff_ffff) << 32), i) == Bit(w, i & !32)
  {
  }

  lemma PositiveCofactorWordAt5(w: bv64, v: nat, i: Index)
    requires v == 5
    ensures Bit(PositiveCofactorWord(w, v), i) == Bit(w, i | VarBit(v))
  {
    Pins5(v);
    PositiveCofactorWordIs5(w, v);
    PositiveCofactorLiteralAt5(w, i);
  }

  lemma NegativeCofactorWordAt5(w: bv64, v: nat, i: Index)
    requires v == 5
    ensures Bit(NegativeCofactorWord(w, v), i) == Bit(w, i & !VarBit(v))
  {
    Pins5(v);
    NegativeCofactorWordIs5(w, v);
    NegativeCofactorLiteralAt5(w, i);
  }
}
