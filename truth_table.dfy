/**
 * Truth tables of Boolean functions of 0 to 6 variables as values: the
 * arity-and-word constructor, the Boolean operators, equality, the
 * single-variable operators and the literals.
 *
 * Most entry lemmas come in two layers: one about tables written out as
 * `Table(n, x)`, which does the bit-vector work, and the one about an
 * arbitrary table `t`, which only instantiates it.
 */
module TruthTables {
  import opened Masks
  import opened CofactorWords

  /**
   * A truth table as a value: arity `numVar` and the word `bits`, whose
   * bit i is the function's output on the input assignment numbered i.
   */
  datatype Table = Table(numVar: Arity, bits: bv64) {

    /** The class invariant: no bit at or above index 2^numVar is set. */
    predicate Valid() {
      bits & !LengthMask(numVar) == 0
    }

    /** `get_bit`: entry `position` of the table. */
    function GetBit(position: Index): (b: bool)
      requires position < Size(numVar)
      ensures b == Bit(bits, position)
    {
      SizeAtMost64(numVar);
      (bits >> position) & 1 == 1
    }
  }

  /** Entries of a valid table at or above 2^numVar are all 0. */
  lemma ValidAbove(t: Table, i: Index)
    requires t.Valid() && Size(t.numVar) <= i
    ensures !Bit(t.bits, i)
  {
    LengthMaskAt(t.numVar, i);
    AndBit(t.bits, !LengthMask(t.numVar), i);
    if i < 64 {
      NotBit(LengthMask(t.numVar), i);
    }
  }

  /** Valid tables of one arity with the same entries are the same table. */
  lemma TableExt(a: Table, b: Table)
    requires a.Valid() && b.Valid() && a.numVar == b.numVar
    requires forall i: Index :: i < Size(a.numVar) ==> Bit(a.bits, i) == Bit(b.bits, i)
    ensures a == b
  {
    forall i: Index
      ensures Bit(a.bits, i) == Bit(b.bits, i)
    {
      if i >= Size(a.numVar) {
        ValidAbove(a, i);
        ValidAbove(b, i);
      }
    }
    BitsExt(a.bits, b.bits);
  }

  // ---------------------------------------------------------------------
  // Construction from values
  // ---------------------------------------------------------------------

  /** The arity-only constructor: the constant-0 function of n variables. */
  function Zero(n: Arity): (t: Table)
    ensures t.numVar == n && t.Valid()
    ensures forall i: Index :: !Bit(t.bits, i)
  {
    Table(n, 0)
  }

  /** The arity-and-word constructor: the word truncated to its low 2^n bits. */
  function Make(n: Arity, w: bv64): (t: Table)
    ensures t.numVar == n && t.Valid()
  {
    Table(n, w & LengthMask(n))
  }

  /** `Make` keeps every entry below 2^n and clears every entry at or above it. */
  lemma MakeAt(n: Arity, w: bv64, i: Index)
    ensures Bit(Make(n, w).bits, i) <==> i < Size(n) && Bit(w, i)
  {
    TruncateAt(n, w, i);
  }

  /** On a word that already satisfies the invariant, `Make` changes nothing. */
  lemma MakeOfValid(t: Table)
    requires t.Valid()
    ensures Make(t.numVar, t.bits) == t
  {
    MakeOfValidWord(t.numVar, t.bits);
  }

  lemma MakeIs(n: Arity, w: bv64)
    ensures Make(n, w) == Table(n, w & LengthMask(n))
  {
  }

  lemma MakeOfValidWord(n: Arity, w: bv64)
    requires Table(n, w).Valid()
    ensures Make(n, w) == Table(n, w)
  {
    ClearedOutside(w, LengthMask(n));
  }

  /** A word with no entry from 2^n on is kept whole by the constructor. */
  lemma MakeOfBelow(n: Arity, w: bv64)
    requires forall i: Index :: Size(n) <= i ==> !Bit(w, i)
    ensures Make(n, w) == Table(n, w)
  {
    forall i: Index
      ensures Bit(Make(n, w).bits, i) == Bit(w, i)
    {
      MakeAt(n, w, i);
    }
    BitsExt(Make(n, w).bits, w);
  }

  // Propositional steps on plain Booleans: a lemma that uses one of them
  // only has to match terms, which keeps bit-vector case splits out of it.

  lemma EqualChain(a: bool, b: bool, c: bool)
    requires a == b && b == c
    ensures a == c
  {
  }

  lemma DifferenceOfEqual(r: bool, p: bool, q: bool, a: bool, b: bool)
    requires r == (p != q) && p == a && q == b
    ensures r == (a != b)
  {
  }

  lemma ConjunctOfEqual(r: bool, a: bool, b: bool, c: bool)
    requires r == (a && b) && b == c
    ensures r == (a && c)
  {
  }

  /**
   * The value `set_bit(p)` leaves behind: bit p switched on, then the word
   * truncated to the table's length again.
   */
  function WithEntry(t: Table, p: Index): (r: Table)
    requires p < Size(t.numVar)
    ensures r.numVar == t.numVar && r.Valid()
  {
    SizeAtMost64(t.numVar);
    MakeIs(t.numVar, t.bits | ((1 as bv64) << p));
    Table(t.numVar, (t.bits | ((1 as bv64) << p)) & LengthMask(t.numVar))
  }

  lemma WithEntryIs(n: Arity, x: bv64, p: Index)
    requires p < Size(n)
    ensures WithEntry(Table(n, x), p) == Make(n, x | ((1 as bv64) << p))
  {
  }

  lemma WithEntryWordAt(n: Arity, x: bv64, p: Index, q: Index)
    requires p < Size(n)
    ensures Bit(WithEntry(Table(n, x), p).bits, q) <==> q < Size(n) && (q == p || Bit(x, q))
  {
    var w := x | ((1 as bv64) << p);
    SizeAtMost64(n);
    WithEntryIs(n, x, p);
    MakeAt(n, w, q);
    OrOneHotAt(x, p, q);
    ConjunctOfEqual(Bit(Make(n, w).bits, q), q < Size(n), Bit(w, q), q == p || Bit(x, q));
  }

  /** `set_bit(p)` sets entry p, keeps every other entry below 2^numVar and clears the rest. */
  lemma WithEntryAt(t: Table, p: Index, q: Index)
    requires p < Size(t.numVar)
    ensures Bit(WithEntry(t, p).bits, q) <==> q < Size(t.numVar) && (q == p || Bit(t.bits, q))
  {
    WithEntryWordAt(t.numVar, t.bits, p, q);
  }

  // ---------------------------------------------------------------------
  // Boolean operators and equality
  // ---------------------------------------------------------------------

  /** `operator~`. */
  function Not(t: Table): (r: Table)
    ensures r.numVar == t.numVar && r.Valid()
  {
    Make(t.numVar, !t.bits)
  }

  /** `operator|`. */
  function Or(a: Table, b: Table): (r: Table)
    requires a.numVar == b.numVar
    ensures r.numVar == a.numVar && r.Valid()
  {
    Make(a.numVar, a.bits | b.bits)
  }

  /** `operator&`. */
  function And(a: Table, b: Table): (r: Table)
    requires a.numVar == b.numVar
    ensures r.numVar == a.numVar && r.Valid()
  {
    Make(a.numVar, a.bits & b.bits)
  }

  /** `operator^`. */
  function Xor(a: Table, b: Table): (r: Table)
    requires a.numVar == b.numVar
    ensures r.numVar == a.numVar && r.Valid()
  {
    Make(a.numVar, a.bits ^ b.bits)
  }

  // The operators on tables written out, as words.

  lemma NotIs(n: Arity, x: bv64)
    ensures Not(Table(n, x)) == Make(n, !x)
  {
  }

  lemma OrIs(n: Arity, x: bv64, y: bv64)
    ensures Or(Table(n, x), Table(n, y)) == Make(n, x | y)
  {
  }

  lemma AndIs(n: Arity, x: bv64, y: bv64)
    ensures And(Table(n, x), Table(n, y)) == Make(n, x & y)
  {
  }

  lemma XorIs(n: Arity, x: bv64, y: bv64)
    ensures Xor(Table(n, x), Table(n, y)) == Make(n, x ^ y)
  {
  }

  lemma NotWordAt(n: Arity, x: bv64, i: Index)
    requires i < Size(n)
    ensures Bit(Not(Table(n, x)).bits, i) == !Bit(x, i)
  {
    NotIs(n, x);
    MakeAt(n, !x, i);
    SizeAtMost64(n);
    NotBit(x, i);
  }

  lemma OrWordAt(n: Arity, x: bv64, y: bv64, i: Index)
    requires i < Size(n)
    ensures Bit(Or(Table(n, x), Table(n, y)).bits, i) == (Bit(x, i) || Bit(y, i))
  {
    OrIs(n, x, y);
    MakeAt(n, x | y, i);
    OrBit(x, y, i);
  }

  lemma AndWordAt(n: Arity, x: bv64, y: bv64, i: Index)
    requires i < Size(n)
    ensures Bit(And(Table(n, x), Table(n, y)).bits, i) == (Bit(x, i) && Bit(y, i))
  {
    AndIs(n, x, y);
    MakeAt(n, x & y, i);
    AndBit(x, y, i);
  }

  lemma XorWordAt(n: Arity, x: bv64, y: bv64, i: Index)
    requires i < Size(n)
    ensures Bit(Xor(Table(n, x), Table(n, y)).bits, i) == (Bit(x, i) != Bit(y, i))
  {
    XorIs(n, x, y);
    MakeAt(n, x ^ y, i);
    XorBit(x, y, i);
  }

  /** NOT complements every entry of the table. */
  lemma NotAt(t: Table, i: Index)
    requires i < Size(t.numVar)
    ensures Bit(Not(t).bits, i) == !Bit(t.bits, i)
  {
    NotWordAt(t.numVar, t.bits, i);
  }

  /** OR combines the tables entry by entry. */
  lemma OrAt(a: Table, b: Table, i: Index)
    requires a.numVar == b.numVar && i < Size(a.numVar)
    ensures Bit(Or(a, b).bits, i) == (Bit(a.bits, i) || Bit(b.bits, i))
  {
    OrWordAt(a.numVar, a.bits, b.bits, i);
  }

  /** AND combines the tables entry by entry. */
  lemma AndAt(a: Table, b: Table, i: Index)
    requires a.numVar == b.numVar && i < Size(a.numVar)
    ensures Bit(And(a, b).bits, i) == (Bit(a.bits, i) && Bit(b.bits, i))
  {
    AndWordAt(a.numVar, a.bits, b.bits, i);
  }

  /** XOR combines the tables entry by entry. */
  lemma XorAt(a: Table, b: Table, i: Index)
    requires a.numVar == b.numVar && i < Size(a.numVar)
    ensures Bit(Xor(a, b).bits, i) == (Bit(a.bits, i) != Bit(b.bits, i))
  {
    XorWordAt(a.numVar, a.bits, b.bits, i);
  }

  /** NOT applied twice gives back every table that satisfies the invariant. */
  lemma NotNot(t: Table)
    requires t.Valid()
    ensures Not(Not(t)) == t
  {
    var n, x := t.numVar, t.bits;
    NotIs(n, x);
    NotIs(n, !x & LengthMask(n));
    DoubleComplementInside(x, LengthMask(n));
  }

  /** A table XOR itself is the constant-0 table of its arity. */
  lemma XorSelf(t: Table)
    ensures Xor(t, t) == Zero(t.numVar)
  {
    XorIs(t.numVar, t.bits, t.bits);
  }

  /** AND and OR are commutative on tables of one arity. */
  lemma AndOrCommute(a: Table, b: Table)
    requires a.numVar == b.numVar
    ensures And(a, b) == And(b, a) && Or(a, b) == Or(b, a)
  {
    AndIs(a.numVar, a.bits, b.bits);
    AndIs(a.numVar, b.bits, a.bits);
    OrIs(a.numVar, a.bits, b.bits);
    OrIs(a.numVar, b.bits, a.bits);
  }

  /** `operator==`: tables of different arity are never equal; otherwise the words are compared. */
  function Equal(a: Table, b: Table): (r: bool)
    ensures r <==> a == b
  {
    if a.numVar != b.numVar then false else a.bits == b.bits
  }

  /** `operator!=`: the negation of `==`. */
  function NotEqual(a: Table, b: Table): (r: bool)
    ensures r <==> a != b
  {
    !Equal(a, b)
  }

  /** Valid tables are equal iff they have one arity and the same entries. */
  lemma EqualIffSameEntries(a: Table, b: Table)
    requires a.Valid() && b.Valid()
    ensures Equal(a, b) <==>
      a.numVar == b.numVar &&
      forall i: Index :: i < Size(a.numVar) ==> Bit(a.bits, i) == Bit(b.bits, i)
  {
    if a.numVar == b.numVar &&
       forall i: Index :: i < Size(a.numVar) ==> Bit(a.bits, i) == Bit(b.bits, i)
    {
      TableExt(a, b);
    }
  }

  // ---------------------------------------------------------------------
  // Single-variable operators
  // ---------------------------------------------------------------------

  /** `positive_cofactor`: fix variable v to 1. */
  function PositiveCofactor(t: Table, v: nat): (r: Table)
    requires v < t.numVar
    ensures r.numVar == t.numVar && r.Valid()
  {
    Make(t.numVar, PositiveCofactorWord(t.bits, v))
  }

  /** `negative_cofactor`: fix variable v to 0. */
  function NegativeCofactor(t: Table, v: nat): (r: Table)
    requires v < t.numVar
    ensures r.numVar == t.numVar && r.Valid()
  {
    Make(t.numVar, NegativeCofactorWord(t.bits, v))
  }

  lemma PositiveCofactorIs(n: Arity, x: bv64, v: nat)
    requires v < n
    ensures PositiveCofactor(Table(n, x), v) == Make(n, PositiveCofactorWord(x, v))
  {
  }

  lemma NegativeCofactorIs(n: Arity, x: bv64, v: nat)
    requires v < n
    ensures NegativeCofactor(Table(n, x), v) == Make(n, NegativeCofactorWord(x, v))
  {
  }

  lemma PositiveCofactorWordAtTable(n: Arity, x: bv64, v: nat, i: Index)
    requires v < n && i < Size(n)
    ensures Bit(PositiveCofactor(Table(n, x), v).bits, i) == Bit(x, i | VarBit(v))
  {
    VarIndexInRange(n, v, i);
    PositiveCofactorIs(n, x, v);
    TruncateAt(n, PositiveCofactorWord(x, v), i);
    PositiveCofactorWordAt(x, v, i);
  }

  lemma NegativeCofactorWordAtTable(n: Arity, x: bv64, v: nat, i: Index)
    requires v < n && i < Size(n)
    ensures Bit(NegativeCofactor(Table(n, x), v).bits, i) == Bit(x, i & !VarBit(v))
  {
    NegativeCofactorIs(n, x, v);
    MakeAt(n, NegativeCofactorWord(x, v), i);
    NegativeCofactorWordAt(x, v, i);
  }

  /** Entry i of the positive cofactor is entry i | 2^v of the input. */
  lemma PositiveCofactorAt(t: Table, v: nat, i: Index)
    requires v < t.numVar && i < Size(t.numVar)
    ensures Bit(PositiveCofactor(t, v).bits, i) == Bit(t.bits, i | VarBit(v))
  {
    PositiveCofactorWordAtTable(t.numVar, t.bits, v, i);
  }

  /** Entry i of the negative cofactor is entry i & ~2^v of the input. */
  lemma NegativeCofactorAt(t: Table, v: nat, i: Index)
    requires v < t.numVar && i < Size(t.numVar)
    ensures Bit(NegativeCofactor(t, v).bits, i) == Bit(t.bits, i & !VarBit(v))
  {
    NegativeCofactorWordAtTable(t.numVar, t.bits, v, i);
  }

  /** Whether the table's entries stay the same when variable v of the index is flipped. */
  ghost predicate IndependentOf(t: Table, v: nat)
    requires v < t.numVar
  {
    forall i: Index :: i < Size(t.numVar) ==> Bit(t.bits, i) == Bit(t.bits, i ^ VarBit(v))
  }

  /** `Make` keeps two entries below 2^n equal when they are equal in the word. */
  lemma MakeKeepsEqualEntries(n: Arity, w: bv64, i: Index, j: Index)
    requires i < Size(n) && j < Size(n) && Bit(w, i) == Bit(w, j)
    ensures Bit(Make(n, w).bits, i) == Bit(Make(n, w).bits, j)
  {
    MakeAt(n, w, i);
    MakeAt(n, w, j);
  }

  lemma PositiveCofactorIgnoresVarWord(n: Arity, x: bv64, v: nat, i: Index)
    requires v < n && i < Size(n)
    ensures Bit(PositiveCofactor(Table(n, x), v).bits, i) ==
            Bit(PositiveCofactor(Table(n, x), v).bits, i ^ VarBit(v))
  {
    VarIndexInRange(n, v, i);
    PositiveCofactorWordIgnoresVar(x, v, i);
    PositiveCofactorIs(n, x, v);
    MakeKeepsEqualEntries(n, PositiveCofactorWord(x, v), i, i ^ VarBit(v));
  }

  lemma NegativeCofactorIgnoresVarWord(n: Arity, x: bv64, v: nat, i: Index)
    requires v < n && i < Size(n)
    ensures Bit(NegativeCofactor(Table(n, x), v).bits, i) ==
            Bit(NegativeCofactor(Table(n, x), v).bits, i ^ VarBit(v))
  {
    VarIndexInRange(n, v, i);
    NegativeCofactorWordIgnoresVar(x, v, i);
    NegativeCofactorIs(n, x, v);
    MakeKeepsEqualEntries(n, NegativeCofactorWord(x, v), i, i ^ VarBit(v));
  }

  /** The positive cofactor does not depend on v. */
  lemma PositiveCofactorIndependent(t: Table, v: nat)
    requires v < t.numVar
    ensures IndependentOf(PositiveCofactor(t, v), v)
  {
    forall i: Index | i < Size(t.numVar)
      ensures Bit(PositiveCofactor(t, v).bits, i) == Bit(PositiveCofactor(t, v).bits, i ^ VarBit(v))
    {
      PositiveCofactorIgnoresVarWord(t.numVar, t.bits, v, i);
    }
  }

  /** The negative cofactor does not depend on v. */
  lemma NegativeCofactorIndependent(t: Table, v: nat)
    requires v < t.numVar
    ensures IndependentOf(NegativeCofactor(t, v), v)
  {
    forall i: Index | i < Size(t.numVar)
      ensures Bit(NegativeCofactor(t, v).bits, i) == Bit(NegativeCofactor(t, v).bits, i ^ VarBit(v))
    {
      NegativeCofactorIgnoresVarWord(t.numVar, t.bits, v, i);
    }
  }

  /** In a word whose entry i equals entry i ^ 2^v, forcing bit v of i either way reads the same entry. */
  lemma ForcedEntryOfIndependent(x: bv64, v: nat, i: Index)
    requires v < MaxVars && Bit(x, i) == Bit(x, i ^ VarBit(v))
    ensures Bit(x, i | VarBit(v)) == Bit(x, i) && Bit(x, i & !VarBit(v)) == Bit(x, i)
  {
    ForceIsSelfOrFlip(i, v);
  }

  /** A table that does not depend on v is its own positive cofactor with respect to v. */
  lemma PositiveCofactorOfIndependent(t: Table, v: nat)
    requires t.Valid() && v < t.numVar && IndependentOf(t, v)
    ensures PositiveCofactor(t, v) == t
  {
    forall i: Index | i < Size(t.numVar)
      ensures Bit(PositiveCofactor(t, v).bits, i) == Bit(t.bits, i)
    {
      PositiveCofactorEntryOfIndependent(t, v, i);
    }
    TableExt(PositiveCofactor(t, v), t);
  }

  lemma PositiveCofactorEntryOfIndependent(t: Table, v: nat, i: Index)
    requires v < t.numVar && i < Size(t.numVar) && Bit(t.bits, i) == Bit(t.bits, i ^ VarBit(v))
    ensures Bit(PositiveCofactor(t, v).bits, i) == Bit(t.bits, i)
  {
    PositiveCofactorAt(t, v, i);
    ForcedEntryOfIndependent(t.bits, v, i);
    EqualChain(Bit(PositiveCofactor(t, v).bits, i), Bit(t.bits, i | VarBit(v)), Bit(t.bits, i));
  }

  /** A table that does not depend on v is its own negative cofactor with respect to v. */
  lemma NegativeCofactorOfIndependent(t: Table, v: nat)
    requires t.Valid() && v < t.numVar && IndependentOf(t, v)
    ensures NegativeCofactor(t, v) == t
  {
    forall i: Index | i < Size(t.numVar)
      ensures Bit(NegativeCofactor(t, v).bits, i) == Bit(t.bits, i)
    {
      NegativeCofactorEntryOfIndependent(t, v, i);
    }
    TableExt(NegativeCofactor(t, v), t);
  }

  lemma NegativeCofactorEntryOfIndependent(t: Table, v: nat, i: Index)
    requires v < t.numVar && i < Size(t.numVar) && Bit(t.bits, i) == Bit(t.bits, i ^ VarBit(v))
    ensures Bit(NegativeCofactor(t, v).bits, i) == Bit(t.bits, i)
  {
    NegativeCofactorAt(t, v, i);
    ForcedEntryOfIndependent(t.bits, v, i);
    EqualChain(Bit(NegativeCofactor(t, v).bits, i), Bit(t.bits, i & !VarBit(v)), Bit(t.bits, i));
  }

  /** Cofactoring a cofactor by the same variable, either way, gives it back unchanged. */
  lemma CofactorIdempotent(t: Table, v: nat)
    requires v < t.numVar
    ensures PositiveCofactor(PositiveCofactor(t, v), v) == PositiveCofactor(t, v)
    ensures NegativeCofactor(PositiveCofactor(t, v), v) == PositiveCofactor(t, v)
    ensures NegativeCofactor(NegativeCofactor(t, v), v) == NegativeCofactor(t, v)
    ensures PositiveCofactor(NegativeCofactor(t, v), v) == NegativeCofactor(t, v)
  {
    PositiveCofactorIndependent(t, v);
    NegativeCofactorIndependent(t, v);
    PositiveCofactorOfIndependent(PositiveCofactor(t, v), v);
    NegativeCofactorOfIndependent(PositiveCofactor(t, v), v);
    PositiveCofactorOfIndependent(NegativeCofactor(t, v), v);
    NegativeCofactorOfIndependent(NegativeCofactor(t, v), v);
  }

  /** `derivative`: XOR of the two cofactors. */
  function Derivative(t: Table, v: nat): (r: Table)
    requires v < t.numVar
    ensures r.numVar == t.numVar && r.Valid()
  {
    Xor(PositiveCofactor(t, v), NegativeCofactor(t, v))
  }

  /** `consensus`: AND of the two cofactors. */
  function Consensus(t: Table, v: nat): (r: Table)
    requires v < t.numVar
    ensures r.numVar == t.numVar && r.Valid()
  {
    And(PositiveCofactor(t, v), NegativeCofactor(t, v))
  }

  /** `smoothing`: OR of the two cofactors. */
  function Smoothing(t: Table, v: nat): (r: Table)
    requires v < t.numVar
    ensures r.numVar == t.numVar && r.Valid()
  {
    Or(PositiveCofactor(t, v), NegativeCofactor(t, v))
  }

  /** The derivative is 1 exactly where setting v to 1 or to 0 gives different outputs. */
  lemma DerivativeAt(t: Table, v: nat, i: Index)
    requires v < t.numVar && i < Size(t.numVar)
    ensures Bit(Derivative(t, v).bits, i) == (Bit(t.bits, i | VarBit(v)) != Bit(t.bits, i & !VarBit(v)))
  {
    PositiveCofactorAt(t, v, i);
    NegativeCofactorAt(t, v, i);
    XorAt(PositiveCofactor(t, v), NegativeCofactor(t, v), i);
    DifferenceOfEqual(Bit(Derivative(t, v).bits, i),
      Bit(PositiveCofactor(t, v).bits, i), Bit(NegativeCofactor(t, v).bits, i),
      Bit(t.bits, i | VarBit(v)), Bit(t.bits, i & !VarBit(v)));
  }

  /** Consensus, universal quantification of v: 1 exactly where the output is 1 for both values of v. */
  lemma ConsensusAt(t: Table, v: nat, i: Index)
    requires v < t.numVar && i < Size(t.numVar)
    ensures Bit(Consensus(t, v).bits, i) == (Bit(t.bits, i | VarBit(v)) && Bit(t.bits, i & !VarBit(v)))
  {
    PositiveCofactorAt(t, v, i);
    NegativeCofactorAt(t, v, i);
    AndAt(PositiveCofactor(t, v), NegativeCofactor(t, v), i);
  }

  /** Smoothing, existential quantification of v: 1 exactly where the output is 1 for some value of v. */
  lemma SmoothingAt(t: Table, v: nat, i: Index)
    requires v < t.numVar && i < Size(t.numVar)
    ensures Bit(Smoothing(t, v).bits, i) == (Bit(t.bits, i | VarBit(v)) || Bit(t.bits, i & !VarBit(v)))
  {
    PositiveCofactorAt(t, v, i);
    NegativeCofactorAt(t, v, i);
    OrAt(PositiveCofactor(t, v), NegativeCofactor(t, v), i);
  }

  // ---------------------------------------------------------------------
  // Literals
  // ---------------------------------------------------------------------

  /** `create_tt_nth_var`: the table of x_v, or of its complement when `polarity` is false. */
  function NthVar(n: Arity, v: nat, polarity: bool := true): (t: Table)
    requires v < n
    ensures t.numVar == n && t.Valid()
  {
    Make(n, if polarity then VarMaskPos(v) else VarMaskNeg(v))
  }

  lemma NthVarIs(n: Arity, v: nat, polarity: bool)
    requires v < n
    ensures NthVar(n, v, polarity) == Make(n, if polarity then VarMaskPos(v) else VarMaskNeg(v))
  {
  }

  /** The negative literal is the NOT of the positive one. */
  lemma NthVarNegIsNot(n: Arity, v: nat)
    requires v < n
    ensures NthVar(n, v, false) == Not(NthVar(n, v, true))
  {
    forall i: Index | i < Size(n)
      ensures Bit(NthVar(n, v, false).bits, i) == Bit(Not(NthVar(n, v, true)).bits, i)
    {
      NotAt(NthVar(n, v, true), i);
      NthVarPosAt(n, v, i);
      NthVarNegAt(n, v, i);
    }
    TableExt(NthVar(n, v, false), Not(NthVar(n, v, true)));
  }

  /** Entry i of the negative literal is the complement of bit v of i. */
  lemma NthVarNegAt(n: Arity, v: nat, i: Index)
    requires v < n && i < Size(n)
    ensures Bit(NthVar(n, v, false).bits, i) == !HasVar(i, v)
  {
    NthVarIs(n, v, false);
    MakeAt(n, VarMaskNeg(v), i);
    SizeAtMost64(n);
    VarMaskNegIsNot(v);
    NotBit(VarMaskPos(v), i);
    VarMaskPosAt(v, i);
  }

  /** Entry i of the positive literal is bit v of i. */
  lemma NthVarPosAt(n: Arity, v: nat, i: Index)
    requires v < n && i < Size(n)
    ensures Bit(NthVar(n, v, true).bits, i) == HasVar(i, v)
  {
    NthVarIs(n, v, true);
    MakeAt(n, VarMaskPos(v), i);
    SizeAtMost64(n);
    VarMaskPosAt(v, i);
  }

  /** Entry i of a literal is bit v of i, complemented for negative polarity. */
  lemma NthVarAt(n: Arity, v: nat, polarity: bool, i: Index)
    requires v < n && i < Size(n)
    ensures Bit(NthVar(n, v, polarity).bits, i) == (HasVar(i, v) == polarity)
  {
    if polarity {
      NthVarPosAt(n, v, i);
    } else {
      NthVarNegAt(n, v, i);
    }
  }
}
