/**
 * The truth table as the mutable object the engine hands out: a fixed arity
 * and a word that `set_bit` updates in place. Every operation is specified by
 * the value it leaves behind, a `Table` of the value model.
 */
module TruthTableObjects {
  import opened Masks
  import opened BitString
  import opened TruthTables
  import opened Printing

  class TruthTable {
    /** `num_var`, fixed when the object is built. */
    const numVar: Arity
    /** `bits`, the truth table word. */
    var bits: bv64

    /** The value the object holds. */
    function Value(): Table
      reads this
    {
      Table(numVar, bits)
    }

    /** The invariant every constructor establishes and `SetBit` keeps. */
    ghost predicate Valid()
      reads this
    {
      Value().Valid()
    }

    /** `Truth_Table(num_var)`: the constant-0 function. */
    constructor Empty(n: Arity)
      ensures Value() == Zero(n) && Valid()
    {
      numVar := n;
      bits := 0;
    }

    /** `Truth_Table(num_var, bits)`: the word cut to 2^num_var entries. */
    constructor FromWord(n: Arity, w: bv64)
      ensures Value() == Make(n, w) && Valid()
    {
      numVar := n;
      bits := w & LengthMask(n);
    }

    /**
     * `Truth_Table(str)`: the arity from the length; for a length that gives
     * arity 0, no entry; otherwise one `set_bit` per '1', at the entry the
     * character's distance from the end of the string names.
     */
    constructor FromString(s: string)
      requires PowerTwo(|s|) != 0 ==> IsBinary(s)
      ensures Value() == Parsed(s) && Valid()
    {
      numVar := PowerTwo(|s|);
      bits := 0;
      new;
      if numVar == 0 {
        return;
      }
      SizeIsPow2(numVar);
      var i := 0;
      while i < |s|
        invariant 0 <= i <= |s|
        invariant Value() == PrefixTable(s, i)
      {
        ghost var before := Value();
        if s[i] == '1' {
          SetBit(CharEntry(s, i));
          PrefixTableSet(s, i, before, Value());
        } else {
          PrefixTableSkip(s, i);
        }
        i := i + 1;
      }
      PrefixTableComplete(s);
    }

    /** `get_bit(position)`. */
    function GetBit(position: Index): (b: bool)
      reads this
      requires position < Size(numVar)
      ensures b == Bit(bits, position)
    {
      Value().GetBit(position)
    }

    /** `n_var()`. */
    function NVar(): (n: Arity)
      reads this
      ensures n == Value().numVar
    {
      numVar
    }

    /** `set_bit(position)`: switches entry `position` on, then truncates to the table's length. */
    method SetBit(position: Index)
      requires position < Size(numVar)
      modifies this
      ensures Value() == WithEntry(old(Value()), position)
      ensures Valid()
    {
      SizeAtMost64(numVar);
      bits := bits | ((1 as bv64) << position);
      bits := bits & LengthMask(numVar);
      assert Value() == WithEntry(old(Value()), position);
    }
  }
}
