/**
 * The bit-string side of the engine: the helper that infers an arity from a
 * string length, and the word a string of '0' and '1' denotes.
 */
module BitString {
  import opened Masks

  /** A string every character of which is '0' or '1'. */
  predicate IsBinary(s: string) {
    forall j :: 0 <= j < |s| ==> s[j] == '0' || s[j] == '1'
  }

  /** The `switch` of `power_two`: the exponent of 2, 4, ..., 64, and 0 for every other length. */
  function PowerTwoSwitch(n: nat): (k: Arity)
    requires n <= 64
    ensures k != 0 ==> n == Pow2(k)
  {
    match n
    case 2 => 1
    case 4 => 2
    case 8 => 3
    case 16 => 4
    case 32 => 5
    case 64 => 6
    case _ => 0
  }

  /**
   * `power_two` as written: above 64 it recurses on n / 64 and adds 6, so
   * lengths above 64 give an arity of 6 or more whether or not they are powers of two.
   */
  function PowerTwoAsWritten(n: nat): (k: nat)
    requires n < 0x1_0000_0000
    ensures n <= 64 ==> k == PowerTwoSwitch(n)
    ensures n > 64 ==> k >= MaxVars
    decreases n
  {
    if n > 64 then 6 + PowerTwoAsWritten(n / 64) else PowerTwoSwitch(n)
  }

  /** Lengths 65 and 128 show the defect of the recursive branch. */
  lemma PowerTwoAsWrittenDefect()
    ensures PowerTwoAsWritten(65) == 6 && 65 != Pow2(6)
    ensures PowerTwoAsWritten(128) == 7 && PowerTwoAsWritten(128) > MaxVars
  {
  }

  /**
   * `power_two` as its comment specifies it: k when n == 2^k with 1 <= k <= 6,
   * and 0 otherwise, including n == 1 and every n above 64.
   */
  function PowerTwo(n: nat): (k: Arity)
    ensures k != 0 ==> n == Pow2(k)
    ensures n > 64 ==> k == 0
  {
    if n > 64 then 0 else PowerTwoSwitch(n)
  }

  /** `PowerTwo` inverts `Pow2` on the arities 1 to 6. */
  lemma PowerTwoOfPow2(k: Arity)
    requires 1 <= k
    ensures PowerTwo(Pow2(k)) == k
  {
    SizeIsPow2(k);
    if k == 1 {
    } else if k == 2 {
    } else if k == 3 {
    } else if k == 4 {
    } else if k == 5 {
    } else {
    }
  }

  /** The word whose entries a bit string lists, highest entry first. */
  function Word(s: string): bv64
    requires |s| <= 64
  {
    if |s| == 0 then 0
    else (Word(s[..|s| - 1]) << 1) | (if s[|s| - 1] == '1' then 1 else 0)
  }

  /** Entry q of `Word(s)` is set iff character |s| - 1 - q of s is '1'. */
  lemma {:induction false} WordAt(s: string, q: Index)
    requires |s| <= 64 && q < 64
    ensures Bit(Word(s), q) <==> q as int < |s| && s[|s| - 1 - q as int] == '1'
    decreases |s|
  {
    if |s| > 0 {
      var p := s[..|s| - 1];
      var d: bv64 := if s[|s| - 1] == '1' then 1 else 0;
      ShiftInBit(Word(p), d, q);
      if q != 0 {
        WordAt(p, q - 1);
        PredecessorAsInt(q);
        WordStepLogic(s, p, q as int, (q - 1) as int, Bit(Word(s), q), Bit(Word(p), q - 1));
      }
    }
  }

  /**
   * The integer step of `WordAt`: entry k of a string is entry k - 1 of the
   * string without its last character.
   */
  lemma WordStepLogic(s: string, p: string, k: int, k1: int, now: bool, before: bool)
    requires 0 < |s| && p == s[..|s| - 1] && 0 <= k1 && k == k1 + 1
    requires before == (k1 < |p| && p[|p| - 1 - k1] == '1')
    requires now == before
    ensures now == (k < |s| && s[|s| - 1 - k] == '1')
  {
  }

  /** `Word(s)` has no entry from |s| on. */
  lemma WordAbove(s: string, q: Index)
    requires |s| <= 64 && |s| <= q as int
    ensures !Bit(Word(s), q)
  {
    if q < 64 {
      WordAt(s, q);
    }
  }
}
