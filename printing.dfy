/**
 * The text form of a truth table: what the stream operator prints, the table
 * the string constructor builds, and the round trips between the two.
 */
module Printing {
  import opened Masks
  import opened BitString
  import opened TruthTables

  /** The character printed for one entry. */
  function Digit(b: bool): (c: char)
    ensures c == '1' <==> b
    ensures c == '0' || c == '1'
  {
    if b then '1' else '0'
  }

  /** Entry j of a word, for an entry number given as an integer. */
  function EntryAt(w: bv64, j: nat): bool
    requires j < 64
  {
    Bit(w, j as Index)
  }

  /** Converting an entry index to an integer and back changes nothing. */
  lemma IndexAsInt(i: Index)
    ensures i as int < 256 && (i as int) as Index == i
  {
  }

  /** The text of the low m entries of a word, highest index first. */
  function RenderWord(w: bv64, m: nat): (s: string)
    requires m <= 64
    ensures |s| == m
  {
    if m == 0 then [] else [Digit(EntryAt(w, m - 1))] + RenderWord(w, m - 1)
  }

  /** Character k of the text of m entries is entry m - 1 - k. */
  lemma {:induction false} RenderWordAt(w: bv64, m: nat, k: nat)
    requires m <= 64 && k < m
    ensures RenderWord(w, m)[k] == Digit(EntryAt(w, m - 1 - k))
  {
    if k > 0 {
      RenderWordAt(w, m - 1, k - 1);
    }
  }

  /** The text of a table: its 2^numVar entries, highest index first. */
  function Rendered(t: Table): (s: string)
    ensures |s| == Pow2(t.numVar)
  {
    SizeIsPow2(t.numVar);
    RenderWord(t.bits, Pow2(t.numVar))
  }

  /** An entry number below 2^n, as an entry index, is an entry of a table of arity n. */
  lemma EntryInTable(n: Arity, i: nat)
    requires i < Pow2(n)
    ensures i < 64 && (i as Index) < Size(n)
  {
    SizeIsPow2(n);
  }

  lemma AppendDigit(s: string, d: char, r: string)
    ensures (s + [d]) + r == s + ([d] + r)
  {
  }

  /**
   * `operator<<`: prints entry 2^numVar - 1 first and entry 0 last, one
   * character per `get_bit`.
   */
  method Render(t: Table) returns (s: string)
    ensures s == Rendered(t)
  {
    SizeIsPow2(t.numVar);
    var w := t.bits;
    var size := Pow2(t.numVar);
    s := [];
    var i: int := size - 1;
    while i >= 0
      invariant -1 <= i < size
      invariant s + RenderWord(w, i + 1) == Rendered(t)
    {
      EntryInTable(t.numVar, i);
      var d := Digit(t.GetBit(i as Index));
      assert RenderWord(w, i + 1) == [d] + RenderWord(w, i);
      AppendDigit(s, d, RenderWord(w, i));
      s := s + [d];
      i := i - 1;
    }
  }

  /**
   * The table the string constructor builds: arity `power_two(|s|)`; no
   * entry for an arity of 0, and otherwise entry |s| - 1 - j set exactly
   * when character j is '1'.
   */
  function Parsed(s: string): (t: Table)
    ensures t.Valid() && t.numVar == PowerTwo(|s|)
  {
    if PowerTwo(|s|) == 0 then Zero(0)
    else
      SizeIsPow2(PowerTwo(|s|));
      Make(PowerTwo(|s|), Word(s))
  }

  /** A string whose length is a power of two from 2 to 64 has one entry per character. */
  lemma ParsedSize(s: string)
    requires PowerTwo(|s|) != 0
    ensures Size(Parsed(s).numVar) as int == |s|
  {
    SizeIsPow2(PowerTwo(|s|));
  }

  /** The constructor loses nothing of the word a binary string of a valid length denotes. */
  lemma ParsedIsWord(s: string)
    requires PowerTwo(|s|) != 0
    ensures |s| <= 64 && Parsed(s) == Table(PowerTwo(|s|), Word(s))
  {
    var n := PowerTwo(|s|);
    SizeIsPow2(n);
    forall i: Index | Size(n) <= i
      ensures !Bit(Word(s), i)
    {
      WordAbove(s, i);
    }
    MakeOfBelow(n, Word(s));
  }

  /** Entry q of the parsed table is set iff character |s| - 1 - q is '1'. */
  lemma ParsedAt(s: string, q: Index)
    requires PowerTwo(|s|) != 0 && q as int < |s|
    ensures Bit(Parsed(s).bits, q) <==> s[|s| - 1 - q as int] == '1'
  {
    ParsedIsWord(s);
    WordAt(s, q);
  }

  /**
   * The table the string constructor holds after its first i iterations:
   * arity `power_two(|s|)`, and entry |s| - 1 - j set for each j < i with
   * character j equal to '1'.
   */
  function PrefixTable(s: string, i: nat): (t: Table)
    requires PowerTwo(|s|) != 0 && i <= |s|
    ensures t.numVar == PowerTwo(|s|) && t.Valid()
  {
    if i == 0 then Zero(PowerTwo(|s|))
    else
      var t := PrefixTable(s, i - 1);
      if s[i - 1] == '1' then WithEntry(t, CharEntry(s, i - 1)) else t
  }

  /** The entry character i of a string of 2^n characters names: |s| - 1 - i. */
  function CharEntry(s: string, i: nat): (p: Index)
    requires PowerTwo(|s|) != 0 && i < |s|
    ensures p < Size(PowerTwo(|s|))
  {
    SizeIsPow2(PowerTwo(|s|));
    EntryInTable(PowerTwo(|s|), |s| - (i + 1));
    (|s| - (i + 1)) as Index
  }

  /** The integer value of `CharEntry`. */
  lemma CharEntryValue(s: string, i: nat)
    requires PowerTwo(|s|) != 0 && i < |s|
    ensures CharEntry(s, i) as int == |s| - (i + 1)
  {
    SizeIsPow2(PowerTwo(|s|));
    IntAsIndex(|s| - (i + 1));
  }

  /** An iteration of the string constructor's loop that reads a '1' sets entry |s| - 1 - i. */
  lemma PrefixTableSet(s: string, i: nat, before: Table, after: Table)
    requires PowerTwo(|s|) != 0 && i < |s| && s[i] == '1' && before == PrefixTable(s, i)
    requires after == WithEntry(before, CharEntry(s, i))
    ensures after == PrefixTable(s, i + 1)
  {
  }

  /** An iteration of the string constructor's loop that reads another character changes nothing. */
  lemma PrefixTableSkip(s: string, i: nat)
    requires PowerTwo(|s|) != 0 && i < |s| && s[i] != '1'
    ensures PrefixTable(s, i + 1) == PrefixTable(s, i)
  {
  }

  /** Entry q after i iterations is set iff q names one of the first i characters and that character is '1'. */
  lemma {:induction false} PrefixTableAt(s: string, i: nat, q: Index)
    requires PowerTwo(|s|) != 0 && i <= |s|
    ensures Bit(PrefixTable(s, i).bits, q) <==>
      q as int < |s| && |s| - 1 - q as int < i && s[|s| - 1 - q as int] == '1'
  {
    if i == 0 {
      assert !Bit(Zero(PowerTwo(|s|)).bits, q);
    } else {
      PrefixTableAt(s, i - 1, q);
      PrefixStepAt(s, i, q);
    }
  }

  /** One iteration of `PrefixTableAt`: from the entries after i - 1 iterations to those after i. */
  lemma PrefixStepAt(s: string, i: nat, q: Index)
    requires PowerTwo(|s|) != 0 && 0 < i <= |s|
    requires Bit(PrefixTable(s, i - 1).bits, q) <==>
      q as int < |s| && |s| - 1 - q as int < i - 1 && s[|s| - 1 - q as int] == '1'
    ensures Bit(PrefixTable(s, i).bits, q) <==>
      q as int < |s| && |s| - 1 - q as int < i && s[|s| - 1 - q as int] == '1'
  {
    if s[i - 1] == '1' {
      SizeIsPow2(PowerTwo(|s|));
      CharEntryValue(s, i - 1);
      SetEntryAt(PrefixTable(s, i - 1), s, i, CharEntry(s, i - 1), q);
    }
  }

  /** `PrefixStepAt` for a character '1': t is the table before, p the entry the character sets. */
  lemma SetEntryAt(t: Table, s: string, i: nat, p: Index, q: Index)
    requires 0 < i <= |s| && s[i - 1] == '1'
    requires Pow2(t.numVar) == |s| && p as int == |s| - i && p < Size(t.numVar)
    requires Bit(t.bits, q) <==>
      q as int < |s| && |s| - 1 - q as int < i - 1 && s[|s| - 1 - q as int] == '1'
    ensures Bit(WithEntry(t, p).bits, q) <==>
      q as int < |s| && |s| - 1 - q as int < i && s[|s| - 1 - q as int] == '1'
  {
    WithEntryAtInt(t, p, |s| - i, |s|, q);
    PrefixSetLogic(s, i, q as int, Bit(WithEntry(t, p).bits, q), Bit(t.bits, q));
  }

  /**
   * The propositional step of `SetEntryAt`, with k the integer value of the
   * entry index: entry k is set now iff it was set before or it is the entry
   * that character i - 1 names.
   */
  lemma PrefixSetLogic(s: string, i: nat, k: int, now: bool, before: bool)
    requires 0 < i <= |s| && s[i - 1] == '1' && 0 <= k
    requires now == (k < |s| && (k == |s| - i || before))
    requires before == (k < |s| && |s| - 1 - k < i - 1 && s[|s| - 1 - k] == '1')
    ensures now == (k < |s| && |s| - 1 - k < i && s[|s| - 1 - k] == '1')
  {
  }

  /** `WithEntryAt` for an entry p whose integer value is j. */
  lemma WithEntryAtInt(t: Table, p: Index, j: nat, size: nat, q: Index)
    requires p < Size(t.numVar) && p as int == j && size == Pow2(t.numVar)
    ensures Bit(WithEntry(t, p).bits, q) ==
      (q as int < size && (q as int == j || Bit(t.bits, q)))
  {
    WithEntryAt(t, p, q);
    SameIndex(q, p);
    BelowSize(t.numVar, q);
    ConjunctOfEquals(Bit(WithEntry(t, p).bits, q), q < Size(t.numVar), q as int < Pow2(t.numVar),
      q == p, q as int == j, Bit(t.bits, q));
  }

  lemma ConjunctOfEquals(r: bool, a: bool, a': bool, b: bool, b': bool, c: bool)
    requires r == (a && (b || c)) && a == a' && b == b'
    ensures r == (a' && (b' || c))
  {
  }

  /** Entry indices are equal exactly when their integer values are. */
  lemma SameIndex(q: Index, p: Index)
    ensures q == p <==> q as int == p as int
  {
  }

  /** An index is an entry of a table of arity n exactly when its integer value is below 2^n. */
  lemma BelowSize(n: Arity, q: Index)
    ensures q < Size(n) <==> q as int < Pow2(n)
  {
    SizeIsPow2(n);
  }

  /** After the last iteration the string constructor holds `Parsed(s)`. */
  lemma PrefixTableComplete(s: string)
    requires PowerTwo(|s|) != 0
    ensures PrefixTable(s, |s|) == Parsed(s)
  {
    var n := PowerTwo(|s|);
    SizeIsPow2(n);
    forall q: Index | q < Size(n)
      ensures Bit(PrefixTable(s, |s|).bits, q) == Bit(Parsed(s).bits, q)
    {
      PrefixTableAt(s, |s|, q);
      ParsedAt(s, q);
    }
    TableExt(PrefixTable(s, |s|), Parsed(s));
  }

  /** A string whose length is none of 2, 4, ..., 64 (length 1 included) gives `Zero(0)`. */
  lemma ParsedOfNoArity(s: string)
    requires forall k: nat :: 1 <= k <= 6 ==> |s| != Pow2(k)
    ensures Parsed(s) == Zero(0)
  {
  }

  /** Printing a parsed binary string gives the string back. */
  lemma RenderParse(s: string)
    requires IsBinary(s) && PowerTwo(|s|) != 0
    ensures Rendered(Parsed(s)) == s
  {
    var r := Rendered(Parsed(s));
    ParsedSize(s);
    forall k | 0 <= k < |s|
      ensures r[k] == s[k]
    {
      RenderParseAt(s, k);
    }
  }

  /** One character of `RenderParse`. */
  lemma RenderParseAt(s: string, k: int)
    requires IsBinary(s) && PowerTwo(|s|) != 0 && 0 <= k < |s|
    ensures |Rendered(Parsed(s))| == |s| && Rendered(Parsed(s))[k] == s[k]
  {
    ParsedSize(s);
    ParsedIsWord(s);
    RenderWordOfWord(s, k);
  }

  /** Character k of the text of the word a binary string denotes is character k of the string. */
  lemma RenderWordOfWord(s: string, k: int)
    requires IsBinary(s) && |s| <= 64 && 0 <= k < |s|
    ensures RenderWord(Word(s), |s|)[k] == s[k]
  {
    RenderWordAt(Word(s), |s|, k);
    WordEntryAt(s, k);
    DigitOfBinary(EntryAt(Word(s), |s| - 1 - k), s[k]);
  }

  /** `WordAt` for the entry that character k names. */
  lemma WordEntryAt(s: string, k: nat)
    requires |s| <= 64 && k < |s|
    ensures EntryAt(Word(s), |s| - 1 - k) == (s[k] == '1')
  {
    var j := |s| - 1 - k;
    IntAsIndex(j);
    WordAt(s, j as Index);
  }

  /** The digit of b is a binary character c exactly when b says whether c is '1'. */
  lemma DigitOfBinary(b: bool, c: char)
    requires (c == '0' || c == '1') && (b <==> c == '1')
    ensures Digit(b) == c
  {
  }

  /** Parsing the text of a table of at least one variable gives the table back. */
  lemma ParseRender(t: Table)
    requires t.Valid() && t.numVar >= 1
    ensures Parsed(Rendered(t)) == t
  {
    var r := Rendered(t);
    SizeIsPow2(t.numVar);
    PowerTwoOfPow2(t.numVar);
    assert PowerTwo(|r|) == t.numVar;
    forall i: Index | i < Size(t.numVar)
      ensures Bit(Parsed(r).bits, i) == Bit(t.bits, i)
    {
      ParseRenderAt(t, i);
    }
    TableExt(Parsed(r), t);
  }

  /** One entry of `ParseRender`. */
  lemma ParseRenderAt(t: Table, i: Index)
    requires t.numVar >= 1 && i < Size(t.numVar)
    requires PowerTwo(|Rendered(t)|) == t.numVar
    ensures Bit(Parsed(Rendered(t)).bits, i) == Bit(t.bits, i)
  {
    SizeIsPow2(t.numVar);
    BelowSize(t.numVar, i);
    ParsedIsWord(Rendered(t));
    WordOfRenderWord(t.bits, Pow2(t.numVar), i);
  }

  /** Entry i of the word the text of m entries denotes is entry i of the original word. */
  lemma WordOfRenderWord(w: bv64, m: nat, i: Index)
    requires m <= 64 && i as int < m
    ensures Bit(Word(RenderWord(w, m)), i) == Bit(w, i)
  {
    var r := RenderWord(w, m);
    IndexBelow64(i);
    WordAt(r, i);
    RenderWordDigit(w, m, i);
    EqualChain(Bit(Word(r), i), r[m - 1 - i as int] == '1', Bit(w, i));
  }

  /** Character m - 1 - i of the text of m entries is '1' exactly when entry i is set. */
  lemma RenderWordDigit(w: bv64, m: nat, i: Index)
    requires m <= 64 && i as int < m
    ensures (RenderWord(w, m)[m - 1 - i as int] == '1') == Bit(w, i)
  {
    RenderWordAt(w, m, m - 1 - i as int);
    IndexAsInt(i);
  }

  /** With no variable the round trip fails: the one-entry table 1 prints "1", which parses to `Zero(0)`. */
  lemma ParseRenderArityZero()
    ensures Table(0, 1).Valid() && Rendered(Table(0, 1)) == "1"
    ensures Parsed("1") == Zero(0) && Zero(0) != Table(0, 1)
  {
    assert Bit(Table(0, 1).bits, 0);
  }

  // ---------------------------------------------------------------------
  // Worked examples
  // ---------------------------------------------------------------------

  /** The word of "0110" is 6: entries 1 and 2 set. */
  lemma WordOf0110()
    ensures Word("0110") == 6
  {
    assert "0110"[..3] == "011" && "011"[..2] == "01" && "01"[..1] == "0" && "0"[..0] == "";
  }

  /** x0 XOR x1 ("0110") is sensitive to x0 everywhere, never forced by it, and always satisfiable in it. */
  lemma OperatorsOn0110()
    ensures Parsed("0110") == Table(2, 6)
    ensures Rendered(Derivative(Parsed("0110"), 0)) == "1111"
    ensures Rendered(Consensus(Parsed("0110"), 0)) == "0000"
    ensures Rendered(Smoothing(Parsed("0110"), 0)) == "1111"
  {
    WordOf0110();
    assert Parsed("0110") == Table(2, 6);
    assert Derivative(Table(2, 6), 0) == Table(2, 15);
    assert Consensus(Table(2, 6), 0) == Table(2, 0);
    assert Smoothing(Table(2, 6), 0) == Table(2, 15);
  }

  /** `create_tt_nth_var(2, 0)`, with the default polarity, prints "1010", and its complement "0101". */
  lemma NthVarExamples()
    ensures Rendered(NthVar(2, 0)) == "1010"
    ensures Rendered(NthVar(2, 0, false)) == "0101"
  {
    assert NthVar(2, 0) == Table(2, 10);
    assert NthVar(2, 0, false) == Table(2, 5);
  }
}
