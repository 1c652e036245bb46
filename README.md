# Truth tables of up to six variables, in Dafny

This project models the truth-table engine of a small BDD package
(`src/truth_table.hpp`). A truth table there is an arity `num_var` (0 to 6)
and one 64-bit word `bits`. Bit i of the word is the function's output on the
input assignment numbered i. Only the low `2^num_var` bits may be set; that is
the invariant every operation keeps.

The model has six modules:

- `Masks` holds the three constant mask tables and the entry view
  `Bit(w, i)`. The contracts about the entries of a table are stated
  through that view. It also holds the bit-level facts the rest relies on.
- `BitString` holds `power_two`: as written, and as its own comment
  specifies it. It also holds the word a string of '0' and '1' denotes.
- `CofactorWords` holds the mask-and-shift arithmetic of the two cofactors.
- `TruthTables` models truth tables as values (`Table`). It covers the
  arity-and-word constructor, `get_bit`, the value `set_bit` leaves behind,
  `~ | & ^ == !=`, the cofactors, derivative, consensus, smoothing and
  `create_tt_nth_var`.
- `Printing` covers what `operator<<` prints, as a loop and as a function,
  and the table the string constructor builds. It proves the round trips
  between the two and the worked examples.
- `TruthTableObjects` has the class `TruthTable` with a constant `numVar` and
  a mutable `bits`. Its three constructors, `get_bit`, `n_var` and the in-place
  `set_bit` are specified by the `Table` value the object holds. The string
  constructor is a loop of `SetBit` calls, proved to build `Printing.Parsed(s)`.

Entry indices are `bv8`, the source's `uint8_t`. Variable indices, which
the source also passes as `uint8_t`, are naturals below 6. Words are `bv64`.
Arities are naturals up to 6.

## Model

| member | source | states |
|---|---|---|
| Masks.LengthMask | src/truth_table.hpp:8-10 | the lookup `length_mask[n]`; what its entries are is stated by `Masks.LengthMaskAt` |
| Masks.VarMaskPos | src/truth_table.hpp:13-15 | the lookup `var_mask_pos[v]`; what its entries are is stated by `Masks.VarMaskPosAt` |
| Masks.VarMaskNeg | src/truth_table.hpp:18-20 | the lookup `var_mask_neg[v]`; its relation to the positive mask is stated by `Masks.VarMaskNegIsNot` |
| Masks.LengthMaskAt | src/truth_table.hpp:8-10 | `length_mask[n]` has exactly the entries below 2^n set |
| Masks.VarMaskPosAt | src/truth_table.hpp:13-15 | `var_mask_pos[v]` has exactly the entries whose index has bit v set |
| Masks.VarMaskNegIsNot | src/truth_table.hpp:18-20 | `var_mask_neg[v]` is the complement of `var_mask_pos[v]`, so it selects the entries where variable v is 0 |
| Masks.SizeIsPow2 | src/truth_table.hpp:71 | the entry count `1 << num_var` equals 2^num_var and is at most 64 |
| Masks.TruncateAt | src/truth_table.hpp:52 | masking with `length_mask[n]` keeps the entries below 2^n and clears the others |
| Masks.OrOneHotAt | src/truth_table.hpp:77 | OR-ing `uint64_t(1) << p` sets entry p and keeps every other entry |
| BitString.PowerTwoSwitch | src/truth_table.hpp:27-42 | the `switch` gives k only for n = 2^k with k from 1 to 6, and 0 otherwise |
| BitString.PowerTwoAsWritten | src/truth_table.hpp:23-43 | up to 64 the code is the `switch`; above 64 the recursive branch returns 6 or more for every length |
| BitString.PowerTwoAsWrittenDefect | src/truth_table.hpp:24-26 | the recursive branch maps 65 (no power of two) to 6 and 128 to 7, above the largest arity |
| BitString.PowerTwo | src/truth_table.hpp:22-43 | the function its comment specifies: a nonzero result k means n = 2^k, and every n above 64 gives 0 |
| BitString.PowerTwoOfPow2 | src/truth_table.hpp:22-43 | `power_two(2^k) == k` for every k from 1 to 6 |
| BitString.Word | src/truth_table.hpp:61-67 | the word whose entries a string lists, last character first, as the loop's `set_bit(str.size() - 1 - i)` places them; its entries are stated by `BitString.WordAt` |
| BitString.WordAt | src/truth_table.hpp:61-67 | entry q of the word a string denotes is set iff q < length and character length-1-q is '1' |
| BitString.WordAbove | src/truth_table.hpp:61-67 | the word a string denotes has no entry at or above the string's length |
| TruthTables.Table.GetBit | src/truth_table.hpp:70-73 | `get_bit(p)` on an entry below 2^num_var is entry p of the word |
| TruthTables.ValidAbove | src/truth_table.hpp:92-93 | a table that keeps the invariant has no entry at or above 2^num_var |
| TruthTables.TableExt | src/truth_table.hpp:92-93 | two valid tables of one arity with the same entries are equal |
| TruthTables.Zero | src/truth_table.hpp:47-49 | the arity-only constructor gives a valid table of that arity with no entry set |
| TruthTables.Make | src/truth_table.hpp:51-53 | the arity-and-word constructor gives a valid table of that arity |
| TruthTables.MakeAt | src/truth_table.hpp:51-53 | entry i of the constructed table is entry i of the word below 2^n and 0 above |
| TruthTables.MakeOfValid | src/truth_table.hpp:51-53 | constructing from a valid table's own arity and word gives the table back |
| TruthTables.WithEntry | src/truth_table.hpp:75-79 | `set_bit` keeps the arity and the invariant |
| TruthTables.WithEntryAt | src/truth_table.hpp:75-79 | after `set_bit(p)` entry p is set, every other entry below 2^num_var is unchanged, and nothing above is set |
| TruthTables.Not | src/truth_table.hpp:105-107 | `~` keeps the arity and the invariant |
| TruthTables.Or | src/truth_table.hpp:110-113 | `\|` on tables of one arity keeps the arity and the invariant |
| TruthTables.And | src/truth_table.hpp:116-119 | `&` on tables of one arity keeps the arity and the invariant |
| TruthTables.Xor | src/truth_table.hpp:122-125 | `^` on tables of one arity keeps the arity and the invariant |
| TruthTables.NotAt | src/truth_table.hpp:105-107 | every entry of `~t` is the complement of that entry of t |
| TruthTables.OrAt | src/truth_table.hpp:110-113 | every entry of `a \| b` is the OR of the two entries |
| TruthTables.AndAt | src/truth_table.hpp:116-119 | every entry of `a & b` is the AND of the two entries |
| TruthTables.XorAt | src/truth_table.hpp:122-125 | every entry of `a ^ b` is the XOR of the two entries |
| TruthTables.NotNot | src/truth_table.hpp:105-107 | `~~t == t` for every table that keeps the invariant |
| TruthTables.XorSelf | src/truth_table.hpp:122-125 | `t ^ t` is the constant-0 table of t's arity |
| TruthTables.AndOrCommute | src/truth_table.hpp:110-119 | `&` and `\|` are commutative |
| TruthTables.Equal | src/truth_table.hpp:128-133 | `==` holds iff the two tables are the same value; with different arities it is false |
| TruthTables.NotEqual | src/truth_table.hpp:135-137 | `!=` holds iff the tables differ |
| TruthTables.EqualIffSameEntries | src/truth_table.hpp:128-133 | valid tables compare equal iff they have one arity and agree on every entry below 2^num_var |
| TruthTables.PositiveCofactor | src/truth_table.hpp:139-144 | the positive cofactor keeps the arity and the invariant |
| TruthTables.NegativeCofactor | src/truth_table.hpp:146-151 | the negative cofactor keeps the arity and the invariant |
| CofactorWords.PositiveCofactorWord | src/truth_table.hpp:142-143 | the entries where v is 1, OR-ed with a copy of them shifted down by 2^v; its entries are stated by `CofactorWords.PositiveCofactorWordAt` |
| CofactorWords.NegativeCofactorWord | src/truth_table.hpp:149-150 | the entries where v is 0, OR-ed with a copy of them shifted up by 2^v; its entries are stated by `CofactorWords.NegativeCofactorWordAt` |
| CofactorWords.PositiveCofactorWordAt | src/truth_table.hpp:142-143 | entry i of the masked-and-shifted word is entry i \| 2^v of the input word |
| CofactorWords.NegativeCofactorWordAt | src/truth_table.hpp:149-150 | entry i of the masked-and-shifted word is entry i & ~2^v of the input word |
| TruthTables.PositiveCofactorAt | src/truth_table.hpp:139-144 | entry i of the positive cofactor is entry i \| 2^v of the table |
| TruthTables.NegativeCofactorAt | src/truth_table.hpp:146-151 | entry i of the negative cofactor is entry i & ~2^v of the table |
| TruthTables.PositiveCofactorIndependent | src/truth_table.hpp:139-144 | the positive cofactor does not depend on variable v |
| TruthTables.NegativeCofactorIndependent | src/truth_table.hpp:146-151 | the negative cofactor does not depend on variable v |
| TruthTables.PositiveCofactorOfIndependent | src/truth_table.hpp:139-144 | a valid table that does not depend on v is its own positive cofactor |
| TruthTables.NegativeCofactorOfIndependent | src/truth_table.hpp:146-151 | a valid table that does not depend on v is its own negative cofactor |
| TruthTables.CofactorIdempotent | src/truth_table.hpp:139-151 | cofactoring a cofactor by the same variable, with either polarity, gives it back |
| TruthTables.Derivative | src/truth_table.hpp:153-156 | the derivative keeps the arity and the invariant |
| TruthTables.DerivativeAt | src/truth_table.hpp:153-156 | entry i of the derivative is the XOR of entries i \| 2^v and i & ~2^v |
| TruthTables.Consensus | src/truth_table.hpp:158-161 | consensus keeps the arity and the invariant |
| TruthTables.ConsensusAt | src/truth_table.hpp:158-161 | entry i of the consensus is the AND of entries i \| 2^v and i & ~2^v |
| TruthTables.Smoothing | src/truth_table.hpp:163-166 | smoothing keeps the arity and the invariant |
| TruthTables.SmoothingAt | src/truth_table.hpp:163-166 | entry i of the smoothing is the OR of entries i \| 2^v and i & ~2^v |
| TruthTables.NthVar | src/truth_table.hpp:169-174 | `create_tt_nth_var`, with `polarity` defaulting to true, gives a valid table of the requested arity |
| TruthTables.NthVarAt | src/truth_table.hpp:169-174 | entry i of the literal is bit v of i, complemented when `polarity` is false |
| TruthTables.NthVarPosAt | src/truth_table.hpp:172-173 | entry i of the positive literal is bit v of i |
| TruthTables.NthVarNegAt | src/truth_table.hpp:172-173 | entry i of the negative literal is the complement of bit v of i |
| TruthTables.NthVarNegIsNot | src/truth_table.hpp:169-174 | the negative literal is `~` of the positive one |
| Printing.Digit | src/truth_table.hpp:99 | the printed character is '1' for a set entry and '0' otherwise |
| Printing.RenderWord | src/truth_table.hpp:98-100 | the characters the printing loop emits for the low m entries of a word: exactly m of them |
| Printing.RenderWordAt | src/truth_table.hpp:97-102 | character k of the text of m entries is the digit of entry m-1-k: entries print from high to low |
| Printing.Rendered | src/truth_table.hpp:97-102 | the text of a table has 2^num_var characters |
| Printing.Render | src/truth_table.hpp:97-102 | the printing loop, from entry 2^num_var-1 down to 0, yields exactly `Rendered(t)` |
| Printing.Parsed | src/truth_table.hpp:55-68 | the string constructor's table is valid and has arity `power_two(length)` |
| Printing.ParsedSize | src/truth_table.hpp:55-68 | a string whose length gives a nonzero arity has one entry per character |
| Printing.ParsedAt | src/truth_table.hpp:61-67 | entry q of the parsed table is set iff character length-1-q is '1' |
| Printing.ParsedOfNoArity | src/truth_table.hpp:56-59 | a string whose length is none of 2, 4, ..., 64 (length 1 included) gives the arity-0 table with no entry |
| Printing.CharEntry | src/truth_table.hpp:63 | the entry `str.size() - 1 - i` that character i names is an entry of the table, below 2^num_var |
| Printing.PrefixTable | src/truth_table.hpp:61-67 | the table after the loop's first i iterations is valid and has the constructor's arity |
| Printing.PrefixTableAt | src/truth_table.hpp:61-67 | after i iterations, entry q is set iff it is named by one of the first i characters and that character is '1' |
| Printing.PrefixTableComplete | src/truth_table.hpp:55-68 | the loop run to the end builds `Parsed(s)` |
| Printing.RenderParse | src/truth_table.hpp:97-102 | printing the table parsed from a binary string of length 2^k, 1 <= k <= 6, gives the string back |
| Printing.ParseRender | src/truth_table.hpp:55-68 | parsing the text of a valid table of arity at least 1 gives the table back |
| Printing.ParseRenderArityZero | src/truth_table.hpp:56-59 | at arity 0 the round trip fails: the table 1 prints "1", and "1" parses to the empty arity-0 table |
| Printing.WordOf0110 | src/truth_table.hpp:61-67 | "0110" denotes the word 6 |
| Printing.OperatorsOn0110 | src/truth_table.hpp:153-166 | for "0110" and v = 0, derivative, consensus and smoothing print "1111", "0000" and "1111" |
| Printing.NthVarExamples | src/truth_table.hpp:169-174 | `create_tt_nth_var(2, 0)`, with the default polarity, prints "1010", and with polarity false "0101" |
| TruthTableObjects.TruthTable.Empty | src/truth_table.hpp:47-49 | the arity-only constructor holds `Zero(n)` and keeps the invariant |
| TruthTableObjects.TruthTable.FromWord | src/truth_table.hpp:51-53 | the arity-and-word constructor holds `Make(n, w)` and keeps the invariant |
| TruthTableObjects.TruthTable.FromString | src/truth_table.hpp:55-68 | the string constructor, one `set_bit` per '1', holds `Parsed(s)` and keeps the invariant |
| TruthTableObjects.TruthTable.GetBit | src/truth_table.hpp:70-73 | `get_bit(p)` is entry p of the object's word |
| TruthTableObjects.TruthTable.NVar | src/truth_table.hpp:81-83 | `n_var()` is the arity of the value the object holds |
| TruthTableObjects.TruthTable.SetBit | src/truth_table.hpp:75-79 | `set_bit(p)` changes the object's value to `WithEntry(old value, p)` and keeps the invariant; the arity is a constant |

## Left out

- Stream output: `operator<<` writes to a `std::ostream`; `Printing.Render` returns the characters it would write instead.
- Most `assert`s of the source become preconditions: equal arities for the binary operators, `var < num_var`, and `position < 1 << num_var`. For those, the model promises nothing about a call that breaks the assert in a build where asserts are compiled out. The one exception is the string constructor's assert, in the next line.
- Printing.Parsed: a character other than '0' and '1' leaves its entry clear. That is what the loop does in a build where `assert(str[i] == '0')` is compiled out. `TruthTableObjects.TruthTable.FromString` demands a binary string whenever the arity is nonzero, as that assert does.
- Arities above 6 are excluded by the type `Arity`. For them the source reads `length_mask` and the variable masks out of bounds.
- Strings of more than 64 characters take the corrected `power_two`, so they give arity 0; see the finding below. The source's own result for them, and the narrowing of `str.size()` to `uint32_t` for lengths of 2^32 or more, are not modelled.
- Printing.Render: the `int8_t` counter of the printing loop is an unbounded integer. It never exceeds 63, so nothing is lost.
- The narrowing of `str.size() - 1 - i` to `uint8_t` is left out. All such values are below 64 for the lengths the model accepts.
- The public member `bits` can be written directly by any caller. The class only changes it through `SetBit`.
- The operators, cofactors and literals take and return values (`TruthTables.Table`). The C++ code passes them `const` references and they return new objects. None of them changes its argument or keeps the reference, so the model loses no aliasing.
- Associativity of `&`, `|` and `^` is not proved; the source does not rely on it.

## Findings

| source | as written | input that shows it | evidently intended | confidence | as-written member | corrected member |
|---|---|---|---|---|---|---|
| src/truth_table.hpp:24-26 | for n > 64, `power_two` returns `6 + power_two(n / 64)` | n = 65 gives 6 though 65 is no power of two; n = 128 gives 7, above the largest arity | 0 for every n above 64, as the comment on line 22 says | not executed | BitString.PowerTwoAsWrittenDefect | BitString.PowerTwo |
