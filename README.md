# Verified model of four contest solutions

This project models four C++ contest programs and proves their answers correct against
specification functions written for each of them.

- **Grid colourings with a big exponent** (`contest2_task_I`). An arbitrary-precision signed
  integer `BigInt` stores base-10^9 blocks, least significant first, with a sign flag. The
  model covers its constructors, comparison, the four arithmetic operators with C++ truncating
  division, and decimal rendering. The `Solver` is meant to count the colourings of an n-by-m grid in
  two colours that contain no monochrome 2x2 square, modulo `mod`. The model proves the
  matrix formula it evaluates, not this counting reading. It builds the 2^m-by-2^m
  transition matrix of compatible row masks and raises it to the power n - 1 by recursive
  squaring, driven by the `BigInt` n. It then sums the entries.
- **Five-term recurrence by matrix power** (`contest_3_sem_1_contest_B`). `MatrixOperations`
  is a square matrix with a modulus, its product and its binary exponentiation. `MatrixSolver`
  raises the 5x5 companion matrix of a(k) = a(k-1) + ... + a(k-5), seeded with 1, 1, 2, 4, 8,
  and combines the first row of the power with the seeds.
- **Longest alternating subsequence** (`contest_3_sem_1_contest_I`). A quadratic dynamic
  programme keeps, for every position, the longest chain ending there on a rise and on a fall,
  the predecessor of each, and a mark of which of the two is longer. A walk back over the
  predecessors reconstructs one longest subsequence.
- **Longest common subsequence** (`contest_3_sem_1_contest_J`). The classic table over both
  prefixes, a walk back from the corner that collects 1-based positions, and output in
  reverse order.

## Module layout

- `Blocks` (blocks.dfy): the value of a base-10^9 block sequence and its algebra.
- `Decimal` (decimal.dfy): decimal digit strings, their values and canonical forms.
- `BigNum` (bigint.dfy): the `BigInt` class. The field `arr` is the block vector and
  `positiveFlag` the sign; `Value()` is its meaning. `Valid()` says the block vector is
  canonical, which every public operation keeps. Negative zero is allowed and means 0, as in
  the source, where `(-1) / 2` yields it.
- `Matrices` (matrices.dfy): square integer matrices as `seq<seq<int>>`, their product, powers
  and entry-wise reduction modulo m. It proves associativity, the power laws and that reducing
  between products does not change the result modulo m.
- `Colouring` (colouring.dfy): `Solver`, with its specification `Total(Power(Transition(m),
  2^m, n - 1)) % mod`.
- `Recurrence` (recurrence.dfy): `MatrixOperations` as a datatype, because the source copies
  it by value. `MatrixSolver` is a class. `Pentanacci` is the recurrence that the answer is
  proved against.
- `Alternating` (alternating.dfy): the spec functions `Chain` and `Best` define the longest
  rising or falling chain ending at a position. `Longest` is the overall optimum. `ZigZag`
  and `Subsequence` say what a valid answer is. `AlternatingSequenceCalculator` is a class.
- `Lcs` (lcs.dfy): `Table` is the LCS recurrence and `CommonSubsequence` says what a valid
  pair of index lists is. `LCS` is a class.

In the two class-based dynamic programmes, the loops run in helper methods on sequence values
(`ExtendAll`, `FillTable`, `Walk`, `FollowLinks`). The class methods store the results in the
fields.

## Model

| member | source | states |
|---|---|---|
| BigNum.BigInt.FromInt64 | contest2_task_I/contest2_task_I.cpp:25-48 | the new number is valid, its value is the given 64-bit integer, and its sign flag is set exactly when the integer is non-negative |
| BigNum.BigInt.ViaDecimal | contest2_task_I/contest2_task_I.cpp:26-29 | for the extreme branch that goes through `to_string`, the blocks are canonical, they hold the absolute value and the flag gives the sign |
| BigNum.Int64ToString | contest2_task_I/contest2_task_I.cpp:26-29 | the decimal rendering of a 64-bit integer is canonical, parses back to the integer and starts with '-' exactly for negatives |
| BigNum.BigInt.Decompose | contest2_task_I/contest2_task_I.cpp:40-46 | splitting a magnitude into base-10^9 blocks gives in-range blocks whose value is the magnitude, with no leading zero block, and no blocks exactly for zero |
| BigNum.BigInt.FromUInt64 | contest2_task_I/contest2_task_I.cpp:84-90 | an unsigned 64-bit integer gives a valid non-negative number of that value |
| BigNum.BigInt.FromString | contest2_task_I/contest2_task_I.cpp:50-79 | a well-formed decimal string gives a valid number whose magnitude is the digits' value and which is negative only for a minus sign not followed by '0'; on a canonical string the value is the string's value |
| BigNum.BigInt.ParseBlocks | contest2_task_I/contest2_task_I.cpp:62-77 | the blocks read from the right in groups of nine digits hold the value of the digit string and are each below 10^9 |
| BigNum.BigInt.ReadDigits | contest2_task_I/contest2_task_I.cpp:64-75 | accumulating digits as `10 * block + digit` yields the value of that digit slice |
| BigNum.BigInt.Copy | contest2_task_I/contest2_task_I.cpp:201-203 | the copy has the same blocks and sign as the original |
| BigNum.BigInt.RemovingZeros | contest2_task_I/contest2_task_I.cpp:413-420 | dropping leading zero blocks keeps the value and the sign, keeps at least one block, and leaves a canonical vector that is a prefix of the old one |
| BigNum.BigInt.IsZero | contest2_task_I/contest2_task_I.cpp:422-428 | true exactly when the magnitude is 0 |
| BigNum.BigInt.Compare | contest2_task_I/contest2_task_I.cpp:140-170 | the three-way comparison is Less, Equal or Greater exactly when the value is smaller than, equal to or greater than the other value, with 0 and -0 equal |
| BigNum.BigInt.Equals | contest2_task_I/contest2_task_I.cpp:174-193 | true exactly when the two values are equal |
| BigNum.BigInt.AbsMeaning | contest2_task_I/contest2_task_I.cpp:482-505 | true exactly when this magnitude is at most the other's |
| BigNum.BigInt.Plus | contest2_task_I/contest2_task_I.cpp:455-480 | adding magnitudes with carry makes the block value the sum of the two old block values and keeps the sign |
| BigNum.BigInt.Subtract | contest2_task_I/contest2_task_I.cpp:507-533 | for a smaller second magnitude, the result is valid, its magnitude is the difference and it takes the first operand's sign |
| BigNum.BigInt.SubtractWithAbs | contest2_task_I/contest2_task_I.cpp:535-546 | the value is the difference of the magnitudes, with the sign flag set exactly when the first is not smaller |
| BigNum.BigInt.AddAssign | contest2_task_I/contest2_task_I.cpp:283-295 | `+=` makes the value the old sum and follows the source's rule for the resulting sign flag |
| BigNum.BigInt.SubAssign | contest2_task_I/contest2_task_I.cpp:297-313 | `-=` makes the value the old difference and follows the source's rule for the resulting sign flag |
| BigNum.BigInt.MultiplyBlocks | contest2_task_I/contest2_task_I.cpp:265-275 | schoolbook multiplication with carry propagation gives in-range blocks, as many as both inputs together, whose value is the product of the two values |
| BigNum.BigInt.AddRow | contest2_task_I/contest2_task_I.cpp:268-274 | one pass of the inner loop adds block x at position i times the other factor, keeps every block in range, and leaves the blocks above i + len(b) zero |
| BigNum.BigInt.MulAssign | contest2_task_I/contest2_task_I.cpp:259-281 | `*=` returns a number whose value is the product; a zero operand returns a zero and leaves this unchanged, otherwise this holds the product |
| BigNum.BigInt.Product | contest2_task_I/contest2_task_I.cpp:213-220 | `a * b` is a fresh valid number whose value is the product |
| BigNum.BigInt.Sum | contest2_task_I/contest2_task_I.cpp:201-205 | `a + b` is a fresh valid number whose value is the sum |
| BigNum.BigInt.Difference | contest2_task_I/contest2_task_I.cpp:207-211 | `a - b` is a fresh valid number whose value is the difference |
| BigNum.BigInt.ShiftRight | contest2_task_I/contest2_task_I.cpp:315-325 | a zero block is inserted at the low end, which multiplies the block value by 10^9 |
| BigNum.BigInt.BinarySearchQuotient | contest2_task_I/contest2_task_I.cpp:346-361 | the digit found is the largest x <= 10^9 with b * x <= current |
| BigNum.BigInt.DivideCore | contest2_task_I/contest2_task_I.cpp:363-374 | long division from the top block leaves in-range quotient blocks and a remainder below the divisor, with the dividend equal to divisor times quotient plus remainder |
| BigNum.BigInt.PrepareForDivision | contest2_task_I/contest2_task_I.cpp:335-344 | reports whether both operands are non-zero, and sizes the quotient vector to the dividend only then |
| BigNum.BigInt.DivAssign | contest2_task_I/contest2_task_I.cpp:376-392 | `/=` by a non-zero divisor makes the value the quotient rounded toward zero; a zero operand leaves this unchanged |
| BigNum.BigInt.Quotient | contest2_task_I/contest2_task_I.cpp:222-231 | `a / b` has the value of the quotient truncated toward zero, and 0 for a zero divisor |
| BigNum.BigInt.ModAssign | contest2_task_I/contest2_task_I.cpp:394-399 | `%=` makes the value the truncating remainder, whose sign follows the dividend |
| BigNum.BigInt.Remainder | contest2_task_I/contest2_task_I.cpp:233-237 | `a % b` has the value of the truncating remainder |
| BigNum.TruncRemBounds | contest2_task_I/contest2_task_I.cpp:394-399 | the truncating remainder is smaller in magnitude than the divisor, and is zero or has the dividend's sign |
| BigNum.BigInt.PaddedBlock | contest2_task_I/contest2_task_I.cpp:440-448 | a lower block is rendered with zero padding to exactly nine digits of its value |
| BigNum.BigInt.AppendLowerBlocks | contest2_task_I/contest2_task_I.cpp:439-450 | appending the padded lower blocks after the top block gives exactly the prefix followed by `to_string` of the whole block value |
| BigNum.BigInt.GetString | contest2_task_I/contest2_task_I.cpp:430-453 | the rendering is a canonical decimal string whose value is the number's value |
| BigNum.ParseThenRender | contest2_task_I/contest2_task_I.cpp:50-79 | parsing a canonical decimal string and rendering it gives back the same string |
| BigNum.ParseRenderAny | contest2_task_I/contest2_task_I.cpp:55-59 | parsing any well-formed string and rendering it gives its canonical form, except that a string starting with "-0" gives the canonical form of its digits, without the sign |
| BigNum.MinusZeroPrefix | contest2_task_I/contest2_task_I.cpp:57-58 | "-05", whose canonical form is "-5", renders as "5" |
| BigNum.ParseSigned | contest2_task_I/contest2_task_I.cpp:55-59 | with the sign test applied to the magnitude, the parsed value is the value of the string |
| BigNum.ParseRenderCanonical | contest2_task_I/contest2_task_I.cpp:50-79 | with that sign test, parsing and rendering give the canonical form of every well-formed string |
| BigNum.RenderThenParse | contest2_task_I/contest2_task_I.cpp:430-453 | rendering a number and parsing the string gives back the same value |
| Colouring.FindSquare | contest2_task_I/contest2_task_I.cpp:654-667 | true exactly when some columns i - 1 and i of the two masks form a monochrome 2x2 square |
| Colouring.HasSquareSymmetric | contest2_task_I/contest2_task_I.cpp:654-667 | whether two rows hold such a square does not depend on their order |
| Colouring.AccumulateEntry | contest2_task_I/contest2_task_I.cpp:644-649 | the inner loop sets one entry to its dot product modulo mod and changes nothing else |
| Colouring.Multiply | contest2_task_I/contest2_task_I.cpp:637-652 | the result is the matrix product with every entry reduced modulo mod |
| Colouring.Exp | contest2_task_I/contest2_task_I.cpp:624-635 | for n >= 1, recursive squaring returns the matrix itself for n = 1 and otherwise the n-th power reduced modulo mod |
| Colouring.Transition | contest2_task_I/contest2_task_I.cpp:602-610 | the transition matrix is 2^m square and has 1 exactly for the pairs of masks with no monochrome square |
| Colouring.BuildTransition | contest2_task_I/contest2_task_I.cpp:602-610 | the nested mask loops build exactly that transition matrix |
| Colouring.SumEntries | contest2_task_I/contest2_task_I.cpp:613-618 | the running sum modulo mod equals the total of the entries modulo mod |
| Colouring.TotalOfCongruent | contest2_task_I/contest2_task_I.cpp:613-618 | matrices that agree modulo mod have totals that agree modulo mod |
| Colouring.TotalIdentity | contest2_task_I/contest2_task_I.cpp:598-599 | the identity of size 2^m sums to 2^m, so the n = 1 shortcut agrees with the general formula |
| Colouring.Solve | contest2_task_I/contest2_task_I.cpp:594-621 | the answer lies in [0, mod) and is the entry total of the (n - 1)-th power of the transition matrix, modulo mod |
| Matrices.MulAssoc | contest2_task_I/contest2_task_I.cpp:624-635 | the matrix product is associative, which recursive squaring relies on |
| Matrices.PowerAdd | contest2_task_I/contest2_task_I.cpp:630-634 | a^(e1 + e2) = a^e1 * a^e2 |
| Matrices.ReduceMul | contest2_task_I/contest2_task_I.cpp:637-652 | reducing the factors modulo mod before multiplying gives the same reduced product |
| Matrices.CongruentPower | contest2_task_I/contest2_task_I.cpp:624-635 | what Exp returns agrees modulo mod with the true power |
| Matrices.MulIdentityLeft | contest_3_sem_1_contest_B.cpp:46-57 | the identity is a left unit of the product |
| Recurrence.NewMatrix | contest_3_sem_1_contest_B.cpp:15-23 | the constructor makes an n-by-n identity or zero matrix with the given modulus |
| Recurrence.MatrixOperations.AccumulateEntry | contest_3_sem_1_contest_B.cpp:36-39 | the inner loop sets one product entry to its dot product modulo mod and changes nothing else |
| Recurrence.MatrixOperations.Times | contest_3_sem_1_contest_B.cpp:32-43 | `*` is the matrix product with every entry reduced modulo mod |
| Recurrence.MatrixOperations.Exponentiate | contest_3_sem_1_contest_B.cpp:46-57 | binary exponentiation returns the identity for power 0 and otherwise the power reduced modulo mod |
| Recurrence.HalveExponent | contest_3_sem_1_contest_B.cpp:49-55 | the loop's `done + power * step` bookkeeping is kept when the exponent is halved |
| Recurrence.CompanionStep | contest_3_sem_1_contest_B.cpp:112-118 | the companion matrix moves a window of five consecutive terms one step forward |
| Recurrence.CompanionPower | contest_3_sem_1_contest_B.cpp:112-118 | its d-th power maps the seed window to the window at d |
| Recurrence.PowerRowZero | contest_3_sem_1_contest_B.cpp:92-99 | row 0 of the d-th power, combined with the seeds, is term d + 4 of the recurrence |
| Recurrence.CombineWithSeeds | contest_3_sem_1_contest_B.cpp:92-99 | the final loop returns that combination modulo the modulus |
| Recurrence.MatrixSolver.constructor | contest_3_sem_1_contest_B.cpp:72-78 | the stored distance is dist - jumps when dist >= jumps and dist otherwise; the seeds and the companion matrix are in place |
| Recurrence.MatrixSolver.InitializeTransformationMatrix | contest_3_sem_1_contest_B.cpp:112-118 | the matrix becomes the companion matrix and no other field changes |
| Recurrence.MatrixSolver.CalculateResult | contest_3_sem_1_contest_B.cpp:85-100 | below cntJumps the answer is the seed, which is the recurrence term; otherwise it is term distance + 4 modulo the modulus |
| Recurrence.Answer | contest_3_sem_1_contest_B.cpp:122-130 | the program prints term dist for dist < 5, term dist - 5 for 5 <= dist < 10, and term dist - 1 modulo 1000003 beyond |
| Alternating.AlternatingSequenceCalculator.constructor | contest_3_sem_1_contest_I.cpp:14-17 | all lengths start at 1, all predecessors at -1 and all marks at 0 |
| Alternating.ExtendElement | contest_3_sem_1_contest_I.cpp:24-35 | after the inner loop at i, both lengths are the longest chains ending at i, each predecessor is the first optimal link, and the mark names the strictly longer chain |
| Alternating.ExtendAll | contest_3_sem_1_contest_I.cpp:23-37 | after the outer loop, every position holds its longest chains, links and marks |
| Alternating.AlternatingSequenceCalculator.CalculateLongestSequences | contest_3_sem_1_contest_I.cpp:22-38 | from the constructor's state, the fields end up solved for the whole sequence |
| Alternating.ChainBounds | contest_3_sem_1_contest_I.cpp:23-36 | a chain ending at i is between 1 and i + 1 long |
| Alternating.BestIsMaximal | contest_3_sem_1_contest_I.cpp:25-35 | the best link before k is at least the chain of every admissible predecessor |
| Alternating.BestWitness | contest_3_sem_1_contest_I.cpp:25-35 | a positive best link is reached by some admissible predecessor |
| Alternating.BestDominated | contest_3_sem_1_contest_I.cpp:25-35 | a predecessor j of i in one direction has chains at least as long as i's links in the other direction |
| Alternating.LinkedKind | contest_3_sem_1_contest_I.cpp:56-64 | the first optimal predecessor ends a chain in the other direction that is at least as long as its chain in the same direction |
| Alternating.LongestIsMaximum | contest_3_sem_1_contest_I.cpp:48-54 | the overall length bounds every chain, is reached by one, and is 0 only for the empty sequence |
| Alternating.FindLongest | contest_3_sem_1_contest_I.cpp:48-54 | the scan returns the overall longest length and the first position reaching it, or -1 for the empty sequence |
| Alternating.WalkStep | contest_3_sem_1_contest_I.cpp:57-64 | following the marked predecessor goes to an earlier position whose chain is one shorter and which alternates |
| Alternating.FollowLinks | contest_3_sem_1_contest_I.cpp:56-67 | the walk and the reversal produce a subsequence of exactly the longest length that alternates |
| Alternating.ZigZagReversed | contest_3_sem_1_contest_I.cpp:66 | reversing an alternating sequence keeps it alternating |
| Alternating.ChainIsUpperBound | contest_3_sem_1_contest_I.cpp:23-35 | every alternating subsequence ending at a position is no longer than the chain computed there |
| Alternating.LongestIsOptimal | contest_3_sem_1_contest_I.cpp:44-68 | no alternating subsequence is longer than the reported length |
| Alternating.AlternatingSequenceCalculator.GetLongestSequence | contest_3_sem_1_contest_I.cpp:44-68 | the reported length is the optimum and the returned sequence is an alternating subsequence of that length |
| Alternating.Run | contest_3_sem_1_contest_I.cpp:114-127 | the whole programme yields an optimal alternating subsequence and its length |
| Lcs.LCS.constructor | contest_3_sem_1_contest_J.cpp:23-26 | the table is (n+1)-by-(m+1) zeros and the index lists are empty |
| Lcs.FillRow | contest_3_sem_1_contest_J.cpp:34-40 | one row of the inner loop equals the recurrence's row |
| Lcs.FillTable | contest_3_sem_1_contest_J.cpp:32-42 | the double loop fills every entry with the recurrence's value |
| Lcs.LCS.ComputeLCS | contest_3_sem_1_contest_J.cpp:32-42 | the table field is filled and the other fields are unchanged |
| Lcs.TableSteps | contest_3_sem_1_contest_J.cpp:35-39 | moving back one index changes an entry by 0 or 1 |
| Lcs.TableBounds | contest_3_sem_1_contest_J.cpp:35-39 | an entry is at most either prefix length |
| Lcs.TableMonotone | contest_3_sem_1_contest_J.cpp:35-39 | entries grow with both prefixes |
| Lcs.TableIsUpperBound | contest_3_sem_1_contest_J.cpp:35-39 | every common subsequence of the prefixes is no longer than the entry |
| Lcs.Walk | contest_3_sem_1_contest_J.cpp:47-61 | the walk from the corner collects exactly dp[n][m] matching position pairs, strictly decreasing in both strings |
| Lcs.LCS.ReconstructLCS | contest_3_sem_1_contest_J.cpp:47-61 | the index lists grow by dp[n][m] such pairs and keep what they held |
| Lcs.WalkedReversed | contest_3_sem_1_contest_J.cpp:70-77 | read backwards, the collected pairs form a common subsequence with increasing positions |
| Lcs.LCS.PrintResult | contest_3_sem_1_contest_J.cpp:66-79 | the printed length is dp[n][m] and the lists are printed in reverse |
| Lcs.Run | contest_3_sem_1_contest_J.cpp:82-92 | the programme prints the longest common length and two position lists of that length that form a common subsequence |

## Left out

- Input and output are parameters and results. This covers `operator>>` and `operator<<` on streams, `getInput`, `inputSequence`, `printSequence`, the `main` functions' reading and `std::cout`.
- `BigInt(double)` (contest2_task_I.cpp line 82) is not modelled, because floating point is outside the model.
- `shiftLeft` and the shifting `operator<<` on `BigInt` are not modelled. `Solver` never calls them.
- The free functions `find`, `mul` and `exp` over `BigInt` matrices (lines 548-590) are not modelled. `Solver` uses its own members instead.
- `contest2_task_K` is not part of this model. Its algorithm rests on floating point.
- BigNum.BigInt.MulAssign: with a zero operand the source returns a reference to a function-local static zero. The model returns a fresh zero; the aliasing of that static object is not modelled.
- BigNum.BigInt.FromString: keeps the source's sign test on the character after '-', so "-0" followed by nonzero digits parses as positive (see "## Findings"). The round trip to the canonical form is proved for `ParseSigned` only.
- BigNum.BigInt.FromString: requires a well-formed string (an optional '-' then at least one digit). Malformed input is outside the source's contract and is not modelled.
- BigNum.BigInt.BinarySearchQuotient: requires non-negative operands. These are the only values its sole caller, `DivideCore`, passes.
- The branches of `IsZero`, `GetString` and `ShiftRight` for an empty block vector are not modelled. No `BigInt` can have an empty vector.
- The source's `int64_t` block products and `long long` / `unsigned long long` matrix products are modelled as unbounded integers. Overflow does not occur for the moduli the programs use.
- Colouring.Solve: `1LL << m` is `Pow2(m)`, unbounded; a shift by 63 or more is not modelled.
- Colouring.Solve: requires n >= 1. For n <= 0 the source's `exp` recursion never ends: it alternates between -1 and -2, because `-1 % 2` is -1 and `-2 / 2` is -1. `Exp` needs n >= 1 to terminate.
- Colouring.Solve: requires mod > 0. For a negative mod, the source's truncating `%` gives the same results as for |mod|; that case is not modelled. `mod == 0` is undefined in C++.
- Colouring.Solve: the count of colourings is not proved to equal the matrix formula. No lemma links the entry total of the power of `Transition(m)` to the number of grids without a monochrome 2x2 square.
- Recurrence.MatrixSolver.constructor: requires jumps == 5. The program only uses the default, and the seeds are five values.
- Recurrence.MatrixSolver.CalculateResult: requires a positive modulus on the matrix path. `% 0` is undefined in C++.
- Recurrence.Answer: the program answers with term dist - 5 for 5 <= dist < 10, against term dist - 1 beyond. This is modelled as written; the problem statement is not available, so it is not claimed to be a defect.
- `MatrixOperations::operator[]` is plain row access on the datatype's `matrix` field.
- Lcs.LCS.ComputeLCS: requires the zero border that the constructor leaves. A second call after filling, or on a table the caller altered, is not modelled.
- Alternating.AlternatingSequenceCalculator.CalculateLongestSequences: requires the constructor's initial state; a second call is not modelled.
- Lcs.LCS.ComputeLCS, Lcs.LCS.ReconstructLCS and Alternating.AlternatingSequenceCalculator.CalculateLongestSequences: the loops run on sequence values and the fields are assigned once at the end. The order of the in-place updates is not modelled.
- C++ `int` widths for sequence values, lengths and indices are unbounded; only comparisons and additions by one occur, and none of them overflows for the supported inputs.

## Findings

| source | as written | input that shows it | evidently intended | confidence | as-written member | corrected member |
|---|---|---|---|---|---|---|
| contest2_task_I/contest2_task_I.cpp:55-59 | a '-' followed by '0' resets the sign flag whatever digits follow | "-05" parses as +5 and renders as "5" | only a zero magnitude drops the sign, so "-05" is -5 and renders as "-5" | not executed; medium, because inputs with a leading zero after '-' may not occur | BigNum.MinusZeroPrefix | BigNum.ParseRenderCanonical |
