# Decimal adders on four-bit groups

A model in Dafny of the arithmetic core of `simulacion.cpp`, a console program
that simulates decimal adders built from four-bit digit groups. Numbers are
held as strings of the characters '0' and '1', one group of four per decimal
digit, most significant digit first. Two codes are used:

- **BCD** stores digit d as d.
- **Excess-3** stores digit d as d + 3.

The program has four phases, all modelled here:

- **BCD addition.** Digit by digit, with the correction by six, including
  the carry forced by a binary overflow.
- **BCD subtraction.** It adds A, the nines' complement of B and a carry-in
  of 1. When no carry comes out, it recomplements the result and adds one.
- **Excess-3 addition.** The binary sum of each group is corrected by adding
  back 3 or taking 3 off.
- **Excess-3 subtraction.** The nines' complement is taken by inverting the
  bits.

Modules, one per file, follow the program's layers:

- `BitStrings` (`bitstrings.dfy`): `int_a_bin4`, `bin_a_int`, `invertir_bits`.
- `DecimalCodes` (`decimalcodes.dfy`): the four codecs. It also defines what a
  code stands for: `Nibbles` gives the group values, `ValidCode` says every
  group is a digit of the code, and `CodeValue` gives the number.
- `Aligner` (`aligner.dfy`): `pad_numeros`.
- `DigitAdders` (`digitadders.dfy`): the digit steps of both adders in closed
  form, and `GroupSum`, the value the adder loops compute.
- `BcdArithmetic` (`bcdarithmetic.dfy`): `realizar_suma_bcd` and
  `complemento_a9_bcd`.
- `Excess3Arithmetic` (`excess3arithmetic.dfy`): the Excess-3 adder loop,
  which the program writes out twice, as one method with a carry-in.
- `Simulations` (`simulations.dfy`): the arithmetic of the four `simular_*`
  functions. The two numbers read from the console become parameters.

Every loop of the source is a method with a loop and its invariants. Each
method is proved against specification functions:

- `IntToBin4` against `Bin4`, and `InvertBits` against `Inverted`;
- `DecimalToBcd` and `DecimalToExcess3` against `Encode`, and
  `BcdToDecimal` and `Excess3ToDecimal` against `CodeValue`;
- `PadNumbers` against `AlignTo4`, `PadCount` and `Repeat`;
- `BcdDigitStep` against `BcdDigit`, `Excess3DigitStep` against
  `Excess3Digit`, and `AddBcd` and `AddExcess3` against `GroupSum`;
- `NinesComplementBcd` against `NinesBcd`;
- `EncodeNumber` against `Encode`, and `PrepareOperands` against `Operand`.

The properties the program relies on are lemmas about those functions:

- the round trip of the codecs;
- the per-digit correctness of both correction rules;
- value(sum) + carry · 10^k = value(a) + value(b) + carry-in;
- the nines' complement as 10^k − 1 − value, and as an involution;
- the sign decided by the final carry.

The program's own narration for the Excess-3 subtraction says that, without a
final carry, the sum is in nines' complement (simulacion.cpp:530). It says
that inverting its bits gives the magnitude (simulacion.cpp:533-534). Its
check at simulacion.cpp:543 expects num1 − num2. Inverting alone gives
B − A − 1. The model follows the code and proves the corrected version
beside it (see "## Findings").

## Model

| member | source | states |
|---|---|---|
| BitStrings.BinToInt | simulacion.cpp:28-31 | bin_a_int reads a bit string, most significant bit first; it has no ensures of its own, and BinToIntBound, BinToInt4 and Bin4OfBinToInt state its properties |
| BitStrings.Flip | simulacion.cpp:44 | the flipped character differs from the one it replaces |
| BitStrings.Zeros | simulacion.cpp:112 | n characters, every one '0' (the fill `insert` writes) |
| BitStrings.Repeat | simulacion.cpp:124-126 | m copies of a four-character pad make 4m characters |
| BitStrings.BinToIntBound | simulacion.cpp:28-31 | a string of k bits reads as a number below 2^k |
| BitStrings.BinToInt4 | simulacion.cpp:28-31 | a four-bit group reads as 8·b0 + 4·b1 + 2·b2 + b3 |
| BitStrings.GroupBound | simulacion.cpp:150-151 | every four-bit group a loop reads is in 0 .. 15 |
| BitStrings.Bits | simulacion.cpp:19-21 | the low w bits of n, as exactly w characters |
| BitStrings.BitsValue | simulacion.cpp:19-21 | the w bits of a number below 2^w read back as that number |
| BitStrings.BitsOfBinToInt | simulacion.cpp:28-31 | writing the value of a bit string back in as many bits gives the string |
| BitStrings.Bin4 | simulacion.cpp:15-23 | int_a_bin4 writes exactly four bit characters |
| BitStrings.Bin4Value | simulacion.cpp:18-21 | the group int_a_bin4 writes reads back as n mod 16, for every integer n |
| BitStrings.Bin4Small | simulacion.cpp:15-23 | a value in 0 .. 15 reads back unchanged |
| BitStrings.Bin4Congruent | simulacion.cpp:18 | numbers equal modulo 16 are written as the same group (the mask with 0x0F) |
| BitStrings.IntToBin4 | simulacion.cpp:15-23 | the shift-and-mask loop writes Bin4(n) |
| BitStrings.Bin4OfBinToInt | simulacion.cpp:15-31 | on four-bit groups int_a_bin4 undoes bin_a_int |
| BitStrings.Inverted | simulacion.cpp:41-47 | same length, every character flipped |
| BitStrings.InvertBits | simulacion.cpp:41-47 | the loop writes Inverted(s) |
| BitStrings.InvertedInvolution | simulacion.cpp:41-47 | inverting twice gives back any bit string |
| BitStrings.InvertedValue | simulacion.cpp:41-47 | inversion takes the value v of a k-bit string to 2^k − 1 − v |
| DecimalCodes.CharDigit | simulacion.cpp:56 | `c - '0'` is in 0 .. 9 exactly when c is a digit character |
| DecimalCodes.DecimalValue | simulacion.cpp:73 | stoi of digit text is never negative |
| DecimalCodes.Nibbles | simulacion.cpp:67-69 | one group value per four characters |
| DecimalCodes.CodeValue | simulacion.cpp:65-74 | the number a code stands for; it has no ensures of its own, and CodeValueBound, CodeValueAppend and CodeValuePrepend state its properties |
| DecimalCodes.ZeroGroup | simulacion.cpp:241-242 | the pad group for decimal 0 is four bits worth the code's bias (0 for BCD, 3 for Excess-3) |
| DecimalCodes.Pow10Monotone | simulacion.cpp:241-244 | proof helper: more digits never allow a smaller bound |
| DecimalCodes.DigitChar | simulacion.cpp:70 | the character streamed for a one-digit value is a digit that reads back as the value |
| DecimalCodes.DecimalValueAppend | simulacion.cpp:73 | stoi reads one more digit at the right as ten times plus that digit |
| DecimalCodes.DecimalText | simulacion.cpp:53 | to_string writes at least one character |
| DecimalCodes.DecimalTextValue | simulacion.cpp:53 | to_string(n) holds digits only, reads back as n, uses d digits with n < 10^d and starts with '0' exactly when n is 0 |
| DecimalCodes.NibblesLength | simulacion.cpp:67-71 | one group value per four characters |
| DecimalCodes.NibblesConcat | simulacion.cpp:67-71 | reading groups distributes over concatenation at a group boundary |
| DecimalCodes.NibblesSplit | simulacion.cpp:67-71 | the groups of a string split at any group boundary |
| DecimalCodes.DigitsValueConcat | simulacion.cpp:72-73 | digits in front count 10^k times as much as the k digits behind them |
| DecimalCodes.DigitsValueBound | simulacion.cpp:72-73 | k digits stand for a number in 0 .. 10^k − 1 |
| DecimalCodes.ValidConcat | simulacion.cpp:241-242 | a concatenation of whole groups is valid exactly when both parts are |
| DecimalCodes.ValidSplit | simulacion.cpp:67-71 | both sides of a group boundary of a valid code are valid |
| DecimalCodes.CodeValuePrepend | simulacion.cpp:241-242 | a group in front adds its digit times 10^k, and keeps validity exactly when it is a digit |
| DecimalCodes.CodeValueAppend | simulacion.cpp:94-97 | a group at the end gives ten times the value in front plus its digit |
| DecimalCodes.CodeValueBound | simulacion.cpp:65-74 | a valid code of k groups stands for a number in 0 .. 10^k − 1 |
| DecimalCodes.GroupCode | simulacion.cpp:68-69 | one group is a code of one digit, valid exactly when its value is a digit of the code |
| DecimalCodes.ZeroPadding | simulacion.cpp:241-244 | groups for decimal 0 in front change neither validity nor value, in either code |
| DecimalCodes.ZerosAreZeroGroups | simulacion.cpp:330 | a run of 4m '0' characters is m BCD zero groups |
| DecimalCodes.OneCode | simulacion.cpp:330-331 | zero groups followed by the group for 1 make a valid code for 1 that is one group longer |
| DecimalCodes.EncodeText | simulacion.cpp:55-58 | one group per character of the decimal text |
| DecimalCodes.Encode | simulacion.cpp:52-59 | the encoding is 4 × (number of decimal digits) long, in whole groups |
| DecimalCodes.DigitValues | simulacion.cpp:55-58 | one group value per digit |
| DecimalCodes.NibblesAppendDigit | simulacion.cpp:55-58 | proof helper: a group for a value in 0 .. 15 written behind whole groups adds that value behind their values |
| DecimalCodes.EncodeTextNibbles | simulacion.cpp:55-58 | the groups written hold digit + bias, one per character |
| DecimalCodes.DigitValuesValue | simulacion.cpp:55-58 | those values are digits of the code and stand for the number the text stands for |
| DecimalCodes.EncodeTextValue | simulacion.cpp:52-59 | encoding decimal text gives a valid code that stands for the text's number |
| DecimalCodes.EncodeRoundTrip | simulacion.cpp:52-101 | for every n ≥ 0 and either code the encoding of n is valid, decodes to n, and n is below 10^(groups) |
| DecimalCodes.DecimalToBcd | simulacion.cpp:52-60 | decimal_a_bcd writes Encode(Bcd, n), a valid BCD code that decodes to n |
| DecimalCodes.DecimalToExcess3 | simulacion.cpp:79-87 | decimal_a_exceso3 writes Encode(Excess3, n), a valid Excess-3 code that decodes to n |
| DecimalCodes.DecodeStep | simulacion.cpp:67-71 | after each group, the text streamed so far reads as the value of the groups read so far |
| DecimalCodes.BcdToDecimal | simulacion.cpp:65-74 | bcd_a_decimal returns the value of a valid BCD code, below 10^(groups); the empty code gives 0 |
| DecimalCodes.Excess3ToDecimal | simulacion.cpp:92-101 | exceso3_a_decimal returns the value of a valid Excess-3 code, below 10^(groups); the empty code gives 0 |
| Aligner.AlignTo4 | simulacion.cpp:111-116 | stage 1 never shortens a string |
| Aligner.AlignTo4Shape | simulacion.cpp:110-116 | stage 1 gives whole groups, adds fewer than four characters, only '0' and only in front, and leaves whole groups alone |
| Aligner.ZerosInFront | simulacion.cpp:112 | leading '0' characters do not change a binary value |
| Aligner.ZerosValue | simulacion.cpp:112 | a run of '0' characters reads as 0 |
| Aligner.AlignTo4Value | simulacion.cpp:110-116 | stage 1 keeps the binary value |
| Aligner.PadCount | simulacion.cpp:123-128 | stage 2 never pads the shorter string past the longer length |
| Aligner.PadNumbers | simulacion.cpp:106-133 | pad_numeros aligns both strings, then puts whole copies of the pad in front of the shorter one only, as many as the length difference in groups |
| Aligner.PaddedLengths | simulacion.cpp:106-133 | with a four-character pad both results have the longer aligned length in whole groups, each input is a suffix of its result, and the longer operand gets no pad |
| Aligner.PaddingKeepsValue | simulacion.cpp:121-131 | padding with the zero group keeps validity and value |
| DigitAdders.AddDigitCorrect | simulacion.cpp:161-201 | for two digits and a carry of 0 or 1 the BCD step and the Excess-3 step write digit (a+b+c) mod 10 in their code and carry exactly when a+b+c ≥ 10 |
| DigitAdders.BcdDigit | simulacion.cpp:161-201 | the BCD step carries exactly when x + y + c ≥ 10; below 26 its value is in 0 .. 15 and value + 10 · carry = x + y + c |
| DigitAdders.Excess3Digit | simulacion.cpp:397-416 | the Excess-3 step carries exactly when x + y + c > 15; for sums 3 .. 28 its value is in 0 .. 15 and value + 10 · carry = x + y + c − 3 |
| DigitAdders.AddDigit | simulacion.cpp:161-201 | whatever the groups, every digit step carries 0 or 1 and writes a value that fits a group |
| DigitAdders.GroupSum | simulacion.cpp:146-204 | the sum has as many characters as the operands |
| DigitAdders.GroupSumStep | simulacion.cpp:146-204 | writing the last group's digit in front of the groups written so far leaves the sum of the groups before it still to come |
| DigitAdders.GroupSumLoopStep | simulacion.cpp:146-148 | the same step for group i of the right-to-left loop |
| DigitAdders.PrefixSlices | simulacion.cpp:147-148 | proof helper: the first i + 1 groups are the first i groups and group i |
| DigitAdders.SumLast | simulacion.cpp:195 | the last group of the sum is the step on the operands' last groups, behind the sum of the groups in front |
| DigitAdders.SumArithmetic | simulacion.cpp:146-204 | proof helper: the carry arithmetic of one more digit position |
| DigitAdders.GroupSumCorrect | simulacion.cpp:141-207 | on valid codes of k groups and a carry of 0 or 1 the digit-serial sum is a valid code with a carry of 0 or 1 and value(sum) + carry · 10^k = value(a) + value(b) + carry-in |
| BcdArithmetic.BcdDigitStep | simulacion.cpp:161-201 | one digit position of realizar_suma_bcd, with the forced carry of line 190, writes the BCD digit step's group and carry |
| BcdArithmetic.AddBcd | simulacion.cpp:141-207 | realizar_suma_bcd computes GroupSum; on valid BCD inputs value(sum) + carry · 10^k = value(a) + value(b) + carry-in |
| BcdArithmetic.NinesBcd | simulacion.cpp:212-222 | the nines' complement keeps the length |
| BcdArithmetic.NinesBcdAppend | simulacion.cpp:214-220 | the complement works group by group |
| BcdArithmetic.NinesComplementBcd | simulacion.cpp:212-222 | complemento_a9_bcd writes NinesBcd(s); on a valid code of k groups that is a valid code worth 10^k − 1 − value |
| BcdArithmetic.NinesBcdValue | simulacion.cpp:212-222 | the nines' complement of a valid code of k groups is valid and stands for 10^k − 1 − value |
| BcdArithmetic.NinesTwice | simulacion.cpp:218-219 | proof helper: 9 − (9 − d), masked to four bits, is d again |
| BcdArithmetic.NinesGroupTwice | simulacion.cpp:218-219 | complementing one group twice gives the group back |
| BcdArithmetic.NinesBcdInvolution | simulacion.cpp:212-222 | complemento_a9_bcd is an involution on every string of whole groups |
| Excess3Arithmetic.Excess3DigitStep | simulacion.cpp:397-418 | one digit position of the Excess-3 loops writes the Excess-3 digit step's group and carry |
| Excess3Arithmetic.AddExcess3 | simulacion.cpp:383-421 | the Excess-3 loop, with its carry-in as a parameter, computes GroupSum; on valid inputs value(sum) + carry · 10^k = value(a) + value(b) + carry-in |
| Excess3Arithmetic.InvertedConcat | simulacion.cpp:41-47 | inversion distributes over concatenation |
| Excess3Arithmetic.InvertedExcess3 | simulacion.cpp:465 | inverting a valid Excess-3 code of k groups gives a valid code worth 10^k − 1 − value, group d + 3 becoming (9 − d) + 3 |
| Simulations.FitsInPadded | simulacion.cpp:241-244 | a number still fits below 10^(groups − 1) after the extra leading group and the padding |
| Simulations.Operand | simulacion.cpp:236-244 | an operand is at least one group long |
| Simulations.PaddedGroups | simulacion.cpp:122-131 | padding one string of whole groups to another gives the longer length |
| Simulations.OperandLength | simulacion.cpp:236-244 | an operand is whole groups, one group longer than the longer encoding |
| Simulations.OperandCode | simulacion.cpp:236-244 | an operand is a valid code for its number, as long as the other operand, and the number is below 10^(groups − 1) |
| Simulations.EncodeNumber | simulacion.cpp:236-237 | the codec of the chosen code writes Encode(e, n) |
| Simulations.PrepareOperands | simulacion.cpp:236-244 | the shared opening (encode, zero group in front, pad_numeros with the zero group) writes both operands |
| Simulations.OperandPair | simulacion.cpp:236-244 | both operands are valid codes of the same k groups for the two numbers, both below 10^(k − 1) |
| Simulations.NoCarry | simulacion.cpp:254 | a sum whose true total is below 10^k leaves no carry |
| Simulations.SumFits | simulacion.cpp:240-241 | two numbers below 10^(k − 1) add up to less than 10^k |
| Simulations.BorrowCases | simulacion.cpp:303-311 | for A + C9(B) + 1 on k digits the carry is 1 exactly when A ≥ B; the digits hold A − B, or 10^k + A − B without a carry |
| Simulations.SimulateBcdAddition | simulacion.cpp:227-267 | the BCD sum is a valid code for num1 + num2, the final carry is 0 and the result is num1 + num2 |
| Simulations.BcdOne | simulacion.cpp:330-331 | uno_bcd is the valid BCD code for 1, as long as the recomplemented sum |
| Simulations.IncrementBcd | simulacion.cpp:330-334 | adding uno_bcd with no carry-in adds one, with the carry out worth 10^k |
| Simulations.TensComplementBcd | simulacion.cpp:326-334 | the recomplement gives 10^k − value, with the carry out worth 10^k |
| Simulations.AddComplementBcd | simulacion.cpp:298-304 | A + C9(B) + 1 on k groups: value + carry · 10^k = A + (10^k − 1 − B) + 1 |
| Simulations.SimulateBcdSubtraction | simulacion.cpp:272-348 | the final carry is 1 exactly when num1 ≥ num2; the magnitude is a valid code for \|num1 − num2\| and the result is num1 − num2 on both paths |
| Simulations.SimulateExcess3Addition | simulacion.cpp:353-434 | the Excess-3 sum is a valid code for num1 + num2, the final carry is 0 and the result is num1 + num2 |
| Simulations.AddComplementExcess3 | simulacion.cpp:462-512 | A + C9(B) + 1 with C9 by bit inversion: value + carry · 10^k = A + (10^k − 1 − B) + 1 |
| Simulations.SimulateExcess3Subtraction | simulacion.cpp:439-548 | as written: the carry is 1 exactly when num1 ≥ num2, and then the result is num1 − num2; for num1 < num2 the magnitude is num2 − num1 − 1 and the result num1 − num2 + 1 |
| Simulations.Excess3SubtractionCounterexample | simulacion.cpp:534-543 | as written, 5 − 7 gives −1, which is not 5 − 7 |
| Simulations.TensComplementExcess3 | simulacion.cpp:534 | inversion followed by the Excess-3 code for 1 gives 10^k − value |
| Simulations.SimulateExcess3SubtractionCorrected | simulacion.cpp:439-548 | with one added after the inversion: the carry is 1 exactly when num1 ≥ num2, the magnitude is a valid code for \|num1 − num2\| and the result is num1 − num2 |

## Left out

- Console I/O: the prompts, `cin` and all narration (every `log_pasos` branch, `setw`/`setfill`) produce no numbers. The two numbers a simulation reads become its parameters.
- The "CORRECTO/INCORRECTO" comparison message. Each simulation returns its result instead, and its postcondition states the comparison's outcome.
- `main` (simulacion.cpp:553-571): it only runs the four phases one after another.
- The `stoi` exception path of `bin_a_int` (simulacion.cpp:32-35). Bit strings are sequences of the subset type `Bit` ('0' or '1'), so a malformed binary literal cannot arise.
- C++ `int` width: integers are unbounded. Overflow of `int` and `out_of_range` from `stoi` on long inputs are not modelled.
- Negative inputs: the simulations take `nat`. For a negative number `to_string` would write '-', which the codecs turn into a meaningless group.
- DecimalCodes.BcdToDecimal: requires a valid BCD code. The source streams a group worth 10 .. 15 as two characters of text; the model does not follow that.
- DecimalCodes.Excess3ToDecimal: requires a valid Excess-3 code. The source streams a group below 3 as negative text; the model does not follow that.
- BcdArithmetic.AddBcd: requires whole groups of equal length, which are what its callers pass. The source would read past a shorter second operand.
- Excess3Arithmetic.AddExcess3: requires whole groups of equal length, like AddBcd.
- BcdArithmetic.NinesComplementBcd: requires whole groups. The source would complement a short trailing piece with `substr`.
- Aligner.PadNumbers: the equal-length property is proved only for a four-character pad, the only pad the program passes.
- Aligner.PadNumbers: the default argument `pad_digit = "0000"` (simulacion.cpp:106) is not modelled; every call passes the pad explicitly (simulacion.cpp:244, 287, 369, 454).
- BitStrings.BinToInt and DecimalCodes.CodeValue: no ensures of their own. Their bounds are stated as the lemmas BinToIntBound and CodeValueBound, which callers invoke where needed.
- The helper methods EncodeNumber, PrepareOperands, IncrementBcd, TensComplementBcd, AddComplementBcd, AddComplementExcess3 and TensComplementExcess3 factor code that the source writes inline in the `simular_*` functions.
- The Excess-3 adder appears once, as `AddExcess3` with a carry-in. It replaces the two identical inline loops (simulacion.cpp:383-421 with carry-in 0, simulacion.cpp:474-512 with carry-in 1).

## Findings

| source | as written | input that shows it | evidently intended | confidence | as-written member | corrected member |
|---|---|---|---|---|---|---|
| simulacion.cpp:534-536 | with no final carry, the magnitude is only the bit inversion of the sum: 10^k − 1 − (10^k − (B − A)) = B − A − 1 | 5 and 7, in two groups: 05 + 92 + 1 gives the code for 98 with carry 0; its inversion stands for 01, so the result is −1 instead of −2 | add the Excess-3 code for 1 after the inversion, as the BCD subtraction does at lines 330-334, giving the magnitude B − A | not executed | Simulations.Excess3SubtractionCounterexample | Simulations.SimulateExcess3SubtractionCorrected |
