# Verification of the C99 compiler and its runtime

This project models the parts of the compiler and of its C runtime where a mistake is easiest to make and
hardest to see, and proves that they compute what they are for. Each part is proved against a meaning that is
stated independently of its code: exact rationals and reals for floating-point conversion and `sqrt`, a small
abstract machine for C control flow, an unbuffered file for streams, unbounded integers for 128-bit words, the
grammars of numerals, expressions and declarators, the least addresses a struct can have, the shortest edit script, the
nested groups of `#if`.

Code that works by changing things step by step is a class or a method over arrays, proved against functions;
code made of recursion is functions and lemmas.

| part | files | main results |
|---|---|---|
| Printing floating point (`rt/rt_format.c`) | `Powers` `Rounding` `Decimal` `Bignum` `FloatFormat` `FloatRound` `FloatEmit` `FloatPrint` | `FloatPrint.EmitFloat` |
| Reading floating point (`rt/rt_scan.c`) | `Binary64` `Bounds` `DecimalToBinary` `StickyDigits` `Strtod` `StrtodBounds` `StrtodCorrect` `NumeralText` `RoundTrip` | `StrtodIsRounded`, `LongestIsRead`, `AnswersIff`, `PrintReadIsIdentity` |
| Lowering of control flow (`src/C99/Lower.hs`) | `CLang` `IR` `Lowering` `LowerLabels` `LowerExpr` `LowerStmt` `LowerRun` `LowerSteps` `LowerCorrect` `LoweringState` | `LoweringPreservesMeaning`, `FunctionLabels` |
| Buffered streams (`rt/rt_stdio.c`) | `FileView` `Stdio` `StreamRun` | `RunAll`, `SameAnswers` |
| Square root (`rt/rt_math.c`) | `Words` `Sqrt` | `Sqrt.Sqrt` |
| 128-bit integers (`src/C99/Runtime.hs`) | `U128` | `DivMod`, `Mul` |
| Struct layout and bit-fields (`src/C99/CType.hs`, `src/C99/Lower.hs`) | `Bits` `BitField` `Layout` `Compact` | `StructIsWellLaidOut`, `StructIsCompact`, `BfStore` |
| Sorting and searching (`rt/rt_stdlib.c`) | `Ordering` `Qsort` | `Qsort.Qsort`, `Bsearch` |
| Spelling suggestions (`src/C99/Diag.hs`) | `EditDistance` | `DistanceIsShortest`, `Triangle` |
| Declarators and operators (`src/C99/Parser.hs`) | `Declarator` `DeclaratorProof` `DeclaratorReader` `Grammar` `Precedence` | `SpellingReadsBack`, `ParseBinary`, `GrammarIsProper` |
| Preprocessor (`src/C99/Preprocess.hs`) | `MacroText` `Macros` `ExpandProof` `Painting` `Arguments` `ArgumentCases` `Junctions` `Numbers` `Substitution` `Calls` `IfStack` `Lines` `PreprocessorState` `SkippedLines` `DirectiveLines` `Merging` | `ProcessLines`, `GroupRuns`, `SubstitutedIs`, `CallBecomes`, `ArgumentsFirst`, `RescannedWithRest`, `ReplacementJoins` |

`dafny verify dfyconfig.toml` checks everything.

## What the proofs found

The model follows the code. These are the places found where the code does not do what its comments or the C standard
say. "Exactly" and "if and only if" are proved both ways; where "whenever" is written, the condition is one under which
the code is right, and inputs on which it is not are given beside it.

- The decimal bignums of `rt_scan.c` do not saturate, as their comment says, but cut off: scaling gives the value
  modulo 10^900, exact if and only if it is below (`ScaleTen`). The loop of `strtod` that doubles the bounds stops
  with nothing cut off if and only if some bound above the number fits the buffer (`StopsIntactIff`,
  `FitsBelowLargestPower`). Otherwise it stops if and only if what the buffer holds of the number is not within 2^900
  of 10^900 (`FullStopsIff`). So `strtod` answers a text exactly when that holds or its scale is not from 1 to 350
  (`AnswersIff`), and never answers 780 nines followed by `e120` (`NinesRunOn`). Where it answers although the bounds are
  cut off, number and answer are both beyond the largest double (`Convert`), so that infinity is right.
- `strtod` takes a decimal exponent below -400 for zero, although leading digits can make up for it: `1.` with
  more than 400 zeros reads as 0 (`ManyZerosReadAsZero`). It collects 780 digits, leading zeros among them: `1.9` behind
  779 zeros reads as 1 (`LeadingZerosLose`). The zero it answers for such an exponent, or when all it collects are zeros,
  is right exactly for numbers up to half the smallest double (`TinyIsZero`). The flag it keeps for the digits it drops is enough exactly when no middle between two
  neighbouring 53-bit numbers lies between the digits kept and the whole (`FlagRounds`); with no zero in front, more
  than 780 digits are always infinity or that zero (`LongIsInfinite`).
- Subnormal results of `strtod` are rounded twice. With no such middle passed they are right except exactly at a
  midpoint hazard (`StrtodIsRounded`), and a text that meets the hazard is read wrongly (`HazardIsRead`).
- A failing `fseek` moves the position past whatever had been read ahead (`Fseek`, `SeekBeforeStart`); `ftell` tells
  the position exactly below 2^31 (`TellExact`).
- The value of an assignment is the variable's storage, read late. The code means what C says in every run in which no
  operand has changed a variable before such a read (`LoweringPreservesMeaning`), so in every run C defines, one in
  which no operand that runs writes what another that runs reads or writes (`DefinedIsSafe`). In other runs the late read
  can show (`LateReadShows`).
- The declarator reader takes any run of suffixes. What comes out is a type C allows exactly when they are all
  brackets or one parameter list alone (`SuffixesAllowedIff`); `f(void)[3]` is read as an array of functions
  (`CallThenIndex`).
- Arguments of macros are spliced in unexpanded, where section 6.10.3.1 of ISO/IEC 9899:1999 expands them first. The
  result is the same whenever no call reaches over an edge between body and argument and no argument's own expansion
  comes to the macro being called (`ArgumentsFirst`; a condition on the texts alone for the latter is `Unreached`). With
  `f(x)` defined as `x`, `f(f(1))` comes out as `f(1)` (`NestedCallStays`). That an argument does not mention the macro
  is not enough: it can lead to it (`ArgumentLeadsBack`), or the body can call another macro over it
  (`ArgumentMeetsCallee`).
- `#` before `__VA_ARGS__` is dropped together with it (`VariadicNotQuoted`), where section 6.10.3.2 of ISO/IEC 9899:1999
  makes a literal of the arguments.
- A replacement is rescanned alone, where section 6.10.3.4p1 rescans it with the text that follows. The result is the same
  whenever no call reaches from the replacement into that text (`RescannedWithRest`, `CallRescannedWithRest`; the text
  must not come to the macro itself, which is retired throughout there). A function-like name that ends a replacement is
  not called with the parenthesis that follows (`TrailingNameStays`, `TrailingNameInCall`): with `k` defined as `f` and `j` as `(f`, `k(1)`
  comes out as `f(1)` and `j(1)` as `(f(1)` (`AliasNotCalled`, `TrailingNotCalled`). The one exception is a call whose
  whole replacement is such a name (`FedBackIff`).
- There a retired name can come back, even that of the call itself (`RevivedIff`), so that `f(1)(2)` with `f(x)` defined
  as `f` comes out as `f` (`TwiceCalled`). Whenever no retired name is fed back so, it makes no difference that the
  program keeps no paint on names (`PaintAgrees`).
- A name is looked for inside a number: `10L` with `L` defined as `5` comes out as `105` (`TenL`). A number of digits and
  points with letters behind stays as it is, when the letters name an object-like macro that can be replaced, exactly if
  that expands to the letters themselves (`NumberStaysIff`).
- Around a replacement no boundary is kept. The token before it, and its own last one, draw in what follows exactly
  under a condition on that token and the next characters (`TokenJoinsIff`, `ReplacementJoins`): `-N` with `N`
  defined as `-1` becomes a decrement (`MinusMinus`). The test that keeps splices into a body apart is on the safe
  side of that condition for punctuators (`JoinsFuses`) but is not the condition (`FusesIsNotExact`).
- The scan that lets a line without macros through leaves alone what the walk would change in one case: the last
  character of a line that leaves a comment open, when that is a live object-like macro which does not expand to
  itself (`ScanIsExact`, `StrayIsExpanded`).
- Lines of a group that is not taken are passed over without a look at their comments. For one such line that is right
  exactly when it leaves the comment state as it was (`PassedOverIff`), and for a file whenever all of them do
  (`SkippedAgree`): below `#if 0` and `/*` the program takes an `#endif` for the end of the group (`HiddenEndif`).

## Model

| member | source | states |
|---|---|---|
| Rounding.RneNearest | rt/rt_format.c:258-291 | Half-even rounding (the rule rt_round_digits and strtod share): no multiple of the unit is closer, and in a tie the even one is taken |
| Rounding.RneUnique | rt/rt_format.c:258-291 | Nearest with ties to even determines the result: anything that satisfies it is what the code computes |
| Rounding.DoubleRounding | rt/rt_scan.c:121-134 | Rounding twice (53 bits, then a coarser subnormal unit) equals rounding once exactly when the first result does not land, inexactly and on the wrong side, on a midpoint |
| Decimal.DecDenotes | rt/rt_format.c:63-77 | The numeral of a number denotes it and has no superfluous leading zero |
| Decimal.DecUnique | rt/rt_format.c:63-77 | A digit string without a leading zero is the numeral of what it denotes |
| Decimal.PadUnique | rt/rt_format.c:172-180 | A digit string of given length is determined by what it denotes, so zero-padding a limb is the only way to print it |
| Bignum.Big.FromU64 | rt/rt_format.c:90-96 | The limbs hold v, canonical (no leading zero limb) |
| Bignum.Big.Shl | rt/rt_format.c:99-116 | The value times 2^k, for every k, by passes of at most 29 bits |
| Bignum.Big.Shr | rt/rt_format.c:119-137 | The value divided by 2^k, and the flag tells exactly whether a remainder was lost over all passes together |
| Bignum.Big.ShrStep | rt/rt_format.c:123-133 | One pass, most significant limb first: quotient in place, remainder out |
| Bignum.Big.MulPow10 | rt/rt_format.c:140-159 | The value times 10^k, nine digits a pass |
| Bignum.Big.MulAdd | rt/rt_scan.c:31-57 | The shared limb loop, on any buffer, one that has overflowed before included: value * m + a modulo 10^900; all limbs are in use once something has been cut off |
| Bignum.Big.PushCarry | rt/rt_scan.c:39-42 | The carry loop writes exactly the part of the carry that has room, and fills the buffer when there is none |
| Bignum.Big.PushDigit | rt/rt_scan.c:31-43 | value * 10 + d modulo 10^900, exact and without leading zero limbs while it fits |
| Bignum.Big.MulSmall | rt/rt_scan.c:45-57 | value * m modulo 10^900, exact and without leading zero limbs while it fits |
| Bignum.Big.Cmp | rt/rt_scan.c:75-83 | The limb counts decide first and then the values; without leading zero limbs that is the order of the values |
| Bignum.Big.Sub | rt/rt_scan.c:86-102 | The difference, exact when the minuend is not smaller and otherwise modulo 10^(9n) for its n limbs, canonical again on any buffers the comparison lets through |
| Bignum.ShrCompose | rt/rt_format.c:119-137 | Dividing in two passes is dividing once, and something is lost exactly when either pass loses something |
| Bignum.MulWord | rt/rt_format.c:104-109 | The word of a multiplication pass fits 64 bits and leaves a carry below the multiplier |
| FloatFormat.Utoa | rt/rt_format.c:63-77 | Digits produced backwards and turned around are the numeral of v |
| FloatFormat.BigDigits | rt/rt_format.c:164-184 | Top limb, then every other limb padded to nine digits: the numeral of the bignum |
| FloatFormat.FitsFrom884 | rt/rt_format.c:82-83 | Every double with e2 >= -884 fits the hundred limbs of the conversion buffer |
| FloatFormat.ExactDigits | rt/rt_format.c:235-256 | For every finite m * 2^e2 that fits the buffer the digits are exact: 0.D1..Dn * 10^decpt is the number itself, the last digit not a superfluous zero |
| FloatFormat.DigitCount | rt/rt_format.c:365-367 | At most 646 digits, so the digit buffer never overflows |
| FloatRound.RoundUp | rt/rt_format.c:189-207 | One more in the last place; all nines become 1 and zeros, one digit longer |
| FloatRound.RoundDigits | rt/rt_format.c:261-309 | For every keep, negative included, the digits kept denote the half-even rounding of the digits given, with the point moved on a rollover |
| FloatEmit.SignificantDigits | rt/rt_format.c:261-309 | After rounding to keep >= 1 digits the buffer holds the exact number rounded half to even at that significant digit, and the exponent after rounding |
| FloatEmit.CoarserRollover | rt/rt_format.c:292-303 | 9..9 rolling over gives the same number as rounding one digit earlier |
| FloatEmit.FixedDigits | rt/rt_format.c:444-448 | Rounding to decpt + prec digits, however negative, prints the number rounded half to even at prec decimals |
| FloatEmit.LayoutIsFixed | rt/rt_format.c:450-464 | Whole part, point and fraction copied out of the buffer, with zeros outside it, spell the rounded number |
| FloatEmit.PutNumber | rt/rt_format.c:450-474 | What %f and %e write before an exponent: the digits with the point after decpt of them |
| FloatEmit.PutSuffix | rt/rt_format.c:475-482 | e, the sign and at least two digits of the exponent |
| FloatEmit.TrimFraction | rt/rt_format.c:431-440 | The loop of %g drops exactly the trailing zeros of the fraction |
| FloatPrint.EmitE | rt/rt_format.c:441-443 | %e prints the exact value rounded half to even to prec + 1 significant digits, in the normalized form with the exponent that rounding leaves |
| FloatPrint.EmitF | rt/rt_format.c:444-448 | %f prints the exact value rounded half to even at prec decimals |
| FloatPrint.EmitG | rt/rt_format.c:413-440 | %g chooses its style from the exponent after rounding, and without # drops trailing zeros |
| FloatPrint.EmitZero | rt/rt_format.c:405-408 | Zero in the three styles |
| FloatPrint.EmitFloat | rt/rt_format.c:365-482 | For every finite double that fits the buffers the body text is what section 7.19.6.1 of ISO/IEC 9899:1999 asks of %e, %f or %g |
| Binary64.MakeDoubleDenotes | rt/rt_scan.c:112-143 | What the assembled bits read back as: the number in the normal range, infinity above it, and below it the significand rounded once more to a multiple of 2^-1074 |
| Binary64.RangeErrorIff | rt/rt_scan.c:112-126 | errno becomes ERANGE exactly for an infinity and for numbers below 2^-1076, which are made zero |
| Binary64.Separation | rt/rt_scan.c:112-143 | Distinct doubles differ by a unit of the upper one, by half a unit at a power of two |
| Binary64.RoundAtNearest | rt/rt_scan.c:316-324 | The rounded significand, renormalized, is the double nearest to the quotient |
| Binary64.RoundedIsNearest | rt/rt_scan.c:316-324 | A correctly rounded finite result has no closer double |
| Binary64.SubnormalIsNearest | rt/rt_scan.c:121-134 | Below the normal range the candidates are the multiples of 2^-1074, and the correctly rounded one is nearest |
| Binary64.AssembledIsRounded | rt/rt_scan.c:112-134 | What is assembled is the correctly rounded double if and only if no midpoint hazard of the second rounding occurs |
| Strtod.CollectDigits | rt/rt_scan.c:190-217 | One pass over digits and at most one point collects the first 780 digits, their scale, and whether a dropped one was not zero |
| Strtod.ReadExponent | rt/rt_scan.c:224-245 | The exponent is committed to only when it has a digit, and is cut off once it passes 100000 |
| DecimalToBinary.RaiseNumerator | rt/rt_scan.c:288-291 | Below 2^52 the numerator is doubled until lo <= big < hi; a number with all its limbs, cut off or not, is left alone |
| DecimalToBinary.RaiseBounds | rt/rt_scan.c:292-297 | The bounds are doubled, cut off or not, until the first that compares above the number; lo then stands at the one before it and compares no larger |
| DecimalToBinary.LongDivide | rt/rt_scan.c:303-315 | On any buffers of which the first comparison holds the quotient has 54 bits, the first of them 1; with nothing cut off they are floor(big * 2^53 / lo), with a remainder exactly when more bits follow |
| DecimalToBinary.RoundBits | rt/rt_scan.c:316-323 | Round bit and sticky bit decide half to even, with the step to the next binade |
| DecimalToBinary.Convert | rt/rt_scan.c:262-324 | Whenever the loop stops: with nothing cut off the significand and exponent are N * 10^k cut to 54 bits and rounded half to even, a dropped digit counting as more; otherwise number and result are both beyond the largest double |
| Strtod.Strtod | rt/rt_scan.c:145-326 | The whole function on any text it answers: white space, sign, inf and nan, digits, exponent, what is then converted, and where reading stops; required is only, for positive exponents, that what the buffer holds of the number is not within 2^900 of 10^900 |
| StrtodCorrect.ConvertedIsRounded | rt/rt_scan.c:262-324 | For -400 <= dec_exp <= 350 the result is the double the exact decimal rounds to if and only if there is no midpoint hazard among the subnormals |
| StrtodCorrect.HugeIsInfinite | rt/rt_scan.c:253-256 | A decimal exponent above 350 gives infinity, which is right for the kept digits and for every larger number |
| StrtodCorrect.TinyIsZero | rt/rt_scan.c:249-260 | Below a decimal exponent of -400, and for kept digits that are all zeros, the answer is zero, right for a number if and only if that is at most half the smallest double |
| StrtodCorrect.StrtodIsRounded | rt/rt_scan.c:145-326 | For every numeral, with any number of digits and at every scale: where zero is answered for kept zeros or an exponent below -400 it is right if and only if the number is at most half the smallest double; beyond the largest double infinity is answered and right; in between, whenever no middle between neighbours was passed by dropped digits, the result is the correctly rounded double of the text if and only if no hazard occurs, and in the normal range it is wrong when one was passed |
| NumeralText.Reading | rt/rt_scan.c:159-246 | Every numeral of the grammar of section 7.20.1.3 of ISO/IEC 9899:1999, white space of all six kinds, sign, digits with a point before, among or behind them or none, exponent with e or E and a sign or none, followed by what cannot continue it, an e without digits included: strtod finds exactly these parts and that end |
| NumeralText.LongestIsRead | rt/rt_scan.c:187-246 | On any text: digits are found if and only if a numeral begins it, and what is taken is a numeral, the longest that does |
| NumeralText.NumeralAnswer | rt/rt_scan.c:145-326 | So the answer for a numeral spelled out stands to the number of its own digits and exponent as StrtodIsRounded says, and reading stops behind it |
| NumeralText.WordIff | rt/rt_scan.c:164-185 | The words inf and nan are taken in every mixture of cases, and nothing else is |
| NumeralText.WordAnswer | rt/rt_scan.c:159-185 | White space, a sign and one of them: infinity of that sign or a NaN, read to the end of the word |
| NumeralText.CapitalE | rt/rt_scan.c:224-245 | 1E5, as %E prints it, is read whole with exponent 5 |
| StrtodCorrect.FlaggedIsRounded | rt/rt_scan.c:206-208 | With a nonzero digit dropped the result is right under the same hazard condition whenever no middle between neighbours was passed, wrong in the normal range when one was, and infinity beyond the largest double |
| StickyDigits.FlagRounds | rt/rt_scan.c:206-208 | Rounding the kept digits with the flag up gives the 53-bit rounding of the whole number if and only if no middle between two neighbouring 53-bit numbers lies between the two, or on the whole where it rounds up |
| StrtodCorrect.LongIsInfinite | rt/rt_scan.c:190-217 | With more than 780 digits, no zero in front and a scale from -400 on the answer is infinity, and right |
| StrtodCorrect.LeadingZerosLose | rt/rt_scan.c:190-217 | 1.9 behind 779 zeros reads as 1 |
| StrtodCorrect.ManyZerosReadAsZero | rt/rt_scan.c:257-260 | 1.000..0 with more than 400 zeros reads as 0: collected zeros count in the exponent |
| StrtodCorrect.HazardIsRead | rt/rt_scan.c:121-134 | The text of a 78-digit number just above 2.5 * 2^-1074, with e-400, reads one subnormal too small |
| DecimalToBinary.ScaleTen | rt/rt_scan.c:273-276 | The scaling loop on any buffer: value * 10^k modulo 10^900, and exact if and only if that is below 10^900; the comment that says the buffer saturates is wrong |
| Bounds.FitsBelowLargestPower | rt/rt_scan.c:292-297 | With a positive exponent some bound above the number fits exactly when the scaled number is below the largest power of two under 10^900 |
| StrtodBounds.RaiseBoundsAtMost | rt/rt_scan.c:292-297 | The loop that doubles the bounds, on any buffers and for any number of rounds: it has stopped exactly when a bound came, cut off or not, that compares above the number |
| Bounds.StopsIntactIff | rt/rt_scan.c:292-297 | It stops with nothing cut off if and only if some bound above the number fits the buffer |
| Bounds.NotFullStops | rt/rt_scan.c:292-297 | A number that does not use all the limbs always stops the loop |
| Bounds.FullStopsIff | rt/rt_scan.c:292-297 | With a positive exponent a number that uses them all stops it if and only if what the buffer holds is below 10^900 - 2^900, although the bounds are cut off |
| Bounds.StopsIff | rt/rt_scan.c:292-297 | The same in terms of the scaled number, whatever its size |
| StrtodBounds.StrtodWithin | rt/rt_scan.c:145-297 | strtod on any text, given up after any number of rounds of that loop: it has an answer exactly when a bound that compares above the number came within them |
| StrtodBounds.AnswersIff | rt/rt_scan.c:145-297 | strtod answers a text in some number of rounds if and only if its scale is not from 1 to 350 or what the buffer holds of the number is below 10^900 - 2^900 |
| StrtodBounds.NinesRunOn | rt/rt_scan.c:145-297 | 780 nines followed by e120 are not answered in any number of rounds, where infinity is right |
| RoundTrip.LexText | rt/rt_scan.c:159-246 | Reading what was printed finds exactly the sign, digits and exponent that were printed |
| RoundTrip.SeventeenDigits | rt/rt_format.c:441-443 | A decimal of 17 digits is within half of 10^-16, relatively, of the number it was rounded from |
| RoundTrip.OnlyNeighbour | rt/rt_scan.c:316-324 | A double so close to a value is the only one as close, also just above a power of two where the gap below is half as wide: 10^16 > 2^53 |
| RoundTrip.SeventeenDigitsReturn | rt/rt_scan.c:262-324 | The correct rounding of a 17-digit rounding of a double is that double, and no hazard is near |
| RoundTrip.PrintReadIsIdentity | rt/rt_scan.c:145-326 | strtod of the %.16e text of a normal double gives back its sign, significand and exponent, and reads the whole text |
| RoundTrip.PrintThenRead | rt/rt_format.c:365-482 | The two runtime functions composed are the identity on every normal double that fits the printing buffer |
| CLang.OperatorsCompute | src/C99/Lower.hs:1327-1460 | The operators both sides compute with are those of section 6.5 of ISO/IEC 9899:1999 on 32-bit int: the exact result when it is in range and otherwise off by a multiple of 2^32, and 1 or 0 for a comparison |
| CLang.OrderIrrelevant | src/C99/Lower.hs:1327-1460 | In an evaluation that meets no unsequenced conflict (section 6.5p2 of ISO/IEC 9899:1999) taking right operands first gives the same value and store, so the left-to-right meaning is the meaning |
| CLang.EvalFrame | src/C99/Lower.hs:1031-1125 | An evaluation depends only on the variables it reads and changes only those it writes: from stores that agree on the former it takes the same course |
| CLang.StaticCovers | src/C99/Lower.hs:1031-1125 | What an evaluation reads and writes is among what the expression mentions, so one without conflicts whichever operands run meets none |
| CLang.NoConflictInIff | src/C99/Lower.hs:1327-1460 | An evaluation meets no unsequenced conflict exactly when nothing that is evaluated in it has one operand write what the other reads or writes, or assigns a variable that is also written in the value assigned |
| CLang.NoConflictIff | src/C99/Lower.hs:1327-1460 | The condition on the text alone holds exactly when no expression in it may do so |
| CLang.Commute | src/C99/Lower.hs:1327-1460 | Operands that do not interfere commute |
| LowerExpr.NoConflictIsSafe | src/C99/Lower.hs:445-506 | In an evaluation that meets no unsequenced conflict no storage handle is changed between its evaluation and its use |
| LowerExpr.UnreachedConflict | src/C99/Lower.hs:1327-1347 | x + (c && (x = 1)) meets none where c is zero, although its operands conflict |
| LowerExpr.LateReadShows | src/C99/Lower.hs:1520-1535 | (x = 1) + (x = 2) comes out as 4: the value of an assignment is the storage, read late |
| LowerExpr.ExprRuns | src/C99/Lower.hs:1031-1125 | From a store from which the evaluation is safe the code of an expression runs to its end with the store C gives, and its operand, read there, is the value C gives |
| LowerExpr.BoolRuns | src/C99/Lower.hs:894-913 | The code of a test jumps to the true label exactly when the C value is nonzero and to the false one otherwise; the logical operators short-circuit |
| LowerExpr.PostRuns | src/C99/Lower.hs:1055-1061 | x++ and x-- give the value from before the write |
| LowerExpr.PreRuns | src/C99/Lower.hs:1321-1326 | ++x and --x give the value written |
| LowerExpr.AssignRuns | src/C99/Lower.hs:1493-1535 | Assignment and compound assignment store and give the value assigned |
| LowerExpr.CondRuns | src/C99/Lower.hs:1103-1123 | Exactly one arm of ?: runs, and its value is the result |
| LowerExpr.TruthRuns | src/C99/Lower.hs:1328-1347 | The logical operators as a value give 0 or 1 |
| LowerLabels.ExprLabels | src/C99/Lower.hs:133-137 | The labels an expression emits are its own fresh ones, each once, and it branches to no others |
| LowerLabels.StmtLabels | src/C99/Lower.hs:1749-1877 | Every fresh number labels one place of the code, every case label of the statement stands once wherever it is nested, and every branch goes to those labels or leaves by break and continue |
| LowerLabels.SwitchTags | src/C99/Lower.hs:1889-1918 | The labels a switch makes are exactly the ones the case and default labels in its body take |
| LowerLabels.DispatchLabels | src/C99/Lower.hs:1901-1908 | The comparison chain has its own labels and jumps to the case labels |
| LowerLabels.FunctionLabels | src/C99/Lower.hs:2068-2160 | In a function's code every label stands once and every branch names a label of that function |
| LowerRun.FindAt | src/C99/Lower.hs:1927-1941 | A case label stands right before the code of the statement it leads to, however deeply nested in loops and blocks, and what is left to do after that statement follows its code |
| LowerRun.FindCases | src/C99/Lower.hs:1946-1964 | The search for a case in a body finds exactly the labels the switch collects |
| LowerRun.BreakGoes | src/C99/Lower.hs:1828-1833 | The break target is the place from which the code does what C does after break |
| LowerRun.ContinueGoes | src/C99/Lower.hs:1834-1839 | The continue target is the place where the innermost loop goes round, also from inside a switch |
| LowerSteps.IfSteps | src/C99/Lower.hs:1778-1789 | The code of if takes the arm C takes, and both arms come out at the end label |
| LowerSteps.WhileSteps | src/C99/Lower.hs:1790-1800 | The code of while tests first and goes round as C does |
| LowerSteps.DoTestSteps | src/C99/Lower.hs:1801-1810 | The code of do tests after the body |
| LowerSteps.ForSteps | src/C99/Lower.hs:1811-1827 | The code of for runs its first clause and comes to its test |
| LowerSteps.ForTestSteps | src/C99/Lower.hs:1811-1827 | A missing condition counts as true, otherwise the test decides |
| LowerSteps.ForStepSteps | src/C99/Lower.hs:1824-1827 | After the body, or continue, the increment runs before the next test |
| LowerSteps.ReturnSteps | src/C99/Lower.hs:1840-1858 | return ends the run with the value C gives |
| LowerStmt.RunFine | src/C99/Lower.hs:1749-1877 | Over any number of steps of the C machine a well-formed configuration stays well-formed: never stuck |
| LowerStmt.RunClosed | src/C99/Lower.hs:1751-1772 | Where lsEmittedReturn says a statement cannot be left at its end, no run leaves it there |
| LowerCorrect.DispatchRuns | src/C99/Lower.hs:1901-1908 | The comparison chain jumps to the label of the case with the switch's value, or runs to its end |
| LowerCorrect.CaseSteps | src/C99/Lower.hs:1889-1941 | When the value is a case, control comes to its label wherever that stands in the body: Duff's device included |
| LowerCorrect.Simulate | src/C99/Lower.hs:1749-1941 | Every step of the C machine is matched by steps of the emitted code, from matching state to matching state |
| LowerCorrect.Forward | src/C99/Lower.hs:1749-1941 | A body that ends: its code halts with the same result and store |
| LowerCorrect.RunsOn | src/C99/Lower.hs:1749-1941 | A body that never ends: its code never halts |
| LowerCorrect.LoweringPreservesMeaning | src/C99/Lower.hs:1749-1964 | For every well-formed body, from every store whose run has no handle read after another operand changed the variable: the code halts with a result and a store if and only if the body ends with them by the rules of C; and in no number of steps does control run past the last instruction or jump to a label that is not there |
| LowerCorrect.EmittedMeansUnreachable | src/C99/Lower.hs:2150-2160 | When lsEmittedReturn is set at the end of a body, no run of the body comes to its end, so leaving out the closing return is right |
| LowerStmt.DefinedIsSafe | src/C99/Lower.hs:445-506 | A run that meets no unsequenced conflict, one C defines, meets the condition of the theorem |
| LowerStmt.UnconflictedIff | src/C99/Lower.hs:1749-1877 | A statement is without conflicts exactly when each of its expressions is |
| LowerCorrect.UnconflictedIsSafe | src/C99/Lower.hs:445-506 | A body without unsequenced conflicts, whichever operands run, meets it from every store |
| LoweringState.Lowerer.FreshLabel | src/C99/Lower.hs:133-137 | The next label number, and the counter moves on |
| LoweringState.Lowerer.Materialize | src/C99/Lower.hs:490-497 | A value, which may be storage, is copied into a fresh temporary |
| LoweringState.Lowerer.GenExpr | src/C99/Lower.hs:1031-1125 | The builder's code grows by exactly the specified code of the expression; the operand and the counters are the specified ones |
| LoweringState.Lowerer.GenBool | src/C99/Lower.hs:894-913 | The builder's code grows by exactly the specified code of the test |
| LoweringState.Lowerer.GenAssign | src/C99/Lower.hs:1520-1535 | The value of an assignment is the variable's storage itself |
| LoweringState.Lowerer.GenPostfix | src/C99/Lower.hs:1055-1061 | The old value is copied out before the write |
| LoweringState.Lowerer.GenCond | src/C99/Lower.hs:1103-1123 | Labels made in order, both arms copied into one temporary |
| LoweringState.Lowerer.GenStmt | src/C99/Lower.hs:1749-1877 | The code grows by exactly the specified code of the statement, the loop and switch stacks come back, and lsEmittedReturn is what the specification says |
| LoweringState.Lowerer.GenIf | src/C99/Lower.hs:1778-1789 | The code of if |
| LoweringState.Lowerer.GenWhile | src/C99/Lower.hs:1790-1800 | The code of while, the loop stack pushed and popped |
| LoweringState.Lowerer.GenDo | src/C99/Lower.hs:1801-1810 | The code of do |
| LoweringState.Lowerer.GenFor | src/C99/Lower.hs:1811-1827 | The code of for |
| LoweringState.Lowerer.GenSwitch | src/C99/Lower.hs:1889-1924 | Labels of the switch, comparison chain, then the body whose labels come from the table; both stacks come back |
| LoweringState.Lowerer.EmitCaseLabel | src/C99/Lower.hs:1927-1933 | The label of a case comes from the innermost open switch |
| LoweringState.Lowerer.GenFunction | src/C99/Lower.hs:2068-2160 | A new function's code is the specified code, with a closing return unless lsEmittedReturn is set, and it halts exactly as the body ends in every run whose handles are read in time |
| FileView.OverwriteTwice | rt/rt_stdio.c:108-120 | Writing in two pieces is writing at once |
| Stdio.Stream.RawWrite | rt/rt_stdio.c:108-120 | However short the device writes, all bytes arrive, in order, at the handle |
| Stdio.Stream.FlushWrite | rt/rt_stdio.c:122-132 | What is seen through the stream does not change, and nothing is pending afterwards |
| Stdio.Stream.DropRead | rt/rt_stdio.c:135-147 | Forgetting the read-ahead and taking the handle back over it leaves the file and the position seen |
| Stdio.Stream.PutBytes | rt/rt_stdio.c:149-199 | In every buffering mode the seen file is overwritten at the seen position by exactly these bytes; an unwritable stream only gets its error flag |
| Stdio.Stream.PutLines | rt/rt_stdio.c:160-182 | Line buffering: the same, and everything through the last newline has reached the file |
| Stdio.Stream.Fill | rt/rt_stdio.c:203-225 | After a refill either a byte of the file is waiting or the file has no more |
| Stdio.Stream.GetByte | rt/rt_stdio.c:227-242 | The byte of the file at the position, or end of file exactly when there is none |
| Stdio.Stream.Ungetc | rt/rt_stdio.c:495-501 | Pushing back the byte just read restores the view before the read |
| Stdio.Product | rt/rt_stdio.c:354 | The byte count of a call is size * count below 2^64, and short of it by a multiple of 2^64 otherwise |
| Stdio.Stream.Fread | rt/rt_stdio.c:352-412 | The bytes of the file from the position on, as many of size * count as there are, and the count of whole items among them; stated with the product written out below 2^64, and separately for what the product wraps to |
| Stdio.Stream.Fwrite | rt/rt_stdio.c:414-421 | All size * count bytes, at the position, and the item count; stated with the product written out below 2^64, and separately for what it wraps to |
| Stdio.Stream.Fputc | rt/rt_stdio.c:521-526 | One byte at the position |
| Stdio.Stream.Fflush | rt/rt_stdio.c:344-350 | Nothing seen changes, and every byte written has reached the file |
| Stdio.Stream.Ftell | rt/rt_stdio.c:444-458 | The position seen, as a 32-bit long, in either direction of the buffer |
| Stdio.TellExact | rt/rt_stdio.c:444-458 | ftell tells the position if and only if it is below 2^31 |
| Stdio.Stream.Fseek | rt/rt_stdio.c:423-442 | A seek that can be done goes there; one that cannot keeps the contents but moves the position past the read-ahead |
| Stdio.Stream.Rewind | rt/rt_stdio.c:460-464 | Position 0 and no error |
| StreamRun.Perform | rt/rt_stdio.c:108-526 | Any one call answers what an unbuffered file of contents and position answers, and leaves its view |
| StreamRun.RunAll | rt/rt_stdio.c:108-526 | Every answer of every run of reads, writes, seeks, tells and flushes is explained, step by step, by an unbuffered file |
| StreamRun.ItemReplies | rt/rt_stdio.c:352-421 | What the unbuffered file answers to fwrite and fread, with size * count written out: all the bytes of all the items are written, and as many items read as whole ones are left |
| StreamRun.SeekLaws | rt/rt_stdio.c:423-458 | After a seek from the start, or back from the end, the byte there is read and ftell gives its place; one byte back from where a byte was read it is read again |
| StreamRun.SeekRefusedIff | rt/rt_stdio.c:423-442 | A seek is refused exactly for an origin that is none of the three and for a target before the start |
| StreamRun.SameAnswers | rt/rt_stdio.c:108-526 | Runs that are explained from equal views by the same calls have the same answers and views as long as no seek fails |
| StreamRun.RunBoth | rt/rt_stdio.c:108-526 | Buffering cannot be observed: two streams over equal files, in whatever modes and however short their devices read and write, give the same answers as long as no seek fails |
| StreamRun.SeekBeforeStart | rt/rt_stdio.c:423-442 | A byte read and then a seek before the start: the seek fails, and the position has moved past all that was read ahead |
| Words.OrDisjoint | rt/rt_math.c:188-196 | Fields that do not overlap combine by addition |
| Sqrt.Sq128 | rt/rt_math.c:153-165 | For v < 2^54 the pair hi:lo is v^2 exactly, the carry of the low word included |
| Sqrt.FloorRoot | rt/rt_math.c:198-206 | The bit loop gives the root of the 106-bit target rounded down |
| Sqrt.NearestRoot | rt/rt_math.c:208-218 | The remainder test gives the root rounded to the nearest integer; there is no tie |
| Sqrt.RoundByRemainder | rt/rt_math.c:216-218 | From the root rounded down, adding one exactly when the remainder exceeds the root gives the root rounded to nearest |
| Sqrt.RootIsClosest | rt/rt_math.c:167-225 | The result is strictly closer to the real root than any other double |
| Sqrt.SqrtNormal | rt/rt_math.c:186-223 | The correctly rounded root of every positive normal double |
| Sqrt.RootScales | rt/rt_math.c:181-185 | Scaling the argument by 2^(2c) scales the root by 2^c |
| Sqrt.Sqrt | rt/rt_math.c:167-225 | For every double: zero, infinity and NaN pass, below zero is NaN, and every positive one, subnormals included, has the correctly rounded root |
| U128.Add | src/C99/Runtime.hs:19-22 | The sum modulo 2^128; the carry is seen in the wrapped low word |
| U128.Sub | src/C99/Runtime.hs:23-26 | The difference modulo 2^128 |
| U128.Neg | src/C99/Runtime.hs:27-29 | The negative modulo 2^128 |
| U128.Shl | src/C99/Runtime.hs:42-48 | The value times 2^(k mod 128), modulo 2^128, for every count |
| U128.Shr | src/C99/Runtime.hs:49-55 | The value divided by 2^(k mod 128) |
| U128.UMulHi64 | src/C99/Runtime.hs:56-66 | The high word of a 64 by 64 bit product; no carry is lost |
| U128.Mul | src/C99/Runtime.hs:67-71 | The product modulo 2^128 |
| U128.Less | src/C99/Runtime.hs:72-75 | The order of the values |
| U128.StepFacts | src/C99/Runtime.hs:85-98 | The remainder is at most the part of n divided so far, so shifting a bit in keeps it below 2^128, also for divisors above 2^127 |
| U128.DivStep | src/C99/Runtime.hs:85-98 | One bit of long division keeps quotient and remainder those of the part of n taken so far |
| U128.DivMod | src/C99/Runtime.hs:83-101 | n = q * d + r with r < d for every n and every nonzero d; zero gives zeros |
| U128.Div | src/C99/Runtime.hs:102-104 | The quotient |
| U128.Mod | src/C99/Runtime.hs:105-107 | The remainder |
| BitField.InsertBits | src/C99/Lower.hs:835-851 | Exactly the field's bits of the word change, to the low bits of the value |
| BitField.RawUntouched | src/C99/Lower.hs:835-851 | A field that shares no bit with the one stored reads as before |
| BitField.ReadBack | src/C99/Lower.hs:808-851 | Storing into a field and loading it gives the value truncated to the width and, for a signed field narrower than the unit, sign-extended |
| BitField.BfLoad | src/C99/Lower.hs:808-833 | What is loaded from memory is the field's value |
| BitField.BfStore | src/C99/Lower.hs:835-851 | In memory: the field reads back as what it can hold, every field apart from it keeps its value, and no byte outside its unit changes |
| BitField.StoreThenLoad | src/C99/Lower.hs:808-851 | A value in the field's range, stored and loaded, comes back as the 32-bit word of that value |
| Layout.AlignUpIs | src/C99/CType.hs:285-288 | For an alignment that is a power of two, the mask gives the least multiple not below x |
| Layout.SizeIsAligned | src/C99/CType.hs:294-330 | Every type's size is a multiple of its alignment, so elements of arrays stay aligned |
| Layout.StructIsWellLaidOut | src/C99/CType.hs:210-272 | For every member list, bit-fields of width 0 to 32 and flexible arrays included: members in order, aligned, on pairwise disjoint bits, inside a size that is a multiple of the alignment |
| Compact.StructIsCompact | src/C99/CType.hs:210-272 | And no further apart than that, for every member list: a bit-field shares its predecessor's unit exactly when that is a bit-field with no zero-width one between and both fit in 32 bits; everything else stands at the least multiple of its alignment behind all before it; the size is the least multiple of the largest alignment that holds all |
| Compact.UnionIsCompact | src/C99/CType.hs:210-272 | The size of a union is the least multiple of its largest alignment that holds the largest member |
| Compact.StructIsDetermined | src/C99/CType.hs:210-272 | These rules leave no choice: one layout, size and alignment for each member list |
| Compact.TargetTypes | src/C99/CType.hs:294-330 | The sizes and alignments the layout goes by: pointers as 8-byte words, enums as int, arrays element by element, nothing for what is incomplete |
| Compact.MemberAlignIs | src/C99/CType.hs:274-284 | A bit-field is aligned as its unit, a flexible array as its element, a member of no known size not at all |
| Compact.FiveMembers | src/C99/CType.hs:210-272 | A struct of a char, bit-fields of 3 and 5 bits, a pointer and an array, place by place |
| Layout.UnionOverlaid | src/C99/CType.hs:210-272 | Every member of a union is at offset 0 inside its size |
| Layout.GoKeeps | src/C99/CType.hs:210-272 | Each named member is laid out once, in order, with its name, type and width |
| Layout.SetMembersKeeps | src/C99/CType.hs:193-205 | Completing a tag keeps every tag's size a multiple of its alignment, however many come after |
| Compact.CompletedTag | src/C99/CType.hs:193-205 | Completing a tag gives it the size and alignment of the compact layout, and changes no other |
| Layout.FieldsApart | src/C99/CType.hs:210-272 | Two bit-fields of a laid out struct share no bit and the unit of one overlaps no other member, so a store changes no other member |
| Qsort.RtSwap | rt/rt_stdlib.c:122-128 | The bytes of two blocks change places, and no other byte changes |
| Qsort.SwapBlocks | rt/rt_stdlib.c:122-128 | Swapping the bytes swaps the blocks |
| Qsort.InsertionSort | rt/rt_stdlib.c:136-146 | A short range is sorted, by permuting it only |
| Qsort.Partition | rt/rt_stdlib.c:147-166 | The pivot ends at store, nothing before it is above it and nothing after it is below it |
| Qsort.RtQsort | rt/rt_stdlib.c:132-177 | The range is a sorted permutation of itself, nothing outside it changes, and the recursion goes no deeper than the logarithm of the number of blocks |
| Qsort.Qsort | rt/rt_stdlib.c:179-182 | For every total preorder: a sorted permutation of the blocks, bytes past them unchanged, depth at most log2(count) |
| Qsort.Bsearch | rt/rt_stdlib.c:184-199 | A matching block exactly when one exists |
| Qsort.SortThenSearch | rt/rt_stdlib.c:179-199 | After qsort with a total preorder bsearch finds a match for any key exactly when one of the blocks was one |
| EditDistance.RowsAre | src/C99/Diag.hs:423-427 | Each row holds the distances of the prefixes of one string to the part of the other read so far |
| EditDistance.DistanceIsLev | src/C99/Diag.hs:416-427 | The rolling rows compute the recurrence on the case-folded strings |
| EditDistance.DistanceIsShortest | src/C99/Diag.hs:416-427 | The result is the length of the shortest edit script between the folded strings |
| EditDistance.Symmetric | src/C99/Diag.hs:416-427 | The distance is symmetric |
| EditDistance.Triangle | src/C99/Diag.hs:416-427 | It obeys the triangle inequality |
| EditDistance.ZeroIsSame | src/C99/Diag.hs:414-415 | It is 0 exactly for strings that differ in case only |
| EditDistance.ClosestIs | src/C99/Diag.hs:433-445 | The suggestion is a candidate in range at the least distance; there is none exactly when no candidate is in range |
| DeclaratorProof.ParenSkipped | src/C99/Parser.hs:890-903 | Skipping from the parenthesis in front of a declarator lands right after the one that closes it |
| DeclaratorProof.SuffixesRead | src/C99/Parser.hs:981-999 | All suffixes are read, innermost last, up to where the declarator stops |
| DeclaratorProof.ListRead | src/C99/Parser.hs:1026-1055 | A parameter list, prototype, unspecified or variadic, reads as its parameters with their types decayed |
| DeclaratorProof.ParenRead | src/C99/Parser.hs:967-979 | The suffixes after parentheses apply to the base first, and the cursor ends up after them |
| DeclaratorProof.InnerRead | src/C99/Parser.hs:917-999 | For every declarator of the grammar: the type it means, its name, its own parameters, and the cursor right after it |
| DeclaratorProof.SpellMeans | src/C99/Parser.hs:865-999 | The spelling of a type around a declarator means that type |
| DeclaratorProof.SpellingReadsBack | src/C99/Parser.hs:865-1055 | Every valid type of pointers, arrays and functions to any depth, spelled as C spells it around a name, reads back as that type and name, with the cursor right after the declarator |
| DeclaratorProof.ParameterAdjusted | src/C99/Parser.hs:1042-1055 | A parameter spelled with an array type of any depth reads as a pointer to its element, one with a function type as a pointer to it, every other as spelled (section 6.7.5.3 of ISO/IEC 9899:1999) |
| DeclaratorProof.AnySuffixesRead | src/C99/Parser.hs:981-999 | Every run of suffixes with good parameter lists is read, valid or not, and as which type |
| DeclaratorProof.SuffixesAllowedIff | src/C99/Parser.hs:981-999 | Over a base that is no function and no array that type is one C allows if and only if the suffixes are all brackets or one parameter list alone |
| DeclaratorProof.CallThenIndex | src/C99/Parser.hs:985-998 | f(void)[3], which C forbids, is taken for an array of functions |
| DeclaratorReader.Parser.SkipBalancedParens | src/C99/Parser.hs:890-903 | The cursor moves past the balanced parentheses, or to the end of the tokens |
| DeclaratorReader.Parser.Parenthesized | src/C99/Parser.hs:967-979 | Skip, read the suffixes, rewind, read inside, jump to the end: the result and the cursor are the specified ones |
| DeclaratorReader.Parser.Postfix | src/C99/Parser.hs:981-999 | The suffixes as specified, with the cursor after them |
| DeclaratorReader.Parser.ReadDeclarator | src/C99/Parser.hs:908-999 | A valid declarator at the cursor gives its meaning, name and parameters, and the token index moves by exactly its length |
| Precedence.Parser.ParseBinRhs | src/C99/Parser.hs:488-498 | Takes the longest run of operators at or above the minimum and groups it with lhs in front: the tree has that yield, left operands bind at least as tightly as their parent and right ones more tightly |
| Precedence.Parser.RightOperand | src/C99/Parser.hs:494-496 | The operand after an operator with everything that binds more tightly than it |
| Precedence.Parser.ParseBinary | src/C99/Parser.hs:500-502 | A whole binary expression: exactly the longest run at the minimum, as the one proper tree; at minimum 0 all of it, as the derivation that the productions of sections 6.5.5 to 6.5.14 of ISO/IEC 9899:1999 give it |
| Precedence.GrammarIsProper | src/C99/Parser.hs:464-498 | The trees it builds are exactly those of the productions of sections 6.5.5 to 6.5.14 of ISO/IEC 9899:1999, ten levels over named operators, without the table of numbers |
| Precedence.OneDerivation | src/C99/Parser.hs:488-498 | That grammar has one derivation for given operands and operators |
| Precedence.RootIsLast | src/C99/Parser.hs:488-498 | The root of such a tree is the last of the operators that bind least |
| Precedence.ProperIsUnique | src/C99/Parser.hs:488-498 | There is only one such tree over given operands and operators |
| Macros.EditsKeepKnown | src/C99/Preprocess.hs:75-104 | After any run of #define and #undef the candidate names still cover every macro |
| Macros.EditsDecide | src/C99/Preprocess.hs:89-104 | The last edit that concerns a name decides what it stands for, and predefined macros come back into sight after #undef |
| Macros.CallUsesParen | src/C99/Preprocess.hs:558-564 | A call that is fed back with another name has used up an opening parenthesis: the second part of the measure |
| Macros.PendingCall | src/C99/Preprocess.hs:569-578 | The name fed back is an identifier |
| MacroText.CharacterClasses | src/C99/Preprocess.hs:119-126 | The characters names, blanks and literals begin with, one by one |
| MacroText.ScanLit | src/C99/Preprocess.hs:407-413 | What is taken and what is left are the text |
| MacroText.LitCloses | src/C99/Preprocess.hs:407-413 | When something is left the literal ended with its quote |
| ExpandProof.BlockCommentEnds | src/C99/Preprocess.hs:435-454 | A comment scanned to its end leaves what the end test goes on with; an open one leaves at most one character behind |
| ExpandProof.CleanSplit | src/C99/Preprocess.hs:524-531 | The candidate scan of a text has seen every rest that starts behind a character of no identifier |
| ExpandProof.GoQuiet | src/C99/Preprocess.hs:537-547 | The walk over a text without unpainted macros gives the text back, but for the one character an open comment leaves behind |
| ExpandProof.StrayStaysIff | src/C99/Preprocess.hs:549-555 | A single character is expanded to itself if and only if it begins no name, or is no live object-like macro, or one whose body expands to it |
| ExpandProof.ScanIsExact | src/C99/Preprocess.hs:515-545 | With no candidate, full expansion is the identity if and only if no comment stays open or the last character is one that stays |
| ExpandProof.ScanIsExactInside | src/C99/Preprocess.hs:533-535 | The same for a line that begins inside a comment, in terms of what follows that comment |
| ExpandProof.StrayIsExpanded | src/C99/Preprocess.hs:435-438 | With a macro named o the line that opens a comment and ends in xo has no candidate, yet the walk would change its last letter |
| ExpandProof.PlaceIs | src/C99/Preprocess.hs:546-547 | __LINE__ stands for the line's number as a decimal numeral, __FILE__ for the file's name as a literal with its backslashes turned |
| ExpandProof.ReplacedByBody | src/C99/Preprocess.hs:549-555 | An object-like macro whose body holds no macro but itself is replaced by exactly its body, once |
| Painting.PaintAgrees | src/C99/Preprocess.hs:515-578 | On every text where no retired name feeds a call back, the walk without paint gives what the same walk gives when it keeps paint on retired names (section 6.10.3.4p2 of ISO/IEC 9899:1999) |
| Painting.FedBackIff | src/C99/Preprocess.hs:569-578 | A call is fed back if and only if its whole replacement is one name of a function-like macro not being replaced outside, and a parenthesis follows |
| Painting.RevivedIff | src/C99/Preprocess.hs:558-565 | A macro is called again by its own replacement if and only if that is its own name alone and a parenthesis follows |
| Painting.TwiceCalled | src/C99/Preprocess.hs:558-565 | With f(x) defined as f the text f(1)(2) comes out as f, where the retired name must stay: f(2) |
| Arguments.GoConcat | src/C99/Preprocess.hs:537-565 | Expansion of a text is that of its two parts, cut where no token and no call reaches over the edge |
| Arguments.Unmet | src/C99/Preprocess.hs:549-578 | A name the expansion of a text does not come to may be retired or not |
| Arguments.Unreached | src/C99/Preprocess.hs:549-578 | A text that mentions only object-like macros whose bodies lead to no function-like macro and not to x never comes to x |
| Arguments.PiecesSpell | src/C99/Preprocess.hs:629-660 | A body without # and ## is substituted as its own stretches and the arguments in turn |
| Substitution.SubstitutedIs | src/C99/Preprocess.hs:629-660 | Any body, # and ## included, written as a list of its own characters and names, parameters by position, __VA_ARGS__, # and ##: for any number of parameters and arguments the text substituted is their values in order, each parameter's the argument at its own place, a space between two where an argument would fuse, none behind ## |
| Substitution.EveryBody | src/C99/Preprocess.hs:629-660 | Every body is such a list |
| Substitution.PiecesAre | src/C99/Preprocess.hs:629-660 | The pieces that ArgumentsFirst takes for arguments are the ones these items name |
| Substitution.QuoteReadsBack | src/C99/Preprocess.hs:496-502 | What # makes of an argument is one literal that ends where it should and denotes the argument, carriage returns apart |
| Substitution.PasteJoins | src/C99/Preprocess.hs:632-633 | x ## y with any blanks leaves the two arguments side by side |
| Substitution.VariadicNotQuoted | src/C99/Preprocess.hs:634-640 | #__VA_ARGS__ comes out as nothing, where section 6.10.3.2 of ISO/IEC 9899:1999 makes a literal |
| Substitution.EachInItsPlace | src/C99/Preprocess.hs:641-645 | With SUB(a,b) defined as a-b and any two digits: 5-3 for SUB(5,3) |
| Calls.ListRead | src/C99/Preprocess.hs:584-607 | An argument list spelled with balanced parentheses and closed literals is taken apart at its own commas, one argument for each, up to its own closing parenthesis |
| Calls.CallBecomes | src/C99/Preprocess.hs:555-565 | A whole call from those spellings: its replacement is expanded with the macro retired, and then what follows |
| Arguments.ArgumentsFirst | src/C99/Preprocess.hs:611-622 | For every function-like macro without # and ##: splicing unexpanded arguments and rescanning gives what expanding each argument first gives (section 6.10.3.1 of ISO/IEC 9899:1999), whenever no call reaches over an edge between body and argument and no argument's own expansion comes to the macro |
| Arguments.OneArgumentIff | src/C99/Preprocess.hs:611-622 | With one argument spliced once the two results differ exactly as the two expansions of the argument do, with the macro retired and not |
| ArgumentCases.NestedCallStays | src/C99/Preprocess.hs:611-622 | With f(x) defined as x the text f(f(1)) comes out as f(1): the argument mentions f |
| ArgumentCases.ArgumentMeetsCallee | src/C99/Preprocess.hs:611-622 | With g(x) defined as f(x) so does g(f(1)): a call in the body reaches over the argument |
| ArgumentCases.ArgumentLeadsBack | src/C99/Preprocess.hs:611-622 | With h defined as f(3) the text f(h) comes out as f(3): the argument does not mention f but leads to it |
| Arguments.RescannedWithRest | src/C99/Preprocess.hs:549-554 | The replacement of every object-like macro, rescanned alone, comes out as rescanned with the text that follows (section 6.10.3.4p1 of ISO/IEC 9899:1999), whenever no call reaches from it into that text and the text does not come to the macro |
| Arguments.CallRescannedWithRest | src/C99/Preprocess.hs:555-563 | The same for every call that is not fed back |
| Arguments.TrailingNameStays | src/C99/Preprocess.hs:549-554 | A function-like name at the end of an object-like macro's replacement stays as it is, whatever follows |
| Arguments.TrailingNameInCall | src/C99/Preprocess.hs:555-578 | So does one at the end of a call's replacement, unless the call is fed back |
| ArgumentCases.TrailingNotCalled | src/C99/Preprocess.hs:549-554 | With j defined as (f the text j(1) comes out as (f(1), where rescanning (f(1) gives (1 |
| ArgumentCases.AliasNotCalled | src/C99/Preprocess.hs:549-554 | With k defined as f the text k(1) comes out as f(1) |
| Junctions.TokenJoinsIff | src/C99/Lexer.hs:333-556 | The longest match draws what follows into a name, a number or a punctuator exactly under a condition on the token and the next characters |
| Junctions.JoinsFuses | src/C99/Preprocess.hs:666-677 | The test that keeps splices apart holds wherever a punctuator would join |
| Junctions.FusesIsNotExact | src/C99/Preprocess.hs:666-677 | It also holds for + and *, which do not join, and fails for 1e and +, which do |
| Junctions.ReplacementJoins | src/C99/Preprocess.hs:549-555 | Around a replacement no boundary is kept: the token before it and the last one of the body take in what follows exactly where the condition holds |
| Junctions.MinusMinus | src/C99/Preprocess.hs:549-555 | With N defined as -1 the text -N comes out as --1, which begins with a decrement |
| Numbers.SuffixIsName | src/C99/Preprocess.hs:543-545 | Letters behind digits and points are taken for a name, against section 6.4.8 of ISO/IEC 9899:1999 |
| Numbers.NumberStaysIff | src/C99/Preprocess.hs:543-563 | Such a number stays as it is when the letters name nothing that can be replaced, and when they name an object-like macro that can, if and only if that expands to the letters themselves |
| Numbers.TenL | src/C99/Preprocess.hs:543-555 | With L defined as 5 the number 10L comes out as 105 |
| IfStack.DeadGroup | src/C99/Preprocess.hs:763-768 | In dead code nothing acts, whatever is nested there, and the stack comes back |
| IfStack.TakenArms | src/C99/Preprocess.hs:943-957 | Once an arm has been taken no later #elif or #else is |
| IfStack.ArmsChoose | src/C99/Preprocess.hs:943-957 | While none has been taken the next whose condition holds, or the next #else, is |
| IfStack.GroupRuns | src/C99/Preprocess.hs:925-998 | Over every well-nested run of lines the 0/1/2 stack makes live exactly the lines the nested groups select, at most one arm of each, and comes back as it was |
| DirectiveLines.DefinedDecides | src/C99/Preprocess.hs:925-998 | The lines of an #ifdef or #ifndef with an #else, blanks where they may be: those of the first arm come out expanded and the others blank exactly when the name is, or is not, a key of the table, and otherwise the reverse |
| DirectiveLines.DefineMeans | src/C99/Preprocess.hs:1000-1003 | After a #define its name stands for what the line says and every other for what it did, or the line is an error |
| DirectiveLines.UndefMeans | src/C99/Preprocess.hs:983-987 | After an #undef the name stands for what it was predefined as, or nothing |
| DirectiveLines.ErrorMeans | src/C99/Preprocess.hs:988-992 | #error is an error, and an unknown word does nothing |
| Merging.CallOverLines | src/C99/Preprocess.hs:469-492 | A line that leaves a call open and the lines after it are one logical line, their code joined by single spaces without their comments, up to the line that closes the call, a directive, the end, or 512 lines |
| Merging.DirectiveOverLines | src/C99/Preprocess.hs:862-868 | A directive takes in the lines after it while a comment is open at its end, up to 4096 |
| Lines.Reference | src/C99/Preprocess.hs:807-829 | One line comes out for each line that goes in |
| PreprocessorState.ScanMissesNothing | src/C99/Preprocess.hs:842-855 | The scan in place over the candidate names never misses a macro the scan of expansion would find |
| PreprocessorState.ScanFindsNames | src/C99/Preprocess.hs:842-855 | And when it stops at a line, an identifier of the line is one of them |
| PreprocessorState.CommentsAgree | src/C99/Preprocess.hs:469-492 | The comment state carried to the next line is the one the text ends in |
| PreprocessorState.FastPath | src/C99/Preprocess.hs:818-820 | A line that opens no call and names no macro comes out of the slow path as it went in, with the same state carried on |
| PreprocessorState.Preprocessor.Directive | src/C99/Preprocess.hs:925-998 | The class with its cached flag does one directive as the stack and the table prescribe, and the flag is right again |
| PreprocessorState.Preprocessor.TextLine | src/C99/Preprocess.hs:816-829 | A live line comes out as the slow path gives it, whichever path was taken |
| PreprocessorState.Preprocessor.ProcessLines | src/C99/Preprocess.hs:807-829 | For every file: output and final state are those of the long way for every line, and there is one line out for each line in |
| PreprocessorState.SingleLinesRun | src/C99/Preprocess.hs:807-829 | Lines complete by themselves run as the stack machine runs their events |
| PreprocessorState.NestedLinesMean | src/C99/Preprocess.hs:807-998 | Lines that spell nested conditionals become what the groups mean (section 6.10.1 of ISO/IEC 9899:1999) |
| SkippedLines.PassedOverIff | src/C99/Preprocess.hs:814-817 | Passing a skipped line over is right for the comment state if and only if the line leaves that as it was |
| SkippedLines.SkippedAgree | src/C99/Preprocess.hs:807-831 | Every file whose skipped lines all do so comes out as when every comment counts (section 5.1.1.2 of ISO/IEC 9899:1999) |
| SkippedLines.HiddenEndif | src/C99/Preprocess.hs:814-817 | After #if 0 and a line that opens a comment an #endif inside it ends the group |

## Left out

Floating point:

- FloatPrint.EmitFloat: the text before padding; `emit_padded` with width, sign and flags, upper-case conversions,
  infinities and NaN are not modelled, and the digits and the text are required to fit their buffers
  (for every double with e2 >= -884 the digits do).
- Strtod.Strtod: requires that the loop doubling the bounds stops, which `AnswersIff` gives as a condition on the text. The
  `errno` of the two limits on the exponent and the overflow of the `int`s that count exponents are not modelled.
- DecimalToBinary.Convert: requires the same.
- NumeralText.NumeralAnswer: the exponent is the one strtod accumulates, exact below 100000 and at least that otherwise.
- StrtodCorrect.StrtodIsRounded: where a middle between neighbours was passed by dropped digits it says nothing of results
  among the subnormals and in the last binade.
- Sqrt.Sqrt: multiplying a subnormal by 2^108 and a root by 2^-54 is taken as exact, since both results are normal.
- exp, log, pow and the trigonometric functions make claims over real analysis that their arithmetic does not decide.
- `sbn_half` and `sbn_low64` are never called.

Lowering:

- LowerCorrect.LoweringPreservesMeaning: one integer type and scalar locals. Calls, pointers, aggregates, floating
  types, `_Complex`, variable-length arrays, user `goto` and conversions between integer types are not modelled;
  arithmetic operators are functions of their operands.
- LoweringState.Lowerer.FreshLabel: labels are numbers; that the prefixes and the numbers never spell two labels alike
  follows from the number alone.
- Emitted instructions are those of the builder interface; what the code generator behind it does is not modelled.

Streams:

- Stdio.Stream.Ungetc: only the byte just read; pushing back any other byte is outside the file view.
- The device always succeeds, but reads and writes as short as it likes. Failing devices, append mode, pipes,
  `setvbuf` on a stream with pending data, and buffers that cannot be allocated are not modelled.
- Stdio.Stream.PutLines: the `int` that indexes a line-buffered write is unbounded here; a single write of 2 GiB or
  more is not modelled.

Integers, layout, sorting, suggestions:

- Layout.StructIsWellLaidOut: an arithmetic type enters by its size alone, and nested structs by the size and alignment
  in the tag table; member lookup by name (`findMember`) is not modelled.
- Qsort.Qsort: the comparison is a function of the two blocks; one with effects or one that is no total preorder is
  not modelled.
- EditDistance.DistanceIsShortest: case folding is any function on characters.

Parser:

- DeclaratorProof.SpellingReadsBack: array bounds are constants, `*` or absent, and declaration specifiers are
  one token that names their type; bounds that are expressions, variable-length arrays and typedef names are not
  modelled.
- Precedence.Parser.ParseBinRhs: what `parseUnary` reads is one operand.

Preprocessor:

- Lines.Reference: the expression evaluator and the parser of `#define` are parameters, so the results hold for any.
  `#include`, `#line`, `#pragma`, trigraphs and line splicing are not modelled; of messages only the lines they
  are on are kept.
- PreprocessorState.NestedLinesMean: for lines complete by themselves; lines that merge are covered by `ProcessLines`.
- Merging.CallOverLines: for lines without block comments.
- Calls.ListRead: argument lists that the text ends before closing are left out.
- DirectiveLines.DefinedDecides: one conditional with an `#else`; nests of them are in `NestedLinesMean`.
- Arguments.ArgumentsFirst: macros whose body uses `#` or `##`, and bodies in which a call reaches over an argument, are
  left out. Spaces between the pieces are those of the splice.
- Arguments.RescannedWithRest: one replacement at a time, each compared with the program's own walk over the longer text;
  there is no single reference for all of section 6.10.3.
- Painting.PaintAgrees: the reference is the program's own walk with paint added, so it isolates that one deviation.
- Numbers.NumberStaysIff: letters that name a function-like macro with a parenthesis behind them, and exponents with a sign,
  are left out.
- SkippedLines.SkippedAgree: a directive whose comment runs on for more than 4096 lines is treated alike in both.
- Junctions.ReplacementJoins: for object-like macros whose body holds no macro but themselves, behind a punctuator. String
  and character literals enter the lexer's longest match by the prefix of a wide literal only.
