# Exact decimal arithmetic, and four small cores

The main part models the `bcmath` extension: arithmetic on decimal strings of any length whose
results are exact and then cut toward zero to a requested number of fraction digits. The model
follows the layers of the code.

* **Limb kernel** (`Limbs`, `Karatsuba`, `Floats`, `Knuth`, `DivRem`, `Words`, `Packing`,
  `Unpacking`): little-endian vectors in base 10^8, updated in place. `Limbs.Val` is the number a
  vector denotes. Machine words carry their bounds as subset types, so whatever is stored in one,
  and both sides of the trial-digit test, are also shown to fit it; inside the word-parallel
  formulas (`Swar.SwarFix`, `Packing.Fmt8`) only the operands and the results are. `&` and `|` are
  defined bit by bit on integers.
* **Digit strings** (`Scanning`, `Parsing`, `Digits`, `Decimals`, `Columns`, `Swar`, `Addition`,
  `Rounding`, `Buffers`): ASCII digits, most significant first. `Words.Dec` is the number a digit
  string denotes, `Columns.Cols` is digit-by-digit column arithmetic, `Decimals.AtScale` cuts an exact
  value toward zero, and `Decimals.Text` is the canonical text of a value at a scale.
* **Tiers** (`Operands`, `Multiplying`, `Wide`, `Dividing`, `Powers`): native 128-bit words,
  192-bit pairs, stack limbs, heap limbs and a big-integer library, chosen by operand length. Each
  operation has one mathematical result, which every tier must produce.
* **Checks and values** (`Functions`, `Numbers`, `NumberOps`, `Shortcut`, `NumberPowers`,
  `NumberLaws`, `NumberRuns`, `RunLaws`): the length bound checked before an operation, the logarithm shortcut of `pow`, and
  the immutable `BcMath\Number` with its canonical text, over whole programs of constructions and
  operations. What floating point computes there is a parameter: `Shortcut.LogBounds` holds the
  computed bounds of `log10(|base|)`, and `Shortcut.Within` says how accurate they are. The
  specifications of `NumberOps` and `NumberPowers` follow the code; `NumberLaws` and `RunLaws` state
  what their results mean, over the decimal values that the resulting texts read back as.

The other modules are independent of it: `Calendar` (civil dates and day numbers of the time-zone
compiler and of the cookie parser), `DeltaStore` (the difference-compressed locale records and
their reader), `DotSegments` (section 5.2.4 of RFC 3986) and `Utf16` (section 2.2 of RFC 2781 to
section 3 of RFC 3629). `Numerals` holds positional notation and the arithmetic lemmas, `Wrappers`
the option and result types.

Code that updates buffers is modelled by methods over arrays and over a growable `ByteVec`; code
made of expressions is modelled by functions. A method's contract names the mathematical result,
and lemmas say what that result means.

Findings, where the code differs from a statement beside it:

* The comment at `crates/goro-ext-bcmath/src/limbs.rs:436` bounds a dividend by 2^53, which does not
  hold. The quotient estimate is still within one; `Floats.WithinOne` derives that from the
  relative rounding errors of one conversion and one division.
* The floor-division correction at `tools/gen_tzdata.py:65` is one day short for negative shifted
  years other than the last of a 400-year cycle, and the one at line 74 is wrong on every earlier
  day except the last of a cycle. `Calendar.FlooringExactIff` and `Calendar.CivilExactIff` give the
  exact conditions. The truncating version in `cookie.rs` is right for every year.
* The logarithm shortcut at `crates/goro-ext-bcmath/src/functions.rs:302-315` claims a safety
  margin. `Shortcut.ShortcutExact` shows that it is right for every base and scale exactly when the
  error of the logarithm times the exponent's magnitude is at most 2. A correctly rounded logarithm
  does not always keep to that: "1.000000000000007" to the power -7600000000000000 is shown as "0",
  although its first 25 fraction digits are not all zero (`NumberPowers.PowWrong`).
* `Number::pow` with a negative exponent and no scale is documented at
  `crates/goro-ext-bcmath/src/number.rs:16` to keep at least the base's scale, as division does. It
  does so unless the base has fraction digits and is 1 or -1 or the logarithm shortcut fires, when
  the result has scale 0: "1.00" to the power -1 is "1", and "2.00" to the power -100 is "0".
  `NumberPowers.PowScale` gives the exact condition.
* `pow_len_estimate` at `crates/goro-ext-bcmath/src/arith.rs:482-485` is called an upper bound of the
  digit count of a power. For a base such as 0.001 the digits the power is held in, padding zeros
  included, are more; `Powers.EstimateBounds` gives the exact condition.

## Model

| member | source | states |
|---|---|---|
| Limbs.CarryU64 | crates/goro-ext-bcmath/src/limbs.rs:193-207 | after at most 1800 rows the carry pass keeps the value, leaves every limb below 10^8 and ends with carry 0 |
| Limbs.AddRow | crates/goro-ext-bcmath/src/limbs.rs:247-251 | one row adds `x * b` at its place, and no u64 accumulator entry exceeds the limit for the rows so far |
| Limbs.MulSchoolAcc | crates/goro-ext-bcmath/src/limbs.rs:243-262 | the deferred-carry schoolbook product is the product, for operands of any length |
| Limbs.MulSchool | crates/goro-ext-bcmath/src/limbs.rs:228-241 | the product, whichever operand is longer, with the rest of `out` untouched |
| Limbs.Mul4 | crates/goro-ext-bcmath/src/limbs.rs:210-225 | eight limbs hold the product of four by four |
| Limbs.AddInto | crates/goro-ext-bcmath/src/limbs.rs:267-292 | adds in place; the carry is absorbed inside the slice whenever the sum fits it |
| Limbs.SubInto | crates/goro-ext-bcmath/src/limbs.rs:295-319 | subtracts in place for `dst >= src`, with no borrow left |
| Limbs.Add | crates/goro-ext-bcmath/src/limbs.rs:322-329 | the sum in one limb more than the longer operand |
| Limbs.MulSmallSlice | crates/goro-ext-bcmath/src/limbs.rs:401-409 | product by one limb, with the carry out |
| Limbs.DivSmallInPlace | crates/goro-ext-bcmath/src/limbs.rs:412-421 | quotient in place and remainder below the divisor |
| Limbs.Trim | crates/goro-ext-bcmath/src/limbs.rs:392-398 | same value, no high zero limb |
| Karatsuba.MulTo | crates/goro-ext-bcmath/src/limbs.rs:341-390 | the product over all lengths: schoolbook, unbalanced and Karatsuba branches |
| Karatsuba.MulUnbalanced | crates/goro-ext-bcmath/src/limbs.rs:347-362 | the slice-by-slice product, every partial sum fitting the output |
| Karatsuba.MulKaratsuba | crates/goro-ext-bcmath/src/limbs.rs:363-389 | three smaller products make the product |
| Karatsuba.MiddleProduct | crates/goro-ext-bcmath/src/limbs.rs:377-384 | both subtractions stay non-negative and leave the cross terms |
| Karatsuba.PiecesFit | crates/goro-ext-bcmath/src/limbs.rs:385-389 | every shifted addition is absorbed inside the output |
| Karatsuba.Mul | crates/goro-ext-bcmath/src/limbs.rs:332-339 | the product as a new vector, empty operands included |
| Floats.WithinOne | crates/goro-ext-bcmath/src/limbs.rs:436-439 | one rounded conversion and one rounded division are within one of the integer quotient |
| Knuth.EstimateDigit | crates/goro-ext-bcmath/src/limbs.rs:435-448 | the float estimate, repaired by at most one, is the exact two-limb quotient and remainder |
| Knuth.TrialDigit | crates/goro-ext-bcmath/src/limbs.rs:448-455 | the largest digit whose multiple of the divisor's two top limbs does not exceed the three top limbs |
| Knuth.DigitBounds | crates/goro-ext-bcmath/src/limbs.rs:428-455 | the trial digit is the true digit or one more |
| Knuth.MulSub | crates/goro-ext-bcmath/src/limbs.rs:460-477 | multiply and subtract with borrow 0, 1 or 2, exactly accounted for |
| Knuth.AddBack | crates/goro-ext-bcmath/src/limbs.rs:485-496 | adds the divisor back, dropping at most one carry |
| Knuth.Reduce | crates/goro-ext-bcmath/src/limbs.rs:460-498 | one add-back always suffices |
| Knuth.QuotientDigit | crates/goro-ext-bcmath/src/limbs.rs:434-499 | one window: the digit, and a remainder below the divisor |
| Knuth.Divide | crates/goro-ext-bcmath/src/limbs.rs:428-500 | algorithm D: old value is quotient times divisor plus a remainder below the divisor, for all lengths |
| DivRem.NormalizationFactor | crates/goro-ext-bcmath/src/limbs.rs:522-529 | the repaired estimate is exactly `floor(B / (top + 1))` |
| DivRem.ScaledDivisor | crates/goro-ext-bcmath/src/limbs.rs:530-538 | scaling leaves no carry and a top limb of at least half the base |
| DivRem.DivRemSlices | crates/goro-ext-bcmath/src/limbs.rs:506-549 | exact quotient and remainder in caller storage, one-limb divisors included |
| DivRem.DivRem | crates/goro-ext-bcmath/src/limbs.rs:553-567 | exact quotient and remainder for any operands with or without high zeros |
| Packing.Parse8wValue | crates/goro-ext-bcmath/src/limbs.rs:17-30 | the three multiply-and-mask steps give the value of eight digits |
| Packing.Fmt8Value | crates/goro-ext-bcmath/src/limbs.rs:33-42 | the SWAR store gives eight digits of that value |
| Packing.ParseRangeValue | crates/goro-ext-bcmath/src/limbs.rs:47-71 | the blanked and the shifted overlapping loads give the plain digit value |
| Packing.FromDigitsSlice | crates/goro-ext-bcmath/src/limbs.rs:95-145 | the packed limbs have the value of `a ++ b ++ zeros`, for every split and zero count |
| Packing.FromDigits | crates/goro-ext-bcmath/src/limbs.rs:148-154 | the same into a new vector |
| Unpacking.ToDigitsSlice | crates/goro-ext-bcmath/src/limbs.rs:158-175 | the digits of the value without leading zeros |
| Unpacking.ToDigits | crates/goro-ext-bcmath/src/limbs.rs:178-183 | the same as a new string |
| Unpacking.RoundTrip | crates/goro-ext-bcmath/src/limbs.rs:95-183 | packing and unpacking drops leading zeros and nothing else |
| Scanning.BadByteValue | crates/goro-ext-bcmath/src/dec.rs:29-34 | the nibble test is zero exactly for ASCII digits |
| Scanning.BadWordLanes | crates/goro-ext-bcmath/src/dec.rs:29-34 | the word test is the byte test in every lane |
| Scanning.FirstNondigit | crates/goro-ext-bcmath/src/dec.rs:27-68 | the first byte that is not a digit, through the 32-byte, 8-byte and masked last-word steps |
| Parsing.Parse | crates/goro-ext-bcmath/src/dec.rs:78-99 | the scanner computes the denotation of an operand text |
| Parsing.ParsedIff | crates/goro-ext-bcmath/src/dec.rs:70-99 | accepted exactly when it is sign, digits, point, digits up to its end or first NUL; the result is then settled |
| Parsing.TextReads | crates/goro-ext-bcmath/src/dec.rs:78-99 | canonical text reads back as the value and scale it was written with |
| Parsing.TextInjective | crates/goro-ext-bcmath/src/dec.rs:576-606 | different values or scales have different texts |
| Decimals.AtScaleIsTruncation | crates/goro-ext-bcmath/src/dec.rs:4-8 | cutting moves toward zero by less than one unit |
| Decimals.ZeroNum | crates/goro-ext-bcmath/src/dec.rs:121-124 | `is_zero` holds exactly for the value zero |
| Decimals.WriteNum | crates/goro-ext-bcmath/src/dec.rs:242-262 | appends the canonical text of the operand cut or padded to the scale, never "-0" |
| Decimals.Emit | crates/goro-ext-bcmath/src/dec.rs:572-606 | appends the canonical text of the value given by its digits and leading fraction zeros |
| Decimals.WriteUnscaled | crates/goro-ext-bcmath/src/dec.rs:613-622 | the same for an unscaled digit string |
| Columns.ColsValue | crates/goro-ext-bcmath/src/dec.rs:347-350 | column arithmetic is integer addition and subtraction with carry or borrow |
| Swar.LanesAre | crates/goro-ext-bcmath/src/dec.rs:335-371 | the eight-byte constants, and their doubling to sixteen, hold the byte in every lane |
| Swar.AddWordCols | crates/goro-ext-bcmath/src/dec.rs:330-363 | a biased word addition followed by the fix-up is column addition |
| Swar.SubWordCols | crates/goro-ext-bcmath/src/dec.rs:413-437 | a word subtraction followed by the fix-up is column subtraction |
| Swar.AddHead | crates/goro-ext-bcmath/src/dec.rs:382-397 | the overlapping head word writes the leading digits and leaves the others as they were |
| Swar.SwarAdd | crates/goro-ext-bcmath/src/dec.rs:347-411 | word-at-a-time addition is column addition for every length, and touches nothing outside |
| Swar.SwarSub | crates/goro-ext-bcmath/src/dec.rs:413-474 | word-at-a-time subtraction is column subtraction, with or without a minuend |
| Addition.Ripple | crates/goro-ext-bcmath/src/dec.rs:476-510 | copying and rippling a carry or borrow is column arithmetic with zeros |
| Addition.CmpMagIsOrder | crates/goro-ext-bcmath/src/dec.rs:272-290 | digit comparison of operands is comparison of their magnitudes |
| Addition.CmpIsOrder | crates/goro-ext-bcmath/src/dec.rs:292-304 | signed comparison is comparison of the numbers; negative zero equals zero |
| Addition.FractionColumns | crates/goro-ext-bcmath/src/dec.rs:524-541 | fractions of unequal length, aligned at the point |
| Addition.WholeColumns | crates/goro-ext-bcmath/src/dec.rs:542-556 | integer parts of unequal length, aligned at the right, with the carry in |
| Addition.AddInto | crates/goro-ext-bcmath/src/dec.rs:512-571 | appends the canonical text of `a + b` cut to the scale, for all signs and lengths |
| Addition.SubInto | crates/goro-ext-bcmath/src/dec.rs:608-611 | appends the canonical text of `a - b` cut to the scale |
| Rounding.FromDigits | crates/goro-ext-bcmath/src/dec.rs:215-223 | padding keeps the value and makes the integer part addressable |
| Rounding.ViewValue | crates/goro-ext-bcmath/src/dec.rs:225-234 | an owned result viewed as an operand is the same number at the same scale |
| Rounding.Classify | crates/goro-ext-bcmath/src/dec.rs:700-716 | the scan finds the first discarded digit and whether any later one is not zero |
| Rounding.ClassifiedHalf | crates/goro-ext-bcmath/src/dec.rs:726-736 | those two facts decide the comparison with one half |
| Rounding.Decision | crates/goro-ext-bcmath/src/dec.rs:737-755 | the eight modes' decisions are roundings by their definitions |
| Rounding.Increment | crates/goro-ext-bcmath/src/dec.rs:776-787 | adds one in the last place; the carry never runs off the front |
| Rounding.Round | crates/goro-ext-bcmath/src/dec.rs:671-789 | the result is the multiple of 10^-precision the mode selects, for every precision; only the length limit withholds it |
| Rounding.RoundedUnique | crates/goro-ext-bcmath/src/dec.rs:624-638 | each mode selects exactly one integer |
| Rounding.RoundedIff | crates/goro-ext-bcmath/src/dec.rs:624-638 | namely the floor, or the integer above it by the rule of the mode |
| Operands.TrimmedSame | crates/goro-ext-bcmath/src/dec.rs:102-119 | trailing fraction zeros carry no value |
| Operands.PartsValue | crates/goro-ext-bcmath/src/dec.rs:165-185 | the two slices hold the unscaled magnitude without leading zeros |
| Operands.ValU128 | crates/goro-ext-bcmath/src/arith.rs:65-80 | the value of at most 38 digits, within 128 bits at every step |
| Operands.PushU128 | crates/goro-ext-bcmath/src/dec.rs:791-812 | the digits of any 128-bit value, within a 40-byte buffer |
| Multiplying.MulFour | crates/goro-ext-bcmath/src/arith.rs:113-125 | the four-limb tier gives the product |
| Multiplying.MulSmall | crates/goro-ext-bcmath/src/arith.rs:126-143 | the stack-limb tier gives the product |
| Multiplying.MulDigits | crates/goro-ext-bcmath/src/arith.rs:82-101 | the native and heap-limb tiers give the product |
| Multiplying.MulInto | crates/goro-ext-bcmath/src/arith.rs:106-146 | every tier appends the canonical text of the same truncated product |
| Wide.Mul | crates/goro-ext-bcmath/src/arith.rs:156-166 | the 192-bit product is exact |
| Wide.CorrectQuotient | crates/goro-ext-bcmath/src/arith.rs:230-250 | from any starting estimate the two loops reach the floor of the quotient |
| Dividing.VirtualU128 | crates/goro-ext-bcmath/src/arith.rs:185-210 | the value of a digit range of the unbuilt number |
| Dividing.DivShortQuotient | crates/goro-ext-bcmath/src/arith.rs:212-251 | taken exactly in its size window, and then the exact quotient |
| Dividing.DivSmall | crates/goro-ext-bcmath/src/arith.rs:263-302 | taken exactly when both operands fit the stack limbs, and then the exact quotient's digits |
| Dividing.DivRemDigits | crates/goro-ext-bcmath/src/arith.rs:304-367 | exact quotient digits, and the remainder when wanted, in every tier |
| Dividing.TruncQuotIff | crates/goro-ext-bcmath/src/arith.rs:384-385 | the truncated quotient is the only integer whose remainder is smaller than the divisor with the dividend's sign |
| Dividing.TrimmedQuotient | crates/goro-ext-bcmath/src/arith.rs:385-394 | trimming the operands does not change the quotient |
| Dividing.DivInto | crates/goro-ext-bcmath/src/arith.rs:384-419 | appends the canonical text of the truncated quotient, whichever tier runs and whatever the estimate is |
| Dividing.Div | crates/goro-ext-bcmath/src/arith.rs:421-427 | the same quotient as an owned result |
| Dividing.DivMod | crates/goro-ext-bcmath/src/arith.rs:429-443 | `a == q * b + r` exactly, with `r` smaller than `b` and of the sign of `a` |
| Powers.PowLimbs | crates/goro-ext-bcmath/src/arith.rs:506-531 | square-and-multiply on limbs is the power |
| Powers.PowExact | crates/goro-ext-bcmath/src/arith.rs:487-533 | the exact power at scale `frac * e`, in both tiers, and how many digits hold it |
| Powers.EstimateBounds | crates/goro-ext-bcmath/src/arith.rs:482-489 | the length estimate bounds the digits a power is held in exactly for bases without zeros directly behind the point |
| Powers.TrimmedPower | crates/goro-ext-bcmath/src/arith.rs:487-491 | the trimmed operand's power is the operand's power |
| Powers.PowModU128 | crates/goro-ext-bcmath/src/arith.rs:563-574 | modular square-and-multiply, no product exceeding 128 bits |
| Powers.PowModExact | crates/goro-ext-bcmath/src/arith.rs:540-586 | the truncated remainder of the power, with the base's sign exactly for an odd exponent and a result that is not zero |
| Powers.Sqrt | crates/goro-ext-bcmath/src/arith.rs:445-480 | the square root cut to the scale, digits dropped from the radicand included |
| Powers.RootUnique | crates/goro-ext-bcmath/src/arith.rs:445 | no other integer is that root |
| Functions.BoundHolds | crates/goro-ext-bcmath/src/functions.rs:84-89 | no sum, difference, product or quotient text is longer than the bound |
| Functions.RunInto | crates/goro-ext-bcmath/src/functions.rs:91-102 | refuses exactly when the bound exceeds the limit; otherwise appends at most the limit |
| Functions.BcCall | crates/goro-ext-bcmath/src/functions.rs:117-192 | errors in the order scale, operands, division by zero, length; otherwise a text that parses as the operation's result with the requested or the default number of fraction digits |
| Numbers.ReadsAsParsed | crates/goro-ext-bcmath/src/number.rs:307-321 | cutting a number's text apart gives what parsing it gives, and the value it was made with |
| Numbers.Reads | crates/goro-ext-bcmath/src/number.rs:103-110 | a canonical number is the text of the operand it reads as |
| Numbers.NoNegativeZero | crates/goro-ext-bcmath/src/number.rs:103-110 | the text starts with a minus sign only for negative values |
| Numbers.FromString | crates/goro-ext-bcmath/src/number.rs:250-265 | the number as written, at the scale of its fraction |
| Numbers.FromNum | crates/goro-ext-bcmath/src/number.rs:214-222 | the operand cut to the scale, or the scale or length refused |
| Numbers.TrimDownValue | crates/goro-ext-bcmath/src/number.rs:199-205 | dropping zeros gives the same number at the smallest scale from the minimum on |
| Numbers.TrimTo | crates/goro-ext-bcmath/src/number.rs:199-205 | popping zero digits is that dropping |
| Numbers.TrimmedFrom | crates/goro-ext-bcmath/src/number.rs:236-248 | popping zeros off the text, and the point with the last, is that dropping |
| NumberOps.IntText | crates/goro-ext-bcmath/src/number.rs:172-197 | an int's canonical text, within twenty bytes |
| NumberOps.Calc | crates/goro-ext-bcmath/src/number.rs:574-633 | the exact result at the explicit or default scale, or the first check that fails |
| NumberOps.QuotientUnique | crates/goro-ext-bcmath/src/number.rs:614-620 | the division law with its sign rule determines quotient and remainder |
| NumberOps.WholeQuotient | crates/goro-ext-bcmath/src/arith.rs:429-443 | the integer quotient taken at the common scale is the truncated quotient of the numbers |
| NumberOps.DivModNumbers | crates/goro-ext-bcmath/src/number.rs:401-414 | the truncated quotient at scale 0 and the remainder at the explicit or larger scale, or the first check that fails |
| NumberOps.ComparisonIsOrder | crates/goro-ext-bcmath/src/number.rs:504-515 | with a scale, `compare` orders the values cut toward zero at that scale |
| NumberOps.Negate | crates/goro-ext-bcmath/src/number.rs:551-555 | the negated value at the same scale |
| NumberOps.SqrtNumber | crates/goro-ext-bcmath/src/number.rs:466-484 | the root at the explicit scale, or expanded by ten and trimmed; negative radicands refused |
| NumberOps.RoundNumber | crates/goro-ext-bcmath/src/number.rs:486-502 | the value the mode selects, shown at `max(precision, 0)` |
| NumberPowers.Exponent | crates/goro-ext-bcmath/src/functions.rs:247-257 | accepted exactly for integers of magnitude at most `i64::MAX` |
| NumberPowers.ExponentValue | crates/goro-ext-bcmath/src/functions.rs:247-257 | an accepted exponent is the number the operand denotes |
| Shortcut.ShortcutSound | crates/goro-ext-bcmath/src/functions.rs:302-315 | bounds of the logarithm with an error of at most 2 divided by the exponent's magnitude never make the shortcut take a power for zero that shows a digit |
| Shortcut.ShortcutExact | crates/goro-ext-bcmath/src/functions.rs:302-315 | the shortcut is right for all bases, scales and bounds of an accuracy exactly when the error times the exponent is at most the margin of 2 |
| Shortcut.ShortcutWrong | crates/goro-ext-bcmath/src/functions.rs:259-315 | an input on which bounds accurate to half a unit in the last place make it wrong |
| NumberPowers.Power | crates/goro-ext-bcmath/src/functions.rs:275-327 | exact for `e >= 0`, the truncated inverse otherwise, zero exactly where the shortcut fires; absent exactly for zero to a negative power; refused exactly by the length check |
| NumberPowers.PowImpl | crates/goro-ext-bcmath/src/number.rs:635-657 | the result of `pow` for every base, exponent, scale and limit, errors included |
| NumberPowers.ExplicitPower | crates/goro-ext-bcmath/src/number.rs:635-657 | with an explicit scale, what is not refused is the power cut to it, when the error of the logarithm bounds times the exponent's magnitude is at most 2 |
| NumberPowers.PowScale | crates/goro-ext-bcmath/src/number.rs:16 | the result has at least the base's scale and at most ten digits more if and only if the base's scale is 0, or it is not a unit and the shortcut does not fire |
| NumberPowers.UnitLosesScale | crates/goro-ext-bcmath/src/number.rs:635-657 | "1.00" to the power -1 is "1" |
| NumberPowers.ShortcutLosesScale | crates/goro-ext-bcmath/src/number.rs:635-657 | "2.00" to the power -100 is "0" |
| NumberPowers.PowWrong | crates/goro-ext-bcmath/src/number.rs:635-657 | "1.000000000000007" to the power -7600000000000000 is shown as "0", which is wrong |
| NumberPowers.WholePartValue | crates/goro-ext-bcmath/src/functions.rs:247-257 | an operand without a fraction is the integer its whole part denotes |
| NumberPowers.PowModNumber | crates/goro-ext-bcmath/src/functions.rs:409-432 | the checks in their order, then the truncated remainder of the power at the explicit scale or 0 |
| NumberLaws.ShownLaw | crates/goro-ext-bcmath/src/functions.rs:117-192 | what the four operations show at a scale is the exact sum, difference, product or quotient cut toward zero there |
| NumberLaws.CalcLaw | crates/goro-ext-bcmath/src/number.rs:574-633 | a calculation's number reads back, by default, as the exact sum, difference or product at its own scale, the quotient cut at ten more digits and trimmed, or the remainder of the division law at the wider scale; with a scale, as that value cut there |
| NumberLaws.CalcFails | crates/goro-ext-bcmath/src/number.rs:574-633 | division by zero exactly for a zero divisor of `div` and `mod`; any other refusal is for size |
| NumberLaws.DivModMeans | crates/goro-ext-bcmath/src/number.rs:401-414 | the first number is the integer quotient without a fraction, the second the remainder, and the dividend is quotient times divisor plus remainder |
| NumberLaws.ComparisonMeans | crates/goro-ext-bcmath/src/number.rs:504-515 | `compare` is the order of the values, or of the values cut at the scale |
| NumberLaws.PowerLaw | crates/goro-ext-bcmath/src/number.rs:635-657 | a power reads back, by default, as the exact power at scale `frac * e` or the inverse cut at ten more digits and trimmed; with a scale, as the power cut there; exactly unless the shortcut fires on a power that shows a digit |
| NumberLaws.AccuratePower | crates/goro-ext-bcmath/src/number.rs:635-657 | and always when the error of the logarithm bounds times the exponent's magnitude is at most 2 |
| NumberLaws.PowerFails | crates/goro-ext-bcmath/src/number.rs:635-657 | division by zero exactly for a negative power of zero; any other refusal is for size |
| NumberLaws.PowerWithinLimit | crates/goro-ext-bcmath/src/functions.rs:316 | a power that is computed has no more digits than the limit, for bases without zeros directly behind the point |
| NumberLaws.ExponentAccepted | crates/goro-ext-bcmath/src/functions.rs:247-257 | an exponent is accepted exactly when the operand's value is an integer of magnitude at most `i64::MAX` |
| NumberLaws.PowModMeans | crates/goro-ext-bcmath/src/number.rs:434-462 | the number reads back as the remainder of the integers' power, cut at the scale, by default at 0 |
| NumberLaws.RootLaw | crates/goro-ext-bcmath/src/number.rs:464-484 | the number reads back as the root cut at the scale, or at ten more digits than the radicand and trimmed |
| NumberLaws.RoundLaw | crates/goro-ext-bcmath/src/number.rs:498-502 | the number reads back as the multiple of 10^-precision that the mode selects, with `max(precision, 0)` fraction digits |
| NumberLaws.PowModFails | crates/goro-ext-bcmath/src/functions.rs:409-432 | each refusal of a modular power happens exactly when its check fails and the earlier ones pass |
| NumberLaws.RootFails | crates/goro-ext-bcmath/src/number.rs:464-473 | a root is refused exactly for negative radicands, or for size |
| NumberLaws.FormattedFits | crates/goro-ext-bcmath/src/number.rs:212-222 | a result is refused exactly for a scale beyond the maximum, or when its text, with room for a sign, would exceed the limit |
| NumberRuns.UnserializeNumber | crates/goro-ext-bcmath/src/number.rs:328-341 | the number of a well-formed non-empty text, and an error for anything else |
| NumberRuns.Execute | crates/goro-ext-bcmath/src/number.rs:263-657 | carrying out any action on stored numbers, strings and ints gives exactly its specified numbers or error |
| NumberRuns.OutcomeCanonical | crates/goro-ext-bcmath/src/number.rs:103-110 | every result of every action is canonical, whatever the arguments are |
| NumberRuns.RunKeepsCanonical | crates/goro-ext-bcmath/src/number.rs:103-110 | throughout every run of all actions, all numbers are canonical and earlier ones never change |
| NumberRuns.RunReadsBack | crates/goro-ext-bcmath/src/number.rs:307-321 | throughout every run `num` agrees with the parser and no number shows "-0" |
| NumberRuns.RunSerializes | crates/goro-ext-bcmath/src/number.rs:323-341 | throughout every run, unserializing a number's serialized text gives that number |
| RunLaws.OutcomeMeans | crates/goro-ext-bcmath/src/number.rs:263-657 | every action that succeeds adds the numbers that it means in terms of its arguments' values, in the order of its arguments |
| RunLaws.RunMeans | crates/goro-ext-bcmath/src/number.rs:263-657 | every step of every run adds such numbers or changes nothing |
| RunLaws.ArgumentsChecked | crates/goro-ext-bcmath/src/number.rs:343-360 | the first unreadable argument is refused by its position, then a scale out of range |
| RunLaws.StoredAddThenSubtract | crates/goro-ext-bcmath/src/number.rs:597-602 | adding one stored number to another and subtracting it again gives the first back, at the larger scale |
| NumberRuns.AddThenSubtract | crates/goro-ext-bcmath/src/number.rs:597-602 | with default scales `(a + b) - b` is `a` at the larger scale |
| Calendar.NextDayIsNext | tools/gen_tzdata.py:85-92 | the calendar's successor day has the next day number |
| Calendar.OrdinalMono | tools/gen_tzdata.py:63-69 | later dates have greater day numbers |
| Calendar.FlooringExactIff | tools/gen_tzdata.py:63-69 | the flooring conversion counts the calendar's days exactly when the shifted year is not negative or ends a cycle |
| Calendar.FlooringIsOrdinal | tools/gen_tzdata.py:63-69 | and is one day short everywhere else |
| Calendar.FlooringCounterexample | tools/gen_tzdata.py:63-69 | June 1st of the year -2 is one day short |
| Calendar.FlooringOrders | tools/gen_tzdata.py:63-69 | from 0000-03-01 on it is strictly order-preserving and steps by one per day |
| Calendar.CivilOfDays | tools/gen_tzdata.py:72-82 | from 0000-03-01 on each day number gives a valid date with that number |
| Calendar.CivilExactIff | tools/gen_tzdata.py:72-82 | the exact set of days whose date is right |
| Calendar.EarlierDay | tools/gen_tzdata.py:72-82 | before 0000-03-01 every day but the last of a cycle is given the date of the next day number |
| Calendar.DateRoundTrip | tools/gen_tzdata.py:63-82 | date to day number to date is the identity exactly from 0000-03-01 on and, before, except on March 1st and, in a cycle's last year, except on its leap day alone |
| Calendar.DayRoundTrip | tools/gen_tzdata.py:63-82 | day number to date to day number is the identity exactly from 0000-03-01 on and, before, outside the last year of a cycle and on its last day |
| Calendar.TruncatingIsOrdinal | crates/goro-ext-curl/src/cookie.rs:446-454 | the truncating conversion counts the calendar's days in every year |
| Calendar.TruncatingSteps | crates/goro-ext-curl/src/cookie.rs:446-454 | it steps by one per calendar day in every year |
| Calendar.VersionsAgreeIff | crates/goro-ext-curl/src/cookie.rs:446-454 | the two conversions agree exactly where the flooring one is exact |
| Calendar.WeekdayFollows | tools/gen_tzdata.py:95-96 | day 0 is a Thursday and weekdays follow day by day |
| Calendar.ResolvedDay | tools/gen_tzdata.py:151-164 | fixed, last, on-or-after and on-or-before rule days are the nearest day of that weekday on the stated side |
| DeltaStore.Pool.Ref | tools/gen_intl_dates.py:155-163 | a string is stored once, readable at a reference that never changes |
| DeltaStore.TextStored | crates/goro-ext-intl/src/datefmt/data.rs:69-73 | a stored string reads back |
| DeltaStore.Search | crates/goro-ext-intl/src/datefmt/data.rs:124-137 | the binary search finds a record's entry for the key, or that there is none |
| DeltaStore.Lookup | crates/goro-ext-intl/src/datefmt/data.rs:114-143 | the reader's loop is the walk of the base chain, tombstones included, and ends |
| DeltaStore.RecordSays | tools/gen_intl_dates.py:36-38 | a difference over a base that says its dictionary says the new dictionary |
| DeltaStore.Builder.Diff | tools/gen_intl_dates.py:216-226 | exactly the changed and new keys with their values and the removed keys with tombstones, sorted, and nothing else |
| DeltaStore.Builder.Choose | tools/gen_intl_dates.py:249-258 | the difference from the first candidate with the fewest entries, or the whole dictionary without candidates |
| DeltaStore.PickSmallest | tools/gen_intl_dates.py:249-253 | the loop keeps the first of the smallest |
| DeltaStore.Builder.Build | tools/gen_intl_dates.py:235-269 | keeps the store consistent and every finished section on its smallest difference, never changes what was built, and ends; a section without data has no record |
| DeltaStore.Builder.SmallestDifference | tools/gen_intl_dates.py:249-269 | every finished section with candidates is its smallest difference, on the record of the first such candidate |
| DeltaStore.Builder.WithoutBase | tools/gen_intl_dates.py:254-256 | every other finished section is held in full |
| DeltaStore.Builder.AgreesWithData | tools/gen_intl_dates.py:28-38 | walking a section's record finds each key's string, or nothing exactly when the key is absent |
| DeltaStore.Builder.BuildAll | tools/gen_intl_dates.py:271-274 | a row for every locale with a record number or the marker for every section |
| DeltaStore.Builder.RowsAgree | tools/gen_intl_dates.py:28-38 | for every locale, section and key of the finished rows, the marker stands exactly for missing data and any other number leads to the key's string or to nothing |
| DeltaStore.TruncationEnds | tools/gen_intl_dates.py:179-189 | every locale's chain of parents ends when the chains of the locales with explicit parents do |
| DeltaStore.ParentsRooted | tools/gen_intl_dates.py:179-189 | those chains then give the rank by which every recursion over parents ends |
| DeltaStore.RootedEnds | tools/gen_intl_dates.py:179-189 | and any such rank bounds the length of every chain |
| DotSegments.PopSegment | crates/goro-ext-curl/src/url.rs:444-449 | cutting at the last slash pops the stack |
| DotSegments.RemoveDotSegments | crates/goro-ext-curl/src/url.rs:404-442 | the byte loop is the evaluation of the path's segments on a stack, and ends |
| DotSegments.NoDotSegments | crates/goro-ext-curl/src/url.rs:404-442 | the result has no "." or ".." segment |
| DotSegments.Unchanged | crates/goro-ext-curl/src/url.rs:404-442 | a path without such segments is unchanged |
| DotSegments.Idempotent | crates/goro-ext-curl/src/url.rs:404-442 | twice is once |
| DotSegments.StaysAbsolute | crates/goro-ext-curl/src/url.rs:404-442 | an absolute path stays absolute |
| Utf16.FastUtf16To8 | crates/goro-charset/src/convert.rs:157-199 | succeeds exactly on the bytes that serialize the UTF-16 of some scalars in the given byte order, and writes the UTF-8 of those scalars, at most three bytes per unit |
| Utf16.InputEncodes | crates/goro-charset/src/convert.rs:157-160 | reading units and decoding them finds the scalars that the bytes serialize, in either byte order |
| Utf16.ReadSerializes | crates/goro-charset/src/convert.rs:158-160 | every input of even length is the serialization of the units read from it |
| Utf16.DecodeIff | crates/goro-charset/src/convert.rs:163-193 | well formed means the encoding of some scalars, and of only those |
| Utf16.OutputDecodes | crates/goro-charset/src/convert.rs:166-193 | decoding the output gives the scalars of the input |

## Left out

- The `puremp` big-integer library: its division, modular power and square root are taken as exact operations on mathematical naturals (`Dividing.ToNat`, `Powers.ModPow`, `Powers.Isqrt`).
- Dividing.DivInto: the floating-point estimate of the short-quotient tier is a parameter of any 64-bit value, so nothing is said about how close it is.
- How the floating-point code computes its logarithm bounds: they are parameters of any value, of which `Within` states an accuracy where a result needs one; infinities and not-a-number are not modelled.
- Floats.WithinOne: rounding is a relative error of at most 2^-53 per operation, integers up to 2^53 being exact; the choice among such reals is left open.
- Limits of the thread (`max_result_len`) and the default scale are parameters; scratch buffers, inline or heap storage of texts, and stack or heap accumulators differ only in where bytes live.
- `copy_small` is modelled as a plain copy; its overlapping fixed-width moves are not.
- The branch of the Karatsuba step for a shorter operand of at most half the longer one cannot be reached, and is not modelled.
- Error values keep their kind and refused size; PHP's message texts do not appear.
- A literal with 2^32 or more fraction digits, whose scale would not fit the 32-bit field of a `Number`.
- The `bc*` functions other than the four basic operations, `++`, `--`, `floor` and `ceil`: each only combines modelled operations.
- DeltaStore.Builder.AgreesWithData: holds while pool offsets and record numbers stay below the marker value 0xFFFFFFFF, which the code does not check; the explicit parent locales must lead to the root, which `DeltaStore.ParentsRooted` reduces to the listed ones.
- The byte layout of the locale blob, its compression, the file readers, the order of the locales' rows and the search for one, and the fall-back to a parent locale's row when a section has no record.
- The rest of the time-zone compiler: sources, rules, transitions and tables.
- URL parsing and resolution around dot-segment removal, and the rest of the cookie jar.
- The conversion from UTF-8 to UTF-16, which is done by libraries, and all table-driven encodings.
