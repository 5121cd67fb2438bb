# Verified models of the Infiltratr common library

This project models the parts of the Infiltratr common C library whose correctness is hard to see from
one function body, and proves what the library promises about them.  Each core source file keeps its own
form: code that works in place is modelled by classes, arrays and loops and proved against specification
functions; straight-line arithmetic is modelled by functions; protocols are modelled as transition systems.

| component | files | what is proved |
|---|---|---|
| `src/core.c`, decimal text to binary64 | `Powers`, `Rounding`, `Binary64`, `Limbs`, `BigUInt`, `DecimalDigits`, `BigRatio`, `ExactDecimal`, `Scaling`, `DecimalExponents`, `DecimalToBinary`, `Ascii`, `Texts`, `DecimalText`, `ParseDouble`, `WrittenNumbers` | For text of any length, parsing accepts exactly the numerals of the grammar that are zero or round to a nonzero finite datum, consumes exactly the numeral, and returns the datum nearest to its exact rational value, ties to even (IEEE 754-2019, sections 3.4, 4.3.1 and 5.12).  800 digits and a sticky bit lose nothing, and the 160-limb workspace is never exhausted. |
| `src/timing.c`, `src/arithmetic.c`, 64-bit rational time | `MachineIntegers`, `WideDivision`, `FixedStep`, `Timing` | Exact `a * b / d` without a 128-bit product; a scheduler whose rational phase never drifts over any run; least partition boundaries and periodic deadlines. |
| `src/quantity.c`, binary quantities | `DecimalInteger`, `Quantity`, `WrittenQuantities` | Accepts exactly the texts whose exact value is an integer of at most 64 bits; suffixes and exponents by their characters. |
| `src/temporal_clock.c`, `src/temporal_calendar_posix.c`, civil dates | `Calendar` | Two independent closed forms, date to Julian day number and day number to date, are inverse both ways. |
| `include/infiltratr/utf8.h` | `Utf8` | The validator accepts exactly the concatenations of encoder outputs, and the decomposition is unique (RFC 3629, sections 3 and 4). |
| `src/escape.c` | `Escape`, `Csv` | Two-pass escapers write exactly what they measured and are undone by independent readers (RFC 8259 section 7, RFC 3986 sections 2.1 and 2.3, RFC 4180 section 2). |
| `src/graphics.c` | `Colours`, `Images`, `Surfaces` | Clipped and scaled blits and window copies give every pixel the value of a naive signed-coordinate description, also onto the source itself. |
| `src/temporal_runtime.c` | `Catalogue`, `CatalogueProtocol` | Once-only initialisation in every interleaving of callers; all-or-nothing tables; identifiers that find their own entries. |
| `src/i18n.c` | `Locale`, `Messages`, `Translations` | Canonical locale names, bounded interpolation, catalogue lookup and fallback. |
| `src/temporal.c`, `src/config.c`, `include/infiltratr/temporal_id.h` | `ConfigLines`, `TemporalId`, `Coordinates`, `PolicyDocument`, `PolicyMeaning`, `PolicyCodec` | Version 3 policy documents: exactly which documents are accepted and with what policy; write-then-read gives the same policy, and the order of the lines does not matter. |
| `src/posix.c`, deadlines | `Deadline` | A deadline n milliseconds away reports exactly n, and never more later. |

## Conventions of the model

- A binary64 magnitude is a natural number of units of 2^-1074; a rational is a numerator and a denominator
  in that unit.  Rounding is stated as integer inequalities against every representable magnitude.
- Hosts are 64-bit: `size_t`, `uint64_t` and `uintmax_t` have the same range, `time_t` is a signed 64-bit
  integer.  Wrap-around, saturation and truncating division are written out where the code relies on them.
- Bitwise combinations of disjoint fields are written as sums, shifts as products and quotients, masks as
  remainders.
- Text is at most `SIZE_MAX / 2` bytes long where the code's size arithmetic relies on the C object limit,
  and does not contain its own terminator.
- An output that stays unchanged on failure is an in/out pair, or absent from the result.
- Branches that the code guards against but that can never be taken (an exhausted big-integer workspace, a
  failing cycle partition, a scratch buffer that is too small) are asserted unreachable in the models.
- A clock sample, the result of a directory scan, the success of an allocation and the tables of built-in
  entries are parameters.
- Loops are sometimes split into helper methods (one limb, one digit, one pixel row); the helpers have no
  counterpart of their own in the source.
- `include/infiltratr/temporal_id.h` documents identifiers as words separated by single hyphens, but its
  validator accepts doubled ones; the model follows the code, and `TemporalId` states exactly where the two
  differ.
- The transparent shortcut of the blend skips the general formula; the two agree exactly when the
  destination is visible or wholly zero (`Colours.TransparentKeepsDestination`).

## Model

| member | source | states |
|---|---|---|
| Limbs.NormalFormIff | src/core.c:342-347 | no leading zero limb is exactly the form whose length cannot shrink |
| Limbs.TopDifferenceDecides | src/core.c:414-425 | equally long numbers are ordered by their first differing limb from the top |
| Limbs.BitLengthByTop | src/core.c:401-412 | the bit count of a normalised number is 32 per lower limb plus the bits of the top limb |
| BigUIntWorkspace.BigUInt.Normalise | src/core.c:342-347 | drops leading zero limbs, keeping the value |
| BigUIntWorkspace.BigUInt.MultiplyAddSmall | src/core.c:349-367 | multiplies by a limb and adds a limb; fails exactly when the result exceeds the workspace |
| BigUIntWorkspace.BigUInt.SetOne | src/core.c:379-385 | the value becomes one |
| BigUIntWorkspace.BigUInt.BitCount | src/core.c:401-412 | returns the number of binary digits of the value |
| BigUIntWorkspace.BigUInt.Compare | src/core.c:414-425 | its sign orders the two values |
| BigUIntWorkspace.BigUInt.ShiftLeft | src/core.c:427-458 | multiplies by a power of two, or leaves the value alone when the capacity check refuses |
| BigUIntWorkspace.BigUInt.ShiftRightOne | src/core.c:460-469 | halves the value |
| BigUIntWorkspace.BigUInt.Subtract | src/core.c:471-483 | subtracts a value that is not larger, borrows included |
| BigRatio.FromDecimalDigits | src/core.c:369-377 | loads a digit string; fails exactly for zero and for values that do not fit |
| BigRatio.MultiplyByPowerOfFive | src/core.c:387-399 | multiplies by 5^n; fails exactly when the product does not fit |
| BigRatio.PowerFive | src/core.c:392-399 | computes 5^n; fails exactly when it does not fit |
| BigRatio.RatioAtLeastPowerTwo | src/core.c:485-500 | compares a ratio with a power of two, reading an exhausted workspace as less |
| BigRatio.DivideU64 | src/core.c:502-533 | numerator = quotient * denominator + remainder with remainder < denominator, exactly when the shift stays below 64 |
| BigRatio.DivideLoop | src/core.c:515-533 | restoring division, one quotient bit per exact halving of the divisor |
| Rounding.RoundingExists | include/infiltratr/core.h:223-236 | every rational has a correct rounding |
| Rounding.RoundingUnique | include/infiltratr/core.h:223-236 | and only one: nearest with ties to even is a function of the rational |
| Rounding.EvenGap | src/core.c:725-731 | two magnitudes with even significands are never neighbours, so a tie has one even candidate |
| Rounding.RoundAt | src/core.c:701-731 | dividing at the right binade and rounding half to even is correct rounding |
| Binary64.SignificandAtBinade | src/core.c:733-758 | k * 2^52 + m denotes m * 2^k for normal and subnormal data and across the carry into the next binade |
| Binary64.DatumUnique | include/infiltratr/core.h:223-236 | a finite datum is determined by sign and magnitude |
| Binary64.FormatWidths | src/core.c:651-724 | sign, exponent and fraction take 1, 11 and 52 bits |
| Binary64.OneIsOne | src/core.c:651-724 | the unit of magnitudes is 2^-1074: the datum 0x3FF0000000000000 is one |
| Binary64.RoundedDatumIsNearest | include/infiltratr/core.h:223-236 | no finite datum is nearer than the rounded one, and on a tie the rounded one is even |
| ExactDecimal.RoundedMoveZeros | src/core.c:842-851 | moving trailing zeros between coefficient and exponent does not change the rounding |
| ExactDecimal.LargeOrderOverflows | src/core.c:651-663 | a decimal order of 309 or more overflows |
| ExactDecimal.SmallOrderVanishes | src/core.c:651-663 | a value below 10^-324 rounds to zero |
| Scaling.BitDifference | src/core.c:686-699 | the difference of bit lengths is the binary order of a ratio or one too large |
| Scaling.UnitIdentity | src/core.c:674-714 | powers of five and the scaling shift together make 10^e in units of 2^-1074 |
| DecimalExponents.Combine | src/core.c:535-580 | exponent - fraction digits + adjustment, exact on every size_t input; absent exactly when the sum is out of range |
| DecimalExponents.AddPositive | src/core.c:582-603 | the same for one more addend |
| DecimalToBinary.FiveRatioBits | src/core.c:307-325 | every coefficient inside the decimal-order gate gives a ratio of fewer than 2671 bits |
| DecimalToBinary.BuildRatio | src/core.c:664-684 | builds the exact ratio; the workspace is never exhausted |
| DecimalToBinary.BinaryOrder | src/core.c:686-699 | finds the binary order: 2^order <= numerator / denominator < 2^(order + 1) |
| DecimalToBinary.ScaleRatio | src/core.c:701-714 | scales one side by a power of two, within the workspace |
| DecimalToBinary.ScalingWorks | src/core.c:701-714 | the chosen scaling puts the quotient into its binade, normal or subnormal, and fits the workspace |
| DecimalToBinary.RoundDivide | src/core.c:716-731 | divides and rounds half to even, the sticky bit counting as more than a tie |
| DecimalToBinary.ExactCoefficient | src/core.c:664-731 | without a sticky tail the rounded quotient is the correct rounding of the coefficient |
| DecimalToBinary.FullCoefficientScalesDown | src/core.c:307-325 | with 800 digits kept the divisor is always scaled up, so binades and midpoints are multiples of the retained unit |
| DecimalToBinary.TailDecidesNothing | src/core.c:722-731 | over an even divisor a nonzero tail neither creates nor resolves a tie |
| DecimalToBinary.StickyCoefficient | src/core.c:307-325 | the truncated coefficient with its sticky bit rounds like the full digit string |
| DecimalToBinary.Assemble | src/core.c:733-764 | packs a rounded significand, renormalising a carry and refusing overflow and zero |
| DecimalToBinary.AssembleMeaning | src/core.c:733-764 | what is accepted is exactly what is nonzero and finite, and the bits denote it |
| DecimalToBinary.AboveGate | src/core.c:651-663 | what the gate rejects as too large overflows, whatever was truncated |
| DecimalToBinary.BelowGate | src/core.c:651-663 | what the gate rejects as too small rounds to zero, whatever was truncated |
| DecimalToBinary.QuotientIsRounding | src/core.c:664-731 | inside the gate the rounded quotient is the correct rounding of all the digits |
| DecimalToBinary.ConversionCorrect | src/core.c:664-764 | from ratio and binary order to the assembled datum, in natural numbers |
| DecimalToBinary.Binary64FromDecimal | src/core.c:643-765 | succeeds exactly for values that round to a nonzero finite datum, and returns that datum |
| DecimalText.ScanReadsSpelling | src/core.c:767-831 | every way of writing a numeral is scanned back into its parts |
| DecimalText.ScannedIsSpelling | src/core.c:767-831 | whatever is scanned is a numeral of the grammar, and the scan stops where it ends |
| ParseDouble.DigitBuffer.ConsumeDigits | src/core.c:782-821 | consumes a digit run, keeping 800 significant digits, the counters and the sticky bit |
| ParseDouble.DigitBuffer.StripTrailingZeros | src/core.c:842-851 | strips trailing zeros off the kept digits and counts them |
| ParseDouble.ParseDecimalExponent | src/core.c:605-641 | reads an exponent of any length, or notes that it exceeds a size_t |
| ParseDouble.ReadNumeral | src/core.c:767-831 | the scanning half agrees with the grammar and summarises all digits read |
| ParseDouble.ExponentOutOfReach | src/core.c:837-857 | a value rejected because its exponent does not fit would overflow or vanish |
| ParseDouble.ConvertDigits | src/core.c:833-862 | from the summarised digits to the datum: accepted exactly when in range |
| ParseDouble.ParseDoublePrefix | src/core.c:767-867 | accepts exactly the in-range numerals of the grammar, consumes exactly the numeral, and rounds all its digits correctly |
| ParseDouble.ParsedIsNearest | include/infiltratr/core.h:223-236 | no finite datum is nearer to the text's exact value than the parsed one; ties go to even |
| ParseDouble.ParseDoubleToken | src/core.c:869-882 | moves the cursor past the numeral, or leaves cursor and value alone |
| ParseDouble.ParseDoubleText | src/core.c:884-897 | accepts one numeral between spaces and leaves the value alone otherwise |
| WrittenNumbers.WrittenIsRounded | src/core.c:726-882 | a written number is read as a datum exactly when the datum is finite, has the written sign and is the correct rounding of digits * 10^(exponent - fraction digits), taken from the characters, and is no zero standing for a nonzero value |
| WrittenNumbers.WrittenIsNearest | src/core.c:726-882 | no finite datum is nearer to that written value, ties to even |
| WrittenNumbers.ExponentMovesPoint | src/core.c:606-641 | an exponent without a sign or with a plus moves the point to the right and one with a minus to the left: the number with the point moved and zeros filled in has the same outcome and datum |
| WrittenNumbers.RaisedWhole | src/core.c:606-641 | whole digits with e or e+ and n parse like the digits with n zeros appended |
| WrittenNumbers.LoweredWhole | src/core.c:606-641 | whole digits with e- and n parse like the digits with the point n places further left |
| MachineIntegers.U64MultiplyChecked | src/arithmetic.c:85-91 | the product, exactly when it fits |
| MachineIntegers.I64AddChecked | src/arithmetic.c:22-29 | the sum, exactly when it fits |
| MachineIntegers.I64MultiplyChecked | src/arithmetic.c:31-54 | the product, exactly when it fits, for every combination of signs |
| MachineIntegers.I64AddSaturating | src/arithmetic.c:56-61 | the sum clamped to the 64-bit range |
| MachineIntegers.I64SubtractSaturating | src/arithmetic.c:63-68 | the difference clamped to the 64-bit range |
| MachineIntegers.I64MultiplySaturating | src/arithmetic.c:70-75 | the product clamped to the 64-bit range |
| MachineIntegers.SizeAddChecked | src/arithmetic.c:93-98 | the sum of two sizes, exactly when it fits |
| MachineIntegers.I64FloorDivMod | src/arithmetic.c:7-20 | floor quotient and non-negative remainder for every positive divisor |
| MachineIntegers.U64MultiplySaturating | src/core.c:929-932 | the product clamped to the 64-bit range |
| MachineIntegers.Widths | src/arithmetic.c:7-98 | the ranges are those of 64-bit integers |
| WideDivision.ProductDivMod | src/timing.c:24-112 | exact quotient and remainder of a * b by d; fails, for valid arguments, exactly when the true quotient exceeds 64 bits |
| WideDivision.DivideByDoubling | src/timing.c:60-111 | the doubling loop, in which neither the product nor a doubled remainder is formed |
| WideDivision.AddPair | src/timing.c:64-80 | adding a quotient/remainder pair fails only when the true quotient does not fit |
| WideDivision.DoublePair | src/timing.c:87-102 | doubling the pair fails only when the true quotient does not fit |
| FixedStep.Scheduler.Configure | src/timing.c:121-144 | accepts exactly the usable configurations and starts uninitialised |
| FixedStep.Scheduler.Reset | src/timing.c:146-160 | restarts the phase at a tick, exactly for a usable configuration |
| FixedStep.Scheduler.Advance | src/timing.c:162-240 | fails exactly on an invalid state and then changes nothing; otherwise performs the exact rational step |
| FixedStep.AdvancesAccounts | src/timing.c:162-240 | read off the inputs: clamped ticks are exactly the excess over the longest interval, (steps run + dropped) * ticks + phase is min(elapsed, limit) * steps + old phase, and first samples and backward clocks restart; the result is determined by this |
| FixedStep.PhaseCarry | src/timing.c:207-227 | adding the phase carries at most once and cannot overflow, so the arithmetic-failure branches are dead |
| FixedStep.RunsStayValid | src/timing.c:162-240 | validity, configuration and the step limit survive every run, clock resets included |
| FixedStep.AdvanceConserves | src/timing.c:162-240 | one advance conserves (steps run + dropped) * ticks + phase |
| FixedStep.PhaseNeverDrifts | src/timing.c:162-240 | over any run between resets, steps and phase account exactly for the unclamped time |
| FixedStep.ClampedIsExcess | src/timing.c:197-205 | the clamped ticks of a run are the sum of the excesses of its samples |
| FixedStep.RunAccounts | src/timing.c:162-240 | so the totals of a run are fixed by its first state and its samples |
| FixedStep.BatchingIrrelevant | src/timing.c:162-240 | how the ticks are batched changes neither the totals nor the final state |
| Timing.CyclePartition | src/timing.c:295-330 | succeeds for every nonzero cycle and count with an output wanted; reports the part and the distance to its end |
| Timing.BoundaryDistance | src/timing.c:312-328 | the rounded-up distance ends exactly at the next boundary and never passes the cycle end |
| Timing.NextBoundaryIsLeast | src/timing.c:295-330 | every smaller distance stays short of the boundary |
| Timing.LiesInPart | src/timing.c:295-330 | the reported part is the one the position lies in |
| Timing.PeriodRemaining | src/timing.c:279-293 | the distance to the next multiple of the period, for positions of either sign |
| Timing.NextOccurrenceIsLeast | src/timing.c:371-396 | the computed occurrence is the least one strictly after now |
| Timing.UnexpiredMovesOnce | src/timing.c:382-383 | an unexpired deadline moves on by exactly one interval |
| Timing.PeriodicDeadlineAdvance | src/timing.c:371-396 | a late deadline moves to that occurrence, or to 2^64 - 1 when it is not representable |
| DecimalIntegers.DecimalInteger.Reserve | src/arithmetic.c:108-135 | grows geometrically, keeping the contents |
| DecimalIntegers.DecimalInteger.AppendForward | src/quantity.c:52-59 | appends one digit |
| DecimalIntegers.DecimalInteger.NormaliseToLittleEndian | src/quantity.c:61-79 | drops leading zeros and reverses in place |
| DecimalIntegers.DecimalInteger.Reverse | src/quantity.c:68-79 | the in-place reversal |
| DecimalIntegers.DecimalInteger.MultiplySmall | src/quantity.c:81-98 | multiplies the little-endian value in place |
| DecimalIntegers.DecimalInteger.ToU64 | src/quantity.c:100-120 | reads the value without its low digits, exactly when those are zero, some digit is left and the rest fits |
| Quantity.DecimalShift | src/quantity.c:206-226 | exponent minus fraction digits, absent exactly when it does not fit |
| Quantity.ReadRecovers | src/quantity.c:228-254 | any number and suffix written with spaces around them are read back |
| Quantity.ReadIsWritten | src/quantity.c:228-254 | whatever is read was written that way, with the maximal alphabetic suffix |
| Quantity.NumberEnds | src/quantity.c:241-254 | a number never ends in a letter, so the suffix is the whole alphabetic run |
| Quantity.ParseDecimalInteger | src/quantity.c:155-204 | accepts exactly the numbers of the grammar and leaves their significant digits little-endian |
| Quantity.ShiftDownExact | src/quantity.c:100-120 | removing low digits succeeds exactly when the shifted value is an integer |
| Quantity.ShiftToU64 | src/quantity.c:305-331 | the shifted digits as a 64-bit integer, exactly when they are one |
| Quantity.ExponentTooFar | src/quantity.c:284-303 | an exponent out of reach denotes no 64-bit integer, whatever the suffix |
| Quantity.ParseBinaryQuantity | src/quantity.c:228-336 | succeeds exactly when the exact value is an integer of at most 64 bits, and returns it |
| Quantity.QuantityUnique | src/quantity.c:228-336 | a text denotes at most one integer |
| Quantity.SuffixMeans | include/infiltratr/quantity.h:13-28 | a suffix stands for 1024^p exactly when it is the p-th letter of k, m, g, t, p, e in either case, alone or with b or ib; nothing and b stand for bytes; no other suffix is known |
| WrittenQuantities.WrittenIsWorth | src/quantity.c:228-336 | a number with a suffix is read as v exactly when v fits in 64 bits and digits * 1024^power * 10^exponent is v * 10^(fraction digits), taken from the characters |
| WrittenQuantities.ReadsOnlyWritten | src/quantity.c:228-336 | whatever is accepted is an unsigned number with such a suffix and optional spaces |
| WrittenQuantities.WholeWithSuffix | src/quantity.c:228-336 | n with a suffix of power p is n * 1024^p, accepted exactly when that fits |
| WrittenQuantities.ExponentMovesPoint | src/quantity.c:155-226 | a written exponent moves the point, by its sign, whatever suffix follows |
| Calendar.FloorDivide | src/temporal_calendar_posix.c:20-31 | truncating division corrected to the floor |
| Calendar.MarchForm | src/temporal_calendar_posix.c:56-73 | the Julian day number counted in March-based years |
| Calendar.YearOfEra | src/temporal_clock.c:185-188 | the closed form for the year of a 400-year era undoes the day count |
| Calendar.FromDaysInvertsToJdn | src/temporal_clock.c:180-196 | days-to-date applied to the Julian day number gives back every valid date |
| Calendar.ToJdnInvertsFromDays | src/temporal_calendar_posix.c:56-73 | and the other way round, on every day number |
| Calendar.JdnStepsByOne | src/temporal_calendar_posix.c:38-73 | the Julian day number rises by exactly one per calendar day |
| Calendar.DateOfJdn | src/temporal_calendar_posix.c:56-73 | every day number belongs to a valid date |
| Calendar.EpochJdn | src/temporal_calendar_posix.c:20-73 | the Unix epoch is Julian day 2440588 |
| Calendar.LeapTestsAgree | src/temporal_clock.c:198-198 | the two differently written leap-year tests agree |
| Calendar.DayOfYearSucceeds | src/temporal_clock.c:154-208 | never fails; reports the ordinal day and leap flag of the instant's civil date |
| Calendar.DayOfYearTable | src/temporal_clock.c:198-207 | the table lookup equals the count of days month by month |
| Calendar.OrdinalMatchesDate | src/temporal_clock.c:154-208 | the ordinal day is the Julian day number distance from 1 January |
| Calendar.LocalMicrosecondsOfDay | src/temporal.c:103-123 | the exact local phase of the day for every instant and offset, without overflow |
| Utf8.EncodeCodepoint | include/infiltratr/utf8.h:87-124 | writes the encoding of a scalar value when it fits, and nothing otherwise |
| Utf8.Spell | include/infiltratr/utf8.h:93-116 | the encoding of every scalar value, and nothing for surrogates and values beyond the range |
| Utf8.SpelledOut | include/infiltratr/utf8.h:93-116 | the four written-out branches are the six-bits-at-a-time encoding |
| Utf8.EncodingShape | include/infiltratr/utf8.h:36-72 | an encoding has the lead byte, continuation bytes and folded value that the validator tests |
| Utf8.ShapeIsEncoding | include/infiltratr/utf8.h:36-72 | and nothing else passes those tests |
| Utf8.Validate | include/infiltratr/utf8.h:29-76 | accepts exactly the byte strings that concatenate encodings of scalar values |
| Utf8.FirstDetermined | include/infiltratr/utf8.h:29-76 | no encoding is a proper prefix of another |
| Utf8.DecompositionUnique | include/infiltratr/utf8.h:29-76 | a text decomposes into scalar values in one way only |
| Utf8.Utf8BySyntax | include/infiltratr/utf8.h:29-76 | valid texts are exactly those made of the byte ranges of the syntax in section 4 of RFC 3629 |
| Escape.EncodedLength | src/escape.c:22-50 | the length table agrees with what is emitted |
| Escape.Measure | src/escape.c:52-61 | the exact output size with terminator, or failure when a size_t cannot hold it |
| Escape.EmitHtml | src/escape.c:69-85 | writes the replacement of one byte at the cursor and nothing else |
| Escape.EmitJson | src/escape.c:87-107 | writes the JSON escape of one byte at the cursor and nothing else |
| Escape.EmitUri | src/escape.c:109-119 | writes one byte or its percent encoding at the cursor and nothing else |
| Escape.EmitAll | src/escape.c:137-146 | writes exactly the escaped text and its terminator |
| Escape.Transform | src/escape.c:121-146 | two passes: succeeds exactly when the measured size fits, and leaves at most an empty string otherwise |
| Escape.UnescapeInverts | src/escape.c:148-164 | every escaped text is read back by the reader of its format |
| Escape.EscapingInjective | src/escape.c:148-164 | different texts never escape alike |
| Escape.OutputHarmless | src/escape.c:69-119 | no angle bracket or quote (HTML), control character (JSON) or reserved character (URI) survives |
| Escape.UnchangedIff | src/escape.c:22-50 | a text is left as it is exactly when no character needs an escape, character by character for each format; any other byte grows |
| Escape.UriOutput | src/escape.c:109-119 | URI output holds letters, digits, - . _ ~ and percent signs only |
| Escape.PercentEscape | src/escape.c:109-119 | any other byte becomes a percent sign and its two upper-case hexadecimal digits |
| Escape.HtmlReferences | src/escape.c:69-85 | which reference stands for which markup character |
| Escape.JsonShortEscapes | src/escape.c:87-107 | which short escape stands for which character (section 7 of RFC 8259) |
| Csv.FormulaCandidate | src/escape.c:166-179 | finds exactly the inputs whose sanitised value starts a formula |
| Csv.FieldReads | include/infiltratr/escape.h:36-50 | the written field reads back as one quoted field equal to the sanitised input |
| Csv.SanitisedEach | include/infiltratr/escape.h:33-50 | a tab becomes one space, other C0 controls and DEL vanish, every other byte stays |
| Csv.LeadAfterSpaces | src/escape.c:166-179 | a formula starts with = + - or @ after any spaces |
| Csv.SafeFieldIsNoFormula | include/infiltratr/escape.h:36-50 | in spreadsheet-safe mode no value read back starts a formula |
| Csv.FieldStaysOnOneLine | include/infiltratr/escape.h:36-50 | no control character is written, so a field cannot break its record |
| Csv.EscapeField | src/escape.c:181-223 | succeeds exactly when the measured size fits and writes exactly the field |
| Colours.UnpackPack | src/graphics.c:171-183 | packing loses nothing |
| Colours.PackUnpack | src/graphics.c:171-183 | unpacking loses nothing |
| Colours.ChannelBytes | src/graphics.c:171-183 | the stored order is alpha, red, green, blue from the most significant byte |
| Colours.Mixed | src/graphics.c:336-347 | a mixed channel lies between its inputs and is the weighted mean to the nearest unit |
| Colours.CompositeBetween | src/graphics.c:325-350 | composited channels stay between the two inputs and opacity never falls |
| Colours.CompositeIsMean | src/graphics.c:325-350 | every channel is the mean weighted by s.a * 255 and d.a * (255 - s.a), rounded to nearest with ties up, and the alpha the exact one to the nearest unit |
| Colours.CompositeUnique | src/graphics.c:325-350 | no other colour is that near |
| Colours.OverNothingIsSource | src/graphics.c:325-350 | a visible source over an invisible destination is the source, alpha included |
| Colours.OverIsMean | src/graphics.c:381-398 | blending leaves a pixel alone under an invisible source and otherwise stores that mean |
| Colours.CompositeAlphaNearest | src/graphics.c:328-335 | the resulting alpha is the exact one to the nearest unit |
| Colours.OpaqueIsSource | src/graphics.c:389-393 | the opaque shortcut equals the general formula |
| Colours.TransparentKeepsDestination | src/graphics.c:385-388 | the transparent shortcut does exactly when the destination is visible or wholly zero |
| Images.AtPut | src/graphics.c:381-398 | writing one pixel changes that pixel and no other |
| Images.DrawnUnique | src/graphics.c:400-513 | the per-pixel description determines the stored pixels |
| Surfaces.ClipAxisSpan | src/graphics.c:21-46 | keeps exactly the positions of a span that fall inside the surface |
| Surfaces.ClipBlitAxis | src/graphics.c:48-91 | keeps exactly the positions that fall inside both surfaces |
| Surfaces.CoordinateFromLocal | src/graphics.c:93-109 | the surface coordinate, exactly when it exists |
| Surfaces.ScaledOffset | src/graphics.c:111-129 | the exact floor of local * source / destination |
| Surfaces.Surface.Resize | src/graphics.c:194-206 | fails exactly for empty or unrepresentable dimensions, leaving the surface alone |
| Surfaces.Surface.BlendPixelAt | src/graphics.c:381-398 | blends one pixel as the general formula would, out-of-range positions ignored |
| Surfaces.SnapshotIfNeeded | src/graphics.c:160-169 | what is read is the source as it was, never storage being drawn on |
| Surfaces.ClippedRegion | src/graphics.c:415-422 | clipping both axes finds everything an unscaled blit can draw |
| Surfaces.VisibleRegion | src/graphics.c:476-483 | clipping the destination alone loses nothing that scaling could reach |
| Surfaces.BlitRegion | src/graphics.c:400-436 | every pixel gets the signed-coordinate description's value, also onto the source itself |
| Surfaces.BlitScaledNearest | src/graphics.c:457-513 | the same for nearest-neighbour scaling: clipping commutes with scaling |
| Surfaces.CopyRegion | src/graphics.c:226-262 | the destination becomes the asked-for window, transparent outside the source, also onto itself |
| Catalogue.Table.Duplicate | src/temporal_runtime.c:246-266 | finds exactly the taken identifiers, built-in or installed |
| Catalogue.Table.Grow | src/temporal_runtime.c:283-294 | doubles the storage keeping the entries, or fails leaving it alone |
| Catalogue.Table.Append | src/temporal_runtime.c:268-355 | skips a duplicate, appends a new entry, or fails leaving the table alone |
| Catalogue.Table.Install | src/temporal_runtime.c:383-404 | the whole accepted scan, or nothing after any failure |
| Catalogue.Table.Count | src/temporal_runtime.c:406-410 | how many entries there are, built-in and installed |
| Catalogue.Table.At | src/temporal_runtime.c:412-422 | built-in entries first, then installed ones |
| Catalogue.Table.Find | src/temporal_runtime.c:424-440 | the first entry with the identifier, a built-in one winning |
| Catalogue.AcceptedDistinct | src/temporal_runtime.c:246-309 | a table never repeats an identifier |
| Catalogue.AcceptedComplete | src/temporal_runtime.c:246-309 | every reported identifier is present afterwards |
| Catalogue.FoundAsReported | src/temporal_runtime.c:268-355 | what is found under a reported identifier is an entry of the scanned kind with the name and, for a clock, the three flags of its first report |
| Catalogue.OnlyReports | src/temporal_runtime.c:268-355 | every installed entry is the report of some scanned module that no built-in entry shadows |
| Catalogue.AcceptedGrows | src/temporal_runtime.c:268-355 | entries stand in the order of their first reports |
| Catalogue.FindOfAt | src/temporal_runtime.c:406-440 | find(at(i).id) is entry i |
| CatalogueProtocol.StepKeepsInv | src/temporal_runtime.c:383-404 | every step of every caller keeps the protocol invariant |
| CatalogueProtocol.ReachableSafe | src/temporal_runtime.c:383-404 | in every interleaving one scanner at most, no read before the tables are ready, and whole scans or nothing |
| CatalogueProtocol.SnapshotStable | src/temporal_runtime.c:383-440 | once ready the tables never change |
| CatalogueProtocol.ReadersAgree | src/temporal_runtime.c:406-476 | any two readers at any two moments see the same catalogue |
| CatalogueProtocol.ReaderFindsEntries | src/temporal_runtime.c:406-476 | what a reader sees has distinct identifiers, each finding its own entry |
| CatalogueProtocol.NeverStuck | src/temporal_runtime.c:95-109 | a waiting caller can act or the one initialising caller can |
| Locale.ReadTag | src/i18n.c:15-40 | copies the folded tag, exactly when it is well formed and fits |
| Locale.RecaseAll | src/i18n.c:42-59 | recases every segment after the language in place |
| Locale.Normalise | src/i18n.c:8-61 | the one spelling of a locale name that has one that fits, else an empty string |
| Locale.NormalisedTwice | src/i18n.c:8-61 | normalising is idempotent |
| Locale.NormalisedAlike | src/i18n.c:8-61 | two names normalise alike exactly when their tags agree but for case and separator |
| Locale.NormalisedLetters | src/i18n.c:42-59 | letter by letter: the folded tag with both letters of two-letter segments and the first of four-letter ones in capitals, the language excepted |
| Locale.FoldedTag | src/i18n.c:18-36 | the folded tag is the name up to its encoding or modifier, capitals lowered, underscores turned into hyphens |
| Locale.WellFormedJoin | src/i18n.c:18-40 | joining by one separator keeps and reflects well-formedness |
| Locale.WellFormedSegment | src/i18n.c:18-40 | a single segment is well formed exactly when it is non-empty and alphanumeric |
| Locale.TailIgnored | src/i18n.c:20-21 | an encoding or modifier after the tag changes nothing |
| Messages.AppendBytes | src/i18n.c:219-234 | counts everything, writes what fits, and sticks at SIZE_MAX |
| Messages.Format | src/i18n.c:236-271 | the same required length at every capacity, and a buffer holding exactly as much of the expansion as fits |
| Messages.PlaceholderExpands | src/i18n.c:245-262 | an inserted value stands in the result as it is and is not rescanned |
| Messages.PlainExpands | src/i18n.c:245-265 | text without placeholders is its own expansion |
| Messages.UnclosedExpands | src/i18n.c:245-265 | an opening brace that is never closed is plain text with everything after it |
| Messages.FirstArgumentCounts | src/i18n.c:205-217 | the first complete argument with a name gives its value |
| Translations.FindExact | src/i18n.c:79-91 | the first catalogue with that canonical name |
| Translations.FindLanguage | src/i18n.c:93-108 | a catalogue of the bare language if any, else the first variant |
| Translations.Context.Configure | src/i18n.c:151-176 | succeeds exactly for a usable table and fallback, and clears the context otherwise |
| Translations.Context.SetLocale | src/i18n.c:178-185 | keeps a canonical locale even without a catalogue for it |
| Translations.Context.Get | src/i18n.c:192-203 | locale, then language, then fallback locale, then the key |
| Translations.FallbackCovers | src/i18n.c:192-203 | a key the fallback language translates is translated in every locale |
| Translations.TranslationSound | src/i18n.c:192-203 | a result is some catalogue's value for that key, or the key itself |
| Translations.ExactWins | src/i18n.c:120-128 | a catalogue of the exact locale decides its keys |
| Translations.BareLanguageWins | src/i18n.c:93-108 | the first catalogue of the bare language wins, also over variants at earlier positions |
| Translations.FirstVariantServes | src/i18n.c:93-108 | without one the variant at the first position serves |
| Translations.ExactAt | src/i18n.c:79-91 | the catalogue at the first position with the canonical name is the exact one |
| Translations.LanguageEnds | src/i18n.c:63-77 | the language is what stands before the first hyphen |
| Translations.LookupOrder | src/i18n.c:120-128 | the first of exact, language, exact fallback, fallback language that has the key decides; without any the key is returned |
| Translations.NameFits | include/infiltratr/i18n.h:22 | only canonical names of at most 31 characters are used |
| Translations.SpellingIrrelevant | src/i18n.c:178-185 | different spellings of one locale select the same catalogues |
| ConfigLines.TrimInPlace | src/config.c:16-23 | ends the string in place after trimming both ends, touching nothing else |
| ConfigLines.ParseLine | src/config.c:25-45 | the status matches the line's meaning, and key and value are the trimmed parts left in the buffer |
| ConfigLines.LineOfEntry | src/config.c:25-45 | key=value is an entry of exactly those |
| ConfigLines.LineSplits | src/config.c:25-45 | split at the first separator: nothing before it is invalid, a hash makes a comment, otherwise the trimmed sides are key and value |
| ConfigLines.LineWithout | src/config.c:25-45 | without a separator a line is blank, a comment or invalid |
| ConfigLines.TrimmedIs | src/config.c:16-23 | trimming takes off exactly the surrounding spaces |
| ConfigLines.EqualIgnoringCase | src/ascii_internal.h:47-63 | equality after lower-casing |
| ConfigLines.ParseBool | src/config.c:47-70 | the truth value of a trimmed word, ignoring case |
| ConfigLines.BoolRoundTrip | src/temporal.c:792-793 | what is written for a truth value reads back as it |
| ConfigLines.WordsHaveValues | src/config.c:47-70 | 1, true, yes and 0, false, no have their truth values in any case between any spaces |
| ConfigLines.OnlyWordsHaveValues | src/config.c:47-70 | nothing else has one |
| Ascii.SpacesByCode | src/ascii_internal.h:8-12 | the six space characters by their codes |
| Ascii.LettersByCharacter | src/ascii_internal.h:37-47 | the letters and their two cases |
| Ascii.DigitsByCharacter | src/ascii_internal.h:20-23 | the digits and their values |
| TemporalId.Validate | include/infiltratr/temporal_id.h:31-49 | accepts exactly the identifiers of letters, digits and inner hyphens that fit |
| TemporalId.ValidatorMeetsDocumentation | include/infiltratr/temporal_id.h:20-30 | the validator is as strict as its documentation exactly on identifiers without doubled hyphens |
| TemporalId.DoubledHyphenAccepted | include/infiltratr/temporal_id.h:20-49 | it accepts a--b, which the documentation excludes |
| Coordinates.ParseCoordinate | src/core.c:899-908 | the nearest datum to the text, exactly when it lies within the limits |
| Coordinates.AtMostIsWithin | src/core.c:904-905 | comparing the bits is comparing the values with the limits |
| Coordinates.CoordinateRoundTrip | src/temporal.c:720-734 | a coordinate in whole millionths of a degree reads back as that very datum |
| PolicyCodec.ReadLine | src/temporal.c:667-684 | one bounded line, split as its meaning says |
| PolicyCodec.ReadVersion | src/temporal.c:445-492 | the version the first version line announces |
| PolicyCodec.TakeLine | src/temporal.c:680-736 | one line fills its field once, or rejects the document |
| PolicyCodec.Parse | src/temporal.c:630-751 | agrees with the document's meaning: all seven fields, each exactly once |
| PolicyCodec.Serialize | src/temporal.c:753-807 | fails only for an unacceptable policy or too small a buffer, leaving the buffer alone |
| PolicyCodec.DocumentShort | src/temporal.c:782-802 | the document always fits the writer's scratch buffer |
| PolicyCodec.DocumentRoundTrip | src/temporal.c:630-807 | writing a policy and reading it back gives the same policy |
| PolicyCodec.DocumentLines | src/temporal.c:782-802 | the seven lines written, in their order |
| PolicyCodec.AcceptedIsSerialisable | src/temporal.c:630-807 | whatever was accepted can be written again |
| PolicyCodec.BuiltinModesValid | src/temporal.c:37-62 | every built-in clock mode has a well-formed identifier |
| PolicyCodec.BuiltinRoundTrip | src/temporal.c:630-807 | the round trip for the built-in clock modes |
| PolicyDocument.StepsCommute | src/temporal.c:680-736 | two lines can change places, failures included |
| PolicyDocument.FoldPermuted | src/temporal.c:664-741 | reading does not depend on the order of the lines |
| PolicyDocument.FoldedVersion | src/temporal.c:445-492 | an accepted document announces version 3 wherever its version line stands |
| PolicyDocument.ParsedUnderPermutation | src/temporal.c:630-751 | a document accepted as version 3 is accepted with the same policy under every permutation of its lines |
| PolicyMeaning.ParsedDescribed | src/temporal.c:630-751 | a document is accepted as version 3 with a policy exactly when every line is short and well formed, each of the seven keys stands on exactly one line, and the values are those of the policy |
| PolicyMeaning.PolicyDescribed | src/temporal.c:664-741 | the same for its lines |
| PolicyMeaning.FirstVersionLine | src/temporal.c:445-492 | the first version line decides the version |
| PolicyMeaning.VersionNumberReads | src/temporal.c:475-485 | a version is a decimal number between spaces |
| PolicyMeaning.MigratedByVersion | src/temporal.c:630-662 | versions 1 and 2, and no others, go to their migrations |
| Deadline.After | src/posix.c:810-842 | the normalised instant n milliseconds on; overflow exactly beyond the last representable second |
| Deadline.Remaining | src/posix.c:844-881 | zero once passed, otherwise the least number of milliseconds that reaches the deadline |
| Deadline.ReportsWhatWasAsked | src/posix.c:810-881 | a deadline n milliseconds away reports exactly n at the same sample |
| Deadline.LaterReportsLess | src/posix.c:844-881 | later samples never report more |
| Deadline.WaitingSuffices | src/posix.c:844-881 | waiting for what is reported reaches the deadline, a millisecond less does not |
| Deadline.NormalForm | src/posix.c:789-808 | every representable instant from the epoch on has exactly one normalised form |

## Left out

- NULL arguments and optional outputs: a caller that passes no pointer gets an early failure in the source; the models take the arguments as present, except where the output buffer's absence is part of the protocol (escapers, message formatting).
- Allocation failure: `realloc` in the quantity parser and in surfaces is taken to succeed; in the runtime catalogue it is an arbitrary flag.
- BigUIntWorkspace.BigUInt.MultiplyAddSmall: the multiplier is taken to be nonzero, as at both of its call sites.
- FixedStep.BatchingIrrelevant: compares runs that drop the same number of clamped ticks, because clamping itself depends on how ticks are batched.
- Escape.UnescapeInverts: the JSON reader takes `\u` escapes up to U+00FF only and the HTML reader two-digit decimal references only, which covers everything the escapers write.
- Coordinates.CoordinateRoundTrip: covers coordinates that are whole millionths of a degree; the `long double` arithmetic of `infiltratr_format_fixed_ascii` is not modelled, its output is the exact decimal text of the millionths.
- PolicyCodec.DocumentRoundTrip: the same restriction on the two coordinates.
- PolicyCodec.Parse: version 1 and 2 documents are only recognised; their migration parsers are not part of the model. The version number is read by a plain decimal parser in place of `strtoull`.
- PolicyCodec.Serialize: the `struct_size` and `version` checks on the record are not modelled.
- CatalogueProtocol.ReachableSafe: steps are sequentially consistent; the acquire and release orderings of the atomic word are taken to provide that.
- Catalogue.Table.Install: a scan is an arbitrary sequence of reported modules with arbitrary failure; opening modules and validating their metadata records is not part of the model.
- Calendar.DayOfYearSucceeds: solar, sidereal, seasonal and Julian-date formatting around it is floating point.
- Bilinear and rotated blits, luma tinting, rectangle fills and blends, circles and the remaining surface operations of `src/graphics.c`.
- `infiltratr_scale_quantity`, `infiltratr_period_remaining`, percentages, rates and most of `src/format.c`: floating point and `snprintf`.
- File, directory, descriptor and atomic-replacement code, dynamic loading, directory scanning, environment lookup: system calls.
- Project information, design tokens, clock wording and built-in tables: constant data.
- Endian helpers, hash mixing, path helpers, plain string helpers: they would add only easy members.
