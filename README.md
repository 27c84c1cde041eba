# Numerology triangle

A model of the calculator at the heart of `class NumerologyTriangle` in
`script.js`. A birth date (year, month, day) is split into eight digits
A..H: the day's tens and units, the month's tens and units, and the four
characters of the year padded to four places. Pairs of digits are added and
reduced to one digit by repeated digit summing. This builds the seven inner
nodes I..O, the nine outer nodes P..X and three codes: the inner code (a
lookup on the apex O), the outer code (S + R + T reduced) and the
subconscious code (L + I + O reduced).

There are two modules:

- `DigitReduction` (`digit_reduction.dfy`) covers decimal digits and
  `reduceToSingleDigit`. The source's loop is the method
  `ReduceToSingleDigit`. It spells the number out in decimal and adds its
  digits left to right until the number is at most 9. Its contract ties it
  to the recursive function `Reduce`. `Reduce` is then proved equal to the
  closed-form digital root `DigitalRoot` (0 for 0, otherwise
  1 + (n - 1) mod 9).
- `NumerologyTriangle` (`numerology_triangle.dfy`) covers `parseDate`, the
  three code calculators and `performCalculation`. They are pure functions
  over datatypes that mirror the returned object. Every call to
  `reduceToSingleDigit` in the triangle is written `DigitalRoot`.
  `ReduceToSingleDigit` and `ReduceIsDigitalRoot` together show it is the
  value the loop returns.

`toString()` of a number is `Digits`, a sequence of digit values with the
most significant digit first. `padStart(4, '0')` is `PadStart`. Reading a
single digit character with `parseInt` is folded into the digit value.

The page's date pickers offer only years 1905 to 2030, months 1 to 12 and
the days of the chosen month (script.js:16, 28, 63). The date also arrives
through the URL, and `parseDate` accepts any value:

- a day of 100 or more gives a tens "digit" A of 10 or more;
- a year of 10000 or more keeps only the first four digits of its decimal
  spelling (for years below 10^21; from there on JavaScript spells the
  number in exponent notation, which the model does not follow).

So `ParseDate` has no precondition, and its contract states what it gives
in both cases.

## Model

| member | source | states |
|---|---|---|
| DigitReduction.Digits | script.js:109 | `num.toString().split('')`: at least one digit, each below 10, and no leading zero for a positive number |
| DigitReduction.DigitsRoundTrip | script.js:109 | reading the decimal spelling of n back gives n |
| DigitReduction.DigitsAtMost | script.js:152 | a number below 10^k is spelled with at most k digits |
| DigitReduction.DigitsAtLeast | script.js:152 | a number of at least 10^k is spelled with more than k digits |
| DigitReduction.PadStartShape | script.js:152 | `PadStart`, the model of `padStart(4, '0')`, reaches the width (or keeps a longer string), keeps the digits at the end and puts only zeros in front |
| DigitReduction.FromDigitsLeadingZero | script.js:152 | a leading zero does not change the number spelled |
| DigitReduction.FromDigitsPadStart | script.js:152 | zero padding does not change the number spelled |
| DigitReduction.DigitSum | script.js:109-110 | the digit sum never exceeds n, is strictly smaller once n has two digits (so the loop terminates) and is positive for positive n |
| DigitReduction.SumOfDigits | script.js:109-110 | `Sum`, the model of the `reduce` that adds up the spelled digits left to right, gives the digit sum |
| DigitReduction.DigitSumMod9 | script.js:109-110 | one pass of the loop body keeps the residue modulo 9 |
| DigitReduction.Reduce | script.js:107-113 | the reduction returns a single digit (at most 9) |
| DigitReduction.ReduceResidue | script.js:107-113 | the reduction is congruent to n modulo 9, and is 0 exactly for n = 0 (so at least 1 whenever n >= 1) |
| DigitReduction.DigitalRoot | script.js:107-113 | the closed form is a single digit and is 0 exactly for 0 |
| DigitReduction.RootResidue | script.js:107-113 | the closed form is congruent to n modulo 9 and is 0 exactly for 0 |
| DigitReduction.RootCongruent | script.js:107-113 | numbers with equal residues modulo 9, both zero or both positive, have the same closed form |
| DigitReduction.ReduceIsDigitalRoot | script.js:107-113 | the loop's result is the digital root 0 or 1 + (n - 1) mod 9 |
| DigitReduction.ReduceCongruent | script.js:107-113 | numbers with equal residues modulo 9, both zero or both positive, reduce to the same digit |
| DigitReduction.ReduceFixesDigits | script.js:108 | every n in 0..9 is returned unchanged, because the loop guard is `num > 9` |
| DigitReduction.ReduceIdempotent | script.js:107-113 | reducing twice is reducing once |
| DigitReduction.RootOfSum | script.js:191-195 | reducing the two parts of a sum first does not change the reduced sum |
| DigitReduction.RootOfSum3 | script.js:130-140 | the same holds for a sum of three parts |
| DigitReduction.ReduceToSingleDigit | script.js:107-113 | the loop (outer `while`, inner left-to-right digit sum) returns `Reduce(n)`, a single digit |
| NumerologyTriangle.PaddedYear | script.js:152-156 | the padded year has at least four digits, each below 10; it has exactly four that recompose the year when the year is below 10000; from 1000 on it is not padded at all, so its first digit is non-zero |
| NumerologyTriangle.LongYear | script.js:152 | a year of 10000 or more is spelled with at least five digits |
| NumerologyTriangle.ParseDate | script.js:145-159 | A*10+B = day and C*10+D = month with B, D < 10 (A, C < 10 below 100); E..H are digits that recompose a year below 10000, and E >= 1 from 1000 on; from 10000 on, E..H are the first four of the year's five or more digits |
| NumerologyTriangle.InnerCode | script.js:119-124 | on 1..9 the result is in 1..9 and congruent to 2*O modulo 9; any other input is returned unchanged |
| NumerologyTriangle.InnerCodeIsDoubling | script.js:119-124 | on 1..9 the table equals `reduceToSingleDigit(2 * O)` |
| NumerologyTriangle.InnerCodeInverse | script.js:119-124 | on 1..9, `InnerDecode` (reduce 5*c) is a two-sided inverse of the table |
| NumerologyTriangle.InnerCodeBijective | script.js:119-124 | the table is one-to-one on 1..9 and maps 1..9 onto 1..9 |
| NumerologyTriangle.OuterCode | script.js:130-132 | a single digit congruent to S + R + T modulo 9, 0 exactly when all three are 0 |
| NumerologyTriangle.SubconsciousCode | script.js:138-140 | a single digit congruent to L + I + O modulo 9, 0 exactly when all three are 0 |
| NumerologyTriangle.CodesSymmetric | script.js:130-140 | both three-argument codes are unchanged by every permutation of their arguments |
| NumerologyTriangle.InnerOf | script.js:185-195 | every inner node I..O is a single digit |
| NumerologyTriangle.OuterOf | script.js:198-208 | every outer node P..X is a single digit |
| NumerologyTriangle.CodesOf | script.js:210-212 | the outer and subconscious codes are single digits, and so is the inner code when O is |
| NumerologyTriangle.Evaluate | script.js:182-227 | the result carries the parsed digits and the date, and every node and code is a single digit |
| NumerologyTriangle.Calculate | script.js:181-228 | `birthDate` is the input, `originalDate` is `parseDate(year, month, day)`, and every node and code is a single digit |
| NumerologyTriangle.InnerNonZero | script.js:185-195 | with positive day, month and century pairs, every inner node except L is in 1..9 |
| NumerologyTriangle.OuterNonZero | script.js:198-212 | when the inner nodes other than L are in 1..9, so is every outer node and every code |
| NumerologyTriangle.CalculateNonZero | script.js:181-228 | for day >= 1, month >= 1 and E + F >= 1, every node except L and every code is in 1..9 |
| NumerologyTriangle.CenturyPairPositive | script.js:152-154 | E + F >= 1 exactly when the year is at least 100 (so for every year the date picker offers) |
| NumerologyTriangle.LastPairZero | script.js:155-156 | L is 0 exactly when G = H = 0; for a year below 10000, exactly when the year is a multiple of 100 |
| NumerologyTriangle.ApexResidue | script.js:181-195 | the apex O is congruent to A + B + C + D + E + F + G + H modulo 9 |
| NumerologyTriangle.LeftSideResult | script.js:198-200 | U is the reduced sum I + J + 2M |
| NumerologyTriangle.RightSideResult | script.js:202-204 | X is the reduced sum K + L + 2N |
| NumerologyTriangle.TopSideResult | script.js:206-208 | R is the reduced sum M + N + 2O |
| NumerologyTriangle.OuterCodeOfInner | script.js:198-211 | the outer code is the reduced sum I + J + 3M + N + 2O of the inner nodes |
| NumerologyTriangle.InnerLeft | script.js:185-191 | M is the reduced sum of all four day and month digits |
| NumerologyTriangle.InnerRight | script.js:187-192 | N is the reduced sum of all four year digits |
| NumerologyTriangle.InnerApex | script.js:185-195 | O is the reduced sum of all eight digits |
| NumerologyTriangle.InnerMatchesDirect | script.js:185-195 | the step-by-step inner chain equals the direct one-step formulas `DirectInner` |
| NumerologyTriangle.CalculateInnerDirect | script.js:181-195 | the inner triangle of `performCalculation` is `DirectInner` of the parsed date |
| NumerologyTriangle.ParseExample | script.js:145-159 | 15 May 1990 splits into 1, 5, 0, 5, 1, 9, 9, 0 |
| NumerologyTriangle.InnerExample | script.js:185-195 | those digits give the inner nodes 6, 5, 1, 9, 2, 1, 3 |
| NumerologyTriangle.OuterExample | script.js:198-208 | those inner nodes give the outer nodes P..X = 5, 4, 9, 8, 7, 6, 2, 1, 3 |
| NumerologyTriangle.CalculateExample | script.js:181-228 | the whole result for 15 May 1990, with codes 6, 6, 9 |

## Left out

- Date-picker setup, the day-count refresh, event binding, URL parsing and page navigation (script.js:12-102, 164-176) are browser I/O.
- Canvas drawing, image export and the analysis text (script.js:272-586) are graphics, DOM and fixed strings.
- Inputs are natural numbers. `parseInt` returning NaN, the `|| 0` fallbacks (script.js:147-156) and negative or fractional dates are not modelled.
- JavaScript numbers are doubles. The model uses unbounded integers, which is exact for values below 2^53. From 10^21 on `toString` prints exponent notation ("1e+21"), so `parseDate` and `reduceToSingleDigit` read characters such as "e" and "+" that the model's digit sequences never contain; this is not modelled.
- Calculate: the outer triangle and the codes are not given in closed form over the date's digits. LeftSideResult, RightSideResult, TopSideResult and OuterCodeOfInner give them over the inner nodes, and CalculateInnerDirect gives the inner nodes over the digits.
