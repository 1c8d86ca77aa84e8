# A Dafny model of the Dynamol bignum engine

Limb arrays in base 2^64, little endian, with a length, a capacity and a sign, and the fast
algorithms on them that must agree with integer arithmetic: the carry loops and sign-aware
addition, schoolbook, Karatsuba and Toom-3 multiplication in an arena of scratch, the transform
multiplier over the integers modulo 2^n + 1, the Newton iterations for integer roots,
Burnikel-Ziegler division, and the binary greatest common divisor.

Two forms are used. Code that writes limbs is a class `BigInt` over a shared array, with views at
an offset, or a method on an `array`, each tied by its contract to the number it stands for
(`Mag`, `Int`) or to a function of the old contents. The transform as it is meant and the root loops
work on the values. Where the code as written does not compute what it is for, the model follows the
meaning and a lemma beside it gives the exact condition under which the written form is right, and
an input for which it is not.

Reading order: `Arith`, `Limbs`, `Intrinsics`, `CarryChain`, `BigInt`, `SignMagnitude`,
`LimbDivision` (the limb loops); `Schoolbook`, `Workspace`, `Products`, `Karatsuba`,
`ToomArithmetic`, `ToomParts`, `Toom3`, `WrittenToom` (multiplication); `FermatRing`, `Polynomials`,
`BitReversal`, `Network`, `Spectrum`, `Fft`, `FftMultiply`, `FftSizes` (the transform);
`WrittenRing`, `WrittenHelpers`, `WrittenTransform`, `WrittenHalving`, `WrittenProduct` (the transform
as written);
`Bitwise`, `Roots`, `Division`, `Correction`, `Burnikel`, `WrittenDivision`, `WrittenBurnikel`,
`GcdLaws`, `Gcd`.

Where code and documentation disagree:

- Toom-3 hands untrimmed views to routines that compare by length first. The model trims the six
  views; `Toom3.Multiply` tells exactly when that changes nothing in the whole recursion, and the
  model is the code as it stands. `SignMagnitude.AddSaw` and `SubSaw` state the exact condition for
  one untrimmed comparison, `Toom3.MinusOneWritten` has it for p(-1), and
  `WrittenToom.SixteenTimesThirtyLost` follows a product that comes out wrong.
- The starting guess of every root loop shifts by `% 63` where whole limbs need `% 64`, and the
  limbs below its top one are what the arena held before, since nothing clears them. `Roots.NthRoot`
  keeps both, whatever those limbs are, `Roots.StartOnLimbs` says which number that is, and
  `Roots.StartGoodEnough` when it is right.
- Repeated squaring multiplies into its own operand, which the schoolbook routine clears first, so
  every power but the zeroth comes out zero: `Roots.WrittenPowerExact`, `CubeOfTwoLost`. Square and
  cube roots take no powers; as written, the claim of `Roots.NthRoot` holds for these two
  (`Roots.NthRootWritten`), and for further roots it is about powers as they are meant.
- The second three-by-two step receives the remainder's halves in the wrong order, and the upper
  quotient digit is placed above the limbs the lower one happens to have. `Burnikel` uses the order
  and the place the comments name. `WrittenDivision.WrittenBurnikelExact` is exact about the quotient
  of the written form for two-limb divisors, at which every recursion arrives,
  `TwoComesOutZero` and `UpperDigitSlips` are inputs, and `WrittenBurnikel.DivideWritten` proves on limb
  buffers that the written form computes what these lemmas are about. The loops over roots take
  quotients as they are meant.
- With a divisor of n >= 2 limbs division reads 2n limbs of the dividend at most, and fewer of them
  for an odd n: `WrittenDivision.DroppedLimbs` and `OddLimbCount`. Its scratch is sized by a formula
  that follows neither the recursion nor the products and covers both all the same, for every power of
  two of divisor limbs that the dispatcher sends here: `Burnikel.SourceWsCovers`.
- The inverse transform halves an odd element by adding one and setting bit n + 64, in a limb the
  following shift does not read, where its comment adds 2^n + 1. `Fft` adds; `WrittenTransform` and
  `WrittenProduct` follow the code, say exactly when one element, the inverse transform and the
  product come out right, and name inputs for which they do not; `WrittenHalving` has the limb loops.
- The addition, subtraction, negation and shift of ring elements miss what their comments promise. A
  carry out of the longer operand is lost, and negative differences are taken from 2^n instead of
  2^n + 1 and left one limb short. The shift subtracts its parts with that subtraction, does not
  negate in the upper half of the period and, by zero bits, leaves the length of its result alone:
  the buffer the butterflies share starts without one, so that the first pass reads every lower input
  as zero. `FermatRing` and all that rests on it take the helpers at their comments. `WrittenRing` is
  exact about each written helper, about butterflies and about the smallest transforms, and
  `WrittenHelpers` proves that the limb loops compute what it says.
- The bodies of the shifts are for fewer than 64 bits, and the binary greatest common divisor asks
  for any number. The model makes the one call where that is enough and composes short shifts where
  it is not; `Gcd.Stein` says exactly on which operands the whole run makes single calls only,
  `Gcd.OneShiftEnough` when one call does, and `SixtyFourZeros` names 2^64.
- The size search of the transform looks at the longer operand only, so its modulus need not hold
  the product: `FftSizes.FullOperandsWrap`, and `FftMultiply.Multiply` for exactly when it does. The
  search of the arena version ends with windows of no bits: `FftSizes.ArenaMetadata`.

## Model

| member | source | states |
|---|---|---|
| FftMultiply.MultiplyInto | calc_algo/perf_based/mul_fft.c:474-565 | When the windows in use number at most d + 1 together and k + 2m <= n, the result buffer holds the exact product, trimmed |
| FftMultiply.Multiply | calc_algo/perf_based/mul_fft.c:474-565 | The recombined number is congruent to the product of the operands modulo 2^n + 1 for every d = 2^k dividing n and m a whole number of limbs; it is the product itself when the windows in use number at most d + 1 together and k + 2m <= n, and with that room alone if and only if what wraps around evaluates at 2^m like the ones where the ring adds its modulus; otherwise it is the product and the modulus as often as these two differ |
| WrittenProduct.MultiplyWritten | calc_algo/perf_based/mul_fft.c:474-565 | With the halving as the code has it: congruent to the product if and only if every weighted coefficient 2^(im) c_i, reduced, is at most 2^(n-k); the product itself under the same condition where nothing wraps around, and always when the windows in use leave one window and 2k bits free |
| Fft.Forward | calc_algo/perf_based/mul_fft.c:283-329 | After bit reversal and all butterflies slot i holds, modulo 2^n + 1, the sum over j of x_j 2^((2n/d) i j), for every input |
| Fft.RoundTrip | calc_algo/perf_based/mul_fft.c:395-468 | The inverse transform after the forward one is the identity on every vector of ring elements, with the halving its comment describes |
| WrittenTransform.WrittenRoundTrip | calc_algo/perf_based/mul_fft.c:395-468 | With the halving as the code has it the inverse undoes the forward transform if and only if no element exceeds 2^(n-k), in whatever lengths the elements are kept |
| Toom3.Multiply | calc_algo/perf_based/mul.c:161-234 | The product is exact and trimmed for every pair of operands, the arena ends where it was, and the call succeeds whenever the workspace function's amount is free. The model trims the views of every part, which the source does not; the run tells whether that ever changed a view, and it never does exactly when the operands are plain (ToomParts.Plain), so that for those the run is the source's |
| Karatsuba.Multiply | calc_algo/perf_based/mul.c:124-160 | The product is exact and has no leading zero limb, balanced or not, positive above the schoolbook size; the arena ends where it was, and the workspace function's amount suffices |
| Roots.NthRoot | calc_algo/perf_based/pow_root.c:357-369 | With quotients and powers as they are meant, for every a >= 1 and root >= 2, and whatever the arena left in the limbs below the top one of the starting guess, the result is the smaller of the guess and the integer root, so it is the root if and only if the guess is not below it |
| Burnikel.Divide | calc_algo/perf_based/div.c:233-269 | The quotient is a / b for every divisor of 2^j limbs and every dividend that, once shifted, has at most twice as many limbs, and of any length for a divisor of one limb; the arena ends where it was, a stated amount of scratch suffices, and so does the amount the source asks for, up to 64 limbs of divisor |
| Gcd.Stein | calc_algo/perf_based/gcd.c:81-110 | The result divides both operands, is a combination of them, and so is their greatest common divisor, positive whatever the signs of the operands; beside a zero it is the other operand with its sign; aliasing of the result with either operand, arena use and the final fit included. Every shift is one call, as in the source, if and only if the counts of both operands and of every difference of the run are below 64 |
| Intrinsics.AddLimb | intrinsics/intrinsics.c:27-44 | sum + 2^64 carry-out equals a + b + carry-in |
| Intrinsics.SubLimb | intrinsics/intrinsics.c:45-59 | diff - 2^64 borrow-out equals a - b - borrow-in |
| Intrinsics.MulLimb | intrinsics/intrinsics.c:60-70 | low + 2^64 high equals the product |
| Intrinsics.DivLimb | intrinsics/intrinsics.c:71-91 | Every branch: division by zero, zero dividend, one-word dividend, quotient overflow, and the exact two-word quotient and remainder |
| Limbs.CompExact | util/perf_util/bigNum_utils.c:142-147 | Comparison by length and then limbs is right exactly when the lengths do not contradict the values |
| Limbs.CompTrimmed | util/perf_util/bigNum_utils.c:142-147 | On trimmed numbers the comparison is the order of the values |
| BigInts.BigInt.Comp | util/perf_util/bigNum_utils.c:142-147 | The loop from the top limb down returns that comparison |
| BigInts.BigInt.TrimLz | util/perf_util/bigNum_utils.c:90-93 | The value stays, no leading zero limb remains, the length stays if and only if there was none, and an empty number is positive |
| BigInts.BigInt.Copy | util/perf_util/bigNum_utils.c:84-89 | Limbs, length and sign are those of the source; a zero is positive |
| BigInts.BigInt.View | calc_algo/perf_based/mul.c:131-134 | A view shows the limbs of its operand from the cut on and shares its buffer |
| LimbDivision.Rshift | util/perf_util/bigNum_utils.c:198-206 | In place: the magnitude is halved k times, rounding down, and trimmed |
| LimbDivision.Lshift | util/perf_util/bigNum_utils.c:207-219 | In place: the magnitude is multiplied by 2^k; the carry limb is appended only when needed |
| LimbDivision.Div3 | util/perf_util/bigNum_utils.c:171-183 | In place: the reciprocal multiplication and the running remainder give the quotient by three |
| LimbDivision.ThirdOfLimb | util/perf_util/bigNum_utils.c:173-180 | One limb and a remainder below three: the corrected digit and the next remainder are exact |
| LimbDivision.ShortDivision | calc_algo/perf_based/div.c:100-106 | a = b quot + rem with rem < b for every length and non-zero b; the quotient may be the dividend itself and the two-word division never overflows |
| LimbDivision.DivStep | calc_algo/perf_based/div.c:102-105 | What one step from limb i down keeps: the divided part times the divisor plus the remainder |
| BigInts.BigInt.AddWc | calc_algo/algo_base/add_sub.c:24-35 | The value becomes the sum for every aliasing, the final carry included, in as many limbs as the longer operand and one more if and only if a carry leaves them; trimmed operands give a trimmed sum |
| BigInts.BigInt.SubWb | calc_algo/algo_base/add_sub.c:77-88 | The value becomes the difference, or the difference wrapped by the length of a when b is larger, with the sign the source leaves; the result has no leading zero limb unless b is empty and a had one |
| BigInts.BigInt.AddShift | calc_algo/algo_base/add_sub.c:36-58 | val(dst) becomes val(dst) + val(src) B^shift: gap filled, stale limbs read as zero, no carry lost when the sum fits; trimmed operands give a trimmed result |
| BigInts.BigInt.FillGap | calc_algo/algo_base/add_sub.c:41-44 | The limbs between the old length and the shift become zero and the length covers them |
| BigInts.BigInt.RippleCarry | calc_algo/algo_base/add_sub.c:51-57 | The carry moves up through old and stale limbs and dies before the capacity or reaches it |
| CarryChain.AddStep | calc_algo/algo_base/add_sub.c:31-34 | One limb of addition extends the sum of the prefixes |
| CarryChain.SubStep | calc_algo/algo_base/add_sub.c:82-87 | One limb of subtraction extends the difference of the prefixes and tracks the highest non-zero limb |
| CarryChain.AddTrim | calc_algo/algo_base/add_sub.c:34-35 | With its carry limb appended, the sum of trimmed operands has no leading zero limb |
| CarryChain.BorrowLimb | calc_algo/algo_base/add_sub.c:82-88 | After the loop the limbs below the highest non-zero one are the wrapped difference, trimmed |
| CarryChain.RaiseDone | calc_algo/algo_base/add_sub.c:45-57 | After the shifted loop the array holds the sum, and its length is the larger of the old length and where the carry stopped |
| SignMagnitude.AddSaw | calc_algo/algo_base/add_sub.c:59-74 | Integer addition on sign and magnitude for every sign combination and aliasing, if and only if operands of opposite sign compare in the order of their values; for those it leaves the wrapped difference from the operand that compares larger, with its sign, in either case |
| SignMagnitude.SubSaw | calc_algo/algo_base/add_sub.c:89-103 | Integer subtraction under the same exact condition for operands of equal sign, and what it leaves where that fails |
| SignMagnitude.CompareSubtract | calc_algo/algo_base/add_sub.c:69-73 | Subtracting what compares as smaller is exact if and only if the longer operand is not smaller in value |
| SignMagnitude.TrimmedSameOrder | calc_algo/algo_base/add_sub.c:69-73 | Trimmed operands always meet that condition |
| SignMagnitude.PaddedZeroOutranks | calc_algo/perf_based/mul.c:171-176 | The operands the condition excludes: padded with zero limbs, zero outranks every shorter number |
| SignMagnitude.UntrimmedParts | calc_algo/perf_based/mul.c:171-195 | Toom-3 makes such operands of B^16 beside 30 limbs: the sum of the outer parts is ten zero limbs, the middle part is B^6 in seven |
| Schoolbook.Multiply | calc_algo/perf_based/mul.c:104-123 | The value becomes the product, trimmed, whatever the buffer held before |
| Schoolbook.MultiplyInPlace | calc_algo/perf_based/mul.c:104-123 | Called with its first operand for the result, as the power routine does, it clears the operand before reading it: the product is zero |
| Schoolbook.MulAddLimb | calc_algo/perf_based/mul.c:109-113 | high + c1 + c2 never overflows a limb: sum + 2^64 carry-out equals x y + old limb + carry-in |
| Schoolbook.Row | calc_algo/perf_based/mul.c:106-122 | One row adds x_i y B^i to the partial product, carry ripple included, inside a.n + b.n limbs |
| Schoolbook.RowStep | calc_algo/perf_based/mul.c:108-114 | What the inner loop keeps: the partial row, its carry and the untouched limbs |
| Workspace.Arena.Temp | include/_libdnml_mem/arena.h:64-72 | An allocation succeeds exactly when it fits and moves the counter by its size, or leaves it alone |
| Workspace.Arena.Rewind | include/_libdnml_mem/arena.h:86-88 | The counter goes back to the mark and never forward |
| Workspace.KaratsubaWsMono | calc_algo/perf_based/mul.c:61-76 | The Karatsuba workspace is monotone in both sizes, although each recursive size depends on both |
| Workspace.KaratsubaWsCovers | calc_algo/perf_based/mul.c:136-143 | One call's temporaries and its largest recursive call fit its workspace, and the recursive sizes shrink |
| Workspace.KaratsubaWsExact | calc_algo/perf_based/mul.c:61-76 | It is the temporaries of one call and the need of the product of the sums, no more: the other two calls never count |
| Workspace.KaratsubaWsBound | calc_algo/perf_based/mul.c:61-76 | And at most twelve times the longer operand |
| Workspace.ToomWsMono | calc_algo/perf_based/mul.c:77-86 | The Toom-3 workspace is monotone in both sizes |
| Workspace.ToomWsCovers | calc_algo/perf_based/mul.c:187-210 | One call's temporaries and any recursive call up to k + 2 limbs fit its workspace |
| Workspace.ToomWsExact | calc_algo/perf_based/mul.c:77-86 | It is 15k + 33 limbs, the top parts, both operands and the need of one product of k + 2 limbs, no more |
| Workspace.ToomWsBound | calc_algo/perf_based/mul.c:77-86 | And at most sixteen times the longer operand |
| Karatsuba.MiddleTerm | calc_algo/perf_based/mul.c:153-155 | (x0 + x1)(y0 + y1) - x1 y1 - x0 y0 is the middle coefficient and neither subtraction goes negative |
| Karatsuba.SplitProduct | calc_algo/perf_based/mul.c:145-158 | The three shifted parts add up to the product of the split operands |
| Karatsuba.Split | calc_algo/perf_based/mul.c:128-134 | The two views of an operand recompose to it at the cut |
| Karatsuba.Assemble | calc_algo/perf_based/mul.c:155-158 | Both subtractions and both shifted additions in place leave the product in z0, inside its capacity |
| Products.CopyProduct | calc_algo/perf_based/mul.c:159 | A trimmed product of the operands fits wherever their lengths together do |
| ToomArithmetic.Evaluations | calc_algo/perf_based/mul.c:180-186 | The products of the values at 0, 1, -1, -2 and infinity are the values of the product polynomial |
| ToomArithmetic.Recomposition | calc_algo/perf_based/mul.c:229-232 | The five coefficients shifted by k limbs each add up to the product of the operands |
| ToomArithmetic.ProductBounded | calc_algo/perf_based/mul.c:199-205 | All five coefficients are non-negative and bounded, so that no temporary exceeds its capacity |
| Toom3.SplitThree | calc_algo/perf_based/mul.c:165-176 | Three trimmed views that recompose to the operand, and whether they are the views the source takes: exactly when no part has a leading zero limb |
| ToomParts.PlainAtOneLevel | calc_algo/perf_based/mul.c:161-176 | Up to 45 limbs operands are plain if and only if none of their six parts has a leading zero limb |
| ToomParts.TellsSplit | calc_algo/perf_based/mul.c:165-215 | A longer pair is plain if and only if its six parts are full and all five pairs of point values are plain: what the flags of the views and of the five recursive calls add up to |
| ToomParts.TrimmedLimbs | calc_algo/perf_based/mul.c:187-198 | A number has one trimmed form, so the values at the five points determine the operands of the recursive calls |
| WrittenToom.InterpolatedExact | calc_algo/perf_based/mul.c:219-232 | The steps of the interpolation as written, with divisions and additions of magnitudes, give the coefficients and the product on the values of a product polynomial |
| WrittenToom.InterpolateWritten | calc_algo/perf_based/mul.c:219-228 | On limb buffers, with five trimmed values of any sign: the differences, the divisions by three and two and the doublings leave exactly those steps, right or wrong |
| WrittenToom.EvaluateSixteen | calc_algo/perf_based/mul.c:187-198 | From the untrimmed parts of B^16, cut every ten limbs, p(-1) comes out as B^10 - B^6 for -B^6, and p(-2) as twice that |
| WrittenToom.EvaluateThirty | calc_algo/perf_based/mul.c:187-198 | From those of B^29 the values at 1, -1 and -2 come out right |
| WrittenToom.SixteenTimesThirtyLost | calc_algo/perf_based/mul.c:211-232 | An input: the product of B^16 and B^29 is lost, the interpolation leaving for degree three a number that does not fit the 47 limbs of the result from limb 30 on |
| Toom3.EvaluateOnes | calc_algo/perf_based/mul.c:193-195 | p(1) and p(-1), signed, in k + 1 limbs |
| Toom3.MinusOneWritten | calc_algo/perf_based/mul.c:193-195 | From views that are not trimmed p(-1) is right if and only if, of the outer sum and the middle part, the longer one is not the smaller one |
| Toom3.EvaluateNeg2 | calc_algo/perf_based/mul.c:196-198 | p(-2) = 2 (p(-1) + a2) - a0, signed, in k + 1 limbs |
| Toom3.PointProduct | calc_algo/perf_based/mul.c:211-216 | The recursive product with the sign of the two values |
| Toom3.Differences | calc_algo/perf_based/mul.c:220-222 | The division by three and the first halving are exact |
| Toom3.CubicCoefficient | calc_algo/perf_based/mul.c:223-225 | The second halving is exact and leaves the coefficient of degree three |
| Toom3.LowCoefficients | calc_algo/perf_based/mul.c:226-228 | The halving back is exact and leaves the coefficients of degree two and one |
| Toom3.Interpolate | calc_algo/perf_based/mul.c:219-228 | The point products become the five coefficients, inside the declared capacities |
| Toom3.Recompose | calc_algo/perf_based/mul.c:229-232 | Five shifted additions assemble the product in the reused buffer |
| Roots.PowerMeans | calc_algo/perf_based/pow_root.c:298-315 | (r - 1) g^r + s^r >= r s g^(r-1) for all g, s and r: why a Newton step cannot undershoot |
| Roots.NextAboveRoot | calc_algo/perf_based/pow_root.c:298-311 | From any guess, above or below, the next one is at least the integer root |
| Roots.NextDescends | calc_algo/perf_based/pow_root.c:312-313 | The loop goes on exactly while the guess is above the root, strictly down |
| Roots.HeronLoop | calc_algo/perf_based/pow_root.c:210-215 | Square root: ends at the smaller of the starting guess and the integer root |
| Roots.CubeRootLoop | calc_algo/perf_based/pow_root.c:225-234 | Cube root: the same |
| Roots.PowerOfTwoRootLoop | calc_algo/perf_based/pow_root.c:276-286 | Roots that are powers of two, divided by a shift: the same |
| Roots.NthRootLoop | calc_algo/perf_based/pow_root.c:298-315 | Any root, multiplying by a shift where root - 1 is a power of two: the same |
| Roots.BinaryExp | calc_algo/perf_based/pow_root.c:108-124 | Repeated squaring returns the power, with the products as they are meant |
| Roots.BinaryExpWritten | calc_algo/perf_based/pow_root.c:108-124 | The loop as written, every product on top of its first operand |
| Roots.WrittenPowerExact | calc_algo/perf_based/pow_root.c:108-124 | What it returns is the power if and only if the exponent or the base is zero; from exponent one on it returns zero |
| Roots.CubeOfTwoLost | calc_algo/perf_based/pow_root.c:108-124 | An input: the cube of two comes out as zero |
| Roots.NthRootWritten | calc_algo/perf_based/pow_root.c:357-369 | With the powers as written, up to root 256: square and cube roots end at the smaller of the starting guess, uncleared limbs included, and the root, and every further root divides by a power that came out zero |
| Bitwise.BitsBound | util/perf_util/bigNum_utils.c:100-109 | The digit count brackets the number between consecutive powers of two |
| Roots.GuessBitsBracket | calc_algo/perf_based/pow_root.c:290 | The exponent meant is right: the root lies between 2^(e-1) and 2^e |
| Roots.StartGoodEnough | calc_algo/perf_based/pow_root.c:294 | The guess as written, reduced modulo 63 and with the limbs the arena left below it, is not below the root if and only if the exponent modulo 63 is not below the exponent modulo 64, or is one below it and the radicand is below the power of the guess plus one |
| Roots.StartOnLimbs | calc_algo/perf_based/pow_root.c:208-209 | Which number the guess is: in every buffer whose top limb holds the bit shifted by the exponent modulo 63, the one Roots.Start says plus the limbs below |
| Roots.PlaceGuess | calc_algo/perf_based/pow_root.c:204-209 | Setting the limb and the length leaves that number in the buffer, with the limbs the arena left below it, trimmed |
| Roots.GuessFits | calc_algo/perf_based/pow_root.c:204-209 | A buffer as long as the radicand has room for the guess |
| Roots.SmallRootsStartRight | calc_algo/perf_based/pow_root.c:208 | Up to 62 digits of root the reduction changes nothing |
| Roots.SixtyThreeDigitsStartAtOne | calc_algo/perf_based/pow_root.c:203-208 | Every radicand whose root has 63 digits starts from 1, in one limb, below the root |
| Roots.SquareRootStartsTooLow | calc_algo/perf_based/pow_root.c:201-216 | 2^124 is such a radicand: its square root comes out as 1 |
| Division.EstimateBounds | calc_algo/perf_based/div.c:127-150 | Dividing by the top half of a normalised divisor is never too small, at most two too large when [a1, a2] does not exceed the divisor, at most four otherwise |
| Correction.Fuse | calc_algo/perf_based/div.c:134-140 | c becomes [c, a3], trimmed |
| Correction.Correct | calc_algo/perf_based/div.c:141-171 | After subtracting the product, the estimate loses one and the remainder gains the divisor until the remainder is not negative, and no further |
| Correction.Finish | calc_algo/perf_based/div.c:134-173 | Quotient and remainder of [a1, a2, a3] by [b1, b2] from the estimate, after at most two corrections when [a1, a2] does not exceed the divisor and never more than four |
| Burnikel.ThreeByTwo | calc_algo/perf_based/div.c:118-174 | [a1, a2, a3] = q B + r with 0 <= r < B, the remainder allowed to overwrite the upper parts of the dividend; the arena ends where it was |
| Burnikel.TwoByOne | calc_algo/perf_based/div.c:175-232 | Two three-by-two steps and the one-limb case divide for every power-of-two limb count, within the scratch a stated recursion takes |
| Burnikel.OneLimbBase | calc_algo/perf_based/div.c:180-188 | Short division of the gathered halves by the only limb of the divisor |
| Burnikel.Cut | calc_algo/perf_based/div.c:190-200 | The two views of a number of up to 2k limbs recompose to it, the low one full unless the high one is empty |
| Burnikel.FullParts | calc_algo/perf_based/div.c:190-195 | The lower parts of a dividend are full as long as anything stands above them, so moving up by their limbs is moving up by a part |
| Burnikel.PlaceUpper | calc_algo/perf_based/div.c:226-229 | The upper quotient digit, at limb k over zeros, makes the quotient with the lower one |
| Burnikel.QuotientDigits | calc_algo/perf_based/div.c:207-229 | Two division steps, the second on the remainder of the first, make one |
| Burnikel.Normalise | calc_algo/perf_based/div.c:240-255 | The number shifted by the leading zeros, in a copy, or itself when there are none |
| Burnikel.LeadingZeros | calc_algo/perf_based/div.c:235 | The leading zeros of the top limb are the shift that normalises the whole divisor |
| Division.NormalShift | calc_algo/perf_based/div.c:235 | Shifting by the leading zeros of the top limb sets the top bit and adds no limb |
| Division.ScaledQuotient | calc_algo/perf_based/div.c:234-258 | Shifting both operands leaves the quotient unchanged and scales the remainder |
| Division.SwappedHalves | calc_algo/perf_based/div.c:218-224 | The number the second step divides as written, with the halves of the remainder swapped, is the right one if and only if they are equal |
| Division.UpperDigitPlace | calc_algo/perf_based/div.c:226-229 | Above the limbs of the lower number is the right place if and only if the lower one is full or the upper one is zero: for the quotient digits, and for the partial remainder above the third part |
| WrittenDivision.WrittenQuotientExact | calc_algo/perf_based/div.c:175-232 | Two-limb divisors, normalised, as written: the quotient is right if and only if it has no zero lower limb below an upper one, and the first remainder has one limb, equal limbs, or limbs that differ by one where the final remainder absorbs the difference |
| WrittenDivision.WrittenBurnikelExact | calc_algo/perf_based/div.c:233-269 | The same for every two-limb divisor, with the normalising shift |
| WrittenBurnikel.DivideWritten | calc_algo/perf_based/div.c:233-269 | On limb buffers, for every two-limb divisor and every dividend that, shifted with it, has at most four: the routine as written, normalisation and scratch included, leaves WrittenDivision.WrittenBurnikel in the quotient |
| WrittenBurnikel.DivideSwapped | calc_algo/perf_based/div.c:218-224 | The second step on the views of the remainder as it receives them divides the number of the swapped limbs, exactly |
| WrittenBurnikel.JoinWritten | calc_algo/perf_based/div.c:226-229 | The upper digit, copied above the limbs the lower one has, makes the number WrittenDivision.Join says |
| WrittenBurnikel.JoinFits | calc_algo/perf_based/div.c:226-230 | Right or wrong, what comes out takes no more limbs than the dividend |
| WrittenDivision.TwoComesOutZero | calc_algo/perf_based/div.c:218-229 | An input: 2^128 by 2^127 comes out as 0 |
| WrittenDivision.UpperDigitSlips | calc_algo/perf_based/div.c:226-229 | An input for the place alone: 2^191 by 2^127 comes out as 1 |
| WrittenDivision.DroppedLimbs | calc_algo/perf_based/div.c:190-195 | With a divisor of at least two limbs, a dividend of more than twice as many loses the limbs beyond: the quotient stays right if and only if there are none |
| WrittenDivision.OddLimbCount | calc_algo/perf_based/div.c:190-262 | Of the halves of a dividend by an odd number 2k + 1 of limbs only 2k are read: what is read has the quotient of the dividend if and only if that is zero |
| WrittenBurnikel.ReadOnLimbs | calc_algo/perf_based/div.c:192-200 | What WrittenDivision.Read says is read for 2k + 1 limbs of divisor is the number of the four quarters of k limbs |
| Burnikel.SourceWsCovers | calc_algo/perf_based/div.c:72-89 | The sizing function follows neither the recursion nor the products, and still covers both for every power of two of divisor limbs from 2 to 64 and every dividend no shorter than the divisor |
| Burnikel.SourceWsAmount | calc_algo/perf_based/div.c:72-89 | For an even divisor length the formula comes to twelve limbs for every limb of the divisor and the dividend, with the copies to twice the dividend and thirteen |
| Burnikel.DivideLong | calc_algo/perf_based/div.c:180-188 | A divisor of one limb divides a dividend of any length |
| Gcd.TrailingZeros | util/perf_util/bigNum_utils.c:131-138 | The lowest non-zero limb decides the number of trailing zero bits |
| Gcd.OneShiftEnough | calc_algo/perf_based/gcd.c:92-105 | The count the source passes to one shift is below 64, as the shift demands, if and only if the lowest limb is not zero |
| Gcd.SixtyFourZeros | calc_algo/perf_based/gcd.c:92-93 | An input: 2^64, whose count is 64 |
| Gcd.StripTwos | calc_algo/perf_based/gcd.c:92-93 | The number loses exactly its factors of two, in one shift if and only if there are fewer than 64 |
| Gcd.SubtractAndStrip | calc_algo/perf_based/gcd.c:103-106 | The difference of two different odd numbers, without its factors of two, in one shift if and only if there are fewer than 64 |
| Gcd.Reduce | calc_algo/perf_based/gcd.c:96-108 | Compare, swap, subtract, strip: both numbers stay odd, their sum strictly decreases, the common one left, times 2^k, is the greatest common divisor of the operands, and the run tells whether every shift was a single one |
| GcdLaws.ReducesStart | calc_algo/perf_based/gcd.c:91-94 | Taking out the factors of two leaves the smaller count to put back |
| GcdLaws.ReducesStep | calc_algo/perf_based/gcd.c:101-106 | One subtract-and-strip step keeps the greatest common divisor |
| GcdLaws.GcdGreatest | calc_algo/perf_based/gcd.c:81-110 | What the definition means: every common divisor divides it |
| GcdLaws.GcdUnique | calc_algo/perf_based/gcd.c:81-110 | There is only one non-negative number meeting the definition |
| Gcd.GcdFits | calc_algo/perf_based/gcd.c:109 | The final shift back stays inside the buffer of the longer operand |
| FermatRing.AddMod | calc_algo/perf_based/mul_fft.c:79-101 | A representative from 0 to 2^n of the sum |
| FermatRing.SubMod | calc_algo/perf_based/mul_fft.c:102-123 | A representative of the difference |
| FermatRing.NegateMod | calc_algo/perf_based/mul_fft.c:124-167 | A representative of the negative |
| FermatRing.CyclicShift | calc_algo/perf_based/mul_fft.c:198-254 | A representative of x 2^s for every s: reduction by the period, split at n - s, and negation in the upper half of the period |
| FermatRing.Halve | calc_algo/perf_based/mul_fft.c:446-464 | A representative whose double is x, by adding the modulus to odd ones |
| WrittenTransform.WrittenHalveExact | calc_algo/perf_based/mul_fft.c:446-464 | The halving as written, which adds one and sets a bit the shift does not read, is right if and only if the element is even |
| WrittenTransform.WrittenHalveOdd | calc_algo/perf_based/mul_fft.c:446-464 | Of an odd element the written halving leaves half of the next one or, when that one does not fit the limbs, nothing |
| WrittenHalving.Increment | calc_algo/perf_based/mul_fft.c:449-459 | The carry loop adds one in the limbs that are read, and loses what leaves them |
| WrittenHalving.HalveRing | calc_algo/perf_based/mul_fft.c:446-464 | On limb buffers, for a modulus of whole limbs: increment, bit and shift leave WrittenTransform.WrittenHalve, trimmed |
| WrittenHalving.DivideRing | calc_algo/perf_based/mul_fft.c:444-467 | And all the rounds leave WrittenTransform.WrittenTimes, from the length the element was kept in |
| WrittenTransform.WrittenTimesExact | calc_algo/perf_based/mul_fft.c:444-466 | k rounds of it are right if and only if 2^k divides the element |
| WrittenTransform.WrittenInverseFails | calc_algo/perf_based/mul_fft.c:395-468 | An input for every size: a vector with an element 2^n |
| WrittenTransform.GapTimes | calc_algo/perf_based/mul_fft.c:444-466 | What k rounds lose of an element is a multiple of a power of two: the carry lost, and the 2^n |
| WrittenProduct.LostSum | calc_algo/perf_based/mul_fft.c:542-564 | Losses that are multiples of d, one per element, add up to zero modulo 2^n + 1 only if there are none |
| WrittenProduct.RestoreWritten | calc_algo/perf_based/mul_fft.c:530-541 | The elements that are recombined: weighted again they are what the written inverse leaves of the point products, and each is right if and only if its weighted coefficient survives |
| WrittenProduct.OneTimesTopBitFails | calc_algo/perf_based/mul_fft.c:474-565 | An input for every size of at least four windows: one times 2^(n-1), which does not wrap around, comes out wrong |
| WrittenRing.WrittenAddExact | calc_algo/perf_based/mul_fft.c:79-101 | The addition loop stops at the longer operand: right if and only if no carry leaves its limbs, or one operand is 2^n and the other neither zero nor 2^n |
| WrittenRing.WrittenSubExact | calc_algo/perf_based/mul_fft.c:102-123 | A negative difference is taken from 2^n instead of 2^n + 1: right if and only if the difference is not negative |
| WrittenRing.WrittenNegateWrong | calc_algo/perf_based/mul_fft.c:124-145 | Negation, from 2^n as well, is never right |
| WrittenRing.ReadDifferenceExact | calc_algo/perf_based/mul_fft.c:102-123 | Read by its length, which a negative difference leaves one short, it is right if and only if it is not negative |
| WrittenRing.CopiedShift | calc_algo/perf_based/mul_fft.c:222 | By zero bits the length is left alone: right if and only if the element fits it |
| WrittenRing.LowerHalfShift | calc_algo/perf_based/mul_fft.c:221-253 | In the lower half of the period the parts are subtracted with the written helper: right if and only if the upper part is at most the lower one moved up |
| WrittenRing.LowerHalfElements | calc_algo/perf_based/mul_fft.c:221-253 | That is, if and only if the element is zero or no multiple of 2^(n - s) |
| WrittenRing.UpperHalfShift | calc_algo/perf_based/mul_fft.c:221-253 | In the upper half nothing but an empty result is negated: right if and only if the parts are equal, or what is read of a negative difference is its own negative |
| WrittenRing.UpperHalfElements | calc_algo/perf_based/mul_fft.c:221-253 | By whole limbs that is for zero alone and, by 2n - 64 bits, for 2^(n-1) |
| WrittenRing.HalfPeriodShift | calc_algo/perf_based/mul_fft.c:221-253 | By half the period: right for zero alone |
| WrittenRing.PowerShiftsWrong | calc_algo/perf_based/mul_fft.c:221-253 | An input for every size and every shift in the lower half: 2^(n - s) by s bits does not come out as 2^n |
| WrittenRing.ForwardButterfly | calc_algo/perf_based/mul_fft.c:305-327 | What a forward butterfly reads of its shifted input is right if and only if, at the first twiddle, the input fits the length the shared buffer was left with and, at a later one, it is zero or no multiple of 2^(n - exp); on what it reads, both outputs are right if and only if the sum loses no carry and what it subtracts is not larger |
| WrittenRing.InverseButterfly | calc_algo/perf_based/mul_fft.c:417-433 | What an inverse butterfly reads of its shifted input, with whole-limb twiddles, is right if and only if, at the first twiddle, the input fits the length left over and, at a later one, it is zero or, at the twiddle of one limb, 2^(n-1) |
| WrittenRing.FirstPassReads | calc_algo/perf_based/mul_fft.c:297-327 | Throughout the first pass the shared buffer has no length: the lower input is read as zero and both outputs are the upper one, unless that is 2^n |
| WrittenRing.TwoPoints | calc_algo/perf_based/mul_fft.c:294-329 | A transform of two elements is right if and only if the second is zero and the first is not 2^n |
| WrittenRing.FiveAndOne | calc_algo/perf_based/mul_fft.c:294-329 | An input: five and one come out as five and five |
| WrittenRing.FourPoints | calc_algo/perf_based/mul_fft.c:294-329 | The even slots of a transform of four are right if and only if the first element is not 2^n, its partner is zero and the other two add up to zero in the ring |
| WrittenHelpers.AddRing | calc_algo/perf_based/mul_fft.c:79-101 | The limb loops of the addition, with their flag and their correction, leave in the element what WrittenRing.WrittenAdd says |
| WrittenHelpers.Complement | calc_algo/perf_based/mul_fft.c:112-122 | The loop that takes a magnitude from 2^n, in place, and the length it leaves one short |
| WrittenHelpers.SubRing | calc_algo/perf_based/mul_fft.c:102-123 | The subtraction leaves in all limbs, and by its length, what WrittenRing says, for operands that compare in the order of their values, and the wrapped difference for a longer first operand that is smaller |
| WrittenHelpers.ShiftRing | calc_algo/perf_based/mul_fft.c:213-254 | The shift by any number of whole limbs below the period leaves what WrittenRing.ShiftRead says, copies, cuts, moves and the subtraction included |
| WrittenHelpers.ButterflyWritten | calc_algo/perf_based/mul_fft.c:305-327 | One butterfly on limb buffers, in either direction, whatever length the shared buffer was left with |
| WrittenHelpers.FirstPassButterfly | calc_algo/perf_based/mul_fft.c:297-327 | A butterfly of the first pass leaves the upper input in both outputs and the shared buffer without a length |
| WrittenHelpers.TwoPointsWritten | calc_algo/perf_based/mul_fft.c:294-329 | On limb buffers, against the transform itself: two elements come out right if and only if the second is zero and the first is not 2^n |
| WrittenHelpers.EvenSlotsWritten | calc_algo/perf_based/mul_fft.c:294-329 | On limb buffers, against the transform itself: the even slots of four elements are right if and only if x_0 is not 2^n, x_2 is zero and x_1 + x_3 is zero or the modulus |
| WrittenRing.ZeroAndOne | calc_algo/perf_based/mul_fft.c:318-321 | An input: the butterfly of zero and one stores 2^n - 1 for -1 |
| FermatRing.CancelPower | calc_algo/perf_based/mul_fft.c:440-466 | The modulus is odd, so k halvings divide out 2^k |
| BitReversal.BitReverse | calc_algo/perf_based/mul_fft.c:276-282 | The loop returns the k lowest bits in reverse order |
| BitReversal.RevInvolution | calc_algo/perf_based/mul_fft.c:276-282 | Reversing twice restores every index below 2^k |
| BitReversal.BitReverseInPlace | calc_algo/perf_based/mul_fft.c:289-293 | Swapping each pair once leaves the even-odd shuffle of the array |
| BitReversal.ShuffleAt | calc_algo/perf_based/mul_fft.c:289-293 | That shuffle moves to each place the element at the reversed index |
| Network.Butterflies | calc_algo/perf_based/mul_fft.c:308-326 | One block with its running twiddle exponent: every pair gets its sum and difference |
| Network.Stage | calc_algo/perf_based/mul_fft.c:298-328 | One pass turns all blocks of 2^(s-1) into blocks of 2^s and touches nothing twice |
| Network.Butterfly | calc_algo/perf_based/mul_fft.c:294-329 | The loops over block lengths compute the recursive transform they unroll, forward and inverse |
| Spectrum.TwiddleIsRootPower | calc_algo/perf_based/mul_fft.c:300-311 | The accumulated exponent, or its complement in the period, shifts by a power of the stage's root of unity |
| Spectrum.RootHalf | calc_algo/perf_based/mul_fft.c:301-306 | Half-way around a root is -1: the property of a primitive root that replaces a field |
| Spectrum.NetTransforms | calc_algo/perf_based/mul_fft.c:283-329 | The recursive transform of the shuffled input is the discrete Fourier transform, in either direction |
| Spectrum.InverseSums | calc_algo/perf_based/mul_fft.c:331-352 | The inverse sums over a transform give every input back d times: orthogonality of the powers of two |
| Polynomials.EvalIsDft | calc_algo/perf_based/mul_fft.c:262-265 | The transform sum is the polynomial evaluated at a power of the root |
| Fft.Divide | calc_algo/perf_based/mul_fft.c:444-466 | k rounds of halving, with zero left alone |
| Fft.HalveTimes | calc_algo/perf_based/mul_fft.c:444-466 | 2^k times the result is the input again, modulo 2^n + 1 |
| Fft.Inverse | calc_algo/perf_based/mul_fft.c:395-468 | Inverse butterflies and then the division by d, element by element |
| Fft.InverseOfTransform | calc_algo/perf_based/mul_fft.c:395-468 | Applied to the transform of any vector it gives that vector back |
| FftMultiply.WindowsValue | calc_algo/perf_based/mul_fft.c:484-490 | The windows are the digits of the operand in base B^mlimbs |
| FftMultiply.WindowValue | calc_algo/perf_based/mul_fft.c:485-489 | A window is its limbs, cut short at the end of the operand and empty past it |
| FftMultiply.Weigh | calc_algo/perf_based/mul_fft.c:506-514 | Window i is scaled by 2^(i n / d) |
| FftMultiply.Pointwise | calc_algo/perf_based/mul_fft.c:522-528 | Each slot becomes the product of the two slots, reduced |
| FftMultiply.PointProducts | calc_algo/perf_based/mul_fft.c:522-528 | The products of two weighted transforms are the transform of the weighted negacyclic product |
| FftMultiply.Unweigh | calc_algo/perf_based/mul_fft.c:533-537 | Shifting by the complementary exponent takes the weights off |
| FftMultiply.Coefficients | calc_algo/perf_based/mul_fft.c:481-541 | What is recombined: elements that evaluate at 2^m to the product modulo 2^n + 1, and to the product itself without wrap-around |
| FftMultiply.RecombineLimbs | calc_algo/perf_based/mul_fft.c:542-564 | On limbs: every element that is not zero is added at its limb distance, no partial sum leaving the buffer |
| FftMultiply.Recombine | calc_algo/perf_based/mul_fft.c:543-564 | On numbers: the elements are added up at m-bit distances |
| FftMultiply.RecombinedCong | calc_algo/perf_based/mul_fft.c:542-564 | Recombining a negacyclic product gives the product modulo 2^n + 1 |
| FftMultiply.RecombinedExact | calc_algo/perf_based/mul_fft.c:542-564 | With no wrap-around and room for every coefficient it gives the product |
| Polynomials.NegaConvCong | calc_algo/perf_based/mul_fft.c:497-514 | The negacyclic product evaluates to the product wherever x^d is -1 |
| Polynomials.NegaConvExact | calc_algo/perf_based/mul_fft.c:497-514 | Without wrap-around it evaluates to the product everywhere |
| Polynomials.NegaConvParts | calc_algo/perf_based/mul_fft.c:497-514 | The negacyclic product is the low half of the product less the high one |
| Polynomials.FullProduct | calc_algo/perf_based/mul_fft.c:497-514 | The two halves are the product at every point |
| FftMultiply.RecombinedWhen | calc_algo/perf_based/mul_fft.c:542-564 | With room for every coefficient it gives the product if and only if the high half of the product evaluates like the ones where the ring adds its modulus |
| FftMultiply.RecombinedOff | calc_algo/perf_based/mul_fft.c:542-564 | With room for every coefficient, the recombined number is the product and the modulus as often as the ring added it, less what the high half of the product evaluates to |
| Polynomials.NegaConvBound | calc_algo/heap_based/heap_mul_fft.c:38-44 | Without wrap-around its coefficients are non-negative and at most d products of windows |
| FftMultiply.CoefficientRoom | calc_algo/heap_based/heap_mul_fft.c:38-44 | k + 2m <= n leaves room for d products of m-bit windows |
| FftSizes.BestMetadata | calc_algo/heap_based/heap_mul_fft.c:35-45 | The search ends with n = d m covering the operand and k + 2m + 2 <= n |
| FftSizes.ArenaMetadata | calc_algo/perf_based/mul_fft.c:36-55 | The modulus has the one power of two of bits from the operands' total up to twice that; the search of the arena version never stops before k = 32, where a window has no bits unless the operands have 2^32, and from there on the windows make up the modulus exactly |
| FftSizes.OneCoveringPower | calc_algo/perf_based/mul_fft.c:38 | There is only one such power of two |
| FftSizes.LimbOperands | calc_algo/heap_based/heap_mul_fft.c:35-45 | For whole limbs it ends at once with four windows and as many bits as the longer operand |
| FftSizes.FullOperandsWrap | calc_algo/heap_based/heap_mul_fft.c:35-45 | That modulus does not hold the product of two operands of n one bits: what the pipeline returns is not their product |
| FftSizes.WholeLimbWindows | calc_algo/perf_based/mul_fft.c:481-490 | Windows cut at whole limbs recombine at m-bit distances if and only if m is whole limbs or one window holds everything |

## Left out

- FermatRing.AddMod: ring elements are integers from 0 to 2^n with the contracts the comments give; WrittenRing.WrittenAddExact is about the limb loop.
- FermatRing.SubMod: the same, with WrittenRing.WrittenSubExact and ReadDifferenceExact.
- FermatRing.NegateMod: the same, with WrittenRing.WrittenNegateWrong.
- FermatRing.CyclicShift: the same, with WrittenRing.LowerHalfElements, UpperHalfElements and HalfPeriodShift.
- WrittenHelpers.ShiftRing: whole limbs; the masks of the written shift by other numbers of bits are narrower than a limb, and neither they nor overlap of its scratch buffers are modelled. The lemmas of WrittenRing on shifts by other numbers of bits are about the parts it means to cut.
- WrittenHelpers.EvenSlotsWritten: no transform is followed further. A later pass reads limbs above a length that a negative difference left short, and errors of different passes can cancel; exactly when a whole transform on the written helpers is right is stated for two elements and for the even slots of four, and no longer by one condition on every butterfly of any size, which the code does not meet.
- FermatRing.Halve: adds the modulus, as the comment says; WrittenTransform follows the code.
- Fft.Forward: on the ring operations as their comments promise, like everything on top of it.
- WrittenHalving.DivideRing: moduli of whole limbs.
- Fft.RoundTrip: the same, and with the halving of the comment; WrittenTransform.WrittenRoundTrip has the written one.
- FftMultiply.Multiply: the same; WrittenProduct.MultiplyWritten has the written halving.
- WrittenProduct.MultiplyWritten: the halving is as written, the other ring helpers as their comments promise.
- The recursion of the transform multiplier into itself for the point products, whose sub-problem does not shrink: the point products are exact.
- FftMultiply.MultiplyInto: covers window widths of whole limbs, where the source adds at limb distances; its extra bit shift for other widths only serves windows that do not recombine (FftSizes.WholeLimbWindows).
- FftMultiply.Store: the elements are numbers until they are recombined, so turning one into limbs is a step the source does not have.
- Burnikel.TwoByOne: limb counts that are not powers of two are not covered, because the source reads only part of the dividend there (WrittenDivision.OddLimbCount); the debug copies of the estimate and the remainder are counted in its scratch but not made, and the iteration counter is left out.
- WrittenDivision.WrittenBurnikelExact: one level, two-limb divisors; longer divisors nest the same two steps, and what one level gets wrong the next may undo.
- Burnikel.Divide: dividends of more than twice the limbs of a divisor of two limbs or more are not covered; the source drops the limbs beyond (WrittenDivision.DroppedLimbs).
- Roots.NthRoot: works on values, so beyond the starting guess (Roots.PlaceGuess) buffers and the arena are not captured; the floating-point roots of one-limb radicands and fixed and sliding window powers, for roots above 256, are left out, and powers are taken by repeated squaring with exact products.
- Roots.NthRootWritten: the quotients are exact; the division is WrittenDivision's subject.
- Gcd.ShiftDown: for counts of 64 and more it composes shifts of fewer than 64 bits, which is what the shift bodies are written for; what one call with such a count leaves is not modelled.
- FftMultiply.Weigh: a window is its own limbs; the source's shift is handed a pointer to them and reads as many limbs as an element has, past the window's end (mul_fft.c:222, 232, 511).
- Workspace.Arena.Temp: hands out a fresh buffer, so reuse of the same scratch memory after a rewind, and growing arenas, are not captured.
- Toom3.Multiply: trims the six views, which the source does not; what the untrimmed form makes of operands that are not plain is followed for one pair (WrittenToom).
- The multiplication dispatcher and its workspace function, which branch on different conditions.
- Reduction, modular exponentiation and Newton division (mod.c, mod_mulexp.c, div_newton.c): unfinished loops whose invariants do not hold.
- Lehmer and half-GCD steps, Jacobi, Lucas and Miller-Rabin: unfinished.
- The short division that only returns a remainder, which swaps the high and the low word.
- The constant-time layer, random numbers, CPU dispatch tables, assembly, allocation failures, assertion macros, the C++ wrapper and debug printing: hardware, input and output.
- The heap twins of the same algorithms, apart from the size search of the transform: nothing new to prove.
