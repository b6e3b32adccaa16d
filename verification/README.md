# Verified models of four algorithmic cores

The repository collects PostgreSQL contrib modules and the material of a thesis on skyline
queries. This project models four of its cores in Dafny and proves what they are for.

* **Multi-precision arithmetic** (`Digits` to `BinaryIO`, with `Quotients`, `ModExp`,
  `WrongConstant` and `GcdRows`). Numbers
  are little-endian arrays of 32-bit digits that carry loops overwrite in place, and objects with
  a buffer, a length and a sign. Every routine is proved against one line of integer arithmetic, from schoolbook and
  Karatsuba products through long division, Barrett reduction and modular exponentiation to
  gcd, extended gcd and two's-complement input and output.
* **Block-nested-loops skyline with a bounded window** (`Skyline`, `OriginalBnl`, `Dataset`).
  The corrected algorithm ends with exactly the skyline for every strict order and every window
  size but 0; the published one ends exactly when no pass starts in a state that reproduces itself,
  which is so whenever the skyline fits the window, and it does not end on the program's data
  set.
* **Index keys over integer arrays** (`IntArrays` to `IntIndex`, with `IntQueryLaws`). Keys are
  compressed to the ranges around their widest gaps, expanded to supersets, united and searched; a
  search never misses a matching row, with the exceptions named exactly, and boolean queries are
  told by their clauses.
* **Packed key/value sets** (`Hstores` to `HstorePacking`). Entries over one string agree with a
  finite map under lookup, merge, deletion and inclusion. The character-level parser decides a
  grammar of texts that is stated apart from it (`HstoreGrammar`), and inverts the printer.

Routines that change things in place are methods on arrays or on objects; recursive functions
beside them say what they compute. `dafny verify dfyconfig.toml` checks everything.

Some behaviour differs from what the code or its comments promise. The model follows the code,
and the condition under which the promise holds is proved in both directions:

* Long division tries 1 where a digit near 2^32 is due, and a position where it does takes two or
  three digits instead of one. The quotient is right if and only if `Division.QuotientFound` holds
  of the inputs, and too large otherwise. The run stays inside the buffer of the quotient if and
  only if `Division.QuotientInside` holds of them; then the remainder is right in any case
  (`Division.UDiv`, `Division.QuotientWrong`, `Division.BufferLeft`).
* The reduction constant of modular exponentiation is such a quotient and is right for exactly the
  moduli with that property (`ModExp.BrMu`). For others the result can be wrong
  (`WrongConstant.ExptWrong`); where it is right, only a^0 mod 1 goes wrong (`ModExp.ExptMod`).
* The extended gcd returns coefficients of the absolute values. They are coefficients of the
  inputs if and only if b divides a negative a, and for a negative b the absolute value of a is a
  power of two that divides b and differs from its absolute value (`ExtendedGcd.EGcd`).
* With a multiplication threshold of 1, 2 or 3, Karatsuba multiplication recurses for ever on
  exactly the sizes that split, and squaring on exactly the sizes that `Karatsuba.SqrEndsFor` does
  not list (`Karatsuba.EndsExactly`, `Karatsuba.SqrEndsExactly`).
* Karatsuba multiplication touches more digits than its operands have together unless it does
  not split or the sizes are equal and even (`Karatsuba.RoomExact`, `Karatsuba.SqrRoomExact`). Its
  callers reserve enough for it under conditions that are as exact (`MpInts.ProductReserved`,
  `MpInts.SquareReserved`, `Barrett.TempsExact`).
* Two zeros of different sign compare as different, the only numbers that compare wrongly
  (`MpInts.Compare`).
* A compressed key that ends with the greatest 32-bit integer is never completely expanded
  (`IntExpand.CompressedExpandable`), and the gap chosen for merging is the largest instead of the
  smallest when one is 2^31 or wider (`IntKeys.SmallestGap`, `IntKeys.WidestKept`).
* Leaf keys of 200 or more elements are read as ranges. They lose matching rows and answer with
  wrong ones unless they are read back as stored (`IntExpand.BigLeafKept`, `IntIndex.BigLeafLost`,
  `IntIndex.BigLeafSound`). An empty row is never found by equality (`IntIndex.IndexFinds`) and
  always offered to boolean queries that the empty set satisfies (`IntIndex.SearchSound`).
* The length field of null values is 4 after reading text and may be anything else elsewhere
  (`HstorePacking.NormalSame`).

## Model

| member | source | states |
|---|---|---|
| `DigitLoops.UAdd` | pgsql-cvshead/contrib/pgcrypto/imath.c:2462-2495 | The result digits together with the carry returned are worth the sum of the two numbers, for all lengths, also in place; digits outside the result keep their values. |
| `DigitLoops.USub` | pgsql-cvshead/contrib/pgcrypto/imath.c:2501-2533 | When the first number is not the smaller one, the result is worth the difference, no borrow is left over, and digits outside are kept. |
| `DigitLoops.CDig` | pgsql-cvshead/contrib/pgcrypto/imath.c:2377-2392 | The sign returned is the sign of the difference of the values of two runs of equal length. |
| `DigitLoops.UCmp` | pgsql-cvshead/contrib/pgcrypto/imath.c:2423-2435 | The same for canonical numbers of any two lengths: comparing lengths first never contradicts the values. |
| `DigitLoops.MulRow` | pgsql-cvshead/contrib/pgcrypto/imath.c:2649-2665 | One row adds digit times number, in place, onto the digits below; nothing is lost in the 64-bit word. |
| `DigitLoops.UMul` | pgsql-cvshead/contrib/pgcrypto/imath.c:2640-2667 | Into zeroed digits: the value is the product, for all lengths. |
| `Digits.ValClamp` | pgsql-cvshead/contrib/pgcrypto/imath.c:123-140 | Leading zero digits carry no value, so dropping them keeps the number. |
| `Squaring.SqrWordExact` | pgsql-cvshead/contrib/pgcrypto/imath.c:2760-2785 | With a carry of at most 2B-2 the doubled product overflows the 64-bit word at most once; the single flag restores exactly the low digit and the carry, which is again at most 2B-2. |
| `Squaring.SqrRow` | pgsql-cvshead/contrib/pgcrypto/imath.c:2745-2794 | The pass for one digit x of a number worth v adds exactly 2xv - x^2 to the digits it covers and touches nothing beyond. |
| `Squaring.RowCarry` | pgsql-cvshead/contrib/pgcrypto/imath.c:2787-2794 | The trailing carry loop stops inside the row because the result fits. |
| `Squaring.RowFits` | pgsql-cvshead/contrib/pgcrypto/imath.c:2787-2796 | In every row of a square the remaining contribution fits the digits above: the final assertion of the source never fails. |
| `Squaring.USqr` | pgsql-cvshead/contrib/pgcrypto/imath.c:2738-2798 | Into zeroed digits: the value is the square, for every length. |
| `Karatsuba.SplitShrinks` | pgsql-cvshead/contrib/pgcrypto/imath.c:2563-2565 | The inner product has shorter operands than the call exactly from size 4 on. |
| `Karatsuba.EndsExactly` | pgsql-cvshead/contrib/pgcrypto/imath.c:2545-2612 | Over the three recursive calls: some call depth suffices if and only if the threshold is 0 or at least 4, or the two sizes do not split. |
| `Karatsuba.SmallThresholdRuns` | pgsql-cvshead/contrib/pgcrypto/imath.c:2563-2565 | With a threshold of 1, 2 or 3 no call depth suffices for sizes that split: the inner product splits again. |
| `Karatsuba.RoomExact` | pgsql-cvshead/contrib/pgcrypto/imath.c:2617-2623 | The digits that the routine touches are those of both operands together if and only if the call does not split or the sizes are equal and even; otherwise they are more. |
| `Karatsuba.RoomOfThirtyThree` | pgsql-cvshead/contrib/pgcrypto/imath.c:149-153 | Two operands of 33 digits need 68 digits at the default threshold, where 66 are reserved. |
| `Karatsuba.InnerProduct` | pgsql-cvshead/contrib/pgcrypto/imath.c:2596-2609 | The middle temporary becomes (a0+a1)(b0+b1), carries of the two sums included; the other two are cleared. |
| `Karatsuba.OuterProducts` | pgsql-cvshead/contrib/pgcrypto/imath.c:2610-2611 | The two outer temporaries become a0*b0 and a1*b1. |
| `Karatsuba.MiddlePart` | pgsql-cvshead/contrib/pgcrypto/imath.c:2613-2615 | After both subtractions the middle part is a0*b1 + a1*b0, without a borrow, below 2*B^(2n), so it fits 2n+1 digits. |
| `Karatsuba.Assemble` | pgsql-cvshead/contrib/pgcrypto/imath.c:2617-2623 | Copy and two overlapping additions leave t1 + t3*B^n + t2*B^(2n) in the digits of the product and leave the digits above as they were. |
| `Karatsuba.KMul` | pgsql-cvshead/contrib/pgcrypto/imath.c:2539-2634 | For all lengths and every threshold for which the recursion ends: the value is the product of the two numbers, the same as the schoolbook routine gives; digits beyond the product are unchanged. |
| `Karatsuba.Double` | pgsql-cvshead/contrib/pgcrypto/imath.c:2698-2712 | The shift loop doubles the value of the middle product and cannot overflow. |
| `Karatsuba.SqrProducts` | pgsql-cvshead/contrib/pgcrypto/imath.c:2684-2697 | The three temporaries become the product of the halves and their two squares. |
| `Karatsuba.SqrEndsExactly` | pgsql-cvshead/contrib/pgcrypto/imath.c:2673-2697 | s_ksqr ends if and only if the threshold is 0 or at least 4, or the size is below 4 or 5, or it is 4 with a threshold of 3. |
| `Karatsuba.SqrRoomExact` | pgsql-cvshead/contrib/pgcrypto/imath.c:2713-2720 | Squaring touches twice the digits of its operand if and only if it does not split or the size is even. |
| `Karatsuba.KSqr` | pgsql-cvshead/contrib/pgcrypto/imath.c:2673-2732 | For all lengths and thresholds for which it ends: the value is the square; digits beyond it are unchanged. |
| `MpInts.MpInt.Pad` | pgsql-cvshead/contrib/pgcrypto/imath.c:2323-2338 | At least the digits asked for are available; number and sign are kept. |
| `MpInts.MpInt.Clamp` | pgsql-cvshead/contrib/pgcrypto/imath.c:2346-2355 | The number keeps its value and has no leading zero digit. |
| `MpInts.MpInt.CmpZ` | pgsql-cvshead/contrib/pgcrypto/imath.c:146-148 | Zero exactly for value zero, otherwise the sign of the value. |
| `MpInts.Copy` | pgsql-cvshead/contrib/pgcrypto/imath.c:510-532 | Target equals source in value and sign; the source is unchanged. |
| `MpInts.InitCopy` | pgsql-cvshead/contrib/pgcrypto/imath.c:410-431 | A fresh number of the same value sharing nothing with the original. |
| `MpInts.Abs` | pgsql-cvshead/contrib/pgcrypto/imath.c:569-580 | The target becomes the absolute value. |
| `MpInts.Neg` | pgsql-cvshead/contrib/pgcrypto/imath.c:587-600 | The target becomes the negated value. |
| `MpInts.Compare` | pgsql-cvshead/contrib/pgcrypto/imath.c:1241-1269 | The result has the sign of the difference of the two values if and only if they are not two zeros of different sign. |
| `MpInts.AddMag` | pgsql-cvshead/contrib/pgcrypto/imath.c:617-637 | Magnitudes are added, with room made for a carry digit. |
| `MpInts.SubMag` | pgsql-cvshead/contrib/pgcrypto/imath.c:639-673 | The smaller magnitude is taken off the larger. |
| `MpInts.Add` | pgsql-cvshead/contrib/pgcrypto/imath.c:607-677 | The target becomes the exact sum, whatever the signs and even when it is one of the operands. |
| `MpInts.Sub` | pgsql-cvshead/contrib/pgcrypto/imath.c:699-772 | The target becomes the exact difference, under the same conditions. |
| `MpInts.UMulTo` | pgsql-cvshead/contrib/pgcrypto/imath.c:149-153 | Given the digits that s_kmul touches, the magnitude of the target becomes the product of the magnitudes; nothing is reserved. |
| `MpInts.USqrTo` | pgsql-cvshead/contrib/pgcrypto/imath.c:155-158 | The same for the square. |
| `MpInts.ProductReserved` | pgsql-cvshead/contrib/pgcrypto/imath.c:818-842 | What is available for a product, a buffer of its own or the target with the digits it owns already, is enough for s_kmul if and only if the call does not split, or the longer operand has an even number of digits and the other at most one less, or, beyond that, the longer has 32 digits and the default precision of an own buffer makes up for it, or the target owns enough digits. |
| `MpInts.SquareReserved` | pgsql-cvshead/contrib/pgcrypto/imath.c:911-926 | What is available for a square is enough if and only if the operand has at most 32 digits or an even number of them, or the target is another number and owns two digits more. |
| `MpInts.Mul` | pgsql-cvshead/contrib/pgcrypto/imath.c:794-860 | The target becomes the exact product, whatever the signs and even when it is one of the operands, provided the digits available are those that s_kmul touches. |
| `MpInts.Sqr` | pgsql-cvshead/contrib/pgcrypto/imath.c:901-945 | The target becomes the exact square under the same proviso. |
| `Shifts.QDiv` | pgsql-cvshead/contrib/pgcrypto/imath.c:2916-2966 | The magnitude is divided by 2^p2 and rounded down; the sign is kept unless the result is zero. |
| `Shifts.DivBits` | pgsql-cvshead/contrib/pgcrypto/imath.c:2940-2958 | The bit loop shifts a whole number down by fewer than 32 bits. |
| `Shifts.QMod` | pgsql-cvshead/contrib/pgcrypto/imath.c:2973-2986 | The magnitude becomes its remainder modulo 2^p2. |
| `Shifts.QMul` | pgsql-cvshead/contrib/pgcrypto/imath.c:2993-3067 | The magnitude is multiplied by 2^p2; the sign is kept. |
| `Shifts.MulBits` | pgsql-cvshead/contrib/pgcrypto/imath.c:3038-3050 | The bit loop shifts up by k bits and delivers the bits that leave the top. |
| `Shifts.QSub` | pgsql-cvshead/contrib/pgcrypto/imath.c:3075-3103 | A number is subtracted from the power of 2^32 of its own length, because the length is not brought up to date; where the digits it rewrites are worth at most 2^p2 they become 2^p2 minus that, and the assertion that no borrow is left holds. |
| `Shifts.DP2K` | pgsql-cvshead/contrib/pgcrypto/imath.c:3110-3133 | The exact power of two in a nonzero number, and 1 for zero. |
| `Division.TrialBounds` | pgsql-cvshead/contrib/pgcrypto/imath.c:3446-3458 | Where it is trusted, the trial digit is at least the true quotient digit and at most two too large; where the partial remainder is one digit longer than b and its top digit reaches btop, 1 is tried although b fits at least twice. |
| `Division.DbMul` | pgsql-cvshead/contrib/pgcrypto/imath.c:2861-2876 | A number times one digit, into zeroed digits. |
| `Division.LowerTrial` | pgsql-cvshead/contrib/pgcrypto/imath.c:3463-3467 | The correction loop ends with the largest digit not above the trial digit whose multiple fits under the remainder. |
| `Division.QuotientDigit` | pgsql-cvshead/contrib/pgcrypto/imath.c:3446-3474 | One digit d is chosen and d*b taken off the partial remainder; d is the quotient digit unless the trial digit was misjudged. |
| `Division.StepDown` | pgsql-cvshead/contrib/pgcrypto/imath.c:3434-3443 | Where b does not fit the remainder takes in the next digit; a zero is pushed exactly if the position has got nothing and is not the first. |
| `Division.StepDigit` | pgsql-cvshead/contrib/pgcrypto/imath.c:3444-3475 | Where b fits, a digit is pushed and its multiple of b taken off; pushes still due and the worth of the digits stay what the numbers say. |
| `Division.QuotientDigits` | pgsql-cvshead/contrib/pgcrypto/imath.c:3430-3476 | The run stays inside the buffer of the quotient if and only if the count of pushes, told on the two numbers alone, is at most its length. Then exactly that many digits are pushed, they are worth exactly what QuotientFrom says, and a mod b is left. |
| `Division.Norm` | pgsql-cvshead/contrib/pgcrypto/imath.c:3197-3216 | Both numbers are multiplied by the power of two that sets the top bit of b. |
| `Division.Reverse` | pgsql-cvshead/contrib/pgcrypto/imath.c:126-128 | The two pointers reverse the digits in place. |
| `Division.Collect` | pgsql-cvshead/contrib/pgcrypto/imath.c:3478-3481 | Digits pushed most significant first become a number of the same value without leading zeros. |
| `Division.LongDivision` | pgsql-cvshead/contrib/pgcrypto/imath.c:3417-3481 | Normalised division inside a buffer as long as the dividend or the default precision: inside if and only if the inputs satisfy Within, and then remainder and quotient are those of the numbers. |
| `Division.UDiv` | pgsql-cvshead/contrib/pgcrypto/imath.c:3393-3495 | For all a >= b > 0 the run stays inside its buffer if and only if the inputs satisfy QuotientInside. Then the second number becomes a mod b and the first the quotient delivered, which is a div b if and only if the inputs satisfy QuotientFound, and too large otherwise. |
| `Quotients.PushedAtMost` | pgsql-cvshead/contrib/pgcrypto/imath.c:3446-3474 | A position takes at most three digits, and the first n positions, n being the length of the divisor, at most one each. |
| `Quotients.QuotientExact` | pgsql-cvshead/contrib/pgcrypto/imath.c:3430-3476 | The quotient delivered is never too small, and it is right if and only if no partial remainder of the two numbers is misjudged. |
| `Division.DeliveredExact` | pgsql-cvshead/contrib/pgcrypto/imath.c:3393-3495 | The same for numbers that still are to be normalised. |
| `Division.FoundInside` | pgsql-cvshead/contrib/pgcrypto/imath.c:3417-3432 | Inputs whose quotient is right always stay inside the buffer. |
| `Division.ShortInside` | pgsql-cvshead/contrib/pgcrypto/imath.c:3417-3432 | Dividends of at most 21 digits, and all that are not much longer than the divisor, stay inside the buffer. |
| `Division.BufferLeft` | pgsql-cvshead/contrib/pgcrypto/imath.c:3417-3432 | For the divisor 2^63 + 2^32 - 1 and a dividend of every length: the run leaves the buffer if and only if the dividend has 34 digits or more. |
| `Division.RoundDivisorExact` | pgsql-cvshead/contrib/pgcrypto/imath.c:3449-3458 | One-digit divisors, and all others whose lower digits are zero, always divide exactly. |
| `Division.QuotientWrong` | pgsql-cvshead/contrib/pgcrypto/imath.c:3449-3458 | 2^95 divided by 2^63 + 1 is an input for which the quotient is wrong. |
| `Barrett.BarrettBounds` | pgsql-cvshead/contrib/pgcrypto/imath.c:3251-3262 | For every modulus of k digits and every x below B^(2k): 0 <= x - q2*m < 3m for the estimated quotient q2. |
| `Barrett.WrappedDifference` | pgsql-cvshead/contrib/pgcrypto/imath.c:3256-3273 | Differences modulo B^(k+1) of numbers that are r apart come out as r or as r - B^(k+1). |
| `Barrett.ReductionExact` | pgsql-cvshead/contrib/pgcrypto/imath.c:3239-3286 | With the right constant and 0 <= x < B^(2k), what s_reduce computes is x mod m: the estimate is at most two too small, a negative difference has exactly k+1 digits so that s_qsub corrects it, and two subtractions suffice. |
| `Barrett.Estimate` | pgsql-cvshead/contrib/pgcrypto/imath.c:3244-3250 | For every constant: the second temporary becomes the estimated quotient, unless the product would leave it. |
| `Barrett.SubtractEstimate` | pgsql-cvshead/contrib/pgcrypto/imath.c:3253-3273 | x becomes the difference modulo B^(k+1), made positive by s_qsub, which adds the power of 2^32 of the length of the difference. |
| `Barrett.TwoSubtractions` | pgsql-cvshead/contrib/pgcrypto/imath.c:3275-3282 | What is below 3m is below m after at most two subtractions, and is then the remainder. |
| `Barrett.BackOff` | pgsql-cvshead/contrib/pgcrypto/imath.c:3279-3282 | At most two subtractions of m, each where m fits. |
| `Barrett.Reduce` | pgsql-cvshead/contrib/pgcrypto/imath.c:3239-3286 | For every modulus, constant and x: it stays inside temporaries of a given length if and only if both products do, and then x becomes exactly the Reduction of the numbers. |
| `Barrett.GoalStep` | pgsql-cvshead/contrib/pgcrypto/imath.c:3319-3344 | Consuming one bit of the exponent, multiplying if it is set and squaring, keeps c * a^n mod m. |
| `Barrett.MulMod` | pgsql-cvshead/contrib/pgcrypto/imath.c:3321-3331 | c becomes the reduction of c*a if and only if all three products stay inside the temporaries. |
| `Barrett.SqrMod` | pgsql-cvshead/contrib/pgcrypto/imath.c:3334-3342 | a becomes the reduction of a*a under the same condition. |
| `Barrett.LowDigit` | pgsql-cvshead/contrib/pgcrypto/imath.c:3317-3345 | All 32 bits of a low-order digit of the exponent leave what the rest of the run delivers, and whether it stays inside, as it was. |
| `Barrett.TopDigit` | pgsql-cvshead/contrib/pgcrypto/imath.c:3350-3376 | The highest-order digit completes the run and stops at its top bit. |
| `Barrett.AllDigits` | pgsql-cvshead/contrib/pgcrypto/imath.c:3314-3376 | All digits of the exponent together. |
| `Barrett.Embar` | pgsql-cvshead/contrib/pgcrypto/imath.c:3295-3383 | For every modulus, constant, base and exponent, with temporaries of exactly twice the digits of the constant: the run stays inside them if and only if the numbers satisfy RunFits, and then c becomes what square and multiply with s_reduce makes of them. |
| `Barrett.PoweredExact` | pgsql-cvshead/contrib/pgcrypto/imath.c:3295-3383 | With the right constant and residues this is c*a^n mod m for every exponent, except that an exponent of 0 leaves a c that is m itself. |
| `Barrett.ConstantLength` | pgsql-cvshead/contrib/pgcrypto/imath.c:3239-3243 | The right constant has one or two digits more than the modulus. |
| `Barrett.TempsReserved` | pgsql-cvshead/contrib/pgcrypto/imath.c:3308-3309 | Twice the digits of the constant are enough for the product of two numbers of its length if and only if that is at most 32 or even. |
| `Barrett.TempsExact` | pgsql-cvshead/contrib/pgcrypto/imath.c:3308-3309 | The temporaries are long enough for all residues and exponents if and only if the right constant has at most 32 digits or an even number of them. |
| `Barrett.SquareOverruns` | pgsql-cvshead/contrib/pgcrypto/imath.c:3248-3249 | For every modulus whose constant is longer and of odd length, the estimate for the square of m - 1 needs digits that the temporaries do not have. |
| `ModExp.IsP2` | pgsql-cvshead/contrib/pgcrypto/imath.c:3138-3165 | The exponent if the magnitude is a power of two, and -1 if and only if it is not. |
| `ModExp.TwoExpt` | pgsql-cvshead/contrib/pgcrypto/imath.c:3172-3190 | The magnitude becomes 2^k for every k. |
| `ModExp.Div` | pgsql-cvshead/contrib/pgcrypto/imath.c:954-1072 | With both results, either of which may be left out or be an operand: undefined exactly for a zero divisor; inside its buffers if and only if DivInside; then the remainder has the right magnitude and the sign of the dividend, and the quotient has the magnitude DivValue and the product of the signs, never that of a zero. |
| `ModExp.DivValueExact` | pgsql-cvshead/contrib/pgcrypto/imath.c:954-1072 | The quotient is never too small, and right if and only if the dividend is not the larger number, the divisor is a power of two or s_udiv finds it. |
| `ModExp.Mod` | pgsql-cvshead/contrib/pgcrypto/imath.c:1079-1110 | Where the division stays inside its buffer, and also when the target is an operand: for a positive modulus the least nonnegative residue, for a negative one the remainder, from which a negative dividend takes the modulus once more. |
| `ModExp.PowerFound` | pgsql-cvshead/contrib/pgcrypto/imath.c:3393-3495 | Quotients by powers of two would also be found by s_udiv, so one condition covers both ways. |
| `ModExp.BrMu` | pgsql-cvshead/contrib/pgcrypto/imath.c:3223-3232 | Where the division stays inside its buffer the result is the Constant of the modulus, which is the reduction constant if and only if the modulus satisfies ConstantFound; for those it always stays inside. |
| `ModExp.ConstantExact` | pgsql-cvshead/contrib/pgcrypto/imath.c:3223-3232 | The constant is never too small, and right if and only if the modulus satisfies ConstantFound. |
| `ModExp.ExptMod` | pgsql-cvshead/contrib/pgcrypto/imath.c:1335-1381 | Undefined exactly for a zero modulus, out of range exactly for a negative exponent. For every positive modulus it stays inside its buffers if and only if the inputs satisfy ExptInside, and then delivers what Delivery says of them; if the constant is found that is a^b mod m if and only if not m = 1 and b = 0. |
| `ModExp.DeliveryExact` | pgsql-cvshead/contrib/pgcrypto/imath.c:1335-1381 | Where the constant is found, a^b mod m is delivered, and 1 for a^0 mod 1. |
| `WrongConstant.ConstantWrong` | pgsql-cvshead/contrib/pgcrypto/imath.c:3223-3232 | The modulus 2^64 - 2^32 + 1 does not satisfy ConstantFound: its constant comes out too large. |
| `WrongConstant.ExptWrong` | pgsql-cvshead/contrib/pgcrypto/imath.c:1335-1381 | Modulo this number the square of -1 stays inside all buffers and is delivered as a number above the modulus, not as 1. |
| `Gcds.GcdDivides` | pgsql-cvshead/contrib/pgcrypto/imath.c:1529-1535 | The reference gcd divides both numbers. |
| `Gcds.GcdGreatest` | pgsql-cvshead/contrib/pgcrypto/imath.c:1529-1535 | Every common divisor divides the reference gcd. |
| `Gcds.GcdStep` | pgsql-cvshead/contrib/pgcrypto/imath.c:1586-1605 | One round of the loop keeps the gcd with the common power of two left out, and leaves both numbers odd. |
| `Gcds.DivideOutTwos` | pgsql-cvshead/contrib/pgcrypto/imath.c:1566-1573 | The common power of two is divided out of both numbers and one of them becomes odd. |
| `Gcds.GcdRound` | pgsql-cvshead/contrib/pgcrypto/imath.c:1588-1605 | A round keeps the loop invariant and makes the larger number smaller unless it ends the loop. |
| `Gcds.OddGcd` | pgsql-cvshead/contrib/pgcrypto/imath.c:1575-1606 | The loop ends, with the odd part of the gcd. |
| `Gcds.MpGcd` | pgsql-cvshead/contrib/pgcrypto/imath.c:1535-1619 | Undefined exactly for two zeros; otherwise the target becomes the gcd of the absolute values, also when it is one of the operands. |
| `GcdRows.RowParity` | pgsql-cvshead/contrib/pgcrypto/imath.c:1700-1706 | When the number is even and not both start values are, adding (ov, -ou) makes both coefficients even unless they are. |
| `GcdRows.TrackedNext` | pgsql-cvshead/contrib/pgcrypto/imath.c:1695-1745 | Every round keeps this: if the second number divides the first, the second row never changes; if the first divides the second and is smaller, the first row never changes and the second coefficient of the other row is no multiple of the first number, or for a first number of 1 becomes zero and stays so. |
| `GcdRows.TrackedEnd` | pgsql-cvshead/contrib/pgcrypto/imath.c:1747-1756 | At the end the first coefficient is zero if and only if the second number divides the first, and the second one if and only if the first number is 1 and the second is not. |
| `GcdRows.VanishesScaled` | pgsql-cvshead/contrib/pgcrypto/imath.c:1681-1686 | The same for the inputs, their common power of two included: x = 0 if and only if b divides a, and y = 0 if and only if a is a power of two that divides b and is not b. |
| `GcdRows.BothNegative` | pgsql-cvshead/contrib/pgcrypto/imath.c:1678-1680 | Two negative inputs never satisfy the condition of EGcd. |
| `ExtendedGcd.EvenCoefficients` | pgsql-cvshead/contrib/pgcrypto/imath.c:1700-1706 | The correction keeps the combination and makes both coefficients even. |
| `ExtendedGcd.HalveRow` | pgsql-cvshead/contrib/pgcrypto/imath.c:1696-1710 | Halving keeps A*ou + B*ov = u and the gcd with every odd number, until u is odd, and computes exactly the recursive halving of the three numbers. |
| `ExtendedGcd.SubRow` | pgsql-cvshead/contrib/pgcrypto/imath.c:1728-1736 | Subtracting one row from the other keeps both combinations. |
| `ExtendedGcd.Round` | pgsql-cvshead/contrib/pgcrypto/imath.c:1695-1745 | One round keeps both combinations and the gcd and makes u + v smaller. |
| `ExtendedGcd.Rounds` | pgsql-cvshead/contrib/pgcrypto/imath.c:1694-1766 | The rounds end with v the gcd and C, D its coefficients. |
| `ExtendedGcd.Solve` | pgsql-cvshead/contrib/pgcrypto/imath.c:1694-1756 | For two numbers not both even: their gcd, its coefficients, and which of the coefficients are zero. |
| `ExtendedGcd.EGcd` | pgsql-cvshead/contrib/pgcrypto/imath.c:1630-1773 | c = gcd(a, b) = abs(a)*x + abs(b)*y for all a, b not both zero, also when one coefficient is not asked for. It equals a*x + b*y if and only if, for each negative input, the inputs make its coefficient vanish: a needs that b divides it, b that abs(a) is a power of two, divides b and differs from abs(b). |
| `GcdRows.SignedCombination` | pgsql-cvshead/contrib/pgcrypto/imath.c:1678-1680 | Coefficients of the absolute values are coefficients of the numbers if and only if those of negative numbers are zero. |
| `BinaryIO.TwosComplement` | pgsql-cvshead/contrib/pgcrypto/imath.c:3573-3590 | In place, a run of bytes becomes its negation modulo 256^len. |
| `BinaryIO.WriteDigits` | pgsql-cvshead/contrib/pgcrypto/imath.c:3607-3628 | The bytes written are worth the magnitude, in the least number of bytes, or digits are left over exactly when it needs more than the limit, and then its lowest bytes fill the limit; what lies behind is unchanged. |
| `BinaryIO.ToBin` | pgsql-cvshead/contrib/pgcrypto/imath.c:3597-3643 | Success exactly when twice the magnitude is below 256^limit; then the bytes are the magnitude, big-endian with a clear top bit, in the least number of bytes that has one. Otherwise its lowest bytes fill the limit. What lies behind the bytes written is unchanged. |
| `BinaryIO.ToBinary` | pgsql-cvshead/contrib/pgcrypto/imath.c:2102-2117 | Success if and only if 2*abs(z) < 256^limit; then the bytes written read as z in two's complement, and they are as few as have room for the magnitude below the top bit. Otherwise all of the limit is written, worth z modulo 256^limit. What lies behind is unchanged. |
| `BinaryIO.ReadBinary` | pgsql-cvshead/contrib/pgcrypto/imath.c:2124-2162 | The number becomes the two's-complement value of the bytes; the buffer is given back unchanged. |
| `BinaryIO.BigInjective` | pgsql-cvshead/contrib/pgcrypto/imath.c:3607-3640 | Byte strings of equal length and equal value are equal. |
| `BinaryIO.RoundTrip` | pgsql-cvshead/contrib/pgcrypto/imath.c:2101-2162 | Every integer that is written successfully is read back as itself. |
| `Skyline.UndominatedAbove` | thesis/bnl/Program.cs:35-38 | Under a strict order every tuple is dominated by, or is, one that nothing dominates. |
| `Skyline.EmittedSafe` | thesis/bnl/Program.cs:224-236 | A tuple that Propagate emits is incomparable to everything in the window and both queues. |
| `Skyline.CheckFacts` | thesis/bnl/Program.cs:111-124 | The check drops only dominated tuples and tells a candidate exactly when no remaining window tuple dominates it. |
| `Skyline.StepSafe` | thesis/bnl/Program.cs:83-140 | Every iteration of either algorithm keeps the invariant: nothing undominated is lost, output is comparable to nothing left, and timestamps say what each window tuple has met. |
| `Skyline.SafeEnd` | thesis/bnl/Program.cs:141-145 | With both queues empty, output and window together are the skyline. |
| `Skyline.FixedStepDecreases` | thesis/bnl/Program.cs:83-104 | Every iteration of FixedBNL that goes on makes a lexicographic measure of live tuples, passes left and input smaller. |
| `Skyline.Run.Propagate` | thesis/bnl/Program.cs:224-236 | Exactly the window tuples stamped tsIn move to the output, in order. |
| `Skyline.Run.DominanceCheck` | thesis/bnl/Program.cs:109-124 | The restarting scan computes the dominance check of the step model. |
| `Skyline.FixedEndsExactly` | thesis/bnl/Program.cs:81-140 | Some number of iterations of FixedBNL is enough if and only if the window size is at least 1 or there is nothing to read. |
| `Skyline.Run.FixedBNL` | thesis/bnl/Program.cs:75-146 | For every strict order and every window size and input for which it ends: what it adds to the output is exactly the skyline, duplicates included. |
| `OriginalBnl.Iteration` | thesis/bnl/Program.cs:157-208 | One round of the loop, in place on window, queues and counters, is one step of the model that all runs are proved about. |
| `OriginalBnl.OriginalBNL` | thesis/bnl/Program.cs:149-214 | Cut off after n iterations, the loop has either returned the output of the iterated step or not yet left it. |
| `OriginalBnl.ReturnsSkyline` | thesis/bnl/Program.cs:149-214 | If OriginalBNL returns, its output is the skyline. |
| `OriginalBnl.StuckNeverReturns` | thesis/bnl/Program.cs:157-208 | From a pass start with a full window of late, incomparable tuples no number of iterations reaches the exit. |
| `OriginalBnl.StuckPass` | thesis/bnl/Program.cs:157-208 | One pass from such a start leads back to it. |
| `OriginalBnl.PassProgress` | thesis/bnl/Program.cs:157-208 | Any other pass ends the loop, or drops or outputs a tuple, or fills the window further. |
| `OriginalBnl.ReturnsExactly` | thesis/bnl/Program.cs:149-214 | OriginalBNL returns if and only if no pass it reaches starts stuck. |
| `OriginalBnl.StuckSkyline` | thesis/bnl/Program.cs:157-208 | A pass that starts stuck holds a full window of skyline tuples and has another one to read, so the skyline has more tuples than the window. |
| `OriginalBnl.SmallSkylineReturns` | thesis/bnl/Program.cs:149-214 | OriginalBNL returns on every input whose skyline, duplicates included, fits the window. |
| `Dataset.BothAreOrders` | thesis/bnl/Program.cs:30-38 | The order that is used and the one that is commented out are strict orders. |
| `Dataset.DecimalWorth` | thesis/bnl/Program.cs:62-69 | The digits of a number in a name are decimal, worth the number, and without a leading zero. |
| `Dataset.NamesDistinct` | thesis/bnl/Program.cs:62-69 | Two names are equal only for the same letter and number. |
| `Dataset.CreateDataset` | thesis/bnl/Program.cs:58-72 | The three groups of tuples in order, named with consecutive numbers. |
| `Dataset.FirstPass` | thesis/bnl/Program.cs:149-214 | The state after the first 2w+t iterations on the data set. |
| `Dataset.SecondPassRepeats` | thesis/bnl/Program.cs:149-214 | For every window size and every number of middle tuples of at least 1, the state at the end of the second pass is the state at its start, tuple for tuple. |
| `Dataset.ReturnsOnDataset` | thesis/bnl/Program.cs:43-56 | On the data set OriginalBNL returns if and only if there is no middle tuple. |
| `IntArrays.ISort` | pgsql-cvshead/contrib/intarray/_int_tool.c:189-219 | The array is sorted in place, a permutation of what it was, and the result tells whether a value occurs twice. |
| `IntArrays.Pass` | pgsql-cvshead/contrib/intarray/_int_tool.c:202-216 | A pass settles one more element, keeps the permutation, and swaps nothing only if the array is sorted. |
| `IntArrays.Unique` | pgsql-cvshead/contrib/intarray/_int_tool.c:278-299 | In place: the first n elements are strictly sorted and are exactly the members of the sorted input. |
| `IntArrays.PrepareArr` | pgsql-cvshead/contrib/intarray/_int.h:50-55 | Any array becomes the strictly sorted array of its members. |
| `IntArrays.StrictUnique` | pgsql-cvshead/contrib/intarray/_int.h:50-55 | Two strictly sorted arrays with the same members are equal. |
| `IntArrays.InnerContains` | pgsql-cvshead/contrib/intarray/_int_tool.c:4-40 | True exactly when neither array is empty and every member of b is in a. |
| `IntArrays.InnerOverlap` | pgsql-cvshead/contrib/intarray/_int_tool.c:42-73 | True exactly when the arrays share a member. |
| `IntArrays.SameArrays` | pgsql-cvshead/contrib/intarray/_int_gist.c:307-336 | True exactly when the arrays are equal. |
| `IntKeys.Union` | pgsql-cvshead/contrib/intarray/_int_gist.c:97-132 | The strictly sorted array of everything that is in some entry. |
| `IntKeys.Double` | pgsql-cvshead/contrib/intarray/_int_gist.c:188-189 | In place, element k comes to stand at 2k and 2k+1. |
| `IntKeys.SomeGapSmall` | pgsql-cvshead/contrib/intarray/_int_gist.c:193-201 | Among more than 100 ranges of 32-bit integers some neighbours are less than 2^31 - 1 apart, so every merge round finds a candidate. |
| `IntKeys.FindGap` | pgsql-cvshead/contrib/intarray/_int_gist.c:195-201 | The candidate is an even index inside the array, with the first smallest distance in 32-bit arithmetic. |
| `IntKeys.SmallestGap` | pgsql-cvshead/contrib/intarray/_int_gist.c:197-201 | The candidate has the smallest true distance if and only if no two neighbours are 2^31 or more apart; otherwise it has the largest. |
| `IntKeys.RemovePair` | pgsql-cvshead/contrib/intarray/_int_gist.c:202-203 | In place, the two bounds around the gap disappear. |
| `IntKeys.MergedCovers` | pgsql-cvshead/contrib/intarray/_int_gist.c:202-203 | Merging two ranges adds what lies between them and nothing else, and takes nothing away. |
| `IntKeys.MergeRanges` | pgsql-cvshead/contrib/intarray/_int_gist.c:192-204 | From the doubled key the loop ends with exactly 200 bounds that cover all it started with and keep its ends: those around the 99 gaps that stay, every other gap having been closed before them. |
| `IntKeys.Compress` | pgsql-cvshead/contrib/intarray/_int_gist.c:166-214 | Keys of fewer than 200 elements are kept; from 200 on the result is 100 separate ranges around 99 gaps of the key. Every gap that was closed is in 32-bit arithmetic narrower than every gap that stays, or as wide and left of it. |
| `IntKeys.CompressedUnique` | pgsql-cvshead/contrib/intarray/_int_gist.c:192-204 | What Compress promises admits one result only. |
| `IntKeys.CompressedExact` | pgsql-cvshead/contrib/intarray/_int_gist.c:192-204 | The ranges cover the elements of the key and the numbers in its closed gaps, and nothing else. |
| `IntKeys.WidestKept` | pgsql-cvshead/contrib/intarray/_int_gist.c:197-201 | The 99 gaps that stay are the widest of the key if and only if no gap is 2^31 or wider. |
| `IntExpand.InternalSize` | pgsql-cvshead/contrib/intarray/_int_tool.c:264-276 | The 32-bit result is the true count, modulo 2^32. |
| `IntExpand.CountedExact` | pgsql-cvshead/contrib/intarray/_int_tool.c:264-276 | The count is the number of elements written if and only if every range that touches the one before is a single point. |
| `IntExpand.RangeLoopEnds` | pgsql-cvshead/contrib/intarray/_int_gist.c:269-269 | The loop over a range ends if and only if its upper bound is not the greatest int. |
| `IntExpand.WriteRange` | pgsql-cvshead/contrib/intarray/_int_gist.c:269-271 | Exactly the range is appended, without the number already at the end. |
| `IntExpand.Decompress` | pgsql-cvshead/contrib/intarray/_int_gist.c:217-280 | A strictly sorted array of exactly the numbers in some range, filling the space internal_size asked for. |
| `IntExpand.LoopsEndExactly` | pgsql-cvshead/contrib/intarray/_int_gist.c:266-271 | The loops over all ranges of a key end if and only if its last bound is not the greatest int. |
| `IntExpand.CompressedExpandable` | pgsql-cvshead/contrib/intarray/_int_gist.c:262-271 | All loops over the ranges of a compressed key end if and only if the greatest element of the key is not the greatest int; it can then be expanded if the count fits 32 bits. |
| `IntExpand.OnlyWidens` | pgsql-cvshead/contrib/intarray/_int_gist.c:180-271 | Compression followed by expansion gives a strictly sorted superset of the key with the same ends. |
| `IntExpand.BigLeafKept` | pgsql-cvshead/contrib/intarray/_int_gist.c:149-164 | A leaf key of 200 or more elements, which is stored uncompressed but expanded all the same, survives if and only if its elements come in pairs of neighbours. |
| `IntQueries.FindOprnd` | pgsql-cvshead/contrib/intarray/_int_bool.c:403-431 | In place, the offsets of one operand are those of its tree; everything else is untouched and pos ends just before it. |
| `IntQueries.LinkQuery` | pgsql-cvshead/contrib/intarray/_int_bool.c:481-482 | All offsets of a query. |
| `IntQueries.OffsetExact` | pgsql-cvshead/contrib/intarray/_int_bool.c:423-429 | The 16-bit offset leads to the left operand if and only if the right one has fewer than 2^15 items. |
| `IntQueries.CheckConditionArr` | pgsql-cvshead/contrib/intarray/_int_bool.c:234-254 | Binary search: true exactly for members. |
| `IntQueries.Execute` | pgsql-cvshead/contrib/intarray/_int_bool.c:265-292 | Following the offsets evaluates the query tree over the members of the array, with negations evaluated or taken for true. |
| `IntQueries.EvalWidens` | pgsql-cvshead/contrib/intarray/_int_bool.c:265-292 | What holds of a set with negations evaluated holds of every superset with negations taken for true. |
| `IntQueries.NotFreeExact` | pgsql-cvshead/contrib/intarray/_int_bool.c:265-292 | Without negations both ways of evaluating agree. |
| `IntQueries.ExecConsistent` | pgsql-cvshead/contrib/intarray/_int_bool.c:307-320 | The same for a whole query. |
| `IntQueries.BoolOp` | pgsql-cvshead/contrib/intarray/_int_bool.c:373-401 | The operator is true of a row exactly when it is not empty and satisfies the query. |
| `IntQueryLaws.NormalForm` | pgsql-cvshead/contrib/intarray/_int_bool.c:265-292 | A query holds of a set if and only if a clause of its disjunctive normal form does, and it does not hold if and only if a clause of the form of its negation does; with negations taken for true, a negation is a clause that always holds. |
| `IntQueryLaws.AllOf` | pgsql-cvshead/contrib/intarray/_int_bool.c:277-283 | Values joined by and, in brackets of any shape, are all members. |
| `IntQueryLaws.OneOf` | pgsql-cvshead/contrib/intarray/_int_bool.c:284-290 | Of values joined by or, one is a member. |
| `IntQueryLaws.NoneOf` | pgsql-cvshead/contrib/intarray/_int_bool.c:271-276 | Of values joined by or under a negation, none is a member. |
| `IntIndex.Consistent` | pgsql-cvshead/contrib/intarray/_int_gist.c:31-95 | Each strategy, the boolean one included, gives the answer defined on member sets, whatever order and repetition the query came with. |
| `IntIndex.NeverLost` | pgsql-cvshead/contrib/intarray/_int_gist.c:58-92 | A matching row passes the test on its leaf key and on every inner key that covers it, except for an empty row equal to an empty query. |
| `IntIndex.LeafExact` | pgsql-cvshead/contrib/intarray/_int_gist.c:58-92 | On leaf keys the test agrees with the operators, equality aside. |
| `IntIndex.BooleanNeverLost` | pgsql-cvshead/contrib/intarray/_int_bool.c:265-292 | The same for boolean queries. |
| `IntIndex.InnerExact` | pgsql-cvshead/contrib/intarray/_int_gist.c:58-92 | An inner test lets a key pass if and only if some row over the elements of the key matches, an empty equality aside. |
| `IntIndex.BooleanInnerExact` | pgsql-cvshead/contrib/intarray/_int_bool.c:265-292 | The same for boolean queries without negation. |
| `IntIndex.OperatorsAgree` | pgsql-cvshead/contrib/intarray/_int_bool.c:373-401 | A query that joins values by and finds the rows that contain them; one that joins them by or finds the rows that overlap them. |
| `IntIndex.FindsExactly` | pgsql-cvshead/contrib/intarray/_int_gist.c:25-95 | In every tree built by union, compression and expansion, whatever its leaves look like, a search reaches a row that satisfies its condition if and only if a leaf that stores the row passes the test: inner keys lose nothing. |
| `IntIndex.IndexFinds` | pgsql-cvshead/contrib/intarray/_int_gist.c:25-95 | Where leaves are read back as stored, and everywhere for conditions that more members cannot make false, such a row is reached if and only if it is not an empty row asked for by equality. |
| `IntIndex.LeafAnswers` | pgsql-cvshead/contrib/intarray/_int_gist.c:58-92 | A leaf of any size is found by a contained-by condition of its row if and only if its key, as read back, lies within the query, by a boolean one if and only if the key satisfies it, and by equality if and only if it is read back as stored. |
| `IntIndex.GapLost` | pgsql-cvshead/contrib/intarray/_int_gist.c:149-164 | Every number that reading back has added to a leaf loses its row to two searches: for rows contained in this one, and for rows without the number. |
| `IntIndex.BigLeafLost` | pgsql-cvshead/contrib/intarray/_int_gist.c:149-164 | A large leaf is found by every condition its row satisfies, an empty equality aside, if and only if it is read back as stored. |
| `IntIndex.SearchSound` | pgsql-cvshead/contrib/intarray/_int_gist.c:58-92 | In a tree whose leaves are read back as stored, a row found by a strategy that is not checked again satisfies the condition if and only if it is not an empty row found by a boolean query. |
| `IntIndex.BigLeafSound` | pgsql-cvshead/contrib/intarray/_int_gist.c:149-164 | A large leaf is found only by conditions its row satisfies if and only if it is read back as stored. |
| `Hstores.KeyOrder` | pgsql-cvshead/contrib/hstore/hstore_io.c:260-283 | On keys without NUL the comparison is zero only for equal keys and changes sign with its arguments. |
| `Hstores.KeyTrans` | pgsql-cvshead/contrib/hstore/hstore_io.c:260-283 | It is transitive. |
| `Hstores.KeyOrderExact` | pgsql-cvshead/contrib/hstore/hstore_io.c:260-283 | A key comes before another if and only if it is shorter, or as long and smaller at the first byte in which they differ. |
| `Hstores.OrderedExact` | pgsql-cvshead/contrib/hstore/hstore_io.c:260-283 | What is stored is in exactly that order. |
| `Hstores.MapOf` | pgsql-cvshead/contrib/hstore/hstore.h:15-35 | In key order, the entries are exactly the bindings of the map. |
| `Hstores.FindKey` | pgsql-cvshead/contrib/hstore/hstore_op.c:9-36 | The entry with the key if there is one, and -1 exactly when the map does not have it. |
| `Hstores.FetchVal` | pgsql-cvshead/contrib/hstore/hstore_op.c:38-62 | The binding in the map, with missing keys and null values alike giving nothing. |
| `Hstores.HsContains` | pgsql-cvshead/contrib/hstore/hstore_op.c:522-562 | True exactly when every binding of the template is one of the value; null equals only null. |
| `HstoreOps.CopyEntry` | pgsql-cvshead/contrib/hstore/hstore_op.c:191-195 | The destination grows by one entry, with its bytes and its new position. |
| `HstoreOps.Finish` | pgsql-cvshead/contrib/hstore/hstore_op.c:136-146 | When fewer entries than room for them were written, the overlapping move brings the string, byte for byte, to just behind them and overwrites none of them. |
| `HstoreOps.Delete` | pgsql-cvshead/contrib/hstore/hstore_op.c:101-153 | The map without the key, in key order, shorter keys first, and without gaps. |
| `HstoreOps.MergeMembers` | pgsql-cvshead/contrib/hstore/hstore_op.c:180-248 | The merge has the pairs of the second value, and those of the first whose key the second lacks. |
| `HstoreOps.MergeOrdered` | pgsql-cvshead/contrib/hstore/hstore_op.c:180-248 | The merge is in strict key order. |
| `HstoreOps.HsConcat` | pgsql-cvshead/contrib/hstore/hstore_op.c:155-266 | The union of the two maps, the second winning, in key order, shorter keys first, and without gaps. |
| `HstoreText.ScanAdvances` | pgsql-cvshead/contrib/hstore/hstore_io.c:37-152 | A word that was read ends inside the string, not before it began, and has no NUL. |
| `HstoreText.HSParser.GetVal` | pgsql-cvshead/contrib/hstore/hstore_io.c:37-152 | The loop over states and pointer computes the recursive reading of a word, errors included, of which WordScan says what it delivers. |
| `HstoreText.HSParser.ParseHstore` | pgsql-cvshead/contrib/hstore/hstore_io.c:161-258 | The same for the whole list of pairs, of which ParseMeaning and ParseDecides say what is delivered. |
| `HstoreGrammar.WordScan` | pgsql-cvshead/contrib/hstore/hstore_io.c:46-149 | Behind any white space, a quoted word and a bare word before a character that ends it are delivered without quotes and backslashes, marked as quoted or not, with the pointer left at the last character of the word or at the white space that ended it. |
| `HstoreGrammar.ParseMeaning` | pgsql-cvshead/contrib/hstore/hstore_io.c:161-258 | Every text of the grammar is parsed as the pairs it stands for: both words in full, their lengths modulo 2^16, and null for a bare value that spells it in letters of any case. |
| `HstoreGrammar.ParsedReads` | pgsql-cvshead/contrib/hstore/hstore_io.c:161-258 | Every text that is parsed is a text of the grammar and stands for the pairs collected. |
| `HstoreGrammar.ParseDecides` | pgsql-cvshead/contrib/hstore/hstore_io.c:161-258 | A text is parsed if and only if it is one of the grammar; it ends too soon if and only if it is not, but could go on to one; and it is wrong at a position if and only if the text before could go on to one and with the character there no longer can. |
| `HstoreGrammar.NullWord` | pgsql-cvshead/contrib/hstore/hstore_io.c:224-232 | A word is null exactly when its letters made small spell null. |
| `HstorePrint.Cpw` | pgsql-cvshead/contrib/hstore/hstore_io.c:403-415 | The text is appended with quotes and backslashes escaped. |
| `HstorePrint.HstoreOut` | pgsql-cvshead/contrib/hstore/hstore_io.c:419-473 | The printed form of the pairs in order. |
| `HstorePrint.EscapeUnits` | pgsql-cvshead/contrib/hstore/hstore_io.c:403-415 | The escaped text has a backslash before every quote and backslash and nothing else is changed; without the backslashes it is the text. |
| `HstorePrint.ParsePrint` | pgsql-cvshead/contrib/hstore/hstore_io.c:419-473 | The printed form is the text of the grammar with every word quoted but nulls, and a space after each comma. The parser collects from it exactly the pairs printed; a null and the text NULL stay apart. |
| `HstoreInput.PairsOrder` | pgsql-cvshead/contrib/hstore/hstore_io.c:260-283 | comparePairs is a total preorder. |
| `HstoreInput.UniquePairs` | pgsql-cvshead/contrib/hstore/hstore_io.c:285-324 | In place: every key once, in order, bound by a given pair that comes first among those with its key; the length returned is that of their bytes. |
| `HstoreInput.UniqueSame` | pgsql-cvshead/contrib/hstore/hstore_io.c:285-324 | Pairs already in strict key order are left as they are. |
| `HstorePacking.Pack` | pgsql-cvshead/contrib/hstore/hstore_io.c:373-397 | The packed value holds exactly the bindings of the pairs, without gaps, nulls with length 4. |
| `HstorePacking.HstoreIn` | pgsql-cvshead/contrib/hstore/hstore_io.c:346-401 | The error of the parser, or a valid value holding the parsed keys in key order, shorter keys first. |
| `HstorePacking.ParsedMap` | pgsql-cvshead/contrib/hstore/hstore_io.c:346-401 | As a map it has every parsed key, bound as one of the pairs says. |
| `HstorePacking.LayoutUnique` | pgsql-cvshead/contrib/hstore/hstore.h:15-35 | Contents determine the packed form, entry for entry and byte for byte, except for the length field of nulls. |
| `HstorePacking.NormalSame` | pgsql-cvshead/contrib/hstore/hstore_io.c:388-389 | Setting that field to 4 changes nothing if and only if it is 4 already. |
| `HstorePacking.RoundTrip` | pgsql-cvshead/contrib/hstore/hstore_io.c:346-473 | Reading back what was printed gives every valid value again; only the length field of nulls becomes 4. |

## Left out

- Memory: allocation failure, reallocation, detoasting and freeing. Temporaries that share one allocation in s_kmul and s_ksqr are separate arrays. The entries of a packed hstore that is being written are kept beside its bytes, not in them.
- KMul: the digits of dc that it touches must exist, and so Mul, Sqr, UMulTo and USqrTo require them. What happens beyond the end of an array is not part of this model: UDiv, Div, Mod, BrMu, Reduce, Embar and ExptMod stop there and say so, and the conditions for it are exact.
- Reduce: for a wrong constant stale digits above a difference can make the assertion of s_qsub fail; the model goes on, as the code does without assertions.
- ExptMod: a negative modulus is excluded, for which s_reduce compares and subtracts with the wrong sign; the routines on top of it, mp_int_invmod, mp_int_sqrt, mp_int_expt and conversion from and to text are not modelled.
- EGcd: a coefficient that is left out together with a zero input is excluded; the source writes to both outputs then.
- ToBin: requires a limit of at least one byte, which the test for the pad byte presupposes. In ReadBinary, or-ing a byte into a cleared low byte is an addition.
- FixedBNL: C# integers are unbounded here; counters do not wrap. Removing a tuple from the window by value removes the first one equal to it, as in the source.
- OriginalBNL: takes a bound on the number of iterations, since the loop need not end; everything about all runs is proved of the iterated step. The console output of the program is left out.
- ISort: qsort, which sorts in g_int_union and uniquePairs, is stood in for by the module's own sort and by an insertion sort. Nothing proved depends on the order of equal elements.
- Decompress: requires that the count of elements fits 32 bits, beyond which no allocation would succeed, ranges of which those that touch are points, and, as the loop takes bounds in pairs, an even number of them.
- Execute: requires right operands of fewer than 2^15 items, the exact bound of the 16-bit offset. The text parser of queries, the bit-signature and GIN variants, and shorterquery are left out.
- IndexFinds: page splits, penalties and concurrent changes of the tree are not modelled; any tree whose inner keys cover the keys below them counts.
- GetVal: a text ends at its NUL, so the grammar is one of strings without NUL. The word buffer is a growing sequence, isspace is that of the C locale, and case folding is that of ASCII letters.
- HstoreIn: positions beyond 31 bits are not modelled. The size estimate in hstore_out, which does not count null pairs in full, is replaced by a growing sequence.
- The remaining operators on packed values: tconvert, akeys, avals, the set-returning functions and the hstore index support.
- Picksplit and penalty heuristics, ciphers and hashes, cube, isn, btree_gist, ltree and the client programs of the repository.
