# Verification of four cores of Ruby

This project models the four parts of the Ruby 2.2 interpreter whose correctness is hardest to see from
reading the code, and proves what they promise:

- `bignum.c`: multi-precision arithmetic on digit buffers that are overwritten in place,
- `array.c`: the copy-on-write store behind arrays, and the generators of permutations, combinations and samples,
- `cont.c`: fibers, their links and their machine stacks,
- `compile.c`: condition code, the peephole pass over jumps, and the layout of instruction sequences.

`dafny verify dfyconfig.toml` checks everything.

## How the model is built

**Digits** (`Arith`, `BDigits`, `Bary`, `Shift`). A digit pointer is an address in one digit memory, so that buffers
may overlap or be the same, as in C. `W(cells, p, n)` is the number that n digits at p stand for. The radix
`B` is left open: everything holds for every power of two from 2^16 on. Every method says what it leaves
unchanged. Shifts are given by their power of two; the bitwise or of disjoint bits is an addition.

**Multiplication and division** (`Square`, `KaratsubaParts`, `ToomParts`, `MulBase`, `BigMul`, `BigDivide`, `FloorDivide`). The
mutually recursive routes of multiplication call one another as in the source; their termination measure is
the sum of both lengths. Which digits the sparsity test looks at is arbitrary. Stop requests during a
division are a sequence that the caller of the method chooses.

**Bits, packing, radix conversion** (`Bits`, `BitOps`; `PackFormat`, `Pack`, `Unpack`, `PackBytes`, `DigitOrder`, `PackFast`,
`UnpackFast`, `PackRoundTrip`; `RadixDigits`, `PowerCache`, `Big2Str`, `Str2Big`, `RadixBlocks`, `RadixRoundTrip`). The short
cuts of packing and unpacking are modelled beside the generic form, for hosts of both byte orders; the power
cache, the work area of the writer and the two buffers of the block reader are windows of digit memory.

**Arrays** (`ArrayState`, `ArrayHeap`, `ArrayOps`, `ArrayRun`). A heap holds objects that are embedded, own a buffer, are a
window of a root, or are a root with a count. `Inv` is the invariant of sharing: a count is at least the
number of users, a window lies inside the buffer of its root, and no buffer belongs to two objects. `View` is
what a Ruby program sees of an array. `Permutations`, `PermutationLaws`, `Combinations`, `Sampling` and `PartialShuffle` are the
generators.

**Fibers** (`FiberLinks`, `FiberThread`). The links are a value with a step function; `FiberThread` is the object that the
code updates, with its stacks, proved to follow that function.

**Compiler** (`JumpCode`, `BranchCode`, `Peephole`, `PeepholeLists`, `JumpLoop`, `PeepholePass`, `FoldLaws`, `PassLaws`, `PassEnd`,
`ForwardPass`, `IfPass`, `LiteralFold`, `Layout`, `LineNumbers`). A list of elements runs on an unknown machine: every
instruction other than a jump, a branch, a leave or a pop is an opaque step. Two lists have the same runs if
every number of visible steps from the start and from every entry label agrees. `Layout` has its own elements, with the operands, lines
and stack effects that runs do not see.

## What the proofs say about the code

Most of the promises hold for all inputs. Where one does not, the failure is proved to occur and the law is proved
outside it:

- `rb_ary_unshift_m` changes a frozen array when something is added and the array is the only window of a root
  with room in front: that path does not look at the frozen flag (`ArrayOps.Unshift`, `ArrayOps.FrozenUnshift`). No
  other operation changes a frozen array.
- A yield that is refused because the resumer is dead has already taken the link of the running fiber away.
  Unless that fiber was transferred to, resuming it from itself is then not noticed, and cycles of links can
  be made. Without such a yield, neither happens (`FiberLinks.SelfResumeIff`, `FiberLinks.RefusalAllowsCycle`).
- The peephole pass folds a jump into the branch before it even if a label between them is used; runs from
  that label then go on behind the jump instead of where it led. `FoldLaws.FoldRunsIff` says exactly when runs are
  kept all the same, `FoldLaws.UnsafeFold` has a list whose runs are not. No such fold happens in a list that is
  guarded (`PassLaws.GuardedSafe`).
- Code of the compiler itself is among those lists: an `if` with the condition `q || true || a`, nothing in its first
  part and its value unused enters the second part when q is false (`LiteralFold.LiteralMisled`). The branch of q leads
  over two jumps there, and a branch takes over a label only once. Conditions in which no operand leads over two
  jumps when it is false are compiled to code that the pass keeps (`IfPass.OptimizedIf`, `ForwardPass.ForwardPassed`).
- The loop at `again` of the peephole pass does not end for a jump that leads into a circle of other jumps, and
  ends otherwise (`JumpLoop.StopsIff`); the pass over a whole list ends exactly if no jump leads into a circle behind
  it (`PassEnd.PassEndsIff`).
- Instructions of line 0 at the beginning of a sequence that has other lines are given the first of those
  (`LineNumbers.LineFound`); all other lines are found again.
- `rb_big_aref` is right for every bignum but a negative zero, which no normalised bignum is (`BitOps.Aref`).

Hypotheses of the model: allocation succeeds, and lengths stay below the limits of `long`. A stop request counts
when it is seen at the head of the division loop. There is one thread with one protect tag, transfers go
through `Fiber#transfer`, and the root fiber exists from the start. Every label stands once and has an
instruction behind it, and an adjustment is never taken for a jump. `SIZEOF_BDIGIT` is the size of a digit in
memory.

## Model

| member | source | states |
|---|---|---|
| `Bary.Addc` | ruby/bignum.c:1374-1418 | z and the carry out are the sum of both operands and the carry in, for any lengths up to that of z, with z lying over an operand; digits outside z are unchanged |
| `Bary.Subb` | ruby/bignum.c:1311-1360 | z minus the borrow out is the difference of the operands and the borrow in, under the same conditions, whichever operand is longer |
| `Bary.Add` | ruby/bignum.c:1420-1424 | addition of runs of any length, with the carry that is lost if z is too short |
| `Bary.Sub` | ruby/bignum.c:1362-1366 | subtraction of runs of any length, with the borrow |
| `Bary.SubOne` | ruby/bignum.c:1368-1372 | z becomes one less, with the borrow when it was zero |
| `Bary.AddOne` | ruby/bignum.c:1426-1436 | z becomes one more, with the carry when all digits were the largest; the early exit at a digit that does not wrap leaves the rest right |
| `Bary.TwoComp` | ruby/bignum.c:447-466 | z becomes B^n minus its old value, or stays zero, and the answer tells which |
| `Bary.Trunc` | ruby/bignum.c:379-384 | leading zero digits are dropped without changing the value, and the new top digit is not zero |
| `Bary.Cmp` | ruby/bignum.c:379-395 | the answer is negative, zero or positive as the values are ordered, whatever leading zeros the operands have |
| `Bary.ZeroP` | ruby/bignum.c:429-438 | true exactly for the value zero |
| `Bary.MulAdd1xN` | ruby/bignum.c:1450-1483 | z grows by a digit times y, up to a carry of at most one out of z; the product accumulated in a step always fits two digits |
| `Bary.ProductFits` | ruby/bignum.c:1450-1483 | carry plus digit plus product of two digits is below B squared, for all digits |
| `Bary.MulNormal` | ruby/bignum.c:1525-1536 | schoolbook multiplication: z is the product, although the rows are added without looking at the carry out of z |
| `Bary.MulSub` | ruby/bignum.c:1485-1509 | the low digits and the signed word that is answered stand for z minus x times y; the word is above -B-1 and below B |
| `Bary.MulSub1xN` | ruby/bignum.c:1511-1523 | z minus a digit times y, with the borrow out of z |
| `Bary.PutTwo` | ruby/bignum.c:370-377 | a number below B squared is stored as its two digits |
| `Shift.SmallLshift` | ruby/bignum.c:397-410 | z and the digit shifted out are x times a power of two below B, with z over x allowed; the shifted bits never meet those of the running word |
| `Shift.SmallRshift` | ruby/bignum.c:412-427 | with a digit h above it, x is the shifted number times the power of two plus the bits that fall out, with z over x allowed |
| `Shift.DivremSingle1` | ruby/bignum.c:2565-2588 | quotient digits and remainder of a number, with a digit above it, by one digit |
| `Square.AccumulatorFits` | ruby/bignum.c:1553-1605 | in every inner step the accumulator stays below B squared and the carry at most 2B-2, because the doubled digit is kept as an even low part and one high bit |
| `Square.SqRow` | ruby/bignum.c:1569-1592 | a row adds the square of its digit and twice its product with the digits above, and its carry never runs past the two digits written |
| `Square.LastSquare` | ruby/bignum.c:1595-1604 | after the last row the whole is the square, and the carry into the last digit is not lost |
| `Square.SqFast` | ruby/bignum.c:1553-1605 | z is the square of x, for every length of x and every longer z |
| `KaratsubaParts.AbsDiff` | ruby/bignum.c:1747-1762 | the magnitude of a difference and the flag that it was negative |
| `KaratsubaParts.FoldLow` | ruby/bignum.c:1785-1794 | the low product and the saved half of the middle product, folded over the quarters of z and the work space, with their carry and borrow |
| `KaratsubaParts.FoldHigh` | ruby/bignum.c:1802-1822 | the high product added in the middle and everything carried added above it, modulo the length of z |
| `KaratsubaParts.ScheduleValue` | ruby/bignum.c:1771-1822 | what the in-place schedule leaves in z is l + (l+u-d)B^n + uB^2n for the three half products l, u, d |
| `KaratsubaParts.KaratsubaIdentity` | ruby/bignum.c:1723-1732 | that sum is the product of the operands |
| `BigMul.KaratsubaWork` | ruby/bignum.c:1734-1822 | the schedule over four quarters of z and the work space gives the product, or the square when both operands are one |
| `BigMul.Karatsuba` | ruby/bignum.c:1678-1845 | z is the product for all lengths xn <= yn < 2xn of at least two digits, odd ones included, and every zn from xn+yn on; only z and the work space change |
| `ToomParts.Evaluate` | ruby/bignum.c:2010-2081 | the three work windows receive the magnitudes of the operand at 1, -1 and -2, with flags for their signs; all of them fit n+1 digits |
| `ToomParts.InterpolateFirst` | ruby/bignum.c:2119-2158 | the first half of the interpolation; the division by 3 and the first halving are exact, and the flags stay right |
| `ToomParts.InterpolateSecond` | ruby/bignum.c:2160-2214 | the second half leaves the coefficients of the product polynomial, the second halving being exact too |
| `ToomParts.PointsFromProducts` | ruby/bignum.c:2083-2107 | the products at 1, -1 and -2 leave their top digit zero, so that two digits fewer are used |
| `ToomParts.Recompose` | ruby/bignum.c:2215-2242 | the five coefficients added at their places are the product |
| `ToomParts.ToomIdentity` | ruby/bignum.c:1976-2004 | the coefficients computed from the five points, taken as digits in base B^n, are the product of the operands |
| `BigMul.Toom3` | ruby/bignum.c:1860-2242 | z is the product for all lengths with 2*ceil(yn/3) < xn <= yn; squaring shares the evaluation |
| `BigMul.Balance` | ruby/bignum.c:1618-1664 | slices of the longer operand are multiplied and added, in z itself while there is room above, with the digits saved when there is not; z is the product for every xn < yn |
| `MulBase.ShortMul` | ruby/bignum.c:2297-2309 | multiplication of short operands, in either order or as a square |
| `MulBase.Precheck` | ruby/bignum.c:2324-2420 | either the product is in z, or two operands of at least two digits, the shorter first, are left, whose product times a power of B is the product |
| `MulBase.TinyProduct` | ruby/bignum.c:2384-2408 | products by nothing, by 1, by a power of two and by one digit |
| `BigMul.KaratsubaBranch` | ruby/bignum.c:2422-2450 | the product, whichever way is taken and whatever the random look for zero digits answers |
| `BigMul.KaratsubaStart` | ruby/bignum.c:2452-2459 | the product for any operands; with it and the members around it the recursion comes down in xn+yn |
| `BigMul.Toom3Branch` | ruby/bignum.c:2461-2475 | the product, by Karatsuba, by slices or by Toom-3 |
| `BigMul.Toom3Start` | ruby/bignum.c:2477-2484 | the product for any operands |
| `BigMul.BaryMul` | ruby/bignum.c:2486-2515 | z is the product of any two operands of any lengths, nothing outside z changes, and the whole mutual recursion ends |
| `BigDivide.TrialDigit` | ruby/bignum.c:2538-2543 | the trial digit is a digit, and taking its multiple away leaves less than the divisor and more than -B^yn, so that the top word is 0 or -1 |
| `BigDivide.TrialError` | ruby/bignum.c:2538-2550 | the trial digit is never below the quotient digit and at most 2 above it |
| `BigDivide.DivideStep` | ruby/bignum.c:2538-2553 | a turn of the loop with its add-back leaves the exact quotient digit at the top and the remainder, below the divisor, under it |
| `BigDivide.Divrem1` | ruby/bignum.c:2523-2556 | a run keeps the partial division between digits done and digits to do; stopped at its head it saves where to go on, unstopped it is finished |
| `BigDivide.Restoring` | ruby/bignum.c:2596-2633 | whatever stop requests are seen at the loop head: the low digits are the remainder, below the divisor, and the high digits the quotient; low zero digits of the divisor are skipped |
| `BigDivide.LowZeros` | ruby/bignum.c:2596-2633 | dividing above the low zero digits of the divisor divides the whole number |
| `BigDivide.Nlz` | ruby/bignum.c:2635-2694 | the shift that sets the top bit of a digit; none is needed exactly when it is set |
| `BigDivide.DivmodNormal` | ruby/bignum.c:2635-2694 | quotient and remainder of any numbers, each in its own buffer if one is given, with result buffers used as scratch space where they are large enough |
| `FloorDivide.DivideMagnitudes` | ruby/bignum.c:5906-5997 | quotient and remainder of magnitudes by the four ways: a larger divisor, one digit, two digits, the general case |
| `FloorDivide.BigDivrem` | ruby/bignum.c:5906-5997 | division towards zero; the sign of a quotient that is not 0 and the sign of the remainder; division by zero is refused, and nothing else |
| `FloorDivide.BigDivmod` | ruby/bignum.c:5999-6012 | floor division for all signs, the modulus with the sign of the divisor |
| `FloorDivide.FloorUnique` | ruby/bignum.c:5999-6012 | there is only one floor quotient and modulus |
| `Bits.BitOfDigit` | ruby/bignum.c:6738-6781 | bit i*BITSPERDIG+j of an integer of either sign is bit j of digit i of its infinite two's complement |
| `BitOps.AbsToTwoComp` | ruby/bignum.c:3037-3056 | the digits with their high bits stand in two's complement for the number given by sign and magnitude |
| `BitOps.TwoCompToAbs` | ruby/bignum.c:3011-3065 | the way back, with one digit more when the magnitude is exactly B^n |
| `BitOps.CombineDigits` | ruby/bignum.c:6370-6642 | digit by digit combination, the shorter operand going on with its high bits |
| `BitOps.BigOp` | ruby/bignum.c:6370-6642 | and, or and xor of two bignums of any signs agree with the operands at every bit of infinite two's complement |
| `BitOps.BitOfNegative` | ruby/bignum.c:6738-6781 | a bit of a negative number is the complement of that of its magnitude, unless only zeros are below it |
| `BitOps.Aref` | ruby/bignum.c:6738-6781 | the bit at any index, none at a negative one, for every bignum but a negative zero, for which the answer beyond its digits is wrong; the exact case is part of the contract |
| `BitOps.RightShift` | ruby/bignum.c:4367-4414 | a right shift is floor division by the power of two, for both signs, beyond all digits too |
| `Pack.FillDD` | ruby/bignum.c:586-597 | refilling the double digit keeps the bits still to come, and leaves a digit of them or all |
| `Pack.TakeLowbits` | ruby/bignum.c:599-607 | the bits taken are the low bits of what was left, and the others are left |
| `Pack.PackWord` | ruby/bignum.c:850-869 | a word receives the next bits of the number in its byte order, its nails zero |
| `Pack.PackAll` | ruby/bignum.c:823-874 | the words receive the number modulo 2^N, and the bits above are left over |
| `Pack.Overflow` | ruby/bignum.c:875-896 | the answer -2 to 2 is the documented one, with the exception for -2^N in two's complement |
| `Pack.ComplementAll` | ruby/bignum.c:899-949 | the pass over the bytes replaces the words by their two's complement and keeps the nails zero |
| `Pack.BaryPack` | ruby/bignum.c:625-954 | the generic packer: for every format and number the words are clean and stand for the number, or its two's complement, modulo 2^N, and the answer is the documented one |
| `PackBytes.ByteOfDigit` | ruby/bignum.c:725-754 | the bytes of a number are those of its digits, in order |
| `PackBytes.WordsOf` | ruby/bignum.c:649-802 | words without nails whose bytes are those of a number stand for it modulo 2^N, whatever the word and byte order |
| `PackFast.PackSingle` | ruby/bignum.c:654-723 | the short cut for one word gives clean words for the same number modulo 2^N and the same answer, the exception for -2^N included |
| `PackFast.BytesTwoComp` | ruby/bignum.c:610-622 | the two's complement of a buffer of bytes, and whether it was zero |
| `PackFast.PackBytesOf` | ruby/bignum.c:725-754 | the short cut that copies bytes does the same |
| `PackFast.PackDigits` | ruby/bignum.c:756-801 | the short cut that copies digits and puts them in order does the same |
| `DigitOrder.BarySwap` | ruby/bignum.c:468-478 | the digits of a window stand in the opposite order, the others as before |
| `DigitOrder.Rearrange` | ruby/bignum.c:780-797 | bytes, digits of a word and all digits swapped one after the other put every digit where the format wants it |
| `DigitOrder.RearrangeBack` | ruby/bignum.c:1155-1172 | the same swaps in the opposite order do so too |
| `DigitOrder.RearrangedBack` | ruby/bignum.c:1155-1172 | rearranging undoes itself |
| `DigitOrder.ViewByte` | ruby/bignum.c:780-797 | rearranged digits, seen as bytes by a host of either byte order, have every byte of the number in the place of the format |
| `PackFast.PackAnyWay` | ruby/bignum.c:625-954 | whichever way is taken, on a host of either byte order, the words and the answer are those of the contract |
| `PackFast.PackedUnique` | ruby/bignum.c:625-954 | that contract determines the words, so every short cut writes the bytes that the generic packer writes |
| `Unpack.PushBits` | ruby/bignum.c:1048-1058 | the digits written and the bits waiting stand for the bits pushed so far |
| `Unpack.UnpackDigits` | ruby/bignum.c:1193-1244 | the digits stand for the used bits of the words, and nothing outside them changes |
| `Unpack.UnpackInternal` | ruby/bignum.c:1079-1277 | the generic unpacker: sign and digits stand for the number that the used bits mean under the flags, padding bits of the top digit included |
| `UnpackFast.SingleDigit` | ruby/bignum.c:1060-1077 | sign and magnitude of a number of at most one digit, under all flags |
| `UnpackFast.UnpackSingle` | ruby/bignum.c:1091-1116 | the short cut for one word unpacks what the generic unpacker does |
| `UnpackFast.UnpackBytesOf` | ruby/bignum.c:1118-1146 | the short cut that copies bytes does the same, with the padding bytes set or cleared; without words, whatever the byte before the buffer is |
| `UnpackFast.UnpackDigitsOf` | ruby/bignum.c:1148-1190 | the short cut that copies digits does the same; without words, whatever the digit before the buffer is |
| `UnpackFast.UnpackAnyWay` | ruby/bignum.c:1079-1277 | whichever way is taken, for any number of words, sign and digits stand for the number that the words mean under the flags |
| `PackRoundTrip.RoundTrip` | ruby/bignum.c:3504-3609 | packing and unpacking gives a number back exactly when it is in the documented range for the flags |
| `PackRoundTrip.PackAndUnpack` | ruby/bignum.c:3504-3609 | packed in any way and unpacked in any other, a number in range comes back, for every format |
| `PackRoundTrip.NumBdigitsSmall` | ruby/bignum.c:956-964 | the number of digits needed, and of the padding bits |
| `PackRoundTrip.NumBdigitsGeneric` | ruby/bignum.c:966-1024 | the same without the product of all sizes |
| `PackRoundTrip.NumBdigitsAgree` | ruby/bignum.c:1026-1046 | both ways of counting agree |
| `RadixDigits.DigitsNumber` | ruby/bignum.c:4742-4817 | the digits of a number, read again, are the number, without a leading zero and each below the base |
| `RadixDigits.DigitsUnique` | ruby/bignum.c:4742-4817 | no other digits without a leading zero stand for the number |
| `RadixDigits.PaddedCut` | ruby/bignum.c:4582-4703 | a number in a fixed number of places is its quotient by a power of the base followed by its remainder |
| `PowerCache.MaxPow` | ruby/bignum.c:323-356 | the exponent is the largest whose power of the base fits two digits |
| `PowerCache.Squared` | ruby/bignum.c:5823-5852 | a new bignum with the square and no leading zero |
| `PowerCache.GetPower` | ruby/bignum.c:4481-4523 | entries are filled from level 0 on, each the square of the one below; entries made before stay valid, and nothing else in memory changes |
| `PowerCache.LevelDigits` | ruby/bignum.c:4484-4496 | the power of a level has more than 2^level digits |
| `Big2Str.DivideInPlace` | ruby/bignum.c:4666-4695 | the division in the buffer of the dividend leaves the remainder in its low digits and the quotient above, with the divisor shifted into the space behind when needed |
| `Big2Str.AllDigits` | ruby/bignum.c:4557-4569 | all digits of a number, which fit the local buffer |
| `Big2Str.Writer.TwoDigits` | ruby/bignum.c:4545-4580 | before output has begun the digits of the number are written, or none for zero, and room is made for them and those to come; afterwards exactly as many digits as two bignum digits hold |
| `Big2Str.Writer.FindLevel` | ruby/bignum.c:4635-4642 | the highest level whose power is not above the number, or level 0 |
| `Big2Str.Writer.Divide` | ruby/bignum.c:4666-4701 | quotient and remainder by the power, with enough work space left for both calls and the quotient not longer than the power |
| `Big2Str.Writer.Karatsuba` | ruby/bignum.c:4582-4703 | exactly numdigits*2^level digits of the number are written once output has begun, its digits without leading zero before, and the work area suffices; the powers used are always cached already |
| `Big2Str.ChooseLevel` | ruby/bignum.c:4766-4773 | the lowest level whose power has more than half the digits of the number; 2^level is below the number of digits, so that for sizes of 64 bits no level beyond the table is asked for and the loop never ends at its bound |
| `Big2Str.PowerAbove` | ruby/bignum.c:4775-4787 | a power with more digits than x is above x, and the square of one with more than half of them is |
| `Big2Str.Big2StrGeneric` | ruby/bignum.c:4742-4817 | the text is the digits of the number, most significant first, without leading zero, and fills the room allocated for it exactly; zero is the digit 0 |
| `Str2Big.TextKept` | ruby/bignum.c:3772-3814 | digits written as characters are read as those digits |
| `Str2Big.MulAdd` | ruby/bignum.c:3796-3810 | the digits in use times the base plus a digit, the length growing only when needed and never past the end |
| `Str2Big.Str2BigNormal` | ruby/bignum.c:3772-3814 | the digits stand for the number in the text, underscores and the like being passed over |
| `RadixBlocks.ReadBlocks` | ruby/bignum.c:3845-3868 | the blocks of the text fill the buffer exactly, each below the power of the base, and together stand for the number |
| `RadixBlocks.CombineAt` | ruby/bignum.c:3871-3881 | a pair of blocks, a pair with a short second block, a single block: combined where it belongs, without overflow |
| `RadixBlocks.CombineBlocks` | ruby/bignum.c:3870-3882 | a round combines all blocks two by two |
| `RadixBlocks.PairsJoin` | ruby/bignum.c:3869-3888 | combining blocks two by two does not change the number they stand for together |
| `RadixBlocks.PowerFits` | ruby/bignum.c:3869-3888 | the power of a level is never longer than a block of the level, so products fit |
| `RadixBlocks.Str2BigKaratsuba` | ruby/bignum.c:3816-3897 | the result, without leading zeros, is the number in the text; the buffers change places after every round and the cached powers stay intact |
| `RadixRoundTrip.EnoughDigits` | ruby/bignum.c:4086-4089 | the room given to the readers is enough for every text |
| `RadixRoundTrip.ReadDigits` | ruby/bignum.c:4077-4106 | both readers read the same number from every text of digits of the base |
| `RadixRoundTrip.WriteText` | ruby/bignum.c:4742-4817 | a minus for a negative number, then its digits in characters without a leading zero; 0 has neither sign nor another digit |
| `RadixRoundTrip.ReadText` | ruby/bignum.c:3967-3973 | a plus or minus before the digits gives the sign |
| `RadixRoundTrip.WriteAndRead` | ruby/bignum.c:4742-4817 | a number of either sign, written and read again by either reader, is the number, for every base from 2 to 36 |
| `ArrayState.ReplaceOk` | ruby/array.c:311-358 | an array may take another representation, and the invariant of shared buffers stays, if it takes no buffer of another and is counted where it now points |
| `ArrayState.PokeRootOk` | ruby/array.c:405-438 | writing through a window whose root is counted once changes no other array |
| `ArrayHeap.Heap.ResizeCapa` | ruby/array.c:251-283 | the elements stay while the storage moves between the object and a buffer |
| `ArrayHeap.Heap.DoubleCapa` | ruby/array.c:296-309 | the elements stay and there is room for more |
| `ArrayHeap.Heap.DecrementShare` | ruby/array.c:311-324 | a root that loses a user stays as long as another uses it, and goes only when none does |
| `ArrayHeap.Heap.Modify` | ruby/array.c:366-403 | afterwards the array has its storage to itself, with the same elements, and no other array has changed |
| `ArrayHeap.Heap.EnsureRoomForPush` | ruby/array.c:405-438 | the elements stay, and there is room behind them that no other array can see |
| `ArrayHeap.Heap.MakeShared` | ruby/array.c:626-657 | there is a root for the elements of the array, which keeps them; an unfrozen array that owned its buffer is the only user |
| `ArrayHeap.Heap.MakePartial` | ruby/array.c:884-912 | a new array with the part asked for; nothing else is seen to change |
| `ArrayOps.Cat` | ruby/array.c:962-984 | the elements are added at the end; a frozen array is refused and unchanged; no other array changes |
| `ArrayOps.Pop` | ruby/array.c:1008-1025 | the last element is answered and gone, or nil when there is none |
| `ArrayOps.PopM` | ruby/array.c:1045-1058 | a new array of the last elements, which are gone; a negative number is refused |
| `ArrayOps.Shift` | ruby/array.c:1060-1091 | the first element is answered and gone, by moving a window or the elements |
| `ArrayOps.ShiftM` | ruby/array.c:1116-1143 | a new array of the first elements, which are gone |
| `ArrayOps.EnsureRoomForUnshift` | ruby/array.c:1145-1200 | the elements stand behind room in front that no other array can see |
| `ArrayOps.Unshift` | ruby/array.c:1214-1230 | the elements are added at the front; a frozen array is refused exactly unless something is added and it is the only window of a root with room |
| `ArrayOps.FrozenUnshift` | ruby/array.c:1145-1230 | a frozen array that is changed by unshift is reached from any state |
| `ArrayOps.Store` | ruby/array.c:852-882 | the element is stored, with nil in a gap; an index before the beginning or beyond the largest size is refused, before a frozen array is |
| `ArrayOps.Splice` | ruby/array.c:1621-1682 | the part is replaced, behind the end with nil in the gap, also when the replacement is the array itself; the three index errors come before that of a frozen array |
| `ArrayOps.Replace` | ruby/array.c:3529-3567 | the array has the elements of the other, copied or shared |
| `ArrayOps.Clear` | ruby/array.c:3579-3594 | the array is empty and has let go of its storage |
| `ArrayOps.Slice` | ruby/array.c:1262-1329 | a new array with the part asked for, or nil |
| `ArrayOps.New` | ruby/array.c:839-849 | a new array with the elements |
| `ArrayOps.Freeze` | ruby/array.c:450-454 | the array is frozen and nothing else changes |
| `ArrayOps.Collect` | ruby/array.c:599-605 | a window that is collected without its root being told leaves the invariant, its root being over-counted |
| `ArrayRun.Perform` | ruby/array.c:839-1682 | every operation has its meaning on plain sequences, for all arrays of the heap at once, and keeps the invariant of shared buffers |
| `ArrayRun.NonInterference` | ruby/array.c:366-438 | no operation changes an array that is not its receiver |
| `ArrayRun.FrozenKept` | ruby/array.c:360-364 | a frozen array stays as it is exactly under every operation but an unshift of something to one that is unchecked: the only window of a root with room |
| `ArrayRun.Run` | ruby/array.c:839-1682 | over any sequence of operations on any arrays every step has its plain meaning, and the invariant holds all through: counts are at least the number of users, windows lie in their buffers, no buffer is shared unseen |
| `Permutations.Permute0` | ruby/array.c:4944-4977 | the loop with its explicit stack ends and yields the recursive enumeration |
| `PermutationLaws.PermutationsExact` | ruby/array.c:4944-4977 | that enumeration has all r-permutations and no other tuples, in strictly increasing lexicographic order, and as many as the descending factorial says |
| `PermutationLaws.DescendingFactorial` | ruby/array.c:4983-4992 | the product of the factors, 0 for a negative number of them |
| `PermutationLaws.Permutation` | ruby/array.c:5046-5082 | the same for every number of places, negative ones and too many included |
| `Combinations.Combinate0` | ruby/array.c:5084-5103 | the loop ends and yields the recursive enumeration |
| `Combinations.CombinationsExact` | ruby/array.c:5084-5103 | that enumeration has all subsets of the size and nothing else, in strictly increasing lexicographic order, and as many as Pascal's triangle says |
| `Combinations.ChooseFalling` | ruby/array.c:4994-5007 | the quotient of the descending factorials is exact and is the entry of Pascal's triangle |
| `Combinations.BinomialCoefficient` | ruby/array.c:4994-5007 | the answer is the entry of Pascal's triangle, although the code takes the smaller of both complements |
| `Combinations.Combination` | ruby/array.c:5139-5169 | the same for every size, negative ones and too large ones included |
| `Sampling.SampleIndices` | ruby/array.c:4809-4820 | the sorted-insertion loop chooses the tuple whose every index has as many unused numbers below it as the random number says |
| `Sampling.SampleTwo` | ruby/array.c:4793-4797 | the special code for two indices chooses the same |
| `Sampling.SampleThree` | ruby/array.c:4798-4807 | the special code for three indices chooses the same |
| `Sampling.SampleDrawn` | ruby/array.c:4774-4827 | every tuple stands for random numbers in the range drawn |
| `Sampling.SampleUnique` | ruby/array.c:4774-4827 | the same random numbers choose only one tuple |
| `Sampling.SampleOnto` | ruby/array.c:4774-4827 | every tuple of distinct indices is chosen by some random numbers in range |
| `PartialShuffle.SampleMany` | ruby/array.c:4828-4843 | the exchanging loop for more than ten elements answers the elements at the indices that the random numbers choose |
| `PartialShuffle.ChosenDistinct` | ruby/array.c:4828-4843 | those indices are distinct and in range |
| `PartialShuffle.ChosenUnique` | ruby/array.c:4828-4843 | different random numbers choose different indices |
| `PartialShuffle.ChosenOnto` | ruby/array.c:4828-4843 | every tuple of distinct indices is chosen by some random numbers in range |
| `PartialShuffle.ExchangesChoose` | ruby/array.c:4828-4843 | exchanging elements exchanges the indices they come from |
| `FiberLinks.BaseRun` | ruby/cont.c:1399-1500 | in every state of every run the running fiber and the root are alive, and links lead from suspended fibers to other fibers that have started |
| `FiberLinks.TerminatedForever` | ruby/cont.c:1399-1478 | a fiber that has terminated stays so and never runs again |
| `FiberLinks.FinishHandsOver` | ruby/cont.c:1463-1478 | a finishing fiber hands control to another that is alive: its resumer, or the root if that is dead or missing |
| `FiberLinks.LinksRun` | ruby/cont.c:1312-1500 | in every run without a refused yield of a fiber that was not transferred to: links form no cycle, the running fiber is the root, has a resumer or was transferred to, and resuming it raises |
| `FiberLinks.RefusedThenSilent` | ruby/cont.c:1496-1500 | right after such a refused yield, resuming the running fiber does not raise |
| `FiberLinks.SelfResumeIff` | ruby/cont.c:1480-1494 | resuming the running fiber raises in all states of a run if and only if no such yield is refused in it |
| `FiberLinks.RefusalAllowsCycle` | ruby/cont.c:1480-1500 | after such a refusal three more steps close a cycle of links |
| `FiberLinks.RefusalReached` | ruby/cont.c:1480-1603 | such a refusal is reached from the start by ten operations |
| `FiberThread.Thread.MachineStackAlloc` | ruby/cont.c:619-654 | a stack comes from the cache while there is one there, else from the system; every stack is held in one place |
| `FiberThread.Thread.Store` | ruby/cont.c:1338-1397 | control goes to the fiber, on a stack of its own, and the terminated slot is empty afterwards: its stack is in the cache or unmapped |
| `FiberThread.Thread.FiberSwitch` | ruby/cont.c:1399-1453 | the switch or its refusal, with every stack still held in one place |
| `FiberThread.Thread.ReturnFiber` | ruby/cont.c:1312-1330 | the fiber to go back to loses its link; from the root there is none |
| `FiberThread.Thread.FiberResume` | ruby/cont.c:1480-1494 | the step of the links for a resume, and the stacks in order |
| `FiberThread.Thread.FiberTransfer` | ruby/cont.c:1596-1603 | the same for a transfer |
| `FiberThread.Thread.FiberYield` | ruby/cont.c:1496-1500 | the same for a yield |
| `FiberThread.Thread.FiberTerminate` | ruby/cont.c:1463-1478 | the same for the end of a fiber, whose stack goes through the terminated slot, empty until then |
| `FiberThread.Thread.Run` | ruby/cont.c:1312-1603 | over any run the links go through the states of the run, every mapped stack is held in exactly one place, and the cache is filled exactly below its index |
| `BranchCode.ConditionRuns` | ruby/compile.c:2340-2383 | the code for every nested condition evaluates the operands that short-circuit evaluation does, in the same order, and goes to the one label if the condition is true and to the other if not |
| `BranchCode.StackKept` | ruby/compile.c:2340-2383 | a condition whose operands leave one value each leaves the stack as it was |
| `BranchCode.EmitLabels` | ruby/compile.c:2340-2383 | labels of emitted code are new and stand once |
| `BranchCode.IfRuns` | ruby/compile.c:3317-3347 | the code of an if enters the part that the condition chooses, and goes on behind the statement from the end of either part |
| `BranchCode.Compiler.CompileBranchCondition` | ruby/compile.c:2340-2383 | the elements appended are the code that the law is about |
| `BranchCode.Compiler.CompileIf` | ruby/compile.c:3317-3347 | the same for the whole if |
| `IfPass.EmitOk` | ruby/compile.c:2340-2383 | how many jumps a run from the beginning of condition code comes over, up to two, is told from the condition; if no operand leads over two when it is false, the code leads forward and its branches over at most one jump |
| `IfPass.OptimizedIf` | ruby/compile.c:3317-3347 | for every such condition, whatever its literals and parts: the pass over the if comes to an end, and afterwards the code shows the same operands in the same order and then what the chosen part shows |
| `LiteralFold.LiteralMisled` | ruby/compile.c:2340-2383 | a condition for which it does not: the code of q or true or a with an empty first part, where q leads over two jumps, goes on to the other part after the pass when q is false |
| `Peephole.NextInsn` | ruby/compile.c:1777-1805 | the first instruction or adjustment from a place on, with only labels before it |
| `Peephole.PrevInsn` | ruby/compile.c:1807-1819 | the last instruction or adjustment before a place, with only labels between; none exactly if only labels are before it |
| `PeepholeLists.WithPopRuns` | ruby/compile.c:1856-1876 | a pop put behind a leave is never reached |
| `Peephole.ThreadedRuns` | ruby/compile.c:1850-1855 | a jump that takes over the label of the jump it leads to keeps the runs |
| `Peephole.RebranchedRuns` | ruby/compile.c:1903-1917 | a branch that takes over the label of the jump it leads to keeps the runs |
| `Peephole.SwappedRuns` | ruby/compile.c:1891-1900 | a branch inverted and exchanged with the jump behind it keeps the runs, if no label between them is used |
| `PeepholeLists.RemovedRuns` | ruby/compile.c:1841-1849 | removing a jump to the next instruction keeps the runs |
| `PeepholeLists.LeavingRuns` | ruby/compile.c:1856-1876 | a jump to a leave, replaced by a leave, keeps the runs |
| `JumpLoop.StopsIff` | ruby/compile.c:1825-1855 | the loop at the label again stops if and only if the jump does not lead into a circle of two or more jumps that misses both the jump itself and the instruction behind it |
| `JumpLoop.StopsSoon` | ruby/compile.c:1825-1855 | if it stops, it does so within one turn more than the list has elements |
| `JumpLoop.NoCycleStops` | ruby/compile.c:1825-1855 | it stops when no two or more jumps lead in a circle |
| `JumpLoop.CircleNeverStops` | ruby/compile.c:1825-1855 | it never stops for a jump to any two jumps that lead to each other, apart from the jump and the instruction behind it |
| `JumpLoop.CircleExample` | ruby/compile.c:1825-1855 | a list with such a circle |
| `PeepholePass.RewrittenRuns` | ruby/compile.c:1821-1938 | every case of the pass keeps all runs, as long as a fold passes no label that is used |
| `PeepholePass.PassRuns` | ruby/compile.c:1821-2037 | the whole pass keeps every run from the beginning and from every entry, as long as no fold passes a label that is used at that time |
| `PassLaws.GuardedSafe` | ruby/compile.c:1821-2037 | no fold of the pass does so if, in the list that it is given, every label that a fold could come to pass is no entry and is referred to only from between the branch and the label |
| `PassLaws.RewrittenGuarded` | ruby/compile.c:1821-1938 | that condition is kept by every rewrite |
| `PassEnd.StopsHere` | ruby/compile.c:1825-1855 | when the pass comes to a jump, only the list from there on decides whether the loop stops |
| `PassEnd.TurnSettled` | ruby/compile.c:1821-1938 | jumps that the pass has dealt with lead to themselves, to no jump, or to a jump that leads to itself, and every rewrite keeps it so |
| `PassEnd.PassEndsIff` | ruby/compile.c:2012-2037 | a pass whose folds are safe comes to an end if and only if no jump of the list it is given leads into a circle of jumps behind it |
| `PassEnd.PassStops` | ruby/compile.c:2012-2037 | in particular when no two or more jumps lead in a circle |
| `PassEnd.WholePass` | ruby/compile.c:1821-2037 | from conditions on the given list alone: the pass ends and keeps every run |
| `ForwardPass.ReadyFold` | ruby/compile.c:1891-1900 | in a list that leads forward only, with no entry before a jump, a fold passes no label in use when no branch before it leads to a jump |
| `ForwardPass.RewrittenAhead` | ruby/compile.c:1821-1938 | every rewrite keeps it so, if no branch of the rest leads over two jumps |
| `ForwardPass.ForwardPassed` | ruby/compile.c:1821-2037 | a list that leads forward only, with no entry before a jump and no branch that leads over two jumps, is passed to the end and keeps every run |
| `FoldLaws.FoldRunsIff` | ruby/compile.c:1891-1900 | a fold keeps the runs if it passes no label in use, or if runs from where the jump leads and from behind the jump are alike in the old list and a way back from behind the jump to it leads nowhere; if the labels in use that it passes are entries, only then |
| `FoldLaws.FoldedLabel` | ruby/compile.c:1891-1900 | for every fold and every label that it passes: runs from the label went where the jump leads, and afterwards go on behind the jump |
| `FoldLaws.UnsafeFold` | ruby/compile.c:1891-1900 | a list in which a fold passes the label of another jump; its runs from the beginning are not kept |
| `PeepholePass.Iseq.ThreadJump` | ruby/compile.c:1825-1855 | where the loop stops it leaves the list that the laws are about |
| `PeepholePass.Iseq.PeepholeOptimize` | ruby/compile.c:1821-1938 | the same for one instruction, and where the pass goes on |
| `PeepholePass.Iseq.Optimize` | ruby/compile.c:2012-2037 | the pass ends exactly when every loop in it stops, and leaves the list that the laws are about |
| `Layout.SetLabelPositions` | ruby/compile.c:1432-1474 | the first pass gives every label the address of the element behind it, and counts the size and the lines |
| `Layout.PutInsn` | ruby/compile.c:1488-1625 | an instruction is accepted exactly when its operands are as many as its length says and its labels are known; its words are then written at its address |
| `Layout.MakeSequence` | ruby/compile.c:1476-1690 | the second pass accepts exactly the acceptable lists, fills exactly the room counted, and writes the line entries within the room counted for them |
| `Layout.EncodedSize` | ruby/compile.c:1476-1690 | the words of accepted elements take exactly the room of the first pass, each stack adjustment two of them |
| `Layout.EncodedAt` | ruby/compile.c:1476-1690 | the words of every element stand at the address of the first pass |
| `Layout.OffsetsLand` | ruby/compile.c:1525-1540 | an encoded offset added to the address behind its instruction is the address of the element its label stands before |
| `Layout.SetSequence` | ruby/compile.c:1420-1690 | both passes together: acceptance, contents, size, line entries and the greatest stack height |
| `LineNumbers.FindLine` | ruby/iseq.c:1075-1120 | the line of the last entry at or before an address, or of the first entry, or 0 |
| `LineNumbers.TableAscending` | ruby/compile.c:1617-1664 | line entries stand in ascending order of their addresses |
| `LineNumbers.LineFound` | ruby/compile.c:1617-1664 | the line looked up for an instruction is the one it was compiled with if and only if some instruction up to it has a line other than 0, or none has |

## Left out

- GMP back ends: they call a foreign library.
- Floating point: conversions and comparisons in `bignum.c` and all of `complex.c`.
- Recording calls of the BOP runtime in `array.c`: what they do is not in these files.
- Operands that are not bignums (`bigand_int`, `bigor_int`, `bigxor_int` and fixnum division): the same loops with one short operand, easier than those modelled.
- Left shifts of signed bignums: a shift of the magnitude, without the rounding that makes right shifts hard.
- `str2big_poweroftwo` and `big2str_base_poweroftwo`: packing with nails, which is modelled, and a table of characters.
- Big2Str.Big2StrGeneric: the sign and the characters are those of `RadixRoundTrip.WriteText`; the encoding of the text is not modelled.
- RadixRoundTrip.ReadDigits: space, prefixes and badly placed underscores are dealt with before the digits are read, and are not modelled; which reader is taken by length is left open.
- RadixRoundTrip.ReadText: only the sign before the digits is modelled.
- PowerCache.GetPower: the call of `rb_bug` at level 65 is not modelled; `Big2Str.ChooseLevel` shows that it is not reached.
- BitOps.Aref: an index that is itself a bignum of more than a machine word, for which the sign is answered, is treated as any other.
- ArrayHeap.Heap.DoubleCapa: the clamp of the new capacity at `ARY_MAX_SIZE` is not modelled.
- ArrayOps.Splice: the conversion of the replacement by `to_ary` is not modelled.
- ArrayOps.Slice: the forms of `[]` with one index or a range are not modelled.
- Failing allocation, and limits on sizes other than those of a store and a splice.
- Sorting, block-taking iterators and set operations of arrays: they rest on other libraries or on arbitrary blocks.
- Garbage collection beyond an array that is collected while its root is not told.
- Machine contexts, `mmap`, continuations and garbage collection of fibers; a switch is one atomic change of the running fiber.
- The C function `rb_fiber_transfer`, which does not mark the fiber as transferred to.
- FiberLinks.LinksRun: runs with a refused yield of a fiber that was not transferred to are excepted, because the law fails in them.
- PeepholePass.PassRuns: passes in which a fold passes a label in use are excepted, because runs can change there; `FoldLaws.FoldRunsIff` has the exact condition for one fold.
- PassLaws.GuardedSafe: the condition is sufficient and not necessary; which lists are passed safely depends on the rewrites before each fold.
- IfPass.OptimizedIf: conditions in which an operand leads over two jumps when it is false are excepted, because the law fails for some of them (`LiteralFold.LiteralMisled`); which of them are still kept depends on what the opaque instructions do.
- ForwardPass.ForwardPassed: the same exception, for branches of any list.
- Tail-call marking, specialised instructions, operand unification and stack caching: they rest on generated tables of instructions.
- Other cases of `iseq_compile_each`: the parts of an `if` are given as code.
- The doubly linked element list: it is a sequence here, so relinking is not modelled.
- Layout.SetSequence: the label offsets inside case-dispatch hashes are not modelled.
