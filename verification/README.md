# Verified models of the `ty` runtime

This project models the parts of the `ty` language runtime whose correctness is hard to
see from the code, and proves what they are for:

- **Substring search** (`Words`, `CriticalFactorization`, `MaximalSuffix`, `TwoWay`,
  `Memmem`): the two-way algorithm with its bad-byte table and its memory of matched
  prefixes, and the short-needle searches. It finds the leftmost occurrence; the proof
  contains the critical factorization theorem for the position the two scans find.
- **Shortest float printing** (`Powers`, `RealPowers`, `Logarithms`, `Exponents`, `Wide`,
  `Narrow`, `Product128`, `PowerOfTen`, `PowerOfTen64`, `Scaling`, `Shortest`, `DigitLoop`,
  `DigitGeneration`, `LastDigit`, `Chunks`, `DigitText`, `Format`, `Backend`, `Spacing`,
  `Numbers`): float80 and binary128 end to end, from the bit pattern to the text in the
  buffer, and the digit loops and the power-of-ten interval of the narrower formats.
  `Numbers.PrintFloat80` and `Numbers.PrintBinary128` say exactly what is written and when
  they fail; `OddReadsBack`, `NearlyReadsBack`, `NoneShorter` and `NearNumber` say for every
  number of the two formats what it means. `Backend` has the same for arbitrary midpoints.
- **Region allocators** (`Bump`, `Scratch`, `Arenas`): the scratch stack and the arena
  chain, over every nested run.
- **Barrier** (`Barrier`): the phase-counting `pthread_barrier_wait` as a transition
  system with spurious wakeups.
- **Array algorithms** (`Rotate`, `Flatten`), **ring deque** (`Queue`), **interning**
  (`Intern`), **decimal rendering** (`Render`). `Options` and `Integers` hold the optional
  value and the conversion to the C type `int`.

Machine words are integers with their bounds, and every wrap-around is written out. The
literal power-of-ten tables are parameters: what is assumed of them is `ExactTable`,
`FloorTable`, `FloorTable64` (each entry is exact, or is the floor of its scaled power)
and `NeverWraps` (adding two never carries out of the lowest limb). Hashes are an
arbitrary function, memory is addresses and pieces of memory, fresh memory is any aligned
stretch apart from what is in use.

Lengths and positions in float printing are in units of 2^-242, the resolution of the
backend: `Scaling.Endpoint` is a midpoint, `Backend.Printed` the number printed. `Slack` is
what scaling may lose at either end, two units.

Nine promises do not hold on all arguments. For each there is an exact condition, and an
argument that shows it fails where one is known. The first two are about the backend taken
by itself, for any midpoints:

- The digits are the fewest possible exactly when `DigitGeneration.ChunkSafe` holds: the
  width times 10000 must not wrap around before the first four-digit step. It holds for
  every number of both formats (`Numbers.AlwaysSafe`), so no caller sees this;
  `Backend.UnsafeMidpoints` are midpoints that no number has.
- The adjusted last digit stays in the interval exactly when `LastDigit.Misleads` does not
  hold: the guard compares only the high 64 bits. It never misleads for a number that is not
  a normal power of two (`Numbers.NeverMisled`); which of those it misleads for, if any, is
  not decided. `Backend.GuardMidpoints` are midpoints that no number has.
- The upper end of a power-of-ten interval is one exactly when the limb that is
  incremented does not wrap (`PowerOfTen.UpperEnd`, `PowerOfTen64.UpperEnd64`).
- The "does it fit" test of both allocators is right for every position and size exactly
  in regions with an aligned end (`Bump.TestExact`).
- A sleeper at the barrier fails to notice a finished generation exactly when a positive
  multiple of 2^32 generations have passed (`Barrier.PhaseTestInGeneral`), and there are
  such runs (`Barrier.SleeperKept`); with exactly `limit` threads this cannot happen.
- Rotating and flattening convert their argument to `int`. For rotation this does no harm
  exactly when it changes the amount by a multiple of the length
  (`Rotate.ConversionHarmless`), for flattening exactly when the limits take off the same
  number of levels (`Flatten.ConversionHarmless`). `Rotate.ConversionExample` and
  `Flatten.ConversionExample` are arguments where it does harm.
- The sums of indices that a rotation forms stay within `int` exactly when the last index
  plus the amount does (`Rotate.SumsFit`); `Rotate.SumOverflows` is a case where they do not.
- Interning keeps the set valid exactly while the positions in a bucket fit in 24 bits
  (`Intern.InternSet.Put`).
- Rendering reads one past its buffer, at `include/stb_sprintf.h:1124`, exactly for the
  value zero with the comma flag (`Render.EmitChunks`); what is there does not matter.

## Model

| member | source | states |
|---|---|---|
| `Memmem.Find` | include/mmmm.h:139-159 | for every haystack and needle: the leftmost occurrence, or none exactly when there is none |
| `Memmem.FindLast` | include/mmmm.h:162-181 | the last occurrence, or none exactly when there is none |
| `Memmem.TwoByte` | include/mmmm.h:14-20 | the rolling 16-bit window finds the first occurrence at or after the start, or there is none |
| `Memmem.ThreeByte` | include/mmmm.h:22-29 | the same for three bytes kept in the upper part of a 32-bit word |
| `Memmem.FourByte` | include/mmmm.h:31-38 | the same for a full 32-bit word |
| `TwoWay.Search` | include/mmmm.h:103-136 | the search loop returns the first occurrence, or none exactly when there is none; it ends and never reads past the haystack |
| `TwoWay.FillTables` | include/mmmm.h:52-54 | the bit set holds exactly the needle's bytes and the table the end of each byte's last occurrence |
| `TwoWay.Factorize` | include/mmmm.h:56-101 | the split is critical: every local repetition there is longer than the left part, at least the shift and a period of the needle; the memory is kept only for a true period |
| `MaximalSuffix.Scan` | include/mmmm.h:56-92 | for both orders: the suffix found is greater than every other suffix, and the period returned is its least period |
| `MaximalSuffix.ReadSmaller` | include/mmmm.h:64-67 | a smaller letter turns everything since the candidate into one unbordered block |
| `MaximalSuffix.ReadGreater` | include/mmmm.h:68-71 | a greater letter makes a later suffix beat all earlier ones |
| `CriticalFactorization.CriticalPosition` | include/mmmm.h:93-100 | at the later of the two maximal suffixes every local repetition is a period of the whole needle |
| `CriticalFactorization.LongPeriod` | include/mmmm.h:96-100 | if the needle has a period no longer than its right part, the suffix's period is one and the `memcmp` succeeds |
| `TwoWay.BadByte` | include/mmmm.h:109-121 | shifting by the table entry skips no occurrence |
| `TwoWay.RaiseToMemory` | include/mmmm.h:110-116 | raising that shift to the remembered length skips no occurrence |
| `TwoWay.RightMismatch` | include/mmmm.h:123-129 | shifting by the distance from the split to a mismatch in the right half skips no occurrence |
| `TwoWay.LeftMismatch` | include/mmmm.h:130-134 | shifting by the period after a mismatch in the left half skips no occurrence |
| `TwoWay.CompareLast` | include/mmmm.h:108-121 | the shift taken from the tables is safe, and is zero exactly if the last bytes agree |
| `TwoWay.CompareRight` | include/mmmm.h:124-129 | the first mismatch at or after the split, with all before it known to agree |
| `TwoWay.CompareLeft` | include/mmmm.h:131-132 | either the whole needle occurs here or a byte of the left half differs |
| `Backend.Print` | dtoa/SwiftDtoa.c:1488-1642 | the buffer holds sign, text and terminator of the decimal chosen for the midpoints, or zero is returned with an empty string exactly if they do not fit; the choice is a function of the arguments, and the text reads as the decimal, below zero exactly if asked |
| `Backend.ChoiceUnique` | dtoa/SwiftDtoa.c:1501-1639 | the arguments determine the choice, so its conditions can be decided before the call |
| `Backend.TextReads` | dtoa/SwiftDtoa.c:1488-1642 | an independent reader that takes a leading minus gets the chosen decimal back from the text, negated exactly if the number is negative |
| `Backend.TextShape` | dtoa/SwiftDtoa.c:1564-1567 | a minus stands first exactly for a negative number, and the rest has the shape that the exponent and the force flag ask for |
| `Backend.TextShort` | dtoa/SwiftDtoa.c:1558-1642 | where the first four-digit step is safe at most forty digits are chosen, so a buffer of 49 characters never fails unless the text ends in zeros |
| `Backend.ChooseMeans` | dtoa/SwiftDtoa.c:1554-1639 | the decimal chosen is in its interval, is shortest, and is near the exact value, each exactly under the stated condition |
| `Backend.OddPrints` | dtoa/SwiftDtoa.c:1522-1639 | for any midpoints and an odd significand the number printed lies between the midpoints, ends included; where the guard misled it is below by less than 2^-50 of its last place |
| `Backend.EvenPrints` | dtoa/SwiftDtoa.c:1531-1639 | for an even significand it lies between the midpoints widened by the slack of scaling, up to the same exception |
| `Backend.OddShortest` | dtoa/SwiftDtoa.c:1522-1605 | for an odd significand no decimal with fewer digits keeps the slack from both midpoints, whatever its exponent |
| `Backend.EvenShortest` | dtoa/SwiftDtoa.c:1531-1605 | for an even significand no decimal between the midpoints has fewer digits, whatever its exponent |
| `Backend.NearestPrints` | dtoa/SwiftDtoa.c:1607-1639 | the number printed is within half a unit of its last place of the exact number, two thirds where the exponent changes, up to the low limbs and the slack |
| `Backend.NarrowIsSafe` | dtoa/SwiftDtoa.c:1573-1579 | midpoints no further apart than a seventh of the upper one never make the first four-digit step wrap |
| `Backend.UnsafeMidpoints` | dtoa/SwiftDtoa.c:1573-1579 | arguments that no number has: midpoints with a one-digit decimal between them for which the wrapped width leads to five or more digits |
| `Backend.GuardMidpoints` | dtoa/SwiftDtoa.c:1607-1618 | arguments that no number has: midpoints, taken as those of an odd significand, for which the number printed lies below the lower one |
| `Numbers.PrintFloat80` | dtoa/SwiftDtoa.c:1282-1365 | for every non-zero float80 pattern: the midpoints passed on are those of the number, the buffer holds the text of its decimal, or an empty string exactly if that does not fit; 49 characters always suffice; for an odd significand the text reads as a number strictly nearer to the signed value of the pattern than to that of any other |
| `Numbers.PrintBinary128` | dtoa/SwiftDtoa.c:1385-1457 | the same for every non-zero binary128 pattern, through the fifteen-bit alignment and the borrow between the limbs |
| `Numbers.Float80Numbers` | dtoa/SwiftDtoa.c:1290-1341 | the float80 patterns stand for exactly the numbers of 64 bits, normal and subnormal |
| `Numbers.Float80Order` | dtoa/SwiftDtoa.c:1290-1341 | float80 patterns, read as sign and magnitude, are ordered like the signed numbers they stand for |
| `Numbers.Float80Same` | dtoa/SwiftDtoa.c:1293-1333 | only sixteen bits of the second word matter, and a zero exponent with the leading bit set means the same as exponent one |
| `Numbers.OneFloat80` | dtoa/SwiftDtoa.c:1334-1336 | the float80 pattern of one has the value one |
| `Numbers.Binary128Numbers` | dtoa/SwiftDtoa.c:1393-1427 | the binary128 patterns stand for exactly the numbers of 113 bits, normal and subnormal |
| `Numbers.Binary128Order` | dtoa/SwiftDtoa.c:1393-1427 | binary128 patterns, read as sign and magnitude, are ordered like the signed numbers they stand for |
| `Numbers.OneBinary128` | dtoa/SwiftDtoa.c:1420-1423 | the binary128 pattern of one has the value one |
| `Numbers.Interval128` | dtoa/SwiftDtoa.c:1424-1443 | the two-limb arithmetic gives the exact midpoints and the parity |
| `Numbers.OddReadsBack` | dtoa/SwiftDtoa.c:47-50 | for every number with an odd significand, every other number of its format is strictly farther from the decimal printed |
| `Numbers.SignedReadsBack` | dtoa/SwiftDtoa.c:47-50 | the same with signs: every other signed number is strictly farther from the signed decimal |
| `Numbers.NearlyReadsBack` | dtoa/SwiftDtoa.c:47-50 | for every number, unless the guard misled on a normal power of two, no other number of its format is closer to the decimal printed by two parts in 2^64 of an ulp |
| `Numbers.SignedNearlyReadsBack` | dtoa/SwiftDtoa.c:47-50 | the same with signs: no other signed number of the format is closer to the signed decimal by two parts in 2^64 of an ulp |
| `Numbers.NoneShorter` | dtoa/SwiftDtoa.c:52-53 | for every number no decimal between its midpoints has fewer digits, for odd significands none that keeps the slack from both |
| `Numbers.NearNumber` | dtoa/SwiftDtoa.c:55-57 | for every number the decimal printed is within half a unit of its last place of the number, two thirds on a boundary, up to the low limbs and the slack |
| `Numbers.OddStrictly` | dtoa/SwiftDtoa.c:1522-1639 | for every odd significand the number printed lies strictly between the midpoints |
| `Numbers.EvenWithin` | dtoa/SwiftDtoa.c:1531-1639 | for every even significand it lies between the midpoints widened by the slack, on a boundary unless the guard misled |
| `Numbers.AlwaysSafe` | dtoa/SwiftDtoa.c:1573-1579 | for every number of both formats, the smallest subnormal ones included, the first four-digit step is safe |
| `Numbers.NeverMisled` | dtoa/SwiftDtoa.c:1607-1639 | for every number that is not a normal power of two the guard does not mislead |
| `Numbers.NoMidpoint` | dtoa/SwiftDtoa.c:1522-1639 | for every number up to exponent three no odd multiple of half an ulp is printed |
| `Numbers.StrictEnds` | dtoa/SwiftDtoa.c:1522-1530 | for every larger odd number scaling moves both ends strictly inside |
| `Numbers.TextFits` | dtoa/SwiftDtoa.c:1558-1642 | for every number the text and its terminator take at most 49 characters |
| `Numbers.ForceMeans` | dtoa/SwiftDtoa.c:1363 | the exponential layout is forced exactly for numbers above two to the precision |
| `Scaling.Scale` | dtoa/SwiftDtoa.c:1501-1540 | the interval computed is the one `ScaledLow` and `ScaledHigh` give, inside the exact one for odd significands, containing it for even ones, each end within two units |
| `Scaling.ScaleMeans` | dtoa/SwiftDtoa.c:1501-1540 | the scaled ends compare with the exact midpoints as the parity asks for and are off by less than two units; the width is at least 2^114 - 4 |
| `Scaling.Align` | dtoa/SwiftDtoa.c:1542-1552 | the loop ends with a first digit that is not zero, both ends multiplied by the same power of ten and the exponent lowered by it |
| `Scaling.ShiftRange` | dtoa/SwiftDtoa.c:1512-1539 | for every binary exponent the right shift amounts to between 9 and 13 bits |
| `Scaling.PointDown` | dtoa/SwiftDtoa.c:1524-1526 | product and shift rounded down stay at most the exact scaled point and within two units of it |
| `Scaling.PointUp` | dtoa/SwiftDtoa.c:1528-1530 | product and shift rounded up stay at least the exact scaled point and within two units of it |
| `Exponents.DecimalExponentExact` | dtoa/SwiftDtoa.c:105-106 | for every binary exponent below 28738 in size the multiply-and-shift is the floor of the decimal logarithm |
| `Exponents.BinaryExponentExact` | dtoa/SwiftDtoa.c:103 | for every decimal exponent below 8651 in size the multiply-and-shift is the bit length of the power of ten |
| `PowerOfTen.Interval` | dtoa/SwiftDtoa.c:2726-2768 | the lower end is at most the power of ten and less than two below it; small powers are exact; the upper end is the lower one with two added to the lowest limb |
| `PowerOfTen.PowerEnds` | dtoa/SwiftDtoa.c:2726-2768 | if no limb wraps, both ends are within two of the power on either side of it |
| `PowerOfTen.TwoIsEnough` | dtoa/SwiftDtoa.c:2754-2760 | one rounded-down product of a floor and an exact factor is less than two below the true product |
| `PowerOfTen.UpperEnd` | dtoa/SwiftDtoa.c:2756-2765 | the upper end bounds the power exactly when the low 64-bit limb does not wrap |
| `PowerOfTen64.Interval64` | dtoa/SwiftDtoa.c:2672-2720 | the same for binary64: enclosed within one or two units, and the upper end is a bound exactly when the 128-bit sum does not wrap |
| `PowerOfTen64.UpperEnd64` | dtoa/SwiftDtoa.c:2698-2717 | for any limb size the incremented limb gives an upper bound exactly when it does not wrap |
| `PowerOfTen64.HighHalfExact` | dtoa/SwiftDtoa.c:2707-2709 | the upper half alone is the exact value of each small power the multiplication uses |
| `DigitGeneration.Generate` | dtoa/SwiftDtoa.c:1554-1605 | the buffer holds the digits the loops produce, with their remainder and width; it fails exactly if they do not fit with a terminator |
| `DigitGeneration.ProducedHits` | dtoa/SwiftDtoa.c:1554-1605 | for every `0 < l < u < 10` the digits produced lie in `[l, u]`, and no decimal with fewer digits does exactly when the first four-digit step is safe |
| `DigitGeneration.ProducedLength` | dtoa/SwiftDtoa.c:1573-1605 | at most forty digits are produced for the widths that occur, at most 78 ever |
| `DigitGeneration.FourAtATime` | dtoa/SwiftDtoa.c:1573-1594 | after the four-digit steps taken, one digit at a time leads to the same end; it fails only if the digits do not fit |
| `DigitGeneration.OneAtATime` | dtoa/SwiftDtoa.c:1596-1605 | ends with exactly the digits, remainder and width of the reference; it fails only if the digits do not fit |
| `Shortest.StopTest` | dtoa/SwiftDtoa.c:1597 | the digits so far denote a number in the interval if the remainder is within the width, and otherwise no decimal of that length does |
| `Shortest.FewestDigits` | dtoa/SwiftDtoa.c:1596-1605 | if no decimal with fewer fraction digits lies in the interval then none with fewer significant digits does, wherever its point |
| `DigitGeneration.FourIsOne` | dtoa/SwiftDtoa.c:1573-1605 | where the first four-digit step is safe the loops end with the digits, remainder and width of the one-digit loop alone |
| `DigitLoop.ChunkRuns` | dtoa/SwiftDtoa.c:700-711 | a chunk of any length that the one-digit loop does not stop inside gives the same digits, remainder and width |
| `Chunks.Binary32Digits` | dtoa/SwiftDtoa.c:700-723 | two digits at a time gives exactly the one-digit result without any wrap, and fails exactly when the digits and a terminator do not fit |
| `Chunks.Binary64Digits` | dtoa/SwiftDtoa.c:1160-1202 | the eight-digit step and the loop after it give exactly the one-digit result, and fail exactly when the digits do not fit |
| `DigitLoop.LoopsShortest` | dtoa/SwiftDtoa.c:700-723 | started from the integer part of the upper end, the loop gives digits in the interval and no decimal with fewer fraction digits lies there |
| `DigitLoop.Follows` | dtoa/SwiftDtoa.c:1596-1605 | the loop ends with digits of the upper end, a width scaled along, and a last digit that outweighs it |
| `LastDigit.Adjust` | dtoa/SwiftDtoa.c:1607-1639 | only the last character changes, to a digit lowered without a borrow |
| `LastDigit.Nearest` | dtoa/SwiftDtoa.c:1618-1639 | the lowered digit is within half a unit of the exact value as seen in the high 64 bits, and even where two digits are as near |
| `LastDigit.StaysInside` | dtoa/SwiftDtoa.c:1618-1639 | the lowered number is in the interval exactly where `Misleads`, a condition on width, remainder and digit, does not hold; it never misses by the weight of the low limbs |
| `LastDigit.StaysNear` | dtoa/SwiftDtoa.c:1618-1639 | the lowered number is within half a unit, or two thirds, of the exact value up to the low limbs |
| `Format.FinishFormatting` | dtoa/SwiftDtoa.c:1646-1721 | the buffer holds the layout and a terminator, or zero is returned with an empty string exactly when it does not fit; nothing outside is written |
| `Format.LayoutReads` | dtoa/SwiftDtoa.c:1646-1721 | for every digit string, exponent and force flag, an independent reader gets back the digits at their exponent from each of the four layouts |
| `Format.LayoutShape` | dtoa/SwiftDtoa.c:1653-1718 | the layout is exponential exactly if forced or the exponent is below minus four, with one digit before the point, no point for a single digit and no superfluous exponent digit; otherwise plain, with exactly the digits before and after the point that the number needs, at least one |
| `Format.ShapeShows` | dtoa/SwiftDtoa.c:1653-1718 | an `e` is in the text exactly in the first case, a point unless a single digit is shown exponentially, and a digit stands first |
| `Format.OnlyText` | dtoa/SwiftDtoa.c:1653-1718 | two texts of one shape that read the same are equal, so shape and value determine the layout |
| `Format.Exponential` | dtoa/SwiftDtoa.c:1653-1691 | the exponential layout is written in place, or zero is returned exactly when it does not fit |
| `Format.LeadingZeros` | dtoa/SwiftDtoa.c:1692-1701 | the layout below one is written by moving the digits up |
| `Format.PointInside` | dtoa/SwiftDtoa.c:1702-1705 | the point is put between the digits using the leading zero's place |
| `Format.TrailingZeros` | dtoa/SwiftDtoa.c:1706-1718 | zeros and a fraction are appended after moving the digits down |
| `Wide.Fixed256.MultiplyDown` | dtoa/SwiftDtoa.c:1950-1987 | with 64-bit limbs: the floor of the product over 2^128, no accumulator overflowing |
| `Wide.Fixed256.MultiplyUp` | dtoa/SwiftDtoa.c:2053-2093 | with 64-bit limbs: the ceiling of the product over 2^128 |
| `Wide.Fixed256.MultiplySmall` | dtoa/SwiftDtoa.c:1930-1947 | the product with a 32-bit number modulo 2^256 |
| `Wide.Fixed256.Subtract` | dtoa/SwiftDtoa.c:2160-2176 | the difference modulo 2^256 |
| `Wide.Fixed256.LessThanCorrect` | dtoa/SwiftDtoa.c:2179-2198 | the limb-wise comparison is the comparison of the values |
| `Wide.Fixed256.ShiftDown` | dtoa/SwiftDtoa.c:2201-2225 | the floor of the quotient by the power of two |
| `Wide.Fixed256.ShiftUp` | dtoa/SwiftDtoa.c:2228-2252 | the ceiling of the quotient by the power of two |
| `Wide.Fixed256.ExtractInteger` | dtoa/SwiftDtoa.c:217-222 | integer part returned, fraction left |
| `Narrow.MultiplyDown32` | dtoa/SwiftDtoa.c:1988-2049 | with 32-bit limbs in place: the floor of the product over 2^128; no 64-bit accumulator overflows and no limb is overwritten before it is read |
| `Narrow.MultiplyUp32` | dtoa/SwiftDtoa.c:2094-2156 | with 32-bit limbs in place: the ceiling |
| `Product128.MultiplyDown` | dtoa/SwiftDtoa.c:1750-1756 | the 128x64 product over 2^64 rounded down, from the two 64-bit halves |
| `Product128.MultiplyUp` | dtoa/SwiftDtoa.c:1789-1796 | the same rounded up |
| `Product128.MultiplyDown32` | dtoa/SwiftDtoa.c:1757-1785 | the limb form agrees with the exact floor |
| `Product128.MultiplyUp32` | dtoa/SwiftDtoa.c:1797-1825 | the limb form agrees with the exact ceiling |
| `Bump.TestExact` | include/ty.h:1494-1499 | the unsigned test on signed differences decides whether a request fits, for every position and size, exactly when the region's end is aligned |
| `Bump.Place` | include/ty.h:1499-1503 | an admitted request lies above every live block, aligned and in bounds |
| `Bump.LiveApart` | include/ty.h:1490-1505 | live blocks of regions that are apart never overlap |
| `Scratch.ScratchStack.Expand` | include/ty.h:1460-1486 | one more empty region in use: the next kept one, or a new one twice as large as the last |
| `Scratch.ScratchStack.Allocate` | include/ty.h:1490-1505 | for every size it ends with an aligned block apart from all live blocks: the next in the current region if it fits there, otherwise the first in the first later region that is large enough; every saved position stays valid |
| `Scratch.ScratchStack.Save` | include/ty.h:1513-1520 | the position separates the blocks of now from all later ones |
| `Scratch.ScratchStack.Unwind` | include/ty.h:1522-1531 | going back to a position that separates blocks makes exactly those before it live and empties the regions above |
| `Scratch.ScratchStack.Restore` | include/ty.h:1522-1531 | any outstanding save may be restored: index and bump pointer are those saved, exactly the blocks of that time are live, the saves around it stay |
| `Scratch.ScratchStack.Reset` | include/ty.h:1533-1545 | every region is empty and the first one in use |
| `Scratch.AllocateKeeps` | include/ty.h:1490-1505 | an allocation lies above every outstanding saved position |
| `Scratch.RestoreKeeps` | include/ty.h:1522-1531 | going back to any saved position keeps the whole invariant, including the earlier saves |
| `Arenas.Ty.NewArena` | src/alloc.c:24-64 | a fresh region becomes current with an empty header, and a level opens above everything live |
| `Arenas.Ty.Expand` | src/alloc.c:12-22 | the level goes on in a region of twice the size whose header holds the arena it extends |
| `Arenas.Ty.Allocate` | src/alloc.c:94-111 | for every size it ends with an aligned block apart from all live blocks: the next in the current region if it fits there, otherwise the first in the first doubled region that is large enough; outer arenas keep their contents |
| `Arenas.Ty.FreeArena` | src/alloc.c:78-92 | the recursion through the headers drops exactly the chain, and every field read after it comes from memory that is still there |
| `Arenas.Ty.Release` | include/alloc.h:35-40 | the arenas of the innermost level are dropped, the outer arena is current again and its blocks are live as before |
| `Arenas.DroppedOnce` | src/alloc.c:85-91 | each arena of the chain is unpinned or freed exactly once |
| `Arenas.DroppedOthers` | src/alloc.c:85-91 | no memory outside the chain changes |
| `Arenas.LevelChain` | src/alloc.c:18-20 | the regions made since the matching `NewArena`, expansions included, are what the headers chain together |
| `Arenas.CloseKeeps` | include/alloc.h:35-40 | after a release the outer levels satisfy the whole invariant |
| `Arenas.DoublingReaches` | src/alloc.c:18 | expanding reaches a region whose test admits the request exactly when the capacity is not zero or nothing is asked for |
| `Barrier.BarrierSafety` | include/barrier.h:113-132 | over every interleaving: no return before `limit` arrivals in its generation, one serial return per finished generation, `count` is the number of waiters of the current one |
| `Barrier.RunNoLag` | include/barrier.h:113-132 | with exactly `limit` threads no waiter is more than one generation behind |
| `Barrier.PhaseTestExact` | include/barrier.h:125-128 | with exactly `limit` threads the wrapping comparison tells a finished generation from the current one |
| `Barrier.PhaseTestInGeneral` | include/barrier.h:125-128 | with any number of threads it fails exactly after a multiple of 2^32 generations |
| `Barrier.SleeperKept` | include/barrier.h:125-128 | for every positive multiple of 2^32 there is a run with a sleeper that many generations behind, which waking up does not let go |
| `Barrier.PthreadBarrier.Init` | include/barrier.h:78-103 | fails on a zero count and changes nothing, else an empty barrier |
| `Barrier.PthreadBarrier.Enter` | include/barrier.h:116-125 | the code is the entering step of the transition system, serial exactly if the generation ends |
| `Barrier.PthreadBarrier.Recheck` | include/barrier.h:126-128 | the code is the waking step of the transition system; with exactly `limit` threads it leaves exactly if its generation is over |
| `Rotate.RotateArray` | src/array.c:2025-2065 | for every array and argument: each place holds the element that many places on, cyclically, the amount being the argument as an `int`; without an argument the first item goes to the back |
| `Rotate.RotatedSlices` | src/array.c:2025-2065 | rotating by up to the length moves that many items from the front to the back, in order |
| `Rotate.ConversionHarmless` | src/array.c:2034 | the conversion to `int` gives the rotation asked for, for all arrays of a length, exactly when it changes the amount by a multiple of that length |
| `Rotate.ConversionExample` | src/array.c:2034 | an amount that is no multiple of the length and leaves the array as it is |
| `Rotate.SumsFit` | src/array.c:2052 | the sums formed over the whole rotation stay within `int` exactly when the last index plus the amount does |
| `Rotate.SumOverflows` | src/array.c:2052 | a length and an amount for which a sum does not |
| `Rotate.RotateCycle` | src/array.c:2049-2061 | the inner loop ends and moves exactly the elements whose index is congruent to its start |
| `Rotate.Covered` | src/array.c:2046-2062 | every index lies on the cycle of its residue modulo the gcd |
| `Rotate.Distinct` | src/array.c:2051-2060 | no index is visited twice before the cycle closes |
| `Rotate.Gcd` | include/xd.h:151-161 | the result divides both numbers and is a combination of them, so it is their greatest common divisor |
| `Rotate.RotatedTwice` | src/array.c:2025-2065 | rotations add up, so rotating back restores the array |
| `Flatten.FlattenArray` | src/array.c:1650-1698 | the loop over the value and depth stacks gives the recursive depth-limited flattening, in order, the limit being the argument as an `int`; without an argument no array is left for nesting up to the largest `int` |
| `Flatten.FlatIsOpened` | src/array.c:1670-1695 | flattening within a limit replaces the arrays among the items by their items once for each level |
| `Flatten.ConversionHarmless` | src/array.c:1664 | the conversion to `int` gives the flattening asked for exactly when both limits take off the same number of levels |
| `Flatten.ConversionExample` | src/array.c:1664 | a depth that ought to flatten one level and leaves it as it is |
| `Flatten.PushItems` | src/array.c:1684-1687 | pushing an array's items backwards puts their flattening in front of what is pending |
| `Flatten.NothingLeft` | src/array.c:1650-1698 | with enough depth no array remains |
| `Flatten.NoDepthNoChange` | src/array.c:1650-1698 | with no depth the array is copied |
| `Queue.CountIsDistance` | include/queue.h:9-14 | the unsigned count is the cyclic distance from head to tail |
| `Queue.Ring.Size` | include/queue.h:9-14 | the count is the length of the sequence represented |
| `Queue.Ring.Grow` | include/queue.h:16-32 | growth keeps contents and order and starts them at zero |
| `Queue.Ring.PushBack` | include/queue.h:34-43 | appends to the sequence, growing from capacity zero on |
| `Queue.Ring.PushFront` | include/queue.h:45-54 | prepends to the sequence although the index steps below zero |
| `Intern.Find` | src/intern.c:10-24 | the first entry with the hash and name, or none exactly when there is none |
| `Intern.InternSet.Get` | src/intern.c:26-49 | the entry of a known name; otherwise an entry that changes no id, name or lookup |
| `Intern.InternSet.Put` | src/intern.c:51-66 | the uncommitted entry gets the next id and all others stay; the set stays valid, and the key leads to the entry, exactly while the position fits in 24 bits |
| `Intern.InternSet.Intern` | include/intern.h:21-26 | the names, in the order of their ids, are as before or have the new name appended, and the entry returned has the name's id; only a full bucket breaks the set |
| `Intern.InternSet.EntryOf` | include/intern.h:28-34 | every id leads through its packed key to the entry that has it |
| `Intern.RunIsBijection` | src/intern.c:26-66 | over every run: ids are dense, distinct for distinct names, never change, and every name asked for has one |
| `Intern.InternSet.InternAll` | include/intern.h:21-26 | over every run of requests whose new names fit in their buckets: every request gets an id, equal exactly for equal names, earlier ids stay and only requested names are added |
| `Intern.CommitAdds` | src/intern.c:51-66 | committing keeps buckets, index and names consistent and adds one entry |
| `Intern.PackExact` | src/intern.c:61 | a 32-bit key leads back to its place exactly for the first 2^24 places of a bucket |
| `Render.Render` | include/stb_sprintf.h:1092-1146 | for every 64-bit magnitude the buffer ends with its numeral, with a comma between each three digits from the right if asked, whatever follows the buffer in memory |
| `Render.EmitChunks` | include/stb_sprintf.h:1096-1136 | all chunks are shown; the read that follows is past the buffer exactly for the value zero with the comma flag |
| `Render.ReadsPastEnd` | include/stb_sprintf.h:1124 | the value for which it is |
| `Render.EmitPairs` | include/stb_sprintf.h:1106-1112 | pairs of digits of one chunk, at most one of them a superfluous zero |
| `Render.EmitGrouped` | include/stb_sprintf.h:1113-1122 | digits and commas of one chunk, with the stop pointer moved once per comma |
| `Render.FillZeros` | include/stb_sprintf.h:1128-1135 | the chunk is filled to eight digits, commas not counted |
| `Render.DigitsUnique` | include/stb_sprintf.h:1123-1127 | the numeral is the only digit string of its value without a leading zero |
| `Render.DigitsRead` | include/stb_sprintf.h:1092-1146 | the numeral reads back as the value |
| `Render.GroupedDigits` | include/stb_sprintf.h:1113-1122 | removing the commas gives the numeral back |

## Left out

- Intern.InternSet.InternAll: for runs whose new names fit in their buckets, beyond which `Intern.InternSet.Put` says what breaks.
- Queue.Ring.PushBack: when the ring is full, requires that doubling the capacity stays within the address space; the source does not guard against that overflow, nor does it in Queue.Ring.PushFront.
- Rotate.RotateArray: sums of two indices are unbounded; `Rotate.SumsFit` says when they stay within `int`.
- Wide.Fixed256.Subtract: the operand passed by value is a different object.
- Numbers.NearlyReadsBack: that a decimal in the slack beyond the midpoint of an even significand still reads back is not claimed, nor in Backend.EvenPrints; no bound on the slack alone decides it.
- Numbers.NeverMisled: for normal powers of two the guard is not decided; `Backend.GuardMisleads` is the exact condition, one for each exponent.
- Numbers.NoneShorter: the midpoints are the code's, which treats the smallest normal number as a boundary although the numbers below it are no closer together.
- Numbers.PrintFloat80: zeros, infinities, not-a-numbers and invalid patterns have other texts, which are not modelled, here or in Numbers.PrintBinary128.
- Chunks.Binary64Digits: starts where the seven first digits are not too many; the branch that backs out superfluous digits, with its heuristic midpoint, is not modelled.
- Render.Render: the sign, the width and precision, and the negation of the most negative integer are outside.
- Scratch.ScratchStack.Allocate: out of memory is not modelled; addresses are unbounded, as they are in Arenas.Ty.Allocate.
- Arenas.Ty.NewArena: one member for `NewArenaGC` and `NewArenaNoGC`; what the collector does with unpinned memory is not modelled, nor is making an arena immortal afterwards.
- Barrier.PthreadBarrier.Enter: mutex and condition variable are the atomicity of the steps; failures to create them are not modelled.
- The literal constants of the power-of-ten tables: they are parameters with stated properties.
- Not-a-number, infinity and zero texts, binary16, the decomposition and scaling step of binary32 and binary64 and their last-digit adjustments.
- Marking arenas and statistics, the garbage collector, permutation and sorting methods of arrays, the float, hexadecimal and string conversions of `stb_sprintf`, format parsing.
- The virtual machine, compiler, lexer, types, dictionaries, JSON, foreign functions and input/output.
- The vector macros, table and small array methods: they would only add easy members.
