# AritPIM: gate-level arithmetic in memory, verified

AritPIM computes on a bit memory with four gates: INIT0, INIT1, NOT and NOR, the last two ANDed into the old
output bit. The serial library works on single cells of a row, the parallel one on words with one bit in each of N
partitions. Scratch cells come from a first-fit allocator. On these gates stand ripple and parallel-prefix adders,
schoolbook, Karatsuba and carry-save multipliers, non-restoring and carry-save dividers, shifters, normalisers and
floating-point addition, multiplication and division.

The project models the two simulators, the allocator and these routines as imperative programs on `memory`, for every
bit width (and the parallel ones for every progression of partitions), and proves each against integer arithmetic on
the decoded bits:

- a simulator is a class whose `Perform` changes one memory word per cycle; the simulator's assertions are its
  preconditions, so that a verified routine never issues an illegal gate;
- each routine states the number it leaves in its output cells, that no other cell outside the scratch pool changes
  (`Kept`), that the pool is given back whole, that a stated number of free cells suffices, and its exact cycles;
- a floating-point routine is proved in two steps: the gates compute an integer function field by field
  (`FloatMul.Product`, `FloatDiv.Quotient`, `FloatAdd.UnsignedSum`, `FloatAdd.SignedSum`) for all operands, and that
  function is compared with roundTiesToEven (section 4.3.1 of IEEE 754-2008) on the encodings of section 3.4, defined
  in `Rounding` as nearest among all encodings. Magnitudes are integers counted in quanta, the value of the least
  subnormal; all-ones exponents are ordinary. Operands are normal or zero, as the repository's tests draw them.

Two results differ from what the routines' documentation suggests. Multiplication and division miss the least normal
number for exact results from half to a quarter quantum below it (`FloatMul.LeastNormalMissed`,
`FloatDiv.LeastNormalMissed`); `ProductExact` and `QuotientExact` give the exact condition. Results beyond the largest
exponent are flushed to zero by signed addition, multiplication and division (`SignedFlushed`, `ProductFlushed`,
`QuotientFlushed`), and wrap in unsigned addition (`UnsignedWraps`); the range conditions (`Packing.Reaches`) exclude
exactly these. The flush also clears the sign, so that a negative number times zero is positive zero. A comment in the multiplication routine names the written
constant -(1 << Ne - 1); the cells get the negated bias -(2^(Ne-1) - 1), which is what the model follows.

Widths: serial multiplication needs N >= 2 and floating-point multiplication Nm >= 3, because a request for one cell
returns a scalar where a list is indexed; the parallel routines need N >= 3, because smaller N leaves slices of
partitions empty; the floating-point routines need Ne >= 2, signed addition Ne >= ceil(log2(Nm + 3)). Statements about
roundTiesToEven are for Nm >= 1.

Modules follow the program: `Simulator`, `Allocator`, `Serial*` for serial/AritPIM.py, `ParallelSim`, `Parallel*` for
parallel/AritPIM.py, `Rounding`, `Packing`, `FloatMul`, `FloatDiv`, `FloatAdd`, `AddSteps`, `Prefix`, `CarrySave` and
`DivideSteps` for the mathematics, `TruncatedAdder`, `Sigmoid` and `Ranking` for the repository's own programs.
`dafny verify dfyconfig.toml` checks everything.

## Model

| member | source | states |
|---|---|---|
| `Simulator.SerialSimulator.Perform` | additional_material/week 3-4/AritPIM-master/serial/simulator.py:21-56 | one cycle: the output cell becomes the gate's value (NOT and NOR ANDed into its old bit), no other cell changes; legal exactly when inputs and outputs are disjoint and unique; latency and maxUsed |
| `ParallelSim.ParallelSimulator.Perform` | additional_material/week 3-4/AritPIM-master/parallel/simulator.py:28-115 | one cycle over lists of partitions in any order: all output partitions change at once from their old inputs; its precondition is the assertions made after sorting, so every caller proves them; latency, energy, maxUsed |
| `ParallelSim.ParallelSimulator.Gate` | additional_material/week 3-4/AritPIM-master/parallel/AritPIM.py:85-107 | the same on positions among the selected partitions, which form a progression in either direction: the selected partitions change like an array of their own, and the others keep their bits |
| `ParallelSim.LegalPlaced` | additional_material/week 3-4/AritPIM-master/parallel/simulator.py:46-75 | a cycle that is legal on positions 0..N-1 is legal on the selected partitions of the array, after the sort, for every base and every stride of either sign |
| `ParallelSim.WindowStep` | additional_material/week 3-4/AritPIM-master/parallel/simulator.py:81-97 | a cycle on selected partitions acts on them as on an array of only those |
| `ParallelSim.OutsideKept` | additional_material/week 3-4/AritPIM-master/parallel/AritPIM.py:85-107 | what every routine on selected partitions keeps: partitions outside the selection are unchanged, and partition base + k*stride holds what the routine states of position k |
| `ParallelSim.Asserted` | additional_material/week 3-4/AritPIM-master/parallel/simulator.py:53-75 | the assertions on the sorted partitions written out: equal distances, equal steps, a distance shorter than a step, different cells within a partition |
| `ParallelSim.SortedAscends` | additional_material/week 3-4/AritPIM-master/parallel/simulator.py:48-51 | the gates are checked in increasing order of their input partitions |
| `ParallelSim.ArangeLegal` | additional_material/week 3-4/AritPIM-master/parallel/simulator.py:53-75 | a gate over two progressions of equal stride is legal whenever the distance is smaller than the stride (and cells are distinct at distance 0): equal lengths, uniform distance, periodicity, no overlap |
| `Allocator.IntermediateAllocator.FirstFit` | additional_material/week 3-4/AritPIM-master/serial/AritPIM.py:27-54 | malloc: distinct, previously free cells in the order of the pool, the free set loses exactly them, and every cell before a returned one is in use |
| `Allocator.IntermediateAllocator.Free` | additional_material/week 3-4/AritPIM-master/serial/AritPIM.py:56-65 | free: the free set gains exactly the given cells |
| `Allocator.IntermediateAllocator.Recycle` | additional_material/week 3-4/AritPIM-master/parallel/AritPIM.py:389-415 | a cell freed just after it was allocated is the one the next malloc returns, which the division relies on when it frees notqtag and allocates the XOR word |
| `Allocator.UsedFromFree` | additional_material/week 3-4/AritPIM-master/serial/AritPIM.py:20-65 | the free set determines the allocation vector, so a routine that restores the one restores the other |
| `SerialGates.FullAdder` | additional_material/week 3-4/AritPIM-master/serial/AritPIM.py:1409-1454 | s + 2*cout = a + b + c in 18 cycles, outputs may be inputs |
| `SerialGates.FullSubtractor` | additional_material/week 3-4/AritPIM-master/serial/AritPIM.py:1457-1480 | s + 2*cout = a + (1 - b) + c in 20 cycles |
| `SerialGates.HalfAdder` | additional_material/week 3-4/AritPIM-master/serial/AritPIM.py:1375-1406 | s + 2*cout = a + b |
| `SerialGates.Xor` | additional_material/week 3-4/AritPIM-master/serial/AritPIM.py:1288-1335 | z = a XOR b in 10 cycles, in place if wanted |
| `SerialGates.XorGiven` | additional_material/week 3-4/AritPIM-master/serial/AritPIM.py:1305-1335 | the same with the complement of b given |
| `SerialGates.Mux` | additional_material/week 3-4/AritPIM-master/serial/AritPIM.py:1338-1372 | z = b if a else c in 8 cycles, computing the complement of a |
| `SerialGates.MuxGiven` | additional_material/week 3-4/AritPIM-master/serial/AritPIM.py:1353-1369 | the same in 6 cycles with the complement of a given, in place if wanted |
| `SerialGates.Or` | additional_material/week 3-4/AritPIM-master/serial/AritPIM.py:1257-1285 | z = a OR b |
| `SerialGates.Id` | additional_material/week 3-4/AritPIM-master/serial/AritPIM.py:1230-1254 | z = a |
| `SerialGates.ReduceOr` | additional_material/week 3-4/AritPIM-master/serial/AritPIM.py:1563-1591 | z is set exactly when the number in the cells is not zero |
| `Cells.BitOfVal` | additional_material/week 3-4/AritPIM-master/util/representation.py:22-37 | the decoder inverts the encoder: bit i of the number in a list of cells is the bit in cell i |
| `Words.BitOfNum` | additional_material/week 3-4/AritPIM-master/util/representation.py:22-37 | the same for words with one bit in each partition |
| `SerialFixed.FixedAddition` | additional_material/week 3-4/AritPIM-master/serial/AritPIM.py:68-113 | z + 2^N*carry = x + y + carry-in (absent, constant or cell) for every N and in place; 18N (+1) cycles; five scratch cells suffice, all given back; nothing else changes |
| `SerialFixed.FixedSubtraction` | additional_material/week 3-4/AritPIM-master/serial/AritPIM.py:116-155 | z = x - y modulo 2^N, carry out exactly when x >= y; 20N + 1 cycles, six scratch cells |
| `SerialFixed.FixedAddBit` | additional_material/week 3-4/AritPIM-master/serial/AritPIM.py:1483-1519 | z + 2^N*carry = x + carry-in, in 10N cycles for a cell and 10N + 1 for the constant 1 |
| `SerialFixed.Abs` | additional_material/week 3-4/AritPIM-master/serial/AritPIM.py:1522-1560 | z = x below 2^(N-1), 0 at it, 2^N - x above it: the two's-complement magnitude, in place |
| `SerialMultiply.Schoolbook` | additional_material/week 3-4/AritPIM-master/serial/AritPIM.py:191-232 | z = x*y over 2N bits in 20N^2 - 12N - 1 cycles with N + 7 scratch cells |
| `SerialKaratsuba.Karatsuba` | additional_material/week 3-4/AritPIM-master/serial/AritPIM.py:234-296 | one Karatsuba level is the exact product: half sums and their product kept in z's own cells, both subtractions never negative, the last carry never lost |
| `SerialKaratsuba.FixedMultiplication` | additional_material/week 3-4/AritPIM-master/serial/AritPIM.py:158-296 | z = x*y over 2N bits for every N >= 2 across the switch at N = 20, with the exact recurrence of cycles and a sufficient number of scratch cells |
| `SerialKaratsuba.MulCyclesEven` | additional_material/week 3-4/AritPIM-master/serial/AritPIM.py:163-176 | for even 20 < N <= 38 the recurrence gives 15N^2 + 83N + 107 cycles |
| `SerialDivide.NonRestoring` | additional_material/week 3-4/AritPIM-master/serial/AritPIM.py:346-384 | a non-restoring step keeps -d <= remainder < d and the relation of dividend, quotient bits and remainder |
| `SerialDivide.FixedDivision` | additional_material/week 3-4/AritPIM-master/serial/AritPIM.py:299-412 | q = z div d and r = z mod d for every N whenever z >> N < d, with the remainder register rotated over its own cells; 26N^2 + 56N + 7 cycles and ten scratch cells for every N |
| `SerialShift.VariableShiftRight` | additional_material/week 3-4/AritPIM-master/serial/AritPIM.py:1594-1649 | x becomes x div 2^t, sticky becomes sticky OR (x mod 2^t is not zero); cycles in closed form |
| `SerialShift.VariableShiftLeft` | additional_material/week 3-4/AritPIM-master/serial/AritPIM.py:1594-1649 | x becomes x*2^t modulo 2^N, sticky becomes sticky OR (x*2^t is at least 2^N); cycles in closed form |
| `SerialShift.NormalizeShiftLeft` | additional_material/week 3-4/AritPIM-master/serial/AritPIM.py:1652-1695 | t counts the leading zeros (0 for x = 0) and x becomes x*2^t with its top bit set, when t has ceil(log2 N) cells |
| `SerialShift.NormalizeShiftRight` | additional_material/week 3-4/AritPIM-master/serial/AritPIM.py:1652-1695 | t counts the trailing zeros and x becomes x div 2^t with its lowest bit set exactly when x was not zero |
| `Packing.QuantaGrid` | additional_material/week 3-4/AritPIM-master/serial/AritPIM.py:551-579 | the values of the encodings: one quantum apart below the least normal number, then twice as far apart in each binade as in the one before |
| `Packing.ExactRounds` | additional_material/week 3-4/AritPIM-master/serial/AritPIM.py:551-571 | an encoding is the rounding of its own value |
| `Packing.TiesToEven` | additional_material/week 3-4/AritPIM-master/serial/AritPIM.py:551-571 | midway between neighbours the even mantissa is the rounding |
| `Rounding.RoundsToUnique` | additional_material/week 3-4/AritPIM-master/serial/AritPIM.py:551-571 | roundTiesToEven, defined as nearest among all encodings with ties to even mantissas, determines one encoding |
| `Rounding.GuardSticky` | additional_material/week 3-4/AritPIM-master/serial/AritPIM.py:551-561 | rounding up on guard AND (sticky OR lsb) is rounding the exact value half to even |
| `Rounding.GridRounds` | additional_material/week 3-4/AritPIM-master/serial/AritPIM.py:551-579 | rounding on the grid of the value's binade is roundTiesToEven over all encodings |
| `Packing.FieldsExact` | additional_material/week 3-4/AritPIM-master/serial/AritPIM.py:1049-1068 | exactly when a rounded significand and an exponent that is flushed outside 0..2^Ne-1 are the roundTiesToEven encoding |
| `Packing.ReachesExponent` | additional_material/week 3-4/AritPIM-master/serial/AritPIM.py:1049-1052 | the computed exponent reaches t + 1 exactly when the value does, so range conditions can be checked on the value |
| `FloatMul.ExponentWraps` | additional_material/week 3-4/AritPIM-master/serial/AritPIM.py:1008-1052 | negated bias, both exponents, product carry and rounding overflow compose without loss modulo 2^(Ne+1) |
| `FloatMul.ProductExact` | additional_material/week 3-4/AritPIM-master/serial/AritPIM.py:951-1075 | the result is roundTiesToEven of the exact product if and only if the product does not round beyond the largest exponent and rounds to zero, or is at least the least normal number less a quarter quantum, or lies in the last half quantum that rounds to a subnormal; the sign is the XOR |
| `FloatMul.ProductFlushed` | additional_material/week 3-4/AritPIM-master/serial/AritPIM.py:1049-1068 | products beyond the largest number, and those that doubled do not reach the least normal number less a quarter quantum, give positive zero whatever the signs; every other result has the XOR of the signs |
| `FloatMul.OverflowFlushed` | additional_material/week 3-4/AritPIM-master/serial/AritPIM.py:1060-1068 | an overflow and a negative number times zero, both giving positive zero |
| `FloatMul.LeastNormalMissed` | additional_material/week 3-4/AritPIM-master/serial/AritPIM.py:1049-1068 | 7.5 quanta (3 exponent and 3 mantissa bits): roundTiesToEven is the least normal number 8, the routine returns the subnormal 7 |
| `SerialFloatMul.FloatingMultiplication` | additional_material/week 3-4/AritPIM-master/serial/AritPIM.py:951-1075 | the result cells hold FloatMul.Product of the operands for all operands, every Nm >= 3 and Ne >= 2; frame, scratch and exact cycles |
| `SerialFloatMul.MulRounds` | additional_material/week 3-4/AritPIM-master/serial/AritPIM.py:998-1046 | product, carry shift, guard and sticky bits round to the significand of the exact product |
| `FloatDiv.DivRounds` | additional_material/week 3-4/AritPIM-master/serial/AritPIM.py:1149-1201 | the truncated quotient with two extra bits and the remainder rounds to the exact quotient's significand after at most one left shift |
| `FloatDiv.QuotientNormalized` | additional_material/week 3-4/AritPIM-master/serial/AritPIM.py:1149-1177 | one left shift always normalises the quotient of normal significands |
| `FloatDiv.QuotientExact` | additional_material/week 3-4/AritPIM-master/serial/AritPIM.py:1102-1227 | for a normal divisor the result is roundTiesToEven of the exact quotient under exactly the same range conditions as for products |
| `FloatDiv.QuotientFlushed` | additional_material/week 3-4/AritPIM-master/serial/AritPIM.py:1205-1220 | the same for quotients |
| `FloatDiv.OverflowFlushed` | additional_material/week 3-4/AritPIM-master/serial/AritPIM.py:1205-1220 | an overflow and zero by a negative number, both giving positive zero |
| `FloatDiv.LeastNormalMissed` | additional_material/week 3-4/AritPIM-master/serial/AritPIM.py:1161-1220 | the least normal number missed by division in the same way |
| `SerialFloatDiv.DividendHigh` | additional_material/week 3-4/AritPIM-master/serial/AritPIM.py:1149-1156 | the inner fixed division's no-overflow precondition holds for every dividend and every normal divisor |
| `SerialFloatDiv.FloatingDivision` | additional_material/week 3-4/AritPIM-master/serial/AritPIM.py:1102-1227 | by a normal divisor the result cells hold FloatDiv.Quotient; for any divisor frame, scratch and exact cycles |
| `FloatAdd.NoRipple` | additional_material/week 3-4/AritPIM-master/serial/AritPIM.py:540-579 | after a mantissa carry rounding never ripples out of an all-ones significand, so the exponent is never one short |
| `FloatAdd.UnsignedExact` | additional_material/week 3-4/AritPIM-master/serial/AritPIM.py:439-585 | unsigned addition is roundTiesToEven of the exact sum if and only if the sum does not round beyond the largest exponent |
| `FloatAdd.SignedExact` | additional_material/week 3-4/AritPIM-master/serial/AritPIM.py:646-924 | signed addition is roundTiesToEven of the exact sum of the signed operands, with its sign, if and only if the sum is zero or at least the least normal number and does not round beyond the largest exponent |
| `FloatAdd.SignedFlushed` | additional_material/week 3-4/AritPIM-master/serial/AritPIM.py:869-924 | sums beyond the largest number, and those less than half the least normal number, give positive zero; every other result has the sign of the exact sum |
| `FloatAdd.SumsFlushed` | additional_material/week 3-4/AritPIM-master/serial/AritPIM.py:869-924 | an overflow of two negative numbers and the sum of two negative zeros, both giving positive zero |
| `FloatAdd.SubnormalLost` | additional_material/week 3-4/AritPIM-master/serial/AritPIM.py:869-924 | an exact sum of one quantum is returned as zero |
| `FloatAdd.UnsignedWraps` | additional_material/week 3-4/AritPIM-master/serial/AritPIM.py:573-579 | the exponent of an unsigned sum beyond the largest number wraps to zero |
| `FloatAdd.SumWrapped` | additional_material/week 3-4/AritPIM-master/serial/AritPIM.py:573-579 | twice the largest power of two wraps to zero |
| `Packing.ExponentRange` | additional_material/week 3-4/AritPIM-master/serial/AritPIM.py:1049-1068 | the exponent leaves its field at the top and at the bottom exactly when the value passes stated bounds |
| `FloatAdd.DifferenceExact` | additional_material/week 3-4/AritPIM-master/serial/AritPIM.py:612-643 | signed subtraction is roundTiesToEven of the exact difference, with its sign, under exactly the same conditions; equal operands give positive zero |
| `AddSteps.SignedRefines` | additional_material/week 3-4/AritPIM-master/serial/AritPIM.py:741-853 | alignment with guard, round and sticky bits, two's-complement subtraction through the sticky bit, carry shift, left normalisation and rounding give carry, leading zeros and rounded significand of the exact sum |
| `AddSteps.LostIsSmall` | additional_material/week 3-4/AritPIM-master/serial/AritPIM.py:751-760 | a set bit is lost below the sticky bit only when at most one leading place can cancel |
| `AddSteps.DroppedSum` | additional_material/week 3-4/AritPIM-master/serial/AritPIM.py:743-750 | an operand that is cleared because the exponents differ too much cannot change the rounded result |
| `AddSteps.UnsignedRefines` | additional_material/week 3-4/AritPIM-master/serial/AritPIM.py:520-570 | the same steps for unsigned addition, including the carry bit that its shift loses |
| `SerialFloatAddUnsigned.FloatingAdditionUnsigned` | additional_material/week 3-4/AritPIM-master/serial/AritPIM.py:439-585 | the result cells hold FloatAdd.UnsignedSum for all operands; frame, scratch and exact cycles |
| `SerialFloatAddUnsigned.UnsignedCyclesClosed` | additional_material/week 3-4/AritPIM-master/serial/AritPIM.py:444-459 | the cycles for every width, and the documented closed form whenever Ne > ceil(log2(Nm + 2)) |
| `SerialFloatAddSigned.FloatingAdditionSigned` | additional_material/week 3-4/AritPIM-master/serial/AritPIM.py:646-924 | the result cells hold FloatAdd.SignedSum for all operands and every Ne >= ceil(log2(Nm + 3)); frame, scratch and exact cycles |
| `SerialFloatAddSigned.FloatingSubtractionSigned` | additional_material/week 3-4/AritPIM-master/serial/AritPIM.py:612-643 | the signed sum of x and y with the sign of y inverted, field by field; frame, scratch and exact cycles |
| `SerialFloatAddSigned.SignedCyclesClosed` | additional_material/week 3-4/AritPIM-master/serial/AritPIM.py:651-673 | the documented closed form of the cycles whenever Ne > ceil(log2(Nm + 3)), and Nm + 5 fewer at equality |
| `SerialAlign.SwapOperands` | additional_material/week 3-4/AritPIM-master/serial/AritPIM.py:711-736 | larger exponent, its significand, the other significand, and the exponent difference in two's complement |
| `SerialAlign.DropFar` | additional_material/week 3-4/AritPIM-master/serial/AritPIM.py:743-751 | the smaller significand is cleared exactly when the exponents differ by 2^w or more |
| `SerialAlign.BumpExponent` | additional_material/week 3-4/AritPIM-master/serial/AritPIM.py:854-860 | the exponent grows by carry and rounding overflow modulo its width |
| `SerialFloat.RoundStage` | additional_material/week 3-4/AritPIM-master/serial/AritPIM.py:1027-1046 | the rounding step: significand, renormalised, and whether it overflowed |
| `SerialFloat.HiddenBits` | additional_material/week 3-4/AritPIM-master/serial/AritPIM.py:979-988 | hidden bits set exactly for nonzero exponents complete the significands |
| `SerialFloat.Flush` | additional_material/week 3-4/AritPIM-master/serial/AritPIM.py:1060-1068 | sign, exponent and significand cleared by X-MAGIC when the hidden bit is 0 or the exponent's top bit is set, else kept |
| `Prefix.Compose` | additional_material/week 3-4/AritPIM-master/parallel/AritPIM.py:138-177 | generate and propagate of adjacent runs compose |
| `Prefix.UpStep` | additional_material/week 3-4/AritPIM-master/parallel/AritPIM.py:139-157 | a level of the upward sweep: position j holds the run of the largest power of two up to 2^(i+1) that divides j |
| `Prefix.DownStep` | additional_material/week 3-4/AritPIM-master/parallel/AritPIM.py:159-177 | a level of the downward sweep: multiples of 2^i hold the whole prefix, for every N, power of two or not |
| `Prefix.GenIsCarry` | additional_material/week 3-4/AritPIM-master/parallel/AritPIM.py:109-177 | prefix generates with the carry folded into position 0 are the ripple carries |
| `ParallelAdd.Combine` | additional_material/week 3-4/AritPIM-master/parallel/AritPIM.py:146-157 | the seven gates of a level compose every position of a progression with the one 2^i below it, all legal |
| `ParallelAdd.FixedAddition` | additional_material/week 3-4/AritPIM-master/parallel/AritPIM.py:85-206 | z + 2^N*carry = x + y + carry-in (absent, constant 1, or a cell of any partition) for every N >= 3 and in place, carry out in any partition, whose cell keeps its other bits; 14*ceil(log2 N) + 25 cycles without ports and the exact cost of each port |
| `ParallelAdd.FixedSubtraction` | additional_material/week 3-4/AritPIM-master/parallel/AritPIM.py:209-237 | z = x - y modulo 2^N, output carry exactly when x >= y, other bits of its cell kept |
| `ParallelMultiply.Broadcast` | additional_material/week 3-4/AritPIM-master/parallel/AritPIM.py:276-289 | a bit in partition 0 reaches all partitions in ceil(log2 N) steps of two cycles |
| `ParallelMultiply.MulStep` | additional_material/week 3-4/AritPIM-master/parallel/AritPIM.py:276-319 | a round keeps x*(y mod 2^k) = Z_k + 2^k*(S + C) |
| `ParallelMultiply.FixedMultiplication` | additional_material/week 3-4/AritPIM-master/parallel/AritPIM.py:240-329 | w and z are the two halves of the exact product for every N >= 3; S + C never overflows; exact cycles |
| `DivideSteps.DivStep` | additional_material/week 3-4/AritPIM-master/parallel/AritPIM.py:413-536 | the four bits at the top give the sign of the remainder, and S + C is the remainder modulo 2^N |
| `DivideSteps.DoneInv` | additional_material/week 3-4/AritPIM-master/parallel/AritPIM.py:536-564 | shifting sum and carry words with the separate top bit doubles the remainder modulo 2^(N+1) and keeps it in range |
| `DivideSteps.Finishes` | additional_material/week 3-4/AritPIM-master/parallel/AritPIM.py:567-590 | quotient and corrected remainder satisfy Z = q*d + r with r < d |
| `Prefix.TopStep` | additional_material/week 3-4/AritPIM-master/parallel/AritPIM.py:464-482 | a level of the reduction towards the top partition, for every N |
| `ParallelDivide.QuotientBit` | additional_material/week 3-4/AritPIM-master/parallel/AritPIM.py:487-538 | the quotient bit is NOT of the XOR of lookahead carry, full-adder carry, separate top bit and previous quotient bit, and the next top bit is the XOR of the top sum and carry bits |
| `ParallelDivide.FixedDivision` | additional_material/week 3-4/AritPIM-master/parallel/AritPIM.py:332-590 | q = Z div d and r = Z mod d for every N >= 3 and every dividend with Z >> N < d, with the carry word in r's cells; exact cycles |
| `ParallelDivide.DivisionCycles` | additional_material/week 3-4/AritPIM-master/parallel/AritPIM.py:332-590 | the cycles of the division in closed form |
| `TruncatedAdder.AddApproxHw` | truncated_adder/simulate_python.py:12-38 | the bit-level adder for every width: the exact sum with carry in and carry out if nothing is truncated, the sum of the accurate parts without carry in otherwise, and equality with the word-level form whenever a bit is truncated or the carry in is 0 |
| `TruncatedAdder.MaskedSum` | truncated_adder/verify_truncated_adder.py:32-51 | masking the sum of masked words only removes the overflow |
| `TruncatedAdder.TruncationError` | truncated_adder/verify_truncated_adder.py:32-51 | exact minus approximate sum modulo 2^w is the sum of the truncated parts, at most 2^(n+1) - 2 |
| `Sigmoid.WriteConstant` | additional_material/week 3-4/AritPIM-master/util/representation.py:4-19 | the cells hold the constant modulo 2^N |
| `Sigmoid.HornerSerial` | additional_material/week 3-4/AritPIM-master/f6_dashboard.py:241-324 | the whole 2N-bit result with its reductions modulo 2^N and 2^(2N); its low N bits are x^3 + 12x^2 + 60x + 120 modulo 2^N; x and all other cells unchanged |
| `Sigmoid.HornerLow` | additional_material/week 3-4/AritPIM-master/f6_dashboard.py:241-324 | reduction modulo 2^N and 2^(2N) between the steps leaves the low bits alone |
| `Sigmoid.DenominatorSerial` | additional_material/week 3-4/AritPIM-master/f6_dashboard.py:633-708 | the low N result bits are 24x^2 + 240 modulo 2^N; result cells above them, if there are any, take the upper bits of 24 times the low half of x^2; x and all other cells unchanged |
| `Ranking.AssignCompetitionRanks` | additional_material/week 3-4/AritPIM-master/f6_dashboard.py:2311-2345 | every result's rank is one more than the number of results with a strictly better key, for any list, with ties and repeated results; the other attributes are unchanged |
| `Ranking.RankResults` | additional_material/week 3-4/AritPIM-master/f6_dashboard.py:2272-2309 | both ranks are one more than the number of strictly better results and the score is their sum; the first four (or all) results are returned in the order of score, area, larger throughput and position, and every omitted result comes after them |

## Left out

- Rows: a column of the array is one bit, because gates act on every row alike; the flat column index of the parallel array is a pair (address, partition).
- Simulator logs, VCD and image output, IO.py, plotting and the console: input and output only.
- `maxUsed` and `energy` are kept by `Perform` and not stated for whole routines.
- Carry ports of the parallel adder lie in selected partitions; the source also takes a partition outside the selection.
- Parallel allocator: scratch words are reserved in every partition, where the source reserves a few of them on some partitions only, so the sufficient pool sizes of the parallel routines are not the least ones.
- Order of allocation: some scratch cells are allocated earlier or freed later than in the source; no statement depends on which free cell is handed out, except the reuse that `Recycle` proves.
- Optional complement ports of the gate helpers that no routine uses, and the direction flag of the shifts, which is two methods here.
- IEEE wrappers that slice an address list into sign, exponent and mantissa: only indexing.
- Conversion between bits and machine floats in util/representation.py: replaced by exact integers in quanta.
- Subnormal operands: the integer functions cover them, the comparison with roundTiesToEven does not.
- SerialFloatDiv.FloatingDivision: does not state the result for a divisor with exponent field 0, which the routine does not support.
- Sigmoid.HornerSerial: does not state cycles, because constants are written by the host without gates; the copies of 60 and 120 that the program writes and never reads are not allocated.
- Sigmoid.DenominatorSerial: does not state cycles; the upper half of the result lacks the carry of the addition, as in the program, so only the low half is compared with the denominator.
- Parallel floating-point routines: a scratch cell is used after it is freed and one shift indexes from another base, so their results depend on allocation order.
- Float clamp, parallel evaluators, metrics and rendering of the dashboard, the FPGA and Proteus programs: reporting, unseen dependencies or data only.
