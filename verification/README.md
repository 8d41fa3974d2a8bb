# Verified models of the Julia runtime's arithmetic, checksums, image building and JIT memory

Dafny models of five parts of the Julia repository, with proofs that the clever routes the code
takes reach their simple specifications.

- **Arbitrary-width integers** (`src/APInt.c`): `Words`, `WordArith`, `WordMul`, `WordDiv`, `WordShift` work on arrays of
  64-bit words read as one number; `ApWidth`, `ApAddSub`, `ApMul`, `ApShift`, `ApDiv` are the intrinsics on bytes of any
  width; `Rounding` and `ApFloat` are the conversion to floating point.
- **CRC-32C** (`src/crc32c.c`, the checksum of section 12.1 of RFC 3720): `Crc32c` is the bit-serial register and its
  linearity, `Crc32cPolynomial` its meaning as a remainder of polynomials, `Crc32cSamples` check values, `Crc32cTables`
  the generator of the zeros operators, `Crc32cKernels` the software, SSE4.2 and ARMv8 kernels.
- **Image building** (`src/aotcompile.cpp`): `WorkerPool` is the elastic thread pool as a step system over all
  interleavings; `NameMangling` the reversible names; `ModuleInfo` weights and shard counts; `Partitioner`,
  `PartitionNodes`, `PartitionAssign`, `PartitionVerify`, `PartitionResult`, `PartitionTheorems` the partitioner;
  `ListScheduling` the general theorem on handing out jobs heaviest first.
- **JIT memory** (`src/cgmemmgr.cpp`): `JitBatch` is the protocol of in-flight allocations and deferred callbacks over all
  interleavings; `JitMemory`, `JitBlocks`, `JitAllocators`, `JitRo`, `JitFinalize`, `JitData`, `JitSegments`,
  `JitManager` are the block allocators, over an address space whose every address has a permission and a role, and the
  manager that puts memory and protocol together.
- **UTF-16 and WTF-8** (`cli/loader_win_utils.c`): `Wtf8` is both directions, `Wtf8Grammar` the byte strings
  that are accepted, `Wtf8Canonical` those that survive the reverse trip.

`Bits` holds powers of two, division facts and bitwise operators on numbers, `ClassSums` sums over labelled sequences,
`Basics` a few shared types.

How the models are built:

- Arrays that the code changes in place are Dafny arrays, and results may alias operands where the code allows it.
  `UnionFind`, `MemoryManager` and `Manager` are classes. The C++ allocators, which the manager embeds, are values
  in its fields.
- Where the order of equal elements, the partition among equally light ones or the place of a new mapping is up to the
  library or the operating system, nothing is assumed about the choice.
- Page permissions and the role of each address are ghost state. Memory contents are cells behind addresses, so that the
  two maps of one block show the same cells.

Where code and documentation disagree the model follows the code:

- The comment on `uint_to_fp` (src/APInt.c:249-251) says that the returned double fits the target precision. It does so
  only for precision 53 or when the integer itself fits (`ApFloat.DoubleFitsTarget`, `ApFloat.DoubleNeedNotFit`); the
  final result is right all the same (`ApFloat.ConversionRoundsOnce`).
- The comment on `jl_crc32c_sw` (src/crc32c.c:396-399) promises the same result on machines of either byte order. With
  big-endian word loads the bytes of each aligned unit are taken in reverse (`Crc32cKernels.Crc32cSw`,
  `Crc32cKernels.BigEndianDiffers`).
- `udivrem` takes any unsigned width but counts in an `int` (`WordDiv.UDivRem`); no primitive type is that wide.
- `verify_partitioning` does not accept every result: a counter-named definition that is not a variable is put nowhere
  (`PartitionResult.AcceptableIff`, `PartitionResult.CounterFunctionRejected`).
- The comment that up to eight blocks are kept (src/cgmemmgr.cpp:424-431) does not describe the code: the search never
  selects an unused block, so seven of the eight stay null (`JitAllocators.RoOk`, `JitData.DataOk`).
- An empty request can violate the assertion of `DualMapAllocator::get_wr_ptr` (`JitRo.WriteAssertIff`,
  `JitManager.EmptyRequestRun`).

The cap in `compute_image_shard_count` (src/aotcompile.cpp:2240-2241) never applies: a weight that demands more shards
than workers always allows the next multiple of the workers (`ModuleInfo.ShardCountExact`).

## Model

| member | source | states |
|---|---|---|
| Crc32c.UpdateIsBitSerial | src/crc32c.c:55-56 | the bytewise update used by every kernel is the one-bit-at-a-time shift register with POLY, least significant bit first, on every state and byte string |
| Crc32c.ChecksumChains | src/crc32c.c:400-439 | crc(crc(c, A), B) = crc(c, A ++ B) for the bit-serial checksum with its pre- and post-inversion |
| Crc32c.UpdateSuperposes | src/crc32c.c:75-79 | linearity over GF(2): an update from a xor b is the zeros operator on a, xor an update from b |
| Crc32c.UpdateInterleaves | src/crc32c.c:75-79 | update(c, A ++ B) = zeros(update(c, A), 8 bits for each byte of B) xor update(0, B), the law behind the interleaved kernels |
| Crc32cPolynomial.ChecksumIsRemainder | src/crc32c.c:55-56 | the checksum is CRC-32C: r is the checksum of a message iff, inverted and in reversed bit order, it is the remainder of the inverted seed and the message times x^32 modulo the generator with exponents 32, 28, 27, 26, 25, 23, 22, 20, 19, 18, 14, 13, 11, 10, 9, 8, 6, 0 |
| Crc32cPolynomial.StepMultiplies | src/crc32c.c:463-470 | a zero bit multiplies the register's polynomial by x and subtracts the generator when the degree reaches 32 |
| Crc32cPolynomial.RemainderUnique | src/crc32c.c:55-56 | a polynomial has one remainder of degree below 32 modulo the generator |
| Crc32cSamples.ZeroBytes | src/crc32c.c:396-439 | the published value for 32 bytes of zeros (section B.4 of RFC 3720) |
| Crc32cSamples.OneBytes | src/crc32c.c:396-439 | the published value for 32 bytes of ones (section B.4 of RFC 3720) |
| Crc32cSamples.FirstBytes | stdlib/CRC32c/test/runtests.jl:17 | the test vector of the bytes 1 to 8 |
| Crc32cTables.Gf2MatrixTimes | src/crc32c.c:490-502 | the loop over the set bits of the vector computes the matrix-vector product over GF(2) |
| Crc32cTables.Gf2MatrixSquare | src/crc32c.c:506-512 | every column of the result is the matrix applied to its own column |
| Crc32cTables.SquareRepresentsDouble | src/crc32c.c:506-512 | if a matrix represents k zero bits, its square represents 2k zero bits |
| Crc32cTables.TimesIsZeros | src/crc32c.c:490-502 | a matrix whose columns are the images of the unit vectors under k zero bits acts as k zero bits on every vector |
| Crc32cTables.OneZeroBitOp | src/crc32c.c:519-531 | the starting matrix is the operator for one zero bit |
| Crc32cTables.ZerosOp | src/crc32c.c:513-554 | whichever of the two alternating buffers the squarings end in, the result represents 8·2^k zero bits for the largest 2^k not above len (one zero byte for len 0), so 8·len for a power of two |
| Crc32cTables.ZerosTable | src/crc32c.c:558-570 | the four byte-indexed tables hold that operator's value on every byte in every position |
| Crc32cTables.ShiftIsZeros | src/crc32c.c:75-79 | xoring four table entries is the zeros operator on every 32-bit value |
| Crc32cTables.InitHw | src/crc32c.c:573-577 | the LONG and SHORT tables are shift tables for 8·LONG and 8·SHORT zero bits |
| Crc32cKernels.InitSw | src/crc32c.c:457-480 | column k of the table is the effect of a byte followed by k zero bytes, for all 256 bytes |
| Crc32cKernels.SliceIsUpdate | src/crc32c.c:400-439 | eight table lookups equal a bytewise update over eight bytes |
| Crc32cKernels.Crc32cSw | src/crc32c.c:396-439 | slicing-by-8, on 32- and 64-bit targets, from any start alignment: with little-endian loads the bit-serial checksum; with big-endian loads that of the buffer with the bytes of every aligned unit, or of its halves, reversed |
| Crc32cKernels.BigEndianDiffers | src/crc32c.c:396-439 | a buffer whose checksum a big-endian machine gets wrong for every seed |
| Crc32cKernels.ThreeBlocks | src/crc32c.c:105-125 | three checksums in parallel, combined with two shifts, are the checksum of the three blocks in a row |
| Crc32cKernels.BlockRuns | src/crc32c.c:105-147 | the runs of three blocks consume as much as possible and keep the checksum of everything consumed |
| Crc32cKernels.TwoBlocks | src/crc32c.c:297-311 | the two-block step with the table for one block |
| Crc32cKernels.Armv8Tail | src/crc32c.c:313-331 | the 4-, 2- and 1-byte instructions selected by the low bits of the length consume exactly the rest |
| Crc32cKernels.Crc32cSse42 | src/crc32c.c:89-171 | for every initial value, buffer and start alignment the SSE4.2 kernel returns the bit-serial checksum |
| Crc32cKernels.Crc32cArmv8 | src/crc32c.c:242-332 | for every initial value and buffer the ARMv8 kernel returns the bit-serial checksum |
| ApWidth.Load | src/APInt.c:27-34 | the loaded words hold the low numbits of the little-endian bytes |
| ApWidth.Store | src/APInt.c:36-39 | the stored bytes hold the number; bytes beyond the width are untouched |
| ApWidth.MaskTop | src/APInt.c:41-45 | masking the top word reduces the number modulo 2^numbits |
| ApWidth.IsNegative | src/APInt.c:54-59 | the bit tested is the sign bit: set iff the number is at least 2^(numbits-1) |
| ApWidth.Extend | src/APInt.c:219-230 | extension to more words keeps the signed or unsigned reading of the number |
| WordArith.CompareWords | src/APInt.c:61-70 | word-by-word comparison from the top orders the numbers |
| WordArith.IsZero | src/APInt.c:47-52 | all words zero iff the number is zero |
| WordArith.AddSubWords | src/APInt.c:72-87 | sum or difference with its carry out is exact, also when the result array is an operand |
| WordArith.NegateWords | src/APInt.c:92-100 | two's complement negation, also in place |
| WordMul.Mul64 | src/APInt.c:105-122 | the product from 32-bit halves is the exact 128-bit product |
| WordMul.MacLimb | src/APInt.c:127-142 | multiply-accumulate loses no carry: low + 2^64·high = a·b + word + carry, on either path |
| WordMul.MulRow | src/APInt.c:147-157 | one row adds a_i·b, shifted by i words, with an exact carry |
| WordMul.MulWords | src/APInt.c:147-157 | schoolbook multiplication truncated to nw words is the product modulo 2^(64·nw) |
| WordDiv.ShiftInBit | src/APInt.c:162-180 | the in-place shift of the remainder is doubling modulo 2^(64·nw) plus the next bit |
| WordDiv.DoubledFits | src/APInt.c:162-180 | that doubling loses no bit when the remainder is at most the dividend shifted right by i+1 |
| WordDiv.DivideBit | src/APInt.c:162-180 | one step of long division keeps: prefix of the dividend = quotient so far · b + rem, rem < b |
| WordDiv.UDivRem | src/APInt.c:162-180 | a = q·b + rem with rem < b exactly when the width is below 2^31 or a is 0: above that the int loop counter is negative and nothing is divided |
| WordDiv.DivideBits | src/APInt.c:167-179 | the loop divides every dividend of the width by every nonzero b |
| WordShift.ShlN | src/APInt.c:192-204 | left shift is multiplication by 2^shift modulo 2^(64·nw), for every amount, also in place |
| WordShift.ShrN | src/APInt.c:206-217 | right shift with a fill bit is floor division of the number extended by that bit, for every amount |
| WordShift.ExtractShift | src/APInt.c:184-190 | amounts at or above the width, also those in higher words, clamp to the width |
| ApAddSub.Negate | src/APInt.c:371-383 | negation modulo 2^numbits |
| ApAddSub.AddFlag | src/APInt.c:385-406 | the flag of an addition, computed from three sign bits, is set iff the exact signed or unsigned sum is out of range |
| ApAddSub.SubFlag | src/APInt.c:385-406 | the same for subtraction, including subtraction of the minimum value |
| ApAddSub.AddSubOv | src/APInt.c:385-406 | checked add and subtract store the exact result modulo 2^n and flag exactly the unrepresentable results |
| ApMul.CheckOverflow | src/APInt.c:232-245 | the words above the width are all zero, or all ones, iff the number is below 2^n, or within 2^n of the top |
| ApMul.MulFlag | src/APInt.c:575-593 | that test on the double-width product decides whether the exact product fits, signed or unsigned |
| ApMul.MulOv | src/APInt.c:575-593 | checked multiplication stores the exact product modulo 2^n and flags exactly the unrepresentable products |
| ApShift.Shl | src/APInt.c:533-546 | shl is multiplication by 2^s modulo 2^n for every operand s |
| ApShift.ShrOp | src/APInt.c:548-563 | lshr and ashr are floor division of the unsigned, or signed, value by 2^s for every operand s |
| ApShift.ArithmeticShiftExact | src/APInt.c:548-563 | read as a signed number the result of ashr is the floor quotient itself |
| ApShift.LogicalShiftExact | src/APInt.c:548-563 | the result of lshr is the floor quotient itself |
| ApDiv.TruncDivRem | src/APInt.c:285-300 | truncated division: a = q·b + r, |r| < |b|, r takes the sign of a, |q·b| <= |a| |
| ApDiv.TruncDivUnique | src/APInt.c:285-300 | these conditions determine quotient and remainder |
| ApDiv.SDivRem | src/APInt.c:285-300 | signed division of the words is truncated division modulo 2^n |
| ApDiv.CountTrailingZeros | src/APInt.c:303-321 | the number of trailing zeros, numbits for zero |
| ApDiv.IsMinInt | src/APInt.c:352-356 | true exactly for -2^(n-1), for every n >= 1 |
| ApDiv.IsNegOne | src/APInt.c:358-363 | true exactly for -1 |
| ApDiv.QuotientFits | src/APInt.c:599-625 | the truncated quotient is unrepresentable exactly for the minimum value divided by -1 |
| ApDiv.DivRem | src/APInt.c:599-625 | division with optional quotient and remainder: results modulo 2^n; flagged iff the divisor is 0, or a signed quotient is requested of the minimum value and -1; a zero divisor writes nothing |
| Rounding.RoundToIsNearestEven | src/APInt.c:252-281 | the reference rounding: a p-bit number nearest to x, the even one of two equally near (section 4.3.1 of IEEE 754) |
| Rounding.StickyRounds | src/APInt.c:252-281 | rounding a prefix with an or-ed sticky bit decides like rounding the whole number |
| Rounding.RoundToScales | src/APInt.c:252-281 | rounding commutes with scaling by powers of two |
| ApFloat.PrefixRounds | src/APInt.c:252-281 | mbits+2 leading bits with a sticky bit, rounded at mbits and rescaled, are the rounding of the whole integer |
| ApFloat.UintToFp | src/APInt.c:252-281 | the word loops find that prefix and its exponent; the double is infinite exactly from 2^1024 on |
| ApFloat.ConversionRoundsOnce | src/APInt.c:750-793 | for precisions 8, 11, 24 and 53 the value that reaches the target format is the nearest-even rounding of the exact integer, and infinite exactly when that rounding is out of the format's range |
| ApFloat.IntToFp | src/APInt.c:750-793 | sign and magnitude of the conversion of every width, signed or unsigned: rounded exactly once, infinite exactly when the rounded magnitude reaches 2^1024, 2^128 or 2^16; for half precision exactly from 65520 on |
| ApFloat.LargestFinite | src/APInt.c:750-793 | for precisions 11, 8, 24, 53 with largest exponents 15, 127, 127, 1023: the largest finite number converts to itself, and the result is infinite exactly from the middle between it and the next power of two on |
| ApFloat.DoubleFitsTarget | src/APInt.c:249-281 | the intermediate double already fits the target precision iff that precision is 53 or the integer itself fits |
| ApFloat.DoubleNeedNotFit | src/APInt.c:249-281 | 2^24 + 1 at precision 24: the intermediate double does not fit the target |
| WorkerPool.InitInv | src/aotcompile.cpp:2050-2164 | the invariant holds at the start, with and without a jobserver |
| WorkerPool.NextKeeps | src/aotcompile.cpp:2050-2164 | every enabled step of main thread, worker or sibling process keeps the invariant |
| WorkerPool.RunKeeps | src/aotcompile.cpp:2050-2164 | hence it holds in every state of every run |
| WorkerPool.PoolSafety | src/aotcompile.cpp:2050-2164 | in every state of every interleaving: threads spawned or promised never exceed workers; free + held + just acquired + siblings' tokens is constant; live-1 <= held <= live; the main thread joins only when all workers are spawned or, with a jobserver, all partitions are claimed; no partition is compiled twice; a worker never takes a step its assertions forbid |
| WorkerPool.PollGrows | src/aotcompile.cpp:2140-2158 | with t tokens free, one poll of the main thread takes exactly min(t, threads - next, workers - spawned) of them and spawns exactly that many threads |
| WorkerPool.FirstPool | src/aotcompile.cpp:2127-2136 | the first pool has 1 + min(workers - 1, t) threads with a jobserver, and all workers without one |
| WorkerPool.PoolDone | src/aotcompile.cpp:106-131 | after all joins no token is held, every token is back, and each partition was compiled exactly once |
| WorkerPool.PoolNeverStuck | src/aotcompile.cpp:2050-2164 | until it is finished, the main thread or some worker can step |
| WorkerPool.PoolCanFinish | src/aotcompile.cpp:2050-2164 | from every reachable state the pool's own threads can bring the run to its end, whatever tokens the siblings keep |
| WorkerPool.PoolWorkBounded | src/aotcompile.cpp:2050-2164 | the workers take at most 2·threads + 4·workers steps in any run |
| NameMangling.CodeDecodes | src/aotcompile.cpp:397-413 | every escape code is read back from its right end, whatever precedes it |
| NameMangling.UnmangleMangle | src/aotcompile.cpp:417-441 | a right-to-left decoder is a left inverse of the mangling, on every byte string |
| NameMangling.MangleInjective | src/aotcompile.cpp:417-441 | two names with the same mangling are the same name |
| NameMangling.MangleIsSafe | src/aotcompile.cpp:384-441 | a mangled name consists of safe characters and '.' |
| NameMangling.UnchangedIff | src/aotcompile.cpp:384-391 | a name stays as it is iff its bytes are digits, letters, '_', '$' or from 128 to 254 |
| NameMangling.PunctuationNames | src/aotcompile.cpp:401 | the abbreviations of the bytes 0x20 to 0x27 |
| NameMangling.OperatorNames | src/aotcompile.cpp:402 | the abbreviations of the bytes 0x28 to 0x2f |
| NameMangling.RelationNames | src/aotcompile.cpp:403-404 | the abbreviations from the colon to the at sign |
| NameMangling.BracketNames | src/aotcompile.cpp:405-406 | the abbreviations from the bracket to the backtick |
| NameMangling.BraceNames | src/aotcompile.cpp:407 | the abbreviations from the brace to the delete character |
| NameMangling.HexEscapes | src/aotcompile.cpp:393-395 | control characters, comma, semicolon and 255 become two upper-case hexadecimal digits and a dot |
| NameMangling.DocumentedExample | src/aotcompile.cpp:416 | the example of the comment |
| NameMangling.SameLengthMeansUnchanged | src/aotcompile.cpp:439-440 | equal length iff nothing was escaped iff the name is unchanged, so comparing sizes is enough |
| NameMangling.MakeSafeName | src/aotcompile.cpp:417-441 | the buffer loop with its size comparison yields the mangling |
| ModuleInfo.GetFunctionWeight | src/aotcompile.cpp:1230-1252 | weight = (1 + instructions + blocks) · clones, where clones is one more than the number of bits set in the parsed mask, and 1 without a mask |
| ModuleInfo.MaskMultiplies | src/aotcompile.cpp:1240-1250 | a mask with k bits set makes a function weigh k + 1 times what it weighs without one |
| ModuleInfo.HexValueDigit | src/aotcompile.cpp:1240-1245 | each hexadecimal digit of the mask stands at its place in the parsed number |
| ModuleInfo.MaskBits | src/aotcompile.cpp:1240-1245 | the population count of the parsed hexadecimal mask is the sum over its digits, and four bits per digit hold it |
| ModuleInfo.ComputeModuleInfo | src/aotcompile.cpp:1265-1290 | the numbers of definitions and of functions, and the sums of blocks, instructions, clones and weights over the definitions |
| ModuleInfo.ShardCountExact | src/aotcompile.cpp:2235-2243 | for workers >= 1: with least = ceil(w/250000) and most = max(1, floor(w/10000)), min(workers, most) shards if least <= workers, and otherwise the least multiple of workers that is at least `least`; the cap never applies |
| ModuleInfo.ShardCountBounds | src/aotcompile.cpp:2235-2243 | no shard need exceed the weight 250000, and several shards never average below 10000 |
| Partitioner.UnionFind.Make | src/aotcompile.cpp:1396-1401 | a new class with one member of the given weight |
| Partitioner.UnionFind.Find | src/aotcompile.cpp:1403-1409 | path halving returns the root, changes only parent links and terminates by a rank that does not depend on size; while sizes are kept it takes t turns only if 2^(2t-1) is at most the number of nodes |
| Partitioner.UnionFind.Merge | src/aotcompile.cpp:1411-1424 | union by size joins exactly the two classes under the root of the larger one, keeps root weights and sizes those of the classes, ranks logarithmic and every member lighter than its root |
| Partitioner.RankIsLogarithmic | src/aotcompile.cpp:1411-1424 | 2 to the rank of a root is at most the number of nodes |
| Partitioner.UnionFind.Link | src/aotcompile.cpp:1411-1424 | hanging one root under another of a class not smaller relabels exactly its class and keeps forest, weights and sizes |
| Partitioner.UnionFind.Stamp | src/aotcompile.cpp:1491-1519 | overwriting weight and size keeps the forest that find walks |
| Partitioner.SameRootIffConnected | src/aotcompile.cpp:1451-1465 | same root iff connected by the merged edges |
| PartitionNodes.MakeNodes | src/aotcompile.cpp:1428-1449 | a node with its weight for every definition that is not a coverage counter, in module order |
| PartitionNodes.OnlyCountersSkipped | src/aotcompile.cpp:1451-1465 | the assertion in the merge loop: a user without a node is a coverage counter |
| PartitionNodes.MergeUses | src/aotcompile.cpp:1451-1465 | afterwards the classes are joined along exactly the use edges |
| PartitionAssign.SortByWeight | src/aotcompile.cpp:1477-1483 | a permutation of the nodes, heaviest first; nothing is assumed about ties |
| PartitionAssign.RootComesFirst | src/aotcompile.cpp:1477-1505 | a root is strictly heavier than its members, so it is placed before them and the assertions of the loop hold |
| PartitionAssign.Lightest | src/aotcompile.cpp:1467-1475 | the top of the priority queue: some partition of least weight |
| PartitionAssign.AssignOne | src/aotcompile.cpp:1486-1520 | one turn of the loop, its two assertions included, puts one node where its component belongs |
| PartitionAssign.AssignNodes | src/aotcompile.cpp:1485-1520 | components go whole, heaviest first, each to a partition that was lightest then, with `size` reused as partition index while find is still called |
| PartitionResult.AssignCounters | src/aotcompile.cpp:1522-1533 | each counter variable goes to a partition that was lightest then |
| PartitionResult.IndexVars | src/aotcompile.cpp:1185-1214 | the table maps each listed global to its index and nothing else |
| PartitionResult.PartitionModule | src/aotcompile.cpp:1379-1542 | every run terminates in a partitioning with the properties below, and verify_partitioning accepts it iff every counter-named definition is a variable and every fvar and gvar is a definition that is not a counter |
| PartitionVerify.VerifyPartitioning | src/aotcompile.cpp:1301-1376 | accepts exactly: no global twice, declarations nowhere, definitions and their users somewhere, uses inside one partition except through counters, every table index exactly once |
| PartitionVerify.CollectNames | src/aotcompile.cpp:1303-1319 | a global is reported iff two partitions hold it |
| PartitionVerify.CollectTable | src/aotcompile.cpp:1320-1333 | an index is reported iff two entries share it, and a slot is marked iff its index is listed |
| PartitionVerify.CheckGlobals | src/aotcompile.cpp:1335-1360 | reports exactly the declarations inside, definitions and users outside, and uses across partitions |
| PartitionResult.AcceptableIff | src/aotcompile.cpp:1301-1376 | the exact condition under which the result of the partitioning is accepted |
| PartitionResult.CounterFunctionRejected | src/aotcompile.cpp:1301-1376 | a function whose name starts like a counter's is left out, and every such result is rejected |
| PartitionTheorems.InExactlyOne | src/aotcompile.cpp:1379-1542 | a global is in a partition iff it is a node or a counter variable, and then in exactly one |
| PartitionTheorems.IndexInExactlyOne | src/aotcompile.cpp:1379-1542 | each fvar and gvar index is in the partition of its global and in no other |
| PartitionTheorems.ConnectedTogether | src/aotcompile.cpp:1451-1520 | transitively use-connected globals share a partition; the components are exactly the connected sets |
| PartitionTheorems.WeightConserved | src/aotcompile.cpp:1265-1290 | partition weights sum to the module weight iff every counter-named definition is a variable |
| PartitionTheorems.SpreadIsAComponent | src/aotcompile.cpp:1467-1533 | heaviest and lightest partition differ by at most the heaviest component, a counter being a component of weight 1 |
| PartitionTheorems.FourThirdsOfTheBest | src/aotcompile.cpp:1378-1379 | "as equally as possible": no partition is heavier than 4/3 - 1/(3·threads) times the heaviest of any other partitioning that keeps connected globals together |
| ListScheduling.FourThirds | src/aotcompile.cpp:1467-1520 | the general bound: jobs handed out heaviest first, each to a least loaded machine, against any other schedule of the same jobs |
| ListScheduling.HeavyJob | src/aotcompile.cpp:1467-1520 | as long as three jobs never fit together, handing out greedily is the best possible |
| ListScheduling.HandOutKeeps | src/aotcompile.cpp:1491-1507 | giving the next job to a lightest machine keeps the order and the loads |
| JitBatch.MemoryManager.Allocate | src/cgmemmgr.cpp:992-1032 | a failed layout leaves the counter alone, otherwise it grows by one |
| JitBatch.MemoryManager.CompleteBatch | src/cgmemmgr.cpp:871-881 | one less in flight; at zero one protection pass, and all deferred callbacks are handed to the caller in order |
| JitBatch.MemoryManager.FinalizeAlloc | src/cgmemmgr.cpp:896-924 | a callback is deferred iff it covers executable memory, otherwise it is the caller's first |
| JitBatch.MemoryManager.Abandon | src/cgmemmgr.cpp:926-935 | abandoning completes without a callback of its own |
| JitBatch.InFlightPositive | src/cgmemmgr.cpp:871-881 | the assertion InFlight > 0 holds whenever an open allocation completes |
| JitBatch.StepKeeps | src/cgmemmgr.cpp:820-936 | allocate, finalize, abandon, drop and each callback keep the invariant |
| JitBatch.RunKeeps | src/cgmemmgr.cpp:820-936 | hence it holds after every run |
| JitBatch.BatchSafety | src/cgmemmgr.cpp:820-936 | in every run: InFlight is the number of open allocations; a protection pass happens only when all earlier allocations have completed; a callback fires at most once, after its own flush, and if it covers executable memory after a pass that followed this flush |
| JitBatch.QuietMeansFired | src/cgmemmgr.cpp:883-935 | once nothing is open and no call has callbacks left, exactly the finalized allocations' callbacks have fired, each once |
| JitBatch.CanSettle | src/cgmemmgr.cpp:953-961 | from every reachable state dropping what is open and running what is ready leads to such a state |
| JitBatch.PlainCallbackNeverWaits | src/cgmemmgr.cpp:803-821 | a callback without executable memory can run at once whatever any other allocation does meanwhile |
| JitMemory.BlockSizeSpec | src/cgmemmgr.cpp:48-52 | whole pages, at least 256 of them, enough for the request |
| JitMemory.BlockSizeLeast | src/cgmemmgr.cpp:48-52 | and no smaller block size has these properties |
| JitMemory.BumpSpec | src/cgmemmgr.cpp:453-461 | the bump with avail & -align: an aligned range at the start of the free part, or no room exactly when too little is left after aligning |
| JitMemory.AnyAlignment | src/cgmemmgr.cpp:453-461 | for alignments of any size: success exactly when enough is left after aligning, and an aligned address exactly when the block's end is aligned |
| JitMemory.LargeAlignmentFails | src/cgmemmgr.cpp:453-461 | a page aligned to 512 pages finds no room in the block made for it |
| JitMemory.FirstFreeSpec | src/cgmemmgr.cpp:462-473 | reset gives back whole free pages only, and the assertion first_free < end holds |
| JitBlocks.TakeKeepsSplit | src/cgmemmgr.cpp:453-461 | handing out memory keeps what the block's flags promise |
| JitBlocks.ResetSpec | src/cgmemmgr.cpp:462-473 | every wholly free page of the block is unmapped, and nothing but spare addresses of the block |
| JitAllocators.GetWrPtr | src/cgmemmgr.cpp:628-642 | the second map is made once and made writable; the write address is at the same offset as the runtime address |
| JitAllocators.TempAlloc | src/cgmemmgr.cpp:710-724 | write memory in the first temporary buffer with room, or in a new one, that no other allocation of the batch has |
| JitRo.RoAlloc | src/cgmemmgr.cpp:572-622 | ROAllocator::alloc on both allocators: aligned runtime memory that nobody had, in the block in use exactly when it has room; a write address that reaches it and is writable; a replaced block is kept for the end of the batch or loses its free pages; nothing else disturbed; of the eight blocks only the first is ever used |
| JitRo.WriteAssertIff | src/cgmemmgr.cpp:628-642 | the assertion on the write address fails exactly for an empty request when less than one aligned unit of a protected block is left |
| JitManager.EmptyRequestRun | src/cgmemmgr.cpp:628-642 | a run that gets there: one request for the 256 pages of a new block, and the end of its batch |
| JitFinalize.FinalizeKeepsBlock | src/cgmemmgr.cpp:651-684 | the block-state assertions hold, and afterwards the block has its final mode and its second map no access |
| JitFinalize.RetireFirst | src/cgmemmgr.cpp:692-702 | a completed block loses its second map and all its free pages, never handed-out memory |
| JitFinalize.FinalizeTemp | src/cgmemmgr.cpp:757-781 | exactly the first temporary buffer is kept, empty; the others are unmapped |
| JitFinalize.RoFinalize | src/cgmemmgr.cpp:692-702 | after a pass everything the allocator ever handed out has its final mode, every completed block has lost its second map and its free pages, the only second map left is that of the block in use and has no access, and no temporary data is left |
| JitFinalize.FinalizedIsTidy | src/cgmemmgr.cpp:651-684 | an allocator without completed blocks has no second map but the inaccessible one of its block in use |
| JitData.RwAlloc | src/cgmemmgr.cpp:490-507 | RWAllocator::alloc: aligned writable memory that nobody had, in the block in use exactly when it has room; a discarded block loses exactly its free pages |
| JitManager.Manager.AllocSegment | src/cgmemmgr.cpp:992-1032 | a segment of any of the three kinds; every other segment keeps its memory, mode and contents |
| JitManager.Manager.LayoutFails | src/cgmemmgr.cpp:1024-1025 | a failed layout gives up the graph without a protection pass |
| JitManager.Manager.Write | src/cgmemmgr.cpp:1019-1020 | a byte written at a segment's working address changes no other segment's bytes |
| JitManager.ProtectAll | src/cgmemmgr.cpp:871-881 | finalizing one allocator leaves the other two as they are, and both end up with all memory in its final mode |
| JitManager.PassProtects | src/cgmemmgr.cpp:871-881 | after a pass no writable address, second maps included, shows a cell of handed-out constant or code memory |
| JitManager.Manager.Flush | src/cgmemmgr.cpp:749-756 | afterwards every byte written to the graph's segments is at its runtime address |
| JitManager.Manager.Finalize | src/cgmemmgr.cpp:896-924 | the graph's bytes are in place from now on; counter, deferred and released callbacks change as the batch protocol says; protections are applied iff nothing is in flight, and then all read-only and executable memory has its final mode and no writable address shows any of it |
| JitManager.Manager.Abandon | src/cgmemmgr.cpp:926-935 | the same without promising the contents or a callback |
| JitManager.Manager.CompleteBatch | src/cgmemmgr.cpp:871-881 | permissions change only when nothing is in flight; then every waiting callback is released, no writable address shows constant or code memory, and completed blocks have lost their second maps |
| JitManager.CallbackMemory | src/cgmemmgr.cpp:803-821 | whenever a released callback runs, every byte written to its graph is at its runtime address, and if the graph has executable memory, all its code is executable and all its constants are read-only |
| JitManager.RuntimeApart | src/cgmemmgr.cpp:434-507 | in every reachable state runtime ranges are pairwise disjoint |
| JitManager.SegmentUsable | src/cgmemmgr.cpp:545-703 | in every reachable state runtime ranges are aligned and mapped, and an in-flight segment's write range is writable |
| JitManager.WritesApart | src/cgmemmgr.cpp:706-784 | in every reachable state write ranges of in-flight segments are disjoint, as addresses and as memory cells behind the maps |
| Wtf8.PairSplits | cli/loader_win_utils.c:166-177 | a surrogate pair and its code point determine each other (sections 2.1 and 2.2 of RFC 2781) |
| Wtf8.UnitsOfSurrogateValue | cli/loader_win_utils.c:166-177 | the value read at a position encodes back to exactly the units it was read from, unpaired surrogates included |
| Wtf8.DecodeEncodedPoint | cli/loader_win_utils.c:122-162 | decoding the bytes of a code point returns it and stops at its last byte (section 3 of RFC 3629) |
| Wtf8.EncodeIsByteString | cli/loader_win_utils.c:181-243 | the encoding is NUL-terminated with no NUL inside |
| Wtf8.RoundTrip | cli/loader_win_utils.c:181-283 | decoding the encoding returns the string, for every NUL-terminated UTF-16 string |
| Wtf8Canonical.ReverseTripIff | cli/loader_win_utils.c:122-283 | the bytes come back from decoding and encoding iff every code point has its shortest form and no surrogate pair is encoded as two; otherwise an overlong zero cuts the string or the result is shorter |
| Wtf8Canonical.ReencodedLength | cli/loader_win_utils.c:122-283 | encoding again never takes more bytes, and as many only for canonical strings |
| Wtf8Canonical.NotCanonical | cli/loader_win_utils.c:122-162 | an overlong letter and a split surrogate pair are accepted by the decoder but not canonical |
| Wtf8Grammar.DecodePointIff | cli/loader_win_utils.c:122-162 | what is read at the front of a string, and what is rejected, by a grammar of lead and continuation bytes and the sums of their payloads (section 4 of RFC 3629, with overlong three- and four-byte forms and surrogates added) |
| Wtf8Grammar.DecodeIff | cli/loader_win_utils.c:245-283 | a string decodes to given units iff it is a concatenation of such sequences with those units |
| Wtf8Grammar.EncodedIsShortest | cli/loader_win_utils.c:209-241 | the encoder writes the shortest sequence with the value of the code point |
| Wtf8Grammar.PairsCount | cli/loader_win_utils.c:166-177 | surrogate pairs number the code points from 0x10000 on in order |
| Wtf8.CountBytes | cli/loader_win_utils.c:188-207 | the first pass counts exactly the bytes the second pass writes |
| Wtf8.WcharToUtf8 | cli/loader_win_utils.c:181-243 | the two-pass encoder fills its buffer exactly with the encoding |
| Wtf8.CountUnits | cli/loader_win_utils.c:252-267 | the first decoding pass counts exactly the units, or reports an invalid sequence |
| Wtf8.Utf8ToWchar | cli/loader_win_utils.c:245-283 | the two-pass decoder fails exactly on undecodable input and otherwise fills its buffer exactly with the decoded string |

## Left out

- JitManager.Manager.AllocSegment: alignments above the page size are not covered, because a new block may have no room for them (`JitMemory.AnyAlignment`, `JitMemory.LargeAlignmentFails`); `JitRo.RoAlloc` likewise.
- JitRo.RoAlloc: excludes the one family of empty requests on which the source's assertion fails.
- Crc32cKernels.Crc32cSse42: the crc32 instruction is modelled as the bytewise update on a little-endian word; likewise for the ARMv8 instructions.
- ApFloat.IntToFp: the narrowing to half and bfloat, whose helpers are not part of this model, is one nearest-even rounding with overflow to infinity.
- WordDiv.UDivRem: a width of exactly 2^31 is excluded, because the loop counter overflows there; the intrinsics assume a width that a primitive type can have (src/builtins.c:2598).
- ModuleInfo.ShardCountBounds: weights are unbounded numbers, so truncation of the count to 32 bits is not modelled.
- JitBatch.MemoryManager.Allocate: wrap-around of the 32-bit counter after 2^32 open allocations is not modelled.
- Pregenerated CRC tables, CPU dispatch and lazy initialisation: data and platform selection.
- FPtoInt, byte swap, population count, leading and trailing ones, comparison predicates, bitwise logic, flipsign and byte-level sext, zext and trunc of `src/APInt.c`: easy members or C library float calls.
- Failure of malloc, of mmap and of thread creation, and timers, tracing and progress output of the pool.
- LLVM modules: globals are positions with weights and users, names are unique, and cloning, linkage, bitcode and archive writing are not modelled.
- The bytes that /proc/self/mem writes in several pieces are one copy; file offsets of shared maps are not modelled.
- Windows variants of the memory manager and of the pool's semaphore.
- Conditional `setName` in makeSafeName may append a number when a name is taken; only the computed name is modelled.
