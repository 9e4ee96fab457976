# X-Mem common routines: a Dafny model

X-Mem is a memory benchmarking tool. Its shared routines in
`src/common.cpp` do three jobs that this project models and proves
properties of:

- **Pass calibration.** `compute_number_of_passes` chooses how many times a
  benchmark traverses its working set. The curve is fixed at build time:
  - curve 1 is `65536 / size_KB`;
  - curve 2 is written `(4*2097152) / size_KB^2`;
  - with neither, the count is the floor of one pass.
- **CPU selection inside a NUMA node.** `cpu_id_in_numa_node` returns the
  logical CPU id of the `cpu_in_node`-th CPU of a node, or -1. It scans the
  node's processor mask upwards from bit 0, with one branch for Windows
  (a 64-bit mask shifted right) and one for Linux (a libnuma bitmask).
- **System topology tallies.** `query_sys_info` sets these counters:
  - NUMA nodes, processor packages, physical cores and logical CPUs;
  - L1 to L4 caches;
  - the page and large-page sizes.

  On Windows it counts records of the logical-processor information
  buffer. On Linux it collects distinct `physical id` and `core id` values
  from `/proc/cpuinfo` and guesses cache counts from them.

Operating-system calls are inputs of the model:
- `GetNumaNodeProcessorMask`, `GetLogicalProcessorInformation`,
  `GetSystemInfo` and `GetLargePageMinimum`;
- `numa_available`, `numa_max_node`, `numa_allocate_cpumask` and
  `numa_node_to_cpus`;
- `sysconf`, `gethugepagesize` and the identifier lines of
  `/proc/cpuinfo`.

The process-wide counters are a `SysInfo` value that is passed in and
returned. The Windows tallies add to the counters' previous values, while
the Linux branch overwrites them.

Modules:
- `CTypes` (ctypes.dfy): the C integer widths and the conversions that
  assignments between them perform.
- `Bits` (bits.dfy): processor masks as sequences of booleans; a bv64 word
  viewed bit by bit; the reference definition `NthSetBit` of "the rank-th
  CPU of a mask".
- `Passes` (passes.dfy): `compute_number_of_passes`, as written and
  corrected.
- `NumaCpu` (numa.dfy): both branches of `cpu_id_in_numa_node`, as
  imperative loops proved against `NthSetBit`.
- `Topology` (topology.dfy): the loops of `query_sys_info`, proved against
  counting functions over the record sequence. Partner lemmas relate those
  counts to one another.

On curve 2, in C++ `/` binds tighter than `^`, so the XOR applies to the
quotient `8388608 / size_KB` and not to the divisor. The model follows the
code, and the finding below describes the consequence.

## Model

| member | source | states |
|---|---|---|
| CTypes.ToU32 | src/common.cpp:425 | Converting a value to a 32-bit unsigned counter keeps it when it is in range. Otherwise the result is congruent to it modulo 2^32. |
| CTypes.ToU64 | src/common.cpp:488 | The same for 64-bit unsigned values such as `static_cast<uint64_t>`. |
| Passes.SelectCurve | src/common.cpp:308-314 | Curve 1 is selected exactly when its switch is defined. Curve 2 is selected exactly when curve 1's switch is undefined and curve 2's is defined. Otherwise no curve is selected. |
| Passes.XorTwo | src/common.cpp:312 | `q ^ 2` on an unsigned value moves q by exactly two. It keeps q's parity and q / 4, so only bit 1 changes. |
| Passes.XorTwoInvolution | src/common.cpp:312 | Applying `^ 2` twice gives back the value. |
| Passes.XorTwoTogglesBitOne | src/common.cpp:312 | On 64-bit words, `b ^ 2` equals b + 2 when bit 1 is clear and b - 2 when it is set. This is the bit-vector counterpart of XorTwo's contract, stated separately; it is not proved equal to XorTwo. |
| Passes.ComputeNumberOfPasses | src/common.cpp:306-318 | The pass count is always at least one. It is exactly one when no curve is compiled in. |
| Passes.Curve1BoundsWork | src/common.cpp:309-317 | Under curve 1, for sizes up to 65536 KB, passes * size lies in (65536 - size, 65536], so the traffic stays near 64 MiB. Larger sizes get exactly one pass. |
| Passes.Curve1Antitone | src/common.cpp:309 | Under curve 1, a larger working set never gets more passes. |
| Passes.Curve1Doubling | src/common.cpp:309-317 | Under curve 1, doubling the working set halves the pass count, rounded down and floored at one. |
| Passes.Curve2AsWrittenWithinTwo | src/common.cpp:312-317 | Curve 2 as written gives 8388608 / size moved by exactly two. The only exception is the floor of one pass, which applies when that quotient is at most two. |
| Passes.Curve2AsWrittenNotAntitone | src/common.cpp:312-317 | Curve 2 as written gives 1 pass at 4194304 KB and 3 passes at 8388608 KB. |
| Passes.Curve2AsWrittenIsNotInverseSquare | src/common.cpp:312-317 | At 1024 KB, curve 2 as written gives 8194 passes, where the inverse-square curve gives 8. |
| Passes.ComputeNumberOfPassesCorrected | src/common.cpp:306-318 | The corrected calibration gives at least one pass. It agrees with the source on curve 1 and when no curve is selected. |
| Passes.Curve2CorrectedAntitone | src/common.cpp:312 | The corrected curve 2 never gives a larger working set more passes. |
| Passes.Curve2CorrectedBoundsWork | src/common.cpp:312-317 | The corrected curve 2 is inverse-square. While size² is at most 8388608, passes * size² lies in (8388608 - size², 8388608]. Beyond that it gives exactly one pass. |
| Bits.PopCount | src/common.cpp:410-414 | The number of CPUs in a mask is at most the mask's width. It is zero exactly when no bit is set. |
| Bits.PopCountAppend | src/common.cpp:410-416 | Counting set bits is additive over concatenated masks. |
| Bits.NthSetBit | src/common.cpp:262-276 | Reference definition of the rank-th CPU of a mask. The result is -1 exactly when the mask holds at most rank CPUs. Otherwise it is a set bit with exactly rank set bits below it. |
| Bits.NthSetBitUnique | src/common.cpp:266-276 | A set bit with exactly rank set bits below it is the rank-th CPU. The choice is determined by the mask and the rank alone. |
| Bits.NthSetBitIncreasing | src/common.cpp:266-276 | A higher rank inside the node selects a strictly higher CPU id. |
| Bits.BitsNAt | src/common.cpp:266-275 | Element k of the sequence read off by repeated `>> 1` is bit k of the word. |
| NumaCpu.CpuIdInNumaNodeWindows | src/common.cpp:256-277 | The Windows scan returns NthSetBit of the 64-bit mask. It returns -1 exactly when the node has at most cpu_in_node CPUs. Otherwise it returns a CPU id below 64 whose bit is set and that has exactly cpu_in_node set bits below it. |
| NumaCpu.CpuIdInNumaNodeLinux | src/common.cpp:278-303 | The Linux scan returns -1 when the mask cannot be allocated or `numa_node_to_cpus` fails. Otherwise it returns NthSetBit of the node's bitmask, with the same -1 condition and the same characterisation of a found CPU as on Windows. |
| Topology.CountNodesAndPackages | src/common.cpp:358-368 | The NUMA loop adds the number of NUMA-node records to the node count and the number of package records to the package count. Every other counter is unchanged. |
| Topology.CountAppend | src/common.cpp:361-368 | The counts over a buffer split in two add up to the count over the whole buffer. |
| Topology.CountNodesAndPackagesDisjoint | src/common.cpp:361-368 | No record is counted both as a node and as a package. Together the two increments stay within the number of records. |
| Topology.BitSetCount | src/common.cpp:403-414 | The probe loop over bits 63 down to 0 counts exactly the set bits of the processor mask. |
| Topology.ProbeBit | src/common.cpp:407-413 | In round i, masking with the halved probe tests bit 63 - i of the processor mask. |
| Topology.ProbeAdvance | src/common.cpp:410-413 | A round entered with `i <= LSHIFT` is one of the 64 rounds. Halving the probe and incrementing i give the next round's probe and counter. |
| Topology.CountCpus | src/common.cpp:399-421 | The CPU loop adds the set bits of every core's mask to the logical CPUs and one physical CPU per core record. Every other counter is unchanged. |
| Topology.LogicalCpusBounded | src/common.cpp:403-417 | The logical-CPU increment is at most 64 per physical CPU counted. |
| Topology.LogicalCpusCoverCores | src/common.cpp:403-417 | When every core's mask names at least one CPU, the loop adds at least as many logical CPUs as physical ones. |
| Topology.CacheStep | src/common.cpp:449-466 | A cache record of level 1 to 4 adds one to exactly that level's counter. Other records, and cache levels outside 1 to 4, leave every counter unchanged. |
| Topology.CountCaches | src/common.cpp:445-470 | The cache loop adds to each level-k counter the number of level-k cache records. Every other counter is unchanged. |
| Topology.CacheLevelsPartition | src/common.cpp:449-466 | Every cache record is counted at exactly one level from 1 to 4 or is of unknown level. The four increments plus the unknown ones equal the number of cache records. |
| Topology.QuerySysInfoWindows | src/common.cpp:341-486 | If the record buffer cannot be allocated, the result is -1 and the counters are untouched. Otherwise the result is 0 and every counter has its value as a function of the records, the page size and the large-page minimum. |
| Topology.FirstIndex | src/common.cpp:390 | The first position of an identifier in the cpuinfo sequence: it holds the identifier and no earlier position does. |
| Topology.Find | src/common.cpp:390 | `std::find` returns the first position holding the value, or the length exactly when the value is absent. |
| Topology.CollectDistinctIds | src/common.cpp:383-394 | The find / push_back loop keeps every identifier exactly once, in order of first appearance. Its length is the number of distinct identifiers. |
| Topology.DistinctCardinality | src/common.cpp:390-394 | A list without duplicates has as many entries as distinct values. |
| Topology.SetCardinalityBound | src/common.cpp:429-440 | There are never more distinct identifiers than cpuinfo lines. |
| Topology.QuerySysInfoLinux | src/common.cpp:370-489 | When the NUMA API is unavailable, the result is -1 and the counters are untouched. Otherwise every counter is set from its source, converted to the counter's width: nodes = max node + 1; packages = distinct physical ids; logical = online processors; physical = distinct core ids × packages; L1 = L2 = physical; L3 = packages; L4 = 0; the page sizes. |
| Topology.PhysicalCpusExact | src/common.cpp:440 | Whenever distinct core ids times distinct physical ids is below 2^32, the physical CPU count is exactly that product: the conversions lose nothing. |

## Left out

- Console output is not modelled: the verbose report, warnings and error messages.
- Reading and parsing `/proc/cpuinfo` is not modelled. The `physical id` and `core id` values arrive as sequences.
- The remaining routines of `src/common.cpp` are not part of this model:
  - thread affinity and priority;
  - timers and the TSC;
  - the globals and `init_globals`;
  - the `DEFAULT_*` values, which `src/include/common.h` defines and which is not part of this model.
- `src/include/LatencyBenchmark.h` holds only declarations, floating-point results and thread management, so it is left out.
- Memory is not modelled: `malloc` and `free` of the record buffer and of the libnuma bitmask. The Linux branch of `cpu_id_in_numa_node` returns on a `numa_node_to_cpus` error without freeing the bitmask, and that leak is outside the model.
- NumaCpu.CpuIdInNumaNodeWindows: the return value of `GetNumaNodeProcessorMask` is ignored by the source. The model takes the mask it leaves behind as an input, so a failed call corresponds to the all-zero mask.
- NumaCpu.CpuIdInNumaNodeLinux: requires a bitmask of at most 2^31 bits. Larger masks would overflow the conversion of the uint32 position to the int32 result, and that overflow is not modelled.
- Passes.ComputeNumberOfPasses: requires a positive working-set size when a curve is compiled in. The source divides without checking, and division by zero is undefined in C++.
- Passes.XorTwo: XOR with 2 is modelled arithmetically on naturals, as flipping bit 1 (its contract: the value moves by exactly two and keeps its parity and its quotient by 4). Passes.XorTwoTogglesBitOne states the matching fact for `^` on 64-bit words, but the two are not proved to agree: the link would need the conversion between a natural and a 64-bit word, which the verifier cannot handle here. So curve 2 rests on this arithmetic stand-in for `^ 2`.
- Passes.ComputeNumberOfPassesCorrected: squares the size on unbounded integers. A size_t implementation of the correction would also need to avoid overflowing size².
- Topology.QuerySysInfoWindows: the counters are unbounded naturals, so the 32-bit wrap-around of the `++` and `+=` updates on the global counters is not modelled.
- Topology.BitSetCount: assumes a 64-bit `ULONG_PTR`, so `LSHIFT` is 63. A 32-bit build is not modelled.

## Findings

| source | as written | input that shows it | evidently intended | confidence | as-written member | corrected member |
|---|---|---|---|---|---|---|
| src/common.cpp:312 | `(4*2097152) / working_set_size_KB^2` parses as `(8388608 / size) XOR 2`, because `/` binds tighter than `^`. | A 1024 KB working set gets 8194 passes, where the inverse-square curve gives 8. A 4194304 KB set gets 1 pass and a larger 8388608 KB set gets 3. | 8388608 divided by the square of the size, floored at one pass. The result is inverse-square and never increases with the size. | not executed | Passes.Curve2AsWrittenNotAntitone | Passes.Curve2CorrectedAntitone |
