/** The counting logic of query_sys_info. The operating-system reads (the
    Windows logical-processor records, the "physical id" and "core id"
    lines of /proc/cpuinfo, sysconf, numa_max_node, the page-size calls)
    are inputs; the process-wide counters are a SysInfo value passed in and
    returned. */
module Topology {
  import opened CTypes
  import opened Bits

  /** The system-topology counters set by query_sys_info. */
  datatype SysInfo = SysInfo(
    numNodes: nat,
    numPhysicalPackages: nat,
    numPhysicalCpus: nat,
    numLogicalCpus: nat,
    totalL1Caches: nat,
    totalL2Caches: nat,
    totalL3Caches: nat,
    totalL4Caches: nat,
    pageSize: nat,
    largePageSize: nat)

  /** One SYSTEM_LOGICAL_PROCESSOR_INFORMATION record, by Relationship:
      a processor core with its 64-bit ProcessorMask, a NUMA node, a cache
      with its Cache.Level byte, a processor package, or any other kind. */
  datatype ProcessorInfo =
    | ProcessorCore(processorMask: bv64)
    | NumaNode
    | Cache(level: nat)
    | ProcessorPackage
    | OtherRelationship

  predicate IsNumaNode(r: ProcessorInfo) { r.NumaNode? }
  predicate IsPackage(r: ProcessorInfo) { r.ProcessorPackage? }
  predicate IsCore(r: ProcessorInfo) { r.ProcessorCore? }
  predicate IsCache(r: ProcessorInfo) { r.Cache? }

  function CacheOfLevel(level: nat): ProcessorInfo -> bool
  {
    (r: ProcessorInfo) => r.Cache? && r.level == level
  }

  /** A cache record whose level the tally does not know (not 1 to 4). */
  predicate IsUnknownCache(r: ProcessorInfo)
  {
    r.Cache? && !(1 <= r.level <= 4)
  }

  /** Number of records with property p. */
  function Count(records: seq<ProcessorInfo>, p: ProcessorInfo -> bool): (n: nat)
    ensures n <= |records|
  {
    if records == [] then 0
    else Count(records[..|records| - 1], p) + (if p(records[|records| - 1]) then 1 else 0)
  }

  /** Logical CPUs named by the core records: the sum of the set-bit counts
      of their processor masks. */
  function LogicalCpus(records: seq<ProcessorInfo>): nat
  {
    if records == [] then 0
    else
      var last := records[|records| - 1];
      LogicalCpus(records[..|records| - 1]) +
        (if last.ProcessorCore? then PopCount(Bits64(last.processorMask)) else 0)
  }

  // ---------------------------------------------------------------------
  // Windows: walks over the logical-processor records.

  /** The NUMA loop: each NUMA-node record adds a node, each package record
      a package; nothing else changes. */
  method CountNodesAndPackages(records: seq<ProcessorInfo>, start: SysInfo) returns (info: SysInfo)
    ensures info == start.(
      numNodes := start.numNodes + Count(records, IsNumaNode),
      numPhysicalPackages := start.numPhysicalPackages + Count(records, IsPackage))
  {
    info := start;
    var i := 0;
    while i < |records|
      invariant i <= |records|
      invariant info == start.(
        numNodes := start.numNodes + Count(records[..i], IsNumaNode),
        numPhysicalPackages := start.numPhysicalPackages + Count(records[..i], IsPackage))
    {
      assert records[..i + 1][..i] == records[..i];
      if records[i].NumaNode? {
        info := info.(numNodes := info.numNodes + 1);
      } else if records[i].ProcessorPackage? {
        info := info.(numPhysicalPackages := info.numPhysicalPackages + 1);
      }
      i := i + 1;
    }
    assert records[..i] == records;
  }

  /** The inner bit-counting loop: tests the mask against a one-hot probe
      that starts at bit 63 (sizeof(ULONG_PTR) * 8 - 1 on a 64-bit target)
      and is halved each round, while the DWORD counter i runs from 0 to
      LSHIFT. The ghost j is the counter's value as a number. */
  method BitSetCount(bitMask: bv64) returns (bitSetCount: nat)
    ensures bitSetCount == PopCount(Bits64(bitMask))
  {
    var lshift: bv32 := 63;
    ghost var bits := Bits64(bitMask);
    bitSetCount := 0;
    var bitTest: bv64 := 0x8000_0000_0000_0000;
    var i: bv32 := 0;
    ghost var j: nat := 0;
    while i <= lshift
      invariant j <= 64 && i == ToBv(j)
      invariant bitTest == TopProbe(i)
      invariant bitSetCount == PopCount(bits[64 - j..])
      decreases 64 - j
    {
      ProbeAdvance(j, i, bitTest);
      ProbeBit(bitMask, bits, j, i, bitTest);
      PopCountSuffixStep(bits, 63 - j);
      bitSetCount := bitSetCount + (if bitMask & bitTest != 0 then 1 else 0);
      bitTest := bitTest / 2;
      i := i + 1;
      j := j + 1;
    }
    ToBvBelow(j);
    assert bits[0..] == bits;
  }

  /** Round j of the bit-counting loop masks with the probe for bit
      63 - j. */
  lemma ProbeBit(bitMask: bv64, bits: seq<bool>, j: nat, i: bv32, bitTest: bv64)
    requires j < 64 && i == ToBv(j) && bits == Bits64(bitMask) && bitTest == TopProbe(i)
    ensures (bitMask & bitTest != 0) == bits[63 - j]
  {
    var pos := ToBv(63 - j);
    BitsNAtPos(bitMask, 64, 63 - j, pos);
    ComplementPos(j, i, pos);
    ToBvBounds(j);
    TopProbeTest(bitMask, i, bitTest);
  }

  /** A round entered with i <= LSHIFT is one of the 64 rounds, and halving
      the probe and incrementing the counter give the next round's state. */
  lemma ProbeAdvance(j: nat, i: bv32, bitTest: bv64)
    requires j <= 64 && i == ToBv(j) && i <= 63 && bitTest == TopProbe(i)
    ensures j < 64
    ensures i + 1 == ToBv(j + 1) && bitTest / 2 == TopProbe(i + 1)
  {
    ToBvBelow(j);
    TopProbeHalf(i);
  }

  /** The CPU loop: each core record adds the set bits of its mask to the
      logical CPUs and exactly one physical CPU. */
  method CountCpus(records: seq<ProcessorInfo>, start: SysInfo) returns (info: SysInfo)
    ensures info == start.(
      numLogicalCpus := start.numLogicalCpus + LogicalCpus(records),
      numPhysicalCpus := start.numPhysicalCpus + Count(records, IsCore))
  {
    info := start;
    var i := 0;
    while i < |records|
      invariant i <= |records|
      invariant info == start.(
        numLogicalCpus := start.numLogicalCpus + LogicalCpus(records[..i]),
        numPhysicalCpus := start.numPhysicalCpus + Count(records[..i], IsCore))
    {
      assert records[..i + 1][..i] == records[..i];
      if records[i].ProcessorCore? {
        var bitSetCount := BitSetCount(records[i].processorMask);
        info := info.(numLogicalCpus := info.numLogicalCpus + bitSetCount);
        info := info.(numPhysicalCpus := info.numPhysicalCpus + 1);
      }
      i := i + 1;
    }
    assert records[..i] == records;
  }

  /** The switch on a cache record's level: a level from 1 to 4 adds one to
      exactly that level's counter; any other record, or a cache of another
      level, changes nothing. */
  function CacheStep(info: SysInfo, r: ProcessorInfo): (next: SysInfo)
    ensures next.(totalL1Caches := info.totalL1Caches, totalL2Caches := info.totalL2Caches,
                  totalL3Caches := info.totalL3Caches, totalL4Caches := info.totalL4Caches) == info
    ensures next.totalL1Caches == info.totalL1Caches + (if CacheOfLevel(1)(r) then 1 else 0)
    ensures next.totalL2Caches == info.totalL2Caches + (if CacheOfLevel(2)(r) then 1 else 0)
    ensures next.totalL3Caches == info.totalL3Caches + (if CacheOfLevel(3)(r) then 1 else 0)
    ensures next.totalL4Caches == info.totalL4Caches + (if CacheOfLevel(4)(r) then 1 else 0)
  {
    if !r.Cache? then info
    else match r.level
      case 1 => info.(totalL1Caches := info.totalL1Caches + 1)
      case 2 => info.(totalL2Caches := info.totalL2Caches + 1)
      case 3 => info.(totalL3Caches := info.totalL3Caches + 1)
      case 4 => info.(totalL4Caches := info.totalL4Caches + 1)
      case _ => info
  }

  /** The cache loop: each level-k counter grows by the number of level-k
      cache records. */
  method CountCaches(records: seq<ProcessorInfo>, start: SysInfo) returns (info: SysInfo)
    ensures info == start.(
      totalL1Caches := start.totalL1Caches + Count(records, CacheOfLevel(1)),
      totalL2Caches := start.totalL2Caches + Count(records, CacheOfLevel(2)),
      totalL3Caches := start.totalL3Caches + Count(records, CacheOfLevel(3)),
      totalL4Caches := start.totalL4Caches + Count(records, CacheOfLevel(4)))
  {
    info := start;
    var i := 0;
    while i < |records|
      invariant i <= |records|
      invariant info == start.(
        totalL1Caches := start.totalL1Caches + Count(records[..i], CacheOfLevel(1)),
        totalL2Caches := start.totalL2Caches + Count(records[..i], CacheOfLevel(2)),
        totalL3Caches := start.totalL3Caches + Count(records[..i], CacheOfLevel(3)),
        totalL4Caches := start.totalL4Caches + Count(records[..i], CacheOfLevel(4)))
    {
      assert records[..i + 1][..i] == records[..i];
      info := CacheStep(info, records[i]);
      i := i + 1;
    }
    assert records[..i] == records;
  }

  /** query_sys_info on Windows: -1 when the record buffer cannot be
      allocated; otherwise the three walks over the records, then the page
      size (dwPageSize) and GetLargePageMinimum, and 0. The counters start
      from whatever they held before the call. */
  method QuerySysInfoWindows(bufferAllocated: bool, records: seq<ProcessorInfo>,
                             pageSize: uint32, largePageMinimum: uint64, start: SysInfo)
    returns (status: int, info: SysInfo)
    ensures !bufferAllocated ==> status == -1 && info == start
    ensures bufferAllocated ==> status == 0 && info == SysInfo(
      start.numNodes + Count(records, IsNumaNode),
      start.numPhysicalPackages + Count(records, IsPackage),
      start.numPhysicalCpus + Count(records, IsCore),
      start.numLogicalCpus + LogicalCpus(records),
      start.totalL1Caches + Count(records, CacheOfLevel(1)),
      start.totalL2Caches + Count(records, CacheOfLevel(2)),
      start.totalL3Caches + Count(records, CacheOfLevel(3)),
      start.totalL4Caches + Count(records, CacheOfLevel(4)),
      pageSize,
      largePageMinimum)
  {
    if !bufferAllocated {
      return -1, start;
    }
    info := CountNodesAndPackages(records, start);
    info := CountCpus(records, info);
    info := CountCaches(records, info);
    info := info.(pageSize := pageSize, largePageSize := largePageMinimum);
    status := 0;
  }

  /** Counting distributes over splitting the record buffer. */
  lemma {:induction false} CountAppend(a: seq<ProcessorInfo>, b: seq<ProcessorInfo>, p: ProcessorInfo -> bool)
    ensures Count(a + b, p) == Count(a, p) + Count(b, p)
  {
    if b == [] {
      assert a + b == a;
    } else {
      assert (a + b)[..|a + b| - 1] == a + b[..|b| - 1];
      CountAppend(a, b[..|b| - 1], p);
    }
  }

  /** Records of two kinds that exclude each other are never counted
      twice: the NUMA loop's two counters together stay within the number
      of records. */
  lemma {:induction false} CountNodesAndPackagesDisjoint(records: seq<ProcessorInfo>)
    ensures Count(records, IsNumaNode) + Count(records, IsPackage) <= |records|
  {
    if records != [] {
      CountNodesAndPackagesDisjoint(records[..|records| - 1]);
    }
  }

  /** Every cache record is counted at one level from 1 to 4 or is
      unknown: the four counters grow by the cache records of known
      level. */
  lemma {:induction false} CacheLevelsPartition(records: seq<ProcessorInfo>)
    ensures Count(records, CacheOfLevel(1)) + Count(records, CacheOfLevel(2)) +
            Count(records, CacheOfLevel(3)) + Count(records, CacheOfLevel(4)) +
            Count(records, IsUnknownCache) == Count(records, IsCache)
  {
    if records != [] {
      CacheLevelsPartition(records[..|records| - 1]);
    }
  }

  /** A core record holds at most 64 logical CPUs, so the logical count
      grows by at most 64 per physical CPU counted. */
  lemma {:induction false} LogicalCpusBounded(records: seq<ProcessorInfo>)
    ensures LogicalCpus(records) <= 64 * Count(records, IsCore)
  {
    if records != [] {
      LogicalCpusBounded(records[..|records| - 1]);
    }
  }

  /** A core whose mask names at least one CPU adds at least one logical
      CPU: when every core record does, there are at least as many
      logical CPUs as physical ones. */
  lemma {:induction false} LogicalCpusCoverCores(records: seq<ProcessorInfo>)
    requires forall k :: 0 <= k < |records| && records[k].ProcessorCore? ==>
      exists b :: 0 <= b < 64 && Bits64(records[k].processorMask)[b]
    ensures LogicalCpus(records) >= Count(records, IsCore)
  {
    if records != [] {
      var n := |records| - 1;
      assert forall k :: 0 <= k < n ==> records[..n][k] == records[k];
      LogicalCpusCoverCores(records[..n]);
    }
  }

  // ---------------------------------------------------------------------
  // Linux: distinct identifiers from /proc/cpuinfo.

  /** The identifiers occurring in a sequence. */
  function Elements(s: seq<uint32>): set<uint32>
  {
    set x | x in s
  }

  predicate NoDuplicates(s: seq<uint32>)
  {
    forall i, j :: 0 <= i < j < |s| ==> s[i] != s[j]
  }

  /** Position of the first occurrence of x. */
  function FirstIndex(s: seq<uint32>, x: uint32): (k: nat)
    requires x in s
    ensures k < |s| && s[k] == x
    ensures forall j :: 0 <= j < k ==> s[j] != x
  {
    if s[0] == x then 0 else 1 + FirstIndex(s[1..], x)
  }

  /** std::find: the position of the first element equal to x, or the
      length when there is none. */
  method Find(v: seq<uint32>, x: uint32) returns (pos: nat)
    ensures pos <= |v|
    ensures pos < |v| ==> v[pos] == x
    ensures forall j :: 0 <= j < pos ==> v[j] != x
    ensures pos == |v| <==> x !in v
  {
    pos := 0;
    while pos < |v| && v[pos] != x
      invariant pos <= |v|
      invariant forall j :: 0 <= j < pos ==> v[j] != x
    {
      pos := pos + 1;
    }
  }

  /** The find / push_back loop over the identifiers read from
      /proc/cpuinfo: every identifier once, in order of first appearance. */
  method CollectDistinctIds(ids: seq<uint32>) returns (distinct: seq<uint32>)
    ensures NoDuplicates(distinct)
    ensures forall x :: x in distinct <==> x in ids
    ensures forall a, b :: 0 <= a < b < |distinct| ==>
      FirstIndex(ids, distinct[a]) < FirstIndex(ids, distinct[b])
    ensures |distinct| == |Elements(ids)|
  {
    distinct := [];
    for i := 0 to |ids|
      invariant NoDuplicates(distinct)
      invariant forall x :: x in distinct <==> x in ids[..i]
      invariant forall a :: 0 <= a < |distinct| ==> distinct[a] in ids && FirstIndex(ids, distinct[a]) < i
      invariant forall a, b :: 0 <= a < b < |distinct| ==>
        FirstIndex(ids, distinct[a]) < FirstIndex(ids, distinct[b])
    {
      assert ids[..i + 1] == ids[..i] + [ids[i]];
      var pos := Find(distinct, ids[i]);
      if pos == |distinct| {
        assert FirstIndex(ids, ids[i]) == i;
        distinct := distinct + [ids[i]];
      }
    }
    assert ids[..|ids|] == ids;
    DistinctCardinality(distinct);
    assert Elements(distinct) == Elements(ids);
  }

  /** A sequence without duplicates has as many elements as its set. */
  lemma {:induction false} DistinctCardinality(s: seq<uint32>)
    requires NoDuplicates(s)
    ensures |Elements(s)| == |s|
  {
    if s != [] {
      DistinctCardinality(s[1..]);
      var rest := Elements(s[1..]);
      assert Elements(s) == {s[0]} + rest;
      assert s[0] !in rest;
    }
  }

  /** A sequence has at least as many elements as its set. */
  lemma {:induction false} SetCardinalityBound(s: seq<uint32>)
    ensures |Elements(s)| <= |s|
  {
    if s != [] {
      SetCardinalityBound(s[1..]);
      var rest := Elements(s[1..]);
      if s[0] in rest {
        assert Elements(s) == rest;
      } else {
        assert Elements(s) == {s[0]} + rest;
      }
    }
  }

  /** query_sys_info on Linux: -1 when the NUMA API is unavailable.
      Otherwise nodes = numa_max_node() + 1; packages = distinct physical
      ids; logical CPUs = the online-processor count from sysconf; physical
      CPUs = distinct core ids times packages; the cache counts are guesses
      from those (one L1 and one L2 per physical CPU, one L3 per package,
      no L4); page sizes from sysconf and gethugepagesize. Each value is
      converted to the width of its counter as the source's assignments
      convert it. */
  method QuerySysInfoLinux(numaAvailable: bool, maxNode: int, physicalIds: seq<uint32>,
                           onlineProcessors: int, coreIds: seq<uint32>,
                           pageSizeResult: int, hugePageSize: int, start: SysInfo)
    returns (status: int, info: SysInfo)
    ensures !numaAvailable ==> status == -1 && info == start
    ensures numaAvailable ==> status == 0 && info == SysInfo(
      ToU32(maxNode + 1),
      ToU32(|Elements(physicalIds)|),
      ToU32(ToU64(|Elements(coreIds)| * ToU32(|Elements(physicalIds)|))),
      ToU32(onlineProcessors),
      ToU32(ToU64(|Elements(coreIds)| * ToU32(|Elements(physicalIds)|))),
      ToU32(ToU64(|Elements(coreIds)| * ToU32(|Elements(physicalIds)|))),
      ToU32(|Elements(physicalIds)|),
      0,
      ToU64(pageSizeResult),
      ToU64(hugePageSize))
  {
    if !numaAvailable {
      return -1, start;
    }
    info := start.(numNodes := ToU32(maxNode + 1));
    var physPackageIds := CollectDistinctIds(physicalIds);
    info := info.(numPhysicalPackages := ToU32(|physPackageIds|));
    info := info.(numLogicalCpus := ToU32(onlineProcessors));
    var coreIdList := CollectDistinctIds(coreIds);
    info := info.(numPhysicalCpus := ToU32(ToU64(|coreIdList| * info.numPhysicalPackages)));
    info := info.(totalL1Caches := info.numPhysicalCpus, totalL2Caches := info.numPhysicalCpus,
                  totalL3Caches := info.numPhysicalPackages, totalL4Caches := 0);
    info := info.(pageSize := ToU64(pageSizeResult), largePageSize := ToU64(hugePageSize));
    status := 0;
  }

  /** Without wrap-around (distinct core ids times distinct physical ids
      below 2^32), the physical CPU count is exactly that product; the
      size_t product and the uint32 package count lose nothing. */
  lemma PhysicalCpusExact(physicalIds: seq<uint32>, coreIds: seq<uint32>)
    requires |Elements(coreIds)| * |Elements(physicalIds)| < U32_RANGE
    ensures ToU32(ToU64(|Elements(coreIds)| * ToU32(|Elements(physicalIds)|))) ==
            |Elements(coreIds)| * |Elements(physicalIds)|
  {
    var c, p := |Elements(coreIds)|, |Elements(physicalIds)|;
    if c > 0 {
      assert c * p == p + (c - 1) * p;
      assert ToU32(p) == p;
    }
    assert c * ToU32(p) == c * p;
  }
}
