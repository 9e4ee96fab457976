/** cpu_id_in_numa_node: the logical CPU id of the cpuInNode-th CPU (counted
    from 0) of a NUMA node, found by scanning the node's processor mask in
    ascending bit order; -1 when there is no such CPU. The operating-system
    query that produces the mask is an input. */
module NumaCpu {
  import opened CTypes
  import opened Bits

  /** Windows branch. processorMask is the 64-bit mask that
      GetNumaNodeProcessorMask leaves in the variable initialised to 0. */
  method CpuIdInNumaNodeWindows(processorMask: bv64, cpuInNode: uint32) returns (cpuId: int)
    ensures cpuId == NthSetBit(Bits64(processorMask), cpuInNode)
    ensures cpuId == -1 <==> PopCount(Bits64(processorMask)) <= cpuInNode
    ensures cpuId >= 0 ==>
      cpuId < 64 && Bits64(processorMask)[cpuId] &&
      PopCount(Bits64(processorMask)[..cpuId]) == cpuInNode
  {
    ghost var bits := Bits64(processorMask);
    cpuId := -1;
    var rankInNode: uint32 := 0;
    var shifts: uint32 := 0;
    var shiftmask := processorMask;
    var done := false;
    while !done && shifts < 64
      invariant shifts <= 64
      invariant bits[shifts..] == BitsN(shiftmask, 64 - shifts)
      invariant !done ==> cpuId == -1 && rankInNode == PopCount(bits[..shifts]) && rankInNode <= cpuInNode
      invariant done ==> 0 <= cpuId < shifts && bits[cpuId] && PopCount(bits[..cpuId]) == cpuInNode
      decreases 64 - shifts
    {
      assert bits[shifts] == (shiftmask & 1 == 1);
      assert bits[shifts + 1..] == bits[shifts..][1..];
      PopCountPrefixStep(bits, shifts);
      if shiftmask & 1 == 1 {
        if cpuInNode == rankInNode {
          cpuId := shifts;
          done := true;
        }
        rankInNode := rankInNode + 1;
      }
      shiftmask := shiftmask >> 1;
      shifts := shifts + 1;
    }
    if done {
      NthSetBitUnique(bits, cpuInNode, cpuId);
    } else {
      assert bits[..shifts] == bits;
    }
  }

  /** Outcome of the Linux mask query: numa_allocate_cpumask can return no
      mask, numa_node_to_cpus can report an error, or the node's CPUs are
      known (bit i of the libnuma bitmask, for i below its size). */
  datatype CpuMaskQuery = AllocationFailed | NodeToCpusFailed | NodeCpus(mask: seq<bool>)

  /** Linux branch: -1 when the query fails, otherwise the scan returns as
      soon as it meets the wanted CPU. */
  method CpuIdInNumaNodeLinux(query: CpuMaskQuery, cpuInNode: uint32) returns (cpuId: int)
    requires query.NodeCpus? ==> |query.mask| <= 0x8000_0000
    ensures query.NodeCpus? ==> cpuId == NthSetBit(query.mask, cpuInNode)
    ensures cpuId == -1 <==> !query.NodeCpus? || PopCount(query.mask) <= cpuInNode
    ensures cpuId >= 0 ==>
      query.NodeCpus? && cpuId < |query.mask| && query.mask[cpuId] &&
      PopCount(query.mask[..cpuId]) == cpuInNode
  {
    cpuId := -1;
    var rankInNode: uint32 := 0;
    if query.AllocationFailed? {
      return -1;
    }
    if query.NodeToCpusFailed? {
      return -1;
    }
    var mask := query.mask;
    for i := 0 to |mask|
      invariant cpuId == -1
      invariant rankInNode == PopCount(mask[..i]) && rankInNode <= cpuInNode
    {
      PopCountPrefixStep(mask, i);
      if mask[i] {
        if cpuInNode == rankInNode {
          cpuId := i;
          NthSetBitUnique(mask, cpuInNode, i);
          return cpuId;
        }
        rankInNode := rankInNode + 1;
      }
    }
    assert mask[..|mask|] == mask;
  }
}
