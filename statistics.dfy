/** The eleven event counters of the simulator (global variables in the C
    program), kept here as one value owned by the engine. */
module Statistics {

  datatype Counters = Counters(
    tlbHits: nat, tlbMisses: nat, tlbShootDowns: nat, tlbWrites: nat,
    pageTableHits: nat, pageFaults: nat, pageTableAccesses: nat,
    pageTableWrites: nat, pageTableEvictions: nat,
    hddWrites: nat, hddReads: nat)

  const NoCounters := Counters(0, 0, 0, 0, 0, 0, 0, 0, 0, 0, 0)

  /** The conservation laws among the counters that every run keeps: each TLB
      miss is one page-table access that either hits or faults and ends in one
      TLB write; each fault is one disk read and one page-table write; each
      eviction follows a fault and writes the disk at most once; each
      shootdown is caused by a TLB write or by an eviction. */
  predicate Balanced(c: Counters)
  {
    && c.tlbMisses == c.pageFaults + c.pageTableHits
    && c.pageTableAccesses == c.tlbMisses
    && c.tlbWrites == c.tlbMisses
    && c.hddReads == c.pageFaults
    && c.pageTableWrites == c.pageFaults
    && c.pageTableEvictions <= c.pageFaults
    && c.hddWrites <= c.pageTableEvictions
    && c.tlbShootDowns <= c.tlbWrites + c.pageTableEvictions
  }
}
