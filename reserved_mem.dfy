/** Memblock registration and the size of the hypervisor's memory
    reservation (reserved_mem.c).

    The memblock table is `hyp_memory[HYP_MEMBLOCK_REGIONS]` with the count
    `hyp_memblock_nr`, a C `int` that becomes -1 for good once a region is
    offered to a full table. */
module ReservedMem {
  import opened Bits
  import opened MmSizes
  import opened Sorting

  const HYP_MEMBLOCK_REGIONS: nat := 128
  const ENOMEM: int := 12

  /** CONFIG_NR_CPUS, the kernel configuration's bound on CPUs. */
  const NR_CPUS: nat := 256

  function StartOf(r: Region): nat {
    r.start
  }

  /** cmp_hyp_memblock: a three-way comparison on the regions' starts. */
  function CmpHypMemblock(r1: Region, r2: Region): (c: int)
    ensures c < 0 <==> r1.start < r2.start
    ensures c == 0 <==> r1.start == r2.start
    ensures c > 0 <==> r1.start > r2.start
  {
    Compare(r1.start, r2.start)
  }

  // -----------------------------------------------------------------------
  // The vmemmap fixed point

  /** One round of the loop in kvm_hyp_reserve: the pages of descriptors
      for the reserved memory plus `prev` vmemmap pages, plus the tables
      mapping them. `m` is hyp_mem_size >> PAGE_SHIFT. */
  function VmemmapStep(m: nat, prev: nat): nat {
    var n := DivRoundUp((m + prev) * HYP_PAGE_BYTES, PAGE_SIZE);
    n + PgtableMaxPages(n)
  }

  lemma VmemmapStepMonotone(m: nat, x: nat, y: nat)
    requires x <= y
    ensures VmemmapStep(m, x) <= VmemmapStep(m, y)
  {
    var a := DivRoundUp((m + x) * HYP_PAGE_BYTES, PAGE_SIZE);
    var b := DivRoundUp((m + y) * HYP_PAGE_BYTES, PAGE_SIZE);
    assert a <= b;
    MaxPagesMonotone(a, b);
  }

  /** The step maps [0, m + 7] into itself: a vmemmap page describes 128
      pages, so the step grows by about one page per 64. */
  lemma VmemmapStepBounded(m: nat, x: nat)
    requires x <= m + 7
    ensures VmemmapStep(m, x) <= m + 7
  {
    var n := DivRoundUp((m + x) * HYP_PAGE_BYTES, PAGE_SIZE);
    assert 128 * n <= m + x + 127;
    MaxPagesBound(n);
    assert 4 * DivRoundUp(n, PTRS_PER_PTE) <= n + 4;
  }

  /** n is the least fixed point of the step for m. */
  ghost predicate LeastFixedPoint(m: nat, n: nat) {
    VmemmapStep(m, n) == n && forall y :: VmemmapStep(m, y) == y ==> n <= y
  }

  /** The do-while loop of kvm_hyp_reserve: iterates the step from 0 until
      it is stable, which gives the least fixed point of the step. */
  method VmemmapPages(m: nat) returns (nrPages: nat)
    ensures LeastFixedPoint(m, nrPages)
  {
    nrPages := 0;
    var prev := nrPages;
    nrPages := VmemmapStep(m, prev);
    VmemmapStepBounded(m, prev);
    forall y | VmemmapStep(m, y) == y
      ensures nrPages <= y
    {
      VmemmapStepMonotone(m, 0, y);
    }
    while nrPages != prev
      invariant nrPages == VmemmapStep(m, prev)
      invariant prev <= nrPages <= m + 7
      invariant forall y :: VmemmapStep(m, y) == y ==> nrPages <= y
      decreases m + 7 - prev
    {
      ghost var old_prev := prev;
      prev := nrPages;
      nrPages := VmemmapStep(m, prev);
      VmemmapStepMonotone(m, old_prev, prev);
      VmemmapStepBounded(m, prev);
      forall y | VmemmapStep(m, y) == y
        ensures nrPages <= y
      {
        VmemmapStepMonotone(m, prev, y);
      }
    }
  }

  /** The growth of hyp_mem_size in kvm_hyp_reserve from `mem0`: a page per
      CPU, the `s1` bytes of stage-1 tables, then the vmemmap pages. */
  method GrowReservation(mem0: nat, s1: nat) returns (mem: nat, nrPages: nat)
    ensures LeastFixedPoint((mem0 + NR_CPUS * PAGE_SIZE + s1) / PAGE_SIZE, nrPages)
    ensures mem == mem0 + NR_CPUS * PAGE_SIZE + s1 + nrPages * PAGE_SIZE
  {
    mem := mem0 + NR_CPUS * PAGE_SIZE;
    mem := mem + s1;
    nrPages := VmemmapPages(mem / PAGE_SIZE);
    mem := mem + nrPages * PAGE_SIZE;
  }

  /** Sorting keeps every bound a u64 value. */
  lemma SortKeepsFit(s: seq<Region>)
    requires RegionsFit(s)
    ensures RegionsFit(SortBy(s, StartOf))
  {
    var t := SortBy(s, StartOf);
    SortByPermutation(s, StartOf);
    forall i | 0 <= i < |t|
      ensures t[i].start < U64_LIMIT && t[i].end < U64_LIMIT
    {
      assert t[i] in multiset(s);
    }
  }

  // -----------------------------------------------------------------------
  // The memblock table

  class Memblocks {
    /** hyp_memory */
    var regions: array<Region>
    /** hyp_memblock_nr */
    var nr: int
    /** hyp_mem_size */
    var memSize: nat

    ghost predicate Valid()
      reads this`regions, this`nr, regions
    {
      regions.Length == HYP_MEMBLOCK_REGIONS && -1 <= nr <= HYP_MEMBLOCK_REGIONS
      && RegionsFit(regions[..])
    }

    /** The static table before any region is registered. */
    constructor()
      ensures Valid() && nr == 0 && memSize == 0 && fresh(regions)
    {
      regions := new Region[HYP_MEMBLOCK_REGIONS](_ => Region(0, 0));
      nr := 0;
      memSize := 0;
    }

    /** early_init_dt_add_memory_hyp: registers [base, base + size) in
        the next slot, or fails with -ENOMEM once the table is full, after
        which it fails on every call and changes nothing. */
    method AddMemory(base: nat, size: nat) returns (ret: int)
      requires Valid() && base < U64_LIMIT && size < U64_LIMIT
      modifies this, regions
      ensures Valid() && regions == old(regions) && memSize == old(memSize)
      ensures (old(nr) < 0 || old(nr) >= HYP_MEMBLOCK_REGIONS) <==> ret == -ENOMEM
      ensures ret == -ENOMEM ==> nr == -1 && regions[..] == old(regions[..])
      ensures ret != -ENOMEM ==>
        && ret == 0 && nr == old(nr) + 1
        && regions[..] == old(regions[..])[old(nr) := Region(base, (base + size) % U64_LIMIT)]
    {
      if nr >= HYP_MEMBLOCK_REGIONS as int {
        nr := -1;
      }
      if nr < 0 {
        return -ENOMEM;
      }
      regions[nr] := Region(base, (base + size) % U64_LIMIT);
      nr := nr + 1;
      ret := 0;
    }

    /** sort_memblock_regions: the first `nr` regions sorted by start. */
    method SortRegions()
      requires Valid() && nr >= 0
      modifies regions
      ensures Valid()
      ensures regions[..nr] == SortBy(old(regions[..nr]), StartOf)
      ensures regions[nr..] == old(regions[nr..])
    {
      var s := SortBy(regions[..nr], StartOf);
      SortKeepsFit(regions[..nr]);
      forall i | 0 <= i < nr {
        regions[i] := s[i];
      }
      assert regions[..] == s + old(regions[nr..]);
    }

    /** The reservation size computed by kvm_hyp_reserve in protected mode
        on a host not running at EL2 (`hypModeOk`): nothing changes without
        registered regions; otherwise the regions are sorted and
        hyp_mem_size grows by one page per CPU, the stage-1 tables, and the
        vmemmap pages `nrPages`, the least fixed point of VmemmapStep. */
    method Reserve(hypModeOk: bool, protectedMode: bool) returns (nrPages: nat)
      requires Valid()
      modifies this, regions
      ensures Valid() && regions == old(regions) && nr == old(nr)
      ensures !hypModeOk || !protectedMode || old(nr) <= 0 ==>
        memSize == old(memSize) && regions[..] == old(regions[..])
      ensures hypModeOk && protectedMode && old(nr) > 0 ==>
        && regions[..nr] == SortBy(old(regions[..nr]), StartOf)
        && SortedBy(regions[..nr], StartOf)
        && var m := old(memSize) + NR_CPUS * PAGE_SIZE + TotalSize(regions[..], nr) + 515 * PAGE_SIZE;
           LeastFixedPoint(m / PAGE_SIZE, nrPages) && memSize == m + nrPages * PAGE_SIZE
    {
      nrPages := 0;
      if !hypModeOk || !protectedMode {
        return;
      }
      if nr <= 0 {
        return;
      }
      SortRegions();
      SortBySorted(old(regions[..nr]), StartOf);
      var s1 := HypS1PgtableSize(regions[..], nr);
      memSize, nrPages := GrowReservation(memSize, s1);
    }
  }
}
