/** Page-table sizing and the vmemmap range (include/nvhe/mm.h).

    The memory regions handed to the hypervisor are the memblock table
    `hyp_memory[0 .. hyp_memblock_nr)`; `hyp_memblock_nr` is a C `int`
    and is -1 once the table has overflowed, so it is an `int` here. */
module MmSizes {
  import opened Bits

  const PTRS_PER_PTE: nat := 512

  /** sizeof(struct hyp_page): refcount and order (4 bytes each), the pool
      pointer (8) and the list node (16). */
  const HYP_PAGE_BYTES: nat := 32

  /** Pages in the 1 GiB the stage-1 table reserves for private mappings. */
  const PRIVATE_MAPPING_PAGES: nat := 262144

  /** struct hyp_memblock_region: the physical range [start, end). */
  datatype Region = Region(start: nat, end: nat)

  /** The regions' bounds are u64 values. */
  ghost predicate RegionsFit(regions: seq<Region>) {
    forall i | 0 <= i < |regions| :: regions[i].start < U64_LIMIT && regions[i].end < U64_LIMIT
  }

  // -----------------------------------------------------------------------
  // hyp_vmemmap_range

  /** The page-aligned range of the vmemmap holding the descriptors of the
      `size >> PAGE_SHIFT` pages from the one whose descriptor is at `desc`
      (hyp_phys_to_page(phys)). */
  method VmemmapRange(desc: nat, size: nat) returns (start: nat, end: nat)
    requires desc < U64_LIMIT && size < U64_LIMIT
    ensures start % PAGE_SIZE == 0 && end % PAGE_SIZE == 0 && end < U64_LIMIT
    ensures start <= desc < start + PAGE_SIZE
    ensures desc + size / PAGE_SIZE * HYP_PAGE_BYTES <= U64_LIMIT - PAGE_SIZE ==>
      desc + size / PAGE_SIZE * HYP_PAGE_BYTES <= end < desc + size / PAGE_SIZE * HYP_PAGE_BYTES + PAGE_SIZE
  {
    var nrPages := size / PAGE_SIZE;
    start := desc;
    end := (start + nrPages * HYP_PAGE_BYTES) % U64_LIMIT;
    start := PageAlignDown(start);
    end := PageAlignU64(end);
  }

  // -----------------------------------------------------------------------
  // __hyp_pgtable_max_pages

  /** Tables needed at the k-th level up from `nr` pages: k rounds of
      DIV_ROUND_UP(., PTRS_PER_PTE). */
  function Tables(nr: nat, k: nat): nat {
    if k == 0 then nr else DivRoundUp(Tables(nr, k - 1), PTRS_PER_PTE)
  }

  /** Tables(nr, 1) + ... + Tables(nr, n). */
  function TablesSum(nr: nat, n: nat): nat {
    if n == 0 then 0 else TablesSum(nr, n - 1) + Tables(nr, n)
  }

  /** The worst-case number of page-table pages mapping `nr` pages with
      four levels of tables. */
  function PgtableMaxPages(nr: nat): nat {
    Tables(nr, 1) + Tables(nr, 2) + Tables(nr, 3) + Tables(nr, 4)
  }

  lemma TablesSumFour(nr: nat)
    ensures TablesSum(nr, 4) == PgtableMaxPages(nr)
  {
    assert TablesSum(nr, 1) == Tables(nr, 1);
    assert TablesSum(nr, 2) == Tables(nr, 1) + Tables(nr, 2);
    assert TablesSum(nr, 3) == Tables(nr, 1) + Tables(nr, 2) + Tables(nr, 3);
  }

  /** __hyp_pgtable_max_pages: the accumulator loop over the four levels. */
  method HypPgtableMaxPages(nrPages: nat) returns (total: nat)
    ensures total == PgtableMaxPages(nrPages)
  {
    total := 0;
    var n := nrPages;
    var i := 0;
    while i < 4
      invariant i <= 4 && n == Tables(nrPages, i) && total == TablesSum(nrPages, i)
    {
      n := DivRoundUp(n, PTRS_PER_PTE);
      total := total + n;
      i := i + 1;
    }
    TablesSumFour(nrPages);
  }

  lemma DivRoundUpMonotone(a: nat, b: nat)
    requires a <= b
    ensures DivRoundUp(a, PTRS_PER_PTE) <= DivRoundUp(b, PTRS_PER_PTE)
  {
  }

  lemma {:induction false} TablesMonotone(a: nat, b: nat, k: nat)
    requires a <= b
    ensures Tables(a, k) <= Tables(b, k)
    decreases k
  {
    if k > 0 {
      TablesMonotone(a, b, k - 1);
      DivRoundUpMonotone(Tables(a, k - 1), Tables(b, k - 1));
    }
  }

  lemma {:induction false} TablesPositive(nr: nat, k: nat)
    requires nr >= 1
    ensures Tables(nr, k) >= 1
    decreases k
  {
    if k > 0 {
      TablesPositive(nr, k - 1);
    }
  }

  /** At least one table per level is provisioned for a non-empty range. */
  lemma MaxPagesAtLeastFour(nr: nat)
    requires nr >= 1
    ensures PgtableMaxPages(nr) >= 4
  {
    TablesPositive(nr, 1);
    TablesPositive(nr, 2);
    TablesPositive(nr, 3);
    TablesPositive(nr, 4);
  }

  /** No tables are provisioned for an empty range. */
  lemma MaxPagesZero()
    ensures PgtableMaxPages(0) == 0
  {
  }

  /** More pages never need fewer tables. */
  lemma MaxPagesMonotone(a: nat, b: nat)
    requires a <= b
    ensures PgtableMaxPages(a) <= PgtableMaxPages(b)
  {
    TablesMonotone(a, b, 1);
    TablesMonotone(a, b, 2);
    TablesMonotone(a, b, 3);
    TablesMonotone(a, b, 4);
  }

  /** 1 GiB of 4 KiB pages needs 512 + 1 + 1 + 1 tables. */
  lemma MaxPagesOneGiB()
    ensures PgtableMaxPages(PRIVATE_MAPPING_PAGES) == 515
  {
    assert Tables(PRIVATE_MAPPING_PAGES, 1) == 512;
    assert Tables(PRIVATE_MAPPING_PAGES, 2) == 1;
    assert Tables(PRIVATE_MAPPING_PAGES, 3) == 1;
    assert Tables(PRIVATE_MAPPING_PAGES, 4) == 1;
  }

  /** Each level needs no more tables than the one below it. */
  lemma {:induction false} TablesShrink(nr: nat, k: nat)
    requires k >= 1
    ensures Tables(nr, k) <= Tables(nr, 1)
    decreases k
  {
    if k > 1 {
      TablesShrink(nr, k - 1);
      assert Tables(nr, k) <= Tables(nr, k - 1);
    }
  }

  /** The tables for `nr` pages are at most four times the last-level tables,
      hence about nr / 128. */
  lemma MaxPagesBound(nr: nat)
    ensures PgtableMaxPages(nr) <= 4 * DivRoundUp(nr, PTRS_PER_PTE)
    ensures PgtableMaxPages(nr) <= nr + 4
  {
    TablesShrink(nr, 2);
    TablesShrink(nr, 3);
    TablesShrink(nr, 4);
  }

  // -----------------------------------------------------------------------
  // __hyp_pgtable_total_size and the table pool sizes

  /** The pages of a region: (end - start) >> PAGE_SHIFT on u64. */
  function RegionPages(r: Region): nat
    requires r.start < U64_LIMIT && r.end < U64_LIMIT
  {
    SubU64(r.end, r.start) / PAGE_SIZE
  }

  /** The bytes of page-table pages for the first n regions. */
  function TotalSizeOf(regions: seq<Region>, n: nat): nat
    requires n <= |regions| && RegionsFit(regions)
  {
    if n == 0 then 0
    else TotalSizeOf(regions, n - 1) + PgtableMaxPages(RegionPages(regions[n - 1])) * PAGE_SIZE
  }

  /** A whole number of pages is provisioned. */
  lemma {:induction false} TotalSizeAligned(regions: seq<Region>, n: nat)
    requires n <= |regions| && RegionsFit(regions)
    ensures TotalSizeOf(regions, n) % PAGE_SIZE == 0
    decreases n
  {
    if n > 0 {
      TotalSizeAligned(regions, n - 1);
      AddPages(TotalSizeOf(regions, n - 1), PgtableMaxPages(RegionPages(regions[n - 1])));
    }
  }

  /** __hyp_pgtable_total_size: the loop over the first `nr` regions (none
      when `nr` is not positive). */
  method HypPgtableTotalSize(regions: seq<Region>, nr: int) returns (res: nat)
    requires nr <= |regions| && RegionsFit(regions)
    ensures nr <= 0 ==> res == 0
    ensures nr > 0 ==> res == TotalSizeOf(regions, nr)
  {
    res := 0;
    var i := 0;
    while i < nr
      invariant 0 <= i <= (if nr > 0 then nr else 0) && res == TotalSizeOf(regions, i)
    {
      var r := regions[i];
      var nrPages := RegionPages(r);
      nrPages := HypPgtableMaxPages(nrPages);
      res := res + nrPages * PAGE_SIZE;
      i := i + 1;
    }
  }

  /** 0 when TotalSizeOf does not apply (no registered regions). */
  function TotalSize(regions: seq<Region>, nr: int): nat
    requires nr <= |regions| && RegionsFit(regions)
  {
    if nr <= 0 then 0 else TotalSizeOf(regions, nr)
  }

  /** The provision for the regions plus k further pages is page-aligned. */
  lemma TotalPlusPagesAligned(regions: seq<Region>, nr: int, k: nat)
    requires nr <= |regions| && RegionsFit(regions)
    ensures (TotalSize(regions, nr) + k * PAGE_SIZE) % PAGE_SIZE == 0
  {
    if nr > 0 {
      TotalSizeAligned(regions, nr);
    }
    AddPages(TotalSize(regions, nr), k);
  }

  /** `__hyp_pgtable_max_pages((1 << 30) >> PAGE_SHIFT)`: the tables for
      1 GiB, 515 pages. */
  method PrivateMappingTables() returns (nrPages: nat)
    ensures nrPages == 515
  {
    nrPages := HypPgtableMaxPages(PRIVATE_MAPPING_PAGES);
    MaxPagesOneGiB();
  }

  /** hyp_s1_pgtable_size: the tables for every region plus those for 1 GiB
      of private mappings (515 pages), nothing without regions; a whole
      number of pages. */
  method HypS1PgtableSize(regions: seq<Region>, nr: int) returns (res: nat)
    requires nr <= |regions| && RegionsFit(regions)
    ensures nr <= 0 ==> res == 0
    ensures nr > 0 ==> res == TotalSize(regions, nr) + 515 * PAGE_SIZE
    ensures res % PAGE_SIZE == 0
  {
    if nr <= 0 {
      return 0;
    }
    res := HypPgtableTotalSize(regions, nr);
    var nrPages := PrivateMappingTables();
    res := res + nrPages * PAGE_SIZE;
    TotalPlusPagesAligned(regions, nr, 515);
  }

  /** host_s2_mem_pgtable_size: the tables for every region plus 16 pages
      for the stage-2 root, nothing without regions; a whole number of
      pages. */
  method HostS2MemPgtableSize(regions: seq<Region>, nr: int) returns (res: nat)
    requires nr <= |regions| && RegionsFit(regions)
    ensures nr <= 0 ==> res == 0
    ensures nr > 0 ==> res == TotalSize(regions, nr) + 16 * PAGE_SIZE
    ensures res % PAGE_SIZE == 0
  {
    var maxPgdSz := Shl(16, PAGE_SHIFT);
    ShlPage(16);
    if nr <= 0 {
      return 0;
    }
    res := HypPgtableTotalSize(regions, nr);
    res := res + maxPgdSz;
    TotalPlusPagesAligned(regions, nr, 16);
  }

  /** host_s2_dev_pgtable_size: the tables for 1 GiB of device mappings,
      nothing without regions. */
  method HostS2DevPgtableSize(nr: int) returns (res: nat)
    ensures nr <= 0 ==> res == 0
    ensures nr > 0 ==> res == 515 * PAGE_SIZE
  {
    if nr <= 0 {
      return 0;
    }
    res := PrivateMappingTables();
    res := res * PAGE_SIZE;
  }
}
