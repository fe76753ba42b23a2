/** The host stage-2 fault path (nvhe/mem_protect.c): membership of an IPA
    in the memblock table, the unmapping of every device gap, the choice of
    table pool with its one retry, the abort handler's IPA arithmetic, and
    the set-up of the two stage-2 table pools.

    The stage-2 page-table library is foreign code: each call it receives
    is appended to the log `ops` of a `HostStage2`, and the result of a map
    call is given by an oracle `mapper` from the calls so far and the new
    call to an error code. The memblock table is read, never written, here,
    so it is passed as the sequence `regions` with its count `nr`. */
module MemProtect {
  import opened Bits
  import opened MmSizes
  import PageAlloc
  import ReservedMem
  import Mm


  /** The two table pools of the host stage 2: host_s2_mem for memory,
      host_s2_dev for device space. */
  datatype Pool = S2Mem | S2Dev

  /** A call into the stage-2 page-table library: kvm_pgtable_stage2_map
      of [ipa, ipa + size) onto itself drawing tables from `pool`, or
      kvm_pgtable_stage2_unmap of [addr, addr + size). */
  datatype S2Op =
    | Map(ipa: nat, size: nat, prot: nat, pool: Pool)
    | Unmap(addr: nat, size: nat)

  // -----------------------------------------------------------------------
  // Membership

  ghost predicate Contains(r: Region, x: nat) {
    r.start <= x < r.end
  }

  /** Some registered region holds x. */
  ghost predicate IsMemory(regions: seq<Region>, nr: int, x: nat)
    requires nr <= |regions|
  {
    exists i | 0 <= i < nr :: Contains(regions[i], x)
  }

  /** What the binary search relies on: every region is a proper range, and
      the regions are in increasing order without overlap. */
  ghost predicate SortedDisjoint(regions: seq<Region>, nr: int)
    requires nr <= |regions|
  {
    && (forall i | 0 <= i < nr :: regions[i].start <= regions[i].end)
    && (forall i, j | 0 <= i < j < nr :: regions[i].end <= regions[j].start)
  }

  /** Disjoint regions sorted by start are sorted by end as well, so the
      table kvm_hyp_reserve sorts is what the binary search expects once
      its regions do not overlap. */
  lemma SortedDisjointOrdersEnds(regions: seq<Region>, nr: int, i: nat, j: nat)
    requires nr <= |regions| && SortedDisjoint(regions, nr)
    requires i <= j < nr
    ensures regions[i].start <= regions[j].start && regions[i].end <= regions[j].end
  {
  }

  /** ipa_is_memory: binary search of the first `nr` regions. A `true`
      result always names a region holding ipa; on a sorted, disjoint table
      the result is exactly membership, and there is none when `nr` is not
      positive. */
  method IpaIsMemory(regions: seq<Region>, nr: int, ipa: nat) returns (r: bool)
    requires nr <= |regions|
    ensures r ==> IsMemory(regions, nr, ipa)
    ensures SortedDisjoint(regions, nr) ==> (r <==> IsMemory(regions, nr, ipa))
    ensures nr <= 0 ==> !r
  {
    var left, right := 0, nr;
    while left < right
      invariant 0 <= left <= |regions| && right <= nr
      invariant nr >= 0 ==> left <= right
      invariant SortedDisjoint(regions, nr) ==> forall k | 0 <= k < left :: regions[k].end <= ipa
      invariant SortedDisjoint(regions, nr) ==> forall k | 0 <= k < nr && right <= k :: ipa < regions[k].start
      decreases right - left
    {
      var cur := (left + right) / 2;
      var reg := regions[cur];
      if ipa < reg.start {
        right := cur;
      } else if ipa >= reg.end {
        left := cur + 1;
      } else {
        assert Contains(regions[cur], ipa);
        return true;
      }
    }
    r := false;
    if SortedDisjoint(regions, nr) {
      forall i | 0 <= i < nr
        ensures !Contains(regions[i], ipa)
      {
      }
    }
  }

  // -----------------------------------------------------------------------
  // The device gaps

  /** Where the i-th gap starts: 0, then the end of the previous region. */
  function GapStart(regions: seq<Region>, i: nat): nat
    requires i <= |regions|
  {
    if i == 0 then 0 else regions[i - 1].end
  }

  /** The unmap of the gap below region i: from GapStart up to the region's
      start, the size computed as a u64 difference. */
  function Gap(regions: seq<Region>, i: nat): S2Op
    requires i < |regions| && RegionsFit(regions)
  {
    Unmap(GapStart(regions, i), SubU64(regions[i].start, GapStart(regions, i)))
  }

  function GapsUpTo(regions: seq<Region>, n: nat): (g: seq<S2Op>)
    requires n <= |regions| && RegionsFit(regions)
    ensures |g| == n
  {
    if n == 0 then [] else GapsUpTo(regions, n - 1) + [Gap(regions, n - 1)]
  }

  lemma {:induction false} GapsUpToIndex(regions: seq<Region>, n: nat, k: nat)
    requires n <= |regions| && RegionsFit(regions) && k < n
    ensures GapsUpTo(regions, n)[k] == Gap(regions, k)
    decreases n
  {
    if k < n - 1 {
      GapsUpToIndex(regions, n - 1, k);
    }
  }

  /** The unmaps host_stage2_unmap_dev_all issues: the gap below each of
      the first `nr` regions, then everything from the last region's end
      (from 0 when there is none), ULONG_MAX bytes. */
  function DevGaps(regions: seq<Region>, nr: int): (g: seq<S2Op>)
    requires nr <= |regions| && RegionsFit(regions)
    ensures |g| == (if nr > 0 then nr else 0) + 1
  {
    var n := if nr > 0 then nr else 0;
    GapsUpTo(regions, n) + [Unmap(GapStart(regions, n), ULONG_MAX)]
  }

  /** The unmap `op` covers address x. */
  ghost predicate Covers(op: S2Op, x: nat) {
    op.Unmap? && op.addr <= x < op.addr + op.size
  }

  /** On a sorted, disjoint table no region holds an address one of the
      unmaps covers. */
  lemma CoveredIsDevice(regions: seq<Region>, nr: int, x: nat, k: nat)
    requires nr <= |regions| && RegionsFit(regions) && SortedDisjoint(regions, nr)
    requires k < |DevGaps(regions, nr)| && Covers(DevGaps(regions, nr)[k], x)
    ensures !IsMemory(regions, nr, x)
  {
    var n := if nr > 0 then nr else 0;
    forall j | 0 <= j < n
      ensures !Contains(regions[j], x)
    {
      if k < n {
        GapsUpToIndex(regions, n, k);
        if j < k {
          SortedDisjointOrdersEnds(regions, nr, j, k - 1);
        } else {
          SortedDisjointOrdersEnds(regions, nr, k, j);
        }
      } else if n > 0 {
        SortedDisjointOrdersEnds(regions, nr, j, n - 1);
      }
    }
  }

  /** On a sorted, disjoint table every address below ULONG_MAX that no
      region holds is covered by one of the unmaps: the one of the gap below
      the first region ending above it, or the last one. */
  lemma DeviceIsCovered(regions: seq<Region>, nr: int, x: nat) returns (k: nat)
    requires nr <= |regions| && RegionsFit(regions) && SortedDisjoint(regions, nr)
    requires x < ULONG_MAX && !IsMemory(regions, nr, x)
    ensures k < |DevGaps(regions, nr)| && Covers(DevGaps(regions, nr)[k], x)
  {
    var n := if nr > 0 then nr else 0;
    var i := 0;
    while i < n && regions[i].end <= x
      invariant 0 <= i <= n
      invariant forall j | 0 <= j < i :: regions[j].end <= x
    {
      i := i + 1;
    }
    k := i;
    if i < n {
      GapsUpToIndex(regions, n, i);
      assert !Contains(regions[i], x);
    }
  }

  /** On a sorted, disjoint table the gaps are exactly the device space:
      an address below ULONG_MAX is covered by one of the unmaps iff no
      region holds it. */
  lemma GapsAreDeviceSpace(regions: seq<Region>, nr: int, x: nat)
    requires nr <= |regions| && RegionsFit(regions) && SortedDisjoint(regions, nr)
    requires x < ULONG_MAX
    ensures (exists k | 0 <= k < |DevGaps(regions, nr)| :: Covers(DevGaps(regions, nr)[k], x))
      <==> !IsMemory(regions, nr, x)
  {
    if !IsMemory(regions, nr, x) {
      var k := DeviceIsCovered(regions, nr, x);
    } else {
      forall k | 0 <= k < |DevGaps(regions, nr)|
        ensures !Covers(DevGaps(regions, nr)[k], x)
      {
        if Covers(DevGaps(regions, nr)[k], x) {
          CoveredIsDevice(regions, nr, x, k);
        }
      }
    }
  }

  // -----------------------------------------------------------------------
  // host_stage2_map

  /** The calls host_stage2_map issues from the log `ops0` and its result:
      one map from the pool chosen by membership; if that fails with
      -ENOMEM on device space, every device gap is unmapped and the map is
      issued once more. */
  ghost function HostMap(ops0: seq<S2Op>, regions: seq<Region>, nr: int, ipa: nat, size: nat,
                         prot: nat, mapper: (seq<S2Op>, S2Op) -> int): (seq<S2Op>, int)
    requires nr <= |regions| && RegionsFit(regions)
  {
    var op := Map(ipa, size, prot, if IsMemory(regions, nr, ipa) then S2Mem else S2Dev);
    var ret := mapper(ops0, op);
    if ret == -ReservedMem.ENOMEM && !IsMemory(regions, nr, ipa) then
      var ops1 := ops0 + [op] + DevGaps(regions, nr);
      (ops1 + [op], mapper(ops1, op))
    else
      (ops0 + [op], ret)
  }

  /** Every map host_stage2_map issues is of [ipa, ipa + size) with `prot`
      and draws from host_s2_mem exactly when ipa is memory. */
  lemma HostMapPool(ops0: seq<S2Op>, regions: seq<Region>, nr: int, ipa: nat, size: nat,
                    prot: nat, mapper: (seq<S2Op>, S2Op) -> int, k: nat)
    requires nr <= |regions| && RegionsFit(regions)
    requires |ops0| <= k < |HostMap(ops0, regions, nr, ipa, size, prot, mapper).0|
    requires HostMap(ops0, regions, nr, ipa, size, prot, mapper).0[k].Map?
    ensures var op := HostMap(ops0, regions, nr, ipa, size, prot, mapper).0[k];
      op.ipa == ipa && op.size == size && op.prot == prot
      && (op.pool == S2Mem <==> IsMemory(regions, nr, ipa))
  {
    var op := Map(ipa, size, prot, if IsMemory(regions, nr, ipa) then S2Mem else S2Dev);
    if mapper(ops0, op) == -ReservedMem.ENOMEM && !IsMemory(regions, nr, ipa) {
      var g := DevGaps(regions, nr);
      var out := ops0 + [op] + g + [op];
      if |ops0| < k < |ops0| + 1 + |g| {
        var i := k - |ops0| - 1;
        assert out[k] == g[i];
        if i < |g| - 1 {
          GapsUpToIndex(regions, |g| - 1, i);
        }
      }
    }
  }

  /** host_stage2_map retries exactly when the first map fails with -ENOMEM
      on device space, and then exactly once: the log grows by one call
      without a retry, and by the gaps and a second map with one. */
  lemma HostMapRetry(ops0: seq<S2Op>, regions: seq<Region>, nr: int, ipa: nat, size: nat,
                     prot: nat, mapper: (seq<S2Op>, S2Op) -> int)
    requires nr <= |regions| && RegionsFit(regions)
    ensures var op := Map(ipa, size, prot, if IsMemory(regions, nr, ipa) then S2Mem else S2Dev);
      var out := HostMap(ops0, regions, nr, ipa, size, prot, mapper).0;
      && out[..|ops0| + 1] == ops0 + [op]
      && (|out| > |ops0| + 1 <==> mapper(ops0, op) == -ReservedMem.ENOMEM && !IsMemory(regions, nr, ipa))
      && (|out| > |ops0| + 1 ==> |out| == |ops0| + |DevGaps(regions, nr)| + 2 && out[|out| - 1] == op)
  {
    var op := Map(ipa, size, prot, if IsMemory(regions, nr, ipa) then S2Mem else S2Dev);
    var out := HostMap(ops0, regions, nr, ipa, size, prot, mapper).0;
    if mapper(ops0, op) == -ReservedMem.ENOMEM && !IsMemory(regions, nr, ipa) {
      assert out == ops0 + [op] + DevGaps(regions, nr) + [op];
      assert out[..|ops0| + 1] == ops0 + [op];
    } else {
      assert out[..|ops0| + 1] == ops0 + [op];
    }
  }

  // -----------------------------------------------------------------------
  // The abort handler

  /** The bits of the prot of a host memory abort: R|W|X. */
  const PROT_RWX: nat := Mm.PROT_R + Mm.PROT_W + Mm.PROT_X

  /** The result of handle_host_mem_abort: it returns, or it panics. */
  datatype Outcome = Handled | Panic

  /** The IPA of a host abort: (hpfar & HPFAR_MASK) << 8 on u64, where
      HPFAR_MASK clears the low four bits. */
  function AbortIpa(hpfar: nat): nat
    requires hpfar < U64_LIMIT
  {
    (hpfar - hpfar % 16) * 256 % U64_LIMIT
  }

  /** Frame numbers of a 64-bit address space: 2^52. */
  const FRAMES: nat := 0x10_0000_0000_0000

  /** The IPA is the page whose frame number is HPFAR_EL2 from bit 4 up,
      taken modulo 2^52: a page-aligned u64. */
  lemma AbortIpaFrame(hpfar: nat)
    requires hpfar < U64_LIMIT
    ensures AbortIpa(hpfar) == hpfar / 16 % FRAMES * PAGE_SIZE
    ensures AbortIpa(hpfar) % PAGE_SIZE == 0 && AbortIpa(hpfar) < U64_LIMIT
  {
    var q := hpfar / 16;
    var a, b := q / FRAMES, q % FRAMES;
    assert (hpfar - hpfar % 16) * 256 == q * PAGE_SIZE;
    assert q * PAGE_SIZE == a * U64_LIMIT + b * PAGE_SIZE;
    ModOfMultiple(a, b * PAGE_SIZE);
  }

  lemma ModOfMultiple(a: nat, r: nat)
    requires r < U64_LIMIT
    ensures (a * U64_LIMIT + r) % U64_LIMIT == r
  {
  }

  // -----------------------------------------------------------------------
  // The host stage 2

  class HostStage2 {
    /** The calls made into the stage-2 page-table library, in order. */
    var ops: seq<S2Op>

    constructor()
      ensures ops == []
    {
      ops := [];
    }

    /** __host_stage2_map: one call into the library. */
    method MapPages(ipa: nat, size: nat, prot: nat, pool: Pool, mapper: (seq<S2Op>, S2Op) -> int)
      returns (ret: int)
      modifies this
      ensures ret == mapper(old(ops), Map(ipa, size, prot, pool))
      ensures ops == old(ops) + [Map(ipa, size, prot, pool)]
    {
      ret := mapper(ops, Map(ipa, size, prot, pool));
      ops := ops + [Map(ipa, size, prot, pool)];
    }

    /** host_stage2_unmap_dev_all: unmaps every device gap, in address
        order. */
    method UnmapDevAll(regions: seq<Region>, nr: int)
      requires nr <= |regions| && RegionsFit(regions)
      modifies this
      ensures ops == old(ops) + DevGaps(regions, nr)
    {
      var addr := 0;
      var i := 0;
      while i < nr
        invariant 0 <= i <= (if nr > 0 then nr else 0)
        invariant addr == GapStart(regions, i)
        invariant ops == old(ops) + GapsUpTo(regions, i)
      {
        var reg := regions[i];
        ops := ops + [Unmap(addr, SubU64(reg.start, addr))];
        addr := reg.end;
        i := i + 1;
      }
      ops := ops + [Unmap(addr, ULONG_MAX)];
    }

    /** host_stage2_map on a sorted, disjoint memblock table: the calls and
        the result are those HostMap describes. */
    method HostStage2Map(regions: seq<Region>, nr: int, ipa: nat, size: nat, prot: nat,
                         mapper: (seq<S2Op>, S2Op) -> int) returns (ret: int)
      requires nr <= |regions| && RegionsFit(regions) && SortedDisjoint(regions, nr)
      modifies this
      ensures (ops, ret) == HostMap(old(ops), regions, nr, ipa, size, prot, mapper)
    {
      var isMemory := IpaIsMemory(regions, nr, ipa);
      var pool := if isMemory then S2Mem else S2Dev;
      ret := MapPages(ipa, size, prot, pool, mapper);
      if ret == -ReservedMem.ENOMEM && !isMemory {
        UnmapDevAll(regions, nr);
        ret := MapPages(ipa, size, prot, pool, mapper);
      }
    }

    /** handle_host_mem_abort. `faultInfo` is what __get_fault_info reads
        from the fault registers, HPFAR_EL2, or None when it cannot: then
        the handler panics without a call; otherwise it maps one page R|W|X
        at the IPA of the abort and panics exactly when that fails. */
    method HandleHostMemAbort(regions: seq<Region>, nr: int, faultInfo: Option<nat>,
                              mapper: (seq<S2Op>, S2Op) -> int) returns (out: Outcome)
      requires nr <= |regions| && RegionsFit(regions) && SortedDisjoint(regions, nr)
      requires faultInfo.Some? ==> faultInfo.value < U64_LIMIT
      modifies this
      ensures faultInfo.None? ==> out == Panic && ops == old(ops)
      ensures faultInfo.Some? ==>
        var (ops', ret) := HostMap(old(ops), regions, nr, AbortIpa(faultInfo.value), PAGE_SIZE, PROT_RWX, mapper);
        ops == ops' && (out == Panic <==> ret != 0)
    {
      if faultInfo.None? {
        return Panic;
      }
      var hpfar := faultInfo.value;
      var prot := Mm.PROT_R + Mm.PROT_W + Mm.PROT_X;
      var ipa := (hpfar - hpfar % 16) * 256 % U64_LIMIT;
      var ret := HostStage2Map(regions, nr, ipa, PAGE_SIZE, prot, mapper);
      out := if ret != 0 then Panic else Handled;
    }
  }

  /** `host_s2_mem_pgtable_size() >> PAGE_SHIFT`, as an `unsigned int`. */
  method MemPoolPages(regions: seq<Region>, nr: int) returns (nrPages: nat)
    requires nr <= |regions| && RegionsFit(regions)
    ensures nrPages == (if nr <= 0 then 0 else TotalSize(regions, nr) / PAGE_SIZE + 16) % U32_LIMIT
  {
    var size := HostS2MemPgtableSize(regions, nr);
    if nr > 0 {
      TotalSizeAligned(regions, nr);
      assert size / PAGE_SIZE == TotalSize(regions, nr) / PAGE_SIZE + 16;
    }
    nrPages := size / PAGE_SIZE % U32_LIMIT;
  }

  /** prepare_s2_pools: hyp_pool_init of host_s2_mem over the pages of
      host_s2_mem_pgtable_size at `memPhys`, then of host_s2_dev over those
      of host_s2_dev_pgtable_size at `devPhys`, every page free; the first
      error is returned and the second pool is then left as it was. The page
      counts are passed as `unsigned int`. */
  method PrepareS2Pools(mem: PageAlloc.HypPool, dev: PageAlloc.HypPool, memPhys: nat, devPhys: nat,
                        regions: seq<Region>, nr: int) returns (ret: int)
    requires mem != dev
    requires nr <= |regions| && RegionsFit(regions)
    modifies mem, dev
    ensures memPhys % PAGE_SIZE != 0 ==> ret == -PageAlloc.EINVAL && unchanged(mem) && unchanged(dev)
    ensures memPhys % PAGE_SIZE == 0 ==>
      && mem.Valid() && mem.rangeStart == memPhys
      && mem.vmemmap.Length == (if nr <= 0 then 0 else TotalSize(regions, nr) / PAGE_SIZE + 16) % U32_LIMIT
      && (forall j | 0 <= j < mem.vmemmap.Length :: mem.IsFree(j))
    ensures memPhys % PAGE_SIZE == 0 && devPhys % PAGE_SIZE != 0 ==> ret == -PageAlloc.EINVAL && unchanged(dev)
    ensures memPhys % PAGE_SIZE == 0 && devPhys % PAGE_SIZE == 0 ==>
      && ret == 0 && dev.Valid() && dev.rangeStart == devPhys
      && dev.vmemmap.Length == (if nr <= 0 then 0 else 515)
      && (forall j | 0 <= j < dev.vmemmap.Length :: dev.IsFree(j))
  {
    var nrPages := MemPoolPages(regions, nr);
    ret := mem.Init(memPhys, nrPages, 0);
    if ret != 0 {
      return;
    }
    var size := HostS2DevPgtableSize(nr);
    nrPages := size / PAGE_SIZE;
    ret := dev.Init(devPhys, nrPages % U32_LIMIT, 0);
    if ret != 0 {
      return;
    }
    ret := 0;
  }
}
