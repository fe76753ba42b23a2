/** The hypervisor's stage-1 mappings (nvhe/mm.c): range mappings page by
    page, private mappings from a bump pointer, the backing of the vmemmap,
    and the identity map with the placement of the IO and vmemmap areas.

    The stage-1 page-table library is foreign code: every call of
    kvm_pgtable_hyp_map is appended to the log `maps` of a `HypMm`, and its
    result is given by an oracle `mapper` from the calls so far and the new
    call to an error code. Addresses are u64 values; where the source adds
    or subtracts them the wrap-around is written out. */
module Mm {
  import opened Bits
  import opened MmSizes

  /** KVM_PGTABLE_PROT_X, _W and _R. */
  const PROT_X: nat := 1
  const PROT_W: nat := 2
  const PROT_R: nat := 4

  /** PAGE_HYP: read and write; PAGE_HYP_EXEC: read and execute. */
  const PAGE_HYP: nat := PROT_R + PROT_W
  const PAGE_HYP_EXEC: nat := PROT_R + PROT_X

  /** A call kvm_pgtable_hyp_map(start, size, phys, prot). */
  datatype HypMap = HypMap(start: nat, size: nat, phys: nat, prot: nat)

  /** The result of kvm_pgtable_hyp_map for a call, given the calls before it. */
  type Mapper = (seq<HypMap>, HypMap) -> int

  // -----------------------------------------------------------------------
  // Range mappings

  /** The pages from `start` (page-aligned) to `end`: none when the range is
      empty. */
  function PagesBetween(start: nat, end: nat): (n: nat)
    requires start % PAGE_SIZE == 0 && end % PAGE_SIZE == 0
    ensures start < end ==> start + n * PAGE_SIZE == end
    ensures start >= end ==> n == 0
  {
    if start < end then (end - start) / PAGE_SIZE else 0
  }

  /** The n one-page calls mapping the pages from `start` onto the physical
      pages `virtToPhys` gives for them, in increasing order. */
  ghost function PageMaps(start: nat, n: nat, prot: nat, virtToPhys: nat -> nat): (s: seq<HypMap>)
    ensures |s| == n
    ensures forall k | 0 <= k < n ::
      s[k] == HypMap(start + k * PAGE_SIZE, PAGE_SIZE, virtToPhys(start + k * PAGE_SIZE), prot)
  {
    seq(n, k requires 0 <= k < n => HypMap(start + k * PAGE_SIZE, PAGE_SIZE, virtToPhys(start + k * PAGE_SIZE), prot))
  }

  lemma PageMapsNext(start: nat, n: nat, prot: nat, virtToPhys: nat -> nat)
    ensures PageMaps(start, n + 1, prot, virtToPhys)
      == PageMaps(start, n, prot, virtToPhys)
         + [HypMap(start + n * PAGE_SIZE, PAGE_SIZE, virtToPhys(start + n * PAGE_SIZE), prot)]
  {
    var s := PageMaps(start, n + 1, prot, virtToPhys);
    var t := PageMaps(start, n, prot, virtToPhys);
    assert forall k | 0 <= k < n :: s[k] == t[k];
  }

  /** The calls log[lo .. hi) all succeeded. */
  ghost predicate Succeeded(log: seq<HypMap>, lo: nat, hi: nat, mapper: Mapper)
    requires lo <= hi <= |log|
  {
    forall k | lo <= k < hi :: mapper(log[..k], log[k]) == 0
  }

  /** A call appended to a log leaves the earlier calls' results alone. */
  lemma SucceededAppend(log: seq<HypMap>, lo: nat, c: HypMap, mapper: Mapper)
    requires lo <= |log| && Succeeded(log, lo, |log|, mapper)
    ensures Succeeded(log + [c], lo, |log|, mapper)
  {
    forall k | lo <= k < |log|
      ensures (log + [c])[..k] == log[..k] && (log + [c])[k] == log[k]
    {
    }
  }

  /** One more page of hyp_create_mappings: the log grows by the call for
      page k, and the earlier calls keep their results. */
  lemma MapPageStep(before: seq<HypMap>, c: HypMap, m0: nat, start: nat, k: nat, prot: nat,
                    virtToPhys: nat -> nat, mapper: Mapper)
    requires m0 <= |before| && before[m0..] == PageMaps(start, k, prot, virtToPhys)
    requires Succeeded(before, m0, |before|, mapper)
    requires c == HypMap(start + k * PAGE_SIZE, PAGE_SIZE, virtToPhys(start + k * PAGE_SIZE), prot)
    ensures (before + [c])[..m0] == before[..m0] && (before + [c])[..|before|] == before
    ensures (before + [c])[m0..] == PageMaps(start, k + 1, prot, virtToPhys)
    ensures Succeeded(before + [c], m0, |before|, mapper)
  {
    PageMapsNext(start, k, prot, virtToPhys);
    SucceededAppend(before, m0, c, mapper);
    assert (before + [c])[m0..] == before[m0..] + [c];
  }

  // -----------------------------------------------------------------------
  // Private mappings

  /** The span between two page boundaries, the lower first, as u64. */
  lemma AlignedSpan(start: nat, end: nat)
    requires start % PAGE_SIZE == 0 && end % PAGE_SIZE == 0 && start <= end < U64_LIMIT
    ensures SubU64(end, start) % PAGE_SIZE == 0 && start + SubU64(end, start) == end
  {
    assert end - start == (end / PAGE_SIZE - start / PAGE_SIZE) * PAGE_SIZE;
  }

  /** The size of a private mapping of `size` bytes at `phys`:
      PAGE_ALIGN(size + offset_in_page(phys)) on u64. When nothing wraps it
      is the least whole number of pages covering the offset and the size. */
  function PrivateSize(phys: nat, size: nat): (sz: nat)
    requires phys < U64_LIMIT && size < U64_LIMIT
    ensures sz % PAGE_SIZE == 0 && sz < U64_LIMIT
    ensures phys % PAGE_SIZE + size <= U64_LIMIT - PAGE_SIZE ==>
      phys % PAGE_SIZE + size <= sz < phys % PAGE_SIZE + size + PAGE_SIZE
  {
    PageAlignU64(AddU64(size, phys % PAGE_SIZE))
  }

  // -----------------------------------------------------------------------
  // The IO and vmemmap quarter

  /** `__io_map_base` after hyp_create_idmap: the base of the quarter of the
      VA space selected by the complement of bit va_bits-2 of the idmap. */
  function IoQuarter(start: nat, vaBits: nat): nat
    requires vaBits >= 3
  {
    if Bit(start, vaBits - 2) then 0 else Pow2(vaBits - 2)
  }

  /** A value below 2^(k+1) whose bit k is clear is below 2^k. */
  lemma {:induction false} BitClearBelow(x: nat, k: nat)
    requires x < Pow2(k + 1) && !Bit(x, k)
    ensures x < Pow2(k)
    decreases k
  {
    if k > 0 {
      BitClearBelow(x / 2, k - 1);
    }
  }

  /** The idmap start lies outside the quarter [io, io + 2^(va_bits-2))
      chosen for the IOs and the vmemmap, which is in the lower half of the
      VA space, and that quarter is split at io + 2^(va_bits-3) into the IO
      half and the vmemmap half. */
  lemma IdmapOutsideQuarter(start: nat, vaBits: nat)
    requires vaBits >= 3
    ensures var io := IoQuarter(start, vaBits);
      && !(io <= start < io + Pow2(vaBits - 2))
      && io + Pow2(vaBits - 2) <= Pow2(vaBits - 1)
      && Pow2(vaBits - 2) == 2 * Pow2(vaBits - 3)
  {
    var k := vaBits - 2;
    Pow2Add(k, 1);
    Pow2Add(vaBits - 3, 1);
    if Bit(start, k) {
      BitBound(start, k);
    } else if start < Pow2(k + 1) {
      BitClearBelow(start, k);
    }
  }

  /** The quarter and its two halves end at or below 2^va_bits' top half,
      hence below 2^64. */
  lemma QuarterFits(start: nat, vaBits: nat)
    requires 3 <= vaBits <= 64
    ensures IoQuarter(start, vaBits) + Pow2(vaBits - 2) <= Pow2(vaBits - 1) < U64_LIMIT
  {
    Pow2Add(vaBits - 2, 1);
    Pow2Monotone(vaBits - 1, 63);
    Pow2Add(63, 1);
    Pow2U64();
  }

  // -----------------------------------------------------------------------
  // The hypervisor's stage-1 state

  class HypMm {
    /** __io_map_base: the next free address for private mappings. */
    var ioMapBase: nat
    /** __hyp_vmemmap: the base of the vmemmap, the limit of private mappings. */
    var hypVmemmap: nat
    /** The calls made into kvm_pgtable_hyp_map, in order. */
    var maps: seq<HypMap>

    /** Both bases are u64 values and private mappings stay below the vmemmap. */
    ghost predicate Valid()
      reads this
    {
      ioMapBase <= hypVmemmap < U64_LIMIT
    }

    /** The static state before set-up: both bases zero, no mapping. */
    constructor()
      ensures Valid() && ioMapBase == 0 && hypVmemmap == 0 && maps == []
    {
      ioMapBase := 0;
      hypVmemmap := 0;
      maps := [];
    }

    /** __hyp_create_mappings: one call into the library. */
    method Map(start: nat, size: nat, phys: nat, prot: nat, mapper: Mapper) returns (err: int)
      modifies this`maps
      ensures maps == old(maps) + [HypMap(start, size, phys, prot)]
      ensures err == mapper(old(maps), HypMap(start, size, phys, prot))
    {
      err := mapper(maps, HypMap(start, size, phys, prot));
      maps := maps + [HypMap(start, size, phys, prot)];
    }

    /** hyp_create_mappings: maps the pages from `from & PAGE_MASK` up to
        PAGE_ALIGN(to) one at a time, in increasing order, each onto the
        physical page `virtToPhys` (hyp_virt_to_phys) gives for it. It stops
        at the first call that fails and returns its error; otherwise every
        page was mapped and it returns 0. */
    method CreateMappings(from: nat, to: nat, prot: nat, virtToPhys: nat -> nat, mapper: Mapper)
      returns (err: int)
      requires from < U64_LIMIT && to < U64_LIMIT
      modifies this`maps
      ensures |old(maps)| <= |maps| && maps[..|old(maps)|] == old(maps)
      ensures var start := PageAlignDown(from);
        var n := PagesBetween(start, PageAlignU64(to));
        var m := |maps| - |old(maps)|;
        && m <= n
        && maps[|old(maps)|..] == PageMaps(start, m, prot, virtToPhys)
        && (err == 0 ==> m == n && Succeeded(maps, |old(maps)|, |maps|, mapper))
        && (err != 0 ==> m > 0 && Succeeded(maps, |old(maps)|, |maps| - 1, mapper)
                         && err == mapper(maps[..|maps| - 1], maps[|maps| - 1]))
    {
      var start := PageAlignDown(from);
      var end := PageAlignU64(to);
      ghost var n := PagesBetween(start, end);
      ghost var m0 := |maps|;
      var va := start;
      ghost var k := 0;
      while va < end
        invariant k <= n && va == start + k * PAGE_SIZE
        invariant |maps| == m0 + k && maps[..m0] == old(maps)
        invariant maps[m0..] == PageMaps(start, k, prot, virtToPhys)
        invariant Succeeded(maps, m0, |maps|, mapper)
        invariant va >= end ==> k == n
        decreases n - k
      {
        var phys := virtToPhys(va);
        ghost var before := maps;
        err := Map(va, PAGE_SIZE, phys, prot, mapper);
        MapPageStep(before, maps[|before|], m0, start, k, prot, virtToPhys, mapper);
        if err != 0 {
          return;
        }
        va := va + PAGE_SIZE;
        k := k + 1;
      }
      err := 0;
    }

    /** __hyp_create_private_mapping: takes PrivateSize(phys, size) bytes
        from __io_map_base. When the advanced base would pass the vmemmap
        the base is restored, no call is made and the result is 0. Otherwise
        the range from the old base is mapped onto `phys` and the base stays
        advanced whether or not the call succeeds; the result is the old
        base plus `phys`'s offset in its page, or 0 if the call failed. */
    method CreatePrivateMapping(phys: nat, size: nat, prot: nat, mapper: Mapper) returns (addr: nat)
      requires Valid() && phys < U64_LIMIT && size < U64_LIMIT
      modifies this`ioMapBase, this`maps
      ensures Valid()
      ensures var sz := PrivateSize(phys, size);
        var call := HypMap(old(ioMapBase), sz, phys, prot);
        if AddU64(old(ioMapBase), sz) > hypVmemmap then
          addr == 0 && ioMapBase == old(ioMapBase) && maps == old(maps)
        else
          && ioMapBase == AddU64(old(ioMapBase), sz)
          && maps == old(maps) + [call]
          && addr == (if mapper(old(maps), call) == 0
                      then AddU64(old(ioMapBase), phys % PAGE_SIZE) else 0)
    {
      var sz := PrivateSize(phys, size);
      addr := ioMapBase;
      ioMapBase := AddU64(ioMapBase, sz);
      if ioMapBase > hypVmemmap {
        ioMapBase := SubU64(ioMapBase, sz);
        return 0;
      }
      var ret := Map(addr, sz, phys, prot, mapper);
      if ret != 0 {
        return 0;
      }
      addr := AddU64(addr, phys % PAGE_SIZE);
    }

    /** hyp_back_vmemmap: maps the page-aligned part of the vmemmap holding
        the descriptors of the pages of [phys, phys + size) onto `back`, as
        one read-write call. The descriptor of `phys` is taken to be at
        __hyp_vmemmap + (phys >> PAGE_SHIFT) * sizeof(struct hyp_page). The
        mapped range starts in the page of the first descriptor and, when
        nothing wraps, ends within a page past the last one. */
    method BackVmemmap(phys: nat, size: nat, back: nat, mapper: Mapper) returns (err: int)
      requires Valid() && phys < U64_LIMIT && size < U64_LIMIT
      modifies this`maps
      ensures |maps| == |old(maps)| + 1 && maps[..|old(maps)|] == old(maps)
      ensures var c := maps[|old(maps)|];
        var desc := AddU64(hypVmemmap, phys / PAGE_SIZE * HYP_PAGE_BYTES);
        var last := desc + size / PAGE_SIZE * HYP_PAGE_BYTES;
        && c.phys == back && c.prot == PAGE_HYP
        && c.start % PAGE_SIZE == 0 && c.start <= desc < c.start + PAGE_SIZE
        && (last <= U64_LIMIT - PAGE_SIZE ==>
              c.size % PAGE_SIZE == 0 && last <= c.start + c.size < last + PAGE_SIZE)
        && err == mapper(old(maps), c)
    {
      var desc := AddU64(hypVmemmap, phys / PAGE_SIZE * HYP_PAGE_BYTES);
      var start, end := VmemmapRange(desc, size);
      ghost var last := desc + size / PAGE_SIZE * HYP_PAGE_BYTES;
      if last <= U64_LIMIT - PAGE_SIZE {
        AlignedSpan(start, end);
      }
      err := Map(start, SubU64(end, start), back, PAGE_HYP, mapper);
    }

    /** hyp_create_idmap: `start` and `end` are the physical addresses of
        the start and end of the idmap text. The IO area is placed at
        IoQuarter of the aligned start, the vmemmap in the upper half of
        that quarter, and the page-aligned idmap is mapped onto itself,
        readable and executable. */
    method CreateIdmap(idmapStart: nat, idmapEnd: nat, vaBits: nat, mapper: Mapper) returns (err: int)
      requires idmapStart < U64_LIMIT && idmapEnd < U64_LIMIT && 3 <= vaBits <= 64
      modifies this
      ensures Valid()
      ensures var start := PageAlignDown(idmapStart);
        var call := HypMap(start, SubU64(PageAlignU64(idmapEnd), start), start, PAGE_HYP_EXEC);
        && ioMapBase == IoQuarter(start, vaBits)
        && hypVmemmap == ioMapBase + Pow2(vaBits - 3)
        && maps == old(maps) + [call]
        && err == mapper(old(maps), call)
    {
      var start := PageAlignDown(idmapStart);
      var end := PageAlignU64(idmapEnd);
      var k := vaBits - 2;
      // start & BIT(k), then ^ BIT(k)
      ioMapBase := if Bit(start, k) then Pow2(k) else 0;
      BitOfPow2(k);
      XorPow2(Pow2(k), k);
      XorPow2(0, k);
      ioMapBase := Xor(ioMapBase, Pow2(k));
      // | BIT(k - 1): the bit is clear in the quarter's base
      hypVmemmap := ioMapBase + Pow2(k - 1);
      QuarterFits(start, vaBits);
      Pow2Add(k - 1, 1);
      err := Map(start, SubU64(end, start), start, PAGE_HYP_EXEC, mapper);
    }
  }

  /** Two successive private mappings that both map something take
      adjacent ranges of the IO area: the second starts where the first
      ends, so when nothing wraps they do not overlap. */
  method PrivateMappingsAdjacent(mm: HypMm, phys1: nat, size1: nat, phys2: nat, size2: nat,
                                 prot: nat, mapper: Mapper) returns (addr1: nat, addr2: nat)
    requires mm.Valid() && phys1 < U64_LIMIT && size1 < U64_LIMIT && phys2 < U64_LIMIT && size2 < U64_LIMIT
    modifies mm
    ensures mm.Valid()
    ensures |mm.maps| == |old(mm.maps)| + 2 ==>
      var c1 := mm.maps[|old(mm.maps)|];
      var c2 := mm.maps[|old(mm.maps)| + 1];
      && c1.start == old(mm.ioMapBase)
      && (c1.start + c1.size < U64_LIMIT ==> c2.start == c1.start + c1.size)
      && (c2.start + c2.size < U64_LIMIT ==> mm.ioMapBase == c2.start + c2.size <= mm.hypVmemmap)
  {
    ghost var m0 := mm.maps;
    addr1 := mm.CreatePrivateMapping(phys1, size1, prot, mapper);
    ghost var m1 := mm.maps;
    addr2 := mm.CreatePrivateMapping(phys2, size2, prot, mapper);
    if |mm.maps| == |m0| + 2 {
      var c2 := mm.maps[|m0| + 1];
      assert |m1| == |m0| + 1 && mm.maps[|m0|] == m1[|m0|];
      if c2.start + c2.size < U64_LIMIT {
        assert mm.ioMapBase == c2.start + c2.size;
      }
    }
  }
}
