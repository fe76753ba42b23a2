/** The early bump allocator (nvhe/early_alloc.c).

    The allocator hands out pages from [base, end) in address order: `cur`
    is the first unallocated byte. Pages it hands out are cleared; the
    model records the addresses of cleared pages in `cleared`. */
module EarlyAlloc {
  import opened Bits

  /** The pages of the n-page range starting at `start`. */
  ghost function PagesFrom(start: nat, n: nat): set<nat> {
    set j | 0 <= j < n :: start + j * PAGE_SIZE
  }

  lemma PagesFromNext(start: nat, n: nat)
    ensures PagesFrom(start, n + 1) == PagesFrom(start, n) + {start + n * PAGE_SIZE}
  {
    assert start + n * PAGE_SIZE in PagesFrom(start, n + 1);
  }

  class Allocator {
    var base: nat
    var end: nat
    var cur: nat
    /** The addresses of the pages clear_page has zeroed. */
    var cleared: set<nat>

    /** cur stays within [base, end) and a whole number of pages above base. */
    ghost predicate Valid()
      reads this
    {
      base <= cur <= end && (cur - base) % PAGE_SIZE == 0
    }

    /** The static allocator before initialisation: all zero. */
    constructor()
      ensures base == 0 && end == 0 && cur == 0 && cleared == {} && Valid()
    {
      base, end, cur := 0, 0, 0;
      cleared := {};
    }

    /** hyp_early_alloc_nr_pages: the pages handed out so far. */
    function NrPages(): (n: nat)
      reads this
      requires Valid()
      ensures n * PAGE_SIZE == cur - base
    {
      (cur - base) / PAGE_SIZE
    }

    /** hyp_early_alloc_init: an allocator over [virt, virt + size). */
    method Init(virt: nat, size: nat)
      modifies this
      ensures base == virt && cur == virt && end == virt + size
      ensures cleared == old(cleared)
      ensures Valid() && NrPages() == 0
    {
      base := virt;
      end := virt + size;
      cur := virt;
    }

    /** clear_page */
    method ClearPage(p: nat)
      modifies this
      ensures cleared == old(cleared) + {p}
      ensures base == old(base) && end == old(end) && cur == old(cur)
    {
      cleared := cleared + {p};
    }

    /** Clears the nrPages pages from `start`, one at a time. */
    method ClearPages(start: nat, nrPages: nat)
      modifies this
      ensures cleared == old(cleared) + PagesFrom(start, nrPages)
      ensures base == old(base) && end == old(end) && cur == old(cur)
    {
      var i := 0;
      while i < nrPages
        invariant i <= nrPages
        invariant cleared == old(cleared) + PagesFrom(start, i)
        invariant base == old(base) && end == old(end) && cur == old(cur)
      {
        var p := start + Shl(i, PAGE_SHIFT);
        ShlPage(i);
        ClearPage(p);
        PagesFromNext(start, i);
        i := i + 1;
      }
    }

    /** hyp_early_alloc_contig, with the advance `nr_pages << PAGE_SHIFT`
        computed at the width of an address. A request for no page, or for
        more than is left, returns NULL and leaves the allocator as it was;
        otherwise the result is the old `cur`, `cur` moves past the
        request, and every page of the request is cleared. */
    method Contig(nrPages: nat) returns (r: Option<nat>)
      requires Valid() && nrPages < U32_LIMIT
      modifies this
      ensures Valid() && base == old(base) && end == old(end)
      ensures r.None? <==> nrPages == 0 || old(cur) + nrPages * PAGE_SIZE > end
      ensures r.None? ==> cur == old(cur) && cleared == old(cleared)
      ensures r.Some? ==>
        && r.value == old(cur) && cur == old(cur) + nrPages * PAGE_SIZE
        && NrPages() == old(NrPages()) + nrPages
        && cleared == old(cleared) + PagesFrom(r.value, nrPages)
    {
      var ret := cur;
      if nrPages == 0 {
        return None;
      }
      cur := cur + nrPages * PAGE_SIZE;
      if cur > end {
        cur := ret;
        return None;
      }
      AddPages(ret - base, nrPages);
      ClearPages(ret, nrPages);
      r := Some(ret);
    }

    /** hyp_early_alloc_page: one page. */
    method Page() returns (r: Option<nat>)
      requires Valid()
      modifies this
      ensures Valid() && base == old(base) && end == old(end)
      ensures r.None? <==> old(cur) + PAGE_SIZE > end
      ensures r.None? ==> cur == old(cur) && cleared == old(cleared)
      ensures r.Some? ==>
        && r.value == old(cur) && cur == old(cur) + PAGE_SIZE
        && NrPages() == old(NrPages()) + 1
        && cleared == old(cleared) + {old(cur)}
    {
      r := Contig(1);
      if r.Some? {
        PagesFromNext(r.value, 0);
      }
    }

    /** hyp_early_alloc_contig as written: `nr_pages` is an unsigned int,
        so `nr_pages << PAGE_SHIFT` is cut to 32 bits before it is added to
        `cur`, while the clearing loop still clears all nrPages pages. */
    method ContigAsWritten(nrPages: nat) returns (r: Option<nat>)
      requires Valid() && nrPages < U32_LIMIT
      modifies this
      ensures base == old(base) && end == old(end)
      ensures r.None? <==> nrPages == 0 || old(cur) + ShlPageU32(nrPages) > end
      ensures r.None? ==> cur == old(cur) && cleared == old(cleared)
      ensures r.Some? ==>
        && r.value == old(cur) && cur == old(cur) + ShlPageU32(nrPages)
        && cleared == old(cleared) + PagesFrom(r.value, nrPages)
    {
      var ret := cur;
      if nrPages == 0 {
        return None;
      }
      cur := cur + ShlPageU32(nrPages);
      if cur > end {
        cur := ret;
        return None;
      }
      ClearPages(ret, nrPages);
      r := Some(ret);
    }
  }

  /** A request for 2^20 pages (4 GiB) advances `cur` by nothing. */
  lemma ShiftWrapsAt4GiB()
    ensures ShlPageU32(0x10_0000) == 0
    ensures 0x10_0000 * PAGE_SIZE == U32_LIMIT
  {
  }

  /** As written, two successive requests for 2^20 pages from an allocator
      over 1 MiB both succeed and return the same address: each claims a
      4 GiB range running past the end of the allocator, and the second
      range is the first. */
  method AsWrittenRangesOverlap() returns (r1: Option<nat>, r2: Option<nat>, poolEnd: nat)
    ensures r1.Some? && r2.Some? && r1.value == r2.value
    ensures r1.value + 0x10_0000 * PAGE_SIZE > poolEnd
  {
    var a := new Allocator();
    a.Init(0x4000_0000, 0x10_0000);
    ShiftWrapsAt4GiB();
    r1 := a.ContigAsWritten(0x10_0000);
    r2 := a.ContigAsWritten(0x10_0000);
    poolEnd := a.end;
  }

  /** With the advance computed at address width, two successive successful
      requests return adjacent ranges: the second starts where the first
      ends, so they do not overlap. */
  method ContigRangesAdjacent(a: Allocator, n1: nat, n2: nat) returns (r1: Option<nat>, r2: Option<nat>)
    requires a.Valid() && n1 < U32_LIMIT && n2 < U32_LIMIT
    modifies a
    ensures a.Valid()
    ensures r1.Some? && r2.Some? ==> r2.value == r1.value + n1 * PAGE_SIZE && r2.value + n2 * PAGE_SIZE == a.cur
    ensures r1.Some? && r2.Some? ==> PagesFrom(r1.value, n1) !! PagesFrom(r2.value, n2)
  {
    r1 := a.Contig(n1);
    r2 := a.Contig(n2);
    if r1.Some? && r2.Some? {
      forall x | x in PagesFrom(r1.value, n1)
        ensures x < r2.value
      {
      }
    }
  }
}
