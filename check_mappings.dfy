/** The record of pKVM's intended EL2 mappings and the two inclusion
    checks against the page tables (check-pkvm-pgtables.c): the forward
    check that every recorded page is translated as recorded, and the
    reverse check that every page the tables map is recorded.

    A recorded mapping covers `size` 4 KB pages from `virt` onto the pages
    from `phys`. The record is the fixed table `m[MAX_MAPPINGS]` with its
    count; `failed` stands for check_assert_fail having been called, which
    in the source only prints. Addresses are u64 values, so the address of
    page i of a mapping wraps at 2^64. Page-table memory and
    hyp_phys_to_virt are those of the walk. */
module CheckMappings {
  import opened Bits
  import opened PgtableWalk
  import opened Sorting
  import ReservedMem

  datatype MappingKind =
    | HypNull | HypText | HypRodata | HypRodata2 | HypBss | HypBss2 | HypIdmap
    | HypStacks | HypVmemmap | HypS1Pgtable | HypS2MemPgtable | HypS2DevPgtable
    | HypWorkspace | HypVmemmapMap | HypUart | HypPercpu

  /** HYP_MAPPING_KIND_NUMBER, which the source defines as HYP_PERCPU. */
  const HYP_MAPPING_KIND_NUMBER: nat := 15

  /** One mapping per kind below HYP_PERCPU (other than HYP_NULL) and
      one per CPU. */
  const MAX_MAPPINGS: nat := HYP_MAPPING_KIND_NUMBER - 1 + ReservedMem.NR_CPUS

  /** struct mapping, without its documentation string. */
  datatype Mapping = Mapping(kind: MappingKind, cpu: nat, virt: nat, phys: nat, size: nat, prot: nat)

  /** An unused slot of the static table: all fields zero. */
  const NULL_MAPPING: Mapping := Mapping(HypNull, 0, 0, 0, 0, 0)

  function VirtOf(mp: Mapping): nat {
    mp.virt
  }

  /** mapping_compare: a three-way comparison on the mappings' virt. */
  function MappingCompare(lhs: Mapping, rhs: Mapping): (c: int)
    ensures c == -1 <==> lhs.virt < rhs.virt
    ensures c == 0 <==> lhs.virt == rhs.virt
    ensures c == 1 <==> lhs.virt > rhs.virt
  {
    Compare(lhs.virt, rhs.virt)
  }

  /** `base + i * PAGE_SIZE` on u64: the address of page i from `base`. */
  function PageAt(base: nat, i: nat): nat {
    (base + i * PAGE_SIZE) % U64_LIMIT
  }

  /** The pages a recorder records for [from, to): (PAGE_ALIGN(to) -
      (from & PAGE_MASK)) >> PAGE_SHIFT on u64. When nothing wraps they are
      the least whole number of pages from `from & PAGE_MASK` covering `to`. */
  function RangePages(from: nat, to: nat): (n: nat)
    requires from < U64_LIMIT && to < U64_LIMIT
    ensures from <= to <= U64_LIMIT - PAGE_SIZE ==>
      && PageAlignDown(from) + n * PAGE_SIZE == PageAlignU64(to)
      && to <= PageAlignDown(from) + n * PAGE_SIZE < to + PAGE_SIZE
  {
    SubU64(PageAlignU64(to), PageAlignDown(from)) / PAGE_SIZE
  }

  // -----------------------------------------------------------------------
  // The checks' meaning

  /** Every page of `mp` is translated by the walk from `pgd` onto the
      corresponding page from `mp.phys`. */
  ghost predicate MappingFwdOk(mem: Memory, p2v: nat -> nat, pgd: nat, mp: Mapping) {
    forall i | 0 <= i < mp.size ::
      FirstStageTranslate(mem, p2v, pgd, PageAt(mp.virt, i)) == MkTranslation(PageAt(mp.virt, i), PageAt(mp.phys, i))
  }

  /** `mp` maps `virt` onto `phys`, with its bounds computed on u64 as the
      reverse check computes them. */
  ghost predicate Covers(mp: Mapping, virt: nat, phys: nat) {
    mp.virt <= virt < (mp.virt + PAGE_SIZE * mp.size) % U64_LIMIT
    && phys == (mp.phys + (virt - mp.virt)) % U64_LIMIT
  }

  /** Some recorded mapping maps `virt` onto `phys`. */
  ghost predicate Covered(ms: seq<Mapping>, virt: nat, phys: nat) {
    exists k | 0 <= k < |ms| :: Covers(ms[k], virt, phys)
  }

  /** The reverse check's verdict on one item of a listing: a leaf some
      recorded mapping covers. */
  ghost predicate ItemOk(item: Item, ms: seq<Mapping>) {
    item.Leaf? && Covered(ms, item.va, item.oa)
  }

  /** The reverse check's verdict on a listing: every item passes. */
  ghost predicate RevOk(items: seq<Item>, ms: seq<Mapping>) {
    forall k | 0 <= k < |items| :: ItemOk(items[k], ms)
  }

  lemma RevOkConcat(a: seq<Item>, b: seq<Item>, ms: seq<Mapping>)
    ensures RevOk(a + b, ms) <==> RevOk(a, ms) && RevOk(b, ms)
  {
    assert forall k | 0 <= k < |a| :: (a + b)[k] == a[k];
    assert forall k | 0 <= k < |b| :: (a + b)[|a| + k] == b[k];
    if RevOk(a, ms) && RevOk(b, ms) {
      forall k | 0 <= k < |a + b|
        ensures ItemOk((a + b)[k], ms)
      {
        if k >= |a| {
          assert (a + b)[k] == b[k - |a|];
        }
      }
    }
  }

  /** _check_hyp_mapping_fwd: the walk from `pgd` translates `virt` onto
      `phys` without a fault. */
  function CheckMappingFwdAt(mem: Memory, p2v: nat -> nat, pgd: nat, virt: nat, phys: nat): (r: bool)
    ensures r <==> FirstStageTranslate(mem, p2v, pgd, virt) == MkTranslation(virt, phys)
  {
    var ad := FirstStageTranslate(mem, p2v, pgd, virt);
    WalkShape(mem, p2v, pgd, 0, virt);
    match ad.statuscode
    case FaultNone => ad.address == phys
    case _ => false
  }

  /** check_hyp_mapping_fwd: every page of the mapping passes the forward
      check (prot is not checked). */
  method CheckMappingFwd(mem: Memory, p2v: nat -> nat, pgd: nat, mp: Mapping) returns (ret: bool)
    ensures ret <==> MappingFwdOk(mem, p2v, pgd, mp)
  {
    ret := true;
    var i := 0;
    while i < mp.size
      invariant i <= mp.size
      invariant ret <==> forall j | 0 <= j < i ::
        FirstStageTranslate(mem, p2v, pgd, PageAt(mp.virt, j)) == MkTranslation(PageAt(mp.virt, j), PageAt(mp.phys, j))
    {
      ret := ret && CheckMappingFwdAt(mem, p2v, pgd, PageAt(mp.virt, i), PageAt(mp.phys, i));
      i := i + 1;
    }
  }

  /** The sort of the corrected sort_mappings on a whole table: the
      unused slots sort first. With at least one and fewer than
      HYP_MAPPING_KIND_NUMBER mappings recorded, all at non-zero
      addresses, and an unused slot among the sorted ones, the first
      entry after the sort is not a recorded mapping, so the first `count`
      entries are no longer the recorded ones. */
  lemma AsWrittenSortTakesNullSlot(s: seq<Mapping>, count: nat)
    requires |s| == HYP_MAPPING_KIND_NUMBER && 1 <= count < |s|
    requires forall i | 0 <= i < count :: s[i].virt > 0
    requires s[|s| - 1] == NULL_MAPPING
    ensures SortBy(s, VirtOf)[0].virt == 0
    ensures forall i | 0 <= i < count :: SortBy(s, VirtOf)[0] != s[i]
    ensures multiset(SortBy(s, VirtOf)[..count]) != multiset(s[..count])
  {
    var t := SortBy(s, VirtOf);
    SortByPermutation(s, VirtOf);
    SortBySorted(s, VirtOf);
    assert s[|s| - 1] in multiset(t);
    var j :| 0 <= j < |t| && t[j] == NULL_MAPPING;
    assert t[0].virt <= t[j].virt;
    assert t[0] in multiset(t[..count]);
    assert t[0] !in multiset(s[..count]);
  }

  // -----------------------------------------------------------------------
  // The record

  /** The reverse check passes on an invalid entry. */
  lemma InvalidEntryVerdict(mem: Memory, p2v: nat -> nat, table: nat, level: nat, va: nat, idx: nat, ms: seq<Mapping>)
    requires level <= 3 && EntryKindOf(ReadPte(mem, table, idx), level) == Invalid
    ensures RevOk(EntryItems(mem, p2v, table, level, va, idx), ms)
  {
    assert EntryItems(mem, p2v, table, level, va, idx) == [];
  }

  /** The reverse check passes on a page descriptor exactly when a
      recorded mapping covers its page. */
  lemma PageEntryVerdict(mem: Memory, p2v: nat -> nat, table: nat, level: nat, va: nat, idx: nat, ms: seq<Mapping>)
    requires level <= 3 && EntryKindOf(ReadPte(mem, table, idx), level) == PageDescriptor
    ensures RevOk(EntryItems(mem, p2v, table, level, va, idx), ms)
      <==> Covered(ms, VaPartialNew(va, level, idx), HighBits(ReadPte(mem, table, idx), TWO_12))
  {
    var item := Leaf(VaPartialNew(va, level, idx), HighBits(ReadPte(mem, table, idx), TWO_12));
    assert EntryItems(mem, p2v, table, level, va, idx) == [item];
    RevOkSingle(item, ms);
  }

  /** The reverse check fails on a block, reserved or dummy entry. */
  lemma BadEntryVerdict(mem: Memory, p2v: nat -> nat, table: nat, level: nat, va: nat, idx: nat, ms: seq<Mapping>)
    requires level <= 3
    requires EntryKindOf(ReadPte(mem, table, idx), level) !in {Invalid, Table, PageDescriptor}
    ensures !RevOk(EntryItems(mem, p2v, table, level, va, idx), ms)
  {
    var kind := EntryKindOf(ReadPte(mem, table, idx), level);
    assert EntryItems(mem, p2v, table, level, va, idx) == [Bad(kind)];
    RevOkSingle(Bad(kind), ms);
  }

  lemma TableEntryItems(mem: Memory, p2v: nat -> nat, table: nat, level: nat, va: nat, idx: nat)
    requires level <= 3 && EntryKindOf(ReadPte(mem, table, idx), level) == Table
    ensures EntryItems(mem, p2v, table, level, va, idx)
      == TableItems(mem, p2v, p2v(HighBits(ReadPte(mem, table, idx), TWO_12)), level + 1, VaPartialNew(va, level, idx))
  {
  }

  lemma RevOkSingle(item: Item, ms: seq<Mapping>)
    ensures RevOk([item], ms) <==> ItemOk(item, ms)
  {
    assert [item][0] == item;
  }

  class MappingTable {
    var m: array<Mapping>
    var count: nat
    /** check_assert_fail has been called. */
    var failed: bool

    ghost predicate Valid()
      reads this
    {
      m.Length == MAX_MAPPINGS && count <= MAX_MAPPINGS
    }

    /** The recorded mappings. */
    ghost function Contents(): seq<Mapping>
      reads this, m
      requires Valid()
    {
      m[..count]
    }

    /** The static table: every slot zero, nothing recorded. */
    constructor()
      ensures Valid() && count == 0 && !failed && fresh(m)
      ensures forall i | 0 <= i < m.Length :: m[i] == NULL_MAPPING
    {
      m := new Mapping[MAX_MAPPINGS](_ => NULL_MAPPING);
      count := 0;
      failed := false;
    }

    /** The common tail of the extend_mappings_* recorders: slot `count`
        gets the mapping and the count grows by one. On a full table the
        source reports the failure and then writes past the table; here
        the failure is reported and nothing is written. */
    method Record(mp: Mapping)
      requires Valid()
      modifies this, m
      ensures Valid() && m == old(m)
      ensures old(count) >= MAX_MAPPINGS ==> failed && count == old(count) && m[..] == old(m[..])
      ensures old(count) < MAX_MAPPINGS ==>
        failed == old(failed) && count == old(count) + 1 && m[..] == old(m[..])[old(count) := mp]
    {
      if count >= MAX_MAPPINGS {
        failed := true;
        return;
      }
      m[count] := mp;
      count := count + 1;
    }

    /** extend_mappings_virt: records [from, to) page-aligned outwards,
        mapped onto the physical address `virtToPhys` (hyp_virt_to_phys)
        gives for its first page. */
    method ExtendMappingsVirt(kind: MappingKind, cpu: nat, from: nat, to: nat, prot: nat, virtToPhys: nat -> nat)
      requires Valid() && from < U64_LIMIT && to < U64_LIMIT
      modifies this, m
      ensures Valid() && m == old(m)
      ensures old(count) >= MAX_MAPPINGS ==> failed && count == old(count) && m[..] == old(m[..])
      ensures old(count) < MAX_MAPPINGS ==>
        && failed == old(failed) && count == old(count) + 1
        && var virt := PageAlignDown(from);
           m[..] == old(m[..])[old(count) := Mapping(kind, cpu, virt, virtToPhys(virt), RangePages(from, to), prot)]
    {
      var virtFrom := PageAlignDown(from);
      var size := RangePages(from, to);
      var phys := virtToPhys(virtFrom);
      Record(Mapping(kind, cpu, virtFrom, phys, size, prot));
    }

    /** extend_mappings_image_idmap: as extend_mappings_virt, but the
        recorded virtual address is the physical one (the idmap maps its
        pages onto themselves). */
    method ExtendMappingsIdmap(kind: MappingKind, cpu: nat, from: nat, to: nat, prot: nat, virtToPhys: nat -> nat)
      requires Valid() && from < U64_LIMIT && to < U64_LIMIT
      modifies this, m
      ensures Valid() && m == old(m)
      ensures old(count) >= MAX_MAPPINGS ==> failed && count == old(count) && m[..] == old(m[..])
      ensures old(count) < MAX_MAPPINGS ==>
        && failed == old(failed) && count == old(count) + 1
        && var phys := virtToPhys(PageAlignDown(from));
           m[..] == old(m[..])[old(count) := Mapping(kind, cpu, phys, phys, RangePages(from, to), prot)]
    {
      var virtFrom := PageAlignDown(from);
      var size := RangePages(from, to);
      var phys := virtToPhys(virtFrom);
      Record(Mapping(kind, cpu, phys, phys, size, prot));
    }

    /** extend_mappings_vmemmap: records [from, to) page-aligned outwards
        onto the given physical address. */
    method ExtendMappingsVmemmap(kind: MappingKind, cpu: nat, from: nat, to: nat, phys: nat, prot: nat)
      requires Valid() && from < U64_LIMIT && to < U64_LIMIT
      modifies this, m
      ensures Valid() && m == old(m)
      ensures old(count) >= MAX_MAPPINGS ==> failed && count == old(count) && m[..] == old(m[..])
      ensures old(count) < MAX_MAPPINGS ==>
        && failed == old(failed) && count == old(count) + 1
        && m[..] == old(m[..])[old(count) := Mapping(kind, cpu, PageAlignDown(from), phys, RangePages(from, to), prot)]
    {
      var virtFrom := PageAlignDown(from);
      var size := RangePages(from, to);
      Record(Mapping(kind, cpu, virtFrom, phys, size, prot));
    }

    /** sort_mappings as written: sorts the first HYP_MAPPING_KIND_NUMBER
        slots by virt whatever the count. */
    method SortMappingsAsWritten()
      requires Valid()
      modifies m
      ensures Valid()
      ensures m[..HYP_MAPPING_KIND_NUMBER] == SortBy(old(m[..HYP_MAPPING_KIND_NUMBER]), VirtOf)
      ensures m[HYP_MAPPING_KIND_NUMBER..] == old(m[HYP_MAPPING_KIND_NUMBER..])
    {
      var s := SortBy(m[..HYP_MAPPING_KIND_NUMBER], VirtOf);
      forall i | 0 <= i < HYP_MAPPING_KIND_NUMBER {
        m[i] := s[i];
      }
      assert m[..] == s + old(m[HYP_MAPPING_KIND_NUMBER..]);
    }

    /** sort_mappings sorting the recorded mappings: afterwards they are
        a permutation of those before, in nondecreasing order of virt, and
        the unused slots are untouched. */
    method SortMappings()
      requires Valid()
      modifies m
      ensures Valid()
      ensures Contents() == SortBy(old(Contents()), VirtOf)
      ensures multiset(Contents()) == multiset(old(Contents())) && SortedBy(Contents(), VirtOf)
      ensures m[count..] == old(m[count..])
    {
      var s := SortBy(m[..count], VirtOf);
      SortByPermutation(m[..count], VirtOf);
      SortBySorted(m[..count], VirtOf);
      forall i | 0 <= i < count {
        m[i] := s[i];
      }
      assert m[..] == s + old(m[count..]);
      assert m[..count] == s;
    }

    /** check_hyp_mappings_fwd: every recorded mapping passes the forward
        check. */
    method CheckFwd(mem: Memory, p2v: nat -> nat, pgd: nat) returns (ret: bool)
      requires Valid()
      ensures ret <==> forall k | 0 <= k < count :: MappingFwdOk(mem, p2v, pgd, m[k])
    {
      ret := true;
      var i := 0;
      while i < count
        invariant i <= count
        invariant ret <==> forall k | 0 <= k < i :: MappingFwdOk(mem, p2v, pgd, m[k])
      {
        if ret {
          ret := CheckMappingFwd(mem, p2v, pgd, m[i]);
        }
        i := i + 1;
      }
    }

    /** _check_hyp_mappings_rev: counts the recorded mappings that map
        `virt` onto `phys` and passes when there is one. */
    method CheckRevAt(virt: nat, phys: nat) returns (r: bool)
      requires Valid()
      ensures r <==> Covered(Contents(), virt, phys)
    {
      var occs := 0;
      var i := 0;
      while i < count
        invariant i <= count
        invariant occs >= 1 <==> exists k | 0 <= k < i :: Covers(m[k], virt, phys)
      {
        if virt >= m[i].virt && virt < (m[i].virt + PAGE_SIZE * m[i].size) % U64_LIMIT
           && phys == (m[i].phys + (virt - m[i].virt)) % U64_LIMIT {
          occs := occs + 1;
        }
        i := i + 1;
      }
      r := occs >= 1;
      assert forall k | 0 <= k < count :: Contents()[k] == m[k];
    }

    /** check_hyp_mappings_rev on the table at `table`, a table of `level`
        reached with the partial virtual address `va`: every page
        descriptor below it is covered by a recorded mapping and no entry
        is a block, reserved or otherwise uninterpretable. Every entry is
        visited, even after one has failed. */
    method CheckRev(mem: Memory, p2v: nat -> nat, table: nat, level: nat, va: nat) returns (ret: bool)
      requires Valid() && level <= 3
      ensures ret <==> RevOk(TableItems(mem, p2v, table, level, va), Contents())
      decreases Depth(level), 2
    {
      ghost var ms := Contents();
      ret := true;
      var idx := 0;
      while idx < PTRS_PER_TABLE
        invariant idx <= PTRS_PER_TABLE
        invariant ret <==> RevOk(EntriesUpTo(mem, p2v, table, level, va, idx), ms)
      {
        var entry := CheckRevEntry(mem, p2v, table, level, va, idx);
        RevOkConcat(EntriesUpTo(mem, p2v, table, level, va, idx), EntryItems(mem, p2v, table, level, va, idx), ms);
        ret := ret && entry;
        idx := idx + 1;
      }
    }

    /** The body of the loop of check_hyp_mappings_rev for entry `idx`. */
    method CheckRevEntry(mem: Memory, p2v: nat -> nat, table: nat, level: nat, va: nat, idx: nat) returns (entry: bool)
      requires Valid() && level <= 3
      ensures entry <==> RevOk(EntryItems(mem, p2v, table, level, va, idx), Contents())
      decreases Depth(level), 1
    {
      var pte := ReadPte(mem, table, idx);
      var kind := EntryKindOf(pte, level);
      if kind == Invalid {
        InvalidEntryVerdict(mem, p2v, table, level, va, idx, Contents());
        entry := true;
      } else if kind == Table {
        entry := CheckRevTable(mem, p2v, table, level, va, idx);
      } else if kind == PageDescriptor {
        entry := CheckRevAt(VaPartialNew(va, level, idx), HighBits(pte, TWO_12));
        PageEntryVerdict(mem, p2v, table, level, va, idx, Contents());
      } else {
        BadEntryVerdict(mem, p2v, table, level, va, idx, Contents());
        entry := false;
      }
    }

    /** The table case of that body: the check of the next-level table. */
    method CheckRevTable(mem: Memory, p2v: nat -> nat, table: nat, level: nat, va: nat, idx: nat) returns (entry: bool)
      requires Valid() && level <= 3
      requires EntryKindOf(ReadPte(mem, table, idx), level) == Table
      ensures entry <==> RevOk(EntryItems(mem, p2v, table, level, va, idx), Contents())
      decreases Depth(level), 0
    {
      var pte := ReadPte(mem, table, idx);
      entry := CheckRev(mem, p2v, p2v(HighBits(pte, TWO_12)), level + 1, VaPartialNew(va, level, idx));
      TableEntryItems(mem, p2v, table, level, va, idx);
    }

    /** check_hyp_mappings_both: the forward check and the reverse check
        from the root table at level 0 with the empty partial address. */
    method CheckBoth(mem: Memory, p2v: nat -> nat, pgd: nat) returns (ret: bool)
      requires Valid()
      ensures ret <==>
        && (forall k | 0 <= k < count :: MappingFwdOk(mem, p2v, pgd, m[k]))
        && RevOk(TableItems(mem, p2v, pgd, 0, 0), Contents())
    {
      var fwd := CheckFwd(mem, p2v, pgd);
      var rev := CheckRev(mem, p2v, pgd, 0, 0);
      ret := fwd && rev;
    }
  }

  /** An address inside a page-aligned mapping is one of its pages. */
  lemma CoveredPage(mp: Mapping, va: nat, oa: nat) returns (i: nat)
    requires mp.virt % PAGE_SIZE == 0 && va % PAGE_SIZE == 0 && va < U64_LIMIT
    requires Covers(mp, va, oa)
    ensures i < mp.size && PageAt(mp.virt, i) == va && PageAt(mp.phys, i) == oa
  {
    i := (va - mp.virt) / PAGE_SIZE;
    assert va - mp.virt == i * PAGE_SIZE;
    assert va - mp.virt < PAGE_SIZE * mp.size;
  }

  /** When both checks pass on a record of page-aligned mappings, the page
      tables map exactly the recorded pages: a page-aligned address below
      2^48 is translated onto `oa` if and only if a recorded mapping maps
      it onto `oa`. */
  lemma BothChecksMeanAgreement(mem: Memory, p2v: nat -> nat, pgd: nat, ms: seq<Mapping>, va: nat, oa: nat)
    requires forall k | 0 <= k < |ms| :: ms[k].virt % PAGE_SIZE == 0
    requires forall k | 0 <= k < |ms| :: MappingFwdOk(mem, p2v, pgd, ms[k])
    requires RevOk(TableItems(mem, p2v, pgd, 0, 0), ms)
    requires va < TWO_48 && va % TWO_12 == 0
    ensures FirstStageTranslate(mem, p2v, pgd, va) == MkTranslation(va, oa) <==> Covered(ms, va, oa)
  {
    var items := TableItems(mem, p2v, pgd, 0, 0);
    assert NoBad(items) by {
      forall k | 0 <= k < |items| ensures items[k].Leaf? {
        assert ItemOk(items[k], ms);
      }
    }
    ListingIsTranslation(mem, p2v, pgd, va, oa);
    if FirstStageTranslate(mem, p2v, pgd, va) == MkTranslation(va, oa) {
      var k :| 0 <= k < |items| && items[k] == Leaf(va, oa);
      assert ItemOk(items[k], ms);
    }
    if Covered(ms, va, oa) {
      var k :| 0 <= k < |ms| && Covers(ms[k], va, oa);
      var i := CoveredPage(ms[k], va, oa);
      assert MappingFwdOk(mem, p2v, pgd, ms[k]);
    }
  }
}
