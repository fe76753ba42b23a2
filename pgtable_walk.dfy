/** The Armv8-A stage-1 translation-table walk of the EL2 page-table
    checker, for a 4 KB granule, four levels (0 to 3) and 48-bit output
    addresses, as described for VMSAv8-64 descriptors in section D5.3 of
    the Arm Architecture Reference Manual for A-profile (ARM DDI 0487).

    Page-table memory is a function from a byte address to the 64-bit word
    stored there (`Memory`); `hyp_phys_to_virt`, which turns the output
    address of a table descriptor into the address the next table is read
    at, is the function parameter `p2v`.  Addresses and entries are
    naturals: a mask `x & GENMASK(h, l)` is written as `x % 2^(h+1) / 2^l
    * 2^l`, a shift by `l` as a product or quotient by `2^l`, and the `|`
    of two values whose set bits are disjoint as their sum.

    Besides the walk itself the module defines the depth-first listing of
    a table tree (`TableItems`): the page-descriptor leaves, with the
    virtual address the checker rebuilds from the entry indices, and the
    entries the checker cannot interpret.  Both the reverse inclusion
    check and the maplet interpretation traverse the tree in that order,
    and the listing is proved to be exactly the set of pages the walk
    translates. */
module PgtableWalk {

  import opened Bits

  /** Page-table memory: the 64-bit word at each byte address. */
  type Memory = nat -> nat

  const TWO_12: nat := 0x1000
  const TWO_21: nat := 0x20_0000
  const TWO_30: nat := 0x4000_0000
  const TWO_39: nat := 0x80_0000_0000
  const TWO_48: nat := 0x1_0000_0000_0000

  /** Entries per table: a 4 KB table of 8-byte entries. */
  const PTRS_PER_TABLE: nat := 512

  /** x & GENMASK(47, l), where `unit` is 2^l. */
  function HighBits(x: nat, unit: nat): nat
    requires unit > 0
  {
    x % TWO_48 / unit * unit
  }

  // -----------------------------------------------------------------------
  // Entry kinds

  datatype EntryKind =
    | Invalid
    | Block
    | Table
    | PageDescriptor
    | BlockNotPermitted
    | Reserved
    | Dummy

  /** entry_kind: the logical kind of entry `pte` at `level`, from its two
      low bits.  Blocks are allowed only at levels 1 and 2; at level 3 the
      encoding 0b11 is a page descriptor and 0b01 is reserved. */
  function EntryKindOf(pte: nat, level: nat): (ek: EntryKind)
    ensures ek == Dummy <==> level > 3
    ensures ek == Invalid <==> level <= 3 && pte % 2 == 0
    ensures ek == Table <==> level <= 2 && pte % 4 == 3
    ensures ek == PageDescriptor <==> level == 3 && pte % 4 == 3
    ensures ek == Block <==> (level == 1 || level == 2) && pte % 4 == 1
    ensures ek == BlockNotPermitted <==> level == 0 && pte % 4 == 1
    ensures ek == Reserved <==> level == 3 && pte % 4 == 1
  {
    if level <= 2 then
      var low := pte % 4;
      if low == 0 || low == 2 then Invalid
      else if low == 1 then (if level == 0 then BlockNotPermitted else Block)
      else Table
    else if level == 3 then
      var low := pte % 4;
      if low == 0 || low == 2 then Invalid
      else if low == 1 then Reserved
      else PageDescriptor
    else
      Dummy
  }

  // -----------------------------------------------------------------------
  // The walk

  datatype Fault = FaultNone | FaultTranslation

  /** The address descriptor of a TLB record, reduced to the fields the
      checker sets: the fault status, the output address with its
      non-secure bit, and the input virtual address. */
  datatype AddressDescriptor = AddressDescriptor(statuscode: Fault, address: nat, ns: bool, vaddress: nat)

  /** mkFault */
  function MkFault(va: nat): AddressDescriptor {
    AddressDescriptor(FaultTranslation, 0, false, va)
  }

  /** mkTranslation */
  function MkTranslation(va: nat, pa: nat): AddressDescriptor {
    AddressDescriptor(FaultNone, pa, true, va)
  }

  /** The address span of one entry of a table at `level`: 2^39, 2^30,
      2^21 or 2^12 bytes. */
  function Unit(level: nat): (u: nat)
    ensures u >= TWO_12 && u % TWO_12 == 0
  {
    if level == 0 then TWO_39
    else if level == 1 then TWO_30
    else if level == 2 then TWO_21
    else TWO_12
  }

  /** The address span of a whole table at `level`. */
  function Span(level: nat): (s: nat)
    ensures s == PTRS_PER_TABLE * Unit(level)
  {
    if level == 0 then TWO_48
    else if level == 1 then TWO_39
    else if level == 2 then TWO_30
    else TWO_21
  }

  /** The index field of `va` at `level`: VA[47:39], [38:30], [29:21] or
      [20:12]. */
  function Field(va: nat, level: nat): (r: nat)
    ensures r < PTRS_PER_TABLE
  {
    va / Unit(level) % PTRS_PER_TABLE
  }

  function Depth(level: nat): nat {
    if level <= 3 then 4 - level else 0
  }

  /** AArch64_TranslationTableWalk: translate `va` through the table at
      `tableBase`, which is a table of `level`. */
  function Walk(mem: Memory, p2v: nat -> nat, tableBase: nat, level: nat, va: nat): AddressDescriptor
    decreases Depth(level)
  {
    if level > 3 then MkFault(va)
    else
      var pte := ReadPte(mem, tableBase, Field(va, level));
      var low := pte % 4;
      if level == 3 then
        if low == 3 then MkTranslation(va, HighBits(pte, TWO_12) + va % TWO_12)
        else MkFault(va)
      else if low == 0 || low == 2 then MkFault(va)
      else if low == 1 then
        if level == 0 then MkFault(va)
        else if level == 1 then MkTranslation(va, HighBits(pte, TWO_30) + va % TWO_30)
        else MkTranslation(va, HighBits(pte, TWO_21) + va % TWO_21)
      else
        Walk(mem, p2v, p2v(HighBits(pte, TWO_12)), level + 1, va)
  }

  /** AArch64_FirstStageTranslate: the walk from the root table at level 0. */
  function FirstStageTranslate(mem: Memory, p2v: nat -> nat, tableBase: nat, va: nat): AddressDescriptor
  {
    Walk(mem, p2v, tableBase, 0, va)
  }

  /** pgd[idx]: entry `idx` of the table at `table`, the 8-byte word at
      byte offset `idx * 8`.  The walk reads the entry at the index field
      of the virtual address, `(va & GENMASK(h, l)) >> (l - 3)` bytes into
      the table. */
  function ReadPte(mem: Memory, table: nat, idx: nat): nat {
    mem(table + idx * 8)
  }

  /** The walk's own case split on the entry agrees with entry_kind: it
      faults on the entries whose kind is invalid, a level-0 block or
      reserved (WalkFaults), descends into tables (WalkTable), and
      translates page descriptors (WalkPage) and blocks (WalkBlock) by
      their output address with the low bits of `va`. */
  lemma WalkFaults(mem: Memory, p2v: nat -> nat, tableBase: nat, level: nat, va: nat)
    requires level <= 3
    requires EntryKindOf(ReadPte(mem, tableBase, Field(va, level)), level) in {Invalid, BlockNotPermitted, Reserved}
    ensures Walk(mem, p2v, tableBase, level, va) == MkFault(va)
  {
  }

  lemma WalkTable(mem: Memory, p2v: nat -> nat, tableBase: nat, level: nat, va: nat)
    requires EntryKindOf(ReadPte(mem, tableBase, Field(va, level)), level) == Table
    ensures Walk(mem, p2v, tableBase, level, va) ==
      Walk(mem, p2v, p2v(HighBits(ReadPte(mem, tableBase, Field(va, level)), TWO_12)), level + 1, va)
  {
  }

  lemma WalkPage(mem: Memory, p2v: nat -> nat, tableBase: nat, va: nat)
    requires EntryKindOf(ReadPte(mem, tableBase, Field(va, 3)), 3) == PageDescriptor
    ensures Walk(mem, p2v, tableBase, 3, va) ==
      MkTranslation(va, HighBits(ReadPte(mem, tableBase, Field(va, 3)), TWO_12) + va % TWO_12)
  {
  }

  lemma WalkBlock(mem: Memory, p2v: nat -> nat, tableBase: nat, level: nat, va: nat)
    requires EntryKindOf(ReadPte(mem, tableBase, Field(va, level)), level) == Block
    ensures Walk(mem, p2v, tableBase, level, va) ==
      MkTranslation(va, HighBits(ReadPte(mem, tableBase, Field(va, level)), Unit(level)) + va % Unit(level))
  {
  }

  /** The walk either faults or translates `va` itself: its result is
      MkFault(va) or MkTranslation(va, pa) for the address it returns. */
  lemma {:induction false} WalkShape(mem: Memory, p2v: nat -> nat, tableBase: nat, level: nat, va: nat)
    ensures var ad := Walk(mem, p2v, tableBase, level, va);
      ad == MkFault(va) || ad == MkTranslation(va, ad.address)
    decreases Depth(level)
  {
    if level <= 2 {
      var pte := ReadPte(mem, tableBase, Field(va, level));
      if pte % 4 == 3 {
        WalkShape(mem, p2v, p2v(HighBits(pte, TWO_12)), level + 1, va);
      }
    }
  }

  // -----------------------------------------------------------------------
  // The leaves of a table tree

  /** What the traversal of one entry yields: a page-descriptor leaf with
      the virtual address rebuilt from the indices and its output address,
      or an entry of a kind the traversal cannot interpret. */
  datatype Item = Leaf(va: nat, oa: nat) | Bad(kind: EntryKind)

  /** va_partial_new = va_partial | (idx << l): the partial virtual address
      extended with the index of an entry at `level`.  The traversal only
      ever extends a prefix aligned to the span of the table, so the
      bitwise or is the sum. */
  function VaPartialNew(va: nat, level: nat, idx: nat): nat {
    va + idx * Unit(level)
  }

  /** The items of entry `idx` of the table at `table`, a table of `level`
      reached with the partial virtual address `va`. */
  function EntryItems(mem: Memory, p2v: nat -> nat, table: nat, level: nat, va: nat, idx: nat): seq<Item>
    requires level <= 3
    decreases Depth(level), 0, 0
  {
    var vaNew := VaPartialNew(va, level, idx);
    var pte := ReadPte(mem, table, idx);
    match EntryKindOf(pte, level)
    case Invalid => []
    case Table => TableItems(mem, p2v, p2v(HighBits(pte, TWO_12)), level + 1, vaNew)
    case PageDescriptor => [Leaf(vaNew, HighBits(pte, TWO_12))]
    case Block => [Bad(Block)]
    case BlockNotPermitted => [Bad(BlockNotPermitted)]
    case Reserved => [Bad(Reserved)]
    case Dummy => [Bad(Dummy)]
  }

  /** The items of entries 0 to n - 1, in index order. */
  function EntriesUpTo(mem: Memory, p2v: nat -> nat, table: nat, level: nat, va: nat, n: nat): seq<Item>
    requires level <= 3
    decreases Depth(level), 1, n
  {
    if n == 0 then []
    else EntriesUpTo(mem, p2v, table, level, va, n - 1) + EntryItems(mem, p2v, table, level, va, n - 1)
  }

  /** The items of the whole tree below the table at `table`. */
  function TableItems(mem: Memory, p2v: nat -> nat, table: nat, level: nat, va: nat): seq<Item>
    requires level <= 3
    decreases Depth(level), 2, 0
  {
    EntriesUpTo(mem, p2v, table, level, va, PTRS_PER_TABLE)
  }

  // -----------------------------------------------------------------------
  // Leaves are translations, in increasing order of virtual address

  /** Every leaf lies in [lo, hi) and is page-aligned. */
  ghost predicate LeavesWithin(items: seq<Item>, lo: nat, hi: nat) {
    forall k | 0 <= k < |items| && items[k].Leaf? ::
      lo <= items[k].va < hi && items[k].va % TWO_12 == 0
  }

  /** Every leaf's output address is page-aligned and below 2^48. */
  ghost predicate LeavesOutput(items: seq<Item>) {
    forall k | 0 <= k < |items| && items[k].Leaf? :: items[k].oa % TWO_12 == 0 && items[k].oa < TWO_48
  }

  /** The leaves' virtual addresses strictly increase along the listing. */
  ghost predicate LeavesIncreasing(items: seq<Item>) {
    forall i, j | 0 <= i < j < |items| && items[i].Leaf? && items[j].Leaf? :: items[i].va < items[j].va
  }

  /** The walk from the table at `table`, a table of `level`, translates
      every leaf's virtual address to its output address. */
  ghost predicate LeavesTranslate(mem: Memory, p2v: nat -> nat, table: nat, level: nat, items: seq<Item>) {
    forall k | 0 <= k < |items| && items[k].Leaf? ::
      Walk(mem, p2v, table, level, items[k].va) == MkTranslation(items[k].va, items[k].oa)
  }

  /** All four facts about the leaves of a listing of a table of `level`
      at `table` whose leaves lie in [lo, hi). */
  ghost predicate GoodLeaves(mem: Memory, p2v: nat -> nat, table: nat, level: nat, items: seq<Item>, lo: nat, hi: nat) {
    LeavesWithin(items, lo, hi) && LeavesOutput(items) && LeavesIncreasing(items)
    && LeavesTranslate(mem, p2v, table, level, items)
  }

  /** Two consecutive parts of a listing, the first below `mid` and the
      second from `mid` on, have good leaves together. */
  lemma GoodConcat(mem: Memory, p2v: nat -> nat, table: nat, level: nat, a: seq<Item>, b: seq<Item>, lo: nat, mid: nat, hi: nat)
    requires lo <= mid <= hi
    requires GoodLeaves(mem, p2v, table, level, a, lo, mid)
    requires GoodLeaves(mem, p2v, table, level, b, mid, hi)
    ensures GoodLeaves(mem, p2v, table, level, a + b, lo, hi)
  {
    var c := a + b;
    forall k | 0 <= k < |c|
      ensures c[k] == if k < |a| then a[k] else b[k - |a|]
    {
    }
    assert LeavesWithin(c, lo, hi);
    assert LeavesOutput(c);
    assert LeavesTranslate(mem, p2v, table, level, c);
    forall i, j | 0 <= i < j < |c| && c[i].Leaf? && c[j].Leaf?
      ensures c[i].va < c[j].va
    {
      if j < |a| {
      } else if i >= |a| {
        assert c[i] == b[i - |a|] && c[j] == b[j - |a|];
      } else {
        assert c[i] == a[i] && c[j] == b[j - |a|];
      }
    }
  }

  /** Quotient and remainder are unique. */
  lemma DivMod(x: nat, d: nat, q: nat, r: nat)
    requires 0 <= r < d && x == q * d + r
    ensures x / d == q && x % d == r
  {
    var q', r' := x / d, x % d;
    assert x == q' * d + r';
    if q' > q {
      MulLe(q + 1, q', d);
    } else if q' < q {
      MulLe(q' + 1, q, d);
    }
  }

  lemma MulLe(a: nat, b: nat, d: nat)
    requires a <= b
    ensures a * d <= b * d
  {
    var k := b - a;
    assert b * d == a * d + k * d;
  }

  /** A virtual address in the span of entry `idx` of a table of `level`
      whose prefix `p` is aligned to the table's span has `idx` as its
      index field at that level. */
  lemma FieldOf(va: nat, level: nat, p: nat, idx: nat)
    requires level <= 3 && idx < PTRS_PER_TABLE && p % Span(level) == 0
    requires VaPartialNew(p, level, idx) <= va < VaPartialNew(p, level, idx) + Unit(level)
    ensures Field(va, level) == idx
  {
    var u := Unit(level);
    var q := p / Span(level);
    assert p == q * PTRS_PER_TABLE * u;
    var r := va - p - idx * u;
    assert va == (q * PTRS_PER_TABLE + idx) * u + r && 0 <= r < u;
    DivMod(va, u, q * PTRS_PER_TABLE + idx, r);
    DivMod(q * PTRS_PER_TABLE + idx, PTRS_PER_TABLE, q, idx);
  }

  /** The child of entry `idx` spans the entry's block, with a prefix
      aligned to the child's span. */
  lemma ChildBlock(p: nat, level: nat, idx: nat)
    requires level <= 2 && idx < PTRS_PER_TABLE && p % Span(level) == 0
    ensures VaPartialNew(p, level, idx) % Span(level + 1) == 0
    ensures Span(level + 1) == Unit(level)
  {
    var u := Unit(level);
    assert Span(level + 1) == u;
    var q := p / Span(level);
    assert p == (q * PTRS_PER_TABLE) * u;
    assert VaPartialNew(p, level, idx) == (q * PTRS_PER_TABLE + idx) * u;
    DivMod(VaPartialNew(p, level, idx), u, q * PTRS_PER_TABLE + idx, 0);
  }

  /** The page address of entry `idx` of a level-3 table is page-aligned. */
  lemma PageAligned(p: nat, idx: nat)
    requires p % Span(3) == 0
    ensures VaPartialNew(p, 3, idx) % TWO_12 == 0
  {
    var q := p / Span(3);
    assert VaPartialNew(p, 3, idx) == (q * PTRS_PER_TABLE + idx) * TWO_12;
    DivMod(VaPartialNew(p, 3, idx), TWO_12, q * PTRS_PER_TABLE + idx, 0);
  }

  /** Entry `idx` of a table of `level` at prefix `p` lists good leaves
      within the entry's block. */
  lemma {:induction false} EntryLeaves(mem: Memory, p2v: nat -> nat, table: nat, level: nat, p: nat, idx: nat)
    requires level <= 3 && idx < PTRS_PER_TABLE && p % Span(level) == 0
    ensures GoodLeaves(mem, p2v, table, level, EntryItems(mem, p2v, table, level, p, idx),
                       VaPartialNew(p, level, idx), VaPartialNew(p, level, idx) + Unit(level))
    decreases Depth(level), 1
  {
    var ek := EntryKindOf(ReadPte(mem, table, idx), level);
    if ek == Table {
      TableEntryLeaves(mem, p2v, table, level, p, idx);
    } else if ek == PageDescriptor {
      PageEntryLeaves(mem, p2v, table, p, idx);
    }
  }

  /** A table entry lists the leaves of its child table, which the walk
      reaches through the entry. */
  lemma {:induction false} TableEntryLeaves(mem: Memory, p2v: nat -> nat, table: nat, level: nat, p: nat, idx: nat)
    requires level <= 3 && idx < PTRS_PER_TABLE && p % Span(level) == 0
    requires EntryKindOf(ReadPte(mem, table, idx), level) == Table
    ensures GoodLeaves(mem, p2v, table, level, EntryItems(mem, p2v, table, level, p, idx),
                       VaPartialNew(p, level, idx), VaPartialNew(p, level, idx) + Unit(level))
    decreases Depth(level), 0
  {
    var lo := VaPartialNew(p, level, idx);
    var child := p2v(HighBits(ReadPte(mem, table, idx), TWO_12));
    ChildBlock(p, level, idx);
    TableLeaves(mem, p2v, child, level + 1, lo);
    assert EntryItems(mem, p2v, table, level, p, idx) == TableItems(mem, p2v, child, level + 1, lo);
    LiftTranslate(mem, p2v, table, level, p, idx, child, TableItems(mem, p2v, child, level + 1, lo));
  }

  /** Good leaves of the child of a table entry, within the entry's span,
      are good leaves of the entry's table: the walk from the table reaches
      them through the entry. */
  lemma LiftTranslate(mem: Memory, p2v: nat -> nat, table: nat, level: nat, p: nat, idx: nat, child: nat, items: seq<Item>)
    requires level <= 2 && idx < PTRS_PER_TABLE && p % Span(level) == 0
    requires EntryKindOf(ReadPte(mem, table, idx), level) == Table
    requires child == p2v(HighBits(ReadPte(mem, table, idx), TWO_12))
    requires GoodLeaves(mem, p2v, child, level + 1, items, VaPartialNew(p, level, idx), VaPartialNew(p, level, idx) + Span(level + 1))
    ensures GoodLeaves(mem, p2v, table, level, items, VaPartialNew(p, level, idx), VaPartialNew(p, level, idx) + Unit(level))
  {
    assert Span(level + 1) == Unit(level);
    forall k | 0 <= k < |items| && items[k].Leaf?
      ensures Walk(mem, p2v, table, level, items[k].va) == MkTranslation(items[k].va, items[k].oa)
    {
      FieldOf(items[k].va, level, p, idx);
      WalkTable(mem, p2v, table, level, items[k].va);
    }
  }

  /** A page descriptor lists the one page it maps, which the walk
      translates to the descriptor's output address. */
  lemma PageEntryLeaves(mem: Memory, p2v: nat -> nat, table: nat, p: nat, idx: nat)
    requires idx < PTRS_PER_TABLE && p % Span(3) == 0
    requires EntryKindOf(ReadPte(mem, table, idx), 3) == PageDescriptor
    ensures GoodLeaves(mem, p2v, table, 3, EntryItems(mem, p2v, table, 3, p, idx),
                       VaPartialNew(p, 3, idx), VaPartialNew(p, 3, idx) + Unit(3))
  {
    var lo := VaPartialNew(p, 3, idx);
    var pte := ReadPte(mem, table, idx);
    assert EntryItems(mem, p2v, table, 3, p, idx) == [Leaf(lo, HighBits(pte, TWO_12))];
    FieldOf(lo, 3, p, idx);
    PageAligned(p, idx);
    WalkPage(mem, p2v, table, lo);
    HighBitsAligned(pte);
  }

  lemma HighBitsAligned(pte: nat)
    ensures HighBits(pte, TWO_12) % TWO_12 == 0 && HighBits(pte, TWO_12) < TWO_48
  {
    var q := pte % TWO_48 / TWO_12;
    DivMod(q * TWO_12, TWO_12, q, 0);
  }

  /** Entries 0 to n - 1 list good leaves within the first n entries' blocks. */
  lemma {:induction false} EntriesLeaves(mem: Memory, p2v: nat -> nat, table: nat, level: nat, p: nat, n: nat)
    requires level <= 3 && n <= PTRS_PER_TABLE && p % Span(level) == 0
    ensures GoodLeaves(mem, p2v, table, level, EntriesUpTo(mem, p2v, table, level, p, n), p, VaPartialNew(p, level, n))
    decreases Depth(level), 2, n
  {
    if n > 0 {
      EntriesLeaves(mem, p2v, table, level, p, n - 1);
      EntryLeaves(mem, p2v, table, level, p, n - 1);
      assert VaPartialNew(p, level, n - 1) + Unit(level) == VaPartialNew(p, level, n);
      GoodConcat(mem, p2v, table, level, EntriesUpTo(mem, p2v, table, level, p, n - 1),
                 EntryItems(mem, p2v, table, level, p, n - 1),
                 p, VaPartialNew(p, level, n - 1), VaPartialNew(p, level, n));
    }
  }

  /** The whole listing of a table of `level` reached with the prefix `p`,
      aligned to the table's span, has its leaves in the table's span,
      page-aligned, in strictly increasing order, with page-aligned output
      addresses below 2^48, and the walk translates each leaf's virtual
      address to its output address. */
  lemma {:induction false} TableLeaves(mem: Memory, p2v: nat -> nat, table: nat, level: nat, p: nat)
    requires level <= 3 && p % Span(level) == 0
    ensures GoodLeaves(mem, p2v, table, level, TableItems(mem, p2v, table, level, p), p, p + Span(level))
    decreases Depth(level), 3
  {
    EntriesLeaves(mem, p2v, table, level, p, PTRS_PER_TABLE);
  }

  // -----------------------------------------------------------------------
  // Every page the walk translates is listed

  /** No entry of the listing is of a kind the traversal cannot interpret. */
  ghost predicate NoBad(items: seq<Item>) {
    forall k | 0 <= k < |items| :: items[k].Leaf?
  }

  /** The concatenation of parts(0) to parts(n - 1). */
  function Concat(parts: nat -> seq<Item>, n: nat): seq<Item> {
    if n == 0 then [] else Concat(parts, n - 1) + parts(n - 1)
  }

  /** Every part occurs in a concatenation that includes it. */
  lemma {:induction false} ConcatHolds(parts: nat -> seq<Item>, idx: nat, n: nat)
    requires idx < n
    ensures forall x | x in parts(idx) :: x in Concat(parts, n)
    decreases n
  {
    if idx < n - 1 {
      ConcatHolds(parts, idx, n - 1);
    }
  }

  /** The listing of the first n entries concatenates the entries' items. */
  lemma {:induction false} EntriesConcat(mem: Memory, p2v: nat -> nat, table: nat, level: nat, p: nat, n: nat, parts: nat -> seq<Item>)
    requires level <= 3
    requires forall i :: parts(i) == EntryItems(mem, p2v, table, level, p, i)
    ensures EntriesUpTo(mem, p2v, table, level, p, n) == Concat(parts, n)
    decreases n
  {
    if n > 0 {
      EntriesConcat(mem, p2v, table, level, p, n - 1, parts);
    }
  }

  /** `va` is a page-aligned address in the span of the table of `level`
      reached with the prefix `p`, which is aligned to that span. */
  ghost predicate InTable(level: nat, p: nat, va: nat) {
    level <= 3 && p % Span(level) == 0 && p <= va < p + Span(level) && va % TWO_12 == 0
  }

  /** `va` is in the span of entry `idx` of the table of `level` at `p`. */
  ghost predicate InEntry(level: nat, p: nat, idx: nat, va: nat) {
    idx < PTRS_PER_TABLE && VaPartialNew(p, level, idx) <= va < VaPartialNew(p, level, idx) + Unit(level)
  }

  /** The entry of a table whose span holds `va` is its index field. */
  lemma EntryOf(level: nat, p: nat, va: nat) returns (idx: nat)
    requires InTable(level, p, va)
    ensures InEntry(level, p, idx, va) && Field(va, level) == idx
  {
    var u := Unit(level);
    idx := (va - p) / u;
    DivMod(va - p, u, idx, (va - p) % u);
    if idx >= PTRS_PER_TABLE {
      MulLe(PTRS_PER_TABLE, idx, u);
    }
    FieldOf(va, level, p, idx);
  }

  /** An address in the span of a table entry is in the span of the
      entry's child table. */
  lemma ChildInTable(level: nat, p: nat, idx: nat, va: nat)
    requires level <= 2 && InTable(level, p, va) && InEntry(level, p, idx, va)
    ensures InTable(level + 1, VaPartialNew(p, level, idx), va)
  {
    ChildBlock(p, level, idx);
  }

  /** At level 3 an entry spans one page, so a page-aligned address in its
      span is the entry's own page. */
  lemma PageOfEntry(p: nat, idx: nat, va: nat)
    requires InTable(3, p, va) && InEntry(3, p, idx, va)
    ensures va == VaPartialNew(p, 3, idx)
  {
    PageAligned(p, idx);
    var lo := VaPartialNew(p, 3, idx);
    DivMod(va, TWO_12, lo / TWO_12, va - lo);
  }

  /** A page-aligned `va` in the span of a table whose listing holds no
      uninterpretable entry, and which the walk translates, is listed as a
      leaf with the walk's output address. */
  lemma {:induction false} WalkListed(mem: Memory, p2v: nat -> nat, table: nat, level: nat, p: nat, va: nat)
    requires InTable(level, p, va)
    requires NoBad(TableItems(mem, p2v, table, level, p))
    requires Walk(mem, p2v, table, level, va).statuscode == FaultNone
    ensures Leaf(va, Walk(mem, p2v, table, level, va).address) in TableItems(mem, p2v, table, level, p)
    decreases Depth(level), 1
  {
    var idx := EntryOf(level, p, va);
    var items := TableItems(mem, p2v, table, level, p);
    var entry := EntryItems(mem, p2v, table, level, p, idx);
    var parts := (i: nat) => EntryItems(mem, p2v, table, level, p, i);
    EntriesConcat(mem, p2v, table, level, p, PTRS_PER_TABLE, parts);
    ConcatHolds(parts, idx, PTRS_PER_TABLE);
    assert parts(idx) == entry;
    assert NoBad(entry) by {
      forall k | 0 <= k < |entry| ensures entry[k].Leaf? {
        assert entry[k] in items;
      }
    }
    GoodEntryKind(mem, p2v, table, level, p, idx);
    var ek := EntryKindOf(ReadPte(mem, table, idx), level);
    if ek == Table {
      TableEntryListed(mem, p2v, table, level, p, idx, va);
    } else if ek == PageDescriptor {
      PageEntryListed(mem, p2v, table, p, idx, va);
    } else {
      WalkFaults(mem, p2v, table, level, va);
    }
  }

  /** An entry that lists no uninterpretable item is invalid, a table or a
      page descriptor. */
  lemma GoodEntryKind(mem: Memory, p2v: nat -> nat, table: nat, level: nat, p: nat, idx: nat)
    requires level <= 3 && NoBad(EntryItems(mem, p2v, table, level, p, idx))
    ensures EntryKindOf(ReadPte(mem, table, idx), level) in {Invalid, Table, PageDescriptor}
  {
    var items := EntryItems(mem, p2v, table, level, p, idx);
    assert |items| > 0 ==> items[0].Leaf?;
    var ek := EntryKindOf(ReadPte(mem, table, idx), level);
    assert ek !in {Invalid, Table, PageDescriptor} ==> items == [Bad(ek)];
  }

  /** Through a table entry, a translated `va` is listed by the child. */
  lemma {:induction false} TableEntryListed(mem: Memory, p2v: nat -> nat, table: nat, level: nat, p: nat, idx: nat, va: nat)
    requires InTable(level, p, va) && InEntry(level, p, idx, va) && Field(va, level) == idx
    requires EntryKindOf(ReadPte(mem, table, idx), level) == Table
    requires NoBad(EntryItems(mem, p2v, table, level, p, idx))
    requires Walk(mem, p2v, table, level, va).statuscode == FaultNone
    ensures Leaf(va, Walk(mem, p2v, table, level, va).address) in EntryItems(mem, p2v, table, level, p, idx)
    decreases Depth(level), 0
  {
    var lo := VaPartialNew(p, level, idx);
    var child := p2v(HighBits(ReadPte(mem, table, idx), TWO_12));
    ChildInTable(level, p, idx, va);
    WalkTable(mem, p2v, table, level, va);
    assert EntryItems(mem, p2v, table, level, p, idx) == TableItems(mem, p2v, child, level + 1, lo);
    WalkListed(mem, p2v, child, level + 1, lo, va);
  }

  /** A translated page-aligned `va` at a page descriptor is the page the
      descriptor lists. */
  lemma PageEntryListed(mem: Memory, p2v: nat -> nat, table: nat, p: nat, idx: nat, va: nat)
    requires InTable(3, p, va) && InEntry(3, p, idx, va) && Field(va, 3) == idx
    requires EntryKindOf(ReadPte(mem, table, idx), 3) == PageDescriptor
    ensures Leaf(va, Walk(mem, p2v, table, 3, va).address) in EntryItems(mem, p2v, table, 3, p, idx)
  {
    PageOfEntry(p, idx, va);
    WalkPage(mem, p2v, table, va);
    assert EntryItems(mem, p2v, table, 3, p, idx) == [Leaf(va, HighBits(ReadPte(mem, table, idx), TWO_12))];
  }

  /** For a root table whose listing holds no uninterpretable entry, the
      listing from the root with the empty prefix is the walk's
      denotation: a page-aligned virtual address below 2^48 is listed with
      output address `oa` exactly when the first-stage translation of
      that address succeeds with `oa`. */
  lemma ListingIsTranslation(mem: Memory, p2v: nat -> nat, pgd: nat, va: nat, oa: nat)
    requires va < TWO_48 && va % TWO_12 == 0
    requires NoBad(TableItems(mem, p2v, pgd, 0, 0))
    ensures Leaf(va, oa) in TableItems(mem, p2v, pgd, 0, 0) <==> FirstStageTranslate(mem, p2v, pgd, va) == MkTranslation(va, oa)
  {
    var items := TableItems(mem, p2v, pgd, 0, 0);
    TableLeaves(mem, p2v, pgd, 0, 0);
    if FirstStageTranslate(mem, p2v, pgd, va) == MkTranslation(va, oa) {
      assert InTable(0, 0, va);
      WalkListed(mem, p2v, pgd, 0, 0, va);
    }
    if Leaf(va, oa) in items {
      var k :| 0 <= k < |items| && items[k] == Leaf(va, oa);
    }
  }
}
