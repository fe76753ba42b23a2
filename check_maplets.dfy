/** The "new abstraction" of check-pkvm-pgtables.c: both the record of
    intended mappings and the page tables are interpreted as a table of
    maplets, one per 4 KB page, and the two tables are compared entry by
    entry.

    A maplet table is `maplets[MAX_MAPLETS]` with its count. `failed`
    stands for check_assert_fail having been called since the table was
    last emptied; the source only prints then and carries on. */
module CheckMaplets {
  import opened Bits
  import opened PgtableWalk
  import opened CheckMappings

  /** struct maplet: one page at `virt` mapped onto `phys`. */
  datatype Maplet = Maplet(virt: nat, phys: nat, prot: nat)

  const MAX_MAPLETS: nat := 100000

  /** What a maplet table holds, and whether building it reported a
      failure. */
  datatype MapletState = MapletState(contents: seq<Maplet>, failed: bool)

  const EMPTY: MapletState := MapletState([], false)

  /** The maplets' virtual addresses strictly increase: the invariant the
      table is meant to keep. */
  ghost predicate Increasing(s: seq<Maplet>) {
    forall i | 0 < i < |s| :: s[i - 1].virt < s[i].virt
  }

  /** extend_maplets on the abstract state: a full table reports a
      failure and is left as it is (the source then writes past the end);
      otherwise the maplet is appended, and a failure is reported when its
      virtual address does not exceed the last one. */
  function ExtendState(st: MapletState, mt: Maplet): MapletState {
    if |st.contents| >= MAX_MAPLETS then MapletState(st.contents, true)
    else
      var nonIncreasing := |st.contents| > 0 && mt.virt <= st.contents[|st.contents| - 1].virt;
      MapletState(st.contents + [mt], st.failed || nonIncreasing)
  }

  /** extend_maplets applied to each of `mts` in order. */
  function ExtendAll(st: MapletState, mts: seq<Maplet>): MapletState
    decreases |mts|
  {
    if |mts| == 0 then st else ExtendState(ExtendAll(st, mts[..|mts| - 1]), mts[|mts| - 1])
  }

  /** What _interpret_pgtable does with one listed item: a page adds its
      maplet with protection 0; an entry of a kind it cannot interpret
      reports a failure. */
  function InterpretItem(st: MapletState, item: Item): MapletState {
    match item
    case Leaf(va, oa) => ExtendState(st, Maplet(va, oa, 0))
    case Bad(_) => MapletState(st.contents, true)
  }

  /** InterpretItem applied to each of `items` in order. */
  function InterpretItems(st: MapletState, items: seq<Item>): MapletState
    decreases |items|
  {
    if |items| == 0 then st else InterpretItem(InterpretItems(st, items[..|items| - 1]), items[|items| - 1])
  }

  /** The maplets of the leaves of a listing. */
  function LeafMaplets(items: seq<Item>): (r: seq<Maplet>)
    requires NoBad(items)
    ensures |r| == |items|
    ensures forall k | 0 <= k < |items| :: r[k] == Maplet(items[k].va, items[k].oa, 0)
  {
    seq(|items|, k requires 0 <= k < |items| => Maplet(items[k].va, items[k].oa, 0))
  }

  /** _interpret_mapping: the maplets of the pages of one mapping, with
      the page addresses computed on u64. */
  function MappingMaplets(mp: Mapping): (r: seq<Maplet>)
    ensures |r| == mp.size
    ensures forall i | 0 <= i < mp.size :: r[i] == Maplet(PageAt(mp.virt, i), PageAt(mp.phys, i), mp.prot)
  {
    seq(mp.size, i requires 0 <= i < mp.size => Maplet(PageAt(mp.virt, i), PageAt(mp.phys, i), mp.prot))
  }

  /** The maplets of all the mappings, in the order they are recorded. */
  function Flatten(ms: seq<Mapping>): seq<Maplet>
    decreases |ms|
  {
    if |ms| == 0 then [] else Flatten(ms[..|ms| - 1]) + MappingMaplets(ms[|ms| - 1])
  }

  /** interpret_equals on contents: equally many maplets, equal index by
      index in virtual and physical address (protections are not compared). */
  ghost predicate SameTranslations(a: seq<Maplet>, b: seq<Maplet>) {
    |a| == |b| && forall i | 0 <= i < |a| :: a[i].virt == b[i].virt && a[i].phys == b[i].phys
  }

  /** Some maplet maps `va` onto `oa`. */
  ghost predicate HasPair(mts: seq<Maplet>, va: nat, oa: nat) {
    exists j | 0 <= j < |mts| :: mts[j].virt == va && mts[j].phys == oa
  }

  /** Some page of some recorded mapping maps `va` onto `oa`. */
  ghost predicate Recorded(ms: seq<Mapping>, va: nat, oa: nat) {
    exists k, i | 0 <= k < |ms| && 0 <= i < ms[k].size :: PageAt(ms[k].virt, i) == va && PageAt(ms[k].phys, i) == oa
  }

  // -----------------------------------------------------------------------
  // What the interpretations compute

  lemma {:induction false} ExtendAllConcat(st: MapletState, a: seq<Maplet>, b: seq<Maplet>)
    ensures ExtendAll(st, a + b) == ExtendAll(ExtendAll(st, a), b)
    decreases |b|
  {
    if |b| == 0 {
      assert a + b == a;
    } else {
      assert (a + b)[..|a + b| - 1] == a + b[..|b| - 1];
      assert (a + b)[|a + b| - 1] == b[|b| - 1];
      ExtendAllConcat(st, a, b[..|b| - 1]);
    }
  }

  lemma {:induction false} InterpretItemsConcat(st: MapletState, a: seq<Item>, b: seq<Item>)
    ensures InterpretItems(st, a + b) == InterpretItems(InterpretItems(st, a), b)
    decreases |b|
  {
    if |b| == 0 {
      assert a + b == a;
    } else {
      assert (a + b)[..|a + b| - 1] == a + b[..|b| - 1];
      assert (a + b)[|a + b| - 1] == b[|b| - 1];
      InterpretItemsConcat(st, a, b[..|b| - 1]);
    }
  }

  lemma IncreasingSnoc(p: seq<Maplet>, x: Maplet)
    ensures Increasing(p + [x]) <==> Increasing(p) && (|p| == 0 || p[|p| - 1].virt < x.virt)
  {
    var s := p + [x];
    if Increasing(p) && (|p| == 0 || p[|p| - 1].virt < x.virt) {
      forall i | 0 < i < |s| ensures s[i - 1].virt < s[i].virt {
        if i < |p| {
          assert s[i - 1] == p[i - 1] && s[i] == p[i];
        }
      }
    }
    if Increasing(s) {
      if |p| > 0 {
        assert s[|p| - 1] == p[|p| - 1] && s[|p|] == x;
      }
      forall i | 0 < i < |p| ensures p[i - 1].virt < p[i].virt {
        assert s[i - 1] == p[i - 1] && s[i] == p[i];
      }
    }
  }

  /** Extending an empty table with `mts` keeps the first MAX_MAPLETS of
      them. */
  lemma {:induction false} ExtendAllContents(mts: seq<Maplet>)
    ensures |mts| <= MAX_MAPLETS ==> ExtendAll(EMPTY, mts).contents == mts
    ensures |mts| > MAX_MAPLETS ==> ExtendAll(EMPTY, mts).contents == mts[..MAX_MAPLETS]
    decreases |mts|
  {
    if |mts| > 0 {
      var p := mts[..|mts| - 1];
      ExtendAllContents(p);
      assert p + [mts[|mts| - 1]] == mts;
      if |p| >= MAX_MAPLETS {
        assert p[..MAX_MAPLETS] == mts[..MAX_MAPLETS];
      }
    }
  }

  /** Extending an empty table with `mts` reports a failure exactly when
      there are more than MAX_MAPLETS of them or their virtual addresses do
      not strictly increase. */
  lemma {:induction false} ExtendAllFailed(mts: seq<Maplet>)
    ensures ExtendAll(EMPTY, mts).failed <==> |mts| > MAX_MAPLETS || !Increasing(mts)
    decreases |mts|
  {
    if |mts| > 0 {
      var p := mts[..|mts| - 1];
      var x := mts[|mts| - 1];
      ExtendAllFailed(p);
      ExtendAllContents(p);
      assert p + [x] == mts;
      if |p| < MAX_MAPLETS {
        IncreasingSnoc(p, x);
      }
    }
  }

  /** A reported failure is never withdrawn: interpreting more items
      keeps it. */
  lemma {:induction false} InterpretKeepsFailure(st: MapletState, items: seq<Item>)
    requires st.failed
    ensures InterpretItems(st, items).failed
    decreases |items|
  {
    if |items| > 0 {
      InterpretKeepsFailure(st, items[..|items| - 1]);
    }
  }

  /** Interpreting a listing reports a failure when some entry is of a
      kind the interpretation cannot handle, and otherwise extends the
      table with the maplets of the leaves. */
  lemma {:induction false} InterpretItemsMeaning(st: MapletState, items: seq<Item>)
    ensures !NoBad(items) ==> InterpretItems(st, items).failed
    ensures NoBad(items) ==> InterpretItems(st, items) == ExtendAll(st, LeafMaplets(items))
    decreases |items|
  {
    if |items| > 0 {
      var p := items[..|items| - 1];
      var x := items[|items| - 1];
      InterpretItemsMeaning(st, p);
      if NoBad(items) {
        assert NoBad(p) by {
          forall k | 0 <= k < |p| ensures p[k].Leaf? {
            assert p[k] == items[k];
          }
        }
        assert LeafMaplets(items)[..|items| - 1] == LeafMaplets(p);
      } else if NoBad(p) {
        assert x.Bad?;
      } else {
        var st1 := InterpretItems(st, p);
        InterpretKeepsFailure(st1, [x]);
        assert InterpretItems(st1, [x]) == InterpretItem(st1, x);
      }
    }
  }

  lemma HasPairConcat(a: seq<Maplet>, b: seq<Maplet>, va: nat, oa: nat)
    ensures HasPair(a + b, va, oa) <==> HasPair(a, va, oa) || HasPair(b, va, oa)
  {
    if HasPair(a + b, va, oa) {
      var j :| 0 <= j < |a + b| && (a + b)[j].virt == va && (a + b)[j].phys == oa;
      if j >= |a| {
        assert b[j - |a|] == (a + b)[j];
      }
    }
    if HasPair(b, va, oa) {
      var j :| 0 <= j < |b| && b[j].virt == va && b[j].phys == oa;
      assert (a + b)[|a| + j] == b[j];
    }
    if HasPair(a, va, oa) {
      var j :| 0 <= j < |a| && a[j].virt == va && a[j].phys == oa;
      assert (a + b)[j] == a[j];
    }
  }

  /** The flattened maplets map exactly the recorded pages. */
  lemma {:induction false} FlattenPairs(ms: seq<Mapping>, va: nat, oa: nat)
    ensures HasPair(Flatten(ms), va, oa) <==> Recorded(ms, va, oa)
    decreases |ms|
  {
    if |ms| > 0 {
      var p := ms[..|ms| - 1];
      var mp := ms[|ms| - 1];
      FlattenPairs(p, va, oa);
      HasPairConcat(Flatten(p), MappingMaplets(mp), va, oa);
      if HasPair(MappingMaplets(mp), va, oa) {
        var i :| 0 <= i < mp.size && MappingMaplets(mp)[i].virt == va && MappingMaplets(mp)[i].phys == oa;
        assert PageAt(ms[|ms| - 1].virt, i) == va;
      }
      if Recorded(p, va, oa) {
        var k, i :| 0 <= k < |p| && 0 <= i < p[k].size && PageAt(p[k].virt, i) == va && PageAt(p[k].phys, i) == oa;
        assert ms[k] == p[k];
      }
      if Recorded(ms, va, oa) {
        var k, i :| 0 <= k < |ms| && 0 <= i < ms[k].size && PageAt(ms[k].virt, i) == va && PageAt(ms[k].phys, i) == oa;
        if k < |p| {
          assert ms[k] == p[k];
        } else {
          assert MappingMaplets(mp)[i].virt == va && MappingMaplets(mp)[i].phys == oa;
        }
      }
    }
  }

  /** The interpretation of well-formed page tables with at most
      MAX_MAPLETS pages reports no failure and holds the pages' maplets:
      the listing's leaves strictly increase in virtual address. */
  lemma PgtableInterpretationClean(mem: Memory, p2v: nat -> nat, pgd: nat)
    requires NoBad(TableItems(mem, p2v, pgd, 0, 0)) && |TableItems(mem, p2v, pgd, 0, 0)| <= MAX_MAPLETS
    ensures InterpretItems(EMPTY, TableItems(mem, p2v, pgd, 0, 0)) == MapletState(LeafMaplets(TableItems(mem, p2v, pgd, 0, 0)), false)
  {
    var items := TableItems(mem, p2v, pgd, 0, 0);
    TableLeaves(mem, p2v, pgd, 0, 0);
    InterpretItemsMeaning(EMPTY, items);
    LeavesIncreasingMaplets(items);
    ExtendAllContents(LeafMaplets(items));
    ExtendAllFailed(LeafMaplets(items));
  }

  /** Strictly increasing leaves give strictly increasing maplets. */
  lemma LeavesIncreasingMaplets(items: seq<Item>)
    requires NoBad(items) && LeavesIncreasing(items)
    ensures Increasing(LeafMaplets(items))
  {
    var mts := LeafMaplets(items);
    forall i | 0 < i < |mts| ensures mts[i - 1].virt < mts[i].virt {
      assert items[i - 1].Leaf? && items[i].Leaf?;
    }
  }

  /** What the two interpretations hold when neither reported a failure:
      the record's maplets, and the maplets of a listing without
      uninterpretable entries. */
  lemma CleanInterpretations(items: seq<Item>, ms: seq<Mapping>)
    requires !ExtendAll(EMPTY, Flatten(ms)).failed && !InterpretItems(EMPTY, items).failed
    ensures NoBad(items)
    ensures ExtendAll(EMPTY, Flatten(ms)).contents == Flatten(ms)
    ensures NoBad(items) && InterpretItems(EMPTY, items).contents == LeafMaplets(items)
  {
    InterpretItemsMeaning(EMPTY, items);
    ExtendAllFailed(LeafMaplets(items));
    ExtendAllContents(LeafMaplets(items));
    ExtendAllFailed(Flatten(ms));
    ExtendAllContents(Flatten(ms));
  }

  /** Maplets equal index by index to those of a listing's leaves map the
      same pairs as the listing. */
  lemma SamePairs(items: seq<Item>, mts: seq<Maplet>, va: nat, oa: nat)
    requires NoBad(items) && SameTranslations(mts, LeafMaplets(items))
    ensures Leaf(va, oa) in items <==> HasPair(mts, va, oa)
  {
    var leaves := LeafMaplets(items);
    if Leaf(va, oa) in items {
      var k :| 0 <= k < |items| && items[k] == Leaf(va, oa);
      assert leaves[k].virt == va && leaves[k].phys == oa;
    }
    if HasPair(mts, va, oa) {
      var j :| 0 <= j < |mts| && mts[j].virt == va && mts[j].phys == oa;
      assert leaves[j].virt == va && leaves[j].phys == oa;
      assert items[j] == Leaf(va, oa);
    }
  }

  /** When the comparison of the two interpretations passes and neither
      reported a failure, the page tables map exactly the recorded pages:
      a page-aligned address below 2^48 is translated onto `oa` if and
      only if some page of some recorded mapping maps it onto `oa`. */
  lemma InterpretationsAgree(mem: Memory, p2v: nat -> nat, pgd: nat, ms: seq<Mapping>, va: nat, oa: nat)
    requires !ExtendAll(EMPTY, Flatten(ms)).failed
    requires !InterpretItems(EMPTY, TableItems(mem, p2v, pgd, 0, 0)).failed
    requires SameTranslations(ExtendAll(EMPTY, Flatten(ms)).contents, InterpretItems(EMPTY, TableItems(mem, p2v, pgd, 0, 0)).contents)
    requires va < TWO_48 && va % TWO_12 == 0
    ensures FirstStageTranslate(mem, p2v, pgd, va) == MkTranslation(va, oa) <==> Recorded(ms, va, oa)
  {
    var items := TableItems(mem, p2v, pgd, 0, 0);
    CleanInterpretations(items, ms);
    SamePairs(items, Flatten(ms), va, oa);
    ListingIsTranslation(mem, p2v, pgd, va, oa);
    FlattenPairs(ms, va, oa);
  }

  // -----------------------------------------------------------------------
  // The tables

  class Maplets {
    const maplets: array<Maplet>
    var count: nat
    /** check_assert_fail has been called since the table was emptied. */
    var failed: bool

    /** The table's maplets and failure report. */
    ghost var state: MapletState

    ghost predicate Valid()
      reads this, maplets
    {
      maplets.Length == MAX_MAPLETS && count <= MAX_MAPLETS
      && |state.contents| == count && state.failed == failed
      && forall i | 0 <= i < count :: state.contents[i] == maplets[i]
    }

    /** The static table, empty. */
    constructor()
      ensures Valid() && state == EMPTY && fresh(maplets)
    {
      maplets := new Maplet[MAX_MAPLETS](_ => Maplet(0, 0, 0));
      count := 0;
      failed := false;
      state := EMPTY;
    }

    /** `ms->count = 0`, with which both interpretations start. */
    method Clear()
      requires Valid()
      modifies this
      ensures Valid() && state == EMPTY
    {
      count := 0;
      failed := false;
      state := EMPTY;
    }

    /** extend_maplets. */
    method Extend(virt: nat, phys: nat, prot: nat)
      requires Valid()
      modifies this, maplets
      ensures Valid()
      ensures state == ExtendState(old(state), Maplet(virt, phys, prot))
    {
      if count >= MAX_MAPLETS {
        failed := true;
        state := MapletState(state.contents, true);
        return;
      }
      if count > 0 && virt <= maplets[count - 1].virt {
        failed := true;
      }
      maplets[count] := Maplet(virt, phys, prot);
      count := count + 1;
      state := MapletState(maplets[..count], failed);
      assert maplets[..count] == old(maplets[..count]) + [Maplet(virt, phys, prot)];
    }

    /** _interpret_pgtable on the table at `table`, a table of `level`
        reached with the partial virtual address `va`: the table's listing
        is interpreted item by item, in order. */
    method InterpretPgtableAt(mem: Memory, p2v: nat -> nat, table: nat, level: nat, va: nat)
      requires Valid() && level <= 3
      modifies this, maplets
      ensures Valid()
      ensures state == InterpretItems(old(state), TableItems(mem, p2v, table, level, va))
      decreases Depth(level), 3
    {
      ghost var st0 := state;
      for idx := 0 to PTRS_PER_TABLE
        invariant Valid()
        invariant state == InterpretItems(st0, EntriesUpTo(mem, p2v, table, level, va, idx))
      {
        InterpretNextEntry(st0, mem, p2v, table, level, va, idx);
      }
    }

    /** One turn of that loop: entry `idx` is interpreted after the
        entries before it. */
    method InterpretNextEntry(ghost st0: MapletState, mem: Memory, p2v: nat -> nat, table: nat, level: nat, va: nat, idx: nat)
      requires Valid() && level <= 3
      requires state == InterpretItems(st0, EntriesUpTo(mem, p2v, table, level, va, idx))
      modifies this, maplets
      ensures Valid()
      ensures state == InterpretItems(st0, EntriesUpTo(mem, p2v, table, level, va, idx + 1))
      decreases Depth(level), 2
    {
      ghost var before := EntriesUpTo(mem, p2v, table, level, va, idx);
      ghost var here := EntryItems(mem, p2v, table, level, va, idx);
      assert EntriesUpTo(mem, p2v, table, level, va, idx + 1) == before + here;
      InterpretItemsConcat(st0, before, here);
      InterpretEntry(mem, p2v, table, level, va, idx);
    }

    /** The body of the loop of _interpret_pgtable for entry `idx`. */
    method InterpretEntry(mem: Memory, p2v: nat -> nat, table: nat, level: nat, va: nat, idx: nat)
      requires Valid() && level <= 3
      modifies this, maplets
      ensures Valid()
      ensures state == InterpretItems(old(state), EntryItems(mem, p2v, table, level, va, idx))
      decreases Depth(level), 1
    {
      var kind := EntryKindOf(ReadPte(mem, table, idx), level);
      if kind == Invalid {
        InvalidEntryItems(mem, p2v, table, level, va, idx);
      } else if kind == Table {
        InterpretTableEntry(mem, p2v, table, level, va, idx);
      } else if kind == PageDescriptor {
        InterpretPageEntry(mem, p2v, table, level, va, idx);
      } else {
        InterpretBadEntry(mem, p2v, table, level, va, idx);
      }
    }

    /** A table entry: the next-level table is interpreted. */
    method InterpretTableEntry(mem: Memory, p2v: nat -> nat, table: nat, level: nat, va: nat, idx: nat)
      requires Valid() && level <= 3
      requires EntryKindOf(ReadPte(mem, table, idx), level) == Table
      modifies this, maplets
      ensures Valid()
      ensures state == InterpretItems(old(state), EntryItems(mem, p2v, table, level, va, idx))
      decreases Depth(level), 0
    {
      var pte := ReadPte(mem, table, idx);
      TableEntryItems(mem, p2v, table, level, va, idx);
      InterpretPgtableAt(mem, p2v, p2v(HighBits(pte, TWO_12)), level + 1, VaPartialNew(va, level, idx));
    }

    /** A page descriptor: its page's maplet is added, with protection 0. */
    method InterpretPageEntry(mem: Memory, p2v: nat -> nat, table: nat, level: nat, va: nat, idx: nat)
      requires Valid() && level <= 3
      requires EntryKindOf(ReadPte(mem, table, idx), level) == PageDescriptor
      modifies this, maplets
      ensures Valid()
      ensures state == InterpretItems(old(state), EntryItems(mem, p2v, table, level, va, idx))
    {
      var pte := ReadPte(mem, table, idx);
      PageEntryItems(mem, p2v, table, level, va, idx);
      Extend(VaPartialNew(va, level, idx), HighBits(pte, TWO_12), 0);
    }

    /** A block, reserved or dummy entry: a failure is reported. */
    method InterpretBadEntry(mem: Memory, p2v: nat -> nat, table: nat, level: nat, va: nat, idx: nat)
      requires Valid() && level <= 3
      requires EntryKindOf(ReadPte(mem, table, idx), level) !in {Invalid, Table, PageDescriptor}
      modifies this
      ensures Valid()
      ensures state == InterpretItems(old(state), EntryItems(mem, p2v, table, level, va, idx))
    {
      BadEntryItems(mem, p2v, table, level, va, idx);
      failed := true;
      state := MapletState(state.contents, true);
    }

    /** interpret_pgtable: the interpretation of the page tables from the
        root table `pgd`, which is that of their listing. */
    method InterpretPgtable(mem: Memory, p2v: nat -> nat, pgd: nat)
      requires Valid()
      modifies this, maplets
      ensures Valid()
      ensures state == InterpretItems(EMPTY, TableItems(mem, p2v, pgd, 0, 0))
    {
      Clear();
      InterpretPgtableAt(mem, p2v, pgd, 0, 0);
    }

    /** _interpret_mapping: the maplets of each page of `mp` in turn. */
    method InterpretMapping(mp: Mapping)
      requires Valid()
      modifies this, maplets
      ensures Valid()
      ensures state == ExtendAll(old(state), MappingMaplets(mp))
    {
      ghost var st0 := state;
      var i := 0;
      while i < mp.size
        invariant Valid()
        invariant i <= mp.size
        invariant state == ExtendAll(st0, MappingMaplets(mp)[..i])
      {
        assert MappingMaplets(mp)[..i + 1][..i] == MappingMaplets(mp)[..i];
        Extend(PageAt(mp.virt, i), PageAt(mp.phys, i), mp.prot);
        i := i + 1;
      }
      assert MappingMaplets(mp)[..mp.size] == MappingMaplets(mp);
    }

    /** interpret_mappings: the maplets of each recorded mapping in turn. */
    method InterpretMappings(table: MappingTable)
      requires Valid() && table.Valid()
      modifies this, maplets
      ensures Valid()
      ensures state == ExtendAll(EMPTY, Flatten(table.Contents()))
    {
      Clear();
      var i := 0;
      while i < table.count
        invariant Valid()
        invariant i <= table.count
        invariant state == ExtendAll(EMPTY, Flatten(table.m[..i]))
      {
        assert table.m[..i + 1][..i] == table.m[..i];
        ExtendAllConcat(EMPTY, Flatten(table.m[..i]), MappingMaplets(table.m[i]));
        InterpretMapping(table.m[i]);
        i := i + 1;
      }
    }
  }

  /** The interpretation of an invalid entry is empty. */
  lemma InvalidEntryItems(mem: Memory, p2v: nat -> nat, table: nat, level: nat, va: nat, idx: nat)
    requires level <= 3 && EntryKindOf(ReadPte(mem, table, idx), level) == Invalid
    ensures EntryItems(mem, p2v, table, level, va, idx) == []
  {
  }

  /** A page descriptor lists its page. */
  lemma PageEntryItems(mem: Memory, p2v: nat -> nat, table: nat, level: nat, va: nat, idx: nat)
    requires level <= 3 && EntryKindOf(ReadPte(mem, table, idx), level) == PageDescriptor
    ensures EntryItems(mem, p2v, table, level, va, idx) == [Leaf(VaPartialNew(va, level, idx), HighBits(ReadPte(mem, table, idx), TWO_12))]
  {
  }

  /** A block, reserved or dummy entry lists one uninterpretable item. */
  lemma BadEntryItems(mem: Memory, p2v: nat -> nat, table: nat, level: nat, va: nat, idx: nat)
    requires level <= 3 && EntryKindOf(ReadPte(mem, table, idx), level) !in {Invalid, Table, PageDescriptor}
    ensures EntryItems(mem, p2v, table, level, va, idx) == [Bad(EntryKindOf(ReadPte(mem, table, idx), level))]
  {
  }

  /** interpret_equals. */
  method InterpretEquals(ms1: Maplets, ms2: Maplets) returns (r: bool)
    requires ms1.Valid() && ms2.Valid()
    ensures r <==> SameTranslations(ms1.state.contents, ms2.state.contents)
  {
    if ms1.count != ms2.count {
      return false;
    }
    var i := 0;
    while i < ms1.count
      invariant i <= ms1.count
      invariant forall j | 0 <= j < i ::
        ms1.maplets[j].virt == ms2.maplets[j].virt && ms1.maplets[j].phys == ms2.maplets[j].phys
    {
      if !(ms1.maplets[i].virt == ms2.maplets[i].virt && ms1.maplets[i].phys == ms2.maplets[i].phys) {
        return false;
      }
      i := i + 1;
    }
    return true;
  }

  /** _check_hyp_mappings: runs the direct checks, whose verdict is
      discarded, then interprets the record into `a` and the page tables
      into `b` and returns their comparison. */
  method CheckHypMappings(table: MappingTable, a: Maplets, b: Maplets, mem: Memory, p2v: nat -> nat, pgd: nat) returns (r: bool)
    requires table.Valid() && a.Valid() && b.Valid() && a != b && a.maplets != b.maplets
    modifies a, a.maplets, b, b.maplets
    ensures a.Valid() && b.Valid()
    ensures a.state == ExtendAll(EMPTY, Flatten(table.Contents()))
    ensures b.state == InterpretItems(EMPTY, TableItems(mem, p2v, pgd, 0, 0))
    ensures r <==> SameTranslations(a.state.contents, b.state.contents)
  {
    var _ := table.CheckBoth(mem, p2v, pgd);
    a.InterpretMappings(table);
    b.InterpretPgtable(mem, p2v, pgd);
    r := InterpretEquals(a, b);
  }
}
