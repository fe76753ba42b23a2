/** The EL2 buddy page allocator (nvhe/page_alloc.c).

    A pool owns the pages [range_start, range_end). Its vmemmap slice holds
    one descriptor per page; a page whose order is not NO_ORDER heads a
    "page group" of 2^order pages aligned to 2^order pages in absolute
    physical terms. Free groups sit on the free list of their order;
    allocated groups are off every list. The ghost field `head` records,
    for every page, the head of the group containing it. */
module PageAlloc {
  import opened Bits

  const MAX_ORDER: nat := 11
  const NO_ORDER: nat := 0xFFFF_FFFF
  const HYP_GFP_NONE: nat := 0
  const HYP_GFP_ZERO: nat := 1
  const EINVAL: int := 22

  /** struct hyp_page; `linked` says whether its list node is on a free list. */
  datatype HypPage = HypPage(refcount: nat, order: nat, pool: HypPool?, linked: bool)

  /** The buddy of the block of order o starting at page frame x: the other
      half of the enclosing block of order o + 1. */
  function BuddyPfn(x: nat, o: nat): nat {
    if Bit(x, o) then BitBound(x, o); x - Pow2(o) else x + Pow2(o)
  }

  lemma BuddyPfnBuddy(x: nat, o: nat)
    ensures Bit(x, o) ==> x >= Pow2(o)
    ensures BuddyPfn(BuddyPfn(x, o), o) == x
    ensures Bit(BuddyPfn(x, o), o) == !Bit(x, o)
    ensures AlignedTo(BuddyPfn(x, o), o) == AlignedTo(x, o)
  {
    if Bit(x, o) {
      SubPow2(x, o);
      AddPow2(x - Pow2(o), o);
    } else {
      AddPow2(x, o);
      SubPow2(x + Pow2(o), o);
    }
  }

  /** The buddy is symmetric: the buddy of the buddy is the block itself,
      and the two halves differ in bit o only. */
  lemma BuddySymmetric(x: nat, o: nat)
    ensures BuddyPfn(BuddyPfn(x, o), o) == x
    ensures Bit(BuddyPfn(x, o), o) == !Bit(x, o)
    ensures BuddyPfn(x, o) == x + Pow2(o) || BuddyPfn(x, o) + Pow2(o) == x
  {
    BuddyPfnBuddy(x, o);
  }

  function Min(a: nat, b: nat): nat {
    if a < b then a else b
  }

  predicate NoDup(s: seq<nat>) {
    forall i, j | 0 <= i < j < |s| :: s[i] != s[j]
  }

  /** list_del_init on a list without repeated entries. */
  function Remove(s: seq<nat>, x: nat): (r: seq<nat>)
    ensures forall y :: y in r <==> y in s && y != x
    ensures NoDup(s) ==> NoDup(r)
  {
    if |s| == 0 then []
    else if s[0] == x then Remove(s[1..], x)
    else
      var t := Remove(s[1..], x);
      assert NoDup(s) ==> NoDup(s[1..]) && s[0] !in s[1..];
      [s[0]] + t
  }

  /** Removing an entry that is not there changes nothing. */
  lemma RemoveAbsent(s: seq<nat>, x: nat)
    requires x !in s
    ensures Remove(s, x) == s
  {
    if |s| > 0 {
      RemoveAbsent(s[1..], x);
      assert s == [s[0]] + s[1..];
    }
  }

  /** list_del_init of the first entry of a list without repetition leaves
      the rest of the list. */
  lemma RemoveHead(s: seq<nat>)
    requires NoDup(s) && |s| > 0
    ensures Remove(s, s[0]) == s[1..]
  {
    RemoveAbsent(s[1..], s[0]);
  }

  /** The list s without its entries in m, the others in their order. */
  function Drop(s: seq<nat>, m: set<nat>): (r: seq<nat>)
    ensures forall y :: y in r <==> y in s && y !in m
  {
    if |s| == 0 then []
    else if s[0] in m then Drop(s[1..], m)
    else [s[0]] + Drop(s[1..], m)
  }

  lemma DropNothing(s: seq<nat>)
    ensures Drop(s, {}) == s
  {
    if |s| > 0 {
      DropNothing(s[1..]);
      assert s == [s[0]] + s[1..];
    }
  }

  /** Dropping one entry more is list_del_init of that entry. */
  lemma {:induction false} DropOneMore(s: seq<nat>, m: set<nat>, b: nat)
    ensures Drop(s, m + {b}) == Remove(Drop(s, m), b)
  {
    if |s| > 0 {
      DropOneMore(s[1..], m, b);
    }
  }

  /** Every entry of every list of fa. */
  ghost function Members(fa: seq<seq<nat>>): set<nat> {
    set o, x | 0 <= o < |fa| && x in fa[o] :: x
  }

  /** The free lists fa after __hyp_attach_page on fa0: the buddies in
      `merged` have left their lists, every other entry keeps its place,
      and the merged group lo has been added at the tail of list k. */
  ghost predicate Relinked(fa0: seq<seq<nat>>, fa: seq<seq<nat>>, lo: nat, k: nat, merged: set<nat>)
  {
    && |fa0| == MAX_ORDER + 1 && |fa| == MAX_ORDER + 1 && k <= MAX_ORDER
    && merged <= Members(fa0)
    && (forall o | 0 <= o <= MAX_ORDER :: fa[o] == Drop(fa0[o], merged) + (if o == k then [lo] else []))
  }

  /** The free lists after __hyp_extract_page took p off list k of fa0 and
      split it down to order `order`: the upper half p + 2^o of every split
      has been added at the tail of list o, for each o in [order, k), and
      every other list is as it was. */
  ghost function SplitLists(fa0: seq<seq<nat>>, p: nat, order: nat, k: nat): (fa: seq<seq<nat>>)
    requires |fa0| == MAX_ORDER + 1 && k <= MAX_ORDER
    ensures |fa| == MAX_ORDER + 1
  {
    seq(MAX_ORDER + 1, o requires 0 <= o <= MAX_ORDER =>
      (if o == k then Remove(fa0[k], p) else fa0[o]) + (if order <= o < k then [p + Pow2(o)] else []))
  }

  /** Allocating from the head of list k leaves the rest of that list. */
  lemma SplitListsHead(fa0: seq<seq<nat>>, order: nat, k: nat)
    requires |fa0| == MAX_ORDER + 1 && k <= MAX_ORDER && fa0[k] != [] && NoDup(fa0[k])
    ensures SplitLists(fa0, fa0[k][0], order, k)[k] == fa0[k][1..]
  {
    RemoveHead(fa0[k]);
  }

  /** List by list: p is off list k, the lists of the orders in [order, k)
      each have one upper half more at the tail, and the rest are as they
      were. */
  lemma SplitListsMeaning(fa0: seq<seq<nat>>, p: nat, order: nat, k: nat)
    requires |fa0| == MAX_ORDER + 1 && k <= MAX_ORDER
    ensures var fa := SplitLists(fa0, p, order, k);
      && fa[k] == Remove(fa0[k], p)
      && (forall o | 0 <= o <= MAX_ORDER && o != k && !(order <= o < k) :: fa[o] == fa0[o])
      && (forall o | order <= o < k :: fa[o] == fa0[o] + [p + Pow2(o)])
  {
  }

  /** Taking p off list k starts the splitting with nothing split. */
  lemma SplitListsBegin(fa0: seq<seq<nat>>, p: nat, k: nat)
    requires |fa0| == MAX_ORDER + 1 && k <= MAX_ORDER
    ensures SplitLists(fa0, p, k, k) == fa0[k := Remove(fa0[k], p)]
  {
    var fa := SplitLists(fa0, p, k, k);
    SplitListsMeaning(fa0, p, k, k);
    assert forall o | 0 <= o < |fa| :: fa[o] == fa0[k := Remove(fa0[k], p)][o];
  }

  /** Splitting the group of order c at p adds its upper half at the tail of
      list c - 1, which no earlier split touched. */
  lemma SplitListsStep(fa0: seq<seq<nat>>, p: nat, c: nat, k: nat)
    requires |fa0| == MAX_ORDER + 1 && 0 < c <= k <= MAX_ORDER
    ensures var fa := SplitLists(fa0, p, c, k);
      SplitLists(fa0, p, c - 1, k) == fa[c - 1 := fa[c - 1] + [p + Pow2(c - 1)]]
  {
    var fa, fa' := SplitLists(fa0, p, c, k), SplitLists(fa0, p, c - 1, k);
    forall o | 0 <= o < |fa'|
      ensures fa'[o] == fa[c - 1 := fa[c - 1] + [p + Pow2(c - 1)]][o]
    {
      if o == c - 1 {
        assert fa[o] == fa0[o] + [];
      }
    }
  }

  /** Every list of fa0 without its entries in m. */
  function DropAll(fa0: seq<seq<nat>>, m: set<nat>): (fa: seq<seq<nat>>)
    ensures |fa| == |fa0|
  {
    seq(|fa0|, o requires 0 <= o < |fa0| => Drop(fa0[o], m))
  }

  /** Before the first coalescing round nothing has been dropped. */
  lemma DropAllNothing(fa0: seq<seq<nat>>)
    ensures DropAll(fa0, {}) == fa0
  {
    forall o | 0 <= o < |fa0|
      ensures DropAll(fa0, {})[o] == fa0[o]
    {
      DropNothing(fa0[o]);
    }
  }

  /** One coalescing round on the lists: the free buddy b, on list `order`
      only, leaves it, which is dropping one more entry from the old lists. */
  lemma MergeLists(fa0: seq<seq<nat>>, merged: set<nat>, b: nat, order: nat)
    requires |fa0| == MAX_ORDER + 1 && order <= MAX_ORDER
    requires merged <= Members(fa0)
    requires var fa := DropAll(fa0, merged);
      b in fa[order] && forall o | 0 <= o <= MAX_ORDER && o != order :: b !in fa[o]
    ensures merged + {b} <= Members(fa0)
    ensures var fa := DropAll(fa0, merged);
      fa[order := Remove(fa[order], b)] == DropAll(fa0, merged + {b})
  {
    var fa, fa' := DropAll(fa0, merged), DropAll(fa0, merged + {b});
    assert b in fa0[order];
    forall o | 0 <= o <= MAX_ORDER
      ensures fa[order := Remove(fa[order], b)][o] == fa'[o]
    {
      DropOneMore(fa0[o], merged, b);
      if o != order {
        RemoveAbsent(fa[o], b);
      }
    }
  }

  /** Linking the merged group at the tail of list k completes Relinked. */
  lemma RelinkEnd(fa0: seq<seq<nat>>, merged: set<nat>, lo: nat, k: nat)
    requires |fa0| == MAX_ORDER + 1 && k <= MAX_ORDER && merged <= Members(fa0)
    ensures var fa := DropAll(fa0, merged);
      Relinked(fa0, fa[k := fa[k] + [lo]], lo, k, merged)
  {
  }

  // ---------------------------------------------------------------------
  // The allocator invariant, on the values of the pool's state.
  //
  // pend >= 0 names a group in the middle of __hyp_attach_page: its head
  // descriptor already says NO_ORDER, and `po` is the order it has reached.

  function GroupOrder(pg: seq<HypPage>, pend: int, po: nat, h: nat): nat
    requires h < |pg|
  {
    if h == pend then po else pg[h].order
  }

  ghost predicate DescOk(pg: seq<HypPage>, pool: HypPool?, i: nat)
    requires i < |pg|
  {
    pg[i].pool == pool && (pg[i].order == NO_ORDER || pg[i].order <= MAX_ORDER)
  }

  /** Page j lies in the group headed by head[j]; a page that is not a head
      has no order, is on no list and has no references. */
  ghost predicate HeadOk(pg: seq<HypPage>, hd: seq<nat>, pend: int, po: nat, j: nat)
    requires |hd| == |pg| && j < |pg|
  {
    var h := hd[j];
    && h <= j
    && GroupOrder(pg, pend, po, h) != NO_ORDER
    && j < h + Pow2(GroupOrder(pg, pend, po, h))
    && (h != j ==> pg[j].order == NO_ORDER && !pg[j].linked && pg[j].refcount == 0)
  }

  /** A head of order o starts an aligned run of 2^o pages inside the pool,
      all of which it heads. */
  ghost predicate GroupOk(pg: seq<HypPage>, hd: seq<nat>, base: nat, pend: int, po: nat, h: nat)
    requires |hd| == |pg| && h < |pg|
  {
    var o := GroupOrder(pg, pend, po, h);
    o != NO_ORDER ==>
      && AlignedTo(base + h, o)
      && h + Pow2(o) <= |pg|
      && (forall j | h <= j < h + Pow2(o) :: hd[j] == h)
  }

  /** Entry i of free list o: a free page of that order. */
  ghost predicate EntryOk(pg: seq<HypPage>, o: nat, i: nat)
  {
    i < |pg| && pg[i].linked && pg[i].order == o && pg[i].refcount == 0
  }

  /** A page on a free list is on the list of its own order. */
  ghost predicate Listed(pg: seq<HypPage>, fa: seq<seq<nat>>, i: nat)
    requires i < |pg| && |fa| == MAX_ORDER + 1
  {
    pg[i].linked ==> pg[i].order <= MAX_ORDER && i in fa[pg[i].order]
  }

  /** The free lists hold exactly the linked pages, each on the list of its
      own order, with no repetition, and free pages have no references. */
  ghost predicate ListsOk(pg: seq<HypPage>, fa: seq<seq<nat>>)
  {
    && |fa| == MAX_ORDER + 1
    && (forall o: nat, i: nat | o <= MAX_ORDER && i in fa[o] :: EntryOk(pg, o, i))
    && (forall i | 0 <= i < |pg| :: Listed(pg, fa, i))
    && (forall o | 0 <= o <= MAX_ORDER :: NoDup(fa[o]))
  }

  lemma ListEntry(pg: seq<HypPage>, fa: seq<seq<nat>>, o: nat, i: nat)
    requires ListsOk(pg, fa) && o <= MAX_ORDER && i in fa[o]
    ensures i < |pg| && pg[i].linked && pg[i].order == o && pg[i].refcount == 0
  {
    assert EntryOk(pg, o, i);
  }

  /** The free group of order o at page i has a free buddy of the same order. */
  ghost predicate BuddyFree(pg: seq<HypPage>, base: nat, i: nat, o: nat)
  {
    var c := BuddyPfn(base + i, o);
    base <= c < base + |pg| && pg[c - base].linked && pg[c - base].order == o
  }

  /** Free groups are maximally coalesced. */
  ghost predicate Coalesced(pg: seq<HypPage>, base: nat)
  {
    forall i | 0 <= i < |pg| && pg[i].linked && pg[i].order < MAX_ORDER ::
      !BuddyFree(pg, base, i, pg[i].order)
  }

  ghost predicate PendOk(pg: seq<HypPage>, pend: int, po: nat)
  {
    pend == -1 ||
    (0 <= pend < |pg| && pg[pend].order == NO_ORDER && !pg[pend].linked &&
     pg[pend].refcount == 0 && po <= MAX_ORDER)
  }

  ghost predicate DescsOk(pg: seq<HypPage>, pool: HypPool?)
  {
    forall i | 0 <= i < |pg| :: DescOk(pg, pool, i)
  }

  ghost predicate HeadsOk(pg: seq<HypPage>, hd: seq<nat>, pend: int, po: nat)
    requires |hd| == |pg|
  {
    forall j | 0 <= j < |pg| :: HeadOk(pg, hd, pend, po, j)
  }

  ghost predicate GroupsOk(pg: seq<HypPage>, hd: seq<nat>, base: nat, pend: int, po: nat)
    requires |hd| == |pg|
  {
    forall h | 0 <= h < |pg| :: GroupOk(pg, hd, base, pend, po, h)
  }

  ghost predicate Inv(pg: seq<HypPage>, fa: seq<seq<nat>>, hd: seq<nat>, base: nat,
                      pool: HypPool?, pend: int, po: nat)
  {
    && |hd| == |pg|
    && PendOk(pg, pend, po)
    && DescsOk(pg, pool)
    && HeadsOk(pg, hd, pend, po)
    && GroupsOk(pg, hd, base, pend, po)
    && ListsOk(pg, fa)
    && Coalesced(pg, base)
  }

  /** Page j belongs to a free group (or to the group being attached). */
  ghost predicate FreeAt(pg: seq<HypPage>, hd: seq<nat>, pend: int, j: nat)
    requires |hd| == |pg| && j < |pg|
  {
    hd[j] < |pg| && (pg[hd[j]].linked || hd[j] == pend)
  }

  /** Page j has the same descriptor and the same group head in both states. */
  ghost predicate SamePage(pg: seq<HypPage>, hd: seq<nat>, pg': seq<HypPage>, hd': seq<nat>, j: nat)
  {
    j < |pg| && j < |pg'| && j < |hd| && j < |hd'| && pg'[j] == pg[j] && hd'[j] == hd[j]
  }

  /** Heads of the run [m, m + 2^o) all set to m. */
  function Rehead(hd: seq<nat>, m: nat, o: nat): (r: seq<nat>)
    ensures |r| == |hd|
    ensures forall j | 0 <= j < |hd| :: r[j] == if m <= j < m + Pow2(o) then m else hd[j]
  {
    seq(|hd|, j requires 0 <= j < |hd| => if m <= j < m + Pow2(o) then m else hd[j])
  }

  // ---------------------------------------------------------------------
  // Facts every state transition uses

  lemma GroupOfPage(pg: seq<HypPage>, fa: seq<seq<nat>>, hd: seq<nat>, base: nat,
                    pool: HypPool?, pend: int, po: nat, h: nat, j: nat)
    requires Inv(pg, fa, hd, base, pool, pend, po)
    requires h < |pg| && GroupOrder(pg, pend, po, h) != NO_ORDER && j < |pg|
    ensures hd[j] == h <==> h <= j < h + Pow2(GroupOrder(pg, pend, po, h))
  {
    assert HeadOk(pg, hd, pend, po, j);
    assert GroupOk(pg, hd, base, pend, po, h);
  }

  // ---------------------------------------------------------------------
  // __hyp_attach_page, one coalescing round

  /** What a coalescing round relies on: b is the free buddy of the pending
      group lo of order k, and the run of order k + 1 at the lower of the
      two is exactly the union of both groups. */
  ghost predicate MergeFacts(pg: seq<HypPage>, hd: seq<nat>, base: nat, lo: nat, k: nat, b: nat)
    requires |hd| == |pg|
  {
    var m := Min(lo, b);
    && lo < |pg| && b < |pg| && lo != b && hd[lo] == lo && hd[b] == b
    && pg[b].linked && pg[b].order == k && pg[b].refcount == 0
    && AlignedTo(base + m, k + 1) && m + Pow2(k + 1) <= |pg|
    && (forall j | 0 <= j < |pg| :: (m <= j < m + Pow2(k + 1)) == (hd[j] == lo || hd[j] == b))
  }

  lemma FreeBuddyEntry(pg: seq<HypPage>, fa: seq<seq<nat>>, lo: nat, k: nat, b: nat, base: nat)
    requires PendOk(pg, lo, k) && lo < |pg| && ListsOk(pg, fa) && k <= MAX_ORDER
    requires BuddyFree(pg, base, lo, k) && base + b == BuddyPfn(base + lo, k)
    ensures b < |pg| && b != lo && pg[b].linked && pg[b].order == k && pg[b].refcount == 0
  {
    BuddySymmetric(base + lo, k);
    assert Listed(pg, fa, b);
    assert b in fa[k];
  }

  lemma MergeAlign(pg: seq<HypPage>, hd: seq<nat>, base: nat, lo: nat, k: nat, b: nat)
    requires |hd| == |pg| && lo < |pg| && b < |pg| && lo != b && pg[b].order == k
    requires base + b == BuddyPfn(base + lo, k)
    requires GroupOk(pg, hd, base, lo, k, lo) && GroupOk(pg, hd, base, lo, k, b)
    requires k != NO_ORDER
    ensures AlignedTo(base + Min(lo, b), k + 1) && Min(lo, b) + Pow2(k + 1) <= |pg|
    ensures lo < b ==> b == lo + Pow2(k)
    ensures b < lo ==> lo == b + Pow2(k)
  {
    BuddySymmetric(base + lo, k);
    if Bit(base + lo, k) {
      AlignedSucc(base + b, k);
    } else {
      AlignedSucc(base + lo, k);
    }
  }

  lemma MergeSetup(pg: seq<HypPage>, fa: seq<seq<nat>>, hd: seq<nat>, base: nat,
                   pool: HypPool?, lo: nat, k: nat, b: nat)
    requires Inv(pg, fa, hd, base, pool, lo, k) && lo < |pg| && k < MAX_ORDER
    requires BuddyFree(pg, base, lo, k) && base + b == BuddyPfn(base + lo, k)
    ensures MergeFacts(pg, hd, base, lo, k, b)
  {
    FreeBuddyEntry(pg, fa, lo, k, b, base);
    assert GroupOk(pg, hd, base, lo, k, lo) && GroupOk(pg, hd, base, lo, k, b);
    MergeAlign(pg, hd, base, lo, k, b);
    var m := Min(lo, b);
    forall j | 0 <= j < |pg|
      ensures (m <= j < m + Pow2(k + 1)) == (hd[j] == lo || hd[j] == b)
    {
      assert HeadOk(pg, hd, lo, k, j);
    }
  }

  lemma MergeHeads(pg: seq<HypPage>, hd: seq<nat>, base: nat, lo: nat, k: nat, b: nat,
                   pg': seq<HypPage>, hd': seq<nat>)
    requires |hd| == |pg| && MergeFacts(pg, hd, base, lo, k, b)
    requires HeadsOk(pg, hd, lo, k) && PendOk(pg, lo, k)
    requires pg' == pg[b := pg[b].(order := NO_ORDER, linked := false)]
    requires hd' == Rehead(hd, Min(lo, b), k + 1)
    ensures HeadsOk(pg', hd', Min(lo, b), k + 1)
  {
    var m, k1 := Min(lo, b), k + 1;
    forall j | 0 <= j < |pg|
      ensures HeadOk(pg', hd', m, k1, j)
    {
      assert HeadOk(pg, hd, lo, k, j);
      if !(m <= j < m + Pow2(k + 1)) {
        var h := hd[j];
        assert h != lo && h != b && h != m;
        assert GroupOrder(pg', m, k1, h) == GroupOrder(pg, lo, k, h);
      }
    }
  }

  lemma MergeGroups(pg: seq<HypPage>, hd: seq<nat>, base: nat, lo: nat, k: nat, b: nat,
                    pg': seq<HypPage>, hd': seq<nat>)
    requires |hd| == |pg| && MergeFacts(pg, hd, base, lo, k, b)
    requires HeadsOk(pg, hd, lo, k) && GroupsOk(pg, hd, base, lo, k) && PendOk(pg, lo, k)
    requires pg' == pg[b := pg[b].(order := NO_ORDER, linked := false)]
    requires hd' == Rehead(hd, Min(lo, b), k + 1)
    ensures GroupsOk(pg', hd', base, Min(lo, b), k + 1)
  {
    var m, k1 := Min(lo, b), k + 1;
    forall h | 0 <= h < |pg|
      ensures GroupOk(pg', hd', base, m, k1, h)
    {
      assert GroupOk(pg, hd, base, lo, k, h);
      assert HeadOk(pg, hd, lo, k, h);
      var o := GroupOrder(pg, lo, k, h);
      if !(m <= h < m + Pow2(k + 1)) && o != NO_ORDER {
        assert GroupOrder(pg', m, k1, h) == o;
        forall j | h <= j < h + Pow2(o)
          ensures hd'[j] == h
        {
          assert hd[j] == h;
        }
      }
    }
  }

  /** One round of the coalescing loop of __hyp_attach_page: the pending
      group of order k at lo absorbs its free buddy b, the merged group of
      order k + 1 starts at the lower of the two, the pages that are free
      stay free, and nothing outside the two groups changes. */
  lemma MergeStep(pg: seq<HypPage>, fa: seq<seq<nat>>, hd: seq<nat>, base: nat,
                  pool: HypPool?, lo: nat, k: nat, b: nat,
                  pg': seq<HypPage>, fa': seq<seq<nat>>, hd': seq<nat>)
    requires Inv(pg, fa, hd, base, pool, lo, k) && lo < |pg|
    requires k < MAX_ORDER
    requires BuddyFree(pg, base, lo, k) && base + b == BuddyPfn(base + lo, k)
    requires pg' == pg[b := pg[b].(order := NO_ORDER, linked := false)]
    requires fa' == fa[k := Remove(fa[k], b)]
    requires hd' == Rehead(hd, Min(lo, b), k + 1)
    ensures Inv(pg', fa', hd', base, pool, Min(lo, b), k + 1)
    ensures forall j | 0 <= j < |pg| ::
              FreeAt(pg', hd', Min(lo, b), j) == FreeAt(pg, hd, lo, j)
    ensures forall j | 0 <= j < |pg| :: FreeAt(pg, hd, lo, j) || SamePage(pg, hd, pg', hd', j)
  {
    MergeSetup(pg, fa, hd, base, pool, lo, k, b);
    var m := Min(lo, b);
    MergeHeads(pg, hd, base, lo, k, b, pg', hd');
    MergeGroups(pg, hd, base, lo, k, b, pg', hd');
    UnlinkLists(pg, fa, base, k, b, pg', fa');
    assert PendOk(pg', m, k + 1);
    assert DescsOk(pg', pool) by {
      forall i | 0 <= i < |pg|
        ensures DescOk(pg', pool, i)
      {
        assert DescOk(pg, pool, i);
      }
    }
    MergeFree(pg, hd, base, lo, k, b, pg', hd');
  }

  lemma MergeFree(pg: seq<HypPage>, hd: seq<nat>, base: nat, lo: nat, k: nat, b: nat,
                  pg': seq<HypPage>, hd': seq<nat>)
    requires |hd| == |pg| && MergeFacts(pg, hd, base, lo, k, b) && HeadsOk(pg, hd, lo, k)
    requires pg' == pg[b := pg[b].(order := NO_ORDER, linked := false)]
    requires hd' == Rehead(hd, Min(lo, b), k + 1)
    ensures forall j | 0 <= j < |pg| ::
              FreeAt(pg', hd', Min(lo, b), j) == FreeAt(pg, hd, lo, j)
    ensures forall j | 0 <= j < |pg| :: FreeAt(pg, hd, lo, j) || SamePage(pg, hd, pg', hd', j)
  {
    forall j | 0 <= j < |pg|
      ensures FreeAt(pg', hd', Min(lo, b), j) == FreeAt(pg, hd, lo, j)
    {
      assert HeadOk(pg, hd, lo, k, j);
    }
    forall j | 0 <= j < |pg| && !FreeAt(pg, hd, lo, j)
      ensures SamePage(pg, hd, pg', hd', j)
    {
      assert HeadOk(pg, hd, lo, k, j);
      assert hd[j] != lo && hd[j] != b;
      assert hd[b] == b;
    }
  }

  // ---------------------------------------------------------------------
  // Transitions that keep every group where it is

  /** Changing descriptors without changing any group order or any tail
      page keeps the group structure. */
  lemma Reorder(pg: seq<HypPage>, hd: seq<nat>, base: nat, pend: int, po: nat,
                pg': seq<HypPage>, pend': int, po': nat)
    requires |hd| == |pg| == |pg'|
    requires forall h | 0 <= h < |pg| :: GroupOrder(pg', pend', po', h) == GroupOrder(pg, pend, po, h)
    requires forall j | 0 <= j < |pg| && hd[j] != j :: pg'[j] == pg[j]
    requires HeadsOk(pg, hd, pend, po) && GroupsOk(pg, hd, base, pend, po)
    ensures HeadsOk(pg', hd, pend', po') && GroupsOk(pg', hd, base, pend', po')
  {
    forall j | 0 <= j < |pg|
      ensures HeadOk(pg', hd, pend', po', j)
    {
      assert HeadOk(pg, hd, pend, po, j);
    }
    forall h | 0 <= h < |pg|
      ensures GroupOk(pg', hd, base, pend', po', h)
    {
      assert GroupOk(pg, hd, base, pend, po, h);
    }
  }

  /** Taking page b off the free list of its order k. */
  lemma UnlinkLists(pg: seq<HypPage>, fa: seq<seq<nat>>, base: nat, k: nat, b: nat,
                    pg': seq<HypPage>, fa': seq<seq<nat>>)
    requires ListsOk(pg, fa) && Coalesced(pg, base) && b < |pg| && k <= MAX_ORDER
    requires pg[b].linked && pg[b].order == k
    requires |pg'| == |pg| && !pg'[b].linked
    requires forall i | 0 <= i < |pg| && i != b :: pg'[i] == pg[i]
    requires fa' == fa[k := Remove(fa[k], b)]
    ensures ListsOk(pg', fa') && Coalesced(pg', base)
  {
    forall o: nat, i: nat | o <= MAX_ORDER && i in fa'[o]
      ensures EntryOk(pg', o, i)
    {
      if o == k {
        assert i in fa[o] && i != b;
      } else {
        assert fa'[o] == fa[o];
      }
      ListEntry(pg, fa, o, i);
      assert pg'[i] == pg[i];
    }
    forall i | 0 <= i < |pg'|
      ensures Listed(pg', fa', i)
    {
      assert Listed(pg, fa, i);
      if pg'[i].linked {
        assert pg[i] == pg'[i] && i in fa[pg[i].order];
        if pg[i].order == k {
          assert i != b && fa'[k] == Remove(fa[k], b);
        } else {
          assert fa'[pg[i].order] == fa[pg[i].order];
        }
      }
    }
    forall o | 0 <= o <= MAX_ORDER
      ensures NoDup(fa'[o])
    {
      assert NoDup(fa[o]);
      if o == k {
        assert fa'[k] == Remove(fa[k], b);
      } else {
        assert fa'[o] == fa[o];
      }
    }
    forall i | 0 <= i < |pg'| && pg'[i].linked && pg'[i].order < MAX_ORDER
      ensures !BuddyFree(pg', base, i, pg'[i].order)
    {
      assert pg[i] == pg'[i];
      assert !BuddyFree(pg, base, i, pg[i].order);
      var c := BuddyPfn(base + i, pg[i].order);
      if base <= c < base + |pg| && c - base != b {
        assert pg'[c - base] == pg[c - base];
      }
    }
  }

  /** Putting the unlinked page u of order o at the tail of free list o. */
  lemma LinkLists(pg: seq<HypPage>, fa: seq<seq<nat>>, o: nat, u: nat,
                  pg': seq<HypPage>, fa': seq<seq<nat>>)
    requires ListsOk(pg, fa) && u < |pg| && o <= MAX_ORDER && !pg[u].linked
    requires |pg'| == |pg| && pg'[u].linked && pg'[u].order == o && pg'[u].refcount == 0
    requires forall i | 0 <= i < |pg| && i != u :: pg'[i].linked == pg[i].linked
    requires forall i | 0 <= i < |pg| && i != u && pg[i].linked :: pg'[i] == pg[i]
    requires fa' == fa[o := fa[o] + [u]]
    ensures ListsOk(pg', fa')
  {
    forall o': nat, i: nat | o' <= MAX_ORDER && i in fa'[o']
      ensures EntryOk(pg', o', i)
    {
      if i != u {
        if o' == o {
          assert i in fa[o] + [u];
        } else {
          assert fa'[o'] == fa[o'];
        }
        ListEntry(pg, fa, o', i);
      } else if o' != o {
        assert false;
      }
    }
    forall i | 0 <= i < |pg'|
      ensures Listed(pg', fa', i)
    {
      assert Listed(pg, fa, i);
      if i == u {
        assert fa'[o] == fa[o] + [u];
      } else if pg'[i].linked {
        assert pg[i] == pg'[i] && i in fa[pg[i].order];
        if pg[i].order == o {
          assert fa'[o] == fa[o] + [u];
        } else {
          assert fa'[pg[i].order] == fa[pg[i].order];
        }
      }
    }
    forall o' | 0 <= o' <= MAX_ORDER
      ensures NoDup(fa'[o'])
    {
      assert NoDup(fa[o']);
      if o' == o {
        if u in fa[o] {
          ListEntry(pg, fa, o, u);
          assert false;
        }
        var s := fa[o] + [u];
        forall a, b | 0 <= a < b < |s|
          ensures s[a] != s[b]
        {
          if b == |s| - 1 {
            assert s[a] in fa[o];
          }
        }
        assert fa'[o] == s;
      } else {
        assert fa'[o'] == fa[o'];
      }
    }
  }

  /** hyp_put_page reaching zero: __hyp_attach_page marks the head as having
      no order and starts coalescing from its group. */
  lemma AttachStart(pg: seq<HypPage>, fa: seq<seq<nat>>, hd: seq<nat>, base: nat,
                    pool: HypPool?, p: nat, pg': seq<HypPage>)
    requires Inv(pg, fa, hd, base, pool, -1, 0)
    requires p < |pg| && pg[p].order != NO_ORDER && !pg[p].linked && pg[p].refcount == 0
    requires pg' == pg[p := pg[p].(order := NO_ORDER)]
    ensures Inv(pg', fa, hd, base, pool, p, pg[p].order)
    ensures forall j | 0 <= j < |pg| ::
              FreeAt(pg', hd, p, j) == (FreeAt(pg, hd, -1, j) || p <= j < p + Pow2(pg[p].order))
  {
    var k := pg[p].order;
    assert DescOk(pg, pool, p);
    assert hd[p] == p by {
      assert HeadOk(pg, hd, -1, 0, p);
    }
    Reorder(pg, hd, base, -1, 0, pg', p, k);
    assert DescsOk(pg', pool) by {
      forall i | 0 <= i < |pg|
        ensures DescOk(pg', pool, i)
      {
        assert DescOk(pg, pool, i);
      }
    }
    forall o: nat, i: nat | o <= MAX_ORDER && i in fa[o]
      ensures EntryOk(pg', o, i)
    {
      ListEntry(pg, fa, o, i);
    }
    forall i | 0 <= i < |pg'|
      ensures Listed(pg', fa, i)
    {
      assert Listed(pg, fa, i);
    }
    forall i | 0 <= i < |pg'| && pg'[i].linked && pg'[i].order < MAX_ORDER
      ensures !BuddyFree(pg', base, i, pg'[i].order)
    {
      assert !BuddyFree(pg, base, i, pg[i].order);
      var c := BuddyPfn(base + i, pg[i].order);
      if base <= c < base + |pg| && c - base != p {
        assert pg'[c - base] == pg[c - base];
      }
    }
    forall j | 0 <= j < |pg|
      ensures FreeAt(pg', hd, p, j) == (FreeAt(pg, hd, -1, j) || p <= j < p + Pow2(k))
    {
      GroupOfPage(pg, fa, hd, base, pool, -1, 0, p, j);
      assert HeadOk(pg, hd, -1, 0, j);
    }
  }

  /** The end of __hyp_attach_page: the pending group of order k, whose
      buddy is not free (or which has reached the largest order), gets its
      order back and joins the tail of free list k. */
  lemma AttachFinish(pg: seq<HypPage>, fa: seq<seq<nat>>, hd: seq<nat>, base: nat,
                     pool: HypPool?, lo: nat, k: nat,
                     pg': seq<HypPage>, fa': seq<seq<nat>>)
    requires Inv(pg, fa, hd, base, pool, lo, k) && lo < |pg|
    requires k == MAX_ORDER || !BuddyFree(pg, base, lo, k)
    requires pg' == pg[lo := pg[lo].(order := k, linked := true)]
    requires fa' == fa[k := fa[k] + [lo]]
    ensures Inv(pg', fa', hd, base, pool, -1, 0)
    ensures forall j | 0 <= j < |pg| :: FreeAt(pg', hd, -1, j) == FreeAt(pg, hd, lo, j)
  {
    assert PendOk(pg, lo, k);
    assert hd[lo] == lo by {
      assert GroupOk(pg, hd, base, lo, k, lo);
    }
    Reorder(pg, hd, base, lo, k, pg', -1, 0);
    assert DescsOk(pg', pool) by {
      forall i | 0 <= i < |pg|
        ensures DescOk(pg', pool, i)
      {
        assert DescOk(pg, pool, i);
      }
    }
    LinkLists(pg, fa, k, lo, pg', fa');
    FinishCoalesced(pg, base, lo, k, pg');
    forall j | 0 <= j < |pg|
      ensures FreeAt(pg', hd, -1, j) == FreeAt(pg, hd, lo, j)
    {
      assert HeadOk(pg, hd, lo, k, j);
    }
  }

  /** The attached group is maximally coalesced, and it is not the free
      buddy of any other free group: buddies are symmetric. */
  lemma FinishCoalesced(pg: seq<HypPage>, base: nat, lo: nat, k: nat, pg': seq<HypPage>)
    requires Coalesced(pg, base) && lo < |pg| && !pg[lo].linked
    requires k == MAX_ORDER || !BuddyFree(pg, base, lo, k)
    requires pg' == pg[lo := pg[lo].(order := k, linked := true)]
    ensures Coalesced(pg', base)
  {
    forall i | 0 <= i < |pg'| && pg'[i].linked && pg'[i].order < MAX_ORDER
      ensures !BuddyFree(pg', base, i, pg'[i].order)
    {
      var o := pg'[i].order;
      var c := BuddyPfn(base + i, o);
      BuddySymmetric(base + i, o);
      if i == lo {
        if base <= c < base + |pg| {
          assert pg'[c - base] == pg[c - base];
        }
      } else {
        assert pg[i] == pg'[i];
        assert !BuddyFree(pg, base, i, o);
        if base <= c < base + |pg| && c - base != lo {
          assert pg'[c - base] == pg[c - base];
        } else if base <= c < base + |pg| && c - base == lo && o == k {
          assert false;
        }
      }
    }
  }

  /** __hyp_extract_page taking the free group at p, found on free list k,
      off that list. */
  lemma ExtractUnlink(pg: seq<HypPage>, fa: seq<seq<nat>>, hd: seq<nat>, base: nat,
                      pool: HypPool?, p: nat, k: nat, pg': seq<HypPage>, fa': seq<seq<nat>>)
    requires Inv(pg, fa, hd, base, pool, -1, 0)
    requires k <= MAX_ORDER && p in fa[k]
    requires p < |pg| && pg' == pg[p := pg[p].(linked := false)]
    requires fa' == fa[k := Remove(fa[k], p)]
    ensures pg[p].order == k && pg[p].linked
    ensures Inv(pg', fa', hd, base, pool, -1, 0)
    ensures forall j | 0 <= j < |pg| ::
              FreeAt(pg', hd, -1, j) == (FreeAt(pg, hd, -1, j) && !(p <= j < p + Pow2(k)))
    ensures forall j | 0 <= j < |pg| && p <= j < p + Pow2(k) :: FreeAt(pg, hd, -1, j)
  {
    ListEntry(pg, fa, k, p);
    assert hd[p] == p by {
      assert HeadOk(pg, hd, -1, 0, p);
    }
    Reorder(pg, hd, base, -1, 0, pg', -1, 0);
    assert DescsOk(pg', pool) by {
      forall i | 0 <= i < |pg|
        ensures DescOk(pg', pool, i)
      {
        assert DescOk(pg, pool, i);
      }
    }
    UnlinkLists(pg, fa, base, k, p, pg', fa');
    UnlinkFree(pg, fa, hd, base, pool, p, pg');
  }

  lemma UnlinkFree(pg: seq<HypPage>, fa: seq<seq<nat>>, hd: seq<nat>, base: nat,
                   pool: HypPool?, p: nat, pg': seq<HypPage>)
    requires Inv(pg, fa, hd, base, pool, -1, 0)
    requires p < |pg| && pg[p].linked && hd[p] == p
    requires pg' == pg[p := pg[p].(linked := false)]
    ensures forall j | 0 <= j < |pg| ::
              FreeAt(pg', hd, -1, j) == (FreeAt(pg, hd, -1, j) && !(p <= j < p + Pow2(pg[p].order)))
    ensures forall j | 0 <= j < |pg| && p <= j < p + Pow2(pg[p].order) :: FreeAt(pg, hd, -1, j)
  {
    var k := pg[p].order;
    assert Listed(pg, fa, p);
    forall j | 0 <= j < |pg|
      ensures FreeAt(pg', hd, -1, j) == (FreeAt(pg, hd, -1, j) && !(p <= j < p + Pow2(k)))
      ensures p <= j < p + Pow2(k) ==> FreeAt(pg, hd, -1, j)
    {
      GroupOfPage(pg, fa, hd, base, pool, -1, 0, p, j);
      assert HeadOk(pg, hd, -1, 0, j);
    }
  }

  // ---------------------------------------------------------------------
  // __hyp_extract_page, one splitting round

  /** What a splitting round relies on: the allocated group p of order
      o + 1 splits into halves p and u, each the other's buddy at order o. */
  ghost predicate SplitFacts(pg: seq<HypPage>, hd: seq<nat>, base: nat, p: nat, o: nat, u: nat)
    requires |hd| == |pg|
  {
    && u == p + Pow2(o) && u + Pow2(o) <= |pg|
    && Pow2(o + 1) == 2 * Pow2(o)
    && AlignedTo(base + p, o) && AlignedTo(base + u, o)
    && BuddyPfn(base + p, o) == base + u && BuddyPfn(base + u, o) == base + p
    && hd[p] == p && hd[u] == p
    && pg[u].order == NO_ORDER && !pg[u].linked && pg[u].refcount == 0
    && (forall j | 0 <= j < |pg| :: (p <= j < p + Pow2(o + 1)) == (hd[j] == p))
  }

  lemma SplitSetup(pg: seq<HypPage>, fa: seq<seq<nat>>, hd: seq<nat>, base: nat,
                   pool: HypPool?, p: nat, o: nat)
    requires Inv(pg, fa, hd, base, pool, -1, 0)
    requires p < |pg| && pg[p].order == o + 1 && o + 1 <= MAX_ORDER
    ensures SplitFacts(pg, hd, base, p, o, p + Pow2(o))
  {
    var u := p + Pow2(o);
    SplitRun(pg, fa, hd, base, pool, p, o);
    assert HeadOk(pg, hd, -1, 0, u);
  }

  /** The run of the group p of order o + 1: aligned halves that are each
      other's buddies, every page of which p heads. */
  lemma SplitRun(pg: seq<HypPage>, fa: seq<seq<nat>>, hd: seq<nat>, base: nat,
                 pool: HypPool?, p: nat, o: nat)
    requires Inv(pg, fa, hd, base, pool, -1, 0)
    requires p < |pg| && pg[p].order == o + 1 && o + 1 <= MAX_ORDER
    ensures Pow2(o + 1) == 2 * Pow2(o) && p + Pow2(o + 1) <= |pg|
    ensures AlignedTo(base + p, o) && AlignedTo(base + p + Pow2(o), o)
    ensures BuddyPfn(base + p, o) == base + p + Pow2(o) && BuddyPfn(base + p + Pow2(o), o) == base + p
    ensures forall j | 0 <= j < |pg| :: (p <= j < p + Pow2(o + 1)) == (hd[j] == p)
  {
    assert GroupOk(pg, hd, base, -1, 0, p);
    SplitHalves(base + p, o);
    forall j | 0 <= j < |pg|
      ensures (p <= j < p + Pow2(o + 1)) == (hd[j] == p)
    {
      GroupOfPage(pg, fa, hd, base, pool, -1, 0, p, j);
    }
  }

  /** The halves of an aligned run of order o + 1 are buddies at order o. */
  lemma SplitHalves(x: nat, o: nat)
    requires AlignedTo(x, o + 1)
    ensures Pow2(o + 1) == 2 * Pow2(o)
    ensures AlignedTo(x, o) && AlignedTo(x + Pow2(o), o)
    ensures BuddyPfn(x, o) == x + Pow2(o) && BuddyPfn(x + Pow2(o), o) == x
  {
    UpperHalf(x, o);
    BuddySymmetric(x, o);
  }

  lemma UpperHalf(x: nat, o: nat)
    requires AlignedTo(x, o + 1)
    ensures AlignedTo(x, o) && !Bit(x, o)
    ensures AlignedTo(x + Pow2(o), o) && Bit(x + Pow2(o), o)
  {
    AlignedSucc(x, o);
    AddPow2(x, o);
  }

  lemma SplitHeads(pg: seq<HypPage>, hd: seq<nat>, base: nat, p: nat, o: nat, u: nat,
                   pg': seq<HypPage>, hd': seq<nat>)
    requires |hd| == |pg| && p < |pg| && SplitFacts(pg, hd, base, p, o, u)
    requires HeadsOk(pg, hd, -1, 0) && o < MAX_ORDER
    requires pg' == pg[p := pg[p].(order := o)][u := pg[u].(order := o, linked := true)]
    requires hd' == Rehead(hd, u, o)
    ensures HeadsOk(pg', hd', -1, 0)
  {
    forall j | 0 <= j < |pg|
      ensures HeadOk(pg', hd', -1, 0, j)
    {
      assert HeadOk(pg, hd, -1, 0, j);
      if !(p <= j < p + Pow2(o + 1)) {
        var h := hd[j];
        assert h != p && h != u;
        assert GroupOrder(pg', -1, 0, h) == GroupOrder(pg, -1, 0, h);
      } else if j < u {
        assert hd'[j] == p && GroupOrder(pg', -1, 0, p) == o;
        assert j != p ==> pg'[j] == pg[j];
      } else {
        assert hd'[j] == u && GroupOrder(pg', -1, 0, u) == o;
        assert hd[j] == p;
        assert j != u ==> pg'[j] == pg[j];
      }
    }
  }

  lemma SplitGroups(pg: seq<HypPage>, hd: seq<nat>, base: nat, p: nat, o: nat, u: nat,
                    pg': seq<HypPage>, hd': seq<nat>)
    requires |hd| == |pg| && p < |pg| && SplitFacts(pg, hd, base, p, o, u)
    requires HeadsOk(pg, hd, -1, 0) && GroupsOk(pg, hd, base, -1, 0) && o < MAX_ORDER
    requires pg' == pg[p := pg[p].(order := o)][u := pg[u].(order := o, linked := true)]
    requires hd' == Rehead(hd, u, o)
    ensures GroupsOk(pg', hd', base, -1, 0)
  {
    forall h | 0 <= h < |pg|
      ensures GroupOk(pg', hd', base, -1, 0, h)
    {
      assert GroupOk(pg, hd, base, -1, 0, h);
      assert HeadOk(pg, hd, -1, 0, h);
      var k := GroupOrder(pg, -1, 0, h);
      if !(p <= h < p + Pow2(o + 1)) && k != NO_ORDER {
        assert GroupOrder(pg', -1, 0, h) == k;
        forall j | h <= j < h + Pow2(k)
          ensures hd'[j] == h
        {
          assert hd[j] == h;
        }
      }
    }
  }

  lemma SplitCoalesced(pg: seq<HypPage>, hd: seq<nat>, base: nat, p: nat, o: nat, u: nat,
                       pg': seq<HypPage>)
    requires |hd| == |pg| && p < |pg| && SplitFacts(pg, hd, base, p, o, u)
    requires Coalesced(pg, base) && !pg[p].linked && o < MAX_ORDER
    requires pg' == pg[p := pg[p].(order := o)][u := pg[u].(order := o, linked := true)]
    ensures Coalesced(pg', base)
  {
    forall i | 0 <= i < |pg'| && pg'[i].linked && pg'[i].order < MAX_ORDER
      ensures !BuddyFree(pg', base, i, pg'[i].order)
    {
      var oi := pg'[i].order;
      var c := BuddyPfn(base + i, oi);
      BuddySymmetric(base + i, oi);
      if i != u {
        assert pg[i] == pg'[i];
        assert !BuddyFree(pg, base, i, oi);
        if base <= c < base + |pg| && c - base != p && c - base != u {
          assert pg'[c - base] == pg[c - base];
        }
      }
    }
  }

  /** One round of the splitting loop of __hyp_extract_page: the allocated
      group p drops one order and its upper half u becomes a free group of
      that order at the tail of its list; only the upper half becomes free. */
  lemma SplitStep(pg: seq<HypPage>, fa: seq<seq<nat>>, hd: seq<nat>, base: nat,
                  pool: HypPool?, p: nat, o: nat,
                  pg': seq<HypPage>, fa': seq<seq<nat>>, hd': seq<nat>)
    requires Inv(pg, fa, hd, base, pool, -1, 0)
    requires p < |pg| && !pg[p].linked && pg[p].order == o + 1 && o + 1 <= MAX_ORDER
    requires p + Pow2(o) < |pg|
    requires pg' == pg[p := pg[p].(order := o)][p + Pow2(o) := pg[p + Pow2(o)].(order := o, linked := true)]
    requires fa' == fa[o := fa[o] + [p + Pow2(o)]]
    requires hd' == Rehead(hd, p + Pow2(o), o)
    ensures Inv(pg', fa', hd', base, pool, -1, 0)
    ensures forall j | 0 <= j < |pg| ::
              FreeAt(pg', hd', -1, j) == (FreeAt(pg, hd, -1, j) || p + Pow2(o) <= j < p + Pow2(o + 1))
  {
    var u := p + Pow2(o);
    SplitSetup(pg, fa, hd, base, pool, p, o);
    SplitHeads(pg, hd, base, p, o, u, pg', hd');
    SplitGroups(pg, hd, base, p, o, u, pg', hd');
    LinkLists(pg, fa, o, u, pg', fa');
    SplitCoalesced(pg, hd, base, p, o, u, pg');
    assert DescsOk(pg', pool) by {
      forall i | 0 <= i < |pg|
        ensures DescOk(pg', pool, i)
      {
        assert DescOk(pg, pool, i);
      }
    }
    SplitFree(pg, hd, base, p, o, u, pg', hd');
  }

  lemma SplitFree(pg: seq<HypPage>, hd: seq<nat>, base: nat, p: nat, o: nat, u: nat,
                  pg': seq<HypPage>, hd': seq<nat>)
    requires |hd| == |pg| && p < |pg| && SplitFacts(pg, hd, base, p, o, u)
    requires HeadsOk(pg, hd, -1, 0) && !pg[p].linked
    requires pg' == pg[p := pg[p].(order := o)][u := pg[u].(order := o, linked := true)]
    requires hd' == Rehead(hd, u, o)
    ensures forall j | 0 <= j < |pg| ::
              FreeAt(pg', hd', -1, j) == (FreeAt(pg, hd, -1, j) || u <= j < p + Pow2(o + 1))
  {
    forall j | 0 <= j < |pg|
      ensures FreeAt(pg', hd', -1, j) == (FreeAt(pg, hd, -1, j) || u <= j < p + Pow2(o + 1))
    {
      assert HeadOk(pg, hd, -1, 0, j);
    }
  }

  /** FindBuddy at a split: the upper half of an aligned group. */
  lemma SplitBuddy(pg: seq<HypPage>, fa: seq<seq<nat>>, hd: seq<nat>, base: nat,
                   pool: HypPool?, p: nat, o: nat)
    requires Inv(pg, fa, hd, base, pool, -1, 0)
    requires p < |pg| && pg[p].order == o + 1 && o + 1 <= MAX_ORDER
    ensures BuddyPfn(base + p, o) == base + p + Pow2(o) && p + Pow2(o) < |pg|
  {
    SplitSetup(pg, fa, hd, base, pool, p, o);
  }

  // ---------------------------------------------------------------------
  // Reference counts and the initial state

  /** Changing the reference count of an allocated group head. */
  lemma RefcountStep(pg: seq<HypPage>, fa: seq<seq<nat>>, hd: seq<nat>, base: nat,
                     pool: HypPool?, p: nat, rc: nat, pg': seq<HypPage>)
    requires Inv(pg, fa, hd, base, pool, -1, 0)
    requires p < |pg| && !pg[p].linked && pg[p].order != NO_ORDER
    requires pg' == pg[p := pg[p].(refcount := rc)]
    ensures Inv(pg', fa, hd, base, pool, -1, 0)
    ensures forall j | 0 <= j < |pg| :: FreeAt(pg', hd, -1, j) == FreeAt(pg, hd, -1, j)
  {
    assert hd[p] == p by {
      assert HeadOk(pg, hd, -1, 0, p);
    }
    Reorder(pg, hd, base, -1, 0, pg', -1, 0);
    assert DescsOk(pg', pool) by {
      forall i | 0 <= i < |pg|
        ensures DescOk(pg', pool, i)
      {
        assert DescOk(pg, pool, i);
      }
    }
    forall o: nat, i: nat | o <= MAX_ORDER && i in fa[o]
      ensures EntryOk(pg', o, i)
    {
      ListEntry(pg, fa, o, i);
    }
    forall i | 0 <= i < |pg'|
      ensures Listed(pg', fa, i)
    {
      assert Listed(pg, fa, i);
    }
    forall i | 0 <= i < |pg'| && pg'[i].linked && pg'[i].order < MAX_ORDER
      ensures !BuddyFree(pg', base, i, pg'[i].order)
    {
      assert !BuddyFree(pg, base, i, pg[i].order);
      var c := BuddyPfn(base + i, pg[i].order);
      if base <= c < base + |pg| && c - base != p {
        assert pg'[c - base] == pg[c - base];
      }
    }
  }

  /** A page of a free group has no references. */
  lemma FreeRefcount(pg: seq<HypPage>, fa: seq<seq<nat>>, hd: seq<nat>, base: nat,
                     pool: HypPool?, j: nat)
    requires Inv(pg, fa, hd, base, pool, -1, 0) && j < |pg| && FreeAt(pg, hd, -1, j)
    ensures pg[j].refcount == 0
  {
    assert HeadOk(pg, hd, -1, 0, j);
    if hd[j] == j {
      assert Listed(pg, fa, j);
      ListEntry(pg, fa, pg[j].order, j);
    }
  }

  /** A page with references, or one on no list with an order, heads an
      allocated group. */
  lemma AllocatedHead(pg: seq<HypPage>, fa: seq<seq<nat>>, hd: seq<nat>, base: nat,
                      pool: HypPool?, p: nat)
    requires Inv(pg, fa, hd, base, pool, -1, 0) && p < |pg| && pg[p].refcount != 0
    ensures !pg[p].linked && pg[p].order != NO_ORDER && hd[p] == p
  {
    assert HeadOk(pg, hd, -1, 0, p);
    assert Listed(pg, fa, p);
    if pg[p].linked {
      ListEntry(pg, fa, pg[p].order, p);
    }
  }

  /** hyp_pool_init before attaching: every page is an allocated group of
      order 0 and every free list is empty. */
  lemma InitialInv(pg: seq<HypPage>, fa: seq<seq<nat>>, hd: seq<nat>, base: nat, pool: HypPool?)
    requires forall i | 0 <= i < |pg| :: pg[i] == HypPage(0, 0, pool, false)
    requires |fa| == MAX_ORDER + 1 && forall o | 0 <= o <= MAX_ORDER :: fa[o] == []
    requires |hd| == |pg| && forall j | 0 <= j < |hd| :: hd[j] == j
    ensures Inv(pg, fa, hd, base, pool, -1, 0)
    ensures forall j | 0 <= j < |pg| :: !FreeAt(pg, hd, -1, j)
  {
    forall i | 0 <= i < |pg|
      ensures DescOk(pg, pool, i)
    {
      assert pg[i] == HypPage(0, 0, pool, false);
    }
    forall j | 0 <= j < |pg|
      ensures HeadOk(pg, hd, -1, 0, j)
    {
      assert pg[j] == HypPage(0, 0, pool, false);
    }
    forall h | 0 <= h < |pg|
      ensures GroupOk(pg, hd, base, -1, 0, h)
    {
      assert pg[h] == HypPage(0, 0, pool, false);
      assert Pow2(0) == 1;
    }
    forall i | 0 <= i < |pg|
      ensures Listed(pg, fa, i)
    {
      assert pg[i] == HypPage(0, 0, pool, false);
    }
    forall o | 0 <= o <= MAX_ORDER
      ensures NoDup(fa[o])
    {
      assert fa[o] == [];
    }
  }

  /** The buddy computed by XOR on physical addresses is BuddyPfn scaled
      to bytes. */
  lemma BuddyAddress(x: nat, order: nat)
    ensures Xor(x * PAGE_SIZE, Shl(PAGE_SIZE, order)) == BuddyPfn(x, order) * PAGE_SIZE
  {
    Pow2Page();
    ShlPow2(PAGE_SHIFT, order);
    ShlPow2(order, PAGE_SHIFT);
    ShlPage(x);
    XorShl(x, Pow2(order), PAGE_SHIFT);
    XorPow2(x, order);
    ShlPage(Xor(x, Pow2(order)));
  }

  // ---------------------------------------------------------------------
  // __hyp_attach_page as a whole: the loop invariant and its three steps

  /** Midway through attaching the group (p, k0) to the pool (pg0, hd0):
      the group being merged is at lo with order `order`, the free pages are
      the old ones plus the group being attached, and every other page is
      as it was. */
  ghost predicate AttachProgress(pg: seq<HypPage>, fa: seq<seq<nat>>, hd: seq<nat>, base: nat,
                                 pool: HypPool?, lo: nat, order: nat,
                                 pg0: seq<HypPage>, hd0: seq<nat>, p: nat, k0: nat)
  {
    && |hd| == |pg| && |pg0| == |pg| && |hd0| == |pg| && lo < |pg|
    && Inv(pg, fa, hd, base, pool, lo, order)
    && (forall j | 0 <= j < |pg| ::
          FreeAt(pg, hd, lo, j) == (FreeAt(pg0, hd0, -1, j) || p <= j < p + Pow2(k0)))
    && (forall j | 0 <= j < |pg| :: FreeAt(pg, hd, lo, j) || SamePage(pg0, hd0, pg, hd, j))
  }

  /** The pool (pg, hd) is (pg0, hd0) with the group of order k at p
      returned: its pages are free now, the pages free before stay free,
      and every page that is not free is as it was. */
  ghost predicate Attached(pg0: seq<HypPage>, hd0: seq<nat>, pg: seq<HypPage>, hd: seq<nat>, p: nat, k: nat)
  {
    && |pg0| == |pg| && |hd0| == |pg| && |hd| == |pg|
    && (forall j | 0 <= j < |pg| ::
          FreeAt(pg, hd, -1, j) == (FreeAt(pg0, hd0, -1, j) || p <= j < p + Pow2(k)))
    && (forall j | 0 <= j < |pg| :: FreeAt(pg, hd, -1, j) || SamePage(pg0, hd0, pg, hd, j))
  }

  lemma AttachBegin(pg0: seq<HypPage>, fa: seq<seq<nat>>, hd0: seq<nat>, base: nat,
                    pool: HypPool?, p: nat, pg: seq<HypPage>)
    requires Inv(pg0, fa, hd0, base, pool, -1, 0)
    requires p < |pg0| && pg0[p].order != NO_ORDER && !pg0[p].linked && pg0[p].refcount == 0
    requires pg == pg0[p := pg0[p].(order := NO_ORDER)]
    ensures AttachProgress(pg, fa, hd0, base, pool, p, pg0[p].order, pg0, hd0, p, pg0[p].order)
  {
    AttachStart(pg0, fa, hd0, base, pool, p, pg);
  }

  lemma AttachMerge(pg: seq<HypPage>, fa: seq<seq<nat>>, hd: seq<nat>, base: nat,
                    pool: HypPool?, lo: nat, order: nat,
                    pg0: seq<HypPage>, hd0: seq<nat>, p: nat, k0: nat,
                    b: nat, pg': seq<HypPage>, fa': seq<seq<nat>>, hd': seq<nat>)
    requires AttachProgress(pg, fa, hd, base, pool, lo, order, pg0, hd0, p, k0)
    requires order < MAX_ORDER
    requires BuddyFree(pg, base, lo, order) && base + b == BuddyPfn(base + lo, order)
    requires pg' == pg[b := pg[b].(order := NO_ORDER, linked := false)]
    requires fa' == fa[order := Remove(fa[order], b)]
    requires hd' == Rehead(hd, Min(lo, b), order + 1)
    ensures AttachProgress(pg', fa', hd', base, pool, Min(lo, b), order + 1, pg0, hd0, p, k0)
  {
    MergeStep(pg, fa, hd, base, pool, lo, order, b, pg', fa', hd');
  }

  lemma AttachEnd(pg: seq<HypPage>, fa: seq<seq<nat>>, hd: seq<nat>, base: nat,
                  pool: HypPool?, lo: nat, order: nat,
                  pg0: seq<HypPage>, hd0: seq<nat>, p: nat, k0: nat,
                  pg': seq<HypPage>, fa': seq<seq<nat>>)
    requires AttachProgress(pg, fa, hd, base, pool, lo, order, pg0, hd0, p, k0)
    requires order == MAX_ORDER || !BuddyFree(pg, base, lo, order)
    requires pg' == pg[lo := pg[lo].(order := order, linked := true)]
    requires fa' == fa[order := fa[order] + [lo]]
    ensures Inv(pg', fa', hd, base, pool, -1, 0)
    ensures Attached(pg0, hd0, pg', hd, p, k0)
  {
    assert GroupOk(pg, hd, base, lo, order, lo);
    AttachFinish(pg, fa, hd, base, pool, lo, order, pg', fa');
  }

  /** What __find_buddy finds, on the pool's descriptors: the buddy is free
      exactly when it lies in the range and its descriptor is on the free
      list of the same order. */
  lemma BuddyLookup(pg: seq<HypPage>, base: nat, rs: nat, re: nat, lo: nat, order: nat, r: Option<nat>)
    requires rs == base * PAGE_SIZE && re == rs + |pg| * PAGE_SIZE && lo < |pg|
    requires var c := BuddyPfn(base + lo, order);
      && (r.Some? <==> rs <= c * PAGE_SIZE < re)
      && (r.Some? ==> base + r.value == c)
    ensures r.Some? ==> r.value < |pg|
    ensures BuddyFree(pg, base, lo, order) <==>
      r.Some? && r.value < |pg| && pg[r.value].linked && pg[r.value].order == order
  {
  }

  // ---------------------------------------------------------------------
  // __hyp_extract_page as a whole

  /** Midway through extracting page p from the free group of order k of
      the pool (pg0, hd0): p is off every list, the pages of its current
      group are no longer free, the rest of the old group is, and nothing
      outside the old group has changed. */
  ghost predicate ExtractProgress(pg: seq<HypPage>, hd: seq<nat>, p: nat, k: nat,
                                  pg0: seq<HypPage>, hd0: seq<nat>)
  {
    && |hd| == |pg| && |pg0| == |pg| && |hd0| == |pg| && p < |pg|
    && !pg[p].linked && pg[p].order <= k <= MAX_ORDER
    && (forall j | 0 <= j < |pg| ::
          FreeAt(pg, hd, -1, j) == (FreeAt(pg0, hd0, -1, j) && !(p <= j < p + Pow2(pg[p].order))))
    && p + Pow2(k) <= |pg|
    && (forall j | p <= j < p + Pow2(k) :: FreeAt(pg0, hd0, -1, j))
    && (forall j | 0 <= j < |pg| :: p <= j < p + Pow2(k) || SamePage(pg0, hd0, pg, hd, j))
  }

  /** The pool (pg, hd) is (pg0, hd0) with the group of order `order` at p
      taken out of the free group of order k that p headed: those pages were
      free and are not any more, the other free pages stay free, and nothing
      outside the old group has changed. */
  ghost predicate Extracted(pg0: seq<HypPage>, hd0: seq<nat>, pg: seq<HypPage>, hd: seq<nat>,
                            p: nat, order: nat, k: nat)
  {
    && |pg0| == |pg| && |hd0| == |pg| && |hd| == |pg|
    && (forall j | 0 <= j < |pg| ::
          FreeAt(pg, hd, -1, j) == (FreeAt(pg0, hd0, -1, j) && !(p <= j < p + Pow2(order))))
    && p + Pow2(order) <= |pg|
    && (forall j | p <= j < p + Pow2(order) :: FreeAt(pg0, hd0, -1, j))
    && (forall j | 0 <= j < |pg| :: p <= j < p + Pow2(k) || SamePage(pg0, hd0, pg, hd, j))
  }

  lemma ExtractBegin(pg0: seq<HypPage>, fa0: seq<seq<nat>>, hd0: seq<nat>, base: nat,
                     pool: HypPool?, p: nat, k: nat, pg: seq<HypPage>, fa: seq<seq<nat>>)
    requires Inv(pg0, fa0, hd0, base, pool, -1, 0)
    requires k <= MAX_ORDER && p in fa0[k] && p < |pg0|
    requires pg == pg0[p := pg0[p].(linked := false)]
    requires fa == fa0[k := Remove(fa0[k], p)]
    ensures pg0[p].order == k
    ensures Inv(pg, fa, hd0, base, pool, -1, 0)
    ensures ExtractProgress(pg, hd0, p, k, pg0, hd0)
  {
    ExtractUnlink(pg0, fa0, hd0, base, pool, p, k, pg, fa);
    assert GroupOk(pg0, hd0, base, -1, 0, p);
    assert pg[p].order == k && !pg[p].linked;
    forall j | 0 <= j < |pg| && !(p <= j < p + Pow2(k))
      ensures SamePage(pg0, hd0, pg, hd0, j)
    {
    }
  }

  lemma ExtractSplit(pg: seq<HypPage>, fa: seq<seq<nat>>, hd: seq<nat>, base: nat, pool: HypPool?,
                     p: nat, k: nat, pg0: seq<HypPage>, hd0: seq<nat>, o: nat,
                     pg': seq<HypPage>, fa': seq<seq<nat>>, hd': seq<nat>)
    requires Inv(pg, fa, hd, base, pool, -1, 0) && ExtractProgress(pg, hd, p, k, pg0, hd0)
    requires pg[p].order == o + 1 && p + Pow2(o) < |pg|
    requires pg' == pg[p := pg[p].(order := o)][p + Pow2(o) := pg[p + Pow2(o)].(order := o, linked := true)]
    requires fa' == fa[o := fa[o] + [p + Pow2(o)]]
    requires hd' == Rehead(hd, p + Pow2(o), o)
    ensures Inv(pg', fa', hd', base, pool, -1, 0)
    ensures ExtractProgress(pg', hd', p, k, pg0, hd0)
  {
    SplitStep(pg, fa, hd, base, pool, p, o, pg', fa', hd');
    SplitProgress(pg, hd, p, k, pg0, hd0, o, pg', hd');
  }

  lemma SplitProgress(pg: seq<HypPage>, hd: seq<nat>, p: nat, k: nat,
                      pg0: seq<HypPage>, hd0: seq<nat>, o: nat, pg': seq<HypPage>, hd': seq<nat>)
    requires ExtractProgress(pg, hd, p, k, pg0, hd0)
    requires pg[p].order == o + 1 && p + Pow2(o) < |pg|
    requires pg' == pg[p := pg[p].(order := o)][p + Pow2(o) := pg[p + Pow2(o)].(order := o, linked := true)]
    requires hd' == Rehead(hd, p + Pow2(o), o)
    requires forall j | 0 <= j < |pg| ::
      FreeAt(pg', hd', -1, j) == (FreeAt(pg, hd, -1, j) || p + Pow2(o) <= j < p + Pow2(o + 1))
    ensures ExtractProgress(pg', hd', p, k, pg0, hd0)
  {
    Pow2Monotone(o + 1, k);
    assert Pow2(o + 1) == 2 * Pow2(o);
    forall j | 0 <= j < |pg|
      ensures FreeAt(pg', hd', -1, j) == (FreeAt(pg0, hd0, -1, j) && !(p <= j < p + Pow2(o)))
    {
      if p + Pow2(o) <= j < p + Pow2(o + 1) {
        assert FreeAt(pg0, hd0, -1, j);
      }
    }
    forall j | 0 <= j < |pg| && !(p <= j < p + Pow2(k))
      ensures SamePage(pg0, hd0, pg', hd', j)
    {
      assert SamePage(pg0, hd0, pg, hd, j);
    }
  }

  lemma ExtractEnd(pg: seq<HypPage>, fa: seq<seq<nat>>, hd: seq<nat>, base: nat, pool: HypPool?,
                   p: nat, k: nat, pg0: seq<HypPage>, hd0: seq<nat>, pg': seq<HypPage>)
    requires Inv(pg, fa, hd, base, pool, -1, 0) && ExtractProgress(pg, hd, p, k, pg0, hd0)
    requires pg' == pg[p := pg[p].(refcount := 1)]
    ensures Inv(pg', fa, hd, base, pool, -1, 0)
    ensures Extracted(pg0, hd0, pg', hd, p, pg[p].order, k)
  {
    RefcountStep(pg, fa, hd, base, pool, p, 1, pg');
    Pow2Monotone(pg[p].order, k);
    forall j | 0 <= j < |pg| && !(p <= j < p + Pow2(k))
      ensures SamePage(pg0, hd0, pg', hd, j)
    {
      assert SamePage(pg0, hd0, pg, hd, j);
    }
  }

  /** When splitting, the buddy of the lower half is the upper half. */
  lemma BuddyAt(base: nat, rs: nat, re: nat, n: nat, p: nat, o: nat, r: Option<nat>)
    requires rs == base * PAGE_SIZE && re == rs + n * PAGE_SIZE
    requires BuddyPfn(base + p, o) == base + p + Pow2(o) && p + Pow2(o) < n
    requires var c := BuddyPfn(base + p, o);
      && (r.Some? <==> rs <= c * PAGE_SIZE < re)
      && (r.Some? ==> base + r.value == c)
    ensures r == Some(p + Pow2(o))
  {
  }

  /** The lowest order at least `order` whose free list is not empty, or
      a value above MAX_ORDER when there is none. */
  function FirstFit(fa: seq<seq<nat>>, order: nat): (i: nat)
    requires |fa| == MAX_ORDER + 1
    ensures order <= i && (i <= MAX_ORDER ==> fa[i] != [])
    ensures forall o | order <= o < i && o <= MAX_ORDER :: fa[o] == []
    decreases MAX_ORDER + 1 - order
  {
    if order > MAX_ORDER || fa[order] != [] then order else FirstFit(fa, order + 1)
  }

  /** Attached composes with a change of reference count at p beforehand. */
  lemma AttachedFrom(pg0: seq<HypPage>, hd0: seq<nat>, pg1: seq<HypPage>, hd1: seq<nat>,
                     pg: seq<HypPage>, hd: seq<nat>, p: nat, k: nat)
    requires |pg0| == |pg1| == |hd0| && hd1 == hd0 && p < |pg0|
    requires forall j | 0 <= j < |pg0| && j != p :: pg1[j] == pg0[j]
    requires forall j | 0 <= j < |pg0| :: FreeAt(pg1, hd1, -1, j) == FreeAt(pg0, hd0, -1, j)
    requires Attached(pg1, hd1, pg, hd, p, k)
    ensures Attached(pg0, hd0, pg, hd, p, k)
  {
    forall j | 0 <= j < |pg|
      ensures FreeAt(pg, hd, -1, j) || SamePage(pg0, hd0, pg, hd, j)
    {
      assert FreeAt(pg, hd, -1, j) || SamePage(pg1, hd1, pg, hd, j);
      assert Pow2(k) >= 1;
    }
  }

  /** pool->range_end as hyp_pool_init computes it: `nr_pages << PAGE_SHIFT`
      is evaluated in the 32-bit type of nr_pages before it is added to the
      64-bit start address. */
  function RangeEndAsWritten(phys: nat, nrPages: nat): (r: nat)
    ensures nrPages * PAGE_SIZE < U32_LIMIT ==> r == phys + nrPages * PAGE_SIZE
  {
    phys + ShlPageU32(nrPages)
  }

  /** A pool of 2^20 pages (4 GiB) gets an empty range as written, where
      the intended range end is 4 GiB past its start. */
  lemma RangeEndWraps()
    ensures RangeEndAsWritten(0, 0x10_0000) == 0
    ensures 0x10_0000 * PAGE_SIZE == U32_LIMIT
  {
  }

  /** One round of the last loop of hyp_pool_init: attaching page i of a
      pool whose free pages are [used, i) and whose other pages are
      allocated groups of order 0 leaves the free pages [used, i + 1). */
  lemma AttachNext(pg0: seq<HypPage>, hd0: seq<nat>, pg: seq<HypPage>, hd: seq<nat>,
                   pool: HypPool?, used: nat, i: nat)
    requires used <= i < |pg0| && Attached(pg0, hd0, pg, hd, i, pg0[i].order)
    requires forall j | 0 <= j < |pg0| :: FreeAt(pg0, hd0, -1, j) == (used <= j < i)
    requires forall j | 0 <= j < |pg0| ::
      FreeAt(pg0, hd0, -1, j) || (pg0[j] == HypPage(0, 0, pool, false) && hd0[j] == j)
    ensures forall j | 0 <= j < |pg| :: FreeAt(pg, hd, -1, j) == (used <= j < i + 1)
    ensures forall j | 0 <= j < |pg| ::
      FreeAt(pg, hd, -1, j) || (pg[j] == HypPage(0, 0, pool, false) && hd[j] == j)
  {
    assert pg0[i].order == 0 && Pow2(0) == 1;
    forall j | 0 <= j < |pg|
      ensures FreeAt(pg, hd, -1, j) || (pg[j] == HypPage(0, 0, pool, false) && hd[j] == j)
    {
      assert FreeAt(pg, hd, -1, j) || SamePage(pg0, hd0, pg, hd, j);
    }
  }

  /** struct hyp_pool. `vmemmap` is the pool's slice of the descriptor table:
      entry i describes the page at rangeStart + i * PAGE_SIZE. The ghost
      field `head` records the head of each page's group, and `zeroed`
      records which pages clear_hyp_page has cleared. */
  class HypPool {
    var rangeStart: nat
    var rangeEnd: nat
    var freeArea: seq<seq<nat>>
    var vmemmap: array<HypPage>
    ghost var head: seq<nat>
    ghost var zeroed: seq<bool>

    /** A pool with an empty range, before hyp_pool_init. */
    constructor()
      ensures rangeStart == rangeEnd == 0 && vmemmap.Length == 0
    {
      rangeStart, rangeEnd := 0, 0;
      freeArea := seq(MAX_ORDER + 1, _ => []);
      vmemmap := new HypPage[0];
      head, zeroed := [], [];
    }

    /** The allocator invariant on a pool whose range is set up. */
    ghost predicate Valid()
      reads this, vmemmap
    {
      && rangeStart % PAGE_SIZE == 0
      && rangeEnd == rangeStart + vmemmap.Length * PAGE_SIZE
      && |zeroed| == vmemmap.Length
      && Inv(vmemmap[..], freeArea, head, rangeStart / PAGE_SIZE, this, -1, 0)
    }

    /** Page i of the pool lies in a free page group. */
    ghost predicate IsFree(i: nat)
      reads this, vmemmap
    {
      i < vmemmap.Length && |head| == vmemmap.Length && FreeAt(vmemmap[..], head, -1, i)
    }

    /** hyp_phys_to_page, as an index into the pool's descriptors. */
    function PageIndex(addr: nat): nat
      reads this
      requires rangeStart <= addr
    {
      (addr - rangeStart) / PAGE_SIZE
    }

    /** __find_buddy: the buddy of the group of order `order` at page p,
        when its first page lies inside the pool's range. */
    function FindBuddy(p: nat, order: nat): (r: Option<nat>)
      reads this
      requires rangeStart % PAGE_SIZE == 0
      ensures var c := BuddyPfn(rangeStart / PAGE_SIZE + p, order);
        && (r.Some? <==> rangeStart <= c * PAGE_SIZE < rangeEnd)
        && (r.Some? ==> rangeStart / PAGE_SIZE + r.value == c)
    {
      var addr := Xor(rangeStart + p * PAGE_SIZE, Shl(PAGE_SIZE, order));
      BuddyAddress(rangeStart / PAGE_SIZE + p, order);
      if addr < rangeStart || addr >= rangeEnd then None
      else Some((addr - rangeStart) / PAGE_SIZE)
    }

    /** The body of the coalescing loop of __hyp_attach_page: take the free
        buddy b off its list, clear its order, and go on from the lower of
        the two groups. */
    method MergeBuddy(lo: nat, order: nat, b: nat,
                      ghost pg0: seq<HypPage>, ghost hd0: seq<nat>, ghost p: nat, ghost k0: nat,
                      ghost fa0: seq<seq<nat>>, ghost merged: set<nat>)
      returns (lo': nat, ghost merged': set<nat>)
      requires AttachProgress(vmemmap[..], freeArea, head, rangeStart / PAGE_SIZE, this, lo, order, pg0, hd0, p, k0)
      requires |fa0| == MAX_ORDER + 1 && merged <= Members(fa0) && freeArea == DropAll(fa0, merged)
      requires order < MAX_ORDER
      requires BuddyFree(vmemmap[..], rangeStart / PAGE_SIZE, lo, order)
      requires rangeStart / PAGE_SIZE + b == BuddyPfn(rangeStart / PAGE_SIZE + lo, order)
      modifies this, vmemmap
      ensures unchanged(this`rangeStart, this`rangeEnd, this`vmemmap, this`zeroed)
      ensures lo' == Min(lo, b)
      ensures AttachProgress(vmemmap[..], freeArea, head, rangeStart / PAGE_SIZE, this, lo', order + 1, pg0, hd0, p, k0)
      ensures freeArea == old(freeArea)[order := Remove(old(freeArea[order]), b)]
      ensures merged' == merged + {b} && merged' <= Members(fa0) && freeArea == DropAll(fa0, merged')
    {
      ghost var pg, fa, hd := vmemmap[..], freeArea, head;
      FreeBuddyEntry(pg, fa, lo, order, b, rangeStart / PAGE_SIZE);
      assert Listed(pg, fa, b);
      forall o | 0 <= o <= MAX_ORDER && o != order
        ensures b !in fa[o]
      {
        if b in fa[o] {
          ListEntry(pg, fa, o, b);
        }
      }
      freeArea := freeArea[order := Remove(freeArea[order], b)];
      vmemmap[b] := vmemmap[b].(order := NO_ORDER, linked := false);
      head := Rehead(head, Min(lo, b), order + 1);
      assert vmemmap[..] == pg[b := pg[b].(order := NO_ORDER, linked := false)];
      AttachMerge(pg, fa, hd, rangeStart / PAGE_SIZE, this, lo, order, pg0, hd0, p, k0, b, vmemmap[..], freeArea, head);
      MergeLists(fa0, merged, b, order);
      merged' := merged + {b};
      lo' := if lo < b then lo else b;
    }

    /** The test of the coalescing loop of __hyp_attach_page: the buddy of
        the group headed by lo at this order, when it lies in the range and
        heads a free group of the same order. */
    method AvailableBuddy(lo: nat, order: nat) returns (b: Option<nat>)
      requires rangeStart % PAGE_SIZE == 0 && rangeEnd == rangeStart + vmemmap.Length * PAGE_SIZE
      requires lo < vmemmap.Length
      ensures b.Some? <==> BuddyFree(vmemmap[..], rangeStart / PAGE_SIZE, lo, order)
      ensures b.Some? ==> b.value < vmemmap.Length
      ensures b.Some? ==> rangeStart / PAGE_SIZE + b.value == BuddyPfn(rangeStart / PAGE_SIZE + lo, order)
    {
      var buddy := FindBuddy(lo, order);
      BuddyLookup(vmemmap[..], rangeStart / PAGE_SIZE, rangeStart, rangeEnd, lo, order, buddy);
      if buddy.None? || !vmemmap[buddy.value].linked || vmemmap[buddy.value].order != order {
        b := None;
      } else {
        b := buddy;
      }
    }

    /** The last step of __hyp_attach_page: give the merged group headed by
        lo its final order and add it at the tail of that order's free list. */
    method LinkGroup(lo: nat, order: nat,
                     ghost pg0: seq<HypPage>, ghost hd0: seq<nat>, ghost p: nat, ghost k0: nat,
                     ghost fa0: seq<seq<nat>>, ghost merged: set<nat>)
      requires AttachProgress(vmemmap[..], freeArea, head, rangeStart / PAGE_SIZE, this, lo, order, pg0, hd0, p, k0)
      requires |fa0| == MAX_ORDER + 1 && merged <= Members(fa0) && freeArea == DropAll(fa0, merged)
      requires order == MAX_ORDER || !BuddyFree(vmemmap[..], rangeStart / PAGE_SIZE, lo, order)
      modifies this, vmemmap
      ensures unchanged(this`rangeStart, this`rangeEnd, this`vmemmap, this`zeroed, this`head)
      ensures Inv(vmemmap[..], freeArea, head, rangeStart / PAGE_SIZE, this, -1, 0)
      ensures Attached(pg0, hd0, vmemmap[..], head, p, k0)
      ensures freeArea == old(freeArea)[order := old(freeArea[order]) + [lo]]
      ensures Relinked(fa0, freeArea, lo, order, merged)
    {
      ghost var pg, fa := vmemmap[..], freeArea;
      vmemmap[lo] := vmemmap[lo].(order := order, linked := true);
      freeArea := freeArea[order := freeArea[order] + [lo]];
      assert vmemmap[..] == pg[lo := pg[lo].(order := order, linked := true)];
      AttachEnd(pg, fa, head, rangeStart / PAGE_SIZE, this, lo, order, pg0, hd0, p, k0, vmemmap[..], freeArea);
      RelinkEnd(fa0, merged, lo, order);
    }

    /** __hyp_attach_page: return the group headed by p to the free lists,
        merging it with its free buddy as long as possible. */
    method AttachPage(p: nat)
      requires Valid() && p < vmemmap.Length
      requires vmemmap[p].order != NO_ORDER && !vmemmap[p].linked && vmemmap[p].refcount == 0
      modifies this, vmemmap
      ensures Valid()
      ensures unchanged(this`rangeStart, this`rangeEnd, this`vmemmap, this`zeroed)
      ensures Attached(old(vmemmap[..]), old(head), vmemmap[..], head, p, old(vmemmap[p].order))
      ensures exists lo, k, merged :: Relinked(old(freeArea), freeArea, lo, k, merged)
    {
      ghost var base := rangeStart / PAGE_SIZE;
      assert rangeStart == base * PAGE_SIZE;
      ghost var pg0, fa0, hd0 := vmemmap[..], freeArea, head;
      var order := vmemmap[p].order;
      ghost var k0 := order;
      vmemmap[p] := vmemmap[p].(order := NO_ORDER);
      assert vmemmap[..] == pg0[p := pg0[p].(order := NO_ORDER)];
      AttachBegin(pg0, freeArea, hd0, base, this, p, vmemmap[..]);
      ghost var merged: set<nat> := {};
      DropAllNothing(fa0);
      var lo := p;
      while order < MAX_ORDER
        invariant unchanged(this`rangeStart, this`rangeEnd, this`vmemmap, this`zeroed)
        invariant AttachProgress(vmemmap[..], freeArea, head, rangeStart / PAGE_SIZE, this, lo, order, pg0, hd0, p, k0)
        invariant merged <= Members(fa0) && freeArea == DropAll(fa0, merged)
        decreases MAX_ORDER - order
      {
        var buddy := AvailableBuddy(lo, order);
        if buddy.None? {
          break;
        }
        lo, merged := MergeBuddy(lo, order, buddy.value, pg0, hd0, p, k0, fa0, merged);
        order := order + 1;
      }
      LinkGroup(lo, order, pg0, hd0, p, k0, fa0, merged);
    }

    /** One round of the splitting loop of __hyp_extract_page: lower p's
        order and put the upper half, p's buddy at the new order, on the
        free list of that order. */
    method SplitOff(p: nat, ghost k: nat, ghost pg0: seq<HypPage>, ghost hd0: seq<nat>, ghost fa0: seq<seq<nat>>)
      requires Valid() && ExtractProgress(vmemmap[..], head, p, k, pg0, hd0)
      requires vmemmap[p].order > 0
      requires |fa0| == MAX_ORDER + 1 && k <= MAX_ORDER && freeArea == SplitLists(fa0, p, vmemmap[p].order, k)
      modifies this, vmemmap
      ensures Valid() && ExtractProgress(vmemmap[..], head, p, k, pg0, hd0)
      ensures freeArea == SplitLists(fa0, p, vmemmap[p].order, k)
      ensures unchanged(this`rangeStart, this`rangeEnd, this`vmemmap, this`zeroed)
      ensures vmemmap[p].order == old(vmemmap[p].order) - 1
      ensures var o := vmemmap[p].order; freeArea == old(freeArea)[o := old(freeArea[o]) + [p + Pow2(o)]]
    {
      ghost var base := rangeStart / PAGE_SIZE;
      assert rangeStart == base * PAGE_SIZE;
      ghost var pg, fa, hd := vmemmap[..], freeArea, head;
      var o := vmemmap[p].order - 1;
      SplitListsStep(fa0, p, o + 1, k);
      var b := UpperBuddy(p, o);
      SplitBuddy(pg, fa, hd, base, this, p, o);
      vmemmap[p] := vmemmap[p].(order := o);
      vmemmap[b] := vmemmap[b].(order := o, linked := true);
      freeArea := freeArea[o := freeArea[o] + [b]];
      head := Rehead(head, b, o);
      assert vmemmap[..] == pg[p := pg[p].(order := o)][b := pg[b].(order := o, linked := true)];
      ExtractSplit(pg, fa, hd, base, this, p, k, pg0, hd0, o, vmemmap[..], freeArea, head);
    }

    /** The splitting loop of __hyp_extract_page: halve the group at p until
        it has the requested order. */
    method SplitDown(p: nat, order: nat, ghost k: nat, ghost pg0: seq<HypPage>, ghost hd0: seq<nat>,
                     ghost fa0: seq<seq<nat>>)
      requires Valid() && ExtractProgress(vmemmap[..], head, p, k, pg0, hd0)
      requires |fa0| == MAX_ORDER + 1 && k <= MAX_ORDER
      requires order <= vmemmap[p].order && freeArea == SplitLists(fa0, p, vmemmap[p].order, k)
      modifies this, vmemmap
      ensures Valid() && ExtractProgress(vmemmap[..], head, p, k, pg0, hd0)
      ensures unchanged(this`rangeStart, this`rangeEnd, this`vmemmap, this`zeroed)
      ensures vmemmap[p].order == order && freeArea == SplitLists(fa0, p, order, k)
    {
      while vmemmap[p].order > order
        invariant Valid() && ExtractProgress(vmemmap[..], head, p, k, pg0, hd0)
        invariant unchanged(this`rangeStart, this`rangeEnd, this`vmemmap, this`zeroed)
        invariant order <= vmemmap[p].order
        invariant freeArea == SplitLists(fa0, p, vmemmap[p].order, k)
        decreases vmemmap[p].order
      {
        SplitOff(p, k, pg0, hd0, fa0);
      }
    }

    /** The __find_buddy lookup of a splitting round: the buddy of the
        lower half p at order o is the upper half. */
    method UpperBuddy(p: nat, o: nat) returns (b: nat)
      requires Valid() && p < vmemmap.Length && vmemmap[p].order == o + 1 && o + 1 <= MAX_ORDER
      ensures b == p + Pow2(o)
    {
      ghost var base := rangeStart / PAGE_SIZE;
      assert rangeStart == base * PAGE_SIZE;
      SplitBuddy(vmemmap[..], freeArea, head, base, this, p, o);
      var buddy := FindBuddy(p, o);
      BuddyAt(base, rangeStart, rangeEnd, vmemmap.Length, p, o, buddy);
      b := buddy.value;
    }

    /** __hyp_extract_page: take the free group headed by p off its list and
        split it until it has the requested order; the upper halves go back
        on the free lists. */
    method ExtractPage(p: nat, order: nat) returns (r: Option<nat>)
      requires Valid() && p < vmemmap.Length
      requires vmemmap[p].order != NO_ORDER ==> vmemmap[p].linked
      modifies this, vmemmap
      ensures Valid()
      ensures unchanged(this`rangeStart, this`rangeEnd, this`vmemmap, this`zeroed)
      ensures r.None? <==> old(vmemmap[p].order) == NO_ORDER || old(vmemmap[p].order) < order
      ensures r.None? ==> vmemmap[..] == old(vmemmap[..]) && freeArea == old(freeArea) && head == old(head)
      ensures r.Some? ==> r.value == p && vmemmap[p].order == order && !vmemmap[p].linked && vmemmap[p].refcount == 1
      ensures r.Some? ==>
        Extracted(old(vmemmap[..]), old(head), vmemmap[..], head, p, order, old(vmemmap[p].order))
      ensures r.Some? ==>
        old(vmemmap[p].order) <= MAX_ORDER && freeArea == SplitLists(old(freeArea), p, order, old(vmemmap[p].order))
    {
      if vmemmap[p].order == NO_ORDER || vmemmap[p].order < order {
        return None;
      }
      ghost var base := rangeStart / PAGE_SIZE;
      ghost var pg0, fa0, hd0 := vmemmap[..], freeArea, head;
      var k := vmemmap[p].order;
      assert Listed(pg0, fa0, p);
      freeArea := freeArea[k := Remove(freeArea[k], p)];
      SplitListsBegin(fa0, p, k);
      vmemmap[p] := vmemmap[p].(linked := false);
      assert vmemmap[..] == pg0[p := pg0[p].(linked := false)];
      ExtractBegin(pg0, fa0, hd0, base, this, p, k, vmemmap[..], freeArea);
      SplitDown(p, order, k, pg0, hd0, fa0);
      ghost var pg := vmemmap[..];
      vmemmap[p] := vmemmap[p].(refcount := 1);
      assert vmemmap[..] == pg[p := pg[p].(refcount := 1)];
      ExtractEnd(pg, freeArea, head, base, this, p, k, pg0, hd0, vmemmap[..]);
      r := Some(p);
    }

    /** clear_hyp_page: clear every page of the group headed by p. */
    method ClearPage(p: nat)
      requires Valid() && p < vmemmap.Length && vmemmap[p].order != NO_ORDER
      modifies this`zeroed
      ensures Valid() && |zeroed| == |old(zeroed)|
      ensures forall j | 0 <= j < |zeroed| ::
        zeroed[j] == (old(zeroed[j]) || p <= j < p + Pow2(vmemmap[p].order))
    {
      assert GroupOk(vmemmap[..], head, rangeStart / PAGE_SIZE, -1, 0, p);
      var i := 0;
      while i < Pow2(vmemmap[p].order)
        invariant i <= Pow2(vmemmap[p].order) && |zeroed| == |old(zeroed)|
        invariant forall j | 0 <= j < |zeroed| :: zeroed[j] == (old(zeroed[j]) || p <= j < p + i)
      {
        zeroed := zeroed[p + i := true];
        i := i + 1;
      }
    }

    /** hyp_alloc_pages (and __hyp_alloc_pages, with the pool lock left
        out): find the lowest non-empty free list of at least the requested
        order, take its first group and extract a group of that order from
        it, clearing it when the mask asks for HYP_GFP_ZERO. The result is
        the physical address of the group. */
    method AllocPages(mask: nat, order: nat) returns (r: Option<nat>)
      requires Valid()
      modifies this, vmemmap
      ensures Valid()
      ensures unchanged(this`rangeStart, this`rangeEnd, this`vmemmap)
      ensures r.None? <==> FirstFit(old(freeArea), order) > MAX_ORDER
      ensures r.None? ==>
        vmemmap[..] == old(vmemmap[..]) && freeArea == old(freeArea) && head == old(head) && zeroed == old(zeroed)
      ensures r.Some? ==> rangeStart <= r.value < rangeEnd && (r.value - rangeStart) % PAGE_SIZE == 0
      ensures r.Some? ==>
        var p := PageIndex(r.value);
        && p == old(freeArea[FirstFit(freeArea, order)][0])
        && vmemmap[p].order == order && !vmemmap[p].linked && vmemmap[p].refcount == 1
        && Extracted(old(vmemmap[..]), old(head), vmemmap[..], head, p, order, old(vmemmap[p].order))
        && freeArea == SplitLists(old(freeArea), p, order, FirstFit(old(freeArea), order))
        && freeArea[FirstFit(old(freeArea), order)] == old(freeArea[FirstFit(freeArea, order)][1..])
        && |zeroed| == |old(zeroed)|
        && (forall j | 0 <= j < |zeroed| ::
              zeroed[j] == (old(zeroed[j]) || (mask % 2 == HYP_GFP_ZERO && p <= j < p + Pow2(order))))
    {
      var i := order;
      while i <= MAX_ORDER && freeArea[i] == []
        invariant order <= i && FirstFit(freeArea, i) == FirstFit(freeArea, order)
        decreases MAX_ORDER + 1 - i
      {
        i := i + 1;
      }
      if i > MAX_ORDER {
        return None;
      }
      var addr := AllocFrom(mask, order, i);
      r := Some(addr);
    }

    /** The allocation from the head of the non-empty free list i, of an
        order at least the one requested. */
    method AllocFrom(mask: nat, order: nat, i: nat) returns (addr: nat)
      requires Valid() && order <= i <= MAX_ORDER && freeArea[i] != []
      modifies this, vmemmap
      ensures Valid()
      ensures unchanged(this`rangeStart, this`rangeEnd, this`vmemmap)
      ensures rangeStart <= addr < rangeEnd && (addr - rangeStart) % PAGE_SIZE == 0
      ensures var p := PageIndex(addr);
        && p == old(freeArea[i][0])
        && vmemmap[p].order == order && !vmemmap[p].linked && vmemmap[p].refcount == 1
        && Extracted(old(vmemmap[..]), old(head), vmemmap[..], head, p, order, old(vmemmap[p].order))
        && freeArea == SplitLists(old(freeArea), p, order, i)
        && freeArea[i] == old(freeArea[i][1..])
        && |zeroed| == |old(zeroed)|
        && (forall j | 0 <= j < |zeroed| ::
              zeroed[j] == (old(zeroed[j]) || (mask % 2 == HYP_GFP_ZERO && p <= j < p + Pow2(order))))
    {
      var p := freeArea[i][0];
      ListEntry(vmemmap[..], freeArea, i, p);
      SplitListsHead(freeArea, order, i);
      var q := ExtractPage(p, order);
      if mask % 2 == HYP_GFP_ZERO {
        ClearPage(p);
      }
      addr := rangeStart + p * PAGE_SIZE;
    }

    /** hyp_put_page, with the pool lock left out: drop a reference to the
        group at addr, handing it back to the free lists when the last one
        goes. Dropping a reference that is not there is fatal: the model
        reports it as `panicked` and changes nothing. */
    method PutPage(addr: nat) returns (panicked: bool)
      requires Valid() && rangeStart <= addr < rangeEnd
      modifies this, vmemmap
      ensures Valid()
      ensures unchanged(this`rangeStart, this`rangeEnd, this`vmemmap, this`zeroed)
      ensures var p := PageIndex(addr);
        && p < vmemmap.Length
        && (panicked <==> old(vmemmap[p].refcount) == 0)
        && (old(vmemmap[p].refcount) != 1 ==> freeArea == old(freeArea) && head == old(head))
        && (panicked ==> vmemmap[..] == old(vmemmap[..]))
        && (old(vmemmap[p].refcount) > 1 ==>
              vmemmap[..] == old(vmemmap[..])[p := old(vmemmap[p]).(refcount := old(vmemmap[p].refcount) - 1)])
        && (old(vmemmap[p].refcount) == 1 ==>
              && vmemmap[p].refcount == 0
              && Attached(old(vmemmap[..]), old(head), vmemmap[..], head, p, old(vmemmap[p].order))
              && exists lo, k, merged :: Relinked(old(freeArea), freeArea, lo, k, merged))
    {
      var p := PageIndex(addr);
      if vmemmap[p].refcount == 0 {
        return true;
      }
      ghost var pg, hd := vmemmap[..], head;
      AllocatedHead(pg, freeArea, head, rangeStart / PAGE_SIZE, this, p);
      vmemmap[p] := vmemmap[p].(refcount := vmemmap[p].refcount - 1);
      assert vmemmap[..] == pg[p := pg[p].(refcount := pg[p].refcount - 1)];
      RefcountStep(pg, freeArea, head, rangeStart / PAGE_SIZE, this, p, pg[p].refcount - 1, vmemmap[..]);
      if vmemmap[p].refcount == 0 {
        ghost var pg1, hd1 := vmemmap[..], head;
        AttachPage(p);
        AttachedFrom(pg, hd, pg1, hd1, vmemmap[..], head, p, pg[p].order);
        FreeRefcount(vmemmap[..], freeArea, head, rangeStart / PAGE_SIZE, this, p);
      }
      return false;
    }

    /** hyp_get_page, with the pool lock left out: take one more reference
        to the allocated group at addr. */
    method GetPage(addr: nat)
      requires Valid() && rangeStart <= addr < rangeEnd
      requires vmemmap[PageIndex(addr)].order != NO_ORDER && !vmemmap[PageIndex(addr)].linked
      modifies vmemmap
      ensures Valid()
      ensures var p := PageIndex(addr);
        vmemmap[..] == old(vmemmap[..])[p := old(vmemmap[p]).(refcount := old(vmemmap[p].refcount) + 1)]
      ensures forall j | 0 <= j < vmemmap.Length :: IsFree(j) == old(IsFree(j))
    {
      var p := PageIndex(addr);
      ghost var pg := vmemmap[..];
      vmemmap[p] := vmemmap[p].(refcount := vmemmap[p].refcount + 1);
      assert vmemmap[..] == pg[p := pg[p].(refcount := pg[p].refcount + 1)];
      RefcountStep(pg, freeArea, head, rangeStart / PAGE_SIZE, this, p, pg[p].refcount + 1, vmemmap[..]);
    }

    /** check_alloc_invariant: every descriptor of the range points back to
        this pool and has an order that is NO_ORDER or at most MAX_ORDER.
        The log line it prints is left out. */
    method CheckAllocInvariant() returns (ok: bool)
      requires rangeStart % PAGE_SIZE == 0 && rangeEnd == rangeStart + vmemmap.Length * PAGE_SIZE
      ensures ok <==> forall i | 0 <= i < vmemmap.Length :: DescOk(vmemmap[..], this, i)
      ensures Valid() ==> ok
    {
      ok := true;
      var phys := rangeStart;
      ghost var i := 0;
      while phys < rangeEnd
        invariant i <= vmemmap.Length && phys == rangeStart + i * PAGE_SIZE
        invariant ok <==> forall k | 0 <= k < i :: DescOk(vmemmap[..], this, k)
        decreases rangeEnd - phys
      {
        var q := vmemmap[PageIndex(phys)];
        assert PageIndex(phys) == i;
        assert DescOk(vmemmap[..], this, i) <==> q.pool == this && (q.order == NO_ORDER || q.order <= MAX_ORDER);
        ok := ok && q.pool == this && (q.order == NO_ORDER || q.order <= MAX_ORDER);
        phys := phys + PAGE_SIZE;
        i := i + 1;
      }
    }

    /** The vmemmap set-up of hyp_pool_init: nrPages cleared descriptors,
        each pointing back to this pool and on no list. */
    method NewDescriptors(nrPages: nat) returns (a: array<HypPage>)
      ensures fresh(a) && a.Length == nrPages
      ensures forall j | 0 <= j < nrPages :: a[j] == HypPage(0, 0, this, false)
    {
      a := new HypPage[nrPages](_ => HypPage(0, 0, null, false));
      var i := 0;
      while i < nrPages
        invariant i <= nrPages
        invariant forall j | 0 <= j < nrPages :: a[j] == HypPage(0, 0, if j < i then this else null, false)
      {
        a[i] := a[i].(pool := this, linked := false);
        i := i + 1;
      }
    }

    /** The last loop of hyp_pool_init: attach every page from usedPages on,
        in increasing order, to a pool whose pages are all allocated groups
        of order 0. */
    method AttachUnused(usedPages: nat)
      requires Valid()
      requires forall j | 0 <= j < vmemmap.Length ::
        vmemmap[j] == HypPage(0, 0, this, false) && head[j] == j
      modifies this, vmemmap
      ensures Valid()
      ensures unchanged(this`rangeStart, this`rangeEnd, this`vmemmap, this`zeroed)
      ensures forall j | 0 <= j < vmemmap.Length :: IsFree(j) == (usedPages <= j)
      ensures forall j | 0 <= j < vmemmap.Length && j < usedPages :: vmemmap[j] == HypPage(0, 0, this, false)
    {
      ghost var pg0 := vmemmap[..];
      forall j | 0 <= j < vmemmap.Length
        ensures !FreeAt(pg0, head, -1, j)
      {
        assert HeadOk(pg0, head, -1, 0, j);
      }
      var i := usedPages;
      while i < vmemmap.Length
        invariant Valid() && unchanged(this`rangeStart, this`rangeEnd, this`vmemmap, this`zeroed)
        invariant usedPages <= i
        invariant forall j | 0 <= j < vmemmap.Length :: FreeAt(vmemmap[..], head, -1, j) == (usedPages <= j < i)
        invariant forall j | 0 <= j < vmemmap.Length ::
          FreeAt(vmemmap[..], head, -1, j) || (vmemmap[..][j] == HypPage(0, 0, this, false) && head[j] == j)
      {
        ghost var pg, hd := vmemmap[..], head;
        assert !FreeAt(pg, hd, -1, i);
        AttachPage(i);
        AttachNext(pg, hd, vmemmap[..], head, this, usedPages, i);
        i := i + 1;
      }
    }

    /** hyp_pool_init, with the pool lock and the clearing of the backing
        vmemmap memory left out: give the pages [phys, phys + nrPages pages)
        to the pool, mark the first usedPages of them as allocated and
        attach the rest one page at a time. */
    method Init(phys: nat, nrPages: nat, usedPages: nat) returns (ret: int)
      modifies this
      ensures phys % PAGE_SIZE != 0 ==> ret == -EINVAL && unchanged(this)
      ensures phys % PAGE_SIZE == 0 ==>
        && ret == 0 && Valid() && fresh(vmemmap)
        && rangeStart == phys && rangeEnd == phys + nrPages * PAGE_SIZE && vmemmap.Length == nrPages
        && (forall j | 0 <= j < nrPages :: IsFree(j) == (usedPages <= j))
        && (forall j | 0 <= j < nrPages && j < usedPages :: vmemmap[j] == HypPage(0, 0, this, false))
    {
      if phys % PAGE_SIZE != 0 {
        return -EINVAL;
      }
      freeArea := seq(MAX_ORDER + 1, _ => []);
      rangeStart := phys;
      rangeEnd := phys + nrPages * PAGE_SIZE;
      var a := NewDescriptors(nrPages);
      vmemmap := a;
      head := seq(nrPages, j => j);
      zeroed := seq(nrPages, _ => false);
      InitialInv(a[..], freeArea, head, phys / PAGE_SIZE, this);
      AttachUnused(usedPages);
      var ok := CheckAllocInvariant();
      ret := 0;
    }
  }
}
