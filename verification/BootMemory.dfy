/**
 Boot memory handed to the page allocator: a range of pages cut into blocks, each of them freed into the zone.
 Page frame numbers are `off` more than page numbers of the map, and `off` is a multiple of the largest block.
 */
module BootMemory {
  import opened Basics
  import opened BuddyBlocks
  import opened BuddyZone
  import Memblock
  import opened MemTiles

  /** Moving by a multiple of the block size moves the blocks. */
  lemma {:induction false} FloorShift(x: nat, off: nat, k: nat)
    requires Aligned(off, k)
    ensures Floor(x + off, k) == Floor(x, k) + off
  {
    if k > 0 {
      FloorShift(x / 2, off / 2, k - 1);
      assert (x + off) / 2 == x / 2 + off / 2;
    }
  }

  /**
   What becomes of a range: all of it freed, a block linked that is not aligned, a buddy unlinked that is on no list.
   */
  datatype Fate = AllFreed | Unaligned | Unlisted

  /** No multiple of 2^32, other than zero, lies in the range. */
  ghost predicate NoMultiple(s: nat, e: int) { forall m: nat :: 0 < m && s <= m < e ==> !Aligned(m, 32) }

  /** The order of a block is zero where no bit is seen, or where nothing larger fits. */
  lemma OrderOfBlock(s: nat, e: nat, o: nat)
    requires s < e && o == Fit(s, e, FirstOrder(s))
    ensures s > 0 && Aligned(s, 32) ==> o == 0
    ensures (s == 0 || !Aligned(s, 32)) && s % 2 == 0 && s + 2 <= e ==> o >= 1
  {
    FfsAligned(s, 32);
    if s > 0 && Aligned(s, 32) && Ffs(s, 32) > 0 {
      FloorFloor(s, Ffs(s, 32), 32);
    }
  }

  lemma EvenBlock(s: nat, o: nat)
    requires Aligned(s, o) && o >= 1
    ensures s % 2 == 0 && Pow(o) % 2 == 0
  {
  }

  lemma NoneInside(s: nat, o: nat, m: nat)
    requires Aligned(s, o) && o <= 32 && s <= m < s + Pow(o) && Aligned(m, 32)
    ensures m == s
  {
    FloorFloor(m, o, 32);
    FloorRange(m, s, o);
  }

  /** A block of order at least one holds no multiple of 2^32 other than zero. */
  lemma BlockKeeps(s: nat, e: nat, o: nat)
    requires s < e && o == Fit(s, e, FirstOrder(s)) && 1 <= o <= MAX_ORDER && Aligned(s, o)
    ensures NoMultiple(s, s + Pow(o))
  {
    OrderOfBlock(s, e, o);
    forall m: nat | 0 < m && s <= m < s + Pow(o) ensures !Aligned(m, 32) {
      if Aligned(m, 32) {
        NoneInside(s, o, m);
      }
    }
  }

  /** The pages from `s` to `e` are not free. */
  ghost predicate Unused(ls: seq<seq<nat>>, off: nat, s: nat, e: nat)
    requires |ls| == MAX_ORDER + 1
  {
    forall x: nat :: s <= x + off < e ==> !Covered(ls, x)
  }

  /** Exactly the pages from `s` to `e` are free in addition. */
  ghost predicate GainsRange(ls: seq<seq<nat>>, ls': seq<seq<nat>>, off: nat, s: nat, e: nat)
    requires |ls| == |ls'| == MAX_ORDER + 1
  {
    forall x: nat :: Covered(ls', x) <==> Covered(ls, x) || s <= x + off < e
  }

  /** Page frame `q` is free. */
  ghost predicate FreeFrame(ls: seq<seq<nat>>, off: nat, q: nat)
    requires |ls| == MAX_ORDER + 1
  {
    q >= off && Covered(ls, q - off)
  }

  /**
   Each end of the range is even or has a free page beyond it, and no multiple of 2^32, other than zero, is in the
   range with a page behind it.
   */
  ghost predicate EndsFit(ls: seq<seq<nat>>, off: nat, s: nat, e: nat)
    requires |ls| == MAX_ORDER + 1
  {
    (s % 2 == 1 ==> FreeFrame(ls, off, s - 1)) && (e % 2 == 1 ==> FreeFrame(ls, off, e)) && NoMultiple(s, e - 1)
  }

  /** The block at `s` can be freed: it is aligned in the map, inside it, and none of its pages is free. */
  lemma BlockReady(ls: seq<seq<nat>>, ls': seq<seq<nat>>, off: nat, s0: nat, s: nat, e: nat, o: nat)
    requires |ls| == |ls'| == MAX_ORDER + 1 && Aligned(off, MAX_ORDER) && off <= s0 <= s && s + Pow(o) <= e
    requires o <= MAX_ORDER && Aligned(s, o) && Unused(ls, off, s0, e) && GainsRange(ls, ls', off, s0, s)
    ensures Open(ls', s - off, o)
  {
    BlockInMap(off, s, o);
    forall x: nat | Floor(x, o) == s - off ensures !Covered(ls', x) {
      FloorRange(x, s - off, o);
    }
  }

  lemma BlockInMap(off: nat, s: nat, o: nat)
    requires Aligned(off, MAX_ORDER) && off <= s && o <= MAX_ORDER && Aligned(s, o)
    ensures Aligned(s - off, o)
  {
    FloorFloor(off, o, MAX_ORDER);
    FloorShift(s - off, off, o);
  }

  lemma UnalignedInMap(off: nat, s: nat, o: nat)
    requires Aligned(off, MAX_ORDER) && off <= s && o <= MAX_ORDER && !Aligned(s, o)
    ensures !Aligned(s - off, o)
  {
    FloorFloor(off, o, MAX_ORDER);
    FloorShift(s - off, off, o);
  }

  lemma BlockFreed(ls: seq<seq<nat>>, ls1: seq<seq<nat>>, ls2: seq<seq<nat>>, off: nat, s0: nat, s: nat, o: nat)
    requires |ls| == |ls1| == |ls2| == MAX_ORDER + 1 && Aligned(off, MAX_ORDER) && off <= s0 <= s
    requires o <= MAX_ORDER && Aligned(s, o) && GainsRange(ls, ls1, off, s0, s) && Gains(ls1, ls2, s - off, o)
    ensures GainsRange(ls, ls2, off, s0, s + Pow(o))
  {
    BlockInMap(off, s, o);
    forall x: nat ensures Covered(ls2, x) <==> Covered(ls, x) || s0 <= x + off < s + Pow(o) {
      FloorRange(x, s - off, o);
    }
  }

  /** The buddy of a page that is not free is free exactly if it is a free block by itself. */
  lemma BuddyAlone(ls: seq<seq<nat>>, p: nat)
    requires |ls| == MAX_ORDER + 1 && !Covered(ls, p)
    ensures XorBit(p, 0) in ls[0] <==> Covered(ls, XorBit(p, 0))
  {
    var b := XorBit(p, 0);
    Buddies(p, 0);
    assert Floor(b, 0) == b;
    if Covered(ls, b) {
      var k :| 0 <= k <= MAX_ORDER && Floor(b, k) in ls[k];
      if k > 0 {
        FloorFloor(b, 1, k);
        FloorFloor(p, 1, k);
      }
    }
  }

  /** The page frame whose number differs in the lowest bit. */
  function Mate(s: nat): nat { if s % 2 == 0 then s + 1 else s - 1 }

  lemma EvenOffset(off: nat)
    requires Aligned(off, MAX_ORDER)
    ensures off % 2 == 0
  {
    FloorFloor(off, 1, MAX_ORDER);
  }

  lemma MateIsBuddy(ls: seq<seq<nat>>, off: nat, s: nat, o: nat)
    requires |ls| == MAX_ORDER + 1 && Aligned(off, MAX_ORDER) && off <= s && (o == 0 ==> !Covered(ls, s - off))
    ensures o == 0 ==> (XorBit(s - off, 0) in ls[0] <==> FreeFrame(ls, off, Mate(s)))
  {
    EvenOffset(off);
    if o == 0 {
      BuddyAlone(ls, s - off);
    }
  }

  lemma ReadyToFree(ls: seq<seq<nat>>, ls': seq<seq<nat>>, off: nat, s0: nat, s: nat, e: nat, o: nat)
    requires |ls| == |ls'| == MAX_ORDER + 1 && Aligned(off, MAX_ORDER) && off <= s0 <= s && s + Pow(o) <= e
    requires o <= MAX_ORDER && Aligned(s, o) && Unused(ls, off, s0, e) && GainsRange(ls, ls', off, s0, s)
    ensures Open(ls', s - off, o)
    ensures o == 0 ==> (XorBit(s - off, 0) in ls'[0] <==> FreeFrame(ls', off, Mate(s)))
  {
    BlockReady(ls, ls', off, s0, s, e, o);
    assert o == 0 ==> Floor(s - off, 0) == s - off;
    MateIsBuddy(ls', off, s, o);
  }

  /** One block is freed; a single page needs a free buddy. */
  method FreeBlock(zone: Zone, off: nat, ghost s0: nat, s: nat, ghost next: nat, ghost e: nat, order: nat,
                   ghost ls: seq<seq<nat>>)
    returns (outcome: Outcome)
    requires zone.Valid() && |ls| == MAX_ORDER + 1 && Aligned(off, MAX_ORDER) && off <= s0 <= s < e <= off + zone.n
    requires s + Pow(order) == next <= e && order <= MAX_ORDER && Aligned(s, order)
    requires Unused(ls, off, s0, e) && GainsRange(ls, zone.freeList[..], off, s0, s)
    modifies zone.private, zone.freeList, zone.nrFree
    ensures outcome == Freed <==> order >= 1 || FreeFrame(old(zone.freeList[..]), off, Mate(s))
    ensures outcome == Freed ==> zone.Valid() && GainsRange(ls, zone.freeList[..], off, s0, next)
  {
    ghost var before := zone.freeList[..];
    outcome := FreeReady(zone, off, s0, s, e, order, ls);
    if outcome == Freed {
      BlockFreed(ls, before, zone.freeList[..], off, s0, s, order);
    }
  }

  method FreeReady(zone: Zone, off: nat, ghost s0: nat, s: nat, ghost e: nat, order: nat, ghost ls: seq<seq<nat>>)
    returns (outcome: Outcome)
    requires zone.Valid() && |ls| == MAX_ORDER + 1 && Aligned(off, MAX_ORDER) && off <= s0 <= s < off + zone.n
    requires s + Pow(order) <= e && order <= MAX_ORDER && Aligned(s, order)
    requires Unused(ls, off, s0, e) && GainsRange(ls, zone.freeList[..], off, s0, s)
    modifies zone.private, zone.freeList, zone.nrFree
    ensures outcome == Freed <==> order >= 1 || FreeFrame(old(zone.freeList[..]), off, Mate(s))
    ensures outcome == Freed ==> zone.Valid() && Gains(old(zone.freeList[..]), zone.freeList[..], s - off, order)
    ensures outcome == Freed ==> Linked(zone.freeList[..], s - off, order, true)
  {
    ReadyToFree(ls, zone.freeList[..], off, s0, s, e, order);
    outcome := zone.FreeOnePage(s - off, order, true);
  }

  /**
   `__free_memory_core` on a range of pages that are not free yet: all blocks are aligned and freed, exactly the pages
   of the range are free in addition and the invariant of the zone holds, if and only if the range is tidy and its
   ends fit.  Otherwise a block that is not aligned is linked, after which the invariant does not hold, or the buddy
   that is unlinked is on no list; the model stops there.
   */
  method FreeRange(zone: Zone, off: nat, s0: nat, e: nat) returns (fate: Fate)
    requires zone.Valid() && Aligned(off, MAX_ORDER) && (s0 < e ==> off <= s0 && e <= off + zone.n)
    requires Unused(zone.freeList[..], off, s0, e)
    modifies zone.private, zone.freeList, zone.nrFree
    ensures fate == AllFreed <==> s0 >= e || (Tidy(s0, e) && EndsFit(old(zone.freeList[..]), off, s0, e))
    ensures fate == AllFreed ==> zone.Valid() && GainsRange(old(zone.freeList[..]), zone.freeList[..], off, s0, e)
    ensures fate == Unaligned ==> !Tidy(s0, e) && !Inv(zone.freeList[..], zone.n)
  {
    if s0 >= e {
      return AllFreed;
    }
    var s := s0;
    fate := AllFreed;
    ghost var ls := zone.freeList[..];
    while s < e
      invariant s0 <= s <= e && zone.Valid() && GainsRange(ls, zone.freeList[..], off, s0, s) && fate == AllFreed
      invariant (Tidy(s0, e) <==> (s < e ==> Tidy(s, e))) && SoFar(ls, off, s0, s, e)
    {
      fate, s := NextBlock(zone, off, s0, s, e, ls);
      if fate != AllFreed {
        return;
      }
    }
  }

  /** One round of the loop. */
  method NextBlock(zone: Zone, off: nat, ghost s0: nat, s: nat, e: nat, ghost ls: seq<seq<nat>>)
    returns (fate: Fate, next: nat)
    requires zone.Valid() && |ls| == MAX_ORDER + 1 && Aligned(off, MAX_ORDER) && off <= s0 <= s < e <= off + zone.n
    requires Unused(ls, off, s0, e) && GainsRange(ls, zone.freeList[..], off, s0, s) && SoFar(ls, off, s0, s, e)
    modifies zone.private, zone.freeList, zone.nrFree
    ensures fate == Unaligned ==> !Tidy(s, e) && !Inv(zone.freeList[..], zone.n)
    ensures fate == Unlisted ==> !EndsFit(ls, off, s0, e)
    ensures fate == AllFreed ==> s < next <= e && (Tidy(s, e) <==> (next < e ==> Tidy(next, e)))
    ensures fate == AllFreed ==> SoFar(ls, off, s0, next, e)
    ensures fate == AllFreed ==> zone.Valid() && GainsRange(ls, zone.freeList[..], off, s0, next)
  {
    var order, aligned;
    order, next, aligned := ChooseBlock(s, e);
    if !aligned {
      UnalignedInMap(off, s, order);
      zone.FreeUnaligned(s - off, order);
      return Unaligned, next;
    }
    ghost var before := zone.freeList[..];
    var outcome := FreeBlock(zone, off, s0, s, next, e, order, ls);
    BlockCounts(ls, before, off, s0, s, e, order, next, outcome == Freed);
    fate := if outcome == Freed then AllFreed else Unlisted;
  }

  /** The next block, and what it says about the whole range. */
  method ChooseBlock(s: nat, e: nat) returns (order: nat, next: nat, aligned: bool)
    requires s < e
    ensures IsBlock(s, e, order, next) && s < next && order <= MAX_ORDER && (aligned <==> Aligned(s, order))
    ensures Tidy(s, e) <==> aligned && (next < e ==> Tidy(next, e))
  {
    order := ChooseOrder(s, e);
    next := s + Pow(order);
    aligned := Aligned(s, order);
    FitBounds(s, e, order);
    TidyStep(s, e, order);
  }

  predicate IsBlock(s: nat, e: nat, o: nat, next: nat)
  {
    s < e && o == Fit(s, e, FirstOrder(s)) && next == s + Pow(o) <= e
  }

  /** What the blocks so far say about the ends. */
  ghost predicate SoFar(ls: seq<seq<nat>>, off: nat, s0: nat, s: nat, e: nat)
    requires |ls| == MAX_ORDER + 1
  {
    if s < e then (s > s0 ==> s0 % 2 == 0 && s % 2 == 0) && NoMultiple(s0, s) else EndsFit(ls, off, s0, e)
  }

  lemma BlockCounts(ls: seq<seq<nat>>, before: seq<seq<nat>>, off: nat, s0: nat, s: nat, e: nat, o: nat, next: nat,
                    freed: bool)
    requires |ls| == |before| == MAX_ORDER + 1 && Aligned(off, MAX_ORDER) && off <= s0 <= s < e
    requires SoFar(ls, off, s0, s, e)
    requires IsBlock(s, e, o, next) && o <= MAX_ORDER && Aligned(s, o) && s < next
    requires Unused(ls, off, s0, e) && GainsRange(ls, before, off, s0, s)
    requires freed <==> o >= 1 || FreeFrame(before, off, Mate(s))
    ensures if freed then SoFar(ls, off, s0, next, e) else !EndsFit(ls, off, s0, e)
  {
    if o >= 1 {
      BlockEven(s0, s, e, o, next);
    } else if s % 2 == 1 {
      OddFirst(s, e);
      EvenOffset(off);
      assert FreeFrame(before, off, s - 1) <==> FreeFrame(ls, off, s - 1);
    } else {
      OrderOfBlock(s, e, o);
      assert FreeFrame(before, off, s + 1) <==> FreeFrame(ls, off, s + 1);
    }
  }

  /** An odd page gets a block of its own only if it is the last one. */
  lemma OddFirst(s: nat, e: nat)
    requires s < e && s % 2 == 1 && Fit(s, e, FirstOrder(s)) == 0
    ensures e == s + 1
  {
    assert Ffs(s, 32) == 1;
  }

  lemma BlockEven(s0: nat, s: nat, e: nat, o: nat, next: nat)
    requires s0 <= s < e && o == Fit(s, e, FirstOrder(s)) && 1 <= o <= MAX_ORDER && Aligned(s, o) && next == s + Pow(o)
    requires NoMultiple(s0, s)
    ensures s % 2 == 0 && next % 2 == 0 && NoMultiple(s0, next)
  {
    EvenBlock(s, o);
    BlockKeeps(s, e, o);
    forall m: nat | 0 < m && s0 <= m < next ensures !Aligned(m, 32) {
    }
  }

  // ----- all ranges -----

  /** The page frames that are freed for an address range. */
  function Pages(range: (nat, nat), limit: nat): (nat, nat) { (PfnUp(range.0), Min(PfnDown(range.1), limit)) }

  /** A range of page frames that can be freed where nothing around it is free. */
  ghost predicate Even(p: (nat, nat)) {
    p.0 < p.1 ==> Tidy(p.0, p.1) && p.0 % 2 == 0 && p.1 % 2 == 0 && NoMultiple(p.0, p.1)
  }

  /** Page frame `q` is one of the pages of the first `n` ranges. */
  ghost predicate Among(ranges: seq<(nat, nat)>, n: nat, limit: nat, q: nat) {
    exists i :: 0 <= i < n <= |ranges| && Pages(ranges[i], limit).0 <= q < Pages(ranges[i], limit).1
  }

  /** The range lies in the map, and ends below the last page of the address space. */
  predicate InMap(range: (nat, nat), off: nat, n: nat) {
    PAGE_SIZE * off <= range.0 <= range.1 <= PAGE_SIZE * (off + n) && range.1 + PAGE_SIZE <= U64
  }

  predicate AllInMap(ranges: seq<(nat, nat)>, off: nat, n: nat) {
    forall i :: 0 <= i < |ranges| ==> InMap(ranges[i], off, n)
  }

  /** Exactly the pages of the first `n` ranges are free. */
  ghost predicate FreeAre(ls: seq<seq<nat>>, off: nat, ranges: seq<(nat, nat)>, n: nat, limit: nat)
    requires |ls| == MAX_ORDER + 1
  {
    forall x: nat :: Covered(ls, x) <==> Among(ranges, n, limit, x + off)
  }

  /** Pages of earlier ranges lie below those of later ones. */
  lemma PagesAscend(ranges: seq<(nat, nat)>, i: nat, j: nat, limit: nat, off: nat, n: nat)
    requires Memblock.Ascending(ranges) && AllInMap(ranges, off, n) && i < j < |ranges|
    ensures Pages(ranges[i], limit).1 <= Pages(ranges[j], limit).0
  {
    assert ranges[i].1 <= ranges[j].0 <= ranges[j].1;
  }

  /** Before range `i`, its own pages and the ones beside it are not free. */
  lemma NothingNear(ls: seq<seq<nat>>, off: nat, ranges: seq<(nat, nat)>, i: nat, limit: nat, n: nat)
    requires |ls| == MAX_ORDER + 1 && FreeAre(ls, off, ranges, i, limit) && i < |ranges|
    requires Memblock.Ascending(ranges) && AllInMap(ranges, off, n)
    requires forall j :: 0 <= j < i ==> Even(Pages(ranges[j], limit))
    ensures var (s, e) := Pages(ranges[i], limit);
            Unused(ls, off, s, e) && (s < e ==> (Even((s, e)) <==> Tidy(s, e) && EndsFit(ls, off, s, e)))
  {
    var (s, e) := Pages(ranges[i], limit);
    forall j | 0 <= j < i ensures Pages(ranges[j], limit).1 <= s {
      PagesAscend(ranges, j, i, limit, off, n);
    }
    if s < e {
      assert !FreeFrame(ls, off, e);
      assert s % 2 == 1 ==> !FreeFrame(ls, off, s - 1);
      if e % 2 == 0 {
        LastIsOdd(s, e);
      }
    }
  }

  /** The last page of an even range is no multiple. */
  lemma LastIsOdd(s: nat, e: nat)
    requires s < e && e % 2 == 0
    ensures NoMultiple(s, e) <==> NoMultiple(s, e - 1)
  {
    if Aligned(e - 1, 32) {
      FloorFloor(e - 1, 1, 32);
    }
  }

  lemma OneMore(ls: seq<seq<nat>>, ls': seq<seq<nat>>, off: nat, ranges: seq<(nat, nat)>, i: nat, limit: nat)
    requires |ls| == |ls'| == MAX_ORDER + 1 && i < |ranges| && FreeAre(ls, off, ranges, i, limit)
    requires GainsRange(ls, ls', off, Pages(ranges[i], limit).0, Pages(ranges[i], limit).1)
    ensures FreeAre(ls', off, ranges, i + 1, limit)
  {
  }

  lemma PagesInMap(range: (nat, nat), limit: nat, off: nat, n: nat)
    requires InMap(range, off, n)
    ensures var (s, e) := Pages(range, limit); s < e ==> off <= s && e <= off + n
    ensures forall q: nat :: Pages(range, limit).0 <= q < Pages(range, limit).1 <==> Whole(q, range.0, range.1, limit)
  {
    WholePages(range.0, range.1, limit);
  }

  /** The ranges are freed one after the other. */
  method FreeRanges(zone: Zone, off: nat, ranges: seq<(nat, nat)>, limit: nat) returns (ok: bool)
    requires zone.Valid() && Aligned(off, MAX_ORDER) && FreeAre(zone.freeList[..], off, ranges, 0, limit)
    requires Memblock.Ascending(ranges) && AllInMap(ranges, off, zone.n)
    modifies zone.private, zone.freeList, zone.nrFree
    ensures ok <==> forall i :: 0 <= i < |ranges| ==> Even(Pages(ranges[i], limit))
    ensures ok ==> zone.Valid() && FreeAre(zone.freeList[..], off, ranges, |ranges|, limit)
  {
    var i := 0;
    while i < |ranges|
      invariant i <= |ranges| && zone.Valid() && FreeAre(zone.freeList[..], off, ranges, i, limit)
      invariant forall j :: 0 <= j < i ==> Even(Pages(ranges[j], limit))
    {
      ghost var ls := zone.freeList[..];
      var (s, e) := Pages(ranges[i], limit);
      NothingNear(ls, off, ranges, i, limit, zone.n);
      PagesInMap(ranges[i], limit, off, zone.n);
      var fate := FreeRange(zone, off, s, e);
      if fate != AllFreed {
        return false;
      }
      OneMore(ls, zone.freeList[..], off, ranges, i, limit);
      i := i + 1;
    }
    ok := true;
  }

  /** Every region lies in the map, and ends below the last page of the address space. */
  predicate Mapped(mem: seq<Memblock.Region>, off: nat, n: nat) {
    forall i :: 0 <= i < |mem| ==> InMap((mem[i].base, Memblock.End(mem[i])), off, n)
  }

  /** Page frame `q` lies wholly in one of the ranges, and below the limit. */
  predicate WholeIn(ranges: seq<(nat, nat)>, limit: nat, q: nat) {
    exists i :: 0 <= i < |ranges| && Whole(q, ranges[i].0, ranges[i].1, limit)
  }

  /**
   `free_low_memory_core_early` into a zone in which nothing is free: exactly the whole pages of the ranges that are
   memory and not reserved end up free, if and only if every range is tidy, begins and ends at even pages and holds no
   multiple of 2^32 other than zero.
   */
  method FreeLowMemory(zone: Zone, off: nat, mem: seq<Memblock.Region>, res: seq<Memblock.Region>, maxLowPfn: nat)
    returns (ok: bool, ranges: seq<(nat, nat)>)
    requires zone.Valid() && Aligned(off, MAX_ORDER) && forall x: nat :: !Covered(zone.freeList[..], x)
    requires Memblock.Sorted(mem) && Memblock.Sorted(res) && Mapped(mem, off, zone.n)
    modifies zone.private, zone.freeList, zone.nrFree
    ensures Memblock.Exactly(ranges, mem, res)
    ensures ok <==> forall i :: 0 <= i < |ranges| ==> Even(Pages(ranges[i], maxLowPfn))
    ensures ok ==> zone.Valid() && forall x: nat :: Covered(zone.freeList[..], x) <==>
              WholeIn(ranges, maxLowPfn, x + off)
  {
    ranges := Memblock.FreeRanges(mem, res);
    ok := FreeRanges(zone, off, ranges, maxLowPfn);
    forall q: nat ensures Among(ranges, |ranges|, maxLowPfn, q) <==> WholeIn(ranges, maxLowPfn, q) {
      AmongIsWhole(ranges, maxLowPfn, q, off, zone.n);
    }
  }

  lemma AmongIsWhole(ranges: seq<(nat, nat)>, limit: nat, q: nat, off: nat, n: nat)
    requires AllInMap(ranges, off, n)
    ensures Among(ranges, |ranges|, limit, q) <==> WholeIn(ranges, limit, q)
  {
    forall i | 0 <= i < |ranges|
      ensures Pages(ranges[i], limit).0 <= q < Pages(ranges[i], limit).1 <==> Whole(q, ranges[i].0, ranges[i].1, limit)
    {
      PagesInMap(ranges[i], limit, off, n);
    }
  }
}
