/**
 The page allocator's zone: free lists per order, their counters, and the order recorded in the
 first page of every free block.
 */
module BuddyZone {
  import opened Basics
  import opened BuddyBlocks

  /** `Corrupted`: a page that is on no list was about to be unlinked from one. */
  datatype Outcome = Freed | Corrupted

  class Zone {
    const n: nat                       // pages in the map
    const private: array<nat>          // per page
    const freeList: array<seq<nat>>    // per order
    const nrFree: array<int>           // per order

    ghost predicate Shape()
      reads this
    {
      private.Length == n && freeList.Length == MAX_ORDER + 1 && nrFree.Length == MAX_ORDER + 1 &&
      private as object != nrFree
    }

    /** A page records the order of the free block it starts, and zero otherwise. */
    ghost predicate Orders()
      requires Shape()
      reads this, private, freeList
    {
      forall p :: 0 <= p < n ==>
        (private[p] != 0 ==> private[p] <= MAX_ORDER && p in freeList[private[p]]) &&
        (forall k :: 0 <= k <= MAX_ORDER && p in freeList[k] ==> private[p] == k)
    }

    ghost predicate Valid()
      reads this, private, freeList, nrFree
    {
      Shape() && Inv(freeList[..], n) && Orders() &&
      forall k :: 0 <= k <= MAX_ORDER ==> nrFree[k] == |freeList[k]|
    }

    /** `zone_init_free_lists` on a map of `m` largest blocks: nothing is free yet. */
    constructor (m: nat)
      ensures Valid() && n == 1024 * m && forall k :: 0 <= k <= MAX_ORDER ==> freeList[k] == []
      ensures fresh(private) && fresh(freeList) && fresh(nrFree)
    {
      n := 1024 * m;
      private := new nat[1024 * m](_ => 0);
      freeList := new seq<nat>[MAX_ORDER + 1](_ => []);
      nrFree := new int[MAX_ORDER + 1](_ => 0);
      new;
      assert Pow(10) == 1024 by {
        assert Pow(5) == 32;
      }
      MultipleIsAligned(m, MAX_ORDER);
    }

    /** Unlink a free block and clear its recorded order. */
    method DelPageFromFreeList(p: nat, order: nat)
      requires Valid() && order <= MAX_ORDER && p in freeList[order]
      modifies private, freeList, nrFree
      ensures Valid() && freeList[..] == old(freeList[..])[order := Without(old(freeList[order]), p)]
      ensures Open(freeList[..], p, order) && Gains(freeList[..], old(freeList[..]), p, order)
    {
      ghost var ls := freeList[..];
      Remove(ls, n, p, order);
      freeList[order] := Without(freeList[order], p);
      assert freeList[..] == ls[order := Without(ls[order], p)];
      private[p] := 0;
      nrFree[order] := nrFree[order] - 1;
    }

    /** Link a block at the head or the tail of its list and record its order. */
    method AddToFreeList(p: nat, order: nat, tail: bool)
      requires Valid() && p < n && Open(freeList[..], p, order)
      requires order < MAX_ORDER ==> XorBit(p, order) !in freeList[order]
      modifies private, freeList, nrFree
      ensures Valid() && Gains(old(freeList[..]), freeList[..], p, order)
      ensures freeList[..] ==
                old(freeList[..])[order := if tail then old(freeList[order]) + [p] else [p] + old(freeList[order])]
    {
      ghost var ls := freeList[..];
      ghost var l := if tail then ls[order] + [p] else [p] + ls[order];
      Insert(ls, n, p, order, l);
      freeList[order] := if tail then freeList[order] + [p] else [p] + freeList[order];
      assert freeList[..] == ls[order := l];
      private[p] := order;
      nrFree[order] := nrFree[order] + 1;
    }

    /**
     `find_buddy_page_pfn`: the page whose number differs in bit `order`, accepted if its recorded
     order is right.  From order one on that means a free block of this order; order zero is recorded
     for every page that starts no free block of a higher order.
     */
    method FindBuddy(p: nat, order: nat) returns (buddy: nat, found: bool)
      requires Valid() && p < n && order < MAX_ORDER
      ensures buddy == XorBit(p, order) < n
      ensures order >= 1 ==> (found <==> buddy in freeList[order])
      ensures order == 0 && Open(freeList[..], p, 0) ==> found
    {
      FloorFloor(n, order, MAX_ORDER);
      FloorFloor(n, order + 1, MAX_ORDER);
      Inside(p, order, n);
      buddy := XorBit(p, order);
      found := private[buddy] == order;
      if order == 0 && private[buddy] != 0 {
        NoHigherBuddy(p, private[buddy]);
      }
    }

    /** A page whose buddy starts a larger free block lies in that block. */
    lemma NoHigherBuddy(p: nat, k: nat)
      requires Shape() && Inv(freeList[..], n) && 1 <= k <= MAX_ORDER && XorBit(p, 0) in freeList[k]
      ensures Covered(freeList[..], p)
    {
      var b := XorBit(p, 0);
      Buddies(p, 0);
      assert Floor(b, 1) == Floor(p, 1);
      FloorFloor(b, 1, k);
      FloorFloor(p, 1, k);
      assert Floor(p, k) in freeList[..][k];
    }

    /** `buddy_merge_likely`: whether the next merge is likely soon; it decides where to link a block. */
    method MergeLikely(p: nat, buddy: nat, order: nat) returns (likely: bool)
      requires Valid() && p < n && Aligned(p, order) && (order < MAX_ORDER ==> buddy == XorBit(p, order))
      ensures likely <==> order + 1 < MAX_ORDER && XorBit(Floor(p, order + 1), order + 1) in freeList[order + 1]
    {
      if order >= MAX_ORDER - 1 {
        return false;
      }
      var higher := And(buddy, p);
      Combined(p, order);
      FloorFloor(n, order + 1, MAX_ORDER);
      Inside(p, order + 1, n);
      var _, found := FindBuddy(higher, order + 1);
      return found;
    }

    /** Merge with a free buddy: one round of the loop. */
    method Absorb(p: nat, buddy: nat, order: nat) returns (q: nat)
      requires Valid() && p < n && order < MAX_ORDER && Open(freeList[..], p, order)
      requires buddy == XorBit(p, order) && buddy in freeList[order]
      modifies private, freeList, nrFree
      ensures Valid() && q == Floor(p, order + 1) < n && Open(freeList[..], q, order + 1)
      ensures SamePages(old(freeList[..]), p, order, freeList[..], q, order + 1)
    {
      ghost var ls := freeList[..];
      DelPageFromFreeList(buddy, order);
      q := And(buddy, p);
      Joined(ls, freeList[..], p, order);
      FloorFloor(n, order + 1, MAX_ORDER);
      Inside(p, order + 1, n);
      Combined(p, order);
    }

    /** The loop of `free_one_page`: as long as the buddy is found, the block grows by it. */
    method Merge(pfn: nat, order0: nat) returns (outcome: Outcome, p: nat, order: nat, buddy: nat)
      requires Valid() && pfn < n && Open(freeList[..], pfn, order0)
      modifies private, freeList, nrFree
      ensures outcome == Freed <==> order0 >= 1 || XorBit(pfn, 0) in old(freeList[0])
      ensures outcome == Corrupted ==> freeList[..] == old(freeList[..])
      ensures outcome == Freed ==>
                Valid() && order0 <= order && p == Floor(pfn, order) < n && Open(freeList[..], p, order)
      ensures outcome == Freed ==> (order < MAX_ORDER ==> buddy == XorBit(p, order) && buddy !in freeList[order])
      ensures outcome == Freed ==> SamePages(old(freeList[..]), pfn, order0, freeList[..], p, order)
    {
      p, order, buddy := pfn, order0, 0;
      var found := true;
      while order < MAX_ORDER && found
        invariant Valid() && p == Floor(pfn, order) < n && order0 <= order && Open(freeList[..], p, order)
        invariant SamePages(old(freeList[..]), pfn, order0, freeList[..], p, order)
        invariant !found ==> order < MAX_ORDER && buddy == XorBit(p, order) && buddy !in freeList[order]
        invariant order == 0 ==> freeList[..] == old(freeList[..]) && p == pfn && found
        invariant order > order0 == 0 ==> XorBit(pfn, 0) in old(freeList[0])
        decreases MAX_ORDER - order, found
      {
        outcome, found, buddy, p, order := MergeRound(old(freeList[..]), pfn, order0, p, order);
        if outcome == Corrupted {
          return;
        }
      }
      outcome := Freed;
    }

    /** One round: the block grows, or its buddy is not free. */
    method MergeRound(ghost ls0: seq<seq<nat>>, ghost pfn: nat, ghost order0: nat, p: nat, order: nat)
      returns (outcome: Outcome, found: bool, buddy: nat, p': nat, order': nat)
      requires Valid() && p == Floor(pfn, order) < n && order0 <= order < MAX_ORDER && Open(freeList[..], p, order)
      requires |ls0| == MAX_ORDER + 1 && SamePages(ls0, pfn, order0, freeList[..], p, order)
      modifies private, freeList, nrFree
      ensures outcome == Corrupted <==> order == 0 && XorBit(p, 0) !in old(freeList[0])
      ensures outcome == Corrupted || !found ==> freeList[..] == old(freeList[..])
      ensures outcome == Freed ==> Valid() && p' == Floor(pfn, order') < n && Open(freeList[..], p', order')
      ensures outcome == Freed ==> SamePages(ls0, pfn, order0, freeList[..], p', order')
      ensures outcome == Freed ==> order' == (if found then order + 1 else order) && (order == 0 ==> found)
      ensures outcome == Freed && !found ==> p' == p && buddy == XorBit(p, order) && buddy !in freeList[order]
    {
      FloorFloor(pfn, order, order + 1);
      ghost var ls := freeList[..];
      outcome, found, buddy, p' := TryAbsorb(p, order);
      order' := order;
      if outcome == Freed && found {
        SamePagesAgain(ls0, pfn, order0, ls, p, order, freeList[..], p', order + 1);
        order' := order + 1;
      }
    }

    /** One round of the loop. */
    method TryAbsorb(p: nat, order: nat) returns (outcome: Outcome, found: bool, buddy: nat, q: nat)
      requires Valid() && p < n && order < MAX_ORDER && Open(freeList[..], p, order)
      modifies private, freeList, nrFree
      ensures buddy == XorBit(p, order) && (outcome == Corrupted <==> order == 0 && buddy !in old(freeList[0]))
      ensures !found || outcome == Corrupted ==> freeList[..] == old(freeList[..])
      ensures outcome == Freed ==> Valid() && (found <==> buddy in old(freeList[order]))
      ensures outcome == Freed && !found ==> q == p
      ensures outcome == Freed && found ==> q == Floor(p, order + 1) < n && Open(freeList[..], q, order + 1)
      ensures outcome == Freed && found ==> SamePages(old(freeList[..]), p, order, freeList[..], q, order + 1)
    {
      outcome, q := Freed, p;
      buddy, found := FindBuddy(p, order);
      if found {
        if buddy !in freeList[order] {
          outcome := Corrupted;
          return;
        }
        q := Absorb(p, buddy, order);
      }
    }

    /** `free_one_page`. */
    method FreeOnePage(pfn: nat, order0: nat, toTail: bool) returns (outcome: Outcome)
      requires Valid() && pfn < n && Open(freeList[..], pfn, order0)
      modifies private, freeList, nrFree
      ensures outcome == Freed <==> order0 >= 1 || XorBit(pfn, 0) in old(freeList[0])
      ensures outcome == Freed ==> Valid() && Gains(old(freeList[..]), freeList[..], pfn, order0)
      ensures outcome == Corrupted ==> freeList[..] == old(freeList[..])
      ensures outcome == Freed ==> Linked(freeList[..], pfn, order0, toTail)
    {
      var p, order, buddy;
      outcome, p, order, buddy := Merge(pfn, order0);
      if outcome == Corrupted {
        return;
      }
      var tail := toTail;
      if !toTail {
        tail := MergeLikely(p, buddy, order);
      }
      AddToFreeList(p, order, tail);
      assert LinkedAt(freeList[..], Floor(pfn, order), order, toTail);
    }

    /**
     `free_one_page` on a block that is not aligned: its buddy is not aligned and so not free, nothing is merged, and
     the block is linked at the tail as it is.  The lists are not right any more.
     */
    method FreeUnaligned(pfn: nat, order: nat)
      requires Valid() && pfn < n && order <= MAX_ORDER && !Aligned(pfn, order)
      modifies private, freeList, nrFree
      ensures freeList[..] == old(freeList[..])[order := old(freeList[order]) + [pfn]] && !Inv(freeList[..], n)
      ensures private[..] == old(private[..])[pfn := order]
      ensures nrFree[..] == old(nrFree[..])[order := old(nrFree[order]) + 1]
    {
      if order < MAX_ORDER {
        var buddy, found := FindBuddy(pfn, order);
        BuddyUnaligned(pfn, order);
        assert !found;
      }
      freeList[order] := freeList[order] + [pfn];
      private[pfn] := order;
      nrFree[order] := nrFree[order] + 1;
      assert pfn in freeList[..][order];
    }

    /** Give the upper half of a block back. */
    method GiveUpper(p: nat, size: nat, k: nat)
      requires Valid() && p < n && k < MAX_ORDER && Open(freeList[..], p, k + 1) && size == Pow(k)
      modifies private, freeList, nrFree
      ensures Valid() && Open(freeList[..], p, k)
      ensures SamePages(old(freeList[..]), p, k + 1, freeList[..], p, k)
      ensures freeList[..] == old(freeList[..])[k := [p + Pow(k)] + old(freeList[k])]
    {
      ghost var ls := freeList[..];
      var upper := p + size;
      UpperReady(ls, n, p, k, upper);
      AddToFreeList(upper, k, false);
      LowerLeft(ls, freeList[..], n, p, k, upper);
    }

    /** `expand`: give the upper halves back until a block of order `low` is left at `p`. */
    method Expand(p: nat, low: nat, high0: nat)
      requires Valid() && p < n && low <= high0 && Open(freeList[..], p, high0)
      modifies private, freeList, nrFree
      ensures Valid() && Open(freeList[..], p, low)
      ensures SamePages(old(freeList[..]), p, high0, freeList[..], p, low)
      ensures Halved(old(freeList[..]), freeList[..], p, low, high0)
    {
      var high, size := high0, Pow(high0);
      while high > low
        invariant Valid() && low <= high <= high0 && size == Pow(high) && Open(freeList[..], p, high)
        invariant SamePages(old(freeList[..]), p, high0, freeList[..], p, high)
        invariant Halved(old(freeList[..]), freeList[..], p, high, high0)
      {
        high := high - 1;
        size := size / 2;
        ghost var ls := freeList[..];
        GiveUpper(p, size, high);
        SamePagesAgain(old(freeList[..]), p, high0, ls, p, high + 1, freeList[..], p, high);
        HalvedMore(old(freeList[..]), ls, freeList[..], p, high, high0);
      }
    }

    /**
     `__rmqueue_smallest`: the first block of the smallest order that has one, cut down to size;
     `None` exactly when no free block is large enough.
     */
    method RmqueueSmallest(order: nat) returns (page: Option<nat>)
      requires Valid()
      modifies private, freeList, nrFree
      ensures Valid()
      ensures page.None? <==> forall k :: order <= k <= MAX_ORDER ==> old(freeList[k]) == []
      ensures page.None? ==> freeList[..] == old(freeList[..])
      ensures page.Some? ==>
                page.value < n && Open(freeList[..], page.value, order) &&
                Gains(freeList[..], old(freeList[..]), page.value, order)
      ensures page.Some? ==> Taken(old(freeList[..]), freeList[..], order, page.value)
    {
      var current := order;
      while current <= MAX_ORDER
        invariant order <= current && Valid() && freeList[..] == old(freeList[..])
        invariant forall k :: order <= k < current && k <= MAX_ORDER ==> freeList[k] == []
      {
        if freeList[current] != [] {
          var p := freeList[current][0];
          DelPageFromFreeList(p, current);
          Expand(p, order, current);
          assert TakenAt(old(freeList[..]), freeList[..], order, p, current);
          return Some(p);
        }
        current := current + 1;
      }
      return None;
    }
  }

  /** The upper half of a block may be given back on its own. */
  lemma UpperReady(ls: seq<seq<nat>>, n: nat, p: nat, k: nat, u: nat)
    requires Inv(ls, n) && k < MAX_ORDER && p < n && Open(ls, p, k + 1) && u == p + Pow(k)
    ensures u < n && Open(ls, u, k) && XorBit(u, k) !in ls[k]
  {
    HalfFacts(n, p, k, u);
    forall x | Floor(x, k) == u ensures !Covered(ls, x) {
      Halves(p, k, x);
    }
    assert p !in ls[k] by {
      assert !Covered(ls, p);
    }
  }

  lemma HalfFacts(n: nat, p: nat, k: nat, u: nat)
    requires Aligned(n, MAX_ORDER) && k < MAX_ORDER && p < n && Aligned(p, k + 1) && u == p + Pow(k)
    ensures Aligned(p, k) && Aligned(u, k) && XorBit(p, k) == u && XorBit(u, k) == p && u < n && u != p
  {
    FloorFloor(p, k, k + 1);
    UpperHalf(p, k);
    Buddies(p, k);
    FloorFloor(n, k + 1, MAX_ORDER);
    FloorFloor(n, k, MAX_ORDER);
    Inside(p, k, n);
  }

  /** What is left when the upper half has been given back. */
  lemma LowerLeft(ls: seq<seq<nat>>, ls': seq<seq<nat>>, n: nat, p: nat, k: nat, u: nat)
    requires Inv(ls, n) && |ls'| == MAX_ORDER + 1 && k < MAX_ORDER && p < n && Open(ls, p, k + 1) && u == p + Pow(k)
    requires Gains(ls, ls', u, k)
    ensures Open(ls', p, k)
    ensures SamePages(ls, p, k + 1, ls', p, k)
  {
    HalfFacts(n, p, k, u);
    forall x ensures Floor(x, k + 1) == p <==> Floor(x, k) == p || Floor(x, k) == u {
      Halves(p, k, x);
    }
  }

  /** The free pages and those of a block, before and after a step that changes both. */
  ghost predicate SamePages(ls: seq<seq<nat>>, p: nat, k: nat, ls': seq<seq<nat>>, p': nat, k': nat)
    requires |ls| == |ls'| == MAX_ORDER + 1
  {
    forall x {:trigger Covered(ls, x)} {:trigger Covered(ls', x)} ::
      Covered(ls', x) || Floor(x, k') == p' <==> Covered(ls, x) || Floor(x, k) == p
  }

  lemma SamePagesAgain(ls: seq<seq<nat>>, p: nat, k: nat, ls1: seq<seq<nat>>, p1: nat, k1: nat, ls2: seq<seq<nat>>,
                       p2: nat, k2: nat)
    requires |ls| == |ls1| == |ls2| == MAX_ORDER + 1 && SamePages(ls, p, k, ls1, p1, k1)
    requires SamePages(ls1, p1, k1, ls2, p2, k2)
    ensures SamePages(ls, p, k, ls2, p2, k2)
  {
  }

  /** The upper halves of the block at `p`, from order `high` down to `low`, have been put before their lists. */
  ghost predicate Halved(ls: seq<seq<nat>>, ls': seq<seq<nat>>, p: nat, low: nat, high: nat) {
    |ls| == |ls'| == MAX_ORDER + 1 &&
    forall k :: 0 <= k <= MAX_ORDER ==> ls'[k] == if low <= k < high then [p + Pow(k)] + ls[k] else ls[k]
  }

  lemma HalvedMore(ls: seq<seq<nat>>, ls1: seq<seq<nat>>, ls2: seq<seq<nat>>, p: nat, low: nat, high: nat)
    requires Halved(ls, ls1, p, low + 1, high) && low < high <= MAX_ORDER
    requires ls2 == ls1[low := [p + Pow(low)] + ls1[low]]
    ensures Halved(ls, ls2, p, low, high)
  {
  }

  /** The first block of order `k`, the smallest sufficient one with a block, has been cut down to `order`. */
  ghost predicate TakenAt(ls: seq<seq<nat>>, ls': seq<seq<nat>>, order: nat, p: nat, k: nat) {
    order <= k <= MAX_ORDER < |ls| && ls[k] != [] && p == ls[k][0] && (forall j :: order <= j < k ==> ls[j] == []) &&
    Halved(ls[k := Without(ls[k], p)], ls', p, order, k)
  }

  ghost predicate Taken(ls: seq<seq<nat>>, ls': seq<seq<nat>>, order: nat, p: nat) {
    exists k :: TakenAt(ls, ls', order, p, k)
  }

  /** The block is the last one of its list if that is asked for or its own buddy may soon merge; else the first one. */
  predicate LinkedAt(ls: seq<seq<nat>>, p: nat, k: nat, toTail: bool) {
    |ls| == MAX_ORDER + 1 && k <= MAX_ORDER && ls[k] != [] &&
    var likely := k + 1 < MAX_ORDER && XorBit(Floor(p, k + 1), k + 1) in ls[k + 1];
    (if toTail || likely then ls[k][|ls[k]| - 1] else ls[k][0]) == p
  }

  /** Taking a buddy off its list and joining it to a block gives a block of the next order. */
  lemma Joined(ls: seq<seq<nat>>, ls': seq<seq<nat>>, p: nat, k: nat)
    requires |ls| == |ls'| == MAX_ORDER + 1 && k < MAX_ORDER && Open(ls, p, k)
    requires Open(ls', XorBit(p, k), k) && Gains(ls', ls, XorBit(p, k), k)
    ensures var q := And(XorBit(p, k), p);
            && Open(ls', q, k + 1)
            && SamePages(ls, p, k, ls', q, k + 1)
  {
    var q := And(XorBit(p, k), p);
    Combined(p, k);
    FloorFloor(p, k + 1, k + 1);
    forall x ensures Floor(x, k + 1) == q <==> Floor(x, k) == p || Floor(x, k) == XorBit(p, k) {
      Halves(p, k, x);
    }
  }

  // ----- runs -----

  datatype Request = Alloc(order: nat) | Free(pfn: nat)

  /** Page `x` is in a block that has been handed out. */
  ghost predicate HeldAt(held: map<nat, nat>, x: nat) {
    exists p :: p in held && Floor(x, held[p]) == p
  }

  /** Blocks handed out: inside the map, not free, and disjoint from each other. */
  ghost predicate Held(zone: Zone, held: map<nat, nat>)
    requires zone.Shape()
    reads zone, zone.freeList
  {
    (forall p :: p in held ==> p < zone.n && Open(zone.freeList[..], p, held[p])) &&
    forall p, q, x: nat :: p in held && q in held && Floor(x, held[p]) == p && Floor(x, held[q]) == q ==> p == q
  }

  lemma HeldMore(held: map<nat, nat>, p: nat, k: nat, x: nat)
    requires p !in held
    ensures HeldAt(held[p := k], x) <==> HeldAt(held, x) || Floor(x, k) == p
  {
    if HeldAt(held, x) {
      var q :| q in held && Floor(x, held[q]) == q;
      assert q in held[p := k];
    }
    assert p in held[p := k];
  }

  /** Free and handed-out pages together are the same before and after. */
  ghost predicate Conserved(ls: seq<seq<nat>>, held: map<nat, nat>, ls': seq<seq<nat>>, held': map<nat, nat>)
    requires |ls| == |ls'| == MAX_ORDER + 1
  {
    forall x :: Covered(ls', x) || HeldAt(held', x) <==> Covered(ls, x) || HeldAt(held, x)
  }

  /** No free block of the order or a higher one. */
  predicate NoneLarge(ls: seq<seq<nat>>, order: nat) { forall k :: order <= k < |ls| ==> ls[k] == [] }

  /** Free lists and blocks handed out. */
  datatype Stage = Stage(lists: seq<seq<nat>>, held: map<nat, nat>)

  ghost predicate Handed(a: Stage, b: Stage, order: nat, p: nat) {
    p !in a.held && b.held == a.held[p := order] && Taken(a.lists, b.lists, order, p)
  }

  /** What a request does: a block is handed out unless none is large enough, or its pages become free. */
  ghost predicate Answered(r: Request, a: Stage, b: Stage) {
    match r
    case Alloc(order) =>
      if NoneLarge(a.lists, order) then b == a else exists p: nat :: Handed(a, b, order, p)
    case Free(pfn) =>
      if pfn !in a.held then b == a
      else |a.lists| == |b.lists| == MAX_ORDER + 1 && b.held == a.held - {pfn} &&
           Gains(a.lists, b.lists, pfn, a.held[pfn]) && Linked(b.lists, pfn, a.held[pfn], false)
  }

  /** The block that a freed one has grown to is linked. */
  ghost predicate Linked(ls: seq<seq<nat>>, pfn: nat, order: nat, toTail: bool) {
    exists k :: order <= k <= MAX_ORDER && LinkedAt(ls, Floor(pfn, k), k, toTail)
  }

  lemma HandedOut(ls: seq<seq<nat>>, held: map<nat, nat>, ls': seq<seq<nat>>, order: nat, p: nat)
    requires Taken(ls, ls', order, p) && p !in held
    ensures Answered(Alloc(order), Stage(ls, held), Stage(ls', held[p := order]))
  {
    assert Handed(Stage(ls, held), Stage(ls', held[p := order]), order, p);
  }

  method ServeAlloc(zone: Zone, held: map<nat, nat>, order: nat) returns (held': map<nat, nat>)
    requires zone.Valid() && Held(zone, held)
    modifies zone.private, zone.freeList, zone.nrFree
    ensures zone.Valid() && Held(zone, held') && Conserved(old(zone.freeList[..]), held, zone.freeList[..], held')
    ensures Answered(Alloc(order), Stage(old(zone.freeList[..]), held), Stage(zone.freeList[..], held'))
  {
    var page := zone.RmqueueSmallest(order);
    held' := held;
    if page.Some? {
      var p := page.value;
      held' := held[p := order];
      assert p !in held by {
        assert Floor(p, order) == p;
      }
      HandedOut(old(zone.freeList[..]), held, zone.freeList[..], order, p);
      forall x ensures HeldAt(held', x) <==> HeldAt(held, x) || Floor(x, order) == p {
        HeldMore(held, p, order, x);
      }
    }
  }

  method ServeFree(zone: Zone, held: map<nat, nat>, pfn: nat) returns (held': map<nat, nat>, outcome: Outcome)
    requires zone.Valid() && Held(zone, held) && pfn in held
    modifies zone.private, zone.freeList, zone.nrFree
    ensures outcome == Freed <==> held[pfn] >= 1 || XorBit(pfn, 0) in old(zone.freeList[0])
    ensures held' == held - {pfn}
    ensures outcome == Freed ==>
              Answered(Free(pfn), Stage(old(zone.freeList[..]), held), Stage(zone.freeList[..], held'))
    ensures outcome == Freed ==>
              zone.Valid() && Held(zone, held') && Conserved(old(zone.freeList[..]), held, zone.freeList[..], held')
    ensures outcome == Corrupted ==> zone.freeList[..] == old(zone.freeList[..])
  {
    outcome := zone.FreeOnePage(pfn, held[pfn], false);
    held' := held - {pfn};
    assert held == held'[pfn := held[pfn]];
    forall x ensures HeldAt(held, x) <==> HeldAt(held', x) || Floor(x, held[pfn]) == pfn {
      HeldMore(held', pfn, held[pfn], x);
    }
  }

  /**
   A whole run: requests are served in turn, where a free names a block handed out before.  The run
   goes through, with the free lists in order and no page lost or handed out twice, unless a
   single page is freed whose buddy is not a free single page.
   */
  method Serve(zone: Zone, held0: map<nat, nat>, requests: seq<Request>)
    returns (held: map<nat, nat>, served: nat, ghost trace: seq<Stage>)
    requires zone.Valid() && Held(zone, held0)
    modifies zone.private, zone.freeList, zone.nrFree
    ensures served == |requests| ==> zone.Valid() && Held(zone, held)
    ensures served == |requests| ==> Conserved(old(zone.freeList[..]), held0, zone.freeList[..], held)
    ensures served <= |requests| && |trace| == served + 1 && trace[0] == Stage(old(zone.freeList[..]), held0)
    ensures trace[served] == Stage(zone.freeList[..], held)
    ensures forall i :: 0 <= i < served ==> Answered(requests[i], trace[i], trace[i + 1])
    ensures served < |requests| ==>
              var r := requests[served];
              r.Free? && r.pfn in held && held[r.pfn] == 0 && XorBit(r.pfn, 0) !in zone.freeList[0]
  {
    held, served, trace := held0, 0, [Stage(zone.freeList[..], held0)];
    while served < |requests|
      invariant served <= |requests| && zone.Valid() && Held(zone, held)
      invariant Conserved(old(zone.freeList[..]), held0, zone.freeList[..], held)
      invariant |trace| == served + 1 && trace[0] == Stage(old(zone.freeList[..]), held0)
      invariant trace[served] == Stage(zone.freeList[..], held)
      invariant forall i :: 0 <= i < served ==> Answered(requests[i], trace[i], trace[i + 1])
    {
      match requests[served] {
        case Alloc(order) =>
          held := ServeAlloc(zone, held, order);
        case Free(pfn) =>
          if pfn in held {
            ghost var ls := zone.freeList[..];
            var held', outcome := ServeFree(zone, held, pfn);
            if outcome == Corrupted {
              assert zone.freeList[..][0] == ls[0];
              return;
            }
            held := held';
          }
      }
      trace := trace + [Stage(zone.freeList[..], held)];
      served := served + 1;
    }
  }

  /** Freeing the only page handed out of an otherwise reserved zone goes wrong. */
  method LonePage() returns (zone: Zone, outcome: Outcome)
    ensures outcome == Corrupted
  {
    zone := new Zone(1);
    forall x ensures !Covered(zone.freeList[..], x) {
    }
    outcome := zone.FreeOnePage(0, 0, false);
  }
}
