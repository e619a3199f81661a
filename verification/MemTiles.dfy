/**
 How the boot code cuts a free range into blocks for the page allocator (`__free_memory_core`).
 */
module MemTiles {
  import opened Basics
  import opened BuddyBlocks

  const PAGE_SIZE: nat := 4096

  /** The number, counted from one, of the lowest bit that is set among the low `w` bits; zero if there is none. */
  function Ffs(x: nat, w: nat): nat {
    if w == 0 then 0
    else if x % 2 == 1 then 1
    else if Ffs(x / 2, w - 1) == 0 then 0 else Ffs(x / 2, w - 1) + 1
  }

  lemma {:induction false} FfsAligned(x: nat, w: nat)
    ensures var f := Ffs(x, w);
            f <= w && (f == 0 ==> Aligned(x, w)) && (f > 0 ==> Aligned(x, f - 1) && !Aligned(x, f))
  {
    if w > 0 && x % 2 == 0 {
      FfsAligned(x / 2, w - 1);
    }
  }

  /** The order a block at `s` starts from: 32 bits of the page number are looked at. */
  function FirstOrder(s: nat): nat { if s != 0 then Min(MAX_ORDER, Ffs(s, 32)) else MAX_ORDER }

  /** The largest order up to `k` whose block fits. */
  function Fit(s: nat, e: nat, k: nat): (o: nat)
    requires s < e
    ensures o <= k && s + Pow(o) <= e && (o < k ==> s + Pow(o + 1) > e)
  {
    if s + Pow(k) <= e then k else Fit(s, e, k - 1)
  }

  lemma {:induction false} PowGrows(j: nat, k: nat)
    requires j <= k
    ensures 1 <= Pow(j) <= Pow(k)
  {
    if j > 0 {
      PowGrows(j - 1, k - 1);
    } else if k > 0 {
      PowGrows(0, k - 1);
    }
  }

  /** The blocks, as first page and order. */
  function Tiles(s: nat, e: nat): seq<(nat, nat)>
    decreases e - s
  {
    if s >= e then [] else
    var o := Fit(s, e, FirstOrder(s));
    PowGrows(0, o);
    [(s, o)] + Tiles(s + Pow(o), e)
  }

  /** The order of the block at `s`. */
  method ChooseOrder(s: nat, e: nat) returns (order: nat)
    requires s < e
    ensures order == Fit(s, e, FirstOrder(s))
  {
    order := if s != 0 then Min(MAX_ORDER, Ffs(s, 32)) else MAX_ORDER;
    ghost var first := order;
    while s + Pow(order) > e
      invariant Fit(s, e, first) == Fit(s, e, order)
      decreases order
    {
      order := order - 1;
    }
  }

  lemma TilesNext(s: nat, e: nat, o: nat)
    requires s < e && o == Fit(s, e, FirstOrder(s))
    ensures s < s + Pow(o) <= e && Tiles(s, e) == [(s, o)] + Tiles(s + Pow(o), e)
  {
    PowGrows(0, o);
  }

  /** The loop over the blocks, with the calls it makes. */
  method FreeBlocks(startPfn: nat, endPfn: nat) returns (blocks: seq<(nat, nat)>, s: nat)
    ensures blocks == Tiles(startPfn, endPfn) && s == if startPfn < endPfn then endPfn else startPfn
  {
    blocks, s := [], startPfn;
    while s < endPfn
      invariant startPfn <= s && (s <= endPfn || s == startPfn) && Tiles(startPfn, endPfn) == blocks + Tiles(s, endPfn)
    {
      var order := ChooseOrder(s, endPfn);
      TilesNext(s, endPfn, order);
      ghost var rest := Tiles(s + Pow(order), endPfn);
      assert blocks + ([(s, order)] + rest) == blocks + [(s, order)] + rest;
      blocks := blocks + [(s, order)];
      s := s + Pow(order);
    }
  }

  function PfnUp(x: nat): nat { (x + PAGE_SIZE - 1) % U64 / PAGE_SIZE }

  function PfnDown(x: nat): nat { x / PAGE_SIZE }

  /** `__free_memory_core`: the page count it returns is zero whatever it has freed. */
  method FreeMemoryCore(start: nat, end: nat, maxLowPfn: nat) returns (blocks: seq<(nat, nat)>, count: nat)
    requires start < U64 && end < U64
    ensures blocks == Tiles(PfnUp(start), Min(PfnDown(end), maxLowPfn)) && count == 0
  {
    var startPfn, endPfn := PfnUp(start), Min(PfnDown(end), maxLowPfn);
    if startPfn >= endPfn {
      return [], 0;
    }
    blocks, startPfn := FreeBlocks(startPfn, endPfn);
    count := endPfn - startPfn;
  }

  // ----- the blocks tile the range -----

  predicate Consecutive(ts: seq<(nat, nat)>, s: nat, e: nat) {
    if ts == [] then s >= e
    else ts[0].0 == s && s + Pow(ts[0].1) <= e && ts[0].1 <= MAX_ORDER && Consecutive(ts[1..], s + Pow(ts[0].1), e)
  }

  lemma {:induction false} TilesExactly(s: nat, e: nat)
    ensures Consecutive(Tiles(s, e), s, e)
    decreases e - s
  {
    if s < e {
      var o := Fit(s, e, FirstOrder(s));
      TilesNext(s, e, o);
      TilesExactly(s + Pow(o), e);
    }
  }

  /** The pages are those wholly inside the range and below the limit, unless rounding up the start wraps around. */
  lemma WholePages(start: nat, end: nat, limit: nat)
    requires start < U64 && end < U64
    ensures var s, e := PfnUp(start), Min(PfnDown(end), limit);
            (forall q: nat :: s <= q < e <==> Whole(q, start, end, limit)) <==> start + PAGE_SIZE <= U64 || e == 0
  {
    var s, e := PfnUp(start), Min(PfnDown(end), limit);
    if start + PAGE_SIZE <= U64 {
      assert forall q: nat :: s <= q <==> start <= PAGE_SIZE * q;
    } else {
      assert s == 0 && !Whole(0, start, end, limit);
    }
  }

  /** Page `q` lies in the address range and below the limit. */
  predicate Whole(q: nat, start: nat, end: nat, limit: nat) {
    start <= PAGE_SIZE * q && PAGE_SIZE * (q + 1) <= end && q < limit
  }

  // ----- when every block is aligned -----

  predicate AllAligned(ts: seq<(nat, nat)>) { forall i :: 0 <= i < |ts| ==> Aligned(ts[i].0, ts[i].1) }

  /** Every block size that fits at the start is aligned there, and no multiple of 2^32 (other than zero)
      lies in the range with two more pages behind it. */
  ghost predicate Tidy(s: nat, e: nat) {
    (forall k :: 0 <= k <= MAX_ORDER && s + Pow(k) <= e ==> Aligned(s, k)) &&
    forall m: nat :: m > 0 && s <= m && m + 3 <= e ==> !Aligned(m, 32)
  }

  /**
   The code starts from one order more than the page number is aligned to; the blocks are aligned exactly for tidy
   ranges.
   */
  lemma {:induction false} AlignedExactlyWhenTidy(s: nat, e: nat)
    requires s < e
    ensures AllAligned(Tiles(s, e)) <==> Tidy(s, e)
    decreases e - s
  {
    var o := Fit(s, e, FirstOrder(s));
    AlignedNext(s, e, o);
    if s + Pow(o) < e {
      AlignedExactlyWhenTidy(s + Pow(o), e);
    }
    TidyStep(s, e, o);
  }

  lemma AlignedNext(s: nat, e: nat, o: nat)
    requires s < e && o == Fit(s, e, FirstOrder(s))
    ensures s < s + Pow(o) <= e
    ensures AllAligned(Tiles(s, e)) <==> Aligned(s, o) && (s + Pow(o) < e ==> AllAligned(Tiles(s + Pow(o), e)))
  {
    TilesNext(s, e, o);
    AlignedCons(s, o, Tiles(s + Pow(o), e));
  }

  lemma AlignedCons(s: nat, o: nat, ts: seq<(nat, nat)>)
    ensures AllAligned([(s, o)] + ts) <==> Aligned(s, o) && AllAligned(ts)
  {
    var all := [(s, o)] + ts;
    assert all[0] == (s, o) && forall i :: 0 <= i < |ts| ==> all[i + 1] == ts[i];
  }

  lemma TidyStep(s: nat, e: nat, o: nat)
    requires s < e && o == Fit(s, e, FirstOrder(s))
    ensures Tidy(s, e) <==> Aligned(s, o) && (s + Pow(o) < e ==> Tidy(s + Pow(o), e))
  {
    FfsAligned(s, 32);
    if s > 0 && Ffs(s, 32) == 0 {
      TidyAtMultiple(s, e);
    } else {
      if s > 0 && Aligned(s, 32) {
        FloorFloor(s, Ffs(s, 32), 32);
      }
      if Tidy(s, e) {
        TidyGoesOn(s, e, o, FirstOrder(s));
      }
      if Aligned(s, o) && (s + Pow(o) < e ==> Tidy(s + Pow(o), e)) {
        TidyComesFrom(s, e, o, FirstOrder(s));
      }
    }
  }

  /** At a multiple of 2^32 no bit is seen, and the code goes on page by page. */
  lemma TidyAtMultiple(s: nat, e: nat)
    requires 0 < s < e && Aligned(s, 32)
    ensures Tidy(s, e) <==> (s + 1 < e ==> Tidy(s + 1, e))
  {
    FloorFloor(s, 1, 32);
    assert !Aligned(s + 1, 1);
    assert s + 3 <= e ==> s + 1 + Pow(1) <= e;
    forall k | 0 <= k <= MAX_ORDER ensures Aligned(s, k) && (k > 0 ==> Pow(k) >= 2) {
      FloorFloor(s, k, 32);
      if k > 0 {
        PowGrows(1, k);
      }
    }
  }

  lemma FitBounds(s: nat, e: nat, o: nat)
    requires s < e && o == Fit(s, e, FirstOrder(s))
    ensures s < s + Pow(o) <= e && o <= MAX_ORDER
  {
    PowGrows(0, o);
  }

  lemma TidyGoesOn(s: nat, e: nat, o: nat, f: nat)
    requires o <= f <= MAX_ORDER && s + Pow(o) <= e && (o < f ==> s + Pow(o + 1) > e)
    requires (f < MAX_ORDER ==> !Aligned(s, f))
    requires Tidy(s, e)
    ensures Aligned(s, o) && Tidy(s + Pow(o), e)
  {
    var s' := s + Pow(o);
    forall k | 0 <= k <= MAX_ORDER && s' + Pow(k) <= e ensures Aligned(s', k) {
      if k > o {
        PowGrows(o + 1, k);
      }
      NextAligned(s, o);
      FloorFloor(s', k, o);
    }
  }

  lemma {:induction false} NextAligned(s: nat, o: nat)
    requires Aligned(s, o)
    ensures Aligned(s + Pow(o), o)
  {
    if o > 0 {
      NextAligned(s / 2, o - 1);
    }
  }

  lemma TidyComesFrom(s: nat, e: nat, o: nat, f: nat)
    requires o <= f <= MAX_ORDER && s + Pow(o) <= e && (o < f ==> s + Pow(o + 1) > e)
    requires (f < MAX_ORDER ==> !Aligned(s, f))
    requires Aligned(s, o) && (s + Pow(o) < e ==> Tidy(s + Pow(o), e)) && (s == 0 || !Aligned(s, 32))
    ensures Tidy(s, e)
  {
    forall k | 0 <= k <= MAX_ORDER && s + Pow(k) <= e ensures Aligned(s, k) {
      if k > o {
        PowGrows(o + 1, k);
      }
      FloorFloor(s, k, o);
    }
    forall m: nat | m > 0 && s <= m && m + 3 <= e ensures !Aligned(m, 32) {
      if Aligned(m, 32) && m < s + Pow(o) {
        FloorFloor(m, o, 32);
        FloorRange(m, s, o);
      }
    }
  }

  /** A range of three pages from page one: its first block would be two pages long. */
  lemma UntidyRange()
    ensures !AllAligned(Tiles(1, 4))
  {
    assert 1 + Pow(1) <= 4 && !Aligned(1, 1);
    AlignedExactlyWhenTidy(1, 4);
  }
}
