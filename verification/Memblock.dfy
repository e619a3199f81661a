/**
 Boot memory: the iterator over the ranges that are memory but not reserved.
 */
module Memblock {
  import opened Basics

  const PHYS_ADDR_MAX: nat := 0xffff_ffff_ffff_ffff

  // ----- memory minus reserved -----

  datatype Region = Region(base: nat, size: nat)

  function End(r: Region): nat { r.base + r.size }

  /** Regions in ascending order that do not overlap and end within the address space. */
  predicate Sorted(rs: seq<Region>) {
    |rs| <= 32 && (forall i :: 0 <= i < |rs| ==> End(rs[i]) <= PHYS_ADDR_MAX) &&
    forall i, j :: 0 <= i < j < |rs| ==> End(rs[i]) <= rs[j].base
  }

  predicate Inside(rs: seq<Region>, x: nat) {
    exists i :: 0 <= i < |rs| && rs[i].base <= x < End(rs[i])
  }

  /** The gap before reserved region `j`. */
  function GapStart(res: seq<Region>, j: nat): nat
    requires j <= |res|
  {
    if j == 0 then 0 else End(res[j - 1])
  }

  function GapEnd(res: seq<Region>, j: nat): nat
    requires j <= |res|
  {
    if j < |res| then res[j].base else PHYS_ADDR_MAX
  }

  predicate Meets(mem: seq<Region>, res: seq<Region>, i: nat, j: nat) {
    i < |mem| && j <= |res| && GapStart(res, j) < End(mem[i]) && mem[i].base < GapEnd(res, j)
  }

  /** The part of memory region `i` that lies in gap `j`. */
  function Common(mem: seq<Region>, res: seq<Region>, i: nat, j: nat): (nat, nat)
    requires i < |mem| && j <= |res|
  {
    (Max(mem[i].base, GapStart(res, j)), Min(End(mem[i]), GapEnd(res, j)))
  }

  /** Pair `(i, j)` comes before the cursor `(a, b)`. */
  predicate Before(i: nat, j: nat, a: nat, b: nat) { i < a || (i == a && j < b) }

  /** No memory region after `a` reaches into a gap before `b`. */
  ghost predicate Behind(mem: seq<Region>, res: seq<Region>, a: nat, b: nat) {
    b <= |res| + 1 && forall i, j :: a < i && 0 <= j < b ==> !Meets(mem, res, i, j)
  }

  /** What the two counters of the iterator are packed into. */
  function Pack(a: nat, b: nat): nat { a + 0x1_0000_0000 * b }

  const ULLONG_MAX: nat := 0xffff_ffff_ffff_ffff

  datatype Step = Done | Range(lo: nat, hi: nat)

  /**
   The inner loop of `__next_mem_range`: the next gap that the memory region meets, or that it meets none any more.
   */
  method NextGap(ia: nat, ib0: nat, mem: seq<Region>, res: seq<Region>) returns (r: Step, ib: nat)
    requires Sorted(mem) && Sorted(res) && ia < |mem| && Behind(mem, res, ia, ib0)
    ensures ib0 <= ib && Behind(mem, res, ia, ib) && forall y :: ib0 <= y < ib ==> !Meets(mem, res, ia, y)
    ensures r.Range? ==> Meets(mem, res, ia, ib) && (r.lo, r.hi) == Common(mem, res, ia, ib)
    ensures r.Done? ==> forall y :: y >= ib ==> !Meets(mem, res, ia, y)
  {
    ib := ib0;
    var mStart, mEnd := mem[ia].base, End(mem[ia]);
    while ib < |res| + 1
      invariant ib0 <= ib && Behind(mem, res, ia, ib) && forall y :: ib0 <= y < ib ==> !Meets(mem, res, ia, y)
    {
      var rStart := if ib != 0 then End(res[ib - 1]) else 0;
      var rEnd := if ib < |res| then res[ib].base else PHYS_ADDR_MAX;
      if rStart >= mEnd {
        break;
      }
      if mStart < rEnd {
        return Range(Max(mStart, rStart), Min(mEnd, rEnd)), ib;
      }
      ib := ib + 1;
    }
    r := Done;
  }

  /**
   `__next_mem_range`: without a list of reserved regions, the next memory region; otherwise what `NextFree` finds.
   */
  method NextMemRange(idx: nat, mem: seq<Region>, res: Option<seq<Region>>, ghost a0: nat, ghost b0: nat)
    returns (r: Step, idx': nat, ghost a: nat, ghost b: nat, ghost i: nat, ghost j: nat)
    requires Sorted(mem) && idx == Pack(a0, b0) && a0 <= |mem|
    requires res.Some? ==> Sorted(res.value) && Behind(mem, res.value, a0, b0)
    ensures res.None? ==> if a0 < |mem| then r == Range(mem[a0].base, End(mem[a0])) && idx' == Pack(a0 + 1, b0)
                          else r == Done && idx' == ULLONG_MAX
    ensures res.Some? ==> Found(mem, res.value, a0, b0, r, idx', a, b, i, j)
  {
    match res {
      case Some(regions) =>
        r, idx', a, b, i, j := NextFree(idx, mem, regions, a0, b0);
      case None =>
        var ia, ib := idx % 0x1_0000_0000, idx / 0x1_0000_0000;
        r, idx', a, b, i, j := Done, ULLONG_MAX, a0, b0, 0, 0;
        if ia < |mem| {
          r, idx' := Range(mem[ia].base, End(mem[ia])), Pack(ia + 1, ib);
        }
    }
  }

  /** From cursor `(a0, b0)` to `(a, b)`: region `i` and gap `j` are the only ones between that meet, or none do. */
  ghost predicate Found(mem: seq<Region>, res: seq<Region>, a0: nat, b0: nat, r: Step, idx': nat, a: nat, b: nat,
                        i: nat, j: nat) {
    if r.Done? then idx' == ULLONG_MAX && NoneFrom(mem, res, a0, b0)
    else
      idx' == Pack(a, b) != ULLONG_MAX && a <= |mem| && a + b > a0 + b0 && Behind(mem, res, a, b) &&
      Meets(mem, res, i, j) && (r.lo, r.hi) == Common(mem, res, i, j) && !Before(i, j, a0, b0) &&
      Before(i, j, a, b) && OnlyOne(mem, res, a0, b0, a, b, i, j)
  }

  /** No region and gap from the cursor on meet. */
  ghost predicate NoneFrom(mem: seq<Region>, res: seq<Region>, a: nat, b: nat) {
    forall x: nat, y: nat {:trigger Meets(mem, res, x, y)} :: !Before(x, y, a, b) ==> !Meets(mem, res, x, y)
  }

  /** None between two cursors meet. */
  ghost predicate NoneBetween(mem: seq<Region>, res: seq<Region>, a0: nat, b0: nat, a: nat, b: nat) {
    forall x: nat, y: nat {:trigger Meets(mem, res, x, y)} ::
      !Before(x, y, a0, b0) && Before(x, y, a, b) ==> !Meets(mem, res, x, y)
  }

  /** Only region `i` and gap `j` do. */
  ghost predicate OnlyOne(mem: seq<Region>, res: seq<Region>, a0: nat, b0: nat, a: nat, b: nat, i: nat, j: nat) {
    forall x: nat, y: nat {:trigger Meets(mem, res, x, y)} ::
      !Before(x, y, a0, b0) && Before(x, y, a, b) && Meets(mem, res, x, y) ==> x == i && y == j
  }

  /** Past a region that meets no further gap. */
  lemma NextRegion(mem: seq<Region>, res: seq<Region>, a0: nat, b0: nat, a: nat, b: nat, b': nat)
    requires NoneBetween(mem, res, a0, b0, a, b) && b <= b' && Behind(mem, res, a, b')
    requires forall y :: b <= y ==> !Meets(mem, res, a, y)
    ensures NoneBetween(mem, res, a0, b0, a + 1, b') && Behind(mem, res, a + 1, b')
  {
  }

  /** Past a region and gap that meet: the one that ends first is done. */
  lemma NextPair(mem: seq<Region>, res: seq<Region>, a0: nat, b0: nat, i: nat, b: nat, j: nat, a': nat, b': nat)
    requires Sorted(mem) && Sorted(res) && NoneBetween(mem, res, a0, b0, i, b) && Behind(mem, res, i, j)
    requires Meets(mem, res, i, j) && b <= j && forall y :: b <= y < j ==> !Meets(mem, res, i, y)
    requires (a', b') == if End(mem[i]) <= GapEnd(res, j) then (i + 1, j) else (i, j + 1)
    ensures OnlyOne(mem, res, a0, b0, a', b', i, j) && Behind(mem, res, a', b') && Before(i, j, a', b')
  {
  }

  /** From the cursor on, the next memory region and gap that meet; `Done` if there are none. */
  method NextFree(idx: nat, mem: seq<Region>, res: seq<Region>, ghost a0: nat, ghost b0: nat)
    returns (r: Step, idx': nat, ghost a: nat, ghost b: nat, ghost i: nat, ghost j: nat)
    requires Sorted(mem) && Sorted(res) && idx == Pack(a0, b0) && a0 <= |mem| && Behind(mem, res, a0, b0)
    ensures Found(mem, res, a0, b0, r, idx', a, b, i, j)
  {
    var ia, ib := idx % 0x1_0000_0000, idx / 0x1_0000_0000;
    while ia < |mem|
      invariant a0 <= ia <= |mem| && b0 <= ib && Behind(mem, res, ia, ib)
      invariant NoneBetween(mem, res, a0, b0, ia, ib)
    {
      ghost var ib0 := ib;
      r, ib := NextGap(ia, ib, mem, res);
      if r.Range? {
        i, j := ia, ib;
        if End(mem[ia]) <= GapEnd(res, ib) {
          ia := ia + 1;
        } else {
          ib := ib + 1;
        }
        a, b := ia, ib;
        NextPair(mem, res, a0, b0, i, ib0, j, a, b);
        idx' := Pack(ia, ib);
        return;
      }
      NextRegion(mem, res, a0, b0, ia, ib0, ib);
      ia := ia + 1;
    }
    r, idx', a, b, i, j := Done, ULLONG_MAX, ia, ib, 0, 0;
  }

  predicate InRanges(rs: seq<(nat, nat)>, x: nat) {
    exists i :: 0 <= i < |rs| && rs[i].0 <= x < rs[i].1
  }

  predicate Ascending(rs: seq<(nat, nat)>) {
    (forall i :: 0 <= i < |rs| ==> rs[i].0 <= rs[i].1) &&
    forall i, j :: 0 <= i < j < |rs| ==> rs[i].1 <= rs[j].0
  }

  /** The range is part of one region. */
  predicate InOne(mem: seq<Region>, r: (nat, nat)) {
    exists i :: 0 <= i < |mem| && mem[i].base <= r.0 && r.1 <= End(mem[i])
  }

  /** The ranges ascend without overlap, each in one region, and together they are memory without what is reserved. */
  ghost predicate Exactly(rs: seq<(nat, nat)>, mem: seq<Region>, res: seq<Region>) {
    Ascending(rs) && (forall i :: 0 <= i < |rs| ==> InOne(mem, rs[i])) &&
    forall x :: InRanges(rs, x) <==> Inside(mem, x) && !Inside(res, x)
  }

  /** A common part holds exactly the addresses of both, and parts of later pairs lie above it. */
  lemma CommonIsBoth(mem: seq<Region>, res: seq<Region>, i: nat, j: nat)
    requires Sorted(mem) && Sorted(res) && Meets(mem, res, i, j)
    ensures var (lo, hi) := Common(mem, res, i, j);
            && lo <= hi && hi <= End(mem[i]) && hi <= GapEnd(res, j) && mem[i].base <= lo && GapStart(res, j) <= lo
            && forall x :: lo <= x < hi ==> Inside(mem, x) && !Inside(res, x)
  {
  }

  /** Every address that is memory and not reserved lies in a gap that meets its region. */
  lemma FindGap(mem: seq<Region>, res: seq<Region>, x: nat) returns (i: nat, j: nat)
    requires Sorted(mem) && Sorted(res) && Inside(mem, x) && !Inside(res, x)
    ensures Meets(mem, res, i, j) && Common(mem, res, i, j).0 <= x < Common(mem, res, i, j).1
  {
    i :| 0 <= i < |mem| && mem[i].base <= x < End(mem[i]);
    j := 0;
    while j < |res| && End(res[j]) <= x
      invariant j <= |res| && GapStart(res, j) <= x
    {
      j := j + 1;
    }
  }

  /** The ranges so far are the common parts of all pairs before the cursor that meet, in order. */
  ghost predicate Yielded(mem: seq<Region>, res: seq<Region>, ranges: seq<(nat, nat)>, pairs: seq<(nat, nat)>, a: nat,
                          b: nat) {
    |pairs| == |ranges| &&
    (forall k :: 0 <= k < |pairs| ==> Meets(mem, res, pairs[k].0, pairs[k].1) && Before(pairs[k].0, pairs[k].1, a, b) &&
                                      ranges[k] == Common(mem, res, pairs[k].0, pairs[k].1)) &&
    (forall k, l :: 0 <= k < l < |pairs| ==> Before(pairs[k].0, pairs[k].1, pairs[l].0, pairs[l].1)) &&
    forall x: nat, y: nat :: Meets(mem, res, x, y) && Before(x, y, a, b) ==> (x, y) in pairs
  }

  /** The iteration stands at `idx` and has given `ranges`. */
  ghost predicate At(mem: seq<Region>, res: seq<Region>, idx: nat, ranges: seq<(nat, nat)>) {
    exists a: nat, b: nat, pairs: seq<(nat, nat)> ::
      idx == Pack(a, b) && a <= |mem| && Behind(mem, res, a, b) && Yielded(mem, res, ranges, pairs, a, b)
  }

  lemma AtStart(mem: seq<Region>, res: seq<Region>)
    ensures At(mem, res, 0, [])
  {
    var none: seq<(nat, nat)> := [];
    var a: nat, b: nat, pairs: seq<(nat, nat)> := YieldedNone(mem, res, none);
    assert Behind(mem, res, a, b) && Yielded(mem, res, none, pairs, a, b);
  }

  lemma YieldedNone(mem: seq<Region>, res: seq<Region>, ranges: seq<(nat, nat)>)
    returns (a: nat, b: nat, pairs: seq<(nat, nat)>)
    requires ranges == []
    ensures a == 0 && b == 0 && Yielded(mem, res, ranges, pairs, a, b) && Behind(mem, res, a, b)
  {
    a, b, pairs := 0, 0, [];
  }

  lemma YieldOne(mem: seq<Region>, res: seq<Region>, ranges: seq<(nat, nat)>, pairs: seq<(nat, nat)>, a: nat, b: nat,
                 i: nat, j: nat, a': nat, b': nat)
    requires Yielded(mem, res, ranges, pairs, a, b) && Meets(mem, res, i, j) && !Before(i, j, a, b)
    requires Before(i, j, a', b') && OnlyOne(mem, res, a, b, a', b', i, j)
    ensures Yielded(mem, res, ranges + [Common(mem, res, i, j)], pairs + [(i, j)], a', b')
  {
  }

  lemma YieldedAll(mem: seq<Region>, res: seq<Region>, ranges: seq<(nat, nat)>, pairs: seq<(nat, nat)>, a: nat, b: nat)
    requires Sorted(mem) && Sorted(res) && Yielded(mem, res, ranges, pairs, a, b)
    requires NoneFrom(mem, res, a, b)
    ensures Exactly(ranges, mem, res)
  {
    forall k | 0 <= k < |ranges|
      ensures ranges[k].0 <= ranges[k].1 && InOne(mem, ranges[k])
      ensures forall x :: ranges[k].0 <= x < ranges[k].1 ==> Inside(mem, x) && !Inside(res, x)
    {
      CommonIsBoth(mem, res, pairs[k].0, pairs[k].1);
    }
    forall k, l | 0 <= k < l < |ranges| ensures ranges[k].1 <= ranges[l].0 {
      Later(mem, res, pairs[k].0, pairs[k].1, pairs[l].0, pairs[l].1);
    }
    forall x: nat | Inside(mem, x) && !Inside(res, x) ensures InRanges(ranges, x) {
      var i, j := FindGap(mem, res, x);
      var k :| 0 <= k < |pairs| && pairs[k] == (i, j);
      assert ranges[k].0 <= x < ranges[k].1;
    }
  }

  lemma Later(mem: seq<Region>, res: seq<Region>, i: nat, j: nat, i': nat, j': nat)
    requires Sorted(mem) && Sorted(res) && Meets(mem, res, i, j) && Meets(mem, res, i', j') && Before(i, j, i', j')
    ensures Common(mem, res, i, j).1 <= Common(mem, res, i', j').0
  {
  }

  /**
   The iteration over all free ranges: they ascend without overlap, and together they are
   memory without what is reserved.
   */
  method FreeRanges(mem: seq<Region>, res: seq<Region>) returns (ranges: seq<(nat, nat)>)
    requires Sorted(mem) && Sorted(res)
    ensures Exactly(ranges, mem, res)
  {
    AtStart(mem, res);
    ranges := Iterate(mem, res, 0, []);
  }

  /** The iteration, from any point on. */
  method Iterate(mem: seq<Region>, res: seq<Region>, idx0: nat, ranges0: seq<(nat, nat)>)
    returns (ranges: seq<(nat, nat)>)
    requires Sorted(mem) && Sorted(res) && At(mem, res, idx0, ranges0)
    ensures Exactly(ranges, mem, res)
  {
    ghost var a: nat, b: nat, pairs: seq<(nat, nat)> :|
      idx0 == Pack(a, b) && a <= |mem| && Behind(mem, res, a, b) && Yielded(mem, res, ranges0, pairs, a, b);
    ranges := ranges0;
    var idx := idx0;
    while true
      invariant idx == Pack(a, b) && a <= |mem| && Behind(mem, res, a, b) && Yielded(mem, res, ranges, pairs, a, b)
      decreases |mem| + |res| + 1 - a - b
    {
      var lo, hi;
      lo, hi, idx, a, b, pairs := TakeRange(idx, mem, res, a, b, ranges, pairs);
      if idx == ULLONG_MAX {
        break;
      }
      ranges := ranges + [(lo, hi)];
    }
  }

  /** One round of the iteration. */
  method TakeRange(idx: nat, mem: seq<Region>, res: seq<Region>, ghost a: nat, ghost b: nat,
                   ghost ranges: seq<(nat, nat)>, ghost pairs: seq<(nat, nat)>)
    returns (lo: nat, hi: nat, idx': nat, ghost a': nat, ghost b': nat, ghost pairs': seq<(nat, nat)>)
    requires Sorted(mem) && Sorted(res) && idx == Pack(a, b) && a <= |mem| && Behind(mem, res, a, b)
    requires Yielded(mem, res, ranges, pairs, a, b)
    ensures idx' == ULLONG_MAX ==> Exactly(ranges, mem, res)
    ensures idx' != ULLONG_MAX ==>
              idx' == Pack(a', b') && a' <= |mem| && a' + b' > a + b && b' <= |res| + 1 && Behind(mem, res, a', b')
    ensures idx' != ULLONG_MAX ==> Yielded(mem, res, ranges + [(lo, hi)], pairs', a', b')
  {
    var step;
    ghost var i, j;
    step, idx', a', b', i, j := NextMemRange(idx, mem, Some(res), a, b);
    lo, hi, pairs' := 0, 0, pairs;
    if step.Done? {
      YieldedAll(mem, res, ranges, pairs, a, b);
    } else {
      YieldOne(mem, res, ranges, pairs, a, b, i, j, a', b');
      lo, hi, pairs' := step.lo, step.hi, pairs + [(i, j)];
    }
  }
}
