/**
 The geometry of buddy blocks, and the free lists of the page allocator as a set of blocks.
 Page numbers are relative to the page map, whose bounds are multiples of the largest block.
 */
module BuddyBlocks {
  import opened Basics

  const MAX_ORDER: nat := 10

  function Pow(k: nat): nat { if k == 0 then 1 else 2 * Pow(k - 1) }

  /** The page with bit `k` of its number inverted: exclusive or with `1 << k`. */
  function XorBit(p: nat, k: nat): nat {
    if k == 0 then (if p % 2 == 0 then p + 1 else p - 1) else 2 * XorBit(p / 2, k - 1) + p % 2
  }

  /** Bitwise conjunction. */
  function And(p: nat, q: nat): nat {
    if p == 0 || q == 0 then 0 else 2 * And(p / 2, q / 2) + (p % 2) * (q % 2)
  }

  /** The first page of the block of order `k` that holds page `x`. */
  function Floor(x: nat, k: nat): nat { if k == 0 then x else 2 * Floor(x / 2, k - 1) }

  predicate Aligned(p: nat, k: nat) { Floor(p, k) == p }

  lemma {:induction false} FloorFloor(x: nat, j: nat, k: nat)
    requires j <= k
    ensures Floor(Floor(x, j), k) == Floor(x, k) && Floor(Floor(x, k), j) == Floor(x, k)
  {
    if j > 0 {
      FloorFloor(x / 2, j - 1, k - 1);
    }
  }

  /** A block is a range of pages that starts at a multiple of its size. */
  lemma {:induction false} FloorRange(x: nat, p: nat, k: nat)
    requires Aligned(p, k)
    ensures Floor(x, k) == p <==> p <= x < p + Pow(k)
  {
    if k > 0 {
      FloorRange(x / 2, p / 2, k - 1);
    }
  }

  /** Multiples of the block size are aligned. */
  lemma {:induction false} MultipleIsAligned(m: nat, k: nat)
    ensures Aligned(m * Pow(k), k)
  {
    if k > 0 {
      MultipleIsAligned(m, k - 1);
      var h := m * Pow(k - 1);
      assert m * Pow(k) == 2 * h;
    }
  }

  /** The buddy relation is symmetric, and buddies lie in the same block of the next order. */
  lemma {:induction false} Buddies(p: nat, k: nat)
    requires Aligned(p, k)
    ensures var b := XorBit(p, k); b != p && Aligned(b, k) && XorBit(b, k) == p && Floor(b, k + 1) == Floor(p, k + 1)
  {
    if k > 0 {
      var h, b := p / 2, XorBit(p, k);
      Buddies(h, k - 1);
      assert p == 2 * h && b == 2 * XorBit(h, k - 1);
      assert b / 2 == XorBit(h, k - 1) && b % 2 == 0;
    }
  }

  /** The buddy of a block that is not aligned is not aligned either. */
  lemma {:induction false} BuddyUnaligned(p: nat, k: nat)
    requires !Aligned(p, k)
    ensures !Aligned(XorBit(p, k), k)
  {
    if k > 0 {
      var b := XorBit(p, k);
      assert b / 2 == XorBit(p / 2, k - 1) && b % 2 == p % 2;
      if !Aligned(p / 2, k - 1) {
        BuddyUnaligned(p / 2, k - 1);
      }
    }
  }

  /** The block that two buddies make up starts at the conjunction of their numbers. */
  lemma {:induction false} Combined(p: nat, k: nat)
    requires Aligned(p, k)
    ensures And(XorBit(p, k), p) == Floor(p, k + 1)
  {
    if k > 0 {
      Combined(p / 2, k - 1);
      AndBuddy(p, k);
    } else {
      AndSame(p / 2);
    }
  }

  /** It has exactly the pages of the two. */
  lemma {:induction false} Halves(p: nat, k: nat, x: nat)
    requires Aligned(p, k)
    ensures Floor(x, k + 1) == Floor(p, k + 1) <==> Floor(x, k) == p || Floor(x, k) == XorBit(p, k)
  {
    if k > 0 {
      Halves(p / 2, k - 1, x / 2);
    }
  }

  lemma {:induction false} AndSame(p: nat)
    ensures And(p, p) == p
  {
    if p > 0 {
      AndSame(p / 2);
    }
  }

  lemma AndBuddy(p: nat, k: nat)
    requires k > 0 && p % 2 == 0
    ensures And(XorBit(p, k), p) == 2 * And(XorBit(p / 2, k - 1), p / 2)
  {
    assert XorBit(p, k) / 2 == XorBit(p / 2, k - 1);
  }

  /** The upper half of a block is the buddy of the lower half. */
  lemma {:induction false} UpperHalf(p: nat, k: nat)
    requires Aligned(p, k + 1)
    ensures XorBit(p, k) == p + Pow(k)
  {
    if k > 0 {
      UpperHalf(p / 2, k - 1);
    }
  }

  /** Blocks and buddies do not cross a bound that is a multiple of a larger block. */
  lemma {:induction false} Inside(p: nat, k: nat, n: nat)
    requires p < n && Aligned(n, k)
    ensures Floor(p, k) <= p && Floor(p, k) + Pow(k) <= n
    ensures Aligned(n, k + 1) ==> XorBit(p, k) < n
  {
    if k > 0 {
      Inside(p / 2, k - 1, n / 2);
    }
  }

  // ----- the free lists -----

  /** Page `x` lies in a free block. */
  predicate Covered(ls: seq<seq<nat>>, x: nat)
    requires |ls| == MAX_ORDER + 1
  {
    exists k :: 0 <= k <= MAX_ORDER && Floor(x, k) in ls[k]
  }

  /** Free blocks are aligned, inside the map, disjoint, listed once, and never a pair of buddies. */
  predicate Inv(ls: seq<seq<nat>>, n: nat) {
    |ls| == MAX_ORDER + 1 && Aligned(n, MAX_ORDER) &&
    (forall k :: 0 <= k <= MAX_ORDER ==> NoDup(ls[k])) &&
    (forall k, p :: 0 <= k <= MAX_ORDER && p in ls[k] ==> Aligned(p, k) && p < n) &&
    (forall j, k, p :: 0 <= j < k <= MAX_ORDER && p in ls[j] ==> Floor(p, k) !in ls[k]) &&
    (forall k, p :: 0 <= k < MAX_ORDER && p in ls[k] ==> XorBit(p, k) !in ls[k])
  }

  /** A block of order `k` none of whose pages is free. */
  ghost predicate Open(ls: seq<seq<nat>>, p: nat, k: nat)
    requires |ls| == MAX_ORDER + 1
  {
    k <= MAX_ORDER && Aligned(p, k) && forall x {:trigger Covered(ls, x)} :: Floor(x, k) == p ==> !Covered(ls, x)
  }

  /** `ls'` has the free pages of `ls` and those of one more block. */
  ghost predicate Gains(ls: seq<seq<nat>>, ls': seq<seq<nat>>, p: nat, k: nat)
    requires |ls| == MAX_ORDER + 1 && |ls'| == MAX_ORDER + 1
  {
    forall x :: Covered(ls', x) <==> Covered(ls, x) || Floor(x, k) == p
  }

  function Without(s: seq<nat>, p: nat): (r: seq<nat>)
    ensures forall q :: q in r <==> q in s && q != p
    ensures NoDup(s) ==> NoDup(r) && (p in s ==> |r| == |s| - 1)
    ensures p !in s ==> r == s
  {
    if s == [] then [] else
    var r := Without(s[1..], p);
    assert forall q :: q in s <==> q == s[0] || q in s[1..];
    assert NoDup(s) ==> s[0] !in s[1..];
    if s[0] == p then r else [s[0]] + r
  }

  /** Adding a block of pages that are not free. */
  lemma Insert(ls: seq<seq<nat>>, n: nat, p: nat, k: nat, l: seq<nat>)
    requires Inv(ls, n) && Open(ls, p, k) && p < n && (k < MAX_ORDER ==> XorBit(p, k) !in ls[k])
    requires l == ls[k] + [p] || l == [p] + ls[k]
    ensures Inv(ls[k := l], n) && Gains(ls, ls[k := l], p, k)
  {
    var ls' := ls[k := l];
    assert Floor(p, k) == p && forall q :: q in l <==> q in ls[k] || q == p;
    assert p !in ls[k] by {
      assert Covered(ls, p) || Floor(p, k) !in ls[k];
    }
    forall x ensures Covered(ls', x) <==> Covered(ls, x) || Floor(x, k) == p {
      CoveredInsert(ls, p, k, l, x);
    }
    forall i, j, q | 0 <= i < j <= MAX_ORDER && q in ls'[i] ensures Floor(q, j) !in ls'[j] {
      ApartInsert(ls, n, p, k, i, j, q);
    }
    forall j, q | 0 <= j < MAX_ORDER && q in ls'[j] ensures XorBit(q, j) !in ls'[j] {
      if j == k {
        Buddies(q, k);
      }
    }
  }

  lemma CoveredInsert(ls: seq<seq<nat>>, p: nat, k: nat, l: seq<nat>, x: nat)
    requires |ls| == MAX_ORDER + 1 && k <= MAX_ORDER && forall q :: q in l <==> q in ls[k] || q == p
    ensures Covered(ls[k := l], x) <==> Covered(ls, x) || Floor(x, k) == p
  {
    var ls' := ls[k := l];
    if Covered(ls, x) {
      var j :| 0 <= j <= MAX_ORDER && Floor(x, j) in ls[j];
      assert Floor(x, j) in ls'[j];
    }
    if Floor(x, k) == p {
      assert Floor(x, k) in ls'[k];
    }
  }

  /** The new block does not overlap a block of another order. */
  lemma ApartInsert(ls: seq<seq<nat>>, n: nat, p: nat, k: nat, i: nat, j: nat, q: nat)
    requires Inv(ls, n) && Open(ls, p, k) && i < j <= MAX_ORDER && (q in ls[i] || (i == k && q == p))
    ensures Floor(q, j) !in ls[j] && (j == k ==> Floor(q, j) != p)
  {
    assert q in ls[i] ==> Floor(q, i) in ls[i];
    assert Floor(q, k) == p ==> !Covered(ls, q);
  }

  /** Taking a block off its list: none of its pages is free afterwards. */
  lemma Remove(ls: seq<seq<nat>>, n: nat, p: nat, k: nat)
    requires Inv(ls, n) && k <= MAX_ORDER && p in ls[k]
    ensures var ls' := ls[k := Without(ls[k], p)];
            Inv(ls', n) && Open(ls', p, k) && Gains(ls', ls, p, k)
  {
    var l := Without(ls[k], p);
    var ls' := ls[k := l];
    forall x ensures Covered(ls, x) <==> Covered(ls', x) || Floor(x, k) == p {
      assert ls == ls'[k := ls[k]];
      CoveredInsert(ls', p, k, ls[k], x);
    }
    forall x | Floor(x, k) == p ensures !Covered(ls', x) {
      if Covered(ls', x) {
        var j :| 0 <= j <= MAX_ORDER && Floor(x, j) in ls'[j];
        if j <= k { FloorFloor(x, j, k); } else { FloorFloor(x, k, j); }
      }
    }
  }

  /** The page ranges of different free blocks have no page in common. */
  lemma FreeBlocksDisjoint(ls: seq<seq<nat>>, n: nat, p: nat, j: nat, q: nat, k: nat, x: nat)
    requires Inv(ls, n) && j <= k <= MAX_ORDER && p in ls[j] && q in ls[k]
    requires p <= x < p + Pow(j) && q <= x < q + Pow(k)
    ensures p == q && j == k
  {
    FloorRange(x, p, j);
    FloorRange(x, q, k);
    FloorFloor(x, j, k);
  }
}
