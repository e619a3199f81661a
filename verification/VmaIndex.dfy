/**
 The virtual memory areas of a process: a red-black tree, a linked list in address order and a
 one-entry cache that are kept in agreement.
 */
module VmaIndex {
  import opened Basics
  import opened RbTree
  import RbInsert

  const MAX_ADDRESS_SPACE_SIZE: nat := 0xffff_ffff_ffff_ffff
  const TASK_SIZE: nat := 0x7fff_ffff_ffff
  const TASK_UNMAPPED_BASE: nat := 0x8_0000_0000

  class Vma {
    const vmStart: nat
    const vmEnd: nat
    const rb: Node
    var vmNext: Vma?

    constructor (start: nat, end: nat)
      ensures vmStart == start && vmEnd == end && vmNext == null && fresh(rb)
    {
      vmStart, vmEnd, vmNext := start, end, null;
      rb := new Node();
    }
  }

  /** Areas are not empty, inside the address space, and in address order without overlap. */
  predicate Sorted(areas: seq<Vma>) { SortedTo(areas, |areas|) }

  predicate SortedTo(areas: seq<Vma>, k: nat)
    requires k <= |areas|
  {
    k == 0 ||
    (areas[k - 1].vmStart < areas[k - 1].vmEnd <= MAX_ADDRESS_SPACE_SIZE &&
     (k > 1 ==> areas[k - 2].vmEnd <= areas[k - 1].vmStart) && SortedTo(areas, k - 1))
  }

  predicate Ordered(areas: seq<Vma>, k: nat)
    requires k <= |areas|
  {
    (forall i :: 0 <= i < k ==> areas[i].vmStart < areas[i].vmEnd <= MAX_ADDRESS_SPACE_SIZE) &&
    forall i, j :: 0 <= i < j < k ==> areas[i].vmEnd <= areas[j].vmStart
  }

  lemma {:induction false} SortedOrdered(areas: seq<Vma>, k: nat)
    requires k <= |areas|
    ensures SortedTo(areas, k) <==> Ordered(areas, k)
  {
    if k > 0 {
      SortedOrdered(areas, k - 1);
    }
  }

  /** `k` is the lowest area that ends above `addr`, or their number if there is none. */
  predicate FirstAbove(areas: seq<Vma>, addr: nat, k: nat) {
    k <= |areas| && (forall i :: 0 <= i < k ==> areas[i].vmEnd <= addr) && (k < |areas| ==> areas[k].vmEnd > addr)
  }

  function AreaAt(areas: seq<Vma>, k: nat): Vma? { if k < |areas| then areas[k] else null }

  ghost predicate Holds(order: seq<Node>, areas: seq<Vma>, entry: map<Node, Vma>) {
    |order| == |areas| &&
    forall i :: 0 <= i < |areas| ==> order[i] == areas[i].rb && areas[i].rb in entry && entry[areas[i].rb] == areas[i]
  }

  class Mm {
    const root: Root
    var mmap: Vma?
    var mmapCache: Vma?
    var freeAreaCache: nat
    var mapCount: nat
    var entry: map<Node, Vma>     // the area that a tree node is part of

    ghost var tree: Tree
    ghost var cells: Cells
    ghost var areas: seq<Vma>

    ghost predicate Linked()
      reads this, areas
    {
      ListOf(mmap, areas)
    }

    /** Tree, list and cache agree on the areas. */
    ghost predicate Valid()
      reads this, root, areas, cells.Keys
    {
      TreeOk() && RedBlack(tree) && Sorted(areas) && Linked() && (mmapCache != null ==> mmapCache in areas)
    }

    constructor ()
      ensures Valid() && areas == [] && fresh(root) && freeAreaCache == 0 && mapCount == 0
    {
      root := new Root();
      mmap, mmapCache, freeAreaCache, mapCount, entry := null, null, 0, 0, map[];
      tree, cells, areas := Leaf, map[], [];
      new;
      assert Balanced(Leaf, 0);
    }

    /** `find_vma`: the lowest area that ends above the address, whether or not the cache has it; afterwards it does. */
    method FindVma(addr: nat) returns (vma: Vma?, ghost k: nat)
      requires Valid()
      modifies `mmapCache
      ensures Valid() && FirstAbove(areas, addr, k) && vma == AreaAt(areas, k)
      ensures mmapCache == if vma != null then vma else old(mmapCache)
    {
      vma := mmapCache;
      if !(vma != null && vma.vmEnd > addr && vma.vmStart <= addr) {
        vma, k := SearchTree(addr);
        if vma != null {
          mmapCache := vma;
        }
      } else {
        k := CacheHit(areas, vma, addr);
      }
    }

    /** The heap holds the tree. */
    ghost predicate CellsOk()
      reads this, root, cells.Keys
    {
      root.node == Ptr(tree) && (forall n :: n in cells ==> CellOf(n) == cells[n]) && cells.Keys == Nodes(tree) &&
      At(cells, Top, tree)
    }

    /** The heap holds the tree, and the tree the areas. */
    ghost predicate TreeOk()
      reads this, root, cells.Keys
    {
      CellsOk() && Holds(InOrder(tree), areas, entry)
    }

    /** The descent of `find_vma`. */
    method SearchTree(addr: nat) returns (vma: Vma?, ghost k: nat)
      requires TreeOk() && Sorted(areas)
      ensures FirstAbove(areas, addr, k) && vma == AreaAt(areas, k)
    {
      var node := root.node;
      vma := null;
      ghost var p := Place(Top, tree, 0, |areas|);
      while node != null
        invariant PlaceOk(cells, tree, p) && node == Ptr(p.t) && Narrowed(areas, addr, p.lo, p.hi)
        invariant vma == AreaAt(areas, p.hi)
        decreases p.t
      {
        ghost var m := Descend(cells, tree, areas, entry, p, addr);
        assert CellOf(node) == cells[node];
        var tmp := entry[node];
        if tmp.vmEnd > addr {
          vma := tmp;
          if tmp.vmStart <= addr {
            k := m;
            return;
          }
          node := node.left;
          p := LeftOf(p, m);
        } else {
          node := node.right;
          p := RightOf(p, m);
        }
      }
      k := p.lo;
      Settled(areas, addr, k);
    }

    /**
     `find_vma_prepare`: either an area that holds the address, or the place where a new area that
     starts there belongs, with its neighbours in the list.
     */
    method FindVmaPrepare(addr: nat)
      returns (found: bool, vma: Vma?, prev: Vma?, parent: Node?, left: bool, ghost p: Place)
      requires TreeOk() && Sorted(areas)
      ensures found ==> vma != null && vma in areas && vma.vmStart <= addr < vma.vmEnd
      ensures !found ==> PlaceOk(cells, tree, p) && p.t.Leaf? && parent == Parent(p.c) &&
                         (parent != null ==> left == p.c.InLeft?)
      ensures !found ==> FirstAbove(areas, addr, p.lo) && vma == AreaAt(areas, p.lo) &&
                         (vma != null ==> vma.vmStart > addr)
      ensures !found ==> prev == if p.lo > 0 then areas[p.lo - 1] else null
    {
      var node := root.node;
      var rbPrev: Node? := null;
      parent, left, vma, prev, found := null, false, null, null, false;
      p := Place(Top, tree, 0, |areas|);
      while node != null
        invariant PlaceOk(cells, tree, p) && node == Ptr(p.t) && Prepared(areas, addr, p, vma, rbPrev, parent, left)
        decreases p.t
      {
        ghost var m := Step(cells, tree, areas, entry, p);
        assert CellOf(node) == cells[node];
        parent := node;
        var tmp := entry[node];
        PrepareStep(areas, addr, p, m, vma, rbPrev);
        if tmp.vmEnd > addr {
          vma := tmp;
          if tmp.vmStart <= addr {
            found := true;
            return;
          }
          node, left := node.left, true;
          p := LeftOf(p, m);
        } else {
          rbPrev := parent;
          node, left := node.right, false;
          p := RightOf(p, m);
        }
      }
      if rbPrev != null {
        prev := entry[rbPrev];
      }
      Settled(areas, addr, p.lo);
    }

    /** The list part of `__vma_link`. */
    method LinkList(vma: Vma, prev: Vma?, parent: Node?, ghost k: nat)
      requires Linked() && k <= |areas| && vma !in areas && prev == (if k > 0 then areas[k - 1] else null)
      requires Distinct(areas)
      requires k == 0 ==>
                 if parent == null then areas == [] else areas != [] && parent in entry && entry[parent] == areas[0]
      modifies this`mmap, vma, prev
      ensures ListOf(mmap, InsertAt(areas, k, vma))
    {
      if prev != null {
        vma.vmNext := prev.vmNext;
        prev.vmNext := vma;
      } else {
        mmap := vma;
        if parent != null {
          vma.vmNext := entry[parent];
        } else {
          vma.vmNext := null;
        }
      }
    }

    lemma HeapHasTree(p: Place)
      requires CellsOk() && PlaceOk(cells, tree, p)
      ensures In(root, p.c, p.t) && CtxNodes(p.c) + Nodes(p.t) == cells.Keys
    {
      assert CtxNodes(Top) + Nodes(tree) == Nodes(tree);
      assert Snap(Nodes(tree)) == cells;
      PlugIn(root, p.c, p.t);
    }

    /** The tree part of `__vma_link`. */
    method LinkTree(vma: Vma, parent: Node?, left: bool, ghost p: Place)
      requires CellsOk() && RedBlack(tree) && PlaceOk(cells, tree, p) && p.t == Leaf && vma.rb !in cells
      requires parent == Parent(p.c) && (parent != null ==> left == p.c.InLeft?)
      modifies root, cells.Keys, vma.rb, this`tree, this`cells
      ensures CellsOk() && RedBlack(tree) && InOrder(tree) == Before(p.c) + [vma.rb] + After(p.c)
    {
      HeapHasTree(p);
      ghost var t1 := RbInsert.Insert(vma.rb, parent, left, root, p.c);
      assert CtxNodes(Top) + Nodes(t1) == Nodes(t1);
      tree, cells := t1, Snap(Nodes(t1));
    }

    /** What is known when the new area is about to be linked: the order with it in place. */
    ghost predicate Ready(vma: Vma, prev: Vma?, parent: Node?, left: bool, p: Place)
      reads this, root, areas, cells.Keys
    {
      Valid() && PlaceOk(cells, tree, p) && p.t == Leaf && vma.rb !in cells && p.lo <= |areas| &&
      parent == Parent(p.c) && (parent != null ==> left == p.c.InLeft?) &&
      prev == (if p.lo > 0 then areas[p.lo - 1] else null) &&
      vma.vmStart < vma.vmEnd <= MAX_ADDRESS_SPACE_SIZE &&
      (p.lo > 0 ==> areas[p.lo - 1].vmEnd <= vma.vmStart) && (p.lo < |areas| ==> vma.vmEnd <= areas[p.lo].vmStart)
    }

    /** `__vma_link`. */
    method LinkBoth(vma: Vma, prev: Vma?, parent: Node?, left: bool, ghost p: Place, ghost next: seq<Vma>)
      requires CellsOk() && RedBlack(tree) && PlaceOk(cells, tree, p) && p.t == Leaf && vma.rb !in cells
      requires parent == Parent(p.c) && (parent != null ==> left == p.c.InLeft?)
      requires Linked() && p.lo <= |areas| && vma !in areas && prev == (if p.lo > 0 then areas[p.lo - 1] else null)
      requires Distinct(areas)
      requires p.lo == 0 ==>
                 if parent == null then areas == [] else areas != [] && parent in entry && entry[parent] == areas[0]
      requires next == InsertAt(areas, p.lo, vma)
      modifies this`mmap, this`tree, this`cells, root, cells.Keys, vma.rb, vma, prev
      ensures ListOf(mmap, next) && CellsOk() && RedBlack(tree) && InOrder(tree) == Before(p.c) + [vma.rb] + After(p.c)
    {
      LinkList(vma, prev, parent, p.lo);
      LinkTree(vma, parent, left, p);
    }

    /** The tree and the list hold the areas `next`; `vma` is not entered yet. */
    ghost predicate Grown(vma: Vma, next: seq<Vma>)
      reads this, root, next, cells.Keys
    {
      CellsOk() && RedBlack(tree) && ListOf(mmap, next) && Sorted(next) &&
      Holds(InOrder(tree), next, entry[vma.rb := vma])
    }

    method LinkReady(vma: Vma, prev: Vma?, parent: Node?, left: bool, ghost p: Place)
      requires Ready(vma, prev, parent, left, p)
      modifies this`mmap, this`tree, this`cells, root, cells.Keys, vma.rb, vma, prev
      ensures Grown(vma, InsertAt(areas, p.lo, vma))
    {
      LinkFacts(cells, tree, areas, entry, p, vma);
      LinkBoth(vma, prev, parent, left, p, InsertAt(areas, p.lo, vma));
    }

    /** The new area is in the tree and in the list. */
    method Adopt(vma: Vma, ghost k: nat)
      requires k <= |areas| && Grown(vma, InsertAt(areas, k, vma)) && (mmapCache != null ==> mmapCache in areas)
      modifies `entry, `mapCount, `areas
      ensures Valid() && areas == InsertAt(old(areas), k, vma) && mapCount == old(mapCount) + 1
    {
      InsertKeeps(areas, k, vma);
      entry := entry[vma.rb := vma];
      mapCount := mapCount + 1;
      areas := InsertAt(areas, k, vma);
    }

    /** `vma_link`, at the place that `find_vma_prepare` gave for the start of the new area. */
    method VmaLink(vma: Vma, prev: Vma?, parent: Node?, left: bool, ghost p: Place)
      requires Ready(vma, prev, parent, left, p)
      modifies this, root, cells.Keys, vma.rb, vma, prev
      ensures Valid() && areas == InsertAt(old(areas), p.lo, vma) && mapCount == old(mapCount) + 1
    {
      LinkReady(vma, prev, parent, left, p);
      Adopt(vma, p.lo);
    }

    /** A new area for a free range: the areas in address order with it among them. */
    method MapArea(addr: nat, len: nat) returns (vma: Vma, ghost k: nat)
      requires Valid() && len > 0 && addr + len <= MAX_ADDRESS_SPACE_SIZE && FreeAt(areas, addr, len)
      modifies this, root, cells.Keys, areas
      ensures Valid() && vma.vmStart == addr && vma.vmEnd == addr + len
      ensures k <= |old(areas)| && areas == InsertAt(old(areas), k, vma)
      ensures old(mapCount) == |old(areas)| ==> mapCount == |areas|
    {
      var found, next, prev, parent, left;
      ghost var p;
      found, next, prev, parent, left, p := FindVmaPrepare(addr);
      FreeNeighbours(areas, addr, len);
      vma := new Vma(addr, addr + len);
      k := p.lo;
      VmaLink(vma, prev, parent, left, p);
    }

    /**
     The search of `get_unmapped_area` from an address upwards: the first gap that is large enough,
     or -1 when there is none before the end of the address space.
     */
    method SearchFrom(start: nat, len: nat) returns (r: int)
      requires Valid() && len <= MAX_ADDRESS_SPACE_SIZE
      modifies `mmapCache, `freeAreaCache
      ensures Valid()
      ensures r != -1 ==> LowestFree(areas, start, len, r) && freeAreaCache == r + len
      ensures r == -1 ==> NoneFree(areas, start, len) && freeAreaCache == old(freeAreaCache)
    {
      var vma; ghost var k;
      vma, k := FindVma(start);
      r := WalkList(start, len, vma, k);
    }

    /** The loop over the list of areas. */
    method WalkList(start: nat, len: nat, first: Vma?, ghost k0: nat) returns (r: int)
      requires Linked() && Sorted(areas) && len <= MAX_ADDRESS_SPACE_SIZE && FirstAbove(areas, start, k0)
      requires first == AreaAt(areas, k0)
      modifies `freeAreaCache
      ensures r != -1 ==> LowestFree(areas, start, len, r) && freeAreaCache == r + len
      ensures r == -1 ==> NoneFree(areas, start, len) && freeAreaCache == old(freeAreaCache)
    {
      var addr, vma := start, first;
      ghost var k := k0;
      while true
        invariant start <= addr && FirstAbove(areas, addr, k) && vma == AreaAt(areas, k)
        invariant forall a: nat :: start <= a < addr ==> !FreeAt(areas, a, len)
        invariant freeAreaCache == old(freeAreaCache)
        decreases |areas| - k
      {
        if MAX_ADDRESS_SPACE_SIZE - len < addr {
          return -1;
        }
        if vma == null || addr + len <= vma.vmStart {
          GapIsFree(areas, addr, len, k);
          freeAreaCache := addr + len;
          return addr;
        }
        NextArea(areas, addr, len, k);
        addr := vma.vmEnd;
        vma := vma.vmNext;
        k := k + 1;
      }
    }

    /** The hint of `get_unmapped_area`: the page-aligned address itself, if the range there is free. */
    method TryHint(addr: nat, len: nat) returns (ok: bool)
      requires Valid() && len <= MAX_ADDRESS_SPACE_SIZE
      modifies `mmapCache
      ensures Valid() && (ok <==> RangeFits(areas, addr, len))
    {
      var vma; ghost var k;
      vma, k := FindVma(addr);
      ok := MAX_ADDRESS_SPACE_SIZE - len >= addr && (vma == null || addr + len <= vma.vmStart);
      if ok {
        GapIsFree(areas, addr, len, k);
      }
    }

    /**
     `get_unmapped_area`: the hint if it fits; otherwise the lowest fitting address from the cached one upwards;
     otherwise the lowest from the base of the mappings. The cache moves only with the searches, past the range found.
     */
    method GetUnmappedArea(addr0: nat, len: nat, fixed: bool) returns (r: int)
      requires Valid() && addr0 < U64 && len < U64 && freeAreaCache < U64
      modifies `mmapCache, `freeAreaCache
      ensures Valid() && freeAreaCache < U64
      ensures r == -ENOMEM <==> len > TASK_SIZE - TASK_SIZE / 3
      ensures r != -ENOMEM && fixed ==> r == addr0
      ensures r == -ENOMEM || fixed ==> freeAreaCache == old(freeAreaCache)
      ensures r != -ENOMEM && !fixed && HintFits(areas, addr0, len) ==>
                r == PageAlign(addr0) && freeAreaCache == old(freeAreaCache)
      ensures r != -ENOMEM && !fixed && !HintFits(areas, addr0, len) && !NoneFree(areas, old(freeAreaCache), len) ==>
                LowestFree(areas, old(freeAreaCache), len, r) && freeAreaCache == r + len
      ensures r != -ENOMEM && !fixed && !HintFits(areas, addr0, len) && NoneFree(areas, old(freeAreaCache), len) ==>
                if NoneFree(areas, TASK_UNMAPPED_BASE, len) then r == -1 && freeAreaCache == old(freeAreaCache)
                else LowestFree(areas, TASK_UNMAPPED_BASE, len, r) && freeAreaCache == r + len
    {
      if len > TASK_SIZE - TASK_SIZE / 3 {
        return -ENOMEM;
      }
      if fixed {
        return addr0;
      }
      if addr0 != 0 {
        var addr := PageAlign(addr0);
        var ok := TryHint(addr, len);
        if ok {
          return addr;
        }
      }
      r := SearchTwice(len);
    }

    /** The search from the cached address, and if that finds nothing, the search from the base. */
    method SearchTwice(len: nat) returns (r: int)
      requires Valid() && len <= MAX_ADDRESS_SPACE_SIZE
      modifies `mmapCache, `freeAreaCache
      ensures Valid() && -1 <= r
      ensures !NoneFree(areas, old(freeAreaCache), len) ==>
                LowestFree(areas, old(freeAreaCache), len, r) && freeAreaCache == r + len
      ensures NoneFree(areas, old(freeAreaCache), len) ==>
                if NoneFree(areas, TASK_UNMAPPED_BASE, len) then r == -1 && freeAreaCache == old(freeAreaCache)
                else LowestFree(areas, TASK_UNMAPPED_BASE, len, r) && freeAreaCache == r + len
    {
      var start := freeAreaCache;
      r := SearchFrom(start, len);
      if r == -1 && start != TASK_UNMAPPED_BASE {
        r := SearchFrom(TASK_UNMAPPED_BASE, len);
      }
    }
  }

  const ENOMEM := 12

  /** Rounded up to a page, in 64 bits. */
  function PageAlign(addr: nat): nat { (addr + 4095) % U64 / 4096 * 4096 }

  /** The next page boundary, unless there is none below 2^64. */
  lemma PageAlignUp(addr: nat)
    requires addr < U64
    ensures PageAlign(addr) % 4096 == 0
    ensures if addr <= U64 - 4096 then addr <= PageAlign(addr) < addr + 4096 else PageAlign(addr) == 0
  {
  }

  /** The range of `len` bytes at `a` meets no area. */
  predicate FreeAt(areas: seq<Vma>, a: nat, len: nat) {
    forall i :: 0 <= i < |areas| ==> a + len <= areas[i].vmStart || areas[i].vmEnd <= a
  }

  /** The range lies within the address space and meets no area. */
  predicate RangeFits(areas: seq<Vma>, a: nat, len: nat) { a + len <= MAX_ADDRESS_SPACE_SIZE && FreeAt(areas, a, len) }

  /** A hint was given and the range fits there, on a page boundary. */
  predicate HintFits(areas: seq<Vma>, addr: nat, len: nat) { addr != 0 && RangeFits(areas, PageAlign(addr), len) }

  ghost predicate NoneFree(areas: seq<Vma>, start: nat, len: nat) {
    forall a: nat :: start <= a ==> !RangeFits(areas, a, len)
  }

  /** `r` is the least address from `start` upwards at which the range fits. */
  ghost predicate LowestFree(areas: seq<Vma>, start: nat, len: nat, r: int) {
    r >= start && RangeFits(areas, r, len) && forall a: nat :: start <= a < r ==> !RangeFits(areas, a, len)
  }

  lemma FreeNeighbours(areas: seq<Vma>, addr: nat, len: nat)
    requires Sorted(areas) && len > 0 && FreeAt(areas, addr, len)
    ensures forall i :: 0 <= i < |areas| ==> !(areas[i].vmStart <= addr < areas[i].vmEnd)
    ensures forall k :: 0 <= k < |areas| && areas[k].vmEnd > addr ==> addr + len <= areas[k].vmStart
  {
  }

  lemma GapIsFree(areas: seq<Vma>, addr: nat, len: nat, k: nat)
    requires Sorted(areas) && FirstAbove(areas, addr, k) && (k < |areas| ==> addr + len <= areas[k].vmStart)
    ensures FreeAt(areas, addr, len)
  {
    SortedOrdered(areas, |areas|);
  }

  /** Nothing fits between an address and the end of the area that is in the way. */
  lemma NextArea(areas: seq<Vma>, addr: nat, len: nat, k: nat)
    requires Sorted(areas) && FirstAbove(areas, addr, k) && k < |areas| && addr + len > areas[k].vmStart
    ensures FirstAbove(areas, areas[k].vmEnd, k + 1) && areas[k].vmEnd > addr
    ensures forall a: nat :: addr <= a < areas[k].vmEnd ==> !FreeAt(areas, a, len)
  {
    SortedOrdered(areas, |areas|);
    forall a: nat | addr <= a < areas[k].vmEnd ensures !FreeAt(areas, a, len) {
      assert !(a + len <= areas[k].vmStart || areas[k].vmEnd <= a);
    }
  }

  /** The list from `first` links the areas in order. */
  ghost predicate ListOf(first: Vma?, areas: seq<Vma>)
    reads areas
  {
    first == AreaAt(areas, 0) && forall i :: 0 <= i < |areas| ==> areas[i].vmNext == AreaAt(areas, i + 1)
  }

  predicate Distinct(areas: seq<Vma>) { forall i, j :: 0 <= i < j < |areas| ==> areas[i] != areas[j] }

  function InsertAt(areas: seq<Vma>, k: nat, vma: Vma): seq<Vma>
    requires k <= |areas|
  {
    areas[..k] + [vma] + areas[k..]
  }

  /** There is a place for an area at which address order is kept exactly if its range is free. */
  lemma RoomExactlyWhenFree(areas: seq<Vma>, vma: Vma)
    requires Sorted(areas) && vma.vmStart < vma.vmEnd <= MAX_ADDRESS_SPACE_SIZE
    ensures (exists k: nat :: k <= |areas| && Sorted(InsertAt(areas, k, vma))) <==>
              FreeAt(areas, vma.vmStart, vma.vmEnd - vma.vmStart)
  {
    var addr, len := vma.vmStart, vma.vmEnd - vma.vmStart;
    SortedOrdered(areas, |areas|);
    if k: nat :| k <= |areas| && Sorted(InsertAt(areas, k, vma)) {
      var all := InsertAt(areas, k, vma);
      SortedOrdered(all, |all|);
      forall i | 0 <= i < |areas| ensures addr + len <= areas[i].vmStart || areas[i].vmEnd <= addr {
        assert areas[i] == all[if i < k then i else i + 1] && all[k] == vma;
      }
    }
    if FreeAt(areas, addr, len) {
      var k := CountBelow(areas, addr);
      RoomHere(areas, vma, k);
    }
  }

  /** How many areas end at or below an address. */
  lemma CountBelow(areas: seq<Vma>, addr: nat) returns (k: nat)
    requires Sorted(areas)
    ensures FirstAbove(areas, addr, k)
  {
    k := 0;
    while k < |areas| && areas[k].vmEnd <= addr
      invariant k <= |areas| && forall i :: 0 <= i < k ==> areas[i].vmEnd <= addr
    {
      k := k + 1;
    }
  }

  lemma OrderedHere(areas: seq<Vma>, vma: Vma, k: nat)
    requires Ordered(areas, |areas|) && vma.vmStart < vma.vmEnd <= MAX_ADDRESS_SPACE_SIZE
    requires FirstAbove(areas, vma.vmStart, k)
    requires k < |areas| ==> vma.vmEnd <= areas[k].vmStart
    ensures Ordered(InsertAt(areas, k, vma), |areas| + 1)
  {
    var all := InsertAt(areas, k, vma);
    forall i | 0 <= i < |all| ensures all[i] == if i < k then areas[i] else if i == k then vma else areas[i - 1] {
    }
    forall i, j | 0 <= i < j < |all| ensures all[i].vmEnd <= all[j].vmStart {
      if i == k {
        assert areas[k].vmStart <= areas[j - 1].vmStart;
      }
    }
  }

  lemma RoomHere(areas: seq<Vma>, vma: Vma, k: nat)
    requires Sorted(areas) && vma.vmStart < vma.vmEnd <= MAX_ADDRESS_SPACE_SIZE && FirstAbove(areas, vma.vmStart, k)
    requires FreeAt(areas, vma.vmStart, vma.vmEnd - vma.vmStart)
    ensures Sorted(InsertAt(areas, k, vma))
  {
    SortedOrdered(areas, |areas|);
    OrderedHere(areas, vma, k);
    SortedOrdered(InsertAt(areas, k, vma), |areas| + 1);
  }

  /** An empty place, as `__vma_link` needs it: a place before all areas hangs under the first of them. */
  lemma LinkNeighbour(cells: Cells, tree: Tree, areas: seq<Vma>, entry: map<Node, Vma>, p: Place, vma: Vma)
    requires Holds(InOrder(tree), areas, entry) && PlaceOk(cells, tree, p) && p.t == Leaf && Sorted(areas)
    requires vma.rb !in cells && cells.Keys == Nodes(tree)
    ensures p.lo == |Before(p.c)| <= |areas| && InOrder(tree) == Before(p.c) + After(p.c)
    ensures vma !in areas && (forall i :: 0 <= i < |areas| ==> areas[i].rb != vma.rb)
    ensures Distinct(areas)
    ensures p.lo == 0 ==>
              if Parent(p.c) == null then areas == []
              else areas != [] && Parent(p.c) in entry && entry[Parent(p.c)] == areas[0]
  {
    PlugInOrder(p.c, Leaf);
    SortedOrdered(areas, |areas|);
    forall i | 0 <= i < |areas| ensures areas[i].rb != vma.rb {
      InOrderNodes(tree, InOrder(tree)[i]);
    }
    if p.lo == 0 && Parent(p.c) != null {
      assert InOrder(tree)[0] == After(p.c)[0] == Parent(p.c);
    }
  }

  lemma LinkFacts(cells: Cells, tree: Tree, areas: seq<Vma>, entry: map<Node, Vma>, p: Place, vma: Vma)
    requires Holds(InOrder(tree), areas, entry) && PlaceOk(cells, tree, p) && p.t == Leaf && Sorted(areas)
    requires vma.rb !in cells && cells.Keys == Nodes(tree) && p.lo <= |areas|
    requires vma.vmStart < vma.vmEnd <= MAX_ADDRESS_SPACE_SIZE
    requires (p.lo > 0 ==> areas[p.lo - 1].vmEnd <= vma.vmStart)
    requires (p.lo < |areas| ==> vma.vmEnd <= areas[p.lo].vmStart)
    ensures vma !in areas && Distinct(areas)
    ensures p.lo == 0 ==>
              if Parent(p.c) == null then areas == []
              else areas != [] && Parent(p.c) in entry && entry[Parent(p.c)] == areas[0]
    ensures Holds(Before(p.c) + [vma.rb] + After(p.c), InsertAt(areas, p.lo, vma), entry[vma.rb := vma])
    ensures Sorted(InsertAt(areas, p.lo, vma))
  {
    LinkNeighbour(cells, tree, areas, entry, p, vma);
    InsertHolds(Before(p.c), After(p.c), areas, entry, vma);
    InsertSorted(areas, p.lo, vma);
  }

  lemma InsertKeeps(areas: seq<Vma>, k: nat, vma: Vma)
    requires k <= |areas|
    ensures forall v :: v in areas ==> v in InsertAt(areas, k, vma)
  {
    forall v | v in areas ensures v in InsertAt(areas, k, vma) {
      var i :| 0 <= i < |areas| && areas[i] == v;
      assert InsertAt(areas, k, vma)[if i < k then i else i + 1] == v;
    }
  }

  lemma InsertHolds(before: seq<Node>, after: seq<Node>, areas: seq<Vma>, entry: map<Node, Vma>, vma: Vma)
    requires Holds(before + after, areas, entry) && forall i :: 0 <= i < |areas| ==> areas[i].rb != vma.rb
    ensures Holds(before + [vma.rb] + after, InsertAt(areas, |before|, vma), entry[vma.rb := vma])
  {
    var order, order', areas' := before + after, before + [vma.rb] + after, InsertAt(areas, |before|, vma);
    forall i | 0 <= i < |areas'|
      ensures order'[i] == areas'[i].rb
      ensures i != |before| ==> areas'[i].rb in entry && entry[areas'[i].rb] == areas'[i] && areas'[i].rb != vma.rb
    {
      if i < |before| {
        assert order[i] == areas[i].rb && areas'[i] == areas[i];
      } else if i > |before| {
        assert order[i - 1] == areas[i - 1].rb && areas'[i] == areas[i - 1];
      }
    }
  }

  lemma InsertSorted(areas: seq<Vma>, k: nat, vma: Vma)
    requires Sorted(areas) && k <= |areas| && vma.vmStart < vma.vmEnd <= MAX_ADDRESS_SPACE_SIZE
    requires (k > 0 ==> areas[k - 1].vmEnd <= vma.vmStart) && (k < |areas| ==> vma.vmEnd <= areas[k].vmStart)
    ensures Sorted(InsertAt(areas, k, vma))
  {
    InsertSortedTo(areas, k, vma, |areas| + 1);
  }

  lemma {:induction false} InsertSortedTo(areas: seq<Vma>, k: nat, vma: Vma, n: nat)
    requires Sorted(areas) && k <= |areas| && vma.vmStart < vma.vmEnd <= MAX_ADDRESS_SPACE_SIZE
    requires (k > 0 ==> areas[k - 1].vmEnd <= vma.vmStart) && (k < |areas| ==> vma.vmEnd <= areas[k].vmStart)
    requires n <= |areas| + 1
    ensures SortedTo(InsertAt(areas, k, vma), n)
  {
    if n > 0 {
      InsertSortedTo(areas, k, vma, n - 1);
      SortedAt(areas, |areas|, if n - 1 < k then n - 1 else n - 2);
      var areas' := InsertAt(areas, k, vma);
      assert areas'[n - 1] == if n - 1 < k then areas[n - 1] else if n - 1 == k then vma else areas[n - 2];
      assert n > 1 ==> areas'[n - 2] == if n - 2 < k then areas[n - 2] else if n - 2 == k then vma else areas[n - 3];
    }
  }

  /** One area and its predecessor. */
  lemma {:induction false} SortedAt(areas: seq<Vma>, n: nat, i: int)
    requires n <= |areas| && SortedTo(areas, n)
    ensures 0 <= i < n ==>
              areas[i].vmStart < areas[i].vmEnd <= MAX_ADDRESS_SPACE_SIZE &&
              (i > 0 ==> areas[i - 1].vmEnd <= areas[i].vmStart)
  {
    if n > 0 && i < n - 1 {
      SortedAt(areas, n - 1, i);
    }
  }

  /** A place in the tree: what is around it, what is there, and which areas that is. */
  datatype Place = Place(c: Ctx, t: Tree, lo: nat, hi: nat)

  ghost predicate PlaceOk(cells: Cells, tree: Tree, p: Place) {
    At(cells, p.c, p.t) && Plug(p.c, p.t) == tree && p.lo == |Before(p.c)| && p.hi == p.lo + |InOrder(p.t)|
  }

  ghost function LeftOf(p: Place, m: nat): Place
    requires p.t.Fork?
  {
    Place(InLeft(p.c, p.t.n, p.t.red, p.t.r), p.t.l, p.lo, m)
  }

  ghost function RightOf(p: Place, m: nat): Place
    requires p.t.Fork?
  {
    Place(InRight(p.t.l, p.t.n, p.t.red, p.c), p.t.r, m + 1, p.hi)
  }

  /** The root of a subtree is one of the areas, and the descent may go on to either side. */
  lemma Step(cells: Cells, tree: Tree, areas: seq<Vma>, entry: map<Node, Vma>, p: Place) returns (m: nat)
    requires Holds(InOrder(tree), areas, entry) && PlaceOk(cells, tree, p) && p.t.Fork?
    ensures p.lo <= m < p.hi <= |areas| && p.t.n in entry && entry[p.t.n] == areas[m] && areas[m].rb == p.t.n
    ensures p.t.n in cells && cells[p.t.n].left == Ptr(p.t.l) && cells[p.t.n].right == Ptr(p.t.r)
    ensures PlaceOk(cells, tree, LeftOf(p, m)) && PlaceOk(cells, tree, RightOf(p, m))
  {
    var c, t := p.c, p.t;
    PlugInOrder(c, t);
    m := p.lo + |InOrder(t.l)|;
    assert InOrder(tree)[m] == t.n;
    PlugNodes(c, t);
  }

  /** The area looked for is between `lo` and `hi`. */
  predicate Narrowed(areas: seq<Vma>, addr: nat, lo: nat, hi: nat) {
    lo <= hi <= |areas| && (lo > 0 ==> areas[lo - 1].vmEnd <= addr) && (hi < |areas| ==> areas[hi].vmEnd > addr)
  }

  lemma NarrowTo(areas: seq<Vma>, addr: nat, lo: nat, hi: nat, m: nat)
    requires Sorted(areas) && Narrowed(areas, addr, lo, hi) && lo <= m < hi
    ensures if areas[m].vmEnd > addr then Narrowed(areas, addr, lo, m) &&
                                          (areas[m].vmStart <= addr ==> FirstAbove(areas, addr, m))
            else Narrowed(areas, addr, m + 1, hi)
    ensures lo == m && areas[m].vmEnd > addr ==> FirstAbove(areas, addr, m)
    ensures m + 1 == hi && areas[m].vmEnd <= addr ==> FirstAbove(areas, addr, hi)
  {
    SortedOrdered(areas, |areas|);
  }

  /** The root of a subtree, and what is known of the side that the descent takes. */
  lemma Descend(cells: Cells, tree: Tree, areas: seq<Vma>, entry: map<Node, Vma>, p: Place, addr: nat) returns (m: nat)
    requires Holds(InOrder(tree), areas, entry) && PlaceOk(cells, tree, p) && p.t.Fork? && Sorted(areas)
    requires Narrowed(areas, addr, p.lo, p.hi)
    ensures m < |areas| && p.t.n in entry && entry[p.t.n] == areas[m]
    ensures p.t.n in cells && cells[p.t.n].left == Ptr(p.t.l) && cells[p.t.n].right == Ptr(p.t.r)
    ensures var q := if areas[m].vmEnd > addr then LeftOf(p, m) else RightOf(p, m);
            PlaceOk(cells, tree, q) && Narrowed(areas, addr, q.lo, q.hi)
    ensures areas[m].vmEnd > addr && areas[m].vmStart <= addr ==> FirstAbove(areas, addr, m)
  {
    m := Step(cells, tree, areas, entry, p);
    NarrowTo(areas, addr, p.lo, p.hi, m);
  }

  /** The place searched so far, with the next area, the one before and the link to the place. */
  ghost predicate Prepared(areas: seq<Vma>, addr: nat, p: Place, vma: Vma?, rbPrev: Node?, parent: Node?, left: bool) {
    Narrowed(areas, addr, p.lo, p.hi) && vma == AreaAt(areas, p.hi) && (vma != null ==> vma.vmStart > addr) &&
    parent == Parent(p.c) && (parent != null ==> left == p.c.InLeft?) &&
    rbPrev == if p.lo > 0 then areas[p.lo - 1].rb else null
  }

  lemma PrepareStep(areas: seq<Vma>, addr: nat, p: Place, m: nat, vma: Vma?, rbPrev: Node?)
    requires Sorted(areas) && Narrowed(areas, addr, p.lo, p.hi) && vma == AreaAt(areas, p.hi)
    requires (vma != null ==> vma.vmStart > addr)
    requires rbPrev == if p.lo > 0 then areas[p.lo - 1].rb else null
    requires p.t.Fork? && p.lo <= m < p.hi && areas[m].rb == p.t.n
    ensures areas[m].vmEnd > addr && areas[m].vmStart > addr ==>
              Prepared(areas, addr, LeftOf(p, m), areas[m], rbPrev, p.t.n, true)
    ensures areas[m].vmEnd <= addr ==> Prepared(areas, addr, RightOf(p, m), vma, p.t.n, p.t.n, false)
  {
    NarrowTo(areas, addr, p.lo, p.hi, m);
  }

  lemma Settled(areas: seq<Vma>, addr: nat, k: nat)
    requires Sorted(areas) && Narrowed(areas, addr, k, k)
    ensures FirstAbove(areas, addr, k)
  {
    SortedOrdered(areas, |areas|);
  }

  lemma CacheHit(areas: seq<Vma>, vma: Vma, addr: nat) returns (k: nat)
    requires Sorted(areas) && vma in areas && vma.vmStart <= addr < vma.vmEnd
    ensures FirstAbove(areas, addr, k) && k < |areas| && areas[k] == vma
  {
    SortedOrdered(areas, |areas|);
    k :| 0 <= k < |areas| && areas[k] == vma;
  }
}
