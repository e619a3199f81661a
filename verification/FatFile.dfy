/**
 Files of a FAT32 volume: the table of cluster numbers that a file keeps beside its chain, and
 how a file grows.
 */
module FatFile {
  import opened Basics
  import opened FatChain
  import opened FatVolume

  const PAGE_NCLUSNO: nat := 1024
  const NDIRENT_SECPOINTER: nat := 5
  const THIRD_SIZE: nat := 512

  /** Cluster numbers that the table has room for. */
  const MAX_CLUSTERS: nat := (5 + 512) * 1024

  type Page = Option<seq<nat>>

  class PointerTable {
    var second: seq<Page>
    var third: Option<seq<Page>>

    constructor ()
      ensures Shape()
    {
      second, third := seq(NDIRENT_SECPOINTER, _ => None), None;
    }

    predicate Shape()
      reads this
    {
      |second| == NDIRENT_SECPOINTER && (forall p :: 0 <= p < |second| ==> PageOk(second[p])) &&
      (third.Some? ==> |third.value| == THIRD_SIZE && forall p :: 0 <= p < THIRD_SIZE ==> PageOk(third.value[p]))
    }

    /** The page with number `p` over both levels. */
    function PageAt(p: nat): Page
      requires Shape() && p < NDIRENT_SECPOINTER + THIRD_SIZE
      reads this
    {
      if p < NDIRENT_SECPOINTER then second[p]
      else if third.None? then None else third.value[p - NDIRENT_SECPOINTER]
    }

    /** What is stored for cluster number `i` of the file. */
    function Slot(i: nat): Option<nat>
      requires Shape() && i < MAX_CLUSTERS
      reads this
    {
      var page := PageAt(i / PAGE_NCLUSNO);
      if page.None? then None else Some(page.value[i % PAGE_NCLUSNO])
    }

    /** `filepnt_setval`. */
    method SetVal(i: nat, value: nat)
      requires Shape() && i < MAX_CLUSTERS
      modifies this
      ensures Shape() && Slot(i) == Some(value)
      ensures forall j :: 0 <= j < MAX_CLUSTERS && j != i && old(Slot(j)).Some? ==> Slot(j) == old(Slot(j))
    {
      var index1, index2 := i / PAGE_NCLUSNO, i % PAGE_NCLUSNO;
      if index1 >= NDIRENT_SECPOINTER {
        if third == None {
          third := Some(seq(THIRD_SIZE, _ => None));
        }
        index1 := index1 - NDIRENT_SECPOINTER;
        var page := if third.value[index1] == None then NewPage() else third.value[index1].value;
        third := Some(third.value[index1 := Some(page[index2 := value])]);
      } else {
        var page := if second[index1] == None then NewPage() else second[index1].value;
        second := second[index1 := Some(page[index2 := value])];
      }
    }

    /** `filepnt_getclusbyno`. */
    method GetClusByNo(i: nat) returns (c: nat)
      requires Shape() && i < MAX_CLUSTERS && Slot(i).Some?
      ensures c == Slot(i).value
    {
      var ind1, ind2 := i / PAGE_NCLUSNO, i % PAGE_NCLUSNO;
      var page: Page;
      if ind1 < NDIRENT_SECPOINTER {
        page := second[ind1];
      } else {
        ind1 := ind1 - NDIRENT_SECPOINTER;
        assert ind1 < THIRD_SIZE && third != None;   // ASSERT
        page := third.value[ind1];
      }
      assert page != None;                           // ASSERT
      c := page.value[ind2];
    }
  }

  predicate PageOk(p: Page) { p.Some? ==> |p.value| == PAGE_NCLUSNO }

  function NewPage(): (p: seq<nat>)
    ensures |p| == PAGE_NCLUSNO
  {
    seq(PAGE_NCLUSNO, _ => 0)
  }

  // ----- growing -----

  /** Free clusters from `c` on. */
  function CountFree(f: seq<nat>, c: nat): nat
    decreases |f| - c
  {
    if c >= |f| then 0 else (if f[c] == 0 then 1 else 0) + CountFree(f, c + 1)
  }

  lemma {:induction false} CountStep(f: seq<nat>, c: nat)
    requires c > 0
    ensures var r := FirstFree(f, c); CountFree(f, c) == if r == 0 then 0 else 1 + CountFree(f, r + 1)
    decreases |f| - c
  {
    if c < |f| && f[c] != 0 {
      CountStep(f, c + 1);
    }
  }

  lemma {:induction false} CountFrame(f: seq<nat>, f': seq<nat>, c: nat)
    requires |f'| == |f| && forall d :: c <= d < |f| ==> f'[d] == f[d]
    ensures CountFree(f', c) == CountFree(f, c)
    decreases |f| - c
  {
    if c < |f| {
      CountFrame(f, f', c + 1);
    }
  }

  /** Clusters for `size` bytes. */
  function Clusters(size: nat, clusSize: nat): (r: nat)
    requires clusSize > 0
    ensures size > 0 ==> r > 0
  {
    assert size > 0 ==> (size + clusSize - 1) / clusSize >= clusSize / clusSize;
    (size + clusSize - 1) / clusSize
  }

  /** The test of the loop in `file_extend`. */
  lemma NeedsMore(size: nat, clusSize: nat, k: nat)
    requires clusSize > 0
    ensures size > k * clusSize <==> k < Clusters(size, clusSize)
  {
    var q, r := (size + clusSize - 1) / clusSize, (size + clusSize - 1) % clusSize;
    assert q * clusSize + r == size + clusSize - 1;
    MulMono(k + 1, q, clusSize);
    MulMono(q, k, clusSize);
    MulMono(k, q, clusSize);
  }

  predicate MoreNeeded(size: nat, clusSize: nat, k: nat): (r: bool)
    requires clusSize > 0
    ensures r <==> k < Clusters(size, clusSize)
  {
    NeedsMore(size, clusSize, k);
    size > k * clusSize
  }

  lemma TailFacts(f: seq<nat>, chains: seq<seq<nat>>, k: nat)
    requires AllChains(f, chains) && k < |chains|
    ensures 2 <= Last(chains[k]) < |f| && chains[k] != []
  {
  }

  /** A chain that is given a free cluster: the chains, and what is left above it. */
  lemma GrowOne(f: seq<nat>, chains: seq<seq<nat>>, k: nat, c: nat)
    requires AllChains(f, chains) && k < |chains| && Last(chains[k]) < c < |f| && f[c] == 0
    ensures var f' := f[Last(chains[k]) := c][c := EOF];
            AllChains(f', chains[k := chains[k] + [c]]) && CountFree(f', c + 1) == CountFree(f, c + 1)
  {
    GrowChain(f, chains, k, c);
    CountFrame(f, f[Last(chains[k]) := c][c := EOF], c + 1);
  }

  class File {
    const vol: Volume
    const pointer: PointerTable
    const clusSize: nat
    var firstClus: nat
    var fileSize: nat
    var valid: bool

    /** A file as it is opened: its table is empty. */
    constructor (vol: Volume, clusSize: nat, firstClus: nat, fileSize: nat)
      ensures this.vol == vol && this.clusSize == clusSize && this.firstClus == firstClus && this.fileSize == fileSize
      ensures !valid && fresh(pointer) && pointer.Shape()
    {
      this.vol, this.clusSize, this.firstClus, this.fileSize, valid := vol, clusSize, firstClus, fileSize, false;
      pointer := new PointerTable();
    }

    /** The table holds the clusters of the chain. */
    ghost predicate Matches(ch: seq<nat>)
      reads pointer
    {
      pointer.Shape() && |ch| <= MAX_CLUSTERS && forall i :: 0 <= i < |ch| ==> pointer.Slot(i) == Some(ch[i])
    }

    /** `filepnt_init`: the table is filled by walking the chain. */
    method FilepntInit(ghost ch: seq<nat>)
      requires vol.Valid() && pointer.Shape() && |ch| <= MAX_CLUSTERS && (valid ==> Matches(ch))
      requires if firstClus == 0 then ch == [] else ChainIn(vol.Table(), ch) && ch[0] == firstClus
      modifies this`valid, pointer
      ensures Matches(ch) && (firstClus != 0 ==> valid)
    {
      if !valid {
        var clus := firstClus;
        if clus == 0 {
          return;
        }
        var i := 0;
        while NotEnd(clus)
          invariant 0 <= i <= |ch| && vol.Valid() && ChainIn(vol.Table(), ch) && Matches(ch[..i])
          invariant clus == if i < |ch| then ch[i] else EOF
          decreases |ch| - i
        {
          FreeNext(vol.Table(), ch, i);
          pointer.SetVal(i, clus);
          clus := vol.FatRead(clus);
          i := i + 1;
        }
        assert i == |ch| && ch[..i] == ch;
        valid := true;
      }
    }

    /** The file has chain `k`, the table holds it, and its last cluster is `clus`, number `index` of the file. */
    ghost predicate Holds(chains: seq<seq<nat>>, k: nat, clus: nat, index: nat)
      reads this, vol, pointer
    {
      vol.Valid() && AllChains(vol.Table(), chains) && k < |chains| && Matches(chains[k]) &&
      chains[k][0] == firstClus && |chains[k]| == index + 1 && Last(chains[k]) == clus
    }

    /** One round of the loop in `file_extend`. */
    method Append(prev: nat, index: nat) returns (c: nat)
      requires vol.Valid() && pointer.Shape() && prev < vol.g.clusCnt + 2 && index < MAX_CLUSTERS
      modifies vol, pointer
      ensures vol.Valid() && c == FirstFree(old(vol.Table()), if prev == 0 then 2 else prev + 1)
      ensures c < vol.g.clusCnt + 2 && InUseKept(vol.g, old(vol.sec), vol.sec)
      ensures c != 0 ==> vol.Table() == (if prev == 0 then old(vol.Table()) else old(vol.Table())[prev := c])[c := EOF]
      ensures pointer.Shape() && pointer.Slot(index) == Some(c)
      ensures forall j :: 0 <= j < MAX_CLUSTERS && j != index && old(pointer.Slot(j)).Some? ==>
                pointer.Slot(j) == old(pointer.Slot(j))
    {
      c := vol.ClusterAlloc(prev);
      if c != 0 {
        FreeTaken(vol.g, old(vol.sec), vol.sec, prev, c);
      }
      pointer.SetVal(index, c);
    }

    /**
     The same for a file whose table is right so far (`ok`): if a free cluster is found, the chain is longer by it and
     one free cluster less is left above.
     */
    method AppendToChain(prev: nat, index: nat, ghost ok: bool, ghost chains: seq<seq<nat>>, ghost k: nat)
      returns (c: nat, ghost chains': seq<seq<nat>>)
      requires vol.Valid() && pointer.Shape() && prev < vol.g.clusCnt + 2 && index + 1 < MAX_CLUSTERS
      requires (ok ==> Holds(chains, k, prev, index))
      modifies vol, pointer
      ensures vol.Valid() && pointer.Shape() && c < vol.g.clusCnt + 2 && pointer.Slot(index + 1) == Some(c)
      ensures InUseKept(vol.g, old(vol.sec), vol.sec)
      ensures forall j :: 0 <= j < MAX_CLUSTERS && j != index + 1 && old(pointer.Slot(j)).Some? ==>
                pointer.Slot(j) == old(pointer.Slot(j))
      ensures ok && c == 0 ==> old(CountFree(vol.Table(), prev + 1)) == 0
      ensures ok && c != 0 ==> Holds(chains', k, c, index + 1) && chains' == chains[k := chains[k] + [c]]
      ensures ok && c != 0 ==> CountFree(vol.Table(), c + 1) + 1 == old(CountFree(vol.Table(), prev + 1))
    {
      ghost var f := vol.Table();
      c := Append(prev, index + 1);
      chains' := chains;
      if ok {
        TailFacts(f, chains, k);
        CountStep(f, prev + 1);
        if c != 0 {
          GrowOne(f, chains, k, c);
          chains' := chains[k := chains[k] + [c]];
        }
      }
    }

    /** The state of the loop: right so far, or a zero in the table because the free clusters were too few. */
    ghost predicate Going(ok: bool, chains: seq<seq<nat>>, k: nat, clus: nat, index: nat, cap: nat, need: nat, bad: nat)
      reads this, vol, pointer
    {
      vol.Valid() && pointer.Shape() && clus < vol.g.clusCnt + 2 && index < need <= MAX_CLUSTERS &&
      if ok then Holds(chains, k, clus, index) && index + 1 + CountFree(vol.Table(), clus + 1) == cap
      else bad <= index && pointer.Slot(bad) == Some(0) && cap < need
    }

    /** The loop of `file_extend`. */
    method ExtendFrom(newSize: nat, clus0: nat, index0: nat, ghost ok0: bool, ghost chains0: seq<seq<nat>>,
                      ghost k: nat, ghost cap: nat, ghost need: nat)
      returns (ghost ok: bool, ghost chains: seq<seq<nat>>, ghost clus: nat, ghost bad: nat)
      requires clusSize > 0 && need == Clusters(newSize, clusSize)
      requires Going(ok0, chains0, k, clus0, index0, cap, need, 0)
      modifies vol, pointer
      ensures Going(ok, chains, k, clus, need - 1, cap, need, bad) && (ok ==> ok0 && Longer(chains0, chains, k))
      ensures InUseKept(vol.g, old(vol.sec), vol.sec)
    {
      var cl, clusIndex := clus0, index0;
      ok, chains, bad := ok0, chains0, 0;
      while MoreNeeded(newSize, clusSize, clusIndex + 1)
        invariant Going(ok, chains, k, cl, clusIndex, cap, need, bad) && (ok ==> ok0 && Longer(chains0, chains, k))
        invariant InUseKept(vol.g, old(vol.sec), vol.sec)
        decreases need - clusIndex
      {
        ghost var next, sec := chains, vol.sec;
        cl, next := AppendToChain(cl, clusIndex, ok, chains, k);
        InUseTrans(vol.g, old(vol.sec), sec, vol.sec);
        if ok && cl == 0 {
          ok, bad := false, clusIndex + 1;
        }
        chains := next;
        clusIndex := clusIndex + 1;
      }
      clus := cl;
    }

    /** The file and its chain: as many clusters as the size needs, and the table holds them. */
    ghost predicate FileOk(chains: seq<seq<nat>>, k: nat)
      requires clusSize > 0
      reads this, vol, pointer
    {
      vol.Valid() && AllChains(vol.Table(), chains) && pointer.Shape() &&
      if firstClus == 0 then fileSize == 0
      else fileSize > 0 && k < |chains| && chains[k] != [] &&
           Holds(chains, k, Last(chains[k]), Clusters(fileSize, clusSize) - 1)
    }

    /** How many clusters the file can have: its own, and the free ones above its last. */
    ghost function Capacity(chains: seq<seq<nat>>, k: nat): nat
      requires clusSize > 0 && FileOk(chains, k)
      reads this, vol, pointer
    {
      if firstClus == 0 then CountFree(vol.Table(), 2) else |chains[k]| + CountFree(vol.Table(), Last(chains[k]) + 1)
    }

    /** The first cluster of an empty file. */
    method FirstCluster(ghost chains0: seq<seq<nat>>, ghost need: nat)
      returns (clus: nat, ghost ok: bool, ghost chains: seq<seq<nat>>)
      requires vol.Valid() && AllChains(vol.Table(), chains0) && pointer.Shape() && 0 < need <= MAX_CLUSTERS
      modifies vol, pointer, `firstClus
      ensures firstClus == clus && pointer.Shape() && pointer.Slot(0) == Some(clus)
      ensures InUseKept(vol.g, old(vol.sec), vol.sec)
      ensures ok <==> clus != 0
      ensures Going(ok, chains, |chains0|, clus, 0, old(CountFree(vol.Table(), 2)), need, 0)
      ensures ok ==> chains == chains0 + [[clus]]
    {
      ghost var f := vol.Table();
      CountStep(f, 2);
      clus := Append(0, 0);
      firstClus := clus;
      ok, chains := clus != 0, chains0 + [[clus]];
      if clus != 0 {
        NewChain(f, chains0, clus);
        CountFrame(f, vol.Table(), clus + 1);
      }
    }

    /**
     `file_extend`: the chain grows to the clusters that the new size needs and the table follows it, exactly when
     there are enough free clusters above the last one; otherwise the table gets a zero. Either way no cluster that was
     in use changes.
     */
    method FileExtend(newSize: nat, ghost chains0: seq<seq<nat>>, ghost k0: nat)
      returns (ghost ok: bool, ghost chains: seq<seq<nat>>, ghost k: nat)
      requires 0 < clusSize <= 0x8000_0000 && fileSize < newSize < 0x8000_0000
      requires Clusters(newSize, clusSize) <= MAX_CLUSTERS
      requires FileOk(chains0, k0)
      modifies this, vol, pointer
      ensures fileSize == newSize && vol.Valid() && pointer.Shape() && InUseKept(vol.g, old(vol.sec), vol.sec)
      ensures ok <==> Clusters(newSize, clusSize) <= old(Capacity(chains0, k0))
      ensures ok ==> FileOk(chains, k)
      ensures ok ==> firstClus != 0 && if old(firstClus) == 0 then k == |chains0| < |chains| &&
                                                                   chains == chains0 + [chains[k]]
                                       else k == k0 && Longer(chains0, chains, k)
      ensures !ok ==> exists i: nat :: i < Clusters(newSize, clusSize) && pointer.Slot(i) == Some(0)
    {
      var oldSize := fileSize;
      fileSize := newSize;
      NeedsMore(newSize, clusSize, 0);
      ghost var need, cap := Clusters(newSize, clusSize), old(Capacity(chains0, k0));
      var clus, index;
      ghost var ok0, last, bad;
      clus, index, ok0, chains, k := LastCluster(oldSize, newSize, chains0, k0, cap);
      ghost var sec := vol.sec;
      ok, chains, last, bad := ExtendFrom(newSize, clus, index, ok0, chains, k, cap, need);
      InUseTrans(vol.g, old(vol.sec), sec, vol.sec);
    }

    /** The first two parts of `file_extend`: an empty file gets a cluster; then the last cluster is looked up. */
    method LastCluster(size: nat, newSize: nat, ghost chains0: seq<seq<nat>>, ghost k0: nat, ghost cap: nat)
      returns (clus: nat, index: nat, ghost ok: bool, ghost chains: seq<seq<nat>>, ghost k: nat)
      requires clusSize > 0 && size < newSize && Clusters(newSize, clusSize) <= MAX_CLUSTERS
      requires vol.Valid() && AllChains(vol.Table(), chains0) && pointer.Shape()
      requires if firstClus == 0 then size == 0 && cap == CountFree(vol.Table(), 2)
               else size > 0 && k0 < |chains0| && chains0[k0] != [] &&
                    Holds(chains0, k0, Last(chains0[k0]), Clusters(size, clusSize) - 1) &&
                    cap == |chains0[k0]| + CountFree(vol.Table(), Last(chains0[k0]) + 1)
      modifies vol, pointer, `firstClus
      ensures Going(ok, chains, k, clus, index, cap, Clusters(newSize, clusSize), 0)
      ensures InUseKept(vol.g, old(vol.sec), vol.sec)
      ensures if old(firstClus) == 0 then k == |chains0| && (ok ==> firstClus != 0 && chains == chains0 + [[clus]])
              else firstClus == old(firstClus) && k == k0 && ok && chains == chains0
    {
      var oldSize := size;
      ok, chains, k := true, chains0, k0;
      NeedsMore(newSize, clusSize, 0);
      if firstClus == 0 {
        clus, ok, chains := FirstCluster(chains0, Clusters(newSize, clusSize));
        k := |chains0|;
        oldSize := 1;
      }
      OldClusters(oldSize, newSize, clusSize);
      var oldClusters := Clusters(oldSize, clusSize);
      index := oldClusters - 1;
      clus := pointer.GetClusByNo(index);
    }
  }

  /** Only chain `k` has changed, and it has become longer or is the same. */
  predicate Longer(chains: seq<seq<nat>>, chains': seq<seq<nat>>, k: nat) {
    |chains'| == |chains| && k < |chains| && chains' == chains[k := chains'[k]] && chains[k] <= chains'[k]
  }

  lemma OldClusters(oldSize: nat, newSize: nat, clusSize: nat)
    requires 0 < oldSize <= newSize && clusSize > 0
    ensures 0 < Clusters(oldSize, clusSize) <= Clusters(newSize, clusSize) && Clusters(1, clusSize) == 1
  {
    NeedsMore(oldSize, clusSize, 0);
    NeedsMore(oldSize, clusSize, Clusters(newSize, clusSize));
    NeedsMore(newSize, clusSize, Clusters(newSize, clusSize));
    NeedsMore(1, clusSize, 0);
    NeedsMore(1, clusSize, 1);
  }

  /** On a volume of one cluster, an empty file cannot grow to two: the second slot of its table gets a zero. */
  method VolumeFull() returns (file: File)
    ensures file.fileSize == 513 && file.pointer.Shape()
    ensures exists i: nat :: i < Clusters(513, 512) && file.pointer.Slot(i) == Some(0)
  {
    var vol := new Volume(Geometry(1, 2, 1, 128, 1, 1, 3));
    file := new File(vol, 512, 0, 0);
    ghost var none: seq<seq<nat>> := [];
    ghost var ok, chains, k := file.FileExtend(513, none, 0);
    assert !ok;
  }

  /** A volume of two clusters, of which the lower one has been freed again. */
  method LowerFreed() returns (vol: Volume, second: nat)
    ensures fresh(vol) && vol.Valid() && vol.g.clusCnt == 2 && vol.Table()[2] == 0 && second == 3
    ensures AllChains(vol.Table(), [[3]])
  {
    vol := new Volume(Geometry(1, 2, 1, 128, 2, 1, 3));
    var none: seq<seq<nat>> := [];
    TwoClusters(vol.Table(), none);
    var one := Apply(vol, none, Create);
    TwoClusters(vol.Table(), one);
    var two := Apply(vol, one, Create);
    second := two[1][0];
    var chains := Apply(vol, two, Delete(0));
    assert chains == [[3]];
    TwoClusters(vol.Table(), chains);
  }

  /** Which of two clusters is free. */
  lemma TwoClusters(f: seq<nat>, chains: seq<seq<nat>>)
    requires AllChains(f, chains) && |f| == 4
    ensures chains == [] ==> FirstFree(f, 2) == 2
    ensures chains == [[2]] ==> FirstFree(f, 2) == 3
    ensures chains == [[3]] ==> f[2] == 0
  {
    assert f[2] == 0 <==> !Used(chains, 2);
    assert f[3] == 0 <==> !Used(chains, 3);
    if chains == [[2]] {
      assert 2 in chains[0] && 3 !in chains[0];
    }
  }

  /** Nor can it grow by a cluster that is free, as the entry shows, but lies below its last one. */
  method FreeBelow() returns (file: File, entry: nat)
    ensures entry == 0 && file.fileSize == 513 && file.pointer.Shape()
    ensures exists i: nat :: i < Clusters(513, 512) && file.pointer.Slot(i) == Some(0)
  {
    var vol, second := LowerFreed();
    entry := vol.FatRead(2);
    file := new File(vol, 512, second, 512);
    ghost var ch: seq<nat> := [3];
    file.FilepntInit(ch);
    ghost var ok, chains, k := file.FileExtend(513, [ch], 0);
    assert !ok;
  }

  // ----- runs -----

  datatype ChainOp = Create | Extend(k: nat) | Delete(k: nat)

  /** What an operation does: the lowest free cluster is taken, from the start or after the last one of the chain. */
  function After(f: seq<nat>, chains: seq<seq<nat>>, op: ChainOp): seq<seq<nat>> {
    match op
    case Create => var c := FirstFree(f, 2); if c == 0 then chains else chains + [[c]]
    case Extend(k) =>
      if k >= |chains| || chains[k] == [] then chains
      else var c := FirstFree(f, Last(chains[k]) + 1); if c == 0 then chains else chains[k := chains[k] + [c]]
    case Delete(k) => if k >= |chains| then chains else Without(chains, k)
  }

  datatype Stage = Stage(table: seq<nat>, chains: seq<seq<nat>>)

  predicate StageOk(s: Stage) { AllChains(s.table, s.chains) }

  predicate Leads(a: Stage, op: ChainOp, b: Stage) { b.chains == After(a.table, a.chains, op) }

  predicate NoDeletes(ops: seq<ChainOp>) { forall i :: 0 <= i < |ops| ==> !ops[i].Delete? }

  /** From the first stage to the last every operation has done what it does, and the chains are always right. */
  predicate Traces(trace: seq<Stage>, ops: seq<ChainOp>, first: Stage, last: Stage) {
    |trace| == |ops| + 1 && trace[0] == first && trace[|ops|] == last &&
    (forall i :: 0 <= i < |ops| ==> Leads(trace[i], ops[i], trace[i + 1])) &&
    forall i :: 0 <= i <= |ops| ==> StageOk(trace[i])
  }

  lemma TracesMore(trace: seq<Stage>, ops: seq<ChainOp>, first: Stage, last: Stage, op: ChainOp, next: Stage)
    requires Traces(trace, ops, first, last) && Leads(last, op, next) && StageOk(next)
    ensures Traces(trace + [next], ops + [op], first, next)
  {
    var n, trace', ops' := |ops|, trace + [next], ops + [op];
    assert trace'[n] == last && trace'[n + 1] == next && ops'[n] == op;
    forall i | 0 <= i < |ops'| ensures Leads(trace'[i], ops'[i], trace'[i + 1]) {
      assert i < n ==> trace'[i] == trace[i] && ops'[i] == ops[i] && trace'[i + 1] == trace[i + 1];
    }
  }

  /**
   One operation on the chains of a volume; if no cluster is free where it is looked for, nothing changes. What the
   chains hold stays: deleting touches no data, and the others only clear a cluster that was free.
   */
  method Apply(vol: Volume, chains: seq<seq<nat>>, op: ChainOp) returns (chains': seq<seq<nat>>)
    requires vol.Valid() && AllChains(vol.Table(), chains)
    modifies vol
    ensures vol.Valid() && AllChains(vol.Table(), chains') && chains' == After(old(vol.Table()), chains, op)
    ensures if op.Delete? then SameData(vol.g, old(vol.sec), vol.sec) else InUseKept(vol.g, old(vol.sec), vol.sec)
  {
    chains' := chains;
    ghost var f := vol.Table();
    match op {
      case Create =>
        var c := vol.ClusterAlloc(0);
        if c != 0 {
          NewChain(f, chains, c);
          FreeTaken(vol.g, old(vol.sec), vol.sec, 0, c);
          chains' := chains + [[c]];
        }
      case Extend(k) =>
        if k < |chains| {
          var last := Last(chains[k]);
          assert last in chains[k];
          var c := vol.ClusterAlloc(last);
          if c != 0 {
            GrowChain(f, chains, k, c);
            FreeTaken(vol.g, old(vol.sec), vol.sec, last, c);
            chains' := chains[k := chains[k] + [c]];
          }
        }
      case Delete(k) =>
        if k < |chains| {
          DropChain(f, chains, k);
          vol.ClusSequenceFree(chains[k][0], chains[k]);
          chains' := Without(chains, k);
        }
    }
  }

  /** An operation after others that started with `sec0` and have kept all data in use. */
  method ApplyNext(vol: Volume, chains: seq<seq<nat>>, op: ChainOp, ghost sec0: Sectors, ghost kept: bool)
    returns (chains': seq<seq<nat>>)
    requires vol.Valid() && AllChains(vol.Table(), chains) && (kept ==> InUseKept(vol.g, sec0, vol.sec))
    modifies vol
    ensures vol.Valid() && StageOk(Stage(vol.Table(), chains'))
    ensures Leads(Stage(old(vol.Table()), chains), op, Stage(vol.Table(), chains'))
    ensures kept && !op.Delete? ==> InUseKept(vol.g, sec0, vol.sec)
  {
    chains' := Apply(vol, chains, op);
    if kept && !op.Delete? {
      InUseTrans(vol.g, sec0, old(vol.sec), vol.sec);
    }
  }

  /**
   Every run: chains stay disjoint, run upwards and end with the end mark, free entries are the others, and all copies
   agree. Without deletions every cluster in use keeps what it holds. The trace has the table and the chains before
   every operation and at the end.
   */
  method Run(vol: Volume, chains0: seq<seq<nat>>, ops: seq<ChainOp>)
    returns (chains: seq<seq<nat>>, ghost trace: seq<Stage>)
    requires vol.Valid() && AllChains(vol.Table(), chains0)
    modifies vol
    ensures vol.Valid() && AllChains(vol.Table(), chains)
    ensures NoDeletes(ops) ==> InUseKept(vol.g, old(vol.sec), vol.sec)
    ensures Traces(trace, ops, Stage(old(vol.Table()), chains0), Stage(vol.Table(), chains))
  {
    ghost var sec0, first := vol.sec, Stage(vol.Table(), chains0);
    chains, trace := chains0, [first];
    var i := 0;
    while i < |ops|
      invariant Ran(vol, ops, i, chains, trace, sec0, first)
    {
      chains, trace := RunOne(vol, ops, i, chains, trace, sec0, first);
      i := i + 1;
    }
    assert ops[..i] == ops;
  }

  /** The first `i` operations have been done. */
  ghost predicate Ran(vol: Volume, ops: seq<ChainOp>, i: nat, chains: seq<seq<nat>>, trace: seq<Stage>, sec0: Sectors,
                      first: Stage)
    reads vol
  {
    vol.Valid() && i <= |ops| && StageOk(Stage(vol.Table(), chains)) &&
    (NoDeletes(ops[..i]) ==> InUseKept(vol.g, sec0, vol.sec)) &&
    Traces(trace, ops[..i], first, Stage(vol.Table(), chains))
  }

  method RunOne(vol: Volume, ops: seq<ChainOp>, i: nat, chains: seq<seq<nat>>, ghost trace: seq<Stage>,
                ghost sec0: Sectors, ghost first: Stage)
    returns (chains': seq<seq<nat>>, ghost trace': seq<Stage>)
    requires i < |ops| && Ran(vol, ops, i, chains, trace, sec0, first)
    modifies vol
    ensures Ran(vol, ops, i + 1, chains', trace', sec0, first)
  {
    ghost var before := Stage(vol.Table(), chains);
    OneMore(ops, i);
    chains' := ApplyNext(vol, chains, ops[i], sec0, NoDeletes(ops[..i]));
    TracesMore(trace, ops[..i], first, before, ops[i], Stage(vol.Table(), chains'));
    trace' := trace + [Stage(vol.Table(), chains')];
  }

  lemma OneMore(ops: seq<ChainOp>, i: nat)
    requires i < |ops|
    ensures ops[..i + 1] == ops[..i] + [ops[i]] && (NoDeletes(ops[..i + 1]) <==> NoDeletes(ops[..i]) && !ops[i].Delete?)
  {
    assert ops[..i + 1][i] == ops[i];
    assert forall j :: 0 <= j < i ==> ops[..i][j] == ops[..i + 1][j];
  }
}
