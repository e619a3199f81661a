/**
 The file allocation table of a FAT32 volume: copies of a table of 32-bit entries, spread over
 sectors, and the chains of clusters that the entries make up.
 */
module FatVolume {
  import opened Basics
  import opened FatChain

  predicate NotEnd(cluster: nat) { cluster < 0x0ffffff8 }

  /** Sizes from the boot sector; `wps` is the number of table entries in a sector. */
  datatype Geometry = Geometry(rsvd: nat, fatCnt: nat, fatSz: nat, wps: nat, clusCnt: nat, secPerClus: nat,
                               firstDataSec: nat)

  function BytesPerSec(g: Geometry): nat { 4 * g.wps }

  /** The tables have an entry for every cluster, and lie before the data area. */
  predicate Sane(g: Geometry) {
    g.wps > 0 && g.fatCnt > 0 && g.clusCnt + 2 <= g.fatSz * g.wps && NotEnd(g.clusCnt + 1) &&
    g.rsvd + g.fatCnt * g.fatSz <= g.firstDataSec
  }

  /** `clusterFatSec`, `clusterFatSecIndex`, `clusterSec`. */
  function FatSec(g: Geometry, c: nat, fatno: nat): nat
    requires g.wps > 0
  {
    g.rsvd + fatno * g.fatSz + c * 4 / BytesPerSec(g)
  }

  function FatIndex(g: Geometry, c: nat): nat
    requires g.wps > 0
  {
    c * 4 % BytesPerSec(g) / 4
  }

  function ClusterSec(g: Geometry, c: nat): nat
    requires c >= 2
  {
    g.firstDataSec + (c - 2) * g.secPerClus
  }

  // ----- where an entry is -----

  /** A number has one quotient and one remainder. */
  lemma Unique(q: nat, r: nat, q': nat, r': nat, d: nat)
    requires r < d && r' < d && q * d + r == q' * d + r'
    ensures q == q' && r == r'
  {
    MulMono(q + 1, q', d);
    MulMono(q' + 1, q, d);
    MulMono(q, q', d);
    MulMono(q', q, d);
  }

  /** Entry `c` is entry `c % wps` of sector `c / wps` of its table. */
  lemma Place(g: Geometry, c: nat)
    requires g.wps > 0
    ensures c * 4 / BytesPerSec(g) == c / g.wps && FatIndex(g, c) == c % g.wps
  {
    var q, r := c / g.wps, c % g.wps;
    assert c * 4 == q * (4 * g.wps) + 4 * r;
    Unique(q, 4 * r, c * 4 / (4 * g.wps), c * 4 % (4 * g.wps), 4 * g.wps);
  }

  lemma RowInTable(c: nat, w: nat, sz: nat, n: nat)
    requires w > 0 && c < n <= sz * w
    ensures c / w < sz && c % w < w
  {
    MulMono(sz, c / w, w);
    assert c == c / w * w + c % w;
  }

  lemma CopyInArea(f: nat, cnt: nat, sz: nat, row: nat)
    requires f < cnt && row < sz
    ensures f * sz + row < cnt * sz
  {
    MulMono(f + 1, cnt, sz);
    MulMono(f, cnt, sz);
  }

  lemma SectorInTable(g: Geometry, c: nat, fatno: nat)
    requires Sane(g) && c < g.clusCnt + 2 && fatno < g.fatCnt
    ensures c / g.wps < g.fatSz && FatIndex(g, c) < g.wps
    ensures FatSec(g, c, fatno) == g.rsvd + fatno * g.fatSz + c / g.wps < g.firstDataSec
  {
    Place(g, c);
    RowInTable(c, g.wps, g.fatSz, g.clusCnt + 2);
    CopyInArea(fatno, g.fatCnt, g.fatSz, c / g.wps);
  }

  /** Different entries, or entries of different copies, have different places. */
  lemma PlacesDiffer(g: Geometry, c: nat, f: nat, d: nat, e: nat)
    requires Sane(g) && c < g.clusCnt + 2 && d < g.clusCnt + 2 && f < g.fatCnt && e < g.fatCnt
    requires FatSec(g, c, f) == FatSec(g, d, e) && FatIndex(g, c) == FatIndex(g, d)
    ensures c == d && f == e
  {
    var q := Row(g, c, f);
    var r := Row(g, d, e);
    SameSector(g.rsvd, f, q, e, r, g.fatSz);
    SameIndex(g, c, d);
  }

  /** The sector of an entry within its table. */
  lemma Row(g: Geometry, c: nat, f: nat) returns (q: nat)
    requires Sane(g) && c < g.clusCnt + 2 && f < g.fatCnt
    ensures q == c / g.wps < g.fatSz && FatSec(g, c, f) == g.rsvd + f * g.fatSz + q
  {
    SectorInTable(g, c, f);
    q := c / g.wps;
  }

  lemma SameSector(rsvd: nat, f: nat, q: nat, e: nat, r: nat, sz: nat)
    requires q < sz && r < sz && rsvd + f * sz + q == rsvd + e * sz + r
    ensures f == e && q == r
  {
    Unique(f, q, e, r, sz);
  }

  lemma SameIndex(g: Geometry, c: nat, d: nat)
    requires g.wps > 0 && c / g.wps == d / g.wps && FatIndex(g, c) == FatIndex(g, d)
    ensures c == d
  {
    Place(g, c);
    Place(g, d);
    Rebuild(c, d, g.wps);
  }

  lemma Rebuild(c: nat, d: nat, w: nat)
    requires w > 0 && c / w == d / w && c % w == d % w
    ensures c == d
  {
    assert c == c / w * w + c % w && d == d / w * w + d % w;
  }

  type Sectors = seq<seq<nat>>

  predicate Shaped(g: Geometry, sec: Sectors) {
    Sane(g) && g.firstDataSec <= |sec| && g.firstDataSec + g.clusCnt * g.secPerClus <= |sec| &&
    forall s :: 0 <= s < |sec| ==> |sec[s]| == g.wps
  }

  /** Entry `c` of copy `f`. */
  function Entry(g: Geometry, sec: Sectors, c: nat, f: nat): nat
    requires Shaped(g, sec) && c < g.clusCnt + 2 && f < g.fatCnt
  {
    SectorInTable(g, c, f);
    sec[FatSec(g, c, f)][FatIndex(g, c)]
  }

  function Put(sec: Sectors, s: nat, i: nat, v: nat): Sectors
    requires s < |sec| && i < |sec[s]|
  {
    var row: seq<nat> := sec[s][i := v];
    sec[s := row]
  }

  lemma PutEntry(g: Geometry, sec: Sectors, c: nat, f: nat, v: nat, d: nat, e: nat)
    requires Shaped(g, sec) && c < g.clusCnt + 2 && f < g.fatCnt && d < g.clusCnt + 2 && e < g.fatCnt
    ensures FatSec(g, c, f) < g.firstDataSec <= |sec| && FatIndex(g, c) < g.wps
    ensures Shaped(g, Put(sec, FatSec(g, c, f), FatIndex(g, c), v))
    ensures Entry(g, Put(sec, FatSec(g, c, f), FatIndex(g, c), v), d, e) ==
            if d == c && e == f then v else Entry(g, sec, d, e)
  {
    SectorInTable(g, c, f);
    SectorInTable(g, d, e);
    if FatSec(g, c, f) == FatSec(g, d, e) && FatIndex(g, c) == FatIndex(g, d) {
      PlacesDiffer(g, c, f, d, e);
    }
  }

  /** The sectors outside the tables are the same. */
  predicate SameData(g: Geometry, sec: Sectors, sec': Sectors) {
    |sec'| == |sec| && forall s :: g.firstDataSec <= s < |sec| ==> sec'[s] == sec[s]
  }

  function Blank(g: Geometry): Sectors { seq(g.firstDataSec + g.clusCnt * g.secPerClus, _ => Zeros(g)) }

  lemma BlankTable(g: Geometry)
    requires Sane(g)
    ensures Shaped(g, Blank(g)) && AllChains(TableOf(g, Blank(g)), [])
    ensures forall c: nat, f: nat :: c < g.clusCnt + 2 && f < g.fatCnt ==> Entry(g, Blank(g), c, f) == 0
  {
    MulMono(0, g.clusCnt, g.secPerClus);
    forall c: nat, f: nat | c < g.clusCnt + 2 && f < g.fatCnt ensures Entry(g, Blank(g), c, f) == 0 {
      SectorInTable(g, c, f);
    }
  }

  /** The first copy of the table. */
  ghost function TableOf(g: Geometry, sec: Sectors): (t: seq<nat>)
    requires Shaped(g, sec)
    ensures |t| == g.clusCnt + 2 && forall c :: 0 <= c < g.clusCnt + 2 ==> t[c] == Entry(g, sec, c, 0)
  {
    seq(g.clusCnt + 2, c requires 0 <= c < g.clusCnt + 2 => Entry(g, sec, c, 0))
  }

  class Volume {
    const g: Geometry
    var sec: Sectors

    /** A volume on which nothing is stored. */
    constructor (g: Geometry)
      requires Sane(g)
      ensures this.g == g && Valid() && AllChains(Table(), [])
    {
      this.g := g;
      sec := Blank(g);
      new;
      BlankTable(g);
    }

    /** All copies of the table are alike. */
    ghost predicate Mirrored()
      requires Shaped(g, sec)
      reads this
    {
      forall c: nat, f: nat :: c < g.clusCnt + 2 && f < g.fatCnt ==> Entry(g, sec, c, f) == Entry(g, sec, c, 0)
    }

    ghost predicate Valid()
      reads this
    {
      Shaped(g, sec) && Mirrored()
    }

    /** The table. */
    ghost function Table(): (t: seq<nat>)
      requires Shaped(g, sec)
      reads this
    {
      TableOf(g, sec)
    }

    /** `fatWrite`. */
    method FatWrite(c: nat, v: nat)
      requires Valid() && c < g.clusCnt + 2
      modifies this
      ensures Valid() && Table() == old(Table())[c := v] && SameData(g, old(sec), sec)
    {
      var f := 0;
      while f < g.fatCnt
        invariant f <= g.fatCnt && Shaped(g, sec) && SameData(g, old(sec), sec)
        invariant forall d: nat, e: nat :: d < g.clusCnt + 2 && e < g.fatCnt ==>
                    Entry(g, sec, d, e) == if d == c && e < f then v else Entry(g, old(sec), d, e)
      {
        WriteCopy(c, f, v);
        f := f + 1;
      }
    }

    method WriteCopy(c: nat, f: nat, v: nat)
      requires Shaped(g, sec) && c < g.clusCnt + 2 && f < g.fatCnt
      modifies this
      ensures Shaped(g, sec) && SameData(g, old(sec), sec)
      ensures forall d: nat, e: nat :: d < g.clusCnt + 2 && e < g.fatCnt ==>
                Entry(g, sec, d, e) == if d == c && e == f then v else Entry(g, old(sec), d, e)
    {
      PutEntry(g, sec, c, f, v, c, f);
      var s, i := FatSec(g, c, f), FatIndex(g, c);
      sec := Put(sec, s, i, v);
      forall d: nat, e: nat | d < g.clusCnt + 2 && e < g.fatCnt
        ensures Entry(g, sec, d, e) == if d == c && e == f then v else Entry(g, old(sec), d, e)
      {
        PutEntry(g, old(sec), c, f, v, d, e);
      }
    }

    /** `fatRead`; numbers that are no cluster read as free. */
    method FatRead(c: nat) returns (v: nat)
      requires Valid()
      ensures v == if 2 <= c < g.clusCnt + 2 then Table()[c] else 0
    {
      if c < 2 || c > g.clusCnt + 1 {
        return 0;
      }
      SectorInTable(g, c, 0);
      v := sec[FatSec(g, c, 0)][FatIndex(g, c)];
      assert v == Entry(g, sec, c, 0);
    }

    /** `clusterZero`: the sectors of the cluster are cleared, and no other. */
    method ClusterZero(c: nat)
      requires Valid() && 2 <= c < g.clusCnt + 2
      modifies this
      ensures Valid() && Table() == old(Table()) && Cleared(g, old(sec), sec, c)
    {
      ClusterFits(g, sec, c);
      var bytes, first := BytesPerSec(g), ClusterSec(g, c);
      var n, secno, i := bytes * g.secPerClus, first, 0;
      ghost var k := 0;
      while i < n
        invariant k <= g.secPerClus && i == bytes * k && secno == first + k && |sec| == |old(sec)|
        invariant forall s :: 0 <= s < |sec| ==> sec[s] == if first <= s < secno then Zeros(g) else old(sec)[s]
        decreases g.secPerClus - k
      {
        Rounds(bytes, k, g.secPerClus);
        sec := sec[secno := Zeros(g)];
        secno, i, k := secno + 1, i + bytes, k + 1;
      }
      Rounds(bytes, k, g.secPerClus);
      ClearedKeeps(g, old(sec), sec, c);
    }

    /** What `clusterAlloc` does with the cluster it has found. */
    method Take(prev: nat, c: nat)
      requires Valid() && prev < g.clusCnt + 2 && 2 <= c < g.clusCnt + 2
      modifies this
      ensures Valid() && Table() == (if prev == 0 then old(Table()) else old(Table())[prev := c])[c := EOF]
      ensures IsZero(g, sec, c) && OthersKept(g, old(sec), sec, c)
    {
      if prev != 0 {
        FatWrite(prev, c);
      }
      FatWrite(c, EOF);
      ClusterFits(g, sec, c);
      ghost var linked := sec;
      ClusterZero(c);
      OneCleared(g, old(sec), linked, sec, c);
    }

    /**
     `clusterAlloc`: the first free cluster after `prev` is appended to the chain that ends there; zero if there is
     none. No other cluster's sectors change.
     */
    method ClusterAlloc(prev: nat) returns (c: nat)
      requires Valid() && prev < g.clusCnt + 2
      modifies this
      ensures Valid() && c == FirstFree(old(Table()), if prev == 0 then 2 else prev + 1)
      ensures c == 0 ==> sec == old(sec)
      ensures c != 0 ==> 2 <= c < g.clusCnt + 2 && IsZero(g, sec, c) && OthersKept(g, old(sec), sec, c) &&
                         Table() == (if prev == 0 then old(Table()) else old(Table())[prev := c])[c := EOF]
    {
      c := if prev == 0 then 2 else prev + 1;
      ghost var from := c;
      while c < g.clusCnt + 2
        invariant from <= c && sec == old(sec) && FirstFree(Table(), from) == FirstFree(Table(), c)
      {
        var v := FatRead(c);
        if v == 0 {
          Take(prev, c);
          return c;
        }
        c := c + 1;
      }
      return 0;
    }

    /** `clus_sequence_free`: all clusters of the chain become free, and no other entry changes. */
    method ClusSequenceFree(first: nat, ghost ch: seq<nat>)
      requires Valid() && ChainIn(Table(), ch) && first == ch[0]
      modifies this
      ensures Valid() && Table() == Zeroed(old(Table()), ch) && SameData(g, old(sec), sec)
    {
      var clus := first;
      ghost var i := 0;
      while true
        invariant 0 <= i < |ch| && clus == ch[i] && Valid() && Table() == Zeroed(old(Table()), ch[..i])
        invariant SameData(g, old(sec), sec)
        decreases |ch| - i
      {
        FreeNext(old(Table()), ch, i);
        var next := FatRead(clus);
        FatWrite(clus, 0);
        clus, i := next, i + 1;
        if !NotEnd(clus) {
          break;
        }
      }
      assert ch[..i] == ch;
    }
  }

  lemma FreeNext(f: seq<nat>, ch: seq<nat>, i: nat)
    requires ChainIn(f, ch) && i < |ch| && |f| <= 0x0ffffff8
    ensures Zeroed(f, ch[..i])[ch[i]] == f[ch[i]] && Zeroed(f, ch[..i])[ch[i] := 0] == Zeroed(f, ch[..i + 1])
    ensures if i + 1 < |ch| then f[ch[i]] == ch[i + 1] && NotEnd(ch[i + 1]) else f[ch[i]] == EOF
  {
    assert i + 1 < |ch| ==> Linked(f, ch, i);
    assert ch[..i + 1] == ch[..i] + [ch[i]];
  }

  lemma Rounds(d: nat, k: nat, n: nat)
    requires d > 0
    ensures d * k < d * n <==> k < n
    ensures d * (k + 1) == d * k + d
  {
    MulMono(k + 1, n, d);
    MulMono(n, k, d);
  }

  /** The lowest free cluster from `c` on, or zero. */
  function FirstFree(f: seq<nat>, c: nat): (r: nat)
    ensures r != 0 ==> c <= r < |f| && f[r] == 0 && forall d :: c <= d < r ==> f[d] != 0
    ensures r == 0 && c > 0 ==> forall d :: c <= d < |f| ==> f[d] != 0
    decreases |f| - c
  {
    if c >= |f| then 0 else if f[c] == 0 then c else FirstFree(f, c + 1)
  }

  /** The sectors of a cluster are clear. */
  predicate IsZero(g: Geometry, sec: Sectors, c: nat)
    requires c >= 2
  {
    ClusterSec(g, c) + g.secPerClus <= |sec| &&
    forall s :: ClusterSec(g, c) <= s < ClusterSec(g, c) + g.secPerClus ==> sec[s] == Zeros(g)
  }

  function Zeros(g: Geometry): seq<nat> { seq(g.wps, _ => 0) }

  predicate Cleared(g: Geometry, sec: Sectors, sec': Sectors, c: nat)
    requires c >= 2
  {
    |sec'| == |sec| &&
    forall s :: 0 <= s < |sec| ==>
             sec'[s] == if ClusterSec(g, c) <= s < ClusterSec(g, c) + g.secPerClus then Zeros(g) else sec[s]
  }

  lemma ClusterFits(g: Geometry, sec: Sectors, c: nat)
    requires Shaped(g, sec) && 2 <= c < g.clusCnt + 2
    ensures g.firstDataSec <= ClusterSec(g, c) && ClusterSec(g, c) + g.secPerClus <= |sec|
  {
    MulMono(c - 1, g.clusCnt, g.secPerClus);
    MulMono(c - 2, g.clusCnt, g.secPerClus);
  }

  /** Clusters follow each other in the data area, from cluster 2 on, and share no sector. */
  lemma ClustersApart(g: Geometry, c: nat, d: nat)
    requires 2 <= c < d
    ensures ClusterSec(g, 2) == g.firstDataSec && ClusterSec(g, c + 1) == ClusterSec(g, c) + g.secPerClus
    ensures ClusterSec(g, c) + g.secPerClus <= ClusterSec(g, d)
  {
    MulMono(c - 1, d - 2, g.secPerClus);
    assert (c - 1) * g.secPerClus == (c - 2) * g.secPerClus + g.secPerClus;
  }

  /** What a cluster holds. */
  function ClusterData(g: Geometry, sec: Sectors, c: nat): (r: Sectors)
    requires Shaped(g, sec) && 2 <= c < g.clusCnt + 2
    ensures |r| == g.secPerClus
  {
    ClusterFits(g, sec, c);
    sec[ClusterSec(g, c)..ClusterSec(g, c) + g.secPerClus]
  }

  /** Every cluster but `c` holds what it held. */
  predicate OthersKept(g: Geometry, sec: Sectors, sec': Sectors, c: nat) {
    Shaped(g, sec) && Shaped(g, sec') &&
    forall d :: 2 <= d < g.clusCnt + 2 && d != c ==> ClusterData(g, sec', d) == ClusterData(g, sec, d)
  }

  lemma OneCleared(g: Geometry, sec0: Sectors, sec: Sectors, sec': Sectors, c: nat)
    requires Shaped(g, sec0) && Shaped(g, sec) && Shaped(g, sec') && 2 <= c < g.clusCnt + 2
    requires SameData(g, sec0, sec) && Cleared(g, sec, sec', c)
    ensures OthersKept(g, sec0, sec', c)
  {
    forall d | 2 <= d < g.clusCnt + 2 && d != c ensures ClusterData(g, sec', d) == ClusterData(g, sec0, d) {
      ClusterFits(g, sec, d);
      ClustersApart(g, Min(c, d), Max(c, d));
    }
  }

  /** If the cluster is not free, it stays so and holds what it held. */
  ghost predicate KeptAt(g: Geometry, sec: Sectors, sec': Sectors, d: nat)
    requires Shaped(g, sec) && Shaped(g, sec')
  {
    2 <= d < g.clusCnt + 2 && TableOf(g, sec)[d] != 0 ==>
      TableOf(g, sec')[d] != 0 && ClusterData(g, sec', d) == ClusterData(g, sec, d)
  }

  ghost predicate InUseKept(g: Geometry, sec: Sectors, sec': Sectors) {
    Shaped(g, sec) && Shaped(g, sec') && forall d {:trigger KeptAt(g, sec, sec', d)} :: KeptAt(g, sec, sec', d)
  }

  lemma InUseTrans(g: Geometry, sec: Sectors, sec1: Sectors, sec2: Sectors)
    requires InUseKept(g, sec, sec1) && InUseKept(g, sec1, sec2)
    ensures InUseKept(g, sec, sec2)
  {
    forall d ensures KeptAt(g, sec, sec2, d) {
      assert KeptAt(g, sec, sec1, d) && KeptAt(g, sec1, sec2, d);
    }
  }

  lemma FreeTaken(g: Geometry, sec: Sectors, sec': Sectors, prev: nat, c: nat)
    requires OthersKept(g, sec, sec', c) && 2 <= c < g.clusCnt + 2 && prev < g.clusCnt + 2 && TableOf(g, sec)[c] == 0
    requires var f := TableOf(g, sec); TableOf(g, sec') == (if prev == 0 then f else f[prev := c])[c := EOF]
    ensures InUseKept(g, sec, sec')
  {
  }

  // ----- the tables as they lie on the disk -----

  /** The words of consecutive sectors. */
  function Words(rows: Sectors): seq<nat> {
    if rows == [] then [] else rows[0] + Words(rows[1..])
  }

  lemma {:induction false} WordAt(rows: Sectors, w: nat, c: nat, q: nat, i: nat)
    requires q < |rows| && i < w && c == q * w + i && forall s :: 0 <= s < |rows| ==> |rows[s]| == w
    ensures c < |Words(rows)| && Words(rows)[c] == rows[q][i]
    decreases q
  {
    if q > 0 {
      Rounds(w, q - 1, q);
      WordAt(rows[1..], w, c - w, q - 1, i);
    }
  }

  lemma CopyFits(g: Geometry, sec: Sectors, f: nat)
    requires Shaped(g, sec) && f < g.fatCnt
    ensures g.rsvd + f * g.fatSz + g.fatSz <= |sec|
  {
    MulMono(f + 1, g.fatCnt, g.fatSz);
  }

  /** The sectors of copy `f`: `fatSz` in a row, `f * fatSz` after the reserved ones. */
  function Copy(g: Geometry, sec: Sectors, f: nat): (r: Sectors)
    requires Shaped(g, sec) && f < g.fatCnt
    ensures |r| == g.fatSz && forall k :: 0 <= k < |r| ==> |r[k]| == g.wps
  {
    CopyFits(g, sec, f);
    var start := g.rsvd + f * g.fatSz;
    sec[start..][..g.fatSz]
  }

  /** Entry `c` of copy `f` is word `c` of its sectors. */
  lemma EntryIsWord(g: Geometry, sec: Sectors, c: nat, f: nat)
    requires Shaped(g, sec) && c < g.clusCnt + 2 && f < g.fatCnt
    ensures c < |Words(Copy(g, sec, f))| && Entry(g, sec, c, f) == Words(Copy(g, sec, f))[c]
  {
    var q, i := c / g.wps, c % g.wps;
    EntryInRow(g, sec, c, f, q, i);
    WordAt(Copy(g, sec, f), g.wps, c, q, i);
  }

  lemma EntryInRow(g: Geometry, sec: Sectors, c: nat, f: nat, q: nat, i: nat)
    requires Shaped(g, sec) && c < g.clusCnt + 2 && f < g.fatCnt && q == c / g.wps && i == c % g.wps
    ensures q < g.fatSz && i < g.wps && c == q * g.wps + i
    ensures Entry(g, sec, c, f) == Copy(g, sec, f)[q][i]
  {
    SectorInTable(g, c, f);
    Place(g, c);
    CopyFits(g, sec, f);
  }

  lemma ClearedKeeps(g: Geometry, sec: Sectors, sec': Sectors, c: nat)
    requires Shaped(g, sec) && 2 <= c < g.clusCnt + 2 && Cleared(g, sec, sec', c)
    ensures Shaped(g, sec')
    ensures forall d: nat, e: nat :: d < g.clusCnt + 2 && e < g.fatCnt ==> Entry(g, sec', d, e) == Entry(g, sec, d, e)
    ensures TableOf(g, sec') == TableOf(g, sec)
  {
    ClusterFits(g, sec, c);
    forall d: nat, e: nat | d < g.clusCnt + 2 && e < g.fatCnt ensures Entry(g, sec', d, e) == Entry(g, sec, d, e) {
      SectorInTable(g, d, e);
    }
  }
}
