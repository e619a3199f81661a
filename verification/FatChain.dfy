/** Cluster chains in a file allocation table, on values. */
module FatChain {

  const EOF: nat := 0xfffffff

  /** The chain runs upwards through the table and ends with the end mark. */
  predicate ChainIn(f: seq<nat>, ch: seq<nat>) {
    ch != [] && (forall i :: 0 <= i < |ch| ==> 2 <= ch[i] < |f|) &&
    (forall i :: 0 <= i < |ch| - 1 ==> Linked(f, ch, i)) &&
    (forall i, j :: 0 <= i < j < |ch| ==> ch[i] < ch[j]) && f[ch[|ch| - 1]] == EOF
  }

  /** The entry of a cluster is the number of the next one. */
  predicate Linked(f: seq<nat>, ch: seq<nat>, i: nat) {
    i + 1 < |ch| && ch[i] < |f| && f[ch[i]] == ch[i + 1]
  }

  predicate Apart(a: seq<nat>, b: seq<nat>) { forall c :: c in a ==> c !in b }

  /** All chains of a table: disjoint, and an entry is zero exactly when its cluster is in none of them. */
  predicate AllChains(f: seq<nat>, chains: seq<seq<nat>>) {
    |f| <= 0x0ffffff8 && (forall k :: 0 <= k < |chains| ==> ChainIn(f, chains[k])) && AllApart(chains) &&
    ZerosFree(f, chains)
  }

  predicate AllApart(chains: seq<seq<nat>>) {
    forall k, l :: 0 <= k < |chains| && 0 <= l < |chains| && k != l ==> Apart(chains[k], chains[l])
  }

  predicate ZerosFree(f: seq<nat>, chains: seq<seq<nat>>) {
    forall c {:trigger Used(chains, c)} :: 2 <= c < |f| ==> (f[c] == 0 <==> !Used(chains, c))
  }

  predicate Used(chains: seq<seq<nat>>, c: nat) { exists k :: 0 <= k < |chains| && c in chains[k] }

  /** Clusters of `ch` set free. */
  function Zeroed(f: seq<nat>, ch: seq<nat>): (r: seq<nat>)
    ensures |r| == |f| && forall c :: 0 <= c < |f| ==> r[c] == if c in ch then 0 else f[c]
  {
    seq(|f|, c requires 0 <= c < |f| => if c in ch then 0 else f[c])
  }

  /** A chain does not depend on entries of other clusters. */
  lemma ChainFrame(f: seq<nat>, f': seq<nat>, ch: seq<nat>)
    requires ChainIn(f, ch) && |f'| == |f| && forall c :: c in ch ==> f'[c] == f[c]
    ensures ChainIn(f', ch)
  {
    forall i | 0 <= i < |ch| - 1 ensures Linked(f', ch, i) {
      assert ch[i] in ch && Linked(f, ch, i);
    }
    assert ch[|ch| - 1] in ch;
  }

  /** A new chain of one free cluster. */
  lemma NewChain(f: seq<nat>, chains: seq<seq<nat>>, c: nat)
    requires AllChains(f, chains) && 2 <= c < |f| && f[c] == 0
    ensures AllChains(f[c := EOF], chains + [[c]])
  {
    var f', chains' := f[c := EOF], chains + [[c]];
    assert !Used(chains, c);
    forall k | 0 <= k < |chains| ensures ChainIn(f', chains[k]) && Apart(chains[k], [c]) {
      assert c !in chains[k];
      ChainFrame(f, f', chains[k]);
    }
    forall d | 2 <= d < |f| ensures f'[d] == 0 <==> !Used(chains', d) {
      UsedMore(chains, [c], d);
    }
  }

  lemma UsedMore(chains: seq<seq<nat>>, ch: seq<nat>, c: nat)
    ensures Used(chains + [ch], c) <==> Used(chains, c) || c in ch
  {
    var all := chains + [ch];
    if Used(chains, c) {
      var k :| 0 <= k < |chains| && c in chains[k];
      assert c in all[k];
    }
    assert all[|chains|] == ch;
  }

  lemma UsedUpdate(chains: seq<seq<nat>>, k: nat, ch: seq<nat>, c: nat)
    requires k < |chains|
    ensures Used(chains[k := ch], c) ==> Used(chains, c) || c in ch
    ensures (Used(chains, c) && c !in chains[k]) || c in ch ==> Used(chains[k := ch], c)
  {
    var all := chains[k := ch];
    if Used(chains, c) && c !in chains[k] {
      var l :| 0 <= l < |chains| && c in chains[l];
      assert c in all[l];
    }
    assert all[k] == ch;
  }

  function Last(ch: seq<nat>): nat
    requires ch != []
  {
    ch[|ch| - 1]
  }

  /** A chain grows by a free cluster above its last one. */
  lemma GrowChain(f: seq<nat>, chains: seq<seq<nat>>, k: nat, c: nat)
    requires AllChains(f, chains) && k < |chains| && Last(chains[k]) < c < |f| && f[c] == 0
    ensures AllChains(f[Last(chains[k]) := c][c := EOF], chains[k := chains[k] + [c]])
  {
    var ch := chains[k];
    var f' := f[Last(ch) := c][c := EOF];
    assert Last(ch) in ch && !Used(chains, c);
    forall l | 0 <= l < |chains| && l != k ensures ChainIn(f', chains[l]) && c !in chains[l] {
      OtherChain(f, f', chains, k, l, c);
    }
    GrownChain(f, f', ch, c);
    GrowApart(chains, k, c);
    GrowZeros(f, chains, k, c);
  }

  lemma OtherChain(f: seq<nat>, f': seq<nat>, chains: seq<seq<nat>>, k: nat, l: nat, c: nat)
    requires k < |chains| && l < |chains| && k != l && ChainIn(f, chains[k]) && ChainIn(f, chains[l])
    requires Apart(chains[k], chains[l])
    requires !Used(chains, c) && c < |f| && f' == f[Last(chains[k]) := c][c := EOF]
    ensures ChainIn(f', chains[l]) && c !in chains[l]
  {
    assert c !in chains[l] && Last(chains[k]) in chains[k];
    ChainFrame(f, f', chains[l]);
  }

  lemma GrowApart(chains: seq<seq<nat>>, k: nat, c: nat)
    requires AllApart(chains) && k < |chains| && !Used(chains, c)
    ensures AllApart(chains[k := chains[k] + [c]])
  {
    var chains' := chains[k := chains[k] + [c]];
    forall i, j | 0 <= i < |chains'| && 0 <= j < |chains'| && i != j ensures Apart(chains'[i], chains'[j]) {
      assert Apart(chains[i], chains[j]) && c !in chains[i] && c !in chains[j];
    }
  }

  lemma GrowZeros(f: seq<nat>, chains: seq<seq<nat>>, k: nat, c: nat)
    requires ZerosFree(f, chains) && k < |chains| && ChainIn(f, chains[k]) && Last(chains[k]) < c < |f|
    ensures ZerosFree(f[Last(chains[k]) := c][c := EOF], chains[k := chains[k] + [c]])
  {
    var ch := chains[k];
    var f', chains' := f[Last(ch) := c][c := EOF], chains[k := ch + [c]];
    assert Last(ch) in ch;
    forall d | 2 <= d < |f| ensures f'[d] == 0 <==> !Used(chains', d) {
      UsedUpdate(chains, k, ch + [c], d);
      assert d in ch ==> d in chains[k] && Used(chains, d);
    }
  }

  lemma GrownChain(f: seq<nat>, f': seq<nat>, ch: seq<nat>, c: nat)
    requires ChainIn(f, ch) && Last(ch) < c < |f| && f' == f[Last(ch) := c][c := EOF]
    ensures ChainIn(f', ch + [c])
  {
    var ch' := ch + [c];
    forall i | 0 <= i < |ch'| - 1 ensures Linked(f', ch', i) {
      if i < |ch| - 1 {
        assert ch[i] < ch[|ch| - 1] && Linked(f, ch, i);
      }
    }
  }

  function Without(chains: seq<seq<nat>>, k: nat): seq<seq<nat>>
    requires k < |chains|
  {
    chains[..k] + chains[k + 1..]
  }

  /** A chain is set free. */
  lemma DropChain(f: seq<nat>, chains: seq<seq<nat>>, k: nat)
    requires AllChains(f, chains) && k < |chains|
    ensures AllChains(Zeroed(f, chains[k]), Without(chains, k))
  {
    var f', rest := Zeroed(f, chains[k]), Without(chains, k);
    forall l | 0 <= l < |rest| ensures ChainIn(f', rest[l]) {
      var m := if l < k then l else l + 1;
      assert rest[l] == chains[m] && Apart(chains[m], chains[k]);
      ChainFrame(f, f', chains[m]);
    }
    forall i, j | 0 <= i < |rest| && 0 <= j < |rest| && i != j ensures Apart(rest[i], rest[j]) {
      assert Apart(chains[if i < k then i else i + 1], chains[if j < k then j else j + 1]);
    }
    DropZeros(f, chains, k);
  }

  lemma DropZeros(f: seq<nat>, chains: seq<seq<nat>>, k: nat)
    requires ZerosFree(f, chains) && AllApart(chains) && k < |chains|
    ensures ZerosFree(Zeroed(f, chains[k]), Without(chains, k))
  {
    var rest := Without(chains, k);
    forall d | 2 <= d < |f| ensures Zeroed(f, chains[k])[d] == 0 <==> !Used(rest, d) {
      DropUsed(chains, k, d);
      if d in chains[k] {
        forall l | 0 <= l < |rest| ensures d !in rest[l] {
          assert Apart(chains[k], chains[if l < k then l else l + 1]);
        }
      }
    }
  }

  lemma DropUsed(chains: seq<seq<nat>>, k: nat, d: nat)
    requires k < |chains|
    ensures Used(chains, d) <==> Used(Without(chains, k), d) || d in chains[k]
  {
    var rest := Without(chains, k);
    if Used(chains, d) && d !in chains[k] {
      var l :| 0 <= l < |chains| && d in chains[l];
      assert d in rest[if l < k then l else l - 1];
    }
    if Used(rest, d) {
      var l :| 0 <= l < |rest| && d in rest[l];
      assert d in chains[if l < k then l else l + 1];
    }
  }
}
