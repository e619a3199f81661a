/** The compressor of the symbol table generator, in place on the names' own buffers. */
module KallsymsBuild {
  import opened TokenTable

  /** The index of a pair in the profit table. */
  function Pair(a: Byte, b: Byte): (q: nat)
    ensures q < 0x10000
  {
    a + 256 * b
  }

  /** The first position from `p` on, among `len` bytes, where the token stands; -1 if there is none. */
  method FindToken(str: array<Byte>, p: nat, len: nat, a: Byte, b: Byte) returns (k: int)
    requires p + len <= str.Length
    ensures k == -1 || (p <= k && k + 1 < p + len && str[k] == a && str[k + 1] == b)
    ensures forall i :: p <= i && i + 1 < p + len && (k == -1 || i < k) ==> !(str[i] == a && str[i + 1] == b)
  {
    k := p;
    while k + 1 < p + len
      invariant p <= k
      invariant forall i :: p <= i < k && i + 1 < p + len ==> !(str[i] == a && str[i + 1] == b)
    {
      if str[k] == a && str[k + 1] == b {
        return;
      }
      k := k + 1;
    }
    k := -1;
  }

  /** `memmove(p, p + 1, size)`. */
  method ShiftDown(buf: array<Byte>, p: nat, size: nat)
    requires p + size + 1 <= buf.Length
    modifies buf
    ensures forall k :: 0 <= k < buf.Length ==> buf[k] == if p <= k < p + size then old(buf[k + 1]) else old(buf[k])
  {
    var i := 0;
    while i < size
      invariant 0 <= i <= size
      invariant forall k :: 0 <= k < buf.Length ==> buf[k] == if p <= k < p + i then old(buf[k + 1]) else old(buf[k])
    {
      buf[p + i] := buf[p + i + 1];
      i := i + 1;
    }
  }

  lemma Assoc(a: seq<Byte>, b: seq<Byte>, c: seq<Byte>, d: seq<Byte>)
    ensures a + (b + c + d) == a + b + c + d
  {
  }

  lemma {:induction false} FirstPair(s: seq<Byte>, p: nat, k: nat, m: nat, a: Byte, b: Byte, idx: Byte)
    requires p <= k && k + 1 < m <= |s| && s[k] == a && s[k + 1] == b
    requires forall i :: p <= i < k ==> !PairAt(s, i, a, b)
    ensures Replace(s[p..m], a, b, idx) == s[p..k] + [idx] + Replace(s[k + 2..m], a, b, idx)
  {
    var u := s[p..m];
    forall i | 0 <= i < k - p ensures !PairAt(u, i, a, b) {
      assert !PairAt(s, p + i, a, b);
    }
    ReplaceFirst(u, k - p, a, b, idx);
    assert u[k - p + 2..] == s[k + 2..m] && u[..k - p] == s[p..k];
  }

  /** One replacement at `k`: the finished part grows by it, and the rest is still to be done. */
  lemma {:induction false} ShiftedText(s: seq<Byte>, s': seq<Byte>, p: nat, k: nat, m: nat, a: Byte, b: Byte, idx: Byte)
    requires p <= k && k + 1 < m <= |s| && m - 1 <= |s'| && s[k] == a && s[k + 1] == b
    requires forall i :: p <= i < k ==> !PairAt(s, i, a, b)
    requires s'[..k] == s[..k] && s'[k] == idx && s'[k + 1..m - 1] == s[k + 2..m]
    ensures s'[..k + 1] + Replace(s'[k + 1..m - 1], a, b, idx) == s[..p] + Replace(s[p..m], a, b, idx)
  {
    FirstPair(s, p, k, m, a, b, idx);
    Assoc(s[..p], s[p..k], [idx], Replace(s[k + 2..m], a, b, idx));
    assert s[..p] + s[p..k] == s[..k];
    assert s'[..k + 1] == s[..k] + [idx];
  }

  /**
   The loop of `compress_symbols` on one name that holds the token.  `size` keeps counting
   bytes that are gone, so the later searches run on into the terminating zeros; no
   token contains a zero, so they find nothing there.
   */
  method CompressSymbol(buf: array<Byte>, len: nat, first: nat, a: Byte, b: Byte, idx: Byte) returns (newLen: nat)
    requires len < buf.Length && a != 0 && b != 0
    requires forall i :: len <= i < buf.Length ==> buf[i] == 0
    requires first + 1 < len && buf[first] == a && buf[first + 1] == b
    requires forall i :: 0 <= i < first ==> !(buf[i] == a && buf[i + 1] == b)
    modifies buf
    ensures newLen <= len && buf[..newLen] == Replace(old(buf[..len]), a, b, idx)
    ensures forall i :: newLen <= i < buf.Length ==> buf[i] == 0
  {
    var p1, p2, size := 0, first, len;
    newLen := len;
    ghost var goal := Replace(buf[..len], a, b, idx);
    while true
      invariant 0 <= p1 <= p2 && p2 + 1 < newLen <= len && size == len - p1
      invariant buf[p2] == a && buf[p2 + 1] == b && forall i :: p1 <= i < p2 ==> !(buf[i] == a && buf[i + 1] == b)
      invariant forall i :: newLen <= i < buf.Length ==> buf[i] == 0
      invariant buf[..p1] + Replace(buf[p1..newLen], a, b, idx) == goal
      decreases newLen
    {
      newLen, p1, size := ReplaceHere(buf, newLen, p1, p2, size, len, a, b, idx);
      if size < 2 {
        break;
      }
      var k := FindToken(buf, p1, size, a, b);
      if k == -1 {
        break;
      }
      p2 := k;
    }
    NothingLeft(buf[..], p1, newLen, a, b, idx);
  }

  /** The body of the loop up to the next search. */
  method ReplaceHere(buf: array<Byte>, m: nat, p1: nat, p2: nat, size: nat, ghost len: nat, a: Byte, b: Byte, idx: Byte)
    returns (m': nat, p1': nat, size': nat)
    requires p1 <= p2 && p2 + 1 < m <= len < buf.Length && size == len - p1
    requires buf[p2] == a && buf[p2 + 1] == b && forall i :: p1 <= i < p2 ==> !(buf[i] == a && buf[i + 1] == b)
    requires forall i :: m <= i < buf.Length ==> buf[i] == 0
    modifies buf
    ensures m' == m - 1 && p1' == p2 + 1 && size' == len - p1'
    ensures forall i :: m' <= i < buf.Length ==> buf[i] == 0
    ensures buf[..p1'] + Replace(buf[p1'..m'], a, b, idx) == old(buf[..p1] + Replace(buf[p1..m], a, b, idx))
  {
    ghost var s := buf[..];
    assert s[..p1] == buf[..p1] && s[p1..m] == buf[p1..m];
    p1' := p2 + 1;
    size' := size - (p1' - p1);
    Overwrite(buf, p2, size', idx);
    m' := m - 1;
    ghost var s' := buf[..];
    Overwritten(s, s', p1, p2, m, len, a, b, idx);
    assert buf[..p1'] == s'[..p1'] && buf[p1'..m'] == s'[p1'..m'];
  }

  /** Store the code over the first byte of the token and move the tail down over the second. */
  method Overwrite(buf: array<Byte>, p: nat, size: nat, idx: Byte)
    requires p + size + 2 <= buf.Length
    modifies buf
    ensures forall k :: 0 <= k < buf.Length && (k < p || k > p + size) ==> buf[k] == old(buf[k])
    ensures buf[p] == idx && forall k :: p < k <= p + size ==> buf[k] == old(buf[k + 1])
  {
    buf[p] := idx;
    ShiftDown(buf, p + 1, size);
  }

  lemma {:induction false} Overwritten(s: seq<Byte>, s': seq<Byte>, p: nat, k: nat, m: nat, len: nat, a: Byte, b: Byte,
                                       idx: Byte)
    requires p <= k && k + 1 < m <= len < |s| && |s'| == |s| && s[k] == a && s[k + 1] == b
    requires forall i :: p <= i < k ==> !PairAt(s, i, a, b)
    requires forall i :: m <= i < |s| ==> s[i] == 0
    requires forall i :: 0 <= i < |s| && (i < k || i >= len) ==> s'[i] == s[i]
    requires s'[k] == idx && forall i :: k < i < len ==> s'[i] == s[i + 1]
    ensures s'[..k + 1] + Replace(s'[k + 1..m - 1], a, b, idx) == s[..p] + Replace(s[p..m], a, b, idx)
    ensures forall i :: m - 1 <= i < |s| ==> s'[i] == 0
  {
    assert s'[..k] == s[..k];
    assert s'[k + 1..m - 1] == s[k + 2..m];
    ShiftedText(s, s', p, k, m, a, b, idx);
  }

  lemma {:induction false} NothingLeft(s: seq<Byte>, p: nat, m: nat, a: Byte, b: Byte, idx: Byte)
    requires p <= m <= |s|
    requires forall i :: p <= i && i + 1 < m ==> !PairAt(s, i, a, b)
    ensures s[..p] + Replace(s[p..m], a, b, idx) == s[..m]
  {
    var u := s[p..m];
    forall i | 0 <= i < |u| ensures !PairAt(u, i, a, b) {
      assert i + 1 < |u| ==> !PairAt(s, p + i, a, b);
    }
    ReplaceNone(u, a, b, idx);
  }

  lemma {:induction false} PairInjective(a: Byte, b: Byte, c: Byte, d: Byte)
    ensures Pair(a, b) == Pair(c, d) <==> a == c && b == d
  {
  }

  /** The profit table holds the number of occurrences of every pair. */
  ghost predicate Counts(profit: seq<int>, names: seq<seq<Byte>>) {
    |profit| == 0x10000 && forall a: Byte, b: Byte :: profit[Pair(a, b)] == CountAll(names, a, b)
  }

  /** Count the pairs of a name up or down: `learn_symbol` and `forget_symbol`. */
  method Learn(sym: array<Byte>, len: nat, profit: array<int>, up: bool)
    requires len <= sym.Length && profit.Length == 0x10000 && sym as object != profit
    modifies profit
    ensures Learned(profit[..], old(profit[..]), up, sym[..len])
  {
    ghost var before := profit[..];
    if len == 0 {
      return;
    }
    var i := 0;
    while i + 1 < len
      invariant 0 <= i < len && Learned(profit[..], before, up, sym[..i + 1])
    {
      LearnedStep(profit[..], before, up, sym[..i + 1], sym[i + 1]);
      var p := Pair(sym[i], sym[i + 1]);
      ghost var now := profit[..];
      profit[p] := if up then profit[p] + 1 else profit[p] - 1;
      assert profit[..] == now[p := now[p] + Signed(up, 1)] && sym[..i + 2] == sym[..i + 1] + [sym[i + 1]];
      i := i + 1;
    }
  }

  function Signed(up: bool, n: int): int { if up then n else -n }

  /** Every pair has been counted as often as it occurs in the name. */
  ghost predicate Learned(p: seq<int>, before: seq<int>, up: bool, s: seq<Byte>) {
    |p| == |before| == 0x10000 &&
    forall a: Byte, b: Byte :: p[Pair(a, b)] == before[Pair(a, b)] + Signed(up, Count(s, a, b))
  }

  lemma LearnedStep(p: seq<int>, before: seq<int>, up: bool, s: seq<Byte>, y: Byte)
    requires Learned(p, before, up, s) && s != []
    ensures var k := Pair(s[|s| - 1], y); Learned(p[k := p[k] + Signed(up, 1)], before, up, s + [y])
  {
    var x := s[|s| - 1];
    var p' := p[Pair(x, y) := p[Pair(x, y)] + Signed(up, 1)];
    assert (s + [y])[..|s|] == s;
    forall a: Byte, b: Byte ensures p'[Pair(a, b)] == before[Pair(a, b)] + Signed(up, Count(s + [y], a, b)) {
      PairInjective(a, b, x, y);
      assert Count(s + [y], a, b) == (if x == a && y == b then 1 else 0) + Count(s, a, b);
    }
  }

  /** The pair with the highest profit; the first one among equals. */
  method FindBestToken(profit: array<int>) returns (best: nat)
    requires profit.Length == 0x10000
    ensures best < 0x10000
    ensures forall q :: 0 <= q < 0x10000 ==> profit[q] <= profit[best] || profit[q] <= -10000
    ensures profit[best] > -10000 ==> forall q :: 0 <= q < best ==> profit[q] < profit[best]
  {
    var bestprofit := -10000;
    best := 0;
    var i := 0;
    while i < 0x10000
      invariant 0 <= i <= 0x10000 && best < 0x10000
      invariant bestprofit == -10000 ==> best == 0 && forall q :: 0 <= q < i ==> profit[q] <= -10000
      invariant bestprofit > -10000 ==> best < i && bestprofit == profit[best]
      invariant bestprofit >= -10000 && forall q :: 0 <= q < i ==> profit[q] <= bestprofit
      invariant bestprofit > -10000 ==> forall q :: 0 <= q < best ==> profit[q] < profit[best]
    {
      if profit[i] > bestprofit {
        best := i;
        bestprofit := profit[i];
      }
      i := i + 1;
    }
  }

  lemma {:induction false} CountAllUpdate(names: seq<seq<Byte>>, i: nat, s: seq<Byte>, a: Byte, b: Byte)
    requires i < |names|
    ensures CountAll(names[i := s], a, b) == CountAll(names, a, b) - Count(names[i], a, b) + Count(s, a, b)
  {
    var n := |names| - 1;
    if i == n {
      assert names[i := s][..n] == names[..n];
    } else {
      assert names[i := s][..n] == names[..n][i := s];
      CountAllUpdate(names[..n], i, s, a, b);
    }
  }

  class Entry {
    const sym: array<Byte>
    var len: nat

    constructor (name: seq<Byte>)
      ensures fresh(sym) && sym.Length == |name| + 1 && len == |name|
      ensures sym[..len] == name && sym[len] == 0
    {
      var buf := new Byte[|name| + 1](k requires 0 <= k => if k < |name| then name[k] else 0);
      sym, len := buf, |name|;
      new;
      assert buf[..|name|] == name;
    }
  }

  class Compressor {
    const table: seq<Entry>
    const profit: array<int>
    const best: array<seq<Byte>>

    /** The current text of every name, as compressed so far. */
    ghost var texts: seq<seq<Byte>>

    ghost predicate Valid()
      reads this, profit, best, table, set e | e in table :: e.sym
    {
      profit.Length == 0x10000 && best.Length == 256 && |texts| == |table| &&
      (forall i :: 0 <= i < |table| ==>
         && table[i].len < table[i].sym.Length && table[i].sym[..table[i].len] == texts[i]
         && (forall k :: table[i].len <= k < table[i].sym.Length ==> table[i].sym[k] == 0)
         && table[i].sym as object != profit && table[i].sym as object != best) &&
      (forall i, j :: 0 <= i < j < |table| ==> table[i] != table[j] && table[i].sym != table[j].sym)
    }

    /** Replace the token in one name and keep the profit table in step. */
    method CompressEntry(i: nat, a: Byte, b: Byte, idx: Byte)
      requires Valid() && i < |table| && a != 0 && b != 0
      requires Counts(profit[..], texts)
      modifies this, profit, table[i], table[i].sym
      ensures Valid() && Counts(profit[..], texts)
      ensures texts == old(texts)[i := Replace(old(texts)[i], a, b, idx)]
    {
      var e := table[i];
      var k := FindToken(e.sym, 0, e.len, a, b);
      if k == -1 {
        NothingLeft(e.sym[..], 0, e.len, a, b, idx);
        assert e.sym[..][0..e.len] == texts[i];
        return;
      }
      ghost var before := texts[i];
      Learn(e.sym, e.len, profit, false);
      e.len := CompressSymbol(e.sym, e.len, k, a, b, idx);
      texts := texts[i := e.sym[..e.len]];
      Learn(e.sym, e.len, profit, true);
      forall c: Byte, d: Byte ensures profit[Pair(c, d)] == CountAll(texts, c, d) {
        CountAllUpdate(old(texts), i, texts[i], c, d);
        assert old(profit[..])[Pair(c, d)] == old(profit[Pair(c, d)]);
      }
    }

    /** Replace a token in all names. */
    method CompressSymbols(a: Byte, b: Byte, idx: Byte)
      requires Valid() && a != 0 && b != 0 && Counts(profit[..], texts)
      modifies this, profit, table, set e | e in table :: e.sym
      ensures Valid() && Counts(profit[..], texts)
      ensures texts == ReplaceAll(old(texts), a, b, idx)
    {
      var i := 0;
      while i < |table|
        invariant 0 <= i <= |table| && Valid() && Counts(profit[..], texts)
        invariant forall j :: 0 <= j < |table| ==>
                    texts[j] == if j < i then Replace(old(texts)[j], a, b, idx) else old(texts)[j]
      {
        CompressEntry(i, a, b, idx);
        i := i + 1;
      }
    }

    /** The pair that occurs most often, or the news that no pair occurs at all. */
    method ChooseToken() returns (more: bool, a: Byte, b: Byte)
      requires Valid() && Counts(profit[..], texts)
      ensures forall c: Byte, d: Byte :: CountAll(texts, c, d) <= CountAll(texts, a, b)
      ensures more == (CountAll(texts, a, b) > 0)
    {
      var q := FindBestToken(profit);
      a, b := q % 256, q / 256;
      more := profit[q] != 0;
      assert q == Pair(a, b);
      forall c: Byte, d: Byte ensures CountAll(texts, c, d) <= CountAll(texts, a, b) {
        assert profit[..][Pair(c, d)] == profit[Pair(c, d)] && profit[..][Pair(a, b)] == profit[q];
      }
    }

    /** One slot of the optimiser: choose the best pair, give it the slot, replace it everywhere. */
    method FillSlot(i: Byte, ghost orig: seq<seq<Byte>>) returns (more: bool)
      requires Valid() && Counts(profit[..], texts) && Sound(best[..], texts, orig)
      requires FreeUpTo(best[..], i) && best[i] == [] && Saving(best[..], texts, orig) && FilledAbove(best[..], i)
      modifies this, profit, best, table, set e | e in table :: e.sym
      ensures Valid() && Counts(profit[..], texts) && Sound(best[..], texts, orig) && Saving(best[..], texts, orig)
      ensures if more then FreeUpTo(best[..], i - 1) && FilledAbove(best[..], i - 1) && Total(texts) < old(Total(texts))
              else texts == old(texts) && best[..] == old(best[..]) && NoPairs(texts)
    {
      var a, b;
      more, a, b := ChooseToken();
      if more {
        ChosenToken(best[..], texts, orig, i, a, b);
        ReplaceAllShrinks(texts, a, b, i);
        SavingMore(best[..], texts, orig, i, a, b);
        UseToken(i, a, b);
      }
    }

    /** Place the pair in the slot and replace it in all names. */
    method UseToken(i: Byte, a: Byte, b: Byte)
      requires Valid() && Counts(profit[..], texts) && a != 0 && b != 0
      modifies this, profit, best, table, set e | e in table :: e.sym
      ensures Valid() && Counts(profit[..], texts)
      ensures texts == ReplaceAll(old(texts), a, b, i) && best[..] == old(best[..])[i := [a, b]]
    {
      best[i] := [a, b];
      CompressSymbols(a, b, i);
    }

    /** Hand out the free slots from the top until no pair is left. */
    method OptimizeResult(ghost orig: seq<seq<Byte>>)
      requires Valid() && Counts(profit[..], texts) && Sound(best[..], texts, orig) && FreeUpTo(best[..], 255)
      requires Saving(best[..], texts, orig)
      modifies this, profit, best, table, set e | e in table :: e.sym
      ensures Valid() && Counts(profit[..], texts) && Sound(best[..], texts, orig)
      ensures Total(texts) <= old(Total(texts)) && Saving(best[..], texts, orig) && Complete(best[..], texts)
    {
      var i := 255;
      while i >= 0
        invariant -1 <= i < 256 && Valid() && Counts(profit[..], texts) && Sound(best[..], texts, orig)
        invariant FreeUpTo(best[..], i) && Total(texts) <= old(Total(texts)) && Saving(best[..], texts, orig)
        invariant FilledAbove(best[..], i)
      {
        if best[i] == [] {
          var more := FillSlot(i, orig);
          if !more {
            return;
          }
        }
        i := i - 1;
      }
    }

    /** Put the characters that occur into their own slots. */
    method InsertRealSymbols()
      requires Valid() && forall i :: 0 <= i < |texts| ==> 0 !in texts[i]
      modifies best
      ensures Valid() && WellFormed(best[..]) && FreeUpTo(best[..], 255)
      ensures Sound(best[..], texts, texts) && Saving(best[..], texts, texts)
    {
      var c := 0;
      while c < 256
        invariant 0 <= c <= 256
        invariant forall d :: 0 <= d < c ==> best[d] == []
      {
        best[c] := [];
        c := c + 1;
      }
      var i := 0;
      while i < |table|
        invariant 0 <= i <= |table| && Valid() && best[0] == []
        invariant forall d: Byte :: best[d] == [] || best[d] == [d]
        invariant forall h, k :: 0 <= h < i && 0 <= k < |texts[h]| ==> best[texts[h][k]] != []
        invariant Letters(best[..], texts)
      {
        InsertName(i);
        i := i + 1;
      }
      forall h | 0 <= h < |texts| ensures Uses(best[..], texts[h]) && Expand(best[..], texts[h]) == texts[h] {
        ExpandCharacters(best[..], texts[h]);
      }
      NoTokens(best[..], 256);
    }

    method InsertName(i: nat)
      requires Valid() && i < |table| && 0 !in texts[i] && best[0] == []
      requires Letters(best[..], texts) && forall d: Byte :: best[d] == [] || best[d] == [d]
      modifies best
      ensures Valid() && best[0] == [] && forall d: Byte :: best[d] == [] || best[d] == [d]
      ensures forall d: Byte :: old(best[d]) != [] ==> best[d] != []
      ensures forall k :: 0 <= k < |texts[i]| ==> best[texts[i][k]] != []
      ensures Letters(best[..], texts)
    {
      var j := 0;
      while j < table[i].len
        invariant 0 <= j <= table[i].len && Valid() && best[0] == [] &&
                  forall d: Byte :: best[d] == [] || best[d] == [d]
        invariant forall d: Byte :: old(best[d]) != [] ==> best[d] != []
        invariant forall k :: 0 <= k < j ==> best[texts[i][k]] != []
        invariant Letters(best[..], texts)
      {
        var c := table[i].sym[j];
        assert c == texts[i][j];
        ghost var t := best[..];
        best[c] := [c];
        OneMoreLetter(t, texts, i, j);
        assert best[..] == t[c := [c]];
        j := j + 1;
      }
    }

    /** The initial count of the pairs in all names. */
    method BuildInitialTable()
      requires Valid()
      modifies profit
      ensures Valid() && Counts(profit[..], texts)
    {
      var q := 0;
      while q < 0x10000
        invariant 0 <= q <= 0x10000
        invariant forall p :: 0 <= p < q ==> profit[p] == 0
      {
        profit[q] := 0;
        q := q + 1;
      }
      var i := 0;
      while i < |table|
        invariant 0 <= i <= |table| && Valid()
        invariant forall a: Byte, b: Byte :: profit[Pair(a, b)] == CountAll(texts[..i], a, b)
      {
        assert texts[..i + 1][..i] == texts[..i];
        Learn(table[i].sym, table[i].len, profit, true);
        i := i + 1;
      }
      assert texts[..i] == texts;
      assert forall a: Byte, b: Byte :: profit[..][Pair(a, b)] == profit[Pair(a, b)];
    }

    /**
     The whole compression, for names without a zero byte: afterwards every name
     expands to exactly the bytes it had before, and nothing has become longer.
     */
    method OptimizeTokenTable()
      requires Valid() && forall i :: 0 <= i < |texts| ==> 0 !in texts[i]
      modifies this, profit, best, table, set e | e in table :: e.sym
      ensures Valid() && Sound(best[..], texts, old(texts)) && Saving(best[..], texts, old(texts))
      ensures Complete(best[..], texts)
    {
      BuildInitialTable();
      InsertRealSymbols();
      OptimizeResult(texts);
    }

    method Codes() returns (codes: seq<seq<Byte>>)
      requires Valid()
      ensures codes == texts
    {
      codes := [];
      while |codes| < |table|
        invariant |codes| <= |table| && codes == texts[..|codes|]
        decreases |table| - |codes|
      {
        var e := table[|codes|];
        codes := codes + [e.sym[..e.len]];
      }
    }

    /** Fresh buffers for the given names. */
    constructor (entries: seq<Entry>, names: seq<seq<Byte>>)
      requires |entries| == |names|
      requires forall i :: 0 <= i < |entries| ==>
        && entries[i].sym.Length == |names[i]| + 1 && entries[i].len == |names[i]|
        && entries[i].sym[..|names[i]|] == names[i] && entries[i].sym[|names[i]|] == 0
      requires forall i, j :: 0 <= i < j < |entries| ==> entries[i] != entries[j] && entries[i].sym != entries[j].sym
      ensures Valid() && texts == names && table == entries && fresh(profit) && fresh(best)
    {
      table, texts := entries, names;
      profit := new int[0x10000];
      best := new seq<Byte>[256](_ => []);
    }
  }

  lemma OneMoreLetter(t: Slots, names: seq<seq<Byte>>, i: nat, j: nat)
    requires Letters(t, names) && i < |names| && j < |names[i]|
    ensures var c := names[i][j]; Letters(t[c := [c]], names)
  {
    var c := names[i][j];
    forall d: Byte ensures Base(t[c := [c]], d) ==> Occurs(names, d) {
      assert d == c ==> d in names[i];
      assert Base(t, d) ==> Occurs(names, d);
    }
  }

  lemma {:induction false} ChosenToken(t: Slots, names: seq<seq<Byte>>, orig: seq<seq<Byte>>, idx: Byte, a: Byte,
                                       b: Byte)
    requires Sound(t, names, orig) && FreeUpTo(t, idx) && t[idx] == [] && CountAll(names, a, b) > 0
    ensures a != 0 && b != 0 && FreeUpTo(t[idx := [a, b]], idx - 1)
    ensures Sound(t[idx := [a, b]], ReplaceAll(names, a, b, idx), orig)
  {
    var i, k := CountAllPositive(names, a, b);
    assert t[names[i][k]] != [] && t[names[i][k + 1]] != [];
    NewTokenWellFormed(t, idx, a, b);
    RoundSound(t, names, orig, idx, a, b, i, k);
  }

  /** One buffer of its own for every name, with a terminating zero. */
  method MakeEntries(names: seq<seq<Byte>>) returns (entries: seq<Entry>)
    ensures |entries| == |names|
    ensures forall i :: 0 <= i < |entries| ==>
      && fresh(entries[i]) && fresh(entries[i].sym)
      && entries[i].sym.Length == |names[i]| + 1 && entries[i].len == |names[i]|
      && entries[i].sym[..|names[i]|] == names[i] && entries[i].sym[|names[i]|] == 0
    ensures forall i, j :: 0 <= i < j < |entries| ==> entries[i] != entries[j] && entries[i].sym != entries[j].sym
  {
    entries := [];
    while |entries| < |names|
      invariant |entries| <= |names|
      invariant forall i :: 0 <= i < |entries| ==>
        && fresh(entries[i]) && fresh(entries[i].sym)
        && entries[i].sym.Length == |names[i]| + 1 && entries[i].len == |names[i]|
        && entries[i].sym[..|names[i]|] == names[i] && entries[i].sym[|names[i]|] == 0
      invariant forall i, j :: 0 <= i < j < |entries| ==> entries[i] != entries[j] && entries[i].sym != entries[j].sym
      decreases |names| - |entries|
    {
      var e := new Entry(names[|entries|]);
      entries := entries + [e];
    }
  }

  /** The first part of `build_initial_tok_table`: what is not valid is dropped, in place. */
  method RemoveInvalid<T>(table0: seq<T>, valid: seq<bool>) returns (table: seq<T>)
    requires |table0| == |valid|
    ensures table == Kept(table0, valid)
  {
    table := table0;
    var i, pos := 0, 0;
    while i < |table0|
      invariant 0 <= pos <= i <= |table0| == |table| && table[i..] == table0[i..]
      invariant table[..pos] == Kept(table0[..i], valid[..i])
    {
      assert table0[..i + 1][..i] == table0[..i] && valid[..i + 1][..i] == valid[..i];
      assert table[i] == table[i..][0];
      if valid[i] {
        if pos != i {
          table := table[pos := table[i]];
        }
        pos := pos + 1;
      }
      i := i + 1;
      assert forall k :: i <= k < |table| ==> table[k] == table0[i - 1..][k - i + 1];
    }
    assert table0[..i] == table0 && valid[..i] == valid;
    table := table[..pos];
  }

  /** Compress a table of names: the slots of the token table and the codes of every name. */
  method Compress(names: seq<seq<Byte>>) returns (slots: Slots, codes: seq<seq<Byte>>)
    requires forall i :: 0 <= i < |names| ==> 0 !in names[i]
    ensures Sound(slots, codes, names) && Saving(slots, codes, names) && Complete(slots, codes)
    ensures Total(codes) <= Total(names)
  {
    var entries := MakeEntries(names);
    var c := new Compressor(entries, names);
    c.OptimizeTokenTable();
    slots := c.best[..];
    codes := c.Codes();
  }
}
