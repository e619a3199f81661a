/**
 Byte-pair compression of symbol names: what a token table means, and why replacing
 a pair by a fresh code does not change the meaning of a name.
 */
module TokenTable {

  type Byte = b: int | 0 <= b < 256

  /** Slot `c` holds `[c]` for a character in use, two codes for a token, nothing when it is free. */
  type Slots = seq<seq<Byte>>

  predicate Base(t: Slots, c: Byte)
    requires |t| == 256
  {
    t[c] == [c]
  }

  /** A token refers only to characters and to tokens in higher slots, and no slot is the character 0. */
  predicate WellFormed(t: Slots) {
    |t| == 256 && !Base(t, 0) &&
    forall c: Byte :: t[c] == [] || Base(t, c) ||
      (|t[c]| == 2 && forall k :: 0 <= k < 2 ==> Base(t, t[c][k]) || (t[c][k] > c && t[t[c][k]] != []))
  }

  /** How deep a code can expand: characters not at all, a token less than the slots above it. */
  function Rank(t: Slots, c: Byte): nat
    requires |t| == 256
  {
    if Base(t, c) then 0 else 256 - c
  }

  function ExpandCode(t: Slots, c: Byte): seq<Byte>
    requires WellFormed(t)
    decreases Rank(t, c)
  {
    if t[c] == [] then []
    else if Base(t, c) then [c]
    else ExpandCode(t, t[c][0]) + ExpandCode(t, t[c][1])
  }

  function Expand(t: Slots, s: seq<Byte>): seq<Byte>
    requires WellFormed(t)
  {
    if s == [] then [] else ExpandCode(t, s[0]) + Expand(t, s[1..])
  }

  lemma {:induction false} ExpandAppend(t: Slots, a: seq<Byte>, b: seq<Byte>)
    requires WellFormed(t)
    ensures Expand(t, a + b) == Expand(t, a) + Expand(t, b)
  {
    if a == [] {
      assert a + b == b;
    } else {
      assert (a + b)[1..] == a[1..] + b;
      ExpandAppend(t, a[1..], b);
    }
  }

  /** Replace the pair `a`, `b` by `idx`, from left to right. */
  function Replace(s: seq<Byte>, a: Byte, b: Byte, idx: Byte): (r: seq<Byte>)
    ensures |r| <= |s|
  {
    if |s| < 2 then s
    else if s[0] == a && s[1] == b then [idx] + Replace(s[2..], a, b, idx)
    else [s[0]] + Replace(s[1..], a, b, idx)
  }

  predicate Uses(t: Slots, s: seq<Byte>)
    requires |t| == 256
  {
    forall k :: 0 <= k < |s| ==> t[s[k]] != []
  }

  /** Filling a free slot does not change the expansion of codes already in use. */
  lemma {:induction false} ExpandCodeFresh(t: Slots, idx: Byte, tok: seq<Byte>, c: Byte)
    requires WellFormed(t) && t[idx] == [] && WellFormed(t[idx := tok]) && t[c] != []
    ensures ExpandCode(t[idx := tok], c) == ExpandCode(t, c)
    decreases Rank(t, c)
  {
    if !Base(t, c) {
      ExpandCodeFresh(t, idx, tok, t[c][0]);
      ExpandCodeFresh(t, idx, tok, t[c][1]);
    }
  }

  lemma {:induction false} ExpandFresh(t: Slots, idx: Byte, tok: seq<Byte>, s: seq<Byte>)
    requires WellFormed(t) && t[idx] == [] && WellFormed(t[idx := tok]) && Uses(t, s)
    ensures Expand(t[idx := tok], s) == Expand(t, s)
  {
    if s != [] {
      ExpandCodeFresh(t, idx, tok, s[0]);
      ExpandFresh(t, idx, tok, s[1..]);
    }
  }

  /** Replacing a pair by the token that stands for it keeps the meaning of the name. */
  lemma {:induction false} ReplaceExpands(t: Slots, s: seq<Byte>, a: Byte, b: Byte, idx: Byte)
    requires WellFormed(t) && t[idx] == [a, b]
    ensures Expand(t, Replace(s, a, b, idx)) == Expand(t, s)
  {
    if |s| >= 2 {
      if s[0] == a && s[1] == b {
        ReplaceExpands(t, s[2..], a, b, idx);
        assert s == [a, b] + s[2..];
        ExpandAppend(t, [a, b], s[2..]);
        assert [a, b][1..] == [b] && [b][1..] == [];
        assert ([idx] + Replace(s[2..], a, b, idx))[1..] == Replace(s[2..], a, b, idx);
        assert Expand(t, [a, b]) == ExpandCode(t, a) + (ExpandCode(t, b) + []);
        assert ExpandCode(t, idx) == ExpandCode(t, a) + ExpandCode(t, b);
      } else {
        ReplaceExpands(t, s[1..], a, b, idx);
        assert ([s[0]] + Replace(s[1..], a, b, idx))[1..] == Replace(s[1..], a, b, idx);
      }
    }
  }

  // ----- how the in-place replacement proceeds -----

  predicate PairAt(s: seq<Byte>, k: int, a: Byte, b: Byte) {
    0 <= k && k + 1 < |s| && s[k] == a && s[k + 1] == b
  }

  /** Up to the first occurrence nothing changes; the occurrence becomes `idx`; the rest is done likewise. */
  lemma {:induction false} ReplaceFirst(s: seq<Byte>, k: nat, a: Byte, b: Byte, idx: Byte)
    requires PairAt(s, k, a, b) && forall i :: 0 <= i < k ==> !PairAt(s, i, a, b)
    ensures Replace(s, a, b, idx) == s[..k] + [idx] + Replace(s[k + 2..], a, b, idx)
    decreases k
  {
    if k > 0 {
      assert !PairAt(s, 0, a, b);
      var s' := s[1..];
      assert forall i :: PairAt(s', i, a, b) ==> PairAt(s, i + 1, a, b);
      ReplaceFirst(s', k - 1, a, b, idx);
      var rest := Replace(s[k + 2..], a, b, idx);
      assert s'[k + 1..] == s[k + 2..];
      assert s[..k] == [s[0]] + s'[..k - 1];
      assert [s[0]] + (s'[..k - 1] + [idx] + rest) == s[..k] + [idx] + rest;
    } else {
      assert s[..0] == [] && [idx] + Replace(s[2..], a, b, idx) == [] + [idx] + Replace(s[2..], a, b, idx);
    }
  }

  lemma {:induction false} ReplaceNone(s: seq<Byte>, a: Byte, b: Byte, idx: Byte)
    requires forall i :: 0 <= i < |s| ==> !PairAt(s, i, a, b)
    ensures Replace(s, a, b, idx) == s
  {
    if |s| >= 2 {
      assert !PairAt(s, 0, a, b);
      var s' := s[1..];
      assert forall i :: PairAt(s', i, a, b) ==> PairAt(s, i + 1, a, b);
      ReplaceNone(s', a, b, idx);
    }
  }

  lemma {:induction false} ReplaceUses(t: Slots, s: seq<Byte>, a: Byte, b: Byte, idx: Byte)
    requires |t| == 256 && Uses(t, s) && t[idx] != []
    ensures Uses(t, Replace(s, a, b, idx))
  {
    if |s| >= 2 {
      if s[0] == a && s[1] == b {
        ReplaceUses(t, s[2..], a, b, idx);
      } else {
        ReplaceUses(t, s[1..], a, b, idx);
      }
    }
  }

  // ----- counting pairs -----

  /** The number of positions at which the pair `a`, `b` stands. */
  function Count(s: seq<Byte>, a: Byte, b: Byte): nat {
    if |s| < 2 then 0
    else (if s[|s| - 2] == a && s[|s| - 1] == b then 1 else 0) + Count(s[..|s| - 1], a, b)
  }

  function CountAll(names: seq<seq<Byte>>, a: Byte, b: Byte): nat {
    if names == [] then 0 else CountAll(names[..|names| - 1], a, b) + Count(names[|names| - 1], a, b)
  }

  function Total(names: seq<seq<Byte>>): nat {
    if names == [] then 0 else Total(names[..|names| - 1]) + |names[|names| - 1]|
  }

  lemma {:induction false} CountPositive(s: seq<Byte>, a: Byte, b: Byte) returns (k: nat)
    requires Count(s, a, b) > 0
    ensures PairAt(s, k, a, b)
  {
    if s[|s| - 2] == a && s[|s| - 1] == b {
      k := |s| - 2;
    } else {
      k := CountPositive(s[..|s| - 1], a, b);
    }
  }

  /** A name that holds the pair gets shorter. */
  lemma {:induction false} ReplaceShrinks(s: seq<Byte>, a: Byte, b: Byte, idx: Byte)
    requires exists k :: PairAt(s, k, a, b)
    ensures |Replace(s, a, b, idx)| < |s|
  {
    var k :| PairAt(s, k, a, b);
    if !(s[0] == a && s[1] == b) {
      assert PairAt(s[1..], k - 1, a, b);
      ReplaceShrinks(s[1..], a, b, idx);
    }
  }

  function ReplaceAll(names: seq<seq<Byte>>, a: Byte, b: Byte, idx: Byte): seq<seq<Byte>> {
    seq(|names|, i requires 0 <= i < |names| => Replace(names[i], a, b, idx))
  }

  /** A pair that occurs somewhere makes the whole table shorter when it is replaced. */
  lemma {:induction false} ReplaceAllShrinks(names: seq<seq<Byte>>, a: Byte, b: Byte, idx: Byte)
    ensures Total(ReplaceAll(names, a, b, idx)) <= Total(names)
    ensures CountAll(names, a, b) > 0 ==> Total(ReplaceAll(names, a, b, idx)) < Total(names)
  {
    if names != [] {
      var n := |names| - 1;
      ReplaceAllShrinks(names[..n], a, b, idx);
      assert ReplaceAll(names, a, b, idx)[..n] == ReplaceAll(names[..n], a, b, idx);
      if Count(names[n], a, b) > 0 {
        var k := CountPositive(names[n], a, b);
        ReplaceShrinks(names[n], a, b, idx);
      }
    }
  }

  // ----- the state of the whole compression -----

  /** The length of the longest name, and at least 1. */
  function Longest(names: seq<seq<Byte>>): (m: nat)
    ensures m >= 1 && forall i :: 0 <= i < |names| ==> |names[i]| <= m
  {
    if names == [] then 1 else
    var m, n := Longest(names[..|names| - 1]), |names[|names| - 1]|;
    assert forall i :: 0 <= i < |names| - 1 ==> names[..|names| - 1][i] == names[i];
    if n > m then n else m
  }

  /** No token stands for more than a whole name. */
  predicate Short(t: Slots, bound: nat)
    requires WellFormed(t)
  {
    forall c: Byte :: |ExpandCode(t, c)| <= bound
  }

  /** Every name uses only filled slots and still expands to what it was. */
  predicate Sound(t: Slots, names: seq<seq<Byte>>, orig: seq<seq<Byte>>) {
    WellFormed(t) && Short(t, Longest(orig)) && |names| == |orig| &&
    forall i :: 0 <= i < |names| ==> Uses(t, names[i]) && Expand(t, names[i]) == orig[i]
  }

  /** Tokens among the slots below `n`. */
  function Tokens(t: Slots, n: nat): nat
    requires |t| == 256 && n <= 256
  {
    if n == 0 then 0 else Tokens(t, n - 1) + if |t[n - 1]| == 2 then 1 else 0
  }

  lemma {:induction false} OneMoreToken(t: Slots, idx: Byte, tok: seq<Byte>, n: nat)
    requires |t| == 256 && n <= 256 && t[idx] == [] && |tok| == 2
    ensures Tokens(t[idx := tok], n) == Tokens(t, n) + if idx < n then 1 else 0
  {
    if n > 0 {
      OneMoreToken(t, idx, tok, n - 1);
    }
  }

  lemma {:induction false} NoTokens(t: Slots, n: nat)
    requires |t| == 256 && n <= 256 && forall c: Byte :: |t[c]| <= 1
    ensures Tokens(t, n) == 0
  {
    if n > 0 {
      NoTokens(t, n - 1);
    }
  }

  /** The elements marked as valid. */
  function Kept<T>(s: seq<T>, valid: seq<bool>): seq<T>
    requires |s| == |valid|
  {
    if s == [] then []
    else Kept(s[..|s| - 1], valid[..|s| - 1]) + if valid[|s| - 1] then [s[|s| - 1]] else []
  }

  lemma {:induction false} KeptFrom<T>(s: seq<T>, valid: seq<bool>)
    requires |s| == |valid|
    ensures forall x :: x in Kept(s, valid) ==> x in s
  {
    if s != [] {
      KeptFrom(s[..|s| - 1], valid[..|s| - 1]);
    }
  }

  /** Names without zeros, of a length between the bounds. */
  predicate Plain(names: seq<seq<Byte>>, least: nat, most: nat) {
    forall i :: 0 <= i < |names| ==> 0 !in names[i] && least <= |names[i]| <= most
  }

  lemma {:induction false} KeptPlain(names: seq<seq<Byte>>, valid: seq<bool>, least: nat, most: nat)
    requires |names| == |valid| && Plain(names, least, most)
    ensures Plain(Kept(names, valid), least, most)
  {
    if names != [] {
      KeptPlain(names[..|names| - 1], valid[..|names| - 1], least, most);
    }
  }

  lemma {:induction false} KeptLength<T, U>(s: seq<T>, u: seq<U>, valid: seq<bool>)
    requires |s| == |u| == |valid|
    ensures |Kept(s, valid)| == |Kept(u, valid)|
  {
    if s != [] {
      KeptLength(s[..|s| - 1], u[..|s| - 1], valid[..|s| - 1]);
    }
  }

  predicate Occurs(names: seq<seq<Byte>>, c: Byte) { exists i :: 0 <= i < |names| && c in names[i] }

  /** Only characters that occur have slots of their own. */
  predicate Letters(t: Slots, names: seq<seq<Byte>>) {
    |t| == 256 && forall c: Byte {:trigger Occurs(names, c)} :: Base(t, c) ==> Occurs(names, c)
  }

  /** Besides, every token has made the names shorter by one at least. */
  predicate Saving(t: Slots, names: seq<seq<Byte>>, orig: seq<seq<Byte>>) {
    Letters(t, orig) && Total(names) + Tokens(t, 256) <= Total(orig)
  }

  predicate Filled(t: Slots, c: Byte) { |t| == 256 && t[c] != [] }

  predicate FilledAbove(t: Slots, i: int) { forall c: Byte {:trigger Filled(t, c)} :: c > i ==> Filled(t, c) }

  predicate NoPairs(names: seq<seq<Byte>>) { forall a: Byte, b: Byte :: CountAll(names, a, b) == 0 }

  /** No pair of codes is left, or no slot. */
  predicate Complete(t: Slots, names: seq<seq<Byte>>) { NoPairs(names) || FilledAbove(t, -1) }

  /** A round of replacements keeps the account. */
  lemma SavingMore(t: Slots, names: seq<seq<Byte>>, orig: seq<seq<Byte>>, idx: Byte, a: Byte, b: Byte)
    requires Saving(t, names, orig) && t[idx] == [] && CountAll(names, a, b) > 0 && FilledAbove(t, idx)
    ensures Saving(t[idx := [a, b]], ReplaceAll(names, a, b, idx), orig) && FilledAbove(t[idx := [a, b]], idx - 1)
  {
    var t' := t[idx := [a, b]];
    ReplaceAllShrinks(names, a, b, idx);
    OneMoreToken(t, idx, [a, b], 256);
    forall c: Byte ensures Base(t', c) ==> Occurs(orig, c) {
      assert Base(t, c) ==> Occurs(orig, c);
    }
    forall c: Byte | c > idx - 1 ensures Filled(t', c) {
      assert c > idx ==> Filled(t, c);
    }
  }

  /** The expansion of a pair is part of the expansion of a name that holds it. */
  lemma {:induction false} PairInside(t: Slots, s: seq<Byte>, k: nat, a: Byte, b: Byte)
    requires WellFormed(t) && PairAt(s, k, a, b)
    ensures |ExpandCode(t, a)| + |ExpandCode(t, b)| <= |Expand(t, s)|
  {
    assert s == s[..k] + ([a, b] + s[k + 2..]);
    ExpandAppend(t, s[..k], [a, b] + s[k + 2..]);
    ExpandAppend(t, [a, b], s[k + 2..]);
    assert [a, b][1..] == [b];
    assert |Expand(t, [a, b])| == |ExpandCode(t, a)| + |Expand(t, [b])|;
    assert |Expand(t, [b])| == |ExpandCode(t, b)|;
  }

  lemma {:induction false} NewTokenShort(t: Slots, names: seq<seq<Byte>>, orig: seq<seq<Byte>>, idx: Byte, a: Byte,
                                         b: Byte, i: nat, k: nat)
    requires Sound(t, names, orig) && t[idx] == [] && WellFormed(t[idx := [a, b]])
    requires i < |names| && PairAt(names[i], k, a, b)
    ensures Short(t[idx := [a, b]], Longest(orig))
  {
    var t' := t[idx := [a, b]];
    PairInside(t, names[i], k, a, b);
    assert t[names[i][k]] != [] && t[names[i][k + 1]] != [];
    forall c: Byte ensures |ExpandCode(t', c)| <= Longest(orig) {
      if c == idx {
        assert a != idx && b != idx;
        ExpandCodeFresh(t, idx, [a, b], a);
        ExpandCodeFresh(t, idx, [a, b], b);
        assert ExpandCode(t', idx) == ExpandCode(t', a) + ExpandCode(t', b);
      } else if t[c] != [] {
        ExpandCodeFresh(t, idx, [a, b], c);
      }
    }
  }

  /** Slots up to `i` hold characters or nothing: tokens are handed out from the top. */
  predicate FreeUpTo(t: Slots, i: int)
    requires |t| == 256
  {
    forall c: Byte :: c <= i ==> t[c] == [] || Base(t, c)
  }

  /** A pair that occurs can be given the highest free slot, and the table stays well formed. */
  lemma {:induction false} NewTokenWellFormed(t: Slots, idx: Byte, a: Byte, b: Byte)
    requires WellFormed(t) && FreeUpTo(t, idx) && t[idx] == [] && t[a] != [] && t[b] != []
    ensures WellFormed(t[idx := [a, b]]) && FreeUpTo(t[idx := [a, b]], idx - 1) && a != 0 && b != 0
  {
    var t' := t[idx := [a, b]];
    forall c: Byte ensures t'[c] == [] || Base(t', c) ||
      (|t'[c]| == 2 && forall k :: 0 <= k < 2 ==> Base(t', t'[c][k]) || (t'[c][k] > c && t'[t'[c][k]] != []))
    {
      if c == idx {
        assert t'[c][0] == a && t'[c][1] == b;
      } else if t[c] != [] && !Base(t, c) {
        assert t'[c] == t[c];
        assert t'[t[c][0]] != [] && t'[t[c][1]] != [];
      }
    }
  }

  /** One round of the optimiser keeps every name's meaning. */
  lemma {:induction false} RoundSound(t: Slots, names: seq<seq<Byte>>, orig: seq<seq<Byte>>, idx: Byte, a: Byte,
                                      b: Byte, h: nat, k: nat)
    requires Sound(t, names, orig) && FreeUpTo(t, idx) && t[idx] == []
    requires h < |names| && PairAt(names[h], k, a, b) && t[a] != [] && t[b] != []
    ensures Sound(t[idx := [a, b]], ReplaceAll(names, a, b, idx), orig)
  {
    NewTokenWellFormed(t, idx, a, b);
    NewTokenShort(t, names, orig, idx, a, b, h, k);
    var t' := t[idx := [a, b]];
    forall i | 0 <= i < |names|
      ensures Uses(t', ReplaceAll(names, a, b, idx)[i]) && Expand(t', ReplaceAll(names, a, b, idx)[i]) == orig[i]
    {
      ExpandFresh(t, idx, [a, b], names[i]);
      ReplaceExpands(t', names[i], a, b, idx);
      ReplaceUses(t', names[i], a, b, idx);
    }
  }

  lemma {:induction false} CountAllPositive(names: seq<seq<Byte>>, a: Byte, b: Byte) returns (i: nat, k: nat)
    requires CountAll(names, a, b) > 0
    ensures i < |names| && PairAt(names[i], k, a, b)
  {
    var n := |names| - 1;
    if Count(names[n], a, b) > 0 {
      i := n;
      k := CountPositive(names[n], a, b);
    } else {
      i, k := CountAllPositive(names[..n], a, b);
    }
  }

  lemma {:induction false} ExpandCharacters(t: Slots, s: seq<Byte>)
    requires WellFormed(t) && forall k :: 0 <= k < |s| ==> Base(t, s[k])
    ensures Expand(t, s) == s
  {
    if s != [] {
      ExpandCharacters(t, s[1..]);
    }
  }
}
