/**
 The order in which the symbol table generator sorts: by address, then strong before weak, then
 ordinary names before those of the linker script, then by leading underscores, then as read.
 */
module KallsymsOrder {
  import opened Basics
  import opened TokenTable
  import opened KallsymsImage
  import KallsymsKernel

  /** A symbol with its type byte and name, and its position in the input. */
  datatype Symbol = Symbol(addr: nat, sym: seq<Byte>, startPos: nat)

  predicate HasAt(s: seq<Byte>, i: int, w: string) {
    0 <= i && i + |w| <= |s| && forall k :: 0 <= k < |w| ==> s[i + k] == w[k] as int
  }

  predicate Weak(s: Symbol) { s.sym != [] && (s.sym[0] == 'w' as int || s.sym[0] == 'W' as int) }

  /** `may_be_linker_script_provide_symbol`. */
  predicate Provided(s: Symbol) {
    s.sym != [] && var n := s.sym[1..];
    |n| >= 8 && HasAt(n, 0, "__") &&
    (HasAt(n, 2, "start_") || HasAt(n, 2, "stop_") || HasAt(n, 2, "end_") || HasAt(n, |n| - 6, "_start") ||
     HasAt(n, |n| - 4, "_end"))
  }

  /** Leading underscores of a name. */
  function Underscores(n: seq<Byte>): (r: nat)
    ensures r <= |n|
  {
    if n != [] && n[0] == '_' as int then 1 + Underscores(n[1..]) else 0
  }

  method PrefixUnderscoresCount(n: seq<Byte>) returns (r: nat)
    ensures r == Underscores(n)
  {
    r := 0;
    while r < |n| && n[r] == '_' as int
      invariant r <= |n| && Underscores(n) == r + Underscores(n[r..])
    {
      assert n[r..][1..] == n[r + 1..];
      r := r + 1;
    }
  }

  /** The keys of a symbol, most significant first. */
  function Keys(s: Symbol): (int, int, int, int, int) {
    (s.addr, Bit(Weak(s)), Bit(Provided(s)), if s.sym == [] then 0 else Underscores(s.sym[1..]), s.startPos)
  }

  predicate Lex(a: (int, int, int, int, int), b: (int, int, int, int, int)) {
    a.0 < b.0 || (a.0 == b.0 &&
                  (a.1 < b.1 || (a.1 == b.1 &&
                                 (a.2 < b.2 || (a.2 == b.2 && (a.3 < b.3 || (a.3 == b.3 && a.4 < b.4)))))))
  }

  /** `a` comes before `b`. */
  predicate Less(a: Symbol, b: Symbol) { Lex(Keys(a), Keys(b)) }

  /** A 32-bit pattern as a signed number. */
  function AsInt(x: int): int {
    if x % 0x1_0000_0000 < 0x8000_0000 then x % 0x1_0000_0000 else x % 0x1_0000_0000 - 0x1_0000_0000
  }

  /** Only the positions in the input tell the symbols apart. */
  predicate Tied(a: Symbol, b: Symbol) {
    var (a0, a1, a2, a3, _) := Keys(a);
    (a0, a1, a2, a3, b.startPos) == Keys(b)
  }

  /**
   `compare_symbols`: negative, positive or zero as the one, the other or neither comes first, if and only if the
   difference of the positions fits an `int` where it decides.
   */
  method CompareSymbols(a: Symbol, b: Symbol) returns (r: int)
    requires a.sym != [] && b.sym != [] && a.startPos < 0x1_0000_0000 && b.startPos < 0x1_0000_0000
    ensures ((r < 0 <==> Less(a, b)) && (r > 0 <==> Less(b, a))) <==>
            (Tied(a, b) ==> -0x8000_0000 <= a.startPos - b.startPos < 0x8000_0000)
    ensures Tied(a, b) ==> r == AsInt(a.startPos - b.startPos)
  {
    if a.addr > b.addr {
      return 1;
    }
    if a.addr < b.addr {
      return -1;
    }
    var wa, wb := Bit(Weak(a)), Bit(Weak(b));
    if wa != wb {
      return wa - wb;
    }
    wa, wb := Bit(Provided(a)), Bit(Provided(b));
    if wa != wb {
      return wa - wb;
    }
    wa := PrefixUnderscoresCount(a.sym[1..]);
    wb := PrefixUnderscoresCount(b.sym[1..]);
    if wa != wb {
      return wa - wb;
    }
    return AsInt(a.startPos - b.startPos);
  }

  /** Two symbols that only their positions tell apart, 0 and 2^31: each is found to come before the other. */
  method PositionsTooFar() returns (a: Symbol, b: Symbol, ab: int, ba: int)
    ensures a.startPos == 0 && b.startPos == 0x8000_0000 && Less(a, b) && !Less(b, a) && ab < 0 && ba < 0
  {
    a, b := Symbol(0, ['t' as int], 0), Symbol(0, ['t' as int], 0x8000_0000);
    ab := CompareSymbols(a, b);
    ba := CompareSymbols(b, a);
  }

  // ----- what sorting with it gives -----

  predicate InOrder(t: seq<Symbol>) { forall i, j :: 0 <= i < j < |t| ==> !Less(t[j], t[i]) }

  /** Positions in the input tell symbols apart. */
  predicate Numbered(t: seq<Symbol>) {
    forall i, j :: 0 <= i < |t| && 0 <= j < |t| && t[i].startPos == t[j].startPos ==> t[i] == t[j]
  }

  lemma LessTotal(a: Symbol, b: Symbol)
    ensures !(Less(a, b) && Less(b, a)) && (!Less(a, b) && !Less(b, a) ==> a.startPos == b.startPos)
  {
  }

  lemma SameFirst(s: seq<Symbol>, t: seq<Symbol>)
    requires s != [] && t != [] && multiset(s) == multiset(t) && InOrder(s) && InOrder(t) && Numbered(s)
    ensures s[0] == t[0]
  {
    assert s[0] in multiset(s) && t[0] in multiset(t);
    var j :| 0 <= j < |t| && t[j] == s[0];
    var i :| 0 <= i < |s| && s[i] == t[0];
    LessTotal(s[0], t[0]);
  }

  lemma DropFirst(s: seq<Symbol>)
    requires s != []
    ensures multiset(s[1..]) == multiset(s) - multiset{s[0]}
  {
    assert s == [s[0]] + s[1..];
  }

  /** Whatever the sorting algorithm does, there is only one result. */
  lemma {:induction false} OneOrder(s: seq<Symbol>, t: seq<Symbol>)
    requires multiset(s) == multiset(t) && InOrder(s) && InOrder(t) && Numbered(s)
    ensures s == t
  {
    assert |s| == |multiset(s)| == |multiset(t)| == |t|;
    if s != [] {
      SameFirst(s, t);
      DropFirst(s);
      DropFirst(t);
      assert InOrder(s[1..]) && InOrder(t[1..]) && Numbered(s[1..]);
      OneOrder(s[1..], t[1..]);
      assert s == [s[0]] + s[1..] && t == [t[0]] + t[1..];
    }
  }

  function Addresses(t: seq<Symbol>): seq<nat> { seq(|t|, i requires 0 <= i < |t| => t[i].addr) }

  /**
   The sorted table has ascending addresses, and the symbol that a lookup finds comes before all others at its
   address.
   */
  lemma LookupFindsFirst(t: seq<Symbol>, addr: nat, pos: nat, j: nat)
    requires InOrder(t) && j < |t|
    ensures KallsymsKernel.Sorted(Addresses(t))
    ensures KallsymsKernel.Covers(Addresses(t), addr, pos) && t[j].addr == t[pos].addr ==> !Less(t[j], t[pos])
  {
    forall k, l | 0 <= k < l < |t| ensures Addresses(t)[k] <= Addresses(t)[l] {
      assert !Less(t[l], t[k]);
    }
    if KallsymsKernel.Covers(Addresses(t), addr, pos) {
      assert Addresses(t)[j] == t[j].addr && Addresses(t)[pos] == t[pos].addr;
      LessTotal(t[j], t[pos]);
    }
  }

  // ----- from the input to the lookup -----

  function Ascii(w: string): seq<int> { seq(|w|, i requires 0 <= i < |w| => w[i] as int) }

  function Names(t: seq<Symbol>): seq<seq<Byte>> { seq(|t|, i requires 0 <= i < |t| => t[i].sym) }

  function Flags(t: seq<Symbol>, valid: Symbol -> bool): seq<bool> { seq(|t|, i requires 0 <= i < |t| => valid(t[i])) }

  /** Dropping symbols drops their names and addresses. */
  lemma {:induction false} KeptMapped(t: seq<Symbol>, valid: Symbol -> bool)
    ensures var k := Kept(t, Flags(t, valid));
            Kept(Names(t), Flags(t, valid)) == Names(k) && Kept(Addresses(t), Flags(t, valid)) == Addresses(k)
  {
    if t != [] {
      var n := |t| - 1;
      var u := t[..n];
      KeptMapped(u, valid);
      assert Names(t)[..n] == Names(u) && Addresses(t)[..n] == Addresses(u) && Flags(t, valid)[..n] == Flags(u, valid);
      var k := Kept(u, Flags(u, valid));
      assert Names(k + [t[n]]) == Names(k) + [t[n].sym] && Addresses(k + [t[n]]) == Addresses(k) + [t[n].addr];
    }
  }

  lemma {:induction false} KeptMembers(t: seq<Symbol>, valid: Symbol -> bool)
    ensures forall x :: x in Kept(t, Flags(t, valid)) <==> x in t && valid(x)
  {
    if t != [] {
      var n := |t| - 1;
      KeptMembers(t[..n], valid);
      assert Flags(t, valid)[..n] == Flags(t[..n], valid);
      assert forall x :: x in t <==> x in t[..n] || x == t[n];
    }
  }

  /** What is left is still in order. */
  lemma {:induction false} KeptInOrder(t: seq<Symbol>, valid: Symbol -> bool)
    requires InOrder(t)
    ensures InOrder(Kept(t, Flags(t, valid)))
  {
    if t != [] {
      var n := |t| - 1;
      KeptInOrder(t[..n], valid);
      KeptMembers(t[..n], valid);
      assert Flags(t, valid)[..n] == Flags(t[..n], valid);
      var k := Kept(t[..n], Flags(t[..n], valid));
      forall i | 0 <= i < |k| ensures !Less(t[n], k[i]) {
        assert k[i] in k;
      }
    }
  }

  /** Of the valid symbols at the greatest address at or below `addr`, `s` comes first. */
  ghost predicate Best(input: seq<Symbol>, valid: Symbol -> bool, addr: nat, s: Symbol) {
    s in input && valid(s) && s.addr <= addr &&
    forall u :: u in input && valid(u) && u.addr <= addr ==> u.addr <= s.addr && (u.addr == s.addr ==> !Less(u, s))
  }

  /** There is only one. */
  lemma BestUnique(input: seq<Symbol>, valid: Symbol -> bool, addr: nat, s: Symbol, u: Symbol)
    requires Best(input, valid, addr, s) && Best(input, valid, addr, u) && Numbered(input)
    ensures s == u
  {
    LessTotal(s, u);
    var i :| 0 <= i < |input| && input[i] == s;
    var j :| 0 <= j < |input| && input[j] == u;
  }

  /** The symbol that covers an address in the sorted table of valid symbols is the best one. */
  lemma CoverIsBest(input: seq<Symbol>, t: seq<Symbol>, valid: Symbol -> bool, addr: nat, pos: nat)
    requires multiset(t) == multiset(input) && InOrder(t)
    requires KallsymsKernel.Covers(Addresses(Kept(t, Flags(t, valid))), addr, pos)
    ensures Best(input, valid, addr, Kept(t, Flags(t, valid))[pos])
  {
    var k := Kept(t, Flags(t, valid));
    KeptInOrder(t, valid);
    KeptMembers(t, valid);
    forall x ensures x in t <==> x in input {
      assert x in t <==> x in multiset(t);
      assert x in input <==> x in multiset(input);
    }
    assert k[pos] in k && Addresses(k)[pos] == k[pos].addr;
    forall u | u in input && valid(u) && u.addr <= addr
      ensures u.addr <= k[pos].addr && (u.addr == k[pos].addr ==> !Less(u, k[pos]))
    {
      assert u in k;
      var j :| 0 <= j < |k| && k[j] == u;
      assert Addresses(k)[j] == u.addr;
      LookupFindsFirst(k, addr, pos, j);
    }
  }

  /** A weak symbol of the text is not found where a strong one has the same address. */
  lemma WeakNotFound(input: seq<Symbol>, valid: Symbol -> bool, addr: nat, a: Symbol, b: Symbol)
    requires a in input && valid(a) && a.addr == b.addr && a.sym != [] && b.sym != []
    requires a.sym[0] in Ascii("Tt") && b.sym[0] in Ascii("Ww")
    ensures !Best(input, valid, addr, b)
  {
    assert Less(a, b);
  }

  /** Something between a beginning and an ending. */
  ghost predicate Between(n: seq<Byte>, first: string, last: string) {
    exists w: seq<int> {:trigger Ascii(first) + w} :: n == Ascii(first) + w + Ascii(last)
  }

  lemma BetweenIs(n: seq<Byte>, first: string, last: string)
    ensures Between(n, first, last) <==>
            |n| >= |first| + |last| && HasAt(n, 0, first) && HasAt(n, |n| - |last|, last)
  {
    if |n| >= |first| + |last| && HasAt(n, 0, first) && HasAt(n, |n| - |last|, last) {
      var w: seq<int> := n[|first|..|n| - |last|];
      assert n == Ascii(first) + w + Ascii(last);
    }
  }

  /** Names that the linker script makes up: the five patterns. */
  ghost predicate Made(n: seq<Byte>) {
    Between(n, "__start_", "") || Between(n, "__stop_", "") || Between(n, "__end_", "") ||
    Between(n, "__", "_start") || Between(n, "__", "_end")
  }

  lemma HasBoth(n: seq<Byte>, v: string, w: string)
    ensures HasAt(n, 0, v + w) <==> HasAt(n, 0, v) && HasAt(n, |v|, w)
  {
    if HasAt(n, 0, v + w) {
      forall k | 0 <= k < |v| ensures n[0 + k] == v[k] as int {
        assert (v + w)[k] == v[k];
      }
      forall k | 0 <= k < |w| ensures n[|v| + k] == w[k] as int {
        assert n[0 + (|v| + k)] == (v + w)[|v| + k] as int;
      }
    }
  }

  lemma HasFirst(n: seq<Byte>, w: string)
    requires HasAt(n, 0, w) && w != []
    ensures n[0] == w[0] as int
  {
    assert n[0 + 0] == w[0] as int;
  }

  lemma MadeIsProvided(s: Symbol)
    requires |s.sym| > 8
    ensures Provided(s) <==> Made(s.sym[1..])
  {
    var n := s.sym[1..];
    BetweenIs(n, "__start_", "");
    BetweenIs(n, "__stop_", "");
    BetweenIs(n, "__end_", "");
    BetweenIs(n, "__", "_start");
    BetweenIs(n, "__", "_end");
    HasBoth(n, "__", "start_");
    HasBoth(n, "__", "stop_");
    HasBoth(n, "__", "end_");
    assert "__" + "start_" == "__start_" && "__" + "stop_" == "__stop_" && "__" + "end_" == "__end_";
  }

  /** Nor is such a name, of at least eight bytes, where another name that does not begin with `_` is as strong. */
  lemma MadeNotFound(input: seq<Symbol>, valid: Symbol -> bool, addr: nat, a: Symbol, b: Symbol)
    requires a in input && valid(a) && a.addr == b.addr && |a.sym| > 1 && |b.sym| > 8
    requires a.sym[0] == b.sym[0] && a.sym[1] != '_' as int && Made(b.sym[1..])
    ensures !Best(input, valid, addr, b)
  {
    MadeIsProvided(b);
    if HasAt(a.sym[1..], 0, "__") {
      HasFirst(a.sym[1..], "__");
    }
  }

  /** Nor is a name with more leading underscores, unless the other one is of the linker script. */
  lemma UnderscoresNotFound(input: seq<Symbol>, valid: Symbol -> bool, addr: nat, a: Symbol, b: Symbol, n: nat)
    requires a in input && valid(a) && a.addr == b.addr && n + 1 < |a.sym| && n + 1 < |b.sym| && a.sym[0] == b.sym[0]
    requires forall i :: 1 <= i <= n ==> a.sym[i] == b.sym[i] == '_' as int
    requires a.sym[n + 1] != '_' as int && b.sym[n + 1] == '_' as int && !Made(a.sym[1..])
    ensures !Best(input, valid, addr, b)
  {
    if |a.sym| > 8 {
      MadeIsProvided(a);
    }
    UnderscoresAre(a.sym[1..], n);
    UnderscoresAre(b.sym[1..], n);
    assert Less(a, b);
  }

  lemma {:induction false} UnderscoresAre(s: seq<Byte>, n: nat)
    requires n < |s| && forall i :: 0 <= i < n ==> s[i] == '_' as int
    ensures if s[n] == '_' as int then Underscores(s) > n else Underscores(s) == n
    decreases n
  {
    if n > 0 {
      UnderscoresAre(s[1..], n - 1);
    }
  }

  /**
   The whole way, for any arrangement `t` of the input that `sort_symbols` may leave: if the generator ends well, a
   lookup gives the name of the best symbol, its distance from the address, and the distance to the next higher
   address.
   */
  method SortAndLookup(ghost input: seq<Symbol>, t: seq<Symbol>, valid: Symbol -> bool, start: nat, addr: nat, end: nat)
    returns (ok: bool, buffer: seq<Byte>, size: nat, offset: nat, ghost s: Symbol)
    requires multiset(t) == multiset(input) && InOrder(t) && Plain(Names(t), 1, KSYM_NAME_LEN + 1)
    requires exists u :: u in input && valid(u) && u.addr <= addr
    ensures Plain(Names(t), 1, KSYM_NAME_LEN - 1) ==> ok
    ensures ok ==> Best(input, valid, addr, s) && s.sym != [] && offset == addr - s.addr
    ensures ok ==> buffer == (if |s.sym| <= KSYM_NAME_LEN then s.sym[1..] else s.sym[1..KSYM_NAME_LEN]) + [0]
    ensures ok ==> KallsymsKernel.SizeOk(Addresses(Kept(t, Flags(t, valid))), s.addr, end, size)
  {
    ghost var k := Kept(t, Flags(t, valid));
    KeptMapped(t, valid);
    FirstBelow(input, t, valid, addr);
    ok, buffer, size, offset := KallsymsKernel.GenerateAndLookup(Names(t), Addresses(t), Flags(t, valid), start, addr,
                                                                 end);
    s := t[0];
    if ok {
      ghost var pos: nat :| KallsymsKernel.Found(Names(k), Addresses(k), addr, end, pos, buffer, size, offset);
      CoverIsBest(input, t, valid, addr, pos);
      s := k[pos];
    }
  }

  /** Some valid symbol is at or below the address, so the first of the table is. */
  lemma FirstBelow(input: seq<Symbol>, t: seq<Symbol>, valid: Symbol -> bool, addr: nat)
    requires multiset(t) == multiset(input) && InOrder(t) && exists u :: u in input && valid(u) && u.addr <= addr
    ensures t != [] && KallsymsKernel.Sorted(Addresses(t))
    ensures var k := Kept(t, Flags(t, valid)); k != [] && k[0].addr <= addr
  {
    var k := Kept(t, Flags(t, valid));
    var u :| u in input && valid(u) && u.addr <= addr;
    assert u in multiset(input) && u in multiset(t);
    KeptMembers(t, valid);
    KeptInOrder(t, valid);
    var j :| 0 <= j < |k| && k[j] == u;
    LookupFindsFirst(t, addr, 0, 0);
    LookupFindsFirst(k, addr, 0, 0);
    assert Addresses(k)[0] <= Addresses(k)[j];
  }
}
