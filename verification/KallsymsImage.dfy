/**
 The tables the generator writes into the kernel image: compressed names, markers and tokens.
 */
module KallsymsImage {
  import opened TokenTable
  import KallsymsBuild

  const KSYM_NAME_LEN := 128

  /** `names`: the compressed stream, `markers`: offsets of every 256th name,
      `tokens` and `index`: the flattened token table. */
  datatype Image = Image(names: seq<Byte>, markers: seq<nat>, tokens: seq<Byte>, index: seq<nat>, addrs: seq<nat>)

  /** Each name is stored as its length and its codes. */
  function Stream(codes: seq<seq<Byte>>): seq<Byte>
    requires forall i :: 0 <= i < |codes| ==> |codes[i]| < 256
  {
    if codes == [] then [] else
    var n := |codes| - 1;
    Stream(codes[..n]) + [|codes[n]|] + codes[n]
  }

  /** Where name `i` starts. */
  function Offset(codes: seq<seq<Byte>>, i: nat): nat
    requires i <= |codes| && forall k :: 0 <= k < |codes| ==> |codes[k]| < 256
  {
    |Stream(codes[..i])|
  }

  function TokenBytes(t: Slots, n: nat): seq<Byte>
    requires WellFormed(t) && n <= 256
  {
    if n == 0 then [] else TokenBytes(t, n - 1) + ExpandCode(t, n - 1) + [0]
  }

  /** The image holds these slots, codes and addresses in the layout of the generator. */
  predicate Describes(img: Image, t: Slots, codes: seq<seq<Byte>>, addrs: seq<nat>) {
    WellFormed(t) && (forall i :: 0 <= i < |codes| ==> |codes[i]| < 256) && img.addrs == addrs && |addrs| == |codes| &&
    img.names == Stream(codes) &&
    |img.markers| == (|codes| + 255) / 256 &&
    (forall k :: 0 <= k < |img.markers| ==> img.markers[k] == Offset(codes, 256 * k)) &&
    img.tokens == TokenBytes(t, 256) && |img.index| == 256 && (forall c: Byte :: img.index[c] == |TokenBytes(t, c)|)
  }

  // ----- properties of the layout -----

  lemma {:induction false} StreamPrefix(codes: seq<seq<Byte>>, i: nat)
    requires i <= |codes| && forall k :: 0 <= k < |codes| ==> |codes[k]| < 256
    ensures Stream(codes[..i]) <= Stream(codes)
  {
    if i < |codes| {
      var n := |codes| - 1;
      StreamPrefix(codes[..n], i);
      assert codes[..n][..i] == codes[..i];
    } else {
      assert codes[..i] == codes;
    }
  }

  /** At its offset a name has its length, then its codes, and then the next name. */
  lemma {:induction false} StreamAt(codes: seq<seq<Byte>>, i: nat)
    requires i < |codes| && forall k :: 0 <= k < |codes| ==> |codes[k]| < 256
    ensures Offset(codes, i + 1) == Offset(codes, i) + |codes[i]| + 1 <= |Stream(codes)|
    ensures Stream(codes)[Offset(codes, i)] == |codes[i]|
    ensures Stream(codes)[Offset(codes, i) + 1..Offset(codes, i + 1)] == codes[i]
  {
    StreamPrefix(codes, i + 1);
    var u := codes[..i + 1];
    assert u[..i] == codes[..i];
    assert Stream(u) == Stream(codes[..i]) + [|codes[i]|] + codes[i];
    var s, o := Stream(codes), Offset(codes, i);
    assert s[..|Stream(u)|] == Stream(u);
    assert s[o + 1..|Stream(u)|] == Stream(u)[o + 1..];
  }

  lemma {:induction false} TokenPrefix(t: Slots, n: nat, m: nat)
    requires WellFormed(t) && n <= m <= 256
    ensures TokenBytes(t, n) <= TokenBytes(t, m)
    decreases m
  {
    if n < m {
      TokenPrefix(t, n, m - 1);
    }
  }

  lemma {:induction false} ExpandNoZero(t: Slots, c: Byte)
    requires WellFormed(t)
    ensures 0 !in ExpandCode(t, c)
    decreases Rank(t, c)
  {
    if t[c] != [] && !Base(t, c) {
      ExpandNoZero(t, t[c][0]);
      ExpandNoZero(t, t[c][1]);
    }
  }

  /** At its index a token's expansion stands, terminated by the first zero. */
  lemma {:induction false} TokenAt(t: Slots, c: Byte)
    requires WellFormed(t)
    ensures var o, e := |TokenBytes(t, c)|, ExpandCode(t, c);
            && o + |e| < |TokenBytes(t, 256)| && TokenBytes(t, 256)[o + |e|] == 0
            && forall x :: 0 <= x < |e| ==> TokenBytes(t, 256)[o + x] == e[x] && e[x] != 0
  {
    TokenPrefix(t, c + 1, 256);
    ExpandNoZero(t, c);
    var u := TokenBytes(t, c) + ExpandCode(t, c) + [0];
    assert u == TokenBytes(t, c + 1);
  }

  lemma {:induction false} TokenSize(t: Slots, n: nat)
    requires WellFormed(t) && n <= 256 && Short(t, KSYM_NAME_LEN + 1)
    ensures |TokenBytes(t, n)| <= 130 * n
  {
    if n > 0 {
      TokenSize(t, n - 1);
      assert |ExpandCode(t, n - 1)| <= 129;
    }
  }

  /** With names of at most 129 bytes every token offset fits the 16 bits it is stored in. */
  lemma {:induction false} IndexFits(t: Slots, codes: seq<seq<Byte>>, orig: seq<seq<Byte>>, c: Byte)
    requires Sound(t, codes, orig) && forall i :: 0 <= i < |orig| ==> |orig[i]| <= KSYM_NAME_LEN + 1
    ensures |TokenBytes(t, c)| < 0x10000
  {
    LongestAtMost(orig, KSYM_NAME_LEN + 1);
    assert Short(t, KSYM_NAME_LEN + 1);
    TokenSize(t, c);
  }

  /** With names of at most 127 bytes every token fits the generator's buffer, with its zero. */
  lemma TokensFit(t: Slots, codes: seq<seq<Byte>>, orig: seq<seq<Byte>>, c: Byte)
    requires Sound(t, codes, orig) && forall i :: 0 <= i < |orig| ==> |orig[i]| < KSYM_NAME_LEN
    ensures |ExpandCode(t, c)| + 1 <= KSYM_NAME_LEN
  {
    LongestAtMost(orig, KSYM_NAME_LEN - 1);
  }

  lemma {:induction false} ManyTokens(t: Slots, x: Byte, n: nat)
    requires |t| == 256 && n <= 256 && forall c: Byte :: c != x ==> |t[c]| == 2
    ensures Tokens(t, n) + 1 >= n && (x >= n ==> Tokens(t, n) == n)
  {
    if n > 0 {
      ManyTokens(t, x, n - 1);
    }
  }

  /** The same character over and over. */
  function Repeated(x: Byte, n: nat): (s: seq<Byte>)
    ensures |s| == n && forall k :: 0 <= k < n ==> s[k] == x
  {
    seq(n, _ => x)
  }

  /** A single character leaves slots free. */
  lemma SlotsLeft(t: Slots, codes: seq<seq<Byte>>, x: Byte, n: nat)
    requires WellFormed(t) && Saving(t, codes, [Repeated(x, n)]) && n < 255
    ensures !FilledAbove(t, -1)
  {
    var names := [Repeated(x, n)];
    assert names[..0] == [];
    assert Total(names) == n;
    if FilledAbove(t, -1) {
      forall c: Byte | c != x ensures |t[c]| == 2 {
        assert Filled(t, c) && !Occurs(names, c);
      }
      ManyTokens(t, x, 256);
    }
  }

  lemma LastPairCounts(codes: seq<seq<Byte>>)
    requires |codes| == 1 && |codes[0]| >= 2
    ensures var s := codes[0]; CountAll(codes, s[|s| - 2], s[|s| - 1]) > 0
  {
    var s := codes[0];
    assert Count(s, s[|s| - 2], s[|s| - 1]) > 0;
  }

  /** So a name of a single character is compressed to one code. */
  lemma OneCode(t: Slots, codes: seq<seq<Byte>>, x: Byte, n: nat)
    requires Sound(t, codes, [Repeated(x, n)]) && Saving(t, codes, [Repeated(x, n)]) && Complete(t, codes)
    requires 0 < n < 255
    ensures |codes[0]| == 1 && |ExpandCode(t, codes[0][0])| == n
  {
    SlotsLeft(t, codes, x, n);
    var s := codes[0];
    assert codes[..0] == [] && Expand(t, s) == Repeated(x, n);
    if |s| >= 2 {
      LastPairCounts(codes);
    } else {
      assert |s| == 1 ==> s[1..] == [];
    }
  }

  lemma {:induction false} LongestAtMost(names: seq<seq<Byte>>, bound: nat)
    requires bound >= 1 && forall i :: 0 <= i < |names| ==> |names[i]| <= bound
    ensures Longest(names) <= bound
  {
    if names != [] {
      LongestAtMost(names[..|names| - 1], bound);
    }
  }

  lemma {:induction false} CodeNonEmpty(t: Slots, c: Byte)
    requires WellFormed(t) && t[c] != []
    ensures ExpandCode(t, c) != []
    decreases Rank(t, c)
  {
    if !Base(t, c) {
      CodeNonEmpty(t, t[c][0]);
    }
  }

  /** Compressed names are not longer than the names they stand for. */
  lemma {:induction false} ExpandNotShorter(t: Slots, s: seq<Byte>)
    requires WellFormed(t) && Uses(t, s)
    ensures |s| <= |Expand(t, s)|
  {
    if s != [] {
      CodeNonEmpty(t, s[0]);
      ExpandNotShorter(t, s[1..]);
    }
  }

  // ----- the generator's output routine -----

  /** What has been expanded before is part of the whole. */
  lemma ExpandParts(t: Slots, data: seq<Byte>, i: nat)
    requires WellFormed(t) && i < |data|
    ensures Expand(t, data[..i + 1]) == Expand(t, data[..i]) + ExpandCode(t, data[i])
    ensures |Expand(t, data[..i + 1])| <= |Expand(t, data)|
  {
    assert data[..i + 1] == data[..i] + [data[i]] && data == data[..i + 1] + data[i + 1..];
    ExpandAppend(t, data[..i], [data[i]]);
    SlotExpands(t, data[i]);
    ExpandAppend(t, data[..i + 1], data[i + 1..]);
  }

  /** From `at` on, the buffer holds `s`, and below it what `below` says. */
  predicate Holds(buf: array<Byte>, below: seq<Byte>, at: nat, s: seq<Byte>)
    reads buf
  {
    |below| == at && at + |s| <= buf.Length && buf[..at] == below && buf[at..at + |s|] == s
  }

  /**
   `expand_symbol`: a table entry may itself be compressed, so expanding it recurses.  The text and its zero are
   written from `at` on; it ends well exactly if they fit, and the model stops at the first byte that does not.
   */
  method ExpandSymbol(t: Slots, data: seq<Byte>, buf: array<Byte>, at: nat, ghost rank: nat)
    returns (ok: bool, total: nat)
    requires WellFormed(t) && at <= buf.Length && forall k :: 0 <= k < |data| ==> Rank(t, data[k]) <= rank
    modifies buf
    ensures ok <==> at + |Expand(t, data)| < buf.Length
    ensures ok ==> total == |Expand(t, data)| && buf[at + total] == 0
    ensures ok ==> Holds(buf, old(buf[..at]), at, Expand(t, data))
    decreases rank, 1
  {
    total := 0;
    ghost var below := buf[..at];
    var i := 0;
    while i < |data|
      invariant 0 <= i <= |data| && total == |Expand(t, data[..i])| && Holds(buf, below, at, Expand(t, data[..i]))
    {
      var c := data[i];
      ExpandParts(t, data, i);
      ghost var done := Expand(t, data[..i]);
      var rlen;
      ok, rlen := ExpandOne(t, c, buf, at + total, below, done, rank);
      if !ok {
        return;
      }
      total := total + rlen;
      i := i + 1;
    }
    assert data[..i] == data;
    ok := at + total < buf.Length;
    if ok {
      buf[at + total] := 0;
    }
  }

  /** One code, after the text `done`: a character, or a slot that is expanded in turn. */
  method ExpandOne(t: Slots, c: Byte, buf: array<Byte>, at: nat, ghost below: seq<Byte>, ghost done: seq<Byte>,
                   ghost rank: nat)
    returns (ok: bool, rlen: nat)
    requires WellFormed(t) && Rank(t, c) <= rank && at == |below| + |done| && Holds(buf, below, |below|, done)
    modifies buf
    ensures |ExpandCode(t, c)| + at > buf.Length ==> !ok
    ensures !ok ==> |ExpandCode(t, c)| + at >= buf.Length
    ensures ok ==> rlen == |ExpandCode(t, c)| && Holds(buf, below, |below|, done + ExpandCode(t, c))
    decreases rank, 0
  {
    ghost var before := buf[..at];
    Joined(buf, below, done, before);
    if t[c] == [c] {
      ok, rlen := at < buf.Length, 1;
      if ok {
        buf[at] := c;
        assert buf[..at] == before && buf[at..at + 1] == [c];
        Extended(buf, below, |below|, done, before, [c]);
      }
    } else {
      SlotExpands(t, c);
      ok, rlen := ExpandSymbol(t, t[c], buf, at, rank - 1);
      if ok {
        Extended(buf, below, |below|, done, before, ExpandCode(t, c));
      }
    }
  }

  lemma Joined(buf: array<Byte>, below: seq<Byte>, s: seq<Byte>, before: seq<Byte>)
    requires Holds(buf, below, |below|, s) && before == buf[..|below| + |s|]
    ensures before == below + s
  {
    assert before == buf[..|below|] + buf[|below|..|below| + |s|];
  }

  lemma Extended(buf: array<Byte>, below: seq<Byte>, at: nat, s: seq<Byte>, before: seq<Byte>, r: seq<Byte>)
    requires |below| == at && before == below + s && Holds(buf, before, at + |s|, r)
    ensures Holds(buf, below, at, s + r)
  {
    var n := at + |s|;
    assert buf[..at] == buf[..n][..at] == below;
    assert buf[at..n + |r|] == buf[..n][at..] + buf[n..n + |r|];
  }

  lemma {:induction false} SlotExpands(t: Slots, c: Byte)
    requires WellFormed(t)
    ensures Expand(t, t[c]) == ExpandCode(t, c) && Expand(t, [c]) == ExpandCode(t, c)
  {
    if |t[c]| == 2 {
      assert t[c][1..] == [t[c][1]];
      assert Expand(t, [t[c][1]]) == ExpandCode(t, t[c][1]);
    } else if t[c] != [] {
      assert t[c][1..] == [];
    }
  }

  /** The stream of names, with a marker for every 256th of them. */
  method WriteNames(codes: seq<seq<Byte>>) returns (names: seq<Byte>, markers: seq<nat>)
    requires forall i :: 0 <= i < |codes| ==> |codes[i]| < 256
    ensures names == Stream(codes) && |markers| == (|codes| + 255) / 256
    ensures forall k :: 0 <= k < |markers| ==> markers[k] == Offset(codes, 256 * k)
  {
    names, markers := [], [];
    var i, off := 0, 0;
    while i < |codes|
      invariant 0 <= i <= |codes| && names == Stream(codes[..i]) && off == |names|
      invariant |markers| == (i + 255) / 256
      invariant forall k :: 0 <= k < |markers| ==> markers[k] == Offset(codes, 256 * k)
    {
      if i % 256 == 0 {
        assert i == 256 * |markers|;
        markers := markers + [off];
      }
      assert codes[..i + 1][..i] == codes[..i];
      names := names + [|codes[i]|] + codes[i];
      off := off + |codes[i]| + 1;
      i := i + 1;
    }
    assert codes[..i] == codes;
  }

  /** Every token fits the buffer, with its zero. */
  predicate Fits(t: Slots)
    requires WellFormed(t)
  {
    forall c: Byte :: |ExpandCode(t, c)| + 1 <= KSYM_NAME_LEN
  }

  /** One token: expanded into the buffer, and read from it up to its zero. */
  method ExpandSlot(t: Slots, c: Byte, buf: array<Byte>) returns (ok: bool, text: seq<Byte>)
    requires WellFormed(t) && buf.Length == KSYM_NAME_LEN
    modifies buf
    ensures ok <==> |ExpandCode(t, c)| + 1 <= KSYM_NAME_LEN
    ensures ok ==> text == ExpandCode(t, c)
  {
    SlotExpands(t, c);
    var total;
    text := [];
    ok, total := ExpandSymbol(t, t[c], buf, 0, 256);
    if ok {
      ExpandNoZero(t, c);
      text := CString(buf, ExpandCode(t, c));
    }
  }

  /** The string in a buffer. */
  method CString(buf: array<Byte>, ghost s: seq<Byte>) returns (text: seq<Byte>)
    requires |s| < buf.Length && buf[..|s|] == s && buf[|s|] == 0 && 0 !in s
    ensures text == s
  {
    var n := 0;
    while buf[n] != 0
      invariant 0 <= n <= |s| && forall k :: 0 <= k < |s| ==> buf[..|s|][k] != 0
      decreases |s| - n
    {
      n := n + 1;
    }
    text := buf[..n];
  }

  /**
   The expanded tokens one after the other, each with a terminating zero, and where each starts; it ends well exactly
   if all of them fit the buffer.
   */
  method WriteTokens(t: Slots) returns (ok: bool, tokens: seq<Byte>, index: seq<nat>)
    requires WellFormed(t)
    ensures ok <==> Fits(t)
    ensures ok ==> tokens == TokenBytes(t, 256) && |index| == 256 && forall c: Byte :: index[c] == |TokenBytes(t, c)|
  {
    tokens, index := [], [];
    var buf := new Byte[KSYM_NAME_LEN];
    var i := 0;
    while i < 256
      invariant 0 <= i <= 256 && Written(t, i, tokens, index) && FitsBelow(t, i)
    {
      ok, tokens, index := WriteToken(t, i, buf, tokens, index);
      if !ok {
        return;
      }
      i := i + 1;
    }
    ok := true;
  }

  predicate Written(t: Slots, n: nat, tokens: seq<Byte>, index: seq<nat>)
    requires WellFormed(t) && n <= 256
  {
    tokens == TokenBytes(t, n) && |index| == n && forall c: Byte :: c < n ==> index[c] == |TokenBytes(t, c)|
  }

  predicate FitsBelow(t: Slots, n: nat)
    requires WellFormed(t)
  {
    forall c: Byte :: c < n ==> |ExpandCode(t, c)| + 1 <= KSYM_NAME_LEN
  }

  /** The loop body. */
  method WriteToken(t: Slots, c: Byte, buf: array<Byte>, tokens: seq<Byte>, index: seq<nat>)
    returns (ok: bool, tokens': seq<Byte>, index': seq<nat>)
    requires WellFormed(t) && buf.Length == KSYM_NAME_LEN && Written(t, c, tokens, index)
    modifies buf
    ensures ok <==> |ExpandCode(t, c)| + 1 <= KSYM_NAME_LEN
    ensures ok ==> Written(t, c + 1, tokens', index')
  {
    index' := index + [|tokens|];
    var text;
    ok, text := ExpandSlot(t, c, buf);
    tokens' := tokens + text + [0];
  }

  // ----- addresses -----

  /** An address as it is written: as it is, or relative to the start of the kernel's text. */
  datatype Pointer = Absolute(addr: nat) | Above(off: nat) | Below(off: nat)

  /** What the assembler and the linker make of it. */
  function Linked(p: Pointer, start: int): int {
    match p
    case Absolute(addr) => addr
    case Above(off) => start + off
    case Below(off) => start - off
  }

  /** Wherever the text is linked, the pointer is the address, moved with the text unless it is absolute. */
  ghost predicate Points(p: Pointer, addr: nat, absolute: bool, start: nat) {
    forall at: int :: Linked(p, at) == if absolute then addr else addr + at - start
  }

  predicate IsAbsolute(name: seq<Byte>) { name != [] && (name[0] == 'A' as int || name[0] == 'a' as int) }

  /** The addresses: where the text of the kernel is moved, all but the absolute ones move with it. */
  method WriteAddresses(names: seq<seq<Byte>>, addrs: seq<nat>, start: nat) returns (ps: seq<Pointer>)
    requires |addrs| == |names|
    ensures |ps| == |addrs|
    ensures forall i :: 0 <= i < |ps| ==> Points(ps[i], addrs[i], IsAbsolute(names[i]), start)
  {
    ps := [];
    var i := 0;
    while i < |addrs|
      invariant 0 <= i <= |addrs| && |ps| == i
      invariant forall k :: 0 <= k < i ==> Points(ps[k], addrs[k], IsAbsolute(names[k]), start)
    {
      if !IsAbsolute(names[i]) {
        if start <= addrs[i] {
          ps := ps + [Above(addrs[i] - start)];
        } else {
          ps := ps + [Below(start - addrs[i])];
        }
      } else {
        ps := ps + [Absolute(addrs[i])];
      }
      i := i + 1;
    }
  }

  /** The table of addresses in the image, for a kernel that is not moved. */
  method LinkAddresses(names: seq<seq<Byte>>, addrs: seq<nat>, start: nat) returns (table: seq<nat>)
    requires |addrs| == |names|
    ensures table == addrs
  {
    var ps := WriteAddresses(names, addrs, start);
    table := [];
    while |table| < |ps|
      invariant |table| <= |ps| && table == addrs[..|table|]
      decreases |ps| - |table|
    {
      var p := ps[|table|];
      assert Points(p, addrs[|table|], IsAbsolute(names[|table|]), start);
      table := table + [Linked(p, start)];
    }
  }

  /**
   `optimize_token_table` and `write_src`, for names with their type byte in front, of which some are valid: the image
   describes these, if every token fits the buffer; names of less than 128 bytes make sure of that.
   */
  method Generate(names: seq<seq<Byte>>, addrs: seq<nat>, valid: seq<bool>, start: nat)
    returns (ok: bool, img: Image, ghost t: Slots, ghost codes: seq<seq<Byte>>)
    requires |addrs| == |names| == |valid|
    requires Plain(names, 0, KSYM_NAME_LEN + 1)
    ensures Sound(t, codes, Kept(names, valid)) && Saving(t, codes, Kept(names, valid)) && Complete(t, codes)
    ensures ok <==> Fits(t)
    ensures Plain(names, 0, KSYM_NAME_LEN - 1) ==> ok
    ensures ok ==> Describes(img, t, codes, Kept(addrs, valid)) && forall c: Byte :: img.index[c] < 0x10000
  {
    var table := KallsymsBuild.RemoveInvalid(names, valid);
    var places := KallsymsBuild.RemoveInvalid(addrs, valid);
    KeptPlain(names, valid, 0, KSYM_NAME_LEN + 1);
    if Plain(names, 0, KSYM_NAME_LEN - 1) {
      KeptPlain(names, valid, 0, KSYM_NAME_LEN - 1);
    }
    KeptLength(names, addrs, valid);
    var slots, cs := KallsymsBuild.Compress(table);
    t, codes := slots, cs;
    AllFit(t, codes, table);
    var stream, markers := WriteNames(cs);
    var linked := LinkAddresses(table, places, start);
    var tokens, index;
    ok, tokens, index := WriteTokens(slots);
    img := Image(stream, markers, tokens, index, linked);
  }

  /** What the lengths of the names say about all tokens. */
  lemma AllFit(t: Slots, codes: seq<seq<Byte>>, orig: seq<seq<Byte>>)
    requires Sound(t, codes, orig) && Plain(orig, 0, KSYM_NAME_LEN + 1)
    ensures forall i :: 0 <= i < |codes| ==> |codes[i]| < 256
    ensures forall c: Byte :: |TokenBytes(t, c)| < 0x10000
    ensures Plain(orig, 0, KSYM_NAME_LEN - 1) ==> Fits(t)
  {
    forall i | 0 <= i < |codes| ensures |codes[i]| < 256 {
      ExpandNotShorter(t, codes[i]);
    }
    forall c: Byte ensures |TokenBytes(t, c)| < 0x10000 {
      IndexFits(t, codes, orig, c);
    }
    if Plain(orig, 0, KSYM_NAME_LEN - 1) {
      forall c: Byte ensures |ExpandCode(t, c)| + 1 <= KSYM_NAME_LEN {
        TokensFit(t, codes, orig, c);
      }
    }
  }

  /**
   A name of 128 bytes or more can leave a token that does not fit: a text symbol whose name is one letter repeated.
   */
  method TokenTooLong(n: nat) returns (ok: bool)
    requires KSYM_NAME_LEN <= n <= KSYM_NAME_LEN + 1
    ensures !ok
  {
    var name := Repeated('t' as int, n);
    var img;
    ghost var t, codes;
    ok, img, t, codes := Generate([name], [0], [true], 0);
    assert Kept([name], [true]) == [name];
    OneCode(t, codes, 't' as int, n);
  }
}
