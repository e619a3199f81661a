/** The kernel's side: decode a name, find the offset of a name, look up an address. */
module KallsymsKernel {
  import opened Basics
  import opened TokenTable
  import opened KallsymsImage

  /** The decoder's state: the type byte is still to be skipped, room left in the buffer, bytes written. */
  datatype Sink = Sink(first: bool, left: nat, out: seq<Byte>)

  /** The next byte of the expanded name: skipped if it is the first, dropped if only the terminator still fits. */
  function FeedByte(s: Sink, x: Byte): Sink {
    if s.first then s.(first := false)
    else if s.left <= 1 then s
    else Sink(false, s.left - 1, s.out + [x])
  }

  function Feed(s: Sink, e: seq<Byte>): Sink
    decreases |e|
  {
    if e == [] then s else Feed(FeedByte(s, e[0]), e[1..])
  }

  predicate Full(s: Sink) { !s.first && s.left <= 1 }

  lemma {:induction false} FeedAppend(s: Sink, e: seq<Byte>, f: seq<Byte>)
    ensures Feed(s, e + f) == Feed(Feed(s, e), f)
    decreases |e|
  {
    if e == [] {
      assert e + f == f;
    } else {
      assert (e + f)[1..] == e[1..] + f;
      FeedAppend(FeedByte(s, e[0]), e[1..], f);
    }
  }

  lemma {:induction false} FeedFull(s: Sink, e: seq<Byte>)
    requires Full(s)
    ensures Feed(s, e) == s
    decreases |e|
  {
    if e != [] {
      FeedFull(s, e[1..]);
    }
  }

  /** What of a name fits a buffer of `m` bytes beside the terminator. */
  function Cut(name: seq<Byte>, m: nat): (r: seq<Byte>)
    ensures m > 0 ==> |r| < m
    ensures m == 0 ==> r == []
  {
    if m <= 1 then [] else if |name| < m then name else name[..m - 1]
  }

  lemma {:induction false} FeedTail(left: nat, out: seq<Byte>, e: seq<Byte>)
    ensures Feed(Sink(false, left, out), e) == Sink(false, left - |Cut(e, left)|, out + Cut(e, left))
    decreases |e|
  {
    if e == [] {
      assert out + Cut(e, left) == out;
    } else if left <= 1 {
      FeedFull(Sink(false, left, out), e);
      assert out + [] == out;
    } else {
      FeedTail(left - 1, out + [e[0]], e[1..]);
      assert Cut(e, left) == [e[0]] + Cut(e[1..], left - 1);
    }
  }

  /** The decoder writes the expanded name without its first byte, as much of it as leaves room for the terminator. */
  lemma {:induction false} FeedSkipsFirst(e: seq<Byte>, m: nat)
    requires e != []
    ensures Feed(Sink(true, m, []), e).left == 0 <==> m == 0
    ensures m == 0 ==> Feed(Sink(true, m, []), e).out == []
    ensures m > 0 ==> Feed(Sink(true, m, []), e).out == if |e| <= m then e[1..] else e[1..m]
  {
    FeedTail(m, [], e[1..]);
    assert [] + Cut(e[1..], m) == Cut(e[1..], m);
    assert 0 < m < |e| ==> e[1..][..m - 1] == e[1..m];
  }

  /** Feed the string at `tptr` to the sink; stop at once when there is no room for another byte. */
  method CopyToken(tokens: seq<Byte>, start: nat, s: Sink, ghost e: seq<Byte>) returns (s': Sink, full: bool)
    requires start + |e| < |tokens| && tokens[start + |e|] == 0
    requires forall x :: 0 <= x < |e| ==> tokens[start + x] == e[x] && e[x] != 0
    ensures s' == Feed(s, e) && (full ==> Full(s'))
  {
    var x := 0;
    s', full := s, false;
    while tokens[start + x] != 0
      invariant 0 <= x <= |e| && Feed(s', e[x..]) == Feed(s, e)
      decreases |e| - x
    {
      if Full(s') {
        FeedFull(s', e[x..]);
        return s', true;
      }
      assert e[x..][1..] == e[x + 1..];
      s' := FeedByte(s', tokens[start + x]);
      x := x + 1;
    }
    assert e[x..] == [];
  }

  /** One code of a compressed name: the string that the token table has for it. */
  method CopyCode(img: Image, c: Byte, s: Sink, ghost t: Slots, ghost codes: seq<seq<Byte>>, ghost addrs: seq<nat>,
                  ghost rest: seq<Byte>)
    returns (s': Sink, full: bool)
    requires Describes(img, t, codes, addrs)
    ensures Feed(s', rest) == Feed(s, ExpandCode(t, c) + rest) && (full ==> Full(s'))
  {
    TokenAt(t, c);
    FeedAppend(s, ExpandCode(t, c), rest);
    s', full := CopyToken(img.tokens, img.index[c], s, ExpandCode(t, c));
  }

  /**
   `kallsyms_expand_symbol` on the name stored at `off`: what it writes into a buffer of
   `maxlen` bytes, terminator included, and the offset of the next name.
   */
  method ExpandName(img: Image, off: nat, maxlen: nat, ghost t: Slots, ghost codes: seq<seq<Byte>>,
                    ghost addrs: seq<nat>, ghost i: nat)
    returns (written: seq<Byte>, next: nat)
    requires Describes(img, t, codes, addrs) && i < |codes| && off == Offset(codes, i) && Expand(t, codes[i]) != []
    ensures next == Offset(codes, i + 1) && |written| <= maxlen
    ensures maxlen == 0 ==> written == []
    ensures 0 < maxlen < |Expand(t, codes[i])| ==> written == Expand(t, codes[i])[1..maxlen] + [0]
    ensures 0 < maxlen && |Expand(t, codes[i])| <= maxlen ==> written == Expand(t, codes[i])[1..] + [0]
  {
    StreamAt(codes, i);
    var len := img.names[off];
    next := off + len + 1;
    ghost var s := codes[i];
    var j, sink := 0, Sink(true, maxlen, []);
    ghost var goal := Feed(sink, Expand(t, s));
    while j < len
      invariant 0 <= j <= len && Feed(sink, Expand(t, s[j..])) == goal
    {
      var c := img.names[off + 1 + j];
      assert c == img.names[off + 1..next][j] == s[j];
      assert s[j..][1..] == s[j + 1..];
      var full;
      sink, full := CopyCode(img, c, sink, t, codes, addrs, Expand(t, s[j + 1..]));
      j := j + 1;
      if full {
        FeedFull(sink, Expand(t, s[j..]));
        break;
      }
    }
    assert s[len..] == [];
    FeedSkipsFirst(Expand(t, s), maxlen);
    written := if sink.left > 0 then sink.out + [0] else sink.out;
  }

  /** `get_symbol_offset`: the nearest marker, then a scan, is the same as scanning from the start. */
  method SymbolOffset(img: Image, pos: nat, ghost t: Slots, ghost codes: seq<seq<Byte>>, ghost addrs: seq<nat>)
    returns (off: nat)
    requires Describes(img, t, codes, addrs) && pos < |codes|
    ensures off == Offset(codes, pos)
  {
    var k := pos / 256;
    off := img.markers[k];
    var i := 0;
    while i < pos % 256
      invariant 0 <= i <= pos % 256 && off == Offset(codes, 256 * k + i)
    {
      StreamAt(codes, 256 * k + i);
      off := off + img.names[off] + 1;
      i := i + 1;
    }
  }

  // ----- looking up an address -----

  predicate Sorted(addrs: seq<nat>) {
    forall i, j :: 0 <= i <= j < |addrs| ==> addrs[i] <= addrs[j]
  }

  /** The first symbol among those that share the greatest address not above `addr`. */
  predicate Covers(addrs: seq<nat>, addr: nat, pos: nat) {
    pos < |addrs| && addrs[pos] <= addr &&
    (forall j :: 0 <= j < |addrs| && addrs[j] <= addr ==> addrs[j] <= addrs[pos]) &&
    (forall j :: 0 <= j < pos ==> addrs[j] < addrs[pos])
  }

  /** There is only one such symbol. */
  lemma CoversUnique(addrs: seq<nat>, addr: nat, p: nat, q: nat)
    requires Covers(addrs, addr, p) && Covers(addrs, addr, q)
    ensures p == q
  {
    assert addrs[p] <= addrs[q] && addrs[q] <= addrs[p];
  }

  /** The smallest address above `a`, or `end` when there is none. */
  predicate NextAddress(addrs: seq<nat>, a: nat, end: nat, next: nat) {
    if exists j :: 0 <= j < |addrs| && addrs[j] > a then
      next > a && next in addrs && forall j :: 0 <= j < |addrs| && addrs[j] > a ==> next <= addrs[j]
    else next == end
  }

  /** There is an address above `addr`, and addresses are words. */
  predicate HigherExists(addrs: seq<nat>, addr: nat) {
    (exists j :: 0 <= j < |addrs| && addrs[j] > addr) && forall j :: 0 <= j < |addrs| ==> addrs[j] < U64
  }

  /** The distance from `a` to the next higher address. */
  ghost predicate SizeOk(addrs: seq<nat>, a: nat, end: nat, size: nat) {
    exists next: nat :: NextAddress(addrs, a, end, next) && size == (next - a) % U64
  }

  /**
   `get_symbol_pos`: a binary search, a step back to the first alias, and a step forward to the
   next address.  `end` is the end of the section, used when no symbol follows; an address
   below the first symbol gives the first symbol and an offset that wraps.
   */
  method SymbolPos(addrs: seq<nat>, addr: nat, end: nat) returns (pos: nat, size: nat, offset: nat)
    requires |addrs| > 0 && Sorted(addrs)
    ensures addr >= addrs[0] ==> Covers(addrs, addr, pos) && offset == addr - addrs[pos]
    ensures addr < addrs[0] ==> pos == 0 && offset == (addr - addrs[0]) % U64
    ensures SizeOk(addrs, addrs[pos], end, size)
  {
    var low := BinarySearch(addrs, addr);
    ghost var found := low;
    while low > 0 && addrs[low - 1] == addrs[low]
      invariant 0 <= low <= found && addrs[low] == addrs[found]
    {
      low := low - 1;
    }
    pos := low;
    var start := addrs[low];
    assert forall j :: 0 <= j < low ==> addrs[j] <= addrs[low - 1];
    var next := NextSymbol(addrs, low, end);
    size := (next - start) % U64;
    offset := if addr >= start then addr - start else (addr - start) % U64;
  }

  /** The last index whose address is not above `addr`; 0 when there is none. */
  method BinarySearch(addrs: seq<nat>, addr: nat) returns (low: nat)
    requires |addrs| > 0 && Sorted(addrs)
    ensures low < |addrs| && (addr >= addrs[0] ==> addrs[low] <= addr) && (addr < addrs[0] ==> low == 0)
    ensures forall j :: low < j < |addrs| ==> addrs[j] > addr
  {
    low := 0;
    var high := |addrs|;
    while high - low > 1
      invariant 0 <= low < high <= |addrs|
      invariant low > 0 ==> addrs[low] <= addr
      invariant forall j :: high <= j < |addrs| ==> addrs[j] > addr
      decreases high - low
    {
      var mid := low + (high - low) / 2;
      if addrs[mid] <= addr {
        low := mid;
      } else {
        high := mid;
      }
    }
  }

  method NextSymbol(addrs: seq<nat>, low: nat, end: nat) returns (next: nat)
    requires low < |addrs| && Sorted(addrs)
    ensures NextAddress(addrs, addrs[low], end, next)
  {
    var i := low + 1;
    while i < |addrs|
      invariant low < i <= |addrs|
      invariant forall j :: 0 <= j < i ==> addrs[j] <= addrs[low]
    {
      if addrs[i] > addrs[low] {
        return addrs[i];
      }
      i := i + 1;
    }
    next := end;
  }

  /**
   `kallsyms_lookup` for an address that passes the range check, on an image generated for `names`: the
   buffer receives the original name of the covering symbol without its type byte, as much of it as fits, and a
   terminator.
   */
  method Lookup(img: Image, addr: nat, end: nat, ghost t: Slots, ghost codes: seq<seq<Byte>>,
                ghost names: seq<seq<Byte>>)
    returns (buffer: seq<Byte>, size: nat, offset: nat, ghost pos: nat)
    requires Describes(img, t, codes, img.addrs) && Sound(t, codes, names)
    requires forall i :: 0 <= i < |names| ==> names[i] != []
    requires |names| > 0 && Sorted(img.addrs) && addr >= img.addrs[0]
    ensures Covers(img.addrs, addr, pos) && |buffer| <= KSYM_NAME_LEN
    ensures |names[pos]| <= KSYM_NAME_LEN ==> buffer == names[pos][1..] + [0]
    ensures |names[pos]| > KSYM_NAME_LEN ==> buffer == names[pos][1..KSYM_NAME_LEN] + [0]
    ensures offset == addr - img.addrs[pos] && SizeOk(img.addrs, img.addrs[pos], end, size)
    ensures HigherExists(img.addrs, addr) ==> offset < size
  {
    var p;
    p, size, offset := SymbolPos(img.addrs, addr, end);
    var off := SymbolOffset(img, p, t, codes, img.addrs);
    var next;
    buffer, next := ExpandName(img, off, KSYM_NAME_LEN, t, codes, img.addrs, p);
    pos := p;
    OffsetBelowSize(img.addrs, addr, end, p, size);
  }

  lemma OffsetBelowSize(addrs: seq<nat>, addr: nat, end: nat, pos: nat, size: nat)
    requires Covers(addrs, addr, pos) && SizeOk(addrs, addrs[pos], end, size)
    ensures HigherExists(addrs, addr) ==> addr - addrs[pos] < size
  {
    var next: nat :| NextAddress(addrs, addrs[pos], end, next) && size == (next - addrs[pos]) % U64;
    if HigherExists(addrs, addr) {
      var j :| 0 <= j < |addrs| && addrs[j] > addr;
      assert addrs[j] > addrs[pos];
      var k :| 0 <= k < |addrs| && addrs[k] == next;
      assert next > addr;
    }
  }

  /**
   Generator and kernel together: if the generator ends well, which it does for names of less than 128 bytes, every
   valid symbol of a table can be found again by its address.
   */
  method GenerateAndLookup(names: seq<seq<Byte>>, addrs: seq<nat>, valid: seq<bool>, start: nat, addr: nat, end: nat)
    returns (ok: bool, buffer: seq<Byte>, size: nat, offset: nat)
    requires |addrs| == |names| == |valid| && Sorted(addrs)
    requires Plain(names, 1, KSYM_NAME_LEN + 1)
    requires Kept(addrs, valid) != [] && addr >= Kept(addrs, valid)[0]
    ensures Plain(names, 1, KSYM_NAME_LEN - 1) ==> ok
    ensures ok ==> exists pos: nat ::
              Found(Kept(names, valid), Kept(addrs, valid), addr, end, pos, buffer, size, offset)
  {
    KeptPlain(names, valid, 1, KSYM_NAME_LEN + 1);
    KeptLength(names, addrs, valid);
    KeptSorted(addrs, valid);
    var img;
    ghost var t, codes, pos;
    ok, img, t, codes := Generate(names, addrs, valid, start);
    buffer, size, offset := [], 0, 0;
    if ok {
      buffer, size, offset, pos := Lookup(img, addr, end, t, codes, Kept(names, valid));
      assert Found(Kept(names, valid), Kept(addrs, valid), addr, end, pos, buffer, size, offset);
    }
  }

  /** What a lookup gives for the symbol at `pos`. */
  ghost predicate Found(names: seq<seq<Byte>>, addrs: seq<nat>, addr: nat, end: nat, pos: nat, buffer: seq<Byte>,
                        size: nat, offset: nat) {
    |names| == |addrs| && Covers(addrs, addr, pos) && names[pos] != [] &&
    buffer == (if |names[pos]| <= KSYM_NAME_LEN then names[pos][1..] else names[pos][1..KSYM_NAME_LEN]) + [0] &&
    offset == addr - addrs[pos] &&
    SizeOk(addrs, addrs[pos], end, size) && (HigherExists(addrs, addr) ==> offset < size)
  }

  lemma {:induction false} KeptSorted(addrs: seq<nat>, valid: seq<bool>)
    requires |addrs| == |valid| && Sorted(addrs)
    ensures Sorted(Kept(addrs, valid))
  {
    if addrs != [] {
      var n := |addrs| - 1;
      KeptSorted(addrs[..n], valid[..n]);
      KeptFrom(addrs[..n], valid[..n]);
      var k := Kept(addrs[..n], valid[..n]);
      forall i | 0 <= i < |k| ensures k[i] <= addrs[n] {
        assert k[i] in k && k[i] in addrs[..n];
      }
    }
  }
}
