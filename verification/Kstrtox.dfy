/** Reading and printing of 64-bit integers. */
module Kstrtox {
  import opened Basics

  const OVERFLOW: nat := 0x8000_0000

  /** Bytes of a string without its terminating zero; reading at the end gives the zero. */
  type Bytes = seq<nat>

  function At(s: Bytes, i: nat): nat { if i < |s| then s[i] else 0 }

  /** `c | 0x20`. */
  function Lower(c: nat): nat { if c / 32 % 2 == 1 then c else c + 32 }

  /** The value of a digit, or 16 for anything else. */
  function Digit(c: nat): nat {
    if 48 <= c <= 57 then c - 48 else if 97 <= Lower(c) <= 102 then Lower(c) - 97 + 10 else 16
  }

  /** How many digits of the base the string starts with, from position `i` on. */
  function Digits(s: Bytes, base: nat, i: nat): (n: nat)
    ensures i + n <= |s| || n == 0
    decreases |s| - i
  {
    if i < |s| && Digit(s[i]) < base then 1 + Digits(s, base, i + 1) else 0
  }

  /** The number that the first `n` characters write in the base. */
  function Value(s: Bytes, base: nat, n: nat): nat
    requires n <= |s|
  {
    if n == 0 then 0 else Value(s, base, n - 1) * base + Digit(s[n - 1])
  }

  lemma DivTest(x: nat, m: nat, d: nat)
    requires d > 0
    ensures x > m / d <==> x * d > m
  {
    var q := m / d;
    assert m == q * d + m % d;
    MulMono(q + 1, x, d);
    MulMono(q, x, d);
    MulMono(x, q, d);
  }

  /** The test for overflow, which is skipped for small numbers, is exact. */
  lemma OverflowTest(res: nat, base: nat, val: nat)
    requires 2 <= base <= 16 && val < base && res < U64
    ensures res >= 0x1000_0000_0000_0000 && res > (U64 - 1 - val) / base <==> res * base + val >= U64
  {
    DivTest(res, U64 - 1 - val, base);
    MulMono(base, 16, res);
  }

  function SetOverflow(rv: nat): nat { if rv < OVERFLOW then rv + OVERFLOW else rv }

  /** One more digit: the new result and the new word of count and overflow bit, in 64 and 32 bits. */
  function Added(res: nat, rv: nat, base: nat, val: nat): (nat, nat) {
    var next := res * base + val;
    (next % U64, ((if next >= U64 then SetOverflow(rv) else rv) + 1) % U32)
  }

  /** The result and the word after the first `n` characters. */
  function Parsed(s: Bytes, base: nat, n: nat): (r: (nat, nat))
    requires n <= |s|
    ensures r.0 < U64 && r.1 < U32
  {
    if n == 0 then (0, 0) else
    var r := Parsed(s, base, n - 1);
    Added(r.0, r.1, base, Digit(s[n - 1]))
  }

  /** After `i` digits with value `v`: the result and the count, or the overflow bit and the count. */
  predicate Read(v: nat, i: nat, res: nat, rv: nat) {
    (i < U32 && v < U64 ==> res == v && rv == i) && (i < OVERFLOW && v >= U64 ==> rv == OVERFLOW + i)
  }

  lemma ReadStep(v: nat, i: nat, res: nat, rv: nat, v': nat, next: nat, rv': nat)
    requires Read(v, i, res, rv) && v' >= v && (v == res ==> v' == next)
    requires rv' == if next >= U64 then SetOverflow(rv) else rv
    ensures Read(v', i + 1, next % U64, (rv' + 1) % U32)
  {
  }

  lemma MulGrows(v: nat, base: nat, val: nat)
    requires base >= 1
    ensures v * base + val >= v
  {
  }

  /**
   What is read: the number and the count, or the overflow bit and the count; from 2^31 digits on the count itself
   reaches the bit.
   */
  lemma {:induction false} ParsedReads(s: Bytes, base: nat, n: nat)
    requires n <= |s| && base >= 1
    ensures Read(Value(s, base, n), n, Parsed(s, base, n).0, Parsed(s, base, n).1)
  {
    if n > 0 {
      ParsedReads(s, base, n - 1);
      var v, r, d := Value(s, base, n - 1), Parsed(s, base, n - 1), Digit(s[n - 1]);
      MulGrows(v, base, d);
      var next := r.0 * base + d;
      ReadStep(v, n - 1, r.0, r.1, v * base + d, next, if next >= U64 then SetOverflow(r.1) else r.1);
    }
  }

  /** `_parse_integer`: the digits at the start of the string, one by one. */
  method ParseInteger(s: Bytes, base: nat) returns (res: nat, rv: nat)
    requires 2 <= base <= 16
    ensures (res, rv) == Parsed(s, base, Digits(s, base, 0))
    ensures Read(Value(s, base, Digits(s, base, 0)), Digits(s, base, 0), res, rv)
  {
    res, rv := 0, 0;
    var i := 0;
    while true
      invariant i <= |s| && Digits(s, base, 0) == i + Digits(s, base, i) && (res, rv) == Parsed(s, base, i)
      decreases |s| - i
    {
      var c := At(s, i);
      var lc := Lower(c);
      var val;
      if 48 <= c <= 57 {
        val := c - 48;
      } else if 97 <= lc <= 102 {
        val := lc - 97 + 10;
      } else {
        break;
      }
      if val >= base {
        break;
      }
      res, rv := OneDigit(res, rv, base, val);
      i := i + 1;
    }
    ParsedReads(s, base, i);
  }

  /** The rest of a round: the overflow test, and the digit added. */
  method OneDigit(res: nat, rv: nat, base: nat, val: nat) returns (res': nat, rv': nat)
    requires 2 <= base <= 16 && val < base && res < U64
    ensures (res', rv') == Added(res, rv, base, val)
  {
    OverflowTest(res, base, val);
    rv' := rv;
    if res >= 0x1000_0000_0000_0000 {
      if res > (U64 - 1 - val) / base {
        rv' := SetOverflow(rv);
      }
    }
    res' := (res * base + val) % U64;
    rv' := (rv' + 1) % U32;
  }

  // ----- how many digits the overflow bit is good for -----

  /** The overflow bit says that the number needs more than 64 bits. */
  predicate BitRight(s: Bytes, base: nat) {
    var n := Digits(s, base, 0);
    Parsed(s, base, n).1 >= OVERFLOW <==> Value(s, base, n) >= U64
  }

  function Zeros(n: nat): (s: Bytes)
    ensures |s| == n && forall i :: 0 <= i < n ==> s[i] == 48
  {
    seq(n, _ => 48)
  }

  lemma {:induction false} DigitsFrom(s: Bytes, base: nat, i: nat)
    requires i <= |s| && forall k :: i <= k < |s| ==> Digit(s[k]) < base
    ensures Digits(s, base, i) == |s| - i
    decreases |s| - i
  {
    if i < |s| {
      DigitsFrom(s, base, i + 1);
    }
  }

  /** A zero after a zero only counts. */
  lemma AddedZero(rv: nat, base: nat, n: nat)
    requires rv == n % U32
    ensures Added(0, rv, base, 0) == (0, (n + 1) % U32)
  {
    assert 0 * base + 0 == 0;
  }

  /** Zeros count up to the overflow bit and through it. */
  lemma {:induction false} ZerosParsed(s: Bytes, base: nat, n: nat)
    requires base >= 1 && n <= |s| && forall i :: 0 <= i < n ==> s[i] == 48
    ensures Value(s, base, n) == 0 && Parsed(s, base, n) == (0, n % U32)
  {
    if n > 0 {
      ZerosParsed(s, base, n - 1);
      AddedZero((n - 1) % U32, base, n - 1);
      assert Digit(s[n - 1]) == 0;
    }
  }

  /** From 2^31 digits on, and below 2^32, a string of zeros has the bit set. */
  lemma ZerosOverflow(base: nat, n: nat)
    requires 2 <= base <= 16
    ensures Digits(Zeros(n), base, 0) == n && Value(Zeros(n), base, n) == 0 && Parsed(Zeros(n), base, n) == (0, n % U32)
    ensures OVERFLOW <= n < U32 ==> !BitRight(Zeros(n), base)
  {
    DigitsFrom(Zeros(n), base, 0);
    ZerosParsed(Zeros(n), base, n);
  }

  /** For up to 2^32 digits: the bit is right for all strings of `n` digits exactly when there are fewer than 2^31. */
  lemma BitRightExactly(base: nat, n: nat)
    requires 2 <= base <= 16 && n < U32
    ensures (forall s: Bytes :: Digits(s, base, 0) == n ==> BitRight(s, base)) <==> n < OVERFLOW
  {
    if n < OVERFLOW {
      forall s: Bytes | Digits(s, base, 0) == n ensures BitRight(s, base) {
        ParsedReads(s, base, n);
      }
    } else {
      ZerosOverflow(base, n);
      assert Digits(Zeros(n), base, 0) == n && !BitRight(Zeros(n), base);
    }
  }

  /** A one and `n` zeros. */
  function OneZeros(n: nat): (s: Bytes)
    ensures |s| == n + 1 && s[0] == 49 && forall i :: 1 <= i <= n ==> s[i] == 48
  {
    [49] + Zeros(n)
  }

  function Pow16(n: nat): nat { if n == 0 then 1 else 16 * Pow16(n - 1) }

  lemma {:induction false} OneZerosValue(n: nat, i: nat)
    requires i <= n
    ensures Value(OneZeros(n), 16, i + 1) == Pow16(i)
  {
    if i > 0 {
      OneZerosValue(n, i - 1);
    } else {
      assert Value(OneZeros(n), 16, 1) == Value(OneZeros(n), 16, 0) * 16 + Digit(49);
    }
  }

  lemma {:induction false} Pow16Grows(i: nat, n: nat)
    requires i <= n
    ensures 1 <= Pow16(i) <= Pow16(n)
  {
    if i > 0 {
      Pow16Grows(i - 1, n - 1);
    } else if n > 0 {
      Pow16Grows(0, n - 1);
    }
  }

  lemma Pow16At16()
    ensures Pow16(16) == U64
  {
    assert Pow16(4) == 0x1_0000;
    assert Pow16(8) == 0x1_0000 * Pow16(4);
    assert Pow16(12) == 0x1_0000 * Pow16(8);
    assert Pow16(16) == 0x1_0000 * Pow16(12);
  }

  lemma FirstOverflow(p: nat)
    requires 16 * p == U64
    ensures Added(p, 16, 16, 0) == (0, OVERFLOW + 17)
  {
    assert p * 16 + 0 == U64;
  }

  /** Once it has overflowed to zero, only the count goes on. */
  lemma {:induction false} OneZerosParsed(n: nat, i: nat)
    requires 16 <= i <= n
    ensures Parsed(OneZeros(n), 16, i + 1) == (0, (OVERFLOW + i + 1) % U32)
  {
    var s := OneZeros(n);
    assert Digit(s[i]) == 0;
    if i > 16 {
      OneZerosParsed(n, i - 1);
      AddedZero((OVERFLOW + i) % U32, 16, OVERFLOW + i);
    } else {
      OneZerosValue(n, 16);
      OneZerosValue(n, 15);
      Pow16At16();
      ParsedReads(s, 16, 16);
      FirstOverflow(Pow16(15));
      assert Parsed(s, 16, 16) == (Pow16(15), 16);
    }
  }

  /** The other way round: 16^(2^31) overflows and has the bit clear, because the count has wrapped it away. */
  lemma WrappedAway()
    ensures Digits(OneZeros(OVERFLOW), 16, 0) == OVERFLOW + 1 && Value(OneZeros(OVERFLOW), 16, OVERFLOW + 1) >= U64
    ensures Parsed(OneZeros(OVERFLOW), 16, OVERFLOW + 1) == (0, 1)
  {
    DigitsFrom(OneZeros(OVERFLOW), 16, 0);
    OneZerosValue(OVERFLOW, OVERFLOW);
    Pow16At16();
    Pow16Grows(16, OVERFLOW);
    OneZerosParsed(OVERFLOW, OVERFLOW);
  }

  // ----- whole strings -----

  datatype Result = Ok(value: int) | Range | Invalid

  predicate IsXDigit(c: nat) { 48 <= c <= 57 || 65 <= c <= 70 || 97 <= c <= 102 }

  /** `_parse_integer_fixup_radix`: the base, and how many characters are skipped. */
  function FixupRadix(s: Bytes, base: nat): (nat, nat) {
    var b := if base != 0 then base
             else if At(s, 0) != 48 then 10
             else if Lower(At(s, 1)) == 120 && IsXDigit(At(s, 2)) then 16 else 8;
    (b, if b == 16 && At(s, 0) == 48 && Lower(At(s, 1)) == 120 then 2 else 0)
  }

  function Drop(s: Bytes, k: nat): Bytes { if k <= |s| then s[k..] else [] }

  /** After the digits there may be one newline. */
  predicate Ends(s: Bytes, n: nat) { At(s, n) == 0 || (At(s, n) == 10 && At(s, n + 1) == 0) }

  /** What a number without a sign means. */
  function Unsigned(s: Bytes, base: nat): Result {
    var (b, k) := FixupRadix(s, base);
    var t := Drop(s, k);
    var n := Digits(t, b, 0);
    if Value(t, b, n) >= U64 then Range
    else if n == 0 || !Ends(t, n) then Invalid
    else Ok(Value(t, b, n))
  }

  /** What a sign makes of a number: everything that fits in 64 bits with sign, and nothing else. */
  function WithSign(negative: bool, u: Result): Result {
    if !u.Ok? then u
    else
      var v := if negative then -u.value else u.value;
      if -0x8000_0000_0000_0000 <= v <= 0x7fff_ffff_ffff_ffff then Ok(v) else Range
  }

  /** The string after its sign, if it has one. */
  function Magnitude(s: Bytes): Bytes { if At(s, 0) == 45 || At(s, 0) == 43 then Drop(s, 1) else s }

  /** What a number with an optional sign means. */
  function Signed(s: Bytes, base: nat): Result { WithSign(At(s, 0) == 45, Unsigned(Magnitude(s), base)) }

  predicate BaseOk(base: nat) { base == 0 || 2 <= base <= 16 }

  /** The digits that a string is read with. */
  function DigitCount(s: Bytes, base: nat): nat {
    var (b, k) := FixupRadix(s, base);
    Digits(Drop(s, k), b, 0)
  }

  /** What the word of count and overflow bit leads to. */
  function Returned(s: Bytes, base: nat): (r: Result)
    ensures r.Ok? ==> 0 <= r.value < U64
  {
    var (b, k) := FixupRadix(s, base);
    var t := Drop(s, k);
    var (res, rv) := Parsed(t, b, Digits(t, b, 0));
    if rv >= OVERFLOW then Range else if rv == 0 || !Ends(t, rv) then Invalid else Ok(res)
  }

  /** Below 2^31 digits a string is read as what it means. */
  lemma ReturnedIsUnsigned(s: Bytes, base: nat)
    requires BaseOk(base) && DigitCount(s, base) < OVERFLOW
    ensures Returned(s, base) == Unsigned(s, base)
  {
    var (b, k) := FixupRadix(s, base);
    ParsedReads(Drop(s, k), b, Digits(Drop(s, k), b, 0));
  }

  /** All strings of `n` digits are read as what they mean exactly when there are fewer than 2^31 digits. */
  lemma ReadExactly(base: nat, n: nat)
    requires BaseOk(base)
    ensures (forall s: Bytes :: DigitCount(s, base) == n ==> Returned(s, base) == Unsigned(s, base)) <==> n < OVERFLOW
    ensures (forall s: Bytes :: DigitCount(Magnitude(s), base) == n ==>
               WithSign(At(s, 0) == 45, Returned(Magnitude(s), base)) == Signed(s, base)) <==> n < OVERFLOW
  {
    if n < OVERFLOW {
      forall s: Bytes | DigitCount(s, base) == n ensures Returned(s, base) == Unsigned(s, base) {
        ReturnedIsUnsigned(s, base);
      }
    } else {
      var z := Zeros(n);
      ZerosMisread(base, n);
      assert Magnitude(z) == z;
    }
  }

  /** From 2^31 digits on zero is refused. */
  lemma ZerosMisread(base: nat, n: nat)
    requires BaseOk(base) && n >= OVERFLOW
    ensures DigitCount(Zeros(n), base) == n && Unsigned(Zeros(n), base) == Ok(0) && !Returned(Zeros(n), base).Ok?
  {
    var z, b := Zeros(n), if base == 0 then 8 else base;
    assert FixupRadix(z, base) == (b, 0) && Drop(z, 0) == z;
    ZerosOverflow(b, n);
  }

  /** `_kstrtoull`: what the string means, below 2^31 digits. */
  method KstrtoullDigits(s0: Bytes, base0: nat) returns (r: Result)
    requires BaseOk(base0)
    ensures r == Returned(s0, base0)
    ensures DigitCount(s0, base0) < OVERFLOW ==> r == Unsigned(s0, base0)
  {
    var (base, skip) := FixupRadix(s0, base0);
    var s := Drop(s0, skip);
    if DigitCount(s0, base0) < OVERFLOW {
      ReturnedIsUnsigned(s0, base0);
    }
    var res, rv := ParseInteger(s, base);
    if rv >= OVERFLOW {
      return Range;
    }
    if rv == 0 {
      return Invalid;
    }
    var p := rv;
    if At(s, p) == 10 {
      p := p + 1;
    }
    if At(s, p) != 0 {
      return Invalid;
    }
    return Ok(res);
  }

  /** The string after a plus sign. */
  function AfterPlus(s: Bytes): Bytes { if At(s, 0) == 43 then Drop(s, 1) else s }

  method Kstrtoull(s: Bytes, base: nat) returns (r: Result)
    requires BaseOk(base)
    ensures r == Returned(AfterPlus(s), base)
    ensures DigitCount(AfterPlus(s), base) < OVERFLOW ==> r == Unsigned(AfterPlus(s), base)
  {
    r := KstrtoullDigits(if At(s, 0) == 43 then Drop(s, 1) else s, base);
  }

  /** A 64-bit pattern read as a signed number. */
  function AsSigned(x: nat): int { if x < 0x8000_0000_0000_0000 then x else x - U64 }

  lemma Negated(u: nat)
    requires u < U64
    ensures AsSigned((U64 - u) % U64) == if u <= 0x8000_0000_0000_0000 then 0 - u else U64 - u
  {
  }

  /** The tests that `kstrtoll` makes are those for numbers that do not fit. */
  lemma SignTests(u: nat)
    requires u < U64
    ensures var neg := AsSigned((U64 - u) % U64); WithSign(true, Ok(u)) == if neg > 0 then Range else Ok(neg)
    ensures WithSign(false, Ok(u)) == if AsSigned(u) < 0 then Range else Ok(AsSigned(u))
  {
    Negated(u);
  }

  method Kstrtoll(s: Bytes, base: nat) returns (r: Result)
    requires BaseOk(base)
    ensures r == WithSign(At(s, 0) == 45, Returned(Magnitude(s), base))
    ensures DigitCount(Magnitude(s), base) < OVERFLOW ==> r == Signed(s, base)
  {
    if At(s, 0) == 45 {
      var u := KstrtoullDigits(Drop(s, 1), base);
      if !u.Ok? {
        return u;
      }
      var neg := (U64 - u.value) % U64;
      SignTests(u.value);
      if AsSigned(neg) > 0 {
        return Range;
      }
      r := Ok(AsSigned(neg));
    } else {
      var u := Kstrtoull(s, base);
      if !u.Ok? {
        return u;
      }
      SignTests(u.value);
      if AsSigned(u.value) < 0 {
        return Range;
      }
      r := Ok(AsSigned(u.value));
    }
  }

  // ----- printing -----

  function DigitChar(m: nat): nat { if m <= 9 then m + 48 else m - 10 + 97 }

  lemma DivSmaller(v: nat, base: nat)
    requires base >= 2
    ensures v == v / base * base + v % base && v % base < base && (v / base != 0 ==> v / base < v)
  {
    var q := v / base;
    assert q != 0 ==> q * base >= q * 2;
  }

  function Printed(v: nat, base: nat): Bytes
    requires base >= 2
  {
    DivSmaller(v, base);
    (if v / base == 0 then [] else Printed(v / base, base)) + [DigitChar(v % base)]
  }

  /** `itoa`: the digits are written from `pos` on, and nothing else. */
  method Itoa(v: nat, buf: array<nat>, pos: nat, base: nat) returns (pos': nat)
    requires 2 <= base <= 16 && v < U64 && pos + |Printed(v, base)| <= buf.Length
    modifies buf
    ensures pos' == pos + |Printed(v, base)| && buf[pos..pos'] == Printed(v, base)
    ensures buf[..pos] == old(buf[..pos]) && buf[pos'..] == old(buf[pos'..])
    decreases v
  {
    ghost var high, low, init := PrintedParts(v, base);
    var m, q := v % base, v / base;
    pos' := pos;
    if q != 0 {
      pos' := Itoa(q, buf, pos, base);
    }
    PutDigit(m, buf, pos', pos);
    pos' := pos' + 1;
  }

  /** The last step of `itoa`: the character for the lowest digit. */
  method PutDigit(m: nat, buf: array<nat>, p: nat, ghost pos: nat)
    requires m < 16 && pos <= p < buf.Length
    modifies buf
    ensures buf[pos..p + 1] == old(buf[pos..p]) + [DigitChar(m)] && buf[..pos] == old(buf[..pos])
    ensures buf[p + 1..] == old(buf[p + 1..])
  {
    var c;
    if m <= 9 {
      c := m + 48;
    } else {
      c := m - 10 + 97;
    }
    buf[p] := c;
  }

  // ----- what is printed is read back -----

  predicate AllDigits(s: Bytes, base: nat) {
    forall i :: 0 <= i < |s| ==> Digit(s[i]) < base && s[i] > 32 && Lower(s[i]) != 120
  }

  lemma DigitOfChar(m: nat)
    requires m < 16
    ensures Digit(DigitChar(m)) == m && DigitChar(m) > 32 && Lower(DigitChar(m)) != 120
    ensures (DigitChar(m) == 48 ==> m == 0)
    ensures DigitChar(m) != 43 && DigitChar(m) != 45
  {
  }

  lemma {:induction false} ValuePrefix(s: Bytes, c: nat, base: nat, n: nat)
    requires n <= |s|
    ensures Value(s + [c], base, n) == Value(s, base, n)
  {
    if n > 0 {
      ValuePrefix(s, c, base, n - 1);
    }
  }

  /** The characters write the number, and the first one is a zero only for zero. */
  predicate Writes(s: Bytes, base: nat, v: nat) {
    |s| > 0 && AllDigits(s, base) && Value(s, base, |s|) == v && (s[0] == 48 ==> v == 0 && |s| == 1) && s[0] != 43 &&
    s[0] != 45
  }

  lemma WritesMore(init: Bytes, q: nat, m: nat, base: nat, v: nat)
    requires m < base <= 16 && v == q * base + m && if q == 0 then init == [] else Writes(init, base, q)
    ensures Writes(init + [DigitChar(m)], base, v)
  {
    DigitOfChar(m);
    ValuePrefix(init, DigitChar(m), base, |init|);
    var s := init + [DigitChar(m)];
    assert Value(s, base, |s|) == Value(s, base, |init|) * base + m;
  }

  lemma {:induction false} PrintedValue(v: nat, base: nat)
    requires 2 <= base <= 16
    ensures Writes(Printed(v, base), base, v)
  {
    var q, m, init := PrintedParts(v, base);
    if q != 0 {
      PrintedValue(q, base);
    }
    WritesMore(init, q, m, base, v);
  }

  lemma PrintedParts(v: nat, base: nat) returns (q: nat, m: nat, init: Bytes)
    requires base >= 2
    ensures q == v / base && m == v % base && v == q * base + m && m < base && (q != 0 ==> q < v)
    ensures init == (if q == 0 then [] else Printed(q, base)) && Printed(v, base) == init + [DigitChar(m)]
  {
    DivSmaller(v, base);
    q, m := v / base, v % base;
    init := if q == 0 then [] else Printed(q, base);
  }

  /** Reading what `itoa` prints gives the number back, in every base. */
  lemma RoundTrip(v: nat, base: nat)
    requires 2 <= base <= 16 && v < U64
    ensures Unsigned(Printed(v, base), base) == Ok(v)
  {
    var s := Printed(v, base);
    PrintedValue(v, base);
    DigitsFrom(s, base, 0);
    assert FixupRadix(s, base) == (base, 0) && Drop(s, 0) == s;
  }

  /** A decimal number is also read back when the base is to be found out. */
  lemma RoundTripAnyBase(v: nat)
    requires v < U64
    ensures Unsigned(Printed(v, 10), 0) == Ok(v)
  {
    var s := Printed(v, 10);
    PrintedValue(v, 10);
    assert Drop(s, 0) == s;
    if s[0] == 48 {
      assert s == [48];
      assert FixupRadix(s, 0) == (8, 0);
      DigitsFrom(s, 8, 0);
      assert Value(s, 8, 1) == Value(s, 8, 0) * 8 + Digit(48);
    } else {
      DigitsFrom(s, 10, 0);
      assert FixupRadix(s, 0) == (10, 0);
    }
  }

  lemma SignedOf(s: Bytes, base: nat, v: nat, negative: bool)
    requires Unsigned(s, base) == Ok(v) && |s| > 0 && s[0] != 43 && s[0] != 45
    requires if negative then v <= 0x8000_0000_0000_0000 else v < 0x8000_0000_0000_0000
    ensures Signed(if negative then [45] + s else s, base) == Ok(if negative then 0 - v else v)
  {
    assert negative ==> Drop([45] + s, 1) == s;
  }

  /** The same with a sign, for every signed 64-bit number. */
  lemma RoundTripSigned(x: int, base: nat)
    requires 2 <= base <= 16 && -0x8000_0000_0000_0000 <= x <= 0x7fff_ffff_ffff_ffff
    ensures Signed(if x < 0 then [45] + Printed(-x, base) else Printed(x, base), base) == Ok(x)
  {
    var v := if x < 0 then -x else x;
    RoundTrip(v, base);
    PrintedValue(v, base);
    SignedOf(Printed(v, base), base, v, x < 0);
  }

  // ----- prefixes, letters and the newline -----

  lemma {:induction false} ValueZeroFront(s: Bytes, base: nat, n: nat)
    requires n <= |s|
    ensures Value([48] + s, base, n + 1) == Value(s, base, n)
  {
    if n > 0 {
      ValueZeroFront(s, base, n - 1);
    } else {
      assert Value([48] + s, base, 1) == Value([48] + s, base, 0) * base + Digit(48);
    }
  }

  lemma ReadAs(s: Bytes, base: nat, b: nat, k: nat, t: Bytes, v: nat)
    requires FixupRadix(s, base) == (b, k) && Drop(s, k) == t && |t| > 0 && AllDigits(t, b)
    requires Value(t, b, |t|) == v < U64
    ensures Unsigned(s, base) == Ok(v)
  {
    DigitsFrom(t, b, 0);
  }

  lemma XDigit(c: nat)
    ensures Digit(c) < 16 <==> IsXDigit(c)
  {
  }

  /** A hexadecimal number is read back after `0x`, also when the base is to be found out. */
  lemma RoundTripHex(v: nat, base: nat)
    requires v < U64 && (base == 0 || base == 16)
    ensures Unsigned([48, 120] + Printed(v, 16), base) == Ok(v)
  {
    var t := Printed(v, 16);
    PrintedValue(v, 16);
    XDigit(t[0]);
    var s := [48, 120] + t;
    assert At(s, 0) == 48 && At(s, 1) == 120 && At(s, 2) == t[0] && Drop(s, 2) == t;
    ReadAs(s, base, 16, 2, t, v);
  }

  /** When the base is to be found out, a zero in front makes a number octal. */
  lemma RoundTripOctal(v: nat)
    requires v < U64
    ensures Unsigned([48] + Printed(v, 8), 0) == Ok(v)
  {
    var t := Printed(v, 8);
    PrintedValue(v, 8);
    var s := [48] + t;
    assert At(s, 0) == 48 && At(s, 1) == t[0] && Drop(s, 0) == s;
    ValueZeroFront(t, 8, |t|);
    ReadAs(s, 0, 8, 0, s, v);
  }

  function Capital(c: nat): nat { if 97 <= c <= 122 then c - 32 else c }

  function Capitals(s: Bytes): (r: Bytes)
    ensures |r| == |s|
  {
    seq(|s|, i requires 0 <= i < |s| => Capital(s[i]))
  }

  lemma CapitalSame(c: nat)
    ensures Digit(Capital(c)) == Digit(c) && IsXDigit(Capital(c)) == IsXDigit(c)
    ensures (Lower(Capital(c)) == 120 <==> Lower(c) == 120) && (c == 0 || c == 10 || c == 48 ==> Capital(c) == c)
    ensures Capital(c) == 0 || Capital(c) == 10 || Capital(c) == 48 ==> Capital(c) == c
  {
  }

  lemma {:induction false} CapitalsSame(s: Bytes, base: nat, i: nat, n: nat)
    requires i <= |s| && n <= |s|
    ensures Digits(Capitals(s), base, i) == Digits(s, base, i) && Value(Capitals(s), base, n) == Value(s, base, n)
    decreases |s| - i, n
  {
    if i < |s| {
      CapitalSame(s[i]);
      CapitalsSame(s, base, i + 1, n);
    } else if n > 0 {
      CapitalSame(s[n - 1]);
      CapitalsSame(s, base, i, n - 1);
    }
  }

  lemma CapitalsPrefix(s: Bytes, base: nat)
    ensures FixupRadix(Capitals(s), base) == FixupRadix(s, base)
  {
    CapitalSame(At(s, 0));
    CapitalSame(At(s, 1));
    CapitalSame(At(s, 2));
  }

  /** Capital letters, in the prefix and as digits, read like small ones. */
  lemma CapitalsRead(s: Bytes, base: nat)
    ensures Unsigned(Capitals(s), base) == Unsigned(s, base)
  {
    CapitalsPrefix(s, base);
    var (b, k) := FixupRadix(s, base);
    var t := Drop(s, k);
    assert Drop(Capitals(s), k) == Capitals(t);
    var n := Digits(t, b, 0);
    CapitalsSame(t, b, 0, n);
    CapitalSame(At(t, n));
    CapitalSame(At(t, n + 1));
    assert Ends(Capitals(t), n) == Ends(t, n);
  }

  lemma {:induction false} DigitsPrefix(s: Bytes, c: nat, base: nat, i: nat)
    requires i <= |s| && Digit(c) >= base
    ensures Digits(s + [c], base, i) == Digits(s, base, i)
    decreases |s| - i
  {
    if i < |s| {
      DigitsPrefix(s, c, base, i + 1);
    }
  }

  lemma NewlinePrefix(s: Bytes, base: nat)
    ensures FixupRadix(s + [10], base) == FixupRadix(s, base)
    ensures FixupRadix(s, base).1 <= |s|
  {
    assert At(s + [10], 0) == At(s, 0) || |s| == 0;
    assert At(s + [10], 1) == At(s, 1) || |s| <= 1;
    assert At(s + [10], 2) == At(s, 2) || |s| <= 2;
  }

  /** One newline at the end changes nothing, whatever the string is read as. */
  lemma NewlineRead(s: Bytes, base: nat)
    requires BaseOk(base) && 0 !in s && 10 !in s
    ensures Unsigned(s + [10], base) == Unsigned(s, base)
  {
    NewlinePrefix(s, base);
    var (b, k) := FixupRadix(s, base);
    var t := Drop(s, k);
    assert Drop(s + [10], k) == t + [10];
    var n := Digits(t, b, 0);
    DigitsPrefix(t, 10, b, 0);
    ValuePrefix(t, 10, b, n);
    assert n < |t| ==> t[n] in s;
  }
}
