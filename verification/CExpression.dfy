/**
 Conditions as a C compiler reads them after macro replacement: operators of ten levels, of which `||` is the lowest
 and `&&` the next.  What counts about a replacement text is where it can stand as an operand.
 */
module CExpression {
  import opened Basics

  /**
   `Atom` is a constant or anything else that is complete in itself, with its value; `Prefix` a unary operator;
   `Binary` an operator that binds tighter than `&&`.
   */
  datatype Token =
    | Atom(v: int) | Prefix(f: int -> int) | Open | Close | OrOp | AndOp | Binary(level: nat, g: (int, int) -> int)

  /** The level of operands of unary operators. */
  const UNARY: nat := 10

  predicate IsOp(t: Token) { t.OrOp? || t.AndOp? || (t.Binary? && 2 <= t.level < UNARY) }

  function Level(t: Token): nat
    requires IsOp(t)
  {
    if t.OrOp? then 0 else if t.AndOp? then 1 else t.level
  }

  function Apply(t: Token, a: int, b: int): int
    requires IsOp(t)
  {
    if t.OrOp? then Bit(a != 0 || b != 0) else if t.AndOp? then Bit(a != 0 && b != 0) else t.g(a, b)
  }

  datatype Read = Fail | Got(v: int, rest: seq<Token>)

  predicate OpAt(level: nat, ts: seq<Token>) { ts != [] && IsOp(ts[0]) && Level(ts[0]) == level }

  /** The value of the longest expression of a level at the start of the tokens. */
  ghost function Parse(level: nat, ts: seq<Token>): (r: Read)
    requires level <= UNARY
    ensures r.Got? ==> |r.rest| < |ts|
    decreases |ts|, UNARY - level
  {
    if level < UNARY then
      var r := Parse(level + 1, ts);
      if r.Fail? then Fail else Tail(level, r.v, r.rest)
    else if ts == [] then Fail
    else
      match ts[0]
      case Atom(v) => Got(v, ts[1..])
      case Prefix(f) =>
        var r := Parse(UNARY, ts[1..]);
        if r.Fail? then Fail else Got(f(r.v), r.rest)
      case Open =>
        var r := Parse(0, ts[1..]);
        if r.Fail? || r.rest == [] || !r.rest[0].Close? then Fail else Got(r.v, r.rest[1..])
      case _ => Fail
  }

  /** The operators of a level are left-associative. */
  ghost function Tail(level: nat, left: int, ts: seq<Token>): (r: Read)
    requires level <= UNARY
    ensures r.Got? ==> |r.rest| <= |ts|
    decreases |ts|, UNARY + 1
  {
    if !OpAt(level, ts) then Got(left, ts) else
    var r := Parse(level + 1, ts[1..]);
    if r.Fail? then Fail else Tail(level, Apply(ts[0], left, r.v), r.rest)
  }

  /** The whole of the tokens is an expression of the level. */
  ghost predicate IsExpr(level: nat, ts: seq<Token>)
    requires level <= UNARY
  {
    Parse(level, ts).Got? && Parse(level, ts).rest == []
  }

  /** It is one, with this value. */
  ghost predicate HasValue(level: nat, ts: seq<Token>, v: int)
    requires level <= UNARY
  {
    Parse(level, ts) == Got(v, [])
  }

  // ----- stretches that are read as one operand wherever one may stand -----

  /** An operator that binds tighter than the level. */
  predicate Tighter(level: nat, ts: seq<Token>) { ts != [] && IsOp(ts[0]) && Level(ts[0]) > level }

  /** In front of anything but a tighter operator, `u` is read as an expression of the level with value `v`. */
  ghost predicate Begins(level: nat, u: seq<Token>, v: int)
    requires level <= UNARY
  {
    forall w: seq<Token> :: !Tighter(level, w) ==> Parse(level, u + w) == Tail(level, v, w)
  }

  lemma BeginsAlone(level: nat, u: seq<Token>, v: int)
    requires level <= UNARY && Begins(level, u, v)
    ensures HasValue(level, u, v)
  {
    var none: seq<Token> := [];
    assert u + none == u && !Tighter(level, none);
    assert Parse(level, u + none) == Tail(level, v, none);
  }

  lemma Looser(level: nat, u: seq<Token>, v: int)
    requires level < UNARY && Begins(level + 1, u, v)
    ensures Begins(level, u, v)
  {
    forall w: seq<Token> | !Tighter(level, w) ensures Parse(level, u + w) == Tail(level, v, w) {
      assert !Tighter(level + 1, w) && Parse(level + 1, u + w) == Tail(level + 1, v, w) == Got(v, w);
    }
  }

  lemma {:induction false} LooserTo(high: nat, low: nat, u: seq<Token>, v: int)
    requires low <= high <= UNARY && Begins(high, u, v)
    ensures Begins(low, u, v)
    decreases high
  {
    if low < high {
      Looser(high - 1, u, v);
      LooserTo(high - 1, low, u, v);
    }
  }

  lemma Joined(level: nat, u: seq<Token>, v: int, op: Token, w: seq<Token>, x: int)
    requires level < UNARY && IsOp(op) && Level(op) == level && Begins(level, u, v) && Begins(level + 1, w, x)
    ensures Begins(level, u + [op] + w, Apply(op, v, x))
  {
    forall z: seq<Token> | !Tighter(level, z)
      ensures Parse(level, u + [op] + w + z) == Tail(level, Apply(op, v, x), z)
    {
      var y := [op] + (w + z);
      assert u + [op] + w + z == u + y && y[1..] == w + z && !Tighter(level, y);
      assert Parse(level, u + y) == Tail(level, v, y);
      assert !Tighter(level + 1, z) && Parse(level + 1, w + z) == Tail(level + 1, x, z) == Got(x, z);
    }
  }

  lemma AtomBegins(v: int)
    ensures Begins(UNARY, [Atom(v)], v)
  {
    forall w: seq<Token> ensures Parse(UNARY, [Atom(v)] + w) == Got(v, w) {
      assert ([Atom(v)] + w)[1..] == w;
    }
  }

  lemma PrefixBegins(f: int -> int, u: seq<Token>, v: int)
    requires Begins(UNARY, u, v)
    ensures Begins(UNARY, [Prefix(f)] + u, f(v))
  {
    forall w: seq<Token> | !Tighter(UNARY, w) ensures Parse(UNARY, [Prefix(f)] + u + w) == Tail(UNARY, f(v), w) {
      var ts := [Prefix(f)] + u + w;
      assert ts[1..] == u + w && ts[0] == Prefix(f);
      assert Parse(UNARY, u + w) == Tail(UNARY, v, w) == Got(v, w);
    }
  }

  lemma ParensBegin(u: seq<Token>, v: int)
    requires Begins(0, u, v)
    ensures Begins(UNARY, [Open] + u + [Close], v)
  {
    forall w: seq<Token> | !Tighter(UNARY, w) ensures Parse(UNARY, [Open] + u + [Close] + w) == Tail(UNARY, v, w) {
      var ts, y := [Open] + u + [Close] + w, [Close] + w;
      assert ts[1..] == u + y && ts[0] == Open && y[1..] == w && !Tighter(0, y);
      assert Parse(0, u + y) == Tail(0, v, y) == Got(v, y);
    }
  }

  // ----- operands and operators one after the other -----

  /** Operands of unary operators, with their values, and the operators between them. */
  datatype Flat = One(u: seq<Token>, v: int) | More(u: seq<Token>, v: int, op: Token, rest: Flat)

  function Text(fl: Flat): seq<Token> {
    match fl
    case One(u, _) => u
    case More(u, _, op, rest) => u + [op] + Text(rest)
  }

  /** No operator is lower than the level. */
  ghost predicate Above(low: nat, fl: Flat) {
    Begins(UNARY, fl.u, fl.v) && (fl.More? ==> IsOp(fl.op) && Level(fl.op) >= low && Above(low, fl.rest))
  }

  lemma {:induction false} AboveLower(low: nat, low': nat, fl: Flat)
    requires low' <= low && Above(low, fl)
    ensures Above(low', fl)
  {
    if fl.More? {
      AboveLower(low, low', fl.rest);
    }
  }

  function Append(fl: Flat, op: Token, fl': Flat): Flat {
    match fl
    case One(u, v) => More(u, v, op, fl')
    case More(u, v, o, rest) => More(u, v, o, Append(rest, op, fl'))
  }

  lemma {:induction false} AppendAbove(low: nat, fl: Flat, op: Token, fl': Flat)
    requires Above(low, fl) && IsOp(op) && Level(op) >= low && Above(low, fl')
    ensures Above(low, Append(fl, op, fl')) && Text(Append(fl, op, fl')) == Text(fl) + [op] + Text(fl')
  {
    if fl.More? {
      AppendAbove(low, fl.rest, op, fl');
      assert fl.u + [fl.op] + (Text(fl.rest) + [op] + Text(fl')) == fl.u + [fl.op] + Text(fl.rest) + [op] + Text(fl');
    }
  }

  /** A unary operator in front belongs to the first operand. */
  lemma PrefixAbove(low: nat, f: int -> int, fl: Flat) returns (fl': Flat)
    requires Above(low, fl)
    ensures Above(low, fl') && Text(fl') == [Prefix(f)] + Text(fl)
  {
    PrefixBegins(f, fl.u, fl.v);
    match fl {
      case One(u, v) =>
        fl' := One([Prefix(f)] + u, f(v));
      case More(u, v, op, rest) =>
        fl' := More([Prefix(f)] + u, f(v), op, rest);
        assert [Prefix(f)] + u + [op] + Text(rest) == [Prefix(f)] + (u + [op] + Text(rest));
    }
  }

  function Size(fl: Flat): nat { if fl.One? then 1 else 1 + Size(fl.rest) }

  /** The last operator of the level, if there is one. */
  lemma {:induction false} SplitLast(low: nat, fl: Flat) returns (found: bool, a: Flat, op: Token, b: Flat)
    requires Above(low, fl)
    ensures !found ==> Above(low + 1, fl)
    ensures found ==> IsOp(op) && Level(op) == low && Above(low, a) && Above(low + 1, b) && Size(a) < Size(fl)
    ensures found ==> Text(fl) == Text(a) + [op] + Text(b)
  {
    found, a, op, b := false, fl, OrOp, fl;
    if fl.More? {
      var a';
      found, a', op, b := SplitLast(low, fl.rest);
      if found {
        a := More(fl.u, fl.v, fl.op, a');
        assert fl.u + [fl.op] + (Text(a') + [op] + Text(b)) == fl.u + [fl.op] + Text(a') + [op] + Text(b);
      } else if Level(fl.op) == low {
        found, a, op, b := true, One(fl.u, fl.v), fl.op, fl.rest;
      }
    }
  }

  /** Such a stretch is read as one expression of the level. */
  lemma {:induction false} FlatBegins(low: nat, fl: Flat) returns (v: int)
    requires low <= UNARY && Above(low, fl)
    ensures Begins(low, Text(fl), v)
    decreases UNARY - low, Size(fl)
  {
    var found, a, op, b := SplitLast(low, fl);
    if low == UNARY {
      v := fl.v;
    } else if found {
      var x := FlatBegins(low, a);
      var y := FlatBegins(low + 1, b);
      Joined(low, Text(a), x, op, Text(b), y);
      v := Apply(op, x, y);
    } else {
      v := FlatBegins(low + 1, fl);
      Looser(low, Text(fl), v);
    }
  }

  /** After `&&`, a stretch without `||` adds its own operands of `&&`; the value is as if it stood in parentheses. */
  lemma {:induction false} AndJoined(u: seq<Token>, v: int, fl: Flat) returns (w: int)
    requires Begins(1, u, v) && Above(1, fl)
    ensures Begins(1, Text(fl), w) && Begins(1, u + [AndOp] + Text(fl), Bit(v != 0 && w != 0))
    decreases Size(fl)
  {
    var found, a, op, b := SplitLast(1, fl);
    if found {
      var x := AndJoined(u, v, a);
      var y := FlatBegins(2, b);
      w := Bit(x != 0 && y != 0);
      AndMore(u, v, Text(a), x, Text(b), y);
      assert op == AndOp;
    } else {
      w := FlatBegins(2, fl);
      Joined(1, u, v, AndOp, Text(fl), w);
      Looser(1, Text(fl), w);
    }
  }

  lemma AndMore(u: seq<Token>, v: int, a: seq<Token>, x: int, b: seq<Token>, y: int)
    requires Begins(1, a, x) && Begins(1, u + [AndOp] + a, Bit(v != 0 && x != 0)) && Begins(2, b, y)
    ensures var w := Bit(x != 0 && y != 0);
            Begins(1, a + [AndOp] + b, w) && Begins(1, u + [AndOp] + (a + [AndOp] + b), Bit(v != 0 && w != 0))
  {
    Joined(1, a, x, AndOp, b, y);
    Joined(1, u + [AndOp] + a, Bit(v != 0 && x != 0), AndOp, b, y);
    assert u + [AndOp] + a + [AndOp] + b == u + [AndOp] + (a + [AndOp] + b);
  }

  // ----- what is read is such a stretch -----

  lemma {:induction false} ParseFlat(level: nat, ts: seq<Token>) returns (fl: Flat)
    requires level <= UNARY && Parse(level, ts).Got?
    ensures Above(level, fl) && ts == Text(fl) + Parse(level, ts).rest
    ensures level == UNARY ==> fl == One(Text(fl), Parse(level, ts).v)
    decreases |ts|, UNARY - level, 1
  {
    if level < UNARY {
      fl := ParseFlat(level + 1, ts);
      var r := Parse(level + 1, ts);
      AboveLower(level + 1, level, fl);
      fl := TailFlat(level, r.v, r.rest, fl, ts);
    } else {
      match ts[0]
      case Atom(v) =>
        AtomBegins(v);
        fl := One([Atom(v)], v);
      case Prefix(f) =>
        var fl0 := ParseFlat(UNARY, ts[1..]);
        PrefixBegins(f, fl0.u, fl0.v);
        fl := One([Prefix(f)] + fl0.u, f(fl0.v));
        assert ts == [ts[0]] + ts[1..];
      case Open =>
        fl := ParensFlat(ts);
    }
  }

  lemma {:induction false} ParensFlat(ts: seq<Token>) returns (fl: Flat)
    requires ts != [] && ts[0].Open? && Parse(UNARY, ts).Got?
    ensures Above(UNARY, fl) && ts == Text(fl) + Parse(UNARY, ts).rest && fl == One(Text(fl), Parse(UNARY, ts).v)
    decreases |ts|, 0, 0
  {
    var inner := ParseFlat(0, ts[1..]);
    var r := Parse(0, ts[1..]);
    var x := FlatBegins(0, inner);
    assert !Tighter(0, r.rest) && Parse(0, Text(inner) + r.rest) == Tail(0, x, r.rest) == Got(x, r.rest);
    ParensBegin(Text(inner), x);
    fl := One([Open] + Text(inner) + [Close], x);
    ParensText(ts, Text(inner), r.rest);
  }

  lemma ParensText(ts: seq<Token>, u: seq<Token>, rest: seq<Token>)
    requires ts != [] && ts[0].Open? && ts[1..] == u + rest && rest != [] && rest[0].Close?
    ensures ts == [Open] + u + [Close] + rest[1..]
  {
    assert ts == [Open] + (u + rest) && rest == [Close] + rest[1..];
  }

  lemma Regroup(a: seq<Token>, ts: seq<Token>, b: seq<Token>, rest: seq<Token>)
    requires ts != [] && ts[1..] == b + rest
    ensures a + ts == a + [ts[0]] + b + rest
  {
    assert ts == [ts[0]] + (b + rest);
  }

  lemma {:induction false} TailFlat(level: nat, left: int, ts: seq<Token>, fl: Flat, whole: seq<Token>)
    returns (fl': Flat)
    requires level < UNARY && Tail(level, left, ts).Got? && Above(level, fl) && whole == Text(fl) + ts
    ensures Above(level, fl') && whole == Text(fl') + Tail(level, left, ts).rest
    decreases |ts|, UNARY + 1
  {
    fl' := fl;
    if OpAt(level, ts) {
      var r := Parse(level + 1, ts[1..]);
      var next := ParseFlat(level + 1, ts[1..]);
      AboveLower(level + 1, level, next);
      AppendAbove(level, fl, ts[0], next);
      Regroup(Text(fl), ts, Text(next), r.rest);
      fl' := TailFlat(level, Apply(ts[0], left, r.v), r.rest, Append(fl, ts[0], next), whole);
    }
  }

  /** A text that is an expression of the level: operands and operators of that level or above. */
  lemma ExprFlat(level: nat, ts: seq<Token>) returns (fl: Flat)
    requires level <= UNARY && IsExpr(level, ts)
    ensures Above(level, fl) && Text(fl) == ts
  {
    fl := ParseFlat(level, ts);
    assert Text(fl) + [] == Text(fl);
  }

  lemma UnaryBegins(ts: seq<Token>, v: int)
    requires HasValue(UNARY, ts, v)
    ensures Begins(UNARY, ts, v)
  {
    var fl := ParseFlat(UNARY, ts);
    assert Text(fl) + [] == Text(fl);
  }

  /** An operand is an expression of every level. */
  lemma UnaryIsExpr(ts: seq<Token>, level: nat)
    requires level <= UNARY && IsExpr(UNARY, ts)
    ensures IsExpr(level, ts)
  {
    var v := Parse(UNARY, ts).v;
    UnaryBegins(ts, v);
    LooserTo(UNARY, level, ts, v);
    BeginsAlone(level, ts, v);
  }
}
