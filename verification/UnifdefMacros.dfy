/**
 What the compiler makes of a condition: symbols are replaced by texts, and the result is read again.  `unifdef` reads
 the line as it stands; where it finds a value, the compiler must find the same.
 */
module UnifdefMacros {
  import opened Basics
  import opened UnifdefEval
  import C = CExpression

  /**
   What is defined, and the text that each use of a symbol is replaced with; a symbol that is not defined counts as 0.
   */
  datatype Macros = Macros(defined: string -> bool, text: (string, seq<Token>) -> seq<C.Token>)

  function CLevel(op: Op): nat {
    match op
    case Or => 0
    case And => 1
    case Eq => 5
    case Ne => 5
    case _ => 6
  }

  function COp(op: Op): (t: C.Token)
    ensures C.IsOp(t) && C.Level(t) == CLevel(op)
    ensures forall a: int, b: int :: C.Apply(t, a, b) == Compute(op, a, b)
  {
    match op
    case Or => C.OrOp
    case And => C.AndOp
    case _ => C.Binary(CLevel(op), (a: int, b: int) => Compute(op, a, b))
  }

  const NOT: int -> int := (x: int) => Bit(x == 0)

  /** A token that is part of no expression here. */
  const STRANGER: C.Token := C.Binary(C.UNARY, (a: int, b: int) => 0)

  /** The tokens after replacement. */
  function Subst(ts: seq<Token>, m: Macros): seq<C.Token>
    decreases |ts|
  {
    if ts == [] then [] else
    match ts[0]
    case Bang => [C.Prefix(NOT)] + Subst(ts[1..], m)
    case LParen => [C.Open] + Subst(ts[1..], m)
    case RParen => [C.Close] + Subst(ts[1..], m)
    case Num(_, v) => [C.Atom(v)] + Subst(ts[1..], m)
    case DefinedKw =>
      var paren := |ts| > 1 && ts[1].LParen?;
      var at := if paren then ts[2..] else ts[1..];
      var rest := SkipWord(at);
      if !paren then [C.Atom(Bit(m.defined(Word(at))))] + Subst(rest, m)
      else if rest == [] || !rest[0].RParen? then [STRANGER]
      else [C.Atom(Bit(m.defined(Word(at))))] + Subst(rest[1..], m)
    case Sym(name) =>
      var n := ArgCount(ts[1..]);
      m.text(name, ts[1..][..n]) + Subst(ts[1..][n..], m)
    case OpTok(op) => [COp(op)] + Subst(ts[1..], m)
    case Other => [STRANGER] + Subst(ts[1..], m)
  }

  /**
   Whether a condition holds for the compiler; `oracle` decides where the line is no expression over these operators.
   */
  ghost predicate Holds(ts: seq<Token>, m: Macros, oracle: seq<Token> -> bool) {
    var r := C.Parse(0, Subst(ts, m));
    if r.Got? && r.rest == [] then r.v != 0 else oracle(ts)
  }

  /** The definitions are as the command line says, and anything at all for other symbols. */
  ghost predicate Follows(m: Macros, tab: Table) {
    forall s :: Known(tab, s) ==>
      match tab[s]
      case Undef => !m.defined(s) && m.text(s, []) == [C.Atom(0)]
      case Number(v) => m.defined(s) && forall args :: C.HasValue(C.UNARY, m.text(s, args), v)
      case NotNumber => m.defined(s)
  }

  /** Such definitions exist. */
  ghost function SomeMacros(tab: Table): (m: Macros)
    ensures Follows(m, tab) && forall s, args :: C.IsExpr(C.UNARY, m.text(s, args))
  {
    Macros(s => Known(tab, s) && !tab[s].Undef?,
           (s, args) => [C.Atom(if Known(tab, s) && tab[s].Number? then tab[s].v else 0)])
  }

  /** Symbols that are not on the command line are replaced with expressions of the level. */
  ghost predicate TextsOk(e: Expr, tab: Table, m: Macros, level: nat)
    requires level <= C.UNARY
  {
    match e
    case ENot(e1) => TextsOk(e1, tab, m, level)
    case ESym(name, args) => Known(tab, name) || C.IsExpr(level, m.text(name, args))
    case EBin(_, l, r) => TextsOk(l, tab, m, level) && TextsOk(r, tab, m, level)
    case _ => true
  }

  /** If all texts are operands, they are so on every line. */
  lemma UnaryTexts(p: Parse, tab: Table, m: Macros)
    requires forall s, args :: C.IsExpr(C.UNARY, m.text(s, args))
    ensures p.Parsed? ==> TextsOk(p.e, tab, m, 1)
  {
    if p.Parsed? {
      UnaryOk(p.e, tab, m);
    }
  }

  lemma {:induction false} UnaryOk(e: Expr, tab: Table, m: Macros)
    requires forall s, args :: C.IsExpr(C.UNARY, m.text(s, args))
    ensures TextsOk(e, tab, m, 1)
  {
    match e
    case ENot(e1) => UnaryOk(e1, tab, m);
    case EBin(_, l, r) => UnaryOk(l, tab, m); UnaryOk(r, tab, m);
    case ESym(name, args) =>
      assert C.IsExpr(C.UNARY, m.text(name, args));
      C.UnaryIsExpr(m.text(name, args), 1);
    case _ =>
  }

  // ----- the line as it stands and the line after replacement -----

  /** What is asked of an expression: in strict mode nothing of the texts, otherwise that none is a bare `||`. */
  ghost predicate Fine(e: Expr, tab: Table, m: Macros, strict: bool, low: nat) {
    Follows(m, tab) && Regular(e, tab) && !Bad(e, tab) && AllFit(Constants(e, tab)) &&
    1 <= low <= C.UNARY && (!strict ==> TextsOk(e, tab, m, low))
  }

  ghost predicate Exact(level: nat, u: seq<C.Token>, t: Tri)
    requires level <= C.UNARY
  {
    t.Val? ==> C.Begins(level, u, t.v)
  }

  lemma FineParts(op: Op, l: Expr, r: Expr, tab: Table, m: Macros, strict: bool, low: nat)
    requires Fine(EBin(op, l, r), tab, m, strict, low)
    ensures Fine(l, tab, m, strict, low) && Fine(r, tab, m, strict, low)
  {
  }

  /** An expression that goes on with more operators is fine only if its first part is. */
  lemma {:induction false} FineLeft(level: nat, left: Expr, ts: seq<Token>, tab: Table, m: Macros, strict: bool,
                                    low: nat)
    requires level < 4 && ParseTail(level, left, ts, map[]).Parsed?
    requires Fine(ParseTail(level, left, ts, map[]).e, tab, m, strict, low)
    ensures Fine(left, tab, m, strict, low)
    ensures HasOp(level, ts) ==> Fine(ParseTable(level + 1, ts[1..], map[]).e, tab, m, strict, low)
    decreases |ts|
  {
    if HasOp(level, ts) {
      var p := ParseTable(level + 1, ts[1..], map[]);
      FineLeft(level, EBin(ts[0].op, left, p.e), p.rest, tab, m, strict, low);
      FineParts(ts[0].op, left, p.e, tab, m, strict, low);
    }
  }

  lemma Unique(level: nat, u: seq<C.Token>, v: int, w: int)
    requires level <= C.UNARY && C.Begins(level, u, v) && C.Begins(level, u, w)
    ensures v == w
  {
    C.BeginsAlone(level, u, v);
    C.BeginsAlone(level, u, w);
  }

  lemma AtomFlat(v: int) returns (fl: C.Flat)
    ensures C.Begins(C.UNARY, [C.Atom(v)], v) && C.Above(1, fl) && C.Text(fl) == [C.Atom(v)]
  {
    C.AtomBegins(v);
    fl := C.One([C.Atom(v)], v);
  }

  /** A symbol. */
  lemma SubSymbol(name: string, args: seq<Token>, tab: Table, m: Macros, strict: bool, low: nat) returns (fl: C.Flat)
    requires Fine(ESym(name, args), tab, m, strict, low)
    ensures Exact(C.UNARY, m.text(name, args), Eval3(ESym(name, args), tab, strict))
    ensures !strict ==> C.Above(1, fl) && C.Text(fl) == m.text(name, args)
  {
    var u := m.text(name, args);
    fl := C.One(u, 0);
    if Known(tab, name) {
      match tab[name]
      case Undef => fl := AtomFlat(0);
      case Number(v) =>
        assert v in Constants(ESym(name, args), tab);
        C.UnaryBegins(u, v);
        fl := C.One(u, v);
    } else if !strict {
      fl := C.ExprFlat(low, u);
      C.AboveLower(low, 1, fl);
    }
  }

  lemma SubNumber(v: nat, tab: Table, strict: bool) returns (fl: C.Flat)
    requires AllFit(Constants(ENum(v), tab))
    ensures Exact(C.UNARY, [C.Atom(v)], Eval3(ENum(v), tab, strict)) && C.Above(1, fl) && C.Text(fl) == [C.Atom(v)]
  {
    assert v in Constants(ENum(v), tab);
    fl := AtomFlat(v);
  }

  lemma SubDefined(ts: seq<Token>, tab: Table, m: Macros, strict: bool, low: nat) returns (u: seq<C.Token>, fl: C.Flat)
    requires ts != [] && ts[0].DefinedKw?
    requires ParseUnary(ts, map[]).Parsed? && Fine(ParseUnary(ts, map[]).e, tab, m, strict, low)
    ensures Subst(ts, m) == u + Subst(ParseUnary(ts, map[]).rest, m)
    ensures Exact(C.UNARY, u, Eval3(ParseUnary(ts, map[]).e, tab, strict))
    ensures C.Above(1, fl) && C.Text(fl) == u
  {
    var paren := |ts| > 1 && ts[1].LParen?;
    var at := if paren then ts[2..] else ts[1..];
    u := [C.Atom(Bit(m.defined(Word(at))))];
    fl := AtomFlat(Bit(m.defined(Word(at))));
  }

  lemma SubNot(e: Expr, u1: seq<C.Token>, fl1: C.Flat, tab: Table, strict: bool) returns (u: seq<C.Token>, fl: C.Flat)
    requires Exact(C.UNARY, u1, Eval3(e, tab, strict)) && (!strict ==> C.Above(1, fl1) && C.Text(fl1) == u1)
    ensures u == [C.Prefix(NOT)] + u1 && Exact(C.UNARY, u, Eval3(ENot(e), tab, strict))
    ensures !strict ==> C.Above(1, fl) && C.Text(fl) == u
  {
    u, fl := [C.Prefix(NOT)] + u1, fl1;
    var t := Eval3(e, tab, strict);
    if t.Val? {
      C.PrefixBegins(NOT, u1, t.v);
    }
    if !strict {
      fl := C.PrefixAbove(1, NOT, fl1);
    }
  }

  lemma {:induction false} SubUnary(ts: seq<Token>, tab: Table, m: Macros, strict: bool, low: nat)
    returns (u: seq<C.Token>, fl: C.Flat)
    requires ParseUnary(ts, map[]).Parsed? && Fine(ParseUnary(ts, map[]).e, tab, m, strict, low)
    ensures Subst(ts, m) == u + Subst(ParseUnary(ts, map[]).rest, m)
    ensures Exact(C.UNARY, u, Eval3(ParseUnary(ts, map[]).e, tab, strict))
    ensures !strict ==> C.Above(1, fl) && C.Text(fl) == u
    decreases |ts|, 5
  {
    match ts[0]
    case Bang =>
      u, fl := SubBang(ts, tab, m, strict, low);
    case LParen =>
      u, fl := SubParens(ts, tab, m, strict, low);
    case Num(_, v) =>
      u := [C.Atom(v)];
      fl := SubNumber(v, tab, strict);
    case DefinedKw =>
      u, fl := SubDefined(ts, tab, m, strict, low);
    case Sym(name) =>
      u, fl := SubName(ts, tab, m, strict, low);
  }

  lemma {:induction false} SubBang(ts: seq<Token>, tab: Table, m: Macros, strict: bool, low: nat)
    returns (u: seq<C.Token>, fl: C.Flat)
    requires ts != [] && ts[0].Bang?
    requires ParseUnary(ts, map[]).Parsed? && Fine(ParseUnary(ts, map[]).e, tab, m, strict, low)
    ensures Subst(ts, m) == u + Subst(ParseUnary(ts, map[]).rest, m)
    ensures Exact(C.UNARY, u, Eval3(ParseUnary(ts, map[]).e, tab, strict))
    ensures !strict ==> C.Above(1, fl) && C.Text(fl) == u
    decreases |ts|, 4
  {
    var p := ParseUnary(ts[1..], map[]);
    var u1, fl1 := SubUnary(ts[1..], tab, m, strict, low);
    BangHead(ts, u1, Subst(p.rest, m), m);
    u, fl := SubNot(p.e, u1, fl1, tab, strict);
  }

  lemma BangHead(ts: seq<Token>, u: seq<C.Token>, rest: seq<C.Token>, m: Macros)
    requires ts != [] && ts[0].Bang? && Subst(ts[1..], m) == u + rest
    ensures Subst(ts, m) == [C.Prefix(NOT)] + u + rest
  {
    assert [C.Prefix(NOT)] + (u + rest) == [C.Prefix(NOT)] + u + rest;
  }

  lemma SubName(ts: seq<Token>, tab: Table, m: Macros, strict: bool, low: nat) returns (u: seq<C.Token>, fl: C.Flat)
    requires ts != [] && ts[0].Sym?
    requires ParseUnary(ts, map[]).Parsed? && Fine(ParseUnary(ts, map[]).e, tab, m, strict, low)
    ensures Subst(ts, m) == u + Subst(ParseUnary(ts, map[]).rest, m)
    ensures Exact(C.UNARY, u, Eval3(ParseUnary(ts, map[]).e, tab, strict))
    ensures !strict ==> C.Above(1, fl) && C.Text(fl) == u
  {
    var args := ts[1..][..ArgCount(ts[1..])];
    u := m.text(ts[0].name, args);
    fl := SubSymbol(ts[0].name, args, tab, m, strict, low);
  }

  lemma {:induction false} SubParens(ts: seq<Token>, tab: Table, m: Macros, strict: bool, low: nat)
    returns (u: seq<C.Token>, fl: C.Flat)
    requires ts != [] && ts[0].LParen?
    requires ParseUnary(ts, map[]).Parsed? && Fine(ParseUnary(ts, map[]).e, tab, m, strict, low)
    ensures Subst(ts, m) == u + Subst(ParseUnary(ts, map[]).rest, m)
    ensures Exact(C.UNARY, u, Eval3(ParseUnary(ts, map[]).e, tab, strict))
    ensures !strict ==> C.Above(1, fl) && C.Text(fl) == u
    decreases |ts|, 4
  {
    var p := ParseTable(0, ts[1..], map[]);
    var inner, x := SubOr(ts[1..], tab, m, strict, low);
    u := [C.Open] + inner + [C.Close];
    fl := C.One(u, x);
    ParensHead(ts, inner, p.rest, m);
    if Eval3(p.e, tab, strict).Val? {
      C.ParensBegin(inner, Eval3(p.e, tab, strict).v);
    }
    if !strict {
      C.ParensBegin(inner, x);
    }
  }

  lemma ParensHead(ts: seq<Token>, u: seq<C.Token>, rest: seq<Token>, m: Macros)
    requires ts != [] && ts[0].LParen? && Subst(ts[1..], m) == u + Subst(rest, m) && rest != [] && rest[0].RParen?
    ensures Subst(ts, m) == [C.Open] + u + [C.Close] + Subst(rest[1..], m)
  {
    var r := Subst(rest[1..], m);
    assert [C.Open] + (u + ([C.Close] + r)) == [C.Open] + u + [C.Close] + r;
  }

  /** The level of the compiler that a level of the evaluator stands for. */
  function Matching(level: nat): nat
    requires level <= 4
  {
    if level == 4 then C.UNARY else if level == 3 then 6 else if level == 2 then 5 else level
  }

  /** Comparisons, and what is tighter. */
  lemma {:induction false} SubCompare(level: nat, ts: seq<Token>, tab: Table, m: Macros, strict: bool, low: nat)
    returns (u: seq<C.Token>, fl: C.Flat)
    requires 2 <= level <= 4 && ParseTable(level, ts, map[]).Parsed?
    requires Fine(ParseTable(level, ts, map[]).e, tab, m, strict, low)
    ensures Subst(ts, m) == u + Subst(ParseTable(level, ts, map[]).rest, m)
    ensures Exact(Matching(level), u, Eval3(ParseTable(level, ts, map[]).e, tab, strict))
    ensures !strict ==> C.Above(1, fl) && C.Text(fl) == u
    decreases |ts|, 10 - level
  {
    if level == 4 {
      u, fl := SubUnary(ts, tab, m, strict, low);
    } else {
      var p := ParseTable(level + 1, ts, map[]);
      FineLeft(level, p.e, p.rest, tab, m, strict, low);
      u, fl := SubCompare(level + 1, ts, tab, m, strict, low);
      var t := Eval3(p.e, tab, strict);
      if t.Val? {
        C.LooserTo(Matching(level + 1), Matching(level), u, t.v);
      }
      u, fl := SubCompareTail(level, p.e, u, fl, p.rest, tab, m, strict, low);
    }
  }

  lemma {:induction false} SubCompareTail(level: nat, left: Expr, ul: seq<C.Token>, fll: C.Flat, ts: seq<Token>,
                                          tab: Table,
                                          m: Macros, strict: bool, low: nat)
    returns (u: seq<C.Token>, fl: C.Flat)
    requires 2 <= level <= 3 && ParseTail(level, left, ts, map[]).Parsed?
    requires Fine(ParseTail(level, left, ts, map[]).e, tab, m, strict, low)
    requires Exact(Matching(level), ul, Eval3(left, tab, strict))
    requires !strict ==> C.Above(1, fll) && C.Text(fll) == ul
    ensures ul + Subst(ts, m) == u + Subst(ParseTail(level, left, ts, map[]).rest, m)
    ensures Exact(Matching(level), u, Eval3(ParseTail(level, left, ts, map[]).e, tab, strict))
    ensures !strict ==> C.Above(1, fl) && C.Text(fl) == u
    decreases |ts|, 20
  {
    u, fl := ul, fll;
    if HasOp(level, ts) {
      var op, p := ts[0].op, ParseTable(level + 1, ts[1..], map[]);
      FineLeft(level, left, ts, tab, m, strict, low);
      var ur, flr := SubCompare(level + 1, ts[1..], tab, m, strict, low);
      JoinCompare(level, op, left, ul, fll, p.e, ur, flr, tab, strict);
      var un := ul + [COp(op)] + ur;
      OpHead(ts, ul, ur, Subst(p.rest, m), m);
      u, fl := SubCompareTail(level, EBin(op, left, p.e), un, C.Append(fll, COp(op), flr), p.rest, tab, m, strict, low);
    }
  }

  lemma OpHead(ts: seq<Token>, a: seq<C.Token>, b: seq<C.Token>, rest: seq<C.Token>, m: Macros)
    requires ts != [] && ts[0].OpTok? && Subst(ts[1..], m) == b + rest
    ensures a + Subst(ts, m) == a + [COp(ts[0].op)] + b + rest
  {
    assert a + ([COp(ts[0].op)] + (b + rest)) == a + [COp(ts[0].op)] + b + rest;
  }

  lemma JoinCompare(level: nat, op: Op, l: Expr, ul: seq<C.Token>, fll: C.Flat, r: Expr, ur: seq<C.Token>, flr: C.Flat,
                    tab: Table, strict: bool)
    requires 2 <= level <= 3 && Prec(op) == level
    requires Exact(Matching(level), ul, Eval3(l, tab, strict)) && Exact(Matching(level + 1), ur, Eval3(r, tab, strict))
    requires !strict ==> C.Above(1, fll) && C.Text(fll) == ul && C.Above(1, flr) && C.Text(flr) == ur
    ensures Exact(Matching(level), ul + [COp(op)] + ur, Eval3(EBin(op, l, r), tab, strict))
    ensures !strict ==> var fl := C.Append(fll, COp(op), flr); C.Above(1, fl) && C.Text(fl) == ul + [COp(op)] + ur
  {
    JoinValues(level, op, ul, Eval3(l, tab, strict), ur, Eval3(r, tab, strict), strict);
    if !strict {
      C.AppendAbove(1, fll, COp(op), flr);
    }
  }

  lemma JoinValues(level: nat, op: Op, ul: seq<C.Token>, tl: Tri, ur: seq<C.Token>, tr: Tri, strict: bool)
    requires 2 <= level <= 3 && Prec(op) == level && Exact(Matching(level), ul, tl) &&
             Exact(Matching(level + 1), ur, tr)
    ensures Exact(Matching(level), ul + [COp(op)] + ur, Combine(op, tl, tr, strict))
  {
    if tl.Val? && tr.Val? {
      C.LooserTo(Matching(level + 1), Matching(level) + 1, ur, tr.v);
      C.Joined(Matching(level), ul, tl.v, COp(op), ur, tr.v);
    }
  }

  /** Conjunctions: `x` is the value that the compiler finds. */
  lemma {:induction false} SubAnd(ts: seq<Token>, tab: Table, m: Macros, strict: bool, low: nat)
    returns (u: seq<C.Token>, x: int)
    requires ParseTable(1, ts, map[]).Parsed? && Fine(ParseTable(1, ts, map[]).e, tab, m, strict, low)
    ensures Subst(ts, m) == u + Subst(ParseTable(1, ts, map[]).rest, m)
    ensures Exact(1, u, Eval3(ParseTable(1, ts, map[]).e, tab, strict)) && (!strict ==> C.Begins(1, u, x))
    decreases |ts|, 9
  {
    var p := ParseTable(2, ts, map[]);
    FineLeft(1, p.e, p.rest, tab, m, strict, low);
    var fl;
    u, fl := SubCompare(2, ts, tab, m, strict, low);
    var t := Eval3(p.e, tab, strict);
    if t.Val? {
      C.LooserTo(5, 1, u, t.v);
    }
    x := 0;
    if !strict {
      x := C.FlatBegins(1, fl);
    }
    u, x := SubAndTail(p.e, u, x, p.rest, tab, m, strict, low);
  }

  lemma {:induction false} SubAndTail(left: Expr, ul: seq<C.Token>, xl: int, ts: seq<Token>, tab: Table, m: Macros,
                                      strict: bool, low: nat)
    returns (u: seq<C.Token>, x: int)
    requires ParseTail(1, left, ts, map[]).Parsed? && Fine(ParseTail(1, left, ts, map[]).e, tab, m, strict, low)
    requires Exact(1, ul, Eval3(left, tab, strict)) && (!strict ==> C.Begins(1, ul, xl))
    ensures ul + Subst(ts, m) == u + Subst(ParseTail(1, left, ts, map[]).rest, m)
    ensures Exact(1, u, Eval3(ParseTail(1, left, ts, map[]).e, tab, strict)) && (!strict ==> C.Begins(1, u, x))
    decreases |ts|, 20
  {
    u, x := ul, xl;
    if HasOp(1, ts) {
      var p := ParseTable(2, ts[1..], map[]);
      FineLeft(1, left, ts, tab, m, strict, low);
      var ur, flr := SubCompare(2, ts[1..], tab, m, strict, low);
      var xn := JoinAnd(left, ul, xl, p.e, ur, flr, tab, strict);
      var un := ul + [C.AndOp] + ur;
      OpHead(ts, ul, ur, Subst(p.rest, m), m);
      u, x := SubAndTail(EBin(And, left, p.e), un, xn, p.rest, tab, m, strict, low);
    }
  }

  lemma JoinAnd(l: Expr, ul: seq<C.Token>, xl: int, r: Expr, ur: seq<C.Token>, flr: C.Flat, tab: Table, strict: bool)
    returns (x: int)
    requires Exact(1, ul, Eval3(l, tab, strict)) && Exact(5, ur, Eval3(r, tab, strict))
    requires !strict ==> C.Begins(1, ul, xl) && C.Above(1, flr) && C.Text(flr) == ur
    ensures Exact(1, ul + [C.AndOp] + ur, Eval3(EBin(And, l, r), tab, strict))
    ensures !strict ==> C.Begins(1, ul + [C.AndOp] + ur, x)
  {
    var tl, tr := Eval3(l, tab, strict), Eval3(r, tab, strict);
    x := 0;
    if tr.Val? {
      C.LooserTo(5, 2, ur, tr.v);
    }
    if !strict {
      x := JoinSome(ul, xl, tl, ur, flr, tr);
    } else if tl.Val? && tr.Val? {
      C.Joined(1, ul, tl.v, C.AndOp, ur, tr.v);
    }
  }

  /** One operand that is false is enough. */
  lemma JoinSome(ul: seq<C.Token>, xl: int, tl: Tri, ur: seq<C.Token>, flr: C.Flat, tr: Tri) returns (x: int)
    requires Exact(1, ul, tl) && Exact(2, ur, tr) && C.Begins(1, ul, xl) && C.Above(1, flr) && C.Text(flr) == ur
    ensures C.Begins(1, ul + [C.AndOp] + ur, x) &&
            (Combine(And, tl, tr, false).Val? ==> Combine(And, tl, tr, false).v == x)
  {
    var w := C.AndJoined(ul, xl, flr);
    x := Bit(xl != 0 && w != 0);
    if tl.Val? {
      Unique(1, ul, xl, tl.v);
    }
    if tr.Val? {
      C.Looser(1, ur, tr.v);
      Unique(1, ur, w, tr.v);
    }
  }

  /** Whole conditions. */
  lemma {:induction false} SubOr(ts: seq<Token>, tab: Table, m: Macros, strict: bool, low: nat)
    returns (u: seq<C.Token>, x: int)
    requires ParseTable(0, ts, map[]).Parsed? && Fine(ParseTable(0, ts, map[]).e, tab, m, strict, low)
    ensures Subst(ts, m) == u + Subst(ParseTable(0, ts, map[]).rest, m)
    ensures Exact(0, u, Eval3(ParseTable(0, ts, map[]).e, tab, strict)) && (!strict ==> C.Begins(0, u, x))
    decreases |ts|, 10
  {
    var p := ParseTable(1, ts, map[]);
    FineLeft(0, p.e, p.rest, tab, m, strict, low);
    u, x := SubAnd(ts, tab, m, strict, low);
    var t := Eval3(p.e, tab, strict);
    if t.Val? {
      C.Looser(0, u, t.v);
    }
    if !strict {
      C.Looser(0, u, x);
    }
    u, x := SubOrTail(p.e, u, x, p.rest, tab, m, strict, low);
  }

  lemma {:induction false} SubOrTail(left: Expr, ul: seq<C.Token>, xl: int, ts: seq<Token>, tab: Table, m: Macros,
                                     strict: bool, low: nat)
    returns (u: seq<C.Token>, x: int)
    requires ParseTail(0, left, ts, map[]).Parsed? && Fine(ParseTail(0, left, ts, map[]).e, tab, m, strict, low)
    requires Exact(0, ul, Eval3(left, tab, strict)) && (!strict ==> C.Begins(0, ul, xl))
    ensures ul + Subst(ts, m) == u + Subst(ParseTail(0, left, ts, map[]).rest, m)
    ensures Exact(0, u, Eval3(ParseTail(0, left, ts, map[]).e, tab, strict)) && (!strict ==> C.Begins(0, u, x))
    decreases |ts|, 20
  {
    u, x := ul, xl;
    if HasOp(0, ts) {
      var p := ParseTable(1, ts[1..], map[]);
      FineLeft(0, left, ts, tab, m, strict, low);
      var ur, xr := SubAnd(ts[1..], tab, m, strict, low);
      var xn := JoinOr(left, ul, xl, p.e, ur, xr, tab, strict);
      var un := ul + [C.OrOp] + ur;
      OpHead(ts, ul, ur, Subst(p.rest, m), m);
      u, x := SubOrTail(EBin(Or, left, p.e), un, xn, p.rest, tab, m, strict, low);
    }
  }

  lemma JoinOr(l: Expr, ul: seq<C.Token>, xl: int, r: Expr, ur: seq<C.Token>, xr: int, tab: Table, strict: bool)
    returns (x: int)
    requires Exact(0, ul, Eval3(l, tab, strict)) && Exact(1, ur, Eval3(r, tab, strict))
    requires !strict ==> C.Begins(0, ul, xl) && C.Begins(1, ur, xr)
    ensures Exact(0, ul + [C.OrOp] + ur, Eval3(EBin(Or, l, r), tab, strict))
    ensures !strict ==> C.Begins(0, ul + [C.OrOp] + ur, x)
  {
    var tl, tr := Eval3(l, tab, strict), Eval3(r, tab, strict);
    x := Bit(xl != 0 || xr != 0);
    if strict {
      if tl.Val? && tr.Val? {
        C.Joined(0, ul, tl.v, C.OrOp, ur, tr.v);
      }
    } else {
      C.Joined(0, ul, xl, C.OrOp, ur, xr);
      if tl.Val? {
        Unique(0, ul, xl, tl.v);
      }
      if tr.Val? {
        Unique(1, ur, xr, tr.v);
      }
    }
  }

  // ----- verdicts -----

  /** The texts on a line, if it has a verdict. */
  ghost predicate LineTexts(ts: seq<Token>, tab: Table, o: Options, m: Macros, level: nat)
    requires level <= C.UNARY
  {
    Verdict(ts, tab, o).Val? ==> TextsOk(ParseTable(0, ts, tab).e, tab, m, level)
  }

  ghost predicate Right(ts: seq<Token>, tab: Table, o: Options, m: Macros, oracle: seq<Token> -> bool) {
    Verdict(ts, tab, o).Val? ==> (Verdict(ts, tab, o).v != 0) == Holds(ts, m, oracle)
  }

  /**
   A definite verdict is what the compiler will find, if the constants fit and, outside of strict mode, no symbol that
   is not on the command line is replaced with a bare `||` expression.
   */
  lemma VerdictSound(ts: seq<Token>, tab: Table, o: Options, m: Macros, oracle: seq<Token> -> bool, level: nat)
    requires Follows(m, tab) && LineFits(ts, tab) && 1 <= level <= C.UNARY &&
             (o.strict || LineTexts(ts, tab, o, m, level))
    ensures Right(ts, tab, o, m, oracle)
  {
    if Verdict(ts, tab, o).Val? {
      ParseTableGrows(0, ts, map[], tab);
      ParseTableRegular(0, ts, tab);
      var u, x := SubOr(ts, tab, m, o.strict, level);
      assert u + [] == u;
      C.BeginsAlone(0, u, Verdict(ts, tab, o).v);
    }
  }

  // ----- lines on which the evaluator and the compiler differ -----

  lemma {:induction false} OperandAt(level: nat, ts: seq<Token>, tab: Table)
    requires 2 <= level <= 4 && ParseUnary(ts, tab).Parsed?
    requires ParseUnary(ts, tab).rest == [] || ParseUnary(ts, tab).rest[0] == OpTok(And)
    ensures ParseTable(level, ts, tab) == ParseUnary(ts, tab)
    decreases 4 - level
  {
    if level < 4 {
      OperandAt(level + 1, ts, tab);
    }
  }

  lemma OneOperand(ts: seq<Token>, tab: Table)
    requires ParseUnary(ts, tab).Parsed? && ParseUnary(ts, tab).rest == []
    ensures ParseTable(0, ts, tab) == ParseUnary(ts, tab)
  {
    OperandAt(2, ts, tab);
    var p := ParseUnary(ts, tab);
    assert ParseTail(1, p.e, p.rest, tab) == p == ParseTail(0, p.e, p.rest, tab);
  }

  lemma TwoOperands(ts: seq<Token>, b: seq<Token>, tab: Table)
    requires ParseUnary(ts, tab).Parsed? && ParseUnary(ts, tab).rest == [OpTok(And)] + b
    requires ParseUnary(b, tab).Parsed? && ParseUnary(b, tab).rest == []
    ensures ParseTable(0, ts, tab) == Parsed(EBin(And, ParseUnary(ts, tab).e, ParseUnary(b, tab).e), [])
  {
    var rest, none: seq<Token> := [OpTok(And)] + b, [];
    OperandAt(2, ts, tab);
    OperandAt(2, b, tab);
    var l, r := ParseUnary(ts, tab).e, ParseUnary(b, tab).e;
    assert rest[1..] == b && HasOp(1, rest);
    var e := EBin(And, l, r);
    assert ParseTail(1, e, none, tab) == Parsed(e, none) == ParseTail(0, e, none, tab);
    assert ParseTail(1, l, rest, tab) == ParseTail(1, e, none, tab);
    assert ParseTable(1, ts, tab) == ParseTail(1, l, rest, tab);
  }

  /** A single symbol on a line, for the evaluator and for the compiler. */
  lemma LoneSymbol(name: string, tab: Table, m: Macros)
    ensures ParseTable(0, [Sym(name)], tab) == ParseUnary([Sym(name)], tab) == Parsed(ESym(name, []), [])
    ensures Subst([Sym(name)], m) == m.text(name, [])
  {
    var ts := [Sym(name)];
    assert ts[1..] == [] && Subst(ts, m) == m.text(name, []) + [];
    OneOperand(ts, tab);
  }

  lemma SymbolHolds(name: string, m: Macros, v: int, oracle: seq<Token> -> bool)
    requires C.HasValue(C.UNARY, m.text(name, []), v)
    ensures Holds([Sym(name)], m, oracle) == (v != 0)
  {
    var u := m.text(name, []);
    LoneSymbol(name, map[], m);
    C.UnaryBegins(u, v);
    C.LooserTo(C.UNARY, 0, u, v);
    C.BeginsAlone(0, u, v);
  }

  /**
   The evaluator's `int` is narrower than the `intmax_t` of the preprocessor: with a symbol set to 2^32 on the command
   line, a line with nothing but this symbol is found false, and is true for the compiler.
   */
  lemma WideSymbolIsWrong(name: string, tab: Table, o: Options, m: Macros, oracle: seq<Token> -> bool)
    requires Known(tab, name) && tab[name] == Number(0x1_0000_0000) && Follows(m, tab)
    ensures Verdict([Sym(name)], tab, o) == Val(0) && Holds([Sym(name)], m, oracle)
  {
    LoneSymbol(name, tab, m);
    SymbolHolds(name, m, 0x1_0000_0000, oracle);
  }

  /** What the compiler finds on a line with `&&` between two operands. */
  lemma AndHolds(ts: seq<Token>, m: Macros, u: seq<C.Token>, v: int, w: seq<C.Token>, x: int,
                 oracle: seq<Token> -> bool)
    requires Subst(ts, m) == u + [C.AndOp] + w && C.Begins(C.UNARY, u, v) && C.Begins(C.UNARY, w, x)
    ensures Holds(ts, m, oracle) == (v != 0 && x != 0)
  {
    C.LooserTo(C.UNARY, 1, u, v);
    C.LooserTo(C.UNARY, 2, w, x);
    C.Joined(1, u, v, C.AndOp, w, x);
    C.Looser(0, u + [C.AndOp] + w, Bit(v != 0 && x != 0));
    C.BeginsAlone(0, u + [C.AndOp] + w, Bit(v != 0 && x != 0));
  }

  /** A number and a symbol. */
  lemma NumberAndSymbol(n: Token, name: string, tab: Table, m: Macros)
    requires n.Num?
    ensures ParseTable(0, [n, OpTok(And), Sym(name)], tab) == Parsed(EBin(And, ENum(n.v), ESym(name, [])), [])
    ensures Subst([n, OpTok(And), Sym(name)], m) == [C.Atom(n.v)] + [C.AndOp] + m.text(name, [])
  {
    var b := [Sym(name)];
    var rest := [OpTok(And)] + b;
    assert [n, OpTok(And), Sym(name)] == [n] + rest;
    LoneSymbol(name, tab, m);
    NumberHead(n, rest, tab, m);
    TwoOperands([n] + rest, b, tab);
    AndHead(b, m);
  }

  lemma NumberHead(n: Token, rest: seq<Token>, tab: Table, m: Macros)
    requires n.Num?
    ensures ParseUnary([n] + rest, tab) == Parsed(ENum(n.v), rest) &&
            Subst([n] + rest, m) == [C.Atom(n.v)] + Subst(rest, m)
  {
    assert ([n] + rest)[1..] == rest;
  }

  lemma AndFacts(l: Expr, r: Expr, tab: Table, strict: bool)
    ensures var e := EBin(And, l, r);
            && Eval3(e, tab, strict) == Combine(And, Eval3(l, tab, strict), Eval3(r, tab, strict), strict)
            && HasName(e) == (HasName(l) || HasName(r)) && Bad(e, tab) == (Bad(l, tab) || Bad(r, tab))
            && Constants(e, tab) == Constants(l, tab) + Constants(r, tab)
  {
  }

  /** So is a literal, where the other operand of `&&` is not known to the evaluator. */
  lemma WideLiteralIsWrong(n: Token, name: string, tab: Table, o: Options, m: Macros, v: int,
                           oracle: seq<Token> -> bool)
    requires n.Num? && n.v == 0x1_0000_0000
    requires !Known(tab, name) && !o.strict && C.HasValue(C.UNARY, m.text(name, []), v) && v != 0
    ensures var ts := [n, OpTok(And), Sym(name)]; Verdict(ts, tab, o) == Val(0) && Holds(ts, m, oracle)
  {
    NumberAndSymbol(n, name, tab, m);
    AndFacts(ENum(n.v), ESym(name, []), tab, o.strict);
    C.AtomBegins(n.v);
    C.UnaryBegins(m.text(name, []), v);
    AndHolds([n, OpTok(And), Sym(name)], m, [C.Atom(n.v)], n.v, m.text(name, []), v, oracle);
  }

  /** A symbol and another operand. */
  lemma SymbolAnd(name: string, b: seq<Token>, tab: Table, m: Macros)
    requires ParseUnary(b, tab).Parsed? && ParseUnary(b, tab).rest == []
    ensures ParseTable(0, [Sym(name), OpTok(And)] + b, tab) ==
              Parsed(EBin(And, ESym(name, []), ParseUnary(b, tab).e), [])
    ensures Subst([Sym(name), OpTok(And)] + b, m) == m.text(name, []) + [C.AndOp] + Subst(b, m)
  {
    var rest := [OpTok(And)] + b;
    assert [Sym(name), OpTok(And)] + b == [Sym(name)] + rest;
    SymbolHead(name, rest, tab, m);
    TwoOperands([Sym(name)] + rest, b, tab);
    AndHead(b, m);
  }

  lemma AndHead(b: seq<Token>, m: Macros)
    ensures Subst([OpTok(And)] + b, m) == [C.AndOp] + Subst(b, m)
  {
    assert ([OpTok(And)] + b)[1..] == b;
  }

  lemma SymbolHead(name: string, rest: seq<Token>, tab: Table, m: Macros)
    requires rest != [] && !rest[0].LParen?
    ensures ParseUnary([Sym(name)] + rest, tab) == Parsed(ESym(name, []), rest)
    ensures Subst([Sym(name)] + rest, m) == m.text(name, []) + Subst(rest, m)
  {
    var ts := [Sym(name)] + rest;
    assert ts[1..] == rest && rest[..0] == [] && rest[0..] == rest;
  }

  /** `1 || 0` and an operand that is false: the operand only belongs to the second half. */
  lemma OrText(v: int)
    ensures var us := [C.Atom(1), C.OrOp, C.Atom(0)] + [C.AndOp] + [C.Atom(v)]; C.HasValue(0, us, 1)
  {
    var a, b, c := [C.Atom(1)], [C.Atom(0)], [C.Atom(v)];
    C.AtomBegins(1);
    C.AtomBegins(0);
    C.AtomBegins(v);
    C.LooserTo(C.UNARY, 0, a, 1);
    C.LooserTo(C.UNARY, 1, b, 0);
    C.LooserTo(C.UNARY, 2, c, v);
    C.Joined(1, b, 0, C.AndOp, c, v);
    C.Joined(0, a, 1, C.OrOp, b + [C.AndOp] + c, 0);
    var us := [C.Atom(1), C.OrOp, C.Atom(0)] + [C.AndOp] + [C.Atom(v)];
    assert us == a + [C.OrOp] + (b + [C.AndOp] + c);
    C.BeginsAlone(0, us, 1);
  }

  /**
   With `-U` for one symbol and nothing for another, the line `x && defined(foo)` is found false.  The compiler, for
   which `x` stands for `1 || 0`, finds it true.
   */
  lemma OrTextIsWrong(x: string, foo: string, tab: Table, o: Options, m: Macros, oracle: seq<Token> -> bool)
    requires !Known(tab, x) && IsUndef(tab, foo) && Follows(m, tab) && !o.strict
    requires m.text(x, []) == [C.Atom(1), C.OrOp, C.Atom(0)]
    ensures var ts := [Sym(x), OpTok(And), DefinedKw, LParen, Sym(foo), RParen];
            Verdict(ts, tab, o) == Val(0) && Holds(ts, m, oracle)
  {
    var b := [DefinedKw, LParen, Sym(foo), RParen];
    DefinedOperand(foo, tab, m);
    SymbolAnd(x, b, tab, m);
    assert [Sym(x), OpTok(And), DefinedKw, LParen, Sym(foo), RParen] == [Sym(x), OpTok(And)] + b;
    AndFacts(ESym(x, []), EDefined(foo), tab, o.strict);
    OrText(0);
  }

  lemma DefinedOperand(foo: string, tab: Table, m: Macros)
    ensures var b := [DefinedKw, LParen, Sym(foo), RParen];
            ParseUnary(b, tab) == Parsed(EDefined(foo), []) && Subst(b, m) == [C.Atom(Bit(m.defined(foo)))]
  {
    var b, c := [DefinedKw, LParen, Sym(foo), RParen], [Sym(foo), RParen];
    assert b[2..] == c && c[1..] == [RParen] && [RParen][1..] == [];
    assert Word(c) == foo && SkipWord(c) == [RParen];
  }

  lemma ZeroOperand(z: Token, tab: Table, m: Macros)
    requires z.Num? && z.v == 0
    ensures ParseUnary([z], tab) == Parsed(ENum(0), []) && Subst([z], m) == [C.Atom(0)]
  {
    assert [z][1..] == [];
  }

  /**
   All lines whose symbols stand for expressions of a level are judged as the compiler does, if and only if the mode
   is strict or the level is above that of `||`.
   */
  lemma RightExactly(level: nat, x: string, tab: Table, o: Options)
    requires level <= C.UNARY && x !in tab
    ensures (forall ts: seq<Token>, m: Macros, oracle: seq<Token> -> bool ::
               Follows(m, tab) && LineFits(ts, tab) && LineTexts(ts, tab, o, m, level) ==>
                 Right(ts, tab, o, m, oracle)) <==>
            o.strict || level >= 1
  {
    if o.strict || level >= 1 {
      forall ts: seq<Token>, m: Macros, oracle: seq<Token> -> bool
        | Follows(m, tab) && LineFits(ts, tab) && LineTexts(ts, tab, o, m, level)
        ensures Right(ts, tab, o, m, oracle)
      {
        VerdictSound(ts, tab, o, m, oracle, if o.strict then 1 else level);
      }
    } else {
      var m0 := SomeMacros(tab);
      var m := Macros(m0.defined, (s, args) => if s == x then [C.Atom(1), C.OrOp, C.Atom(0)] else m0.text(s, args));
      var z, oracle: seq<Token> -> bool := Num("0", 0), _ => false;
      WrongLine(x, z, tab, o, m, oracle);
      assert Follows(m, tab);
    }
  }

  /** The line `x && 0`. */
  lemma WrongLine(x: string, z: Token, tab: Table, o: Options, m: Macros, oracle: seq<Token> -> bool)
    requires x !in tab && !o.strict && z.Num? && z.v == 0 && m.text(x, []) == [C.Atom(1), C.OrOp, C.Atom(0)]
    ensures var ts := [Sym(x), OpTok(And)] + [z];
            LineFits(ts, tab) && LineTexts(ts, tab, o, m, 0) && !Right(ts, tab, o, m, oracle)
  {
    var ts := [Sym(x), OpTok(And)] + [z];
    ZeroOperand(z, tab, m);
    SymbolAnd(x, [z], tab, m);
    AndZero(x, tab, m);
    assert Verdict(ts, tab, o) == Val(0);
    OrText(0);
  }

  lemma AndZero(x: string, tab: Table, m: Macros)
    requires x !in tab && m.text(x, []) == [C.Atom(1), C.OrOp, C.Atom(0)]
    ensures var e := EBin(And, ESym(x, []), ENum(0));
            Eval3(e, tab, false) == Val(0) && HasName(e) && !Bad(e, tab) && AllFit(Constants(e, tab)) &&
            TextsOk(e, tab, m, 0)
  {
    AndFacts(ESym(x, []), ENum(0), tab, false);
    assert Constants(ENum(0), tab) == {0} && Constants(ESym(x, []), tab) == {};
    OrIsExpr();
  }

  lemma OrIsExpr()
    ensures C.IsExpr(0, [C.Atom(1), C.OrOp, C.Atom(0)])
  {
    var a, b := [C.Atom(1)], [C.Atom(0)];
    C.AtomBegins(1);
    C.AtomBegins(0);
    C.LooserTo(C.UNARY, 0, a, 1);
    C.LooserTo(C.UNARY, 1, b, 0);
    C.Joined(0, a, 1, C.OrOp, b, 0);
    assert a + [C.OrOp] + b == [C.Atom(1), C.OrOp, C.Atom(0)];
    C.BeginsAlone(0, a + [C.OrOp] + b, 1);
  }
}
