/**
 The condition evaluator of `unifdef`: a table-driven recursive descent over the tokens of an `#if` line that computes
 a three-valued result as it parses. The reference is a parser that only builds syntax trees, and ordinary C
 evaluation.
 */
module UnifdefEval {
  import opened Basics

  datatype Op = Or | And | Eq | Ne | Le | Ge | Lt | Gt

  /** `Num` keeps the spelling beside the value; `Other` is any character the evaluator does not know. */
  datatype Token =
    | Bang | LParen | RParen | Num(text: string, v: nat) | DefinedKw | Sym(name: string) | OpTok(op: Op) | Other

  datatype Expr =
    | ENot(e: Expr)
    | ENum(v: nat)
    | EDefined(name: string)
    | ESym(name: string, args: seq<Token>)
    | EBin(op: Op, l: Expr, r: Expr)

  /** `-U`, `-D` with a number, `-D` with something else. */
  datatype Value = Undef | Number(v: int) | NotNumber

  type Table = map<string, Value>

  datatype Parse = NoParse | Parsed(e: Expr, rest: seq<Token>)

  /** The precedence level of an operator; level 4 is the unary expressions. */
  function Prec(op: Op): nat {
    match op
    case Or => 0
    case And => 1
    case Eq => 2
    case Ne => 2
    case _ => 3
  }

  /** The identifier or number a token spells; the empty word for anything else. */
  function Word(ts: seq<Token>): string {
    if ts == [] then "" else
    match ts[0]
    case Num(text, _) => text
    case DefinedKw => "defined"
    case Sym(name) => name
    case _ => ""
  }

  function SkipWord(ts: seq<Token>): seq<Token> {
    if ts != [] && (ts[0].Num? || ts[0].DefinedKw? || ts[0].Sym?) then ts[1..] else ts
  }

  /** The number of tokens up to and including the parenthesis that closes `level` open ones; 0 if there is none. */
  function Close(ts: seq<Token>, level: nat): (n: nat)
    requires level > 0
    ensures n <= |ts|
  {
    if ts == [] then 0 else
    var level' := if ts[0].LParen? then level + 1 else if ts[0].RParen? then level - 1 else level;
    if level' == 0 then 1 else
    var n := Close(ts[1..], level');
    if n == 0 then 0 else n + 1
  }

  /** The length of the argument list at the head of `ts`; 0 where there is none or it does not close. */
  function ArgCount(ts: seq<Token>): (n: nat)
    ensures n <= |ts|
  {
    if ts == [] || !ts[0].LParen? then 0 else
    var n := Close(ts[1..], 1);
    if n == 0 then 0 else n + 1
  }

  /** Parentheses open after the first `n` tokens. */
  function Depth(ts: seq<Token>, n: nat): int
    requires n <= |ts|
  {
    if n == 0 then 0
    else Depth(ts, n - 1) + if ts[n - 1].LParen? then 1 else if ts[n - 1].RParen? then -1 else 0
  }

  lemma {:induction false} CloseIsFirst(ts: seq<Token>, i: nat)
    requires i <= |ts| && Depth(ts, i) > 0
    ensures var n := Close(ts[i..], Depth(ts, i));
            if n > 0 then Depth(ts, i + n) == 0 && forall m :: i <= m < i + n ==> Depth(ts, m) > 0
            else forall m :: i <= m <= |ts| ==> Depth(ts, m) > 0
    decreases |ts| - i
  {
    if i < |ts| {
      CloseNext(ts, i);
      if Depth(ts, i + 1) > 0 {
        CloseIsFirst(ts, i + 1);
      }
    }
  }

  lemma CloseNext(ts: seq<Token>, i: nat)
    requires i < |ts| && Depth(ts, i) > 0
    ensures Depth(ts, i + 1) >= 0
    ensures Close(ts[i..], Depth(ts, i)) ==
            if Depth(ts, i + 1) == 0 then 1
            else var n := Close(ts[i + 1..], Depth(ts, i + 1)); if n == 0 then 0 else n + 1
  {
    assert ts[i..][1..] == ts[i + 1..];
  }

  /**
   An argument list is balanced and no shorter one is; there is none exactly if the first parenthesis never closes.
   */
  lemma ArgsBalanced(ts: seq<Token>)
    ensures var n := ArgCount(ts);
            if n > 0 then ts[0].LParen? && Depth(ts, n) == 0 && forall m :: 0 < m < n ==> Depth(ts, m) > 0
            else ts == [] || !ts[0].LParen? || forall m :: 0 < m <= |ts| ==> Depth(ts, m) > 0
  {
    if ts != [] && ts[0].LParen? {
      assert Depth(ts, 1) == Depth(ts, 0) + 1;
      CloseIsFirst(ts, 1);
    }
  }

  predicate IsUndef(tab: Table, name: string) {
    name != "" && name in tab && tab[name].Undef?
  }

  predicate Known(tab: Table, name: string) {
    name != "" && name in tab
  }

  function ParseUnary(ts: seq<Token>, tab: Table): (p: Parse)
    ensures p.Parsed? ==> |p.rest| < |ts|
    decreases |ts|, 5
  {
    if ts == [] then NoParse else
    match ts[0]
    case Bang =>
      var p := ParseUnary(ts[1..], tab);
      if p.NoParse? then NoParse else Parsed(ENot(p.e), p.rest)
    case LParen =>
      var p := ParseTable(0, ts[1..], tab);
      if p.NoParse? || p.rest == [] || !p.rest[0].RParen? then NoParse else Parsed(p.e, p.rest[1..])
    case Num(_, v) => Parsed(ENum(v), ts[1..])
    case DefinedKw =>
      var paren := |ts| > 1 && ts[1].LParen?;
      var at := if paren then ts[2..] else ts[1..];
      var rest := SkipWord(at);
      if !paren then Parsed(EDefined(Word(at)), rest)
      else if rest == [] || !rest[0].RParen? then NoParse
      else Parsed(EDefined(Word(at)), rest[1..])
    case Sym(name) =>
      var n := if IsUndef(tab, name) then 0 else ArgCount(ts[1..]);
      Parsed(ESym(name, ts[1..][..n]), ts[1..][n..])
    case _ => NoParse
  }

  /** Expressions of precedence `level` and above. */
  function ParseTable(level: nat, ts: seq<Token>, tab: Table): (p: Parse)
    requires level <= 4
    ensures p.Parsed? ==> |p.rest| < |ts|
    decreases |ts|, 10 - level
  {
    if level == 4 then ParseUnary(ts, tab) else
    var p := ParseTable(level + 1, ts, tab);
    if p.NoParse? then NoParse else ParseTail(level, p.e, p.rest, tab)
  }

  predicate HasOp(level: nat, ts: seq<Token>) {
    ts != [] && ts[0].OpTok? && Prec(ts[0].op) == level
  }

  /** Left-associative continuation of `left` with the operators of `level`. */
  function ParseTail(level: nat, left: Expr, ts: seq<Token>, tab: Table): (p: Parse)
    requires level < 4
    ensures p.Parsed? ==> |p.rest| <= |ts|
    decreases |ts|, 20
  {
    if !HasOp(level, ts) then Parsed(left, ts) else
    var p := ParseTable(level + 1, ts[1..], tab);
    if p.NoParse? then NoParse else ParseTail(level, EBin(ts[0].op, left, p.e), p.rest, tab)
  }

  // ----- three-valued evaluation -----

  datatype Tri = Unknown | Val(v: int)

  /** `strtol` saturates at the limits of a 64-bit `long`; storing it in an `int` keeps the low 32 bits. */
  function ToInt(v: int): (r: int)
    ensures -0x8000_0000 <= r < 0x8000_0000
  {
    var c := if v > 0x7fff_ffff_ffff_ffff then 0x7fff_ffff_ffff_ffff
             else if v < -0x8000_0000_0000_0000 then -0x8000_0000_0000_0000 else v;
    (c + 0x8000_0000) % 0x1_0000_0000 - 0x8000_0000
  }

  predicate FitsInt(v: int) { -0x8000_0000 <= v < 0x8000_0000 }

  function Compute(op: Op, a: int, b: int): int {
    match op
    case Or => Bit(a != 0 || b != 0)
    case And => Bit(a != 0 && b != 0)
    case Eq => Bit(a == b)
    case Ne => Bit(a != b)
    case Le => Bit(a <= b)
    case Ge => Bit(a >= b)
    case Lt => Bit(a < b)
    case Gt => Bit(a > b)
  }

  /** Without strict logic, one operand can decide `||` and `&&` although the other is unknown. */
  function Combine(op: Op, a: Tri, b: Tri, strict: bool): Tri {
    if op.Or? && !strict && ((a.Val? && a.v != 0) || (b.Val? && b.v != 0)) then Val(1)
    else if op.And? && !strict && ((a.Val? && a.v == 0) || (b.Val? && b.v == 0)) then Val(0)
    else if a.Unknown? || b.Unknown? then Unknown
    else Val(Compute(op, a.v, b.v))
  }

  function Eval3(e: Expr, tab: Table, strict: bool): Tri {
    match e
    case ENot(e1) =>
      var t := Eval3(e1, tab, strict);
      if t.Unknown? then Unknown else Val(Bit(t.v == 0))
    case ENum(v) => Val(ToInt(v))
    case EDefined(name) => if Known(tab, name) then Val(Bit(!tab[name].Undef?)) else Unknown
    case ESym(name, _) =>
      if !Known(tab, name) || tab[name].NotNumber? then Unknown
      else if tab[name].Undef? then Val(0) else Val(ToInt(tab[name].v))
    case EBin(op, l, r) => Combine(op, Eval3(l, tab, strict), Eval3(r, tab, strict), strict)
  }

  /** Nothing is left open: every name is known, and every name that is used as a value is a number or undefined. */
  predicate Settled(e: Expr, tab: Table) {
    match e
    case ENot(e1) => Settled(e1, tab)
    case ENum(_) => true
    case EDefined(name) => Known(tab, name)
    case ESym(name, _) => Known(tab, name) && !tab[name].NotNumber?
    case EBin(_, l, r) => Settled(l, tab) && Settled(r, tab)
  }

  /** A symbol whose value is not a number makes the whole evaluation an error. */
  predicate Bad(e: Expr, tab: Table) {
    match e
    case ENot(e1) => Bad(e1, tab)
    case ESym(name, _) => Known(tab, name) && tab[name].NotNumber?
    case EBin(_, l, r) => Bad(l, tab) || Bad(r, tab)
    case _ => false
  }

  /** A settled expression has a value and no error; with strict logic no other has a value. */
  lemma {:induction false} SettledIsDecided(e: Expr, tab: Table, strict: bool)
    ensures Settled(e, tab) ==> Eval3(e, tab, strict).Val? && !Bad(e, tab)
    ensures strict && Eval3(e, tab, strict).Val? ==> Settled(e, tab)
  {
    match e
    case ENot(e1) => SettledIsDecided(e1, tab, strict);
    case EBin(_, l, r) =>
      SettledIsDecided(l, tab, strict);
      SettledIsDecided(r, tab, strict);
    case _ =>
  }

  predicate HasName(e: Expr) {
    match e
    case ENot(e1) => HasName(e1)
    case ENum(_) => false
    case EBin(_, l, r) => HasName(l) || HasName(r)
    case _ => true
  }

  datatype Options = Options(strict: bool, killconsts: bool)

  /** The verdict on an `#if` or `#elif` line: `Unknown` also when anything is left over on it. */
  function Verdict(ts: seq<Token>, tab: Table, o: Options): Tri {
    var p := ParseTable(0, ts, tab);
    if p.NoParse? || p.rest != [] || Bad(p.e, tab) || (!o.killconsts && !HasName(p.e)) then Unknown
    else Eval3(p.e, tab, o.strict)
  }

  // ----- the evaluator itself -----

  datatype Result = Error | Done(t: Tri, rest: seq<Token>)

  /** What parsing and then evaluating would give. */
  ghost predicate Computes(r: Result, p: Parse, tab: Table, strict: bool) {
    if p.NoParse? || Bad(p.e, tab) then r.Error? else r == Done(Eval3(p.e, tab, strict), p.rest)
  }

  /** Skip macro arguments: a loop with a nesting counter that rewinds when it runs off the line. */
  method SkipArgs(ts: seq<Token>) returns (rest: seq<Token>)
    ensures rest == ts[ArgCount(ts)..]
  {
    if ts == [] || !ts[0].LParen? {
      return ts;
    }
    var i, level := 1, 1;
    while level != 0 && i < |ts|
      invariant 1 <= i <= |ts| && 0 <= level
      invariant level == 0 ==> ArgCount(ts) == i
      invariant level > 0 ==>
        Close(ts[1..], 1) == var n := Close(ts[i..], level); if n == 0 then 0 else n + i - 1
      decreases |ts| - i
    {
      assert ts[i..][1..] == ts[i + 1..];
      if ts[i].LParen? {
        level := level + 1;
      }
      if ts[i].RParen? {
        level := level - 1;
      }
      i := i + 1;
    }
    if level == 0 {
      rest := ts[i..];
    } else {
      rest := ts;
    }
  }

  class Evaluator {
    const tab: Table
    const strict: bool
    var constexpr: bool

    constructor (tab: Table, o: Options)
      ensures this.tab == tab && strict == o.strict && constexpr == !o.killconsts
    {
      this.tab := tab;
      strict := o.strict;
      constexpr := !o.killconsts;
    }

    method EvalUnary(ts: seq<Token>) returns (r: Result)
      modifies this
      ensures Computes(r, ParseUnary(ts, tab), tab, strict)
      ensures r.Done? ==> constexpr == (old(constexpr) && !HasName(ParseUnary(ts, tab).e))
      decreases |ts|, 5
    {
      if ts == [] {
        return Error;
      }
      match ts[0]
      case Bang =>
        r := EvalUnary(ts[1..]);
        if r.Done? && r.t.Val? {
          r := Done(Val(Bit(r.t.v == 0)), r.rest);
        }
      case LParen =>
        r := EvalTable(0, ts[1..]);
        if r.Done? {
          if r.rest == [] || !r.rest[0].RParen? {
            return Error;
          }
          r := Done(r.t, r.rest[1..]);
        }
      case Num(_, v) =>
        r := Done(Val(ToInt(v)), ts[1..]);
      case DefinedKw =>
        r := EvalDefined(ts);
      case Sym(name) =>
        constexpr := false;
        if !Known(tab, name) {
          var rest := SkipArgs(ts[1..]);
          return Done(Unknown, rest);
        }
        match tab[name] {
          case Undef =>
            r := Done(Val(0), ts[1..]);
          case NotNumber =>
            r := Error;
          case Number(v) =>
            var rest := SkipArgs(ts[1..]);
            r := Done(Val(ToInt(v)), rest);
        }
      case _ =>
        r := Error;
    }

    method EvalDefined(ts: seq<Token>) returns (r: Result)
      requires ts != [] && ts[0].DefinedKw?
      modifies this
      ensures Computes(r, ParseUnary(ts, tab), tab, strict)
      ensures r.Done? ==> !constexpr
    {
      var paren := |ts| > 1 && ts[1].LParen?;
      var at := if paren then ts[2..] else ts[1..];
      var t := if Known(tab, Word(at)) then Val(Bit(!tab[Word(at)].Undef?)) else Unknown;
      var rest := SkipWord(at);
      if paren {
        if rest == [] || !rest[0].RParen? {
          return Error;
        }
        rest := rest[1..];
      }
      constexpr := false;
      r := Done(t, rest);
    }

    method EvalTable(level: nat, ts: seq<Token>) returns (r: Result)
      requires level <= 4
      modifies this
      ensures Computes(r, ParseTable(level, ts, tab), tab, strict)
      ensures r.Done? ==> constexpr == (old(constexpr) && !HasName(ParseTable(level, ts, tab).e))
      decreases |ts|, 10 - level
    {
      if level == 4 {
        r := EvalUnary(ts);
        return;
      }
      r := EvalTable(level + 1, ts);
      ghost var p := ParseTable(level + 1, ts, tab);
      if r.Error? {
        if p.Parsed? {
          TailKeepsBad(level, p.e, p.rest, tab);
        }
        return;
      }
      ghost var left := p.e;
      while HasOp(level, r.rest)
        invariant r.Done? && !Bad(left, tab) && r.t == Eval3(left, tab, strict) && |r.rest| < |ts|
        invariant ParseTable(level, ts, tab) == ParseTail(level, left, r.rest, tab)
        invariant constexpr == (old(constexpr) && !HasName(left))
        decreases |r.rest|
      {
        var op := r.rest[0].op;
        ghost var q := ParseTable(level + 1, r.rest[1..], tab);
        var right := EvalTable(level + 1, r.rest[1..]);
        if right.Error? {
          if q.Parsed? {
            TailKeepsBad(level, EBin(op, left, q.e), q.rest, tab);
          }
          return Error;
        }
        left := EBin(op, left, q.e);
        r := Done(Combine(op, r.t, right.t, strict), right.rest);
      }
    }
  }

  /** An unevaluable symbol stays in the tree however the expression goes on. */
  lemma {:induction false} TailKeepsBad(level: nat, left: Expr, ts: seq<Token>, tab: Table)
    requires level < 4 && Bad(left, tab)
    ensures var p := ParseTail(level, left, ts, tab); p.NoParse? || Bad(p.e, tab)
    decreases |ts|
  {
    if HasOp(level, ts) {
      var p := ParseTable(level + 1, ts[1..], tab);
      if p.Parsed? {
        TailKeepsBad(level, EBin(ts[0].op, left, p.e), p.rest, tab);
      }
    }
  }

  /** The verdict on a whole line, as the line parser of `unifdef` uses it. */
  method IfEval(ts: seq<Token>, tab: Table, o: Options) returns (t: Tri)
    ensures t == Verdict(ts, tab, o)
  {
    var ev := new Evaluator(tab, o);
    var r := ev.EvalTable(0, ts);
    t := if ev.constexpr || r.Error? || r.rest != [] then Unknown else r.t;
  }

  // ----- ordinary C evaluation -----

  /** A complete set of macro definitions: what is defined, and the value of each use. */
  datatype Env = Env(defined: string -> bool, value: (string, seq<Token>) -> int)

  /** The definitions are as the command line says, and anything at all for other symbols. */
  ghost predicate Extends(env: Env, tab: Table) {
    forall s :: Known(tab, s) ==>
      match tab[s]
      case Undef => !env.defined(s) && env.value(s, []) == 0
      case Number(v) => env.defined(s) && forall args :: env.value(s, args) == v
      case NotNumber => env.defined(s)
  }

  /** Such definitions exist. */
  function SomeEnv(tab: Table): (env: Env)
    ensures Extends(env, tab)
  {
    Env(s => Known(tab, s) && !tab[s].Undef?, (s, args) => if Known(tab, s) && tab[s].Number? then tab[s].v else 0)
  }

  function CEval(e: Expr, env: Env): int {
    match e
    case ENot(e1) => Bit(CEval(e1, env) == 0)
    case ENum(v) => v
    case EDefined(name) => Bit(env.defined(name))
    case ESym(name, args) => env.value(name, args)
    case EBin(op, l, r) => Compute(op, CEval(l, env), CEval(r, env))
  }

  /** The constants an expression depends on: its literals and the values of its known symbols. */
  function Constants(e: Expr, tab: Table): set<int> {
    match e
    case ENot(e1) => Constants(e1, tab)
    case ENum(v) => {v}
    case EDefined(_) => {}
    case ESym(name, _) => if Known(tab, name) && tab[name].Number? then {tab[name].v} else {}
    case EBin(_, l, r) => Constants(l, tab) + Constants(r, tab)
  }

  /** Trees as the parser builds them: a symbol given with `-U` takes no arguments. */
  predicate Regular(e: Expr, tab: Table) {
    match e
    case ENot(e1) => Regular(e1, tab)
    case ESym(name, args) => IsUndef(tab, name) ==> args == []
    case EBin(_, l, r) => Regular(l, tab) && Regular(r, tab)
    case _ => true
  }

  predicate AllFit(cs: set<int>) { forall v :: v in cs ==> FitsInt(v) }

  /** A definite result is the value that C computes, whatever the other symbols are. */
  lemma {:induction false} Eval3Sound(e: Expr, tab: Table, strict: bool, env: Env)
    requires Extends(env, tab) && Regular(e, tab) && !Bad(e, tab) && AllFit(Constants(e, tab))
    ensures Eval3(e, tab, strict).Val? ==> Eval3(e, tab, strict).v == CEval(e, env)
  {
    match e
    case ENot(e1) => Eval3Sound(e1, tab, strict, env);
    case ENum(v) => assert v in Constants(e, tab);
    case EDefined(_) =>
    case ESym(name, args) =>
      if Known(tab, name) {
        assert tab[name].Number? ==> tab[name].v in Constants(e, tab) && env.value(name, args) == tab[name].v;
      }
    case EBin(_, l, r) =>
      Eval3Sound(l, tab, strict, env);
      Eval3Sound(r, tab, strict, env);
  }

  ghost predicate SoundOn(e: Expr, tab: Table, strict: bool) {
    forall env :: Extends(env, tab) && Eval3(e, tab, strict).Val? ==> Eval3(e, tab, strict).v == CEval(e, env)
  }

  /** The constants an expression can mention: literals, and the values on the command line. */
  ghost predicate Mentionable(v: int, tab: Table) {
    v >= 0 || exists s :: Known(tab, s) && tab[s] == Number(v)
  }

  /** Exactly when every expression over a set of constants is evaluated as C does: when each constant fits an `int`. */
  lemma SoundExactlyWhenConstantsFit(tab: Table, cs: set<int>, strict: bool)
    requires forall v :: v in cs ==> Mentionable(v, tab)
    ensures (forall e: Expr :: Regular(e, tab) && !Bad(e, tab) && Constants(e, tab) <= cs ==>
               SoundOn(e, tab, strict)) <==> AllFit(cs)
  {
    if AllFit(cs) {
      forall e: Expr, env: Env | Regular(e, tab) && !Bad(e, tab) && Constants(e, tab) <= cs && Extends(env, tab)
        ensures Eval3(e, tab, strict).Val? ==> Eval3(e, tab, strict).v == CEval(e, env)
      {
        Eval3Sound(e, tab, strict, env);
      }
    } else {
      var v :| v in cs && !FitsInt(v);
      var env := SomeEnv(tab);
      var e: Expr;
      if v >= 0 {
        e := ENum(v);
      } else {
        var s :| Known(tab, s) && tab[s] == Number(v);
        e := ESym(s, []);
      }
      assert Constants(e, tab) == {v} && Regular(e, tab) && !Bad(e, tab);
      assert Eval3(e, tab, strict) == Val(ToInt(v)) && CEval(e, env) == v;
      assert !SoundOn(e, tab, strict);
    }
  }

  lemma {:induction false} ParseUnaryRegular(ts: seq<Token>, tab: Table)
    ensures var p := ParseUnary(ts, tab); p.Parsed? ==> Regular(p.e, tab)
    decreases |ts|, 5
  {
    if ts != [] && ts[0].Bang? {
      ParseUnaryRegular(ts[1..], tab);
    } else if ts != [] && ts[0].LParen? {
      ParseTableRegular(0, ts[1..], tab);
    }
  }

  lemma {:induction false} ParseTableRegular(level: nat, ts: seq<Token>, tab: Table)
    requires level <= 4
    ensures var p := ParseTable(level, ts, tab); p.Parsed? ==> Regular(p.e, tab)
    decreases |ts|, 10 - level
  {
    if level == 4 {
      ParseUnaryRegular(ts, tab);
    } else {
      ParseTableRegular(level + 1, ts, tab);
      var p := ParseTable(level + 1, ts, tab);
      if p.Parsed? {
        ParseTailRegular(level, p.e, p.rest, tab);
      }
    }
  }

  lemma {:induction false} ParseTailRegular(level: nat, left: Expr, ts: seq<Token>, tab: Table)
    requires level < 4 && Regular(left, tab)
    ensures var p := ParseTail(level, left, ts, tab); p.Parsed? ==> Regular(p.e, tab)
    decreases |ts|, 20
  {
    if HasOp(level, ts) {
      ParseTableRegular(level + 1, ts[1..], tab);
      var p := ParseTable(level + 1, ts[1..], tab);
      if p.Parsed? {
        ParseTailRegular(level, EBin(ts[0].op, left, p.e), p.rest, tab);
      }
    }
  }

  // ----- more definitions -----

  /** `tab'` defines everything `tab` does, the same way. */
  predicate Grows(tab: Table, tab': Table) {
    forall s :: s in tab ==> s in tab' && tab'[s] == tab[s]
  }

  predicate StuckAtParen(p: Parse) { p.Parsed? && p.rest != [] && p.rest[0].LParen? }

  /** With more definitions the parse is the same, or stops in front of the arguments of an undefined symbol. */
  lemma {:induction false} ParseUnaryGrows(ts: seq<Token>, tab: Table, tab': Table)
    requires Grows(tab, tab')
    ensures var p' := ParseUnary(ts, tab'); p'.Parsed? ==> StuckAtParen(p') || ParseUnary(ts, tab) == p'
    decreases |ts|, 5
  {
    if ts != [] && ts[0].Bang? {
      ParseUnaryGrows(ts[1..], tab, tab');
    } else if ts != [] && ts[0].LParen? {
      ParseTableGrows(0, ts[1..], tab, tab');
    } else if ts != [] && ts[0].Sym? {
      assert ts[1..][0..] == ts[1..];
    }
  }

  lemma {:induction false} ParseTableGrows(level: nat, ts: seq<Token>, tab: Table, tab': Table)
    requires level <= 4 && Grows(tab, tab')
    ensures var p' := ParseTable(level, ts, tab'); p'.Parsed? ==> StuckAtParen(p') || ParseTable(level, ts, tab) == p'
    decreases |ts|, 10 - level
  {
    if level == 4 {
      ParseUnaryGrows(ts, tab, tab');
    } else {
      ParseTableGrows(level + 1, ts, tab, tab');
      var p' := ParseTable(level + 1, ts, tab');
      if p'.Parsed? {
        ParseTailGrows(level, p'.e, p'.rest, tab, tab');
      }
    }
  }

  lemma {:induction false} ParseTailGrows(level: nat, left: Expr, ts: seq<Token>, tab: Table, tab': Table)
    requires level < 4 && Grows(tab, tab')
    ensures var p' := ParseTail(level, left, ts, tab'); p'.Parsed? ==>
              StuckAtParen(p') || ParseTail(level, left, ts, tab) == p'
    decreases |ts|, 20
  {
    if HasOp(level, ts) {
      ParseTableGrows(level + 1, ts[1..], tab, tab');
      var p' := ParseTable(level + 1, ts[1..], tab');
      if p'.Parsed? {
        ParseTailGrows(level, EBin(ts[0].op, left, p'.e), p'.rest, tab, tab');
      }
    }
  }

  lemma {:induction false} Eval3Grows(e: Expr, tab: Table, tab': Table, strict: bool)
    requires Grows(tab, tab')
    ensures Bad(e, tab) ==> Bad(e, tab')
    ensures Eval3(e, tab, strict).Val? && !Bad(e, tab') ==> Eval3(e, tab', strict) == Eval3(e, tab, strict)
  {
    match e
    case ENot(e1) => Eval3Grows(e1, tab, tab', strict);
    case EBin(_, l, r) => Eval3Grows(l, tab, tab', strict); Eval3Grows(r, tab, tab', strict);
    case _ =>
  }

  /** Defining more symbols never turns a definite verdict into the opposite one. */
  lemma VerdictNeverFlips(ts: seq<Token>, tab: Table, tab': Table, o: Options)
    requires Grows(tab, tab') && Verdict(ts, tab, o).Val?
    ensures Verdict(ts, tab', o).Unknown? || Verdict(ts, tab', o) == Verdict(ts, tab, o)
  {
    ParseTableGrows(0, ts, tab, tab');
    Eval3Grows(ParseTable(0, ts, tab).e, tab, tab', o.strict);
  }

  /** Dropping strictness only adds verdicts. */
  lemma {:induction false} StrictIsWeaker(e: Expr, tab: Table)
    ensures Eval3(e, tab, true).Val? ==> Eval3(e, tab, false) == Eval3(e, tab, true)
  {
    match e
    case ENot(e1) => StrictIsWeaker(e1, tab);
    case EBin(_, l, r) => StrictIsWeaker(l, tab); StrictIsWeaker(r, tab);
    case _ =>
  }

  ghost predicate LineFits(ts: seq<Token>, tab: Table) {
    var p := ParseTable(0, ts, tab);
    p.Parsed? ==> AllFit(Constants(p.e, tab))
  }
}
