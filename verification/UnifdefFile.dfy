/**
 `unifdef` end to end: each line of a file is classified with the evaluator, the
 state machine rewrites the file, and the compiler selects the same text from both.
 */
module UnifdefFile {
  import opened Basics
  import opened Preprocessor
  import opened UnifdefMachine
  import E = UnifdefEval
  import M = UnifdefMacros
  import S = UnifdefSimplify

  /** A symbol of the command line; `ignore` comes from `-iD` and `-iU`. */
  datatype Symbol = Symbol(value: E.Value, ignore: bool)

  type Symbols = map<string, Symbol>

  datatype Cond = IfdefCond(name: string) | IfndefCond(name: string) | ExprCond(ts: seq<E.Token>)

  /** `junk`: something else follows the symbol of an `#ifdef`; `dodgy`: the directive spans physical lines. */
  datatype RawLine = RawLine(d: Directive<Cond, string>, junk: bool, dodgy: bool)

  datatype Options = Options(eval: E.Options, iocccok: bool)

  function Values(syms: Symbols): E.Table {
    map s | s in syms :: syms[s].value
  }

  function IfdefType(name: string, negated: bool, junk: bool, syms: Symbols): Base {
    if name == "" || name !in syms || junk then IfUnknown else
    var holds := syms[name].value.Undef? == negated;
    if syms[name].ignore then (if holds then TrueI else FalseI) else (if holds then True else False)
  }

  /** The type the line parser gives to a directive on one line. */
  function BaseType(l: RawLine, syms: Symbols, o: Options): Base
    requires !l.d.Text?
  {
    match l.d
    case If(IfdefCond(name)) => IfdefType(name, false, l.junk, syms)
    case If(IfndefCond(name)) => IfdefType(name, true, l.junk, syms)
    case If(ExprCond(ts)) =>
      var t := E.Verdict(ts, Values(syms), o.eval);
      if t.Unknown? then IfUnknown else if t.v != 0 then True else False
    case Elif(ExprCond(ts)) =>
      var t := E.Verdict(ts, Values(syms), o.eval);
      if t.Unknown? then ElifUnknown else if t.v != 0 then ElTrue else ElFalse
    case Elif(_) => ElifUnknown
    case Else => ElseLine
    case Endif => EndifLine
  }

  function Classify(l: RawLine, syms: Symbols, o: Options): Line<Cond, string> {
    if l.d.Text? then Line(Plain, l.d)
    else Line(if l.dodgy then Dodgy(BaseType(l, syms, o)) else Clean(BaseType(l, syms, o)), l.d)
  }

  function ClassifyAll(file: seq<RawLine>, syms: Symbols, o: Options): seq<Line<Cond, string>> {
    seq(|file|, i requires 0 <= i < |file| => Classify(file[i], syms, o))
  }

  function Lines(file: seq<RawLine>): seq<Directive<Cond, string>> {
    seq(|file|, i requires 0 <= i < |file| => file[i].d)
  }

  function Unifdef(file: seq<RawLine>, syms: Symbols, o: Options): Outcome<Cond, string> {
    Process(ClassifyAll(file, syms, o), o.iocccok)
  }

  /** The definitions in force after the text selected so far, which may hold `#define` and `#undef` lines. */
  type Definitions = seq<string> -> M.Macros

  /** What the compiler makes of a condition. */
  ghost function Truth(defs: Definitions, oracle: seq<E.Token> -> bool): (seq<string>, Cond) -> bool {
    (text: seq<string>, c: Cond) => match c
      case IfdefCond(name) => defs(text).defined(name)
      case IfndefCond(name) => !defs(text).defined(name)
      case ExprCond(ts) => M.Holds(ts, defs(text), oracle)
  }

  /** At every point the symbols of the command line are defined as it says. */
  ghost predicate Follow(defs: Definitions, syms: Symbols) {
    forall text :: M.Follows(defs(text), Values(syms))
  }

  /** The constants on the file's `#if` lines fit the evaluator's `int`. */
  ghost predicate FileFits(file: seq<RawLine>, syms: Symbols) {
    forall l :: l in file && HasExpr(l) ==> E.LineFits(l.d.cond.ts, Values(syms))
  }

  predicate HasExpr(l: RawLine) { (l.d.If? || l.d.Elif?) && l.d.cond.ExprCond? }

  /** Outside of strict mode, no other symbol on these lines stands for a bare `||` expression. */
  ghost predicate LineTexts(l: RawLine, syms: Symbols, o: Options, defs: Definitions) {
    HasExpr(l) && !o.eval.strict ==> forall text :: M.LineTexts(l.d.cond.ts, Values(syms), o.eval, defs(text), 1)
  }

  ghost predicate FileTexts(file: seq<RawLine>, syms: Symbols, o: Options, defs: Definitions) {
    forall l :: l in file ==> LineTexts(l, syms, o, defs)
  }

  lemma ClassifyAgrees(l: RawLine, syms: Symbols, o: Options, defs: Definitions, oracle: seq<E.Token> -> bool)
    requires Follow(defs, syms) && LineTexts(l, syms, o, defs) && (HasExpr(l) ==> E.LineFits(l.d.cond.ts, Values(syms)))
    ensures Agrees(Classify(l, syms, o), Truth(defs, oracle))
  {
    forall text ensures AgreesAfter(Classify(l, syms, o), Truth(defs, oracle), text) {
      AgreesNow(l, syms, o, defs, text, oracle);
    }
  }

  lemma AgreesNow(l: RawLine, syms: Symbols, o: Options, defs: Definitions, text: seq<string>,
                  oracle: seq<E.Token> -> bool)
    requires M.Follows(defs(text), Values(syms)) && LineTexts(l, syms, o, defs)
    requires HasExpr(l) ==> E.LineFits(l.d.cond.ts, Values(syms))
    ensures AgreesAfter(Classify(l, syms, o), Truth(defs, oracle), text)
  {
    if l.d.If? || l.d.Elif? {
      match l.d.cond
      case ExprCond(ts) =>
        M.VerdictSound(ts, Values(syms), o.eval, defs(text), oracle, 1);
      case IfdefCond(name) =>
        assert name != "" && name in syms ==> E.Known(Values(syms), name) && Values(syms)[name] == syms[name].value;
      case IfndefCond(name) =>
        assert name != "" && name in syms ==> E.Known(Values(syms), name) && Values(syms)[name] == syms[name].value;
    }
  }

  lemma AllAgree(file: seq<RawLine>, syms: Symbols, o: Options, defs: Definitions, oracle: seq<E.Token> -> bool)
    requires Follow(defs, syms) && FileFits(file, syms) && FileTexts(file, syms, o, defs)
    ensures forall l :: l in ClassifyAll(file, syms, o) ==> Agrees(l, Truth(defs, oracle))
  {
    var ls := ClassifyAll(file, syms, o);
    forall l | l in ls ensures Agrees(l, Truth(defs, oracle)) {
      var i :| 0 <= i < |ls| && ls[i] == l;
      ClassifyAgrees(file[i], syms, o, defs, oracle);
    }
  }

  /**
   For every file, symbol table and option setting: if `unifdef` finishes, then under all definitions, of which those
   on the command line stay as they are, the compiler selects from the output exactly the text it selects from the
   input, and both nest properly.
   */
  lemma UnifdefPreservesMeaning(file: seq<RawLine>, syms: Symbols, o: Options, defs: Definitions,
                                oracle: seq<E.Token> -> bool)
    requires Follow(defs, syms) && FileFits(file, syms) && FileTexts(file, syms, o, defs)
    ensures var r := Unifdef(file, syms, o);
            && (r.Finished? || r.Failed?)
            && (r.Finished? ==> Select(r.out, Truth(defs, oracle)).Some? &&
                                Select(r.out, Truth(defs, oracle)) == Select(Lines(file), Truth(defs, oracle)))
  {
    var ls := ClassifyAll(file, syms, o);
    AllAgree(file, syms, o, defs, oracle);
    ProcessPreservesMeaning(ls, o.iocccok, Truth(defs, oracle));
    assert Directives(ls) == Lines(file);
  }

  /**
   The same over the grammar of section 6.10.1: if `unifdef` finishes, input and output are groups, and under all such
   definitions both have the same meaning.
   */
  lemma UnifdefPreservesGroups(file: seq<RawLine>, syms: Symbols, o: Options)
    returns (g: Group<Cond, string>, g': Group<Cond, string>)
    requires FileFits(file, syms)
    ensures var r := Unifdef(file, syms, o);
            r.Finished? ==> Flatten(g) == Lines(file) && Flatten(g') == r.out &&
                            forall defs: Definitions, oracle: seq<E.Token> -> bool ::
                              Follow(defs, syms) && FileTexts(file, syms, o, defs) ==>
                                Meaning(g', Truth(defs, oracle), []) == Meaning(g, Truth(defs, oracle), [])
  {
    g, g' := Empty, Empty;
    var r := Unifdef(file, syms, o);
    if r.Finished? {
      var some: seq<E.Token> -> bool := _ => false;
      var m0 := M.SomeMacros(Values(syms));
      var defs0: Definitions := _ => m0;
      SomeTexts(file, syms, o, m0, defs0);
      UnifdefPreservesMeaning(file, syms, o, defs0, some);
      g := SelectReadsGroups(Lines(file), Truth(defs0, some));
      g' := SelectReadsGroups(r.out, Truth(defs0, some));
      forall defs: Definitions, oracle: seq<E.Token> -> bool | Follow(defs, syms) && FileTexts(file, syms, o, defs)
        ensures Meaning(g', Truth(defs, oracle), []) == Meaning(g, Truth(defs, oracle), [])
      {
        UnifdefPreservesMeaning(file, syms, o, defs, oracle);
        SelectIsMeaning(g, Truth(defs, oracle));
        SelectIsMeaning(g', Truth(defs, oracle));
      }
    }
  }

  lemma SomeTexts(file: seq<RawLine>, syms: Symbols, o: Options, m0: M.Macros, defs: Definitions)
    requires m0 == M.SomeMacros(Values(syms)) && forall text :: defs(text) == m0
    ensures Follow(defs, syms) && FileTexts(file, syms, o, defs)
  {
    forall l | l in file ensures LineTexts(l, syms, o, defs) {
      if HasExpr(l) {
        M.UnaryTexts(E.ParseTable(0, l.d.cond.ts, Values(syms)), Values(syms), m0);
      }
    }
  }

  /** Text is ignored in an `#ifdef` or `#ifndef` of a symbol that `-iD` or `-iU` names, and in no other. */
  lemma IgnoredSymbols(l: RawLine, syms: Symbols, o: Options)
    requires l.d.If? && !l.dodgy
    ensures Ignores(Classify(l, syms, o).lt) <==>
            !l.d.cond.ExprCond? && !l.junk && l.d.cond.name != "" && l.d.cond.name in syms && syms[l.d.cond.name].ignore
  {
  }

  // ----- what is removed -----

  /** The condition can be told from the command line. */
  predicate Decided(l: RawLine, syms: Symbols, o: Options) {
    !l.dodgy && S.HasCond(l.d) &&
    match l.d.cond
    case ExprCond(ts) =>
      var p := E.ParseTable(0, ts, Values(syms));
      p.Parsed? && p.rest == [] && E.Settled(p.e, Values(syms)) && (o.eval.killconsts || E.HasName(p.e))
    case IfdefCond(name) => l.d.If? && name != "" && name in syms && !l.junk
    case IfndefCond(name) => l.d.If? && name != "" && name in syms && !l.junk
  }

  lemma DecidedIsTold(l: RawLine, syms: Symbols, o: Options)
    requires Decided(l, syms, o)
    ensures !S.Untold(Classify(l, syms, o))
  {
    if l.d.cond.ExprCond? {
      var p := E.ParseTable(0, l.d.cond.ts, Values(syms));
      E.SettledIsDecided(p.e, Values(syms), o.eval.strict);
    }
  }

  /**
   For every file: if `unifdef` finishes, the file is a group of the grammar, marked line by line with what the
   evaluator knows, and the output is what partial evaluation leaves of it.
   */
  lemma UnifdefSimplifies(file: seq<RawLine>, syms: Symbols, o: Options) returns (g: Group<S.Marked<Cond>, string>)
    requires Unifdef(file, syms, o).Finished?
    ensures Unifdef(file, syms, o).out == Flatten(S.Simplify(g)) && |Flatten(g)| == |file|
    ensures forall i :: 0 <= i < |file| ==> S.LineOf(Flatten(g)[i]) == S.Cleaned(Classify(file[i], syms, o))
  {
    g := S.ProcessSimplifies(ClassifyAll(file, syms, o), o.iocccok);
    forall i | 0 <= i < |file| ensures S.LineOf(Flatten(g)[i]) == S.Cleaned(Classify(file[i], syms, o)) {
      assert S.LinesOf(Flatten(g))[i] == S.AllCleaned(ClassifyAll(file, syms, o))[i];
    }
  }

  /** No condition that can be told is left: each one in the output is that of an input line that is not decided. */
  lemma UnifdefRemovesDecided(file: seq<RawLine>, syms: Symbols, o: Options, d: Directive<Cond, string>)
    returns (i: nat)
    requires Unifdef(file, syms, o).Finished? && d in Unifdef(file, syms, o).out && S.HasCond(d)
    ensures i < |file| && S.HasCond(file[i].d) && file[i].d.cond == d.cond && !Decided(file[i], syms, o)
  {
    var ls := ClassifyAll(file, syms, o);
    var l := S.OnlyUntoldStays(ls, o.iocccok, d);
    i :| 0 <= i < |ls| && ls[i] == l;
    if Decided(file[i], syms, o) {
      DecidedIsTold(file[i], syms, o);
    }
  }

  /** If all conditions can be told, the output is the text that the compiler selects from the input, and no more. */
  lemma UnifdefLeavesText(file: seq<RawLine>, syms: Symbols, o: Options, defs: Definitions,
                          oracle: seq<E.Token> -> bool)
    requires Unifdef(file, syms, o).Finished?
    requires Follow(defs, syms) && FileFits(file, syms) && FileTexts(file, syms, o, defs)
    requires forall i :: 0 <= i < |file| && S.HasCond(file[i].d) ==> Decided(file[i], syms, o)
    ensures var out, text := Unifdef(file, syms, o).out, Select(Lines(file), Truth(defs, oracle));
            text.Some? && |text.value| == |out| && forall i :: 0 <= i < |out| ==> out[i] == Text(text.value[i])
  {
    var ls := ClassifyAll(file, syms, o);
    AllAgree(file, syms, o, defs, oracle);
    forall l | l in ls && S.HasCond(l.d) ensures !S.Untold(l) {
      var i :| 0 <= i < |ls| && ls[i] == l;
      DecidedIsTold(file[i], syms, o);
    }
    S.ToldLeavesText(ls, o.iocccok, Truth(defs, oracle));
    assert Directives(ls) == Lines(file);
  }
}
