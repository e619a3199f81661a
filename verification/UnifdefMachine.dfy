/**
 The `#if` state machine of `unifdef`: the transition table, the transition functions, and the driver loop, over lines
 that are already classified.
 */
module UnifdefMachine {
  import opened Basics
  import opened Preprocessor

  const MAXDEPTH := 64

  datatype Base = TrueI | FalseI | IfUnknown | True | False | ElifUnknown | ElTrue | ElFalse | ElseLine | EndifLine

  predicate IsIf(b: Base) { b.TrueI? || b.FalseI? || b.IfUnknown? || b.True? || b.False? }
  predicate IsElif(b: Base) { b.ElifUnknown? || b.ElTrue? || b.ElFalse? }

  /** `Dodgy` marks a directive that does not stand on one physical line. */
  datatype LineType = Clean(base: Base) | Dodgy(base: Base) | Plain | Eof | Unevaluable

  datatype IfState =
    | Outside
    | FalsePrefix | TruePrefix
    | PassMiddle | FalseMiddle | TrueMiddle
    | PassElse | FalseElse | TrueElse
    | FalseTrailer

  datatype Action =
    | Eelif | Eelse | Eendif | Eeof | Eioccc
    | Print | Drop
    | Strue | Sfalse | Selse
    | Pelif | Pelse | Pendif
    | Dfalse | Delif | Delse | Dendif
    | Fdrop | Fpass | Ftrue | Ffalse
    | Oiffy | Oif | Oelif
    | Idrop | Itrue | Ifalse
    | Mpass | Mtrue | Melif | Melse
    | Done | Abort

  predicate Dropping(s: IfState) {
    s.FalsePrefix? || s.FalseMiddle? || s.FalseElse? || s.FalseTrailer?
  }

  /** A row of the table: the columns of one-line directives, of dodgy ones, and the last three. */
  datatype Cells = Cells(truei: Action, falsei: Action, iff: Action, tru: Action, fals: Action,
                         elif: Action, eltrue: Action, elfalse: Action, els: Action, endif: Action)
  datatype Row = Row(clean: Cells, dodgy: Cells, plain: Action, eof: Action, error: Action)

  /** The transition table, indexed by the state; `Pick` finds the column. */
  function TableRow(s: IfState): Row {
    match s
    case Outside =>
      Row(Cells(Itrue, Ifalse, Fpass, Ftrue, Ffalse, Eelif, Eelif, Eelif, Eelse, Eendif),
          Cells(Oiffy, Oiffy, Fpass, Oif, Oif, Eelif, Eelif, Eelif, Eelse, Eendif),
          Print, Done, Abort)
    case FalsePrefix =>
      Row(Cells(Idrop, Idrop, Fdrop, Fdrop, Fdrop, Mpass, Strue, Sfalse, Selse, Dendif),
          Cells(Idrop, Idrop, Fdrop, Fdrop, Fdrop, Mpass, Eioccc, Eioccc, Eioccc, Eioccc),
          Drop, Eeof, Abort)
    case TruePrefix =>
      Row(Cells(Itrue, Ifalse, Fpass, Ftrue, Ffalse, Dfalse, Dfalse, Dfalse, Delse, Dendif),
          Cells(Oiffy, Oiffy, Fpass, Oif, Oif, Eioccc, Eioccc, Eioccc, Eioccc, Eioccc),
          Print, Eeof, Abort)
    case PassMiddle =>
      Row(Cells(Itrue, Ifalse, Fpass, Ftrue, Ffalse, Pelif, Mtrue, Delif, Pelse, Pendif),
          Cells(Oiffy, Oiffy, Fpass, Oif, Oif, Pelif, Oelif, Oelif, Pelse, Pendif),
          Print, Eeof, Abort)
    case FalseMiddle =>
      Row(Cells(Idrop, Idrop, Fdrop, Fdrop, Fdrop, Pelif, Mtrue, Delif, Pelse, Pendif),
          Cells(Idrop, Idrop, Fdrop, Fdrop, Fdrop, Eioccc, Eioccc, Eioccc, Eioccc, Eioccc),
          Drop, Eeof, Abort)
    case TrueMiddle =>
      Row(Cells(Itrue, Ifalse, Fpass, Ftrue, Ffalse, Melif, Melif, Melif, Melse, Pendif),
          Cells(Oiffy, Oiffy, Fpass, Oif, Oif, Eioccc, Eioccc, Eioccc, Eioccc, Pendif),
          Print, Eeof, Abort)
    case PassElse =>
      Row(Cells(Itrue, Ifalse, Fpass, Ftrue, Ffalse, Eelif, Eelif, Eelif, Eelse, Pendif),
          Cells(Oiffy, Oiffy, Fpass, Oif, Oif, Eelif, Eelif, Eelif, Eelse, Pendif),
          Print, Eeof, Abort)
    case FalseElse =>
      Row(Cells(Idrop, Idrop, Fdrop, Fdrop, Fdrop, Eelif, Eelif, Eelif, Eelse, Dendif),
          Cells(Idrop, Idrop, Fdrop, Fdrop, Fdrop, Eelif, Eelif, Eelif, Eelse, Eioccc),
          Drop, Eeof, Abort)
    case TrueElse =>
      Row(Cells(Itrue, Ifalse, Fpass, Ftrue, Ffalse, Eelif, Eelif, Eelif, Eelse, Dendif),
          Cells(Oiffy, Oiffy, Fpass, Oif, Oif, Eelif, Eelif, Eelif, Eelse, Eioccc),
          Print, Eeof, Abort)
    case FalseTrailer =>
      Row(Cells(Idrop, Idrop, Fdrop, Fdrop, Fdrop, Dfalse, Dfalse, Dfalse, Delse, Dendif),
          Cells(Idrop, Idrop, Fdrop, Fdrop, Fdrop, Dfalse, Dfalse, Dfalse, Delse, Eioccc),
          Drop, Eeof, Abort)
  }

  function Pick(r: Cells, b: Base): Action {
    match b
    case TrueI => r.truei
    case FalseI => r.falsei
    case IfUnknown => r.iff
    case True => r.tru
    case False => r.fals
    case ElifUnknown => r.elif
    case ElTrue => r.eltrue
    case ElFalse => r.elfalse
    case ElseLine => r.els
    case EndifLine => r.endif
  }

  function TransTable(s: IfState, lt: LineType): Action {
    match lt
    case Clean(b) => Pick(TableRow(s).clean, b)
    case Dodgy(b) => Pick(TableRow(s).dodgy, b)
    case Plain => TableRow(s).plain
    case Eof => TableRow(s).eof
    case Unevaluable => TableRow(s).error
  }

  // ----- the machine as a value -----

  datatype Level = Level(state: IfState, ignoring: bool)

  /** Levels 0..depth of the two stacks, and what has been written so far. */
  datatype Machine<+C, +T> = Machine(levels: seq<Level>, out: seq<Directive<C, T>>)

  datatype Failure = BadElif | BadElse | BadEndif | PrematureEof | Obfuscated | TooDeep

  datatype Status<+M, +O> = Running(m: M) | Finished(out: O) | Failed(why: Failure, partial: O) | Aborted

  type Outcome<+C, +T> = Status<Machine<C, T>, seq<Directive<C, T>>>

  predicate Valid<C, T>(m: Machine<C, T>) {
    1 <= |m.levels| <= MAXDEPTH
  }

  function Last(ls: seq<Level>): Level
    requires ls != []
  {
    ls[|ls| - 1]
  }

  function Init(ls: seq<Level>): seq<Level>
    requires ls != []
  {
    ls[..|ls| - 1]
  }

  /** A line, its type, and the directive or text it holds. */
  datatype Line<+C, +T> = Line(lt: LineType, d: Directive<C, T>)


  /** The type of a line and the directive on it are about the same keyword. */
  predicate Classified<C, T>(l: Line<C, T>) {
    match l.lt
    case Plain => l.d.Text?
    case Eof => false
    case Unevaluable => false
    case _ => if IsIf(l.lt.base) then l.d.If? else if IsElif(l.lt.base) then l.d.Elif?
              else if l.lt.base.ElseLine? then l.d.Else? else l.d.Endif?
  }

  /** What a transition function writes: nothing, the line itself, or the line with its keyword edited. */
  datatype Written = Nothing | Same | AsIf | AsElse | AsEndif

  /** What a transition function does to the stacks. `on` raises the ignore flag of a new
      group, `off` resets that of the current group to the flag of the enclosing one. */
  datatype Effect =
    | Keep(w: Written)
    | Nest(s: IfState, on: bool, w: Written)
    | Move(s: IfState, off: bool, w: Written)
    | Unnest(w: Written)
    | Stop
    | Fail(why: Failure)
    | Bug

  function EffectOf(a: Action, iocccok: bool): Effect {
    match a
    case Eelif => Fail(BadElif)
    case Eelse => Fail(BadElse)
    case Eendif => Fail(BadEndif)
    case Eeof => Fail(PrematureEof)
    case Eioccc => Fail(Obfuscated)
    case Print => Keep(Same)
    case Drop => Keep(Nothing)
    case Strue => Move(TruePrefix, true, Nothing)
    case Sfalse => Move(FalsePrefix, true, Nothing)
    case Selse => Move(TrueElse, false, Nothing)
    case Pelif => Move(PassMiddle, true, Same)
    case Pelse => Move(PassElse, false, Same)
    case Pendif => Unnest(Same)
    case Dfalse => Move(FalseTrailer, true, Nothing)
    case Delif => Move(FalseMiddle, true, Nothing)
    case Delse => Move(FalseElse, false, Nothing)
    case Dendif => Unnest(Nothing)
    case Fdrop => Nest(FalseTrailer, false, Nothing)
    case Fpass => Nest(PassMiddle, false, Same)
    case Ftrue => Nest(TruePrefix, false, Nothing)
    case Ffalse => Nest(FalsePrefix, false, Nothing)
    case Oiffy => if iocccok then Nest(PassMiddle, true, Same) else Fail(Obfuscated)
    case Oif => if iocccok then Nest(PassMiddle, false, Same) else Fail(Obfuscated)
    case Oelif => if iocccok then Move(PassMiddle, true, Same) else Fail(Obfuscated)
    case Idrop => Nest(FalseTrailer, true, Nothing)
    case Itrue => Nest(TruePrefix, true, Nothing)
    case Ifalse => Nest(FalsePrefix, true, Nothing)
    case Mpass => Move(PassMiddle, true, AsIf)
    case Mtrue => Move(TrueMiddle, false, AsElse)
    case Melif => Move(FalseTrailer, false, AsEndif)
    case Melse => Move(FalseElse, false, AsEndif)
    case Done => Stop
    case Abort => Bug
  }

  /** The line as it is written, if at all. */
  function Write<C, T>(w: Written, d: Directive<C, T>): seq<Directive<C, T>> {
    match w
    case Nothing => []
    case Same => [d]
    case AsIf => if d.If? || d.Elif? then [If(d.cond)] else [d]
    case AsElse => [Else]
    case AsEndif => [Endif]
  }

  function Perform<C, T>(m: Machine<C, T>, e: Effect, d: Directive<C, T>): Outcome<C, T>
    requires m.levels != []
  {
    var n := |m.levels| - 1;
    match e
    case Keep(w) => Running(Machine(m.levels, m.out + Write(w, d)))
    case Nest(s, on, w) =>
      if |m.levels| == MAXDEPTH then Failed(TooDeep, m.out)
      else Running(Machine(m.levels + [Level(s, on || m.levels[n].ignoring)], m.out + Write(w, d)))
    case Move(s, off, w) =>
      if off && n == 0 then Aborted
      else Running(Machine(Init(m.levels) + [Level(s, if off then m.levels[n - 1].ignoring else m.levels[n].ignoring)],
                           m.out + Write(w, d)))
    case Unnest(w) =>
      if n == 0 then Aborted else Running(Machine(Init(m.levels), m.out + Write(w, d)))
    case Stop => Finished(m.out)
    case Fail(why) => Failed(why, m.out)
    case Bug => Aborted
  }

  function StepLine<C, T>(m: Machine<C, T>, l: Line<C, T>, iocccok: bool): Outcome<C, T>
    requires m.levels != []
  {
    Perform(m, EffectOf(TransTable(Last(m.levels).state, l.lt), iocccok), l.d)
  }

  function Start<C, T>(): Machine<C, T> { Machine([Level(Outside, false)], []) }

  /** The machine after the given lines, with the end of the file still to come. */
  function After<C, T>(ls: seq<Line<C, T>>, iocccok: bool): Outcome<C, T> {
    if ls == [] then Running(Start()) else
    var r := After(ls[..|ls| - 1], iocccok);
    if r.Running? && r.m.levels != [] then StepLine(r.m, ls[|ls| - 1], iocccok) else r
  }

  function Process<C, T>(ls: seq<Line<C, T>>, iocccok: bool): Outcome<C, T> {
    var r := After(ls, iocccok);
    if r.Running? && r.m.levels != [] then
      if Last(r.m.levels).state.Outside? then Finished(r.m.out) else Failed(PrematureEof, r.m.out)
    else r
  }

  function Directives<C, T>(ls: seq<Line<C, T>>): seq<Directive<C, T>> {
    seq(|ls|, i requires 0 <= i < |ls| => ls[i].d)
  }

  lemma DirectivesSnoc<C, T>(ls: seq<Line<C, T>>)
    requires ls != []
    ensures Directives(ls) == Directives(ls[..|ls| - 1]) + [ls[|ls| - 1].d]
  {
  }

  /** The classification of a line agrees with what its condition evaluates to. */
  ghost predicate Agrees<C, T(!new)>(l: Line<C, T>, truth: (seq<T>, C) -> bool) {
    forall text: seq<T> :: AgreesAfter(l, truth, text)
  }

  predicate AgreesAfter<C, T>(l: Line<C, T>, truth: (seq<T>, C) -> bool, text: seq<T>) {
    Classified(l) &&
    ((l.lt.Clean? || l.lt.Dodgy?) && (l.d.If? || l.d.Elif?) ==>
       && (l.lt.base.TrueI? || l.lt.base.True? || l.lt.base.ElTrue? ==> truth(text, l.d.cond))
       && (l.lt.base.FalseI? || l.lt.base.False? || l.lt.base.ElFalse? ==> !truth(text, l.d.cond)))
  }

  // ----- the simulation -----

  /** The state of a group whose opening line has been written to the output. */
  predicate Kept(s: IfState) {
    s.PassMiddle? || s.FalseMiddle? || s.TrueMiddle? || s.PassElse?
  }

  /** A group that has no counterpart in the output, against its frame in the input. */
  predicate GoneRel(s: IfState, f: Frame) {
    match s
    case FalsePrefix => !f.taken && !f.active && !f.sawElse
    case TruePrefix => f.taken && f.active == f.outer && !f.sawElse
    case FalseElse => !f.active && f.sawElse
    case TrueElse => f.active == f.outer && f.sawElse
    case FalseTrailer => !f.active && !f.sawElse && (f.taken || !f.outer)
    case _ => false
  }

  /** A group with a counterpart: its frame `f` in the input and `g` in the output. */
  predicate KeptRel(s: IfState, f: Frame, g: Frame) {
    match s
    case PassMiddle => f.taken == g.taken && f.active == g.active && !f.sawElse && !g.sawElse
    case FalseMiddle => f.taken == g.taken && !f.active && !f.sawElse && !g.sawElse
    case TrueMiddle => f.taken && f.active == g.active && !f.sawElse && g.sawElse
    case PassElse => f.active == g.active && f.sawElse && g.sawElse
    case _ => false
  }

  /** The levels of the machine against the open conditionals of the input and of the output. */
  predicate Rel(ls: seq<Level>, ins: seq<Frame>, outs: seq<Frame>)
    decreases |ls|
  {
    |ls| == |ins| + 1 &&
    if ins == [] then ls[0].state.Outside? && outs == []
    else
      var s, ls', f, ins' := Last(ls).state, Init(ls), Top(ins), Pop(ins);
      f.outer == Active(ins') &&
      if Kept(s) then
        outs != [] && Rel(ls', ins', Pop(outs)) && !Dropping(Last(ls').state) &&
        Top(outs).outer == Active(Pop(outs)) && KeptRel(s, f, Top(outs))
      else
        Rel(ls', ins', outs) && GoneRel(s, f) &&
        (Dropping(Last(ls').state) ==> s.FalseTrailer? || s.FalseElse?)
  }

  /** Where the machine prints, input and output are selected alike; where it drops, the input is not selected. */
  lemma RelActive(ls: seq<Level>, ins: seq<Frame>, outs: seq<Frame>)
    requires Rel(ls, ins, outs)
    ensures !Dropping(Last(ls).state) ==> Active(ins) == Active(outs)
    ensures Dropping(Last(ls).state) ==> !Active(ins)
    decreases |ls|
  {
    if ins != [] {
      RelActive(Init(ls), Pop(ins), if Kept(Last(ls).state) then Pop(outs) else outs);
    }
  }

  // The three facts about the table that the simulation rests on.  They speak of one
  // group only: its state, its frame `f` in the input and, if it has one, `g` in the output.

  /** How the output frame of a group changes when the line is written as `w`. */
  function NextFrame(w: Written, g: Frame, isElif: bool, holds: bool): Frame {
    match w
    case Same => if isElif then ElifFrame(g, holds) else ElseFrame(g)
    case AsElse => ElseFrame(g)
    case _ => g
  }

  /** Every row starts in one of two ways, according to whether the state drops its lines. */
  lemma IfCells(s: IfState)
    ensures forall lt: LineType :: (lt.Clean? || lt.Dodgy?) && IsIf(lt.base) ==>
              TransTable(s, lt) == IfCell(Dropping(s), lt)
  {
    match s
    case Outside => case FalsePrefix => case TruePrefix => case PassMiddle => case FalseMiddle =>
    case TrueMiddle => case PassElse => case FalseElse => case TrueElse => case FalseTrailer =>
  }

  function IfCell(dropping: bool, lt: LineType): Action
    requires (lt.Clean? || lt.Dodgy?) && IsIf(lt.base)
  {
    if dropping then (if lt.base.TrueI? || lt.base.FalseI? then Idrop else Fdrop)
    else if lt.base.IfUnknown? then Fpass
    else if lt.Dodgy? then (if lt.base.TrueI? || lt.base.FalseI? then Oiffy else Oif)
    else if lt.base.TrueI? then Itrue else if lt.base.FalseI? then Ifalse
    else if lt.base.True? then Ftrue else Ffalse
  }

  lemma IfActions(a: Action, dropping: bool, lt: LineType, iocccok: bool, holds: bool)
    requires (lt.Clean? || lt.Dodgy?) && IsIf(lt.base) && a == IfCell(dropping, lt)
    requires (lt.base.TrueI? || lt.base.True? ==> holds) && (lt.base.FalseI? || lt.base.False? ==> !holds)
    ensures var e := EffectOf(a, iocccok);
            (e.Fail? && lt.Dodgy?) || (e.Nest? &&
              if dropping then e.s.FalseTrailer? && e.w.Nothing?
              else if lt.base.IfUnknown? || lt.Dodgy? then e.s.PassMiddle? && e.w.Same?
              else e.w.Nothing? && (if holds then e.s.TruePrefix? else e.s.FalsePrefix?))
    ensures var e := EffectOf(a, iocccok); e.Nest? ==> (e.on <==> lt.base.TrueI? || lt.base.FalseI?)
    ensures EffectOf(a, iocccok).Fail? <==> lt.Dodgy? && !lt.base.IfUnknown? && !dropping && !iocccok
  {
  }

  lemma IfColumns(s: IfState, lt: LineType, iocccok: bool, holds: bool)
    requires (lt.Clean? || lt.Dodgy?) && IsIf(lt.base)
    requires (lt.base.TrueI? || lt.base.True? ==> holds) && (lt.base.FalseI? || lt.base.False? ==> !holds)
    ensures var e := EffectOf(TransTable(s, lt), iocccok);
            (e.Fail? && lt.Dodgy?) || (e.Nest? &&
              if Dropping(s) then e.s.FalseTrailer? && e.w.Nothing?
              else if lt.base.IfUnknown? || lt.Dodgy? then e.s.PassMiddle? && e.w.Same?
              else e.w.Nothing? && (if holds then e.s.TruePrefix? else e.s.FalsePrefix?))
    ensures var e := EffectOf(TransTable(s, lt), iocccok); e.Nest? ==> (e.on <==> lt.base.TrueI? || lt.base.FalseI?)
    ensures EffectOf(TransTable(s, lt), iocccok).Fail? <==> lt.Dodgy? && !lt.base.IfUnknown? && !Dropping(s) && !iocccok
  {
    IfCells(s);
    IfActions(TransTable(s, lt), Dropping(s), lt, iocccok, holds);
  }

  /** `#elif` and `#else` in a group without counterpart: it gets one, or stays without. */
  lemma GoneColumns(s: IfState, lt: LineType, iocccok: bool, holds: bool, f: Frame)
    requires (lt.Clean? || lt.Dodgy?) && (IsElif(lt.base) || lt.base.ElseLine?)
    requires (lt.base.ElTrue? ==> holds) && (lt.base.ElFalse? ==> !holds)
    requires GoneRel(s, f)
    ensures var e := EffectOf(TransTable(s, lt), iocccok);
            var f' := BranchFrame(f, IsElif(lt.base), holds);
            e.Fail? || (e.Move? && !f.sawElse &&
              if e.w.AsIf? then IsElif(lt.base) && e.s.PassMiddle? && s.FalsePrefix?
              else e.w.Nothing? && GoneRel(e.s, f') && (s.FalseTrailer? ==> e.s.FalseTrailer? || e.s.FalseElse?))
  {
    match s
    case FalsePrefix => case TruePrefix => case FalseElse => case TrueElse => case FalseTrailer =>
  }

  /** Where lines pass as they are. */
  lemma PassColumns(lt: LineType, iocccok: bool, holds: bool, f: Frame, g: Frame)
    requires (lt.Clean? || lt.Dodgy?) && (IsElif(lt.base) || lt.base.ElseLine?)
    requires (lt.base.ElTrue? ==> holds) && (lt.base.ElFalse? ==> !holds)
    requires KeptRel(PassMiddle, f, g) && f.outer == g.outer
    ensures KeptNext(EffectOf(TransTable(PassMiddle, lt), iocccok), BranchFrame(f, IsElif(lt.base), holds), f, g,
                     IsElif(lt.base), holds)
    ensures EffectOf(TransTable(PassMiddle, lt), iocccok).Fail? <==>
            lt.Dodgy? && (lt.base.ElTrue? || lt.base.ElFalse?) && !iocccok
  {
  }

  /** After an `#else` that passed, there can be no other. */
  lemma PassElseColumns(lt: LineType, iocccok: bool)
    requires (lt.Clean? || lt.Dodgy?) && (IsElif(lt.base) || lt.base.ElseLine?)
    ensures EffectOf(TransTable(PassElse, lt), iocccok).Fail?
  {
  }

  /** Where a condition is known. */
  lemma MiddleColumns(s: IfState, lt: LineType, iocccok: bool, holds: bool, f: Frame, g: Frame)
    requires (lt.Clean? || lt.Dodgy?) && (IsElif(lt.base) || lt.base.ElseLine?) && !s.PassMiddle? && !s.PassElse?
    requires (lt.base.ElTrue? ==> holds) && (lt.base.ElFalse? ==> !holds)
    requires KeptRel(s, f, g) && f.outer == g.outer
    ensures KeptNext(EffectOf(TransTable(s, lt), iocccok), BranchFrame(f, IsElif(lt.base), holds), f, g,
                     IsElif(lt.base), holds)
  {
    match (s, lt.base)
    case (FalseMiddle, ElTrue) => case (FalseMiddle, ElFalse) => case (FalseMiddle, _) =>
    case (TrueMiddle, _) =>
  }

  /** The group keeps its counterpart `g`, or closes it. */
  predicate KeptNext(e: Effect, f': Frame, f: Frame, g: Frame, isElif: bool, holds: bool) {
    e.Fail? || (e.Move? && !f.sawElse &&
      if e.w.AsEndif? then GoneRel(e.s, f')
      else (e.w.Nothing? || !g.sawElse) && !e.w.AsIf? && KeptRel(e.s, f', NextFrame(e.w, g, isElif, holds)))
  }

  /** `#elif` and `#else` in a group with a counterpart: it keeps it, or closes it. */
  lemma KeptColumns(s: IfState, lt: LineType, iocccok: bool, holds: bool, f: Frame, g: Frame)
    requires (lt.Clean? || lt.Dodgy?) && (IsElif(lt.base) || lt.base.ElseLine?)
    requires (lt.base.ElTrue? ==> holds) && (lt.base.ElFalse? ==> !holds)
    requires KeptRel(s, f, g) && f.outer == g.outer
    ensures KeptNext(EffectOf(TransTable(s, lt), iocccok), BranchFrame(f, IsElif(lt.base), holds), f, g,
                     IsElif(lt.base), holds)
  {
    if s.PassMiddle? {
      PassColumns(lt, iocccok, holds, f, g);
    } else if s.PassElse? {
      PassElseColumns(lt, iocccok);
    } else {
      MiddleColumns(s, lt, iocccok, holds, f, g);
    }
  }

  lemma PlainColumn(s: IfState, iocccok: bool)
    ensures EffectOf(TransTable(s, Plain), iocccok) == Keep(if Dropping(s) then Nothing else Same)
  {
    match s
    case Outside => case FalsePrefix => case TruePrefix => case PassMiddle => case FalseMiddle =>
    case TrueMiddle => case PassElse => case FalseElse => case TrueElse => case FalseTrailer =>
  }

  /** Outside every conditional, `#elif` and `#else` are refused. */
  lemma OutsideColumns(lt: LineType, iocccok: bool)
    requires (lt.Clean? || lt.Dodgy?) && (IsElif(lt.base) || lt.base.ElseLine?)
    ensures EffectOf(TransTable(Outside, lt), iocccok).Fail?
  {
  }

  lemma EndifColumns(s: IfState, lt: LineType, iocccok: bool)
    requires (lt.Clean? || lt.Dodgy?) && lt.base.EndifLine?
    ensures var e := EffectOf(TransTable(s, lt), iocccok);
            e.Fail? || (e.Unnest? && !s.Outside? && e.w == if Kept(s) then Same else Nothing)
  {
    match s
    case Outside => case FalsePrefix => case TruePrefix => case PassMiddle => case FalseMiddle =>
    case TrueMiddle => case PassElse => case FalseElse => case TrueElse => case FalseTrailer =>
  }

  /** Opening a group keeps the relation. */
  lemma NestRel(ls: seq<Level>, l: Level, ins: seq<Frame>, outs: seq<Frame>, holds: bool)
    requires Rel(ls, ins, outs)
    requires if Dropping(Last(ls).state) then l.state.FalseTrailer?
             else l.state.PassMiddle? || (if holds then l.state.TruePrefix? else l.state.FalsePrefix?)
    ensures var f := Frame(Active(ins), holds, Active(ins) && holds, false);
            var g := Frame(Active(outs), holds, Active(outs) && holds, false);
            Rel(ls + [l], ins + [f], if Kept(l.state) then outs + [g] else outs)
  {
    RelActive(ls, ins, outs);
    var f := Frame(Active(ins), holds, Active(ins) && holds, false);
    var g := Frame(Active(outs), holds, Active(outs) && holds, false);
    PushTop(ins, f);
    PushTop(outs, g);
    PushLevel(ls, l);
  }

  lemma PushLevel(ls: seq<Level>, l: Level)
    ensures Last(ls + [l]) == l && Init(ls + [l]) == ls
  {
  }

  lemma GoneRelTop(ls: seq<Level>, l: Level, ins: seq<Frame>, f: Frame, outs: seq<Frame>)
    requires ls != [] && Rel(ls, ins, outs) && GoneRel(l.state, f) && f.outer == Active(ins)
    requires Dropping(Last(ls).state) ==> l.state.FalseTrailer? || l.state.FalseElse?
    ensures Rel(ls + [l], ins + [f], outs)
  {
    PushTop(ins, f);
    PushLevel(ls, l);
  }

  lemma KeptRelTop(ls: seq<Level>, l: Level, ins: seq<Frame>, f: Frame, outs: seq<Frame>, g: Frame)
    requires ls != [] && Rel(ls, ins, outs) && KeptRel(l.state, f, g)
    requires f.outer == Active(ins) && g.outer == Active(outs) && !Dropping(Last(ls).state)
    ensures Rel(ls + [l], ins + [f], outs + [g])
  {
    PushTop(ins, f);
    PushTop(outs, g);
    PushLevel(ls, l);
  }

  /** Machine, input preprocessor and output preprocessor are in step. */
  ghost predicate InStep<C(!new), T(!new)>(m: Machine<C, T>, cin: Cpp<T>, truth: (seq<T>, C) -> bool) {
    Valid(m) && Run(m.out, truth).Some? &&
    var cout := Run(m.out, truth).value;
    Rel(m.levels, cin.frames, cout.frames) && cin.text == cout.text
  }

  lemma InStepIntro<C(!new), T(!new)>(m: Machine<C, T>, cin: Cpp<T>, cout: Cpp<T>, truth: (seq<T>, C) -> bool)
    requires Valid(m) && Run(m.out, truth) == Some(cout)
    requires Rel(m.levels, cin.frames, cout.frames) && cin.text == cout.text
    ensures InStep(m, cin, truth)
  {
  }

  /** After effect `e` on a line `d`: stopped with an error, or still in step. */
  ghost predicate StepOk<C(!new), T(!new)>(m: Machine<C, T>, e: Effect, d: Directive<C, T>, cin: Cpp<T>,
                           truth: (seq<T>, C) -> bool)
    requires m.levels != []
  {
    var r, cin' := Perform(m, e, d), Step(cin, d, truth);
    r.Failed? || (r.Running? && cin'.Some? && InStep(r.m, cin'.value, truth))
  }

  lemma RunWrite<C, T>(out: seq<Directive<C, T>>, w: Written, d: Directive<C, T>, truth: (seq<T>, C) -> bool)
    requires Run(out, truth).Some?
    ensures Run(out + Write(w, d), truth) ==
            if w.Nothing? then Run(out, truth) else Step(Run(out, truth).value, Write(w, d)[0], truth)
  {
    if w.Nothing? {
      assert out + Write(w, d) == out;
    } else {
      RunSnoc(out, Write(w, d)[0], truth);
    }
  }

  lemma PlainStep<C(!new), T(!new)>(m: Machine<C, T>, e: Effect, d: Directive<C, T>, cin: Cpp<T>,
                                    truth: (seq<T>, C) -> bool)
    requires InStep(m, cin, truth) && d.Text?
    requires e == Keep(if Dropping(Last(m.levels).state) then Nothing else Same)
    ensures StepOk(m, e, d, cin, truth)
  {
    RelActive(m.levels, cin.frames, Run(m.out, truth).value.frames);
    RunWrite(m.out, e.w, d, truth);
  }

  lemma NestStep<C(!new), T(!new)>(m: Machine<C, T>, e: Effect, d: Directive<C, T>, cin: Cpp<T>,
                                   truth: (seq<T>, C) -> bool)
    requires InStep(m, cin, truth) && d.If? && e.Nest?
    requires if Dropping(Last(m.levels).state) then e.s.FalseTrailer? && e.w.Nothing?
             else if e.s.PassMiddle? then e.w.Same?
             else e.w.Nothing? && (if truth(cin.text, d.cond) then e.s.TruePrefix? else e.s.FalsePrefix?)
    ensures StepOk(m, e, d, cin, truth)
  {
    if |m.levels| < MAXDEPTH {
      var cout := Run(m.out, truth).value;
      var l := Level(e.s, e.on || Last(m.levels).ignoring);
      NestRel(m.levels, l, cin.frames, cout.frames, truth(cin.text, d.cond));
      RunWrite(m.out, e.w, d, truth);
      var m' := Machine(m.levels + [l], m.out + Write(e.w, d));
      assert Perform(m, e, d) == Running(m');
      InStepIntro(m', Step(cin, d, truth).value, if e.w.Nothing? then cout else Step(cout, d, truth).value, truth);
    }
  }

  /** Whether the line opens its group; `#else` counts as a condition that holds. */
  predicate Holds<C, T>(d: Directive<C, T>, truth: (seq<T>, C) -> bool, text: seq<T>) {
    (d.If? || d.Elif?) ==> truth(text, d.cond)
  }

  function BranchFrame(f: Frame, isElif: bool, holds: bool): Frame {
    if isElif then ElifFrame(f, holds) else ElseFrame(f)
  }

  lemma GoneStep<C(!new), T(!new)>(m: Machine<C, T>, e: Effect, d: Directive<C, T>, cin: Cpp<T>,
                                   truth: (seq<T>, C) -> bool)
    requires InStep(m, cin, truth) && (d.Elif? || d.Else?) && e.Move?
    requires cin.frames != [] && !Kept(Last(m.levels).state) && !Top(cin.frames).sawElse
    requires if e.w.AsIf? then d.Elif? && e.s.PassMiddle? && Last(m.levels).state.FalsePrefix?
             else (e.w.Nothing? && GoneRel(e.s, BranchFrame(Top(cin.frames), d.Elif?, Holds(d, truth, cin.text)))
                   && (Last(m.levels).state.FalseTrailer? ==> e.s.FalseTrailer? || e.s.FalseElse?))
    ensures StepOk(m, e, d, cin, truth)
  {
    RunWrite(m.out, e.w, d, truth);
    var cout, f' := Run(m.out, truth).value, BranchFrame(Top(cin.frames), d.Elif?, Holds(d, truth, cin.text));
    var ls, ins := Init(m.levels), Pop(cin.frames);
    var top := Level(e.s, if e.off then Last(ls).ignoring else Last(m.levels).ignoring);
    var m' := Machine(ls + [top], m.out + Write(e.w, d));
    assert Perform(m, e, d) == Running(m');
    assert Step(cin, d, truth) == Some(Cpp(ins + [f'], cin.text));
    if e.w.AsIf? {
      NestRel(ls, top, ins, cout.frames, truth(cin.text, d.cond));
      InStepIntro(m', Cpp(ins + [f'], cin.text), Step(cout, If(d.cond), truth).value, truth);
    } else {
      GoneRelTop(ls, top, ins, f', cout.frames);
      InStepIntro(m', Cpp(ins + [f'], cin.text), cout, truth);
    }
  }

  /** The relation after a branch line of a kept group. */
  lemma KeptRelNext(ls: seq<Level>, l: Level, ins: seq<Frame>, outs: seq<Frame>, w: Written, isElif: bool, holds: bool,
                    f': Frame, outs': seq<Frame>)
    requires Rel(ls, ins, outs) && ins != [] && Kept(Last(ls).state) && !w.AsIf?
    requires f' == BranchFrame(Top(ins), isElif, holds)
    requires outs' == if w.AsEndif? then Pop(outs) else Pop(outs) + [NextFrame(w, Top(outs), isElif, holds)]
    requires if w.AsEndif? then GoneRel(l.state, f') else KeptRel(l.state, f', NextFrame(w, Top(outs), isElif, holds))
    ensures Rel(Init(ls) + [l], Pop(ins) + [f'], outs')
  {
    if w.AsEndif? {
      GoneRelTop(Init(ls), l, Pop(ins), f', Pop(outs));
    } else {
      KeptRelTop(Init(ls), l, Pop(ins), f', Pop(outs), NextFrame(w, Top(outs), isElif, holds));
    }
  }

  lemma KeptStep<C(!new), T(!new)>(m: Machine<C, T>, e: Effect, d: Directive<C, T>, cin: Cpp<T>,
                                   truth: (seq<T>, C) -> bool)
    requires InStep(m, cin, truth) && (d.Elif? || d.Else?) && e.Move?
    requires cin.frames != [] && Kept(Last(m.levels).state) && !Top(cin.frames).sawElse
    requires var f, g := Top(cin.frames), Top(Run(m.out, truth).value.frames);
             var f' := BranchFrame(f, d.Elif?, Holds(d, truth, cin.text));
             if e.w.AsEndif? then GoneRel(e.s, f')
             else (e.w.Nothing? || !g.sawElse) && !e.w.AsIf? &&
                  KeptRel(e.s, f', NextFrame(e.w, g, d.Elif?, Holds(d, truth, cin.text)))
    ensures StepOk(m, e, d, cin, truth)
  {
    var cout := Run(m.out, truth).value;
    var f', g := BranchFrame(Top(cin.frames), d.Elif?, Holds(d, truth, cin.text)), Top(cout.frames);
    var ls, ins, outs := Init(m.levels), Pop(cin.frames), Pop(cout.frames);
    var top := Level(e.s, if e.off then Last(ls).ignoring else Last(m.levels).ignoring);
    var m' := Machine(ls + [top], m.out + Write(e.w, d));
    KeptWrite(m.out, e.w, d, cout, truth);
    assert Perform(m, e, d) == Running(m');
    assert Step(cin, d, truth) == Some(Cpp(ins + [f'], cin.text));
    var outs' := if e.w.AsEndif? then outs else outs + [NextFrame(e.w, g, d.Elif?, Holds(d, truth, cin.text))];
    KeptRelNext(m.levels, top, cin.frames, cout.frames, e.w, d.Elif?, Holds(d, truth, cin.text), f', outs');
    InStepIntro(m', Cpp(ins + [f'], cin.text), Cpp(outs', cout.text), truth);
  }

  /** What writing a branch line of a kept group does to the output's own conditionals. */
  lemma KeptWrite<C, T>(out: seq<Directive<C, T>>, w: Written, d: Directive<C, T>, cout: Cpp<T>,
                        truth: (seq<T>, C) -> bool)
    requires Run(out, truth) == Some(cout) && cout.frames != [] && (d.Elif? || d.Else?)
    requires !w.AsIf? && (w.Nothing? || w.AsEndif? || !Top(cout.frames).sawElse)
    ensures Run(out + Write(w, d), truth) ==
            Some(Cpp(if w.AsEndif? then Pop(cout.frames)
                     else Pop(cout.frames) + [NextFrame(w, Top(cout.frames), d.Elif?, Holds(d, truth, cout.text))],
                          cout.text))
  {
    RunWrite(out, w, d, truth);
    assert Pop(cout.frames) + [Top(cout.frames)] == cout.frames;
  }

  lemma UnnestStep<C(!new), T(!new)>(m: Machine<C, T>, e: Effect, d: Directive<C, T>, cin: Cpp<T>,
                                     truth: (seq<T>, C) -> bool)
    requires InStep(m, cin, truth) && d.Endif? && !Last(m.levels).state.Outside?
    requires e == Unnest(if Kept(Last(m.levels).state) then Same else Nothing)
    ensures StepOk(m, e, d, cin, truth)
  {
    RunWrite(m.out, e.w, d, truth);
  }

  lemma BranchStep<C(!new), T(!new)>(m: Machine<C, T>, l: Line<C, T>, iocccok: bool, cin: Cpp<T>,
                                     truth: (seq<T>, C) -> bool)
    requires InStep(m, cin, truth) && AgreesAfter(l, truth, cin.text) && (l.d.Elif? || l.d.Else?) && cin.frames != []
    ensures StepOk(m, EffectOf(TransTable(Last(m.levels).state, l.lt), iocccok), l.d, cin, truth)
  {
    var s := Last(m.levels).state;
    var e := EffectOf(TransTable(s, l.lt), iocccok);
    var f, outs := Top(cin.frames), Run(m.out, truth).value.frames;
    if Kept(s) {
      RelActive(Init(m.levels), Pop(cin.frames), Pop(outs));
      KeptColumns(s, l.lt, iocccok, Holds(l.d, truth, cin.text), f, Top(outs));
      if e.Move? {
        KeptStep(m, e, l.d, cin, truth);
      }
    } else {
      GoneColumns(s, l.lt, iocccok, Holds(l.d, truth, cin.text), f);
      if e.Move? {
        GoneStep(m, e, l.d, cin, truth);
      }
    }
  }

  /** One line, whatever the state and the line: both preprocessors stay in step with the machine. */
  lemma StepInStep<C(!new), T(!new)>(m: Machine<C, T>, l: Line<C, T>, iocccok: bool, cin: Cpp<T>,
                                     truth: (seq<T>, C) -> bool)
    requires InStep(m, cin, truth) && AgreesAfter(l, truth, cin.text)
    ensures StepOk(m, EffectOf(TransTable(Last(m.levels).state, l.lt), iocccok), l.d, cin, truth)
  {
    var s := Last(m.levels).state;
    var e := EffectOf(TransTable(s, l.lt), iocccok);
    match l.d
    case Text(_) =>
      PlainColumn(s, iocccok);
      PlainStep(m, e, l.d, cin, truth);
    case If(_) =>
      IfColumns(s, l.lt, iocccok, truth(cin.text, l.d.cond));
      if e.Nest? {
        NestStep(m, e, l.d, cin, truth);
      }
    case Endif =>
      EndifColumns(s, l.lt, iocccok);
      if e.Unnest? {
        UnnestStep(m, e, l.d, cin, truth);
      }
    case _ =>
      if cin.frames == [] {
        OutsideColumns(l.lt, iocccok);
      } else {
        BranchStep(m, l, iocccok, cin, truth);
      }
  }

  lemma {:induction false} AfterInStep<C(!new), T(!new)>(ls: seq<Line<C, T>>, iocccok: bool, truth: (seq<T>, C) -> bool)
    requires forall l :: l in ls ==> Agrees(l, truth)
    ensures var r, cin := After(ls, iocccok), Run(Directives(ls), truth);
            r.Failed? || (r.Running? && cin.Some? && InStep(r.m, cin.value, truth))
  {
    if ls != [] {
      var n := |ls| - 1;
      AfterInStep(ls[..n], iocccok, truth);
      DirectivesSnoc(ls);
      RunSnoc(Directives(ls[..n]), ls[n].d, truth);
      var r, cin := After(ls[..n], iocccok), Run(Directives(ls[..n]), truth);
      if r.Running? {
        assert Agrees(ls[n], truth) && AgreesAfter(ls[n], truth, cin.value.text);
        StepInStep(r.m, ls[n], iocccok, cin.value, truth);
      }
    }
  }

  /**
   For every sequence of classified lines and every truth assignment that agrees with
   the classification: when `unifdef` finishes, its output nests properly and selects
   exactly the text that its input selects.  It never aborts.
   */
  lemma ProcessPreservesMeaning<C(!new), T(!new)>(ls: seq<Line<C, T>>, iocccok: bool, truth: (seq<T>, C) -> bool)
    requires forall l :: l in ls ==> Agrees(l, truth)
    ensures var r := Process(ls, iocccok);
            && (r.Failed? || r.Finished?)
            && (r.Finished? ==> Select(r.out, truth).Some? && Select(r.out, truth) == Select(Directives(ls), truth))
  {
    AfterInStep(ls, iocccok, truth);
  }

  // ----- when does the machine finish? -----

  /** Every prefix of the file nests, with at most `bound` conditionals open. */
  predicate NestsWithin<C, T>(ds: seq<Directive<C, T>>, bound: nat, truth: (seq<T>, C) -> bool) {
    ds == [] ||
    (NestsWithin(ds[..|ds| - 1], bound, truth) &&
     Run(ds, truth).Some? && |Run(ds, truth).value.frames| <= bound)
  }

  predicate ElseState(s: IfState) { s.PassElse? || s.FalseElse? || s.TrueElse? }

  /** The `#else` marks of the open conditionals, which is all that nesting depends on. */
  predicate Shape(ls: seq<Level>, fs: seq<Frame>)
    decreases |ls|
  {
    |ls| == |fs| + 1 &&
    if fs == [] then ls[0].state.Outside?
    else Shape(Init(ls), Pop(fs)) && !Last(ls).state.Outside? && Top(fs).sawElse == ElseState(Last(ls).state)
  }

  /** The columns of directives on one line: refused exactly where the nesting forbids them. */
  lemma CleanColumns(s: IfState, b: Base, iocccok: bool)
    ensures var e := EffectOf(TransTable(s, Clean(b)), iocccok);
            if IsIf(b) then e.Nest? && !e.s.Outside? && !ElseState(e.s)
            else if s.Outside? then e.Fail?
            else if b.EndifLine? then e.Unnest?
            else if ElseState(s) then e.Fail?
            else e.Move? && !e.s.Outside? && ElseState(e.s) == b.ElseLine?
  {
    if IsIf(b) {
      IfColumns(s, Clean(b), iocccok, b.TrueI? || b.True?);
    } else {
      match s
      case Outside => case FalsePrefix => case TruePrefix => case PassMiddle => case FalseMiddle =>
      case TrueMiddle => case PassElse => case FalseElse => case TrueElse => case FalseTrailer =>
    }
  }

  lemma ShapePush(ls: seq<Level>, l: Level, fs: seq<Frame>, f: Frame)
    requires Shape(ls, fs) && !l.state.Outside? && f.sawElse == ElseState(l.state)
    ensures Shape(ls + [l], fs + [f])
  {
    PushLevel(ls, l);
    PushTop(fs, f);
  }

  lemma ShapeStep<C, T>(m: Machine<C, T>, l: Line<C, T>, iocccok: bool, c: Cpp<T>, truth: (seq<T>, C) -> bool)
    requires Shape(m.levels, c.frames) && Classified(l) && !l.lt.Dodgy? && |m.levels| <= MAXDEPTH
    ensures var r, c' := StepLine(m, l, iocccok), Step(c, l.d, truth);
            if c'.None? || |c'.value.frames| == MAXDEPTH then r.Failed?
            else r.Running? && |r.m.levels| <= MAXDEPTH && Shape(r.m.levels, c'.value.frames)
  {
    var s := Last(m.levels).state;
    var r, c' := StepLine(m, l, iocccok), Step(c, l.d, truth);
    if l.lt.Plain? {
      PlainColumn(s, iocccok);
    } else {
      CleanColumns(s, l.lt.base, iocccok);
      if r.Running? && (l.d.If? || l.d.Elif? || l.d.Else?) {
        ShapePush(if l.d.If? then m.levels else Init(m.levels), Last(r.m.levels),
                  if l.d.If? then c.frames else Pop(c.frames), Top(c'.value.frames));
      }
    }
  }

  lemma {:induction false} AfterShape<C, T>(ls: seq<Line<C, T>>, iocccok: bool, truth: (seq<T>, C) -> bool)
    requires forall l :: l in ls ==> Classified(l) && !l.lt.Dodgy?
    ensures var r, ds := After(ls, iocccok), Directives(ls);
            if NestsWithin(ds, MAXDEPTH - 1, truth) then
              Run(ds, truth).Some? && r.Running? && |r.m.levels| <= MAXDEPTH &&
              Shape(r.m.levels, Run(ds, truth).value.frames)
            else r.Failed?
  {
    if ls != [] {
      var n := |ls| - 1;
      AfterShape(ls[..n], iocccok, truth);
      DirectivesSnoc(ls);
      var ds := Directives(ls);
      assert ds[..|ds| - 1] == Directives(ls[..n]);
      var r := After(ls[..n], iocccok);
      if r.Running? {
        ShapeStep(r.m, ls[n], iocccok, Run(ds[..n], truth).value, truth);
      }
    }
  }

  /**
   Without dodgy lines, `unifdef` finishes exactly on the files that nest, close what they open, and stay within its
   tables.
   */
  lemma ProcessFinishesExactly<C, T>(ls: seq<Line<C, T>>, iocccok: bool, truth: (seq<T>, C) -> bool)
    requires forall l :: l in ls ==> Classified(l) && !l.lt.Dodgy?
    ensures Process(ls, iocccok).Finished? <==>
            NestsWithin(Directives(ls), MAXDEPTH - 1, truth) && Select(Directives(ls), truth).Some?
  {
    AfterShape(ls, iocccok, truth);
  }

  // ----- which text is ignored -----

  /** An `#ifdef` of a symbol that `-iD` or `-iU` names. */
  predicate Ignores(lt: LineType) { lt == Clean(TrueI) || lt == Clean(FalseI) }

  /**
   Whether text is ignored, outside and in every open conditional: from an `#ifdef` that asks for it up to the next
   `#elif` of the same section, and in everything inside.
   */
  function Flags<C, T>(ls: seq<Line<C, T>>): (fs: seq<bool>)
    ensures fs != []
  {
    if ls == [] then [false] else NextFlags(Flags(ls[..|ls| - 1]), ls[|ls| - 1])
  }

  function NextFlags<C, T>(fs: seq<bool>, l: Line<C, T>): (r: seq<bool>)
    requires fs != []
    ensures r != []
  {
    var n := |fs| - 1;
    match l.d
    case If(_) => fs + [fs[n] || Ignores(l.lt)]
    case Elif(_) => if n == 0 then fs else fs[..n] + [fs[n - 1]]
    case Endif => if n == 0 then fs else fs[..n]
    case _ => fs
  }

  /** The levels have these flags, and a conditional that stays in the output is ignored only if all around it is. */
  predicate Flagged(ls: seq<Level>, fs: seq<bool>) {
    |ls| == |fs| > 0 && ls[0].state.Outside? && (forall i :: 0 <= i < |ls| ==> ls[i].ignoring == fs[i]) &&
    forall i :: 0 < i < |ls| ==> !ls[i].state.Outside? && (Kept(ls[i].state) ==> fs[i] == fs[i - 1])
  }

  lemma FlagPush(ls: seq<Level>, l: Level, fs: seq<bool>)
    requires Flagged(ls, fs) && !l.state.Outside? && (Kept(l.state) ==> l.ignoring == fs[|fs| - 1])
    ensures Flagged(ls + [l], fs + [l.ignoring])
  {
  }

  lemma FlagPop(ls: seq<Level>, fs: seq<bool>)
    requires Flagged(ls, fs) && |ls| > 1
    ensures Flagged(Init(ls), fs[..|fs| - 1])
  {
  }

  lemma FlagMove(ls: seq<Level>, s: IfState, off: bool, fs: seq<bool>, isElif: bool)
    requires Flagged(ls, fs) && |fs| > 1 && !s.Outside? && (Kept(s) ==> Kept(Last(ls).state) || off)
    requires if isElif then Kept(Last(ls).state) || off else !off
    ensures var n := |fs| - 1;
            Flagged(Init(ls) + [Level(s, if off then ls[n - 1].ignoring else ls[n].ignoring)],
                    if isElif then fs[..n] + [fs[n - 1]] else fs)
  {
    var n := |fs| - 1;
    FlagPop(ls, fs);
    FlagPush(Init(ls), Level(s, if off then fs[n - 1] else fs[n]), fs[..n]);
    assert fs[..n] + [fs[n]] == fs;
  }

  lemma IgnoringCells(s: IfState, b: Base, iocccok: bool)
    requires (IsElif(b) || b.ElseLine?) && !s.Outside?
    ensures var e := EffectOf(TransTable(s, Clean(b)), iocccok);
            e.Move? ==> (Kept(e.s) ==> Kept(s) || e.off) && (if IsElif(b) then Kept(s) || e.off else !e.off)
  {
    match s
    case FalsePrefix => case TruePrefix => case PassMiddle => case FalseMiddle =>
    case TrueMiddle => case PassElse => case FalseElse => case TrueElse => case FalseTrailer =>
  }

  lemma FlagsBranch<C, T>(m: Machine<C, T>, l: Line<C, T>, iocccok: bool, fs: seq<bool>)
    requires Flagged(m.levels, fs) && Classified(l) && !l.lt.Dodgy? && (l.d.Elif? || l.d.Else?)
    ensures var r := StepLine(m, l, iocccok); r.Running? ==> Flagged(r.m.levels, NextFlags(fs, l))
  {
    var s := Last(m.levels).state;
    CleanColumns(s, l.lt.base, iocccok);
    if |fs| > 1 {
      IgnoringCells(s, l.lt.base, iocccok);
      var e := EffectOf(TransTable(s, l.lt), iocccok);
      if e.Move? {
        FlagMove(m.levels, e.s, e.off, fs, l.d.Elif?);
      }
    }
  }

  lemma IgnoringIf(s: IfState, lt: LineType, iocccok: bool) returns (e: Effect)
    requires lt.Clean? && IsIf(lt.base)
    ensures e == EffectOf(TransTable(s, lt), iocccok) && e.Nest? && !e.s.Outside? && (e.on <==> Ignores(lt))
    ensures Kept(e.s) ==> !e.on
  {
    IfColumns(s, lt, iocccok, lt.base.TrueI? || lt.base.True?);
    e := EffectOf(TransTable(s, lt), iocccok);
  }

  lemma FlagsIf<C, T>(m: Machine<C, T>, l: Line<C, T>, iocccok: bool, fs: seq<bool>)
    requires Flagged(m.levels, fs) && Classified(l) && !l.lt.Dodgy? && l.d.If?
    ensures var r := StepLine(m, l, iocccok); r.Running? ==> Flagged(r.m.levels, NextFlags(fs, l))
  {
    var e := IgnoringIf(Last(m.levels).state, l.lt, iocccok);
    if |m.levels| < MAXDEPTH {
      FlagPush(m.levels, Level(e.s, e.on || Last(m.levels).ignoring), fs);
    }
  }

  lemma FlagsEndif<C, T>(m: Machine<C, T>, l: Line<C, T>, iocccok: bool, fs: seq<bool>)
    requires Flagged(m.levels, fs) && Classified(l) && !l.lt.Dodgy? && l.d.Endif?
    ensures var r := StepLine(m, l, iocccok); r.Running? ==> Flagged(r.m.levels, NextFlags(fs, l))
  {
    EndifColumns(Last(m.levels).state, l.lt, iocccok);
    if |fs| > 1 {
      FlagPop(m.levels, fs);
    }
  }

  lemma FlagsStep<C, T>(m: Machine<C, T>, l: Line<C, T>, iocccok: bool, fs: seq<bool>)
    requires Flagged(m.levels, fs) && Classified(l) && !l.lt.Dodgy?
    ensures var r := StepLine(m, l, iocccok); r.Running? ==> Flagged(r.m.levels, NextFlags(fs, l))
  {
    var s := Last(m.levels).state;
    match l.d
    case Text(_) => PlainColumn(s, iocccok);
    case If(_) => FlagsIf(m, l, iocccok, fs);
    case Endif => FlagsEndif(m, l, iocccok, fs);
    case _ => FlagsBranch(m, l, iocccok, fs);
  }

  /** Without dodgy lines, the machine ignores text exactly where the options ask for it. */
  lemma {:induction false} IgnoresExactly<C, T>(ls: seq<Line<C, T>>, iocccok: bool)
    requires forall i :: 0 <= i < |ls| ==> Classified(ls[i]) && !ls[i].lt.Dodgy?
    ensures var r := After(ls, iocccok); r.Running? ==> Flagged(r.m.levels, Flags(ls))
    decreases |ls|
  {
    if ls != [] {
      var n := |ls| - 1;
      IgnoresExactly(ls[..n], iocccok);
      var r := After(ls[..n], iocccok);
      if r.Running? {
        FlagsStep(r.m, ls[n], iocccok, Flags(ls[..n]));
      }
    }
  }
}
