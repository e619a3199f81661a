/**
 What `unifdef` writes, without its table: the sections of a file partially evaluated over the grammar of section
 6.10.1 of ISO/IEC 9899:1999.  A group whose condition is known to fail is left out, the group after it moves up, and
 everything after a group whose condition is known to hold is left out.
 */
module UnifdefSimplify {
  import opened Basics
  import opened Preprocessor
  import opened UnifdefMachine

  datatype Known = Yes | No | Maybe

  /** A condition and what is known about it; `ignore` comes from `-iD` and `-iU`. */
  datatype Marked<+C> = Marked(cond: C, known: Known, ignore: bool)

  /** One group after the other. */
  function Join<C, T>(a: Group<C, T>, b: Group<C, T>): Group<C, T> {
    match a
    case Empty => b
    case TextLine(t, rest) => TextLine(t, Join(rest, b))
    case Section(c, body, tail, rest) => Section(c, body, tail, Join(rest, b))
  }

  function Simplify<C, T>(g: Group<Marked<C>, T>): Group<C, T> {
    match g
    case Empty => Empty
    case TextLine(t, rest) => TextLine(t, Simplify(rest))
    case Section(c, body, tail, rest) =>
      match c.known
      case Yes => Join(Simplify(body), Simplify(rest))
      case No => Join(Promote(tail), Simplify(rest))
      case Maybe => Section(c.cond, Simplify(body), Shorten(tail), Simplify(rest))
  }

  /** What is left of a section when all groups before these are known not to be selected. */
  function Promote<C, T>(t: Tail<Marked<C>, T>): Group<C, T> {
    match t
    case EndSection => Empty
    case ElseTail(body) => Simplify(body)
    case ElifTail(c, body, tail) =>
      match c.known
      case Yes => Simplify(body)
      case No => Promote(tail)
      case Maybe => Section(c.cond, Simplify(body), Shorten(tail), Empty)
  }

  /** What is left of these groups when one before them may be selected. */
  function Shorten<C, T>(t: Tail<Marked<C>, T>): Tail<C, T> {
    match t
    case EndSection => EndSection
    case ElseTail(body) => ElseTail(Simplify(body))
    case ElifTail(c, body, tail) =>
      match c.known
      case Yes => ElseTail(Simplify(body))
      case No => Shorten(tail)
      case Maybe => ElifTail(c.cond, Simplify(body), Shorten(tail))
  }

  lemma {:induction false} FlattenJoin<C, T>(a: Group<C, T>, b: Group<C, T>)
    ensures Flatten(Join(a, b)) == Flatten(a) + Flatten(b)
  {
    match a
    case Empty =>
    case TextLine(t, rest) => FlattenJoin(rest, b);
    case Section(c, body, tail, rest) => FlattenJoin(rest, b);
  }

  // ----- lines and marked directives -----

  function IfBase(k: Known, ignore: bool): Base {
    match k
    case Yes => if ignore then TrueI else True
    case No => if ignore then FalseI else False
    case Maybe => IfUnknown
  }

  function ElifBase(k: Known): Base {
    match k
    case Yes => ElTrue
    case No => ElFalse
    case Maybe => ElifUnknown
  }

  /** The classified line of a marked directive. */
  function LineOf<C, T>(d: Directive<Marked<C>, T>): Line<C, T> {
    match d
    case If(c) => Line(Clean(IfBase(c.known, c.ignore)), If(c.cond))
    case Elif(c) => Line(Clean(ElifBase(c.known)), Elif(c.cond))
    case Else => Line(Clean(ElseLine), Else)
    case Endif => Line(Clean(EndifLine), Endif)
    case Text(t) => Line(Plain, Text(t))
  }

  function LinesOf<C, T>(ds: seq<Directive<Marked<C>, T>>): seq<Line<C, T>> {
    seq(|ds|, i requires 0 <= i < |ds| => LineOf(ds[i]))
  }

  function KnownOf(b: Base): Known {
    if b.TrueI? || b.True? || b.ElTrue? then Yes else if b.IfUnknown? || b.ElifUnknown? then Maybe else No
  }

  function Mark<C, T>(l: Line<C, T>): (d: Directive<Marked<C>, T>)
    requires Classified(l) && !l.lt.Dodgy?
    ensures LineOf(d) == l
  {
    match l.d
    case If(c) => If(Marked(c, KnownOf(l.lt.base), l.lt.base.TrueI? || l.lt.base.FalseI?))
    case Elif(c) => Elif(Marked(c, KnownOf(l.lt.base), false))
    case Else => Else
    case Endif => Endif
    case Text(t) => Text(t)
  }

  // ----- the machine on whole groups -----

  /** The machine on marked directives, from a given state. */
  function Go<C, T>(r: Outcome<C, T>, ds: seq<Directive<Marked<C>, T>>, iocccok: bool): Outcome<C, T>
    decreases |ds|
  {
    if ds == [] || !r.Running? || r.m.levels == [] then r
    else Go(StepLine(r.m, LineOf(ds[0]), iocccok), ds[1..], iocccok)
  }

  lemma {:induction false} GoAppend<C, T>(r: Outcome<C, T>, a: seq<Directive<Marked<C>, T>>,
                                          b: seq<Directive<Marked<C>, T>>, iocccok: bool)
    ensures Go(r, a + b, iocccok) == Go(Go(r, a, iocccok), b, iocccok)
    decreases |a|
  {
    if a == [] {
      assert a + b == b;
    } else if r.Running? && r.m.levels != [] {
      assert (a + b)[1..] == a[1..] + b;
      GoAppend(StepLine(r.m, LineOf(a[0]), iocccok), a[1..], b, iocccok);
    }
  }

  lemma GoOne<C, T>(r: Outcome<C, T>, d: Directive<Marked<C>, T>, iocccok: bool)
    ensures Go(r, [d], iocccok) ==
            if r.Running? && r.m.levels != [] then StepLine(r.m, LineOf(d), iocccok) else r
  {
  }

  lemma AfterLast<C, T>(ls: seq<Line<C, T>>, iocccok: bool, r: Outcome<C, T>, l: Line<C, T>)
    requires ls != [] && After(ls[..|ls| - 1], iocccok) == r && ls[|ls| - 1] == l
    ensures After(ls, iocccok) == if r.Running? && r.m.levels != [] then StepLine(r.m, l, iocccok) else r
  {
  }

  lemma GoLast<C, T>(r0: Outcome<C, T>, ds: seq<Directive<Marked<C>, T>>, iocccok: bool)
    requires ds != []
    ensures var r := Go(r0, ds[..|ds| - 1], iocccok);
            Go(r0, ds, iocccok) ==
            if r.Running? && r.m.levels != [] then StepLine(r.m, LineOf(ds[|ds| - 1]), iocccok) else r
  {
    var init, d := ds[..|ds| - 1], ds[|ds| - 1];
    assert ds == init + [d];
    GoAppend(r0, init, [d], iocccok);
    GoOne(Go(r0, init, iocccok), d, iocccok);
  }

  lemma {:induction false} GoIsAfter<C, T>(ds: seq<Directive<Marked<C>, T>>, iocccok: bool, r0: Outcome<C, T>)
    requires r0 == Running(Start())
    ensures After(LinesOf(ds), iocccok) == Go(r0, ds, iocccok)
    decreases |ds|
  {
    if ds == [] {
      return;
    }
    var n := |ds| - 1;
    var ls := LinesOf(ds);
    GoIsAfter(ds[..n], iocccok, r0);
    assert ls[..n] == LinesOf(ds[..n]);
    GoLast(r0, ds, iocccok);
    AfterLast(ls, iocccok, Go(r0, ds[..n], iocccok), LineOf(ds[n]));
  }

  /** The machine has come to `m`, unless the conditionals are nested too deeply for it. */
  ghost predicate Comes<C, T>(r: Outcome<C, T>, m: Machine<C, T>) { r.Failed? || r == Running(m) }

  /** One stretch and then another. */
  lemma ThenComes<C, T>(m: Machine<C, T>, a: seq<Directive<Marked<C>, T>>, m1: Machine<C, T>,
                        b: seq<Directive<Marked<C>, T>>, m2: Machine<C, T>, iocccok: bool)
    requires Comes(Go(Running(m), a, iocccok), m1) && Comes(Go(Running(m1), b, iocccok), m2)
    ensures Comes(Go(Running(m), a + b, iocccok), m2)
  {
    GoAppend(Running(m), a, b, iocccok);
  }

  /** What a state lets through. */
  function Through<C, T>(s: IfState, ds: seq<Directive<C, T>>): seq<Directive<C, T>> { if Dropping(s) then [] else ds }

  /** States in which other groups of the section may follow. */
  predicate Open(s: IfState) { !s.Outside? && !ElseState(s) }

  /** What is written for the groups that follow in such a state. */
  function Remains<C, T>(s: IfState, t: Tail<Marked<C>, T>): seq<Directive<C, T>> {
    if s.FalsePrefix? then Flatten(Promote(t))
    else if s.PassMiddle? || s.FalseMiddle? then FlattenTail(Shorten(t))
    else if s.TrueMiddle? then [Endif]
    else []
  }

  /** How the machine opens a section. */
  ghost predicate Opens<C, T>(s: IfState, s1: IfState, c: Marked<C>, w: seq<Directive<C, T>>) {
    if Dropping(s) then s1.FalseTrailer? && w == []
    else match c.known
         case Yes => s1.TruePrefix? && w == []
         case No => s1.FalsePrefix? && w == []
         case Maybe => s1.PassMiddle? && w == [If(c.cond)]
  }

  lemma IfComes<C, T>(m: Machine<C, T>, c: Marked<C>, iocccok: bool) returns (l: Level, w: seq<Directive<C, T>>)
    requires m.levels != []
    ensures Comes(Go(Running(m), [If(c)], iocccok), Machine(m.levels + [l], m.out + w)) && Open(l.state)
    ensures Opens(Last(m.levels).state, l.state, c, w)
  {
    IfCells(Last(m.levels).state);
    var b := IfBase(c.known, c.ignore);
    var e := EffectOf(TransTable(Last(m.levels).state, Clean(b)), iocccok);
    GoOne(Running(m), If(c), iocccok);
    l := Level(e.s, e.on || Last(m.levels).ignoring);
    w := Write(e.w, If(c.cond));
  }

  /** Where an `#elif` leads in such a state, and how it is written. */
  function ElifNext(s: IfState, k: Known): (r: (IfState, Written))
    requires Open(s)
    ensures Open(r.0)
  {
    if s.FalsePrefix? then
      (match k case Yes => (TruePrefix, Nothing) case No => (FalsePrefix, Nothing) case Maybe => (PassMiddle, AsIf))
    else if s.PassMiddle? || s.FalseMiddle? then
      (match k case Yes => (TrueMiddle, AsElse) case No => (FalseMiddle, Nothing) case Maybe => (PassMiddle, Same))
    else (FalseTrailer, if s.TrueMiddle? then AsEndif else Nothing)
  }

  function ElseNext(s: IfState): (IfState, Written)
    requires Open(s)
  {
    if s.FalsePrefix? then (TrueElse, Nothing)
    else if s.PassMiddle? || s.FalseMiddle? then (PassElse, Same)
    else (FalseElse, if s.TrueMiddle? then AsEndif else Nothing)
  }

  lemma NextCells(s: IfState, k: Known, iocccok: bool)
    requires Open(s)
    ensures var e := EffectOf(TransTable(s, Clean(ElifBase(k))), iocccok); e.Move? && (e.s, e.w) == ElifNext(s, k)
    ensures var e := EffectOf(TransTable(s, Clean(ElseLine)), iocccok); e.Move? && (e.s, e.w) == ElseNext(s)
  {
    match s
    case FalsePrefix => case TruePrefix => case PassMiddle => case FalseMiddle => case TrueMiddle =>
    case FalseTrailer =>
  }

  lemma MoveComes<C, T>(ls: seq<Level>, l: Level, out: seq<Directive<C, T>>, d: Directive<Marked<C>, T>, s: IfState,
                        w: Written, iocccok: bool)
    returns (l': Level)
    requires ls != []
    requires var e := EffectOf(TransTable(l.state, LineOf(d).lt), iocccok); e.Move? && e.s == s && e.w == w
    ensures l'.state == s
    ensures Go(Running(Machine(ls + [l], out)), [d], iocccok) ==
            Running(Machine(ls + [l'], out + Write(w, LineOf(d).d)))
  {
    var e := EffectOf(TransTable(l.state, LineOf(d).lt), iocccok);
    PushLevel(ls, l);
    GoOne(Running(Machine(ls + [l], out)), d, iocccok);
    l' := Level(s, if e.off then Last(ls).ignoring else l.ignoring);
  }

  lemma EndifComes<C, T>(ls: seq<Level>, l: Level, out: seq<Directive<C, T>>, iocccok: bool)
    requires ls != [] && !l.state.Outside?
    ensures Go(Running(Machine(ls + [l], out)), [Endif], iocccok) ==
            Running(Machine(ls, out + if Kept(l.state) then [Endif] else []))
  {
    PushLevel(ls, l);
    EndifColumns(l.state, Clean(EndifLine), iocccok);
    CleanColumns(l.state, EndifLine, iocccok);
    GoOne(Running(Machine(ls + [l], out)), Endif, iocccok);
  }

  /** An `#elif` where all groups before are known not to be selected. */
  lemma PromoteElif<C, T>(c: Marked<C>, body: Group<Marked<C>, T>, tail: Tail<Marked<C>, T>)
    ensures var b := Flatten(Simplify(body));
            Flatten(Promote(ElifTail(c, body, tail))) == match c.known
              case Yes => b
              case No => Flatten(Promote(tail))
              case Maybe => [If(c.cond)] + b + FlattenTail(Shorten(tail))
  {
    var none: Group<C, T> := Empty;
    assert Flatten(Section(c.cond, Simplify(body), Shorten(tail), none)) ==
           [If(c.cond)] + Flatten(Simplify(body)) + FlattenTail(Shorten(tail));
  }

  /** An `#elif` where a group before may be selected. */
  lemma ShortenElif<C, T>(c: Marked<C>, body: Group<Marked<C>, T>, tail: Tail<Marked<C>, T>)
    ensures var b := Flatten(Simplify(body));
            FlattenTail(Shorten(ElifTail(c, body, tail))) == match c.known
              case Yes => [Else] + b + [Endif]
              case No => FlattenTail(Shorten(tail))
              case Maybe => [Elif(c.cond)] + b + FlattenTail(Shorten(tail))
  {
  }

  /** The groups after an `#elif`, and what is written for them. */
  lemma ElifRemains<C, T>(s: IfState, c: Marked<C>, body: Group<Marked<C>, T>, tail: Tail<Marked<C>, T>)
    requires Open(s)
    ensures var (s', w) := ElifNext(s, c.known); var d: Directive<C, T> := Elif(c.cond);
            Remains(s, ElifTail(c, body, tail)) ==
            Write(w, d) + Through(s', Flatten(Simplify(body))) + Remains(s', tail)
  {
    var none: seq<Directive<C, T>> := [];
    WithNone(none);
    if s.FalsePrefix? {
      PromoteElif(c, body, tail);
      WithNone(Flatten(Simplify(body)));
      WithNone(Flatten(Promote(tail)));
    } else if s.PassMiddle? || s.FalseMiddle? {
      ShortenElif(c, body, tail);
      WithNone(FlattenTail(Shorten(tail)));
    }
  }

  lemma WithNone<T>(a: seq<T>)
    ensures [] + a + [] == a && [] + [] + a == a
  {
  }

  lemma ElseRemains<C, T>(s: IfState, body: Group<Marked<C>, T>)
    requires Open(s)
    ensures var (s', w) := ElseNext(s); var d: Directive<C, T> := Else; var t: Tail<Marked<C>, T> := ElseTail(body);
            Remains(s, t) == Write(w, d) + Through(s', Flatten(Simplify(body))) + if Kept(s') then [Endif] else []
  {
  }

  /** Over a whole group the machine writes what is left of it, or nothing where it drops. */
  lemma {:induction false} GroupComes<C, T>(m: Machine<C, T>, g: Group<Marked<C>, T>, iocccok: bool)
    requires m.levels != []
    ensures Comes(Go(Running(m), Flatten(g), iocccok),
                  Machine(m.levels, m.out + Through(Last(m.levels).state, Flatten(Simplify(g)))))
    decreases g
  {
    var s := Last(m.levels).state;
    match g
    case Empty =>
      assert m.out + [] == m.out;
    case TextLine(t, rest) =>
      TextComes(m, t, iocccok);
      var m1 := Machine(m.levels, m.out + Through(s, [Text(t)]));
      GroupComes(m1, rest, iocccok);
      Assoc(m.out, Through(s, [Text(t)]), Through(s, Flatten(Simplify(rest))));
      var m2 := Machine(m.levels, m1.out + Through(s, Flatten(Simplify(rest))));
      ThenComes(m, [Text(t)], m1, Flatten(rest), m2, iocccok);
    case Section(c, body, tail, rest) =>
      var l, w := IfComes(m, c, iocccok);
      PushLevel(m.levels, l);
      var m1 := Machine(m.levels + [l], m.out + w);
      GroupComes(m1, body, iocccok);
      var m2 := Machine(m.levels + [l], m1.out + Through(l.state, Flatten(Simplify(body))));
      TailComes(m.levels, l, m2.out, tail, iocccok);
      var m3 := Machine(m.levels, m2.out + Remains(l.state, tail));
      GroupComes(m3, rest, iocccok);
      var m4 := Machine(m.levels, m3.out + Through(s, Flatten(Simplify(rest))));
      ThenComes(m, [If(c)], m1, Flatten(body), m2, iocccok);
      ThenComes(m, [If(c)] + Flatten(body), m2, FlattenTail(tail), m3, iocccok);
      ThenComes(m, [If(c)] + Flatten(body) + FlattenTail(tail), m3, Flatten(rest), m4, iocccok);
      SectionRemains(s, l.state, w, c, body, tail, rest);
      Assoc5(m.out, w, Through(l.state, Flatten(Simplify(body))), Remains(l.state, tail),
             Through(s, Flatten(Simplify(rest))));
  }

  lemma TextComes<C, T>(m: Machine<C, T>, t: T, iocccok: bool)
    requires m.levels != []
    ensures Go(Running(m), [Text(t)], iocccok) ==
            Running(Machine(m.levels, m.out + Through(Last(m.levels).state, [Text(t)])))
  {
    PlainColumn(Last(m.levels).state, iocccok);
    GoOne(Running(m), Text(t), iocccok);
  }

  /** The parts of a section, and what is left of it. */
  lemma SectionRemains<C, T>(s: IfState, s1: IfState, w: seq<Directive<C, T>>, c: Marked<C>,
                             body: Group<Marked<C>, T>, tail: Tail<Marked<C>, T>, rest: Group<Marked<C>, T>)
    requires Opens(s, s1, c, w)
    ensures w + Through(s1, Flatten(Simplify(body))) + Remains(s1, tail) + Through(s, Flatten(Simplify(rest))) ==
            Through(s, Flatten(Simplify(Section(c, body, tail, rest))))
  {
    var none: seq<Directive<C, T>> := [];
    if Dropping(s) {
      WithoutFirst(none, none);
    } else {
      match c.known {
        case Yes =>
          FlattenJoin(Simplify(body), Simplify(rest));
          WithoutFirst(Flatten(Simplify(body)), Flatten(Simplify(rest)));
        case No =>
          FlattenJoin(Promote(tail), Simplify(rest));
          WithoutFirst(Flatten(Promote(tail)), Flatten(Simplify(rest)));
        case Maybe =>
      }
    }
  }

  lemma WithoutFirst<T>(a: seq<T>, b: seq<T>)
    ensures [] + a + [] + b == a + b && [] + [] + a + b == a + b
  {
  }

  /** The same over the other groups of a section, up to its `#endif`. */
  lemma {:induction false} TailComes<C, T>(ls: seq<Level>, l: Level, out: seq<Directive<C, T>>, t: Tail<Marked<C>, T>,
                                           iocccok: bool)
    requires ls != [] && Open(l.state)
    ensures Comes(Go(Running(Machine(ls + [l], out)), FlattenTail(t), iocccok),
                  Machine(ls, out + Remains(l.state, t)))
    decreases t
  {
    var m := Machine(ls + [l], out);
    NextCells(l.state, if t.ElifTail? then t.cond.known else Yes, iocccok);
    match t
    case EndSection =>
      EndifComes(ls, l, out, iocccok);
    case ElifTail(c, body, tail) =>
      var (s', w) := ElifNext(l.state, c.known);
      var d: Directive<C, T> := Elif(c.cond);
      var l' := MoveComes(ls, l, out, Elif(c), s', w, iocccok);
      var m1 := Machine(ls + [l'], out + Write(w, d));
      PushLevel(ls, l');
      GroupComes(m1, body, iocccok);
      var m2 := Machine(ls + [l'], m1.out + Through(s', Flatten(Simplify(body))));
      TailComes(ls, l', m2.out, tail, iocccok);
      var m3 := Machine(ls, m2.out + Remains(s', tail));
      ThenComes(m, [Elif(c)], m1, Flatten(body), m2, iocccok);
      ThenComes(m, [Elif(c)] + Flatten(body), m2, FlattenTail(tail), m3, iocccok);
      ElifRemains(l.state, c, body, tail);
      Assoc4(out, Write(w, d), Through(s', Flatten(Simplify(body))), Remains(s', tail));
    case ElseTail(body) =>
      var (s', w) := ElseNext(l.state);
      var d: Directive<C, T> := Else;
      var l' := MoveComes(ls, l, out, Else, s', w, iocccok);
      var m1 := Machine(ls + [l'], out + Write(w, d));
      PushLevel(ls, l');
      GroupComes(m1, body, iocccok);
      var m2 := Machine(ls + [l'], m1.out + Through(s', Flatten(Simplify(body))));
      EndifComes(ls, l', m2.out, iocccok);
      var e: seq<Directive<C, T>> := if Kept(s') then [Endif] else [];
      ThenComes(m, [Else], m1, Flatten(body), m2, iocccok);
      ThenComes(m, [Else] + Flatten(body), m2, [Endif], Machine(ls, m2.out + e), iocccok);
      ElseRemains(l.state, body);
      Assoc4(out, Write(w, d), Through(s', Flatten(Simplify(body))), e);
  }

  lemma Assoc4<T>(a: seq<T>, b: seq<T>, c: seq<T>, d: seq<T>)
    ensures a + (b + c + d) == a + b + c + d
  {
  }

  lemma Assoc5<T>(a: seq<T>, b: seq<T>, c: seq<T>, d: seq<T>, e: seq<T>)
    ensures a + (b + c + d + e) == a + b + c + d + e
  {
  }

  // ----- what `unifdef` writes -----

  predicate OnOneLine<C, T>(ls: seq<Line<C, T>>) {
    forall i :: 0 <= i < |ls| ==> Classified(ls[i]) && !ls[i].lt.Dodgy?
  }

  function Marks<C, T>(ls: seq<Line<C, T>>): (ds: seq<Directive<Marked<C>, T>>)
    requires OnOneLine(ls)
    ensures LinesOf(ds) == ls
  {
    seq(|ls|, i requires 0 <= i < |ls| => Mark(ls[i]))
  }

  lemma MarkStep<C, T>(c: Cpp<T>, l: Line<C, T>, t: (seq<T>, C) -> bool, t': (seq<T>, Marked<C>) -> bool)
    requires Classified(l) && !l.lt.Dodgy? && forall text, c :: t'(text, c) == t(text, c.cond)
    ensures Step(c, Mark(l), t') == Step(c, l.d, t)
  {
  }

  /** Marks do not change how a file nests. */
  lemma {:induction false} MarksNest<C, T>(ls: seq<Line<C, T>>, t: (seq<T>, C) -> bool, t': (seq<T>, Marked<C>) -> bool)
    requires OnOneLine(ls) && forall text, c :: t'(text, c) == t(text, c.cond)
    ensures Run(Marks(ls), t') == Run(Directives(ls), t)
  {
    if ls != [] {
      var n := |ls| - 1;
      MarksNest(ls[..n], t, t');
      DirectivesSnoc(ls);
      assert Marks(ls) == Marks(ls[..n]) + [Mark(ls[n])];
      RunSnoc(Directives(ls[..n]), ls[n].d, t);
      RunSnoc(Marks(ls[..n]), Mark(ls[n]), t');
      var r := Run(Directives(ls[..n]), t);
      if r.Some? {
        MarkStep(r.value, ls[n], t, t');
      }
    }
  }

  /**
   If every directive stands on one line and `unifdef` finishes, the file is a group of the grammar, and the output is
   what partial evaluation leaves of it.
   */
  lemma CleanSimplifies<C, T>(ls: seq<Line<C, T>>, iocccok: bool) returns (g: Group<Marked<C>, T>)
    requires OnOneLine(ls) && Process(ls, iocccok).Finished?
    ensures LinesOf(Flatten(g)) == ls && Process(ls, iocccok).out == Flatten(Simplify(g))
  {
    var t: (seq<T>, C) -> bool := (_, _) => true;
    var t': (seq<T>, Marked<C>) -> bool := (_, _) => true;
    ProcessFinishesExactly(ls, iocccok, t);
    MarksNest(ls, t, t');
    g := SelectReadsGroups(Marks(ls), t');
    GoIsAfter(Marks(ls), iocccok, Running(Start()));
    var start: Machine<C, T> := Start();
    GroupComes(start, g, iocccok);
    assert start.out + Flatten(Simplify(g)) == Flatten(Simplify(g));
  }

  // ----- directives that do not stand on one line -----

  /** Where they do not stop `unifdef`, their conditions count as not known. */
  function Cleaned<C, T>(l: Line<C, T>): (r: Line<C, T>)
    requires Classified(l)
    ensures Classified(r) && !r.lt.Dodgy? && r.d == l.d
  {
    if !l.lt.Dodgy? then l
    else Line(Clean(if l.d.If? then IfUnknown else if l.d.Elif? then ElifUnknown else l.lt.base), l.d)
  }

  /** The same effect but for the ignore flag of a new group. */
  predicate SameEffect(e: Effect, f: Effect) { e == f || (e.Nest? && f.Nest? && e.s == f.s && e.w == f.w) }

  lemma DodgyCells<C, T>(s: IfState, l: Line<C, T>, iocccok: bool)
    requires Classified(l) && l.lt.Dodgy?
    ensures var e := EffectOf(TransTable(s, l.lt), iocccok);
            e.Fail? || SameEffect(e, EffectOf(TransTable(s, Cleaned(l).lt), iocccok))
  {
    IfCells(s);
    if !l.d.If? {
      match s
      case Outside => case FalsePrefix => case TruePrefix => case PassMiddle => case FalseMiddle =>
      case TrueMiddle => case PassElse => case FalseElse => case TrueElse => case FalseTrailer =>
    }
  }

  /** The same states and the same output. */
  ghost predicate Alike<C, T>(m: Machine<C, T>, m': Machine<C, T>) {
    m.out == m'.out && |m.levels| == |m'.levels| &&
    forall i :: 0 <= i < |m.levels| ==> m.levels[i].state == m'.levels[i].state
  }

  lemma CleanedStep<C, T>(m: Machine<C, T>, m': Machine<C, T>, l: Line<C, T>, iocccok: bool)
    requires Alike(m, m') && m.levels != [] && Classified(l)
    ensures var r, r' := StepLine(m, l, iocccok), StepLine(m', Cleaned(l), iocccok);
            r.Running? ==> r'.Running? && Alike(r.m, r'.m)
  {
    var s := Last(m.levels).state;
    if l.lt.Dodgy? {
      DodgyCells(s, l, iocccok);
    }
    var e, e' := EffectOf(TransTable(s, l.lt), iocccok), EffectOf(TransTable(s, Cleaned(l).lt), iocccok);
    assert Last(m'.levels).state == s;
    AlikePerforms(m, m', e, e', l.d);
  }

  lemma AlikePerforms<C, T>(m: Machine<C, T>, m': Machine<C, T>, e: Effect, e': Effect, d: Directive<C, T>)
    requires Alike(m, m') && m.levels != [] && (e.Fail? || SameEffect(e, e'))
    ensures var r, r' := Perform(m, e, d), Perform(m', e', d); r.Running? ==> r'.Running? && Alike(r.m, r'.m)
  {
  }

  predicate AllClassified<C, T>(ls: seq<Line<C, T>>) { forall i :: 0 <= i < |ls| ==> Classified(ls[i]) }

  function AllCleaned<C, T>(ls: seq<Line<C, T>>): (r: seq<Line<C, T>>)
    requires AllClassified(ls)
    ensures OnOneLine(r) && |r| == |ls|
  {
    seq(|ls|, i requires 0 <= i < |ls| => Cleaned(ls[i]))
  }

  lemma {:induction false} CleanedAfter<C, T>(ls: seq<Line<C, T>>, iocccok: bool)
    requires AllClassified(ls)
    ensures var r, r' := After(ls, iocccok), After(AllCleaned(ls), iocccok);
            r.Running? ==> r'.Running? && Alike(r.m, r'.m)
    decreases |ls|
  {
    if ls == [] {
      return;
    }
    var n := |ls| - 1;
    CleanedAfter(ls[..n], iocccok);
    assert AllCleaned(ls)[..n] == AllCleaned(ls[..n]);
    var r, r' := After(ls[..n], iocccok), After(AllCleaned(ls[..n]), iocccok);
    AfterLast(ls, iocccok, r, ls[n]);
    AfterLast(AllCleaned(ls), iocccok, r', Cleaned(ls[n]));
    if r.Running? && r.m.levels != [] {
      CleanedStep(r.m, r'.m, ls[n], iocccok);
    }
  }

  lemma LineGoesOn<C, T>(m: Machine<C, T>, l: Line<C, T>, iocccok: bool)
    requires Classified(l) && m.levels != []
    ensures !StepLine(m, l, iocccok).Finished?
  {
    var s := Last(m.levels).state;
    PlainColumn(s, iocccok);
    if !l.lt.Plain? {
      CleanColumns(s, Cleaned(l).lt.base, iocccok);
    }
    if l.lt.Dodgy? {
      DodgyCells(s, l, iocccok);
    }
  }

  /** Only the end of the file finishes a run. */
  lemma {:induction false} NeverStops<C, T>(ls: seq<Line<C, T>>, iocccok: bool)
    requires AllClassified(ls)
    ensures !After(ls, iocccok).Finished?
    decreases |ls|
  {
    if ls != [] {
      var n := |ls| - 1;
      NeverStops(ls[..n], iocccok);
      var r := After(ls[..n], iocccok);
      AfterLast(ls, iocccok, r, ls[n]);
      if r.Running? && r.m.levels != [] {
        LineGoesOn(r.m, ls[n], iocccok);
      }
    }
  }

  /**
   For every file: if `unifdef` finishes, the file is a group of the grammar, and the output is what partial evaluation
   leaves of it, where nothing is known about conditions that do not stand on one line.
   */
  lemma ProcessSimplifies<C, T>(ls: seq<Line<C, T>>, iocccok: bool) returns (g: Group<Marked<C>, T>)
    requires AllClassified(ls) && Process(ls, iocccok).Finished?
    ensures LinesOf(Flatten(g)) == AllCleaned(ls) && Process(ls, iocccok).out == Flatten(Simplify(g))
  {
    CleanedAfter(ls, iocccok);
    NeverStops(ls, iocccok);
    g := CleanSimplifies(AllCleaned(ls), iocccok);
  }

  // ----- what stays of the conditions -----

  predicate HasCond<C, T>(d: Directive<C, T>) { d.If? || d.Elif? }

  /** The directive that a condition of the simplified group comes from; nothing is known about its condition. */
  ghost predicate Source<C, T>(d: Directive<C, T>, e: Directive<Marked<C>, T>) {
    HasCond(d) && HasCond(e) && e.cond.known.Maybe? && e.cond.cond == d.cond
  }

  lemma {:induction false} SimplifyKeeps<C, T>(g: Group<Marked<C>, T>, d: Directive<C, T>)
    returns (e: Directive<Marked<C>, T>)
    requires d in Flatten(Simplify(g)) && HasCond(d)
    ensures e in Flatten(g) && Source(d, e)
    decreases g
  {
    match g
    case TextLine(t, rest) =>
      e := SimplifyKeeps(rest, d);
    case Section(c, body, tail, rest) =>
      FlattenJoin(if c.known.Yes? then Simplify(body) else Promote(tail), Simplify(rest));
      if d in Flatten(Simplify(rest)) {
        e := SimplifyKeeps(rest, d);
      } else if !c.known.No? && d in Flatten(Simplify(body)) {
        e := SimplifyKeeps(body, d);
      } else if c.known.No? {
        e := PromoteKeeps(tail, d);
      } else if d in FlattenTail(Shorten(tail)) {
        e := ShortenKeeps(tail, d);
      } else {
        e := If(c);
      }
  }

  lemma {:induction false} PromoteKeeps<C, T>(t: Tail<Marked<C>, T>, d: Directive<C, T>)
    returns (e: Directive<Marked<C>, T>)
    requires d in Flatten(Promote(t)) && HasCond(d)
    ensures e in FlattenTail(t) && Source(d, e)
    decreases t
  {
    match t
    case ElseTail(body) =>
      e := SimplifyKeeps(body, d);
    case ElifTail(c, body, tail) =>
      if !c.known.No? && d in Flatten(Simplify(body)) {
        e := SimplifyKeeps(body, d);
      } else if c.known.No? {
        e := PromoteKeeps(tail, d);
      } else if d in FlattenTail(Shorten(tail)) {
        e := ShortenKeeps(tail, d);
      } else {
        e := Elif(c);
      }
  }

  lemma {:induction false} ShortenKeeps<C, T>(t: Tail<Marked<C>, T>, d: Directive<C, T>)
    returns (e: Directive<Marked<C>, T>)
    requires d in FlattenTail(Shorten(t)) && HasCond(d)
    ensures e in FlattenTail(t) && Source(d, e)
    decreases t
  {
    match t
    case ElseTail(body) =>
      e := SimplifyKeeps(body, d);
    case ElifTail(c, body, tail) =>
      if !c.known.No? && d in Flatten(Simplify(body)) {
        e := SimplifyKeeps(body, d);
      } else if !c.known.Yes? && d in FlattenTail(Shorten(tail)) {
        e := ShortenKeeps(tail, d);
      } else {
        e := Elif(c);
      }
  }

  /** The condition of the line could not be told, or is not told because it does not stand on one line. */
  predicate Untold<C, T>(l: Line<C, T>) {
    l.lt == Clean(IfUnknown) || l.lt == Clean(ElifUnknown) || l.lt.Dodgy?
  }

  /** Every condition in the output is that of such a line of the input. */
  lemma OnlyUntoldStays<C, T>(ls: seq<Line<C, T>>, iocccok: bool, d: Directive<C, T>) returns (l: Line<C, T>)
    requires AllClassified(ls) && Process(ls, iocccok).Finished? && d in Process(ls, iocccok).out && HasCond(d)
    ensures l in ls && Untold(l) && HasCond(l.d) && l.d.cond == d.cond
  {
    var g := ProcessSimplifies(ls, iocccok);
    var e := SimplifyKeeps(g, d);
    var i :| 0 <= i < |Flatten(g)| && Flatten(g)[i] == e;
    assert LinesOf(Flatten(g))[i] == LineOf(e) == Cleaned(ls[i]);
    l := ls[i];
  }

  ghost predicate AllText<C, T>(ds: seq<Directive<C, T>>) { forall d :: d in ds ==> d.Text? }

  ghost predicate AllKnown<C, T>(ds: seq<Directive<Marked<C>, T>>) {
    forall d :: d in ds && HasCond(d) ==> !d.cond.known.Maybe?
  }

  lemma AllKnownParts<C, T>(a: seq<Directive<Marked<C>, T>>, b: seq<Directive<Marked<C>, T>>)
    requires AllKnown(a + b)
    ensures AllKnown(a) && AllKnown(b)
  {
    assert forall d :: d in a || d in b ==> d in a + b;
  }

  lemma {:induction false} KnownIsText<C, T>(g: Group<Marked<C>, T>)
    requires AllKnown(Flatten(g))
    ensures AllText(Flatten(Simplify(g)))
    decreases g
  {
    match g
    case Empty =>
    case TextLine(t, rest) =>
      AllKnownParts([Text(t)], Flatten(rest));
      KnownIsText(rest);
    case Section(c, body, tail, rest) =>
      AllKnownParts([If(c)] + Flatten(body) + FlattenTail(tail), Flatten(rest));
      AllKnownParts([If(c)] + Flatten(body), FlattenTail(tail));
      AllKnownParts([If(c)], Flatten(body));
      var d: Directive<Marked<C>, T> := If(c);
      assert d in [d];
      KnownIsText(body);
      KnownTailIsText(tail);
      KnownIsText(rest);
      FlattenJoin(if c.known.Yes? then Simplify(body) else Promote(tail), Simplify(rest));
  }

  lemma {:induction false} KnownTailIsText<C, T>(t: Tail<Marked<C>, T>)
    requires AllKnown(FlattenTail(t))
    ensures AllText(Flatten(Promote(t)))
    decreases t
  {
    match t
    case EndSection =>
    case ElseTail(body) =>
      AllKnownParts([Else] + Flatten(body), [Endif]);
      AllKnownParts([Else], Flatten(body));
      KnownIsText(body);
    case ElifTail(c, body, tail) =>
      AllKnownParts([Elif(c)] + Flatten(body), FlattenTail(tail));
      AllKnownParts([Elif(c)], Flatten(body));
      var d: Directive<Marked<C>, T> := Elif(c);
      assert d in [d];
      KnownIsText(body);
      KnownTailIsText(tail);
  }

  lemma {:induction false} SelectText<C, T>(ds: seq<Directive<C, T>>, truth: (seq<T>, C) -> bool)
    requires AllText(ds)
    ensures Run(ds, truth).Some? && Run(ds, truth).value.frames == [] && |Run(ds, truth).value.text| == |ds|
    ensures forall i :: 0 <= i < |ds| ==> ds[i] == Text(Run(ds, truth).value.text[i])
  {
    if ds != [] {
      SelectText(ds[..|ds| - 1], truth);
      assert ds[|ds| - 1] in ds;
    }
  }

  /** If every condition is told, the output is the text that the compiler selects from the input, and no more. */
  lemma ToldLeavesText<C(!new), T(!new)>(ls: seq<Line<C, T>>, iocccok: bool, truth: (seq<T>, C) -> bool)
    requires Process(ls, iocccok).Finished? && forall l :: l in ls ==> Agrees(l, truth)
    requires forall l :: l in ls && HasCond(l.d) ==> !Untold(l)
    ensures var out, text := Process(ls, iocccok).out, Select(Directives(ls), truth);
            AllText(out) && text.Some? && |text.value| == |out| &&
            forall i :: 0 <= i < |out| ==> out[i] == Text(text.value[i])
  {
    var none: seq<T> := [];
    forall i | 0 <= i < |ls| ensures Classified(ls[i]) {
      assert ls[i] in ls && AgreesAfter(ls[i], truth, none);
    }
    var g := ProcessSimplifies(ls, iocccok);
    var ds := Flatten(g);
    forall d: Directive<Marked<C>, T> | d in ds && HasCond(d) ensures !d.cond.known.Maybe? {
      var i :| 0 <= i < |ds| && ds[i] == d;
      assert LinesOf(ds)[i] == LineOf(d) == Cleaned(ls[i]) && ls[i] in ls;
    }
    KnownIsText(g);
    SelectText(Process(ls, iocccok).out, truth);
    ProcessPreservesMeaning(ls, iocccok, truth);
  }
}
