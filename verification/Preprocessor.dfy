/**
 Conditional inclusion as section 6.10.1 of ISO/IEC 9899:1999 defines it, over lines that are already split into
 directives and text.  This is the meaning that `unifdef` has to preserve, and it does not mention `unifdef` at all.
 */
module Preprocessor {
  import opened Basics

  /** A line; `C` is the type of conditions and `T` the type of text lines. */
  datatype Directive<+C, +T> = If(cond: C) | Elif(cond: C) | Else | Endif | Text(text: T)

  /** One open conditional: is the enclosing group selected, has a group of this
      section been selected, is the current group selected, was `#else` seen. */
  datatype Frame = Frame(outer: bool, taken: bool, active: bool, sawElse: bool)

  datatype Cpp<+T> = Cpp(frames: seq<Frame>, text: seq<T>)

  predicate Active(fs: seq<Frame>) {
    fs == [] || fs[|fs| - 1].active
  }

  function Top(fs: seq<Frame>): Frame
    requires fs != []
  {
    fs[|fs| - 1]
  }

  function Pop(fs: seq<Frame>): seq<Frame>
    requires fs != []
  {
    fs[..|fs| - 1]
  }

  function ElifFrame(f: Frame, holds: bool): Frame {
    Frame(f.outer, f.taken || holds, f.outer && !f.taken && holds, false)
  }

  function ElseFrame(f: Frame): Frame {
    Frame(f.outer, true, f.outer && !f.taken, true)
  }

  /**
   One line.  Whether a condition holds may depend on the text selected before it, which is where the preprocessor
   finds definitions.
   */
  function Step<C, T>(c: Cpp<T>, d: Directive<C, T>, truth: (seq<T>, C) -> bool): Option<Cpp<T>> {
    var fs := c.frames;
    match d
    case Text(t) =>
      Some(if Active(fs) then Cpp(fs, c.text + [t]) else c)
    case If(e) =>
      Some(Cpp(fs + [Frame(Active(fs), truth(c.text, e), Active(fs) && truth(c.text, e), false)], c.text))
    case Elif(e) =>
      if fs == [] || Top(fs).sawElse then None else Some(Cpp(Pop(fs) + [ElifFrame(Top(fs), truth(c.text, e))], c.text))
    case Else =>
      if fs == [] || Top(fs).sawElse then None else Some(Cpp(Pop(fs) + [ElseFrame(Top(fs))], c.text))
    case Endif =>
      if fs == [] then None else Some(Cpp(Pop(fs), c.text))
  }

  function Run<C, T>(ds: seq<Directive<C, T>>, truth: (seq<T>, C) -> bool): Option<Cpp<T>> {
    if ds == [] then Some(Cpp([], [])) else
    var c := Run(ds[..|ds| - 1], truth);
    if c.None? then None else Step(c.value, ds[|ds| - 1], truth)
  }

  /** The text a preprocessor selects; `None` when the conditionals do not nest. */
  function Select<C, T>(ds: seq<Directive<C, T>>, truth: (seq<T>, C) -> bool): Option<seq<T>> {
    var c := Run(ds, truth);
    if c.Some? && c.value.frames == [] then Some(c.value.text) else None
  }

  lemma RunSnoc<C, T>(ds: seq<Directive<C, T>>, d: Directive<C, T>, truth: (seq<T>, C) -> bool)
    ensures Run(ds + [d], truth) ==
            var c := Run(ds, truth); if c.None? then None else Step(c.value, d, truth)
  {
    assert (ds + [d])[..|ds + [d]| - 1] == ds;
  }

  // The grammar of section 6.10.1, as a second definition of the same meaning.

  datatype Group<C, T> =
    | Empty
    | TextLine(text: T, rest: Group<C, T>)
    | Section(cond: C, body: Group<C, T>, tail: Tail<C, T>, rest: Group<C, T>)

  datatype Tail<C, T> =
    | EndSection
    | ElifTail(cond: C, body: Group<C, T>, tail: Tail<C, T>)
    | ElseTail(body: Group<C, T>)

  /** The lines of a group, as they stand in the file. */
  function Flatten<C, T>(g: Group<C, T>): seq<Directive<C, T>> {
    match g
    case Empty => []
    case TextLine(t, rest) => [Text(t)] + Flatten(rest)
    case Section(c, body, tail, rest) => [If(c)] + Flatten(body) + FlattenTail(tail) + Flatten(rest)
  }

  function FlattenTail<C, T>(t: Tail<C, T>): seq<Directive<C, T>> {
    match t
    case EndSection => [Endif]
    case ElifTail(c, body, tail) => [Elif(c)] + Flatten(body) + FlattenTail(tail)
    case ElseTail(body) => [Else] + Flatten(body) + [Endif]
  }

  /**
   The text that a group contributes after the text `before` has been selected.  The groups of a section are tried in
   order; the first whose condition holds is processed.
   */
  function Meaning<C, T>(g: Group<C, T>, truth: (seq<T>, C) -> bool, before: seq<T>): seq<T> {
    match g
    case Empty => []
    case TextLine(t, rest) => [t] + Meaning(rest, truth, before + [t])
    case Section(c, body, tail, rest) =>
      var first := if truth(before, c) then Meaning(body, truth, before) else MeaningTail(tail, truth, before);
      first + Meaning(rest, truth, before + first)
  }

  function MeaningTail<C, T>(t: Tail<C, T>, truth: (seq<T>, C) -> bool, before: seq<T>): seq<T> {
    match t
    case EndSection => []
    case ElifTail(c, body, tail) =>
      if truth(before, c) then Meaning(body, truth, before) else MeaningTail(tail, truth, before)
    case ElseTail(body) => Meaning(body, truth, before)
  }

  /** `Run` from a given state. */
  function RunFrom<C, T>(c: Option<Cpp<T>>, ds: seq<Directive<C, T>>, truth: (seq<T>, C) -> bool): Option<Cpp<T>>
    decreases |ds|
  {
    if c.None? || ds == [] then c else RunFrom(Step(c.value, ds[0], truth), ds[1..], truth)
  }

  lemma {:induction false} RunFromAppend<C, T>(c: Option<Cpp<T>>, a: seq<Directive<C, T>>, b: seq<Directive<C, T>>,
                                               truth: (seq<T>, C) -> bool)
    ensures RunFrom(c, a + b, truth) == RunFrom(RunFrom(c, a, truth), b, truth)
    decreases |a|
  {
    if a == [] {
      assert a + b == b;
    } else if c.Some? {
      assert (a + b)[1..] == a[1..] + b;
      RunFromAppend(Step(c.value, a[0], truth), a[1..], b, truth);
    }
  }

  lemma RunLast<C, T>(c: Option<Cpp<T>>, d: Directive<C, T>, truth: (seq<T>, C) -> bool)
    ensures RunFrom(c, [d], truth) == if c.None? then None else Step(c.value, d, truth)
  {
    assert [d][1..] == [];
  }

  lemma {:induction false} RunIsRunFrom<C, T>(ds: seq<Directive<C, T>>, truth: (seq<T>, C) -> bool)
    ensures Run(ds, truth) == RunFrom(Some(Cpp([], [])), ds, truth)
  {
    if ds != [] {
      var n := |ds| - 1;
      var init, d := ds[..n], ds[n];
      RunIsRunFrom(init, truth);
      assert ds == init + [d];
      RunFromAppend(Some(Cpp([], [])), init, [d], truth);
      RunLast(RunFrom(Some(Cpp([], [])), init, truth), d, truth);
    }
  }

  lemma RunCons<C, T>(c: Cpp<T>, d: Directive<C, T>, ds: seq<Directive<C, T>>, truth: (seq<T>, C) -> bool)
    ensures RunFrom(Some(c), [d] + ds, truth) == RunFrom(Step(c, d, truth), ds, truth)
    ensures RunFrom(Some(c), [d], truth) == Step(c, d, truth)
  {
    assert ([d] + ds)[1..] == ds;
  }

  lemma PushTop(fs: seq<Frame>, f: Frame)
    ensures Top(fs + [f]) == f && Pop(fs + [f]) == fs
  {
  }

  /** Processing a whole group appends its meaning when it is selected, and nothing otherwise. */
  lemma {:induction false} RunGroup<C, T>(fs: seq<Frame>, text: seq<T>, g: Group<C, T>, truth: (seq<T>, C) -> bool)
    ensures RunFrom(Some(Cpp(fs, text)), Flatten(g), truth)
         == Some(Cpp(fs, if Active(fs) then text + Meaning(g, truth, text) else text))
    decreases g
  {
    match g
    case Empty =>
      assert text + [] == text;
    case TextLine(t, rest) =>
      var text' := if Active(fs) then text + [t] else text;
      RunGroup(fs, text', rest, truth);
      RunCons(Cpp(fs, text), Text(t), Flatten(rest), truth);
      Assoc(text, [t], Meaning(rest, truth, text + [t]));
    case Section(e, body, tail, rest) =>
      var a := Active(fs);
      var h := truth(text, e);
      var f := Frame(a, h, a && h, false);
      RunGroup(fs + [f], text, body, truth);
      var text1 := if a && h then text + Meaning(body, truth, text) else text;
      RunTail(fs, f, text1, tail, truth);
      var text2 := if a && !h then text1 + MeaningTail(tail, truth, text1) else text1;
      RunGroup(fs, text2, rest, truth);
      RunSection(fs, f, text, text1, text2, e, body, tail, rest, truth);
      var m := if h then Meaning(body, truth, text) else MeaningTail(tail, truth, text);
      Assoc(text, m, Meaning(rest, truth, text + m));
  }

  lemma Assoc<T>(a: seq<T>, b: seq<T>, c: seq<T>)
    ensures a + (b + c) == a + b + c
  {
  }

  /** A section is its `#if`, its first group, its other groups, and what follows. */
  lemma RunSection<C, T>(fs: seq<Frame>, f: Frame, text: seq<T>, text1: seq<T>, text2: seq<T>, e: C, body: Group<C, T>,
                         tail: Tail<C, T>, rest: Group<C, T>, truth: (seq<T>, C) -> bool)
    requires f == Frame(Active(fs), truth(text, e), Active(fs) && truth(text, e), false)
    requires RunFrom(Some(Cpp(fs + [f], text)), Flatten(body), truth) == Some(Cpp(fs + [f], text1))
    requires RunFrom(Some(Cpp(fs + [f], text1)), FlattenTail(tail), truth) == Some(Cpp(fs, text2))
    ensures RunFrom(Some(Cpp(fs, text)), Flatten(Section(e, body, tail, rest)), truth) ==
              RunFrom(Some(Cpp(fs, text2)), Flatten(rest), truth)
  {
    RunInTurn(Cpp(fs, text), If(e), Cpp(fs + [f], text), Flatten(body), Cpp(fs + [f], text1), FlattenTail(tail),
              Cpp(fs, text2), Flatten(rest), truth);
  }

  /** One directive and three stretches, from state to state. */
  lemma RunInTurn<C, T>(c: Cpp<T>, d: Directive<C, T>, c1: Cpp<T>, ds1: seq<Directive<C, T>>, c2: Cpp<T>,
                        ds2: seq<Directive<C, T>>,
                        c3: Cpp<T>, ds3: seq<Directive<C, T>>, truth: (seq<T>, C) -> bool)
    requires Step(c, d, truth) == Some(c1) && RunFrom(Some(c1), ds1, truth) == Some(c2)
    requires RunFrom(Some(c2), ds2, truth) == Some(c3)
    ensures RunFrom(Some(c), [d] + ds1 + ds2 + ds3, truth) == RunFrom(Some(c3), ds3, truth)
  {
    RunOne(c, d, c1, truth);
    RunFromAppend(Some(c), [d], ds1, truth);
    RunFromAppend(Some(c), [d] + ds1, ds2, truth);
    RunFromAppend(Some(c), [d] + ds1 + ds2, ds3, truth);
  }

  lemma RunOne<C, T>(c: Cpp<T>, d: Directive<C, T>, c1: Cpp<T>, truth: (seq<T>, C) -> bool)
    requires Step(c, d, truth) == Some(c1)
    ensures RunFrom(Some(c), [d], truth) == Some(c1)
  {
    RunCons(c, d, [], truth);
  }

  lemma {:induction false} RunTail<C, T>(fs: seq<Frame>, f: Frame, text: seq<T>, t: Tail<C, T>,
                                         truth: (seq<T>, C) -> bool)
    requires !f.sawElse && f.outer == Active(fs)
    ensures RunFrom(Some(Cpp(fs + [f], text)), FlattenTail(t), truth)
         == Some(Cpp(fs, if f.outer && !f.taken then text + MeaningTail(t, truth, text) else text))
    decreases t
  {
    PushTop(fs, f);
    match t
    case EndSection =>
      RunCons(Cpp(fs + [f], text), Endif, [], truth);
      assert text + [] == text;
    case ElifTail(e, body, tail) =>
      var f' := ElifFrame(f, truth(text, e));
      var ds := Flatten(body) + FlattenTail(tail);
      assert FlattenTail(t) == [Elif(e)] + ds;
      RunCons(Cpp(fs + [f], text), Elif(e), ds, truth);
      RunFromAppend(Some(Cpp(fs + [f'], text)), Flatten(body), FlattenTail(tail), truth);
      RunGroup(fs + [f'], text, body, truth);
      RunTail(fs, f', if f'.active then text + Meaning(body, truth, text) else text, tail, truth);
    case ElseTail(body) =>
      var f' := ElseFrame(f);
      var ds := Flatten(body) + [Endif];
      assert FlattenTail(t) == [Else] + ds;
      RunCons(Cpp(fs + [f], text), Else, ds, truth);
      RunFromAppend(Some(Cpp(fs + [f'], text)), Flatten(body), [Endif], truth);
      RunGroup(fs + [f'], text, body, truth);
      var text' := if f'.active then text + Meaning(body, truth, text) else text;
      PushTop(fs, f');
      RunCons(Cpp(fs + [f'], text'), Endif, [], truth);
  }

  /** The stack machine computes the meaning of every well-nested file. */
  lemma SelectIsMeaning<C, T>(g: Group<C, T>, truth: (seq<T>, C) -> bool)
    ensures Select(Flatten(g), truth) == Some(Meaning(g, truth, []))
  {
    RunIsRunFrom(Flatten(g), truth);
    RunGroup([], [], g, truth);
    assert [] + Meaning(g, truth, []) == Meaning(g, truth, []);
  }

  // ----- every file that nests is a group -----

  /** The rest of a file closes all conditionals that are open. */
  ghost predicate Closes<C, T>(c: Cpp<T>, ds: seq<Directive<C, T>>, truth: (seq<T>, C) -> bool) {
    var r := RunFrom(Some(c), ds, truth);
    r.Some? && r.value.frames == []
  }

  lemma ClosesNext<C, T>(c: Cpp<T>, ds: seq<Directive<C, T>>, truth: (seq<T>, C) -> bool)
    requires Closes(c, ds, truth) && ds != []
    ensures Step(c, ds[0], truth).Some? && Closes(Step(c, ds[0], truth).value, ds[1..], truth)
  {
    assert RunFrom(Some(c), ds, truth) == RunFrom(Step(c, ds[0], truth), ds[1..], truth);
  }

  /** A directive that ends a group. */
  predicate EndsGroup<C, T>(d: Directive<C, T>) { d.Elif? || d.Else? || d.Endif? }

  /** The lines up to the first directive that belongs to an enclosing section are a group. */
  lemma {:induction false} ReadGroup<C, T>(c: Cpp<T>, ds: seq<Directive<C, T>>, truth: (seq<T>, C) -> bool)
    returns (g: Group<C, T>, rest: seq<Directive<C, T>>, c1: Cpp<T>)
    requires Closes(c, ds, truth)
    ensures ds == Flatten(g) + rest && (rest != [] ==> EndsGroup(rest[0]))
    ensures c1.frames == c.frames && Closes(c1, rest, truth)
    decreases |ds|
  {
    if ds == [] || EndsGroup(ds[0]) {
      g, rest, c1 := Empty, ds, c;
      return;
    }
    ClosesNext(c, ds, truth);
    var next := Step(c, ds[0], truth).value;
    var more;
    if ds[0].Text? {
      more, rest, c1 := ReadGroup(next, ds[1..], truth);
      g := TextLine(ds[0].text, more);
      assert ds == [ds[0]] + (Flatten(more) + rest) == [ds[0]] + Flatten(more) + rest;
    } else {
      var body, tail, rest1, c2 := ReadSection(c, ds, truth);
      more, rest, c1 := ReadGroup(c2, rest1, truth);
      g := Section(ds[0].cond, body, tail, more);
      Assoc([ds[0]] + Flatten(body) + FlattenTail(tail), Flatten(more), rest);
    }
  }

  /** A section, from its `#if` to its `#endif`. */
  lemma {:induction false} ReadSection<C, T>(c: Cpp<T>, ds: seq<Directive<C, T>>, truth: (seq<T>, C) -> bool)
    returns (body: Group<C, T>, tail: Tail<C, T>, rest: seq<Directive<C, T>>, c1: Cpp<T>)
    requires Closes(c, ds, truth) && ds != [] && ds[0].If?
    ensures ds == [ds[0]] + Flatten(body) + FlattenTail(tail) + rest && |rest| < |ds|
    ensures c1.frames == c.frames && Closes(c1, rest, truth)
    decreases |ds|, 0
  {
    ClosesNext(c, ds, truth);
    var next := Step(c, ds[0], truth).value;
    PushTop(c.frames, Top(next.frames));
    var rest1, c2;
    body, rest1, c2 := ReadGroup(next, ds[1..], truth);
    tail, rest, c1 := ReadTail(c.frames, c2, rest1, truth);
    assert ds == [ds[0]] + (Flatten(body) + (FlattenTail(tail) + rest));
    Assoc([ds[0]] + Flatten(body), FlattenTail(tail), rest);
    Assoc([ds[0]], Flatten(body), FlattenTail(tail) + rest);
  }

  /** The other groups of a section. */
  lemma {:induction false} ReadTail<C, T>(fs: seq<Frame>, c: Cpp<T>, ds: seq<Directive<C, T>>,
                                          truth: (seq<T>, C) -> bool)
    returns (tail: Tail<C, T>, rest: seq<Directive<C, T>>, c1: Cpp<T>)
    requires Closes(c, ds, truth) && c.frames != [] && Pop(c.frames) == fs && !Top(c.frames).sawElse
    requires ds != [] ==> EndsGroup(ds[0])
    ensures ds == FlattenTail(tail) + rest && |rest| < |ds|
    ensures c1.frames == fs && Closes(c1, rest, truth)
    decreases |ds|
  {
    ClosesNext(c, ds, truth);
    var next := Step(c, ds[0], truth).value;
    if ds[0].Endif? {
      tail, rest, c1 := EndSection, ds[1..], next;
      return;
    }
    PushTop(fs, Top(next.frames));
    var body, rest1, c2 := ReadGroup(next, ds[1..], truth);
    if ds[0].Elif? {
      var more;
      more, rest, c1 := ReadTail(fs, c2, rest1, truth);
      tail := ElifTail(ds[0].cond, body, more);
      Assoc([ds[0]] + Flatten(body), FlattenTail(more), rest);
      Assoc([ds[0]], Flatten(body), FlattenTail(more) + rest);
    } else {
      ClosesNext(c2, rest1, truth);
      tail, rest, c1 := ElseTail(body), rest1[1..], Step(c2, rest1[0], truth).value;
      Assoc([ds[0]] + Flatten(body), [rest1[0]], rest);
      Assoc([ds[0]], Flatten(body), [rest1[0]] + rest);
    }
  }

  /** The files that the stack machine accepts are exactly the groups of the grammar. */
  lemma SelectReadsGroups<C, T>(ds: seq<Directive<C, T>>, truth: (seq<T>, C) -> bool) returns (g: Group<C, T>)
    requires Select(ds, truth).Some?
    ensures ds == Flatten(g) && Select(ds, truth) == Some(Meaning(g, truth, []))
  {
    RunIsRunFrom(ds, truth);
    var start: Cpp<T> := Cpp([], []);
    var rest, c1;
    g, rest, c1 := ReadGroup(start, ds, truth);
    assert rest == [] by {
      if rest != [] {
        ClosesNext(c1, rest, truth);
      }
    }
    assert Flatten(g) + rest == Flatten(g);
    SelectIsMeaning(g, truth);
  }
}
