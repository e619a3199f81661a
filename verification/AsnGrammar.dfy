/**
 What one pass of the ASN.1 compiler's back end produces, on values: the opcodes in order, which elements are rendered
 out of line, and where their bodies start. A pass does not depend on the jump targets it prints.
 */
module AsnGrammar {
  import opened Basics

  datatype Kind = NotCompound | SeqKind | SeqOf | SetOf | Choice | AnyKind | TypeRef | TagOverride

  /**
   An element of the grammar.  `target` is the element of the type a `TypeRef` names; `shared`
   says that the element is the definition of a type that is referred to more than once;
   `bare` that it has no tag of its own.  The last two are no fields of the program: they say that rendering comes to
   the element, under a tag that makes it skippable or not.
   */
  datatype Elem = Elem(kind: Kind, children: seq<nat>, target: nat,
                       action: bool, skippable: bool, conditional: bool, shared: bool, bare: bool,
                       reached: bool, skipReached: bool)

  type Grammar = seq<Elem>

  datatype Op =
    | Match(cond: bool, jump: bool, act: bool, skip: bool)
    | MatchAny(cond: bool, act: bool)
    | Tag(tag: nat, e: nat)
    | Jump(e: nat)
    | End(kind: Kind, act: bool)
    | Back(entry: nat)
    | Action(e: nat)
    | Act
    | CondFail
    | Return
    | Complete

  const NONE := -1

  /** Rendering comes to the element; `s` says that the tag in force makes it skippable. */
  predicate Live(g: Grammar, e: nat, s: bool) { e < |g| && if s then g[e].skipReached else g[e].reached }

  predicate AllLive(g: Grammar, es: seq<nat>) {
    forall k {:trigger Live(g, es[k], false)} :: 0 <= k < |es| ==> Live(g, es[k], false)
  }

  /** Rendering comes to what the element contains. */
  predicate BodyLive(g: Grammar, e: nat) { e < |g| && AllLive(g, g[e].children) }

  /** The element can have an out-of-line body. */
  predicate Deferrable(g: Grammar, e: nat) { BodyLive(g, e) && Listlike(g[e].kind) }

  /** From a live element rendering comes to live elements only, and the kinds with one child have it. */
  ghost predicate WellFormed(g: Grammar) { forall e: nat, s :: Live(g, e, s) ==> Leads(g, e, s) }

  predicate Leads(g: Grammar, e: nat, s: bool)
    requires e < |g|
  {
    match g[e].kind
    case TagOverride => |g[e].children| >= 1 && Live(g, g[e].children[0], g[e].skippable)
    case TypeRef => Live(g, g[e].target, g[e].bare && s)
    case SeqOf => |g[e].children| >= 1 && BodyLive(g, e)
    case SetOf => |g[e].children| >= 1 && BodyLive(g, e)
    case SeqKind => BodyLive(g, e)
    case Choice => BodyLive(g, e)
    case _ => true
  }

  predicate IsTag(g: Grammar, tag: int) { tag == NONE || 0 <= tag < |g| }

  predicate TagSkips(g: Grammar, tag: int)
    requires IsTag(g, tag)
  {
    tag != NONE && g[tag].skippable
  }

  predicate Skippable(g: Grammar, e: nat, skips: bool)
    requires e < |g|
  {
    g[e].skippable || skips
  }

  predicate OutOfLine(g: Grammar, e: nat, skips: bool)
    requires e < |g|
  {
    g[e].shared || Skippable(g, e, skips)
  }

  /**
   The inline expansion of every live element is finite: `rank` decreases along everything that is
   rendered in place.  The second argument says whether the tag in force makes the element skippable.
   */
  ghost predicate Finite(g: Grammar, rank: (nat, bool) -> nat)
    requires WellFormed(g)
  {
    forall e: nat, s :: Live(g, e, s) ==> FiniteAt(g, rank, e, s)
  }

  ghost predicate FiniteAt(g: Grammar, rank: (nat, bool) -> nat, e: nat, s: bool)
    requires WellFormed(g) && Live(g, e, s)
  {
    assert Leads(g, e, s);
    match g[e].kind
    case TagOverride => rank(g[e].children[0], g[e].skippable) < rank(e, s)
    case TypeRef => rank(g[e].target, g[e].bare && s) < rank(e, s)
    case Choice => Below(g[e].children, rank, rank(e, s))
    case SeqKind => OutOfLine(g, e, s) || Below(g[e].children, rank, rank(e, s))
    case SeqOf => OutOfLine(g, e, s) || rank(g[e].children[0], false) < rank(e, s)
    case SetOf => OutOfLine(g, e, s) || rank(g[e].children[0], false) < rank(e, s)
    case _ => true
  }

  ghost predicate Below(es: seq<nat>, rank: (nat, bool) -> nat, bound: nat) {
    forall k :: 0 <= k < |es| ==> rank(es[k], false) < bound
  }

  /** The opcodes so far, the elements marked as rendered, and those waiting for their bodies. */
  datatype State = State(ops: seq<Op>, rendered: set<nat>, queue: seq<nat>)

  function Emit(st: State, op: Op): State { st.(ops := st.ops + [op]) }

  function EmitIf(c: bool, st: State, op: Op): State { if c then Emit(st, op) else st }

  /** Jump to the out-of-line body, and queue it unless that has been done. */
  function Defer(st: State, e: nat): State {
    var st1 := Emit(st, Jump(e));
    if e in st.rendered then st1 else State(st1.ops, st.rendered + {e}, st.queue + [e])
  }

  /** Elements that carry a match opcode and a tag of their own. */
  predicate Tagged(el: Elem) {
    !(el.kind.AnyKind? || el.kind.Choice? || (el.kind.TypeRef? && el.bare))
  }

  predicate Listlike(k: Kind) { k.SeqKind? || k.SeqOf? || k.SetOf? }

  /** The match opcode and the tag of an element. */
  function Head(g: Grammar, e: nat, tag: int, st: State): State
    requires e < |g| && IsTag(g, tag)
  {
    var el := g[e];
    var cond := el.conditional || (tag != NONE && g[tag].conditional);
    var skip := Skippable(g, e, TagSkips(g, tag));
    if el.kind.AnyKind? then Emit(st, MatchAny(cond, el.action))
    else if !Tagged(el) then st
    else
      var m := if Listlike(el.kind) then Match(cond, OutOfLine(g, e, TagSkips(g, tag)), false, skip)
               else Match(cond, false, el.action, skip);
      Emit(Emit(st, m), Tag(if tag == NONE then e else tag, e))
  }

  /** The first and the second opcode that may follow what an element contains. */
  function Tail1(g: Grammar, e: nat, skips: bool): (bool, Op)
    requires e < |g|
  {
    if Listlike(g[e].kind) then (true, End(g[e].kind, g[e].action))
    else (g[e].kind.Choice? && !Skippable(g, e, skips), CondFail)
  }

  function Tail2(g: Grammar, e: nat, entry: nat): (bool, Op)
    requires e < |g|
  {
    if g[e].kind.SeqOf? || g[e].kind.SetOf? then (true, Back(entry))
    else ((g[e].kind.TypeRef? || g[e].kind.Choice?) && g[e].action, Act)
  }

  /** The opcodes that follow what an element contains, with its action last. */
  function Tail(g: Grammar, e: nat, skips: bool, entry: nat, st: State): State
    requires e < |g|
  {
    var (a, p) := Tail1(g, e, skips);
    var (b, q) := Tail2(g, e, entry);
    EmitIf(g[e].action, EmitIf(b, EmitIf(a, st, p), q), Action(e))
  }

  ghost function Render(g: Grammar, rank: (nat, bool) -> nat, e: nat, tag: int, st: State): State
    requires WellFormed(g) && Finite(g, rank) && IsTag(g, tag) && Live(g, e, TagSkips(g, tag))
    decreases rank(e, TagSkips(g, tag)), 1, 0
  {
    var el, skips := g[e], TagSkips(g, tag);
    assert FiniteAt(g, rank, e, skips) && Leads(g, e, skips);
    if el.kind.TagOverride? then Render(g, rank, el.children[0], e, st) else
    var st1 := Head(g, e, tag, st);
    if Listlike(el.kind) && OutOfLine(g, e, skips) then Defer(st1, e)
    else Tail(g, e, skips, |st1.ops|, Content(g, rank, e, tag, st1))
  }

  /** What an element contains, rendered in place. */
  ghost function Content(g: Grammar, rank: (nat, bool) -> nat, e: nat, tag: int, st: State): State
    requires WellFormed(g) && Finite(g, rank) && IsTag(g, tag) && Live(g, e, TagSkips(g, tag))
    requires !g[e].kind.TagOverride? && !(Listlike(g[e].kind) && OutOfLine(g, e, TagSkips(g, tag)))
    decreases rank(e, TagSkips(g, tag)), 0, |g[e].children| + 1
  {
    var el := g[e];
    assert FiniteAt(g, rank, e, TagSkips(g, tag)) && Leads(g, e, TagSkips(g, tag));
    match el.kind
    case TypeRef => Render(g, rank, el.target, if Tagged(el) then NONE else tag, st)
    case SeqKind => RenderAll(g, rank, el.children, st, rank(e, TagSkips(g, tag)))
    case Choice => RenderAll(g, rank, el.children, st, rank(e, TagSkips(g, tag)))
    case SeqOf => Render(g, rank, el.children[0], NONE, st)
    case SetOf => Render(g, rank, el.children[0], NONE, st)
    case _ => st
  }

  ghost function RenderAll(g: Grammar, rank: (nat, bool) -> nat, es: seq<nat>, st: State, bound: nat): State
    requires WellFormed(g) && Finite(g, rank) && AllLive(g, es) && Below(es, rank, bound)
    decreases bound, 0, |es|
  {
    if es == [] then st
    else
      var n := |es| - 1;
      Render(g, rank, es[n], NONE, RenderAll(g, rank, es[..n], st, bound))
  }

  lemma RenderAllNext(g: Grammar, rank: (nat, bool) -> nat, es: seq<nat>, st: State, bound: nat, i: nat)
    requires WellFormed(g) && Finite(g, rank) && AllLive(g, es) && Below(es, rank, bound)
    requires i < |es|
    ensures Below(es[..i], rank, bound) && Below(es[..i + 1], rank, bound)
    ensures RenderAll(g, rank, es[..i + 1], st, bound) ==
              Render(g, rank, es[i], NONE, RenderAll(g, rank, es[..i], st, bound))
  {
    assert es[..i + 1][..i] == es[..i] && es[..i + 1][i] == es[i];
  }

  /** A bound on the ranks of some elements. */
  ghost function Bound(es: seq<nat>, rank: (nat, bool) -> nat): (b: nat)
    ensures Below(es, rank, b)
  {
    if es == [] then 0 else
    var n := |es| - 1;
    var b, r := Bound(es[..n], rank), rank(es[n], false);
    assert forall k :: 0 <= k < n ==> es[..n][k] == es[k];
    if r < b then b else r + 1
  }

  /** The out-of-line body of an element. */
  ghost function Body(g: Grammar, rank: (nat, bool) -> nat, e: nat, st: State): State
    requires WellFormed(g) && Finite(g, rank) && BodyLive(g, e)
  {
    var el := g[e];
    var st1 := RenderAll(g, rank, el.children, st, Bound(el.children, rank));
    var st2 := EmitIf(Listlike(el.kind), st1, End(el.kind, el.action));
    var st3 := EmitIf(el.kind.SeqOf? || el.kind.SetOf?, st2, Back(|st.ops|));
    Emit(EmitIf(el.action, st3, Action(e)), Return)
  }

  // ----- the queue of out-of-line bodies -----

  /** Elements are queued once: the marked ones are those waiting and those already done. */
  predicate Orderly(g: Grammar, st: State, done: set<nat>) {
    NoDup(st.queue) && done <= st.rendered &&
    (forall i :: 0 <= i < |st.queue| ==> st.queue[i] in st.rendered && st.queue[i] !in done) &&
    (forall x :: x in st.rendered ==> Deferrable(g, x) && (x in done || x in st.queue)) &&
    (forall i :: 0 <= i < |st.ops| && st.ops[i].Jump? ==> st.ops[i].e in st.rendered)
  }

  function Ids(n: nat): (s: set<nat>)
    ensures |s| == n && forall x: nat :: x in s <==> x < n
  {
    if n == 0 then {} else Ids(n - 1) + {n - 1}
  }

  /** The bodies still to be rendered: those queued and those not yet met. */
  function Work(g: Grammar, st: State): nat { |Ids(|g|) - st.rendered| + |st.queue| }

  /** What every piece of rendering does to the state. */
  predicate Grew(g: Grammar, st: State, st': State, done: set<nat>) {
    st.ops <= st'.ops && st.queue <= st'.queue && st.rendered <= st'.rendered &&
    (Orderly(g, st, done) ==> Orderly(g, st', done) && Work(g, st') == Work(g, st))
  }

  lemma EmitGrew(g: Grammar, st: State, op: Op, done: set<nat>)
    requires !op.Jump?
    ensures Grew(g, st, Emit(st, op), done)
  {
  }

  /** What is queued is no longer to be met. */
  lemma DeferWork(g: Grammar, st: State, e: nat)
    requires e < |g| && e !in st.rendered
    ensures Work(g, Defer(st, e)) == Work(g, st)
  {
    assert Ids(|g|) - Defer(st, e).rendered == (Ids(|g|) - st.rendered) - {e};
    assert e in Ids(|g|) - st.rendered;
  }

  lemma DeferGrew(g: Grammar, st: State, e: nat, done: set<nat>)
    requires Deferrable(g, e)
    ensures Grew(g, st, Defer(st, e), done)
  {
    if Orderly(g, st, done) && e !in st.rendered {
      var st' := Defer(st, e);
      DeferWork(g, st, e);
      forall x | x in st'.rendered ensures Deferrable(g, x) && (x in done || x in st'.queue) {
        if x == e {
          assert st'.queue[|st.queue|] == e;
        } else if x !in done {
          var k :| 0 <= k < |st.queue| && st.queue[k] == x;
          assert st'.queue[k] == x;
        }
      }
    }
  }

  lemma GrewEmits(g: Grammar, st: State, st1: State, a: bool, p: Op, b: bool, q: Op, c: bool, r: Op, done: set<nat>)
    requires Grew(g, st, st1, done) && !p.Jump? && !q.Jump? && !r.Jump?
    ensures Grew(g, st, EmitIf(c, EmitIf(b, EmitIf(a, st1, p), q), r), done)
  {
    GrewEmit(g, st, st1, a, p, done);
    GrewEmit(g, st, EmitIf(a, st1, p), b, q, done);
    GrewEmit(g, st, EmitIf(b, EmitIf(a, st1, p), q), c, r, done);
  }

  lemma GrewEmit(g: Grammar, st: State, st1: State, a: bool, p: Op, done: set<nat>)
    requires Grew(g, st, st1, done) && !p.Jump?
    ensures Grew(g, st, EmitIf(a, st1, p), done)
  {
  }

  lemma HeadGrew(g: Grammar, e: nat, tag: int, st: State, done: set<nat>)
    requires e < |g| && IsTag(g, tag)
    ensures Grew(g, st, Head(g, e, tag, st), done)
  {
  }

  lemma TailGrew(g: Grammar, e: nat, skips: bool, entry: nat, st: State, st1: State, done: set<nat>)
    requires e < |g| && Grew(g, st, st1, done)
    ensures Grew(g, st, Tail(g, e, skips, entry, st1), done)
  {
    var (a, p) := Tail1(g, e, skips);
    var (b, q) := Tail2(g, e, entry);
    GrewEmits(g, st, st1, a, p, b, q, g[e].action, Action(e), done);
  }

  lemma {:induction false} RenderGrew(g: Grammar, rank: (nat, bool) -> nat, e: nat, tag: int, st: State, done: set<nat>)
    requires WellFormed(g) && Finite(g, rank) && IsTag(g, tag) && Live(g, e, TagSkips(g, tag))
    ensures Grew(g, st, Render(g, rank, e, tag, st), done)
    decreases rank(e, TagSkips(g, tag)), 1, 0
  {
    var el, skips := g[e], TagSkips(g, tag);
    assert FiniteAt(g, rank, e, skips) && Leads(g, e, skips);
    if el.kind.TagOverride? {
      RenderGrew(g, rank, el.children[0], e, st, done);
    } else if Listlike(el.kind) && OutOfLine(g, e, skips) {
      HeadGrew(g, e, tag, st, done);
      DeferGrew(g, Head(g, e, tag, st), e, done);
    } else {
      ContentGrew(g, rank, e, tag, st, done);
      TailGrew(g, e, skips, |Head(g, e, tag, st).ops|, st, Content(g, rank, e, tag, Head(g, e, tag, st)), done);
    }
  }

  lemma {:induction false} ContentGrew(g: Grammar, rank: (nat, bool) -> nat, e: nat, tag: int, st: State,
                                       done: set<nat>)
    requires WellFormed(g) && Finite(g, rank) && IsTag(g, tag) && Live(g, e, TagSkips(g, tag))
    requires !g[e].kind.TagOverride? && !(Listlike(g[e].kind) && OutOfLine(g, e, TagSkips(g, tag)))
    ensures Grew(g, st, Content(g, rank, e, tag, Head(g, e, tag, st)), done)
    ensures Head(g, e, tag, st).ops <= Content(g, rank, e, tag, Head(g, e, tag, st)).ops
    decreases rank(e, TagSkips(g, tag)), 0, |g[e].children| + 1
  {
    var el, st1 := g[e], Head(g, e, tag, st);
    assert FiniteAt(g, rank, e, TagSkips(g, tag)) && Leads(g, e, TagSkips(g, tag));
    HeadGrew(g, e, tag, st, done);
    match el.kind
    case TypeRef => RenderGrew(g, rank, el.target, if Tagged(el) then NONE else tag, st1, done);
    case SeqKind => RenderAllGrew(g, rank, el.children, st1, rank(e, TagSkips(g, tag)), done);
    case Choice => RenderAllGrew(g, rank, el.children, st1, rank(e, TagSkips(g, tag)), done);
    case SeqOf => RenderGrew(g, rank, el.children[0], NONE, st1, done);
    case SetOf => RenderGrew(g, rank, el.children[0], NONE, st1, done);
    case _ =>
  }

  lemma {:induction false} RenderAllGrew(g: Grammar, rank: (nat, bool) -> nat, es: seq<nat>, st: State, bound: nat,
                                         done: set<nat>)
    requires WellFormed(g) && Finite(g, rank) && AllLive(g, es) && Below(es, rank, bound)
    ensures Grew(g, st, RenderAll(g, rank, es, st, bound), done)
    decreases bound, 0, |es|
  {
    if es != [] {
      var n := |es| - 1;
      RenderAllGrew(g, rank, es[..n], st, bound, done);
      RenderGrew(g, rank, es[n], NONE, RenderAll(g, rank, es[..n], st, bound), done);
    }
  }

  lemma {:induction false} BodyGrew(g: Grammar, rank: (nat, bool) -> nat, e: nat, st: State, done: set<nat>)
    requires WellFormed(g) && Finite(g, rank) && BodyLive(g, e)
    ensures Grew(g, st, Body(g, rank, e, st), done)
  {
    var el, bound := g[e], Bound(g[e].children, rank);
    RenderAllGrew(g, rank, el.children, st, bound, done);
    var st1 := RenderAll(g, rank, el.children, st, bound);
    var end, back := End(el.kind, el.action), Back(|st.ops|);
    GrewEmits(g, st, st1, Listlike(el.kind), end, el.kind.SeqOf? || el.kind.SetOf?, back, el.action, Action(e), done);
    var st3 := EmitIf(el.kind.SeqOf? || el.kind.SetOf?, EmitIf(Listlike(el.kind), st1, end), back);
    GrewEmit(g, st, EmitIf(el.action, st3, Action(e)), true, Return, done);
  }

  // ----- a whole pass -----

  /** All opcodes, where each out-of-line body starts, and what followed it in the queue when it was taken. */
  datatype Result = Result(ops: seq<Op>, starts: map<nat, nat>, nexts: map<nat, int>)

  function Popped(st: State): State
    requires st.queue != []
  {
    st.(queue := st.queue[1..])
  }

  lemma PopOrderly(g: Grammar, st: State, done: set<nat>)
    requires Orderly(g, st, done) && st.queue != []
    ensures Orderly(g, Popped(st), done + {st.queue[0]}) && Work(g, Popped(st)) + 1 == Work(g, st)
  {
    var q := st.queue;
    forall x | x in st.rendered ensures x in done + {q[0]} || x in q[1..] {
      if x !in done && x != q[0] {
        var k :| 0 <= k < |q| && q[k] == x;
        assert q[1..][k - 1] == x;
      }
    }
  }

  /** Take the waiting elements one after the other and render their bodies. */
  ghost function Drain(g: Grammar, rank: (nat, bool) -> nat, st: State, starts: map<nat, nat>,
                       nexts: map<nat, int>): Result
    requires WellFormed(g) && Finite(g, rank) && Orderly(g, st, starts.Keys)
    decreases Work(g, st)
  {
    if st.queue == [] then Result(st.ops, starts, nexts) else
    var e := st.queue[0];
    PopOrderly(g, st, starts.Keys);
    BodyGrew(g, rank, e, Popped(st), starts.Keys + {e});
    assert starts[e := |st.ops|].Keys == starts.Keys + {e};
    Drain(g, rank, Body(g, rank, e, Popped(st)), starts[e := |st.ops|], nexts[e := NextOf(st.queue)])
  }

  function NextOf(q: seq<nat>): int { if |q| > 1 then q[1] else NONE }

  ghost function FirstState(g: Grammar, rank: (nat, bool) -> nat): State
    requires WellFormed(g) && Finite(g, rank) && Live(g, 0, false)
  {
    Emit(Render(g, rank, 0, NONE, State([], {}, [])), Complete)
  }

  lemma FirstOrderly(g: Grammar, rank: (nat, bool) -> nat)
    requires WellFormed(g) && Finite(g, rank) && Live(g, 0, false)
    ensures Orderly(g, FirstState(g, rank), {})
  {
    RenderGrew(g, rank, 0, NONE, State([], {}, []), {});
    EmitGrew(g, Render(g, rank, 0, NONE, State([], {}, [])), Complete, {});
  }

  /** A pass: the root element, the final opcode, and then all out-of-line bodies. */
  ghost function Pass(g: Grammar, rank: (nat, bool) -> nat): Result
    requires WellFormed(g) && Finite(g, rank) && Live(g, 0, false)
  {
    FirstOrderly(g, rank);
    var none: map<nat, nat> := map[];
    assert none.Keys == {};
    Drain(g, rank, FirstState(g, rank), none, map[])
  }

  /** One round: the state it leads to, and that the rest of the pass goes on from there. */
  lemma DrainStep(g: Grammar, rank: (nat, bool) -> nat, st: State, starts: map<nat, nat>, nexts: map<nat, int>)
    requires WellFormed(g) && Finite(g, rank) && Orderly(g, st, starts.Keys) && st.queue != []
    ensures var e := st.queue[0];
            Deferrable(g, e) && e !in starts &&
            var st', starts', nexts' := Body(g, rank, e, Popped(st)), starts[e := |st.ops|],
                nexts[e := NextOf(st.queue)];
            && Orderly(g, st', starts'.Keys) && Work(g, st') < Work(g, st) && st.ops <= st'.ops
            && Drain(g, rank, st, starts, nexts) == Drain(g, rank, st', starts', nexts')
  {
    var e := st.queue[0];
    PopOrderly(g, st, starts.Keys);
    BodyGrew(g, rank, e, Popped(st), starts.Keys + {e});
    assert starts[e := |st.ops|].Keys == starts.Keys + {e};
  }

  /** What has been settled before stays. */
  lemma {:induction false} DrainKeeps(g: Grammar, rank: (nat, bool) -> nat, st: State, starts: map<nat, nat>,
                                      nexts: map<nat, int>)
    requires WellFormed(g) && Finite(g, rank) && Orderly(g, st, starts.Keys) && nexts.Keys == starts.Keys
    ensures var r := Drain(g, rank, st, starts, nexts);
            && st.ops <= r.ops && r.nexts.Keys == r.starts.Keys
            && KeptIn(starts, r.starts) && KeptIn(nexts, r.nexts)
    decreases Work(g, st)
  {
    if st.queue != [] {
      var e := st.queue[0];
      DrainStep(g, rank, st, starts, nexts);
      DrainKeeps(g, rank, Body(g, rank, e, Popped(st)), starts[e := |st.ops|], nexts[e := NextOf(st.queue)]);
      var r := Drain(g, rank, st, starts, nexts);
      KeptBefore(starts, e, |st.ops|, r.starts);
      KeptBefore(nexts, e, NextOf(st.queue), r.nexts);
    }
  }

  predicate KeptIn<V(==)>(m: map<nat, V>, r: map<nat, V>) { forall e :: e in m ==> e in r && r[e] == m[e] }

  lemma KeptBefore<V>(m: map<nat, V>, e: nat, v: V, r: map<nat, V>)
    requires e !in m && KeptIn(m[e := v], r)
    ensures KeptIn(m, r) && e in r && r[e] == v
  {
    assert e in m[e := v];
  }

  /** The first element of the queue gets its body next. */
  lemma DrainFirst(g: Grammar, rank: (nat, bool) -> nat, st: State, starts: map<nat, nat>, nexts: map<nat, int>)
    requires WellFormed(g) && Finite(g, rank) && Orderly(g, st, starts.Keys) && nexts.Keys == starts.Keys
    requires st.queue != []
    ensures var r, e := Drain(g, rank, st, starts, nexts), st.queue[0];
            && Deferrable(g, e) && e !in starts && e in r.starts && r.starts[e] == |st.ops|
            && e in r.nexts && r.nexts[e] == NextOf(st.queue)
  {
    var e := st.queue[0];
    DrainStep(g, rank, st, starts, nexts);
    var st', starts', nexts' := Body(g, rank, e, Popped(st)), starts[e := |st.ops|], nexts[e := NextOf(st.queue)];
    DrainKeeps(g, rank, st', starts', nexts');
    var r := Drain(g, rank, st', starts', nexts');
    KeptBefore(starts, e, |st.ops|, r.starts);
    KeptBefore(nexts, e, NextOf(st.queue), r.nexts);
  }

  /** Every element that is jumped to gets a body. */
  lemma {:induction false} DrainCovers(g: Grammar, rank: (nat, bool) -> nat, st: State, starts: map<nat, nat>,
                                       nexts: map<nat, int>)
    requires WellFormed(g) && Finite(g, rank) && Orderly(g, st, starts.Keys)
    ensures var r := Drain(g, rank, st, starts, nexts);
            forall i :: 0 <= i < |r.ops| && r.ops[i].Jump? ==> r.ops[i].e in r.starts
    decreases Work(g, st)
  {
    if st.queue != [] {
      var e := st.queue[0];
      DrainStep(g, rank, st, starts, nexts);
      DrainCovers(g, rank, Body(g, rank, e, Popped(st)), starts[e := |st.ops|], nexts[e := NextOf(st.queue)]);
    } else {
      forall i | 0 <= i < |st.ops| && st.ops[i].Jump? ensures st.ops[i].e in starts {
        assert st.ops[i].e in st.rendered;
      }
    }
  }
}
