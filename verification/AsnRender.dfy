/**
 The two passes of the ASN.1 compiler's back end as the program runs them: one set of
 element fields that both passes share, and a work queue linked through the elements
 whose links are not cleared between the passes.
 */
module AsnRender {
  import opened AsnGrammar
  import opened AsnLayout

  /** A printed opcode with its number, if it has one. */
  datatype Item = Item(op: Op, arg: nat)

  /** The number printed with an opcode, given the entry indices. */
  function Arg(op: Op, entry: seq<nat>): nat {
    match op
    case Jump(e) => if e < |entry| then entry[e] else 0
    case Back(k) => k
    case _ => 0
  }

  function Printed(ops: seq<Op>, entry: seq<nat>): seq<Item> {
    seq(|ops|, i requires 0 <= i < |ops| => Item(ops[i], Arg(ops[i], entry)))
  }

  lemma PrintedSnoc(ops: seq<Op>, op: Op, entry: seq<nat>)
    ensures Printed(ops + [op], entry) == Printed(ops, entry) + [Item(op, Arg(op, entry))]
  {
  }

  /** Entry indices known so far, and in the writing pass those of the whole pass. */
  predicate Indexed(entry: seq<nat>, writing: bool, starts: map<nat, nat>, r: Result) {
    (forall e :: e in starts ==> e < |entry| && entry[e] == starts[e]) &&
    (writing ==> forall e :: e in r.starts ==> e < |entry| && entry[e] == r.starts[e])
  }

  function Ops(out: seq<Item>): seq<Op> { seq(|out|, i requires 0 <= i < |out| => out[i].op) }

  /** The number of a jump is where the body of its element starts, that of a jump back where its loop does. */
  ghost predicate Resolves(g: Grammar, rank: (nat, bool) -> nat, es: seq<nat>, out: seq<Item>, i: nat)
    requires WellFormed(g) && Finite(g, rank) && i < |out|
  {
    (out[i].op.Jump? ==> out[i].op.e in es && BodyAt(g, rank, Ops(out), out[i].op.e, out[i].arg)) &&
    (out[i].op.Back? ==> exists x: nat :: LoopOf(g, rank, Ops(out), out[i].arg, i, x))
  }

  /** Printed with the entry indices of the pass itself, a pass is a program whose numbers are right. */
  lemma Resolved(g: Grammar, rank: (nat, bool) -> nat, out: seq<Item>, entry: seq<nat>) returns (es: seq<nat>)
    requires WellFormed(g) && Finite(g, rank) && Live(g, 0, false)
    requires var r := Pass(g, rank); out == Printed(r.ops, entry) && Indexed(entry, true, r.starts, r)
    ensures Ops(out) == Pass(g, rank).ops && Program(g, rank, es, Ops(out))
    ensures forall i {:trigger Resolves(g, rank, es, out, i)} :: 0 <= i < |out| ==> Resolves(g, rank, es, out, i)
  {
    var r := Pass(g, rank);
    es := PassJumps(g, rank);
    assert Ops(out) == r.ops;
    forall i | 0 <= i < |out| ensures Resolves(g, rank, es, out, i) {
      if r.ops[i].Back? {
        var x := ProgramLoops(g, rank, es, r.ops, i);
      }
    }
  }

  /** Nothing printed, nothing marked, nothing waiting. */
  const EMPTY := State([], {}, [])

  class Renderer {
    const g: Grammar

    // fields of the elements
    const entryIndex: array<nat>
    const rendered: array<bool>
    const renderNext: array<int>

    // globals
    var nrEntries: nat
    var renderList: int
    var renderListP: int      // NONE: the list head, otherwise the link of that element
    var out: seq<Item>

    ghost predicate Shape()
      reads this
    {
      entryIndex.Length == |g| && rendered.Length == |g| && renderNext.Length == |g| &&
      rendered as object != entryIndex && rendered as object != renderNext && entryIndex as object != renderNext
    }

    /** The linked queue holds `q`; the link of its last element may still be one of an earlier pass. */
    ghost predicate Queued(q: seq<nat>)
      requires Shape()
      reads this, renderNext
    {
      (forall i :: 0 <= i < |q| ==> q[i] < |g|) &&
      renderList == (if q == [] then NONE else q[0]) &&
      renderListP == (if q == [] then NONE else q[|q| - 1]) &&
      forall i :: 0 <= i < |q| - 1 ==> renderNext[q[i]] == q[i + 1]
    }

    /** Links of elements that are done are final; links of the last one and of those not yet met are
        empty, or what they will have been at the end of this pass (`final`). */
    ghost predicate Links(st: State, nexts: map<nat, int>, final: map<nat, int>)
      requires Shape()
      reads this, renderNext
    {
      (forall e :: e in nexts ==> e < |g| && renderNext[e] == nexts[e]) &&
      forall e :: 0 <= e < |g| && e !in nexts &&
                  (e !in st.rendered || (st.queue != [] && e == st.queue[|st.queue| - 1])) ==>
        renderNext[e] == NONE || (e in final && renderNext[e] == final[e])
    }

    /** The fields represent the state of the pass; the printed text resolves its jumps with `entry`. */
    ghost predicate Rep(writing: bool, st: State, nexts: map<nat, int>, final: map<nat, int>)
      reads this, entryIndex, rendered, renderNext
    {
      Shape() && nrEntries == |st.ops| && Queued(st.queue) && Links(st, nexts, final) &&
      (forall e :: 0 <= e < |g| ==> (rendered[e] <==> e in st.rendered)) &&
      Orderly(g, st, nexts.Keys) &&
      out == if writing then Printed(st.ops, entryIndex[..]) else []
    }

    method Opcode(writing: bool, op: Op, ghost st: State, ghost nexts: map<nat, int>, ghost final: map<nat, int>)
      requires Rep(writing, st, nexts, final) && !op.Jump?
      modifies this`nrEntries, this`out
      ensures Rep(writing, Emit(st, op), nexts, final)
    {
      PrintedSnoc(st.ops, op, entryIndex[..]);
      EmitGrew(g, st, op, nexts.Keys);
      if writing {
        out := out + [Item(op, match op case Back(k) => k case _ => 0)];
      }
      nrEntries := nrEntries + 1;
    }

    /** Append an element to the linked queue. */
    method Enqueue(e: nat, ghost st: State, ghost nexts: map<nat, int>, ghost final: map<nat, int>)
      requires Shape() && Queued(st.queue) && Links(st, nexts, final) && Orderly(g, st, nexts.Keys)
      requires e < |g| && e !in st.rendered
      modifies this`renderList, this`renderListP, renderNext
      ensures Queued(st.queue + [e]) && Links(State(st.ops, st.rendered + {e}, st.queue + [e]), nexts, final)
    {
      if renderListP == NONE {
        renderList := e;
      } else {
        assert renderListP in st.rendered && renderListP !in nexts.Keys;
        renderNext[renderListP] := e;
      }
      renderListP := e;
    }

    method WriteJump(writing: bool, e: nat, ghost ops: seq<Op>)
      requires Shape() && e < |g| && nrEntries == |ops| && out == if writing then Printed(ops, entryIndex[..]) else []
      modifies this`nrEntries, this`out
      ensures nrEntries == |ops + [Jump(e)]| && out == if writing then Printed(ops + [Jump(e)], entryIndex[..]) else []
    {
      PrintedSnoc(ops, Jump(e), entryIndex[..]);
      if writing {
        out := out + [Item(Jump(e), entryIndex[e])];
      }
      nrEntries := nrEntries + 1;
    }

    /** Mark an element and queue it, if it is met for the first time. */
    method MarkElement(e: nat, ghost st: State, ghost nexts: map<nat, int>, ghost final: map<nat, int>)
      requires Shape() && Queued(st.queue) && Links(st, nexts, final) && Orderly(g, st, nexts.Keys)
      requires forall x :: 0 <= x < |g| ==> (rendered[x] <==> x in st.rendered)
      requires e < |g|
      modifies this`renderList, this`renderListP, renderNext, rendered
      ensures Queued(Defer(st, e).queue) && Links(Defer(st, e), nexts, final)
      ensures forall x :: 0 <= x < |g| ==> (rendered[x] <==> x in Defer(st, e).rendered)
    {
      if !rendered[e] {
        rendered[e] := true;
        Enqueue(e, st, nexts, final);
      }
    }

    /** Write the jump, mark the element and queue it unless that has been done. */
    method DeferElement(writing: bool, e: nat, ghost st: State, ghost nexts: map<nat, int>, ghost final: map<nat, int>)
      requires Rep(writing, st, nexts, final) && Deferrable(g, e)
      modifies this`nrEntries, this`out, this`renderList, this`renderListP, rendered, renderNext
      ensures Rep(writing, Defer(st, e), nexts, final)
    {
      WriteJump(writing, e, st.ops);
      MarkElement(e, st, nexts, final);
      DeferGrew(g, st, e, nexts.Keys);
    }

    /** The match opcode and the tag. */
    method RenderHead(writing: bool, e: nat, tag: int, ghost st: State, ghost nexts: map<nat, int>,
                      ghost final: map<nat, int>)
      requires Rep(writing, st, nexts, final) && e < |g| && IsTag(g, tag)
      modifies this`nrEntries, this`out
      ensures Rep(writing, Head(g, e, tag, st), nexts, final)
    {
      var el := g[e];
      var cond := el.conditional || (tag != NONE && g[tag].conditional);
      var skip := Skippable(g, e, TagSkips(g, tag));
      if el.kind.AnyKind? {
        Opcode(writing, MatchAny(cond, el.action), st, nexts, final);
      } else if Tagged(el) {
        var m := if Listlike(el.kind) then Match(cond, OutOfLine(g, e, TagSkips(g, tag)), false, skip)
                 else Match(cond, false, el.action, skip);
        Opcode(writing, m, st, nexts, final);
        Opcode(writing, Tag(if tag == NONE then e else tag, e), Emit(st, m), nexts, final);
      }
    }

    method OpcodeIf(c: bool, writing: bool, op: Op, ghost st: State, ghost nexts: map<nat, int>,
                    ghost final: map<nat, int>)
      requires Rep(writing, st, nexts, final) && !op.Jump?
      modifies this`nrEntries, this`out
      ensures Rep(writing, EmitIf(c, st, op), nexts, final)
    {
      if c {
        Opcode(writing, op, st, nexts, final);
      }
    }

    /** The opcodes after the content. */
    method RenderTail(writing: bool, e: nat, skips: bool, entry: nat, ghost st: State, ghost nexts: map<nat, int>,
                      ghost final: map<nat, int>)
      requires Rep(writing, st, nexts, final) && e < |g|
      modifies this`nrEntries, this`out
      ensures Rep(writing, Tail(g, e, skips, entry, st), nexts, final)
    {
      var (a, p) := Tail1(g, e, skips);
      var (b, q) := Tail2(g, e, entry);
      OpcodeIf(a, writing, p, st, nexts, final);
      OpcodeIf(b, writing, q, EmitIf(a, st, p), nexts, final);
      OpcodeIf(g[e].action, writing, Action(e), EmitIf(b, EmitIf(a, st, p), q), nexts, final);
    }

    /** `render_element`. */
    method RenderElement(writing: bool, e: nat, tag: int,
                         ghost rank: (nat, bool) -> nat, ghost st: State, ghost nexts: map<nat, int>,
                         ghost final: map<nat, int>)
      requires Rep(writing, st, nexts, final) && WellFormed(g) && Finite(g, rank) && IsTag(g, tag)
      requires Live(g, e, TagSkips(g, tag))
      modifies this`nrEntries, this`out, this`renderList, this`renderListP, rendered, renderNext
      ensures Rep(writing, Render(g, rank, e, tag, st), nexts, final)
      decreases rank(e, TagSkips(g, tag)), 1, 0
    {
      assert FiniteAt(g, rank, e, TagSkips(g, tag)) && Leads(g, e, TagSkips(g, tag));
      var el, skips := g[e], TagSkips(g, tag);
      if el.kind.TagOverride? {
        RenderElement(writing, el.children[0], e, rank, st, nexts, final);
        return;
      }
      RenderHead(writing, e, tag, st, nexts, final);
      ghost var st1 := Head(g, e, tag, st);
      if Listlike(el.kind) && OutOfLine(g, e, skips) {
        DeferElement(writing, e, st1, nexts, final);
        return;
      }
      var entry := nrEntries;
      RenderContent(writing, e, tag, rank, st1, nexts, final);
      RenderTail(writing, e, skips, entry, Content(g, rank, e, tag, st1), nexts, final);
    }

    method RenderContent(writing: bool, e: nat, tag: int,
                         ghost rank: (nat, bool) -> nat, ghost st: State, ghost nexts: map<nat, int>,
                         ghost final: map<nat, int>)
      requires Rep(writing, st, nexts, final) && WellFormed(g) && Finite(g, rank) && IsTag(g, tag)
      requires Live(g, e, TagSkips(g, tag))
      requires !g[e].kind.TagOverride? && !(Listlike(g[e].kind) && OutOfLine(g, e, TagSkips(g, tag)))
      modifies this`nrEntries, this`out, this`renderList, this`renderListP, rendered, renderNext
      ensures Rep(writing, Content(g, rank, e, tag, st), nexts, final)
      decreases rank(e, TagSkips(g, tag)), 0, 1
    {
      assert FiniteAt(g, rank, e, TagSkips(g, tag)) && Leads(g, e, TagSkips(g, tag));
      var el := g[e];
      match el.kind
      case TypeRef => RenderElement(writing, el.target, if Tagged(el) then NONE else tag, rank, st, nexts, final);
      case SeqKind => RenderChildren(writing, el.children, rank, rank(e, TagSkips(g, tag)), st, nexts, final);
      case Choice => RenderChildren(writing, el.children, rank, rank(e, TagSkips(g, tag)), st, nexts, final);
      case SeqOf => RenderElement(writing, el.children[0], NONE, rank, st, nexts, final);
      case SetOf => RenderElement(writing, el.children[0], NONE, rank, st, nexts, final);
      case _ =>
    }

    method RenderChildren(writing: bool, es: seq<nat>,
                          ghost rank: (nat, bool) -> nat, ghost bound: nat, ghost st: State,
                          ghost nexts: map<nat, int>, ghost final: map<nat, int>)
      requires Rep(writing, st, nexts, final) && WellFormed(g) && Finite(g, rank)
      requires AllLive(g, es) && Below(es, rank, bound)
      modifies this`nrEntries, this`out, this`renderList, this`renderListP, rendered, renderNext
      ensures Rep(writing, RenderAll(g, rank, es, st, bound), nexts, final)
      decreases bound, 0, 0
    {
      var i := 0;
      assert es[..0] == [];
      while i < |es|
        invariant 0 <= i <= |es| && Below(es[..i], rank, bound)
        invariant Rep(writing, RenderAll(g, rank, es[..i], st, bound), nexts, final)
      {
        RenderAllNext(g, rank, es, st, bound, i);
        RenderElement(writing, es[i], NONE, rank, RenderAll(g, rank, es[..i], st, bound), nexts, final);
        i := i + 1;
      }
      assert es[..i] == es;
    }

    /** The body of an element that has been taken from the queue. */
    method RenderBody(writing: bool, e: nat,
                      ghost rank: (nat, bool) -> nat, ghost st: State, ghost nexts: map<nat, int>,
                      ghost final: map<nat, int>)
      requires Rep(writing, st, nexts, final) && WellFormed(g) && Finite(g, rank) && BodyLive(g, e)
      modifies this`nrEntries, this`out, this`renderList, this`renderListP, rendered, renderNext
      ensures Rep(writing, Body(g, rank, e, st), nexts, final)
    {
      var el, entry := g[e], nrEntries;
      ghost var bound := Bound(el.children, rank);
      RenderChildren(writing, el.children, rank, bound, st, nexts, final);
      ghost var st1 := RenderAll(g, rank, el.children, st, bound);
      OpcodeIf(Listlike(el.kind), writing, End(el.kind, el.action), st1, nexts, final);
      ghost var st2 := EmitIf(Listlike(el.kind), st1, End(el.kind, el.action));
      OpcodeIf(el.kind.SeqOf? || el.kind.SetOf?, writing, Back(entry), st2, nexts, final);
      ghost var st3 := EmitIf(el.kind.SeqOf? || el.kind.SetOf?, st2, Back(entry));
      OpcodeIf(el.action, writing, Action(e), st3, nexts, final);
      Opcode(writing, Return, EmitIf(el.action, st3, Action(e)), nexts, final);
    }

    /** Take the first element of the queue. */
    method PopHead(writing: bool, ghost st: State, ghost nexts: map<nat, int>, ghost final: map<nat, int>)
      returns (e: nat)
      requires Rep(writing, st, nexts, final) && st.queue != [] && renderNext[st.queue[0]] == NextOf(st.queue)
      modifies this`renderList, this`renderListP
      ensures e == st.queue[0] && Rep(writing, Popped(st), nexts[e := NextOf(st.queue)], final)
    {
      PopOrderly(g, st, nexts.Keys);
      e := Unlink(st, nexts, final);
      assert nexts[e := NextOf(st.queue)].Keys == nexts.Keys + {e};
    }

    /** Record where the body of an element starts; in the writing pass the index has that value already. */
    method SetIndex(writing: bool, e: nat, ghost st: State, ghost nexts: map<nat, int>, ghost starts: map<nat, nat>,
                    ghost r: Result)
      requires Rep(writing, st, nexts, r.nexts) && Indexed(entryIndex[..], writing, starts, r)
      requires e < |g| && e in r.starts && r.starts[e] == |st.ops|
      modifies entryIndex
      ensures Rep(writing, st, nexts, r.nexts) && Indexed(entryIndex[..], writing, starts[e := |st.ops|], r)
    {
      ghost var before := entryIndex[..];
      entryIndex[e] := nrEntries;
      assert writing ==> entryIndex[..] == before;
    }

    /** Advance the list head to what the first element links to. */
    method Unlink(ghost st: State, ghost nexts: map<nat, int>, ghost final: map<nat, int>) returns (e: nat)
      requires Shape() && Queued(st.queue) && Links(st, nexts, final) && Orderly(g, st, nexts.Keys) && st.queue != []
      requires renderNext[st.queue[0]] == NextOf(st.queue)
      modifies this`renderList, this`renderListP
      ensures e == st.queue[0] && Queued(Popped(st).queue) && Links(Popped(st), nexts[e := NextOf(st.queue)], final)
    {
      e := renderList;
      renderList := renderNext[e];
      if renderList == NONE {
        renderListP := NONE;
      }
    }

    /** The link of the first element is right, even where it stems from an earlier pass. */
    lemma TakeFacts(rank: (nat, bool) -> nat, st: State, starts: map<nat, nat>, nexts: map<nat, int>, r: Result)
      requires Shape() && Queued(st.queue) && Links(st, nexts, r.nexts)
      requires WellFormed(g) && Finite(g, rank) && Orderly(g, st, nexts.Keys) && st.queue != []
      requires nexts.Keys == starts.Keys && r == Drain(g, rank, st, starts, nexts)
      ensures var e := st.queue[0];
              && e < |g| && e !in nexts && renderNext[e] == NextOf(st.queue)
              && e in r.starts && r.starts[e] == |st.ops|
    {
      DrainFirst(g, rank, st, starts, nexts);
    }

    /** `render_out_of_line_list`: empty the queue. */
    method RenderOutOfLineList(writing: bool, ghost rank: (nat, bool) -> nat, ghost st0: State, ghost r: Result)
      requires WellFormed(g) && Finite(g, rank) && Rep(writing, st0, map[], r.nexts)
      requires var none: map<nat, nat> := map[]; Orderly(g, st0, none.Keys) && r == Drain(g, rank, st0, none, map[])
      requires Indexed(entryIndex[..], writing, map[], r)
      modifies this, entryIndex, rendered, renderNext
      ensures Rep(writing, State(r.ops, r.starts.Keys, []), r.nexts, r.nexts)
      ensures Indexed(entryIndex[..], writing, r.starts, r)
    {
      ghost var st, starts, nexts: map<nat, int> := st0, map[], map[];
      while renderList != NONE
        invariant Rep(writing, st, nexts, r.nexts) && Indexed(entryIndex[..], writing, starts, r)
        invariant nexts.Keys == starts.Keys && Orderly(g, st, starts.Keys) && r == Drain(g, rank, st, starts, nexts)
        decreases Work(g, st)
      {
        st, starts, nexts := RenderNextBody(writing, rank, st, starts, nexts, r);
      }
      assert st.rendered == starts.Keys;
    }

    /** One round: take an element, render its body. */
    method RenderNextBody(writing: bool, ghost rank: (nat, bool) -> nat, ghost st: State,
                          ghost starts: map<nat, nat>, ghost nexts: map<nat, int>, ghost r: Result)
      returns (ghost st': State, ghost starts': map<nat, nat>, ghost nexts': map<nat, int>)
      requires WellFormed(g) && Finite(g, rank) && Rep(writing, st, nexts, r.nexts) && st.queue != []
      requires nexts.Keys == starts.Keys && r == Drain(g, rank, st, starts, nexts)
      requires Indexed(entryIndex[..], writing, starts, r)
      modifies this, entryIndex, rendered, renderNext
      ensures Rep(writing, st', nexts', r.nexts) && Indexed(entryIndex[..], writing, starts', r)
      ensures Work(g, st') < Work(g, st)
      ensures nexts'.Keys == starts'.Keys && Orderly(g, st', starts'.Keys) && r == Drain(g, rank, st', starts', nexts')
    {
      TakeFacts(rank, st, starts, nexts, r);
      RenderFirst(writing, rank, st, starts, nexts, r);
      st', starts', nexts' := Ahead(rank, st, starts, nexts, r);
    }

    lemma Ahead(rank: (nat, bool) -> nat, st: State, starts: map<nat, nat>, nexts: map<nat, int>, r: Result)
      returns (st': State, starts': map<nat, nat>, nexts': map<nat, int>)
      requires WellFormed(g) && Finite(g, rank) && st.queue != [] && Orderly(g, st, starts.Keys)
      requires nexts.Keys == starts.Keys
      requires r == Drain(g, rank, st, starts, nexts)
      ensures st.queue[0] < |g| && st' == Body(g, rank, st.queue[0], Popped(st))
      ensures starts' == starts[st.queue[0] := |st.ops|] && nexts' == nexts[st.queue[0] := NextOf(st.queue)]
      ensures nexts'.Keys == starts'.Keys && Orderly(g, st', starts'.Keys) && Work(g, st') < Work(g, st)
      ensures r == Drain(g, rank, st', starts', nexts')
    {
      DrainStep(g, rank, st, starts, nexts);
      st', starts', nexts' := Body(g, rank, st.queue[0], Popped(st)), starts[st.queue[0] := |st.ops|],
      nexts[st.queue[0] := NextOf(st.queue)];
    }

    method RenderFirst(writing: bool, ghost rank: (nat, bool) -> nat, ghost st: State,
                       ghost starts: map<nat, nat>, ghost nexts: map<nat, int>, ghost r: Result)
      requires WellFormed(g) && Finite(g, rank) && Rep(writing, st, nexts, r.nexts) && st.queue != []
      requires Indexed(entryIndex[..], writing, starts, r)
      requires renderNext[st.queue[0]] == NextOf(st.queue) && st.queue[0] in r.starts
      requires r.starts[st.queue[0]] == |st.ops|
      modifies this, entryIndex, rendered, renderNext
      ensures Rep(writing, Body(g, rank, st.queue[0], Popped(st)), nexts[st.queue[0] := NextOf(st.queue)], r.nexts)
      ensures Indexed(entryIndex[..], writing, starts[st.queue[0] := |st.ops|], r)
    {
      var e := PopHead(writing, st, nexts, r.nexts);
      SetIndex(writing, e, Popped(st), nexts[e := NextOf(st.queue)], starts, r);
      RenderBody(writing, e, rank, Popped(st), nexts[e := NextOf(st.queue)], r.nexts);
    }

    constructor (g: Grammar)
      ensures this.g == g && fresh(entryIndex) && fresh(rendered) && fresh(renderNext)
      ensures Rep(false, EMPTY, map[], map[])
    {
      this.g := g;
      entryIndex := new nat[|g|](_ => 0);
      rendered := new bool[|g|](_ => false);
      renderNext := new int[|g|](_ => NONE);
      nrEntries, renderList, renderListP, out := 0, NONE, NONE, [];
    }

    /** One pass: the root element, the final opcode, the out-of-line bodies. */
    method RunPass(writing: bool, ghost rank: (nat, bool) -> nat, ghost r: Result)
      requires WellFormed(g) && Finite(g, rank) && Live(g, 0, false) && r == Pass(g, rank)
      requires Rep(writing, EMPTY, map[], r.nexts) && Indexed(entryIndex[..], writing, map[], r)
      modifies this, entryIndex, rendered, renderNext
      ensures Rep(writing, State(r.ops, r.starts.Keys, []), r.nexts, r.nexts)
      ensures Indexed(entryIndex[..], writing, r.starts, r)
    {
      FirstOrderly(g, rank);
      RenderElement(writing, 0, NONE, rank, EMPTY, map[], r.nexts);
      Opcode(writing, Complete, Render(g, rank, 0, NONE, EMPTY), map[], r.nexts);
      RenderOutOfLineList(writing, rank, FirstState(g, rank), r);
    }

    /** Clear the marks of all elements. */
    method ClearRendered()
      requires Shape()
      modifies rendered
      ensures forall e :: 0 <= e < |g| ==> !rendered[e]
    {
      for e := 0 to |g|
        invariant forall x :: 0 <= x < e ==> !rendered[x]
      {
        rendered[e] := false;
      }
    }

    /** Prepare the second pass; the links stay as the first pass left them. */
    method Restart(ghost r: Result)
      requires Rep(false, State(r.ops, r.starts.Keys, []), r.nexts, r.nexts)
      modifies this, rendered
      ensures Rep(true, EMPTY, map[], r.nexts)
    {
      ClearRendered();
      nrEntries := 0;
    }

    /**
     `render`: pass one finds where every body starts, pass two prints.  What is printed is the code of the root
     element and then every body that is jumped to; every jump carries the place at which the body of its element is
     printed, and every jump back the place at which the content of its loop is printed.
     */
    method RenderAllPasses(ghost rank: (nat, bool) -> nat) returns (ghost es: seq<nat>)
      requires WellFormed(g) && Finite(g, rank) && Live(g, 0, false) && Rep(false, EMPTY, map[], map[])
      modifies this, entryIndex, rendered, renderNext
      ensures nrEntries == |out| && Program(g, rank, es, Ops(out))
      ensures forall i {:trigger Resolves(g, rank, es, out, i)} :: 0 <= i < |out| ==> Resolves(g, rank, es, out, i)
    {
      ghost var r := Pass(g, rank);
      assert Rep(false, EMPTY, map[], r.nexts);
      RunPass(false, rank, r);
      Restart(r);
      RunPass(true, rank, r);
      es := Resolved(g, rank, out, entryIndex[..]);
    }
  }
}
