/**
 What the opcodes of an element look like, without the rendering: which stretches of opcodes are the code of which
 elements, and what a pass lays out.
 */
module AsnLayout {
  import opened Basics
  import opened AsnGrammar

  /** The opcodes from `i` up to `j`. */
  predicate Reads(ops: seq<Op>, i: nat, j: nat, s: seq<Op>) { i <= j <= |ops| && ops[i..j] == s }

  /** What stands before the content of an element, under a tag that may override its own. */
  function Opening(g: Grammar, e: nat, tag: int): seq<Op>
    requires e < |g| && IsTag(g, tag)
  {
    var el := g[e];
    var cond := el.conditional || (tag != NONE && g[tag].conditional);
    var skip := el.skippable || (tag != NONE && g[tag].skippable);
    var name := Tag(if tag == NONE then e else tag, e);
    match el.kind
    case NotCompound => [Match(cond, false, el.action, skip), name]
    case SeqKind => [Match(cond, el.shared || skip, false, skip), name]
    case SeqOf => [Match(cond, el.shared || skip, false, skip), name]
    case SetOf => [Match(cond, el.shared || skip, false, skip), name]
    case TypeRef => if el.bare then [] else [Match(cond, false, el.action, skip), name]
    case AnyKind => [MatchAny(cond, el.action)]
    case Choice => []
    case TagOverride => []
  }

  /** What stands after the content; `entry` is where the content starts. */
  function Closing(g: Grammar, e: nat, tag: int, entry: nat): seq<Op>
    requires e < |g| && IsTag(g, tag)
  {
    var el := g[e];
    var skip := el.skippable || (tag != NONE && g[tag].skippable);
    var last := if el.action then [Action(e)] else [];
    var act := if el.action then [Act, Action(e)] else [];
    match el.kind
    case NotCompound => last
    case AnyKind => last
    case SeqKind => [End(SeqKind, el.action)] + last
    case SeqOf => [End(SeqOf, el.action), Back(entry)] + last
    case SetOf => [End(SetOf, el.action), Back(entry)] + last
    case TypeRef => act
    case Choice => if skip then act else [CondFail] + act
    case TagOverride => []
  }

  predicate Deferred(g: Grammar, e: nat, tag: int)
    requires e < |g| && IsTag(g, tag)
  {
    Listlike(g[e].kind) && OutOfLine(g, e, TagSkips(g, tag))
  }

  /** The opcodes from `i` up to `j` are the code of element `e`. */
  ghost predicate CodeOf(g: Grammar, rank: (nat, bool) -> nat, e: nat, tag: int, ops: seq<Op>, i: nat, j: nat)
    requires WellFormed(g) && Finite(g, rank) && IsTag(g, tag) && Live(g, e, TagSkips(g, tag))
    decreases rank(e, TagSkips(g, tag)), 1, 0
  {
    assert FiniteAt(g, rank, e, TagSkips(g, tag)) && Leads(g, e, TagSkips(g, tag));
    var n := i + |Opening(g, e, tag)|;
    if g[e].kind.TagOverride? then CodeOf(g, rank, g[e].children[0], e, ops, i, j)
    else if Deferred(g, e, tag) then Reads(ops, i, j, Opening(g, e, tag) + [Jump(e)])
    else Reads(ops, i, n, Opening(g, e, tag)) &&
         exists k: nat :: ContentOf(g, rank, e, tag, ops, n, k) && Reads(ops, k, j, Closing(g, e, tag, n))
  }

  /** They are the code of what it contains. */
  ghost predicate ContentOf(g: Grammar, rank: (nat, bool) -> nat, e: nat, tag: int, ops: seq<Op>, i: nat, j: nat)
    requires WellFormed(g) && Finite(g, rank) && IsTag(g, tag) && Live(g, e, TagSkips(g, tag))
    requires !g[e].kind.TagOverride? && !Deferred(g, e, tag)
    decreases rank(e, TagSkips(g, tag)), 0, |g[e].children| + 1
  {
    var el := g[e];
    assert FiniteAt(g, rank, e, TagSkips(g, tag)) && Leads(g, e, TagSkips(g, tag));
    match el.kind
    case TypeRef => CodeOf(g, rank, el.target, if el.bare then tag else NONE, ops, i, j)
    case SeqKind => CodesOf(g, rank, el.children, rank(e, TagSkips(g, tag)), ops, i, j)
    case Choice => CodesOf(g, rank, el.children, rank(e, TagSkips(g, tag)), ops, i, j)
    case SeqOf => CodeOf(g, rank, el.children[0], NONE, ops, i, j)
    case SetOf => CodeOf(g, rank, el.children[0], NONE, ops, i, j)
    case _ => i == j
  }

  /** They are the codes of the elements, one after the other. */
  ghost predicate CodesOf(g: Grammar, rank: (nat, bool) -> nat, es: seq<nat>, bound: nat, ops: seq<Op>, i: nat, j: nat)
    requires WellFormed(g) && Finite(g, rank) && AllLive(g, es) && Below(es, rank, bound)
    decreases bound, 0, |es|
  {
    if es == [] then i == j
    else
      var n := |es| - 1;
      exists k: nat :: CodesOf(g, rank, es[..n], bound, ops, i, k) && CodeOf(g, rank, es[n], NONE, ops, k, j)
  }

  /** They are the out-of-line body of an element. */
  ghost predicate BodyOf(g: Grammar, rank: (nat, bool) -> nat, e: nat, ops: seq<Op>, i: nat, j: nat)
    requires WellFormed(g) && Finite(g, rank)
  {
    BodyLive(g, e) && Listlike(g[e].kind) &&
    exists k: nat :: CodesOf(g, rank, g[e].children, Bound(g[e].children, rank), ops, i, k) &&
                     Reads(ops, k, j, Closing(g, e, NONE, i) + [Return])
  }

  // ----- what is rendered is such code -----

  lemma HeadOps(g: Grammar, e: nat, tag: int, st: State)
    requires e < |g| && IsTag(g, tag) && !g[e].kind.TagOverride?
    ensures Head(g, e, tag, st).ops == st.ops + Opening(g, e, tag)
  {
  }

  lemma TailOps(g: Grammar, e: nat, tag: int, entry: nat, st: State)
    requires e < |g| && IsTag(g, tag) && !g[e].kind.TagOverride?
    ensures Tail(g, e, TagSkips(g, tag), entry, st).ops == st.ops + Closing(g, e, tag, entry)
  {
  }

  lemma Stretch(a: seq<Op>, s: seq<Op>, ops: seq<Op>)
    requires a + s <= ops
    ensures Reads(ops, |a|, |a + s|, s) && a <= ops
  {
    assert ops[|a|..|a + s|] == (a + s)[|a|..];
  }

  lemma {:induction false} RenderCode(g: Grammar, rank: (nat, bool) -> nat, e: nat, tag: int, st: State, ops: seq<Op>)
    requires WellFormed(g) && Finite(g, rank) && IsTag(g, tag) && Live(g, e, TagSkips(g, tag))
    requires Render(g, rank, e, tag, st).ops <= ops
    ensures CodeOf(g, rank, e, tag, ops, |st.ops|, |Render(g, rank, e, tag, st).ops|)
    decreases rank(e, TagSkips(g, tag)), 1, 0
  {
    assert FiniteAt(g, rank, e, TagSkips(g, tag)) && Leads(g, e, TagSkips(g, tag));
    if g[e].kind.TagOverride? {
      RenderCode(g, rank, g[e].children[0], e, st, ops);
      return;
    }
    HeadOps(g, e, tag, st);
    var st1 := Head(g, e, tag, st);
    if Deferred(g, e, tag) {
      assert Defer(st1, e).ops == st.ops + (Opening(g, e, tag) + [Jump(e)]);
      Stretch(st.ops, Opening(g, e, tag) + [Jump(e)], ops);
    } else {
      var st2 := Content(g, rank, e, tag, st1);
      TailOps(g, e, tag, |st1.ops|, st2);
      Stretch(st2.ops, Closing(g, e, tag, |st1.ops|), ops);
      ContentGrew(g, rank, e, tag, st, {});
      Stretch(st.ops, Opening(g, e, tag), ops);
      ContentCode(g, rank, e, tag, st1, ops);
    }
  }

  lemma {:induction false} ContentCode(g: Grammar, rank: (nat, bool) -> nat, e: nat, tag: int, st: State, ops: seq<Op>)
    requires WellFormed(g) && Finite(g, rank) && IsTag(g, tag) && Live(g, e, TagSkips(g, tag))
    requires !g[e].kind.TagOverride? && !Deferred(g, e, tag) && Content(g, rank, e, tag, st).ops <= ops
    ensures ContentOf(g, rank, e, tag, ops, |st.ops|, |Content(g, rank, e, tag, st).ops|)
    decreases rank(e, TagSkips(g, tag)), 0, |g[e].children| + 1
  {
    var el := g[e];
    assert FiniteAt(g, rank, e, TagSkips(g, tag)) && Leads(g, e, TagSkips(g, tag));
    match el.kind
    case TypeRef => RenderCode(g, rank, el.target, if el.bare then tag else NONE, st, ops);
    case SeqKind => RenderAllCode(g, rank, el.children, st, rank(e, TagSkips(g, tag)), ops);
    case Choice => RenderAllCode(g, rank, el.children, st, rank(e, TagSkips(g, tag)), ops);
    case SeqOf => RenderCode(g, rank, el.children[0], NONE, st, ops);
    case SetOf => RenderCode(g, rank, el.children[0], NONE, st, ops);
    case _ =>
  }

  lemma {:induction false} RenderAllCode(g: Grammar, rank: (nat, bool) -> nat, es: seq<nat>, st: State, bound: nat,
                                         ops: seq<Op>)
    requires WellFormed(g) && Finite(g, rank) && AllLive(g, es) && Below(es, rank, bound)
    requires RenderAll(g, rank, es, st, bound).ops <= ops
    ensures CodesOf(g, rank, es, bound, ops, |st.ops|, |RenderAll(g, rank, es, st, bound).ops|)
    decreases bound, 0, |es|
  {
    if es != [] {
      var n := |es| - 1;
      var st1 := RenderAll(g, rank, es[..n], st, bound);
      RenderGrew(g, rank, es[n], NONE, st1, {});
      RenderAllCode(g, rank, es[..n], st, bound, ops);
      RenderCode(g, rank, es[n], NONE, st1, ops);
    }
  }

  lemma BodyCode(g: Grammar, rank: (nat, bool) -> nat, e: nat, st: State, ops: seq<Op>)
    requires WellFormed(g) && Finite(g, rank) && Deferrable(g, e) && Body(g, rank, e, st).ops <= ops
    ensures BodyOf(g, rank, e, ops, |st.ops|, |Body(g, rank, e, st).ops|)
  {
    var el, bound := g[e], Bound(g[e].children, rank);
    var st1 := RenderAll(g, rank, el.children, st, bound);
    BodyOps(g, rank, e, st);
    Stretch(st1.ops, Closing(g, e, NONE, |st.ops|) + [Return], ops);
    RenderAllCode(g, rank, el.children, st, bound, ops);
  }

  lemma BodyOps(g: Grammar, rank: (nat, bool) -> nat, e: nat, st: State)
    requires WellFormed(g) && Finite(g, rank) && Deferrable(g, e)
    ensures Body(g, rank, e, st).ops ==
            RenderAll(g, rank, g[e].children, st, Bound(g[e].children, rank)).ops +
            (Closing(g, e, NONE, |st.ops|) + [Return])
  {
  }

  // ----- a whole pass -----

  /** The bodies of the elements, one after the other. */
  ghost predicate BodiesOf(g: Grammar, rank: (nat, bool) -> nat, es: seq<nat>, ops: seq<Op>, i: nat, j: nat)
    requires WellFormed(g) && Finite(g, rank)
    decreases |es|
  {
    if es == [] then i == j
    else exists k: nat :: BodyOf(g, rank, es[0], ops, i, k) && BodiesOf(g, rank, es[1..], ops, k, j)
  }

  /** The code of the root element, the final opcode, and the bodies of `es`. */
  ghost predicate Program(g: Grammar, rank: (nat, bool) -> nat, es: seq<nat>, ops: seq<Op>)
    requires WellFormed(g) && Finite(g, rank) && Live(g, 0, false)
  {
    NoDup(es) &&
    exists k: nat :: CodeOf(g, rank, 0, NONE, ops, 0, k) && Reads(ops, k, k + 1, [Complete]) &&
                     BodiesOf(g, rank, es, ops, k + 1, |ops|)
  }

  /** The body of `e` starts at `s`. */
  ghost predicate BodyAt(g: Grammar, rank: (nat, bool) -> nat, ops: seq<Op>, e: nat, s: nat)
    requires WellFormed(g) && Finite(g, rank)
  {
    exists j: nat :: BodyOf(g, rank, e, ops, s, j)
  }

  /** These are the bodies of elements that are new in `r`, and their starts are right. */
  ghost predicate Placed(g: Grammar, rank: (nat, bool) -> nat, es: seq<nat>, starts: map<nat, nat>, r: Result)
    requires WellFormed(g) && Finite(g, rank)
  {
    NoDup(es) && (forall e :: e in es ==> e !in starts) &&
    forall e :: e in r.starts && e !in starts ==> e in es && BodyAt(g, rank, r.ops, e, r.starts[e])
  }

  lemma PlaceFirst(g: Grammar, rank: (nat, bool) -> nat, e: nat, i: nat, es: seq<nat>, starts: map<nat, nat>, r: Result)
    requires WellFormed(g) && Finite(g, rank) && e !in starts && Placed(g, rank, es, starts[e := i], r)
    requires e in r.starts && r.starts[e] == i && BodyAt(g, rank, r.ops, e, i)
    ensures Placed(g, rank, [e] + es, starts, r)
  {
    assert forall x :: x in [e] + es <==> x == e || x in es;
    assert e in starts[e := i];
  }

  /** One round lays out the body of the first element. */
  lemma FirstBody(g: Grammar, rank: (nat, bool) -> nat, st: State, starts: map<nat, nat>, nexts: map<nat, int>)
    returns (st': State, starts': map<nat, nat>, nexts': map<nat, int>)
    requires WellFormed(g) && Finite(g, rank) && Orderly(g, st, starts.Keys) && nexts.Keys == starts.Keys
    requires st.queue != []
    ensures Orderly(g, st', starts'.Keys) && nexts'.Keys == starts'.Keys && Work(g, st') < Work(g, st)
    ensures starts' == starts[st.queue[0] := |st.ops|]
    ensures var r, e := Drain(g, rank, st, starts, nexts), st.queue[0];
            r == Drain(g, rank, st', starts', nexts') && BodyOf(g, rank, e, r.ops, |st.ops|, |st'.ops|) &&
            e !in starts && e in r.starts && r.starts[e] == |st.ops|
  {
    var e := st.queue[0];
    DrainStep(g, rank, st, starts, nexts);
    st', starts', nexts' := Body(g, rank, e, Popped(st)), starts[e := |st.ops|], nexts[e := NextOf(st.queue)];
    DrainKeeps(g, rank, st', starts', nexts');
    var r := Drain(g, rank, st', starts', nexts');
    BodyCode(g, rank, e, Popped(st), r.ops);
    KeptBefore(starts, e, |st.ops|, r.starts);
  }

  /** Emptying the queue lays out the bodies of the elements that it marks as done, each once. */
  lemma {:induction false} DrainBodies(g: Grammar, rank: (nat, bool) -> nat, st: State, starts: map<nat, nat>,
                                       nexts: map<nat, int>)
    returns (es: seq<nat>)
    requires WellFormed(g) && Finite(g, rank) && Orderly(g, st, starts.Keys) && nexts.Keys == starts.Keys
    ensures var r := Drain(g, rank, st, starts, nexts);
            BodiesOf(g, rank, es, r.ops, |st.ops|, |r.ops|) && Placed(g, rank, es, starts, r)
    decreases Work(g, st)
  {
    es := [];
    if st.queue != [] {
      var st', starts', nexts' := FirstBody(g, rank, st, starts, nexts);
      var more := DrainBodies(g, rank, st', starts', nexts');
      PlaceFirst(g, rank, st.queue[0], |st.ops|, more, starts, Drain(g, rank, st', starts', nexts'));
      es := [st.queue[0]] + more;
      assert es[1..] == more;
    }
  }

  /** A pass lays out a program, and every jump in it leads to an element whose body starts where `starts` says. */
  lemma PassJumps(g: Grammar, rank: (nat, bool) -> nat) returns (es: seq<nat>)
    requires WellFormed(g) && Finite(g, rank) && Live(g, 0, false)
    ensures var r := Pass(g, rank);
            && Program(g, rank, es, r.ops)
            && (forall i :: 0 <= i < |r.ops| && r.ops[i].Jump? ==> r.ops[i].e in r.starts)
            && (forall e :: e in r.starts ==> e in es && BodyAt(g, rank, r.ops, e, r.starts[e]))
  {
    FirstOrderly(g, rank);
    var none: map<nat, nat> := map[];
    assert none.Keys == {};
    var st := FirstState(g, rank);
    DrainCovers(g, rank, st, none, map[]);
    DrainKeeps(g, rank, st, none, map[]);
    es := DrainBodies(g, rank, st, none, map[]);
    var root, r := Render(g, rank, 0, NONE, State([], {}, [])), Pass(g, rank);
    Stretch(root.ops, [Complete], r.ops);
    RenderCode(g, rank, 0, NONE, State([], {}, []), r.ops);
  }

  // ----- jumps back -----

  /** At `p` a loop of element `x` ends whose content starts at `k`: in place, or in its out-of-line body. */
  ghost predicate LoopOf(g: Grammar, rank: (nat, bool) -> nat, ops: seq<Op>, k: nat, p: nat, x: nat)
    requires WellFormed(g) && Finite(g, rank)
  {
    x < |g| && (g[x].kind.SeqOf? || g[x].kind.SetOf?) && BodyLive(g, x) &&
    1 <= p && Reads(ops, p - 1, p + 1, [End(g[x].kind, g[x].action), Back(k)]) &&
    (LoopInPlace(g, rank, ops, k, p, x) || LoopInBody(g, rank, ops, k, p, x))
  }

  /** Its match and tag stand just before, and its content stands between them and the end. */
  ghost predicate LoopInPlace(g: Grammar, rank: (nat, bool) -> nat, ops: seq<Op>, k: nat, p: nat, x: nat)
    requires WellFormed(g) && Finite(g, rank) && BodyLive(g, x) && 1 <= p
  {
    k >= 2 && g[x].children != [] && (exists tag :: IsTag(g, tag) && Reads(ops, k - 2, k, Opening(g, x, tag))) &&
    assert Live(g, g[x].children[0], false);
    CodeOf(g, rank, g[x].children[0], NONE, ops, k, p - 1)
  }

  /** Its body starts there, and its content stands between that and the end. */
  ghost predicate LoopInBody(g: Grammar, rank: (nat, bool) -> nat, ops: seq<Op>, k: nat, p: nat, x: nat)
    requires WellFormed(g) && Finite(g, rank) && BodyLive(g, x) && 1 <= p
  {
    BodyAt(g, rank, ops, x, k) &&
    CodesOf(g, rank, g[x].children, Bound(g[x].children, rank), ops, k, p - 1)
  }

  lemma ReadsAt(ops: seq<Op>, i: nat, j: nat, s: seq<Op>, p: nat)
    requires Reads(ops, i, j, s) && i <= p < j
    ensures p - i < |s| && ops[p] == s[p - i]
  {
    assert ops[i..j][p - i] == ops[p];
  }

  /** The only jumps back among these opcodes are those of loops. */
  lemma ClosingBack(g: Grammar, e: nat, tag: int, entry: nat, q: nat)
    requires e < |g| && IsTag(g, tag) && q < |Closing(g, e, tag, entry)| && Closing(g, e, tag, entry)[q].Back?
    ensures (g[e].kind.SeqOf? || g[e].kind.SetOf?) && q == 1
    ensures Closing(g, e, tag, entry)[..2] == [End(g[e].kind, g[e].action), Back(entry)]
  {
  }

  /** The jump back in what closes an element stands after the end opcode. */
  lemma ClosingLoop(g: Grammar, e: nat, tag: int, entry: nat, s: seq<Op>, ops: seq<Op>, k: nat, j: nat, p: nat)
    requires e < |g| && IsTag(g, tag) && Reads(ops, k, j, s) && k <= p < j && ops[p].Back?
    requires Closing(g, e, tag, entry) <= s <= Closing(g, e, tag, entry) + [Return]
    ensures (g[e].kind.SeqOf? || g[e].kind.SetOf?) && p == k + 1 && ops[p] == Back(entry)
    ensures Reads(ops, p - 1, p + 1, [End(g[e].kind, g[e].action), Back(entry)])
  {
    ReadsAt(ops, k, j, s, p);
    ClosingBack(g, e, tag, entry, p - k);
    ReadsAt(ops, k, j, s, k);
    ReadsAt(ops, k, j, s, k + 1);
    var c := Closing(g, e, tag, entry);
    assert c[..2][0] == c[0] && c[..2][1] == c[1];
  }

  lemma OpeningBack(g: Grammar, e: nat, tag: int)
    requires e < |g| && IsTag(g, tag)
    ensures forall q :: 0 <= q < |Opening(g, e, tag)| ==> !Opening(g, e, tag)[q].Back?
    ensures g[e].kind.SeqOf? || g[e].kind.SetOf? ==> |Opening(g, e, tag)| == 2
  {
  }

  lemma InPlaceLoop(g: Grammar, rank: (nat, bool) -> nat, e: nat, tag: int, ops: seq<Op>, i: nat, n: nat, k: nat,
                    j: nat, p: nat)
    requires WellFormed(g) && Finite(g, rank) && IsTag(g, tag) && Live(g, e, TagSkips(g, tag))
    requires !g[e].kind.TagOverride? && !Deferred(g, e, tag) && n == i + |Opening(g, e, tag)|
    requires Reads(ops, i, n, Opening(g, e, tag)) && ContentOf(g, rank, e, tag, ops, n, k)
    requires Reads(ops, k, j, Closing(g, e, tag, n)) && k <= p < j && ops[p].Back?
    ensures LoopOf(g, rank, ops, ops[p].entry, p, e)
  {
    assert Leads(g, e, TagSkips(g, tag));
    OpeningBack(g, e, tag);
    ClosingLoop(g, e, tag, n, Closing(g, e, tag, n), ops, k, j, p);
    assert LoopInPlace(g, rank, ops, n, p, e);
  }

  lemma {:induction false} CodeLoops(g: Grammar, rank: (nat, bool) -> nat, e: nat, tag: int, ops: seq<Op>, i: nat,
                                     j: nat, p: nat)
    returns (x: nat)
    requires WellFormed(g) && Finite(g, rank) && IsTag(g, tag) && Live(g, e, TagSkips(g, tag))
    requires CodeOf(g, rank, e, tag, ops, i, j) && i <= p < j && p < |ops| && ops[p].Back?
    ensures LoopOf(g, rank, ops, ops[p].entry, p, x)
    decreases rank(e, TagSkips(g, tag)), 1, 0
  {
    assert FiniteAt(g, rank, e, TagSkips(g, tag)) && Leads(g, e, TagSkips(g, tag));
    if g[e].kind.TagOverride? {
      x := CodeLoops(g, rank, g[e].children[0], e, ops, i, j, p);
      return;
    }
    var n := i + |Opening(g, e, tag)|;
    OpeningBack(g, e, tag);
    if Deferred(g, e, tag) {
      ReadsAt(ops, i, j, Opening(g, e, tag) + [Jump(e)], p);
    } else if p < n {
      ReadsAt(ops, i, n, Opening(g, e, tag), p);
    } else {
      var k: nat :| ContentOf(g, rank, e, tag, ops, n, k) && Reads(ops, k, j, Closing(g, e, tag, n));
      if p < k {
        x := ContentLoops(g, rank, e, tag, ops, n, k, p);
      } else {
        InPlaceLoop(g, rank, e, tag, ops, i, n, k, j, p);
        x := e;
      }
    }
  }

  lemma {:induction false} ContentLoops(g: Grammar, rank: (nat, bool) -> nat, e: nat, tag: int, ops: seq<Op>, i: nat,
                                        j: nat, p: nat)
    returns (x: nat)
    requires WellFormed(g) && Finite(g, rank) && IsTag(g, tag) && Live(g, e, TagSkips(g, tag))
    requires !g[e].kind.TagOverride? && !Deferred(g, e, tag)
    requires ContentOf(g, rank, e, tag, ops, i, j) && i <= p < j && p < |ops| && ops[p].Back?
    ensures LoopOf(g, rank, ops, ops[p].entry, p, x)
    decreases rank(e, TagSkips(g, tag)), 0, |g[e].children| + 1
  {
    var el := g[e];
    assert FiniteAt(g, rank, e, TagSkips(g, tag)) && Leads(g, e, TagSkips(g, tag));
    match el.kind
    case TypeRef => x := CodeLoops(g, rank, el.target, if el.bare then tag else NONE, ops, i, j, p);
    case SeqKind => x := CodesLoops(g, rank, el.children, rank(e, TagSkips(g, tag)), ops, i, j, p);
    case Choice => x := CodesLoops(g, rank, el.children, rank(e, TagSkips(g, tag)), ops, i, j, p);
    case SeqOf => x := CodeLoops(g, rank, el.children[0], NONE, ops, i, j, p);
    case SetOf => x := CodeLoops(g, rank, el.children[0], NONE, ops, i, j, p);
  }

  lemma {:induction false} CodesLoops(g: Grammar, rank: (nat, bool) -> nat, es: seq<nat>, bound: nat, ops: seq<Op>,
                                      i: nat, j: nat, p: nat)
    returns (x: nat)
    requires WellFormed(g) && Finite(g, rank) && AllLive(g, es) && Below(es, rank, bound)
    requires CodesOf(g, rank, es, bound, ops, i, j) && i <= p < j && p < |ops| && ops[p].Back?
    ensures LoopOf(g, rank, ops, ops[p].entry, p, x)
    decreases bound, 0, |es|
  {
    var n := |es| - 1;
    var k: nat :| CodesOf(g, rank, es[..n], bound, ops, i, k) && CodeOf(g, rank, es[n], NONE, ops, k, j);
    if p < k {
      x := CodesLoops(g, rank, es[..n], bound, ops, i, k, p);
    } else {
      x := CodeLoops(g, rank, es[n], NONE, ops, k, j, p);
    }
  }

  lemma BodyLoops(g: Grammar, rank: (nat, bool) -> nat, e: nat, ops: seq<Op>, i: nat, j: nat, p: nat)
    returns (x: nat)
    requires WellFormed(g) && Finite(g, rank) && BodyOf(g, rank, e, ops, i, j)
    requires i <= p < j && p < |ops| && ops[p].Back?
    ensures LoopOf(g, rank, ops, ops[p].entry, p, x)
  {
    var bound := Bound(g[e].children, rank);
    var k: nat :| CodesOf(g, rank, g[e].children, bound, ops, i, k) &&
                  Reads(ops, k, j, Closing(g, e, NONE, i) + [Return]);
    if p < k {
      x := CodesLoops(g, rank, g[e].children, bound, ops, i, k, p);
    } else {
      ClosingLoop(g, e, NONE, i, Closing(g, e, NONE, i) + [Return], ops, k, j, p);
      assert BodyAt(g, rank, ops, e, i);
      x := e;
    }
  }

  lemma {:induction false} BodiesLoops(g: Grammar, rank: (nat, bool) -> nat, es: seq<nat>, ops: seq<Op>, i: nat, j: nat,
                                       p: nat)
    returns (x: nat)
    requires WellFormed(g) && Finite(g, rank) && BodiesOf(g, rank, es, ops, i, j)
    requires i <= p < j && p < |ops| && ops[p].Back?
    ensures LoopOf(g, rank, ops, ops[p].entry, p, x)
    decreases |es|
  {
    var k: nat :| BodyOf(g, rank, es[0], ops, i, k) && BodiesOf(g, rank, es[1..], ops, k, j);
    if p < k {
      x := BodyLoops(g, rank, es[0], ops, i, k, p);
    } else {
      x := BodiesLoops(g, rank, es[1..], ops, k, j, p);
    }
  }

  /** Every jump back in a program ends a loop, and leads to where the content of that loop starts. */
  lemma ProgramLoops(g: Grammar, rank: (nat, bool) -> nat, es: seq<nat>, ops: seq<Op>, p: nat) returns (x: nat)
    requires WellFormed(g) && Finite(g, rank) && Live(g, 0, false) && Program(g, rank, es, ops)
    requires p < |ops| && ops[p].Back?
    ensures LoopOf(g, rank, ops, ops[p].entry, p, x)
  {
    var k: nat :| CodeOf(g, rank, 0, NONE, ops, 0, k) && Reads(ops, k, k + 1, [Complete]) &&
                  BodiesOf(g, rank, es, ops, k + 1, |ops|);
    if p < k {
      x := CodeLoops(g, rank, 0, NONE, ops, 0, k, p);
    } else {
      assert ops[k] == ops[k..k + 1][0];
      x := BodiesLoops(g, rank, es, ops, k + 1, |ops|, p);
    }
  }
}
