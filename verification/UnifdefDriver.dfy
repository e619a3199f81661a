/**
 The driver of `unifdef` in its own form: two fixed arrays and a depth, changed in
 place line by line.  It is proved to compute `UnifdefMachine.Process`.
 */
module UnifdefDriver {
  import opened Basics
  import opened Preprocessor
  import opened UnifdefMachine

  /** How a transition function returns: normally, or through `exit` or `abort`. */
  datatype Signal = Go | ExitOk | ExitError(why: Failure) | AbortCalled

  class Driver<C, T> {
    var ifstate: array<IfState>
    var ignoring: array<bool>
    var depth: nat
    var output: seq<Directive<C, T>>
    const iocccok: bool

    /** The two stacks side by side, up to the current depth. */
    ghost var levels: seq<Level>

    ghost predicate Ok()
      reads this, ifstate, ignoring
    {
      ifstate.Length == MAXDEPTH && ignoring.Length == MAXDEPTH && depth < MAXDEPTH && |levels| == depth + 1 &&
      forall i :: 0 <= i <= depth ==> levels[i] == Level(ifstate[i], ignoring[i])
    }

    ghost function Abs(): Machine<C, T>
      reads this
    {
      Machine(levels, output)
    }

    constructor (iocccok: bool)
      ensures Ok() && Abs() == Start() && this.iocccok == iocccok
      ensures fresh(ifstate) && fresh(ignoring)
    {
      this.iocccok := iocccok;
      ifstate := new IfState[MAXDEPTH](_ => Outside);
      ignoring := new bool[MAXDEPTH](_ => false);
      depth := 0;
      output := [];
      levels := [Level(Outside, false)];
    }

    /** The observable result of a transition is the one the value machine prescribes. */
    ghost predicate Reports(sig: Signal, r: Outcome<C, T>)
      reads this, ifstate, ignoring
    {
      match r
      case Running(m) => sig.Go? && Ok() && Abs() == m
      case Finished(o) => sig.ExitOk? && output == o
      case Failed(why, o) => sig == ExitError(why) && output == o
      case Aborted => sig.AbortCalled?
    }

    /** Open a group: `nest`, then `ignoreoff`, `state` and, for the I functions, `ignoreon`. */
    method OpenGroup(s: IfState, on: bool, w: Written, d: Directive<C, T>) returns (sig: Signal)
      requires Ok()
      modifies this`depth, this`output, this`levels, ifstate, ignoring
      ensures if old(depth) == MAXDEPTH - 1 then sig == ExitError(TooDeep) && output == old(output)
              else sig.Go? && Ok() && levels == old(levels + [Level(s, on || Last(levels).ignoring)])
                   && output == old(output) + Write(w, d)
    {
      if depth == MAXDEPTH - 1 {
        return ExitError(TooDeep);
      }
      depth := depth + 1;
      output := output + Write(w, d);
      ignoring[depth] := ignoring[depth - 1];
      ifstate[depth] := s;
      if on {
        ignoring[depth] := true;
      }
      levels := levels + [Level(s, ignoring[depth])];
      sig := Go;
    }

    /** Stay in the group: print or drop, `ignoreoff` for some functions, then `state`. */
    method MoveGroup(s: IfState, off: bool, w: Written, d: Directive<C, T>) returns (sig: Signal)
      requires Ok()
      modifies this`depth, this`output, this`levels, ifstate, ignoring
      ensures if off && old(depth) == 0 then sig.AbortCalled?
              else sig.Go? && Ok() && output == old(output) + Write(w, d)
                   && levels == old(Init(levels) + [Level(s, levels[if off then depth - 1 else depth].ignoring)])
    {
      output := output + Write(w, d);
      if off {
        if depth == 0 {
          return AbortCalled;
        }
        ignoring[depth] := ignoring[depth - 1];
      }
      ifstate[depth] := s;
      levels := Init(levels) + [Level(s, ignoring[depth])];
      sig := Go;
    }

    method CloseGroup(w: Written, d: Directive<C, T>) returns (sig: Signal)
      requires Ok()
      modifies this`depth, this`output, this`levels
      ensures if old(depth) == 0 then sig.AbortCalled?
              else sig.Go? && Ok() && levels == old(Init(levels)) && output == old(output) + Write(w, d)
    {
      output := output + Write(w, d);
      if depth == 0 {
        return AbortCalled;
      }
      depth := depth - 1;
      levels := Init(levels);
      sig := Go;
    }

    method Perform(e: Effect, d: Directive<C, T>) returns (sig: Signal)
      requires Ok()
      modifies this`depth, this`output, this`levels, ifstate, ignoring
      ensures Reports(sig, UnifdefMachine.Perform(old(Abs()), e, d))
    {
      match e
      case Keep(w) =>
        output := output + Write(w, d);
        sig := Go;
      case Nest(s, on, w) => sig := OpenGroup(s, on, w, d);
      case Move(s, off, w) => sig := MoveGroup(s, off, w, d);
      case Unnest(w) => sig := CloseGroup(w, d);
      case Stop => sig := ExitOk;
      case Fail(why) => sig := ExitError(why);
      case Bug => sig := AbortCalled;
    }

    /** One table lookup and one transition. */
    method Transition(l: Line<C, T>) returns (sig: Signal)
      requires Ok()
      modifies this`depth, this`output, this`levels, ifstate, ignoring
      ensures Reports(sig, StepLine(old(Abs()), l, iocccok))
    {
      var e := EffectOf(TransTable(ifstate[depth], l.lt), iocccok);
      sig := Perform(e, l.d);
    }

    method Advance(lines: seq<Line<C, T>>, i: nat) returns (sig: Signal)
      requires Ok() && i < |lines| && After(lines[..i], iocccok) == Running(Abs())
      modifies this`depth, this`output, this`levels, ifstate, ignoring
      ensures sig.Go? ==> Ok() && After(lines[..i + 1], iocccok) == Running(Abs())
      ensures !sig.Go? ==> Reports(sig, UnifdefMachine.Process(lines, iocccok))
    {
      AfterNext(lines, i, iocccok, Abs());
      sig := Transition(lines[i]);
      if !sig.Go? {
        AfterStays(lines, i + 1, iocccok);
      }
    }

    /** The end of the file: `done`, or an error inside an open conditional. */
    method AtEof(ghost lines: seq<Line<C, T>>) returns (sig: Signal)
      requires Ok() && After(lines, iocccok) == Running(Abs())
      ensures Reports(sig, UnifdefMachine.Process(lines, iocccok))
    {
      sig := if ifstate[depth].Outside? then ExitOk else ExitError(PrematureEof);
    }

    /** The driver loop: one table lookup and one transition for each line, then the end of the file. */
    method Process(lines: seq<Line<C, T>>) returns (sig: Signal)
      requires Ok() && Abs() == Start()
      modifies this`depth, this`output, this`levels, ifstate, ignoring
      ensures Reports(sig, UnifdefMachine.Process(lines, iocccok))
    {
      sig := Lines(lines);
      if sig.Go? {
        sig := AtEof(lines);
      }
    }

    /** The loop itself. */
    method Lines(lines: seq<Line<C, T>>) returns (sig: Signal)
      requires Ok() && After(lines[..0], iocccok) == Running(Abs())
      modifies this`depth, this`output, this`levels, ifstate, ignoring
      ensures sig.Go? ==> Ok() && After(lines, iocccok) == Running(Abs())
      ensures !sig.Go? ==> Reports(sig, UnifdefMachine.Process(lines, iocccok))
    {
      sig := Go;
      var i := 0;
      while i < |lines|
        invariant 0 <= i <= |lines| && Ok() && After(lines[..i], iocccok) == Running(Abs())
        invariant sig.Go? && ifstate == old(ifstate) && ignoring == old(ignoring)
      {
        sig := Advance(lines, i);
        if !sig.Go? {
          return;
        }
        i := i + 1;
      }
      assert lines[..i] == lines;
    }
  }

  lemma AfterNext<C, T>(lines: seq<Line<C, T>>, i: nat, iocccok: bool, m: Machine<C, T>)
    requires i < |lines| && After(lines[..i], iocccok) == Running(m) && m.levels != []
    ensures After(lines[..i + 1], iocccok) == StepLine(m, lines[i], iocccok)
  {
    assert lines[..i + 1][..i] == lines[..i];
  }

  /** Once the machine has stopped, later lines change nothing. */
  lemma {:induction false} AfterStays<C, T>(lines: seq<Line<C, T>>, k: nat, iocccok: bool)
    requires k <= |lines| && !After(lines[..k], iocccok).Running?
    ensures After(lines, iocccok) == After(lines[..k], iocccok)
  {
    if k == |lines| {
      assert lines[..k] == lines;
    } else {
      var n := |lines| - 1;
      assert lines[..n][..k] == lines[..k];
      AfterStays(lines[..n], k, iocccok);
    }
  }
}
