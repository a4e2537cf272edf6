/** The execution loop: the machine's registers updated in place, one instruction at a time. */
module RegexExec {
  import opened RegexSyntax
  import opened RegexSemantics
  import opened RegexVm
  import opened RegexSearch
  import opened RegexStack
  import opened RegexMatch
  import opened RegexAtoms
  import opened Subject

  /** Running, or unwinding the saved states after a failure (`ret` 0) or a match (`ret` 1). */
  datatype Mode = Running | Failing | Matched | Done(found: bool)

  /** The saved states in an array, oldest first. */
  function Stacked(states: seq<Saved>): (stack: SavedStack) {
    if states == [] then Bottom else Push(states[|states| - 1], Stacked(states[..|states| - 1]))
  }

  lemma StackedPush(states: seq<Saved>, rs: Saved)
    ensures Stacked(states + [rs]) == Push(rs, Stacked(states))
  {
    assert (states + [rs])[..|states|] == states;
  }

  /** An array of stacked states: what is on top and what is below. */
  lemma StackedTop(slots: seq<Saved>, len: nat)
    requires 0 < len <= |slots|
    ensures Stacked(slots[..len]) == Push(slots[len - 1], Stacked(slots[..len - 1]))
  {
    assert slots[..len][..len - 1] == slots[..len - 1];
  }

  class Machine {
    const prog: Program
    var pc: int
    var cptr: nat
    var stack: seq<nat>
    var capture: Captures
    var states: array<Saved>
    var len: nat
    var call: Option<Frame>
    var mode: Mode

    ghost predicate Valid()
      reads this
    {
      len <= states.Length
    }

    /** lre_exec: nothing captured, nothing saved. */
    constructor (prog: Program, captureCount: nat, index: nat)
      ensures this.prog == prog && Valid() && fresh(states) && View() == Start(index, captureCount)
    {
      this.prog := prog;
      pc, cptr, stack, len, call, mode := 0, index, [], 0, None, Running;
      states := new Saved[0];
      capture := seq(2 * captureCount, _ => None);
    }

    ghost function View(): (config: Config)
      requires Valid()
      reads this, states
    {
      var saved := Stacked(states[..len]);
      match mode
      case Running => Run(pc, cptr, stack, capture, saved, call)
      case Failing => Fail(saved)
      case Matched => Succeed(capture, saved)
      case Done(found) => Halt(if found then Some(capture) else None)
    }

    /** Room for one state more: the array grows by half, to eight at least, and keeps its states. */
    method Reserve()
      requires Valid()
      modifies this`states
      ensures Valid() && len < states.Length && states[..len] == old(states[..len])
      ensures states == old(states) || fresh(states)
    {
      if len + 1 > states.Length {
        var size := states.Length * 3 / 2;
        if size < 8 { size := 8; }
        var more := new Saved[size];
        forall i | 0 <= i < len { more[i] := states[i]; }
        assert more[..len] == states[..len];
        states := more;
      }
    }

    /** push_state: the moment is saved on top, and everything saved before is kept below it. */
    method PushState(kind: SavedKind, at: int, count: nat)
      requires Valid()
      modifies this`states, this`len, states
      ensures Valid() && (states == old(states) || fresh(states)) && len == old(len) + 1
      ensures Stacked(states[..len]) == Push(Saved(kind, at, cptr, stack, capture, count), old(Stacked(states[..len])))
    {
      Reserve();
      ghost var before := states[..len];
      states[len] := Saved(kind, at, cptr, stack, capture, count);
      len := len + 1;
      assert states[..len] == before + [states[len - 1]];
      StackedPush(before, states[len - 1]);
    }

    /** The end of the loop of a simple greedy quantifier. */
    method LeaveGreedy(f: Frame, i: Instr)
      requires Valid() && mode == Running && 0 <= f.pc < |prog.code| && prog.code[f.pc] == i && i.ISimpleGreedy?
      modifies this, states
      ensures Valid() && (states == old(states) || fresh(states))
      ensures View() == FinishGreedy(prog, f, old(View()))
    {
      hide Stacked;
      if f.iterations < i.min {
        mode := Failing;
        return;
      }
      cptr := f.cptr;
      if f.iterations > i.min {
        PushState(GreedyPoint, f.pc, f.iterations - i.min);
      }
      pc, call := f.pc + 1 + i.offset, None;
    }

    /** no_match. */
    method Reject()
      requires Valid() && mode == Running && NoMatch(prog, View()) != Stuck
      modifies this, states
      ensures Valid() && (states == old(states) || fresh(states))
      ensures View() == NoMatch(prog, old(View()))
    {
      if call.Some? {
        LeaveGreedy(call.value, prog.code[call.value.pc]);
      } else {
        mode := Failing;
      }
    }

    method ExecuteStraight(i: Instr)
      requires Valid() && mode == Running && cptr <= |prog.subject.units| && (i.IRead? || i.IAssert? || i.IMatch?)
      requires StraightOp(prog, i, View()) != Stuck
      modifies this, states
      ensures Valid() && (states == old(states) || fresh(states))
      ensures View() == StraightOp(prog, i, old(View()))
    {
      match i
      case IRead(op) =>
        if cptr < |prog.subject.units| && OpAccepts(op, CharAt(prog.subject, cptr)) {
          pc, cptr := pc + 1, NextPos(prog.subject, cptr);
        } else {
          Reject();
        }
      case IAssert(kind) =>
        if Asserts(kind, prog.subject, cptr) { pc := pc + 1; } else { Reject(); }
      case IMatch =>
        if call.Some? {
          var f := Frame(call.value.pc, cptr, call.value.iterations + 1);
          var loop := prog.code[f.pc];
          if f.iterations >= loop.max && loop.max != INFINITY {
            LeaveGreedy(f, loop);
          } else {
            pc, call := f.pc + 1, Some(f);
          }
        } else {
          mode := Matched;
        }
    }

    method ExecuteControl(i: Instr)
      requires Valid() && mode == Running && call == None && cptr <= |prog.subject.units|
      requires !(i.IRead? || i.IAssert? || i.IMatch?) && ControlOp(prog, i, View()) != Stuck
      modifies this, states
      ensures Valid() && (states == old(states) || fresh(states))
      ensures View() == ControlOp(prog, i, old(View()))
    {
      hide Stacked;
      pc := pc + 1;
      match i
      case IPrev =>
        if cptr == 0 { mode := Failing; } else { cptr := PrevPos(prog.subject, cptr); }
      case IGoto(offset) => pc := pc + offset;
      case ISplitGotoFirst(offset) =>
        PushState(SplitPoint, pc, 0);
        pc := pc + offset;
      case ISplitNextFirst(offset) => PushState(SplitPoint, pc + offset, 0);
      case ILook(negated, offset) => PushState(LookPoint(negated), pc + offset, 0);
      case ISaveStart(k) => capture := capture[2 * k := Some(cptr)];
      case ISaveEnd(k) => capture := capture[2 * k + 1 := Some(cptr)];
      case ISaveReset(first, last) => ResetCaptures(first, last);
      case IPushI32(value) => stack := stack + [value];
      case IPushCharPos => stack := stack + [cptr];
      case IDrop => stack := stack[..|stack| - 1];
      case ILoop(offset) =>
        var counter := if stack[|stack| - 1] == 0 then 0xFFFF_FFFF_FFFF_FFFF else stack[|stack| - 1] - 1;
        stack := stack[..|stack| - 1] + [counter];
        if counter != 0 { pc := pc + offset; }
      case ICheckAdvance =>
        if stack[|stack| - 1] == cptr { mode := Failing; } else { stack := stack[..|stack| - 1]; }
      case ISimpleGreedy(_, _, _, _) => call := Some(Frame(pc - 1, cptr, 0));
    }

    method ResetCaptures(first: nat, last: nat)
      requires 2 * last + 1 < |capture|
      modifies this`capture
      ensures capture == ClearCaptures(old(capture), first, last)
    {
      var k := first;
      while k <= last
        invariant first <= k && |capture| == |old(capture)|
        invariant forall j :: 0 <= j < |capture| ==>
                    capture[j] == if 2 * first <= j <= 2 * last + 1 && j < 2 * k then None else old(capture[j])
      {
        capture := capture[2 * k := None][2 * k + 1 := None];
        k := k + 1;
      }
    }

    /** The unwinding loop behind `recurse`, one saved state at a time. */
    method Unwind()
      requires Valid() && (mode == Failing || mode == Matched) && Step(prog, View()) != Stuck
      modifies this, states
      ensures Valid() && (states == old(states) || fresh(states))
      ensures View() == Step(prog, old(View()))
    {
      if len == 0 {
        mode := Done(mode == Matched);
        return;
      }
      StackedTop(states[..], len);
      assert states[..][..len] == states[..len] && states[..][..len - 1] == states[..len - 1];
      var rs := states[len - 1];
      match rs.kind
      case SplitPoint =>
        if mode == Failing { capture := rs.capture; Resume(rs); } else { len := len - 1; }
      case LookPoint(negated) =>
        if negated == (mode == Failing) {
          if negated { capture := rs.capture; }
          Resume(rs);
        } else {
          len, mode := len - 1, Failing;
        }
      case GreedyPoint =>
        if mode == Failing { BackOff(rs); } else { len := len - 1; }
    }

    method Resume(rs: Saved)
      requires Valid() && len > 0 && states[len - 1] == rs
      modifies this
      ensures Valid() && states == old(states)
      ensures View() == Run(rs.pc, rs.cptr, rs.stack, old(capture), Stacked(old(states[..len - 1])), None)
    {
      pc, cptr, stack, len, call, mode := rs.pc, rs.cptr, rs.stack, len - 1, None, Running;
    }

    /** One iteration of a simple greedy quantifier given back; its state is changed in place or popped. */
    method BackOff(rs: Saved)
      requires Valid() && len > 0 && states[len - 1] == rs && rs.kind == GreedyPoint
      requires FailStep(prog, Push(rs, Stacked(states[..len - 1]))) != Stuck
      modifies this, states
      ensures Valid() && states == old(states)
      ensures View() == FailStep(prog, Push(rs, old(Stacked(states[..len - 1]))))
    {
      hide Stacked;
      ghost var below := states[..len - 1];
      var i := prog.code[rs.pc];
      ghost var target := PrevMany(prog.subject, rs.cptr, i.charCount);
      pc, cptr, stack, capture, call, mode := rs.pc + 1 + i.offset, rs.cptr, rs.stack, rs.capture, None, Running;
      var k := i.charCount;
      while k > 0
        modifies this`cptr
        invariant PrevMany(prog.subject, cptr, k) == target
      {
        if cptr > 0 { cptr := PrevPos(prog.subject, cptr); }
        k := k - 1;
      }
      assert cptr == target;
      hide PrevMany;
      if rs.count == 1 {
        len := len - 1;
        assert states[..len] == below;
      } else {
        states[len - 1] := rs.(cptr := cptr, count := rs.count - 1);
        assert states[..len] == below + [states[len - 1]];
        StackedPush(below, states[len - 1]);
      }
    }

    /** One turn of the loop. */
    method Turn()
      requires Valid() && Step(prog, View()) != Stuck && !mode.Done?
      modifies this, states
      ensures Valid() && (states == old(states) || fresh(states))
      ensures View() == Step(prog, old(View()))
    {
      if mode != Running {
        Unwind();
      } else if prog.code[pc].IRead? || prog.code[pc].IAssert? || prog.code[pc].IMatch? {
        ExecuteStraight(prog.code[pc]);
      } else {
        ExecuteControl(prog.code[pc]);
      }
    }
  }

  lemma {:induction false} HaltStays(prog: Program, run: seq<Config>, k: nat)
    requires IsRun(prog, run) && k < |run| && run[k].Halt?
    ensures run[|run| - 1] == run[k]
    decreases |run| - k
  {
    if k + 1 < |run| {
      assert Linked(prog, run, k);
      HaltStays(prog, run, k + 1);
    }
  }

  /** The run of a pattern from its start to its answer. */
  lemma RunToAnswer(n: Node, sticky: bool, t: Subject, p: nat) returns (run: seq<Config>)
    requires WellFormed(n) && ValidSubject(t) && Boundary(t, p)
    ensures IsRun(Compiled(n, sticky, t), run) && run[0] == Start(p, CaptureGroups(n))
    ensures Says(run[|run| - 1], Exec(n, sticky, t, p))
    ensures SoundProgram(Compiled(n, sticky, t), CaptureGroups(n))
    ensures Safe(Compiled(n, sticky, t), CaptureGroups(n), run[0])
  {
    var prog, captures := Compiled(n, sticky, t), CaptureGroups(n);
    var d := CompiledPatternIsCorrect(n, sticky, t, p);
    run :| IsRun(prog, run) && run[0] == Start(p, captures) && run[|run| - 1] == d;
    StartIsSafe(n, sticky, t, p);
  }

  /** A machine that has not halted takes the next step of its run. */
  lemma StepsOn(prog: Program, captures: nat, run: seq<Config>, k: nat)
    requires SoundProgram(prog, captures) && IsRun(prog, run) && Safe(prog, captures, run[0])
    requires k < |run| && run[|run| - 1].Halt? && !run[k].Halt?
    ensures k + 1 < |run| && run[k + 1] == Step(prog, run[k]) && run[k + 1] != Stuck
  {
    assert Linked(prog, run, k);
    RunIsSafe(prog, captures, run, k + 1);
  }

  /** lre_exec on the program of a pattern: it terminates with the answer of ECMA-262. */
  method Execute(code: seq<Instr>, captureCount: nat, t: Subject, index: nat, ghost n: Node, ghost sticky: bool)
      returns (found: bool, capture: Captures)
    requires WellFormed(n) && code == ProgramCode(n, sticky) && captureCount == CaptureGroups(n)
    requires ValidSubject(t) && Boundary(t, index)
    ensures found <==> Exec(n, sticky, t, index).Found?
    ensures found ==> |capture| >= 2 && capture[0] == Some(Exec(n, sticky, t, index).start)
                      && capture[1] == Some(Exec(n, sticky, t, index).end)
  {
    var prog := Program(code, t);
    ghost var run := RunToAnswer(n, sticky, t, index);
    var m := new Machine(prog, captureCount, index);
    ghost var k := 0;
    while !m.mode.Done?
      invariant m.prog == prog && m.Valid() && fresh(m) && fresh(m.states) && k < |run| && run[k] == m.View()
      decreases |run| - k
    {
      StepsOn(prog, captureCount, run, k);
      m.Turn();
      k := k + 1;
    }
    HaltStays(prog, run, k);
    assert Says(m.View(), Exec(n, sticky, t, index));
    return m.mode.found, m.capture;
  }
}
