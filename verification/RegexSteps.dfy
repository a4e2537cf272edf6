/** What each instruction does to a running configuration, one lemma an instruction. */
module RegexSteps {
  import opened RegexSyntax
  import opened RegexSemantics
  import opened RegexVm
  import opened RegexExplore
  import opened Subject

  /** Instruction `i` is at `pc`. */
  predicate Holds(prog: Program, pc: int, i: Instr) {
    0 <= pc < |prog.code| && prog.code[pc] == i
  }

  /** `code` lies at `pc`. */
  ghost predicate CodeAt(prog: Program, pc: int, code: seq<Instr>) {
    forall i :: 0 <= i < |code| ==> Holds(prog, pc + i, code[i])
  }

  lemma CodeAtTail(prog: Program, pc: int, code: seq<Instr>)
    requires CodeAt(prog, pc, code) && code != []
    ensures Holds(prog, pc, code[0]) && CodeAt(prog, pc + 1, code[1..])
  {
    assert Holds(prog, pc + 0, code[0]);
    forall i | 0 <= i < |code[1..]| ensures Holds(prog, pc + 1 + i, code[1..][i]) {
      assert Holds(prog, pc + (i + 1), code[i + 1]);
    }
  }

  lemma CodeAtConcat(prog: Program, pc: int, a: seq<Instr>, b: seq<Instr>)
    requires CodeAt(prog, pc, a + b)
    ensures CodeAt(prog, pc, a) && CodeAt(prog, pc + |a|, b)
  {
    forall i | 0 <= i < |a| ensures Holds(prog, pc + i, a[i]) {
      assert Holds(prog, pc + i, (a + b)[i]);
    }
    forall i | 0 <= i < |b| ensures Holds(prog, pc + |a| + i, b[i]) {
      assert Holds(prog, pc + (|a| + i), (a + b)[|a| + i]);
    }
  }

  /** Code framed by one instruction on either side. */
  lemma CodeAtFramed(prog: Program, pc: int, first: Instr, code: seq<Instr>, last: Instr)
    requires CodeAt(prog, pc, [first] + code + [last])
    ensures Holds(prog, pc, first) && CodeAt(prog, pc + 1, code) && Holds(prog, pc + 1 + |code|, last)
  {
    CodeAtConcat(prog, pc, [first] + code, [last]);
    CodeAtConcat(prog, pc, [first], code);
    assert Holds(prog, pc + 0, [first][0]);
    assert Holds(prog, pc + (1 + |code|) + 0, [last][0]);
  }

  lemma StepGoto(prog: Program, pc: int, target: int, offset: int, p: nat, stack: seq<nat>, capture: Captures,
                 base: SavedStack)
    requires Holds(prog, pc, IGoto(offset)) && target == pc + 1 + offset && p <= |prog.subject.units|
    ensures Reaches(prog, At(pc, p, stack, capture, base), At(target, p, stack, capture, base))
  {
    ReachesStep(prog, At(pc, p, stack, capture, base), At(target, p, stack, capture, base));
  }

  /** The state a split or lookaround at `p` saves. */
  function SavedAt(kind: SavedKind, pc: int, p: nat, stack: seq<nat>, capture: Captures): (r: Saved) {
    Saved(kind, pc, p, stack, capture, 0)
  }

  /** Where a split goes first and where it goes on failure. */
  predicate Branches(pc: int, nextFirst: bool, offset: int, first: int, second: int) {
    if nextFirst then first == pc + 1 && second == pc + 1 + offset
    else first == pc + 1 + offset && second == pc + 1
  }

  lemma StepSplit(prog: Program, pc: int, nextFirst: bool, offset: int, first: int, second: int, p: nat,
                  stack: seq<nat>, capture: Captures, base: SavedStack)
    requires Holds(prog, pc, Split(nextFirst, offset)) && Branches(pc, nextFirst, offset, first, second)
    requires p <= |prog.subject.units|
    ensures Reaches(prog, At(pc, p, stack, capture, base),
                    At(first, p, stack, capture, Push(SavedAt(SplitPoint, second, p, stack, capture), base)))
  {
    ReachesStep(prog, At(pc, p, stack, capture, base),
                At(first, p, stack, capture, Push(SavedAt(SplitPoint, second, p, stack, capture), base)));
  }

  lemma StepRetry(prog: Program, s: Saved, base: SavedStack)
    requires s.kind == SplitPoint
    ensures Reaches(prog, Fail(Push(s, base)), At(s.pc, s.cptr, s.stack, s.capture, base))
  {
    ReachesStep(prog, Fail(Push(s, base)), At(s.pc, s.cptr, s.stack, s.capture, base));
  }

  lemma StepLook(prog: Program, pc: int, next: int, after: int, negated: bool, offset: int, p: nat, stack: seq<nat>,
                 capture: Captures, base: SavedStack)
    requires Holds(prog, pc, ILook(negated, offset)) && next == pc + 1 && after == next + offset
      && p <= |prog.subject.units|
    ensures Reaches(prog, At(pc, p, stack, capture, base),
                    At(next, p, stack, capture,
                       Push(SavedAt(LookPoint(negated), after, p, stack, capture), base)))
  {
    ReachesStep(prog, At(pc, p, stack, capture, base),
                At(next, p, stack, capture,
                   Push(SavedAt(LookPoint(negated), after, p, stack, capture), base)));
  }

  lemma StepLookFailed(prog: Program, s: Saved, base: SavedStack)
    requires s.kind.LookPoint?
    ensures Reaches(prog, Fail(Push(s, base)),
                    if s.kind.negated then At(s.pc, s.cptr, s.stack, s.capture, base) else Fail(base))
  {
    ReachesStep(prog, Fail(Push(s, base)),
                if s.kind.negated then At(s.pc, s.cptr, s.stack, s.capture, base) else Fail(base));
  }

  lemma StepLookMatched(prog: Program, s: Saved, capture: Captures, base: SavedStack)
    requires s.kind.LookPoint?
    ensures Reaches(prog, Succeed(capture, Push(s, base)),
                    if s.kind.negated then Fail(base) else At(s.pc, s.cptr, s.stack, capture, base))
  {
    ReachesStep(prog, Succeed(capture, Push(s, base)),
                if s.kind.negated then Fail(base) else At(s.pc, s.cptr, s.stack, capture, base));
  }

  lemma StepMatch(prog: Program, pc: int, p: nat, stack: seq<nat>, capture: Captures, base: SavedStack)
    requires Holds(prog, pc, IMatch) && p <= |prog.subject.units|
    ensures Reaches(prog, At(pc, p, stack, capture, base), Succeed(capture, base))
  {
    ReachesStep(prog, At(pc, p, stack, capture, base), Succeed(capture, base));
  }

  lemma {:induction false} SucceedUnwinds(prog: Program, capture: Captures, states: SavedStack, base: SavedStack)
    requires Extends(states, base)
    ensures Reaches(prog, Succeed(capture, states), Succeed(capture, base))
    decreases states
  {
    if states == base {
      ReachesSelf(prog, Succeed(capture, base));
    } else {
      ReachesStep(prog, Succeed(capture, states), Succeed(capture, states.below));
      SucceedUnwinds(prog, capture, states.below, base);
      ReachesTransitive(prog, Succeed(capture, states), Succeed(capture, states.below), Succeed(capture, base));
    }
  }

  lemma StepPushI32(prog: Program, pc: int, next: int, value: nat, p: nat, stack: seq<nat>, capture: Captures,
                    base: SavedStack)
    requires Holds(prog, pc, IPushI32(value)) && next == pc + 1 && p <= |prog.subject.units|
    ensures Reaches(prog, At(pc, p, stack, capture, base), At(next, p, stack + [value], capture, base))
  {
    ReachesStep(prog, At(pc, p, stack, capture, base), At(next, p, stack + [value], capture, base));
  }

  lemma StepPushCharPos(prog: Program, pc: int, next: int, p: nat, stack: seq<nat>, capture: Captures, base: SavedStack)
    requires Holds(prog, pc, IPushCharPos) && next == pc + 1 && p <= |prog.subject.units|
    ensures Reaches(prog, At(pc, p, stack, capture, base), At(next, p, stack + [p], capture, base))
  {
    ReachesStep(prog, At(pc, p, stack, capture, base), At(next, p, stack + [p], capture, base));
  }

  lemma StepDrop(prog: Program, pc: int, next: int, value: nat, p: nat, stack: seq<nat>, capture: Captures,
                 base: SavedStack)
    requires Holds(prog, pc, IDrop) && next == pc + 1 && p <= |prog.subject.units|
    ensures Reaches(prog, At(pc, p, stack + [value], capture, base), At(next, p, stack, capture, base))
  {
    assert Rest(stack + [value]) == stack;
    ReachesStep(prog, At(pc, p, stack + [value], capture, base), At(next, p, stack, capture, base));
  }

  lemma StepLoop(prog: Program, pc: int, next: int, target: int, offset: int, value: nat, p: nat, stack: seq<nat>,
                 capture: Captures, base: SavedStack)
    requires Holds(prog, pc, ILoop(offset)) && next == pc + 1 && target == next + offset && p <= |prog.subject.units|
      && value > 0
    ensures Reaches(prog, At(pc, p, stack + [value], capture, base),
                    At(if value > 1 then target else next, p, stack + [value - 1], capture, base))
  {
    assert Rest(stack + [value]) == stack;
    ReachesStep(prog, At(pc, p, stack + [value], capture, base),
                At(if value > 1 then target else next, p, stack + [value - 1], capture, base));
  }

  lemma StepCheckAdvance(prog: Program, pc: int, next: int, value: nat, p: nat, stack: seq<nat>, capture: Captures,
                         base: SavedStack)
    requires Holds(prog, pc, ICheckAdvance) && next == pc + 1 && p <= |prog.subject.units|
    ensures Reaches(prog, At(pc, p, stack + [value], capture, base),
                    if p == value then Fail(base) else At(next, p, stack, capture, base))
  {
    assert Rest(stack + [value]) == stack;
    ReachesStep(prog, At(pc, p, stack + [value], capture, base),
                if p == value then Fail(base) else At(next, p, stack, capture, base));
  }

  lemma StepPrev(prog: Program, pc: int, next: int, p: nat, stack: seq<nat>, capture: Captures, base: SavedStack)
    requires Holds(prog, pc, IPrev) && next == pc + 1 && p <= |prog.subject.units|
    ensures Reaches(prog, At(pc, p, stack, capture, base),
                    if p == 0 then Fail(base) else At(next, PrevPos(prog.subject, p), stack, capture, base))
  {
    ReachesStep(prog, At(pc, p, stack, capture, base),
                if p == 0 then Fail(base) else At(next, PrevPos(prog.subject, p), stack, capture, base));
  }

  lemma StepRead(prog: Program, pc: int, next: int, op: CharOp, p: nat, stack: seq<nat>, capture: Captures,
                 base: SavedStack)
    requires Holds(prog, pc, IRead(op)) && next == pc + 1 && p <= |prog.subject.units|
    ensures Reaches(prog, At(pc, p, stack, capture, base),
                    if p < |prog.subject.units| && OpAccepts(op, CharAt(prog.subject, p))
                    then At(next, NextPos(prog.subject, p), stack, capture, base) else Fail(base))
  {
    ReachesStep(prog, At(pc, p, stack, capture, base),
                if p < |prog.subject.units| && OpAccepts(op, CharAt(prog.subject, p))
                then At(next, NextPos(prog.subject, p), stack, capture, base) else Fail(base));
  }

  lemma StepAssert(prog: Program, pc: int, next: int, kind: Assertion, p: nat, stack: seq<nat>, capture: Captures,
                   base: SavedStack)
    requires Holds(prog, pc, IAssert(kind)) && next == pc + 1 && p <= |prog.subject.units|
    ensures Reaches(prog, At(pc, p, stack, capture, base),
                    if Asserts(kind, prog.subject, p) then At(next, p, stack, capture, base) else Fail(base))
  {
    ReachesStep(prog, At(pc, p, stack, capture, base),
                if Asserts(kind, prog.subject, p) then At(next, p, stack, capture, base) else Fail(base));
  }
}
