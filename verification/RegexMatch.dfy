/** From the machine that forgets groups to the real one. */
module RegexMatch {
  import opened RegexSyntax
  import opened RegexSemantics
  import opened RegexVm
  import opened RegexErase
  import opened RegexSearch
  import opened RegexStack
  import opened RegexAtoms
  import opened Subject

  /** The bounds of the whole match. */
  function Whole(capture: Captures): (r: Captures) {
    if |capture| < 2 then capture else capture[..2]
  }

  function EraseStates(states: SavedStack): (r: SavedStack) {
    match states
    case Bottom => Bottom
    case Push(s, below) => Push(s.(capture := Whole(s.capture)), EraseStates(below))
  }

  function EraseConfig(c: Config): (r: Config) {
    match c
    case Run(pc, cptr, stack, capture, states, call) => Run(pc, cptr, stack, Whole(capture), EraseStates(states), call)
    case Fail(states) => Fail(EraseStates(states))
    case Succeed(capture, states) => Succeed(Whole(capture), EraseStates(states))
    case Halt(result) => Halt(if result.Some? then Some(Whole(result.value)) else None)
    case Stuck => Stuck
  }

  function EraseProgramOf(prog: Program): (r: Program) {
    Program(Erase(prog.code), prog.subject)
  }

  lemma EraseFinish(prog: Program, f: Frame, c: Config)
    requires c.Run? && 0 <= f.pc < |prog.code| && prog.code[f.pc].ISimpleGreedy?
    ensures EraseConfig(FinishGreedy(prog, f, c)) == FinishGreedy(EraseProgramOf(prog), f, EraseConfig(c))
  {
  }

  lemma EraseStraight(prog: Program, captures: nat, c: Config)
    requires c.Run? && Safe(prog, captures, c)
    requires var i := prog.code[c.pc]; i.IRead? || i.IAssert? || i.IMatch?
    ensures EraseConfig(Step(prog, c)) == Step(EraseProgramOf(prog), EraseConfig(c))
  {
    if c.call.Some? {
      var f := c.call.value;
      EraseFinish(prog, f, c);
      EraseFinish(prog, Frame(f.pc, c.cptr, f.iterations + 1), c);
    }
  }

  lemma WholeSave(capture: Captures, k: nat, v: Option<nat>)
    requires 2 <= |capture| && k < |capture|
    ensures Whole(capture[k := v]) == if k < 2 then Whole(capture)[k := v] else Whole(capture)
  {
  }

  lemma WholeClear(capture: Captures, first: nat, last: nat)
    requires 2 <= |capture|
    ensures Whole(ClearCaptures(capture, first, last))
         == if first > 0 then ClearCaptures(Whole(capture), 1, 0) else ClearCaptures(Whole(capture), 0, 0)
  {
  }

  lemma EraseControl(prog: Program, captures: nat, c: Config)
    requires captures > 0 && c.Run? && c.call == None && Safe(prog, captures, c) && Step(prog, c) != Stuck
    requires var i := prog.code[c.pc]; !(i.IRead? || i.IAssert? || i.IMatch?)
    ensures EraseConfig(Step(prog, c)) == Step(EraseProgramOf(prog), EraseConfig(c))
  {
    match prog.code[c.pc]
    case ISaveStart(k) =>
      WholeSave(c.capture, 2 * k, Some(c.cptr));
      WholeClear(c.capture, 1, 0);
      assert ClearCaptures(Whole(c.capture), 1, 0) == Whole(c.capture);
    case ISaveEnd(k) =>
      WholeSave(c.capture, 2 * k + 1, Some(c.cptr));
      assert ClearCaptures(Whole(c.capture), 1, 0) == Whole(c.capture);
    case ISaveReset(first, last) => WholeClear(c.capture, first, last);
    case _ =>
  }

  lemma EraseUnwind(prog: Program, captures: nat, c: Config)
    requires (c.Fail? || c.Succeed?) && Safe(prog, captures, c)
    ensures EraseConfig(Step(prog, c)) == Step(EraseProgramOf(prog), EraseConfig(c))
  {
  }

  /** Forgetting groups commutes with every step of the machine. */
  lemma EraseStep(prog: Program, captures: nat, c: Config)
    requires captures > 0 && SoundProgram(prog, captures) && Safe(prog, captures, c)
    ensures EraseConfig(Step(prog, c)) == Step(EraseProgramOf(prog), EraseConfig(c))
  {
    SafeStep(prog, captures, c);
    match c
    case Run(pc, _, _, _, _, _) =>
      var i := prog.code[pc];
      if i.IRead? || i.IAssert? || i.IMatch? {
        EraseStraight(prog, captures, c);
      } else {
        EraseControl(prog, captures, c);
      }
    case Fail(_) => EraseUnwind(prog, captures, c);
    case Succeed(_, _) => EraseUnwind(prog, captures, c);
    case Halt(_) =>
  }

  /** A run of the forgetful machine is followed by the real one. */
  lemma {:induction false} Follow(prog: Program, captures: nat, run: seq<Config>, c: Config) returns (d: Config)
    requires captures > 0 && SoundProgram(prog, captures) && Safe(prog, captures, c)
    requires IsRun(EraseProgramOf(prog), run) && run[0] == EraseConfig(c)
    ensures Reaches(prog, c, d) && EraseConfig(d) == run[|run| - 1]
    decreases |run|
  {
    if |run| == 1 {
      ReachesSelf(prog, c);
      return c;
    }
    var next := Step(prog, c);
    assert Linked(EraseProgramOf(prog), run, 0);
    EraseStep(prog, captures, c);
    SafeStep(prog, captures, c);
    RunTail(EraseProgramOf(prog), run);
    d := Follow(prog, captures, run[1..], next);
    ReachesStep(prog, c, next);
    ReachesTransitive(prog, c, next, d);
  }

  lemma RunTail(prog: Program, run: seq<Config>)
    requires IsRun(prog, run) && |run| > 1
    ensures IsRun(prog, run[1..])
  {
    forall i: nat | i + 1 < |run[1..]| ensures Linked(prog, run[1..], i) {
      assert Linked(prog, run, i + 1);
    }
  }

  /** What a halted machine says about the whole match. */
  predicate Says(d: Config, r: MatchResult) {
    && d.Halt?
    && match r
       case NotFound => d.result == None
       case Found(start, end) =>
         d.result.Some? && |d.result.value| >= 2 && d.result.value[0] == Some(start) && d.result.value[1] == Some(end)
  }

  lemma ErasedAnswer(d: Config, r: MatchResult)
    requires EraseConfig(d) == Answer(r)
    ensures Says(d, r)
  {
    if r.Found? {
      var whole := Whole(d.result.value);
      assert whole[0] == Some(r.start) && whole[1] == Some(r.end);
    }
  }

  lemma FollowReaches(prog: Program, captures: nat, c: Config, e: Config) returns (d: Config)
    requires captures > 0 && SoundProgram(prog, captures) && Safe(prog, captures, c)
    requires Reaches(EraseProgramOf(prog), EraseConfig(c), e)
    ensures Reaches(prog, c, d) && EraseConfig(d) == e
  {
    var run :| IsRun(EraseProgramOf(prog), run) && run[0] == EraseConfig(c) && run[|run| - 1] == e;
    d := Follow(prog, captures, run, c);
  }

  lemma StartIsSafe(n: Node, sticky: bool, t: Subject, p: nat)
    requires WellFormed(n) && p <= |t.units|
    ensures var prog, captures := Compiled(n, sticky, t), CaptureGroups(n);
            SoundProgram(prog, captures) && Safe(prog, captures, Start(p, captures))
    ensures EraseConfig(Start(p, CaptureGroups(n))) == Initial(p)
  {
    BalancedProgram(n, sticky, CaptureGroups(n));
    assert Whole(Start(p, CaptureGroups(n)).capture) == [None, None];
  }

  /** Compiling any pattern and running it from a character boundary terminates, and with the
      answer of ECMA-262: the same success, the same start and the same end. */
  lemma CompiledPatternIsCorrect(n: Node, sticky: bool, t: Subject, p: nat) returns (d: Config)
    requires WellFormed(n) && ValidSubject(t) && Boundary(t, p)
    ensures Reaches(Compiled(n, sticky, t), Start(p, CaptureGroups(n)), d)
    ensures Says(d, Exec(n, sticky, t, p))
  {
    var prog, captures := Compiled(n, sticky, t), CaptureGroups(n);
    ForgetfulPatternIsCorrect(n, sticky, t, p);
    StartIsSafe(n, sticky, t, p);
    d := FollowReaches(prog, captures, Start(p, captures), Answer(Exec(n, sticky, t, p)));
    ErasedAnswer(d, Exec(n, sticky, t, p));
  }
}
