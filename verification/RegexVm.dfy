/** The backtracking machine as a transition function over its configurations. */
module RegexVm {
  import opened RegexSyntax
  import opened RegexSemantics
  import opened Subject

  type Captures = seq<Option<nat>>

  datatype SavedKind = SplitPoint | LookPoint(negated: bool) | GreedyPoint

  /** An entry of the saved-state stack. `count` is used by GreedyPoint only. */
  datatype Saved = Saved(kind: SavedKind, pc: int, cptr: nat, stack: seq<nat>, capture: Captures, count: nat)

  /** The saved-state stack, newest entry on top. */
  datatype SavedStack = Bottom | Push(top: Saved, below: SavedStack)

  /** The loop of a simple greedy quantifier at `pc`: the inner run started at `cptr`, after
      `iterations` successful ones. */
  datatype Frame = Frame(pc: int, cptr: nat, iterations: nat)

  datatype Config =
    | Run(pc: int, cptr: nat, stack: seq<nat>, capture: Captures, states: SavedStack, call: Option<Frame>)
    | Fail(states: SavedStack)
    | Succeed(capture: Captures, states: SavedStack)
    | Halt(result: Option<Captures>)
    | Stuck

  datatype Program = Program(code: seq<Instr>, subject: Subject)

  // ----- character tests -----

  /** The search of REOP_range and REOP_range32 between two indices. */
  predicate BinarySearch(pairs: seq<(nat, nat)>, c: nat, low: nat, high: int)
    requires -1 <= high < |pairs|
    decreases high - low + 1
  {
    if low > high then false
    else
      var mid := (low + high) / 2;
      if c < pairs[mid].0 then BinarySearch(pairs, c, low, mid - 1)
      else if c > pairs[mid].1 then BinarySearch(pairs, c, mid + 1, high)
      else true
  }

  predicate RangeHit(pairs: seq<(nat, nat)>, narrow: bool, c: nat) {
    if pairs == [] || c < pairs[0].0 then false
    else if narrow && c >= 0xFFFF && pairs[|pairs| - 1].1 == 0xFFFF then true
    else if c > pairs[|pairs| - 1].1 then false
    else BinarySearch(pairs, c, 0, |pairs| - 1)
  }

  predicate OpAccepts(op: CharOp, c: nat) {
    match op
    case Exact(d) => c == d
    case NotLineTerminator => !IsLineTerminator(c)
    case AnyChar => true
    case Range16(pairs) => RangeHit(pairs, true, c)
    case Range32(pairs) => RangeHit(pairs, false, c)
  }

  // ----- transitions -----

  function Top<T>(s: seq<T>): (r: T)
    requires s != []
  {
    s[|s| - 1]
  }

  function Rest<T>(s: seq<T>): (r: seq<T>)
    requires s != []
  {
    s[..|s| - 1]
  }

  /** Leaving the loop of a simple greedy quantifier. */
  function FinishGreedy(prog: Program, f: Frame, c: Config): (r: Config)
    requires c.Run? && 0 <= f.pc < |prog.code| && prog.code[f.pc].ISimpleGreedy?
  {
    var i := prog.code[f.pc];
    if f.iterations < i.min then Fail(c.states)
    else
      var states := if f.iterations > i.min
                    then Push(Saved(GreedyPoint, f.pc, f.cptr, c.stack, c.capture, f.iterations - i.min), c.states)
                    else c.states;
      Run(f.pc + 1 + i.offset, f.cptr, c.stack, c.capture, states, None)
  }

  /** no_match: an inner run returns to its loop, the outer run unwinds. */
  function NoMatch(prog: Program, c: Config): (r: Config)
    requires c.Run?
  {
    match c.call
    case None => Fail(c.states)
    case Some(f) =>
      if 0 <= f.pc < |prog.code| && prog.code[f.pc].ISimpleGreedy? then FinishGreedy(prog, f, c) else Stuck
  }

  /** REOP_match: an inner run hands its position to its loop, the outer run unwinds. */
  function MatchOp(prog: Program, c: Config): (r: Config)
    requires c.Run?
  {
    match c.call
    case None => Succeed(c.capture, c.states)
    case Some(f) =>
      if 0 <= f.pc < |prog.code| && prog.code[f.pc].ISimpleGreedy? then
        var i := prog.code[f.pc];
        var g := Frame(f.pc, c.cptr, f.iterations + 1);
        if g.iterations >= i.max && i.max != INFINITY then FinishGreedy(prog, g, c)
        else c.(pc := f.pc + 1, call := Some(g))
      else Stuck
  }

  function Save(c: Config, kind: SavedKind, pc: int): (r: SavedStack)
    requires c.Run?
  {
    Push(Saved(kind, pc, c.cptr, c.stack, c.capture, 0), c.states)
  }

  /** The instructions an inner run may execute as well. */
  function StraightOp(prog: Program, i: Instr, c: Config): (r: Config)
    requires c.Run? && c.cptr <= |prog.subject.units|
    requires i.IRead? || i.IAssert? || i.IMatch?
  {
    var t := prog.subject;
    match i
    case IRead(op) =>
      if c.cptr < |t.units| && OpAccepts(op, CharAt(t, c.cptr))
      then c.(pc := c.pc + 1, cptr := NextPos(t, c.cptr)) else NoMatch(prog, c)
    case IAssert(kind) =>
      if Asserts(kind, t, c.cptr) then c.(pc := c.pc + 1) else NoMatch(prog, c)
    case IMatch => MatchOp(prog, c)
  }

  function ClearCaptures(capture: Captures, first: nat, last: nat): (r: Captures) {
    seq(|capture|, i requires 0 <= i < |capture| => if 2 * first <= i <= 2 * last + 1 then None else capture[i])
  }

  /** The instructions that branch, save, or use the counter stack. */
  function ControlOp(prog: Program, i: Instr, c: Config): (r: Config)
    requires c.Run? && c.call == None && c.cptr <= |prog.subject.units|
    requires !(i.IRead? || i.IAssert? || i.IMatch?)
  {
    var next := c.pc + 1;
    match i
    case IPrev =>
      if c.cptr == 0 then Fail(c.states) else c.(pc := next, cptr := PrevPos(prog.subject, c.cptr))
    case IGoto(offset) => c.(pc := next + offset)
    case ISplitGotoFirst(offset) => c.(pc := next + offset, states := Save(c, SplitPoint, next))
    case ISplitNextFirst(offset) => c.(pc := next, states := Save(c, SplitPoint, next + offset))
    case ILook(negated, offset) => c.(pc := next, states := Save(c, LookPoint(negated), next + offset))
    case ISaveStart(k) =>
      if 2 * k >= |c.capture| then Stuck else c.(pc := next, capture := c.capture[2 * k := Some(c.cptr)])
    case ISaveEnd(k) =>
      if 2 * k + 1 >= |c.capture| then Stuck else c.(pc := next, capture := c.capture[2 * k + 1 := Some(c.cptr)])
    case ISaveReset(first, last) =>
      if 2 * last + 1 >= |c.capture| then Stuck else c.(pc := next, capture := ClearCaptures(c.capture, first, last))
    case IPushI32(value) => c.(pc := next, stack := c.stack + [value])
    case IPushCharPos => c.(pc := next, stack := c.stack + [c.cptr])
    case IDrop => if c.stack == [] then Stuck else c.(pc := next, stack := Rest(c.stack))
    case ILoop(offset) =>
      if c.stack == [] then Stuck
      else
        var counter := if Top(c.stack) == 0 then 0xFFFF_FFFF_FFFF_FFFF else Top(c.stack) - 1;
        c.(pc := if counter != 0 then next + offset else next, stack := Rest(c.stack) + [counter])
    case ICheckAdvance =>
      if c.stack == [] then Stuck
      else if Top(c.stack) == c.cptr then Fail(c.states)
      else c.(pc := next, stack := Rest(c.stack))
    case ISimpleGreedy(_, _, _, _) => c.(pc := next, call := Some(Frame(c.pc, c.cptr, 0)))
  }

  /** Unwinding after a failure resumes at the newest choice that is left. */
  function FailStep(prog: Program, states: SavedStack): (r: Config) {
    match states
    case Bottom => Halt(None)
    case Push(s, below) =>
      match s.kind
      case SplitPoint => Run(s.pc, s.cptr, s.stack, s.capture, below, None)
      case LookPoint(negated) =>
        if negated then Run(s.pc, s.cptr, s.stack, s.capture, below, None) else Fail(below)
      case GreedyPoint =>
        if 0 <= s.pc < |prog.code| && prog.code[s.pc].ISimpleGreedy? && s.count > 0 then
          var i := prog.code[s.pc];
          var cptr := PrevMany(prog.subject, s.cptr, i.charCount);
          var left := if s.count == 1 then below else Push(s.(cptr := cptr, count := s.count - 1), below);
          Run(s.pc + 1 + i.offset, cptr, s.stack, s.capture, left, None)
        else Stuck
  }

  /** Unwinding after a match discards choices up to the enclosing lookaround. */
  function SucceedStep(capture: Captures, states: SavedStack): (r: Config) {
    match states
    case Bottom => Halt(Some(capture))
    case Push(s, below) =>
      match s.kind
      case LookPoint(negated) =>
        if negated then Fail(below) else Run(s.pc, s.cptr, s.stack, capture, below, None)
      case _ => Succeed(capture, below)
  }

  /** One step of lre_exec_backtrack. */
  function Step(prog: Program, c: Config): (r: Config) {
    match c
    case Run(pc, cptr, _, _, _, call) =>
      if !(0 <= pc < |prog.code|) || cptr > |prog.subject.units| then Stuck
      else
        var i := prog.code[pc];
        if i.IRead? || i.IAssert? || i.IMatch? then StraightOp(prog, i, c)
        else if call.Some? then Stuck
        else ControlOp(prog, i, c)
    case Fail(states) => FailStep(prog, states)
    case Succeed(capture, states) => SucceedStep(capture, states)
    case Halt(_) => c
    case Stuck => c
  }

  /** Configuration `i` of a run steps to the next one. */
  ghost predicate Linked(prog: Program, run: seq<Config>, i: nat)
    requires i + 1 < |run|
  {
    run[i + 1] == Step(prog, run[i])
  }

  ghost predicate IsRun(prog: Program, run: seq<Config>) {
    run != [] && forall i: nat {:trigger Linked(prog, run, i)} :: i + 1 < |run| ==> Linked(prog, run, i)
  }

  ghost predicate Reaches(prog: Program, c: Config, d: Config) {
    exists run :: IsRun(prog, run) && run[0] == c && run[|run| - 1] == d
  }

  lemma ReachesSelf(prog: Program, c: Config)
    ensures Reaches(prog, c, c)
  {
    assert IsRun(prog, [c]);
  }

  lemma ReachesStep(prog: Program, c: Config, d: Config)
    requires Step(prog, c) == d
    ensures Reaches(prog, c, d)
  {
    var run := [c, d];
    assert Linked(prog, run, 0);
    assert IsRun(prog, run);
  }

  lemma ReachesTransitive(prog: Program, c: Config, d: Config, e: Config)
    requires Reaches(prog, c, d) && Reaches(prog, d, e)
    ensures Reaches(prog, c, e)
  {
    var r :| IsRun(prog, r) && r[0] == c && r[|r| - 1] == d;
    var s :| IsRun(prog, s) && s[0] == d && s[|s| - 1] == e;
    var run := r + s[1..];
    JoinRuns(prog, r, s);
    assert run[0] == c && run[|run| - 1] == e;
  }

  lemma JoinRuns(prog: Program, r: seq<Config>, s: seq<Config>)
    requires IsRun(prog, r) && IsRun(prog, s) && r[|r| - 1] == s[0]
    ensures IsRun(prog, r + s[1..])
  {
    var run := r + s[1..];
    forall i: nat | i + 1 < |run| ensures Linked(prog, run, i) {
      if i + 1 < |r| {
        assert Linked(prog, r, i);
      } else {
        assert Linked(prog, s, i - |r| + 1);
        assert run[i] == s[i - |r| + 1];
      }
    }
  }
}
