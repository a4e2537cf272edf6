/** A pattern compiled and run. */
module RegexEngine {
  import opened RegexSyntax
  import opened RegexSearch
  import opened Subject
  import RegexAtoms
  import RegexCompiler
  import RegexExec
  import RegexStack

  /** The compiler counts the groups that the machine makes room for. */
  lemma CapturesAgree(n: Node)
    requires RegexCompiler.Numbered(n, 1)
    ensures RegexStack.CaptureGroups(n) == 1 + RegexCompiler.Groups(n)
  {
    RegexCompiler.NumberedRange(n, 1);
  }

  datatype Outcome = Refused | NoMatch | Match(start: nat, end: nat)

  /** What a pattern within the limits gives: the answer of ECMA-262. */
  ghost function Expected(n: Node, sticky: bool, t: Subject, index: nat): (outcome: Outcome)
    requires Boundary(t, index)
  {
    match Exec(n, sticky, t, index)
    case NotFound => NoMatch
    case Found(start, end) => Match(start, end)
  }

  /** The limits of the compiler: 255 groups, 65534 intervals in a class, 64 MB of code, 255 stacked values. */
  ghost predicate WithinLimits(n: Node, sticky: bool)
    requires WellFormed(n)
  {
    && RegexCompiler.Accepts(n, 1, RegexCompiler.StartSize(sticky), false)
    && forall k :: 0 <= k <= |ProgramCode(n, sticky)| ==>
         RegexStack.Depth(ProgramCode(n, sticky), k) <= RegexStack.STACK_SIZE_MAX
  }

  /** lre_compile and then lre_exec: refused exactly outside the limits, otherwise the answer of ECMA-262. */
  method CompileAndExecute(n: Node, sticky: bool, t: Subject, index: nat) returns (outcome: Outcome)
    requires WellFormed(n) && RegexCompiler.Numbered(n, 1) && RegexAtoms.ValidSubject(t) && Boundary(t, index)
    ensures outcome == if WithinLimits(n, sticky) then Expected(n, sticky, t, index) else Refused
  {
    hide RegexCompiler.Accepts, RegexCompiler.Numbered, Exec, ProgramCode, WellFormed;
    var compiled := RegexCompiler.CompilePattern(n, sticky);
    if !compiled.Compiled? {
      return Refused;
    }
    CapturesAgree(n);
    var found, capture := RegexExec.Execute(compiled.code, compiled.captureCount, t, index, n, sticky);
    if found {
      return Match(capture[0].value, capture[1].value);
    }
    return NoMatch;
  }
}
