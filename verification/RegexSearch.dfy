/** Whole programs: compilation of a pattern and the search it performs. */
module RegexSearch {
  import opened RegexSyntax
  import opened RegexSemantics
  import opened RegexVm
  import opened RegexExplore
  import opened RegexSteps
  import opened RegexAtoms
  import opened RegexCorrect
  import opened RegexErase
  import opened Subject

  /** The loop in front of a pattern that is not sticky: try here, else one character on. */
  function SearchPrefix(sticky: bool): (r: seq<Instr>) {
    if sticky then [] else [ISplitGotoFirst(2), IRead(AnyChar), IGoto(-3)]
  }

  /** The code lre_compile emits for a pattern. */
  function ProgramCode(n: Node, sticky: bool): (r: seq<Instr>)
    requires WellFormed(n)
  {
    SearchPrefix(sticky) + ([ISaveStart(0)] + Code(n, false) + [ISaveEnd(0), IMatch])
  }

  function Compiled(n: Node, sticky: bool, t: Subject): (r: Program)
    requires WellFormed(n)
  {
    Program(ProgramCode(n, sticky), t)
  }

  /** The compiled program with its groups forgotten. */
  function Forgetful(n: Node, sticky: bool, t: Subject): (r: Program)
    requires WellFormed(n)
  {
    Program(Erase(ProgramCode(n, sticky)), t)
  }

  /** The start of lre_exec at position `p`, for a program with one capture. */
  function Initial(p: nat): (r: Config) {
    At(0, p, [], [None, None], Bottom)
  }

  datatype MatchResult = NotFound | Found(start: nat, end: nat)

  /** RegExpBuiltinExec of section 22.2.7.2 of ECMA-262: the matcher is tried at `p` and, unless
      the pattern is sticky, at every later character. */
  ghost function Exec(n: Node, sticky: bool, t: Subject, p: nat): (r: MatchResult)
    requires Boundary(t, p)
    decreases |t.units| - p
  {
    var r := Matcher(n, false, t, p, y => Some(y));
    if r.Some? then Found(p, r.value)
    else if sticky || p == |t.units| then NotFound
    else
      StepForward(t, p);
      Exec(n, sticky, t, NextPos(t, p))
  }

  function Answer(r: MatchResult): (result: Config) {
    match r
    case NotFound => Halt(None)
    case Found(start, end) => Halt(Some([Some(start), Some(end)]))
  }

  lemma {:induction false} FirstIsHead(qs: seq<nat>)
    ensures FirstAccepted(qs, y => Some(y)) == if qs == [] then None else Some(qs[0])
  {
  }

  /** The matcher with the identity continuation finds the first end position. */
  lemma MatcherFindsFirst(n: Node, t: Subject, p: nat)
    requires Boundary(t, p)
    ensures Matcher(n, false, t, p, y => Some(y)) ==
            var qs := Ends(n, false, t, p); if qs == [] then None else Some(qs[0])
  {
    MatcherIsFirstAccepted(n, false, t, p, y => Some(y));
    FirstIsHead(Ends(n, false, t, p));
  }

  // ----- one attempt -----

  lemma StepSave(prog: Program, pc: int, next: int, end: bool, p: nat, stack: seq<nat>, capture: Captures,
                 base: SavedStack)
    requires Holds(prog, pc, if end then ISaveEnd(0) else ISaveStart(0)) && next == pc + 1
    requires p <= |prog.subject.units| && |capture| == 2
    ensures Reaches(prog, At(pc, p, stack, capture, base),
                    At(next, p, stack, capture[(if end then 1 else 0) := Some(p)], base))
  {
    ReachesStep(prog, At(pc, p, stack, capture, base),
                At(next, p, stack, capture[(if end then 1 else 0) := Some(p)], base));
  }

  lemma StepHalt(prog: Program, capture: Captures)
    ensures Reaches(prog, Succeed(capture, Bottom), Halt(Some(capture)))
    ensures Reaches(prog, Fail(Bottom), Halt(None))
  {
    ReachesStep(prog, Succeed(capture, Bottom), Halt(Some(capture)));
    ReachesStep(prog, Fail(Bottom), Halt(None));
  }

  /** The pattern with its two saves and its match lies at `pc`. */
  ghost predicate PatternAt(prog: Program, n: Node, pc: int)
    requires WellFormed(n)
  {
    && Holds(prog, pc, ISaveStart(0)) && CodeAt(prog, pc + 1, Plain(n, false))
    && Holds(prog, pc + 1 + |Plain(n, false)|, ISaveEnd(0)) && Holds(prog, pc + 2 + |Plain(n, false)|, IMatch)
  }

  /** A successful attempt halts with the start and the first end. */
  lemma AttemptMatches(prog: Program, save: int, q: nat, p: nat, base: SavedStack, states: SavedStack, start: Config)
    requires Holds(prog, save, ISaveEnd(0)) && Holds(prog, save + 1, IMatch) && q <= |prog.subject.units|
    requires Extends(states, base) && Extends(base, Bottom)
    requires Reaches(prog, start, At(save, q, [], [Some(p), None], states))
    ensures Reaches(prog, start, Halt(Some([Some(p), Some(q)])))
  {
    var done := [Some(p), Some(q)];
    StepSave(prog, save, save + 1, true, q, [], [Some(p), None], states);
    assert [Some(p), None][1 := Some(q)] == done;
    ReachesTransitive(prog, start, At(save, q, [], [Some(p), None], states), At(save + 1, q, [], done, states));
    ExtendsTransitive(states, base, Bottom);
    MatchUnwinds(prog, save + 1, q, [], done, states, Bottom);
    ReachesTransitive(prog, start, At(save + 1, q, [], done, states), Succeed(done, Bottom));
    StepHalt(prog, done);
    ReachesTransitive(prog, start, Succeed(done, Bottom), Halt(Some(done)));
  }

  /** One attempt with the code between the saves exploring `qs`. */
  lemma AttemptAnswers(prog: Program, pc: int, save: int, qs: seq<nat>, p: nat, base: SavedStack)
    requires Holds(prog, pc, ISaveStart(0)) && Holds(prog, save, ISaveEnd(0)) && Holds(prog, save + 1, IMatch)
    requires p <= |prog.subject.units| && Extends(base, Bottom)
    requires forall i :: 0 <= i < |qs| ==> qs[i] <= |prog.subject.units|
    requires Explores(prog, At(pc + 1, p, [], [Some(p), None], base), qs, save, [], [Some(p), None], base)
    ensures Reaches(prog, At(pc, p, [], [None, None], base),
                    if qs == [] then Fail(base) else Halt(Some([Some(p), Some(qs[0])])))
  {
    var start, inside := At(pc, p, [], [None, None], base), At(pc + 1, p, [], [Some(p), None], base);
    StepSave(prog, pc, pc + 1, false, p, [], [None, None], base);
    assert [None, None][0 := Some(p)] == [Some(p), None];
    if qs == [] {
      ExploresFailure(prog, inside, save, [], [Some(p), None], base);
      ReachesTransitive(prog, start, inside, Fail(base));
    } else {
      var states := ExploresUncons(prog, inside, qs, save, [], [Some(p), None], base);
      ReachesTransitive(prog, start, inside, At(save, qs[0], [], [Some(p), None], states));
      AttemptMatches(prog, save, qs[0], p, base, states, start);
    }
  }

  lemma Attempt(prog: Program, n: Node, pc: int, p: nat, base: SavedStack)
    requires WellFormed(n) && ValidSubject(prog.subject) && PatternAt(prog, n, pc)
    requires Boundary(prog.subject, p) && Extends(base, Bottom)
    ensures var qs := Ends(n, false, prog.subject, p);
            Reaches(prog, At(pc, p, [], [None, None], base),
                    if qs == [] then Fail(base) else Halt(Some([Some(p), Some(qs[0])])))
  {
    var save := pc + 1 + |Plain(n, false)|;
    Simulate(prog, n, false, pc + 1, save, [Some(p), None]);
    EndsInDirection(n, false, prog.subject, p);
    AttemptAnswers(prog, pc, save, EndsOf(n, false, prog.subject)(p), p, base);
  }

  // ----- the search -----

  lemma SavedLayout(prog: Program, pc: int, code: seq<Instr>)
    requires CodeAt(prog, pc, [ISaveStart(0)] + code + [ISaveEnd(0), IMatch])
    ensures Holds(prog, pc, ISaveStart(0)) && CodeAt(prog, pc + 1, code)
    ensures Holds(prog, pc + 1 + |code|, ISaveEnd(0)) && Holds(prog, pc + 2 + |code|, IMatch)
  {
    CodeAtConcat(prog, pc, [ISaveStart(0)] + code, [ISaveEnd(0), IMatch]);
    CodeAtConcat(prog, pc, [ISaveStart(0)], code);
    assert Holds(prog, pc + 0, [ISaveStart(0)][0]);
    assert Holds(prog, pc + (1 + |code|) + 0, [ISaveEnd(0), IMatch][0]);
    assert Holds(prog, pc + (1 + |code|) + 1, [ISaveEnd(0), IMatch][1]);
  }

  lemma PrefixLayout(prog: Program)
    requires CodeAt(prog, 0, SearchPrefix(false))
    ensures Holds(prog, 0, ISplitGotoFirst(2)) && Holds(prog, 1, IRead(AnyChar)) && Holds(prog, 2, IGoto(-3))
  {
    var prefix := SearchPrefix(false);
    assert Holds(prog, 0 + 0, prefix[0]) && Holds(prog, 0 + 1, prefix[1]) && Holds(prog, 0 + 2, prefix[2]);
  }

  lemma WholeLayout(prog: Program, prefix: seq<Instr>, body: seq<Instr>)
    requires prog.code == prefix + body
    ensures CodeAt(prog, 0, prefix) && CodeAt(prog, |prefix|, body)
  {
    assert CodeAt(prog, 0, prefix + body);
    CodeAtConcat(prog, 0, prefix, body);
  }

  lemma EraseProgram(n: Node, sticky: bool)
    requires WellFormed(n)
    ensures Erase(ProgramCode(n, sticky))
         == SearchPrefix(sticky) + ([ISaveStart(0)] + Plain(n, false) + [ISaveEnd(0), IMatch])
  {
    EraseConcat(SearchPrefix(sticky), [ISaveStart(0)] + Code(n, false) + [ISaveEnd(0), IMatch]);
    EraseConcat([ISaveStart(0)] + Code(n, false), [ISaveEnd(0), IMatch]);
    EraseConcat([ISaveStart(0)], Code(n, false));
    EraseOne(ISaveStart(0));
    EraseTwo(ISaveEnd(0), IMatch);
    assert Erase(SearchPrefix(sticky)) == SearchPrefix(sticky);
  }

  lemma LayOut(n: Node, sticky: bool, t: Subject)
    requires WellFormed(n)
    ensures var prog := Forgetful(n, sticky, t);
            && PatternAt(prog, n, if sticky then 0 else 3)
            && (!sticky ==>
                  Holds(prog, 0, ISplitGotoFirst(2)) && Holds(prog, 1, IRead(AnyChar)) && Holds(prog, 2, IGoto(-3)))
  {
    var prog, prefix := Forgetful(n, sticky, t), SearchPrefix(sticky);
    EraseProgram(n, sticky);
    WholeLayout(prog, prefix, [ISaveStart(0)] + Plain(n, false) + [ISaveEnd(0), IMatch]);
    SavedLayout(prog, |prefix|, Plain(n, false));
    if !sticky { PrefixLayout(prog); }
  }

  /** After a failed attempt: one character on, or the end of the search. */
  lemma NextAttempt(prog: Program, p: nat)
    requires Holds(prog, 1, IRead(AnyChar)) && Holds(prog, 2, IGoto(-3)) && p <= |prog.subject.units|
    ensures Reaches(prog, At(1, p, [], [None, None], Bottom),
                    if p < |prog.subject.units| then Initial(NextPos(prog.subject, p)) else Halt(None))
  {
    var start := At(1, p, [], [None, None], Bottom);
    StepRead(prog, 1, 2, AnyChar, p, [], [None, None], Bottom);
    if p < |prog.subject.units| {
      var q := NextPos(prog.subject, p);
      StepGoto(prog, 2, 0, -3, q, [], [None, None], Bottom);
      ReachesTransitive(prog, start, At(2, q, [], [None, None], Bottom), Initial(q));
    } else {
      StepHalt(prog, []);
      ReachesTransitive(prog, start, Fail(Bottom), Halt(None));
    }
  }

  /** The attempt at `p`, made with the rest of the search saved: an answer, or on to the rest. */
  lemma FirstAttempt(prog: Program, n: Node, p: nat)
    requires WellFormed(n) && ValidSubject(prog.subject) && Boundary(prog.subject, p)
    requires PatternAt(prog, n, 3) && Holds(prog, 0, ISplitGotoFirst(2))
    ensures var qs := Ends(n, false, prog.subject, p);
            Reaches(prog, Initial(p), if qs == [] then At(1, p, [], [None, None], Bottom)
                                      else Halt(Some([Some(p), Some(qs[0])])))
  {
    var qs, saved := Ends(n, false, prog.subject, p), SavedAt(SplitPoint, 1, p, [], [None, None]);
    var base := Push(saved, Bottom);
    var start, first := Initial(p), At(3, p, [], [None, None], base);
    assert Extends(base, Bottom);
    StepSplit(prog, 0, false, 2, 3, 1, p, [], [None, None], Bottom);
    Attempt(prog, n, 3, p, base);
    if qs == [] {
      ReachesTransitive(prog, start, first, Fail(base));
      StepRetry(prog, saved, Bottom);
      ReachesTransitive(prog, start, Fail(base), At(1, p, [], [None, None], Bottom));
    } else {
      ReachesTransitive(prog, start, first, Halt(Some([Some(p), Some(qs[0])])));
    }
  }

  ghost predicate SearchAt(prog: Program, n: Node)
    requires WellFormed(n)
  {
    && PatternAt(prog, n, 3) && Holds(prog, 0, ISplitGotoFirst(2))
    && Holds(prog, 1, IRead(AnyChar)) && Holds(prog, 2, IGoto(-3))
  }

  lemma {:induction false} SearchFrom(prog: Program, n: Node, t: Subject, p: nat)
    requires WellFormed(n) && ValidSubject(t) && Boundary(t, p) && prog.subject == t && SearchAt(prog, n)
    ensures Reaches(prog, Initial(p), Answer(Exec(n, false, t, p)))
    decreases |t.units| - p
  {
    hide Reaches, Ends, WellFormed, Matcher, PatternAt, Holds;
    MatcherFindsFirst(n, t, p);
    FirstAttempt(prog, n, p);
    if Ends(n, false, t, p) == [] {
      var failed := At(1, p, [], [None, None], Bottom);
      NextAttempt(prog, p);
      if p < |t.units| {
        StepForward(t, p);
        SearchFrom(prog, n, t, NextPos(t, p));
        ReachesTransitive(prog, Initial(p), failed, Initial(NextPos(t, p)));
        ReachesTransitive(prog, Initial(p), Initial(NextPos(t, p)), Answer(Exec(n, false, t, p)));
      } else {
        ReachesTransitive(prog, Initial(p), failed, Halt(None));
      }
    }
  }

  lemma StickyFrom(prog: Program, n: Node, t: Subject, p: nat)
    requires WellFormed(n) && ValidSubject(t) && Boundary(t, p) && prog.subject == t && PatternAt(prog, n, 0)
    ensures Reaches(prog, Initial(p), Answer(Exec(n, true, t, p)))
  {
    hide Reaches, Ends, WellFormed, Matcher, PatternAt, Holds;
    MatcherFindsFirst(n, t, p);
    assert Extends(Bottom, Bottom);
    Attempt(prog, n, 0, p, Bottom);
    if Ends(n, false, t, p) == [] {
      StepHalt(prog, []);
      ReachesTransitive(prog, Initial(p), Fail(Bottom), Halt(None));
    }
  }

  /** With its groups forgotten, a compiled pattern run from a character boundary terminates with
      the answer of ECMA-262. */
  lemma ForgetfulPatternIsCorrect(n: Node, sticky: bool, t: Subject, p: nat)
    requires WellFormed(n) && ValidSubject(t) && Boundary(t, p)
    ensures Reaches(Forgetful(n, sticky, t), Initial(p), Answer(Exec(n, sticky, t, p)))
  {
    LayOut(n, sticky, t);
    hide Reaches, PatternAt, Holds;
    if sticky {
      StickyFrom(Forgetful(n, sticky, t), n, t, p);
    } else {
      SearchFrom(Forgetful(n, sticky, t), n, t, p);
    }
  }
}
