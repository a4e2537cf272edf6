/** The compiled code of every pattern, its capture groups forgotten, explores exactly the end
    positions of the pattern. */
module RegexCorrect {
  import opened RegexSyntax
  import opened RegexSemantics
  import opened RegexVm
  import opened RegexExplore
  import opened RegexSteps
  import opened RegexAtoms
  import opened RegexLoops
  import opened RegexGreedy
  import opened RegexQuant
  import opened Subject
  import opened RegexErase
  import RegexRanges

  // ----- single characters and assertions -----

  lemma ExploresOption(prog: Program, start: Config, q: Option<nat>, to: int, stack: seq<nat>, capture: Captures,
                       base: SavedStack)
    requires Reaches(prog, start, match q case None => Fail(base) case Some(p) => At(to, p, stack, capture, base))
    ensures Explores(prog, start, ToSeq(q), to, stack, capture, base)
  {
    match q
    case None =>
      ExploresNone(prog, to, stack, capture, base);
      ExploresAfter(prog, start, Fail(base), [], to, stack, capture, base);
    case Some(p) =>
      ExploresOne(prog, to, p, stack, capture, base);
      ExploresAfter(prog, start, At(to, p, stack, capture, base), [p], to, stack, capture, base);
  }

  lemma ReadsForward(prog: Program, test: CharTest, pc: int, to: int, p: nat, stack: seq<nat>, capture: Captures,
                     base: SavedStack)
    requires WellFormedTest(test) && ValidSubject(prog.subject) && Boundary(prog.subject, p)
    requires Holds(prog, pc, IRead(TestOp(test))) && to == pc + 1
    ensures Explores(prog, At(pc, p, stack, capture, base), ToSeq(ReadChar(test, false, prog.subject, p)),
                     to, stack, capture, base)
  {
    if p < |prog.subject.units| {
      CharBound(prog.subject, p);
      RegexRanges.TestOpFaithful(test, CharAt(prog.subject, p));
    }
    StepRead(prog, pc, to, TestOp(test), p, stack, capture, base);
    ExploresOption(prog, At(pc, p, stack, capture, base), ReadChar(test, false, prog.subject, p), to, stack, capture,
                   base);
  }

  /** Step back, read, step back: the character before `p` is tested and passed. */
  lemma ReadsBackward(prog: Program, test: CharTest, pc: int, to: int, p: nat, stack: seq<nat>, capture: Captures,
                      base: SavedStack)
    requires WellFormedTest(test) && ValidSubject(prog.subject) && Boundary(prog.subject, p)
    requires Holds(prog, pc, IPrev) && Holds(prog, pc + 1, IRead(TestOp(test))) && Holds(prog, pc + 2, IPrev)
    requires to == pc + 3
    ensures Explores(prog, At(pc, p, stack, capture, base), ToSeq(ReadChar(test, true, prog.subject, p)),
                     to, stack, capture, base)
  {
    var t, start := prog.subject, At(pc, p, stack, capture, base);
    StepPrev(prog, pc, pc + 1, p, stack, capture, base);
    if p > 0 {
      var prev := PrevPos(t, p);
      StepBack(t, p);
      CharBound(t, prev);
      RegexRanges.TestOpFaithful(test, CharAt(t, prev));
      StepRead(prog, pc + 1, pc + 2, TestOp(test), prev, stack, capture, base);
      if Accepts(test, CharBefore(t, p)) {
        StepPrev(prog, pc + 2, to, p, stack, capture, base);
        ReachesTransitive(prog, start, At(pc + 1, prev, stack, capture, base), At(pc + 2, p, stack, capture, base));
        ReachesTransitive(prog, start, At(pc + 2, p, stack, capture, base), At(to, prev, stack, capture, base));
      } else {
        ReachesTransitive(prog, start, At(pc + 1, prev, stack, capture, base), Fail(base));
      }
    }
    ExploresOption(prog, start, ReadChar(test, true, t, p), to, stack, capture, base);
  }

  lemma CharRuns(prog: Program, n: Node, backward: bool, pc: int, to: int, capture: Captures)
    requires n.Char? && WellFormed(n) && ValidSubject(prog.subject)
    requires CodeAt(prog, pc, Code(n, backward)) && to == pc + |Code(n, backward)|
    ensures RunsAtom(prog, EndsOf(n, backward, prog.subject), pc, to, capture)
  {
    var code := Code(n, backward);
    assert Holds(prog, pc + 0, code[0]);
    if backward {
      assert Holds(prog, pc + 1, code[1]) && Holds(prog, pc + 2, code[2]);
    }
    forall p: nat, stack, base | Boundary(prog.subject, p)
      ensures Explores(prog, At(pc, p, stack, capture, base), EndsOf(n, backward, prog.subject)(p), to, stack, capture,
                       base)
    {
      assert Ends(n, backward, prog.subject, p) == ToSeq(ReadChar(n.test, backward, prog.subject, p));
      if backward {
        ReadsBackward(prog, n.test, pc, to, p, stack, capture, base);
      } else {
        ReadsForward(prog, n.test, pc, to, p, stack, capture, base);
      }
    }
  }

  lemma AssertRuns(prog: Program, kind: Assertion, backward: bool, pc: int, to: int, capture: Captures)
    requires Holds(prog, pc, IAssert(kind)) && to == pc + 1
    ensures RunsAtom(prog, EndsOf(Assert(kind), backward, prog.subject), pc, to, capture)
  {
    forall p: nat, stack, base | Boundary(prog.subject, p)
      ensures Explores(prog, At(pc, p, stack, capture, base), EndsOf(Assert(kind), backward, prog.subject)(p),
                       to, stack, capture, base)
    {
      var q := if Asserts(kind, prog.subject, p) then Some(p) else None;
      StepAssert(prog, pc, to, kind, p, stack, capture, base);
      ExploresOption(prog, At(pc, p, stack, capture, base), q, to, stack, capture, base);
      assert Ends(Assert(kind), backward, prog.subject, p) == ToSeq(q);
    }
  }

  // ----- alternatives and lookarounds -----

  function Stay(): (r: Explorer) { p => [p] }

  lemma GotoRuns(prog: Program, pc: int, target: int, capture: Captures)
    requires Holds(prog, pc, IGoto(target - pc - 1))
    ensures RunsAtom(prog, Stay(), pc, target, capture)
  {
    forall p: nat, stack, base | Boundary(prog.subject, p)
      ensures Explores(prog, At(pc, p, stack, capture, base), Stay()(p), target, stack, capture, base)
    {
      ExploresOne(prog, target, p, stack, capture, base);
      ExploresFromGoto(prog, pc, target, target - pc - 1, p, [p], stack, target, stack, capture, base);
    }
  }

  lemma FirstBranchRuns(prog: Program, e: Explorer, backward: bool, pc: int, mid: int, end: int, capture: Captures)
    requires Directed(prog.subject, backward, e) && RunsAtom(prog, e, pc, mid, capture)
    requires Holds(prog, mid, IGoto(end - mid - 1))
    ensures RunsAtom(prog, e, pc, end, capture)
  {
    GotoRuns(prog, mid, end, capture);
    ThenStayRuns(prog, e, backward, pc, mid, end, capture);
  }

  /** Code that only moves on does not change what is explored before it. */
  lemma ThenStayRuns(prog: Program, e: Explorer, backward: bool, pc: int, mid: int, end: int, capture: Captures)
    requires Directed(prog.subject, backward, e) && RunsAtom(prog, e, pc, mid, capture)
    requires RunsAtom(prog, Stay(), mid, end, capture)
    ensures RunsAtom(prog, e, pc, end, capture)
  {
    ThenRuns(prog, e, Stay(), backward, pc, mid, end, capture);
    forall p: nat ensures e(p) == Then(e, Stay())(p) {
      BindSingletons(e(p), Stay());
    }
    RunsAlike(prog, Then(e, Stay()), e, pc, end, capture);
  }

  lemma SplitRuns(prog: Program, l: Explorer, r: Explorer, whole: Explorer, pc: int, second: int, end: int,
                  capture: Captures)
    requires Holds(prog, pc, ISplitNextFirst(second - pc - 1))
    requires RunsAtom(prog, l, pc + 1, end, capture) && RunsAtom(prog, r, second, end, capture)
    requires forall p: nat {:trigger whole(p)} :: Boundary(prog.subject, p) ==> whole(p) == l(p) + r(p)
    ensures RunsAtom(prog, whole, pc, end, capture)
  {
    forall p: nat, stack, base | Boundary(prog.subject, p)
      ensures Explores(prog, At(pc, p, stack, capture, base), whole(p), end, stack, capture, base)
    {
      var inner := Push(SavedAt(SplitPoint, second, p, stack, capture), base);
      assert whole(p) == l(p) + r(p);
      assert Explores(prog, At(pc + 1, p, stack, capture, inner), l(p), end, stack, capture, inner);
      assert Explores(prog, At(second, p, stack, capture, base), r(p), end, stack, capture, base);
      ExploresSplit(prog, pc, true, second - pc - 1, pc + 1, second, l(p), r(p), p, stack, end, stack, capture, inner,
                    base);
    }
  }

  /** A lookaround answers at `p` itself, from whether its body has any end at all. */
  lemma LookExplores(prog: Program, qs: seq<nat>, negated: bool, pc: int, mid: int, to: int, p: nat, stack: seq<nat>,
                     capture: Captures, base: SavedStack)
    requires Holds(prog, pc, ILook(negated, to - pc - 1)) && Holds(prog, mid, IMatch) && p <= |prog.subject.units|
    requires forall i :: 0 <= i < |qs| ==> qs[i] <= |prog.subject.units|
    requires var inner := Push(SavedAt(LookPoint(negated), to, p, stack, capture), base);
             Explores(prog, At(pc + 1, p, stack, capture, inner), qs, mid, stack, capture, inner)
    ensures Explores(prog, At(pc, p, stack, capture, base), if (qs != []) != negated then [p] else [],
                     to, stack, capture, base)
  {
    var inner := Push(SavedAt(LookPoint(negated), to, p, stack, capture), base);
    var start, body := At(pc, p, stack, capture, base), At(pc + 1, p, stack, capture, inner);
    StepLook(prog, pc, pc + 1, to, negated, to - pc - 1, p, stack, capture, base);
    var answer := if (qs != []) != negated then Some(p) else None;
    LookAnswers(prog, qs, negated, body, mid, to, p, stack, capture, inner, base);
    ReachesTransitive(prog, start, body,
                      match answer case None => Fail(base) case Some(x) => At(to, x, stack, capture, base));
    ExploresOption(prog, start, answer, to, stack, capture, base);
  }

  lemma LookAnswers(prog: Program, qs: seq<nat>, negated: bool, body: Config, mid: int, to: int, p: nat,
                    stack: seq<nat>, capture: Captures, inner: SavedStack, base: SavedStack)
    requires Holds(prog, mid, IMatch) && forall i :: 0 <= i < |qs| ==> qs[i] <= |prog.subject.units|
    requires inner == Push(SavedAt(LookPoint(negated), to, p, stack, capture), base)
    requires Explores(prog, body, qs, mid, stack, capture, inner)
    ensures Reaches(prog, body, if (qs != []) != negated then At(to, p, stack, capture, base) else Fail(base))
  {
    var answer := if (qs != []) != negated then At(to, p, stack, capture, base) else Fail(base);
    if qs == [] {
      ExploresFailure(prog, body, mid, stack, capture, inner);
      StepLookFailed(prog, inner.top, base);
      ReachesTransitive(prog, body, Fail(inner), answer);
    } else {
      var states := ExploresUncons(prog, body, qs, mid, stack, capture, inner);
      MatchUnwinds(prog, mid, qs[0], stack, capture, states, inner);
      ReachesTransitive(prog, body, At(mid, qs[0], stack, capture, states), Succeed(capture, inner));
      StepLookMatched(prog, inner.top, capture, base);
      ReachesTransitive(prog, body, Succeed(capture, inner), answer);
    }
  }

  lemma MatchUnwinds(prog: Program, pc: int, p: nat, stack: seq<nat>, capture: Captures, states: SavedStack,
                     base: SavedStack)
    requires Holds(prog, pc, IMatch) && p <= |prog.subject.units| && Extends(states, base)
    ensures Reaches(prog, At(pc, p, stack, capture, states), Succeed(capture, base))
  {
    StepMatch(prog, pc, p, stack, capture, states);
    SucceedUnwinds(prog, capture, states, base);
    ReachesTransitive(prog, At(pc, p, stack, capture, states), Succeed(capture, states), Succeed(capture, base));
  }

  lemma LookRuns(prog: Program, n: Node, backward: bool, body: Explorer, pc: int, mid: int, to: int, capture: Captures)
    requires n.Look? && body == EndsOf(n.body, n.backward, prog.subject)
    requires Directed(prog.subject, n.backward, body)
    requires Holds(prog, pc, ILook(n.negated, to - pc - 1)) && Holds(prog, mid, IMatch)
    requires RunsAtom(prog, body, pc + 1, mid, capture)
    ensures RunsAtom(prog, EndsOf(n, backward, prog.subject), pc, to, capture)
  {
    forall p: nat, stack, base | Boundary(prog.subject, p)
      ensures Explores(prog, At(pc, p, stack, capture, base), EndsOf(n, backward, prog.subject)(p), to, stack, capture,
                       base)
    {
      assert AllInDirection(prog.subject, n.backward, p, body(p));
      assert EndsOf(n, backward, prog.subject)(p) == if (body(p) != []) != n.negated then [p] else [];
      LookExplores(prog, body(p), n.negated, pc, mid, to, p, stack, capture, base);
    }
  }

  // ----- saves of groups -----

  /** What a forgotten save becomes. */
  const NOP: Instr := ISaveReset(1, 0)

  lemma StepNop(prog: Program, pc: int, next: int, p: nat, stack: seq<nat>, capture: Captures, base: SavedStack)
    requires Holds(prog, pc, NOP) && next == pc + 1 && p <= |prog.subject.units| && |capture| == 2
    ensures Reaches(prog, At(pc, p, stack, capture, base), At(next, p, stack, capture, base))
  {
    assert ClearCaptures(capture, 1, 0) == capture;
    ReachesStep(prog, At(pc, p, stack, capture, base), At(next, p, stack, capture, base));
  }

  lemma NopRuns(prog: Program, pc: int, to: int, capture: Captures)
    requires Holds(prog, pc, NOP) && to == pc + 1 && |capture| == 2
    ensures RunsAtom(prog, Stay(), pc, to, capture)
  {
    forall p: nat, stack, base | Boundary(prog.subject, p)
      ensures Explores(prog, At(pc, p, stack, capture, base), Stay()(p), to, stack, capture, base)
    {
      StepNop(prog, pc, to, p, stack, capture, base);
      ExploresOption(prog, At(pc, p, stack, capture, base), Some(p), to, stack, capture, base);
    }
  }

  /** A forgotten save in front. */
  lemma NopThenRuns(prog: Program, e: Explorer, pc: int, mid: int, to: int, capture: Captures)
    requires Holds(prog, pc, NOP) && mid == pc + 1 && |capture| == 2 && RunsAtom(prog, e, mid, to, capture)
    ensures RunsAtom(prog, e, pc, to, capture)
  {
    forall p: nat, stack, base | Boundary(prog.subject, p)
      ensures Explores(prog, At(pc, p, stack, capture, base), e(p), to, stack, capture, base)
    {
      StepNop(prog, pc, mid, p, stack, capture, base);
      ExploresAfter(prog, At(pc, p, stack, capture, base), At(mid, p, stack, capture, base), e(p), to, stack, capture,
                    base);
    }
  }

  // ----- every pattern -----

  /** The code of a pattern with its groups forgotten. */
  function Plain(n: Node, backward: bool): (r: seq<Instr>)
    requires WellFormed(n)
  {
    Erase(Code(n, backward))
  }

  lemma PlainLeaf(n: Node, backward: bool)
    requires WellFormed(n) && (n.Char? || n.Assert? || n.Empty?)
    ensures Plain(n, backward) == Code(n, backward)
  {
  }

  lemma PlainSeq(n: Node, backward: bool)
    requires n.Seq? && WellFormed(n)
    ensures Plain(n, backward) == if backward then Plain(n.right, backward) + Plain(n.left, backward)
                                  else Plain(n.left, backward) + Plain(n.right, backward)
  {
    EraseConcat(Code(n.right, backward), Code(n.left, backward));
    EraseConcat(Code(n.left, backward), Code(n.right, backward));
  }

  lemma PlainAlt(n: Node, backward: bool)
    requires n.Alt? && WellFormed(n)
    ensures Plain(n, backward) == var first, second := Plain(n.left, backward), Plain(n.right, backward);
                                  [ISplitNextFirst(|first| + 1)] + first + [IGoto(|second|)] + second
  {
    var first, second := Code(n.left, backward), Code(n.right, backward);
    EraseConcat([ISplitNextFirst(|first| + 1)] + first + [IGoto(|second|)], second);
    EraseFramed(ISplitNextFirst(|first| + 1), first, IGoto(|second|));
  }

  lemma PlainLook(n: Node, backward: bool)
    requires n.Look? && WellFormed(n)
    ensures Plain(n, backward) == var inner := Plain(n.body, n.backward);
      [ILook(n.negated, |inner| + 1)] + inner + [IMatch]
  {
    var inner := Code(n.body, n.backward);
    EraseFramed(ILook(n.negated, |inner| + 1), inner, IMatch);
  }

  lemma PlainCapture(n: Node, backward: bool)
    requires n.Capture? && WellFormed(n)
    ensures Plain(n, backward) == [NOP] + Plain(n.body, backward) + [NOP]
  {
    var inner, k := Code(n.body, backward), n.index;
    EraseFramed(ISaveStart(k), inner, ISaveEnd(k));
    EraseFramed(ISaveEnd(k), inner, ISaveStart(k));
  }

  lemma {:induction false} FirstIsPositive(n: Node)
    requires WellFormed(n) && CaptureEnd(n) > 0
    ensures CaptureFirst(n) > 0
  {
    match n
    case Seq(l, r) =>
      if CaptureEnd(l) > 0 { FirstIsPositive(l); }
      if CaptureEnd(r) > 0 { FirstIsPositive(r); }
    case Alt(l, r) =>
      if CaptureEnd(l) > 0 { FirstIsPositive(l); }
      if CaptureEnd(r) > 0 { FirstIsPositive(r); }
    case Look(_, _, b) => FirstIsPositive(b);
    case Quant(a, _, _, _) => FirstIsPositive(a);
    case Capture(_, b) => if CaptureEnd(b) > 0 { FirstIsPositive(b); }
    case _ =>
  }

  lemma PlainQuant(n: Node, backward: bool)
    requires n.Quant? && WellFormed(n)
    ensures Plain(n, backward) == (if ResetCode(n.atom, n.min) == [] then [] else [NOP])
                                  + QuantCode(Plain(n.atom, backward), n.min, n.max, n.greedy)
  {
    var reset, code := ResetCode(n.atom, n.min), QuantCode(Code(n.atom, backward), n.min, n.max, n.greedy);
    EraseConcat(reset, code);
    EraseQuant(Code(n.atom, backward), n.min, n.max, n.greedy);
    if reset != [] {
      FirstIsPositive(n.atom);
      EraseOne(reset[0]);
    }
  }

  /** Wherever the code of a pattern lies with its groups forgotten, running it explores the end
      positions of the pattern, in order. */
  lemma {:induction false} Simulate(prog: Program, n: Node, backward: bool, pc: int, to: int, capture: Captures)
    requires WellFormed(n) && ValidSubject(prog.subject) && |capture| == 2
    requires CodeAt(prog, pc, Plain(n, backward)) && to == pc + |Plain(n, backward)|
    ensures RunsAtom(prog, EndsOf(n, backward, prog.subject), pc, to, capture)
    decreases n, 1
  {
    match n
    case Char(_) => SimulateLeaf(prog, n, backward, pc, to, capture);
    case Assert(_) => SimulateLeaf(prog, n, backward, pc, to, capture);
    case Empty => SimulateLeaf(prog, n, backward, pc, to, capture);
    case Seq(_, _) => SimulateSeq(prog, n, backward, pc, to, capture);
    case Alt(_, _) => SimulateAlt(prog, n, backward, pc, to, capture);
    case Look(_, _, _) => SimulateLook(prog, n, backward, pc, to, capture);
    case Quant(_, _, _, _) => SimulateQuant(prog, n, backward, pc, to, capture);
    case Capture(_, _) => SimulateCapture(prog, n, backward, pc, to, capture);
  }

  lemma SimulateLeaf(prog: Program, n: Node, backward: bool, pc: int, to: int, capture: Captures)
    requires (n.Char? || n.Assert? || n.Empty?) && WellFormed(n) && ValidSubject(prog.subject)
    requires CodeAt(prog, pc, Plain(n, backward)) && to == pc + |Plain(n, backward)|
    ensures RunsAtom(prog, EndsOf(n, backward, prog.subject), pc, to, capture)
  {
    PlainLeaf(n, backward);
    match n
    case Char(_) => CharRuns(prog, n, backward, pc, to, capture);
    case Assert(kind) =>
      assert Holds(prog, pc + 0, Code(n, backward)[0]);
      AssertRuns(prog, kind, backward, pc, to, capture);
    case Empty => NothingRuns(prog, EndsOf(n, backward, prog.subject), pc, capture);
  }

  lemma {:induction false} SimulateSeq(prog: Program, n: Node, backward: bool, pc: int, to: int, capture: Captures)
    requires n.Seq? && WellFormed(n) && ValidSubject(prog.subject) && |capture| == 2
    requires CodeAt(prog, pc, Plain(n, backward)) && to == pc + |Plain(n, backward)|
    ensures RunsAtom(prog, EndsOf(n, backward, prog.subject), pc, to, capture)
    decreases n, 0
  {
    var (m, k) := if backward then (n.right, n.left) else (n.left, n.right);
    var mid := pc + |Plain(m, backward)|;
    PlainSeq(n, backward);
    CodeAtConcat(prog, pc, Plain(m, backward), Plain(k, backward));
    Simulate(prog, m, backward, pc, mid, capture);
    Simulate(prog, k, backward, mid, to, capture);
    SequenceRuns(prog, n, m, k, backward, pc, mid, to, capture);
  }

  lemma SequenceRuns(prog: Program, n: Node, m: Node, k: Node, backward: bool, pc: int, mid: int, to: int,
                     capture: Captures)
    requires n.Seq? && (m, k) == if backward then (n.right, n.left) else (n.left, n.right)
    requires RunsAtom(prog, EndsOf(m, backward, prog.subject), pc, mid, capture)
    requires RunsAtom(prog, EndsOf(k, backward, prog.subject), mid, to, capture)
    ensures RunsAtom(prog, EndsOf(n, backward, prog.subject), pc, to, capture)
  {
    var first, second := EndsOf(m, backward, prog.subject), EndsOf(k, backward, prog.subject);
    EndsDirected(m, backward, prog.subject);
    ThenRuns(prog, first, second, backward, pc, mid, to, capture);
    forall p: nat ensures Boundary(prog.subject, p) ==> EndsOf(n, backward, prog.subject)(p) == Then(first, second)(p) {
      if Boundary(prog.subject, p) { CompositeEnds(n, backward, prog.subject, p); }
    }
    RunsAlike(prog, Then(first, second), EndsOf(n, backward, prog.subject), pc, to, capture);
  }

  lemma {:induction false} SimulateAlt(prog: Program, n: Node, backward: bool, pc: int, to: int, capture: Captures)
    requires n.Alt? && WellFormed(n) && ValidSubject(prog.subject) && |capture| == 2
    requires CodeAt(prog, pc, Plain(n, backward)) && to == pc + |Plain(n, backward)|
    ensures RunsAtom(prog, EndsOf(n, backward, prog.subject), pc, to, capture)
    decreases n, 0
  {
    var first, second := Plain(n.left, backward), Plain(n.right, backward);
    var mid := pc + 1 + |first|;
    PlainAlt(n, backward);
    CodeAtConcat(prog, pc, [ISplitNextFirst(|first| + 1)] + first + [IGoto(|second|)], second);
    CodeAtFramed(prog, pc, ISplitNextFirst(|first| + 1), first, IGoto(|second|));
    Simulate(prog, n.left, backward, pc + 1, mid, capture);
    Simulate(prog, n.right, backward, mid + 1, to, capture);
    AlternativeRuns(prog, n, backward, pc, mid, to, capture);
  }

  lemma AlternativeRuns(prog: Program, n: Node, backward: bool, pc: int, mid: int, to: int, capture: Captures)
    requires n.Alt? && Holds(prog, pc, ISplitNextFirst(mid - pc)) && Holds(prog, mid, IGoto(to - mid - 1))
    requires RunsAtom(prog, EndsOf(n.left, backward, prog.subject), pc + 1, mid, capture)
    requires RunsAtom(prog, EndsOf(n.right, backward, prog.subject), mid + 1, to, capture)
    ensures RunsAtom(prog, EndsOf(n, backward, prog.subject), pc, to, capture)
  {
    var l, r := EndsOf(n.left, backward, prog.subject), EndsOf(n.right, backward, prog.subject);
    EndsDirected(n.left, backward, prog.subject);
    FirstBranchRuns(prog, l, backward, pc + 1, mid, to, capture);
    forall p: nat ensures Boundary(prog.subject, p) ==> EndsOf(n, backward, prog.subject)(p) == l(p) + r(p) {
      if Boundary(prog.subject, p) { CompositeEnds(n, backward, prog.subject, p); }
    }
    SplitRuns(prog, l, r, EndsOf(n, backward, prog.subject), pc, mid + 1, to, capture);
  }

  lemma {:induction false} SimulateLook(prog: Program, n: Node, backward: bool, pc: int, to: int, capture: Captures)
    requires n.Look? && WellFormed(n) && ValidSubject(prog.subject) && |capture| == 2
    requires CodeAt(prog, pc, Plain(n, backward)) && to == pc + |Plain(n, backward)|
    ensures RunsAtom(prog, EndsOf(n, backward, prog.subject), pc, to, capture)
    decreases n, 0
  {
    hide RunsAtom, Ends;
    var inner := Plain(n.body, n.backward);
    PlainLook(n, backward);
    CodeAtFramed(prog, pc, ILook(n.negated, |inner| + 1), inner, IMatch);
    Simulate(prog, n.body, n.backward, pc + 1, pc + 1 + |inner|, capture);
    EndsDirected(n.body, n.backward, prog.subject);
    LookRuns(prog, n, backward, EndsOf(n.body, n.backward, prog.subject), pc, pc + 1 + |inner|, to, capture);
  }

  lemma {:induction false} SimulateCapture(prog: Program, n: Node, backward: bool, pc: int, to: int, capture: Captures)
    requires n.Capture? && WellFormed(n) && ValidSubject(prog.subject) && |capture| == 2
    requires CodeAt(prog, pc, Plain(n, backward)) && to == pc + |Plain(n, backward)|
    ensures RunsAtom(prog, EndsOf(n, backward, prog.subject), pc, to, capture)
    decreases n, 0
  {
    var t, inner := prog.subject, Plain(n.body, backward);
    var mid := pc + 1 + |inner|;
    PlainCapture(n, backward);
    CodeAtFramed(prog, pc, NOP, inner, NOP);
    Simulate(prog, n.body, backward, pc + 1, mid, capture);
    EndsDirected(n.body, backward, t);
    NopRuns(prog, mid, to, capture);
    ThenStayRuns(prog, EndsOf(n.body, backward, t), backward, pc + 1, mid, to, capture);
    NopThenRuns(prog, EndsOf(n.body, backward, t), pc, pc + 1, to, capture);
    forall p: nat ensures Boundary(t, p) ==> EndsOf(n, backward, t)(p) == EndsOf(n.body, backward, t)(p) {
      if Boundary(t, p) { CompositeEnds(n, backward, t, p); }
    }
    RunsAlike(prog, EndsOf(n.body, backward, t), EndsOf(n, backward, t), pc, to, capture);
  }

  lemma {:induction false} SimulateQuant(prog: Program, n: Node, backward: bool, pc: int, to: int, capture: Captures)
    requires n.Quant? && WellFormed(n) && ValidSubject(prog.subject) && |capture| == 2
    requires CodeAt(prog, pc, Plain(n, backward)) && to == pc + |Plain(n, backward)|
    ensures RunsAtom(prog, EndsOf(n, backward, prog.subject), pc, to, capture)
    decreases n, 0
  {
    var a, code := n.atom, Plain(n.atom, backward);
    forall at, end | CodeAt(prog, at, code) && end == at + |code|
      ensures RunsAtom(prog, EndsOf(a, backward, prog.subject), at, end, capture)
    {
      Simulate(prog, a, backward, at, end, capture);
    }
    PlainQuant(n, backward);
    var loop := QuantCode(code, n.min, n.max, n.greedy);
    if ResetCode(a, n.min) == [] {
      assert [] + loop == loop;
      LoopRuns(prog, n, backward, pc, to, capture);
    } else {
      CodeAtConcat(prog, pc, [NOP], loop);
      assert Holds(prog, pc + 0, [NOP][0]);
      LoopRuns(prog, n, backward, pc + 1, to, capture);
      NopThenRuns(prog, EndsOf(n, backward, prog.subject), pc, pc + 1, to, capture);
    }
  }

  /** The quantifier itself, past the reset. */
  lemma LoopRuns(prog: Program, n: Node, backward: bool, pc: int, to: int, capture: Captures)
    requires n.Quant? && WellFormed(n) && ValidSubject(prog.subject)
    requires var code := QuantCode(Plain(n.atom, backward), n.min, n.max, n.greedy);
             CodeAt(prog, pc, code) && to == pc + |code|
    requires RunsAnywhere(prog, EndsOf(n.atom, backward, prog.subject), Plain(n.atom, backward), capture)
    ensures RunsAtom(prog, EndsOf(n, backward, prog.subject), pc, to, capture)
  {
    var t, atom := prog.subject, EndsOf(n.atom, backward, prog.subject);
    EndsDirected(n.atom, backward, t);
    AtomScans(n.atom, backward, t);
    QuantifierRuns(prog, atom, backward, Plain(n.atom, backward), n.min, n.max, n.greedy, pc, to, capture);
    forall p: nat
      ensures Boundary(t, p) ==>
                EndsOf(n, backward, t)(p) == RepeatOf(atom, backward, t, n.min, n.max, n.greedy)(p)
    {
      if Boundary(t, p) { CompositeEnds(n, backward, t, p); }
    }
    RunsAlike(prog, RepeatOf(atom, backward, t, n.min, n.max, n.greedy), EndsOf(n, backward, t), pc, to, capture);
  }

  lemma CompositeEnds(n: Node, backward: bool, t: Subject, p: nat)
    requires Boundary(t, p)
    ensures n.Seq? ==>
              Ends(n, backward, t, p) ==
              var (m, k) := if backward then (n.right, n.left) else (n.left, n.right);
              Bind(Ends(m, backward, t, p), EndsOf(k, backward, t))
    ensures n.Alt? ==> Ends(n, backward, t, p) == Ends(n.left, backward, t, p) + Ends(n.right, backward, t, p)
    ensures n.Capture? ==> Ends(n, backward, t, p) == Ends(n.body, backward, t, p)
    ensures n.Quant? ==>
              Ends(n, backward, t, p) == Repeat(EndsOf(n.atom, backward, t), backward, t, n.min, n.max, n.greedy, p)
  {
  }

  /** What the two scans of the atom's code promise about the atom. */
  lemma AtomScans(a: Node, backward: bool, t: Subject)
    requires WellFormed(a) && ValidSubject(t)
    ensures ChecksAdvance(t, EndsOf(a, backward, t), Plain(a, backward))
    ensures SimpleCount(Plain(a, backward)) > 0 ==>
              !backward && IsSimpleAtom(t, Plain(a, backward), EndsOf(a, backward, t))
  {
    var code := Code(a, backward);
    EraseScan(code);
    EraseSimple(code);
    if !NeedCheckAdvance(code) {
      forall p: nat | Boundary(t, p) ensures p !in EndsOf(a, backward, t)(p) {
        if p in Ends(a, backward, t, p) { ReadsMove(a, backward, t, p, p); }
      }
    }
    if SimpleCount(code) > 0 {
      BackwardNotSimple(a, backward);
      forall p: nat | Boundary(t, p) ensures EndsOf(a, backward, t)(p) == ToSeq(StraightRun(code, t, p)) {
        SimpleEnds(a, backward, t, p);
      }
    }
  }

  /** Backward code that reads a character is never simple. */
  lemma {:induction false} BackwardNotSimple(n: Node, backward: bool)
    requires WellFormed(n) && SimpleCount(Code(n, backward)) > 0
    ensures !backward
  {
    if n.Alt? || n.Look? || n.Capture? { BranchingCode(n, backward); }
    match n
    case Seq(l, r) =>
      SimpleConcat(Code(l, backward), Code(r, backward));
      SimpleConcat(Code(r, backward), Code(l, backward));
      if SimpleCount(Code(l, backward)) > 0 { BackwardNotSimple(l, backward); } else { BackwardNotSimple(r, backward); }
    case Quant(a, min, max, greedy) =>
      SimpleReset(a, min, QuantCode(Code(a, backward), min, max, greedy));
      StraightQuant(Code(a, backward), min, max, greedy);
      BackwardNotSimple(a, backward);
    case _ =>
  }
}
